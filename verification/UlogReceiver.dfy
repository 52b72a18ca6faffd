/** The ground side of ULog streaming: sequence check, resynchronisation and file writing. */
module UlogReceiver {
  import opened Bytes

  /** The dropout marker counts at most 25 lost packets, ten milliseconds each. */
  type DropCount = n: nat | n <= 25

  /** What ends up in the file: a piece written as one ULog message, or a dropout marker. */
  datatype Record = Message(bytes: seq<byte>) | Dropout(count: DropCount)

  /** The receiver's state. `file` is kept as its 16-byte header and the records behind it. */
  datatype Rx = Rx(
    gotHeader: bool,
    gotHeaderSection: bool,
    header: seq<byte>,
    records: seq<Record>,
    pending: seq<byte>,
    lastSequence: int,
    numDropouts: nat)

  const INITIAL: Rx := Rx(false, false, [], [], [], -1, 0)

  const NO_MESSAGE_START: byte := 255
  const HALF_RANGE: nat := 0x8000
  const FULL_RANGE: nat := 0x1_0000

  /** One LOGGING_DATA (`acked` false) or LOGGING_DATA_ACKED packet. */
  datatype LogData = LogData(acked: bool, sequence: nat, data: seq<byte>, offset: byte)

  datatype Outcome = Done(rx: Rx) | HeaderTooShort(rx: Rx)

  datatype SequenceCheck = SequenceCheck(newer: bool, drops: nat)

  datatype Parsed = Parsed(messages: seq<seq<byte>>, rest: seq<byte>)

  // ----- what is written

  function RenderRecord(r: Record): seq<byte> {
    match r
    case Message(bytes) => bytes
    case Dropout(n) => [2, 0, 79, (n * 10) as byte, 0]
  }

  function Render(rs: seq<Record>): seq<byte> {
    if rs == [] then [] else RenderRecord(rs[0]) + Render(rs[1..])
  }

  function AsRecords(ms: seq<seq<byte>>): seq<Record> {
    seq(|ms|, i requires 0 <= i < |ms| => Message(ms[i]))
  }

  lemma {:induction false} RenderConcat(a: seq<Record>, b: seq<Record>)
    ensures Render(a + b) == Render(a) + Render(b)
  {
    if a == [] {
      assert a + b == b;
    } else {
      var r, rest := a[0], a[1..];
      RenderConcat(rest, b);
      ConcatParts(a, b);
      Assoc(RenderRecord(r), Render(rest), Render(b));
    }
  }

  lemma {:induction false} RenderMessages(ms: seq<seq<byte>>)
    ensures Render(AsRecords(ms)) == Flatten(ms)
  {
    if ms != [] {
      RenderMessages(ms[1..]);
      assert AsRecords(ms)[1..] == AsRecords(ms[1..]);
    }
  }

  // ----- parsing a run of messages

  /** Length of the message that `d` starts with, header included. */
  function MessageLength(d: seq<byte>): nat
    requires |d| > 2
  {
    d[0] as int + d[1] as int * 256 + 3
  }

  predicate Whole(d: seq<byte>) {
    |d| > 2 && |d| == MessageLength(d)
  }

  /** The whole messages at the front of `d`, and what is left. */
  function ParseMessages(d: seq<byte>): (p: Parsed)
    decreases |d|
  {
    if |d| <= 2 || MessageLength(d) > |d| then Parsed([], d)
    else
      var n := MessageLength(d);
      var p := ParseMessages(d[n..]);
      Parsed([d[..n]] + p.messages, p.rest)
  }

  predicate AllWhole(ms: seq<seq<byte>>) {
    forall i :: 0 <= i < |ms| ==> Whole(ms[i])
  }

  /** Parsing loses no byte. */
  lemma {:induction false} ParseMessagesConserves(d: seq<byte>)
    ensures Flatten(ParseMessages(d).messages) + ParseMessages(d).rest == d
    decreases |d|
  {
    if |d| <= 2 || MessageLength(d) > |d| {
    } else {
      var n := MessageLength(d);
      ParseMessagesConserves(d[n..]);
      var p := ParseMessages(d[n..]);
      var ms := [d[..n]] + p.messages;
      assert ms[1..] == p.messages;
      Assoc(d[..n], Flatten(p.messages), p.rest);
    }
  }

  /** Parsing yields only whole messages and leaves less than one. */
  lemma {:induction false} ParseMessagesWhole(d: seq<byte>)
    ensures AllWhole(ParseMessages(d).messages)
    ensures var rest := ParseMessages(d).rest; |rest| > 2 ==> MessageLength(rest) > |rest|
    decreases |d|
  {
    if |d| <= 2 || MessageLength(d) > |d| {
    } else {
      ParseMessagesWhole(d[MessageLength(d)..]);
    }
  }

  lemma ParseMessagesCons(d: seq<byte>, a: seq<byte>, b: seq<byte>)
    requires |a| > 2 && MessageLength(a) <= |a| && d == a + b
    ensures var n := MessageLength(a);
      var p := ParseMessages(a[n..] + b);
      ParseMessages(d) == Parsed([a[..n]] + p.messages, p.rest)
  {
    var n := MessageLength(a);
    assert d[..n] == a[..n];
    assert d[n..] == a[n..] + b;
  }

  /** Carrying the remainder over any cut of the data gives the result of one call on the whole. */
  lemma {:induction false} ParseMessagesSplit(a: seq<byte>, b: seq<byte>)
    ensures var whole, first := ParseMessages(a + b), ParseMessages(a);
      var second := ParseMessages(first.rest + b);
      && whole.messages == first.messages + second.messages
      && whole.rest == second.rest
    decreases |a|
  {
    if |a| <= 2 || MessageLength(a) > |a| {
      assert ParseMessages(a).messages == [];
    } else {
      var n := MessageLength(a);
      ParseMessagesSplit(a[n..], b);
      ParseMessagesCons(a + b, a, b);
      var first := ParseMessages(a[n..]);
      Assoc([a[..n]], first.messages, ParseMessages(first.rest + b).messages);
    }
  }

  /** `written` are the first messages of `data`, and `rest` is what follows them. */
  ghost predicate WrittenSoFar(data: seq<byte>, written: seq<seq<byte>>, rest: seq<byte>) {
    && ParseMessages(data).messages == written + ParseMessages(rest).messages
    && ParseMessages(data).rest == ParseMessages(rest).rest
  }

  lemma WrittenStep(data: seq<byte>, written: seq<seq<byte>>, rest: seq<byte>)
    requires WrittenSoFar(data, written, rest) && |rest| > 2 && MessageLength(rest) <= |rest|
    ensures WrittenSoFar(data, written + [rest[..MessageLength(rest)]], rest[MessageLength(rest)..])
  {
    var n := MessageLength(rest);
    Assoc(written, [rest[..n]], ParseMessages(rest[n..]).messages);
  }

  lemma RecordsSnoc(log: seq<Record>, ms: seq<seq<byte>>, m: seq<byte>)
    ensures log + AsRecords(ms + [m]) == log + AsRecords(ms) + [Message(m)]
  {
    assert AsRecords(ms + [m]) == AsRecords(ms) + [Message(m)];
  }

  /** A whole message parses as itself. */
  lemma ParseWhole(d: seq<byte>)
    requires Whole(d)
    ensures ParseMessages(d) == Parsed([d], [])
  {
    assert d[..|d|] == d;
    assert d[|d|..] == [];
  }

  // ----- one packet

  function CheckSequence(last: int, sequence: nat): (r: SequenceCheck)
    requires -1 <= last < FULL_RANGE && sequence < FULL_RANGE
  {
    if last == -1 then SequenceCheck(true, 0)
    else if sequence == last then SequenceCheck(false, 0)
    else if sequence > last then
      if sequence - last > HALF_RANGE then SequenceCheck(false, 0)
      else SequenceCheck(true, sequence - last - 1)
    else if last - sequence > HALF_RANGE then
      SequenceCheck(true, FULL_RANGE - last - 1 + sequence)
    else SequenceCheck(false, 0)
  }

  /** Writes the whole messages of `data` and keeps the rest for later. */
  function Resume(rx: Rx, data: seq<byte>): Rx {
    var p := ParseMessages(data);
    rx.(records := rx.records + AsRecords(p.messages), pending := p.rest)
  }

  /** The 16-byte file header is taken off the first accepted data. */
  function TakeHeader(rx: Rx, data: seq<byte>): (Rx, seq<byte>)
    requires !rx.gotHeader ==> |data| >= 16
  {
    if rx.gotHeader then (rx, data)
    else (rx.(gotHeader := true, header := data[..16]), data[16..])
  }

  function NoteDropout(rx: Rx, drops: nat): Rx {
    if rx.gotHeaderSection && drops > 0
    then rx.(records := rx.records + [Dropout(if drops > 25 then 25 else drops)])
    else rx
  }

  /** After a gap: flush what is whole, forget the rest, pick up at the next message start. */
  function Resynchronise(rx: Rx, data: seq<byte>, offset: byte): Rx {
    var flushed := rx.(records := rx.records + AsRecords(ParseMessages(rx.pending).messages), pending := []);
    if offset == NO_MESSAGE_START then flushed else Resume(flushed, From(data, offset as nat))
  }

  /** Without a gap: extend the pending message, or complete it and go on behind it. */
  function Continue(rx: Rx, data: seq<byte>, offset: byte): Rx {
    if offset == NO_MESSAGE_START && rx.pending != [] then
      rx.(pending := rx.pending + data)
    else
      var completed :=
        if rx.pending == [] then rx
        else rx.(records := rx.records + [Message(rx.pending + UpTo(data, offset as nat))], pending := []);
      Resume(completed, From(data, offset as nat))
  }

  function Process(rx: Rx, data: seq<byte>, offset: byte, drops: nat): (r: Outcome)
    ensures r.rx.lastSequence == rx.lastSequence
    ensures r.rx.numDropouts == rx.numDropouts
    ensures r.rx.gotHeaderSection == rx.gotHeaderSection
  {
    if !rx.gotHeader && |data| < 16 then HeaderTooShort(rx)
    else
      var (rx1, body) := TakeHeader(rx, data);
      var rx2 := NoteDropout(rx1, drops);
      Done(if drops > 0 then Resynchronise(rx2, body, offset) else Continue(rx2, body, offset))
  }

  lemma RecordsConcat(a: seq<seq<byte>>, b: seq<seq<byte>>)
    ensures AsRecords(a + b) == AsRecords(a) + AsRecords(b)
  {
  }

  lemma ResynchroniseAppends(rx: Rx, data: seq<byte>, offset: byte) returns (ms: seq<seq<byte>>)
    ensures Resynchronise(rx, data, offset).records == rx.records + AsRecords(ms)
  {
    ms := ParseMessages(rx.pending).messages;
    if offset != NO_MESSAGE_START {
      var more := ParseMessages(From(data, offset as nat)).messages;
      Assoc(rx.records, AsRecords(ms), AsRecords(more));
      RecordsConcat(ms, more);
      ms := ms + more;
    }
  }

  lemma ContinueAppends(rx: Rx, data: seq<byte>, offset: byte) returns (ms: seq<seq<byte>>)
    ensures Continue(rx, data, offset).records == rx.records + AsRecords(ms)
  {
    if offset == NO_MESSAGE_START && rx.pending != [] {
      ms := [];
    } else {
      var more := ParseMessages(From(data, offset as nat)).messages;
      var first := if rx.pending == [] then [] else [rx.pending + UpTo(data, offset as nat)];
      assert AsRecords(first) == if rx.pending == [] then [] else [Message(first[0])];
      Assoc(rx.records, AsRecords(first), AsRecords(more));
      RecordsConcat(first, more);
      ms := first + more;
    }
  }

  /** A processed packet appends the marker for what was lost in front of it, and behind that only messages. */
  lemma ProcessAppends(rx: Rx, data: seq<byte>, offset: byte, drops: nat) returns (ms: seq<seq<byte>>)
    requires Process(rx, data, offset, drops).Done?
    ensures Process(rx, data, offset, drops).rx.records == NoteDropout(rx, drops).records + AsRecords(ms)
  {
    var (rx1, body) := TakeHeader(rx, data);
    var rx2 := NoteDropout(rx1, drops);
    if drops > 0 {
      ms := ResynchroniseAppends(rx2, body, offset);
    } else {
      ms := ContinueAppends(rx2, body, offset);
    }
  }

  /** The bookkeeping for an accepted packet. */
  function Accept(rx: Rx, m: LogData, drops: nat): Rx {
    rx.(numDropouts := rx.numDropouts + drops,
        gotHeaderSection := rx.gotHeaderSection || !m.acked,
        lastSequence := m.sequence)
  }

  function Receive(rx: Rx, m: LogData): Outcome
    requires -1 <= rx.lastSequence < FULL_RANGE && m.sequence < FULL_RANGE
  {
    var check := CheckSequence(rx.lastSequence, m.sequence);
    if check.newer then Process(Accept(rx, m, check.drops), m.data, m.offset, check.drops)
    else Done(rx)
  }

  // ----- the streaming object

  class MavlinkLogStreaming {
    var gotUlogHeader: bool
    var gotHeaderSection: bool
    var ulogMessage: seq<byte>
    var file: seq<byte>
    var lastSequence: int
    var numDropouts: nat
    /** Acknowledgements sent back for LOGGING_DATA_ACKED packets, by sequence number. */
    var acks: seq<nat>
    ghost var header: seq<byte>
    ghost var log: seq<Record>

    ghost predicate Valid()
      reads this
    {
      && -1 <= lastSequence < FULL_RANGE
      && |header| == (if gotUlogHeader then 16 else 0)
      && (!gotUlogHeader ==> log == [])
      && file == header + Render(log)
    }

    /** The abstract state that the specification functions work on. */
    ghost function State(): Rx
      reads this
    {
      Rx(gotUlogHeader, gotHeaderSection, header, log, ulogMessage, lastSequence, numDropouts)
    }

    constructor ()
      ensures Valid() && State() == INITIAL && file == [] && acks == []
    {
      gotUlogHeader, gotHeaderSection := false, false;
      ulogMessage, file, acks := [], [], [];
      lastSequence, numDropouts := -1, 0;
      header, log := [], [];
    }

    /** Appends one record to the file. */
    method Write(ghost r: Record, bytes: seq<byte>)
      requires Valid() && gotUlogHeader
      requires bytes == RenderRecord(r)
      modifies this`file, this`log
      ensures Valid() && log == old(log) + [r]
    {
      RenderConcat(log, [r]);
      assert [r][..0] == [];
      file := file + bytes;
      log := log + [r];
    }

    method WriteUlogMessages(data: seq<byte>) returns (rest: seq<byte>)
      requires Valid() && gotUlogHeader
      modifies this`file, this`log
      ensures Valid()
      ensures log == old(log) + AsRecords(ParseMessages(data).messages)
      ensures rest == ParseMessages(data).rest
    {
      rest := data;
      ghost var written: seq<seq<byte>> := [];
      while |rest| > 2
        invariant Valid() && gotUlogHeader
        invariant log == old(log) + AsRecords(written)
        invariant WrittenSoFar(data, written, rest)
        decreases |rest|
      {
        var messageLength := rest[0] as int + rest[1] as int * 256 + 3;
        if messageLength > |rest| {
          break;
        }
        var message := rest[..messageLength];
        WrittenStep(data, written, rest);
        RecordsSnoc(old(log), written, message);
        Write(Message(message), message);
        written := written + [message];
        rest := rest[messageLength..];
      }
    }

    /** Flushes the pending bytes after a gap and picks up at the next message start. */
    method ResynchroniseAt(data: seq<byte>, firstMsgStart: byte)
      requires Valid() && gotUlogHeader
      modifies this`file, this`log, this`ulogMessage
      ensures Valid() && State() == Resynchronise(old(State()), data, firstMsgStart)
    {
      var _ := WriteUlogMessages(ulogMessage);
      ulogMessage := [];
      if firstMsgStart != 255 {
        ulogMessage := WriteUlogMessages(From(data, firstMsgStart as nat));
      }
    }

    /** Extends the pending message, or completes it and parses what follows. */
    method ContinueWith(data: seq<byte>, firstMsgStart: byte)
      requires Valid() && gotUlogHeader
      modifies this`file, this`log, this`ulogMessage
      ensures Valid() && State() == Continue(old(State()), data, firstMsgStart)
    {
      if firstMsgStart == 255 && |ulogMessage| > 0 {
        ulogMessage := ulogMessage + data;
        return;
      }
      if |ulogMessage| > 0 {
        var completed := ulogMessage + UpTo(data, firstMsgStart as nat);
        Write(Message(completed), completed);
        ulogMessage := [];
      }
      ulogMessage := WriteUlogMessages(From(data, firstMsgStart as nat));
    }

    method StartFile(data: seq<byte>) returns (body: seq<byte>)
      requires Valid() && (!gotUlogHeader ==> |data| >= 16)
      modifies this`file, this`header, this`gotUlogHeader
      ensures Valid() && (State(), body) == TakeHeader(old(State()), data)
    {
      body := data;
      if !gotUlogHeader {
        file := file + data[0..16];
        header := data[..16];
        body := data[16..];
        gotUlogHeader := true;
      }
    }

    method MarkDropout(numDrops: nat)
      requires Valid() && gotUlogHeader
      modifies this`file, this`log
      ensures Valid() && State() == NoteDropout(old(State()), numDrops)
    {
      if gotHeaderSection && numDrops > 0 {
        var n := if numDrops > 25 then 25 else numDrops;
        Write(Dropout(n), [2, 0, 79, (n * 10) as byte, 0]);
      }
    }

    /** `raised` is the exception for a first packet that is too short. */
    method ProcessStreamedUlogData(data: seq<byte>, firstMsgStart: byte, numDrops: nat) returns (raised: bool)
      requires Valid()
      modifies this
      ensures Valid() && acks == old(acks)
      ensures raised <==> Process(old(State()), data, firstMsgStart, numDrops).HeaderTooShort?
      ensures State() == Process(old(State()), data, firstMsgStart, numDrops).rx
    {
      if !gotUlogHeader && |data| < 16 {
        return true;
      }
      raised := false;
      var body := StartFile(data);
      MarkDropout(numDrops);
      if numDrops > 0 {
        ResynchroniseAt(body, firstMsgStart);
      } else {
        ContinueWith(body, firstMsgStart);
      }
    }

    method TakeNote(m: LogData, drops: nat)
      requires Valid() && m.sequence < FULL_RANGE
      modifies this`numDropouts, this`gotHeaderSection, this`lastSequence
      ensures Valid() && State() == Accept(old(State()), m, drops)
    {
      if drops > 0 {
        numDropouts := numDropouts + drops;
      }
      if !m.acked && !gotHeaderSection {
        gotHeaderSection := true;
      }
      lastSequence := m.sequence;
    }

    /** Handles one data packet: acknowledges it, and processes it if it is newer than the last one. */
    method ReadMessage(m: LogData) returns (raised: bool)
      requires Valid() && m.sequence < FULL_RANGE
      modifies this
      ensures Valid()
      ensures raised <==> Receive(old(State()), m).HeaderTooShort?
      ensures State() == Receive(old(State()), m).rx
      ensures acks == old(acks) + (if m.acked then [m.sequence] else [])
    {
      var check := CheckSequence(lastSequence, m.sequence);
      if m.acked {
        acks := acks + [m.sequence];
      }
      if !check.newer {
        return false;
      }
      TakeNote(m, check.drops);
      raised := ProcessStreamedUlogData(m.data, m.offset, check.drops);
    }
  }
}
