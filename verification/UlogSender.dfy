/** The vehicle side of ULog streaming: log messages packed into fixed-size packets. */
module UlogSender {
  import opened Bytes
  import opened UlogReceiver
  import opened UlogStream

  function Datas(pub: seq<LogData>): seq<seq<byte>> {
    seq(|pub|, i requires 0 <= i < |pub| => pub[i].data)
  }

  function StreamOf(units: seq<seq<byte>>, pub: seq<LogData>): Stream {
    Stream(units, Datas(pub),
           seq(|pub|, i requires 0 <= i < |pub| => pub[i].offset),
           seq(|pub|, i requires 0 <= i < |pub| => pub[i].acked))
  }

  function Published(pub: seq<LogData>): nat {
    Pos(Datas(pub), |pub|)
  }

  /** What has been published so far is honest about the units written so far. */
  ghost predicate HonestSoFar(units: seq<seq<byte>>, pub: seq<LogData>) {
    var s := StreamOf(units, pub);
    && WellFormedUnits(units)
    && HonestSizes(s)
    && HonestOffsets(s)
    && (forall i :: 0 <= i < |pub| ==> pub[i].sequence == i % FULL_RANGE)
  }

  /** The offset kept for the open buffer, which starts at `base` and ends at `t`. */
  ghost predicate OpenOffset(units: seq<seq<byte>>, base: nat, t: nat, offset: byte) {
    if offset == NO_MESSAGE_START then
      forall k :: 0 <= k < |units| ==> Pos(units, k) < base
    else
      exists k: nat :: FirstStart(units, base, t + 1, k) && Pos(units, k) == base + offset as int
  }

  // ----- appending a packet, appending a unit

  lemma {:induction false} PublishedSnoc(pub: seq<LogData>, p: LogData)
    ensures Datas(pub + [p]) == Datas(pub) + [p.data]
    ensures Published(pub + [p]) == Published(pub) + |p.data|
    ensures Flatten(Datas(pub + [p])) == Flatten(Datas(pub)) + p.data
  {
    FlattenSnoc(Datas(pub), p.data);
    assert Datas(pub + [p])[..|pub|] == Datas(pub)[..|pub|];
    PosPrefix(Datas(pub + [p]), Datas(pub), |pub|);
  }

  lemma PublishHonest(units: seq<seq<byte>>, pub: seq<LogData>, p: LogData)
    requires HonestSoFar(units, pub)
    requires p.sequence == |pub| % FULL_RANGE && 1 <= |p.data| <= MAX_DATA
    requires pub == [] ==> |p.data| >= 16
    requires HonestOffset(units, Published(pub), Published(pub) + |p.data|, p.offset)
    ensures HonestSoFar(units, pub + [p])
  {
    PublishedSnoc(pub, p);
    var s, s' := StreamOf(units, pub), StreamOf(units, pub + [p]);
    forall i: nat | i < |s'.datas|
      ensures HonestPacket(s', i)
    {
      if i < |pub| {
        assert HonestPacket(s, i);
        PacketUnaffected(s, s', i);
      } else {
        assert s'.datas[..i] == s.datas[..i];
        PosPrefix(s'.datas, s.datas, i);
      }
    }
  }

  lemma PacketUnaffected(s: Stream, s': Stream, i: nat)
    requires s.units == s'.units && |s.offsets| == |s.datas| && |s'.offsets| == |s'.datas|
    requires s.datas <= s'.datas && s.offsets <= s'.offsets
    requires i < |s.datas| && HonestPacket(s, i)
    ensures HonestPacket(s', i)
  {
    assert s'.datas[..i + 1] == s.datas[..i + 1];
    PosPrefix(s'.datas, s.datas, i + 1);
    assert s'.datas[..i] == s.datas[..i];
    PosPrefix(s'.datas, s.datas, i);
  }

  lemma UnitPos(units: seq<seq<byte>>, m: seq<byte>, k: nat)
    requires k <= |units|
    ensures Pos(units + [m], k) == Pos(units, k)
  {
    assert (units + [m])[..k] == units[..k];
    PosPrefix(units + [m], units, k);
  }

  /** A new unit starts behind everything published, so no published offset changes. */
  lemma OffsetUnaffected(units: seq<seq<byte>>, m: seq<byte>, a: nat, b: nat, offset: byte)
    requires HonestOffset(units, a, b, offset) && b <= Pos(units, |units|)
    ensures HonestOffset(units + [m], a, b, offset)
  {
    var units' := units + [m];
    UnitPos(units, m, |units|);
    forall k | 0 <= k < |units'|
      ensures k < |units| ==> Pos(units', k) == Pos(units, k)
      ensures k == |units| ==> Pos(units', k) >= b
    {
      UnitPos(units, m, k);
    }
    if offset != NO_MESSAGE_START {
      var k: nat :| FirstStart(units, a, b, k) && Pos(units, k) == a + offset as int;
      assert FirstStart(units', a, b, k);
    }
  }

  lemma UnitHonest(units: seq<seq<byte>>, pub: seq<LogData>, m: seq<byte>)
    requires HonestSoFar(units, pub) && Whole(m)
    requires Published(pub) <= Pos(units, |units|)
    ensures HonestSoFar(units + [m], pub)
  {
    var s, s' := StreamOf(units, pub), StreamOf(units + [m], pub);
    forall i: nat | i < |pub|
      ensures HonestPacket(s', i)
    {
      assert HonestPacket(s, i);
      UnitKeepsPacket(s, s', m, i);
    }
    UnitsSnocWellFormed(units, m);
  }

  lemma UnitKeepsPacket(s: Stream, s': Stream, m: seq<byte>, i: nat)
    requires i < |s.datas| == |s.offsets| && s' == s.(units := s.units + [m]) && HonestPacket(s, i)
    requires Pos(s.datas, |s.datas|) <= Pos(s.units, |s.units|)
    ensures HonestPacket(s', i)
  {
    PosMonotone(s.datas, i + 1, |s.datas|);
    OffsetUnaffected(s.units, m, Pos(s.datas, i), Pos(s.datas, i + 1), s.offsets[i]);
  }

  lemma UnitsSnocWellFormed(units: seq<seq<byte>>, m: seq<byte>)
    requires WellFormedUnits(units) && Whole(m)
    ensures WellFormedUnits(units + [m])
  {
  }

  /** At the start of a write the new unit begins exactly at the end of the buffer. */
  lemma OpenOffsetAtWrite(units: seq<seq<byte>>, m: seq<byte>, base: nat, t: nat, offset: byte, offset': byte)
    requires t == Pos(units, |units|) && base <= t < base + 255
    requires units != [] ==> OpenOffset(units, base, t, offset)
    requires units == [] ==> offset == 0 && base == 0
    requires offset' == if offset == 255 then (t - base) as byte else offset
    ensures OpenOffset(units + [m], base, t, offset')
  {
    if units == [] || offset == 255 {
      NewUnitFirst(units, m, base, t);
    } else {
      var k: nat :| FirstStart(units, base, t + 1, k) && Pos(units, k) == base + offset as int;
      FirstStartStays(units, m, base, t + 1, k);
    }
  }

  lemma FirstStartStays(units: seq<seq<byte>>, m: seq<byte>, a: nat, b: nat, k: nat)
    requires FirstStart(units, a, b, k)
    ensures FirstStart(units + [m], a, b, k) && Pos(units + [m], k) == Pos(units, k)
  {
    UnitPos(units, m, k);
    forall j | 0 <= j < k
      ensures Pos(units + [m], j) < a
    {
      UnitPos(units, m, j);
    }
  }

  lemma NewUnitFirst(units: seq<seq<byte>>, m: seq<byte>, base: nat, t: nat)
    requires t == Pos(units, |units|) && base <= t
    requires forall k :: 0 <= k < |units| ==> Pos(units, k) < base
    ensures FirstStart(units + [m], base, t + 1, |units|) && Pos(units + [m], |units|) == t
  {
    UnitPos(units, m, |units|);
    forall j | 0 <= j < |units|
      ensures Pos(units + [m], j) < base
    {
      UnitPos(units, m, j);
    }
  }

  /**
   * The packets `pub` and the open buffer hold everything written, save `rest` of the last unit.
   */
  ghost predicate Ready(units: seq<seq<byte>>, pub: seq<LogData>, sequence: nat,
                        open: seq<byte>, offset: byte, rest: seq<byte>) {
    && HonestSoFar(units, pub)
    && sequence == |pub| % FULL_RANGE
    && Flatten(Datas(pub)) + open + rest == Flatten(units)
    && OpenOffset(units, Published(pub), Published(pub) + |open|, offset)
  }

  lemma ReadyLength(units: seq<seq<byte>>, pub: seq<LogData>, open: seq<byte>, rest: seq<byte>)
    requires Flatten(Datas(pub)) + open + rest == Flatten(units)
    ensures Published(pub) + |open| + |rest| == Pos(units, |units|)
  {
    FlattenLength(Datas(pub));
    FlattenLength(units);
  }

  /** Once a byte of the last unit is in the buffer, the buffer can be published honestly. */
  lemma OpenOffsetHonest(units: seq<seq<byte>>, base: nat, t: nat, offset: byte)
    requires OpenOffset(units, base, t, offset) && base < t
    requires forall k :: 0 <= k < |units| ==> Pos(units, k) < t
    ensures HonestOffset(units, base, t, offset)
  {
    if offset != NO_MESSAGE_START {
      var k: nat :| FirstStart(units, base, t + 1, k) && Pos(units, k) == base + offset as int;
      assert FirstStart(units, base, t, k);
    }
  }

  lemma StartsBefore(units: seq<seq<byte>>, t: nat)
    requires units != [] && Pos(units, |units| - 1) < t
    ensures forall k :: 0 <= k < |units| ==> Pos(units, k) < t
  {
    forall k | 0 <= k < |units|
      ensures Pos(units, k) < t
    {
      PosMonotone(units, k, |units| - 1);
    }
  }

  lemma ReadyPublished(units: seq<seq<byte>>, pub: seq<LogData>, sequence: nat, acked: bool,
                       open: seq<byte>, offset: byte, rest: seq<byte>)
    requires Ready(units, pub, sequence, open, offset, rest)
    requires 1 <= |open| <= MAX_DATA && |rest| < |units[|units| - 1]| && (pub == [] ==> |open| >= 16)
    ensures Ready(units, pub + [LogData(acked, sequence, open, offset)], (sequence + 1) % FULL_RANGE,
                  [], NO_MESSAGE_START, rest)
  {
    var p := LogData(acked, sequence, open, offset);
    ReadyLength(units, pub, open, rest);
    StartsBefore(units, Published(pub) + |open|);
    OpenOffsetHonest(units, Published(pub), Published(pub) + |open|, offset);
    PublishHonest(units, pub, p);
    PublishedSnoc(pub, p);
    EmptyBetween(Flatten(Datas(pub + [p])), rest);
    NextSequence(|pub|);
  }

  lemma NextSequence(n: nat)
    ensures (n % FULL_RANGE + 1) % FULL_RANGE == (n + 1) % FULL_RANGE
  {
  }

  lemma ReadyGrows(units: seq<seq<byte>>, pub: seq<LogData>, sequence: nat,
                   open: seq<byte>, offset: byte, rest: seq<byte>, n: nat)
    requires Ready(units, pub, sequence, open, offset, rest) && n <= |rest|
    ensures Ready(units, pub, sequence, open + rest[..n], offset, rest[n..])
  {
    var sent := Flatten(Datas(pub));
    assert rest == rest[..n] + rest[n..];
    Assoc(sent + open, rest[..n], rest[n..]);
    Assoc(sent, open, rest[..n]);
    var base, t := Published(pub), Published(pub) + |open|;
    if offset != NO_MESSAGE_START {
      var k: nat :| FirstStart(units, base, t + 1, k) && Pos(units, k) == base + offset as int;
      assert FirstStart(units, base, t + n + 1, k);
    }
  }

  /** A unit about to be written starts at the end of the buffer. */
  lemma ReadyBegins(units: seq<seq<byte>>, pub: seq<LogData>, sequence: nat,
                    open: seq<byte>, offset: byte, m: seq<byte>)
    requires Ready(units, pub, sequence, open, offset, []) && Whole(m) && |open| < 255
    ensures Ready(units + [m], pub, sequence, open, if offset == 255 then |open| as byte else offset, m)
  {
    ReadyLength(units, pub, open, []);
    UnitHonest(units, pub, m);
    FlattenSnoc(units, m);
    OpenOffsetAtWrite(units, m, Published(pub), Published(pub) + |open|, offset,
                      if offset == 255 then |open| as byte else offset);
  }

  lemma ReadyHeader(header: seq<byte>)
    requires |header| == 16
    ensures Ready([header], [], 0, [], 0, header)
  {
    assert [] + [header] == [header];
    OpenOffsetAtWrite([], header, 0, 0, 0, 0);
    FlattenSnoc([], header);
  }

  /** After a missing acknowledgement: what was published is honest about a front of what was written. */
  ghost predicate Stopped(units: seq<seq<byte>>, pub: seq<LogData>) {
    HonestSoFar(units, pub) && Flatten(Datas(pub)) <= Flatten(units)
  }

  lemma ReadyStops(units: seq<seq<byte>>, pub: seq<LogData>, sequence: nat, open: seq<byte>, offset: byte, rest: seq<byte>)
    requires Ready(units, pub, sequence, open, offset, rest)
    ensures Stopped(units, pub)
  {
    Assoc(Flatten(Datas(pub)), open, rest);
  }

  // ----- the writer

  class LogWriterMavlink {
    const data: array<byte>
    var length: nat
    var firstMessageOffset: byte
    var msgSequence: nat
    var needReliableTransfer: bool
    var isStarted: bool
    var published: seq<LogData>
    ghost var units: seq<seq<byte>>

    ghost predicate Shaped()
      reads this
    {
      data.Length == MAX_DATA && length < MAX_DATA
    }

    ghost predicate Valid()
      reads this, data
    {
      && Shaped()
      && if units == [] then length == 0 && firstMessageOffset == 0 && published == [] && msgSequence == 0
         else if isStarted then Ready(units, published, msgSequence, data[..length], firstMessageOffset, [])
         else length == 0 && Stopped(units, published)
    }

    constructor ()
      ensures Valid() && !isStarted && published == [] && units == [] && fresh(data)
    {
      data := new byte[MAX_DATA];
      length, firstMessageOffset, msgSequence := 0, 0, 0;
      needReliableTransfer, isStarted := false, false;
      published, units := [], [];
    }

    method StartLog()
      requires Valid()
      modifies this
      ensures Valid() && isStarted && published == [] && units == []
    {
      msgSequence, length, firstMessageOffset := 0, 0, 0;
      isStarted := true;
      published, units := [], [];
    }

    method StopLog()
      modifies this`length, this`isStarted
      ensures length == 0 && !isStarted
    {
      length := 0;
      isStarted := false;
    }

    /**
     * Publishes the buffer as one packet and starts an empty one. In reliable transfer `acked` says whether the
     * acknowledgement arrives in time; without it logging stops.
     */
    method PublishMessage(acked: bool, ghost rest: seq<byte>) returns (failed: bool)
      requires isStarted && data.Length == MAX_DATA && 1 <= length <= MAX_DATA
      requires Ready(units, published, msgSequence, data[..length], firstMessageOffset, rest)
      requires |rest| < |units[|units| - 1]| && (published == [] ==> length >= 16)
      modifies this`published, this`msgSequence, this`length, this`firstMessageOffset, this`isStarted
      ensures published == old(published)
                + [LogData(needReliableTransfer, old(msgSequence), old(data[..length]), old(firstMessageOffset))]
      ensures failed <==> needReliableTransfer && !acked
      ensures length == 0 && isStarted == !failed
      ensures !failed ==> Ready(units, published, msgSequence, [], firstMessageOffset, rest)
      ensures failed ==> Stopped(units, published) && msgSequence == old(msgSequence)
    {
      ReadyPublished(units, published, msgSequence, needReliableTransfer, data[..length], firstMessageOffset, rest);
      published := published + [LogData(needReliableTransfer, msgSequence, data[..length], firstMessageOffset)];
      ReadyStops(units, published, (msgSequence + 1) % FULL_RANGE, [], NO_MESSAGE_START, rest);
      if needReliableTransfer && !acked {
        StopLog();
        return true;
      }
      msgSequence := (msgSequence + 1) % FULL_RANGE;
      length := 0;
      firstMessageOffset := 255;
      return false;
    }

    /** Copies the front of `rest` into the buffer, as much as fits. */
    method Fill(rest: seq<byte>) returns (sendLen: nat)
      requires Shaped() && rest != []
      modifies data, this`length
      ensures 1 <= sendLen <= |rest| && length == old(length) + sendLen <= MAX_DATA
      ensures data[..length] == old(data[..length]) + rest[..sendLen]
    {
      sendLen := if MAX_DATA - length < |rest| then MAX_DATA - length else |rest|;
      forall j | 0 <= j < sendLen {
        data[length + j] := rest[j];
      }
      length := length + sendLen;
    }

    /** A message start is noted unless the open packet already has one. */
    method BeginUnit(ghost m: seq<byte>)
      requires Valid() && isStarted
      requires if units == [] then |m| == 16 else Whole(m)
      modifies this`firstMessageOffset, this`units
      ensures units == old(units) + [m] && Writing(m)
    {
      if units == [] {
        ReadyHeader(m);
        assert data[..length] == [] && units + [m] == [m];
      } else {
        ReadyBegins(units, published, msgSequence, data[..length], firstMessageOffset, m);
      }
      ghost var offset := if firstMessageOffset == 255 then length as byte else firstMessageOffset;
      assert Ready(units + [m], published, msgSequence, data[..length], offset, m);
      if firstMessageOffset == 255 {
        firstMessageOffset := length as byte;
      }
      units := units + [m];
    }

    /**
     * Appends one message (the first one is the file header) to the stream; `acks(k)` says whether packet `k` is
     * acknowledged in time.
     */
    method WriteMessage(m: seq<byte>, acks: nat -> bool) returns (failed: bool)
      requires Valid()
      requires if units == [] then |m| == 16 else Whole(m)
      modifies this, data
      ensures Valid() && isStarted == (old(isStarted) && !failed)
      ensures units == if old(isStarted) then old(units) + [m] else old(units)
      ensures old(published) <= published && needReliableTransfer == old(needReliableTransfer)
      ensures FullFrom(|old(published)|) && length < 249
      ensures failed ==> needReliableTransfer && published != [] && !acks(|published| - 1)
    {
      failed := false;
      if isStarted {
        failed := WriteStarted(m, acks);
      }
    }

    method WriteStarted(m: seq<byte>, acks: nat -> bool) returns (failed: bool)
      requires Valid() && isStarted
      requires if units == [] then |m| == 16 else Whole(m)
      modifies data, this`published, this`msgSequence, this`length, this`firstMessageOffset, this`isStarted, this`units
      ensures Valid() && isStarted == !failed && units == old(units) + [m] && old(published) <= published
      ensures FullFrom(|old(published)|)
      ensures failed ==> needReliableTransfer && published != [] && !acks(|published| - 1)
    {
      BeginUnit(m);
      failed := WriteRest(m, acks);
    }

    /** The loop that empties the message into the buffer, publishing it whenever it is full. */
    method WriteRest(m: seq<byte>, acks: nat -> bool) returns (failed: bool)
      requires Writing(m)
      modifies data, this`published, this`msgSequence, this`length, this`firstMessageOffset, this`isStarted
      ensures Valid() && isStarted == !failed && old(published) <= published && FullFrom(|old(published)|)
      ensures failed ==> needReliableTransfer && published != [] && !acks(|published| - 1)
    {
      var rest := m;
      failed := false;
      while |rest| > 0 && !failed
        invariant if failed then !isStarted && Shaped() && length == 0 && Stopped(units, published) else Writing(rest)
        invariant old(published) <= published && FullFrom(|old(published)|)
        invariant failed ==> needReliableTransfer && published != [] && !acks(|published| - 1)
        decreases |rest|
      {
        rest, failed := WriteSome(rest, acks);
      }
    }

    /** Packets are published only when they are full: 249 bytes each from packet `k` on. */
    ghost predicate FullFrom(k: nat)
      reads this
    {
      forall i: nat :: k <= i < |published| ==> |published[i].data| == 249
    }

    /** In the middle of a message, `rest` of which is still to be written. */
    ghost predicate Writing(rest: seq<byte>)
      reads this, data
    {
      && isStarted && Shaped() && units != [] && |rest| <= |units[|units| - 1]|
      && Ready(units, published, msgSequence, data[..length], firstMessageOffset, rest)
    }

    /** Fills the buffer once, and publishes it if it is full. */
    method WriteSome(rest: seq<byte>, acks: nat -> bool) returns (left: seq<byte>, failed: bool)
      requires Writing(rest) && rest != []
      modifies data, this`published, this`msgSequence, this`length, this`firstMessageOffset, this`isStarted
      ensures |left| < |rest| && old(published) <= published && FullFrom(|old(published)|)
      ensures !failed ==> Writing(left)
      ensures failed ==> !isStarted && Shaped() && length == 0 && Stopped(units, published)
      ensures failed ==> needReliableTransfer && published != [] && !acks(|published| - 1)
    {
      left := Append(rest);
      failed := false;
      if length >= MAX_DATA {
        failed := PublishMessage(acks(|published|), left);
        assert data[..0] == [];
      }
    }

    /** Moves the front of `rest` into the buffer. */
    method Append(rest: seq<byte>) returns (left: seq<byte>)
      requires Shaped() && rest != []
      requires Ready(units, published, msgSequence, data[..length], firstMessageOffset, rest)
      modifies data, this`length
      ensures data.Length == MAX_DATA && 1 <= length <= MAX_DATA && |left| < |rest|
      ensures Ready(units, published, msgSequence, data[..length], firstMessageOffset, left)
    {
      ghost var open := data[..length];
      var sendLen := Fill(rest);
      ReadyGrows(units, published, msgSequence, open, firstMessageOffset, rest, sendLen);
      left := rest[sendLen..];
    }

    /** Publishes what is buffered between two messages. */
    method PublishRest(acked: bool)
      requires Valid() && length > 0 && needReliableTransfer
      modifies this`published, this`msgSequence, this`length, this`firstMessageOffset, this`isStarted
      ensures Valid() && length == 0 && old(published) <= published && isStarted == (old(isStarted) && acked)
    {
      if published == [] {
        ReadyLength(units, published, data[..length], []);
        PosMonotone(units, 1, |units|);
      }
      var _ := PublishMessage(acked, []);
      assert data[..0] == [];
    }

    /** Leaving reliable transfer first sends what is buffered, still reliably. */
    method SetNeedReliableTransfer(needReliable: bool, acked: bool)
      requires Valid()
      modifies this
      ensures Valid() && units == old(units)
      ensures isStarted == (old(isStarted) && (!needReliable && old(needReliableTransfer && length > 0) ==> acked))
      ensures needReliableTransfer == needReliable && old(published) <= published
      ensures !needReliable && old(needReliableTransfer) ==> length == 0
    {
      if !needReliable && needReliableTransfer {
        if length > 0 {
          PublishRest(acked);
        }
      }
      needReliableTransfer := needReliable;
    }
  }

  /** Whatever the writer has published is an honest stream, numbered by packet index modulo 65536. */
  lemma SenderHonest(w: LogWriterMavlink)
    requires w.Valid() && w.units != []
    ensures Honest(StreamOf(w.units, w.published))
    ensures forall i :: 0 <= i < |w.published| ==> w.published[i].sequence == i % FULL_RANGE
  {
    if w.isStarted {
      ReadyStops(w.units, w.published, w.msgSequence, w.data[..w.length], w.firstMessageOffset, []);
    }
  }
}
