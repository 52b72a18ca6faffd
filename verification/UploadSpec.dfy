/**
 * What the host does, as a function of what the device answers: for each operation whether it succeeds, what passes
 * over the line, and which reads are left.
 */
module UploadSpec {
  import opened Bytes
  import opened Crc32
  import opened Firmware
  import opened UploadTrace

  /** The firmware description that an upload is decided on. */
  datatype Package = Package(image: seq<bv8>, boardId: int, imageSize: int, imageMaxsize: int)

  /** What the host knows about the board when an upload begins. */
  datatype Session = Session(windowed: bool, blRev: nat, boardType: nat, fwMaxsize: nat)

  datatype Outcome = Finished | NotSuitable | Raised

  /** What the device answers to each successive read; a read past the end times out. */
  type Reads = seq<seq<bv8>>

  datatype Out = Out(ok: bool, es: seq<Event>, rest: Reads)

  function Done(replies: Reads): Out {
    Out(true, [], replies)
  }

  /** `b` follows `a`. */
  function Then(a: Out, b: Out): Out {
    Out(b.ok, a.es + b.es, b.rest)
  }

  function Saying(c: seq<bv8>, o: Out): Out {
    Out(o.ok, [Sent(c)] + o.es, o.rest)
  }

  /** What a read of up to `count` bytes delivers; nothing is a timeout. */
  function Got(replies: Reads, count: nat): seq<bv8> {
    if replies == [] then [] else UpTo(replies[0], count)
  }

  function Heard(c: seq<bv8>): seq<Event> {
    if c == [] then [] else [Received(c)]
  }

  function LittleEndian(raw: seq<bv8>): nat
    requires |raw| == 4
  {
    raw[0] as nat + 256 * (raw[1] as nat + 256 * (raw[2] as nat + 256 * raw[3] as nat))
  }

  // ----- acknowledgements

  /** The next two reads deliver INSYNC and OK. */
  predicate SyncNext(replies: Reads) {
    |replies| >= 2 && UpTo(replies[0], 1) == [INSYNC] && UpTo(replies[1], 1) == [OK]
  }

  function Sync(replies: Reads): Out {
    var c, later := Got(replies, 1), From(replies, 1);
    if c != [INSYNC] then Out(false, Heard(c), later)
    else Out(Got(later, 1) == [OK], Heard(c) + Heard(Got(later, 1)), From(later, 1))
  }

  function Command(c: seq<bv8>, replies: Reads): Out {
    Saying(c, Sync(replies))
  }

  /** One read of `n` pairs. */
  function Window(n: nat, replies: Reads): Out {
    var c := Got(replies, 2 * n);
    Out(c == Pairs(n), Heard(c), From(replies, 1))
  }

  /** A read that delivered `c`, and an acknowledgement if `c` is acceptable. */
  function Answered(c: seq<bv8>, acceptable: bool, replies: Reads): Out {
    if acceptable then Then(Out(true, Heard(c), From(replies, 1)), Sync(From(replies, 1)))
    else Out(false, Heard(c), From(replies, 1))
  }

  // ----- questions

  /** A command answered by up to four bytes; where the host unpacks them they have to be four. */
  datatype Question = Question(command: seq<bv8>, unpacked: bool)

  predicate Acceptable(q: Question, c: seq<bv8>) {
    c != [] && (q.unpacked ==> |c| == 4)
  }

  function Ask(q: Question, replies: Reads): Out {
    Saying(q.command, Answered(Got(replies, 4), Acceptable(q, Got(replies, 4)), replies))
  }

  /** Question after question, up to the first that fails. */
  function AskAll(qs: seq<Question>, replies: Reads): Out
    decreases |qs|
  {
    if qs == [] then Done(replies)
    else
      var a := Ask(qs[0], replies);
      if a.ok then Then(a, AskAll(qs[1..], a.rest)) else a
  }

  function InfoQuestion(param: bv8): Question {
    Question([GET_DEVICE, param, EOC], true)
  }

  function WordQuestion(command: bv8, k: nat): Question
    requires k < 64
  {
    Question([command, (4 * k) as bv8, 0, 0, 0, EOC], false)
  }

  /** The 48 words of one-time-programmable memory; a missing answer stops the upload. */
  function OtpQuestions(): seq<Question> {
    seq(48, k requires 0 <= k < 48 => WordQuestion(GET_OTP, k))
  }

  /** Serial number and chip; a missing answer is ignored. */
  function SerialQuestions(): seq<Question> {
    seq(3, k requires 0 <= k < 3 => WordQuestion(GET_SN, k)) + [Question([GET_CHIP, EOC], true)]
  }

  // ----- identification

  /** Protocol revision, then board type, board revision and flash size if the revision is one that is served. */
  function Introduced(replies: Reads): Out {
    var a := Ask(InfoQuestion(1), replies);
    if a.ok && 2 <= LittleEndian4(Got(replies, 4)) <= 5
    then Then(a, AskAll([InfoQuestion(2), InfoQuestion(3), InfoQuestion(4)], a.rest))
    else a.(ok := false)
  }

  function Identified(replies: Reads): Out {
    var s := Command([GET_SYNC, EOC], replies);
    if s.ok then Then(s, Introduced(s.rest)) else s
  }

  function LittleEndian4(c: seq<bv8>): nat {
    if |c| == 4 then LittleEndian(c) else 0
  }

  // ----- the checks before anything is changed

  function CountByte(s: seq<bv8>, b: bv8): nat {
    if s == [] then 0 else (if s[0] == b then 1 else 0) + CountByte(s[1..], b)
  }

  /** Chip description with exactly one comma, that is, of two pieces. */
  predicate TwoPieces(des: seq<bv8>) {
    CountByte(des, 0x2c) == 1
  }

  function Description(replies: Reads): seq<bv8> {
    Got(From(replies, 1), LittleEndian4(Got(replies, 4)))
  }

  /** A length, that many bytes of description (or fewer), and an acknowledgement. */
  function Described(replies: Reads): Out {
    var c := Got(replies, 4);
    Saying([GET_CHIP_DES, EOC],
           if |c| != 4 then Out(false, Heard(c), From(replies, 1))
           else Then(Out(true, Heard(c), From(replies, 1)),
                     Answered(Description(replies), Description(replies) != [], From(replies, 1))))
  }

  /** The same behind a length that was read. */
  lemma DescribedParts(replies: Reads)
    requires |Got(replies, 4)| == 4
    ensures var des, later := Description(replies), From(From(replies, 1), 1);
      var front := [Sent([GET_CHIP_DES, EOC])] + (Heard(Got(replies, 4)) + Heard(des));
      Described(replies) ==
      if des == [] then Out(false, front, later) else Later(front, Sync(later))
  {
    var des, later := Description(replies), From(From(replies, 1), 1);
    AppendTrace([Sent([GET_CHIP_DES, EOC])], Heard(Got(replies, 4)), Heard(des) + Sync(later).es);
    AppendTrace([Sent([GET_CHIP_DES, EOC])] + Heard(Got(replies, 4)), Heard(des), Sync(later).es);
  }

  /** From revision 4 on: the memory words, then serial number and chip. */
  function Informed(s: Session, replies: Reads): Out {
    if s.blRev < 4 then Done(replies)
    else
      var otp := AskAll(OtpQuestions(), replies);
      if otp.ok then Then(otp, AskAll(SerialQuestions(), otp.rest).(ok := true)) else otp
  }

  /** The package is for this board, or the user insists; it fits; and it is not too large to be trusted. */
  predicate MayErase(s: Session, pkg: Package, force: bool) {
    && (s.boardType == pkg.boardId || force)
    && pkg.imageSize <= s.fwMaxsize
    && (s.blRev < 5 && pkg.boardId == 9 && pkg.imageSize > 1032192 ==> force)
  }

  /** A board that describes itself and has more flash than the package is made for is refused. */
  predicate DescriptionAccepted(s: Session, pkg: Package, force: bool, des: seq<bv8>) {
    TwoPieces(des) && s.fwMaxsize > pkg.imageMaxsize ==> force
  }

  /** The answers to the checks, for a package that is suitable and fits. */
  function Checks(s: Session, pkg: Package, force: bool, replies: Reads): Out {
    Judged(s, pkg, force, Informed(s, replies))
  }

  /** From revision 5 on the board describes itself. */
  function Judged(s: Session, pkg: Package, force: bool, info: Out): Out {
    if !info.ok then info
    else if s.blRev >= 5 then
      var d := Described(info.rest);
      Then(info, d.(ok := d.ok && DescriptionAccepted(s, pkg, force, Description(info.rest))))
    else info.(ok := MayErase(s, pkg, force))
  }

  // ----- erase

  /** The next two reads report silicon that cannot be programmed. */
  predicate BadSilicon(replies: Reads) {
    |replies| >= 2 && UpTo(replies[0], 1) == [INSYNC] && UpTo(replies[1], 1) == [BAD_SILICON_REV]
  }

  /** Polling for the acknowledgement of the erase. */
  function Polls(replies: Reads, tries: nat): Out
    decreases tries
  {
    if tries == 0 then Out(false, [], replies)
    else if SyncNext(replies) || BadSilicon(replies) then Sync(replies)
    else Then(Sync(replies), Polls(Sync(replies).rest, tries - 1))
  }

  // ----- program

  /** The acknowledgement read behind block `i`: at once, or every 256 blocks. */
  function Acked(windowed: bool, i: nat, replies: Reads): Out {
    AckedAt(windowed, i % 256, (i + 1) % 256 == 0, replies)
  }

  /** The same behind block `c` of a window, `last` if it is full. */
  function AckedAt(windowed: bool, c: nat, last: bool, replies: Reads): Out {
    if !windowed then Sync(replies) else if last then Window(c + 1, replies) else Done(replies)
  }

  function Sending(block: seq<bv8>, o: Out): Out
    requires |block| < 256
  {
    Out(o.ok, BlockEvents(block) + o.es, o.rest)
  }

  /** The programming loop from block `i` on. */
  function Programming(windowed: bool, groups: seq<seq<bv8>>, i: nat, replies: Reads): Out
    requires i <= |groups| && Programmable(groups)
    decreases |groups| - i
  {
    if i == |groups| then
      if windowed && i % 256 != 0 then Window(i % 256, replies) else Done(replies)
    else
      var a := Sending(groups[i], Acked(windowed, i, replies));
      if a.ok then Then(a, Programming(windowed, groups, i + 1, a.rest)) else a
  }

  /** An image of no blocks fails: the progress bar divides by their number. */
  function ProgrammingImage(windowed: bool, image: seq<bv8>, replies: Reads): Out
    requires |image| % 4 == 0
  {
    BlocksAreWords(image);
    if image == [] then Out(false, [], replies) else Programming(windowed, SplitLen(image, PROG_MULTI_MAX), 0, replies)
  }

  // ----- verify

  function ReadingBack(groups: seq<seq<bv8>>, replies: Reads): Out
    requires Programmable(groups)
    decreases |groups|
  {
    if groups == [] then Done(replies)
    else
      var a := ReadingOne(groups[0], replies);
      if a.ok then Then(a, ReadingBack(groups[1..], a.rest)) else a
  }

  function ReadingOne(block: seq<bv8>, replies: Reads): Out
    requires |block| < 256
  {
    var a := Answered(Got(replies, |block|), Got(replies, |block|) == block, replies);
    Out(a.ok, [Sent([READ_MULTI]), Sent([LengthByte(|block|)]), Sent([EOC])] + a.es, a.rest)
  }

  /** The CRC is compared only behind its acknowledgement. */
  function CrcChecked(w: Word32, replies: Reads): Out {
    var a := Answered(Got(replies, 4), |Got(replies, 4)| == 4, replies);
    Saying([GET_CRC, EOC], a.(ok := a.ok && Got(replies, 4) == WordBytes(w)))
  }

  function Verifying(s: Session, image: seq<bv8>, replies: Reads): Out
    requires |image| % 4 == 0
  {
    BlocksAreWords(image);
    if s.blRev == 2 then Comparing(SplitLen(image, PROG_MULTI_MAX), replies)
    else CrcChecked(FirmwareCrc(image, s.fwMaxsize), replies)
  }

  function Comparing(groups: seq<seq<bv8>>, replies: Reads): Out
    requires Programmable(groups)
  {
    var c := Command([CHIP_VERIFY, EOC], replies);
    if c.ok then Then(c, ReadingBack(groups, c.rest)) else c
  }

  // ----- the whole upload

  /** Blocks and verification. */
  function Filling(s: Session, image: seq<bv8>, replies: Reads): Out
    requires |image| % 4 == 0
  {
    var p := ProgrammingImage(s.windowed, image, replies);
    if p.ok then Then(p, Verifying(s, image, p.rest)) else p
  }

  /** Behind the erase command: polls, blocks, verification. */
  function Flashing(s: Session, image: seq<bv8>, tries: nat, replies: Reads): Out
    requires |image| % 4 == 0
  {
    var e := Polls(replies, tries);
    if e.ok then Then(e, Filling(s, image, e.rest)) else e
  }

  function Delaying(delay: BootDelay, replies: Reads): Out {
    if delay.NoDelay? then Done(replies)
    else if Sendable(delay) then Command([SET_BOOT_DELAY, DelayByte(delay.seconds), EOC], replies)
    else Out(false, [], replies)
  }

  /** From revision 3 on the board confirms the reboot. */
  function Rebooting(s: Session, replies: Reads): Out {
    Saying([REBOOT, EOC], if s.blRev >= 3 then Sync(replies) else Done(replies))
  }

  function Finishing(s: Session, delay: BootDelay, replies: Reads): Out {
    var d := Delaying(delay, replies);
    if d.ok then Then(d, Rebooting(s, d.rest)) else d
  }

  /** Everything from the erase command on. */
  function Changing(s: Session, image: seq<bv8>, delay: BootDelay, tries: nat, replies: Reads): Out
    requires |image| % 4 == 0
  {
    var f := Flashing(s, image, tries, replies);
    Saying([CHIP_ERASE, EOC], if f.ok then Then(f, Finishing(s, delay, f.rest)) else f)
  }

  function Uploading(s: Session, pkg: Package, force: bool, delay: BootDelay, tries: nat, replies: Reads): Out
    requires |pkg.image| % 4 == 0
  {
    if (s.boardType != pkg.boardId && !force) || s.fwMaxsize < pkg.imageSize then Out(false, [], replies)
    else
      var c := Checks(s, pkg, force, replies);
      if c.ok then Then(c, Changing(s, pkg.image, delay, tries, c.rest)) else c
  }

  function Result(s: Session, pkg: Package, force: bool, ok: bool): Outcome {
    if s.boardType != pkg.boardId && !force then NotSuitable else if ok then Finished else Raised
  }

  // ----- one more step of a loop, `seen` being what passed before it

  lemma AppendTrace(before: seq<Event>, a: seq<Event>, b: seq<Event>)
    ensures before + a + b == before + (a + b)
  {
  }

  /** `o` after `seen` events. */
  function Later(seen: seq<Event>, o: Out): Out {
    Out(o.ok, seen + o.es, o.rest)
  }

  lemma LaterThen(seen: seq<Event>, a: Out, b: Out)
    ensures Later(seen, Then(a, b)) == Later(seen + a.es, b)
  {
    AppendTrace(seen, a.es, b.es);
  }

  lemma LaterNothing(o: Out)
    ensures Later([], o) == o
  {
  }

  lemma PollsNext(replies: Reads, tries: nat, seen: seq<Event>)
    requires tries > 0
    ensures Later(seen, Polls(replies, tries)) ==
      if SyncNext(replies) || BadSilicon(replies) then Later(seen, Sync(replies))
      else Later(seen + Sync(replies).es, Polls(Sync(replies).rest, tries - 1))
  {
    LaterThen(seen, Sync(replies), Polls(Sync(replies).rest, tries - 1));
  }

  lemma ProgrammingNext(windowed: bool, groups: seq<seq<bv8>>, i: nat, replies: Reads, seen: seq<Event>)
    requires i < |groups| && Programmable(groups)
    ensures var a := Sending(groups[i], Acked(windowed, i, replies));
      Later(seen, Programming(windowed, groups, i, replies)) ==
      if a.ok then Later(seen + a.es, Programming(windowed, groups, i + 1, a.rest)) else Later(seen, a)
  {
    var a := Sending(groups[i], Acked(windowed, i, replies));
    LaterThen(seen, a, Programming(windowed, groups, i + 1, a.rest));
  }

  lemma ReadingNext(groups: seq<seq<bv8>>, replies: Reads, seen: seq<Event>)
    requires groups != [] && Programmable(groups)
    ensures var a := ReadingOne(groups[0], replies);
      Later(seen, ReadingBack(groups, replies)) ==
      if a.ok then Later(seen + a.es, ReadingBack(groups[1..], a.rest)) else Later(seen, a)
  {
    var a := ReadingOne(groups[0], replies);
    LaterThen(seen, a, ReadingBack(groups[1..], a.rest));
  }

  lemma ReadingAt(groups: seq<seq<bv8>>, i: nat, replies: Reads, seen: seq<Event>)
    requires i < |groups| && Programmable(groups)
    ensures var a := ReadingOne(groups[i], replies);
      Later(seen, ReadingBack(groups[i..], replies)) ==
      if a.ok then Later(seen + a.es, ReadingBack(groups[i + 1..], a.rest)) else Later(seen, a)
  {
    ReadingNext(groups[i..], replies, seen);
    assert groups[i..][1..] == groups[i + 1..];
  }

  lemma AskNext(qs: seq<Question>, replies: Reads, seen: seq<Event>)
    requires qs != []
    ensures var a := Ask(qs[0], replies);
      Later(seen, AskAll(qs, replies)) ==
      if a.ok then Later(seen + a.es, AskAll(qs[1..], a.rest)) else Later(seen, a)
  {
    var a := Ask(qs[0], replies);
    LaterThen(seen, a, AskAll(qs[1..], a.rest));
  }

  /** The window counter after `i` blocks: it grows by two per block and is cleared every 256 blocks. */
  function WindowAfter(windowed: bool, i: nat): nat {
    if windowed then 2 * (i % 256) else 0
  }

  lemma WindowNext(windowed: bool, i: nat)
    ensures (i + 1) % 256 == 0 ==> WindowAfter(windowed, i + 1) == 0
    ensures windowed ==> WindowAfter(windowed, i) + 2 == 2 * (i % 256 + 1) <= 512
    ensures windowed && (i + 1) % 256 != 0 ==> WindowAfter(windowed, i + 1) == WindowAfter(windowed, i) + 2
  {
  }

  // ----- what success takes

  lemma SyncExactly(replies: Reads)
    ensures Sync(replies).ok <==> SyncNext(replies)
    ensures SyncNext(replies) ==> Sync(replies) == Out(true, ACK, replies[2..])
    ensures OnlyReceives(Sync(replies).es)
  {
  }
}
