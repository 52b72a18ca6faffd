/** The uploader and the bootloader together. */
module FirmwareUpload {
  import opened Octets
  import opened Bytes
  import opened Crc32
  import opened Firmware
  import opened UploadTrace
  import opened UploadSpec
  import opened Bootloader
  import opened BoardLine
  import opened Uploader

  const SYNC_READS: Reads := [[INSYNC], [OK]]

  predicate Addressable(b: Board) {
    |b.flash| < 0x1_0000_0000
  }

  // ----- acknowledged commands

  lemma SyncServed(more: Reads)
    ensures Sync(SYNC_READS + more) == Out(true, ACK, more)
  {
    var all := SYNC_READS + more;
    assert all[2..] == more;
    assert all[0] == [INSYNC] && all[1] == [OK];
    SyncExactly(all);
  }

  lemma CommandServed(b: Board, c: seq<bv8>, b': Board, more: Reads)
    requires Addressable(b) && OneCommand(c) && Perform(b, c) == Answer([INSYNC, OK], b')
    ensures Command(c, SYNC_READS + more) == Out(true, [Sent(c)] + ACK, more)
    ensures Run(Device(b, [], []), [Sent(c)] + ACK) == Device(b', [], [])
  {
    SyncServed(more);
    RunCommand(b, c, b');
  }

  /** An answer of `v` and an acknowledgement. */
  function AnswerReads(v: seq<bv8>): Reads {
    [v] + SYNC_READS
  }

  lemma AnswerServed(v: seq<bv8>, more: Reads)
    ensures Got(AnswerReads(v) + more, |v|) == v
    ensures |v| == 4 ==> Got(AnswerReads(v) + more, 4) == v
    ensures v != [] ==> Answered(v, true, AnswerReads(v) + more) == Out(true, [Received(v)] + ACK, more)
  {
    var all := AnswerReads(v) + more;
    assert all[0] == v && v[..|v|] == v;
    assert all[1..] == SYNC_READS + more;
    SyncServed(more);
  }

  // ----- questions

  /** The board answers the question with four bytes and is not changed by it. */
  ghost predicate Steady(b: Board, q: Question, v: seq<bv8>) {
    Addressable(b) && OneCommand(q.command) && |v| == 4 && Perform(b, q.command) == Answer(v + [INSYNC, OK], b)
  }

  lemma AskServed(b: Board, q: Question, v: seq<bv8>, b': Board, more: Reads)
    requires Addressable(b) && OneCommand(q.command) && |v| == 4
    requires Perform(b, q.command) == Answer(v + [INSYNC, OK], b')
    ensures var o := Ask(q, AnswerReads(v) + more);
      o.ok && o.rest == more && Run(Device(b, [], []), o.es) == Device(b', [], [])
  {
    AnswerServed(v, more);
    RunQuestion(b, q.command, v, b');
  }

  /** The answers of the board to the questions, read by read. */
  function BoardAnswers(vs: seq<seq<bv8>>): Reads {
    if vs == [] then [] else AnswerReads(vs[0]) + BoardAnswers(vs[1..])
  }

  lemma {:induction false} AskAllServed(b: Board, qs: seq<Question>, vs: seq<seq<bv8>>, more: Reads)
    requires |qs| == |vs| && forall k :: 0 <= k < |qs| ==> Steady(b, qs[k], vs[k])
    ensures var o := AskAll(qs, BoardAnswers(vs) + more);
      o.ok && o.rest == more && Run(Device(b, [], []), o.es) == Device(b, [], [])
    decreases |qs|
  {
    if qs == [] {
      assert BoardAnswers(vs) + more == more;
    } else {
      var later := BoardAnswers(vs[1..]) + more;
      assert BoardAnswers(vs) + more == AnswerReads(vs[0]) + later;
      assert Steady(b, qs[0], vs[0]);
      AskServed(b, qs[0], vs[0], b, later);
      AskAllServed(b, qs[1..], vs[1..], more);
      RunConcat(Device(b, [], []), Ask(qs[0], AnswerReads(vs[0]) + later).es, AskAll(qs[1..], later).es);
    }
  }

  // ----- programming

  /** Acknowledgements behind block `i` and later ones, as the host reads them. */
  function AckReads(windowed: bool, n: nat, i: nat): Reads
    requires i <= n
    decreases n - i
  {
    if i == n then (if windowed && i % 256 != 0 then [Pairs(i % 256)] else [])
    else AckRead(windowed, i) + AckReads(windowed, n, i + 1)
  }

  function AckRead(windowed: bool, i: nat): Reads {
    if !windowed then SYNC_READS else if (i + 1) % 256 == 0 then [Pairs(i % 256 + 1)] else []
  }

  /** What the board has sent back and the host has not read before block `i`. */
  function Unread(windowed: bool, i: nat): seq<bv8> {
    if windowed then Pairs(i % 256) else []
  }

  lemma WindowServed(n: nat, b: Board, more: Reads)
    requires n > 0
    ensures Window(n, [Pairs(n)] + more) == Out(true, [Received(Pairs(n))], more)
    ensures Run(Device(b, [], Pairs(n)), [Received(Pairs(n))]) == Device(b, [], [])
  {
    var all := [Pairs(n)] + more;
    assert all[0] == Pairs(n) && all[1..] == more && Pairs(n)[..2 * n] == Pairs(n);
    RunRead(b, Pairs(n), []);
    assert Pairs(n) + [] == Pairs(n);
  }

  lemma AckServed(windowed: bool, i: nat, b: Board, more: Reads)
    ensures var o := Acked(windowed, i, AckRead(windowed, i) + more);
      && o.ok && o.rest == more
      && Run(Device(b, [], Unread(windowed, i) + [INSYNC, OK]), o.es) == Device(b, [], Unread(windowed, i + 1))
  {
    if !windowed {
      SyncServed(more);
      RunAck(b, []);
      assert [] + [INSYNC, OK] == [INSYNC, OK] + [];
    } else {
      assert Pairs(i % 256) + [INSYNC, OK] == Pairs(i % 256 + 1);
      if (i + 1) % 256 == 0 {
        WindowServed(i % 256 + 1, b, more);
      } else {
        assert [] + more == more;
      }
    }
  }

  lemma BlockServed(windowed: bool, i: nat, b: Board, block: seq<bv8>, b': Board, more: Reads)
    requires Addressable(b) && 0 < |block| < 256 && ProgMulti(b, block) == (Ok, b')
    ensures var o := Sending(block, Acked(windowed, i, AckRead(windowed, i) + more));
      && o.ok && o.rest == more
      && Run(Device(b, [], Unread(windowed, i)), o.es) == Device(b', [], Unread(windowed, i + 1))
  {
    RunBlock(b, Unread(windowed, i), block, b');
    AckServed(windowed, i, b', more);
    RunConcat(Device(b, [], Unread(windowed, i)), BlockEvents(block),
              Acked(windowed, i, AckRead(windowed, i) + more).es);
  }

  lemma {:induction false} ProgrammingServed(windowed: bool, groups: seq<seq<bv8>>, i: nat, b: Board, more: Reads)
    requires Programmable(groups) && i <= |groups| && Addressable(b) && ProgAll(b, groups[i..]).0 == Ok
    ensures var o := Programming(windowed, groups, i, AckReads(windowed, |groups|, i) + more);
      && o.ok && o.rest == more
      && Run(Device(b, [], Unread(windowed, i)), o.es) == Device(ProgAll(b, groups[i..]).1, [], [])
    decreases |groups| - i
  {
    if i == |groups| {
      assert groups[i..] == [];
      if windowed && i % 256 != 0 {
        WindowServed(i % 256, b, more);
      } else {
        assert [] + more == more;
      }
    } else {
      var block := groups[i];
      var b1 := ProgMulti(b, block).1;
      var later := AckReads(windowed, |groups|, i + 1) + more;
      assert groups[i..][0] == block && groups[i..][1..] == groups[i + 1..];
      BlockServed(windowed, i, b, block, b1, later);
      ProgrammingServed(windowed, groups, i + 1, b1, more);
      Assoc(AckRead(windowed, i), AckReads(windowed, |groups|, i + 1), more);
      var a := Sending(block, Acked(windowed, i, AckRead(windowed, i) + later));
      RunConcat(Device(b, [], Unread(windowed, i)), a.es, Programming(windowed, groups, i + 1, later).es);
    }
  }

  lemma ImageServed(windowed: bool, image: seq<bv8>, b: Board, more: Reads)
    requires |image| % 4 == 0 && image != [] && Addressable(b)
    requires Words(SplitLen(image, PROG_MULTI_MAX)) && ProgAll(b, SplitLen(image, PROG_MULTI_MAX)).0 == Ok
    ensures var groups := SplitLen(image, PROG_MULTI_MAX);
      var o := ProgrammingImage(windowed, image, AckReads(windowed, |groups|, 0) + more);
      o.ok && o.rest == more && Run(Device(b, [], []), o.es) == Device(ProgAll(b, groups).1, [], [])
  {
    BlocksAreWords(image);
    var groups := SplitLen(image, PROG_MULTI_MAX);
    assert groups[0..] == groups;
    ProgrammingServed(windowed, groups, 0, b, more);
  }

  // ----- erase

  /** A poll per empty read while the board is busy. */
  function Busy(patience: nat): Reads {
    seq(patience, _ => [])
  }

  lemma {:induction false} PollsServed(patience: nat, tries: nat, more: Reads)
    requires patience < tries
    ensures Polls(Busy(patience) + (SYNC_READS + more), tries) == Out(true, ACK, more)
    decreases patience
  {
    var all := Busy(patience) + (SYNC_READS + more);
    if patience == 0 {
      assert all == SYNC_READS + more;
      assert all[0] == [INSYNC] && all[1] == [OK];
      SyncServed(more);
    } else {
      assert all[0] == [] && all[1..] == Busy(patience - 1) + (SYNC_READS + more);
      assert Sync(all) == Out(false, [], all[1..]);
      PollsServed(patience - 1, tries - 1, more);
    }
  }

  // ----- verification and reboot

  lemma ShortCommand(c: bv8)
    requires c != PROG_MULTI && c != GET_DEVICE && c != GET_OTP && c != GET_SN
    ensures OneCommand([c, EOC])
  {
    var all := [c, EOC];
    assert all[..0] == [] && all[..1] == [c];
  }

  lemma CrcServed(b: Board, image: seq<bv8>, more: Reads)
    requires Addressable(b) && Holds(b, image) && image != [] && |b.flash| % 4 == 0
    ensures var o := CrcChecked(FirmwareCrc(image, |b.flash|), AnswerReads(WordBytes(GetCrc(b).0)) + more);
      o.ok && o.rest == more && Run(Device(b, [], []), o.es) == Device(GetCrc(b).1, [], [])
  {
    HeldImage(b, image);
    var w := GetCrc(b).0;
    ShortCommand(GET_CRC);
    AnswerServed(WordBytes(w), more);
    RunQuestion(b, [GET_CRC, EOC], WordBytes(w), GetCrc(b).1);
  }

  lemma RebootServed(s: Session, b: Board)
    requires Addressable(b) && Boot(b).0 == Ok && s.blRev >= 3
    ensures var o := Finishing(s, NoDelay, SYNC_READS);
      o.ok && o.rest == [] && Run(Device(b, [], []), o.es) == Device(Boot(b).1, [], [])
  {
    ShortCommand(REBOOT);
    assert SYNC_READS + [] == SYNC_READS;
    CommandServed(b, [REBOOT, EOC], Boot(b).1, []);
    assert [] + ([Sent([REBOOT, EOC])] + ACK) == [Sent([REBOOT, EOC])] + ACK;
  }

  // ----- everything from the erase command on

  /** The board behind an erase and all blocks of the image. */
  function Filled(b: Board, image: seq<bv8>): Board
    requires |image| % 4 == 0
  {
    BlocksAreWords(image);
    AfterProgramming(b, SplitLen(image, PROG_MULTI_MAX)).1
  }

  lemma FilledHolds(b: Board, image: seq<bv8>)
    requires b.synced && b.identified && |image| % 4 == 0 && |image| <= |b.flash|
    ensures Words(SplitLen(image, PROG_MULTI_MAX)) && AfterProgramming(b, SplitLen(image, PROG_MULTI_MAX)).0 == Ok
    ensures Holds(Filled(b, image), image) && |Filled(b, image).flash| == |b.flash|
  {
    BlocksAreWords(image);
    SplitLenExact(image, PROG_MULTI_MAX);
    HoldsBlocks(b, SplitLen(image, PROG_MULTI_MAX));
  }

  /** Programming and verification, on an erased board. */
  lemma FillingServed(s: Session, b: Board, image: seq<bv8>, more: Reads)
    requires Addressable(b) && b.synced && b.identified && |b.flash| % 4 == 0
    requires s.blRev >= 3 && s.fwMaxsize == |b.flash| && |image| % 4 == 0 && image != [] && |image| <= |b.flash|
    ensures var n, b' := |SplitLen(image, PROG_MULTI_MAX)|, Filled(b, image);
      var o := Filling(s, image, AckReads(s.windowed, n, 0) + (AnswerReads(WordBytes(GetCrc(b').0)) + more));
      o.ok && o.rest == more && Run(Device(Erase(b).1, [], []), o.es) == Device(GetCrc(b').1, [], [])
  {
    var n, b' := |SplitLen(image, PROG_MULTI_MAX)|, Filled(b, image);
    var later := AnswerReads(WordBytes(GetCrc(b').0)) + more;
    FilledHolds(b, image);
    ImageServed(s.windowed, image, Erase(b).1, later);
    CrcServed(b', image, more);
    var p := ProgrammingImage(s.windowed, image, AckReads(s.windowed, n, 0) + later);
    RunConcat(Device(Erase(b).1, [], []), p.es, Verifying(s, image, p.rest).es);
  }

  /** The reads from the erase on: the board is busy, then acknowledges; blocks; CRC `w`; reboot. */
  function ChangeReads(windowed: bool, blocks: nat, w: Word32, patience: nat): Reads {
    Busy(patience) + (SYNC_READS + (AckReads(windowed, blocks, 0) + (AnswerReads(WordBytes(w)) + SYNC_READS)))
  }

  lemma EraseRuns(b: Board)
    requires Addressable(b) && b.synced && b.identified
    ensures Run(Device(b, [], []), [ERASE_SENT] + ACK) == Device(Erase(b).1, [], [])
  {
    ShortCommand(CHIP_ERASE);
    RunCommand(b, [CHIP_ERASE, EOC], Erase(b).1);
  }

  lemma FlashingServed(s: Session, b: Board, image: seq<bv8>, patience: nat, tries: nat, more: Reads)
    requires Addressable(b) && b.synced && b.identified && |b.flash| % 4 == 0 && patience < tries
    requires s.blRev >= 3 && s.fwMaxsize == |b.flash| && |image| % 4 == 0 && image != [] && |image| <= |b.flash|
    ensures var n, b' := |SplitLen(image, PROG_MULTI_MAX)|, Filled(b, image);
      var o := Flashing(s, image, tries,
        Busy(patience) + (SYNC_READS + (AckReads(s.windowed, n, 0) + (AnswerReads(WordBytes(GetCrc(b').0)) + more))));
      && o.ok && o.rest == more
      && Run(Device(b, [], []), [ERASE_SENT] + o.es) == Device(GetCrc(b').1, [], [])
  {
    var n, b' := |SplitLen(image, PROG_MULTI_MAX)|, Filled(b, image);
    var later := AckReads(s.windowed, n, 0) + (AnswerReads(WordBytes(GetCrc(b').0)) + more);
    PollsServed(patience, tries, later);
    EraseRuns(b);
    FillingServed(s, b, image, more);
    AppendTrace([ERASE_SENT], ACK, Filling(s, image, later).es);
    RunConcat(Device(b, [], []), [ERASE_SENT] + ACK, Filling(s, image, later).es);
  }

  /** The flash holds the image followed by 0xff. */
  ghost predicate Imaged(b: Board, image: seq<bv8>, size: nat) {
    |image| <= size && b.flash == image + Erased(size - |image|)
  }

  /** The board is left so, with nothing half sent and nothing unread. */
  ghost predicate Flashed(d: Device, image: seq<bv8>, size: nat) {
    d.Device? && d.input == [] && d.output == [] && Imaged(d.board, image, size)
  }

  lemma ChangingServed(s: Session, b: Board, image: seq<bv8>, patience: nat, tries: nat)
    requires Addressable(b) && b.synced && b.identified && |b.flash| % 4 == 0 && patience < tries
    requires s.blRev >= 3 && s.fwMaxsize == |b.flash| && |image| % 4 == 0 && image != [] && |image| <= |b.flash|
    ensures var n, w := |SplitLen(image, PROG_MULTI_MAX)|, GetCrc(Filled(b, image)).0;
      var o := Changing(s, image, NoDelay, tries, ChangeReads(s.windowed, n, w, patience));
      o.ok && Flashed(Run(Device(b, [], []), o.es), image, |b.flash|)
  {
    var n, b' := |SplitLen(image, PROG_MULTI_MAX)|, Filled(b, image);
    var w := GetCrc(b').0;
    FlashingServed(s, b, image, patience, tries, SYNC_READS);
    var f := Flashing(s, image, tries, ChangeReads(s.windowed, n, w, patience));
    FilledHolds(b, image);
    HeldImage(b', image);
    RebootServed(s, GetCrc(b').1);
    var last := Finishing(s, NoDelay, SYNC_READS);
    AppendTrace([ERASE_SENT], f.es, last.es);
    RunConcat(Device(b, [], []), [ERASE_SENT] + f.es, last.es);
  }

  // ----- what the board says about itself

  lemma LongCommand(c: seq<bv8>)
    requires |c| == 6 && (c[0] == GET_OTP || c[0] == GET_SN)
    ensures OneCommand(c)
  {
    forall k | 0 <= k < |c|
      ensures !Complete(c[..k])
    {
      if k > 0 {
        assert c[..k][0] == c[0];
      }
    }
  }

  lemma InfoCommand(param: bv8)
    ensures OneCommand(InfoQuestion(param).command)
  {
    var c := [GET_DEVICE, param, EOC];
    assert c[..0] == [] && c[..1] == [GET_DEVICE] && c[..2] == [GET_DEVICE, param];
  }

  function OtpValues(b: Board): seq<seq<bv8>> {
    seq(48, k requires 0 <= k < 48 => WordBytes(WordIndexed(b.chip.otp, k)))
  }

  function SerialValues(b: Board): seq<seq<bv8>> {
    seq(3, k requires 0 <= k < 3 => WordBytes(WordIndexed(b.chip.serial, k))) + [WordBytes(b.chip.id)]
  }

  lemma WordSteady(b: Board, command: bv8, k: nat)
    requires Addressable(b) && ((command == GET_OTP && k < 48) || (command == GET_SN && k < 3))
    ensures Steady(b, WordQuestion(command, k),
                   WordBytes(WordIndexed(if command == GET_OTP then b.chip.otp else b.chip.serial, k)))
  {
    var c := WordQuestion(command, k).command;
    LongCommand(c);
    ByteBack(4 * k);
    assert c[1] as nat / 4 == k;
  }

  lemma OtpSteady(b: Board)
    requires Addressable(b)
    ensures forall k :: 0 <= k < 48 ==> Steady(b, OtpQuestions()[k], OtpValues(b)[k])
  {
    forall k | 0 <= k < 48
      ensures Steady(b, OtpQuestions()[k], OtpValues(b)[k])
    {
      WordSteady(b, GET_OTP, k);
    }
  }

  lemma SerialSteady(b: Board)
    requires Addressable(b)
    ensures forall k :: 0 <= k < 4 ==> Steady(b, SerialQuestions()[k], SerialValues(b)[k])
  {
    forall k | 0 <= k < 4
      ensures Steady(b, SerialQuestions()[k], SerialValues(b)[k])
    {
      if k < 3 {
        WordSteady(b, GET_SN, k);
      } else {
        ShortCommand(GET_CHIP);
      }
    }
  }

  lemma InformedServed(s: Session, b: Board, more: Reads)
    requires Addressable(b) && s.blRev >= 4
    ensures var o := Informed(s, BoardAnswers(OtpValues(b)) + (BoardAnswers(SerialValues(b)) + more));
      o.ok && o.rest == more && Run(Device(b, [], []), o.es) == Device(b, [], [])
  {
    var later := BoardAnswers(SerialValues(b)) + more;
    OtpSteady(b);
    AskAllServed(b, OtpQuestions(), OtpValues(b), later);
    SerialSteady(b);
    AskAllServed(b, SerialQuestions(), SerialValues(b), more);
    RunConcat(Device(b, [], []), AskAll(OtpQuestions(), BoardAnswers(OtpValues(b)) + later).es,
              AskAll(SerialQuestions(), later).es);
  }

  predicate Describable(b: Board) {
    0 < |b.chip.description| < 256
  }

  function DescriptionReads(des: seq<bv8>): Reads
    requires |des| < 256
  {
    [WordBytes(WordOf(|des|))] + AnswerReads(des)
  }

  lemma DescribedReads(des: seq<bv8>, more: Reads)
    requires 0 < |des| < 256
    ensures var replies, v := DescriptionReads(des) + more, WordBytes(WordOf(|des|));
      && Description(replies) == des
      && Described(replies) == Out(true, [Sent([GET_CHIP_DES, EOC])] + ([Received(v)] + ([Received(des)] + ACK)), more)
  {
    var replies, v := DescriptionReads(des) + more, WordBytes(WordOf(|des|));
    var later := AnswerReads(des) + more;
    WordBack(|des|);
    DescriptionFront(des, more);
    AnswerServed(des, more);
    assert Description(replies) == Got(later, LittleEndian4(v)) == des;
    assert Answered(des, true, later) == Out(true, [Received(des)] + ACK, more);
  }

  lemma DescriptionFront(des: seq<bv8>, more: Reads)
    requires |des| < 256
    ensures Got(DescriptionReads(des) + more, 4) == WordBytes(WordOf(|des|))
    ensures From(DescriptionReads(des) + more, 1) == AnswerReads(des) + more
  {
    var replies, v := DescriptionReads(des) + more, WordBytes(WordOf(|des|));
    assert replies[0] == v && v[..4] == v;
    assert replies[1..] == AnswerReads(des) + more;
  }

  lemma DescribedRuns(b: Board)
    requires Addressable(b) && Describable(b)
    ensures var des := b.chip.description;
      var v := WordBytes(WordOf(|des|));
      Run(Device(b, [], []), [Sent([GET_CHIP_DES, EOC])] + ([Received(v)] + ([Received(des)] + ACK))) == Device(b, [], [])
  {
    var des := b.chip.description;
    var v := WordBytes(WordOf(|des|));
    var d, c := Device(b, [], []), [GET_CHIP_DES, EOC];
    ShortCommand(GET_CHIP_DES);
    FeedCommand(b, [], c);
    Assoc(v, des, [INSYNC, OK]);
    assert [] + (v + des + [INSYNC, OK]) == v + (des + [INSYNC, OK]);
    RunOne(d, Sent(c));
    RunConcat(d, [Sent(c)], [Received(v)] + ([Received(des)] + ACK));
    RunConcat(Device(b, [], v + (des + [INSYNC, OK])), [Received(v)], [Received(des)] + ACK);
    RunRead(b, v, des + [INSYNC, OK]);
    RunConcat(Device(b, [], des + [INSYNC, OK]), [Received(des)], ACK);
    RunRead(b, des, [INSYNC, OK]);
    RunAck(b, []);
    assert [INSYNC, OK] + [] == [INSYNC, OK];
  }

  /** The reads of the checks. */
  function CheckReads(b: Board): Reads
    requires Describable(b)
  {
    BoardAnswers(OtpValues(b)) + (BoardAnswers(SerialValues(b)) + DescriptionReads(b.chip.description))
  }

  lemma ChecksServed(s: Session, pkg: Package, force: bool, b: Board, more: Reads)
    requires Addressable(b) && Describable(b) && s.blRev == 5
    requires DescriptionAccepted(s, pkg, force, b.chip.description)
    ensures var o := Checks(s, pkg, force, CheckReads(b) + more);
      o.ok && o.rest == more && Run(Device(b, [], []), o.es) == Device(b, [], [])
  {
    var later := DescriptionReads(b.chip.description) + more;
    CheckReadsSplit(b, more);
    InformedServed(s, b, later);
    DescribedReads(b.chip.description, more);
    DescribedRuns(b);
    var info := Informed(s, CheckReads(b) + more);
    RunConcat(Device(b, [], []), info.es, Described(later).es);
  }

  lemma CheckReadsSplit(b: Board, more: Reads)
    requires Describable(b)
    ensures CheckReads(b) + more
         == BoardAnswers(OtpValues(b)) + (BoardAnswers(SerialValues(b)) + (DescriptionReads(b.chip.description) + more))
  {
    var x, y, z := BoardAnswers(OtpValues(b)), BoardAnswers(SerialValues(b)), DescriptionReads(b.chip.description);
    Assoc(x, y + z, more);
    Assoc(y, z, more);
  }

  // ----- identification

  /** What the host knows about the board once it has identified it. */
  function SessionWith(b: Board, windowed: bool): Session {
    Session(windowed, PROTOCOL_VERSION, LittleEndian4(WordBytes(b.chip.boardType)), |b.flash|)
  }

  function BoardValues(b: Board): seq<seq<bv8>>
    requires Addressable(b)
  {
    [WordBytes(b.chip.boardType), WordBytes(b.chip.boardRev), WordBytes(WordOf(|b.flash|))]
  }

  function IdentifyReads(b: Board): Reads
    requires Addressable(b)
  {
    SYNC_READS + (AnswerReads(WordBytes(WordOf(PROTOCOL_VERSION))) + BoardAnswers(BoardValues(b)))
  }

  function Acquainted(b: Board): Board {
    b.(synced := true, identified := true)
  }

  lemma BoardValuesSteady(b: Board)
    requires Addressable(b) && b.identified
    ensures var qs := [InfoQuestion(2), InfoQuestion(3), InfoQuestion(4)];
      forall k :: 0 <= k < 3 ==> Steady(b, qs[k], BoardValues(b)[k])
  {
    InfoCommand(2);
    InfoCommand(3);
    InfoCommand(4);
    assert b.(identified := true) == b;
  }

  lemma IntroducedServed(b: Board, more: Reads)
    requires Addressable(b)
    ensures var o := Introduced(AnswerReads(WordBytes(WordOf(PROTOCOL_VERSION))) + (BoardAnswers(BoardValues(b)) + more));
      o.ok && o.rest == more && Run(Device(b, [], []), o.es) == Device(b.(identified := true), [], [])
  {
    var v, later := WordBytes(WordOf(PROTOCOL_VERSION)), BoardAnswers(BoardValues(b)) + more;
    var b' := b.(identified := true);
    InfoCommand(1);
    AskServed(b, InfoQuestion(1), v, b', later);
    AnswerServed(v, later);
    WordBack(PROTOCOL_VERSION);
    BoardValuesSteady(b');
    AskAllServed(b', [InfoQuestion(2), InfoQuestion(3), InfoQuestion(4)], BoardValues(b'), more);
    RunConcat(Device(b, [], []), Ask(InfoQuestion(1), AnswerReads(v) + later).es,
              AskAll([InfoQuestion(2), InfoQuestion(3), InfoQuestion(4)], later).es);
  }

  lemma IdentifiedServed(b: Board, more: Reads)
    requires Addressable(b)
    ensures var o := Identified(IdentifyReads(b) + more);
      o.ok && o.rest == more && Run(Device(b, [], []), o.es) == Device(Acquainted(b), [], [])
  {
    var b1 := b.(synced := true);
    var later := AnswerReads(WordBytes(WordOf(PROTOCOL_VERSION))) + (BoardAnswers(BoardValues(b)) + more);
    IdentifyReadsSplit(b, more);
    ShortCommand(GET_SYNC);
    CommandServed(b, [GET_SYNC, EOC], b1, later);
    IntroducedServed(b1, more);
    RunConcat(Device(b, [], []), [Sent([GET_SYNC, EOC])] + ACK, Introduced(later).es);
  }

  lemma IdentifyReadsSplit(b: Board, more: Reads)
    requires Addressable(b)
    ensures IdentifyReads(b) + more
         == SYNC_READS + (AnswerReads(WordBytes(WordOf(PROTOCOL_VERSION))) + (BoardAnswers(BoardValues(b)) + more))
  {
    var x, y := AnswerReads(WordBytes(WordOf(PROTOCOL_VERSION))), BoardAnswers(BoardValues(b));
    Assoc(SYNC_READS, x + y, more);
    Assoc(x, y, more);
  }

  lemma IdentifyReadsAt(b: Board, more: Reads)
    requires Addressable(b)
    ensures var all, vs := IdentifyReads(b) + more, BoardValues(b);
      && |all| >= 14 && UpTo(all[2], 4) == WordBytes(WordOf(PROTOCOL_VERSION))
      && UpTo(all[5], 4) == vs[0] && UpTo(all[11], 4) == vs[2]
  {
    var all, vs := IdentifyReads(b) + more, BoardValues(b);
    var v := WordBytes(WordOf(PROTOCOL_VERSION));
    BoardAnswersAt(b);
    assert all[2] == v && v[..4] == v;
    assert all[5] == vs[0] && vs[0][..4] == vs[0];
    assert all[11] == vs[2] && vs[2][..4] == vs[2];
  }

  lemma BoardAnswersAt(b: Board)
    requires Addressable(b)
    ensures var vs := BoardValues(b);
      |BoardAnswers(vs)| == 9 && BoardAnswers(vs)[0] == vs[0] && BoardAnswers(vs)[3] == vs[1] && BoardAnswers(vs)[6] == vs[2]
  {
    var vs := BoardValues(b);
    assert vs[1..] == [vs[1], vs[2]] && [vs[1], vs[2]][1..] == [vs[2]] && [vs[2]][1..] == [];
    assert BoardAnswers([]) == [];
    assert BoardAnswers([vs[2]]) == AnswerReads(vs[2]) + [];
    assert BoardAnswers([vs[1], vs[2]]) == AnswerReads(vs[1]) + BoardAnswers([vs[2]]);
    assert BoardAnswers(vs) == AnswerReads(vs[0]) + BoardAnswers([vs[1], vs[2]]);
  }

  // ----- the whole upload

  predicate Uploadable(b: Board, pkg: Package, force: bool) {
    && Addressable(b) && Describable(b) && |b.flash| % 4 == 0
    && |pkg.image| % 4 == 0 && pkg.image != [] && |pkg.image| <= |b.flash|
    && MayErase(SessionWith(b, false), pkg, force)
    && DescriptionAccepted(SessionWith(b, false), pkg, force, b.chip.description)
  }

  /** Everything the host reads from the board during the upload, which is busy erasing for `patience` polls. */
  function UploadReads(b: Board, image: seq<bv8>, windowed: bool, patience: nat): Reads
    requires Describable(b) && |image| % 4 == 0
  {
    CheckReads(b) + ChangeReads(windowed, |SplitLen(image, PROG_MULTI_MAX)|, GetCrc(Filled(b, image)).0, patience)
  }

  lemma UploadServed(b: Board, pkg: Package, force: bool, windowed: bool, patience: nat, tries: nat)
    requires Uploadable(b, pkg, force) && b.synced && b.identified && patience < tries
    ensures var o := Uploading(SessionWith(b, windowed), pkg, force, NoDelay, tries,
                               UploadReads(b, pkg.image, windowed, patience));
      o.ok && Flashed(Run(Device(b, [], []), o.es), pkg.image, |b.flash|)
  {
    var s, image := SessionWith(b, windowed), pkg.image;
    var later := ChangeReads(windowed, |SplitLen(image, PROG_MULTI_MAX)|, GetCrc(Filled(b, image)).0, patience);
    ChecksServed(s, pkg, force, b, later);
    ChangingServed(s, b, image, patience, tries);
    RunConcat(Device(b, [], []), Checks(s, pkg, force, CheckReads(b) + later).es, Changing(s, image, NoDelay, tries, later).es);
  }

  lemma ReportedFields(b: Board, more: Reads, rev: nat, boardType: nat, boardRev: nat, size: nat)
    requires Addressable(b) && |IdentifyReads(b) + more| >= 2
    requires Reported((IdentifyReads(b) + more)[2..], rev, boardType, boardRev, size)
    ensures rev == PROTOCOL_VERSION && boardType == LittleEndian4(WordBytes(b.chip.boardType)) && size == |b.flash|
  {
    IdentifyReadsAt(b, more);
    WordBack(PROTOCOL_VERSION);
    WordBack(|b.flash|);
  }

  /** What a host that has read the board's answers has sent and read, and what it knows. */
  lemma IdentifiedAs(b: Board, later: Reads, answers: Reads, windowed: bool, rev: nat, boardType: nat, boardRev: nat, size: nat)
    requires Addressable(b) && answers == IdentifyReads(b) + later && |answers| >= 2
    requires Reported(answers[2..], rev, boardType, boardRev, size)
    ensures Identified(answers).rest == later
    ensures Run(Device(b, [], []), Identified(answers).es) == Device(Acquainted(b), [], [])
    ensures Session(windowed, rev, boardType, size) == SessionWith(b, windowed)
  {
    IdentifiedServed(b, later);
    ReportedFields(b, later, rev, boardType, boardRev, size);
  }

  lemma IdentifiedOk(b: Board, later: Reads)
    requires Addressable(b)
    ensures Identified(IdentifyReads(b) + later).ok
  {
    IdentifiedServed(b, later);
  }

  /** A new host that reads `answers`. */
  method Introduce(answers: Reads, windowed: bool) returns (host: Uploader, ok: bool)
    ensures fresh(host) && host.window == 0 && host.ackWindowedMode == windowed
    ensures ok == Identified(answers).ok
    ensures host.trace == Identified(answers).es && host.replies == Identified(answers).rest
    ensures ok ==> |answers| >= 2 && Reported(answers[2..], host.blRev, host.boardType, host.boardRev, host.fwMaxsize)
  {
    host := new Uploader(windowed, answers);
    ok := host.Identify();
    assert [] + Identified(answers).es == Identified(answers).es;
  }

  /** A new host identifies the board. */
  method Connect(answers: Reads, windowed: bool, ghost b: Board, ghost later: Reads) returns (host: Uploader)
    requires Addressable(b) && answers == IdentifyReads(b) + later
    ensures fresh(host) && host.window == 0 && host.Known() == SessionWith(b, windowed) && host.replies == later
    ensures Run(Device(b, [], []), host.trace) == Device(Acquainted(b), [], [])
  {
    IdentifiedOk(b, later);
    var ok;
    host, ok := Introduce(answers, windowed);
    IdentifiedAs(b, later, answers, windowed, host.blRev, host.boardType, host.boardRev, host.fwMaxsize);
  }

  /** The host uploads to the board it has identified. */
  method FinishUpload(host: Uploader, pkg: Package, force: bool, tries: nat, ghost b: Board)
    returns (r: Outcome, ghost d: Device)
    requires |pkg.image| % 4 == 0 && host.window == 0 && MayErase(host.Known(), pkg, force)
    requires Run(Device(b, [], []), host.trace) == Device(Acquainted(b), [], [])
    requires var o := Uploading(host.Known(), pkg, force, NoDelay, tries, host.replies);
      o.ok && Flashed(Run(Device(Acquainted(b), [], []), o.es), pkg.image, |b.flash|)
    modifies host
    ensures r == Finished && d == Run(Device(b, [], []), host.trace) && Flashed(d, pkg.image, |b.flash|)
  {
    ghost var before := host.trace;
    ghost var es;
    r, es := host.Upload(pkg, force, NoDelay, tries);
    RunConcat(Device(b, [], []), before, es);
    d := Run(Device(b, [], []), host.trace);
  }

  /**
   * Identification and upload against the modelled bootloader, whose answers the reads are: `d`, the board that has
   * met the whole trace, is not lost, so each byte read was sent back by the board in response to what the host had
   * written before; the upload finishes, and the flash holds the padded image followed by 0xff.
   */
  method FlashBoard(b: Board, pkg: Package, force: bool, windowed: bool, patience: nat, tries: nat)
    returns (r: Outcome, ghost d: Device, ghost trace: seq<Event>)
    requires Uploadable(b, pkg, force) && patience < tries
    ensures r == Finished
    ensures d == Run(Device(b, [], []), trace) && Flashed(d, pkg.image, |b.flash|)
  {
    var later := UploadReads(Acquainted(b), pkg.image, windowed, patience);
    UploadServed(Acquainted(b), pkg, force, windowed, patience, tries);
    var host := Connect(IdentifyReads(b) + later, windowed, b, later);
    r, d := FinishUpload(host, pkg, force, tries, b);
    trace := host.trace;
  }

  lemma ErasedJoin(raw: seq<bv8>, m: nat, n: nat)
    ensures raw + Erased(m) + Erased(n) == raw + Erased(m + n)
  {
    assert Erased(m) + Erased(n) == Erased(m + n);
    Assoc(raw, Erased(m), Erased(n));
  }

  lemma PaddedUploadable(b: Board, raw: seq<bv8>, image: seq<bv8>, boardId: int, imageMaxsize: int, force: bool, windowed: bool)
    requires Addressable(b) && Describable(b) && |b.flash| % 32 == 0 && raw != []
    requires MayErase(SessionWith(b, windowed), Package(raw, boardId, |raw|, imageMaxsize), force)
    requires DescriptionAccepted(SessionWith(b, windowed), Package(raw, boardId, |raw|, imageMaxsize), force, b.chip.description)
    requires |image| % 32 == 0 && |raw| <= |image| && |image| == PaddedLength(|raw|)
    ensures Uploadable(b, Package(image, boardId, |raw|, imageMaxsize), force) && |image| <= |b.flash|
  {
    PaddedFits(|raw|, |b.flash|);
  }

  /** The same from the unpadded image: if the guard lets it through, the padded image fits too. */
  method FlashRaw(b: Board, raw: seq<bv8>, boardId: int, imageMaxsize: int, force: bool, windowed: bool, patience: nat, tries: nat)
    returns (r: Outcome, ghost image: seq<bv8>, ghost d: Device)
    requires Addressable(b) && Describable(b) && |b.flash| % 32 == 0 && raw != [] && patience < tries
    requires MayErase(SessionWith(b, windowed), Package(raw, boardId, |raw|, imageMaxsize), force)
    requires DescriptionAccepted(SessionWith(b, windowed), Package(raw, boardId, |raw|, imageMaxsize), force, b.chip.description)
    ensures r == Finished && |raw| <= |image| && image == raw + Erased(|image| - |raw|) && Flashed(d, image, |b.flash|)
    ensures d.board.flash == raw + Erased(|b.flash| - |raw|)
  {
    var padded := PadImage(raw);
    PaddedUploadable(b, raw, padded, boardId, imageMaxsize, force, windowed);
    ErasedJoin(raw, |padded| - |raw|, |b.flash| - |padded|);
    image := padded;
    ghost var trace;
    r, d, trace := FlashBoard(b, Package(padded, boardId, |raw|, imageMaxsize), force, windowed, patience, tries);
  }
}
