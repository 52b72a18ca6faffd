/** Uploads to the modelled bootloader in which the host reads what it reads at any time. */
module UploadTimings {
  import opened Bytes
  import opened Crc32
  import opened Firmware
  import opened UploadTrace
  import opened UploadSpec
  import opened UploadSafety
  import opened Bootloader
  import opened BoardLine
  import opened FirmwareUpload

  // ----- what becomes of the board is decided by what is sent

  /** The device without what it has sent back. */
  function Quiet(d: Device): Device {
    if d.Lost? then Lost else d.(output := [])
  }

  lemma FeedByteQuiet(d: Device, c: bv8)
    ensures Quiet(FeedByte(d, c)) == Quiet(FeedByte(Quiet(d), c))
  {
  }

  lemma {:induction false} FeedQuiet(d: Device, bytes: seq<bv8>)
    ensures Quiet(Feed(d, bytes)) == Quiet(Feed(Quiet(d), bytes))
    decreases |bytes|
  {
    if bytes != [] {
      var x, y := FeedByte(d, bytes[0]), FeedByte(Quiet(d), bytes[0]);
      FeedByteQuiet(d, bytes[0]);
      FeedQuiet(x, bytes[1..]);
      FeedQuiet(y, bytes[1..]);
    }
  }

  lemma {:induction false} FeedLost(bytes: seq<bv8>)
    ensures Feed(Lost, bytes) == Lost
    decreases |bytes|
  {
    if bytes != [] {
      FeedLost(bytes[1..]);
    }
  }

  /** One more event, behind a run that `f` is as good as. */
  lemma MeetsQuiet(d: Device, f: Device, e: Event)
    requires d.Device? ==> Quiet(d) == Quiet(f)
    requires Meets(d, e).Device?
    ensures Quiet(Meets(d, e)) == Quiet(if e.Sent? then Feed(f, e.bytes) else f)
  {
    match e
    case Sent(bytes) =>
      if d.Lost? {
        FeedLost(bytes);
      } else {
        FeedQuiet(d, bytes);
        FeedQuiet(f, bytes);
      }
    case Received(bytes) =>
  }

  /** If the device could answer as the trace says, it is left as if it had only been fed what was sent. */
  lemma {:induction false} RunIsFeed(d: Device, es: seq<Event>)
    requires Run(d, es).Device?
    ensures Quiet(Run(d, es)) == Quiet(Feed(d, SentBytes(es)))
    decreases |es|
  {
    if es != [] {
      var front, e := es[..|es| - 1], es[|es| - 1];
      assert es == front + [e];
      var d1 := Run(d, front);
      RunConcat(d, front, [e]);
      RunOne(d1, e);
      if d1.Device? {
        RunIsFeed(d, front);
      }
      MeetsQuiet(d1, Feed(d, SentBytes(front)), e);
      FeedConcat(d, SentBytes(front), if e.Sent? then e.bytes else []);
    }
  }

  /** What the bytes `sent` make of a board that has none of them yet. */
  function After(b: Board, sent: seq<bv8>): Device {
    Quiet(Feed(Device(b, [], []), sent))
  }

  /** `sent` are whole commands that make `b1` of `b`, or the model does not cover them. */
  predicate Leads(b: Board, sent: seq<bv8>, b1: Board) {
    After(b, sent).Device? ==> After(b, sent) == Device(b1, [], [])
  }

  lemma LeadsNowhere(b: Board)
    ensures Leads(b, [], b)
  {
  }

  lemma LostConcat(b: Board, x: seq<bv8>, y: seq<bv8>)
    requires After(b, x).Lost?
    ensures After(b, x + y).Lost?
  {
    FeedConcat(Device(b, [], []), x, y);
    FeedLost(y);
  }

  lemma LeadsConcat(b: Board, x: seq<bv8>, b1: Board, y: seq<bv8>, b2: Board)
    requires Leads(b, x, b1) && Leads(b1, y, b2)
    ensures Leads(b, x + y, b2)
  {
    if After(b, x).Lost? {
      LostConcat(b, x, y);
    } else {
      FeedConcat(Device(b, [], []), x, y);
      FeedQuiet(Feed(Device(b, [], []), x), y);
    }
  }

  lemma FeedRefused(b: Board, c: seq<bv8>)
    requires Addressable(b) && OneCommand(c) && Perform(b, c).NotModelled?
    ensures After(b, c).Lost?
  {
    var k := |c| - 1;
    var front, last := c[..k], c[k];
    assert c == front + [last];
    forall j | 0 < j <= |front|
      ensures !Complete(([] + front)[..j])
    {
      assert ([] + front)[..j] == c[..j];
    }
    FeedFront(b, [], [], front);
    assert [] + front == front;
    FeedConcat(Device(b, [], []), front, [last]);
    assert [last][1..] == [];
    assert Feed(Lost, []) == Lost;
  }

  lemma LeadsCommand(b: Board, c: seq<bv8>, b1: Board)
    requires Addressable(b) && OneCommand(c) && (Perform(b, c).Answer? ==> Perform(b, c).board == b1)
    ensures Leads(b, c, b1)
  {
    if Perform(b, c).Answer? {
      FeedCommand(b, [], c);
    } else {
      FeedRefused(b, c);
    }
  }

  // ----- what is sent

  lemma {:induction false} SentConcat(a: seq<Event>, b: seq<Event>)
    ensures SentBytes(a + b) == SentBytes(a) + SentBytes(b)
    decreases |b|
  {
    if b == [] {
      assert a + b == a;
    } else {
      var front, e := b[..|b| - 1], b[|b| - 1];
      assert b == front + [e];
      SentConcat(a, front);
      Assoc(a, front, [e]);
      SentSnoc(a + front, e);
      SentSnoc(front, e);
    }
  }

  lemma {:induction false} SentReads(es: seq<Event>)
    requires OnlyReceives(es)
    ensures SentBytes(es) == []
    decreases |es|
  {
    if es != [] {
      SentReads(es[..|es| - 1]);
    }
  }

  /** One write, then only reads. */
  lemma SentOnce(c: seq<bv8>, es: seq<Event>)
    requires OnlyReceives(es)
    ensures SentBytes([Sent(c)] + es) == c
  {
    SentConcat([Sent(c)], es);
    SentReads(es);
    SentSnoc([], Sent(c));
    assert [] + [Sent(c)] == [Sent(c)];
  }

  // ----- questions

  /** The board answers and is not changed by it, or the model does not cover the command. */
  predicate Keeps(b: Board, c: seq<bv8>)
    requires Addressable(b)
  {
    OneCommand(c) && (Perform(b, c).Answer? ==> Perform(b, c).board == b)
  }

  lemma AskLeads(b: Board, q: Question, replies: Reads, b1: Board)
    requires Addressable(b) && OneCommand(q.command)
    requires Perform(b, q.command).Answer? ==> Perform(b, q.command).board == b1
    ensures Leads(b, SentBytes(Ask(q, replies).es), b1)
  {
    var c := Got(replies, 4);
    AnsweredReads(c, Acceptable(q, c), replies);
    SentOnce(q.command, Answered(c, Acceptable(q, c), replies).es);
    LeadsCommand(b, q.command, b1);
  }

  lemma {:induction false} AskAllLeads(b: Board, qs: seq<Question>, replies: Reads)
    requires Addressable(b) && forall k :: 0 <= k < |qs| ==> Keeps(b, qs[k].command)
    ensures Leads(b, SentBytes(AskAll(qs, replies).es), b)
    decreases |qs|
  {
    if qs == [] {
      LeadsNowhere(b);
    } else {
      var a := Ask(qs[0], replies);
      assert Keeps(b, qs[0].command);
      AskLeads(b, qs[0], replies, b);
      if a.ok {
        var more := AskAll(qs[1..], a.rest);
        AskAllLeads(b, qs[1..], a.rest);
        SentConcat(a.es, more.es);
        LeadsConcat(b, SentBytes(a.es), b, SentBytes(more.es), b);
      }
    }
  }

  lemma QuestionsKeep(b: Board)
    requires Addressable(b)
    ensures forall k :: 0 <= k < |OtpQuestions()| ==> Keeps(b, OtpQuestions()[k].command)
    ensures forall k :: 0 <= k < |SerialQuestions()| ==> Keeps(b, SerialQuestions()[k].command)
  {
    OtpSteady(b);
    SerialSteady(b);
    forall k | 0 <= k < |OtpQuestions()|
      ensures Keeps(b, OtpQuestions()[k].command)
    {
      assert Steady(b, OtpQuestions()[k], OtpValues(b)[k]);
    }
    forall k | 0 <= k < |SerialQuestions()|
      ensures Keeps(b, SerialQuestions()[k].command)
    {
      assert Steady(b, SerialQuestions()[k], SerialValues(b)[k]);
    }
  }

  lemma InformedLeads(s: Session, replies: Reads, b: Board)
    requires Addressable(b)
    ensures Leads(b, SentBytes(Informed(s, replies).es), b)
  {
    if s.blRev < 4 {
      LeadsNowhere(b);
    } else {
      var otp := AskAll(OtpQuestions(), replies);
      var serial := AskAll(SerialQuestions(), otp.rest);
      QuestionsKeep(b);
      AskAllLeads(b, OtpQuestions(), replies);
      AskAllLeads(b, SerialQuestions(), otp.rest);
      SentConcat(otp.es, serial.es);
      LeadsConcat(b, SentBytes(otp.es), b, SentBytes(serial.es), b);
    }
  }

  lemma DescribedLeads(replies: Reads, b: Board)
    requires Addressable(b)
    ensures Leads(b, SentBytes(Described(replies).es), b)
  {
    var c := [GET_CHIP_DES, EOC];
    DescribedOnce(replies);
    ShortCommand(GET_CHIP_DES);
    LeadsCommand(b, c, b);
  }

  lemma DescribedOnce(replies: Reads)
    ensures SentBytes(Described(replies).es) == [GET_CHIP_DES, EOC]
  {
    var more := Described(replies).es[1..];
    AnsweredReads(Description(replies), Description(replies) != [], From(replies, 1));
    assert Described(replies).es == [Sent([GET_CHIP_DES, EOC])] + more;
    SentOnce([GET_CHIP_DES, EOC], more);
  }

  lemma ChecksLead(s: Session, pkg: Package, force: bool, replies: Reads, b: Board)
    requires Addressable(b)
    ensures Leads(b, SentBytes(Checks(s, pkg, force, replies).es), b)
  {
    InformedLeads(s, replies, b);
    JudgedLeads(s, pkg, force, Informed(s, replies), b);
  }

  lemma JudgedLeads(s: Session, pkg: Package, force: bool, info: Out, b: Board)
    requires Addressable(b) && Leads(b, SentBytes(info.es), b)
    ensures Leads(b, SentBytes(Judged(s, pkg, force, info).es), b)
  {
    var d := Described(info.rest);
    DescribedLeads(info.rest, b);
    SentConcat(info.es, d.es);
    LeadsConcat(b, SentBytes(info.es), b, SentBytes(d.es), b);
  }

  // ----- identification

  lemma BoardQuestionsKeep(b: Board)
    requires Addressable(b) && b.identified
    ensures Keeps(b, InfoQuestion(2).command) && Keeps(b, InfoQuestion(3).command) && Keeps(b, InfoQuestion(4).command)
  {
    InfoCommand(2);
    InfoCommand(3);
    InfoCommand(4);
    assert b.(identified := true) == b;
  }

  lemma IntroducedLeads(replies: Reads, b: Board)
    requires Addressable(b)
    ensures Leads(b, SentBytes(Introduced(replies).es), b.(identified := true))
  {
    var a, b1 := Ask(InfoQuestion(1), replies), b.(identified := true);
    var qs := [InfoQuestion(2), InfoQuestion(3), InfoQuestion(4)];
    var more := AskAll(qs, a.rest);
    InfoCommand(1);
    AskLeads(b, InfoQuestion(1), replies, b1);
    BoardQuestionsKeep(b1);
    AskAllLeads(b1, qs, a.rest);
    SentConcat(a.es, more.es);
    LeadsConcat(b, SentBytes(a.es), b1, SentBytes(more.es), b1);
  }

  lemma IdentifiedLeads(replies: Reads, b: Board)
    requires Addressable(b) && Identified(replies).ok
    ensures Leads(b, SentBytes(Identified(replies).es), Acquainted(b))
  {
    var c, b1 := Command([GET_SYNC, EOC], replies), b.(synced := true);
    SyncExactly(replies);
    SentOnce([GET_SYNC, EOC], Sync(replies).es);
    ShortCommand(GET_SYNC);
    LeadsCommand(b, [GET_SYNC, EOC], b1);
    IntroducedLeads(c.rest, b1);
    SentConcat(c.es, Introduced(c.rest).es);
    LeadsConcat(b, SentBytes(c.es), b1, SentBytes(Introduced(c.rest).es), Acquainted(b));
  }

  // ----- programming

  /** A block's command. */
  function BlockBytes(block: seq<bv8>): seq<bv8>
    requires |block| < 256
  {
    [PROG_MULTI, LengthByte(|block|)] + block + [EOC]
  }

  lemma BlockCommand(block: seq<bv8>)
    requires 0 < |block| < 256
    ensures OneCommand(BlockBytes(block))
  {
    var c := BlockBytes(block);
    LengthRead(c, |block|);
    forall k | 0 <= k < |c|
      ensures !Complete(c[..k])
    {
      if k >= 2 {
        LengthRead(c[..k], |block|);
      }
    }
  }

  lemma BlockLeads(b: Board, block: seq<bv8>)
    requires Addressable(b) && 0 < |block| < 256
    ensures Leads(b, BlockBytes(block), ProgMulti(b, block).1)
  {
    BlockCommand(block);
    PerformBlock(b, block);
    LeadsCommand(b, BlockBytes(block), ProgMulti(b, block).1);
  }

  /** Blocks that fit together leave a board that holds them. */
  lemma {:induction false} BlocksLead(b: Board, groups: seq<seq<bv8>>) returns (b1: Board)
    requires Addressable(b) && Holds(b, []) && Programmable(groups) && |Flatten(groups)| <= |b.flash|
    ensures Leads(b, ProgramBytes(groups), b1)
    ensures Holds(b1, Flatten(groups)) && |b1.flash| == |b.flash|
    decreases |groups|
  {
    if groups == [] {
      b1 := b;
      LeadsNowhere(b);
    } else {
      var front, block := groups[..|groups| - 1], groups[|groups| - 1];
      BlocksParts(groups, front, block);
      var b2 := BlocksLead(b, front);
      b1 := ProgMulti(b2, block).1;
      BlockStep(b, ProgramBytes(front), b2, Flatten(front), block);
    }
  }

  lemma BlocksParts(groups: seq<seq<bv8>>, front: seq<seq<bv8>>, block: seq<bv8>)
    requires Programmable(groups) && groups != [] && front == groups[..|groups| - 1] && block == groups[|groups| - 1]
    ensures Programmable(front) && Block(block)
    ensures Flatten(groups) == Flatten(front) + block && ProgramBytes(groups) == ProgramBytes(front) + BlockBytes(block)
  {
    assert groups == front + [block];
    FlattenSnoc(front, block);
    Assoc(ProgramBytes(front), [PROG_MULTI, LengthByte(|block|)], block);
    Assoc(ProgramBytes(front), [PROG_MULTI, LengthByte(|block|)] + block, [EOC]);
  }

  lemma BlockStep(b: Board, sent: seq<bv8>, b2: Board, data: seq<bv8>, block: seq<bv8>)
    requires Leads(b, sent, b2) && Addressable(b2) && Holds(b2, data) && Block(block) && |data| + |block| <= |b2.flash|
    ensures var b1 := ProgMulti(b2, block).1;
      Leads(b, sent + BlockBytes(block), b1) && Holds(b1, data + block) && |b1.flash| == |b2.flash|
  {
    ProgMultiHolds(b2, data, block);
    BlockLeads(b2, block);
    LeadsConcat(b, sent, b2, BlockBytes(block), ProgMulti(b2, block).1);
  }

  // ----- verification and reboot

  lemma ChipVerifyLost(b: Board, more: seq<Event>)
    requires Addressable(b)
    ensures After(b, SentBytes([Sent([CHIP_VERIFY, EOC])] + more)).Lost?
  {
    var c := [CHIP_VERIFY, EOC];
    ShortCommand(CHIP_VERIFY);
    FeedRefused(b, c);
    SentConcat([Sent(c)], more);
    SentOnce(c, []);
    assert [Sent(c)] + [] == [Sent(c)];
    LostConcat(b, c, SentBytes(more));
  }

  lemma VerifiedLeads(image: seq<bv8>, rev: nat, size: int, b: Board)
    requires Addressable(b) && |image| % 4 == 0
    ensures Leads(b, SentBytes(Verified(image, rev, size)), GetCrc(b).1)
  {
    BlocksAreWords(image);
    if rev == 2 {
      Assoc([Sent([CHIP_VERIFY, EOC])], ACK, ReadBack(SplitLen(image, PROG_MULTI_MAX)));
      ChipVerifyLost(b, ACK + ReadBack(SplitLen(image, PROG_MULTI_MAX)));
    } else {
      var c, w := [GET_CRC, EOC], FirmwareCrc(image, size);
      var more := [Received(WordBytes(w))] + ACK;
      assert Verified(image, rev, size) == [Sent(c)] + more;
      SentOnce(c, more);
      ShortCommand(GET_CRC);
      LeadsCommand(b, c, GetCrc(b).1);
    }
  }

  /** Setting a boot delay is not part of the board's model. */
  lemma DelayLeads(delay: BootDelay, b: Board)
    requires Addressable(b) && Sendable(delay)
    ensures Leads(b, SentBytes(DelaySet(delay)), b)
  {
    if delay.NoDelay? {
      LeadsNowhere(b);
    } else {
      var x := DelayByte(delay.seconds);
      var c := [SET_BOOT_DELAY, x];
      assert c[..0] == [] && c[..1] == [SET_BOOT_DELAY];
      FeedRefused(b, c);
      SentOnce(c + [EOC], ACK);
      assert c + [EOC] == [SET_BOOT_DELAY, x, EOC];
      LostConcat(b, c, [EOC]);
    }
  }

  lemma RebootingLeads(s: Session, replies: Reads, b: Board)
    requires Addressable(b)
    ensures Leads(b, SentBytes(Rebooting(s, replies).es), Boot(b).1)
  {
    var c := [REBOOT, EOC];
    SyncExactly(replies);
    SentOnce(c, if s.blRev >= 3 then Sync(replies).es else []);
    ShortCommand(REBOOT);
    LeadsCommand(b, c, Boot(b).1);
  }

  lemma FinishingLeads(s: Session, delay: BootDelay, replies: Reads, b: Board)
    requires Addressable(b) && Finishing(s, delay, replies).ok
    ensures Leads(b, SentBytes(Finishing(s, delay, replies).es), Boot(b).1)
  {
    var d := Delaying(delay, replies);
    var r := Rebooting(s, d.rest);
    DelayingEvents(delay, replies);
    DelayLeads(delay, b);
    RebootingLeads(s, d.rest, b);
    SentConcat(d.es, r.es);
    LeadsConcat(b, SentBytes(d.es), b, SentBytes(r.es), Boot(b).1);
  }

  // ----- from the erase on

  /** What is sent from the erase to the verification is the same in every upload that gets that far. */
  lemma FlashingSent(s: Session, image: seq<bv8>, tries: nat, replies: Reads)
    requires |image| % 4 == 0 && Flashing(s, image, tries, replies).ok
    ensures image != [] && Programmable(SplitLen(image, PROG_MULTI_MAX))
    ensures SentBytes(Flashing(s, image, tries, replies).es)
         == ProgramBytes(SplitLen(image, PROG_MULTI_MAX)) + SentBytes(Verified(image, s.blRev, s.fwMaxsize))
  {
    var polls, program := FlashingEvents(s, image, tries, replies);
    SentBehind(Flashing(s, image, tries, replies).es, polls, program, Verified(image, s.blRev, s.fwMaxsize));
  }

  lemma SentBehind(es: seq<Event>, polls: seq<Event>, x: seq<Event>, y: seq<Event>)
    requires OnlyReceives(polls) && es == polls + ACK + x + y
    ensures SentBytes(es) == SentBytes(x) + SentBytes(y)
  {
    var heard := polls + ACK;
    assert OnlyReceives(heard);
    SentReads(heard);
    Assoc(heard, x, y);
    SentConcat(heard, x + y);
    SentConcat(x, y);
  }

  lemma EraseLeads(b: Board)
    requires Addressable(b) && b.synced && b.identified
    ensures Leads(b, [CHIP_ERASE, EOC], Erase(b).1)
    ensures Holds(Erase(b).1, []) && |Erase(b).1.flash| == |b.flash|
  {
    ShortCommand(CHIP_ERASE);
    LeadsCommand(b, [CHIP_ERASE, EOC], Erase(b).1);
  }

  lemma FlashingLeads(s: Session, image: seq<bv8>, tries: nat, replies: Reads, b: Board) returns (b1: Board)
    requires Addressable(b) && b.synced && b.identified && |image| % 4 == 0 && |image| <= |b.flash|
    requires Flashing(s, image, tries, replies).ok
    ensures image != [] && Holds(b1, image) && |b1.flash| == |b.flash|
    ensures Leads(b, [CHIP_ERASE, EOC] + SentBytes(Flashing(s, image, tries, replies).es), GetCrc(b1).1)
  {
    var groups, v := SplitLen(image, PROG_MULTI_MAX), SentBytes(Verified(image, s.blRev, s.fwMaxsize));
    FlashingSent(s, image, tries, replies);
    SplitLenExact(image, PROG_MULTI_MAX);
    EraseLeads(b);
    b1 := BlocksLead(Erase(b).1, groups);
    VerifiedLeads(image, s.blRev, s.fwMaxsize, b1);
    LeadsConcat(Erase(b).1, ProgramBytes(groups), b1, v, GetCrc(b1).1);
    LeadsConcat(b, [CHIP_ERASE, EOC], Erase(b).1, ProgramBytes(groups) + v, GetCrc(b1).1);
  }

  lemma ChangingLeads(s: Session, image: seq<bv8>, delay: BootDelay, tries: nat, replies: Reads, b: Board) returns (b1: Board)
    requires Addressable(b) && b.synced && b.identified && |b.flash| % 4 == 0 && |image| % 4 == 0 && |image| <= |b.flash|
    requires Changing(s, image, delay, tries, replies).ok
    ensures Leads(b, SentBytes(Changing(s, image, delay, tries, replies).es), b1) && Imaged(b1, image, |b.flash|)
  {
    var f := Flashing(s, image, tries, replies);
    var last := Finishing(s, delay, f.rest);
    var b2 := FlashingLeads(s, image, tries, replies, b);
    HeldImage(b2, image);
    b1 := Boot(GetCrc(b2).1).1;
    FinishingLeads(s, delay, f.rest, GetCrc(b2).1);
    LeadsConcat(b, [CHIP_ERASE, EOC] + SentBytes(f.es), GetCrc(b2).1, SentBytes(last.es), b1);
    ChangingSent(f.es, last.es);
  }

  lemma ChangingSent(f: seq<Event>, last: seq<Event>)
    ensures SentBytes([ERASE_SENT] + (f + last)) == [CHIP_ERASE, EOC] + SentBytes(f) + SentBytes(last)
  {
    SentConcat([ERASE_SENT], f + last);
    SentConcat(f, last);
    SentOnce([CHIP_ERASE, EOC], []);
    assert [ERASE_SENT] + [] == [ERASE_SENT];
    Assoc([CHIP_ERASE, EOC], SentBytes(f), SentBytes(last));
  }

  // ----- the whole upload

  lemma UploadingLeads(s: Session, pkg: Package, force: bool, delay: BootDelay, tries: nat, replies: Reads, b: Board)
    returns (b1: Board)
    requires Addressable(b) && b.synced && b.identified && |b.flash| % 4 == 0
    requires |pkg.image| % 4 == 0 && |pkg.image| <= |b.flash|
    requires Uploading(s, pkg, force, delay, tries, replies).ok
    ensures Leads(b, SentBytes(Uploading(s, pkg, force, delay, tries, replies).es), b1) && Imaged(b1, pkg.image, |b.flash|)
  {
    var c := Checks(s, pkg, force, replies);
    var change := Changing(s, pkg.image, delay, tries, c.rest);
    ChecksLead(s, pkg, force, replies, b);
    b1 := ChangingLeads(s, pkg.image, delay, tries, c.rest, b);
    SentConcat(c.es, change.es);
    LeadsConcat(b, SentBytes(c.es), b, SentBytes(change.es), b1);
  }

  /**
   * Whatever the host reads and when, if identification and upload succeed and the modelled board can have answered
   * so, the flash ends up as the image followed by 0xff and no command is left half sent.
   */
  lemma AnyTiming(s: Session, pkg: Package, force: bool, delay: BootDelay, tries: nat, replies: Reads, b: Board)
    requires Addressable(b) && |b.flash| % 4 == 0 && |pkg.image| % 4 == 0 && |pkg.image| <= |b.flash|
    requires Identified(replies).ok && Uploading(s, pkg, force, delay, tries, Identified(replies).rest).ok
    ensures var es := Identified(replies).es + Uploading(s, pkg, force, delay, tries, Identified(replies).rest).es;
      var d := Run(Device(b, [], []), es);
      d.Device? ==> d.input == [] && Imaged(d.board, pkg.image, |b.flash|)
  {
    var i := Identified(replies);
    var o := Uploading(s, pkg, force, delay, tries, i.rest);
    var d := Run(Device(b, [], []), i.es + o.es);
    IdentifiedLeads(replies, b);
    var b1 := UploadingLeads(s, pkg, force, delay, tries, i.rest, Acquainted(b));
    SentConcat(i.es, o.es);
    LeadsConcat(b, SentBytes(i.es), Acquainted(b), SentBytes(o.es), b1);
    if d.Device? {
      RunIsFeed(Device(b, [], []), i.es + o.es);
    }
  }

  /** A host that reads `answers` tries to identify a board and to upload to it; `d` is the board behind the whole trace. */
  method FlashAtAnyTime(answers: Reads, windowed: bool, b: Board, pkg: Package, force: bool, delay: BootDelay, tries: nat)
    returns (r: Outcome, ghost d: Device, ghost trace: seq<Event>)
    requires Addressable(b) && |b.flash| % 4 == 0 && |pkg.image| % 4 == 0 && |pkg.image| <= |b.flash|
    ensures d == Run(Device(b, [], []), trace)
    ensures r == Finished && d.Device? ==> d.input == [] && Imaged(d.board, pkg.image, |b.flash|)
  {
    var host, ok := Introduce(answers, windowed);
    r, d, trace := Raised, Run(Device(b, [], []), host.trace), host.trace;
    if ok {
      ghost var known := host.Known();
      ghost var es;
      r, es := host.Upload(pkg, force, delay, tries);
      trace := host.trace;
      d := Run(Device(b, [], []), trace);
      if r == Finished {
        AnyTiming(known, pkg, force, delay, tries, answers, b);
      }
    }
  }
}
