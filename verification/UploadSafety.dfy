/** What holds of the trace of every upload, whatever the device answers. */
module UploadSafety {
  import opened Bytes
  import opened Crc32
  import opened Firmware
  import opened UploadTrace
  import opened UploadSpec

  /** The last thing sent is the reboot command, confirmed from revision 3 on. */
  ghost predicate RebootedAtEnd(rev: nat, es: seq<Event>) {
    exists pre :: es == pre + [REBOOT_SENT] + (if rev >= 3 then ACK else [])
  }

  // ----- harmless exchanges

  lemma HarmlessConcat(a: seq<Event>, b: seq<Event>)
    requires Harmless(a) && Harmless(b)
    ensures Harmless(a + b)
  {
  }

  lemma HarmlessReads(es: seq<Event>)
    requires OnlyReceives(es)
    ensures Harmless(es)
  {
  }

  /** Neither the erase nor the reboot command. */
  predicate HarmlessCommand(c: seq<bv8>) {
    c != [CHIP_ERASE, EOC] && c != [REBOOT, EOC]
  }

  lemma SyncHarmless(replies: Reads)
    ensures Harmless(Sync(replies).es)
  {
    SyncExactly(replies);
    HarmlessReads(Sync(replies).es);
  }

  lemma CommandHarmless(c: seq<bv8>, replies: Reads)
    requires HarmlessCommand(c)
    ensures Harmless(Command(c, replies).es)
  {
    SyncHarmless(replies);
    HarmlessConcat([Sent(c)], Sync(replies).es);
  }

  lemma AnsweredReads(c: seq<bv8>, acceptable: bool, replies: Reads)
    ensures OnlyReceives(Answered(c, acceptable, replies).es)
  {
    SyncExactly(From(replies, 1));
  }

  lemma AskHarmless(q: Question, replies: Reads)
    requires HarmlessCommand(q.command)
    ensures Harmless(Ask(q, replies).es)
  {
    var a := Answered(Got(replies, 4), Acceptable(q, Got(replies, 4)), replies);
    AnsweredReads(Got(replies, 4), Acceptable(q, Got(replies, 4)), replies);
    HarmlessReads(a.es);
    HarmlessConcat([Sent(q.command)], a.es);
  }

  lemma {:induction false} AskAllHarmless(qs: seq<Question>, replies: Reads)
    requires forall k :: 0 <= k < |qs| ==> HarmlessCommand(qs[k].command)
    ensures Harmless(AskAll(qs, replies).es)
    decreases |qs|
  {
    if qs != [] {
      var a := Ask(qs[0], replies);
      AskHarmless(qs[0], replies);
      AskAllHarmless(qs[1..], a.rest);
      HarmlessConcat(a.es, AskAll(qs[1..], a.rest).es);
    }
  }

  lemma InformedHarmless(s: Session, replies: Reads)
    ensures Harmless(Informed(s, replies).es)
  {
    var otp := AskAll(OtpQuestions(), replies);
    AskAllHarmless(OtpQuestions(), replies);
    AskAllHarmless(SerialQuestions(), otp.rest);
    HarmlessConcat(otp.es, AskAll(SerialQuestions(), otp.rest).es);
  }

  lemma DescribedHarmless(replies: Reads)
    ensures Harmless(Described(replies).es)
  {
    AnsweredReads(Description(replies), Description(replies) != [], From(replies, 1));
  }

  lemma ChecksHarmless(s: Session, pkg: Package, force: bool, replies: Reads)
    ensures Harmless(Checks(s, pkg, force, replies).es)
  {
    InformedHarmless(s, replies);
    DescribedHarmless(Informed(s, replies).rest);
    HarmlessConcat(Informed(s, replies).es, Described(Informed(s, replies).rest).es);
  }

  /** Polling only reads; a successful poll ends in an acknowledgement. */
  lemma {:induction false} PollsRead(replies: Reads, tries: nat) returns (polls: seq<Event>)
    ensures OnlyReceives(Polls(replies, tries).es) && OnlyReceives(polls)
    ensures Polls(replies, tries).ok ==> Polls(replies, tries).es == polls + ACK
    decreases tries
  {
    polls := [];
    SyncExactly(replies);
    if tries > 0 && !SyncNext(replies) && !BadSilicon(replies) {
      var more := PollsRead(Sync(replies).rest, tries - 1);
      polls := Sync(replies).es + more;
      AppendTrace(Sync(replies).es, more, ACK);
    }
  }

  // ----- programming

  lemma BlockHarmless(block: seq<bv8>)
    requires Block(block)
    ensures Harmless(BlockEvents(block))
  {
  }

  lemma AckedReads(windowed: bool, i: nat, replies: Reads)
    ensures OnlyReceives(Acked(windowed, i, replies).es)
  {
    SyncExactly(replies);
  }

  lemma {:induction false} ProgrammingHarmless(windowed: bool, groups: seq<seq<bv8>>, i: nat, replies: Reads)
    requires i <= |groups| && Programmable(groups)
    ensures Harmless(Programming(windowed, groups, i, replies).es)
    decreases |groups| - i
  {
    if i < |groups| {
      var a := Sending(groups[i], Acked(windowed, i, replies));
      BlockHarmless(groups[i]);
      AckedReads(windowed, i, replies);
      HarmlessReceives(BlockEvents(groups[i]), Acked(windowed, i, replies).es);
      ProgrammingHarmless(windowed, groups, i + 1, a.rest);
      HarmlessConcat(a.es, Programming(windowed, groups, i + 1, a.rest).es);
    }
  }

  /** A window read whole leaves nothing due. */
  lemma ProgressWindow(groups: seq<seq<bv8>>, i: nat, n: nat, replies: Reads, sent: seq<Event>)
    requires n > 0 && Progress(groups, i, 2 * n, sent) && Window(n, replies).ok
    ensures Progress(groups, i, 0, sent + Window(n, replies).es)
  {
    WindowHeard(n, replies);
    ProgressDrained(groups, i, 2 * n, sent);
  }

  lemma WindowHeard(n: nat, replies: Reads)
    requires n > 0 && Window(n, replies).ok
    ensures Window(n, replies).es == [Received(Pairs(n))]
  {
  }

  /** One acknowledgement, if it is due. */
  lemma ProgressAcknowledged(windowed: bool, c: nat, last: bool, groups: seq<seq<bv8>>, i: nat, replies: Reads, sent: seq<Event>)
    requires Progress(groups, i, if windowed then 2 * (c + 1) else 2, sent) && AckedAt(windowed, c, last, replies).ok
    ensures Progress(groups, i, if !windowed || last then 0 else 2 * (c + 1), sent + AckedAt(windowed, c, last, replies).es)
  {
    if !windowed {
      SyncExactly(replies);
      ProgressAcked(groups, i, 2, sent);
    } else if last {
      ProgressWindow(groups, i, c + 1, replies, sent);
    } else {
      assert sent + [] == sent;
    }
  }

  /** One block and its acknowledgement keep the progress of the loop. */
  lemma ProgressNext(windowed: bool, groups: seq<seq<bv8>>, i: nat, replies: Reads, seen: seq<Event>)
    requires i < |groups| && Progress(groups, i, WindowAfter(windowed, i), seen)
    requires Acked(windowed, i, replies).ok
    ensures Progress(groups, i + 1, WindowAfter(windowed, i + 1),
                     seen + Sending(groups[i], Acked(windowed, i, replies)).es)
  {
    WindowNext(windowed, i);
    ProgressSent(groups, i, WindowAfter(windowed, i), seen);
    ProgressAcknowledged(windowed, i % 256, (i + 1) % 256 == 0, groups, i + 1, replies, seen + BlockEvents(groups[i]));
    AppendTrace(seen, BlockEvents(groups[i]), Acked(windowed, i, replies).es);
  }

  /** In both modes, success means one acknowledgement for every block sent. */
  lemma {:induction false} ProgrammingComplete(windowed: bool, groups: seq<seq<bv8>>, i: nat, replies: Reads, seen: seq<Event>)
    requires i <= |groups| && Progress(groups, i, WindowAfter(windowed, i), seen)
    requires Programming(windowed, groups, i, replies).ok
    ensures Programmed(groups, seen + Programming(windowed, groups, i, replies).es)
    decreases |groups| - i
  {
    var o := Programming(windowed, groups, i, replies);
    if i < |groups| {
      var a := Sending(groups[i], Acked(windowed, i, replies));
      ProgressNext(windowed, groups, i, replies, seen);
      ProgrammingComplete(windowed, groups, i + 1, a.rest, seen + a.es);
      AppendTrace(seen, a.es, Programming(windowed, groups, i + 1, a.rest).es);
    } else if windowed && i % 256 != 0 {
      ProgressWindow(groups, i, i % 256, replies, seen);
      ProgressDone(groups, seen + o.es);
    } else {
      assert seen + [] == seen;
      ProgressDone(groups, seen);
    }
  }

  lemma ImageComplete(windowed: bool, image: seq<bv8>, replies: Reads)
    requires |image| % 4 == 0
    ensures Harmless(ProgrammingImage(windowed, image, replies).es)
    ensures ProgrammingImage(windowed, image, replies).ok ==>
      && image != [] && Programmable(SplitLen(image, PROG_MULTI_MAX))
      && Programmed(SplitLen(image, PROG_MULTI_MAX), ProgrammingImage(windowed, image, replies).es)
  {
    BlocksAreWords(image);
    var groups := SplitLen(image, PROG_MULTI_MAX);
    var o := Programming(windowed, groups, 0, replies);
    ProgrammingHarmless(windowed, groups, 0, replies);
    if image != [] && o.ok {
      ProgressStart(groups);
      ProgrammingComplete(windowed, groups, 0, replies, []);
      assert [] + o.es == o.es;
    }
  }

  // ----- verification

  lemma ReadingOneEvents(block: seq<bv8>, replies: Reads)
    requires Block(block)
    ensures Harmless(ReadingOne(block, replies).es)
    ensures ReadingOne(block, replies).ok ==> ReadingOne(block, replies).es == BlockRead(block)
  {
    var c := Got(replies, |block|);
    AnsweredReads(c, c == block, replies);
    SyncExactly(From(replies, 1));
  }

  lemma {:induction false} ReadingBackEvents(groups: seq<seq<bv8>>, replies: Reads)
    requires Programmable(groups)
    ensures Harmless(ReadingBack(groups, replies).es)
    ensures ReadingBack(groups, replies).ok ==> ReadingBack(groups, replies).es == ReadBack(groups)
    decreases |groups|
  {
    if groups != [] {
      var a := ReadingOne(groups[0], replies);
      ReadingOneEvents(groups[0], replies);
      ReadingBackEvents(groups[1..], a.rest);
      HarmlessConcat(a.es, ReadingBack(groups[1..], a.rest).es);
    }
  }

  lemma ComparingEvents(groups: seq<seq<bv8>>, replies: Reads)
    requires Programmable(groups)
    ensures Harmless(Comparing(groups, replies).es)
    ensures Comparing(groups, replies).ok ==>
      Comparing(groups, replies).es == [Sent([CHIP_VERIFY, EOC])] + ACK + ReadBack(groups)
  {
    var c := Command([CHIP_VERIFY, EOC], replies);
    SyncExactly(replies);
    CommandHarmless([CHIP_VERIFY, EOC], replies);
    ReadingBackEvents(groups, c.rest);
    HarmlessConcat(c.es, ReadingBack(groups, c.rest).es);
  }

  lemma CrcEvents(w: Word32, replies: Reads)
    ensures Harmless(CrcChecked(w, replies).es)
    ensures CrcChecked(w, replies).ok ==>
      CrcChecked(w, replies).es == [Sent([GET_CRC, EOC]), Received(WordBytes(w))] + ACK
  {
    var c := Got(replies, 4);
    AnsweredReads(c, |c| == 4, replies);
    SyncExactly(From(replies, 1));
  }

  lemma VerifyingEvents(s: Session, image: seq<bv8>, replies: Reads)
    requires |image| % 4 == 0
    ensures Harmless(Verifying(s, image, replies).es)
    ensures Verifying(s, image, replies).ok ==> Verifying(s, image, replies).es == Verified(image, s.blRev, s.fwMaxsize)
  {
    BlocksAreWords(image);
    if s.blRev == 2 {
      ComparingEvents(SplitLen(image, PROG_MULTI_MAX), replies);
    } else {
      CrcEvents(FirmwareCrc(image, s.fwMaxsize), replies);
    }
  }

  // ----- the whole upload

  lemma FlashingEvents(s: Session, image: seq<bv8>, tries: nat, replies: Reads) returns (polls: seq<Event>, program: seq<Event>)
    requires |image| % 4 == 0
    ensures Harmless(Flashing(s, image, tries, replies).es)
    ensures Flashing(s, image, tries, replies).ok ==>
      && OnlyReceives(polls) && image != [] && Programmable(SplitLen(image, PROG_MULTI_MAX))
      && Programmed(SplitLen(image, PROG_MULTI_MAX), program)
      && Flashing(s, image, tries, replies).es == polls + ACK + program + Verified(image, s.blRev, s.fwMaxsize)
  {
    var e := Polls(replies, tries);
    polls := PollsRead(replies, tries);
    HarmlessReads(e.es);
    var p := ProgrammingImage(s.windowed, image, e.rest);
    program := p.es;
    ImageComplete(s.windowed, image, e.rest);
    var v := Verifying(s, image, p.rest);
    VerifyingEvents(s, image, p.rest);
    HarmlessConcat(p.es, v.es);
    HarmlessConcat(e.es, Filling(s, image, e.rest).es);
    AppendTrace(e.es, p.es, v.es);
  }

  lemma DelayingEvents(delay: BootDelay, replies: Reads)
    ensures Harmless(Delaying(delay, replies).es)
    ensures Delaying(delay, replies).ok ==> Sendable(delay) && Delaying(delay, replies).es == DelaySet(delay)
  {
    SyncExactly(replies);
    if delay.Delay? && Sendable(delay) {
      CommandHarmless([SET_BOOT_DELAY, DelayByte(delay.seconds), EOC], replies);
    }
  }

  /** How a trace from the erase command on goes on: `more`, and possibly the reboot command and reads. */
  datatype Ending = Ending(more: seq<Event>, rebooted: bool, tail: seq<Event>)

  function WholeTrace(info: seq<Event>, e: Ending): seq<Event> {
    if e.rebooted then info + [ERASE_SENT] + e.more + [REBOOT_SENT] + e.tail else info + [ERASE_SENT] + e.more
  }

  ghost predicate Plausible(s: Session, image: seq<bv8>, delay: BootDelay, e: Ending)
    requires |image| % 4 == 0
  {
    && Harmless(e.more) && OnlyReceives(e.tail)
    && (e.rebooted ==> exists polls, program :: Flashes(s, image, delay, e.more, polls, program))
  }

  ghost predicate Flashes(s: Session, image: seq<bv8>, delay: BootDelay, more: seq<Event>, polls: seq<Event>, program: seq<Event>)
    requires |image| % 4 == 0
  {
    BlocksAreWords(image);
    && OnlyReceives(polls) && image != [] && Programmed(SplitLen(image, PROG_MULTI_MAX), program) && Sendable(delay)
    && more == polls + ACK + program + Verified(image, s.blRev, s.fwMaxsize) + DelaySet(delay)
  }

  lemma ChangingEvents(s: Session, image: seq<bv8>, delay: BootDelay, tries: nat, replies: Reads) returns (e: Ending)
    requires |image| % 4 == 0
    ensures Changing(s, image, delay, tries, replies).es == WholeTrace([], e) && Plausible(s, image, delay, e)
    ensures Changing(s, image, delay, tries, replies).ok ==> e.rebooted && e.tail == if s.blRev >= 3 then ACK else []
  {
    BlocksAreWords(image);
    var f := Flashing(s, image, tries, replies);
    var polls, program := FlashingEvents(s, image, tries, replies);
    var d := Delaying(delay, f.rest);
    DelayingEvents(delay, f.rest);
    HarmlessConcat(f.es, d.es);
    SyncExactly(d.rest);
    if !f.ok {
      e := Ending(f.es, false, []);
    } else if !d.ok {
      e := Ending(f.es + d.es, false, []);
    } else {
      e := Ending(f.es + d.es, true, if s.blRev >= 3 then Sync(d.rest).es else []);
      assert Flashes(s, image, delay, e.more, polls, program);
      FinalPhases([ERASE_SENT], f.es, d.es, [REBOOT_SENT], e.tail);
    }
    assert [] + [ERASE_SENT] == [ERASE_SENT];
  }

  lemma FinalPhases(a: seq<Event>, b: seq<Event>, c: seq<Event>, d: seq<Event>, e: seq<Event>)
    ensures a + (b + (c + (d + e))) == a + (b + c) + d + e
  {
  }

  lemma WholeTraceSafe(s: Session, image: seq<bv8>, delay: BootDelay, info: seq<Event>, e: Ending)
    requires |image| % 4 == 0 && Harmless(info) && Plausible(s, image, delay, e)
    ensures EraseGuarded(true, WholeTrace(info, e))
    ensures RebootJustified(image, s.blRev, s.fwMaxsize, delay, WholeTrace(info, e))
  {
    if e.rebooted {
      var polls, program :| Flashes(s, image, delay, e.more, polls, program);
      assert Explains(Phases(info, polls, program), image, s.blRev, s.fwMaxsize, delay, info + [ERASE_SENT] + e.more);
      SafeRebooted(image, s.blRev, s.fwMaxsize, delay, info, e.more, e.tail);
    } else {
      EraseOnce(info, e.more);
      BeforeReboot(info, e.more);
    }
  }

  lemma HarmlessSafe(allowed: bool, image: seq<bv8>, rev: nat, flashSize: int, delay: BootDelay, es: seq<Event>)
    requires |image| % 4 == 0 && Harmless(es)
    ensures EraseGuarded(allowed, es) && RebootJustified(image, rev, flashSize, delay, es)
  {
  }

  lemma ChecksAllow(s: Session, pkg: Package, force: bool, replies: Reads)
    requires (s.boardType == pkg.boardId || force) && pkg.imageSize <= s.fwMaxsize && Checks(s, pkg, force, replies).ok
    ensures MayErase(s, pkg, force)
  {
  }

  lemma JoinWhole(info: seq<Event>, e: Ending)
    ensures info + WholeTrace([], e) == WholeTrace(info, e)
  {
    assert [] + [ERASE_SENT] == [ERASE_SENT];
    if e.rebooted {
      AppendTrace(info, [ERASE_SENT] + e.more + [REBOOT_SENT], e.tail);
      AppendTrace(info, [ERASE_SENT] + e.more, [REBOOT_SENT]);
    }
    AppendTrace(info, [ERASE_SENT], e.more);
  }

  lemma EndsRebooted(rev: nat, info: seq<Event>, e: Ending)
    requires e.rebooted && e.tail == if rev >= 3 then ACK else []
    ensures RebootedAtEnd(rev, WholeTrace(info, e))
  {
    var pre := info + [ERASE_SENT] + e.more;
    assert WholeTrace(info, e) == pre + [REBOOT_SENT] + (if rev >= 3 then ACK else []);
  }

  /**
   * For every device: the erase command is sent only if the checks allow it; the reboot command only behind an
   * acknowledged erase, all blocks with one acknowledgement each, a passed verification and an acknowledged boot
   * delay; and an upload that finishes has ended with it.
   */
  lemma UploadSafe(s: Session, pkg: Package, force: bool, delay: BootDelay, tries: nat, replies: Reads)
    requires |pkg.image| % 4 == 0
    ensures var o := Uploading(s, pkg, force, delay, tries, replies);
      && EraseGuarded(MayErase(s, pkg, force), o.es)
      && RebootJustified(pkg.image, s.blRev, s.fwMaxsize, delay, o.es)
      && (o.ok ==> RebootedAtEnd(s.blRev, o.es))
  {
    var o := Uploading(s, pkg, force, delay, tries, replies);
    var c := Checks(s, pkg, force, replies);
    ChecksHarmless(s, pkg, force, replies);
    if (s.boardType != pkg.boardId && !force) || s.fwMaxsize < pkg.imageSize || !c.ok {
      HarmlessSafe(MayErase(s, pkg, force), pkg.image, s.blRev, s.fwMaxsize, delay, o.es);
    } else {
      ChecksAllow(s, pkg, force, replies);
      var e := ChangingEvents(s, pkg.image, delay, tries, c.rest);
      JoinWhole(c.es, e);
      WholeTraceSafe(s, pkg.image, delay, c.es, e);
      if o.ok {
        EndsRebooted(s.blRev, c.es, e);
      }
    }
  }
}
