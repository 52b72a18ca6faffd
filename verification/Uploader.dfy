/** The host side of the bootloader protocol, against a device that may answer anything. */
module Uploader {
  import opened Bytes
  import opened Crc32
  import opened Firmware
  import opened UploadTrace
  import opened UploadSpec
  import opened UploadSafety
  import opened UploadAnswers

  datatype Poll = InSync | NotYet | BadSiliconRev

  class Uploader {
    var replies: Reads
    var trace: seq<Event>
    var window: nat
    var ackWindowedMode: bool
    var blRev: nat
    var boardType: nat
    var boardRev: nat
    var fwMaxsize: nat

    constructor (windowed: bool, answers: Reads)
      ensures window == 0 && trace == [] && replies == answers && ackWindowedMode == windowed
    {
      replies, trace, window, ackWindowedMode := answers, [], 0, windowed;
      blRev, boardType, boardRev, fwMaxsize := 0, 0, 0, 0;
    }

    ghost function Known(): Session
      reads this`ackWindowedMode, this`blRev, this`boardType, this`fwMaxsize
    {
      Session(ackWindowedMode, blRev, boardType, fwMaxsize)
    }

    /** What `o` describes has happened since the trace was `before`. */
    ghost predicate Did(o: Out, before: seq<Event>)
      reads this`trace, this`replies
    {
      trace == before + o.es && replies == o.rest
    }

    // ----- the line

    method Send(c: seq<bv8>)
      modifies this`trace
      ensures trace == old(trace) + [Sent(c)]
    {
      trace := trace + [Sent(c)];
    }

    /** Up to `count` bytes; a timeout, that is, no byte at all, raises. */
    method Recv(count: nat) returns (ok: bool, c: seq<bv8>)
      modifies this`trace, this`replies
      ensures c == Got(old(replies), count) && (ok <==> c != [])
      ensures trace == old(trace) + Heard(c) && replies == From(old(replies), 1)
    {
      if replies == [] {
        return false, [];
      }
      c := UpTo(replies[0], count);
      replies := replies[1..];
      ok := c != [];
      if ok {
        trace := trace + [Received(c)];
      }
    }

    /** Reads INSYNC and OK, or raises. */
    method GetSync() returns (ok: bool)
      modifies this`trace, this`replies
      ensures ok == Sync(old(replies)).ok && Did(Sync(old(replies)), old(trace))
    {
      var got, c := Recv(1);
      if !got || c != [INSYNC] {
        return false;
      }
      got, c := Recv(1);
      return got && c == [OK];
    }

    method SendCommand(c: seq<bv8>) returns (ok: bool)
      modifies this`trace, this`replies
      ensures ok == Command(c, old(replies)).ok && Did(Command(c, old(replies)), old(trace))
    {
      Send(c);
      ok := GetSync();
    }

    /** Reads `count` bytes of INSYNC/OK pairs in one go and checks every pair. */
    method AckSyncWindow(count: nat) returns (ok: bool)
      requires count % 2 == 0
      modifies this`trace, this`replies
      ensures count == 0 ==> ok && trace == old(trace) && replies == old(replies)
      ensures count > 0 ==> ok == Window(count / 2, old(replies)).ok && Did(Window(count / 2, old(replies)), old(trace))
    {
      if count == 0 {
        return true;
      }
      var got, data := Recv(count);
      if !got || |data| != count {
        return false;
      }
      ok := CheckPairs(data);
    }

    // ----- erase

    method TrySync() returns (r: Poll)
      modifies this`trace, this`replies
      ensures r == InSync <==> SyncNext(old(replies))
      ensures r == BadSiliconRev <==> BadSilicon(old(replies))
      ensures var rs := old(replies);
        && (r == InSync <==> |rs| >= 2 && UpTo(rs[0], 1) == [0x12] && UpTo(rs[1], 1) == [0x10])
        && (r == BadSiliconRev <==> |rs| >= 2 && UpTo(rs[0], 1) == [0x12] && UpTo(rs[1], 1) == [0x14])
      ensures Did(Sync(old(replies)), old(trace))
    {
      var got, c := Recv(1);
      if !got || c != [INSYNC] {
        return NotYet;
      }
      got, c := Recv(1);
      if !got {
        return NotYet;
      }
      if c == [BAD_SILICON_REV] {
        return BadSiliconRev;
      }
      return if c != [OK] then NotYet else InSync;
    }

    /** Sends the erase command and polls for its acknowledgement until the deadline, `tries` polls away. */
    method Erase(tries: nat) returns (ok: bool)
      modifies this`trace, this`replies
      ensures ok == Polls(old(replies), tries).ok
      ensures Did(Saying([CHIP_ERASE, EOC], Polls(old(replies), tries)), old(trace))
    {
      Send([CHIP_ERASE, EOC]);
      ghost var seen: seq<Event> := [];
      ghost var whole := Polls(replies, tries);
      LaterNothing(whole);
      for i := 0 to tries
        invariant trace == old(trace) + ([ERASE_SENT] + seen)
        invariant whole == Later(seen, Polls(replies, tries - i))
      {
        ghost var s := Sync(replies);
        PollsNext(replies, tries - i, seen);
        var r := TrySync();
        AppendTrace(old(trace), [ERASE_SENT] + seen, s.es);
        Assoc([ERASE_SENT], seen, s.es);
        if r == InSync {
          return true;
        }
        if r == BadSiliconRev {
          return false;
        }
        seen := seen + s.es;
      }
      return false;
    }

    // ----- program

    /** Sends one block; outside window mode its acknowledgement is read at once. */
    method ProgramMulti(block: seq<bv8>, windowMode: bool) returns (ok: bool)
      requires Block(block)
      modifies this`trace, this`replies
      ensures var o := if windowMode then Done(old(replies)) else Sync(old(replies));
        ok == o.ok && Did(Sending(block, o), old(trace))
    {
      Send([PROG_MULTI]);
      Send([|block| as bv8]);
      Send(block);
      Send([EOC]);
      assert trace == old(trace) + BlockEvents(block);
      if windowMode {
        return true;
      }
      ok := GetSync();
    }

    /** One turn of the programming loop. */
    method ProgramNext(groups: seq<seq<bv8>>, i: nat) returns (ok: bool)
      requires Programmable(groups) && i < |groups| && window == WindowAfter(ackWindowedMode, i)
      modifies this`trace, this`replies, this`window
      ensures var o := Sending(groups[i], Acked(ackWindowedMode, i, old(replies)));
        ok == o.ok && Did(o, old(trace))
      ensures ok ==> window == WindowAfter(ackWindowedMode, i + 1)
    {
      WindowNext(ackWindowedMode, i);
      ok := ProgramMulti(groups[i], ackWindowedMode);
      if !ok {
        return;
      }
      if ackWindowedMode {
        window := window + 2;
      }
      if (i + 1) % 256 == 0 {
        ok := DrainWindow(i);
      }
    }

    /** Reads the acknowledgements that are due behind block `i`. */
    method DrainWindow(ghost i: nat) returns (ok: bool)
      requires (i + 1) % 256 == 0 && window == if ackWindowedMode then 2 * (i % 256 + 1) else 0
      modifies this`trace, this`replies, this`window
      ensures var o := if ackWindowedMode then Window(i % 256 + 1, old(replies)) else Done(old(replies));
        ok == o.ok && Did(o, old(trace))
      ensures ok ==> window == 0
    {
      ok := AckSyncWindow(window);
      if ok {
        window := 0;
      }
    }

    /** `seen` has passed since `start`, and what is left of the loop makes up `whole`. */
    ghost predicate Programs(whole: Out, groups: seq<seq<bv8>>, i: nat, seen: seq<Event>, start: seq<Event>)
      requires i <= |groups| && Programmable(groups)
      reads this`trace, this`replies, this`ackWindowedMode
    {
      trace == start + seen && whole == Later(seen, Programming(ackWindowedMode, groups, i, replies))
    }

    /** One turn of the loop, and what it means for the whole. */
    method ProgramStep(groups: seq<seq<bv8>>, i: nat, ghost whole: Out, ghost seen: seq<Event>, ghost start: seq<Event>)
      returns (ok: bool, ghost seen': seq<Event>)
      requires Programmable(groups) && i < |groups| && window == WindowAfter(ackWindowedMode, i)
      requires Programs(whole, groups, i, seen, start)
      modifies this`trace, this`replies, this`window
      ensures ok ==> Programs(whole, groups, i + 1, seen', start) && window == WindowAfter(ackWindowedMode, i + 1)
      ensures !ok ==> !whole.ok && Did(whole, start)
    {
      ghost var o := Sending(groups[i], Acked(ackWindowedMode, i, replies));
      ProgrammingNext(ackWindowedMode, groups, i, replies, seen);
      AppendTrace(start, seen, o.es);
      seen' := seen + o.es;
      ok := ProgramNext(groups, i);
    }

    /** The loop over all blocks, and the acknowledgements that are left at its end. */
    method ProgramGroups(groups: seq<seq<bv8>>) returns (ok: bool)
      requires Programmable(groups) && window == 0
      modifies this`trace, this`replies, this`window
      ensures var o := Programming(ackWindowedMode, groups, 0, old(replies)); ok == o.ok && Did(o, old(trace))
      ensures ok ==> window == 0
    {
      ghost var seen: seq<Event> := [];
      ghost var whole := Programming(ackWindowedMode, groups, 0, replies);
      LaterNothing(whole);
      var i := 0;
      while i < |groups|
        invariant i <= |groups| && window == WindowAfter(ackWindowedMode, i)
        invariant Programs(whole, groups, i, seen, old(trace))
      {
        ok, seen := ProgramStep(groups, i, whole, seen, old(trace));
        if !ok {
          return;
        }
        i := i + 1;
      }
      ok := DrainRest(groups, seen, old(trace));
    }

    /** Reads the acknowledgements that are due behind the last block. */
    method DrainRest(ghost groups: seq<seq<bv8>>, ghost seen: seq<Event>, ghost start: seq<Event>) returns (ok: bool)
      requires Programmable(groups) && window == WindowAfter(ackWindowedMode, |groups|) && trace == start + seen
      modifies this`trace, this`replies, this`window
      ensures var o := Later(seen, Programming(ackWindowedMode, groups, |groups|, old(replies)));
        ok == o.ok && Did(o, start)
      ensures ok ==> window == 0
    {
      ghost var o := Programming(ackWindowedMode, groups, |groups|, replies);
      AppendTrace(start, seen, o.es);
      ok := AckSyncWindow(window);
      if ok {
        window := 0;
      }
    }

    /** Programs the image block by block. */
    method Program(image: seq<bv8>) returns (ok: bool)
      requires |image| % 4 == 0 && window == 0
      modifies this`trace, this`replies, this`window
      ensures var o := ProgrammingImage(ackWindowedMode, image, old(replies)); ok == o.ok && Did(o, old(trace))
      ensures ok ==> window == 0
    {
      BlocksAreWords(image);
      var groups := SplitLen(image, PROG_MULTI_MAX);
      if |groups| == 0 {
        return false; // the progress bar divides by the number of blocks
      }
      ok := ProgramGroups(groups);
    }

    // ----- verify

    method VerifyMulti(block: seq<bv8>) returns (ok: bool)
      requires Block(block)
      modifies this`trace, this`replies
      ensures ok == ReadingOne(block, old(replies)).ok && Did(ReadingOne(block, old(replies)), old(trace))
    {
      Send([READ_MULTI]);
      Send([|block| as bv8]);
      Send([EOC]);
      assert trace == old(trace) + [Sent([READ_MULTI]), Sent([LengthByte(|block|)]), Sent([EOC])];
      var got, programmed := Recv(|block|);
      if !got || programmed != block {
        return false;
      }
      ok := GetSync();
    }

    /** One turn of the loop below, `seen` having passed since `before`. */
    method ReadBackNext(groups: seq<seq<bv8>>, i: nat, ghost whole: Out, ghost before: seq<Event>, ghost seen: seq<Event>)
      returns (ok: bool, ghost seen': seq<Event>)
      requires i < |groups| && Programmable(groups)
      requires trace == before + seen && whole == Later(seen, ReadingBack(groups[i..], replies))
      modifies this`trace, this`replies
      ensures trace == before + seen'
      ensures ok ==> whole == Later(seen', ReadingBack(groups[i + 1..], replies))
      ensures !ok ==> whole == Out(false, seen', replies)
    {
      ghost var o := ReadingOne(groups[i], replies);
      ReadingAt(groups, i, replies, seen);
      AppendTrace(before, seen, o.es);
      ok := VerifyMulti(groups[i]);
      seen' := seen + o.es;
    }

    /** The loop over all blocks. */
    method ReadBackGroups(groups: seq<seq<bv8>>) returns (ok: bool)
      requires Programmable(groups)
      modifies this`trace, this`replies
      ensures ok == ReadingBack(groups, old(replies)).ok && Did(ReadingBack(groups, old(replies)), old(trace))
    {
      ghost var seen: seq<Event> := [];
      ghost var whole := ReadingBack(groups, replies);
      LaterNothing(whole);
      assert groups[0..] == groups;
      for i := 0 to |groups|
        invariant trace == old(trace) + seen
        invariant whole == Later(seen, ReadingBack(groups[i..], replies))
      {
        ok, seen := ReadBackNext(groups, i, whole, old(trace), seen);
        if !ok {
          return;
        }
      }
      assert groups[|groups|..] == [];
      assert whole == Out(true, seen, replies);
      ok := true;
    }

    /** Reads every block back and compares it. */
    method VerifyV2(image: seq<bv8>) returns (ok: bool)
      requires |image| % 4 == 0 && blRev == 2
      modifies this`trace, this`replies
      ensures ok == Verifying(Known(), image, old(replies)).ok && Did(Verifying(Known(), image, old(replies)), old(trace))
    {
      BlocksAreWords(image);
      var groups := SplitLen(image, PROG_MULTI_MAX);
      ghost var c := Command([CHIP_VERIFY, EOC], replies);
      AppendTrace(trace, c.es, ReadingBack(groups, c.rest).es);
      ok := SendCommand([CHIP_VERIFY, EOC]);
      if ok {
        ok := ReadBackGroups(groups);
      }
    }

    /** Reads the reported CRC and its acknowledgement, and only then compares. */
    method CompareCrc(w: Word32) returns (ok: bool)
      modifies this`trace, this`replies
      ensures ok == CrcChecked(w, old(replies)).ok && Did(CrcChecked(w, old(replies)), old(trace))
    {
      Send([GET_CRC, EOC]);
      var got, raw := Recv(4);
      if |raw| != 4 {
        return false;
      }
      ok := GetSync();
      if raw != WordBytes(w) {
        ok := false;
      }
    }

    /** Compares the CRC that the device reports for its flash with the one of the padded image. */
    method VerifyV3(image: seq<bv8>) returns (ok: bool)
      requires |image| % 4 == 0 && blRev != 2
      modifies this`trace, this`replies
      ensures ok == Verifying(Known(), image, old(replies)).ok && Did(Verifying(Known(), image, old(replies)), old(trace))
    {
      var w := ComputeCrc(image, fwMaxsize);
      ok := CompareCrc(w);
    }

    // ----- questions

    method GetAnswer(q: Question) returns (ok: bool, value: seq<bv8>)
      modifies this`trace, this`replies
      ensures ok == Ask(q, old(replies)).ok && Did(Ask(q, old(replies)), old(trace)) && value == Got(old(replies), 4)
    {
      Send(q.command);
      var got: bool;
      got, value := Recv(4);
      if !got || (q.unpacked && |value| != 4) {
        return false, value;
      }
      ok := GetSync();
    }

    /** Asks question after question, up to the first that fails. */
    method GetAnswers(qs: seq<Question>) returns (ok: bool)
      modifies this`trace, this`replies
      ensures ok == AskAll(qs, old(replies)).ok && Did(AskAll(qs, old(replies)), old(trace))
    {
      ghost var seen: seq<Event> := [];
      for i := 0 to |qs|
        invariant trace == old(trace) + seen
        invariant AskAll(qs, old(replies)) == Later(seen, AskAll(qs[i..], replies))
      {
        ghost var o := Ask(qs[i], replies);
        AskNext(qs[i..], replies, seen);
        assert qs[i..][1..] == qs[i + 1..];
        AppendTrace(old(trace), seen, o.es);
        var value;
        ok, value := GetAnswer(qs[i]);
        if !ok {
          return;
        }
        seen := seen + o.es;
      }
      assert qs[|qs|..] == [];
      ok := true;
    }

    method GetInfo(param: bv8) returns (ok: bool, value: nat)
      modifies this`trace, this`replies
      ensures ok == Ask(InfoQuestion(param), old(replies)).ok && Did(Ask(InfoQuestion(param), old(replies)), old(trace))
      ensures value == LittleEndian4(Got(old(replies), 4))
    {
      var raw;
      ok, raw := GetAnswer(InfoQuestion(param));
      value := LittleEndian4(raw);
    }

    method ReadSize() returns (ok: bool)
      modifies this`trace, this`replies, this`fwMaxsize
      ensures var o := AskAll([InfoQuestion(4)], old(replies)); ok == o.ok && Did(o, old(trace))
      ensures fwMaxsize == LittleEndian4(Got(old(replies), 4)) && (ok ==> |old(replies)| >= 3)
    {
      AskOne(InfoQuestion(4), [], replies);
      AskRest(InfoQuestion(4), replies);
      ok, fwMaxsize := GetInfo(4);
    }

    method ReadRevision() returns (ok: bool)
      modifies this`trace, this`replies, this`boardRev, this`fwMaxsize
      ensures var o := AskAll([InfoQuestion(3), InfoQuestion(4)], old(replies)); ok == o.ok && Did(o, old(trace))
      ensures ok ==> |old(replies)| >= 6 && boardRev == LittleEndian4(Got(old(replies), 4))
      ensures ok ==> fwMaxsize == LittleEndian4(Got(old(replies)[3..], 4))
    {
      var q := InfoQuestion(3);
      AskOne(q, [InfoQuestion(4)], replies);
      AskRest(q, replies);
      ok, boardRev := GetInfo(3);
      if ok {
        ok := ReadSize();
        AppendTrace(old(trace), Ask(q, old(replies)).es, AskAll([InfoQuestion(4)], Ask(q, old(replies)).rest).es);
      }
    }

    method ReadType() returns (ok: bool)
      modifies this`trace, this`replies, this`boardType, this`boardRev, this`fwMaxsize
      ensures var o := AskAll([InfoQuestion(2), InfoQuestion(3), InfoQuestion(4)], old(replies));
        ok == o.ok && Did(o, old(trace))
      ensures ok ==> |old(replies)| >= 9 && boardType == LittleEndian4(Got(old(replies), 4))
      ensures ok ==> boardRev == LittleEndian4(Got(old(replies)[3..], 4)) && fwMaxsize == LittleEndian4(Got(old(replies)[6..], 4))
    {
      var q, qs := InfoQuestion(2), [InfoQuestion(3), InfoQuestion(4)];
      AskOne(q, qs, replies);
      AskRest(q, replies);
      ok, boardType := GetInfo(2);
      if ok {
        ok := ReadRevision();
        AppendTrace(old(trace), Ask(q, old(replies)).es, AskAll(qs, Ask(q, old(replies)).rest).es);
      }
    }

    /** Asks for the protocol revision, and for the rest if it is one that is served. */
    method ReadBoard() returns (ok: bool)
      modifies this`trace, this`replies, this`blRev, this`boardType, this`boardRev, this`fwMaxsize
      ensures ok == Introduced(old(replies)).ok && Did(Introduced(old(replies)), old(trace))
      ensures ok ==> 2 <= blRev <= 5 && Reported(old(replies), blRev, boardType, boardRev, fwMaxsize)
    {
      var q := InfoQuestion(1);
      ghost var a := Ask(q, replies);
      AskRest(q, replies);
      AppendTrace(trace, a.es, AskAll([InfoQuestion(2), InfoQuestion(3), InfoQuestion(4)], a.rest).es);
      ok, blRev := GetInfo(1);
      if !ok || blRev < 2 || blRev > 5 {
        return false;
      }
      ok := ReadType();
    }

    /** Asks the board for its protocol revision, type, revision and flash size; only revisions 2 to 5 are served. */
    method Identify() returns (ok: bool)
      modifies this`trace, this`replies, this`blRev, this`boardType, this`boardRev, this`fwMaxsize
      ensures ok == Identified(old(replies)).ok && Did(Identified(old(replies)), old(trace))
      ensures ok ==> 2 <= blRev <= 5 && |old(replies)| >= 2
      ensures ok ==> Reported(old(replies)[2..], blRev, boardType, boardRev, fwMaxsize)
    {
      ghost var s := Command([GET_SYNC, EOC], replies);
      SyncExactly(replies);
      AppendTrace(trace, s.es, Introduced(s.rest).es);
      ok := SendCommand([GET_SYNC, EOC]);
      if ok {
        ok := ReadBoard();
      }
    }

    // ----- upload

    method GetChipDes() returns (ok: bool, des: seq<bv8>)
      modifies this`trace, this`replies
      ensures ok == Described(old(replies)).ok && Did(Described(old(replies)), old(trace))
      ensures ok ==> des == Description(old(replies))
    {
      Send([GET_CHIP_DES, EOC]);
      var got, raw := Recv(4);
      if |raw| != 4 {
        return false, [];
      }
      DescribedParts(old(replies));
      got, des := Recv(LittleEndian(raw));
      ghost var front := [Sent([GET_CHIP_DES, EOC])] + (Heard(raw) + Heard(des));
      assert trace == old(trace) + front && des == Description(old(replies));
      if !got {
        return false, des;
      }
      AppendTrace(old(trace), front, Sync(replies).es);
      ok := GetSync();
    }

    /** From revision 4 on: memory words, serial number and chip; only the first can stop the upload. */
    method ReadInformation() returns (ok: bool)
      modifies this`trace, this`replies
      ensures ok == Informed(Known(), old(replies)).ok && Did(Informed(Known(), old(replies)), old(trace))
    {
      ghost var otp := AskAll(OtpQuestions(), replies);
      AppendTrace(trace, otp.es, AskAll(SerialQuestions(), otp.rest).es);
      if blRev < 4 {
        return true;
      }
      ok := GetAnswers(OtpQuestions());
      if ok {
        var _ := GetAnswers(SerialQuestions());
      }
    }

    /** From revision 5 on: a board with more flash than the package is made for is refused. */
    method CheckDescription(pkg: Package, force: bool) returns (ok: bool)
      modifies this`trace, this`replies
      ensures Did(Described(old(replies)), old(trace))
      ensures ok <==> Described(old(replies)).ok && DescriptionAccepted(Known(), pkg, force, Description(old(replies)))
    {
      var des;
      ok, des := GetChipDes();
      if ok && TwoPieces(des) && fwMaxsize > pkg.imageMaxsize && !force {
        ok := false;
      }
    }

    /** The checks that ask the board, for a package that is suitable and fits. */
    method Guards(pkg: Package, force: bool) returns (ok: bool)
      requires (boardType == pkg.boardId || force) && pkg.imageSize <= fwMaxsize
      modifies this`trace, this`replies
      ensures ok == Checks(Known(), pkg, force, old(replies)).ok && Did(Checks(Known(), pkg, force, old(replies)), old(trace))
      ensures ok <==> Suitable(Known(), pkg, force) && ChecksAnswered(Known(), pkg, force, old(replies))
    {
      ChecksExactly(Known(), pkg, force, replies);
      ghost var info := Informed(Known(), replies);
      AppendTrace(trace, info.es, Described(info.rest).es);
      ok := ReadInformation();
      if !ok {
        return;
      }
      if blRev >= 5 {
        ok := CheckDescription(pkg, force);
      } else {
        ok := !(pkg.boardId == 9 && pkg.imageSize > 1032192 && !force);
      }
    }

    method Verify(image: seq<bv8>) returns (ok: bool)
      requires |image| % 4 == 0
      modifies this`trace, this`replies
      ensures ok == Verifying(Known(), image, old(replies)).ok && Did(Verifying(Known(), image, old(replies)), old(trace))
    {
      if blRev == 2 {
        ok := VerifyV2(image);
      } else {
        ok := VerifyV3(image);
      }
    }

    method ProgramAndVerify(image: seq<bv8>) returns (ok: bool)
      requires |image| % 4 == 0 && window == 0
      modifies this`trace, this`replies, this`window
      ensures ok == Filling(Known(), image, old(replies)).ok && Did(Filling(Known(), image, old(replies)), old(trace))
      ensures ok ==> window == 0
    {
      ghost var p := ProgrammingImage(ackWindowedMode, image, replies);
      AppendTrace(trace, p.es, Verifying(Known(), image, p.rest).es);
      ok := Program(image);
      if ok {
        ok := Verify(image);
      }
    }

    /** Erase, program, verify. */
    method Flash(image: seq<bv8>, eraseTries: nat) returns (ok: bool)
      requires |image| % 4 == 0 && window == 0
      modifies this`trace, this`replies, this`window
      ensures var o := Flashing(Known(), image, eraseTries, old(replies));
        ok == o.ok && Did(Saying([CHIP_ERASE, EOC], o), old(trace))
      ensures ok ==> window == 0
    {
      ghost var e := Polls(replies, eraseTries);
      TwoPhases(trace, [ERASE_SENT], e.es, Filling(Known(), image, e.rest).es);
      ok := Erase(eraseTries);
      if ok {
        ok := ProgramAndVerify(image);
      }
    }

    method SetBootDelay(delay: BootDelay) returns (ok: bool)
      modifies this`trace, this`replies
      ensures ok == Delaying(delay, old(replies)).ok && Did(Delaying(delay, old(replies)), old(trace))
    {
      if delay.NoDelay? {
        return true;
      }
      if !(-128 <= delay.seconds < 128) {
        return false;
      }
      ok := SendCommand([SET_BOOT_DELAY, (delay.seconds % 256) as bv8, EOC]);
    }

    method Reboot() returns (ok: bool)
      modifies this`trace, this`replies
      ensures ok == Rebooting(Known(), old(replies)).ok && Did(Rebooting(Known(), old(replies)), old(trace))
    {
      Send([REBOOT, EOC]);
      ok := true;
      if blRev >= 3 {
        ok := GetSync();
      }
    }

    /** Sets the boot delay, if one is given, and reboots. */
    method Finish(delay: BootDelay) returns (ok: bool)
      modifies this`trace, this`replies
      ensures ok == Finishing(Known(), delay, old(replies)).ok && Did(Finishing(Known(), delay, old(replies)), old(trace))
    {
      ghost var d := Delaying(delay, replies);
      AppendTrace(trace, d.es, Rebooting(Known(), d.rest).es);
      ok := SetBootDelay(delay);
      if ok {
        ok := Reboot();
      }
    }

    method FlashAndFinish(image: seq<bv8>, delay: BootDelay, eraseTries: nat) returns (ok: bool)
      requires |image| % 4 == 0 && window == 0
      modifies this`trace, this`replies, this`window
      ensures var o := Changing(Known(), image, delay, eraseTries, old(replies));
        ok == o.ok && Did(o, old(trace))
      ensures ok ==> window == 0
    {
      ghost var f := Flashing(Known(), image, eraseTries, replies);
      TwoPhases(trace, [ERASE_SENT], f.es, Finishing(Known(), delay, f.rest).es);
      ok := Flash(image, eraseTries);
      if ok {
        ok := Finish(delay);
      }
    }

    /**
     * Flashes the package. Whatever the device answers, the erase command is sent only if the checks allow it, and
     * the reboot command only behind a complete and verified programming.
     */
    method Upload(pkg: Package, force: bool, delay: BootDelay, eraseTries: nat)
      returns (r: Outcome, ghost es: seq<Event>)
      requires |pkg.image| % 4 == 0 && window == 0
      modifies this`trace, this`replies, this`window
      ensures var o := Uploading(Known(), pkg, force, delay, eraseTries, old(replies));
        r == Result(Known(), pkg, force, o.ok) && Did(o, old(trace)) && es == o.es
      ensures EraseGuarded(MayErase(Known(), pkg, force), es)
      ensures RebootJustified(pkg.image, blRev, fwMaxsize, delay, es)
      ensures r == Finished ==> window == 0 && RebootedAtEnd(blRev, es)
      ensures r == NotSuitable <==> boardType != pkg.boardId && !force
      ensures r == Finished <==> Uploading(Known(), pkg, force, delay, eraseTries, old(replies)).ok
      ensures ERASE_SENT in es <==> Suitable(Known(), pkg, force) && ChecksAnswered(Known(), pkg, force, old(replies))
    {
      ErasedExactly(Known(), pkg, force, delay, eraseTries, replies);
      UploadSafe(Known(), pkg, force, delay, eraseTries, replies);
      es := Uploading(Known(), pkg, force, delay, eraseTries, replies).es;
      r := CheckAndFlash(pkg, force, delay, eraseTries);
    }

    method CheckAndFlash(pkg: Package, force: bool, delay: BootDelay, eraseTries: nat) returns (r: Outcome)
      requires |pkg.image| % 4 == 0 && window == 0
      modifies this`trace, this`replies, this`window
      ensures var o := Uploading(Known(), pkg, force, delay, eraseTries, old(replies));
        r == Result(Known(), pkg, force, o.ok) && Did(o, old(trace))
      ensures r == Finished ==> window == 0
    {
      ghost var c := Checks(Known(), pkg, force, replies);
      AppendTrace(trace, c.es, Changing(Known(), pkg.image, delay, eraseTries, c.rest).es);
      if boardType != pkg.boardId && !force {
        return NotSuitable;
      }
      if fwMaxsize < pkg.imageSize {
        return Raised;
      }
      var ok := Guards(pkg, force);
      if ok {
        ok := FlashAndFinish(pkg.image, delay, eraseTries);
      }
      r := if ok then Finished else Raised;
    }
  }

  /** Whether the bytes are INSYNC/OK pairs throughout. */
  method CheckPairs(data: seq<bv8>) returns (ok: bool)
    requires |data| % 2 == 0
    ensures ok <==> data == Pairs(|data| / 2)
  {
    var i := 0;
    while i < |data|
      invariant 0 <= i <= |data| && i % 2 == 0 && data[..i] == Pairs(i / 2)
    {
      if data[i] != INSYNC || data[i + 1] != OK {
        PairAt(|data| / 2, i / 2);
        return false;
      }
      assert data[..i + 2] == data[..i] + [data[i], data[i + 1]];
      i := i + 2;
    }
    assert data[..i] == data;
    return true;
  }

  lemma TwoPhases(before: seq<Event>, a: seq<Event>, b: seq<Event>, c: seq<Event>)
    ensures before + (a + b) + c == before + (a + (b + c))
  {
    AppendTrace(before, a + b, c);
    AppendTrace(a, b, c);
  }

  lemma AskOne(q: Question, qs: seq<Question>, replies: Reads)
    ensures AskAll([q] + qs, replies) ==
      if Ask(q, replies).ok then Then(Ask(q, replies), AskAll(qs, Ask(q, replies).rest)) else Ask(q, replies)
  {
    assert ([q] + qs)[1..] == qs;
  }

  /** An answered question takes three reads. */
  lemma AskRest(q: Question, replies: Reads)
    ensures Ask(q, replies).ok ==> |replies| >= 3 && Ask(q, replies).rest == replies[3..]
  {
    SyncExactly(From(replies, 1));
  }

  /** The fields hold what the reads behind the first acknowledgement delivered. */
  predicate Reported(replies: Reads, blRev: nat, boardType: nat, boardRev: nat, fwMaxsize: nat) {
    && |replies| >= 12
    && blRev == LittleEndian4(UpTo(replies[0], 4))
    && boardType == LittleEndian4(UpTo(replies[3], 4))
    && boardRev == LittleEndian4(UpTo(replies[6], 4))
    && fwMaxsize == LittleEndian4(UpTo(replies[9], 4))
  }
}
