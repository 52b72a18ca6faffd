/** What no sequence of bytes does to the board: erase or start an image without the commands that entitle to it. */
module BoardSafety {
  import opened Bytes
  import opened Crc32
  import opened Firmware
  import opened UploadTrace
  import opened Bootloader
  import opened BoardLine

  /** After reset nothing is known or programmed, and the address is at the end, so that nothing can be written. */
  predicate PoweredOn(b: Board) {
    b.address == |b.flash| && b.firstWord == BLANK && !b.synced && !b.identified && !b.programmed && !b.summed
  }

  // ----- what each command can change

  /** What an answered command makes of the board; every command that is not named leaves it as it is. */
  predicate Effect(b: Board, c: seq<bv8>, b': Board) {
    || (c == [GET_SYNC, EOC] && b' == b.(synced := true))
    || (c == [CHIP_ERASE, EOC] && b' == Erase(b).1)
    || (c == [GET_CRC, EOC] && b' == GetCrc(b).1)
    || (c == [REBOOT, EOC] && b' == Boot(b).1)
    || (|c| == 3 && c[0] == GET_DEVICE && b' == b.(identified := true))
    || (|c| > 3 && c[0] == PROG_MULTI && b' == ProgMulti(b, c[2..|c| - 1]).1)
    || b' == b
  }

  lemma PerformEffect(b: Board, c: seq<bv8>)
    requires |c| >= 2 && |b.flash| < 0x1_0000_0000 && Perform(b, c).Answer?
    ensures Effect(b, c, Perform(b, c).board)
  {
  }

  /** Only these commands set the flags. */
  lemma FlagsSet(b: Board, c: seq<bv8>, b': Board)
    requires Effect(b, c, b')
    ensures b'.synced && !b.synced ==> c == [GET_SYNC, EOC]
    ensures b'.identified && !b.identified ==> |c| == 3 && c[0] == GET_DEVICE
    ensures b'.programmed && !b.programmed ==> |c| > 3 && c[0] == PROG_MULTI
    ensures b'.summed && !b.summed ==> c == [GET_CRC, EOC]
  {
  }

  /** Only these commands change the flash: an erase, if allowed; a block that fits; and a reboot, if allowed. */
  lemma FlashChanged(b: Board, c: seq<bv8>, b': Board)
    requires Effect(b, c, b') && b'.flash != b.flash
    ensures |b'.flash| == |b.flash|
    ensures
      || (c == [CHIP_ERASE, EOC] && b.synced && b.identified && b'.flash == Erased(|b.flash|))
      || (|c| > 3 && c[0] == PROG_MULTI && b.address + |c| - 3 <= |b.flash|)
      || (c == [REBOOT, EOC] && b.firstWord != BLANK && b.synced && b.identified && b.programmed && b.summed)
  {
  }

  /** Everything the board had learnt about its host is forgotten, and nothing else. */
  predicate Forgets(b: Board, b': Board) {
    && b'.flash == b.flash && b'.address == b.address && b'.firstWord == b.firstWord
    && !b'.synced && !b'.identified && !b'.programmed && !b'.summed
  }

  /** Whatever is refused makes the host start over. */
  lemma RefusedForgets(b: Board, block: seq<bv8>)
    requires block != []
    ensures Erase(b).0 == Invalid ==> Forgets(b, Erase(b).1)
    ensures ProgMulti(b, block).0 == Invalid ==> Forgets(b, ProgMulti(b, block).1)
    ensures Boot(b).0 == Invalid ==> Forgets(b, Boot(b).1)
  {
  }

  // ----- on the line

  /** GET_SYNC, answered by INSYNC and OK. */
  lemma SyncOnTheLine(b: Board)
    requires |b.flash| < 0x1_0000_0000
    ensures Feed(Device(b, [], []), [0x21, 0x20]) == Device(b.(synced := true), [], [0x12, 0x10])
  {
    TwoBytes(b, 0x21);
  }

  /** CHIP_ERASE, answered by INSYNC and OK, or INSYNC and INVALID from a host that is not known. */
  lemma EraseOnTheLine(b: Board)
    requires |b.flash| < 0x1_0000_0000
    ensures var d := Feed(Device(b, [], []), [0x23, 0x20]);
      && d.Device? && d.input == []
      && (b.synced && b.identified ==>
            d.board == b.(flash := Erased(|b.flash|), address := 0) && d.output == [0x12, 0x10])
      && (!(b.synced && b.identified) ==> Forgets(b, d.board) && d.output == [0x12, 0x13])
  {
    TwoBytes(b, 0x23);
  }

  /** GET_CRC, answered by four bytes, INSYNC and OK. */
  lemma CrcOnTheLine(b: Board)
    requires |b.flash| < 0x1_0000_0000
    ensures var d := Feed(Device(b, [], []), [0x29, 0x20]);
      d.Device? && d.board == b.(summed := true) && d.output == WordBytes(GetCrc(b).0) + [0x12, 0x10]
  {
    TwoBytes(b, 0x29);
  }

  lemma TwoBytes(b: Board, x: bv8)
    requires |b.flash| < 0x1_0000_0000 && (x == 0x21 || x == 0x23 || x == 0x29)
    ensures Perform(b, [x, EOC]).Answer?
    ensures var a := Perform(b, [x, EOC]); Feed(Device(b, [], []), [x, EOC]) == Device(a.board, [], [] + a.bytes)
  {
    var c := [x, EOC];
    assert c[..0] == [] && c[..1] == [x];
    FeedCommand(b, [], c);
  }

  // ----- the first time something holds

  lemma FeedSnoc(d: Device, bytes: seq<bv8>, k: nat)
    requires k < |bytes|
    ensures Feed(d, bytes[..k + 1]) == FeedByte(Feed(d, bytes[..k]), bytes[k])
  {
    var one := [bytes[k]];
    assert bytes[..k + 1] == bytes[..k] + one && one[1..] == [];
    FeedConcat(d, bytes[..k], one);
    var x := Feed(d, bytes[..k]);
    assert Feed(x, one) == Feed(FeedByte(x, one[0]), []);
  }

  /** The byte `k` completes the command `c` for the board `b`. */
  ghost predicate Executes(d: Device, bytes: seq<bv8>, k: nat, b: Board, c: seq<bv8>) {
    && k < |bytes| && Feed(d, bytes[..k]).Device?
    && Feed(d, bytes[..k]).board == b && Feed(d, bytes[..k]).input + [bytes[k]] == c
    && |c| >= 2 && |b.flash| < 0x1_0000_0000 && Perform(b, c).Answer?
    && Feed(d, bytes[..k + 1]).Device? && Feed(d, bytes[..k + 1]).board == Perform(b, c).board
  }

  /** If something comes to hold of the board, some command made it hold. */
  lemma {:induction false} Turning(d: Device, bytes: seq<bv8>, q: Board -> bool) returns (k: nat, b: Board, c: seq<bv8>)
    requires d.Device? && !q(d.board) && Feed(d, bytes).Device? && q(Feed(d, bytes).board)
    ensures Executes(d, bytes, k, b, c) && !q(b) && q(Perform(b, c).board)
    decreases |bytes|
  {
    if bytes == [] {
      assert false;
    } else {
      var n := |bytes| - 1;
      var x := Feed(d, bytes[..n]);
      assert bytes[..n + 1] == bytes;
      FeedSnoc(d, bytes, n);
      if q(x.board) {
        k, b, c := Turning(d, bytes[..n], q);
        assert bytes[..n][..k] == bytes[..k] && bytes[..n][..k + 1] == bytes[..k + 1];
      } else {
        k, b, c := n, x.board, x.input + [bytes[n]];
      }
    }
  }

  // ----- nothing is written before an allowed erase

  predicate Untouched(b: Board, flash: seq<bv8>) {
    b.flash == flash && b.address == |flash| && b.firstWord == BLANK
  }

  lemma UntouchedStep(b: Board, c: seq<bv8>, b': Board, flash: seq<bv8>)
    requires Effect(b, c, b') && Untouched(b, flash) && !Untouched(b', flash)
    ensures c == [CHIP_ERASE, EOC] && b.synced && b.identified
  {
  }

  /**
   * Whatever bytes a board receives after reset: if its flash has changed, it was sent an erase command when it was in
   * sync with its host and had been identified.
   */
  lemma NothingBeforeErase(b: Board, bytes: seq<bv8>)
    requires PoweredOn(b) && Feed(Device(b, [], []), bytes).Device?
    requires Feed(Device(b, [], []), bytes).board.flash != b.flash
    ensures exists k: nat, b' :: Executes(Device(b, [], []), bytes, k, b', [CHIP_ERASE, EOC]) && b'.synced && b'.identified
  {
    var k, b', c := Turning(Device(b, [], []), bytes, (x: Board) => !Untouched(x, b.flash));
    PerformEffect(b', c);
    UntouchedStep(b', c, Perform(b', c).board, b.flash);
  }

  /** A flag that is set was set by its command. */
  lemma FlagsEarned(b: Board, bytes: seq<bv8>)
    requires PoweredOn(b) && Feed(Device(b, [], []), bytes).Device?
    ensures var d, b' := Device(b, [], []), Feed(Device(b, [], []), bytes).board;
      && (b'.synced ==> exists k: nat, x :: Executes(d, bytes, k, x, [GET_SYNC, EOC]))
      && (b'.identified ==> exists k: nat, x, c :: Executes(d, bytes, k, x, c) && c[0] == GET_DEVICE)
      && (b'.programmed ==> exists k: nat, x, c :: Executes(d, bytes, k, x, c) && c[0] == PROG_MULTI)
      && (b'.summed ==> exists k: nat, x :: Executes(d, bytes, k, x, [GET_CRC, EOC]))
  {
    var d, b' := Device(b, [], []), Feed(Device(b, [], []), bytes).board;
    if b'.synced {
      var k, x, c := Turning(d, bytes, (y: Board) => y.synced);
      PerformEffect(x, c);
      FlagsSet(x, c, Perform(x, c).board);
    }
    if b'.identified {
      var k, x, c := Turning(d, bytes, (y: Board) => y.identified);
      PerformEffect(x, c);
      FlagsSet(x, c, Perform(x, c).board);
    }
    if b'.programmed {
      var k, x, c := Turning(d, bytes, (y: Board) => y.programmed);
      PerformEffect(x, c);
      FlagsSet(x, c, Perform(x, c).board);
    }
    if b'.summed {
      var k, x, c := Turning(d, bytes, (y: Board) => y.summed);
      PerformEffect(x, c);
      FlagsSet(x, c, Perform(x, c).board);
    }
  }

  // ----- an erased board does not start before the reboot command

  /** The word that makes an image start is blank, and writing goes on behind it or from the beginning. */
  predicate Asleep(b: Board) {
    |b.flash| >= 4 && b.flash[..4] == WordBytes(BLANK) && (b.address == 0 || b.address >= 4)
  }

  /** An image's first word is held back, and all that entitles to a reboot was received since the last refusal. */
  predicate Committable(b: Board) {
    b.firstWord != BLANK && b.synced && b.identified && b.programmed && b.summed
  }

  lemma AsleepProgram(b: Board, block: seq<bv8>)
    requires Asleep(b) && block != []
    ensures Asleep(ProgMulti(b, block).1)
  {
    var (r, b') := ProgMulti(b, block);
    if r == Ok {
      if b.address == 0 {
        var data := WordBytes(BLANK) + block[4..];
        assert b'.flash == b.flash[..0] + data + b.flash[|block|..];
        assert b'.flash[..4] == WordBytes(BLANK);
      } else {
        assert b'.flash[..4] == b.flash[..4];
      }
    }
  }

  lemma AsleepErase(b: Board)
    requires Asleep(b)
    ensures Asleep(Erase(b).1)
  {
    assert Erased(|b.flash|)[..4] == WordBytes(BLANK);
  }

  lemma AsleepStep(b: Board, c: seq<bv8>, b': Board)
    requires Effect(b, c, b') && Asleep(b) && !Asleep(b')
    ensures c == [REBOOT, EOC] && Committable(b)
  {
    AsleepErase(b);
    if |c| > 3 {
      AsleepProgram(b, c[2..|c| - 1]);
    }
  }

  /**
   * From an erase on, whatever bytes follow, the first word stays blank, so that nothing starts, until a reboot
   * command is accepted on a board that knows its host and has been programmed and summed.
   */
  lemma HalfImageNeverStarts(b: Board, bytes: seq<bv8>)
    requires Asleep(b) && Feed(Device(b, [], []), bytes).Device?
    requires UpTo(Feed(Device(b, [], []), bytes).board.flash, 4) != WordBytes(BLANK)
    ensures exists k: nat, b' :: Executes(Device(b, [], []), bytes, k, b', [REBOOT, EOC]) && Committable(b')
  {
    var k, b', c := Turning(Device(b, [], []), bytes, (x: Board) => !Asleep(x));
    PerformEffect(b', c);
    AsleepStep(b', c, Perform(b', c).board);
  }

  // ----- a second erase

  /**
   * An erase does not forget the word held back before it. A reboot straight behind the erase leaves the flash blank
   * if and only if no word is held back, or nothing was programmed or summed before.
   */
  lemma EraseThenReboot(b: Board)
    requires b.synced && b.identified && |b.flash| >= 4
    ensures Boot(Erase(b).1).1.flash == Erased(|b.flash|) <==> b.firstWord == BLANK || !b.programmed || !b.summed
  {
    var flash, e := Erased(|b.flash|), Boot(Erase(b).1).1;
    if Committable(b) {
      assert e.flash == WordBytes(b.firstWord) + flash[4..];
      assert e.flash[..4] == WordBytes(b.firstWord) && flash[..4] == WordBytes(BLANK);
      if WordBytes(b.firstWord) == WordBytes(BLANK) {
        WordBytesApart(b.firstWord, BLANK);
      }
    }
  }

  lemma WordBytesApart(v: Word32, w: Word32)
    requires WordBytes(v) == WordBytes(w)
    ensures v == w
  {
    assert WordBytes(v)[0] == WordBytes(w)[0] && WordBytes(v)[1] == WordBytes(w)[1];
    assert WordBytes(v)[2] == WordBytes(w)[2] && WordBytes(v)[3] == WordBytes(w)[3];
  }
}
