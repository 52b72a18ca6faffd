/** The device side of the upload protocol: the board's bootloader on a flash that works. */
module Bootloader {
  import opened Bytes
  import opened CrcTheory
  import opened Crc32
  import opened CrcTable
  import opened Firmware

  datatype Reply = Ok | Invalid

  /** What the board tells about itself. */
  datatype Chip = Chip(
    boardType: Word32, boardRev: Word32, otp: seq<Word32>, serial: seq<Word32>, id: Word32, description: seq<bv8>)

  /**
   * `flash` is the programmable area; `firstWord` is held back until boot so that a half-written image never
   * starts; the four flags record which commands were seen since the last bad one.
   */
  datatype Board = Board(
    chip: Chip,
    flash: seq<bv8>, address: nat, firstWord: Word32, synced: bool, identified: bool, programmed: bool, summed: bool)

  const BLANK: Word32 := Word(0xff, 0xff, 0xff, 0xff)

  function WordAt(s: seq<bv8>): Word32
    requires |s| >= 4
  {
    Word(s[0], s[1], s[2], s[3])
  }

  function Bad(b: Board): Board {
    b.(synced := false, identified := false, programmed := false, summed := false)
  }

  // ----- commands

  function Erase(b: Board): (Reply, Board) {
    if !(b.synced && b.identified) then (Invalid, Bad(b))
    else (Ok, b.(flash := Erased(|b.flash|), address := 0))
  }

  /** Writes a non-empty block at the current address, the very first word excepted. */
  function ProgMulti(b: Board, block: seq<bv8>): (Reply, Board)
    requires block != []
  {
    if |block| % 4 != 0 || b.address + |block| > |b.flash| then (Invalid, Bad(b))
    else
      var first := b.address == 0;
      var data := if first then WordBytes(BLANK) + block[4..] else block;
      (Ok, b.(flash := b.flash[..b.address] + data + b.flash[b.address + |block|..],
              address := b.address + |block|,
              firstWord := if first then WordAt(block) else b.firstWord,
              programmed := true))
  }

  /** The flash as it will be once the held-back word is written. */
  function WithFirstWord(flash: seq<bv8>, firstWord: Word32): (r: seq<bv8>)
    ensures |r| == |flash|
  {
    if firstWord != BLANK && |flash| >= 4 then WordBytes(firstWord) + flash[4..] else flash
  }

  function BoardTable(i: bv8): Word32 {
    Unpack(ByteSteps(i as bv32))
  }

  function GetCrc(b: Board): (Word32, Board) {
    (Crc(XorByte, 0, BoardTable, WithFirstWord(b.flash, b.firstWord), Word(0, 0, 0, 0)), b.(summed := true))
  }

  function Boot(b: Board): (Reply, Board) {
    if b.firstWord != BLANK && !(b.synced && b.identified && b.programmed && b.summed) then (Invalid, Bad(b))
    else (Ok, b.(flash := WithFirstWord(b.flash, b.firstWord), firstWord := BLANK))
  }

  /** All blocks in turn; stops at the first that is refused. */
  function ProgAll(b: Board, groups: seq<seq<bv8>>): (Reply, Board)
    requires forall i :: 0 <= i < |groups| ==> groups[i] != []
    decreases |groups|
  {
    if groups == [] then (Ok, b)
    else
      var (r, b') := ProgMulti(b, groups[0]);
      if r == Ok then ProgAll(b', groups[1..]) else (r, b')
  }

  // ----- the bootloader's own CRC loops

  method DivideByte(start: bv32) returns (c: bv32)
    ensures c == Iterate(BitStep, 8, start)
  {
    c := start;
    for j := 0 to 8
      invariant Iterate(BitStep, 8, start) == Iterate(BitStep, 8 - j, c)
    {
      c := if c & 1 == 1 then 0xedb88320 ^ (c >> 1) else c >> 1;
    }
  }

  /** The first `n` entries come from dividing their own index. */
  ghost predicate Generated(tab: seq<bv32>, n: int) {
    0 <= n <= |tab| == 256 && forall i: int :: 0 <= i < n ==> tab[i] == Iterate(BitStep, 8, (i as bv8) as bv32)
  }

  lemma GeneratedStep(tab: seq<bv32>, n: int, c: bv32)
    requires Generated(tab, n) && n < 256 && c == Iterate(BitStep, 8, (n as bv8) as bv32)
    ensures Generated(tab[n := c], n + 1)
  {
  }

  /** The table the bootloader generates on first use. */
  method GenerateTable() returns (tab: array<bv32>)
    ensures Generated(tab[..], 256)
  {
    tab := new bv32[256];
    for i := 0 to 256
      invariant Generated(tab[..], i)
    {
      var c := DivideByte((i as bv8) as bv32);
      GeneratedStep(tab[..], i, c);
      ghost var before := tab[..];
      tab[i] := c;
      assert tab[..] == before[i := c];
    }
  }

  /** Entry by entry, the generated table is the uploader's constant one. */
  lemma GeneratedIsConstant(i: bv8)
    ensures Iterate(BitStep, 8, i as bv32) == TableEntry(i)
  {
    EightSteps(i as bv32);
    TableIsPolynomial(i);
  }

  lemma NextWord(flash: seq<bv8>, firstWord: Word32, p: nat, bytes: seq<bv8>)
    requires p + 4 <= |flash| && p % 4 == 0
    requires bytes == if p == 0 && firstWord != BLANK then WordBytes(firstWord) else flash[p..p + 4]
    ensures var all := WithFirstWord(flash, firstWord); all[..p + 4] == all[..p] + bytes
  {
    var all := WithFirstWord(flash, firstWord);
    assert all[p..p + 4] == bytes;
    assert all[..p + 4] == all[..p] + all[p..p + 4];
  }

  /** The sum over the flash, word by word, with the held-back word in place of the first. */
  method SumFlash(t: bv8 -> Word32, flash: seq<bv8>, firstWord: Word32) returns (sum: Word32)
    requires |flash| % 4 == 0
    ensures sum == Crc(XorByte, 0, t, WithFirstWord(flash, firstWord), Word(0, 0, 0, 0))
  {
    sum := Word(0, 0, 0, 0);
    ghost var all := WithFirstWord(flash, firstWord);
    var p := 0;
    while p < |flash|
      invariant 0 <= p <= |flash| && p % 4 == 0
      invariant sum == Crc(XorByte, 0, t, all[..p], Word(0, 0, 0, 0))
    {
      var bytes := if p == 0 && firstWord != BLANK then WordBytes(firstWord) else flash[p..p + 4];
      CrcConcat(XorByte, 0 as bv8, t, all[..p], bytes, Word(0, 0, 0, 0));
      NextWord(flash, firstWord, p, bytes);
      sum := Crc(XorByte, 0 as bv8, t, bytes, sum);
      p := p + 4;
    }
    assert all[..p] == all;
  }

  /** Both sides use the same polynomial. */
  lemma {:induction false} SameCrc(data: seq<bv8>, state: Word32)
    ensures Crc(XorByte, 0, BoardTable, data, state) == TableCrc(data, state)
    decreases |data|
  {
    if data != [] {
      TableIsPolynomial(state.b0 ^ data[0]);
      SameCrc(data[1..], Step(XorByte, 0 as bv8, BoardTable, state, data[0]));
    }
  }

  // ----- what programming leaves behind

  /** The board after an erase and `data` programmed. */
  ghost predicate Holds(b: Board, data: seq<bv8>) {
    && |data| % 4 == 0 && |data| <= |b.flash| && b.address == |data|
    && (if data == [] then b.flash == Erased(|b.flash|)
        else b.flash == HeldBack(data, |b.flash|) && b.firstWord == WordAt(data))
    && b.synced && b.identified && (data != [] ==> b.programmed)
  }

  /** Writing a block over the front of `tail`. */
  lemma Splice<T>(front: seq<T>, tail: seq<T>, block: seq<T>)
    requires |block| <= |tail|
    ensures (front + tail)[..|front|] == front
    ensures (front + tail)[|front| + |block|..] == tail[|block|..]
  {
  }

  lemma ErasedTail(m: nat, k: nat)
    requires k <= m
    ensures Erased(m)[k..] == Erased(m - k)
  {
  }

  /** What the flash holds behind `data`, its first word still held back. */
  ghost function HeldBack(data: seq<bv8>, size: nat): seq<bv8>
    requires 4 <= |data| <= size
  {
    WordBytes(BLANK) + data[4..] + Erased(size - |data|)
  }

  lemma FirstBlock(b: Board, block: seq<bv8>)
    requires b.flash == Erased(|b.flash|) && b.address == 0 && block != [] && |block| % 4 == 0 && |block| <= |b.flash|
    ensures ProgMulti(b, block).0 == Ok
    ensures ProgMulti(b, block).1.flash == HeldBack(block, |b.flash|)
  {
    ErasedTail(|b.flash|, |block|);
    assert b.flash[..0] + (WordBytes(BLANK) + block[4..]) == WordBytes(BLANK) + block[4..];
  }

  lemma NextBlock(b: Board, data: seq<bv8>, block: seq<bv8>)
    requires 4 <= |data| <= |b.flash| && b.flash == HeldBack(data, |b.flash|) && b.address == |data|
    requires block != [] && |block| % 4 == 0 && |data| + |block| <= |b.flash|
    ensures ProgMulti(b, block).0 == Ok
    ensures ProgMulti(b, block).1.flash == HeldBack(data + block, |b.flash|)
  {
    var front, tail := WordBytes(BLANK) + data[4..], Erased(|b.flash| - |data|);
    Splice(front, tail, block);
    ErasedTail(|tail|, |block|);
    Assoc(WordBytes(BLANK), data[4..], block);
    assert (data + block)[4..] == data[4..] + block;
  }

  lemma ProgMultiHolds(b: Board, data: seq<bv8>, block: seq<bv8>)
    requires Holds(b, data) && block != [] && |block| % 4 == 0 && |data| + |block| <= |b.flash|
    ensures ProgMulti(b, block).0 == Ok
    ensures Holds(ProgMulti(b, block).1, data + block)
    ensures |ProgMulti(b, block).1.flash| == |b.flash|
  {
    if data == [] {
      FirstBlock(b, block);
      assert data + block == block;
    } else {
      NextBlock(b, data, block);
    }
  }

  predicate Words(groups: seq<seq<bv8>>) {
    forall i :: 0 <= i < |groups| ==> groups[i] != [] && |groups[i]| % 4 == 0
  }

  /** The blocks are all accepted exactly if together they fit; the board then holds them. */
  lemma {:induction false} ProgAllHolds(b: Board, data: seq<bv8>, groups: seq<seq<bv8>>)
    requires Holds(b, data) && Words(groups)
    ensures ProgAll(b, groups).0 == Ok <==> |data| + |Flatten(groups)| <= |b.flash|
    ensures ProgAll(b, groups).0 == Ok ==>
      Holds(ProgAll(b, groups).1, data + Flatten(groups)) && |ProgAll(b, groups).1.flash| == |b.flash|
    decreases |groups|
  {
    if groups == [] {
      assert data + Flatten(groups) == data;
    } else {
      var block := groups[0];
      if |data| + |block| <= |b.flash| {
        ProgMultiHolds(b, data, block);
        ProgAllHolds(ProgMulti(b, block).1, data + block, groups[1..]);
        assert data + block + Flatten(groups[1..]) == data + Flatten(groups);
      }
    }
  }

  /** The sum is the uploader's, and booting leaves the image followed by 0xff. */
  ghost predicate Completes(b: Board, image: seq<bv8>)
    requires |image| <= |b.flash|
  {
    && GetCrc(b).0 == FirmwareCrc(image, |b.flash|)
    && Boot(GetCrc(b).1).0 == Ok
    && Boot(GetCrc(b).1).1.flash == image + Erased(|b.flash| - |image|)
  }

  lemma FirstWordBack(image: seq<bv8>)
    requires |image| >= 4
    ensures image == WordBytes(WordAt(image)) + image[4..]
  {
  }

  lemma BehindFirstWord<T>(word: seq<T>, middle: seq<T>, tail: seq<T>)
    requires |word| == 4
    ensures (word + middle + tail)[4..] == middle + tail
  {
  }

  /** Putting the held-back word in place completes the image. */
  lemma HeldWord(flash: seq<bv8>, firstWord: Word32, image: seq<bv8>)
    requires 4 <= |image| <= |flash| && flash == HeldBack(image, |flash|) && firstWord == WordAt(image)
    ensures WithFirstWord(flash, firstWord) == image + Erased(|flash| - |image|)
  {
    var tail := Erased(|flash| - |image|);
    FirstWordBack(image);
    BehindFirstWord(WordBytes(BLANK), image[4..], tail);
    Assoc(WordBytes(firstWord), image[4..], tail);
  }

  lemma HeldImage(b: Board, image: seq<bv8>)
    requires Holds(b, image) && image != [] && |b.flash| % 4 == 0
    ensures Completes(b, image)
  {
    HeldWord(b.flash, b.firstWord, image);
    CrcCoversFlash(|image|, |b.flash|);
    SameCrc(image + Erased(|b.flash| - |image|), Word(0, 0, 0, 0));
  }

  lemma BlocksOf(image: seq<bv8>)
    requires |image| % 32 == 0
    ensures Words(SplitLen(image, PROG_MULTI_MAX))
    ensures Flatten(SplitLen(image, PROG_MULTI_MAX)) == image
  {
    BlocksAreWords(image);
    SplitLenExact(image, PROG_MULTI_MAX);
  }

  /** The board after an erase and all blocks of `groups`, and whether it accepted them all. */
  function AfterProgramming(b: Board, groups: seq<seq<bv8>>): (Reply, Board)
    requires Words(groups)
  {
    ProgAll(Erase(b).1, groups)
  }

  lemma HoldsBlocks(b: Board, groups: seq<seq<bv8>>)
    requires b.synced && b.identified && Words(groups)
    ensures Erase(b).0 == Ok
    ensures AfterProgramming(b, groups).0 == Ok <==> |Flatten(groups)| <= |b.flash|
    ensures AfterProgramming(b, groups).0 == Ok ==>
      Holds(AfterProgramming(b, groups).1, Flatten(groups)) && |AfterProgramming(b, groups).1.flash| == |b.flash|
  {
    ProgAllHolds(Erase(b).1, [], groups);
    assert [] + Flatten(groups) == Flatten(groups);
  }

  /**
   * Erase, program, sum, boot: every block of a padded image is accepted if and only if the image fits, and then
   * the CRC check passes and the flash ends up as the image followed by 0xff.
   */
  lemma FlashedExactly(b: Board, image: seq<bv8>)
    requires b.synced && b.identified && |b.flash| % 4 == 0 && |image| % 32 == 0 && image != []
    ensures Erase(b).0 == Ok && Words(SplitLen(image, PROG_MULTI_MAX))
    ensures AfterProgramming(b, SplitLen(image, PROG_MULTI_MAX)).0 == Ok <==> |image| <= |b.flash|
    ensures AfterProgramming(b, SplitLen(image, PROG_MULTI_MAX)).0 == Ok ==>
      var b' := AfterProgramming(b, SplitLen(image, PROG_MULTI_MAX)).1;
      |b'.flash| == |b.flash| && Completes(b', image)
  {
    BlocksOf(image);
    var groups := SplitLen(image, PROG_MULTI_MAX);
    HoldsBlocks(b, groups);
    if AfterProgramming(b, groups).0 == Ok {
      HeldImage(AfterProgramming(b, groups).1, image);
    }
  }
}
