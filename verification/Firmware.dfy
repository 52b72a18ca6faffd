/** A firmware image as the uploader holds it: padded, cut into blocks, and summed up by its CRC. */
module Firmware {
  import opened Bytes
  import opened CrcTheory
  import opened Crc32

  const ERASED: bv8 := 0xff
  const PROG_MULTI_MAX: nat := 252

  function Erased(n: nat): (r: seq<bv8>)
    ensures |r| == n
  {
    seq(n, _ => ERASED)
  }

  // ----- padding

  /** The decompressed image, extended with 0xff to the next multiple of 32 bytes. */
  method PadImage(raw: seq<bv8>) returns (image: seq<bv8>)
    ensures |image| % 32 == 0 && |raw| <= |image| < |raw| + 32 && |image| == PaddedLength(|raw|)
    ensures image == raw + Erased(|image| - |raw|)
  {
    image := raw;
    ghost var target := PaddedLength(|raw|);
    while |image| % (4 * 8) != 0
      invariant |raw| <= |image| <= target < |raw| + 32 && target % 32 == 0
      invariant image == raw + Erased(|image| - |raw|)
      decreases target - |image|
    {
      image := image + [0xff];
    }
  }

  function PaddedLength(n: nat): nat {
    (n + 31) / 32 * 32
  }

  /** A padded image fits a flash exactly if the image fits its whole 32-byte units. */
  lemma PaddedFits(n: nat, size: nat)
    ensures PaddedLength(n) <= size <==> n <= size - size % 32
    ensures size % 32 == 0 ==> (PaddedLength(n) <= size <==> n <= size)
  {
    var units := (n + 31) / 32;
    var whole := size / 32;
    assert size - size % 32 == 32 * whole;
    assert units <= whole <==> n <= 32 * whole;
    assert units * 32 <= size <==> units <= whole;
  }

  // ----- blocks

  /** Pieces of `length` bytes, the last one possibly shorter. */
  function SplitLen(s: seq<bv8>, length: nat): (groups: seq<seq<bv8>>)
    requires length > 0
    decreases |s|
  {
    if s == [] then [] else [UpTo(s, length)] + SplitLen(From(s, length), length)
  }

  /** The pieces make up the data, in order; all have the full length, save a last one that is not empty. */
  lemma {:induction false} SplitLenExact(s: seq<bv8>, length: nat)
    requires length > 0
    ensures Flatten(SplitLen(s, length)) == s
    ensures forall i :: 0 <= i < |SplitLen(s, length)| ==> 1 <= |SplitLen(s, length)[i]| <= length
    ensures forall i :: 0 <= i < |SplitLen(s, length)| - 1 ==> |SplitLen(s, length)[i]| == length
    decreases |s|
  {
    if s != [] {
      var rest := SplitLen(From(s, length), length);
      SplitLenExact(From(s, length), length);
      assert s == UpTo(s, length) + From(s, length);
      assert rest != [] ==> |UpTo(s, length)| == length;
    }
  }

  /** Every block of a padded image can be programmed: 4 to 252 bytes, whole words. */
  lemma {:induction false} BlocksAreWords(s: seq<bv8>)
    requires |s| % 4 == 0
    ensures forall i :: 0 <= i < |SplitLen(s, PROG_MULTI_MAX)| ==>
      4 <= |SplitLen(s, PROG_MULTI_MAX)[i]| <= 252 && |SplitLen(s, PROG_MULTI_MAX)[i]| % 4 == 0
    decreases |s|
  {
    if s != [] {
      BlocksAreWords(From(s, PROG_MULTI_MAX));
    }
  }

  // ----- CRC

  /** How many padding words the CRC loop adds: one per step of 4 from `len` up to, not including, `padlen - 1`. */
  function PadWords(len: nat, padlen: int): nat {
    if padlen - 1 <= len then 0 else (padlen - 1 - len + 3) / 4
  }

  /** The CRC of the image followed by its padding words. */
  function FirmwareCrc(image: seq<bv8>, padlen: int): Word32 {
    TableCrc(image + Erased(4 * PadWords(|image|, padlen)), Word(0, 0, 0, 0))
  }

  method UpdateCrc(bytes: seq<bv8>, start: Word32) returns (state: Word32)
    ensures state == TableCrc(bytes, start)
  {
    state := start;
    for i := 0 to |bytes|
      invariant TableCrc(bytes, start) == TableCrc(bytes[i..], state)
    {
      var index := state.b0 ^ bytes[i];
      state := Xor(XorByte, UploaderTable(index), Shift(0, state));
      assert bytes[i..][1..] == bytes[i + 1..];
    }
    assert bytes[|bytes|..] == [];
  }

  method ComputeCrc(image: seq<bv8>, padlen: int) returns (state: Word32)
    ensures state == FirmwareCrc(image, padlen)
  {
    state := UpdateCrc(image, Word(0, 0, 0, 0));
    var i := |image|;
    ghost var n := 0;
    assert image + Erased(0) == image;
    while i < padlen - 1
      invariant i == |image| + 4 * n && n <= PadWords(|image|, padlen)
      invariant i >= padlen - 1 ==> n == PadWords(|image|, padlen)
      invariant state == TableCrc(image + Erased(4 * n), Word(0, 0, 0, 0))
      decreases padlen - i
    {
      state := UpdateCrc([0xff, 0xff, 0xff, 0xff], state);
      CrcConcat(XorByte, 0 as bv8, UploaderTable, image + Erased(4 * n), [0xff, 0xff, 0xff, 0xff], Word(0, 0, 0, 0));
      assert image + Erased(4 * n) + [0xff, 0xff, 0xff, 0xff] == image + Erased(4 * (n + 1));
      i, n := i + 4, n + 1;
    }
  }

  /** The sum covers exactly `padlen` bytes if and only if the missing bytes are whole words. */
  lemma CrcCoversFlash(len: nat, padlen: int)
    ensures len + 4 * PadWords(len, padlen) == padlen <==> padlen >= len && (padlen - len) % 4 == 0
  {
  }

  /** For a flash size that is off by one byte the last byte is left out of the sum. */
  lemma CrcMissesByte()
    ensures 32 + 4 * PadWords(32, 37) == 36
  {
  }

  /** Images that differ only inside some four consecutive bytes never share a CRC, whatever the padding. */
  lemma FirmwareCrcDetectsBursts(u: seq<bv8>, v: seq<bv8>, i: nat, padlen: int)
    requires |u| == |v| && i <= |u| && u != v
    requires forall k :: 0 <= k < |u| && !(i <= k < i + 4) ==> u[k] == v[k]
    ensures FirmwareCrc(u, padlen) != FirmwareCrc(v, padlen)
  {
    var pad := Erased(4 * PadWords(|u|, padlen));
    assert u == (u + pad)[..|u|] && v == (v + pad)[..|v|];
    TableCrcDetectsBursts(u + pad, v + pad, i, Word(0, 0, 0, 0));
  }
}
