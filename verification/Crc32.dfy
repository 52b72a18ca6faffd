/** The CRC-32 of the firmware uploader: its table, and the polynomial behind it. */
module Crc32 {
  import opened CrcTheory
  import opened CrcTable

  type Word32 = Word<bv8>

  function Pack(w: Word32): bv32 {
    w.b0 as bv32 | (w.b1 as bv32 << 8) | (w.b2 as bv32 << 16) | (w.b3 as bv32 << 24)
  }

  function Unpack(c: bv32): Word32 {
    Word((c & 0xff) as bv8, ((c >> 8) & 0xff) as bv8, ((c >> 16) & 0xff) as bv8, ((c >> 24) & 0xff) as bv8)
  }

  /** A word as it travels: its bytes, lowest first. */
  function WordBytes(w: Word32): (r: seq<bv8>)
    ensures |r| == 4
  {
    [w.b0, w.b1, w.b2, w.b3]
  }

  function XorByte(a: bv8, b: bv8): bv8 {
    a ^ b
  }

  function XorWord(a: bv32, b: bv32): bv32 {
    a ^ b
  }

  function UploaderTable(i: bv8): Word32 {
    Unpack(TableEntry(i))
  }

  function Divide(w: Word32): Word32 {
    Unpack(ByteSteps(Pack(w)))
  }

  function TableCrc(data: seq<bv8>, state: Word32): Word32 {
    Crc(XorByte, 0, UploaderTable, data, state)
  }

  // ----- bits of a word

  lemma BitStepOddOdd(a: bv32, b: bv32)
    requires a & 1 == 1 && b & 1 == 1
    ensures BitStep(a ^ b) == BitStep(a) ^ BitStep(b)
  {
  }

  lemma BitStepOddEven(a: bv32, b: bv32)
    requires a & 1 == 1 && b & 1 == 0
    ensures BitStep(a ^ b) == BitStep(a) ^ BitStep(b)
  {
  }

  lemma BitStepEvenEven(a: bv32, b: bv32)
    requires a & 1 == 0 && b & 1 == 0
    ensures BitStep(a ^ b) == BitStep(a) ^ BitStep(b)
  {
  }

  lemma Parity(a: bv32)
    ensures a & 1 == 0 || a & 1 == 1
  {
  }

  lemma XorCommutes(a: bv32, b: bv32)
    ensures a ^ b == b ^ a
  {
  }

  lemma BitStepLinear(a: bv32, b: bv32)
    ensures BitStep(a ^ b) == BitStep(a) ^ BitStep(b)
  {
    Parity(a);
    Parity(b);
    if a & 1 == 1 && b & 1 == 1 {
      BitStepOddOdd(a, b);
    } else if a & 1 == 1 {
      BitStepOddEven(a, b);
    } else if b & 1 == 1 {
      BitStepOddEven(b, a);
      XorCommutes(a, b);
      XorCommutes(BitStep(a), BitStep(b));
    } else {
      BitStepEvenEven(a, b);
    }
  }

  lemma EightSteps(c: bv32)
    ensures Iterate(BitStep, 8, c) == ByteSteps(c)
  {
    var c1 := BitStep(c);
    var c2 := BitStep(c1);
    var c3 := BitStep(c2);
    var c4 := BitStep(c3);
    var c5 := BitStep(c4);
    var c6 := BitStep(c5);
    var c7 := BitStep(c6);
    assert Iterate(BitStep, 8, c) == Iterate(BitStep, 6, c2);
    assert Iterate(BitStep, 6, c2) == Iterate(BitStep, 4, c4);
    assert Iterate(BitStep, 4, c4) == Iterate(BitStep, 2, c6);
  }

  lemma BitStepAdditive()
    ensures Additive(XorWord, BitStep)
  {
    forall a, b
      ensures BitStep(XorWord(a, b)) == XorWord(BitStep(a), BitStep(b))
    {
      BitStepLinear(a, b);
    }
  }

  lemma ByteStepsLinear(a: bv32, b: bv32)
    ensures ByteSteps(a ^ b) == ByteSteps(a) ^ ByteSteps(b)
  {
    BitStepAdditive();
    IterateAdditive(XorWord, BitStep, 8, a, b);
    EightSteps(a);
    EightSteps(b);
    EightSteps(a ^ b);
  }

  /** Bits above the low byte are only shifted. */
  lemma ByteStepsShift(h: bv32)
    requires h & 0xff == 0
    ensures ByteSteps(h) == h >> 8
  {
  }

  // ----- bytes of a word

  lemma PackXor(v: Word32, w: Word32)
    ensures Pack(Xor(XorByte, v, w)) == Pack(v) ^ Pack(w)
  {
  }

  lemma UnpackXor(a: bv32, b: bv32)
    ensures Unpack(a ^ b) == Xor(XorByte, Unpack(a), Unpack(b))
  {
  }

  lemma PackShift(h: Word32)
    requires h.b0 == 0
    ensures Pack(h) & 0xff == 0
    ensures Unpack(Pack(h) >> 8) == Shift(0, h)
  {
  }

  lemma PackLow(i: bv8)
    ensures Pack(Low(0, i)) == i as bv32
  {
  }

  lemma TopOfEntry(k: bv8)
    requires UploaderTable(k).b3 == 0
    ensures k == 0
  {
  }

  // ----- the laws hold for bytes, the polynomial and the table

  lemma XorCancels(a: bv8, b: bv8, c: bv8)
    ensures a ^ b == a ^ c ==> b == c
    ensures a ^ c == b ^ c ==> a == b
  {
  }

  lemma XorUnit(a: bv8)
    ensures a ^ 0 == a && 0 ^ a == a && a ^ a == 0
  {
  }

  lemma XorLaws()
    ensures Group(XorByte, 0)
    ensures forall a :: XorByte(a, a) == 0
  {
    forall a
      ensures XorByte(a, 0) == a && XorByte(0, a) == a && XorByte(a, a) == 0
    {
      XorUnit(a);
    }
    forall a, b, c
      ensures XorByte(a, b) == XorByte(a, c) ==> b == c
    {
      XorCancels(a, b, c);
    }
    forall a, b, c
      ensures XorByte(a, c) == XorByte(b, c) ==> a == b
    {
      XorCancels(a, b, c);
    }
  }

  lemma DivideXor(v: Word32, w: Word32)
    ensures Divide(Xor(XorByte, v, w)) == Xor(XorByte, Divide(v), Divide(w))
  {
    PackXor(v, w);
    ByteStepsLinear(Pack(v), Pack(w));
    UnpackXor(ByteSteps(Pack(v)), ByteSteps(Pack(w)));
  }

  lemma DivideLaws()
    ensures Linear(XorByte, Divide)
    ensures Shifts(0, Divide)
  {
    forall v, w
      ensures Divide(Xor(XorByte, v, w)) == Xor(XorByte, Divide(v), Divide(w))
    {
      DivideXor(v, w);
    }
    forall h: Word32 | h.b0 == 0
      ensures Divide(h) == Shift(0, h)
    {
      PackShift(h);
      ByteStepsShift(Pack(h));
    }
  }

  /** The uploader's table is the table of the polynomial division, and its top bytes are a permutation. */
  lemma TableLaws()
    ensures Tabulates(0, UploaderTable, Divide)
    ensures TopInjective(UploaderTable)
  {
    forall i
      ensures UploaderTable(i) == Divide(Low(0, i))
    {
      TableIsPolynomial(i);
      PackLow(i);
    }
    forall k
      ensures UploaderTable(k).b3 == 0 ==> k == 0
    {
      if UploaderTable(k).b3 == 0 {
        TopOfEntry(k);
      }
    }
    XorLaws();
    DivideLaws();
    TopInjectiveFromLinear(XorByte, 0 as bv8, UploaderTable, Divide);
  }

  /** The table-driven CRC is the bit-by-bit polynomial division, for all data and every start state. */
  lemma TableCrcIsPolynomialDivision(data: seq<bv8>, state: Word32)
    ensures TableCrc(data, state) == DivisionCrc(XorByte, 0, Divide, data, state)
  {
    XorLaws();
    DivideLaws();
    TableLaws();
    CrcIsDivision(XorByte, 0 as bv8, UploaderTable, Divide, data, state);
  }

  /** Data that differ only inside some four consecutive bytes have different CRCs. */
  lemma TableCrcDetectsBursts(u: seq<bv8>, v: seq<bv8>, i: nat, state: Word32)
    requires |u| == |v| && i <= |u| && u != v
    requires forall k :: 0 <= k < |u| && !(i <= k < i + 4) ==> u[k] == v[k]
    ensures TableCrc(u, state) != TableCrc(v, state)
  {
    XorLaws();
    TableLaws();
    BurstDetected(XorByte, 0 as bv8, UploaderTable, u, v, i, state);
  }
}
