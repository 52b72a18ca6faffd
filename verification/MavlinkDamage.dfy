/** What exactly decodes, what a packed frame looks like byte by byte, and which damage is noticed. */
module MavlinkDamage {
  import opened Bytes
  import opened MavlinkParser
  import opened MavlinkMessage
  import opened MavlinkLink

  // ----- the checksum

  /** Accumulating nothing, and one more byte. */
  lemma {:induction false} ChecksumSnoc(d: Dialect, s: seq<byte>, b: byte, c: Crc16)
    ensures Checksum(d, [], c) == c
    ensures Checksum(d, s + [b], c) == d.update(Checksum(d, s, c), b)
    decreases |s|
  {
    var all := s + [b];
    if s == [] {
      assert all == [b] && all[1..] == [];
    } else {
      assert all[1..] == s[1..] + [b];
      ChecksumSnoc(d, s[1..], b, d.update(c, s[0]));
    }
  }

  lemma {:induction false} ChecksumConcat(d: Dialect, a: seq<byte>, b: seq<byte>, c: Crc16)
    ensures Checksum(d, a + b, c) == Checksum(d, b, Checksum(d, a, c))
    decreases |a|
  {
    if a == [] {
      assert a + b == b;
    } else {
      ConcatParts(a, b);
      ChecksumConcat(d, a[1..], b, d.update(c, a[0]));
    }
  }

  /** The two bytes at the end, low byte first, are the checksum of what lies behind the prefix and of the extra byte. */
  predicate SumsUp(d: Dialect, raw: seq<byte>, extra: byte)
    requires |raw| >= 8
  {
    raw[|raw| - 2] as nat + 256 * raw[|raw| - 1] as nat == Checksum(d, raw[1..|raw| - 2] + [extra], d.init)
  }

  lemma TwoBytes(c: Crc16, s: seq<byte>)
    requires |s| == 2
    ensures s == CrcBytes(c) <==> s[0] as nat + 256 * s[1] as nat == c
  {
    assert c == c % 256 + 256 * (c / 256);
  }

  lemma TailSums(d: Dialect, raw: seq<byte>, extra: byte)
    requires |raw| >= 8
    ensures raw[|raw| - 2..] == CrcBytes(FrameCrc(d, raw[1..|raw| - 2], extra)) <==> SumsUp(d, raw, extra)
  {
    var tail := raw[|raw| - 2..];
    assert tail[0] == raw[|raw| - 2] && tail[1] == raw[|raw| - 1];
    TwoBytes(FrameCrc(d, raw[1..|raw| - 2], extra), tail);
  }

  // ----- what decodes

  /** Prefix, length byte, message type, payload size and checksum are right. */
  predicate Intact(d: Dialect, raw: seq<byte>) {
    && |raw| >= 8 && raw[0] == 254 && raw[1] as nat + 8 == |raw|
    && raw[5] in d.schemas && PayloadSize(d.schemas[raw[5]].fmt) + 8 == |raw|
    && SumsUp(d, raw, d.schemas[raw[5]].crcExtra)
  }

  /** Every payload value has an entry in the order map, and each such entry names a payload value. */
  predicate Ordered(sch: Schema) {
    |sch.fmt| <= |sch.orderMap| && forall i :: 0 <= i < |sch.fmt| ==> sch.orderMap[i] < |sch.fmt|
  }

  lemma PassesIntact(d: Dialect, raw: seq<byte>)
    ensures Passes(d, raw) <==> Intact(d, raw)
  {
    if |raw| >= 8 && raw[5] in d.schemas {
      TailSums(d, raw, d.schemas[raw[5]].crcExtra);
    }
  }

  /**
   * Bytes decode to a message if and only if they are intact and the order map has exactly one entry, in range, for
   * each format code; they raise an IndexError exactly if they are intact and the order map does not fit.
   */
  lemma DecodesExactly(d: Dialect, raw: seq<byte>)
    ensures Decode(d, raw).Message? <==>
      Intact(d, raw) && Ordered(d.schemas[raw[5]]) && |d.schemas[raw[5]].orderMap| == |d.schemas[raw[5]].fmt|
    ensures Decode(d, raw) == IndexError <==> Intact(d, raw) && !Ordered(d.schemas[raw[5]])
  {
    PassesIntact(d, raw);
  }

  /** Where value `j` of the payload sits. */
  function Offset(fmt: seq<FieldType>, j: nat): nat
    requires j <= |fmt|
  {
    PayloadSize(fmt[..j])
  }

  lemma {:induction false} SizeConcat(a: seq<FieldType>, b: seq<FieldType>)
    ensures PayloadSize(a + b) == PayloadSize(a) + PayloadSize(b)
    decreases |a|
  {
    if a == [] {
      assert a + b == b;
    } else {
      ConcatParts(a, b);
      SizeConcat(a[1..], b);
    }
  }

  lemma OffsetNext(fmt: seq<FieldType>, j: nat)
    requires j < |fmt|
    ensures Offset(fmt, j + 1) == Offset(fmt, j) + Size(fmt[j]) <= PayloadSize(fmt)
  {
    var one := [fmt[j]];
    assert fmt[..j + 1] == fmt[..j] + one && one[1..] == [];
    SizeConcat(fmt[..j], one);
    assert fmt == fmt[..j + 1] + fmt[j + 1..];
    SizeConcat(fmt[..j + 1], fmt[j + 1..]);
  }

  /** The middle of three pieces. */
  lemma MiddleSlice<T>(s: seq<T>, front: seq<T>, middle: seq<T>, back: seq<T>)
    requires s == front + (middle + back)
    ensures s[|front|..|front| + |middle|] == middle
  {
  }

  lemma {:induction false} UnpackConcat(a: seq<FieldType>, s: seq<byte>, b: seq<FieldType>, t: seq<byte>)
    requires |s| == PayloadSize(a) && |t| == PayloadSize(b)
    ensures PayloadSize(a + b) == |s + t|
    ensures UnpackAll(a + b, s + t) == UnpackAll(a, s) + UnpackAll(b, t)
    decreases |a|
  {
    SizeConcat(a, b);
    if a == [] {
      assert a + b == b && s + t == t;
    } else {
      var n := Size(a[0]);
      ConcatParts(a, b);
      assert (s + t)[..n] == s[..n] && (s + t)[n..] == s[n..] + t;
      UnpackConcat(a[1..], s[n..], b, t);
      Assoc([UnpackField(a[0], s[..n])], UnpackAll(a[1..], s[n..]), UnpackAll(b, t));
    }
  }

  /** Value `j` is unpacked from its own bytes. */
  lemma UnpackedAt(fmt: seq<FieldType>, s: seq<byte>, j: nat, p: nat, k: nat)
    requires |s| == PayloadSize(fmt) && j < |fmt| && p == Offset(fmt, j) && k == Size(fmt[j]) && p + k <= |s|
    ensures UnpackAll(fmt, s)[j] == UnpackField(fmt[j], s[p..p + k])
  {
    var a, b := fmt[..j], fmt[j..];
    assert fmt == a + b;
    SizeConcat(a, b);
    UnpackedMiddle(a, s[..p], b, s[p..], k);
    assert s == s[..p] + s[p..] && s[p..][..k] == s[p..p + k];
  }

  lemma UnpackedMiddle(a: seq<FieldType>, x: seq<byte>, b: seq<FieldType>, y: seq<byte>, k: nat)
    requires |x| == PayloadSize(a) && |y| == PayloadSize(b) && b != [] && k == Size(b[0]) <= |y|
    ensures PayloadSize(a + b) == |x + y| && UnpackAll(a + b, x + y)[|a|] == UnpackField(b[0], y[..k])
  {
    UnpackConcat(a, x, b, y);
    FirstUnpacked(b, y, k);
  }

  lemma FirstUnpacked(fmt: seq<FieldType>, s: seq<byte>, k: nat)
    requires fmt != [] && |s| == PayloadSize(fmt) && k == Size(fmt[0])
    ensures UnpackAll(fmt, s)[0] == UnpackField(fmt[0], s[..k])
  {
  }

  /** The bytes of payload value `j` in a frame. */
  function PayloadAt(sch: Schema, raw: seq<byte>, j: nat): (s: seq<byte>)
    requires j < |sch.fmt| && |raw| == PayloadSize(sch.fmt) + 8
    ensures |s| == Size(sch.fmt[j])
  {
    OffsetNext(sch.fmt, j);
    raw[6 + Offset(sch.fmt, j)..6 + Offset(sch.fmt, j) + Size(sch.fmt[j])]
  }

  lemma PayloadSlice(raw: seq<byte>, p: nat, n: nat)
    requires |raw| >= 8 && p + n + 8 <= |raw|
    ensures raw[6..|raw| - 2][p..p + n] == raw[6 + p..6 + p + n]
  {
    SliceOfSlice(raw, 6, |raw| - 2, p, n);
  }

  /** What a decoded message holds: header bytes, and field `i` from the payload value that the order map names. */
  lemma DecodedFields(d: Dialect, raw: seq<byte>)
    requires Decode(d, raw).Message?
    ensures Intact(d, raw) && Ordered(d.schemas[raw[5]])
    ensures var m, sch := Decode(d, raw).m, d.schemas[raw[5]];
      && m.seqNo == raw[2] && m.system == raw[3] && m.component == raw[4] && m.id == raw[5]
      && |m.values| == |sch.fmt|
      && forall i :: 0 <= i < |sch.fmt| ==>
           var j := sch.orderMap[i];
           m.values[i] == Shown(UnpackField(sch.fmt[j], PayloadAt(sch, raw, j)))
  {
    DecodesExactly(d, raw);
    var m, sch := Decode(d, raw).m, d.schemas[raw[5]];
    forall i | 0 <= i < |sch.fmt|
      ensures var j := sch.orderMap[i]; m.values[i] == Shown(UnpackField(sch.fmt[j], PayloadAt(sch, raw, j)))
    {
      var j := sch.orderMap[i];
      OffsetNext(sch.fmt, j);
      UnpackedAt(sch.fmt, raw[6..|raw| - 2], j, Offset(sch.fmt, j), Size(sch.fmt[j]));
      PayloadSlice(raw, Offset(sch.fmt, j), Size(sch.fmt[j]));
    }
  }

  // ----- what is sent, byte by byte

  /** `n` without its lowest `i` bytes. */
  function Shifted(n: nat, i: nat): nat
    decreases i
  {
    if i == 0 then n else Shifted(n / 256, i - 1)
  }

  /** Byte `i` of a number, the lowest one first. */
  lemma {:induction false} DigitAt(n: nat, k: nat, i: nat)
    requires i < k
    ensures LittleEndian(n, k)[i] as nat == Shifted(n, i) % 256
    decreases k
  {
    if i > 0 {
      DigitAt(n / 256, k - 1, i - 1);
    }
  }

  /** The header bytes of a packed frame, and its checksum. */
  lemma FrameBytes(d: Dialect, m: Msg)
    requires m.id in d.schemas && Packs(d.schemas[m.id], m.values)
    ensures var raw, sch := Frame(d, m), d.schemas[m.id];
      && |raw| == PayloadSize(sch.fmt) + 8
      && raw[0] == 254 && raw[1] as nat == PayloadSize(sch.fmt)
      && raw[2] == m.seqNo && raw[3] == m.system && raw[4] == m.component && raw[5] == m.id
      && SumsUp(d, raw, sch.crcExtra)
  {
    FrameParts(d, m);
    TailSums(d, Frame(d, m), d.schemas[m.id].crcExtra);
  }

  /** Payload value `j` is the field that the pack order names, packed. */
  lemma FrameValue(d: Dialect, m: Msg, j: nat)
    requires m.id in d.schemas && Packs(d.schemas[m.id], m.values) && j < |d.schemas[m.id].fmt|
    ensures var raw, sch := Frame(d, m), d.schemas[m.id];
      && |raw| == PayloadSize(sch.fmt) + 8 && j < |sch.wire| && sch.wire[j] < |m.values|
      && Fits(sch.fmt[j], m.values[sch.wire[j]])
      && PayloadAt(sch, raw, j) == PackField(sch.fmt[j], m.values[sch.wire[j]])
  {
    FrameParts(d, m);
    ValuePacked(d.schemas[m.id], m.values, j);
    PayloadPlace(d.schemas[m.id], Frame(d, m), Payload(d.schemas[m.id], m.values), j);
  }

  lemma ValuePacked(sch: Schema, vs: seq<Value>, j: nat)
    requires Packs(sch, vs) && j < |sch.fmt|
    ensures j < |sch.wire| && sch.wire[j] < |vs| && Fits(sch.fmt[j], vs[sch.wire[j]])
    ensures Offset(sch.fmt, j) + Size(sch.fmt[j]) <= |Payload(sch, vs)|
    ensures Payload(sch, vs)[Offset(sch.fmt, j)..Offset(sch.fmt, j) + Size(sch.fmt[j])]
         == PackField(sch.fmt[j], vs[sch.wire[j]])
  {
    var sent := Arrange(sch.wire, vs);
    assert Fits(sch.fmt[j], sent[j]);
    OffsetNext(sch.fmt, j);
    PackedAt(sch.fmt, sent, j, Offset(sch.fmt, j), Size(sch.fmt[j]));
  }

  lemma PayloadPlace(sch: Schema, raw: seq<byte>, payload: seq<byte>, j: nat)
    requires j < |sch.fmt| && |raw| == PayloadSize(sch.fmt) + 8 && raw[6..|raw| - 2] == payload
    requires Offset(sch.fmt, j) + Size(sch.fmt[j]) <= |payload|
    ensures PayloadAt(sch, raw, j) == payload[Offset(sch.fmt, j)..Offset(sch.fmt, j) + Size(sch.fmt[j])]
  {
    PayloadSlice(raw, Offset(sch.fmt, j), Size(sch.fmt[j]));
  }

  lemma {:induction false} PackConcat(a: seq<FieldType>, va: seq<Value>, b: seq<FieldType>, vb: seq<Value>)
    requires AllFit(a, va) && AllFit(b, vb)
    ensures AllFit(a + b, va + vb)
    ensures PackAll(a + b, va + vb) == PackAll(a, va) + PackAll(b, vb)
    decreases |a|
  {
    if a == [] {
      assert a + b == b && va + vb == vb;
    } else {
      ConcatParts(a, b);
      ConcatParts(va, vb);
      PackConcat(a[1..], va[1..], b, vb);
      Assoc(PackField(a[0], va[0]), PackAll(a[1..], va[1..]), PackAll(b, vb));
    }
  }

  lemma FitParts(fmt: seq<FieldType>, vs: seq<Value>, j: nat)
    requires AllFit(fmt, vs) && j < |fmt|
    ensures AllFit(fmt[..j], vs[..j]) && AllFit(fmt[j..], vs[j..]) && Fits(fmt[j], vs[j])
    ensures AllFit(fmt[j..][1..], vs[j..][1..])
  {
  }

  lemma FirstPacked(fmt: seq<FieldType>, vs: seq<Value>)
    requires fmt != [] && AllFit(fmt, vs)
    ensures AllFit(fmt[1..], vs[1..]) && PackAll(fmt, vs) == PackField(fmt[0], vs[0]) + PackAll(fmt[1..], vs[1..])
  {
  }

  lemma PackedAt(fmt: seq<FieldType>, vs: seq<Value>, j: nat, p: nat, k: nat)
    requires AllFit(fmt, vs) && j < |fmt| && p == Offset(fmt, j) && k == Size(fmt[j]) && p + k <= PayloadSize(fmt)
    ensures PackAll(fmt, vs)[p..p + k] == PackField(fmt[j], vs[j])
  {
    FitParts(fmt, vs, j);
    PackedMiddle(fmt[..j], vs[..j], fmt[j..], vs[j..], p, k);
    assert fmt == fmt[..j] + fmt[j..] && vs == vs[..j] + vs[j..];
  }

  lemma PackedMiddle(a: seq<FieldType>, va: seq<Value>, b: seq<FieldType>, vb: seq<Value>, p: nat, k: nat)
    requires AllFit(a, va) && AllFit(b, vb) && b != [] && p == PayloadSize(a) && k == Size(b[0])
    ensures AllFit(a + b, va + vb) && p + k <= |PackAll(a + b, va + vb)|
    ensures PackAll(a + b, va + vb)[p..p + k] == PackField(b[0], vb[0])
  {
    PackConcat(a, va, b, vb);
    FirstPacked(b, vb);
    FirstOfSecond(PackAll(a + b, va + vb), PackAll(a, va), PackAll(b, vb), PackField(b[0], vb[0]), PackAll(b[1..], vb[1..]), p, k);
  }

  lemma FirstOfSecond(s: seq<byte>, x: seq<byte>, y: seq<byte>, m: seq<byte>, rest: seq<byte>, p: nat, k: nat)
    requires s == x + y && y == m + rest && p == |x| && k == |m|
    ensures p + k <= |s| && s[p..p + k] == m
  {
    MiddleSlice(s, x, m, rest);
  }

  /** Numbers little-endian, negative ones in two's complement; floats as they are; text cut or filled up with NUL. */
  lemma PackedBytes(t: FieldType, v: Value, i: nat)
    requires Fits(t, v) && i < Size(t)
    ensures var b := PackField(t, v)[i];
      match t
      case Unsigned(_) => b as nat == Shifted(v.n, i) % 256
      case Signed(k) => b as nat == Shifted(if v.n < 0 then v.n + Pow256(k) else v.n, i) % 256
      case Float => b == v.raw[i]
      case Text(_) => b == if i < |v.chars| then v.chars[i] else 0
  {
    match t
    case Unsigned(k) => DigitAt(v.n, k, i);
    case Signed(k) => DigitAt(if v.n < 0 then v.n + Pow256(k) else v.n, k, i);
    case Float =>
    case Text(_) =>
  }

  lemma {:induction false} LittleEndianBack(s: seq<byte>)
    ensures FromLittleEndian(s) < Pow256(|s|)
    ensures LittleEndian(FromLittleEndian(s), |s|) == s
    decreases |s|
  {
    if s != [] {
      LittleEndianBack(s[1..]);
      var n := FromLittleEndian(s[1..]);
      assert FromLittleEndian(s) == s[0] as nat + 256 * n;
      assert FromLittleEndian(s) % 256 == s[0] as nat && FromLittleEndian(s) / 256 == n;
    }
  }

  /** A number or a float can be packed if and only if it is what some bytes unpack to. */
  lemma FitsExactly(t: FieldType, v: Value)
    requires !t.Text?
    ensures Fits(t, v) <==> exists s: seq<byte> :: |s| == Size(t) && UnpackField(t, s) == v
  {
    if Fits(t, v) {
      FieldRoundTrip(t, v);
      assert UnpackField(t, PackField(t, v)) == v;
    }
    forall s: seq<byte> | |s| == Size(t) && UnpackField(t, s) == v
      ensures Fits(t, v)
    {
      LittleEndianBack(s);
    }
  }

  /** The value can be packed: text always, a number or float if some bytes of its size unpack to it. */
  ghost predicate Expressible(t: FieldType, v: Value) {
    if t.Text? then v.Chars? else exists s: seq<byte> :: |s| == Size(t) && UnpackField(t, s) == v
  }

  /** Sending raises nothing if and only if every value that is packed can be, and the length fits its byte. */
  lemma PackableExactly(d: Dialect, o: Outgoing)
    ensures Packable(d, o) <==>
      && o.id in d.schemas
      && var sch := d.schemas[o.id];
      && |sch.fmt| == |sch.wire| && PayloadSize(sch.fmt) <= 255
      && forall j :: 0 <= j < |sch.wire| ==> sch.wire[j] < |o.values| && Expressible(sch.fmt[j], o.values[sch.wire[j]])
  {
    if o.id in d.schemas {
      var sch := d.schemas[o.id];
      forall j | 0 <= j < |sch.fmt| && j < |sch.wire| && sch.wire[j] < |o.values|
        ensures Fits(sch.fmt[j], o.values[sch.wire[j]]) <==> Expressible(sch.fmt[j], o.values[sch.wire[j]])
      {
        if !sch.fmt[j].Text? {
          FitsExactly(sch.fmt[j], o.values[sch.wire[j]]);
        }
      }
      if forall j :: 0 <= j < |sch.wire| ==> sch.wire[j] < |o.values| {
        var sent := Arrange(sch.wire, o.values);
        assert forall j :: 0 <= j < |sent| ==> sent[j] == o.values[sch.wire[j]];
      }
    }
  }

  // ----- damage

  /** Of the frames that agree up to the checksum, only one is intact. */
  lemma DamagedChecksum(d: Dialect, raw: seq<byte>, raw': seq<byte>)
    requires Intact(d, raw) && |raw'| == |raw| && raw'[..|raw| - 2] == raw[..|raw| - 2] && raw' != raw
    ensures Decode(d, raw') == MavError && ItemOf(DecoderOf(d), raw') == BadData(raw')
  {
    var n := |raw| - 2;
    assert raw'[0] == raw'[..n][0] && raw'[1] == raw'[..n][1] && raw'[5] == raw'[..n][5];
    assert raw'[1..n] == raw'[..n][1..] && raw[1..n] == raw[..n][1..];
    DecodesExactly(d, raw');
  }

  /** Each update can be undone, by the byte and by the sum before it. */
  ghost predicate Injective(d: Dialect) {
    && (forall b, c, c' :: d.update(c, b) == d.update(c', b) ==> c == c')
    && (forall b, b', c :: d.update(c, b) == d.update(c, b') ==> b == b')
  }

  lemma {:induction false} SumsDiffer(d: Dialect, s: seq<byte>, c: Crc16, c': Crc16)
    requires Injective(d) && c != c'
    ensures Checksum(d, s, c) != Checksum(d, s, c')
    decreases |s|
  {
    if s != [] {
      SumsDiffer(d, s[1..], d.update(c, s[0]), d.update(c', s[0]));
    }
  }

  lemma ByteChangesSum(d: Dialect, a: seq<byte>, x: byte, y: byte, b: seq<byte>)
    requires Injective(d) && x != y
    ensures Checksum(d, a + [x] + b, d.init) != Checksum(d, a + [y] + b, d.init)
  {
    ChecksumConcat(d, a + [x], b, d.init);
    ChecksumConcat(d, a + [y], b, d.init);
    ChecksumSnoc(d, a, x, d.init);
    ChecksumSnoc(d, a, y, d.init);
    SumsDiffer(d, b, Checksum(d, a + [x], d.init), Checksum(d, a + [y], d.init));
  }

  /** Changing any one byte of an intact frame but the message type makes it bad data. */
  lemma DamagedByte(d: Dialect, raw: seq<byte>, k: nat, y: byte)
    requires Injective(d) && Intact(d, raw) && k < |raw| && k != 5 && y != raw[k]
    ensures Decode(d, raw[k := y]) == MavError && ItemOf(DecoderOf(d), raw[k := y]) == BadData(raw[k := y])
  {
    var raw', n := raw[k := y], |raw| - 2;
    DecodesExactly(d, raw');
    if k >= n {
      assert raw'[..n] == raw[..n];
      DamagedChecksum(d, raw, raw');
    } else if k >= 1 {
      var extra := d.schemas[raw[5]].crcExtra;
      var a, b := raw[1..k], raw[k + 1..n] + [extra];
      assert raw[1..n] + [extra] == a + [raw[k]] + b;
      assert raw'[1..n] + [extra] == a + [y] + b;
      ByteChangesSum(d, a, raw[k], y, b);
    }
  }

  // ----- frames in the stream

  /** Each byte of noise is reported, as bad data of its own. */
  function Noise(bytes: seq<byte>): seq<Item<Msg>> {
    seq(|bytes|, i requires 0 <= i < |bytes| => BadData([bytes[i]]))
  }

  lemma NoiseInFront(d: Dialect, b: byte, rest: seq<byte>)
    requires b != 254
    ensures var all, later := Drain(DecoderOf(d), [b] + rest), Drain(DecoderOf(d), rest);
      all == Drained([BadData([b])] + later.items, later.rest)
  {
    DrainStep(DecoderOf(d), [b] + rest, [b], rest);
  }

  lemma {:induction false} NoiseSkipped(d: Dialect, noise: seq<byte>, behind: seq<byte>)
    requires 254 !in noise
    ensures var all, later := Drain(DecoderOf(d), noise + behind), Drain(DecoderOf(d), behind);
      all == Drained(Noise(noise) + later.items, later.rest)
    decreases |noise|
  {
    if noise == [] {
      assert noise + behind == behind && Noise(noise) == [];
    } else {
      var b, more := noise[0], noise[1..];
      assert noise + behind == [b] + (more + behind);
      NoiseInFront(d, b, more + behind);
      NoiseSkipped(d, more, behind);
      NoiseCons(noise);
      Assoc([BadData([b])], Noise(more), Drain(DecoderOf(d), behind).items);
    }
  }

  lemma NoiseCons(noise: seq<byte>)
    requires noise != []
    ensures Noise(noise) == [BadData([noise[0]])] + Noise(noise[1..])
  {
  }

  /** A frame behind noise without a prefix byte is found, whatever the noise. */
  lemma FrameBehindNoise(d: Dialect, noise: seq<byte>, frame: seq<byte>, rest: seq<byte>)
    requires 254 !in noise && |frame| >= 8 && frame[0] == 254 && frame[1] as nat + 8 == |frame|
    ensures var all, later := Drain(DecoderOf(d), noise + (frame + rest)), Drain(DecoderOf(d), rest);
      all == Drained(Noise(noise) + ([ItemOf(DecoderOf(d), frame)] + later.items), later.rest)
  {
    NoiseSkipped(d, noise, frame + rest);
    FrameInFront(DecoderOf(d), frame, rest);
  }
}
