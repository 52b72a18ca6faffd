/** MAVLink 1 messages: fields, payloads, frames and their decoding. */
module MavlinkMessage {
  import opened Bytes
  import opened MavlinkParser

  // ----- fields

  /** The codes of a struct format: integers of 1 to 8 bytes, 4-byte floats, fixed-size strings. */
  datatype FieldType = Unsigned(size: nat) | Signed(size: nat) | Float | Text(size: nat)

  /** A float is kept as its four bytes; a string as its bytes. */
  datatype Value = Number(n: int) | Real32(raw: seq<byte>) | Chars(chars: seq<byte>)

  function Size(t: FieldType): nat {
    match t
    case Unsigned(k) => k
    case Signed(k) => k
    case Float => 4
    case Text(k) => k
  }

  function Pow256(k: nat): (p: nat)
    ensures p >= 1
  {
    if k == 0 then 1 else 256 * Pow256(k - 1)
  }

  function LittleEndian(n: nat, k: nat): (s: seq<byte>)
    ensures |s| == k
    decreases k
  {
    if k == 0 then [] else [(n % 256) as byte] + LittleEndian(n / 256, k - 1)
  }

  function FromLittleEndian(s: seq<byte>): nat {
    if s == [] then 0 else s[0] as nat + 256 * FromLittleEndian(s[1..])
  }

  function Zeros(n: nat): (s: seq<byte>)
    ensures |s| == n
  {
    seq(n, _ => 0)
  }

  /** What `struct.pack` accepts. */
  predicate Fits(t: FieldType, v: Value) {
    match t
    case Unsigned(k) => v.Number? && 0 <= v.n < Pow256(k)
    case Signed(k) => v.Number? && -(Pow256(k) as int) <= 2 * v.n < Pow256(k)
    case Float => v.Real32? && |v.raw| == 4
    case Text(_) => v.Chars?
  }

  function PackField(t: FieldType, v: Value): (s: seq<byte>)
    requires Fits(t, v)
    ensures |s| == Size(t)
  {
    match t
    case Unsigned(k) => LittleEndian(v.n, k)
    case Signed(k) => LittleEndian(if v.n < 0 then v.n + Pow256(k) else v.n, k)
    case Float => v.raw
    case Text(k) => UpTo(v.chars, k) + Zeros(k - |UpTo(v.chars, k)|)
  }

  function UnpackField(t: FieldType, s: seq<byte>): Value
    requires |s| == Size(t)
  {
    match t
    case Unsigned(k) => Number(FromLittleEndian(s))
    case Signed(k) =>
      var n := FromLittleEndian(s);
      Number(if 2 * n >= Pow256(k) then n - Pow256(k) else n)
    case Float => Real32(s)
    case Text(_) => Chars(s)
  }

  /** A NUL-terminated string ends before its first NUL. */
  function CutAtNul(s: seq<byte>): seq<byte> {
    if s == [] || s[0] == 0 then [] else [s[0]] + CutAtNul(s[1..])
  }

  /** A received value as the reader sees it. */
  function Shown(v: Value): Value {
    if v.Chars? then Chars(CutAtNul(v.chars)) else v
  }

  /** What of a sent value can arrive: strings are cut to size and at a NUL. */
  function Canonical(t: FieldType, v: Value): Value {
    if t.Text? && v.Chars? then Chars(CutAtNul(UpTo(v.chars, t.size))) else v
  }

  lemma {:induction false} LittleEndianRoundTrip(n: nat, k: nat)
    requires n < Pow256(k)
    ensures FromLittleEndian(LittleEndian(n, k)) == n
    decreases k
  {
    if k > 0 {
      LittleEndianRoundTrip(n / 256, k - 1);
      assert LittleEndian(n, k)[1..] == LittleEndian(n / 256, k - 1);
    }
  }

  lemma {:induction false} CutAtPadding(s: seq<byte>, n: nat)
    ensures CutAtNul(s + Zeros(n)) == CutAtNul(s)
    decreases |s|
  {
    var all := s + Zeros(n);
    if s == [] {
      assert all == Zeros(n);
    } else {
      assert all[0] == s[0] && all[1..] == s[1..] + Zeros(n);
      CutAtPadding(s[1..], n);
    }
  }

  /** Unpacking undoes packing, up to what a fixed-size NUL-terminated string can carry. */
  lemma FieldRoundTrip(t: FieldType, v: Value)
    requires Fits(t, v)
    ensures Shown(UnpackField(t, PackField(t, v))) == Canonical(t, v)
  {
    match t
    case Unsigned(k) => LittleEndianRoundTrip(v.n, k);
    case Signed(k) => LittleEndianRoundTrip(if v.n < 0 then v.n + Pow256(k) else v.n, k);
    case Float =>
    case Text(k) => CutAtPadding(UpTo(v.chars, k), k - |UpTo(v.chars, k)|);
  }

  lemma {:induction false} CutAtNulIdentity(s: seq<byte>)
    ensures CutAtNul(s) == s <==> 0 !in s
    decreases |s|
  {
    if s != [] {
      CutAtNulIdentity(s[1..]);
      assert s == [s[0]] + s[1..];
      if s[0] != 0 {
        assert CutAtNul(s)[1..] == CutAtNul(s[1..]);
      }
    }
  }

  lemma {:induction false} CutAtNulShorter(s: seq<byte>)
    ensures |CutAtNul(s)| <= |s|
    decreases |s|
  {
    if s != [] && s[0] != 0 {
      CutAtNulShorter(s[1..]);
    }
  }

  /** A value arrives unchanged exactly if it is no string, or one without NUL that fits. */
  lemma CanonicalIdentity(t: FieldType, v: Value)
    requires Fits(t, v)
    ensures Canonical(t, v) == v <==> (t.Text? ==> |v.chars| <= t.size && 0 !in v.chars)
  {
    if t.Text? {
      CutAtNulIdentity(v.chars);
      CutAtNulShorter(UpTo(v.chars, t.size));
      assert |v.chars| <= t.size ==> UpTo(v.chars, t.size) == v.chars;
    }
  }

  // ----- payloads

  function PayloadSize(fmt: seq<FieldType>): nat {
    if fmt == [] then 0 else Size(fmt[0]) + PayloadSize(fmt[1..])
  }

  predicate AllFit(fmt: seq<FieldType>, vs: seq<Value>) {
    |fmt| == |vs| && forall j :: 0 <= j < |fmt| ==> Fits(fmt[j], vs[j])
  }

  function PackAll(fmt: seq<FieldType>, vs: seq<Value>): (s: seq<byte>)
    requires AllFit(fmt, vs)
    ensures |s| == PayloadSize(fmt)
  {
    if fmt == [] then [] else PackField(fmt[0], vs[0]) + PackAll(fmt[1..], vs[1..])
  }

  function UnpackAll(fmt: seq<FieldType>, s: seq<byte>): (vs: seq<Value>)
    requires |s| == PayloadSize(fmt)
    ensures |vs| == |fmt|
  {
    if fmt == [] then []
    else [UnpackField(fmt[0], s[..Size(fmt[0])])] + UnpackAll(fmt[1..], s[Size(fmt[0])..])
  }

  function ShownAll(vs: seq<Value>): (r: seq<Value>)
    ensures |r| == |vs|
  {
    seq(|vs|, i requires 0 <= i < |vs| => Shown(vs[i]))
  }

  function CanonicalAll(fmt: seq<FieldType>, vs: seq<Value>): (r: seq<Value>)
    requires |fmt| == |vs|
    ensures |r| == |vs|
  {
    seq(|vs|, i requires 0 <= i < |vs| => Canonical(fmt[i], vs[i]))
  }

  lemma {:induction false} PayloadRoundTrip(fmt: seq<FieldType>, vs: seq<Value>)
    requires AllFit(fmt, vs)
    ensures ShownAll(UnpackAll(fmt, PackAll(fmt, vs))) == CanonicalAll(fmt, vs)
    decreases |fmt|
  {
    if fmt != [] {
      var head, tail := PackField(fmt[0], vs[0]), PackAll(fmt[1..], vs[1..]);
      var s := head + tail;
      assert s[..Size(fmt[0])] == head && s[Size(fmt[0])..] == tail;
      FieldRoundTrip(fmt[0], vs[0]);
      PayloadRoundTrip(fmt[1..], vs[1..]);
      var got := UnpackAll(fmt, s);
      assert ShownAll(got) == [Shown(got[0])] + ShownAll(got[1..]);
      assert CanonicalAll(fmt, vs) == [Canonical(fmt[0], vs[0])] + CanonicalAll(fmt[1..], vs[1..]);
    }
  }

  // ----- message types

  type Crc16 = c: nat | c < 0x1_0000

  /**
   * One row of the message map. `orderMap[i]` is where field `i` sits in the payload; `wire[j]` is the field
   * that the message class packs in place `j`.
   */
  datatype Schema = Schema(fmt: seq<FieldType>, orderMap: seq<nat>, wire: seq<nat>, crcExtra: byte)

  /** The message map and the checksum's start value and update. */
  datatype Dialect = Dialect(schemas: map<byte, Schema>, init: Crc16, update: (Crc16, byte) -> Crc16)

  datatype Msg = Msg(id: byte, seqNo: byte, system: byte, component: byte, values: seq<Value>)

  function Arrange(order: seq<nat>, vs: seq<Value>): (r: seq<Value>)
    requires forall i :: 0 <= i < |order| ==> order[i] < |vs|
    ensures |r| == |order|
  {
    seq(|order|, i requires 0 <= i < |order| => vs[order[i]])
  }

  /** The order map undoes the pack order. */
  predicate Inverts(sch: Schema) {
    && |sch.fmt| == |sch.orderMap| == |sch.wire|
    && (forall i :: 0 <= i < |sch.orderMap| ==> sch.orderMap[i] < |sch.wire| && sch.wire[sch.orderMap[i]] == i)
    && (forall j :: 0 <= j < |sch.wire| ==> sch.wire[j] < |sch.orderMap|)
  }

  /** `order_map[i]` exists for every payload value and names one of them; otherwise decoding raises IndexError. */
  predicate OrderFits(sch: Schema) {
    && |sch.fmt| <= |sch.orderMap|
    && forall i :: 0 <= i < |sch.fmt| ==> sch.orderMap[i] < |sch.fmt|
  }

  // ----- checksum

  function Checksum(d: Dialect, s: seq<byte>, c: Crc16): Crc16
    decreases |s|
  {
    if s == [] then c else Checksum(d, s[1..], d.update(c, s[0]))
  }

  /** The checksum over everything but the prefix, with the message type's extra byte at the end. */
  function FrameCrc(d: Dialect, body: seq<byte>, extra: byte): Crc16 {
    Checksum(d, body + [extra], d.init)
  }

  function CrcBytes(c: Crc16): (s: seq<byte>)
    ensures |s| == 2
  {
    [(c % 256) as byte, (c / 256) as byte]
  }

  // ----- sending

  /** What `pack` accepts: one value for each format code, all in range, and a payload that the length byte can count. */
  predicate Packs(sch: Schema, vs: seq<Value>) {
    && (forall j :: 0 <= j < |sch.wire| ==> sch.wire[j] < |vs|)
    && AllFit(sch.fmt, Arrange(sch.wire, vs))
    && PayloadSize(sch.fmt) < 256
  }

  /** What can be sent and received again: the order map has to undo the pack order. */
  predicate Sendable(sch: Schema, vs: seq<Value>) {
    Packs(sch, vs) && Inverts(sch) && |vs| == |sch.wire|
  }

  function Payload(sch: Schema, vs: seq<Value>): seq<byte>
    requires Packs(sch, vs)
  {
    PackAll(sch.fmt, Arrange(sch.wire, vs))
  }

  function Body(sch: Schema, m: Msg): seq<byte>
    requires Packs(sch, m.values)
  {
    [PayloadSize(sch.fmt) as byte, m.seqNo, m.system, m.component, m.id] + Payload(sch, m.values)
  }

  /** Prefix, body and checksum. */
  function Framed(d: Dialect, body: seq<byte>, extra: byte): seq<byte> {
    [PREFIX] + body + CrcBytes(FrameCrc(d, body, extra))
  }

  function Frame(d: Dialect, m: Msg): (frame: seq<byte>)
    requires m.id in d.schemas && Packs(d.schemas[m.id], m.values)
  {
    Framed(d, Body(d.schemas[m.id], m), d.schemas[m.id].crcExtra)
  }

  // ----- receiving

  datatype Decoded = Message(m: Msg) | MavError | IndexError

  /** The checks before the field values are put in order. */
  predicate Passes(d: Dialect, raw: seq<byte>) {
    && |raw| >= 8
    && raw[0] == PREFIX
    && raw[1] as nat == |raw| - 8
    && raw[5] in d.schemas
    && var sch := d.schemas[raw[5]];
    && raw[|raw| - 2..] == CrcBytes(FrameCrc(d, raw[1..|raw| - 2], sch.crcExtra))
    && |raw| - 8 == PayloadSize(sch.fmt)
  }

  function Decode(d: Dialect, raw: seq<byte>): Decoded {
    if !Passes(d, raw) then MavError
    else
      var sch := d.schemas[raw[5]];
      if !OrderFits(sch) then IndexError
      else if |sch.orderMap| != |sch.fmt| then MavError
      else
        var t := UnpackAll(sch.fmt, raw[6..|raw| - 2]);
        Message(Msg(raw[5], raw[2], raw[3], raw[4], ShownAll(Arrange(sch.orderMap, t))))
  }

  /** The loop that puts payload values into field order, in place; `raised` is an index out of range. */
  method Reorder(t: seq<Value>, orderMap: seq<nat>) returns (raised: bool, tlist: seq<Value>)
    ensures raised <==> !(|t| <= |orderMap| && forall i :: 0 <= i < |t| ==> orderMap[i] < |t|)
    ensures !raised ==> tlist == Arrange(orderMap[..|t|], t)
  {
    tlist := t;
    for i := 0 to |t|
      invariant |tlist| == |t| && i <= |orderMap|
      invariant forall k :: 0 <= k < i ==> orderMap[k] < |t| && tlist[k] == t[orderMap[k]]
    {
      if i >= |orderMap| || orderMap[i] >= |t| {
        return true, tlist;
      }
      tlist := tlist[i := t[orderMap[i]]];
    }
    return false, tlist;
  }

  /** The loop that turns byte strings into NUL-terminated ones, in place. */
  method TerminateStrings(t: seq<Value>) returns (tlist: seq<Value>)
    ensures tlist == ShownAll(t)
  {
    tlist := t;
    for i := 0 to |t|
      invariant |tlist| == |t|
      invariant forall k :: 0 <= k < i ==> tlist[k] == Shown(t[k])
      invariant forall k :: i <= k < |t| ==> tlist[k] == t[k]
    {
      if tlist[i].Chars? {
        tlist := tlist[i := Shown(tlist[i])];
      }
    }
  }

  method DecodeMessage(d: Dialect, raw: seq<byte>) returns (r: Decoded)
    ensures r == Decode(d, raw)
  {
    if !Passes(d, raw) {
      return MavError;
    }
    var sch := d.schemas[raw[5]];
    var raised, tlist := Reorder(UnpackAll(sch.fmt, raw[6..|raw| - 2]), sch.orderMap);
    if raised {
      return IndexError;
    }
    tlist := TerminateStrings(tlist);
    if |tlist| != |sch.orderMap| {
      return MavError; // the message class does not take that many fields
    }
    assert sch.orderMap[..|tlist|] == sch.orderMap;
    return Message(Msg(raw[5], raw[2], raw[3], raw[4], tlist));
  }

  // ----- frames that make decoding raise

  /** A frame of the given type with an all-zero payload and the right checksum. */
  function ZeroFrame(d: Dialect, id: byte): seq<byte>
    requires id in d.schemas && PayloadSize(d.schemas[id].fmt) < 256
  {
    var n := PayloadSize(d.schemas[id].fmt);
    Framed(d, [n as byte, 0, 0, 0, id] + Zeros(n), d.schemas[id].crcExtra)
  }

  lemma ZeroFramePasses(d: Dialect, id: byte)
    requires id in d.schemas && PayloadSize(d.schemas[id].fmt) < 256
    ensures Passes(d, ZeroFrame(d, id)) && ZeroFrame(d, id)[5] == id
  {
    var n := PayloadSize(d.schemas[id].fmt);
    var body := [n as byte, 0, 0, 0, id] + Zeros(n);
    var raw := ZeroFrame(d, id);
    assert raw[1..|raw| - 2] == body;
  }

  /** Every type whose payload fits a frame has an order map that fits its format. */
  ghost predicate Sound(d: Dialect) {
    forall id :: id in d.schemas && PayloadSize(d.schemas[id].fmt) < 256 ==> OrderFits(d.schemas[id])
  }

  /** Decoding never raises an IndexError, which robust parsing does not catch, if and only if all order maps fit. */
  lemma SoundExactly(d: Dialect)
    ensures Sound(d) <==> forall raw :: Decode(d, raw) != IndexError
  {
    if forall raw :: Decode(d, raw) != IndexError {
      forall id | id in d.schemas && PayloadSize(d.schemas[id].fmt) < 256
        ensures OrderFits(d.schemas[id])
      {
        ZeroFramePasses(d, id);
        assert Decode(d, ZeroFrame(d, id)) != IndexError;
      }
    }
  }

  // ----- decoding undoes framing

  lemma FrameParts(d: Dialect, m: Msg)
    requires m.id in d.schemas && Packs(d.schemas[m.id], m.values)
    ensures var frame, sch := Frame(d, m), d.schemas[m.id];
      && |frame| == PayloadSize(sch.fmt) + 8
      && frame[0] == PREFIX && frame[1] as nat == PayloadSize(sch.fmt)
      && frame[2] == m.seqNo && frame[3] == m.system && frame[4] == m.component && frame[5] == m.id
      && frame[1..|frame| - 2] == Body(sch, m)
      && frame[6..|frame| - 2] == Payload(sch, m.values)
      && frame[|frame| - 2..] == CrcBytes(FrameCrc(d, Body(sch, m), sch.crcExtra))
  {
    var sch := d.schemas[m.id];
    var body := Body(sch, m);
    assert body[5..] == Payload(sch, m.values);
    assert Frame(d, m)[6..|Frame(d, m)| - 2] == body[5..];
  }

  lemma {:induction false} ArrangeCanonical(sch: Schema, vs: seq<Value>, t: seq<Value>)
    requires Sendable(sch, vs) && |t| == |sch.fmt|
    requires ShownAll(t) == CanonicalAll(sch.fmt, Arrange(sch.wire, vs))
    ensures ShownAll(Arrange(sch.orderMap, t)) == Received(sch, vs)
  {
    forall i | 0 <= i < |vs|
      ensures ShownAll(Arrange(sch.orderMap, t))[i] == Received(sch, vs)[i]
    {
      var j := sch.orderMap[i];
      assert Shown(t[j]) == ShownAll(t)[j] == Canonical(sch.fmt[j], Arrange(sch.wire, vs)[j]);
    }
  }

  /** The field values as the receiver sees them. */
  function Received(sch: Schema, vs: seq<Value>): seq<Value>
    requires Sendable(sch, vs)
  {
    seq(|vs|, i requires 0 <= i < |vs| => Canonical(sch.fmt[sch.orderMap[i]], vs[i]))
  }

  /** Decoding a packed frame gives back header and fields. */
  lemma DecodeFrame(d: Dialect, m: Msg)
    requires m.id in d.schemas && Sendable(d.schemas[m.id], m.values)
    ensures Decode(d, Frame(d, m)) == Message(m.(values := Received(d.schemas[m.id], m.values)))
  {
    var frame, sch := Frame(d, m), d.schemas[m.id];
    FrameParts(d, m);
    assert Passes(d, frame);
    PayloadRoundTrip(sch.fmt, Arrange(sch.wire, m.values));
    ArrangeCanonical(sch, m.values, UnpackAll(sch.fmt, Payload(sch, m.values)));
  }
}
