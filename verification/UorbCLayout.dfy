/** The struct a C compiler makes of a padded uORB message, compared with the computed layout. */
module UorbCLayout {
  import opened UorbLayout

  function RoundUp(pos: nat, align: nat): nat
    requires align > 0
  {
    (pos + align - 1) / align * align
  }

  // ----- nesting depth, for termination

  function Max(a: nat, b: nat): nat {
    if a > b then a else b
  }

  function FieldDepth(f: Field): nat
    decreases f, 1
  {
    match f.fieldType
    case Builtin(_) => 0
    case Embedded(children) => 1 + Depth(children)
  }

  function Depth(fields: seq<Field>): nat
    decreases fields, 0
  {
    if fields == [] then 0 else Max(FieldDepth(fields[0]), Depth(fields[1..]))
  }

  lemma {:induction false} DepthConcat(a: seq<Field>, b: seq<Field>)
    ensures Depth(a + b) == Max(Depth(a), Depth(b))
    decreases |a|
  {
    if a == [] {
      assert a + b == b;
    } else {
      assert (a + b)[1..] == a[1..] + b;
      DepthConcat(a[1..], b);
    }
  }

  lemma DepthCons(f: Field, rest: seq<Field>)
    ensures Depth([f] + rest) == Max(FieldDepth(f), Depth(rest))
  {
    assert ([f] + rest)[1..] == rest;
  }

  lemma DepthPads(f: Field, pos: nat, index: nat, fields: seq<Field>)
    ensures Depth(PadsBefore(f, pos, index) + fields) == Depth(fields)
  {
    if PadsBefore(f, pos, index) == [] {
      assert [] + fields == fields;
    } else {
      DepthCons(Pad(index, Gap(pos)), fields);
    }
  }

  lemma {:induction false} DepthInsert(fields: seq<Field>, pos: nat, index: nat)
    ensures Depth(Insert(fields, pos, index)) == Depth(fields)
    decreases |fields|
  {
    if fields != [] {
      var f, rest, index' := fields[0], fields[1..], index + |PadsBefore(fields[0], pos, index)|;
      var tail := Insert(rest, Behind(f, pos), index');
      DepthInsert(rest, Behind(f, pos), index');
      assert fields == [f] + rest;
      InsertCons(f, rest, pos, index);
      DepthPads(f, pos, index, [f] + tail);
      DepthCons(f, tail);
    }
  }

  lemma DepthPadded(fields: seq<Field>)
    ensures Depth(Padded(fields)) == Depth(fields)
  {
    DepthInsert(fields, 0, 0);
    DepthConcat(Insert(fields, 0, 0), EndPad(fields));
    if EndPad(fields) != [] {
      assert EndPad(fields)[1..] == [];
    }
  }

  // ----- the compiler

  /** Natural alignment: of a built-in its size, of a struct the largest of its fields. */
  function Align(f: Field): (a: nat)
    ensures a >= 1
    decreases f, 1
  {
    match f.fieldType
    case Builtin(size) => if size == 0 then 1 else size
    case Embedded(children) => MaxAlign(children)
  }

  function MaxAlign(fields: seq<Field>): (a: nat)
    ensures a >= 1
    decreases fields, 0
  {
    if fields == [] then 1 else Max(Align(fields[0]), MaxAlign(fields[1..]))
  }

  /** Size of one element; an embedded struct is the padded struct that its own message type was made into. */
  function CElementSize(f: Field): nat
    decreases FieldDepth(f), 2, 0
  {
    match f.fieldType
    case Builtin(size) => size
    case Embedded(children) => CStruct(children)
  }

  /** Where the compiler is behind `fields`: each one is first moved up to its alignment. */
  function CEnd(fields: seq<Field>, pos: nat): nat
    decreases Depth(fields), 3, |fields|
  {
    if fields == [] then pos
    else CEnd(fields[1..], RoundUp(pos, Align(fields[0])) + CElementSize(fields[0]) * fields[0].count)
  }

  /** The compiler's size of the struct printed for `fields`. */
  function CStruct(fields: seq<Field>): nat
    decreases Depth(fields), 4, 0
  {
    DepthPadded(fields);
    RoundUp(CEnd(Padded(fields), 0), MaxAlign(Padded(fields)))
  }

  // ----- sorted input

  predicate PowerUpTo8(a: nat) {
    a == 1 || a == 2 || a == 4 || a == 8
  }

  /**
   * Sorted the way the generator sorts, at every level: built-ins by descending size, then embedded types.
   * `cap` bounds the first size; headers do not occur.
   */
  predicate Sorted(fields: seq<Field>, cap: nat)
    decreases fields, 0
  {
    fields == [] ||
      (match fields[0].fieldType
       case Builtin(size) => SortedField(fields[0]) && size <= cap && Sorted(fields[1..], size)
       case Embedded(_) => SortedField(fields[0]) && EmbeddedOnly(fields[1..]))
  }

  predicate EmbeddedOnly(fields: seq<Field>)
    decreases fields, 0
  {
    fields == [] || (fields[0].fieldType.Embedded? && SortedField(fields[0]) && EmbeddedOnly(fields[1..]))
  }

  predicate SortedField(f: Field)
    decreases f, 1
  {
    !f.isHeader &&
    match f.fieldType
    case Builtin(size) => PowerUpTo8(size)
    case Embedded(children) => Sorted(children, 8)
  }

  /** From `pos` on, every field already sits at its alignment: the compiler inserts nothing. */
  predicate AllAligned(fields: seq<Field>, pos: nat) {
    fields == [] ||
      (pos % Align(fields[0]) == 0 && AllAligned(fields[1..], pos + FieldBytes(fields[0])))
  }

  // ----- arithmetic of alignments

  lemma MaxPower(a: nat, b: nat)
    requires PowerUpTo8(a) && PowerUpTo8(b)
    ensures PowerUpTo8(Max(a, b))
  {
  }

  lemma Divides8(pos: nat, a: nat)
    requires PowerUpTo8(a) && pos % 8 == 0
    ensures pos % a == 0
  {
    SmallerPower(pos, 8, a);
  }

  lemma RoundUpAligned(pos: nat, a: nat)
    requires PowerUpTo8(a) && pos % a == 0
    ensures RoundUp(pos, a) == pos
  {
  }

  lemma BehindTwos(pos: nat, count: nat)
    requires pos % 2 == 0
    ensures (pos + 2 * count) % 2 == 0
  {
  }

  lemma BehindFours(pos: nat, count: nat)
    requires pos % 4 == 0
    ensures (pos + 4 * count) % 4 == 0
  {
  }

  lemma BehindEights(pos: nat, count: nat)
    requires pos % 8 == 0
    ensures (pos + 8 * count) % 8 == 0
  {
  }

  /** Behind whole elements of one power of two, every smaller power of two is aligned. */
  lemma BehindElements(pos: nat, size: nat, count: nat)
    requires PowerUpTo8(size) && pos % size == 0
    ensures (pos + size * count) % size == 0
  {
    if size == 2 {
      BehindTwos(pos, count);
    } else if size == 4 {
      BehindFours(pos, count);
    } else if size == 8 {
      BehindEights(pos, count);
    }
  }

  lemma SmallerPower(pos: nat, cap: nat, size: nat)
    requires PowerUpTo8(cap) && PowerUpTo8(size) && size <= cap && pos % cap == 0
    ensures pos % size == 0
  {
    if cap == 8 {
      EightDivides(pos);
    }
    if cap >= 4 && size <= 2 {
      FourDivides(pos);
    }
  }

  lemma Multiple2(k: nat)
    ensures (2 * k) % 2 == 0
  {
  }

  lemma Multiple4(k: nat)
    ensures (4 * k) % 4 == 0
  {
  }

  lemma EightDivides(pos: nat)
    requires pos % 8 == 0
    ensures pos % 4 == 0
  {
    var k := pos / 8;
    assert pos == 4 * (2 * k) + pos % 8;
    Multiple4(2 * k);
  }

  lemma FourDivides(pos: nat)
    requires pos % 4 == 0
    ensures pos % 2 == 0
  {
    var k := pos / 4;
    assert pos == 2 * (2 * k) + pos % 4;
    Multiple2(2 * k);
  }

  lemma {:induction false} CEndConcat(a: seq<Field>, b: seq<Field>, pos: nat)
    ensures CEnd(a + b, pos) == CEnd(b, CEnd(a, pos))
    decreases |a|
  {
    if a == [] {
      assert a + b == b;
    } else {
      assert (a + b)[1..] == a[1..] + b;
      CEndConcat(a[1..], b, RoundUp(pos, Align(a[0])) + CElementSize(a[0]) * a[0].count);
    }
  }

  // ----- the layouts agree

  /** The compiler's size and alignment of a sorted field. */
  lemma {:induction false} FieldAgrees(f: Field)
    requires SortedField(f)
    ensures PowerUpTo8(Align(f)) && CElementSize(f) == ElementSize(f)
    decreases f, 1
  {
    match f.fieldType
    case Builtin(_) =>
    case Embedded(children) => StructAgrees(children);
  }

  /** Placing a sorted field that is already aligned. */
  lemma PlaceAligned(f: Field, rest: seq<Field>, pos: nat)
    requires SortedField(f) && PowerUpTo8(Align(f)) && CElementSize(f) == ElementSize(f) && pos % Align(f) == 0
    ensures CEnd([f] + rest, pos) == CEnd(rest, pos + FieldBytes(f))
    ensures AllAligned([f] + rest, pos) <==> AllAligned(rest, pos + FieldBytes(f))
  {
    assert ([f] + rest)[1..] == rest;
    RoundUpAligned(pos, Align(f));
  }

  lemma PlacePad(index: nat, bytes: nat, rest: seq<Field>, pos: nat)
    ensures CEnd([Pad(index, bytes)] + rest, pos) == CEnd(rest, pos + bytes)
    ensures AllAligned([Pad(index, bytes)] + rest, pos) <==> AllAligned(rest, pos + bytes)
  {
    PlaceAligned(Pad(index, bytes), rest, pos);
  }

  /** An embedded field, with its padding. */
  lemma PlaceEmbedded(f: Field, rest: seq<Field>, pos: nat, index: nat)
    requires SortedField(f) && f.fieldType.Embedded? && PowerUpTo8(Align(f)) && CElementSize(f) == ElementSize(f)
    ensures var all := PadsBefore(f, pos, index) + ([f] + rest);
      && CEnd(all, pos) == CEnd(rest, Behind(f, pos))
      && (AllAligned(all, pos) <==> AllAligned(rest, Behind(f, pos)))
  {
    Divides8(pos + Gap(pos), Align(f));
    PlaceAligned(f, rest, pos + Gap(pos));
    if Gap(pos) > 0 {
      PlacePad(index, Gap(pos), [f] + rest, pos);
    } else {
      assert [] + ([f] + rest) == [f] + rest;
    }
  }

  lemma {:induction false} EmbeddedAgree(fields: seq<Field>, pos: nat, index: nat)
    requires EmbeddedOnly(fields)
    ensures AllAligned(Insert(fields, pos, index), pos)
    ensures CEnd(Insert(fields, pos, index), pos) == End(fields, pos)
    decreases fields, 0
  {
    if fields != [] {
      var f, rest, index' := fields[0], fields[1..], index + |PadsBefore(fields[0], pos, index)|;
      FieldAgrees(f);
      EmbeddedAgree(rest, Behind(f, pos), index');
      assert fields == [f] + rest;
      InsertCons(f, rest, pos, index);
      EndCons(f, rest, pos);
      PlaceEmbedded(f, Insert(rest, Behind(f, pos), index'), pos, index);
    }
  }

  lemma {:induction false} SortedAgree(fields: seq<Field>, cap: nat, pos: nat, index: nat)
    requires Sorted(fields, cap) && PowerUpTo8(cap) && pos % cap == 0
    ensures AllAligned(Insert(fields, pos, index), pos)
    ensures CEnd(Insert(fields, pos, index), pos) == End(fields, pos)
    decreases fields, 1
  {
    if fields != [] {
      var f, rest := fields[0], fields[1..];
      match f.fieldType
      case Builtin(size) =>
        SmallerPower(pos, cap, size);
        BehindElements(pos, size, f.count);
        SortedAgree(rest, size, pos + FieldBytes(f), index);
        PlaceAligned(f, Insert(rest, pos + FieldBytes(f), index), pos);
      case Embedded(_) =>
        EmbeddedAgree(fields, pos, index);
    }
  }

  lemma {:induction false} SortedMaxAlign(fields: seq<Field>, cap: nat)
    requires Sorted(fields, cap) || EmbeddedOnly(fields)
    ensures PowerUpTo8(MaxAlign(fields))
    decreases fields, 0
  {
    if fields != [] {
      FieldPower(fields[0]);
      SortedMaxAlign(fields[1..], if fields[0].fieldType.Builtin? then fields[0].fieldType.size else cap);
      MaxPower(Align(fields[0]), MaxAlign(fields[1..]));
    }
  }

  lemma {:induction false} FieldPower(f: Field)
    requires SortedField(f)
    ensures PowerUpTo8(Align(f))
    decreases f, 1
  {
    match f.fieldType
    case Builtin(_) =>
    case Embedded(children) => SortedMaxAlign(children, 8);
  }

  lemma {:induction false} MaxAlignConcat(a: seq<Field>, b: seq<Field>)
    ensures MaxAlign(a + b) == Max(MaxAlign(a), MaxAlign(b))
    decreases |a|
  {
    if a == [] {
      assert a + b == b;
    } else {
      assert (a + b)[1..] == a[1..] + b;
      MaxAlignConcat(a[1..], b);
    }
  }

  lemma MaxAlignCons(f: Field, rest: seq<Field>)
    ensures MaxAlign([f] + rest) == Max(Align(f), MaxAlign(rest))
  {
    assert ([f] + rest)[1..] == rest;
  }

  lemma MaxAlignPads(f: Field, pos: nat, index: nat, fields: seq<Field>)
    ensures MaxAlign(PadsBefore(f, pos, index) + fields) == MaxAlign(fields)
  {
    if PadsBefore(f, pos, index) == [] {
      assert [] + fields == fields;
    } else {
      MaxAlignCons(Pad(index, Gap(pos)), fields);
    }
  }

  lemma {:induction false} MaxAlignInsert(fields: seq<Field>, pos: nat, index: nat)
    ensures MaxAlign(Insert(fields, pos, index)) == MaxAlign(fields)
    decreases |fields|
  {
    if fields != [] {
      var f, rest, index' := fields[0], fields[1..], index + |PadsBefore(fields[0], pos, index)|;
      var tail := Insert(rest, Behind(f, pos), index');
      MaxAlignInsert(rest, Behind(f, pos), index');
      assert fields == [f] + rest;
      InsertCons(f, rest, pos, index);
      MaxAlignPads(f, pos, index, [f] + tail);
      MaxAlignCons(f, tail);
    }
  }

  lemma MaxAlignPadded(fields: seq<Field>)
    ensures MaxAlign(Padded(fields)) == MaxAlign(fields)
  {
    MaxAlignInsert(fields, 0, 0);
    MaxAlignConcat(Insert(fields, 0, 0), EndPad(fields));
    if EndPad(fields) != [] {
      assert EndPad(fields)[1..] == [];
    }
  }

  /** For input sorted at every level, compiler and generator agree on the size of the struct. */
  lemma {:induction false} StructAgrees(fields: seq<Field>)
    requires Sorted(fields, 8)
    ensures CStruct(fields) == StructSize(fields)
    ensures PowerUpTo8(MaxAlign(fields))
    decreases fields, 2
  {
    SortedAgree(fields, 8, 0, 0);
    SortedMaxAlign(fields, 8);
    MaxAlignPadded(fields);
    CEndConcat(Insert(fields, 0, 0), EndPad(fields), 0);
    var e := End(fields, 0);
    if Gap(e) > 0 {
      PlacePad(Inserted(fields, 0), Gap(e), [], e);
      assert [Pad(Inserted(fields, 0), Gap(e))] + [] == EndPad(fields);
    }
    Divides8(StructSize(fields), MaxAlign(fields));
    RoundUpAligned(StructSize(fields), MaxAlign(fields));
  }

  lemma {:induction false} AllAlignedConcat(a: seq<Field>, b: seq<Field>, pos: nat)
    requires AllAligned(a, pos) && AllAligned(b, pos + Total(a))
    ensures AllAligned(a + b, pos)
    decreases |a|
  {
    if a == [] {
      assert a + b == b;
    } else {
      assert (a + b)[1..] == a[1..] + b;
      AllAlignedConcat(a[1..], b, pos + FieldBytes(a[0]));
    }
  }

  /** The compiler adds no padding of its own: every printed field sits where the packed offsets put it. */
  lemma NoImplicitPadding(fields: seq<Field>)
    requires Sorted(fields, 8)
    ensures AllAligned(Padded(fields), 0)
    ensures CEnd(Padded(fields), 0) == Total(Padded(fields)) == StructSize(fields)
  {
    SortedAgree(fields, 8, 0, 0);
    InsertTotal(fields, 0, 0);
    SizeIsTotal(fields);
    AllAlignedConcat(Insert(fields, 0, 0), EndPad(fields), 0);
    CEndConcat(Insert(fields, 0, 0), EndPad(fields), 0);
    var e := End(fields, 0);
    if Gap(e) > 0 {
      PlacePad(Inserted(fields, 0), Gap(e), [], e);
      assert [Pad(Inserted(fields, 0), Gap(e))] + [] == EndPad(fields);
    }
  }
}
