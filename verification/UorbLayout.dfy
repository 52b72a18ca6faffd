/** Padding of uORB message structs. */
module UorbLayout {
  import Bytes

  /** A field's name: the message author's, or the n-th inserted padding. */
  datatype Name = User(text: string) | Padding(index: nat)

  datatype FieldType = Builtin(size: nat) | Embedded(children: seq<Field>)

  /** `count` is the array length, 1 for a plain field. */
  datatype Field = Field(name: Name, isHeader: bool, fieldType: FieldType, count: nat)

  const ALIGN_TO: nat := 8

  /** Bytes missing to the next multiple of 8. */
  function Gap(pos: nat): (g: nat)
    ensures g < 8 && (pos + g) % 8 == 0
  {
    (8 - pos % 8) % 8
  }

  function Pad(index: nat, bytes: nat): Field {
    Field(Padding(index), false, Builtin(1), bytes)
  }

  // ----- sizes

  /** Bytes of one element of a field; an embedded struct counts with its own padding. */
  function ElementSize(f: Field): nat
    decreases f, 1
  {
    match f.fieldType
    case Builtin(size) => size
    case Embedded(children) => StructSize(children)
  }

  function FieldBytes(f: Field): nat
    decreases f, 2
  {
    if f.isHeader then 0 else ElementSize(f) * f.count
  }

  predicate IsEmbedded(f: Field) {
    !f.isHeader && f.fieldType.Embedded?
  }

  /** The running size behind `fields` if it was `pos` before them. */
  function End(fields: seq<Field>, pos: nat): nat
    decreases fields, 3
  {
    if fields == [] then pos
    else
      var f := fields[0];
      End(fields[1..], (if IsEmbedded(f) then pos + Gap(pos) else pos) + FieldBytes(f))
  }

  function StructSize(fields: seq<Field>): (size: nat)
    ensures size % 8 == 0
    decreases fields, 4
  {
    var e := End(fields, 0);
    e + Gap(e)
  }

  // ----- the padded list

  /** `fields` with padding before embedded types, for running size `pos` and next padding number `index`. */
  function Insert(fields: seq<Field>, pos: nat, index: nat): seq<Field> {
    if fields == [] then []
    else
      var f := fields[0];
      if IsEmbedded(f) && Gap(pos) > 0 then
        [Pad(index, Gap(pos)), f] + Insert(fields[1..], pos + Gap(pos) + FieldBytes(f), index + 1)
      else
        [f] + Insert(fields[1..], pos + FieldBytes(f), index)
  }

  /** The paddings in front of a field. */
  function PadsBefore(f: Field, pos: nat, index: nat): seq<Field> {
    if IsEmbedded(f) && Gap(pos) > 0 then [Pad(index, Gap(pos))] else []
  }

  function Behind(f: Field, pos: nat): nat {
    (if IsEmbedded(f) then pos + Gap(pos) else pos) + FieldBytes(f)
  }

  /** `Insert` at one field, with or without padding before it. */
  lemma InsertCons(f: Field, rest: seq<Field>, pos: nat, index: nat)
    ensures var pads := PadsBefore(f, pos, index);
      Insert([f] + rest, pos, index) == pads + ([f] + Insert(rest, Behind(f, pos), index + |pads|))
  {
    assert ([f] + rest)[1..] == rest;
  }

  /** How many paddings `Insert` adds. */
  function Inserted(fields: seq<Field>, pos: nat): nat {
    if fields == [] then 0
    else
      var f := fields[0];
      if IsEmbedded(f) && Gap(pos) > 0 then 1 + Inserted(fields[1..], pos + Gap(pos) + FieldBytes(f))
      else Inserted(fields[1..], pos + FieldBytes(f))
  }

  function EndPad(fields: seq<Field>): seq<Field> {
    var e := End(fields, 0);
    if Gap(e) == 0 then [] else [Pad(Inserted(fields, 0), Gap(e))]
  }

  function Padded(fields: seq<Field>): seq<Field> {
    Insert(fields, 0, 0) + EndPad(fields)
  }

  /** Bytes of one field, with the size of an embedded type computed on a fresh copy of its fields. */
  method MeasureField(f: Field) returns (bytes: nat)
    ensures bytes == FieldBytes(f)
    decreases f, 0
  {
    if f.isHeader {
      return 0;
    }
    match f.fieldType
    case Builtin(size) =>
      bytes := size * f.count;
    case Embedded(children) =>
      var size, _, _ := AddPaddingBytes(children);
      bytes := size * f.count;
  }

  /** `done` is what the walk has made of the first `k` fields; size and padding number are `pos` and `index`. */
  ghost predicate Walked(original: seq<Field>, k: nat, done: seq<Field>, pos: nat, index: nat) {
    && k <= |original|
    && Insert(original, 0, 0) == done + Insert(original[k..], pos, index)
    && End(original, 0) == End(original[k..], pos)
    && Inserted(original, 0) == index + Inserted(original[k..], pos)
  }

  lemma EndCons(f: Field, rest: seq<Field>, pos: nat)
    ensures End([f] + rest, pos) == End(rest, Behind(f, pos))
  {
    assert ([f] + rest)[1..] == rest;
  }

  lemma WalkOn(whole: seq<Field>, done: seq<Field>, f: Field, rest: seq<Field>, pos: nat, index: nat)
    requires whole == done + Insert([f] + rest, pos, index)
    ensures var pads := PadsBefore(f, pos, index);
      whole == done + (pads + [f]) + Insert(rest, Behind(f, pos), index + |pads|)
  {
    var pads := PadsBefore(f, pos, index);
    var tail := Insert(rest, Behind(f, pos), index + |pads|);
    InsertCons(f, rest, pos, index);
    Bytes.Assoc(pads, [f], tail);
    Bytes.Assoc(done, pads + [f], tail);
  }

  lemma InsertedCons(f: Field, rest: seq<Field>, pos: nat, index: nat)
    ensures Inserted([f] + rest, pos) == |PadsBefore(f, pos, index)| + Inserted(rest, Behind(f, pos))
  {
    assert ([f] + rest)[1..] == rest;
  }

  lemma WalkStep(original: seq<Field>, k: nat, done: seq<Field>, pos: nat, index: nat)
    requires Walked(original, k, done, pos, index) && k < |original|
    ensures var f := original[k];
      var pads := PadsBefore(f, pos, index);
      Walked(original, k + 1, done + (pads + [f]), Behind(f, pos), index + |pads|)
  {
    var f, rest := original[k], original[k + 1..];
    assert original[k..] == [f] + rest;
    WalkOn(Insert(original, 0, 0), done, f, rest, pos, index);
    EndCons(f, rest, pos);
    InsertedCons(f, rest, pos, index);
  }

  lemma WalkEnd(original: seq<Field>, done: seq<Field>, pos: nat, index: nat)
    requires Walked(original, |original|, done, pos, index)
    ensures done == Insert(original, 0, 0) && pos == End(original, 0) && index == Inserted(original, 0)
  {
    assert original[|original|..] == [];
  }

  /** The generator computes the missing bytes as a number from 1 to 8, where 8 stands for none. */
  lemma MissingBytes(pos: nat)
    ensures ALIGN_TO - pos % ALIGN_TO == if Gap(pos) == 0 then ALIGN_TO else Gap(pos)
  {
  }

  /** Puts a padding in front of the field at `i` if it is embedded and not aligned. */
  method PadBefore(fields: seq<Field>, i: nat, structSize: nat, paddingIdx: nat)
    returns (fields': seq<Field>, i': nat, structSize': nat, paddingIdx': nat)
    requires i < |fields|
    ensures var pads := PadsBefore(fields[i], structSize, paddingIdx);
      && fields' == fields[..i] + (pads + fields[i..]) && i' == i + |pads| && paddingIdx' == paddingIdx + |pads|
      && structSize' + FieldBytes(fields[i]) == Behind(fields[i], structSize)
  {
    assert fields == fields[..i] + ([] + fields[i..]);
    MissingBytes(structSize);
    fields', i', structSize', paddingIdx' := fields, i, structSize, paddingIdx;
    if IsEmbedded(fields[i]) {
      var numPaddingBytes := ALIGN_TO - structSize % ALIGN_TO;
      if numPaddingBytes != ALIGN_TO {
        fields' := fields[..i] + ([Pad(paddingIdx, numPaddingBytes)] + fields[i..]);
        paddingIdx' := paddingIdx + 1;
        structSize' := structSize + numPaddingBytes;
        i' := i + 1;
      }
    }
  }

  /** Padding at the end, for the benefit of arrays of the struct. */
  method PadAtEnd(fields: seq<Field>, structSize: nat, paddingIdx: nat)
    returns (structSize': nat, numPaddingBytes: nat, fields': seq<Field>)
    ensures structSize' == structSize + Gap(structSize) && numPaddingBytes == Gap(structSize)
    ensures fields' == fields + (if Gap(structSize) == 0 then [] else [Pad(paddingIdx, Gap(structSize))])
  {
    fields', structSize' := fields, structSize;
    MissingBytes(structSize);
    numPaddingBytes := ALIGN_TO - structSize % ALIGN_TO;
    if numPaddingBytes == ALIGN_TO {
      numPaddingBytes := 0;
    } else {
      fields' := fields + [Pad(paddingIdx, numPaddingBytes)];
      structSize' := structSize + numPaddingBytes;
    }
  }

  /** One turn of the walk. */
  method WalkField(fields: seq<Field>, i: nat, structSize: nat, paddingIdx: nat,
                   ghost original: seq<Field>, ghost k: nat, ghost done: seq<Field>)
    returns (fields': seq<Field>, i': nat, structSize': nat, paddingIdx': nat, ghost done': seq<Field>)
    requires Walked(original, k, done, structSize, paddingIdx) && k < |original|
    requires fields == done + original[k..] && i == |done|
    ensures Walked(original, k + 1, done', structSize', paddingIdx')
    ensures fields' == done' + original[k + 1..] && i' == |done'|
    decreases original[k], 1
  {
    var field := fields[i];
    assert field == original[k] && fields[..i] == done && fields[i..] == [field] + original[k + 1..];
    WalkStep(original, k, done, structSize, paddingIdx);
    ghost var pads := PadsBefore(field, structSize, paddingIdx);
    done' := done + (pads + [field]);
    Bytes.Assoc(pads, [field], original[k + 1..]);
    Bytes.Assoc(done, pads + [field], original[k + 1..]);
    fields', i', structSize', paddingIdx' := PadBefore(fields, i, structSize, paddingIdx);
    var bytes := MeasureField(field);
    structSize' := structSize' + bytes;
    i' := i' + 1;
  }

  /** Inserts the paddings into the list while walking it; returns struct size, padding at the end and the list. */
  method AddPaddingBytes(original: seq<Field>) returns (structSize: nat, numPaddingBytes: nat, fields: seq<Field>)
    ensures structSize == StructSize(original)
    ensures numPaddingBytes == Gap(End(original, 0))
    ensures fields == Padded(original)
    decreases original, 1
  {
    fields, structSize := original, 0;
    var i, paddingIdx := 0, 0;
    ghost var k, done: seq<Field> := 0, [];
    while i < |fields|
      invariant Walked(original, k, done, structSize, paddingIdx)
      invariant fields == done + original[k..] && i == |done|
      decreases |original| - k
    {
      fields, i, structSize, paddingIdx, done := WalkField(fields, i, structSize, paddingIdx, original, k, done);
      k := k + 1;
    }
    assert k == |original| && fields == done;
    WalkEnd(original, done, structSize, paddingIdx);
    structSize, numPaddingBytes, fields := PadAtEnd(fields, structSize, paddingIdx);
  }

  // ----- what the padded list looks like

  function Total(fields: seq<Field>): nat {
    if fields == [] then 0 else FieldBytes(fields[0]) + Total(fields[1..])
  }

  predicate IsPad(f: Field) {
    f.name.Padding?
  }

  function Unpadded(fields: seq<Field>): seq<Field> {
    if fields == [] then []
    else (if IsPad(fields[0]) then [] else [fields[0]]) + Unpadded(fields[1..])
  }

  /** Where field `i` starts in the packed list. */
  function Offset(fields: seq<Field>, i: nat): nat
    requires i <= |fields|
  {
    Total(fields[..i])
  }

  lemma {:induction false} TotalConcat(a: seq<Field>, b: seq<Field>)
    ensures Total(a + b) == Total(a) + Total(b)
  {
    if a == [] {
      assert a + b == b;
    } else {
      assert (a + b)[1..] == a[1..] + b;
      TotalConcat(a[1..], b);
    }
  }

  lemma TotalCons(f: Field, rest: seq<Field>)
    ensures Total([f] + rest) == FieldBytes(f) + Total(rest)
  {
    assert ([f] + rest)[1..] == rest;
  }

  lemma PadBytes(index: nat, bytes: nat)
    ensures FieldBytes(Pad(index, bytes)) == bytes
  {
  }

  /** The running size is what the inserted list adds up to. */
  lemma TotalPads(f: Field, pos: nat, index: nat, fields: seq<Field>)
    ensures pos + Total(PadsBefore(f, pos, index) + fields) ==
      (if IsEmbedded(f) then pos + Gap(pos) else pos) + Total(fields)
  {
    if PadsBefore(f, pos, index) == [] {
      assert [] + fields == fields;
    } else {
      PadBytes(index, Gap(pos));
      TotalCons(Pad(index, Gap(pos)), fields);
    }
  }

  lemma {:induction false} InsertTotal(fields: seq<Field>, pos: nat, index: nat)
    ensures pos + Total(Insert(fields, pos, index)) == End(fields, pos)
    decreases |fields|
  {
    if fields != [] {
      var f, rest, index' := fields[0], fields[1..], index + |PadsBefore(fields[0], pos, index)|;
      var tail := Insert(rest, Behind(f, pos), index');
      InsertTotal(rest, Behind(f, pos), index');
      assert fields == [f] + rest;
      InsertCons(f, rest, pos, index);
      EndCons(f, rest, pos);
      TotalPads(f, pos, index, [f] + tail);
      TotalCons(f, tail);
    }
  }

  /** The struct size is a multiple of 8 and the sum of the fields that are printed. */
  lemma SizeIsTotal(fields: seq<Field>)
    ensures StructSize(fields) % 8 == 0 && Total(Padded(fields)) == StructSize(fields)
  {
    InsertTotal(fields, 0, 0);
    TotalConcat(Insert(fields, 0, 0), EndPad(fields));
    var e := End(fields, 0);
    if Gap(e) > 0 {
      PadBytes(Inserted(fields, 0), Gap(e));
      TotalCons(Pad(Inserted(fields, 0), Gap(e)), []);
      assert [Pad(Inserted(fields, 0), Gap(e))] + [] == EndPad(fields);
    }
  }

  /** From position `pos` on, every embedded field starts at a multiple of 8. */
  predicate EmbeddedAligned(fields: seq<Field>, pos: nat) {
    fields == [] ||
      ((IsEmbedded(fields[0]) ==> pos % 8 == 0) && EmbeddedAligned(fields[1..], pos + FieldBytes(fields[0])))
  }

  lemma {:induction false} EmbeddedAlignedConcat(a: seq<Field>, b: seq<Field>, pos: nat)
    requires EmbeddedAligned(a, pos) && EmbeddedAligned(b, pos + Total(a))
    ensures EmbeddedAligned(a + b, pos)
    decreases |a|
  {
    if a == [] {
      assert a + b == b;
    } else {
      assert (a + b)[1..] == a[1..] + b;
      EmbeddedAlignedConcat(a[1..], b, pos + FieldBytes(a[0]));
    }
  }

  lemma {:induction false} EmbeddedAlignedAt(fields: seq<Field>, pos: nat, i: nat)
    requires EmbeddedAligned(fields, pos) && i < |fields| && IsEmbedded(fields[i])
    ensures (pos + Offset(fields, i)) % 8 == 0
    decreases i
  {
    if i > 0 {
      EmbeddedAlignedAt(fields[1..], pos + FieldBytes(fields[0]), i - 1);
      assert fields[..i] == [fields[0]] + fields[1..][..i - 1];
      TotalCons(fields[0], fields[1..][..i - 1]);
    } else {
      assert fields[..0] == [];
    }
  }

  /** Behind its padding, an embedded field is aligned. */
  lemma PadsAlign(f: Field, pos: nat, index: nat, tail: seq<Field>)
    requires EmbeddedAligned(tail, Behind(f, pos))
    ensures EmbeddedAligned(PadsBefore(f, pos, index) + ([f] + tail), pos)
  {
    assert ([f] + tail)[1..] == tail;
    if PadsBefore(f, pos, index) == [] {
      assert [] + ([f] + tail) == [f] + tail;
    } else {
      PadBytes(index, Gap(pos));
      assert ([Pad(index, Gap(pos))] + ([f] + tail))[1..] == [f] + tail;
    }
  }

  lemma {:induction false} InsertAligned(fields: seq<Field>, pos: nat, index: nat)
    ensures EmbeddedAligned(Insert(fields, pos, index), pos)
    decreases |fields|
  {
    if fields != [] {
      var f, rest, index' := fields[0], fields[1..], index + |PadsBefore(fields[0], pos, index)|;
      InsertAligned(rest, Behind(f, pos), index');
      assert fields == [f] + rest;
      InsertCons(f, rest, pos, index);
      PadsAlign(f, pos, index, Insert(rest, Behind(f, pos), index'));
    }
  }

  /** Every embedded field of the padded list starts at a multiple of 8. */
  lemma EmbeddedStartsAligned(fields: seq<Field>, i: nat)
    requires i < |Padded(fields)| && IsEmbedded(Padded(fields)[i])
    ensures Offset(Padded(fields), i) % 8 == 0
  {
    InsertAligned(fields, 0, 0);
    assert EmbeddedAligned(EndPad(fields), Total(Insert(fields, 0, 0)));
    EmbeddedAlignedConcat(Insert(fields, 0, 0), EndPad(fields), 0);
    EmbeddedAlignedAt(Padded(fields), 0, i);
  }

  // ----- nothing but small paddings is added

  predicate NoPads(fields: seq<Field>) {
    forall i :: 0 <= i < |fields| ==> !IsPad(fields[i])
  }

  predicate SmallPads(fields: seq<Field>) {
    forall i :: 0 <= i < |fields| && IsPad(fields[i]) ==> FieldBytes(fields[i]) == fields[i].count && 1 <= fields[i].count <= 7
  }

  lemma {:induction false} UnpaddedConcat(a: seq<Field>, b: seq<Field>)
    ensures Unpadded(a + b) == Unpadded(a) + Unpadded(b)
  {
    if a == [] {
      assert a + b == b;
    } else {
      assert (a + b)[1..] == a[1..] + b;
      UnpaddedConcat(a[1..], b);
    }
  }

  lemma UnpaddedCons(f: Field, rest: seq<Field>)
    ensures Unpadded([f] + rest) == (if IsPad(f) then [] else [f]) + Unpadded(rest)
  {
    assert ([f] + rest)[1..] == rest;
  }

  lemma UnpaddedPads(f: Field, pos: nat, index: nat, fields: seq<Field>)
    ensures Unpadded(PadsBefore(f, pos, index) + fields) == Unpadded(fields)
  {
    if PadsBefore(f, pos, index) == [] {
      assert [] + fields == fields;
    } else {
      UnpaddedCons(Pad(index, Gap(pos)), fields);
    }
  }

  lemma {:induction false} InsertUnpadded(fields: seq<Field>, pos: nat, index: nat)
    requires NoPads(fields)
    ensures Unpadded(Insert(fields, pos, index)) == fields
    decreases |fields|
  {
    if fields != [] {
      var f, rest, index' := fields[0], fields[1..], index + |PadsBefore(fields[0], pos, index)|;
      var tail := Insert(rest, Behind(f, pos), index');
      InsertUnpadded(rest, Behind(f, pos), index');
      assert fields == [f] + rest;
      InsertCons(f, rest, pos, index);
      UnpaddedPads(f, pos, index, [f] + tail);
      UnpaddedCons(f, tail);
    }
  }

  lemma {:induction false} InsertSmallPads(fields: seq<Field>, pos: nat, index: nat)
    requires NoPads(fields)
    ensures SmallPads(Insert(fields, pos, index))
    decreases |fields|
  {
    if fields != [] {
      var f, rest := fields[0], fields[1..];
      if IsEmbedded(f) && Gap(pos) > 0 {
        InsertSmallPads(rest, pos + Gap(pos) + FieldBytes(f), index + 1);
        PadBytes(index, Gap(pos));
      } else {
        InsertSmallPads(rest, pos + FieldBytes(f), index);
      }
    }
  }

  /** Erasing the paddings, each of 1 to 7 bytes, gives back the original list. */
  lemma ErasingPadsRestores(fields: seq<Field>)
    requires NoPads(fields)
    ensures Unpadded(Padded(fields)) == fields && SmallPads(Padded(fields))
  {
    InsertUnpadded(fields, 0, 0);
    InsertSmallPads(fields, 0, 0);
    UnpaddedConcat(Insert(fields, 0, 0), EndPad(fields));
    var e := End(fields, 0);
    PadBytes(Inserted(fields, 0), Gap(e));
    if Gap(e) > 0 {
      assert EndPad(fields)[1..] == [];
    }
  }

  // ----- a second run changes nothing

  /** A field that is aligned is not moved. */
  lemma AlignedFront(f: Field, rest: seq<Field>, pos: nat, index: nat)
    requires EmbeddedAligned([f] + rest, pos)
    ensures EmbeddedAligned(rest, pos + FieldBytes(f))
    ensures Insert([f] + rest, pos, index) == [f] + Insert(rest, pos + FieldBytes(f), index)
    ensures End([f] + rest, pos) == End(rest, pos + FieldBytes(f))
    ensures Total([f] + rest) == FieldBytes(f) + Total(rest)
  {
    assert ([f] + rest)[1..] == rest;
  }

  lemma {:induction false} AlignedUnchanged(fields: seq<Field>, pos: nat, index: nat)
    requires EmbeddedAligned(fields, pos)
    ensures Insert(fields, pos, index) == fields
    ensures End(fields, pos) == pos + Total(fields)
    decreases |fields|
  {
    if fields != [] {
      var f, rest := fields[0], fields[1..];
      assert fields == [f] + rest;
      AlignedFront(f, rest, pos, index);
      AlignedUnchanged(rest, pos + FieldBytes(f), index);
    }
  }

  /** Padding a padded list adds nothing and finds the same size. */
  lemma PaddingIdempotent(fields: seq<Field>)
    ensures Padded(Padded(fields)) == Padded(fields)
    ensures StructSize(Padded(fields)) == StructSize(fields)
  {
    var all := Padded(fields);
    InsertAligned(fields, 0, 0);
    assert EmbeddedAligned(EndPad(fields), Total(Insert(fields, 0, 0)));
    EmbeddedAlignedConcat(Insert(fields, 0, 0), EndPad(fields), 0);
    AlignedUnchanged(all, 0, 0);
    SizeIsTotal(fields);
    assert EndPad(all) == [];
  }
}
