/** The generator's sort, and what happens where it is not applied: to the fields of embedded types. */
module UorbSorting {
  import opened UorbLayout
  import opened UorbCLayout

  /** The sort key: the size of a built-in; embedded types come last. */
  function Key(f: Field): nat {
    match f.fieldType
    case Builtin(size) => size
    case Embedded(_) => 0
  }

  /** `f`, which came before everything in `fields`, put in its place: in front of equal keys. */
  function Place(f: Field, fields: seq<Field>): seq<Field> {
    if fields == [] || Key(fields[0]) <= Key(f) then [f] + fields
    else [fields[0]] + Place(f, fields[1..])
  }

  /** A stable sort by descending key. */
  function Sort(fields: seq<Field>): seq<Field> {
    if fields == [] then [] else Place(fields[0], Sort(fields[1..]))
  }

  /** Fields the generator can lay out: no headers, power-of-two built-ins. */
  predicate Plain(f: Field) {
    !f.isHeader && (f.fieldType.Builtin? ==> PowerUpTo8(f.fieldType.size))
  }

  predicate AllPlain(fields: seq<Field>) {
    forall i :: 0 <= i < |fields| ==> Plain(fields[i])
  }

  predicate AllSortedFields(fields: seq<Field>) {
    forall i :: 0 <= i < |fields| ==> SortedField(fields[i])
  }

  // ----- the sort makes the input that the layout needs

  lemma {:induction false} PlaceSorted(f: Field, fields: seq<Field>, cap: nat)
    requires SortedField(f) && Sorted(fields, cap) && Key(f) <= cap
    ensures Sorted(Place(f, fields), cap)
    decreases |fields|
  {
    if fields == [] || Key(fields[0]) <= Key(f) {
      assert ([f] + fields)[1..] == fields;
      if f.fieldType.Embedded? {
        LowKeysEmbedded(fields, cap);
      } else {
        LowerCap(fields, cap, Key(f));
      }
    } else {
      var rest := fields[1..];
      var all := [fields[0]] + Place(f, rest);
      assert all[1..] == Place(f, rest);
      PlaceSorted(f, rest, Key(fields[0]));
    }
  }

  lemma LowerCap(fields: seq<Field>, cap: nat, cap': nat)
    requires Sorted(fields, cap) && (fields != [] ==> Key(fields[0]) <= cap')
    ensures Sorted(fields, cap')
  {
  }

  lemma LowKeysEmbedded(fields: seq<Field>, cap: nat)
    requires Sorted(fields, cap) && (fields != [] ==> Key(fields[0]) == 0)
    ensures EmbeddedOnly(fields)
  {
  }

  /** Sorting a list of fields whose own types are sorted gives a list sorted at every level. */
  lemma {:induction false} SortSorts(fields: seq<Field>)
    requires AllSortedFields(fields)
    ensures Sorted(Sort(fields), 8)
    decreases |fields|
  {
    if fields != [] {
      SortSorts(fields[1..]);
      PlaceSorted(fields[0], Sort(fields[1..]), 8);
    }
  }

  // ----- sizes by runs

  function EmbeddedBytes(fields: seq<Field>): nat {
    if fields == [] then 0
    else (if IsEmbedded(fields[0]) then FieldBytes(fields[0]) else 0) + EmbeddedBytes(fields[1..])
  }

  function BuiltinBytes(fields: seq<Field>): nat {
    if fields == [] then 0
    else (if IsEmbedded(fields[0]) then 0 else FieldBytes(fields[0])) + BuiltinBytes(fields[1..])
  }

  /** Each run of built-ins between embedded fields, rounded up to 8; `acc` bytes of the first run are behind. */
  function RoundedRuns(fields: seq<Field>, acc: nat): nat {
    if fields == [] then acc + Gap(acc)
    else if IsEmbedded(fields[0]) then acc + Gap(acc) + RoundedRuns(fields[1..], 0)
    else RoundedRuns(fields[1..], acc + FieldBytes(fields[0]))
  }

  lemma GapShift(base: nat, acc: nat)
    requires base % 8 == 0
    ensures Gap(base + acc) == Gap(acc)
  {
    var q := base / 8;
    assert base + acc == 8 * q + acc;
    assert (8 * q + acc) % 8 == acc % 8;
  }

  lemma EmbeddedMultiple(f: Field)
    requires IsEmbedded(f)
    ensures FieldBytes(f) % 8 == 0
  {
    var q := ElementSize(f) / 8;
    assert ElementSize(f) == 8 * q;
    assert FieldBytes(f) == 8 * (q * f.count);
  }

  lemma SumMultiple(a: nat, b: nat, c: nat)
    requires a % 8 == 0 && b % 8 == 0 && c % 8 == 0
    ensures (a + b + c) % 8 == 0
  {
  }

  lemma {:induction false} EndByRuns(fields: seq<Field>, base: nat, acc: nat)
    requires base % 8 == 0
    ensures var e := End(fields, base + acc);
      e + Gap(e) == base + EmbeddedBytes(fields) + RoundedRuns(fields, acc)
    decreases |fields|
  {
    GapShift(base, acc);
    if fields != [] {
      var f, rest := fields[0], fields[1..];
      assert fields == [f] + rest;
      EndCons(f, rest, base + acc);
      if IsEmbedded(f) {
        var base' := base + (acc + Gap(acc)) + FieldBytes(f);
        EmbeddedMultiple(f);
        SumMultiple(base, acc + Gap(acc), FieldBytes(f));
        assert Behind(f, base + acc) == base' + 0;
        EndByRuns(rest, base', 0);
      } else {
        var acc' := acc + FieldBytes(f);
        assert Behind(f, base + acc) == base + acc';
        EndByRuns(rest, base, acc');
      }
    }
  }

  /** The struct size: embedded types, and every run of built-ins rounded up. */
  lemma SizeByRuns(fields: seq<Field>)
    ensures StructSize(fields) == EmbeddedBytes(fields) + RoundedRuns(fields, 0)
  {
    EndByRuns(fields, 0, 0);
    assert 0 + 0 == 0;
  }

  // ----- sizes of the sorted list

  predicate BuiltinsFirst(fields: seq<Field>) {
    forall i, j :: 0 <= i < j < |fields| && IsEmbedded(fields[i]) ==> IsEmbedded(fields[j])
  }

  lemma {:induction false} OneRun(fields: seq<Field>, acc: nat)
    requires BuiltinsFirst(fields)
    ensures RoundedRuns(fields, acc) == acc + BuiltinBytes(fields) + Gap(acc + BuiltinBytes(fields))
    decreases |fields|
  {
    if fields != [] {
      if IsEmbedded(fields[0]) {
        OneRun(fields[1..], 0);
        NoBuiltins(fields);
      } else {
        OneRun(fields[1..], acc + FieldBytes(fields[0]));
      }
    }
  }

  lemma {:induction false} NoBuiltins(fields: seq<Field>)
    requires forall i :: 0 <= i < |fields| ==> IsEmbedded(fields[i])
    ensures BuiltinBytes(fields) == 0
    decreases |fields|
  {
    if fields != [] {
      NoBuiltins(fields[1..]);
    }
  }

  lemma {:induction false} PlaceBytes(f: Field, fields: seq<Field>)
    ensures EmbeddedBytes(Place(f, fields)) == EmbeddedBytes([f] + fields)
    ensures BuiltinBytes(Place(f, fields)) == BuiltinBytes([f] + fields)
    decreases |fields|
  {
    assert ([f] + fields)[1..] == fields;
    if !(fields == [] || Key(fields[0]) <= Key(f)) {
      PlaceBytes(f, fields[1..]);
      assert ([fields[0]] + Place(f, fields[1..]))[1..] == Place(f, fields[1..]);
      assert ([f] + fields[1..])[1..] == fields[1..];
    }
  }

  lemma {:induction false} SortBytes(fields: seq<Field>)
    ensures EmbeddedBytes(Sort(fields)) == EmbeddedBytes(fields)
    ensures BuiltinBytes(Sort(fields)) == BuiltinBytes(fields)
    decreases |fields|
  {
    if fields != [] {
      SortBytes(fields[1..]);
      PlaceBytes(fields[0], Sort(fields[1..]));
      assert ([fields[0]] + Sort(fields[1..]))[1..] == Sort(fields[1..]);
    }
  }

  lemma {:induction false} PlaceBuiltinsFirst(f: Field, fields: seq<Field>)
    requires Plain(f) && AllPlain(fields) && BuiltinsFirst(fields)
    ensures AllPlain(Place(f, fields)) && BuiltinsFirst(Place(f, fields))
    ensures IsEmbedded(f) && (forall i :: 0 <= i < |fields| ==> IsEmbedded(fields[i])) ==>
      forall i :: 0 <= i < |Place(f, fields)| ==> IsEmbedded(Place(f, fields)[i])
    decreases |fields|
  {
    if fields == [] || Key(fields[0]) <= Key(f) {
    } else {
      PlaceBuiltinsFirst(f, fields[1..]);
    }
  }

  lemma {:induction false} SortBuiltinsFirst(fields: seq<Field>)
    requires AllPlain(fields)
    ensures AllPlain(Sort(fields)) && BuiltinsFirst(Sort(fields))
    decreases |fields|
  {
    if fields != [] {
      SortBuiltinsFirst(fields[1..]);
      PlaceBuiltinsFirst(fields[0], Sort(fields[1..]));
    }
  }

  /**
   * An embedded type is measured with its fields unsorted, but its own struct is made from the sorted ones. The two
   * sizes agree exactly if rounding each run of built-ins separately costs no more than rounding them together.
   */
  lemma NestedSizeExact(fields: seq<Field>)
    requires AllPlain(fields)
    ensures StructSize(fields) == StructSize(Sort(fields))
       <==> RoundedRuns(fields, 0) == BuiltinBytes(fields) + Gap(BuiltinBytes(fields))
  {
    SizeByRuns(fields);
    SizeByRuns(Sort(fields));
    SortBytes(fields);
    SortBuiltinsFirst(fields);
    OneRun(Sort(fields), 0);
  }

  // ----- a message for which they differ

  function ByteField(name: string): Field {
    Field(User(name), false, Builtin(1), 1)
  }

  /** A struct of one eight-byte field. */
  function Inner(): Field {
    Field(User("inner"), false, Embedded([Field(User("t"), false, Builtin(8), 1)]), 1)
  }

  lemma RunsCons(f: Field, rest: seq<Field>, acc: nat)
    ensures EmbeddedBytes([f] + rest) == (if IsEmbedded(f) then FieldBytes(f) else 0) + EmbeddedBytes(rest)
    ensures BuiltinBytes([f] + rest) == (if IsEmbedded(f) then 0 else FieldBytes(f)) + BuiltinBytes(rest)
    ensures RoundedRuns([f] + rest, acc) ==
      if IsEmbedded(f) then acc + Gap(acc) + RoundedRuns(rest, 0) else RoundedRuns(rest, acc + FieldBytes(f))
  {
    assert ([f] + rest)[1..] == rest;
  }

  lemma InnerBytes()
    ensures IsEmbedded(Inner()) && FieldBytes(Inner()) == 8
  {
    var t := Field(User("t"), false, Builtin(8), 1);
    assert [t] == [t] + [];
    EndCons(t, [], 0);
    assert FieldBytes(t) == 8 && End([t], 0) == 8;
  }

  lemma ByteFieldBytes(name: string)
    ensures !IsEmbedded(ByteField(name)) && FieldBytes(ByteField(name)) == 1
  {
  }

  /** One byte, an eight-byte struct, one byte: measured as 24 bytes, made into 16. */
  lemma NestedSizeDiffers()
    ensures var fields := [ByteField("a"), Inner(), ByteField("b")];
      AllPlain(fields) && StructSize(fields) == 24 && StructSize(Sort(fields)) == 16
  {
    var a, inner, b := ByteField("a"), Inner(), ByteField("b");
    InnerBytes();
    ByteFieldBytes("a");
    ByteFieldBytes("b");
    var last: seq<Field> := [b] + [];
    var rest := [inner] + last;
    var fields := [a] + rest;
    assert [a, inner, b] == fields;
    RunsCons(b, [], 0);
    RunsCons(inner, last, 1);
    RunsCons(a, rest, 0);
    assert Gap(1) == 7 && Gap(2) == 6;
    DiffersAs(fields);
  }

  lemma DiffersAs(fields: seq<Field>)
    requires AllPlain(fields) && EmbeddedBytes(fields) == 8 && BuiltinBytes(fields) == 2 && RoundedRuns(fields, 0) == 16
    ensures StructSize(fields) == 24 && StructSize(Sort(fields)) == 16
  {
    SizeByRuns(fields);
    SizeByRuns(Sort(fields));
    SortBytes(fields);
    SortBuiltinsFirst(fields);
    OneRun(Sort(fields), 0);
    assert Gap(2) == 6;
  }
}
