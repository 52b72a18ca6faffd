/**
 * Nested messages: every message type is made into a struct from its own sorted fields, while the generator measures
 * an embedded type by its fields as declared.
 */
module UorbNesting {
  import opened UorbLayout
  import opened UorbCLayout
  import opened UorbSorting

  // ----- what is made of a message

  /** The field with the type that the compiler sees: an embedded type's own struct, made from its sorted fields. */
  function Made(f: Field): Field
    decreases f, 2
  {
    match f.fieldType
    case Builtin(_) => f
    case Embedded(children) => f.(fieldType := Embedded(MadeAll(children)))
  }

  function EachMade(fields: seq<Field>): seq<Field>
    decreases fields, 0
  {
    if fields == [] then [] else [Made(fields[0])] + EachMade(fields[1..])
  }

  /** The fields of a message's own struct, in order, at every level. */
  function MadeAll(fields: seq<Field>): seq<Field>
    decreases fields, 1
  {
    Sort(EachMade(fields))
  }

  /** No headers and power-of-two built-ins, at every level. */
  predicate DeepPlain(fields: seq<Field>)
    decreases fields, 0
  {
    fields == [] || (DeepPlainField(fields[0]) && DeepPlain(fields[1..]))
  }

  predicate DeepPlainField(f: Field)
    decreases f, 1
  {
    !f.isHeader &&
    match f.fieldType
    case Builtin(size) => PowerUpTo8(size)
    case Embedded(children) => DeepPlain(children)
  }

  lemma {:induction false} DeepPlainIsPlain(fields: seq<Field>)
    requires DeepPlain(fields)
    ensures AllPlain(fields)
    decreases |fields|
  {
    if fields != [] {
      DeepPlainIsPlain(fields[1..]);
      forall i | 0 <= i < |fields|
        ensures Plain(fields[i])
      {
        if i > 0 {
          assert fields[i] == fields[1..][i - 1];
        }
      }
    }
  }

  // ----- the made lists are sorted at every level

  lemma {:induction false} MadeSorted(f: Field)
    requires DeepPlainField(f)
    ensures SortedField(Made(f))
    decreases f, 1
  {
    match f.fieldType
    case Builtin(_) =>
    case Embedded(children) => MadeAllSorted(children);
  }

  lemma {:induction false} EachMadeSorted(fields: seq<Field>)
    requires DeepPlain(fields)
    ensures AllSortedFields(EachMade(fields))
    decreases fields, 0
  {
    if fields != [] {
      MadeSorted(fields[0]);
      EachMadeSorted(fields[1..]);
    }
  }

  /** Whatever the order in which a message declares its fields, its struct is sorted at every level. */
  lemma {:induction false} MadeAllSorted(fields: seq<Field>)
    requires DeepPlain(fields)
    ensures Sorted(MadeAll(fields), 8)
    decreases fields, 1
  {
    EachMadeSorted(fields);
    SortSorts(EachMade(fields));
  }

  // ----- where measured and made sizes agree

  /** Every embedded type, at every level, is measured as the compiler makes it. */
  predicate MeasuredAsMade(fields: seq<Field>)
    decreases fields, 0
  {
    fields == [] || (MeasuredAsMadeField(fields[0]) && MeasuredAsMade(fields[1..]))
  }

  predicate MeasuredAsMadeField(f: Field)
    decreases f, 1
  {
    match f.fieldType
    case Builtin(_) => true
    case Embedded(children) => StructSize(children) == CStruct(MadeAll(children)) && MeasuredAsMade(children)
  }

  /** Rounding each run of built-ins separately costs no more than rounding them together. */
  predicate RunsFit(fields: seq<Field>) {
    RoundedRuns(fields, 0) == BuiltinBytes(fields) + Gap(BuiltinBytes(fields))
  }

  /** So it is for every embedded type, at every level. */
  predicate DeepRunsFit(fields: seq<Field>)
    decreases fields, 0
  {
    fields == [] || (DeepRunsFitField(fields[0]) && DeepRunsFit(fields[1..]))
  }

  predicate DeepRunsFitField(f: Field)
    decreases f, 1
  {
    match f.fieldType
    case Builtin(_) => true
    case Embedded(children) => RunsFit(children) && DeepRunsFit(children)
  }

  lemma MadeSame(f: Field)
    requires DeepPlainField(f) && MeasuredAsMadeField(f)
    ensures IsEmbedded(Made(f)) == IsEmbedded(f) && Made(f).isHeader == f.isHeader && Made(f).count == f.count
    ensures ElementSize(Made(f)) == ElementSize(f) && FieldBytes(Made(f)) == FieldBytes(f)
  {
    match f.fieldType
    case Builtin(_) =>
    case Embedded(children) =>
      MadeAllSorted(children);
      StructAgrees(MadeAll(children));
  }

  lemma KeySame(f: Field)
    ensures Key(Made(f)) == Key(f)
  {
  }

  lemma {:induction false} PlaceMade(f: Field, fields: seq<Field>)
    ensures EachMade(Place(f, fields)) == Place(Made(f), EachMade(fields))
    decreases |fields|
  {
    KeySame(f);
    if fields == [] {
      EachMadeCons(f, []);
    } else {
      KeySame(fields[0]);
      if Key(fields[0]) <= Key(f) {
        EachMadeCons(f, fields);
      } else {
        PlaceMade(f, fields[1..]);
        EachMadeCons(fields[0], Place(f, fields[1..]));
        assert EachMade(fields)[1..] == EachMade(fields[1..]);
      }
    }
  }

  lemma EachMadeCons(f: Field, rest: seq<Field>)
    ensures EachMade([f] + rest) == [Made(f)] + EachMade(rest)
  {
    assert ([f] + rest)[1..] == rest;
  }

  /** Sorting and making commute: the sort looks at built-ins only. */
  lemma {:induction false} SortMade(fields: seq<Field>)
    ensures EachMade(Sort(fields)) == MadeAll(fields)
    decreases |fields|
  {
    if fields != [] {
      SortMade(fields[1..]);
      PlaceMade(fields[0], Sort(fields[1..]));
      assert EachMade(fields)[1..] == EachMade(fields[1..]);
    }
  }

  lemma {:induction false} PlaceKeeps(f: Field, fields: seq<Field>)
    requires DeepPlainField(f) && MeasuredAsMadeField(f) && DeepPlain(fields) && MeasuredAsMade(fields)
    ensures DeepPlain(Place(f, fields)) && MeasuredAsMade(Place(f, fields))
    decreases |fields|
  {
    if fields == [] || Key(fields[0]) <= Key(f) {
      assert ([f] + fields)[1..] == fields;
    } else {
      PlaceKeeps(f, fields[1..]);
      assert ([fields[0]] + Place(f, fields[1..]))[1..] == Place(f, fields[1..]);
    }
  }

  lemma {:induction false} SortKeeps(fields: seq<Field>)
    requires DeepPlain(fields) && MeasuredAsMade(fields)
    ensures DeepPlain(Sort(fields)) && MeasuredAsMade(Sort(fields))
    decreases |fields|
  {
    if fields != [] {
      SortKeeps(fields[1..]);
      PlaceKeeps(fields[0], Sort(fields[1..]));
    }
  }

  lemma {:induction false} EndMade(fields: seq<Field>, pos: nat)
    requires DeepPlain(fields) && MeasuredAsMade(fields)
    ensures End(EachMade(fields), pos) == End(fields, pos)
    decreases |fields|
  {
    if fields != [] {
      var f := fields[0];
      MadeSame(f);
      assert fields == [f] + fields[1..];
      EndCons(f, fields[1..], pos);
      EndCons(Made(f), EachMade(fields[1..]), pos);
      EndMade(fields[1..], Behind(f, pos));
    }
  }

  /** If its embedded types are measured as made, so is the sorted message itself. */
  lemma SortedSize(fields: seq<Field>)
    requires DeepPlain(fields) && MeasuredAsMade(fields)
    ensures CStruct(MadeAll(fields)) == StructSize(MadeAll(fields)) == StructSize(Sort(fields))
  {
    MadeAllSorted(fields);
    StructAgrees(MadeAll(fields));
    SortMade(fields);
    SortKeeps(fields);
    EndMade(Sort(fields), 0);
  }

  lemma {:induction false} FieldExactly(f: Field)
    requires DeepPlainField(f)
    ensures MeasuredAsMadeField(f) <==> DeepRunsFitField(f)
    decreases f, 1
  {
    match f.fieldType
    case Builtin(_) =>
    case Embedded(children) =>
      NestingExactly(children);
      if MeasuredAsMade(children) {
        SortedSize(children);
        DeepPlainIsPlain(children);
        NestedSizeExact(children);
      }
  }

  /**
   * Every embedded type, at every level, is measured as the compiler makes it if and only if, for every one of them,
   * rounding its runs of built-ins separately costs nothing.
   */
  lemma {:induction false} NestingExactly(fields: seq<Field>)
    requires DeepPlain(fields)
    ensures MeasuredAsMade(fields) <==> DeepRunsFit(fields)
    decreases fields, 0
  {
    if fields != [] {
      FieldExactly(fields[0]);
      NestingExactly(fields[1..]);
    }
  }

  // ----- the whole layout

  lemma PadsMade(f: Field, pos: nat, index: nat)
    ensures EachMade(PadsBefore(f, pos, index)) == PadsBefore(f, pos, index)
  {
    if IsEmbedded(f) && Gap(pos) > 0 {
      EachMadeCons(Pad(index, Gap(pos)), []);
    }
  }

  /** A field like `f` but for its type, in front of `made`, is padded like `f` in front of `rest`. */
  lemma InsertMadeStep(f: Field, rest: seq<Field>, pos: nat, index: nat)
    requires IsEmbedded(Made(f)) == IsEmbedded(f) && FieldBytes(Made(f)) == FieldBytes(f)
    requires var next := index + |PadsBefore(f, pos, index)|;
      Insert(EachMade(rest), Behind(f, pos), next) == EachMade(Insert(rest, Behind(f, pos), next))
    ensures Insert([Made(f)] + EachMade(rest), pos, index) == EachMade(Insert([f] + rest, pos, index))
  {
    var pads := PadsBefore(f, pos, index);
    var tail := Insert(rest, Behind(f, pos), index + |pads|);
    InsertCons(f, rest, pos, index);
    InsertCons(Made(f), EachMade(rest), pos, index);
    EachMadeCons(f, tail);
    EachMadeConcat(pads, [f] + tail);
    PadsMade(f, pos, index);
  }

  lemma {:induction false} InsertMade(fields: seq<Field>, pos: nat, index: nat)
    requires DeepPlain(fields) && MeasuredAsMade(fields)
    ensures Insert(EachMade(fields), pos, index) == EachMade(Insert(fields, pos, index))
    decreases |fields|
  {
    if fields != [] {
      var f, rest := fields[0], fields[1..];
      MadeSame(f);
      InsertMade(rest, Behind(f, pos), index + |PadsBefore(f, pos, index)|);
      InsertMadeStep(f, rest, pos, index);
      assert fields == [f] + rest;
    }
  }

  lemma {:induction false} InsertedMade(fields: seq<Field>, pos: nat)
    requires DeepPlain(fields) && MeasuredAsMade(fields)
    ensures Inserted(EachMade(fields), pos) == Inserted(fields, pos)
    decreases |fields|
  {
    if fields != [] {
      var f, rest := fields[0], fields[1..];
      MadeSame(f);
      InsertedMade(rest, Behind(f, pos));
      assert EachMade(fields)[1..] == EachMade(rest);
    }
  }

  lemma {:induction false} EachMadeConcat(a: seq<Field>, b: seq<Field>)
    ensures EachMade(a + b) == EachMade(a) + EachMade(b)
    decreases |a|
  {
    if a == [] {
      assert a + b == b;
    } else {
      assert a + b == [a[0]] + (a[1..] + b);
      EachMadeCons(a[0], a[1..] + b);
      EachMadeConcat(a[1..], b);
    }
  }

  lemma EndPadMade(fields: seq<Field>)
    requires DeepPlain(fields) && MeasuredAsMade(fields)
    ensures EndPad(EachMade(fields)) == EachMade(EndPad(fields))
  {
    EndMade(fields, 0);
    InsertedMade(fields, 0);
    if EndPad(fields) != [] {
      EachMadeCons(EndPad(fields)[0], []);
    }
  }

  /** The padding the generator computes is the padding that the made structs need. */
  lemma PaddedMade(fields: seq<Field>)
    requires DeepPlain(fields) && MeasuredAsMade(fields)
    ensures EachMade(Padded(fields)) == Padded(EachMade(fields))
  {
    InsertMade(fields, 0, 0);
    EndPadMade(fields);
    EachMadeConcat(Insert(fields, 0, 0), EndPad(fields));
  }

  /**
   * If the runs of every embedded type fit, then in the struct printed for a message, declared in any order, every
   * field sits where the generator's packed offsets put it, the compiler adds nothing, and the sizes are equal.
   */
  lemma NestedLayoutAgrees(fields: seq<Field>)
    requires DeepPlain(fields) && DeepRunsFit(fields)
    ensures var printed := EachMade(Padded(Sort(fields)));
      && AllAligned(printed, 0)
      && CEnd(printed, 0) == StructSize(Sort(fields)) == CStruct(MadeAll(fields))
  {
    NestingExactly(fields);
    SortKeeps(fields);
    PaddedMade(Sort(fields));
    SortMade(fields);
    MadeAllSorted(fields);
    NoImplicitPadding(MadeAll(fields));
    SortedSize(fields);
  }

  // ----- the converse

  /** The runs fit in every embedded type of which there are elements, at every level. */
  predicate UsedRunsFit(fields: seq<Field>)
    decreases fields, 0
  {
    fields == [] || (UsedRunsFitField(fields[0]) && UsedRunsFit(fields[1..]))
  }

  predicate UsedRunsFitField(f: Field)
    decreases f, 1
  {
    match f.fieldType
    case Builtin(_) => true
    case Embedded(children) => f.count == 0 || (RunsFit(children) && UsedRunsFit(children))
  }

  /** Two runs rounded separately take at least as much as together. */
  lemma TwoRuns(a: nat, b: nat)
    ensures a + Gap(a) + (b + Gap(b)) >= a + b + Gap(a + b)
  {
    var p, q := a + Gap(a), b + Gap(b);
    SumMultiple(p, q, 0);
    LeastMultiple(a + b, Gap(a + b), p + q);
  }

  /** The next multiple of 8 is the least one. */
  lemma LeastMultiple(n: nat, gap: nat, m: nat)
    requires gap < 8 && (n + gap) % 8 == 0 && m % 8 == 0 && m >= n
    ensures m >= n + gap
  {
    var x, z := m / 8, (n + gap) / 8;
    assert m == 8 * x && n + gap == 8 * z;
    assert 8 * x > 8 * (z - 1);
  }

  lemma {:induction false} RunsAtLeast(fields: seq<Field>, acc: nat)
    ensures RoundedRuns(fields, acc) >= acc + BuiltinBytes(fields) + Gap(acc + BuiltinBytes(fields))
    decreases |fields|
  {
    if fields != [] {
      if IsEmbedded(fields[0]) {
        RunsAtLeast(fields[1..], 0);
        TwoRuns(acc, BuiltinBytes(fields[1..]));
      } else {
        RunsAtLeast(fields[1..], acc + FieldBytes(fields[0]));
      }
    }
  }

  lemma SortedStructSize(fields: seq<Field>)
    requires AllPlain(fields)
    ensures StructSize(Sort(fields)) == EmbeddedBytes(fields) + (BuiltinBytes(fields) + Gap(BuiltinBytes(fields)))
  {
    SizeByRuns(Sort(fields));
    SortBytes(fields);
    SortBuiltinsFirst(fields);
    OneRun(Sort(fields), 0);
  }

  /** The made fields are as plain as the fields they are made from. */
  lemma {:induction false} EachMadePlain(fields: seq<Field>)
    requires DeepPlain(fields)
    ensures AllPlain(EachMade(fields))
    decreases |fields|
  {
    if fields != [] {
      EachMadePlain(fields[1..]);
      PlainCons(Made(fields[0]), EachMade(fields[1..]));
    }
  }

  lemma PlainCons(f: Field, rest: seq<Field>)
    requires Plain(f) && AllPlain(rest)
    ensures AllPlain([f] + rest)
  {
  }

  /** What the compiler makes of a message, by the bytes of its made fields. */
  lemma MadeStructSize(fields: seq<Field>)
    requires DeepPlain(fields)
    ensures var made := EachMade(fields);
      CStruct(MadeAll(fields)) == StructSize(MadeAll(fields))
        == EmbeddedBytes(made) + (BuiltinBytes(made) + Gap(BuiltinBytes(made)))
  {
    MadeAllSorted(fields);
    StructAgrees(MadeAll(fields));
    EachMadePlain(fields);
    SortedStructSize(EachMade(fields));
  }

  /** Fewer bytes an element, the same number of elements. */
  lemma TimesCount(x: nat, y: nat, count: nat)
    requires x <= y
    ensures x * count <= y * count
    ensures x * count == y * count <==> count == 0 || x == y
  {
    assert y * count == x * count + (y - x) * count;
    if count > 0 && x < y {
      assert (y - x) * count >= 1;
    }
  }

  /** An embedded type is never made larger than measured. */
  lemma {:induction false} FieldMade(f: Field)
    requires DeepPlainField(f)
    ensures IsEmbedded(Made(f)) == IsEmbedded(f) && (!IsEmbedded(f) ==> Made(f) == f)
    ensures FieldBytes(Made(f)) <= FieldBytes(f)
    ensures FieldBytes(Made(f)) == FieldBytes(f) <==> UsedRunsFitField(f)
    decreases f, 1
  {
    match f.fieldType
    case Builtin(_) =>
    case Embedded(children) =>
      ChildrenMade(children);
      TimesCount(StructSize(MadeAll(children)), StructSize(children), f.count);
  }

  lemma {:induction false} ChildrenMade(children: seq<Field>)
    requires DeepPlain(children)
    ensures StructSize(MadeAll(children)) <= StructSize(children)
    ensures StructSize(MadeAll(children)) == StructSize(children) <==> RunsFit(children) && UsedRunsFit(children)
    decreases children, 1
  {
    EmbeddedMade(children);
    MadeStructSize(children);
    SizeByRuns(children);
    RunsAtLeast(children, 0);
  }

  lemma {:induction false} EmbeddedMade(fields: seq<Field>)
    requires DeepPlain(fields)
    ensures EmbeddedBytes(EachMade(fields)) <= EmbeddedBytes(fields)
    ensures EmbeddedBytes(EachMade(fields)) == EmbeddedBytes(fields) <==> UsedRunsFit(fields)
    ensures BuiltinBytes(EachMade(fields)) == BuiltinBytes(fields)
    decreases fields, 0
  {
    if fields != [] {
      FieldMade(fields[0]);
      EmbeddedMade(fields[1..]);
      RunsCons(Made(fields[0]), EachMade(fields[1..]), 0);
    }
  }

  /**
   * The size the generator computes for a message, declared in any order, is never below that of the struct the
   * compiler makes, and equal to it if and only if the runs fit in every embedded type that is used, at every level.
   */
  lemma NestedSizesExactly(fields: seq<Field>)
    requires DeepPlain(fields)
    ensures CStruct(MadeAll(fields)) <= StructSize(Sort(fields))
    ensures StructSize(Sort(fields)) == CStruct(MadeAll(fields)) <==> UsedRunsFit(fields)
  {
    EmbeddedMade(fields);
    MadeStructSize(fields);
    DeepPlainIsPlain(fields);
    SortedStructSize(fields);
  }

  /** No embedded field is an array of no elements, at any level. */
  predicate Counted(fields: seq<Field>)
    decreases fields, 0
  {
    fields == [] || (CountedField(fields[0]) && Counted(fields[1..]))
  }

  predicate CountedField(f: Field)
    decreases f, 1
  {
    match f.fieldType
    case Builtin(_) => true
    case Embedded(children) => f.count >= 1 && Counted(children)
  }

  lemma {:induction false} AllUsed(fields: seq<Field>)
    requires Counted(fields)
    ensures UsedRunsFit(fields) <==> DeepRunsFit(fields)
    decreases fields, 0
  {
    if fields != [] {
      FieldUsed(fields[0]);
      AllUsed(fields[1..]);
    }
  }

  lemma {:induction false} FieldUsed(f: Field)
    requires CountedField(f)
    ensures UsedRunsFitField(f) <==> DeepRunsFitField(f)
    decreases f, 1
  {
    match f.fieldType
    case Builtin(_) =>
    case Embedded(children) => AllUsed(children);
  }

  /** For a message without empty arrays of structs, the whole layout agrees if and only if the runs fit. */
  lemma NestedLayoutExactly(fields: seq<Field>)
    requires DeepPlain(fields) && Counted(fields)
    ensures var printed := EachMade(Padded(Sort(fields)));
      && AllAligned(printed, 0)
      && CEnd(printed, 0) == StructSize(Sort(fields)) == CStruct(MadeAll(fields))
      <==> DeepRunsFit(fields)
  {
    NestedSizesExactly(fields);
    AllUsed(fields);
    if DeepRunsFit(fields) {
      NestedLayoutAgrees(fields);
    }
  }
}
