/** The order in which a message's fields are printed: by descending size, and otherwise as declared. */
module UorbOrder {
  import opened Bytes
  import opened UorbLayout
  import opened UorbSorting
  import opened UorbNesting

  /** The size to sort by: of one element of a built-in; embedded types count as 0 and come last. */
  function SortSize(f: Field): nat {
    if f.fieldType.Builtin? then f.fieldType.size else 0
  }

  /** The fields of the given size, in the order of the list. */
  function OfSize(fields: seq<Field>, n: nat): seq<Field> {
    if fields == [] then [] else (if SortSize(fields[0]) == n then [fields[0]] else []) + OfSize(fields[1..], n)
  }

  predicate Descending(fields: seq<Field>) {
    forall i, j :: 0 <= i < j < |fields| ==> SortSize(fields[i]) >= SortSize(fields[j])
  }

  /** Of each size, the two lists have the same fields in the same order. */
  ghost predicate SameBySize(a: seq<Field>, b: seq<Field>) {
    forall n: nat :: OfSize(a, n) == OfSize(b, n)
  }

  lemma OfSizeCons(f: Field, rest: seq<Field>, n: nat)
    ensures OfSize([f] + rest, n) == (if SortSize(f) == n then [f] else []) + OfSize(rest, n)
  {
    assert ([f] + rest)[1..] == rest;
  }

  // ----- the sort is stable and loses nothing

  lemma {:induction false} PlaceStable(f: Field, fields: seq<Field>, n: nat)
    ensures OfSize(Place(f, fields), n) == OfSize([f] + fields, n)
    decreases |fields|
  {
    if !(fields == [] || Key(fields[0]) <= Key(f)) {
      var g, rest := fields[0], fields[1..];
      PlaceStable(f, rest, n);
      OfSizeCons(g, Place(f, rest), n);
      OfSizeCons(f, rest, n);
      OfSizeCons(f, fields, n);
    }
  }

  lemma {:induction false} PlaceSame(f: Field, fields: seq<Field>)
    ensures multiset(Place(f, fields)) == multiset{f} + multiset(fields)
    decreases |fields|
  {
    if fields == [] || Key(fields[0]) <= Key(f) {
      assert multiset([f] + fields) == multiset([f]) + multiset(fields);
    } else {
      var g, rest := fields[0], fields[1..];
      PlaceSame(f, rest);
      assert fields == [g] + rest;
      assert multiset(fields) == multiset{g} + multiset(rest);
      assert multiset([g] + Place(f, rest)) == multiset{g} + multiset(Place(f, rest));
    }
  }

  lemma DescendingCons(f: Field, rest: seq<Field>)
    requires Descending(rest) && forall i :: 0 <= i < |rest| ==> SortSize(rest[i]) <= SortSize(f)
    ensures Descending([f] + rest)
  {
  }

  lemma {:induction false} PlaceDescending(f: Field, fields: seq<Field>)
    requires Descending(fields)
    ensures Descending(Place(f, fields))
    decreases |fields|
  {
    if fields == [] || Key(fields[0]) <= Key(f) {
      DescendingCons(f, fields);
    } else {
      var g, rest := fields[0], fields[1..];
      PlaceDescending(f, rest);
      PlaceSame(f, rest);
      var placed := Place(f, rest);
      forall i | 0 <= i < |placed|
        ensures SortSize(placed[i]) <= SortSize(g)
      {
        assert placed[i] in multiset(placed);
        if placed[i] != f {
          assert placed[i] in rest;
        }
      }
      DescendingCons(g, placed);
    }
  }

  /** Every field stays, sizes descend, and fields of one size keep the order in which they were declared. */
  lemma {:induction false} SortStable(fields: seq<Field>)
    ensures multiset(Sort(fields)) == multiset(fields)
    ensures Descending(Sort(fields))
    ensures SameBySize(Sort(fields), fields)
    decreases |fields|
  {
    if fields != [] {
      var f, rest := fields[0], fields[1..];
      assert fields == [f] + rest;
      SortStable(rest);
      PlaceSame(f, Sort(rest));
      PlaceDescending(f, Sort(rest));
      forall n: nat
        ensures OfSize(Sort(fields), n) == OfSize(fields, n)
      {
        PlaceStable(f, Sort(rest), n);
        OfSizeCons(f, Sort(rest), n);
        OfSizeCons(f, rest, n);
      }
    }
  }

  // ----- there is only one such list

  lemma {:induction false} SizeFront(fields: seq<Field>, n: nat)
    requires OfSize(fields, n) != []
    ensures OfSize(fields, n)[0] in fields && SortSize(OfSize(fields, n)[0]) == n
    decreases |fields|
  {
    if SortSize(fields[0]) != n {
      SizeFront(fields[1..], n);
    }
  }

  lemma HeadFirst(fields: seq<Field>)
    requires fields != []
    ensures OfSize(fields, SortSize(fields[0])) != [] && OfSize(fields, SortSize(fields[0]))[0] == fields[0]
  {
  }

  /** The first field of a descending list is the first one of the largest size. */
  lemma SameHead(a: seq<Field>, b: seq<Field>)
    requires a != [] && Descending(a) && Descending(b) && SameBySize(a, b)
    ensures b != [] && a[0] == b[0]
  {
    HeadFirst(a);
    SizeFront(b, SortSize(a[0]));
    HeadFirst(b);
    assert OfSize(a, SortSize(b[0])) == OfSize(b, SortSize(b[0]));
    SizeFront(a, SortSize(b[0]));
  }

  lemma SameTail(a: seq<Field>, b: seq<Field>, n: nat)
    requires a != [] && b != [] && a[0] == b[0] && OfSize(a, n) == OfSize(b, n)
    ensures OfSize(a[1..], n) == OfSize(b[1..], n)
  {
    var x := if SortSize(a[0]) == n then [a[0]] else [];
    assert OfSize(a, n)[|x|..] == OfSize(a[1..], n);
    assert OfSize(b, n)[|x|..] == OfSize(b[1..], n);
  }

  /** A descending list with the same fields of each size in the same order is the same list. */
  lemma {:induction false} OneOrder(a: seq<Field>, b: seq<Field>)
    requires Descending(a) && Descending(b) && SameBySize(a, b)
    ensures a == b
    decreases |a|
  {
    if a == [] {
      if b != [] {
        HeadFirst(b);
      }
    } else {
      SameHead(a, b);
      forall n: nat
        ensures OfSize(a[1..], n) == OfSize(b[1..], n)
      {
        SameTail(a, b, n);
      }
      OneOrder(a[1..], b[1..]);
      assert a == [a[0]] + a[1..] && b == [b[0]] + b[1..];
    }
  }

  /** The sorted list is the descending list that keeps declaration order within each size: there is no other. */
  lemma SortExactly(fields: seq<Field>, sorted: seq<Field>)
    ensures sorted == Sort(fields) <==> Descending(sorted) && SameBySize(sorted, fields)
  {
    SortStable(fields);
    if Descending(sorted) && SameBySize(sorted, fields) {
      OneOrder(sorted, Sort(fields));
    }
  }

  // ----- the printed struct

  lemma {:induction false} OfSizeMade(fields: seq<Field>, n: nat)
    ensures OfSize(EachMade(fields), n) == EachMade(OfSize(fields, n))
    decreases |fields|
  {
    if fields != [] {
      var f, rest := fields[0], fields[1..];
      assert SortSize(Made(f)) == SortSize(f);
      OfSizeMade(rest, n);
      OfSizeCons(Made(f), EachMade(rest), n);
      if SortSize(f) == n {
        EachMadeCons(f, OfSize(rest, n));
      } else {
        assert [] + OfSize(rest, n) == OfSize(rest, n);
        assert [] + OfSize(EachMade(rest), n) == OfSize(EachMade(rest), n);
      }
    }
  }

  lemma SortedNoPads(fields: seq<Field>)
    requires NoPads(fields)
    ensures NoPads(Sort(fields))
  {
    SortStable(fields);
    var sorted := Sort(fields);
    forall i | 0 <= i < |sorted|
      ensures !IsPad(sorted[i])
    {
      assert sorted[i] in multiset(sorted);
      assert sorted[i] in fields;
    }
  }

  /**
   * A message's struct, paddings aside, has the declared fields, by descending size and otherwise in the order in
   * which they are declared; so it is for every embedded type.
   */
  lemma PrintedOrder(fields: seq<Field>)
    requires NoPads(fields)
    ensures Unpadded(Padded(Sort(fields))) == Sort(fields)
    ensures Descending(Unpadded(Padded(Sort(fields))))
    ensures SameBySize(Unpadded(Padded(Sort(fields))), fields)
    ensures Descending(MadeAll(fields))
    ensures forall n: nat :: OfSize(MadeAll(fields), n) == EachMade(OfSize(fields, n))
  {
    SortStable(fields);
    SortedNoPads(fields);
    ErasingPadsRestores(Sort(fields));
    SortStable(EachMade(fields));
    forall n: nat
      ensures OfSize(MadeAll(fields), n) == EachMade(OfSize(fields, n))
    {
      OfSizeMade(fields, n);
    }
  }

  // ----- the names of the paddings

  /** The paddings of a list, in order. */
  function PadsOf(fields: seq<Field>): seq<Field> {
    if fields == [] then [] else (if IsPad(fields[0]) then [fields[0]] else []) + PadsOf(fields[1..])
  }

  predicate NumberedFrom(pads: seq<Field>, index: nat) {
    forall k: nat :: k < |pads| ==> pads[k].name == Padding(index + k)
  }

  lemma {:induction false} PadsConcat(a: seq<Field>, b: seq<Field>)
    ensures PadsOf(a + b) == PadsOf(a) + PadsOf(b)
    decreases |a|
  {
    if a == [] {
      assert a + b == b;
    } else {
      ConcatParts(a, b);
      PadsConcat(a[1..], b);
      Assoc(if IsPad(a[0]) then [a[0]] else [], PadsOf(a[1..]), PadsOf(b));
    }
  }

  lemma NumberedConcat(a: seq<Field>, b: seq<Field>, index: nat)
    requires NumberedFrom(a, index) && NumberedFrom(b, index + |a|)
    ensures NumberedFrom(a + b, index)
  {
  }

  lemma PadsInFront(f: Field, pos: nat, index: nat)
    ensures PadsOf(PadsBefore(f, pos, index)) == PadsBefore(f, pos, index)
    ensures NumberedFrom(PadsBefore(f, pos, index), index)
  {
    var pads := PadsBefore(f, pos, index);
    assert pads != [] ==> pads[1..] == [];
  }

  lemma {:induction false} InsertNumbers(fields: seq<Field>, pos: nat, index: nat)
    requires NoPads(fields)
    ensures NumberedFrom(PadsOf(Insert(fields, pos, index)), index)
    ensures |PadsOf(Insert(fields, pos, index))| == Inserted(fields, pos)
    decreases |fields|
  {
    if fields != [] {
      var f, rest := fields[0], fields[1..];
      var pads := PadsBefore(f, pos, index);
      var tail := Insert(rest, Behind(f, pos), index + |pads|);
      assert fields == [f] + rest;
      InsertNumbers(rest, Behind(f, pos), index + |pads|);
      InsertCons(f, rest, pos, index);
      InsertedCons(f, rest, pos, index);
      PadsInFront(f, pos, index);
      PadsConcat(pads, [f] + tail);
      PadsConcat([f], tail);
      assert PadsOf([f]) == [] && [] + PadsOf(tail) == PadsOf(tail);
      NumberedConcat(pads, PadsOf(tail), index);
    }
  }

  /** Paddings are numbered from 0 on, the one at the end included, so that no two have the same name. */
  lemma PaddingsNumbered(fields: seq<Field>)
    requires NoPads(fields)
    ensures NumberedFrom(PadsOf(Padded(fields)), 0)
  {
    InsertNumbers(fields, 0, 0);
    PadsConcat(Insert(fields, 0, 0), EndPad(fields));
    var last := EndPad(fields);
    assert last != [] ==> last[1..] == [] && PadsOf(last) == last;
    NumberedConcat(PadsOf(Insert(fields, 0, 0)), PadsOf(last), 0);
  }

  // ----- headers

  function WithoutHeaders(fields: seq<Field>): seq<Field> {
    if fields == [] then []
    else (if fields[0].isHeader then [] else [fields[0]]) + WithoutHeaders(fields[1..])
  }

  lemma {:induction false} HeadersTakeNothing(fields: seq<Field>, pos: nat)
    ensures End(WithoutHeaders(fields), pos) == End(fields, pos)
    decreases |fields|
  {
    if fields != [] {
      var f, rest := fields[0], fields[1..];
      assert fields == [f] + rest;
      EndCons(f, rest, pos);
      HeadersTakeNothing(rest, Behind(f, pos));
      if f.isHeader {
        assert [] + WithoutHeaders(rest) == WithoutHeaders(rest);
      } else {
        EndCons(f, WithoutHeaders(rest), pos);
      }
    }
  }

  /** Header fields, which are not printed, take no room: without them the size is the same. */
  lemma HeadersFree(fields: seq<Field>)
    ensures StructSize(WithoutHeaders(fields)) == StructSize(fields)
  {
    HeadersTakeNothing(fields, 0);
  }
}
