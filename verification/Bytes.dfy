/** Octets, and the sequence helpers every protocol module shares. */
module Bytes {

  newtype byte = b: int | 0 <= b < 256

  /** A Python slice `s[n:]`: a start past the end gives the empty slice. */
  function From<T>(s: seq<T>, n: nat): seq<T> {
    if n <= |s| then s[n..] else []
  }

  /** A Python slice `s[:n]`: an end past the end gives the whole sequence. */
  function UpTo<T>(s: seq<T>, n: nat): seq<T> {
    if n <= |s| then s[..n] else s
  }

  function Flatten<T>(ss: seq<seq<T>>): seq<T> {
    if ss == [] then [] else ss[0] + Flatten(ss[1..])
  }

  /** Total length of the first `k` pieces, that is, where piece `k` starts. */
  function Pos<T>(ss: seq<seq<T>>, k: nat): nat
    requires k <= |ss|
  {
    if k == 0 then 0 else Pos(ss, k - 1) + |ss[k - 1]|
  }

  lemma Assoc<T>(a: seq<T>, b: seq<T>, c: seq<T>)
    ensures a + b + c == a + (b + c)
  {
  }

  lemma EmptyBetween<T>(a: seq<T>, b: seq<T>)
    ensures a + [] + b == a + b
  {
  }

  /** Adjacent slices join. */
  lemma SliceJoin<T>(s: seq<T>, a: nat, b: nat, c: nat)
    requires a <= b <= c <= |s|
    ensures s[a..b] + s[b..c] == s[a..c]
  {
  }

  lemma SlicePrefix<T>(s: seq<T>, a: nat, b: nat, c: nat)
    requires a <= b <= c <= |s|
    ensures s[a..b] <= s[a..c]
  {
  }

  /** Either end of a sequence, past the end or not. */
  lemma FrontAndBack<T>(s: seq<T>, n: nat)
    ensures UpTo(s, n) + From(s, n) == s
  {
  }

  lemma SliceOfSlice<T>(s: seq<T>, a: nat, b: nat, p: nat, n: nat)
    requires a + p + n <= b <= |s|
    ensures s[a..b][p..p + n] == s[a + p..a + p + n]
  {
    var x, y := s[a..b][p..p + n], s[a + p..a + p + n];
    assert |x| == n && |y| == n;
    forall i | 0 <= i < n
      ensures x[i] == y[i]
    {
      assert x[i] == s[a..b][p + i] == s[a + (p + i)];
    }
  }

  /** Cutting a slice. */
  lemma SliceCut<T>(s: seq<T>, a: nat, b: nat, k: nat)
    requires a + k <= b <= |s|
    ensures From(s[a..b], k) == s[a + k..b] && UpTo(s[a..b], k) == s[a..a + k]
  {
  }

  lemma ConcatParts<T>(a: seq<T>, b: seq<T>)
    requires a != []
    ensures a + b != [] && (a + b)[0] == a[0] && (a + b)[1..] == a[1..] + b
  {
  }

  lemma FlattenCons<T>(x: seq<T>, rest: seq<seq<T>>)
    ensures Flatten([x] + rest) == x + Flatten(rest)
  {
    assert ([x] + rest)[1..] == rest;
  }

  lemma {:induction false} FlattenConcat<T>(a: seq<seq<T>>, b: seq<seq<T>>)
    ensures Flatten(a + b) == Flatten(a) + Flatten(b)
  {
    if a == [] {
      assert a + b == b;
    } else {
      var x, rest := a[0], a[1..];
      FlattenConcat(rest, b);
      ConcatParts(a, b);
      Assoc(x, Flatten(rest), Flatten(b));
    }
  }

  lemma {:induction false} FlattenSnoc<T>(a: seq<seq<T>>, x: seq<T>)
    ensures Flatten(a + [x]) == Flatten(a) + x
  {
    FlattenConcat(a, [x]);
    assert [x][1..] == [];
  }

  /** Only the first `k` pieces matter for where piece `k` starts. */
  lemma {:induction false} PosPrefix<T>(a: seq<seq<T>>, b: seq<seq<T>>, k: nat)
    requires k <= |a| && k <= |b| && a[..k] == b[..k]
    ensures Pos(a, k) == Pos(b, k)
  {
    if k > 0 {
      assert a[..k - 1] == a[..k][..k - 1] == b[..k - 1];
      assert a[k - 1] == a[..k][k - 1] == b[k - 1];
      PosPrefix(a, b, k - 1);
    }
  }

  lemma {:induction false} PosMonotone<T>(ss: seq<seq<T>>, i: nat, j: nat)
    requires i <= j <= |ss|
    ensures Pos(ss, i) <= Pos(ss, j)
  {
    if i < j {
      PosMonotone(ss, i, j - 1);
    }
  }

  lemma {:induction false} PosIsFlattenLength<T>(ss: seq<seq<T>>, k: nat)
    requires k <= |ss|
    ensures Pos(ss, k) == |Flatten(ss[..k])|
  {
    if k > 0 {
      PosIsFlattenLength(ss, k - 1);
      assert ss[..k] == ss[..k - 1] + [ss[k - 1]];
      FlattenSnoc(ss[..k - 1], ss[k - 1]);
    } else {
      assert ss[..0] == [];
    }
  }

  /** Pieces `i..j` occupy exactly the bytes between their start positions. */
  lemma {:induction false} FlattenSlice<T>(ss: seq<seq<T>>, i: nat, j: nat)
    requires i <= j <= |ss|
    ensures Pos(ss, i) <= Pos(ss, j) <= |Flatten(ss)|
    ensures Flatten(ss)[Pos(ss, i)..Pos(ss, j)] == Flatten(ss[i..j])
  {
    assert ss == ss[..i] + (ss[i..j] + ss[j..]);
    FlattenConcat(ss[..i], ss[i..j] + ss[j..]);
    FlattenConcat(ss[i..j], ss[j..]);
    assert ss[..j] == ss[..i] + ss[i..j];
    FlattenConcat(ss[..i], ss[i..j]);
    PosIsFlattenLength(ss, i);
    PosIsFlattenLength(ss, j);
    assert Flatten(ss) == Flatten(ss[..i]) + (Flatten(ss[i..j]) + Flatten(ss[j..]));
  }

  lemma {:induction false} FlattenAt<T>(ss: seq<seq<T>>, i: nat)
    requires i < |ss|
    ensures Pos(ss, i + 1) <= |Flatten(ss)|
    ensures Flatten(ss)[Pos(ss, i)..Pos(ss, i + 1)] == ss[i]
  {
    FlattenSlice(ss, i, i + 1);
    assert ss[i..i + 1] == [ss[i]];
    assert Flatten([ss[i]]) == ss[i] + Flatten([ss[i]][1..]);
  }

  lemma FlattenLength<T>(ss: seq<seq<T>>)
    ensures |Flatten(ss)| == Pos(ss, |ss|)
  {
    PosIsFlattenLength(ss, |ss|);
    assert ss[..|ss|] == ss;
  }

  /** The piece that holds position `x`. */
  lemma {:induction false} Locate<T>(ss: seq<seq<T>>, x: nat, n: nat) returns (k: nat)
    requires n <= |ss| && x < Pos(ss, n)
    ensures k < n && Pos(ss, k) <= x < Pos(ss, k + 1)
  {
    if Pos(ss, n - 1) <= x {
      k := n - 1;
    } else {
      k := Locate(ss, x, n - 1);
    }
  }
}
