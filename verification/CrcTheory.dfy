/**
 * The byte-wise CRC-32 update over an arbitrary table: what it computes and what it detects.
 *
 * The theory is stated over any type `B` of bytes with an exclusive-or `x` and a zero, so that its proofs
 * rest on the algebraic laws alone.
 */
module CrcTheory {

  /** A word as its four bytes, lowest first: the order in which it travels. */
  datatype Word<B> = Word(b0: B, b1: B, b2: B, b3: B)

  type Op<!B> = (B, B) -> B

  function Xor<B>(x: Op<B>, v: Word<B>, w: Word<B>): Word<B> {
    Word(x(v.b0, w.b0), x(v.b1, w.b1), x(v.b2, w.b2), x(v.b3, w.b3))
  }

  /** The word moved down by one byte. */
  function Shift<B>(zero: B, w: Word<B>): Word<B> {
    Word(w.b1, w.b2, w.b3, zero)
  }

  function Low<B>(zero: B, b: B): Word<B> {
    Word(b, zero, zero, zero)
  }

  // The table is a parameter: the uploader carries a constant one, the bootloader generates its own.

  /** One byte: the table entry for the low byte, combined with the remaining bytes shifted down. */
  function Step<B>(x: Op<B>, zero: B, t: B -> Word<B>, state: Word<B>, b: B): Word<B> {
    Xor(x, t(x(state.b0, b)), Shift(zero, state))
  }

  function Crc<B>(x: Op<B>, zero: B, t: B -> Word<B>, data: seq<B>, state: Word<B>): Word<B>
    decreases |data|
  {
    if |data| == 0 then state else Crc(x, zero, t, data[1..], Step(x, zero, t, state, data[0]))
  }

  /** The reference: each byte enters the low end and is divided out by `f`, eight bits at a time. */
  function DivisionCrc<B>(x: Op<B>, zero: B, f: Word<B> -> Word<B>, data: seq<B>, state: Word<B>): Word<B>
    decreases |data|
  {
    if |data| == 0 then state
    else DivisionCrc(x, zero, f, data[1..], f(Xor(x, state, Low(zero, data[0]))))
  }

  // ----- laws

  ghost predicate Group<B(!new)>(x: Op<B>, zero: B) {
    && (forall a :: x(a, zero) == a && x(zero, a) == a)
    && (forall a, b, c :: x(a, b) == x(a, c) ==> b == c)
    && (forall a, b, c :: x(a, c) == x(b, c) ==> a == b)
  }

  ghost predicate Linear<B(!new)>(x: Op<B>, f: Word<B> -> Word<B>) {
    forall a, b :: f(Xor(x, a, b)) == Xor(x, f(a), f(b))
  }

  /** A word whose low byte is zero is only shifted. */
  ghost predicate Shifts<B(!new)>(zero: B, f: Word<B> -> Word<B>) {
    forall h: Word<B> :: h.b0 == zero ==> f(h) == Shift(zero, h)
  }

  ghost predicate Tabulates<B(!new)>(zero: B, t: B -> Word<B>, f: Word<B> -> Word<B>) {
    forall i :: t(i) == f(Low(zero, i))
  }

  /** No two entries share their top byte: the top bytes are a permutation. */
  ghost predicate TopInjective<B(!new)>(t: B -> Word<B>) {
    forall i, j :: t(i).b3 == t(j).b3 ==> i == j
  }

  // ----- iterating a division step

  ghost predicate Additive<T(!new)>(x: Op<T>, f: T -> T) {
    forall a, b :: f(x(a, b)) == x(f(a), f(b))
  }

  function Iterate<T>(f: T -> T, n: nat, c: T): T
    decreases n
  {
    if n == 0 then c else Iterate(f, n - 1, f(c))
  }

  lemma {:induction false} IterateAdditive<T(!new)>(x: Op<T>, f: T -> T, n: nat, a: T, b: T)
    requires Additive(x, f)
    ensures Iterate(f, n, x(a, b)) == x(Iterate(f, n, a), Iterate(f, n, b))
    decreases n
  {
    if n > 0 {
      IterateAdditive(x, f, n - 1, f(a), f(b));
    }
  }

  /** A linear table without a zero top byte, except at zero, has pairwise different top bytes. */
  lemma TopInjectiveFromLinear<B(!new)>(x: Op<B>, zero: B, t: B -> Word<B>, f: Word<B> -> Word<B>)
    requires Group(x, zero) && Linear(x, f) && Tabulates(zero, t, f)
    requires forall a :: x(a, a) == zero
    requires forall k :: t(k).b3 == zero ==> k == zero
    ensures TopInjective(t)
  {
    forall i, j | t(i).b3 == t(j).b3
      ensures i == j
    {
      assert Xor(x, Low(zero, i), Low(zero, j)) == Low(zero, x(i, j));
      assert t(x(i, j)) == Xor(x, t(i), t(j));
      assert x(i, j) == zero == x(i, i);
    }
  }

  // ----- the table-driven update is polynomial division

  /** A table of a linear, shifting division step turns it into the table-driven update. */
  lemma StepIsDivision<B(!new)>(x: Op<B>, zero: B, t: B -> Word<B>, f: Word<B> -> Word<B>, state: Word<B>, b: B)
    requires Group(x, zero) && Linear(x, f) && Shifts(zero, f) && Tabulates(zero, t, f)
    ensures Step(x, zero, t, state, b) == f(Xor(x, state, Low(zero, b)))
  {
    var entered := Low(zero, x(state.b0, b));
    var upper := Word(zero, state.b1, state.b2, state.b3);
    assert Xor(x, state, Low(zero, b)) == Xor(x, entered, upper);
    assert f(Xor(x, entered, upper)) == Xor(x, f(entered), f(upper));
  }

  lemma {:induction false} CrcIsDivision<B(!new)>(
    x: Op<B>, zero: B, t: B -> Word<B>, f: Word<B> -> Word<B>, data: seq<B>, state: Word<B>)
    requires Group(x, zero) && Linear(x, f) && Shifts(zero, f) && Tabulates(zero, t, f)
    ensures Crc(x, zero, t, data, state) == DivisionCrc(x, zero, f, data, state)
    decreases |data|
  {
    if |data| > 0 {
      StepIsDivision(x, zero, t, f, state, data[0]);
      CrcIsDivision(x, zero, t, f, data[1..], Step(x, zero, t, state, data[0]));
    }
  }

  lemma {:induction false} CrcConcat<B>(x: Op<B>, zero: B, t: B -> Word<B>, a: seq<B>, b: seq<B>, state: Word<B>)
    ensures Crc(x, zero, t, a + b, state) == Crc(x, zero, t, b, Crc(x, zero, t, a, state))
    decreases |a|
  {
    if |a| == 0 {
      assert a + b == b;
    } else {
      assert (a + b)[1..] == a[1..] + b;
      CrcConcat(x, zero, t, a[1..], b, Step(x, zero, t, state, a[0]));
    }
  }

  // ----- injectivity

  /** Agreement of the results' top bytes means that the same table entry was used. */
  lemma SameEntry<B(!new)>(x: Op<B>, zero: B, t: B -> Word<B>, s: Word<B>, a: B, s': Word<B>, b: B)
    requires Group(x, zero) && TopInjective(t)
    requires Step(x, zero, t, s, a).b3 == Step(x, zero, t, s', b).b3
    ensures x(s.b0, a) == x(s'.b0, b)
    ensures Step(x, zero, t, s, a).b2 == Step(x, zero, t, s', b).b2 ==> s.b3 == s'.b3
    ensures Step(x, zero, t, s, a).b1 == Step(x, zero, t, s', b).b1 ==> s.b2 == s'.b2
    ensures Step(x, zero, t, s, a).b0 == Step(x, zero, t, s', b).b0 ==> s.b1 == s'.b1
  {
    assert t(x(s.b0, a)) == t(x(s'.b0, b));
  }

  /** Each step is injective in the state. */
  lemma StepInjective<B(!new)>(x: Op<B>, zero: B, t: B -> Word<B>, s: Word<B>, s': Word<B>, b: B)
    requires Group(x, zero) && TopInjective(t)
    requires Step(x, zero, t, s, b) == Step(x, zero, t, s', b)
    ensures s == s'
  {
    SameEntry(x, zero, t, s, b, s', b);
  }

  lemma {:induction false} CrcInjective<B(!new)>(
    x: Op<B>, zero: B, t: B -> Word<B>, data: seq<B>, s: Word<B>, s': Word<B>)
    requires Group(x, zero) && TopInjective(t)
    requires Crc(x, zero, t, data, s) == Crc(x, zero, t, data, s')
    ensures s == s'
    decreases |data|
  {
    if |data| > 0 {
      CrcInjective(x, zero, t, data[1..], Step(x, zero, t, s, data[0]), Step(x, zero, t, s', data[0]));
      StepInjective(x, zero, t, s, s', data[0]);
    }
  }

  lemma CrcOfFour<B>(x: Op<B>, zero: B, t: B -> Word<B>, s: Word<B>, a: seq<B>)
    requires |a| == 4
    ensures Crc(x, zero, t, a, s) ==
      Step(x, zero, t, Step(x, zero, t, Step(x, zero, t, Step(x, zero, t, s, a[0]), a[1]), a[2]), a[3])
  {
    var s1 := Step(x, zero, t, s, a[0]);
    var s2 := Step(x, zero, t, s1, a[1]);
    var s3 := Step(x, zero, t, s2, a[2]);
    assert a[1..][1..] == a[2..] && a[2..][1..] == a[3..];
    assert Crc(x, zero, t, a[3..], s3) == Step(x, zero, t, s3, a[3]);
    assert Crc(x, zero, t, a[2..], s2) == Crc(x, zero, t, a[3..], s3);
    assert Crc(x, zero, t, a[1..], s1) == Crc(x, zero, t, a[2..], s2);
  }

  /** From one state, four bytes determine the result and are determined by it. */
  lemma FourBytesInjective<B(!new)>(x: Op<B>, zero: B, t: B -> Word<B>, s: Word<B>, a: seq<B>, b: seq<B>)
    requires Group(x, zero) && TopInjective(t) && |a| == |b| == 4
    requires Crc(x, zero, t, a, s) == Crc(x, zero, t, b, s)
    ensures a == b
  {
    CrcOfFour(x, zero, t, s, a);
    CrcOfFour(x, zero, t, s, b);
    var s1, s1' := Step(x, zero, t, s, a[0]), Step(x, zero, t, s, b[0]);
    var s2, s2' := Step(x, zero, t, s1, a[1]), Step(x, zero, t, s1', b[1]);
    var s3, s3' := Step(x, zero, t, s2, a[2]), Step(x, zero, t, s2', b[2]);
    // back from the result: every step used the same table entry
    SameEntry(x, zero, t, s3, a[3], s3', b[3]);
    SameEntry(x, zero, t, s2, a[2], s2', b[2]);
    SameEntry(x, zero, t, s1, a[1], s1', b[1]);
    SameEntry(x, zero, t, s, a[0], s, b[0]);
    // forward from the common state: every byte is the same
    assert a[0] == b[0];
    assert a[1] == b[1];
    assert a[2] == b[2];
    assert a[3] == b[3];
  }

  /** Up to four bytes are determined by the result. */
  lemma BurstInjective<B(!new)>(x: Op<B>, zero: B, t: B -> Word<B>, s: Word<B>, a: seq<B>, b: seq<B>)
    requires Group(x, zero) && TopInjective(t) && |a| == |b| <= 4
    requires Crc(x, zero, t, a, s) == Crc(x, zero, t, b, s)
    ensures a == b
  {
    var fill := seq(4 - |a|, _ => zero);
    CrcConcat(x, zero, t, a, fill, s);
    CrcConcat(x, zero, t, b, fill, s);
    FourBytesInjective(x, zero, t, s, a + fill, b + fill);
    assert a == (a + fill)[..|a|] && b == (b + fill)[..|b|];
  }

  /** Equal-length data that differ only inside some four consecutive bytes never share their CRC. */
  lemma BurstDetected<B(!new)>(x: Op<B>, zero: B, t: B -> Word<B>, u: seq<B>, v: seq<B>, i: nat, state: Word<B>)
    requires Group(x, zero) && TopInjective(t) && |u| == |v| && i <= |u| && u != v
    requires forall k :: 0 <= k < |u| && !(i <= k < i + 4) ==> u[k] == v[k]
    ensures Crc(x, zero, t, u, state) != Crc(x, zero, t, v, state)
  {
    var j := if i + 4 <= |u| then i + 4 else |u|;
    assert u == u[..i] + (u[i..j] + u[j..]) && v == v[..i] + (v[i..j] + v[j..]);
    assert u[..i] == v[..i] && u[j..] == v[j..];
    var s := Crc(x, zero, t, u[..i], state);
    CrcConcat(x, zero, t, u[..i], u[i..j] + u[j..], state);
    CrcConcat(x, zero, t, v[..i], v[i..j] + v[j..], state);
    CrcConcat(x, zero, t, u[i..j], u[j..], s);
    CrcConcat(x, zero, t, v[i..j], v[j..], s);
    if Crc(x, zero, t, u, state) == Crc(x, zero, t, v, state) {
      CrcInjective(x, zero, t, u[j..], Crc(x, zero, t, u[i..j], s), Crc(x, zero, t, v[i..j], s));
      BurstInjective(x, zero, t, s, u[i..j], v[i..j]);
    }
  }
}
