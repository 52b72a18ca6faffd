/** An honest ULog byte stream cut into packets, and which messages survive which losses. */
module UlogStream {
  import opened Bytes
  import opened UlogReceiver

  /**
   * `units` are the 16-byte file header followed by the ULog messages; `datas`, `offsets` and `acked`
   * are the packets published so far.
   */
  datatype Stream = Stream(
    units: seq<seq<byte>>,
    datas: seq<seq<byte>>,
    offsets: seq<byte>,
    acked: seq<bool>)

  const MAX_DATA: nat := 249

  predicate WellFormedUnits(units: seq<seq<byte>>) {
    && |units| > 0
    && |units[0]| == 16
    && forall k :: 1 <= k < |units| ==> Whole(units[k])
  }

  /** Unit `k` is the first one that starts at or after `a`, and it starts before `b`. */
  predicate FirstStart(units: seq<seq<byte>>, a: nat, b: nat, k: nat) {
    && k < |units|
    && a <= Pos(units, k) < b
    && forall j :: 0 <= j < k ==> Pos(units, j) < a
  }

  /** `offset` is where the first unit starting in bytes `a..b` starts, or 255 if none does. */
  ghost predicate HonestOffset(units: seq<seq<byte>>, a: nat, b: nat, offset: byte) {
    if offset == NO_MESSAGE_START then
      forall k :: 0 <= k < |units| ==> !(a <= Pos(units, k) < b)
    else
      exists k: nat :: FirstStart(units, a, b, k) && Pos(units, k) == a + offset as int
  }

  ghost predicate HonestSizes(s: Stream) {
    && |s.offsets| == |s.datas| == |s.acked|
    && (forall i :: 0 <= i < |s.datas| ==> 1 <= |s.datas[i]| <= MAX_DATA)
    && (|s.datas| > 0 ==> |s.datas[0]| >= 16)
  }

  ghost predicate HonestOffsets(s: Stream)
    requires HonestSizes(s)
  {
    forall i: nat :: i < |s.datas| ==> HonestPacket(s, i)
  }

  ghost predicate HonestPacket(s: Stream, i: nat)
    requires i < |s.datas| == |s.offsets|
  {
    HonestOffset(s.units, Pos(s.datas, i), Pos(s.datas, i + 1), s.offsets[i])
  }

  ghost predicate Honest(s: Stream) {
    && WellFormedUnits(s.units)
    && HonestSizes(s)
    && HonestOffsets(s)
    && Flatten(s.datas) <= Flatten(s.units)
  }

  /** Every packet that carries one of the bytes `a..b` is in `acc`. */
  ghost predicate Covered(s: Stream, acc: set<nat>, a: nat, b: nat) {
    forall c: nat :: Carries(s, c, a, b) ==> c in acc
  }

  /** Packet `c` carries one of the bytes `a..b`. */
  ghost predicate Carries(s: Stream, c: nat, a: nat, b: nat) {
    c < |s.datas| && Pos(s.datas, c) < b && a < Pos(s.datas, c + 1)
  }

  /** Unit `u` was published completely, and every packet it spans is in `acc`. */
  ghost predicate Intact(s: Stream, acc: set<nat>, u: nat)
    requires u < |s.units|
  {
    && Pos(s.units, u + 1) <= Pos(s.datas, |s.datas|)
    && Covered(s, acc, Pos(s.units, u), Pos(s.units, u + 1))
  }

  /** The intact messages among units `1..k`, in stream order. */
  ghost function Delivered(s: Stream, acc: set<nat>, k: nat): seq<seq<byte>>
    requires k <= |s.units|
  {
    if k <= 1 then []
    else Delivered(s, acc, k - 1) + (if Intact(s, acc, k - 1) then [s.units[k - 1]] else [])
  }

  // ----- positions

  lemma {:induction false} PacketsAdvance(s: Stream, i: nat, j: nat)
    requires HonestSizes(s) && i < j <= |s.datas|
    ensures Pos(s.datas, i) < Pos(s.datas, j)
  {
    assert Pos(s.datas, i + 1) == Pos(s.datas, i) + |s.datas[i]|;
    PosMonotone(s.datas, i + 1, j);
  }

  lemma {:induction false} UnitsAdvance(s: Stream, i: nat, j: nat)
    requires WellFormedUnits(s.units) && i < j <= |s.units|
    ensures Pos(s.units, i) < Pos(s.units, j)
  {
    assert Pos(s.units, i + 1) == Pos(s.units, i) + |s.units[i]|;
    PosMonotone(s.units, i + 1, j);
  }

  /** A packet's bytes are the stream bytes at its position. */
  lemma PacketBytes(s: Stream, i: nat)
    requires Honest(s) && i < |s.datas|
    ensures Pos(s.datas, i + 1) <= |Flatten(s.units)|
    ensures s.datas[i] == Flatten(s.units)[Pos(s.datas, i)..Pos(s.datas, i + 1)]
  {
    FlattenAt(s.datas, i);
    var all, sent := Flatten(s.units), Flatten(s.datas);
    assert sent == all[..|sent|];
    assert sent[Pos(s.datas, i)..Pos(s.datas, i + 1)] == all[Pos(s.datas, i)..Pos(s.datas, i + 1)];
  }

  // ----- coverage

  lemma CoveredStable(s: Stream, acc: set<nat>, i: nat, a: nat, b: nat)
    requires HonestSizes(s) && i < |s.datas| && b <= Pos(s.datas, i)
    ensures Covered(s, acc, a, b) <==> Covered(s, acc + {i}, a, b)
  {
    assert !Carries(s, i, a, b);
  }

  /** The next packet in line extends the covered bytes. */
  lemma CoveredExtends(s: Stream, acc: set<nat>, i: nat, a: nat, b: nat)
    requires HonestSizes(s) && i < |s.datas| && b <= Pos(s.datas, i + 1)
    requires Covered(s, acc, a, Pos(s.datas, i))
    ensures Covered(s, acc + {i}, a, b)
  {
    forall c: nat | Carries(s, c, a, b)
      ensures c in acc + {i}
    {
      if c > i {
        PosMonotone(s.datas, i + 1, c);
      } else if c < i {
        PacketsAdvance(s, c, i);
      }
    }
  }

  /** Bytes inside one packet need that packet only. */
  lemma CoveredInside(s: Stream, acc: set<nat>, i: nat, a: nat, b: nat)
    requires HonestSizes(s) && i < |s.datas| && i in acc
    requires Pos(s.datas, i) <= a && b <= Pos(s.datas, i + 1)
    ensures Covered(s, acc, a, b)
  {
    forall c: nat | Carries(s, c, a, b)
      ensures c in acc
    {
      if c > i {
        PosMonotone(s.datas, i + 1, c);
      } else if c < i {
        PosMonotone(s.datas, c + 1, i);
      }
    }
  }

  // ----- delivery

  /** Messages that ended before a packet are not affected by its arrival. */
  lemma {:induction false} DeliveredStable(s: Stream, acc: set<nat>, i: nat, k: nat)
    requires HonestSizes(s) && i < |s.datas| && k <= |s.units| && Pos(s.units, k) <= Pos(s.datas, i)
    ensures Delivered(s, acc + {i}, k) == Delivered(s, acc, k)
  {
    if k > 1 {
      DeliveredStable(s, acc, i, k - 1);
      CoveredStable(s, acc, i, Pos(s.units, k - 1), Pos(s.units, k));
    }
  }

  /** Units `k..m`, all intact, are delivered behind the ones before. */
  lemma {:induction false} DeliveredRun(s: Stream, acc: set<nat>, k: nat, m: nat)
    requires 1 <= k <= m <= |s.units|
    requires forall u :: k <= u < m ==> Intact(s, acc, u)
    ensures Delivered(s, acc, m) == Delivered(s, acc, k) + s.units[k..m]
  {
    if k < m {
      DeliveredRun(s, acc, k, m - 1);
      assert s.units[k..m] == s.units[k..m - 1] + [s.units[m - 1]];
    }
  }

  /** Units `k..m`, none intact, add nothing. */
  lemma {:induction false} DeliveredSkip(s: Stream, acc: set<nat>, k: nat, m: nat)
    requires 1 <= k <= m <= |s.units|
    requires forall u :: k <= u < m ==> !Intact(s, acc, u)
    ensures Delivered(s, acc, m) == Delivered(s, acc, k)
  {
    if k < m {
      DeliveredSkip(s, acc, k, m - 1);
    }
  }

  /** Units inside packet `i` are intact once it is accepted. */
  lemma InsideIntact(s: Stream, acc: set<nat>, i: nat, u: nat)
    requires HonestSizes(s) && i < |s.datas| && i in acc && u < |s.units|
    requires Pos(s.datas, i) <= Pos(s.units, u) && Pos(s.units, u + 1) <= Pos(s.datas, i + 1)
    ensures Intact(s, acc, u)
  {
    CoveredInside(s, acc, i, Pos(s.units, u), Pos(s.units, u + 1));
    PosMonotone(s.datas, i + 1, |s.datas|);
  }

  /** A unit with a byte in a packet that was not accepted is not intact. */
  lemma BrokenByLoss(s: Stream, acc: set<nat>, c: nat, u: nat)
    requires c < |s.datas| && c !in acc && u < |s.units|
    requires Pos(s.datas, c) < Pos(s.units, u + 1) && Pos(s.units, u) < Pos(s.datas, c + 1)
    ensures !Intact(s, acc, u)
  {
    assert Carries(s, c, Pos(s.units, u), Pos(s.units, u + 1));
  }

  // ----- parsing a stretch of the stream

  /** Parsing the bytes from the start of unit `k` up to `b` yields units `k..m` and leaves the bytes behind them. */
  ghost predicate Parses(units: seq<seq<byte>>, all: seq<byte>, k: nat, m: nat, b: nat) {
    && k <= m <= |units| && Pos(units, k) <= b && Pos(units, m) <= b <= |all|
    && ParseMessages(all[Pos(units, k)..b]) == Parsed(units[k..m], all[Pos(units, m)..b])
  }

  lemma UnitsCons(units: seq<seq<byte>>, k: nat, m: nat)
    requires k < m <= |units|
    ensures units[k..m] == [units[k]] + units[k + 1..m]
  {
  }

  lemma ParsesMore(units: seq<seq<byte>>, all: seq<byte>, k: nat, m: nat, b: nat)
    requires k < |units| && Parses(units, all, k + 1, m, b) && Whole(units[k])
    requires Pos(units, k + 1) == Pos(units, k) + |units[k]|
    requires all[Pos(units, k)..Pos(units, k + 1)] == units[k]
    ensures Parses(units, all, k, m, b)
  {
    ParseFront(units[k], all, Pos(units, k), Pos(units, k + 1), b);
    UnitsCons(units, k, m);
  }

  lemma ParsesNone(units: seq<seq<byte>>, all: seq<byte>, k: nat, b: nat)
    requires k < |units| && Pos(units, k) <= b < Pos(units, k + 1) <= |all| && Whole(units[k])
    requires all[Pos(units, k)..Pos(units, k + 1)] == units[k]
    ensures Parses(units, all, k, k, b)
  {
    var d := all[Pos(units, k)..b];
    SliceCut(all, Pos(units, k), Pos(units, k + 1), b - Pos(units, k));
    ParseShort(units[k], d);
  }

  /**
   * Parsing the bytes from the start of unit `k` up to `b` yields exactly the units that end by `b`,
   * and leaves the front of the next one.
   */
  lemma {:induction false} ParseStretch(units: seq<seq<byte>>, k: nat, b: nat) returns (m: nat)
    requires WellFormedUnits(units) && 1 <= k <= |units|
    requires Pos(units, k) <= b <= |Flatten(units)|
    ensures Parses(units, Flatten(units), k, m, b)
    ensures m < |units| ==> b < Pos(units, m + 1)
    decreases |units| - k
  {
    var all := Flatten(units);
    m := k;
    if k == |units| {
      FlattenLength(units);
    } else {
      FlattenAt(units, k);
      if Pos(units, k + 1) <= b {
        m := ParseStretch(units, k + 1, b);
        ParsesMore(units, all, k, m, b);
      } else {
        ParsesNone(units, all, k, b);
      }
    }
  }

  lemma ParseFront(unit: seq<byte>, all: seq<byte>, a: nat, c: nat, b: nat)
    requires Whole(unit) && a <= c <= b <= |all| && all[a..c] == unit
    ensures var rest := ParseMessages(all[c..b]);
      ParseMessages(all[a..b]) == Parsed([unit] + rest.messages, rest.rest)
  {
    var d := all[a..b];
    assert d[0] == all[a..c][0] && d[1] == all[a..c][1];
    assert MessageLength(d) == |unit|;
    assert d[..|unit|] == unit;
    assert d[|unit|..] == all[c..b];
  }

  lemma ParseShort(unit: seq<byte>, d: seq<byte>)
    requires Whole(unit) && |d| < |unit| && d <= unit
    ensures ParseMessages(d) == Parsed([], d)
  {
    if |d| > 2 {
      assert d[0] == unit[0] && d[1] == unit[1];
    }
  }
}
