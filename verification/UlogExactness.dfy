/** What the receiver has written after any loss, duplication and reordering of packets. */
module UlogExactness {
  import opened Bytes
  import opened UlogReceiver
  import opened UlogStream

  // ----- the two kinds of record in a log

  function Messages(rs: seq<Record>): seq<seq<byte>> {
    if rs == [] then []
    else (if rs[0].Message? then [rs[0].bytes] else []) + Messages(rs[1..])
  }

  function Markers(rs: seq<Record>): seq<nat> {
    if rs == [] then []
    else (if rs[0].Dropout? then [rs[0].count] else []) + Markers(rs[1..])
  }

  lemma {:induction false} MessagesConcat(a: seq<Record>, b: seq<Record>)
    ensures Messages(a + b) == Messages(a) + Messages(b)
  {
    if a == [] {
      assert a + b == b;
    } else {
      var rest := a[1..];
      MessagesConcat(rest, b);
      assert (a + b)[1..] == rest + b;
      Assoc(if a[0].Message? then [a[0].bytes] else [], Messages(rest), Messages(b));
    }
  }

  lemma {:induction false} MarkersConcat(a: seq<Record>, b: seq<Record>)
    ensures Markers(a + b) == Markers(a) + Markers(b)
  {
    if a == [] {
      assert a + b == b;
    } else {
      var rest := a[1..];
      MarkersConcat(rest, b);
      assert (a + b)[1..] == rest + b;
      Assoc(if a[0].Dropout? then [a[0].count] else [], Markers(rest), Markers(b));
    }
  }

  lemma {:induction false} SplitMessages(ms: seq<seq<byte>>)
    ensures Messages(AsRecords(ms)) == ms
    ensures Markers(AsRecords(ms)) == []
  {
    if ms != [] {
      SplitMessages(ms[1..]);
      assert AsRecords(ms)[1..] == AsRecords(ms[1..]);
    }
  }

  lemma AppendMessages(rs: seq<Record>, ms: seq<seq<byte>>)
    ensures Messages(rs + AsRecords(ms)) == Messages(rs) + ms
    ensures Markers(rs + AsRecords(ms)) == Markers(rs)
  {
    MessagesConcat(rs, AsRecords(ms));
    MarkersConcat(rs, AsRecords(ms));
    SplitMessages(ms);
  }

  lemma AppendOne(rs: seq<Record>, r: Record)
    ensures Messages(rs + [r]) == Messages(rs) + (if r.Message? then [r.bytes] else [])
    ensures Markers(rs + [r]) == Markers(rs) + (if r.Dropout? then [r.count] else [])
  {
    MessagesConcat(rs, [r]);
    MarkersConcat(rs, [r]);
    assert [r][1..] == [];
  }

  // ----- the invariant that every packet keeps

  /** Everything from the start of unit `k` to the end of packet `last` arrived and is waiting. */
  ghost predicate Synced(s: Stream, acc: set<nat>, last: nat, rx: Rx, k: nat)
    requires last < |s.datas| && k <= |s.units|
  {
    var p := Pos(s.datas, last + 1);
    && Pos(s.units, k) <= p <= |Flatten(s.units)|
    && rx.pending == Flatten(s.units)[Pos(s.units, k)..p]
    && Covered(s, acc, Pos(s.units, k), p)
    && (Pos(s.units, k) < p ==> k < |s.units| && p <= Pos(s.units, k + 1))
  }

  /** Packet `last` ends inside (or at the end of) unit `k`, part of which was lost. */
  ghost predicate Lost(s: Stream, acc: set<nat>, last: nat, rx: Rx, k: nat)
    requires last < |s.datas| && k <= |s.units|
  {
    var p := Pos(s.datas, last + 1);
    && rx.pending == []
    && k < |s.units|
    && Pos(s.units, k) < p <= Pos(s.units, k + 1)
    && !Covered(s, acc, Pos(s.units, k), p)
  }

  ghost predicate Tracks(s: Stream, acc: set<nat>, last: nat, rx: Rx, k: nat) {
    && last < |s.datas|
    && last in acc
    && (forall c :: c in acc ==> c <= last)
    && 1 <= k <= |s.units|
    && rx.gotHeader
    && rx.header == s.units[0]
    && Messages(rx.records) == Delivered(s, acc, k)
    && (Synced(s, acc, last, rx, k) || Lost(s, acc, last, rx, k))
  }

  /** Units `k..m` inside packet `i` are all delivered when it is accepted. */
  lemma DeliveredInside(s: Stream, acc: set<nat>, i: nat, k: nat, m: nat)
    requires HonestSizes(s) && i < |s.datas| && i in acc && 1 <= k <= m <= |s.units|
    requires Pos(s.datas, i) <= Pos(s.units, k) && Pos(s.units, m) <= Pos(s.datas, i + 1)
    ensures Delivered(s, acc, m) == Delivered(s, acc, k) + s.units[k..m]
  {
    forall u | k <= u < m
      ensures Intact(s, acc, u)
    {
      PosMonotone(s.units, k, u);
      PosMonotone(s.units, u + 1, m);
      InsideIntact(s, acc, i, u);
    }
    DeliveredRun(s, acc, k, m);
  }

  /** Parsing the last packet from the start of unit `k` in it. */
  lemma ResumeTracks(s: Stream, acc: set<nat>, i: nat, rx: Rx, k: nat, data: seq<byte>) returns (m: nat)
    requires Honest(s) && i < |s.datas| && i in acc && (forall c :: c in acc ==> c <= i)
    requires 1 <= k <= |s.units| && Pos(s.datas, i) <= Pos(s.units, k) <= Pos(s.datas, i + 1) <= |Flatten(s.units)|
    requires rx.gotHeader && rx.header == s.units[0] && Messages(rx.records) == Delivered(s, acc, k)
    requires data == Flatten(s.units)[Pos(s.units, k)..Pos(s.datas, i + 1)]
    ensures Tracks(s, acc, i, Resume(rx, data), m)
    ensures Markers(Resume(rx, data).records) == Markers(rx.records)
  {
    var p := Pos(s.datas, i + 1);
    m := ParseStretch(s.units, k, p);
    var rx' := Resume(rx, data);
    assert rx'.pending == Flatten(s.units)[Pos(s.units, m)..p] && rx'.records == rx.records + AsRecords(s.units[k..m]);
    assert Messages(rx'.records) == Delivered(s, acc, m) && Markers(rx'.records) == Markers(rx.records) by {
      AppendMessages(rx.records, s.units[k..m]);
      DeliveredInside(s, acc, i, k, m);
    }
    assert Synced(s, acc, i, rx', m) by {
      PosMonotone(s.units, k, m);
      CoveredInside(s, acc, i, Pos(s.units, m), p);
      FlattenLength(s.units);
    }
  }

  /** Where the first unit starting in packet `i` sits relative to a unit reaching up to it. */
  lemma NextStart(s: Stream, i: nat, k: nat, k2: nat)
    requires Honest(s) && i < |s.datas| && k < |s.units|
    requires Pos(s.units, k) < Pos(s.datas, i) <= Pos(s.units, k + 1)
    requires FirstStart(s.units, Pos(s.datas, i), Pos(s.datas, i + 1), k2)
    ensures k2 == k + 1
  {
    if k2 <= k {
      PosMonotone(s.units, k2, k);
    }
  }

  /** If no unit starts in packet `i`, the unit reaching up to it reaches beyond it. */
  lemma NoStart(s: Stream, i: nat, k: nat)
    requires Honest(s) && i < |s.datas| && s.offsets[i] == NO_MESSAGE_START
    requires k < |s.units| && Pos(s.datas, i) <= Pos(s.units, k + 1)
    ensures Pos(s.datas, i + 1) <= Pos(s.units, k + 1)
  {
    PacketBytes(s, i);
    FlattenLength(s.units);
    assert HonestPacket(s, i);
    if k + 1 < |s.units| {
      assert !(Pos(s.datas, i) <= Pos(s.units, k + 1) < Pos(s.datas, i + 1));
    }
  }

  /** A packet always follows a unit that starts right at its front, so its offset is then not 255. */
  lemma StartAtFront(s: Stream, i: nat, k: nat)
    requires Honest(s) && i < |s.datas| && k <= |s.units| && Pos(s.units, k) == Pos(s.datas, i)
    ensures k < |s.units| && s.offsets[i] != NO_MESSAGE_START
    ensures FirstStart(s.units, Pos(s.datas, i), Pos(s.datas, i + 1), k)
  {
    PacketBytes(s, i);
    FlattenLength(s.units);
    PacketsAdvance(s, i, i + 1);
    assert HonestPacket(s, i);
    forall j | 0 <= j < k
      ensures Pos(s.units, j) < Pos(s.datas, i)
    {
      UnitsAdvance(s, j, k);
    }
  }

  lemma FirstStartUnique(s: Stream, a: nat, b: nat, k: nat, k': nat)
    requires FirstStart(s.units, a, b, k) && FirstStart(s.units, a, b, k')
    ensures k == k'
  {
  }

  /** The unit whose start the packet announces. */
  lemma Announced(s: Stream, i: nat) returns (k: nat)
    requires Honest(s) && i < |s.datas| && s.offsets[i] != NO_MESSAGE_START
    ensures FirstStart(s.units, Pos(s.datas, i), Pos(s.datas, i + 1), k)
    ensures Pos(s.units, k) == Pos(s.datas, i) + s.offsets[i] as nat
    ensures s.offsets[i] as nat <= |s.datas[i]|
    ensures Pos(s.datas, i + 1) <= |Flatten(s.units)|
    ensures From(s.datas[i], s.offsets[i] as nat) == Flatten(s.units)[Pos(s.units, k)..Pos(s.datas, i + 1)]
    ensures UpTo(s.datas[i], s.offsets[i] as nat) == Flatten(s.units)[Pos(s.datas, i)..Pos(s.units, k)]
  {
    assert HonestPacket(s, i);
    k :| FirstStart(s.units, Pos(s.datas, i), Pos(s.datas, i + 1), k) && Pos(s.units, k) == Pos(s.datas, i) + s.offsets[i] as nat;
    PacketBytes(s, i);
    SliceCut(Flatten(s.units), Pos(s.datas, i), Pos(s.datas, i + 1), s.offsets[i] as nat);
  }

  // ----- a packet without a gap before it

  lemma ExtendTracks(s: Stream, acc: set<nat>, last: nat, rx: Rx, k: nat)
    requires Honest(s) && Tracks(s, acc, last, rx, k) && last + 1 < |s.datas|
    requires s.offsets[last + 1] == NO_MESSAGE_START && rx.pending != []
    ensures Tracks(s, acc + {last + 1}, last + 1, rx.(pending := rx.pending + s.datas[last + 1]), k)
  {
    var i := last + 1;
    NoStart(s, i, k);
    PacketBytes(s, i);
    PacketsAdvance(s, i, i + 1);
    DeliveredStable(s, acc, i, k);
    CoveredExtends(s, acc, i, Pos(s.units, k), Pos(s.datas, i + 1));
    SliceJoin(Flatten(s.units), Pos(s.units, k), Pos(s.datas, i), Pos(s.datas, i + 1));
  }

  lemma StayLost(s: Stream, acc: set<nat>, last: nat, rx: Rx, k: nat)
    requires Honest(s) && Tracks(s, acc, last, rx, k) && last + 1 < |s.datas|
    requires s.offsets[last + 1] == NO_MESSAGE_START && rx.pending == []
    ensures Tracks(s, acc + {last + 1}, last + 1, rx, k)
  {
    var i := last + 1;
    if Synced(s, acc, last, rx, k) {
      StartAtFront(s, i, k);
      assert false;
    }
    NoStart(s, i, k);
    PacketsAdvance(s, i, i + 1);
    DeliveredStable(s, acc, i, k);
    CoveredStable(s, acc, i, Pos(s.units, k), Pos(s.datas, i));
  }

  /** A lost unit stays undelivered. */
  lemma SkipLost(s: Stream, acc: set<nat>, last: nat, rx: Rx, k: nat)
    requires Honest(s) && Tracks(s, acc, last, rx, k) && last + 1 < |s.datas|
    requires Lost(s, acc, last, rx, k)
    ensures Delivered(s, acc + {last + 1}, k + 1) == Messages(rx.records)
  {
    var i := last + 1;
    DeliveredStable(s, acc, i, k);
    CoveredStable(s, acc, i, Pos(s.units, k), Pos(s.datas, i));
    assert !Covered(s, acc + {i}, Pos(s.units, k), Pos(s.units, k + 1));
  }

  /** The pending bytes and the front of the next packet make up the unit. */
  lemma CompletePending(s: Stream, acc: set<nat>, last: nat, rx: Rx, k: nat)
    requires Honest(s) && Tracks(s, acc, last, rx, k) && last + 1 < |s.datas|
    requires rx.pending != []
    requires Pos(s.units, k + 1) <= Pos(s.datas, last + 2)
    ensures Pos(s.units, k + 1) <= |Flatten(s.units)|
    ensures Delivered(s, acc + {last + 1}, k + 1) ==
      Messages(rx.records) + [rx.pending + Flatten(s.units)[Pos(s.datas, last + 1)..Pos(s.units, k + 1)]]
  {
    var i := last + 1;
    DeliveredStable(s, acc, i, k);
    CoveredExtends(s, acc, i, Pos(s.units, k), Pos(s.units, k + 1));
    PosMonotone(s.datas, i + 1, |s.datas|);
    FlattenAt(s.units, k);
    SliceJoin(Flatten(s.units), Pos(s.units, k), Pos(s.datas, i), Pos(s.units, k + 1));
  }

  /** Completing the pending unit, or giving up a lost one, leads to the announced unit. */
  lemma CompleteTracks(s: Stream, acc: set<nat>, last: nat, rx: Rx, k: nat, k2: nat)
    requires Honest(s) && Tracks(s, acc, last, rx, k) && last + 1 < |s.datas|
    requires FirstStart(s.units, Pos(s.datas, last + 1), Pos(s.datas, last + 2), k2)
    requires Pos(s.units, k2) <= |Flatten(s.units)|
    ensures k2 >= 1
    ensures Delivered(s, acc + {last + 1}, k2) == Messages(rx.records)
              + (if rx.pending == [] then [] else [rx.pending + Flatten(s.units)[Pos(s.datas, last + 1)..Pos(s.units, k2)]])
  {
    var i := last + 1;
    if Lost(s, acc, last, rx, k) {
      NextStart(s, i, k, k2);
      SkipLost(s, acc, last, rx, k);
    } else if rx.pending == [] {
      StartAtFront(s, i, k);
      FirstStartUnique(s, Pos(s.datas, i), Pos(s.datas, i + 1), k, k2);
      DeliveredStable(s, acc, i, k);
    } else {
      NextStart(s, i, k, k2);
      CompletePending(s, acc, last, rx, k);
    }
  }

  lemma ContinueTracks(s: Stream, acc: set<nat>, last: nat, rx: Rx, k: nat) returns (m: nat)
    requires Honest(s) && Tracks(s, acc, last, rx, k) && last + 1 < |s.datas|
    ensures Tracks(s, acc + {last + 1}, last + 1, Continue(rx, s.datas[last + 1], s.offsets[last + 1]), m)
    ensures Markers(Continue(rx, s.datas[last + 1], s.offsets[last + 1]).records) == Markers(rx.records)
  {
    var i := last + 1;
    var data, offset := s.datas[i], s.offsets[i];
    if offset == NO_MESSAGE_START {
      m := k;
      if rx.pending != [] {
        ExtendTracks(s, acc, last, rx, k);
      } else {
        StayLost(s, acc, last, rx, k);
        assert From(data, offset as nat) == [];
        assert rx.records + AsRecords([]) == rx.records;
        assert Continue(rx, data, offset) == rx;
      }
    } else {
      var k2 := Announced(s, i);
      CompleteTracks(s, acc, last, rx, k, k2);
      var written := rx.pending + UpTo(data, offset as nat);
      AppendOne(rx.records, Message(written));
      var completed :=
        if rx.pending == [] then rx else rx.(records := rx.records + [Message(written)], pending := []);
      m := ResumeTracks(s, acc + {i}, i, completed, k2, From(data, offset as nat));
    }
  }

  // ----- a packet behind a gap

  /** A unit with a byte between packet `last` and packet `i` is lost for good. */
  lemma BrokenInGap(s: Stream, acc: set<nat>, last: nat, i: nat, u: nat)
    requires HonestSizes(s) && last < i < |s.datas| && u < |s.units|
    requires forall c :: c in acc ==> c <= last
    requires Pos(s.units, u) < Pos(s.units, u + 1)
    requires Pos(s.units, u) < Pos(s.datas, i) && Pos(s.datas, last + 1) < Pos(s.units, u + 1)
    requires Pos(s.datas, last + 1) < Pos(s.datas, i)
    ensures !Intact(s, acc + {i}, u)
  {
    var p := Pos(s.datas, last + 1);
    var x := if Pos(s.units, u) < p then p else Pos(s.units, u);
    var c := Locate(s.datas, x, i);
    if c <= last {
      PosMonotone(s.datas, c + 1, last + 1);
    }
    BrokenByLoss(s, acc + {i}, c, u);
  }

  /** Unit `k1` is the first that was not complete when the packets behind `last` were lost; it stays so. */
  ghost predicate Broken(s: Stream, acc: set<nat>, last: nat, i: nat, k1: nat)
    requires last < |s.datas|
  {
    && 1 <= k1 <= |s.units| && Pos(s.units, k1) <= Pos(s.datas, last + 1)
    && (k1 < |s.units| ==>
          && Pos(s.datas, last + 1) <= Pos(s.units, k1 + 1)
          && (Pos(s.datas, last + 1) < Pos(s.units, k1 + 1) || !Intact(s, acc + {i}, k1)))
  }

  /** The whole pending unit is flushed. */
  lemma FlushWhole(s: Stream, acc: set<nat>, last: nat, rx: Rx, k: nat, i: nat)
    requires Honest(s) && Tracks(s, acc, last, rx, k) && last + 1 < i < |s.datas|
    requires Synced(s, acc, last, rx, k) && rx.pending != [] && Pos(s.datas, last + 1) == Pos(s.units, k + 1)
    ensures Delivered(s, acc + {i}, k + 1) == Messages(rx.records) + ParseMessages(rx.pending).messages
    ensures Broken(s, acc, last, i, k + 1)
  {
    PacketsAdvance(s, last + 1, i);
    DeliveredStable(s, acc, i, k);
    FlattenAt(s.units, k);
    ParseWhole(rx.pending);
    CoveredStable(s, acc, i, Pos(s.units, k), Pos(s.units, k + 1));
    PosMonotone(s.datas, last + 1, |s.datas|);
    if k + 1 < |s.units| {
      UnitsAdvance(s, k + 1, k + 2);
    }
  }

  /** The pending front of a unit parses to nothing. */
  lemma FlushPart(s: Stream, acc: set<nat>, last: nat, rx: Rx, k: nat)
    requires Honest(s) && Tracks(s, acc, last, rx, k) && Synced(s, acc, last, rx, k)
    requires rx.pending != [] && Pos(s.datas, last + 1) != Pos(s.units, k + 1)
    ensures ParseMessages(rx.pending).messages == []
  {
    FlattenAt(s.units, k);
    SlicePrefix(Flatten(s.units), Pos(s.units, k), Pos(s.datas, last + 1), Pos(s.units, k + 1));
    ParseShort(s.units[k], rx.pending);
  }

  /** Flushing after a gap writes the pending unit exactly if it is whole; `k1` and up are then undelivered. */
  lemma FlushTracks(s: Stream, acc: set<nat>, last: nat, rx: Rx, k: nat, i: nat) returns (k1: nat)
    requires Honest(s) && Tracks(s, acc, last, rx, k) && last + 1 < i < |s.datas|
    ensures k <= k1 && Broken(s, acc, last, i, k1)
    ensures Delivered(s, acc + {i}, k1) == Messages(rx.records) + ParseMessages(rx.pending).messages
  {
    var p := Pos(s.datas, last + 1);
    k1 := k;
    if Synced(s, acc, last, rx, k) && rx.pending != [] && p == Pos(s.units, k + 1) {
      FlushWhole(s, acc, last, rx, k, i);
      k1 := k + 1;
    } else {
      PacketsAdvance(s, last + 1, i);
      DeliveredStable(s, acc, i, k);
      if Lost(s, acc, last, rx, k) {
        CoveredStable(s, acc, i, Pos(s.units, k), p);
      } else if rx.pending != [] {
        FlushPart(s, acc, last, rx, k);
      } else if k < |s.units| {
        UnitsAdvance(s, k, k + 1);
      }
    }
  }

  lemma StaysBroken(s: Stream, acc: set<nat>, last: nat, i: nat, k1: nat, u: nat)
    requires Honest(s) && last + 1 < i < |s.datas| && (forall c :: c in acc ==> c <= last)
    requires Broken(s, acc, last, i, k1) && k1 <= u < |s.units| && Pos(s.units, u) < Pos(s.datas, i)
    ensures !Intact(s, acc + {i}, u)
  {
    if u > k1 {
      PosMonotone(s.units, k1 + 1, u);
    }
    UnitsAdvance(s, u, u + 1);
    PacketsAdvance(s, last + 1, i);
    if Pos(s.datas, last + 1) < Pos(s.units, u + 1) {
      BrokenInGap(s, acc, last, i, u);
    }
  }

  /** Nothing between the flushed units and unit `k2`, which starts behind the gap, is intact. */
  lemma SkipGap(s: Stream, acc: set<nat>, last: nat, i: nat, k1: nat, k2: nat)
    requires Honest(s) && last + 1 < i < |s.datas| && (forall c :: c in acc ==> c <= last)
    requires Broken(s, acc, last, i, k1) && k1 <= k2 <= |s.units|
    requires forall j :: 0 <= j < k2 ==> Pos(s.units, j) < Pos(s.datas, i)
    ensures Delivered(s, acc + {i}, k2) == Delivered(s, acc + {i}, k1)
  {
    forall u | k1 <= u < k2
      ensures !Intact(s, acc + {i}, u)
    {
      StaysBroken(s, acc, last, i, k1, u);
    }
    DeliveredSkip(s, acc + {i}, k1, k2);
  }

  /** Behind a gap, a packet without a message start leaves the unit around its front lost. */
  lemma GapWithoutStart(s: Stream, acc: set<nat>, last: nat, rx: Rx, i: nat, k1: nat) returns (m: nat)
    requires Honest(s) && last + 1 < i < |s.datas| && (forall c :: c in acc ==> c <= last)
    requires s.offsets[i] == NO_MESSAGE_START && Broken(s, acc, last, i, k1)
    requires rx.gotHeader && rx.header == s.units[0] && rx.pending == []
    requires Messages(rx.records) == Delivered(s, acc + {i}, k1)
    ensures Tracks(s, acc + {i}, i, rx, m)
  {
    PacketBytes(s, i);
    FlattenLength(s.units);
    PacketsAdvance(s, last + 1, i);
    PacketsAdvance(s, i - 1, i);
    PacketsAdvance(s, i, i + 1);
    var x := Pos(s.datas, i) - 1;
    m := Locate(s.units, x, |s.units|);
    if m < k1 {
      PosMonotone(s.units, m + 1, k1);
    }
    NoStart(s, i, m);
    forall j | 0 <= j < m
      ensures Pos(s.units, j) < Pos(s.datas, i)
    {
      PosMonotone(s.units, j, m);
    }
    SkipGap(s, acc, last, i, k1, m);
    assert i - 1 !in acc + {i};
    assert !Covered(s, acc + {i}, Pos(s.units, m), Pos(s.datas, i + 1));
  }

  /** Behind a gap, a packet with a message start goes on from there. */
  lemma GapWithStart(s: Stream, acc: set<nat>, last: nat, rx: Rx, i: nat, k1: nat) returns (m: nat)
    requires Honest(s) && last + 1 < i < |s.datas| && (forall c :: c in acc ==> c <= last)
    requires s.offsets[i] != NO_MESSAGE_START && Broken(s, acc, last, i, k1)
    requires rx.gotHeader && rx.header == s.units[0] && Messages(rx.records) == Delivered(s, acc + {i}, k1)
    ensures Tracks(s, acc + {i}, i, Resume(rx, From(s.datas[i], s.offsets[i] as nat)), m)
    ensures Markers(Resume(rx, From(s.datas[i], s.offsets[i] as nat)).records) == Markers(rx.records)
  {
    var k2 := Announced(s, i);
    if k2 < k1 {
      PosMonotone(s.units, k2, k1);
      PacketsAdvance(s, last + 1, i);
    }
    SkipGap(s, acc, last, i, k1, k2);
    m := ResumeTracks(s, acc + {i}, i, rx, k2, From(s.datas[i], s.offsets[i] as nat));
  }

  lemma ResynchroniseTracks(s: Stream, acc: set<nat>, last: nat, rx: Rx, k: nat, i: nat) returns (m: nat)
    requires Honest(s) && Tracks(s, acc, last, rx, k) && last + 1 < i < |s.datas|
    ensures Tracks(s, acc + {i}, i, Resynchronise(rx, s.datas[i], s.offsets[i]), m)
    ensures Markers(Resynchronise(rx, s.datas[i], s.offsets[i]).records) == Markers(rx.records)
  {
    var k1 := FlushTracks(s, acc, last, rx, k, i);
    var ms := ParseMessages(rx.pending).messages;
    AppendMessages(rx.records, ms);
    var flushed := rx.(records := rx.records + AsRecords(ms), pending := []);
    if s.offsets[i] == NO_MESSAGE_START {
      m := GapWithoutStart(s, acc, last, flushed, i, k1);
    } else {
      m := GapWithStart(s, acc, last, flushed, i, k1);
    }
  }

  // ----- any accepted packet

  lemma NoteDropoutTracks(s: Stream, acc: set<nat>, last: nat, rx: Rx, k: nat, drops: nat)
    requires Tracks(s, acc, last, rx, k)
    ensures Tracks(s, acc, last, NoteDropout(rx, drops), k)
    ensures Markers(NoteDropout(rx, drops).records) ==
      Markers(rx.records) + MarkerFor(rx.gotHeaderSection, drops)
  {
    AppendOne(rx.records, Dropout(if drops > 25 then 25 else drops));
  }

  function MarkerFor(section: bool, drops: nat): seq<nat> {
    if section && drops > 0 then [if drops > 25 then 25 else drops] else []
  }

  lemma ProcessTracks(s: Stream, acc: set<nat>, last: nat, rx: Rx, k: nat, i: nat) returns (m: nat)
    requires Honest(s) && Tracks(s, acc, last, rx, k) && last < i < |s.datas|
    ensures var r := Process(rx, s.datas[i], s.offsets[i], i - last - 1);
      && r.Done?
      && Tracks(s, acc + {i}, i, r.rx, m)
      && Markers(r.rx.records) == Markers(rx.records) + MarkerFor(rx.gotHeaderSection, i - last - 1)
  {
    var drops := i - last - 1;
    NoteDropoutTracks(s, acc, last, rx, k, drops);
    var noted := NoteDropout(rx, drops);
    var r := Process(rx, s.datas[i], s.offsets[i], drops);
    if drops > 0 {
      m := ResynchroniseTracks(s, acc, last, noted, k, i);
      assert r == Done(Resynchronise(noted, s.datas[i], s.offsets[i]));
    } else {
      m := ContinueTracks(s, acc, last, noted, k);
      assert r == Done(Continue(noted, s.datas[i], s.offsets[i]));
    }
  }

  /** The first packet brings the header and starts the run. */
  lemma FirstTracks(s: Stream, rx: Rx) returns (m: nat)
    requires Honest(s) && |s.datas| > 0
    requires !rx.gotHeader && rx.records == [] && rx.pending == []
    ensures var r := Process(rx, s.datas[0], s.offsets[0], 0);
      r.Done? && Tracks(s, {0}, 0, r.rx, m) && Markers(r.rx.records) == []
  {
    var data := s.datas[0];
    PacketBytes(s, 0);
    StartAtFront(s, 0, 0);
    var k := Announced(s, 0);
    FirstStartUnique(s, 0, Pos(s.datas, 1), k, 0);
    FlattenAt(s.units, 0);
    assert Pos(s.units, 1) == 16 && Pos(s.datas, 1) == |data|;
    var all := Flatten(s.units);
    assert data[..16] == all[..16] == s.units[0];
    var (rx1, body) := TakeHeader(rx, data);
    assert body == all[Pos(s.units, 1)..Pos(s.datas, 1)];
    m := ResumeTracks(s, {0}, 0, rx1, 1, body);
    assert From(body, 0) == body;
  }
}
