/** Whole runs of the receiver: packets of an honest stream, arriving in any order the window allows. */
module UlogRuns {
  import opened Bytes
  import opened UlogReceiver
  import opened UlogStream
  import opened UlogExactness
  import UlogSender

  // ----- the 16-bit sequence check against unbounded packet indices

  /** The decision an unbounded sequence number would give. */
  function IdealCheck(last: nat, n: nat): SequenceCheck {
    if n > last then SequenceCheck(true, n - last - 1) else SequenceCheck(false, 0)
  }

  /** The condition under which the wrapped comparison can be trusted. */
  predicate Unambiguous(last: nat, n: nat) {
    if n > last then
      n - last < HALF_RANGE || (n - last == HALF_RANGE && last % FULL_RANGE < HALF_RANGE)
    else
      var behind := (last - n) % FULL_RANGE;
      behind < HALF_RANGE || (behind == HALF_RANGE && last % FULL_RANGE >= HALF_RANGE)
  }

  /** The 16-bit check is right exactly for the unambiguous distances. */
  lemma CheckSequenceExact(last: nat, n: nat)
    ensures CheckSequence(last % FULL_RANGE, n % FULL_RANGE) == IdealCheck(last, n) <==> Unambiguous(last, n)
  {
    var q, q' := last / FULL_RANGE, n / FULL_RANGE;
    var l, m := last % FULL_RANGE, n % FULL_RANGE;
    assert last == q * FULL_RANGE + l && n == q' * FULL_RANGE + m;
    if n <= last {
      var d := q - q';
      assert last - n == d * FULL_RANGE + (l - m);
      if l >= m {
        RemainderIs(last - n, d, l - m);
      } else {
        RemainderIs(last - n, d - 1, FULL_RANGE + l - m);
      }
    } else {
      assert n - last == (q' - q) * FULL_RANGE + (m - l);
    }
  }

  lemma RemainderIs(x: nat, d: int, r: nat)
    requires x == d * FULL_RANGE + r && r < FULL_RANGE
    ensures x % FULL_RANGE == r
  {
  }

  /** At distance 32768 the decision depends on which half of the range the last number is in. */
  lemma HalfRangeAmbiguous()
    ensures CheckSequence(0x8000, 0x1_0000 % FULL_RANGE) == SequenceCheck(false, 0)
    ensures IdealCheck(0x8000, 0x1_0000) == SequenceCheck(true, 0x7fff)
  {
  }

  // ----- runs

  predicate Shaped(s: Stream) {
    |s.offsets| == |s.datas| == |s.acked|
  }

  function Packet(s: Stream, n: nat): LogData
    requires Shaped(s) && n < |s.datas|
  {
    LogData(s.acked[n], n % FULL_RANGE, s.datas[n], s.offsets[n])
  }

  predicate InRange(s: Stream, arrivals: seq<nat>) {
    forall j :: 0 <= j < |arrivals| ==> arrivals[j] < |s.datas|
  }

  /** The receiver's state after the packets numbered `arrivals`, in that order. */
  function Run(s: Stream, arrivals: seq<nat>): (r: Outcome)
    requires Shaped(s) && InRange(s, arrivals)
    ensures -1 <= r.rx.lastSequence < FULL_RANGE
  {
    if arrivals == [] then Done(INITIAL)
    else
      var r := Run(s, arrivals[..|arrivals| - 1]);
      if r.HeaderTooShort? then r else Receive(r.rx, Packet(s, arrivals[|arrivals| - 1]))
  }

  /** The arrivals that exceed every earlier one. */
  function Maxima(arrivals: seq<nat>): (ms: seq<nat>)
    ensures arrivals != [] ==> ms != []
    ensures arrivals == [] ==> ms == []
  {
    if arrivals == [] then []
    else
      var ms, n := Maxima(arrivals[..|arrivals| - 1]), arrivals[|arrivals| - 1];
      if ms == [] || n > ms[|ms| - 1] then ms + [n] else ms
  }

  function Top(arrivals: seq<nat>): nat
    requires arrivals != []
  {
    var ms := Maxima(arrivals);
    ms[|ms| - 1]
  }

  function Elements(ms: seq<nat>): set<nat> {
    set n | n in ms
  }

  /** Each arrival is at an unambiguous distance from the highest one before it. */
  predicate InWindow(arrivals: seq<nat>) {
    |arrivals| >= 2 ==>
      && InWindow(arrivals[..|arrivals| - 1])
      && Unambiguous(Top(arrivals[..|arrivals| - 1]), arrivals[|arrivals| - 1])
  }

  predicate SectionDone(s: Stream, ms: seq<nat>)
    requires Shaped(s) && InRange(s, ms)
  {
    exists j :: 0 <= j < |ms| && !s.acked[ms[j]]
  }

  /** The dropout markers due for the accepted packets `ms`: one per gap once the header section is over. */
  function DueMarkers(s: Stream, ms: seq<nat>): seq<nat>
    requires Shaped(s) && InRange(s, ms)
  {
    if |ms| <= 1 then []
    else
      var gap: int := ms[|ms| - 1] as int - ms[|ms| - 2] as int - 1;
      DueMarkers(s, ms[..|ms| - 1])
        + (if SectionDone(s, ms) && gap > 0 then [if gap > 25 then 25 else gap] else [])
  }

  lemma {:induction false} MaximaInRange(s: Stream, arrivals: seq<nat>)
    requires InRange(s, arrivals)
    ensures InRange(s, Maxima(arrivals))
  {
    if arrivals != [] {
      MaximaInRange(s, arrivals[..|arrivals| - 1]);
    }
  }

  /** Everything an accepted packet changes besides the file. */
  ghost predicate Books(s: Stream, ms: seq<nat>, rx: Rx)
    requires Shaped(s) && InRange(s, ms) && ms != []
  {
    && rx.lastSequence == ms[|ms| - 1] % FULL_RANGE
    && |ms| + rx.numDropouts == ms[|ms| - 1] + 1
    && rx.gotHeaderSection == SectionDone(s, ms)
    && Markers(rx.records) == DueMarkers(s, ms)
  }

  ghost predicate Consistent(s: Stream, arrivals: seq<nat>, r: Outcome, k: nat)
    requires Shaped(s) && arrivals != []
  {
    var ms := Maxima(arrivals);
    && InRange(s, ms)
    && r.Done?
    && Books(s, ms, r.rx)
    && Tracks(s, Elements(ms), Top(arrivals), r.rx, k)
  }

  lemma FirstArrival(s: Stream) returns (k: nat)
    requires Honest(s) && |s.datas| > 0
    ensures Consistent(s, [0], Run(s, [0]), k)
  {
    var m := Packet(s, 0);
    var rx := Accept(INITIAL, m, 0);
    k := FirstTracks(s, rx);
    assert Elements([0]) == {0};
    FirstRun(s);
    SectionGrows(s, [], 0);
    assert [] + [0] == [0];
  }

  lemma FirstRun(s: Stream)
    requires Honest(s) && |s.datas| > 0
    ensures Maxima([0]) == [0]
    ensures Run(s, [0]) == Process(Accept(INITIAL, Packet(s, 0), 0), s.datas[0], s.offsets[0], 0)
  {
    assert [0][..0] == [];
    assert Run(s, []) == Done(INITIAL);
  }

  lemma AcceptedArrival(s: Stream, ms: seq<nat>, rx: Rx, k: nat, n: nat, drops: nat, r: Outcome) returns (m: nat)
    requires Honest(s) && InRange(s, ms) && ms != [] && Books(s, ms, rx)
    requires Tracks(s, Elements(ms), ms[|ms| - 1], rx, k)
    requires ms[|ms| - 1] < n < |s.datas| && drops == n - ms[|ms| - 1] - 1
    requires r == Process(Accept(rx, Packet(s, n), drops), s.datas[n], s.offsets[n], drops)
    ensures r.Done? && InRange(s, ms + [n])
    ensures Books(s, ms + [n], r.rx)
    ensures Tracks(s, Elements(ms + [n]), n, r.rx, m)
  {
    m := ProcessTracks(s, Elements(ms), ms[|ms| - 1], Accept(rx, Packet(s, n), drops), k, n);
    ElementsSnoc(ms, n);
    BooksGrow(s, ms, rx, n, r.rx);
  }

  lemma ElementsSnoc(ms: seq<nat>, n: nat)
    ensures Elements(ms + [n]) == Elements(ms) + {n}
  {
  }

  lemma BooksGrow(s: Stream, ms: seq<nat>, rx: Rx, n: nat, rx': Rx)
    requires Shaped(s) && InRange(s, ms) && ms != [] && Books(s, ms, rx) && ms[|ms| - 1] < n < |s.datas|
    requires rx'.lastSequence == n % FULL_RANGE && rx'.numDropouts == rx.numDropouts + (n - ms[|ms| - 1] - 1)
    requires rx'.gotHeaderSection <==> rx.gotHeaderSection || !s.acked[n]
    requires Markers(rx'.records) == Markers(rx.records) + MarkerFor(rx'.gotHeaderSection, n - ms[|ms| - 1] - 1)
    ensures InRange(s, ms + [n]) && Books(s, ms + [n], rx')
  {
    SectionGrows(s, ms, n);
    assert (ms + [n])[..|ms|] == ms;
  }

  lemma SectionGrows(s: Stream, ms: seq<nat>, n: nat)
    requires Shaped(s) && InRange(s, ms) && n < |s.datas|
    ensures InRange(s, ms + [n])
    ensures SectionDone(s, ms + [n]) <==> SectionDone(s, ms) || !s.acked[n]
  {
    var ms' := ms + [n];
    assert ms'[|ms|] == n;
    if SectionDone(s, ms) {
      var j :| 0 <= j < |ms| && !s.acked[ms[j]];
      assert ms'[j] == ms[j];
    }
  }

  lemma RunSnoc(s: Stream, before: seq<nat>, n: nat)
    requires Shaped(s) && InRange(s, before) && n < |s.datas|
    ensures InRange(s, before + [n])
    ensures Run(s, before).Done? ==> Run(s, before + [n]) == Receive(Run(s, before).rx, Packet(s, n))
    ensures Run(s, before).HeaderTooShort? ==> Run(s, before + [n]) == Run(s, before)
  {
    assert (before + [n])[..|before|] == before;
  }

  lemma MaximaSnoc(before: seq<nat>, n: nat)
    requires before != []
    ensures Maxima(before + [n]) == if n > Top(before) then Maxima(before) + [n] else Maxima(before)
  {
    assert (before + [n])[..|before|] == before;
  }

  /** At an unambiguous distance a packet is processed exactly if it is newer, with the true number of drops. */
  lemma ReceiveDecides(rx: Rx, top: nat, p: LogData, n: nat)
    requires rx.lastSequence == top % FULL_RANGE && p.sequence == n % FULL_RANGE && Unambiguous(top, n)
    ensures Receive(rx, p) ==
      if n > top then Process(Accept(rx, p, n - top - 1), p.data, p.offset, n - top - 1) else Done(rx)
  {
    CheckSequenceExact(top, n);
  }

  lemma ConsistentNext(s: Stream, before: seq<nat>, n: nat, r: Outcome, m: nat)
    requires Shaped(s) && before != [] && n > Top(before) && r.Done?
    requires InRange(s, Maxima(before) + [n]) && Books(s, Maxima(before) + [n], r.rx)
    requires Tracks(s, Elements(Maxima(before) + [n]), n, r.rx, m)
    ensures Consistent(s, before + [n], r, m)
  {
    MaximaSnoc(before, n);
  }

  lemma ConsistentSame(s: Stream, before: seq<nat>, n: nat, r: Outcome, m: nat)
    requires Shaped(s) && before != [] && n <= Top(before) && Consistent(s, before, r, m)
    ensures Consistent(s, before + [n], r, m)
  {
    MaximaSnoc(before, n);
  }

  lemma NextArrival(s: Stream, before: seq<nat>, n: nat, rx: Rx, k: nat, drops: nat, r: Outcome) returns (m: nat)
    requires Honest(s) && before != [] && Consistent(s, before, Done(rx), k)
    requires Top(before) < n < |s.datas| && drops == n - Top(before) - 1
    requires r == Process(Accept(rx, Packet(s, n), drops), s.datas[n], s.offsets[n], drops)
    ensures Consistent(s, before + [n], r, m)
  {
    m := AcceptedArrival(s, Maxima(before), rx, k, n, drops, r);
    ConsistentNext(s, before, n, r, m);
  }

  lemma StepTracks(s: Stream, before: seq<nat>, n: nat, rx: Rx, k: nat, top: nat, r: Outcome) returns (m: nat)
    requires Honest(s) && before != [] && Consistent(s, before, Done(rx), k) && n < |s.datas|
    requires top == Top(before) && Unambiguous(top, n)
    requires -1 <= rx.lastSequence < FULL_RANGE && r == Receive(rx, Packet(s, n))
    ensures Consistent(s, before + [n], r, m)
  {
    ReceiveDecides(rx, top, Packet(s, n), n);
    if n > top {
      m := NextArrival(s, before, n, rx, k, n - top - 1, r);
    } else {
      m := k;
      ConsistentSame(s, before, n, r, k);
    }
  }

  /** The invariant over every run that starts with packet 0 and stays in the window. */
  lemma {:induction false} RunTracks(s: Stream, arrivals: seq<nat>) returns (k: nat)
    requires Honest(s) && InRange(s, arrivals) && InWindow(arrivals)
    requires arrivals != [] && arrivals[0] == 0
    ensures Consistent(s, arrivals, Run(s, arrivals), k)
  {
    if |arrivals| == 1 {
      assert arrivals == [0];
      k := FirstArrival(s);
    } else {
      var before, n := arrivals[..|arrivals| - 1], arrivals[|arrivals| - 1];
      assert arrivals == before + [n];
      k := RunTracks(s, before);
      RunSnoc(s, before, n);
      k := StepTracks(s, before, n, Run(s, before).rx, k, Top(before), Run(s, arrivals));
    }
  }

  // ----- the results

  function Waiting(rx: Rx): seq<seq<byte>> {
    if Whole(rx.pending) then [rx.pending] else []
  }

  /** The unit that is waiting whole is the one intact unit from `k` on, if there is one. */
  lemma WaitingUnit(s: Stream, acc: set<nat>, last: nat, rx: Rx, k: nat) returns (k1: nat)
    requires Honest(s) && Tracks(s, acc, last, rx, k)
    ensures k <= k1 <= |s.units|
    ensures Delivered(s, acc, k1) == Messages(rx.records) + Waiting(rx)
    ensures k1 < |s.units| ==> Pos(s.datas, last + 1) <= Pos(s.units, k1 + 1)
    ensures k1 < |s.units| ==> Pos(s.datas, last + 1) < Pos(s.units, k1 + 1) || !Intact(s, acc, k1)
  {
    var p := Pos(s.datas, last + 1);
    k1 := k;
    if rx.pending == [] {
      if k < |s.units| {
        UnitsAdvance(s, k, k + 1);
      }
    } else {
      PendingWhole(s, acc, last, rx, k);
      if p == Pos(s.units, k + 1) {
        k1 := k + 1;
        if k1 < |s.units| {
          UnitsAdvance(s, k1, k1 + 1);
        }
      }
    }
  }

  /** The pending bytes are a whole message exactly if the last packet ends with the unit. */
  lemma PendingWhole(s: Stream, acc: set<nat>, last: nat, rx: Rx, k: nat)
    requires Honest(s) && Tracks(s, acc, last, rx, k) && rx.pending != []
    ensures k < |s.units| && (Whole(rx.pending) <==> Pos(s.datas, last + 1) == Pos(s.units, k + 1))
    ensures Whole(rx.pending) ==> Intact(s, acc, k) && rx.pending == s.units[k]
  {
    FlattenAt(s.units, k);
    if Pos(s.datas, last + 1) == Pos(s.units, k + 1) {
      PosMonotone(s.datas, last + 1, |s.datas|);
    } else {
      SlicePrefix(Flatten(s.units), Pos(s.units, k), Pos(s.datas, last + 1), Pos(s.units, k + 1));
      NotWhole(s.units[k], rx.pending);
    }
  }

  /** Beyond the tracked unit nothing is intact, save the one waiting whole. */
  lemma NothingBeyond(s: Stream, acc: set<nat>, last: nat, rx: Rx, k: nat)
    requires Honest(s) && Tracks(s, acc, last, rx, k)
    ensures Delivered(s, acc, |s.units|) == Messages(rx.records) + Waiting(rx)
  {
    var k1 := WaitingUnit(s, acc, last, rx, k);
    forall u | k1 <= u < |s.units|
      ensures !Intact(s, acc, u)
    {
      NotYetIntact(s, acc, last, k1, u);
    }
    DeliveredSkip(s, acc, k1, |s.units|);
  }

  lemma NotYetIntact(s: Stream, acc: set<nat>, last: nat, k1: nat, u: nat)
    requires Honest(s) && last < |s.datas| && (forall c :: c in acc ==> c <= last) && k1 <= u < |s.units|
    requires Pos(s.datas, last + 1) <= Pos(s.units, k1 + 1)
    requires Pos(s.datas, last + 1) < Pos(s.units, k1 + 1) || !Intact(s, acc, k1)
    ensures !Intact(s, acc, u)
  {
    if u > k1 {
      PosMonotone(s.units, k1 + 1, u);
    }
    UnitsAdvance(s, u, u + 1);
    if Pos(s.datas, last + 1) < Pos(s.units, u + 1) {
      BrokenBeyond(s, acc, last, u);
    }
  }

  lemma NotWhole(unit: seq<byte>, d: seq<byte>)
    requires Whole(unit) && |d| < |unit| && d <= unit
    ensures !Whole(d)
  {
    if |d| > 2 {
      assert d[0] == unit[0] && d[1] == unit[1];
    }
  }

  lemma BrokenBeyond(s: Stream, acc: set<nat>, last: nat, u: nat)
    requires HonestSizes(s) && last < |s.datas| && u < |s.units|
    requires forall c :: c in acc ==> c <= last
    requires Pos(s.units, u) < Pos(s.units, u + 1) && Pos(s.datas, last + 1) < Pos(s.units, u + 1)
    ensures !Intact(s, acc, u)
  {
    if Pos(s.units, u + 1) <= Pos(s.datas, |s.datas|) {
      var p := Pos(s.datas, last + 1);
      var x := if Pos(s.units, u) < p then p else Pos(s.units, u);
      var c := Locate(s.datas, x, |s.datas|);
      if c <= last {
        PosMonotone(s.datas, c + 1, last + 1);
      }
      BrokenByLoss(s, acc, c, u);
    }
  }

  /**
   * For every honest stream and every arrival order that starts with packet 0 and stays in the window,
   * the file is the stream's header and then, dropout markers aside, exactly and in order the messages
   * whose every packet was accepted; the last one may still be waiting whole.
   */
  lemma ExactReassembly(s: Stream, arrivals: seq<nat>)
    requires Honest(s) && InRange(s, arrivals) && InWindow(arrivals)
    requires arrivals != [] && arrivals[0] == 0
    ensures var r := Run(s, arrivals);
      && r.Done?
      && r.rx.header == s.units[0]
      && Messages(r.rx.records) + Waiting(r.rx) == Delivered(s, Elements(Maxima(arrivals)), |s.units|)
  {
    var k := RunTracks(s, arrivals);
    NothingBeyond(s, Elements(Maxima(arrivals)), Top(arrivals), Run(s, arrivals).rx, k);
  }

  /** One marker per gap behind the header section, clamped to 25, and nothing else. */
  lemma ExactMarkers(s: Stream, arrivals: seq<nat>)
    requires Honest(s) && InRange(s, arrivals) && InWindow(arrivals)
    requires arrivals != [] && arrivals[0] == 0
    ensures InRange(s, Maxima(arrivals))
    ensures Markers(Run(s, arrivals).rx.records) == DueMarkers(s, Maxima(arrivals))
  {
    var _ := RunTracks(s, arrivals);
  }

  /** The marker due when packet `n` arrives behind `before`: the packets lost in front of it, at most 25. */
  function MarkerDue(s: Stream, before: seq<nat>, n: nat): seq<Record>
    requires Shaped(s) && InRange(s, Maxima(before)) && n < |s.datas| && before != []
  {
    var gap: int := n as int - Top(before) as int - 1;
    if gap > 0 && SectionDone(s, Maxima(before) + [n]) then [Dropout(if gap > 25 then 25 else gap)] else []
  }

  /** The header section is over as soon as a packet without acknowledgement was accepted. */
  lemma {:induction false} SectionTracks(s: Stream, arrivals: seq<nat>)
    requires Shaped(s) && InRange(s, arrivals) && InWindow(arrivals) && arrivals != []
    ensures InRange(s, Maxima(arrivals))
    ensures Run(s, arrivals).Done? ==> Run(s, arrivals).rx.gotHeaderSection == SectionDone(s, Maxima(arrivals))
  {
    MaximaInRange(s, arrivals);
    var before, n := arrivals[..|arrivals| - 1], arrivals[|arrivals| - 1];
    assert arrivals == before + [n];
    if before == [] {
      SectionGrows(s, [], n);
      assert [] + [n] == [n] && [n][..0] == [];
    } else {
      SectionTracks(s, before);
      RunSnoc(s, before, n);
      if Run(s, before).Done? {
        DropoutConservation(s, before);
        MaximaSnoc(before, n);
        SectionGrows(s, Maxima(before), n);
        ReceiveDecides(Run(s, before).rx, Top(before), Packet(s, n), n);
      }
    }
  }

  /**
   * Whatever the packets hold: each arrival leaves the records as they were and appends the marker due for it, if
   * any, and behind that only messages, be they flushed, completed or new.
   */
  lemma MarkersPlaced(s: Stream, before: seq<nat>, n: nat) returns (ms: seq<seq<byte>>)
    requires Shaped(s) && InRange(s, before) && n < |s.datas| && InWindow(before + [n]) && before != []
    ensures InRange(s, before + [n]) && InRange(s, Maxima(before))
    ensures Run(s, before + [n]).Done? ==>
      && Run(s, before).Done?
      && Run(s, before + [n]).rx.records == Run(s, before).rx.records + MarkerDue(s, before, n) + AsRecords(ms)
  {
    assert (before + [n])[..|before|] == before;
    ms := [];
    RunSnoc(s, before, n);
    SectionTracks(s, before);
    if Run(s, before + [n]).Done? && Run(s, before).Done? {
      DropoutConservation(s, before);
      SectionGrows(s, Maxima(before), n);
      ms := AcceptAppends(s, before, n, Run(s, before).rx);
    }
  }

  lemma AcceptAppends(s: Stream, before: seq<nat>, n: nat, rx: Rx) returns (ms: seq<seq<byte>>)
    requires Shaped(s) && InRange(s, Maxima(before)) && n < |s.datas| && before != [] && Unambiguous(Top(before), n)
    requires -1 <= rx.lastSequence < FULL_RANGE && rx.lastSequence == Top(before) % FULL_RANGE
    requires InRange(s, Maxima(before) + [n])
    requires rx.gotHeaderSection || !s.acked[n] <==> SectionDone(s, Maxima(before) + [n])
    requires Receive(rx, Packet(s, n)).Done?
    ensures Receive(rx, Packet(s, n)).rx.records == rx.records + MarkerDue(s, before, n) + AsRecords(ms)
  {
    var p, top := Packet(s, n), Top(before);
    ReceiveDecides(rx, top, p, n);
    if n > top {
      MarkerNoted(s, before, n, rx);
      ms := ProcessAppends(Accept(rx, p, n - top - 1), p.data, p.offset, n - top - 1);
    } else {
      ms := [];
      assert MarkerDue(s, before, n) == [];
      NothingAppended(rx.records);
    }
  }

  lemma NothingAppended(rs: seq<Record>)
    ensures rs == rs + [] + AsRecords([])
  {
  }

  lemma MarkerNoted(s: Stream, before: seq<nat>, n: nat, rx: Rx)
    requires Shaped(s) && InRange(s, Maxima(before)) && n < |s.datas| && before != [] && n > Top(before)
    requires InRange(s, Maxima(before) + [n])
    requires rx.gotHeaderSection || !s.acked[n] <==> SectionDone(s, Maxima(before) + [n])
    ensures NoteDropout(Accept(rx, Packet(s, n), n - Top(before) - 1), n - Top(before) - 1).records
         == rx.records + MarkerDue(s, before, n)
  {
  }

  /** The books that the sequence check keeps, whatever the packets hold and wherever the run begins. */
  ghost predicate Balanced(arrivals: seq<nat>, rx: Rx)
    requires arrivals != []
  {
    && rx.lastSequence == Top(arrivals) % FULL_RANGE
    && |Maxima(arrivals)| + rx.numDropouts == Top(arrivals) - arrivals[0] + 1
  }

  lemma BalancedFirst(s: Stream, n: nat)
    requires Shaped(s) && n < |s.datas|
    ensures Run(s, [n]).Done? ==> Balanced([n], Run(s, [n]).rx)
  {
    assert [n][..0] == [];
    assert Run(s, []) == Done(INITIAL);
    assert Run(s, [n]) == Receive(INITIAL, Packet(s, n));
    assert Maxima([n]) == [n];
  }

  lemma BalancedNext(before: seq<nat>, n: nat, rx: Rx, p: LogData)
    requires before != [] && Balanced(before, rx) && Unambiguous(Top(before), n) && p.sequence == n % FULL_RANGE
    requires -1 <= rx.lastSequence < FULL_RANGE
    ensures Receive(rx, p).Done? ==> Balanced(before + [n], Receive(rx, p).rx)
  {
    ReceiveDecides(rx, Top(before), p, n);
    MaximaSnoc(before, n);
  }

  /**
   * Accepted packets and counted dropouts add up to the packets sent from the first one that arrived up to the
   * highest, across any number of wraps.
   */
  lemma {:induction false} DropoutConservation(s: Stream, arrivals: seq<nat>)
    requires Shaped(s) && InRange(s, arrivals) && InWindow(arrivals) && arrivals != []
    ensures Run(s, arrivals).Done? ==>
      var rx := Run(s, arrivals).rx;
      && rx.lastSequence == Top(arrivals) % FULL_RANGE
      && |Maxima(arrivals)| + rx.numDropouts == Top(arrivals) - arrivals[0] + 1
  {
    if |arrivals| == 1 {
      assert arrivals == [arrivals[0]];
      BalancedFirst(s, arrivals[0]);
    } else {
      var before, n := arrivals[..|arrivals| - 1], arrivals[|arrivals| - 1];
      assert arrivals == before + [n];
      DropoutConservation(s, before);
      RunSnoc(s, before, n);
      if Run(s, before).Done? {
        BalancedNext(before, n, Run(s, before).rx, Packet(s, n));
      }
    }
  }

  // ----- no losses

  function InOrder(n: nat): seq<nat> {
    seq(n, i => i)
  }

  lemma {:induction false} InOrderRun(s: Stream, n: nat)
    requires 1 <= n <= |s.datas|
    ensures InRange(s, InOrder(n)) && InWindow(InOrder(n)) && Maxima(InOrder(n)) == InOrder(n)
  {
    if n > 1 {
      InOrderRun(s, n - 1);
      InOrderSnoc(n - 1);
      assert Top(InOrder(n - 1)) == n - 2;
      MaximaSnoc(InOrder(n - 1), n - 1);
      WindowSnoc(InOrder(n - 1), n - 1);
    } else {
      assert InOrder(n) == [0] && [0][..0] == [];
    }
  }

  lemma InOrderSnoc(n: nat)
    ensures InOrder(n + 1) == InOrder(n) + [n]
  {
  }

  lemma WindowSnoc(before: seq<nat>, n: nat)
    requires before != [] && InWindow(before) && Unambiguous(Top(before), n)
    ensures InWindow(before + [n])
  {
    assert (before + [n])[..|before|] == before;
  }

  lemma {:induction false} NoMarkers(rs: seq<Record>)
    requires Markers(rs) == []
    ensures Render(rs) == Flatten(Messages(rs))
  {
    if rs != [] {
      NoMarkers(rs[1..]);
      assert ([rs[0].bytes] + Messages(rs[1..]))[1..] == Messages(rs[1..]);
    }
  }

  lemma {:induction false} NoGaps(s: Stream, n: nat)
    requires Shaped(s) && 1 <= n <= |s.datas|
    ensures InRange(s, InOrder(n)) && DueMarkers(s, InOrder(n)) == []
  {
    if n > 1 {
      NoGaps(s, n - 1);
      assert InOrder(n)[..n - 1] == InOrder(n - 1);
    }
  }

  lemma InOrderElements(n: nat)
    ensures forall c: nat :: c <= n - 1 ==> c in Elements(InOrder(n))
  {
    forall c: nat | c <= n - 1
      ensures c in Elements(InOrder(n))
    {
      assert InOrder(n)[c] == c;
    }
  }

  /** With nothing lost, the file and the pending bytes are all the bytes received, after every packet. */
  lemma LosslessIdentity(s: Stream, n: nat)
    requires Honest(s) && 1 <= n <= |s.datas|
    ensures InRange(s, InOrder(n))
    ensures var r := Run(s, InOrder(n));
      r.Done? && r.rx.header + Render(r.rx.records) + r.rx.pending == Flatten(s.datas[..n])
  {
    InOrderRun(s, n);
    var k := RunTracks(s, InOrder(n));
    LosslessRun(s, n, Run(s, InOrder(n)).rx, k);
  }

  /** In-order arrivals are all accepted, the last of them is the highest, and no marker is due. */
  lemma InOrderTracks(s: Stream, n: nat, rx: Rx, k: nat)
    requires Honest(s) && 1 <= n <= |s.datas| && Maxima(InOrder(n)) == InOrder(n)
    requires Consistent(s, InOrder(n), Done(rx), k)
    ensures Tracks(s, Elements(InOrder(n)), n - 1, rx, k) && Markers(rx.records) == []
  {
    NoGaps(s, n);
  }

  lemma LosslessRun(s: Stream, n: nat, rx: Rx, k: nat)
    requires Honest(s) && 1 <= n <= |s.datas| && Maxima(InOrder(n)) == InOrder(n)
    requires Consistent(s, InOrder(n), Done(rx), k)
    ensures rx.header + Render(rx.records) + rx.pending == Flatten(s.datas[..n])
  {
    InOrderTracks(s, n, rx, k);
    var acc := Elements(InOrder(n));
    InOrderElements(n);
    LosslessBytes(s, acc, n - 1, rx, k);
  }

  lemma AllCovered(s: Stream, acc: set<nat>, last: nat, a: nat, b: nat)
    requires last < |s.datas| && b <= Pos(s.datas, last + 1)
    requires forall c: nat :: c <= last ==> c in acc
    ensures Covered(s, acc, a, b)
  {
    forall c: nat | Carries(s, c, a, b)
      ensures c in acc
    {
      if c > last {
        PosMonotone(s.datas, last + 1, c);
      }
    }
  }

  lemma LosslessDelivered(s: Stream, acc: set<nat>, last: nat, k: nat)
    requires last < |s.datas| && 1 <= k <= |s.units| && Pos(s.units, k) <= Pos(s.datas, last + 1)
    requires forall c: nat :: c <= last ==> c in acc
    ensures Delivered(s, acc, k) == s.units[1..k]
  {
    forall u | 1 <= u < k
      ensures Intact(s, acc, u)
    {
      PosMonotone(s.units, u + 1, k);
      PosMonotone(s.datas, last + 1, |s.datas|);
      AllCovered(s, acc, last, Pos(s.units, u), Pos(s.units, u + 1));
    }
    DeliveredRun(s, acc, 1, k);
  }

  lemma LosslessBytes(s: Stream, acc: set<nat>, last: nat, rx: Rx, k: nat)
    requires Honest(s) && Tracks(s, acc, last, rx, k) && Markers(rx.records) == []
    requires forall c: nat :: c <= last ==> c in acc
    ensures rx.header + Render(rx.records) + rx.pending == Flatten(s.datas[..last + 1])
  {
    AllCovered(s, acc, last, Pos(s.units, k), Pos(s.datas, last + 1));
    LosslessDelivered(s, acc, last, k);
    NoMarkers(rx.records);
    LosslessFile(s, last, k);
  }

  lemma LosslessFile(s: Stream, last: nat, k: nat)
    requires Honest(s) && last < |s.datas| && 1 <= k <= |s.units|
    requires Pos(s.units, k) <= Pos(s.datas, last + 1) <= |Flatten(s.units)|
    ensures s.units[0] + Flatten(s.units[1..k]) + Flatten(s.units)[Pos(s.units, k)..Pos(s.datas, last + 1)]
         == Flatten(s.datas[..last + 1])
  {
    FlattenSlice(s.units, 0, k);
    assert s.units[0..k] == [s.units[0]] + s.units[1..k];
    assert s.units[0..k][1..] == s.units[1..k];
    FlattenSlice(s.datas, 0, last + 1);
    assert s.datas[0..last + 1] == s.datas[..last + 1];
    var all, sent, p := Flatten(s.units), Flatten(s.datas), Pos(s.datas, last + 1);
    assert sent == all[..|sent|];
    assert all[0..Pos(s.units, k)] + all[Pos(s.units, k)..p] == all[..p];
  }

  // ----- from the writer

  /** What the writer object published reaches the file exactly, whatever the link loses. */
  lemma WriterToFile(w: UlogSender.LogWriterMavlink, arrivals: seq<nat>)
    requires w.Valid() && w.units != [] && arrivals != [] && arrivals[0] == 0
    requires InRange(UlogSender.StreamOf(w.units, w.published), arrivals) && InWindow(arrivals)
    ensures var s := UlogSender.StreamOf(w.units, w.published);
      && (forall n: nat :: n < |w.published| ==> Packet(s, n) == w.published[n])
      && Messages(Run(s, arrivals).rx.records) + Waiting(Run(s, arrivals).rx)
         == Delivered(s, Elements(Maxima(arrivals)), |w.units|)
  {
    UlogSender.SenderHonest(w);
    ExactReassembly(UlogSender.StreamOf(w.units, w.published), arrivals);
  }
}
