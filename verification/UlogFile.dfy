/** The file that the receiver object writes: whole ULog messages and markers, byte by byte. */
module UlogFile {
  import opened Bytes
  import opened UlogReceiver
  import opened UlogStream
  import opened UlogExactness
  import opened UlogRuns

  // ----- the records as messages of the file

  /** The file's messages, one for each record. */
  function Parts(rs: seq<Record>): (parts: seq<seq<byte>>)
    ensures |parts| == |rs|
  {
    if rs == [] then [] else [RenderRecord(rs[0])] + Parts(rs[1..])
  }

  function Kinds(rs: seq<Record>): (marked: seq<bool>)
    ensures |marked| == |rs|
  {
    if rs == [] then [] else [rs[0].Dropout?] + Kinds(rs[1..])
  }

  /** The messages that are marked, or those that are not. */
  function Picked(parts: seq<seq<byte>>, marked: seq<bool>, which: bool): seq<seq<byte>>
    requires |parts| == |marked|
  {
    if parts == [] then []
    else (if marked[0] == which then [parts[0]] else []) + Picked(parts[1..], marked[1..], which)
  }

  /**
   * A ULog dropout message of `n` lost packets: a 16-bit size of 2 behind the three header bytes, type 'O', and the
   * duration in milliseconds, ten for each packet. Both numbers have their low byte first.
   */
  predicate IsMarker(m: seq<byte>, n: nat) {
    && |m| == 5
    && m[0] as nat + 256 * m[1] as nat == 2
    && m[2] as int == 'O' as int
    && m[3] as nat + 256 * m[4] as nat == 10 * n
  }

  predicate AreMarkers(ms: seq<seq<byte>>, ns: seq<nat>) {
    |ms| == |ns| && forall j :: 0 <= j < |ms| ==> IsMarker(ms[j], ns[j])
  }

  lemma MarkerBytes(n: DropCount)
    ensures IsMarker(RenderRecord(Dropout(n)), n)
  {
  }

  lemma AreMarkersCons(m: seq<byte>, n: nat, ms: seq<seq<byte>>, ns: seq<nat>)
    requires IsMarker(m, n) && AreMarkers(ms, ns)
    ensures AreMarkers([m] + ms, [n] + ns)
  {
  }

  lemma PickedCons(part: seq<byte>, mark: bool, parts: seq<seq<byte>>, marked: seq<bool>, which: bool)
    requires |parts| == |marked|
    ensures Picked([part] + parts, [mark] + marked, which)
         == (if mark == which then [part] else []) + Picked(parts, marked, which)
  {
    assert ([part] + parts)[1..] == parts && ([mark] + marked)[1..] == marked;
  }

  lemma {:induction false} RecordsPicked(rs: seq<Record>)
    ensures Flatten(Parts(rs)) == Render(rs)
    ensures Picked(Parts(rs), Kinds(rs), false) == Messages(rs)
    ensures AreMarkers(Picked(Parts(rs), Kinds(rs), true), Markers(rs))
    decreases |rs|
  {
    if rs != [] {
      var r, rest := rs[0], rs[1..];
      RecordsPicked(rest);
      FlattenCons(RenderRecord(r), Parts(rest));
      PickedCons(RenderRecord(r), r.Dropout?, Parts(rest), Kinds(rest), true);
      PickedCons(RenderRecord(r), r.Dropout?, Parts(rest), Kinds(rest), false);
      if r.Dropout? {
        MarkerBytes(r.count);
        AreMarkersCons(RenderRecord(r), r.count, Picked(Parts(rest), Kinds(rest), true), Markers(rest));
      }
    }
  }

  lemma {:induction false} RecordsWhole(rs: seq<Record>)
    requires AllWhole(Messages(rs))
    ensures AllWhole(Parts(rs))
    decreases |rs|
  {
    if rs != [] {
      var r, rest := rs[0], rs[1..];
      WholeSplit(if r.Message? then [r.bytes] else [], Messages(rest));
      if r.Message? {
        assert [r.bytes][0] == r.bytes;
      } else {
        MarkerBytes(r.count);
      }
      RecordsWhole(rest);
      AllWholeCons(RenderRecord(r), Parts(rest));
    }
  }

  lemma WholeSplit(a: seq<seq<byte>>, b: seq<seq<byte>>)
    requires AllWhole(a + b)
    ensures AllWhole(a) && AllWhole(b)
  {
    forall i | 0 <= i < |a|
      ensures Whole(a[i])
    {
      assert (a + b)[i] == a[i];
    }
    forall i | 0 <= i < |b|
      ensures Whole(b[i])
    {
      assert (a + b)[|a| + i] == b[i];
    }
  }

  lemma AllWholeCons(m: seq<byte>, ms: seq<seq<byte>>)
    requires Whole(m) && AllWhole(ms)
    ensures AllWhole([m] + ms)
  {
  }

  /** Whole messages, one after the other, parse as themselves and leave nothing. */
  lemma {:induction false} WholeParses(parts: seq<seq<byte>>)
    requires AllWhole(parts)
    ensures ParseMessages(Flatten(parts)) == Parsed(parts, [])
    decreases |parts|
  {
    if parts != [] {
      var m, rest := parts[0], parts[1..];
      assert parts == [m] + rest && Whole(m);
      WholeParses(rest);
      assert m[|m|..] == [] && [] + Flatten(rest) == Flatten(rest) && m[..|m|] == m;
      ParseMessagesCons(m + Flatten(rest), m, Flatten(rest));
    }
  }

  // ----- the file of a run

  /**
   * Behind the 16-byte header the file parses into whole ULog messages with nothing left over. Some of them are
   * markers, one for each gap that is due, with ten milliseconds for each packet lost, at most 25; the others are, in
   * order, the stream's messages whose every packet was accepted, the last of which may still be pending.
   */
  ghost predicate Explained(s: Stream, ms: seq<nat>, file: seq<byte>, pending: seq<byte>,
                            parts: seq<seq<byte>>, marked: seq<bool>)
    requires Shaped(s) && InRange(s, ms) && s.units != []
  {
    && |parts| == |marked|
    && file == s.units[0] + Flatten(parts)
    && ParseMessages(Flatten(parts)) == Parsed(parts, [])
    && AreMarkers(Picked(parts, marked, true), DueMarkers(s, ms))
    && Picked(parts, marked, false) + (if Whole(pending) then [pending] else []) == Delivered(s, Elements(ms), |s.units|)
  }

  lemma {:induction false} DeliveredWhole(s: Stream, acc: set<nat>, k: nat)
    requires WellFormedUnits(s.units) && k <= |s.units|
    ensures AllWhole(Delivered(s, acc, k))
    decreases k
  {
    if k > 0 {
      DeliveredWhole(s, acc, k - 1);
    }
  }

  lemma FileExplained(s: Stream, arrivals: seq<nat>, rx: Rx)
    requires Honest(s) && InRange(s, arrivals) && InWindow(arrivals) && arrivals != [] && arrivals[0] == 0
    requires Run(s, arrivals) == Done(rx)
    ensures InRange(s, Maxima(arrivals)) && s.units != []
    ensures Explained(s, Maxima(arrivals), rx.header + Render(rx.records), rx.pending, Parts(rx.records), Kinds(rx.records))
  {
    ExactReassembly(s, arrivals);
    ExactMarkers(s, arrivals);
    RecordsPicked(rx.records);
    DeliveredWhole(s, Elements(Maxima(arrivals)), |s.units|);
    WholeSplit(Messages(rx.records), Waiting(rx));
    RecordsWhole(rx.records);
    WholeParses(Parts(rx.records));
  }

  /** What one more packet appends to the file: the marker due for the packets lost in front of it, then messages. */
  lemma FileGrows(s: Stream, before: seq<nat>, n: nat) returns (marks: seq<seq<byte>>, ms: seq<seq<byte>>)
    requires Shaped(s) && InRange(s, before) && n < |s.datas| && InWindow(before + [n]) && before != []
    ensures InRange(s, before + [n]) && InRange(s, Maxima(before))
    ensures Run(s, before + [n]).Done? ==>
      && Run(s, before).Done?
      && Render(Run(s, before + [n]).rx.records) == Render(Run(s, before).rx.records) + Flatten(marks) + Flatten(ms)
      && var gap: int := n as int - Top(before) as int - 1;
         if gap > 0 && SectionDone(s, Maxima(before) + [n])
         then |marks| == 1 && IsMarker(marks[0], if gap > 25 then 25 else gap)
         else marks == []
  {
    ms := MarkersPlaced(s, before, n);
    var due := MarkerDue(s, before, n);
    marks := Parts(due);
    if Run(s, before + [n]).Done? {
      var records := Run(s, before).rx.records;
      RenderConcat(records + due, AsRecords(ms));
      RenderConcat(records, due);
      RenderMessages(ms);
      RecordsPicked(due);
      if due != [] {
        MarkerBytes(due[0].count);
      }
    }
  }

  // ----- the objects

  ghost predicate Mirrors(receiver: MavlinkLogStreaming, raised: bool, r: Outcome)
    reads receiver
  {
    receiver.Valid() && raised == r.HeaderTooShort? && receiver.State() == r.rx
  }

  /** One more packet; after an exception no further one is read. */
  method ReceiveNext(receiver: MavlinkLogStreaming, s: Stream, ghost before: seq<nat>, n: nat, stopped: bool)
    returns (raised: bool)
    requires Shaped(s) && InRange(s, before) && n < |s.datas| && Mirrors(receiver, stopped, Run(s, before))
    modifies receiver
    ensures InRange(s, before + [n]) && Mirrors(receiver, raised, Run(s, before + [n]))
  {
    RunSnoc(s, before, n);
    raised := stopped;
    if !stopped {
      raised := receiver.ReadMessage(Packet(s, n));
    }
  }

  method ReceiveEach(receiver: MavlinkLogStreaming, s: Stream, arrivals: seq<nat>) returns (raised: bool)
    requires Shaped(s) && InRange(s, arrivals) && Mirrors(receiver, false, Done(INITIAL))
    modifies receiver
    ensures Mirrors(receiver, raised, Run(s, arrivals))
  {
    raised := false;
    var j := 0;
    ghost var seen: seq<nat> := [];
    while j < |arrivals|
      invariant j <= |arrivals| && seen == arrivals[..j] && InRange(s, seen)
      invariant Mirrors(receiver, raised, Run(s, seen))
    {
      raised := ReceiveNext(receiver, s, seen, arrivals[j], raised);
      seen := seen + [arrivals[j]];
      j := j + 1;
    }
    assert seen == arrivals;
  }

  /**
   * Feeding the packets to a fresh receiver object leaves exactly the file that `Run` describes; for an honest stream
   * that is a ULog file of whole messages and due markers.
   */
  method StreamToFile(s: Stream, arrivals: seq<nat>)
    returns (file: seq<byte>, pending: seq<byte>, raised: bool, ghost parts: seq<seq<byte>>, ghost marked: seq<bool>)
    requires Shaped(s) && InRange(s, arrivals)
    ensures raised == Run(s, arrivals).HeaderTooShort?
    ensures file == Run(s, arrivals).rx.header + Render(Run(s, arrivals).rx.records)
    ensures pending == Run(s, arrivals).rx.pending
    ensures Honest(s) && InWindow(arrivals) && arrivals != [] && arrivals[0] == 0 ==>
      && !raised && InRange(s, Maxima(arrivals)) && s.units != []
      && Explained(s, Maxima(arrivals), file, pending, parts, marked)
  {
    var receiver := new MavlinkLogStreaming();
    raised := ReceiveEach(receiver, s, arrivals);
    file, pending := receiver.file, receiver.ulogMessage;
    ghost var rx := Run(s, arrivals).rx;
    parts, marked := Parts(rx.records), Kinds(rx.records);
    if Honest(s) && InWindow(arrivals) && arrivals != [] && arrivals[0] == 0 {
      ExactReassembly(s, arrivals);
      FileExplained(s, arrivals, rx);
    }
  }
}
