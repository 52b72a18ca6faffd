/** A MAVLink 1 endpoint: sending, robust parsing, and what a whole conversation delivers. */
module MavlinkLink {
  import opened Bytes
  import opened MavlinkParser
  import opened MavlinkMessage

  datatype Option<T> = None | Some(value: T)

  /** A message to send: its type and its field values, in the order of its constructor. */
  datatype Outgoing = Outgoing(id: byte, values: seq<Value>)

  /** Packing the message does not raise. */
  predicate Packable(d: Dialect, o: Outgoing) {
    o.id in d.schemas && Packs(d.schemas[o.id], o.values)
  }

  predicate AllPackable(d: Dialect, outs: seq<Outgoing>) {
    forall i :: 0 <= i < |outs| ==> Packable(d, outs[i])
  }

  predicate AllTransferable(d: Dialect, outs: seq<Outgoing>) {
    AllPackable(d, outs) && forall i :: 0 <= i < |outs| ==> Transferable(d, outs[i])
  }

  /** The message can be packed, and its type unpacked again. */
  predicate Transferable(d: Dialect, o: Outgoing) {
    o.id in d.schemas && Sendable(d.schemas[o.id], o.values)
  }

  function DecoderOf(d: Dialect): Decoder<Msg> {
    (raw: seq<byte>) => match Decode(d, raw)
      case Message(m) => Accept(m)
      case MavError => Reject
      case IndexError => Reject
  }

  /** The next frame in the buffer, if complete, makes decoding raise IndexError. */
  predicate Blows(d: Dialect, buf: seq<byte>) {
    Ready(buf) > 0 && buf[0] == PREFIX && Decode(d, buf[..Ready(buf)]) == IndexError
  }

  predicate EscapesAt(d: Dialect, items: seq<Item<Msg>>, k: nat) {
    k < |items| && Decode(d, items[k].raw) == IndexError
  }

  /** One of the items makes decoding raise an exception that is not caught. */
  predicate Escapes(d: Dialect, items: seq<Item<Msg>>) {
    exists k :: 0 <= k < |items| && EscapesAt(d, items, k)
  }

  /** How many of the items are messages. */
  function Goods(items: seq<Item<Msg>>): (n: nat)
    ensures n <= |items|
  {
    if items == [] then 0 else Goods(items[..|items| - 1]) + (if items[|items| - 1].Good? then 1 else 0)
  }

  lemma GoodsSnoc(items: seq<Item<Msg>>, item: Item<Msg>)
    ensures Goods(items + [item]) == Goods(items) + (if item.Good? then 1 else 0)
  {
    assert (items + [item])[..|items|] == items;
  }

  lemma {:induction false} GoodsConcat(a: seq<Item<Msg>>, b: seq<Item<Msg>>)
    ensures Goods(a + b) == Goods(a) + Goods(b)
    decreases |b|
  {
    if b == [] {
      assert a + b == a;
    } else {
      var n := |b| - 1;
      assert b == b[..n] + [b[n]];
      Assoc(a, b[..n], [b[n]]);
      GoodsConcat(a, b[..n]);
      GoodsSnoc(a + b[..n], b[n]);
    }
  }

  class MAVLink {
    const dialect: Dialect
    const srcSystem: byte
    const srcComponent: byte
    var seqNo: nat
    var file: seq<byte>
    var buf: seq<byte>
    var expectedLength: nat
    var totalPacketsSent: nat
    var totalBytesSent: nat
    var totalPacketsReceived: nat
    var totalBytesReceived: nat
    var totalReceiveErrors: nat

    ghost predicate Valid()
      reads this
    {
      && seqNo < 255
      && (expectedLength == 6 || (|buf| >= 2 && buf[0] == PREFIX && expectedLength == buf[1] as nat + 8))
    }

    constructor (d: Dialect, system: byte, component: byte)
      ensures Valid() && dialect == d && srcSystem == system && srcComponent == component
      ensures seqNo == 0 && file == [] && buf == []
      ensures totalPacketsReceived == 0 && totalReceiveErrors == 0 && totalBytesReceived == 0
    {
      dialect, srcSystem, srcComponent := d, system, component;
      seqNo, file, buf, expectedLength := 0, [], [], 6;
      totalPacketsSent, totalBytesSent := 0, 0;
      totalPacketsReceived, totalBytesReceived, totalReceiveErrors := 0, 0, 0;
    }

    /** Packs and writes one message; packing raises if a value does not fit its field. */
    method Send(o: Outgoing) returns (raised: bool)
      requires Valid()
      modifies this`file, this`seqNo, this`totalPacketsSent, this`totalBytesSent
      ensures Valid()
      ensures raised <==> !Packable(dialect, o)
      ensures raised ==> file == old(file) && seqNo == old(seqNo)
      ensures !raised ==>
        && file == old(file) + Frame(dialect, Msg(o.id, old(seqNo) as byte, srcSystem, srcComponent, o.values))
        && seqNo == (old(seqNo) + 1) % 255
        && totalPacketsSent == old(totalPacketsSent) + 1
        && totalBytesSent - old(totalBytesSent) == |file| - |old(file)|
    {
      if !Packable(dialect, o) {
        return true;
      }
      var frame := Frame(dialect, Msg(o.id, seqNo as byte, srcSystem, srcComponent, o.values));
      file := file + frame;
      seqNo := (seqNo + 1) % 255;
      totalPacketsSent := totalPacketsSent + 1;
      totalBytesSent := totalBytesSent + |frame|;
      return false;
    }

    /** Takes a bad prefix byte off the buffer. */
    method DropPrefix() returns (item: Item<Msg>)
      requires |buf| >= 1 && buf[0] != PREFIX
      modifies this`buf, this`expectedLength, this`totalReceiveErrors
      ensures item == BadData([old(buf)[0]]) && buf == old(buf)[1..] && expectedLength == 6
      ensures totalReceiveErrors == old(totalReceiveErrors) + 1
    {
      item := BadData([buf[0]]);
      buf := buf[1..];
      expectedLength := 6;
      totalReceiveErrors := totalReceiveErrors + 1;
    }

    /** Takes a complete frame off the buffer and decodes it. */
    method TakeFrame() returns (raised: bool, item: Option<Item<Msg>>)
      requires 8 <= expectedLength <= |buf| && buf[0] == PREFIX
      modifies this`buf, this`expectedLength, this`totalReceiveErrors, this`totalPacketsReceived
      ensures var raw := old(buf[..expectedLength]);
        && buf == old(buf[expectedLength..]) && expectedLength == 6
        && (raised <==> Decode(dialect, raw) == IndexError)
        && (raised ==> item == None && totalReceiveErrors == old(totalReceiveErrors) && totalPacketsReceived == old(totalPacketsReceived))
        && (!raised ==> item == Some(ItemOf(DecoderOf(dialect), raw))
                        && totalReceiveErrors + totalPacketsReceived == old(totalReceiveErrors + totalPacketsReceived) + 1
                        && totalPacketsReceived == old(totalPacketsReceived) + (if item.value.Good? then 1 else 0))
    {
      var mbuf := buf[..expectedLength];
      buf := buf[expectedLength..];
      expectedLength := 6;
      var decoded := DecodeMessage(dialect, mbuf);
      match decoded
      case Message(m) =>
        totalPacketsReceived := totalPacketsReceived + 1;
        return false, Some(Good(mbuf, m));
      case MavError =>
        totalReceiveErrors := totalReceiveErrors + 1;
        return false, Some(BadData(mbuf));
      case IndexError =>
        return true, None;
    }

    /** Adds bytes to the buffer and returns at most one item; `raised` is an exception that is not caught. */
    method ParseChar(c: seq<byte>) returns (raised: bool, item: Option<Item<Msg>>)
      requires Valid()
      modifies this`buf, this`expectedLength, this`totalReceiveErrors, this`totalPacketsReceived, this`totalBytesReceived
      ensures Valid()
      ensures totalBytesReceived == old(totalBytesReceived) + |c|
      ensures var all := old(buf) + c;
        && buf == all[Ready(all)..]
        && (raised <==> Blows(dialect, all))
        && (item.None? <==> raised || Ready(all) == 0)
        && (item.Some? ==> item.value == ItemOf(DecoderOf(dialect), all[..Ready(all)]))
      ensures totalReceiveErrors + totalPacketsReceived
           == old(totalReceiveErrors + totalPacketsReceived) + (if item.Some? then 1 else 0)
      ensures totalPacketsReceived == old(totalPacketsReceived) + (if item.Some? && item.value.Good? then 1 else 0)
    {
      buf := buf + c;
      totalBytesReceived := totalBytesReceived + |c|;
      if |buf| >= 1 && buf[0] != 254 {
        var bad := DropPrefix();
        return false, Some(bad);
      }
      if |buf| >= 2 {
        expectedLength := buf[1] as nat + 8;
      }
      if expectedLength >= 8 && |buf| >= expectedLength {
        raised, item := TakeFrame();
        return;
      }
      return false, None;
    }

    /**
     * Adds bytes and drains the buffer; no item at all is what the original returns as None. An exception ends the
     * call behind the frame that raised it; `items` are then those before it.
     */
    method ParseBuffer(s: seq<byte>) returns (raised: bool, items: seq<Item<Msg>>)
      requires Valid()
      modifies this`buf, this`expectedLength, this`totalReceiveErrors, this`totalPacketsReceived, this`totalBytesReceived
      ensures Valid()
      ensures raised <==> Escapes(dialect, Drain(DecoderOf(dialect), old(buf) + s).items)
      ensures !raised ==> Drained(items, buf) == Drain(DecoderOf(dialect), old(buf) + s)
      ensures raised ==> Interrupted(dialect, Drain(DecoderOf(dialect), old(buf) + s).items, items)
      ensures totalPacketsReceived == old(totalPacketsReceived) + Goods(items)
      ensures totalReceiveErrors + totalPacketsReceived == old(totalReceiveErrors + totalPacketsReceived) + |items|
    {
      ghost var all := buf + s;
      DrainingStart(dialect, all);
      var item;
      raised, item := ParseChar(s);
      if raised || item.None? {
        return raised, [];
      }
      items := [item.value];
      GoodsSnoc([], item.value);
      while true
        invariant Valid() && Draining(dialect, all, items, buf)
        invariant totalPacketsReceived == old(totalPacketsReceived) + Goods(items)
        invariant totalReceiveErrors + totalPacketsReceived == old(totalReceiveErrors + totalPacketsReceived) + |items|
        decreases |buf|
      {
        DrainingStep(dialect, all, items, buf);
        assert buf + [] == buf;
        raised, item := ParseChar([]);
        if raised || item.None? {
          return raised, items;
        }
        GoodsSnoc(items, item.value);
        items := items + [item.value];
      }
    }
  }

  /** `items` are the ones before the first of `whole` that makes decoding raise. */
  ghost predicate Interrupted(d: Dialect, whole: seq<Item<Msg>>, items: seq<Item<Msg>>) {
    items < whole && EscapesAt(d, whole, |items|) && !Escapes(d, items)
  }

  /** `items` came off the front of `all` without an exception, and `buf` is still to be drained. */
  ghost predicate Draining(d: Dialect, all: seq<byte>, items: seq<Item<Msg>>, buf: seq<byte>) {
    && Drain(DecoderOf(d), all).items == items + Drain(DecoderOf(d), buf).items
    && Drain(DecoderOf(d), all).rest == Drain(DecoderOf(d), buf).rest
    && !Escapes(d, items)
  }

  lemma ItemRaw(d: Dialect, raw: seq<byte>)
    requires raw != []
    ensures ItemOf(DecoderOf(d), raw).raw == raw
    ensures raw[0] != PREFIX ==> Decode(d, raw) != IndexError
  {
  }

  lemma EscapesSnoc(d: Dialect, items: seq<Item<Msg>>, item: Item<Msg>)
    ensures Escapes(d, items + [item]) <==> Escapes(d, items) || Decode(d, item.raw) == IndexError
  {
    var more := items + [item];
    if Escapes(d, items) {
      var k :| 0 <= k < |items| && EscapesAt(d, items, k);
      assert EscapesAt(d, more, k);
    }
    if Decode(d, item.raw) == IndexError {
      assert EscapesAt(d, more, |items|);
    }
    if Escapes(d, more) {
      var k :| 0 <= k < |more| && EscapesAt(d, more, k);
      assert k < |items| ==> EscapesAt(d, items, k);
    }
  }

  /** What the next turn does: nothing left, an exception, or one more item. */
  lemma DrainingStep(d: Dialect, all: seq<byte>, items: seq<Item<Msg>>, buf: seq<byte>)
    requires Draining(d, all, items, buf)
    ensures var n, whole := Ready(buf), Drain(DecoderOf(d), all);
      if n == 0 then whole == Drained(items, buf) && !Escapes(d, whole.items)
      else if Blows(d, buf) then Interrupted(d, whole.items, items) && Escapes(d, whole.items)
      else Draining(d, all, items + [ItemOf(DecoderOf(d), buf[..n])], buf[n..])
  {
    var n, decode := Ready(buf), DecoderOf(d);
    if n == 0 {
      DrainNothing(decode, buf);
      assert items + [] == items;
    } else {
      var item, later := ItemOf(decode, buf[..n]), Drain(decode, buf[n..]).items;
      assert buf == buf[..n] + buf[n..];
      DrainStep(decode, buf, buf[..n], buf[n..]);
      Assoc(items, [item], later);
      ItemRaw(d, buf[..n]);
      EscapesSnoc(d, items, item);
      if Blows(d, buf) {
        EscapesThere(d, items, item, later);
      }
    }
  }

  lemma EscapesThere(d: Dialect, items: seq<Item<Msg>>, item: Item<Msg>, later: seq<Item<Msg>>)
    requires Decode(d, item.raw) == IndexError
    ensures var whole := items + ([item] + later); items < whole && EscapesAt(d, whole, |items|) && Escapes(d, whole)
  {
    var whole := items + ([item] + later);
    assert whole[|items|] == item;
    assert EscapesAt(d, whole, |items|);
  }

  lemma DrainingStart(d: Dialect, all: seq<byte>)
    ensures var n, whole := Ready(all), Drain(DecoderOf(d), all);
      if n == 0 then whole == Drained([], all) && !Escapes(d, whole.items)
      else if Blows(d, all) then Interrupted(d, whole.items, []) && Escapes(d, whole.items)
      else Draining(d, all, [ItemOf(DecoderOf(d), all[..n])], all[n..])
  {
    DrainingStep(d, all, [], all);
    assert [] + [ItemOf(DecoderOf(d), [0])] == [ItemOf(DecoderOf(d), [0])];
  }

  /** No bytes whatever make the endpoint raise if and only if all order maps fit. */
  lemma NeverBlowsExactly(d: Dialect)
    ensures Sound(d) <==> forall buf :: !Blows(d, buf)
  {
    SoundExactly(d);
    if forall buf :: !Blows(d, buf) {
      forall id | id in d.schemas && PayloadSize(d.schemas[id].fmt) < 256
        ensures OrderFits(d.schemas[id])
      {
        var raw := ZeroFrame(d, id);
        ZeroFramePasses(d, id);
        assert raw[..|raw|] == raw;
        assert !Blows(d, raw);
      }
    }
  }

  // ----- a conversation

  /** The bytes of `outs`, sent from sequence number `start` on. */
  function Transmission(d: Dialect, system: byte, component: byte, start: nat, outs: seq<Outgoing>): seq<byte>
    requires AllPackable(d, outs)
    decreases |outs|
  {
    if outs == [] then []
    else FrameOf(d, system, component, start, outs[0]) + Transmission(d, system, component, start + 1, outs[1..])
  }

  function FrameOf(d: Dialect, system: byte, component: byte, k: nat, o: Outgoing): seq<byte>
    requires Packable(d, o)
  {
    Frame(d, Msg(o.id, (k % 255) as byte, system, component, o.values))
  }

  function Arrival(d: Dialect, system: byte, component: byte, k: nat, o: Outgoing): Item<Msg>
    requires Transferable(d, o)
  {
    Good(FrameOf(d, system, component, k, o),
         Msg(o.id, (k % 255) as byte, system, component, Received(d.schemas[o.id], o.values)))
  }

  /** What should arrive for `outs`: same types and fields, sequence numbers counting modulo 255. */
  function Arrivals(d: Dialect, system: byte, component: byte, start: nat, outs: seq<Outgoing>): seq<Item<Msg>>
    requires AllTransferable(d, outs)
  {
    seq(|outs|, i requires 0 <= i < |outs| => Arrival(d, system, component, start + i, outs[i]))
  }

  lemma TailTransferable(d: Dialect, outs: seq<Outgoing>)
    requires outs != [] && AllTransferable(d, outs)
    ensures Transferable(d, outs[0]) && AllTransferable(d, outs[1..])
  {
  }

  lemma ArrivalsCons(d: Dialect, system: byte, component: byte, start: nat, outs: seq<Outgoing>)
    requires outs != [] && AllTransferable(d, outs) && Transferable(d, outs[0]) && AllTransferable(d, outs[1..])
    ensures Arrivals(d, system, component, start, outs)
         == [Arrival(d, system, component, start, outs[0])] + Arrivals(d, system, component, start + 1, outs[1..])
  {
    var all, later := Arrivals(d, system, component, start, outs), Arrivals(d, system, component, start + 1, outs[1..]);
    forall i | 0 < i < |outs|
      ensures all[i] == later[i - 1]
    {
      var o, k := outs[i], start + i;
      assert o == outs[1..][i - 1] && k == start + 1 + (i - 1);
    }
  }

  lemma {:induction false} TransmissionArrives(d: Dialect, system: byte, component: byte, start: nat, outs: seq<Outgoing>)
    requires AllTransferable(d, outs)
    ensures Drain(DecoderOf(d), Transmission(d, system, component, start, outs))
         == Drained(Arrivals(d, system, component, start, outs), [])
    decreases |outs|
  {
    if outs == [] {
      DrainNothing(DecoderOf(d), []);
    } else {
      var o := outs[0];
      TailTransferable(d, outs);
      var m := Msg(o.id, (start % 255) as byte, system, component, o.values);
      FrameParts(d, m);
      DecodeFrame(d, m);
      TransmissionArrives(d, system, component, start + 1, outs[1..]);
      FrameInFront(DecoderOf(d), Frame(d, m), Transmission(d, system, component, start + 1, outs[1..]));
      ArrivalsCons(d, system, component, start, outs);
    }
  }

  /**
   * Whatever a fresh endpoint sends, cut in any way and fed to a fresh endpoint, arrives in order, field by field,
   * the k-th message with sequence number k mod 255, without bad data and with nothing left over.
   */
  lemma ConversationRoundTrip(d: Dialect, system: byte, component: byte, outs: seq<Outgoing>, chunks: seq<seq<byte>>)
    requires AllTransferable(d, outs)
    requires Flatten(chunks) == Transmission(d, system, component, 0, outs)
    ensures Feed(DecoderOf(d), [], chunks) == Drained(Arrivals(d, system, component, 0, outs), [])
  {
    FeedIsDrain(DecoderOf(d), [], chunks);
    assert [] + Flatten(chunks) == Flatten(chunks);
    TransmissionArrives(d, system, component, 0, outs);
  }

  lemma SequenceNext(k: nat)
    ensures (k % 255 + 1) % 255 == (k + 1) % 255
  {
  }

  lemma TransmissionStep(d: Dialect, system: byte, component: byte, start: nat, outs: seq<Outgoing>)
    requires outs != [] && AllPackable(d, outs)
    ensures Transmission(d, system, component, start, outs)
         == FrameOf(d, system, component, start, outs[0]) + Transmission(d, system, component, start + 1, outs[1..])
  {
  }

  lemma TransmissionNext(d: Dialect, system: byte, component: byte, k: nat, outs: seq<Outgoing>, sent: seq<byte>)
    requires k < |outs| && AllPackable(d, outs)
    ensures sent + Transmission(d, system, component, k, outs[k..])
         == sent + FrameOf(d, system, component, k, outs[k]) + Transmission(d, system, component, k + 1, outs[k + 1..])
  {
    TransmissionStep(d, system, component, k, outs[k..]);
    assert outs[k..][1..] == outs[k + 1..];
    Assoc(sent, FrameOf(d, system, component, k, outs[k]), Transmission(d, system, component, k + 1, outs[k + 1..]));
  }

  method SendNext(link: MAVLink, outs: seq<Outgoing>, k: nat)
    requires link.Valid() && k < |outs| && link.seqNo == k % 255
    requires AllPackable(link.dialect, outs)
    modifies link
    ensures link.Valid() && link.seqNo == (k + 1) % 255
    ensures link.file + Transmission(link.dialect, link.srcSystem, link.srcComponent, k + 1, outs[k + 1..])
         == old(link.file) + Transmission(link.dialect, link.srcSystem, link.srcComponent, k, outs[k..])
  {
    SequenceNext(k);
    TransmissionNext(link.dialect, link.srcSystem, link.srcComponent, k, outs, link.file);
    var raised := link.Send(outs[k]);
  }

  /** Sending through the endpoint object produces the transmission. */
  method SendAll(link: MAVLink, outs: seq<Outgoing>)
    requires link.Valid() && link.seqNo == 0 && link.file == []
    requires AllPackable(link.dialect, outs)
    modifies link
    ensures link.Valid()
    ensures link.file == Transmission(link.dialect, link.srcSystem, link.srcComponent, 0, outs)
  {
    ghost var d, system, component := link.dialect, link.srcSystem, link.srcComponent;
    ghost var whole := Transmission(d, system, component, 0, outs);
    for k := 0 to |outs|
      invariant link.Valid() && link.seqNo == k % 255
      invariant link.file + Transmission(d, system, component, k, outs[k..]) == whole
    {
      SendNext(link, outs, k);
    }
  }

  // ----- receiving chunk by chunk

  /** The items so far and what the remaining chunks add make up the whole. */
  ghost predicate Feeding(d: Dialect, whole: Drained<Msg>, items: seq<Item<Msg>>, buf: seq<byte>, later: seq<seq<byte>>) {
    && whole.items == items + Feed(DecoderOf(d), buf, later).items
    && whole.rest == Feed(DecoderOf(d), buf, later).rest
    && !Escapes(d, items)
  }

  lemma FeedCons(d: Dialect, buf: seq<byte>, chunks: seq<seq<byte>>)
    requires chunks != []
    ensures var now := Drain(DecoderOf(d), buf + chunks[0]);
      var f := Feed(DecoderOf(d), now.rest, chunks[1..]);
      Feed(DecoderOf(d), buf, chunks) == Drained(now.items + f.items, f.rest)
  {
  }

  lemma EscapesConcat(d: Dialect, a: seq<Item<Msg>>, b: seq<Item<Msg>>)
    ensures Escapes(d, a + b) <==> Escapes(d, a) || Escapes(d, b)
  {
    if Escapes(d, a) {
      var k :| 0 <= k < |a| && EscapesAt(d, a, k);
      assert EscapesAt(d, a + b, k);
    }
    if Escapes(d, b) {
      var k :| 0 <= k < |b| && EscapesAt(d, b, k);
      assert EscapesAt(d, a + b, |a| + k);
    }
    if Escapes(d, a + b) {
      var k :| 0 <= k < |a + b| && EscapesAt(d, a + b, k);
      assert if k < |a| then EscapesAt(d, a, k) else EscapesAt(d, b, k - |a|);
    }
  }

  /** One more chunk, drained without an exception or not. */
  lemma FeedingStep(d: Dialect, whole: Drained<Msg>, items: seq<Item<Msg>>, buf: seq<byte>, chunks: seq<seq<byte>>)
    requires chunks != [] && Feeding(d, whole, items, buf, chunks)
    ensures var now := Drain(DecoderOf(d), buf + chunks[0]);
      if Escapes(d, now.items) then Escapes(d, whole.items)
      else Feeding(d, whole, items + now.items, now.rest, chunks[1..])
  {
    var now := Drain(DecoderOf(d), buf + chunks[0]);
    var later := Feed(DecoderOf(d), now.rest, chunks[1..]).items;
    FeedCons(d, buf, chunks);
    Assoc(items, now.items, later);
    EscapesConcat(d, items, now.items);
    EscapesConcat(d, items + now.items, later);
  }

  /**
   * Feeding chunks to the endpoint object, up to an exception: one is raised exactly if some item of the run makes
   * decoding raise; otherwise the items and the leftover are those of the run, and every one is counted.
   */
  method ReceiveAll(link: MAVLink, chunks: seq<seq<byte>>) returns (raised: bool, items: seq<Item<Msg>>)
    requires link.Valid()
    modifies link
    ensures link.Valid()
    ensures raised <==> Escapes(link.dialect, Feed(DecoderOf(link.dialect), old(link.buf), chunks).items)
    ensures !raised ==> Drained(items, link.buf) == Feed(DecoderOf(link.dialect), old(link.buf), chunks)
    ensures !raised ==>
      && link.totalPacketsReceived == old(link.totalPacketsReceived) + Goods(items)
      && link.totalReceiveErrors + link.totalPacketsReceived
         == old(link.totalReceiveErrors + link.totalPacketsReceived) + |items|
  {
    ghost var d, whole := link.dialect, Feed(DecoderOf(link.dialect), link.buf, chunks);
    items := [];
    assert chunks[0..] == chunks && [] + whole.items == whole.items;
    for k := 0 to |chunks|
      invariant link.Valid() && Feeding(d, whole, items, link.buf, chunks[k..])
      invariant link.totalPacketsReceived == old(link.totalPacketsReceived) + Goods(items)
      invariant link.totalReceiveErrors + link.totalPacketsReceived
             == old(link.totalReceiveErrors + link.totalPacketsReceived) + |items|
    {
      assert chunks[k..][1..] == chunks[k + 1..];
      FeedingStep(d, whole, items, link.buf, chunks[k..]);
      var more;
      raised, more := link.ParseBuffer(chunks[k]);
      if raised {
        return;
      }
      GoodsConcat(items, more);
      items := items + more;
    }
    assert chunks[|chunks|..] == [] && items + [] == items;
    raised := false;
  }

  // ----- both ends

  /** The bytes cut into pieces of the given sizes, the last piece taking the rest. */
  function CutBy(bytes: seq<byte>, sizes: seq<nat>): (chunks: seq<seq<byte>>)
    decreases |sizes|
  {
    if sizes == [] then [bytes] else [UpTo(bytes, sizes[0])] + CutBy(From(bytes, sizes[0]), sizes[1..])
  }

  lemma {:induction false} CutByWhole(bytes: seq<byte>, sizes: seq<nat>)
    ensures Flatten(CutBy(bytes, sizes)) == bytes
    decreases |sizes|
  {
    if sizes == [] {
      assert [bytes] + [] == [bytes];
      FlattenCons(bytes, []);
    } else {
      var front, back := UpTo(bytes, sizes[0]), From(bytes, sizes[0]);
      CutByWhole(back, sizes[1..]);
      FlattenCons(front, CutBy(back, sizes[1..]));
      FrontAndBack(bytes, sizes[0]);
    }
  }

  lemma {:induction false} ArrivalsGood(d: Dialect, items: seq<Item<Msg>>)
    requires forall k :: 0 <= k < |items| ==> items[k].Good? && Decode(d, items[k].raw).Message?
    ensures Goods(items) == |items| && !Escapes(d, items)
    decreases |items|
  {
    if items != [] {
      ArrivalsGood(d, items[..|items| - 1]);
    }
  }

  lemma ArrivalDecodes(d: Dialect, system: byte, component: byte, k: nat, o: Outgoing)
    requires Transferable(d, o)
    ensures Arrival(d, system, component, k, o).Good? && Decode(d, Arrival(d, system, component, k, o).raw).Message?
  {
    DecodeFrame(d, Msg(o.id, (k % 255) as byte, system, component, o.values));
  }

  /** Everything a conversation of transferable messages leads to. */
  lemma ConversationGood(d: Dialect, system: byte, component: byte, outs: seq<Outgoing>)
    requires AllTransferable(d, outs)
    ensures var items := Arrivals(d, system, component, 0, outs); Goods(items) == |outs| && !Escapes(d, items)
  {
    var items := Arrivals(d, system, component, 0, outs);
    forall k | 0 <= k < |items|
      ensures items[k].Good? && Decode(d, items[k].raw).Message?
    {
      ArrivalDecodes(d, system, component, k, outs[k]);
    }
    ArrivalsGood(d, items);
  }

  /**
   * Two fresh endpoint objects, whatever else their message map holds: everything sent, cut in any way, is received
   * in order and counted, with no exception, no bad data and nothing left over.
   */
  method Converse(d: Dialect, system: byte, component: byte, outs: seq<Outgoing>, sizes: seq<nat>)
    returns (raised: bool, items: seq<Item<Msg>>, receiver: MAVLink)
    requires AllTransferable(d, outs)
    ensures !raised && items == Arrivals(d, system, component, 0, outs)
    ensures receiver.buf == [] && receiver.totalPacketsReceived == |outs| && receiver.totalReceiveErrors == 0
  {
    var sender := new MAVLink(d, system, component);
    SendAll(sender, outs);
    receiver := new MAVLink(d, system, component);
    var chunks := CutBy(sender.file, sizes);
    CutByWhole(sender.file, sizes);
    ConversationRoundTrip(d, system, component, outs, chunks);
    ConversationGood(d, system, component, outs);
    raised, items := ReceiveAll(receiver, chunks);
  }

  // ----- a message type whose frames break the receiver

  /** The row of message 61: 18 payload values, an order map of 6, and 6 values packed. */
  const SWARM_SETPOINT: Schema := Schema(
    seq(12, _ => Signed(2)) + seq(4, _ => Unsigned(2)) + [Unsigned(1), Unsigned(1)],
    [4, 5, 0, 1, 2, 3], [2, 3, 4, 5, 0, 1], 240)

  lemma {:induction false} SizeOfPairs(t: FieldType, n: nat, rest: seq<FieldType>)
    requires Size(t) == 2
    ensures PayloadSize(seq(n, _ => t) + rest) == 2 * n + PayloadSize(rest)
    decreases n
  {
    var all := seq(n, _ => t) + rest;
    if n == 0 {
      assert all == rest;
    } else {
      assert all[0] == t && all[1..] == seq(n - 1, _ => t) + rest;
      SizeOfPairs(t, n - 1, rest);
    }
  }

  lemma SwarmSize()
    ensures |SWARM_SETPOINT.fmt| == 18 && PayloadSize(SWARM_SETPOINT.fmt) == 34
  {
    var two := [Unsigned(1), Unsigned(1)];
    assert two[1..] == [Unsigned(1)] && two[1..][1..] == [];
    SizeOfPairs(Unsigned(2), 4, two);
    SizeOfPairs(Signed(2), 12, seq(4, _ => Unsigned(2)) + two);
    assert SWARM_SETPOINT.fmt == seq(12, _ => Signed(2)) + (seq(4, _ => Unsigned(2)) + two);
  }

  /**
   * With this row in the map, packing a message of that type always raises, and there is a frame, all of whose bytes
   * are in order, that makes robust parsing raise.
   */
  lemma SwarmSetpointEscapes(d: Dialect, o: Outgoing)
    requires 61 in d.schemas && d.schemas[61] == SWARM_SETPOINT && o.id == 61
    ensures !Packable(d, o) && PayloadSize(SWARM_SETPOINT.fmt) == 34
    ensures !Sound(d) && Passes(d, ZeroFrame(d, 61)) && Blows(d, ZeroFrame(d, 61))
  {
    SwarmSize();
    ZeroFramePasses(d, 61);
    assert ZeroFrame(d, 61)[..|ZeroFrame(d, 61)|] == ZeroFrame(d, 61);
  }
}
