/** Cutting a byte stream into MAVLink 1 frames, whatever the frames mean. */
module MavlinkParser {
  import opened Bytes

  const PREFIX: byte := 254

  /** What decoding makes of a frame: a message, or the error that robust parsing turns into bad data. */
  datatype Verdict<M> = Accept(m: M) | Reject

  /** A message handed to the caller; `raw` is its `_msgbuf`. */
  datatype Item<M> = Good(raw: seq<byte>, m: M) | BadData(raw: seq<byte>)

  type Decoder<!M> = seq<byte> -> Verdict<M>

  /** Length of what `parse_char` takes off the front of `buf`; 0 if more bytes are needed. */
  function Ready(buf: seq<byte>): (n: nat)
    ensures n <= |buf|
  {
    if |buf| >= 1 && buf[0] != PREFIX then 1
    else if |buf| >= 2 && |buf| >= buf[1] as nat + 8 then buf[1] as nat + 8
    else 0
  }

  function ItemOf<M>(decode: Decoder<M>, raw: seq<byte>): Item<M>
    requires raw != []
  {
    if raw[0] != PREFIX then BadData(raw)
    else match decode(raw)
      case Accept(m) => Good(raw, m)
      case Reject => BadData(raw)
  }

  datatype Drained<M> = Drained(items: seq<Item<M>>, rest: seq<byte>)

  /** Everything `parse_buffer` returns for the buffer, and what stays in it. */
  function Drain<M>(decode: Decoder<M>, buf: seq<byte>): Drained<M>
    decreases |buf|
  {
    var n := Ready(buf);
    if n == 0 then Drained([], buf)
    else
      var d := Drain(decode, buf[n..]);
      Drained([ItemOf(decode, buf[..n])] + d.items, d.rest)
  }

  /** Feeding `chunks` one after the other. */
  function Feed<M>(decode: Decoder<M>, buf: seq<byte>, chunks: seq<seq<byte>>): Drained<M>
    decreases |chunks|
  {
    if chunks == [] then Drained([], buf)
    else
      var d := Drain(decode, buf + chunks[0]);
      var f := Feed(decode, d.rest, chunks[1..]);
      Drained(d.items + f.items, f.rest)
  }

  function Raws<M>(items: seq<Item<M>>): seq<seq<byte>> {
    seq(|items|, i requires 0 <= i < |items| => items[i].raw)
  }

  // ----- bytes are neither lost nor duplicated

  /** One turn of the drain loop. */
  lemma DrainStep<M>(decode: Decoder<M>, buf: seq<byte>, raw: seq<byte>, rest: seq<byte>)
    requires buf == raw + rest && raw != [] && Ready(buf) == |raw|
    ensures Drain(decode, buf).items == [ItemOf(decode, raw)] + Drain(decode, rest).items
    ensures Drain(decode, buf).rest == Drain(decode, rest).rest
  {
    assert buf[..|raw|] == raw && buf[|raw|..] == rest;
  }

  lemma RawsCons<M>(item: Item<M>, items: seq<Item<M>>)
    ensures Flatten(Raws([item] + items)) == item.raw + Flatten(Raws(items))
  {
    assert Raws([item] + items)[1..] == Raws(items);
  }

  /** The raw bytes of all items, in order, and the leftover are the buffer. */
  lemma {:induction false} DrainConserves<M>(decode: Decoder<M>, buf: seq<byte>)
    ensures Flatten(Raws(Drain(decode, buf).items)) + Drain(decode, buf).rest == buf
    decreases |buf|
  {
    var n := Ready(buf);
    if n > 0 {
      var raw, rest := buf[..n], buf[n..];
      assert buf == raw + rest;
      DrainStep(decode, buf, raw, rest);
      DrainConserves(decode, rest);
      var d := Drain(decode, rest);
      RawsCons(ItemOf(decode, raw), d.items);
      Assoc(raw, Flatten(Raws(d.items)), d.rest);
    }
  }

  lemma {:induction false} DrainExhausts<M>(decode: Decoder<M>, buf: seq<byte>)
    ensures Ready(Drain(decode, buf).rest) == 0
    decreases |buf|
  {
    var n := Ready(buf);
    if n > 0 {
      DrainExhausts(decode, buf[n..]);
    }
  }

  // ----- the result does not depend on how the bytes arrive

  lemma ReadyPrefix(a: seq<byte>, b: seq<byte>)
    requires Ready(a) > 0
    ensures Ready(a + b) == Ready(a)
  {
  }

  lemma {:induction false} DrainSplit<M>(decode: Decoder<M>, a: seq<byte>, b: seq<byte>)
    ensures Drain(decode, a + b).items == Drain(decode, a).items + Drain(decode, Drain(decode, a).rest + b).items
    ensures Drain(decode, a + b).rest == Drain(decode, Drain(decode, a).rest + b).rest
    decreases |a|
  {
    var n := Ready(a);
    if n > 0 {
      var raw, rest := a[..n], a[n..];
      assert a == raw + rest;
      ReadyPrefix(a, b);
      assert a + b == raw + (rest + b);
      DrainStep(decode, a, raw, rest);
      DrainStep(decode, a + b, raw, rest + b);
      DrainSplit(decode, rest, b);
    }
  }

  lemma DrainNothing<M>(decode: Decoder<M>, buf: seq<byte>)
    requires Ready(buf) == 0
    ensures Drain(decode, buf) == Drained([], buf)
  {
  }

  /** Feeding chunks gives the items and the leftover of feeding their concatenation at once. */
  lemma {:induction false} FeedIsDrain<M>(decode: Decoder<M>, buf: seq<byte>, chunks: seq<seq<byte>>)
    requires Ready(buf) == 0
    ensures Feed(decode, buf, chunks) == Drain(decode, buf + Flatten(chunks))
    decreases |chunks|
  {
    if chunks == [] {
      DrainNothing(decode, buf);
      assert buf + Flatten(chunks) == buf;
    } else {
      var now, later := buf + chunks[0], Flatten(chunks[1..]);
      DrainExhausts(decode, now);
      FeedIsDrain(decode, Drain(decode, now).rest, chunks[1..]);
      DrainSplit(decode, now, later);
      Assoc(buf, chunks[0], later);
      assert Flatten(chunks) == chunks[0] + later;
    }
  }

  /** Two ways of cutting the same bytes give the same items and the same leftover. */
  lemma ChunkingIrrelevant<M>(decode: Decoder<M>, buf: seq<byte>, chunks: seq<seq<byte>>, chunks': seq<seq<byte>>)
    requires Ready(buf) == 0 && Flatten(chunks) == Flatten(chunks')
    ensures Feed(decode, buf, chunks) == Feed(decode, buf, chunks')
  {
    FeedIsDrain(decode, buf, chunks);
    FeedIsDrain(decode, buf, chunks');
  }

  lemma OneByteReady(buf: seq<byte>, b: byte)
    requires Ready(buf) == 0
    ensures Ready(buf + [b]) == 0 || Ready(buf + [b]) == |buf| + 1
  {
    var next := buf + [b];
    if |buf| >= 1 {
      assert next[0] == buf[0];
    }
    if |buf| >= 2 {
      assert next[1] == buf[1];
    }
  }

  /** A single byte completes at most one item and then leaves nothing to drain. */
  lemma OneByteOneItem<M>(decode: Decoder<M>, buf: seq<byte>, b: byte)
    requires Ready(buf) == 0
    ensures Ready(buf + [b]) == 0 ==> Drain(decode, buf + [b]) == Drained([], buf + [b])
    ensures Ready(buf + [b]) != 0 ==> Drain(decode, buf + [b]) == Drained([ItemOf(decode, buf + [b])], [])
  {
    var next := buf + [b];
    OneByteReady(buf, b);
    if Ready(next) > 0 {
      assert next == next + [];
      DrainStep(decode, next, next, []);
      DrainNothing(decode, []);
    }
  }

  /** One `parse_char` call per byte: each returns at most one item. */
  function FeedBytes<M>(decode: Decoder<M>, buf: seq<byte>, bytes: seq<byte>): Drained<M>
    decreases |bytes|
  {
    if bytes == [] then Drained([], buf)
    else
      var next := buf + [bytes[0]];
      var n := Ready(next);
      var f := FeedBytes(decode, next[n..], bytes[1..]);
      Drained((if n == 0 then [] else [ItemOf(decode, next[..n])]) + f.items, f.rest)
  }

  /** Byte-wise `parse_char` calls give what draining everything at once gives. */
  lemma {:induction false} FeedBytesIsDrain<M>(decode: Decoder<M>, buf: seq<byte>, bytes: seq<byte>)
    requires Ready(buf) == 0
    ensures FeedBytes(decode, buf, bytes) == Drain(decode, buf + bytes)
    decreases |bytes|
  {
    if bytes == [] {
      DrainNothing(decode, buf);
      assert buf + bytes == buf;
    } else {
      var b, later := bytes[0], bytes[1..];
      var next := buf + [b];
      var n := Ready(next);
      OneByteReady(buf, b);
      OneByteOneItem(decode, buf, b);
      assert next[..n] + next[n..] == next;
      assert n > 0 ==> next[..n] == next && next[n..] == [];
      FeedBytesIsDrain(decode, next[n..], later);
      DrainSplit(decode, next, later);
      Assoc(buf, [b], later);
      assert bytes == [b] + later;
    }
  }

  /** Over any run, the raw bytes of everything returned and the leftover are all the bytes received. */
  lemma FeedConserves<M>(decode: Decoder<M>, chunks: seq<seq<byte>>)
    ensures Flatten(Raws(Feed(decode, [], chunks).items)) + Feed(decode, [], chunks).rest == Flatten(chunks)
  {
    FeedIsDrain(decode, [], chunks);
    DrainConserves(decode, [] + Flatten(chunks));
    assert [] + Flatten(chunks) == Flatten(chunks);
  }

  // ----- complete frames

  /** A well-formed frame in front of the buffer is what comes off it first. */
  lemma FrameInFront<M>(decode: Decoder<M>, frame: seq<byte>, rest: seq<byte>)
    requires |frame| >= 8 && frame[0] == PREFIX && frame[1] as nat + 8 == |frame|
    ensures Drain(decode, frame + rest).items == [ItemOf(decode, frame)] + Drain(decode, rest).items
    ensures Drain(decode, frame + rest).rest == Drain(decode, rest).rest
  {
    var buf := frame + rest;
    assert buf[0] == frame[0] && buf[1] == frame[1];
    DrainStep(decode, buf, frame, rest);
  }
}
