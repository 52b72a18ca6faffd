/** The bootloader at the far end of the serial line: bytes in, bytes out. */
module BoardLine {
  import opened Octets
  import opened CrcTheory
  import opened Crc32
  import opened UploadTrace
  import opened UploadSpec
  import opened Bootloader

  const INVALID: bv8 := 0x13
  const PROTOCOL_VERSION: nat := 5

  function Status(r: Reply): seq<bv8> {
    match r
    case Ok => [INSYNC, OK]
    case Invalid => [INSYNC, INVALID]
  }

  /** A number as it is sent: four bytes, lowest first. */
  function WordOf(n: nat): Word32
    requires n < 0x1_0000_0000
  {
    Word((n % 256) as bv8, (n / 256 % 256) as bv8, (n / 65536 % 256) as bv8, (n / 16777216) as bv8)
  }

  function WordIndexed(words: seq<Word32>, k: nat): Word32 {
    if k < |words| then words[k] else Word(0, 0, 0, 0)
  }

  datatype Step = Answer(bytes: seq<bv8>, board: Board) | NotModelled

  /** A command with its end marker: what the board sends back and what becomes of it. */
  function Perform(b: Board, c: seq<bv8>): Step
    requires |c| >= 2 && |b.flash| < 0x1_0000_0000
  {
    if c[|c| - 1] != EOC then NotModelled
    else if c == [GET_SYNC, EOC] then Answer(Status(Ok), b.(synced := true))
    else if c == [CHIP_ERASE, EOC] then var (r, b') := Erase(b); Answer(Status(r), b')
    else if c == [GET_CRC, EOC] then var (w, b') := GetCrc(b); Answer(WordBytes(w) + Status(Ok), b')
    else if c == [GET_CHIP, EOC] then Answer(WordBytes(b.chip.id) + Status(Ok), b)
    else if c == [GET_CHIP_DES, EOC] then Describe(b)
    else if c == [REBOOT, EOC] then var (r, b') := Boot(b); Answer(Status(r), b')
    else if c[0] == GET_DEVICE && |c| == 3 then DeviceInfo(b, c[1])
    else if c[0] == GET_OTP && |c| == 6 then Answer(WordBytes(WordIndexed(b.chip.otp, c[1] as nat / 4)) + Status(Ok), b)
    else if c[0] == GET_SN && |c| == 6 && c[1] as nat <= 8
    then Answer(WordBytes(WordIndexed(b.chip.serial, c[1] as nat / 4)) + Status(Ok), b)
    else if c[0] == PROG_MULTI && |c| > 3 then var (r, b') := ProgMulti(b, c[2..|c| - 1]); Answer(Status(r), b')
    else NotModelled
  }

  function DeviceInfo(b: Board, param: bv8): Step
    requires |b.flash| < 0x1_0000_0000
  {
    var b' := b.(identified := true);
    if param == 1 then Answer(WordBytes(WordOf(PROTOCOL_VERSION)) + Status(Ok), b')
    else if param == 2 then Answer(WordBytes(b.chip.boardType) + Status(Ok), b')
    else if param == 3 then Answer(WordBytes(b.chip.boardRev) + Status(Ok), b')
    else if param == 4 then Answer(WordBytes(WordOf(|b.flash|)) + Status(Ok), b')
    else NotModelled
  }

  function Describe(b: Board): Step {
    if |b.chip.description| < 256
    then Answer(WordBytes(WordOf(|b.chip.description|)) + b.chip.description + Status(Ok), b)
    else NotModelled
  }

  /** How long the command that starts with `input` is; 0 if that cannot be told. */
  function CommandLength(input: seq<bv8>): nat {
    if input == [] then 0
    else if input[0] == PROG_MULTI then if |input| >= 2 then input[1] as nat + 3 else 0
    else if input[0] == GET_DEVICE then 3
    else if input[0] == GET_OTP || input[0] == GET_SN then 6
    else 2
  }

  predicate Complete(input: seq<bv8>) {
    CommandLength(input) >= 2 && |input| >= CommandLength(input)
  }

  /** The board, the bytes of a command not yet complete, and the bytes sent back and not yet read. */
  datatype Device = Device(board: Board, input: seq<bv8>, output: seq<bv8>) | Lost

  function FeedByte(d: Device, c: bv8): Device {
    if d.Lost? || |d.board.flash| >= 0x1_0000_0000 then Lost
    else
      var input := d.input + [c];
      if !Complete(input) then d.(input := input)
      else match Perform(d.board, input)
        case NotModelled => Lost
        case Answer(bytes, b') => Device(b', [], d.output + bytes)
  }

  function Feed(d: Device, bytes: seq<bv8>): Device
    decreases |bytes|
  {
    if bytes == [] then d else Feed(FeedByte(d, bytes[0]), bytes[1..])
  }

  /** The host can only read what was sent back. */
  function Take(d: Device, bytes: seq<bv8>): Device {
    if d.Device? && bytes <= d.output then d.(output := d.output[|bytes|..]) else Lost
  }

  function Meets(d: Device, e: Event): Device {
    match e
    case Sent(bytes) => Feed(d, bytes)
    case Received(bytes) => Take(d, bytes)
  }

  /** The device behind a whole trace; `Lost` if it could not have answered so. */
  function Run(d: Device, es: seq<Event>): Device
    decreases |es|
  {
    if es == [] then d else Run(Meets(d, es[0]), es[1..])
  }

  lemma {:induction false} RunConcat(d: Device, a: seq<Event>, b: seq<Event>)
    ensures Run(d, a + b) == Run(Run(d, a), b)
    decreases |a|
  {
    if a == [] {
      assert a + b == b;
    } else {
      assert (a + b)[1..] == a[1..] + b;
      RunConcat(Meets(d, a[0]), a[1..], b);
    }
  }

  lemma RunOne(d: Device, e: Event)
    ensures Run(d, [e]) == Meets(d, e)
  {
    assert [e][1..] == [];
  }

  // ----- a command in one write

  /** No proper front of the command is complete. */
  predicate OneCommand(c: seq<bv8>) {
    Complete(c) && forall k :: 0 <= k < |c| ==> !Complete(c[..k])
  }

  lemma {:induction false} FeedFront(b: Board, out: seq<bv8>, input: seq<bv8>, bytes: seq<bv8>)
    requires |b.flash| < 0x1_0000_0000
    requires forall k :: |input| < k <= |input| + |bytes| ==> !Complete((input + bytes)[..k])
    ensures Feed(Device(b, input, out), bytes) == Device(b, input + bytes, out)
    decreases |bytes|
  {
    if bytes == [] {
      assert input + bytes == input;
    } else {
      var next := input + [bytes[0]];
      assert (input + bytes)[..|input| + 1] == next;
      assert next + bytes[1..] == input + bytes;
      FeedFront(b, out, next, bytes[1..]);
    }
  }

  lemma {:induction false} FeedConcat(d: Device, a: seq<bv8>, b: seq<bv8>)
    ensures Feed(d, a + b) == Feed(Feed(d, a), b)
    decreases |a|
  {
    if a == [] {
      assert a + b == b;
    } else {
      assert (a + b)[1..] == a[1..] + b;
      FeedConcat(FeedByte(d, a[0]), a[1..], b);
    }
  }

  /** The last byte of a command makes the board answer. */
  lemma FeedLast(b: Board, out: seq<bv8>, input: seq<bv8>, c: bv8)
    requires |b.flash| < 0x1_0000_0000 && Complete(input + [c])
    requires Perform(b, input + [c]).Answer?
    ensures var a := Perform(b, input + [c]); Feed(Device(b, input, out), [c]) == Device(a.board, [], out + a.bytes)
  {
    var d := FeedByte(Device(b, input, out), c);
    assert [c][0] == c && [c][1..] == [];
    assert Feed(d, []) == d;
  }

  lemma FeedCommand(b: Board, out: seq<bv8>, c: seq<bv8>)
    requires |b.flash| < 0x1_0000_0000 && OneCommand(c) && Perform(b, c).Answer?
    ensures var a := Perform(b, c); Feed(Device(b, [], out), c) == Device(a.board, [], out + a.bytes)
  {
    var k := |c| - 1;
    var front, last := c[..k], c[k];
    assert c == front + [last];
    forall j | 0 < j <= |front|
      ensures !Complete(([] + front)[..j])
    {
      assert ([] + front)[..j] == c[..j];
    }
    FeedFront(b, out, [], front);
    assert [] + front == front;
    FeedConcat(Device(b, [], out), front, [last]);
    FeedLast(b, out, front, last);
  }

  // ----- exchanges

  /** A command that is acknowledged and nothing more. */
  lemma RunCommand(b: Board, c: seq<bv8>, b': Board)
    requires |b.flash| < 0x1_0000_0000 && OneCommand(c) && Perform(b, c) == Answer([INSYNC, OK], b')
    ensures Run(Device(b, [], []), [Sent(c)] + ACK) == Device(b', [], [])
  {
    FeedCommand(b, [], c);
    assert [] + [INSYNC, OK] == [INSYNC, OK];
    RunOne(Device(b, [], []), Sent(c));
    RunConcat(Device(b, [], []), [Sent(c)], ACK);
    RunAck(b', []);
    assert [INSYNC, OK] + [] == [INSYNC, OK];
  }

  lemma RunAck(b: Board, out: seq<bv8>)
    ensures Run(Device(b, [], [INSYNC, OK] + out), ACK) == Device(b, [], out)
  {
    var d := Device(b, [], [INSYNC, OK] + out);
    var d1 := Device(b, [], [OK] + out);
    assert ([INSYNC, OK] + out)[1..] == [OK] + out && ([OK] + out)[1..] == out;
    assert [INSYNC] <= [INSYNC, OK] + out && [OK] <= [OK] + out;
    assert Meets(d, Received([INSYNC])) == d1;
    assert ACK[1..] == [Received([OK])];
    RunOne(d1, Received([OK]));
  }

  lemma RunRead(b: Board, v: seq<bv8>, out: seq<bv8>)
    ensures Run(Device(b, [], v + out), [Received(v)]) == Device(b, [], out)
  {
    RunOne(Device(b, [], v + out), Received(v));
    assert (v + out)[|v|..] == out && v <= v + out;
  }

  /** A command answered by `v` and an acknowledgement. */
  lemma RunQuestion(b: Board, c: seq<bv8>, v: seq<bv8>, b': Board)
    requires |b.flash| < 0x1_0000_0000 && OneCommand(c) && Perform(b, c) == Answer(v + [INSYNC, OK], b')
    ensures Run(Device(b, [], []), [Sent(c)] + ([Received(v)] + ACK)) == Device(b', [], [])
  {
    FeedCommand(b, [], c);
    assert [] + (v + [INSYNC, OK]) == v + [INSYNC, OK];
    var d := Device(b, [], []);
    RunOne(d, Sent(c));
    RunConcat(d, [Sent(c)], [Received(v)] + ACK);
    RunConcat(Device(b', [], v + [INSYNC, OK]), [Received(v)], ACK);
    RunRead(b', v, [INSYNC, OK]);
    RunAck(b', []);
    assert [INSYNC, OK] + [] == [INSYNC, OK];
  }

  // ----- numbers on the line

  lemma LengthByteBack(n: nat)
    requires n < 256
    ensures LengthByte(n) as nat == n
  {
    ByteBack(n);
  }

  lemma Digits(n: nat)
    requires n < 0x1_0000_0000
    ensures n / 16777216 < 256
    ensures n == n % 256 + 256 * (n / 256 % 256 + 256 * (n / 65536 % 256 + 256 * (n / 16777216)))
  {
    var a := n / 256;
    var b := a / 256;
    assert n / 65536 == b && n / 16777216 == b / 256;
  }

  /** What the board sends as four bytes, the host reads as the same number. */
  lemma WordBack(n: nat)
    requires n < 0x1_0000_0000
    ensures LittleEndian4(WordBytes(WordOf(n))) == n
  {
    Digits(n);
    ByteBack(n % 256);
    ByteBack(n / 256 % 256);
    ByteBack(n / 65536 % 256);
    ByteBack(n / 16777216);
  }

  /** The lowest byte goes first. */
  lemma WordDigits(n: nat)
    requires n < 0x1_0000_0000
    ensures var s := WordBytes(WordOf(n));
      && s[0] as nat == n % 256 && s[1] as nat == n / 256 % 256
      && s[2] as nat == n / 65536 % 256 && s[3] as nat == n / 16777216
  {
    Digits(n);
    ByteBack(n % 256);
    ByteBack(n / 256 % 256);
    ByteBack(n / 65536 % 256);
    ByteBack(n / 16777216);
  }

  // ----- a block in four writes

  lemma LengthRead(input: seq<bv8>, n: nat)
    requires n < 256 && |input| >= 2 && input[0] == PROG_MULTI && input[1] == LengthByte(n)
    ensures Complete(input) <==> |input| >= n + 3
  {
    LengthByteBack(n);
  }

  lemma FeedBlockFront(b: Board, out: seq<bv8>, block: seq<bv8>)
    requires |b.flash| < 0x1_0000_0000 && |block| < 256
    ensures Feed(Device(b, [PROG_MULTI, LengthByte(|block|)], out), block)
         == Device(b, [PROG_MULTI, LengthByte(|block|)] + block, out)
  {
    var head := [PROG_MULTI, LengthByte(|block|)];
    forall k | |head| < k <= |head| + |block|
      ensures !Complete((head + block)[..k])
    {
      LengthRead((head + block)[..k], |block|);
    }
    FeedFront(b, out, head, block);
  }

  lemma FeedOpcode(b: Board, out: seq<bv8>)
    requires |b.flash| < 0x1_0000_0000
    ensures Feed(Device(b, [], out), [PROG_MULTI]) == Device(b, [PROG_MULTI], out)
  {
    assert [] + [PROG_MULTI] == [PROG_MULTI];
    assert ([] + [PROG_MULTI])[..1] == [PROG_MULTI];
    FeedFront(b, out, [], [PROG_MULTI]);
  }

  lemma FeedLength(b: Board, out: seq<bv8>, n: nat)
    requires |b.flash| < 0x1_0000_0000 && n < 256
    ensures Feed(Device(b, [PROG_MULTI], out), [LengthByte(n)]) == Device(b, [PROG_MULTI, LengthByte(n)], out)
  {
    var all := [PROG_MULTI] + [LengthByte(n)];
    assert all == [PROG_MULTI, LengthByte(n)] && all[..2] == all;
    LengthRead(all, n);
    FeedFront(b, out, [PROG_MULTI], [LengthByte(n)]);
  }

  lemma PerformBlock(b: Board, block: seq<bv8>)
    requires |b.flash| < 0x1_0000_0000 && 0 < |block| < 256
    ensures var c := [PROG_MULTI, LengthByte(|block|)] + block + [EOC];
      Complete(c) && Perform(b, c) == Answer(Status(ProgMulti(b, block).0), ProgMulti(b, block).1)
  {
    var c := [PROG_MULTI, LengthByte(|block|)] + block + [EOC];
    LengthRead(c, |block|);
    assert c[2..|c| - 1] == block;
    assert c[0] == PROG_MULTI && c[|c| - 1] == EOC && |c| > 3;
  }

  /** A block the board accepts is acknowledged behind whatever is still to be read. */
  lemma RunBlock(b: Board, out: seq<bv8>, block: seq<bv8>, b': Board)
    requires |b.flash| < 0x1_0000_0000 && 0 < |block| < 256 && ProgMulti(b, block) == (Ok, b')
    ensures Run(Device(b, [], out), BlockEvents(block)) == Device(b', [], out + [INSYNC, OK])
  {
    var head := [PROG_MULTI, LengthByte(|block|)];
    FeedOpcode(b, out);
    FeedLength(b, out, |block|);
    FeedBlockFront(b, out, block);
    PerformBlock(b, block);
    FeedLast(b, out, head + block, EOC);
    RunFour(Device(b, [], out), [PROG_MULTI], [LengthByte(|block|)], block, [EOC]);
  }

  lemma RunFour(d: Device, p: seq<bv8>, q: seq<bv8>, r: seq<bv8>, s: seq<bv8>)
    ensures Run(d, [Sent(p), Sent(q), Sent(r), Sent(s)]) == Feed(Feed(Feed(Feed(d, p), q), r), s)
  {
    var es := [Sent(p), Sent(q), Sent(r), Sent(s)];
    assert es == [Sent(p)] + ([Sent(q)] + ([Sent(r)] + [Sent(s)]));
    RunConcat(d, [Sent(p)], [Sent(q)] + ([Sent(r)] + [Sent(s)]));
    RunOne(d, Sent(p));
    var d1 := Feed(d, p);
    RunConcat(d1, [Sent(q)], [Sent(r)] + [Sent(s)]);
    RunOne(d1, Sent(q));
    var d2 := Feed(d1, q);
    RunConcat(d2, [Sent(r)], [Sent(s)]);
    RunOne(d2, Sent(r));
    RunOne(Feed(d2, r), Sent(s));
  }
}
