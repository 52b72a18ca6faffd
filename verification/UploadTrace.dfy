/** What passes over the serial line during an upload, and what a justified reboot looks like in it. */
module UploadTrace {
  import opened Bytes
  import opened Firmware

  datatype Event = Sent(bytes: seq<bv8>) | Received(bytes: seq<bv8>)

  const INSYNC: bv8 := 0x12
  const EOC: bv8 := 0x20
  const OK: bv8 := 0x10
  const BAD_SILICON_REV: bv8 := 0x14
  const GET_SYNC: bv8 := 0x21
  const GET_DEVICE: bv8 := 0x22
  const CHIP_ERASE: bv8 := 0x23
  const CHIP_VERIFY: bv8 := 0x24
  const PROG_MULTI: bv8 := 0x27
  const READ_MULTI: bv8 := 0x28
  const GET_CRC: bv8 := 0x29
  const GET_OTP: bv8 := 0x2a
  const GET_SN: bv8 := 0x2b
  const GET_CHIP: bv8 := 0x2c
  const SET_BOOT_DELAY: bv8 := 0x2d
  const GET_CHIP_DES: bv8 := 0x2e
  const REBOOT: bv8 := 0x30

  const ERASE_SENT: Event := Sent([CHIP_ERASE, EOC])
  const REBOOT_SENT: Event := Sent([REBOOT, EOC])
  const ACK: seq<Event> := [Received([INSYNC]), Received([OK])]
  const WINDOW_LIMIT: int := 512

  // ----- projections

  function SentBytes(es: seq<Event>): seq<bv8> {
    if es == [] then []
    else SentBytes(es[..|es| - 1]) + (if es[|es| - 1].Sent? then es[|es| - 1].bytes else [])
  }

  function ReceivedBytes(es: seq<Event>): seq<bv8> {
    if es == [] then []
    else ReceivedBytes(es[..|es| - 1]) + (if es[|es| - 1].Received? then es[|es| - 1].bytes else [])
  }

  /** How many PROG_MULTI commands were started. */
  function Programs(es: seq<Event>): nat {
    if es == [] then 0
    else Programs(es[..|es| - 1]) + (if es[|es| - 1] == Sent([PROG_MULTI]) then 1 else 0)
  }

  /** Bytes of acknowledgement due but not yet read. */
  function Outstanding(es: seq<Event>): int {
    2 * Programs(es) - |ReceivedBytes(es)|
  }

  ghost predicate WindowRespected(es: seq<Event>) {
    forall k :: 0 <= k <= |es| ==> Outstanding(es[..k]) <= WINDOW_LIMIT
  }

  predicate OnlyReceives(es: seq<Event>) {
    forall k :: 0 <= k < |es| ==> es[k].Received?
  }

  /** Neither the erase nor the reboot command was sent. */
  predicate Harmless(es: seq<Event>) {
    forall k :: 0 <= k < |es| ==> es[k] != ERASE_SENT && es[k] != REBOOT_SENT
  }

  // ----- contents of the phases

  function Pairs(n: nat): (r: seq<bv8>)
    ensures |r| == 2 * n
  {
    if n == 0 then [] else Pairs(n - 1) + [INSYNC, OK]
  }

  lemma {:induction false} PairAt(n: nat, k: nat)
    requires k < n
    ensures Pairs(n)[2 * k] == INSYNC && Pairs(n)[2 * k + 1] == OK
  {
    if k < n - 1 {
      PairAt(n - 1, k);
    }
  }

  function LengthByte(n: nat): bv8
    requires n < 256
  {
    n as bv8
  }

  predicate Programmable(groups: seq<seq<bv8>>) {
    forall i :: 0 <= i < |groups| ==> 4 <= |groups[i]| <= 252 && |groups[i]| % 4 == 0
  }

  /** The bytes that program the blocks, one PROG_MULTI command each. */
  function ProgramBytes(groups: seq<seq<bv8>>): seq<bv8>
    requires Programmable(groups)
  {
    if groups == [] then []
    else
      var block := groups[|groups| - 1];
      ProgramBytes(groups[..|groups| - 1]) + [PROG_MULTI, LengthByte(|block|)] + block + [EOC]
  }

  /** All blocks were sent and one INSYNC/OK pair was read for each; never were more than 512 bytes due. */
  ghost predicate Programmed(groups: seq<seq<bv8>>, es: seq<Event>)
    requires Programmable(groups)
  {
    && SentBytes(es) == ProgramBytes(groups)
    && ReceivedBytes(es) == Pairs(|groups|)
    && WindowRespected(es)
  }

  /** One block read back and acknowledged. */
  function BlockRead(block: seq<bv8>): seq<Event>
    requires |block| < 256
  {
    [Sent([READ_MULTI]), Sent([LengthByte(|block|)]), Sent([EOC]), Received(block)] + ACK
  }

  function ReadBack(groups: seq<seq<bv8>>): seq<Event>
    requires Programmable(groups)
  {
    if groups == [] then [] else BlockRead(groups[0]) + ReadBack(groups[1..])
  }

  /** The exchange that passes verification: read-back of every block, or an equal CRC. */
  function Verified(image: seq<bv8>, rev: nat, flashSize: int): seq<Event>
    requires |image| % 4 == 0
  {
    if rev == 2 then
      BlocksAreWords(image);
      [Sent([CHIP_VERIFY, EOC])] + ACK + ReadBack(SplitLen(image, PROG_MULTI_MAX))
    else
      var w := FirmwareCrc(image, flashSize);
      [Sent([GET_CRC, EOC]), Received([w.b0, w.b1, w.b2, w.b3])] + ACK
  }

  /** The boot delay to set before the reboot, if any. */
  datatype BootDelay = NoDelay | Delay(seconds: int)

  /** A delay is sent as one signed byte. */
  predicate Sendable(delay: BootDelay) {
    delay.Delay? ==> -128 <= delay.seconds < 128
  }

  function DelayByte(seconds: int): bv8
    requires -128 <= seconds < 128
  {
    (seconds % 256) as bv8
  }

  /** The acknowledged command that sets the delay. */
  function DelaySet(delay: BootDelay): seq<Event>
    requires Sendable(delay)
  {
    match delay
    case NoDelay => []
    case Delay(seconds) => [Sent([SET_BOOT_DELAY, DelayByte(seconds), EOC])] + ACK
  }

  datatype Phases = Phases(info: seq<Event>, polls: seq<Event>, program: seq<Event>)

  ghost predicate Explains(ph: Phases, image: seq<bv8>, rev: nat, flashSize: int, delay: BootDelay, es: seq<Event>)
    requires |image| % 4 == 0
  {
    BlocksAreWords(image);
    && Harmless(ph.info)
    && OnlyReceives(ph.polls)
    && image != []
    && Programmed(SplitLen(image, PROG_MULTI_MAX), ph.program)
    && Sendable(delay)
    && es == ph.info + [ERASE_SENT] + (ph.polls + ACK + ph.program + Verified(image, rev, flashSize) + DelaySet(delay))
  }

  /** `es`, all that passed since the upload began, entitles the host to reboot the board. */
  ghost predicate ReadyToReboot(image: seq<bv8>, rev: nat, flashSize: int, delay: BootDelay, es: seq<Event>)
    requires |image| % 4 == 0
  {
    exists ph :: Explains(ph, image, rev, flashSize, delay, es)
  }

  // ----- appending

  lemma SentSnoc(es: seq<Event>, e: Event)
    ensures SentBytes(es + [e]) == SentBytes(es) + (if e.Sent? then e.bytes else [])
    ensures ReceivedBytes(es + [e]) == ReceivedBytes(es) + (if e.Received? then e.bytes else [])
    ensures Programs(es + [e]) == Programs(es) + (if e == Sent([PROG_MULTI]) then 1 else 0)
  {
    assert (es + [e])[..|es|] == es;
  }

  lemma WindowSnoc(es: seq<Event>, e: Event)
    requires WindowRespected(es) && Outstanding(es + [e]) <= WINDOW_LIMIT
    ensures WindowRespected(es + [e])
  {
    forall k | 0 <= k <= |es| + 1
      ensures Outstanding((es + [e])[..k]) <= WINDOW_LIMIT
    {
      if k <= |es| {
        assert (es + [e])[..k] == es[..k];
      } else {
        assert (es + [e])[..k] == es + [e];
      }
    }
  }

  /** One block's command: four writes. */
  function BlockEvents(block: seq<bv8>): seq<Event>
    requires |block| < 256
  {
    [Sent([PROG_MULTI]), Sent([LengthByte(|block|)]), Sent(block), Sent([EOC])]
  }

  predicate Block(block: seq<bv8>) {
    4 <= |block| <= 252 && |block| % 4 == 0
  }

  lemma LengthIsNotCommand(block: seq<bv8>)
    requires Block(block)
    ensures LengthByte(|block|) != PROG_MULTI
  {
    assert 39 as bv8 == PROG_MULTI;
    assert |block| != 39;
  }

  lemma AppendBlock(es: seq<Event>, block: seq<bv8>)
    requires Block(block) && WindowRespected(es) && Outstanding(es) + 2 <= WINDOW_LIMIT
    ensures SentBytes(es + BlockEvents(block)) == SentBytes(es) + [PROG_MULTI, LengthByte(|block|)] + block + [EOC]
    ensures ReceivedBytes(es + BlockEvents(block)) == ReceivedBytes(es)
    ensures Outstanding(es + BlockEvents(block)) == Outstanding(es) + 2
    ensures WindowRespected(es + BlockEvents(block))
  {
    LengthIsNotCommand(block);
    var e1 := es + [Sent([PROG_MULTI])];
    var e2 := e1 + [Sent([LengthByte(|block|)])];
    var e3 := e2 + [Sent(block)];
    var e4 := e3 + [Sent([EOC])];
    SentSnoc(es, Sent([PROG_MULTI]));
    SentSnoc(e1, Sent([LengthByte(|block|)]));
    SentSnoc(e2, Sent(block));
    SentSnoc(e3, Sent([EOC]));
    WindowSnoc(es, Sent([PROG_MULTI]));
    WindowSnoc(e1, Sent([LengthByte(|block|)]));
    WindowSnoc(e2, Sent(block));
    WindowSnoc(e3, Sent([EOC]));
    assert e4 == es + BlockEvents(block);
  }

  lemma AppendReceived(es: seq<Event>, bytes: seq<bv8>)
    requires WindowRespected(es)
    ensures SentBytes(es + [Received(bytes)]) == SentBytes(es)
    ensures ReceivedBytes(es + [Received(bytes)]) == ReceivedBytes(es) + bytes
    ensures Outstanding(es + [Received(bytes)]) == Outstanding(es) - |bytes|
    ensures WindowRespected(es + [Received(bytes)])
  {
    SentSnoc(es, Received(bytes));
    assert Outstanding(es[..|es|]) <= WINDOW_LIMIT;
    assert es[..|es|] == es;
    WindowSnoc(es, Received(bytes));
  }

  lemma AppendAck(es: seq<Event>)
    requires WindowRespected(es)
    ensures SentBytes(es + ACK) == SentBytes(es)
    ensures ReceivedBytes(es + ACK) == ReceivedBytes(es) + [INSYNC, OK]
    ensures Outstanding(es + ACK) == Outstanding(es) - 2
    ensures WindowRespected(es + ACK)
  {
    AppendReceived(es, [INSYNC]);
    AppendReceived(es + [Received([INSYNC])], [OK]);
    assert es + ACK == es + [Received([INSYNC])] + [Received([OK])];
  }

  lemma {:induction false} PairsConcat(m: nat, n: nat)
    ensures Pairs(m) + Pairs(n) == Pairs(m + n)
  {
    if n == 0 {
      assert Pairs(m) + Pairs(n) == Pairs(m);
    } else {
      PairsConcat(m, n - 1);
      assert Pairs(m) + Pairs(n) == Pairs(m) + Pairs(n - 1) + [INSYNC, OK];
    }
  }

  lemma HarmlessReceives(es: seq<Event>, more: seq<Event>)
    requires Harmless(es) && OnlyReceives(more)
    ensures Harmless(es + more)
  {
  }

  // ----- progress of the programming loop

  /** After `i` blocks, `window` acknowledgement bytes are due and all others were read and checked. */
  ghost predicate Progress(groups: seq<seq<bv8>>, i: nat, window: nat, es: seq<Event>) {
    && Programmable(groups)
    && window % 2 == 0 && window / 2 <= i <= |groups|
    && Harmless(es)
    && SentBytes(es) == ProgramBytes(groups[..i])
    && ReceivedBytes(es) == Pairs(i - window / 2)
    && Outstanding(es) == window
    && WindowRespected(es)
  }

  lemma ProgressStart(groups: seq<seq<bv8>>)
    requires Programmable(groups)
    ensures Progress(groups, 0, 0, [])
  {
    assert groups[..0] == [];
    forall k | 0 <= k <= 0
      ensures Outstanding([][..k]) <= WINDOW_LIMIT
    {
      var none: seq<Event> := [];
      assert none[..k] == [];
    }
  }

  lemma ProgressSent(groups: seq<seq<bv8>>, i: nat, window: nat, es: seq<Event>)
    requires Progress(groups, i, window, es) && i < |groups| && window + 2 <= WINDOW_LIMIT
    ensures Progress(groups, i + 1, window + 2, es + BlockEvents(groups[i]))
  {
    AppendBlock(es, groups[i]);
    ProgramBytesNext(groups, i);
    assert (i + 1) - (window + 2) / 2 == i - window / 2;
  }

  lemma ProgramBytesNext(groups: seq<seq<bv8>>, i: nat)
    requires i < |groups| && Programmable(groups)
    ensures ProgramBytes(groups[..i + 1]) == ProgramBytes(groups[..i]) + [PROG_MULTI, LengthByte(|groups[i]|)] + groups[i] + [EOC]
  {
    assert groups[..i + 1][..i] == groups[..i];
    assert groups[..i + 1][i] == groups[i];
  }

  lemma ProgressAcked(groups: seq<seq<bv8>>, i: nat, window: nat, es: seq<Event>)
    requires Progress(groups, i, window, es) && window >= 2
    ensures Progress(groups, i, window - 2, es + ACK)
  {
    AppendAck(es);
    PairsConcat(i - window / 2, 1);
    assert Pairs(1) == [INSYNC, OK] by {
      assert Pairs(0) == [];
    }
    assert i - (window - 2) / 2 == i - window / 2 + 1;
  }

  lemma ProgressDrained(groups: seq<seq<bv8>>, i: nat, window: nat, es: seq<Event>)
    requires Progress(groups, i, window, es)
    ensures Progress(groups, i, 0, es + [Received(Pairs(window / 2))])
  {
    AppendReceived(es, Pairs(window / 2));
    PairsConcat(i - window / 2, window / 2);
  }

  lemma ProgressDone(groups: seq<seq<bv8>>, es: seq<Event>)
    requires Progress(groups, |groups|, 0, es)
    ensures Programmed(groups, es)
  {
    assert groups[..|groups|] == groups;
  }

  // ----- safety of a whole upload

  /** The erase command appears at most once, and only if `allowed`. */
  predicate EraseGuarded(allowed: bool, es: seq<Event>) {
    forall k :: 0 <= k < |es| && es[k] == ERASE_SENT ==> allowed && Harmless(es[..k])
  }

  /** Wherever the reboot command appears, everything before it entitles the host to send it. */
  ghost predicate RebootJustified(image: seq<bv8>, rev: nat, flashSize: int, delay: BootDelay, es: seq<Event>)
    requires |image| % 4 == 0
  {
    forall k :: 0 <= k < |es| && es[k] == REBOOT_SENT ==> ReadyToReboot(image, rev, flashSize, delay, es[..k])
  }

  lemma EraseOnce(info: seq<Event>, more: seq<Event>)
    requires Harmless(info)
    requires forall j :: 0 <= j < |more| ==> more[j] != ERASE_SENT
    ensures EraseGuarded(true, info + [ERASE_SENT] + more)
  {
    var es := info + [ERASE_SENT] + more;
    forall k | 0 <= k < |es| && es[k] == ERASE_SENT
      ensures Harmless(es[..k])
    {
      assert k <= |info|;
      assert es[..k] == info[..k];
    }
  }

  lemma RebootOnce(image: seq<bv8>, rev: nat, flashSize: int, delay: BootDelay, pre: seq<Event>, tail: seq<Event>)
    requires |image| % 4 == 0 && OnlyReceives(tail)
    requires forall j :: 0 <= j < |pre| ==> pre[j] != REBOOT_SENT
    requires ReadyToReboot(image, rev, flashSize, delay, pre)
    ensures RebootJustified(image, rev, flashSize, delay, pre + [REBOOT_SENT] + tail)
  {
    var es := pre + [REBOOT_SENT] + tail;
    forall k | 0 <= k < |es| && es[k] == REBOOT_SENT
      ensures ReadyToReboot(image, rev, flashSize, delay, es[..k])
    {
      assert k == |pre|;
      assert es[..k] == pre;
    }
  }

  lemma BehindErase(more: seq<Event>, tail: seq<Event>)
    requires Harmless(more) && OnlyReceives(tail)
    ensures forall j :: 0 <= j < |more + [REBOOT_SENT] + tail| ==> (more + [REBOOT_SENT] + tail)[j] != ERASE_SENT
  {
  }

  lemma EraseOnly(info: seq<Event>, more: seq<Event>, tail: seq<Event>)
    requires Harmless(info) && Harmless(more) && OnlyReceives(tail)
    ensures EraseGuarded(true, info + [ERASE_SENT] + more + [REBOOT_SENT] + tail)
  {
    var behind := more + [REBOOT_SENT] + tail;
    BehindErase(more, tail);
    EraseOnce(info, behind);
    ErasedFront(info + [ERASE_SENT], more, tail);
  }

  lemma ErasedFront(front: seq<Event>, more: seq<Event>, tail: seq<Event>)
    ensures front + more + [REBOOT_SENT] + tail == front + (more + [REBOOT_SENT] + tail)
  {
    Assoc(front, more, [REBOOT_SENT]);
    Assoc(front, more + [REBOOT_SENT], tail);
  }

  lemma BeforeReboot(info: seq<Event>, more: seq<Event>)
    requires Harmless(info) && Harmless(more)
    ensures forall j :: 0 <= j < |info + [ERASE_SENT] + more| ==> (info + [ERASE_SENT] + more)[j] != REBOOT_SENT
  {
  }

  /** The whole trace of an upload that got as far as the reboot command. */
  lemma SafeRebooted(image: seq<bv8>, rev: nat, flashSize: int, delay: BootDelay,
                     info: seq<Event>, more: seq<Event>, tail: seq<Event>)
    requires |image| % 4 == 0 && Harmless(info) && Harmless(more) && OnlyReceives(tail)
    requires ReadyToReboot(image, rev, flashSize, delay, info + [ERASE_SENT] + more)
    ensures EraseGuarded(true, info + [ERASE_SENT] + more + [REBOOT_SENT] + tail)
    ensures RebootJustified(image, rev, flashSize, delay, info + [ERASE_SENT] + more + [REBOOT_SENT] + tail)
  {
    EraseOnly(info, more, tail);
    BeforeReboot(info, more);
    RebootOnce(image, rev, flashSize, delay, info + [ERASE_SENT] + more, tail);
  }
}
