/** Which answers of the device make each step of an upload succeed, read by read. */
module UploadAnswers {
  import opened Octets
  import opened Bytes
  import opened Crc32
  import opened Firmware
  import opened UploadTrace
  import opened UploadSpec
  import opened UploadSafety

  /** What is left behind `n` reads of what is left behind `m`. */
  lemma FromLater(left: Reads, replies: Reads, m: nat, n: nat, sum: nat)
    requires left == From(From(replies, m), n) && sum == m + n
    ensures left == From(replies, sum)
  {
  }

  lemma FromFrom(replies: Reads, m: nat, n: nat)
    ensures From(From(replies, m), n) == From(replies, m + n)
  {
  }

  // ----- erase

  /** The first `k` polls neither succeed nor report bad silicon. */
  predicate StillBusy(replies: Reads, k: nat)
    decreases k
  {
    k > 0 ==> !SyncNext(replies) && !BadSilicon(replies) && StillBusy(Sync(replies).rest, k - 1)
  }

  /** The reads that `k` such polls leave. */
  function AfterPolls(replies: Reads, k: nat): Reads
    decreases k
  {
    if k == 0 then replies else AfterPolls(Sync(replies).rest, k - 1)
  }

  predicate AnsweredAt(replies: Reads, k: nat) {
    StillBusy(replies, k) && SyncNext(AfterPolls(replies, k))
  }

  /** The erase succeeds if and only if one of the polls before the deadline is acknowledged and none before it fails. */
  lemma {:induction false} EraseExactly(replies: Reads, tries: nat)
    ensures Polls(replies, tries).ok <==> exists k: nat :: k < tries && AnsweredAt(replies, k)
    decreases tries
  {
    SyncExactly(replies);
    if tries > 0 {
      if SyncNext(replies) {
        assert AnsweredAt(replies, 0);
      } else if !BadSilicon(replies) {
        EraseLater(replies, tries);
      }
    }
  }

  lemma {:induction false} EraseLater(replies: Reads, tries: nat)
    requires tries > 0 && !SyncNext(replies) && !BadSilicon(replies)
    ensures Polls(replies, tries).ok <==> exists k: nat :: k < tries && AnsweredAt(replies, k)
    decreases tries, 0
  {
    var later := Sync(replies).rest;
    EraseExactly(later, tries - 1);
    if Polls(replies, tries).ok {
      var k: nat :| k < tries - 1 && AnsweredAt(later, k);
      assert AnsweredAt(replies, k + 1);
    }
    if exists k: nat :: k < tries && AnsweredAt(replies, k) {
      var k: nat :| k < tries && AnsweredAt(replies, k);
      assert AnsweredAt(later, k - 1);
    }
  }

  /** An erase acknowledged at poll `k` takes the reads of the polls before and the acknowledgement. */
  lemma {:induction false} EraseReads(replies: Reads, tries: nat, k: nat)
    requires k < tries && AnsweredAt(replies, k)
    ensures Polls(replies, tries).ok && Polls(replies, tries).rest == From(AfterPolls(replies, k), 2)
    decreases k
  {
    SyncExactly(replies);
    if k > 0 {
      assert AnsweredAt(Sync(replies).rest, k - 1);
      EraseReads(Sync(replies).rest, tries - 1, k - 1);
    }
  }

  /** Polls that time out leave everything else to be read. */
  lemma {:induction false} SilentPolls(replies: Reads, k: nat)
    requires k <= |replies| && forall j :: 0 <= j < k ==> replies[j] == []
    ensures StillBusy(replies, k) && AfterPolls(replies, k) == replies[k..]
    decreases k
  {
    if k > 0 {
      assert Sync(replies).rest == replies[1..];
      SilentPolls(replies[1..], k - 1);
    }
  }

  // ----- program

  /** Reads `2 * j` and the next deliver the acknowledgement of block `j`. */
  predicate AckAt(j: nat, replies: Reads) {
    SyncNext(From(replies, 2 * j))
  }

  predicate AllAcked(n: nat, replies: Reads) {
    forall j: nat :: j < n ==> AckAt(j, replies)
  }

  /** The next block of a loop that succeeds pair by pair. */
  lemma AckedStep(groups: seq<seq<bv8>>, i: nat, replies: Reads)
    requires i < |groups| && Programmable(groups) && Programming(false, groups, i, replies).ok
    ensures Programming(false, groups, i + 1, From(replies, 2)).ok
    ensures Programming(false, groups, i, replies).rest == Programming(false, groups, i + 1, From(replies, 2)).rest
  {
    SyncExactly(replies);
  }

  lemma {:induction false} AckedReads(groups: seq<seq<bv8>>, i: nat, replies: Reads)
    requires i <= |groups| && Programmable(groups) && Programming(false, groups, i, replies).ok
    ensures Programming(false, groups, i, replies).rest == From(replies, 2 * (|groups| - i))
    decreases |groups| - i
  {
    if i == |groups| {
      assert From(replies, 0) == replies;
    } else {
      var left, n := Programming(false, groups, i, replies).rest, 2 * (|groups| - (i + 1));
      assert left == From(From(replies, 2), n) by {
        AckedStep(groups, i, replies);
        AckedReads(groups, i + 1, From(replies, 2));
      }
      FromLater(left, replies, 2, n, 2 * (|groups| - i));
    }
  }

  lemma {:induction false} AckedExactly(groups: seq<seq<bv8>>, i: nat, replies: Reads)
    requires i <= |groups| && Programmable(groups)
    ensures Programming(false, groups, i, replies).ok <==> AllAcked(|groups| - i, replies)
    decreases |groups| - i
  {
    if i < |groups| {
      SyncExactly(replies);
      assert AckAt(0, replies) <==> SyncNext(replies);
      if SyncNext(replies) {
        AckedExactly(groups, i + 1, replies[2..]);
        AckedShift(|groups| - i, replies);
      }
    }
  }

  lemma AckedShift(n: nat, replies: Reads)
    requires n > 0 && SyncNext(replies)
    ensures AllAcked(n, replies) <==> AllAcked(n - 1, replies[2..])
  {
    forall j: nat
      ensures AckAt(j, replies[2..]) <==> AckAt(j + 1, replies)
    {
      assert From(replies[2..], 2 * j) == From(replies, 2 * (j + 1));
    }
    if AllAcked(n - 1, replies[2..]) {
      forall j: nat | j < n
        ensures AckAt(j, replies)
      {
        assert j > 0 ==> AckAt(j - 1, replies[2..]);
      }
    }
    if AllAcked(n, replies) {
      forall j: nat | j < n - 1
        ensures AckAt(j, replies[2..])
      {
        assert AckAt(j + 1, replies);
      }
    }
  }

  /** Successive reads deliver the pairs of `n` blocks in windows of `w`, the last one possibly smaller. */
  predicate AllWindows(w: nat, n: nat, replies: Reads)
    requires w > 0
    decreases n
  {
    var k := if n < w then n else w;
    n > 0 ==> Got(replies, 2 * k) == Pairs(k) && AllWindows(w, n - k, From(replies, 1))
  }

  /** How many windows that are: one for each `w` blocks begun. */
  function WindowCount(w: nat, n: nat): nat
    requires w > 0
    decreases n
  {
    if n == 0 then 0 else 1 + WindowCount(w, n - (if n < w then n else w))
  }

  /** The loop, as far as it decides success: `left` blocks to go, `c` in the current window. */
  predicate WindowsFrom(w: nat, left: nat, c: nat, replies: Reads)
    decreases left
  {
    if left == 0 then c != 0 ==> Window(c, replies).ok
    else if c + 1 == w then Window(c + 1, replies).ok && WindowsFrom(w, left - 1, 0, From(replies, 1))
    else WindowsFrom(w, left - 1, c + 1, replies)
  }

  lemma {:induction false} WindowsExactly(w: nat, left: nat, c: nat, replies: Reads)
    requires c < w
    ensures WindowsFrom(w, left, c, replies) <==> AllWindows(w, left + c, replies)
    decreases left
  {
    if left > 0 {
      if c + 1 == w {
        WindowsExactly(w, left - 1, 0, From(replies, 1));
      } else {
        WindowsExactly(w, left - 1, c + 1, replies);
      }
    }
  }

  /** The reads that the loop takes, `left` blocks to go and `c` in the current window. */
  function WindowReads(w: nat, left: nat, c: nat): nat
    decreases left
  {
    if left == 0 then (if c != 0 then 1 else 0)
    else if c + 1 == w then 1 + WindowReads(w, left - 1, 0)
    else WindowReads(w, left - 1, c + 1)
  }

  lemma {:induction false} WindowReadsCount(w: nat, left: nat, c: nat)
    requires c < w
    ensures WindowReads(w, left, c) == WindowCount(w, left + c)
    decreases left
  {
    if left > 0 {
      if c + 1 == w {
        WindowReadsCount(w, left - 1, 0);
      } else {
        WindowReadsCount(w, left - 1, c + 1);
      }
    }
  }

  lemma {:induction false} WindowedReads(groups: seq<seq<bv8>>, i: nat, replies: Reads)
    requires i <= |groups| && Programmable(groups)
    ensures Programming(true, groups, i, replies).ok ==>
      Programming(true, groups, i, replies).rest == From(replies, WindowReads(256, |groups| - i, i % 256))
    decreases |groups| - i
  {
    if i < |groups| {
      var a := Sending(groups[i], Acked(true, i, replies));
      NextInWindow(i);
      WindowedReads(groups, i + 1, a.rest);
      if (i + 1) % 256 == 0 {
        var n := WindowReads(256, |groups| - (i + 1), 0);
        assert From(From(replies, 1), n) == From(replies, 1 + n);
      }
    } else {
      assert From(replies, 0) == replies;
    }
  }

  lemma NextInWindow(i: nat)
    ensures (i + 1) % 256 == 0 <==> i % 256 + 1 == 256
    ensures (i + 1) % 256 != 0 ==> (i + 1) % 256 == i % 256 + 1
  {
  }

  lemma {:induction false} WindowedIsWindows(groups: seq<seq<bv8>>, i: nat, replies: Reads)
    requires i <= |groups| && Programmable(groups)
    ensures Programming(true, groups, i, replies).ok <==> WindowsFrom(256, |groups| - i, i % 256, replies)
    decreases |groups| - i
  {
    if i < |groups| {
      var a := Sending(groups[i], Acked(true, i, replies));
      NextInWindow(i);
      WindowedIsWindows(groups, i + 1, a.rest);
    }
  }

  /** The acknowledgements of `n` blocks: pair by pair, or window by window. */
  predicate BlocksAnswered(windowed: bool, n: nat, replies: Reads) {
    if windowed then AllWindows(256, n, replies) else AllAcked(n, replies)
  }

  function BlockReads(windowed: bool, n: nat): nat {
    if windowed then WindowCount(256, n) else 2 * n
  }

  lemma LoopExactly(windowed: bool, groups: seq<seq<bv8>>, replies: Reads)
    requires Programmable(groups)
    ensures Programming(windowed, groups, 0, replies).ok <==> BlocksAnswered(windowed, |groups|, replies)
    ensures Programming(windowed, groups, 0, replies).ok ==>
      Programming(windowed, groups, 0, replies).rest == From(replies, BlockReads(windowed, |groups|))
  {
    if windowed {
      WindowedIsWindows(groups, 0, replies);
      WindowsExactly(256, |groups|, 0, replies);
      WindowedReads(groups, 0, replies);
      WindowReadsCount(256, |groups|, 0);
    } else {
      AckedExactly(groups, 0, replies);
      if AllAcked(|groups|, replies) {
        AckedReads(groups, 0, replies);
      }
    }
  }

  /** Both modes: exactly the acknowledgements of all blocks, and no read beyond them. */
  lemma ProgramExactly(image: seq<bv8>, windowed: bool, replies: Reads)
    requires |image| % 4 == 0
    ensures var n, o := |SplitLen(image, PROG_MULTI_MAX)|, ProgrammingImage(windowed, image, replies);
      && (o.ok <==> image != [] && BlocksAnswered(windowed, n, replies))
      && (o.ok ==> o.rest == From(replies, BlockReads(windowed, n)))
  {
    BlocksAreWords(image);
    if image != [] {
      LoopExactly(windowed, SplitLen(image, PROG_MULTI_MAX), replies);
    }
  }

  // ----- verify

  /** The read for block `j` delivers the block, and it is acknowledged. */
  predicate ReadAt(groups: seq<seq<bv8>>, j: nat, replies: Reads)
    requires j < |groups|
  {
    Got(From(replies, 3 * j), |groups[j]|) == groups[j] && SyncNext(From(replies, 3 * j + 1))
  }

  lemma {:induction false} ReadBackExactly(groups: seq<seq<bv8>>, replies: Reads)
    requires Programmable(groups)
    ensures ReadingBack(groups, replies).ok <==> AllRead(groups, replies)
    decreases |groups|
  {
    if groups != [] {
      ReadOneExactly(groups[0], replies);
      ReadFirst(groups, replies);
      if ReadingOne(groups[0], replies).ok {
        ReadBackExactly(groups[1..], From(replies, 3));
        ReadShift(groups, replies);
      }
    }
  }

  /** The first block of a read-back that succeeds. */
  lemma ReadBackStep(groups: seq<seq<bv8>>, replies: Reads)
    requires Programmable(groups) && groups != [] && ReadingBack(groups, replies).ok
    ensures Programmable(groups[1..]) && ReadingBack(groups[1..], From(replies, 3)).ok
    ensures ReadingBack(groups, replies).rest == ReadingBack(groups[1..], From(replies, 3)).rest
  {
    ReadOneExactly(groups[0], replies);
  }

  lemma {:induction false} ReadBackReads(groups: seq<seq<bv8>>, replies: Reads)
    requires Programmable(groups) && ReadingBack(groups, replies).ok
    ensures ReadingBack(groups, replies).rest == From(replies, 3 * |groups|)
    decreases |groups|
  {
    if groups == [] {
      assert From(replies, 0) == replies;
    } else {
      var rest := groups[1..];
      ReadBackStep(groups, replies);
      ReadBackReads(rest, From(replies, 3));
      FromLater(ReadingBack(groups, replies).rest, replies, 3, 3 * |rest|, 3 * |groups|);
    }
  }

  lemma ReadFirst(groups: seq<seq<bv8>>, replies: Reads)
    requires groups != []
    ensures ReadAt(groups, 0, replies) <==> Got(replies, |groups[0]|) == groups[0] && SyncNext(From(replies, 1))
    ensures AllRead(groups, replies) ==> ReadAt(groups, 0, replies)
  {
    assert From(replies, 0) == replies;
  }

  lemma ReadOneExactly(block: seq<bv8>, replies: Reads)
    requires Block(block)
    ensures var a := ReadingOne(block, replies);
      && (a.ok <==> Got(replies, |block|) == block && SyncNext(From(replies, 1)))
      && (a.ok ==> a.rest == From(replies, 3))
  {
    SyncExactly(From(replies, 1));
  }

  lemma ReadShift(groups: seq<seq<bv8>>, replies: Reads)
    requires groups != [] && ReadAt(groups, 0, replies)
    ensures AllRead(groups, replies) <==> AllRead(groups[1..], From(replies, 3))
  {
    var rest, later := groups[1..], From(replies, 3);
    forall j: nat | j < |rest|
      ensures ReadAt(rest, j, later) <==> ReadAt(groups, j + 1, replies)
    {
      assert From(later, 3 * j) == From(replies, 3 * (j + 1));
      assert From(later, 3 * j + 1) == From(replies, 3 * (j + 1) + 1);
    }
    if AllRead(rest, later) {
      forall j: nat | j < |groups|
        ensures ReadAt(groups, j, replies)
      {
        assert j > 0 ==> ReadAt(rest, j - 1, later);
      }
    }
    if AllRead(groups, replies) {
      forall j: nat | j < |rest|
        ensures ReadAt(rest, j, later)
      {
        assert ReadAt(groups, j + 1, replies);
      }
    }
  }

  /** A CRC check passes exactly if the next read is the word and is acknowledged. */
  lemma CrcExactly(w: Word32, replies: Reads)
    ensures CrcChecked(w, replies).ok <==> Got(replies, 4) == WordBytes(w) && SyncNext(From(replies, 1))
    ensures CrcChecked(w, replies).ok ==> CrcChecked(w, replies).rest == From(replies, 3)
  {
    SyncExactly(From(replies, 1));
  }

  predicate AllRead(groups: seq<seq<bv8>>, replies: Reads) {
    forall j: nat :: j < |groups| ==> ReadAt(groups, j, replies)
  }

  /** A comparison passes exactly if the command and every equal block read back are acknowledged. */
  lemma CompareExactly(groups: seq<seq<bv8>>, replies: Reads)
    requires Programmable(groups)
    ensures Comparing(groups, replies).ok <==> SyncNext(replies) && AllRead(groups, From(replies, 2))
  {
    SyncExactly(replies);
    ReadBackExactly(groups, From(replies, 2));
  }

  lemma CompareReads(groups: seq<seq<bv8>>, replies: Reads)
    requires Programmable(groups) && Comparing(groups, replies).ok
    ensures Comparing(groups, replies).rest == From(replies, 2 + 3 * |groups|)
  {
    var later := From(replies, 2);
    assert ReadingBack(groups, later).ok && Comparing(groups, replies).rest == ReadingBack(groups, later).rest by {
      SyncExactly(replies);
    }
    ReadBackReads(groups, later);
    FromFrom(replies, 2, 3 * |groups|);
  }

  /** Revision 2: the command and every equal block, acknowledged. From 3 on: the CRC of the image, acknowledged. */
  predicate VerifyAnswered(s: Session, image: seq<bv8>, replies: Reads) {
    if s.blRev == 2 then SyncNext(replies) && AllRead(SplitLen(image, PROG_MULTI_MAX), From(replies, 2))
    else Got(replies, 4) == WordBytes(FirmwareCrc(image, s.fwMaxsize)) && SyncNext(From(replies, 1))
  }

  function VerifyReads(s: Session, image: seq<bv8>): nat {
    if s.blRev == 2 then 2 + 3 * |SplitLen(image, PROG_MULTI_MAX)| else 3
  }

  lemma VerifyExactly(s: Session, image: seq<bv8>, replies: Reads)
    requires |image| % 4 == 0
    ensures Verifying(s, image, replies).ok <==> VerifyAnswered(s, image, replies)
    ensures Verifying(s, image, replies).ok ==> Verifying(s, image, replies).rest == From(replies, VerifyReads(s, image))
  {
    BlocksAreWords(image);
    VerifyByRevision(s, image, SplitLen(image, PROG_MULTI_MAX), FirmwareCrc(image, s.fwMaxsize), replies);
  }

  lemma VerifyByRevision(s: Session, image: seq<bv8>, groups: seq<seq<bv8>>, w: Word32, replies: Reads)
    requires |image| % 4 == 0 && Programmable(groups)
    requires groups == SplitLen(image, PROG_MULTI_MAX) && w == FirmwareCrc(image, s.fwMaxsize)
    ensures Verifying(s, image, replies).ok <==> VerifyAnswered(s, image, replies)
    ensures Verifying(s, image, replies).ok ==> Verifying(s, image, replies).rest == From(replies, VerifyReads(s, image))
  {
    if s.blRev != 2 {
      CrcExactly(w, replies);
    } else {
      CompareExactly(groups, replies);
      if Comparing(groups, replies).ok {
        CompareReads(groups, replies);
      }
    }
  }

  // ----- questions

  /** Read `k` and the two behind it answer a question; where the host unpacks the answer it has four bytes. */
  predicate AnswerAt(unpacked: bool, replies: Reads, k: nat) {
    && Got(From(replies, k), 4) != []
    && (unpacked ==> |Got(From(replies, k), 4)| == 4)
    && SyncNext(From(replies, k + 1))
  }

  /** How many reads a question takes, answered or not. */
  function ReadsOf(unpacked: bool, replies: Reads): nat {
    var c := Got(replies, 4);
    if c == [] || (unpacked && |c| != 4) then 1
    else if Got(From(replies, 1), 1) != [INSYNC] then 2
    else 3
  }

  lemma AskExactly(q: Question, replies: Reads)
    ensures Ask(q, replies).ok <==> AnswerAt(q.unpacked, replies, 0)
    ensures Ask(q, replies).rest == From(replies, ReadsOf(q.unpacked, replies))
    ensures Ask(q, replies).ok ==> ReadsOf(q.unpacked, replies) == 3
  {
    var later := From(replies, 1);
    assert From(replies, 0) == replies;
    assert From(later, 1) == From(replies, 2) && From(From(later, 1), 1) == From(replies, 3);
    SyncExactly(later);
  }

  lemma AnswerShift(unpacked: bool, replies: Reads, m: nat, k: nat)
    ensures AnswerAt(unpacked, From(replies, m), k) <==> AnswerAt(unpacked, replies, m + k)
  {
    assert From(From(replies, m), k) == From(replies, m + k);
    assert From(From(replies, m), k + 1) == From(replies, m + k + 1);
  }

  /** Answer `j` of a row of answers. */
  predicate AnswerOf(unpacked: bool, j: nat, replies: Reads) {
    AnswerAt(unpacked, replies, 3 * j)
  }

  predicate AllAnswers(unpacked: bool, n: nat, replies: Reads) {
    forall j: nat :: j < n ==> AnswerOf(unpacked, j, replies)
  }

  lemma AnswersShift(unpacked: bool, n: nat, replies: Reads)
    requires n > 0
    ensures AllAnswers(unpacked, n, replies) <==>
      AnswerAt(unpacked, replies, 0) && AllAnswers(unpacked, n - 1, From(replies, 3))
  {
    var later := From(replies, 3);
    assert AnswerOf(unpacked, 0, replies) <==> AnswerAt(unpacked, replies, 0);
    forall j: nat
      ensures AnswerOf(unpacked, j, later) <==> AnswerOf(unpacked, j + 1, replies)
    {
      AnswerShift(unpacked, replies, 3, 3 * j);
    }
    if AllAnswers(unpacked, n, replies) {
      forall j: nat | j < n - 1
        ensures AnswerOf(unpacked, j, later)
      {
        assert AnswerOf(unpacked, j + 1, replies);
      }
    }
    if AnswerAt(unpacked, replies, 0) && AllAnswers(unpacked, n - 1, later) {
      forall j: nat | j < n
        ensures AnswerOf(unpacked, j, replies)
      {
        assert j > 0 ==> AnswerOf(unpacked, j - 1, later);
      }
    }
  }

  /** Questions that all have their answers unpacked, or none. */
  predicate Alike(unpacked: bool, qs: seq<Question>) {
    forall k: nat :: k < |qs| ==> qs[k].unpacked == unpacked
  }

  lemma AlikeParts(unpacked: bool, qs: seq<Question>)
    requires Alike(unpacked, qs) && qs != []
    ensures qs[0].unpacked == unpacked && Alike(unpacked, qs[1..])
  {
  }

  lemma {:induction false} AnswersExactly(unpacked: bool, qs: seq<Question>, replies: Reads)
    requires Alike(unpacked, qs)
    ensures AskAll(qs, replies).ok <==> AllAnswers(unpacked, |qs|, replies)
    decreases |qs|
  {
    if qs != [] {
      AlikeParts(unpacked, qs);
      AskExactly(qs[0], replies);
      AnswersShift(unpacked, |qs|, replies);
      AnswersExactly(unpacked, qs[1..], From(replies, 3));
    }
  }

  /** A row of questions that is answered takes three reads a question. */
  lemma {:induction false} AnswersReads(qs: seq<Question>, replies: Reads)
    requires AskAll(qs, replies).ok
    ensures AskAll(qs, replies).rest == From(replies, 3 * |qs|)
    decreases |qs|
  {
    if qs != [] {
      AskExactly(qs[0], replies);
      AnswersReads(qs[1..], From(replies, 3));
      FromFrom(replies, 3, 3 * |qs[1..]|);
    } else {
      assert From(replies, 0) == replies;
    }
  }

  /** How many reads a row of questions takes, up to the first that is not answered. */
  function ReadsOfAll(unpacked: seq<bool>, replies: Reads): nat
    decreases |unpacked|
  {
    if unpacked == [] then 0
    else if AnswerAt(unpacked[0], replies, 0) then 3 + ReadsOfAll(unpacked[1..], From(replies, 3))
    else ReadsOf(unpacked[0], replies)
  }

  /** Which answers of a row of questions are unpacked. */
  predicate Unpacks(unpacked: seq<bool>, qs: seq<Question>) {
    |qs| == |unpacked| && forall k: nat :: k < |qs| ==> qs[k].unpacked == unpacked[k]
  }

  lemma UnpacksParts(unpacked: seq<bool>, qs: seq<Question>)
    requires Unpacks(unpacked, qs) && qs != []
    ensures qs[0].unpacked == unpacked[0] && Unpacks(unpacked[1..], qs[1..])
  {
  }

  lemma {:induction false} AskAllReads(unpacked: seq<bool>, qs: seq<Question>, replies: Reads)
    requires Unpacks(unpacked, qs)
    ensures AskAll(qs, replies).rest == From(replies, ReadsOfAll(unpacked, replies))
    decreases |qs|
  {
    if qs == [] {
      assert From(replies, 0) == replies;
    } else {
      UnpacksParts(unpacked, qs);
      AskExactly(qs[0], replies);
      if AnswerAt(unpacked[0], replies, 0) {
        AskAllReads(unpacked[1..], qs[1..], From(replies, 3));
        FromFrom(replies, 3, ReadsOfAll(unpacked[1..], From(replies, 3)));
      }
    }
  }

  // ----- identification

  lemma IntroducedExactly(replies: Reads)
    ensures Introduced(replies).ok <==>
      && AnswerAt(true, replies, 0) && 2 <= LittleEndian4(Got(replies, 4)) <= 5
      && AllAnswers(true, 3, From(replies, 3))
  {
    AskExactly(InfoQuestion(1), replies);
    AnswersExactly(true, [InfoQuestion(2), InfoQuestion(3), InfoQuestion(4)], From(replies, 3));
  }

  /** Identification succeeds if and only if all is answered and the revision is one from 2 to 5. */
  lemma IdentifyExactly(replies: Reads)
    ensures Identified(replies).ok <==>
      && SyncNext(replies)
      && AnswerAt(true, replies, 2) && 2 <= LittleEndian4(Got(From(replies, 2), 4)) <= 5
      && AllAnswers(true, 3, From(replies, 5))
  {
    SyncExactly(replies);
    IntroducedExactly(From(replies, 2));
    AnswerShift(true, replies, 2, 0);
    FromFrom(replies, 2, 3);
  }

  // ----- the checks

  /** A length, a description, and an acknowledgement. */
  predicate DescriptionAnswered(replies: Reads) {
    |Got(replies, 4)| == 4 && Description(replies) != [] && SyncNext(From(replies, 2))
  }

  lemma DescribedExactly(replies: Reads)
    ensures Described(replies).ok <==> DescriptionAnswered(replies)
    ensures Described(replies).ok ==> Described(replies).rest == From(replies, 4)
  {
    var later := From(replies, 1);
    assert From(later, 1) == From(replies, 2) && From(From(replies, 2), 2) == From(replies, 4);
    SyncExactly(From(replies, 2));
  }

  /** Of serial number and chip, only the answer about the chip is unpacked. */
  const SERIAL_UNPACKS: seq<bool> := [false, false, false, true]

  /** 48 memory words of three reads each, and what the ignorable questions take. */
  function InfoReads(s: Session, replies: Reads): nat {
    if s.blRev < 4 then 0 else 144 + ReadsOfAll(SERIAL_UNPACKS, From(replies, 144))
  }

  lemma WordsExactly(replies: Reads)
    ensures AskAll(OtpQuestions(), replies).ok <==> AllAnswers(false, 48, replies)
    ensures AskAll(OtpQuestions(), replies).ok ==> AskAll(OtpQuestions(), replies).rest == From(replies, 144)
  {
    var words := OtpQuestions();
    assert Alike(false, words);
    AnswersExactly(false, words, replies);
    if AskAll(words, replies).ok {
      AnswersReads(words, replies);
    }
  }

  lemma SerialReads(replies: Reads)
    ensures AskAll(SerialQuestions(), replies).rest == From(replies, ReadsOfAll(SERIAL_UNPACKS, replies))
  {
    assert Unpacks(SERIAL_UNPACKS, SerialQuestions());
    AskAllReads(SERIAL_UNPACKS, SerialQuestions(), replies);
  }

  lemma InformedExactly(s: Session, replies: Reads)
    ensures Informed(s, replies).ok <==> (s.blRev >= 4 ==> AllAnswers(false, 48, replies))
    ensures Informed(s, replies).ok ==> Informed(s, replies).rest == From(replies, InfoReads(s, replies))
  {
    if s.blRev >= 4 {
      var words := From(replies, 144);
      WordsExactly(replies);
      SerialReads(words);
      FromFrom(replies, 144, ReadsOfAll(SERIAL_UNPACKS, words));
    } else {
      assert From(replies, 0) == replies;
    }
  }

  /** Exactly one comma, so that there are two pieces. */
  ghost predicate OneComma(des: seq<bv8>) {
    exists a, b :: SplitAtComma(des, a, b)
  }

  predicate SplitAtComma(des: seq<bv8>, a: seq<bv8>, b: seq<bv8>) {
    des == a + [0x2c] + b && 0x2c !in a && 0x2c !in b
  }

  lemma {:induction false} CountNone(s: seq<bv8>, x: bv8)
    ensures CountByte(s, x) == 0 <==> x !in s
    decreases |s|
  {
    if s != [] {
      assert s == [s[0]] + s[1..];
      CountNone(s[1..], x);
    }
  }

  lemma {:induction false} CountConcat(a: seq<bv8>, b: seq<bv8>, x: bv8)
    ensures CountByte(a + b, x) == CountByte(a, x) + CountByte(b, x)
    decreases |a|
  {
    if a == [] {
      assert a + b == b;
    } else {
      ConcatParts(a, b);
      CountConcat(a[1..], b, x);
    }
  }

  lemma {:induction false} CommaSplits(des: seq<bv8>) returns (a: seq<bv8>, b: seq<bv8>)
    requires CountByte(des, 0x2c) == 1
    ensures SplitAtComma(des, a, b)
    decreases |des|
  {
    var rest := des[1..];
    assert des == [des[0]] + rest;
    if des[0] == 0x2c {
      CountNone(rest, 0x2c);
      a, b := [], rest;
      assert des == a + [0x2c] + b;
    } else {
      a, b := CommaSplits(rest);
      assert des == [des[0]] + a + [0x2c] + b;
      a := [des[0]] + a;
    }
  }

  lemma TwoPiecesExactly(des: seq<bv8>)
    ensures TwoPieces(des) <==> OneComma(des)
  {
    if TwoPieces(des) {
      var a, b := CommaSplits(des);
    }
    if OneComma(des) {
      var a, b :| SplitAtComma(des, a, b);
      CountNone(a, 0x2c);
      CountNone(b, 0x2c);
      CountConcat(a + [0x2c], b, 0x2c);
      CountConcat(a, [0x2c], 0x2c);
      assert [0x2c as bv8][1..] == [];
    }
  }

  /** Without force, a board that describes itself in two pieces and has more flash than the package is made for. */
  ghost predicate RefusesBoard(s: Session, pkg: Package, force: bool, des: seq<bv8>) {
    OneComma(des) && s.fwMaxsize > pkg.imageMaxsize && !force
  }

  /**
   * What is decided without asking: the package is for the board, or forced; it fits; and before revision 5 a package
   * for board type 9 of more than 1032192 bytes has to be forced.
   */
  predicate Suitable(s: Session, pkg: Package, force: bool) {
    && (s.boardType == pkg.boardId || force)
    && pkg.imageSize <= s.fwMaxsize
    && !(s.blRev <= 4 && pkg.boardId == 9 && pkg.imageSize > 1032192 && !force)
  }

  /** Every memory word is answered from revision 4 on, and an acceptable description from revision 5 on. */
  ghost predicate ChecksAnswered(s: Session, pkg: Package, force: bool, replies: Reads) {
    && (s.blRev >= 4 ==> AllAnswers(false, 48, replies))
    && (s.blRev >= 5 ==>
          var later := From(replies, InfoReads(s, replies));
          DescriptionAnswered(later) && !RefusesBoard(s, pkg, force, Description(later)))
  }

  function CheckReads(s: Session, replies: Reads): nat {
    InfoReads(s, replies) + (if s.blRev >= 5 then 4 else 0)
  }

  lemma ChecksExactly(s: Session, pkg: Package, force: bool, replies: Reads)
    requires (s.boardType == pkg.boardId || force) && pkg.imageSize <= s.fwMaxsize
    ensures Checks(s, pkg, force, replies).ok <==> Suitable(s, pkg, force) && ChecksAnswered(s, pkg, force, replies)
  {
    InformedExactly(s, replies);
    TwoPiecesExactly(Description(From(replies, InfoReads(s, replies))));
    DescribedExactly(From(replies, InfoReads(s, replies)));
  }

  lemma ChecksReads(s: Session, pkg: Package, force: bool, replies: Reads)
    requires Checks(s, pkg, force, replies).ok
    ensures Checks(s, pkg, force, replies).rest == From(replies, CheckReads(s, replies))
  {
    JudgedReads(s, pkg, force, replies, Informed(s, replies));
  }

  lemma JudgedReads(s: Session, pkg: Package, force: bool, replies: Reads, info: Out)
    requires info == Informed(s, replies) && Judged(s, pkg, force, info).ok
    ensures Judged(s, pkg, force, info).rest == From(replies, CheckReads(s, replies))
  {
    InformedReads(s, replies);
    DescribedReads(s, pkg, force, info, replies, InfoReads(s, replies));
  }

  lemma InformedReads(s: Session, replies: Reads)
    requires Informed(s, replies).ok
    ensures Informed(s, replies).rest == From(replies, InfoReads(s, replies))
  {
    InformedExactly(s, replies);
  }

  lemma DescribedReads(s: Session, pkg: Package, force: bool, info: Out, replies: Reads, n: nat)
    requires Judged(s, pkg, force, info).ok && info.rest == From(replies, n)
    ensures Judged(s, pkg, force, info).rest == From(replies, n + (if s.blRev >= 5 then 4 else 0))
  {
    DescribedExactly(info.rest);
    FromFrom(replies, n, 4);
  }

  // ----- the whole upload

  /** The acknowledged boot delay, if one is set; a delay that is no signed byte is never sent. */
  predicate DelayAnswered(delay: BootDelay, replies: Reads) {
    delay.Delay? ==> -128 <= delay.seconds <= 127 && SyncNext(replies)
  }

  /** The boot delay, and from revision 3 on the reboot, are acknowledged. */
  predicate FinishAnswered(s: Session, delay: BootDelay, replies: Reads) {
    DelayAnswered(delay, replies) && (s.blRev >= 3 ==> SyncNext(From(replies, if delay.Delay? then 2 else 0)))
  }

  lemma FinishExactly(s: Session, delay: BootDelay, replies: Reads)
    ensures Finishing(s, delay, replies).ok <==> FinishAnswered(s, delay, replies)
  {
    SyncExactly(replies);
    SyncExactly(From(replies, 2));
    assert From(replies, 0) == replies;
  }

  /** What the reads behind the acknowledged erase have to deliver: blocks, verification, delay and reboot. */
  predicate FillAnswered(s: Session, image: seq<bv8>, delay: BootDelay, replies: Reads) {
    var n := |SplitLen(image, PROG_MULTI_MAX)|;
    var behindBlocks := From(replies, BlockReads(s.windowed, n));
    && image != [] && BlocksAnswered(s.windowed, n, replies)
    && VerifyAnswered(s, image, behindBlocks)
    && FinishAnswered(s, delay, From(behindBlocks, VerifyReads(s, image)))
  }

  /** The same from the erase on, acknowledged at poll `k`. */
  predicate ChangeAnswered(s: Session, image: seq<bv8>, delay: BootDelay, replies: Reads, k: nat) {
    AnsweredAt(replies, k) && FillAnswered(s, image, delay, From(AfterPolls(replies, k), 2))
  }

  /** Filling and finishing, as one phase. */
  function FillingAndFinishing(s: Session, image: seq<bv8>, delay: BootDelay, replies: Reads): bool
    requires |image| % 4 == 0
  {
    Filling(s, image, replies).ok && Finishing(s, delay, Filling(s, image, replies).rest).ok
  }

  lemma FillExactly(s: Session, image: seq<bv8>, delay: BootDelay, replies: Reads)
    requires |image| % 4 == 0
    ensures FillingAndFinishing(s, image, delay, replies) <==> FillAnswered(s, image, delay, replies)
  {
    var behindBlocks := From(replies, BlockReads(s.windowed, |SplitLen(image, PROG_MULTI_MAX)|));
    ProgramExactly(image, s.windowed, replies);
    VerifyExactly(s, image, behindBlocks);
    FinishExactly(s, delay, From(behindBlocks, VerifyReads(s, image)));
  }

  /** At most one poll is the first that is acknowledged. */
  lemma {:induction false} AnsweredOnce(replies: Reads, j: nat, k: nat)
    requires AnsweredAt(replies, j) && AnsweredAt(replies, k)
    ensures j == k
    decreases j
  {
    if j > 0 && k > 0 {
      assert AnsweredAt(Sync(replies).rest, j - 1) && AnsweredAt(Sync(replies).rest, k - 1);
      AnsweredOnce(Sync(replies).rest, j - 1, k - 1);
    }
  }

  lemma ChangeExactly(s: Session, image: seq<bv8>, delay: BootDelay, tries: nat, replies: Reads)
    requires |image| % 4 == 0
    ensures Changing(s, image, delay, tries, replies).ok <==>
      exists k: nat :: k < tries && ChangeAnswered(s, image, delay, replies, k)
  {
    var e := Polls(replies, tries);
    EraseExactly(replies, tries);
    assert Changing(s, image, delay, tries, replies).ok <==> e.ok && FillingAndFinishing(s, image, delay, e.rest);
    if e.ok {
      var k: nat :| k < tries && AnsweredAt(replies, k);
      EraseReads(replies, tries, k);
      FillExactly(s, image, delay, e.rest);
      if FillAnswered(s, image, delay, e.rest) {
        assert ChangeAnswered(s, image, delay, replies, k);
      }
      forall j: nat | j < tries && ChangeAnswered(s, image, delay, replies, j)
        ensures j == k
      {
        AnsweredOnce(replies, j, k);
      }
    }
  }

  /**
   * In every mode, for every revision and delay: the upload finishes if and only if the package is suitable and fits,
   * the checks are answered and accepted, and, read by read, the device answers every phase from the erase on, the
   * erase at some poll before the deadline.
   */
  lemma UploadExactly(s: Session, pkg: Package, force: bool, delay: BootDelay, tries: nat, replies: Reads)
    requires |pkg.image| % 4 == 0
    ensures Uploading(s, pkg, force, delay, tries, replies).ok <==>
      && Suitable(s, pkg, force) && ChecksAnswered(s, pkg, force, replies)
      && exists k: nat :: k < tries && ChangeAnswered(s, pkg.image, delay, From(replies, CheckReads(s, replies)), k)
  {
    if (s.boardType == pkg.boardId || force) && pkg.imageSize <= s.fwMaxsize {
      ChecksExactly(s, pkg, force, replies);
      if Checks(s, pkg, force, replies).ok {
        ChecksReads(s, pkg, force, replies);
        ChangeExactly(s, pkg.image, delay, tries, From(replies, CheckReads(s, replies)));
      }
    }
  }

  // ----- when the board is erased, and when it is not

  lemma ErasedExactly(s: Session, pkg: Package, force: bool, delay: BootDelay, tries: nat, replies: Reads)
    requires |pkg.image| % 4 == 0
    ensures ERASE_SENT in Uploading(s, pkg, force, delay, tries, replies).es <==>
      Suitable(s, pkg, force) && ChecksAnswered(s, pkg, force, replies)
  {
    if (s.boardType == pkg.boardId || force) && pkg.imageSize <= s.fwMaxsize {
      var c := Checks(s, pkg, force, replies);
      ChecksHarmless(s, pkg, force, replies);
      ChecksExactly(s, pkg, force, replies);
      if c.ok {
        var more := Changing(s, pkg.image, delay, tries, c.rest).es;
        assert more[0] == ERASE_SENT && (c.es + more)[|c.es|] == more[0];
      }
    }
  }

  /**
   * From revision 5 on, a board that describes itself with one comma and has more flash than the package is made for
   * is not erased without force, whatever else it answers: the upload is given up.
   */
  lemma LargerBoardRefused(s: Session, pkg: Package, force: bool, delay: BootDelay, tries: nat, replies: Reads)
    requires |pkg.image| % 4 == 0 && s.blRev >= 5 && s.fwMaxsize > pkg.imageMaxsize && !force
    requires OneComma(Description(From(replies, InfoReads(s, replies))))
    ensures var o := Uploading(s, pkg, force, delay, tries, replies);
      && ERASE_SENT !in o.es
      && Result(s, pkg, force, o.ok) == (if s.boardType != pkg.boardId then NotSuitable else Raised)
  {
    ErasedExactly(s, pkg, force, delay, tries, replies);
    if s.boardType == pkg.boardId && pkg.imageSize <= s.fwMaxsize {
      ChecksExactly(s, pkg, force, replies);
    }
  }

  /** A board with no more flash than the package is made for, or a forced upload, is never refused for what it says. */
  lemma DescriptionHarmless(s: Session, pkg: Package, force: bool, delay: BootDelay, tries: nat, replies: Reads)
    requires |pkg.image| % 4 == 0 && s.blRev >= 5 && (s.fwMaxsize <= pkg.imageMaxsize || force)
    ensures ERASE_SENT in Uploading(s, pkg, force, delay, tries, replies).es <==>
      && (s.boardType == pkg.boardId || force) && pkg.imageSize <= s.fwMaxsize
      && AllAnswers(false, 48, replies) && DescriptionAnswered(From(replies, InfoReads(s, replies)))
  {
    ErasedExactly(s, pkg, force, delay, tries, replies);
  }

  /** The byte of a boot delay is the number itself, or 256 more if it is negative. */
  lemma DelayByteIs(seconds: int)
    requires -128 <= seconds < 128
    ensures DelayByte(seconds) as int == if seconds < 0 then seconds + 256 else seconds
  {
    ByteBack(seconds % 256);
  }
}
