/** Waiting for a string on the vehicle's console, character by character. */
module ConsoleFetch {
  import opened Bytes

  /** One `read()`: a character, or nothing if the port times out. */
  predicate Reads(rs: seq<string>) {
    forall i :: 0 <= i < |rs| ==> |rs[i]| <= 1
  }

  predicate NoneEmpty(rs: seq<string>) {
    forall i :: 0 <= i < |rs| ==> |rs[i]| == 1
  }

  /** After `n` reads, the last `|s|` of them are exactly the characters of `s`. */
  predicate Seen(rs: seq<string>, s: string, n: nat)
    requires n <= |rs|
  {
    n >= 1 && n >= |s| && forall i :: 0 <= i < |s| ==> rs[n - |s| + i] == [s[i]]
  }

  lemma {:induction false} JoinLength(rs: seq<string>)
    requires Reads(rs)
    ensures |Flatten(rs)| <= |rs|
    decreases |rs|
  {
    if rs != [] {
      JoinLength(rs[1..]);
    }
  }

  /** Reads that join to as many characters as there are reads are those characters, one each. */
  lemma {:induction false} JoinExact(rs: seq<string>, s: string)
    requires Reads(rs) && |rs| == |s|
    ensures Flatten(rs) == s <==> forall i :: 0 <= i < |s| ==> rs[i] == [s[i]]
    decreases |rs|
  {
    if rs != [] {
      var rest := rs[1..];
      JoinExact(rest, s[1..]);
      JoinLength(rest);
      assert s == [s[0]] + s[1..];
      if Flatten(rs) == s {
        assert |rs[0]| == 1 && rs[0][0] == s[0];
        assert Flatten(rest) == s[1..];
        forall i | 0 <= i < |s|
          ensures rs[i] == [s[i]]
        {
          if i > 0 {
            assert rs[i] == rest[i - 1] && s[i] == s[1..][i - 1];
          }
        }
      }
      if forall i :: 0 <= i < |s| ==> rs[i] == [s[i]] {
        forall i | 0 <= i < |s[1..]|
          ensures rest[i] == [s[1..][i]]
        {
          assert rest[i] == rs[i + 1];
        }
      }
    }
  }

  /** The window of the last reads equals the target exactly when the target was just seen. */
  lemma WindowMatches(rs: seq<string>, s: string, n: nat)
    requires Reads(rs) && 1 <= n <= |rs|
    ensures Flatten(rs[Back(n, |s|)..n]) == s <==> Seen(rs, s, n)
  {
    var window := rs[Back(n, |s|)..n];
    if n < |s| {
      JoinLength(window);
    } else {
      JoinExact(window, s);
    }
  }

  function Back(n: nat, k: nat): nat {
    if n < k then 0 else n - k
  }

  /**
   * Reads until the last reads spell `s`; `limit` is how many reads the timeout allows, and running out of input
   * counts as a timeout too. Returns what was read before `s`, and how many reads were consumed.
   */
  method WaitForString(rs: seq<string>, s: string, limit: nat) returns (raised: bool, res: string, n: nat)
    requires Reads(rs)
    ensures n <= |rs|
    ensures !raised ==> Seen(rs, s, n) && NeverSeen(rs, s, n)
    ensures !raised ==> res == Flatten(rs[..n - |s|]) && res + s == Flatten(rs[..n])
    ensures raised ==> NeverSeen(rs, s, n) && !Seen(rs, s, n)
    ensures raised ==> n == |rs| || n == limit + 1
    ensures n <= limit + 1
    ensures raised <==> NotInTime(rs, s, limit)
  {
    var buf: seq<string> := [];
    res := "";
    n := 0;
    assert rs[0..0] == [] && rs[..0] == [];
    while n < |rs|
      invariant n <= |rs| && Windowed(rs, |s|, n, buf, res)
      invariant NeverSeen(rs, s, n) && !Seen(rs, s, n) && n <= limit
      decreases |rs| - n
    {
      buf, res := Slide(rs, |s|, n, buf, res);
      NeverYet(rs, s, n);
      n := n + 1;
      var found := Matches(rs, s, n, buf, res);
      if found {
        FoundInTime(rs, s, n, limit);
        return false, res, n;
      }
      if n > limit {
        GivenUp(rs, s, n, limit);
        return true, res, n;
      }
    }
    GivenUp(rs, s, n, limit);
    return true, res, n;
  }

  /** The target is not seen in the allowed reads. */
  predicate NotInTime(rs: seq<string>, s: string, limit: nat) {
    forall m :: 0 <= m <= |rs| && m <= limit + 1 ==> !Seen(rs, s, m)
  }

  lemma FoundInTime(rs: seq<string>, s: string, n: nat, limit: nat)
    requires n <= |rs| && n <= limit + 1 && Seen(rs, s, n)
    ensures !NotInTime(rs, s, limit)
  {
  }

  lemma GivenUp(rs: seq<string>, s: string, n: nat, limit: nat)
    requires n <= |rs| && NeverSeen(rs, s, n) && !Seen(rs, s, n) && (n == |rs| || n == limit + 1)
    ensures NotInTime(rs, s, limit)
  {
  }

  /** Before `n` reads the target has not been seen. */
  predicate NeverSeen(rs: seq<string>, s: string, n: nat)
    requires n <= |rs|
  {
    forall m :: 0 <= m < n ==> !Seen(rs, s, m)
  }

  lemma NeverYet(rs: seq<string>, s: string, n: nat)
    requires n < |rs| && NeverSeen(rs, s, n) && !Seen(rs, s, n)
    ensures NeverSeen(rs, s, n + 1)
  {
  }

  /** `buf` holds the last `k` of `n` reads, or all if there are fewer, and `res` the text of those before. */
  predicate Windowed(rs: seq<string>, k: nat, n: nat, buf: seq<string>, res: string)
    requires n <= |rs|
  {
    buf == rs[Back(n, k)..n] && res == Flatten(rs[..Back(n, k)])
  }

  /** Whether the window spells the target. */
  method Matches(rs: seq<string>, s: string, n: nat, buf: seq<string>, res: string) returns (found: bool)
    requires Reads(rs) && 1 <= n <= |rs| && Windowed(rs, |s|, n, buf, res)
    ensures found <==> Seen(rs, s, n)
    ensures found ==> res == Flatten(rs[..n - |s|]) && res + s == Flatten(rs[..n])
  {
    WindowMatches(rs, s, n);
    found := Flatten(buf) == s;
    if found {
      ConsumedText(rs, s, n);
    }
  }

  /** One more read; the oldest of more than `k` moves over to the result. */
  method Slide(rs: seq<string>, k: nat, n: nat, buf: seq<string>, res: string) returns (buf': seq<string>, res': string)
    requires n < |rs| && Windowed(rs, k, n, buf, res)
    ensures Windowed(rs, k, n + 1, buf', res')
  {
    buf', res' := buf + [rs[n]], res;
    assert buf' == rs[Back(n, k)..n + 1];
    if |buf'| > k {
      var b := Back(n, k);
      assert rs[..b + 1] == rs[..b] + [rs[b]];
      FlattenSnoc(rs[..b], rs[b]);
      res' := res + buf'[0];
      buf' := buf'[1..];
    }
  }

  // ----- in terms of the text

  predicate OccursAt(text: string, s: string, p: nat) {
    p + |s| <= |text| && text[p..p + |s|] == s
  }

  lemma {:induction false} OnePerRead(rs: seq<string>, k: nat)
    requires NoneEmpty(rs) && k <= |rs|
    ensures Pos(rs, k) == k
  {
    if k > 0 {
      OnePerRead(rs, k - 1);
    }
  }

  /** With no empty read, read `k` is character `k` of the text. */
  lemma TextSlice(rs: seq<string>, a: nat, b: nat)
    requires NoneEmpty(rs) && a <= b <= |rs|
    ensures |Flatten(rs)| == |rs| && Flatten(rs[a..b]) == Flatten(rs)[a..b]
  {
    OnePerRead(rs, a);
    OnePerRead(rs, b);
    OnePerRead(rs, |rs|);
    FlattenLength(rs);
    FlattenSlice(rs, a, b);
  }

  lemma NoneEmptyReads(rs: seq<string>)
    requires NoneEmpty(rs)
    ensures Reads(rs)
  {
  }

  lemma SeenIsWindow(rs: seq<string>, s: string, a: nat, n: nat)
    requires NoneEmpty(rs) && s != "" && a + |s| == n <= |rs|
    ensures Seen(rs, s, n) <==> Flatten(rs[a..n]) == s
  {
    NoneEmptyReads(rs);
    WindowMatches(rs, s, n);
  }

  lemma OccurrenceIsWindow(rs: seq<string>, s: string, a: nat, n: nat)
    requires NoneEmpty(rs) && a + |s| == n <= |rs|
    ensures OccursAt(Flatten(rs), s, a) <==> Flatten(rs[a..n]) == s
  {
    TextSlice(rs, a, n);
  }

  /** With no empty read, the target is seen after `n` reads exactly if it ends there in the text. */
  lemma SeenIsOccurrence(rs: seq<string>, s: string, n: nat)
    requires NoneEmpty(rs) && s != "" && n <= |rs|
    ensures Seen(rs, s, n) <==> n >= |s| && OccursAt(Flatten(rs), s, n - |s|)
  {
    if n >= |s| {
      var a := n - |s|;
      SeenIsWindow(rs, s, a, n);
      OccurrenceIsWindow(rs, s, a, n);
    }
  }

  /** In every case, what is returned followed by the target is all the text consumed. */
  lemma ConsumedText(rs: seq<string>, s: string, n: nat)
    requires Reads(rs) && n <= |rs| && Seen(rs, s, n)
    ensures Flatten(rs[..n - |s|]) + s == Flatten(rs[..n])
  {
    var window := rs[n - |s|..n];
    JoinExact(window, s);
    assert rs[..n] == rs[..n - |s|] + window;
    FlattenConcat(rs[..n - |s|], window);
  }

  predicate EndsWith(text: string, s: string) {
    |s| <= |text| && text[|text| - |s|..] == s
  }

  lemma SpelledNoneEmpty(window: seq<string>, s: string)
    requires |window| == |s| && forall i :: 0 <= i < |s| ==> window[i] == [s[i]]
    ensures NoneEmpty(window)
  {
    forall i | 0 <= i < |window|
      ensures |window[i]| == 1
    {
      assert window[i] == [s[i]];
    }
  }

  /** A text that is joined on ends with what was joined, if that is as long as the target. */
  lemma JoinedEnd(front: string, last: string, s: string)
    requires |last| == |s|
    ensures EndsWith(front + last, s) <==> last == s
  {
    assert (front + last)[|front|..] == last;
  }

  /**
   * For every run of reads, empty ones included: the target is noticed exactly if the text so far ends with it and
   * none of the last `|s|` reads came back empty.
   */
  lemma SeenExactly(rs: seq<string>, s: string, n: nat)
    requires Reads(rs) && |s| <= n <= |rs| && n >= 1
    ensures Seen(rs, s, n) <==> EndsWith(Flatten(rs[..n]), s) && NoneEmpty(rs[n - |s|..n])
  {
    var front, window := rs[..n - |s|], rs[n - |s|..n];
    assert rs[..n] == front + window;
    FlattenConcat(front, window);
    WindowMatches(rs, s, n);
    WindowEnds(window, Flatten(front), s);
  }

  lemma WindowEnds(window: seq<string>, front: string, s: string)
    requires Reads(window) && |window| == |s|
    ensures Flatten(window) == s <==> EndsWith(front + Flatten(window), s) && NoneEmpty(window)
  {
    JoinExact(window, s);
    if NoneEmpty(window) {
      TextSlice(window, 0, 0);
      JoinedEnd(front, Flatten(window), s);
    }
    if Flatten(window) == s {
      SpelledNoneEmpty(window, s);
    }
  }

  /** The first time the target is seen is its first occurrence, and the text before it is what is returned. */
  lemma FirstOccurrence(rs: seq<string>, s: string, n: nat)
    requires NoneEmpty(rs) && s != "" && n <= |rs|
    requires Seen(rs, s, n) && NeverSeen(rs, s, n)
    ensures OccursAt(Flatten(rs), s, n - |s|)
    ensures forall p :: 0 <= p < n - |s| ==> !OccursAt(Flatten(rs), s, p)
    ensures Flatten(rs[..n - |s|]) == Flatten(rs)[..n - |s|]
  {
    SeenIsOccurrence(rs, s, n);
    TextSlice(rs, 0, n - |s|);
    assert rs[0..n - |s|] == rs[..n - |s|];
    forall p | 0 <= p < n - |s|
      ensures !OccursAt(Flatten(rs), s, p)
    {
      SeenIsOccurrence(rs, s, p + |s|);
    }
  }

  /** An empty read inside the target hides it: the window counts reads, not characters. */
  lemma EmptyReadHidesTarget()
    ensures Reads(["a", "", "b"]) && Flatten(["a", "", "b"]) == "ab"
    ensures forall n :: 0 <= n <= 3 ==> !Seen(["a", "", "b"], "ab", n)
  {
    var rs := ["a", "", "b"];
    var last: seq<string> := ["b"] + [];
    assert rs == ["a"] + ([""] + last);
    FlattenCons("b", []);
    FlattenCons("", last);
    FlattenCons("a", [""] + last);
    forall n | 0 <= n <= 3
      ensures !Seen(rs, "ab", n)
    {
      if n >= 2 {
        assert rs[n - 2 + 0] != ["ab"[0]] || rs[n - 2 + 1] != ["ab"[1]];
      }
    }
  }

  const PROMPT: string := "nsh> \U{1b}[K"

  function EchoLine(cmd: string): string {
    cmd + "\r\n"
  }

  /** `echo` is where the line first occurs, `end` where the first prompt behind it does, `out` the text between. */
  predicate Between(text: string, line: string, echo: nat, end: nat, out: string) {
    && OccursAt(text, line, echo)
    && (forall p :: 0 <= p < echo ==> !OccursAt(text, line, p))
    && echo + |line| <= end
    && OccursAt(text, PROMPT, end)
    && (forall p :: echo + |line| <= p < end ==> !OccursAt(text, PROMPT, p))
    && out == text[echo + |line|..end]
  }

  lemma TextTail(rs: seq<string>, n: nat)
    requires NoneEmpty(rs) && n <= |rs|
    ensures |Flatten(rs)| == |rs|
    ensures Flatten(rs[n..]) == Flatten(rs)[n..]
  {
    TextSlice(rs, n, |rs|);
    assert rs[n..|rs|] == rs[n..];
  }

  lemma OccursInTail(text: string, s: string, n: nat, p: nat)
    requires n <= |text| && n <= p
    ensures OccursAt(text[n..], s, p - n) <==> OccursAt(text, s, p)
  {
    if p + |s| <= |text| {
      assert text[n..][p - n..p - n + |s|] == text[p..p + |s|];
    }
  }

  /** A first occurrence of the line, then a first occurrence of the prompt in the text behind it. */
  lemma EchoThenPrompt(text: string, line: string, n1: nat, n2: nat)
    requires |line| <= n1 <= |text| && |PROMPT| <= n2 <= |text| - n1
    requires OccursAt(text, line, n1 - |line|) && forall p :: 0 <= p < n1 - |line| ==> !OccursAt(text, line, p)
    requires OccursAt(text[n1..], PROMPT, n2 - |PROMPT|)
    requires forall p :: 0 <= p < n2 - |PROMPT| ==> !OccursAt(text[n1..], PROMPT, p)
    ensures Between(text, line, n1 - |line|, n1 + n2 - |PROMPT|, text[n1..][..n2 - |PROMPT|])
  {
    var end := n1 + n2 - |PROMPT|;
    OccursInTail(text, PROMPT, n1, end);
    forall p | n1 <= p < end
      ensures !OccursAt(text, PROMPT, p)
    {
      OccursInTail(text, PROMPT, n1, p);
    }
    assert text[n1..][..n2 - |PROMPT|] == text[n1..end];
  }

  lemma ExecReads(rs: seq<string>, line: string, n1: nat, n2: nat)
    requires NoneEmpty(rs) && line != "" && n1 <= |rs| && n2 <= |rs[n1..]|
    requires Seen(rs, line, n1) && NeverSeen(rs, line, n1)
    requires Seen(rs[n1..], PROMPT, n2) && NeverSeen(rs[n1..], PROMPT, n2)
    ensures |line| <= n1 && |PROMPT| <= n2
    ensures Between(Flatten(rs), line, n1 - |line|, n1 + n2 - |PROMPT|, Flatten(rs[n1..][..n2 - |PROMPT|]))
  {
    FirstOccurrence(rs, line, n1);
    FirstOccurrence(rs[n1..], PROMPT, n2);
    TextTail(rs, n1);
    EchoThenPrompt(Flatten(rs), line, n1, n2);
  }

  /** The first occurrence is at one place only. */
  lemma EchoAt(rs: seq<string>, line: string, n1: nat, echo: nat)
    requires NoneEmpty(rs) && line != "" && n1 <= |rs| && Seen(rs, line, n1) && NeverSeen(rs, line, n1)
    requires OccursAt(Flatten(rs), line, echo) && forall p :: 0 <= p < echo ==> !OccursAt(Flatten(rs), line, p)
    ensures n1 == echo + |line|
  {
    FirstOccurrence(rs, line, n1);
  }

  /** What is in the text in time is seen in time. */
  lemma SeenInTime(rs: seq<string>, s: string, p: nat, limit: nat)
    requires NoneEmpty(rs) && s != "" && OccursAt(Flatten(rs), s, p) && p + |s| <= limit + 1
    ensures p + |s| <= |rs| && Seen(rs, s, p + |s|)
  {
    TextSlice(rs, 0, |rs|);
    SeenIsOccurrence(rs, s, p + |s|);
  }

  lemma OccursInTime(rs: seq<string>, s: string, p: nat, limit: nat)
    requires NoneEmpty(rs) && s != "" && OccursAt(Flatten(rs), s, p) && p + |s| <= limit + 1
    ensures !NotInTime(rs, s, limit)
  {
    SeenInTime(rs, s, p, limit);
    FoundInTime(rs, s, p + |s|, limit);
  }

  lemma TailInTime(rest: seq<string>, text: string, n1: nat, s: string, end: nat, limit: nat)
    requires NoneEmpty(rest) && n1 <= |text| && Flatten(rest) == text[n1..]
    requires n1 <= end && s != "" && OccursAt(text, s, end) && end + |s| <= n1 + limit + 1
    ensures !NotInTime(rest, s, limit)
  {
    OccursInTail(text, s, n1, end);
    OccursInTime(rest, s, end - n1, limit);
  }

  lemma SeenBehind(rs: seq<string>, n1: nat, s: string, end: nat, limit: nat)
    requires NoneEmpty(rs) && n1 <= |rs| && n1 <= end && s != ""
    requires OccursAt(Flatten(rs), s, end) && end + |s| <= n1 + limit + 1
    ensures !NotInTime(rs[n1..], s, limit)
  {
    TextTail(rs, n1);
    TailInTime(rs[n1..], Flatten(rs), n1, s, end, limit);
  }

  /** The echo ends within the allowed reads, and the prompt within as many behind it. */
  ghost predicate InTime(text: string, line: string, limit: nat) {
    exists echo: nat, end: nat, out :: Between(text, line, echo, end, out) && Prompted(line, echo, end, limit)
  }

  predicate Prompted(line: string, echo: nat, end: nat, limit: nat) {
    echo + |line| <= limit + 1 && end + |PROMPT| <= echo + |line| + limit + 1
  }

  /**
   * Waits for the echo of the command, then returns what comes before the next prompt: exactly the text between
   * the first echo of the command and the first prompt behind it, and nothing past that prompt is consumed.
   */
  method ExecCmd(rs: seq<string>, cmd: string, limit: nat) returns (raised: bool, res: string, n: nat)
    requires NoneEmpty(rs)
    ensures n <= |rs|
    ensures !raised ==>
      exists echo: nat, end: nat :: Between(Flatten(rs), cmd + "\r\n", echo, end, res) && n == end + |PROMPT|
    ensures raised <==> !InTime(Flatten(rs), cmd + "\r\n", limit)
  {
    var line := EchoLine(cmd);
    var skipped: string, n1: nat, n2: nat;
    raised, skipped, n1 := WaitForString(rs, line, limit);
    if raised {
      NoEchoInTime(rs, line, limit);
      return true, "", n1;
    }
    raised, res, n2 := WaitForString(rs[n1..], PROMPT, limit);
    n := n1 + n2;
    if !raised {
      ExecReads(rs, line, n1, n2);
      assert Prompted(line, n1 - |line|, n - |PROMPT|, limit);
    } else {
      NoPromptInTime(rs, line, n1, limit);
    }
  }

  lemma NoEchoInTime(rs: seq<string>, line: string, limit: nat)
    requires NoneEmpty(rs) && line != "" && NotInTime(rs, line, limit)
    ensures !InTime(Flatten(rs), line, limit)
  {
    if InTime(Flatten(rs), line, limit) {
      var echo: nat, end: nat, out :| Between(Flatten(rs), line, echo, end, out) && Prompted(line, echo, end, limit);
      SeenInTime(rs, line, echo, limit);
    }
  }

  /** Behind the echo, what comes in time is seen in time. */
  lemma BehindEcho(rs: seq<string>, line: string, n1: nat, limit: nat, echo: nat, s: string, end: nat)
    requires NoneEmpty(rs) && line != "" && n1 <= |rs| && Seen(rs, line, n1) && NeverSeen(rs, line, n1)
    requires OccursAt(Flatten(rs), line, echo) && forall p :: 0 <= p < echo ==> !OccursAt(Flatten(rs), line, p)
    requires s != "" && OccursAt(Flatten(rs), s, end) && echo + |line| <= end
    requires end + |s| <= echo + |line| + limit + 1
    ensures !NotInTime(rs[n1..], s, limit)
  {
    assert n1 == echo + |line| by {
      EchoAt(rs, line, n1, echo);
    }
    SeenBehind(rs, n1, s, end, limit);
  }

  lemma NoPromptInTime(rs: seq<string>, line: string, n1: nat, limit: nat)
    requires NoneEmpty(rs) && line != "" && n1 <= |rs| && Seen(rs, line, n1) && NeverSeen(rs, line, n1)
    requires NotInTime(rs[n1..], PROMPT, limit)
    ensures !InTime(Flatten(rs), line, limit)
  {
    forall echo: nat, end: nat, out | Between(Flatten(rs), line, echo, end, out) && Prompted(line, echo, end, limit)
      ensures false
    {
      BehindEcho(rs, line, n1, limit, echo, PROMPT, end);
    }
  }
}
