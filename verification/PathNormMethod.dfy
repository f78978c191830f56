/**
  `ffpath_norm` as it is programmed: the root, the table, and the output loop into `dst`, which may
  be `src`. The index `k` is a 32-bit number and may wrap around.
 */
module PathNormMethod {
  import opened PathNorm
  import opened PathNormOutput

  const HALF := 0x8000_0000

  /** The components as texts. */
  function PartsOf(s: string, spans: seq<Span>): seq<string> {
    seq(|spans|, i requires 0 <= i < |spans| => Text(s, spans[i]))
  }

  /** What the words `i - 1` and `i` of the table say about the component between them. */
  lemma WordsOf(windows: bool, s: string, start: nat, spans: seq<Span>, i: nat)
    requires |s| <= 4095 && start <= |s| && Covers(windows, s, start, spans) && 1 <= i <= |spans|
    ensures var v, w, span := TableWord(s, start, spans, i - 1), TableWord(s, start, spans, i), spans[i - 1];
            var part, skip := Text(s, span), if i == 1 then 0 else 1;
            && OffsetIn(v) + skip == span.begin <= span.end == OffsetIn(w) <= |s|
            && |part| == span.end - span.begin
            && (IsDot(w) <==> KindOf(part) == Here) && (IsDotDot(w) <==> KindOf(part) == Up)
  {
    var span := spans[i - 1];
    assert Whole(windows, s, span);
    WordParts(Text(s, span), span.end);
    if i > 1 {
      assert Whole(windows, s, spans[i - 2]) && Adjacent(windows, s, spans[i - 2], spans[i - 1]);
      WordParts(Text(s, spans[i - 2]), spans[i - 2].end);
    }
  }

  /** The word at `i + 1` and the one before it agree with the component at `i`. */
  predicate MatchesAt(words: seq<int>, parts: seq<string>, i: int)
    requires 0 <= i < |parts| < |words|
  {
    var v, w := words[i], words[i + 1];
    && OffsetIn(w) - OffsetIn(v) == TableLength(parts, i) <= 4096
    && (IsDot(w) <==> KindOf(parts[i]) == Here) && (IsDotDot(w) <==> KindOf(parts[i]) == Up)
  }

  ghost predicate TableMatches(words: seq<int>, parts: seq<string>)
    requires |parts| < |words|
  {
    forall i :: 0 <= i < |parts| ==> MatchesAt(words, parts, i)
  }

  lemma BuiltTableMatches(windows: bool, s: string, start: nat, spans: seq<Span>, words: seq<int>)
    requires |s| <= 4095 && start <= |s| && Covers(windows, s, start, spans)
    requires |spans| < |words| && words[..|spans| + 1] == Table(s, start, spans, |spans| + 1)
    ensures TableMatches(words, PartsOf(s, spans))
  {
    forall i | 0 <= i < |spans|
      ensures MatchesAt(words, PartsOf(s, spans), i)
    {
      WordsOf(windows, s, start, spans, i + 1);
      assert words[i] == words[..|spans| + 1][i] && words[i + 1] == words[..|spans| + 1][i + 1];
    }
  }

  // ---- One iteration ----

  /** The variables `k` and `cur` and the buffer are what the outcome says. */
  ghost predicate Holds(dst: array<char>, cap: nat, k: int, cur: int, st: Outcome)
    reads dst
  {
    match st
    case Running(out, c) => 0 <= k <= cap && k <= dst.Length && k < HALF - 4097 && dst[..k] == out && c == cur
    case Below(short, c) => 0 < short < HALF - 4097 && k == WORD - short && c == cur
    case _ => false
  }

  /** Lowers `k` by the length of an entry. */
  method LowerIndex(dst: array<char>, cap: nat, k: int, cur: int, n: nat, ghost st: Outcome)
    returns (k': int)
    requires Holds(dst, cap, k, cur, st) && n <= 4096 && (st.Below? ==> st.short + n < HALF - 4097)
    ensures Holds(dst, cap, k', cur, Lower(st, n))
  {
    k' := (k - n) % WORD;
    if Lower(st, n).Running? {
      assert dst[..k'] == dst[..k][..k - n];
    }
  }

  datatype Verdict = Refuse | Stray | Skip | Write

  /** The branches of one iteration: it ends the loop, only moves the indexes, or has the component written at `k'`. */
  method Decide(env: Setting, dst: array<char>, k: int, cur: int, part: string, w: int, words: array<int>,
                ghost parts: seq<string>, ghost st: Outcome)
    returns (verdict: Verdict, k': int, cur': int, ghost st': Outcome)
    requires Holds(dst, env.cap, k, cur, st) && (st.Below? ==> st.short + 4096 < HALF - 4097) && |env.root| <= 3
    requires (IsDot(w) <==> KindOf(part) == Here) && (IsDotDot(w) <==> KindOf(part) == Up)
    requires |parts| < words.Length && TableMatches(words[..], parts) && 0 <= cur <= |parts|
    ensures verdict == Refuse ==> Step(env, parts, st, part) == Refused
    ensures verdict == Stray ==> Step(env, parts, st, part) == Astray
    ensures verdict == Skip ==> Step(env, parts, st, part) == st' && Holds(dst, env.cap, k', cur', st')
    ensures verdict == Write ==>
              st'.Goes() && Step(env, parts, st, part) == Append(env, st', part) && Holds(dst, env.cap, k', cur, st')
    ensures st'.Running? ==> st.Running? && k' <= k
    ensures st'.Below? ==> st'.short <= (if st.Below? then st.short else 0) + 4096
    ensures part == [] ==> verdict == Skip && k' == k
  {
    verdict, k', cur', st' := Write, k, cur + 1, st;
    if |part| == 0 {
      verdict, st' := Skip, Advance(st);
    } else if IsDot(w) {
      if k != 0 {
        verdict, st' := Skip, Advance(st);
      }
    } else if IsDotDot(w) {
      if k == |env.root| {
        if env.strict {
          verdict := Refuse;
        } else if |env.root| != 0 {
          verdict, st' := Skip, Advance(st);
        }
      } else if cur == 0 {
        verdict := Stray;
      } else {
        verdict, k', cur', st' := WalkBack(env, dst, k, cur, part, words, parts, st);
      }
    }
  }

  /** The branches at "..", with something written. */
  method WalkBack(env: Setting, dst: array<char>, k: int, cur: int, part: string, words: array<int>,
                  ghost parts: seq<string>, ghost st: Outcome)
    returns (verdict: Verdict, k': int, cur': int, ghost st': Outcome)
    requires Holds(dst, env.cap, k, cur, st) && (st.Below? ==> st.short + 4096 < HALF - 4097)
    requires |parts| < words.Length && TableMatches(words[..], parts) && 1 <= cur <= |parts|
    ensures verdict == Skip || verdict == Write
    ensures verdict == Skip ==> StepBack(env, parts, st, part) == st' && Holds(dst, env.cap, k', cur', st')
    ensures verdict == Write ==>
              && st'.Goes() && StepBack(env, parts, st, part) == Append(env, st', part)
              && Holds(dst, env.cap, k', cur, st')
    ensures st'.Running? ==> st.Running? && k' <= k
    ensures st'.Below? ==> st'.short <= (if st.Below? then st.short else 0) + 4096
  {
    var n := OffsetIn(words[cur]) - OffsetIn(words[cur - 1]);
    ghost var kind := KindOf(parts[cur - 1]);
    assert n == TableLength(parts, cur - 1) <= 4096 && (IsDot(words[cur]) <==> kind == Here)
           && (IsDotDot(words[cur]) <==> kind == Up) by {
      assert MatchesAt(words[..], parts, cur - 1);
    }
    if IsDot(words[cur]) {
      k' := LowerIndex(dst, env.cap, k, cur, n, st);
      return Write, k', cur + 1, Lower(st, n);
    } else if IsDotDot(words[cur]) {
      return Write, k, cur + 1, st;
    } else {
      k' := LowerIndex(dst, env.cap, k, cur, n, st);
      return Skip, k', cur - 1, Lower(st, n).(cur := cur - 1);
    }
  }

  /** -1 if the component, with a separator unless it is the first, does not fit; otherwise both are written. */
  method WritePart(env: Setting, dst: array<char>, k: int, cur: int, part: string, ghost st: Outcome)
    returns (verdict: Verdict, k': int)
    requires st.Goes() && Holds(dst, env.cap, k, cur, st) && |part| <= 4095 && |env.slash| == 1 && |env.root| <= 3
    requires env.cap <= dst.Length
    modifies dst
    ensures verdict == Refuse ==> Append(env, st, part) == Refused
    ensures verdict == Stray ==> Append(env, st, part) == Astray
    ensures verdict != Skip
    ensures verdict == Write ==>
              && st.Running? && k' == Ahead(env, k) + |part| <= env.cap
              && Append(env, st, part) == Running(dst[..k'], cur + 1)
              && forall j :: k' <= j < dst.Length ==> dst[j] == old(dst[j])
    ensures verdict != Write ==> dst[..] == old(dst[..])
  {
    SumIs(env, k, part, st);
    var sum := (k + (if k != |env.root| then 1 else 0) + |part|) % WORD;
    k' := k;
    if sum > env.cap {
      return Refuse, k;
    }
    if k >= HALF {
      return Stray, k;
    }
    if k' != |env.root| {
      k' := Put(dst, k', env.slash);
    }
    k' := Put(dst, k', part);
    return Write, k';
  }

  /** The 32-bit sum that is compared with the capacity, and what follows from it. */
  lemma SumIs(env: Setting, k: int, part: string, st: Outcome)
    requires st.Running? ==> 0 <= k == |st.out| < HALF - 4097
    requires st.Below? ==> 0 < st.short < HALF - 4097 && k == WORD - st.short
    requires st.Goes() && |part| <= 4095 && |env.slash| == 1 && |env.root| <= 3
    ensures var sum := (k + (if k != |env.root| then 1 else 0) + |part|) % WORD;
            && (sum > env.cap ==> Append(env, st, part) == Refused)
            && (sum <= env.cap && k >= HALF ==> st.Below? && Append(env, st, part) == Astray)
            && (sum <= env.cap && k < HALF ==> st.Running? && sum == Ahead(env, k) + |part|)
  {
    if st.Below? {
      var n := 1 + |part|;
      assert WORD - st.short + n == (n - st.short) + WORD;
    }
  }

  method Put(dst: array<char>, k: int, text: string) returns (k': int)
    requires 0 <= k && k + |text| <= dst.Length
    modifies dst
    ensures k' == k + |text| && dst[..k'] == old(dst[..k]) + text
    ensures forall j :: k' <= j < dst.Length ==> dst[j] == old(dst[j])
  {
    forall i | 0 <= i < |text| {
      dst[k + i] := text[i];
    }
    k' := k + |text|;
    assert dst[..k'] == dst[..k] + text;
  }

  // ---- The loop ----

  /** What does not change in the loop: the table, for the components of the text `s` from `start` on. */
  ghost predicate Tabled(env: Setting, windows: bool, s: string, start: nat, spans: seq<Span>, words: seq<int>) {
    && |s| <= 4095 && start <= |s| && Covers(windows, s, start, spans) && |spans| <= 254
    && |spans| < |words| && words[..|spans| + 1] == Table(s, start, spans, |spans| + 1)
    && |env.slash| == 1 && |env.root| <= env.cap && |env.root| <= start + 1 && |env.root| <= 3
  }

  /** Where the component at `i` begins, or, after the last, where the next one would. */
  function Begin(spans: seq<Span>, i: nat): nat
    requires 0 < |spans| && i <= |spans|
  {
    if i < |spans| then spans[i].begin else spans[i - 1].end + 1
  }

  /** Where a component would be written, after the separator if there is one. */
  function Ahead(env: Setting, k: int): int {
    k + if k != |env.root| then 1 else 0
  }

  /**
    How much longer than what was read the text written may be before the component at `i`: by one if the
    root was, though in place only before the first component.
   */
  function Slack(env: Setting, start: nat, i: nat, inPlace: bool): nat {
    if |env.root| > start && (i == 0 || !inPlace) then 1 else 0
  }

  /** In place, a root that is longer than it was read has to be followed by a separator, or by nothing. */
  predicate Spaced(env: Setting, windows: bool, s: string, start: nat, inPlace: bool) {
    inPlace && |env.root| > start && start < |s| ==> IsSep(windows, s[start])
  }

  /** The variables before the component at `i`. */
  ghost predicate Before(env: Setting, dst: array<char>, start: nat, spans: seq<Span>, i: nat,
                         k: int, cur: int, st: Outcome, inPlace: bool)
    requires 0 < |spans| && i <= |spans|
    reads dst
  {
    && Holds(dst, env.cap, k, cur, st) && 0 <= cur <= i
    && (st.Running? ==> Ahead(env, k) <= Begin(spans, i) + Slack(env, start, i, inPlace))
    && (st.Below? ==> st.short <= 4096 * i)
  }

  /** Where the component at `i` is, by the words of the table. */
  lemma WordsAt(env: Setting, windows: bool, s: string, start: nat, spans: seq<Span>, words: seq<int>, i: nat)
    requires Tabled(env, windows, s, start, spans, words) && i < |spans|
    ensures OffsetIn(words[i]) == if i == 0 then spans[i].begin else spans[i].begin - 1
    ensures OffsetIn(words[i + 1]) == spans[i].end
  {
    WordsOf(windows, s, start, spans, i + 1);
    var table := words[..|spans| + 1];
    assert words[i] == table[i] && words[i + 1] == table[i + 1];
  }

  lemma SpanAt(windows: bool, s: string, start: nat, spans: seq<Span>, i: nat)
    requires Covers(windows, s, start, spans) && i < |spans|
    ensures spans[i].begin <= spans[i].end <= |s| && spans[i].end < Begin(spans, i + 1)
    ensures PartsOf(s, spans)[i] == s[spans[i].begin..spans[i].end]
  {
    assert Whole(windows, s, spans[i]);
    assert i + 1 < |spans| ==> Adjacent(windows, s, spans[i], spans[i + 1]);
  }

  /** The component at `i`, read from the input. */
  method PartAt(env: Setting, windows: bool, src: array<char>, words: array<int>, i: nat,
                ghost s: string, ghost start: nat, ghost spans: seq<Span>)
    returns (part: string)
    requires Tabled(env, windows, s, start, spans, words[..]) && i < |spans| && Intact(src, s, spans[i].begin)
    ensures part == PartsOf(s, spans)[i] && |part| == spans[i].end - spans[i].begin <= 4095
    ensures spans[i].begin <= spans[i].end < Begin(spans, i + 1)
  {
    WordsAt(env, windows, s, start, spans, words[..], i);
    SpanAt(windows, s, start, spans, i);
    var off := OffsetIn(words[i]);
    var plen := OffsetIn(words[i + 1]) - OffsetIn(words[i]);
    if i != 0 {
      plen := plen - 1;
      off := off + 1;
    }
    part := src[off..off + plen];
  }

  /** One iteration for the component `part`: the variables move on, by no more than the component and a separator. */
  method Move(env: Setting, dst: array<char>, k: int, cur: int, part: string, w: int, words: array<int>,
              ghost parts: seq<string>, ghost st: Outcome)
    returns (verdict: Verdict, k': int, cur': int, ghost st': Outcome)
    requires Holds(dst, env.cap, k, cur, st) && (st.Below? ==> st.short + 4096 < HALF - 4097) && |env.root| <= 3
    requires (IsDot(w) <==> KindOf(part) == Here) && (IsDotDot(w) <==> KindOf(part) == Up) && |part| <= 4095
    requires |parts| < words.Length && TableMatches(words[..], parts) && 0 <= cur <= |parts|
    requires |env.slash| == 1 && env.cap <= dst.Length && (st.Running? ==> k + 4096 < HALF - 4097)
    modifies dst
    ensures verdict == Refuse ==> Step(env, parts, st, part) == Refused
    ensures verdict == Stray ==> Step(env, parts, st, part) == Astray
    ensures verdict == Skip || verdict == Write ==>
              && Step(env, parts, st, part) == st' && Holds(dst, env.cap, k', cur', st') && cur - 1 <= cur' <= cur + 1
              && (st'.Running? ==> st.Running? && Ahead(env, k') <= Ahead(env, k) + |part| + 1)
              && (st'.Below? ==> st'.short <= (if st.Below? then st.short else 0) + 4096)
    ensures part == [] ==> k' == k
    ensures forall j :: 0 <= j < dst.Length && (st.Below? || j >= Ahead(env, k) + |part|) ==> dst[j] == old(dst[j])
    ensures forall j :: env.cap <= j < dst.Length ==> dst[j] == old(dst[j])
  {
    verdict, k', cur', st' := Decide(env, dst, k, cur, part, w, words, parts, st);
    assert st'.Running? ==> Ahead(env, k') <= Ahead(env, k);
    if verdict == Write {
      verdict, k', cur', st' := Finish(env, dst, k', cur, part, st');
    }
  }

  /** The writing of a component, as the end of an iteration. */
  method Finish(env: Setting, dst: array<char>, k: int, cur: int, part: string, ghost low: Outcome)
    returns (verdict: Verdict, k': int, cur': int, ghost st': Outcome)
    requires low.Goes() && Holds(dst, env.cap, k, cur, low) && |part| <= 4095 && |env.slash| == 1 && |env.root| <= 3
    requires env.cap <= dst.Length && (low.Running? ==> k + 4096 < HALF - 4097)
    modifies dst
    ensures cur' == cur + 1 && st' == Append(env, low, part) && verdict != Skip
    ensures verdict == Refuse ==> st' == Refused
    ensures verdict == Stray ==> st' == Astray
    ensures verdict == Write ==>
              && low.Running? && Holds(dst, env.cap, k', cur', st') && st'.Running?
              && Ahead(env, k') <= Ahead(env, k) + |part| + 1
    ensures forall j :: 0 <= j < dst.Length && (low.Below? || j >= Ahead(env, k) + |part|) ==> dst[j] == old(dst[j])
    ensures forall j :: env.cap <= j < dst.Length ==> dst[j] == old(dst[j])
  {
    verdict, k' := WritePart(env, dst, k, cur, part, low);
    cur', st' := cur + 1, Append(env, low, part);
  }

  /** Then the first component is empty. */
  lemma FirstIsEmpty(env: Setting, windows: bool, s: string, start: nat, spans: seq<Span>, inPlace: bool)
    requires Covers(windows, s, start, spans) && Spaced(env, windows, s, start, inPlace)
    ensures inPlace && |env.root| > start ==> spans[0] == Span(start, start)
  {
    assert Whole(windows, s, spans[0]);
  }

  method Iterate(env: Setting, windows: bool, dst: array<char>, src: array<char>, words: array<int>,
                 i: nat, k: int, cur: int,
                 ghost s: string, ghost start: nat, ghost spans: seq<Span>, ghost st: Outcome)
    returns (verdict: Verdict, k': int, cur': int, ghost st': Outcome)
    requires Tabled(env, windows, s, start, spans, words[..]) && i < |spans|
    requires TableMatches(words[..], PartsOf(s, spans))
    requires Before(env, dst, start, spans, i, k, cur, st, dst == src) && Intact(src, s, spans[i].begin)
    requires env.cap <= dst.Length && dst as object != words && Spaced(env, windows, s, start, dst == src)
    modifies dst
    ensures verdict == Refuse ==> Step(env, PartsOf(s, spans), st, PartsOf(s, spans)[i]) == Refused
    ensures verdict == Stray ==> Step(env, PartsOf(s, spans), st, PartsOf(s, spans)[i]) == Astray
    ensures verdict == Skip || verdict == Write ==>
              && Step(env, PartsOf(s, spans), st, PartsOf(s, spans)[i]) == st'
              && Before(env, dst, start, spans, i + 1, k', cur', st', dst == src) && Intact(src, s, Begin(spans, i + 1))
    ensures forall j :: env.cap <= j < dst.Length ==> dst[j] == old(dst[j])
  {
    ghost var parts := PartsOf(s, spans);
    var part := PartAt(env, windows, src, words, i, s, start, spans);
    assert MatchesAt(words[..], parts, i);
    FirstIsEmpty(env, windows, s, start, spans, dst == src);
    verdict, k', cur', st' := Move(env, dst, k, cur, part, words[i + 1], words, parts, st);
  }

  /** The output loop, over `n` words. */
  method Output(env: Setting, windows: bool, dst: array<char>, src: array<char>, words: array<int>, n: nat,
                ghost s: string, ghost start: nat, ghost spans: seq<Span>)
    returns (r: int, stray: bool)
    requires Tabled(env, windows, s, start, spans, words[..]) && n == |spans| + 1 && Intact(src, s, start)
    requires env.cap <= dst.Length && dst[..|env.root|] == env.root
    requires dst as object != words && Spaced(env, windows, s, start, dst == src)
    modifies dst
    ensures Answers(dst, r, stray, After(env, PartsOf(s, spans), |spans|))
    ensures forall j :: env.cap <= j < dst.Length ==> dst[j] == old(dst[j])
  {
    ghost var parts, table := PartsOf(s, spans), words[..];
    BuiltTableMatches(windows, s, start, spans, table);
    var k, cur, i := |env.root|, 0, 0;
    ghost var st := Running(env.root, 0);
    while i < n - 1
      invariant 0 <= i <= |spans| && words[..] == table
      invariant st == After(env, parts, i) && Before(env, dst, start, spans, i, k, cur, st, dst == src)
      invariant i < |spans| ==> Intact(src, s, spans[i].begin)
      invariant forall j :: env.cap <= j < dst.Length ==> dst[j] == old(dst[j])
    {
      var verdict;
      ghost var before := st;
      verdict, k, cur, st := Iterate(env, windows, dst, src, words, i, k, cur, s, start, spans, before);
      i := i + 1;
      if verdict == Refuse || verdict == Stray {
        EndedStays(env, parts, i, |spans|);
        return -1, verdict == Stray;
      }
    }
    return if k >= HALF then k - WORD else k, false;
  }

  /** What is returned for an outcome of the pass; a wrapped index is a negative result. */
  ghost predicate Answers(dst: array<char>, r: int, stray: bool, st: Outcome)
    reads dst
  {
    match st
    case Running(out, _) => !stray && r == |out| <= dst.Length && dst[..r] == out
    case Below(short, _) => !stray && r + short == 0
    case Refused => !stray && r == -1
    case Astray => stray
  }

  // ---- The whole call ----

  function SettingOf(windows: bool, strict: bool, cap: nat, s: string): Setting {
    Setting(RootText(windows, s), Slash(windows), strict, cap)
  }

  function ComponentsOf(windows: bool, s: string): seq<string> {
    PartsOf(s, Spans(windows, s, RootEnd(windows, s)))
  }

  /** The outcome for input that is not passed through and not refused as too large. */
  function Pass(windows: bool, strict: bool, cap: nat, s: string): Outcome {
    var parts := ComponentsOf(windows, s);
    After(SettingOf(windows, strict, cap, s), parts, |parts|)
  }

  /** The input once the root has been written over it. */
  function Overwritten(windows: bool, s: string): (o: string)
    ensures |o| == |s|
  {
    var root := RootText(windows, s);
    if |root| <= |s| then root + s[|root|..] else root[..|s|]
  }

  /** What the table is built from: in place it is overwritten where the root is longer than it was read. */
  function Seen(windows: bool, s: string, inPlace: bool): (o: string)
    ensures |o| == |s|
  {
    if inPlace && |RootText(windows, s)| > RootEnd(windows, s) then Overwritten(windows, s) else s
  }

  function SeenParts(windows: bool, s: string, inPlace: bool): seq<string> {
    var seen := Seen(windows, s, inPlace);
    PartsOf(seen, Spans(windows, seen, RootEnd(windows, s)))
  }

  /** The verbatim copy of device and UNC paths. */
  method CopyThrough(dst: array<char>, cap: nat, src: array<char>, len: nat) returns (r: int)
    requires cap <= dst.Length && len <= src.Length
    modifies dst
    ensures if len > cap then r == -1 else r == len && dst[..len] == old(src[..len])
    ensures forall j :: cap <= j < dst.Length ==> dst[j] == old(dst[j])
  {
    if len > cap {
      return -1;
    }
    if dst != src {
      var _ := Put(dst, 0, src[..len]);
    }
    return len;
  }

  /** Everything after the root. */
  method NormRest(env: Setting, windows: bool, dst: array<char>, src: array<char>, len: nat, start: nat,
                  ghost s: string)
    returns (r: int, stray: bool)
    requires |s| == len && start <= len && Intact(src, s, start) && Spaced(env, windows, s, start, dst == src)
    requires |env.slash| == 1 && |env.root| <= env.cap <= dst.Length && |env.root| <= start + 1 && |env.root| <= 3
    requires dst[..|env.root|] == env.root
    modifies dst
    ensures var parts := PartsOf(s, Spans(windows, s, start));
            if len > 4095 || |parts| > 254 then !stray && r == -1
            else Answers(dst, r, stray, After(env, parts, |parts|))
    ensures forall j :: env.cap <= j < dst.Length ==> dst[j] == old(dst[j])
  {
    if len > 4095 {
      return -1, false;
    }
    var words := new int[255];
    var ok, n := BuildTable(windows, src, len, start, words, s);
    if !ok {
      return -1, false;
    }
    SpansCover(windows, s, start);
    r, stray := Output(env, windows, dst, src, words, n, s, start, Spans(windows, s, start));
  }

  /**
    The call under given rules, for every input and capacity, in place or not. `stray` tells that the code leaves the
    table or the buffer: where the pass goes astray, and for a root of one character, which is written
    without a check of `cap`. In place, a drive that no separator follows loses the character after it.
   */
  method NormAs(dst: array<char>, cap: nat, src: array<char>, len: nat, windows: bool, strict: bool)
    returns (r: int, stray: bool)
    requires cap <= dst.Length && len <= src.Length
    modifies dst
    ensures var s := old(src[..len]);
            var env, parts := SettingOf(windows, strict, cap, s), SeenParts(windows, s, dst == src);
            if Passthrough(windows, s) then !stray && if len > cap then r == -1 else r == len && dst[..r] == s
            else if |env.root| == 1 && cap == 0 then stray
            else if |env.root| > cap || len > 4095 || |parts| > 254 then !stray && r == -1
            else Answers(dst, r, stray, After(env, parts, |parts|))
    ensures forall j :: cap <= j < dst.Length ==> dst[j] == old(dst[j])
  {
    ghost var s := src[..len];
    if windows && len > 2 && src[0] == '\\' && src[1] == '\\' {
      r := CopyThrough(dst, cap, src, len);
      return r, false;
    }
    var env, start := SettingOf(windows, strict, cap, src[..len]), RootEnd(windows, src[..len]);
    if |env.root| > cap {
      return -1, |env.root| == 1;
    }
    WriteRoot(env, windows, dst, src, s);
    r, stray := NormRest(env, windows, dst, src, len, start, Seen(windows, s, dst == src));
  }

  method WriteRoot(env: Setting, windows: bool, dst: array<char>, src: array<char>, ghost s: string)
    requires env.root == RootText(windows, s) && |env.root| <= env.cap <= dst.Length && Intact(src, s, 0)
    modifies dst
    ensures dst[..|env.root|] == env.root && |env.root| <= RootEnd(windows, s) + 1 && |env.root| <= 3
    ensures var seen := Seen(windows, s, dst == src);
            Intact(src, seen, RootEnd(windows, s)) && Spaced(env, windows, seen, RootEnd(windows, s), dst == src)
    ensures forall j :: env.cap <= j < dst.Length ==> dst[j] == old(dst[j])
  {
    RootOver(windows, s, dst == src);
    var _ := Put(dst, 0, env.root);
  }

  lemma RootOver(windows: bool, s: string, inPlace: bool)
    ensures var seen, root, start := Seen(windows, s, inPlace), RootText(windows, s), RootEnd(windows, s);
            && |seen| == |s| && |root| <= start + 1 && |root| <= 3
            && (inPlace && |root| > start && start < |s| ==> IsSep(windows, seen[start]))
            && (forall j :: start <= j < |s| ==> seen[j] == if inPlace && j < |root| then root[j] else s[j])
  {
  }

  const UNIX: bv32 := 1
  const WINDOWS: bv32 := 2
  const STRICT: bv32 := 0x10

  /** The rules that hold: those asked for, those of Windows if both are, or those of the platform. */
  function Rules(flags: bv32, onWindows: bool): (windows: bool)
    ensures flags & 1 == 0 && flags & 2 == 0 ==> windows == onWindows
    ensures flags & 1 != 0 || flags & 2 != 0 ==> windows == (flags & 2 != 0)
  {
    var chosen := if onWindows then WINDOWS else UNIX;
    (if flags & (UNIX | WINDOWS) != 0 then flags else flags | chosen) & WINDOWS != 0
  }

  /** `ffpath_norm` with its flags. */
  method Norm(dst: array<char>, cap: nat, src: array<char>, len: nat, flags: bv32, onWindows: bool)
    returns (r: int, stray: bool)
    requires cap <= dst.Length && len <= src.Length
    modifies dst
    ensures var s, windows, strict := old(src[..len]), Rules(flags, onWindows), flags & 0x10 != 0;
            var env, parts := SettingOf(windows, strict, cap, s), SeenParts(windows, s, dst == src);
            if Passthrough(windows, s) then !stray && if len > cap then r == -1 else r == len && dst[..r] == s
            else if |env.root| == 1 && cap == 0 then stray
            else if |env.root| > cap || len > 4095 || |parts| > 254 then !stray && r == -1
            else Answers(dst, r, stray, After(env, parts, |parts|))
    ensures forall j :: cap <= j < dst.Length ==> dst[j] == old(dst[j])
  {
    r, stray := NormAs(dst, cap, src, len, Rules(flags, onWindows), flags & STRICT != 0);
  }
}
