/**
  `ffpath_norm`: a table of the components of the input, packed into 16-bit words, and an output
  pass that walks back over that table to remove a component.
 */
module PathNorm {

  predicate IsSep(windows: bool, c: char) {
    c == '/' || (windows && c == '\\')
  }

  function Slash(windows: bool): string {
    if windows then "\\" else "/"
  }

  predicate IsLetter(c: char) {
    'A' <= c <= 'Z' || 'a' <= c <= 'z'
  }

  function Upper(c: char): char
    requires IsLetter(c)
  {
    if 'a' <= c then (c as int - 32) as char else c
  }

  /** The root as it is written. */
  function RootText(windows: bool, s: string): string {
    if windows && |s| >= 2 && IsLetter(s[0]) && s[1] == ':' then [Upper(s[0]), ':', '\\']
    else if s != [] && IsSep(windows, s[0]) then Slash(windows)
    else []
  }

  /** Where the components start. */
  function RootEnd(windows: bool, s: string): (p: nat)
    ensures p <= |s|
  {
    if windows && |s| >= 2 && IsLetter(s[0]) && s[1] == ':' then
      if |s| >= 3 && IsSep(windows, s[2]) then 3 else 2
    else if s != [] && IsSep(windows, s[0]) then 1
    else 0
  }

  /** A root that was written is read back as the same root, whatever follows it. */
  lemma RootIsStable(windows: bool, s: string, rest: string)
    requires RootText(windows, s) == [] ==> RootText(windows, rest) == []
    ensures var out := RootText(windows, s) + rest;
            RootText(windows, out) == RootText(windows, s) && RootEnd(windows, out) == |RootText(windows, s)|
  {
  }

  predicate Passthrough(windows: bool, s: string) {
    windows && |s| > 2 && s[0] == '\\' && s[1] == '\\'
  }

  /** The first separator at or after `p`, or the end of the text. */
  function SepFrom(windows: bool, s: string, p: nat): (e: nat)
    requires p <= |s|
    ensures p <= e <= |s|
    ensures forall i :: p <= i < e ==> !IsSep(windows, s[i])
    ensures e < |s| ==> IsSep(windows, s[e])
    decreases |s| - p
  {
    if p == |s| || IsSep(windows, s[p]) then p else SepFrom(windows, s, p + 1)
  }

  /** A component: the text between two separators. */
  datatype Span = Span(begin: nat, end: nat)

  /** The components from `p` on; there is always at least one. */
  function Spans(windows: bool, s: string, p: nat): (spans: seq<Span>)
    requires p <= |s|
    ensures spans != []
    decreases |s| - p
  {
    var e := SepFrom(windows, s, p);
    if e == |s| then [Span(p, e)] else [Span(p, e)] + Spans(windows, s, e + 1)
  }

  /** No separator inside. */
  ghost predicate Whole(windows: bool, s: string, span: Span) {
    span.begin <= span.end <= |s| && forall j :: span.begin <= j < span.end ==> !IsSep(windows, s[j])
  }

  /** One separator between. */
  predicate Adjacent(windows: bool, s: string, a: Span, b: Span) {
    a.end < |s| && IsSep(windows, s[a.end]) && b.begin == a.end + 1
  }

  /** The components cover the text from `p` on. */
  ghost predicate Covers(windows: bool, s: string, p: nat, spans: seq<Span>) {
    && spans != [] && spans[0].begin == p && spans[|spans| - 1].end == |s|
    && (forall i :: 0 <= i < |spans| ==> Whole(windows, s, spans[i]))
    && (forall i :: 0 < i < |spans| ==> Adjacent(windows, s, spans[i - 1], spans[i]))
  }

  lemma CoversCons(windows: bool, s: string, first: Span, rest: seq<Span>)
    requires Whole(windows, s, first) && Covers(windows, s, first.end + 1, rest)
    requires first.end < |s| && IsSep(windows, s[first.end])
    ensures Covers(windows, s, first.begin, [first] + rest)
  {
  }

  lemma {:induction false} SpansCover(windows: bool, s: string, p: nat)
    requires p <= |s|
    ensures Covers(windows, s, p, Spans(windows, s, p))
    decreases |s| - p
  {
    var e := SepFrom(windows, s, p);
    assert Whole(windows, s, Span(p, e));
    if e < |s| {
      SpansCover(windows, s, e + 1);
      CoversCons(windows, s, Span(p, e), Spans(windows, s, e + 1));
    }
  }

  function Text(s: string, span: Span): string {
    if span.begin <= span.end <= |s| then s[span.begin..span.end] else []
  }

  // ---- The table ----

  const DOT := 0x1000
  const DOT_DOT := 0x2000
  const OFFSET := 0x1000

  function Flag(part: string): int {
    if part == "." then DOT else if part == ".." then DOT_DOT else 0
  }

  /** The `i`-th word: the end of the component before, and what that component is. */
  function TableWord(s: string, start: nat, spans: seq<Span>, i: nat): int
    requires i <= |spans|
  {
    if i == 0 then start else Flag(Text(s, spans[i - 1])) + spans[i - 1].end
  }

  /** The first `n` words of the table. */
  function Table(s: string, start: nat, spans: seq<Span>, n: nat): seq<int>
    requires n <= |spans| + 1
  {
    seq(n, i requires 0 <= i < n => TableWord(s, start, spans, i))
  }

  function OffsetIn(w: int): int {
    w % OFFSET
  }

  predicate IsDot(w: int) {
    w / DOT % 2 == 1
  }

  predicate IsDotDot(w: int) {
    w / DOT_DOT % 2 == 1
  }

  /** Offsets fit into the 12 bits below the flags, for every input that is not refused as too long. */
  lemma WordParts(part: string, end: nat)
    requires end <= 4095
    ensures var w := Flag(part) + end;
            && 0 <= w < 0x1_0000 && OffsetIn(w) == end
            && (IsDot(w) <==> part == ".") && (IsDotDot(w) <==> part == "..")
  {
  }

  /** The part of the input from `p` on has not been written over. */
  ghost predicate Intact(src: array<char>, s: string, p: nat)
    reads src
  {
    |s| <= src.Length && forall i :: p <= i < |s| ==> src[i] == s[i]
  }

  /** The search for the end of a component. */
  method FindSep(windows: bool, src: array<char>, p: nat, len: nat, ghost s: string) returns (e: nat)
    requires p <= len == |s| && Intact(src, s, p)
    ensures e == SepFrom(windows, s, p)
  {
    e := p;
    while e < len && !IsSep(windows, src[e])
      invariant p <= e <= len && SepFrom(windows, s, e) == SepFrom(windows, s, p)
    {
      e := e + 1;
    }
  }

  method Classify(src: array<char>, p: nat, e: nat, ghost s: string) returns (f: int)
    requires p <= e <= |s| && Intact(src, s, p)
    ensures f == Flag(s[p..e])
  {
    ghost var part := s[p..e];
    if e == p + 1 && src[p] == '.' {
      assert part == ".";
      return DOT;
    } else if e == p + 2 && src[p] == '.' && src[p + 1] == '.' {
      assert part == "..";
      return DOT_DOT;
    }
    return 0;
  }

  lemma NextSpan(windows: bool, s: string, p: nat, spans: seq<Span>, n: nat)
    requires p <= |s| && 1 <= n <= |spans| && spans[n - 1..] == Spans(windows, s, p)
    ensures var e := SepFrom(windows, s, p);
            && spans[n - 1] == Span(p, e) && Text(s, spans[n - 1]) == s[p..e]
            && (e == |s| <==> n == |spans|)
            && (e < |s| ==> n < |spans| && spans[n..] == Spans(windows, s, e + 1))
  {
    assert spans[n - 1] == spans[n - 1..][0];
    assert spans[n..] == spans[n - 1..][1..];
  }

  /** One more word of the table. */
  method AddWord(src: array<char>, p: nat, e: nat, parts: array<int>, n: nat,
                 ghost s: string, ghost start: nat, ghost spans: seq<Span>)
    requires p <= e <= |s| && Intact(src, s, p) && 1 <= n < parts.Length && n <= |spans|
    requires parts[..n] == Table(s, start, spans, n) && spans[n - 1] == Span(p, e)
    modifies parts
    ensures parts[..n + 1] == Table(s, start, spans, n + 1)
  {
    var f := Classify(src, p, e, s);
    parts[n] := f + e;
    assert parts[..n + 1] == parts[..n] + [f + e];
  }

  /** The table loop: fails exactly when there are more than 254 components. */
  method BuildTable(windows: bool, src: array<char>, len: nat, start: nat, parts: array<int>, ghost s: string)
    returns (ok: bool, n: nat)
    requires start <= len == |s| && Intact(src, s, start) && parts.Length == 255 && src as object != parts
    modifies parts
    ensures var spans := Spans(windows, s, start);
            && ok == (|spans| <= 254)
            && (ok ==> n == |spans| + 1 && parts[..n] == Table(s, start, spans, n))
  {
    ghost var spans := Spans(windows, s, start);
    parts[0] := start;
    n := 1;
    var p := start;
    assert parts[..1] == Table(s, start, spans, 1);
    while p <= len
      invariant start <= p && 1 <= n <= 255 && n <= |spans| + 1 && p <= len + 1 && (p > len <==> n == |spans| + 1)
      invariant p <= len ==> spans[n - 1..] == Spans(windows, s, p)
      invariant parts[..n] == Table(s, start, spans, n)
      decreases len - p
    {
      var e := FindSep(windows, src, p, len, s);
      NextSpan(windows, s, p, spans, n);
      if n == 255 {
        return false, n;
      }
      AddWord(src, p, e, parts, n, s, start, spans);
      n := n + 1;
      p := e + 1;
    }
    return true, n;
  }
}
