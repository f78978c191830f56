/** The texts that `ffpath_norm` reads and writes: what they denote, and how a written text is read again. */
module PathNormText {
  import opened PathNorm
  import opened PathNormOutput
  import opened PathNormMethod
  import P = PathSyntax

  /** Where a text leads: its root, and the location its components lead to from there. */
  datatype Meaning = Meaning(root: string, location: P.Location)

  function TextMeaning(windows: bool, s: string): Meaning {
    var root := RootText(windows, s);
    Meaning(root, Walk(From(root != []), ComponentsOf(windows, s)))
  }

  predicate NoSep(windows: bool, s: string) {
    forall i :: 0 <= i < |s| ==> !IsSep(windows, s[i])
  }

  ghost predicate AllNoSep(windows: bool, parts: seq<string>) {
    forall i :: 0 <= i < |parts| ==> NoSep(windows, parts[i])
  }

  // ---- Splitting joined components ----

  lemma {:induction false} JoinCons(x: string, rest: seq<string>, slash: string)
    requires rest != []
    ensures Join([x] + rest, slash) == x + slash + Join(rest, slash)
    decreases |rest|
  {
    var all, init, last := [x] + rest, rest[..|rest| - 1], rest[|rest| - 1];
    assert all[..|all| - 1] == [x] + init && all[|all| - 1] == last;
    if init == [] {
      assert [x] + init == [x];
    } else {
      JoinCons(x, init, slash);
      Regroup(x + slash, Join(init, slash), slash + last);
      Regroup(Join(init, slash), slash, last);
      Regroup(x + slash + Join(init, slash), slash, last);
    }
  }

  lemma Regroup(a: string, b: string, c: string)
    ensures a + b + c == a + (b + c)
  {
  }

  /** The first separator after a part without one is the one that follows it. */
  lemma {:induction false} SepAfter(windows: bool, pre: string, x: string, rest: string, i: nat)
    requires NoSep(windows, x) && i <= |x| && (rest == [] || IsSep(windows, rest[0]))
    ensures SepFrom(windows, pre + x + rest, |pre| + i) == |pre| + |x|
    decreases |x| - i
  {
    var s := pre + x + rest;
    if i < |x| {
      assert s[|pre| + i] == x[i];
      SepAfter(windows, pre, x, rest, i + 1);
    } else {
      assert rest != [] ==> s[|pre| + |x|] == rest[0];
    }
  }

  lemma SlashIsSep(windows: bool)
    ensures |Slash(windows)| == 1 && IsSep(windows, Slash(windows)[0])
  {
  }

  lemma OnePart(windows: bool, pre: string, x: string)
    requires NoSep(windows, x)
    ensures PartsOf(pre + x, Spans(windows, pre + x, |pre|)) == [x]
  {
    SepAfter(windows, pre, x, [], 0);
    assert pre + x + [] == pre + x;
    assert (pre + x)[|pre|..|pre| + |x|] == x;
  }

  lemma FirstSpan(windows: bool, pre: string, x: string, tail: string)
    requires NoSep(windows, x)
    ensures var s := pre + x + Slash(windows) + tail;
            && Spans(windows, s, |pre|) == [Span(|pre|, |pre| + |x|)] + Spans(windows, s, |pre| + |x| + 1)
            && s[|pre|..|pre| + |x|] == x
  {
    SlashIsSep(windows);
    Regroup(pre + x, Slash(windows), tail);
    SepAfter(windows, pre, x, Slash(windows) + tail, 0);
  }

  /** One part is split off, and what follows its separator is split as before. */
  lemma FirstPart(windows: bool, pre: string, x: string, tail: string)
    requires NoSep(windows, x)
    ensures var s := pre + x + Slash(windows) + tail;
            PartsOf(s, Spans(windows, s, |pre|)) == [x] + PartsOf(s, Spans(windows, s, |pre| + |x| + 1))
  {
    var s := pre + x + Slash(windows) + tail;
    FirstSpan(windows, pre, x, tail);
    PartsCons(s, Span(|pre|, |pre| + |x|), Spans(windows, s, |pre| + |x| + 1));
  }

  lemma PartsCons(s: string, first: Span, rest: seq<Span>)
    ensures PartsOf(s, [first] + rest) == [Text(s, first)] + PartsOf(s, rest)
  {
  }

  /** The components of the text from `p` on. */
  predicate Splits(windows: bool, s: string, p: nat, parts: seq<string>) {
    p <= |s| && PartsOf(s, Spans(windows, s, p)) == parts
  }

  lemma SplitCons(windows: bool, pre: string, x: string, rest: seq<string>)
    requires rest != [] && NoSep(windows, x)
    requires Splits(windows, pre + x + Slash(windows) + Join(rest, Slash(windows)), |pre| + |x| + 1, rest)
    ensures Splits(windows, pre + Join([x] + rest, Slash(windows)), |pre|, [x] + rest)
  {
    JoinCons(x, rest, Slash(windows));
    FirstPart(windows, pre, x, Join(rest, Slash(windows)));
    RegroupFour(pre, x, Slash(windows), Join(rest, Slash(windows)));
  }

  /** Joined components, after any text that is not looked at, are split into themselves. */
  lemma {:induction false} SplitJoin(windows: bool, pre: string, parts: seq<string>)
    requires parts != [] && AllNoSep(windows, parts)
    ensures Splits(windows, pre + Join(parts, Slash(windows)), |pre|, parts)
    decreases |parts|
  {
    var x, rest := parts[0], parts[1..];
    assert parts == [x] + rest;
    if rest == [] {
      OnePart(windows, pre, x);
    } else {
      SplitJoin(windows, pre + x + Slash(windows), rest);
      SlashIsSep(windows);
      SplitCons(windows, pre, x, rest);
    }
  }

  lemma RegroupFour(a: string, b: string, c: string, d: string)
    ensures a + (b + c + d) == a + b + c + d
  {
  }

  // ---- Components have no separator ----

  lemma ComponentsNoSep(windows: bool, s: string)
    ensures AllNoSep(windows, ComponentsOf(windows, s))
  {
    var start := RootEnd(windows, s);
    var spans := Spans(windows, s, start);
    SpansCover(windows, s, start);
    forall i | 0 <= i < |spans|
      ensures NoSep(windows, Text(s, spans[i]))
    {
      assert Whole(windows, s, spans[i]);
    }
  }

  lemma {:induction false} StackNoSep(windows: bool, rooted: bool, parts: seq<string>)
    requires AllNoSep(windows, parts)
    ensures AllNoSep(windows, PushAll(rooted, [], parts))
    decreases |parts|
  {
    if parts != [] {
      StackNoSep(windows, rooted, parts[..|parts| - 1]);
    }
  }

  // ---- A written text, read again ----

  /** A name that is read as a drive when a text starts with it. */
  predicate DriveName(name: string) {
    |name| >= 2 && IsLetter(name[0]) && name[1] == ':'
  }

  /** The text of a stack starts with a root exactly if its first name is read as a drive. */
  lemma JoinedRoot(windows: bool, stack: seq<string>)
    requires AllNoSep(windows, stack) && (stack != [] ==> stack[0] != "")
    ensures RootText(windows, Join(stack, Slash(windows))) == [] <==>
            stack == [] || !(windows && DriveName(stack[0]))
  {
    if stack != [] {
      var x, slash := stack[0], Slash(windows);
      SlashIsSep(windows);
      var text := Join(stack, slash);
      if |stack| > 1 {
        assert stack == [x] + stack[1..];
        JoinCons(x, stack[1..], slash);
        assert text[|x|] == slash[0];
      }
      assert forall i :: 0 <= i < |x| ==> text[i] == x[i];
    }
  }

  /** Reading the text of a stack under a root that is kept: the stack, or one empty component. */
  lemma ReadAgain(windows: bool, s: string, stack: seq<string>)
    requires AllNoSep(windows, stack)
    requires RootText(windows, s) == [] ==> RootText(windows, Join(stack, Slash(windows))) == []
    ensures var out := RootText(windows, s) + Join(stack, Slash(windows));
            && RootText(windows, out) == RootText(windows, s)
            && ComponentsOf(windows, out) == if stack == [] then [""] else stack
  {
    var root := RootText(windows, s);
    RootIsStable(windows, s, Join(stack, Slash(windows)));
    if stack == [] {
      OnePart(windows, root, "");
      assert root + "" == root == root + Join(stack, Slash(windows));
    } else {
      SplitJoin(windows, root, stack);
    }
  }

  /** The text of a stack denotes what the stack does, exactly unless its first name is read as a drive. */
  lemma WrittenMeaning(windows: bool, s: string, stack: seq<string>)
    requires AllNoSep(windows, stack) && Shaped(RootText(windows, s) != [], stack)
    ensures var root := RootText(windows, s);
            TextMeaning(windows, root + Join(stack, Slash(windows))) == Meaning(root, Walk(From(root != []), stack))
            <==> root != [] || stack == [] || !(windows && DriveName(stack[0]))
  {
    var root := RootText(windows, s);
    assert root == [] ==> root + Join(stack, Slash(windows)) == Join(stack, Slash(windows));
    if root == [] {
      assert stack != [] ==> KindOf(stack[0]) != Empty;
      JoinedRoot(windows, stack);
    }
    if root != [] || RootText(windows, Join(stack, Slash(windows))) == [] {
      ReadAgain(windows, s, stack);
      if stack == [] {
        EmptyLeadsNowhere(From(root != []));
      }
    }
  }

  lemma EmptyLeadsNowhere(loc: P.Location)
    ensures Walk(loc, [""]) == Walk(loc, [])
  {
    assert [""][..0] == [];
  }

  /** Any components that do not start with a root are those of their text. */
  lemma TextOfParts(windows: bool, parts: seq<string>)
    requires AllNoSep(windows, parts) && parts != [] && parts[0] != "" && !(windows && DriveName(parts[0]))
    ensures var s := Join(parts, Slash(windows)); RootText(windows, s) == [] && ComponentsOf(windows, s) == parts
  {
    var s := Join(parts, Slash(windows));
    JoinedRoot(windows, parts);
    ReadAgain(windows, s, parts);
    assert [] + s == s;
  }
}
