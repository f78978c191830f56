/**
  What `ffpath_normalize` guarantees about the paths it writes: the location is
  preserved, the result is the canonical text of that location, the results are
  exactly the fixed points, and a simplified path is the rooted path without its root.
 */
module PathTheorems {
  import opened PathSyntax
  import opened PathNormalize

  // ---- Location ----

  lemma {:induction false} WalkCons(loc: Location, c: Component, rest: seq<Component>)
    ensures Walk(loc, [c] + rest) == Walk(Enter(loc, c.name), rest)
    decreases |rest|
  {
    if rest == [] {
      assert [c] + rest == [] + [c];
      WalkAppend(loc, [], c);
    } else {
      var init, last := rest[..|rest| - 1], rest[|rest| - 1];
      WalkCons(loc, c, init);
      assert [c] + rest == ([c] + init) + [last];
      WalkAppend(loc, [c] + init, last);
    }
  }

  lemma PushEnters(cfg: Config, items: seq<Component>, c: Component)
    requires !cfg.simple && Normal(cfg, items)
    ensures LocationOf(Push(cfg, items, c)) == Enter(LocationOf(items), c.name)
  {
    if c.name == "" || c.name == "." {
    } else if c.name != ".." {
      LocationAppend(items, c);
    } else if items == [] {
      LocationAppend([], c);
      assert [] + [c] == [c];
    } else {
      PopEnters(cfg, items, c);
    }
  }

  lemma PopEnters(cfg: Config, items: seq<Component>, c: Component)
    requires !cfg.simple && Normal(cfg, items) && items != [] && c.name == ".."
    ensures LocationOf(Push(cfg, items, c)) == Enter(LocationOf(items), "..")
  {
    var init, top := items[..|items| - 1], items[|items| - 1];
    assert items == init + [top];
    if top.name == ".." {
      LocationAppend(items, c);
    } else if Plain(top.name) {
      assert Push(cfg, items, c) == init;
      PlainPops(init, top);
    } else {
      assert items == [top];
      FrontMarker(top, c);
    }
  }

  lemma PlainPops(init: seq<Component>, top: Component)
    requires Plain(top.name)
    ensures Enter(LocationOf(init + [top]), "..") == LocationOf(init)
  {
    LocationAppend(init, top);
    LeaveWhatWasEntered(LocationOf(init), top.name);
  }

  /** The root absorbs "..", and a leading "." gives way to it. */
  lemma FrontMarker(top: Component, c: Component)
    requires top.name == "" || top.name == "."
    requires c.name == ".."
    ensures top.name == "" ==> LocationOf([top]) == Enter(LocationOf([top]), "..")
    ensures top.name == "." ==> LocationOf([c]) == Enter(LocationOf([top]), "..")
  {
    WalkCons(Start([top]), top, []);
    WalkCons(Start([c]), c, []);
  }

  lemma {:induction false} PushAllWalks(cfg: Config, items: seq<Component>, input: seq<Component>)
    requires !cfg.simple && WritesSeparators(cfg)
    requires Normal(cfg, items) && AllClosed(cfg, items) && WellFormed(cfg, input)
    ensures LocationOf(PushAll(cfg, items, input)) == Walk(LocationOf(items), input)
    decreases |input|
  {
    if input != [] {
      var c, rest := input[0], input[1..];
      var w := Written(cfg, c);
      assert input == [c] + rest;
      WalkCons(LocationOf(items), c, rest);
      PushEnters(cfg, items, w);
      PushKeepsNormal(cfg, items, c);
      if rest == [] {
      } else {
        assert Closed(cfg, c);
        assert WellFormed(cfg, rest) by {
          assert forall i :: 0 <= i < |rest| ==> rest[i] == input[i + 1];
        }
        PushAllWalks(cfg, Push(cfg, items, w), rest);
      }
    }
  }

  /** A normalized path denotes the same location, and is absolute exactly when the input is. */
  lemma MeaningPreserved(cfg: Config, s: string)
    requires !cfg.disk && !cfg.simple && WritesSeparators(cfg)
    ensures Meaning(cfg, Normalized(cfg, s)) == Meaning(cfg, s)
  {
    ParseIsWellFormed(cfg, s);
    NormalizedIsStack(cfg, s);
    ParseOfText(cfg, Stack(cfg, Parse(cfg, s)));
    if s != [] {
      StackKeepsLocation(cfg, Head(cfg, s), Parse(cfg, Tail(cfg, s)));
    }
  }

  lemma StackKeepsLocation(cfg: Config, c: Component, rest: seq<Component>)
    requires !cfg.simple && WritesSeparators(cfg) && WellFormed(cfg, [c] + rest)
    ensures LocationOf(Stack(cfg, [c] + rest)) == LocationOf([c] + rest)
  {
    var input := [c] + rest;
    var w := Written(cfg, c);
    assert input[1..] == rest;
    WalkCons(Start(input), c, rest);
    WalkAppend(Start(input), [], w);
    assert [] + [w] == [w];
    assert input[0] == c;
    if rest == [] {
    } else {
      assert Closed(cfg, c);
      assert WellFormed(cfg, rest) by {
        assert forall i :: 0 <= i < |rest| ==> rest[i] == input[i + 1];
      }
      PushAllWalks(cfg, [w], rest);
    }
  }

  lemma RunCons(cfg: Config, st: State, c: Component, tail: string)
    requires Closed(cfg, c) || (Open(cfg, c) && tail == [])
    ensures Run(cfg, st, c.name + c.term + tail) == Run(cfg, Step(cfg, st, Written(cfg, c)), tail)
  {
    ParseCons(cfg, c, tail);
  }

  lemma MeaningOfOne(cfg: Config, name: string)
    requires NoSep(cfg, name) && Plain(name)
    ensures Meaning(cfg, name) == Rel(0, [name])
  {
    var c := Component(name, "");
    ParseCons(cfg, c, "");
    assert name + "" + "" == name;
    WalkCons(Rel(0, []), c, []);
  }

  lemma MeaningOfTwo(cfg: Config, x: string, y: string)
    requires NoSep(cfg, x) && Plain(x) && NoSep(cfg, y) && Plain(y)
    ensures Meaning(cfg, x + "/" + y) == Rel(0, [x, y])
  {
    var a, b := Component(x, "/"), Component(y, "");
    ParseCons(cfg, a, y);
    ParseCons(cfg, b, "");
    assert y + "" + "" == y;
    WalkCons(Rel(0, []), a, [b]);
    WalkCons(Rel(0, [x]), b, []);
  }

  /** On the one combination of flags that writes a character that does not split, every two-name path is misread. */
  lemma UnsplittableSeparator(cfg: Config, x: string, y: string)
    requires !cfg.disk && !cfg.simple && !WritesSeparators(cfg)
    requires NoSep(cfg, x) && Plain(x) && NoSep(cfg, y) && Plain(y)
    ensures Normalized(cfg, x + "/" + y) == x + "\\" + y
    ensures Meaning(cfg, x + "/" + y) == Rel(0, [x, y])
    ensures Meaning(cfg, x + "\\" + y) == Rel(0, [x + "\\" + y])
  {
    MeaningOfTwo(cfg, x, y);
    assert x + "\\" + y != ".." by { assert (x + "\\" + y)[|x|] == '\\'; }
    MeaningOfOne(cfg, x + "\\" + y);
    var a, b := Component(x, "/"), Component(y, "");
    var out := x + "\\";
    RunCons(cfg, Initial(cfg), a, y);
    assert [] + x + "\\" == out;
    assert y + "" + "" == y;
    RunCons(cfg, State(out, true, false), b, "");
    assert out + y + "" == out + y;
  }

  /** Locations are preserved for every input exactly when the written separator splits. */
  lemma MeaningPreservedIff(cfg: Config)
    requires !cfg.disk && !cfg.simple
    ensures (forall s :: Meaning(cfg, Normalized(cfg, s)) == Meaning(cfg, s)) <==> WritesSeparators(cfg)
  {
    if WritesSeparators(cfg) {
      forall s
        ensures Meaning(cfg, Normalized(cfg, s)) == Meaning(cfg, s)
      {
        MeaningPreserved(cfg, s);
      }
    } else {
      UnsplittableSeparator(cfg, "a", "b");
      var s := "a" + "/" + "b";
      assert Meaning(cfg, Normalized(cfg, s)) != Meaning(cfg, s);
    }
  }

  // ---- Canonical text ----

  function NamesOf(items: seq<Component>): seq<string> {
    seq(|items|, i requires 0 <= i < |items| => items[i].name)
  }

  /** The names of a path, without the leading "." that is allowed to stay. */
  function Core(items: seq<Component>): seq<string> {
    NamesOf(if items != [] && items[0].name == "." then items[1..] else items)
  }

  lemma {:induction false} AllUps(cfg: Config, items: seq<Component>, i: nat)
    requires Normal(cfg, items) && items != [] && items[|items| - 1].name == ".." && i < |items|
    ensures items[i].name == ".."
    decreases |items| - i
  {
    if i < |items| - 1 {
      AllUps(cfg, items, i + 1);
    }
  }

  lemma {:induction false} WalkUps(items: seq<Component>)
    requires forall i :: 0 <= i < |items| ==> items[i].name == ".."
    ensures Walk(Rel(0, []), items) == Rel(|items|, [])
    decreases |items|
  {
    if items != [] {
      WalkUps(items[..|items| - 1]);
    }
  }

  lemma CoreAppend(items: seq<Component>, c: Component)
    requires items != []
    ensures Core(items + [c]) == Core(items) + [c.name]
  {
  }

  lemma NamesEnter(loc: Location, name: string)
    requires Plain(name)
    ensures Names(Enter(loc, name)) == Names(loc) + [name]
  {
    match loc
    case Abs(stack) => assert [""] + (stack + [name]) == [""] + stack + [name];
    case Rel(ups, stack) => assert seq(ups, _ => "..") + (stack + [name]) == seq(ups, _ => "..") + stack + [name];
  }

  lemma UpsAreCanonical(cfg: Config, items: seq<Component>)
    requires Normal(cfg, items) && items != [] && items[|items| - 1].name == ".."
    ensures Core(items) == Names(LocationOf(items))
  {
    forall i | 0 <= i < |items| ensures items[i].name == ".." { AllUps(cfg, items, i); }
    WalkUps(items);
    assert NamesOf(items) == seq(|items|, _ => "..") + [];
  }

  lemma OneIsCanonical(c: Component)
    requires c.name != ".."
    ensures Core([c]) == Names(LocationOf([c]))
  {
    WalkAppend(Start([c]), [], c);
    assert [] + [c] == [c];
    assert NamesOf([c]) == [c.name];
    assert [c][1..] == [];
    assert c.name == "" ==> [""] + [] == [c.name];
  }

  lemma NormalPrefix(cfg: Config, items: seq<Component>, n: nat)
    requires Normal(cfg, items) && n <= |items|
    ensures Normal(cfg, items[..n])
  {
  }

  lemma {:induction false} NormalIsCanonical(cfg: Config, items: seq<Component>)
    requires Normal(cfg, items)
    ensures Core(items) == Names(LocationOf(items))
    decreases |items|
  {
    if items == [] {
    } else if items[|items| - 1].name == ".." {
      UpsAreCanonical(cfg, items);
    } else if |items| == 1 {
      OneIsCanonical(items[0]);
      assert items == [items[0]];
    } else {
      var init, top := items[..|items| - 1], items[|items| - 1];
      assert items == init + [top];
      NormalPrefix(cfg, items, |items| - 1);
      NormalIsCanonical(cfg, init);
      LocationAppend(init, top);
      CoreAppend(init, top);
      NamesEnter(LocationOf(init), top.name);
    }
  }

  /** The names of the normalized text, without a leading ".", are those of the location that the input denotes. */
  lemma NormalizedIsCanonical(cfg: Config, s: string)
    requires !cfg.disk && !cfg.simple && WritesSeparators(cfg)
    ensures Core(Parse(cfg, Normalized(cfg, s))) == Names(Meaning(cfg, s))
  {
    MeaningPreserved(cfg, s);
    NormalizedIsNormalForm(cfg, s);
    NormalIsCanonical(cfg, Parse(cfg, Normalized(cfg, s)));
  }

  lemma NamesAppend(items: seq<Component>, c: Component)
    ensures NamesOf(items + [c]) == NamesOf(items) + [c.name]
  {
  }

  /** How many names a location has after a step, and which, if there is one more. */
  lemma NamesAfter(loc: Location, name: string)
    ensures |Names(Enter(loc, name))| <= |Names(loc)| + 1
    ensures |Names(Enter(loc, name))| == |Names(loc)| + 1 ==> Names(Enter(loc, name)) == Names(loc) + [name]
  {
    if Plain(name) {
      NamesEnter(loc, name);
    } else if name == ".." && loc.Rel? && loc.stack == [] {
      assert Names(Rel(loc.ups + 1, [])) == Names(loc) + [name];
    }
  }

  /** No list of names that leads to a location is shorter than `Names`, and no other one is as short. */
  lemma {:induction false} Shortest(items: seq<Component>)
    ensures |Names(LocationOf(items))| <= |items|
    ensures |Names(LocationOf(items))| == |items| ==> NamesOf(items) == Names(LocationOf(items))
    decreases |items|
  {
    if items != [] {
      var init, last := items[..|items| - 1], items[|items| - 1];
      assert items == init + [last];
      if init == [] && last.name == "" {
        OneIsCanonical(last);
      } else {
        Shortest(init);
        LocationAppend(init, last);
        NamesAfter(LocationOf(init), last.name);
        NamesAppend(init, last);
      }
    }
  }

  /**
    Among all texts for the same location the normalized one has the fewest names, not counting a
    leading ".", and any text with no more names has the same ones.
   */
  lemma NormalizedIsShortest(cfg: Config, s: string, other: string)
    requires !cfg.disk && !cfg.simple && WritesSeparators(cfg) && Meaning(cfg, other) == Meaning(cfg, s)
    ensures var core, items := Core(Parse(cfg, Normalized(cfg, s))), Parse(cfg, other);
            |core| <= |items| && (|core| == |items| ==> NamesOf(items) == core)
  {
    NormalizedIsCanonical(cfg, s);
    Shortest(Parse(cfg, other));
  }

  // ---- Normal form and fixed points ----

  lemma NormalizedIsNormalForm(cfg: Config, s: string)
    requires !cfg.disk && WritesSeparators(cfg)
    ensures NormalForm(cfg, Normalized(cfg, s))
  {
    NormalizedIsStack(cfg, s);
    ParseOfText(cfg, Stack(cfg, Parse(cfg, s)));
  }

  lemma {:induction false} PushAllOfNormal(cfg: Config, done: seq<Component>, rest: seq<Component>)
    requires Normal(cfg, done + rest) && AllClosed(cfg, done)
    requires done == [] ==> cfg.simple
    ensures PushAll(cfg, done, rest) == done + rest
    decreases |rest|
  {
    if rest == [] {
      assert done + rest == done;
    } else {
      var c := rest[0];
      assert (done + rest)[|done|] == c;
      assert Written(cfg, c) == c;
      assert done != [] ==> (done + rest)[|done| - 1] == done[|done| - 1];
      assert Push(cfg, done, c) == done + [c];
      assert done + rest == (done + [c]) + rest[1..];
      if |rest| == 1 {
        assert rest[1..] == [];
      } else {
        assert Closed(cfg, c);
        PushAllOfNormal(cfg, done + [c], rest[1..]);
      }
    }
  }

  /** The normal forms are exactly the texts that normalizing leaves alone; this includes simplified paths. */
  lemma FixedPoints(cfg: Config, s: string)
    requires !cfg.disk && WritesSeparators(cfg)
    ensures Normalized(cfg, s) == s <==> NormalForm(cfg, s)
  {
    NormalizedIsNormalForm(cfg, s);
    if NormalForm(cfg, s) {
      var items := Parse(cfg, s);
      NormalizedIsStack(cfg, s);
      TextOfParse(cfg, s);
      if cfg.simple || items == [] {
        assert [] + items == items;
        if items != [] {
          PushAllOfNormal(cfg, [], items);
        }
      } else {
        assert [items[0]] + items[1..] == items;
        assert Written(cfg, items[0]) == items[0];
        if |items| > 1 {
          PushAllOfNormal(cfg, [items[0]], items[1..]);
        }
      }
    }
  }

  lemma Idempotent(cfg: Config, s: string)
    requires !cfg.disk
    ensures Normalized(cfg, Normalized(cfg, s)) == Normalized(cfg, s)
  {
    if WritesSeparators(cfg) {
      NormalizedIsNormalForm(cfg, s);
      FixedPoints(cfg, Normalized(cfg, s));
    } else {
      RunUnsplit(cfg, Initial(cfg), s);
      SingleStays(cfg, Normalized(cfg, s));
    }
  }

  /** Nothing in the text splits; if it is simplified, the text but its last character is no "." or "..". */
  ghost predicate Unsplit(cfg: Config, st: State) {
    NoSep(cfg, st.out) && (cfg.simple ==> st.simplify && (st.out == [] || Plain(st.out[..|st.out| - 1])))
  }

  /** Where the written separator does not split, the output is a single component, and no "." or ".." if simplified. */
  lemma {:induction false} RunUnsplit(cfg: Config, st: State, s: string)
    requires !cfg.disk && !WritesSeparators(cfg) && Unsplit(cfg, st)
    ensures var out := Run(cfg, st, s).out; NoSep(cfg, out) && (cfg.simple ==> out == [] || Plain(out))
    decreases |s|
  {
    if s != [] {
      StepUnsplit(cfg, st, Written(cfg, Head(cfg, s)));
      if Tail(cfg, s) != [] {
        RunUnsplit(cfg, Next(cfg, st, s), Tail(cfg, s));
      }
    }
  }

  lemma StepUnsplit(cfg: Config, st: State, c: Component)
    requires !cfg.disk && !WritesSeparators(cfg) && Unsplit(cfg, st)
    requires NoSep(cfg, c.name) && NoSep(cfg, c.term) && |c.term| <= 1
    ensures var st' := Step(cfg, st, c);
            && NoSep(cfg, st'.out) && (c.term != [] ==> Unsplit(cfg, st'))
            && (cfg.simple ==> st'.out == [] || Plain(st'.out))
  {
    if c.name == ".." {
      UnsplitUp(cfg, st.out);
    } else if cfg.simple && Plain(c.name) {
      UnsplitPush(st.out, c.name, c.term);
    }
  }

  lemma UnsplitPush(out: string, name: string, term: string)
    requires Plain(name) && |term| <= 1 && (out == [] || Plain(out[..|out| - 1]))
    ensures var out' := out + name + term;
            Plain(out') && (term != [] ==> Plain(out'[..|out'| - 1]))
  {
    var out', before := out + name + term, out + name;
    assert term != [] ==> out'[..|out'| - 1] == before;
    assert out == [] ==> before == name;
    assert term == [] ==> out' == before;
    assert |out| + |name| >= 3 || out == [];
  }

  /** With nothing to split at, ".." removes everything or nothing. */
  lemma UnsplitUp(cfg: Config, out: string)
    requires !cfg.disk && !WritesSeparators(cfg) && NoSep(cfg, out)
    ensures AtDotDot(cfg, out).out == out || AtDotDot(cfg, out).out == []
    ensures cfg.simple && (out == [] || Plain(out[..|out| - 1])) ==>
              AtDotDot(cfg, out).Drop? && (out == [] || Plain(out))
  {
    if out != [] {
      var prev := out[..|out| - 1];
      assert LastSep(cfg, prev) < 0;
      assert out[0..|out| - 1] == prev;
    }
  }

  /** A text that is one component stays. */
  lemma SingleStays(cfg: Config, t: string)
    requires !cfg.disk && NoSep(cfg, t) && (cfg.simple ==> t == [] || Plain(t))
    ensures Normalized(cfg, t) == t
  {
    if t != [] {
      RunCons(cfg, Initial(cfg), Component(t, []), []);
      assert t + [] + [] == t && [] + t + [] == t;
    }
  }

  // ---- Where the output comes from ----

  ghost predicate IsWritten(cfg: Config, input: seq<Component>, c: Component) {
    exists i :: 0 <= i < |input| && c == Written(cfg, input[i])
  }

  lemma {:induction false} PushAllWrites(cfg: Config, items: seq<Component>, rest: seq<Component>,
                                         input: seq<Component>)
    requires forall c :: c in items ==> IsWritten(cfg, input, c)
    requires forall i :: 0 <= i < |rest| ==> rest[i] in input
    ensures forall c :: c in PushAll(cfg, items, rest) ==> IsWritten(cfg, input, c)
    decreases |rest|
  {
    if rest != [] {
      assert rest[0] in input;
      assert IsWritten(cfg, input, Written(cfg, rest[0]));
      PushAllWrites(cfg, Push(cfg, items, Written(cfg, rest[0])), rest[1..], input);
    }
  }

  /** Every component of the output is one of the input, with its separator read or replaced as the flags ask. */
  lemma ComponentsComeFromInput(cfg: Config, s: string)
    requires !cfg.disk && WritesSeparators(cfg)
    ensures forall c :: c in Parse(cfg, Normalized(cfg, s)) ==> IsWritten(cfg, Parse(cfg, s), c)
  {
    var input := Parse(cfg, s);
    NormalizedIsStack(cfg, s);
    ParseOfText(cfg, Stack(cfg, input));
    if cfg.simple || input == [] {
      PushAllWrites(cfg, [], input, input);
    } else {
      assert IsWritten(cfg, input, Written(cfg, input[0]));
      PushAllWrites(cfg, [Written(cfg, input[0])], input[1..], input);
    }
  }

  /** Without forcing, the components are those of the input, each with the separator it had. */
  lemma SeparatorsAreKept(cfg: Config, s: string)
    requires !cfg.disk && cfg.force == AsRead
    ensures forall c :: c in Parse(cfg, Normalized(cfg, s)) ==> c in Parse(cfg, s)
  {
    var input := Parse(cfg, s);
    ComponentsComeFromInput(cfg, s);
    ParseIsWellFormed(cfg, s);
    assert forall i :: 0 <= i < |input| ==> Written(cfg, input[i]) == input[i];
  }

  /** With forcing, every separator in the output is the one that the flags name. */
  lemma SeparatorsAreForced(flags: bv32, windows: bool, s: string, c: Component)
    requires var cfg := Decode(flags, windows);
             !cfg.disk && WritesSeparators(cfg) && c in Parse(cfg, Normalized(cfg, s))
    ensures flags & FORCE_SLASH != 0 ==> c.term == "" || c.term == "/"
    ensures flags & FORCE_SLASH == 0 && flags & FORCE_BACKSLASH != 0 ==> c.term == "" || c.term == "\\"
  {
    ComponentsComeFromInput(Decode(flags, windows), s);
  }

  // ---- Simplified paths ----

  lemma {:induction false} SimpleNamesArePlain(cfg: Config, items: seq<Component>, i: nat)
    requires cfg.simple && Normal(cfg, items) && i < |items|
    ensures Plain(items[i].name)
  {
    if i > 0 {
      SimpleNamesArePlain(cfg, items, i - 1);
    }
  }

  lemma PushUnderRoot(cfg: Config, root: Component, items: seq<Component>, c: Component)
    requires !cfg.simple && root.name == ""
    requires Normal(cfg.(simple := true), items)
    ensures Push(cfg, [root] + items, c) == [root] + Push(cfg.(simple := true), items, c)
  {
    if items == [] {
      assert [root] + items == [root];
    } else {
      SimpleNamesArePlain(cfg.(simple := true), items, |items| - 1);
      assert ([root] + items)[|items|] == items[|items| - 1];
      assert ([root] + items)[..|items|] == [root] + items[..|items| - 1];
      assert [root] + items + [c] == [root] + (items + [c]);
    }
  }

  lemma {:induction false} PushAllUnderRoot(cfg: Config, root: Component, items: seq<Component>, input: seq<Component>)
    requires !cfg.simple && WritesSeparators(cfg) && root.name == ""
    requires var simple := cfg.(simple := true);
             Normal(simple, items) && AllClosed(simple, items) && WellFormed(simple, input)
    ensures PushAll(cfg, [root] + items, input) == [root] + PushAll(cfg.(simple := true), items, input)
    decreases |input|
  {
    if input != [] {
      var simple := cfg.(simple := true);
      var c, rest := input[0], input[1..];
      var w := Written(cfg, c);
      assert w == Written(simple, c);
      PushUnderRoot(cfg, root, items, w);
      if rest == [] {
      } else {
        assert Closed(simple, c);
        PushKeepsNormal(simple, items, c);
        assert WellFormed(simple, rest) by {
          assert forall i :: 0 <= i < |rest| ==> rest[i] == input[i + 1];
        }
        PushAllUnderRoot(cfg, root, Push(simple, items, w), rest);
      }
    }
  }

  lemma {:induction false} ParseIgnoresSimple(cfg: Config, s: string)
    ensures Parse(cfg, s) == Parse(cfg.(simple := true), s)
    decreases |s|
  {
    if s != [] {
      HeadIgnoresSimple(cfg, s);
      ParseIgnoresSimple(cfg, Tail(cfg, s));
    }
  }

  lemma HeadIgnoresSimple(cfg: Config, s: string)
    requires s != []
    ensures var simple := cfg.(simple := true); Head(cfg, s) == Head(simple, s) && Tail(cfg, s) == Tail(simple, s)
  {
    var simple := cfg.(simple := true);
    assert forall c :: IsSep(cfg, c) == IsSep(simple, c);
    assert FirstSep(cfg, s) == FirstSep(simple, s);
  }

  lemma StackUnderRoot(cfg: Config, root: Component, s: string)
    requires !cfg.disk && !cfg.simple && WritesSeparators(cfg) && Closed(cfg, root) && root.name == ""
    ensures Stack(cfg, [root] + Parse(cfg, s))
         == [Written(cfg, root)] + Stack(cfg.(simple := true), Parse(cfg.(simple := true), s))
  {
    var simple := cfg.(simple := true);
    var input := Parse(simple, s);
    ParseIgnoresSimple(cfg, s);
    ParseIsWellFormed(simple, s);
    assert ([root] + input)[1..] == input;
    PushAllUnderRoot(cfg, Written(cfg, root), [], input);
    assert [Written(cfg, root)] + [] == [Written(cfg, root)];
  }

  /** Simplifying `s` is normalizing it under the root, without the root: for every input, byte for byte. */
  lemma SimpleIsRooted(cfg: Config, sep: char, s: string)
    requires !cfg.disk && !cfg.simple && WritesSeparators(cfg) && IsSep(cfg, sep)
    ensures Normalized(cfg, [sep] + s) == [OutSep(cfg, sep)] + Normalized(cfg.(simple := true), s)
  {
    var simple := cfg.(simple := true);
    var root := Component("", [sep]);
    StackUnderRoot(cfg, root, s);
    ParseCons(cfg, root, s);
    assert "" + [sep] + s == [sep] + s;
    NormalizedIsStack(cfg, [sep] + s);
    NormalizedIsStack(simple, s);
    TextCons(Written(cfg, root), Stack(simple, Parse(simple, s)));
    assert "" + [OutSep(cfg, sep)] == [OutSep(cfg, sep)];
  }

  /** Where the written separator does not split, the root itself is removed by a later "..". */
  lemma UnsplittableRoot(cfg: Config, root: Component, x: Component, up: Component)
    requires !cfg.disk && !cfg.simple && !WritesSeparators(cfg)
    requires Closed(cfg, root) && root.name == "" && Closed(cfg, x) && Plain(x.name) && Open(cfg, up) && up.name == ".."
    ensures Normalized(cfg, Text([root] + ([x] + [up]))) == []
  {
    var a := Step(cfg, Initial(cfg), Written(cfg, root));
    var b := Step(cfg, a, Written(cfg, x));
    TextCons(root, [x] + [up]);
    TextCons(x, [up]);
    TextOfLast(up);
    RunCons(cfg, Initial(cfg), root, Text([x] + [up]));
    RunCons(cfg, a, x, Text([up]));
    RunCons(cfg, b, up, []);
    UnderRoot(cfg, root, x);
    UpRemovesAll(cfg, b, up);
  }

  lemma TextOfLast(c: Component)
    requires c.term == []
    ensures Text([c]) == c.name == c.name + c.term + []
  {
    assert [c][1..] == [];
  }

  /** A name under the root is written after it, and the whole text is no "." or "..". */
  lemma UnderRoot(cfg: Config, root: Component, x: Component)
    requires !cfg.disk && !cfg.simple && !WritesSeparators(cfg)
    requires Closed(cfg, root) && root.name == "" && Closed(cfg, x) && Plain(x.name)
    ensures var st := Step(cfg, Step(cfg, Initial(cfg), Written(cfg, root)), Written(cfg, x));
            st.simplify && NoSep(cfg, st.out) && |st.out| >= 2 && Plain(st.out[..|st.out| - 1])
  {
    var a := Step(cfg, Initial(cfg), Written(cfg, root));
    var st := Step(cfg, a, Written(cfg, x));
    assert a.out == ['\\'];
    assert st.out == ['\\'] + x.name + ['\\'];
    assert st.out[0] == '\\' && st.out[..|st.out| - 1] == ['\\'] + x.name;
    assert st.out[..|st.out| - 1][0] == '\\';
  }

  lemma UpRemovesAll(cfg: Config, st: State, up: Component)
    requires !cfg.disk && st.simplify && NoSep(cfg, st.out) && |st.out| >= 2 && Plain(st.out[..|st.out| - 1])
    requires up.name == ".." && up.term == []
    ensures Step(cfg, st, up).out == []
  {
    var prev := st.out[..|st.out| - 1];
    assert LastSep(cfg, prev) < 0;
    assert st.out[0..|st.out| - 1] == prev;
  }

  lemma SimpleIsRootedIff(cfg: Config)
    requires !cfg.disk && !cfg.simple
    ensures (forall s :: Normalized(cfg, "/" + s) == [OutSep(cfg, '/')] + Normalized(cfg.(simple := true), s))
            <==> WritesSeparators(cfg)
  {
    if WritesSeparators(cfg) {
      forall s
        ensures Normalized(cfg, "/" + s) == [OutSep(cfg, '/')] + Normalized(cfg.(simple := true), s)
      {
        SimpleIsRooted(cfg, '/', s);
      }
    } else {
      var root, x, up := Component("", "/"), Component("a", "/"), Component("..", "");
      var s := Text([x] + [up]);
      UnsplittableRoot(cfg, root, x, up);
      TextCons(root, [x] + [up]);
      assert "" + "/" + s == "/" + s;
      assert |[OutSep(cfg, '/')] + Normalized(cfg.(simple := true), s)| >= 1;
    }
  }

  lemma {:induction false} PlainNames(loc: Location, items: seq<Component>)
    requires forall i :: 0 <= i < |items| ==> Plain(items[i].name)
    ensures Walk(loc, items) == match loc
                                case Abs(stack) => Abs(stack + NamesOf(items))
                                case Rel(ups, stack) => Rel(ups, stack + NamesOf(items))
    decreases |items|
  {
    if items == [] {
      assert loc.stack + NamesOf(items) == loc.stack;
    } else {
      var init, last := items[..|items| - 1], items[|items| - 1];
      PlainNames(loc, init);
      assert NamesOf(items) == NamesOf(init) + [last.name];
      assert loc.stack + NamesOf(items) == loc.stack + NamesOf(init) + [last.name];
    }
  }

  lemma SimpleIsPlain(cfg: Config, s: string)
    requires !cfg.disk && cfg.simple && WritesSeparators(cfg)
    ensures var out := Normalized(cfg, s);
            && (out != [] ==> !IsSep(cfg, out[0]))
            && forall i :: 0 <= i < |Parse(cfg, out)| ==> Plain(Parse(cfg, out)[i].name)
  {
    var items := Parse(cfg, Normalized(cfg, s));
    NormalizedIsNormalForm(cfg, s);
    forall i | 0 <= i < |items|
      ensures Plain(items[i].name)
    {
      SimpleNamesArePlain(cfg, items, i);
    }
  }

  /**
    A simplified path does not start with a separator, has no "", "." or ".." in it, and leads,
    below the base it is used from, to where the input leads below the root.
   */
  lemma SimpleStaysBelow(cfg: Config, s: string)
    requires !cfg.disk && cfg.simple && WritesSeparators(cfg)
    ensures var out := Normalized(cfg, s);
            && (out != [] ==> !IsSep(cfg, out[0]))
            && (forall i :: 0 <= i < |Parse(cfg, out)| ==> Plain(Parse(cfg, out)[i].name))
            && Meaning(cfg, "/" + s).Abs?
            && Meaning(cfg, out) == Rel(0, Meaning(cfg, "/" + s).stack)
  {
    var root := Component("", [OutSep(cfg, '/')]);
    SimpleIsPlain(cfg, s);
    RootedLocation(cfg, root, s);
    UnderAndBelow(root, Parse(cfg, Normalized(cfg, s)));
  }

  /** The location of a path under the root is that of its simplified form, put under the root. */
  lemma RootedLocation(cfg: Config, root: Component, s: string)
    requires !cfg.disk && cfg.simple && WritesSeparators(cfg) && root == Component("", [OutSep(cfg, '/')])
    ensures Meaning(cfg, "/" + s) == LocationOf([root] + Parse(cfg, Normalized(cfg, s)))
  {
    var plain, out := cfg.(simple := false), Normalized(cfg, s);
    assert plain.(simple := true) == cfg;
    SimpleIsRooted(plain, '/', s);
    MeaningPreserved(plain, "/" + s);
    assert root.name + root.term + out == [OutSep(plain, '/')] + out;
    ParseCons(plain, root, out);
    ParseIgnoresSimple(plain, out);
    ParseIgnoresSimple(plain, "/" + s);
  }

  lemma UnderAndBelow(root: Component, items: seq<Component>)
    requires root.name == "" && forall i :: 0 <= i < |items| ==> Plain(items[i].name)
    ensures LocationOf([root] + items).Abs? && LocationOf(items) == Rel(0, LocationOf([root] + items).stack)
  {
    WalkCons(Abs([]), root, items);
    PlainNames(Abs([]), items);
    PlainNames(Rel(0, []), items);
    assert Start(items) == Rel(0, []);
  }

  // ---- Room in the buffer ----

  lemma NextRoom(cfg: Config, st: State, s: string)
    requires s != []
    ensures |Next(cfg, st, s).out| + |Tail(cfg, s)| <= |st.out| + |s|
  {
    UpShrinks(cfg, st.out);
  }

  lemma UpShrinks(cfg: Config, out: string)
    ensures |AtDotDot(cfg, out).out| <= |out|
  {
  }

  lemma {:induction false} PeakBounds(cfg: Config, st: State, s: string)
    ensures |Run(cfg, st, s).out| <= Peak(cfg, st, s) <= |st.out| + |s|
    decreases |s|
  {
    if s != [] {
      NextRoom(cfg, st, s);
      PeakBounds(cfg, Next(cfg, st, s), Tail(cfg, s));
    }
  }

  /** The result is never longer than the input, and a buffer as long as the input is always enough. */
  lemma RoomBounds(cfg: Config, s: string)
    ensures |Normalized(cfg, s)| <= Room(cfg, s) <= |s|
  {
    PeakBounds(cfg, Initial(cfg), s);
  }
}
