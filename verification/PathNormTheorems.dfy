/** What `ffpath_norm` yields for a text, and how much room it needs. */
module PathNormTheorems {
  import opened PathNorm
  import opened PathNormOutput
  import opened PathNormExact
  import opened PathNormMethod
  import opened PathNormText

  /** The machine's stack for a text. */
  function StackOf(windows: bool, s: string): seq<string> {
    PushAll(RootText(windows, s) != [], [], ComponentsOf(windows, s))
  }

  /** The text of the stack. */
  function NormText(windows: bool, s: string): string {
    RootText(windows, s) + Join(StackOf(windows, s), Slash(windows))
  }

  /** A relative path whose first name, once what was before it is gone, is read as a drive. */
  predicate BecomesDrive(windows: bool, s: string) {
    windows && RootText(windows, s) == [] && StackOf(windows, s) != [] && DriveName(StackOf(windows, s)[0])
  }

  lemma StackIsPlain(windows: bool, s: string)
    ensures AllNoSep(windows, StackOf(windows, s)) && Shaped(RootText(windows, s) != [], StackOf(windows, s))
  {
    ComponentsNoSep(windows, s);
    StackNoSep(windows, RootText(windows, s) != [], ComponentsOf(windows, s));
    MachineKeepsLocation(RootText(windows, s) != [], ComponentsOf(windows, s));
  }

  /** For every text, that of its stack denotes the same, root and location, exactly unless it becomes a drive. */
  lemma NormTextMeaning(windows: bool, s: string)
    ensures TextMeaning(windows, NormText(windows, s)) == TextMeaning(windows, s) <==> !BecomesDrive(windows, s)
  {
    StackIsPlain(windows, s);
    MachineKeepsLocation(RootText(windows, s) != [], ComponentsOf(windows, s));
    WrittenMeaning(windows, s, StackOf(windows, s));
  }

  /**
    Where the walk back tracks the stack: the text of the stack if all is allowed, and refused if not. It
    denotes what the input denotes, exactly unless it is read as a drive.
   */
  lemma TrackedResult(windows: bool, strict: bool, cap: nat, s: string)
    requires var env, parts := SettingOf(windows, strict, cap, s), ComponentsOf(windows, s);
             |env.root| <= cap && Tracks(env, parts, |parts|)
    ensures var env, parts := SettingOf(windows, strict, cap, s), ComponentsOf(windows, s);
            var r := Pass(windows, strict, cap, s);
            && (!Allowed(env, parts, |parts|) ==> r == Refused)
            && (Allowed(env, parts, |parts|) ==>
                  && r.Running? && r.out == NormText(windows, s)
                  && (TextMeaning(windows, r.out) == TextMeaning(windows, s) <==> !BecomesDrive(windows, s)))
  {
    var env, parts := SettingOf(windows, strict, cap, s), ComponentsOf(windows, s);
    PassIsMachine(env, parts, |parts|);
    NormTextMeaning(windows, s);
    assert parts[..|parts|] == parts;
  }

  /** For every input of the class and every capacity: that text, or refused exactly for lack of room. */
  lemma ClassResult(windows: bool, strict: bool, cap: nat, s: string, n: nat, m: nat)
    requires var parts := ComponentsOf(windows, s);
             && NamesThenUps(parts, n, m) && NoUps(parts[n + m..]) && m <= n
             && |RootText(windows, s)| <= cap
    ensures var env, parts := SettingOf(windows, strict, cap, s), ComponentsOf(windows, s);
            var r := Pass(windows, strict, cap, s);
            && (!Roomy(env, parts) ==> r == Refused)
            && (Roomy(env, parts) ==>
                  && r.Running? && r.out == NormText(windows, s)
                  && (TextMeaning(windows, r.out) == TextMeaning(windows, s) <==> !BecomesDrive(windows, s)))
  {
    var env, parts := SettingOf(windows, strict, cap, s), ComponentsOf(windows, s);
    ClassIsNormalized(env, parts, n, m);
    NormTextMeaning(windows, s);
    assert parts[..|parts|] == parts;
  }

  /** With strict checking, more ".." than names before them are refused, whatever follows and whatever the room. */
  lemma StrictResult(windows: bool, cap: nat, s: string, n: nat, m: nat)
    requires NamesThenUps(ComponentsOf(windows, s), n, m) && m > n && |RootText(windows, s)| <= cap
    ensures Pass(windows, true, cap, s) == Refused
  {
    StrictRefuses(SettingOf(windows, true, cap, s), ComponentsOf(windows, s), n, m);
  }

  // ---- Normalizing twice ----

  lemma NotPassedThrough(windows: bool, s: string)
    ensures !Passthrough(windows, NormText(windows, s))
  {
    StackIsPlain(windows, s);
    var root, stack, slash := RootText(windows, s), StackOf(windows, s), Slash(windows);
    if stack != [] {
      KindLength(stack[0]);
      var text := Join(stack, slash);
      assert text[0] == stack[0][0] by {
        if |stack| > 1 {
          assert stack == [stack[0]] + stack[1..];
          JoinCons(stack[0], stack[1..], slash);
        }
      }
    }
  }

  /**
    A text that the pass has written is read again and left as it is, whatever text it was written for,
    unless it became a drive. With strict checking it is refused, exactly if it starts with "..".
   */
  lemma NormTwice(windows: bool, strict: bool, cap: nat, s: string)
    requires !BecomesDrive(windows, s) && |NormText(windows, s)| <= cap
    ensures var out, stack := NormText(windows, s), StackOf(windows, s);
            var again := Pass(windows, strict, cap, out);
            && !Passthrough(windows, out) && NormText(windows, out) == out
            && if strict && stack != [] && KindOf(stack[0]) == Up then again == Refused
               else again.Running? && again.out == out
  {
    var out, stack := NormText(windows, s), StackOf(windows, s);
    NotPassedThrough(windows, s);
    StackIsPlain(windows, s);
    if RootText(windows, s) == [] {
      assert stack != [] ==> KindOf(stack[0]) != Empty;
      JoinedRoot(windows, stack);
    }
    ReadAgain(windows, s, stack);
    var env := SettingOf(windows, strict, cap, out);
    if stack == [] {
      EmptyStays(env);
    } else {
      ShapedResult(env, stack);
      ShapedStays(env, stack, |stack|);
      assert stack[..|stack|] == stack;
    }
  }

  /** One empty component: nothing is written after the root. */
  lemma EmptyStays(env: Setting)
    ensures After(env, [""], 1) == Running(env.root, 1) && PushAll(env.root != [], [], [""]) == []
  {
    assert [""][..0] == [];
    assert After(env, [""], 0) == Running(env.root, 0);
  }

  // ---- Texts for which the result is wrong ----

  lemma StartsRelative(windows: bool, strict: bool, cap: nat, parts: seq<string>)
    requires AllNoSep(windows, parts) && parts != [] && parts[0] != "" && !(windows && DriveName(parts[0]))
    ensures var s := Join(parts, Slash(windows));
            var env := Setting([], Slash(windows), strict, cap);
            && SettingOf(windows, strict, cap, s) == env && ComponentsOf(windows, s) == parts
            && Pass(windows, strict, cap, s) == After(env, parts, |parts|)
            && StackOf(windows, s) == StackAt(env, parts, |parts|)
  {
    TextOfParts(windows, parts);
    assert parts[..|parts|] == parts;
  }

  /** The kinds of the first components. */
  predicate Starts(parts: seq<string>, kinds: seq<Kind>) {
    |kinds| <= |parts| && forall i :: 0 <= i < |kinds| ==> KindOf(parts[i]) == kinds[i]
  }

  /** On Windows "x\..\d" is read as a drive when `d` is: a relative path becomes an absolute one. */
  lemma DriveAppears(strict: bool, cap: nat, parts: seq<string>)
    requires |parts| == 3 && Starts(parts, [Name, Up, Name]) && AllNoSep(true, parts)
    requires !DriveName(parts[0]) && DriveName(parts[2]) && cap >= |parts[0]| && cap >= |parts[2]|
    ensures var s, d := Join(parts, Slash(true)), parts[2];
            && Pass(true, strict, cap, s) == Running(d, 1)
            && RootText(true, s) == [] && RootText(true, d) != [] && BecomesDrive(true, s)
  {
    FirstKinds(parts, [Name, Up, Name]);
    StartsRelative(true, strict, cap, parts);
    NameThird(Setting([], Slash(true), strict, cap), parts);
  }

  lemma FirstKinds(parts: seq<string>, kinds: seq<Kind>)
    requires Starts(parts, kinds)
    ensures |kinds| > 0 ==> KindOf(parts[0]) == kinds[0]
    ensures |kinds| > 1 ==> KindOf(parts[1]) == kinds[1]
    ensures |kinds| > 2 ==> KindOf(parts[2]) == kinds[2]
    ensures |kinds| > 3 ==> KindOf(parts[3]) == kinds[3]
    ensures |kinds| > 4 ==> KindOf(parts[4]) == kinds[4]
  {
  }

  /** The text "x/../y/..": too much or too little is left of `y`, unless both names are of one length. */
  lemma SecondUpOnTexts(windows: bool, strict: bool, cap: nat, parts: seq<string>)
    requires |parts| == 4 && Starts(parts, [Name, Up, Name, Up]) && AllNoSep(windows, parts)
    requires !(windows && DriveName(parts[0])) && cap >= |parts[0]| && cap >= |parts[2]|
    ensures var s, x, y := Join(parts, Slash(windows)), parts[0], parts[2];
            && Pass(windows, strict, cap, s) == (if |x| > |y| then Below(|x| - |y|, 0) else Running(y[..|y| - |x|], 0))
            && NormText(windows, s) == ""
  {
    FirstKinds(parts, [Name, Up, Name, Up]);
    StartsRelative(windows, strict, cap, parts);
    SecondUpMisleads(Setting([], Slash(windows), strict, cap), parts);
  }

  /** The text "x/../y/../..": the code reads outside its table, exactly if the names differ in length. */
  lemma ThirdUpOnTexts(windows: bool, strict: bool, cap: nat, parts: seq<string>)
    requires |parts| == 5 && Starts(parts, [Name, Up, Name, Up, Up]) && AllNoSep(windows, parts)
    requires !(windows && DriveName(parts[0])) && cap >= |parts[0]| && cap >= |parts[2]|
    ensures Pass(windows, strict, cap, Join(parts, Slash(windows))) == Astray <==> |parts[0]| != |parts[2]|
  {
    FirstKinds(parts, [Name, Up, Name, Up, Up]);
    StartsRelative(windows, strict, cap, parts);
    ThirdUpGoesAstray(Setting([], Slash(windows), strict, cap), parts);
  }

  /** The text "x//..": one character is removed instead of `x`. */
  lemma EmptyOnTexts(windows: bool, strict: bool, cap: nat, parts: seq<string>)
    requires |parts| == 3 && Starts(parts, [Name, Empty, Up]) && AllNoSep(windows, parts)
    requires !(windows && DriveName(parts[0])) && cap >= |parts[0]|
    ensures var s, x := Join(parts, Slash(windows)), parts[0];
            Pass(windows, strict, cap, s) == Running(x[..|x| - 1], 1) && NormText(windows, s) == ""
  {
    FirstKinds(parts, [Name, Empty, Up]);
    StartsRelative(windows, strict, cap, parts);
    EmptyComponentMisleads(Setting([], Slash(windows), strict, cap), parts);
  }

  /** The text "./..": strict checking lets it pass, and refuses the result. */
  lemma StrictRefusesItsResult(windows: bool, cap: nat, parts: seq<string>)
    requires |parts| == 2 && Starts(parts, [Here, Up]) && cap >= 2
    ensures Pass(windows, true, cap, Join(parts, Slash(windows))) == Running(parts[1], 2)
    ensures Pass(windows, true, cap, parts[1]) == Refused
  {
    var env, up := Setting([], Slash(windows), true, cap), parts[1];
    FirstKinds(parts, [Here, Up]);
    StartsRelative(windows, true, cap, parts);
    UpReplacesHere(env, parts);
    KindLength(up);
    UpIsRefused(windows, cap, up);
  }

  lemma UpIsRefused(windows: bool, cap: nat, up: string)
    requires KindOf(up) == Up
    ensures Pass(windows, true, cap, up) == Refused
  {
    var env := Setting([], Slash(windows), true, cap);
    StartsRelative(windows, true, cap, [up]);
    assert After(env, [up], 0) == Running([], 0);
  }

  // ---- A drive that is normalized in place ----

  lemma {:induction false} SameSep(windows: bool, a: string, b: string, p: nat)
    requires p <= |a| == |b| && forall j :: p <= j < |a| ==> a[j] == b[j]
    ensures SepFrom(windows, a, p) == SepFrom(windows, b, p)
    decreases |a| - p
  {
    if p < |a| && !IsSep(windows, a[p]) {
      SameSep(windows, a, b, p + 1);
    }
  }

  lemma {:induction false} SameSpans(windows: bool, a: string, b: string, p: nat)
    requires p <= |a| == |b| && forall j :: p <= j < |a| ==> a[j] == b[j]
    ensures Spans(windows, a, p) == Spans(windows, b, p)
    decreases |a| - p
  {
    SameSep(windows, a, b, p);
    if SepFrom(windows, a, p) < |a| {
      SameSpans(windows, a, b, SepFrom(windows, a, p) + 1);
    }
  }

  lemma {:induction false} SpansAreAfter(windows: bool, s: string, p: nat, i: nat)
    requires p <= |s| && i < |Spans(windows, s, p)|
    ensures p <= Spans(windows, s, p)[i].begin
    decreases |s| - p
  {
    if i > 0 {
      SpansAreAfter(windows, s, SepFrom(windows, s, p) + 1, i - 1);
    }
  }

  lemma SameParts(windows: bool, a: string, b: string, p: nat)
    requires p <= |a| == |b| && forall j :: p <= j < |a| ==> a[j] == b[j]
    ensures PartsOf(a, Spans(windows, a, p)) == PartsOf(b, Spans(windows, b, p))
  {
    var spans := Spans(windows, a, p);
    SameSpans(windows, a, b, p);
    forall i | 0 <= i < |spans|
      ensures Text(a, spans[i]) == Text(b, spans[i])
    {
      SpansAreAfter(windows, a, p, i);
    }
  }

  /** In place, "c:abc" is read as an empty component and "bc": the separator is written over the "a". */
  lemma DriveInPlaceLoses(s: string)
    requires |s| >= 3 && DriveName(s[..2]) && !IsSep(true, s[2])
    ensures SeenParts(true, s, true) == [""] + PartsOf(s, Spans(true, s, 3))
    ensures SeenParts(true, s, false) == PartsOf(s, Spans(true, s, 2))
  {
    var seen := Seen(true, s, true);
    RootOver(true, s, true);
    SameParts(true, seen, s, 3);
    assert Spans(true, seen, 2) == [Span(2, 2)] + Spans(true, seen, 3);
    PartsCons(seen, Span(2, 2), Spans(true, seen, 3));
    assert seen[2..2] == "";
  }

  // ---- How much room is enough ----

  lemma {:induction false} SizeCons(x: string, rest: seq<string>)
    ensures Size([x] + rest) == |x| + 1 + Size(rest)
    decreases |rest|
  {
    var all := [x] + rest;
    if rest == [] {
      assert all == [x] && all[..0] == [];
    } else {
      var init := rest[..|rest| - 1];
      assert all[..|all| - 1] == [x] + init;
      SizeCons(x, init);
    }
  }

  /** The components with the separators between them, plus one. */
  function SpansSize(spans: seq<Span>): int {
    if spans == [] then 0 else spans[0].end - spans[0].begin + 1 + SpansSize(spans[1..])
  }

  lemma {:induction false} SizeOfSpans(windows: bool, s: string, p: nat)
    requires p <= |s|
    ensures SpansSize(Spans(windows, s, p)) == |s| - p + 1
    decreases |s| - p
  {
    var e := SepFrom(windows, s, p);
    if e < |s| {
      SizeOfSpans(windows, s, e + 1);
    }
  }

  lemma {:induction false} SizeOfParts(s: string, spans: seq<Span>)
    requires forall i :: 0 <= i < |spans| ==> spans[i].begin <= spans[i].end <= |s|
    ensures Size(PartsOf(s, spans)) == SpansSize(spans)
  {
    if spans != [] {
      assert spans == [spans[0]] + spans[1..];
      SizeOfParts(s, spans[1..]);
      OneMore(s, spans[0], spans[1..]);
    }
  }

  lemma OneMore(s: string, first: Span, rest: seq<Span>)
    requires first.begin <= first.end <= |s|
    ensures Size(PartsOf(s, [first] + rest)) == first.end - first.begin + 1 + Size(PartsOf(s, rest))
  {
    PartsCons(s, first, rest);
    SizeCons(Text(s, first), PartsOf(s, rest));
  }

  /** A buffer of the input's length is enough; a drive without a separator needs one character more. */
  lemma InputLengthIsEnough(windows: bool, strict: bool, cap: nat, s: string)
    requires cap >= |s| + if |RootText(windows, s)| > RootEnd(windows, s) then 1 else 0
    ensures |RootText(windows, s)| <= cap && Roomy(SettingOf(windows, strict, cap, s), ComponentsOf(windows, s))
  {
    var env, parts := SettingOf(windows, strict, cap, s), ComponentsOf(windows, s);
    var spans := Spans(windows, s, RootEnd(windows, s));
    SpansCover(windows, s, RootEnd(windows, s));
    assert forall i :: 0 <= i < |spans| ==> Whole(windows, s, spans[i]);
    SizeOfParts(s, spans);
    SizeOfSpans(windows, s, RootEnd(windows, s));
    forall i | 0 <= i <= |parts|
      ensures |Render(env, StackAt(env, parts, i))| <= cap
    {
      EnoughRoom(env, parts, i);
    }
  }
}
