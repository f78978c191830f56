/**
  When `ffpath_norm` is right: the whole output pass against the stack machine, for every list of
  components; a class of inputs that are right, and families that are not.
 */
module PathNormExact {
  import opened PathNorm
  import opened PathNormOutput

  function StackAt(env: Setting, parts: seq<string>, i: nat): seq<string>
    requires i <= |parts|
  {
    PushAll(env.root != [], [], parts[..i])
  }

  /** The value of `cur` before the component at `i`: it moves back only where a component is removed. */
  function CurAt(env: Setting, parts: seq<string>, i: nat): int
    requires i <= |parts|
    decreases i
  {
    if i == 0 then 0 else CurAfter(StackAt(env, parts, i - 1), CurAt(env, parts, i - 1), parts[i - 1])
  }

  /** The loop state that the machine predicts before the component at `i`. */
  function StateAt(env: Setting, parts: seq<string>, i: nat): Outcome
    requires i <= |parts|
  {
    Running(Render(env, StackAt(env, parts, i)), CurAt(env, parts, i))
  }

  lemma StackNext(env: Setting, parts: seq<string>, i: nat)
    requires i < |parts|
    ensures StackAt(env, parts, i + 1) == Expected(env, StackAt(env, parts, i), parts[i])
    ensures Shaped(env.root != [], StackAt(env, parts, i))
  {
    assert parts[..i + 1][..i] == parts[..i];
    MachineKeepsLocation(env.root != [], parts[..i]);
  }

  // ---- The exact condition ----

  /** If the component at `i` is "..", the table entry at `cur` fits the top of the stack. */
  predicate TracksAt(env: Setting, parts: seq<string>, i: nat)
    requires i < |parts|
  {
    KindOf(parts[i]) == Up ==> Fits(parts, StackAt(env, parts, i), CurAt(env, parts, i))
  }

  /** The component at `i` is not a forbidden "..", and what it leads to fits into the buffer. */
  predicate AllowedAt(env: Setting, parts: seq<string>, i: nat)
    requires i < |parts|
  {
    !Forbidden(env, StackAt(env, parts, i), parts[i]) && |Render(env, StackAt(env, parts, i + 1))| <= env.cap
  }

  /** The same for the first `n` components. */
  ghost predicate Tracks(env: Setting, parts: seq<string>, n: nat)
    requires n <= |parts|
  {
    forall i :: 0 <= i < n ==> TracksAt(env, parts, i)
  }

  ghost predicate Allowed(env: Setting, parts: seq<string>, n: nat)
    requires n <= |parts|
  {
    forall i :: 0 <= i < n ==> AllowedAt(env, parts, i)
  }

  /** After `i` components, the text written is that of the machine's stack. */
  predicate ShowsAt(env: Setting, parts: seq<string>, i: nat)
    requires i <= |parts|
  {
    Shows(env, After(env, parts, i), StackAt(env, parts, i))
  }

  ghost predicate Follows(env: Setting, parts: seq<string>, n: nat)
    requires n <= |parts|
  {
    forall i :: 0 <= i <= n ==> ShowsAt(env, parts, i)
  }

  ghost predicate Sane(env: Setting) {
    |env.slash| == 1 && |env.root| <= env.cap
  }

  /** One iteration from a predicted state. */
  lemma StateNext(env: Setting, parts: seq<string>, i: nat)
    requires i < |parts| && Sane(env)
    requires After(env, parts, i) == StateAt(env, parts, i) && |Render(env, StackAt(env, parts, i))| <= env.cap
    ensures if !TracksAt(env, parts, i) then !Shows(env, After(env, parts, i + 1), StackAt(env, parts, i + 1))
            else if AllowedAt(env, parts, i) then After(env, parts, i + 1) == StateAt(env, parts, i + 1)
            else After(env, parts, i + 1) == Refused
  {
    StackNext(env, parts, i);
    StepExact(env, parts, StackAt(env, parts, i), CurAt(env, parts, i), parts[i]);
  }

  lemma Start(env: Setting, parts: seq<string>)
    requires Sane(env)
    ensures StateAt(env, parts, 0) == After(env, parts, 0) && |Render(env, StackAt(env, parts, 0))| <= env.cap
  {
    assert parts[..0] == [];
    assert Render(env, []) == env.root;
  }

  /** While everything is in order, the loop is in the predicted state. */
  lemma {:induction false} Predicted(env: Setting, parts: seq<string>, n: nat)
    requires n <= |parts| && Sane(env) && Tracks(env, parts, n) && Allowed(env, parts, n)
    ensures After(env, parts, n) == StateAt(env, parts, n) && |Render(env, StackAt(env, parts, n))| <= env.cap
    decreases n
  {
    if n == 0 {
      Start(env, parts);
    } else {
      Predicted(env, parts, n - 1);
      PredictedNext(env, parts, n - 1);
    }
  }

  lemma PredictedNext(env: Setting, parts: seq<string>, i: nat)
    requires i < |parts| && Sane(env) && TracksAt(env, parts, i) && AllowedAt(env, parts, i)
    requires After(env, parts, i) == StateAt(env, parts, i) && |Render(env, StackAt(env, parts, i))| <= env.cap
    ensures After(env, parts, i + 1) == StateAt(env, parts, i + 1)
    ensures |Render(env, StackAt(env, parts, i + 1))| <= env.cap
  {
    StateNext(env, parts, i);
  }

  /**
    When the code is right, exactly: the text is that of the stack machine after every component, if
    and only if at every ".." the table entry at `cur` has the flags and the length of the top of
    the stack, no ".." is forbidden, and the machine's texts fit into the buffer.
   */
  lemma FollowsIff(env: Setting, parts: seq<string>, n: nat)
    requires n <= |parts| && Sane(env)
    ensures Follows(env, parts, n) <==> Tracks(env, parts, n) && Allowed(env, parts, n)
  {
    if Follows(env, parts, n) {
      forall i | 0 <= i < n
        ensures TracksAt(env, parts, i) && AllowedAt(env, parts, i)
      {
        FollowsOnly(env, parts, n, i);
      }
    } else if Tracks(env, parts, n) && Allowed(env, parts, n) {
      forall i | 0 <= i <= n
        ensures ShowsAt(env, parts, i)
      {
        Predicted(env, parts, i);
      }
    }
  }

  lemma {:induction false} FollowsOnly(env: Setting, parts: seq<string>, n: nat, i: nat)
    requires i < n <= |parts| && Sane(env) && Follows(env, parts, n)
    ensures TracksAt(env, parts, i) && AllowedAt(env, parts, i)
    decreases i
  {
    forall j | 0 <= j < i
      ensures TracksAt(env, parts, j) && AllowedAt(env, parts, j)
    {
      FollowsOnly(env, parts, n, j);
    }
    Predicted(env, parts, i);
    FollowsNext(env, parts, i);
  }

  lemma FollowsNext(env: Setting, parts: seq<string>, i: nat)
    requires i < |parts| && Sane(env)
    requires After(env, parts, i) == StateAt(env, parts, i) && |Render(env, StackAt(env, parts, i))| <= env.cap
    ensures ShowsAt(env, parts, i + 1) <==> TracksAt(env, parts, i) && AllowedAt(env, parts, i)
  {
    StateNext(env, parts, i);
  }

  /** Where `cur` tracks the stack, the pass is in the predicted state if everything is allowed, and refused if not. */
  lemma {:induction false} PassIsMachine(env: Setting, parts: seq<string>, n: nat)
    requires n <= |parts| && Sane(env) && Tracks(env, parts, n)
    ensures Allowed(env, parts, n) ==> After(env, parts, n) == StateAt(env, parts, n)
    ensures !Allowed(env, parts, n) ==> After(env, parts, n) == Refused
    decreases n
  {
    if Allowed(env, parts, n) {
      Predicted(env, parts, n);
    } else if Allowed(env, parts, n - 1) {
      Predicted(env, parts, n - 1);
      RefusedNext(env, parts, n - 1);
    } else {
      PassIsMachine(env, parts, n - 1);
    }
  }

  lemma RefusedNext(env: Setting, parts: seq<string>, i: nat)
    requires i < |parts| && Sane(env) && TracksAt(env, parts, i) && !AllowedAt(env, parts, i)
    requires After(env, parts, i) == StateAt(env, parts, i) && |Render(env, StackAt(env, parts, i))| <= env.cap
    ensures After(env, parts, i + 1) == Refused
  {
    StateNext(env, parts, i);
  }

  // ---- How much room is enough ----

  /** Length of the components with the separators between them, plus one. */
  function Size(parts: seq<string>): nat
    decreases |parts|
  {
    if parts == [] then 0 else Size(parts[..|parts| - 1]) + 1 + |parts[|parts| - 1]|
  }

  lemma RenderOfPush(env: Setting, stack: seq<string>, part: string)
    requires |env.slash| == 1
    ensures |Render(env, Expected(env, stack, part))| <= |Render(env, stack)| + Added(stack, part)
  {
    RenderSnoc(env, stack, part);
    if stack == [] {
      assert stack + [part] == [part];
    } else {
      var init, top := stack[..|stack| - 1], stack[|stack| - 1];
      assert stack == init + [top];
      RenderSnoc(env, init, top);
      RenderSnoc(env, init, part);
    }
  }

  lemma {:induction false} StackFits(env: Setting, parts: seq<string>, i: nat)
    requires i <= |parts| && |env.slash| == 1
    ensures |Render(env, StackAt(env, parts, i))| <= |env.root| + (if i == 0 then 0 else Size(parts[..i]) - 1)
    decreases i
  {
    if i == 0 {
      assert Render(env, []) == env.root;
    } else {
      assert parts[..i][..i - 1] == parts[..i - 1];
      StackFits(env, parts, i - 1);
      StackNext(env, parts, i - 1);
      RenderOfPush(env, StackAt(env, parts, i - 1), parts[i - 1]);
      if i == 1 {
        assert parts[..0] == [];
      }
    }
  }

  lemma {:induction false} SizeGrows(parts: seq<string>, i: nat)
    requires i <= |parts|
    ensures Size(parts[..i]) <= Size(parts)
    decreases |parts|
  {
    if i < |parts| {
      SizeGrows(parts[..|parts| - 1], i);
      assert parts[..|parts| - 1][..i] == parts[..i];
    } else {
      assert parts[..i] == parts;
    }
  }

  /** A buffer for the root and the components as they are is enough. */
  lemma EnoughRoom(env: Setting, parts: seq<string>, i: nat)
    requires i <= |parts| && parts != [] && |env.slash| == 1 && env.cap >= |env.root| + Size(parts) - 1
    ensures |Render(env, StackAt(env, parts, i))| <= env.cap
  {
    StackFits(env, parts, i);
    SizeGrows(parts, i);
  }

  // ---- A class of inputs that are tracked: names, then "..", then no more ".." ----

  /** `n` plain names, then `m` times "..". */
  ghost predicate NamesThenUps(parts: seq<string>, n: nat, m: nat) {
    && n + m <= |parts|
    && (forall i :: 0 <= i < n ==> KindOf(parts[i]) == Name)
    && (forall i :: n <= i < n + m ==> KindOf(parts[i]) == Up)
  }

  ghost predicate NoUps(parts: seq<string>) {
    forall i :: 0 <= i < |parts| ==> KindOf(parts[i]) != Up
  }

  lemma {:induction false} AfterNames(env: Setting, parts: seq<string>, n: nat, i: nat)
    requires i <= n <= |parts| && forall j :: 0 <= j < n ==> KindOf(parts[j]) == Name
    ensures StackAt(env, parts, i) == parts[..i] && CurAt(env, parts, i) == i
    decreases i
  {
    if i > 0 {
      AfterNames(env, parts, n, i - 1);
      StackNext(env, parts, i - 1);
      var part := parts[i - 1];
      assert KindOf(part) == Name;
      assert parts[..i] == parts[..i - 1] + [part];
    }
  }

  lemma {:induction false} AfterUps(env: Setting, parts: seq<string>, n: nat, m: nat, j: nat)
    requires NamesThenUps(parts, n, m) && j <= m && j <= n
    ensures StackAt(env, parts, n + j) == parts[..n - j] && CurAt(env, parts, n + j) == n - j
    decreases j
  {
    if j == 0 {
      AfterNames(env, parts, n, n);
    } else {
      AfterUps(env, parts, n, m, j - 1);
      UpOnNames(env, parts, n + j - 1, n - j);
    }
  }

  lemma UpOnNames(env: Setting, parts: seq<string>, i: nat, k: nat)
    requires k < |parts| && i < |parts| && StackAt(env, parts, i) == parts[..k + 1]
    requires KindOf(parts[k]) == Name && KindOf(parts[i]) == Up
    ensures CurAt(env, parts, i + 1) == CurAt(env, parts, i) - 1 && StackAt(env, parts, i + 1) == parts[..k]
  {
    var stack := parts[..k + 1];
    assert stack[|stack| - 1] == parts[k] && stack[..|stack| - 1] == parts[..k];
    StackNext(env, parts, i);
  }

  lemma NamesFit(parts: seq<string>, k: nat)
    requires k <= |parts|
    ensures Fits(parts, parts[..k], k)
  {
    if k > 0 {
      assert parts[..k][..k - 1] == parts[..k - 1];
    }
  }

  /** At the first `n + 1` times "..", the entry at `cur` is the top of the stack. */
  lemma UpsTrack(env: Setting, parts: seq<string>, n: nat, m: nat, i: nat)
    requires NamesThenUps(parts, n, m) && i < n + m && i <= n + n
    ensures TracksAt(env, parts, i)
    ensures n <= i ==> (StackAt(env, parts, i) == [] <==> i == n + n)
  {
    if n <= i {
      AfterUps(env, parts, n, m, i - n);
      NamesFit(parts, n + n - i);
    }
  }

  lemma ClassTracks(env: Setting, parts: seq<string>, n: nat, m: nat, i: nat)
    requires NamesThenUps(parts, n, m) && NoUps(parts[n + m..]) && m <= n && i < |parts|
    ensures TracksAt(env, parts, i) && !Forbidden(env, StackAt(env, parts, i), parts[i])
  {
    if i < n + m {
      UpsTrack(env, parts, n, m, i);
    } else {
      assert parts[i] == parts[n + m..][i - (n + m)];
    }
  }

  /** The machine's texts fit into the buffer on the way. */
  ghost predicate Roomy(env: Setting, parts: seq<string>) {
    forall i :: 0 <= i <= |parts| ==> |Render(env, StackAt(env, parts, i))| <= env.cap
  }

  /** For every input of the class and every capacity: the text of the machine's stack, or refused for lack of room. */
  lemma ClassIsNormalized(env: Setting, parts: seq<string>, n: nat, m: nat)
    requires NamesThenUps(parts, n, m) && NoUps(parts[n + m..]) && m <= n && Sane(env)
    ensures After(env, parts, |parts|) == if Roomy(env, parts) then StateAt(env, parts, |parts|) else Refused
  {
    forall i | 0 <= i < |parts|
      ensures TracksAt(env, parts, i)
      ensures AllowedAt(env, parts, i) <==> |Render(env, StackAt(env, parts, i + 1))| <= env.cap
    {
      ClassTracks(env, parts, n, m, i);
    }
    PassIsMachine(env, parts, |parts|);
    Start(env, parts);
    if !Roomy(env, parts) {
      var i :| 0 <= i <= |parts| && |Render(env, StackAt(env, parts, i))| > env.cap;
      assert !AllowedAt(env, parts, i - 1);
    }
  }

  /** With strict checking, more ".." than names are refused, whatever follows and whatever the room. */
  lemma StrictRefuses(env: Setting, parts: seq<string>, n: nat, m: nat)
    requires NamesThenUps(parts, n, m) && m > n && env.strict && Sane(env)
    ensures After(env, parts, |parts|) == Refused
  {
    var k := n + n;
    forall i | 0 <= i < k + 1
      ensures TracksAt(env, parts, i)
    {
      UpsTrack(env, parts, n, m, i);
    }
    UpsTrack(env, parts, n, m, k);
    assert !AllowedAt(env, parts, k);
    PassIsMachine(env, parts, k + 1);
    EndedStays(env, parts, k + 1, |parts|);
  }

  // ---- Texts that have been normalized ----

  lemma ShapedNext(rooted: bool, parts: seq<string>, i: nat)
    requires Shaped(rooted, parts) && i < |parts|
    ensures Push(rooted, parts[..i], parts[i]) == parts[..i + 1]
    ensures KindOf(parts[i]) == Up && i > 0 ==> KindOf(parts[i - 1]) == Up
  {
    assert parts[..i + 1] == parts[..i] + [parts[i]];
    assert i > 0 ==> parts[..i][i - 1] == parts[i - 1];
  }

  /** Components in the shape of a stack are pushed one by one, and `cur` goes with them. */
  lemma {:induction false} ShapedStays(env: Setting, parts: seq<string>, i: nat)
    requires Shaped(env.root != [], parts) && i <= |parts|
    ensures StackAt(env, parts, i) == parts[..i] && CurAt(env, parts, i) == i
    decreases i
  {
    if i > 0 {
      ShapedStays(env, parts, i - 1);
      StackNext(env, parts, i - 1);
      ShapedNext(env.root != [], parts, i - 1);
      assert i > 1 ==> parts[..i - 1][i - 2] == parts[i - 2];
    }
  }

  lemma {:induction false} RenderGrows(env: Setting, parts: seq<string>, i: nat)
    requires i <= |parts| && |env.slash| == 1
    ensures |Render(env, parts[..i])| <= |Render(env, parts)|
    decreases |parts| - i
  {
    if i < |parts| {
      RenderGrows(env, parts, i + 1);
      assert parts[..i + 1] == parts[..i] + [parts[i]];
      RenderSnoc(env, parts[..i], parts[i]);
    } else {
      assert parts[..i] == parts;
    }
  }

  /** The pass gives a stack its own text back, but strict checking refuses one with ".." at its bottom. */
  lemma ShapedResult(env: Setting, parts: seq<string>)
    requires Shaped(env.root != [], parts) && Sane(env) && |Render(env, parts)| <= env.cap
    ensures After(env, parts, |parts|) ==
              if env.strict && parts != [] && KindOf(parts[0]) == Up then Refused
              else Running(Render(env, parts), |parts|)
  {
    forall i | 0 <= i < |parts|
      ensures TracksAt(env, parts, i)
    {
      ShapedAt(env, parts, i);
    }
    PassIsMachine(env, parts, |parts|);
    if env.strict && parts != [] && KindOf(parts[0]) == Up {
      ShapedAt(env, parts, 0);
      assert !Allowed(env, parts, |parts|);
    } else {
      forall i | 0 <= i < |parts|
        ensures AllowedAt(env, parts, i)
      {
        ShapedAt(env, parts, i);
      }
      ShapedStays(env, parts, |parts|);
      assert parts[..|parts|] == parts;
    }
  }

  lemma ShapedAt(env: Setting, parts: seq<string>, i: nat)
    requires Shaped(env.root != [], parts) && Sane(env) && |Render(env, parts)| <= env.cap && i < |parts|
    ensures TracksAt(env, parts, i)
    ensures AllowedAt(env, parts, i) <==> !(env.strict && i == 0 && KindOf(parts[0]) == Up)
  {
    ShapedStays(env, parts, i);
    ShapedStays(env, parts, i + 1);
    NamesFit(parts, i);
    RenderGrows(env, parts, i + 1);
  }

  /** ".." after a first "." replaces it, also with strict checking. */
  lemma UpReplacesHere(env: Setting, parts: seq<string>)
    requires |parts| >= 2 && KindOf(parts[0]) == Here && KindOf(parts[1]) == Up && env.root == [] && env.cap >= 2
    ensures After(env, parts, 2) == Running(parts[1], 2)
  {
    var here, up := parts[0], parts[1];
    KindLength(here);
    KindLength(up);
    AppendToNone(env, here);
    assert After(env, parts, 0) == Running([], 0);
    assert After(env, parts, 1) == Running(here, 1);
    assert here[..0] == [] && [] + [] + up == up;
  }

  // ---- Inputs that are not tracked ----

  lemma AppendToNone(env: Setting, x: string)
    requires env.root == [] && env.cap >= |x|
    ensures Append(env, Running([], 0), x) == Running(x, 1)
  {
    assert [] + [] + x == x;
  }

  /** A name is on the stack after it, alone. */
  lemma NameFirst(env: Setting, parts: seq<string>)
    requires |parts| >= 1 && KindOf(parts[0]) == Name && env.root == [] && env.cap >= |parts[0]|
    ensures StackAt(env, parts, 1) == [parts[0]] && After(env, parts, 1) == Running(parts[0], 1)
  {
    assert parts[..0] == [] && [] + [parts[0]] == [parts[0]];
    StackNext(env, parts, 0);
    AppendToNone(env, parts[0]);
    assert After(env, parts, 0) == Running([], 0);
  }

  /** After a name and an empty component, ".." removes one character: right for one-letter names alone. */
  lemma EmptyComponentMisleads(env: Setting, parts: seq<string>)
    requires |parts| >= 3 && KindOf(parts[0]) == Name && KindOf(parts[1]) == Empty && KindOf(parts[2]) == Up
    requires env.root == [] && env.cap >= |parts[0]|
    ensures var x := parts[0];
            After(env, parts, 3) == Running(x[..|x| - 1], 1) && StackAt(env, parts, 3) == []
  {
    var x := parts[0];
    NameFirst(env, parts);
    StackNext(env, parts, 1);
    StackNext(env, parts, 2);
    assert [x][..0] == [];
    assert After(env, parts, 2) == Running(x, 2);
  }

  lemma UpSecond(env: Setting, parts: seq<string>)
    requires |parts| >= 2 && KindOf(parts[0]) == Name && KindOf(parts[1]) == Up
    requires env.root == [] && env.cap >= |parts[0]|
    ensures StackAt(env, parts, 2) == [] && After(env, parts, 2) == Running([], 0)
  {
    var x: string := parts[0];
    var stack: seq<string> := [x];
    NameFirst(env, parts);
    StackNext(env, parts, 1);
    assert stack[..0] == [];
    assert x[..0] == "";
  }

  /**
    The table is not compacted, so the second ".." of "x/../y/.." removes as many characters as `x`
    has, not `y`: this is right exactly for names of one length. If `x` is longer, `k` wraps around.
   */
  lemma SecondUpMisleads(env: Setting, parts: seq<string>)
    requires |parts| >= 4 && KindOf(parts[0]) == Name && KindOf(parts[1]) == Up
    requires KindOf(parts[2]) == Name && KindOf(parts[3]) == Up
    requires env.root == [] && env.cap >= |parts[0]| && env.cap >= |parts[2]|
    ensures var x, y := parts[0], parts[2];
            && After(env, parts, 4) == (if |x| > |y| then Below(|x| - |y|, 0) else Running(y[..|y| - |x|], 0))
            && StackAt(env, parts, 4) == []
  {
    NameThird(env, parts);
    StackNext(env, parts, 3);
    var stack: seq<string> := [parts[2]];
    assert stack[..0] == [];
  }

  lemma NameThird(env: Setting, parts: seq<string>)
    requires |parts| >= 3 && KindOf(parts[0]) == Name && KindOf(parts[1]) == Up && KindOf(parts[2]) == Name
    requires env.root == [] && env.cap >= |parts[0]| && env.cap >= |parts[2]|
    ensures StackAt(env, parts, 3) == [parts[2]] && After(env, parts, 3) == Running(parts[2], 1)
  {
    UpSecond(env, parts);
    StackNext(env, parts, 2);
    AppendToNone(env, parts[2]);
    assert [] + [parts[2]] == [parts[2]];
  }

  /** One more "..", where the names differ in length, reads outside the table. */
  lemma ThirdUpGoesAstray(env: Setting, parts: seq<string>)
    requires |parts| >= 5 && KindOf(parts[0]) == Name && KindOf(parts[1]) == Up
    requires KindOf(parts[2]) == Name && KindOf(parts[3]) == Up && KindOf(parts[4]) == Up
    requires env.root == [] && env.cap >= |parts[0]| && env.cap >= |parts[2]|
    ensures After(env, parts, |parts|) == Astray <== |parts[0]| != |parts[2]|
    ensures After(env, parts, 5) == Astray <==> |parts[0]| != |parts[2]|
  {
    SecondUpMisleads(env, parts);
    if |parts[0]| != |parts[2]| {
      EndedStays(env, parts, 5, |parts|);
    }
  }
}
