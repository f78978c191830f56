/**
  The output pass of `ffpath_norm`, against a stack machine on the components.

  The pass removes a component by walking back with `cur` over the table of input components, which
  is not compacted. It reads from the table only the flags and the length of the entry at `cur`, so
  it does what the stack machine does exactly as long as these are those of the top of the stack.
 */
module PathNormOutput {
  import opened PathNorm
  import P = PathSyntax

  const WORD := 0x1_0000_0000

  /** What does not depend on the component: the root as written, the separator, and the limits. */
  datatype Setting = Setting(root: string, slash: string, strict: bool, cap: nat)

  /** The loop variables `dst[..k]` and `cur`, or how the pass ends early. */
  datatype Outcome =
    | Running(out: string, cur: int)
    | Below(short: nat, cur: int) // `k` has wrapped around: it is `short` below zero
    | Refused                     // -1
    | Astray                      // reads outside the table, or writes at a wrapped index
  {
    predicate Goes() {
      Running? || Below?
    }
  }

  datatype Kind = Empty | Here | Up | Name

  function KindOf(part: string): Kind {
    if part == "" then Empty else if part == "." then Here else if part == ".." then Up else Name
  }

  lemma KindLength(part: string)
    ensures KindOf(part) == Empty <==> |part| == 0
    ensures KindOf(part) == Here ==> |part| == 1
    ensures KindOf(part) == Up ==> |part| == 2
  {
  }

  function Advance(st: Outcome): Outcome
    requires st.Goes()
  {
    st.(cur := st.cur + 1)
  }

  /** The component at the end of what is written, after a separator unless it is the first. */
  function Append(env: Setting, st: Outcome, part: string): Outcome
    requires st.Goes()
  {
    match st
    case Running(out, cur) =>
      var sep := if |out| != |env.root| then env.slash else "";
      if |out| + |sep| + |part| > env.cap then Refused else Running(out + sep + part, cur + 1)
    case Below(short, _) =>
      if (1 + |part| - short) % WORD > env.cap then Refused else Astray
  }

  /** `k` lowered by `n`. */
  function Lower(st: Outcome, n: nat): Outcome
    requires st.Goes()
  {
    match st
    case Running(out, cur) => if n <= |out| then Running(out[..|out| - n], cur) else Below(n - |out|, cur)
    case Below(short, cur) => Below(short + n, cur)
  }

  /** Length of a component in the table, with the separator before it unless it is the first. */
  function TableLength(parts: seq<string>, i: nat): nat
    requires i < |parts|
  {
    |parts[i]| + if i == 0 then 0 else 1
  }

  /** At "..", with something written: what the entry at `cur` says is undone. */
  function StepBack(env: Setting, parts: seq<string>, st: Outcome, part: string): Outcome
    requires st.Goes() && 1 <= st.cur <= |parts|
  {
    var n := TableLength(parts, st.cur - 1);
    match KindOf(parts[st.cur - 1])
    case Up => Append(env, st, part)
    case Here => Append(env, Lower(st, n), part)
    case _ => var low := Lower(st, n); low.(cur := low.cur - 1)
  }

  /** One iteration for the component `part`; `parts` is the table. */
  function Step(env: Setting, parts: seq<string>, st: Outcome, part: string): Outcome
    requires st.Goes()
  {
    match KindOf(part)
    case Empty => Advance(st)
    case Here => if st.Running? && st.out == [] then Append(env, st, part) else Advance(st)
    case Name => Append(env, st, part)
    case Up =>
      if st.Running? && |st.out| == |env.root| then
        if env.strict then Refused
        else if env.root != [] then Advance(st)
        else Append(env, st, part)
      else if !(1 <= st.cur <= |parts|) then Astray
      else StepBack(env, parts, st, part)
  }

  /** The output loop, after `i` components. */
  function After(env: Setting, parts: seq<string>, i: nat): Outcome
    requires i <= |parts|
  {
    if i == 0 then Running(env.root, 0)
    else
      var st := After(env, parts, i - 1);
      if st.Goes() then Step(env, parts, st, parts[i - 1]) else st
  }

  lemma {:induction false} EndedStays(env: Setting, parts: seq<string>, i: nat, j: nat)
    requires i <= j <= |parts| && !After(env, parts, i).Goes()
    ensures After(env, parts, j) == After(env, parts, i)
    decreases j
  {
    if i < j {
      EndedStays(env, parts, i, j - 1);
    }
  }

  // ---- The stack machine ----

  function Push(rooted: bool, stack: seq<string>, part: string): seq<string> {
    match KindOf(part)
    case Empty => stack
    case Here => if stack == [] && !rooted then [part] else stack
    case Name => stack + [part]
    case Up =>
      if stack == [] then if rooted then [] else [part]
      else
        var init, top := stack[..|stack| - 1], KindOf(stack[|stack| - 1]);
        if top == Here then init + [part] else if top == Up then stack + [part] else init
  }

  function PushAll(rooted: bool, stack: seq<string>, parts: seq<string>): seq<string>
    decreases |parts|
  {
    if parts == [] then stack else Push(rooted, PushAll(rooted, stack, parts[..|parts| - 1]), parts[|parts| - 1])
  }

  function Join(stack: seq<string>, slash: string): string
    decreases |stack|
  {
    if stack == [] then []
    else if |stack| == 1 then stack[0]
    else Join(stack[..|stack| - 1], slash) + slash + stack[|stack| - 1]
  }

  function Render(env: Setting, stack: seq<string>): string {
    env.root + Join(stack, env.slash)
  }

  /** "." only at the bottom, ".." only on "..", or at the bottom, and neither under the root. */
  ghost predicate Shaped(rooted: bool, stack: seq<string>) {
    && (forall i :: 0 <= i < |stack| ==> KindOf(stack[i]) != Empty)
    && (forall i :: 0 < i < |stack| ==>
          KindOf(stack[i]) != Here && (KindOf(stack[i]) == Up ==> KindOf(stack[i - 1]) == Up))
    && (rooted && stack != [] ==> KindOf(stack[0]) == Name)
  }

  lemma PushKeepsShape(rooted: bool, stack: seq<string>, part: string)
    requires Shaped(rooted, stack)
    ensures Shaped(rooted, Push(rooted, stack, part))
  {
    if KindOf(part) == Up && stack != [] {
      assert Shaped(rooted, stack[..|stack| - 1]);
    }
  }

  // ---- The machine preserves the location ----

  function Walk(loc: P.Location, parts: seq<string>): P.Location
    decreases |parts|
  {
    if parts == [] then loc else P.Enter(Walk(loc, parts[..|parts| - 1]), parts[|parts| - 1])
  }

  function From(rooted: bool): P.Location {
    if rooted then P.Abs([]) else P.Rel(0, [])
  }

  lemma WalkSnoc(loc: P.Location, parts: seq<string>, part: string)
    ensures Walk(loc, parts + [part]) == P.Enter(Walk(loc, parts), part)
  {
    assert (parts + [part])[..|parts|] == parts;
  }

  lemma LeaveEntered(loc: P.Location, name: string, up: string)
    requires KindOf(name) == Name && KindOf(up) == Up
    ensures P.Enter(P.Enter(loc, name), up) == loc
  {
    assert (loc.stack + [name])[..|loc.stack|] == loc.stack;
  }

  lemma UpEnters(rooted: bool, init: seq<string>, top: string, up: string)
    requires KindOf(up) == Up && KindOf(top) != Empty && (KindOf(top) == Here ==> init == [])
    ensures Walk(From(rooted), Push(rooted, init + [top], up)) == P.Enter(Walk(From(rooted), init + [top]), up)
  {
    var loc, stack := From(rooted), init + [top];
    assert stack[..|stack| - 1] == init && stack[|stack| - 1] == top;
    WalkSnoc(loc, init, top);
    if KindOf(top) == Name {
      LeaveEntered(Walk(loc, init), top, up);
    } else {
      WalkSnoc(loc, if KindOf(top) == Here then init else stack, up);
    }
  }

  lemma PushEnters(rooted: bool, stack: seq<string>, part: string)
    requires Shaped(rooted, stack)
    ensures Walk(From(rooted), Push(rooted, stack, part)) == P.Enter(Walk(From(rooted), stack), part)
  {
    if stack != [] && KindOf(part) == Up {
      assert stack == stack[..|stack| - 1] + [stack[|stack| - 1]];
      UpEnters(rooted, stack[..|stack| - 1], stack[|stack| - 1], part);
    } else {
      WalkSnoc(From(rooted), stack, part);
      assert stack == [] ==> stack + [part] == [part];
    }
  }

  /** For every list of components the machine's stack leads where the components lead. */
  lemma {:induction false} MachineKeepsLocation(rooted: bool, parts: seq<string>)
    ensures Shaped(rooted, PushAll(rooted, [], parts))
    ensures Walk(From(rooted), PushAll(rooted, [], parts)) == Walk(From(rooted), parts)
    decreases |parts|
  {
    if parts != [] {
      var init, last := parts[..|parts| - 1], parts[|parts| - 1];
      MachineKeepsLocation(rooted, init);
      PushKeepsShape(rooted, PushAll(rooted, [], init), last);
      PushEnters(rooted, PushAll(rooted, [], init), last);
    }
  }

  // ---- The text of the stack ----

  /** What a component adds to the text, separator included. */
  function Added(stack: seq<string>, part: string): nat {
    |part| + if stack == [] then 0 else 1
  }

  lemma RenderSnoc(env: Setting, stack: seq<string>, part: string)
    requires |env.slash| == 1
    ensures var sep := if stack == [] then "" else env.slash;
            Render(env, stack + [part]) == Render(env, stack) + sep + part
    ensures |Render(env, stack + [part])| == |Render(env, stack)| + Added(stack, part)
  {
    var longer := stack + [part];
    assert longer[..|longer| - 1] == stack;
    if stack == [] {
      assert longer == [part];
    }
  }

  lemma RootOnly(env: Setting, stack: seq<string>)
    requires |env.slash| == 1 && Shaped(env.root != [], stack)
    ensures |Render(env, stack)| == |env.root| <==> stack == []
    ensures stack == [] ==> Render(env, stack) == env.root
    ensures Render(env, stack) == [] <==> env.root == [] && stack == []
  {
    if stack != [] {
      var init, top := stack[..|stack| - 1], stack[|stack| - 1];
      assert stack == init + [top];
      RenderSnoc(env, init, top);
      KindLength(top);
    }
  }

  lemma AppendRenders(env: Setting, stack: seq<string>, cur: int, part: string)
    requires Shaped(env.root != [], stack) && |env.slash| == 1
    ensures Append(env, Running(Render(env, stack), cur), part) ==
              if |Render(env, stack + [part])| > env.cap then Refused
              else Running(Render(env, stack + [part]), cur + 1)
  {
    RootOnly(env, stack);
    RenderSnoc(env, stack, part);
  }

  /** Taking off what the top added leaves the text of the rest. */
  lemma LowerRenders(env: Setting, init: seq<string>, top: string, cur: int)
    requires |env.slash| == 1
    ensures Lower(Running(Render(env, init + [top]), cur), Added(init, top)) == Running(Render(env, init), cur)
  {
    RenderSnoc(env, init, top);
    var sep := if init == [] then "" else env.slash;
    TakeFirst(Render(env, init), sep, top);
  }

  lemma TakeFirst(a: string, b: string, c: string)
    ensures (a + b + c)[..|a|] == a
  {
  }

  // ---- One iteration ----

  /** What one iteration should do. */
  function Expected(env: Setting, stack: seq<string>, part: string): seq<string> {
    Push(env.root != [], stack, part)
  }

  predicate Forbidden(env: Setting, stack: seq<string>, part: string) {
    env.strict && stack == [] && KindOf(part) == Up
  }

  /** The entry at `cur` has the flags of the top of the stack and, unless that is "..", its length. */
  predicate Fits(parts: seq<string>, stack: seq<string>, cur: int) {
    stack != [] ==>
      && 1 <= cur <= |parts|
      && var top, entry := stack[|stack| - 1], parts[cur - 1];
         && (KindOf(entry) == Here <==> KindOf(top) == Here) && (KindOf(entry) == Up <==> KindOf(top) == Up)
         && (KindOf(top) != Up ==> TableLength(parts, cur - 1) == Added(stack[..|stack| - 1], top))
  }

  /** `cur` after an iteration that does what it should. */
  function CurAfter(stack: seq<string>, cur: int, part: string): int {
    if KindOf(part) == Up && stack != [] && KindOf(stack[|stack| - 1]) == Name then cur - 1 else cur + 1
  }

  /** The state is the one that the stack and `cur` stand for. */
  predicate Shows(env: Setting, st: Outcome, stack: seq<string>) {
    st.Running? && st.out == Render(env, stack)
  }

  /** What an iteration does, where it is not misled. */
  function Right(env: Setting, stack: seq<string>, cur: int, part: string): Outcome {
    var stack' := Expected(env, stack, part);
    if Forbidden(env, stack, part) || |Render(env, stack')| > env.cap then Refused
    else Running(Render(env, stack'), CurAfter(stack, cur, part))
  }

  lemma Forward(env: Setting, parts: seq<string>, stack: seq<string>, cur: int, part: string)
    requires Shaped(env.root != [], stack) && |env.slash| == 1 && |Render(env, stack)| <= env.cap
    requires KindOf(part) == Up ==> stack == []
    ensures Step(env, parts, Running(Render(env, stack), cur), part) == Right(env, stack, cur, part)
  {
    RootOnly(env, stack);
    AppendRenders(env, stack, cur, part);
    if stack == [] {
      assert stack + [part] == [part];
    }
  }

  /** ".." does what the machine does, exactly when the entry at `cur` fits. */
  predicate Exact(env: Setting, parts: seq<string>, stack: seq<string>, cur: int, up: string)
    requires 1 <= cur <= |parts|
  {
    var st := StepBack(env, parts, Running(Render(env, stack), cur), up);
    if Fits(parts, stack, cur) then st == Right(env, stack, cur, up)
    else !Shows(env, st, Expected(env, stack, up))
  }

  /** ".." on a name: right exactly when the entry is no "." or ".." and as long as the name. */
  lemma UpOnName(env: Setting, parts: seq<string>, init: seq<string>, top: string, cur: int, up: string)
    requires |env.slash| == 1 && KindOf(top) == Name && KindOf(up) == Up && 1 <= cur <= |parts|
    requires |Render(env, init + [top])| <= env.cap && Expected(env, init + [top], up) == init
    ensures Exact(env, parts, init + [top], cur, up)
  {
    assert (init + [top])[..|init|] == init;
    RenderSnoc(env, init, top);
    if Fits(parts, init + [top], cur) {
      LowerRenders(env, init, top, cur);
    } else {
      KindLength(top);
      StepBackLength(env, parts, Render(env, init + [top]), cur, up);
    }
  }

  /** How long the text is after a ".." by what the entry says. */
  lemma StepBackLength(env: Setting, parts: seq<string>, out: string, cur: int, up: string)
    requires |env.slash| == 1 && KindOf(up) == Up && 1 <= cur <= |parts|
    ensures var st := StepBack(env, parts, Running(out, cur), up);
            var kind, n := KindOf(parts[cur - 1]), TableLength(parts, cur - 1);
            st.Running? ==>
              && (kind == Up ==> |st.out| == |out| + 2 + if |out| == |env.root| then 0 else 1)
              && (kind == Here ==> 1 <= n <= 2 && |st.out| == |out| - n + 2 + if |out| - n == |env.root| then 0 else 1)
              && (kind != Up && kind != Here ==> |st.out| == |out| - n)
  {
    KindLength(parts[cur - 1]);
    KindLength(up);
  }

  /** ".." on "..": right exactly when the entry is "..". */
  lemma UpOnUp(env: Setting, parts: seq<string>, stack: seq<string>, cur: int, up: string)
    requires |env.slash| == 1 && Shaped(env.root != [], stack) && stack != [] && 1 <= cur <= |parts|
    requires KindOf(stack[|stack| - 1]) == Up && KindOf(up) == Up && Expected(env, stack, up) == stack + [up]
    ensures Exact(env, parts, stack, cur, up)
  {
    if Fits(parts, stack, cur) {
      AppendRenders(env, stack, cur, up);
    } else {
      KindLength(up);
      RootOnly(env, stack);
      RenderSnoc(env, stack, up);
      StepBackLength(env, parts, Render(env, stack), cur, up);
    }
  }

  /** ".." on ".": right exactly when the entry is the first component, and ".". */
  lemma UpOnHere(env: Setting, parts: seq<string>, none: seq<string>, top: string, cur: int, up: string)
    requires |env.slash| == 1 && env.root == [] && KindOf(top) == Here && KindOf(up) == Up && 1 <= cur <= |parts|
    requires none == [] && Expected(env, none + [top], up) == none + [up]
    ensures Exact(env, parts, none + [top], cur, up)
  {
    var stack := none + [top];
    assert stack[..|stack| - 1] == none && stack[|stack| - 1] == top;
    RenderSnoc(env, none, top);
    if Fits(parts, stack, cur) {
      LowerRenders(env, none, top, cur);
      AppendRenders(env, none, cur, up);
    } else {
      KindLength(top);
      KindLength(up);
      RenderSnoc(env, none, up);
      StepBackLength(env, parts, Render(env, stack), cur, up);
    }
  }

  /**
    One iteration does what the machine does, refusals included, exactly when at ".." the entry at
    `cur` fits the top of the stack.
   */
  lemma StepExact(env: Setting, parts: seq<string>, stack: seq<string>, cur: int, part: string)
    requires Shaped(env.root != [], stack) && |env.slash| == 1 && |Render(env, stack)| <= env.cap
    ensures var st := Step(env, parts, Running(Render(env, stack), cur), part);
            if KindOf(part) == Up ==> Fits(parts, stack, cur) then st == Right(env, stack, cur, part)
            else !Shows(env, st, Expected(env, stack, part))
  {
    RootOnly(env, stack);
    if KindOf(part) == Up && stack != [] {
      if 1 <= cur <= |parts| {
        UpExact(env, parts, stack, cur, part);
      }
    } else {
      Forward(env, parts, stack, cur, part);
    }
  }

  lemma UpExact(env: Setting, parts: seq<string>, stack: seq<string>, cur: int, up: string)
    requires Shaped(env.root != [], stack) && |env.slash| == 1 && |Render(env, stack)| <= env.cap
    requires KindOf(up) == Up && stack != [] && 1 <= cur <= |parts|
    ensures Exact(env, parts, stack, cur, up)
  {
    var init, top := stack[..|stack| - 1], stack[|stack| - 1];
    assert stack == init + [top];
    UpExpected(env, init, top, up);
    match KindOf(top)
    case Name => UpOnName(env, parts, init, top, cur, up);
    case Up => UpOnUp(env, parts, stack, cur, up);
    case Here => UpOnHere(env, parts, init, top, cur, up);
  }

  lemma UpExpected(env: Setting, init: seq<string>, top: string, up: string)
    requires KindOf(up) == Up && Shaped(env.root != [], init + [top])
    ensures var stack' := Expected(env, init + [top], up);
            match KindOf(top)
            case Name => stack' == init
            case Up => stack' == init + [top] + [up]
            case Here => init == [] && env.root == [] && stack' == init + [up]
            case Empty => false
  {
    var stack := init + [top];
    assert stack[..|stack| - 1] == init && stack[|stack| - 1] == top;
    assert KindOf(top) == Here && init == [] ==> KindOf(stack[0]) == Here;
  }
}
