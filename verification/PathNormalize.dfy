/**
  `ffpath_normalize` as a function of its input bytes.

  `Run` follows the C loop: `out` is `dst[..k]`, which doubles as the stack of
  components, and is searched backwards for the component to remove.
 */
module PathNormalize {
  import opened PathSyntax

  /** The loop variables: `dst[..k]`, `simplify` and `skip_disk`. */
  datatype State = State(out: string, simplify: bool, skipDisk: bool)

  /** What ".." does: it is dropped after the rewind, or it is written after it. */
  datatype DotDot = Drop(out: string) | Write(out: string)

  function AtDotDot(cfg: Config, out: string): DotDot {
    if out == [] then
      if cfg.simple then Drop(out) else Write(out)
    else
      var k := |out|;
      var slash := LastSep(cfg, out[..k - 1]);
      var prev := out[slash + 1..k - 1];
      if slash < 0 then
        if prev == "." then Write([])
        else if prev == ".." then Write(out)
        else if k == 1 then Drop(out)
        else if cfg.disk && prev[|prev| - 1] == ':' then Drop(out)
        else Drop([])
      else if prev == ".." then Write(out)
      else Drop(out[..slash + 1])
  }

  /** A component with the separator that is written after it. */
  function Written(cfg: Config, c: Component): Component {
    if c.term == [] then c else Component(c.name, [OutSep(cfg, c.term[0])])
  }

  /** One iteration of the loop, for the component `c` with the separator to be written after it. */
  function Step(cfg: Config, st: State, c: Component): State {
    if st.simplify && (c.name == "" || c.name == ".") then st
    else if st.simplify && st.skipDisk && c.name[|c.name| - 1] == ':' then st.(skipDisk := false)
    else
      var st' := State(st.out, true, st.skipDisk && !st.simplify);
      if c.name == ".." then
        match AtDotDot(cfg, st.out)
        case Drop(out) => st'.(out := out)
        case Write(out) => st'.(out := out + c.name + c.term)
      else st'.(out := st.out + c.name + c.term)
  }

  /** The state after the iteration that splits off the first component of `s`. */
  function Next(cfg: Config, st: State, s: string): State
    requires s != []
  {
    Step(cfg, st, Written(cfg, Head(cfg, s)))
  }

  function Run(cfg: Config, st: State, s: string): State
    decreases |s|
  {
    if s == [] then st else Run(cfg, Next(cfg, st, s), Tail(cfg, s))
  }

  function Initial(cfg: Config): State {
    State([], cfg.simple, cfg.disk && cfg.simple)
  }

  /** Device and UNC paths are copied verbatim. */
  predicate Passthrough(cfg: Config, s: string) {
    cfg.disk && |s| > 2 && s[0] == '\\' && s[1] == '\\'
  }

  /** The text that `ffpath_normalize` writes, given enough room. */
  function Normalized(cfg: Config, s: string): string {
    if Passthrough(cfg, s) then s else Run(cfg, Initial(cfg), s).out
  }

  function Max(a: nat, b: nat): nat {
    if a < b then b else a
  }

  /** The longest that `dst[..k]` gets while `s` is processed. */
  function Peak(cfg: Config, st: State, s: string): nat
    decreases |s|
  {
    if s == [] then |st.out| else Max(|st.out|, Peak(cfg, Next(cfg, st, s), Tail(cfg, s)))
  }

  /** The room `ffpath_normalize` needs in `dst`. */
  function Room(cfg: Config, s: string): nat {
    if Passthrough(cfg, s) then |s| else Peak(cfg, Initial(cfg), s)
  }

  // ---- The stack of components behind the bytes ----

  /** The first component of a simplified path is a plain name. */
  predicate FirstNameOk(cfg: Config, items: seq<Component>) {
    cfg.simple && items != [] ==> Plain(items[0].name)
  }

  /**
    The shape of a normalized path: an empty name or "." only in front,
    ".." only after nothing but "..", and only separators that are written.
   */
  ghost predicate Normal(cfg: Config, items: seq<Component>) {
    && WellFormed(cfg, items)
    && FirstNameOk(cfg, items)
    && (forall i :: 0 < i < |items| ==> items[i].name != "" && items[i].name != ".")
    && (forall i :: 0 < i < |items| && items[i].name == ".." ==> items[i - 1].name == "..")
    && (forall i :: 0 <= i < |items| && items[i].term != [] ==> items[i].term == [OutSep(cfg, items[i].term[0])])
  }

  ghost predicate NormalForm(cfg: Config, s: string) {
    Normal(cfg, Parse(cfg, s))
  }

  /** The stack machine that the loop implements on the bytes of `dst`. */
  function Push(cfg: Config, items: seq<Component>, c: Component): seq<Component> {
    if c.name == "" || c.name == "." then items
    else if c.name != ".." then items + [c]
    else if items == [] then if cfg.simple then [] else [c]
    else
      var last := items[|items| - 1].name;
      if last == "." then [c]
      else if last == ".." then items + [c]
      else if last == "" then items
      else items[..|items| - 1]
  }

  function PushAll(cfg: Config, items: seq<Component>, input: seq<Component>): seq<Component>
    decreases |input|
  {
    if input == [] then items
    else PushAll(cfg, Push(cfg, items, Written(cfg, input[0])), input[1..])
  }

  /** The first component is kept as it is unless the path is simplified. */
  function Stack(cfg: Config, input: seq<Component>): seq<Component> {
    if cfg.simple || input == [] then PushAll(cfg, [], input)
    else PushAll(cfg, [Written(cfg, input[0])], input[1..])
  }

  // ---- The bytes and the stack agree ----

  lemma TextSnoc(items: seq<Component>, c: Component)
    ensures Text(items + [c]) == Text(items) + c.name + c.term
  {
    TextAppend(items, [c]);
    TextOne(c);
    Assoc(Text(items), c.name, c.term);
  }

  lemma TextOne(c: Component)
    ensures Text([c]) == c.name + c.term
  {
  }

  lemma LastSepAt(cfg: Config, front: string, name: string)
    requires NoSep(cfg, name)
    requires front == [] || IsSep(cfg, front[|front| - 1])
    ensures LastSep(cfg, front + name) == |front| - 1
  {
    var s := front + name;
    assert forall i :: |front| <= i < |s| ==> s[i] == name[i - |front|];
    assert front != [] ==> s[|front| - 1] == front[|front| - 1];
  }

  lemma TextEndsWithSep(cfg: Config, items: seq<Component>)
    requires AllClosed(cfg, items) && items != []
    ensures Text(items) != [] && IsSep(cfg, Text(items)[|Text(items)| - 1])
  {
  }

  /** The backward search finds the last component, and what happens depends on its name. */
  lemma AtDotDotAfter(cfg: Config, front: string, name: string, term: string)
    requires !cfg.disk && NoSep(cfg, name) && |term| == 1
    requires front == [] || IsSep(cfg, front[|front| - 1])
    requires front != [] ==> name != "" && name != "."
    ensures AtDotDot(cfg, front + name + term) ==
              if name == "." then Write([])
              else if name == ".." then Write(front + name + term)
              else if name == "" then Drop(front + name + term)
              else Drop(front)
  {
    var out := front + name + term;
    assert out[..|out| - 1] == front + name;
    LastSepAt(cfg, front, name);
    assert out[|front|..|out| - 1] == name;
    assert out[..|front|] == front;
  }

  /** What the code does at ".." is what the machine does, seen through `Text`. */
  lemma DotDotIsPop(cfg: Config, items: seq<Component>)
    requires !cfg.disk && Normal(cfg, items) && AllClosed(cfg, items) && items != []
    ensures var init, top := items[..|items| - 1], items[|items| - 1].name;
            AtDotDot(cfg, Text(items)) ==
              if top == "." then Write([])
              else if top == ".." then Write(Text(items))
              else if top == "" then Drop(Text(items))
              else Drop(Text(init))
  {
    var init, top := items[..|items| - 1], items[|items| - 1];
    assert items == init + [top];
    assert Closed(cfg, top);
    TextSnoc(init, top);
    if init != [] {
      TextEndsWithSep(cfg, init);
    }
    AtDotDotAfter(cfg, Text(init), top.name, top.term);
  }

  lemma StepIsPush(cfg: Config, items: seq<Component>, c: Component)
    requires !cfg.disk && Normal(cfg, items) && AllClosed(cfg, items)
    ensures var st := Step(cfg, State(Text(items), true, false), c);
            st.out == Text(Push(cfg, items, c)) && st.simplify && !st.skipDisk
  {
    if c.name == ".." && items != [] {
      UpIsPush(cfg, items, c);
    } else {
      TextSnoc(items, c);
      TextOne(c);
    }
  }

  lemma UpIsPush(cfg: Config, items: seq<Component>, c: Component)
    requires !cfg.disk && Normal(cfg, items) && AllClosed(cfg, items) && items != [] && c.name == ".."
    ensures Step(cfg, State(Text(items), true, false), c).out == Text(Push(cfg, items, c))
  {
    DotDotIsPop(cfg, items);
    TextSnoc(items, c);
    TextOne(c);
  }

  lemma PushKeepsNormal(cfg: Config, items: seq<Component>, c: Component)
    requires WritesSeparators(cfg)
    requires Normal(cfg, items) && AllClosed(cfg, items)
    requires Closed(cfg, c) || Open(cfg, c)
    ensures var r := Push(cfg, items, Written(cfg, c));
            Normal(cfg, r) && (Closed(cfg, c) ==> AllClosed(cfg, r))
  {
    var w := Written(cfg, c);
    assert Closed(cfg, c) ==> Closed(cfg, w);
    var r := Push(cfg, items, w);
    if r == items + [w] && items != [] {
      assert forall i :: 0 <= i < |items| ==> r[i] == items[i];
    }
  }

  lemma {:induction false} RunIsPushAll(cfg: Config, items: seq<Component>, s: string)
    requires !cfg.disk && WritesSeparators(cfg)
    requires Normal(cfg, items) && AllClosed(cfg, items)
    ensures Run(cfg, State(Text(items), true, false), s).out == Text(PushAll(cfg, items, Parse(cfg, s)))
    ensures Normal(cfg, PushAll(cfg, items, Parse(cfg, s)))
    decreases |s|
  {
    if s != [] {
      var c := Head(cfg, s);
      var items' := Push(cfg, items, Written(cfg, c));
      StepIsPush(cfg, items, Written(cfg, c));
      PushKeepsNormal(cfg, items, c);
      assert Parse(cfg, s)[1..] == Parse(cfg, Tail(cfg, s));
      if Tail(cfg, s) == [] {
      } else {
        RunIsPushAll(cfg, items', Tail(cfg, s));
      }
    }
  }

  lemma FirstStep(cfg: Config, s: string)
    requires !cfg.disk && !cfg.simple && WritesSeparators(cfg) && s != []
    ensures var w := Written(cfg, Head(cfg, s));
            && Next(cfg, Initial(cfg), s) == State(Text([w]), true, false)
            && Normal(cfg, [w])
            && (Tail(cfg, s) != [] ==> AllClosed(cfg, [w]))
  {
    TextOne(Written(cfg, Head(cfg, s)));
  }

  /** The normalized text is the text of the stack that the machine ends with, and that stack is normal. */
  lemma NormalizedIsStack(cfg: Config, s: string)
    requires !cfg.disk && WritesSeparators(cfg)
    ensures Normalized(cfg, s) == Text(Stack(cfg, Parse(cfg, s)))
    ensures Normal(cfg, Stack(cfg, Parse(cfg, s)))
  {
    if cfg.simple || s == [] {
      RunIsPushAll(cfg, [], s);
    } else {
      FirstStep(cfg, s);
      assert Parse(cfg, s)[1..] == Parse(cfg, Tail(cfg, s));
      if Tail(cfg, s) == [] {
        assert Run(cfg, Next(cfg, Initial(cfg), s), []) == Next(cfg, Initial(cfg), s);
      } else {
        RunIsPushAll(cfg, [Written(cfg, Head(cfg, s))], Tail(cfg, s));
      }
    }
  }
}
