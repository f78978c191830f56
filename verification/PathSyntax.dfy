/**
  The vocabulary of `ffpath_normalize`: flags, separators, and what a path text means.

  A path text is split at separators into `Component`s. `Meaning` walks the
  components from the root or from the current directory and yields the lexical
  location the text denotes; it knows nothing about how a path is rewritten.
 */
module PathSyntax {

  /** What the flags ask to be written as separator. */
  datatype Force = AsRead | Slash | Backslash

  /** The decoded flags of `ffpath_normalize`. */
  datatype Config = Config(backslashSplits: bool, force: Force, simple: bool, disk: bool)

  const SLASH_ONLY: bv32 := 1
  const SLASH_BACKSLASH: bv32 := 2
  const FORCE_SLASH: bv32 := 4
  const FORCE_BACKSLASH: bv32 := 8
  const SIMPLE: bv32 := 0x10
  const DISK_LETTER: bv32 := 0x20
  const NO_DISK_LETTER: bv32 := 0x40

  /** Flag decoding, with the Windows defaults. */
  function Decode(flags: bv32, windows: bool): Config {
    Config(
      flags & SLASH_BACKSLASH != 0 || (windows && flags & (SLASH_BACKSLASH | SLASH_ONLY) == 0),
      if flags & FORCE_SLASH != 0 then Slash else if flags & FORCE_BACKSLASH != 0 then Backslash else AsRead,
      flags & SIMPLE != 0,
      flags & DISK_LETTER != 0 || (windows && flags & (DISK_LETTER | NO_DISK_LETTER) == 0))
  }

  predicate IsSep(cfg: Config, c: char) {
    c == '/' || (cfg.backslashSplits && c == '\\')
  }

  /** The separator written for a separator `c` that was read. */
  function OutSep(cfg: Config, c: char): char {
    match cfg.force
    case AsRead => c
    case Slash => '/'
    case Backslash => '\\'
  }

  /** Every separator that can be written is one that splits paths. */
  predicate WritesSeparators(cfg: Config) {
    cfg.force != Backslash || cfg.backslashSplits
  }

  predicate NoSep(cfg: Config, s: string) {
    forall i :: 0 <= i < |s| ==> !IsSep(cfg, s[i])
  }

  /** Index of the first separator, or the length when there is none (`ffstr_splitbyany`). */
  function FirstSep(cfg: Config, s: string): (n: nat)
    ensures n <= |s|
    ensures forall i :: 0 <= i < n ==> !IsSep(cfg, s[i])
    ensures n < |s| ==> IsSep(cfg, s[n])
  {
    if s == [] || IsSep(cfg, s[0]) then 0
    else
      assert forall i :: 0 < i < |s| ==> s[i] == s[1..][i - 1];
      1 + FirstSep(cfg, s[1..])
  }

  /** Index of the last separator, or -1 (`ffs_rfindany`). */
  function LastSep(cfg: Config, s: string): (n: int)
    ensures -1 <= n < |s|
    ensures forall i :: n < i < |s| ==> !IsSep(cfg, s[i])
    ensures n >= 0 ==> IsSep(cfg, s[n])
  {
    if s == [] then -1
    else if IsSep(cfg, s[|s| - 1]) then |s| - 1
    else LastSep(cfg, s[..|s| - 1])
  }

  /** A component of a path text and the separator that ends it: `term` is empty or one character. */
  datatype Component = Component(name: string, term: string)

  function Text(items: seq<Component>): string {
    if items == [] then []
    else items[0].name + items[0].term + Text(items[1..])
  }

  /** The first component of a path text and its separator, as they are split off (`ffstr_splitbyany`). */
  function Head(cfg: Config, s: string): (c: Component)
    requires s != []
    ensures 0 < |c.name| + |c.term| <= |s|
    ensures Closed(cfg, c) || (Open(cfg, c) && c.name == s)
  {
    var n := FirstSep(cfg, s);
    if n == |s| then Component(s, []) else Component(s[..n], [s[n]])
  }

  /** What remains when the first component is split off. */
  function Tail(cfg: Config, s: string): (rest: string)
    requires s != []
    ensures |Head(cfg, s).name| + |Head(cfg, s).term| + |rest| == |s|
    ensures Head(cfg, s).term == [] ==> rest == []
  {
    s[|Head(cfg, s).name| + |Head(cfg, s).term|..]
  }

  /** The components of a path text, in order. */
  function Parse(cfg: Config, s: string): seq<Component>
    decreases |s|
  {
    if s == [] then [] else [Head(cfg, s)] + Parse(cfg, Tail(cfg, s))
  }

  predicate Closed(cfg: Config, c: Component) {
    NoSep(cfg, c.name) && |c.term| == 1 && IsSep(cfg, c.term[0])
  }

  predicate Open(cfg: Config, c: Component) {
    NoSep(cfg, c.name) && c.name != [] && c.term == []
  }

  ghost predicate AllClosed(cfg: Config, items: seq<Component>) {
    forall i :: 0 <= i < |items| ==> Closed(cfg, items[i])
  }

  /** Only the last component may lack its separator, and then its name is not empty. */
  ghost predicate WellFormed(cfg: Config, items: seq<Component>) {
    forall i :: 0 <= i < |items| ==>
      Closed(cfg, items[i])
      || (i == |items| - 1 && Open(cfg, items[i]))
  }

  /** Where a path text leads: from the root, or `ups` levels up from the current directory. */
  datatype Location = Abs(stack: seq<string>) | Rel(ups: nat, stack: seq<string>)

  function Enter(loc: Location, name: string): Location {
    if name == "" || name == "." then loc
    else if name == ".." then
      match loc
      case Abs(stack) => if stack == [] then loc else Abs(stack[..|stack| - 1])
      case Rel(ups, stack) => if stack == [] then Rel(ups + 1, []) else Rel(ups, stack[..|stack| - 1])
    else
      match loc
      case Abs(stack) => Abs(stack + [name])
      case Rel(ups, stack) => Rel(ups, stack + [name])
  }

  function Walk(loc: Location, items: seq<Component>): Location
    decreases |items|
  {
    if items == [] then loc
    else Enter(Walk(loc, items[..|items| - 1]), items[|items| - 1].name)
  }

  function Start(items: seq<Component>): Location {
    if items != [] && items[0].name == "" then Abs([]) else Rel(0, [])
  }

  /** The location a list of components leads to; an empty first name is the root. */
  function LocationOf(items: seq<Component>): Location {
    Walk(Start(items), items)
  }

  /** The location a path text denotes. */
  function Meaning(cfg: Config, s: string): Location {
    LocationOf(Parse(cfg, s))
  }

  /** The shortest list of names that leads to a location. */
  function Names(loc: Location): seq<string> {
    match loc
    case Abs(stack) => [""] + stack
    case Rel(ups, stack) => seq(ups, _ => "..") + stack
  }

  // ---- Parsing and printing are inverse ----

  lemma {:induction false} ParseIsWellFormed(cfg: Config, s: string)
    ensures WellFormed(cfg, Parse(cfg, s))
    decreases |s|
  {
    if s != [] {
      ParseIsWellFormed(cfg, Tail(cfg, s));
    }
  }

  lemma TextCons(c: Component, rest: seq<Component>)
    ensures Text([c] + rest) == c.name + c.term + Text(rest)
  {
  }

  lemma {:induction false} TextOfParse(cfg: Config, s: string)
    ensures Text(Parse(cfg, s)) == s
    decreases |s|
  {
    if s != [] {
      TextOfParse(cfg, Tail(cfg, s));
      var c := Head(cfg, s);
      assert c.name + c.term == s[..|c.name| + |c.term|];
      TextCons(Head(cfg, s), Parse(cfg, Tail(cfg, s)));
    }
  }

  lemma FirstSepAt(cfg: Config, name: string, rest: string)
    requires NoSep(cfg, name)
    requires rest == [] || IsSep(cfg, rest[0])
    ensures FirstSep(cfg, name + rest) == |name|
  {
    var s := name + rest;
    assert forall i :: 0 <= i < |name| ==> s[i] == name[i];
    assert rest != [] ==> s[|name|] == rest[0];
  }

  lemma ParseCons(cfg: Config, c: Component, tail: string)
    requires Closed(cfg, c) || (Open(cfg, c) && tail == [])
    ensures Head(cfg, c.name + c.term + tail) == c && Tail(cfg, c.name + c.term + tail) == tail
    ensures Parse(cfg, c.name + c.term + tail) == [c] + Parse(cfg, tail)
  {
    var s := c.name + c.term + tail;
    var n := |c.name|;
    FirstSepAt(cfg, c.name, c.term + tail);
    assert s == c.name + (c.term + tail);
    if Closed(cfg, c) {
      assert s[..n] == c.name && [s[n]] == c.term && s[n + 1..] == tail;
    } else {
      assert s == c.name;
    }
  }

  lemma {:induction false} ParseOfText(cfg: Config, items: seq<Component>)
    requires WellFormed(cfg, items)
    ensures Parse(cfg, Text(items)) == items
  {
    if items != [] {
      var c, rest := items[0], items[1..];
      assert WellFormed(cfg, rest) by {
        assert forall i :: 0 <= i < |rest| ==> rest[i] == items[i + 1];
      }
      ParseOfText(cfg, rest);
      ParseCons(cfg, c, Text(rest));
      assert Text(items) == c.name + c.term + Text(rest);
      assert items == [c] + rest;
    }
  }

  lemma Assoc(x: string, y: string, z: string)
    ensures x + (y + z) == x + y + z
  {
  }

  lemma {:induction false} TextAppend(a: seq<Component>, b: seq<Component>)
    ensures Text(a + b) == Text(a) + Text(b)
  {
    if a == [] {
      assert a + b == b;
    } else {
      var c, rest := a[0], a[1..];
      TextAppend(rest, b);
      TextCons(c, rest + b);
      assert a + b == [c] + (rest + b);
      Assoc(c.name + c.term, Text(rest), Text(b));
    }
  }

  predicate Plain(name: string) {
    name != "" && name != "." && name != ".."
  }

  lemma LeaveWhatWasEntered(loc: Location, name: string)
    requires Plain(name)
    ensures Enter(Enter(loc, name), "..") == loc
  {
  }

  lemma LocationAppend(items: seq<Component>, c: Component)
    requires items == [] ==> c.name != ""
    ensures LocationOf(items + [c]) == Enter(LocationOf(items), c.name)
  {
  }

  lemma WalkAppend(loc: Location, items: seq<Component>, c: Component)
    ensures Walk(loc, items + [c]) == Enter(Walk(loc, items), c.name)
  {
  }

  /** Which raw flags make the written separator one that does not split. */
  lemma WritesSeparatorsFlags(flags: bv32, windows: bool)
    ensures !WritesSeparators(Decode(flags, windows)) <==>
            && flags & FORCE_BACKSLASH != 0
            && flags & FORCE_SLASH == 0
            && flags & SLASH_BACKSLASH == 0
            && (windows ==> flags & SLASH_ONLY != 0)
  {
  }
}
