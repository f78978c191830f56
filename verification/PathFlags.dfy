/**
  `ffpath_normalize` on its raw flags, numbered as callers pass them, and on the texts that its
  documentation gives as examples.
 */
module PathFlags {
  import opened PathSyntax
  import opened PathNormalize
  import opened PathTheorems

  /** Whether drives and double backslashes are handled: on request, or on Windows unless refused. */
  predicate HandlesDisks(flags: bv32, windows: bool) {
    flags & 0x20 != 0 || (windows && flags & 0x40 == 0)
  }

  /** Which characters split: the slash always, the backslash on request, or on Windows unless refused. */
  lemma SplitsAt(flags: bv32, windows: bool, c: char)
    ensures IsSep(Decode(flags, windows), c) <==>
            c == '/' || (c == '\\' && (flags & 2 != 0 || (windows && flags & 1 == 0)))
  {
  }

  /** The separator written for one that was read: a slash on request, else a backslash on request, else the same. */
  lemma WritesFor(flags: bv32, windows: bool, c: char)
    ensures OutSep(Decode(flags, windows), c) == if flags & 4 != 0 then '/' else if flags & 8 != 0 then '\\' else c
  {
  }

  /** Without simplifying and without drives, the location is preserved, for every text and all other flags. */
  lemma MeaningOnFlags(flags: bv32, windows: bool, s: string)
    requires flags & 0x10 == 0 && !HandlesDisks(flags, windows)
    requires flags & 8 != 0 && flags & 4 == 0 ==> flags & 2 != 0 || (windows && flags & 1 == 0)
    ensures var cfg := Decode(flags, windows); Meaning(cfg, Normalized(cfg, s)) == Meaning(cfg, s)
  {
    MeaningPreserved(Decode(flags, windows), s);
  }

  /** Setting the flag for simplifying is normalizing under the root, without the root. */
  lemma TwoModesOnFlags(flags: bv32, windows: bool, s: string)
    requires flags & 0x10 == 0 && !HandlesDisks(flags, windows)
    requires flags & 8 != 0 && flags & 4 == 0 ==> flags & 2 != 0 || (windows && flags & 1 == 0)
    ensures var sep := if flags & 4 != 0 then '/' else if flags & 8 != 0 then '\\' else '/';
            Normalized(Decode(flags, windows), "/" + s) == [sep] + Normalized(Decode(flags | 0x10, windows), s)
  {
    SimpleFlag(flags, windows);
    SimpleIsRooted(Decode(flags, windows), '/', s);
  }

  lemma SimpleFlag(flags: bv32, windows: bool)
    requires flags & 0x10 == 0
    ensures Decode(flags | 0x10, windows) == Decode(flags, windows).(simple := true)
    ensures !Decode(flags, windows).simple
  {
    OtherBits(flags);
  }

  lemma OtherBits(flags: bv32)
    ensures (flags | 0x10) & 1 == flags & 1 && (flags | 0x10) & 2 == flags & 2 && (flags | 0x10) & 3 == flags & 3
    ensures (flags | 0x10) & 4 == flags & 4 && (flags | 0x10) & 8 == flags & 8 && (flags | 0x10) & 0x10 != 0
    ensures (flags | 0x10) & 0x20 == flags & 0x20 && (flags | 0x10) & 0x60 == flags & 0x60
  {
  }

  // ---- Drives and double backslashes ----

  /** A text of more than two characters that starts with two backslashes is copied, exactly if disks are handled. */
  lemma DoubleBackslash(flags: bv32, windows: bool, s: string)
    ensures Passthrough(Decode(flags, windows), s) <==> HandlesDisks(flags, windows) && |s| > 2 && "\\\\" <= s
    ensures HandlesDisks(flags, windows) && |s| > 2 && "\\\\" <= s ==> Normalized(Decode(flags, windows), s) == s
  {
  }

  // ---- The documented rewritings ----

  /** Three components, of which the last has no separator. */
  function Three(a: string, b: string, c: string): seq<Component> {
    [Component(a, "/"), Component(b, "/"), Component(c, "")]
  }

  function Two(a: string, b: string): seq<Component> {
    [Component(a, "/"), Component(b, "")]
  }

  /** No drives, not simplified, and a slash is written as a slash. */
  predicate Ordinary(cfg: Config) {
    !cfg.disk && !cfg.simple && OutSep(cfg, '/') == '/'
  }

  lemma OfThree(cfg: Config, a: string, b: string, c: string)
    requires Ordinary(cfg) && NoSep(cfg, a) && NoSep(cfg, b) && NoSep(cfg, c) && c != ""
    ensures var x, y, z := Component(a, "/"), Component(b, "/"), Component(c, "");
            Normalized(cfg, Text(Three(a, b, c))) == Text(PathNormalize.Push(cfg, PathNormalize.Push(cfg, [x], y), z))
  {
    var input := Three(a, b, c);
    ParseOfText(cfg, input);
    NormalizedIsStack(cfg, Text(input));
    PushTwo(cfg, [input[0]], input[1], input[2]);
    assert input[1..] == [input[1], input[2]];
  }

  lemma PushTwo(cfg: Config, items: seq<Component>, y: Component, z: Component)
    requires Written(cfg, y) == y && Written(cfg, z) == z
    ensures PushAll(cfg, items, [y, z]) == PathNormalize.Push(cfg, PathNormalize.Push(cfg, items, y), z)
  {
    assert [y, z][1..] == [z] && [z][1..] == [];
    var once := PathNormalize.Push(cfg, items, y);
    assert PushAll(cfg, once, [z]) == PathNormalize.Push(cfg, once, z);
  }

  /** "x/./y" and "x//y" become "x/y", and "x/../y" becomes "y". */
  lemma BetweenNames(cfg: Config, x: string, y: string)
    requires Ordinary(cfg) && NoSep(cfg, x) && NoSep(cfg, y) && Plain(x) && Plain(y)
    ensures Normalized(cfg, Text(Three(x, ".", y))) == Normalized(cfg, Text(Three(x, "", y))) == Text(Two(x, y))
    ensures Normalized(cfg, Text(Three(x, "..", y))) == Text([Component(y, "")])
  {
    OfThree(cfg, x, ".", y);
    OfThree(cfg, x, "", y);
    OfThree(cfg, x, "..", y);
  }

  /** "./x/y" and "../x/y" stay. */
  lemma InFront(cfg: Config, x: string, y: string)
    requires Ordinary(cfg) && NoSep(cfg, x) && NoSep(cfg, y) && Plain(x) && Plain(y)
    ensures Normalized(cfg, Text(Three(".", x, y))) == Text(Three(".", x, y))
    ensures Normalized(cfg, Text(Three("..", x, y))) == Text(Three("..", x, y))
  {
    OfThree(cfg, ".", x, y);
    OfThree(cfg, "..", x, y);
  }

  /** "./../y" becomes "../y", and "/../y" becomes "/y". */
  lemma UpInFront(cfg: Config, y: string)
    requires Ordinary(cfg) && NoSep(cfg, y) && Plain(y)
    ensures Normalized(cfg, Text(Three(".", "..", y))) == Text(Two("..", y))
    ensures Normalized(cfg, Text(Three("", "..", y))) == Text(Two("", y))
  {
    OfThree(cfg, ".", "..", y);
    OfThree(cfg, "", "..", y);
  }
}
