/** What `ffpath_norm` takes for a root and a separator, and the rewritings that its documentation lists. */
module PathNormRules {
  import opened PathNorm
  import opened PathNormOutput
  import opened PathNormMethod
  import opened PathNormText
  import opened PathNormTheorems

  /** The same letter up to case: equal, or upper and lower case of one letter. */
  predicate SameLetter(a: char, b: char) {
    a == b || a as int + 32 == b as int || b as int + 32 == a as int
  }

  /** A drive is a letter and a colon, in the codes of ASCII. */
  lemma DriveLetters(s: string)
    ensures DriveName(s) <==>
            |s| >= 2 && (0x41 <= s[0] as int <= 0x5a || 0x61 <= s[0] as int <= 0x7a) && s[1] as int == 0x3a
  {
  }

  /** Two texts have the same drive exactly if they start with the same letter; it is written in upper case. */
  lemma DriveIsKept(s: string, t: string)
    requires DriveName(s) && DriveName(t)
    ensures RootText(true, s) == RootText(true, t) <==> SameLetter(s[0], t[0])
    ensures var root := RootText(true, s);
            |root| == 3 && 'A' <= root[0] <= 'Z' && SameLetter(root[0], s[0]) && root[1..] == ":\\"
  {
  }

  /** The other roots: one separator, written as the rules have it. */
  lemma OtherRoots(windows: bool, s: string)
    requires !(windows && DriveName(s))
    ensures RootText(windows, s) ==
              if s != [] && (s[0] == '/' || (windows && s[0] == '\\')) then if windows then "\\" else "/" else ""
    ensures RootEnd(windows, s) == |RootText(windows, s)|
  {
  }

  /** What is read of a drive: its two characters and one separator of either kind. */
  lemma DriveEnd(s: string)
    requires DriveName(s)
    ensures RootEnd(true, s) == if |s| > 2 && (s[2] == '/' || s[2] == '\\') then 3 else 2
  {
  }

  /** With Windows rules, and only then, a longer text that starts with two backslashes is copied. */
  lemma CopiedThrough(windows: bool, s: string)
    ensures Passthrough(windows, s) <==> windows && |s| > 2 && "\\\\" <= s
  {
  }

  /** Components are split at these characters and joined with that one. */
  lemma Separators(windows: bool, c: char)
    ensures IsSep(windows, c) <==> c == '/' || (windows && c == '\\')
    ensures Slash(windows) == if windows then "\\" else "/"
  {
  }

  // ---- The documented rewritings ----

  function Machine(rooted: bool, parts: seq<string>): seq<string> {
    PushAll(rooted, [], parts)
  }

  lemma OnePushed(rooted: bool, a: string)
    ensures Machine(rooted, [a]) == Push(rooted, [], a)
  {
    assert [a][..0] == [] && PushAll(rooted, [], []) == [];
  }

  lemma TwoPushed(rooted: bool, a: string, b: string)
    ensures Machine(rooted, [a, b]) == Push(rooted, Push(rooted, [], a), b)
  {
    assert [a, b][..1] == [a];
    OnePushed(rooted, a);
  }

  lemma ThreePushed(rooted: bool, a: string, b: string, c: string)
    ensures Machine(rooted, [a, b, c]) == Push(rooted, Push(rooted, Push(rooted, [], a), b), c)
  {
    assert [a, b, c][..2] == [a, b];
    TwoPushed(rooted, a, b);
  }

  /** Between two names: nothing and "." are left out, and ".." removes the name before it. */
  lemma BetweenNames(rooted: bool, x: string, y: string)
    requires KindOf(x) == Name && KindOf(y) == Name
    ensures Machine(rooted, [x, "", y]) == Machine(rooted, [x, ".", y]) == Machine(rooted, [x, y]) == [x, y]
    ensures Machine(rooted, [x, "..", y]) == Machine(rooted, [y]) == [y]
    ensures Machine(rooted, [x, y, ""]) == [x, y]
  {
    ThreePushed(rooted, x, "", y);
    ThreePushed(rooted, x, ".", y);
    ThreePushed(rooted, x, "..", y);
    ThreePushed(rooted, x, y, "");
    TwoPushed(rooted, x, y);
    OnePushed(rooted, y);
  }

  /** In front of a name: "." and ".." are kept in a relative path, once, and left out after the root. */
  lemma InFront(x: string)
    requires KindOf(x) == Name
    ensures Machine(false, [".", x]) == Machine(false, [".", ".", x]) == [".", x]
    ensures Machine(false, ["..", x]) == Machine(false, [".", "..", x]) == ["..", x]
    ensures Machine(false, ["..", "..", x]) == ["..", "..", x]
    ensures Machine(true, [".", x]) == Machine(true, ["..", x]) == Machine(true, ["", x]) == [x]
  {
    TwoPushed(false, ".", x);
    ThreePushed(false, ".", ".", x);
    TwoPushed(false, "..", x);
    ThreePushed(false, ".", "..", x);
    ThreePushed(false, "..", "..", x);
    TwoPushed(true, ".", x);
    TwoPushed(true, "..", x);
    TwoPushed(true, "", x);
  }
}
