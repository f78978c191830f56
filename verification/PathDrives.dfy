/** `ffpath_normalize` with drives: the first component is a drive if it ends with a colon. */
module PathDrives {
  import opened PathSyntax
  import opened PathNormalize
  import opened PathTheorems

  predicate EndsWithColon(name: string) {
    name != [] && name[|name| - 1] == ':'
  }

  /** The configuration for what follows a drive: simplified, and with no more drives. */
  function Below(cfg: Config): Config {
    cfg.(simple := true, disk := false)
  }

  function NoDisk(cfg: Config): Config {
    cfg.(disk := false)
  }

  lemma TextOfDrive(drive: Component, items: seq<Component>)
    ensures Text([drive] + items) == drive.name + drive.term + Text(items)
    ensures Text([drive]) == drive.name + drive.term
  {
    TextCons(drive, items);
    TextOne(drive);
  }

  /** ".." on the drive alone leaves it. */
  lemma UpOnDrive(cfg: Config, drive: Component)
    requires cfg.disk && Closed(cfg, drive) && EndsWithColon(drive.name)
    ensures AtDotDot(cfg, Text([drive])) == Drop(Text([drive]))
  {
    TextOne(drive);
    UpOnFirst(cfg, drive.name, drive.term);
  }

  /** What ".." does to a single component. */
  lemma UpOnFirst(cfg: Config, name: string, term: string)
    requires NoSep(cfg, name) && |term| == 1
    ensures AtDotDot(cfg, name + term) ==
              if name == "." then Write([])
              else if name == ".." then Write(name + term)
              else if name == "" || (cfg.disk && EndsWithColon(name)) then Drop(name + term)
              else Drop([])
  {
    var out := name + term;
    assert out[..|out| - 1] == name;
    assert LastSep(cfg, name) < 0;
    assert out[0..|out| - 1] == name;
  }

  /** Drives make no difference to ".." if there is a separator in front of the last component. */
  lemma UpSame(cfg: Config, out: string)
    requires out != [] && LastSep(cfg, out[..|out| - 1]) >= 0
    ensures AtDotDot(cfg, out) == AtDotDot(NoDisk(cfg), out)
  {
    SameLastSep(cfg, out[..|out| - 1]);
  }

  /** With something below the drive, it is as without drives. */
  lemma UpBelowDrive(cfg: Config, drive: Component, items: seq<Component>)
    requires Closed(cfg, drive) && AllClosed(cfg, items) && items != []
    ensures AtDotDot(cfg, Text([drive] + items)) == AtDotDot(NoDisk(cfg), Text([drive] + items))
  {
    assert Closed(cfg, items[0]);
    TextNotEmpty(items);
    UpInText(cfg, drive.name, drive.term, Text(items));
    TextOfDrive(drive, items);
  }

  lemma TextNotEmpty(items: seq<Component>)
    requires items != [] && items[0].term != []
    ensures Text(items) != []
  {
  }

  lemma UpInText(cfg: Config, front: string, term: string, rest: string)
    requires |term| == 1 && IsSep(cfg, term[0]) && rest != []
    ensures var out := front + term + rest; AtDotDot(cfg, out) == AtDotDot(NoDisk(cfg), out)
  {
    var out := front + term + rest;
    SeparatorIsFound(cfg, out[..|out| - 1], |front|);
    UpSame(cfg, out);
  }

  lemma SeparatorIsFound(cfg: Config, s: string, i: nat)
    requires i < |s| && IsSep(cfg, s[i])
    ensures LastSep(cfg, s) >= 0
  {
  }

  lemma {:induction false} SameLastSep(cfg: Config, s: string)
    ensures LastSep(NoDisk(cfg), s) == LastSep(cfg, s)
    decreases |s|
  {
    if s != [] {
      SameLastSep(cfg, s[..|s| - 1]);
    }
  }

  /** A plain name with a separator that is written. */
  predicate Ordinary(cfg: Config, c: Component) {
    Closed(cfg, c) && Plain(c.name) && c.term == [OutSep(cfg, c.term[0])]
  }

  lemma ItemsBelowDrive(cfg: Config, items: seq<Component>)
    requires Normal(Below(cfg), items) && AllClosed(Below(cfg), items)
    ensures forall i :: 0 <= i < |items| ==> Ordinary(NoDisk(cfg), items[i])
  {
    forall i | 0 <= i < |items|
      ensures Ordinary(NoDisk(cfg), items[i])
    {
      SimpleNamesArePlain(Below(cfg), items, i);
      assert Closed(Below(cfg), items[i]);
      assert items[i].term == [OutSep(Below(cfg), items[i].term[0])];
      SameSeparators(cfg, items[i]);
    }
  }

  lemma SameSeparators(cfg: Config, c: Component)
    ensures Closed(NoDisk(cfg), c) == Closed(Below(cfg), c)
  {
    assert forall x :: IsSep(NoDisk(cfg), x) == IsSep(Below(cfg), x);
  }

  lemma OrdinaryIsNormal(cfg: Config, items: seq<Component>)
    requires forall i :: 0 <= i < |items| ==> Ordinary(cfg, items[i])
    ensures Normal(cfg, items) && AllClosed(cfg, items)
  {
    assert forall i :: 0 <= i < |items| ==> Closed(cfg, items[i]) && Plain(items[i].name);
  }

  lemma StackBelowDrive(cfg: Config, drive: Component, items: seq<Component>)
    requires Closed(cfg, drive) && EndsWithColon(drive.name)
    requires drive.term == [OutSep(cfg, drive.term[0])]
    requires Normal(Below(cfg), items) && AllClosed(Below(cfg), items)
    ensures var all := [drive] + items; Normal(NoDisk(cfg), all) && AllClosed(NoDisk(cfg), all)
    ensures forall i :: 0 <= i < |items| ==> Plain(items[i].name)
  {
    ItemsBelowDrive(cfg, items);
    assert forall x :: IsSep(NoDisk(cfg), x) == IsSep(cfg, x);
    OrdinaryIsNormal(NoDisk(cfg), [drive] + items);
  }

  lemma UpIsPushBelow(cfg: Config, drive: Component, items: seq<Component>, c: Component)
    requires cfg.disk && WritesSeparators(cfg) && Closed(cfg, drive) && EndsWithColon(drive.name)
    requires drive.term == [OutSep(cfg, drive.term[0])]
    requires Normal(Below(cfg), items) && AllClosed(Below(cfg), items) && c.name == ".."
    ensures AtDotDot(cfg, Text([drive] + items)) == Drop(Text([drive] + PathNormalize.Push(Below(cfg), items, c)))
  {
    var all := [drive] + items;
    StackBelowDrive(cfg, drive, items);
    if items == [] {
      UpOnDrive(cfg, drive);
      assert all == [drive];
    } else {
      UpBelowDrive(cfg, drive, items);
      DotDotIsPop(NoDisk(cfg), all);
      assert all[|all| - 1] == items[|items| - 1];
      assert all[..|all| - 1] == [drive] + items[..|items| - 1];
    }
  }

  /** One iteration below a drive is one of the simplified path, and the drive stays. */
  lemma StepBelowDrive(cfg: Config, drive: Component, items: seq<Component>, c: Component)
    requires cfg.disk && WritesSeparators(cfg) && Closed(cfg, drive) && EndsWithColon(drive.name)
    requires drive.term == [OutSep(cfg, drive.term[0])]
    requires Normal(Below(cfg), items) && AllClosed(Below(cfg), items)
    ensures Step(cfg, State(Text([drive] + items), true, false), c)
         == State(Text([drive] + PathNormalize.Push(Below(cfg), items, c)), true, false)
  {
    if c.name == ".." {
      UpIsPushBelow(cfg, drive, items, c);
    } else if Plain(c.name) {
      TextSnoc([drive] + items, c);
      assert [drive] + items + [c] == [drive] + (items + [c]);
    }
  }

  lemma {:induction false} RunBelowDrive(cfg: Config, drive: Component, items: seq<Component>, s: string)
    requires cfg.disk && WritesSeparators(cfg) && Closed(cfg, drive) && EndsWithColon(drive.name)
    requires drive.term == [OutSep(cfg, drive.term[0])]
    requires Normal(Below(cfg), items) && AllClosed(Below(cfg), items)
    ensures Run(cfg, State(Text([drive] + items), true, false), s).out
         == Text([drive] + PushAll(Below(cfg), items, Parse(Below(cfg), s)))
    decreases |s|
  {
    if s != [] {
      SameHead(cfg, s);
      var c := Head(cfg, s);
      var items' := PathNormalize.Push(Below(cfg), items, Written(cfg, c));
      StepBelowDrive(cfg, drive, items, Written(cfg, c));
      PushKeepsNormal(Below(cfg), items, c);
      assert Parse(Below(cfg), s)[1..] == Parse(Below(cfg), Tail(cfg, s));
      if Tail(cfg, s) != [] {
        RunBelowDrive(cfg, drive, items', Tail(cfg, s));
      }
    }
  }

  lemma SameHead(cfg: Config, s: string)
    requires s != []
    ensures var b := Below(cfg);
            && Head(b, s) == Head(cfg, s) && Tail(b, s) == Tail(cfg, s)
            && Written(b, Head(b, s)) == Written(cfg, Head(cfg, s))
  {
    assert forall c :: IsSep(cfg, c) == IsSep(Below(cfg), c);
    assert FirstSep(cfg, s) == FirstSep(Below(cfg), s);
  }

  /** A drive is a root: it stays, and what follows is simplified, for every text. */
  lemma DriveIsRoot(cfg: Config, name: string, sep: char, s: string)
    requires cfg.disk && !cfg.simple && WritesSeparators(cfg)
    requires NoSep(cfg, name) && EndsWithColon(name) && !("\\\\" <= name) && IsSep(cfg, sep)
    ensures Normalized(cfg, name + [sep] + s) == name + [OutSep(cfg, sep)] + Normalized(Below(cfg), s)
  {
    DriveStays(cfg, name, sep, s);
    RunOfDrive(cfg, name, OutSep(cfg, sep), s);
  }

  lemma RunOfDrive(cfg: Config, name: string, sep: char, s: string)
    requires cfg.disk && WritesSeparators(cfg) && NoSep(cfg, name) && EndsWithColon(name)
    requires IsSep(cfg, sep) && OutSep(cfg, sep) == sep
    ensures Run(cfg, State(name + [sep], true, false), s).out == name + [sep] + Normalized(Below(cfg), s)
  {
    var drive := Component(name, [sep]);
    TextOfDrive(drive, []);
    assert [drive] + [] == [drive];
    RunBelowDrive(cfg, drive, [], s);
    NormalizedIsStack(Below(cfg), s);
    TextOfDrive(drive, PushAll(Below(cfg), [], Parse(Below(cfg), s)));
  }

  lemma DriveStays(cfg: Config, name: string, sep: char, s: string)
    requires !cfg.simple && NoSep(cfg, name) && EndsWithColon(name) && !("\\\\" <= name) && IsSep(cfg, sep)
    ensures Normalized(cfg, name + [sep] + s) == Run(cfg, State(name + [OutSep(cfg, sep)], true, false), s).out
  {
    RunCons(cfg, Initial(cfg), Component(name, [sep]), s);
    StepWrites(cfg, Initial(cfg), Component(name, [OutSep(cfg, sep)]));
    NoDoubleBackslash(cfg, name, sep, s);
  }

  lemma NoDoubleBackslash(cfg: Config, name: string, sep: char, s: string)
    requires EndsWithColon(name) && !("\\\\" <= name)
    ensures !Passthrough(cfg, name + [sep] + s)
  {
    var all := name + [sep] + s;
    assert all[..|name|] == name;
    assert all[0] == name[0];
    assert |name| > 1 ==> all[1] == name[1];
  }

  /** The drive is kept, and what follows it leads to the same location below it. */
  lemma DriveMeaning(cfg: Config, name: string, sep: char, s: string)
    requires cfg.disk && !cfg.simple && WritesSeparators(cfg)
    requires NoSep(cfg, name) && EndsWithColon(name) && !("\\\\" <= name) && IsSep(cfg, sep)
    ensures var out, n := Normalized(cfg, name + [sep] + s), |name|;
            && |out| > n && out[..n] == name && IsSep(cfg, out[n])
            && Meaning(NoDisk(cfg), out[n..]) == Meaning(NoDisk(cfg), [sep] + s)
  {
    var d, rest := NoDisk(cfg), [OutSep(cfg, sep)] + Normalized(Below(cfg), s);
    DriveIsRoot(cfg, name, sep, s);
    SimpleIsRooted(d, sep, s);
    MeaningPreserved(d, [sep] + s);
    SplitAfter(name, [OutSep(cfg, sep)], Normalized(Below(cfg), s));
    assert rest[0] == OutSep(cfg, sep);
  }

  lemma SplitAfter(a: string, b: string, c: string)
    ensures (a + b + c)[..|a|] == a && (a + b + c)[|a|..] == b + c
  {
  }

  /** Normalizing a path with a drive twice is normalizing it once. */
  lemma DriveIdempotent(cfg: Config, name: string, sep: char, s: string)
    requires cfg.disk && !cfg.simple && WritesSeparators(cfg)
    requires NoSep(cfg, name) && EndsWithColon(name) && !("\\\\" <= name) && IsSep(cfg, sep)
    ensures var out := Normalized(cfg, name + [sep] + s); Normalized(cfg, out) == out
  {
    DriveIsRoot(cfg, name, sep, s);
    DriveIsRoot(cfg, name, OutSep(cfg, sep), Normalized(Below(cfg), s));
    Idempotent(Below(cfg), s);
  }

  // ---- Simplified paths lose their drive ----

  lemma SkipDrive(cfg: Config, name: string, sep: char, s: string)
    requires cfg.disk && cfg.simple
    requires NoSep(cfg, name) && EndsWithColon(name) && !("\\\\" <= name) && IsSep(cfg, sep)
    ensures Normalized(cfg, name + [sep] + s) == Run(cfg, State([], true, false), s).out
  {
    RunCons(cfg, Initial(cfg), Component(name, [sep]), s);
    StepSkips(cfg, Written(cfg, Component(name, [sep])));
    NoDoubleBackslash(cfg, name, sep, s);
  }

  lemma StepSkips(cfg: Config, c: Component)
    requires EndsWithColon(c.name)
    ensures Step(cfg, State([], true, true), c) == State([], true, false)
  {
  }

  /** Only the first drive is removed from a simplified path: a second one is a root. */
  lemma SecondDriveIsRoot(cfg: Config, first: string, sep: char, name: string, sep': char, s: string)
    requires cfg.disk && cfg.simple && WritesSeparators(cfg) && IsSep(cfg, sep) && IsSep(cfg, sep')
    requires NoSep(cfg, first) && EndsWithColon(first) && !("\\\\" <= first) && NoSep(cfg, name) && EndsWithColon(name)
    ensures Normalized(cfg, first + [sep] + (name + [sep'] + s))
         == name + [OutSep(cfg, sep')] + Normalized(Below(cfg), s)
  {
    SkipDrive(cfg, first, sep, name + [sep'] + s);
    DriveIsWritten(cfg, name, sep', s);
    RunOfDrive(cfg, name, OutSep(cfg, sep'), s);
  }

  lemma DriveIsWritten(cfg: Config, name: string, sep: char, s: string)
    requires NoSep(cfg, name) && EndsWithColon(name) && IsSep(cfg, sep)
    ensures Run(cfg, State([], true, false), name + [sep] + s)
         == Run(cfg, State(name + [OutSep(cfg, sep)], true, false), s)
  {
    RunCons(cfg, State([], true, false), Component(name, [sep]), s);
    StepWrites(cfg, State([], true, false), Component(name, [OutSep(cfg, sep)]));
  }

  lemma StepWrites(cfg: Config, st: State, c: Component)
    requires EndsWithColon(c.name) && st.out == [] && !st.skipDisk
    ensures Step(cfg, st, c) == State(c.name + c.term, true, false)
  {
    assert [] + c.name == c.name;
  }

  // ---- Without drives in it, a path is normalized as if there were none ----

  ghost predicate Driveless(items: seq<Component>) {
    forall i :: 0 <= i < |items| ==> !EndsWithColon(items[i].name)
  }

  lemma UpWithoutDrive(cfg: Config, items: seq<Component>)
    requires AllClosed(cfg, items) && Driveless(items)
    ensures AtDotDot(cfg, Text(items)) == AtDotDot(NoDisk(cfg), Text(items))
  {
    if items != [] {
      var drive, rest := items[0], items[1..];
      assert items == [drive] + rest;
      if rest == [] {
        UpWithoutDriveAlone(cfg, drive);
      } else {
        UpBelowDrive(cfg, drive, rest);
      }
    }
  }

  lemma UpWithoutDriveAlone(cfg: Config, c: Component)
    requires Closed(cfg, c) && !EndsWithColon(c.name)
    ensures AtDotDot(cfg, Text([c])) == AtDotDot(NoDisk(cfg), Text([c]))
  {
    TextOne(c);
    assert NoSep(NoDisk(cfg), c.name);
    UpOnFirst(cfg, c.name, c.term);
    UpOnFirst(NoDisk(cfg), c.name, c.term);
  }

  lemma StepWithoutDrive(cfg: Config, items: seq<Component>, skip: bool, c: Component)
    requires Normal(NoDisk(cfg), items) && AllClosed(NoDisk(cfg), items) && Driveless(items) && !EndsWithColon(c.name)
    ensures var st := Step(cfg, State(Text(items), true, skip), c);
            st.out == Text(PathNormalize.Push(NoDisk(cfg), items, c)) && st.simplify
  {
    SameClosed(cfg, items);
    StepIsPush(NoDisk(cfg), items, c);
    UpWithoutDrive(cfg, items);
  }

  lemma SameClosed(cfg: Config, items: seq<Component>)
    requires AllClosed(NoDisk(cfg), items)
    ensures AllClosed(cfg, items)
  {
    assert forall x :: IsSep(cfg, x) == IsSep(NoDisk(cfg), x);
    forall i | 0 <= i < |items|
      ensures Closed(cfg, items[i])
    {
      assert Closed(NoDisk(cfg), items[i]);
    }
  }

  lemma {:induction false} RunWithoutDrive(cfg: Config, items: seq<Component>, skip: bool, s: string)
    requires WritesSeparators(cfg) && Driveless(Parse(NoDisk(cfg), s))
    requires Normal(NoDisk(cfg), items) && AllClosed(NoDisk(cfg), items) && Driveless(items)
    ensures Run(cfg, State(Text(items), true, skip), s).out
         == Run(NoDisk(cfg), State(Text(items), true, false), s).out
    decreases |s|
  {
    if s != [] {
      var c := Head(cfg, s);
      var w, rest := Written(cfg, c), Tail(cfg, s);
      var items' := PathNormalize.Push(NoDisk(cfg), items, w);
      NoDiskSplits(cfg, s);
      StepWithoutDrive(cfg, items, skip, w);
      StepIsPush(NoDisk(cfg), items, w);
      if rest != [] {
        PushKeepsNormal(NoDisk(cfg), items, c);
        PushDriveless(NoDisk(cfg), items, w);
        RunWithoutDrive(cfg, items', Step(cfg, State(Text(items), true, skip), w).skipDisk, rest);
      }
    }
  }

  lemma PushDriveless(cfg: Config, items: seq<Component>, c: Component)
    requires Driveless(items) && !EndsWithColon(c.name)
    ensures Driveless(PathNormalize.Push(cfg, items, c))
  {
  }

  lemma NoDiskSplits(cfg: Config, s: string)
    requires s != [] && Driveless(Parse(NoDisk(cfg), s))
    ensures var d, c := NoDisk(cfg), Head(cfg, s);
            && Head(d, s) == c && Tail(d, s) == Tail(cfg, s) && Written(d, c) == Written(cfg, c)
            && !EndsWithColon(c.name) && Driveless(Parse(d, Tail(d, s)))
  {
    NoDiskHead(cfg, s);
    DrivelessTail(NoDisk(cfg), s);
  }

  lemma DrivelessTail(cfg: Config, s: string)
    requires s != [] && Driveless(Parse(cfg, s))
    ensures !EndsWithColon(Head(cfg, s).name) && Driveless(Parse(cfg, Tail(cfg, s)))
  {
    var input, rest := Parse(cfg, s), Parse(cfg, Tail(cfg, s));
    assert input[0] == Head(cfg, s);
    assert forall i :: 0 <= i < |rest| ==> rest[i] == input[i + 1];
  }

  lemma RunOfNothing(cfg: Config, st: State)
    ensures Run(cfg, st, []) == st
  {
  }

  /** Handling drives changes nothing for a path without a drive and without a double backslash in front. */
  lemma NoDriveNoChange(cfg: Config, s: string)
    requires WritesSeparators(cfg) && Driveless(Parse(NoDisk(cfg), s)) && !Passthrough(cfg, s)
    ensures Normalized(cfg, s) == Normalized(NoDisk(cfg), s)
  {
    if cfg.simple {
      RunWithoutDrive(cfg, [], cfg.disk, s);
    } else if s != [] {
      var w := Written(cfg, Head(cfg, s));
      NoDiskSplits(cfg, s);
      FirstStep(NoDisk(cfg), s);
      assert Next(cfg, Initial(cfg), s) == Next(NoDisk(cfg), Initial(NoDisk(cfg)), s) by {
        assert AtDotDot(cfg, []) == AtDotDot(NoDisk(cfg), []);
      }
      if Tail(cfg, s) == [] {
        RunOfNothing(cfg, Next(cfg, Initial(cfg), s));
        RunOfNothing(NoDisk(cfg), Next(cfg, Initial(cfg), s));
      } else {
        RunWithoutDrive(cfg, [w], false, Tail(cfg, s));
      }
    }
  }

  /** A simplified path loses its drive: it is the simplified rest, if no drive follows. */
  lemma DriveIsSkipped(cfg: Config, name: string, sep: char, s: string)
    requires cfg.disk && cfg.simple && WritesSeparators(cfg) && Driveless(Parse(NoDisk(cfg), s))
    requires NoSep(cfg, name) && EndsWithColon(name) && !("\\\\" <= name) && IsSep(cfg, sep)
    ensures Normalized(cfg, name + [sep] + s) == Normalized(NoDisk(cfg), s)
  {
    SkipDrive(cfg, name, sep, s);
    RunWithoutDrive(cfg, [], false, s);
  }

  ghost predicate NoUps(items: seq<Component>) {
    forall i :: 0 <= i < |items| ==> items[i].name != ".."
  }

  lemma NoUpsTail(cfg: Config, s: string)
    requires s != [] && NoUps(Parse(cfg, s))
    ensures Head(cfg, s).name != ".." && NoUps(Parse(cfg, Tail(cfg, s)))
  {
    var input, rest := Parse(cfg, s), Parse(cfg, Tail(cfg, s));
    assert input[0] == Head(cfg, s);
    assert forall i :: 0 <= i < |rest| ==> rest[i] == input[i + 1];
  }

  lemma {:induction false} RunWithoutUps(cfg: Config, out: string, s: string)
    requires NoUps(Parse(NoDisk(cfg), s))
    ensures Run(cfg, State(out, true, false), s) == Run(NoDisk(cfg), State(out, true, false), s)
    decreases |s|
  {
    if s != [] {
      NoDiskHead(cfg, s);
      NoUpsTail(NoDisk(cfg), s);
      RunWithoutUps(cfg, Next(cfg, State(out, true, false), s).out, Tail(cfg, s));
    }
  }

  lemma NoDiskHead(cfg: Config, s: string)
    requires s != []
    ensures var d, c := NoDisk(cfg), Head(cfg, s);
            Head(d, s) == c && Tail(d, s) == Tail(cfg, s) && Written(d, c) == Written(cfg, c)
  {
    assert FirstSep(cfg, s) == FirstSep(NoDisk(cfg), s);
  }

  /** Only a drive in front is removed: one that comes later, and is not reached by "..", stays. */
  lemma LaterDriveStays(cfg: Config, name: string, sep: char, s: string)
    requires cfg.disk && cfg.simple && NoUps(Parse(NoDisk(cfg), s)) && NoSep(cfg, name) && IsSep(cfg, sep)
    requires Plain(name) && !EndsWithColon(name) && !Passthrough(cfg, name + [sep] + s)
    ensures Normalized(cfg, name + [sep] + s) == Normalized(NoDisk(cfg), name + [sep] + s)
  {
    var c, d := Component(name, [sep]), NoDisk(cfg);
    assert Closed(d, c) by {
      assert forall x :: IsSep(cfg, x) == IsSep(d, x);
    }
    RunCons(cfg, Initial(cfg), c, s);
    RunCons(d, Initial(d), c, s);
    FirstIsWritten(cfg, c);
    RunWithoutUps(cfg, name + [OutSep(cfg, sep)], s);
  }

  lemma FirstIsWritten(cfg: Config, c: Component)
    requires cfg.simple && Plain(c.name) && !EndsWithColon(c.name) && |c.term| == 1
    ensures var st := State(c.name + [OutSep(cfg, c.term[0])], true, false);
            && Step(cfg, Initial(cfg), Written(cfg, c)) == st
            && Step(NoDisk(cfg), Initial(NoDisk(cfg)), Written(NoDisk(cfg), c)) == st
  {
    assert [] + c.name == c.name;
  }
}
