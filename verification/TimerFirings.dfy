/**
  What the Windows timer fires, over every run of the handshake. Setting or cancelling the timer is
  taken to succeed with code 0, and to leave it as it is otherwise.
 */
module TimerFirings {
  import opened TimerThread

  /** Execution `i` is a successful Start, and no command after it, up to `n`, succeeded. */
  ghost predicate InForce(executed: seq<Execution>, i: nat, n: nat)
    requires n <= |executed|
  {
    && i < n && executed[i].cmd.Start? && executed[i].code == 0
    && forall j :: i < j < n ==> executed[j].code != 0
  }

  ghost predicate HasFired(s: State, i: nat) {
    exists k :: 0 <= k < |s.firings| && s.firings[k].start == i
  }

  /** The data stored by the last Start among the first `n` issued commands. */
  function LastData(issued: seq<Command>, n: nat): int
    requires n <= |issued|
  {
    if n == 0 then 0 else if issued[n - 1].Start? then issued[n - 1].data else LastData(issued, n - 1)
  }

  predicate Closing(s: State) {
    s.issued != [] && s.issued[|s.issued| - 1] == Exit
  }

  /** The timer is set exactly by a Start in force that repeats or has not fired, until it is closed. */
  ghost predicate TimerOk(s: State) {
    && (s.timer.On? ==>
          && !Closing(s) && InForce(s.executed, s.timer.start, |s.executed|)
          && s.timer.period == Period(s.executed[s.timer.start].cmd.period)
          && (s.timer.period == 0 ==> !HasFired(s, s.timer.start)))
    && (forall i :: 0 <= i < |s.executed| ==> Due(s, i) ==> s.timer.On? && s.timer.start == i)
  }

  ghost predicate Due(s: State, i: nat)
    requires i < |s.executed|
  {
    && !Closing(s) && InForce(s.executed, i, |s.executed|)
    && (Period(s.executed[i].cmd.period) != 0 || !HasFired(s, i))
  }

  /** A firing belongs to the Start that was in force, and posts what was stored last. */
  ghost predicate FiringOk(s: State, f: Firing) {
    && f.executed <= |s.executed| && f.executed <= f.issued <= |s.issued|
    && InForce(s.executed, f.start, f.executed)
    && f.data == LastData(s.issued, f.issued)
  }

  /** Two firings of one Start: it repeats. */
  ghost predicate OnceOk(s: State, a: nat, b: nat)
    requires a < b < |s.firings|
  {
    var i := s.firings[a].start;
    i == s.firings[b].start ==> i < |s.executed| && s.executed[i].cmd.Start? && Period(s.executed[i].cmd.period) != 0
  }

  ghost predicate FiringsOk(s: State) {
    && (forall k :: 0 <= k < |s.firings| ==> FiringOk(s, s.firings[k]))
    && (forall a, b :: 0 <= a < b < |s.firings| ==> OnceOk(s, a, b))
    && s.data == LastData(s.issued, |s.issued|)
  }

  lemma {:induction false} LastDataGrows(issued: seq<Command>, cmd: Command, n: nat)
    requires n <= |issued|
    ensures LastData(issued + [cmd], n) == LastData(issued, n)
  {
    if n > 0 {
      LastDataGrows(issued, cmd, n - 1);
    }
  }

  lemma IssueKeeps(s: State, cmd: Command)
    requires Inv(s) && TimerOk(s) && FiringsOk(s) && Enabled(s, Issue(cmd))
    ensures var s' := Next(s, Issue(cmd)); TimerOk(s') && FiringsOk(s')
  {
    var s' := Next(s, Issue(cmd));
    assert !Closing(s);
    LastDataGrows(s.issued, cmd, |s.issued|);
    forall k | 0 <= k < |s'.firings|
      ensures FiringOk(s', s'.firings[k])
    {
      assert FiringOk(s, s.firings[k]);
      LastDataGrows(s.issued, cmd, s.firings[k].issued);
    }
    forall a, b | 0 <= a < b < |s'.firings|
      ensures OnceOk(s', a, b)
    {
      assert OnceOk(s, a, b);
    }
    forall i | 0 <= i < |s'.executed| && Due(s', i)
      ensures s'.timer.On? && s'.timer.start == i
    {
      assert Due(s, i);
    }
  }

  lemma DoKeepsTimer(s: State, code: int)
    requires Inv(s) && TimerOk(s) && FiringsOk(s) && Enabled(s, Do(code))
    ensures TimerOk(Next(s, Do(code)))
  {
    var s', n := Next(s, Do(code)), |s.executed|;
    assert forall i :: 0 <= i < n ==> s'.executed[i] == s.executed[i];
    assert forall k :: 0 <= k < |s.firings| ==> FiringOk(s, s.firings[k]);
    assert !HasFired(s', n);
    forall i | 0 <= i < |s'.executed| && Due(s', i)
      ensures s'.timer.On? && s'.timer.start == i
    {
      if i < n {
        assert s'.executed[n].code != 0;
        assert Due(s, i);
      }
    }
  }

  lemma DoKeepsFirings(s: State, code: int)
    requires FiringsOk(s) && Enabled(s, Do(code))
    ensures FiringsOk(Next(s, Do(code)))
  {
    var s' := Next(s, Do(code));
    forall k | 0 <= k < |s'.firings|
      ensures FiringOk(s', s'.firings[k])
    {
      assert FiringOk(s, s.firings[k]);
    }
    forall a, b | 0 <= a < b < |s'.firings|
      ensures OnceOk(s', a, b)
    {
      assert OnceOk(s, a, b);
    }
  }

  lemma FireKeepsTimer(s: State)
    requires TimerOk(s) && FiringsOk(s) && Enabled(s, Fire)
    ensures TimerOk(Next(s, Fire))
  {
    var s', n := Next(s, Fire), |s.firings|;
    assert s'.firings[n].start == s.timer.start;
    assert HasFired(s', s.timer.start);
    forall i | 0 <= i < |s'.executed| && Due(s', i)
      ensures s'.timer.On? && s'.timer.start == i
    {
      FiredStays(s, i);
      assert Due(s, i);
    }
  }

  lemma FiredStays(s: State, i: nat)
    requires Enabled(s, Fire)
    ensures HasFired(s, i) ==> HasFired(Next(s, Fire), i)
  {
    if HasFired(s, i) {
      var k :| 0 <= k < |s.firings| && s.firings[k].start == i;
      assert Next(s, Fire).firings[k] == s.firings[k];
    }
  }

  lemma FireKeepsFirings(s: State)
    requires TimerOk(s) && FiringsOk(s) && Enabled(s, Fire) && |s.executed| <= |s.issued|
    ensures FiringsOk(Next(s, Fire))
  {
    var s', n := Next(s, Fire), |s.firings|;
    forall k | 0 <= k < |s'.firings|
      ensures FiringOk(s', s'.firings[k])
    {
      assert k < n ==> FiringOk(s, s.firings[k]) && s'.firings[k] == s.firings[k];
    }
    forall a, b | 0 <= a < b < |s'.firings|
      ensures OnceOk(s', a, b)
    {
      assert s'.firings[a] == s.firings[a];
      if b < n {
        assert OnceOk(s, a, b) && s'.firings[b] == s.firings[b];
      } else if s.firings[a].start == s.timer.start {
        assert HasFired(s, s.timer.start);
      }
    }
  }

  lemma OtherKeeps(s: State, step: Step)
    requires TimerOk(s) && FiringsOk(s) && Enabled(s, step) && !step.Issue? && !step.Do? && !step.Fire?
    ensures var s' := Next(s, step); TimerOk(s') && FiringsOk(s')
  {
    var s' := Next(s, step);
    forall k | 0 <= k < |s'.firings|
      ensures FiringOk(s', s'.firings[k])
    {
      assert FiringOk(s, s.firings[k]);
    }
    forall a, b | 0 <= a < b < |s'.firings|
      ensures OnceOk(s', a, b)
    {
      assert OnceOk(s, a, b);
    }
    forall i | 0 <= i < |s'.executed| && Due(s', i)
      ensures s'.timer.On? && s'.timer.start == i
    {
      assert Due(s, i);
    }
  }

  lemma {:induction false} RunFirings(steps: seq<Step>)
    ensures TimerOk(Run(steps)) && FiringsOk(Run(steps))
    decreases |steps|
  {
    if steps != [] {
      var init, step := steps[..|steps| - 1], steps[|steps| - 1];
      var s := Run(init);
      RunFirings(init);
      RunKeeps(init);
      Handshake(init);
      if Enabled(s, step) {
        match step
        case Issue(cmd) => IssueKeeps(s, cmd);
        case Do(code) => DoKeepsTimer(s, code); DoKeepsFirings(s, code);
        case Fire => FireKeepsTimer(s); FireKeepsFirings(s);
        case _ => OtherKeeps(s, step);
      }
    }
  }

  /**
    In every run: the timer can fire exactly while some successful Start is the last command that
    succeeded, closing has not begun, and the Start repeats or has not fired.
   */
  lemma SetIff(steps: seq<Step>)
    ensures var s := Run(steps); s.timer.On? <==> exists i :: 0 <= i < |s.executed| && Due(s, i)
  {
    RunFirings(steps);
    var s := Run(steps);
    if s.timer.On? {
      assert Due(s, s.timer.start);
    }
  }

  /** In every run, a timer that is set repeats at the period of its Start if that is positive, and else not. */
  lemma SetAsAsked(steps: seq<Step>)
    requires Run(steps).timer.On?
    ensures var s := Run(steps);
            && s.timer.start < |s.executed| && s.executed[s.timer.start].cmd.Start?
            && s.timer.start < |s.issued| && s.issued[s.timer.start] == s.executed[s.timer.start].cmd
            && var ms := s.issued[s.timer.start].period; s.timer.period == if ms > 0 then ms else 0
  {
    RunFirings(steps);
    Handshake(steps);
    CommandAt(Run(steps).executed, Run(steps).timer.start);
  }

  /** In every run, a firing belongs to a successful Start after which nothing has succeeded, a Stop neither. */
  lemma FiringBelongs(steps: seq<Step>, k: nat)
    requires k < |Run(steps).firings|
    ensures var s := Run(steps);
            s.firings[k].executed <= |s.executed| && InForce(s.executed, s.firings[k].start, s.firings[k].executed)
  {
    RunFirings(steps);
    assert FiringOk(Run(steps), Run(steps).firings[k]);
  }

  /** In every run, a Start with a period of 0 or less fires at most once. */
  lemma OneShotFiresOnce(steps: seq<Step>, a: nat, b: nat)
    requires a < b < |Run(steps).firings| && Run(steps).firings[a].start == Run(steps).firings[b].start
    ensures var s := Run(steps);
            var i := s.firings[a].start;
            i < |s.executed| && s.executed[i].cmd.Start? && s.executed[i].cmd.period > 0
  {
    RunFirings(steps);
    assert OnceOk(Run(steps), a, b);
  }

  /** The time that is set, in units of 100 ns: a negative number is an interval from now, others are a date. */
  function DueTime(ms: int): int {
    ms * 1000 * -10
  }

  /**
    The time set is the promised interval, of the period without its sign, only if the period is not negative.
    For a negative one the same number is set as a date.
   */
  lemma DueAsPromisedIff(ms: int)
    ensures DueTime(ms) == -10_000 * (if ms < 0 then -ms else ms) <==> ms >= 0
    ensures DueTime(-ms) == -DueTime(ms) && (DueTime(ms) > 0 <==> ms < 0)
  {
  }

  lemma {:induction false} CommandAt(executed: seq<Execution>, i: nat)
    requires i < |executed|
    ensures |CommandsOf(executed)| == |executed| && CommandsOf(executed)[i] == executed[i].cmd
  {
    SameLength(executed);
    if i < |executed| - 1 {
      CommandAt(executed[..|executed| - 1], i);
    }
  }

  /** Command `j` is the last Start among the first `n`. */
  ghost predicate IsLastStart(issued: seq<Command>, n: nat, j: nat)
    requires n <= |issued|
  {
    j < n && issued[j].Start? && forall i :: j < i < n ==> !issued[i].Start?
  }

  lemma {:induction false} LastStart(issued: seq<Command>, i: nat, n: nat) returns (j: nat)
    requires i < n <= |issued| && issued[i].Start?
    ensures i <= j && IsLastStart(issued, n, j) && LastData(issued, n) == issued[j].data
    decreases n
  {
    j := n - 1;
    if !issued[j].Start? {
      j := LastStart(issued, i, n - 1);
    }
  }

  /**
    A firing posts the data of the last Start that was issued before it, so it posts its own timer's
    data if and only if that Start stored the same. Another Start than its own is either still to be
    executed, or has failed.
   */
  lemma PostsLastStored(steps: seq<Step>, k: nat) returns (j: nat)
    requires k < |Run(steps).firings|
    ensures var s := Run(steps);
            var f := s.firings[k];
            && f.start <= j < f.issued <= |s.issued| && s.issued[f.start].Start?
            && IsLastStart(s.issued, f.issued, j) && f.data == s.issued[j].data
            && (f.data == s.issued[f.start].data <==> s.issued[j].data == s.issued[f.start].data)
            && (j != f.start ==> f.executed <= j || (j < |s.executed| && s.executed[j].code != 0))
  {
    RunFirings(steps);
    Handshake(steps);
    var s := Run(steps);
    var f := s.firings[k];
    assert FiringOk(s, f);
    CommandAt(s.executed, f.start);
    j := LastStart(s.issued, f.start, f.issued);
  }

  /** A run in which the timer of the first Start posts the data of the second, which has only been issued. */
  lemma WrongDataIsPosted(period: int, a: int, b: int)
    ensures var start, again := Start(period, a), Start(period, b);
            var s := Run([Issue(start), Signal, Wake, Choose, Do(0), Write, Reply, Resume, Read, Issue(again), Fire]);
            s.executed == [Execution(start, 0)] && s.firings == [Firing(0, b, 1, 2)]
  {
    var start, again := Start(period, a), Start(period, b);
    var done := StartIsDone(start);
    var steps := done + [Issue(again)];
    RunsOn(done, Issue(again));
    RunsOn(steps, Fire);
    assert steps + [Fire]
        == [Issue(start), Signal, Wake, Choose, Do(0), Write, Reply, Resume, Read, Issue(again), Fire];
  }

  lemma RunsOn(steps: seq<Step>, step: Step)
    requires Enabled(Run(steps), step)
    ensures Run(steps + [step]) == Next(Run(steps), step)
  {
    assert (steps + [step])[..|steps|] == steps;
  }

  /** A Start that succeeds, from the beginning to its return. */
  lemma StartIsDone(start: Command) returns (steps: seq<Step>)
    requires start.Start?
    ensures steps == [Issue(start), Signal, Wake, Choose, Do(0), Write, Reply, Resume, Read]
    ensures Run(steps) == State(START, start.period, start.data, 0, false, false, Free, Asleep,
                                On(0, Period(start.period)), [start], [Execution(start, 0)], [0], [])
  {
    steps := [];
    RunsOn(steps, Issue(start));
    steps := steps + [Issue(start)];
    RunsOn(steps, Signal);
    steps := steps + [Signal];
    RunsOn(steps, Wake);
    steps := steps + [Wake];
    RunsOn(steps, Choose);
    steps := steps + [Choose];
    RunsOn(steps, Do(0));
    steps := steps + [Do(0)];
    RunsOn(steps, Write);
    steps := steps + [Write];
    RunsOn(steps, Reply);
    steps := steps + [Reply];
    RunsOn(steps, Resume);
    steps := steps + [Resume];
    RunsOn(steps, Read);
    steps := steps + [Read];
  }
}
