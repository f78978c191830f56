/**
  The handshake with the Windows timer thread: the caller stores a command and sets an event, the
  thread executes it, stores the result and sets another event. Both events reset themselves when a
  wait on them returns. Every step is one action of the caller or of the thread.
 */
module TimerThread {

  /** The values of `ctl`. */
  datatype Ctl = EXIT | START | STOP

  /** A call of the caller, with what it stores before it sends the command. */
  datatype Command = Exit | Start(period: int, data: int) | Stop

  function CtlOf(cmd: Command): Ctl {
    match cmd case Exit => EXIT case Start(_, _) => START case Stop => STOP
  }

  /** The caller in `_fftimer_cmd`. */
  datatype CallerAt =
    | Free                // between calls
    | Stored(cmd: Command) // the fields and `ctl` are written
    | Waits(cmd: Command)  // `evt` is set; waits for `evt_result`
    | Woken(cmd: Command)  // about to read `result`
    | Joining             // Exit is sent; waits for the thread to end
    | Closed

  /** The thread in its loop. */
  datatype ThreadAt =
    | Asleep                       // waits for `evt`, alertably
    | Awake                        // the wait returned
    | Chose(ctl: Ctl)              // `ctl` is read
    | Did(code: int)               // the timer is set or cancelled
    | Wrote                        // `result` is written
    | Ended

  datatype Execution = Execution(cmd: Command, code: int)

  /** The waitable timer: off, or set by the execution with number `start`; it repeats if `period` is not 0. */
  datatype Timer = Off | On(start: nat, period: nat)

  /** A firing of the timer that `start` set, what it posted, and how much was executed and issued before it. */
  datatype Firing = Firing(start: nat, data: int, executed: nat, issued: nat)

  /** The shared object, the threads, the timer; then the history of what was issued, executed, returned and fired. */
  datatype State = State(ctl: Ctl, period: int, data: int, result: int, evt: bool, evtResult: bool,
                         caller: CallerAt, thread: ThreadAt, timer: Timer,
                         issued: seq<Command>, executed: seq<Execution>, returned: seq<int>, firings: seq<Firing>)

  /** After `fftimer_create`: the object is zeroed, so that `ctl` is EXIT. */
  function Init(): State {
    State(EXIT, 0, 0, 0, false, false, Free, Asleep, Off, [], [], [], [])
  }

  datatype Step =
    | Issue(cmd: Command) | Signal | Resume | Read | Join
    | Wake | Choose | Do(code: int) | Write | Reply | Fire

  predicate Enabled(s: State, step: Step) {
    match step
    case Issue(_) => s.caller.Free?
    case Signal => s.caller.Stored?
    case Resume => s.caller.Waits? && s.evtResult
    case Read => s.caller.Woken?
    case Join => s.caller.Joining? && s.thread.Ended?
    case Wake => s.thread.Asleep? && s.evt
    case Choose => s.thread.Awake?
    case Do(_) => s.thread.Chose?
    case Write => s.thread.Did?
    case Reply => s.thread.Wrote?
    case Fire => s.thread.Asleep? && s.timer.On?
  }

  /** The command that the thread executes: the one it read, with the fields as they are. */
  function Seen(s: State): Command
    requires s.thread.Chose?
  {
    match s.thread.ctl case EXIT => Exit case START => Start(s.period, s.data) case STOP => Stop
  }

  /** The period that is set: none for a negative number. */
  function Period(ms: int): nat {
    if ms >= 0 then ms else 0
  }

  function Next(s: State, step: Step): State
    requires Enabled(s, step)
  {
    match step
    case Issue(cmd) =>
      var s' := s.(ctl := CtlOf(cmd), caller := Stored(cmd), issued := s.issued + [cmd]);
      if cmd.Start? then s'.(period := cmd.period, data := cmd.data)
      else if cmd.Exit? then s'.(timer := Off) // its handle is closed first
      else s'
    case Signal => s.(evt := true, caller := if s.caller.cmd == Exit then Joining else Waits(s.caller.cmd))
    case Resume => s.(evtResult := false, caller := Woken(s.caller.cmd))
    case Read => s.(caller := Free, returned := s.returned + [s.result])
    case Join => s.(caller := Closed)
    case Wake => s.(evt := false, thread := Awake)
    case Choose => s.(thread := if s.ctl == EXIT then Ended else Chose(s.ctl))
    case Do(code) =>
      var timer := if code != 0 then s.timer
                   else if s.thread.ctl == START then On(|s.executed|, Period(s.period)) else Off;
      s.(thread := Did(code), timer := timer, executed := s.executed + [Execution(Seen(s), code)])
    case Write => s.(result := s.thread.code, thread := Wrote)
    case Reply => s.(evtResult := true, thread := Asleep)
    case Fire =>
      s.(firings := s.firings + [Firing(s.timer.start, s.data, |s.executed|, |s.issued|)],
         timer := if s.timer.period == 0 then Off else s.timer)
  }

  /** Any sequence of steps is a run: one that is not enabled where it stands does nothing. */
  function Run(steps: seq<Step>): State
    decreases |steps|
  {
    if steps == [] then Init()
    else
      var s, step := Run(steps[..|steps| - 1]), steps[|steps| - 1];
      if Enabled(s, step) then Next(s, step) else s
  }

  function CommandsOf(executed: seq<Execution>): seq<Command> {
    if executed == [] then [] else CommandsOf(executed[..|executed| - 1]) + [executed[|executed| - 1].cmd]
  }

  function CodesOf(executed: seq<Execution>): seq<int> {
    if executed == [] then [] else CodesOf(executed[..|executed| - 1]) + [executed[|executed| - 1].code]
  }

  /** The shared fields are those of `cmd`. */
  predicate Stores(s: State, cmd: Command) {
    s.ctl == CtlOf(cmd) && (cmd.Start? ==> s.period == cmd.period && s.data == cmd.data)
  }

  /** The thread is between being woken for `cmd` and having answered it. */
  predicate UnderWay(s: State, cmd: Command) {
    match s.thread
    case Asleep => s.evt != s.evtResult && (if s.evt then OneAhead(s, cmd) else Answered(s, cmd, s.result))
    case Awake => !s.evt && !s.evtResult && OneAhead(s, cmd)
    case Chose(c) => !s.evt && !s.evtResult && c == CtlOf(cmd) && OneAhead(s, cmd)
    case Did(code) => !s.evt && !s.evtResult && Answered(s, cmd, code)
    case Wrote => !s.evt && !s.evtResult && Answered(s, cmd, s.result)
    case Ended => false
  }

  /** Where both sides are, which event is set, and what the history says there. */
  ghost predicate Inv(s: State) {
    match s.caller
    case Free =>
      s.thread.Asleep? && !s.evt && !s.evtResult && Settled(s)
    case Stored(cmd) =>
      s.thread.Asleep? && !s.evt && !s.evtResult && Stores(s, cmd) && OneAhead(s, cmd)
    case Waits(cmd) => cmd != Exit && Stores(s, cmd) && UnderWay(s, cmd)
    case Woken(cmd) =>
      s.thread.Asleep? && !s.evt && !s.evtResult && Answered(s, cmd, s.result)
    case Joining =>
      && !s.evtResult && s.ctl == EXIT && OneAhead(s, Exit)
      && (s.thread.Asleep? || s.thread.Awake? || s.thread.Ended?) && (s.evt <==> s.thread.Asleep?)
    case Closed =>
      s.thread.Ended? && !s.evt && !s.evtResult && OneAhead(s, Exit)
  }

  /** All issued commands are executed and returned, none of them Exit. */
  predicate Settled(s: State) {
    CommandsOf(s.executed) == s.issued && CodesOf(s.executed) == s.returned && Exit !in s.issued
  }

  /** The last command, `cmd`, is issued but not executed. */
  predicate OneAhead(s: State, cmd: Command) {
    s.issued != [] && s.issued[|s.issued| - 1] == cmd
    && Settled(s.(issued := s.issued[..|s.issued| - 1]))
  }

  /** The last command is executed with result `code`, but not returned. */
  predicate Answered(s: State, cmd: Command, code: int) {
    && s.issued != [] && s.issued[|s.issued| - 1] == cmd && cmd != Exit
    && s.executed != [] && s.executed[|s.executed| - 1] == Execution(cmd, code)
    && Settled(s.(issued := s.issued[..|s.issued| - 1], executed := s.executed[..|s.executed| - 1]))
  }

  lemma NextKeeps(s: State, step: Step)
    requires Inv(s) && Enabled(s, step)
    ensures Inv(Next(s, step))
  {
    match step
    case Issue(cmd) => IssueKeeps(s, cmd);
    case Do(code) => DoKeeps(s, code);
    case Read => ReadKeeps(s);
    case _ =>
  }

  lemma IssueKeeps(s: State, cmd: Command)
    requires Inv(s) && Enabled(s, Issue(cmd))
    ensures Inv(Next(s, Issue(cmd)))
  {
    assert Next(s, Issue(cmd)).issued[..|s.issued|] == s.issued;
  }

  lemma DoKeeps(s: State, code: int)
    requires Inv(s) && Enabled(s, Do(code))
    ensures Inv(Next(s, Do(code)))
  {
    assert Next(s, Do(code)).executed[..|s.executed|] == s.executed;
  }

  lemma ReadKeeps(s: State)
    requires Inv(s) && Enabled(s, Read)
    ensures Inv(Next(s, Read))
  {
    assert s.issued == s.issued[..|s.issued| - 1] + [s.issued[|s.issued| - 1]];
  }

  lemma {:induction false} RunKeeps(steps: seq<Step>)
    ensures Inv(Run(steps))
    decreases |steps|
  {
    if steps != [] {
      var s, step := Run(steps[..|steps| - 1]), steps[|steps| - 1];
      RunKeeps(steps[..|steps| - 1]);
      if Enabled(s, step) {
        NextKeeps(s, step);
      }
    }
  }

  ghost predicate OnlyLastMayExit(s: State) {
    forall i :: 0 <= i < |s.issued| - 1 ==> s.issued[i] != Exit
  }

  lemma NoExitBefore(s: State)
    requires s.issued != [] && Exit !in s.issued[..|s.issued| - 1]
    ensures OnlyLastMayExit(s)
  {
  }

  lemma AnsweredShape(s: State, cmd: Command, code: int)
    requires Answered(s, cmd, code)
    ensures |s.returned| + 1 == |s.executed| == |s.issued|
    ensures CommandsOf(s.executed) == s.issued && s.returned <= CodesOf(s.executed)
    ensures OnlyLastMayExit(s)
  {
    NoExitBefore(s);
    var init := s.executed[..|s.executed| - 1];
    SameLength(init);
    assert s.issued == s.issued[..|s.issued| - 1] + [cmd];
    assert CodesOf(s.executed) == s.returned + [code];
  }

  lemma OneAheadShape(s: State, cmd: Command)
    requires OneAhead(s, cmd)
    ensures |s.returned| == |s.executed| == |s.issued| - 1
    ensures CommandsOf(s.executed) <= s.issued && s.returned == CodesOf(s.executed)
    ensures OnlyLastMayExit(s)
  {
    NoExitBefore(s);
    SameLength(s.executed);
  }

  lemma UnderWayShape(s: State, cmd: Command)
    requires UnderWay(s, cmd)
    ensures |s.returned| <= |s.executed| <= |s.issued| <= |s.returned| + 1
    ensures CommandsOf(s.executed) <= s.issued && s.returned <= CodesOf(s.executed) && OnlyLastMayExit(s)
  {
    if OneAhead(s, cmd) {
      OneAheadShape(s, cmd);
    } else {
      AnsweredShape(s, cmd, s.executed[|s.executed| - 1].code);
    }
  }

  /**
    In every run: the executed commands are the issued ones in order, but perhaps for the last; each
    returned result is that of the command with the same number; Exit is never executed, and nothing
    is issued or executed after it.
   */
  lemma Handshake(steps: seq<Step>)
    ensures var s := Run(steps);
            && |s.returned| <= |s.executed| <= |s.issued| <= |s.returned| + 1
            && CommandsOf(s.executed) <= s.issued
            && s.returned <= CodesOf(s.executed)
            && OnlyLastMayExit(s)
            && (s.thread.Ended? ==>
                  s.issued != [] && s.issued[|s.issued| - 1] == Exit && |s.executed| == |s.issued| - 1)
  {
    RunKeeps(steps);
    var s := Run(steps);
    match s.caller
    case Free => SameLength(s.executed);
    case Stored(cmd) => OneAheadShape(s, cmd);
    case Waits(cmd) => UnderWayShape(s, cmd);
    case Woken(cmd) => AnsweredShape(s, cmd, s.result);
    case _ => OneAheadShape(s, Exit);
  }

  lemma {:induction false} SameLength(executed: seq<Execution>)
    ensures |CommandsOf(executed)| == |CodesOf(executed)| == |executed|
  {
    if executed != [] {
      SameLength(executed[..|executed| - 1]);
    }
  }

  /** No signal is lost or left over: an event is never set while it is set, and none is set between calls. */
  lemma SignalsArePaired(steps: seq<Step>)
    ensures var s := Run(steps);
            && (Enabled(s, Signal) ==> !s.evt)
            && (Enabled(s, Reply) ==> !s.evtResult)
            && (s.caller.Free? || s.caller.Closed? ==> !s.evt && !s.evtResult)
  {
    RunKeeps(steps);
  }

  /** While a call is not over, a step of the thread or the caller's own is enabled. */
  lemma NeverStuck(steps: seq<Step>) returns (step: Step)
    requires !Run(steps).caller.Free? && !Run(steps).caller.Closed?
    ensures Enabled(Run(steps), step) && !step.Issue? && !step.Fire?
  {
    RunKeeps(steps);
    var s := Run(steps);
    match s.caller
    case Stored(_) => step := Signal;
    case Woken(_) => step := Read;
    case Waits(_) => step := if s.evtResult then Resume else ThreadStep(s);
    case Joining => step := if s.thread.Ended? then Join else ThreadStep(s);
  }

  /** Every such step brings the call nearer to its end, so that it ends after at most `Left` of them. */
  lemma StepsLower(steps: seq<Step>, step: Step)
    requires Enabled(Run(steps), step) && !step.Issue? && !step.Fire?
    ensures Left(Next(Run(steps), step)) < Left(Run(steps))
  {
    RunKeeps(steps);
  }

  function ThreadStep(s: State): Step {
    match s.thread
    case Asleep => Wake
    case Awake => Choose
    case Chose(_) => Do(0)
    case Did(_) => Write
    case Wrote => Reply
    case Ended => Join
  }

  /** How many steps a call still needs. */
  function Left(s: State): nat {
    match s.caller
    case Free => 0
    case Closed => 0
    case Woken(_) => 1
    case Stored(_) => 10
    case _ =>
      if s.evtResult then 2
      else match s.thread
           case Asleep => 9
           case Awake => 8
           case Chose(_) => 7
           case Did(_) => 6
           case Wrote => 5
           case Ended => 1
  }
}
