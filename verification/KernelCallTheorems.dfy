/** What the kernel-call queue guarantees in every state of every run. */
module KernelCallTheorems {
  import opened KernelCalls
  import opened KernelCallProofs

  // ---- Exactly one place ----

  function HolderCount(ws: seq<Worker>, kc: Kid): nat {
    if ws == [] then 0 else (if Holds(ws[0], kc) then 1 else 0) + HolderCount(ws[1..], kc)
  }

  /** How many times an object is found in the queues and the threads. */
  function Copies(s: State, kc: Kid): nat {
    multiset(s.sq)[kc] + HolderCount(s.workers, kc) + multiset(s.cq)[kc] + (if ReaderHolds(s, kc) then 1 else 0)
  }

  lemma {:induction false} CountInQueue(q: seq<Kid>, kc: Kid)
    requires Distinct(q)
    ensures multiset(q)[kc] == if kc in q then 1 else 0
  {
    if q != [] {
      var rest := q[1..];
      assert forall i :: 0 <= i < |rest| ==> rest[i] == q[i + 1];
      CountInQueue(rest, kc);
      assert q == [q[0]] + rest;
      assert q[0] == kc ==> kc !in rest;
    }
  }

  lemma {:induction false} NoHolder(ws: seq<Worker>, kc: Kid)
    requires forall v :: 0 <= v < |ws| ==> !Holds(ws[v], kc)
    ensures HolderCount(ws, kc) == 0
  {
    if ws != [] {
      NoHolder(ws[1..], kc);
    }
  }

  lemma {:induction false} OneHolder(ws: seq<Worker>, w: Wid, kc: Kid)
    requires w < |ws| && forall v :: 0 <= v < |ws| ==> (Holds(ws[v], kc) <==> v == w)
    ensures HolderCount(ws, kc) == 1
  {
    var rest := ws[1..];
    if w == 0 {
      forall v | 0 <= v < |rest| ensures !Holds(rest[v], kc) { assert rest[v] == ws[v + 1]; }
      NoHolder(rest, kc);
    } else {
      forall v | 0 <= v < |rest| ensures Holds(rest[v], kc) <==> v == w - 1 { assert rest[v] == ws[v + 1]; }
      OneHolder(rest, w - 1, kc);
    }
  }

  lemma CopiesByPlace(s: State, kc: Kid)
    requires Inv(s)
    ensures Copies(s, kc) == if At(s, kc).place == AtRest then 0 else 1
  {
    assert CallOk(s, kc);
    CountInQueue(s.sq, kc);
    CountInQueue(s.cq, kc);
    if At(s, kc).place.InWorker? {
      var w := At(s, kc).place.w;
      HolderIsUnderway(s, w);
      OneHolder(s.workers, w, kc);
    } else {
      NotHeldByWorkers(s, kc);
      NoHolder(s.workers, kc);
    }
  }

  /**
    Every accepted call, in every state of every run. Until it is finished its object is in exactly one
    queue or thread. It runs at most once, and its handler at most once and only after it ran; when
    it is finished and was not cancelled, both happened once; when it was cancelled before the
    reader's check, the handler never runs.
   */
  lemma ExactlyOnce(workers: nat, sqCap: nat, cqCap: nat, steps: seq<Step>, t: Ticket)
    requires t < |Run(Init(workers, sqCap, cqCap), steps).book|
    ensures var s := Run(Init(workers, sqCap, cqCap), steps);
            var e := s.book[t];
            && e.runs <= 1 && e.handled <= e.runs
            && (!e.finished ==> Copies(s, e.kc) == 1)
            && (e.finished && !e.cancelled ==> e.runs == 1 && e.handled == 1)
            && (e.cancelled ==> e.handled == 0)
  {
    RunKeeps(workers, sqCap, cqCap, steps);
    var s := Run(Init(workers, sqCap, cqCap), steps);
    assert EntryOk(s, t);
    CopiesByPlace(s, s.book[t].kc);
  }

  /** A record keeps its identity, only grows, and no longer changes once it is finished. */
  predicate Grows(e: Entry, e': Entry) {
    && e'.kc == e.kc && e'.op == e.op && e'.arg == e.arg
    && e.runs <= e'.runs && e.handled <= e'.handled && (e.cancelled ==> e'.cancelled)
    && (e.finished ==> e' == e)
  }

  /** The records mean what they say: an accepted call keeps its identity, and a finished one is never touched again. */
  lemma BookIsHistory(s: State, step: Step, t: Ticket)
    requires Inv(s) && Enabled(s, step) && t < |s.book|
    ensures t < |Next(s, step).book| && Grows(s.book[t], Next(s, step).book[t])
  {
    assert EntryOk(s, t);
    match step
    case Call_(kc, op, arg) => CallHistory(s, kc, op, arg, t);
    case Cancel(kc) => CancelHistory(s, kc, t);
    case ReadOp(w) => HolderHistory(s, step, w, t);
    case Return(w, _, _) => HolderHistory(s, step, w, t);
    case Refuse(w) => HolderHistory(s, step, w, t);
    case Check => CheckHistory(s, t);
    case _ => assert Next(s, step).book == s.book;
  }

  lemma CallHistory(s: State, kc: Kid, op: nat, arg: int, t: Ticket)
    requires t < |s.book|
    ensures t < |AsyncCall(s, kc, op, arg).book| && AsyncCall(s, kc, op, arg).book[t] == s.book[t]
  {
  }

  lemma CancelHistory(s: State, kc: Kid, t: Ticket)
    requires Inv(s) && t < |s.book|
    ensures t < |CancelCall(s, kc).book| && Grows(s.book[t], CancelCall(s, kc).book[t])
  {
    assert CallOk(s, kc);
  }

  lemma HolderHistory(s: State, step: Step, w: Wid, t: Ticket)
    requires Inv(s) && Enabled(s, step) && t < |s.book|
    requires step == ReadOp(w) || step == Refuse(w) || (step.Return? && step.w == w)
    ensures t < |Next(s, step).book| && Grows(s.book[t], Next(s, step).book[t])
  {
    HolderIsUnderway(s, w);
  }

  lemma CheckHistory(s: State, t: Ticket)
    requires Inv(s) && Enabled(s, Check) && t < |s.book|
    ensures t < |Next(s, Check).book| && Grows(s.book[t], Next(s, Check).book[t])
  {
    assert CallOk(s, s.reader.kc);
  }

  // ---- What the owner is told ----

  /** The answer is the outcome of the last accepted call on the object, which ran once and was handled once. */
  ghost predicate IsLastOutcome(s: State, kc: Kid, result: int, error: int) {
    var t := At(s, kc).ticket;
    && t < |s.book|
    && var e := s.book[t];
       && e.kc == kc && e.finished && !e.cancelled && e.runs == 1 && e.handled == 1
       && e.result == result && e.error == error
       && forall t' :: t < t' < |s.book| ==> s.book[t'].kc != kc
  }

  lemma AnswerAtRest(s: State, kc: Kid)
    requires Inv(s) && At(s, kc).place == AtRest
    ensures AnswerTo(s, kc) != Busy && AnswerTo(s, kc) != Garbage
    ensures AnswerTo(s, kc).Finished? ==> IsLastOutcome(s, kc, AnswerTo(s, kc).result, AnswerTo(s, kc).error)
  {
    assert CallOk(s, kc);
    forall t | At(s, kc).ticket < t < |s.book|
      ensures s.book[t].kc != kc
    {
      assert EntryOk(s, t);
    }
  }

  /**
    In every run, a call made under the owner's rule is never refused as busy and never answered with
    garbage; an answer with a result is the outcome of the last accepted call on the object.
   */
  lemma AnswerIsTheOutcome(workers: nat, sqCap: nat, cqCap: nat, steps: seq<Step>, kc: Kid, op: nat)
    requires Polite(Run(Init(workers, sqCap, cqCap), steps), kc, op)
    ensures var s := Run(Init(workers, sqCap, cqCap), steps);
            && AnswerTo(s, kc) != Busy && AnswerTo(s, kc) != Garbage
            && (AnswerTo(s, kc).Finished? ==> IsLastOutcome(s, kc, AnswerTo(s, kc).result, AnswerTo(s, kc).error))
  {
    RunKeeps(workers, sqCap, cqCap, steps);
    AnswerAtRest(Run(Init(workers, sqCap, cqCap), steps), kc);
  }

  /** The owner leaves the object alone. */
  predicate Spares(step: Step, kc: Kid) {
    match step
    case Call_(k, _, _) => k != kc
    case Cancel(k) => k != kc
    case _ => true
  }

  /** The call with ticket `t` is the last one on the object, not cancelled and not collected. */
  predicate Pending(s: State, kc: Kid, t: Ticket) {
    && t < |s.book| && s.book[t].kc == kc && !s.book[t].cancelled
    && At(s, kc).ticket == t && At(s, kc).op == s.book[t].op != 0
  }

  lemma SparedCall(s: State, step: Step, kc: Kid)
    requires Enabled(s, step) && Spares(step, kc)
    ensures At(Next(s, step), kc).op == At(s, kc).op && At(Next(s, step), kc).ticket == At(s, kc).ticket
  {
  }

  lemma PendingStep(s: State, step: Step, kc: Kid, t: Ticket)
    requires Inv(s) && Enabled(s, step) && Spares(step, kc) && Pending(s, kc, t)
    ensures Pending(Next(s, step), kc, t)
  {
    BookIsHistory(s, step, t);
    SparedCall(s, step, kc);
    NotCancelled(s, step, kc, t);
  }

  lemma NotCancelled(s: State, step: Step, kc: Kid, t: Ticket)
    requires Inv(s) && Enabled(s, step) && Spares(step, kc) && Pending(s, kc, t)
    ensures t < |Next(s, step).book| && !Next(s, step).book[t].cancelled
  {
    match step
    case Call_(k, op, arg) => CallHistory(s, k, op, arg, t);
    case Cancel(k) => assert CallOk(s, k);
    case _ =>
  }

  lemma {:induction false} PendingRun(s: State, steps: seq<Step>, kc: Kid, t: Ticket)
    requires Inv(s) && Pending(s, kc, t) && forall i :: 0 <= i < |steps| ==> Spares(steps[i], kc)
    ensures Inv(Run(s, steps)) && Pending(Run(s, steps), kc, t)
    decreases |steps|
  {
    if steps != [] {
      var init, step := steps[..|steps| - 1], steps[|steps| - 1];
      PendingRun(s, init, kc, t);
      if Enabled(Run(s, init), step) {
        NextKeeps(Run(s, init), step);
        PendingStep(Run(s, init), step, kc, t);
      }
    }
  }

  /**
    From an accepted call on, whatever all threads do, as long as the owner leaves the object alone:
    once it is back, the call has run once and was handled once, and the owner's next call is
    answered with its result and error.
   */
  lemma OutcomeIsDelivered(workers: nat, sqCap: nat, cqCap: nat, steps: seq<Step>, kc: Kid, op: nat, arg: int,
                           more: seq<Step>)
    requires var s := Run(Init(workers, sqCap, cqCap), steps); Polite(s, kc, op) && AnswerTo(s, kc) == InProgress
    requires forall i :: 0 <= i < |more| ==> Spares(more[i], kc)
    ensures var s := Run(Init(workers, sqCap, cqCap), steps);
            var s' := Run(Next(s, Call_(kc, op, arg)), more);
            && |s.book| < |s'.book|
            && var e := s'.book[|s.book|];
               && e.kc == kc && e.op == op && e.arg == arg && !e.cancelled
               && (At(s', kc).place == AtRest ==>
                     e.finished && e.runs == 1 && e.handled == 1 && AnswerTo(s', kc) == Finished(e.result, e.error))
  {
    var s := Run(Init(workers, sqCap, cqCap), steps);
    RunKeeps(workers, sqCap, cqCap, steps);
    NextKeeps(s, Call_(kc, op, arg));
    var s1 := Next(s, Call_(kc, op, arg));
    PendingRun(s1, more, kc, |s.book|);
    HistoryRun(s1, more, |s.book|);
    assert CallOk(Run(s1, more), kc);
  }

  lemma {:induction false} HistoryRun(s: State, steps: seq<Step>, t: Ticket)
    requires Inv(s) && t < |s.book|
    ensures Inv(Run(s, steps)) && t < |Run(s, steps).book|
    ensures var e, e' := s.book[t], Run(s, steps).book[t]; e'.kc == e.kc && e'.op == e.op && e'.arg == e.arg
    decreases |steps|
  {
    if steps != [] {
      var init, step := steps[..|steps| - 1], steps[|steps| - 1];
      HistoryRun(s, init, t);
      if Enabled(Run(s, init), step) {
        NextKeeps(Run(s, init), step);
        BookIsHistory(Run(s, init), step, t);
      }
    }
  }

  predicate WorkerIn(s: State, pc: Worker) {
    pc in s.workers
  }

  /**
    The check for a busy object covers only the second half of a call's way: it answers busy exactly
    between the worker's mark and the reader's clearing of it.
   */
  lemma BusyIff(s: State, kc: Kid)
    requires Inv(s)
    ensures AnswerTo(s, kc) == Busy <==> WorkerIn(s, Marked(kc)) || kc in s.cq || s.reader == Fetched(kc)
  {
    assert CallOk(s, kc);
    WorkerByPlace(s, kc);
  }

  /** Before that, a second call is taken for the collection of a result, and gets the bytes of the arguments. */
  lemma GarbageIff(s: State, kc: Kid)
    requires Inv(s)
    ensures AnswerTo(s, kc) == Garbage <==>
            (kc in s.sq || WorkerIn(s, Got(kc)) || WorkerIn(s, Running(kc))) && !EntryOf(s, kc).cancelled
  {
    assert CallOk(s, kc);
    WorkerByPlace(s, kc);
  }

  /** A second call gets the result before its handler has run, exactly next to the busy window on either side. */
  lemma EarlyIff(s: State, kc: Kid)
    requires Inv(s) && At(s, kc).place != AtRest
    ensures AnswerTo(s, kc).Finished? <==>
            (WorkerIn(s, Ran(kc)) || s.reader == Cleared(kc)) && !EntryOf(s, kc).cancelled
  {
    assert CallOk(s, kc);
    WorkerByPlace(s, kc);
  }

  /** An object in flight is accepted again, or turned away for a full queue, exactly if cancelled and not busy. */
  lemma AcceptedAgainIff(s: State, kc: Kid)
    requires Inv(s) && At(s, kc).place != AtRest
    ensures AnswerTo(s, kc) == (if |s.sq| == s.sqCap then Again else InProgress) <==>
            EntryOf(s, kc).cancelled && !(WorkerIn(s, Marked(kc)) || kc in s.cq || s.reader == Fetched(kc))
  {
    BusyIff(s, kc);
    assert CallOk(s, kc);
  }

  /** A single accepted call is enough: a second call on the same object is then answered with garbage. */
  lemma GarbageIsReached(kc: Kid, op: nat, arg: int)
    requires 1 <= op <= 7
    ensures var s := Run(Init(1, 1, 1), [Call_(kc, op, arg)]); At(s, kc).place == InSQ && AnswerTo(s, kc) == Garbage
  {
    FirstCall(1, kc, op, arg);
  }

  lemma FirstCall(sqCap: nat, kc: Kid, op: nat, arg: int)
    requires 1 <= op <= 7 && sqCap >= 1
    ensures var s := Init(1, sqCap, 1);
            Enabled(s, Call_(kc, op, arg)) && Run(s, [Call_(kc, op, arg)]) == AsyncCall(s, kc, op, arg)
    ensures Init(1, sqCap, 1).workers == [Idle]
  {
    var s := Init(1, sqCap, 1);
    assert s.workers == [Idle];
    HeldIdle(1);
    RunsOn(s, [], Call_(kc, op, arg));
    assert [] + [Call_(kc, op, arg)] == [Call_(kc, op, arg)];
  }

  lemma RunsOn(s: State, steps: seq<Step>, step: Step)
    requires Enabled(Run(s, steps), step)
    ensures Run(s, steps + [step]) == Next(Run(s, steps), step)
  {
    assert (steps + [step])[..|steps|] == steps;
  }

  /** A run after which a second call gets the result before the handler has run. */
  lemma EarlyIsReached(kc: Kid, op: nat, arg: int, result: int, error: int)
    requires 1 <= op <= 7
    ensures var s := Run(Init(1, 1, 1), [Call_(kc, op, arg), Fetch(0), ReadOp(0), Return(0, result, error)]);
            At(s, kc).place == InWorker(0) && AnswerTo(s, kc) == Finished(result, error)
  {
    var s, steps := Init(1, 1, 1), [Call_(kc, op, arg)];
    FirstCall(1, kc, op, arg);
    RunsOn(s, steps, Fetch(0));
    RunsOn(s, steps + [Fetch(0)], ReadOp(0));
    RunsOn(s, steps + [Fetch(0)] + [ReadOp(0)], Return(0, result, error));
    assert steps + [Fetch(0)] + [ReadOp(0)] + [Return(0, result, error)]
        == [Call_(kc, op, arg), Fetch(0), ReadOp(0), Return(0, result, error)];
  }

  /** A run after which a cancelled object is accepted a second time while it is still queued. */
  lemma AcceptedAgainIsReached(kc: Kid, op: nat, arg: int)
    requires 1 <= op <= 7
    ensures var s := Run(Init(1, 2, 1), [Call_(kc, op, arg), Cancel(kc)]);
            At(s, kc).place == InSQ && AnswerTo(s, kc) == InProgress
  {
    FirstCall(2, kc, op, arg);
    RunsOn(Init(1, 2, 1), [Call_(kc, op, arg)], Cancel(kc));
    assert [Call_(kc, op, arg)] + [Cancel(kc)] == [Call_(kc, op, arg), Cancel(kc)];
  }

  lemma WorkerByPlace(s: State, kc: Kid)
    requires Inv(s)
    ensures forall pc :: WorkerIn(s, pc) && Holds(pc, kc) ==>
              At(s, kc).place.InWorker? && At(s, kc).place.w < |s.workers| && pc == s.workers[At(s, kc).place.w]
    ensures At(s, kc).place.InWorker? ==>
              At(s, kc).place.w < |s.workers| && WorkerIn(s, s.workers[At(s, kc).place.w])
              && WorkerOk(s, At(s, kc).place.w) && Holds(s.workers[At(s, kc).place.w], kc)
  {
    assert CallOk(s, kc);
    forall pc | WorkerIn(s, pc) && Holds(pc, kc)
      ensures At(s, kc).place.InWorker? && At(s, kc).place.w < |s.workers| && pc == s.workers[At(s, kc).place.w]
    {
      var v :| 0 <= v < |s.workers| && s.workers[v] == pc;
      assert WorkerOk(s, v);
    }
  }

  // ---- Completion queue and wake-up ----

  /** No completed call is ever dropped for lack of room. */
  lemma NoOverflow(workers: nat, sqCap: nat, cqCap: nat, steps: seq<Step>, w: Wid)
    requires Enabled(Run(Init(workers, sqCap, cqCap), steps), Publish(w))
    ensures |Run(Init(workers, sqCap, cqCap), steps).cq| < cqCap
  {
    RunKeeps(workers, sqCap, cqCap, steps);
    CapsAreFixed(Init(workers, sqCap, cqCap), steps);
    CompletionQueueHasRoom(Run(Init(workers, sqCap, cqCap), steps), w);
  }

  lemma {:induction false} CapsAreFixed(s: State, steps: seq<Step>)
    ensures Run(s, steps).cqCap == s.cqCap && |Run(s, steps).workers| == |s.workers|
    decreases |steps|
  {
    if steps != [] {
      CapsAreFixed(s, steps[..|steps| - 1]);
    }
  }

  /** A waiting reader never misses a completion: a post is pending, or a worker is about to post. */
  lemma NoLostWakeup(workers: nat, sqCap: nat, cqCap: nat, steps: seq<Step>)
    ensures Awakened(Run(Init(workers, sqCap, cqCap), steps))
  {
    RunKeeps(workers, sqCap, cqCap, steps);
  }

  predicate ByOwner(step: Step) {
    step.Call_? || step.Cancel?
  }

  /** As long as an accepted call is not finished, some thread can take a step: nothing ever gets stuck. */
  lemma NeverStuck(s: State, t: Ticket) returns (step: Step)
    requires Inv(s) && |s.workers| > 0 && t < |s.book| && !s.book[t].finished
    ensures Enabled(s, step) && !ByOwner(step)
  {
    assert EntryOk(s, t);
    var kc := s.book[t].kc;
    assert CallOk(s, kc);
    match At(s, kc).place
    case InSQ => step := if s.workers[0].Idle? then Fetch(0) else WorkerStep(s, 0);
    case InWorker(w) => step := WorkerStep(s, w);
    case InReader => step := if s.reader.Fetched? then Clear else Check;
    case InCQ =>
      match s.reader
      case Fetched(_) => step := Clear;
      case Cleared(_) => step := Check;
      case Draining => step := Take;
      case Waiting =>
        if s.posts > 0 {
          step := Wake(1);
        } else {
          var w :| 0 <= w < |s.workers| && s.workers[w].Posting?;
          step := Post(w);
        }
  }

  function WorkerStep(s: State, w: Wid): (step: Step)
    requires w < |s.workers| && !s.workers[w].Idle?
    ensures Enabled(s, step) && !ByOwner(step)
  {
    match s.workers[w]
    case Got(_) => ReadOp(w)
    case Running(_) => Return(w, 0, 0)
    case Ran(_) => Mark(w)
    case Marked(_) => Publish(w)
    case Refused(_) => Refuse(w)
    case Posting => Post(w)
  }

  // ---- Every call finishes ----

  function WorkerWork(pc: Worker): nat {
    match pc
    case Idle => 0
    case Refused(_) => 1
    case Posting => 3
    case Marked(_) => 7
    case Ran(_) => 8
    case Running(_) => 9
    case Got(_) => 10
  }

  function WorkersWork(ws: seq<Worker>): nat {
    if ws == [] then 0 else WorkerWork(ws[0]) + WorkersWork(ws[1..])
  }

  function ReaderWork(r: Reader): nat {
    match r case Waiting => 0 case Draining => 1 case Cleared(_) => 2 case Fetched(_) => 3
  }

  /** A bound on the steps that the workers and the reader can still take without the owner. */
  function Work(s: State): nat {
    11 * |s.sq| + WorkersWork(s.workers) + 3 * |s.cq| + 2 * s.posts + ReaderWork(s.reader)
  }

  lemma {:induction false} WorkersUpdate(ws: seq<Worker>, w: Wid, pc: Worker)
    requires w < |ws|
    ensures WorkersWork(ws[w := pc]) + WorkerWork(ws[w]) == WorkersWork(ws) + WorkerWork(pc)
  {
    if w > 0 {
      WorkersUpdate(ws[1..], w - 1, pc);
      assert ws[w := pc][1..] == ws[1..][w - 1 := pc];
    } else {
      assert ws[w := pc][1..] == ws[1..];
    }
  }

  lemma WorkDecreases(s: State, step: Step)
    requires Enabled(s, step) && !ByOwner(step)
    ensures Work(Next(s, step)) < Work(s) && |Next(s, step).workers| == |s.workers|
  {
    if step.Fetch? || step.ReadOp? || step.Return? || step.Mark? || step.Publish? || step.Post? || step.Refuse? {
      WorkerDecreases(s, step);
    }
  }

  lemma WorkerDecreases(s: State, step: Step)
    requires Enabled(s, step)
    requires step.Fetch? || step.ReadOp? || step.Return? || step.Mark? || step.Publish? || step.Post? || step.Refuse?
    ensures Work(Next(s, step)) < Work(s) && |Next(s, step).workers| == |s.workers|
  {
    var s', w := Next(s, step), step.w;
    assert s'.workers == s.workers[w := s'.workers[w]] && s'.reader == s.reader;
    WorkersUpdate(s.workers, w, s'.workers[w]);
  }

  /** `steps` are taken one after the other from `s`, none of them by the owner. */
  ghost predicate WithoutOwner(s: State, steps: seq<Step>) {
    forall i :: 0 <= i < |steps| ==> !ByOwner(steps[i]) && Enabled(Run(s, steps[..i]), steps[i])
  }

  lemma {:induction false} WorkRun(s: State, steps: seq<Step>)
    requires Inv(s) && WithoutOwner(s, steps)
    ensures var s' := Run(s, steps); Inv(s') && |s'.workers| == |s.workers| && Work(s') + |steps| <= Work(s)
    decreases |steps|
  {
    if steps != [] {
      var n := |steps| - 1;
      var init := steps[..n];
      assert forall i :: 0 <= i < n ==> init[..i] == steps[..i];
      WorkRun(s, init);
      NextKeeps(Run(s, init), steps[n]);
      WorkDecreases(Run(s, init), steps[n]);
    }
  }

  /**
    From every state of every run, however the workers and the reader are scheduled: they take only
    so many steps without the owner, and when they can take no more, every accepted call is finished.
   */
  lemma CallsFinish(workers: nat, sqCap: nat, cqCap: nat, steps: seq<Step>, more: seq<Step>)
    requires workers > 0 && WithoutOwner(Run(Init(workers, sqCap, cqCap), steps), more)
    ensures var s := Run(Init(workers, sqCap, cqCap), steps);
            var s' := Run(s, more);
            && |more| <= Work(s)
            && ((forall step :: Enabled(s', step) ==> ByOwner(step)) ==>
                  forall t :: 0 <= t < |s'.book| ==> s'.book[t].finished)
  {
    var s := Run(Init(workers, sqCap, cqCap), steps);
    RunKeeps(workers, sqCap, cqCap, steps);
    CapsAreFixed(Init(workers, sqCap, cqCap), steps);
    WorkRun(s, more);
    var s' := Run(s, more);
    forall t | 0 <= t < |s'.book| && !s'.book[t].finished
      ensures exists step :: Enabled(s', step) && !ByOwner(step)
    {
      var step := NeverStuck(s', t);
    }
  }
}
