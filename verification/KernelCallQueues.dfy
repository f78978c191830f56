/** What goes through the queues of the kernel calls, over every run, and what a call of the owner changes. */
module KernelCallQueues {
  import opened KernelCalls
  import opened KernelCallProofs
  import opened KernelCallTheorems

  // ---- What a call of the owner changes ----

  /** A result is collected once: then the object is free, and the next call on it is accepted if there is room. */
  lemma CollectedOnce(s: State, kc: Kid, op: nat, arg: int)
    requires Inv(s) && Enabled(s, Call_(kc, op, arg)) && AnswerTo(s, kc).Finished?
    ensures var s' := Next(s, Call_(kc, op, arg));
            && s'.book == s.book && s'.sq == s.sq && s'.cq == s.cq && s'.workers == s.workers
            && At(s', kc).place == AtRest
            && AnswerTo(s', kc) == if |s.sq| == s.sqCap then Again else InProgress
  {
    assert CallOk(s, kc);
  }

  /** A call that is turned away leaves the object free, with its arguments stored. */
  lemma TurnedAway(s: State, kc: Kid, op: nat, arg: int)
    requires Inv(s) && Enabled(s, Call_(kc, op, arg)) && AnswerTo(s, kc) == Again
    ensures var s' := Next(s, Call_(kc, op, arg));
            && s'.book == s.book && s'.sq == s.sq && At(s', kc).place == AtRest && AnswerTo(s', kc) == Again
            && At(s', kc).op == 0 && At(s', kc).payload == Args(arg)
  {
    assert CallOk(s, kc);
  }

  /** A call that is accepted is recorded and queued with its operation and argument; no other object changes. */
  lemma AcceptedIsQueued(s: State, kc: Kid, op: nat, arg: int)
    requires Inv(s) && Enabled(s, Call_(kc, op, arg)) && AnswerTo(s, kc) == InProgress
    ensures var s' := Next(s, Call_(kc, op, arg));
            && s'.sq == s.sq + [kc]
            && |s'.book| == |s.book| + 1 && s'.book[..|s.book|] == s.book
            && s'.book[|s.book|] == Entry(kc, op, arg, 0, 0, false, false, 0, 0)
            && At(s', kc).op == op && At(s', kc).payload == Args(arg)
            && forall k :: k != kc ==> At(s', k) == At(s, k)
  {
  }

  /** A cancelled object has no result to collect: at rest it is free, and its last call gives no answer any more. */
  lemma CancelledIsFree(s: State, kc: Kid)
    requires Inv(s) && At(s, kc).place == AtRest
    ensures var s' := Next(s, Cancel(kc));
            && s'.book == s.book && s'.sq == s.sq && s'.cq == s.cq && s'.workers == s.workers
            && AnswerTo(s', kc) == if |s.sq| == s.sqCap then Again else InProgress
  {
    assert CallOk(s, kc);
  }

  /** The operations are those numbered 1 to 7: each may be called, and a worker that fetched it runs it. */
  lemma EveryOperation(s: State, kc: Kid, op: nat, arg: int, w: Wid)
    requires Inv(s)
    ensures At(s, kc).place == AtRest && InFlight(s) < s.cqCap ==> (Enabled(s, Call_(kc, op, arg)) <==> 1 <= op <= 7)
    ensures w < |s.workers| && s.workers[w] == Got(kc) ==>
              Next(s, ReadOp(w)).workers[w] == if 1 <= At(s, kc).op <= 7 then Running(kc) else Refused(kc)
  {
  }

  // ---- What goes through the queues ----

  /** Objects in the order in which they were put into and taken out of the queues, and counts of posts. */
  datatype Traffic = Traffic(submitted: seq<Kid>, fetched: seq<Kid>, published: seq<Kid>, taken: seq<Kid>,
                             fills: nat, consumed: nat)

  function TrafficOf(s: State, steps: seq<Step>): Traffic
    decreases |steps|
  {
    if steps == [] then Traffic([], [], [], [], 0, 0)
    else
      var t, before, step := TrafficOf(s, steps[..|steps| - 1]), Run(s, steps[..|steps| - 1]), steps[|steps| - 1];
      if Enabled(before, step) then Moved(t, before, step, Next(before, step)) else t
  }

  /** What a step adds, by what the thread holds after it, or before it. */
  function Moved(t: Traffic, s: State, step: Step, s': State): Traffic {
    match step
    case Call_(kc, _, _) => if AnswerTo(s, kc) == InProgress then t.(submitted := t.submitted + [kc]) else t
    case Fetch(w) =>
      if w < |s'.workers| && s'.workers[w].Got? then t.(fetched := t.fetched + [s'.workers[w].kc]) else t
    case Publish(w) =>
      if w < |s.workers| && s.workers[w].Marked? then
        t.(published := t.published + [s.workers[w].kc], fills := t.fills + if s.cq == [] then 1 else 0)
      else t
    case Take => if s'.reader.Fetched? then t.(taken := t.taken + [s'.reader.kc]) else t
    case Wake(n) => t.(consumed := t.consumed + n)
    case _ => t
  }

  /** Workers that are about to post. */
  function Posters(workers: seq<Worker>): nat {
    if workers == [] then 0 else (if workers[0].Posting? then 1 else 0) + Posters(workers[1..])
  }

  lemma {:induction false} PostersUpdate(ws: seq<Worker>, w: Wid, pc: Worker)
    requires w < |ws|
    ensures Posters(ws[w := pc]) + (if ws[w].Posting? then 1 else 0) == Posters(ws) + if pc.Posting? then 1 else 0
  {
    if w > 0 {
      PostersUpdate(ws[1..], w - 1, pc);
      assert ws[w := pc][1..] == ws[1..][w - 1 := pc];
    } else {
      assert ws[w := pc][1..] == ws[1..];
    }
  }

  ghost predicate Balanced(s: State, t: Traffic) {
    && t.submitted == t.fetched + s.sq && t.published == t.taken + s.cq && |s.sq| <= s.sqCap
    && t.consumed + s.posts + Posters(s.workers) == t.fills
  }

  lemma MovedBalances(s: State, t: Traffic, step: Step)
    requires Inv(s) && Enabled(s, step) && Balanced(s, t)
    ensures Balanced(Next(s, step), Moved(t, s, step, Next(s, step)))
  {
    match step
    case Fetch(w) => FetchBalances(s, t, w);
    case Publish(w) => PublishBalances(s, t, w);
    case Take => TakeBalances(s, t);
    case Call_(kc, op, arg) => CallBalances(s, t, kc, op, arg);
    case ReadOp(w) => QuietBalances(s, t, step);
    case Return(w, _, _) => QuietBalances(s, t, step);
    case Mark(w) => QuietBalances(s, t, step);
    case Post(w) => QuietBalances(s, t, step);
    case Refuse(w) => QuietBalances(s, t, step);
    case _ =>
  }

  lemma TakeBalances(s: State, t: Traffic)
    requires Enabled(s, Take) && Balanced(s, t)
    ensures Balanced(Next(s, Take), Moved(t, s, Take, Next(s, Take)))
  {
    assert s.cq == [s.cq[0]] + s.cq[1..];
  }

  lemma CallBalances(s: State, t: Traffic, kc: Kid, op: nat, arg: int)
    requires Enabled(s, Call_(kc, op, arg)) && Balanced(s, t)
    ensures var step := Call_(kc, op, arg); Balanced(Next(s, step), Moved(t, s, step, Next(s, step)))
  {
  }

  lemma FetchBalances(s: State, t: Traffic, w: Wid)
    requires Enabled(s, Fetch(w)) && Balanced(s, t)
    ensures Balanced(Next(s, Fetch(w)), Moved(t, s, Fetch(w), Next(s, Fetch(w))))
  {
    PostersUpdate(s.workers, w, Next(s, Fetch(w)).workers[w]);
    assert s.sq == [s.sq[0]] + s.sq[1..];
  }

  lemma PublishBalances(s: State, t: Traffic, w: Wid)
    requires Inv(s) && Enabled(s, Publish(w)) && Balanced(s, t)
    ensures Balanced(Next(s, Publish(w)), Moved(t, s, Publish(w), Next(s, Publish(w))))
  {
    CompletionQueueHasRoom(s, w);
    PostersUpdate(s.workers, w, Next(s, Publish(w)).workers[w]);
  }

  /** A step of a worker that leaves the queues alone. */
  lemma QuietBalances(s: State, t: Traffic, step: Step)
    requires step.ReadOp? || step.Return? || step.Mark? || step.Post? || step.Refuse?
    requires Enabled(s, step) && Balanced(s, t)
    ensures Balanced(Next(s, step), t)
  {
    PostersUpdate(s.workers, step.w, Next(s, step).workers[step.w]);
  }

  lemma {:induction false} NoPosters(n: nat)
    ensures Posters(seq(n, _ => Idle)) == 0
  {
    if n > 0 {
      var ws := seq(n, _ => Idle);
      assert ws[1..] == seq(n - 1, _ => Idle);
      NoPosters(n - 1);
    }
  }

  /**
    In every run both queues are first in, first out: what was put in is what was taken out, followed
    by what is in the queue. And a post is made exactly for each time the completion queue was filled
    when empty: it has been consumed, is pending, or a worker is about to make it.
   */
  lemma {:induction false} FirstInFirstOut(workers: nat, sqCap: nat, cqCap: nat, steps: seq<Step>)
    ensures Balanced(Run(Init(workers, sqCap, cqCap), steps), TrafficOf(Init(workers, sqCap, cqCap), steps))
    decreases |steps|
  {
    var s0 := Init(workers, sqCap, cqCap);
    if steps == [] {
      NoPosters(workers);
    } else {
      var init, step := steps[..|steps| - 1], steps[|steps| - 1];
      FirstInFirstOut(workers, sqCap, cqCap, init);
      RunKeeps(workers, sqCap, cqCap, init);
      if Enabled(Run(s0, init), step) {
        MovedBalances(Run(s0, init), TrafficOf(s0, init), step);
      }
    }
  }
}
