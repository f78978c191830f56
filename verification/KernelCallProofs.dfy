/** Every step of every thread keeps the invariant of the kernel-call queue. */
module KernelCallProofs {
  import opened KernelCalls

  // ---- What a step on one object leaves alone ----

  predicate ReaderHolds(s: State, kc: Kid) {
    s.reader == Fetched(kc) || s.reader == Cleared(kc)
  }

  /** `s'` differs from `s` only in the object `kc`, the record of its current call, and the thread that has it. */
  ghost predicate Touches(s: State, s': State, kc: Kid) {
    && (forall k :: k != kc ==> At(s', k) == At(s, k))
    && |s'.book| == |s.book|
    && (forall t :: 0 <= t < |s.book| && t != At(s, kc).ticket ==> s'.book[t] == s.book[t])
    && (forall k :: k != kc ==> (k in s.sq <==> k in s'.sq) && (k in s.cq <==> k in s'.cq))
    && |s'.workers| == |s.workers|
    && (forall v :: 0 <= v < |s.workers| && !s.workers[v].Idle? && !s.workers[v].Posting? && s.workers[v].kc != kc
          ==> s'.workers[v] == s.workers[v])
    && (ReaderHoldsAny(s) && s.reader.kc != kc ==> s'.reader == s.reader)
  }

  lemma OtherCall(s: State, s': State, kc: Kid, k: Kid)
    requires Inv(s) && Underway(s, kc) && Touches(s, s', kc) && k != kc
    ensures CallOk(s', k)
  {
    assert CallOk(s, k);
    assert At(s', k) == At(s, k);
  }

  lemma OtherWorker(s: State, s': State, kc: Kid, v: Wid)
    requires Inv(s) && Underway(s, kc) && Touches(s, s', kc)
    requires v < |s.workers| && s'.workers[v] == s.workers[v] && !Holds(s.workers[v], kc)
    ensures WorkerOk(s', v)
  {
    assert WorkerOk(s, v);
    var pc := s.workers[v];
    if !pc.Idle? && !pc.Posting? {
      assert CallOk(s, pc.kc);
      assert At(s', pc.kc) == At(s, pc.kc);
    }
  }

  lemma OtherEntry(s: State, s': State, kc: Kid, t: Ticket)
    requires Inv(s) && Touches(s, s', kc) && t < |s.book| && t != At(s, kc).ticket
    requires At(s', kc).ticket == At(s, kc).ticket
    ensures EntryOk(s', t)
  {
    assert EntryOk(s, t);
    var e := s.book[t];
    if !e.finished {
      assert e.kc != kc;
    }
  }

  lemma OtherReader(s: State, s': State, kc: Kid)
    requires Inv(s) && Underway(s, kc) && Touches(s, s', kc) && !ReaderHolds(s, kc) && s'.reader == s.reader
    ensures ReaderOk(s')
  {
    if ReaderHoldsAny(s) {
      assert CallOk(s, s.reader.kc);
      assert At(s', s.reader.kc) == At(s, s.reader.kc);
    }
  }

  /** What remains to be shown for the touched object itself. */
  ghost predicate Rest(s': State, kc: Kid, t: Ticket) {
    && CallOk(s', kc)
    && At(s', kc).ticket == t && (t < |s'.book| ==> EntryOk(s', t))
    && ReaderOk(s') && QueuesOk(s') && InFlight(s') <= s'.cqCap && Awakened(s')
  }

  /** A step on an object held by nobody but `w`, or by no worker. */
  lemma Assemble(s: State, s': State, kc: Kid)
    requires Inv(s) && Underway(s, kc) && Touches(s, s', kc) && Rest(s', kc, At(s, kc).ticket)
    requires forall v :: 0 <= v < |s.workers| && (Holds(s.workers[v], kc) || s'.workers[v] != s.workers[v]) ==>
               WorkerOk(s', v)
    ensures Inv(s')
  {
    forall k
      ensures CallOk(s', k)
    {
      if k != kc { OtherCall(s, s', kc, k); }
    }
    forall v | 0 <= v < |s'.workers|
      ensures WorkerOk(s', v)
    {
      if !Holds(s.workers[v], kc) && s'.workers[v] == s.workers[v] { OtherWorker(s, s', kc, v); }
    }
    forall t | 0 <= t < |s'.book|
      ensures EntryOk(s', t)
    {
      if t != At(s, kc).ticket { OtherEntry(s, s', kc, t); }
    }
  }

  lemma {:induction false} HeldUpdate(ws: seq<Worker>, w: Wid, pc: Worker)
    requires w < |ws|
    ensures Held(ws[w := pc]) + (if ws[w].Idle? || ws[w].Posting? then 0 else 1)
         == Held(ws) + (if pc.Idle? || pc.Posting? then 0 else 1)
  {
    if w > 0 {
      HeldUpdate(ws[1..], w - 1, pc);
      assert ws[w := pc][1..] == ws[1..][w - 1 := pc];
    } else {
      assert ws[w := pc][1..] == ws[1..];
    }
  }

  /** A post that is due stays due. */
  lemma StaysAwakened(s: State, s': State)
    requires Awakened(s) && s'.posts >= s.posts
    requires s'.reader.Waiting? && s'.cq != [] ==> s.reader.Waiting? && s.cq != []
    requires |s'.workers| == |s.workers|
    requires forall v :: 0 <= v < |s.workers| && s.workers[v].Posting? ==> s'.workers[v].Posting?
    ensures Awakened(s')
  {
  }

  // ---- Workers ----

  lemma FetchKeeps(s: State, w: Wid)
    requires Inv(s) && Enabled(s, Fetch(w))
    ensures Inv(Next(s, Fetch(w)))
  {
    var kc, s' := s.sq[0], Next(s, Fetch(w));
    assert CallOk(s, kc);
    NotHeldByWorkers(s, kc);
    HeldUpdate(s.workers, w, Got(kc));
    StaysAwakened(s, s');
    assert forall k :: k in s.sq <==> k == kc || k in s'.sq;
    Assemble(s, s', kc);
  }

  lemma HolderIsUnderway(s: State, w: Wid)
    requires Inv(s) && w < |s.workers| && !s.workers[w].Idle? && !s.workers[w].Posting?
    ensures var kc := s.workers[w].kc;
            && Underway(s, kc) && At(s, kc).place == InWorker(w)
            && kc !in s.sq && kc !in s.cq && !ReaderHolds(s, kc)
            && forall v :: 0 <= v < |s.workers| && Holds(s.workers[v], kc) ==> v == w
  {
    assert WorkerOk(s, w);
    var kc := s.workers[w].kc;
    assert CallOk(s, kc);
    forall v | 0 <= v < |s.workers| && Holds(s.workers[v], kc)
      ensures v == w
    {
      assert WorkerOk(s, v);
    }
  }

  lemma ReadOpKeeps(s: State, w: Wid)
    requires Inv(s) && Enabled(s, ReadOp(w))
    ensures Inv(Next(s, ReadOp(w)))
  {
    var kc, s' := s.workers[w].kc, Next(s, ReadOp(w));
    HolderIsUnderway(s, w);
    assert WorkerOk(s, w);
    assert EntryOk(s, At(s, kc).ticket);
    HeldUpdate(s.workers, w, s'.workers[w]);
    StaysAwakened(s, s');
    OtherReader(s, s', kc);
    Assemble(s, s', kc);
  }

  lemma ReturnKeeps(s: State, w: Wid, result: int, error: int)
    requires Inv(s) && Enabled(s, Return(w, result, error))
    ensures Inv(Next(s, Return(w, result, error)))
  {
    var kc, s' := s.workers[w].kc, Next(s, Return(w, result, error));
    HolderIsUnderway(s, w);
    assert WorkerOk(s, w);
    assert EntryOk(s, At(s, kc).ticket);
    HeldUpdate(s.workers, w, s'.workers[w]);
    StaysAwakened(s, s');
    OtherReader(s, s', kc);
    Assemble(s, s', kc);
  }

  lemma MarkKeeps(s: State, w: Wid)
    requires Inv(s) && Enabled(s, Mark(w))
    ensures Inv(Next(s, Mark(w)))
  {
    var kc, s' := s.workers[w].kc, Next(s, Mark(w));
    HolderIsUnderway(s, w);
    assert WorkerOk(s, w);
    assert EntryOk(s, At(s, kc).ticket);
    HeldUpdate(s.workers, w, s'.workers[w]);
    StaysAwakened(s, s');
    OtherReader(s, s', kc);
    Assemble(s, s', kc);
  }

  lemma {:induction false} HolderCounts(ws: seq<Worker>, w: Wid)
    requires w < |ws| && !ws[w].Idle? && !ws[w].Posting?
    ensures Held(ws) >= 1
  {
    if w > 0 {
      HolderCounts(ws[1..], w - 1);
    }
  }

  /** The completion queue has room for every call that a worker is about to add. */
  lemma CompletionQueueHasRoom(s: State, w: Wid)
    requires Inv(s) && Enabled(s, Publish(w))
    ensures |s.cq| < s.cqCap
  {
    HolderCounts(s.workers, w);
  }

  lemma PublishKeeps(s: State, w: Wid)
    requires Inv(s) && Enabled(s, Publish(w))
    ensures Inv(Next(s, Publish(w)))
  {
    var kc, s' := s.workers[w].kc, Next(s, Publish(w));
    CompletionQueueHasRoom(s, w);
    HolderIsUnderway(s, w);
    assert WorkerOk(s, w);
    assert EntryOk(s, At(s, kc).ticket);
    HeldUpdate(s.workers, w, s'.workers[w]);
    assert forall k :: k in s'.cq <==> k == kc || k in s.cq;
    assert Awakened(s') by {
      if s.cq == [] {
        assert s'.workers[w].Posting?;
      } else if s.reader.Waiting? && s.posts == 0 {
        var v :| 0 <= v < |s.workers| && s.workers[v].Posting?;
        assert s'.workers[v].Posting?;
      }
    }
    Assemble(s, s', kc);
  }

  lemma RefuseKeeps(s: State, w: Wid)
    requires Inv(s) && Enabled(s, Refuse(w))
    ensures Inv(Next(s, Refuse(w)))
  {
    var kc, s' := s.workers[w].kc, Next(s, Refuse(w));
    HolderIsUnderway(s, w);
    assert WorkerOk(s, w);
    assert EntryOk(s, At(s, kc).ticket);
    HeldUpdate(s.workers, w, s'.workers[w]);
    StaysAwakened(s, s');
    OtherReader(s, s', kc);
    Assemble(s, s', kc);
  }

  /** A step that changes no object and no record. */
  lemma QuietStep(s: State, s': State)
    requires Inv(s) && s'.calls == s.calls && s'.book == s.book && s'.sq == s.sq && s'.cq == s.cq
    requires s'.cqCap == s.cqCap && |s'.workers| == |s.workers|
    requires forall v :: 0 <= v < |s.workers| ==>
               s'.workers[v] == s.workers[v] || (s.workers[v].Posting? && s'.workers[v].Idle?)
    requires s'.reader == s.reader || (!ReaderHoldsAny(s) && !ReaderHoldsAny(s'))
    requires Held(s'.workers) == Held(s.workers) && Awakened(s')
    ensures Inv(s')
  {
    forall kc
      ensures CallOk(s', kc)
    {
      assert CallOk(s, kc);
      assert At(s', kc) == At(s, kc);
    }
    forall v | 0 <= v < |s'.workers|
      ensures WorkerOk(s', v)
    {
      assert WorkerOk(s, v);
      var pc := s.workers[v];
      assert !pc.Idle? && !pc.Posting? ==> At(s', pc.kc) == At(s, pc.kc);
    }
    forall t | 0 <= t < |s'.book|
      ensures EntryOk(s', t)
    {
      assert EntryOk(s, t);
      assert At(s', s.book[t].kc) == At(s, s.book[t].kc);
    }
    assert forall kc :: At(s', kc) == At(s, kc);
  }

  predicate ReaderHoldsAny(s: State) {
    s.reader.Fetched? || s.reader.Cleared?
  }

  lemma PostKeeps(s: State, w: Wid)
    requires Inv(s) && Enabled(s, Post(w))
    ensures Inv(Next(s, Post(w)))
  {
    HeldUpdate(s.workers, w, Idle);
    QuietStep(s, Next(s, Post(w)));
  }

  // ---- The reader ----

  lemma WakeKeeps(s: State, consumed: nat)
    requires Inv(s) && Enabled(s, Wake(consumed))
    ensures Inv(Next(s, Wake(consumed)))
  {
    QuietStep(s, Next(s, Wake(consumed)));
  }

  lemma SleepKeeps(s: State)
    requires Inv(s) && Enabled(s, Sleep)
    ensures Inv(Next(s, Sleep))
  {
    QuietStep(s, Next(s, Sleep));
  }

  lemma NotHeldByWorkers(s: State, kc: Kid)
    requires Inv(s) && !At(s, kc).place.InWorker?
    ensures forall v :: 0 <= v < |s.workers| ==> !Holds(s.workers[v], kc)
  {
    forall v | 0 <= v < |s.workers|
      ensures !Holds(s.workers[v], kc)
    {
      assert WorkerOk(s, v);
    }
  }

  lemma TakeKeeps(s: State)
    requires Inv(s) && Enabled(s, Take)
    ensures Inv(Next(s, Take))
  {
    var kc, s' := s.cq[0], Next(s, Take);
    assert CallOk(s, kc);
    NotHeldByWorkers(s, kc);
    assert EntryOk(s, At(s, kc).ticket);
    assert forall k :: k in s.cq <==> k == kc || k in s'.cq;
    Assemble(s, s', kc);
  }

  lemma ClearKeeps(s: State)
    requires Inv(s) && Enabled(s, Clear)
    ensures Inv(Next(s, Clear))
  {
    var kc, s' := s.reader.kc, Next(s, Clear);
    assert CallOk(s, kc);
    NotHeldByWorkers(s, kc);
    assert EntryOk(s, At(s, kc).ticket);
    Assemble(s, s', kc);
  }

  lemma CheckKeeps(s: State)
    requires Inv(s) && Enabled(s, Check)
    ensures Inv(Next(s, Check))
  {
    var kc, s' := s.reader.kc, Next(s, Check);
    assert CallOk(s, kc);
    NotHeldByWorkers(s, kc);
    assert EntryOk(s, At(s, kc).ticket);
    Assemble(s, s', kc);
  }

  // ---- The owner ----

  lemma CancelInFlightKeeps(s: State, kc: Kid)
    requires Inv(s) && At(s, kc).place != AtRest
    ensures Inv(CancelCall(s, kc))
  {
    var s' := CancelCall(s, kc);
    assert CallOk(s, kc);
    assert EntryOk(s, At(s, kc).ticket);
    forall v | 0 <= v < |s.workers| && Holds(s.workers[v], kc)
      ensures WorkerOk(s', v)
    {
      assert WorkerOk(s, v);
    }
    Assemble(s, s', kc);
  }

  /** An object at rest may be rewritten, as long as it stays at rest with nothing to collect. */
  lemma AtRestKeeps(s: State, kc: Kid, c: Call)
    requires Inv(s) && At(s, kc).place == AtRest
    requires c.place == AtRest && c.state == 0 && c.op == 0 && c.ticket == At(s, kc).ticket
    ensures Inv(Put(s, kc, c))
  {
    var s' := Put(s, kc, c);
    forall k
      ensures CallOk(s', k)
    {
      assert CallOk(s, k);
      assert k != kc ==> At(s', k) == At(s, k);
    }
    forall v | 0 <= v < |s'.workers|
      ensures WorkerOk(s', v)
    {
      assert WorkerOk(s, v);
    }
    forall t | 0 <= t < |s'.book|
      ensures EntryOk(s', t)
    {
      assert EntryOk(s, t);
    }
  }

  lemma SubmitKeeps(s: State, kc: Kid, op: nat, arg: int)
    requires Inv(s) && Polite(s, kc, op) && AnswerTo(s, kc) == InProgress
    ensures Inv(AsyncCall(s, kc, op, arg))
  {
    var s' := AsyncCall(s, kc, op, arg);
    assert forall k :: k in s'.sq <==> k == kc || k in s.sq;
    forall k
      ensures CallOk(s', k)
    {
      assert CallOk(s, k);
      assert k != kc ==> At(s', k) == At(s, k);
    }
    SubmitKeepsThreads(s, kc, op, arg);
  }

  lemma SubmitKeepsThreads(s: State, kc: Kid, op: nat, arg: int)
    requires Inv(s) && Polite(s, kc, op) && AnswerTo(s, kc) == InProgress
    ensures var s' := AsyncCall(s, kc, op, arg);
            && (forall v :: 0 <= v < |s'.workers| ==> WorkerOk(s', v))
            && (forall t :: 0 <= t < |s'.book| ==> EntryOk(s', t))
            && ReaderOk(s')
  {
    var s' := AsyncCall(s, kc, op, arg);
    forall v | 0 <= v < |s'.workers|
      ensures WorkerOk(s', v)
    {
      assert WorkerOk(s, v);
      var pc := s.workers[v];
      if !pc.Idle? && !pc.Posting? {
        assert CallOk(s, pc.kc);
      }
    }
    forall t | 0 <= t < |s'.book|
      ensures EntryOk(s', t)
    {
      if t < |s.book| {
        assert EntryOk(s, t);
      }
    }
    if ReaderHoldsAny(s) {
      assert CallOk(s, s.reader.kc);
    }
  }

  lemma CallKeeps(s: State, kc: Kid, op: nat, arg: int)
    requires Inv(s) && Enabled(s, Call_(kc, op, arg))
    ensures Inv(Next(s, Call_(kc, op, arg)))
  {
    assert CallOk(s, kc);
    match AnswerTo(s, kc)
    case InProgress => SubmitKeeps(s, kc, op, arg);
    case Again => AtRestKeeps(s, kc, At(s, kc).(op := 0, payload := Args(arg)));
    case Finished(_, _) => AtRestKeeps(s, kc, At(s, kc).(op := 0));
    case Busy =>
    case Garbage =>
  }

  lemma CancelKeeps(s: State, kc: Kid)
    requires Inv(s)
    ensures Inv(CancelCall(s, kc))
  {
    if At(s, kc).place == AtRest {
      assert CallOk(s, kc);
      AtRestKeeps(s, kc, At(s, kc).(op := 0));
    } else {
      CancelInFlightKeeps(s, kc);
    }
  }

  // ---- Every run ----

  lemma NextKeeps(s: State, step: Step)
    requires Inv(s) && Enabled(s, step)
    ensures Inv(Next(s, step))
  {
    match step
    case Call_(kc, op, arg) => CallKeeps(s, kc, op, arg);
    case Cancel(kc) => CancelKeeps(s, kc);
    case Fetch(w) => FetchKeeps(s, w);
    case ReadOp(w) => ReadOpKeeps(s, w);
    case Return(w, result, error) => ReturnKeeps(s, w, result, error);
    case Mark(w) => MarkKeeps(s, w);
    case Publish(w) => PublishKeeps(s, w);
    case Post(w) => PostKeeps(s, w);
    case Refuse(w) => RefuseKeeps(s, w);
    case Wake(consumed) => WakeKeeps(s, consumed);
    case Take => TakeKeeps(s);
    case Clear => ClearKeeps(s);
    case Check => CheckKeeps(s);
    case Sleep => SleepKeeps(s);
  }

  lemma {:induction false} HeldIdle(n: nat)
    ensures Held(seq(n, _ => Idle)) == 0
  {
    if n > 0 {
      HeldIdle(n - 1);
      assert seq(n, _ => Idle)[1..] == seq(n - 1, _ => Idle);
    }
  }

  /** The invariant holds in every state of every run, whatever the interleaving. */
  lemma {:induction false} RunKeeps(workers: nat, sqCap: nat, cqCap: nat, steps: seq<Step>)
    ensures Inv(Run(Init(workers, sqCap, cqCap), steps))
    decreases |steps|
  {
    var init := Init(workers, sqCap, cqCap);
    if steps == [] {
      HeldIdle(workers);
    } else {
      RunKeeps(workers, sqCap, cqCap, steps[..|steps| - 1]);
      var before, step := Run(init, steps[..|steps| - 1]), steps[|steps| - 1];
      if Enabled(before, step) {
        NextKeeps(before, step);
      }
    }
  }
}
