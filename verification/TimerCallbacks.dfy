/** A call of `fftimerqueue_process` whose callbacks use the queue. */
module TimerCallbacks {
  import opened TimerQueue
  import opened TimerProcess

  /**
    The atomic steps of a call in which the first callback takes the steps `calls[0]`, the second one
    `calls[1]`, and so on; callbacks after the last take none.
   */
  function Trace(rb: Balancer, q: Queue, now: int, calls: seq<seq<Op>>): seq<Op>
    requires Lawful(rb) && Owned(q)
    decreases |calls|, Total(q.mem, q.Order(), now)
  {
    if !Ready(q, now) then []
    else
      FireOwned(rb, q, now);
      FireDecreases(rb, q, now);
      var fired := Fire(rb, q, now);
      if calls == [] then [OpFire(now)] + Trace(rb, fired, now, [])
      else
        RunOwned(rb, fired, calls[0]);
        [OpFire(now)] + calls[0] + Trace(rb, Run(rb, fired, calls[0]), now, calls[1..])
  }

  lemma {:induction false} RunConcat(rb: Balancer, q: Queue, a: seq<Op>, b: seq<Op>)
    ensures Run(rb, q, a + b) == Run(rb, Run(rb, q, a), b)
    decreases |b|
  {
    if b == [] {
      assert a + b == a;
    } else {
      var init := b[..|b| - 1];
      assert (a + b)[..|a + b| - 1] == a + init;
      RunConcat(rb, q, a, init);
    }
  }

  lemma Assoc(a: seq<Op>, b: seq<Op>, c: seq<Op>)
    ensures a + (b + c) == a + b + c
  {
  }

  lemma RunFire(rb: Balancer, q: Queue, now: int)
    requires Ready(q, now)
    ensures Run(rb, q, [OpFire(now)]) == Fire(rb, q, now)
  {
    assert [OpFire(now)][..0] == [];
    assert Run(rb, q, []) == q;
  }

  /** One turn of the loop: the first node fires, its callback takes its steps, and the rest follows. */
  lemma TraceTurn(rb: Balancer, q: Queue, now: int, calls: seq<seq<Op>>)
    requires Lawful(rb) && Owned(q) && Ready(q, now)
    ensures var turn := [OpFire(now)] + if calls == [] then [] else calls[0];
            var q', rest := Run(rb, q, turn), if calls == [] then [] else calls[1..];
            && Owned(q') && Trace(rb, q, now, calls) == turn + Trace(rb, q', now, rest)
            && q' == Run(rb, Fire(rb, q, now), if calls == [] then [] else calls[0])
            && (calls == [] ==> Total(q'.mem, q'.Order(), now) < Total(q.mem, q.Order(), now))
  {
    var ops := if calls == [] then [] else calls[0];
    FireOwned(rb, q, now);
    FireDecreases(rb, q, now);
    RunOwned(rb, Fire(rb, q, now), ops);
    RunConcat(rb, q, [OpFire(now)], ops);
    RunFire(rb, q, now);
    assert calls == [] ==> [OpFire(now)] + ops == [OpFire(now)];
  }

  /**
    Whatever the callbacks do, the call ends with the first node not expired, and at every step on the
    way, so at every callback, a node is active exactly when it is linked, and linked once.
   */
  lemma {:induction false} TraceEnds(rb: Balancer, q: Queue, now: int, calls: seq<seq<Op>>)
    requires Lawful(rb) && Owned(q)
    ensures !Ready(Run(rb, q, Trace(rb, q, now, calls)), now)
    ensures forall n :: 0 <= n <= |Trace(rb, q, now, calls)| ==> Owned(Run(rb, q, Trace(rb, q, now, calls)[..n]))
    decreases |calls|, Total(q.mem, q.Order(), now)
  {
    var trace := Trace(rb, q, now, calls);
    forall n | 0 <= n <= |trace|
      ensures Owned(Run(rb, q, trace[..n]))
    {
      RunOwned(rb, q, trace[..n]);
    }
    if Ready(q, now) {
      TraceTurn(rb, q, now, calls);
      var turn := [OpFire(now)] + if calls == [] then [] else calls[0];
      var q', rest := Run(rb, q, turn), if calls == [] then [] else calls[1..];
      TraceEnds(rb, q', now, rest);
      RunConcat(rb, q, turn, Trace(rb, q', now, rest));
    } else {
      assert Run(rb, q, trace) == q;
    }
  }

  /** With callbacks that leave the queue alone, it is the call that the order theorems are about. */
  lemma {:induction false} QuietTrace(rb: Balancer, q: Queue, now: int)
    requires Lawful(rb) && Owned(q)
    ensures Run(rb, q, Trace(rb, q, now, [])) == Process(rb, q, now).q
    ensures |Trace(rb, q, now, [])| == |Process(rb, q, now).log|
    decreases Total(q.mem, q.Order(), now)
  {
    if Ready(q, now) {
      FireOwned(rb, q, now);
      FireDecreases(rb, q, now);
      var fired := Fire(rb, q, now);
      QuietTrace(rb, fired, now);
      RunConcat(rb, q, [OpFire(now)], Trace(rb, fired, now, []));
      RunFire(rb, q, now);
    }
  }
}
