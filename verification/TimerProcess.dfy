/**
  One call of `fftimerqueue_process` whose callbacks do not touch the queue: it terminates for all
  32-bit values, and within the window it fires what is due, in order.
 */
module TimerProcess {
  import opened TimerQueue
  import opened TimerOrder

  // ---- Termination ----

  /** How much a node keeps the loop busy: nothing unless it is expired. */
  function Weight(node: Timer, now: int): nat {
    if Expired(node.key, now) then 1 + Wrap(now - node.key) else 0
  }

  function Total(mem: Memory, s: seq<Id>, now: int): nat {
    if s == [] then 0 else Weight(At(mem, s[0]), now) + Total(mem, s[1..], now)
  }

  lemma WrapNegated(x: int)
    ensures Wrap(-x) == if Wrap(x) == 0 then 0 else WORD - Wrap(x)
  {
  }

  /** A key is expired exactly when it is at most 2^31 behind. */
  lemma ExpiredMeansBehind(key: int, now: int)
    ensures Expired(key, now) <==> Wrap(now - key) <= HALF
  {
    WrapNegated(now - key);
    assert -(now - key) == key - now;
  }

  /** How far a re-armed key is behind `now`, for all 32-bit values. */
  lemma RearmedBehind(node: Timer, now: int)
    requires node.interval > 0
    ensures var behind := Wrap(now - node.key);
            Wrap(now - Rearmed(node, now).key) ==
              if Wrap(node.key + node.interval) < Wrap(now + 1) then WORD - 1
              else if node.interval <= behind then behind - node.interval
              else WORD + behind - node.interval
  {
    var behind, later := Wrap(now - node.key), node.key + node.interval;
    var quot := (now - node.key) / WORD;
    assert now - node.key == WORD * quot + behind;
    if Wrap(later) < Wrap(now + 1) {
      WrapUnique(now - Wrap(now + 1), -1, (now + 1) / WORD);
    } else {
      WrapUnique(now - Wrap(later), now - later, later / WORD);
      if node.interval <= behind {
        WrapUnique(now - later, behind - node.interval, quot);
      } else {
        WrapUnique(now - later, WORD + behind - node.interval, quot - 1);
      }
    }
  }

  /** For all 32-bit values, a re-armed node is less behind than before, or not expired. */
  lemma RearmedIsLighter(node: Timer, now: int)
    requires Expired(node.key, now) && node.interval > 0
    ensures Weight(Rearmed(node, now), now) < Weight(node, now)
  {
    RearmedBehind(node, now);
    ExpiredMeansBehind(node.key, now);
    ExpiredMeansBehind(Rearmed(node, now).key, now);
  }

  /** A wrap-around makes the unsigned maximum choose a key that is still not after `now`. */
  predicate Refires(node: Timer, now: int) {
    Wrap(node.key + node.interval) >= Wrap(now + 1) && node.interval <= Wrap(now - node.key)
  }

  /** For all 32-bit values, when a periodic node is expired again as soon as it is re-armed. */
  lemma RefiresIff(node: Timer, now: int)
    requires Expired(node.key, now) && node.interval > 0
    ensures Expired(Rearmed(node, now).key, now) <==> Refires(node, now)
  {
    RearmedBehind(node, now);
    ExpiredMeansBehind(node.key, now);
    ExpiredMeansBehind(Rearmed(node, now).key, now);
  }

  lemma {:induction false} TotalFrame(mem: Memory, mem': Memory, s: seq<Id>, now: int)
    requires forall x :: x in s ==> At(mem', x) == At(mem, x)
    ensures Total(mem', s, now) == Total(mem, s, now)
  {
    if s != [] {
      TotalFrame(mem, mem', s[1..], now);
    }
  }

  lemma {:induction false} TotalAppend(mem: Memory, a: seq<Id>, b: seq<Id>, now: int)
    ensures Total(mem, a + b, now) == Total(mem, a, now) + Total(mem, b, now)
  {
    if a == [] {
      assert a + b == b;
    } else {
      TotalAppend(mem, a[1..], b, now);
      assert (a + b)[1..] == a[1..] + b;
    }
  }

  lemma TotalInserted(mem: Memory, s: seq<Id>, p: nat, id: Id, now: int)
    requires p <= |s|
    ensures Total(mem, s[..p] + [id] + s[p..], now) == Total(mem, s, now) + Weight(At(mem, id), now)
  {
    var a, b := s[..p], s[p..];
    TotalAppend(mem, a + [id], b, now);
    TotalAppend(mem, a, [id], now);
    TotalAppend(mem, a, b, now);
    TotalOne(mem, id, now);
    assert a + b == s;
  }

  lemma TotalOne(mem: Memory, id: Id, now: int)
    ensures Total(mem, [id], now) == Weight(At(mem, id), now)
  {
  }

  lemma {:induction false} WithoutAbsent(s: seq<Id>, id: Id)
    requires id !in s
    ensures Without(s, id) == s
  {
    if s != [] {
      WithoutAbsent(s[1..], id);
    }
  }

  lemma WithoutFirst(s: seq<Id>)
    requires NoDuplicates(s) && s != []
    ensures Without(s, s[0]) == s[1..] && s[0] !in s[1..]
  {
    assert s[0] !in s[1..];
    WithoutAbsent(s[1..], s[0]);
  }

  lemma LinkTotal(rb: Balancer, q: Queue, id: Id, now: int)
    requires Lawful(rb) && id !in q.Order()
    ensures var q' := Link(rb, q, id);
            Total(q'.mem, q'.Order(), now) == Total(q.mem, q.Order(), now) + Weight(At(q.mem, id), now)
  {
    var q' := Link(rb, q, id);
    var p := DescendInserts(q'.mem, q.tree, id);
    TotalInserted(q'.mem, q.Order(), p, id, now);
    TotalFrame(q.mem, q'.mem, q.Order(), now);
  }

  lemma TakeFirstTotal(rb: Balancer, q: Queue, now: int)
    requires Lawful(rb) && Owned(q) && q.tree.Node?
    ensures var id, q1 := Leftmost(q.tree), TakeFirst(rb, q);
            && id !in q1.Order()
            && Total(q1.mem, q1.Order(), now) + Weight(At(q.mem, id), now) == Total(q.mem, q.Order(), now)
  {
    var rest := q.Order()[1..];
    LeftmostIsFirst(q.tree);
    WithoutFirst(q.Order());
    assert TakeFirst(rb, q).Order() == rest;
    TotalFrame(q.mem, TakeFirst(rb, q).mem, rest, now);
  }

  /** Each iteration strictly lowers the total weight of the expired nodes, wrap-around included. */
  lemma FireDecreases(rb: Balancer, q: Queue, now: int)
    requires Lawful(rb) && Owned(q) && Ready(q, now)
    ensures var q' := Fire(rb, q, now); Total(q'.mem, q'.Order(), now) < Total(q.mem, q.Order(), now)
  {
    TakeFirstTotal(rb, q, now);
    var id, q1 := Leftmost(q.tree), TakeFirst(rb, q);
    if At(q.mem, id).interval > 0 {
      var node := At(q1.mem, id);
      var q2 := q1.(mem := q1.mem[id := Rearmed(node, now)]);
      TotalFrame(q1.mem, q2.mem, q1.Order(), now);
      LinkTotal(rb, q2, id, now);
      RearmedIsLighter(node, now);
    }
  }

  /** A call of a node's function, and the node as it was when it was taken from the queue. */
  datatype Firing = Firing(id: Id, node: Timer)

  datatype Outcome = Outcome(q: Queue, log: seq<Firing>)

  /** The process loop. */
  function Process(rb: Balancer, q: Queue, now: int): Outcome
    requires Lawful(rb) && Owned(q)
    decreases Total(q.mem, q.Order(), now)
  {
    if !Ready(q, now) then Outcome(q, [])
    else
      FireOwned(rb, q, now);
      FireDecreases(rb, q, now);
      var id := Leftmost(q.tree);
      var rest := Process(rb, Fire(rb, q, now), now);
      Outcome(rest.q, [Firing(id, At(q.mem, id))] + rest.log)
  }

  lemma {:induction false} ProcessOwned(rb: Balancer, q: Queue, now: int)
    requires Lawful(rb) && Owned(q)
    ensures Owned(Process(rb, q, now).q) && !Ready(Process(rb, q, now).q, now)
    decreases Total(q.mem, q.Order(), now)
  {
    if Ready(q, now) {
      FireOwned(rb, q, now);
      FireDecreases(rb, q, now);
      ProcessOwned(rb, Fire(rb, q, now), now);
    }
  }

  // ---- Order within the window ----

  /** All due times, `now`, and the times nodes can be re-armed for, lie in one window of 2^31 ms from `w`. */
  ghost predicate InWindow(q: Queue, now: int, w: int) {
    && w <= now && now + 1 < w + HALF
    && forall x :: x in q.Order() ==>
         && w <= At(q.mem, x).due < w + HALF
         && (At(q.mem, x).interval > 0 ==> now + At(q.mem, x).interval < w + HALF)
  }

  ghost predicate Sound(q: Queue, now: int, w: int) {
    Owned(q) && Ordered(q) && InWindow(q, now, w)
  }

  /** What one iteration does to the node it takes and to all others. */
  lemma FireEffect(rb: Balancer, q: Queue, now: int, w: int)
    requires Lawful(rb) && Sound(q, now, w) && Ready(q, now)
    ensures var id, q' := Leftmost(q.tree), Fire(rb, q, now);
            var node, node' := At(q.mem, id), At(q'.mem, id);
            && id in q.Order() && node.due <= now
            && (id in q'.Order() <==> node.interval > 0)
            && (id in q'.Order() ==> node'.interval == node.interval && node.due < node'.due < w + HALF)
            && (id in q'.Order() ==> node'.due == Rearmed(node, now).due && node'.key == Rearmed(node, now).key)
            && (forall x :: x != id ==> (x in q'.Order() <==> x in q.Order()) && At(q'.mem, x) == At(q.mem, x))
  {
    LeftmostIsFirst(q.tree);
    FireOwned(rb, q, now);
    var id := Leftmost(q.tree);
    ComparesTrueTimes(At(q.mem, id).due, now);
  }

  lemma FireKeepsSound(rb: Balancer, q: Queue, now: int, w: int)
    requires Lawful(rb) && Sound(q, now, w) && Ready(q, now)
    ensures Sound(Fire(rb, q, now), now, w)
  {
    FireEffect(rb, q, now, w);
    FireOwned(rb, q, now);
    assert InWindow(Fire(rb, q, now), now, w);
    FireOrdered(rb, q, now);
  }

  lemma FirstIsBefore(rb: Balancer, q: Queue, now: int, w: int)
    requires Lawful(rb) && Sound(q, now, w) && Ready(q, now)
    ensures AllAfter(At(q.mem, Leftmost(q.tree)), Fire(rb, q, now))
  {
    FireEffect(rb, q, now, w);
    LeftmostIsFirst(q.tree);
    var id, q', order := Leftmost(q.tree), Fire(rb, q, now), q.Order();
    forall x | x in q'.Order()
      ensures Before(At(q.mem, id), At(q'.mem, x))
    {
      if x != id {
        var i :| 0 <= i < |order| && order[i] == x;
        assert order[0] == id;
      }
    }
  }

  ghost predicate AllAfter(m: Timer, q: Queue) {
    forall x :: x in q.Order() ==> Before(m, At(q.mem, x))
  }

  lemma {:induction false} LogIsAfter(rb: Balancer, q: Queue, now: int, w: int, m: Timer)
    requires Lawful(rb) && Sound(q, now, w) && AllAfter(m, q)
    ensures forall f :: f in Process(rb, q, now).log ==> Before(m, f.node) && f.node.due <= now
    decreases Total(q.mem, q.Order(), now)
  {
    if Ready(q, now) {
      FireEffect(rb, q, now, w);
      FireKeepsSound(rb, q, now, w);
      FireDecreases(rb, q, now);
      LogIsAfter(rb, Fire(rb, q, now), now, w, m);
    }
  }

  ghost predicate InTurn(log: seq<Firing>) {
    forall i, j :: 0 <= i < j < |log| ==> Before(log[i].node, log[j].node)
  }

  /**
    The firing order: nothing fires before it is due, in non-decreasing order of the true due times,
    first linked first among equal ones.
   */
  lemma {:induction false} ProcessInOrder(rb: Balancer, q: Queue, now: int, w: int)
    requires Lawful(rb) && Sound(q, now, w)
    ensures InTurn(Process(rb, q, now).log)
    ensures forall f :: f in Process(rb, q, now).log ==> f.node.due <= now
    decreases Total(q.mem, q.Order(), now)
  {
    if Ready(q, now) {
      FireEffect(rb, q, now, w);
      FireKeepsSound(rb, q, now, w);
      FireDecreases(rb, q, now);
      FirstIsBefore(rb, q, now, w);
      var q' := Fire(rb, q, now);
      ProcessInOrder(rb, q', now, w);
      LogIsAfter(rb, q', now, w, At(q.mem, Leftmost(q.tree)));
    }
  }

  /** When the first node is not expired, none is. */
  lemma NothingLeft(q: Queue, now: int, w: int)
    requires Sound(q, now, w) && !Ready(q, now)
    ensures forall x :: x in q.Order() ==> At(q.mem, x).due > now
  {
    if q.tree.Node? {
      LeftmostIsFirst(q.tree);
      var id, order := Leftmost(q.tree), q.Order();
      ComparesTrueTimes(At(q.mem, id).due, now);
      forall x | x in order
        ensures At(q.mem, x).due > now
      {
        var i :| 0 <= i < |order| && order[i] == x;
      }
    }
  }

  function Count(log: seq<Firing>, id: Id): nat {
    if log == [] then 0 else (if log[0].id == id then 1 else 0) + Count(log[1..], id)
  }

  /**
    What a call does to each node. One that is not due is not touched; a due one-shot node fires exactly
    once and ends up inactive; a due periodic node fires and ends up linked for a time after `now`.
   */
  lemma {:induction false} ProcessEachNode(rb: Balancer, q: Queue, now: int, w: int, x: Id)
    requires Lawful(rb) && Sound(q, now, w)
    ensures var out, node := Process(rb, q, now), At(q.mem, x);
            if x !in q.Order() || node.due > now then
              && Count(out.log, x) == 0 && At(out.q.mem, x) == node
              && (x in out.q.Order() <==> x in q.Order())
            else if node.interval <= 0 then
              Count(out.log, x) == 1 && x !in out.q.Order() && !At(out.q.mem, x).active
            else
              && Count(out.log, x) >= 1 && x in out.q.Order()
              && now < At(out.q.mem, x).due < w + HALF && At(out.q.mem, x).interval == node.interval
    decreases Total(q.mem, q.Order(), now)
  {
    if Ready(q, now) {
      FireEffect(rb, q, now, w);
      FireKeepsSound(rb, q, now, w);
      FireDecreases(rb, q, now);
      var q' := Fire(rb, q, now);
      ProcessEachNode(rb, q', now, w, x);
      ProcessOwned(rb, q', now);
      assert Process(rb, q, now).log[1..] == Process(rb, q', now).log;
    } else {
      NothingLeft(q, now, w);
    }
  }

  /** A node that has been added fires in a call for the time `t` exactly when its interval has passed by then. */
  lemma AddedFiresWhenDue(rb: Balancer, q: Queue, id: Id, now: int, interval: Int32, t: int, w: int)
    requires Lawful(rb) && Owned(q) && Sound(Add(rb, q, id, now, interval), t, w)
    ensures Count(Process(rb, Add(rb, q, id, now, interval), t).log, id) >= 1 <==>
            (if interval < 0 then now - interval else now + interval) <= t
  {
    AddedIsLinked(rb, q, id, now, interval);
    ProcessEachNode(rb, Add(rb, q, id, now, interval), t, w, id);
  }

  /** An added node that has fired is linked for a later time if its interval was positive, else it is done. */
  lemma AddedRepeatsIffPositive(rb: Balancer, q: Queue, id: Id, now: int, interval: Int32, t: int, w: int)
    requires Lawful(rb) && Owned(q) && Sound(Add(rb, q, id, now, interval), t, w)
    requires (if interval < 0 then now - interval else now + interval) <= t
    ensures var out := Process(rb, Add(rb, q, id, now, interval), t);
            if interval > 0 then
              id in out.q.Order() && At(out.q.mem, id).due > t && At(out.q.mem, id).interval == interval
            else Count(out.log, id) == 1 && id !in out.q.Order()
  {
    AddedIsLinked(rb, q, id, now, interval);
    ProcessEachNode(rb, Add(rb, q, id, now, interval), t, w, id);
  }

  lemma AddedIsLinked(rb: Balancer, q: Queue, id: Id, now: int, interval: Int32)
    requires Lawful(rb) && Owned(q)
    ensures var q', node := Add(rb, q, id, now, interval), At(Add(rb, q, id, now, interval).mem, id);
            id in q'.Order() && node.interval == interval && node.due == now + Abs(interval)
  {
    var node := At(q.mem, id).(interval := interval, key := Wrap(now + Abs(interval)), due := now + Abs(interval));
    var q1 := q.(mem := q.mem[id := node]);
    RewriteOwned(q, id, node);
    RemoveOwned(rb, q1, id);
    LinkOwned(rb, TimerQueue.Remove(rb, q1, id), id);
  }

  // ---- At most once per call ----

  /** Within the window, a due periodic node fires once in a call, exactly if it is not one that refires. */
  lemma {:induction false} FiresOnceIff(rb: Balancer, q: Queue, now: int, w: int, x: Id)
    requires Lawful(rb) && Sound(q, now, w)
    requires x in q.Order() && At(q.mem, x).due <= now && At(q.mem, x).interval > 0
    ensures Count(Process(rb, q, now).log, x) == 1 <==> !Refires(At(q.mem, x), now)
    ensures !Refires(At(q.mem, x), now) ==>
              At(Process(rb, q, now).q.mem, x).due == Rearmed(At(q.mem, x), now).due
    decreases Total(q.mem, q.Order(), now)
  {
    if !Ready(q, now) {
      NothingLeft(q, now, w);
    } else {
      var q' := Fire(rb, q, now);
      FireEffect(rb, q, now, w);
      FireKeepsSound(rb, q, now, w);
      FireDecreases(rb, q, now);
      assert Process(rb, q, now).log[1..] == Process(rb, q', now).log;
      if Leftmost(q.tree) == x {
        RefiresInWindow(q', At(q.mem, x), now, w, x);
        ProcessEachNode(rb, q', now, w, x);
      } else {
        FiresOnceIff(rb, q', now, w, x);
      }
    }
  }

  lemma RefiresInWindow(q': Queue, node: Timer, now: int, w: int, x: Id)
    requires Sound(q', now, w) && x in q'.Order() && Expired(node.key, now) && node.interval > 0
    requires At(q'.mem, x).key == Rearmed(node, now).key
    ensures At(q'.mem, x).due <= now <==> Refires(node, now)
  {
    RefiresIff(node, now);
    ComparesTrueTimes(At(q'.mem, x).due, now);
  }

  /** A 10 ms timer due 100 ms before the wrap-around, in a call 5 ms after it: it fires more than once. */
  lemma FiresAgain(rb: Balancer)
    requires Lawful(rb)
    ensures var q := Queue(map[0 := Timer(WORD - 100, 10, true, WORD - 100, 0)], Node(Leaf, 0, Leaf, 0), 1);
            Owned(q) && Count(Process(rb, q, WORD + 5).log, 0) >= 2
  {
    var node := Timer(WORD - 100, 10, true, WORD - 100, 0);
    var q := Queue(map[0 := node], Node(Leaf, 0, Leaf, 0), 1);
    assert q.Order() == [0];
    assert Sound(q, WORD + 5, WORD - 100);
    assert Refires(node, WORD + 5);
    FiresOnceIff(rb, q, WORD + 5, WORD - 100, 0);
    ProcessEachNode(rb, q, WORD + 5, WORD - 100, 0);
  }

  /** No expired key is numerically ahead of `now`, and no candidate for re-arming overflows. */
  ghost predicate NoOverflow(q: Queue, now: int) {
    && 0 <= now && now + 1 < WORD
    && forall x :: x in q.Order() && Expired(At(q.mem, x).key, now) ==>
         0 <= At(q.mem, x).key <= now && At(q.mem, x).key + At(q.mem, x).interval < WORD
  }

  lemma RearmedIsAhead(node: Timer, now: int)
    requires 0 <= node.key <= now && now + 1 < WORD && node.interval > 0 && node.key + node.interval < WORD
    ensures !Expired(Rearmed(node, now).key, now)
  {
  }

  lemma FireKeepsNoOverflow(rb: Balancer, q: Queue, now: int)
    requires Lawful(rb) && Owned(q) && NoOverflow(q, now) && Ready(q, now)
    ensures var id, q' := Leftmost(q.tree), Fire(rb, q, now);
            && Owned(q') && NoOverflow(q', now)
            && (id in q'.Order() ==> !Expired(At(q'.mem, id).key, now))
            && forall x :: x != id ==> (x in q'.Order() <==> x in q.Order()) && At(q'.mem, x) == At(q.mem, x)
  {
    LeftmostIsFirst(q.tree);
    FireOwned(rb, q, now);
    var node := At(q.mem, Leftmost(q.tree));
    if node.interval > 0 {
      RearmedIsAhead(node.(active := false), now);
    }
  }

  lemma {:induction false} QuietStaysQuiet(rb: Balancer, q: Queue, now: int, x: Id)
    requires Lawful(rb) && Owned(q) && NoOverflow(q, now)
    requires x in q.Order() ==> !Expired(At(q.mem, x).key, now)
    ensures Count(Process(rb, q, now).log, x) == 0
    decreases Total(q.mem, q.Order(), now)
  {
    if Ready(q, now) {
      LeftmostIsFirst(q.tree);
      FireKeepsNoOverflow(rb, q, now);
      FireDecreases(rb, q, now);
      QuietStaysQuiet(rb, Fire(rb, q, now), now, x);
      assert Process(rb, q, now).log[1..] == Process(rb, Fire(rb, q, now), now).log;
    }
  }

  /** Away from the wrap-around, each node fires at most once per call. */
  lemma {:induction false} AtMostOnce(rb: Balancer, q: Queue, now: int, x: Id)
    requires Lawful(rb) && Owned(q) && NoOverflow(q, now)
    ensures Count(Process(rb, q, now).log, x) <= 1
    decreases Total(q.mem, q.Order(), now)
  {
    if Ready(q, now) {
      FireKeepsNoOverflow(rb, q, now);
      FireDecreases(rb, q, now);
      var q' := Fire(rb, q, now);
      if Leftmost(q.tree) == x {
        QuietStaysQuiet(rb, q', now, x);
      } else {
        AtMostOnce(rb, q', now, x);
      }
      assert Process(rb, q, now).log[1..] == Process(rb, q', now).log;
    }
  }

  // ---- Where the re-arming rule is exact ----

  /**
    Re-arming is meant for the later of one interval on and the next millisecond. The unsigned
    maximum gives that exactly when no wrap-around lies between the two.
   */
  lemma RearmedIsLaterIff(node: Timer, now: int)
    requires node.key == Wrap(node.due) && Near(node.due + node.interval, now + 1)
    ensures var next, soon := node.due + node.interval, now + 1;
            Rearmed(node, now).due == (if next >= soon then next else soon) <==> next / WORD == soon / WORD
  {
    var next, soon := node.due + node.interval, now + 1;
    WrapUnique(node.key + node.interval, next, -(node.due / WORD));
    assert next == WORD * (next / WORD) + Wrap(next);
    assert soon == WORD * (soon / WORD) + Wrap(soon);
  }

  /** A 10 ms timer that fires 3 ms before the wrap-around is re-armed for the next millisecond. */
  lemma RearmedTooEarly()
    ensures var node := Timer(WORD - 3, 10, true, WORD - 3, 0);
            Rearmed(node, WORD - 3).due == WORD - 2
  {
  }
}
