/**
  The order of the timer queue under wrap-around, over every run, and what one call of
  `fftimerqueue_process` fires.
 */
module TimerOrder {
  import opened TimerQueue

  /** Earlier, or linked earlier when due at the same time. */
  predicate Before(a: Timer, b: Timer) {
    a.due < b.due || (a.due == b.due && a.stamp < b.stamp)
  }

  ghost predicate Sorted(mem: Memory, s: seq<Id>) {
    forall i, j :: 0 <= i < j < |s| ==> Before(At(mem, s[i]), At(mem, s[j]))
  }

  ghost predicate Coherent(mem: Memory, s: seq<Id>) {
    forall x :: x in s ==> At(mem, x).key == Wrap(At(mem, x).due)
  }

  /** The tree is in the order of the true times, first linked first among equal ones. */
  ghost predicate Ordered(q: Queue) {
    Sorted(q.mem, q.Order()) && Coherent(q.mem, q.Order())
  }

  predicate Near(a: int, b: int) {
    -HALF < a - b < HALF
  }

  /** All linked nodes are due within less than 2^31 ms of each other. */
  ghost predicate Windowed(q: Queue) {
    forall x, y :: x in q.Order() && y in q.Order() ==> Near(At(q.mem, x).due, At(q.mem, y).due)
  }

  lemma WrapDifference(a: int, b: int)
    ensures Wrap(Wrap(a) - Wrap(b)) == Wrap(a - b)
    ensures Wrap(Wrap(a) - b) == Wrap(a - b)
  {
    var i, j := a / WORD, b / WORD;
    var d := a - b;
    assert a == WORD * i + Wrap(a) && b == WORD * j + Wrap(b) && d == WORD * (d / WORD) + Wrap(d);
    WrapUnique(Wrap(a) - Wrap(b), d, j - i);
    WrapUnique(Wrap(a) - b, d, -i);
  }

  lemma WrapUnique(x: int, y: int, k: int)
    requires x == y + WORD * k
    ensures Wrap(x) == Wrap(y)
  {
  }

  /** Within half the range, the wrapped comparisons are the true ones. */
  lemma ComparesTrueTimes(a: int, b: int)
    requires Near(a, b)
    ensures Less(Wrap(a), Wrap(b)) <==> a < b
    ensures Expired(Wrap(a), b) <==> a <= b
  {
    WrapDifference(a, b);
    var d := a - b;
    assert Wrap(d) == if d < 0 then d + WORD else d by {
      if d < 0 { WrapUnique(d, d + WORD, -1); }
    }
  }

  /** The comparison of the descent is right exactly within half the range. */
  lemma ComparesExactly(a: int, b: int)
    requires -WORD < a - b < WORD
    ensures (Less(Wrap(a), Wrap(b)) <==> a < b) <==> -HALF <= a - b < HALF
  {
    WrapDifference(a, b);
    var d := a - b;
    assert Wrap(d) == if d < 0 then d + WORD else d by {
      if d < 0 { WrapUnique(d, d + WORD, -1); }
    }
  }

  // ---- Insertion keeps the order ----

  lemma SortedParts(mem: Memory, a: seq<Id>, x: Id, b: seq<Id>)
    requires Sorted(mem, a + [x] + b)
    ensures Sorted(mem, a) && Sorted(mem, b)
    ensures forall y :: y in a ==> Before(At(mem, y), At(mem, x))
    ensures forall y :: y in b ==> Before(At(mem, x), At(mem, y))
  {
    var s := a + [x] + b;
    assert forall i :: 0 <= i < |a| ==> s[i] == a[i];
    assert s[|a|] == x;
    assert forall i :: 0 <= i < |b| ==> s[|a| + 1 + i] == b[i];
    forall i, j | 0 <= i < j < |b|
      ensures Before(At(mem, b[i]), At(mem, b[j]))
    {
      assert s[|a| + 1 + i] == b[i] && s[|a| + 1 + j] == b[j];
    }
  }

  lemma SortedJoin(mem: Memory, a: seq<Id>, x: Id, b: seq<Id>)
    requires Sorted(mem, a) && Sorted(mem, b)
    requires forall y :: y in a ==> Before(At(mem, y), At(mem, x))
    requires forall y :: y in b ==> Before(At(mem, x), At(mem, y))
    ensures Sorted(mem, a + [x] + b)
  {
  }

  lemma {:induction false} DescendMembers(mem: Memory, t: Tree, id: Id)
    ensures forall x :: x in InOrder(Descend(mem, t, id)) <==> x == id || x in InOrder(t)
  {
    match t
    case Leaf =>
    case Node(l, x, r, _) =>
      DescendMembers(mem, l, id);
      DescendMembers(mem, r, id);
  }

  /** A node that is linked last and near all others ends up at its place in the order. */
  lemma {:induction false} DescendSorts(mem: Memory, t: Tree, id: Id)
    requires Sorted(mem, InOrder(t)) && Coherent(mem, InOrder(t)) && At(mem, id).key == Wrap(At(mem, id).due)
    requires forall x :: x in InOrder(t) ==>
               Near(At(mem, id).due, At(mem, x).due) && At(mem, x).stamp < At(mem, id).stamp
    ensures Sorted(mem, InOrder(Descend(mem, t, id)))
  {
    match t
    case Leaf =>
    case Node(l, x, r, _) =>
      var a, b := InOrder(l), InOrder(r);
      assert x in InOrder(t);
      assert forall y :: y in a || y in b ==> y in InOrder(t);
      SortedParts(mem, a, x, b);
      ComparesTrueTimes(At(mem, id).due, At(mem, x).due);
      if Less(At(mem, id).key, At(mem, x).key) {
        DescendSorts(mem, l, id);
        DescendMembers(mem, l, id);
        SortedJoin(mem, InOrder(Descend(mem, l, id)), x, b);
      } else {
        DescendSorts(mem, r, id);
        DescendMembers(mem, r, id);
        SortedJoin(mem, a, x, InOrder(Descend(mem, r, id)));
      }
  }

  lemma LinkOrdered(rb: Balancer, q: Queue, id: Id)
    requires Lawful(rb) && Owned(q) && Ordered(q) && id !in q.Order()
    requires At(q.mem, id).key == Wrap(At(q.mem, id).due)
    requires forall x :: x in q.Order() ==> Near(At(q.mem, id).due, At(q.mem, x).due)
    ensures Ordered(Link(rb, q, id))
  {
    var q' := Link(rb, q, id);
    SameOrder(q.mem, q'.mem, q.Order());
    DescendSorts(q'.mem, q.tree, id);
    DescendMembers(q'.mem, q.tree, id);
  }

  /** The order depends only on the due times and stamps of the nodes in it. */
  lemma SameOrder(mem: Memory, mem': Memory, s: seq<Id>)
    requires forall x :: x in s ==> At(mem', x) == At(mem, x)
    ensures Sorted(mem, s) ==> Sorted(mem', s)
    ensures Coherent(mem, s) ==> Coherent(mem', s)
  {
  }

  lemma {:induction false} WithoutSorted(mem: Memory, s: seq<Id>, id: Id)
    requires Sorted(mem, s)
    ensures Sorted(mem, Without(s, id))
  {
    if s != [] {
      var rest := s[1..];
      assert forall i :: 0 <= i < |rest| ==> rest[i] == s[i + 1];
      WithoutSorted(mem, rest, id);
      WithoutKeepsRest(rest, id);
      if s[0] != id {
        forall y | y in Without(rest, id)
          ensures Before(At(mem, s[0]), At(mem, y))
        {
          assert y in rest;
        }
        SortedJoin(mem, [], s[0], Without(rest, id));
        assert [] + [s[0]] + Without(rest, id) == [s[0]] + Without(rest, id);
      }
    }
  }

  /** Unlinking a node, whatever its own key has become, leaves the others in order. */
  lemma UnlinkOrdered(rb: Balancer, q: Queue, mem: Memory, id: Id)
    requires Lawful(rb) && Ordered(q)
    requires forall x :: x != id ==> At(mem, x) == At(q.mem, x)
    ensures Ordered(q.(tree := rb.unlink(q.tree, id), mem := mem))
  {
    WithoutSorted(q.mem, q.Order(), id);
    WithoutKeepsRest(q.Order(), id);
    SameOrder(q.mem, mem, Without(q.Order(), id));
  }

  // ---- Every run ----

  lemma AddOrdered(rb: Balancer, q: Queue, id: Id, now: int, interval: Int32)
    requires Lawful(rb) && Owned(q) && Ordered(q) && Windowed(Add(rb, q, id, now, interval))
    ensures Ordered(Add(rb, q, id, now, interval))
  {
    var node := At(q.mem, id).(interval := interval, key := Wrap(now + Abs(interval)), due := now + Abs(interval));
    var q1 := q.(mem := q.mem[id := node]);
    var q2 := Remove(rb, q1, id);
    RewriteOwned(q, id, node);
    RemoveOwned(rb, q1, id);
    assert q1.Order() == q.Order();
    if At(q.mem, id).active {
      UnlinkOrdered(rb, q, q2.mem, id);
    } else {
      SameOrder(q.mem, q2.mem, q.Order());
    }
    AddedIsNear(rb, q2, id);
    LinkOrdered(rb, q2, id);
  }

  lemma AddedIsNear(rb: Balancer, q: Queue, id: Id)
    requires Lawful(rb) && Owned(q) && id !in q.Order() && Windowed(Link(rb, q, id))
    ensures forall x :: x in q.Order() ==> Near(At(q.mem, id).due, At(q.mem, x).due)
  {
    LinkOwned(rb, q, id);
    var q' := Link(rb, q, id);
    forall x | x in q.Order()
      ensures Near(At(q.mem, id).due, At(q.mem, x).due)
    {
      assert x in q'.Order() && id in q'.Order();
      assert At(q'.mem, x).due == At(q.mem, x).due;
    }
  }

  lemma RearmedIsCoherent(node: Timer, now: int)
    requires node.key == Wrap(node.due)
    ensures Rearmed(node, now).key == Wrap(Rearmed(node, now).due)
  {
    WrapUnique(node.key + node.interval, node.due + node.interval, -(node.due / WORD));
  }

  lemma FireOrdered(rb: Balancer, q: Queue, now: int)
    requires Lawful(rb) && Owned(q) && Ordered(q) && Ready(q, now) && Windowed(Fire(rb, q, now))
    ensures Ordered(Fire(rb, q, now))
  {
    var id := Leftmost(q.tree);
    LeftmostIsFirst(q.tree);
    var node := At(q.mem, id).(active := false);
    var q1 := q.(tree := rb.unlink(q.tree, id), mem := q.mem[id := node]);
    UnlinkOrdered(rb, q, q1.mem, id);
    UnlinkOwned(rb, q, id, node);
    if node.interval > 0 {
      var q2 := q1.(mem := q1.mem[id := Rearmed(node, now)]);
      RewriteOwned(q1, id, Rearmed(node, now));
      SameOrder(q1.mem, q2.mem, q1.Order());
      RearmedIsCoherent(node, now);
      AddedIsNear(rb, q2, id);
      LinkOrdered(rb, q2, id);
    }
  }

  lemma ApplyOrdered(rb: Balancer, q: Queue, op: Op)
    requires Lawful(rb) && Owned(q) && Ordered(q) && Windowed(Apply(rb, q, op))
    ensures Ordered(Apply(rb, q, op))
  {
    match op
    case OpAdd(id, now, interval) => AddOrdered(rb, q, id, now, interval);
    case OpRemove(id) =>
      if At(q.mem, id).active {
        UnlinkOrdered(rb, q, q.mem[id := At(q.mem, id).(active := false)], id);
      }
    case OpFire(now) =>
      if Ready(q, now) {
        FireOrdered(rb, q, now);
      }
  }

  /**
    Over every run of add, re-add, remove and process steps, and so at every callback: as long as the
    linked nodes stay within a window of 2^31 ms, the tree is in the order of the true due times.
   */
  lemma {:induction false} RunOrdered(rb: Balancer, q: Queue, ops: seq<Op>)
    requires Lawful(rb) && Owned(q) && Ordered(q)
    requires forall n :: 0 <= n <= |ops| ==> Windowed(Run(rb, q, ops[..n]))
    ensures Ordered(Run(rb, q, ops))
    decreases |ops|
  {
    if ops != [] {
      var init := ops[..|ops| - 1];
      forall n | 0 <= n <= |init|
        ensures Windowed(Run(rb, q, init[..n]))
      {
        assert init[..n] == ops[..n];
      }
      RunOrdered(rb, q, init);
      RunOwned(rb, q, init);
      assert ops[..|ops|] == ops;
      ApplyOrdered(rb, Run(rb, q, init), ops[|ops| - 1]);
    }
  }
}
