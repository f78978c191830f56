/**
  The timer queue as it is programmed: an object whose operations update the nodes and the pointers
  between them in place. Each method is tied to the function that the theorems are about.
 */
module TimerQueueObject {
  import opened TimerQueue
  import opened TimerLinks
  import opened TimerProcess
  import opened TimerCallbacks

  class Timers {
    const ops: Relinker
    ghost const rb: Balancer
    var mem: Memory
    var links: Links
    ghost var tree: Tree
    var stamps: nat

    ghost function Value(): Queue
      reads this
    {
      Queue(mem, tree, stamps)
    }

    ghost predicate Valid()
      reads this
    {
      Lawful(rb) && Realizes(ops, rb) && Owned(Value()) && Linked(links, tree)
    }

    constructor (ops: Relinker, ghost rb: Balancer)
      requires Lawful(rb) && Realizes(ops, rb)
      ensures this.ops == ops && this.rb == rb && Valid() && Value() == Queue(map[], Leaf, 0)
    {
      this.ops, this.rb := ops, rb;
      mem, links, tree, stamps := map[], Links(Null, map[], map[], map[], map[]), Leaf, 0;
    }

    /** Returns whether the node was linked. */
    method Remove(id: Id) returns (removed: bool)
      requires Valid()
      modifies this
      ensures Valid() && Value() == TimerQueue.Remove(rb, old(Value()), id)
      ensures removed == (id in old(Value()).Order()) && id !in Value().Order()
    {
      RemoveOwned(rb, Value(), id);
      if At(mem, id).active {
        Unlink(id);
        return true;
      }
      return false;
    }

    /** `ffrbt_rm`, and the node is no longer active. */
    method Unlink(id: Id)
      requires Valid()
      modifies this
      ensures Valid() && links == ops.unlink(old(links), id)
      ensures mem == old(mem)[id := At(old(mem), id).(active := false)]
      ensures tree == rb.unlink(old(tree), id) && stamps == old(stamps)
    {
      UnlinkOwned(rb, Value(), id, At(mem, id).(active := false));
      links, tree := ops.unlink(links, id), rb.unlink(tree, id);
      mem := mem[id := At(mem, id).(active := false)];
    }

    /** `ffrbt_insert` of a node that is not linked, which makes it active. */
    method Insert(id: Id)
      requires Valid() && id !in Value().Order()
      modifies this
      ensures Valid() && Value() == Link(rb, old(Value()), id)
    {
      LinkOwned(rb, Value(), id);
      mem := mem[id := At(mem, id).(active := true, stamp := stamps)];
      links := InsertNode(mem, links, id, tree);
      links, tree := ops.fix(links), rb.fix(Descend(mem, tree, id));
      stamps := stamps + 1;
    }

    method AddNode(id: Id)
      requires Valid()
      modifies this
      ensures Valid() && Value() == TimerQueue.AddNode(rb, old(Value()), id)
      ensures forall x :: x in Value().Order() <==> x == id || x in old(Value()).Order()
    {
      RemoveOwned(rb, Value(), id);
      var _ := Remove(id);
      LinkOwned(rb, Value(), id);
      Insert(id);
    }

    method Add(id: Id, now: int, interval: Int32)
      requires Valid()
      modifies this
      ensures Valid() && Value() == TimerQueue.Add(rb, old(Value()), id, now, interval)
      ensures forall x :: x in Value().Order() <==> x == id || x in old(Value()).Order()
    {
      ghost var due := now + Abs(interval);
      ghost var node := At(mem, id).(interval := interval, key := Wrap(due), due := due);
      RewriteOwned(Value(), id, node);
      mem := mem[id := At(mem, id).(interval := interval)];
      mem := mem[id := At(mem, id).(key := Wrap(now + Abs(interval)), due := now + Abs(interval))];
      assert mem == old(mem)[id := node];
      AddNode(id);
    }

    /** The test of the process loop: the first node, if there is one and it is expired. */
    method First(now: int) returns (ready: bool, id: Id)
      requires Valid()
      ensures ready == Ready(Value(), now) && (ready ==> id == Leftmost(tree))
    {
      if links.root == Null {
        return false, 0;
      }
      id := FirstNode(links, tree);
      return Expired(At(mem, id).key, now), id;
    }

    /** One iteration of the process loop, up to the call of the node's function. */
    method FireFirst(now: int, id: Id)
      requires Valid() && Ready(Value(), now) && id == Leftmost(tree)
      modifies this
      ensures Valid() && Value() == Fire(rb, old(Value()), now)
    {
      LeftmostIsFirst(tree);
      UnlinkOwned(rb, Value(), id, At(mem, id).(active := false));
      Unlink(id);
      if At(mem, id).interval > 0 {
        RewriteOwned(Value(), id, Rearmed(At(mem, id), now));
        mem := mem[id := Rearmed(At(mem, id), now)];
        Insert(id);
      }
    }

    /** One step of a callback. */
    method Do(op: Op)
      requires Valid()
      modifies this
      ensures Valid() && Value() == Apply(rb, old(Value()), op)
    {
      match op
      case OpAdd(id, now, interval) => Add(id, now, interval);
      case OpRemove(id) => var _ := Remove(id);
      case OpFire(now) =>
        var ready, id := First(now);
        if ready {
          FireFirst(now, id);
        }
    }

    /** The steps of a callback. */
    method Callback(steps: seq<Op>)
      requires Valid()
      modifies this
      ensures Valid() && Value() == Run(rb, old(Value()), steps)
    {
      for i := 0 to |steps|
        invariant Valid() && Value() == Run(rb, old(Value()), steps[..i])
      {
        assert steps[..i + 1][..i] == steps[..i];
        Do(steps[i]);
      }
      assert steps[..|steps|] == steps;
    }

    /** One turn of the loop, callback included. */
    method Turn(now: int, id: Id, calls: seq<seq<Op>>) returns (rest: seq<seq<Op>>, ghost turn: seq<Op>)
      requires Valid() && Ready(Value(), now) && id == Leftmost(tree)
      modifies this
      ensures Valid() && Value() == Run(rb, old(Value()), turn)
      ensures old(Trace(rb, Value(), now, calls)) == turn + Trace(rb, Value(), now, rest)
      ensures calls == [] ==> |turn| == 1
      ensures if calls == [] then rest == [] && Total(mem, InOrder(tree), now) < old(Total(mem, InOrder(tree), now))
              else |rest| < |calls|
    {
      TraceTurn(rb, Value(), now, calls);
      turn := [OpFire(now)] + if calls == [] then [] else calls[0];
      FireFirst(now, id);
      if calls != [] {
        Callback(calls[0]);
        return calls[1..], turn;
      }
      return [], turn;
    }

    /**
      `fftimerqueue_process`, whatever the callbacks do with the queue: the steps taken are those of
      `Trace`, and no expired node is left in front.
     */
    method Process(now: int, calls: seq<seq<Op>>) returns (n: nat)
      requires Valid()
      modifies this
      ensures Valid() && Value() == Run(rb, old(Value()), old(Trace(rb, Value(), now, calls)))
      ensures !Ready(Value(), now)
      ensures calls == [] ==>
                var all := TimerProcess.Process(rb, old(Value()), now); Value() == all.q && n == |all.log|
    {
      ghost var q := Value();
      ghost var trace, done := Trace(rb, q, now, calls), [];
      var rest := calls;
      n := 0;
      var ready, id := First(now);
      while ready
        invariant Valid() && ready == Ready(Value(), now) && (ready ==> id == Leftmost(tree))
        invariant Value() == Run(rb, q, done) && trace == done + Trace(rb, Value(), now, rest)
        invariant calls == [] ==> rest == [] && n == |done|
        decreases |rest|, Total(mem, InOrder(tree), now)
      {
        ghost var turn;
        rest, turn := Turn(now, id, rest);
        RunConcat(rb, q, done, turn);
        Assoc(done, turn, Trace(rb, Value(), now, rest));
        done := done + turn;
        n := n + 1;
        ready, id := First(now);
      }
      assert trace == done;
      if calls == [] {
        QuietTrace(rb, q, now);
      }
    }
  }
}
