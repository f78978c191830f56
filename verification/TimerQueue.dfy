/**
  The timer queue: a tree of nodes ordered by 32-bit millisecond keys that wrap around.

  A node's `due` and `stamp` are history: the time the key stands for, before it was cut to
  32 bits, and the number of the insertion that linked the node. The code reads neither.
 */
module TimerQueue {

  const WORD := 0x1_0000_0000
  const HALF := 0x8000_0000

  function Wrap(x: int): (w: int)
    ensures 0 <= w < WORD
  {
    x % WORD
  }

  /** A 32-bit number read as signed. */
  function Signed(x: int): int {
    if x < HALF then x else x - WORD
  }

  /** The comparison of the insertion descent: the wrapped difference is negative as a signed number. */
  predicate Less(a: int, b: int) {
    Signed(Wrap(a - b)) < 0
  }

  /** The test of the process loop: the wrapped difference is not positive as a signed number. */
  predicate Expired(key: int, now: int) {
    !(Signed(Wrap(key - now)) > 0)
  }

  type Id = nat

  type Int32 = x: int | -HALF <= x < HALF

  datatype Timer = Timer(key: int, interval: Int32, active: bool, due: int, stamp: nat)

  const ZEROED := Timer(0, 0, false, 0, 0)

  /** The node objects; one that is absent has never been written since it was zeroed. */
  type Memory = map<Id, Timer>

  function At(mem: Memory, id: Id): Timer {
    if id in mem then mem[id] else ZEROED
  }

  /** `tag` stands for the balancing data of the tree. */
  datatype Tree = Leaf | Node(left: Tree, id: Id, right: Tree, tag: int)

  function InOrder(t: Tree): seq<Id> {
    match t
    case Leaf => []
    case Node(l, id, r, _) => InOrder(l) + [id] + InOrder(r)
  }

  function Leftmost(t: Tree): Id
    requires t.Node?
  {
    if t.left.Leaf? then t.id else Leftmost(t.left)
  }

  /** The insertion descent: left of a node that is later, right of one that is not. */
  function Descend(mem: Memory, t: Tree, id: Id): Tree {
    match t
    case Leaf => Node(Leaf, id, Leaf, 0)
    case Node(l, x, r, tag) =>
      if Less(At(mem, id).key, At(mem, x).key) then Node(Descend(mem, l, id), x, r, tag)
      else Node(l, x, Descend(mem, r, id), tag)
  }

  function Without(s: seq<Id>, id: Id): seq<Id> {
    if s == [] then [] else if s[0] == id then Without(s[1..], id) else [s[0]] + Without(s[1..], id)
  }

  /** Red-black balancing, of which only the effect on the order of the nodes is known. */
  datatype Balancer = Balancer(fix: Tree -> Tree, unlink: (Tree, Id) -> Tree)

  ghost predicate Lawful(rb: Balancer) {
    && (forall t :: InOrder(rb.fix(t)) == InOrder(t))
    && (forall t, id :: InOrder(rb.unlink(t, id)) == Without(InOrder(t), id))
  }

  datatype Queue = Queue(mem: Memory, tree: Tree, stamps: nat) {
    function Order(): seq<Id> {
      InOrder(tree)
    }
  }

  // ---- The operations ----

  function Remove(rb: Balancer, q: Queue, id: Id): Queue {
    if At(q.mem, id).active then
      q.(tree := rb.unlink(q.tree, id), mem := q.mem[id := At(q.mem, id).(active := false)])
    else q
  }

  function Link(rb: Balancer, q: Queue, id: Id): Queue {
    var mem := q.mem[id := At(q.mem, id).(active := true, stamp := q.stamps)];
    Queue(mem, rb.fix(Descend(mem, q.tree, id)), q.stamps + 1)
  }

  function AddNode(rb: Balancer, q: Queue, id: Id): Queue {
    Link(rb, Remove(rb, q, id), id)
  }

  function Abs(x: int): (r: int)
    ensures r >= 0 && (r == x || r + x == 0)
  {
    if x < 0 then -x else x
  }

  /** The key is overwritten first, while the node may still be linked under its old key. */
  function Add(rb: Balancer, q: Queue, id: Id, now: int, interval: Int32): Queue {
    var node := At(q.mem, id).(interval := interval, key := Wrap(now + Abs(interval)), due := now + Abs(interval));
    AddNode(rb, q.(mem := q.mem[id := node]), id)
  }

  /** The re-armed node: the larger of the two candidates as unsigned 32-bit numbers. */
  function Rearmed(node: Timer, now: int): Timer {
    var next, soon := node.due + node.interval, now + 1;
    if Wrap(node.key + node.interval) >= Wrap(soon)
    then node.(key := Wrap(node.key + node.interval), due := next)
    else node.(key := Wrap(soon), due := soon)
  }

  predicate Ready(q: Queue, now: int) {
    q.tree.Node? && Expired(At(q.mem, Leftmost(q.tree)).key, now)
  }

  /** The first node is unlinked. */
  function TakeFirst(rb: Balancer, q: Queue): Queue
    requires q.tree.Node?
  {
    var id := Leftmost(q.tree);
    q.(tree := rb.unlink(q.tree, id), mem := q.mem[id := At(q.mem, id).(active := false)])
  }

  /** One iteration of the process loop, up to the call of the node's function. */
  function Fire(rb: Balancer, q: Queue, now: int): Queue
    requires Ready(q, now)
  {
    var id := Leftmost(q.tree);
    var q1 := TakeFirst(rb, q);
    if At(q.mem, id).interval > 0 then
      Link(rb, q1.(mem := q1.mem[id := Rearmed(At(q1.mem, id), now)]), id)
    else q1
  }

  // ---- Ownership: a node is active exactly when it is linked, and it is linked once ----

  ghost predicate NoDuplicates(s: seq<Id>) {
    forall i, j :: 0 <= i < j < |s| ==> s[i] != s[j]
  }

  ghost predicate Owned(q: Queue) {
    && NoDuplicates(q.Order())
    && (forall id :: At(q.mem, id).active <==> id in q.Order())
    && (forall id :: id in q.Order() ==> At(q.mem, id).stamp < q.stamps)
  }

  lemma {:induction false} WithoutKeepsRest(s: seq<Id>, id: Id)
    ensures id !in Without(s, id)
    ensures forall x :: x in Without(s, id) <==> x in s && x != id
    ensures NoDuplicates(s) ==> NoDuplicates(Without(s, id))
  {
    if s != [] {
      WithoutKeepsRest(s[1..], id);
      assert forall x :: x in s <==> x == s[0] || x in s[1..];
      if NoDuplicates(s) {
        assert s[0] !in s[1..] && NoDuplicates(s[1..]);
      }
    }
  }

  lemma InsertLeft(a: seq<Id>, p: nat, id: Id, b: seq<Id>)
    requires p <= |a|
    ensures (a[..p] + [id] + a[p..]) + b == (a + b)[..p] + [id] + (a + b)[p..]
  {
  }

  lemma InsertRight(a: seq<Id>, b: seq<Id>, p: nat, id: Id)
    requires p <= |b|
    ensures a + (b[..p] + [id] + b[p..]) == (a + b)[..|a| + p] + [id] + (a + b)[|a| + p..]
  {
  }

  lemma InOrderAssoc(t: Tree)
    requires t.Node?
    ensures InOrder(t) == InOrder(t.left) + ([t.id] + InOrder(t.right))
  {
  }

  /** The descent inserts at some position and moves nothing else. */
  lemma {:induction false} DescendInserts(mem: Memory, t: Tree, id: Id) returns (p: nat)
    ensures p <= |InOrder(t)|
    ensures InOrder(Descend(mem, t, id)) == InOrder(t)[..p] + [id] + InOrder(t)[p..]
  {
    match t
    case Leaf => p := 0;
    case Node(l, x, r, _) =>
      var a, b := InOrder(l), InOrder(r);
      if Less(At(mem, id).key, At(mem, x).key) {
        p := DescendInserts(mem, l, id);
        InOrderAssoc(t);
        InOrderAssoc(Descend(mem, t, id));
        InsertLeft(a, p, id, [x] + b);
      } else {
        var i := DescendInserts(mem, r, id);
        p := |a| + 1 + i;
        InsertRight(a + [x], b, i, id);
      }
  }

  lemma InsertedNoDuplicates(s: seq<Id>, p: nat, id: Id)
    requires p <= |s| && NoDuplicates(s) && id !in s
    ensures var r := s[..p] + [id] + s[p..]; NoDuplicates(r) && forall x :: x in r <==> x == id || x in s
  {
  }

  lemma LinkOwned(rb: Balancer, q: Queue, id: Id)
    requires Lawful(rb) && Owned(q) && id !in q.Order()
    ensures Owned(Link(rb, q, id))
    ensures forall x :: x in Link(rb, q, id).Order() <==> x == id || x in q.Order()
  {
    var q' := Link(rb, q, id);
    var p := DescendInserts(q'.mem, q.tree, id);
    InsertedNoDuplicates(q.Order(), p, id);
  }

  lemma UnlinkOwned(rb: Balancer, q: Queue, id: Id, node: Timer)
    requires Lawful(rb) && Owned(q) && !node.active
    ensures Owned(q.(tree := rb.unlink(q.tree, id), mem := q.mem[id := node]))
    ensures forall x :: x in InOrder(rb.unlink(q.tree, id)) <==> x in q.Order() && x != id
  {
    var q' := q.(tree := rb.unlink(q.tree, id), mem := q.mem[id := node]);
    var order' := Without(q.Order(), id);
    assert q'.Order() == order';
    WithoutKeepsRest(q.Order(), id);
    assert forall x :: x != id ==> At(q'.mem, x) == At(q.mem, x);
    assert !At(q'.mem, id).active;
  }

  lemma LeftmostIsFirst(t: Tree)
    requires t.Node?
    ensures InOrder(t) != [] && Leftmost(t) == InOrder(t)[0]
  {
  }

  datatype Op = OpAdd(id: Id, now: int, interval: Int32) | OpRemove(id: Id) | OpFire(now: int)

  /**
    The atomic steps of any program that uses the queue. A callback runs between two steps, so
    that the steps of re-entrant calls, nested process loops included, follow each other in one run.
   */
  function Apply(rb: Balancer, q: Queue, op: Op): Queue {
    match op
    case OpAdd(id, now, interval) => Add(rb, q, id, now, interval)
    case OpRemove(id) => Remove(rb, q, id)
    case OpFire(now) => if Ready(q, now) then Fire(rb, q, now) else q
  }

  function Run(rb: Balancer, q: Queue, ops: seq<Op>): Queue
    decreases |ops|
  {
    if ops == [] then q else Apply(rb, Run(rb, q, ops[..|ops| - 1]), ops[|ops| - 1])
  }

  lemma RewriteOwned(q: Queue, id: Id, node: Timer)
    requires Owned(q) && node.active == At(q.mem, id).active && node.stamp == At(q.mem, id).stamp
    ensures Owned(q.(mem := q.mem[id := node]))
  {
  }

  lemma RemoveOwned(rb: Balancer, q: Queue, id: Id)
    requires Lawful(rb) && Owned(q)
    ensures Owned(Remove(rb, q, id))
    ensures forall x :: x in Remove(rb, q, id).Order() <==> x in q.Order() && x != id
  {
    if At(q.mem, id).active {
      UnlinkOwned(rb, q, id, At(q.mem, id).(active := false));
    }
  }

  lemma ApplyOwned(rb: Balancer, q: Queue, op: Op)
    requires Lawful(rb) && Owned(q)
    ensures Owned(Apply(rb, q, op))
  {
    match op
    case OpAdd(id, now, interval) =>
      var node := At(q.mem, id).(interval := interval, key := Wrap(now + Abs(interval)), due := now + Abs(interval));
      var q' := q.(mem := q.mem[id := node]);
      RewriteOwned(q, id, node);
      RemoveOwned(rb, q', id);
      LinkOwned(rb, Remove(rb, q', id), id);
    case OpRemove(id) => RemoveOwned(rb, q, id);
    case OpFire(now) =>
      if Ready(q, now) {
        FireOwned(rb, q, now);
      }
  }

  lemma FireOwned(rb: Balancer, q: Queue, now: int)
    requires Lawful(rb) && Owned(q) && Ready(q, now)
    ensures Owned(Fire(rb, q, now))
    ensures var id, q' := Leftmost(q.tree), Fire(rb, q, now);
            forall x :: x in q'.Order() <==> x in q.Order() && (x == id ==> At(q.mem, id).interval > 0)
  {
    var id := Leftmost(q.tree);
    LeftmostIsFirst(q.tree);
    var node := At(q.mem, id).(active := false);
    UnlinkOwned(rb, q, id, node);
    if node.interval > 0 {
      var unlinked := q.(tree := rb.unlink(q.tree, id), mem := q.mem[id := node]);
      RewriteOwned(unlinked, id, Rearmed(node, now));
      LinkOwned(rb, unlinked.(mem := unlinked.mem[id := Rearmed(node, now)]), id);
    }
  }

  /** Over every run, callbacks included: active exactly when linked, and linked once. */
  lemma {:induction false} RunOwned(rb: Balancer, q: Queue, ops: seq<Op>)
    requires Lawful(rb) && Owned(q)
    ensures Owned(Run(rb, q, ops))
    decreases |ops|
  {
    if ops != [] {
      RunOwned(rb, q, ops[..|ops| - 1]);
      ApplyOwned(rb, Run(rb, q, ops[..|ops| - 1]), ops[|ops| - 1]);
    }
  }
}
