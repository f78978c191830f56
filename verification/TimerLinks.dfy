/** The tree of the timer queue as pointers in its nodes, and the insertion descent over them. */
module TimerLinks {
  import opened TimerQueue

  /** A pointer to a node: `Null` is the tree's sentinel. */
  datatype Pointer = Null | To(id: Id)

  type Pointers = map<Id, Pointer>

  /** The root pointer, and the fields of the nodes: `left`, `right`, `parent`, and the balancing data. */
  datatype Links = Links(root: Pointer, left: Pointers, right: Pointers, parent: Pointers, tag: map<Id, int>)

  /** `p` is the root of a linked tree whose value is `t`, and hangs below `up`. */
  predicate Hangs(n: Links, up: Pointer, p: Pointer, t: Tree)
    decreases t
  {
    match t
    case Leaf => p == Null
    case Node(l, x, r, tag) =>
      && p == To(x) && x in n.left && x in n.right && x in n.parent && n.parent[x] == up
      && x in n.tag && n.tag[x] == tag
      && Hangs(n, p, n.left[x], l) && Hangs(n, p, n.right[x], r)
  }

  /** The whole tree, of which no node is linked twice. */
  ghost predicate Linked(n: Links, t: Tree) {
    Hangs(n, Null, n.root, t) && NoDuplicates(InOrder(t))
  }

  /** Where the descent ends: the node that gets the new child, and on which side. */
  function Place(mem: Memory, t: Tree, id: Id): (Id, bool)
    requires t.Node?
  {
    var goesLeft := Less(At(mem, id).key, At(mem, t.id).key);
    var child := if goesLeft then t.left else t.right;
    if child.Leaf? then (t.id, goesLeft) else Place(mem, child, id)
  }

  /** The node as a new leaf below `parent`. */
  function WithLeaf(n: Links, parent: Id, goesLeft: bool, id: Id): Links {
    var n' := if goesLeft then n.(left := n.left[parent := To(id)]) else n.(right := n.right[parent := To(id)]);
    n'.(left := n'.left[id := Null], right := n'.right[id := Null], parent := n'.parent[id := To(parent)],
        tag := n'.tag[id := 0])
  }

  /** The fields of a node are the same. */
  predicate Same(n: Links, n': Links, x: Id) {
    && x in n.left && x in n'.left && n.left[x] == n'.left[x]
    && x in n.right && x in n'.right && n.right[x] == n'.right[x]
    && x in n.parent && x in n'.parent && n.parent[x] == n'.parent[x]
    && x in n.tag && x in n'.tag && n.tag[x] == n'.tag[x]
  }

  lemma {:induction false} HangsFrame(n: Links, n': Links, up: Pointer, p: Pointer, t: Tree)
    requires Hangs(n, up, p, t) && forall x :: x in InOrder(t) ==> Same(n, n', x)
    ensures Hangs(n', up, p, t)
    decreases t
  {
    match t
    case Leaf =>
    case Node(l, x, r, _) =>
      Members(l, x, r, t);
      assert Same(n, n', x);
      HangsFrame(n, n', p, n.left[x], l);
      HangsFrame(n, n', p, n.right[x], r);
  }

  lemma Members(l: Tree, x: Id, r: Tree, t: Tree)
    requires t.Node? && l == t.left && x == t.id && r == t.right
    ensures forall y :: y in InOrder(t) <==> y in InOrder(l) || y == x || y in InOrder(r)
  {
  }

  lemma {:induction false} PlaceIsInTree(mem: Memory, t: Tree, id: Id)
    requires t.Node?
    ensures Place(mem, t, id).0 in InOrder(t)
  {
    Members(t.left, t.id, t.right, t);
    var child := if Less(At(mem, id).key, At(mem, t.id).key) then t.left else t.right;
    if child.Node? {
      PlaceIsInTree(mem, child, id);
    }
  }

  lemma {:induction false} HangsInMaps(n: Links, up: Pointer, p: Pointer, t: Tree, x: Id)
    requires Hangs(n, up, p, t) && x in InOrder(t)
    ensures x in n.left && x in n.right && x in n.parent && x in n.tag
    decreases t
  {
    Members(t.left, t.id, t.right, t);
    if x in InOrder(t.left) {
      HangsInMaps(n, p, n.left[t.id], t.left, x);
    } else if x in InOrder(t.right) {
      HangsInMaps(n, p, n.right[t.id], t.right, x);
    }
  }

  lemma DistinctParts(l: seq<Id>, x: Id, r: seq<Id>)
    requires NoDuplicates(l + [x] + r)
    ensures NoDuplicates(l) && NoDuplicates(r) && x !in l && x !in r
    ensures forall y :: y in l ==> y !in r
  {
    var s := l + [x] + r;
    assert forall i :: 0 <= i < |l| ==> s[i] == l[i];
    assert s[|l|] == x;
    assert forall i :: 0 <= i < |r| ==> s[|l| + 1 + i] == r[i];
    forall i, j | 0 <= i < j < |r|
      ensures r[i] != r[j]
    {
      assert s[|l| + 1 + i] == r[i] && s[|l| + 1 + j] == r[j];
    }
  }

  /** A part of the tree that neither holds the place nor the new node stays as it is. */
  lemma OtherSideStays(n: Links, up: Pointer, p: Pointer, t: Tree, parent: Id, goesLeft: bool, id: Id)
    requires Hangs(n, up, p, t) && parent !in InOrder(t) && id !in InOrder(t)
    ensures Hangs(WithLeaf(n, parent, goesLeft, id), up, p, t)
  {
    forall x | x in InOrder(t)
      ensures Same(n, WithLeaf(n, parent, goesLeft, id), x)
    {
      HangsInMaps(n, up, p, t, x);
    }
    HangsFrame(n, WithLeaf(n, parent, goesLeft, id), up, p, t);
  }

  /** Storing the pointers at the place of the descent links the tree that `Descend` describes. */
  lemma {:induction false} PlaceLinksDescend(mem: Memory, n: Links, up: Pointer, p: Pointer, t: Tree, id: Id)
    requires t.Node? && Hangs(n, up, p, t) && NoDuplicates(InOrder(t)) && id !in InOrder(t)
    ensures var (parent, goesLeft) := Place(mem, t, id);
            Hangs(WithLeaf(n, parent, goesLeft, id), up, p, Descend(mem, t, id))
    decreases t
  {
    var x, l, r := t.id, t.left, t.right;
    Members(l, x, r, t);
    DistinctParts(InOrder(l), x, InOrder(r));
    if Less(At(mem, id).key, At(mem, x).key) {
      if l.Node? {
        PlaceIsInTree(mem, l, id);
        PlaceLinksDescend(mem, n, p, n.left[x], l, id);
      }
      LinksLeft(mem, n, up, p, t, id);
    } else {
      if r.Node? {
        PlaceIsInTree(mem, r, id);
        PlaceLinksDescend(mem, n, p, n.right[x], r, id);
      }
      LinksRight(mem, n, up, p, t, id);
    }
  }

  lemma LinksLeft(mem: Memory, n: Links, up: Pointer, p: Pointer, t: Tree, id: Id)
    requires t.Node? && Hangs(n, up, p, t) && id !in InOrder(t) && t.id !in InOrder(t.left)
    requires t.id !in InOrder(t.right) && forall y :: y in InOrder(t.left) ==> y !in InOrder(t.right)
    requires Less(At(mem, id).key, At(mem, t.id).key)
    requires t.left.Node? ==>
               var (parent, goesLeft) := Place(mem, t.left, id);
               parent in InOrder(t.left)
               && Hangs(WithLeaf(n, parent, goesLeft, id), p, n.left[t.id], Descend(mem, t.left, id))
    ensures var (parent, goesLeft) := Place(mem, t, id);
            Hangs(WithLeaf(n, parent, goesLeft, id), up, p, Descend(mem, t, id))
  {
    var (parent, goesLeft) := Place(mem, t, id);
    Members(t.left, t.id, t.right, t);
    assert parent == t.id || parent in InOrder(t.left);
    OtherSideStays(n, p, n.right[t.id], t.right, parent, goesLeft, id);
  }

  lemma LinksRight(mem: Memory, n: Links, up: Pointer, p: Pointer, t: Tree, id: Id)
    requires t.Node? && Hangs(n, up, p, t) && id !in InOrder(t) && t.id !in InOrder(t.left)
    requires t.id !in InOrder(t.right) && forall y :: y in InOrder(t.left) ==> y !in InOrder(t.right)
    requires !Less(At(mem, id).key, At(mem, t.id).key)
    requires t.right.Node? ==>
               var (parent, goesLeft) := Place(mem, t.right, id);
               parent in InOrder(t.right)
               && Hangs(WithLeaf(n, parent, goesLeft, id), p, n.right[t.id], Descend(mem, t.right, id))
    ensures var (parent, goesLeft) := Place(mem, t, id);
            Hangs(WithLeaf(n, parent, goesLeft, id), up, p, Descend(mem, t, id))
  {
    var (parent, goesLeft) := Place(mem, t, id);
    Members(t.left, t.id, t.right, t);
    assert parent == t.id || parent in InOrder(t.right);
    OtherSideStays(n, p, n.left[t.id], t.left, parent, goesLeft, id);
  }

  lemma DescendDistinct(mem: Memory, t: Tree, id: Id)
    requires NoDuplicates(InOrder(t)) && id !in InOrder(t)
    ensures NoDuplicates(InOrder(Descend(mem, t, id)))
  {
    var k := DescendInserts(mem, t, id);
    InsertedNoDuplicates(InOrder(t), k, id);
  }

  /** `_fftmrq_node_insert`: the descent loop, for a tree `t` that is known only to the proof. */
  method InsertNode(mem: Memory, n: Links, id: Id, ghost t: Tree) returns (n': Links)
    requires Linked(n, t) && id !in InOrder(t)
    ensures Linked(n', Descend(mem, t, id))
  {
    DescendDistinct(mem, t, id);
    if n.root == Null {
      return Links(To(id), n.left[id := Null], n.right[id := Null], n.parent[id := Null], n.tag[id := 0]);
    }
    var parent := n.root.id;
    ghost var sub, up := t, Null;
    var goesLeft;
    while true
      invariant sub.Node? && Hangs(n, up, To(parent), sub)
      invariant Place(mem, t, id) == Place(mem, sub, id)
      decreases sub
    {
      goesLeft := Less(At(mem, id).key, At(mem, parent).key);
      var child := if goesLeft then n.left[parent] else n.right[parent];
      sub, up := if goesLeft then sub.left else sub.right, To(parent);
      if child == Null {
        break;
      }
      parent := child.id;
    }
    assert Place(mem, t, id) == (parent, goesLeft);
    PlaceLinksDescend(mem, n, Null, n.root, t, id);
    n' := if goesLeft then n.(left := n.left[parent := To(id)]) else n.(right := n.right[parent := To(id)]);
    n' := n'.(parent := n'.parent[id := To(parent)], tag := n'.tag[id := 0]);
    n' := n'.(left := n'.left[id := Null], right := n'.right[id := Null]);
  }

  /** `ffrbt_node_min`: the loop down the left pointers. */
  method FirstNode(n: Links, ghost t: Tree) returns (id: Id)
    requires Linked(n, t) && n.root != Null
    ensures t.Node? && id == Leftmost(t)
  {
    id := n.root.id;
    ghost var sub, up := t, Null;
    while n.left[id] != Null
      invariant sub.Node? && Hangs(n, up, To(id), sub) && Leftmost(sub) == Leftmost(t)
      decreases sub
    {
      sub, up := sub.left, To(id);
      id := n.left[id].id;
    }
  }

  /** Rebalancing and unlinking as they are done on the pointers. */
  datatype Relinker = Relinker(fix: Links -> Links, unlink: (Links, Id) -> Links)

  /** They do to the linked tree what the balancer does to its value. */
  ghost predicate Realizes(ops: Relinker, rb: Balancer) {
    && (forall n, t :: Linked(n, t) ==> Linked(ops.fix(n), rb.fix(t)))
    && (forall n, t, id :: Linked(n, t) ==> Linked(ops.unlink(n, id), rb.unlink(t, id)))
  }

  // ---- No balancer is excluded ----

  /** The pointers of a tree that hangs below `up`. */
  function LinksOf(t: Tree, up: Pointer): Links {
    match t
    case Leaf => Links(Null, map[], map[], map[], map[])
    case Node(l, x, r, tag) =>
      var a, b := LinksOf(l, To(x)), LinksOf(r, To(x));
      Links(To(x), (a.left + b.left)[x := a.root], (a.right + b.right)[x := b.root],
            (a.parent + b.parent)[x := up], (a.tag + b.tag)[x := tag])
  }

  lemma {:induction false} LinksOfKeys(t: Tree, up: Pointer, x: Id)
    ensures var n := LinksOf(t, up);
            if x in InOrder(t) then x in n.left && x in n.right && x in n.parent && x in n.tag
            else x !in n.left && x !in n.right && x !in n.parent && x !in n.tag
  {
    if t.Node? {
      Members(t.left, t.id, t.right, t);
      LinksOfKeys(t.left, To(t.id), x);
      LinksOfKeys(t.right, To(t.id), x);
    }
  }

  /** The nodes of a subtree have the same fields in the whole. */
  lemma SubtreeSame(t: Tree, up: Pointer, sub: Tree, x: Id)
    requires t.Node? && (sub == t.left || sub == t.right) && x in InOrder(sub)
    requires NoDuplicates(InOrder(t))
    ensures Same(LinksOf(sub, To(t.id)), LinksOf(t, up), x)
  {
    DistinctParts(InOrder(t.left), t.id, InOrder(t.right));
    LinksOfKeys(t.left, To(t.id), x);
    LinksOfKeys(t.right, To(t.id), x);
  }

  lemma SubtreeHangs(t: Tree, up: Pointer, sub: Tree)
    requires t.Node? && (sub == t.left || sub == t.right) && NoDuplicates(InOrder(t))
    requires Hangs(LinksOf(sub, To(t.id)), To(t.id), LinksOf(sub, To(t.id)).root, sub)
    ensures Hangs(LinksOf(t, up), To(t.id), LinksOf(sub, To(t.id)).root, sub)
  {
    var n, n' := LinksOf(sub, To(t.id)), LinksOf(t, up);
    forall x | x in InOrder(sub)
      ensures Same(n, n', x)
    {
      SubtreeSame(t, up, sub, x);
    }
    HangsFrame(n, n', To(t.id), n.root, sub);
  }

  lemma {:induction false} LinksOfHangs(t: Tree, up: Pointer)
    requires NoDuplicates(InOrder(t))
    ensures Hangs(LinksOf(t, up), up, LinksOf(t, up).root, t)
  {
    if t.Node? {
      DistinctParts(InOrder(t.left), t.id, InOrder(t.right));
      LinksOfHangs(t.left, To(t.id));
      LinksOfHangs(t.right, To(t.id));
      SubtreeHangs(t, up, t.left);
      SubtreeHangs(t, up, t.right);
    }
  }

  /** The pointers and the balancing data in the nodes determine the tree. */
  lemma {:induction false} HangsUnique(n: Links, up: Pointer, p: Pointer, t: Tree, t': Tree)
    requires Hangs(n, up, p, t) && Hangs(n, up, p, t')
    ensures t == t'
    decreases t
  {
    if t.Node? {
      HangsUnique(n, p, n.left[t.id], t.left, t'.left);
      HangsUnique(n, p, n.right[t.id], t.right, t'.right);
    }
  }

  ghost function TreeOf(n: Links): (t: Tree)
    requires exists t :: Linked(n, t)
    ensures Linked(n, t)
  {
    var t :| Linked(n, t);
    t
  }

  /** Every lawful balancer, however it uses the balancing data, is realized by some change of the pointers. */
  lemma EveryBalancerIsRealized(rb: Balancer) returns (ops: Relinker)
    requires Lawful(rb)
    ensures Realizes(ops, rb)
  {
    var fix: Links -> Links :=
      (n: Links) => if exists t :: Linked(n, t) then LinksOf(rb.fix(TreeOf(n)), Null) else n;
    var unlink: (Links, Id) -> Links :=
      (n: Links, id: Id) => if exists t :: Linked(n, t) then LinksOf(rb.unlink(TreeOf(n), id), Null) else n;
    ops := Relinker(fix, unlink);
    forall n, t | Linked(n, t)
      ensures Linked(ops.fix(n), rb.fix(t))
    {
      HangsUnique(n, Null, n.root, t, TreeOf(n));
      LinksOfHangs(rb.fix(t), Null);
    }
    forall n, t, id | Linked(n, t)
      ensures Linked(ops.unlink(n, id), rb.unlink(t, id))
    {
      HangsUnique(n, Null, n.root, t, TreeOf(n));
      WithoutKeepsRest(InOrder(t), id);
      LinksOfHangs(rb.unlink(t, id), Null);
    }
  }
}
