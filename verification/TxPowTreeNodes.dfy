/** The nodes of TxPowTree as the program keeps them: objects with a parent, a list of
    children and a total weight. Each node also carries the tree value it stands for, which
    ties the objects to TxPowTreeModel. */
module TxPowTreeNodes {
  import opened Common
  import opened TxPowTreeModel
  import opened TxPowTreeStream
  import opened TxPowTreeInsert

  class TreeNode {
    const block: Block
    var parent: TreeNode?
    var kids: seq<TreeNode>
    var totalWeight: real
    ghost var shape: Tree  // the node and everything below it

    constructor (block: Block)
      ensures this.block == block && parent == null && kids == [] && totalWeight == 0.0
      ensures shape == Node(block, [])
    {
      this.block := block;
      parent, kids, totalWeight, shape := null, [], 0.0, Node(block, []);
    }

    /** addChildNode. The tree grows at every node above. */
    method AddChildNode(node: TreeNode, ghost root: TreeNode, ghost pool: set<TreeNode>)
      requires Hangs(root, pool) && this in pool && root.parent == null
      requires node !in pool && node.kids == [] && node.shape == Node(node.block, [])
      requires forall n :: n in pool ==> n.block.id != node.block.id
      requires node.block.parentId == block.id && node.block.number > block.number
      modifies this`kids, node`parent, pool`shape
      ensures node.parent == this && Hangs(root, pool + {node}) && root.parent == null
      ensures root.shape == Insert(old(root.shape), block.id, node.block)
    {
      AddedNode(root, pool, this, node.block);
      ghost var was := Snapshot(pool);
      SnapshotIs(root, pool);
      node.parent := this;
      kids := kids + [node];
      GrowShapes(node.block, pool);
      assert Joined(pool, this, node, was);
      AllGrown(root, pool, this, node, was);
      Regrown(root, pool, node);
    }

    /** clearParent, on the root of a tree. */
    method ClearParent(ghost pool: set<TreeNode>)
      requires Hangs(this, pool)
      modifies this`parent
      ensures Hangs(this, pool) && parent == null
    {
      forall n, j | n in pool && 0 <= j < |n.kids| ensures n.kids[j] != this {
        assert Local(n, pool);
        RootHasNoParent(shape, n.shape);
      }
      assert forall n :: n in pool ==> Local(n, pool);
      parent := null;
      assert forall n :: n in pool ==> Local(n, pool);
    }

    ghost method GrowShapes(b: Block, pool: set<TreeNode>)
      modifies pool`shape
      ensures forall n :: n in pool ==> n.shape == Insert(old(n.shape), b.parentId, b)
    {
      forall n | n in pool {
        n.shape := Insert(n.shape, b.parentId, b);
      }
    }
  }

  /** The links and shapes of some nodes at one moment. */
  datatype Links = Links(shape: Tree, kids: seq<TreeNode>, parent: TreeNode?)

  ghost function Snapshot(pool: set<TreeNode>): map<TreeNode, Links>
    reads pool`shape, pool`kids, pool`parent
  {
    map n | n in pool :: Links(n.shape, n.kids, n.parent)
  }

  /** Local, told of a snapshot. */
  ghost predicate WasLocal(n: TreeNode, was: map<TreeNode, Links>)
    requires n in was
  {
    && was[n].shape.block == n.block
    && |was[n].kids| == |was[n].shape.kids|
    && forall j {:trigger was[n].kids[j]} :: 0 <= j < |was[n].kids| ==>
         var k := was[n].kids[j];
         k in was && was[k].shape == was[n].shape.kids[j] && was[k].parent == n
  }

  // ---------------------------------------------------------------- objects and shapes

  /** The node's fields agree with its shape, and its children hang from it. */
  ghost predicate Local(n: TreeNode, pool: set<TreeNode>)
    reads n`shape, n`kids, pool`shape, pool`parent
  {
    && n.shape.block == n.block
    && |n.kids| == |n.shape.kids|
    && forall j {:trigger n.kids[j]} :: 0 <= j < |n.kids| ==>
         n.kids[j] in pool && n.kids[j].shape == n.shape.kids[j] && n.kids[j].parent == n
  }

  /** The pool is exactly what hangs from the root, and the tree is well made. */
  ghost predicate Hangs(root: TreeNode, pool: set<TreeNode>)
    reads pool`shape, pool`kids, pool`parent
  {
    && root in pool
    && WellMade(root.shape)
    && (forall n {:trigger Local(n, pool)} :: n in pool ==> Local(n, pool) && n.shape in Visit(root.shape))
    && IdsDiffer(pool)
  }

  predicate SameId(m: TreeNode, n: TreeNode) {
    m.block.id == n.block.id
  }

  ghost predicate IdsDiffer(pool: set<TreeNode>) {
    forall m, n {:trigger SameId(m, n)} :: m in pool && n in pool && SameId(m, n) ==> m == n
  }

  ghost predicate Shaped(nodes: seq<TreeNode>, ts: seq<Tree>)
    reads nodes`shape
  {
    |nodes| == |ts| && forall i :: 0 <= i < |nodes| ==> nodes[i].shape == ts[i]
  }

  lemma {:induction false} ShapesOf(nodes: seq<TreeNode>) returns (ts: seq<Tree>)
    ensures Shaped(nodes, ts)
  {
    if nodes == [] {
      ts := [];
    } else {
      var rest := ShapesOf(nodes[1..]);
      ts := [nodes[0].shape] + rest;
    }
  }

  /** Every part of the tree below a node is the shape of some object. */
  lemma {:induction false} ObjectOf(root: TreeNode, pool: set<TreeNode>, start: TreeNode, t: Tree) returns (n: TreeNode)
    requires Hangs(root, pool) && start in pool && t in Visit(start.shape)
    ensures n in pool && n.shape == t
    decreases start.shape
  {
    if t == start.shape {
      n := start;
    } else {
      var k := VisitAllOrigin(start.shape.kids, t);
      var j :| 0 <= j < |start.shape.kids| && start.shape.kids[j] == k;
      assert Local(start, pool);
      n := ObjectOf(root, pool, start.kids[j], t);
    }
  }

  lemma SameShape(root: TreeNode, pool: set<TreeNode>, m: TreeNode, n: TreeNode)
    requires Hangs(root, pool) && m in pool && n in pool && m.shape.block.id == n.shape.block.id
    ensures m == n
  {
    assert Local(m, pool) && Local(n, pool) && SameId(m, n);
  }

  /** The parent pointer leads to the object of the one node that has this one as a child. */
  lemma ParentObject(root: TreeNode, pool: set<TreeNode>, n: TreeNode, p: Tree)
    requires Hangs(root, pool) && n in pool && p in Visit(root.shape) && n.shape in p.kids
    ensures n.parent != null && n.parent in pool && n.parent.shape == p
  {
    var q := ObjectOf(root, pool, root, p);
    var j :| 0 <= j < |p.kids| && p.kids[j] == n.shape;
    assert Local(q, pool);
    SameShape(root, pool, q.kids[j], n);
  }

  /** Walking back along the heaviest branch. */
  lemma BranchParent(root: TreeNode, pool: set<TreeNode>, n: TreeNode, i: nat)
    requires Hangs(root, pool) && root.parent == null && n in pool
    requires i < |Branch(root.shape, Shallow)| && n.shape == Branch(root.shape, Shallow)[i]
    ensures i == 0 ==> n.parent == null
    ensures i > 0 ==> n.parent != null && n.parent in pool && n.parent.shape == Branch(root.shape, Shallow)[i - 1]
  {
    var b := Branch(root.shape, Shallow);
    if i == 0 {
      SameShape(root, pool, n, root);
    } else {
      BranchVisited(root.shape, Shallow);
      BranchStep(root.shape, Shallow, i - 1);
      assert b[i - 1] in b;
      ParentObject(root, pool, n, b[i - 1]);
    }
  }

  /** What hangs from a node of the tree. */
  ghost function Below(pool: set<TreeNode>, n: TreeNode): set<TreeNode>
    reads pool`shape, n`shape
  {
    set m | m in pool && m.shape in Visit(n.shape)
  }

  lemma BelowHangs(root: TreeNode, pool: set<TreeNode>, n: TreeNode)
    requires Hangs(root, pool) && n in pool
    ensures Hangs(n, Below(pool, n))
  {
    assert Local(n, pool) && n.shape in Visit(n.shape);
    SubtreeWellMade(root.shape, n.shape);
    forall m | m in Below(pool, n) ensures Local(m, Below(pool, n)) {
      assert Local(m, pool);
      forall j | 0 <= j < |m.kids| ensures m.kids[j] in Below(pool, n) {
        KidVisited(n.shape, m.shape, m.shape.kids[j]);
      }
    }
  }

  /** What AddChildNode needs to know of the tree before. */
  lemma AddedNode(root: TreeNode, pool: set<TreeNode>, parent: TreeNode, b: Block)
    requires Hangs(root, pool) && parent in pool
    requires b.parentId == parent.block.id && b.number > parent.block.number
    requires forall n :: n in pool ==> n.block.id != b.id
    ensures WellMade(Insert(root.shape, b.parentId, b))
    ensures Node(b, []) in Visit(Insert(root.shape, b.parentId, b))
  {
    var t := root.shape;
    assert Local(parent, pool);
    IdsVisited(t);
    forall m | m in Visit(t) ensures m.block.id != b.id {
      var n := ObjectOf(root, pool, root, m);
      assert Local(n, pool);
    }
    forall m | m in Visit(t) && m.block.id == b.parentId ensures b.number > m.block.number {
      SeparateUnique(t);
      IdsTellNodes(Visit(t), m, parent.shape);
    }
    InsertWellMade(t, b);
    InsertAdds(t, b.parentId, b, parent.shape);
  }

  /** What Hangs says, told of a snapshot. */
  ghost predicate WasHanging(root: TreeNode, pool: set<TreeNode>, was: map<TreeNode, Links>) {
    && pool == was.Keys && root in pool
    && (forall n {:trigger WasLocal(n, was)} :: n in pool ==> WasLocal(n, was))
    && (forall n :: n in pool ==> was[n].shape in Visit(was[root].shape))
    && IdsDiffer(pool)
  }

  lemma SnapshotIs(root: TreeNode, pool: set<TreeNode>)
    requires Hangs(root, pool)
    ensures WasHanging(root, pool, Snapshot(pool))
  {
    var was := Snapshot(pool);
    forall n | n in pool ensures WasLocal(n, was) && was[n].shape in Visit(was[root].shape) {
      assert Local(n, pool);
    }
  }

  /** Since the snapshot the node was hung below the parent, and nothing else was done. */
  ghost predicate Joined(pool: set<TreeNode>, parent: TreeNode, node: TreeNode, was: map<TreeNode, Links>)
    requires pool == was.Keys
    reads pool, node
  {
    && node.parent == parent && node.kids == [] && node.shape == Node(node.block, [])
    && (forall n {:trigger n.kids} :: n in pool ==> n.kids == if n == parent then was[n].kids + [node] else was[n].kids)
    && (forall n {:trigger n.shape} :: n in pool ==> n.shape == Insert(was[n].shape, node.block.parentId, node.block))
    && (forall n {:trigger n.parent} :: n in pool ==> n.parent == was[n].parent)
  }

  /** One node after a child was added to it or anywhere else. */
  lemma GrownLocal(root: TreeNode, pool: set<TreeNode>, parent: TreeNode, node: TreeNode, n: TreeNode, was: map<TreeNode, Links>)
    requires WasHanging(root, pool, was) && Joined(pool, parent, node, was)
    requires n in pool && parent in pool && node !in pool && node.block.parentId == parent.block.id
    ensures Local(n, pool + {node})
  {
    assert WasLocal(n, was);
    assert SameId(n, parent) ==> n == parent;
    InsertAllEach(was[n].shape.kids, parent.block.id, node.block);
  }

  lemma GrownUnder(root: TreeNode, pool: set<TreeNode>, parent: TreeNode, node: TreeNode, n: TreeNode, was: map<TreeNode, Links>)
    requires WasHanging(root, pool, was) && Joined(pool, parent, node, was) && n in pool
    ensures n.shape in Visit(root.shape)
  {
    InsertKeepsNodes(was[root].shape, node.block.parentId, node.block, was[n].shape);
  }

  lemma AllGrown(root: TreeNode, pool: set<TreeNode>, parent: TreeNode, node: TreeNode, was: map<TreeNode, Links>)
    requires WasHanging(root, pool, was) && Joined(pool, parent, node, was)
    requires parent in pool && node !in pool && node.block.parentId == parent.block.id
    ensures forall n :: n in pool ==> Local(n, pool + {node})
    ensures forall n :: n in pool ==> n.shape in Visit(root.shape)
  {
    forall n | n in pool ensures Local(n, pool + {node}) {
      GrownLocal(root, pool, parent, node, n, was);
    }
    forall n | n in pool ensures n.shape in Visit(root.shape) {
      GrownUnder(root, pool, parent, node, n, was);
    }
  }

  lemma Regrown(root: TreeNode, pool: set<TreeNode>, node: TreeNode)
    requires forall n :: n in pool ==> Local(n, pool + {node})
    requires forall n :: n in pool ==> n.shape in Visit(root.shape)
    requires IdsDiffer(pool)
    requires forall n :: n in pool ==> n.block.id != node.block.id
    requires root in pool && node.shape == Node(node.block, []) && node.kids == []
    requires WellMade(root.shape) && node.shape in Visit(root.shape)
    ensures Hangs(root, pool + {node})
  {
    assert Local(node, pool + {node});
  }

  // ---------------------------------------------------------------- traverseTree

  /** Objects of the pool with these shapes. */
  ghost predicate Listed(pool: set<TreeNode>, nodes: seq<TreeNode>, ts: seq<Tree>)
    reads nodes`shape
  {
    Shaped(nodes, ts) && forall i :: 0 <= i < |nodes| ==> nodes[i] in pool
  }

  lemma ListedAppend(pool: set<TreeNode>, a: seq<TreeNode>, ta: seq<Tree>, b: seq<TreeNode>, tb: seq<Tree>)
    requires Listed(pool, a, ta) && Listed(pool, b, tb)
    ensures Listed(pool, a + b, ta + tb)
  {
  }

  lemma KidsListed(root: TreeNode, pool: set<TreeNode>, n: TreeNode)
    requires Hangs(root, pool) && n in pool
    ensures Listed(pool, n.kids, n.shape.kids)
  {
    assert Local(n, pool);
  }

  /** A list of the objects with the shapes of a visit has each object once. */
  lemma VisitOfObjects(root: TreeNode, pool: set<TreeNode>, order: seq<TreeNode>)
    requires Hangs(root, pool) && Listed(pool, order, Visit(root.shape))
    ensures Distinct(order) && forall n :: n in order <==> n in pool
  {
    var v := Visit(root.shape);
    SeparateUnique(root.shape);
    forall n | n in pool ensures n in order {
      assert Local(n, pool);
      var i :| 0 <= i < |v| && v[i] == n.shape;
      SameShape(root, pool, order[i], n);
    }
    forall i, j | 0 <= i < j < |order| ensures order[i] != order[j] {
      assert v[i].block.id != v[j].block.id;
    }
  }

  lemma VisitStep(st: seq<Tree>)
    requires st != []
    ensures VisitAll(st) == [st[|st| - 1]] + VisitAll(st[..|st| - 1] + st[|st| - 1].kids)
  {
    VisitAllConcat(st[..|st| - 1], st[|st| - 1].kids);
  }

  lemma StackStep(root: TreeNode, pool: set<TreeNode>, rest: seq<TreeNode>, node: TreeNode, st: seq<Tree>)
    requires Hangs(root, pool) && Listed(pool, rest + [node], st)
    ensures node in pool && st != [] && node.shape == st[|st| - 1]
    ensures Listed(pool, rest + node.kids, st[..|st| - 1] + node.shape.kids)
  {
    assert (rest + [node])[|rest|] == node;
    assert Listed(pool, rest, st[..|st| - 1]) by {
      assert forall i :: 0 <= i < |rest| ==> rest[i] == (rest + [node])[i];
    }
    KidsListed(root, pool, node);
    ListedAppend(pool, rest, st[..|st| - 1], node.kids, node.shape.kids);
  }

  /** The nodes on the stack and what is still to be visited from them. */
  ghost predicate Stacked(pool: set<TreeNode>, stack: seq<TreeNode>, left: seq<Tree>)
    reads stack`shape
  {
    exists st :: Listed(pool, stack, st) && VisitAll(st) == left
  }

  lemma Popping(root: TreeNode, pool: set<TreeNode>, rest: seq<TreeNode>, node: TreeNode, left: seq<Tree>)
    requires Hangs(root, pool) && Stacked(pool, rest + [node], left)
    ensures node in pool && left != [] && left[0] == node.shape
    ensures Stacked(pool, rest + node.kids, left[1..])
  {
    var st :| Listed(pool, rest + [node], st) && VisitAll(st) == left;
    StackStep(root, pool, rest, node, st);
    VisitStep(st);
    assert VisitAll(st[..|st| - 1] + node.shape.kids) == left[1..];
  }

  lemma StackOfOne(pool: set<TreeNode>, root: TreeNode)
    requires root in pool
    ensures Stacked(pool, [root], Visit(root.shape))
  {
    VisitAllOne(root.shape);
    assert Listed(pool, [root], [root.shape]);
  }

  lemma StackEmpty(pool: set<TreeNode>, left: seq<Tree>)
    requires Stacked(pool, [], left)
    ensures left == []
  {
  }

  /** The first nodes of the visit have been acted on. */
  ghost predicate Visited(pool: set<TreeNode>, order: seq<TreeNode>, v: seq<Tree>)
    reads order`shape
  {
    |order| <= |v| && forall i :: 0 <= i < |order| ==> order[i] in pool && order[i].shape == v[i]
  }

  lemma NextVisited(pool: set<TreeNode>, order: seq<TreeNode>, v: seq<Tree>, node: TreeNode)
    requires Visited(pool, order, v) && node in pool
    requires v[|order|..] != [] && v[|order|..][0] == node.shape
    ensures Visited(pool, order + [node], v) && v[|order|..][1..] == v[|order + [node]|..]
  {
  }

  /** The explicit stack: pop, act, push the children in order. */
  method TraverseTree(root: TreeNode, ghost pool: set<TreeNode>) returns (order: seq<TreeNode>)
    requires Hangs(root, pool)
    ensures Listed(pool, order, Visit(root.shape))
  {
    var stack := [root];
    order := [];
    ghost var v := Visit(root.shape);
    StackOfOne(pool, root);
    while stack != []
      invariant Visited(pool, order, v) && Stacked(pool, stack, v[|order|..])
      decreases |v| - |order|
    {
      var node, rest := stack[|stack| - 1], stack[..|stack| - 1];
      assert stack == rest + [node];
      Popping(root, pool, rest, node, v[|order|..]);
      NextVisited(pool, order, v, node);
      order := order + [node];
      stack := rest + node.kids;
    }
    StackEmpty(pool, v[|order|..]);
  }

  // ---------------------------------------------------------------- the sort

  predicate Rising(order: seq<TreeNode>) {
    forall i, j :: 0 <= i < j < |order| ==> order[i].block.number <= order[j].block.number
  }

  lemma InsertKeepsAll(order: seq<TreeNode>, n: TreeNode, k: nat)
    requires k <= |order|
    ensures multiset(order[..k] + [n] + order[k..]) == multiset(order) + multiset{n}
  {
    assert order == order[..k] + order[k..];
  }

  lemma InsertKeepsOrder(order: seq<TreeNode>, n: TreeNode, k: nat, r: seq<TreeNode>)
    requires k <= |order| && Rising(order) && r == order[..k] + [n] + order[k..]
    requires k > 0 ==> order[k - 1].block.number <= n.block.number
    requires forall j :: k <= j < |order| ==> n.block.number < order[j].block.number
    ensures Rising(r)
  {
    forall i, j | 0 <= i < j < |r| ensures r[i].block.number <= r[j].block.number {
      if j < k {
        assert r[i] == order[i] && r[j] == order[j];
      } else if j == k {
        assert r[i] == order[i] && r[j] == n;
        assert i == k - 1 || order[i].block.number <= order[k - 1].block.number;
      } else if i == k {
        assert r[i] == n && r[j] == order[j - 1];
      } else if i < k {
        assert r[i] == order[i] && r[j] == order[j - 1];
      } else {
        assert r[i] == order[i - 1] && r[j] == order[j - 1];
      }
    }
  }

  method InsertByNumber(order: seq<TreeNode>, n: TreeNode) returns (r: seq<TreeNode>)
    requires Rising(order)
    ensures multiset(r) == multiset(order) + multiset{n} && Rising(r)
  {
    var k := |order|;
    while k > 0 && n.block.number < order[k - 1].block.number
      invariant 0 <= k <= |order|
      invariant forall j :: k <= j < |order| ==> n.block.number < order[j].block.number
    {
      k := k - 1;
    }
    r := order[..k] + [n] + order[k..];
    InsertKeepsAll(order, n, k);
    InsertKeepsOrder(order, n, k, r);
  }

  /** std::sort with the comparator of recalculateTree. Equal numbers may end up either way;
      callers rely on the order being ascending and a rearrangement, and on nothing else. */
  method SortByNumber(nodes: seq<TreeNode>) returns (order: seq<TreeNode>)
    ensures multiset(order) == multiset(nodes) && Rising(order)
  {
    order := [];
    for i := 0 to |nodes|
      invariant multiset(order) == multiset(nodes[..i]) && Rising(order)
    {
      assert nodes[..i + 1] == nodes[..i] + [nodes[i]];
      order := InsertByNumber(order, nodes[i]);
    }
    assert nodes[..|nodes|] == nodes;
  }

  lemma TwiceIn<T>(s: seq<T>, i: nat, j: nat)
    requires i < j < |s| && s[i] == s[j]
    ensures multiset(s)[s[i]] >= 2
  {
    assert s == s[..i] + [s[i]] + s[i + 1..j] + [s[j]] + s[j + 1..];
  }

  lemma {:induction false} OnceIn<T>(s: seq<T>, x: T)
    requires Distinct(s)
    ensures multiset(s)[x] <= 1
  {
    if s != [] {
      var rest := s[..|s| - 1];
      OnceIn(rest, x);
      assert s == rest + [s[|s| - 1]];
      assert x == s[|s| - 1] ==> x !in rest;
    }
  }

  lemma Rearranged<T>(a: seq<T>, b: seq<T>)
    requires multiset(a) == multiset(b) && Distinct(a)
    ensures Distinct(b) && forall x :: x in a <==> x in b
  {
    forall x ensures x in a <==> x in b {
      assert x in multiset(a) <==> x in multiset(b);
    }
    forall i, j | 0 <= i < j < |b| ensures b[i] != b[j] {
      if b[i] == b[j] {
        TwiceIn(b, i, j);
        OnceIn(a, b[i]);
      }
    }
  }

  /** The sorted objects have the shapes of the tree in ascending order. */
  lemma SortedShapes(root: TreeNode, pool: set<TreeNode>, order: seq<TreeNode>) returns (ts: seq<Tree>)
    requires Hangs(root, pool) && Distinct(order) && Rising(order) && forall n :: n in order <==> n in pool
    ensures Shaped(order, ts) && Arranges(ts, root.shape) && Ascending(ts)
  {
    ts := ShapesOf(order);
    OrderIds(root, pool, order);
    forall n | n in order ensures Local(n, pool) {
    }
    forall t | t in Visit(root.shape) ensures t in ts {
      var n := ObjectOf(root, pool, root, t);
      var i :| 0 <= i < |order| && order[i] == n;
      assert ts[i] == t;
    }
    forall i | 0 <= i < |ts| ensures ts[i] in Visit(root.shape) && ts[i].block == order[i].block {
      assert order[i] in pool && Local(order[i], pool);
    }
  }

  // ---------------------------------------------------------------- recalculateTree

  /** The index holds exactly the nodes of the tree. */
  ghost predicate Indexed(fast: map<Id, TreeNode>, pool: set<TreeNode>) {
    && (forall n :: n in pool ==> n.block.id in fast && fast[n.block.id] == n)
    && (forall id :: id in fast ==> fast[id] in pool && fast[id].block.id == id)
  }

  ghost predicate IndexedTo(fast: map<Id, TreeNode>, order: seq<TreeNode>, i: nat)
    requires i <= |order|
  {
    && |fast| == i
    && (forall k :: 0 <= k < i ==> order[k].block.id in fast && fast[order[k].block.id] == order[k])
    && (forall id :: id in fast ==> fast[id] in order[..i] && fast[id].block.id == id)
  }

  lemma IndexNext(fast: map<Id, TreeNode>, order: seq<TreeNode>, i: nat)
    requires i < |order| && IndexedTo(fast, order, i)
    requires forall k :: 0 <= k < i ==> order[k].block.id != order[i].block.id
    ensures IndexedTo(fast[order[i].block.id := order[i]], order, i + 1)
  {
    assert forall n :: n in order[..i] ==> n.block.id != order[i].block.id;
    assert order[..i + 1] == order[..i] + [order[i]];
  }

  /** The first pass: index every node and reset its total to its own weight. */
  method IndexNodes(order: seq<TreeNode>, ghost pool: set<TreeNode>) returns (fast: map<Id, TreeNode>)
    requires forall n :: n in order <==> n in pool
    requires forall i, j :: 0 <= i < j < |order| ==> order[i].block.id != order[j].block.id
    modifies pool`totalWeight
    ensures Indexed(fast, pool) && |fast| == |order|
    ensures forall n :: n in pool ==> n.totalWeight == n.block.weight
  {
    fast := map[];
    for i := 0 to |order|
      invariant IndexedTo(fast, order, i)
      invariant forall k :: 0 <= k < i ==> order[k].totalWeight == order[k].block.weight
    {
      IndexNext(fast, order, i);
      order[i].totalWeight := order[i].block.weight;
      fast := fast[order[i].block.id := order[i]];
    }
    assert order[..|order|] == order;
  }

  /** The totals in the nodes are those of the map. */
  ghost predicate Agree(totals: Totals, pool: set<TreeNode>)
    reads pool`totalWeight
  {
    forall n :: n in pool ==> n.block.id in totals && totals[n.block.id] == n.totalWeight
  }

  lemma AccumulateNext(totals: Totals, ts: seq<Tree>, i: nat)
    requires i < |ts| && Covers(totals, ts)
    ensures Covers(totals, ts[..i]) && Covers(totals, ts[..i + 1])
    ensures Accumulate(totals, ts[..i]).Keys == totals.Keys
    ensures Accumulate(totals, ts[..i + 1]) == AddKids(Accumulate(totals, ts[..i]), ts[i].block.id, ts[i].kids)
  {
    assert ts[..i + 1][..i] == ts[..i];
  }

  lemma {:induction false} SumOfNext(totals: Totals, ks: seq<Tree>, j: nat)
    requires j < |ks| && forall k :: k in ks ==> k.block.id in totals
    ensures SumOf(totals, ks[..j + 1]) == SumOf(totals, ks[..j]) + totals[ks[j].block.id]
  {
    if j > 0 {
      SumOfNext(totals, ks[1..], j - 1);
      assert ks[..j + 1][1..] == ks[1..][..j] && ks[..j][1..] == ks[1..][..j - 1];
    } else {
      assert ks[..1] == [ks[0]] && ks[..0] == [];
    }
  }

  lemma KidAgrees(root: TreeNode, pool: set<TreeNode>, node: TreeNode, totals: Totals)
    requires Hangs(root, pool) && node in pool && Agree(totals, pool)
    ensures |node.kids| == |node.shape.kids| && forall k :: k in node.shape.kids ==> k.block.id in totals
    ensures forall j :: 0 <= j < |node.kids| ==>
              node.kids[j] != node && totals[node.shape.kids[j].block.id] == node.kids[j].totalWeight
  {
    assert Local(node, pool);
    forall j | 0 <= j < |node.kids|
      ensures node.kids[j] != node && node.shape.kids[j].block.id in totals
      ensures totals[node.shape.kids[j].block.id] == node.kids[j].totalWeight
    {
      assert Local(node.kids[j], pool);
      NumbersRise(root.shape, node.shape);
      LinkedKid(node.shape.block, node.shape.kids, node.shape.kids[j]);
    }
  }

  /** The inner loop: add the children's totals to the node's. */
  method AddChildren(node: TreeNode, ghost ks: seq<Tree>, ghost totals: Totals)
    requires |ks| == |node.kids| && forall k :: k in ks ==> k.block.id in totals
    requires forall j :: 0 <= j < |ks| ==> node.kids[j] != node && totals[ks[j].block.id] == node.kids[j].totalWeight
    modifies node`totalWeight
    ensures node.totalWeight == old(node.totalWeight) + SumOf(totals, ks)
  {
    for j := 0 to |node.kids|
      invariant node.totalWeight == old(node.totalWeight) + SumOf(totals, ks[..j])
    {
      SumOfNext(totals, ks, j);
      node.totalWeight := node.totalWeight + node.kids[j].totalWeight;
    }
    assert ks[..|ks|] == ks;
  }

  /** The totals in the nodes are those of the model after the first nodes of the order. */
  ghost predicate Summed(pool: set<TreeNode>, base: Totals, ts: seq<Tree>, i: nat)
    reads pool`totalWeight
  {
    i <= |ts| && Covers(base, ts[..i]) && Agree(Accumulate(base, ts[..i]), pool)
  }

  method AddNode(root: TreeNode, node: TreeNode, ghost pool: set<TreeNode>, ghost base: Totals, ghost ts: seq<Tree>, ghost i: nat)
    requires Hangs(root, pool) && node in pool && i < |ts| && node.shape == ts[i]
    requires Family(ts) && Covers(base, ts) && Summed(pool, base, ts, i)
    modifies node`totalWeight
    ensures Summed(pool, base, ts, i + 1)
  {
    ghost var totals := Accumulate(base, ts[..i]);
    KidAgrees(root, pool, node, totals);
    AddChildren(node, ts[i].kids, totals);
    Added(root, pool, node, ts, i, base);
  }

  /** The two nested loops, in the sorted order. */
  method AddUp(root: TreeNode, order: seq<TreeNode>, ghost pool: set<TreeNode>, ghost base: Totals, ghost ts: seq<Tree>)
    requires Hangs(root, pool) && Listed(pool, order, ts)
    requires Family(ts) && Covers(base, ts) && Agree(base, pool)
    modifies pool`totalWeight
    ensures Summed(pool, base, ts, |ts|)
  {
    for i := 0 to |order|
      invariant Summed(pool, base, ts, i)
    {
      AddNode(root, order[i], pool, base, ts, i);
    }
  }

  /** The totals of the model after one more node agree if only that node's total changed. */
  lemma Added(root: TreeNode, pool: set<TreeNode>, node: TreeNode, ts: seq<Tree>, i: nat, base: Totals)
    requires Hangs(root, pool) && node in pool
    requires i < |ts| && Family(ts) && Covers(base, ts) && node.shape == ts[i]
    requires Covers(base, ts[..i])
    requires
      var totals := Accumulate(base, ts[..i]);
      && node.block.id in totals
      && node.totalWeight == totals[node.block.id] + SumOf(totals, node.shape.kids)
      && forall n :: n in pool && n != node ==> n.block.id in totals && totals[n.block.id] == n.totalWeight
    ensures Covers(base, ts[..i + 1]) && Agree(Accumulate(base, ts[..i + 1]), pool)
  {
    var totals := Accumulate(base, ts[..i]);
    AccumulateNext(base, ts, i);
    assert Local(node, pool);
    KidNotSelf(ts, ts[i]);
    AddKidsEffect(totals, node.block.id, node.shape.kids, SumOf(totals, node.shape.kids));
    assert forall n :: n in pool && SameId(n, node) ==> n == node;
  }

  lemma BaseAgrees(root: TreeNode, pool: set<TreeNode>)
    requires Hangs(root, pool) && forall n :: n in pool ==> n.totalWeight == n.block.weight
    ensures Agree(Base(Visit(root.shape)), pool)
  {
    SeparateUnique(root.shape);
    BaseIs(Visit(root.shape));
    forall n | n in pool ensures n.shape.block == n.block && n.shape in Visit(root.shape) {
      assert Local(n, pool);
    }
  }

  lemma FinalTotals(root: TreeNode, pool: set<TreeNode>, ts: seq<Tree>)
    requires Hangs(root, pool) && Arranges(ts, root.shape) && Ascending(ts)
    requires Summed(pool, Base(Visit(root.shape)), ts, |ts|)
    ensures forall n {:trigger n.totalWeight} :: n in pool ==> n.totalWeight == Shallow(n.shape)
  {
    SeparateUnique(root.shape);
    WrittenTotals(root.shape, ts);
    assert ts[..|ts|] == ts;
    forall n | n in pool ensures n.totalWeight == Shallow(n.shape) {
      assert Local(n, pool);
    }
  }

  lemma OrderIds(root: TreeNode, pool: set<TreeNode>, order: seq<TreeNode>)
    requires Hangs(root, pool) && Distinct(order) && forall n :: n in order <==> n in pool
    ensures forall i, j :: 0 <= i < j < |order| ==> order[i].block.id != order[j].block.id
  {
    forall i, j | 0 <= i < j < |order| ensures order[i].block.id != order[j].block.id {
      assert !SameId(order[i], order[j]);
    }
  }

  /** The first pass over the tree. */
  method ResetNodes(root: TreeNode, ghost pool: set<TreeNode>) returns (allnodes: seq<TreeNode>, fast: map<Id, TreeNode>)
    requires Hangs(root, pool)
    modifies pool`totalWeight
    ensures Distinct(allnodes) && forall n :: n in allnodes <==> n in pool
    ensures Indexed(fast, pool) && |fast| == |Visit(root.shape)|
    ensures forall n :: n in pool ==> n.totalWeight == n.block.weight
  {
    allnodes := TraverseTree(root, pool);
    VisitOfObjects(root, pool, allnodes);
    OrderIds(root, pool, allnodes);
    fast := IndexNodes(allnodes, pool);
  }

  /** What adding up in the sorted order starts from. */
  lemma SortedReady(root: TreeNode, pool: set<TreeNode>, allnodes: seq<TreeNode>, order: seq<TreeNode>) returns (ts: seq<Tree>)
    requires Hangs(root, pool) && forall n :: n in pool ==> n.totalWeight == n.block.weight
    requires Distinct(allnodes) && forall n :: n in allnodes <==> n in pool
    requires multiset(order) == multiset(allnodes) && Rising(order)
    ensures Listed(pool, order, ts) && Arranges(ts, root.shape) && Ascending(ts)
    ensures Family(ts) && Covers(Base(Visit(root.shape)), ts) && Agree(Base(Visit(root.shape)), pool)
  {
    Rearranged(allnodes, order);
    ts := SortedShapes(root, pool, order);
    SeparateUnique(root.shape);
    WrittenTotals(root.shape, ts);
    VisitFamily(root.shape, ts);
    BaseAgrees(root, pool);
  }

  /** The sort and the pass that adds up. */
  method AddWeights(root: TreeNode, allnodes: seq<TreeNode>, ghost pool: set<TreeNode>)
    requires Hangs(root, pool) && forall n :: n in pool ==> n.totalWeight == n.block.weight
    requires Distinct(allnodes) && forall n :: n in allnodes <==> n in pool
    modifies pool`totalWeight
    ensures forall n {:trigger n.totalWeight} :: n in pool ==> n.totalWeight == Shallow(n.shape)
  {
    var order := SortByNumber(allnodes);
    ghost var ts := SortedReady(root, pool, allnodes, order);
    AddUp(root, order, pool, Base(Visit(root.shape)), ts);
    FinalTotals(root, pool, ts);
  }

  lemma BestNext(ks: seq<Tree>, i: nat)
    requires 0 < i < |ks|
    ensures Best(ks[..i + 1], Shallow) == if Shallow(ks[i]) > Shallow(Best(ks[..i], Shallow)) then ks[i] else Best(ks[..i], Shallow)
  {
    assert ks[..i + 1][..i] == ks[..i];
  }

  /** The child kept by the comparison loop at one node. */
  method BestChild(node: TreeNode, ghost root: TreeNode, ghost pool: set<TreeNode>) returns (best: TreeNode)
    requires Hangs(root, pool) && node in pool && node.kids != []
    requires forall n {:trigger n.totalWeight} :: n in pool ==> n.totalWeight == Shallow(n.shape)
    ensures best in pool && node.shape.kids != [] && best.shape == Best(node.shape.kids, Shallow)
  {
    ghost var ks := node.shape.kids;
    assert Local(node, pool);
    best := node.kids[0];
    assert ks[..1] == [ks[0]];
    for i := 1 to |node.kids|
      invariant best in pool && best.shape == Best(ks[..i], Shallow)
    {
      BestNext(ks, i);
      assert node.kids[i] in pool && node.kids[i].shape == ks[i];
      if node.kids[i].totalWeight > best.totalWeight {
        best := node.kids[i];
      }
    }
    assert ks[..|ks|] == ks;
  }

  /** The descent from the root, counting the branch. */
  method Descend(root: TreeNode, ghost pool: set<TreeNode>) returns (current: TreeNode, count: int)
    requires Hangs(root, pool)
    requires forall n {:trigger n.totalWeight} :: n in pool ==> n.totalWeight == Shallow(n.shape)
    ensures current in pool && current.shape == Tip(root.shape, Shallow)
    ensures count == |Branch(root.shape, Shallow)|
  {
    current, count := root, 1;
    ghost var t := root.shape;
    assert Local(current, pool);
    while current.kids != []
      invariant current in pool && Local(current, pool)
      invariant count + |Branch(current.shape, Shallow)| == 1 + |Branch(t, Shallow)|
      invariant Tip(current.shape, Shallow) == Tip(t, Shallow)
      decreases current.shape
    {
      var best := BestChild(current, root, pool);
      BestIn(current.shape.kids, Shallow);
      assert Branch(current.shape, Shallow) == [current.shape] + Branch(best.shape, Shallow);
      assert Local(best, pool);
      current := best;
      count := count + 1;
    }
  }

  /** All passes over a tree that is not empty. */
  method Rebuild(root: TreeNode, ghost pool: set<TreeNode>) returns (fast: map<Id, TreeNode>, last: TreeNode, count: int)
    requires Hangs(root, pool)
    modifies pool`totalWeight
    ensures Indexed(fast, pool) && |fast| == |Visit(root.shape)|
    ensures forall n {:trigger n.totalWeight} :: n in pool ==> n.totalWeight == Shallow(n.shape)
    ensures last in pool && last.shape == Tip(root.shape, Shallow) && count == |Branch(root.shape, Shallow)|
  {
    var allnodes;
    allnodes, fast := ResetNodes(root, pool);
    AddWeights(root, allnodes, pool);
    last, count := Descend(root, pool);
  }

  lemma ObjectsOf(root: TreeNode, pool: set<TreeNode>)
    requires Hangs(root, pool)
    ensures forall n :: n in pool ==> n.shape in Visit(root.shape) && n.shape.block.id == n.block.id
    ensures forall m :: m in Visit(root.shape) ==> exists n :: n in pool && n.block.id == m.block.id
  {
    forall n | n in pool ensures n.shape in Visit(root.shape) && n.shape.block.id == n.block.id {
      assert Local(n, pool);
    }
    forall m | m in Visit(root.shape) ensures exists n :: n in pool && n.block.id == m.block.id {
      var n := ObjectOf(root, pool, root, m);
      assert Local(n, pool);
    }
  }
}
