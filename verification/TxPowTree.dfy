/** The tree of recent blocks: traversal, the weights recalculateTree gives its nodes, and
    the branch it chooses. A node owns its children, so a tree is a value. */
module TxPowTreeModel {
  import opened Common

  datatype Block = Block(id: Id, parentId: Id, number: int, weight: real)

  datatype Tree = Node(block: Block, kids: seq<Tree>)

  // ---------------------------------------------------------------- traversal

  /** The order in which the explicit stack visits: a node, then its children from the
      last to the first, each with everything below it. */
  function Visit(t: Tree): seq<Tree>
    decreases t, 1
  {
    [t] + VisitAll(t.kids)
  }

  /** What is visited from a stack whose top is its last element. */
  function VisitAll(ts: seq<Tree>): seq<Tree>
    decreases ts, 0
  {
    if ts == [] then [] else Visit(ts[|ts| - 1]) + VisitAll(ts[..|ts| - 1])
  }

  lemma {:induction false} VisitAllConcat(a: seq<Tree>, b: seq<Tree>)
    ensures VisitAll(a + b) == VisitAll(b) + VisitAll(a)
    decreases |b|
  {
    if b == [] {
      assert a + b == a;
    } else {
      assert (a + b)[..|a + b| - 1] == a + b[..|b| - 1];
      VisitAllConcat(a, b[..|b| - 1]);
    }
  }

  lemma VisitAllOne(t: Tree)
    ensures VisitAll([t]) == Visit(t)
  {
    assert [t][..0] == [];
  }

  lemma {:induction false} VisitOfKid(ts: seq<Tree>, k: Tree)
    requires k in ts
    ensures forall n :: n in Visit(k) ==> n in VisitAll(ts)
    decreases |ts|
  {
    if k != ts[|ts| - 1] {
      VisitOfKid(ts[..|ts| - 1], k);
    }
  }

  lemma {:induction false} VisitAllOrigin(ts: seq<Tree>, n: Tree) returns (k: Tree)
    requires n in VisitAll(ts)
    ensures k in ts && n in Visit(k)
    decreases |ts|
  {
    if n in Visit(ts[|ts| - 1]) {
      k := ts[|ts| - 1];
    } else {
      k := VisitAllOrigin(ts[..|ts| - 1], n);
    }
  }

  /** Below a node of the tree there are only nodes of the tree. */
  lemma {:induction false} VisitClosed(t: Tree, n: Tree)
    requires n in Visit(t)
    ensures forall m :: m in Visit(n) ==> m in Visit(t)
    decreases t
  {
    if n != t {
      var k := VisitAllOrigin(t.kids, n);
      VisitClosed(k, n);
      VisitOfKid(t.kids, k);
    }
  }

  lemma KidVisited(t: Tree, n: Tree, k: Tree)
    requires n in Visit(t) && k in n.kids
    ensures k in Visit(t)
  {
    VisitClosed(t, n);
    VisitOfKid(n.kids, k);
    assert k in Visit(k);
  }

  /** No two nodes of the tree carry the same id. */
  predicate Unique(nodes: seq<Tree>) {
    forall i, j :: 0 <= i < j < |nodes| ==> nodes[i].block.id != nodes[j].block.id
  }

  /** Every child names its parent and is numbered above it. */
  predicate Linked(t: Tree)
    decreases t, 1
  {
    LinkedAll(t.block, t.kids)
  }

  predicate LinkedAll(parent: Block, ts: seq<Tree>)
    decreases ts, 0
  {
    ts == [] ||
    (var k := ts[|ts| - 1];
     k.block.parentId == parent.id && k.block.number > parent.number && Linked(k) && LinkedAll(parent, ts[..|ts| - 1]))
  }

  lemma {:induction false} LinkedKid(parent: Block, ts: seq<Tree>, k: Tree)
    requires LinkedAll(parent, ts) && k in ts
    ensures k.block.parentId == parent.id && k.block.number > parent.number && Linked(k)
    decreases |ts|
  {
    if k != ts[|ts| - 1] {
      LinkedKid(parent, ts[..|ts| - 1], k);
    }
  }

  /** Numbers rise along the tree, so a node is numbered above everything it hangs from. */
  lemma {:induction false} NumbersRise(t: Tree, n: Tree)
    requires Linked(t) && n in Visit(t)
    ensures Linked(n) && n.block.number >= t.block.number
    ensures n != t ==> n.block.number > t.block.number
    decreases t
  {
    if n != t {
      var k := VisitAllOrigin(t.kids, n);
      LinkedKid(t.block, t.kids, k);
      NumbersRise(k, n);
    }
  }

  // ---------------------------------------------------------------- weights

  function OwnAll(ts: seq<Tree>): real {
    if ts == [] then 0.0 else ts[0].block.weight + OwnAll(ts[1..])
  }

  /** The weight of the whole subtree, which the fork choice is described by. */
  function Subtree(t: Tree): real
    decreases t, 1
  {
    t.block.weight + SubtreeAll(t.kids)
  }

  function SubtreeAll(ts: seq<Tree>): real
    decreases ts, 0
  {
    if ts == [] then 0.0 else Subtree(ts[0]) + SubtreeAll(ts[1..])
  }

  /** The weight of the node and its direct children only. */
  function Shallow(t: Tree): real {
    t.block.weight + OwnAll(t.kids)
  }

  type Totals = map<Id, real>

  function Base(nodes: seq<Tree>): Totals {
    if nodes == [] then map[] else Base(nodes[..|nodes| - 1])[nodes[|nodes| - 1].block.id := nodes[|nodes| - 1].block.weight]
  }

  /** The inner loop: add to node `id` the present totals of the children. */
  function AddKids(totals: Totals, id: Id, kids: seq<Tree>): Totals
    requires id in totals && forall k :: k in kids ==> k.block.id in totals
    decreases |kids|
  {
    if kids == [] then totals
    else AddKids(totals[id := totals[id] + totals[kids[0].block.id]], id, kids[1..])
  }

  /** The totals know every node of the order and every child of one. */
  predicate Covers(totals: Totals, order: seq<Tree>) {
    && (forall n :: n in order ==> n.block.id in totals)
    && (forall n, k :: n in order && k in n.kids ==> k.block.id in totals)
  }

  lemma {:induction false} AddKidsEffect(totals: Totals, id: Id, kids: seq<Tree>, sum: real)
    requires id in totals && forall k :: k in kids ==> k.block.id in totals
    requires forall k :: k in kids ==> k.block.id != id
    requires sum == SumOf(totals, kids)
    ensures AddKids(totals, id, kids) == totals[id := totals[id] + sum]
    decreases |kids|
  {
    if kids == [] {
      assert totals[id := totals[id] + 0.0] == totals;
    } else {
      var t' := totals[id := totals[id] + totals[kids[0].block.id]];
      SumOfFrame(totals, t', kids[1..]);
      AddKidsEffect(t', id, kids[1..], SumOf(totals, kids[1..]));
    }
  }

  function SumOf(totals: Totals, kids: seq<Tree>): real
    requires forall k :: k in kids ==> k.block.id in totals
  {
    if kids == [] then 0.0 else totals[kids[0].block.id] + SumOf(totals, kids[1..])
  }

  lemma {:induction false} SumOfFrame(a: Totals, b: Totals, kids: seq<Tree>)
    requires forall k :: k in kids ==> k.block.id in a && k.block.id in b && a[k.block.id] == b[k.block.id]
    ensures SumOf(a, kids) == SumOf(b, kids)
  {
    if kids != [] {
      SumOfFrame(a, b, kids[1..]);
    }
  }

  /** The accumulation loop over the nodes in a given order. */
  function Accumulate(totals: Totals, order: seq<Tree>): Totals
    requires Covers(totals, order)
    ensures Accumulate(totals, order).Keys == totals.Keys
    decreases |order|
  {
    if order == [] then totals
    else
      var rest := order[..|order| - 1];
      var n := order[|order| - 1];
      var t := Accumulate(totals, rest);
      KidsKeepKeys(t, n.block.id, n.kids);
      AddKids(t, n.block.id, n.kids)
  }

  lemma {:induction false} KidsKeepKeys(totals: Totals, id: Id, kids: seq<Tree>)
    requires id in totals && forall k :: k in kids ==> k.block.id in totals
    ensures AddKids(totals, id, kids).Keys == totals.Keys
    decreases |kids|
  {
    if kids != [] {
      KidsKeepKeys(totals[id := totals[id] + totals[kids[0].block.id]], id, kids[1..]);
    }
  }

  /** `order` lists each node of the tree exactly once. */
  ghost predicate Arranges(order: seq<Tree>, t: Tree) {
    Unique(order) && forall n :: n in order <==> n in Visit(t)
  }

  predicate NoChildAfter(order: seq<Tree>) {
    forall i, j :: 0 <= i < j < |order| ==> order[j] !in order[i].kids
  }

  predicate NoChildBefore(order: seq<Tree>) {
    forall i, j :: 0 <= i < j < |order| ==> order[i] !in order[j].kids
  }

  predicate Ascending(order: seq<Tree>) {
    forall i, j :: 0 <= i < j < |order| ==> order[i].block.number <= order[j].block.number
  }

  predicate Descending(order: seq<Tree>) {
    forall i, j :: 0 <= i < j < |order| ==> order[i].block.number >= order[j].block.number
  }

  /** Nodes with distinct ids, closed under children, numbered upwards. */
  ghost predicate Family(order: seq<Tree>) {
    && Unique(order)
    && (forall n, k :: n in order && k in n.kids ==> k in order && k.block.number > n.block.number)
  }

  lemma SortedOrders(order: seq<Tree>)
    requires Family(order)
    ensures Ascending(order) ==> NoChildBefore(order)
    ensures Descending(order) ==> NoChildAfter(order)
  {
  }

  lemma IdsTellNodes(order: seq<Tree>, m: Tree, n: Tree)
    requires Unique(order) && m in order && n in order && m.block.id == n.block.id
    ensures m == n
  {
    var i :| 0 <= i < |order| && order[i] == m;
    var j :| 0 <= j < |order| && order[j] == n;
  }

  /** After some of the nodes have been processed, each of those has its final value and
      each other its own weight. */
  ghost predicate Progress(totals: Totals, order: seq<Tree>, done: nat, final: Tree -> real)
    requires done <= |order|
  {
    forall i :: 0 <= i < |order| ==>
      order[i].block.id in totals &&
      totals[order[i].block.id] == if i < done then final(order[i]) else order[i].block.weight
  }

  lemma {:induction false} BaseIs(nodes: seq<Tree>)
    requires Unique(nodes)
    ensures forall n :: n in nodes ==> n.block.id in Base(nodes) && Base(nodes)[n.block.id] == n.block.weight
    ensures Base(nodes).Keys == set n | n in nodes :: n.block.id
  {
    if nodes != [] {
      BaseIs(nodes[..|nodes| - 1]);
      assert nodes == nodes[..|nodes| - 1] + [nodes[|nodes| - 1]];
      forall n | n in nodes
        ensures n.block.id in Base(nodes) && Base(nodes)[n.block.id] == n.block.weight
      {
        var i :| 0 <= i < |nodes| && nodes[i] == n;
        if i < |nodes| - 1 {
          assert nodes[..|nodes| - 1][i] == n;
        }
      }
    }
  }

  lemma {:induction false} SumSubtrees(totals: Totals, kids: seq<Tree>)
    requires forall k :: k in kids ==> k.block.id in totals && totals[k.block.id] == Subtree(k)
    ensures SumOf(totals, kids) == SubtreeAll(kids)
  {
    if kids != [] {
      SumSubtrees(totals, kids[1..]);
    }
  }

  lemma {:induction false} SumOwn(totals: Totals, kids: seq<Tree>)
    requires forall k :: k in kids ==> k.block.id in totals && totals[k.block.id] == k.block.weight
    ensures SumOf(totals, kids) == OwnAll(kids)
  {
    if kids != [] {
      SumOwn(totals, kids[1..]);
    }
  }

  lemma KidNotSelf(order: seq<Tree>, n: Tree)
    requires Family(order) && n in order
    ensures forall k :: k in n.kids ==> k.block.id != n.block.id && k in order
  {
    forall k | k in n.kids ensures k.block.id != n.block.id {
      if k.block.id == n.block.id {
        IdsTellNodes(order, k, n);
      }
    }
  }

  lemma ProgressStep(before: Totals, order: seq<Tree>, done: nat, final: Tree -> real)
    requires done < |order| && Family(order) && Progress(before, order, done, final)
    requires var n := order[done]; forall k :: k in n.kids ==> k.block.id in before
    requires var n := order[done]; n.block.weight + SumOf(before, n.kids) == final(n)
    ensures Progress(AddKids(before, order[done].block.id, order[done].kids), order, done + 1, final)
  {
    var n := order[done];
    KidNotSelf(order, n);
    AddKidsEffect(before, n.block.id, n.kids, SumOf(before, n.kids));
  }

  lemma FamilyCovers(order: seq<Tree>, totals: Totals, done: nat)
    requires Family(order) && done <= |order| && forall n :: n in order ==> n.block.id in totals
    ensures Covers(totals, order[..done])
  {
    assert forall n :: n in order[..done] ==> n in order;
  }

  lemma KidPlace(order: seq<Tree>, i: nat, k: Tree) returns (j: nat)
    requires Family(order) && i < |order| && k in order[i].kids
    ensures j < |order| && order[j] == k && j != i
    ensures NoChildAfter(order) ==> j < i
    ensures NoChildBefore(order) ==> j > i
  {
    KidNotSelf(order, order[i]);
    j :| 0 <= j < |order| && order[j] == k;
  }

  /** Children first: every total becomes the weight of the whole subtree. */
  lemma {:induction false} ChildrenFirstFrom(totals: Totals, order: seq<Tree>, done: nat)
    requires Family(order) && NoChildAfter(order) && done <= |order|
    requires forall n :: n in order ==> n.block.id in totals && totals[n.block.id] == n.block.weight
    ensures Covers(totals, order[..done])
    ensures Progress(Accumulate(totals, order[..done]), order, done, Subtree)
  {
    FamilyCovers(order, totals, done);
    if done > 0 {
      var i := done - 1;
      ChildrenFirstFrom(totals, order, i);
      assert order[..done][..i] == order[..i];
      var t, n := Accumulate(totals, order[..i]), order[i];
      forall k | k in n.kids ensures k.block.id in t && t[k.block.id] == Subtree(k) {
        var j := KidPlace(order, i, k);
      }
      SumSubtrees(t, n.kids);
      ProgressStep(t, order, i, Subtree);
    }
  }

  /** Parents first: every total becomes the node's own weight plus its children's own. */
  lemma {:induction false} ParentsFirstFrom(totals: Totals, order: seq<Tree>, done: nat)
    requires Family(order) && NoChildBefore(order) && done <= |order|
    requires forall n :: n in order ==> n.block.id in totals && totals[n.block.id] == n.block.weight
    ensures Covers(totals, order[..done])
    ensures Progress(Accumulate(totals, order[..done]), order, done, Shallow)
  {
    FamilyCovers(order, totals, done);
    if done > 0 {
      var i := done - 1;
      ParentsFirstFrom(totals, order, i);
      assert order[..done][..i] == order[..i];
      var t, n := Accumulate(totals, order[..i]), order[i];
      forall k | k in n.kids ensures k.block.id in t && t[k.block.id] == k.block.weight {
        var j := KidPlace(order, i, k);
      }
      SumOwn(t, n.kids);
      ProgressStep(t, order, i, Shallow);
    }
  }

  lemma VisitFamily(t: Tree, order: seq<Tree>)
    requires Unique(Visit(t)) && Linked(t) && Arranges(order, t)
    ensures Family(order)
  {
    forall n, k | n in order && k in n.kids
      ensures k in order && k.block.number > n.block.number
    {
      KidVisited(t, n, k);
      NumbersRise(t, n);
      LinkedKid(n.block, n.kids, k);
    }
  }

  /** What recalculateTree computes, in the order its comparator sorts to and however it
      places equal block numbers: own weight plus the direct children's own weights. */
  lemma WrittenTotals(t: Tree, order: seq<Tree>)
    requires Unique(Visit(t)) && Linked(t) && Arranges(order, t) && Ascending(order)
    ensures Covers(Base(Visit(t)), order)
    ensures forall n :: n in Visit(t) ==>
              n.block.id in Accumulate(Base(Visit(t)), order) && Accumulate(Base(Visit(t)), order)[n.block.id] == Shallow(n)
  {
    VisitFamily(t, order);
    SortedOrders(order);
    BaseIs(Visit(t));
    ParentsFirstFrom(Base(Visit(t)), order, |order|);
    assert order[..|order|] == order;
  }

  /** In the descending order its comment names, the totals would be the subtree weights. */
  lemma DescribedTotals(t: Tree, order: seq<Tree>)
    requires Unique(Visit(t)) && Linked(t) && Arranges(order, t) && Descending(order)
    ensures Covers(Base(Visit(t)), order)
    ensures forall n :: n in Visit(t) ==>
              n.block.id in Accumulate(Base(Visit(t)), order) && Accumulate(Base(Visit(t)), order)[n.block.id] == Subtree(n)
  {
    VisitFamily(t, order);
    SortedOrders(order);
    BaseIs(Visit(t));
    ChildrenFirstFrom(Base(Visit(t)), order, |order|);
    assert order[..|order|] == order;
  }

  // ---------------------------------------------------------------- when the two agree

  ghost predicate NonNegative(t: Tree) {
    forall n :: n in Visit(t) ==> n.block.weight >= 0.0
  }

  lemma {:induction false} SubtreeAtLeast(t: Tree)
    requires NonNegative(t)
    ensures Subtree(t) >= t.block.weight >= 0.0
    ensures SubtreeAll(t.kids) >= OwnAll(t.kids)
    decreases t, 1
  {
    assert t in Visit(t);
    forall k | k in t.kids ensures NonNegative(k) {
      VisitOfKid(t.kids, k);
    }
    SubtreesAtLeast(t.kids);
    OwnAllNonNegative(t.kids);
  }

  lemma {:induction false} SubtreesAtLeast(ts: seq<Tree>)
    requires forall k :: k in ts ==> NonNegative(k)
    ensures SubtreeAll(ts) >= OwnAll(ts)
    ensures SubtreeAll(ts) == OwnAll(ts) <==> forall k :: k in ts ==> SubtreeAll(k.kids) == 0.0
    decreases ts, 0
  {
    if ts != [] {
      SubtreeAtLeast(ts[0]);
      SubtreesAtLeast(ts[1..]);
      forall k | k in ts[0].kids ensures NonNegative(k) {
        VisitOfKid(ts[0].kids, k);
      }
      OwnAllNonNegative(ts[0].kids);
      assert forall k :: k in ts <==> k == ts[0] || k in ts[1..];
    }
  }

  lemma {:induction false} OwnAllNonNegative(ts: seq<Tree>)
    requires forall k :: k in ts ==> NonNegative(k)
    ensures OwnAll(ts) >= 0.0
  {
    if ts != [] {
      assert NonNegative(ts[0]) && ts[0] in Visit(ts[0]);
      OwnAllNonNegative(ts[1..]);
    }
  }

  /** The written total of a node is its subtree weight exactly when nothing below its
      children has any weight. */
  lemma TotalsAgreeExactly(t: Tree)
    requires NonNegative(t)
    ensures Shallow(t) <= Subtree(t)
    ensures Shallow(t) == Subtree(t) <==> forall k :: k in t.kids ==> SubtreeAll(k.kids) == 0.0
  {
    forall k | k in t.kids ensures NonNegative(k) {
      VisitOfKid(t.kids, k);
    }
    SubtreesAtLeast(t.kids);
  }

  lemma NonNegativeBelow(t: Tree, n: Tree)
    requires NonNegative(t) && n in Visit(t)
    ensures NonNegative(n) && forall k :: k in n.kids ==> NonNegative(k)
  {
    VisitClosed(t, n);
    forall k | k in n.kids ensures NonNegative(k) {
      VisitOfKid(n.kids, k);
      assert forall m :: m in Visit(k) ==> m in Visit(n);
    }
  }

  predicate Weightless(ts: seq<Tree>) {
    forall n :: n in VisitAll(ts) ==> n.block.weight == 0.0
  }

  lemma {:induction false} WeightlessBelow(ts: seq<Tree>)
    requires forall k :: k in ts ==> NonNegative(k)
    ensures SubtreeAll(ts) >= 0.0
    ensures SubtreeAll(ts) == 0.0 <==> Weightless(ts)
    decreases ts
  {
    if ts != [] {
      SubtreeLast(ts);
      var k, rest := ts[|ts| - 1], ts[..|ts| - 1];
      WeightlessBelow(rest);
      assert NonNegative(k) && k in Visit(k);
      NonNegativeBelow(k, k);
      WeightlessBelow(k.kids);
      assert VisitAll(ts) == [k] + VisitAll(k.kids) + VisitAll(rest);
      assert Weightless(ts) <==> k.block.weight == 0.0 && Weightless(k.kids) && Weightless(rest);
    }
  }

  lemma {:induction false} SubtreeLast(ts: seq<Tree>)
    requires ts != []
    ensures SubtreeAll(ts) == SubtreeAll(ts[..|ts| - 1]) + Subtree(ts[|ts| - 1])
    decreases |ts|
  {
    if |ts| > 1 {
      SubtreeLast(ts[1..]);
      assert ts[1..][..|ts| - 2] == ts[..|ts| - 1][1..];
    } else {
      assert ts[1..] == [] && ts[..0] == [];
    }
  }

  /** All the written totals are subtree weights exactly when no block two or more levels
      below the root has any weight. */
  lemma WrittenTotalsRightExactly(t: Tree)
    requires NonNegative(t)
    ensures (forall n :: n in Visit(t) ==> Shallow(n) == Subtree(n)) <==>
            (forall k :: k in t.kids ==> Weightless(k.kids))
  {
    assert t in Visit(t);
    TotalsAgreeExactly(t);
    forall k | k in t.kids ensures SubtreeAll(k.kids) == 0.0 <==> Weightless(k.kids) {
      KidVisited(t, t, k);
      NonNegativeBelow(t, k);
      WeightlessBelow(k.kids);
    }
    if forall k :: k in t.kids ==> Weightless(k.kids) {
      forall n | n in Visit(t) ensures Shallow(n) == Subtree(n) {
        if n != t {
          var k := VisitAllOrigin(t.kids, n);
          NonNegativeBelow(t, t);
          WeightlessNode(k, n);
        }
      }
    }
  }

  lemma StrictlyBelow(k: Tree, n: Tree, j: Tree)
    requires n in Visit(k) && j in n.kids
    ensures forall m :: m in VisitAll(j.kids) ==> m in VisitAll(k.kids)
  {
    VisitOfKid(n.kids, j);
    assert forall m :: m in VisitAll(j.kids) ==> m in Visit(j) && m in Visit(n);
    if n != k {
      var i := VisitAllOrigin(k.kids, n);
      VisitClosed(i, n);
      VisitOfKid(k.kids, i);
    }
  }

  lemma WeightlessNode(k: Tree, n: Tree)
    requires NonNegative(k) && n in Visit(k) && Weightless(k.kids)
    ensures Shallow(n) == Subtree(n)
  {
    NonNegativeBelow(k, n);
    forall j | j in n.kids ensures SubtreeAll(j.kids) == 0.0 {
      KidVisited(k, n, j);
      NonNegativeBelow(k, j);
      StrictlyBelow(k, n, j);
      WeightlessBelow(j.kids);
    }
    TotalsAgreeExactly(n);
  }

  // ---------------------------------------------------------------- the heaviest branch

  /** The first child no later child outweighs. */
  function Best(ts: seq<Tree>, w: Tree -> real): Tree
    requires ts != []
  {
    if |ts| == 1 then ts[0]
    else
      var b := Best(ts[..|ts| - 1], w);
      if w(ts[|ts| - 1]) > w(b) then ts[|ts| - 1] else b
  }

  lemma {:induction false} BestIn(ts: seq<Tree>, w: Tree -> real)
    requires ts != []
    ensures Best(ts, w) in ts
    ensures forall k :: k in ts ==> w(k) <= w(Best(ts, w))
  {
    if |ts| > 1 {
      BestIn(ts[..|ts| - 1], w);
      assert ts == ts[..|ts| - 1] + [ts[|ts| - 1]];
    }
  }

  /** The child is strictly above those before it and not below those after it. */
  predicate Leads(ts: seq<Tree>, i: nat, w: Tree -> real)
    requires i < |ts|
  {
    (forall j :: 0 <= j < i ==> w(ts[j]) < w(ts[i])) && (forall j :: i < j < |ts| ==> w(ts[j]) <= w(ts[i]))
  }

  lemma {:induction false} BestLeads(ts: seq<Tree>, w: Tree -> real) returns (i: nat)
    requires ts != []
    ensures i < |ts| && Leads(ts, i, w) && Best(ts, w) == ts[i]
  {
    if |ts| == 1 {
      i := 0;
    } else {
      var rest := ts[..|ts| - 1];
      i := BestLeads(rest, w);
      if w(ts[|ts| - 1]) > w(rest[i]) {
        BestIn(rest, w);
        forall j | 0 <= j < |ts| - 1 ensures w(ts[j]) < w(ts[|ts| - 1]) {
          assert ts[j] == rest[j] && rest[j] in rest;
        }
        i := |ts| - 1;
      } else {
        assert forall j :: 0 <= j < |rest| ==> ts[j] == rest[j];
      }
    }
  }

  lemma OneLeads(ts: seq<Tree>, i: nat, j: nat, w: Tree -> real)
    requires i < |ts| && j < |ts| && Leads(ts, i, w) && Leads(ts, j, w)
    ensures i == j
  {
    var heights := (w(ts[i]), w(ts[j]));
  }

  lemma TipStep(t: Tree, w: Tree -> real)
    requires t.kids != []
    ensures Best(t.kids, w) in t.kids && Tip(t, w) == Tip(Best(t.kids, w), w)
  {
    BestIn(t.kids, w);
  }

  lemma TipVisited(t: Tree, w: Tree -> real)
    ensures Tip(t, w) in Visit(t)
  {
    BranchVisited(t, w);
    assert Tip(t, w) in Branch(t, w);
  }

  /** From a node down to the tip, taking the best child each time. */
  function Branch(t: Tree, w: Tree -> real): (r: seq<Tree>)
    ensures r != [] && r[0] == t
    decreases t
  {
    if t.kids == [] then [t]
    else
      BestIn(t.kids, w);
      [t] + Branch(Best(t.kids, w), w)
  }

  function Tip(t: Tree, w: Tree -> real): Tree {
    Branch(t, w)[|Branch(t, w)| - 1]
  }

  /** The branch from any of its own nodes is the rest of it. */
  lemma {:induction false} BranchSuffix(t: Tree, w: Tree -> real, i: nat)
    requires i < |Branch(t, w)|
    ensures Branch(Branch(t, w)[i], w) == Branch(t, w)[i..]
    decreases t
  {
    if i > 0 {
      BestIn(t.kids, w);
      BranchSuffix(Best(t.kids, w), w, i - 1);
      assert Branch(t, w)[i..] == Branch(Best(t.kids, w), w)[i - 1..];
    }
  }

  lemma {:induction false} BranchVisited(t: Tree, w: Tree -> real)
    ensures forall n :: n in Branch(t, w) ==> n in Visit(t)
    decreases t
  {
    if t.kids != [] {
      BestIn(t.kids, w);
      BranchVisited(Best(t.kids, w), w);
      VisitOfKid(t.kids, Best(t.kids, w));
    }
  }

  lemma BranchStep(t: Tree, w: Tree -> real, i: nat)
    requires i + 1 < |Branch(t, w)|
    ensures Branch(t, w)[i].kids != [] && Branch(t, w)[i + 1] == Best(Branch(t, w)[i].kids, w)
    ensures Branch(t, w)[i + 1] in Branch(t, w)[i].kids
  {
    BranchSuffix(t, w, i);
    var n := Branch(t, w)[i];
    BestIn(n.kids, w);
    assert Branch(n, w)[1] == Branch(t, w)[i + 1];
  }

  /** Weights that agree on the nodes of the tree choose the same branch. */
  lemma {:induction false} SameWeightsSameBranch(t: Tree, v: Tree -> real, w: Tree -> real)
    requires forall n :: n in Visit(t) ==> v(n) == w(n)
    ensures Branch(t, v) == Branch(t, w)
    decreases t
  {
    if t.kids != [] {
      forall k | k in t.kids ensures v(k) == w(k) {
        KidVisited(t, t, k);
      }
      SameBest(t.kids, v, w);
      BestIn(t.kids, v);
      VisitOfKid(t.kids, Best(t.kids, v));
      SameWeightsSameBranch(Best(t.kids, v), v, w);
    }
  }

  lemma {:induction false} SameBest(ts: seq<Tree>, v: Tree -> real, w: Tree -> real)
    requires ts != [] && forall k :: k in ts ==> v(k) == w(k)
    ensures Best(ts, v) == Best(ts, w)
  {
    if |ts| > 1 {
      SameBest(ts[..|ts| - 1], v, w);
      BestIn(ts[..|ts| - 1], v);
    }
  }

  /** The tip has no children: the descent stops nowhere else. */
  lemma TipIsLeaf(t: Tree, w: Tree -> real)
    ensures Tip(t, w).kids == []
  {
    BranchSuffix(t, w, |Branch(t, w)| - 1);
  }

  lemma SubtreeOne(t: Tree)
    ensures SubtreeAll([t]) == Subtree(t)
  {
    assert [t][1..] == [];
  }

  lemma BestOfOne(t: Tree)
    ensures forall w :: Best([t], w) == t
  {
  }

  lemma BestOfTwo(a: Tree, b: Tree, w: Tree -> real)
    ensures Best([a, b], w) == if w(b) > w(a) then b else a
  {
    assert [a, b][..1] == [a];
  }

  // A root with two branches: the left one is heavy only three levels down.
  const DEEP := Node(Block("e", "d", 4, 10.0), [])
  const MID := Node(Block("d", "b", 3, 1.0), [DEEP])
  const LEFT := Node(Block("b", "a", 2, 1.0), [MID])
  const LEAF := Node(Block("f", "c", 3, 3.0), [])
  const RIGHT := Node(Block("c", "a", 2, 1.0), [LEAF])
  const FORKED := Node(Block("a", "0x00", 1, 1.0), [LEFT, RIGHT])

  lemma LinkedOne(parent: Block, t: Tree)
    requires t.block.parentId == parent.id && t.block.number > parent.number && Linked(t)
    ensures LinkedAll(parent, [t])
  {
    assert [t][..0] == [];
  }

  lemma ForkedVisit()
    ensures Visit(FORKED) == [FORKED, RIGHT, LEAF, LEFT, MID, DEEP]
  {
    VisitAllOne(DEEP);
    VisitAllOne(MID);
    VisitAllOne(LEAF);
    VisitAllOne(LEFT);
    assert [LEFT, RIGHT][..1] == [LEFT];
    assert Visit(MID) == [MID, DEEP] && Visit(RIGHT) == [RIGHT, LEAF];
    assert Visit(LEFT) == [LEFT, MID, DEEP];
    assert FORKED.kids == [LEFT, RIGHT];
  }

  lemma ForkedWellMade()
    ensures Unique(Visit(FORKED)) && Linked(FORKED) && NonNegative(FORKED)
  {
    ForkedVisit();
    LinkedOne(MID.block, DEEP);
    LinkedOne(LEFT.block, MID);
    LinkedOne(FORKED.block, LEFT);
    LinkedOne(RIGHT.block, LEAF);
    assert [LEFT, RIGHT][..1] == [LEFT];
  }

  lemma ForkedWeights()
    ensures Shallow(LEFT) == 2.0 && Shallow(RIGHT) == 4.0
    ensures Subtree(LEFT) == 12.0 && Subtree(RIGHT) == 4.0
  {
    assert OwnAll([MID]) == 1.0 && OwnAll([LEAF]) == 3.0;
    SubtreeOne(LEAF);
    SubtreeOne(DEEP);
    SubtreeOne(MID);
  }

  /** A tree on which the written totals pick another tip than the subtree weights do. */
  lemma WrittenChoiceDiffers()
    ensures Unique(Visit(FORKED)) && Linked(FORKED) && NonNegative(FORKED)
    ensures Tip(FORKED, Shallow) == LEAF && Tip(FORKED, Subtree) == DEEP
  {
    ForkedWellMade();
    ForkedWeights();
    assert [LEFT, RIGHT][..1] == [LEFT];
    BestOfOne(LEAF);
    BestOfOne(MID);
    BestOfOne(DEEP);
    BestOfOne(LEFT);
    assert Branch(RIGHT, Shallow) == [RIGHT, LEAF];
    assert Branch(MID, Subtree) == [MID, DEEP];
    assert Branch(LEFT, Subtree) == [LEFT, MID, DEEP];
    assert FORKED.kids == [LEFT, RIGHT];
    assert Best(FORKED.kids, Shallow) == RIGHT && Best(FORKED.kids, Subtree) == LEFT;
    assert Branch(FORKED, Shallow) == [FORKED, RIGHT, LEAF];
    assert Branch(FORKED, Subtree) == [FORKED, LEFT, MID, DEEP];
  }
}
