/** Saving and loading the tree: the writer visits with the explicit stack, the reader hangs
    each block behind the children its parent already has. */
module TxPowTreeStream {
  import opened Common
  import opened TxPowTreeModel

  // ---------------------------------------------------------------- ids

  function Ids(t: Tree): set<Id>
    decreases t, 1
  {
    {t.block.id} + IdsAll(t.kids)
  }

  function IdsAll(ts: seq<Tree>): set<Id>
    decreases ts, 0
  {
    if ts == [] then {} else Ids(ts[|ts| - 1]) + IdsAll(ts[..|ts| - 1])
  }

  /** No id occurs twice, told along the structure. */
  predicate Separate(t: Tree)
    decreases t, 1
  {
    t.block.id !in IdsAll(t.kids) && SeparateAll(t.kids)
  }

  predicate SeparateAll(ts: seq<Tree>)
    decreases ts, 0
  {
    ts == [] ||
    (var k, rest := ts[|ts| - 1], ts[..|ts| - 1];
     Separate(k) && SeparateAll(rest) && Ids(k) !! IdsAll(rest))
  }

  lemma {:induction false} IdsVisited(t: Tree)
    ensures forall i :: i in Ids(t) <==> exists n :: n in Visit(t) && n.block.id == i
    decreases t, 1
  {
    IdsAllVisited(t.kids);
    forall i ensures i in Ids(t) <==> exists n :: n in Visit(t) && n.block.id == i {
      if i in IdsAll(t.kids) {
        var n :| n in VisitAll(t.kids) && n.block.id == i;
        assert n in Visit(t);
      }
      if i == t.block.id {
        assert t in Visit(t);
      }
    }
  }

  lemma {:induction false} IdsAllVisited(ts: seq<Tree>)
    ensures forall i :: i in IdsAll(ts) <==> exists n :: n in VisitAll(ts) && n.block.id == i
    decreases ts, 0
  {
    if ts != [] {
      var k, rest := ts[|ts| - 1], ts[..|ts| - 1];
      IdsVisited(k);
      IdsAllVisited(rest);
      forall i ensures i in IdsAll(ts) <==> exists n :: n in VisitAll(ts) && n.block.id == i {
        if i in Ids(k) {
          var n :| n in Visit(k) && n.block.id == i;
          assert n in VisitAll(ts);
        }
        if i in IdsAll(rest) {
          var n :| n in VisitAll(rest) && n.block.id == i;
          assert n in VisitAll(ts);
        }
      }
    }
  }

  lemma {:induction false} UniqueSeparate(t: Tree)
    requires Unique(Visit(t))
    ensures Separate(t)
    decreases t, 1
  {
    var below := VisitAll(t.kids);
    assert Visit(t)[1..] == below;
    forall i, j | 0 <= i < j < |below| ensures below[i].block.id != below[j].block.id {
      assert below[i] == Visit(t)[i + 1] && below[j] == Visit(t)[j + 1];
    }
    UniqueSeparateAll(t.kids);
    IdsAllVisited(t.kids);
    forall n | n in below ensures n.block.id != t.block.id {
      var i :| 0 <= i < |below| && below[i] == n;
      assert Visit(t)[0] == t && Visit(t)[i + 1] == n;
    }
  }

  lemma UniqueParts(a: seq<Tree>, b: seq<Tree>)
    requires Unique(a + b)
    ensures Unique(a) && Unique(b)
    ensures forall m, n :: m in a && n in b ==> m.block.id != n.block.id
  {
    var all := a + b;
    forall i, j | 0 <= i < j < |a| ensures a[i].block.id != a[j].block.id {
      assert all[i] == a[i] && all[j] == a[j];
    }
    forall i, j | 0 <= i < j < |b| ensures b[i].block.id != b[j].block.id {
      assert all[|a| + i] == b[i] && all[|a| + j] == b[j];
    }
    forall m, n | m in a && n in b ensures m.block.id != n.block.id {
      var i :| 0 <= i < |a| && a[i] == m;
      var j :| 0 <= j < |b| && b[j] == n;
      assert all[i] == m && all[|a| + j] == n;
    }
  }

  lemma {:induction false} UniqueSeparateAll(ts: seq<Tree>)
    requires Unique(VisitAll(ts))
    ensures SeparateAll(ts)
    decreases ts, 0
  {
    if ts != [] {
      var k, rest := ts[|ts| - 1], ts[..|ts| - 1];
      UniqueParts(Visit(k), VisitAll(rest));
      UniqueSeparate(k);
      UniqueSeparateAll(rest);
      IdsVisited(k);
      IdsAllVisited(rest);
    }
  }

  lemma {:induction false} IdsOfOne(ts: seq<Tree>, i: nat)
    requires i < |ts|
    ensures Ids(ts[i]) <= IdsAll(ts)
  {
    if i < |ts| - 1 {
      IdsOfOne(ts[..|ts| - 1], i);
    }
  }

  /** Different children have no id in common, nor has anything below them. */
  lemma {:induction false} KidsApart(ts: seq<Tree>, i: nat, j: nat)
    requires SeparateAll(ts) && i < j < |ts|
    ensures Ids(ts[i]) !! Ids(ts[j])
  {
    var rest := ts[..|ts| - 1];
    if j < |ts| - 1 {
      KidsApart(rest, i, j);
    } else {
      IdsOfOne(rest, i);
    }
  }

  lemma {:induction false} KidSeparate(ts: seq<Tree>, i: nat)
    requires SeparateAll(ts) && i < |ts|
    ensures Separate(ts[i])
  {
    if i < |ts| - 1 {
      KidSeparate(ts[..|ts| - 1], i);
    }
  }

  /** Nodes below different children have different ids. */
  lemma NodesApart(ts: seq<Tree>, i: nat, j: nat, m: Tree, n: Tree)
    requires SeparateAll(ts) && i < |ts| && j < |ts| && i != j && m in Visit(ts[i]) && n in Visit(ts[j])
    ensures m.block.id != n.block.id
  {
    if i < j {
      KidsApart(ts, i, j);
    } else {
      KidsApart(ts, j, i);
    }
    VisitedId(ts[i], m);
    VisitedId(ts[j], n);
  }

  lemma VisitedId(t: Tree, m: Tree)
    requires m in Visit(t)
    ensures m.block.id in Ids(t)
  {
    IdsVisited(t);
  }

  // ---------------------------------------------------------------- mirror

  /** The same tree with every child list the other way round. */
  function Mirror(t: Tree): Tree
    decreases t, 1
  {
    Node(t.block, MirrorAll(t.kids))
  }

  function MirrorAll(ts: seq<Tree>): seq<Tree>
    decreases ts, 0
  {
    if ts == [] then [] else [Mirror(ts[|ts| - 1])] + MirrorAll(ts[..|ts| - 1])
  }

  lemma {:induction false} MirrorAllConcat(a: seq<Tree>, b: seq<Tree>)
    ensures MirrorAll(a + b) == MirrorAll(b) + MirrorAll(a)
    decreases |b|
  {
    if b == [] {
      assert a + b == a;
    } else {
      assert (a + b)[..|a + b| - 1] == a + b[..|b| - 1];
      MirrorAllConcat(a, b[..|b| - 1]);
    }
  }

  /** Mirroring twice is the identity. */
  lemma {:induction false} MirrorTwice(t: Tree)
    ensures Mirror(Mirror(t)) == t
    decreases t, 1
  {
    MirrorAllTwice(t.kids);
  }

  lemma {:induction false} MirrorAllTwice(ts: seq<Tree>)
    ensures MirrorAll(MirrorAll(ts)) == ts
    decreases ts, 0
  {
    if ts != [] {
      var k, rest := ts[|ts| - 1], ts[..|ts| - 1];
      MirrorTwice(k);
      MirrorAllTwice(rest);
      MirrorAllConcat([Mirror(k)], MirrorAll(rest));
      assert [Mirror(k)][..0] == [];
      assert MirrorAll([Mirror(k)]) == [k];
      assert ts == rest + [k];
    }
  }

  lemma {:induction false} MirrorIds(t: Tree)
    ensures Ids(Mirror(t)) == Ids(t)
    decreases t, 1
  {
    MirrorAllIds(t.kids);
  }

  lemma {:induction false} MirrorAllIds(ts: seq<Tree>)
    ensures IdsAll(MirrorAll(ts)) == IdsAll(ts)
    decreases ts, 0
  {
    if ts != [] {
      var k, rest := ts[|ts| - 1], ts[..|ts| - 1];
      MirrorIds(k);
      MirrorAllIds(rest);
      IdsAllConcat([Mirror(k)], MirrorAll(rest));
      IdsAllOne(Mirror(k));
    }
  }

  lemma {:induction false} IdsAllConcat(a: seq<Tree>, b: seq<Tree>)
    ensures IdsAll(a + b) == IdsAll(a) + IdsAll(b)
    decreases |b|
  {
    if b == [] {
      assert a + b == a;
    } else {
      assert (a + b)[..|a + b| - 1] == a + b[..|b| - 1];
      IdsAllConcat(a, b[..|b| - 1]);
    }
  }

  lemma IdsAllOne(t: Tree)
    ensures IdsAll([t]) == Ids(t)
  {
    assert [t][..0] == [];
  }

  // ---------------------------------------------------------------- the stream

  datatype Token = Count(n: int) | Record(block: Block)

  function Blocks(nodes: seq<Tree>): (r: seq<Block>)
    ensures |r| == |nodes| && forall i :: 0 <= i < |r| ==> r[i] == nodes[i].block
  {
    if nodes == [] then [] else [nodes[0].block] + Blocks(nodes[1..])
  }

  lemma {:induction false} BlocksConcat(a: seq<Tree>, b: seq<Tree>)
    ensures Blocks(a + b) == Blocks(a) + Blocks(b)
  {
  }

  /** addChildNode on the node with the given id. */
  function Insert(t: Tree, id: Id, b: Block): Tree
    decreases t, 1
  {
    var kids := InsertAll(t.kids, id, b);
    Node(t.block, if t.block.id == id then kids + [Node(b, [])] else kids)
  }

  function InsertAll(ts: seq<Tree>, id: Id, b: Block): (r: seq<Tree>)
    ensures |r| == |ts|
    decreases ts, 0
  {
    if ts == [] then [] else InsertAll(ts[..|ts| - 1], id, b) + [Insert(ts[|ts| - 1], id, b)]
  }

  /** The read loop, each block going to the parent it names. */
  function Load(t: Tree, blocks: seq<Block>): Tree
    decreases |blocks|
  {
    if blocks == [] then t else Load(Insert(t, blocks[0].parentId, blocks[0]), blocks[1..])
  }

  lemma {:induction false} LoadConcat(t: Tree, a: seq<Block>, b: seq<Block>)
    ensures Load(t, a + b) == Load(Load(t, a), b)
    decreases |a|
  {
    if a == [] {
      assert a + b == b;
    } else {
      assert (a + b)[1..] == a[1..] + b;
      LoadConcat(Insert(t, a[0].parentId, a[0]), a[1..], b);
    }
  }

  lemma {:induction false} InsertAbsent(t: Tree, id: Id, b: Block)
    requires id !in Ids(t)
    ensures Insert(t, id, b) == t
    decreases t, 1
  {
    InsertAllAbsent(t.kids, id, b);
  }

  lemma {:induction false} InsertAllAbsent(ts: seq<Tree>, id: Id, b: Block)
    requires id !in IdsAll(ts)
    ensures InsertAll(ts, id, b) == ts
    decreases ts, 0
  {
    if ts != [] {
      InsertAbsent(ts[|ts| - 1], id, b);
      InsertAllAbsent(ts[..|ts| - 1], id, b);
    }
  }

  /** Blocks whose parents are elsewhere only change the last child. */
  lemma {:induction false} LoadIntoLast(top: Block, kids: seq<Tree>, last: Tree, blocks: seq<Block>)
    requires forall b :: b in blocks ==> b.parentId != top.id && b.parentId !in IdsAll(kids)
    ensures Load(Node(top, kids + [last]), blocks) == Node(top, kids + [Load(last, blocks)])
    decreases |blocks|
  {
    if blocks != [] {
      var b := blocks[0];
      var all := kids + [last];
      assert all[..|all| - 1] == kids && all[|all| - 1] == last;
      InsertAllAbsent(kids, b.parentId, b);
      assert Insert(Node(top, all), b.parentId, b) == Node(top, kids + [Insert(last, b.parentId, b)]);
      LoadIntoLast(top, kids, Insert(last, b.parentId, b), blocks[1..]);
    }
  }

  lemma {:induction false} ParentsInside(t: Tree)
    requires Linked(t)
    ensures forall n :: n in VisitAll(t.kids) ==> n.block.parentId in Ids(t)
    decreases t, 1
  {
    ParentsInsideAll(t.block, t.kids);
  }

  lemma {:induction false} ParentsInsideAll(top: Block, ts: seq<Tree>)
    requires LinkedAll(top, ts)
    ensures forall n :: n in VisitAll(ts) ==> n.block.parentId == top.id || n.block.parentId in IdsAll(ts)
    decreases ts, 0
  {
    if ts != [] {
      ParentsInside(ts[|ts| - 1]);
      ParentsInsideAll(top, ts[..|ts| - 1]);
    }
  }

  /** The records of one child and its descendants build that child behind the others. */
  lemma LoadOneChild(top: Block, done: seq<Tree>, k: Tree)
    requires Linked(k) && k.block.parentId == top.id
    requires top.id !in IdsAll(done) && top.id !in Ids(k) && IdsAll(done) !! Ids(k)
    ensures Load(Node(top, done), Blocks(Visit(k))) ==
            Node(top, done + [Load(Node(k.block, []), Blocks(VisitAll(k.kids)))])
  {
    var below := Blocks(VisitAll(k.kids));
    BlocksConcat([k], VisitAll(k.kids));
    assert Blocks(Visit(k)) == [k.block] + below;
    assert ([k.block] + below)[1..] == below;
    InsertAllAbsent(done, top.id, k.block);
    ParentsInside(k);
    LoadIntoLast(top, done, Node(k.block, []), below);
  }

  lemma {:induction false} LoadTree(t: Tree)
    requires Linked(t) && Separate(t)
    ensures Load(Node(t.block, []), Blocks(VisitAll(t.kids))) == Mirror(t)
    decreases t, 1
  {
    LoadChildren(t.block, [], t.kids);
    assert [] + MirrorAll(t.kids) == MirrorAll(t.kids);
  }

  lemma {:induction false} LoadChildren(top: Block, done: seq<Tree>, ts: seq<Tree>)
    requires LinkedAll(top, ts) && SeparateAll(ts)
    requires top.id !in IdsAll(done) && top.id !in IdsAll(ts) && IdsAll(done) !! IdsAll(ts)
    ensures Load(Node(top, done), Blocks(VisitAll(ts))) == Node(top, done + MirrorAll(ts))
    decreases ts, 0
  {
    if ts == [] {
      assert done + [] == done;
    } else {
      var k, rest := ts[|ts| - 1], ts[..|ts| - 1];
      LoadTree(k);
      LoadOneChild(top, done, k);
      LoadSplit(Node(top, done), ts);
      MirrorLastIds(done, k);
      LoadChildren(top, done + [Mirror(k)], rest);
      Pushed(done, Mirror(k), MirrorAll(rest));
    }
  }

  lemma Pushed(done: seq<Tree>, k: Tree, rest: seq<Tree>)
    ensures done + [k] + rest == done + ([k] + rest)
  {
  }

  lemma LoadSplit(t: Tree, ts: seq<Tree>)
    requires ts != []
    ensures Load(t, Blocks(VisitAll(ts))) ==
            Load(Load(t, Blocks(Visit(ts[|ts| - 1]))), Blocks(VisitAll(ts[..|ts| - 1])))
  {
    var a, b := Visit(ts[|ts| - 1]), VisitAll(ts[..|ts| - 1]);
    BlocksConcat(a, b);
    LoadConcat(t, Blocks(a), Blocks(b));
  }

  lemma MirrorLastIds(done: seq<Tree>, k: Tree)
    ensures IdsAll(done + [Mirror(k)]) == IdsAll(done) + Ids(k)
  {
    MirrorIds(k);
    IdsAllConcat(done, [Mirror(k)]);
    IdsAllOne(Mirror(k));
  }

  /** A parent is read before any of its children. */
  predicate ParentsFirst(blocks: seq<Block>) {
    forall j :: 0 < j < |blocks| ==> ParentBefore(blocks, j)
  }

  predicate ParentBefore(blocks: seq<Block>, j: nat)
    requires j < |blocks|
  {
    exists i :: 0 <= i < j && blocks[i].id == blocks[j].parentId
  }

  /** Load after save: the same tree with every child list reversed. */
  lemma SaveLoad(t: Tree)
    requires Unique(Visit(t)) && Linked(t)
    ensures Visit(t)[0] == t
    ensures Load(Node(t.block, []), Blocks(Visit(t))[1..]) == Mirror(t)
  {
    UniqueSeparate(t);
    LoadTree(t);
    BlocksConcat([t], VisitAll(t.kids));
    assert Blocks(Visit(t))[1..] == Blocks(VisitAll(t.kids));
  }

  lemma {:induction false} VisitParentsFirst(t: Tree)
    requires Linked(t)
    ensures ParentsFirst(Blocks(Visit(t)))
    decreases t, 1
  {
    VisitAllParentsFirst(t.block, t.kids);
    BlocksConcat([t], VisitAll(t.kids));
    assert Blocks(Visit(t)) == [t.block] + Blocks(VisitAll(t.kids));
  }

  lemma {:induction false} VisitAllParentsFirst(top: Block, ts: seq<Tree>)
    requires LinkedAll(top, ts)
    ensures ParentsFirst([top] + Blocks(VisitAll(ts)))
    decreases ts, 0
  {
    if ts != [] {
      var k, rest := ts[|ts| - 1], ts[..|ts| - 1];
      VisitParentsFirst(k);
      VisitAllParentsFirst(top, rest);
      BlocksConcat(Visit(k), VisitAll(rest));
      ParentsFirstJoin(top, Blocks(Visit(k)), Blocks(VisitAll(rest)));
      assert [top] + Blocks(VisitAll(ts)) == [top] + Blocks(Visit(k)) + Blocks(VisitAll(rest));
    }
  }

  lemma ParentsFirstJoin(top: Block, a: seq<Block>, b: seq<Block>)
    requires a != [] && a[0].parentId == top.id && ParentsFirst(a) && ParentsFirst([top] + b)
    ensures ParentsFirst([top] + a + b)
  {
    var all, q := [top] + a + b, [top] + b;
    forall j | 0 < j < |all| ensures ParentBefore(all, j) {
      if j == 1 {
        assert all[0] == top && all[1] == a[0];
      } else if j <= |a| {
        assert ParentBefore(a, j - 1);
        var i :| 0 <= i < j - 1 && a[i].id == a[j - 1].parentId;
        assert all[i + 1] == a[i] && all[j] == a[j - 1];
      } else {
        assert ParentBefore(q, j - |a|);
        var i :| 0 <= i < j - |a| && q[i].id == q[j - |a|].parentId;
        assert all[j] == q[j - |a|] && all[if i == 0 then 0 else i + |a|] == q[i];
      }
    }
  }

  lemma {:induction false} MirrorLinked(t: Tree)
    requires Linked(t)
    ensures Linked(Mirror(t))
    decreases t, 1
  {
    MirrorAllLinked(t.block, t.kids);
  }

  lemma {:induction false} MirrorAllLinked(top: Block, ts: seq<Tree>)
    requires LinkedAll(top, ts)
    ensures LinkedAll(top, MirrorAll(ts))
    decreases ts, 0
  {
    if ts != [] {
      var k, rest := ts[|ts| - 1], ts[..|ts| - 1];
      MirrorLinked(k);
      MirrorAllLinked(top, rest);
      LinkedConcat(top, [Mirror(k)], MirrorAll(rest));
    }
  }

  lemma {:induction false} LinkedConcat(top: Block, a: seq<Tree>, b: seq<Tree>)
    requires LinkedAll(top, b) && |a| == 1
    requires a[0].block.parentId == top.id && a[0].block.number > top.number && Linked(a[0])
    ensures LinkedAll(top, a + b)
    decreases |b|
  {
    if b == [] {
      assert a + b == a && a[..0] == [];
    } else {
      assert (a + b)[..|a + b| - 1] == a + b[..|b| - 1];
      LinkedConcat(top, a, b[..|b| - 1]);
    }
  }

  lemma {:induction false} MirrorSeparate(t: Tree)
    requires Separate(t)
    ensures Separate(Mirror(t))
    decreases t, 1
  {
    MirrorAllIds(t.kids);
    MirrorAllSeparate(t.kids);
  }

  lemma {:induction false} MirrorAllSeparate(ts: seq<Tree>)
    requires SeparateAll(ts)
    ensures SeparateAll(MirrorAll(ts))
    decreases ts, 0
  {
    if ts != [] {
      var k, rest := ts[|ts| - 1], ts[..|ts| - 1];
      MirrorSeparate(k);
      MirrorAllSeparate(rest);
      MirrorIds(k);
      MirrorAllIds(rest);
      SeparateConcat(Mirror(k), MirrorAll(rest));
    }
  }

  lemma {:induction false} SeparateConcat(k: Tree, b: seq<Tree>)
    requires Separate(k) && SeparateAll(b) && Ids(k) !! IdsAll(b)
    ensures SeparateAll([k] + b)
    decreases |b|
  {
    if b == [] {
      assert [k] + b == [k] && [k][..0] == [];
    } else {
      assert ([k] + b)[..|[k] + b| - 1] == [k] + b[..|b| - 1];
      SeparateConcat(k, b[..|b| - 1]);
      IdsAllConcat([k], b[..|b| - 1]);
      IdsAllOne(k);
    }
  }

  /** Two round trips are the identity. */
  lemma SaveLoadTwice(t: Tree)
    requires Unique(Visit(t)) && Linked(t)
    ensures
      var once := Load(Node(t.block, []), Blocks(Visit(t))[1..]);
      once.block == t.block && Load(Node(once.block, []), Blocks(Visit(once))[1..]) == t
  {
    SaveLoad(t);
    UniqueSeparate(t);
    MirrorLinked(t);
    MirrorSeparate(t);
    var m := Mirror(t);
    LoadTree(m);
    BlocksConcat([m], VisitAll(m.kids));
    assert Blocks(Visit(m))[1..] == Blocks(VisitAll(m.kids));
    MirrorTwice(t);
  }

  // ---------------------------------------------------------------- the tip

  /** The descent that prefers the last of the heaviest children. */
  function LastBest(ts: seq<Tree>, w: Tree -> real): Tree
    requires ts != []
  {
    if |ts| == 1 then ts[0]
    else
      var b := LastBest(ts[..|ts| - 1], w);
      if w(ts[|ts| - 1]) >= w(b) then ts[|ts| - 1] else b
  }

  lemma {:induction false} LastBestIn(ts: seq<Tree>, w: Tree -> real)
    requires ts != []
    ensures LastBest(ts, w) in ts && forall k :: k in ts ==> w(k) <= w(LastBest(ts, w))
  {
    if |ts| > 1 {
      LastBestIn(ts[..|ts| - 1], w);
      assert ts == ts[..|ts| - 1] + [ts[|ts| - 1]];
    }
  }

  function LastBranch(t: Tree, w: Tree -> real): (r: seq<Tree>)
    ensures r != []
    decreases t
  {
    if t.kids == [] then [t]
    else
      LastBestIn(t.kids, w);
      [t] + LastBranch(LastBest(t.kids, w), w)
  }

  lemma {:induction false} OwnAllConcat(a: seq<Tree>, b: seq<Tree>)
    ensures OwnAll(a + b) == OwnAll(a) + OwnAll(b)
  {
    if a == [] {
      assert a + b == b;
    } else {
      assert (a + b)[1..] == a[1..] + b;
      OwnAllConcat(a[1..], b);
    }
  }

  /** A loaded node has the total of the saved one. */
  lemma {:induction false} MirrorOwn(ts: seq<Tree>)
    ensures OwnAll(MirrorAll(ts)) == OwnAll(ts)
  {
    if ts != [] {
      var k, rest := ts[|ts| - 1], ts[..|ts| - 1];
      MirrorOwn(rest);
      OwnAllConcat([Mirror(k)], MirrorAll(rest));
      OwnAllConcat(rest, [k]);
      assert ts == rest + [k];
      assert [k][1..] == [] && [Mirror(k)][1..] == [];
    }
  }

  lemma MirrorShallow(t: Tree)
    ensures Shallow(Mirror(t)) == Shallow(t)
  {
    MirrorOwn(t.kids);
  }

  lemma {:induction false} BestOfCons(k: Tree, ts: seq<Tree>, w: Tree -> real)
    requires ts != []
    ensures Best([k] + ts, w) == if w(Best(ts, w)) > w(k) then Best(ts, w) else k
  {
    assert ([k] + ts)[..|[k] + ts| - 1] == [k] + ts[..|ts| - 1];
    if |ts| == 1 {
      assert [k] + ts[..0] == [k];
    } else {
      BestOfCons(k, ts[..|ts| - 1], w);
    }
  }

  lemma {:induction false} MirrorBest(ts: seq<Tree>)
    requires ts != []
    ensures MirrorAll(ts) != [] && Best(MirrorAll(ts), Shallow) == Mirror(LastBest(ts, Shallow))
  {
    var k, rest := ts[|ts| - 1], ts[..|ts| - 1];
    if rest == [] {
      assert MirrorAll(ts) == [Mirror(k)];
    } else {
      MirrorBest(rest);
      BestOfCons(Mirror(k), MirrorAll(rest), Shallow);
      MirrorShallow(k);
      MirrorShallow(LastBest(rest, Shallow));
    }
  }

  /** The branch chosen after a reload is the one preferring the last of equally heavy
      children before it. */
  lemma {:induction false} ReloadedBranch(t: Tree)
    ensures Blocks(Branch(Mirror(t), Shallow)) == Blocks(LastBranch(t, Shallow))
    decreases t
  {
    if t.kids != [] {
      MirrorBest(t.kids);
      LastBestIn(t.kids, Shallow);
      BestIn(Mirror(t).kids, Shallow);
      var k := LastBest(t.kids, Shallow);
      ReloadedBranch(k);
      BlocksConcat([Mirror(t)], Branch(Mirror(k), Shallow));
      BlocksConcat([t], LastBranch(k, Shallow));
    }
  }

  /** Two of the children share a total that none exceeds. */
  predicate TieAtTop(ts: seq<Tree>) {
    exists i, j :: 0 <= i < j < |ts| && Shallow(ts[i]) == Shallow(ts[j]) && Heaviest(ts, i)
  }

  predicate Heaviest(ts: seq<Tree>, i: nat)
    requires i < |ts|
  {
    forall k :: 0 <= k < |ts| ==> Shallow(ts[k]) <= Shallow(ts[i])
  }

  /** Nowhere on the way to the tip do two children share the greatest total. */
  predicate NoTieOnBranch(t: Tree)
    decreases t
  {
    t.kids == [] || (BestIn(t.kids, Shallow); !TieAtTop(t.kids) && NoTieOnBranch(Best(t.kids, Shallow)))
  }

  /** The child is not below those before it and strictly above those after it. */
  predicate Trails(ts: seq<Tree>, i: nat)
    requires i < |ts|
  {
    Heaviest(ts, i) && forall j :: i < j < |ts| ==> Shallow(ts[j]) < Shallow(ts[i])
  }

  lemma {:induction false} LastBestTrails(ts: seq<Tree>) returns (i: nat)
    requires ts != []
    ensures i < |ts| && Trails(ts, i) && LastBest(ts, Shallow) == ts[i]
  {
    if |ts| == 1 {
      i := 0;
    } else {
      var rest := ts[..|ts| - 1];
      i := LastBestTrails(rest);
      assert forall j :: 0 <= j < |rest| ==> ts[j] == rest[j];
      if Shallow(ts[|ts| - 1]) >= Shallow(rest[i]) {
        i := |ts| - 1;
      }
    }
  }

  /** Among different children the first and the last of the heaviest are the same one if and
      only if no two share the greatest total. */
  lemma NoTieMeaning(ts: seq<Tree>)
    requires ts != [] && forall i, j :: 0 <= i < j < |ts| ==> ts[i] != ts[j]
    ensures Best(ts, Shallow) == LastBest(ts, Shallow) <==> !TieAtTop(ts)
  {
    var first := BestLeads(ts, Shallow);
    var last := LastBestTrails(ts);
    if first != last {
      assert first < last && Heaviest(ts, first);
      assert Shallow(ts[first]) == Shallow(ts[last]);
    }
    if TieAtTop(ts) {
      TieSplits(ts, first, last);
    }
  }

  lemma TieSplits(ts: seq<Tree>, first: nat, last: nat)
    requires TieAtTop(ts) && first < |ts| && last < |ts| && Leads(ts, first, Shallow) && Trails(ts, last)
    ensures first < last
  {
    var i, j :| 0 <= i < j < |ts| && Shallow(ts[i]) == Shallow(ts[j]) && Heaviest(ts, i);
    assert Shallow(ts[first]) <= Shallow(ts[i]) && Shallow(ts[last]) >= Shallow(ts[j]);
    assert first <= i && j <= last;
  }

  function LastTip(t: Tree): Tree {
    LastBranch(t, Shallow)[|LastBranch(t, Shallow)| - 1]
  }

  /** Without ties both descents take the same branch; with one they end at different tips. */
  lemma {:induction false} DescentsAgree(t: Tree)
    requires Separate(t)
    ensures NoTieOnBranch(t) ==> LastBranch(t, Shallow) == Branch(t, Shallow)
    ensures LastTip(t).block.id == Tip(t, Shallow).block.id ==> NoTieOnBranch(t)
    ensures LastTip(t) in Visit(t)
    decreases t
  {
    if t.kids != [] {
      var ts := t.kids;
      KidsDiffer(ts);
      NoTieMeaning(ts);
      TipStep(t, Shallow);
      var i := BestLeads(ts, Shallow);
      var j := LastBestTrails(ts);
      KidSeparate(ts, i);
      KidSeparate(ts, j);
      DescentsAgree(ts[i]);
      DescentsAgree(ts[j]);
      assert LastTip(t) == LastTip(ts[j]);
      VisitOfKid(ts, ts[j]);
      if i != j {
        TipVisited(ts[i], Shallow);
        NodesApart(ts, i, j, Tip(ts[i], Shallow), LastTip(ts[j]));
      }
    }
  }

  lemma KidsDiffer(ts: seq<Tree>)
    requires SeparateAll(ts)
    ensures forall i, j :: 0 <= i < j < |ts| ==> ts[i] != ts[j]
  {
    forall i, j | 0 <= i < j < |ts| ensures ts[i] != ts[j] {
      KidsApart(ts, i, j);
      assert ts[i].block.id in Ids(ts[i]);
    }
  }

  /** A reload leaves the tip, and the whole heaviest branch, as they were exactly when no two
      children on the way to the tip share the greatest total. */
  lemma ReloadKeepsTipExactly(t: Tree)
    requires Unique(Visit(t))
    ensures Tip(Mirror(t), Shallow).block == Tip(t, Shallow).block <==> NoTieOnBranch(t)
    ensures Blocks(Branch(Mirror(t), Shallow)) == Blocks(Branch(t, Shallow)) <==> NoTieOnBranch(t)
  {
    UniqueSeparate(t);
    ReloadedBranch(t);
    DescentsAgree(t);
    var a, b, c := Branch(Mirror(t), Shallow), LastBranch(t, Shallow), Branch(t, Shallow);
    assert Blocks(a)[|a| - 1] == a[|a| - 1].block == b[|b| - 1].block;
    assert Blocks(c)[|c| - 1] == c[|c| - 1].block;
  }

  // Two leaves of equal weight below one root.
  const FIRST := Node(Block("b", "a", 2, 1.0), [])
  const SECOND := Node(Block("c", "a", 2, 1.0), [])
  const TIED := Node(Block("a", "0x00", 1, 1.0), [FIRST, SECOND])

  lemma TiedWellMade()
    ensures Unique(Visit(TIED)) && Linked(TIED)
  {
    VisitAllOne(FIRST);
    LinkedOne(TIED.block, FIRST);
    assert FIRST.kids == [] && SECOND.kids == [] && TIED.kids == [FIRST, SECOND];
    assert [FIRST, SECOND][..1] == [FIRST];
    assert Visit(SECOND) == [SECOND] && Visit(FIRST) == [FIRST];
    assert Visit(TIED) == [TIED] + (Visit(SECOND) + VisitAll([FIRST]));
  }

  lemma TiedMirror()
    ensures Mirror(TIED) == Node(TIED.block, [SECOND, FIRST])
  {
    assert FIRST.kids == [] && SECOND.kids == [];
    assert Mirror(FIRST) == FIRST && Mirror(SECOND) == SECOND;
    var ts := TIED.kids;
    assert |ts| == 2 && ts[|ts| - 1] == SECOND && ts[..|ts| - 1] == [FIRST];
    assert [FIRST][..0] == [];
    assert MirrorAll(ts) == [Mirror(SECOND)] + MirrorAll([FIRST]) && MirrorAll([FIRST]) == [Mirror(FIRST)] + MirrorAll([]);
  }

  /** A tree whose tip a reload moves. */
  lemma ReloadMovesTip()
    ensures Unique(Visit(TIED)) && Linked(TIED)
    ensures Tip(TIED, Shallow) == FIRST && Tip(Mirror(TIED), Shallow) == SECOND
  {
    TiedWellMade();
    TiedMirror();
    BestOfTwo(FIRST, SECOND, Shallow);
    BestOfTwo(SECOND, FIRST, Shallow);
    assert Shallow(FIRST) == 1.0 && Shallow(SECOND) == 1.0;
    TipStep(TIED, Shallow);
    TipStep(Mirror(TIED), Shallow);
  }
}
