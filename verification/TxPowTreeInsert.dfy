/** What hanging one more block into the tree, or cutting it at a node, does to the tree as a
    whole. */
module TxPowTreeInsert {
  import opened Common
  import opened TxPowTreeModel
  import opened TxPowTreeStream

  /** What insertion of blocks keeps: distinct ids, children naming and numbered above
      their parents. */
  predicate WellMade(t: Tree) {
    Separate(t) && Linked(t)
  }

  /** Distinct ids, told of the list of all nodes. */
  lemma WellMadeMeans(t: Tree)
    ensures WellMade(t) <==> Unique(Visit(t)) && Linked(t)
  {
    if Separate(t) {
      SeparateUnique(t);
    }
    if Unique(Visit(t)) {
      UniqueSeparate(t);
    }
  }

  // ---------------------------------------------------------------- unique and separate

  lemma {:induction false} SeparateUnique(t: Tree)
    requires Separate(t)
    ensures Unique(Visit(t))
    decreases t, 1
  {
    SeparateAllUnique(t.kids);
    IdsAllVisited(t.kids);
    var v, below := Visit(t), VisitAll(t.kids);
    forall i, j | 0 <= i < j < |v| ensures v[i].block.id != v[j].block.id {
      assert v[j] == below[j - 1] && below[j - 1] in below;
      if i > 0 {
        assert v[i] == below[i - 1];
      }
    }
  }

  lemma {:induction false} SeparateAllUnique(ts: seq<Tree>)
    requires SeparateAll(ts)
    ensures Unique(VisitAll(ts))
    decreases ts, 0
  {
    if ts != [] {
      var k, rest := ts[|ts| - 1], ts[..|ts| - 1];
      SeparateUnique(k);
      SeparateAllUnique(rest);
      IdsVisited(k);
      IdsAllVisited(rest);
      var a, b := Visit(k), VisitAll(rest);
      forall m, n | m in a && n in b ensures m.block.id != n.block.id {
        assert m.block.id in Ids(k);
        assert n.block.id in IdsAll(rest);
      }
      UniqueJoin(a, b);
    }
  }

  lemma UniqueJoin(a: seq<Tree>, b: seq<Tree>)
    requires Unique(a) && Unique(b) && forall m, n :: m in a && n in b ==> m.block.id != n.block.id
    ensures Unique(a + b)
  {
    forall i, j | 0 <= i < j < |a + b| ensures (a + b)[i].block.id != (a + b)[j].block.id {
      if i < |a| <= j {
        assert (a + b)[i] in a && (a + b)[j] in b;
      } else if i >= |a| {
        assert (a + b)[i] == b[i - |a|] && (a + b)[j] == b[j - |a|];
      }
    }
  }

  lemma MirrorWellMade(t: Tree)
    requires WellMade(t)
    ensures WellMade(Mirror(t))
  {
    MirrorSeparate(t);
    MirrorLinked(t);
  }

  // ---------------------------------------------------------------- inserting

  lemma {:induction false} InsertAllEach(ts: seq<Tree>, id: Id, b: Block)
    ensures forall j :: 0 <= j < |ts| ==> InsertAll(ts, id, b)[j] == Insert(ts[j], id, b)
  {
    if ts != [] {
      InsertAllEach(ts[..|ts| - 1], id, b);
    }
  }

  /** Every old node is still there, with the block added below it if it was below. */
  lemma {:induction false} InsertKeepsNodes(t: Tree, id: Id, b: Block, m: Tree)
    requires m in Visit(t)
    ensures Insert(m, id, b) in Visit(Insert(t, id, b))
    decreases t
  {
    if m != t {
      var k := VisitAllOrigin(t.kids, m);
      InsertKeepsNodes(k, id, b, m);
      var j :| 0 <= j < |t.kids| && t.kids[j] == k;
      InsertAllEach(t.kids, id, b);
      var t' := Insert(t, id, b);
      assert t'.kids[j] == Insert(k, id, b);
      VisitOfKid(t'.kids, t'.kids[j]);
    }
  }

  /** And so is the new one. */
  lemma InsertAdds(t: Tree, id: Id, b: Block, m: Tree)
    requires m in Visit(t) && m.block.id == id
    ensures Node(b, []) in Visit(Insert(t, id, b))
  {
    InsertKeepsNodes(t, id, b, m);
    var m' := Insert(m, id, b);
    assert m'.kids[|m'.kids| - 1] == Node(b, []);
    KidVisited(Insert(t, id, b), m', Node(b, []));
  }

  lemma {:induction false} InsertIds(t: Tree, id: Id, b: Block)
    ensures Ids(Insert(t, id, b)) == Ids(t) + if id in Ids(t) then {b.id} else {}
    decreases t, 1
  {
    InsertAllIds(t.kids, id, b);
    if t.block.id == id {
      IdsAllConcat(InsertAll(t.kids, id, b), [Node(b, [])]);
      IdsAllOne(Node(b, []));
    }
  }

  lemma {:induction false} InsertAllIds(ts: seq<Tree>, id: Id, b: Block)
    ensures IdsAll(InsertAll(ts, id, b)) == IdsAll(ts) + if id in IdsAll(ts) then {b.id} else {}
    decreases ts, 0
  {
    if ts != [] {
      var k, rest := ts[|ts| - 1], ts[..|ts| - 1];
      InsertIds(k, id, b);
      InsertAllIds(rest, id, b);
      IdsAllConcat(InsertAll(rest, id, b), [Insert(k, id, b)]);
      IdsAllOne(Insert(k, id, b));
    }
  }

  lemma {:induction false} InsertSeparate(t: Tree, id: Id, b: Block)
    requires Separate(t) && b.id !in Ids(t)
    ensures Separate(Insert(t, id, b))
    decreases t, 1
  {
    InsertAllSeparate(t.kids, id, b);
    InsertAllIds(t.kids, id, b);
    if t.block.id == id {
      AppendSeparate(InsertAll(t.kids, id, b), Node(b, []));
      IdsAllConcat(InsertAll(t.kids, id, b), [Node(b, [])]);
      IdsAllOne(Node(b, []));
    }
  }

  lemma {:induction false} InsertAllSeparate(ts: seq<Tree>, id: Id, b: Block)
    requires SeparateAll(ts) && b.id !in IdsAll(ts)
    ensures SeparateAll(InsertAll(ts, id, b))
    decreases ts, 0
  {
    if ts != [] {
      var k, rest := ts[|ts| - 1], ts[..|ts| - 1];
      InsertSeparate(k, id, b);
      InsertAllSeparate(rest, id, b);
      InsertIds(k, id, b);
      InsertAllIds(rest, id, b);
      AppendSeparate(InsertAll(rest, id, b), Insert(k, id, b));
    }
  }

  lemma AppendSeparate(ts: seq<Tree>, k: Tree)
    requires SeparateAll(ts) && Separate(k) && Ids(k) !! IdsAll(ts)
    ensures SeparateAll(ts + [k])
  {
    assert (ts + [k])[..|ts|] == ts;
  }

  lemma {:induction false} InsertLinked(t: Tree, b: Block)
    requires Linked(t) && forall n :: n in Visit(t) && n.block.id == b.parentId ==> b.number > n.block.number
    ensures Linked(Insert(t, b.parentId, b))
    decreases t, 1
  {
    assert t in Visit(t);
    InsertAllLinked(t.block, t.kids, b);
    if t.block.id == b.parentId {
      var kids := InsertAll(t.kids, b.parentId, b);
      AppendLinked(t.block, kids, Node(b, []));
    }
  }

  lemma AppendLinked(top: Block, ts: seq<Tree>, k: Tree)
    requires LinkedAll(top, ts) && Linked(k)
    requires k.block.parentId == top.id && k.block.number > top.number
    ensures LinkedAll(top, ts + [k])
  {
    assert (ts + [k])[..|ts|] == ts;
  }

  lemma {:induction false} InsertAllLinked(top: Block, ts: seq<Tree>, b: Block)
    requires LinkedAll(top, ts) && forall n :: n in VisitAll(ts) && n.block.id == b.parentId ==> b.number > n.block.number
    ensures LinkedAll(top, InsertAll(ts, b.parentId, b))
    decreases ts, 0
  {
    if ts != [] {
      var k, rest := ts[|ts| - 1], ts[..|ts| - 1];
      InsertLinked(k, b);
      InsertAllLinked(top, rest, b);
      AppendLinked(top, InsertAll(rest, b.parentId, b), Insert(k, b.parentId, b));
    }
  }

  /** A new id, hung below the parent it names and numbered above it, leaves the tree well
      made. */
  lemma InsertWellMade(t: Tree, b: Block)
    requires WellMade(t) && b.id !in Ids(t)
    requires forall n :: n in Visit(t) && n.block.id == b.parentId ==> b.number > n.block.number
    ensures WellMade(Insert(t, b.parentId, b))
  {
    InsertSeparate(t, b.parentId, b);
    InsertLinked(t, b);
  }

  // ---------------------------------------------------------------- cutting

  lemma {:induction false} SeparateKid(ts: seq<Tree>, k: Tree)
    requires SeparateAll(ts) && k in ts
    ensures Separate(k)
  {
    if k != ts[|ts| - 1] {
      SeparateKid(ts[..|ts| - 1], k);
    }
  }

  lemma {:induction false} SubtreeWellMade(t: Tree, n: Tree)
    requires WellMade(t) && n in Visit(t)
    ensures WellMade(n)
    decreases t
  {
    if n != t {
      var k := VisitAllOrigin(t.kids, n);
      SeparateKid(t.kids, k);
      LinkedKid(t.block, t.kids, k);
      SubtreeWellMade(k, n);
    }
  }

  // ---------------------------------------------------------------- parents

  /** Every node but the root is a child of exactly one node. */
  lemma {:induction false} ParentExists(t: Tree, n: Tree) returns (p: Tree)
    requires n in Visit(t) && n != t
    ensures p in Visit(t) && n in p.kids
    decreases t
  {
    var k := VisitAllOrigin(t.kids, n);
    if n == k {
      p := t;
    } else {
      p := ParentExists(k, n);
      VisitOfKid(t.kids, k);
    }
  }

  lemma ParentIsOne(t: Tree, p: Tree, q: Tree, n: Tree)
    requires WellMade(t) && p in Visit(t) && q in Visit(t) && n in p.kids && n in q.kids
    ensures p == q
  {
    NumbersRise(t, p);
    NumbersRise(t, q);
    LinkedKid(p.block, p.kids, n);
    LinkedKid(q.block, q.kids, n);
    SeparateUnique(t);
    IdsTellNodes(Visit(t), p, q);
  }

  lemma RootHasNoParent(t: Tree, q: Tree)
    requires Linked(t) && q in Visit(t)
    ensures t !in q.kids
  {
    if t in q.kids {
      NumbersRise(t, q);
      LinkedKid(q.block, q.kids, t);
    }
  }

  /** The parent a saved block names stands before it and is numbered below it. */
  lemma RecordParent(t: Tree, j: nat) returns (i: nat)
    requires WellMade(t) && 0 < j < |Visit(t)|
    ensures i < j && Visit(t)[i].block.id == Visit(t)[j].block.parentId
    ensures Visit(t)[i].block.number < Visit(t)[j].block.number
  {
    var v := Visit(t);
    SeparateUnique(t);
    VisitParentsFirst(t);
    assert ParentBefore(Blocks(v), j);
    i :| 0 <= i < j && Blocks(v)[i].id == Blocks(v)[j].parentId;
    assert v[0] == t && v[0] != v[j];
    var p := ParentExists(t, v[j]);
    NumbersRise(t, p);
    LinkedKid(p.block, p.kids, v[j]);
    IdsTellNodes(v, p, v[i]);
  }
}
