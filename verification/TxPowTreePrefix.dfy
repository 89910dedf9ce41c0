/** Saving a tree after blocks were added and before it was recalculated: the count written is
    the old one, so the reader stops early. What it then loads is the part of the tree that is
    visited first. */
module TxPowTreePrefix {
  import opened Common
  import opened TxPowTreeModel
  import opened TxPowTreeStream
  import opened TxPowTreeInsert

  /** The tree of the first `n` nodes visited. */
  function Prefix(t: Tree, n: nat): Tree
    requires n > 0
    decreases t, 1
  {
    Node(t.block, PrefixAll(t.kids, n - 1))
  }

  function PrefixAll(ts: seq<Tree>, n: nat): seq<Tree>
    decreases ts, 0
  {
    if ts == [] || n == 0 then []
    else
      var k, rest := ts[|ts| - 1], ts[..|ts| - 1];
      if n >= |Visit(k)| then PrefixAll(rest, n - |Visit(k)|) + [k] else [Prefix(k, n)]
  }

  lemma VisitAllAppend(ts: seq<Tree>, k: Tree)
    ensures VisitAll(ts + [k]) == Visit(k) + VisitAll(ts)
  {
    assert (ts + [k])[..|ts|] == ts;
  }

  lemma TakeBoth(a: seq<Block>, b: seq<Block>, n: nat)
    ensures |a| <= n <= |a| + |b| ==> (a + b)[..n] == a + b[..n - |a|]
    ensures n <= |a| ==> (a + b)[..n] == a[..n]
  {
  }

  /** Its blocks are the first `n` of the visit. */
  lemma {:induction false} PrefixVisit(t: Tree, n: nat)
    requires 0 < n <= |Visit(t)|
    ensures Blocks(Visit(Prefix(t, n))) == Blocks(Visit(t))[..n]
    decreases t, 1
  {
    var r := Prefix(t, n);
    PrefixVisitAll(t.kids, n - 1);
    BlocksConcat([t], VisitAll(t.kids));
    BlocksConcat([r], VisitAll(r.kids));
    TakeBoth([t.block], Blocks(VisitAll(t.kids)), n);
  }

  lemma {:induction false} PrefixVisitAll(ts: seq<Tree>, n: nat)
    requires n <= |VisitAll(ts)|
    ensures Blocks(VisitAll(PrefixAll(ts, n))) == Blocks(VisitAll(ts))[..n]
    decreases ts, 0
  {
    if ts != [] && n > 0 {
      var k, rest := ts[|ts| - 1], ts[..|ts| - 1];
      BlocksConcat(Visit(k), VisitAll(rest));
      TakeBoth(Blocks(Visit(k)), Blocks(VisitAll(rest)), n);
      if n >= |Visit(k)| {
        var less := PrefixAll(rest, n - |Visit(k)|);
        PrefixVisitAll(rest, n - |Visit(k)|);
        VisitAllAppend(less, k);
        BlocksConcat(Visit(k), VisitAll(less));
      } else {
        PrefixVisit(k, n);
        VisitAllOne(Prefix(k, n));
      }
    }
  }

  /** It is the whole tree exactly when `n` counts all nodes. */
  lemma PrefixWhole(t: Tree, n: nat)
    requires 0 < n <= |Visit(t)|
    ensures |Visit(Prefix(t, n))| == n
    ensures Prefix(t, n) == t <==> n == |Visit(t)|
  {
    PrefixVisit(t, n);
    if n == |Visit(t)| {
      PrefixAllWhole(t.kids);
    }
  }

  lemma {:induction false} PrefixAllWhole(ts: seq<Tree>)
    ensures PrefixAll(ts, |VisitAll(ts)|) == ts
  {
    if ts != [] {
      PrefixAllWhole(ts[..|ts| - 1]);
      assert ts == ts[..|ts| - 1] + [ts[|ts| - 1]];
    }
  }

  lemma {:induction false} PrefixIds(t: Tree, n: nat)
    requires n > 0
    ensures Ids(Prefix(t, n)) <= Ids(t)
    decreases t, 1
  {
    PrefixAllIds(t.kids, n - 1);
  }

  lemma {:induction false} PrefixAllIds(ts: seq<Tree>, n: nat)
    ensures IdsAll(PrefixAll(ts, n)) <= IdsAll(ts)
    decreases ts, 0
  {
    if ts != [] && n > 0 {
      var k, rest := ts[|ts| - 1], ts[..|ts| - 1];
      if n >= |Visit(k)| {
        PrefixAllIds(rest, n - |Visit(k)|);
        IdsAllConcat(PrefixAll(rest, n - |Visit(k)|), [k]);
        IdsAllOne(k);
      } else {
        PrefixIds(k, n);
        IdsAllOne(Prefix(k, n));
      }
    }
  }

  lemma {:induction false} PrefixWellMade(t: Tree, n: nat)
    requires n > 0 && WellMade(t)
    ensures WellMade(Prefix(t, n))
    decreases t, 1
  {
    PrefixAllWellMade(t.block, t.kids, n - 1);
    PrefixAllIds(t.kids, n - 1);
  }

  lemma {:induction false} PrefixAllWellMade(top: Block, ts: seq<Tree>, n: nat)
    requires SeparateAll(ts) && LinkedAll(top, ts)
    ensures SeparateAll(PrefixAll(ts, n)) && LinkedAll(top, PrefixAll(ts, n))
    decreases ts, 0
  {
    if ts != [] && n > 0 {
      var k, rest := ts[|ts| - 1], ts[..|ts| - 1];
      if n >= |Visit(k)| {
        var less := PrefixAll(rest, n - |Visit(k)|);
        PrefixAllWellMade(top, rest, n - |Visit(k)|);
        PrefixAllIds(rest, n - |Visit(k)|);
        AppendSeparate(less, k);
        AppendLinked(top, less, k);
      } else {
        PrefixWellMade(k, n);
        AppendSeparate([], Prefix(k, n));
        AppendLinked(top, [], Prefix(k, n));
        assert [] + [Prefix(k, n)] == [Prefix(k, n)];
      }
    }
  }

  /** What a reader that stops after `n` records has loaded. */
  function LoadedFirst(t: Tree, n: nat): Tree
    requires 0 < n <= |Visit(t)|
  {
    Load(Node(t.block, []), Blocks(Visit(t))[1..n])
  }

  lemma LoadsPrefix(t: Tree, n: nat)
    requires WellMade(t) && 0 < n <= |Visit(t)|
    ensures LoadedFirst(t, n) == Mirror(Prefix(t, n))
  {
    var r := Prefix(t, n);
    PrefixVisit(t, n);
    PrefixWellMade(t, n);
    SeparateUnique(r);
    SaveLoad(r);
    assert Blocks(Visit(t))[..n][1..] == Blocks(Visit(t))[1..n];
  }

  lemma MirrorOne(a: Tree, b: Tree)
    requires Mirror(a) == Mirror(b)
    ensures a == b
  {
    MirrorTwice(a);
    MirrorTwice(b);
  }

  /** A save keeps every block if and only if the count it writes is that of the nodes. */
  lemma SaveKeepsAllExactly(t: Tree, n: nat)
    requires WellMade(t) && 0 < n <= |Visit(t)|
    ensures LoadedFirst(t, n) == Mirror(t) <==> n == |Visit(t)|
  {
    LoadsPrefix(t, n);
    PrefixWhole(t, n);
    if LoadedFirst(t, n) == Mirror(t) {
      MirrorOne(Prefix(t, n), t);
    }
  }

  // ---------------------------------------------------------------- one more node

  lemma {:induction false} InsertCounts(t: Tree, id: Id, b: Block)
    requires Separate(t)
    ensures |Visit(Insert(t, id, b))| == |Visit(t)| + if id in Ids(t) then 1 else 0
    decreases t, 1
  {
    InsertAllCounts(t.kids, id, b);
    if t.block.id == id {
      VisitAllAppend(InsertAll(t.kids, id, b), Node(b, []));
      assert Visit(Node(b, [])) == [Node(b, [])];
    }
  }

  lemma {:induction false} InsertAllCounts(ts: seq<Tree>, id: Id, b: Block)
    requires SeparateAll(ts)
    ensures |VisitAll(InsertAll(ts, id, b))| == |VisitAll(ts)| + if id in IdsAll(ts) then 1 else 0
    decreases ts, 0
  {
    if ts != [] {
      var k, rest := ts[|ts| - 1], ts[..|ts| - 1];
      InsertCounts(k, id, b);
      InsertAllCounts(rest, id, b);
      VisitAllAppend(InsertAll(rest, id, b), Insert(k, id, b));
    }
  }
}
