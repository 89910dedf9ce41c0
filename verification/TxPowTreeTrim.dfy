/** What cutting the tree behind its tip returns, keeps and loses. */
module TxPowTreeTrim {
  import opened TxPowTreeModel
  import opened TxPowTreeStream
  import opened TxPowTreeInsert

  predicate OffChain(n: Tree, number: int, mainChain: seq<Tree>) {
    n.block.number < number && n !in mainChain
  }

  /** What a trim at place `m` of the branch returns: the branch below, oldest first, then
      each side node numbered below the new root, once. */
  ghost predicate Trimmed(t: Tree, m: nat, removed: seq<Tree>)
    requires m < |Branch(t, Shallow)|
  {
    var b := Branch(t, Shallow);
    && m <= |removed| && removed[..m] == b[..m]
    && Unique(removed[m..])
    && forall n :: n in removed[m..] <==> n in Visit(t) && OffChain(n, b[m].block.number, b[..m])
  }

  function Max(a: int, b: int): int { if a >= b then a else b }

  function Min(a: int, b: int): int { if a <= b then a else b }

  /** `r` is what is left of the tree when its heaviest branch is cut to the given length:
      the node that far behind the tip, whose own heaviest branch is the rest of the old one. */
  ghost predicate IsCut(t: Tree, r: Tree, zMaxLength: int, length: int, removed: seq<Tree>) {
    var b := Branch(t, Shallow);
    && length == Min(|b|, Max(1, zMaxLength)) && 1 <= length
    && r == b[|b| - length] && Branch(r, Shallow) == b[|b| - length..] && Tip(r, Shallow) == Tip(t, Shallow)
    && Trimmed(t, |b| - length, removed)
  }

  /** The length is the limit, but not over the old length and not under one; and what is
      returned begins with the cut-off part of the branch. */
  lemma CutLengths(t: Tree, r: Tree, zMaxLength: int, length: int, removed: seq<Tree>)
    requires IsCut(t, r, zMaxLength, length, removed)
    ensures
      var was := |Branch(t, Shallow)|;
      && (was <= zMaxLength ==> length == was)
      && (1 <= zMaxLength < was ==> length == zMaxLength)
      && (zMaxLength < 1 ==> length == 1)
      && |removed| >= was - length && removed[..was - length] == Branch(t, Shallow)[..was - length]
      && Branch(r, Shallow) == Branch(t, Shallow)[was - length..]
  {
  }

  /** The new root carries the rest of the branch, so it keeps the tip. */
  lemma NewRootFacts(t: Tree, m: nat)
    requires WellMade(t) && m < |Branch(t, Shallow)|
    ensures
      var r := Branch(t, Shallow)[m];
      WellMade(r) && Branch(r, Shallow) == Branch(t, Shallow)[m..] && Tip(r, Shallow) == Tip(t, Shallow)
  {
    BranchVisited(t, Shallow);
    assert Branch(t, Shallow)[m] in Branch(t, Shallow);
    SubtreeWellMade(t, Branch(t, Shallow)[m]);
    BranchSuffix(t, Shallow, m);
  }

  /** setLength accounts for every node it discards exactly when all nodes numbered at or
      above the new root hang from it; nodes of other branches that reach that high vanish
      without being returned. */
  lemma TrimReturnsAllExactly(t: Tree, m: nat)
    requires WellMade(t) && m < |Branch(t, Shallow)|
    ensures
      var b := Branch(t, Shallow);
      var r := b[m];
      (forall n :: n in Visit(t) ==> n in Visit(r) || n in b[..m] || OffChain(n, r.block.number, b[..m])) <==>
      (forall n :: n in Visit(t) && n.block.number >= r.block.number ==> n in Visit(r))
    ensures
      var b := Branch(t, Shallow);
      forall n :: n in Visit(b[m]) ==> n !in b[..m] && !OffChain(n, b[m].block.number, b[..m])
  {
    var b := Branch(t, Shallow);
    var r := b[m];
    BranchVisited(t, Shallow);
    assert b[m] in b;
    NumbersRise(t, r);
    forall n | n in Visit(r) ensures n.block.number >= r.block.number {
      NumbersRise(r, n);
    }
    forall n | n in b[..m] ensures n.block.number < r.block.number {
      var i :| 0 <= i < m && b[i] == n;
      BranchNumbers(t, i, m);
    }
  }

  lemma {:induction false} BranchNumbers(t: Tree, i: nat, m: nat)
    requires Linked(t) && i < m < |Branch(t, Shallow)|
    ensures Branch(t, Shallow)[i].block.number < Branch(t, Shallow)[m].block.number
    decreases m
  {
    var b := Branch(t, Shallow);
    BranchVisited(t, Shallow);
    assert b[m - 1] in b;
    NumbersRise(t, b[m - 1]);
    BranchStep(t, Shallow, m - 1);
    LinkedKid(b[m - 1].block, b[m - 1].kids, b[m]);
    if i < m - 1 {
      BranchNumbers(t, i, m - 1);
    }
  }

  /** The caller appends every returned node to the cascade. The cascade and the branch
      together are then still the same chain exactly when no side node is numbered below
      the new root. */
  lemma TrimConservesChainExactly(t: Tree, m: nat, removed: seq<Tree>, cascade: seq<Block>)
    requires WellMade(t) && m < |Branch(t, Shallow)| && Trimmed(t, m, removed)
    ensures
      var b := Branch(t, Shallow);
      (cascade + Blocks(removed) + Blocks(Branch(b[m], Shallow)) == cascade + Blocks(b)) <==>
      (forall n :: n in Visit(t) ==> !OffChain(n, b[m].block.number, b[..m]))
  {
    var b := Branch(t, Shallow);
    BranchSuffix(t, Shallow, m);
    SameChain(cascade, removed, b, m);
    if removed[m..] == [] {
      assert forall n :: n !in removed[m..];
    } else {
      assert removed[m..][0] in removed[m..];
    }
  }

  /** On the forked example, trimming to two blocks drops the whole left branch unreturned,
      and trimming to one hands a left block to the cascade on top of the main chain. */
  lemma TrimFailures()
    ensures Branch(FORKED, Shallow) == [FORKED, RIGHT, LEAF]
    ensures LEFT in Visit(FORKED) && LEFT.block.number >= RIGHT.block.number && LEFT !in Visit(RIGHT)
    ensures OffChain(LEFT, LEAF.block.number, Branch(FORKED, Shallow)[..2])
  {
    ForkedVisit();
    ForkedWeights();
    VisitAllOne(LEAF);
    assert [LEFT, RIGHT][..1] == [LEFT] && FORKED.kids == [LEFT, RIGHT];
    BestOfOne(LEAF);
    BestOfOne(LEFT);
    assert Branch(RIGHT, Shallow) == [RIGHT, LEAF];
    assert Best(FORKED.kids, Shallow) == RIGHT;
    assert Branch(FORKED, Shallow) == [FORKED, RIGHT, LEAF];
    assert Visit(RIGHT) == [RIGHT, LEAF];
  }

  lemma SameChain(cascade: seq<Block>, removed: seq<Tree>, b: seq<Tree>, m: nat)
    requires m <= |b| && m <= |removed| && removed[..m] == b[..m]
    ensures cascade + Blocks(removed) + Blocks(b[m..]) == cascade + Blocks(b) <==> removed[m..] == []
  {
    var x, side, y := b[..m], removed[m..], b[m..];
    assert removed == x + side && b == x + y;
    BlocksConcat(x, side);
    BlocksConcat(x, y);
    Inserted(cascade, Blocks(x), Blocks(side), Blocks(y));
  }

  lemma Inserted(c: seq<Block>, x: seq<Block>, side: seq<Block>, y: seq<Block>)
    ensures c + (x + side) + y == c + (x + y) <==> side == []
  {
    if side == [] {
      assert x + side == x;
      assert c + x + y == c + (x + y);
    } else {
      assert |c + (x + side) + y| > |c + (x + y)|;
    }
  }
}
