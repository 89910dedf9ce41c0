/** The processor's step on the stores themselves: weigh the tree, cut it when its branch has
    grown too long, move what was returned to the cascade and prune that. */
module Processor {
  import opened Common
  import CM = CascadeModel
  import opened CascadeHeap
  import opened SuperParents
  import opened TxPowTreeModel
  import opened TxPowTreeInsert
  import opened TxPowTreeTrim
  import opened TxPowTreeNodes
  import opened TxPowTreeObject
  import CR = ChainRuns

  /** The blocks of the first nodes, the last of them in front. */
  lemma BackNext(shapes: seq<Tree>, i: nat)
    requires i < |shapes|
    ensures CR.Back(shapes[..i + 1]) == [shapes[i].block] + CR.Back(shapes[..i])
  {
    assert shapes[..i + 1][..i] == shapes[..i];
  }

  method AddHead(cascade: Cascade, h: CR.Headers, block: Block)
    requires cascade.Valid()
    modifies cascade
    ensures cascade.Valid() && cascade.view == [CR.Head(h, block)] + old(cascade.view)
    ensures forall n :: n in cascade.chain ==> n in old(cascade.chain) || fresh(n)
  {
    cascade.AddToTip(h(block.id));
    assert forall n :: n in cascade.chain ==> n == cascade.chain[0] || n in cascade.chain[1..];
  }

  lemma HeadsNext(h: CR.Headers, shapes: seq<Tree>, i: nat, was: seq<CM.Node>)
    requires i < |shapes|
    ensures CR.Heads(h, CR.Back(shapes[..i + 1])) + was == [CR.Head(h, shapes[i].block)] + (CR.Heads(h, CR.Back(shapes[..i])) + was)
  {
    BackNext(shapes, i);
  }

  /** Puts the returned nodes on to the cascade, one by one. */
  method MoveToCascade(cascade: Cascade, h: CR.Headers, removed: seq<TreeNode>, ghost shapes: seq<Tree>)
    requires cascade.Valid() && SameBlocks(removed, shapes)
    modifies cascade
    ensures cascade.Valid() && cascade.view == CR.Heads(h, CR.Back(shapes)) + old(cascade.view)
    ensures forall n :: n in cascade.chain ==> n in old(cascade.chain) || fresh(n)
  {
    for i := 0 to |removed|
      invariant cascade.Valid() && cascade.view == CR.Heads(h, CR.Back(shapes[..i])) + old(cascade.view)
      invariant forall n :: n in cascade.chain ==> n in old(cascade.chain) || fresh(n)
    {
      HeadsNext(h, shapes, i, old(cascade.view));
      AddHead(cascade, h, removed[i].block);
    }
    assert shapes[..|removed|] == shapes;
  }

  /** The returned nodes go to the cascade, and it is pruned. */
  method Absorb(cascade: Cascade, h: CR.Headers, removed: seq<TreeNode>, ghost shapes: seq<Tree>)
    requires cascade.Valid() && SameBlocks(removed, shapes)
    modifies cascade, cascade.chain
    ensures cascade.Valid()
    ensures cascade.view == CM.Cascaded(cascade.p, CR.Heads(h, CR.Back(shapes)) + old(cascade.view))
  {
    MoveToCascade(cascade, h, removed, shapes);
    assert forall i :: 0 <= i < |cascade.chain| ==> cascade.chain[i] in old(cascade.chain) || fresh(cascade.chain[i]);
    cascade.CascadeChain();
  }

  /** The same beside a tree, which it does not touch. */
  method AbsorbBeside(tree: TxPowTree, cascade: Cascade, h: CR.Headers, removed: seq<TreeNode>, ghost shapes: seq<Tree>)
    requires tree.Valid() && tree.Current() && cascade.Valid() && SameBlocks(removed, shapes)
    modifies cascade, cascade.chain
    ensures tree.Valid() && tree.Current() && cascade.Valid()
    ensures tree.root == old(tree.root) && tree.length == old(tree.length)
    ensures tree.root != null ==> tree.root.shape == old(tree.root.shape)
    ensures cascade.view == CM.Cascaded(cascade.p, CR.Heads(h, CR.Back(shapes)) + old(cascade.view))
  {
    Absorb(cascade, h, removed, shapes);
  }

  /** What a cut does to tree and cascade is the cut step of ChainRuns. */
  lemma CutIsStep(p: CM.Params, h: CR.Headers, s: CR.State, r: Tree, length: int, startDepth: int, shapes: seq<Tree>)
    requires IsCut(s.tree, r, startDepth, length, shapes)
    ensures
      var step := CR.Cut(startDepth, shapes);
      && CR.Enabled(p, h, s, step)
      && CR.Next(p, h, s, step) ==
         CR.State(r, CM.Cascaded(p, CR.Heads(h, CR.Back(shapes)) + s.cascade), CR.Back(shapes) + s.history, |Visit(r)|)
  {
  }

  method CutTree(tree: TxPowTree, maxlen: int, startDepth: int) returns (cut: bool, removed: seq<TreeNode>, ghost shapes: seq<Tree>)
    requires tree.Valid() && (tree.root == null ==> maxlen > 0)
    modifies tree, tree.pool`parent, tree.pool`totalWeight
    ensures tree.Valid() && tree.Current() && (tree.root == null <==> old(tree.root) == null)
    ensures SameBlocks(removed, shapes)
    ensures cut <==> old(tree.root) != null && |Branch(old(tree.root.shape), Shallow)| >= maxlen
    ensures cut ==> IsCut(old(tree.root.shape), tree.root.shape, startDepth, tree.length, shapes)
    ensures !cut && old(tree.root) != null ==> tree.root.shape == old(tree.root.shape)
  {
    tree.RecalculateTree();
    removed, shapes := [], [];
    cut := tree.length >= maxlen;
    if cut {
      removed, shapes := tree.SetLength(startDepth);
    }
  }

  /** What one call leaves of a tree and a cascade. */
  ghost predicate Outcome(p: CM.Params, h: CR.Headers, t: Tree, view: seq<CM.Node>, t': Tree, view': seq<CM.Node>,
                          length: int, maxlen: int, startDepth: int, shapes: seq<Tree>)
  {
    if |Branch(t, Shallow)| >= maxlen then
      IsCut(t, t', startDepth, length, shapes) && view' == CM.Cascaded(p, CR.Heads(h, CR.Back(shapes)) + view)
    else
      t' == t && view' == view
  }

  /** recalculateTree of the processor: when the branch has reached `maxlen`, tree and cascade
      take the cut step of ChainRuns; otherwise, and when the tree is empty, both stay as they
      are. */
  method RecalculateTree(tree: TxPowTree, cascade: Cascade, h: CR.Headers, maxlen: int, startDepth: int)
    returns (ghost shapes: seq<Tree>)
    requires tree.Valid() && cascade.Valid() && (tree.root == null ==> maxlen > 0)
    modifies tree, tree.pool`parent, tree.pool`totalWeight, cascade, cascade.chain
    ensures tree.Valid() && tree.Current() && cascade.Valid()
    ensures tree.root == null <==> old(tree.root) == null
    ensures tree.root == null ==> cascade.view == old(cascade.view)
    ensures tree.root != null ==>
              Outcome(cascade.p, h, old(tree.root.shape), old(cascade.view), tree.root.shape, cascade.view,
                      tree.length, maxlen, startDepth, shapes)
    ensures tree.root != null && |Branch(old(tree.root.shape), Shallow)| < maxlen ==>
              tree.root.shape == old(tree.root.shape) && cascade.view == old(cascade.view)
    ensures tree.root != null && |Branch(old(tree.root.shape), Shallow)| >= maxlen ==>
              && IsCut(old(tree.root.shape), tree.root.shape, startDepth, tree.length, shapes)
              && cascade.view == CM.Cascaded(cascade.p, CR.Heads(h, CR.Back(shapes)) + old(cascade.view))
  {
    ghost var t, view := if tree.root == null then None else Some(tree.root.shape), cascade.view;
    var cut, removed;
    cut, removed, shapes := CutTree(tree, maxlen, startDepth);
    if cut {
      ghost var t', length := tree.root.shape, tree.length;
      AbsorbBeside(tree, cascade, h, removed, shapes);
      OutcomeOfCut(cascade.p, h, t.value, view, t', length, maxlen, startDepth, shapes);
    } else if t.Some? {
      OutcomeOfNone(cascade.p, h, t.value, view, tree.length, maxlen, startDepth, shapes);
    }
  }

  lemma OutcomeOfCut(p: CM.Params, h: CR.Headers, t: Tree, view: seq<CM.Node>, t': Tree, length: int,
                     maxlen: int, startDepth: int, shapes: seq<Tree>)
    requires |Branch(t, Shallow)| >= maxlen && IsCut(t, t', startDepth, length, shapes)
    ensures Outcome(p, h, t, view, t', CM.Cascaded(p, CR.Heads(h, CR.Back(shapes)) + view), length, maxlen, startDepth, shapes)
  {
  }

  lemma OutcomeOfNone(p: CM.Params, h: CR.Headers, t: Tree, view: seq<CM.Node>, length: int,
                      maxlen: int, startDepth: int, shapes: seq<Tree>)
    requires |Branch(t, Shallow)| < maxlen
    ensures Outcome(p, h, t, view, t, view, length, maxlen, startDepth, shapes)
  {
  }

  /** What the two stores hold, as a state of the run model. */
  ghost predicate Holds(s: CR.State, tree: TxPowTree, cascade: Cascade)
    requires tree.root != null ==> tree.root in tree.pool
    reads tree, tree.pool`shape, cascade
  {
    && tree.root != null && s.tree == tree.root.shape
    && s.cascade == cascade.view && s.counted == tree.totalNodes
  }

  /** Saving both stores and loading them again is the restart step of ChainRuns, however old
      the count is. */
  method Restart(tree: TxPowTree, cascade: Cascade, h: CR.Headers, ghost s: CR.State)
    returns (tree2: TxPowTree, cascade2: Cascade)
    requires tree.Valid() && tree.root != null && tree.Counted() && cascade.Valid()
    requires Holds(s, tree, cascade)
    ensures tree2.Valid() && tree2.Current() && cascade2.Valid()
    ensures Holds(CR.Next(cascade.p, h, s, CR.Restart), tree2, cascade2)
  {
    tree2 := new TxPowTree();
    tree.SaveAndLoad(tree2);
    cascade2 := cascade.DeepCopy();
  }

  // ---------------------------------------------------------------- checkParents

  /** The chain from a node of the tree back to the root. */
  ghost function ChainOf(h: CR.Headers, root: TreeNode, n: TreeNode): (r: seq<CM.Node>)
    reads root`shape
  {
    var a := CR.Ancestors(h, root.shape, n.block.id);
    if a == None then [] else a.value
  }

  /** Following the parent pointer takes the first node off the chain. */
  lemma ChainStep(h: CR.Headers, root: TreeNode, pool: set<TreeNode>, n: TreeNode)
    requires Hangs(root, pool) && root.parent == null && n in pool
    ensures n.parent != null ==> n.parent in pool
    ensures ChainOf(h, root, n) == [CR.Head(h, n.block)] + if n.parent == null then [] else ChainOf(h, root, n.parent)
  {
    assert Local(n, pool) && Local(root, pool);
    if n.shape == root.shape {
      SameShape(root, pool, n, root);
    } else {
      var q := ParentExists(root.shape, n.shape);
      ParentObject(root, pool, n, q);
      assert Local(n.parent, pool);
      CR.AncestorsStep(h, root.shape, q, n.shape);
    }
  }

  lemma ChainJoined(first: CM.Node, more: seq<CM.Node>, view: seq<CM.Node>)
    ensures ([first] + more) + view == [first] + (more + view)
    ensures ([first] + (more + view))[1..] == more + view
  {
  }

  /** checkParents: from the block's parent in the tree back over the parent pointers, on
      through the cascade, and the zero check of the levels nobody claimed. */
  method CheckBlockParents(cascade: Cascade, h: CR.Headers, root: TreeNode, tip: TreeNode, parents: seq<Id>, ghost pool: set<TreeNode>)
    returns (ok: bool)
    requires cascade.Valid() && Hangs(root, pool) && root.parent == null && tip in pool
    requires |parents| == cascade.p.levels && AllFormed(cascade.p, ChainOf(h, root, tip) + cascade.view)
    ensures ok == CheckParents(cascade.p, parents, ChainOf(h, root, tip) + cascade.view)
  {
    var p := cascade.p;
    ghost var view := cascade.view;
    ghost var rest := ChainOf(h, root, tip) + view;
    var blocksup := 0;
    var current: TreeNode? := tip;
    while current != null
      invariant 0 <= blocksup && AllFormed(p, rest)
      invariant current == null ==> rest == view
      invariant current != null ==> current in pool && rest == ChainOf(h, root, current) + view
      invariant CheckParents(p, parents, ChainOf(h, root, tip) + view) == CheckParentsFrom(p, parents, rest, blocksup)
      decreases |rest|
    {
      ChainStep(h, root, pool, current);
      ghost var more := if current.parent == null then [] else ChainOf(h, root, current.parent);
      ChainJoined(CR.Head(h, current.block), more, view);
      assert rest[0] == CR.Head(h, current.block) && rest[1..] == more + view;
      assert AllFormed(p, rest[1..]);
      blocksup := ClaimAt(p, parents, h(current.block.id), blocksup);
      if blocksup < 0 {
        return false;
      }
      current := current.parent;
      rest := rest[1..];
    }
    ok := cascade.CheckParentsHere(parents, blocksup);
  }
}
