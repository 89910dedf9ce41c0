/** TxPowTree as the program keeps it: the root, the index by id, the tip and the length, with
    the methods that grow, weigh, cut, save and load the tree of node objects. */
module TxPowTreeObject {
  import opened Common
  import opened TxPowTreeModel
  import opened TxPowTreeStream
  import opened TxPowTreeInsert
  import opened TxPowTreePrefix
  import opened TxPowTreeTrim
  import opened TxPowTreeNodes

  // ---------------------------------------------------------------- setLength

  /** The walk back from the tip to the node that becomes the root, at place `m` of the
      branch. */
  method NewRoot(root: TreeNode, tip: TreeNode, zMaxLength: int, ghost pool: set<TreeNode>) returns (newroot: TreeNode, ghost m: nat)
    requires Hangs(root, pool) && root.parent == null
    requires tip in pool && tip.shape == Tip(root.shape, Shallow)
    ensures newroot in pool && m < |Branch(root.shape, Shallow)| && newroot.shape == Branch(root.shape, Shallow)[m]
    ensures |Branch(root.shape, Shallow)| - m == Min(|Branch(root.shape, Shallow)|, Max(1, zMaxLength))
  {
    ghost var b := Branch(root.shape, Shallow);
    var current: TreeNode? := tip;
    newroot := tip;
    m := |b|;
    var counter := 0;
    while current != null
      invariant 0 <= m <= |b| && counter == |b| - m
      invariant current == null <==> m == 0
      invariant current != null ==> current in pool && current.shape == b[m - 1]
      invariant m < |b| ==> newroot in pool && newroot.shape == b[m]
      invariant counter > 0 ==> counter < zMaxLength
      decreases m
    {
      newroot := current;
      counter := counter + 1;
      m := m - 1;
      if counter >= zMaxLength {
        break;
      }
      BranchParent(root, pool, current, m);
      current := current.parent;
    }
  }

  /** The ancestors of the new root, oldest first. */
  method MainChainBelow(root: TreeNode, newroot: TreeNode, ghost pool: set<TreeNode>, ghost m: nat) returns (removed: seq<TreeNode>)
    requires Hangs(root, pool) && root.parent == null && newroot in pool
    requires m < |Branch(root.shape, Shallow)| && newroot.shape == Branch(root.shape, Shallow)[m]
    ensures Listed(pool, removed, Branch(root.shape, Shallow)[..m])
  {
    ghost var b := Branch(root.shape, Shallow);
    removed := [];
    BranchParent(root, pool, newroot, m);
    var cascade := newroot.parent;
    ghost var i := m;
    while cascade != null
      invariant 0 <= i <= m && Listed(pool, removed, b[i..m])
      invariant cascade == null <==> i == 0
      invariant cascade != null ==> cascade in pool && cascade.shape == b[i - 1]
      decreases i
    {
      ListedCons(pool, cascade, removed, b, i - 1, m);
      removed := [cascade] + removed;
      i := i - 1;
      BranchParent(root, pool, cascade, i);
      cascade := cascade.parent;
    }
  }

  lemma ListedCons(pool: set<TreeNode>, n: TreeNode, nodes: seq<TreeNode>, b: seq<Tree>, i: nat, m: nat)
    requires i < m <= |b| && n in pool && n.shape == b[i] && Listed(pool, nodes, b[i + 1..m])
    ensures Listed(pool, [n] + nodes, b[i..m])
  {
  }

  method IdsOfNodes(nodes: seq<TreeNode>) returns (ids: set<Id>)
    ensures forall id :: id in ids <==> exists k :: 0 <= k < |nodes| && nodes[k].block.id == id
  {
    ids := {};
    for i := 0 to |nodes|
      invariant forall k :: 0 <= k < i ==> nodes[k].block.id in ids
      invariant forall id :: id in ids ==> exists k :: 0 <= k < i && nodes[k].block.id == id
    {
      ids := ids + {nodes[i].block.id};
    }
  }

  /** The indexed nodes numbered below the new root whose ids are not among the given ones, in
      the unspecified order of the index. */
  method SideBranches(fast: map<Id, TreeNode>, number: int, mainIds: set<Id>) returns (side: seq<TreeNode>)
    requires forall id :: id in fast ==> fast[id].block.id == id
    ensures forall n :: n in side <==> n.block.id in fast && fast[n.block.id] == n && n.block.number < number && n.block.id !in mainIds
    ensures forall i, j :: 0 <= i < j < |side| ==> side[i].block.id != side[j].block.id
  {
    side := [];
    var left := fast.Keys;
    while left != {}
      invariant left <= fast.Keys
      invariant forall n :: n in side ==>
                  n.block.id in fast.Keys - left && fast[n.block.id] == n && n.block.number < number && n.block.id !in mainIds
      invariant forall id :: id in fast.Keys - left && fast[id].block.number < number && id !in mainIds ==> fast[id] in side
      invariant forall i, j :: 0 <= i < j < |side| ==> side[i].block.id != side[j].block.id
      decreases |left|
    {
      var id :| id in left;
      var node := fast[id];
      if node.block.number < number && id !in mainIds {
        assert forall i :: 0 <= i < |side| ==> side[i].block.id != id by {
          assert forall i :: 0 <= i < |side| ==> side[i] in side;
        }
        side := side + [node];
      }
      left := left - {id};
    }
  }

  /** The side nodes have the shapes of the nodes off the main chain. */
  lemma SideShapes(root: TreeNode, pool: set<TreeNode>, fast: map<Id, TreeNode>, mainChain: seq<TreeNode>, ms: seq<Tree>,
                   side: seq<TreeNode>, number: int, mainIds: set<Id>) returns (ss: seq<Tree>)
    requires Hangs(root, pool) && Indexed(fast, pool) && Listed(pool, mainChain, ms)
    requires forall id :: id in mainIds <==> exists k :: 0 <= k < |mainChain| && mainChain[k].block.id == id
    requires forall n :: n in side <==> n.block.id in fast && fast[n.block.id] == n && n.block.number < number && n.block.id !in mainIds
    requires forall i, j :: 0 <= i < j < |side| ==> side[i].block.id != side[j].block.id
    ensures Listed(pool, side, ss) && Unique(ss)
    ensures forall t :: t in ss <==> t in Visit(root.shape) && OffChain(t, number, ms)
  {
    ss := ShapesOf(side);
    forall n | n in pool
      ensures n.shape.block == n.block && n.shape in Visit(root.shape)
      ensures n.block.id in mainIds <==> n.shape in ms
    {
      assert Local(n, pool);
      OnChain(root, pool, mainChain, ms, n);
    }
    forall i | 0 <= i < |side| ensures side[i] in pool {
      assert side[i] in side;
    }
    forall t | t in Visit(root.shape) && OffChain(t, number, ms) ensures t in ss {
      var n := ObjectOf(root, pool, root, t);
      assert n in side;
      var i :| 0 <= i < |side| && side[i] == n;
      assert ss[i] == t;
    }
  }

  lemma OnChain(root: TreeNode, pool: set<TreeNode>, mainChain: seq<TreeNode>, ms: seq<Tree>, n: TreeNode)
    requires Hangs(root, pool) && Listed(pool, mainChain, ms) && n in pool
    ensures (exists k :: 0 <= k < |mainChain| && mainChain[k].block.id == n.block.id) <==> n.shape in ms
  {
    if k :| 0 <= k < |mainChain| && mainChain[k].block.id == n.block.id {
      assert SameId(mainChain[k], n);
      assert ms[k] == n.shape;
    }
    if n.shape in ms {
      var k :| 0 <= k < |ms| && ms[k] == n.shape;
      SameShape(root, pool, mainChain[k], n);
    }
  }

  /** The blocks of the nodes are those of the tree values. */
  predicate SameBlocks(nodes: seq<TreeNode>, ts: seq<Tree>) {
    |nodes| == |ts| && forall i :: 0 <= i < |nodes| ==> nodes[i].block == ts[i].block
  }

  lemma PoolBlocks(root: TreeNode, pool: set<TreeNode>, nodes: seq<TreeNode>, ts: seq<Tree>)
    requires Hangs(root, pool) && Listed(pool, nodes, ts)
    ensures SameBlocks(nodes, ts)
  {
    forall i | 0 <= i < |nodes| ensures nodes[i].block == ts[i].block {
      assert Local(nodes[i], pool);
    }
  }

  /** What is returned of a tree about to be cut. */
  method CutOff(root: TreeNode, newroot: TreeNode, ghost m: nat, fast: map<Id, TreeNode>, ghost pool: set<TreeNode>)
    returns (removed: seq<TreeNode>, ghost shapes: seq<Tree>)
    requires Hangs(root, pool) && root.parent == null && Indexed(fast, pool) && newroot in pool
    requires m < |Branch(root.shape, Shallow)| && newroot.shape == Branch(root.shape, Shallow)[m]
    ensures SameBlocks(removed, shapes) && Trimmed(root.shape, m, shapes)
  {
    ghost var ms := Branch(root.shape, Shallow)[..m];
    var mainChain := MainChainBelow(root, newroot, pool, m);
    var mainIds := IdsOfNodes(mainChain);
    var side := SideBranches(fast, newroot.block.number, mainIds);
    ghost var ss := SideShapes(root, pool, fast, mainChain, ms, side, newroot.block.number, mainIds);
    assert Local(newroot, pool);
    removed, shapes := mainChain + side, ms + ss;
    assert shapes[..m] == ms && shapes[m..] == ss;
    PoolBlocks(root, pool, removed, shapes);
  }

  /** The part of setLength before the new root is set. */
  method Cut(root: TreeNode, tip: TreeNode, zMaxLength: int, fast: map<Id, TreeNode>, ghost pool: set<TreeNode>)
    returns (newroot: TreeNode, removed: seq<TreeNode>, ghost shapes: seq<Tree>, ghost below: set<TreeNode>)
    requires Hangs(root, pool) && root.parent == null && Indexed(fast, pool)
    requires tip in pool && tip.shape == Tip(root.shape, Shallow)
    ensures newroot in pool && Hangs(newroot, below) && below <= pool
    ensures SameBlocks(removed, shapes)
    ensures IsCut(root.shape, newroot.shape, zMaxLength, |Branch(newroot.shape, Shallow)|, shapes)
  {
    ghost var m;
    newroot, m := NewRoot(root, tip, zMaxLength, pool);
    removed, shapes := CutOff(root, newroot, m, fast, pool);
    NewRootFacts(root.shape, m);
    BelowHangs(root, pool, newroot);
    below := Below(pool, newroot);
  }

  lemma OneOfShape(root: TreeNode, pool: set<TreeNode>, m: TreeNode)
    requires Hangs(root, pool) && m in pool
    ensures forall n :: n in pool && n.shape == m.shape ==> n == m
  {
    forall n | n in pool && n.shape == m.shape ensures n == m {
      SameShape(root, pool, m, n);
    }
  }

  /** A new node below its parent, and the index that goes with it. */
  method AddLeaf(root: TreeNode, parent: TreeNode, block: Block, ghost fast: map<Id, TreeNode>, ghost pool: set<TreeNode>) returns (node: TreeNode)
    requires Hangs(root, pool) && root.parent == null && Indexed(fast, pool) && parent in pool
    requires block.id !in fast && block.parentId == parent.block.id && block.number > parent.block.number
    modifies pool`kids, pool`shape
    ensures fresh(node) && node.block == block
    ensures Hangs(root, pool + {node}) && root.parent == null && Indexed(fast[block.id := node], pool + {node})
    ensures root.shape == Insert(old(root.shape), block.parentId, block)
  {
    node := new TreeNode(block);
    parent.AddChildNode(node, root, pool);
  }

  method WriteNodes(root: TreeNode, ghost pool: set<TreeNode>) returns (out: seq<Token>)
    requires Hangs(root, pool)
    ensures out == Records(Blocks(Visit(root.shape)))
  {
    var order := TraverseTree(root, pool);
    ghost var blocks := Blocks(Visit(root.shape));
    ListedBlocks(root, pool, order);
    out := [];
    for i := 0 to |order|
      invariant out == Records(blocks[..i])
    {
      RecordsNext(blocks, i);
      out := out + [Record(order[i].block)];
    }
    assert blocks[..|order|] == blocks;
  }

  lemma ListedBlocks(root: TreeNode, pool: set<TreeNode>, order: seq<TreeNode>)
    requires Hangs(root, pool) && Listed(pool, order, Visit(root.shape))
    ensures forall i :: 0 <= i < |order| ==> order[i].block == Blocks(Visit(root.shape))[i]
  {
    forall i | 0 <= i < |order| ensures order[i].block == Visit(root.shape)[i].block {
      assert Local(order[i], pool);
    }
  }

  lemma IndexTells(root: TreeNode, pool: set<TreeNode>, fast: map<Id, TreeNode>)
    requires Hangs(root, pool) && Indexed(fast, pool)
    ensures fast.Keys == Ids(root.shape)
  {
    ObjectsOf(root, pool);
    IdsVisited(root.shape);
    forall id ensures id in fast <==> id in Ids(root.shape) {
      if id in fast {
        assert fast[id].shape.block.id == id;
      }
    }
  }

  class TxPowTree {
    var root: TreeNode?
    var tip: TreeNode?
    var length: int
    var totalNodes: int
    var fastLink: map<Id, TreeNode>
    ghost var pool: set<TreeNode>  // the nodes that hang from the root

    /** A tree hangs from the root, and the index holds exactly its nodes. */
    ghost predicate Valid()
      reads this, pool`shape, pool`kids, pool`parent
    {
      if root == null then (forall id :: id !in fastLink) && tip == null && length == 0
      else Hangs(root, pool) && root.parent == null && Indexed(fastLink, pool)
    }

    /** Everything derived is up to date: each total is the node's own weight plus its
        children's, and the tip ends the branch chosen by those totals. */
    ghost predicate Current()
      reads this, pool`shape, pool`totalWeight
      requires root != null ==> root in pool
    {
      root != null ==>
        && totalNodes == |Visit(root.shape)|
        && (forall n {:trigger n.totalWeight} :: n in pool ==> n.totalWeight == Shallow(n.shape))
        && tip != null && tip in pool && tip.shape == Tip(root.shape, Shallow)
        && length == |Branch(root.shape, Shallow)|
    }

    constructor ()
      ensures Valid() && Current() && root == null
    {
      root, tip, length, totalNodes, fastLink, pool := null, null, 0, 0, map[], {};
    }

    /** findNode: the node with that id, and none exactly when the tree has none. */
    method FindNode(id: Id) returns (n: TreeNode?)
      requires Valid()
      ensures n == null <==> root == null || forall m :: m in Visit(root.shape) ==> m.block.id != id
      ensures n != null ==> n in pool && n.block.id == id
    {
      if root != null {
        ObjectsOf(root, pool);
      }
      if id !in fastLink {
        return null;
      }
      n := fastLink[id];
      assert Local(n, pool);
    }

    /** recalculateTree. */
    method RecalculateTree()
      requires root != null ==> Hangs(root, pool) && root.parent == null
      modifies this, pool`totalWeight
      ensures Valid() && Current()
      ensures root == old(root) && pool == old(pool)
    {
      if root == null {
        Install(map[], null, 0);
      } else {
        var fast, last, count := Rebuild(root, pool);
        Install(fast, last, count);
      }
    }

    method Install(fast: map<Id, TreeNode>, last: TreeNode?, count: int)
      modifies this`fastLink, this`totalNodes, this`tip, this`length
      ensures fastLink == fast && totalNodes == |fast| && tip == last && length == count
    {
      fastLink, totalNodes, tip, length := fast, |fast|, last, count;
    }

    /** setRoot: only what hangs from the new root stays, and everything is recomputed. */
    method SetRoot(node: TreeNode?, ghost below: set<TreeNode>)
      requires node != null ==> Hangs(node, below)
      modifies this, below`parent, below`totalWeight
      ensures Valid() && Current() && root == node && pool == below
      ensures node != null ==> node.shape == old(node.shape)
    {
      root := node;
      pool := below;
      if root != null {
        root.ClearParent(pool);
      }
      RecalculateTree();
    }

    /** Adding a block below its parent, as the processor does: addChildNode and addFastLink.
        A known id, an unknown parent, or any block for an empty tree is left out. */
    method AddBlock(block: Block) returns (added: bool)
      requires Valid()
      requires root != null ==> forall n :: n in pool && n.block.id == block.parentId ==> block.number > n.block.number
      modifies this`fastLink, this`pool, pool`kids, pool`shape
      ensures Valid() && root == old(root)
      ensures root == null ==> !added
      ensures root != null ==> (added <==> block.parentId in Ids(old(root.shape)) && block.id !in Ids(old(root.shape)))
      ensures root != null ==> root.shape == if added then Insert(old(root.shape), block.parentId, block) else old(root.shape)
    {
      if root == null {
        return false;
      }
      IndexTells(root, pool, fastLink);
      if block.id in fastLink || block.parentId !in fastLink {
        return false;
      }
      added := true;
      var newblock := AddLeaf(root, fastLink[block.parentId], block, fastLink, pool);
      Link(newblock);
    }

    /** addFastLink. */
    method Link(node: TreeNode)
      modifies this`fastLink, this`pool
      ensures fastLink == old(fastLink)[node.block.id := node] && pool == old(pool) + {node}
    {
      fastLink := fastLink[node.block.id := node];
      pool := pool + {node};
    }

    /** setLength: trim to a maximum length behind the tip. Returns the main chain below the
        new root, oldest first, then the side nodes numbered below it. */
    method SetLength(zMaxLength: int) returns (removed: seq<TreeNode>, ghost shapes: seq<Tree>)
      requires Valid() && Current()
      modifies this, pool`parent, pool`totalWeight
      ensures Valid() && Current() && tip == old(tip) && SameBlocks(removed, shapes)
      ensures old(root) == null ==> root == null && removed == []
      ensures old(root) != null ==> root != null && root in old(pool) && pool <= old(pool)
      ensures old(root) != null ==> IsCut(old(root.shape), root.shape, zMaxLength, length, shapes)
      ensures old(length) <= zMaxLength ==> length == old(length)
      ensures old(root) != null && 1 <= zMaxLength < old(length) ==> length == zMaxLength
      ensures old(root) != null && zMaxLength < 1 ==> length == 1
    {
      if root == null {
        SetRoot(null, {});
        return [], [];
      }
      var newroot;
      ghost var below;
      newroot, removed, shapes, below := Cut(root, tip, zMaxLength, fastLink, pool);
      OneOfShape(root, pool, tip);
      SetRoot(newroot, below);
    }

    /** writeDataStream: how many nodes, then each node in traversal order. */
    method WriteDataStream() returns (out: seq<Token>)
      requires Valid()
      ensures out == [Count(totalNodes)] + if root == null then [] else Records(Blocks(Visit(root.shape)))
    {
      out := [Count(totalNodes)];
      if root != null {
        var nodes := WriteNodes(root, pool);
        out := out + nodes;
      }
    }

    /** One turn of the read loop after the root: find the parent the block names and hang it
        there. */
    method LoadNode(block: Block) returns (ghost node: TreeNode)
      requires Valid() && root != null && block.id !in fastLink && block.parentId in fastLink
      requires block.number > fastLink[block.parentId].block.number
      modifies this`fastLink, this`pool, pool`kids, pool`shape
      ensures Valid() && root == old(root) && fresh(pool - old(pool))
      ensures root.shape == Insert(old(root.shape), block.parentId, block)
      ensures node.block == block && fastLink == old(fastLink)[block.id := node]
    {
      var newnode := AddLeaf(root, fastLink[block.parentId], block, fastLink, pool);
      Link(newnode);
      node := newnode;
    }

    /** The read loop after the root. */
    method LoadNodes(input: seq<Token>, len: nat, ghost blocks: seq<Block>, ghost after: seq<Token>) returns (rest: seq<Token>)
      requires Readable(blocks) && len == |blocks| > 0 && input == Records(blocks[1..]) + after
      requires Valid() && root != null && HasRead(fastLink, blocks, 1)
      modifies this`fastLink, this`pool, pool`kids, pool`shape
      ensures Valid() && root != null && fresh(pool - old(pool))
      ensures root.shape == Load(old(root.shape), blocks[1..]) && rest == after
    {
      rest := input;
      ghost var t := root.shape;
      for i := 1 to len
        invariant Valid() && root != null && fresh(pool - old(pool))
        invariant rest == Records(blocks[i..]) + after && HasRead(fastLink, blocks, i)
        invariant Load(root.shape, blocks[i..]) == Load(t, blocks[1..])
      {
        var block;
        ReadFacts(blocks, fastLink, i);
        LoadNext(root.shape, blocks, i);
        ghost var before := fastLink;
        block, rest := NextRecord(blocks, i, rest, after);
        ghost var node := LoadNode(block);
        ReadMore(blocks, before, i, node);
      }
      assert blocks[len..] == [];
    }

    /** readDataStream on what writeDataStream wrote: the first node is the root, each later
        one joins the children of the parent it names. It stops at the count, so when the count
        is old the nodes visited last are left in the stream. An empty stream leaves an empty
        tree, and then the node count is not reset. */
    method ReadDataStream(input: seq<Token>, ghost saved: Option<Tree>, ghost count: nat, ghost after: seq<Token>)
      returns (rest: seq<Token>)
      requires saved.Some? ==> WellMade(saved.value) && 0 < count <= |Visit(saved.value)|
      requires saved == None ==> count == 0
      requires input == Saved(saved, count) + after
      modifies this
      ensures Valid() && Current()
      ensures saved == None ==> root == null && totalNodes == old(totalNodes) && rest == after
      ensures saved.Some? ==> root != null && fresh(pool) && root.shape == Mirror(Prefix(saved.value, count))
      ensures saved.Some? ==> rest == Records(Blocks(Visit(saved.value))[count..]) + after
    {
      SavedSplits(saved, count, after);
      Clear();
      var len := input[0].n;
      if len == 0 {
        rest := input[1..];
      } else {
        PrefixWellMade(saved.value, count);
        PrefixWhole(saved.value, count);
        rest := ReadNodes(input[1..], len, Prefix(saved.value, count), Records(Blocks(Visit(saved.value))[count..]) + after);
      }
    }

    /** What the saved count may be between two recalculations. */
    ghost predicate Counted()
      requires root != null ==> root in pool
      reads this, pool`shape
    {
      root != null ==> 0 < totalNodes <= |Visit(root.shape)|
    }

    /** A save and a load into another tree: that tree is the mirror image of this one if and
        only if the count of the last recalculation is still that of the nodes. */
    method SaveAndLoad(other: TxPowTree)
      requires Valid() && Counted() && root != null && other != this
      modifies other
      ensures other.Valid() && other.Current() && other.root != null
      ensures other.root.shape == Mirror(Prefix(root.shape, totalNodes))
      ensures other.root.shape == Mirror(root.shape) <==> totalNodes == |Visit(root.shape)|
    {
      ghost var t, n := root.shape, totalNodes;
      var out := WriteDataStream();
      assert out == Saved(Some(t), n) + [];
      var rest := other.ReadDataStream(out, Some(t), n, []);
      LoadsPrefix(t, n);
      SaveKeepsAllExactly(t, n);
    }

    /** A block that is added and saved before the next recalculation: the count written is one
        short, so the load that follows loses a block. */
    method AddThenSave(block: Block, other: TxPowTree) returns (added: bool)
      requires Valid() && Current() && root != null && other != this
      requires forall n :: n in pool && n.block.id == block.parentId ==> block.number > n.block.number
      modifies this`fastLink, this`pool, pool`kids, pool`shape, other
      ensures Valid() && root == old(root) && other.Valid() && other.root != null
      ensures added <==> block.parentId in Ids(old(root.shape)) && block.id !in Ids(old(root.shape))
      ensures other.root.shape == Mirror(root.shape) <==> !added
      ensures added ==> |Visit(root.shape)| == totalNodes + 1 && |Visit(other.root.shape)| == totalNodes
    {
      InsertCounts(root.shape, block.parentId, block);
      added := AddBlock(block);
      SaveAndLoad(other);
      MirrorCounts(Prefix(root.shape, totalNodes));
      PrefixWhole(root.shape, totalNodes);
    }

    /** An empty store read into a tree that was used leaves the old count, and the next save
        writes it with no record behind it. */
    method LoadEmptyThenSave() returns (out: seq<Token>)
      modifies this
      ensures Valid() && root == null && totalNodes == old(totalNodes)
      ensures out == [Count(old(totalNodes))]
    {
      var rest := ReadDataStream([Count(0)], None, 0, []);
      out := WriteDataStream();
    }

    method Clear()
      modifies this`root, this`tip, this`fastLink, this`length
      ensures root == null && tip == null && fastLink == map[] && length == 0
    {
      root, tip, fastLink, length := null, null, map[], 0;
    }

    /** Reading a tree that is not empty. */
    method ReadNodes(input: seq<Token>, len: nat, ghost saved: Tree, ghost after: seq<Token>) returns (rest: seq<Token>)
      requires WellMade(saved) && len == |Visit(saved)|
      requires input == Records(Blocks(Visit(saved))) + after
      modifies this
      ensures Valid() && Current() && rest == after
      ensures root != null && fresh(pool) && root.shape == Mirror(saved)
    {
      ghost var blocks := Blocks(Visit(saved));
      assert blocks[0..] == blocks;
      VisitReadable(saved);
      var first;
      first, rest := NextRecord(blocks, 0, input, after);
      StartTree(first);
      ReadFirst(blocks, fastLink);
      rest := LoadNodes(rest, len, blocks, after);
      RecalculateTree();
    }

    /** The first node read becomes the root. */
    method StartTree(block: Block)
      modifies this
      ensures Valid() && root != null && fresh(pool) && root.shape == Node(block, [])
      ensures fastLink.Keys == {block.id} && fastLink[block.id].block == block
    {
      var node := new TreeNode(block);
      LeafHangs(node);
      fastLink := map[block.id := node];
      root, tip, length := node, node, 0;
      pool := {node};
    }
  }

  lemma LeafHangs(node: TreeNode)
    requires node.kids == [] && node.shape == Node(node.block, [])
    ensures Hangs(node, {node})
  {
    assert Local(node, {node});
    assert node.shape in Visit(node.shape);
  }

  /** Of these records the index holds the first ones and no others. */
  ghost predicate HasRead(fast: map<Id, TreeNode>, blocks: seq<Block>, i: nat)
    requires i <= |blocks|
  {
    && (forall k :: 0 <= k < i ==> blocks[k].id in fast && fast[blocks[k].id].block == blocks[k])
    && (forall k :: i <= k < |blocks| ==> blocks[k].id !in fast)
  }

  /** The records have distinct ids and each names a parent before it, numbered below it. */
  ghost predicate Readable(blocks: seq<Block>) {
    && (forall i, j :: 0 <= i < j < |blocks| ==> blocks[i].id != blocks[j].id)
    && (forall j :: 0 < j < |blocks| ==> ParentLower(blocks, j))
  }

  ghost predicate ParentLower(blocks: seq<Block>, j: nat)
    requires j < |blocks|
  {
    exists i :: 0 <= i < j && blocks[i].id == blocks[j].parentId && blocks[i].number < blocks[j].number
  }

  lemma VisitReadable(saved: Tree)
    requires WellMade(saved)
    ensures Readable(Blocks(Visit(saved))) && Visit(saved)[0] == saved
    ensures Load(Node(saved.block, []), Blocks(Visit(saved))[1..]) == Mirror(saved)
  {
    SeparateUnique(saved);
    SaveLoad(saved);
    var blocks := Blocks(Visit(saved));
    forall j | 0 < j < |blocks| ensures ParentLower(blocks, j) {
      var i := RecordParent(saved, j);
      assert blocks[i] == Visit(saved)[i].block;
    }
  }

  lemma ReadFirst(blocks: seq<Block>, fast: map<Id, TreeNode>)
    requires Readable(blocks) && blocks != [] && fast.Keys == {blocks[0].id} && fast[blocks[0].id].block == blocks[0]
    ensures HasRead(fast, blocks, 1)
  {
  }

  /** The next record names an indexed parent numbered below it, and has a new id. */
  lemma ReadFacts(blocks: seq<Block>, fast: map<Id, TreeNode>, j: nat)
    requires Readable(blocks) && 0 < j < |blocks| && HasRead(fast, blocks, j)
    ensures
      var b := blocks[j];
      b.id !in fast && b.parentId in fast && b.number > fast[b.parentId].block.number
  {
    assert ParentLower(blocks, j);
  }

  lemma ReadMore(blocks: seq<Block>, fast: map<Id, TreeNode>, i: nat, node: TreeNode)
    requires Readable(blocks) && i < |blocks| && HasRead(fast, blocks, i) && node.block == blocks[i]
    ensures HasRead(fast[node.block.id := node], blocks, i + 1)
  {
  }

  lemma LoadNext(t: Tree, blocks: seq<Block>, i: nat)
    requires i < |blocks|
    ensures Load(t, blocks[i..]) == Load(Insert(t, blocks[i].parentId, blocks[i]), blocks[i + 1..])
  {
    assert blocks[i..][1..] == blocks[i + 1..];
  }

  /** What saving a tree, or an empty one, writes: the count kept, and every record. */
  function Saved(t: Option<Tree>, count: int): seq<Token> {
    [Count(count)] + if t == None then [] else Records(Blocks(Visit(t.value)))
  }

  lemma {:induction false} RecordsConcat(a: seq<Block>, b: seq<Block>)
    ensures Records(a + b) == Records(a) + Records(b)
  {
    if a == [] {
      assert a + b == b;
    } else {
      assert (a + b)[1..] == a[1..] + b;
      RecordsConcat(a[1..], b);
    }
  }

  lemma {:induction false} MirrorCounts(t: Tree)
    ensures |Visit(Mirror(t))| == |Visit(t)|
    decreases t, 1
  {
    MirrorAllCounts(t.kids);
  }

  lemma {:induction false} MirrorAllCounts(ts: seq<Tree>)
    ensures |VisitAll(MirrorAll(ts))| == |VisitAll(ts)|
    decreases ts, 0
  {
    if ts != [] {
      MirrorCounts(ts[|ts| - 1]);
      MirrorAllCounts(ts[..|ts| - 1]);
      VisitAllConcat([Mirror(ts[|ts| - 1])], MirrorAll(ts[..|ts| - 1]));
      VisitAllOne(Mirror(ts[|ts| - 1]));
    }
  }

  lemma CountFirst(n: int, body: seq<Token>, after: seq<Token>)
    ensures var input := [Count(n)] + body + after; input[0] == Count(n) && input[1..] == body + after
  {
  }

  /** The records up to the count are those of the tree cut to it. */
  lemma RecordsSplit(t: Tree, count: nat, after: seq<Token>)
    requires 0 < count <= |Visit(t)|
    ensures Records(Blocks(Visit(t))) + after ==
            Records(Blocks(Visit(Prefix(t, count)))) + (Records(Blocks(Visit(t))[count..]) + after)
  {
    var blocks := Blocks(Visit(t));
    assert blocks == blocks[..count] + blocks[count..];
    RecordsConcat(blocks[..count], blocks[count..]);
    PrefixVisit(t, count);
    Grouped(Records(blocks[..count]), Records(blocks[count..]), after);
  }

  /** The count comes first, then the records up to the count, then the rest. */
  lemma SavedSplits(saved: Option<Tree>, count: nat, after: seq<Token>)
    requires saved.Some? ==> 0 < count <= |Visit(saved.value)|
    ensures
      var input := Saved(saved, count) + after;
      && input != [] && input[0] == Count(count)
      && (saved == None ==> input[1..] == after)
      && (saved.Some? ==>
            input[1..] == Records(Blocks(Visit(Prefix(saved.value, count)))) + (Records(Blocks(Visit(saved.value))[count..]) + after))
  {
    if saved.Some? {
      CountFirst(count, Records(Blocks(Visit(saved.value))), after);
      RecordsSplit(saved.value, count, after);
    } else {
      CountFirst(count, [], after);
      assert [] + after == after;
    }
  }

  lemma Grouped(a: seq<Token>, b: seq<Token>, c: seq<Token>)
    ensures a + b + c == a + (b + c)
  {
  }

  function Records(blocks: seq<Block>): seq<Token> {
    if blocks == [] then [] else [Record(blocks[0])] + Records(blocks[1..])
  }

  lemma {:induction false} RecordsNext(blocks: seq<Block>, i: nat)
    requires i < |blocks|
    ensures Records(blocks[..i + 1]) == Records(blocks[..i]) + [Record(blocks[i])]
  {
    if i == 0 {
      assert blocks[..1] == [blocks[0]] && blocks[..0] == [] && [blocks[0]][1..] == [];
    } else {
      RecordsNext(blocks[1..], i - 1);
      assert blocks[..i + 1][1..] == blocks[1..][..i] && blocks[..i][1..] == blocks[1..][..i - 1];
    }
  }

  /** The next record of a stream. */
  method NextRecord(ghost blocks: seq<Block>, ghost i: nat, rest: seq<Token>, ghost after: seq<Token>) returns (block: Block, left: seq<Token>)
    requires i < |blocks| && rest == Records(blocks[i..]) + after
    ensures block == blocks[i] && left == Records(blocks[i + 1..]) + after
  {
    assert blocks[i..][1..] == blocks[i + 1..];
    block, left := rest[0].block, rest[1..];
  }
}
