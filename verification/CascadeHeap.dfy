/** The cascade as the program keeps it: nodes linked by parent pointers, relinked in
    place, in a pool that owns them. Each method is tied to the chain functions of
    CascadeModel and SuperParents. */
module CascadeHeap {
  import opened Common
  import opened CascadeModel
  import opened SuperParents

  class CascadeNode {
    const txp: TxPoW
    var level: int
    var parent: CascadeNode?

    constructor (txp: TxPoW)
      ensures this.txp == txp && level == 0 && parent == null
    {
      this.txp := txp;
      level, parent := 0, null;
    }

    constructor Read(txp: TxPoW, level: int)
      ensures this.txp == txp && this.level == level && parent == null
    {
      this.txp := txp;
      this.level, parent := level, null;
    }
  }

  // The node at an index, or null past the end.
  ghost function At(s: seq<CascadeNode>, i: nat): CascadeNode? {
    if i < |s| then s[i] else null
  }

  /** The node objects, one after the other along the parent pointers, end at null. */
  ghost predicate LinkedFrom(s: seq<CascadeNode>)
    reads s`parent
  {
    forall i {:trigger s[i].parent} :: 0 <= i < |s| ==> s[i].parent == At(s, i + 1)
  }

  lemma LinkedSuffix(s: seq<CascadeNode>, i: nat)
    requires LinkedFrom(s) && i <= |s|
    ensures LinkedFrom(s[i..])
  {
    forall k | 0 <= k < |s[i..]|
      ensures s[i..][k].parent == At(s[i..], k + 1)
    {
      assert s[i..][k] == s[i + k];
    }
  }

  /** The fields of the node objects are those of the listed nodes. */
  ghost predicate Shows(s: seq<CascadeNode>, v: seq<Node>)
    reads s`level
  {
    |s| == |v| && forall k :: 0 <= k < |s| ==> s[k].txp == v[k].txp && s[k].level == v[k].level
  }

  /** What a stream of MiniNumbers and TxPoWs holds. */
  datatype Token = Number(n: int) | Block(txp: TxPoW)

  function Encode(chain: seq<Node>): seq<Token> {
    if chain == [] then [] else [Block(chain[0].txp), Number(chain[0].level)] + Encode(chain[1..])
  }

  lemma {:induction false} EncodeAppend(a: seq<Node>, b: seq<Node>)
    ensures Encode(a + b) == Encode(a) + Encode(b)
  {
    if a == [] {
      assert a + b == b;
    } else {
      assert (a + b)[1..] == a[1..] + b;
      EncodeAppend(a[1..], b);
    }
  }

  lemma EncodeHead(written: seq<Node>, i: nat, after: seq<Token>)
    requires i < |written|
    ensures
      var rest := Encode(written[i..]) + after;
      && |rest| >= 2 && rest[0] == Block(written[i].txp) && rest[1] == Number(written[i].level)
      && rest[2..] == Encode(written[i + 1..]) + after
  {
    assert written[i..][1..] == written[i + 1..];
  }

  lemma {:induction false} WeightAppend(p: Params, acc: real, s: seq<Node>, n: Node)
    ensures WeightFrom(p, acc, s + [n]) == p.plus(WeightFrom(p, acc, s), CurrentWeight(p, n))
    decreases |s|
  {
    if s == [] {
      assert s + [n] == [n];
    } else {
      assert (s + [n])[1..] == s[1..] + [n];
      WeightAppend(p, p.plus(acc, CurrentWeight(p, s[0])), s[1..], n);
    }
  }

  lemma WeightGrows(p: Params, s: seq<Node>, n: Node)
    requires s != []
    ensures TotalWeight(p, s + [n]) == p.plus(TotalWeight(p, s), CurrentWeight(p, n))
  {
    WeightAppend(p, CurrentWeight(p, s[0]), s[1..], n);
    assert (s + [n])[1..] == s[1..] + [n];
  }

  lemma WalkStep(p: Params, c: Cursor, view: seq<Node>, i: nat, out: seq<Node>)
    requires i < |view|
    ensures
      out + Walk(p, c, view[i..]) ==
      if view[i].txp.superLevel >= c.level
      then (out + [Node(view[i].txp, c.level)]) + Walk(p, Advance(p, c), view[i + 1..])
      else out + Walk(p, c, view[i + 1..])
  {
    assert view[i..][1..] == view[i + 1..];
  }

  class Cascade {
    const p: Params
    var tip: CascadeNode?
    var nodes: seq<CascadeNode>
    var totalWeight: real
    ghost var chain: seq<CascadeNode>  // the node objects, from the tip back
    ghost var view: seq<Node>  // what they hold

    /** The chain is acyclic and ends at null, and the pool owns exactly its nodes. */
    ghost predicate Valid()
      reads this, chain`parent, chain`level
    {
      && tip == At(chain, 0)
      && LinkedFrom(chain)
      && Shows(chain, view)
      && Distinct(chain)
      && Distinct(nodes)
      && (forall n :: n in nodes ==> n in chain)
      && (forall n :: n in chain ==> n in nodes)
    }

    constructor (p: Params)
      ensures Valid() && this.p == p && chain == [] && view == [] && nodes == [] && totalWeight == 0.0
    {
      this.p := p;
      tip, nodes, totalWeight, chain, view := null, [], 0.0, [], [];
    }

    method AddToTip(txp: TxPoW)
      requires Valid()
      modifies this
      ensures Valid() && totalWeight == old(totalWeight)
      ensures view == [Node(txp, 0)] + old(view)
      ensures |chain| == |old(chain)| + 1 && fresh(chain[0]) && chain[1..] == old(chain)
      ensures nodes == old(nodes) + [chain[0]]
    {
      var node := new CascadeNode(txp);
      if tip != null {
        node.parent := tip;
      }
      tip := node;
      nodes := nodes + [node];
      chain := [node] + chain;
      view := [Node(txp, 0)] + view;
    }

    method GetLength() returns (length: nat)
      requires Valid()
      ensures length == |view|
    {
      length := 0;
      var current := tip;
      while current != null
        invariant length <= |chain| && current == At(chain, length)
        decreases |chain| - length
      {
        length := length + 1;
        current := current.parent;
      }
    }

    /** The walk of cascadeChain: prune, relink and assign levels in place, adding up the
        weight on the way. Returns the kept nodes, from the tip back. */
    method PruneWalk() returns (kept: seq<CascadeNode>, total: real)
      requires Valid() && tip != null
      modifies chain
      ensures Distinct(kept) && kept != [] && kept[0] == tip && LinkedFrom(kept)
      ensures forall n :: n in kept ==> n in chain
      ensures Shows(kept, Cascaded(p, view))
      ensures total == TotalWeight(p, Cascaded(p, view))
    {
      var current := tip.parent;
      total := CurrentWeight(p, Node(tip.txp, tip.level));
      var casclevel, totlevel := 0, 1;
      kept := [tip];
      ghost var i, out := 1, [view[0]];
      while current != null
        invariant 1 <= i <= |chain| && current == At(chain, i)
        invariant kept != [] && kept[0] == tip
        invariant Pruning(chain, view, i, kept, out, Cursor(casclevel, totlevel))
        invariant total == TotalWeight(p, out)
        decreases |chain| - i
      {
        casclevel, totlevel, total, kept, out := PruneStep(current, casclevel, totlevel, total, kept, out, chain, view, i);
        current := current.parent;
        i := i + 1;
      }
      EndChain(kept, out, chain, view, i, Cursor(casclevel, totlevel));
    }

    /** The kept nodes and the rest of the walk make up the cascaded chain. */
    ghost predicate Pruning(s: seq<CascadeNode>, view: seq<Node>, i: nat, kept: seq<CascadeNode>, out: seq<Node>, c: Cursor)
      reads kept`parent, kept`level, s`parent, s`level
    {
      Walking(s, view, i, kept, out) && out + Walk(p, c, view[i..]) == Cascaded(p, view)
    }

    /** One turn of the walk, at the node it has reached. */
    method PruneStep(current: CascadeNode, casclevel: int, totlevel: int, total: real, kept: seq<CascadeNode>,
                     ghost out: seq<Node>, ghost s: seq<CascadeNode>, ghost view: seq<Node>, ghost i: nat)
      returns (level: int, tot: int, newTotal: real, newKept: seq<CascadeNode>, ghost newOut: seq<Node>)
      requires i < |s| && Distinct(s) && s[i] == current
      requires Pruning(s, view, i, kept, out, Cursor(casclevel, totlevel)) && total == TotalWeight(p, out)
      modifies s
      ensures kept != [] && newKept != [] && newKept[0] == kept[0]
      ensures Pruning(s, view, i + 1, newKept, newOut, Cursor(level, tot)) && newTotal == TotalWeight(p, newOut)
      ensures current.parent == At(s, i + 1)
    {
      level, tot, newTotal, newKept, newOut := casclevel, totlevel, total, kept, out;
      WalkStep(p, Cursor(casclevel, totlevel), view, i, out);
      NextWalked(s, view, i, kept, out);
      if current.txp.superLevel >= casclevel {
        LastIn(s, i, kept, out);
        Keep(kept[|kept| - 1], current, casclevel, kept, out, s, view, i);
        newTotal := p.plus(total, CurrentWeight(p, Node(current.txp, current.level)));
        WeightGrows(p, out, Node(current.txp, casclevel));
        newKept, newOut := kept + [current], out + [Node(current.txp, casclevel)];
        level, tot := CountNode(casclevel, totlevel);
      }
    }

    ghost static predicate Walking(s: seq<CascadeNode>, view: seq<Node>, i: nat, kept: seq<CascadeNode>, out: seq<Node>)
      reads kept`parent, kept`level, s`parent, s`level
    {
      i <= |s| && |view| == |s| && KeptFrom(s, i, kept, out) && Untouched(s, view, i)
    }

    /** What the walk knows of the node it has reached, and that passing it by keeps that. */
    static lemma NextWalked(s: seq<CascadeNode>, view: seq<Node>, i: nat, kept: seq<CascadeNode>, out: seq<Node>)
      requires Walking(s, view, i, kept, out) && i < |s|
      ensures s[i].txp == view[i].txp && s[i].parent == At(s, i + 1)
      ensures Walking(s, view, i + 1, kept, out)
    {
      assert forall n :: n in s[..i] ==> n in s[..i + 1];
    }

    /** The kept nodes are distinct nodes among the first `i`, each linked to the next, and
        hold what `out` lists. */
    ghost static predicate KeptFrom(s: seq<CascadeNode>, i: nat, kept: seq<CascadeNode>, out: seq<Node>)
      requires i <= |s|
      reads kept`parent, kept`level
    {
      && kept != []
      && Shows(kept, out)
      && Distinct(kept)
      && (forall k :: 0 <= k < |kept| ==> kept[k] in s[..i])
      && (forall k {:trigger kept[k].parent} :: 0 <= k < |kept| - 1 ==> kept[k].parent == At(kept, k + 1))
    }

    /** The nodes from an index on are as they were. */
    ghost static predicate Untouched(s: seq<CascadeNode>, view: seq<Node>, from: nat)
      requires |view| == |s|
      reads s`parent, s`level
    {
      && (forall k {:trigger view[k]} :: from <= k < |s| ==> s[k].level == view[k].level && s[k].txp == view[k].txp)
      && (forall k {:trigger s[k].parent} :: from <= k < |s| ==> s[k].parent == At(s, k + 1))
    }

    static lemma LastIn(s: seq<CascadeNode>, i: nat, kept: seq<CascadeNode>, out: seq<Node>)
      requires i <= |s| && KeptFrom(s, i, kept, out)
      ensures kept[|kept| - 1] in s
    {
      assert kept[|kept| - 1] in s[..i];
    }

    /** A kept node gets its level and its place behind the last kept one. */
    static method Keep(newcascade: CascadeNode, current: CascadeNode, casclevel: int,
                       ghost kept: seq<CascadeNode>, ghost out: seq<Node>,
                       ghost s: seq<CascadeNode>, ghost view: seq<Node>, ghost i: nat)
      requires i < |s| && Distinct(s) && s[i] == current
      requires Walking(s, view, i, kept, out) && newcascade == kept[|kept| - 1]
      modifies newcascade`parent, current`level
      ensures current.level == casclevel && current.parent == old(current.parent)
      ensures Walking(s, view, i + 1, kept + [current], out + [Node(current.txp, casclevel)])
    {
      NotKept(s, view, i, kept, out);
      current.level := casclevel;
      newcascade.parent := current;
      assert current in s[..i + 1];
    }

    /** The node the walk has reached is not among those it has kept. */
    static lemma NotKept(s: seq<CascadeNode>, view: seq<Node>, i: nat, kept: seq<CascadeNode>, out: seq<Node>)
      requires i < |s| && Distinct(s) && Walking(s, view, i, kept, out)
      ensures forall k :: 0 <= k < |kept| ==> kept[k] != s[i] && kept[k] in s[..i + 1]
    {
      forall k | 0 <= k < |kept| ensures kept[k] != s[i] && kept[k] in s[..i + 1] {
        assert kept[k] in s[..i];
      }
    }

    /** The last kept node ends the chain. */
    method EndChain(kept: seq<CascadeNode>, ghost out: seq<Node>, ghost s: seq<CascadeNode>, ghost view: seq<Node>, ghost i: nat, ghost c: Cursor)
      requires Pruning(s, view, i, kept, out, c) && i == |s|
      modifies s
      ensures LinkedFrom(kept) && Distinct(kept) && Shows(kept, Cascaded(p, view)) && out == Cascaded(p, view)
      ensures forall n :: n in kept ==> n in s
    {
      LastIn(s, i, kept, out);
      assert view[i..] == [];
      kept[|kept| - 1].parent := null;
    }

    /** One more node at the current level; a full level below the top opens the next. */
    method CountNode(casclevel: int, totlevel: int) returns (level: int, tot: int)
      ensures Cursor(level, tot) == Advance(p, Cursor(casclevel, totlevel))
    {
      level, tot := casclevel, totlevel + 1;
      if tot >= p.perLevel {
        if level < p.levels - 1 {
          level := level + 1;
          tot := 0;
        }
      }
    }

    /** cascadeChain: the walk, then the pool without the nodes it dropped, in its old order. */
    method CascadeChain()
      requires Valid()
      modifies this, chain
      ensures Valid()
      ensures view == Cascaded(p, old(view))
      ensures old(view) != [] ==> totalWeight == TotalWeight(p, view)
      ensures old(view) == [] ==> totalWeight == old(totalWeight)
      ensures forall n :: n in chain ==> n in old(chain)
      ensures nodes == Retained(old(nodes), chain)
    {
      if tip == null {
        RetainedAll(nodes, chain);
        return;
      }
      var kept, total := PruneWalk();
      totalWeight := total;
      nodes := CollectGarbage(nodes, kept);
      chain, view := kept, Cascaded(p, view);
    }

    ghost static function Retained(pool: seq<CascadeNode>, kept: seq<CascadeNode>): (r: seq<CascadeNode>)
      ensures forall n :: n in r ==> n in pool && n in kept
      ensures forall n :: n in pool && n in kept ==> n in r
      ensures Distinct(pool) ==> Distinct(r)
    {
      if pool == [] then []
      else
        var rest := Retained(pool[1..], kept);
        if pool[0] in kept then [pool[0]] + rest else rest
    }

    static lemma {:induction false} RetainedAll(pool: seq<CascadeNode>, kept: seq<CascadeNode>)
      requires forall n :: n in pool ==> n in kept
      ensures Retained(pool, kept) == pool
    {
      if pool != [] {
        RetainedAll(pool[1..], kept);
      }
    }

    /** The kept pool nodes keep their order. */
    static lemma {:induction false} RetainedOrder(pool: seq<CascadeNode>, kept: seq<CascadeNode>, a: nat, b: nat) returns (i: nat, j: nat)
      requires a < b < |pool| && pool[a] in kept && pool[b] in kept
      ensures i < j < |Retained(pool, kept)| && Retained(pool, kept)[i] == pool[a] && Retained(pool, kept)[j] == pool[b]
    {
      var rest := Retained(pool[1..], kept);
      if a > 0 {
        i, j := RetainedOrder(pool[1..], kept, a - 1, b - 1);
        if pool[0] in kept {
          i, j := i + 1, j + 1;
        }
      } else {
        assert pool[1..][b - 1] == pool[b] && pool[b] in rest;
        i := 0;
        var k :| 0 <= k < |rest| && rest[k] == pool[b];
        j := k + 1;
      }
    }

    static lemma {:induction false} RetainedAppend(pool: seq<CascadeNode>, n: CascadeNode, kept: seq<CascadeNode>)
      ensures Retained(pool + [n], kept) == Retained(pool, kept) + if n in kept then [n] else []
    {
      if pool == [] {
        assert pool + [n] == [n];
      } else {
        assert (pool + [n])[1..] == pool[1..] + [n];
        RetainedAppend(pool[1..], n, kept);
      }
    }

    static method CollectGarbage(pool: seq<CascadeNode>, kept: seq<CascadeNode>) returns (r: seq<CascadeNode>)
      ensures r == Retained(pool, kept)
    {
      r := [];
      for i := 0 to |pool|
        invariant r == Retained(pool[..i], kept)
      {
        assert pool[..i + 1] == pool[..i] + [pool[i]];
        RetainedAppend(pool[..i], pool[i], kept);
        if pool[i] in kept {
          r := r + [pool[i]];
        }
      }
      assert pool[..|pool|] == pool;
    }

    method WriteDataStream() returns (out: seq<Token>)
      requires Valid()
      ensures out == [Number(|view|)] + Encode(view)
    {
      var len := GetLength();
      out := [Number(len)];
      var current := tip;
      ghost var i := 0;
      while current != null
        invariant 0 <= i <= |chain| && current == At(chain, i)
        invariant out == [Number(|view|)] + Encode(view[..i])
        decreases |chain| - i
      {
        out := out + [Block(current.txp), Number(current.level)];
        assert view[..i + 1] == view[..i] + [view[i]];
        EncodeAppend(view[..i], [view[i]]);
        current := current.parent;
        i := i + 1;
      }
      assert view[..i] == view;
    }

    /** One turn of the read loop: a node read from the stream goes behind the last one. */
    method Stitch(current: CascadeNode?, txp: TxPoW, level: int) returns (node: CascadeNode)
      requires Valid() && nodes == chain
      requires current == if chain == [] then null else chain[|chain| - 1]
      modifies this, chain
      ensures Valid() && nodes == chain && totalWeight == old(totalWeight)
      ensures fresh(node) && chain == old(chain) + [node] && view == old(view) + [Node(txp, level)]
    {
      node := new CascadeNode.Read(txp, level);
      nodes := nodes + [node];
      if current != null {
        current.parent := node;
      } else {
        tip := node;
      }
      chain, view := chain + [node], view + [Node(txp, level)];
    }

    /** The read loop: one node per block and level in the stream, each behind the last. */
    method ReadNodes(len: nat, input: seq<Token>, ghost written: seq<Node>, ghost after: seq<Token>) returns (rest: seq<Token>)
      requires Valid() && chain == nodes == [] && len == |written|
      requires input == Encode(written) + after
      modifies this
      ensures Valid() && chain == nodes && fresh(chain)
      ensures view == written && totalWeight == old(totalWeight) && rest == after
    {
      rest := input;
      var current: CascadeNode? := null;
      for i := 0 to len
        invariant rest == Encode(written[i..]) + after
        invariant Valid() && nodes == chain && |chain| == i && fresh(chain)
        invariant view == written[..i]
        invariant current == if i == 0 then null else chain[i - 1]
        invariant totalWeight == old(totalWeight)
      {
        EncodeHead(written, i, after);
        current := Stitch(current, rest[0].txp, rest[1].n);
        rest := rest[2..];
        assert written[..i + 1] == written[..i] + [written[i]];
      }
      assert written[..len] == written;
    }

    /** Reads what WriteDataStream wrote, tip first, and prunes the result. */
    method ReadDataStream(input: seq<Token>, ghost written: seq<Node>, ghost after: seq<Token>) returns (rest: seq<Token>)
      requires input == [Number(|written|)] + Encode(written) + after
      modifies this
      ensures Valid() && fresh(chain)
      ensures view == Cascaded(p, written) && totalWeight == TotalWeight(p, view)
      ensures rest == after
    {
      nodes, tip, totalWeight, chain, view := [], null, 0.0, [], [];
      rest := ReadNodes(input[0].n, input[1..], written, after);
      ghost var whole := chain;
      if tip != null {
        CascadeChain();
      }
      assert forall k :: 0 <= k < |chain| ==> chain[k] in whole;
    }

    /** deepCopy: an independent cascade holding the pruned form of this one; for a chain
        already in pruned form, the same nodes and levels. */
    method DeepCopy() returns (copy: Cascade)
      requires Valid()
      ensures fresh(copy) && copy.Valid() && fresh(copy.chain) && copy.p == p
      ensures copy.view == Cascaded(p, view) && copy.totalWeight == TotalWeight(p, Cascaded(p, view))
      ensures forall c :: view == Cascaded(p, c) ==> copy.view == view && copy.totalWeight == TotalWeight(p, view)
    {
      forall c | view == Cascaded(p, c) ensures Cascaded(p, view) == view {
        StagedPruning(p, [], c);
        assert [] + Cascaded(p, c) == Cascaded(p, c) && [] + c == c;
      }
      var bytes := WriteDataStream();
      copy := new Cascade(p);
      var rest := copy.ReadDataStream(bytes, view, []);
    }

    /** The part of checkParents behind the tree: the walk back over the cascade from the level
        reached, then the zero check of the remaining levels. */
    method CheckParentsHere(parents: seq<Id>, sup: nat) returns (ok: bool)
      requires Valid() && |parents| == p.levels && AllFormed(p, view)
      ensures ok == CheckParentsFrom(p, parents, view, sup)
    {
      var blocksup := sup;
      var cnode := tip;
      ghost var i := 0;
      assert view[0..] == view;
      while cnode != null
        invariant 0 <= i <= |chain| && cnode == At(chain, i) && 0 <= blocksup
        invariant AllFormed(p, view[i..])
        invariant CheckParentsFrom(p, parents, view, sup) == CheckParentsFrom(p, parents, view[i..], blocksup)
        decreases |chain| - i
      {
        assert view[i..][1..] == view[i + 1..] && view[i..][0] == view[i];
        blocksup := ClaimAt(p, parents, cnode.txp, blocksup);
        if blocksup < 0 {
          return false;
        }
        cnode := cnode.parent;
        i := i + 1;
      }
      assert view[i..] == [];
      while blocksup < p.levels
        invariant 0 <= blocksup
        invariant CheckParentsFrom(p, parents, view, sup) == CheckParentsFrom(p, parents, [], blocksup)
      {
        if parents[blocksup] != ZERO_ID {
          return false;
        }
        blocksup := blocksup + 1;
      }
      ok := true;
    }

    /** checkPastNodeExists. */
    static method CheckPastNodeExists(start: CascadeNode, id: Id, ghost s: seq<CascadeNode>, ghost v: seq<Node>)
      returns (found: bool)
      requires s != [] && s[0] == start && LinkedFrom(s) && Shows(s, v)
      ensures found == PastNodeExists(v, id)
    {
      var cnode: CascadeNode? := start;
      ghost var i := 0;
      while cnode != null
        invariant 0 <= i <= |s| && cnode == At(s, i)
        invariant PastNodeExists(v, id) == PastNodeExists(v[i..], id)
        decreases |s| - i
      {
        assert v[i..][1..] == v[i + 1..];
        if cnode.txp.id == id {
          return true;
        }
        cnode := cnode.parent;
        i := i + 1;
      }
      assert v[i..] == [];
      found := false;
    }

    /** checkCascadeCorrect: the verdict is the one defined on the chain value. */
    method CheckCorrect() returns (ok: bool)
      requires Valid() && AllFormed(p, view)
      ensures ok == CheckCascadeCorrect(p, view)
    {
      var cnode := tip;
      if cnode != null && cnode.level != 0 {
        return false;
      }
      var oldlevel := 0;
      ghost var i := 0;
      while cnode != null
        invariant 0 <= i <= |chain| && 0 <= oldlevel && cnode == At(chain, i)
        invariant AllFormed(p, view[i..])
        invariant CheckCascadeCorrect(p, view) == CheckFrom(p, view[i..], oldlevel)
        decreases |chain| - i
      {
        assert view[i..][1..] == view[i + 1..];
        assert view[i..][0] == view[i];
        LinkedSuffix(chain, i);
        var clevel := cnode.level;
        if clevel != oldlevel {
          if clevel != oldlevel + 1 {
            return false;
          }
          oldlevel := clevel;
        }
        var pnode := cnode.parent;
        var lastnode := pnode == null || pnode.level != clevel;
        assert lastnode == LastOfLevel(view[i..]);
        var levelsOk := CheckNodeLevels(p, cnode, lastnode, chain[i..], view[i..]);
        if !levelsOk {
          return false;
        }
        cnode := cnode.parent;
        i := i + 1;
      }
      assert view[i..] == [];
      ok := true;
    }

    static method CheckNodeLevels(p: Params, cnode: CascadeNode, lastnode: bool, ghost s: seq<CascadeNode>, ghost v: seq<Node>)
      returns (ok: bool)
      requires s != [] && s[0] == cnode && LinkedFrom(s) && Shows(s, v)
      requires Formed(p, cnode.txp) && 0 <= cnode.level
      ensures ok == CheckLevels(p, v, lastnode, cnode.level, false)
    {
      var foundzero := false;
      var i := cnode.level;
      while i < p.levels
        invariant 0 <= i
        invariant CheckLevels(p, v, lastnode, cnode.level, false) == CheckLevels(p, v, lastnode, i, foundzero)
      {
        var sparent := cnode.txp.superParents[i];
        if sparent == ZERO_ID {
          foundzero := true;
        } else {
          if foundzero {
            return false;
          }
          var present := CheckPastNodeExists(cnode, sparent, s, v);
          if lastnode {
            if i > cnode.level && !present {
              return false;
            }
          } else if !present {
            return false;
          }
        }
        i := i + 1;
      }
      ok := true;
    }
  }
}
