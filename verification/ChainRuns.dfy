/** Tree and cascade together: blocks enter the tree when they pass the block checker, and
    when the tree is cut the processor moves what was returned on to the cascade and prunes
    it. What one node's chain looks like after any run of that. */
module ChainRuns {
  import opened Common
  import CM = CascadeModel
  import opened SuperParents
  import opened TxPowTreeModel
  import opened TxPowTreeStream
  import opened TxPowTreeInsert
  import opened TxPowTreePrefix
  import opened TxPowTreeTrim

  /** The header that belongs to an id. */
  type Headers = Id -> CM.TxPoW

  function Head(h: Headers, b: Block): CM.Node {
    CM.Node(h(b.id), 0)
  }

  /** The cascade nodes of some blocks, at level 0. */
  function Heads(h: Headers, blocks: seq<Block>): (r: seq<CM.Node>)
    ensures |r| == |blocks| && forall i :: 0 <= i < |r| ==> r[i] == Head(h, blocks[i])
  {
    if blocks == [] then [] else [Head(h, blocks[0])] + Heads(h, blocks[1..])
  }

  /** Newest first. */
  function Back(ts: seq<Tree>): seq<Block> {
    if ts == [] then [] else [ts[|ts| - 1].block] + Back(ts[..|ts| - 1])
  }

  // ---------------------------------------------------------------- checked trees

  /** Every block of the tree is formed and passes the block checker against its own
      ancestors: those in the tree, then `older`. */
  predicate Checked(p: CM.Params, h: Headers, t: Tree, older: seq<CM.Node>)
    requires AllFormed(p, older)
    decreases t, 1
  {
    && Formed(p, h(t.block.id))
    && CheckParents(p, h(t.block.id).superParents, older)
    && CheckedAll(p, h, t.kids, [Head(h, t.block)] + older)
  }

  predicate CheckedAll(p: CM.Params, h: Headers, ts: seq<Tree>, older: seq<CM.Node>)
    requires AllFormed(p, older)
    decreases ts, 0
  {
    ts == [] || (Checked(p, h, ts[|ts| - 1], older) && CheckedAll(p, h, ts[..|ts| - 1], older))
  }

  lemma {:induction false} CheckedKid(p: CM.Params, h: Headers, ts: seq<Tree>, older: seq<CM.Node>, k: Tree)
    requires AllFormed(p, older) && CheckedAll(p, h, ts, older) && k in ts
    ensures Checked(p, h, k, older)
    decreases |ts|
  {
    if k != ts[|ts| - 1] {
      CheckedKid(p, h, ts[..|ts| - 1], older, k);
    }
  }

  lemma Behind(n: CM.Node, newer: seq<CM.Node>, older: seq<CM.Node>)
    ensures [n] + newer + older == [n] + (newer + older)
  {
  }

  /** The verdicts do not depend on how the older part is pruned. */
  lemma {:induction false} CheckedPruned(p: CM.Params, h: Headers, t: Tree, newer: seq<CM.Node>, older: seq<CM.Node>)
    requires AllFormed(p, newer) && AllFormed(p, older)
    ensures AllFormed(p, newer + older) && AllFormed(p, newer + CM.Cascaded(p, older))
    ensures Checked(p, h, t, newer + CM.Cascaded(p, older)) <==> Checked(p, h, t, newer + older)
    decreases t, 1
  {
    CascadedFormed(p, older);
    if Formed(p, h(t.block.id)) {
      PruningKeepsCheckParents(p, h(t.block.id).superParents, newer, older);
      var newer' := [Head(h, t.block)] + newer;
      CheckedAllPruned(p, h, t.kids, newer', older);
      Behind(Head(h, t.block), newer, older);
      Behind(Head(h, t.block), newer, CM.Cascaded(p, older));
    }
  }

  lemma {:induction false} CheckedAllPruned(p: CM.Params, h: Headers, ts: seq<Tree>, newer: seq<CM.Node>, older: seq<CM.Node>)
    requires AllFormed(p, newer) && AllFormed(p, older)
    ensures AllFormed(p, newer + older) && AllFormed(p, newer + CM.Cascaded(p, older))
    ensures CheckedAll(p, h, ts, newer + CM.Cascaded(p, older)) <==> CheckedAll(p, h, ts, newer + older)
    decreases ts, 0
  {
    CascadedFormed(p, older);
    if ts != [] {
      CheckedPruned(p, h, ts[|ts| - 1], newer, older);
      CheckedAllPruned(p, h, ts[..|ts| - 1], newer, older);
    }
  }

  // ---------------------------------------------------------------- adding a block

  /** The chain a new block is checked against: its parent and the parent's ancestors in the
      tree, from the parent back; nothing if the tree has no such node. */
  function Ancestors(h: Headers, t: Tree, id: Id): Option<seq<CM.Node>>
    decreases t, 1
  {
    if t.block.id == id then Some([Head(h, t.block)])
    else
      match AncestorsAll(h, t.kids, id)
      case None => None
      case Some(chain) => Some(chain + [Head(h, t.block)])
  }

  function AncestorsAll(h: Headers, ts: seq<Tree>, id: Id): Option<seq<CM.Node>>
    decreases ts, 0
  {
    if ts == [] then None
    else
      match Ancestors(h, ts[|ts| - 1], id)
      case Some(chain) => Some(chain)
      case None => AncestorsAll(h, ts[..|ts| - 1], id)
  }

  /** A block is admitted below its parent when it is formed and passes the block checker on
      the parent's chain in the tree followed by `older`. */
  predicate Admits(p: CM.Params, h: Headers, chain: Option<seq<CM.Node>>, older: seq<CM.Node>, b: Block)
    requires AllFormed(p, older)
  {
    chain.Some? ==>
      && Formed(p, h(b.id)) && AllFormed(p, chain.value)
      && CheckParents(p, h(b.id).superParents, chain.value + older)
  }

  lemma {:induction false} NoAncestors(h: Headers, t: Tree, id: Id)
    ensures Ancestors(h, t, id) == None <==> id !in Ids(t)
    decreases t, 1
  {
    NoAncestorsAll(h, t.kids, id);
  }

  lemma {:induction false} NoAncestorsAll(h: Headers, ts: seq<Tree>, id: Id)
    ensures AncestorsAll(h, ts, id) == None <==> id !in IdsAll(ts)
    decreases ts, 0
  {
    if ts != [] {
      NoAncestors(h, ts[|ts| - 1], id);
      NoAncestorsAll(h, ts[..|ts| - 1], id);
    }
  }

  lemma {:induction false} AncestorsAllIn(h: Headers, ts: seq<Tree>, k: Tree, id: Id)
    requires SeparateAll(ts) && k in ts && id in Ids(k)
    ensures AncestorsAll(h, ts, id) == Ancestors(h, k, id)
  {
    var last, rest := ts[|ts| - 1], ts[..|ts| - 1];
    NoAncestors(h, last, id);
    NoAncestors(h, k, id);
    if k != last {
      assert k in rest;
      AncestorsAllIn(h, rest, k, id);
      var i :| 0 <= i < |rest| && rest[i] == k;
      IdsOfOne(rest, i);
    }
  }

  /** From a child on, the chain goes on to the node itself. */
  lemma AncestorsIn(h: Headers, t: Tree, k: Tree, id: Id)
    requires Separate(t) && k in t.kids && id in Ids(k)
    ensures Ancestors(h, k, id).Some?
    ensures Ancestors(h, t, id) == Some(Ancestors(h, k, id).value + [Head(h, t.block)])
  {
    NoAncestors(h, k, id);
    AncestorsAllIn(h, t.kids, k, id);
    var i :| 0 <= i < |t.kids| && t.kids[i] == k;
    IdsOfOne(t.kids, i);
  }

  /** One step along the parent pointers is one step along the chain. */
  lemma {:induction false} AncestorsStep(h: Headers, t: Tree, q: Tree, n: Tree)
    requires Separate(t) && q in Visit(t) && n in q.kids
    ensures Ancestors(h, t, q.block.id).Some?
    ensures Ancestors(h, t, n.block.id) == Some([Head(h, n.block)] + Ancestors(h, t, q.block.id).value)
    decreases t
  {
    VisitedId(n, n);
    if q == t {
      AncestorsIn(h, t, n, n.block.id);
    } else {
      var k := VisitAllOrigin(t.kids, q);
      var i :| 0 <= i < |t.kids| && t.kids[i] == k;
      KidSeparate(t.kids, i);
      KidVisited(k, q, n);
      VisitedId(k, q);
      VisitedId(k, n);
      AncestorsStep(h, k, q, n);
      AncestorsIn(h, t, k, q.block.id);
      AncestorsIn(h, t, k, n.block.id);
      Behind(Head(h, n.block), Ancestors(h, k, q.block.id).value, [Head(h, t.block)]);
    }
  }

  lemma LeafChecked(p: CM.Params, h: Headers, kids: seq<Tree>, b: Block, older: seq<CM.Node>)
    requires AllFormed(p, older) && CheckedAll(p, h, kids, older)
    requires Formed(p, h(b.id)) && CheckParents(p, h(b.id).superParents, older)
    ensures CheckedAll(p, h, kids + [Node(b, [])], older)
  {
    assert (kids + [Node(b, [])])[..|kids|] == kids;
  }

  /** Adding an admitted block leaves every block of the tree checked. */
  lemma {:induction false} InsertChecked(p: CM.Params, h: Headers, t: Tree, b: Block, older: seq<CM.Node>)
    requires AllFormed(p, older) && Checked(p, h, t, older) && Separate(t)
    requires Admits(p, h, Ancestors(h, t, b.parentId), older, b)
    ensures Checked(p, h, Insert(t, b.parentId, b), older)
    decreases t, 1
  {
    var older' := [Head(h, t.block)] + older;
    if t.block.id == b.parentId {
      InsertAllAbsent(t.kids, b.parentId, b);
      LeafChecked(p, h, t.kids, b, older');
    } else {
      InsertAllChecked(p, h, t, t.kids, b, older);
    }
  }

  /** The same for children of `t`, whose chains go on through it. */
  lemma {:induction false} InsertAllChecked(p: CM.Params, h: Headers, t: Tree, ts: seq<Tree>, b: Block, older: seq<CM.Node>)
    requires AllFormed(p, older) && Formed(p, h(t.block.id))
    requires CheckedAll(p, h, ts, [Head(h, t.block)] + older) && SeparateAll(ts)
    requires
      var a := AncestorsAll(h, ts, b.parentId);
      Admits(p, h, if a == None then None else Some(a.value + [Head(h, t.block)]), older, b)
    ensures CheckedAll(p, h, InsertAll(ts, b.parentId, b), [Head(h, t.block)] + older)
    decreases ts, 0
  {
    if ts != [] {
      var k, rest := ts[|ts| - 1], ts[..|ts| - 1];
      var older' := [Head(h, t.block)] + older;
      var a := Ancestors(h, k, b.parentId);
      NoAncestors(h, k, b.parentId);
      NoAncestorsAll(h, rest, b.parentId);
      if a.Some? {
        assert a.value + [Head(h, t.block)] + older == a.value + older';
        assert AllFormed(p, a.value) by {
          assert forall n :: n in a.value ==> n in a.value + [Head(h, t.block)];
        }
        InsertAllAbsent(rest, b.parentId, b);
      } else {
        InsertAllChecked(p, h, t, rest, b, older);
      }
      InsertChecked(p, h, k, b, older');
      var rest' := InsertAll(rest, b.parentId, b);
      assert (rest' + [Insert(k, b.parentId, b)])[..|rest'|] == rest';
    }
  }

  // ---------------------------------------------------------------- cutting

  lemma {:induction false} HeadsConcat(h: Headers, a: seq<Block>, b: seq<Block>)
    ensures Heads(h, a + b) == Heads(h, a) + Heads(h, b)
  {
  }

  lemma {:induction false} BackConcat(a: seq<Tree>, b: seq<Tree>)
    ensures Back(a + b) == Back(b) + Back(a)
    decreases |b|
  {
    if b == [] {
      assert a + b == a;
    } else {
      var rest, last := b[..|b| - 1], b[|b| - 1];
      BackConcat(a, rest);
      BackLast(a + rest, last);
      BackLast(rest, last);
      assert a + b == (a + rest) + [last] && b == rest + [last];
      Grouped([last.block], Back(rest), Back(a));
    }
  }

  lemma BackLast(ts: seq<Tree>, last: Tree)
    ensures Back(ts + [last]) == [last.block] + Back(ts)
  {
    assert (ts + [last])[..|ts|] == ts;
  }

  lemma Grouped(a: seq<Block>, b: seq<Block>, c: seq<Block>)
    ensures a + b + c == a + (b + c)
  {
  }

  lemma BackCons(t: Tree, ts: seq<Tree>)
    ensures Back([t] + ts) == Back(ts) + [t.block]
  {
    BackConcat([t], ts);
    assert [t][..0] == [] && Back([t]) == [t.block] + Back([]);
  }

  /** The branch from a node goes on as the branch from its best child. */
  lemma BranchFirst(t: Tree, m: nat) returns (k: Tree)
    requires 0 < m < |Branch(t, Shallow)|
    ensures k in t.kids && m - 1 < |Branch(k, Shallow)| && Branch(t, Shallow)[m] == Branch(k, Shallow)[m - 1]
    ensures Back(Branch(t, Shallow)[..m]) == Back(Branch(k, Shallow)[..m - 1]) + [t.block]
  {
    BestIn(t.kids, Shallow);
    k := Best(t.kids, Shallow);
    var below := Branch(k, Shallow)[..m - 1];
    assert Branch(t, Shallow)[..m] == [t] + below;
    BackCons(t, below);
  }

  lemma HeadsStep(h: Headers, newer: seq<Block>, b: Block, older: seq<CM.Node>)
    ensures Heads(h, newer) + ([Head(h, b)] + older) == Heads(h, newer + [b]) + older
  {
    HeadsConcat(h, newer, [b]);
    assert Heads(h, [b]) == [Head(h, b)];
  }

  /** A checked block extends a linked history. */
  lemma OlderGrows(p: CM.Params, h: Headers, t: Tree, older: seq<CM.Node>)
    requires AllFormed(p, older) && WellNamed(p, older) && Checked(p, h, t, older)
    ensures
      var longer := [Head(h, t.block)] + older;
      AllFormed(p, longer) && WellNamed(p, longer) && forall k :: k in t.kids ==> Checked(p, h, k, longer)
  {
    var longer := [Head(h, t.block)] + older;
    CheckParentsMeaning(p, h(t.block.id), older);
    assert longer[1..] == older;
    forall k | k in t.kids ensures Checked(p, h, k, longer) {
      CheckedKid(p, h, t.kids, longer, k);
    }
  }

  /** Any stretch of a branch of checked blocks extends a linked history, and the blocks from
      its end on are checked against the longer history. */
  lemma {:induction false} BranchChecked(p: CM.Params, h: Headers, t: Tree, older: seq<CM.Node>, m: nat)
    requires AllFormed(p, older) && WellNamed(p, older) && Checked(p, h, t, older)
    requires m < |Branch(t, Shallow)|
    ensures
      var longer := Heads(h, Back(Branch(t, Shallow)[..m])) + older;
      AllFormed(p, longer) && WellNamed(p, longer) && Checked(p, h, Branch(t, Shallow)[m], longer)
    decreases t
  {
    if m == 0 {
      assert Heads(h, Back(Branch(t, Shallow)[..0])) + older == older;
    } else {
      var k := BranchFirst(t, m);
      OlderGrows(p, h, t, older);
      BranchChecked(p, h, k, [Head(h, t.block)] + older, m - 1);
      HeadsStep(h, Back(Branch(k, Shallow)[..m - 1]), t.block, older);
    }
  }

  // ---------------------------------------------------------------- states and steps

  type Pos = n: nat | n > 0 witness 1

  /** The tree, the cascade, every block moved on to the cascade so far, newest first, and the
      number of nodes at the last recalculation, which is the count a save writes. The history
      is kept for comparison only; the program has no such list. */
  datatype State = State(tree: Tree, cascade: seq<CM.Node>, history: seq<Block>, counted: Pos)

  /** `Recount` is a recalculation that cuts nothing. `Restart` saves tree and cascade and
      loads them again. */
  datatype Step = Add(block: Block) | Recount | Cut(zMaxLength: int, removed: seq<Tree>) | Restart

  /** How far along the heaviest branch the cut falls. */
  function Place(t: Tree, zMaxLength: int): nat
    ensures Place(t, zMaxLength) < |Branch(t, Shallow)|
  {
    |Branch(t, Shallow)| - Min(|Branch(t, Shallow)|, Max(1, zMaxLength))
  }

  ghost predicate Enabled(p: CM.Params, h: Headers, s: State, step: Step) {
    match step
    case Add(b) =>
      && AllFormed(p, s.cascade)
      && b.id !in Ids(s.tree) && b.parentId in Ids(s.tree)
      && (forall n :: n in Visit(s.tree) && n.block.id == b.parentId ==> b.number > n.block.number)
      && Admits(p, h, Ancestors(h, s.tree, b.parentId), s.cascade, b)
    case Cut(z, removed) => Trimmed(s.tree, Place(s.tree, z), removed)
    case _ => true
  }

  /** The tree has no node off its branch that is numbered below the place of the cut. */
  predicate NoSide(s: State, step: Step) {
    step.Cut? ==>
      var b, m := Branch(s.tree, Shallow), Place(s.tree, step.zMaxLength);
      forall n :: n in Visit(s.tree) ==> !OffChain(n, b[m].block.number, b[..m])
  }

  /** Then, and only then, the cut returns the main chain below the new root and nothing else. */
  lemma NoSideReturns(p: CM.Params, h: Headers, s: State, step: Step)
    requires step.Cut? && Enabled(p, h, s, step)
    ensures NoSide(s, step) <==> step.removed == Branch(s.tree, Shallow)[..Place(s.tree, step.zMaxLength)]
  {
    var b, m := Branch(s.tree, Shallow), Place(s.tree, step.zMaxLength);
    var removed := step.removed;
    assert removed == removed[..m] + removed[m..];
    if |removed| > m {
      assert removed[m] == removed[m..][0] && removed[m] in removed[m..];
    } else {
      assert removed[m..] == [];
    }
  }

  function Next(p: CM.Params, h: Headers, s: State, step: Step): State {
    match step
    case Add(b) => s.(tree := Insert(s.tree, b.parentId, b))
    case Recount => s.(counted := |Visit(s.tree)|)
    case Cut(z, removed) =>
      var r := Branch(s.tree, Shallow)[Place(s.tree, z)];
      State(r, CM.Cascaded(p, Heads(h, Back(removed)) + s.cascade), Back(removed) + s.history, |Visit(r)|)
    case Restart =>
      var r := Mirror(Prefix(s.tree, s.counted));
      State(r, CM.Cascaded(p, s.cascade), s.history, |Visit(r)|)
  }

  /** Each block names the one behind it as its parent. */
  predicate Chained(blocks: seq<Block>) {
    forall i :: 0 <= i < |blocks| - 1 ==> blocks[i].parentId == blocks[i + 1].id
  }

  /** The cascade is the whole history pruned at once; the history is a chain of checked
      blocks that ends where the tree begins; and every block of every fork is checked. */
  predicate Sound(p: CM.Params, h: Headers, s: State) {
    var past := Heads(h, s.history);
    && WellMade(s.tree)
    && AllFormed(p, past) && WellNamed(p, past)
    && s.cascade == CM.Cascaded(p, past)
    && Checked(p, h, s.tree, past)
    && Chained([s.tree.block] + s.history)
  }

  /** From the tip back to the first block there ever was. */
  function MainChain(s: State): seq<Block> {
    Back(Branch(s.tree, Shallow)) + s.history
  }

  lemma AddKeepsSound(p: CM.Params, h: Headers, s: State, b: Block)
    requires Sound(p, h, s) && Enabled(p, h, s, Add(b))
    ensures Sound(p, h, Next(p, h, s, Add(b)))
  {
    var past := Heads(h, s.history);
    var chain := Ancestors(h, s.tree, b.parentId);
    NoAncestors(h, s.tree, b.parentId);
    PruningKeepsCheckParents(p, h(b.id).superParents, chain.value, past);
    InsertChecked(p, h, s.tree, b, past);
    InsertWellMade(s.tree, b);
  }

  lemma ChainedStep(b: Block, history: seq<Block>)
    requires Chained(history) && (history != [] ==> b.parentId == history[0].id)
    ensures Chained([b] + history)
  {
    var longer := [b] + history;
    forall i | 0 <= i < |longer| - 1 ensures longer[i].parentId == longer[i + 1].id {
      if i > 0 {
        assert history[i - 1].parentId == history[i].id;
      }
    }
  }

  lemma {:induction false} ChainedBranch(t: Tree, history: seq<Block>, m: nat)
    requires Linked(t) && Chained([t.block] + history) && m < |Branch(t, Shallow)|
    ensures Chained([Branch(t, Shallow)[m].block] + (Back(Branch(t, Shallow)[..m]) + history))
    decreases t
  {
    if m == 0 {
      assert Back(Branch(t, Shallow)[..0]) + history == history;
    } else {
      var k := BranchFirst(t, m);
      LinkedKid(t.block, t.kids, k);
      ChainedStep(k.block, [t.block] + history);
      ChainedBranch(k, [t.block] + history, m - 1);
      var newer := Back(Branch(k, Shallow)[..m - 1]);
      assert newer + ([t.block] + history) == newer + [t.block] + history;
    }
  }

  /** A cut without side nodes moves blocks from one part of the main chain to the other. */
  lemma CutKeepsChain(p: CM.Params, h: Headers, s: State, step: Step)
    requires WellMade(s.tree) && step.Cut? && Enabled(p, h, s, step) && NoSide(s, step)
    ensures MainChain(Next(p, h, s, step)) == MainChain(s)
  {
    NoSideReturns(p, h, s, step);
    NewRootFacts(s.tree, Place(s.tree, step.zMaxLength));
    ChainMoves(Branch(s.tree, Shallow), Place(s.tree, step.zMaxLength), s.history);
  }

  lemma BackJoined(b: seq<Tree>, m: nat)
    requires m <= |b|
    ensures Back(b) == Back(b[m..]) + Back(b[..m])
  {
    assert b == b[..m] + b[m..];
    BackConcat(b[..m], b[m..]);
  }

  lemma ChainMoves(b: seq<Tree>, m: nat, history: seq<Block>)
    requires m <= |b|
    ensures Back(b[m..]) + (Back(b[..m]) + history) == Back(b) + history
  {
    BackJoined(b, m);
    Grouped(Back(b[m..]), Back(b[..m]), history);
  }

  /** Pruning the moved blocks on top of the pruned cascade prunes the whole history. */
  lemma CutCascade(p: CM.Params, h: Headers, newer: seq<Block>, history: seq<Block>)
    ensures CM.Cascaded(p, Heads(h, newer) + CM.Cascaded(p, Heads(h, history))) == CM.Cascaded(p, Heads(h, newer + history))
    ensures Heads(h, newer) + Heads(h, history) == Heads(h, newer + history)
  {
    HeadsConcat(h, newer, history);
    CM.StagedPruning(p, Heads(h, newer), Heads(h, history));
  }

  lemma CutKeepsSound(p: CM.Params, h: Headers, s: State, step: Step)
    requires Sound(p, h, s) && step.Cut? && Enabled(p, h, s, step) && NoSide(s, step)
    ensures Sound(p, h, Next(p, h, s, step))
  {
    var m := Place(s.tree, step.zMaxLength);
    NoSideReturns(p, h, s, step);
    CutCascade(p, h, Back(step.removed), s.history);
    BranchChecked(p, h, s.tree, Heads(h, s.history), m);
    ChainedBranch(s.tree, s.history, m);
    NewRootFacts(s.tree, m);
  }

  lemma {:induction false} MirrorChecked(p: CM.Params, h: Headers, t: Tree, older: seq<CM.Node>)
    requires AllFormed(p, older) && Checked(p, h, t, older)
    ensures Checked(p, h, Mirror(t), older)
    decreases t, 1
  {
    MirrorAllChecked(p, h, t.kids, [Head(h, t.block)] + older);
  }

  lemma {:induction false} MirrorAllChecked(p: CM.Params, h: Headers, ts: seq<Tree>, older: seq<CM.Node>)
    requires AllFormed(p, older) && CheckedAll(p, h, ts, older)
    ensures CheckedAll(p, h, MirrorAll(ts), older)
    decreases ts, 0
  {
    if ts != [] {
      MirrorChecked(p, h, ts[|ts| - 1], older);
      MirrorAllChecked(p, h, ts[..|ts| - 1], older);
      CheckedCons(p, h, Mirror(ts[|ts| - 1]), MirrorAll(ts[..|ts| - 1]), older);
    }
  }

  lemma {:induction false} CheckedCons(p: CM.Params, h: Headers, k: Tree, ts: seq<Tree>, older: seq<CM.Node>)
    requires AllFormed(p, older) && Checked(p, h, k, older) && CheckedAll(p, h, ts, older)
    ensures CheckedAll(p, h, [k] + ts, older)
    decreases |ts|
  {
    if ts == [] {
      assert [k] + ts == [k] && [k][..0] == [];
    } else {
      assert ([k] + ts)[..|ts|] == [k] + ts[..|ts| - 1];
      CheckedCons(p, h, k, ts[..|ts| - 1], older);
    }
  }

  lemma {:induction false} PrefixChecked(p: CM.Params, h: Headers, t: Tree, n: nat, older: seq<CM.Node>)
    requires n > 0 && AllFormed(p, older) && Checked(p, h, t, older)
    ensures Checked(p, h, Prefix(t, n), older)
    decreases t, 1
  {
    PrefixAllChecked(p, h, t.kids, n - 1, [Head(h, t.block)] + older);
  }

  lemma {:induction false} PrefixAllChecked(p: CM.Params, h: Headers, ts: seq<Tree>, n: nat, older: seq<CM.Node>)
    requires AllFormed(p, older) && CheckedAll(p, h, ts, older)
    ensures CheckedAll(p, h, PrefixAll(ts, n), older)
    decreases ts, 0
  {
    if ts != [] && n > 0 {
      var k, rest := ts[|ts| - 1], ts[..|ts| - 1];
      if n >= |Visit(k)| {
        var less := PrefixAll(rest, n - |Visit(k)|);
        PrefixAllChecked(p, h, rest, n - |Visit(k)|, older);
        assert (less + [k])[..|less|] == less;
      } else {
        PrefixChecked(p, h, k, n, older);
        assert [Prefix(k, n)][..0] == [];
      }
    }
  }

  /** A restart keeps what the stores promise even when its count is old: the blocks it loses
      are the last visited, so none is left without its ancestors. */
  lemma RestartKeepsSound(p: CM.Params, h: Headers, s: State)
    requires Sound(p, h, s)
    ensures Sound(p, h, Next(p, h, s, Restart))
  {
    var r := Prefix(s.tree, s.counted);
    PrefixWellMade(s.tree, s.counted);
    MirrorWellMade(r);
    PrefixChecked(p, h, s.tree, s.counted, Heads(h, s.history));
    MirrorChecked(p, h, r, Heads(h, s.history));
    CM.StagedPruning(p, [], Heads(h, s.history));
    assert [] + s.cascade == s.cascade && [] + Heads(h, s.history) == Heads(h, s.history);
  }

  /** It loses none if and only if nothing was added since the last recalculation. */
  lemma RestartLosesNoneExactly(p: CM.Params, h: Headers, s: State)
    requires s.counted <= |Visit(s.tree)|
    ensures Next(p, h, s, Restart).tree == Mirror(s.tree) <==> s.counted == |Visit(s.tree)|
  {
    PrefixWhole(s.tree, s.counted);
    if Next(p, h, s, Restart).tree == Mirror(s.tree) {
      MirrorOne(Prefix(s.tree, s.counted), s.tree);
    }
  }

  // ---------------------------------------------------------------- whole runs

  /** Every step is enabled where it is taken. */
  ghost predicate EnabledRun(p: CM.Params, h: Headers, s: State, steps: seq<Step>)
    decreases |steps|
  {
    steps == [] || (Enabled(p, h, s, steps[0]) && EnabledRun(p, h, Next(p, h, s, steps[0]), steps[1..]))
  }

  /** No cut of the run meets side nodes where it is taken. */
  predicate NoSides(p: CM.Params, h: Headers, s: State, steps: seq<Step>)
    decreases |steps|
  {
    steps == [] || (NoSide(s, steps[0]) && NoSides(p, h, Next(p, h, s, steps[0]), steps[1..]))
  }

  function After(p: CM.Params, h: Headers, s: State, steps: seq<Step>): State
    decreases |steps|
  {
    if steps == [] then s else After(p, h, Next(p, h, s, steps[0]), steps[1..])
  }

  /** The first list is the second with something in front. */
  predicate Extends(longer: seq<Block>, history: seq<Block>) {
    |history| <= |longer| && longer[|longer| - |history|..] == history
  }

  lemma StepKeepsSound(p: CM.Params, h: Headers, s: State, step: Step)
    requires Sound(p, h, s) && Enabled(p, h, s, step) && NoSide(s, step)
    ensures Sound(p, h, Next(p, h, s, step))
  {
    match step {
      case Add(b) => AddKeepsSound(p, h, s, b);
      case Recount =>
      case Cut(_, _) => CutKeepsSound(p, h, s, step);
      case Restart => RestartKeepsSound(p, h, s);
    }
  }

  lemma StepExtends(p: CM.Params, h: Headers, s: State, step: Step)
    ensures Extends(Next(p, h, s, step).history, s.history)
  {
  }

  lemma ExtendsTwice(a: seq<Block>, b: seq<Block>, c: seq<Block>)
    requires Extends(a, b) && Extends(b, c)
    ensures Extends(a, c)
  {
    assert a[|a| - |c|..] == a[|a| - |b|..][|b| - |c|..];
  }

  lemma {:induction false} RunKeepsSound(p: CM.Params, h: Headers, s: State, steps: seq<Step>)
    requires Sound(p, h, s) && EnabledRun(p, h, s, steps) && NoSides(p, h, s, steps)
    ensures Sound(p, h, After(p, h, s, steps))
    decreases |steps|
  {
    if steps != [] {
      StepKeepsSound(p, h, s, steps[0]);
      RunKeepsSound(p, h, Next(p, h, s, steps[0]), steps[1..]);
    }
  }

  /** What a reader of the two stores can rely on: the validator accepts the cascade, the
      cascade is the whole history pruned at once, the tree's branch and the history make up
      one parent-linked chain, and pruning that in stages loses nothing against pruning it all
      at once. */
  predicate Consistent(p: CM.Params, h: Headers, s: State) {
    && AllFormed(p, s.cascade) && CheckCascadeCorrect(p, s.cascade)
    && s.cascade == CM.Cascaded(p, Heads(h, s.history))
    && Chained(MainChain(s))
    && CM.Cascaded(p, Heads(h, Back(Branch(s.tree, Shallow))) + s.cascade) == CM.Cascaded(p, Heads(h, MainChain(s)))
  }

  lemma MainChained(s: State)
    requires Linked(s.tree) && Chained([s.tree.block] + s.history)
    ensures Chained(MainChain(s))
  {
    var b := Branch(s.tree, Shallow);
    var m := |b| - 1;
    ChainedBranch(s.tree, s.history, m);
    var x := Back(b[..m]);
    assert Back(b) == [b[m].block] + x;
    assert [b[m].block] + x + s.history == [b[m].block] + (x + s.history);
  }

  lemma SoundConsistent(p: CM.Params, h: Headers, s: State)
    requires Sound(p, h, s)
    ensures Consistent(p, h, s)
  {
    CascadedPasses(p, Heads(h, s.history));
    CutCascade(p, h, Back(Branch(s.tree, Shallow)), s.history);
    MainChained(s);
  }

  function Start(first: Block): State {
    State(Node(first, []), [], [], 1)
  }

  lemma StartSound(p: CM.Params, h: Headers, first: Block)
    requires Formed(p, h(first.id)) && CheckParents(p, h(first.id).superParents, [])
    ensures Sound(p, h, Start(first))
  {
  }

  // ---------------------------------------------------------------- and only then

  /** The tree's root names the newest block of the history, and so on back. */
  predicate Joined(s: State) {
    Chained([s.tree.block] + s.history)
  }

  lemma ChainedRest(front: seq<Block>, back: seq<Block>)
    requires Chained(front + back)
    ensures Chained(back)
  {
    var all := front + back;
    forall i | 0 <= i < |back| - 1 ensures back[i].parentId == back[i + 1].id {
      assert all[|front| + i] == back[i] && all[|front| + i + 1] == back[i + 1];
    }
  }

  lemma NextWellMade(p: CM.Params, h: Headers, s: State, step: Step)
    requires WellMade(s.tree) && Enabled(p, h, s, step)
    ensures WellMade(Next(p, h, s, step).tree)
  {
    match step {
      case Add(b) => InsertWellMade(s.tree, b);
      case Recount =>
      case Cut(z, _) => NewRootFacts(s.tree, Place(s.tree, z));
      case Restart =>
        PrefixWellMade(s.tree, s.counted);
        MirrorWellMade(Prefix(s.tree, s.counted));
    }
  }

  /** The root of the tree is the first of the branch, so it is the last moved. */
  lemma BackEnds(t: Tree, m: nat)
    requires 0 < m < |Branch(t, Shallow)|
    ensures Back(Branch(t, Shallow)[..m]) == Back(Branch(t, Shallow)[1..m]) + [t.block]
  {
    var b := Branch(t, Shallow);
    assert b[..m] == [t] + b[1..m];
    BackCons(t, b[1..m]);
  }

  lemma BranchParentId(t: Tree, m: nat)
    requires WellMade(t) && 0 < m < |Branch(t, Shallow)|
    ensures Branch(t, Shallow)[m].block.parentId == Branch(t, Shallow)[m - 1].block.id
  {
    var b := Branch(t, Shallow);
    BranchVisited(t, Shallow);
    BranchStep(t, Shallow, m - 1);
    assert b[m - 1] in b;
    NumbersRise(t, b[m - 1]);
    LinkedKid(b[m - 1].block, b[m - 1].kids, b[m]);
  }

  /** The last block a cut returns is the parent of the new root exactly without side nodes. */
  lemma LastMoved(p: CM.Params, h: Headers, s: State, step: Step)
    requires WellMade(s.tree) && step.Cut? && Enabled(p, h, s, step) && Place(s.tree, step.zMaxLength) > 0
    ensures step.removed != []
    ensures
      var root := Branch(s.tree, Shallow)[Place(s.tree, step.zMaxLength)];
      root.block.parentId == step.removed[|step.removed| - 1].block.id <==> NoSide(s, step)
  {
    var t, m, b := s.tree, Place(s.tree, step.zMaxLength), Branch(s.tree, Shallow);
    var removed := step.removed;
    var last := removed[|removed| - 1];
    NoSideReturns(p, h, s, step);
    BranchVisited(t, Shallow);
    BranchParentId(t, m);
    assert b[m - 1] in b;
    if |removed| > m {
      assert last in removed[m..];
      assert b[m - 1] in b[..m];
      SeparateUnique(t);
      if last.block.id == b[m - 1].block.id {
        IdsTellNodes(Visit(t), last, b[m - 1]);
      }
    } else {
      assert removed == removed[..m];
    }
  }

  /** A cut at the root moves nothing and meets no side nodes. */
  lemma CutAtRoot(s: State, step: Step)
    requires WellMade(s.tree) && step.Cut? && Place(s.tree, step.zMaxLength) == 0
    ensures NoSide(s, step)
  {
    forall n | n in Visit(s.tree) ensures n.block.number >= s.tree.block.number {
      NumbersRise(s.tree, n);
    }
  }

  lemma CutJoins(p: CM.Params, h: Headers, s: State, step: Step)
    requires WellMade(s.tree) && step.Cut? && Enabled(p, h, s, step) && NoSide(s, step)
    ensures Joined(Next(p, h, s, step)) <==> Joined(s)
  {
    var t, m, b := s.tree, Place(s.tree, step.zMaxLength), Branch(s.tree, Shallow);
    NoSideReturns(p, h, s, step);
    if Joined(s) {
      ChainedBranch(t, s.history, m);
    }
    if Joined(Next(p, h, s, step)) && m > 0 {
      var front := [b[m].block] + Back(b[1..m]);
      BackEnds(t, m);
      assert [b[m].block] + (Back(b[..m]) + s.history) == front + ([t.block] + s.history);
      ChainedRest(front, [t.block] + s.history);
    }
    if m == 0 {
      assert b[..0] == [] && [] + s.history == s.history;
    }
  }

  /** One step keeps the two stores joined if and only if they were and it meets no side nodes. */
  lemma StepJoins(p: CM.Params, h: Headers, s: State, step: Step)
    requires WellMade(s.tree) && Enabled(p, h, s, step)
    ensures Joined(Next(p, h, s, step)) <==> Joined(s) && NoSide(s, step)
  {
    if step.Cut? {
      if Place(s.tree, step.zMaxLength) == 0 {
        CutAtRoot(s, step);
      }
      if NoSide(s, step) {
        CutJoins(p, h, s, step);
      } else {
        LastMoved(p, h, s, step);
        NotJoined(p, h, s, step);
      }
    }
  }

  lemma NotJoined(p: CM.Params, h: Headers, s: State, step: Step)
    requires step.Cut? && step.removed != []
    requires Branch(s.tree, Shallow)[Place(s.tree, step.zMaxLength)].block.parentId != step.removed[|step.removed| - 1].block.id
    ensures !Joined(Next(p, h, s, step))
  {
    var s' := Next(p, h, s, step);
    var all := [s'.tree.block] + s'.history;
    assert Back(step.removed)[0] == step.removed[|step.removed| - 1].block;
    assert all[1] == s'.history[0] && all[0].parentId != all[1].id;
  }

  lemma {:induction false} RunJoins(p: CM.Params, h: Headers, s: State, steps: seq<Step>)
    requires WellMade(s.tree) && EnabledRun(p, h, s, steps)
    ensures Joined(After(p, h, s, steps)) <==> Joined(s) && NoSides(p, h, s, steps)
    ensures WellMade(After(p, h, s, steps).tree)
    decreases |steps|
  {
    if steps != [] {
      StepJoins(p, h, s, steps[0]);
      NextWellMade(p, h, s, steps[0]);
      RunJoins(p, h, Next(p, h, s, steps[0]), steps[1..]);
    }
  }

  /** The count a save writes never exceeds the nodes there are. */
  lemma {:induction false} RunCounts(p: CM.Params, h: Headers, s: State, steps: seq<Step>)
    requires WellMade(s.tree) && EnabledRun(p, h, s, steps) && s.counted <= |Visit(s.tree)|
    ensures After(p, h, s, steps).counted <= |Visit(After(p, h, s, steps).tree)|
    decreases |steps|
  {
    if steps != [] {
      if steps[0].Add? {
        InsertCounts(s.tree, steps[0].block.parentId, steps[0].block);
      }
      NextWellMade(p, h, s, steps[0]);
      RunCounts(p, h, Next(p, h, s, steps[0]), steps[1..]);
    }
  }

  lemma MainChainJoins(s: State)
    requires Chained(MainChain(s))
    ensures Joined(s)
  {
    var b := Branch(s.tree, Shallow);
    assert b == [s.tree] + b[1..];
    BackCons(s.tree, b[1..]);
    assert MainChain(s) == Back(b[1..]) + ([s.tree.block] + s.history);
    ChainedRest(Back(b[1..]), [s.tree.block] + s.history);
  }

  /** From a first block on, whatever the additions, forks, recalculations, cuts and restarts,
      the two stores are consistent if and only if no cut met side nodes. That what was once
      moved to the cascade stays in the history holds by construction of the steps. */
  lemma EveryRunConsistent(p: CM.Params, h: Headers, first: Block, steps: seq<Step>)
    requires Formed(p, h(first.id)) && CheckParents(p, h(first.id).superParents, [])
    requires EnabledRun(p, h, Start(first), steps)
    ensures Consistent(p, h, After(p, h, Start(first), steps)) <==> NoSides(p, h, Start(first), steps)
    ensures forall i :: 0 <= i <= |steps| ==>
              Extends(After(p, h, Start(first), steps).history, After(p, h, Start(first), steps[..i]).history)
  {
    StartSound(p, h, first);
    RunJoins(p, h, Start(first), steps);
    if NoSides(p, h, Start(first), steps) {
      RunKeepsSound(p, h, Start(first), steps);
      SoundConsistent(p, h, After(p, h, Start(first), steps));
    }
    if Consistent(p, h, After(p, h, Start(first), steps)) {
      MainChainJoins(After(p, h, Start(first), steps));
    }
    forall i | 0 <= i <= |steps|
      ensures Extends(After(p, h, Start(first), steps).history, After(p, h, Start(first), steps[..i]).history)
    {
      HistoryGrows(p, h, Start(first), steps, i);
    }
  }

  lemma {:induction false} HistoryGrows(p: CM.Params, h: Headers, s: State, steps: seq<Step>, i: nat)
    requires i <= |steps|
    ensures Extends(After(p, h, s, steps).history, After(p, h, s, steps[..i]).history)
    decreases |steps|
  {
    if i > 0 {
      assert steps[..i][1..] == steps[1..][..i - 1];
      HistoryGrows(p, h, Next(p, h, s, steps[0]), steps[1..], i - 1);
    } else if steps != [] {
      var s' := Next(p, h, s, steps[0]);
      HistoryGrows(p, h, s', steps[1..], 0);
      StepExtends(p, h, s, steps[0]);
      ExtendsTwice(After(p, h, s, steps).history, s'.history, s.history);
    }
  }

  /** And exactly then: a cut that moves anything leaves the tree's root naming the
      cascade's tip as its parent if and only if it met no side nodes. */
  lemma CutMeetsExactly(p: CM.Params, h: Headers, s: State, step: Step)
    requires WellMade(s.tree) && step.Cut? && Enabled(p, h, s, step) && Place(s.tree, step.zMaxLength) > 0
    requires forall id :: h(id).id == id
    ensures
      var s' := Next(p, h, s, step);
      && s'.cascade != []
      && (s'.tree.block.parentId == s'.cascade[0].txp.id <==> NoSide(s, step))
  {
    LastMoved(p, h, s, step);
    var last := step.removed[|step.removed| - 1];
    assert Next(p, h, s, step).cascade[0] == Head(h, last.block);
  }
}
