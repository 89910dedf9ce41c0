/** Chain synchronisation: finding the crossover of two chains, shortening both to it,
    comparing their weights, and choosing the blocks to send. */
module IBDModel {
  import opened Common
  import opened CascadeModel

  datatype TxBlock = TxBlock(txp: TxPoW, number: int)

  /** A cascade as received or copied: its nodes from the tip back and the weight it keeps. */
  datatype Cascade = Cascade(chain: seq<Node>, totalWeight: real)

  const EMPTY_CASCADE := Cascade([], 0.0)

  /** `blocks` run from the root to the tip; the cascade, if any, lies below the root. */
  datatype IBD = IBD(cascade: Option<Cascade>, blocks: seq<TxBlock>)

  // ---------------------------------------------------------------- chains as ids

  function IdsDown(blocks: seq<TxBlock>): seq<Id> {
    if blocks == [] then [] else [blocks[|blocks| - 1].txp.id] + IdsDown(blocks[..|blocks| - 1])
  }

  function ChainIds(chain: seq<Node>): seq<Id> {
    if chain == [] then [] else [chain[0].txp.id] + ChainIds(chain[1..])
  }

  function CascadeIds(ibd: IBD): seq<Id> {
    if ibd.cascade == None then [] else ChainIds(ibd.cascade.value.chain)
  }

  /** The whole chain, from the tip back. */
  function AllIds(ibd: IBD): seq<Id> {
    IdsDown(ibd.blocks) + CascadeIds(ibd)
  }

  lemma {:induction false} IdsDownLength(blocks: seq<TxBlock>)
    ensures |IdsDown(blocks)| == |blocks|
    ensures forall i :: 0 <= i < |blocks| ==> IdsDown(blocks)[i] == blocks[|blocks| - 1 - i].txp.id
  {
    if blocks != [] {
      IdsDownLength(blocks[..|blocks| - 1]);
    }
  }

  function IdSet(ids: seq<Id>): set<Id> {
    set i | i in ids
  }

  // ---------------------------------------------------------------- the four passes

  function FirstIn(ids: seq<Id>, s: set<Id>): Option<Id> {
    if ids == [] then None
    else if ids[0] in s then Some(ids[0])
    else FirstIn(ids[1..], s)
  }

  /** Their blocks in our blocks, their blocks in our cascade, their cascade in our blocks,
      their cascade in our cascade: the first hit of the first pass that has one. */
  function FourPasses(theirs: IBD, mine: IBD): Option<Id> {
    var myBlocks, myCascade := IdSet(IdsDown(mine.blocks)), IdSet(CascadeIds(mine));
    var a := FirstIn(IdsDown(theirs.blocks), myBlocks);
    if a.Some? then a else
    var b := FirstIn(IdsDown(theirs.blocks), myCascade);
    if b.Some? then b else
    var c := FirstIn(CascadeIds(theirs), myBlocks);
    if c.Some? then c else FirstIn(CascadeIds(theirs), myCascade)
  }

  /** One search of a chain within another. */
  method FindFirst(ids: seq<Id>, s: set<Id>) returns (hit: Option<Id>)
    ensures hit == FirstIn(ids, s)
  {
    for i := 0 to |ids|
      invariant FirstIn(ids, s) == FirstIn(ids[i..], s)
    {
      assert ids[i..][1..] == ids[i + 1..];
      if ids[i] in s {
        return Some(ids[i]);
      }
    }
    assert ids[|ids|..] == [];
    hit := None;
  }

  /** A chain from the tip back passes through ever lower blocks. */
  ghost predicate Falling(ids: seq<Id>, height: Id -> int) {
    forall i, j :: 0 <= i < j < |ids| ==> height(ids[i]) > height(ids[j])
  }

  lemma {:induction false} FirstInMeaning(ids: seq<Id>, s: set<Id>)
    ensures FirstIn(ids, s) == None <==> forall i :: i in ids ==> i !in s
    ensures FirstIn(ids, s).Some? ==> FirstIn(ids, s).value in ids && FirstIn(ids, s).value in s
  {
    if ids != [] {
      FirstInMeaning(ids[1..], s);
      assert forall i :: i in ids <==> i == ids[0] || i in ids[1..];
    }
  }

  lemma {:induction false} FirstInHighest(ids: seq<Id>, s: set<Id>, height: Id -> int)
    requires Falling(ids, height)
    ensures FirstIn(ids, s).Some? ==> forall i :: i in ids && i in s ==> height(i) <= height(FirstIn(ids, s).value)
  {
    if ids != [] {
      forall i, j | 0 <= i < j < |ids[1..]| ensures height(ids[1..][i]) > height(ids[1..][j]) {
        assert ids[1..][i] == ids[i + 1] && ids[1..][j] == ids[j + 1];
      }
      FirstInHighest(ids[1..], s, height);
      FirstInMeaning(ids[1..], s);
      assert forall i :: i in ids[1..] ==> height(ids[0]) > height(i);
      assert forall i :: i in ids <==> i == ids[0] || i in ids[1..];
    }
  }

  lemma FallingParts(a: seq<Id>, b: seq<Id>, height: Id -> int)
    requires Falling(a + b, height)
    ensures Falling(a, height) && Falling(b, height)
    ensures forall x, y :: x in a && y in b ==> height(x) > height(y)
  {
    forall i, j | 0 <= i < j < |a| ensures height(a[i]) > height(a[j]) {
      assert a[i] == (a + b)[i] && a[j] == (a + b)[j];
    }
    forall i, j | 0 <= i < j < |b| ensures height(b[i]) > height(b[j]) {
      assert b[i] == (a + b)[|a| + i] && b[j] == (a + b)[|a| + j];
    }
    forall x, y | x in a && y in b ensures height(x) > height(y) {
      var i :| 0 <= i < |a| && a[i] == x;
      var j :| 0 <= j < |b| && b[j] == y;
      assert (a + b)[i] == x && (a + b)[|a| + j] == y;
    }
  }

  /** Some block is on both chains, and this is the highest such. */
  ghost predicate HighestCommon(a: seq<Id>, b: seq<Id>, height: Id -> int, id: Id) {
    && id in a && id in b
    && forall i :: i in a && i in b ==> height(i) <= height(id)
  }

  /** For two chains that both fall, the four passes find the highest common block, and find
      nothing only if there is none. */
  lemma FourPassesFindHighest(theirs: IBD, mine: IBD, height: Id -> int)
    requires Falling(AllIds(theirs), height) && Falling(AllIds(mine), height)
    ensures FourPasses(theirs, mine).Some? ==>
              HighestCommon(AllIds(theirs), AllIds(mine), height, FourPasses(theirs, mine).value)
    ensures FourPasses(theirs, mine) == None ==> forall i :: i in AllIds(theirs) ==> i !in AllIds(mine)
  {
    var tb, tc, mb, mc := IdsDown(theirs.blocks), CascadeIds(theirs), IdsDown(mine.blocks), CascadeIds(mine);
    FallingParts(tb, tc, height);
    FallingParts(mb, mc, height);
    PassMeaning(tb, mb, height);
    PassMeaning(tb, mc, height);
    PassMeaning(tc, mb, height);
    PassMeaning(tc, mc, height);
  }

  lemma PassMeaning(ids: seq<Id>, own: seq<Id>, height: Id -> int)
    requires Falling(ids, height)
    ensures
      var hit := FirstIn(ids, IdSet(own));
      && (hit == None <==> forall i :: i in ids ==> i !in own)
      && (hit.Some? ==> HighestCommon(ids, own, height, hit.value))
  {
    FirstInMeaning(ids, IdSet(own));
    FirstInHighest(ids, IdSet(own), height);
  }

  /** The first of `ids` that the other list has too. */
  ghost predicate FirstShared(ids: seq<Id>, own: seq<Id>, id: Id) {
    exists k :: 0 <= k < |ids| && ids[k] == id && id in own && forall j :: 0 <= j < k ==> ids[j] !in own
  }

  predicate Apart(ids: seq<Id>, own: seq<Id>) {
    forall i :: i in ids ==> i !in own
  }

  lemma {:induction false} FirstInPlace(ids: seq<Id>, own: seq<Id>)
    ensures FirstIn(ids, IdSet(own)) == None <==> Apart(ids, own)
    ensures FirstIn(ids, IdSet(own)).Some? ==> FirstShared(ids, own, FirstIn(ids, IdSet(own)).value)
  {
    FirstInMeaning(ids, IdSet(own));
    if ids != [] && ids[0] !in own {
      var rest := ids[1..];
      FirstInPlace(rest, own);
      if id :| FirstIn(rest, IdSet(own)) == Some(id) {
        var k :| 0 <= k < |rest| && rest[k] == id && id in own && forall j :: 0 <= j < k ==> rest[j] !in own;
        forall j | 0 <= j < k + 1 ensures ids[j] !in own {
          assert j > 0 ==> ids[j] == rest[j - 1];
        }
        assert ids[k + 1] == id;
      }
    }
  }

  /** Whatever the two messages hold, falling chains or not: the first hit of the first pass
      that has one, in this order. */
  lemma FourPassesInOrder(theirs: IBD, mine: IBD)
    ensures
      var tb, tc, mb, mc := IdsDown(theirs.blocks), CascadeIds(theirs), IdsDown(mine.blocks), CascadeIds(mine);
      match FourPasses(theirs, mine)
      case Some(id) =>
        || FirstShared(tb, mb, id)
        || (Apart(tb, mb) && FirstShared(tb, mc, id))
        || (Apart(tb, mb) && Apart(tb, mc) && FirstShared(tc, mb, id))
        || (Apart(tb, mb) && Apart(tb, mc) && Apart(tc, mb) && FirstShared(tc, mc, id))
      case None => Apart(tb, mb) && Apart(tb, mc) && Apart(tc, mb) && Apart(tc, mc)
  {
    FirstInPlace(IdsDown(theirs.blocks), IdsDown(mine.blocks));
    FirstInPlace(IdsDown(theirs.blocks), CascadeIds(mine));
    FirstInPlace(CascadeIds(theirs), IdsDown(mine.blocks));
    FirstInPlace(CascadeIds(theirs), CascadeIds(mine));
  }

  // ---------------------------------------------------------------- shortening

  /** The ids up to and including the given one; all of them if it is not there. */
  function UpTo(ids: seq<Id>, id: Id): seq<Id> {
    if ids == [] then []
    else if ids[0] == id then [id]
    else [ids[0]] + UpTo(ids[1..], id)
  }

  /** The blocks from the tip back, up to and including the given one. */
  function Kept(blocks: seq<TxBlock>, id: Id): seq<TxBlock> {
    if blocks == [] then []
    else
      var last := blocks[|blocks| - 1];
      if last.txp.id == id then [last] else Kept(blocks[..|blocks| - 1], id) + [last]
  }

  /** The blocks above the given one. */
  function Above(blocks: seq<TxBlock>, id: Id): seq<TxBlock> {
    if blocks == [] then []
    else
      var last := blocks[|blocks| - 1];
      if last.txp.id == id then [] else Above(blocks[..|blocks| - 1], id) + [last]
  }

  function KeepNodes(chain: seq<Node>, id: Id): nat {
    if chain == [] then 0
    else if chain[0].txp.id == id then 1
    else 1 + KeepNodes(chain[1..], id)
  }

  lemma IdsDownAppend(blocks: seq<TxBlock>, last: TxBlock)
    ensures IdsDown(blocks + [last]) == [last.txp.id] + IdsDown(blocks)
  {
    assert (blocks + [last])[..|blocks|] == blocks;
  }

  lemma {:induction false} KeptIds(blocks: seq<TxBlock>, id: Id)
    ensures IdsDown(Kept(blocks, id)) == UpTo(IdsDown(blocks), id)
  {
    if blocks != [] {
      var last, rest := blocks[|blocks| - 1], blocks[..|blocks| - 1];
      assert IdsDown(blocks)[1..] == IdsDown(rest);
      KeptIds(rest, id);
      IdsDownAppend(Kept(rest, id), last);
      IdsDownAppend([], last);
      assert [] + [last] == [last];
    }
  }

  lemma ConsIds(n: Node, rest: seq<Node>, id: Id)
    ensures ChainIds([n] + rest) == [n.txp.id] + ChainIds(rest)
    ensures UpTo([n.txp.id] + ChainIds(rest), id) ==
            if n.txp.id == id then [id] else [n.txp.id] + UpTo(ChainIds(rest), id)
  {
    assert ([n] + rest)[1..] == rest;
    assert ([n.txp.id] + ChainIds(rest))[1..] == ChainIds(rest);
  }

  lemma {:induction false} KeepNodesMeaning(chain: seq<Node>, id: Id)
    ensures KeepNodes(chain, id) <= |chain|
    ensures ChainIds(chain[..KeepNodes(chain, id)]) == UpTo(ChainIds(chain), id)
  {
    if chain != [] {
      var n, rest := chain[0], chain[1..];
      var k := KeepNodes(rest, id);
      assert chain == [n] + rest;
      ConsIds(n, rest, id);
      KeepNodesMeaning(rest, id);
      if n.txp.id == id {
        ConsIds(n, [], id);
        assert chain[..1] == [n] + [];
      } else {
        ConsIds(n, rest[..k], id);
        assert chain[..k + 1] == [n] + rest[..k];
      }
    }
  }

  lemma UpToCons(first: Id, rest: seq<Id>, id: Id)
    ensures UpTo([first] + rest, id) == if first == id then [id] else [first] + UpTo(rest, id)
  {
    assert ([first] + rest)[1..] == rest;
  }

  lemma Grouping(first: Id, rest: seq<Id>, b: seq<Id>)
    ensures [first] + rest + b == [first] + (rest + b)
  {
  }

  lemma {:induction false} UpToConcat(a: seq<Id>, b: seq<Id>, id: Id)
    ensures UpTo(a + b, id) == if id in a then UpTo(a, id) else a + UpTo(b, id)
  {
    if a == [] {
      assert a + b == b;
    } else {
      var first, rest := a[0], a[1..];
      assert a == [first] + rest;
      UpToConcat(rest, b, id);
      UpToCons(first, rest, id);
      UpToCons(first, rest + b, id);
      Grouping(first, rest, b);
      Grouping(first, rest, UpTo(b, id));
    }
  }

  function Zeroed(chain: seq<Node>): seq<Node> {
    if chain == [] then [] else [Node(chain[0].txp, 0)] + Zeroed(chain[1..])
  }

  /** What the shortened copy holds. */
  function Shortened(p: Params, ibd: IBD, id: Id): IBD {
    var kept := Kept(ibd.blocks, id);
    if id in IdsDown(ibd.blocks) then IBD(Some(EMPTY_CASCADE), kept)
    else
      var chain := if ibd.cascade == None then [] else ibd.cascade.value.chain;
      KeepNodesMeaning(chain, id);
      var shorter := Cascaded(p, Zeroed(chain[..KeepNodes(chain, id)]));
      IBD(Some(Cascade(shorter, TotalWeight(p, shorter))), kept)
  }

  lemma {:induction false} WalkIgnoresLevels(p: Params, c: Cursor, chain: seq<Node>)
    ensures Walk(p, c, Zeroed(chain)) == Walk(p, c, chain)
    decreases |chain|
  {
    if chain != [] {
      assert Zeroed(chain)[1..] == Zeroed(chain[1..]);
      WalkIgnoresLevels(p, if chain[0].txp.superLevel >= c.level then Advance(p, c) else c, chain[1..]);
    }
  }

  lemma {:induction false} WalkShorter(p: Params, c: Cursor, chain: seq<Node>)
    ensures |Walk(p, c, chain)| <= |chain|
    decreases |chain|
  {
    if chain != [] {
      WalkShorter(p, if chain[0].txp.superLevel >= c.level then Advance(p, c) else c, chain[1..]);
    }
  }

  /** Any tip-side part of a cascade, rebuilt from its blocks alone, gets its old levels. */
  lemma ShortenedKeepsLevels(p: Params, chain: seq<Node>, k: nat)
    requires chain == Cascaded(p, chain) && (chain != [] ==> chain[0].level == 0) && k <= |chain|
    ensures Cascaded(p, Zeroed(chain[..k])) == chain[..k]
  {
    if k > 0 {
      var a, b := chain[1..k], chain[k..];
      assert chain[..k] == [chain[0]] + a && chain[..k][1..] == a;
      assert chain[1..] == a + b;
      WalkConcat(p, START, a, b);
      WalkShorter(p, START, a);
      WalkShorter(p, After(p, START, a), b);
      assert Walk(p, START, a + b) == a + b;
      assert Walk(p, START, a) == (a + b)[..|Walk(p, START, a)|];
      assert Zeroed(chain[..k])[1..] == Zeroed(a);
      WalkIgnoresLevels(p, START, a);
    }
  }

  ghost predicate InCascadedForm(p: Params, ibd: IBD) {
    ibd.cascade.Some? ==>
      var chain := ibd.cascade.value.chain;
      chain == Cascaded(p, chain) && (chain != [] ==> chain[0].level == 0)
  }

  /** createShortenedIBD keeps exactly the tip-side segment up to the crossover, block for
      block, and the nodes of a shortened cascade keep their levels. */
  lemma ShortenedIsSegment(p: Params, ibd: IBD, id: Id)
    requires InCascadedForm(p, ibd) && id in AllIds(ibd)
    ensures AllIds(Shortened(p, ibd, id)) == UpTo(AllIds(ibd), id)
    ensures id !in IdsDown(ibd.blocks) ==>
              ibd.cascade.Some? && KeepNodes(ibd.cascade.value.chain, id) <= |ibd.cascade.value.chain| &&
              Shortened(p, ibd, id).blocks == ibd.blocks &&
              Shortened(p, ibd, id).cascade.value.chain == ibd.cascade.value.chain[..KeepNodes(ibd.cascade.value.chain, id)]
  {
    KeptIds(ibd.blocks, id);
    UpToConcat(IdsDown(ibd.blocks), CascadeIds(ibd), id);
    if id in IdsDown(ibd.blocks) {
      assert UpTo(IdsDown(ibd.blocks), id) + [] == UpTo(IdsDown(ibd.blocks), id);
    } else {
      var chain := ibd.cascade.value.chain;
      KeepNodesMeaning(chain, id);
      ShortenedKeepsLevels(p, chain, KeepNodes(chain, id));
      KeptAll(ibd.blocks, id);
    }
  }

  lemma {:induction false} KeptAll(blocks: seq<TxBlock>, id: Id)
    requires id !in IdsDown(blocks)
    ensures Kept(blocks, id) == blocks
  {
    if blocks != [] {
      var last, rest := blocks[|blocks| - 1], blocks[..|blocks| - 1];
      assert IdsDown(blocks) == [last.txp.id] + IdsDown(rest);
      assert id !in [last.txp.id] && id !in IdsDown(rest);
      KeptAll(rest, id);
    }
  }

  // ---------------------------------------------------------------- weights and verdict

  function BlocksWeight(blocks: seq<TxBlock>): real {
    if blocks == [] then 0.0 else BlocksWeight(blocks[..|blocks| - 1]) + blocks[|blocks| - 1].txp.weight
  }

  /** getAsBigInteger: the integer part, towards zero. */
  function Truncate(x: real): int {
    if x >= 0.0 then x.Floor else -(-x).Floor
  }

  function IBDWeight(ibd: IBD): int {
    (if ibd.cascade == None then 0 else Truncate(ibd.cascade.value.totalWeight)) + Truncate(BlocksWeight(ibd.blocks))
  }

  function OurChainHeavier(p: Params, mine: IBD, theirs: IBD): bool {
    match FourPasses(theirs, mine)
    case Some(id) => IBDWeight(Shortened(p, mine, id)) >= IBDWeight(Shortened(p, theirs, id))
    case None => IBDWeight(mine) >= IBDWeight(theirs)
  }

  lemma FallingOnce(ids: seq<Id>, height: Id -> int, x: Id, y: Id)
    requires Falling(ids, height) && x in ids && y in ids && height(x) == height(y)
    ensures x == y
  {
    var i :| 0 <= i < |ids| && ids[i] == x;
    var j :| 0 <= j < |ids| && ids[j] == y;
  }

  /** Both nodes find the same crossover, or neither finds any. */
  lemma SameCrossover(a: IBD, b: IBD, height: Id -> int)
    requires Falling(AllIds(a), height) && Falling(AllIds(b), height)
    ensures FourPasses(a, b) == FourPasses(b, a)
  {
    FourPassesFindHighest(a, b, height);
    FourPassesFindHighest(b, a, height);
    if FourPasses(a, b).Some? && FourPasses(b, a).Some? {
      FallingOnce(AllIds(a), height, FourPasses(a, b).value, FourPasses(b, a).value);
    }
  }

  /** Two nodes that compare each other's chains never both find the other's heavier. */
  lemma NeverBothSwitch(p: Params, a: IBD, b: IBD, height: Id -> int)
    requires Falling(AllIds(a), height) && Falling(AllIds(b), height)
    ensures OurChainHeavier(p, a, b) || OurChainHeavier(p, b, a)
  {
    SameCrossover(a, b, height);
  }

  lemma NoHit(ids: seq<Id>, own: seq<Id>)
    requires forall i :: i in ids ==> i !in own
    ensures FirstIn(ids, IdSet(own)) == None
  {
    FirstInMeaning(ids, IdSet(own));
  }

  /** With no common block the verdict compares the two whole messages, each part of each cut
      to a whole number. */
  lemma VerdictWithoutCrossover(p: Params, mine: IBD, theirs: IBD)
    requires forall i :: i in AllIds(theirs) ==> i !in AllIds(mine)
    ensures
      var myweight := Truncate(BlocksWeight(mine.blocks)) + if mine.cascade == None then 0 else Truncate(mine.cascade.value.totalWeight);
      var theirweight := Truncate(BlocksWeight(theirs.blocks)) + if theirs.cascade == None then 0 else Truncate(theirs.cascade.value.totalWeight);
      OurChainHeavier(p, mine, theirs) <==> myweight >= theirweight
  {
    forall i | i in IdsDown(theirs.blocks) || i in CascadeIds(theirs)
      ensures i !in IdsDown(mine.blocks) && i !in CascadeIds(mine)
    {
      assert i in AllIds(theirs);
    }
    NoHit(IdsDown(theirs.blocks), IdsDown(mine.blocks));
    NoHit(IdsDown(theirs.blocks), CascadeIds(mine));
    NoHit(CascadeIds(theirs), IdsDown(mine.blocks));
    NoHit(CascadeIds(theirs), CascadeIds(mine));
  }

  /** The integer part, towards zero. */
  lemma TruncateIs(x: real)
    ensures x >= 0.0 ==> Truncate(x) as real <= x < Truncate(x) as real + 1.0
    ensures x < 0.0 ==> Truncate(x) as real - 1.0 < x <= Truncate(x) as real
  {
  }

  /** The blocks kept are the stretch from the crossover to the tip. */
  lemma {:induction false} KeptIs(blocks: seq<TxBlock>, id: Id) returns (k: nat)
    requires id in IdsDown(blocks)
    ensures k < |blocks| && blocks[k].txp.id == id && Kept(blocks, id) == blocks[k..]
    ensures forall j :: k < j < |blocks| ==> blocks[j].txp.id != id
  {
    var last, rest := blocks[|blocks| - 1], blocks[..|blocks| - 1];
    if last.txp.id == id {
      k := |blocks| - 1;
    } else {
      k := KeptIs(rest, id);
      assert blocks[k..] == rest[k..] + [last];
      assert forall j :: k < j < |rest| ==> rest[j] == blocks[j];
    }
  }

  /** On a chain that has the block, its place and what lies above it. */
  lemma {:induction false} AboveIs(blocks: seq<TxBlock>, id: Id) returns (k: nat)
    requires id in IdsDown(blocks)
    ensures k < |blocks| && blocks[k].txp.id == id && Above(blocks, id) == blocks[k + 1..]
    ensures forall j :: k < j < |blocks| ==> blocks[j].txp.id != id
  {
    var last, rest := blocks[|blocks| - 1], blocks[..|blocks| - 1];
    if last.txp.id == id {
      k := |blocks| - 1;
    } else {
      k := AboveIs(rest, id);
      assert blocks[k + 1..] == rest[k + 1..] + [last];
      assert forall j :: k < j < |rest| ==> rest[j] == blocks[j];
    }
  }

  lemma {:induction false} KeptWeight(blocks: seq<TxBlock>, x: TxBlock)
    requires x.txp.id in IdsDown(blocks) && forall b :: b in blocks && b.txp.id == x.txp.id ==> b == x
    ensures BlocksWeight(Kept(blocks, x.txp.id)) == x.txp.weight + BlocksWeight(Above(blocks, x.txp.id))
  {
    var last, rest := blocks[|blocks| - 1], blocks[..|blocks| - 1];
    if last.txp.id == x.txp.id {
      assert last in blocks;
      WeightAppend([], last);
      assert [] + [last] == [last];
    } else {
      KeptWeight(rest, x);
      WeightAppend(Kept(rest, x.txp.id), last);
      WeightAppend(Above(rest, x.txp.id), last);
    }
  }

  lemma WeightAppend(blocks: seq<TxBlock>, last: TxBlock)
    ensures BlocksWeight(blocks + [last]) == BlocksWeight(blocks) + last.txp.weight
  {
    assert (blocks + [last])[..|blocks|] == blocks;
  }

  lemma {:induction false} WeightNonNegative(blocks: seq<TxBlock>)
    requires forall b :: b in blocks ==> b.txp.weight >= 0.0
    ensures BlocksWeight(blocks) >= 0.0
  {
    if blocks != [] {
      WeightNonNegative(blocks[..|blocks| - 1]);
    }
  }

  /** The crossover lies in both block lists and is the same block in both. */
  ghost predicate CrossoverInBlocks(mine: IBD, theirs: IBD, x: TxBlock) {
    && FourPasses(theirs, mine) == Some(x.txp.id)
    && x.txp.id in IdsDown(mine.blocks) && x.txp.id in IdsDown(theirs.blocks)
    && (forall b :: b in mine.blocks && b.txp.id == x.txp.id ==> b == x)
    && (forall b :: b in theirs.blocks && b.txp.id == x.txp.id ==> b == x)
  }

  lemma ShortenedInBlocks(p: Params, ibd: IBD, id: Id)
    requires id in IdsDown(ibd.blocks)
    ensures Shortened(p, ibd, id) == IBD(Some(EMPTY_CASCADE), Kept(ibd.blocks, id))
  {
  }

  lemma WithEmptyCascade(blocks: seq<TxBlock>)
    ensures IBDWeight(IBD(Some(EMPTY_CASCADE), blocks)) == Truncate(BlocksWeight(blocks))
  {
  }

  lemma ShortenedWeight(p: Params, ibd: IBD, x: TxBlock)
    requires x.txp.id in IdsDown(ibd.blocks) && forall b :: b in ibd.blocks && b.txp.id == x.txp.id ==> b == x
    ensures IBDWeight(Shortened(p, ibd, x.txp.id)) == Truncate(x.txp.weight + BlocksWeight(Above(ibd.blocks, x.txp.id)))
  {
    ShortenedInBlocks(p, ibd, x.txp.id);
    WithEmptyCascade(Kept(ibd.blocks, x.txp.id));
    KeptWeight(ibd.blocks, x);
  }

  /** Then only the crossover and the blocks above it are compared, as whole numbers. */
  lemma VerdictIs(p: Params, mine: IBD, theirs: IBD, x: TxBlock)
    requires CrossoverInBlocks(mine, theirs, x)
    ensures
      OurChainHeavier(p, mine, theirs) <==>
      Truncate(x.txp.weight + BlocksWeight(Above(mine.blocks, x.txp.id))) >=
      Truncate(x.txp.weight + BlocksWeight(Above(theirs.blocks, x.txp.id)))
  {
    ShortenedWeight(p, mine, x);
    ShortenedWeight(p, theirs, x);
  }

  predicate Weighed(blocks: seq<TxBlock>) {
    forall b :: b in blocks ==> b.txp.weight >= 0.0
  }

  predicate Whole(x: real) { x == x.Floor as real }

  lemma {:induction false} AboveIn(blocks: seq<TxBlock>, id: Id)
    ensures forall b :: b in Above(blocks, id) ==> b in blocks
  {
    if blocks != [] {
      AboveIn(blocks[..|blocks| - 1], id);
    }
  }

  lemma AboveNonNegative(blocks: seq<TxBlock>, id: Id)
    requires Weighed(blocks)
    ensures BlocksWeight(Above(blocks, id)) >= 0.0
  {
    AboveIn(blocks, id);
    WeightNonNegative(Above(blocks, id));
  }

  lemma IntSum(m: int, n: int)
    ensures (m + n) as real == m as real + n as real && (m as real).Floor == m
  {
  }

  lemma WholeAdd(x: real, y: real)
    requires Whole(x) && Whole(y)
    ensures Whole(x + y)
  {
    IntSum(x.Floor, y.Floor);
    IntSum(x.Floor + y.Floor, 0);
  }

  lemma WholeGap(x: real, y: real)
    requires Whole(x) && Whole(y) && x > y
    ensures x >= y + 1.0
  {
    assert x.Floor >= y.Floor + 1;
    IntSum(y.Floor, 1);
  }

  lemma {:induction false} WholeSum(blocks: seq<TxBlock>)
    requires forall b :: b in blocks ==> Whole(b.txp.weight)
    ensures Whole(BlocksWeight(blocks))
  {
    if blocks != [] {
      WholeSum(blocks[..|blocks| - 1]);
      assert blocks[|blocks| - 1] in blocks;
      WholeAdd(BlocksWeight(blocks[..|blocks| - 1]), blocks[|blocks| - 1].txp.weight);
    }
  }

  lemma TruncateGap(a: real, b: real)
    requires a >= 0.0 && b >= 0.0
    ensures Truncate(a) < Truncate(b) ==> a < b
    ensures b >= a + 1.0 ==> Truncate(a) < Truncate(b)
  {
  }

  /** We call the peer's chain heavier only if its blocks above the crossover outweigh ours,
      and always if they do so by a whole unit. */
  lemma VerdictSound(p: Params, mine: IBD, theirs: IBD, x: TxBlock)
    requires CrossoverInBlocks(mine, theirs, x) && x.txp.weight >= 0.0 && Weighed(mine.blocks) && Weighed(theirs.blocks)
    ensures
      var ours, other := BlocksWeight(Above(mine.blocks, x.txp.id)), BlocksWeight(Above(theirs.blocks, x.txp.id));
      && (!OurChainHeavier(p, mine, theirs) ==> other > ours)
      && (other >= ours + 1.0 ==> !OurChainHeavier(p, mine, theirs))
  {
    AboveNonNegative(mine.blocks, x.txp.id);
    AboveNonNegative(theirs.blocks, x.txp.id);
    var ours, other := BlocksWeight(Above(mine.blocks, x.txp.id)), BlocksWeight(Above(theirs.blocks, x.txp.id));
    TruncateGap(x.txp.weight + ours, x.txp.weight + other);
    VerdictIs(p, mine, theirs, x);
  }

  /** When every weight is a whole number, exactly if they outweigh ours at all. */
  lemma WholeVerdictExact(p: Params, mine: IBD, theirs: IBD, x: TxBlock)
    requires CrossoverInBlocks(mine, theirs, x) && x.txp.weight >= 0.0 && Weighed(mine.blocks) && Weighed(theirs.blocks)
    requires forall b :: b in mine.blocks || b in theirs.blocks ==> Whole(b.txp.weight)
    ensures !OurChainHeavier(p, mine, theirs) <==>
            BlocksWeight(Above(theirs.blocks, x.txp.id)) > BlocksWeight(Above(mine.blocks, x.txp.id))
  {
    VerdictSound(p, mine, theirs, x);
    AboveIn(mine.blocks, x.txp.id);
    AboveIn(theirs.blocks, x.txp.id);
    WholeSum(Above(mine.blocks, x.txp.id));
    WholeSum(Above(theirs.blocks, x.txp.id));
    var ours, other := BlocksWeight(Above(mine.blocks, x.txp.id)), BlocksWeight(Above(theirs.blocks, x.txp.id));
    if other > ours {
      WholeGap(other, ours);
    }
  }
}
