/** Building and comparing IBD messages: the loops of i_b_d.cpp over a node's own chain and
    the chain another node announced. */
module IBDBuild {
  import opened Common
  import opened CascadeModel
  import opened IBDModel

  /** What a node stores: the tree's branch from root to tip, the cascade below it, and the
      archive, indexed by id and by block number. */
  datatype Archive = Archive(numberOf: map<Id, int>, blockAt: map<int, TxBlock>)

  datatype Database = Database(branch: seq<TxBlock>, cascade: Cascade, archive: Archive)

  /** The top and root numbers and the ids from the tip back; a new node sends -1. */
  datatype Greeting = Greeting(topBlock: int, rootBlock: int, chain: seq<Id>)

  const MAX_BLOCKS_FOR_IBD := 34000

  // ---------------------------------------------------------------- complete messages

  function DeepCopy(p: Params, c: Cascade): Cascade {
    var chain := Cascaded(p, c.chain);
    Cascade(chain, TotalWeight(p, chain))
  }

  function Complete(p: Params, db: Database): IBD {
    IBD(Some(DeepCopy(p, db.cascade)), db.branch)
  }

  // ---------------------------------------------------------------- the archive

  /** ArchiveManager::exists: the block number, or -1. */
  function Exists(a: Archive, id: Id): int {
    if id in a.numberOf then a.numberOf[id] else -1
  }

  ghost predicate Stored(a: Archive) {
    forall id :: id in a.numberOf ==> a.numberOf[id] >= 0
  }

  /** The sampling loop: every twentieth id from the tip back, up to the first hit. */
  function SampleFrom(a: Archive, chain: seq<Id>, counter: nat): int
    decreases |chain| - counter
  {
    if counter >= |chain| then -1
    else if counter % 20 == 0 && Exists(a, chain[counter]) != -1 then Exists(a, chain[counter])
    else SampleFrom(a, chain, counter + 1)
  }

  /** The sampled hit, or else the last id of the chain. */
  function Found(a: Archive, chain: seq<Id>): int {
    var f := SampleFrom(a, chain, 0);
    if f == -1 && chain != [] then Exists(a, chain[|chain| - 1]) else f
  }

  /** Once an id of the chain is archived, so are all older ones. */
  predicate HitsAreSuffix(a: Archive, chain: seq<Id>) {
    forall i, j :: 0 <= i < j < |chain| && chain[i] in a.numberOf ==> chain[j] in a.numberOf
  }

  lemma {:induction false} SampleMeaning(a: Archive, chain: seq<Id>, counter: nat) returns (f: nat)
    requires Stored(a)
    ensures SampleFrom(a, chain, counter) == -1 ==>
              forall j :: counter <= j < |chain| && j % 20 == 0 ==> chain[j] !in a.numberOf
    ensures SampleFrom(a, chain, counter) != -1 ==>
              && counter <= f < |chain| && f % 20 == 0 && chain[f] in a.numberOf
              && SampleFrom(a, chain, counter) == a.numberOf[chain[f]]
              && forall j :: counter <= j < f && j % 20 == 0 ==> chain[j] !in a.numberOf
    decreases |chain| - counter
  {
    f := counter;
    if counter < |chain| && !(counter % 20 == 0 && Exists(a, chain[counter]) != -1) {
      f := SampleMeaning(a, chain, counter + 1);
    }
  }

  /** Sampling never misses an intersection, and of the ids the peer shares with the archive
      fewer than twenty lie above the one it settles on. */
  lemma SamplingFinds(a: Archive, chain: seq<Id>) returns (f: nat)
    requires Stored(a) && HitsAreSuffix(a, chain)
    ensures Found(a, chain) == -1 <==> forall i :: i in chain ==> i !in a.numberOf
    ensures Found(a, chain) != -1 ==>
              && f < |chain| && chain[f] in a.numberOf && Found(a, chain) == a.numberOf[chain[f]]
              && forall j :: 0 <= j <= f - 20 ==> chain[j] !in a.numberOf
  {
    f := SampleMeaning(a, chain, 0);
    if SampleFrom(a, chain, 0) != -1 {
      if f >= 20 {
        assert chain[f - 20] !in a.numberOf;
      }
    } else if chain != [] {
      f := |chain| - 1;
      var m := f - f % 20;
      assert chain[m] !in a.numberOf;
    }
  }

  /** The archived blocks strictly between two numbers, ascending. */
  function RangeUp(a: Archive, lo: int, hi: int): seq<TxBlock>
    decreases hi - lo
  {
    if hi - 1 <= lo then []
    else RangeUp(a, lo, hi - 1) + if hi - 1 in a.blockAt then [a.blockAt[hi - 1]] else []
  }

  /** The blocks are numbered one after the other, from the given number on. */
  predicate Consecutive(blocks: seq<TxBlock>, from: int) {
    forall i :: 0 <= i < |blocks| ==> blocks[i].number == from + i
  }

  lemma {:induction false} RangeConsecutive(a: Archive, lo: int, hi: int)
    requires lo < hi
    requires forall n :: lo < n < hi ==> n in a.blockAt && a.blockAt[n].number == n
    ensures |RangeUp(a, lo, hi)| == hi - lo - 1 && Consecutive(RangeUp(a, lo, hi), lo + 1)
    decreases hi - lo
  {
    if hi - 1 > lo {
      RangeConsecutive(a, lo, hi - 1);
    }
  }

  // ---------------------------------------------------------------- createIBD

  function Answer(p: Params, db: Database, g: Greeting): (bool, IBD) {
    if db.branch == [] then (true, IBD(None, []))
    else if g.topBlock == -1 then (true, Complete(p, db))
    else
      var myroot, mytip := db.branch[0].number, db.branch[|db.branch| - 1].number;
      if g.topBlock < myroot then
        var found := Found(db.archive, g.chain);
        if found == -1 || myroot - found > MAX_BLOCKS_FOR_IBD then (true, Complete(p, db))
        else (true, IBD(None, RangeUp(db.archive, found, myroot) + db.branch))
      else if g.rootBlock > mytip then (true, Complete(p, db))
      else
        match FirstIn(g.chain, IdSet(IdsDown(db.branch)))
        case Some(id) => (true, IBD(None, Above(db.branch, id)))
        case None => (false, Complete(p, db))
  }

  /** On a crossover, exactly our branch above the highest block both chains have. */
  lemma AnswerAfterCrossover(p: Params, db: Database, g: Greeting, height: Id -> int)
    requires db.branch != [] && g.topBlock != -1
    requires g.topBlock >= db.branch[0].number && g.rootBlock <= db.branch[|db.branch| - 1].number
    requires Falling(g.chain, height) && Falling(IdsDown(db.branch), height)
    ensures !Answer(p, db, g).0 <==> forall i :: i in g.chain ==> i !in IdsDown(db.branch)
    ensures !Answer(p, db, g).0 ==> Answer(p, db, g).1 == Complete(p, db)
    ensures Answer(p, db, g).0 ==>
              exists k :: 0 <= k < |db.branch|
                && HighestCommon(g.chain, IdsDown(db.branch), height, db.branch[k].txp.id)
                && Answer(p, db, g).1 == IBD(None, db.branch[k + 1..])
  {
    PassMeaning(g.chain, IdsDown(db.branch), height);
    match FirstIn(g.chain, IdSet(IdsDown(db.branch)))
    case Some(id) =>
      var k := AboveIs(db.branch, id);
    case None =>
  }

  /** Falling chains or not: our branch above the first announced id it has. */
  lemma AnswerAboveFirst(p: Params, db: Database, g: Greeting) returns (k: nat)
    requires db.branch != [] && g.topBlock != -1
    requires g.topBlock >= db.branch[0].number && g.rootBlock <= db.branch[|db.branch| - 1].number
    requires !Apart(g.chain, IdsDown(db.branch))
    ensures k < |db.branch| && FirstShared(g.chain, IdsDown(db.branch), db.branch[k].txp.id)
    ensures forall j :: k < j < |db.branch| ==> db.branch[j].txp.id != db.branch[k].txp.id
    ensures Answer(p, db, g).0 && Answer(p, db, g).1.cascade == None && Answer(p, db, g).1.blocks == db.branch[k + 1..]
  {
    FirstInPlace(g.chain, IdsDown(db.branch));
    k := AboveIs(db.branch, FirstIn(g.chain, IdSet(IdsDown(db.branch))).value);
  }

  /** When the archive, a crossover or anything to send is missing, and for a new node, the
      answer is the whole branch with the pruned cascade below it; it is called invalid only
      when the chains overlap and share no block. */
  lemma AnswerWhole(p: Params, db: Database, g: Greeting)
    requires db.branch != []
    requires
      var myroot, mytip := db.branch[0].number, db.branch[|db.branch| - 1].number;
      || g.topBlock == -1
      || (g.topBlock < myroot && (Found(db.archive, g.chain) == -1 || myroot - Found(db.archive, g.chain) > 34000))
      || (g.topBlock >= myroot && g.rootBlock > mytip)
      || (g.topBlock >= myroot && forall i :: i in g.chain ==> i !in IdsDown(db.branch))
    ensures
      var (isvalid, ibd) := Answer(p, db, g);
      && ibd.blocks == db.branch && ibd.cascade.Some?
      && ibd.cascade.value.chain == Cascaded(p, db.cascade.chain)
      && ibd.cascade.value.totalWeight == TotalWeight(p, Cascaded(p, db.cascade.chain))
      && (isvalid <==> g.topBlock == -1 || g.topBlock < db.branch[0].number || g.rootBlock > db.branch[|db.branch| - 1].number)
    ensures
      db.cascade.chain == Cascaded(p, db.cascade.chain) ==> Answer(p, db, g).1.cascade.value.chain == db.cascade.chain
  {
    FirstInMeaning(g.chain, IdSet(IdsDown(db.branch)));
  }

  /** From the archive, gaps or not: the archived blocks after the intersection, then the
      branch, and no cascade. */
  lemma AnswerArchived(p: Params, db: Database, g: Greeting)
    requires db.branch != [] && g.topBlock != -1 && g.topBlock < db.branch[0].number
    requires Found(db.archive, g.chain) != -1 && db.branch[0].number - Found(db.archive, g.chain) <= 34000
    ensures Answer(p, db, g).0 && Answer(p, db, g).1.cascade == None
    ensures Answer(p, db, g).1.blocks == RangeUp(db.archive, Found(db.archive, g.chain), db.branch[0].number) + db.branch
  {
  }

  /** Without a branch there is nothing to send. */
  lemma AnswerNothing(p: Params, db: Database, g: Greeting)
    requires db.branch == []
    ensures Answer(p, db, g).0 && Answer(p, db, g).1.blocks == [] && Answer(p, db, g).1.cascade == None
  {
  }

  /** Gap or not, exactly the archived blocks whose numbers lie strictly between. */
  lemma {:induction false} RangeHas(a: Archive, lo: int, hi: int)
    ensures forall b :: b in RangeUp(a, lo, hi) <==> exists n :: lo < n < hi && n in a.blockAt && a.blockAt[n] == b
    ensures (forall n :: n in a.blockAt ==> a.blockAt[n].number == n) ==>
              forall i, j :: 0 <= i < j < |RangeUp(a, lo, hi)| ==> RangeUp(a, lo, hi)[i].number < RangeUp(a, lo, hi)[j].number
    decreases hi - lo
  {
    if hi - 1 > lo {
      RangeHas(a, lo, hi - 1);
      var rest, all := RangeUp(a, lo, hi - 1), RangeUp(a, lo, hi);
      if forall n :: n in a.blockAt ==> a.blockAt[n].number == n {
        forall i | 0 <= i < |rest| ensures rest[i].number < hi - 1 {
          assert rest[i] in rest;
        }
      }
    }
  }

  /** From the archive: with no gap between the intersection and our root, a gap-free
      ascending run that begins right after the intersection and ends at our tip. */
  lemma AnswerFromArchive(p: Params, db: Database, g: Greeting)
    requires db.branch != [] && g.topBlock != -1 && g.topBlock < db.branch[0].number
    requires Consecutive(db.branch, db.branch[0].number)
    requires
      var found := Found(db.archive, g.chain);
      && found != -1 && found < db.branch[0].number <= found + 34000
      && forall n :: found < n < db.branch[0].number ==> n in db.archive.blockAt && db.archive.blockAt[n].number == n
    ensures
      var found := Found(db.archive, g.chain);
      var blocks := Answer(p, db, g).1.blocks;
      && Answer(p, db, g).0
      && Consecutive(blocks, found + 1)
      && |blocks| == db.branch[|db.branch| - 1].number - found
      && blocks[|blocks| - 1] == db.branch[|db.branch| - 1]
  {
    RangeConsecutive(db.archive, Found(db.archive, g.chain), db.branch[0].number);
  }

  // ---------------------------------------------------------------- the methods

  lemma Joined(a: seq<TxBlock>, b: TxBlock, c: seq<TxBlock>)
    ensures a + [b] + c == a + ([b] + c)
  {
  }

  /** loadBlockRange: the stored blocks strictly between, highest first. */
  method LoadBlockRange(a: Archive, lo: int, hi: int) returns (blocks: seq<TxBlock>)
    ensures |blocks| == |RangeUp(a, lo, hi)|
    ensures forall i :: 0 <= i < |blocks| ==> blocks[i] == RangeUp(a, lo, hi)[|blocks| - 1 - i]
  {
    blocks := [];
    var n := hi - 1;
    while n > lo
      invariant n < hi
      invariant n > lo || n == lo || n == hi - 1
      invariant |blocks| + |RangeUp(a, lo, n + 1)| == |RangeUp(a, lo, hi)|
      invariant RangeUp(a, lo, hi)[..|RangeUp(a, lo, n + 1)|] == RangeUp(a, lo, n + 1)
      invariant forall i :: 0 <= i < |blocks| ==> blocks[i] == RangeUp(a, lo, hi)[|RangeUp(a, lo, hi)| - 1 - i]
    {
      assert RangeUp(a, lo, n + 1) == RangeUp(a, lo, n) + if n in a.blockAt then [a.blockAt[n]] else [];
      if n in a.blockAt {
        assert RangeUp(a, lo, n + 1)[|RangeUp(a, lo, n)|] == a.blockAt[n];
        assert RangeUp(a, lo, hi)[|RangeUp(a, lo, n)|] == a.blockAt[n];
        blocks := blocks + [a.blockAt[n]];
      }
      n := n - 1;
    }
    assert RangeUp(a, lo, n + 1) == [];
  }

  method FindInArchive(a: Archive, chain: seq<Id>) returns (found: int)
    ensures found == Found(a, chain)
  {
    found := -1;
    var counter := 0;
    while counter < |chain|
      invariant 0 <= counter <= |chain| && found == -1
      invariant SampleFrom(a, chain, 0) == SampleFrom(a, chain, counter)
    {
      if counter % 20 == 0 {
        found := Exists(a, chain[counter]);
        if found != -1 {
          return;
        }
      }
      counter := counter + 1;
    }
    if found == -1 {
      var size := |chain|;
      if size > 0 {
        found := Exists(a, chain[size - 1]);
      }
    }
  }

  method CollectIds(blocks: seq<TxBlock>) returns (ids: set<Id>)
    ensures ids == IdSet(IdsDown(blocks))
  {
    ids := {};
    var i := |blocks|;
    IdsDownLength(blocks);
    ghost var all := IdsDown(blocks);
    while i > 0
      invariant 0 <= i <= |blocks| && ids == IdSet(all[..|blocks| - i])
    {
      ghost var k := |blocks| - i;
      assert all[..k + 1] == all[..k] + [all[k]];
      ids := ids + {blocks[i - 1].txp.id};
      i := i - 1;
    }
    assert all[..|blocks|] == all;
  }

  /** The reversed walk over the blocks, ended by the crossover. */
  method KeepFromTip(blocks: seq<TxBlock>, id: Id) returns (kept: seq<TxBlock>, found: bool)
    ensures found == (id in IdsDown(blocks)) && kept == Kept(blocks, id)
  {
    found, kept := false, [];
    var i := |blocks|;
    assert blocks[..i] == blocks;
    while i > 0
      invariant 0 <= i <= |blocks|
      invariant Kept(blocks, id) == Kept(blocks[..i], id) + kept
      invariant id in IdsDown(blocks) <==> id in IdsDown(blocks[..i])
    {
      var last := blocks[i - 1];
      assert blocks[..i][..i - 1] == blocks[..i - 1];
      assert IdsDown(blocks[..i]) == [last.txp.id] + IdsDown(blocks[..i - 1]);
      Joined(Kept(blocks[..i - 1], id), last, kept);
      kept := [last] + kept;
      if last.txp.id == id {
        return kept, true;
      }
      i := i - 1;
    }
  }

  /** The blocks of the nodes from the tip down to the crossover, oldest first. */
  method TakeDown(chain: seq<Node>, id: Id) returns (txps: seq<TxPoW>)
    ensures |txps| == KeepNodes(chain, id) <= |chain|
    ensures forall k :: 0 <= k < |txps| ==> txps[|txps| - 1 - k] == chain[k].txp
  {
    KeepNodesMeaning(chain, id);
    txps := [];
    var i := 0;
    var found := false;
    while i < |chain| && !found
      invariant 0 <= i <= |chain| && |txps| == i
      invariant forall k :: 0 <= k < i ==> txps[i - 1 - k] == chain[k].txp
      invariant if found then i == KeepNodes(chain, id) else KeepNodes(chain, id) == i + KeepNodes(chain[i..], id)
    {
      assert chain[i..][1..] == chain[i + 1..];
      txps := [chain[i].txp] + txps;
      found := chain[i].txp.id == id;
      i := i + 1;
    }
  }

  lemma ZeroedCons(n: Node, rest: seq<Node>)
    ensures Zeroed([n] + rest) == [Node(n.txp, 0)] + Zeroed(rest)
  {
    assert ([n] + rest)[1..] == rest;
  }

  /** Stacks blocks up again, oldest first, as new nodes at level 0. */
  method Restack(txps: seq<TxPoW>, ghost top: seq<Node>) returns (added: seq<Node>)
    requires |txps| == |top| && forall k :: 0 <= k < |top| ==> txps[|top| - 1 - k] == top[k].txp
    ensures added == Zeroed(top)
  {
    added := [];
    for k := 0 to |txps|
      invariant added == Zeroed(top[|top| - k..])
    {
      ghost var j := |top| - k - 1;
      assert txps[|top| - 1 - j] == top[j].txp;
      assert top[j..] == [top[j]] + top[j + 1..];
      ZeroedCons(top[j], top[j + 1..]);
      added := [Node(txps[k], 0)] + added;
    }
    assert top[0..] == top;
  }

  /** Takes the nodes from the tip down to the crossover, stacks them up again and prunes. */
  method ShortenCascade(p: Params, chain: seq<Node>, id: Id) returns (nodes: seq<Node>)
    ensures KeepNodes(chain, id) <= |chain|
    ensures nodes == Cascaded(p, Zeroed(chain[..KeepNodes(chain, id)]))
  {
    var txps := TakeDown(chain, id);
    var added := Restack(txps, chain[..|txps|]);
    nodes := Cascaded(p, added);
  }

  method ListDown(blocks: seq<TxBlock>) returns (ids: seq<Id>)
    ensures ids == IdsDown(blocks)
  {
    ids := [];
    for i := 0 to |blocks|
      invariant ids == IdsDown(blocks[..i])
    {
      assert blocks[..i + 1][..i] == blocks[..i];
      ids := [blocks[i].txp.id] + ids;
    }
    assert blocks[..|blocks|] == blocks;
  }

  method ListCascade(cascade: Option<Cascade>) returns (ids: seq<Id>)
    ensures ids == CascadeIds(IBD(cascade, []))
  {
    ids := [];
    if cascade.Some? {
      var chain := cascade.value.chain;
      for i := 0 to |chain|
        invariant ChainIds(chain) == ids + ChainIds(chain[i..])
      {
        assert chain[i..][1..] == chain[i + 1..];
        ids := ids + [chain[i].txp.id];
      }
      assert chain[|chain|..] == [];
    }
  }

  /** The message itself: its fields are filled by inserting blocks in front, one by one. */
  class IBDMessage {
    var cascade: Option<Cascade>
    var blocks: seq<TxBlock>

    ghost function View(): IBD
      reads this
    {
      IBD(cascade, blocks)
    }

    constructor ()
      ensures View() == IBD(None, [])
    {
      cascade, blocks := None, [];
    }

    /** The walk from the tip that puts each block in front of the ones already there. */
    method AddBranch(branch: seq<TxBlock>)
      modifies this`blocks
      ensures blocks == branch + old(blocks)
    {
      ghost var was := blocks;
      var i := |branch|;
      while i > 0
        invariant 0 <= i <= |branch| && blocks == branch[i..] + was
      {
        assert branch[i - 1..] == [branch[i - 1]] + branch[i..];
        Joined([], branch[i - 1], branch[i..] + was);
        blocks := [branch[i - 1]] + blocks;
        i := i - 1;
      }
      assert branch[0..] == branch;
    }

    /** The same walk, ended by the crossover. */
    method AddAbove(branch: seq<TxBlock>, stop: Id)
      modifies this`blocks
      ensures blocks == Above(branch, stop) + old(blocks)
    {
      ghost var all := Above(branch, stop) + blocks;
      var i := |branch|;
      assert branch[..i] == branch;
      while i > 0
        invariant 0 <= i <= |branch|
        invariant Above(branch[..i], stop) + blocks == all
      {
        assert branch[..i][..i - 1] == branch[..i - 1];
        if branch[i - 1].txp.id == stop {
          return;
        }
        Joined(Above(branch[..i - 1], stop), branch[i - 1], blocks);
        blocks := [branch[i - 1]] + blocks;
        i := i - 1;
      }
    }

    /** The archived blocks strictly between, which come highest first. */
    method AddArchived(a: Archive, lo: int, hi: int)
      modifies this`blocks
      ensures blocks == RangeUp(a, lo, hi) + old(blocks)
    {
      ghost var was := blocks;
      var range := LoadBlockRange(a, lo, hi);
      ghost var up := RangeUp(a, lo, hi);
      for i := 0 to |range|
        invariant blocks == up[|up| - i..] + was
      {
        assert up[|up| - i - 1..] == [up[|up| - i - 1]] + up[|up| - i..];
        blocks := [range[i]] + blocks;
      }
      assert up[0..] == up;
    }

    method CreateCompleteIBD(p: Params, db: Database)
      modifies this
      ensures View() == Complete(p, db)
    {
      cascade := Some(DeepCopy(p, db.cascade));
      blocks := [];
      AddBranch(db.branch);
    }

    method FromArchive(p: Params, db: Database, found: int)
      requires db.branch != [] && View() == IBD(None, [])
      modifies this
      ensures View() == if db.branch[0].number - found > MAX_BLOCKS_FOR_IBD then Complete(p, db)
                        else IBD(None, RangeUp(db.archive, found, db.branch[0].number) + db.branch)
    {
      var myroot := db.branch[0].number;
      if myroot - found > MAX_BLOCKS_FOR_IBD {
        CreateCompleteIBD(p, db);
      } else {
        AddBranch(db.branch);
        AddArchived(db.archive, found, myroot);
      }
    }

    /** createIBD, on a new message as every caller does. */
    method CreateIBD(p: Params, db: Database, g: Greeting) returns (isvalid: bool)
      requires View() == IBD(None, [])
      modifies this
      ensures (isvalid, View()) == Answer(p, db, g)
    {
      isvalid := true;
      if db.branch == [] {
        return;
      }
      if g.topBlock == -1 {
        CreateCompleteIBD(p, db);
        return;
      }
      var myroot, mytip := db.branch[0].number, db.branch[|db.branch| - 1].number;
      if g.topBlock < myroot {
        var found := FindInArchive(db.archive, g.chain);
        if found != -1 {
          FromArchive(p, db, found);
        } else {
          CreateCompleteIBD(p, db);
        }
      } else if g.rootBlock > mytip {
        CreateCompleteIBD(p, db);
      } else {
        var myblocks := CollectIds(db.branch);
        var hit := FindFirst(g.chain, myblocks);
        if hit.Some? {
          AddAbove(db.branch, hit.value);
          assert Above(db.branch, hit.value) + [] == Above(db.branch, hit.value);
        } else {
          isvalid := false;
          CreateCompleteIBD(p, db);
        }
      }
    }

    /** getTotalWeight. */
    method GetTotalWeight() returns (weight: int)
      ensures weight == IBDWeight(View())
    {
      var total := 0.0;
      for i := 0 to |blocks|
        invariant total == BlocksWeight(blocks[..i])
      {
        assert blocks[..i + 1][..i] == blocks[..i];
        total := total + blocks[i].txp.weight;
      }
      assert blocks[..|blocks|] == blocks;
      var cascweight := 0;
      if cascade.Some? {
        cascweight := Truncate(cascade.value.totalWeight);
      }
      weight := cascweight + Truncate(total);
    }

    /** createShortenedIBD: a new message, the given one unchanged. */
    static method CreateShortenedIBD(p: Params, ibd: IBDMessage, id: Id) returns (shorter: IBDMessage)
      ensures fresh(shorter) && shorter.View() == Shortened(p, ibd.View(), id)
    {
      shorter := new IBDMessage();
      shorter.cascade := Some(EMPTY_CASCADE);
      var kept, found := KeepFromTip(ibd.blocks, id);
      shorter.blocks := kept;
      if !found {
        var chain := if ibd.cascade == None then [] else ibd.cascade.value.chain;
        var nodes := ShortenCascade(p, chain, id);
        shorter.cascade := Some(Cascade(nodes, TotalWeight(p, nodes)));
      }
    }

    /** The four passes of checkOurChainHeavier. */
    static method FindCrossover(theirs: IBDMessage, current: IBDMessage) returns (hit: Option<Id>)
      ensures hit == FourPasses(theirs.View(), current.View())
    {
      var greetblocks := ListDown(theirs.blocks);
      var greetcasc := ListCascade(theirs.cascade);
      var mycasc := ListCascade(current.cascade);
      var myblocks := CollectIds(current.blocks);
      var mycascblocks := IdSet(mycasc);
      hit := FindFirst(greetblocks, myblocks);
      if hit == None {
        hit := FindFirst(greetblocks, mycascblocks);
      }
      if hit == None {
        hit := FindFirst(greetcasc, myblocks);
      }
      if hit == None {
        hit := FindFirst(greetcasc, mycascblocks);
      }
    }

    /** checkOurChainHeavier. */
    static method CheckOurChainHeavier(p: Params, db: Database, theirs: IBDMessage) returns (heavier: bool)
      ensures heavier == OurChainHeavier(p, Complete(p, db), theirs.View())
    {
      var current := new IBDMessage();
      current.CreateCompleteIBD(p, db);
      var hit := FindCrossover(theirs, current);
      var mine, other := current, theirs;
      if hit.Some? {
        mine := CreateShortenedIBD(p, current, hit.value);
        other := CreateShortenedIBD(p, theirs, hit.value);
      }
      var myweight := mine.GetTotalWeight();
      var theirweight := other.GetTotalWeight();
      heavier := myweight >= theirweight;
    }
  }
}
