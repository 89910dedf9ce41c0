/** The verdict when the crossover lies in a cascade: there the weights compared are scaled by
    two to the level, and the side whose crossover is deeper in its cascade gains. */
module IBDVerdict {
  import opened Common
  import opened CascadeModel
  import opened IBDModel

  function ChainOf(ibd: IBD): seq<Node> {
    if ibd.cascade == None then [] else ibd.cascade.value.chain
  }

  /** The cascade nodes down to the crossover; none if it lies in the blocks. */
  function CascadeSegment(ibd: IBD, id: Id): seq<Node> {
    if id in IdsDown(ibd.blocks) then []
    else
      KeepNodesMeaning(ChainOf(ibd), id);
      ChainOf(ibd)[..KeepNodes(ChainOf(ibd), id)]
  }

  /** What is compared: block weights, and cascade weights as the cascade scales them. */
  function ScaledWeight(p: Params, ibd: IBD, id: Id): real {
    TotalWeight(p, CascadeSegment(ibd, id)) + BlocksWeight(Kept(ibd.blocks, id))
  }

  function NodesWeight(nodes: seq<Node>): real {
    if nodes == [] then 0.0 else nodes[0].txp.weight + NodesWeight(nodes[1..])
  }

  /** The weights of the blocks themselves from the crossover on. */
  function RawWeight(ibd: IBD, id: Id): real {
    NodesWeight(CascadeSegment(ibd, id)) + BlocksWeight(Kept(ibd.blocks, id))
  }

  predicate WholeParts(p: Params, ibd: IBD, id: Id) {
    Whole(TotalWeight(p, CascadeSegment(ibd, id))) && Whole(BlocksWeight(Kept(ibd.blocks, id)))
  }

  lemma WeightOfShortened(p: Params, ibd: IBD, id: Id)
    requires InCascadedForm(p, ibd)
    ensures IBDWeight(Shortened(p, ibd, id)) ==
            Truncate(TotalWeight(p, CascadeSegment(ibd, id))) + Truncate(BlocksWeight(Kept(ibd.blocks, id)))
  {
    var chain := ChainOf(ibd);
    KeepNodesMeaning(chain, id);
    if id !in IdsDown(ibd.blocks) {
      if chain == [] {
        assert chain[..0] == [];
      } else {
        ShortenedKeepsLevels(p, chain, KeepNodes(chain, id));
      }
    }
  }

  lemma IntNegated(n: int)
    ensures (-n) as real == -(n as real) && ((-n) as real).Floor == -n
  {
  }

  lemma TruncateOne(x: real)
    requires Whole(x)
    ensures Truncate(x) as real == x
  {
    if x < 0.0 {
      IntNegated(x.Floor);
    }
  }

  lemma TruncateWhole(x: real, y: real)
    requires Whole(x) && Whole(y)
    ensures (Truncate(x) + Truncate(y)) as real == x + y
  {
    TruncateOne(x);
    TruncateOne(y);
    IntSum(Truncate(x), Truncate(y));
  }

  lemma IntOrder(m: int, n: int)
    ensures m < n <==> m as real < n as real
  {
  }

  /** For whole weights the verdict is false exactly when the peer's scaled segment is heavier,
      wherever the crossover lies on either side. */
  lemma VerdictAnywhere(p: Params, mine: IBD, theirs: IBD, id: Id)
    requires InCascadedForm(p, mine) && InCascadedForm(p, theirs) && FourPasses(theirs, mine) == Some(id)
    requires WholeParts(p, mine, id) && WholeParts(p, theirs, id)
    ensures !OurChainHeavier(p, mine, theirs) <==> ScaledWeight(p, theirs, id) > ScaledWeight(p, mine, id)
  {
    WeightOfShortened(p, mine, id);
    WeightOfShortened(p, theirs, id);
    TruncateWhole(TotalWeight(p, CascadeSegment(mine, id)), BlocksWeight(Kept(mine.blocks, id)));
    TruncateWhole(TotalWeight(p, CascadeSegment(theirs, id)), BlocksWeight(Kept(theirs.blocks, id)));
    IntOrder(IBDWeight(Shortened(p, mine, id)), IBDWeight(Shortened(p, theirs, id)));
  }

  /** Additions are exact, and level zero does not scale. */
  ghost predicate ExactParams(p: Params) {
    (forall x, y :: p.plus(x, y) == x + y) && (forall w :: p.scale(w, 0) == w)
  }

  predicate AtLevelZero(nodes: seq<Node>) {
    forall i :: 0 <= i < |nodes| ==> nodes[i].level == 0
  }

  lemma {:induction false} UnscaledFrom(p: Params, acc: real, nodes: seq<Node>)
    requires ExactParams(p) && AtLevelZero(nodes)
    ensures WeightFrom(p, acc, nodes) == acc + NodesWeight(nodes)
    decreases |nodes|
  {
    if nodes != [] {
      assert CurrentWeight(p, nodes[0]) == nodes[0].txp.weight;
      var rest := nodes[1..];
      assert forall i :: 0 <= i < |rest| ==> rest[i] == nodes[i + 1];
      UnscaledFrom(p, acc + nodes[0].txp.weight, rest);
    }
  }

  lemma LevelZeroIsRaw(p: Params, ibd: IBD, id: Id)
    requires ExactParams(p) && AtLevelZero(CascadeSegment(ibd, id))
    ensures ScaledWeight(p, ibd, id) == RawWeight(ibd, id)
  {
    var nodes := CascadeSegment(ibd, id);
    if nodes != [] {
      assert CurrentWeight(p, nodes[0]) == nodes[0].txp.weight;
      var rest := nodes[1..];
      assert forall i :: 0 <= i < |rest| ==> rest[i] == nodes[i + 1];
      UnscaledFrom(p, nodes[0].txp.weight, rest);
    }
  }

  /** So the verdict is right about the blocks themselves as long as no segment reaches below
      level zero of its cascade. */
  lemma VerdictRightAtLevelZero(p: Params, mine: IBD, theirs: IBD, id: Id)
    requires InCascadedForm(p, mine) && InCascadedForm(p, theirs) && FourPasses(theirs, mine) == Some(id)
    requires WholeParts(p, mine, id) && WholeParts(p, theirs, id) && ExactParams(p)
    requires AtLevelZero(CascadeSegment(mine, id)) && AtLevelZero(CascadeSegment(theirs, id))
    ensures !OurChainHeavier(p, mine, theirs) <==> RawWeight(theirs, id) > RawWeight(mine, id)
  {
    VerdictAnywhere(p, mine, theirs, id);
    LevelZeroIsRaw(p, mine, id);
    LevelZeroIsRaw(p, theirs, id);
  }

  // ---------------------------------------------------------------- below level zero

  function Doubled(w: real, level: int): real { if level == 0 then w else w * 2.0 }

  function Plus(x: real, y: real): real { x + y }

  const TWO_LEVELS := Params(2, 2, Doubled, Plus)

  const CROSSOVER := TxPoW("x", 1, 10.0, [])
  const TOP := Node(TxPoW("c", 0, 1.0, []), 0)
  const SECOND := Node(TxPoW("b", 0, 2.0, []), 0)
  const DEEP := Node(CROSSOVER, 1)
  const OURS := IBD(None, [TxBlock(CROSSOVER, 5), TxBlock(TxPoW("a", 0, 5.0, []), 6)])
  const THEIRS := IBD(Some(Cascade([TOP, SECOND, DEEP], 23.0)), [])

  lemma TheirCascade()
    ensures Cascaded(TWO_LEVELS, [TOP, SECOND, DEEP]) == [TOP, SECOND, DEEP]
    ensures TotalWeight(TWO_LEVELS, [TOP, SECOND, DEEP]) == 23.0
    ensures NodesWeight([TOP, SECOND, DEEP]) == 13.0
  {
    var p := TWO_LEVELS;
    var chain := [TOP, SECOND, DEEP];
    assert chain[1..] == [SECOND, DEEP] && [SECOND, DEEP][1..] == [DEEP] && [DEEP][1..] == [];
    assert Advance(p, START) == Cursor(1, 0) && Walk(p, Cursor(1, 0), [DEEP]) == [DEEP];
    assert Walk(p, START, [SECOND, DEEP]) == [SECOND] + [DEEP];
    assert CurrentWeight(p, TOP) == 1.0 && CurrentWeight(p, SECOND) == 2.0 && CurrentWeight(p, DEEP) == 20.0;
    assert WeightFrom(p, 3.0, [DEEP]) == 23.0 && WeightFrom(p, 1.0, [SECOND, DEEP]) == WeightFrom(p, 3.0, [DEEP]);
    assert NodesWeight([DEEP]) == 10.0 && NodesWeight([SECOND, DEEP]) == 12.0;
  }

  lemma TheirIds()
    ensures IdsDown(THEIRS.blocks) == [] && CascadeIds(THEIRS) == ["c", "b", "x"]
    ensures CascadeSegment(THEIRS, "x") == [TOP, SECOND, DEEP] && Kept(THEIRS.blocks, "x") == []
  {
    var chain := [TOP, SECOND, DEEP];
    assert chain[1..] == [SECOND, DEEP] && [SECOND, DEEP][1..] == [DEEP] && [DEEP][1..] == [];
    assert ChainIds([DEEP]) == ["x"] && ChainIds([SECOND, DEEP]) == ["b"] + ["x"];
    assert ChainIds(chain) == ["c"] + ChainIds([SECOND, DEEP]);
    assert KeepNodes([DEEP], "x") == 1 && KeepNodes([SECOND, DEEP], "x") == 2 && KeepNodes(chain, "x") == 3;
    assert chain[..3] == chain;
  }

  lemma OurIds()
    ensures IdsDown(OURS.blocks) == ["a", "x"] && Kept(OURS.blocks, "x") == OURS.blocks
    ensures BlocksWeight(OURS.blocks) == 15.0 && CascadeIds(OURS) == []
  {
    var all := OURS.blocks;
    var first := [all[0]];
    assert all[..1] == first && first[..0] == [] && all == first + [all[1]];
    assert IdsDown(first) == ["x"] && BlocksWeight(first) == 10.0 && Kept(first, "x") == first;
  }

  /** The verdict can be false although our blocks outweigh the peer's: the peer's crossover is
      one level down, where its own weight counts twice. */
  lemma VerdictScaled()
    ensures InCascadedForm(TWO_LEVELS, OURS) && InCascadedForm(TWO_LEVELS, THEIRS)
    ensures FourPasses(THEIRS, OURS) == Some("x") && !OurChainHeavier(TWO_LEVELS, OURS, THEIRS)
    ensures RawWeight(OURS, "x") == 15.0 && RawWeight(THEIRS, "x") == 13.0
  {
    TheirCascade();
    TheirIds();
    OurIds();
    FirstShared();
    assert CascadeSegment(OURS, "x") == [];
    VerdictAnywhere(TWO_LEVELS, OURS, THEIRS, "x");
  }

  lemma FirstShared()
    ensures FirstIn(["c", "b", "x"], IdSet(["a", "x"])) == Some("x")
  {
    assert ["c", "b", "x"][1..] == ["b", "x"] && ["b", "x"][1..] == ["x"];
    assert FirstIn(["x"], IdSet(["a", "x"])) == Some("x");
    assert FirstIn(["b", "x"], IdSet(["a", "x"])) == Some("x");
  }
}
