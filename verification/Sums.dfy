/** Why the weight sums of the tree and of a message may be taken exactly. A block weight is
    at least one and written with seven significant digits, so it has at most six decimals.
    MiniNumber keeps sixty-four digits, and an addition that leaves the range up to two to the
    sixty-four throws. So as long as no addition throws, rounding after each changes nothing. */
module Sums {
  import T = TxPowTreeModel
  import I = IBDModel

  const LIMIT := 18446744073709551616.0

  /** At most six decimals, and within the range. */
  predicate Short(x: real) {
    0.0 <= x <= LIMIT && I.Whole(x * 1000000.0)
  }

  /** The rounding keeps such numbers, which have at most twenty-six digits. */
  ghost predicate KeepsShort(round: real -> real) {
    forall x :: Short(x) ==> round(x) == x
  }

  function SumFrom(acc: real, ws: seq<real>): real
    decreases |ws|
  {
    if ws == [] then acc else SumFrom(acc + ws[0], ws[1..])
  }

  /** The same additions, each result rounded. */
  function RoundedFrom(round: real -> real, acc: real, ws: seq<real>): real
    decreases |ws|
  {
    if ws == [] then acc else RoundedFrom(round, round(acc + ws[0]), ws[1..])
  }

  lemma {:induction false} SumGrows(acc: real, ws: seq<real>)
    requires forall i :: 0 <= i < |ws| ==> ws[i] >= 0.0
    ensures SumFrom(acc, ws) >= acc
    decreases |ws|
  {
    if ws != [] {
      SumGrows(acc + ws[0], ws[1..]);
    }
  }

  lemma ShortAdd(x: real, y: real)
    requires Short(x) && Short(y) && x + y <= LIMIT
    ensures Short(x + y)
  {
    I.WholeAdd(x * 1000000.0, y * 1000000.0);
    assert (x + y) * 1000000.0 == x * 1000000.0 + y * 1000000.0;
  }

  lemma {:induction false} RoundingChangesNothing(round: real -> real, acc: real, ws: seq<real>)
    requires KeepsShort(round) && Short(acc) && (forall i :: 0 <= i < |ws| ==> Short(ws[i]))
    requires SumFrom(acc, ws) <= LIMIT
    ensures RoundedFrom(round, acc, ws) == SumFrom(acc, ws)
    decreases |ws|
  {
    if ws != [] {
      var rest := ws[1..];
      assert forall i :: 0 <= i < |rest| ==> rest[i] == ws[i + 1] && Short(rest[i]);
      SumGrows(acc + ws[0], rest);
      ShortAdd(acc, ws[0]);
      RoundingChangesNothing(round, acc + ws[0], rest);
    }
  }

  // ---------------------------------------------------------------- the two sums

  function KidWeights(ts: seq<T.Tree>): (r: seq<real>)
    ensures |r| == |ts| && forall i :: 0 <= i < |r| ==> r[i] == ts[i].block.weight
  {
    if ts == [] then [] else [ts[0].block.weight] + KidWeights(ts[1..])
  }

  lemma {:induction false} KidSum(acc: real, ts: seq<T.Tree>)
    ensures SumFrom(acc, KidWeights(ts)) == acc + T.OwnAll(ts)
    decreases |ts|
  {
    if ts != [] {
      assert KidWeights(ts)[1..] == KidWeights(ts[1..]);
      KidSum(acc + ts[0].block.weight, ts[1..]);
    }
  }

  /** The total a node gets with rounding is the one it gets without. */
  lemma TotalIsExact(round: real -> real, t: T.Tree)
    requires KeepsShort(round) && Short(t.block.weight) && T.Shallow(t) <= LIMIT
    requires forall k :: k in t.kids ==> Short(k.block.weight)
    ensures RoundedFrom(round, t.block.weight, KidWeights(t.kids)) == T.Shallow(t)
  {
    KidSum(t.block.weight, t.kids);
    RoundingChangesNothing(round, t.block.weight, KidWeights(t.kids));
  }

  function BlockWeights(blocks: seq<I.TxBlock>): (r: seq<real>)
    ensures |r| == |blocks| && forall i :: 0 <= i < |r| ==> r[i] == blocks[i].txp.weight
  {
    if blocks == [] then [] else BlockWeights(blocks[..|blocks| - 1]) + [blocks[|blocks| - 1].txp.weight]
  }

  lemma {:induction false} SumLast(acc: real, ws: seq<real>, w: real)
    ensures SumFrom(acc, ws + [w]) == SumFrom(acc, ws) + w
    decreases |ws|
  {
    if ws == [] {
      assert ws + [w] == [w] && [w][1..] == [];
    } else {
      assert (ws + [w])[1..] == ws[1..] + [w];
      SumLast(acc + ws[0], ws[1..], w);
    }
  }

  lemma {:induction false} BlockSum(blocks: seq<I.TxBlock>)
    ensures SumFrom(0.0, BlockWeights(blocks)) == I.BlocksWeight(blocks)
  {
    if blocks != [] {
      var rest, last := blocks[..|blocks| - 1], blocks[|blocks| - 1];
      BlockSum(rest);
      SumLast(0.0, BlockWeights(rest), last.txp.weight);
    }
  }

  /** So is the weight of a message's blocks. */
  lemma MessageIsExact(round: real -> real, blocks: seq<I.TxBlock>)
    requires KeepsShort(round) && I.BlocksWeight(blocks) <= LIMIT
    requires forall b :: b in blocks ==> Short(b.txp.weight)
    ensures RoundedFrom(round, 0.0, BlockWeights(blocks)) == I.BlocksWeight(blocks)
  {
    BlockSum(blocks);
    assert I.Whole(0.0 * 1000000.0);
    RoundingChangesNothing(round, 0.0, BlockWeights(blocks));
  }
}
