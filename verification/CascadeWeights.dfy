/** What the weight of a cascade adds up to, and which blocks it keeps, told without the walk:
    the k-th kept block stands at level k divided by the nodes per level, up to the top one,
    and counts two to that level times its weight. */
module CascadeWeights {
  import opened CascadeModel
  import opened Bytes

  // ---------------------------------------------------------------- weight

  /** The weight of each node as its level scales it. */
  function Scaled(p: Params, s: seq<Node>): (r: seq<real>)
    ensures |r| == |s| && forall i :: 0 <= i < |s| ==> r[i] == p.scale(s[i].txp.weight, s[i].level)
  {
    seq(|s|, i requires 0 <= i < |s| => p.scale(s[i].txp.weight, s[i].level))
  }

  /** Addition from the left. */
  function Added(p: Params, acc: real, ws: seq<real>): real
    decreases |ws|
  {
    if ws == [] then acc else Added(p, p.plus(acc, ws[0]), ws[1..])
  }

  lemma {:induction false} WeightIsAdded(p: Params, acc: real, s: seq<Node>)
    ensures WeightFrom(p, acc, s) == Added(p, acc, Scaled(p, s))
    decreases |s|
  {
    if s != [] {
      assert Scaled(p, s)[1..] == Scaled(p, s[1..]);
      WeightIsAdded(p, p.plus(acc, p.scale(s[0].txp.weight, s[0].level)), s[1..]);
    }
  }

  /** For any rounding: the scaled weights added up from the tip back; nothing for no nodes. */
  lemma TotalIsAdded(p: Params, s: seq<Node>)
    ensures s == [] ==> TotalWeight(p, s) == 0.0
    ensures s != [] ==> TotalWeight(p, s) == Added(p, Scaled(p, s)[0], Scaled(p, s)[1..])
  {
    if s != [] {
      assert Scaled(p, s)[1..] == Scaled(p, s[1..]);
      WeightIsAdded(p, Scaled(p, s)[0], s[1..]);
    }
  }

  ghost predicate ExactScaling(p: Params) {
    && (forall x, y :: p.plus(x, y) == x + y)
    && (forall w, l: nat :: p.scale(w, l) == w * (Pow(2, l) as real))
  }

  predicate Levelled(s: seq<Node>) {
    forall i :: 0 <= i < |s| ==> s[i].level >= 0
  }

  /** The sum of weight times two to the level. */
  function PowerSum(s: seq<Node>): real
    requires Levelled(s)
  {
    if s == [] then 0.0 else s[0].txp.weight * (Pow(2, s[0].level) as real) + PowerSum(s[1..])
  }

  lemma {:induction false} WeightIsPowers(p: Params, acc: real, s: seq<Node>)
    requires ExactScaling(p) && Levelled(s)
    ensures WeightFrom(p, acc, s) == acc + PowerSum(s)
    decreases |s|
  {
    if s != [] {
      var w := s[0].txp.weight * (Pow(2, s[0].level) as real);
      assert CurrentWeight(p, s[0]) == w;
      WeightIsPowers(p, acc + w, s[1..]);
    }
  }

  /** With exact arithmetic the total is the sum of every node's weight times two to its level. */
  lemma TotalIsPowers(p: Params, s: seq<Node>)
    requires ExactScaling(p) && Levelled(s)
    ensures TotalWeight(p, s) == PowerSum(s)
  {
    if s != [] {
      var w := s[0].txp.weight * (Pow(2, s[0].level) as real);
      assert CurrentWeight(p, s[0]) == w;
      WeightIsPowers(p, w, s[1..]);
    }
  }

  // ---------------------------------------------------------------- the kept blocks

  function LevelAt(p: Params, k: nat): nat
    requires p.levels >= 1 && p.perLevel >= 1
  {
    if k / p.perLevel < p.levels - 1 then k / p.perLevel else p.levels - 1
  }

  /** The blocks kept when `k` are already: each one strong enough for the level that place
      has, at that level; every other one is dropped. */
  function Taken(p: Params, k: nat, older: seq<Node>): seq<Node>
    requires p.levels >= 1 && p.perLevel >= 1
    decreases |older|
  {
    if older == [] then []
    else if older[0].txp.superLevel >= LevelAt(p, k) then
      [Node(older[0].txp, LevelAt(p, k))] + Taken(p, k + 1, older[1..])
    else Taken(p, k, older[1..])
  }

  /** The cursor stands where `k` kept blocks have brought it. */
  predicate StandsAt(p: Params, c: Cursor, k: nat)
    requires p.levels >= 1 && p.perLevel >= 2
  {
    c.level == LevelAt(p, k) && c.level * p.perLevel + c.count == k && (c.level < p.levels - 1 ==> c.count < p.perLevel)
  }

  lemma DivideBy(k: nat, n: nat, q: nat)
    requires n > 0 && q * n <= k < (q + 1) * n
    ensures k / n == q
  {
    QuotientIs(k, n, q);
  }

  lemma Above(k: nat, n: nat, q: nat)
    requires n > 0 && k >= q * n
    ensures k / n >= q
  {
    assert k == (k / n) * n + k % n;
    MulDistr(k / n, 1, n);
    MulMono(k / n + 1, q, n);
  }

  lemma NextStands(p: Params, c: Cursor, k: nat)
    requires p.levels >= 1 && p.perLevel >= 2 && StandsAt(p, c, k) && c.count >= 0
    ensures StandsAt(p, Advance(p, c), k + 1) && Advance(p, c).count >= 0
  {
    var n, q := p.perLevel, c.level;
    MulDistr(q, 1, n);
    if q == p.levels - 1 {
      Above(k + 1, n, q);
    } else if c.count + 1 >= n {
      assert k + 1 == (q + 1) * n;
      MulDistr(q + 1, 1, n);
      DivideBy(k + 1, n, q + 1);
    } else {
      DivideBy(k + 1, n, q);
    }
  }

  lemma {:induction false} WalkTakes(p: Params, c: Cursor, k: nat, older: seq<Node>)
    requires p.levels >= 1 && p.perLevel >= 2 && StandsAt(p, c, k) && c.count >= 0
    ensures Walk(p, c, older) == Taken(p, k, older)
    decreases |older|
  {
    if older != [] {
      if older[0].txp.superLevel >= c.level {
        NextStands(p, c, k);
        WalkTakes(p, Advance(p, c), k + 1, older[1..]);
      } else {
        WalkTakes(p, c, k, older[1..]);
      }
    }
  }

  /** The cascade of a chain: its tip, and behind it exactly the blocks that are strong enough
      for the level of the place they would take. */
  lemma CascadedTakes(p: Params, chain: seq<Node>)
    requires p.levels >= 1 && p.perLevel >= 2 && chain != []
    ensures Cascaded(p, chain) == [chain[0]] + Taken(p, 1, chain[1..])
  {
    DivideBy(1, p.perLevel, 0);
    WalkTakes(p, START, 1, chain[1..]);
  }

  lemma {:induction false} TakenLevels(p: Params, k: nat, older: seq<Node>)
    requires p.levels >= 1 && p.perLevel >= 1
    ensures forall i :: 0 <= i < |Taken(p, k, older)| ==> Taken(p, k, older)[i].level == LevelAt(p, k + i)
    decreases |older|
  {
    if older != [] {
      if older[0].txp.superLevel >= LevelAt(p, k) {
        TakenLevels(p, k + 1, older[1..]);
      } else {
        TakenLevels(p, k, older[1..]);
      }
    }
  }

  /** Node k of every pruned chain stands at level k divided by the nodes per level, or at the
      top one, and the total is the sum of the weights times two to that. */
  lemma CascadeWeighs(p: Params, chain: seq<Node>)
    requires p.levels >= 1 && p.perLevel >= 2 && chain != [] && chain[0].level == 0
    ensures forall k :: 0 <= k < |Cascaded(p, chain)| ==> Cascaded(p, chain)[k].level == LevelAt(p, k)
    ensures Levelled(Cascaded(p, chain))
    ensures ExactScaling(p) ==> TotalWeight(p, Cascaded(p, chain)) == PowerSum(Cascaded(p, chain))
  {
    var s := Cascaded(p, chain);
    CascadedTakes(p, chain);
    TakenLevels(p, 1, chain[1..]);
    DivideBy(0, p.perLevel, 0);
    forall k | 0 <= k < |s| ensures s[k].level == LevelAt(p, k) {
      if k > 0 {
        assert s[k] == Taken(p, 1, chain[1..])[k - 1];
      }
    }
    if ExactScaling(p) {
      TotalIsPowers(p, s);
    }
  }
}
