/** The cascade: the pruned proof-of-work chain, as a value.

    A chain is listed from the tip back to the root. `Cascaded` is what one run of
    `cascadeChain` leaves of it. Weights are combined with the two operations carried by
    `Params`, so nothing here depends on how MiniNumber rounds. */
module CascadeModel {
  import opened Common

  /** The id written when no block of that super level existed: "0x00". */
  const ZERO_ID: Id := "0x00"

  /** The header facts the cascade reads: identity, super level, weight and the super
      parent at each level. */
  datatype TxPoW = TxPoW(id: Id, superLevel: int, weight: real, superParents: seq<Id>)

  datatype Node = Node(txp: TxPoW, level: int)

  /** `levels` and `perLevel` are MINIMA_CASCADE_LEVELS and MINIMA_CASCADE_LEVEL_NODES;
      `scale` is a block weight times two to the level, rounded, and `plus` is MiniNumber
      addition. */
  datatype Params = Params(levels: int, perLevel: int, scale: (real, int) -> real, plus: (real, real) -> real)

  /** The two counters of the walk: the level being filled and how many nodes it holds. */
  datatype Cursor = Cursor(level: int, count: int)

  const START := Cursor(0, 1)

  // The lexicographic order on cursors.
  predicate Leq(a: Cursor, b: Cursor) {
    a.level < b.level || (a.level == b.level && a.count <= b.count)
  }

  /** The cursor after one more node has been kept. */
  function Advance(p: Params, c: Cursor): Cursor {
    if c.count + 1 >= p.perLevel && c.level < p.levels - 1
    then Cursor(c.level + 1, 0)
    else Cursor(c.level, c.count + 1)
  }

  /** The nodes kept by the walk from cursor `c`, with the levels it assigns. */
  function Walk(p: Params, c: Cursor, older: seq<Node>): seq<Node>
    decreases |older|
  {
    if older == [] then []
    else if older[0].txp.superLevel >= c.level then
      [Node(older[0].txp, c.level)] + Walk(p, Advance(p, c), older[1..])
    else
      Walk(p, c, older[1..])
  }

  /** The cursor at the end of that walk. */
  function After(p: Params, c: Cursor, older: seq<Node>): Cursor
    decreases |older|
  {
    if older == [] then c
    else if older[0].txp.superLevel >= c.level then After(p, Advance(p, c), older[1..])
    else After(p, c, older[1..])
  }

  /** What cascadeChain leaves: the tip as it is, then the walk. */
  function Cascaded(p: Params, chain: seq<Node>): seq<Node> {
    if chain == [] then [] else [chain[0]] + Walk(p, START, chain[1..])
  }

  function CurrentWeight(p: Params, n: Node): real {
    p.scale(n.txp.weight, n.level)
  }

  /** Left-to-right weight sum, in the order the walk adds. */
  function WeightFrom(p: Params, acc: real, s: seq<Node>): real
    decreases |s|
  {
    if s == [] then acc else WeightFrom(p, p.plus(acc, CurrentWeight(p, s[0])), s[1..])
  }

  function TotalWeight(p: Params, chain: seq<Node>): real {
    if chain == [] then 0.0 else WeightFrom(p, CurrentWeight(p, chain[0]), chain[1..])
  }

  // ---------------------------------------------------------------- confluence

  /** The step is monotone: a walk that is behind in the order stays behind, whatever
      node comes next. */
  lemma StepMonotone(p: Params, lo: Cursor, hi: Cursor, superLevel: int)
    requires Leq(lo, hi) && 0 <= hi.count
    ensures
      var lo' := if superLevel >= lo.level then Advance(p, lo) else lo;
      var hi' := if superLevel >= hi.level then Advance(p, hi) else hi;
      Leq(lo', hi') && 0 <= hi'.count && Leq(hi, hi')
  {
  }

  lemma {:induction false} AfterGrows(p: Params, c: Cursor, older: seq<Node>)
    requires 0 <= c.count
    ensures Leq(c, After(p, c, older)) && 0 <= After(p, c, older).count
    decreases |older|
  {
    if older != [] {
      AfterGrows(p, if older[0].txp.superLevel >= c.level then Advance(p, c) else c, older[1..]);
    }
  }

  lemma {:induction false} WalkConcat(p: Params, c: Cursor, a: seq<Node>, b: seq<Node>)
    ensures Walk(p, c, a + b) == Walk(p, c, a) + Walk(p, After(p, c, a), b)
    ensures After(p, c, a + b) == After(p, After(p, c, a), b)
    decreases |a|
  {
    if a == [] {
      assert a + b == b;
    } else {
      assert (a + b)[1..] == a[1..] + b;
      WalkConcat(p, if a[0].txp.superLevel >= c.level then Advance(p, c) else c, a[1..], b);
    }
  }

  /** A walk that is ahead does not see that a walk behind it has already pruned. */
  lemma {:induction false} WalkAbsorbs(p: Params, lo: Cursor, hi: Cursor, older: seq<Node>)
    requires Leq(lo, hi) && 0 <= hi.count
    ensures Walk(p, hi, Walk(p, lo, older)) == Walk(p, hi, older)
    ensures After(p, hi, Walk(p, lo, older)) == After(p, hi, older)
    decreases |older|
  {
    if older != [] {
      var s := older[0].txp.superLevel;
      StepMonotone(p, lo, hi, s);
      var lo' := if s >= lo.level then Advance(p, lo) else lo;
      var hi' := if s >= hi.level then Advance(p, hi) else hi;
      WalkAbsorbs(p, lo', hi', older[1..]);
      if s >= lo.level {
        var rest := Walk(p, lo', older[1..]);
        assert ([Node(older[0].txp, lo.level)] + rest)[1..] == rest;
      }
    }
  }

  lemma CascadedAbsorbed(p: Params, hi: Cursor, older: seq<Node>)
    requires Leq(START, hi) && 0 <= hi.count
    ensures Walk(p, hi, Cascaded(p, older)) == Walk(p, hi, older)
  {
    if older != [] {
      var s := older[0].txp.superLevel;
      var rest := Walk(p, START, older[1..]);
      assert ([older[0]] + rest)[1..] == rest;
      var hi' := if s >= hi.level then Advance(p, hi) else hi;
      WalkAbsorbs(p, START, hi', older[1..]);
    }
  }

  /** Staged pruning is confluent: pruning new blocks on top of an already pruned chain
      gives what pruning the whole history at once gives. */
  lemma StagedPruning(p: Params, newer: seq<Node>, older: seq<Node>)
    ensures Cascaded(p, newer + Cascaded(p, older)) == Cascaded(p, newer + older)
    ensures TotalWeight(p, Cascaded(p, newer + Cascaded(p, older))) == TotalWeight(p, Cascaded(p, newer + older))
  {
    if newer == [] {
      assert newer + Cascaded(p, older) == Cascaded(p, older) && newer + older == older;
      if older != [] {
        var rest := Walk(p, START, older[1..]);
        assert ([older[0]] + rest)[1..] == rest;
        WalkAbsorbs(p, START, START, older[1..]);
      }
    } else {
      var body := newer[1..];
      assert (newer + Cascaded(p, older))[1..] == body + Cascaded(p, older);
      assert (newer + older)[1..] == body + older;
      WalkConcat(p, START, body, Cascaded(p, older));
      WalkConcat(p, START, body, older);
      AfterGrows(p, START, body);
      CascadedAbsorbed(p, After(p, START, body), older);
    }
  }

  // ---------------------------------------------------------------- runs

  /** What a node does to its cascade over time. `Reload` writes the cascade out and reads
      it back, as deepCopy and a restart do. */
  datatype Op = AddToTip(txp: TxPoW) | Prune | Reload

  /** The chain after the operations, the latest of which is last. */
  function Run(p: Params, ops: seq<Op>): seq<Node> {
    if ops == [] then []
    else
      var chain := Run(p, ops[..|ops| - 1]);
      match ops[|ops| - 1]
      case AddToTip(txp) => [Node(txp, 0)] + chain
      case Prune => Cascaded(p, chain)
      case Reload => Cascaded(p, chain)
  }

  /** Every block ever added, newest first. */
  function History(ops: seq<Op>): seq<Node> {
    if ops == [] then []
    else
      var before := History(ops[..|ops| - 1]);
      match ops[|ops| - 1]
      case AddToTip(txp) => [Node(txp, 0)] + before
      case _ => before
  }

  /** How many blocks were added since the chain was last pruned. */
  function Unpruned(ops: seq<Op>): nat {
    if ops == [] then 0
    else if ops[|ops| - 1].AddToTip? then Unpruned(ops[..|ops| - 1]) + 1
    else 0
  }

  lemma {:induction false} UnprunedBound(ops: seq<Op>)
    ensures Unpruned(ops) <= |History(ops)|
  {
    if ops != [] {
      UnprunedBound(ops[..|ops| - 1]);
    }
  }

  lemma Rejoined(s: seq<Node>, k: nat)
    requires k <= |s|
    ensures s[..k] + s[k..] == s
  {
  }

  /** Closed form of every run: the blocks added since the last pruning, then the cascade
      of the complete history before them, however often it was pruned on the way. */
  lemma {:induction false} RunClosedForm(p: Params, ops: seq<Op>)
    ensures Unpruned(ops) <= |History(ops)|
    ensures Run(p, ops) == History(ops)[..Unpruned(ops)] + Cascaded(p, History(ops)[Unpruned(ops)..])
  {
    UnprunedBound(ops);
    if ops != [] {
      var before := ops[..|ops| - 1];
      RunClosedForm(p, before);
      var h, k := History(before), Unpruned(before);
      match ops[|ops| - 1]
      case AddToTip(txp) =>
        var h' := [Node(txp, 0)] + h;
        assert h'[..k + 1] == [Node(txp, 0)] + h[..k];
        assert h'[k + 1..] == h[k..];
      case _ =>
        Rejoined(h, k);
        StagedPruning(p, h[..k], h[k..]);
        assert h[..0] + Cascaded(p, h[0..]) == Cascaded(p, h);
    }
  }

  // ---------------------------------------------------------------- shape

  /** Levels never fall going back and rise by at most one, from a level at or just above `from`. */
  predicate Stairs(from: int, s: seq<Node>)
    decreases |s|
  {
    s == [] || (from <= s[0].level <= from + 1 && Stairs(s[0].level, s[1..]))
  }

  function CountAt(s: seq<Node>, level: int): nat {
    if s == [] then 0 else (if s[0].level == level then 1 else 0) + CountAt(s[1..], level)
  }

  lemma {:induction false} WalkShape(p: Params, c: Cursor, older: seq<Node>)
    ensures Stairs(c.level, Walk(p, c, older))
    ensures Stairs(c.level - 1, Walk(p, c, older))
    ensures forall n :: n in Walk(p, c, older) ==> c.level <= n.level <= n.txp.superLevel
    ensures forall n :: n in Walk(p, c, older) ==> n.level < p.levels || n.level == c.level
    decreases |older|
  {
    if older != [] {
      var keep := older[0].txp.superLevel >= c.level;
      WalkShape(p, if keep then Advance(p, c) else c, older[1..]);
    }
  }

  /** From a level still open, at most the missing nodes are taken; exactly those if the
      walk ever moves on. */
  lemma {:induction false} WalkFills(p: Params, c: Cursor, older: seq<Node>, level: int)
    requires c.level <= level < p.levels - 1
    requires c.count < p.perLevel && 0 <= c.count
    ensures
      var room := if level == c.level then p.perLevel - c.count else p.perLevel;
      var got := CountAt(Walk(p, c, older), level);
      got <= room && ((exists n :: n in Walk(p, c, older) && n.level > level) ==> got == room)
    decreases |older|
  {
    if older != [] {
      var keep := older[0].txp.superLevel >= c.level;
      if !keep {
        WalkFills(p, c, older[1..], level);
      } else {
        var c' := Advance(p, c);
        var rest := Walk(p, c', older[1..]);
        var all := [Node(older[0].txp, c.level)] + rest;
        assert all[1..] == rest;
        assert CountAt(all, level) == (if c.level == level then 1 else 0) + CountAt(rest, level);
        assert forall n :: n in all && n.level > level ==> n in rest;
        if c'.level <= level {
          WalkFills(p, c', older[1..], level);
        } else {
          NoneBelow(p, c', older[1..], level);
        }
      }
    }
  }

  lemma {:induction false} NoneBelow(p: Params, c: Cursor, older: seq<Node>, level: int)
    requires level < c.level
    ensures CountAt(Walk(p, c, older), level) == 0
    decreases |older|
  {
    if older != [] {
      var keep := older[0].txp.superLevel >= c.level;
      var c' := if keep then Advance(p, c) else c;
      NoneBelow(p, c', older[1..], level);
      if keep {
        assert ([Node(older[0].txp, c.level)] + Walk(p, c', older[1..]))[1..] == Walk(p, c', older[1..]);
      }
    }
  }

  /** The shape of every pruned chain: levels start at the tip's 0 and climb by single
      steps, each node below the tip is powerful enough for its level, no level but the
      last overflows, and every level that was left behind is exactly full. */
  lemma CascadedShape(p: Params, chain: seq<Node>)
    requires chain != [] && chain[0].level == 0
    requires p.levels >= 1 && p.perLevel >= 2
    ensures
      var s := Cascaded(p, chain);
      && s[0] == chain[0]
      && Stairs(0, s)
      && (forall n :: n in s[1..] ==> 0 <= n.level <= n.txp.superLevel)
      && (forall n :: n in s ==> n.level < p.levels)
      && (forall level :: 0 <= level < p.levels - 1 ==> CountAt(s, level) <= p.perLevel)
      && (forall level, n :: 0 <= level < p.levels - 1 && n in s && n.level > level ==> CountAt(s, level) == p.perLevel)
  {
    var s := Cascaded(p, chain);
    var rest := Walk(p, START, chain[1..]);
    assert s[1..] == rest;
    WalkShape(p, START, chain[1..]);
    forall level | 0 <= level < p.levels - 1
      ensures CountAt(s, level) <= p.perLevel
      ensures forall n :: n in s && n.level > level ==> CountAt(s, level) == p.perLevel
    {
      WalkFills(p, START, chain[1..], level);
      assert forall n :: n in s && n.level > level ==> n in rest;
    }
  }
}
