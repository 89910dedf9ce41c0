/** Super parents: how a block names the nearest earlier block of every super level, how
    the block checker and the cascade validator test those names, and why pruning never
    changes either verdict. */
module SuperParents {
  import opened Common
  import opened CascadeModel

  /** Sizes and ranges the header guarantees: one super parent per level, a clamped super
      level and an id that is not the zero id. */
  predicate Formed(p: Params, txp: TxPoW) {
    |txp.superParents| == p.levels && 0 <= txp.superLevel < p.levels && txp.id != ZERO_ID
  }

  predicate AllFormed(p: Params, chain: seq<Node>) {
    forall n :: n in chain ==> Formed(p, n.txp)
  }

  // ---------------------------------------------------------------- the reference

  /** The nearest block, going back, of at least the given super level; zero if none. */
  function Nearest(chain: seq<Node>, level: int): Id {
    if chain == [] then ZERO_ID
    else if chain[0].txp.superLevel >= level then chain[0].txp.id
    else Nearest(chain[1..], level)
  }

  /** The block names the nearest ancestor at every level. */
  predicate NamesNearest(p: Params, txp: TxPoW, older: seq<Node>)
    requires |txp.superParents| == p.levels
  {
    forall i :: 0 <= i < p.levels ==> txp.superParents[i] == Nearest(older, i)
  }

  /** Every block of the history does. */
  predicate WellNamed(p: Params, history: seq<Node>)
    requires AllFormed(p, history)
  {
    history == [] || (NamesNearest(p, history[0].txp, history[1..]) && WellNamed(p, history[1..]))
  }

  // ---------------------------------------------------------------- checkParents

  /** The inner loop of checkParents at one node: every level from `sup` up to the node's
      super level must name this node. Returns the new level, or -1 on a mismatch. */
  function ClaimLevels(p: Params, parents: seq<Id>, node: TxPoW, sup: nat): int
    requires |parents| == p.levels && 0 <= node.superLevel < p.levels
    decreases node.superLevel - sup
  {
    if node.superLevel < sup then sup
    else if parents[sup] != node.id then -1
    else ClaimLevels(p, parents, node, sup + 1)
  }

  /** checkParents from level `sup` on: the walk back over `chain`, then the zero check of
      the levels nobody claimed. */
  predicate CheckParentsFrom(p: Params, parents: seq<Id>, chain: seq<Node>, sup: nat)
    requires |parents| == p.levels && AllFormed(p, chain)
    decreases |chain|
  {
    if chain == [] then forall i :: sup <= i < p.levels ==> parents[i] == ZERO_ID
    else
      var next := ClaimLevels(p, parents, chain[0].txp, sup);
      next >= 0 && CheckParentsFrom(p, parents, chain[1..], next)
  }

  predicate CheckParents(p: Params, parents: seq<Id>, chain: seq<Node>)
    requires |parents| == p.levels && AllFormed(p, chain)
  {
    CheckParentsFrom(p, parents, chain, 0)
  }

  /** The inner loop of checkParents. */
  method ClaimAt(p: Params, parents: seq<Id>, node: TxPoW, sup: nat) returns (next: int)
    requires |parents| == p.levels && 0 <= node.superLevel < p.levels
    ensures next == ClaimLevels(p, parents, node, sup)
  {
    var blocksup := sup;
    while node.superLevel >= blocksup
      invariant sup <= blocksup && ClaimLevels(p, parents, node, sup) == ClaimLevels(p, parents, node, blocksup)
      decreases node.superLevel - blocksup
    {
      if parents[blocksup] != node.id {
        return -1;
      }
      blocksup := blocksup + 1;
    }
    next := blocksup;
  }

  lemma {:induction false} ClaimMeaning(p: Params, parents: seq<Id>, node: TxPoW, sup: nat)
    requires |parents| == p.levels && 0 <= node.superLevel < p.levels
    ensures ClaimLevels(p, parents, node, sup) >= 0 <==> forall i :: sup <= i <= node.superLevel ==> parents[i] == node.id
    ensures ClaimLevels(p, parents, node, sup) >= 0 ==>
              ClaimLevels(p, parents, node, sup) == if node.superLevel < sup then sup else node.superLevel + 1
    decreases node.superLevel - sup
  {
    if node.superLevel >= sup && parents[sup] == node.id {
      ClaimMeaning(p, parents, node, sup + 1);
    }
  }

  lemma {:induction false} CheckParentsMeaningFrom(p: Params, parents: seq<Id>, chain: seq<Node>, sup: nat)
    requires |parents| == p.levels && AllFormed(p, chain)
    ensures CheckParentsFrom(p, parents, chain, sup) <==>
            forall i :: sup <= i < p.levels ==> parents[i] == Nearest(chain, i)
    decreases |chain|
  {
    if chain != [] {
      var head := chain[0].txp;
      ClaimMeaning(p, parents, head, sup);
      var next := if head.superLevel < sup then sup else head.superLevel + 1;
      CheckParentsMeaningFrom(p, parents, chain[1..], next);
      assert forall i :: sup <= i <= head.superLevel ==> Nearest(chain, i) == head.id;
      assert forall i :: next <= i < p.levels ==> Nearest(chain, i) == Nearest(chain[1..], i);
      if forall i :: sup <= i < p.levels ==> parents[i] == Nearest(chain, i) {
        assert forall i :: sup <= i <= head.superLevel ==> parents[i] == head.id;
        assert forall i :: next <= i < p.levels ==> parents[i] == Nearest(chain[1..], i);
      }
      if CheckParentsFrom(p, parents, chain, sup) {
        forall i | sup <= i < p.levels ensures parents[i] == Nearest(chain, i) {
          if i <= head.superLevel {
          } else {
            assert next <= i;
          }
        }
      }
    }
  }

  /** checkParents accepts a block exactly when it names the nearest ancestor at every level. */
  lemma CheckParentsMeaning(p: Params, txp: TxPoW, chain: seq<Node>)
    requires |txp.superParents| == p.levels && AllFormed(p, chain)
    ensures CheckParents(p, txp.superParents, chain) <==> NamesNearest(p, txp, chain)
  {
    CheckParentsMeaningFrom(p, txp.superParents, chain, 0);
  }

  // ---------------------------------------------------------------- pruning and ancestors

  lemma {:induction false} WalkFormed(p: Params, c: Cursor, older: seq<Node>)
    requires AllFormed(p, older)
    ensures AllFormed(p, Walk(p, c, older))
    decreases |older|
  {
    if older != [] {
      WalkFormed(p, if older[0].txp.superLevel >= c.level then Advance(p, c) else c, older[1..]);
    }
  }

  lemma CascadedFormed(p: Params, chain: seq<Node>)
    requires AllFormed(p, chain)
    ensures AllFormed(p, Cascaded(p, chain))
  {
    if chain != [] {
      WalkFormed(p, START, chain[1..]);
    }
  }

  /** A walk that starts at or below a level never loses the nearest block of that level. */
  lemma {:induction false} WalkKeepsNearest(p: Params, c: Cursor, older: seq<Node>, level: int)
    requires c.level <= level
    ensures Nearest(Walk(p, c, older), level) == Nearest(older, level)
    decreases |older|
  {
    if older != [] {
      var s := older[0].txp.superLevel;
      if s < level {
        var c' := if s >= c.level then Advance(p, c) else c;
        WalkKeepsNearest(p, c', older[1..], level);
        if s >= c.level {
          assert ([Node(older[0].txp, c.level)] + Walk(p, c', older[1..]))[1..] == Walk(p, c', older[1..]);
        }
      }
    }
  }

  lemma {:induction false} NearestConcat(a: seq<Node>, b: seq<Node>, b': seq<Node>, level: int)
    requires Nearest(b, level) == Nearest(b', level)
    ensures Nearest(a + b, level) == Nearest(a + b', level)
  {
    if a == [] {
      assert a + b == b && a + b' == b';
    } else {
      assert (a + b)[1..] == a[1..] + b && (a + b')[1..] == a[1..] + b';
      NearestConcat(a[1..], b, b', level);
    }
  }

  /** Pruning keeps the nearest ancestor at every level. */
  lemma PruningKeepsNearest(p: Params, newer: seq<Node>, older: seq<Node>, level: int)
    requires 0 <= level
    ensures Nearest(newer + Cascaded(p, older), level) == Nearest(newer + older, level)
  {
    if older != [] {
      assert Cascaded(p, older)[1..] == Walk(p, START, older[1..]);
      WalkKeepsNearest(p, START, older[1..], level);
    }
    NearestConcat(newer, Cascaded(p, older), older, level);
  }

  /** Pruning never changes the block checker's verdict: a block is accepted on top of the
      pruned chain exactly when it is accepted on top of the complete history. */
  lemma PruningKeepsCheckParents(p: Params, parents: seq<Id>, newer: seq<Node>, older: seq<Node>)
    requires |parents| == p.levels && AllFormed(p, newer) && AllFormed(p, older)
    ensures AllFormed(p, newer + Cascaded(p, older)) && AllFormed(p, newer + older)
    ensures CheckParents(p, parents, newer + Cascaded(p, older)) <==> CheckParents(p, parents, newer + older)
  {
    CascadedFormed(p, older);
    CheckParentsMeaningFrom(p, parents, newer + Cascaded(p, older), 0);
    CheckParentsMeaningFrom(p, parents, newer + older, 0);
    forall i | 0 <= i < p.levels
      ensures Nearest(newer + Cascaded(p, older), i) == Nearest(newer + older, i)
    {
      PruningKeepsNearest(p, newer, older, i);
    }
  }

  // ---------------------------------------------------------------- a stray block

  lemma {:induction false} NearestInFront(newer: seq<Node>, older: seq<Node>, level: int)
    ensures Nearest(newer + older, level) ==
            if exists n :: n in newer && n.txp.superLevel >= level then Nearest(newer, level) else Nearest(older, level)
  {
    if newer == [] {
      assert newer + older == older;
    } else {
      assert (newer + older)[1..] == newer[1..] + older;
      NearestInFront(newer[1..], older, level);
      assert forall n :: n in newer <==> n == newer[0] || n in newer[1..];
    }
  }

  lemma {:induction false} NearestOf(chain: seq<Node>, level: int)
    ensures Nearest(chain, level) == ZERO_ID || exists n :: n in chain && n.txp.id == Nearest(chain, level)
  {
    if chain != [] {
      NearestOf(chain[1..], level);
    }
  }

  /** A super-parent list that names the nearest block of every level. */
  function NearestList(p: Params, chain: seq<Node>): (r: seq<Id>)
    requires p.levels >= 0
    ensures |r| == p.levels && forall i :: 0 <= i < p.levels ==> r[i] == Nearest(chain, i)
  {
    seq(p.levels, i => Nearest(chain, i))
  }

  ghost predicate SameVerdicts(p: Params, a: seq<Node>, b: seq<Node>)
    requires AllFormed(p, a) && AllFormed(p, b)
  {
    forall parents: seq<Id> :: |parents| == p.levels ==> (CheckParents(p, parents, a) <==> CheckParents(p, parents, b))
  }

  ghost predicate SameNearest(p: Params, a: seq<Node>, b: seq<Node>) {
    forall i :: 0 <= i < p.levels ==> Nearest(a, i) == Nearest(b, i)
  }

  /** Two chains give the same verdicts exactly when they have the same nearest blocks. */
  lemma SameVerdictsMeans(p: Params, a: seq<Node>, b: seq<Node>)
    requires p.levels >= 0 && AllFormed(p, a) && AllFormed(p, b)
    ensures SameVerdicts(p, a, b) <==> SameNearest(p, a, b)
  {
    if SameVerdicts(p, a, b) {
      var parents := NearestList(p, a);
      CheckParentsMeaningFrom(p, parents, a, 0);
      CheckParentsMeaningFrom(p, parents, b, 0);
      assert CheckParents(p, parents, a) <==> CheckParents(p, parents, b);
    }
    if SameNearest(p, a, b) {
      forall parents: seq<Id> | |parents| == p.levels
        ensures CheckParents(p, parents, a) <==> CheckParents(p, parents, b)
      {
        CheckParentsMeaningFrom(p, parents, a, 0);
        CheckParentsMeaningFrom(p, parents, b, 0);
      }
    }
  }

  predicate Reached(newer: seq<Node>, level: int) {
    exists n :: n in newer && n.txp.superLevel >= level
  }

  lemma StrayAtLevel(newer: seq<Node>, stray: Node, older: seq<Node>, level: int)
    requires stray.txp.id != ZERO_ID && forall n :: n in older ==> n.txp.id != stray.txp.id
    ensures Nearest(newer + ([stray] + older), level) == Nearest(newer + older, level) <==>
            level > stray.txp.superLevel || Reached(newer, level)
  {
    assert ([stray] + older)[1..] == older;
    NearestInFront(newer, [stray] + older, level);
    NearestInFront(newer, older, level);
    NearestOf(older, level);
  }

  /** A block from outside the chain, put into the cascade, leaves every later verdict of the
      block checker as it was if and only if some newer block reaches its super level. */
  lemma StrayBlockExactly(p: Params, newer: seq<Node>, stray: Node, older: seq<Node>)
    requires AllFormed(p, newer) && AllFormed(p, older) && Formed(p, stray.txp)
    requires forall n :: n in older ==> n.txp.id != stray.txp.id
    ensures AllFormed(p, newer + ([stray] + older)) && AllFormed(p, newer + older)
    ensures SameVerdicts(p, newer + ([stray] + older), newer + older) <==> Reached(newer, stray.txp.superLevel)
  {
    SameVerdictsMeans(p, newer + ([stray] + older), newer + older);
    forall i
      ensures Nearest(newer + ([stray] + older), i) == Nearest(newer + older, i) <==>
              i > stray.txp.superLevel || Reached(newer, i)
    {
      StrayAtLevel(newer, stray, older, i);
    }
    if Reached(newer, stray.txp.superLevel) {
      var n :| n in newer && n.txp.superLevel >= stray.txp.superLevel;
      forall i | i <= stray.txp.superLevel ensures Reached(newer, i) {
        assert n in newer && n.txp.superLevel >= i;
      }
    }
  }

  // ---------------------------------------------------------------- the generator

  /** The super parents the generator gives a new block: the tip's own, with the tip itself
      at every level up to its super level. */
  function NextParents(p: Params, tip: TxPoW): (r: seq<Id>)
    requires Formed(p, tip)
  {
    seq(p.levels, i requires 0 <= i < p.levels => if i <= tip.superLevel then tip.id else tip.superParents[i])
  }

  /** The generator's two loops: copy the tip's super parents, then point every level up to
      the tip's own super level at the tip. */
  method GenerateParents(p: Params, tip: TxPoW) returns (r: seq<Id>)
    requires Formed(p, tip)
    ensures r == NextParents(p, tip)
  {
    r := tip.superParents;
    var i := tip.superLevel;
    while i >= 0
      invariant -1 <= i <= tip.superLevel && |r| == p.levels
      invariant forall k :: 0 <= k < p.levels ==> r[k] == if i < k <= tip.superLevel then tip.id else tip.superParents[k]
    {
      r := r[i := tip.id];
      i := i - 1;
    }
  }

  /** A block made by the generator on a linked chain is accepted by the checker. */
  lemma GeneratedPassesCheck(p: Params, chain: seq<Node>)
    requires p.levels >= 0 && chain != [] && AllFormed(p, chain) && WellNamed(p, chain)
    ensures |NextParents(p, chain[0].txp)| == p.levels
    ensures CheckParents(p, NextParents(p, chain[0].txp), chain)
  {
    CheckParentsMeaningFrom(p, NextParents(p, chain[0].txp), chain, 0);
  }

  // ---------------------------------------------------------------- the validator

  /** checkPastNodeExists: the walk back from a node, the node itself included. */
  predicate PastNodeExists(chain: seq<Node>, id: Id) {
    if chain == [] then false
    else chain[0].txp.id == id || PastNodeExists(chain[1..], id)
  }

  /** The super-parent loop of checkCascadeCorrect at the first node of `chain`, from level
      `i` on; `foundZero` is the flag the loop carries. */
  predicate CheckLevels(p: Params, chain: seq<Node>, last: bool, i: int, foundZero: bool)
    requires chain != [] && Formed(p, chain[0].txp) && 0 <= i
    decreases p.levels - i
  {
    if i >= p.levels then true
    else
      var sparent := chain[0].txp.superParents[i];
      if sparent == ZERO_ID then CheckLevels(p, chain, last, i + 1, true)
      else
        && !foundZero
        && ((last && i <= chain[0].level) || PastNodeExists(chain, sparent))
        && CheckLevels(p, chain, last, i + 1, false)
  }

  predicate LastOfLevel(chain: seq<Node>)
    requires chain != []
  {
    |chain| == 1 || chain[1].level != chain[0].level
  }

  /** The main loop of checkCascadeCorrect; `oldLevel` is the level of the node before. */
  predicate CheckFrom(p: Params, chain: seq<Node>, oldLevel: int)
    requires AllFormed(p, chain) && 0 <= oldLevel
    decreases |chain|
  {
    chain == [] ||
    (&& (chain[0].level == oldLevel || chain[0].level == oldLevel + 1)
     && CheckLevels(p, chain, LastOfLevel(chain), chain[0].level, false)
     && CheckFrom(p, chain[1..], chain[0].level))
  }

  predicate CheckCascadeCorrect(p: Params, chain: seq<Node>)
    requires AllFormed(p, chain)
  {
    chain == [] || (chain[0].level == 0 && CheckFrom(p, chain, 0))
  }

  lemma {:induction false} NearestExists(chain: seq<Node>, level: int)
    requires Nearest(chain, level) != ZERO_ID
    ensures PastNodeExists(chain, Nearest(chain, level))
  {
    if chain[0].txp.superLevel < level {
      NearestExists(chain[1..], level);
    }
  }

  lemma {:induction false} NearestZeroUp(chain: seq<Node>, level: int, higher: int)
    requires level <= higher && (forall n :: n in chain ==> n.txp.id != ZERO_ID)
    requires Nearest(chain, level) == ZERO_ID
    ensures Nearest(chain, higher) == ZERO_ID
  {
    if chain != [] {
      NearestZeroUp(chain[1..], level, higher);
    }
  }

  lemma {:induction false} PastNodeMeans(chain: seq<Node>, id: Id)
    ensures PastNodeExists(chain, id) <==> exists n :: n in chain && n.txp.id == id
  {
    if chain != [] {
      PastNodeMeans(chain[1..], id);
      assert forall n :: n in chain <==> n == chain[0] || n in chain[1..];
    }
  }

  /** A named super parent: no lower level has the zero id, and the block is in the chain from
      this node back, unless the node is the last of its level and the super parent is that
      of the level itself. */
  predicate WellBacked(p: Params, chain: seq<Node>, last: bool, from: int, i: int)
    requires chain != [] && Formed(p, chain[0].txp) && 0 <= from <= i < p.levels
  {
    && (forall j :: from <= j < i ==> chain[0].txp.superParents[j] != ZERO_ID)
    && ((last && i <= chain[0].level) || exists n :: n in chain && n.txp.id == chain[0].txp.superParents[i])
  }

  lemma {:induction false} CheckLevelsMeans(p: Params, chain: seq<Node>, last: bool, from: int, foundZero: bool)
    requires chain != [] && Formed(p, chain[0].txp) && 0 <= from
    ensures CheckLevels(p, chain, last, from, foundZero) <==>
            forall i :: from <= i < p.levels && chain[0].txp.superParents[i] != ZERO_ID ==>
              !foundZero && WellBacked(p, chain, last, from, i)
    decreases p.levels - from
  {
    if from < p.levels {
      var sp := chain[0].txp.superParents;
      PastNodeMeans(chain, sp[from]);
      CheckLevelsMeans(p, chain, last, from + 1, sp[from] == ZERO_ID);
      forall i | from + 1 <= i < p.levels
        ensures WellBacked(p, chain, last, from, i) <==> sp[from] != ZERO_ID && WellBacked(p, chain, last, from + 1, i)
      {
      }
      assert sp[from] != ZERO_ID ==>
               (WellBacked(p, chain, last, from, from) <==> (last && from <= chain[0].level) || PastNodeExists(chain, sp[from]));
    }
  }

  /** Every super parent the first node names from its level on is well backed. */
  predicate NodeHolds(p: Params, chain: seq<Node>)
    requires chain != [] && Formed(p, chain[0].txp) && 0 <= chain[0].level
  {
    forall i :: chain[0].level <= i < p.levels && chain[0].txp.superParents[i] != ZERO_ID ==>
      WellBacked(p, chain, LastOfLevel(chain), chain[0].level, i)
  }

  predicate AllHold(p: Params, chain: seq<Node>)
    requires AllFormed(p, chain)
    decreases |chain|
  {
    chain == [] || (0 <= chain[0].level && NodeHolds(p, chain) && AllHold(p, chain[1..]))
  }

  lemma {:induction false} CheckFromMeans(p: Params, chain: seq<Node>, oldLevel: int)
    requires AllFormed(p, chain) && 0 <= oldLevel
    ensures CheckFrom(p, chain, oldLevel) <==> Stairs(oldLevel, chain) && AllHold(p, chain)
    decreases |chain|
  {
    if chain != [] && oldLevel <= chain[0].level <= oldLevel + 1 {
      CheckLevelsMeans(p, chain, LastOfLevel(chain), chain[0].level, false);
      CheckFromMeans(p, chain[1..], chain[0].level);
    }
  }

  /** What the validator accepts, of any chain, side nodes or not: levels that start at 0 and
      climb by single steps, and at every node super parents that are well backed. */
  lemma ValidatorMeans(p: Params, chain: seq<Node>)
    requires AllFormed(p, chain)
    ensures CheckCascadeCorrect(p, chain) <==>
            (chain != [] ==> chain[0].level == 0) && Stairs(0, chain) && AllHold(p, chain)
  {
    CheckFromMeans(p, chain, 0);
  }

  // ---- the same, place by place

  predicate LevelsClimb(chain: seq<Node>) {
    forall k :: 0 < k < |chain| ==> chain[k - 1].level <= chain[k].level <= chain[k - 1].level + 1
  }

  lemma {:induction false} StairsClimb(from: int, s: seq<Node>)
    ensures Stairs(from, s) <==> (s != [] ==> from <= s[0].level <= from + 1) && LevelsClimb(s)
    decreases |s|
  {
    if s != [] {
      var rest := s[1..];
      StairsClimb(s[0].level, rest);
      if LevelsClimb(s) {
        assert forall k :: 0 < k < |rest| ==> rest[k - 1] == s[k] && rest[k] == s[k + 1];
      }
      if LevelsClimb(rest) && (rest != [] ==> s[0].level <= rest[0].level <= s[0].level + 1) {
        forall k | 0 < k < |s| ensures s[k - 1].level <= s[k].level <= s[k - 1].level + 1 {
          if k > 1 {
            assert rest[k - 2] == s[k - 1] && rest[k - 1] == s[k];
          }
        }
      }
    }
  }

  /** The id occurs from place `k` back. */
  predicate OccursFrom(chain: seq<Node>, k: nat, id: Id) {
    exists m :: k <= m < |chain| && chain[m].txp.id == id
  }

  /** The super parent of place `k` at level `i`, if it names one: no zero id comes before it
      from the node's own level on, and it occurs from the node back, unless it is that of the
      own level and the next node stands at another level or there is none. */
  predicate PlaceHolds(p: Params, chain: seq<Node>, k: nat, i: nat)
    requires AllFormed(p, chain) && k < |chain| && i < p.levels
  {
    assert chain[k] in chain;
    var sp := chain[k].txp.superParents;
    sp[i] != ZERO_ID ==>
      && (forall j :: 0 <= j < i && chain[k].level <= j ==> sp[j] != ZERO_ID)
      && (|| (i == chain[k].level && (k + 1 == |chain| || chain[k + 1].level != chain[k].level))
          || OccursFrom(chain, k, sp[i]))
  }

  predicate PlacesHold(p: Params, chain: seq<Node>, k: nat)
    requires AllFormed(p, chain) && k < |chain|
  {
    forall i :: 0 <= i < p.levels && chain[k].level <= i ==> PlaceHolds(p, chain, k, i)
  }

  lemma PlaceOfHead(p: Params, chain: seq<Node>, i: nat)
    requires AllFormed(p, chain) && chain != [] && 0 <= chain[0].level <= i < p.levels
    ensures PlaceHolds(p, chain, 0, i) <==>
            (chain[0].txp.superParents[i] != ZERO_ID ==> WellBacked(p, chain, LastOfLevel(chain), chain[0].level, i))
  {
    var id := chain[0].txp.superParents[i];
    assert OccursFrom(chain, 0, id) <==> exists n :: n in chain && n.txp.id == id;
  }

  lemma PlaceShifts(p: Params, chain: seq<Node>, k: nat, i: nat)
    requires AllFormed(p, chain) && 0 < k < |chain| && i < p.levels
    ensures PlaceHolds(p, chain, k, i) <==> PlaceHolds(p, chain[1..], k - 1, i)
  {
    var rest := chain[1..];
    assert rest[k - 1] == chain[k] && (k + 1 < |chain| ==> rest[k] == chain[k + 1]);
    var id := chain[k].txp.superParents[i];
    if OccursFrom(chain, k, id) {
      var m :| k <= m < |chain| && chain[m].txp.id == id;
      assert rest[m - 1] == chain[m];
    }
    if OccursFrom(rest, k - 1, id) {
      var m :| k - 1 <= m < |rest| && rest[m].txp.id == id;
      assert chain[m + 1] == rest[m];
    }
  }

  lemma {:induction false} AllPlaces(p: Params, chain: seq<Node>)
    requires AllFormed(p, chain) && forall n :: n in chain ==> n.level >= 0
    ensures AllHold(p, chain) <==> forall k :: 0 <= k < |chain| ==> PlacesHold(p, chain, k)
    decreases |chain|
  {
    if chain != [] {
      var rest := chain[1..];
      AllPlaces(p, rest);
      forall i | chain[0].level <= i < p.levels
        ensures PlaceHolds(p, chain, 0, i) <==>
                (chain[0].txp.superParents[i] != ZERO_ID ==> WellBacked(p, chain, LastOfLevel(chain), chain[0].level, i))
      {
        PlaceOfHead(p, chain, i);
      }
      assert NodeHolds(p, chain) <==> PlacesHold(p, chain, 0);
      forall k | 0 < k < |chain| ensures PlacesHold(p, chain, k) <==> PlacesHold(p, rest, k - 1) {
        PlacesShift(p, chain, k);
      }
      if AllHold(p, rest) {
        forall k | 0 < k < |chain| ensures PlacesHold(p, chain, k) {
          assert PlacesHold(p, rest, k - 1);
        }
      }
      if forall k :: 0 <= k < |chain| ==> PlacesHold(p, chain, k) {
        forall k | 0 <= k < |rest| ensures PlacesHold(p, rest, k) {
          assert PlacesHold(p, chain, k + 1);
        }
      }
    }
  }

  lemma PlacesShift(p: Params, chain: seq<Node>, k: nat)
    requires AllFormed(p, chain) && 0 < k < |chain|
    ensures PlacesHold(p, chain, k) <==> PlacesHold(p, chain[1..], k - 1)
  {
    var rest, h := chain[1..], k - 1;
    assert rest[h] == chain[k];
    if PlacesHold(p, chain, k) {
      forall i | 0 <= i < p.levels && chain[k].level <= i ensures PlaceHolds(p, rest, h, i) {
        PlaceShifts(p, chain, k, i);
        assert PlaceHolds(p, chain, k, i);
      }
    }
    if PlacesHold(p, rest, h) {
      forall i | 0 <= i < p.levels && chain[k].level <= i ensures PlaceHolds(p, chain, k, i) {
        PlaceShifts(p, chain, k, i);
        assert PlaceHolds(p, rest, h, i);
      }
    }
  }

  lemma {:induction false} ClimbPositive(s: seq<Node>, k: nat)
    requires LevelsClimb(s) && k < |s| && s[0].level == 0
    ensures s[k].level >= 0
  {
    if k > 0 {
      ClimbPositive(s, k - 1);
    }
  }

  /** What the validator accepts, place by place: levels that start at 0 and climb by single
      steps, and at every place and level a super parent that holds. */
  lemma ValidatorExactly(p: Params, chain: seq<Node>)
    requires AllFormed(p, chain)
    ensures CheckCascadeCorrect(p, chain) <==>
            && (chain != [] ==> chain[0].level == 0) && LevelsClimb(chain)
            && forall k :: 0 <= k < |chain| ==> PlacesHold(p, chain, k)
  {
    ValidatorMeans(p, chain);
    StairsClimb(0, chain);
    if chain != [] && chain[0].level == 0 && LevelsClimb(chain) {
      forall n | n in chain ensures n.level >= 0 {
        var k :| 0 <= k < |chain| && chain[k] == n;
        ClimbPositive(chain, k);
      }
      AllPlaces(p, chain);
    }
  }

  /** The first place, going back, of at least the given super level. */
  predicate IsFirst(chain: seq<Node>, level: int, k: nat)
    requires k < |chain|
  {
    chain[k].txp.superLevel >= level && forall j :: 0 <= j < k ==> chain[j].txp.superLevel < level
  }

  /** The nearest block is the one at the first place; without one the id is zero. */
  lemma {:induction false} NearestIs(chain: seq<Node>, level: int)
    ensures (forall n :: n in chain ==> n.txp.superLevel < level) ==> Nearest(chain, level) == ZERO_ID
    ensures forall k :: 0 <= k < |chain| && IsFirst(chain, level, k) ==> Nearest(chain, level) == chain[k].txp.id
    decreases |chain|
  {
    if chain != [] {
      var rest := chain[1..];
      NearestIs(rest, level);
      forall k | 0 < k < |chain| && IsFirst(chain, level, k) ensures Nearest(chain, level) == chain[k].txp.id {
        assert rest[k - 1] == chain[k];
        assert IsFirst(rest, level, k - 1);
      }
    }
  }

  /** A stray block on top of a cascade the validator accepts is accepted with it if and only
      if what it names is in the cascade and no zero id comes before a named one. */
  lemma StrayOnTopExactly(p: Params, stray: TxPoW, older: seq<Node>)
    requires Formed(p, stray) && AllFormed(p, older) && older != [] && CheckCascadeCorrect(p, older)
    ensures AllFormed(p, [Node(stray, 0)] + older)
    ensures CheckCascadeCorrect(p, [Node(stray, 0)] + older) <==>
            forall i :: 0 <= i < p.levels && stray.superParents[i] != ZERO_ID ==>
              && (forall j :: 0 <= j < i ==> stray.superParents[j] != ZERO_ID)
              && (stray.id == stray.superParents[i] || exists n :: n in older && n.txp.id == stray.superParents[i])
  {
    var all := [Node(stray, 0)] + older;
    assert all[1..] == older && all[0] == Node(stray, 0) && all[1] == older[0];
    ValidatorMeans(p, older);
    ValidatorMeans(p, all);
    forall i | 0 <= i < p.levels
      ensures WellBacked(p, all, false, 0, i) <==>
              && (forall j :: 0 <= j < i ==> stray.superParents[j] != ZERO_ID)
              && (stray.id == stray.superParents[i] || exists n :: n in older && n.txp.id == stray.superParents[i])
    {
      assert forall n :: n in all <==> n == all[0] || n in older;
    }
  }

  /** The nearest blocks of the levels that must be present are present after this node. */
  predicate Backed(p: Params, chain: seq<Node>, older: seq<Node>)
    requires chain != []
  {
    forall i :: chain[0].level <= i < p.levels && (LastOfLevel(chain) ==> i > chain[0].level) ==>
      Nearest(chain[1..], i) == Nearest(older, i)
  }

  lemma {:induction false} CheckLevelsHolds(p: Params, chain: seq<Node>, older: seq<Node>, i: int, foundZero: bool)
    requires chain != [] && Formed(p, chain[0].txp) && AllFormed(p, older)
    requires 0 <= chain[0].level <= i
    requires NamesNearest(p, chain[0].txp, older) && Backed(p, chain, older)
    requires foundZero ==> i > 0 && (i <= p.levels ==> Nearest(older, i - 1) == ZERO_ID)
    ensures CheckLevels(p, chain, LastOfLevel(chain), i, foundZero)
    decreases p.levels - i
  {
    if i < p.levels {
      if foundZero {
        NearestZeroUp(older, i - 1, i);
      }
      var sparent := chain[0].txp.superParents[i];
      if sparent == ZERO_ID {
        CheckLevelsHolds(p, chain, older, i + 1, true);
      } else {
        if !(LastOfLevel(chain) && i <= chain[0].level) {
          NearestExists(chain[1..], i);
        }
        CheckLevelsHolds(p, chain, older, i + 1, false);
      }
    }
  }

  /** A walk over the rest of a linked history passes the main loop. */
  lemma {:induction false} WalkPasses(p: Params, c: Cursor, older: seq<Node>, oldLevel: int)
    requires AllFormed(p, older) && WellNamed(p, older)
    requires 0 <= oldLevel <= c.level <= oldLevel + 1
    ensures AllFormed(p, Walk(p, c, older))
    ensures CheckFrom(p, Walk(p, c, older), oldLevel)
    decreases |older|
  {
    WalkFormed(p, c, older);
    if older != [] {
      if older[0].txp.superLevel < c.level {
        WalkPasses(p, c, older[1..], oldLevel);
      } else {
        var c' := Advance(p, c);
        var rest := Walk(p, c', older[1..]);
        var chain := [Node(older[0].txp, c.level)] + rest;
        assert chain[1..] == rest;
        WalkPasses(p, c', older[1..], c.level);
        NodeBacked(p, c', chain, older[1..]);
        CheckLevelsHolds(p, chain, older[1..], c.level, false);
      }
    }
  }

  lemma NodeBacked(p: Params, c': Cursor, chain: seq<Node>, older: seq<Node>)
    requires chain != [] && chain[1..] == Walk(p, c', older)
    requires chain[0].level <= c'.level <= chain[0].level + 1
    ensures Backed(p, chain, older)
  {
    WalkShape(p, c', older);
    forall i | chain[0].level <= i < p.levels && (LastOfLevel(chain) ==> i > chain[0].level)
      ensures Nearest(chain[1..], i) == Nearest(older, i)
    {
      if |chain| > 1 {
        assert chain[1] == chain[1..][0];
      }
      WalkKeepsNearest(p, c', older, i);
    }
  }

  /** The cascade of a linked history is accepted. */
  lemma CascadedPasses(p: Params, history: seq<Node>)
    requires AllFormed(p, history) && WellNamed(p, history)
    requires history != [] ==> history[0].level == 0
    ensures AllFormed(p, Cascaded(p, history))
    ensures CheckCascadeCorrect(p, Cascaded(p, history))
  {
    CascadedFormed(p, history);
    if history != [] {
      var chain := Cascaded(p, history);
      assert chain[1..] == Walk(p, START, history[1..]);
      WalkPasses(p, START, history[1..], 0);
      NodeBacked(p, START, chain, history[1..]);
      CheckLevelsHolds(p, chain, history[1..], 0, false);
    }
  }

  predicate AllLevelZero(chain: seq<Node>) {
    forall n :: n in chain ==> n.level == 0
  }

  /** So is that cascade with blocks on top that were added since the last pruning. */
  lemma {:induction false} UnprunedPasses(p: Params, newer: seq<Node>, older: seq<Node>)
    requires AllFormed(p, newer + older) && WellNamed(p, newer + older) && AllLevelZero(newer + older)
    ensures AllFormed(p, newer + Cascaded(p, older))
    ensures CheckCascadeCorrect(p, newer + Cascaded(p, older))
  {
    assert AllFormed(p, newer) && AllFormed(p, older) by {
      assert forall n :: n in newer ==> n in newer + older;
      assert forall n :: n in older ==> n in newer + older;
    }
    CascadedFormed(p, older);
    if newer == [] {
      assert newer + older == older && newer + Cascaded(p, older) == Cascaded(p, older);
      assert older != [] ==> older[0] in newer + older;
      CascadedPasses(p, older);
    } else {
      var chain := newer + Cascaded(p, older);
      assert (newer + older)[1..] == newer[1..] + older;
      assert chain[1..] == newer[1..] + Cascaded(p, older);
      UnprunedPasses(p, newer[1..], older);
      assert newer[0] in newer + older;
      assert |chain| > 1 ==> chain[1..][0] == chain[1];
      forall i | 0 <= i < p.levels ensures Nearest(chain[1..], i) == Nearest(newer[1..] + older, i) {
        PruningKeepsNearest(p, newer[1..], older, i);
      }
      assert Backed(p, chain, newer[1..] + older);
      CheckLevelsHolds(p, chain, newer[1..] + older, 0, false);
    }
  }

  // ---------------------------------------------------------------- whole runs

  /** Every block was formed and passed the block checker against the chain of its time,
      pruned as it then was. */
  predicate RunAdmitted(p: Params, ops: seq<Op>)
  {
    ops == [] ||
    (var before := ops[..|ops| - 1];
     && RunAdmitted(p, before)
     && (ops[|ops| - 1].AddToTip? ==>
           && Formed(p, ops[|ops| - 1].txp)
           && AllFormed(p, Run(p, before))
           && CheckParents(p, ops[|ops| - 1].txp.superParents, Run(p, before))))
  }

  lemma {:induction false} AdmittedRunLinked(p: Params, ops: seq<Op>)
    requires RunAdmitted(p, ops)
    ensures AllFormed(p, History(ops)) && WellNamed(p, History(ops)) && AllLevelZero(History(ops))
    ensures AllFormed(p, Run(p, ops))
  {
    if ops != [] {
      var before := ops[..|ops| - 1];
      AdmittedRunLinked(p, before);
      var h := History(before);
      match ops[|ops| - 1]
      case AddToTip(txp) =>
        RunClosedForm(p, before);
        var k := Unpruned(before);
        Rejoined(h, k);
        PruningKeepsCheckParents(p, txp.superParents, h[..k], h[k..]);
        CheckParentsMeaning(p, txp, h);
        assert ([Node(txp, 0)] + h)[1..] == h;
      case _ =>
        CascadedFormed(p, Run(p, before));
    }
  }

  /** Whatever the interleaving of additions, prunings and reloads, if each block was
      admitted against the pruned chain of its time then the cascade is one the validator
      accepts, at every moment of the run. */
  lemma EveryRunValidates(p: Params, ops: seq<Op>)
    requires RunAdmitted(p, ops)
    ensures AllFormed(p, Run(p, ops))
    ensures CheckCascadeCorrect(p, Run(p, ops))
  {
    AdmittedRunLinked(p, ops);
    RunClosedForm(p, ops);
    SplitPasses(p, History(ops), Unpruned(ops));
  }

  lemma SplitPasses(p: Params, h: seq<Node>, k: nat)
    requires k <= |h| && AllFormed(p, h) && WellNamed(p, h) && AllLevelZero(h)
    ensures AllFormed(p, h[..k] + Cascaded(p, h[k..]))
    ensures CheckCascadeCorrect(p, h[..k] + Cascaded(p, h[k..]))
  {
    var newer, older := h[..k], h[k..];
    Rejoined(h, k);
    UnprunedPasses(p, newer, older);
  }
}
