/** The parameters every block carries and pulls towards the desired values: three limits
    and the minimum work, each a weighted average of the old value and a clamped target. */
module Magic {

  const CALC_WEIGHTED := 16383
  const CALC_TOTAL := 16384

  const MINMAX_TXPOW_SIZE := 65536
  const MINMAX_KISSVM_OPERATIONS := 1024
  const MINMAX_TXPOW_TXNS := 256

  /** MiniNumber keeps 64 significant digits, rounding down. Of that only this is used: the
      rounding is monotone, never rounds a non-negative number up and keeps the integers
      that occur here. */
  ghost predicate RoundsDown(round: real -> real) {
    && (forall x, y :: x <= y ==> round(x) <= round(y))
    && (forall x :: x >= 0.0 ==> 0.0 <= round(x) <= x)
    && (forall n :: 0 <= n <= 0x1_0000_0000 ==> Keeps(round, n))
  }

  ghost predicate Keeps(round: real -> real, n: int) {
    round(n as real) == n as real
  }

  /** The next value of one limit. */
  function NextLimit(round: real -> real, current: real, wanted: real, floor: int): real {
    round(round(round(current * CALC_WEIGHTED as real) + Wish(round, current, wanted, floor)) / CALC_TOTAL as real)
  }

  lemma AverageBounds(c: real, d: real, f: real)
    requires c >= f && d >= f
    ensures c * 16383.0 >= f * 16383.0
    ensures c * 16383.0 + d >= f * 16384.0
    ensures d <= 2.0 * c ==> (c * 16383.0 + d) / 16384.0 <= c * 16385.0 / 16384.0
  {
  }

  /** The value a limit is pulled towards: the wish, kept within half and twice the current
      value and above the floor. */
  function Wish(round: real -> real, current: real, wanted: real, floor: int): real {
    var min := round(current / 2.0);
    var max := round(current * 2.0);
    var clamped := if wanted < min then min else if wanted > max then max else wanted;
    if clamped < floor as real then floor as real else clamped
  }

  lemma WishBounds(round: real -> real, current: real, wanted: real, floor: int)
    requires RoundsDown(round) && 0 < floor && current >= floor as real
    ensures floor as real <= Wish(round, current, wanted, floor) <= 2.0 * current
  {
    assert round(current / 2.0) <= current / 2.0 && round(current * 2.0) <= current * 2.0;
  }

  /** The rounded average of a value and its target, both from the floor on. */
  lemma AverageStep(round: real -> real, c: real, d: real, floor: int)
    requires RoundsDown(round) && 0 < floor <= 0x1_0000 && c >= floor as real && floor as real <= d <= 2.0 * c
    ensures
      var r := round(round(round(c * 16383.0) + d) / 16384.0);
      floor as real <= r <= c * 16385.0 / 16384.0
  {
    var f := floor as real;
    AverageBounds(c, d, f);
    assert Keeps(round, floor * 16383) && Keeps(round, floor * 16384) && Keeps(round, floor);
    assert f * 16383.0 == (floor * 16383) as real && f * 16384.0 == (floor * 16384) as real;
    var scaled := round(c * 16383.0);
    assert f * 16383.0 <= scaled <= c * 16383.0;
    var sum := round(scaled + d);
    assert f * 16384.0 <= sum <= scaled + d;
    assert f <= sum / 16384.0 <= (c * 16383.0 + d) / 16384.0;
    assert round(f) <= round(sum / 16384.0) <= sum / 16384.0;
  }

  /** One step from at or above the floor: never below it, and up by at most one part in
      16384 whatever is wanted. */
  lemma LimitStep(round: real -> real, current: real, wanted: real, floor: int)
    requires RoundsDown(round) && 0 < floor <= 0x1_0000 && current >= floor as real
    ensures floor as real <= NextLimit(round, current, wanted, floor) <= current * 16385.0 / 16384.0
  {
    WishBounds(round, current, wanted, floor);
    AverageStep(round, current, Wish(round, current, wanted, floor), floor);
  }

  /** With exact arithmetic one step moves a limit by one 16384th of the way to the wish. A
      wish below half the value or below the floor acts as the higher of these, a wish above
      double acts as double. */
  lemma LimitMoves(round: real -> real, current: real, wanted: real, floor: int)
    requires (forall x :: round(x) == x) && 0 < floor && current >= floor as real
    ensures
      var next, low := NextLimit(round, current, wanted, floor), if current / 2.0 < floor as real then floor as real else current / 2.0;
      && (low <= wanted <= 2.0 * current ==> next == current + (wanted - current) / 16384.0)
      && (wanted < low ==> next == current + (low - current) / 16384.0)
      && (wanted > 2.0 * current ==> next == current + current / 16384.0)
  {
  }

  /** Whatever the rounding, a higher wish never gives a lower limit. */
  lemma LimitFollowsWish(round: real -> real, current: real, low: real, high: real, floor: int)
    requires RoundsDown(round) && low <= high && current >= 0.0
    ensures NextLimit(round, current, low, floor) <= NextLimit(round, current, high, floor)
  {
    WishGrows(round, current, low, high, floor);
    AverageGrows(round, round(current * 16383.0), Wish(round, current, low, floor), Wish(round, current, high, floor));
  }

  lemma WishGrows(round: real -> real, current: real, low: real, high: real, floor: int)
    requires RoundsDown(round) && low <= high && current >= 0.0
    ensures Wish(round, current, low, floor) <= Wish(round, current, high, floor)
  {
    assert current / 2.0 <= current * 2.0;
    assert round(current / 2.0) <= round(current * 2.0);
  }

  lemma AverageGrows(round: real -> real, scaled: real, d: real, e: real)
    requires RoundsDown(round) && d <= e
    ensures round(round(scaled + d) / 16384.0) <= round(round(scaled + e) / 16384.0)
  {
    assert round(scaled + d) <= round(scaled + e);
    var x, y := round(scaled + d) / 16384.0, round(scaled + e) / 16384.0;
    assert x <= y;
  }

  // ---------------------------------------------------------------- the minimum work

  /** The next minimum work, on integers. */
  function NextWork(was: nat, wanted: nat, cap: nat): nat {
    (was * CALC_WEIGHTED + Target(was, wanted, cap)) / CALC_TOTAL
  }

  /** The value the step is pulled towards. */
  function Target(was: nat, wanted: nat, cap: nat): nat {
    var clamped := if wanted < was / 2 then was / 2 else if wanted > was * 2 then was * 2 else wanted;
    if clamped > cap then cap else clamped
  }

  /** One step moves by the rounded-down 16384th part of the distance, keeps within the cap,
      and below 16384 only ever goes down. */
  lemma WorkStep(was: nat, wanted: nat, cap: nat)
    ensures NextWork(was, wanted, cap) == was + (Target(was, wanted, cap) - was) / CALC_TOTAL
    ensures was <= cap ==> NextWork(was, wanted, cap) <= cap
    ensures was < CALC_TOTAL ==> NextWork(was, wanted, cap) <= was
  {
  }

  /** One step moves the work by the rounded-down 16384th of the way to the wish. A wish below
      half acts as half, one above double as double, and one above the cap as the cap. */
  lemma WorkMoves(was: nat, wanted: nat, cap: nat)
    ensures
      var next := NextWork(was, wanted, cap);
      && (was / 2 <= wanted <= 2 * was && wanted <= cap ==> next == was + (wanted - was) / 16384)
      && (wanted < was / 2 <= cap ==> next == was + (was / 2 - was) / 16384)
      && (wanted > 2 * was && 2 * was <= cap ==> next == was + was / 16384)
      && (wanted >= cap && cap <= 2 * was && was / 2 <= cap ==> next == was + (cap - was) / 16384)
      && (was / 2 > cap ==> next == was + (cap - was) / 16384)
  {
    WorkStep(was, wanted, cap);
  }

  /** All four values of one call, with exact arithmetic and every wish in reach. */
  lemma NextMoves(round: real -> real, c: Current, d: Desired, cap: nat)
    requires (forall x :: round(x) == x) && WithinLimits(c, cap)
    requires Reachable(c.size, d.size, 65536.0) && Reachable(c.ops, d.ops, 1024.0) && Reachable(c.txns, d.txns, 256.0)
    requires c.work / 2 <= d.work <= 2 * c.work && d.work <= cap
    ensures
      var e := NextCurrent(round, c, d, cap);
      && e.size == c.size + (d.size - c.size) / 16384.0
      && e.ops == c.ops + (d.ops - c.ops) / 16384.0
      && e.txns == c.txns + (d.txns - c.txns) / 16384.0
      && e.work == c.work + (d.work - c.work) / 16384
  {
    LimitMoves(round, c.size, d.size, 65536);
    LimitMoves(round, c.ops, d.ops, 1024);
    LimitMoves(round, c.txns, d.txns, 256);
    WorkMoves(c.work, d.work, cap);
  }

  predicate Reachable(current: real, wanted: real, floor: real) {
    floor <= wanted && current / 2.0 <= wanted <= 2.0 * current
  }

  // ---------------------------------------------------------------- whole blocks

  /** The "current" fields; the "desired" ones are set anew for every block. */
  datatype Current = Current(size: real, ops: real, txns: real, work: nat)

  datatype Desired = Desired(size: real, ops: real, txns: real, work: nat)

  function NextCurrent(round: real -> real, c: Current, d: Desired, cap: nat): Current {
    Current(NextLimit(round, c.size, d.size, MINMAX_TXPOW_SIZE),
            NextLimit(round, c.ops, d.ops, MINMAX_KISSVM_OPERATIONS),
            NextLimit(round, c.txns, d.txns, MINMAX_TXPOW_TXNS),
            NextWork(c.work, d.work, cap))
  }

  /** The values after a run of blocks with the given wishes, oldest first. */
  function After(round: real -> real, c: Current, wishes: seq<Desired>, cap: nat): Current
    decreases |wishes|
  {
    if wishes == [] then c else After(round, NextCurrent(round, c, wishes[0], cap), wishes[1..], cap)
  }

  predicate WithinLimits(c: Current, cap: nat) {
    && c.size >= MINMAX_TXPOW_SIZE as real
    && c.ops >= MINMAX_KISSVM_OPERATIONS as real
    && c.txns >= MINMAX_TXPOW_TXNS as real
    && c.work <= cap
  }

  /** A limit raised `n` times by one part in 16384. */
  function Raised(x: real, n: nat): real
    decreases n
  {
    if n == 0 then x else Raised(x * 16385.0 / 16384.0, n - 1)
  }

  lemma {:induction false} RaisedMonotone(x: real, y: real, n: nat)
    requires x <= y
    ensures Raised(x, n) <= Raised(y, n)
    decreases n
  {
    if n > 0 {
      RaisedMonotone(x * 16385.0 / 16384.0, y * 16385.0 / 16384.0, n - 1);
    }
  }

  /** One limit over a run, given its step. */
  function LimitAfter(step: (real, real) -> real, x: real, wants: seq<real>): real
    decreases |wants|
  {
    if wants == [] then x else LimitAfter(step, step(x, wants[0]), wants[1..])
  }

  predicate StepKeeps(step: (real, real) -> real, floor: real, c: real, w: real) {
    c >= floor ==> floor <= step(c, w) <= c * 16385.0 / 16384.0
  }

  /** A step that keeps to the floor and the allowed rate does so over every run. */
  lemma {:induction false} LimitRun(step: (real, real) -> real, x: real, wants: seq<real>, floor: real)
    requires x >= floor
    requires forall c, w :: StepKeeps(step, floor, c, w)
    ensures floor <= LimitAfter(step, x, wants) <= Raised(x, |wants|)
    decreases |wants|
  {
    if wants != [] {
      var next := step(x, wants[0]);
      assert StepKeeps(step, floor, x, wants[0]);
      LimitRun(step, next, wants[1..], floor);
      RaisedFrom(x, next, |wants|);
    }
  }

  function StepFor(round: real -> real, floor: int): (real, real) -> real {
    (c: real, w: real) => NextLimit(round, c, w, floor)
  }

  lemma LimitRunFor(round: real -> real, x: real, wants: seq<real>, floor: int)
    requires RoundsDown(round) && 0 < floor <= 0x1_0000 && x >= floor as real
    ensures floor as real <= LimitAfter(StepFor(round, floor), x, wants) <= Raised(x, |wants|)
  {
    var step, f := StepFor(round, floor), floor as real;
    forall c, w ensures StepKeeps(step, f, c, w) {
      if c >= f {
        LimitStep(round, c, w, floor);
      }
    }
    LimitRun(step, x, wants, f);
  }

  lemma RaisedFrom(x: real, next: real, n: nat)
    requires n > 0 && next <= x * 16385.0 / 16384.0
    ensures Raised(next, n - 1) <= Raised(x, n)
  {
    RaisedMonotone(next, x * 16385.0 / 16384.0, n - 1);
  }

  function Sizes(wishes: seq<Desired>): (r: seq<real>)
    ensures |r| == |wishes|
  {
    if wishes == [] then [] else [wishes[0].size] + Sizes(wishes[1..])
  }

  function Ops(wishes: seq<Desired>): (r: seq<real>)
    ensures |r| == |wishes|
  {
    if wishes == [] then [] else [wishes[0].ops] + Ops(wishes[1..])
  }

  function Txns(wishes: seq<Desired>): (r: seq<real>)
    ensures |r| == |wishes|
  {
    if wishes == [] then [] else [wishes[0].txns] + Txns(wishes[1..])
  }

  lemma {:induction false} LimitsApart(round: real -> real, c: Current, wishes: seq<Desired>, cap: nat)
    ensures
      var e := After(round, c, wishes, cap);
      && e.size == LimitAfter(StepFor(round, MINMAX_TXPOW_SIZE), c.size, Sizes(wishes))
      && e.ops == LimitAfter(StepFor(round, MINMAX_KISSVM_OPERATIONS), c.ops, Ops(wishes))
      && e.txns == LimitAfter(StepFor(round, MINMAX_TXPOW_TXNS), c.txns, Txns(wishes))
    decreases |wishes|
  {
    if wishes != [] {
      assert Sizes(wishes)[1..] == Sizes(wishes[1..]);
      assert Ops(wishes)[1..] == Ops(wishes[1..]);
      assert Txns(wishes)[1..] == Txns(wishes[1..]);
      LimitsApart(round, NextCurrent(round, c, wishes[0], cap), wishes[1..], cap);
    }
  }

  lemma {:induction false} WorkRun(round: real -> real, c: Current, wishes: seq<Desired>, cap: nat)
    requires c.work <= cap
    ensures After(round, c, wishes, cap).work <= cap
    ensures c.work < CALC_TOTAL ==> After(round, c, wishes, cap).work <= c.work
    decreases |wishes|
  {
    if wishes != [] {
      WorkStep(c.work, wishes[0].work, cap);
      WorkRun(round, NextCurrent(round, c, wishes[0], cap), wishes[1..], cap);
    }
  }

  /** Over every run, whatever is wished for: no limit falls below its floor or outgrows the
      allowed rate, the work stays within its cap, and once below 16384 it never rises. */
  lemma RunWithinLimits(round: real -> real, c: Current, wishes: seq<Desired>, cap: nat)
    requires RoundsDown(round) && WithinLimits(c, cap)
    ensures
      var e := After(round, c, wishes, cap);
      && WithinLimits(e, cap)
      && e.size <= Raised(c.size, |wishes|) && e.ops <= Raised(c.ops, |wishes|) && e.txns <= Raised(c.txns, |wishes|)
      && (c.work < CALC_TOTAL ==> e.work <= c.work)
  {
    LimitsApart(round, c, wishes, cap);
    LimitRunFor(round, c.size, Sizes(wishes), MINMAX_TXPOW_SIZE);
    LimitRunFor(round, c.ops, Ops(wishes), MINMAX_KISSVM_OPERATIONS);
    LimitRunFor(round, c.txns, Txns(wishes), MINMAX_TXPOW_TXNS);
    WorkRun(round, c, wishes, cap);
  }

  /** The clamping and averaging calculateNewCurrent writes out for each limit. */
  method WeightedLimit(round: real -> real, current: real, wanted: real, floor: int) returns (next: real)
    ensures next == NextLimit(round, current, wanted, floor)
  {
    var desired := wanted;
    var min := round(current / 2.0);
    var max := round(current * 2.0);
    if desired < min {
      desired := min;
    } else if desired > max {
      desired := max;
    }
    if desired < floor as real {
      desired := floor as real;
    }
    next := round(round(round(current * CALC_WEIGHTED as real) + desired) / CALC_TOTAL as real);
  }

  /** calculateNewCurrent. */
  method CalculateNewCurrent(round: real -> real, c: Current, d: Desired, cap: nat) returns (ret: Current)
    ensures ret == NextCurrent(round, c, d, cap)
  {
    var size := WeightedLimit(round, c.size, d.size, MINMAX_TXPOW_SIZE);
    var ops := WeightedLimit(round, c.ops, d.ops, MINMAX_KISSVM_OPERATIONS);
    var txns := WeightedLimit(round, c.txns, d.txns, MINMAX_TXPOW_TXNS);
    var newval := d.work;
    var minval, maxval := c.work / 2, c.work * 2;
    if newval < minval {
      newval := minval;
    } else if newval > maxval {
      newval := maxval;
    }
    if newval > cap {
      newval := cap;
    }
    ret := Current(size, ops, txns, (c.work * CALC_WEIGHTED + newval) / CALC_TOTAL);
  }
}
