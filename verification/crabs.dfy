/** Day 7: crab submarines at horizontal positions must all move to one
    position.  Part one pays one unit of fuel per step; part two pays 1
    for the first step, 2 for the second and so on.  Both look for the
    cheapest target position. */
module Crabs {
  import opened Common

  /** How fuel grows with distance: one unit per step (part one), or
      n * (n + 1), twice the triangular number (part two, halved at the
      end). */
  datatype Rate = Constant | Increasing

  /** `i.max(j) - i.min(j)`: the distance between two positions. */
  function Dist(i: nat, j: nat): (d: nat)
    ensures d == if i >= j then i - j else j - i
  {
    var hi := if i >= j then i else j;
    var lo := if i >= j then j else i;
    hi - lo
  }

  function StepCost(rate: Rate, n: nat): nat
  {
    match rate
    case Constant => n
    case Increasing => n * (n + 1)
  }

  /** The fuel all crabs spend to reach target i. */
  function Cost(rate: Rate, pos: seq<nat>, i: nat): nat
  {
    if |pos| == 0 then 0
    else Cost(rate, pos[..|pos| - 1], i) + StepCost(rate, Dist(i, pos[|pos| - 1]))
  }

  /** The cheapest cost over targets 0 .. hi - 1, with `Iterator::min`. */
  function MinCost(rate: Rate, pos: seq<nat>, hi: nat): (r: nat)
    requires hi > 0
    ensures exists i :: 0 <= i < hi && r == Cost(rate, pos, i)
    ensures forall i :: 0 <= i < hi ==> r <= Cost(rate, pos, i)
  {
    if hi == 1 then Cost(rate, pos, 0)
    else
      var before := MinCost(rate, pos, hi - 1);
      var last := Cost(rate, pos, hi - 1);
      if before <= last then before else last
  }

  /** The largest position, with `Iterator::max`; None when there are no
      crabs, where the original panics. */
  function MaxOf(pos: seq<nat>): (r: Option<nat>)
    ensures r.None? <==> |pos| == 0
    ensures r.Some? ==> r.value in pos && forall k :: 0 <= k < |pos| ==> pos[k] <= r.value
  {
    if |pos| == 0 then None
    else
      match MaxOf(pos[..|pos| - 1])
      case None => Some(pos[|pos| - 1])
      case Some(m) => Some(if m >= pos[|pos| - 1] then m else pos[|pos| - 1])
  }

  /** `part_one` as written: the cheapest target among 0 .. max - 1.  The
      range stops before the largest position, so an empty range (all
      crabs at 0) panics (None). */
  function PartOneAsWritten(pos: seq<nat>): (r: Option<nat>)
    ensures r.None? <==> |pos| == 0 || forall k :: 0 <= k < |pos| ==> pos[k] == 0
  {
    match MaxOf(pos)
    case None => None
    case Some(m) => if m == 0 then None else Some(MinCost(Constant, pos, m))
  }

  /** `part_two` as written: the same range, over n * (n + 1), halved. */
  function PartTwoAsWritten(pos: seq<nat>): (r: Option<nat>)
    ensures r.None? <==> |pos| == 0 || forall k :: 0 <= k < |pos| ==> pos[k] == 0
  {
    match MaxOf(pos)
    case None => None
    case Some(m) => if m == 0 then None else Some(MinCost(Increasing, pos, m) / 2)
  }

  /** A single crab at 3 is already where it should be, yet both parts as
      written answer as if it had to move to 2. */
  lemma AsWrittenMissesMax()
    ensures PartOneAsWritten([3]) == Some(1) && Cost(Constant, [3], 3) == 0
    ensures PartTwoAsWritten([3]) == Some(1) && Cost(Increasing, [3], 3) == 0
  {
    var pos: seq<nat> := [3];
    assert pos[..0] == [];
    assert MaxOf(pos) == Some(3);
    assert Cost(Constant, pos, 0) == 3 && Cost(Constant, pos, 1) == 2 && Cost(Constant, pos, 2) == 1;
    assert Cost(Increasing, pos, 0) == 12 && Cost(Increasing, pos, 1) == 6 && Cost(Increasing, pos, 2) == 2;
  }

  /** Beyond the largest position, moving the target further out never
      makes it cheaper. */
  lemma {:induction false} CostGrows(rate: Rate, pos: seq<nat>, i: nat)
    requires forall k :: 0 <= k < |pos| ==> pos[k] <= i
    ensures Cost(rate, pos, i) <= Cost(rate, pos, i + 1)
  {
    if |pos| > 0 {
      var p := pos[|pos| - 1];
      CostGrows(rate, pos[..|pos| - 1], i);
      StepCostGrows(rate, Dist(i, p));
      assert Dist(i + 1, p) == Dist(i, p) + 1;
    }
  }

  lemma StepCostGrows(rate: Rate, n: nat)
    ensures StepCost(rate, n) <= StepCost(rate, n + 1)
  {
    if rate == Increasing {
      MulMonotone(n, n + 1, n + 2);
      MulMonotone(n + 2, n, n + 1);
    }
  }

  lemma {:induction false} CostBeyond(rate: Rate, pos: seq<nat>, m: nat, i: nat)
    requires forall k :: 0 <= k < |pos| ==> pos[k] <= m
    requires m <= i
    ensures Cost(rate, pos, m) <= Cost(rate, pos, i)
    decreases i - m
  {
    if m < i {
      CostGrows(rate, pos, m);
      CostBeyond(rate, pos, m + 1, i);
    }
  }

  /** The cheapest target over 0 ..= max is the cheapest over all
      positions. */
  lemma Cheapest(rate: Rate, pos: seq<nat>, m: nat, i: nat)
    requires forall k :: 0 <= k < |pos| ==> pos[k] <= m
    ensures MinCost(rate, pos, m + 1) <= Cost(rate, pos, i)
  {
    if i > m {
      CostBeyond(rate, pos, m, i);
    }
  }

  /** `part_one` with the range closed to take in the largest position:
      the fuel to the cheapest target, over every target. */
  function PartOne(pos: seq<nat>): (r: Option<nat>)
    ensures r.None? <==> |pos| == 0
    ensures r.Some? ==> exists i :: 0 <= i && r.value == Cost(Constant, pos, i)
    ensures r.Some? ==> forall i: nat :: r.value <= Cost(Constant, pos, i)
  {
    match MaxOf(pos)
    case None => None
    case Some(m) =>
      var r := MinCost(Constant, pos, m + 1);
      assert forall i: nat :: r <= Cost(Constant, pos, i) by {
        forall i: nat
          ensures r <= Cost(Constant, pos, i)
        {
          Cheapest(Constant, pos, m, i);
        }
      }
      Some(r)
  }

  /** The fuel of n steps in part two: 1 + 2 + ... + n. */
  function Triangle(n: nat): nat
  {
    if n == 0 then 0 else Triangle(n - 1) + n
  }

  lemma {:induction false} TriangleTwice(n: nat)
    ensures n * (n + 1) == 2 * Triangle(n)
  {
    if n > 0 {
      TriangleTwice(n - 1);
    }
  }

  /** The fuel all crabs spend to reach target i in part two. */
  function TriangleCost(pos: seq<nat>, i: nat): nat
  {
    if |pos| == 0 then 0
    else TriangleCost(pos[..|pos| - 1], i) + Triangle(Dist(i, pos[|pos| - 1]))
  }

  /** Summing n * (n + 1) and halving at the end loses nothing: every
      term is even. */
  lemma {:induction false} CostTwice(pos: seq<nat>, i: nat)
    ensures Cost(Increasing, pos, i) == 2 * TriangleCost(pos, i)
  {
    if |pos| > 0 {
      CostTwice(pos[..|pos| - 1], i);
      TriangleTwice(Dist(i, pos[|pos| - 1]));
    }
  }

  /** `part_two` with the range closed: the triangular fuel to the
      cheapest target, over every target. */
  function PartTwo(pos: seq<nat>): (r: Option<nat>)
    ensures r.None? <==> |pos| == 0
    ensures r.Some? ==> exists i :: 0 <= i && r.value == TriangleCost(pos, i)
    ensures r.Some? ==> forall i: nat :: r.value <= TriangleCost(pos, i)
  {
    match MaxOf(pos)
    case None => None
    case Some(m) =>
      var c := MinCost(Increasing, pos, m + 1);
      var best :| 0 <= best < m + 1 && c == Cost(Increasing, pos, best);
      CostTwice(pos, best);
      assert c / 2 == TriangleCost(pos, best);
      assert forall i: nat :: c / 2 <= TriangleCost(pos, i) by {
        forall i: nat
          ensures c / 2 <= TriangleCost(pos, i)
        {
          Cheapest(Increasing, pos, m, i);
          CostTwice(pos, i);
        }
      }
      Some(c / 2)
  }
}
