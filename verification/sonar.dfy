/** Day 1: sonar depth readings.  Part one counts the readings larger
    than the one before; part two does the same over the sums of three
    consecutive readings. */
module Sonar {
  import opened Common

  /** The reading after position i is larger than the one at i. */
  predicate Rise(v: seq<int>, i: nat)
  {
    i + 1 < |v| && v[i + 1] > v[i]
  }

  /** The positions i where the next reading is larger. */
  ghost function RiseSet(v: seq<int>): set<nat>
  {
    set i: nat | i < |v| && Rise(v, i)
  }

  /** The reading three after position i is larger than the one at i. */
  predicate Gain(v: seq<int>, i: nat)
  {
    i + 3 < |v| && v[i + 3] > v[i]
  }

  ghost function GainSet(v: seq<int>): set<nat>
  {
    set i: nat | i < |v| && Gain(v, i)
  }

  /** How many readings are larger than the one before, counted from the
      front. */
  function Rises(v: seq<int>): (n: nat)
    ensures |v| > 0 ==> n <= |v| - 1
  {
    if |v| <= 1 then 0
    else Rises(v[..|v| - 1]) + (if v[|v| - 1] > v[|v| - 2] then 1 else 0)
  }

  /** The count is the number of positions where the next reading is
      larger. */
  lemma {:induction false} RisesCount(v: seq<int>)
    ensures Rises(v) == |RiseSet(v)|
  {
    if |v| <= 1 {
      assert RiseSet(v) == {};
    } else {
      var front := v[..|v| - 1];
      RisesCount(front);
      var k: nat := |v| - 2;
      assert forall i: nat :: Rise(v, i) <==> Rise(front, i) || (i == k && v[k + 1] > v[k]);
      if v[k + 1] > v[k] {
        assert k !in RiseSet(front);
        assert RiseSet(v) == RiseSet(front) + {k};
      } else {
        assert RiseSet(v) == RiseSet(front);
      }
    }
  }

  /** The loop in `main`: takes the first reading as the current one and
      counts every later reading above the current one; with no reading
      the first `unwrap` panics (None). */
  method CountRises(values: seq<int>) returns (r: Option<nat>)
    ensures r.None? <==> |values| == 0
    ensures r.Some? ==> r.value == |RiseSet(values)| && r.value <= |values| - 1
  {
    if |values| == 0 {
      return None;
    }
    var sum := 0;
    var current := values[0];
    var k := 1;
    while k < |values|
      invariant 1 <= k <= |values|
      invariant current == values[k - 1]
      invariant sum == Rises(values[..k])
    {
      assert values[..k + 1][..k] == values[..k];
      var num := values[k];
      if num > current {
        sum := sum + 1;
      }
      current := num;
      k := k + 1;
    }
    assert values[..k] == values;
    RisesCount(values);
    r := Some(sum);
  }

  /** The sums of each three consecutive readings, from the zip of
      `values[..len - 2]`, `values[1..len - 1]` and `values[2..]`. */
  function Windows(v: seq<int>): (w: seq<int>)
    requires |v| >= 2
    ensures |w| == |v| - 2
    ensures forall i :: 0 <= i < |w| ==> w[i] == v[i] + v[i + 1] + v[i + 2]
  {
    seq(|v| - 2, i requires 0 <= i < |v| - 2 => v[i] + v[i + 1] + v[i + 2])
  }

  /** Neighbouring windows share two readings, so a window is larger than
      the one before exactly when the reading it gains is larger than the
      one it drops. */
  lemma WindowRises(v: seq<int>)
    requires |v| >= 3
    ensures RiseSet(Windows(v)) == GainSet(v)
  {
  }

  /** The second loop in `main`: counts the windows larger than the one
      before.  Fewer than two readings make `len - 2` underflow and
      exactly two leave no window for the first `unwrap`; both panic
      (None). */
  method CountWindowRises(values: seq<int>) returns (r: Option<nat>)
    ensures r.None? <==> |values| < 3
    ensures r.Some? ==> r.value == |GainSet(values)|
    ensures r.Some? ==> r.value <= |values| - 3
  {
    if |values| < 3 {
      return None;
    }
    var w := Windows(values);
    r := CountRises(w);
    WindowRises(values);
  }

  /** The example readings: 7 rises, and 5 rises among the windows. */
  lemma Example()
    ensures |RiseSet([199, 200, 208, 210, 200, 207, 240, 269, 260, 263])| == 7
    ensures |GainSet([199, 200, 208, 210, 200, 207, 240, 269, 260, 263])| == 5
  {
    var v := [199, 200, 208, 210, 200, 207, 240, 269, 260, 263];
    assert RiseSet(v) == {0, 1, 2, 4, 5, 6, 8};
    assert GainSet(v) == {0, 3, 4, 5, 6};
  }
}
