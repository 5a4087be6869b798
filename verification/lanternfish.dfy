/** Day 6: a school of lanternfish, each with a timer.  Every day each
    timer above 0 counts down; a fish at 0 resets to 6 and spawns a new
    fish with timer 8, appended after the existing ones. */
module Lanternfish {
  import opened Common

  /** A timer one day later. */
  function Age(t: nat): nat
  {
    if t > 0 then t - 1 else 6
  }

  /** Every fish's timer one day later, in place. */
  function Aged(fish: seq<nat>): (r: seq<nat>)
    ensures |r| == |fish| && forall i :: 0 <= i < |fish| ==> r[i] == Age(fish[i])
  {
    seq(|fish|, i requires 0 <= i < |fish| => Age(fish[i]))
  }

  /** k newborn fish. */
  function Newborn(k: nat): (r: seq<nat>)
    ensures |r| == k && forall i :: 0 <= i < k ==> r[i] == 8
  {
    seq(k, _ => 8)
  }

  /** One day: the aged timers, then one 8 per fish that was at 0. */
  function Step(fish: seq<nat>): seq<nat>
  {
    Aged(fish) + Newborn(Occurrences<nat>(fish, 0))
  }

  /** `step_loop`: counts the timers at 0 while updating every timer in
      place, then appends that many 8s. */
  method StepLoop(fish: seq<nat>) returns (r: seq<nat>)
    ensures |r| == |fish| + Occurrences<nat>(fish, 0)
    ensures forall i :: 0 <= i < |fish| ==> r[i] == (if fish[i] > 0 then fish[i] - 1 else 6)
    ensures forall i :: |fish| <= i < |r| ==> r[i] == 8
    ensures r == Step(fish)
  {
    r := fish;
    var toAdd := 0;
    var i := 0;
    while i < |r|
      invariant i <= |r| == |fish|
      invariant forall j :: 0 <= j < i ==> r[j] == Age(fish[j])
      invariant forall j :: i <= j < |r| ==> r[j] == fish[j]
      invariant toAdd == Occurrences<nat>(fish[..i], 0)
    {
      assert fish[..i + 1][..i] == fish[..i];
      if r[i] > 0 {
        r := r[i := r[i] - 1];
      } else {
        r := r[i := 6];
        toAdd := toAdd + 1;
      }
      i := i + 1;
    }
    assert fish[..i] == fish;
    assert r == Aged(fish);
    var k := 0;
    while k < toAdd
      invariant k <= toAdd
      invariant r == Aged(fish) + Newborn(k)
    {
      r := r + [8];
      k := k + 1;
    }
  }

  /** `n_step`: n days. */
  function Days(fish: seq<nat>, n: nat): seq<nat>
  {
    if n == 0 then fish else Step(Days(fish, n - 1))
  }

  /** `n_step`: runs `step_loop` n times. */
  method NStep(fish: seq<nat>, n: nat) returns (r: seq<nat>)
    ensures r == Days(fish, n)
  {
    r := fish;
    var k := 0;
    while k < n
      invariant k <= n && r == Days(fish, k)
    {
      r := StepLoop(r);
      k := k + 1;
    }
  }

  /** Every timer is within 0..8. */
  predicate InRange(fish: seq<nat>)
  {
    forall i :: 0 <= i < |fish| ==> fish[i] <= 8
  }

  /** A day keeps every timer within 0..8. */
  lemma StepInRange(fish: seq<nat>)
    requires InRange(fish)
    ensures InRange(Step(fish))
  {
    var r := Step(fish);
    forall i | 0 <= i < |r|
      ensures r[i] <= 8
    {
      if i < |fish| {
        assert r[i] == Age(fish[i]);
      } else {
        assert r[i] == Newborn(Occurrences<nat>(fish, 0))[i - |fish|];
      }
    }
  }

  lemma {:induction false} DaysInRange(fish: seq<nat>, n: nat)
    requires InRange(fish)
    ensures InRange(Days(fish, n))
  {
    if n > 0 {
      DaysInRange(fish, n - 1);
      StepInRange(Days(fish, n - 1));
    }
  }

  /** How many fish have timer t one day later: those at t + 1, plus for
      6 those at 0, plus for 8 the newborns of those at 0. */
  lemma StepTally(fish: seq<nat>, t: nat)
    ensures Occurrences<nat>(Step(fish), t) ==
      Occurrences<nat>(fish, t + 1) + (if t == 6 || t == 8 then Occurrences<nat>(fish, 0) else 0)
  {
    OccurrencesAppend(Aged(fish), Newborn(Occurrences<nat>(fish, 0)), t);
    AgedTally(fish, t);
    NewbornTally(Occurrences<nat>(fish, 0), t);
  }

  lemma {:induction false} AgedTally(fish: seq<nat>, t: nat)
    ensures Occurrences<nat>(Aged(fish), t) == Occurrences<nat>(fish, t + 1) + (if t == 6 then Occurrences<nat>(fish, 0) else 0)
  {
    if |fish| > 0 {
      var n := |fish| - 1;
      assert Aged(fish)[..n] == Aged(fish[..n]);
      AgedTally(fish[..n], t);
    }
  }

  lemma {:induction false} NewbornTally(k: nat, t: nat)
    ensures Occurrences<nat>(Newborn(k), t) == if t == 8 then k else 0
  {
    if k > 0 {
      assert Newborn(k)[..k - 1] == Newborn(k - 1);
      NewbornTally(k - 1, t);
    }
  }

  /** The number of fish at each timer 0..8. */
  function Histogram(fish: seq<nat>): (h: seq<nat>)
    ensures |h| == 9 && forall t: nat :: t < 9 ==> h[t] == Occurrences<nat>(fish, t)
  {
    var n := (t: nat) => Occurrences<nat>(fish, t);
    [n(0), n(1), n(2), n(3), n(4), n(5), n(6), n(7), n(8)]
  }

  /** One day on the histogram: every count moves one timer down, the
      fish at 0 join those at 6 and as many newborns start at 8. */
  function Rotate(h: seq<nat>): (r: seq<nat>)
    requires |h| == 9
    ensures |r| == 9
  {
    [h[1], h[2], h[3], h[4], h[5], h[6], h[7] + h[0], h[8], h[0]]
  }

  /** On timers within 0..8 a day is a rotation of the histogram. */
  lemma StepHistogram(fish: seq<nat>)
    requires InRange(fish)
    ensures Histogram(Step(fish)) == Rotate(Histogram(fish))
  {
    assert 9 !in fish;
    OccurrencesZero(fish, 9);
    var h := Histogram(fish);
    var g := Histogram(Step(fish));
    forall t | 0 <= t < 9
      ensures g[t] == Rotate(h)[t]
    {
      StepTally(fish, t);
      assert g[t] == Occurrences<nat>(fish, t + 1) + (if t == 6 || t == 8 then h[0] else 0);
      if t < 8 {
        assert Occurrences<nat>(fish, t + 1) == h[t + 1];
      }
    }
  }

  /** n days on the histogram. */
  function Rotations(h: seq<nat>, n: nat): (r: seq<nat>)
    requires |h| == 9
    ensures |r| == 9
  {
    if n == 0 then h else Rotate(Rotations(h, n - 1))
  }

  /** On timers within 0..8, n days are n rotations of the histogram. */
  lemma {:induction false} DaysHistogram(fish: seq<nat>, n: nat)
    requires InRange(fish)
    ensures Histogram(Days(fish, n)) == Rotations(Histogram(fish), n)
  {
    if n > 0 {
      DaysHistogram(fish, n - 1);
      DaysInRange(fish, n - 1);
      StepHistogram(Days(fish, n - 1));
    }
  }

  /** The number of fish a histogram counts. */
  function Total(h: seq<nat>): nat
    requires |h| == 9
  {
    h[0] + h[1] + h[2] + h[3] + h[4] + h[5] + h[6] + h[7] + h[8]
  }

  /** The school's size is the histogram's total when timers are within
      0..8. */
  lemma {:induction false} SizeIsTotal(fish: seq<nat>)
    requires InRange(fish)
    ensures |fish| == Total(Histogram(fish))
  {
    if |fish| > 0 {
      var n := |fish| - 1;
      var front := fish[..n];
      assert fish == front + [fish[n]];
      SizeIsTotal(front);
      forall t: nat | t < 9
        ensures Histogram(fish)[t] == Histogram(front)[t] + (if t == fish[n] then 1 else 0)
      {
        OccurrencesAppend(front, [fish[n]], t);
      }
    }
  }

  /** The example school 3,4,3,1,2 is 2,3,2,0,1 after one day. */
  lemma ExampleDay()
    ensures Step([3, 4, 3, 1, 2]) == [2, 3, 2, 0, 1]
  {
    var f := [3, 4, 3, 1, 2];
    OccurrencesZero(f, 0);
    assert Newborn(0) == [];
    assert Aged(f) == [2, 3, 2, 0, 1];
  }
}
