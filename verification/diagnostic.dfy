/** Day 3: the submarine's diagnostic report.  Each report line is a binary
    number of `size` bits.  Part one builds gamma from the majority bit of
    every position and epsilon from its complement; part two narrows the
    list bit by bit, from the most significant, to the oxygen and carbon
    ratings. */
module Diagnostic {
  import opened Common

  /** b shifted right by k places (`b >> k`). */
  function Shift(b: nat, k: nat): nat
  {
    if k == 0 then b else Shift(b / 2, k - 1)
  }

  /** Bit i of b is set: `b & 2^i > 0`. */
  predicate Bit(b: nat, i: nat)
  {
    Shift(b, i) % 2 == 1
  }

  /** Shifting by k is dividing by 2^k, so Bit is the source's mask test. */
  lemma {:induction false} ShiftIsDiv(b: nat, k: nat)
    ensures Pow(2, k) > 0 && Shift(b, k) == b / Pow(2, k)
  {
    PowPositive(2, k);
    if k > 0 {
      ShiftIsDiv(b / 2, k - 1);
      HalveThenDivide(b, Pow(2, k - 1));
    }
  }

  /** Halving, then dividing by m, is dividing by 2m. */
  lemma HalveThenDivide(b: nat, m: nat)
    requires m > 0
    ensures (b / 2) / m == b / (2 * m)
  {
    var q := b / 2;
    var r := b % 2;
    var q2 := q / m;
    var r2 := q % m;
    assert b == (2 * m) * q2 + (2 * r2 + r);
    DivModUnique(b, 2 * m, q2, 2 * r2 + r);
  }

  /** One more place of shift halves the shifted value. */
  lemma {:induction false} ShiftStep(b: nat, k: nat)
    requires k > 0
    ensures Shift(b, k) == Shift(b, k - 1) / 2
  {
    if k > 1 {
      ShiftStep(b / 2, k - 1);
    }
  }

  /** The number of report lines with bit i set. */
  function Count(bs: seq<nat>, i: nat): (n: nat)
    ensures n <= |bs|
  {
    if |bs| == 0 then 0
    else Count(bs[..|bs| - 1], i) + (if Bit(bs[|bs| - 1], i) then 1 else 0)
  }

  /** Bit i is set in more than half of the lines (half rounded down). */
  predicate Majority(bs: seq<nat>, i: nat)
  {
    Count(bs, i) > |bs| / 2
  }

  /** gamma over the low k positions: 2^i for every majority position i. */
  function Gamma(bs: seq<nat>, k: nat): (g: nat)
    ensures g < Pow(2, k)
  {
    if k == 0 then 0
    else Gamma(bs, k - 1) + (if Majority(bs, k - 1) then Pow(2, k - 1) else 0)
  }

  /** `part_one`: gamma, and epsilon as `2^size - 1 - gamma`. */
  function PartOne(size: nat, bs: seq<nat>): (r: (nat, nat))
    ensures r.0 < Pow(2, size) && r.0 + r.1 == Pow(2, size) - 1
  {
    var gamma := Gamma(bs, size);
    (gamma, Pow(2, size) - 1 - gamma)
  }

  /** A number below 2^k has no bit at k or above. */
  lemma {:induction false} BitAbove(x: nat, k: nat, i: nat)
    requires x < Pow(2, k) && i >= k
    ensures !Bit(x, i)
  {
    if k == 0 {
      ShiftZero(i);
    } else {
      BitAbove(x / 2, k - 1, i - 1);
    }
  }

  lemma {:induction false} ShiftZero(i: nat)
    ensures Shift(0, i) == 0
  {
    if i > 0 {
      ShiftZero(i - 1);
    }
  }

  /** Adding 2^k to a number below 2^k sets bit k and leaves the lower bits
      alone. */
  lemma {:induction false} BitOfSum(x: nat, k: nat, c: bool, i: nat)
    requires x < Pow(2, k) && i <= k
    ensures Bit(x + (if c then Pow(2, k) else 0), i) == (if i == k then c else Bit(x, i))
  {
    var y := x + (if c then Pow(2, k) else 0);
    if k == 0 {
      assert x == 0;
    } else if i == 0 {
      assert Pow(2, k) == 2 * Pow(2, k - 1);
      assert y % 2 == x % 2;
    } else {
      assert Pow(2, k) == 2 * Pow(2, k - 1);
      assert y / 2 == x / 2 + (if c then Pow(2, k - 1) else 0);
      BitOfSum(x / 2, k - 1, c, i - 1);
    }
  }

  /** Bit i of gamma is set exactly when bit i is the majority bit. */
  lemma {:induction false} GammaBit(bs: seq<nat>, size: nat, i: nat)
    ensures Bit(Gamma(bs, size), i) <==> i < size && Majority(bs, i)
  {
    if size == 0 {
      ShiftZero(i);
    } else {
      var k := size - 1;
      if i <= k {
        BitOfSum(Gamma(bs, k), k, Majority(bs, k), i);
        if i < k {
          GammaBit(bs, k, i);
        }
      } else {
        BitAbove(Gamma(bs, size), size, i);
      }
    }
  }

  /** Subtracting from 2^k - 1 flips each of the low k bits. */
  lemma {:induction false} BitOfComplement(g: nat, k: nat, i: nat)
    requires g < Pow(2, k) && i < k
    ensures Bit(Pow(2, k) - 1 - g, i) <==> !Bit(g, i)
  {
    var m := Pow(2, k - 1);
    assert Pow(2, k) == 2 * m;
    HalveComplement(m, g);
    if i > 0 {
      BitOfComplement(g / 2, k - 1, i - 1);
    }
  }

  /** Halving 2m - 1 - g, for g below 2m. */
  lemma HalveComplement(m: nat, g: nat)
    requires g < 2 * m
    ensures (2 * m - 1 - g) % 2 == 1 - g % 2
    ensures (2 * m - 1 - g) / 2 == m - 1 - g / 2 && g / 2 < m
  {
    var q := g / 2;
    var r := g % 2;
    assert g == 2 * q + r;
    DivModUnique(2 * m - 1 - g, 2, m - 1 - q, 1 - r);
  }

  /** Bit i of epsilon is set exactly when bit i is not the majority bit. */
  lemma EpsilonBit(bs: seq<nat>, size: nat, i: nat)
    requires i < size
    ensures Bit(PartOne(size, bs).1, i) <==> !Majority(bs, i)
  {
    BitOfComplement(Gamma(bs, size), size, i);
    GammaBit(bs, size, i);
  }

  /** The lines whose bit i equals bit, in their order. */
  function Keep(bs: seq<nat>, i: nat, bit: bool): (r: seq<nat>)
    ensures multiset(r) <= multiset(bs)
    ensures forall b :: b in r <==> b in bs && Bit(b, i) == bit
    ensures |r| == if bit then Count(bs, i) else |bs| - Count(bs, i)
  {
    if |bs| == 0 then []
    else
      var front := Keep(bs[..|bs| - 1], i, bit);
      var b := bs[|bs| - 1];
      assert bs == bs[..|bs| - 1] + [b];
      if Bit(b, i) == bit then front + [b] else front
  }

  /** The bit value a rating keeps at position i: the oxygen rating keeps
      1 when at least half the candidates have it, the carbon rating keeps 1
      only when fewer than half have it. */
  predicate Criterion(oxygen: bool, bs: seq<nat>, i: nat)
  {
    if oxygen then Count(bs, i) * 2 >= |bs| else Count(bs, i) * 2 < |bs|
  }

  /** One round of either filter. */
  function Round(oxygen: bool, bs: seq<nat>, i: nat): seq<nat>
  {
    Keep(bs, i, Criterion(oxygen, bs, i))
  }

  /** The rating search over positions k-1 down to 0: stop at the first
      round that leaves a single candidate; 0 if none does. */
  function Rating(oxygen: bool, bs: seq<nat>, k: nat): (r: nat)
    ensures r == 0 || r in bs
    decreases k
  {
    if k == 0 then 0
    else
      var next := Round(oxygen, bs, k - 1);
      if |next| == 1 then
        assert next[0] in next;
        next[0]
      else
        var r := Rating(oxygen, next, k - 1);
        assert r != 0 ==> r in multiset(next);
        r
  }

  /** The candidates left after j rounds of the filter at positions k-1,
      k-2, ..., k-j, had the loop not stopped early. */
  function After(oxygen: bool, bs: seq<nat>, k: nat, j: nat): seq<nat>
    requires j <= k
    decreases j
  {
    if j == 0 then bs else After(oxygen, Round(oxygen, bs, k - 1), k - 1, j - 1)
  }

  /** Round j is the first of the k rounds to leave exactly one candidate. */
  ghost predicate FirstSingle(oxygen: bool, bs: seq<nat>, k: nat, j: nat)
  {
    1 <= j <= k && |After(oxygen, bs, k, j)| == 1
    && forall i: nat :: 1 <= i < j ==> |After(oxygen, bs, k, i)| != 1
  }

  /** No round of the k leaves exactly one candidate. */
  ghost predicate NoSingle(oxygen: bool, bs: seq<nat>, k: nat)
  {
    forall j: nat :: 1 <= j <= k ==> |After(oxygen, bs, k, j)| != 1
  }

  /** The rating is the candidate left by the first round that leaves
      exactly one, and the initial 0 when no round of the k does. */
  lemma RatingFirstSingle(oxygen: bool, bs: seq<nat>, k: nat)
    ensures forall j: nat :: FirstSingle(oxygen, bs, k, j) ==> Rating(oxygen, bs, k) == After(oxygen, bs, k, j)[0]
    ensures NoSingle(oxygen, bs, k) ==> Rating(oxygen, bs, k) == 0
  {
    forall j: nat | FirstSingle(oxygen, bs, k, j)
      ensures Rating(oxygen, bs, k) == After(oxygen, bs, k, j)[0]
    {
      RatingFirst(oxygen, bs, k, j);
    }
    if NoSingle(oxygen, bs, k) {
      RatingNone(oxygen, bs, k);
    }
  }

  lemma {:induction false} RatingFirst(oxygen: bool, bs: seq<nat>, k: nat, j: nat)
    requires FirstSingle(oxygen, bs, k, j)
    ensures Rating(oxygen, bs, k) == After(oxygen, bs, k, j)[0]
    decreases k
  {
    var m: nat := k - 1;
    var next := Round(oxygen, bs, m);
    assert After(oxygen, bs, k, 1) == After(oxygen, next, m, 0) == next;
    assert After(oxygen, bs, k, j) == After(oxygen, next, m, j - 1);
    if |next| == 1 {
      assert j == 1;
    } else {
      assert j > 1;
      forall i: nat | 1 <= i < j - 1
        ensures |After(oxygen, next, m, i)| != 1
      {
        assert |After(oxygen, bs, k, i + 1)| != 1;
      }
      RatingFirst(oxygen, next, m, j - 1);
      RatingStep(oxygen, bs, k);
    }
  }

  lemma {:induction false} RatingNone(oxygen: bool, bs: seq<nat>, k: nat)
    requires NoSingle(oxygen, bs, k)
    ensures Rating(oxygen, bs, k) == 0
    decreases k
  {
    if k > 0 {
      var m: nat := k - 1;
      var next := Round(oxygen, bs, m);
      assert |After(oxygen, bs, k, 1)| != 1;
      assert After(oxygen, bs, k, 1) == next;
      forall j: nat | 1 <= j <= m
        ensures |After(oxygen, next, m, j)| != 1
      {
        assert |After(oxygen, bs, k, j + 1)| != 1;
      }
      RatingNone(oxygen, next, m);
    }
  }

  /** One round of the rating search. */
  lemma RatingStep(oxygen: bool, bs: seq<nat>, k: nat)
    requires k > 0
    ensures var next := Round(oxygen, bs, k - 1);
      Rating(oxygen, bs, k) == if |next| == 1 then next[0] else Rating(oxygen, next, k - 1)
  {
  }

  /** `part_two`: the oxygen and carbon ratings. */
  function PartTwo(size: nat, bs: seq<nat>): (nat, nat)
  {
    (Rating(true, bs, size), Rating(false, bs, size))
  }

  /** The oxygen round keeps at least half of a non-empty candidate list,
      so it never empties it. */
  lemma OxygenKeepsHalf(bs: seq<nat>, i: nat)
    ensures 2 * |Round(true, bs, i)| >= |bs|
    ensures |bs| > 0 ==> |Round(true, bs, i)| > 0
  {
  }

  /** The lines all agree on the positions from k up. */
  ghost predicate Agree(bs: seq<nat>, k: nat)
  {
    forall a, b :: a in bs && b in bs ==> Shift(a, k) == Shift(b, k)
  }

  /** Agreeing from k up and on bit k-1 is agreeing from k-1 up. */
  lemma AgreeStep(a: nat, b: nat, k: nat)
    requires k > 0 && Shift(a, k) == Shift(b, k) && Bit(a, k - 1) == Bit(b, k - 1)
    ensures Shift(a, k - 1) == Shift(b, k - 1)
  {
    ShiftStep(a, k);
    ShiftStep(b, k);
  }

  /** A number below 2^k shifts by k to 0. */
  lemma {:induction false} ShiftSmall(x: nat, k: nat)
    requires x < Pow(2, k)
    ensures Shift(x, k) == 0
  {
    if k > 0 {
      ShiftSmall(x / 2, k - 1);
    }
  }

  /** On distinct report lines of `size` bits, the oxygen rating is always
      found: it is one of the lines. */
  lemma OxygenFound(bs: seq<nat>, size: nat)
    requires |bs| > 0 && NoDup(bs)
    requires forall b :: b in bs ==> b < Pow(2, size)
    ensures Rating(true, bs, size) in bs
  {
    if size == 0 {
      assert bs[0] in bs;
    } else {
      forall a, b | a in bs && b in bs
        ensures Shift(a, size) == Shift(b, size)
      {
        ShiftSmall(a, size);
        ShiftSmall(b, size);
      }
      OxygenNarrows(bs, size);
    }
  }

  /** Candidates that agree from position k up narrow, round by round, to
      a single one. */
  lemma {:induction false} OxygenNarrows(bs: seq<nat>, k: nat)
    requires k > 0 && |bs| > 0 && NoDup(bs) && Agree(bs, k)
    ensures Found(bs, k)
    decreases k
  {
    var next := NextRound(bs, k);
    if |next| != 1 && k > 1 {
      OxygenNarrows(next, k - 1);
    }
  }

  /** The oxygen search over k positions finds one of the candidates. */
  ghost predicate Found(bs: seq<nat>, k: nat)
  {
    Rating(true, bs, k) in bs
  }

  /** What the next oxygen round leaves is a non-empty list of distinct
      candidates that agree one position further down; the search finds a
      candidate when that list is a single one, or when the search over
      it finds one. */
  lemma NextRound(bs: seq<nat>, k: nat) returns (next: seq<nat>)
    requires k > 0 && |bs| > 0 && NoDup(bs) && Agree(bs, k)
    ensures |next| > 0 && NoDup(next) && Agree(next, k - 1) && (k == 1 ==> |next| <= 1)
    ensures (|next| == 1 || Found(next, k - 1)) ==> Found(bs, k)
  {
    next := Round(true, bs, k - 1);
    OxygenKeepsHalf(bs, k - 1);
    RoundAgrees(bs, k);
    SubNoDup(next, bs);
    if k == 1 {
      AgreeSame(next);
    }
    if |next| == 1 {
      assert next[0] in next;
    }
  }

  /** A round keeps only candidates that also agree on the bit it looks
      at. */
  lemma RoundAgrees(bs: seq<nat>, k: nat)
    requires k > 0 && Agree(bs, k)
    ensures Agree(Round(true, bs, k - 1), k - 1)
  {
    var next := Round(true, bs, k - 1);
    forall a, b | a in next && b in next
      ensures Shift(a, k - 1) == Shift(b, k - 1)
    {
      AgreeStep(a, b, k);
    }
  }

  /** Distinct candidates that agree on every position number at most one. */
  lemma AgreeSame(bs: seq<nat>)
    requires NoDup(bs) && Agree(bs, 0)
    ensures |bs| <= 1
  {
    if |bs| > 1 {
      FirstTwoIn(bs);
    }
  }

  lemma FirstTwoIn(bs: seq<nat>)
    requires |bs| > 1
    ensures bs[0] in bs && bs[1] in bs
  {
  }

  /** A sub-multiset of a list without repetitions has none either. */
  lemma SubNoDup(s: seq<nat>, t: seq<nat>)
    requires multiset(s) <= multiset(t) && NoDup(t)
    ensures NoDup(s)
  {
    forall i, j | 0 <= i < |s| && 0 <= j < |s| && i != j
      ensures s[i] != s[j]
    {
      if s[i] == s[j] {
        MultiplicityTwo(s, i, j);
        MultiplicityOne(t, s[i]);
        assert false;
      }
    }
  }

  lemma MultiplicityTwo(s: seq<nat>, i: nat, j: nat)
    requires i < |s| && j < |s| && i != j && s[i] == s[j]
    ensures multiset(s)[s[i]] >= 2
  {
    var lo := if i < j then i else j;
    var hi := if i < j then j else i;
    assert s == s[..lo] + [s[lo]] + s[lo + 1..hi] + [s[hi]] + s[hi + 1..];
  }

  lemma MultiplicityOne(t: seq<nat>, x: nat)
    requires NoDup(t)
    ensures multiset(t)[x] <= 1
  {
    if |t| > 0 {
      var n := |t| - 1;
      assert t == t[..n] + [t[n]];
      assert NoDup(t[..n]) by {
        forall i, j | 0 <= i < n && 0 <= j < n && i != j
          ensures t[..n][i] != t[..n][j]
        {
          assert t[i] != t[j];
        }
      }
      MultiplicityOne(t[..n], x);
    }
  }

  /** The carbon filter can empty the list: when every candidate has the
      same bit, it keeps the bit none of them has, and the rating falls back
      to 0 although both lines are non-zero. */
  lemma CarbonEmpties()
    ensures Round(false, [2, 3], 1) == []
    ensures Rating(false, [2, 3], 2) == 0
  {
    assert Bit(2, 1) && Bit(3, 1);
    assert Count([2, 3], 1) == 2;
    assert Round(false, [2, 3], 1) == [];
    assert Round(false, [], 0) == [];
  }
}
