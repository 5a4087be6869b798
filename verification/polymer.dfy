/** Day 14: polymer growth. In every round each adjacent pair of the
    polymer that has a rule gets the rule's character inserted between its
    two characters, all pairs at once. The answer after n rounds is the
    count of the most common character minus that of the least common one.
    part never builds the polymer: it keeps the number of each adjacent pair
    and of each character, and expands a snapshot of the pair counts once
    per round. */
module Polymer {
  import opened Common

  type Pair = (char, char)

  /** The insertion rules: the pair (a, b) gets the character c inserted. */
  type Rules = map<Pair, char>

  /** A count in one of part's maps; a missing entry counts 0. */
  function Get<K(!new)>(m: map<K, nat>, k: K): nat
  {
    if k in m then m[k] else 0
  }

  /** `*m.entry(k).or_insert(0) += d`. */
  function Bump<K(!new)>(m: map<K, nat>, k: K, d: nat): (r: map<K, nat>)
    ensures r.Keys == m.Keys + {k}
    ensures Get(r, k) == Get(m, k) + d
    ensures forall j :: j != k ==> Get(r, j) == Get(m, j)
  {
    m[k := Get(m, k) + d]
  }

  /** `*m.entry(k).or_insert(0) -= d` on a usize, which must not go below
      zero. */
  function Drop<K(!new)>(m: map<K, nat>, k: K, d: nat): (r: map<K, nat>)
    requires Get(m, k) >= d
    ensures r.Keys == m.Keys + {k}
    ensures Get(r, k) == Get(m, k) - d
    ensures forall j :: j != k ==> Get(r, j) == Get(m, j)
  {
    m[k := Get(m, k) - d]
  }

  /** The two counting loops at the start of part: one `+= 1` per element.
      The result counts every element, and only elements that occur get an
      entry. */
  function Tally<K(!new)>(xs: seq<K>): (r: map<K, nat>)
    ensures forall k :: Get(r, k) == Occurrences(xs, k)
    ensures forall k :: k in r <==> k in xs
    ensures forall k :: k in r ==> r[k] > 0
  {
    if |xs| == 0 then map[]
    else
      SplitLast(xs);
      Bump(Tally(xs[..|xs| - 1]), xs[|xs| - 1], 1)
  }

  /** chars.windows(2): the adjacent pairs of s, left to right. */
  function Pairs(s: seq<char>): (r: seq<Pair>)
    ensures |r| == if |s| == 0 then 0 else |s| - 1
    ensures forall i :: 0 <= i < |r| ==> r[i] == (s[i], s[i + 1])
  {
    if |s| == 0 then [] else seq(|s| - 1, i requires 0 <= i < |s| - 1 => (s[i], s[i + 1]))
  }

  lemma PairsSnoc(s: seq<char>, y: char)
    requires |s| > 0
    ensures Pairs(s + [y]) == Pairs(s) + [(s[|s| - 1], y)]
  {
    var t := s + [y];
    assert forall i :: 0 <= i < |s| ==> Pairs(t)[i] == (Pairs(s) + [(s[|s| - 1], y)])[i];
  }

  /** What the rule for p puts between its two characters: one character,
      or nothing when p has no rule. */
  function Inserted(rules: Rules, p: Pair): seq<char>
  {
    if p in rules then [rules[p]] else []
  }

  /** One round of insertion on the polymer itself, as the puzzle describes
      it: between the two characters of every adjacent pair of s the rule's
      character is inserted; characters inserted in this round do not form
      pairs that are expanded in it. */
  function Grow(rules: Rules, s: seq<char>): (r: seq<char>)
    ensures |s| > 0 <==> |r| > 0
    ensures |s| > 0 ==> r[0] == s[0] && r[|r| - 1] == s[|s| - 1]
    decreases |s|
  {
    if |s| <= 1 then s
    else Grow(rules, s[..|s| - 1]) + Inserted(rules, (s[|s| - 2], s[|s| - 1])) + [s[|s| - 1]]
  }

  /** The polymer after n rounds. */
  function Polymer(rules: Rules, template: seq<char>, n: nat): (r: seq<char>)
    ensures |r| > 0 <==> |template| > 0
  {
    if n == 0 then template else Grow(rules, Polymer(rules, template, n - 1))
  }

  /** What a count in part's maps is about: a pair or a character. */
  datatype Target = PairOf(pair: Pair) | CharOf(ch: char)

  /** How much expanding one occurrence of p = (a, b) changes the count of
      t when p's rule inserts c: (a, b) loses one, (a, c) and (c, b) gain
      one each, and c gains one. A pair without a rule changes nothing. */
  function Unit(rules: Rules, p: Pair, t: Target): int
  {
    if p !in rules then 0
    else
      var c := rules[p];
      match t
      case PairOf(x) =>
        (if x == (p.0, c) then 1 else 0) + (if x == (c, p.1) then 1 else 0) - (if x == p then 1 else 0)
      case CharOf(d) => if d == c then 1 else 0
  }

  /** The change to t when the pairs listed in keys are expanded as many
      times as the snapshot counts them. */
  function Gain(rules: Rules, snap: map<Pair, nat>, keys: seq<Pair>, t: Target): int
  {
    if |keys| == 0 then 0
    else Gain(rules, snap, keys[..|keys| - 1], t) + Get(snap, keys[|keys| - 1]) * Unit(rules, keys[|keys| - 1], t)
  }

  /** The change to t when each pair in ps is expanded once. */
  function Along(rules: Rules, ps: seq<Pair>, t: Target): int
  {
    if |ps| == 0 then 0 else Along(rules, ps[..|ps| - 1], t) + Unit(rules, ps[|ps| - 1], t)
  }

  /** Only the snapshot's own entry for x can lower the count of x, so pairs
      other than x never take anything from it. */
  lemma {:induction false} GainWithout(rules: Rules, snap: map<Pair, nat>, keys: seq<Pair>, x: Pair)
    requires x !in keys
    ensures Gain(rules, snap, keys, PairOf(x)) >= 0
    decreases |keys|
  {
    if |keys| > 0 {
      var k := keys[|keys| - 1];
      assert k != x;
      assert Unit(rules, k, PairOf(x)) >= 0;
      assert keys[..|keys| - 1] <= keys;
      GainWithout(rules, snap, keys[..|keys| - 1], x);
    }
  }

  /** The shape of part's maps that keeps entries with count 0 harmless:
      every character entry is positive, and a pair with a rule whose count
      is 0 was expanded before, so its inserted character and its two new
      pairs already have entries. Entries are never removed. */
  ghost predicate Tidy(rules: Rules, state: map<Pair, nat>, counts: map<char, nat>)
  {
    && (forall c :: c in counts ==> counts[c] > 0)
    && (forall p :: p in state && state[p] == 0 && p in rules ==>
          rules[p] in counts && (p.0, rules[p]) in state && (rules[p], p.1) in state)
  }

  /** The body of part's inner loop for one snapshot entry p = (a, b) with
      count k: when p has a rule inserting c, p loses k, (a, c) and (c, b)
      gain k each and c gains k; otherwise nothing changes. p's own count
      must be at least k. */
  function Expand(rules: Rules, st: map<Pair, nat>, cn: map<char, nat>, p: Pair, k: nat)
    : (r: (map<Pair, nat>, map<char, nat>))
    requires p in rules ==> Get(st, p) >= k
    ensures p !in rules ==> r == (st, cn)
    ensures p in rules ==>
      forall x :: Get(r.0, x) == Get(st, x) + (if x == (p.0, rules[p]) then k else 0)
        + (if x == (rules[p], p.1) then k else 0) - (if x == p then k else 0)
    ensures p in rules ==> forall c :: Get(r.1, c) == Get(cn, c) + (if c == rules[p] then k else 0)
    ensures st.Keys <= r.0.Keys && cn.Keys <= r.1.Keys
  {
    if p !in rules then (st, cn)
    else
      var c := rules[p];
      (Bump(Bump(Drop(st, p, k), (p.0, c), k), (c, p.1), k), Bump(cn, c, k))
  }

  lemma Indicators(k: nat, a: bool, b: bool, d: bool)
    ensures k * ((if a then 1 else 0) + (if b then 1 else 0) - (if d then 1 else 0))
      == (if a then k else 0) + (if b then k else 0) - (if d then k else 0)
  {
  }

  /** Expanding p with count k changes every count by k times the change one
      expansion makes. */
  lemma ExpandScaled(rules: Rules, st: map<Pair, nat>, cn: map<char, nat>, p: Pair, k: nat)
    requires p in rules ==> Get(st, p) >= k
    ensures var r := Expand(rules, st, cn, p, k);
      && (forall x :: Get(r.0, x) == Get(st, x) + k * Unit(rules, p, PairOf(x)))
      && (forall c :: Get(r.1, c) == Get(cn, c) + k * Unit(rules, p, CharOf(c)))
  {
    var r := Expand(rules, st, cn, p, k);
    forall x
      ensures Get(r.0, x) == Get(st, x) + k * Unit(rules, p, PairOf(x))
    {
      if p in rules {
        var c := rules[p];
        Indicators(k, x == (p.0, c), x == (c, p.1), x == p);
      }
    }
    forall c
      ensures Get(r.1, c) == Get(cn, c) + k * Unit(rules, p, CharOf(c))
    {
    }
  }

  /** Expanding one snapshot entry p with count k keeps the maps tidy. */
  lemma TidyExpand(rules: Rules, st: map<Pair, nat>, cn: map<char, nat>, p: Pair, k: nat)
    requires Tidy(rules, st, cn) && p in rules && Get(st, p) >= k
    requires k == 0 ==> rules[p] in cn && (p.0, rules[p]) in st && (rules[p], p.1) in st
    ensures var r := Expand(rules, st, cn, p, k); Tidy(rules, r.0, r.1)
  {
    var c := rules[p];
    var st' := Bump(Bump(Drop(st, p, k), (p.0, c), k), (c, p.1), k);
    var cn' := Bump(cn, c, k);
    assert Expand(rules, st, cn, p, k) == (st', cn');
    if k == 0 {
      assert st'.Keys == st.Keys + {p};
      assert cn' == cn;
    }
    forall q | q in st' && st'[q] == 0 && q in rules
      ensures rules[q] in cn' && (q.0, rules[q]) in st' && (rules[q], q.1) in st'
    {
      TidyExpandAt(rules, st, cn, p, k, q);
    }
  }

  /** The pair q of the expanded state keeps TidyExpand's promise. */
  lemma TidyExpandAt(rules: Rules, st: map<Pair, nat>, cn: map<char, nat>, p: Pair, k: nat, q: Pair)
    requires Tidy(rules, st, cn) && p in rules && Get(st, p) >= k
    requires k == 0 ==> rules[p] in cn && (p.0, rules[p]) in st && (rules[p], p.1) in st
    requires var c := rules[p]; var st' := Bump(Bump(Drop(st, p, k), (p.0, c), k), (c, p.1), k);
      q in st' && st'[q] == 0 && q in rules
    ensures var c := rules[p]; var st' := Bump(Bump(Drop(st, p, k), (p.0, c), k), (c, p.1), k);
      rules[q] in Bump(cn, c, k) && (q.0, rules[q]) in st' && (rules[q], q.1) in st'
  {
    var c := rules[p];
    if q != p && k > 0 {
      assert q != (p.0, c) && q != (c, p.1);
    }
  }

  /** The gain over one more listed key. */
  lemma GainSnoc(rules: Rules, snap: map<Pair, nat>, keys: seq<Pair>, i: nat, t: Target)
    requires i < |keys|
    ensures Gain(rules, snap, keys[..i + 1], t) == Gain(rules, snap, keys[..i], t) + Get(snap, keys[i]) * Unit(rules, keys[i], t)
  {
    assert keys[..i + 1][..i] == keys[..i];
  }

  /** One pass of Step's loop keeps its invariant; in particular the
      snapshot entry about to be expanded has not been lowered yet, so the
      subtraction does not go below zero. */
  lemma StepInvariant(rules: Rules, state: map<Pair, nat>, counts: map<char, nat>, keys: seq<Pair>, i: nat,
                      st: map<Pair, nat>, cn: map<char, nat>)
    requires NoDup(keys) && forall p :: p in keys <==> p in state
    requires Tidy(rules, state, counts)
    requires i < |keys|
    requires forall x :: Get(st, x) == Get(state, x) + Gain(rules, state, keys[..i], PairOf(x))
    requires forall c :: Get(cn, c) == Get(counts, c) + Gain(rules, state, keys[..i], CharOf(c))
    requires state.Keys <= st.Keys && counts.Keys <= cn.Keys
    requires Tidy(rules, st, cn)
    ensures keys[i] in rules ==> Get(st, keys[i]) >= state[keys[i]]
    ensures var r := Expand(rules, st, cn, keys[i], state[keys[i]]);
      && (forall x :: Get(r.0, x) == Get(state, x) + Gain(rules, state, keys[..i + 1], PairOf(x)))
      && (forall c :: Get(r.1, c) == Get(counts, c) + Gain(rules, state, keys[..i + 1], CharOf(c)))
      && state.Keys <= r.0.Keys && counts.Keys <= r.1.Keys
      && Tidy(rules, r.0, r.1)
  {
    var p := keys[i];
    var k := state[p];
    if p in rules {
      assert p !in keys[..i] by {
        assert forall j :: 0 <= j < i ==> keys[..i][j] == keys[j];
      }
      GainWithout(rules, state, keys[..i], p);
      TidyExpand(rules, st, cn, p, k);
    }
    ExpandScaled(rules, st, cn, p, k);
    forall t
      ensures Gain(rules, state, keys[..i + 1], t) == Gain(rules, state, keys[..i], t) + k * Unit(rules, p, t)
    {
      GainSnoc(rules, state, keys, i, t);
    }
  }

  /** One round of part: every entry of a snapshot of the pair counts is
      expanded by the amount the snapshot gives it, in the order keys lists
      the snapshot's pairs, so pairs made in this round wait for the next
      one. The subtraction never goes below zero, each pair count changes by
      the gains of all expansions, and each character count grows by the
      number of characters inserted. */
  method Step(rules: Rules, state: map<Pair, nat>, counts: map<char, nat>, keys: seq<Pair>)
    returns (state': map<Pair, nat>, counts': map<char, nat>)
    requires NoDup(keys) && forall p :: p in keys <==> p in state
    requires Tidy(rules, state, counts)
    ensures forall x :: Get(state', x) == Get(state, x) + Gain(rules, state, keys, PairOf(x))
    ensures forall c :: Get(counts', c) == Get(counts, c) + Gain(rules, state, keys, CharOf(c))
    ensures Tidy(rules, state', counts')
  {
    state', counts' := state, counts;
    var i := 0;
    while i < |keys|
      invariant 0 <= i <= |keys|
      invariant forall x :: Get(state', x) == Get(state, x) + Gain(rules, state, keys[..i], PairOf(x))
      invariant forall c :: Get(counts', c) == Get(counts, c) + Gain(rules, state, keys[..i], CharOf(c))
      invariant state.Keys <= state'.Keys && counts.Keys <= counts'.Keys
      invariant Tidy(rules, state', counts')
    {
      var p := keys[i];
      var k := state[p];
      StepInvariant(rules, state, counts, keys, i, state', counts');
      state', counts' := Expand(rules, state', counts', p, k).0, Expand(rules, state', counts', p, k).1;
      i := i + 1;
    }
    assert keys[..|keys|] == keys;
  }

  /** Raising the snapshot's count of p by one raises the gain by one
      expansion of p, provided keys lists p (once). */
  lemma {:induction false} GainBump(rules: Rules, m: map<Pair, nat>, keys: seq<Pair>, p: Pair, t: Target)
    requires NoDup(keys)
    ensures Gain(rules, Bump(m, p, 1), keys, t) == Gain(rules, m, keys, t) + (if p in keys then Unit(rules, p, t) else 0)
    decreases |keys|
  {
    if |keys| > 0 {
      var front := keys[..|keys| - 1];
      var k := keys[|keys| - 1];
      assert NoDup(front) by {
        assert forall i :: 0 <= i < |front| ==> front[i] == keys[i];
      }
      GainBump(rules, m, front, p, t);
      SplitLast(keys);
      if k == p {
        assert p !in front by {
          assert forall i :: 0 <= i < |front| ==> front[i] == keys[i];
        }
        MulSucc(Get(m, k), Unit(rules, k, t));
      }
    }
  }

  lemma MulSucc(a: nat, u: int)
    ensures (a + 1) * u == a * u + u
  {
  }

  /** The gain depends only on the counts, not on entries with count 0. */
  lemma {:induction false} GainSameCounts(rules: Rules, a: map<Pair, nat>, b: map<Pair, nat>, keys: seq<Pair>, t: Target)
    requires forall k :: Get(a, k) == Get(b, k)
    ensures Gain(rules, a, keys, t) == Gain(rules, b, keys, t)
    decreases |keys|
  {
    if |keys| > 0 {
      GainSameCounts(rules, a, b, keys[..|keys| - 1], t);
    }
  }

  /** Expanding the counted pairs of ps, each by its count, is expanding
      every pair of ps once. */
  lemma {:induction false} GainTally(rules: Rules, ps: seq<Pair>, keys: seq<Pair>, t: Target)
    requires NoDup(keys) && forall p :: p in ps ==> p in keys
    ensures Gain(rules, Tally(ps), keys, t) == Along(rules, ps, t)
    decreases |ps|
  {
    if |ps| > 0 {
      var front := ps[..|ps| - 1];
      var p := ps[|ps| - 1];
      SplitLast(ps);
      assert forall q :: q in front ==> q in ps;
      assert Tally(ps) == Bump(Tally(front), p, 1);
      GainTally(rules, front, keys, t);
      GainBump(rules, Tally(front), keys, p, t);
      assert p in keys;
      assert Along(rules, ps, t) == Along(rules, front, t) + Unit(rules, p, t);
    } else {
      GainNone(rules, keys, t);
    }
  }

  lemma {:induction false} GainNone(rules: Rules, keys: seq<Pair>, t: Target)
    ensures Gain(rules, map[], keys, t) == 0
    decreases |keys|
  {
    if |keys| > 0 {
      GainNone(rules, keys[..|keys| - 1], t);
    }
  }

  /** The grown polymer, split off at its last character. */
  lemma GrowSnoc(rules: Rules, s: seq<char>)
    requires |s| >= 2
    ensures Grow(rules, s) == Grow(rules, s[..|s| - 1]) + Inserted(rules, (s[|s| - 2], s[|s| - 1])) + [s[|s| - 1]]
    ensures Pairs(s) == Pairs(s[..|s| - 1]) + [(s[|s| - 2], s[|s| - 1])]
  {
    SplitLast(s);
    PairsSnoc(s[..|s| - 1], s[|s| - 1]);
  }

  /** One round of insertion, counted by pairs: the pairs of the grown
      polymer are those of s changed by expanding each pair of s once. */
  lemma {:induction false} GrowPairs(rules: Rules, s: seq<char>, x: Pair)
    ensures Occurrences(Pairs(Grow(rules, s)), x) == Occurrences(Pairs(s), x) + Along(rules, Pairs(s), PairOf(x))
    decreases |s|
  {
    if |s| >= 2 {
      var f := s[..|s| - 1];
      var p := (s[|s| - 2], s[|s| - 1]);
      var u := Grow(rules, f);
      GrowPairs(rules, f, x);
      GrowSnoc(rules, s);
      AlongSnoc(rules, Pairs(f), p, PairOf(x));
      OccurrencesAppend(Pairs(f), [p], x);
      InsertedPairs(rules, u, p, x);
      assert Occurrences(Pairs(s), x) == Occurrences(Pairs(f), x) + (if x == p then 1 else 0);
    }
  }

  /** The pairs that expanding p adds after a polymer u ending in p's first
      character. */
  lemma InsertedPairs(rules: Rules, u: seq<char>, p: Pair, x: Pair)
    requires |u| > 0 && u[|u| - 1] == p.0
    ensures Occurrences(Pairs(u + Inserted(rules, p) + [p.1]), x)
      == Occurrences(Pairs(u), x) + Unit(rules, p, PairOf(x)) + (if x == p then 1 else 0)
  {
    if p in rules {
      var m := rules[p];
      PairsSnoc(u, m);
      PairsSnoc(u + [m], p.1);
      assert Pairs(u + [m] + [p.1]) == Pairs(u) + [(p.0, m)] + [(m, p.1)];
      assert u + Inserted(rules, p) + [p.1] == u + [m] + [p.1];
      OccurrencesAppend(Pairs(u) + [(p.0, m)], [(m, p.1)], x);
      OccurrencesAppend(Pairs(u), [(p.0, m)], x);
      assert Occurrences([(p.0, m)], x) == if x == (p.0, m) then 1 else 0;
      assert Occurrences([(m, p.1)], x) == if x == (m, p.1) then 1 else 0;
      assert Unit(rules, p, PairOf(x)) ==
        (if x == (p.0, m) then 1 else 0) + (if x == (m, p.1) then 1 else 0) - (if x == p then 1 else 0);
    } else {
      PairsSnoc(u, p.1);
      assert u + Inserted(rules, p) + [p.1] == u + [p.1];
      OccurrencesAppend(Pairs(u), [p], x);
    }
  }

  /** One round of insertion, counted by characters: each pair of s with a
      rule adds one of its rule's character. */
  lemma {:induction false} GrowChars(rules: Rules, s: seq<char>, c: char)
    ensures Occurrences(Grow(rules, s), c) == Occurrences(s, c) + Along(rules, Pairs(s), CharOf(c))
    decreases |s|
  {
    if |s| >= 2 {
      var f := s[..|s| - 1];
      var y := s[|s| - 1];
      var p := (s[|s| - 2], y);
      var u := Grow(rules, f);
      GrowChars(rules, f, c);
      GrowSnoc(rules, s);
      AlongSnoc(rules, Pairs(f), p, CharOf(c));
      InsertedChars(rules, p, c);
      OccurrencesAppend(u + Inserted(rules, p), [y], c);
      OccurrencesAppend(u, Inserted(rules, p), c);
      assert Occurrences([y], c) == if y == c then 1 else 0;
      assert Occurrences(s, c) == Occurrences(f, c) + (if y == c then 1 else 0);
      assert Occurrences(Grow(rules, s), c) == Occurrences(u, c) + Unit(rules, p, CharOf(c)) + (if y == c then 1 else 0);
      assert Along(rules, Pairs(s), CharOf(c)) == Along(rules, Pairs(f), CharOf(c)) + Unit(rules, p, CharOf(c));
    }
  }

  lemma AlongSnoc(rules: Rules, ps: seq<Pair>, p: Pair, t: Target)
    ensures Along(rules, ps + [p], t) == Along(rules, ps, t) + Unit(rules, p, t)
  {
    assert (ps + [p])[..|ps|] == ps;
  }

  lemma InsertedChars(rules: Rules, p: Pair, c: char)
    ensures Occurrences(Inserted(rules, p), c) == Unit(rules, p, CharOf(c))
  {
    if p in rules {
      assert [rules[p]][..0] == [];
    }
  }

  /** part's maps after a round agree with the polymer grown by a round. */
  lemma RoundAgrees(rules: Rules, s: seq<char>, state: map<Pair, nat>, keys: seq<Pair>)
    requires forall x :: Get(state, x) == Occurrences(Pairs(s), x)
    requires NoDup(keys) && forall p :: p in keys <==> p in state
    ensures forall x :: Occurrences(Pairs(Grow(rules, s)), x) == Occurrences(Pairs(s), x) + Gain(rules, state, keys, PairOf(x))
    ensures forall c :: Occurrences(Grow(rules, s), c) == Occurrences(s, c) + Gain(rules, state, keys, CharOf(c))
  {
    var ps := Pairs(s);
    forall p | p in ps
      ensures p in keys
    {
      OccurrencesZero(ps, p);
    }
    forall x
      ensures Occurrences(Pairs(Grow(rules, s)), x) == Occurrences(Pairs(s), x) + Gain(rules, state, keys, PairOf(x))
    {
      GrowPairs(rules, s, x);
      GainSameCounts(rules, state, Tally(ps), keys, PairOf(x));
      GainTally(rules, ps, keys, PairOf(x));
    }
    forall c
      ensures Occurrences(Grow(rules, s), c) == Occurrences(s, c) + Gain(rules, state, keys, CharOf(c))
    {
      GrowChars(rules, s, c);
      GainSameCounts(rules, state, Tally(ps), keys, CharOf(c));
      GainTally(rules, ps, keys, CharOf(c));
    }
  }

  /** hi is the count of the most common character of s. */
  predicate MostCommon(s: seq<char>, hi: nat)
  {
    && (exists i :: 0 <= i < |s| && Occurrences(s, s[i]) == hi)
    && forall i :: 0 <= i < |s| ==> Occurrences(s, s[i]) <= hi
  }

  /** lo is the count of the least common character of s. */
  predicate LeastCommon(s: seq<char>, lo: nat)
  {
    && (exists i :: 0 <= i < |s| && Occurrences(s, s[i]) == lo)
    && forall i :: 0 <= i < |s| ==> Occurrences(s, s[i]) >= lo
  }

  /** v is the count of the most common character of s minus that of the
      least common one. */
  ghost predicate IsSpread(s: seq<char>, v: int)
  {
    exists hi: nat, lo: nat :: MostCommon(s, hi) && LeastCommon(s, lo) && v == hi - lo
  }

  /** counts.values().max() and counts.values().min() on a non-empty map. */
  method Extremes(m: map<char, nat>) returns (hi: nat, lo: nat)
    requires m != map[]
    ensures exists c :: c in m && m[c] == hi
    ensures forall c :: c in m ==> m[c] <= hi
    ensures exists c :: c in m && m[c] == lo
    ensures forall c :: c in m ==> m[c] >= lo
  {
    var keys := Enumerate(m.Keys);
    var c0 := keys[0];
    hi, lo := m[c0], m[c0];
    var i := 1;
    while i < |keys|
      invariant 1 <= i <= |keys|
      invariant exists c :: c in m && m[c] == hi
      invariant exists c :: c in m && m[c] == lo
      invariant forall j :: 0 <= j < i ==> lo <= m[keys[j]] <= hi
    {
      var c := keys[i];
      if m[c] > hi {
        hi := m[c];
      }
      if m[c] < lo {
        lo := m[c];
      }
      i := i + 1;
    }
    forall c | c in m
      ensures lo <= m[c] <= hi
    {
      var j :| 0 <= j < |keys| && keys[j] == c;
    }
  }

  /** The maps part keeps describe the polymer s: the pair counts are
      those of its adjacent pairs, the character counts those of its
      characters, and the maps are tidy. */
  ghost predicate Describes(rules: Rules, s: seq<char>, state: map<Pair, nat>, counts: map<char, nat>)
  {
    && (forall x :: Get(state, x) == Occurrences(Pairs(s), x))
    && (forall c :: Get(counts, c) == Occurrences(s, c))
    && Tidy(rules, state, counts)
  }

  /** The counting loops at the start of part describe the template. */
  lemma StartDescribes(rules: Rules, template: seq<char>)
    ensures Describes(rules, template, Tally(Pairs(template)), Tally(template))
  {
  }

  /** One round of Step on maps that describe s describes s grown once. */
  method Round(rules: Rules, ghost s: seq<char>, state: map<Pair, nat>, counts: map<char, nat>)
    returns (state': map<Pair, nat>, counts': map<char, nat>)
    requires Describes(rules, s, state, counts)
    ensures Describes(rules, Grow(rules, s), state', counts')
  {
    var keys := Enumerate(state.Keys);
    RoundAgrees(rules, s, state, keys);
    state', counts' := Step(rules, state, counts, keys);
  }

  /** The first loop of part: n rounds. */
  method Rounds(rules: Rules, template: seq<char>, n: nat) returns (state: map<Pair, nat>, counts: map<char, nat>)
    ensures Describes(rules, Polymer(rules, template, n), state, counts)
  {
    state, counts := Tally(Pairs(template)), Tally(template);
    StartDescribes(rules, template);
    for round := 0 to n
      invariant Describes(rules, Polymer(rules, template, round), state, counts)
    {
      state, counts := Round(rules, Polymer(rules, template, round), state, counts);
    }
  }

  /** part: the pair and character counts of the template, n rounds of
      Step, then the spread between the most and the least common character.
      An empty template leaves no counts, and the unwrap of their maximum
      panics (None). The result is that of the polymer grown n times. */
  method Part(template: seq<char>, rules: Rules, n: nat) returns (r: Option<nat>)
    ensures r.None? <==> |template| == 0
    ensures r.Some? ==> IsSpread(Polymer(rules, template, n), r.value)
  {
    var state, counts := Rounds(rules, template, n);
    ghost var s := Polymer(rules, template, n);
    if |template| > 0 {
      OccurrencesZero(s, s[0]);
    }
    if counts == map[] {
      return None;
    }
    var hi, lo := Extremes(counts);
    SpreadAgrees(s, counts, hi, lo);
    r := Some(hi - lo);
    assert MostCommon(s, hi) && LeastCommon(s, lo);
  }

  /** The extremes of a tidy character map that counts s are those of s. */
  lemma SpreadAgrees(s: seq<char>, counts: map<char, nat>, hi: nat, lo: nat)
    requires forall c :: Get(counts, c) == Occurrences(s, c)
    requires forall c :: c in counts ==> counts[c] > 0
    requires exists c :: c in counts && counts[c] == hi
    requires forall c :: c in counts ==> counts[c] <= hi
    requires exists c :: c in counts && counts[c] == lo
    requires forall c :: c in counts ==> counts[c] >= lo
    ensures |s| > 0 && hi >= lo && MostCommon(s, hi) && LeastCommon(s, lo)
  {
    var c :| c in counts && counts[c] == hi;
    var d :| d in counts && counts[d] == lo;
    OccurrencesZero(s, c);
    OccurrencesZero(s, d);
    var i :| 0 <= i < |s| && s[i] == c;
    var j :| 0 <= j < |s| && s[j] == d;
    assert Occurrences(s, s[i]) == hi;
    assert Occurrences(s, s[j]) == lo;
    forall k | 0 <= k < |s|
      ensures lo <= Occurrences(s, s[k]) <= hi
    {
      assert s[k] in s;
      OccurrencesZero(s, s[k]);
      assert Get(counts, s[k]) > 0;
    }
  }

  /** The sum of the counts of m over the entries listed in keys. */
  function Total<K(!new)>(m: map<K, nat>, keys: seq<K>): nat
  {
    if |keys| == 0 then 0 else Total(m, keys[..|keys| - 1]) + Get(m, keys[|keys| - 1])
  }

  lemma {:induction false} TotalBump<K(!new)>(m: map<K, nat>, keys: seq<K>, k: K)
    requires NoDup(keys)
    ensures Total(Bump(m, k, 1), keys) == Total(m, keys) + (if k in keys then 1 else 0)
    decreases |keys|
  {
    if |keys| > 0 {
      var front := keys[..|keys| - 1];
      assert forall i :: 0 <= i < |front| ==> front[i] == keys[i];
      TotalBump(m, front, k);
      SplitLast(keys);
    }
  }

  lemma {:induction false} TotalSameCounts<K(!new)>(a: map<K, nat>, b: map<K, nat>, keys: seq<K>)
    requires forall k :: Get(a, k) == Get(b, k)
    ensures Total(a, keys) == Total(b, keys)
    decreases |keys|
  {
    if |keys| > 0 {
      TotalSameCounts(a, b, keys[..|keys| - 1]);
    }
  }

  /** Counting each element of xs once gives |xs| in all. */
  lemma {:induction false} TotalTally<K(!new)>(xs: seq<K>, keys: seq<K>)
    requires NoDup(keys) && forall x :: x in xs ==> x in keys
    ensures Total(Tally(xs), keys) == |xs|
    decreases |xs|
  {
    if |xs| > 0 {
      var front := xs[..|xs| - 1];
      SplitLast(xs);
      assert forall x :: x in front ==> x in xs;
      assert Tally(xs) == Bump(Tally(front), xs[|xs| - 1], 1);
      TotalTally(front, keys);
      TotalBump(Tally(front), keys, xs[|xs| - 1]);
    } else {
      TotalNone(keys, map[]);
    }
  }

  lemma {:induction false} TotalNone<K(!new)>(keys: seq<K>, m: map<K, nat>)
    requires m == map[]
    ensures Total(m, keys) == 0
    decreases |keys|
  {
    if |keys| > 0 {
      TotalNone(keys[..|keys| - 1], m);
    }
  }

  /** At every round of part on a non-empty template, the character counts
      add up to one more than the pair counts, whatever order their entries
      are listed in: a polymer of length m has m - 1 adjacent pairs. */
  lemma CountsExceedPairs(rules: Rules, s: seq<char>, state: map<Pair, nat>, counts: map<char, nat>,
                          pairKeys: seq<Pair>, charKeys: seq<char>)
    requires Describes(rules, s, state, counts) && |s| > 0
    requires NoDup(pairKeys) && forall x :: x in pairKeys <==> x in state
    requires NoDup(charKeys) && forall c :: c in charKeys <==> c in counts
    ensures Total(counts, charKeys) == Total(state, pairKeys) + 1
  {
    var ps := Pairs(s);
    forall x | x in ps
      ensures x in pairKeys
    {
      OccurrencesZero(ps, x);
    }
    forall c | c in s
      ensures c in charKeys
    {
      OccurrencesZero(s, c);
    }
    TotalSameCounts(state, Tally(ps), pairKeys);
    TotalTally(ps, pairKeys);
    TotalSameCounts(counts, Tally(s), charKeys);
    TotalTally(s, charKeys);
  }
}
