/** Day 12: counting the routes through a cave system. Caves are named by
    strings; a small cave (lower-case name) may be visited once per route in
    part_one, and in part_two one small cave per route may be visited twice.
    Both parts explore routes depth first from an explicit stack of partial
    routes. */
module Caves {
  import opened Common

  /** NodeType: small caves are Lower, big caves are Upper. */
  datatype NodeType = Upper | Lower

  /** ASCII lower-casing of one character. */
  function LowerChar(c: char): char
  {
    if 'A' <= c <= 'Z' then (c as int - 'A' as int + 'a' as int) as char else c
  }

  function ToLower(s: string): string
  {
    seq(|s|, i requires 0 <= i < |s| => LowerChar(s[i]))
  }

  /** NodeType::from_str: a name is Lower when lower-casing leaves it as it
      is, that is, when it holds no ASCII upper-case letter. */
  function Kind(name: string): (k: NodeType)
    ensures k == Lower <==> forall i :: 0 <= i < |name| ==> !('A' <= name[i] <= 'Z')
  {
    var low := ToLower(name);
    assert forall i :: 0 <= i < |name| ==> low[i] == LowerChar(name[i]);
    if low == name then Lower else Upper
  }

  lemma KindExamples()
    ensures Kind("HN") == Upper && Kind("dc") == Lower
    ensures Kind("start") == Lower && Kind("end") == Lower
  {
    assert "HN"[0] == 'H';
  }

  type Path = seq<string>

  /** The parsed cave graph: each name with a key maps to the names it
      connects to. */
  type Graph = map<string, set<string>>

  predicate Connected(g: Graph, a: string, b: string)
  {
    a in g && b in g[a]
  }

  /** The input line a-b joins a and b, in either direction. */
  predicate Joins(e: (string, string), a: string, b: string)
  {
    (e.0 == a && e.1 == b) || (e.0 == b && e.1 == a)
  }

  ghost predicate Listed(edges: seq<(string, string)>, a: string, b: string)
  {
    exists i :: 0 <= i < |edges| && Joins(edges[i], a, b)
  }

  /** One direction of an input line in parse: b joins the connections of
      a, creating the node for a if needed, unless b is "start". */
  function AddConnection(g: Graph, a: string, b: string): (r: Graph)
    ensures forall x, y :: Connected(r, x, y) <==> Connected(g, x, y) || (x == a && y == b && b != "start")
    ensures forall x :: x in r <==> x in g || (x == a && b != "start")
    ensures forall x :: x in r ==> r[x] != {} || (x in g && r[x] == g[x])
  {
    if b == "start" then g
    else g[a := (if a in g then g[a] else {}) + {b}]
  }

  /** parse, on the lines already split at '-': every line adds its two
      directions, and no connection ever leads into "start". */
  function Parse(edges: seq<(string, string)>): (g: Graph)
    ensures forall a, b :: Connected(g, a, b) <==> b != "start" && Listed(edges, a, b)
    ensures forall a :: a in g ==> g[a] != {}
  {
    if |edges| == 0 then map[]
    else
      var e := edges[|edges| - 1];
      var prefix := edges[..|edges| - 1];
      var g' := Parse(prefix);
      assert forall a, b :: Listed(edges, a, b) <==> Listed(prefix, a, b) || Joins(e, a, b) by {
        forall a, b
          ensures Listed(edges, a, b) <==> Listed(prefix, a, b) || Joins(e, a, b)
        {
          if Listed(edges, a, b) {
            var i :| 0 <= i < |edges| && Joins(edges[i], a, b);
            if i < |prefix| {
              assert prefix[i] == edges[i];
            }
          }
          if Listed(prefix, a, b) {
            var i :| 0 <= i < |prefix| && Joins(prefix[i], a, b);
            assert edges[i] == prefix[i];
          }
          assert edges[|edges| - 1] == e;
        }
      }
      AddConnection(AddConnection(g', e.0, e.1), e.1, e.0)
  }

  /** A name gets a node exactly when some line joins it to a name other
      than "start"; a cave joined only to "start" has none. */
  lemma ParseKeys(edges: seq<(string, string)>, a: string)
    ensures a in Parse(edges) <==> exists b :: b != "start" && Listed(edges, a, b)
  {
    var g := Parse(edges);
    if a in g {
      var b :| b in g[a];
      assert Connected(g, a, b);
    }
  }

  /** No two big caves are connected; without this a route could bounce
      between them forever. */
  ghost predicate NoBigNeighbours(g: Graph)
  {
    forall a, b :: Connected(g, a, b) ==> IsSmall(a) || IsSmall(b)
  }

  /** p starts at "start" and each later cave is connected to the one before
      it. */
  ghost predicate Walk(g: Graph, p: Path)
  {
    && |p| >= 1 && p[0] == "start"
    && forall i :: 0 <= i < |p| - 1 ==> Connected(g, p[i], p[i + 1])
  }

  function Last(p: Path): string
    requires |p| > 0
  {
    p[|p| - 1]
  }

  function Front(p: Path): Path
    requires |p| > 0
  {
    p[..|p| - 1]
  }

  predicate IsSmall(name: string)
  {
    Kind(name) == Lower
  }

  /** No small cave occurs twice in p. */
  ghost predicate SmallOnce(p: Path)
  {
    forall i :: 0 <= i < |p| && IsSmall(p[i]) ==> Occurrences(p, p[i]) <= 1
  }

  /** Small caves occur at most twice in p, and at most one of them twice. */
  ghost predicate SmallTwice(p: Path)
  {
    && (forall i :: 0 <= i < |p| && IsSmall(p[i]) ==> Occurrences(p, p[i]) <= 2)
    && (forall i, j ::
          (0 <= i < |p| && 0 <= j < |p| && IsSmall(p[i]) && IsSmall(p[j])
           && Occurrences(p, p[i]) == 2 && Occurrences(p, p[j]) == 2) ==> p[i] == p[j])
  }

  ghost predicate HasDouble(p: Path)
  {
    exists i :: 0 <= i < |p| && IsSmall(p[i]) && Occurrences(p, p[i]) >= 2
  }

  /** The check part_one makes on a popped route: its last cave, if small,
      occurs in it only once. */
  predicate PassesOne(p: Path)
    requires |p| > 0
  {
    IsSmall(Last(p)) ==> Occurrences(p, Last(p)) <= 1
  }

  /** The check part_two makes on a popped route that does not end at
      "end": a small last cave seen before is allowed only if no cave has
      been doubled yet. */
  predicate PassesTwo(p: Path, doubled: bool)
    requires |p| > 0
  {
    !(IsSmall(Last(p)) && Occurrences(p, Last(p)) > 1 && doubled)
  }

  /** The routes part_one pops: walks in which no small cave repeats before
      the last cave. The search goes on past "end" like past any cave. */
  ghost predicate ExploredOne(g: Graph, p: Path)
  {
    Walk(g, p) && SmallOnce(Front(p))
  }

  /** The routes part_one records: explored walks that end at "end", pass
      the check, and whose last cave has a node. */
  ghost predicate RouteOne(g: Graph, p: Path)
  {
    ExploredOne(g, p) && Last(p) == "end" && "end" in g && SmallOnce(p)
  }

  /** The routes part_two pops: walks that do not pass through "end" and in
      which, before the last cave, at most one small cave repeats, once. */
  ghost predicate ExploredTwo(g: Graph, p: Path)
  {
    Walk(g, p) && "end" !in Front(p) && SmallTwice(Front(p))
  }

  /** The routes part_two records: explored walks that reach "end", whose
      node exists. */
  ghost predicate RouteTwo(g: Graph, p: Path)
  {
    ExploredTwo(g, p) && Last(p) == "end" && "end" in g
  }

  lemma {:induction false} SmallOncePrefix(p: Path, k: nat)
    requires SmallOnce(p) && k <= |p|
    ensures SmallOnce(p[..k])
  {
    forall i | 0 <= i < k && IsSmall(p[..k][i])
      ensures Occurrences(p[..k], p[..k][i]) <= 1
    {
      assert p[..k][i] == p[i];
      OccurrencesPrefix(p, k, p[i]);
    }
  }

  lemma {:induction false} SmallTwicePrefix(p: Path, k: nat)
    requires SmallTwice(p) && k <= |p|
    ensures SmallTwice(p[..k])
  {
    var q := p[..k];
    forall i | 0 <= i < k && IsSmall(q[i])
      ensures Occurrences(q, q[i]) <= 2
    {
      assert q[i] == p[i];
      OccurrencesPrefix(p, k, p[i]);
    }
    forall i, j | 0 <= i < k && 0 <= j < k && IsSmall(q[i]) && IsSmall(q[j])
        && Occurrences(q, q[i]) == 2 && Occurrences(q, q[j]) == 2
      ensures q[i] == q[j]
    {
      assert q[i] == p[i] && q[j] == p[j];
      OccurrencesPrefix(p, k, p[i]);
      OccurrencesPrefix(p, k, p[j]);
    }
  }

  /** Occurrences in p, split into its front and its last cave. */
  lemma OccurrencesLast(p: Path, x: string)
    requires |p| > 0
    ensures Occurrences(p, x) == Occurrences(Front(p), x) + (if Last(p) == x then 1 else 0)
  {
  }

  /** A route whose front has no repeated small cave has none at all
      exactly when it passes the part_one check. */
  lemma {:induction false} SmallOnceExtend(p: Path)
    requires |p| > 0 && SmallOnce(Front(p))
    ensures SmallOnce(p) <==> PassesOne(p)
  {
    var q := Front(p);
    if PassesOne(p) {
      forall i | 0 <= i < |p| && IsSmall(p[i])
        ensures Occurrences(p, p[i]) <= 1
      {
        OccurrencesLast(p, p[i]);
        if p[i] != Last(p) {
          assert i < |q| && q[i] == p[i];
        }
      }
    }
  }

  /** The same for part_two: a route whose front keeps to the doubling rule,
      with the flag recording whether the front doubled a cave, keeps to it
      exactly when it passes the part_two check, and then the flag after
      the check records whether the route doubled a cave. */
  lemma SmallTwiceExtend(p: Path, doubled: bool)
    requires |p| > 0 && SmallTwice(Front(p)) && doubled == HasDouble(Front(p))
    ensures SmallTwice(p) <==> PassesTwo(p, doubled)
    ensures PassesTwo(p, doubled) ==>
      (HasDouble(p) <==> doubled || (IsSmall(Last(p)) && Occurrences(p, Last(p)) > 1))
  {
    if SmallTwice(p) {
      SmallTwiceChecked(p, doubled);
    }
    if PassesTwo(p, doubled) {
      SmallTwiceKept(p, doubled);
      DoubledFlag(p, doubled);
    }
  }

  lemma {:induction false} SmallTwiceChecked(p: Path, doubled: bool)
    requires |p| > 0 && doubled == HasDouble(Front(p))
    requires SmallTwice(p)
    ensures PassesTwo(p, doubled)
  {
    var q := Front(p);
    var y := Last(p);
    OccurrencesLast(p, y);
  }

  lemma {:induction false} SmallTwiceKept(p: Path, doubled: bool)
    requires |p| > 0 && SmallTwice(Front(p)) && doubled == HasDouble(Front(p))
    requires PassesTwo(p, doubled)
    ensures SmallTwice(p)
  {
    var q := Front(p);
    var y := Last(p);
    if IsSmall(y) && Occurrences(p, y) > 1 {
      SmallOnceWithoutDouble(q);
      OccurrencesLast(p, y);
    }
    forall i | 0 <= i < |p| && IsSmall(p[i])
      ensures Occurrences(p, p[i]) <= 2
    {
      OccurrencesLast(p, p[i]);
      if i < |q| {
        assert p[i] == q[i];
      }
      if p[i] == y && Occurrences(q, y) > 0 {
        OccurrenceIndex(q, y);
        var j :| 0 <= j < |q| && q[j] == y;
        assert Occurrences(q, q[j]) <= 2;
      }
    }
    forall i, j | 0 <= i < |p| && 0 <= j < |p| && IsSmall(p[i]) && IsSmall(p[j])
        && Occurrences(p, p[i]) == 2 && Occurrences(p, p[j]) == 2
      ensures p[i] == p[j]
    {
      OccurrencesLast(p, p[i]);
      OccurrencesLast(p, p[j]);
      if i < |q| {
        assert p[i] == q[i];
      }
      if j < |q| {
        assert p[j] == q[j];
      }
      if p[i] != y && p[j] != y {
        assert q[i] == q[j];
      } else if p[i] == y && IsSmall(y) && Occurrences(p, y) > 1 {
        OccurrenceIndex(q, y);
      } else if p[j] == y && IsSmall(y) && Occurrences(p, y) > 1 {
        OccurrenceIndex(q, y);
      }
    }
  }

  /** Without a doubled small cave, no small cave repeats. */
  lemma SmallOnceWithoutDouble(q: Path)
    requires SmallTwice(q) && !HasDouble(q)
    ensures SmallOnce(q)
  {
  }

  lemma OccurrenceIndex(q: Path, y: string)
    requires Occurrences(q, y) > 0
    ensures exists j :: 0 <= j < |q| && q[j] == y
  {
    OccurrencesZero(q, y);
  }

  lemma {:induction false} DoubledFlag(p: Path, doubled: bool)
    requires |p| > 0 && SmallTwice(Front(p)) && doubled == HasDouble(Front(p))
    requires PassesTwo(p, doubled)
    ensures HasDouble(p) <==> doubled || (IsSmall(Last(p)) && Occurrences(p, Last(p)) > 1)
  {
    var q := Front(p);
    var y := Last(p);
    if HasDouble(p) {
      var i :| 0 <= i < |p| && IsSmall(p[i]) && Occurrences(p, p[i]) >= 2;
      OccurrencesLast(p, p[i]);
      if p[i] != y {
        assert p[i] == q[i];
        assert HasDouble(q);
      }
    }
    if doubled {
      var i :| 0 <= i < |q| && IsSmall(q[i]) && Occurrences(q, q[i]) >= 2;
      assert p[i] == q[i];
      OccurrencesLast(p, q[i]);
    }
    if IsSmall(y) && Occurrences(p, y) > 1 {
      assert p[|p| - 1] == y;
    }
  }

  /** Every name a walk can meet: "start", the names with a node, and the
      names they connect to. */
  ghost function Names(g: Graph): set<string>
  {
    {"start"} + g.Keys + (set a, b | a in g && b in g[a] :: b)
  }

  ghost function SmallNames(g: Graph): set<string>
  {
    set x | x in Names(g) && IsSmall(x)
  }

  lemma ConnectionsInNames(g: Graph, a: string)
    requires a in g
    ensures g[a] <= Names(g)
  {
    forall b | b in g[a]
      ensures b in Names(g)
    {
      assert b in (set a', b' | a' in g && b' in g[a'] :: b');
    }
  }

  lemma {:induction false} WalkNames(g: Graph, p: Path)
    requires Walk(g, p)
    ensures forall i :: 0 <= i < |p| ==> p[i] in Names(g)
    ensures forall i :: 0 <= i < |p| && IsSmall(p[i]) ==> p[i] in SmallNames(g)
  {
    forall i | 0 <= i < |p|
      ensures p[i] in Names(g)
    {
      if i > 0 {
        assert Connected(g, p[i - 1], p[i - 1 + 1]);
        ConnectionsInNames(g, p[i - 1]);
      }
    }
  }

  lemma {:induction false} SubsetSize<T>(a: set<T>, b: set<T>)
    requires a <= b
    ensures |a| <= |b|
    decreases |a|
  {
    if a != {} {
      var x :| x in a;
      SubsetSize(a - {x}, b - {x});
    }
  }

  /** Number of positions of p that hold a small cave. */
  function SmallCount(p: Path): nat
  {
    if |p| == 0 then 0 else SmallCount(Front(p)) + (if IsSmall(Last(p)) then 1 else 0)
  }

  /** A path without a repeated small cave holds at most as many small caves
      as there are small names. */
  lemma {:induction false} SmallCountOnce(p: Path, names: set<string>)
    requires SmallOnce(p)
    requires forall i :: 0 <= i < |p| && IsSmall(p[i]) ==> p[i] in names
    ensures SmallCount(p) <= |names|
    decreases |p|
  {
    if |p| > 0 {
      var q := Front(p);
      var y := Last(p);
      SmallOncePrefix(p, |p| - 1);
      if IsSmall(y) {
        OccurrencesLast(p, y);
        assert Occurrences(p, p[|p| - 1]) <= 1;
        OccurrencesZero(q, y);
        forall i | 0 <= i < |q| && IsSmall(q[i])
          ensures q[i] in names - {y}
        {
          assert q[i] == p[i];
        }
        SmallCountOnce(q, names - {y});
      } else {
        forall i | 0 <= i < |q| && IsSmall(q[i])
          ensures q[i] in names
        {
          assert q[i] == p[i];
        }
        SmallCountOnce(q, names);
      }
    }
  }

  /** With one small cave allowed twice, at most one more. */
  lemma {:induction false} SmallCountTwice(p: Path, names: set<string>)
    requires SmallTwice(p)
    requires forall i :: 0 <= i < |p| && IsSmall(p[i]) ==> p[i] in names
    ensures SmallCount(p) <= |names| + 1
    decreases |p|
  {
    if |p| > 0 {
      var q := Front(p);
      var y := Last(p);
      SmallTwicePrefix(p, |p| - 1);
      forall i | 0 <= i < |q|
        ensures q[i] == p[i]
      {
      }
      if IsSmall(y) {
        OccurrencesLast(p, y);
        assert Occurrences(p, p[|p| - 1]) <= 2;
        if Occurrences(q, y) == 0 {
          OccurrencesZero(q, y);
          SmallCountTwice(q, names - {y});
        } else {
          forall i | 0 <= i < |q| && IsSmall(q[i])
            ensures Occurrences(q, q[i]) <= 1
          {
            OccurrencesLast(p, q[i]);
            if q[i] != y {
              assert Occurrences(p, p[i]) <= 2;
            }
          }
          SmallCountOnce(q, names);
        }
      } else {
        SmallCountTwice(q, names);
      }
    }
  }

  /** The rank of a route on the stack: two for every small cave it may
      still add, and one more when it ends at a small cave. Every child
      route ranks lower than its parent. */
  ghost function Rank(bound: nat, p: Path): nat
    requires |p| > 0
  {
    if SmallCount(p) <= bound then 2 * (bound - SmallCount(p)) + (if IsSmall(Last(p)) then 1 else 0)
    else 0
  }

  /** Termination measure of both searches: each route on the stack weighs
      base to the power of its rank; popping a route and pushing its fewer
      than base children, each of lower rank, makes the stack lighter. */
  ghost function Weight(base: nat, bound: nat, stack: seq<Path>): nat
  {
    if |stack| == 0 then 0
    else
      var top := stack[|stack| - 1];
      Weight(base, bound, stack[..|stack| - 1]) + (if |top| > 0 then Pow(base, Rank(bound, top)) else 0)
  }

  lemma {:induction false} WeightAppend(base: nat, bound: nat, a: seq<Path>, b: seq<Path>)
    ensures Weight(base, bound, a + b) == Weight(base, bound, a) + Weight(base, bound, b)
    decreases |b|
  {
    if |b| == 0 {
      assert a + b == a;
    } else {
      assert (a + b)[..|a + b| - 1] == a + b[..|b| - 1];
      WeightAppend(base, bound, a, b[..|b| - 1]);
    }
  }

  lemma {:induction false} PowMonotone(base: nat, a: nat, b: nat)
    requires base >= 1 && a <= b
    ensures Pow(base, a) <= Pow(base, b)
    decreases b
  {
    if a < b {
      PowMonotone(base, a, b - 1);
      PowPositive(base, b - 1);
      MulMonotone(Pow(base, b - 1), 1, base);
    }
  }

  /** The children p + [c] of p, in the order of next. */
  function Extend(p: Path, next: seq<string>): (r: seq<Path>)
    ensures |r| == |next|
    ensures forall i :: 0 <= i < |next| ==> r[i] == p + [next[i]]
  {
    seq(|next|, i requires 0 <= i < |next| => p + [next[i]])
  }

  lemma {:induction false} ChildrenWeight(base: nat, bound: nat, p: Path, next: seq<string>, m: nat)
    requires base >= 1
    requires forall i :: 0 <= i < |next| ==> Rank(bound, p + [next[i]]) <= m
    ensures Weight(base, bound, Extend(p, next)) <= |next| * Pow(base, m)
    decreases |next|
  {
    if |next| > 0 {
      var e := Extend(p, next);
      var front := next[..|next| - 1];
      assert e[..|e| - 1] == Extend(p, front);
      ChildrenWeight(base, bound, p, front, m);
      PowMonotone(base, Rank(bound, p + [next[|next| - 1]]), m);
      assert |next| * Pow(base, m) == |front| * Pow(base, m) + Pow(base, m);
    }
  }

  /** A child ranks below its parent as long as its small caves stay within
      the bound. */
  lemma ChildRank(g: Graph, bound: nat, p: Path, c: string)
    requires NoBigNeighbours(g)
    requires |p| > 0 && Connected(g, Last(p), c)
    requires SmallCount(p + [c]) <= bound
    ensures Rank(bound, p + [c]) + 1 <= Rank(bound, p)
  {
    assert Front(p + [c]) == p;
  }

  /** Every child of p ranks below p. */
  lemma ChildrenRanks(g: Graph, bound: nat, p: Path, next: seq<string>)
    requires NoBigNeighbours(g)
    requires |p| > 0 && Last(p) in g
    requires forall x :: x in next ==> x in g[Last(p)]
    requires SmallCount(p) + 1 <= bound
    ensures |next| > 0 ==> Rank(bound, p) >= 1
    ensures forall i :: 0 <= i < |next| ==> Rank(bound, p + [next[i]]) + 1 <= Rank(bound, p)
  {
    forall i | 0 <= i < |next|
      ensures Rank(bound, p + [next[i]]) + 1 <= Rank(bound, p)
    {
      assert next[i] in next;
      assert Front(p + [next[i]]) == p;
      ChildRank(g, bound, p, next[i]);
    }
    if |next| > 0 {
      assert Rank(bound, p + [next[0]]) + 1 <= Rank(bound, p);
    }
  }

  /** Fewer than base children of weight at most base^(r-1) weigh less than
      base^r. */
  lemma FewerThanBase(base: nat, k: nat, r: nat)
    requires k < base && r >= 1
    ensures k * Pow(base, r - 1) < Pow(base, r)
  {
    PowPositive(base, r - 1);
    var w := Pow(base, r - 1);
    MulMonotone(w, k, base - 1);
    assert w * (base - 1) == w * base - w;
  }

  /** Replacing p on top of the stack by its children lightens the stack. */
  lemma ExtendWeight(g: Graph, bound: nat, rest: seq<Path>, p: Path, next: seq<string>)
    requires NoBigNeighbours(g)
    requires |p| > 0 && Last(p) in g
    requires |next| == |g[Last(p)]| && forall x :: x in next ==> x in g[Last(p)]
    requires SmallCount(p) + 1 <= bound
    ensures Weight(|Names(g)| + 1, bound, rest + Extend(p, next)) < Weight(|Names(g)| + 1, bound, rest + [p])
  {
    var base := |Names(g)| + 1;
    WeightAppend(base, bound, rest, Extend(p, next));
    WeightAppend(base, bound, rest, [p]);
    assert Weight(base, bound, [p]) == Pow(base, Rank(bound, p)) by {
      assert [p][..0] == [];
    }
    ChildrenLighter(g, bound, p, next);
  }

  /** The children of p on the stack weigh less than p alone. */
  lemma ChildrenLighter(g: Graph, bound: nat, p: Path, next: seq<string>)
    requires NoBigNeighbours(g)
    requires |p| > 0 && Last(p) in g
    requires |next| == |g[Last(p)]| && forall x :: x in next ==> x in g[Last(p)]
    requires SmallCount(p) + 1 <= bound
    ensures Weight(|Names(g)| + 1, bound, Extend(p, next)) < Pow(|Names(g)| + 1, Rank(bound, p))
  {
    var base := |Names(g)| + 1;
    var r := Rank(bound, p);
    ChildrenRanks(g, bound, p, next);
    if |next| > 0 {
      ChildrenWeight(base, bound, p, next, r - 1);
      ConnectionsInNames(g, Last(p));
      SubsetSize(g[Last(p)], Names(g));
      FewerThanBase(base, |next|, r);
    } else {
      assert Extend(p, next) == [];
      PowPositive(base, r);
    }
  }

  /** Popping p without pushing anything lightens the stack. */
  lemma PopWeight(base: nat, bound: nat, rest: seq<Path>, p: Path)
    requires base >= 1 && |p| > 0
    ensures Weight(base, bound, rest) < Weight(base, bound, rest + [p])
  {
    PowPositive(base, Rank(bound, p));
    assert (rest + [p])[..|rest|] == rest;
  }

  lemma PrefixOfChild(q: Path, p: Path, c: string)
    ensures q <= p + [c] <==> q <= p || q == p + [c]
  {
    if q <= p + [c] && |q| <= |p| {
      assert q == (p + [c])[..|q|] == p[..|q|];
    }
  }

  lemma ChildPrefix(p: Path, c: string, q: Path)
    requires p + [c] <= q
    ensures p <= q && |p| < |q| && q[|p|] == c
  {
    assert q[..|p|] == (p + [c])[..|p|] == p;
  }

  /** If p is a proper prefix of a walk r, then r continues p with one of
      the connections of p's last cave. */
  lemma WalkContinues(g: Graph, p: Path, r: Path)
    requires Walk(g, r) && |p| > 0 && p <= r && |p| < |r|
    ensures Connected(g, Last(p), r[|p|])
    ensures p + [r[|p|]] <= r
  {
    assert r[|p| - 1] == p[|p| - 1];
    assert Connected(g, r[|p| - 1], r[|p| - 1 + 1]);
    assert r[..|p| + 1] == r[..|p|] + [r[|p|]];
  }

  /** The children of p are p extended by each entry of next. */
  lemma ExtendMembers(p: Path, next: seq<string>)
    ensures forall c :: c in next ==> p + [c] in Extend(p, next)
    ensures forall q :: q in Extend(p, next) ==> |q| == |p| + 1 && Front(q) == p && Last(q) in next
  {
    var kids := Extend(p, next);
    forall c | c in next
      ensures p + [c] in kids
    {
      var i :| 0 <= i < |next| && next[i] == c;
      assert kids[i] == p + [c];
    }
    forall q | q in kids
      ensures |q| == |p| + 1 && Front(q) == p && Last(q) in next
    {
      var i :| 0 <= i < |kids| && kids[i] == q;
      assert q == p + [next[i]];
      assert Front(q) == p;
    }
  }

  /** No route on the stack is a prefix of another, and none occurs twice. */
  ghost predicate PrefixFree(stack: seq<Path>)
  {
    NoDup(stack) && forall a, b :: a in stack && b in stack && a <= b ==> a == b
  }

  /** No recorded route extends a route still on the stack. */
  ghost predicate Apart(stack: seq<Path>, finished: seq<Path>)
  {
    forall q, f :: q in stack && f in finished ==> !(q <= f)
  }

  /** Every popped route had a node for its last cave. */
  ghost predicate LookedUp(g: Graph, done: set<Path>)
  {
    forall d :: d in done ==> |d| > 0 && Last(d) in g
  }

  /** Popping the top of a prefix-free stack leaves a prefix-free stack,
      and the popped route is related to no route left on it. */
  lemma PopShape(rest: seq<Path>, p: Path, finished: seq<Path>)
    requires PrefixFree(rest + [p]) && Apart(rest + [p], finished)
    ensures PrefixFree(rest) && Apart(rest, finished)
    ensures forall q :: q in rest ==> !(q <= p) && !(p <= q)
    ensures forall f :: f in finished ==> !(p <= f)
  {
    var stack := rest + [p];
    assert forall q :: q in rest ==> q in stack;
    assert p in stack;
    forall i, j | 0 <= i < |rest| && 0 <= j < |rest| && i != j
      ensures rest[i] != rest[j]
    {
      assert rest[i] == stack[i] && rest[j] == stack[j];
    }
    forall q | q in rest
      ensures q != p
    {
      var i :| 0 <= i < |rest| && rest[i] == q;
      assert stack[i] == q && stack[|rest|] == p;
    }
  }

  /** Replacing p by its children keeps the stack prefix-free. */
  lemma StackAfterExtend(rest: seq<Path>, p: Path, next: seq<string>)
    requires PrefixFree(rest) && forall q :: q in rest ==> !(q <= p) && !(p <= q)
    requires NoDup(next)
    ensures PrefixFree(rest + Extend(p, next))
  {
    var kids := Extend(p, next);
    ExtendMembers(p, next);
    forall i, j | 0 <= i < |kids| && 0 <= j < |kids| && i != j
      ensures kids[i] != kids[j]
    {
      assert kids[i][|p|] == next[i];
      assert kids[j][|p|] == next[j];
    }
    assert forall q :: q in rest ==> q !in kids;
    NoDupAppend(rest, kids);
    forall a, b | a in rest + kids && b in rest + kids && a <= b
      ensures a == b
    {
      if a in kids && b in kids {
        assert |a| == |b|;
      } else if a in kids {
        ChildPrefix(p, Last(a), b);
      } else if b in kids {
        PrefixOfChild(a, p, Last(b));
      }
    }
  }

  /** Replacing p by its children, and perhaps recording p, keeps the stack
      apart from the recorded routes. */
  lemma ApartAfterExtend(rest: seq<Path>, p: Path, next: seq<string>, finished: seq<Path>, record: bool)
    requires Apart(rest, finished)
    requires forall q :: q in rest ==> !(q <= p) && !(p <= q)
    requires forall f :: f in finished ==> !(p <= f)
    ensures Apart(rest + Extend(p, next), if record then finished + [p] else finished)
  {
    var kids := Extend(p, next);
    ExtendMembers(p, next);
    var finished' := if record then finished + [p] else finished;
    forall q, f | q in rest + kids && f in finished'
      ensures !(q <= f)
    {
      if q in kids && q <= f {
        ChildPrefix(p, Last(q), f);
      }
    }
  }

  lemma RecordNoDup(finished: seq<Path>, p: Path)
    requires NoDup(finished) && forall f :: f in finished ==> !(p <= f)
    ensures NoDup(finished + [p])
  {
    NoDupAppend(finished, [p]);
  }

  /** part_one's search state: the routes on the stack and the routes
      recorded so far, and, as ghost state, the routes already popped. */
  ghost predicate SearchOne(g: Graph, stack: seq<Path>, finished: seq<Path>, done: set<Path>)
  {
    && (forall q :: q in stack ==> ExploredOne(g, q))
    && PrefixFree(stack)
    && (forall f :: f in finished ==> RouteOne(g, f))
    && NoDup(finished)
    && Apart(stack, finished)
    && LookedUp(g, done)
    && (forall d :: d in done && RouteOne(g, d) ==> d in finished)
    && CoveredOne(g, stack, done)
  }

  /** Every explored route has been popped or extends a route on the
      stack. */
  ghost predicate CoveredOne(g: Graph, stack: seq<Path>, done: set<Path>)
  {
    forall r :: ExploredOne(g, r) ==> r in done || exists q :: q in stack && q <= r
  }

  lemma InitOne(g: Graph)
    ensures SearchOne(g, [["start"]], [], {})
  {
    var stack: seq<Path> := [["start"]];
    assert CoveredOne(g, stack, {}) by {
      forall r | ExploredOne(g, r)
        ensures exists q :: q in stack && q <= r
      {
        assert r[..1] == ["start"];
        assert stack[0] in stack && stack[0] <= r;
      }
    }
    assert ExploredOne(g, ["start"]) by {
      assert Front(["start"]) == [];
    }
    assert PrefixFree(stack);
  }

  /** A route that extends p and differs from it is longer. */
  lemma ProperPrefix(p: Path, r: Path)
    requires p <= r && p != r
    ensures |p| < |r| && Front(r)[..|p|] == p
  {
  }

  /** A route that fails the part_one check: nothing explored extends it. */
  lemma CoverDiscardOne(g: Graph, rest: seq<Path>, p: Path, done: set<Path>)
    requires CoveredOne(g, rest + [p], done)
    requires |p| > 0 && !SmallOnce(p)
    ensures CoveredOne(g, rest, done + {p})
  {
    forall r | ExploredOne(g, r) && r !in done + {p}
      ensures exists q :: q in rest && q <= r
    {
      var q :| q in rest + [p] && q <= r;
      if q == p {
        ProperPrefix(p, r);
        SmallOncePrefix(Front(r), |p|);
      } else {
        assert q in rest;
      }
    }
  }

  /** A route that passes the part_one check: every explored route below it
      extends one of its children. */
  lemma CoverExtendOne(g: Graph, rest: seq<Path>, p: Path, next: seq<string>, done: set<Path>)
    requires CoveredOne(g, rest + [p], done)
    requires |p| > 0 && Last(p) in g && forall x :: x in g[Last(p)] ==> x in next
    ensures CoveredOne(g, rest + Extend(p, next), done + {p})
  {
    ExtendMembers(p, next);
    forall r | ExploredOne(g, r) && r !in done + {p}
      ensures exists q :: q in rest + Extend(p, next) && q <= r
    {
      var q :| q in rest + [p] && q <= r;
      if q == p {
        ProperPrefix(p, r);
        WalkContinues(g, p, r);
        assert p + [r[|p|]] in rest + Extend(p, next);
      } else {
        assert q in rest;
        assert q in rest + Extend(p, next);
      }
    }
  }

  lemma KidsExploredOne(g: Graph, p: Path, next: seq<string>)
    requires ExploredOne(g, p) && SmallOnce(p) && Last(p) in g
    requires forall x :: x in next ==> x in g[Last(p)]
    ensures forall q :: q in Extend(p, next) ==> ExploredOne(g, q)
  {
    ExtendMembers(p, next);
    forall q | q in Extend(p, next)
      ensures ExploredOne(g, q)
    {
      KidWalk(g, p, Last(q));
      assert q == p + [Last(q)];
    }
  }

  lemma KidWalk(g: Graph, p: Path, c: string)
    requires Walk(g, p) && Connected(g, Last(p), c)
    ensures Walk(g, p + [c]) && Front(p + [c]) == p
  {
    var q := p + [c];
    forall i | 0 <= i < |q| - 1
      ensures Connected(g, q[i], q[i + 1])
    {
      if i < |p| - 1 {
        assert q[i] == p[i] && q[i + 1] == p[i + 1];
      }
    }
  }

  /** One round of the part_one loop on a popped route that fails the
      check. */
  lemma DiscardOne(g: Graph, rest: seq<Path>, p: Path, finished: seq<Path>, done: set<Path>)
    requires SearchOne(g, rest + [p], finished, done)
    requires |p| > 0 && Last(p) in g && !PassesOne(p)
    ensures SearchOne(g, rest, finished, done + {p})
  {
    assert p in rest + [p];
    PopShape(rest, p, finished);
    SmallOnceExtend(p);
    CoverDiscardOne(g, rest, p, done);
    assert forall q :: q in rest ==> q in rest + [p];
  }

  /** One round of the part_one loop on a popped route that passes the
      check. */
  lemma ExtendOne(g: Graph, rest: seq<Path>, p: Path, next: seq<string>, finished: seq<Path>, done: set<Path>)
    requires SearchOne(g, rest + [p], finished, done)
    requires |p| > 0 && Last(p) in g && PassesOne(p)
    requires NoDup(next) && forall x :: x in next <==> x in g[Last(p)]
    ensures SearchOne(g, rest + Extend(p, next), if Last(p) == "end" then finished + [p] else finished, done + {p})
  {
    var stack := rest + [p];
    var stack' := rest + Extend(p, next);
    var finished' := if Last(p) == "end" then finished + [p] else finished;
    assert p in stack;
    assert ExploredOne(g, p);
    PopShape(rest, p, finished);
    SmallOnceExtend(p);
    StackAfterExtend(rest, p, next);
    ApartAfterExtend(rest, p, next, finished, Last(p) == "end");
    CoverExtendOne(g, rest, p, next, done);
    KidsExploredOne(g, p, next);
    assert forall q :: q in stack' ==> ExploredOne(g, q) by {
      forall q | q in stack'
        ensures ExploredOne(g, q)
      {
        if q in rest {
          assert q in stack;
        }
      }
    }
    if Last(p) == "end" {
      RecordNoDup(finished, p);
    }
    assert forall f :: f in finished' ==> RouteOne(g, f);
    assert LookedUp(g, done + {p});
    assert forall d :: d in done + {p} && RouteOne(g, d) ==> d in finished';
  }

  /** Once the stack is empty, every explored route has been popped. */
  lemma EndOne(g: Graph, finished: seq<Path>, done: set<Path>)
    requires SearchOne(g, [], finished, done)
    ensures forall p :: ExploredOne(g, p) ==> Last(p) in g
    ensures forall p :: p in finished <==> RouteOne(g, p)
  {
  }

  /** The route on top of the search stack is explored. */
  lemma TopOne(g: Graph, stack: seq<Path>, finished: seq<Path>, done: set<Path>)
    requires |stack| > 0 && SearchOne(g, stack, finished, done)
    ensures |stack[|stack| - 1]| > 0 && ExploredOne(g, stack[|stack| - 1])
  {
    assert stack[|stack| - 1] in stack;
  }

  /** Popping a route that fails the part_one check. */
  lemma PopOne(g: Graph, bound: nat, stack: seq<Path>, finished: seq<Path>, done: set<Path>)
    requires |stack| > 0 && SearchOne(g, stack, finished, done)
    requires |stack[|stack| - 1]| > 0 && Last(stack[|stack| - 1]) in g && !PassesOne(stack[|stack| - 1])
    ensures SearchOne(g, stack[..|stack| - 1], finished, done + {stack[|stack| - 1]})
    ensures Weight(|Names(g)| + 1, bound, stack[..|stack| - 1]) < Weight(|Names(g)| + 1, bound, stack)
  {
    var p := stack[|stack| - 1];
    var rest := stack[..|stack| - 1];
    SplitLast(stack);
    DiscardOne(g, rest, p, finished, done);
    PopWeight(|Names(g)| + 1, bound, rest, p);
  }

  /** Popping a route that passes the part_one check and pushing its
      children. */
  lemma PushOne(g: Graph, bound: nat, stack: seq<Path>, finished: seq<Path>, done: set<Path>, next: seq<string>)
    requires NoBigNeighbours(g) && bound == |SmallNames(g)| + 1
    requires |stack| > 0 && SearchOne(g, stack, finished, done)
    requires |stack[|stack| - 1]| > 0 && Last(stack[|stack| - 1]) in g && PassesOne(stack[|stack| - 1])
    requires NoDup(next) && |next| == |g[Last(stack[|stack| - 1])]|
    requires forall x :: x in next <==> x in g[Last(stack[|stack| - 1])]
    ensures var p := stack[|stack| - 1];
      SearchOne(g, stack[..|stack| - 1] + Extend(p, next), if Last(p) == "end" then finished + [p] else finished, done + {p})
    ensures Weight(|Names(g)| + 1, bound, stack[..|stack| - 1] + Extend(stack[|stack| - 1], next)) < Weight(|Names(g)| + 1, bound, stack)
  {
    var p := stack[|stack| - 1];
    var rest := stack[..|stack| - 1];
    SplitLast(stack);
    ExtendOne(g, rest, p, next, finished, done);
    assert p in stack;
    SmallOnceExtend(p);
    WalkNames(g, p);
    SmallCountOnce(p, SmallNames(g));
    ExtendWeight(g, bound, rest, p, next);
  }

  /** The search loop of part_one. None stands for the panic on a popped
      route whose last cave has no node. Otherwise the recorded routes are
      exactly the walks from "start" to "end" through no small cave twice,
      each recorded once. */
  method FindRoutesOne(g: Graph) returns (r: Option<seq<Path>>)
    requires NoBigNeighbours(g)
    ensures r.None? <==> exists p :: ExploredOne(g, p) && Last(p) !in g
    ensures r.Some? ==> NoDup(r.value) && forall p :: p in r.value <==> RouteOne(g, p)
  {
    var stack: seq<Path> := [["start"]];
    var finished: seq<Path> := [];
    ghost var done: set<Path> := {};
    ghost var bound := |SmallNames(g)| + 1;
    InitOne(g);
    while |stack| > 0
      invariant SearchOne(g, stack, finished, done)
      decreases Weight(|Names(g)| + 1, bound, stack)
    {
      var p := stack[|stack| - 1];
      TopOne(g, stack, finished, done);
      var last := p[|p| - 1];
      if last !in g {
        return None;
      }
      if IsSmall(last) && Occurrences(p, last) > 1 {
        PopOne(g, bound, stack, finished, done);
        stack, done := stack[..|stack| - 1], done + {p};
      } else {
        var next := Enumerate(g[last]);
        PushOne(g, bound, stack, finished, done, next);
        stack, finished, done := stack[..|stack| - 1] + Extend(p, next), if last == "end" then finished + [p] else finished, done + {p};
      }
    }
    EndOne(g, finished, done);
    return Some(finished);
  }

  /** part_one: the number of routes the search records. */
  method PartOne(g: Graph) returns (r: Option<nat>)
    requires NoBigNeighbours(g)
    ensures r.None? <==> exists p :: ExploredOne(g, p) && Last(p) !in g
    ensures r.Some? ==>
      exists routes :: NoDup(routes) && r.value == |routes| && forall p :: p in routes <==> RouteOne(g, p)
  {
    var found := FindRoutesOne(g);
    match found
    case None => r := None;
    case Some(routes) => r := Some(|routes|);
  }

  /** part_two's stack entry: a path and whether it already passed a small
      cave twice. */
  datatype Route = Route(path: Path, doubled: bool)

  function Paths(stack: seq<Route>): (r: seq<Path>)
    ensures |r| == |stack|
    ensures forall i :: 0 <= i < |stack| ==> r[i] == stack[i].path
  {
    seq(|stack|, i requires 0 <= i < |stack| => stack[i].path)
  }

  lemma PathsAppend(a: seq<Route>, b: seq<Route>)
    ensures Paths(a + b) == Paths(a) + Paths(b)
  {
    assert forall i :: 0 <= i < |a| + |b| ==> Paths(a + b)[i] == (Paths(a) + Paths(b))[i];
  }

  /** The children of a part_two route, all carrying the same flag. */
  function ExtendRoutes(p: Path, doubled: bool, next: seq<string>): (r: seq<Route>)
    ensures Paths(r) == Extend(p, next)
    ensures forall q :: q in r ==> q.doubled == doubled
  {
    var r := seq(|next|, i requires 0 <= i < |next| => Route(p + [next[i]], doubled));
    assert forall i :: 0 <= i < |next| ==> Paths(r)[i] == Extend(p, next)[i];
    r
  }

  /** part_two's search state, as for part_one: the flag of every route on
      the stack records whether its front doubled a small cave, and the
      paths on the stack, the recorded paths and, as ghost state, the paths
      already popped keep the shape of ShapeTwo. */
  ghost predicate SearchTwo(g: Graph, stack: seq<Route>, finished: seq<Path>, done: set<Path>)
  {
    FlagsTwo(g, stack) && ShapeTwo(g, Paths(stack), finished, done)
  }

  ghost predicate FlagsTwo(g: Graph, stack: seq<Route>)
  {
    forall q :: q in stack ==> ExploredTwo(g, q.path) && q.doubled == HasDouble(Front(q.path))
  }

  ghost predicate ShapeTwo(g: Graph, stack: seq<Path>, finished: seq<Path>, done: set<Path>)
  {
    && PrefixFree(stack)
    && (forall f :: f in finished ==> RouteTwo(g, f))
    && NoDup(finished)
    && Apart(stack, finished)
    && LookedUp(g, done)
    && (forall d :: d in done && RouteTwo(g, d) ==> d in finished)
    && CoveredTwo(g, stack, done)
  }

  /** Every explored route has been popped or extends a route on the
      stack. */
  ghost predicate CoveredTwo(g: Graph, stack: seq<Path>, done: set<Path>)
  {
    forall r :: ExploredTwo(g, r) ==> r in done || exists q :: q in stack && q <= r
  }

  lemma InitTwo(g: Graph)
    ensures SearchTwo(g, [Route(["start"], false)], [], {})
  {
    var stack: seq<Path> := [["start"]];
    assert Paths([Route(["start"], false)]) == stack;
    assert CoveredTwo(g, stack, {}) by {
      forall r | ExploredTwo(g, r)
        ensures exists q :: q in stack && q <= r
      {
        assert r[..1] == ["start"];
        assert stack[0] in stack && stack[0] <= r;
      }
    }
    assert ExploredTwo(g, ["start"]) && !HasDouble(Front(["start"])) by {
      assert Front(["start"]) == [];
    }
    assert PrefixFree(stack);
  }

  /** A route that fails the part_two check: nothing explored extends it. */
  lemma CoverDiscardTwo(g: Graph, rest: seq<Path>, p: Path, done: set<Path>)
    requires CoveredTwo(g, rest + [p], done)
    requires |p| > 0 && !SmallTwice(p)
    ensures CoveredTwo(g, rest, done + {p})
  {
    forall r | ExploredTwo(g, r) && r !in done + {p}
      ensures exists q :: q in rest && q <= r
    {
      var q :| q in rest + [p] && q <= r;
      if q == p {
        ProperPrefix(p, r);
        SmallTwicePrefix(Front(r), |p|);
      } else {
        assert q in rest;
      }
    }
  }

  /** A route that reaches "end": part_two goes no further, and no explored
      route passes through "end". */
  lemma CoverFinishTwo(g: Graph, rest: seq<Path>, p: Path, done: set<Path>)
    requires CoveredTwo(g, rest + [p], done)
    requires |p| > 0 && Last(p) == "end"
    ensures CoveredTwo(g, rest, done + {p})
  {
    forall r | ExploredTwo(g, r) && r !in done + {p}
      ensures exists q :: q in rest && q <= r
    {
      var q :| q in rest + [p] && q <= r;
      if q == p {
        ProperPrefix(p, r);
      } else {
        assert q in rest;
      }
    }
  }

  lemma CoverExtendTwo(g: Graph, rest: seq<Path>, p: Path, next: seq<string>, done: set<Path>)
    requires CoveredTwo(g, rest + [p], done)
    requires |p| > 0 && Last(p) in g && forall x :: x in g[Last(p)] ==> x in next
    ensures CoveredTwo(g, rest + Extend(p, next), done + {p})
  {
    ExtendMembers(p, next);
    forall r | ExploredTwo(g, r) && r !in done + {p}
      ensures exists q :: q in rest + Extend(p, next) && q <= r
    {
      var q :| q in rest + [p] && q <= r;
      if q == p {
        ProperPrefix(p, r);
        WalkContinues(g, p, r);
        assert p + [r[|p|]] in rest + Extend(p, next);
      } else {
        assert q in rest;
        assert q in rest + Extend(p, next);
      }
    }
  }

  /** The children part_two pushes are explored and carry the right flag. */
  lemma KidsExploredTwo(g: Graph, p: Path, doubled: bool, next: seq<string>)
    requires ExploredTwo(g, p) && SmallTwice(p) && Last(p) in g && Last(p) != "end"
    requires doubled == HasDouble(p)
    requires forall x :: x in next ==> x in g[Last(p)]
    ensures FlagsTwo(g, ExtendRoutes(p, doubled, next))
  {
    var kids := ExtendRoutes(p, doubled, next);
    assert "end" !in p by {
      assert p == Front(p) + [Last(p)];
    }
    forall q | q in kids
      ensures ExploredTwo(g, q.path) && q.doubled == HasDouble(Front(q.path))
    {
      var i :| 0 <= i < |kids| && kids[i] == q;
      assert q == Route(p + [next[i]], doubled);
      KidTwo(g, p, next[i]);
    }
  }

  /** A child of an explored route through a neighbour of its last cave
      is explored, its front being the route. */
  lemma KidTwo(g: Graph, p: Path, c: string)
    requires ExploredTwo(g, p) && SmallTwice(p) && Last(p) in g && "end" !in p
    requires c in g[Last(p)]
    ensures ExploredTwo(g, p + [c]) && Front(p + [c]) == p
  {
    KidWalk(g, p, c);
  }

  /** Popping the top route keeps the flags of the others. */
  lemma FlagsPop(g: Graph, rest: seq<Route>, q: Route)
    requires FlagsTwo(g, rest + [q])
    ensures FlagsTwo(g, rest)
    ensures ExploredTwo(g, q.path) && q.doubled == HasDouble(Front(q.path))
  {
    assert q in rest + [q];
    assert forall r :: r in rest ==> r in rest + [q];
  }

  lemma FlagsAppend(g: Graph, a: seq<Route>, b: seq<Route>)
    requires FlagsTwo(g, a) && FlagsTwo(g, b)
    ensures FlagsTwo(g, a + b)
  {
    assert forall r :: r in a + b ==> r in a || r in b;
  }

  /** The paths of the stack with the top route split off. */
  lemma PathsTop(rest: seq<Route>, q: Route)
    ensures Paths(rest + [q]) == Paths(rest) + [q.path]
  {
    PathsAppend(rest, [q]);
  }

  /** Recording a popped route that reaches "end". */
  lemma FinishShape(g: Graph, rest: seq<Path>, p: Path, finished: seq<Path>, done: set<Path>)
    requires ShapeTwo(g, rest + [p], finished, done)
    requires ExploredTwo(g, p) && Last(p) == "end" && "end" in g
    ensures ShapeTwo(g, rest, finished + [p], done + {p})
  {
    PopShape(rest, p, finished);
    CoverFinishTwo(g, rest, p, done);
    RecordNoDup(finished, p);
    ApartAfterExtend(rest, p, [], finished, true);
    assert rest + Extend(p, []) == rest;
    assert forall f :: f in finished + [p] ==> RouteTwo(g, f);
    assert LookedUp(g, done + {p});
  }

  /** Dropping a popped route that fails the part_two check. */
  lemma DiscardShape(g: Graph, rest: seq<Path>, p: Path, finished: seq<Path>, done: set<Path>)
    requires ShapeTwo(g, rest + [p], finished, done)
    requires |p| > 0 && Last(p) in g && Last(p) != "end" && !SmallTwice(p)
    ensures ShapeTwo(g, rest, finished, done + {p})
  {
    PopShape(rest, p, finished);
    CoverDiscardTwo(g, rest, p, done);
    assert LookedUp(g, done + {p});
  }

  /** Replacing a popped route that passes the part_two check by its
      children. */
  lemma ExtendShape(g: Graph, rest: seq<Path>, p: Path, next: seq<string>, finished: seq<Path>, done: set<Path>)
    requires ShapeTwo(g, rest + [p], finished, done)
    requires |p| > 0 && Last(p) in g && Last(p) != "end"
    requires NoDup(next) && forall x :: x in next <==> x in g[Last(p)]
    ensures ShapeTwo(g, rest + Extend(p, next), finished, done + {p})
  {
    PopShape(rest, p, finished);
    StackAfterExtend(rest, p, next);
    ApartAfterExtend(rest, p, next, finished, false);
    CoverExtendTwo(g, rest, p, next, done);
    assert LookedUp(g, done + {p});
  }

  lemma TopTwo(g: Graph, stack: seq<Route>, finished: seq<Path>, done: set<Path>)
    requires |stack| > 0 && SearchTwo(g, stack, finished, done)
    ensures var q := stack[|stack| - 1];
      |q.path| > 0 && ExploredTwo(g, q.path) && q.doubled == HasDouble(Front(q.path))
  {
    assert stack[|stack| - 1] in stack;
  }

  /** One round of the part_two loop on a popped route that reaches "end". */
  lemma StopTwo(g: Graph, bound: nat, stack: seq<Route>, finished: seq<Path>, done: set<Path>)
    requires |stack| > 0 && SearchTwo(g, stack, finished, done)
    requires |stack[|stack| - 1].path| > 0 && Last(stack[|stack| - 1].path) == "end" && "end" in g
    ensures SearchTwo(g, stack[..|stack| - 1], finished + [stack[|stack| - 1].path], done + {stack[|stack| - 1].path})
    ensures Weight(|Names(g)| + 1, bound, Paths(stack[..|stack| - 1])) < Weight(|Names(g)| + 1, bound, Paths(stack))
  {
    var q := stack[|stack| - 1];
    var rest := stack[..|stack| - 1];
    SplitLast(stack);
    PathsTop(rest, q);
    FlagsPop(g, rest, q);
    FinishShape(g, Paths(rest), q.path, finished, done);
    PopWeight(|Names(g)| + 1, bound, Paths(rest), q.path);
  }

  /** One round of the part_two loop on a popped route that repeats a small
      cave when one was already doubled. */
  lemma DropTwo(g: Graph, bound: nat, stack: seq<Route>, finished: seq<Path>, done: set<Path>)
    requires |stack| > 0 && SearchTwo(g, stack, finished, done)
    requires var q := stack[|stack| - 1];
      |q.path| > 0 && Last(q.path) in g && Last(q.path) != "end" && !PassesTwo(q.path, q.doubled)
    ensures SearchTwo(g, stack[..|stack| - 1], finished, done + {stack[|stack| - 1].path})
    ensures Weight(|Names(g)| + 1, bound, Paths(stack[..|stack| - 1])) < Weight(|Names(g)| + 1, bound, Paths(stack))
  {
    var q := stack[|stack| - 1];
    var rest := stack[..|stack| - 1];
    SplitLast(stack);
    PathsTop(rest, q);
    FlagsPop(g, rest, q);
    SmallTwiceExtend(q.path, q.doubled);
    DiscardShape(g, Paths(rest), q.path, finished, done);
    PopWeight(|Names(g)| + 1, bound, Paths(rest), q.path);
  }

  /** One round of the part_two loop on a popped route that passes the
      check: its children are pushed with the updated flag. */
  lemma PushTwo(g: Graph, bound: nat, stack: seq<Route>, finished: seq<Path>, done: set<Path>, doubled: bool, next: seq<string>)
    requires NoBigNeighbours(g) && bound == |SmallNames(g)| + 2
    requires |stack| > 0 && SearchTwo(g, stack, finished, done)
    requires var q := stack[|stack| - 1];
      |q.path| > 0 && Last(q.path) in g && Last(q.path) != "end" && PassesTwo(q.path, q.doubled)
    requires var q := stack[|stack| - 1];
      doubled == (q.doubled || (IsSmall(Last(q.path)) && Occurrences(q.path, Last(q.path)) > 1))
    requires var p := stack[|stack| - 1].path;
      NoDup(next) && |next| == |g[Last(p)]| && forall x :: x in next <==> x in g[Last(p)]
    ensures var p := stack[|stack| - 1].path;
      SearchTwo(g, stack[..|stack| - 1] + ExtendRoutes(p, doubled, next), finished, done + {p})
    ensures var p := stack[|stack| - 1].path;
      Weight(|Names(g)| + 1, bound, Paths(stack[..|stack| - 1] + ExtendRoutes(p, doubled, next)))
        < Weight(|Names(g)| + 1, bound, Paths(stack))
  {
    var q := stack[|stack| - 1];
    var p := q.path;
    var rest := stack[..|stack| - 1];
    var kids := ExtendRoutes(p, doubled, next);
    SplitLast(stack);
    PathsTop(rest, q);
    PathsAppend(rest, kids);
    FlagsPop(g, rest, q);
    SmallTwiceExtend(p, q.doubled);
    KidsExploredTwo(g, p, doubled, next);
    FlagsAppend(g, rest, kids);
    ExtendShape(g, Paths(rest), p, next, finished, done);
    WalkNames(g, p);
    SmallCountTwice(p, SmallNames(g));
    ExtendWeight(g, bound, Paths(rest), p, next);
  }

  /** The search loop of part_two. None stands for the panic on a popped
      route whose last cave has no node. Otherwise the recorded routes are
      exactly the walks from "start" to "end" that do not pass through
      "end" and pass at most one small cave twice, each recorded once. */
  method FindRoutesTwo(g: Graph) returns (r: Option<seq<Path>>)
    requires NoBigNeighbours(g)
    ensures r.None? <==> exists p :: ExploredTwo(g, p) && Last(p) !in g
    ensures r.Some? ==> NoDup(r.value) && forall p :: p in r.value <==> RouteTwo(g, p)
  {
    var stack: seq<Route> := [Route(["start"], false)];
    var finished: seq<Path> := [];
    ghost var done: set<Path> := {};
    ghost var bound := |SmallNames(g)| + 2;
    InitTwo(g);
    while |stack| > 0
      invariant SearchTwo(g, stack, finished, done)
      decreases Weight(|Names(g)| + 1, bound, Paths(stack))
    {
      var q := stack[|stack| - 1];
      TopTwo(g, stack, finished, done);
      var p := q.path;
      var last := p[|p| - 1];
      if last !in g {
        return None;
      }
      if last == "end" {
        StopTwo(g, bound, stack, finished, done);
        stack, finished, done := stack[..|stack| - 1], finished + [p], done + {p};
      } else if IsSmall(last) && Occurrences(p, last) > 1 && q.doubled {
        DropTwo(g, bound, stack, finished, done);
        stack, done := stack[..|stack| - 1], done + {p};
      } else {
        var doubled := if IsSmall(last) && Occurrences(p, last) > 1 then true else q.doubled;
        var next := Enumerate(g[last]);
        PushTwo(g, bound, stack, finished, done, doubled, next);
        stack, done := stack[..|stack| - 1] + ExtendRoutes(p, doubled, next), done + {p};
      }
    }
    EndTwo(g, finished, done);
    return Some(finished);
  }

  lemma EndTwo(g: Graph, finished: seq<Path>, done: set<Path>)
    requires SearchTwo(g, [], finished, done)
    ensures forall p :: ExploredTwo(g, p) ==> Last(p) in g
    ensures forall p :: p in finished <==> RouteTwo(g, p)
  {
    assert Paths([]) == [];
  }

  /** part_two: the number of routes the search records. */
  method PartTwo(g: Graph) returns (r: Option<nat>)
    requires NoBigNeighbours(g)
    ensures r.None? <==> exists p :: ExploredTwo(g, p) && Last(p) !in g
    ensures r.Some? ==>
      exists routes :: NoDup(routes) && r.value == |routes| && forall p :: p in routes <==> RouteTwo(g, p)
  {
    var found := FindRoutesTwo(g);
    match found
    case None => r := None;
    case Some(routes) => r := Some(|routes|);
  }

  /** A route part_one records starts at "start", ends at "end", passes
      through "end" only there and repeats no small cave. */
  lemma RouteOneFacts(g: Graph, p: Path)
    requires RouteOne(g, p)
    ensures p[0] == "start" && p[|p| - 1] == "end"
    ensures Occurrences(p, "end") == 1
    ensures forall i :: 0 <= i < |p| && IsSmall(p[i]) ==> Occurrences(p, p[i]) == 1
  {
    KindExamples();
    forall i | 0 <= i < |p| && IsSmall(p[i])
      ensures Occurrences(p, p[i]) == 1
    {
      assert p[i] in p;
      OccurrencesZero(p, p[i]);
    }
    assert Occurrences(p, p[|p| - 1]) == 1;
  }

  /** A route part_two records starts at "start", meets "end" only as its
      last cave, passes no small cave three times and at most one small
      cave twice. */
  lemma RouteTwoFacts(g: Graph, p: Path)
    requires RouteTwo(g, p)
    ensures p[0] == "start" && p[|p| - 1] == "end"
    ensures Occurrences(p, "end") == 1
    ensures forall i :: 0 <= i < |p| && IsSmall(p[i]) ==> Occurrences(p, p[i]) <= 2
    ensures forall i, j ::
      (0 <= i < |p| && 0 <= j < |p| && IsSmall(p[i]) && IsSmall(p[j])
       && Occurrences(p, p[i]) == 2 && Occurrences(p, p[j]) == 2) ==> p[i] == p[j]
  {
    OccurrencesLast(p, "end");
    OccurrencesZero(Front(p), "end");
    assert PassesTwo(p, HasDouble(Front(p)));
    SmallTwiceExtend(p, HasDouble(Front(p)));
  }

  /** A cave joined only to "start" gets no node, so a route reaching it
      ends the search in the panic at the lookup. */
  lemma DeadEndPanics()
    ensures var g := Parse([("start", "b")]);
      "b" !in g && ExploredOne(g, ["start", "b"]) && ExploredTwo(g, ["start", "b"])
  {
    var edges := [("start", "b")];
    var g := Parse(edges);
    ParseKeys(edges, "b");
    assert Connected(g, "start", "b") by {
      assert Joins(edges[0], "start", "b");
    }
    assert Front(["start", "b"]) == ["start"];
    assert Occurrences(["start"], "start") == 1;
  }
}
