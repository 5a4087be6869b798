/** Day 9: a height map of digits; low points are the cells lower than every
    orthogonal neighbour, and each low point's basin is what a flood fill
    from it reaches through cells of height below nine. */
module Basin {
  import opened Common

  type Pos = (int, int)

  /** The height map, stored row by row: the height at column x, row y is
      numbers[cols * y + x]. */
  datatype Field = Field(numbers: seq<nat>, rows: nat, cols: nat)

  predicate Valid(f: Field)
  {
    |f.numbers| == f.rows * f.cols
  }

  predicate Within(f: Field, x: int, y: int)
  {
    0 <= x < f.cols && 0 <= y < f.rows
  }

  /** The digits of every line, in order. */
  function DigitLines(lines: seq<string>): seq<seq<nat>>
    requires forall i, j :: 0 <= i < |lines| && 0 <= j < |lines[i]| ==> IsDigit(lines[i][j])
  {
    seq(|lines|, i requires 0 <= i < |lines| => seq(|lines[i]|, j requires 0 <= j < |lines[i]| => Digit(lines[i][j])))
  }

  /** `Field::from_str` on the input split into lines: None where the source
      panics, on an empty input or a character that is not a digit; the
      width is that of the first line. */
  function FromLines(lines: seq<string>): (r: Option<Field>)
    ensures r.None? <==> |lines| == 0 || exists i, j :: 0 <= i < |lines| && 0 <= j < |lines[i]| && !IsDigit(lines[i][j])
    ensures r.Some? ==> r.value.rows == |lines| && r.value.cols == |lines[0]|
  {
    if |lines| == 0 then None
    else if exists i, j :: 0 <= i < |lines| && 0 <= j < |lines[i]| && !IsDigit(lines[i][j]) then None
    else Some(Field(Flatten(DigitLines(lines)), |lines|, |lines[0]|))
  }

  /** Lines of equal width give a well-formed map whose height at (x, y) is
      the digit at line y, place x. */
  lemma FromLinesGrid(lines: seq<string>, x: nat, y: nat)
    requires FromLines(lines).Some?
    requires forall i :: 0 <= i < |lines| ==> |lines[i]| == |lines[0]|
    requires y < |lines| && x < |lines[0]|
    ensures Valid(FromLines(lines).value)
    ensures Get(FromLines(lines).value, x, y) == Some(Digit(lines[y][x]))
  {
    var f := FromLines(lines).value;
    FlattenIndex(DigitLines(lines), f.cols, y, x);
  }

  /** `get`: the height at (x, y), or None off the map. */
  function Get(f: Field, x: int, y: int): (r: Option<nat>)
    requires Valid(f)
    ensures r.Some? <==> Within(f, x, y)
  {
    if x < f.cols && 0 <= x && y < f.rows && 0 <= y then
      RowMajorFacts(f.rows, f.cols, x, y);
      Some(f.numbers[f.cols * y + x])
    else None
  }

  /** The four orthogonal steps, in the order the source tries them. */
  const Steps: seq<Pos> := [(0, 1), (0, -1), (1, 0), (-1, 0)]

  function Step(p: Pos, k: nat): Pos
    requires k < 4
  {
    (p.0 + Steps[k].0, p.1 + Steps[k].1)
  }

  /** The neighbour at (x, y) is off the map or higher than h. */
  predicate Higher(f: Field, h: nat, x: int, y: int)
    requires Valid(f)
  {
    Get(f, x, y).None? || h < Get(f, x, y).value
  }

  /** A low point: on the map and strictly lower than each of its up to
      four neighbours on the map. */
  predicate IsLow(f: Field, p: Pos)
    requires Valid(f)
  {
    Within(f, p.0, p.1)
    && var h := Get(f, p.0, p.1).value;
    Higher(f, h, p.0, p.1 + 1) && Higher(f, h, p.0, p.1 - 1)
    && Higher(f, h, p.0 + 1, p.1) && Higher(f, h, p.0 - 1, p.1)
  }

  /** The order `get_low_points` visits cells in: column by column. */
  predicate Before(p: Pos, q: Pos)
  {
    p.0 < q.0 || (p.0 == q.0 && p.1 < q.1)
  }

  predicate Ordered(s: seq<Pos>)
  {
    forall i, j :: 0 <= i < j < |s| ==> Before(s[i], s[j])
  }

  /** Whether the cell at p is lower than its neighbours, trying the four
      steps in turn and giving up at the first neighbour that is not
      higher. */
  method CheckLow(f: Field, p: Pos) returns (low: bool)
    requires Valid(f) && Within(f, p.0, p.1)
    ensures low <==> IsLow(f, p)
  {
    var number := Get(f, p.0, p.1).value;
    var d := 0;
    while d < 4 && Higher(f, number, Step(p, d).0, Step(p, d).1)
      invariant 0 <= d <= 4
      invariant forall e :: 0 <= e < d ==> Higher(f, number, Step(p, e).0, Step(p, e).1)
    {
      d := d + 1;
    }
    low := d == 4;
    assert Step(p, 0) == (p.0, p.1 + 1) && Step(p, 1) == (p.0, p.1 - 1);
    assert Step(p, 2) == (p.0 + 1, p.1) && Step(p, 3) == (p.0 - 1, p.1);
  }

  /** `get_low_points`: every low point once, column by column. */
  method LowPoints(f: Field) returns (low: seq<Pos>)
    requires Valid(f)
    ensures forall p :: p in low <==> IsLow(f, p)
    ensures Ordered(low)
  {
    low := [];
    for x := 0 to f.cols
      invariant forall p :: p in low <==> p.0 < x && IsLow(f, p)
      invariant Ordered(low)
    {
      for y := 0 to f.rows
        invariant forall p :: p in low <==> (p.0 < x || (p.0 == x && p.1 < y)) && IsLow(f, p)
        invariant Ordered(low)
      {
        var isLow := CheckLow(f, (x, y));
        if isLow {
          low := low + [(x, y)];
        }
      }
    }
  }

  /** A list of the low points, each once, in any order. */
  ghost predicate LowList(f: Field, pts: seq<Pos>)
    requires Valid(f)
  {
    NoDup(pts) && forall p :: p in pts <==> IsLow(f, p)
  }

  lemma OrderedNoDup(s: seq<Pos>)
    requires Ordered(s)
    ensures NoDup(s)
  {
  }

  /** The risk level of a cell: its height plus one. */
  function RiskLevel(f: Field, p: Pos): nat
    requires Valid(f)
  {
    match Get(f, p.0, p.1)
    case Some(h) => h + 1
    case None => 0
  }

  function RiskSum(f: Field, pts: seq<Pos>): nat
    requires Valid(f)
  {
    if |pts| == 0 then 0 else RiskSum(f, pts[..|pts| - 1]) + RiskLevel(f, pts[|pts| - 1])
  }

  lemma {:induction false} RiskSumAppend(f: Field, a: seq<Pos>, b: seq<Pos>)
    requires Valid(f)
    ensures RiskSum(f, a + b) == RiskSum(f, a) + RiskSum(f, b)
    decreases |b|
  {
    if |b| == 0 {
      assert a + b == a;
    } else {
      assert (a + b)[..|a + b| - 1] == a + b[..|b| - 1];
      RiskSumAppend(f, a, b[..|b| - 1]);
    }
  }

  /** Removing x from b, where a ends in x and holds what b holds, leaves
      a list that holds what the rest of a holds. */
  lemma RemoveMatch(a: seq<Pos>, b: seq<Pos>, j: nat, rest: seq<Pos>)
    requires NoDup(a) && NoDup(b) && |a| > 0
    requires forall p :: p in a <==> p in b
    requires j < |b| && b[j] == a[|a| - 1] && rest == b[..j] + b[j + 1..]
    ensures NoDup(rest)
    ensures forall p :: p in a[..|a| - 1] <==> p in rest
  {
    var n := |a| - 1;
    var x := a[n];
    forall p | p in a[..n]
      ensures p in rest
    {
      var i :| 0 <= i < n && a[..n][i] == p;
      assert a[i] == p && p != x;
      assert p in b;
      var k :| 0 <= k < |b| && b[k] == p;
      if k < j {
        assert rest[k] == p;
      } else {
        assert rest[k - 1] == p;
      }
    }
    forall p | p in rest
      ensures p in a[..n]
    {
      var k :| 0 <= k < |rest| && rest[k] == p;
      var bk := if k < j then k else k + 1;
      assert b[bk] == p && p != x;
      assert p in a;
      var i :| 0 <= i < |a| && a[i] == p;
      assert a[..n][i] == p;
    }
    forall i, k | 0 <= i < k < |rest|
      ensures rest[i] != rest[k]
    {
      var bi := if i < j then i else i + 1;
      var bk := if k < j then k else k + 1;
      assert rest[i] == b[bi] && rest[k] == b[bk];
    }
  }

  lemma HeadIn(b: seq<Pos>)
    requires |b| > 0
    ensures b[0] in b
  {
  }

  /** Taking the j-th point out of a list takes its risk level out of the
      sum. */
  lemma RiskSumRemove(f: Field, b: seq<Pos>, j: nat)
    requires Valid(f) && j < |b|
    ensures RiskSum(f, b) == RiskSum(f, b[..j] + b[j + 1..]) + RiskLevel(f, b[j])
  {
    var x := b[j];
    assert b == b[..j] + [x] + b[j + 1..];
    RiskSumAppend(f, b[..j] + [x], b[j + 1..]);
    RiskSumAppend(f, b[..j], [x]);
    RiskSumAppend(f, b[..j], b[j + 1..]);
    assert [x][..0] == [];
  }

  /** The risk sum does not depend on the order the points are listed in. */
  lemma {:induction false} RiskSumOrderFree(f: Field, a: seq<Pos>, b: seq<Pos>)
    requires Valid(f) && NoDup(a) && NoDup(b)
    requires forall p :: p in a <==> p in b
    ensures RiskSum(f, a) == RiskSum(f, b)
    decreases |a|
  {
    if |a| > 0 {
      var n := |a| - 1;
      var x := a[n];
      assert x in b;
      var j :| 0 <= j < |b| && b[j] == x;
      var rest := b[..j] + b[j + 1..];
      RemoveMatch(a, b, j, rest);
      RiskSumOrderFree(f, a[..n], rest);
      RiskSumRemove(f, b, j);
      assert RiskSum(f, a) == RiskSum(f, a[..n]) + RiskLevel(f, x);
    } else if |b| > 0 {
      HeadIn(b);
      assert false;
    }
  }

  /** `part_one`: the total risk level of the low points. */
  method PartOne(f: Field) returns (r: nat)
    requires Valid(f)
    ensures forall pts :: LowList(f, pts) ==> r == RiskSum(f, pts)
  {
    var low := LowPoints(f);
    r := 0;
    for i := 0 to |low|
      invariant r == RiskSum(f, low[..i])
    {
      assert low[..i + 1][..i] == low[..i];
      assert low[i] in low;
      r := r + Get(f, low[i].0, low[i].1).value + 1;
    }
    assert low[..|low|] == low;
    OrderedNoDup(low);
    forall pts | LowList(f, pts)
      ensures r == RiskSum(f, pts)
    {
      RiskSumOrderFree(f, low, pts);
    }
  }

  /** A cell that belongs to a basin: on the map and below nine. */
  predicate Open(f: Field, p: Pos)
    requires Valid(f)
  {
    Get(f, p.0, p.1).Some? && Get(f, p.0, p.1).value < 9
  }

  /** q is one orthogonal step from p. */
  predicate Adjacent(p: Pos, q: Pos)
  {
    exists k :: 0 <= k < 4 && Step(p, k) == q
  }

  /** A walk through open cells, one orthogonal step at a time. */
  ghost predicate IsPath(f: Field, path: seq<Pos>)
    requires Valid(f)
  {
    |path| > 0
    && (forall i :: 0 <= i < |path| ==> Open(f, path[i]))
    && forall i :: 0 <= i < |path| - 1 ==> Adjacent(path[i], path[i + 1])
  }

  ghost predicate Reachable(f: Field, start: Pos, p: Pos)
    requires Valid(f)
  {
    exists path :: IsPath(f, path) && path[0] == start && path[|path| - 1] == p
  }

  /** The basin of start: every cell reachable from it through open cells. */
  ghost function BasinOf(f: Field, start: Pos): set<Pos>
    requires Valid(f)
  {
    set x, y | 0 <= x < f.cols && 0 <= y < f.rows && Reachable(f, start, (x, y)) :: (x, y)
  }

  /** The positions the fill can ever queue: the map with a one-cell border,
      and the start. */
  function Frame(f: Field, start: Pos): set<Pos>
  {
    (set x, y | -1 <= x <= f.cols && -1 <= y <= f.rows :: (x, y)) + {start}
  }

  /** The fill's bookkeeping stays inside the frame, and the cells it has
      counted are exactly the open cells it has visited. */
  ghost predicate Kept(f: Field, start: Pos, visited: set<Pos>, que: seq<Pos>, basin: set<Pos>)
    requires Valid(f)
  {
    visited <= Frame(f, start)
    && (forall i :: 0 <= i < |que| ==> que[i] in Frame(f, start))
    && (forall p :: p in basin <==> p in visited && Open(f, p))
  }

  /** Everything counted is reachable, and everything queued is the start
      or next to a counted cell. */
  ghost predicate Sound(f: Field, start: Pos, que: seq<Pos>, basin: set<Pos>)
    requires Valid(f)
  {
    (forall p :: p in basin ==> Reachable(f, start, p))
    && forall i :: 0 <= i < |que| ==> que[i] == start || exists b :: b in basin && Adjacent(b, que[i])
  }

  /** Nothing is missed: the start and every neighbour of a counted cell has
      been visited or is still queued. */
  ghost predicate Closed(f: Field, start: Pos, visited: set<Pos>, que: seq<Pos>, basin: set<Pos>)
  {
    (start in visited || start in que)
    && forall b, k :: b in basin && 0 <= k < 4 ==> Step(b, k) in visited || Step(b, k) in que
  }

  ghost predicate FillInv(f: Field, start: Pos, visited: set<Pos>, que: seq<Pos>, basin: set<Pos>)
    requires Valid(f)
  {
    Kept(f, start, visited, que, basin) && Sound(f, start, que, basin) && Closed(f, start, visited, que, basin)
  }

  /** What was queued before a pop is the popped position or still queued. */
  lemma Popped(que: seq<Pos>)
    requires |que| > 0
    ensures forall q :: q in que ==> q == que[|que| - 1] || q in que[..|que| - 1]
    ensures forall i :: 0 <= i < |que| - 1 ==> que[..|que| - 1][i] == que[i]
  {
    var rest := que[..|que| - 1];
    forall q | q in que
      ensures q == que[|que| - 1] || q in rest
    {
      var i :| 0 <= i < |que| && que[i] == q;
      if i < |rest| {
        assert rest[i] == q;
      }
    }
  }

  /** Popping a position already visited keeps the invariant. */
  lemma SkipVisited(f: Field, start: Pos, visited: set<Pos>, que: seq<Pos>, basin: set<Pos>)
    requires Valid(f) && |que| > 0 && FillInv(f, start, visited, que, basin)
    requires que[|que| - 1] in visited
    ensures FillInv(f, start, visited, que[..|que| - 1], basin)
  {
    var rest := que[..|que| - 1];
    Popped(que);
    assert Kept(f, start, visited, rest, basin);
    assert Sound(f, start, rest, basin);
    assert Closed(f, start, visited, rest, basin);
  }

  /** A cell next to a reachable cell, and open itself, is reachable. */
  lemma ReachOn(f: Field, start: Pos, b: Pos, p: Pos)
    requires Valid(f) && Reachable(f, start, b) && Adjacent(b, p) && Open(f, p)
    ensures Reachable(f, start, p)
  {
    var path :| IsPath(f, path) && path[0] == start && path[|path| - 1] == b;
    var longer := path + [p];
    assert longer[|longer| - 1] == p;
    assert IsPath(f, longer);
  }

  /** Visiting a closed or off-map cell only marks it visited. */
  lemma VisitShut(f: Field, start: Pos, visited: set<Pos>, que: seq<Pos>, basin: set<Pos>)
    requires Valid(f) && |que| > 0 && FillInv(f, start, visited, que, basin)
    requires que[|que| - 1] !in visited && !Open(f, que[|que| - 1])
    ensures FillInv(f, start, visited + {que[|que| - 1]}, que[..|que| - 1], basin)
  {
    var pos := que[|que| - 1];
    var rest := que[..|que| - 1];
    Popped(que);
    assert pos in Frame(f, start);
    assert Kept(f, start, visited + {pos}, rest, basin);
    assert Sound(f, start, rest, basin);
    assert Closed(f, start, visited + {pos}, rest, basin);
  }

  /** The four neighbours of pos, in the order they are queued. */
  function Around(pos: Pos): seq<Pos>
  {
    [Step(pos, 0), Step(pos, 1), Step(pos, 2), Step(pos, 3)]
  }

  lemma AroundAt(rest: seq<Pos>, pos: Pos)
    ensures forall i :: 0 <= i < |rest| ==> (rest + Around(pos))[i] == rest[i]
    ensures forall k :: 0 <= k < 4 ==> (rest + Around(pos))[|rest| + k] == Step(pos, k)
  {
  }

  lemma VisitOpenKept(f: Field, start: Pos, visited: set<Pos>, rest: seq<Pos>, pos: Pos, basin: set<Pos>)
    requires Valid(f) && Kept(f, start, visited, rest + [pos], basin) && Open(f, pos)
    ensures Kept(f, start, visited + {pos}, rest + Around(pos), basin + {pos})
  {
    var que := rest + [pos];
    assert que[|rest|] == pos;
    AroundAt(rest, pos);
    forall i | 0 <= i < |rest|
      ensures rest[i] in Frame(f, start)
    {
      assert que[i] == rest[i];
    }
  }

  lemma VisitOpenSound(f: Field, start: Pos, rest: seq<Pos>, pos: Pos, basin: set<Pos>)
    requires Valid(f) && Sound(f, start, rest + [pos], basin) && Open(f, pos)
    ensures Sound(f, start, rest + Around(pos), basin + {pos})
  {
    var que := rest + [pos];
    var que' := rest + Around(pos);
    AroundAt(rest, pos);
    assert que[|rest|] == pos;
    assert Reachable(f, start, pos) by {
      if pos == start {
        assert IsPath(f, [pos]);
      } else {
        var b :| b in basin && Adjacent(b, pos);
        ReachOn(f, start, b, pos);
      }
    }
    forall i | 0 <= i < |que'|
      ensures que'[i] == start || exists b :: b in basin + {pos} && Adjacent(b, que'[i])
    {
      if i >= |rest| {
        assert Step(pos, i - |rest|) == que'[i];
        assert Adjacent(pos, que'[i]);
      } else {
        assert que[i] == que'[i];
      }
    }
  }

  lemma VisitOpenClosed(f: Field, start: Pos, visited: set<Pos>, rest: seq<Pos>, pos: Pos, basin: set<Pos>)
    requires Closed(f, start, visited, rest + [pos], basin)
    ensures Closed(f, start, visited + {pos}, rest + Around(pos), basin + {pos})
  {
    var que := rest + [pos];
    var que' := rest + Around(pos);
    AroundAt(rest, pos);
    forall q | q in que
      ensures q in visited + {pos} || q in que'
    {
      var i :| 0 <= i < |que| && que[i] == q;
      if i < |rest| {
        assert que'[i] == q;
      }
    }
    forall b, k | b in basin + {pos} && 0 <= k < 4
      ensures Step(b, k) in visited + {pos} || Step(b, k) in que'
    {
      if b == pos {
        assert que'[|rest| + k] == Step(b, k);
      }
    }
  }

  /** Visiting an open cell counts it and queues its four neighbours. */
  lemma VisitOpen(f: Field, start: Pos, visited: set<Pos>, que: seq<Pos>, basin: set<Pos>)
    requires Valid(f) && |que| > 0 && FillInv(f, start, visited, que, basin)
    requires que[|que| - 1] !in visited && Open(f, que[|que| - 1])
    ensures var pos := que[|que| - 1];
      FillInv(f, start, visited + {pos}, que[..|que| - 1] + Around(pos), basin + {pos})
  {
    var pos := que[|que| - 1];
    var rest := que[..|que| - 1];
    assert que == rest + [pos];
    VisitOpenKept(f, start, visited, rest, pos, basin);
    VisitOpenSound(f, start, rest, pos, basin);
    VisitOpenClosed(f, start, visited, rest, pos, basin);
  }

  /** Once the queue is empty, the counted cells are the whole basin. */
  lemma FillDone(f: Field, start: Pos, visited: set<Pos>, basin: set<Pos>)
    requires Valid(f) && FillInv(f, start, visited, [], basin)
    ensures basin == BasinOf(f, start)
  {
    forall p | p in basin
      ensures p in BasinOf(f, start)
    {
      assert Reachable(f, start, p);
    }
    forall p | p in BasinOf(f, start)
      ensures p in basin
    {
      var path :| IsPath(f, path) && path[0] == start && path[|path| - 1] == p;
      PathCounted(f, start, visited, basin, path, |path| - 1);
    }
  }

  lemma {:induction false} PathCounted(f: Field, start: Pos, visited: set<Pos>, basin: set<Pos>, path: seq<Pos>, i: nat)
    requires Valid(f) && FillInv(f, start, visited, [], basin)
    requires IsPath(f, path) && path[0] == start && i < |path|
    ensures path[i] in basin
  {
    if i > 0 {
      PathCounted(f, start, visited, basin, path, i - 1);
      assert Adjacent(path[i - 1], path[i]);
      var k :| 0 <= k < 4 && Step(path[i - 1], k) == path[i];
      assert Open(f, path[i]);
    } else {
      assert Open(f, path[0]);
    }
  }

  /** The flood fill of `part_two` from start: pop a position, skip it if
      seen, mark it seen, and if it is on the map below nine count it and
      queue its four neighbours.  Each position is processed once, so the
      fill ends, and it counts exactly the basin of start. */
  method BasinSize(f: Field, start: Pos) returns (size: nat)
    requires Valid(f)
    ensures size == |BasinOf(f, start)|
  {
    var visited: set<Pos> := {};
    var que: seq<Pos> := [start];
    ghost var basin: set<Pos> := {};
    size := 0;
    while |que| > 0
      invariant FillInv(f, start, visited, que, basin)
      invariant size == |basin|
      decreases |Frame(f, start) - visited|, |que|
    {
      var pos := que[|que| - 1];
      if pos in visited {
        SkipVisited(f, start, visited, que, basin);
        que := que[..|que| - 1];
        continue;
      }
      assert pos in Frame(f, start);
      assert Frame(f, start) - (visited + {pos}) < Frame(f, start) - visited;
      match Get(f, pos.0, pos.1)
      case None =>
        VisitShut(f, start, visited, que, basin);
        visited, que := visited + {pos}, que[..|que| - 1];
      case Some(val) =>
        if val < 9 {
          VisitOpen(f, start, visited, que, basin);
          assert pos !in basin;
          size := size + 1;
          visited, basin := visited + {pos}, basin + {pos};
          que := que[..|que| - 1] + Around(pos);
        } else {
          VisitShut(f, start, visited, que, basin);
          visited, que := visited + {pos}, que[..|que| - 1];
        }
    }
    FillDone(f, start, visited, basin);
  }

  /** The low points, each once, in the order `get_low_points` finds them. */
  ghost predicate LowOrdered(f: Field, pts: seq<Pos>)
    requires Valid(f)
  {
    Ordered(pts) && forall p :: p in pts <==> IsLow(f, p)
  }

  /** Two ordered lists of the same points are the same list. */
  lemma {:induction false} OrderedUnique(a: seq<Pos>, b: seq<Pos>)
    requires Ordered(a) && Ordered(b)
    requires forall p :: p in a <==> p in b
    ensures a == b
    decreases |a|
  {
    if |a| == 0 {
      if |b| > 0 {
        HeadIn(b);
        assert false;
      }
    } else {
      assert a[|a| - 1] in b;
      assert |b| > 0;
      var (x, y) := (a[|a| - 1], b[|b| - 1]);
      assert y in a;
      if x != y {
        assert false;
      }
      var (a', b') := (a[..|a| - 1], b[..|b| - 1]);
      forall p | p in a'
        ensures p in b'
      {
        var i :| 0 <= i < |a'| && a'[i] == p;
        assert a[i] == p && Before(p, x);
        assert p in b;
        var j :| 0 <= j < |b| && b[j] == p;
        assert j != |b| - 1;
        assert b'[j] == p;
      }
      forall p | p in b'
        ensures p in a'
      {
        var j :| 0 <= j < |b'| && b'[j] == p;
        assert b[j] == p && Before(p, y);
        assert p in a;
        var i :| 0 <= i < |a| && a[i] == p;
        assert i != |a| - 1;
        assert a'[i] == p;
      }
      OrderedUnique(a', b');
      assert a == a' + [x] && b == b' + [y];
    }
  }

  /** There is one ordered list of the low points. */
  lemma LowUnique(f: Field, low: seq<Pos>)
    requires Valid(f) && LowOrdered(f, low)
    ensures forall pts :: LowOrdered(f, pts) ==> pts == low
  {
    forall pts | LowOrdered(f, pts)
      ensures pts == low
    {
      OrderedUnique(pts, low);
    }
  }

  /** The product of the three largest values. */
  function TopThree(s: seq<int>): int
    requires |s| >= 3
  {
    var t := Sort(s);
    t[|t| - 1] * t[|t| - 2] * t[|t| - 3]
  }

  /** a, b and c are values of s, a with nothing above it, b with at most
      one value above it and c with at most two above it. */
  predicate Largest(s: seq<int>, a: int, b: int, c: int)
  {
    && a in multiset(s) && b in multiset(s) && c in multiset(s)
    && CountAbove(s, a) == 0 && CountAbove(s, b) <= 1 && CountAbove(s, c) <= 2
    && a >= b >= c
  }

  /** TopThree multiplies three values of s: one with nothing above it, one
      with at most one value above it, and one with at most two above it. */
  lemma TopThreeLargest(s: seq<int>)
    requires |s| >= 3
    ensures exists a, b, c :: Largest(s, a, b, c) && TopThree(s) == a * b * c
  {
    var t := Sort(s);
    var n := |s|;
    var a, b, c := t[n - 1], t[n - 2], t[n - 3];
    assert TopThree(s) == a * b * c;
    OrderStatistic(s, n - 1);
    OrderStatistic(s, n - 2);
    OrderStatistic(s, n - 3);
    assert Sorted(t);
    assert a >= b >= c;
    assert Largest(s, a, b, c);
  }

  /** `part_two`: the product of the sizes of the three largest basins;
      None where the source panics, with fewer than three low points. */
  method PartTwo(f: Field) returns (r: Option<int>)
    requires Valid(f)
    ensures forall pts :: LowOrdered(f, pts) ==> (r.Some? <==> |pts| >= 3)
    ensures forall pts :: LowOrdered(f, pts) && r.Some? ==>
      |pts| >= 3 && r.value == TopThree(seq(|pts|, i requires 0 <= i < |pts| => |BasinOf(f, pts[i])|))
  {
    var low := LowPoints(f);
    var clusters: seq<int> := [];
    for i := 0 to |low|
      invariant |clusters| == i
      invariant forall k :: 0 <= k < i ==> clusters[k] == |BasinOf(f, low[k])|
    {
      var size := BasinSize(f, low[i]);
      ghost var before := clusters;
      clusters := clusters + [size];
      assert clusters[i] == size && clusters[..i] == before;
    }
    LowUnique(f, low);
    assert clusters == seq(|low|, i requires 0 <= i < |low| => |BasinOf(f, low[i])|);
    if |clusters| < 3 {
      return None;
    }
    var sorted := Sort(clusters);
    var n := |sorted|;
    r := Some(sorted[n - 1] * sorted[n - 2] * sorted[n - 3]);
  }
}
