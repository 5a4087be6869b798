/** Day 5: hydrothermal vent lines rasterised onto a grid that covers every
    endpoint and the origin; the answer counts the cells covered by at least
    two lines. */
module Vents {
  import opened Common

  datatype Point = Point(x: int, y: int)
  datatype Line = Line(p1: Point, p2: Point)

  /** The grid: numbers holds one counter per cell; columns run over
      minX .. minX + cols - 1 and rows over minY .. minY + rows - 1. */
  datatype Field = Field(numbers: seq<nat>, rows: nat, cols: nat, minX: int, minY: int)

  predicate Valid(f: Field)
  {
    |f.numbers| == f.rows * f.cols
  }

  predicate InBox(f: Field, p: Point)
  {
    f.minX <= p.x < f.minX + f.cols && f.minY <= p.y < f.minY + f.rows
  }

  function Abs(n: int): nat
  {
    if n < 0 then -n else n
  }

  /** `update_min_max`: widen [min, max] to take in val.  Only one bound
      is compared once val is below min, which is enough while min <= max. */
  function UpdateMinMax(val: int, min: int, max: int): (r: (int, int))
    requires min <= max
    ensures r.0 <= val <= r.1
    ensures r.0 == (if val < min then val else min) && r.1 == (if val > max then val else max)
  {
    if val < min then (val, max) else if val > max then (min, val) else (min, max)
  }

  datatype Bounds = Bounds(minX: int, maxX: int, minY: int, maxY: int)

  /** Every endpoint coordinate of the line lies within the bounds. */
  predicate Covers(b: Bounds, line: Line)
  {
    b.minX <= line.p1.x <= b.maxX && b.minX <= line.p2.x <= b.maxX
    && b.minY <= line.p1.y <= b.maxY && b.minY <= line.p2.y <= b.maxY
  }

  /** The loop of `Field::from_str` that runs update_min_max over both
      endpoints of every line, starting from all bounds at 0. */
  function FindBounds(lines: seq<Line>): (b: Bounds)
    ensures b.minX <= 0 <= b.maxX && b.minY <= 0 <= b.maxY
    ensures forall j :: 0 <= j < |lines| ==> Covers(b, lines[j])
  {
    if |lines| == 0 then Bounds(0, 0, 0, 0)
    else
      var b := FindBounds(lines[..|lines| - 1]);
      var line := lines[|lines| - 1];
      var (minX, maxX) := UpdateMinMax(line.p1.x, b.minX, b.maxX);
      var (minX', maxX') := UpdateMinMax(line.p2.x, minX, maxX);
      var (minY, maxY) := UpdateMinMax(line.p1.y, b.minY, b.maxY);
      var (minY', maxY') := UpdateMinMax(line.p2.y, minY, maxY);
      Bounds(minX', maxX', minY', maxY')
  }

  /** Each bound is 0 or a coordinate of some endpoint: the bounds are the
      smallest that contain the origin and every endpoint. */
  lemma {:induction false} BoundsTight(lines: seq<Line>)
    ensures var b := FindBounds(lines);
      (b.minX == 0 || exists j :: 0 <= j < |lines| && (lines[j].p1.x == b.minX || lines[j].p2.x == b.minX))
      && (b.maxX == 0 || exists j :: 0 <= j < |lines| && (lines[j].p1.x == b.maxX || lines[j].p2.x == b.maxX))
      && (b.minY == 0 || exists j :: 0 <= j < |lines| && (lines[j].p1.y == b.minY || lines[j].p2.y == b.minY))
      && (b.maxY == 0 || exists j :: 0 <= j < |lines| && (lines[j].p1.y == b.maxY || lines[j].p2.y == b.maxY))
  {
    if |lines| > 0 {
      var n := |lines| - 1;
      BoundsTight(lines[..n]);
      assert forall j :: 0 <= j < n ==> lines[..n][j] == lines[j];
    }
  }

  /** `get_iter`: the integers from p1 to p2 inclusive, counting up or
      down. */
  function Span(p1: int, p2: int): (r: seq<int>)
    ensures |r| == Abs(p2 - p1) + 1
    ensures r[0] == p1 && r[|r| - 1] == p2
  {
    if p2 >= p1 then seq(p2 - p1 + 1, k => p1 + k) else seq(p1 - p2 + 1, k => p1 - k)
  }

  /** The span holds every integer between its ends and nothing else, each
      once. */
  lemma SpanMembers(p1: int, p2: int)
    ensures forall v :: v in Span(p1, p2) <==> (p1 <= v <= p2 || p2 <= v <= p1)
    ensures NoDup(Span(p1, p2))
  {
    var s := Span(p1, p2);
    forall v | p1 <= v <= p2 || p2 <= v <= p1
      ensures v in s
    {
      var k := Abs(v - p1);
      assert s[k] == v;
    }
  }

  /** The cells `add_line` increments: a vertical or a horizontal line
      covers its span; any other line is drawn only with diagonals on, as
      the two spans zipped together, which stops at the shorter of them. */
  function LinePoints(line: Line, diagonal: bool): seq<Point>
  {
    var (p1, p2) := (line.p1, line.p2);
    if p1.x == p2.x then
      var ys := Span(p1.y, p2.y);
      seq(|ys|, k requires 0 <= k < |ys| => Point(p1.x, ys[k]))
    else if p1.y == p2.y then
      var xs := Span(p1.x, p2.x);
      seq(|xs|, k requires 0 <= k < |xs| => Point(xs[k], p1.y))
    else if diagonal then
      var (xs, ys) := (Span(p1.x, p2.x), Span(p1.y, p2.y));
      var n := if |xs| < |ys| then |xs| else |ys|;
      seq(n, k requires 0 <= k < n => Point(xs[k], ys[k]))
    else []
  }

  /** The endpoints' bounding box holds every cell of a line. */
  predicate Between(line: Line, p: Point)
  {
    (line.p1.x <= p.x <= line.p2.x || line.p2.x <= p.x <= line.p1.x)
    && (line.p1.y <= p.y <= line.p2.y || line.p2.y <= p.y <= line.p1.y)
  }

  /** The k-th integer of a span. */
  lemma SpanAt(p1: int, p2: int, k: int)
    requires 0 <= k < |Span(p1, p2)|
    ensures Span(p1, p2)[k] == if p2 >= p1 then p1 + k else p1 - k
  {
  }

  /** A vertical line covers exactly the cells between its endpoints. */
  lemma VerticalPoints(line: Line, diagonal: bool, p: Point)
    requires line.p1.x == line.p2.x
    ensures p in LinePoints(line, diagonal) <==> Between(line, p)
  {
    var (p1, p2) := (line.p1, line.p2);
    var pts := LinePoints(line, diagonal);
    var ys := Span(p1.y, p2.y);
    SpanMembers(p1.y, p2.y);
    if p in pts {
      var k :| 0 <= k < |pts| && pts[k] == p;
      assert ys[k] in ys;
    }
    if Between(line, p) {
      var k := Abs(p.y - p1.y);
      SpanAt(p1.y, p2.y, k);
      assert pts[k] == p;
    }
  }

  /** A horizontal line covers exactly the cells between its endpoints. */
  lemma HorizontalPoints(line: Line, diagonal: bool, p: Point)
    requires line.p1.y == line.p2.y
    ensures p in LinePoints(line, diagonal) <==> Between(line, p)
  {
    var (p1, p2) := (line.p1, line.p2);
    var pts := LinePoints(line, diagonal);
    if p1.x == p2.x {
      VerticalPoints(line, diagonal, p);
    } else {
      var xs := Span(p1.x, p2.x);
      SpanMembers(p1.x, p2.x);
      if p in pts {
        var k :| 0 <= k < |pts| && pts[k] == p;
        assert xs[k] in xs;
      }
      if Between(line, p) {
        var k := Abs(p.x - p1.x);
        SpanAt(p1.x, p2.x, k);
        assert pts[k] == p;
      }
    }
  }

  /** Every cell of a line lies within its endpoints' box. */
  lemma PointsBetween(line: Line, diagonal: bool, p: Point)
    requires p in LinePoints(line, diagonal)
    ensures Between(line, p)
  {
    var (p1, p2) := (line.p1, line.p2);
    if p1.x == p2.x {
      VerticalPoints(line, diagonal, p);
    } else if p1.y == p2.y {
      HorizontalPoints(line, diagonal, p);
    } else {
      var pts := LinePoints(line, diagonal);
      var (xs, ys) := (Span(p1.x, p2.x), Span(p1.y, p2.y));
      SpanMembers(p1.x, p2.x);
      SpanMembers(p1.y, p2.y);
      var k :| 0 <= k < |pts| && pts[k] == p;
      assert xs[k] in xs && ys[k] in ys;
    }
  }

  /** A line covers each of its cells once. */
  lemma PointsDistinct(line: Line, diagonal: bool)
    ensures NoDup(LinePoints(line, diagonal))
  {
    var (p1, p2) := (line.p1, line.p2);
    var pts := LinePoints(line, diagonal);
    var (xs, ys) := (Span(p1.x, p2.x), Span(p1.y, p2.y));
    SpanMembers(p1.x, p2.x);
    SpanMembers(p1.y, p2.y);
    forall i, j | 0 <= i < j < |pts|
      ensures pts[i] != pts[j]
    {
      if p1.x == p2.x {
        assert pts[i].y == ys[i] && pts[j].y == ys[j];
      } else {
        assert pts[i].x == xs[i] && pts[j].x == xs[j];
      }
    }
  }

  /** A line covers each of its cells once, all within its endpoints'
      box; a vertical or horizontal line covers exactly the cells between
      its endpoints, and a slanted line covers nothing without diagonals. */
  lemma LinePointsFacts(line: Line, diagonal: bool)
    ensures NoDup(LinePoints(line, diagonal))
    ensures forall p :: p in LinePoints(line, diagonal) ==> Between(line, p)
    ensures line.p1.x == line.p2.x || line.p1.y == line.p2.y ==>
      forall p :: p in LinePoints(line, diagonal) <==> Between(line, p)
    ensures line.p1.x != line.p2.x && line.p1.y != line.p2.y && !diagonal ==> LinePoints(line, diagonal) == []
  {
    PointsDistinct(line, diagonal);
    forall p | p in LinePoints(line, diagonal)
      ensures Between(line, p)
    {
      PointsBetween(line, diagonal, p);
    }
    if line.p1.x == line.p2.x || line.p1.y == line.p2.y {
      forall p
        ensures p in LinePoints(line, diagonal) <==> Between(line, p)
      {
        if line.p1.x == line.p2.x {
          VerticalPoints(line, diagonal, p);
        } else {
          HorizontalPoints(line, diagonal, p);
        }
      }
    }
  }

  /** The number of lines that cover p. */
  function Coverage(lines: seq<Line>, diagonal: bool, p: Point): nat
  {
    if |lines| == 0 then 0
    else
      Coverage(lines[..|lines| - 1], diagonal, p) + (if p in LinePoints(lines[|lines| - 1], diagonal) then 1 else 0)
  }

  /** `get_index` as written: cols * (x - min_x) + (y - min_y). */
  function IndexAsWritten(f: Field, p: Point): int
  {
    f.cols * (p.x - f.minX) + (p.y - f.minY)
  }

  /** As written, the index is in range and tells cells apart on a square
      grid. */
  lemma AsWrittenSquare(f: Field, p: Point, q: Point)
    requires Valid(f) && f.rows == f.cols && InBox(f, p) && InBox(f, q)
    ensures 0 <= IndexAsWritten(f, p) < |f.numbers|
    ensures IndexAsWritten(f, p) == IndexAsWritten(f, q) ==> p == q
  {
    RowMajorFacts(f.cols, f.cols, p.y - f.minY, p.x - f.minX);
    RowMajorFacts(f.cols, f.cols, q.y - f.minY, q.x - f.minX);
  }

  /** As written, a grid with more rows than columns gives two cells the
      same index: on a 2-column, 3-row grid at the origin, the cells (0, 2)
      and (1, 0) both get index 2. */
  lemma AsWrittenCollides()
    ensures var f := Field(seq(6, _ => 0), 3, 2, 0, 0);
      Valid(f) && InBox(f, Point(0, 2)) && InBox(f, Point(1, 0))
      && IndexAsWritten(f, Point(0, 2)) == IndexAsWritten(f, Point(1, 0)) == 2
  {
  }

  /** As written, a grid with more columns than rows indexes past its
      storage: on a 3-column, 2-row grid at the origin, the cell (2, 1) gets
      index 7 of 6. */
  lemma AsWrittenOverruns()
    ensures var f := Field(seq(6, _ => 0), 2, 3, 0, 0);
      Valid(f) && InBox(f, Point(2, 1)) && IndexAsWritten(f, Point(2, 1)) == 7
  {
  }

  /** The row-major index the grid evidently intends:
      cols * (y - min_y) + (x - min_x). */
  function Index(f: Field, p: Point): nat
    requires Valid(f) && InBox(f, p)
    ensures Index(f, p) < |f.numbers|
  {
    RowMajorFacts(f.rows, f.cols, p.x - f.minX, p.y - f.minY);
    f.cols * (p.y - f.minY) + (p.x - f.minX)
  }

  /** The row-major index tells every two cells of any grid apart. */
  lemma IndexInjective(f: Field, p: Point, q: Point)
    requires Valid(f) && InBox(f, p) && InBox(f, q) && Index(f, p) == Index(f, q)
    ensures p == q
  {
    RowMajorFacts(f.rows, f.cols, p.x - f.minX, p.y - f.minY);
    RowMajorFacts(f.rows, f.cols, q.x - f.minX, q.y - f.minY);
  }

  function Value(f: Field, p: Point): nat
    requires Valid(f) && InBox(f, p)
  {
    f.numbers[Index(f, p)]
  }

  /** The box that holds the line's endpoints holds the whole line. */
  lemma LineInBox(f: Field, line: Line, diagonal: bool)
    requires InBox(f, line.p1) && InBox(f, line.p2)
    ensures forall p :: p in LinePoints(line, diagonal) ==> InBox(f, p)
  {
    LinePointsFacts(line, diagonal);
  }

  /** One more on the counter of cell q, every other cell unchanged. */
  function Bump(f: Field, q: Point): (g: Field)
    requires Valid(f) && InBox(f, q)
    ensures Valid(g) && g.rows == f.rows && g.cols == f.cols && g.minX == f.minX && g.minY == f.minY
    ensures forall p :: InBox(f, p) ==> Value(g, p) == Value(f, p) + (if p == q then 1 else 0)
  {
    var i := Index(f, q);
    var g := f.(numbers := f.numbers[i := f.numbers[i] + 1]);
    forall p | InBox(f, p) && p != q
      ensures Index(g, p) != i
    {
      if Index(g, p) == i {
        IndexInjective(g, p, q);
      }
    }
    g
  }

  /** `add_line`: one more on each cell of the line, nothing elsewhere. */
  method AddLine(f: Field, line: Line, diagonal: bool) returns (g: Field)
    requires Valid(f) && InBox(f, line.p1) && InBox(f, line.p2)
    ensures Valid(g) && g.rows == f.rows && g.cols == f.cols && g.minX == f.minX && g.minY == f.minY
    ensures forall p :: InBox(f, p) ==> Value(g, p) == Value(f, p) + (if p in LinePoints(line, diagonal) then 1 else 0)
  {
    var pts := LinePoints(line, diagonal);
    LineInBox(f, line, diagonal);
    LinePointsFacts(line, diagonal);
    g := f;
    for k := 0 to |pts|
      invariant Valid(g) && g.rows == f.rows && g.cols == f.cols && g.minX == f.minX && g.minY == f.minY
      invariant forall p :: InBox(f, p) ==> Value(g, p) == Value(f, p) + (if p in pts[..k] then 1 else 0)
    {
      assert pts[k] !in pts[..k];
      assert pts[..k + 1] == pts[..k] + [pts[k]];
      g := Bump(g, pts[k]);
    }
    assert pts[..|pts|] == pts;
  }

  /** `Field::from_str` on the parsed lines: a zero grid spanning the bounds
      of every endpoint and the origin, then every line added.  Every cell
      then counts the lines that cover it. */
  method FromLines(lines: seq<Line>, diagonal: bool) returns (f: Field)
    ensures Valid(f) && InBox(f, Point(0, 0))
    ensures forall j :: 0 <= j < |lines| ==> InBox(f, lines[j].p1) && InBox(f, lines[j].p2)
    ensures forall p :: InBox(f, p) ==> Value(f, p) == Coverage(lines, diagonal, p)
  {
    var b := FindBounds(lines);
    var cols, rows := b.maxX - b.minX + 1, b.maxY - b.minY + 1;
    f := Field(seq(rows * cols, _ => 0), rows, cols, b.minX, b.minY);
    for k := 0 to |lines|
      invariant Valid(f) && f.rows == rows && f.cols == cols && f.minX == b.minX && f.minY == b.minY
      invariant forall p :: InBox(f, p) ==> Value(f, p) == Coverage(lines[..k], diagonal, p)
    {
      assert Covers(b, lines[k]);
      var before := f;
      f := AddLine(f, lines[k], diagonal);
      assert lines[..k + 1][..k] == lines[..k];
    }
    assert lines[..|lines|] == lines;
  }

  /** `part`: the number of cells with a count of at least two. */
  function Part(numbers: seq<nat>): (n: nat)
    ensures n <= |numbers|
  {
    if |numbers| == 0 then 0
    else Part(numbers[..|numbers| - 1]) + (if numbers[|numbers| - 1] >= 2 then 1 else 0)
  }

  /** The indices of the cells counted by `part`. */
  function Hot(s: seq<nat>): set<nat>
  {
    set i: nat | i < |s| && s[i] >= 2
  }

  lemma {:induction false} PartHot(s: seq<nat>)
    ensures Part(s) == |Hot(s)|
    decreases |s|
  {
    if |s| > 0 {
      var k: nat := |s| - 1;
      var front := s[..k];
      PartHot(front);
      assert forall i :: i in Hot(s) <==> i in Hot(front) || (i == k && s[k] >= 2);
      if s[k] >= 2 {
        assert k !in Hot(front);
        assert Hot(s) == Hot(front) + {k};
      } else {
        assert Hot(s) == Hot(front);
      }
    }
  }

  /** The cell stored at index i under the row-major layout. */
  function Position(f: Field, i: nat): Point
  {
    if f.cols > 0 then Point(f.minX + i % f.cols, f.minY + i / f.cols) else Point(f.minX, f.minY)
  }

  /** The cells of the grid covered at least twice. */
  function Overlaps(f: Field): set<Point>
    requires Valid(f)
  {
    set x: int, y: int | f.minX <= x < f.minX + f.cols && f.minY <= y < f.minY + f.rows
      && Value(f, Point(x, y)) >= 2 :: Point(x, y)
  }

  /** `part` counts the cells covered at least twice. */
  lemma PartIsOverlaps(f: Field)
    requires Valid(f)
    ensures Part(f.numbers) == |Overlaps(f)|
  {
    var hot := Hot(f.numbers);
    var at := i => Position(f, i);
    PartHot(f.numbers);
    forall i: nat, j: nat | i in hot && j in hot && at(i) == at(j)
      ensures i == j
    {
      RowMajorCoord(f.rows, f.cols, i);
      RowMajorCoord(f.rows, f.cols, j);
    }
    forall p | p in Overlaps(f)
      ensures exists i :: i in hot && at(i) == p
    {
      var i := Index(f, p);
      RowMajorFacts(f.rows, f.cols, p.x - f.minX, p.y - f.minY);
      assert at(i) == p;
    }
    forall i | i in hot
      ensures at(i) in Overlaps(f)
    {
      RowMajorCoord(f.rows, f.cols, i);
      var p := at(i);
      RowMajorFacts(f.rows, f.cols, p.x - f.minX, p.y - f.minY);
      assert Index(f, p) == i;
    }
    ImageInjective(hot, Overlaps(f), at);
  }

  /** The points that at least two lines cover. */
  function Crossings(lines: seq<Line>, diagonal: bool): set<Point>
  {
    set j, p | 0 <= j < |lines| && p in LinePoints(lines[j], diagonal) && Coverage(lines, diagonal, p) >= 2 :: p
  }

  /** A covered point lies on some line. */
  lemma {:induction false} CoveredBySome(lines: seq<Line>, diagonal: bool, p: Point)
    requires Coverage(lines, diagonal, p) > 0
    ensures exists j :: 0 <= j < |lines| && p in LinePoints(lines[j], diagonal)
    decreases |lines|
  {
    var n := |lines| - 1;
    if p !in LinePoints(lines[n], diagonal) {
      CoveredBySome(lines[..n], diagonal, p);
      var j :| 0 <= j < n && p in LinePoints(lines[..n][j], diagonal);
      assert lines[..n][j] == lines[j];
    }
  }

  /** Day 5: the number of points where at least two lines overlap, with
      diagonal lines drawn or not. */
  method Solve(lines: seq<Line>, diagonal: bool) returns (n: nat)
    ensures n == |Crossings(lines, diagonal)|
  {
    var f := FromLines(lines, diagonal);
    n := Part(f.numbers);
    PartIsOverlaps(f);
    CrossingsInField(f, lines, diagonal);
    OverlapsCross(f, lines, diagonal);
    assert Overlaps(f) == Crossings(lines, diagonal);
  }

  /** Every crossing of the lines is an overlap of a field that counts
      them and spans their ends. */
  lemma CrossingsInField(f: Field, lines: seq<Line>, diagonal: bool)
    requires Valid(f)
    requires forall j :: 0 <= j < |lines| ==> InBox(f, lines[j].p1) && InBox(f, lines[j].p2)
    requires forall p :: InBox(f, p) ==> Value(f, p) == Coverage(lines, diagonal, p)
    ensures Crossings(lines, diagonal) <= Overlaps(f)
  {
    forall p | p in Crossings(lines, diagonal)
      ensures p in Overlaps(f)
    {
      var j :| 0 <= j < |lines| && p in LinePoints(lines[j], diagonal);
      LineInBox(f, lines[j], diagonal);
    }
  }

  /** Every overlap of a field that counts the lines is a crossing. */
  lemma OverlapsCross(f: Field, lines: seq<Line>, diagonal: bool)
    requires Valid(f)
    requires forall p :: InBox(f, p) ==> Value(f, p) == Coverage(lines, diagonal, p)
    ensures Overlaps(f) <= Crossings(lines, diagonal)
  {
    forall p | p in Overlaps(f)
      ensures p in Crossings(lines, diagonal)
    {
      CoveredBySome(lines, diagonal, p);
    }
  }
}
