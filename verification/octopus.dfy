/** Day 11: the dumbo-octopus energy grid. One step raises every energy level
    by one; every octopus that reaches 10 flashes once, raising its eight
    neighbours, which may flash in turn; at the end every octopus that
    flashed is reset to 0. */
module Octopus {
  import opened Common

  /** The grid, row-major: the octopus at column x and row y is
      numbers[cols * y + x]. */
  datatype Field = Field(numbers: seq<int>, rows: nat, cols: nat)

  type Coord = (int, int)

  predicate WellFormed(f: Field)
  {
    |f.numbers| == f.rows * f.cols
  }

  /** Every energy level is a digit: what parsing produces and what a step
      leaves behind. */
  predicate AtRest(f: Field)
  {
    WellFormed(f) && forall i :: 0 <= i < |f.numbers| ==> 0 <= f.numbers[i] <= 9
  }

  predicate InBounds(rows: nat, cols: nat, c: Coord)
  {
    0 <= c.0 < cols && 0 <= c.1 < rows
  }

  function Index(cols: nat, c: Coord): int
  {
    cols * c.1 + c.0
  }

  /** Row-major indexing is a bijection between in-bounds coordinates and
      the indices below rows * cols. */
  lemma IndexFacts(rows: nat, cols: nat, c: Coord)
    requires InBounds(rows, cols, c)
    ensures 0 <= Index(cols, c) < rows * cols
    ensures Index(cols, c) % cols == c.0
    ensures Index(cols, c) / cols == c.1
  {
    RowMajorFacts(rows, cols, c.0, c.1);
  }

  /** An on-grid coordinate indexes the storage. */
  lemma IndexRange(rows: nat, cols: nat, c: Coord)
    requires InBounds(rows, cols, c)
    ensures 0 <= Index(cols, c) < rows * cols
  {
    MulMonotone(cols, c.1 + 1, rows);
    assert cols * (c.1 + 1) == cols * c.1 + cols;
    assert cols * rows == rows * cols;
  }

  lemma IndexInjective(rows: nat, cols: nat, a: Coord, b: Coord)
    requires InBounds(rows, cols, a) && InBounds(rows, cols, b)
    ensures Index(cols, a) == Index(cols, b) <==> a == b
  {
    IndexFacts(rows, cols, a);
    IndexFacts(rows, cols, b);
  }

  /** Field::get: the octopus at (x, y), if that position is on the grid. */
  function Get(f: Field, x: int, y: int): (r: Option<int>)
    requires WellFormed(f)
    ensures r.Some? <==> InBounds(f.rows, f.cols, (x, y))
    ensures r.Some? ==> 0 <= Index(f.cols, (x, y)) < |f.numbers| && r.value == f.numbers[Index(f.cols, (x, y))]
  {
    if x < f.cols && 0 <= x && y < f.rows && 0 <= y then
      IndexRange(f.rows, f.cols, (x, y));
      Some(f.numbers[Index(f.cols, (x, y))])
    else None
  }

  /** Field::get_coord: the position of the octopus stored at an index. */
  function GetCoord(f: Field, index: nat): Coord
    requires f.cols > 0
  {
    (index % f.cols, index / f.cols)
  }

  /** get_coord inverts the row-major layout: looking up the position of an
      index reads that index back. */
  lemma GetCoordRoundTrip(f: Field, index: nat)
    requires WellFormed(f) && f.cols > 0
    requires index < |f.numbers|
    ensures InBounds(f.rows, f.cols, GetCoord(f, index))
    ensures Index(f.cols, GetCoord(f, index)) == index
    ensures Get(f, GetCoord(f, index).0, GetCoord(f, index).1) == Some(f.numbers[index])
  {
    RowMajorCoord(f.rows, f.cols, index);
  }

  /** The positions checked in the source's test on a grid ten wide. */
  lemma GetCoordExamples(f: Field)
    requires f.cols == 10
    ensures GetCoord(f, 10) == (0, 1)
    ensures GetCoord(f, 0) == (0, 0)
    ensures GetCoord(f, 15) == (5, 1)
  {
  }

  /** The eight neighbours of c, in the order the source pushes them. */
  function Neighbours(c: Coord): seq<Coord>
  {
    var (x, y) := c;
    [(x, y + 1), (x, y - 1), (x + 1, y), (x - 1, y),
     (x + 1, y + 1), (x + 1, y - 1), (x - 1, y - 1), (x - 1, y + 1)]
  }

  predicate Adjacent(a: Coord, b: Coord)
  {
    a != b && -1 <= a.0 - b.0 <= 1 && -1 <= a.1 - b.1 <= 1
  }

  /** Every adjacent position is pushed exactly once, and nothing else. */
  lemma OccurrencesInNeighbours(a: Coord, b: Coord)
    ensures Occurrences(Neighbours(a), b) == if Adjacent(a, b) then 1 else 0
  {
    var n := Neighbours(a);
    var k := 0;
    while k < |n|
      invariant 0 <= k <= |n|
      invariant Occurrences(n[..k], b) == if exists i :: 0 <= i < k && n[i] == b then 1 else 0
    {
      assert n[..k + 1][..k] == n[..k];
      k := k + 1;
    }
    assert n[..|n|] == n;
    if Adjacent(a, b) {
      var (dx, dy) := (b.0 - a.0, b.1 - a.1);
      var i := if dx == 0 then (if dy == 1 then 0 else 1)
               else if dy == 0 then (if dx == 1 then 2 else 3)
               else if dx == 1 then (if dy == 1 then 4 else 5)
               else (if dy == -1 then 6 else 7);
      assert n[i] == b;
    } else {
      assert forall i :: 0 <= i < |n| ==> n[i] != b;
    }
  }

  /** Number of positions in ps that are on the grid and hold 11, the mark
      of an octopus that has flashed during the current step. */
  function CountFlashed(cells: seq<int>, rows: nat, cols: nat, ps: seq<Coord>): nat
    requires |cells| == rows * cols
  {
    if |ps| == 0 then 0
    else
      var p := ps[|ps| - 1];
      var here := if InBounds(rows, cols, p) then
          IndexRange(rows, cols, p);
          (if cells[Index(cols, p)] == 11 then 1 else 0)
        else 0;
      CountFlashed(cells, rows, cols, ps[..|ps| - 1]) + here
  }

  /** Marking one more octopus as flashed adds one for every time its
      position occurs in ps. */
  lemma {:induction false} CountFlashedMark(cells: seq<int>, rows: nat, cols: nat, ps: seq<Coord>, c: Coord)
    requires |cells| == rows * cols
    requires InBounds(rows, cols, c)
    requires 0 <= Index(cols, c) < |cells| && cells[Index(cols, c)] != 11
    ensures CountFlashed(cells[Index(cols, c) := 11], rows, cols, ps)
      == CountFlashed(cells, rows, cols, ps) + Occurrences(ps, c)
    decreases |ps|
  {
    if |ps| > 0 {
      var p := ps[|ps| - 1];
      CountFlashedMark(cells, rows, cols, ps[..|ps| - 1], c);
      if InBounds(rows, cols, p) {
        IndexInjective(rows, cols, p, c);
        IndexRange(rows, cols, p);
      }
    }
  }

  /** Changing an octopus that is not and does not become 11 leaves every
      flashed count as it was. */
  lemma {:induction false} CountFlashedUnmarked(cells: seq<int>, rows: nat, cols: nat, ps: seq<Coord>, j: nat, v: int)
    requires |cells| == rows * cols
    requires j < |cells| && cells[j] != 11 && v != 11
    ensures CountFlashed(cells[j := v], rows, cols, ps) == CountFlashed(cells, rows, cols, ps)
    decreases |ps|
  {
    if |ps| > 0 {
      CountFlashedUnmarked(cells, rows, cols, ps[..|ps| - 1], j, v);
      var p := ps[|ps| - 1];
      if InBounds(rows, cols, p) {
        IndexRange(rows, cols, p);
      }
    }
  }

  predicate InRange(cells: seq<int>, lo: int, hi: int)
  {
    forall i :: 0 <= i < |cells| ==> lo <= cells[i] <= hi
  }

  /** Distance of the grid from every octopus being marked as flashed. */
  function Potential(cells: seq<int>): nat
    requires InRange(cells, 0, 11)
  {
    if |cells| == 0 then 0
    else Potential(cells[..|cells| - 1]) + (11 - cells[|cells| - 1])
  }

  lemma {:induction false} PotentialRaise(cells: seq<int>, j: nat, v: int)
    requires InRange(cells, 0, 11)
    requires j < |cells| && cells[j] <= v <= 11
    ensures InRange(cells[j := v], 0, 11)
    ensures Potential(cells[j := v]) == Potential(cells) - (v - cells[j])
    decreases |cells|
  {
    var n := |cells|;
    if j < n - 1 {
      assert cells[j := v][..n - 1] == cells[..n - 1][j := v];
      PotentialRaise(cells[..n - 1], j, v);
    } else {
      assert cells[j := v][..n - 1] == cells[..n - 1];
    }
  }

  /** What an octopus still on the grid satisfies at every point of the
      cascade, against inc, the levels right after the step's first raise:
      - one not yet flashed (at most 9) holds its raised level plus one per
        flashed neighbour, less the raises still waiting in the queue;
      - one at 10 has not been raised since the first raise and waits in the
        queue to flash;
      - one at 11 has flashed, and its raised level plus its flashed
        neighbours reach 10. */
  ghost predicate CellInv(inc: seq<int>, cells: seq<int>, rows: nat, cols: nat, queue: seq<Coord>, c: Coord)
    requires |inc| == |cells| == rows * cols
    requires InBounds(rows, cols, c)
  {
    IndexRange(rows, cols, c);
    var i := Index(cols, c);
    var around := CountFlashed(cells, rows, cols, Neighbours(c));
    && (cells[i] <= 9 ==> cells[i] + Occurrences(queue, c) == inc[i] + around)
    && (cells[i] == 10 ==> inc[i] == 10 && Occurrences(queue, c) > 0)
    && (cells[i] == 11 ==> inc[i] + around >= 10)
  }

  ghost predicate CascadeInv(inc: seq<int>, cells: seq<int>, rows: nat, cols: nat, queue: seq<Coord>)
  {
    && |inc| == |cells| == rows * cols
    && InRange(inc, 1, 10)
    && InRange(cells, 1, 11)
    && (forall i :: 0 <= i < |cells| ==> inc[i] <= cells[i])
    && forall c {:trigger CellInv(inc, cells, rows, cols, queue, c)} :: InBounds(rows, cols, c) ==> CellInv(inc, cells, rows, cols, queue, c)
  }

  /** The settled state of one octopus before the reset: it has either
      flashed (11), its raised level plus its flashed neighbours reaching 10,
      or it holds exactly its raised level plus its flashed neighbours, which
      stays below 10. */
  ghost predicate CellSettled(inc: seq<int>, cells: seq<int>, rows: nat, cols: nat, c: Coord)
    requires |inc| == |cells| == rows * cols
    requires InBounds(rows, cols, c)
  {
    IndexRange(rows, cols, c);
    var i := Index(cols, c);
    var around := CountFlashed(cells, rows, cols, Neighbours(c));
    || (cells[i] == 11 && inc[i] + around >= 10)
    || (cells[i] <= 9 && cells[i] == inc[i] + around)
  }

  ghost predicate Settled(inc: seq<int>, cells: seq<int>, rows: nat, cols: nat)
    requires |inc| == |cells| == rows * cols
  {
    forall c {:trigger CellSettled(inc, cells, rows, cols, c)} :: InBounds(rows, cols, c) ==> CellSettled(inc, cells, rows, cols, c)
  }

  /** The queue loop of Field::step. The queue is popped from its end; a
      position off the grid is skipped; an octopus below 10 is raised; one
      that is (now) at 10 is marked 11 and its eight neighbours are pushed.
      An octopus at 11 is never raised again, so it flashes at most once. */
  function Cascade(inc: seq<int>, cells: seq<int>, rows: nat, cols: nat, queue: seq<Coord>): (r: seq<int>)
    requires CascadeInv(inc, cells, rows, cols, queue)
    ensures |r| == |cells|
    ensures InRange(r, 1, 11)
    ensures forall i :: 0 <= i < |cells| ==> cells[i] <= r[i]
    ensures forall i :: 0 <= i < |cells| && cells[i] == 11 ==> r[i] == 11
    ensures Settled(inc, r, rows, cols)
    decreases Potential(cells), |queue|
  {
    if |queue| == 0 then
      SettledAtEnd(inc, cells, rows, cols, queue);
      cells
    else
      var c := queue[|queue| - 1];
      var rest := queue[..|queue| - 1];
      assert queue == rest + [c];
      if !InBounds(rows, cols, c) then
        PopOffGrid(inc, cells, rows, cols, queue);
        Cascade(inc, cells, rows, cols, rest)
      else
        IndexRange(rows, cols, c);
        var i := Index(cols, c);
        var v := cells[i];
        var raised := if v < 10 then v + 1 else v;
        if raised == 10 then
          PotentialRaise(cells, i, 11);
          PopFlash(inc, cells, rows, cols, queue);
          Cascade(inc, cells[i := 11], rows, cols, rest + Neighbours(c))
        else if raised == v then
          PopFlashed(inc, cells, rows, cols, queue);
          Cascade(inc, cells, rows, cols, rest)
        else
          PotentialRaise(cells, i, raised);
          PopRaise(inc, cells, rows, cols, queue);
          Cascade(inc, cells[i := raised], rows, cols, rest)
  }

  lemma SettledAtEnd(inc: seq<int>, cells: seq<int>, rows: nat, cols: nat, queue: seq<Coord>)
    requires CascadeInv(inc, cells, rows, cols, queue)
    requires |queue| == 0
    ensures Settled(inc, cells, rows, cols)
  {
    forall c | InBounds(rows, cols, c)
      ensures CellSettled(inc, cells, rows, cols, c)
    {
      assert CellInv(inc, cells, rows, cols, queue, c);
      CellSettledAtEnd(inc, cells, rows, cols, c);
    }
  }

  lemma CellSettledAtEnd(inc: seq<int>, cells: seq<int>, rows: nat, cols: nat, c: Coord)
    requires |inc| == |cells| == rows * cols
    requires InBounds(rows, cols, c)
    requires InRange(cells, 1, 11)
    requires CellInv(inc, cells, rows, cols, [], c)
    ensures CellSettled(inc, cells, rows, cols, c)
  {
    IndexRange(rows, cols, c);
    var i := Index(cols, c);
    var around := CountFlashed(cells, rows, cols, Neighbours(c));
    assert Occurrences([], c) == 0;
    assert cells[i] <= 9 ==> cells[i] == inc[i] + around;
    assert cells[i] != 10;
    assert cells[i] == 11 ==> inc[i] + around >= 10;
  }

  lemma PopOffGrid(inc: seq<int>, cells: seq<int>, rows: nat, cols: nat, queue: seq<Coord>)
    requires CascadeInv(inc, cells, rows, cols, queue)
    requires |queue| > 0 && !InBounds(rows, cols, queue[|queue| - 1])
    ensures CascadeInv(inc, cells, rows, cols, queue[..|queue| - 1])
  {
    var rest := queue[..|queue| - 1];
    assert queue == rest + [queue[|queue| - 1]];
    forall c | InBounds(rows, cols, c)
      ensures CellInv(inc, cells, rows, cols, rest, c)
    {
      assert CellInv(inc, cells, rows, cols, queue, c);
      OccurrencesAppend(rest, [queue[|queue| - 1]], c);
    }
  }

  lemma PopFlashed(inc: seq<int>, cells: seq<int>, rows: nat, cols: nat, queue: seq<Coord>)
    requires CascadeInv(inc, cells, rows, cols, queue)
    requires |queue| > 0 && InBounds(rows, cols, queue[|queue| - 1])
    requires 0 <= Index(cols, queue[|queue| - 1]) < |cells|
    requires cells[Index(cols, queue[|queue| - 1])] == 11
    ensures CascadeInv(inc, cells, rows, cols, queue[..|queue| - 1])
  {
    var top := queue[|queue| - 1];
    var rest := queue[..|queue| - 1];
    assert queue == rest + [top];
    forall c | InBounds(rows, cols, c)
      ensures CellInv(inc, cells, rows, cols, rest, c)
    {
      assert CellInv(inc, cells, rows, cols, queue, c);
      OccurrencesAppend(rest, [top], c);
      IndexInjective(rows, cols, c, top);
    }
  }

  lemma PopRaise(inc: seq<int>, cells: seq<int>, rows: nat, cols: nat, queue: seq<Coord>)
    requires CascadeInv(inc, cells, rows, cols, queue)
    requires |queue| > 0 && InBounds(rows, cols, queue[|queue| - 1])
    requires 0 <= Index(cols, queue[|queue| - 1]) < |cells|
    requires cells[Index(cols, queue[|queue| - 1])] <= 8
    ensures CascadeInv(inc, cells[Index(cols, queue[|queue| - 1]) := cells[Index(cols, queue[|queue| - 1])] + 1],
      rows, cols, queue[..|queue| - 1])
  {
    var top := queue[|queue| - 1];
    var rest := queue[..|queue| - 1];
    var j := Index(cols, top);
    var cells' := cells[j := cells[j] + 1];
    assert queue == rest + [top];
    forall c | InBounds(rows, cols, c)
      ensures CellInv(inc, cells', rows, cols, rest, c)
    {
      assert CellInv(inc, cells, rows, cols, queue, c);
      OccurrencesAppend(rest, [top], c);
      IndexInjective(rows, cols, c, top);
      IndexRange(rows, cols, c);
      CountFlashedUnmarked(cells, rows, cols, Neighbours(c), j, cells[j] + 1);
    }
  }

  lemma PopFlash(inc: seq<int>, cells: seq<int>, rows: nat, cols: nat, queue: seq<Coord>)
    requires CascadeInv(inc, cells, rows, cols, queue)
    requires |queue| > 0 && InBounds(rows, cols, queue[|queue| - 1])
    requires 0 <= Index(cols, queue[|queue| - 1]) < |cells|
    requires 9 <= cells[Index(cols, queue[|queue| - 1])] <= 10
    ensures CascadeInv(inc, cells[Index(cols, queue[|queue| - 1]) := 11], rows, cols,
      queue[..|queue| - 1] + Neighbours(queue[|queue| - 1]))
  {
    var top := queue[|queue| - 1];
    var rest := queue[..|queue| - 1];
    var j := Index(cols, top);
    var cells' := cells[j := 11];
    var queue' := rest + Neighbours(top);
    assert queue == rest + [top];
    forall c | InBounds(rows, cols, c)
      ensures CellInv(inc, cells', rows, cols, queue', c)
    {
      assert CellInv(inc, cells, rows, cols, queue, c);
      OccurrencesAppend(rest, [top], c);
      OccurrencesAppend(rest, Neighbours(top), c);
      OccurrencesInNeighbours(top, c);
      OccurrencesInNeighbours(c, top);
      IndexInjective(rows, cols, c, top);
      IndexRange(rows, cols, c);
      CountFlashedMark(cells, rows, cols, Neighbours(c), top);
    }
  }

  /** Octopuses not marked 11 leave no flashed count behind. */
  lemma {:induction false} CountFlashedNone(cells: seq<int>, rows: nat, cols: nat, ps: seq<Coord>)
    requires |cells| == rows * cols
    requires forall i :: 0 <= i < |cells| ==> cells[i] != 11
    ensures CountFlashed(cells, rows, cols, ps) == 0
    decreases |ps|
  {
    if |ps| > 0 {
      CountFlashedNone(cells, rows, cols, ps[..|ps| - 1]);
      if InBounds(rows, cols, ps[|ps| - 1]) {
        IndexRange(rows, cols, ps[|ps| - 1]);
      }
    }
  }

  /** The levels after the step's first raise: every octopus up by one. */
  function RaiseAll(numbers: seq<int>): (r: seq<int>)
    ensures |r| == |numbers|
    ensures forall i :: 0 <= i < |numbers| ==> r[i] == numbers[i] + 1
  {
    if |numbers| == 0 then []
    else RaiseAll(numbers[..|numbers| - 1]) + [numbers[|numbers| - 1] + 1]
  }

  /** The step's initial queue: the positions, in index order, of the first
      n octopuses that the raise brought to 10. */
  function Tens(f: Field, inc: seq<int>, n: nat): seq<Coord>
    requires WellFormed(f) && |inc| == |f.numbers| && n <= |inc|
  {
    if n == 0 then []
    else
      PositiveFactor(f.rows, f.cols, n - 1);
      Tens(f, inc, n - 1) + (if inc[n - 1] == 10 then [GetCoord(f, n - 1)] else [])
  }

  /** The initial queue holds an on-grid position exactly once when the
      octopus there is at 10, and not at all otherwise. */
  lemma {:induction false} TensOccurrences(f: Field, inc: seq<int>, n: nat, c: Coord)
    requires WellFormed(f) && |inc| == |f.numbers| && n <= |inc|
    requires InBounds(f.rows, f.cols, c)
    ensures 0 <= Index(f.cols, c) < |inc|
    ensures Occurrences(Tens(f, inc, n), c)
      == if Index(f.cols, c) < n && inc[Index(f.cols, c)] == 10 then 1 else 0
  {
    IndexRange(f.rows, f.cols, c);
    if n > 0 {
      TensOccurrences(f, inc, n - 1, c);
      PositiveFactor(f.rows, f.cols, n - 1);
      var last := if inc[n - 1] == 10 then [GetCoord(f, n - 1)] else [];
      OccurrencesAppend(Tens(f, inc, n - 1), last, c);
      GetCoordRoundTrip(f, n - 1);
      IndexInjective(f.rows, f.cols, GetCoord(f, n - 1), c);
    }
  }

  /** Right after the raise, with the initial queue, the cascade invariant
      holds. */
  lemma StartCascade(f: Field)
    requires AtRest(f)
    ensures CascadeInv(RaiseAll(f.numbers), RaiseAll(f.numbers), f.rows, f.cols,
      Tens(f, RaiseAll(f.numbers), |f.numbers|))
  {
    var inc := RaiseAll(f.numbers);
    var queue := Tens(f, inc, |inc|);
    forall c | InBounds(f.rows, f.cols, c)
      ensures CellInv(inc, inc, f.rows, f.cols, queue, c)
    {
      TensOccurrences(f, inc, |inc|, c);
      CountFlashedNone(inc, f.rows, f.cols, Neighbours(c));
    }
  }

  /** Number of zeros in s. */
  function CountZero(s: seq<int>): (n: nat)
    ensures n <= |s|
    ensures n == |s| <==> forall i :: 0 <= i < |s| ==> s[i] == 0
  {
    if |s| == 0 then 0
    else CountZero(s[..|s| - 1]) + (if s[|s| - 1] == 0 then 1 else 0)
  }

  /** The reset loop at the end of Field::step: every octopus that flashed
      goes back to 0. */
  function ResetAll(cells: seq<int>): (r: seq<int>)
    requires InRange(cells, 1, 11)
    ensures |r| == |cells|
    ensures forall i :: 0 <= i < |cells| ==> r[i] == if cells[i] >= 10 then 0 else cells[i]
  {
    seq(|cells|, i requires 0 <= i < |cells| => if cells[i] >= 10 then 0 else cells[i])
  }

  /** Number of positions in ps that are on the grid and selected by mask. */
  function CountMasked(mask: seq<bool>, rows: nat, cols: nat, ps: seq<Coord>): nat
    requires |mask| == rows * cols
  {
    if |ps| == 0 then 0
    else
      var p := ps[|ps| - 1];
      var here := if InBounds(rows, cols, p) then
          IndexRange(rows, cols, p);
          (if mask[Index(cols, p)] then 1 else 0)
        else 0;
      CountMasked(mask, rows, cols, ps[..|ps| - 1]) + here
  }

  function ZeroMask(s: seq<int>): seq<bool>
  {
    seq(|s|, i requires 0 <= i < |s| => s[i] == 0)
  }

  /** A set of octopuses (a mask over the grid) that is closed under
      flashing, against the raised levels inc: every octopus whose raised
      level plus its neighbours in the set reach 10 is in the set. */
  ghost predicate CellClosed(inc: seq<int>, mask: seq<bool>, rows: nat, cols: nat, c: Coord)
    requires |inc| == |mask| == rows * cols
    requires InBounds(rows, cols, c)
  {
    IndexRange(rows, cols, c);
    inc[Index(cols, c)] + CountMasked(mask, rows, cols, Neighbours(c)) >= 10 ==> mask[Index(cols, c)]
  }

  ghost predicate Closed(inc: seq<int>, mask: seq<bool>, rows: nat, cols: nat)
  {
    && |inc| == |mask| == rows * cols
    && forall c {:trigger CellClosed(inc, mask, rows, cols, c)} :: InBounds(rows, cols, c) ==> CellClosed(inc, mask, rows, cols, c)
  }

  ghost predicate Within(a: seq<bool>, b: seq<bool>)
  {
    |a| == |b| && forall i :: 0 <= i < |a| && a[i] ==> b[i]
  }

  /** One octopus after a step, against its raised level: if it flashed
      (now 0), its raised level plus its flashed neighbours reached 10;
      otherwise it holds exactly its raised level plus its flashed
      neighbours. */
  ghost predicate CellStepped(inc: seq<int>, out: seq<int>, rows: nat, cols: nat, c: Coord)
    requires |inc| == |out| == rows * cols
    requires InBounds(rows, cols, c)
  {
    IndexRange(rows, cols, c);
    var i := Index(cols, c);
    var around := CountMasked(ZeroMask(out), rows, cols, Neighbours(c));
    && (out[i] == 0 ==> inc[i] + around >= 10)
    && (out[i] != 0 ==> out[i] == inc[i] + around)
  }

  ghost predicate Stepped(inc: seq<int>, out: seq<int>, rows: nat, cols: nat)
    requires |inc| == |out| == rows * cols
  {
    forall c {:trigger CellStepped(inc, out, rows, cols, c)} :: InBounds(rows, cols, c) ==> CellStepped(inc, out, rows, cols, c)
  }

  /** If every octopus marked 11 is in the mask, the flashed count is at
      most the masked count. */
  lemma {:induction false} CountFlashedBelowMask(cells: seq<int>, mask: seq<bool>, rows: nat, cols: nat, ps: seq<Coord>)
    requires |cells| == |mask| == rows * cols
    requires FlashedWithin(cells, mask)
    ensures CountFlashed(cells, rows, cols, ps) <= CountMasked(mask, rows, cols, ps)
    decreases |ps|
  {
    if |ps| > 0 {
      CountFlashedBelowMask(cells, mask, rows, cols, ps[..|ps| - 1]);
      if InBounds(rows, cols, ps[|ps| - 1]) {
        IndexRange(rows, cols, ps[|ps| - 1]);
      }
    }
  }

  /** After the reset, the octopuses at 0 are exactly those that were marked
      11, provided none was left at 10. */
  lemma {:induction false} CountFlashedIsZeros(cells: seq<int>, rows: nat, cols: nat, ps: seq<Coord>)
    requires |cells| == rows * cols
    requires InRange(cells, 1, 11)
    requires forall i :: 0 <= i < |cells| ==> cells[i] != 10
    ensures CountFlashed(cells, rows, cols, ps) == CountMasked(ZeroMask(ResetAll(cells)), rows, cols, ps)
    decreases |ps|
  {
    if |ps| > 0 {
      CountFlashedIsZeros(cells, rows, cols, ps[..|ps| - 1]);
      if InBounds(rows, cols, ps[|ps| - 1]) {
        IndexRange(rows, cols, ps[|ps| - 1]);
      }
    }
  }

  /** A settled grid leaves no octopus at 10. */
  lemma SettledNoTen(inc: seq<int>, cells: seq<int>, rows: nat, cols: nat)
    requires |inc| == |cells| == rows * cols
    requires Settled(inc, cells, rows, cols)
    ensures forall i :: 0 <= i < |cells| ==> cells[i] != 10
  {
    forall i | 0 <= i < |cells|
      ensures cells[i] != 10
    {
      RowMajorCoord(rows, cols, i);
      var c := (i % cols, i / cols);
      assert Index(cols, c) == i;
      assert CellSettled(inc, cells, rows, cols, c);
    }
  }

  /** Every octopus marked 11 is selected by mask. */
  ghost predicate FlashedWithin(cells: seq<int>, mask: seq<bool>)
  {
    |cells| == |mask| && forall i :: 0 <= i < |cells| && cells[i] == 11 ==> mask[i]
  }

  /** An octopus about to flash lies in every closed set holding the
      octopuses already flashed. */
  lemma FlashInMask(inc: seq<int>, cells: seq<int>, rows: nat, cols: nat, queue: seq<Coord>, mask: seq<bool>)
    requires CascadeInv(inc, cells, rows, cols, queue)
    requires Closed(inc, mask, rows, cols)
    requires FlashedWithin(cells, mask)
    requires |queue| > 0 && InBounds(rows, cols, queue[|queue| - 1])
    requires 0 <= Index(cols, queue[|queue| - 1]) < |cells|
    requires 9 <= cells[Index(cols, queue[|queue| - 1])] <= 10
    ensures mask[Index(cols, queue[|queue| - 1])]
  {
    var c := queue[|queue| - 1];
    assert queue == queue[..|queue| - 1] + [c];
    assert CellInv(inc, cells, rows, cols, queue, c);
    assert CellClosed(inc, mask, rows, cols, c);
    OccurrencesAppend(queue[..|queue| - 1], [c], c);
    CountFlashedBelowMask(cells, mask, rows, cols, Neighbours(c));
  }

  /** The cascade flashes no octopus outside any set closed under flashing
      that already holds the octopuses marked 11: what it flashes is the
      least such set. */
  lemma {:induction false} CascadeLeast(inc: seq<int>, cells: seq<int>, rows: nat, cols: nat, queue: seq<Coord>, mask: seq<bool>)
    requires CascadeInv(inc, cells, rows, cols, queue)
    requires Closed(inc, mask, rows, cols)
    requires FlashedWithin(cells, mask)
    ensures FlashedWithin(Cascade(inc, cells, rows, cols, queue), mask)
    decreases Potential(cells), |queue|
  {
    if |queue| > 0 {
      var c := queue[|queue| - 1];
      var rest := queue[..|queue| - 1];
      if !InBounds(rows, cols, c) {
        PopOffGrid(inc, cells, rows, cols, queue);
        assert Cascade(inc, cells, rows, cols, queue) == Cascade(inc, cells, rows, cols, rest);
        CascadeLeast(inc, cells, rows, cols, rest, mask);
      } else {
        IndexRange(rows, cols, c);
        var i := Index(cols, c);
        var v := cells[i];
        if v == 9 || v == 10 {
          FlashInMask(inc, cells, rows, cols, queue, mask);
          assert FlashedWithin(cells[i := 11], mask);
          PotentialRaise(cells, i, 11);
          PopFlash(inc, cells, rows, cols, queue);
          assert Cascade(inc, cells, rows, cols, queue) == Cascade(inc, cells[i := 11], rows, cols, rest + Neighbours(c));
          CascadeLeast(inc, cells[i := 11], rows, cols, rest + Neighbours(c), mask);
        } else if v == 11 {
          PopFlashed(inc, cells, rows, cols, queue);
          assert Cascade(inc, cells, rows, cols, queue) == Cascade(inc, cells, rows, cols, rest);
          CascadeLeast(inc, cells, rows, cols, rest, mask);
        } else {
          PotentialRaise(cells, i, v + 1);
          assert FlashedWithin(cells[i := v + 1], mask);
          PopRaise(inc, cells, rows, cols, queue);
          assert Cascade(inc, cells, rows, cols, queue) == Cascade(inc, cells[i := v + 1], rows, cols, rest);
          CascadeLeast(inc, cells[i := v + 1], rows, cols, rest, mask);
        }
      }
    }
  }

  /** One octopus after the reset, from its settled state. */
  lemma CellFacts(inc: seq<int>, cells: seq<int>, rows: nat, cols: nat, c: Coord)
    requires |inc| == |cells| == rows * cols
    requires InRange(inc, 1, 10) && InRange(cells, 1, 11)
    requires forall i :: 0 <= i < |cells| ==> cells[i] != 10
    requires InBounds(rows, cols, c)
    requires CellSettled(inc, cells, rows, cols, c)
    ensures CellStepped(inc, ResetAll(cells), rows, cols, c)
    ensures CellClosed(inc, ZeroMask(ResetAll(cells)), rows, cols, c)
  {
    CountFlashedIsZeros(cells, rows, cols, Neighbours(c));
    IndexRange(rows, cols, c);
  }

  /** The facts about one step that Step states, from the cascade's result. */
  lemma StepFacts(f: Field, cells: seq<int>)
    requires AtRest(f)
    requires |cells| == |f.numbers|
    requires InRange(cells, 1, 11)
    requires Settled(RaiseAll(f.numbers), cells, f.rows, f.cols)
    requires forall mask :: Closed(RaiseAll(f.numbers), mask, f.rows, f.cols) ==> FlashedWithin(cells, mask)
    ensures AtRest(Field(ResetAll(cells), f.rows, f.cols))
    ensures Stepped(RaiseAll(f.numbers), ResetAll(cells), f.rows, f.cols)
    ensures Closed(RaiseAll(f.numbers), ZeroMask(ResetAll(cells)), f.rows, f.cols)
    ensures forall mask :: Closed(RaiseAll(f.numbers), mask, f.rows, f.cols) ==>
      Within(ZeroMask(ResetAll(cells)), mask)
  {
    var inc := RaiseAll(f.numbers);
    var out := ResetAll(cells);
    SettledNoTen(inc, cells, f.rows, f.cols);
    forall c | InBounds(f.rows, f.cols, c)
      ensures CellStepped(inc, out, f.rows, f.cols, c) && CellClosed(inc, ZeroMask(out), f.rows, f.cols, c)
    {
      CellFacts(inc, cells, f.rows, f.cols, c);
    }
  }

  /** The cascade of one step, from the raised levels and the initial
      queue. */
  function Cascaded(f: Field): (cells: seq<int>)
    requires AtRest(f)
    ensures |cells| == |f.numbers|
    ensures InRange(cells, 1, 11)
    ensures Settled(RaiseAll(f.numbers), cells, f.rows, f.cols)
  {
    var inc := RaiseAll(f.numbers);
    StartCascade(f);
    Cascade(inc, inc, f.rows, f.cols, Tens(f, inc, |inc|))
  }

  /** The cascade started from the raised levels flashes only octopuses that
      every closed set holds. */
  lemma StepLeast(f: Field)
    requires AtRest(f)
    ensures forall mask :: Closed(RaiseAll(f.numbers), mask, f.rows, f.cols) ==> FlashedWithin(Cascaded(f), mask)
  {
    var inc := RaiseAll(f.numbers);
    StartCascade(f);
    var queue := Tens(f, inc, |inc|);
    forall mask | Closed(inc, mask, f.rows, f.cols)
      ensures FlashedWithin(Cascade(inc, inc, f.rows, f.cols, queue), mask)
    {
      CascadeLeast(inc, inc, f.rows, f.cols, queue, mask);
    }
  }

  /** Field::step: raise every octopus, let the flashes cascade, reset the
      flashed octopuses to 0 and count them. */
  function Step(f: Field): (r: (Field, nat))
    requires AtRest(f)
    ensures AtRest(r.0) && r.0.rows == f.rows && r.0.cols == f.cols
    ensures r.1 == CountZero(r.0.numbers) && r.1 <= |f.numbers|
  {
    var cells := Cascaded(f);
    StepLeast(f);
    StepFacts(f, cells);
    var out := ResetAll(cells);
    (Field(out, f.rows, f.cols), CountZero(out))
  }

  /** What one step computes, in terms of its input and output alone: the
      octopuses that flash (end at 0) form a set closed under flashing and
      lie in every such set, so they are the least one; every other octopus
      ends at its raised level plus its number of flashed neighbours. */
  lemma StepFixedPoint(f: Field)
    requires AtRest(f)
    ensures Stepped(RaiseAll(f.numbers), Step(f).0.numbers, f.rows, f.cols)
    ensures Closed(RaiseAll(f.numbers), ZeroMask(Step(f).0.numbers), f.rows, f.cols)
    ensures forall mask :: Closed(RaiseAll(f.numbers), mask, f.rows, f.cols) ==>
      Within(ZeroMask(Step(f).0.numbers), mask)
  {
    StepLeast(f);
    StepFacts(f, Cascaded(f));
  }

  /** n rounds of step from f: the grid reached and the sum of the counts
      each round reported. Stated for any step function, so that facts
      about repeating a step need nothing from the step itself. */
  function Iterate(step: Field -> (Field, nat), f: Field, n: nat): (Field, nat)
  {
    if n == 0 then (f, 0)
    else
      var (g, total) := Iterate(step, f, n - 1);
      (step(g).0, total + step(g).1)
  }

  /** a + b rounds are a rounds followed by b more; the counts add up. */
  lemma {:induction false} IterateAdd(step: Field -> (Field, nat), f: Field, a: nat, b: nat)
    ensures Iterate(step, f, a + b).0 == Iterate(step, Iterate(step, f, a).0, b).0
    ensures Iterate(step, f, a + b).1 == Iterate(step, f, a).1 + Iterate(step, Iterate(step, f, a).0, b).1
    decreases b
  {
    if b > 0 {
      IterateAdd(step, f, a, b - 1);
      assert a + b - 1 == a + (b - 1);
    }
  }

  /** A property every round preserves holds after any number of rounds. */
  lemma {:induction false} IterateInvariant(step: Field -> (Field, nat), inv: Field -> bool, f: Field, n: nat)
    requires forall x :: inv(x) ==> inv(step(x).0)
    requires inv(f)
    ensures inv(Iterate(step, f, n).0)
  {
    if n > 0 {
      IterateInvariant(step, inv, f, n - 1);
    }
  }

  /** When every round keeps the number of octopuses and counts at most
      that many, n rounds count at most n times as many. */
  lemma {:induction false} IterateBound(step: Field -> (Field, nat), f: Field, n: nat)
    requires forall x :: |step(x).0.numbers| == |x.numbers| && step(x).1 <= |x.numbers|
    ensures |Iterate(step, f, n).0.numbers| == |f.numbers|
    ensures Iterate(step, f, n).1 <= n * |f.numbers|
  {
    if n > 0 {
      IterateBound(step, f, n - 1);
      assert n * |f.numbers| == (n - 1) * |f.numbers| + |f.numbers|;
    }
  }

  /** One step, for a grid at rest; a grid that is not at rest never
      arises, and is left as it is. */
  function StepAtRest(f: Field): (r: (Field, nat))
    ensures AtRest(f) ==> r == Step(f)
    ensures AtRest(f) ==> AtRest(r.0)
    ensures |r.0.numbers| == |f.numbers| && r.1 <= |f.numbers|
  {
    if AtRest(f) then Step(f) else (f, 0)
  }

  /** Field::n_step: n steps in a row, and the flashes they count together. */
  function NStep(f: Field, n: nat): (r: (Field, nat))
    requires AtRest(f)
    ensures AtRest(r.0) && |r.0.numbers| == |f.numbers|
    ensures r.1 <= n * |f.numbers|
  {
    IterateInvariant(StepAtRest, AtRest, f, n);
    IterateBound(StepAtRest, f, n);
    Iterate(StepAtRest, f, n)
  }

  /** Running a + b steps is running a steps and then b more. */
  lemma NStepAdd(f: Field, a: nat, b: nat)
    requires AtRest(f)
    ensures NStep(f, a + b).0 == NStep(NStep(f, a).0, b).0
    ensures NStep(f, a + b).1 == NStep(f, a).1 + NStep(NStep(f, a).0, b).1
  {
    IterateAdd(StepAtRest, f, a, b);
  }

  /** One more round after k rounds. */
  lemma IterateSucc(step: Field -> (Field, nat), f: Field, k: nat)
    ensures Iterate(step, f, k + 1).0 == step(Iterate(step, f, k).0).0
    ensures Iterate(step, f, k + 1).1 == Iterate(step, f, k).1 + step(Iterate(step, f, k).0).1
  {
  }

  /** One more step after k steps. */
  lemma NStepSucc(f: Field, k: nat)
    requires AtRest(f)
    ensures NStep(f, k + 1).0 == Step(NStep(f, k).0).0
    ensures NStep(f, k + 1).1 == NStep(f, k).1 + Step(NStep(f, k).0).1
  {
    IterateSucc(StepAtRest, f, k);
  }

  /** The flashes counted by the k-th step (from 1) from f. */
  function Flashes(f: Field, k: nat): (n: nat)
    requires AtRest(f) && k >= 1
    ensures n <= |f.numbers|
  {
    Step(NStep(f, k - 1).0).1
  }

  /** part_one: the flashes of the first hundred steps. */
  function PartOne(f: Field): (r: nat)
    requires AtRest(f)
    ensures r <= 100 * |f.numbers|
    ensures r == NStep(f, 99).1 + Flashes(f, 100)
  {
    NStepSucc(f, 99);
    NStep(f, 100).1
  }

  /** A step in which every octopus flashes leaves the whole grid at 0. */
  lemma SyncMeansDark(f: Field)
    requires AtRest(f)
    requires Step(f).1 == |f.numbers|
    ensures forall i :: 0 <= i < |f.numbers| ==> Step(f).0.numbers[i] == 0
  {
  }

  /** No step before the one numbered until has every octopus flash. */
  ghost predicate NoSyncBefore(f: Field, until: nat)
    requires AtRest(f)
  {
    forall k :: 1 <= k < until ==> Flashes(f, k) < |f.numbers|
  }

  lemma NoSyncExtend(f: Field, until: nat)
    requires AtRest(f) && until >= 1
    requires NoSyncBefore(f, until) && Flashes(f, until) < |f.numbers|
    ensures NoSyncBefore(f, until + 1)
  {
    forall k | 1 <= k < until + 1
      ensures Flashes(f, k) < |f.numbers|
    {
      if k < until {
        assert Flashes(f, k) < |f.numbers|;
      } else {
        assert k == until;
      }
    }
  }

  /** part_two: the first step in which every octopus flashes. The source
      loops until one comes; here the search stops after limit steps. */
  method PartTwo(f: Field, limit: nat) returns (r: Option<nat>)
    requires AtRest(f)
    ensures r.Some? ==> 1 <= r.value <= limit && Flashes(f, r.value) == |f.numbers|
    ensures r.Some? ==> forall k :: 1 <= k < r.value ==> Flashes(f, k) < |f.numbers|
    ensures r.None? <==> forall k :: 1 <= k <= limit ==> Flashes(f, k) < |f.numbers|
  {
    var g := f;
    var step := 1;
    while step <= limit
      invariant 1 <= step <= limit + 1
      invariant AtRest(g) && g == NStep(f, step - 1).0
      invariant NoSyncBefore(f, step)
    {
      var (h, flashes) := Step(g);
      assert |g.numbers| == |f.numbers|;
      assert Flashes(f, step) == flashes;
      if flashes >= |g.numbers| {
        return Some(step);
      }
      NoSyncExtend(f, step);
      NStepSucc(f, step - 1);
      g := h;
      step := step + 1;
    }
    return None;
  }

  predicate AllDigits(s: string)
  {
    forall i :: 0 <= i < |s| ==> IsDigit(s[i])
  }

  /** The lines of the input joined without their line breaks. */
  function Concat(lines: seq<string>): (s: string)
    ensures |lines| > 0 ==> |s| >= |lines[0]|
  {
    if |lines| == 0 then [] else Concat(lines[..|lines| - 1]) + lines[|lines| - 1]
  }

  /** Field::from_str: the digits of all lines in order, as many rows as
      lines and as many columns as the first line is long. The source
      panics on an empty input or a character that is not a digit. */
  function FromLines(lines: seq<string>): (r: Option<Field>)
    ensures r.Some? <==> |lines| > 0 && AllDigits(Concat(lines))
    ensures r.Some? ==> r.value.rows == |lines| && r.value.cols == |lines[0]|
  {
    var s := Concat(lines);
    if |lines| == 0 || !AllDigits(s) then None
    else Some(Field(seq(|s|, i requires 0 <= i < |s| => s[i] as int - '0' as int), |lines|, |lines[0]|))
  }

  /** When every line is as long as the first, the character at column x
      of line y sits at cols * y + x of the joined text. */
  lemma {:induction false} ConcatIndex(lines: seq<string>, cols: nat, x: nat, y: nat)
    requires forall k :: 0 <= k < |lines| ==> |lines[k]| == cols
    requires x < cols && y < |lines|
    ensures |Concat(lines)| == |lines| * cols
    ensures cols * y + x < |Concat(lines)| && Concat(lines)[cols * y + x] == lines[y][x]
  {
    var n := |lines|;
    var front := lines[..n - 1];
    ConcatLength(lines, cols);
    ConcatLength(front, cols);
    assert Concat(lines) == Concat(front) + lines[n - 1];
    assert |Concat(front)| == cols * (n - 1);
    if y < n - 1 {
      ConcatIndex(front, cols, x, y);
      assert front[y] == lines[y];
    } else {
      assert cols * y + x == |Concat(front)| + x;
    }
  }

  lemma {:induction false} ConcatLength(lines: seq<string>, cols: nat)
    requires forall k :: 0 <= k < |lines| ==> |lines[k]| == cols
    ensures |Concat(lines)| == |lines| * cols
  {
    if |lines| > 0 {
      ConcatLength(lines[..|lines| - 1], cols);
      assert |lines| * cols == (|lines| - 1) * cols + cols;
    }
  }

  /** Parsing a rectangular block of digits gives a grid at rest in which
      the octopus at (x, y) has the value of the digit at column x of line
      y. */
  lemma FromLinesGet(lines: seq<string>, x: nat, y: nat)
    requires |lines| > 0
    requires forall k :: 0 <= k < |lines| ==> |lines[k]| == |lines[0]|
    requires forall k, j :: 0 <= k < |lines| && 0 <= j < |lines[k]| ==> IsDigit(lines[k][j])
    requires x < |lines[0]| && y < |lines|
    ensures FromLines(lines).Some?
    ensures AtRest(FromLines(lines).value)
    ensures Get(FromLines(lines).value, x, y) == Some(lines[y][x] as int - '0' as int)
  {
    var cols := |lines[0]|;
    var s := Concat(lines);
    ConcatLength(lines, cols);
    forall i | 0 <= i < |s|
      ensures IsDigit(s[i])
    {
      RowMajorCoord(|lines|, cols, i);
      ConcatIndex(lines, cols, i % cols, i / cols);
    }
    ConcatIndex(lines, cols, x, y);
  }
}
