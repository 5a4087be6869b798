/** Day 13: transparent paper with dots, folded along horizontal and
    vertical lines.  The paper is a row-major grid of booleans; a fold
    reflects the far half onto the near half and keeps the near half only. */
module Origami {
  import opened Common

  /** A fold instruction: along the vertical line x = at, or the horizontal
      line y = at. */
  datatype Fold = X(at: nat) | Y(at: nat)

  /** The sheet: content holds rows * cols cells, row by row. */
  datatype Field = Field(content: seq<bool>, rows: nat, cols: nat)

  predicate Valid(f: Field)
  {
    |f.content| == f.rows * f.cols
  }

  /** `Fold::from_str`: the first eleven characters ("fold along ") are
      skipped, the next one is the axis, one more is skipped (the '='), and
      the rest is the coordinate.  A missing axis, an axis other than x or y,
      and a coordinate that does not parse all panic (None). */
  function ParseFold(line: string): (r: Option<Fold>)
    ensures r.Some? <==> |line| > 12 && (line[11] == 'x' || line[11] == 'y') && ParseNat(line[13..]).Some?
    ensures r.Some? ==> r.value.X? == (line[11] == 'x') && Some(r.value.at) == ParseNat(line[13..])
  {
    if |line| < 12 then None
    else
      var rest := if |line| > 12 then line[13..] else [];
      match line[11]
      case 'x' => (match ParseNat(rest) case Some(n) => Some(X(n)) case None => None)
      case 'y' => (match ParseNat(rest) case Some(n) => Some(Y(n)) case None => None)
      case _ => None
  }

  /** The instruction as the puzzle input writes it. */
  function ShowFold(fold: Fold): string
  {
    "fold along " + (if fold.X? then "x" else "y") + "=" + Show(fold.at)
  }

  /** Every instruction written out in the input's format parses back to
      itself. */
  lemma ParseShowFold(fold: Fold)
    ensures ParseFold(ShowFold(fold)) == Some(fold)
  {
    var line := ShowFold(fold);
    ParseShow(fold.at);
    assert line[13..] == Show(fold.at);
  }

  /** The two instructions of the sample input. */
  lemma SampleFolds()
    ensures ParseFold("fold along y=7") == Some(Y(7))
    ensures ParseFold("fold along x=5") == Some(X(5))
  {
    assert "fold along y=7"[13..] == "7" && "7"[..0] == [];
    assert ParseNat("7") == Some(7);
    assert "fold along x=5"[13..] == "5" && "5"[..0] == [];
    assert ParseNat("5") == Some(5);
  }

  /** `get_index`: the storage index of column x, row y. */
  function Index(f: Field, x: nat, y: nat): nat
  {
    f.cols * y + x
  }

  /** `get_coord`: the column and row of a storage index; dividing by zero
      columns panics. */
  function Coord(f: Field, index: nat): (r: Option<(nat, nat)>)
    ensures r.None? <==> f.cols == 0
    ensures r.Some? ==> r.value.0 < f.cols
  {
    if f.cols == 0 then None else Some((index % f.cols, index / f.cols))
  }

  /** get_coord undoes get_index for every column inside the sheet. */
  lemma CoordIndex(f: Field, x: nat, y: nat)
    requires x < f.cols
    ensures Coord(f, Index(f, x, y)) == Some((x, y))
  {
    DivModUnique(Index(f, x, y), f.cols, y, x);
  }

  /** get_index undoes get_coord for every index inside the storage, and the
      coordinates it gives lie inside the sheet. */
  lemma IndexCoord(f: Field, index: nat)
    requires Valid(f) && index < |f.content|
    ensures Coord(f, index).Some?
    ensures var (x, y) := Coord(f, index).value; x < f.cols && y < f.rows && Index(f, x, y) == index
  {
    RowMajorCoord(f.rows, f.cols, index);
  }

  /** The storage index of column x, row y lies inside the storage.  The
      index operator reads the storage at that index whether or not x is a
      column of the sheet. */
  predicate Readable(f: Field, x: nat, y: nat)
  {
    Index(f, x, y) < |f.content|
  }

  /** The cell the index operator reads at (x, y); false where it would
      panic. */
  function Cell(f: Field, x: nat, y: nat): bool
  {
    Readable(f, x, y) && f.content[Index(f, x, y)]
  }

  /** The dots of the sheet, as points. */
  function Dots(f: Field): set<(nat, nat)>
  {
    set x: nat, y: nat | x < f.cols && y < f.rows && Cell(f, x, y) :: (x, y)
  }

  /** Marking one cell of a sheet sets that cell and no other. */
  lemma Mark(f: Field, x: nat, y: nat)
    requires Valid(f) && x < f.cols && y < f.rows
    ensures Index(f, x, y) < |f.content|
    ensures var g := f.(content := f.content[Index(f, x, y) := true]);
      Valid(g) && forall u: nat, v: nat :: u < f.cols && v < f.rows ==> (Cell(g, u, v) <==> Cell(f, u, v) || (u == x && v == y))
  {
    RowMajorFacts(f.rows, f.cols, x, y);
    var g := f.(content := f.content[Index(f, x, y) := true]);
    forall u: nat, v: nat | u < f.cols && v < f.rows
      ensures Cell(g, u, v) <==> Cell(f, u, v) || (u == x && v == y)
    {
      RowMajorFacts(f.rows, f.cols, u, v);
    }
  }

  /** The largest x and the largest y among the points. */
  method Extent(points: seq<(nat, nat)>) returns (maxX: nat, maxY: nat)
    requires |points| > 0
    ensures forall p :: p in points ==> p.0 <= maxX && p.1 <= maxY
    ensures (exists p :: p in points && p.0 == maxX) && (exists p :: p in points && p.1 == maxY)
  {
    maxX, maxY := points[0].0, points[0].1;
    for i := 1 to |points|
      invariant forall j :: 0 <= j < i ==> points[j].0 <= maxX && points[j].1 <= maxY
      invariant exists j :: 0 <= j < i && points[j].0 == maxX
      invariant exists j :: 0 <= j < i && points[j].1 == maxY
    {
      if points[i].0 > maxX {
        maxX := points[i].0;
      }
      if points[i].1 > maxY {
        maxY := points[i].1;
      }
    }
  }

  /** `Field::from_str` on the already split and parsed list of dots: the
      sheet is one column wider than the largest x and one row taller than
      the largest y, and exactly the listed points are dots.  An empty list
      panics (None). */
  method FromPoints(points: seq<(nat, nat)>) returns (r: Option<Field>)
    ensures r.None? <==> |points| == 0
    ensures r.Some? ==> Valid(r.value)
    ensures r.Some? ==> forall p :: p in points ==> p.0 < r.value.cols && p.1 < r.value.rows
    ensures r.Some? ==> (exists p :: p in points && p.0 + 1 == r.value.cols) && (exists p :: p in points && p.1 + 1 == r.value.rows)
    ensures r.Some? ==> Dots(r.value) == set p | p in points
  {
    if |points| == 0 {
      return None;
    }
    var maxX, maxY := Extent(points);
    var cols, rows := maxX + 1, maxY + 1;
    var f := Field(seq(cols * rows, _ => false), rows, cols);
    for k := 0 to |points|
      invariant Valid(f) && f.rows == rows && f.cols == cols
      invariant forall x: nat, y: nat :: x < cols && y < rows ==> (Cell(f, x, y) <==> (x, y) in points[..k])
    {
      var (x, y) := points[k];
      assert points[k] in points;
      Mark(f, x, y);
      assert points[..k + 1] == points[..k] + [points[k]];
      f := f.(content := f.content[Index(f, x, y) := true]);
    }
    assert points[..|points|] == points;
    r := Some(f);
  }

  /** The cell mirrored across the line y = row. */
  function AcrossY(f: Field, row: nat, x: nat, y: nat): bool
    requires y <= 2 * row
  {
    Cell(f, x, 2 * row - y)
  }

  /** The cell mirrored across the line x = col. */
  function AcrossX(f: Field, col: nat, x: nat, y: nat): bool
    requires x <= 2 * col
  {
    Cell(f, 2 * col - x, y)
  }

  /** Whether the fold keeps every read inside the rows of the sheet: the
      mirror of each kept column or row is a column or row of the sheet,
      or there is nothing to fold. */
  predicate Inside(f: Field, fold: Fold)
  {
    match fold
    case X(col) => f.rows == 0 || col == 0 || 2 * col < f.cols
    case Y(row) => f.cols == 0 || row == 0 || 2 * row < f.rows
  }

  /** Both cells that folding along y = row combines at (x, y), the cell and
      its mirror image, lie inside the storage. */
  predicate ReadsY(f: Field, row: nat, x: nat, y: nat)
    requires y <= 2 * row
  {
    Readable(f, x, y) && Readable(f, x, 2 * row - y)
  }

  /** Both cells that folding along x = col combines at (x, y) lie inside the
      storage. */
  predicate ReadsX(f: Field, col: nat, x: nat, y: nat)
    requires x <= 2 * col
  {
    Readable(f, x, y) && Readable(f, 2 * col - x, y)
  }

  /** Both cells of every kept position of the fold along y = row lie
      inside the storage exactly when the mirror of row 0 is a row of the
      sheet (or the sheet has no columns, or row is 0). */
  lemma ReadsYExactly(f: Field, row: nat)
    requires Valid(f)
    ensures (exists x: nat, y: nat :: x < f.cols && y < row && !ReadsY(f, row, x, y)) <==> !Inside(f, Y(row))
  {
    if !Inside(f, Y(row)) {
      MulMonotone(f.cols, f.rows, 2 * row);
      assert !ReadsY(f, row, 0, 0);
    } else {
      forall x: nat, y: nat | x < f.cols && y < row
        ensures ReadsY(f, row, x, y)
      {
        RowMajorFacts(f.rows, f.cols, x, y);
        RowMajorFacts(f.rows, f.cols, x, 2 * row - y);
      }
    }
  }

  /** Both cells of every kept position of the fold along x = col lie
      inside the storage exactly when the mirror of column 0 is a column of
      the sheet (or the sheet has no rows, or col is 0).  Otherwise the
      mirror read of the last row runs past the storage; on earlier rows it
      lands in the next row. */
  lemma ReadsXExactly(f: Field, col: nat)
    requires Valid(f)
    ensures (exists x: nat, y: nat :: x < col && y < f.rows && !ReadsX(f, col, x, y)) <==> !Inside(f, X(col))
  {
    if !Inside(f, X(col)) {
      assert f.cols * (f.rows - 1) + f.cols == f.rows * f.cols;
      assert !ReadsX(f, col, 0, f.rows - 1);
    } else {
      forall x: nat, y: nat | x < col && y < f.rows
        ensures ReadsX(f, col, x, y)
      {
        RowMajorFacts(f.rows, f.cols, x, y);
        RowMajorFacts(f.rows, f.cols, 2 * col - x, y);
      }
    }
  }

  /** The reads `folded_y` makes at (x, y) do not panic: the cell is read,
      and only when it is empty is its mirror image read, since `||` stops
      at a set cell. */
  predicate FoldsY(f: Field, row: nat, x: nat, y: nat)
    requires y <= 2 * row
  {
    Readable(f, x, y) && (Cell(f, x, y) || Readable(f, x, 2 * row - y))
  }

  /** The reads `folded_x` makes at (x, y) do not panic. */
  predicate FoldsX(f: Field, col: nat, x: nat, y: nat)
    requires x <= 2 * col
  {
    Readable(f, x, y) && (Cell(f, x, y) || Readable(f, 2 * col - x, y))
  }

  /** `folded_y`: the sheet of the first row rows, each cell set when the
      cell or its mirror image across y = row is set.  Rows beyond 2 * row
      are dropped.  It panics (None) exactly when some position reads
      outside the storage. */
  function FoldedY(f: Field, row: nat): (r: Option<Field>)
    ensures r.None? <==> exists x: nat, y: nat :: x < f.cols && y < row && !FoldsY(f, row, x, y)
    ensures r.Some? ==> Valid(r.value) && r.value.rows == row && r.value.cols == f.cols
    ensures r.Some? ==> forall x: nat, y: nat :: x < f.cols && y < row ==>
      Cell(r.value, x, y) == (Cell(f, x, y) || AcrossY(f, row, x, y))
  {
    if exists x: nat, y: nat :: x < f.cols && y < row && !FoldsY(f, row, x, y) then None
    else Some(FoldYField(f, row))
  }

  /** The sheet folded_y builds, reading a cell outside the storage as
      empty. */
  function FoldYField(f: Field, row: nat): (g: Field)
    ensures Valid(g) && g.rows == row && g.cols == f.cols
    ensures forall x: nat, y: nat :: x < f.cols && y < row ==> Cell(g, x, y) == (Cell(f, x, y) || AcrossY(f, row, x, y))
  {
    var g := Field(seq(row * f.cols, i requires 0 <= i < row * f.cols => FoldYAt(f, row, i)), row, f.cols);
    FoldYCells(f, row, g);
    g
  }

  function FoldYAt(f: Field, row: nat, i: nat): bool
    requires i < row * f.cols
  {
    RowMajorCoord(row, f.cols, i);
    var (x, y) := (i % f.cols, i / f.cols);
    Cell(f, x, y) || AcrossY(f, row, x, y)
  }

  lemma FoldYCells(f: Field, row: nat, g: Field)
    requires g.rows == row && g.cols == f.cols && |g.content| == row * f.cols
    requires forall i :: 0 <= i < row * f.cols ==> g.content[i] == FoldYAt(f, row, i)
    ensures forall x: nat, y: nat :: x < f.cols && y < row ==> Cell(g, x, y) == (Cell(f, x, y) || AcrossY(f, row, x, y))
  {
    forall x: nat, y: nat | x < f.cols && y < row
      ensures Cell(g, x, y) == (Cell(f, x, y) || AcrossY(f, row, x, y))
    {
      RowMajorFacts(row, f.cols, x, y);
    }
  }

  /** `folded_x`: the sheet of the first col columns, each cell set when the
      cell or its mirror image across x = col is set.  The mirror image is
      read through the storage index, so past the end of a row it is the
      cell of the next row.  It panics (None) exactly when some position
      reads outside the storage. */
  function FoldedX(f: Field, col: nat): (r: Option<Field>)
    ensures r.None? <==> exists x: nat, y: nat :: x < col && y < f.rows && !FoldsX(f, col, x, y)
    ensures r.Some? ==> Valid(r.value) && r.value.rows == f.rows && r.value.cols == col
    ensures r.Some? ==> forall x: nat, y: nat :: x < col && y < f.rows ==>
      Cell(r.value, x, y) == (Cell(f, x, y) || AcrossX(f, col, x, y))
  {
    if exists x: nat, y: nat :: x < col && y < f.rows && !FoldsX(f, col, x, y) then None
    else Some(FoldXField(f, col))
  }

  /** The sheet folded_x builds, reading a cell outside the storage as
      empty. */
  function FoldXField(f: Field, col: nat): (g: Field)
    ensures Valid(g) && g.rows == f.rows && g.cols == col
    ensures forall x: nat, y: nat :: x < col && y < f.rows ==> Cell(g, x, y) == (Cell(f, x, y) || AcrossX(f, col, x, y))
  {
    var g := Field(seq(f.rows * col, i requires 0 <= i < f.rows * col => FoldXAt(f, col, i)), f.rows, col);
    FoldXCells(f, col, g);
    g
  }

  function FoldXAt(f: Field, col: nat, i: nat): bool
    requires i < f.rows * col
  {
    RowMajorCoord(f.rows, col, i);
    var (x, y) := (i % col, i / col);
    Cell(f, x, y) || AcrossX(f, col, x, y)
  }

  lemma FoldXCells(f: Field, col: nat, g: Field)
    requires g.rows == f.rows && g.cols == col && |g.content| == f.rows * col
    requires forall i :: 0 <= i < f.rows * col ==> g.content[i] == FoldXAt(f, col, i)
    ensures forall x: nat, y: nat :: x < col && y < f.rows ==> Cell(g, x, y) == (Cell(f, x, y) || AcrossX(f, col, x, y))
  {
    forall x: nat, y: nat | x < col && y < f.rows
      ensures Cell(g, x, y) == (Cell(f, x, y) || AcrossX(f, col, x, y))
    {
      RowMajorFacts(f.rows, col, x, y);
    }
  }

  /** `folded`: the fold the instruction names. */
  function Folded(f: Field, fold: Fold): (r: Option<Field>)
    requires Valid(f)
    ensures r.Some? ==> Valid(r.value)
  {
    match fold
    case X(col) => FoldedX(f, col)
    case Y(row) => FoldedY(f, row)
  }

  /** Where a dot of the sheet ends up after the fold: dots beyond the line
      are mirrored across it. */
  function Mirror(fold: Fold, p: (nat, nat)): (nat, nat)
  {
    match fold
    case X(col) => if p.0 > col && p.0 <= 2 * col then (2 * col - p.0, p.1) else p
    case Y(row) => if p.1 > row && p.1 <= 2 * row then (p.0, 2 * row - p.1) else p
  }

  /** The dots of the sheet that survive the fold: those not on the fold
      line and not further beyond it than the kept part reaches. */
  predicate Kept(fold: Fold, p: (nat, nat))
  {
    match fold
    case X(col) => p.0 != col && p.0 <= 2 * col
    case Y(row) => p.1 != row && p.1 <= 2 * row
  }

  /** Every read the fold makes is of a cell of its own row: always for a
      fold along y, whose cells are read in their own column, and for a
      fold along x when the mirror of column 0 is a column of the sheet. */
  predicate InRows(f: Field, fold: Fold)
  {
    fold.Y? || Inside(f, fold)
  }

  /** On a sheet whose mirror reads stay inside it, a fold never panics. */
  lemma InsideFolds(f: Field, fold: Fold)
    requires Valid(f) && Inside(f, fold)
    ensures Folded(f, fold).Some?
  {
    match fold
    case Y(row) =>
      ReadsYExactly(f, row);
      forall x: nat, y: nat | x < f.cols && y < row
        ensures FoldsY(f, row, x, y)
      {
        assert ReadsY(f, row, x, y);
      }
    case X(col) =>
      ReadsXExactly(f, col);
      forall x: nat, y: nat | x < col && y < f.rows
        ensures FoldsX(f, col, x, y)
      {
        assert ReadsX(f, col, x, y);
      }
  }

  /** Folding maps the dots of the sheet onto the dots of the folded sheet:
      every kept dot lands on a dot at its mirror image, and every dot of
      the folded sheet comes from one, whenever the fold does not panic and
      reads no cell across the end of a row. */
  lemma FoldedDots(f: Field, fold: Fold)
    requires Valid(f) && Folded(f, fold).Some? && InRows(f, fold)
    ensures Dots(Folded(f, fold).value) == set p | p in Dots(f) && Kept(fold, p) :: Mirror(fold, p)
  {
    FoldedFrom(f, fold);
    FoldedOnto(f, fold);
  }

  /** The kept dots of f moved to their mirror images. */
  function Image(f: Field, fold: Fold): set<(nat, nat)>
  {
    set p | p in Dots(f) && Kept(fold, p) :: Mirror(fold, p)
  }

  lemma FoldedFrom(f: Field, fold: Fold)
    requires Valid(f) && Folded(f, fold).Some? && InRows(f, fold)
    ensures Dots(Folded(f, fold).value) <= Image(f, fold)
  {
    match fold
    case Y(row) => FoldedFromY(f, row);
    case X(col) => FoldedFromX(f, col);
  }

  /** A readable cell of a column of the sheet lies in a row of the sheet. */
  lemma RowOfReadable(f: Field, x: nat, y: nat)
    requires Valid(f) && x < f.cols && Readable(f, x, y)
    ensures y < f.rows
  {
    if y >= f.rows {
      MulMonotone(f.cols, f.rows, y);
    }
  }

  lemma FoldedFromY(f: Field, row: nat)
    requires Valid(f) && FoldedY(f, row).Some?
    ensures Dots(FoldedY(f, row).value) <= Image(f, Y(row))
  {
    var g := FoldedY(f, row).value;
    forall q | q in Dots(g)
      ensures q in Image(f, Y(row))
    {
      var (x, y) := q;
      assert FoldsY(f, row, x, y);
      FromY(f, row, x, y);
    }
  }

  /** A set cell of the y-fold comes from a kept dot. */
  lemma FromY(f: Field, row: nat, x: nat, y: nat)
    requires Valid(f) && x < f.cols && y < row && FoldsY(f, row, x, y)
    requires Cell(f, x, y) || AcrossY(f, row, x, y)
    ensures (x, y) in Image(f, Y(row))
  {
    if Cell(f, x, y) {
      RowOfReadable(f, x, y);
      assert (x, y) in Dots(f) && Kept(Y(row), (x, y));
    } else {
      RowOfReadable(f, x, 2 * row - y);
      assert (x, 2 * row - y) in Dots(f) && Kept(Y(row), (x, 2 * row - y));
      assert Mirror(Y(row), (x, 2 * row - y)) == (x, y);
    }
  }

  lemma FoldedFromX(f: Field, col: nat)
    requires Valid(f) && FoldedX(f, col).Some? && Inside(f, X(col))
    ensures Dots(FoldedX(f, col).value) <= Image(f, X(col))
  {
    var g := FoldedX(f, col).value;
    forall q | q in Dots(g)
      ensures q in Image(f, X(col))
    {
      var (x, y) := q;
      if Cell(f, x, y) {
        assert (x, y) in Dots(f) && Kept(X(col), (x, y));
      } else {
        assert (2 * col - x, y) in Dots(f) && Kept(X(col), (2 * col - x, y));
        assert Mirror(X(col), (2 * col - x, y)) == q;
      }
    }
  }

  lemma FoldedOnto(f: Field, fold: Fold)
    requires Valid(f) && Folded(f, fold).Some?
    ensures Image(f, fold) <= Dots(Folded(f, fold).value)
  {
    var g := Folded(f, fold).value;
    forall p | p in Dots(f) && Kept(fold, p)
      ensures Mirror(fold, p) in Dots(g)
    {
      var (x, y) := p;
      match fold
      case Y(row) =>
        if y > row {
          assert AcrossY(f, row, x, 2 * row - y);
          assert Cell(g, x, 2 * row - y);
        } else {
          assert Cell(g, x, y);
        }
      case X(col) =>
        if x > col {
          assert AcrossX(f, col, 2 * col - x, y);
          assert Cell(g, 2 * col - x, y);
        } else {
          assert Cell(g, x, y);
        }
    }
  }

  /** `count`: the number of set cells. */
  function Count(s: seq<bool>): (n: nat)
    ensures n <= |s|
  {
    if |s| == 0 then 0 else Count(s[..|s| - 1]) + (if s[|s| - 1] then 1 else 0)
  }

  /** The indices of the set cells. */
  function Trues(s: seq<bool>): set<nat>
  {
    set i: nat | i < |s| && s[i]
  }

  lemma {:induction false} CountTrues(s: seq<bool>)
    ensures Count(s) == |Trues(s)|
    decreases |s|
  {
    if |s| > 0 {
      var front := s[..|s| - 1];
      CountTrues(front);
      if s[|s| - 1] {
        assert Trues(s) == Trues(front) + {|s| - 1};
      } else {
        assert Trues(s) == Trues(front);
      }
    }
  }

  function Position(cols: nat, i: nat): (nat, nat)
  {
    if cols > 0 then (i % cols, i / cols) else (0, 0)
  }

  /** The count of a sheet is the number of its dots. */
  lemma CountIsDots(f: Field)
    requires Valid(f)
    ensures Count(f.content) == |Dots(f)|
  {
    CountTrues(f.content);
    PositionsCount(f);
    DotsArePositions(f);
  }

  /** The points at the set indices of the storage. */
  function Positions(f: Field): set<(nat, nat)>
  {
    set i | i in Trues(f.content) :: Position(f.cols, i)
  }

  lemma PositionsCount(f: Field)
    requires Valid(f)
    ensures |Positions(f)| == |Trues(f.content)|
  {
    var at := i => Position(f.cols, i);
    forall i: nat, j: nat | i in Trues(f.content) && j in Trues(f.content) && at(i) == at(j)
      ensures i == j
    {
      RowMajorCoord(f.rows, f.cols, i);
      RowMajorCoord(f.rows, f.cols, j);
    }
    forall q | q in Positions(f)
      ensures exists i :: i in Trues(f.content) && at(i) == q
    {
      var i :| i in Trues(f.content) && Position(f.cols, i) == q;
      assert at(i) == q;
    }
    ImageInjective(Trues(f.content), Positions(f), at);
  }

  lemma DotsArePositions(f: Field)
    requires Valid(f)
    ensures Dots(f) == Positions(f)
  {
    forall q | q in Dots(f)
      ensures q in Positions(f)
    {
      RowMajorFacts(f.rows, f.cols, q.0, q.1);
      assert Position(f.cols, Index(f, q.0, q.1)) == q;
      assert Index(f, q.0, q.1) in Trues(f.content);
    }
    forall i | i in Trues(f.content)
      ensures Position(f.cols, i) in Dots(f)
    {
      RowMajorCoord(f.rows, f.cols, i);
    }
  }

  /** A fold that reads no cell across the end of a row never adds dots. */
  lemma FoldNeverAdds(f: Field, fold: Fold)
    requires Valid(f) && Folded(f, fold).Some? && InRows(f, fold)
    ensures Count(Folded(f, fold).value.content) <= Count(f.content)
  {
    var g := Folded(f, fold).value;
    CountIsDots(f);
    CountIsDots(g);
    FewerDots(f, fold);
  }

  lemma FewerDots(f: Field, fold: Fold)
    requires Valid(f) && Folded(f, fold).Some? && InRows(f, fold)
    ensures |Dots(Folded(f, fold).value)| <= |Dots(f)|
  {
    var g := Folded(f, fold).value;
    FoldedDots(f, fold);
    var kept := set p | p in Dots(f) && Kept(fold, p);
    var mirror := p => Mirror(fold, p);
    forall q | q in Dots(g)
      ensures exists p :: p in kept && mirror(p) == q
    {
      var p :| p in Dots(f) && Kept(fold, p) && Mirror(fold, p) == q;
      assert p in kept && mirror(p) == q;
    }
    ImageSmaller(kept, Dots(g), mirror);
    var same := (p: (nat, nat)) => p;
    forall q | q in kept
      ensures exists p :: p in Dots(f) && same(p) == q
    {
      assert q in Dots(f) && same(q) == q;
    }
    ImageSmaller(Dots(f), kept, same);
  }

  /** `part_one` as written: the number of dots after the first fold.  No
      instruction at all panics at the index, and so does a fold that reads
      outside the storage.  When the fold reads no cell across the end of a
      row, the count is that of the kept dots at their mirror images. */
  function PartOneAsWritten(f: Field, folds: seq<Fold>): (r: Option<nat>)
    requires Valid(f)
    ensures r.None? <==> |folds| == 0 || Folded(f, folds[0]).None?
    ensures r.Some? ==> r.value == |Dots(Folded(f, folds[0]).value)|
    ensures r.Some? && InRows(f, folds[0]) ==> r.value == |Image(f, folds[0])| && r.value <= Count(f.content)
  {
    if |folds| == 0 then None
    else match Folded(f, folds[0])
      case None => None
      case Some(g) =>
        CountIsDots(g);
        if InRows(f, folds[0]) then
          FoldedDots(f, folds[0]);
          FoldNeverAdds(f, folds[0]);
          Some(Count(g.content))
        else
          Some(Count(g.content))
  }

  /** The sheet after every instruction, in order, as part two folds it
      before printing; None when some fold panics. */
  function FoldAll(f: Field, folds: seq<Fold>): (r: Option<Field>)
    requires Valid(f)
    ensures r.Some? ==> Valid(r.value)
    ensures r.Some? && AllInRows(f, folds) ==> Count(r.value.content) <= Count(f.content)
    decreases |folds|
  {
    if |folds| == 0 then Some(f)
    else match Folded(f, folds[0])
      case None => None
      case Some(g) =>
        if InRows(f, folds[0]) then
          FoldNeverAdds(f, folds[0]);
          FoldAll(g, folds[1..])
        else
          FoldAll(g, folds[1..])
  }

  /** Every fold of the list, on the sheet the earlier folds leave, reads
      no cell across the end of a row. */
  predicate AllInRows(f: Field, folds: seq<Fold>)
    requires Valid(f)
    decreases |folds|
  {
    |folds| == 0 ||
    (InRows(f, folds[0]) && match Folded(f, folds[0])
      case None => true
      case Some(g) => AllInRows(g, folds[1..]))
  }

  /** The points a list of instructions leaves, folding the dots alone:
      each fold keeps the dots it keeps and mirrors them. */
  ghost function FoldPoints(ps: set<(nat, nat)>, folds: seq<Fold>): set<(nat, nat)>
    decreases |folds|
  {
    if |folds| == 0 then ps
    else FoldPoints(set p | p in ps && Kept(folds[0], p) :: Mirror(folds[0], p), folds[1..])
  }

  /** Folding the sheet instruction by instruction leaves exactly the dots
      that folding its points leaves, when no fold reads across the end of
      a row. */
  lemma {:induction false} FoldAllDots(f: Field, folds: seq<Fold>)
    requires Valid(f) && FoldAll(f, folds).Some? && AllInRows(f, folds)
    ensures Dots(FoldAll(f, folds).value) == FoldPoints(Dots(f), folds)
    decreases |folds|
  {
    if |folds| > 0 {
      var g := Folded(f, folds[0]).value;
      FoldedDots(f, folds[0]);
      FoldAllDots(g, folds[1..]);
    }
  }

  /** `part_two` as written: the sheet after every instruction, which it
      prints.  With no instruction the first `unwrap` panics, as does any
      fold that reads outside the storage (None). */
  function PartTwoAsWritten(f: Field, folds: seq<Fold>): (r: Option<Field>)
    requires Valid(f)
    ensures r.None? <==> |folds| == 0 || FoldAll(f, folds).None?
    ensures r.Some? ==> Valid(r.value)
    ensures r.Some? && AllInRows(f, folds) ==>
      Count(r.value.content) <= Count(f.content) && Dots(r.value) == FoldPoints(Dots(f), folds)
  {
    if |folds| == 0 then None
    else
      var r := FoldAll(f, folds);
      if r.None? then None
      else if AllInRows(f, folds) then
        FoldAllDots(f, folds);
        r
      else
        r
  }

  /** Dots at (0, 1) and (0, 3) give a sheet of four rows, too short for the
      fold along y = 2: at (0, 0) the empty cell makes `||` read its mirror
      in row 4, past the storage, and the fold panics, though the intended
      result is the single dot (0, 1). */
  lemma AsWrittenMissesEdge()
    ensures var f := Field([false, true, false, true], 4, 1);
      Folded(f, Y(2)).None? && Dots(FoldFixed(f, Y(2))) == {(0, 1)}
  {
    var f := Field([false, true, false, true], 4, 1);
    assert !FoldsY(f, 2, 0, 0);
    assert Cell(f, 0, 1) && Cell(f, 0, 3);
    assert Dots(f) == {(0, 1), (0, 3)} by {
      forall p | p in Dots(f)
        ensures p == (0, 1) || p == (0, 3)
      {
        assert p.0 == 0 && p.1 < 4;
        assert !Cell(f, 0, 0) && !Cell(f, 0, 2);
      }
    }
    assert Mirror(Y(2), (0, 3)) == (0, 1);
    assert Image(f, Y(2)) == {(0, 1)};
  }

  /** Dots at (2, 0), (0, 1) and (1, 1) give a sheet of three columns and
      two rows (WrapSheet).  Folding along x = 2, the mirror reads of row 0 run past its
      end into row 1 and pick up its dots, and row 1 reads no mirror at all:
      the fold does not panic but yields four dots from three, where the
      intended result is the dots (0, 1) and (1, 1). */
  lemma AsWrittenWrapAdds(f: Field)
    requires WrapSheet(f)
    ensures Folded(f, X(2)).Some? && Count(Folded(f, X(2)).value.content) == 4 && Count(f.content) == 3
    ensures Dots(FoldFixed(f, X(2))) == {(0, 1), (1, 1)}
  {
    WrapFolds(f);
    var g := Folded(f, X(2)).value;
    FullSquare(g);
    CountIsDots(g);
    WrapDots(f);
    CountIsDots(f);
    assert Image(f, X(2)) == {(0, 1), (1, 1)};
  }

  /** The sheet of dots (2, 0), (0, 1) and (1, 1). */
  predicate WrapSheet(f: Field)
  {
    f.rows == 2 && f.cols == 3 && f.content == [false, false, true, true, true, false]
  }

  /** The fold along x = 2 of the sheet above reads only inside the storage
      and sets all four cells of the folded sheet. */
  lemma WrapFolds(f: Field)
    requires WrapSheet(f)
    ensures Folded(f, X(2)).Some?
    ensures var g := Folded(f, X(2)).value;
      g.rows == 2 && g.cols == 2 && Cell(g, 0, 0) && Cell(g, 1, 0) && Cell(g, 0, 1) && Cell(g, 1, 1)
  {
    WrapReads(f);
    assert AcrossX(f, 2, 0, 0) && AcrossX(f, 2, 1, 0);
  }

  lemma WrapReads(f: Field)
    requires WrapSheet(f)
    ensures Cell(f, 0, 1) && Cell(f, 1, 1) && Cell(f, 4, 0) && Cell(f, 3, 0)
    ensures forall x: nat, y: nat :: x < 2 && y < 2 ==> FoldsX(f, 2, x, y)
  {
    assert Cell(f, 0, 1) && Cell(f, 1, 1) && Cell(f, 4, 0) && Cell(f, 3, 0);
  }

  /** A 2-by-2 sheet with every cell set has four dots. */
  lemma FullSquare(g: Field)
    requires Valid(g) && g.rows == 2 && g.cols == 2
    requires Cell(g, 0, 0) && Cell(g, 1, 0) && Cell(g, 0, 1) && Cell(g, 1, 1)
    ensures |Dots(g)| == 4
  {
    assert Dots(g) == {(0, 0), (1, 0), (0, 1), (1, 1)};
  }

  lemma WrapDots(f: Field)
    requires WrapSheet(f)
    ensures Dots(f) == {(2, 0), (0, 1), (1, 1)}
  {
    var d := {(2, 0), (0, 1), (1, 1)};
    forall p | p in d
      ensures p in Dots(f)
    {
      assert p.0 < 3 && p.1 < 2 && Cell(f, p.0, p.1);
    }
    forall p | p in Dots(f)
      ensures p in d
    {
      var (x, y) := p;
      WrapCell(f, x, y);
    }
  }

  lemma WrapCell(f: Field, x: nat, y: nat)
    requires WrapSheet(f)
    requires x < 3 && y < 2 && Cell(f, x, y)
    ensures (x, y) == (2, 0) || (x, y) == (0, 1) || (x, y) == (1, 1)
  {
    assert Index(f, x, y) == 3 * y + x;
  }

  /** One cell of a sheet grown to cols columns: the cell of f at the same
      column and row, or empty outside f. */
  function PadAt(f: Field, cols: nat, i: nat): bool
  {
    if cols == 0 then false
    else
      var x, y := i % cols, i / cols;
      x < f.cols && y < f.rows && Cell(f, x, y)
  }

  /** The sheet grown to rows by cols, with the new cells empty. */
  function Pad(f: Field, rows: nat, cols: nat): (g: Field)
    requires Valid(f) && f.rows <= rows && f.cols <= cols
    ensures Valid(g) && g.rows == rows && g.cols == cols
    ensures Dots(g) == Dots(f)
  {
    var g := Field(seq(rows * cols, (i: int) requires 0 <= i => PadAt(f, cols, i)), rows, cols);
    PadDots(f, g);
    g
  }

  lemma PadDots(f: Field, g: Field)
    requires Valid(f) && Valid(g) && f.rows <= g.rows && f.cols <= g.cols
    requires forall i :: 0 <= i < |g.content| ==> g.content[i] == PadAt(f, g.cols, i)
    ensures Dots(g) == Dots(f)
  {
    forall x: nat, y: nat | x < g.cols && y < g.rows
      ensures Cell(g, x, y) == (x < f.cols && y < f.rows && Cell(f, x, y))
    {
      RowMajorFacts(g.rows, g.cols, x, y);
    }
    forall p | p in Dots(g)
      ensures p in Dots(f)
    {
      assert p.0 < g.cols && p.1 < g.rows && Cell(g, p.0, p.1);
    }
    forall p | p in Dots(f)
      ensures p in Dots(g)
    {
      assert p.0 < f.cols && p.1 < f.rows && Cell(f, p.0, p.1);
    }
  }

  /** The sheet grown to reach the far side of the fold: at least 2 * at + 1
      rows for a fold along y = at, columns for x = at. */
  function Padded(f: Field, fold: Fold): (g: Field)
    requires Valid(f)
    ensures Valid(g) && Dots(g) == Dots(f) && Inside(g, fold)
  {
    match fold
    case Y(row) => Pad(f, if f.rows > 2 * row then f.rows else 2 * row + 1, f.cols)
    case X(col) => Pad(f, f.rows, if f.cols > 2 * col then f.cols else 2 * col + 1)
  }

  /** The fold the puzzle intends: on a sheet grown to reach the far side of
      the fold line it never panics, and it leaves exactly the kept dots of
      f at their mirror images. */
  function FoldFixed(f: Field, fold: Fold): (g: Field)
    requires Valid(f)
    ensures Valid(g)
    ensures Dots(g) == Image(f, fold)
    ensures |Dots(g)| <= |Dots(f)|
  {
    var p := Padded(f, fold);
    InsideFolds(p, fold);
    FoldedDots(p, fold);
    FewerDots(p, fold);
    Folded(p, fold).value
  }

  /** The folds in order, each on a sheet grown to hold it. */
  function FoldAllFixed(f: Field, folds: seq<Fold>): (r: Field)
    requires Valid(f)
    ensures Valid(r) && Dots(r) == FoldPoints(Dots(f), folds)
    decreases |folds|
  {
    if |folds| == 0 then f else FoldAllFixed(FoldFixed(f, folds[0]), folds[1..])
  }

  /** `part_one` with the sheet grown to hold the fold: the number of dots
      the first fold keeps, at most the number the sheet had; no instruction
      at all still panics (None). */
  function PartOne(f: Field, folds: seq<Fold>): (r: Option<nat>)
    requires Valid(f)
    ensures r.None? <==> |folds| == 0
    ensures r.Some? ==> r.value == |Image(f, folds[0])| && r.value <= Count(f.content)
  {
    if |folds| == 0 then None
    else
      var g := FoldFixed(f, folds[0]);
      CountIsDots(f);
      CountIsDots(g);
      Some(Count(g.content))
  }

  /** `part_two` with every sheet grown to hold its fold: the dots left are
      exactly those folding the points leaves; no instruction at all still
      panics (None). */
  function PartTwo(f: Field, folds: seq<Fold>): (r: Option<Field>)
    requires Valid(f)
    ensures r.None? <==> |folds| == 0
    ensures r.Some? ==> Valid(r.value) && Dots(r.value) == FoldPoints(Dots(f), folds)
  {
    if |folds| == 0 then None else Some(FoldAllFixed(f, folds))
  }
}
