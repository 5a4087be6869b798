/** Day 4: bingo.  A board keeps its numbers row by row, a mark per cell,
    and a count of marked cells per row and per column; a drawn number
    marks its first occurrence and wins when it completes a row or a
    column. */
module Bingo {
  import opened Common

  datatype Board = Board(numbers: seq<nat>, filled: seq<bool>, rowFilled: seq<nat>, colFilled: seq<nat>,
                         rows: nat, cols: nat)

  /** The storage has one number and one mark per cell and one counter per
      row and per column. */
  predicate Grid(b: Board)
  {
    |b.numbers| == b.rows * b.cols && |b.filled| == |b.numbers|
    && |b.rowFilled| == b.rows && |b.colFilled| == b.cols
  }

  /** Whether the cell in row r, column c is marked. */
  function Marked(b: Board, r: nat, c: nat): bool
    requires Grid(b) && r < b.rows && c < b.cols
  {
    var i := b.cols * r + c;
    i < |b.filled| && b.filled[i]
  }

  /** The marked cells among the first k cells of row r. */
  function RowMarks(b: Board, r: nat, k: nat): (n: nat)
    requires Grid(b) && r < b.rows && k <= b.cols
    ensures n <= k
  {
    if k == 0 then 0 else RowMarks(b, r, k - 1) + (if Marked(b, r, k - 1) then 1 else 0)
  }

  /** The marked cells among the first k cells of column c. */
  function ColMarks(b: Board, c: nat, k: nat): (n: nat)
    requires Grid(b) && c < b.cols && k <= b.rows
    ensures n <= k
  {
    if k == 0 then 0 else ColMarks(b, c, k - 1) + (if Marked(b, k - 1, c) then 1 else 0)
  }

  /** Every row counter and column counter is the number of marked cells
      in its row or column. */
  predicate Valid(b: Board)
  {
    Grid(b)
    && (forall r :: 0 <= r < b.rows ==> b.rowFilled[r] == RowMarks(b, r, b.cols))
    && (forall c :: 0 <= c < b.cols ==> b.colFilled[c] == ColMarks(b, c, b.rows))
  }

  predicate RowFull(b: Board, r: nat)
    requires Grid(b) && r < b.rows
  {
    forall c :: 0 <= c < b.cols ==> Marked(b, r, c)
  }

  predicate ColFull(b: Board, c: nat)
    requires Grid(b) && c < b.cols
  {
    forall r :: 0 <= r < b.rows ==> Marked(b, r, c)
  }

  /** A row's count reaches its length exactly when every cell is marked. */
  lemma {:induction false} RowMarksAll(b: Board, r: nat, k: nat)
    requires Grid(b) && r < b.rows && k <= b.cols
    ensures RowMarks(b, r, k) == k <==> forall c :: 0 <= c < k ==> Marked(b, r, c)
  {
    if k > 0 {
      RowMarksAll(b, r, k - 1);
    }
  }

  lemma {:induction false} ColMarksAll(b: Board, c: nat, k: nat)
    requires Grid(b) && c < b.cols && k <= b.rows
    ensures ColMarks(b, c, k) == k <==> forall r :: 0 <= r < k ==> Marked(b, r, c)
  {
    if k > 0 {
      ColMarksAll(b, c, k - 1);
    }
  }

  /** A row's count is the number of marked cells among its first `k`. */
  lemma {:induction false} RowMarksCount(b: Board, r: nat, k: nat)
    requires Grid(b) && r < b.rows && k <= b.cols
    ensures RowMarks(b, r, k) == |set c: nat | c < k && Marked(b, r, c)|
  {
    if k > 0 {
      RowMarksCount(b, r, k - 1);
      var all := set c: nat | c < k && Marked(b, r, c);
      var prev := set c: nat | c < k - 1 && Marked(b, r, c);
      AddTop(prev, all, k - 1, Marked(b, r, k - 1));
    }
  }

  /** A column's count is the number of marked cells among its first `k`. */
  lemma {:induction false} ColMarksCount(b: Board, c: nat, k: nat)
    requires Grid(b) && c < b.cols && k <= b.rows
    ensures ColMarks(b, c, k) == |set r: nat | r < k && Marked(b, r, c)|
  {
    if k > 0 {
      ColMarksCount(b, c, k - 1);
      var all := set r: nat | r < k && Marked(b, r, c);
      var prev := set r: nat | r < k - 1 && Marked(b, r, c);
      AddTop(prev, all, k - 1, Marked(b, k - 1, c));
    }
  }

  /** Adding a number above every element of a set, or not, grows it by one
      or by nothing. */
  lemma AddTop(prev: set<nat>, all: set<nat>, top: nat, add: bool)
    requires forall n :: n in prev ==> n < top
    requires forall n :: n in all <==> n in prev || (add && n == top)
    ensures |all| == |prev| + (if add then 1 else 0)
  {
    if add {
      assert all == prev + {top};
    } else {
      assert all == prev;
    }
  }

  /** The sum of the unmarked numbers. */
  function Unmarked(numbers: seq<nat>, filled: seq<bool>): nat
    requires |numbers| == |filled|
  {
    if |numbers| == 0 then 0
    else
      var n := |numbers| - 1;
      Unmarked(numbers[..n], filled[..n]) + (if filled[n] then 0 else numbers[n])
  }

  /** Marking an unmarked cell takes its number out of the unmarked sum. */
  lemma {:induction false} UnmarkedMark(numbers: seq<nat>, filled: seq<bool>, i: nat)
    requires |numbers| == |filled| && i < |filled| && !filled[i]
    ensures Unmarked(numbers, filled[i := true]) + numbers[i] == Unmarked(numbers, filled)
    decreases |numbers|
  {
    var n := |numbers| - 1;
    var marked := filled[i := true];
    if i < n {
      assert marked[..n] == filled[..n][i := true];
      UnmarkedMark(numbers[..n], filled[..n], i);
    } else {
      assert marked[..n] == filled[..n];
    }
  }

  /** The score of a board that has just won on num. */
  function WinScore(b: Board, num: nat): nat
    requires |b.numbers| == |b.filled|
  {
    Unmarked(b.numbers, b.filled) * num
  }

  /** `get_pos`: the row and column of a storage index; a board with no
      columns panics on the division (None). */
  function GetPos(b: Board, index: nat): (r: Option<(nat, nat)>)
    ensures r.None? <==> b.cols == 0
  {
    if b.cols == 0 then None else Some((index / b.cols, index % b.cols))
  }

  /** get_pos inverts the row-major layout. */
  lemma GetPosInverts(b: Board, r: nat, c: nat)
    requires Grid(b) && r < b.rows && c < b.cols
    ensures b.cols * r + c < |b.numbers|
    ensures GetPos(b, b.cols * r + c) == Some((r, c))
  {
    RowMajorFacts(b.rows, b.cols, c, r);
  }

  /** `get`: the number in row r, column c, read at cols * r + c; an index
      past the storage panics (None). */
  function Get(b: Board, r: nat, c: nat): (v: Option<nat>)
    ensures v.Some? <==> b.cols * r + c < |b.numbers|
    ensures v.Some? ==> v.value in b.numbers
  {
    var i := b.cols * r + c;
    if i < |b.numbers| then Some(b.numbers[i]) else None
  }

  /** `BingoTable::from_str` on the board's lines, each already split into
      its non-empty tokens: rows is the number of lines, cols the number of
      tokens on the first line, and the numbers of every line follow each
      other.  No line at all panics at lines[0], and so does a token that is
      not a number (None).  Every cell starts unmarked. */
  function FromTokens(lines: seq<seq<string>>): (r: Option<Board>)
    ensures r.None? <==> |lines| == 0 || ParseAll(Flatten(lines)).None?
    ensures r.Some? ==> r.value.rows == |lines| && r.value.cols == |lines[0]|
    ensures r.Some? ==> Some(r.value.numbers) == ParseAll(Flatten(lines))
    ensures r.Some? ==> |r.value.filled| == |r.value.numbers|
    ensures r.Some? ==> |r.value.rowFilled| == r.value.rows && |r.value.colFilled| == r.value.cols
    ensures r.Some? ==> forall i :: 0 <= i < |r.value.filled| ==> !r.value.filled[i]
    ensures r.Some? ==> forall i :: 0 <= i < r.value.rows ==> r.value.rowFilled[i] == 0
    ensures r.Some? ==> forall i :: 0 <= i < r.value.cols ==> r.value.colFilled[i] == 0
  {
    if |lines| == 0 then None
    else match ParseAll(Flatten(lines))
      case None => None
      case Some(numbers) =>
        Some(Board(numbers, seq(|numbers|, _ => false), seq(|lines|, _ => 0), seq(|lines[0]|, _ => 0),
                   |lines|, |lines[0]|))
  }

  /** A board whose lines all hold as many numbers as the first is a valid
      board with nothing marked, and get reads back the token in that row and
      column. */
  lemma FromTokensGrid(lines: seq<seq<string>>, r: nat, c: nat)
    requires FromTokens(lines).Some?
    requires forall i :: 0 <= i < |lines| ==> |lines[i]| == |lines[0]|
    requires r < |lines| && c < |lines[0]|
    ensures Valid(FromTokens(lines).value)
    ensures Get(FromTokens(lines).value, r, c) == ParseNat(lines[r][c])
  {
    var b := FromTokens(lines).value;
    var tokens := Flatten(lines);
    FlattenIndex(lines, |lines[0]|, r, c);
    assert Grid(b);
    forall i | 0 <= i < b.rows
      ensures b.rowFilled[i] == RowMarks(b, i, b.cols)
    {
      NoRowMarks(b, i, b.cols);
    }
    forall i | 0 <= i < b.cols
      ensures b.colFilled[i] == ColMarks(b, i, b.rows)
    {
      NoColMarks(b, i, b.rows);
    }
  }

  lemma {:induction false} NoRowMarks(b: Board, r: nat, k: nat)
    requires Grid(b) && r < b.rows && k <= b.cols && forall i :: 0 <= i < |b.filled| ==> !b.filled[i]
    ensures RowMarks(b, r, k) == 0
  {
    if k > 0 {
      NoRowMarks(b, r, k - 1);
    }
  }

  lemma {:induction false} NoColMarks(b: Board, c: nat, k: nat)
    requires Grid(b) && c < b.cols && k <= b.rows && forall i :: 0 <= i < |b.filled| ==> !b.filled[i]
    ensures ColMarks(b, c, k) == 0
  {
    if k > 0 {
      NoColMarks(b, c, k - 1);
    }
  }

  /** The board with the cell at row, col marked and its two counters
      raised. */
  function MarkAt(b: Board, row: nat, col: nat): (b': Board)
    requires Grid(b) && row < b.rows && col < b.cols
    ensures Grid(b') && b'.numbers == b.numbers && b'.rows == b.rows && b'.cols == b.cols
  {
    RowMajorFacts(b.rows, b.cols, col, row);
    b.(filled := b.filled[b.cols * row + col := true],
       rowFilled := b.rowFilled[row := b.rowFilled[row] + 1],
       colFilled := b.colFilled[col := b.colFilled[col] + 1])
  }

  /** Marking changes the mark of that one cell. */
  lemma MarkedAfter(b: Board, row: nat, col: nat, r: nat, c: nat)
    requires Grid(b) && row < b.rows && col < b.cols && r < b.rows && c < b.cols
    ensures Marked(MarkAt(b, row, col), r, c) == (Marked(b, r, c) || (r == row && c == col))
  {
    RowMajorFacts(b.rows, b.cols, col, row);
    RowMajorFacts(b.rows, b.cols, c, r);
  }

  lemma {:induction false} RowMarksAfter(b: Board, row: nat, col: nat, r: nat, k: nat)
    requires Grid(b) && row < b.rows && col < b.cols && r < b.rows && k <= b.cols && !Marked(b, row, col)
    ensures RowMarks(MarkAt(b, row, col), r, k) == RowMarks(b, r, k) + (if r == row && col < k then 1 else 0)
  {
    if k > 0 {
      RowMarksAfter(b, row, col, r, k - 1);
      MarkedAfter(b, row, col, r, k - 1);
    }
  }

  lemma {:induction false} ColMarksAfter(b: Board, row: nat, col: nat, c: nat, k: nat)
    requires Grid(b) && row < b.rows && col < b.cols && c < b.cols && k <= b.rows && !Marked(b, row, col)
    ensures ColMarks(MarkAt(b, row, col), c, k) == ColMarks(b, c, k) + (if c == col && row < k then 1 else 0)
  {
    if k > 0 {
      ColMarksAfter(b, row, col, c, k - 1);
      MarkedAfter(b, row, col, k - 1, c);
    }
  }

  /** Marking an unmarked cell keeps the counters exact. */
  lemma MarkValid(b: Board, row: nat, col: nat)
    requires Valid(b) && row < b.rows && col < b.cols && !Marked(b, row, col)
    ensures Valid(MarkAt(b, row, col))
  {
    var b' := MarkAt(b, row, col);
    forall r | 0 <= r < b.rows
      ensures b'.rowFilled[r] == RowMarks(b', r, b.cols)
    {
      RowMarksAfter(b, row, col, r, b.cols);
    }
    forall c | 0 <= c < b.cols
      ensures b'.colFilled[c] == ColMarks(b', c, b.rows)
    {
      ColMarksAfter(b, row, col, c, b.rows);
    }
  }

  /** The outcome of drawing a number for one board: the board afterwards
      and the score if the draw made it win. */
  datatype Filled = Filled(board: Board, score: Option<nat>)

  /** `fill`: find the first cell holding num; if it is unmarked, mark it
      and raise its row and column counters, and if either counter reaches
      the length of its line, score the sum of the unmarked numbers times
      num. */
  function Fill(b: Board, num: nat): (r: Filled)
    requires Valid(b)
    ensures Valid(r.board) && r.board.numbers == b.numbers && r.board.rows == b.rows && r.board.cols == b.cols
  {
    match FirstIndex(b.numbers, num)
    case None => Filled(b, None)
    case Some(i) =>
      RowMajorCoord(b.rows, b.cols, i);
      var (row, col) := (i / b.cols, i % b.cols);
      if b.filled[i] then Filled(b, None)
      else
        MarkValid(b, row, col);
        var b' := MarkAt(b, row, col);
        if b'.rowFilled[row] == b.cols || b'.colFilled[col] == b.rows then
          Filled(b', Some(WinScore(b', num)))
        else
          Filled(b', None)
  }

  /** A number not on the board changes nothing and scores nothing. */
  lemma FillAbsent(b: Board, num: nat)
    requires Valid(b) && num !in b.numbers
    ensures Fill(b, num) == Filled(b, None)
  {
  }

  /** Drawing a number marks its first occurrence and nothing else; if that
      cell was already marked, nothing changes and nothing scores. */
  lemma FillMarks(b: Board, num: nat)
    requires Valid(b)
    ensures var r := Fill(b, num);
      |r.board.filled| == |b.filled|
      && forall i :: 0 <= i < |b.filled| ==>
           r.board.filled[i] == (b.filled[i] || Some(i) == FirstIndex(b.numbers, num))
    ensures var first := FirstIndex(b.numbers, num);
      first.Some? && b.filled[first.value] ==> Fill(b, num) == Filled(b, None)
  {
    var first := FirstIndex(b.numbers, num);
    if first.Some? {
      RowMajorCoord(b.rows, b.cols, first.value);
    }
  }

  /** The cell at storage index i lies on a row or a column that is fully
      marked. */
  predicate Completes(b: Board, i: nat)
    requires Grid(b)
  {
    i < |b.numbers| && b.cols > 0 && i / b.cols < b.rows
    && (RowFull(b, i / b.cols) || ColFull(b, i % b.cols))
  }

  /** A draw scores exactly when it marks a cell that completes that cell's
      row or column, and the score is the sum of the numbers still unmarked
      times the number drawn, which is the unmarked sum before the draw less
      the number marked. */
  lemma FillScores(b: Board, num: nat)
    requires Valid(b)
    ensures var r, first := Fill(b, num), FirstIndex(b.numbers, num);
      r.score.Some? <==> first.Some? && !b.filled[first.value] && Completes(r.board, first.value)
    ensures var r := Fill(b, num);
      r.score.Some? ==> r.score.value == Unmarked(r.board.numbers, r.board.filled) * num
    ensures var r := Fill(b, num);
      r.score.Some? ==> Unmarked(r.board.numbers, r.board.filled) + num == Unmarked(b.numbers, b.filled)
  {
    var r := Fill(b, num);
    match FirstIndex(b.numbers, num)
    case None =>
    case Some(i) =>
      RowMajorCoord(b.rows, b.cols, i);
      var (row, col) := (i / b.cols, i % b.cols);
      if !b.filled[i] {
        RowMarksAll(r.board, row, b.cols);
        ColMarksAll(r.board, col, b.rows);
        UnmarkedMark(b.numbers, b.filled, i);
      }
  }

  /** A board after each of the numbers in ns is drawn, in order. */
  function FillAll(b: Board, ns: seq<nat>): (r: Board)
    requires Valid(b)
    ensures Valid(r) && r.numbers == b.numbers && r.rows == b.rows && r.cols == b.cols
  {
    if |ns| == 0 then b else Fill(FillAll(b, ns[..|ns| - 1]), ns[|ns| - 1]).board
  }

  lemma FillAllStep(b: Board, nums: seq<nat>, i: nat)
    requires Valid(b) && i < |nums|
    ensures FillAll(b, nums[..i + 1]) == Fill(FillAll(b, nums[..i]), nums[i]).board
  {
    assert nums[..i + 1][..i] == nums[..i];
  }

  predicate AllValid(boards: seq<Board>)
  {
    forall j :: 0 <= j < |boards| ==> Valid(boards[j])
  }

  /** Drawing nums[i] for board j, when that board has seen every earlier
      number. */
  function Draw(boards: seq<Board>, nums: seq<nat>, i: nat, j: nat): Filled
    requires AllValid(boards) && i < |nums| && j < |boards|
  {
    Fill(FillAll(boards[j], nums[..i]), nums[i])
  }

  /** Board j wins on the draw of nums[i]. */
  predicate WinAt(boards: seq<Board>, nums: seq<nat>, i: nat, j: nat)
    requires AllValid(boards) && i < |nums| && j < |boards|
  {
    Draw(boards, nums, i, j).score.Some?
  }

  /** Draw i of board j comes before draw i2 of board j2 in play order:
      every board in turn for each number in turn. */
  predicate Before(i: nat, j: nat, i2: nat, j2: nat)
  {
    i < i2 || (i == i2 && j < j2)
  }

  /** The first win in play order. */
  predicate FirstWin(boards: seq<Board>, nums: seq<nat>, i: nat, j: nat)
    requires AllValid(boards)
  {
    i < |nums| && j < |boards| && WinAt(boards, nums, i, j)
    && forall i2: nat, j2: nat :: i2 < |nums| && j2 < |boards| && Before(i2, j2, i, j) ==> !WinAt(boards, nums, i2, j2)
  }

  /** `part_one`: play the numbers in order against every board in turn and
      return the first score; if no board ever wins the function panics
      (None).  The result is the score of the first win in play order, and
      there is none exactly when no board wins on any draw. */
  method PartOne(nums: seq<nat>, boards: seq<Board>) returns (r: Option<nat>)
    requires AllValid(boards)
    ensures r.None? <==> forall i: nat, j: nat :: i < |nums| && j < |boards| ==> !WinAt(boards, nums, i, j)
    ensures r.Some? ==> exists i: nat, j: nat :: FirstWin(boards, nums, i, j) && r.value == Draw(boards, nums, i, j).score.value
  {
    var tables := boards;
    for i := 0 to |nums|
      invariant |tables| == |boards|
      invariant forall j :: 0 <= j < |tables| ==> tables[j] == FillAll(boards[j], nums[..i])
      invariant forall i2: nat, j2: nat :: i2 < i && j2 < |boards| ==> !WinAt(boards, nums, i2, j2)
    {
      for j := 0 to |tables|
        invariant |tables| == |boards|
        invariant forall j2 :: 0 <= j2 < j ==> tables[j2] == FillAll(boards[j2], nums[..i + 1])
        invariant forall j2 :: j <= j2 < |tables| ==> tables[j2] == FillAll(boards[j2], nums[..i])
        invariant forall i2: nat, j2: nat :: j2 < |boards| && Before(i2, j2, i, j) ==> !WinAt(boards, nums, i2, j2)
      {
        var filled := Fill(tables[j], nums[i]);
        assert filled == Draw(boards, nums, i, j);
        if filled.score.Some? {
          assert FirstWin(boards, nums, i, j);
          return filled.score;
        }
        FillAllStep(boards[j], nums, i);
        tables := tables[j := filled.board];
      }
    }
    return None;
  }

  /** Board j has won within its first n draws. */
  predicate HasWon(boards: seq<Board>, nums: seq<nat>, j: nat, n: nat)
    requires AllValid(boards) && j < |boards| && n <= |nums|
  {
    exists i: nat :: i < n && WinAt(boards, nums, i, j)
  }

  /** The number of draws board j has seen when the turn is board k's, on
      the draw of nums[i]. */
  function Seen(i: nat, k: nat, j: nat): nat
  {
    if j < k then i + 1 else i
  }

  /** The last board to win: board k wins on the draw of nums[i] for the
      first time, and every other board has already won by then. */
  predicate LastWin(boards: seq<Board>, nums: seq<nat>, i: nat, k: nat)
    requires AllValid(boards)
  {
    i < |nums| && k < |boards| && WinAt(boards, nums, i, k) && !HasWon(boards, nums, k, i)
    && forall j: nat :: j < |boards| && j != k ==> HasWon(boards, nums, j, Seen(i, k, j))
  }

  /** With board k still in play, it is the only board left exactly when
      one board is left. */
  lemma OnlyOneLeft(won: seq<bool>, k: nat)
    requires k < |won| && !won[k]
    ensures Occurrences(won, false) == 1 <==> forall j :: 0 <= j < |won| && j != k ==> won[j]
  {
    var rest := won[..k] + won[k + 1..];
    OccurrencesRemove(won, k, false);
    OccurrencesZero(rest, false);
    assert forall j :: 0 <= j < |won| && j != k ==> won[j] == (if j < k then rest[j] else rest[j - 1]);
  }

  /** Taking element k out of s takes one occurrence of it away. */
  lemma OccurrencesRemove<T>(s: seq<T>, k: nat, x: T)
    requires k < |s|
    ensures Occurrences(s, x) == Occurrences(s[..k] + s[k + 1..], x) + (if s[k] == x then 1 else 0)
  {
    assert s == s[..k] + ([s[k]] + s[k + 1..]) by {
      assert s[k..] == [s[k]] + s[k + 1..];
      assert s == s[..k] + s[k..];
    }
    OccurrencesSplit(s[..k], s[k], s[k + 1..], x);
  }

  lemma OccurrencesSplit<T>(front: seq<T>, y: T, back: seq<T>, x: T)
    ensures Occurrences(front + ([y] + back), x) == Occurrences(front + back, x) + (if y == x then 1 else 0)
  {
    OccurrencesAppend(front, [y] + back, x);
    OccurrencesAppend([y], back, x);
    OccurrencesAppend(front, back, x);
    assert [y][..0] == [];
  }



  /** The state of part two when the turn is board k's on the draw of
      nums[i]: a board is marked won exactly when it has won within the
      draws it has seen, a board still in play has seen exactly those draws,
      and no earlier turn made a last winner. */
  ghost predicate InPlay(boards: seq<Board>, nums: seq<nat>, tables: seq<Board>, won: seq<bool>, i: nat, k: nat)
    requires AllValid(boards) && i <= |nums| && k <= |boards|
  {
    Tracked(boards, nums, tables, won, i, k) && NoLastBefore(boards, nums, i, k)
  }

  predicate Tracked(boards: seq<Board>, nums: seq<nat>, tables: seq<Board>, won: seq<bool>, i: nat, k: nat)
    requires AllValid(boards) && i <= |nums| && k <= |boards|
  {
    |tables| == |boards| && |won| == |boards|
    && (forall j :: 0 <= j < |boards| ==> Seen(i, k, j) <= |nums|)
    && (forall j :: 0 <= j < |boards| ==> won[j] == HasWon(boards, nums, j, Seen(i, k, j)))
    && (forall j :: 0 <= j < |boards| && !won[j] ==> tables[j] == FillAll(boards[j], nums[..Seen(i, k, j)]))
  }

  ghost predicate NoLastBefore(boards: seq<Board>, nums: seq<nat>, i: nat, k: nat)
    requires AllValid(boards)
  {
    forall i2: nat, k2: nat :: Before(i2, k2, i, k) ==> !LastWin(boards, nums, i2, k2)
  }

  /** `part_two`: play on, skipping boards that have won, and return the
      score of the win that leaves no board in play; if that never happens
      the function panics (None).  The result is the score of the last
      board to win, and there is none exactly when no draw makes a last
      winner. */
  method PartTwo(nums: seq<nat>, boards: seq<Board>) returns (r: Option<nat>)
    requires AllValid(boards)
    ensures r.None? <==> forall i: nat, k: nat :: !LastWin(boards, nums, i, k)
    ensures r.Some? ==> exists i: nat, k: nat :: LastWin(boards, nums, i, k) && r.value == Draw(boards, nums, i, k).score.value
  {
    var tables := boards;
    var won := seq(|boards|, _ => false);
    StartPlay(boards, nums, tables, won);
    for i := 0 to |nums|
      invariant InPlay(boards, nums, tables, won, i, 0)
    {
      for k := 0 to |tables|
        invariant InPlay(boards, nums, tables, won, i, k)
      {
        if won[k] {
          SkipTurn(boards, nums, tables, won, i, k);
          continue;
        }
        var filled := Fill(tables[k], nums[i]);
        TurnDraw(boards, nums, tables, won, i, k);
        TurnLast(boards, nums, tables, won, i, k);
        if filled.score.Some? && Occurrences(won, false) == 1 {
          assert LastWin(boards, nums, i, k) && filled.score.value == Draw(boards, nums, i, k).score.value;
          return filled.score;
        }
        TurnOn(boards, nums, tables, won, i, k);
        won, tables := won[k := filled.score.Some?], tables[k := filled.board];
      }
      NextDraw(boards, nums, tables, won, i);
    }
    NoneLeft(boards, nums, tables, won);
    return None;
  }

  /** Before the first draw no board has won and every board is fresh. */
  lemma StartPlay(boards: seq<Board>, nums: seq<nat>, tables: seq<Board>, won: seq<bool>)
    requires AllValid(boards) && tables == boards && won == seq(|boards|, _ => false)
    ensures InPlay(boards, nums, tables, won, 0, 0)
  {
    forall j | 0 <= j < |boards|
      ensures tables[j] == FillAll(boards[j], nums[..0])
    {
      assert nums[..0] == [];
    }
  }

  /** Once every draw is played with no last winner, there is none. */
  lemma NoneLeft(boards: seq<Board>, nums: seq<nat>, tables: seq<Board>, won: seq<bool>)
    requires AllValid(boards) && InPlay(boards, nums, tables, won, |nums|, 0)
    ensures forall i: nat, k: nat :: !LastWin(boards, nums, i, k)
  {
    forall i: nat, k: nat
      ensures !LastWin(boards, nums, i, k)
    {
      if i < |nums| {
        assert Before(i, k, |nums|, 0);
      }
    }
  }

  lemma SkipTurn(boards: seq<Board>, nums: seq<nat>, tables: seq<Board>, won: seq<bool>, i: nat, k: nat)
    requires AllValid(boards) && i < |nums| && k < |boards|
    requires InPlay(boards, nums, tables, won, i, k) && won[k]
    ensures InPlay(boards, nums, tables, won, i, k + 1)
  {
    SkipTracked(boards, nums, tables, won, i, k);
    forall i2: nat, k2: nat | Before(i2, k2, i, k + 1)
      ensures !LastWin(boards, nums, i2, k2)
    {
      if i2 == i && k2 == k {
        assert HasWon(boards, nums, k, i);
      } else {
        assert Before(i2, k2, i, k);
      }
    }
  }

  /** A board that has already won stays won on one more draw. */
  lemma SkipTracked(boards: seq<Board>, nums: seq<nat>, tables: seq<Board>, won: seq<bool>, i: nat, k: nat)
    requires AllValid(boards) && i < |nums| && k < |boards|
    requires Tracked(boards, nums, tables, won, i, k) && won[k]
    ensures Tracked(boards, nums, tables, won, i, k + 1)
  {
    MoreDraws(boards, nums, k, i);
    assert forall j :: 0 <= j < |boards| && j != k ==> Seen(i, k + 1, j) == Seen(i, k, j);
  }

  /** Board k's turn is its draw of nums[i]. */
  lemma TurnDraw(boards: seq<Board>, nums: seq<nat>, tables: seq<Board>, won: seq<bool>, i: nat, k: nat)
    requires AllValid(boards) && i < |nums| && k < |boards|
    requires InPlay(boards, nums, tables, won, i, k) && !won[k]
    ensures Fill(tables[k], nums[i]) == Draw(boards, nums, i, k)
  {
  }

  /** Board k's turn ends the game exactly when it makes a last winner. */
  lemma TurnLast(boards: seq<Board>, nums: seq<nat>, tables: seq<Board>, won: seq<bool>, i: nat, k: nat)
    requires AllValid(boards) && i < |nums| && k < |boards|
    requires InPlay(boards, nums, tables, won, i, k) && !won[k]
    ensures Draw(boards, nums, i, k).score.Some? && Occurrences(won, false) == 1 <==> LastWin(boards, nums, i, k)
  {
    OnlyOneLeft(won, k);
  }

  /** A turn that does not end the game records board k's board and mark
      and passes the turn on. */
  lemma TurnOn(boards: seq<Board>, nums: seq<nat>, tables: seq<Board>, won: seq<bool>, i: nat, k: nat)
    requires AllValid(boards) && i < |nums| && k < |boards|
    requires InPlay(boards, nums, tables, won, i, k) && !won[k]
    requires !LastWin(boards, nums, i, k)
    ensures var filled := Draw(boards, nums, i, k);
      InPlay(boards, nums, tables[k := filled.board], won[k := filled.score.Some?], i, k + 1)
  {
    TrackOn(boards, nums, tables, won, i, k);
    forall i2: nat, k2: nat | Before(i2, k2, i, k + 1)
      ensures !LastWin(boards, nums, i2, k2)
    {
      if i2 != i || k2 != k {
        assert Before(i2, k2, i, k);
      }
    }
  }

  lemma TrackOn(boards: seq<Board>, nums: seq<nat>, tables: seq<Board>, won: seq<bool>, i: nat, k: nat)
    requires AllValid(boards) && i < |nums| && k < |boards|
    requires Tracked(boards, nums, tables, won, i, k) && !won[k]
    ensures var filled := Draw(boards, nums, i, k);
      Tracked(boards, nums, tables[k := filled.board], won[k := filled.score.Some?], i, k + 1)
  {
    var filled := Draw(boards, nums, i, k);
    FillAllStep(boards[k], nums, i);
    WonStep(boards, nums, k, i);
    var tables', won' := tables[k := filled.board], won[k := filled.score.Some?];
    assert forall j :: 0 <= j < |boards| ==> won'[j] == HasWon(boards, nums, j, Seen(i, k + 1, j));
  }

  lemma NextDraw(boards: seq<Board>, nums: seq<nat>, tables: seq<Board>, won: seq<bool>, i: nat)
    requires AllValid(boards) && i < |nums|
    requires InPlay(boards, nums, tables, won, i, |boards|)
    ensures InPlay(boards, nums, tables, won, i + 1, 0)
  {
    forall i2: nat, k2: nat | Before(i2, k2, i + 1, 0)
      ensures !LastWin(boards, nums, i2, k2)
    {
      if k2 < |boards| {
        assert Before(i2, k2, i, |boards|);
      }
    }
  }

  lemma WonStep(boards: seq<Board>, nums: seq<nat>, j: nat, i: nat)
    requires AllValid(boards) && j < |boards| && i < |nums|
    ensures HasWon(boards, nums, j, i + 1) <==> HasWon(boards, nums, j, i) || WinAt(boards, nums, i, j)
  {
  }

  lemma MoreDraws(boards: seq<Board>, nums: seq<nat>, j: nat, i: nat)
    requires AllValid(boards) && j < |boards| && i < |nums| && HasWon(boards, nums, j, i)
    ensures HasWon(boards, nums, j, i + 1)
  {
  }
}
