/** Small building blocks shared by the puzzle solvers: an optional value for
    the places where the original code unwraps or panics, powers, and a
    functional sort used where the original sorts a vector of scores. */
module Common {

  /** The conventional Some/None datatype; None stands for a panic or a
      missing value in the original code. */
  datatype Option<T> = None | Some(value: T)

  function Pow(base: nat, exp: nat): nat
  {
    if exp == 0 then 1 else base * Pow(base, exp - 1)
  }

  lemma PowPositive(base: nat, exp: nat)
    requires base > 0
    ensures Pow(base, exp) > 0
  {
  }

  /** Sum of a sequence of integers, folded from the left. */
  function Sum(s: seq<int>): int
  {
    if |s| == 0 then 0 else Sum(s[..|s| - 1]) + s[|s| - 1]
  }

  lemma {:induction false} SumAppend(a: seq<int>, b: seq<int>)
    ensures Sum(a + b) == Sum(a) + Sum(b)
    decreases |b|
  {
    if |b| == 0 {
      assert a + b == a;
    } else {
      assert (a + b)[..|a + b| - 1] == a + b[..|b| - 1];
      SumAppend(a, b[..|b| - 1]);
    }
  }

  /** Number of occurrences of x in s. */
  function Occurrences<T(==)>(s: seq<T>, x: T): nat
  {
    if |s| == 0 then 0
    else Occurrences(s[..|s| - 1], x) + (if s[|s| - 1] == x then 1 else 0)
  }

  lemma {:induction false} OccurrencesIsMultiplicity<T>(s: seq<T>, x: T)
    ensures Occurrences(s, x) == multiset(s)[x]
  {
    if |s| > 0 {
      OccurrencesIsMultiplicity(s[..|s| - 1], x);
      assert s == s[..|s| - 1] + [s[|s| - 1]];
    }
  }

  predicate Sorted(s: seq<int>)
  {
    forall i, j :: 0 <= i < j < |s| ==> s[i] <= s[j]
  }

  /** Inserts x into an already sorted sequence; the first element is the
      smaller of x and the old first element. */
  function Insert(x: int, s: seq<int>): (r: seq<int>)
    requires Sorted(s)
    ensures Sorted(r)
    ensures multiset(r) == multiset(s) + multiset{x}
    ensures |r| == |s| + 1
    ensures r[0] == if |s| == 0 || x <= s[0] then x else s[0]
  {
    if |s| == 0 then [x]
    else if x <= s[0] then [x] + s
    else
      var rest := Insert(x, s[1..]);
      assert s == [s[0]] + s[1..];
      SortedCons(s[0], rest);
      [s[0]] + rest
  }

  /** A value no larger than the head of a sorted sequence can go in
      front of it. */
  lemma SortedCons(h: int, rest: seq<int>)
    requires Sorted(rest) && (|rest| == 0 || h <= rest[0])
    ensures Sorted([h] + rest)
  {
    var r := [h] + rest;
    forall i, j | 0 <= i < j < |r|
      ensures r[i] <= r[j]
    {
      assert r[j] == rest[j - 1];
      if i > 0 {
        assert r[i] == rest[i - 1];
      } else if j > 1 {
        assert rest[0] <= rest[j - 1];
      }
    }
  }

  /** Insertion sort: the result is an ordered permutation of the input. */
  function Sort(s: seq<int>): (r: seq<int>)
    ensures Sorted(r)
    ensures multiset(r) == multiset(s)
    ensures |r| == |s|
  {
    if |s| == 0 then []
    else
      assert s == s[..|s| - 1] + [s[|s| - 1]];
      Insert(s[|s| - 1], Sort(s[..|s| - 1]))
  }

  /** Number of elements of s strictly below x. */
  function CountBelow(s: seq<int>, x: int): nat
  {
    if |s| == 0 then 0
    else CountBelow(s[..|s| - 1], x) + (if s[|s| - 1] < x then 1 else 0)
  }

  /** Number of elements of s strictly above x. */
  function CountAbove(s: seq<int>, x: int): nat
  {
    if |s| == 0 then 0
    else CountAbove(s[..|s| - 1], x) + (if s[|s| - 1] > x then 1 else 0)
  }

  lemma {:induction false} CountsAppend(a: seq<int>, b: seq<int>, x: int)
    ensures CountBelow(a + b, x) == CountBelow(a, x) + CountBelow(b, x)
    ensures CountAbove(a + b, x) == CountAbove(a, x) + CountAbove(b, x)
    decreases |b|
  {
    if |b| == 0 {
      assert a + b == a;
    } else {
      assert (a + b)[..|a + b| - 1] == a + b[..|b| - 1];
      CountsAppend(a, b[..|b| - 1], x);
    }
  }

  /** Counting below or above a bound only depends on the multiset of values. */
  lemma {:induction false} CountsPermutation(s: seq<int>, t: seq<int>, x: int)
    requires multiset(s) == multiset(t)
    ensures CountBelow(s, x) == CountBelow(t, x)
    ensures CountAbove(s, x) == CountAbove(t, x)
    decreases |s|
  {
    if |s| > 0 {
      var last := s[|s| - 1];
      assert s == s[..|s| - 1] + [last];
      assert last in multiset(t);
      var j :| 0 <= j < |t| && t[j] == last;
      var t' := t[..j] + t[j + 1..];
      RemoveAt(t, j, x);
      assert multiset(s[..|s| - 1]) == multiset(s) - multiset{last};
      CountsPermutation(s[..|s| - 1], t', x);
    }
  }

  /** Removing the element at j from t takes one element off its multiset and
      one off the matching count. */
  lemma RemoveAt(t: seq<int>, j: nat, x: int)
    requires j < |t|
    ensures multiset(t[..j] + t[j + 1..]) == multiset(t) - multiset{t[j]}
    ensures CountBelow(t, x) == CountBelow(t[..j] + t[j + 1..], x) + (if t[j] < x then 1 else 0)
    ensures CountAbove(t, x) == CountAbove(t[..j] + t[j + 1..], x) + (if t[j] > x then 1 else 0)
  {
    assert t == t[..j] + ([t[j]] + t[j + 1..]);
    CountsAppend(t[..j], [t[j]] + t[j + 1..], x);
    CountsAppend([t[j]], t[j + 1..], x);
    CountsAppend(t[..j], t[j + 1..], x);
    assert [t[j]][..0] == [];
  }

  /** In a sorted sequence, at most k elements lie below the element at k,
      and at most |s| - k - 1 lie above it. */
  lemma {:induction false} SortedRank(s: seq<int>, k: nat)
    requires Sorted(s)
    requires k < |s|
    ensures CountBelow(s, s[k]) <= k
    ensures CountAbove(s, s[k]) <= |s| - k - 1
  {
    CountsAppend(s[..k], s[k..], s[k]);
    assert s == s[..k] + s[k..];
    CountBelowBound(s[..k], s[k]);
    CountAboveBound(s[..k], s[k]);
    CountBelowNone(s[k..], s[k]);
    CountsAppend([s[k]], s[k + 1..], s[k]);
    assert s[k..] == [s[k]] + s[k + 1..];
    assert [s[k]][..0] == [];
    CountAboveBound(s[k + 1..], s[k]);
    assert CountAbove(s[..k], s[k]) == 0 by {
      CountAboveNone(s[..k], s[k]);
    }
  }

  lemma {:induction false} CountBelowBound(s: seq<int>, x: int)
    ensures CountBelow(s, x) <= |s|
  {
    if |s| > 0 {
      CountBelowBound(s[..|s| - 1], x);
    }
  }

  lemma {:induction false} CountAboveBound(s: seq<int>, x: int)
    ensures CountAbove(s, x) <= |s|
  {
    if |s| > 0 {
      CountAboveBound(s[..|s| - 1], x);
    }
  }

  lemma {:induction false} CountBelowNone(s: seq<int>, x: int)
    requires forall i :: 0 <= i < |s| ==> s[i] >= x
    ensures CountBelow(s, x) == 0
  {
    if |s| > 0 {
      CountBelowNone(s[..|s| - 1], x);
    }
  }

  lemma {:induction false} CountAboveNone(s: seq<int>, x: int)
    requires forall i :: 0 <= i < |s| ==> s[i] <= x
    ensures CountAbove(s, x) == 0
  {
    if |s| > 0 {
      CountAboveNone(s[..|s| - 1], x);
    }
  }

  /** The element at position k of the sorted sequence: a k-th order statistic. */
  lemma OrderStatistic(s: seq<int>, k: nat)
    requires k < |s|
    ensures Sort(s)[k] in multiset(s)
    ensures CountBelow(s, Sort(s)[k]) <= k
    ensures CountAbove(s, Sort(s)[k]) <= |s| - k - 1
  {
    var t := Sort(s);
    SortedRank(t, k);
    CountsPermutation(s, t, t[k]);
    assert t[k] in multiset(t);
  }

  /** Euclidean division is unique: a quotient and remainder that rebuild i
      are the ones / and % compute. */
  lemma DivModUnique(i: int, d: int, q: int, r: int)
    requires d > 0 && 0 <= r < d && i == d * q + r
    ensures i / d == q && i % d == r
  {
    var q' := i / d;
    var r' := i % d;
    assert i == d * q' + r';
    MulSub(d, q, q');
    assert d * (q - q') == r' - r;
    if q - q' >= 1 {
      MulAtLeast(d, q - q');
    } else if q' - q >= 1 {
      MulSub(d, q', q);
      MulAtLeast(d, q' - q);
    }
  }

  lemma MulSub(a: int, b: int, c: int)
    ensures a * (b - c) == a * b - a * c
  {
  }

  lemma MulAtLeast(d: int, k: int)
    requires d > 0 && k >= 1
    ensures d * k >= d
  {
  }

  lemma MulMonotone(a: nat, b: nat, c: nat)
    requires b <= c
    ensures a * b <= a * c
  {
  }

  /** Row-major layout of a rows-by-cols grid: the cell at column x and row
      y sits at cols * y + x, inside the grid's storage, and division and
      remainder by cols recover y and x. */
  lemma RowMajorFacts(rows: nat, cols: nat, x: int, y: int)
    requires 0 <= x < cols && 0 <= y < rows
    ensures 0 <= cols * y + x < rows * cols
    ensures (cols * y + x) % cols == x
    ensures (cols * y + x) / cols == y
  {
    MulMonotone(cols, y + 1, rows);
    assert cols * (y + 1) == cols * y + cols;
    assert cols * rows == rows * cols;
    DivModUnique(cols * y + x, cols, y, x);
  }

  /** An index inside a rows-by-cols grid names the cell in column
      index % cols and row index / cols. */
  lemma RowMajorCoord(rows: nat, cols: nat, index: int)
    requires 0 <= index < rows * cols
    ensures cols > 0
    ensures 0 <= index % cols < cols && 0 <= index / cols < rows
    ensures cols * (index / cols) + index % cols == index
  {
    PositiveFactor(rows, cols, index);
    var y := index / cols;
    assert cols * y <= index;
    assert cols * y < cols * rows;
    MulCancel(cols, y, rows);
  }

  lemma PositiveFactor(a: nat, b: nat, i: int)
    requires 0 <= i < a * b
    ensures b > 0
  {
  }

  lemma MulCancel(a: int, b: int, c: int)
    requires a > 0 && a * b < a * c
    ensures b < c
  {
  }

  /** A non-empty sequence is its front followed by its last element. */
  lemma SplitLast<T>(s: seq<T>)
    requires |s| > 0
    ensures s == s[..|s| - 1] + [s[|s| - 1]]
  {
  }

  /** No element occurs twice in s. */
  predicate NoDup<T(==)>(s: seq<T>)
  {
    forall i, j :: 0 <= i < |s| && 0 <= j < |s| && i != j ==> s[i] != s[j]
  }

  lemma NoDupAppend<T>(a: seq<T>, b: seq<T>)
    requires NoDup(a) && NoDup(b)
    requires forall x :: x in a ==> x !in b
    ensures NoDup(a + b)
  {
    forall i, j | 0 <= i < |a + b| && 0 <= j < |a + b| && i != j
      ensures (a + b)[i] != (a + b)[j]
    {
      if i < |a| && j >= |a| {
        assert (a + b)[i] == a[i] && a[i] in a;
        assert (a + b)[j] == b[j - |a|] && b[j - |a|] in b;
      } else if j < |a| && i >= |a| {
        assert (a + b)[j] == a[j] && a[j] in a;
        assert (a + b)[i] == b[i - |a|] && b[i - |a|] in b;
      } else if i >= |a| {
        assert (a + b)[i] == b[i - |a|] && (a + b)[j] == b[j - |a|];
      } else {
        assert (a + b)[i] == a[i] && (a + b)[j] == a[j];
      }
    }
  }

  /** An element occurs in s exactly when it is counted there. */
  lemma OccurrencesZero<T>(s: seq<T>, x: T)
    ensures Occurrences(s, x) == 0 <==> x !in s
  {
    OccurrencesIsMultiplicity(s, x);
  }

  /** A prefix holds no more occurrences than the whole. */
  lemma {:induction false} OccurrencesPrefix<T>(s: seq<T>, k: nat, x: T)
    requires k <= |s|
    ensures Occurrences(s[..k], x) <= Occurrences(s, x)
    decreases |s|
  {
    if k < |s| {
      assert s[..k] == s[..|s| - 1][..k];
      OccurrencesPrefix(s[..|s| - 1], k, x);
    } else {
      assert s[..k] == s;
    }
  }

  /** Lists the members of a set without repetitions, in some order; the
      iteration order of Rust's hash and tree collections is not modelled. */
  method Enumerate<T>(s: set<T>) returns (r: seq<T>)
    ensures NoDup(r) && |r| == |s|
    ensures forall x :: x in r <==> x in s
  {
    r := [];
    var rest := s;
    while rest != {}
      invariant NoDup(r) && rest <= s
      invariant forall x :: x in r <==> x in s && x !in rest
      invariant |r| + |rest| == |s|
      decreases |rest|
    {
      var x :| x in rest;
      NoDupAppend(r, [x]);
      r := r + [x];
      rest := rest - {x};
    }
  }

  lemma OccurrencesAppend<T>(a: seq<T>, b: seq<T>, x: T)
    ensures Occurrences(a + b, x) == Occurrences(a, x) + Occurrences(b, x)
  {
    OccurrencesIsMultiplicity(a + b, x);
    OccurrencesIsMultiplicity(a, x);
    OccurrencesIsMultiplicity(b, x);
  }

  /** The decimal digits '0'..'9'. */
  predicate IsDigit(c: char)
  {
    '0' <= c <= '9'
  }

  /** The value of one decimal digit. */
  function Digit(c: char): (d: nat)
    requires IsDigit(c)
    ensures d < 10
  {
    (c - '0') as nat
  }

  /** The value of a string of decimal digits, most significant first. */
  function DigitsValue(s: seq<char>): nat
    requires forall i :: 0 <= i < |s| ==> IsDigit(s[i])
  {
    if |s| == 0 then 0 else DigitsValue(s[..|s| - 1]) * 10 + Digit(s[|s| - 1])
  }

  /** Rust's `str::parse::<usize>`: an optional leading '+' and then one or
      more decimal digits; anything else is an error (None). */
  function ParseNat(s: seq<char>): (r: Option<nat>)
    ensures r.Some? ==> |s| > 0 && (IsDigit(s[0]) || s[0] == '+')
    ensures |s| > 0 && IsDigit(s[0]) ==> (r.Some? <==> forall i :: 0 <= i < |s| ==> IsDigit(s[i]))
  {
    var digits := if |s| > 0 && s[0] == '+' then s[1..] else s;
    if |digits| > 0 && forall i :: 0 <= i < |digits| ==> IsDigit(digits[i]) then
      Some(DigitsValue(digits))
    else
      None
  }

  /** The decimal representation of n, without leading zeros. */
  function Show(n: nat): (r: seq<char>)
    ensures |r| > 0 && forall i :: 0 <= i < |r| ==> IsDigit(r[i])
  {
    var d := ['0' + (n % 10) as char];
    if n < 10 then d else Show(n / 10) + d
  }

  /** Parsing the decimal representation of n gives n back. */
  lemma {:induction false} ParseShow(n: nat)
    ensures ParseNat(Show(n)) == Some(n)
  {
    var s := Show(n);
    ShowValue(n);
  }

  lemma {:induction false} ShowValue(n: nat)
    ensures DigitsValue(Show(n)) == n
    decreases n
  {
    var s := Show(n);
    if n >= 10 {
      ShowValue(n / 10);
      assert s[..|s| - 1] == Show(n / 10);
    }
  }

  /** A set covered by the image of s under f is no larger than s. */
  lemma {:induction false} ImageSmaller<A, B>(s: set<A>, t: set<B>, f: A -> B)
    requires forall b :: b in t ==> exists a :: a in s && f(a) == b
    ensures |t| <= |s|
    decreases |s|
  {
    if s != {} {
      var x :| x in s;
      var s', t' := s - {x}, t - {f(x)};
      forall b | b in t'
        ensures exists a :: a in s' && f(a) == b
      {
        var a :| a in s && f(a) == b;
        assert a in s';
      }
      ImageSmaller(s', t', f);
    }
  }

  /** The image of s under a function injective on s is as large as s. */
  lemma {:induction false} ImageInjective<A, B>(s: set<A>, t: set<B>, f: A -> B)
    requires forall a :: a in s ==> f(a) in t
    requires forall b :: b in t ==> exists a :: a in s && f(a) == b
    requires forall a, a' :: a in s && a' in s && f(a) == f(a') ==> a == a'
    ensures |t| == |s|
    decreases |s|
  {
    if s != {} {
      var x :| x in s;
      var s', t' := s - {x}, t - {f(x)};
      forall b | b in t'
        ensures exists a :: a in s' && f(a) == b
      {
        var a :| a in s && f(a) == b;
        assert a in s';
      }
      ImageInjective(s', t', f);
    }
  }

  /** The index of the first occurrence of x in s, as `Iterator::position`
      finds it. */
  function FirstIndex<T(==)>(s: seq<T>, x: T): (r: Option<nat>)
    ensures r.None? <==> x !in s
    ensures r.Some? ==> r.value < |s| && s[r.value] == x && x !in s[..r.value]
  {
    if |s| == 0 then None
    else if s[0] == x then Some(0)
    else match FirstIndex(s[1..], x)
      case None => None
      case Some(i) =>
        assert s[..i + 1] == [s[0]] + s[1..][..i];
        Some(i + 1)
  }

  /** Every token parsed as a number; a token that does not parse panics
      (None). */
  function ParseAll(tokens: seq<string>): (r: Option<seq<nat>>)
    ensures r.None? <==> exists i :: 0 <= i < |tokens| && ParseNat(tokens[i]).None?
    ensures r.Some? ==> |r.value| == |tokens| && forall i :: 0 <= i < |tokens| ==> ParseNat(tokens[i]) == Some(r.value[i])
  {
    if |tokens| == 0 then Some([])
    else
      var front, last := ParseAll(tokens[..|tokens| - 1]), ParseNat(tokens[|tokens| - 1]);
      if front.None? || last.None? then None else Some(front.value + [last.value])
  }

  /** The concatenation of the lines, in order. */
  function Flatten<T>(lines: seq<seq<T>>): (r: seq<T>)
  {
    if |lines| == 0 then [] else Flatten(lines[..|lines| - 1]) + lines[|lines| - 1]
  }

  /** Flattening lines that all have width w puts the element at line r,
      place c at index w * r + c. */
  lemma {:induction false} FlattenIndex<T>(lines: seq<seq<T>>, w: nat, r: nat, c: nat)
    requires forall i :: 0 <= i < |lines| ==> |lines[i]| == w
    requires r < |lines| && c < w
    ensures |Flatten(lines)| == w * |lines|
    ensures w * r + c < |Flatten(lines)| && Flatten(lines)[w * r + c] == lines[r][c]
    decreases |lines|
  {
    var front := lines[..|lines| - 1];
    FlattenLength(front, w);
    if r < |lines| - 1 {
      FlattenIndex(front, w, r, c);
    }
    MulMonotone(w, r, |lines| - 1);
  }

  lemma {:induction false} FlattenLength<T>(lines: seq<seq<T>>, w: nat)
    requires forall i :: 0 <= i < |lines| ==> |lines[i]| == w
    ensures |Flatten(lines)| == w * |lines|
    decreases |lines|
  {
    if |lines| > 0 {
      FlattenLength(lines[..|lines| - 1], w);
    }
  }
}
