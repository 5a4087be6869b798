/** Day 8: seven-segment displays whose segment wires are scrambled.  Ten
    training patterns, one per digit, are sorted out by their size and by
    how many segments they share with the patterns of 1 and 4; the learned
    code then reads the four output patterns as a decimal number. */
module Segments {
  import opened Common

  /** The lit segments of one display, as the set of their wire letters. */
  type Pattern = set<char>

  /** The set of letters of a token, as `HashSet::from_iter(x.chars())`
      builds it. */
  function ToPattern(token: string): Pattern
  {
    set c | c in token
  }

  /** `DIGITS_LENS`: the digits a pattern's size alone gives away. */
  function DigitOfSize(size: nat): Option<nat>
  {
    if size == 2 then Some(1)
    else if size == 4 then Some(4)
    else if size == 3 then Some(7)
    else if size == 7 then Some(8)
    else None
  }

  /** What the size pass of `Code::new` has learned: the digits found so
      far, and the six- and five-segment patterns set aside. */
  datatype Learned = Learned(digits: map<nat, Pattern>, six: seq<Pattern>, five: seq<Pattern>)

  /** A size the size pass cannot place: the source's `unwrap` panics. */
  predicate Unplaceable(p: Pattern)
  {
    |p| != 6 && |p| != 5 && DigitOfSize(|p|).None?
  }

  /** The size pass: six- and five-segment patterns are set aside in order,
      every other pattern is stored under the digit of its size, a later
      pattern replacing an earlier one. */
  function BySize(pats: seq<Pattern>): (r: Option<Learned>)
    ensures r.None? <==> exists i :: 0 <= i < |pats| && Unplaceable(pats[i])
    ensures r.Some? ==> forall d :: d in r.value.digits ==> d in {1, 4, 7, 8}
  {
    if |pats| == 0 then Some(Learned(map[], [], []))
    else
      var p := pats[|pats| - 1];
      assert forall i :: 0 <= i < |pats| - 1 ==> pats[..|pats| - 1][i] == pats[i];
      match BySize(pats[..|pats| - 1])
      case None => None
      case Some(l) =>
        if |p| == 6 then Some(l.(six := l.six + [p]))
        else if |p| == 5 then Some(l.(five := l.five + [p]))
        else match DigitOfSize(|p|)
          case None => None
          case Some(d) => Some(l.(digits := l.digits[d := p]))
  }

  /** The digit of a six-segment pattern: 6 if it shares one segment with
      the pattern of 1, else 9 if it shares four with the pattern of 4, else
      0.  None where a pattern it needs is unknown. */
  function SixDigit(p: Pattern, digits: map<nat, Pattern>): (r: Option<nat>)
    ensures r.Some? ==> r.value in {0, 6, 9}
    ensures r.None? <==> 1 !in digits || (|p * digits[1]| != 1 && 4 !in digits)
  {
    if 1 !in digits then None
    else if |p * digits[1]| == 1 then Some(6)
    else if 4 !in digits then None
    else if |p * digits[4]| == 4 then Some(9)
    else Some(0)
  }

  /** The digit of a five-segment pattern: 3 if it shares two segments with
      the pattern of 1, else 2 if it shares two with the pattern of 4, else
      5. */
  function FiveDigit(p: Pattern, digits: map<nat, Pattern>): (r: Option<nat>)
    ensures r.Some? ==> r.value in {2, 3, 5}
    ensures r.None? <==> 1 !in digits || (|p * digits[1]| != 2 && 4 !in digits)
  {
    if 1 !in digits then None
    else if |p * digits[1]| == 2 then Some(3)
    else if 4 !in digits then None
    else if |p * digits[4]| == 2 then Some(2)
    else Some(5)
  }

  /** The loop over the six-segment patterns: each is stored under its
      digit; 1 and 4 are never replaced on the way. */
  function PlaceSix(six: seq<Pattern>, digits: map<nat, Pattern>): (r: Option<map<nat, Pattern>>)
    ensures r.Some? ==> r.value.Keys >= digits.Keys
    ensures r.Some? ==> forall d :: d in digits && d !in {0, 6, 9} ==> r.value[d] == digits[d]
  {
    if |six| == 0 then Some(digits)
    else match PlaceSix(six[..|six| - 1], digits)
      case None => None
      case Some(m) =>
        match SixDigit(six[|six| - 1], m)
        case None => None
        case Some(d) => Some(m[d := six[|six| - 1]])
  }

  /** The loop over the five-segment patterns. */
  function PlaceFive(five: seq<Pattern>, digits: map<nat, Pattern>): (r: Option<map<nat, Pattern>>)
    ensures r.Some? ==> r.value.Keys >= digits.Keys
    ensures r.Some? ==> forall d :: d in digits && d !in {2, 3, 5} ==> r.value[d] == digits[d]
  {
    if |five| == 0 then Some(digits)
    else match PlaceFive(five[..|five| - 1], digits)
      case None => None
      case Some(m) =>
        match FiveDigit(five[|five| - 1], m)
        case None => None
        case Some(d) => Some(m[d := five[|five| - 1]])
  }

  /** `Code::new`: the pattern learned for each digit 0..9, or None where
      the source panics (a pattern of a size no digit has, a missing 1 or
      4 when it is needed, or a digit never found). */
  function New(pats: seq<Pattern>): (r: Option<seq<Pattern>>)
    ensures r.Some? ==> |r.value| == 10
    ensures r.Some? ==> forall d :: 0 <= d < 10 ==> r.value[d] in pats
  {
    match BySize(pats)
    case None => None
    case Some(l) =>
      match PlaceSix(l.six, l.digits)
      case None => None
      case Some(m6) =>
        match PlaceFive(l.five, m6)
        case None => None
        case Some(m) =>
          if forall d :: 0 <= d < 10 ==> d in m then
            LearnedFromPats(pats, l, m6, m);
            Some(seq(10, d requires 0 <= d < 10 => m[d]))
          else None
  }

  /** Every pattern the passes store comes from the training patterns. */
  lemma LearnedFromPats(pats: seq<Pattern>, l: Learned, m6: map<nat, Pattern>, m: map<nat, Pattern>)
    requires BySize(pats) == Some(l)
    requires PlaceSix(l.six, l.digits) == Some(m6) && PlaceFive(l.five, m6) == Some(m)
    ensures forall d :: d in m ==> m[d] in pats
  {
    BySizeFrom(pats);
    PlaceSixFrom(l.six, l.digits);
    PlaceFiveFrom(l.five, m6);
  }

  lemma {:induction false} BySizeFrom(pats: seq<Pattern>)
    requires BySize(pats).Some?
    ensures var l := BySize(pats).value;
      (forall d :: d in l.digits ==> l.digits[d] in pats)
      && (forall p :: p in l.six ==> p in pats) && (forall p :: p in l.five ==> p in pats)
  {
    if |pats| > 0 {
      var front := pats[..|pats| - 1];
      BySizeFrom(front);
      assert forall p :: p in front ==> p in pats;
    }
  }

  lemma {:induction false} PlaceSixFrom(six: seq<Pattern>, digits: map<nat, Pattern>)
    requires PlaceSix(six, digits).Some?
    ensures forall d :: d in PlaceSix(six, digits).value ==> PlaceSix(six, digits).value[d] in six || (d in digits && PlaceSix(six, digits).value[d] == digits[d])
  {
    if |six| > 0 {
      PlaceSixFrom(six[..|six| - 1], digits);
      assert forall p :: p in six[..|six| - 1] ==> p in six;
    }
  }

  lemma {:induction false} PlaceFiveFrom(five: seq<Pattern>, digits: map<nat, Pattern>)
    requires PlaceFive(five, digits).Some?
    ensures forall d :: d in PlaceFive(five, digits).value ==> PlaceFive(five, digits).value[d] in five || (d in digits && PlaceFive(five, digits).value[d] == digits[d])
  {
    if |five| > 0 {
      PlaceFiveFrom(five[..|five| - 1], digits);
      assert forall p :: p in five[..|five| - 1] ==> p in five;
    }
  }

  /** The seven segment wires of a display. */
  const Segs: set<char> := {'a', 'b', 'c', 'd', 'e', 'f', 'g'}

  /** The segments each digit 0..9 lights on a correctly wired display. */
  const Standard: seq<Pattern> := [
    {'a', 'b', 'c', 'e', 'f', 'g'}, {'c', 'f'}, {'a', 'c', 'd', 'e', 'g'}, {'a', 'c', 'd', 'f', 'g'},
    {'b', 'c', 'd', 'f'}, {'a', 'b', 'd', 'f', 'g'}, {'a', 'b', 'd', 'e', 'f', 'g'}, {'a', 'c', 'f'},
    {'a', 'b', 'c', 'd', 'e', 'f', 'g'}, {'a', 'b', 'c', 'd', 'f', 'g'}]

  /** A scrambling of the wires: each segment is driven by a distinct wire. */
  predicate Wiring(w: map<char, char>)
  {
    Segs <= w.Keys && forall a, b :: a in Segs && b in Segs && a != b ==> w[a] != w[b]
  }

  function Wire(w: map<char, char>, c: char): char
  {
    if c in w then w[c] else c
  }

  function Rewire(w: map<char, char>, s: Pattern): Pattern
  {
    set c | c in s :: Wire(w, c)
  }

  /** The pattern digit d shows through the wiring w. */
  function Img(w: map<char, char>, d: nat): Pattern
    requires d < 10
  {
    Rewire(w, Standard[d])
  }

  /** Rewiring keeps the number of lit segments. */
  lemma RewireSize(w: map<char, char>, s: Pattern)
    requires Wiring(w) && s <= Segs
    ensures |Rewire(w, s)| == |s|
  {
    ImageInjective(s, Rewire(w, s), c => Wire(w, c));
  }

  /** Rewiring keeps the segments two patterns share. */
  lemma RewireMeet(w: map<char, char>, a: Pattern, b: Pattern)
    requires Wiring(w) && a <= Segs && b <= Segs
    ensures |Rewire(w, a) * Rewire(w, b)| == |a * b|
  {
    assert Rewire(w, a) * Rewire(w, b) == Rewire(w, a * b);
    RewireSize(w, a * b);
  }

  /** The number of segments each digit lights. */
  const Sizes: seq<nat> := [6, 2, 5, 5, 4, 5, 6, 3, 7, 6]

  lemma ImgSize(w: map<char, char>, d: nat)
    requires Wiring(w) && d < 10
    ensures |Img(w, d)| == Sizes[d]
  {
    StandardSize(d);
    RewireSize(w, Standard[d]);
  }

  lemma StandardSize(d: nat)
    requires d < 10
    ensures Standard[d] <= Segs && |Standard[d]| == Sizes[d]
  {
    match d
    case 0 => assert Standard[0] <= Segs;
    case 1 => assert Standard[1] <= Segs;
    case 2 => assert Standard[2] <= Segs;
    case 3 => assert Standard[3] <= Segs;
    case 4 => assert Standard[4] <= Segs;
    case 5 => assert Standard[5] <= Segs;
    case 6 => assert Standard[6] <= Segs;
    case 7 => assert Standard[7] <= Segs;
    case 8 => assert Standard[8] <= Segs;
    case 9 => assert Standard[9] <= Segs;
  }

  lemma ImgMeet(w: map<char, char>, a: nat, b: nat)
    requires Wiring(w) && a < 10 && b < 10
    ensures |Img(w, a) * Img(w, b)| == |Standard[a] * Standard[b]|
  {
    RewireMeet(w, Standard[a], Standard[b]);
  }

  /** How many segments the six- and five-segment digits share with 1 and
      with 4: the counts the training passes rely on. */
  lemma StandardMeets()
    ensures |Standard[0] * Standard[1]| == 2 && |Standard[6] * Standard[1]| == 1 && |Standard[9] * Standard[1]| == 2
    ensures |Standard[0] * Standard[4]| == 3 && |Standard[9] * Standard[4]| == 4
    ensures |Standard[3] * Standard[1]| == 2 && |Standard[2] * Standard[1]| == 1 && |Standard[5] * Standard[1]| == 1
    ensures |Standard[2] * Standard[4]| == 2 && |Standard[5] * Standard[4]| == 3
  {
    assert Standard[0] * Standard[1] == {'c', 'f'};
    assert Standard[6] * Standard[1] == {'f'};
    assert Standard[9] * Standard[1] == {'c', 'f'};
    assert Standard[0] * Standard[4] == {'b', 'c', 'f'};
    assert Standard[9] * Standard[4] == {'b', 'c', 'd', 'f'};
    assert Standard[3] * Standard[1] == {'c', 'f'};
    assert Standard[2] * Standard[1] == {'c'};
    assert Standard[5] * Standard[1] == {'f'};
    assert Standard[2] * Standard[4] == {'c', 'd'};
    assert Standard[5] * Standard[4] == {'b', 'd', 'f'};
  }

  /** p is the pattern of some digit through the wiring w. */
  ghost predicate ImgOf(w: map<char, char>, p: Pattern)
  {
    exists d :: 0 <= d < 10 && p == Img(w, d)
  }

  /** The ten patterns of a wiring, digit by digit. */
  function Wired(w: map<char, char>): (imgs: seq<Pattern>)
    ensures |imgs| == 10
  {
    seq(10, d requires 0 <= d < 10 => Img(w, d))
  }

  predicate SixClass(d: nat)
  {
    d == 0 || d == 6 || d == 9
  }

  predicate FiveClass(d: nat)
  {
    d == 2 || d == 3 || d == 5
  }

  /** p is the pattern of a six-segment digit. */
  ghost predicate IsSix(imgs: seq<Pattern>, p: Pattern)
  {
    exists e :: 0 <= e < |imgs| && SixClass(e) && imgs[e] == p
  }

  /** p is the pattern of a five-segment digit. */
  ghost predicate IsFive(imgs: seq<Pattern>, p: Pattern)
  {
    exists e :: 0 <= e < |imgs| && FiveClass(e) && imgs[e] == p
  }

  /** Ten patterns with the sizes of the standard digits and the overlaps
      with 1 and 4 that the training passes look at. */
  ghost predicate Shows(imgs: seq<Pattern>)
  {
    |imgs| == 10
    && (forall d :: 0 <= d < 10 ==> |imgs[d]| == Sizes[d])
    && |imgs[0] * imgs[1]| == 2 && |imgs[6] * imgs[1]| == 1 && |imgs[9] * imgs[1]| == 2
    && |imgs[0] * imgs[4]| == 3 && |imgs[9] * imgs[4]| == 4
    && |imgs[3] * imgs[1]| == 2 && |imgs[2] * imgs[1]| == 1 && |imgs[5] * imgs[1]| == 1
    && |imgs[2] * imgs[4]| == 2 && |imgs[5] * imgs[4]| == 3
  }

  /** Every wiring shows the digits with their standard sizes and overlaps. */
  lemma WiredShows(w: map<char, char>)
    requires Wiring(w)
    ensures Shows(Wired(w))
  {
    var imgs := Wired(w);
    forall d | 0 <= d < 10
      ensures |imgs[d]| == Sizes[d]
    {
      ImgSize(w, d);
    }
    StandardMeets();
    ImgMeet(w, 0, 1);
    ImgMeet(w, 6, 1);
    ImgMeet(w, 9, 1);
    ImgMeet(w, 0, 4);
    ImgMeet(w, 9, 4);
    ImgMeet(w, 3, 1);
    ImgMeet(w, 2, 1);
    ImgMeet(w, 5, 1);
    ImgMeet(w, 2, 4);
    ImgMeet(w, 5, 4);
  }

  /** Ten patterns with the sizes of the standard digits. */
  ghost predicate SizesOk(imgs: seq<Pattern>)
  {
    |imgs| == 10 && forall d :: 0 <= d < 10 ==> |imgs[d]| == Sizes[d]
  }

  /** A pattern's size tells its digit apart from every digit of another
      size. */
  lemma SizeTells(imgs: seq<Pattern>, d: nat)
    requires SizesOk(imgs) && d < 10
    ensures |imgs[d]| == 6 <==> SixClass(d)
    ensures |imgs[d]| == 5 <==> FiveClass(d)
    ensures DigitOfSize(|imgs[d]|) == (if d == 1 || d == 4 || d == 7 || d == 8 then Some(d) else None)
  {
    assert |imgs[d]| == Sizes[d];
  }

  /** The patterns of 1 and 4 are known. */
  predicate Keyed(imgs: seq<Pattern>, m: map<nat, Pattern>)
    requires |imgs| == 10
  {
    1 in m && 4 in m && m[1] == imgs[1] && m[4] == imgs[4]
  }

  /** Once 1 and 4 are known, the overlaps place every six- and
      five-segment digit. */
  ghost predicate Sorts(imgs: seq<Pattern>)
    requires |imgs| == 10
  {
    (forall e, m :: 0 <= e < 10 && SixClass(e) && Keyed(imgs, m) ==> SixDigit(imgs[e], m) == Some(e))
    && (forall e, m :: 0 <= e < 10 && FiveClass(e) && Keyed(imgs, m) ==> FiveDigit(imgs[e], m) == Some(e))
  }

  lemma SameDigit(imgs: seq<Pattern>, a: nat, b: nat)
    requires NoDup(imgs) && a < |imgs| && b < |imgs| && imgs[a] == imgs[b]
    ensures a == b
  {
  }

  lemma ShowsSorts(imgs: seq<Pattern>)
    requires Shows(imgs)
    ensures Sorts(imgs) && NoDup(imgs)
  {
    forall a, b | 0 <= a < b < 10
      ensures imgs[a] != imgs[b]
    {
      assert |imgs[a]| == Sizes[a] && |imgs[b]| == Sizes[b];
    }
  }

  /** p is one of the ten patterns. */
  predicate IsImg(imgs: seq<Pattern>, p: Pattern)
  {
    exists d :: 0 <= d < |imgs| && imgs[d] == p
  }

  /** Every digit stored has its own pattern. */
  predicate Correct(imgs: seq<Pattern>, m: map<nat, Pattern>)
  {
    forall d :: d in m ==> d < |imgs| && m[d] == imgs[d]
  }

  predicate Easy(d: nat)
  {
    d == 1 || d == 4 || d == 7 || d == 8
  }

  /** The size pass never fails on the ten patterns. */
  lemma {:induction false} BySizeSome(imgs: seq<Pattern>, pats: seq<Pattern>)
    requires SizesOk(imgs) && forall i :: 0 <= i < |pats| ==> IsImg(imgs, pats[i])
    ensures BySize(pats).Some?
  {
    if BySize(pats).None? {
      var i :| 0 <= i < |pats| && Unplaceable(pats[i]);
      var d :| 0 <= d < 10 && imgs[d] == pats[i];
      SizeTells(imgs, d);
    }
  }

  /** The size pass stores the right pattern for each of 1, 4, 7 and 8 that
      occurs. */
  lemma {:induction false} BySizeDigits(imgs: seq<Pattern>, pats: seq<Pattern>)
    requires SizesOk(imgs) && forall i :: 0 <= i < |pats| ==> IsImg(imgs, pats[i])
    ensures BySize(pats).Some?
    ensures Correct(imgs, BySize(pats).value.digits)
    ensures forall d :: 0 <= d < 10 && Easy(d) && imgs[d] in pats ==> d in BySize(pats).value.digits
  {
    BySizeSome(imgs, pats);
    if |pats| > 0 {
      var n := |pats| - 1;
      var front := pats[..n];
      assert forall i :: 0 <= i < n ==> front[i] == pats[i];
      BySizeDigits(imgs, front);
      var p := pats[n];
      var d :| 0 <= d < 10 && imgs[d] == p;
      SizeTells(imgs, d);
      BySizeDigitsLast(pats);
      assert pats == front + [p];
      assert forall e :: 0 <= e < 10 && imgs[e] in pats ==> imgs[e] in front || imgs[e] == p;
      forall e | 0 <= e < 10 && Easy(e) && imgs[e] == p
        ensures e == d
      {
        SizeTells(imgs, e);
      }
    }
  }

  /** One step of the size pass on the known digits. */
  lemma BySizeDigitsLast(pats: seq<Pattern>)
    requires |pats| > 0 && BySize(pats).Some?
    ensures BySize(pats[..|pats| - 1]).Some?
    ensures var l := BySize(pats[..|pats| - 1]).value; var p := pats[|pats| - 1];
      BySize(pats).value.digits ==
        (if |p| == 6 || |p| == 5 then l.digits else l.digits[DigitOfSize(|p|).value := p])
  {
  }

  /** One step of the size pass on the set-aside lists. */
  lemma BySizeLast(pats: seq<Pattern>)
    requires |pats| > 0 && BySize(pats).Some?
    ensures BySize(pats[..|pats| - 1]).Some?
    ensures var l := BySize(pats[..|pats| - 1]).value; var p := pats[|pats| - 1];
      BySize(pats).value.six == (if |p| == 6 then l.six + [p] else l.six)
      && BySize(pats).value.five == (if |p| == 5 then l.five + [p] else l.five)
  {
  }

  /** Every pattern the size pass sets aside as six-segment is the pattern
      of a six-segment digit. */
  lemma {:induction false} BySizeSix(imgs: seq<Pattern>, pats: seq<Pattern>)
    requires SizesOk(imgs) && forall i :: 0 <= i < |pats| ==> IsImg(imgs, pats[i])
    ensures BySize(pats).Some?
    ensures forall i :: 0 <= i < |BySize(pats).value.six| ==> IsSix(imgs, BySize(pats).value.six[i])
  {
    BySizeSome(imgs, pats);
    if |pats| > 0 {
      var n := |pats| - 1;
      var front := pats[..n];
      assert forall i :: 0 <= i < n ==> front[i] == pats[i];
      BySizeSix(imgs, front);
      var p := pats[n];
      var d :| 0 <= d < 10 && imgs[d] == p;
      SizeTells(imgs, d);
      BySizeLast(pats);
      var l := BySize(front).value;
      var r := BySize(pats).value.six;
      if |p| == 6 {
        assert r == l.six + [p];
        assert SixClass(d);
        forall i | 0 <= i < |r|
          ensures IsSix(imgs, r[i])
        {
          if i == |l.six| {
            assert imgs[d] == r[i];
          } else {
            assert r[i] == l.six[i];
          }
        }
      } else {
        assert r == l.six;
      }
    }
  }

  /** The size pass sets aside every six-segment digit's pattern it meets. */
  lemma {:induction false} BySizeSixAll(imgs: seq<Pattern>, pats: seq<Pattern>)
    requires SizesOk(imgs) && forall i :: 0 <= i < |pats| ==> IsImg(imgs, pats[i])
    ensures BySize(pats).Some?
    ensures forall e :: 0 <= e < 10 && SixClass(e) && imgs[e] in pats ==> imgs[e] in BySize(pats).value.six
  {
    BySizeSome(imgs, pats);
    if |pats| > 0 {
      var n := |pats| - 1;
      var front := pats[..n];
      assert forall i :: 0 <= i < n ==> front[i] == pats[i];
      BySizeSixAll(imgs, front);
      var p := pats[n];
      forall e | 0 <= e < 10 && SixClass(e) && imgs[e] in pats
        ensures imgs[e] in front || imgs[e] == p
      {
        assert pats == front + [p];
      }
      forall e | 0 <= e < 10 && SixClass(e) && imgs[e] == p
        ensures |p| == 6
      {
        SizeTells(imgs, e);
      }
    }
  }

  /** Every pattern the size pass sets aside as five-segment is the pattern
      of a five-segment digit. */
  lemma {:induction false} BySizeFive(imgs: seq<Pattern>, pats: seq<Pattern>)
    requires SizesOk(imgs) && forall i :: 0 <= i < |pats| ==> IsImg(imgs, pats[i])
    ensures BySize(pats).Some?
    ensures forall i :: 0 <= i < |BySize(pats).value.five| ==> IsFive(imgs, BySize(pats).value.five[i])
  {
    BySizeSome(imgs, pats);
    if |pats| > 0 {
      var n := |pats| - 1;
      var front := pats[..n];
      assert forall i :: 0 <= i < n ==> front[i] == pats[i];
      BySizeFive(imgs, front);
      var p := pats[n];
      var d :| 0 <= d < 10 && imgs[d] == p;
      SizeTells(imgs, d);
      BySizeLast(pats);
      var l := BySize(front).value;
      var r := BySize(pats).value.five;
      if |p| == 5 {
        assert r == l.five + [p];
        assert FiveClass(d);
        forall i | 0 <= i < |r|
          ensures IsFive(imgs, r[i])
        {
          if i == |l.five| {
            assert imgs[d] == r[i];
          } else {
            assert r[i] == l.five[i];
          }
        }
      } else {
        assert r == l.five;
      }
    }
  }

  /** The size pass sets aside every five-segment digit's pattern it meets. */
  lemma {:induction false} BySizeFiveAll(imgs: seq<Pattern>, pats: seq<Pattern>)
    requires SizesOk(imgs) && forall i :: 0 <= i < |pats| ==> IsImg(imgs, pats[i])
    ensures BySize(pats).Some?
    ensures forall e :: 0 <= e < 10 && FiveClass(e) && imgs[e] in pats ==> imgs[e] in BySize(pats).value.five
  {
    BySizeSome(imgs, pats);
    if |pats| > 0 {
      var n := |pats| - 1;
      var front := pats[..n];
      assert forall i :: 0 <= i < n ==> front[i] == pats[i];
      BySizeFiveAll(imgs, front);
      var p := pats[n];
      forall e | 0 <= e < 10 && FiveClass(e) && imgs[e] in pats
        ensures imgs[e] in front || imgs[e] == p
      {
        assert pats == front + [p];
      }
      forall e | 0 <= e < 10 && FiveClass(e) && imgs[e] == p
        ensures |p| == 5
      {
        SizeTells(imgs, e);
      }
    }
  }

  lemma {:induction false} PlaceSixShows(imgs: seq<Pattern>, six: seq<Pattern>, m: map<nat, Pattern>)
    requires |imgs| == 10 && Sorts(imgs) && NoDup(imgs) && Correct(imgs, m) && Keyed(imgs, m)
    requires forall i :: 0 <= i < |six| ==> IsSix(imgs, six[i])
    ensures PlaceSix(six, m).Some? && Correct(imgs, PlaceSix(six, m).value)
    ensures Keyed(imgs, PlaceSix(six, m).value)
    ensures forall i, e :: 0 <= i < |six| && 0 <= e < 10 && imgs[e] == six[i] ==> e in PlaceSix(six, m).value
  {
    if |six| > 0 {
      var n := |six| - 1;
      var front := six[..n];
      assert forall i :: 0 <= i < n ==> front[i] == six[i];
      PlaceSixShows(imgs, front, m);
      var m' := PlaceSix(front, m).value;
      var e :| 0 <= e < 10 && SixClass(e) && imgs[e] == six[n];
      assert SixDigit(imgs[e], m') == Some(e);
      var m'' := m'[e := six[n]];
      assert PlaceSix(six, m) == Some(m'');
      forall i, e' | 0 <= i < |six| && 0 <= e' < 10 && imgs[e'] == six[i]
        ensures e' in m''
      {
        if i == n {
          SameDigit(imgs, e, e');
        } else {
          assert front[i] == six[i];
        }
      }
    }
  }



  lemma {:induction false} PlaceFiveShows(imgs: seq<Pattern>, five: seq<Pattern>, m: map<nat, Pattern>)
    requires |imgs| == 10 && Sorts(imgs) && NoDup(imgs) && Correct(imgs, m) && Keyed(imgs, m)
    requires forall i :: 0 <= i < |five| ==> IsFive(imgs, five[i])
    ensures PlaceFive(five, m).Some? && Correct(imgs, PlaceFive(five, m).value)
    ensures Keyed(imgs, PlaceFive(five, m).value)
    ensures forall i, e :: 0 <= i < |five| && 0 <= e < 10 && imgs[e] == five[i] ==> e in PlaceFive(five, m).value
  {
    if |five| > 0 {
      var n := |five| - 1;
      var front := five[..n];
      assert forall i :: 0 <= i < n ==> front[i] == five[i];
      PlaceFiveShows(imgs, front, m);
      var m' := PlaceFive(front, m).value;
      var e :| 0 <= e < 10 && FiveClass(e) && imgs[e] == five[n];
      assert FiveDigit(imgs[e], m') == Some(e);
      var m'' := m'[e := five[n]];
      assert PlaceFive(five, m) == Some(m'');
      forall i, e' | 0 <= i < |five| && 0 <= e' < 10 && imgs[e'] == five[i]
        ensures e' in m''
      {
        if i == n {
          SameDigit(imgs, e, e');
        } else {
          assert front[i] == five[i];
        }
      }
    }
  }



  /** The size pass over patterns that include all ten of a display's:
      1 and 4 are learned, and the six- and five-segment digits are all set
      aside, and nothing else is. */
  lemma SizePass(imgs: seq<Pattern>, pats: seq<Pattern>)
    requires SizesOk(imgs)
    requires forall d :: 0 <= d < 10 ==> imgs[d] in pats
    requires forall i :: 0 <= i < |pats| ==> IsImg(imgs, pats[i])
    ensures BySize(pats).Some?
    ensures Correct(imgs, BySize(pats).value.digits) && Keyed(imgs, BySize(pats).value.digits)
    ensures forall e :: 0 <= e < 10 && Easy(e) ==> e in BySize(pats).value.digits
    ensures forall i :: 0 <= i < |BySize(pats).value.six| ==> IsSix(imgs, BySize(pats).value.six[i])
    ensures forall i :: 0 <= i < |BySize(pats).value.five| ==> IsFive(imgs, BySize(pats).value.five[i])
    ensures forall e :: 0 <= e < 10 && SixClass(e) ==> imgs[e] in BySize(pats).value.six
    ensures forall e :: 0 <= e < 10 && FiveClass(e) ==> imgs[e] in BySize(pats).value.five
  {
    BySizeDigits(imgs, pats);
    BySizeSix(imgs, pats);
    BySizeFive(imgs, pats);
    BySizeSixAll(imgs, pats);
    BySizeFiveAll(imgs, pats);
    assert Easy(1) && Easy(4);
  }

  /** After both placing passes every digit is known. */
  lemma AllPlaced(imgs: seq<Pattern>, l: Learned, m6: map<nat, Pattern>, m: map<nat, Pattern>)
    requires |imgs| == 10
    requires forall e :: 0 <= e < 10 && Easy(e) ==> e in l.digits
    requires forall e :: 0 <= e < 10 && SixClass(e) ==> imgs[e] in l.six
    requires forall e :: 0 <= e < 10 && FiveClass(e) ==> imgs[e] in l.five
    requires forall i, e :: 0 <= i < |l.six| && 0 <= e < 10 && imgs[e] == l.six[i] ==> e in m6
    requires forall i, e :: 0 <= i < |l.five| && 0 <= e < 10 && imgs[e] == l.five[i] ==> e in m
    requires m6.Keys >= l.digits.Keys && m.Keys >= m6.Keys
    ensures forall d :: 0 <= d < 10 ==> d in m
  {
    forall d | 0 <= d < 10
      ensures d in m
    {
      if SixClass(d) {
        var i :| 0 <= i < |l.six| && l.six[i] == imgs[d];
      } else if FiveClass(d) {
        var i :| 0 <= i < |l.five| && l.five[i] == imgs[d];
      } else {
        assert Easy(d);
      }
    }
  }

  /** Training patterns that are the ten patterns of a display, in any
      order and with any repetitions, teach `Code::new` the pattern of
      every digit, provided the patterns have the standard sizes and
      overlaps. */
  lemma NewShows(imgs: seq<Pattern>, pats: seq<Pattern>)
    requires SizesOk(imgs) && Sorts(imgs) && NoDup(imgs)
    requires forall d :: 0 <= d < 10 ==> imgs[d] in pats
    requires forall i :: 0 <= i < |pats| ==> IsImg(imgs, pats[i])
    ensures New(pats) == Some(imgs)
  {
    SizePass(imgs, pats);
    var l := BySize(pats).value;
    PlaceSixShows(imgs, l.six, l.digits);
    var m6 := PlaceSix(l.six, l.digits).value;
    PlaceFiveShows(imgs, l.five, m6);
    var m := PlaceFive(l.five, m6).value;
    AllPlaced(imgs, l, m6, m);
    assert New(pats) == Some(seq(10, d requires 0 <= d < 10 => m[d]));
    assert seq(10, d requires 0 <= d < 10 => m[d]) == imgs;
  }

  /** The training patterns of a display scrambled by any wiring, in any
      order, teach `Code::new` the pattern of every digit through that
      wiring. */
  lemma NewScrambled(w: map<char, char>, pats: seq<Pattern>)
    requires Wiring(w)
    requires forall d :: 0 <= d < 10 ==> Img(w, d) in pats
    requires forall i :: 0 <= i < |pats| ==> ImgOf(w, pats[i])
    ensures New(pats) == Some(Wired(w))
  {
    WiredShows(w);
    ShowsSorts(Wired(w));
    WiredPats(w, pats);
    NewShows(Wired(w), pats);
  }

  /** Patterns drawn from a wiring's images are drawn from its ten
      patterns. */
  lemma WiredPats(w: map<char, char>, pats: seq<Pattern>)
    requires forall d :: 0 <= d < 10 ==> Img(w, d) in pats
    requires forall i :: 0 <= i < |pats| ==> ImgOf(w, pats[i])
    ensures forall d :: 0 <= d < 10 ==> Wired(w)[d] in pats
    ensures forall i :: 0 <= i < |pats| ==> IsImg(Wired(w), pats[i])
  {
    var imgs := Wired(w);
    forall i | 0 <= i < |pats|
      ensures IsImg(imgs, pats[i])
    {
      var d :| 0 <= d < 10 && pats[i] == Img(w, d);
      assert imgs[d] == pats[i];
    }
  }

  /** The digit a learned code reads for an output pattern: the index of
      the first learned pattern equal to it, or 0 when none is (an
      unmatched pattern adds nothing to the sum). */
  function DigitOf<T(==)>(code: seq<T>, p: T): (d: nat)
    ensures p in code ==> d < |code| && code[d] == p && p !in code[..d]
    ensures p !in code ==> d == 0
  {
    match FirstIndex(code, p)
    case None => 0
    case Some(i) => i
  }

  /** The number an output reads as, its leftmost pattern the most
      significant digit; None when some output pattern equals more than
      one learned pattern. */
  function Reading<T(==)>(code: seq<T>, outs: seq<T>): (r: Option<nat>)
    ensures r.None? <==> exists i :: 0 <= i < |outs| && Occurrences(code, outs[i]) > 1
  {
    if |outs| == 0 then Some(0)
    else
      var front := outs[..|outs| - 1];
      var p := outs[|outs| - 1];
      assert forall i :: 0 <= i < |front| ==> front[i] == outs[i];
      match Reading(code, front)
      case None => None
      case Some(v) =>
        if Occurrences(code, p) > 1 then None
        else Some(10 * v + DigitOf(code, p))
  }

  /** Reading a pattern in front of others adds its digit at the place
      value of their count. */
  lemma {:induction false} ReadingPrepend<T>(code: seq<T>, p: T, s: seq<T>)
    ensures Reading(code, [p] + s).None? <==> Occurrences(code, p) > 1 || Reading(code, s).None?
    ensures Reading(code, [p] + s).Some? ==>
      Reading(code, [p] + s).value == DigitOf(code, p) * Pow(10, |s|) + Reading(code, s).value
  {
    var ps := [p] + s;
    if |s| > 0 {
      var front := s[..|s| - 1];
      assert ps[..|ps| - 1] == [p] + front;
      ReadingPrepend(code, p, front);
      ReadingLast(code, ps);
      ReadingLast(code, s);
      var b := Reading(code, front);
      if Occurrences(code, p) <= 1 && b.Some? && Occurrences(code, s[|s| - 1]) <= 1 {
        PlaceValue(DigitOf(code, p), b.value, DigitOf(code, s[|s| - 1]), |front|);
      }
    } else {
      assert ps[..0] == [];
    }
  }

  /** The reading with one more pattern behind. */
  lemma ReadingLast<T>(code: seq<T>, outs: seq<T>)
    requires |outs| > 0
    ensures var b := Reading(code, outs[..|outs| - 1]);
      Reading(code, outs).None? <==> b.None? || Occurrences(code, outs[|outs| - 1]) > 1
    ensures var b := Reading(code, outs[..|outs| - 1]);
      Reading(code, outs).Some? ==> Reading(code, outs).value == 10 * b.value + DigitOf(code, outs[|outs| - 1])
  {
  }

  lemma PlaceValue(d: nat, v: nat, e: nat, n: nat)
    ensures 10 * (d * Pow(10, n) + v) + e == d * Pow(10, n + 1) + (10 * v + e)
  {
    assert Pow(10, n + 1) == 10 * Pow(10, n);
  }

  /** The first position holding p is the digit read for p. */
  lemma DigitAt<T>(code: seq<T>, p: T, k: nat)
    requires k < |code| && code[k] == p && p !in code[..k]
    ensures DigitOf(code, p) == k
  {
  }

  /** `Code::decode`: from the rightmost output pattern leftwards, the index
      of the learned pattern it equals is added at place value 10^idx; a
      pattern equal to two learned patterns gives None. */
  method Decode<T(==)>(code: seq<T>, outs: seq<T>) returns (r: Option<nat>)
    ensures r == Reading(code, outs)
  {
    var result := 0;
    var idx := 0;
    while idx < |outs|
      invariant idx <= |outs|
      invariant Reading(code, outs[|outs| - idx..]) == Some(result)
    {
      var charset := outs[|outs| - 1 - idx];
      var next := Lookup(code, charset, Pow(10, idx), result);
      if next.None? {
        assert Occurrences(code, outs[|outs| - 1 - idx]) > 1;
        return None;
      }
      var rest := outs[|outs| - idx..];
      assert outs[|outs| - 1 - idx..] == [charset] + rest;
      ReadingPrepend(code, charset, rest);
      result := next.value;
      idx := idx + 1;
    }
    assert outs[|outs| - idx..] == outs;
    r := Some(result);
  }

  /** The inner loop of `Code::decode`: scans the learned patterns for
      one equal to p and adds its index times place to base; a second
      equal pattern gives None. */
  method Lookup<T(==)>(code: seq<T>, p: T, place: nat, base: nat) returns (r: Option<nat>)
    ensures r.None? <==> Occurrences(code, p) > 1
    ensures r.Some? ==> r.value == base + DigitOf(code, p) * place
  {
    var result := base;
    var found := false;
    var digit := 0;
    while digit < |code|
      invariant digit <= |code|
      invariant found <==> p in code[..digit]
      invariant Occurrences(code[..digit], p) <= 1
      invariant !found ==> result == base
      invariant found ==> result == base + DigitOf(code, p) * place
    {
      assert code[..digit + 1] == code[..digit] + [code[digit]];
      OccurrencesZero(code[..digit], p);
      if code[digit] == p {
        if found {
          assert code[..digit + 1][..digit] == code[..digit];
          OccurrencesPrefix(code, digit + 1, p);
          return None;
        }
        DigitAt(code, p, digit);
        found := true;
        result := result + digit * place;
      }
      digit := digit + 1;
    }
    assert code[..digit] == code;
    if !found {
      OccurrencesZero(code, p);
    }
    r := Some(result);
  }

  /** The number a sequence of decimal digits spells, most significant
      first. */
  function Number(ds: seq<nat>): nat
  {
    if |ds| == 0 then 0 else 10 * Number(ds[..|ds| - 1]) + ds[|ds| - 1]
  }

  /** In a code without repeated patterns each pattern occurs at most once. */
  lemma {:induction false} OccursOnce<T>(code: seq<T>, p: T)
    requires NoDup(code)
    ensures Occurrences(code, p) <= 1
  {
    if |code| > 0 {
      var front := code[..|code| - 1];
      assert NoDup(front) by {
        forall i, j | 0 <= i < |front| && 0 <= j < |front| && i != j
          ensures front[i] != front[j]
        {
          assert front[i] == code[i] && front[j] == code[j];
        }
      }
      OccursOnce(front, p);
      if code[|code| - 1] == p {
        forall i | 0 <= i < |front|
          ensures front[i] != p
        {
          assert front[i] == code[i];
        }
        OccurrencesZero(front, p);
      }
    }
  }

  /** In a code without repeated patterns, the pattern at d reads as d. */
  lemma DigitOfNoDup<T>(code: seq<T>, d: nat)
    requires NoDup(code) && d < |code|
    ensures DigitOf(code, code[d]) == d
  {
    var k := DigitOf(code, code[d]);
    assert code[k] == code[d];
  }

  /** Output patterns that are learned patterns, in a code without repeated
      patterns, read as the digits they stand for. */
  lemma {:induction false} ReadingDigits<T>(code: seq<T>, ds: seq<nat>, outs: seq<T>)
    requires NoDup(code)
    requires |outs| == |ds| && forall i :: 0 <= i < |ds| ==> ds[i] < |code| && outs[i] == code[ds[i]]
    ensures Reading(code, outs) == Some(Number(ds))
  {
    if |ds| > 0 {
      var n := |ds| - 1;
      assert forall i :: 0 <= i < n ==> ds[..n][i] == ds[i] && outs[..n][i] == outs[i];
      ReadingDigits(code, ds[..n], outs[..n]);
      OccursOnce(code, outs[n]);
      DigitOfNoDup(code, ds[n]);
      ReadingLast(code, outs);
      assert Reading(code, outs).Some?;
    }
  }

  /** One line of the notes: the ten training tokens before ` | ` and the
      output tokens after it. */
  datatype Entry = Entry(training: seq<string>, output: seq<string>)

  /** The tokens of a line as patterns. */
  function Patterns(tokens: seq<string>): (ps: seq<Pattern>)
    ensures |ps| == |tokens| && forall i :: 0 <= i < |tokens| ==> ps[i] == ToPattern(tokens[i])
  {
    seq(|tokens|, i requires 0 <= i < |tokens| => ToPattern(tokens[i]))
  }

  /** The token lengths `part_one` looks for: those of 1, 7, 4 and 8. */
  predicate EasyLength(n: nat)
  {
    n == 4 || n == 3 || n == 2 || n == 7
  }

  /** The number of output tokens with an easy length. */
  function CountEasy(tokens: seq<string>): (n: nat)
    ensures n <= |tokens|
  {
    if |tokens| == 0 then 0
    else CountEasy(tokens[..|tokens| - 1]) + (if EasyLength(|tokens[|tokens| - 1]|) then 1 else 0)
  }

  /** `part_one`: easy-length output tokens over all lines. */
  function PartOne(entries: seq<Entry>): nat
  {
    if |entries| == 0 then 0
    else PartOne(entries[..|entries| - 1]) + CountEasy(entries[|entries| - 1].output)
  }

  /** The number of digits among ds that are 1, 4, 7 or 8. */
  function EasyDigits(ds: seq<nat>): nat
  {
    if |ds| == 0 then 0
    else EasyDigits(ds[..|ds| - 1]) + (if Easy(ds[|ds| - 1]) then 1 else 0)
  }

  /** Tokens that name each of their wires once. */
  predicate Plain(tokens: seq<string>)
  {
    forall i :: 0 <= i < |tokens| ==> |ToPattern(tokens[i])| == |tokens[i]|
  }

  /** The number of outputs showing 1, 4, 7 or 8 over all lines. */
  function EasyTotal(dss: seq<seq<nat>>): nat
  {
    if |dss| == 0 then 0 else EasyTotal(dss[..|dss| - 1]) + EasyDigits(dss[|dss| - 1])
  }

  /** On notes from scrambled displays whose output tokens name each wire
      once, `part_one` counts the outputs that show 1, 4, 7 or 8. */
  lemma {:induction false} PartOneShown(entries: seq<Entry>, ws: seq<map<char, char>>, dss: seq<seq<nat>>)
    requires |ws| == |entries| && |dss| == |entries|
    requires forall k :: 0 <= k < |entries| ==> Wiring(ws[k]) && Shown(entries[k].output, ws[k], dss[k]) && Plain(entries[k].output)
    ensures PartOne(entries) == EasyTotal(dss)
  {
    if |entries| > 0 {
      var n := |entries| - 1;
      assert forall k :: 0 <= k < n ==> entries[..n][k] == entries[k] && ws[..n][k] == ws[k] && dss[..n][k] == dss[k];
      PartOneShown(entries[..n], ws[..n], dss[..n]);
      CountEasyDigits(ws[n], entries[n].output, dss[n]);
    }
  }

  /** A digit's segment count is an easy length exactly for 1, 4, 7 and 8. */
  lemma EasySize(d: nat)
    requires d < 10
    ensures EasyLength(Sizes[d]) <==> Easy(d)
  {
  }

  /** On a scrambled display whose output tokens name each lit wire once,
      the easy-length tokens are exactly the outputs showing 1, 4, 7 or 8. */
  lemma {:induction false} CountEasyDigits(w: map<char, char>, tokens: seq<string>, ds: seq<nat>)
    requires Wiring(w) && Shown(tokens, w, ds) && Plain(tokens)
    ensures CountEasy(tokens) == EasyDigits(ds)
  {
    if |ds| > 0 {
      var n := |ds| - 1;
      assert forall i :: 0 <= i < n ==> ds[..n][i] == ds[i] && tokens[..n][i] == tokens[i];
      CountEasyDigits(w, tokens[..n], ds[..n]);
      ImgSize(w, ds[n]);
      EasySize(ds[n]);
    }
  }

  /** The value of one line: its output read with the code its training
      tokens teach, or None where the source panics (a failed `Code::new`
      or an ambiguous output). */
  function LineValue(e: Entry): Option<nat>
  {
    match New(Patterns(e.training))
    case None => None
    case Some(code) => Reading(code, Patterns(e.output))
  }

  /** The sum of the values, or None as soon as one is None. */
  function SumAll(vals: seq<Option<nat>>): (r: Option<nat>)
    ensures r.None? <==> exists k :: 0 <= k < |vals| && vals[k].None?
  {
    if |vals| == 0 then Some(0)
    else
      var front := vals[..|vals| - 1];
      assert forall k :: 0 <= k < |front| ==> front[k] == vals[k];
      match SumAll(front)
      case None => None
      case Some(total) =>
        match vals[|vals| - 1]
        case None => None
        case Some(v) => Some(total + v)
  }

  /** When every value is present, SumAll adds them up. */
  lemma {:induction false} SumAllSome(vals: seq<Option<nat>>, ns: seq<nat>)
    requires |ns| == |vals| && forall k :: 0 <= k < |vals| ==> vals[k] == Some(ns[k])
    ensures SumAll(vals) == Some(Sum(ns))
  {
    if |vals| > 0 {
      var n := |vals| - 1;
      assert forall k :: 0 <= k < n ==> vals[..n][k] == vals[k] && ns[..n][k] == ns[k];
      SumAllSome(vals[..n], ns[..n]);
    }
  }

  /** `part_two`: the sum of the values of all lines, or None as soon as one
      line panics. */
  function PartTwo(entries: seq<Entry>): Option<nat>
  {
    SumAll(seq(|entries|, k requires 0 <= k < |entries| => LineValue(entries[k])))
  }

  /** `part_two` panics exactly when some line does. */
  lemma PartTwoNone(entries: seq<Entry>)
    ensures PartTwo(entries).None? <==> exists k :: 0 <= k < |entries| && LineValue(entries[k]).None?
  {
    var vals := seq(|entries|, k requires 0 <= k < |entries| => LineValue(entries[k]));
    assert forall k :: 0 <= k < |entries| ==> vals[k] == LineValue(entries[k]);
  }

  /** When every line has a value, `part_two` is their sum. */
  lemma PartTwoSum(entries: seq<Entry>, ns: seq<nat>)
    requires |ns| == |entries|
    requires forall k :: 0 <= k < |entries| ==> LineValue(entries[k]) == Some(ns[k])
    ensures PartTwo(entries) == Some(Sum(ns))
  {
    var vals := seq(|entries|, k requires 0 <= k < |entries| => LineValue(entries[k]));
    SumAllSome(vals, ns);
  }

  /** Training tokens that are a wiring's ten patterns, in any order and
      with any repetitions. */
  ghost predicate Trained(training: seq<string>, w: map<char, char>)
  {
    Wiring(w)
    && (forall d :: 0 <= d < 10 ==> Img(w, d) in Patterns(training))
    && (forall i :: 0 <= i < |training| ==> ImgOf(w, ToPattern(training[i])))
  }

  /** Output tokens showing the digits ds through the wiring w. */
  ghost predicate Shown(output: seq<string>, w: map<char, char>, ds: seq<nat>)
  {
    |output| == |ds| && forall i :: 0 <= i < |ds| ==> ds[i] < 10 && ToPattern(output[i]) == Img(w, ds[i])
  }

  lemma TrainedPats(training: seq<string>, w: map<char, char>)
    requires Trained(training, w)
    ensures forall i :: 0 <= i < |Patterns(training)| ==> ImgOf(w, Patterns(training)[i])
  {
    var pats := Patterns(training);
    forall i | 0 <= i < |pats|
      ensures ImgOf(w, pats[i])
    {
      var d :| 0 <= d < 10 && ToPattern(training[i]) == Img(w, d);
      assert pats[i] == Img(w, d);
    }
    assert Patterns(training) == pats;
  }

  lemma ShownPats(output: seq<string>, w: map<char, char>, ds: seq<nat>)
    requires Shown(output, w, ds)
    ensures forall i :: 0 <= i < |ds| ==> ds[i] < |Wired(w)| && Patterns(output)[i] == Wired(w)[ds[i]]
  {
    var outs := Patterns(output);
    forall i | 0 <= i < |ds|
      ensures ds[i] < 10 && outs[i] == Wired(w)[ds[i]]
    {
      assert outs[i] == ToPattern(output[i]);
    }
  }

  /** A line of a scrambled display is worth the number its output digits
      spell. */
  lemma LineReads(e: Entry, w: map<char, char>, ds: seq<nat>)
    requires Trained(e.training, w) && Shown(e.output, w, ds)
    ensures LineValue(e) == Some(Number(ds))
  {
    TrainedPats(e.training, w);
    NewScrambled(w, Patterns(e.training));
    WiredShows(w);
    ShowsSorts(Wired(w));
    ShownPats(e.output, w, ds);
    ReadingDigits(Wired(w), ds, Patterns(e.output));
  }
}
