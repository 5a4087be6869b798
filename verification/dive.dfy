/** Day 2: steering the submarine.  Each instruction moves it up, down or
    forward; part one reads up and down as depth changes, part two reads
    them as changes of aim, with forward moves diving by aim times the
    distance. */
module Dive {
  import opened Common

  datatype Instruction = Up(n: int) | Down(n: int) | Forward(n: int)

  /** The word that names an instruction. */
  function Keyword(i: Instruction): string
  {
    match i
    case Up(_) => "up"
    case Down(_) => "down"
    case Forward(_) => "forward"
  }

  /** The range of a 32-bit signed integer. */
  predicate IsI32(n: int)
  {
    -0x8000_0000 <= n < 0x8000_0000
  }

  /** Rust's `str::parse::<i32>`: an optional sign, then one or more
      decimal digits, with a value in range; anything else is an error
      (None). */
  function ParseI32(s: string): (r: Option<int>)
    ensures r.Some? ==> IsI32(r.value)
  {
    if |s| > 0 && s[0] == '-' then
      var digits := s[1..];
      if |digits| > 0 && IsDigit(digits[0]) then
        match ParseNat(digits)
        case None => None
        case Some(v) =>
          var m: int := 0 - v;
          if IsI32(m) then Some(m) else None
      else None
    else
      match ParseNat(s)
      case None => None
      case Some(v) => if IsI32(v) then Some(v) else None
  }

  /** The decimal text of an integer, with a '-' when it is negative. */
  function ShowInt(n: int): string
  {
    if n < 0 then "-" + Show(-n) else Show(n)
  }

  /** Every 32-bit integer's text parses back to it. */
  lemma ParseShowInt(n: int)
    requires IsI32(n)
    ensures ParseI32(ShowInt(n)) == Some(n)
  {
    if n < 0 {
      assert ShowInt(n)[1..] == Show(-n);
      ParseShow(-n);
    } else {
      ParseShow(n);
    }
  }

  /** The token that `split(' ')` yields first: the text up to the first
      space. */
  function Head(s: string): (r: string)
    ensures ' ' !in r && (r == s || (|r| < |s| && s[|r|] == ' ' && s[..|r|] == r))
  {
    match FirstIndex(s, ' ')
    case None => s
    case Some(k) => s[..k]
  }

  /** `Instruction::from_string`: the first word names the instruction and
      the second is its 32-bit amount; a missing amount, an amount that is
      no number and an unknown word all panic (None).  Words after the
      second are ignored. */
  function FromString(s: string): (r: Option<Instruction>)
    ensures r.Some? ==> |Head(s)| < |s| && Head(s) == Keyword(r.value) && IsI32(r.value.n)
    ensures r.Some? ==> ParseI32(Head(s[|Head(s)| + 1..])) == Some(r.value.n)
  {
    var inst := Head(s);
    if |inst| == |s| then None
    else
      match ParseI32(Head(s[|inst| + 1..]))
      case None => None
      case Some(n) =>
        if inst == "up" then Some(Up(n))
        else if inst == "down" then Some(Down(n))
        else if inst == "forward" then Some(Forward(n))
        else None
  }

  /** An instruction's line: its word, a space and its amount. */
  function Render(i: Instruction): string
  {
    Keyword(i) + " " + ShowInt(i.n)
  }

  /** The first token of a word, a space and more text is the word. */
  lemma HeadOfJoin(w: string, t: string)
    requires ' ' !in w
    ensures Head(w + " " + t) == w
  {
    var s := w + " " + t;
    var h := Head(s);
    if |h| < |w| {
      JoinAt(w, t, |h|);
    } else if |h| > |w| {
      JoinAt(w, t, |w|);
      PrefixAt(s, |h|, |w|);
    } else {
      assert s[..|w|] == w;
    }
  }

  lemma JoinAt(w: string, t: string, k: int)
    ensures 0 <= k < |w| ==> (w + " " + t)[k] == w[k]
    ensures k == |w| ==> (w + " " + t)[k] == ' '
  {
  }

  lemma PrefixAt(s: string, n: int, k: int)
    ensures 0 <= k < n <= |s| ==> s[..n][k] == s[k]
  {
  }

  /** The text of an integer holds no space. */
  lemma NoSpace(n: int)
    ensures ' ' !in ShowInt(n)
  {
    var d := Show(if n < 0 then -n else n);
    assert forall k :: 0 <= k < |d| ==> IsDigit(d[k]);
    if n < 0 {
      assert ShowInt(n) == "-" + d;
      assert forall k :: 1 <= k < |ShowInt(n)| ==> ShowInt(n)[k] == d[k - 1];
    }
  }

  /** Reading an instruction's line gives the instruction back. */
  lemma FromRender(i: Instruction)
    requires IsI32(i.n)
    ensures FromString(Render(i)) == Some(i)
  {
    var s := Render(i);
    var w := Keyword(i);
    HeadOfJoin(w, ShowInt(i.n));
    assert s[|w| + 1..] == ShowInt(i.n);
    NoSpace(i.n);
    assert Head(ShowInt(i.n)) == ShowInt(i.n);
    ParseShowInt(i.n);
  }

  /** The amounts of the instructions of one kind, summed. */
  function UpSum(ins: seq<Instruction>): int
  {
    if |ins| == 0 then 0
    else UpSum(ins[..|ins| - 1]) + (if ins[|ins| - 1].Up? then ins[|ins| - 1].n else 0)
  }

  function DownSum(ins: seq<Instruction>): int
  {
    if |ins| == 0 then 0
    else DownSum(ins[..|ins| - 1]) + (if ins[|ins| - 1].Down? then ins[|ins| - 1].n else 0)
  }

  function ForwardSum(ins: seq<Instruction>): int
  {
    if |ins| == 0 then 0
    else ForwardSum(ins[..|ins| - 1]) + (if ins[|ins| - 1].Forward? then ins[|ins| - 1].n else 0)
  }

  /** The aim after the instructions: down moves minus up moves. */
  function Aim(ins: seq<Instruction>): int
  {
    DownSum(ins) - UpSum(ins)
  }

  /** The depth part two reaches: each forward move dives by the aim that
      the instructions before it built up, times its distance. */
  function AimedDepth(ins: seq<Instruction>): int
  {
    if |ins| == 0 then 0
    else
      var front := ins[..|ins| - 1];
      AimedDepth(front) + (if ins[|ins| - 1].Forward? then Aim(front) * ins[|ins| - 1].n else 0)
  }

  /** `part_one`: (depth, position), with depth the down moves minus the up
      moves and position the forward moves. */
  method PartOne(ins: seq<Instruction>) returns (depth: int, position: int)
    ensures depth == DownSum(ins) - UpSum(ins)
    ensures position == ForwardSum(ins)
  {
    depth := 0;
    position := 0;
    var k := 0;
    while k < |ins|
      invariant k <= |ins|
      invariant depth == DownSum(ins[..k]) - UpSum(ins[..k])
      invariant position == ForwardSum(ins[..k])
      decreases |ins| - k
    {
      assert ins[..k + 1][..k] == ins[..k];
      match ins[k] {
        case Up(x) => depth := depth - x;
        case Down(x) => depth := depth + x;
        case Forward(x) => position := position + x;
      }
      k := k + 1;
    }
    assert ins[..k] == ins;
  }

  /** `part_two`: (depth, position) steering by aim; the position is part
      one's, and the aim it ends with is part one's depth. */
  method PartTwo(ins: seq<Instruction>) returns (depth: int, position: int, aim: int)
    ensures depth == AimedDepth(ins)
    ensures position == ForwardSum(ins)
    ensures aim == DownSum(ins) - UpSum(ins)
  {
    depth := 0;
    position := 0;
    aim := 0;
    var k := 0;
    while k < |ins|
      invariant k <= |ins|
      invariant depth == AimedDepth(ins[..k])
      invariant position == ForwardSum(ins[..k])
      invariant aim == Aim(ins[..k])
      decreases |ins| - k
    {
      assert ins[..k + 1][..k] == ins[..k];
      match ins[k] {
        case Up(x) => aim := aim - x;
        case Down(x) => aim := aim + x;
        case Forward(x) =>
          position := position + x;
          depth := depth + aim * x;
      }
      k := k + 1;
    }
    assert ins[..k] == ins;
  }

  /** The example course: forward 5, down 5, forward 8, up 3, down 8,
      forward 2 ends at depth 10 and position 15 in part one, and at depth
      60 in part two. */
  lemma Example()
    ensures var ins := [Forward(5), Down(5), Forward(8), Up(3), Down(8), Forward(2)];
      DownSum(ins) - UpSum(ins) == 10 && ForwardSum(ins) == 15 && AimedDepth(ins) == 60
  {
    var ins := [Forward(5), Down(5), Forward(8), Up(3), Down(8), Forward(2)];
    ExampleStep(ins[..0], ins[0], 0, 0, 0, 0);
    assert ins[..1] == ins[..0] + [ins[0]];
    ExampleStep(ins[..1], ins[1], 0, 0, 5, 0);
    assert ins[..2] == ins[..1] + [ins[1]];
    ExampleStep(ins[..2], ins[2], 5, 0, 5, 0);
    assert ins[..3] == ins[..2] + [ins[2]];
    ExampleStep(ins[..3], ins[3], 5, 0, 13, 40);
    assert ins[..4] == ins[..3] + [ins[3]];
    ExampleStep(ins[..4], ins[4], 5, 3, 13, 40);
    assert ins[..5] == ins[..4] + [ins[4]];
    ExampleStep(ins[..5], ins[5], 13, 3, 13, 40);
    assert ins == ins[..5] + [ins[5]];
  }

  /** The sums after one more instruction. */
  lemma ExampleStep(front: seq<Instruction>, i: Instruction, down: int, up: int, forward: int, aimed: int)
    requires DownSum(front) == down && UpSum(front) == up && ForwardSum(front) == forward && AimedDepth(front) == aimed
    ensures DownSum(front + [i]) == down + (if i.Down? then i.n else 0)
    ensures UpSum(front + [i]) == up + (if i.Up? then i.n else 0)
    ensures ForwardSum(front + [i]) == forward + (if i.Forward? then i.n else 0)
    ensures AimedDepth(front + [i]) == aimed + (if i.Forward? then (down - up) * i.n else 0)
  {
    assert (front + [i])[..|front|] == front;
  }
}
