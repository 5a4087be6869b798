/** Day 10: the navigation-subsystem syntax checker. Every line is scanned
    with a stack of opening delimiters; a closer that does not match the
    opener on top makes the line corrupted, and what is left on the stack at
    the end is what an incomplete line still needs. */
module Syntax {
  import opened Common

  datatype Brace = Triangle | Round | Square | Curly

  datatype Delimiter = Open(brace: Brace) | Close(brace: Brace)

  function OpenChar(b: Brace): char
  {
    match b
    case Triangle => '<'
    case Round => '('
    case Square => '['
    case Curly => '{'
  }

  function CloseChar(b: Brace): char
  {
    match b
    case Triangle => '>'
    case Round => ')'
    case Square => ']'
    case Curly => '}'
  }

  /** Brace::from_char: an opener and its closer name the same brace; any other
      character is an error. */
  function BraceFromChar(c: char): (r: Option<Brace>)
    ensures forall b :: r == Some(b) <==> c == OpenChar(b) || c == CloseChar(b)
  {
    match c
    case '<' | '>' => Some(Triangle)
    case '(' | ')' => Some(Round)
    case '[' | ']' => Some(Square)
    case '{' | '}' => Some(Curly)
    case _ => None
  }

  /** Delimiter::from_char: classifies a character as an opener or a closer of
      its brace; any other character is an error. */
  function DelimiterFromChar(c: char): (r: Option<Delimiter>)
    ensures forall b :: r == Some(Open(b)) <==> c == OpenChar(b)
    ensures forall b :: r == Some(Close(b)) <==> c == CloseChar(b)
    ensures r.None? <==> BraceFromChar(c).None?
  {
    match c
    case '<' | '(' | '[' | '{' =>
      (match BraceFromChar(c) case Some(b) => Some(Open(b)) case None => None)
    case '>' | ')' | ']' | '}' =>
      (match BraceFromChar(c) case Some(b) => Some(Close(b)) case None => None)
    case _ => None
  }

  /** Brace::get_score: the syntax-error score of an illegal closer. */
  function ErrorScore(b: Brace): nat
  {
    match b
    case Round => 3
    case Square => 57
    case Curly => 1197
    case Triangle => 25137
  }

  /** Brace::get_score_two: the completion value of a missing closer. */
  function CompletionValue(b: Brace): nat
  {
    match b
    case Round => 1
    case Square => 2
    case Curly => 3
    case Triangle => 4
  }

  predicate AllOpen(stack: seq<Delimiter>)
  {
    forall i :: 0 <= i < |stack| ==> stack[i].Open?
  }

  predicate ValidLine(line: string)
  {
    forall i :: 0 <= i < |line| ==> DelimiterFromChar(line[i]).Some?
  }

  /** How the scan of a line ends. ClosedOnStack stands for the panic on a
      closer found on the stack, which the scan never reaches. */
  datatype ScanOutcome =
    | Corrupted(found: Brace)
    | Unopened
    | Pending(stack: seq<Delimiter>)
    | Invalid(c: char)
    | ClosedOnStack

  /** The per-line loop shared by part_one and part_two, from a given stack. */
  function Scan(line: string, stack: seq<Delimiter>): (r: ScanOutcome)
    requires AllOpen(stack)
    ensures !r.ClosedOnStack?
    ensures r.Pending? ==> AllOpen(r.stack)
    ensures ValidLine(line) ==> !r.Invalid?
  {
    if |line| == 0 then Pending(stack)
    else
      match DelimiterFromChar(line[0])
      case None => Invalid(line[0])
      case Some(d) =>
        match d
        case Open(_) =>
          ValidLineTail(line);
          Scan(line[1..], stack + [d])
        case Close(c) =>
          if |stack| == 0 then Unopened
          else
            match stack[|stack| - 1]
            case Open(p) =>
              if p == c then
                ValidLineTail(line);
                Scan(line[1..], stack[..|stack| - 1])
              else Corrupted(c)
            case Close(_) => assert false; ClosedOnStack
  }

  lemma ValidLineTail(line: string)
    requires |line| > 0
    ensures ValidLine(line) <==> DelimiterFromChar(line[0]).Some? && ValidLine(line[1..])
  {
    if DelimiterFromChar(line[0]).Some? && ValidLine(line[1..]) {
      forall i | 0 <= i < |line|
        ensures DelimiterFromChar(line[i]).Some?
      {
        if i > 0 {
          assert line[i] == line[1..][i - 1];
        }
      }
    }
  }

  /** Scanning a concatenation scans the first part and, if that part leaves
      the line open, continues on the second part from the stack it left. */
  lemma {:induction false} ScanAppend(a: string, b: string, stack: seq<Delimiter>)
    requires AllOpen(stack)
    ensures Scan(a + b, stack) ==
      match Scan(a, stack)
      case Pending(rest) => Scan(b, rest)
      case other => other
    decreases |a|
  {
    if |a| > 0 {
      assert (a + b)[0] == a[0];
      assert (a + b)[1..] == a[1..] + b;
      match DelimiterFromChar(a[0])
      case None =>
      case Some(d) =>
        match d
        case Open(_) =>
          ScanAppend(a[1..], b, stack + [d]);
        case Close(c) =>
          if |stack| > 0 && stack[|stack| - 1].brace == c {
            ScanAppend(a[1..], b, stack[..|stack| - 1]);
          }
    } else {
      assert a + b == b;
    }
  }

  /** The scan stops at position k because the closer there does not match
      the opener on top of the stack left by the prefix before it. */
  predicate MismatchAt(line: string, stack: seq<Delimiter>, k: nat, b: Brace)
    requires AllOpen(stack)
    requires k < |line|
  {
    && line[k] == CloseChar(b)
    && var before := Scan(line[..k], stack);
    && before.Pending?
    && |before.stack| > 0
    && before.stack[|before.stack| - 1].brace != b
  }

  /** A line is corrupted by brace b exactly when some closer of b meets a
      different opener on top of the stack, every character before it having
      been accepted. */
  lemma {:induction false} CorruptedIff(line: string, stack: seq<Delimiter>, b: Brace)
    requires AllOpen(stack)
    ensures Scan(line, stack) == Corrupted(b) <==>
      exists k :: 0 <= k < |line| && MismatchAt(line, stack, k, b)
    decreases |line|
  {
    if Scan(line, stack) == Corrupted(b) {
      CorruptedWitness(line, stack, b);
    }
    if k :| 0 <= k < |line| && MismatchAt(line, stack, k, b) {
      assert line == line[..k] + line[k..];
      ScanAppend(line[..k], line[k..], stack);
      assert line[k..][0] == line[k];
      assert DelimiterFromChar(line[k]) == Some(Close(b));
    }
  }

  lemma {:induction false} CorruptedWitness(line: string, stack: seq<Delimiter>, b: Brace)
    requires AllOpen(stack)
    requires Scan(line, stack) == Corrupted(b)
    ensures exists k :: 0 <= k < |line| && MismatchAt(line, stack, k, b)
    decreases |line|
  {
    assert |line| > 0;
    assert line[..0] == [];
    match DelimiterFromChar(line[0])
    case Some(d) =>
      match d
      case Open(_) =>
        CorruptedWitness(line[1..], stack + [d], b);
        var k :| 0 <= k < |line[1..]| && MismatchAt(line[1..], stack + [d], k, b);
        ShiftPrefix(line, stack, d, k);
        MismatchShift(line, stack, stack + [d], k, b);
      case Close(c) =>
        if stack[|stack| - 1].brace == c {
          CorruptedWitness(line[1..], stack[..|stack| - 1], b);
          var k :| 0 <= k < |line[1..]| && MismatchAt(line[1..], stack[..|stack| - 1], k, b);
          ShiftPrefix(line, stack, d, k);
          MismatchShift(line, stack, stack[..|stack| - 1], k, b);
        } else {
          assert MismatchAt(line, stack, 0, b);
        }
  }

  /** A mismatch at k after the first character, scanned from the stack
      that character leaves, is a mismatch at k + 1 of the whole line. */
  lemma MismatchShift(line: string, stack: seq<Delimiter>, after: seq<Delimiter>, k: nat, b: Brace)
    requires AllOpen(stack) && AllOpen(after)
    requires k + 1 < |line|
    requires Scan(line[..k + 1], stack) == Scan(line[1..][..k], after)
    requires MismatchAt(line[1..], after, k, b)
    ensures MismatchAt(line, stack, k + 1, b)
  {
    assert line[1..][k] == line[k + 1];
  }

  /** Scanning a prefix of length k + 1 is scanning its first character and
      then the next k characters. */
  lemma ShiftPrefix(line: string, stack: seq<Delimiter>, d: Delimiter, k: nat)
    requires AllOpen(stack)
    requires k + 1 <= |line|
    requires DelimiterFromChar(line[0]) == Some(d)
    requires d.Close? ==> |stack| > 0 && stack[|stack| - 1].brace == d.brace
    ensures d.Open? ==> Scan(line[..k + 1], stack) == Scan(line[1..][..k], stack + [d])
    ensures d.Close? ==> Scan(line[..k + 1], stack) == Scan(line[1..][..k], stack[..|stack| - 1])
  {
    assert line[..k + 1][0] == line[0];
    assert line[..k + 1][1..] == line[1..][..k];
  }

  /** A well-formed chunk: an opener, the chunks nested inside, the matching
      closer. */
  datatype Chunk = Chunk(brace: Brace, inner: seq<Chunk>)

  /** The text of a sequence of chunks written one after the other. */
  function Render(chunks: seq<Chunk>): string
    decreases chunks
  {
    if |chunks| == 0 then []
    else
      [OpenChar(chunks[0].brace)] + Render(chunks[0].inner)
      + [CloseChar(chunks[0].brace)] + Render(chunks[1..])
  }

  /** Reading well-formed chunks leaves the stack as it was. */
  lemma {:induction false} ScanRender(chunks: seq<Chunk>, rest: string, stack: seq<Delimiter>)
    requires AllOpen(stack)
    ensures Scan(Render(chunks) + rest, stack) == Scan(rest, stack)
    decreases chunks
  {
    if |chunks| > 0 {
      var c := chunks[0];
      var tail := [CloseChar(c.brace)] + (Render(chunks[1..]) + rest);
      assert Render(chunks) + rest == [OpenChar(c.brace)] + (Render(c.inner) + tail);
      var pushed := stack + [Open(c.brace)];
      ScanRender(c.inner, tail, pushed);
      assert pushed[..|pushed| - 1] == stack;
      ScanRender(chunks[1..], rest, stack);
    } else {
      assert Render(chunks) + rest == rest;
    }
  }

  /** The closers an open stack still needs, innermost (top of stack) first. */
  function Completion(stack: seq<Delimiter>): (r: string)
    ensures |r| == |stack|
  {
    if |stack| == 0 then []
    else [CloseChar(stack[|stack| - 1].brace)] + Completion(stack[..|stack| - 1])
  }

  lemma {:induction false} ScanCompletion(stack: seq<Delimiter>)
    requires AllOpen(stack)
    ensures Scan(Completion(stack), stack) == Pending([])
    decreases |stack|
  {
    if |stack| > 0 {
      var top := stack[|stack| - 1];
      assert DelimiterFromChar(CloseChar(top.brace)) == Some(Close(top.brace));
      assert Completion(stack)[1..] == Completion(stack[..|stack| - 1]);
      ScanCompletion(stack[..|stack| - 1]);
    }
  }

  /** Appending the completion of an incomplete line closes every open chunk. */
  lemma CompletionCloses(line: string)
    requires Scan(line, []).Pending?
    ensures Scan(line + Completion(Scan(line, []).stack), []) == Pending([])
  {
    var stack := Scan(line, []).stack;
    ScanAppend(line, Completion(stack), []);
    ScanCompletion(stack);
  }

  /** The per-line closure of part_two: the completion score folds the stack
      from its top down, multiplying by 5 and adding the value of each
      opener's brace; the bottom of the stack is added last. */
  function CompletionScore(stack: seq<Delimiter>): nat
  {
    if |stack| == 0 then 0
    else CompletionScore(stack[1..]) * 5 + CompletionValue(stack[0].brace)
  }

  /** The completion score read as the score of the completion string, one
      closer at a time from the left. */
  function ClosersScore(closers: string): nat
  {
    if |closers| == 0 then 0
    else
      var v := match BraceFromChar(closers[|closers| - 1])
        case Some(b) => CompletionValue(b)
        case None => 0;
      ClosersScore(closers[..|closers| - 1]) * 5 + v
  }

  lemma {:induction false} CompletionScoreIsClosersScore(stack: seq<Delimiter>)
    ensures CompletionScore(stack) == ClosersScore(Completion(stack))
    decreases |stack|
  {
    if |stack| > 0 {
      var c := Completion(stack);
      CompletionSplit(stack);
      CompletionScoreIsClosersScore(stack[1..]);
      assert c[..|c| - 1] == Completion(stack[1..]);
      assert c[|c| - 1] == CloseChar(stack[0].brace);
    }
  }

  /** The completion ends with the closer of the bottom of the stack. */
  lemma {:induction false} CompletionSplit(stack: seq<Delimiter>)
    requires |stack| > 0
    ensures Completion(stack) == Completion(stack[1..]) + [CloseChar(stack[0].brace)]
    decreases |stack|
  {
    if |stack| > 1 {
      CompletionSplit(stack[..|stack| - 1]);
      assert stack[..|stack| - 1][1..] == stack[1..][..|stack[1..]| - 1];
    }
  }

  /** The completion score is a bijective base-5 numeral: it determines the
      stack it was computed from, and it is positive exactly when something
      is left open. */
  lemma {:induction false} CompletionScoreInjective(s: seq<Delimiter>, t: seq<Delimiter>)
    requires AllOpen(s) && AllOpen(t)
    ensures CompletionScore(s) == CompletionScore(t) <==> s == t
    ensures CompletionScore(s) == 0 <==> |s| == 0
    decreases |s|
  {
    if |s| > 0 && |t| > 0 && CompletionScore(s) == CompletionScore(t) {
      var vs := CompletionValue(s[0].brace);
      var vt := CompletionValue(t[0].brace);
      assert CompletionScore(s) % 5 == vs % 5;
      assert CompletionScore(t) % 5 == vt % 5;
      assert s[0] == t[0];
      CompletionScoreInjective(s[1..], t[1..]);
      assert s == [s[0]] + s[1..];
      assert t == [t[0]] + t[1..];
    }
  }

  /** Some line reaches a character that is no delimiter, where the
      `unwrap` on `Delimiter::from_char` panics. */
  predicate SomeInvalid(lines: seq<string>)
  {
    exists i :: 0 <= i < |lines| && Scan(lines[i], []).Invalid?
  }

  /** The per-line closure of part_one: the error score of a corrupted line;
      a line that closes an empty stack, or that is merely incomplete or
      balanced, yields nothing. */
  function LineErrorScore(line: string): (r: Option<nat>)
    ensures r.Some? <==> Scan(line, []).Corrupted?
    ensures r.Some? ==> r.value in {3, 57, 1197, 25137}
  {
    match Scan(line, [])
    case Corrupted(b) => Some(ErrorScore(b))
    case _ => None
  }

  /** The per-line closure of part_two: the completion score of a line that
      is incomplete or balanced; a corrupted line and a line that closes an
      empty stack yield nothing. */
  function LineCompletionScore(line: string): (r: Option<nat>)
    ensures r.Some? <==> Scan(line, []).Pending?
  {
    match Scan(line, [])
    case Pending(stack) => Some(CompletionScore(stack))
    case _ => None
  }

  /** A line made of well-formed chunks scores nothing in part_one and a
      completion score of 0 in part_two. */
  lemma BalancedLineScores(chunks: seq<Chunk>)
    requires ValidLine(Render(chunks))
    ensures LineErrorScore(Render(chunks)) == None
    ensures LineCompletionScore(Render(chunks)) == Some(0)
  {
    ScanRender(chunks, [], []);
    assert Render(chunks) + [] == Render(chunks);
  }

  /** The sum of the error scores of the corrupted lines. */
  function ErrorTotal(lines: seq<string>): (r: nat)
    ensures r == 0 <==> forall i :: 0 <= i < |lines| ==> !Scan(lines[i], []).Corrupted?
  {
    if |lines| == 0 then 0
    else
      var last := lines[|lines| - 1];
      var s := match LineErrorScore(last) case Some(v) => v case None => 0;
      ErrorTotal(lines[..|lines| - 1]) + s
  }

  /** part_one: the total error score of the corrupted lines; a line that
      reaches a character that is no delimiter panics (None). */
  function PartOne(lines: seq<string>): (r: Option<nat>)
    ensures r.None? <==> SomeInvalid(lines)
    ensures r.Some? ==> (r.value == 0 <==> forall i :: 0 <= i < |lines| ==> !Scan(lines[i], []).Corrupted?)
  {
    if SomeInvalid(lines) then None else Some(ErrorTotal(lines))
  }

  /** The completion scores of the lines that are not rejected, in order. */
  function CompletionScores(lines: seq<string>): (r: seq<int>)
    ensures |r| == 0 <==> forall i :: 0 <= i < |lines| ==> !Scan(lines[i], []).Pending?
  {
    if |lines| == 0 then []
    else
      var last := lines[|lines| - 1];
      var rest := CompletionScores(lines[..|lines| - 1]);
      match LineCompletionScore(last)
      case Some(v) => rest + [v]
      case None => rest
  }

  /** part_two: the middle completion score, the element at index len/2 of
      the sorted scores.  A line with a character that is no delimiter
      panics, and with no incomplete line the index is out of range (None). */
  function PartTwo(lines: seq<string>): (r: Option<int>)
    ensures r.None? <==> SomeInvalid(lines) || forall i :: 0 <= i < |lines| ==> !Scan(lines[i], []).Pending?
    ensures r.Some? ==>
      var scores := CompletionScores(lines);
      && r.value in multiset(scores)
      && CountBelow(scores, r.value) <= |scores| / 2
      && CountAbove(scores, r.value) <= |scores| - |scores| / 2 - 1
  {
    var scores := CompletionScores(lines);
    if SomeInvalid(lines) || |scores| == 0 then None
    else
      OrderStatistic(scores, |scores| / 2);
      Some(Sort(scores)[|scores| / 2])
  }
}
