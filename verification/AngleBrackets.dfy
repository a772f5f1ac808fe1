/** Angle brackets: what they do to the bracket matchers, and what the matchers do with template lists. */
module AngleBrackets {
  import opened BracketLines
  import opened BracketWords
  import opened Brackets
  import opened Characters

  predicate IsAngle(c: char) { c == '<' || c == '>' }

  // ---- round, square and curly brackets ----

  /** The text with a space for every angle bracket. */
  function Blank(t: string): (b: string)
    ensures |b| == |t|
    ensures forall k :: 0 <= k < |t| ==> b[k] == if IsAngle(t[k]) then ' ' else t[k]
  {
    seq(|t|, k requires 0 <= k < |t| => if IsAngle(t[k]) then ' ' else t[k])
  }

  function BlankLines(lines: seq<string>): (b: seq<string>)
    ensures |b| == |lines|
    ensures forall k :: 0 <= k < |lines| ==> b[k] == Blank(lines[k])
  {
    seq(|lines|, k requires 0 <= k < |lines| => Blank(lines[k]))
  }

  /** The stack without its angle brackets. */
  function Round(stack: seq<char>): seq<char> {
    if stack == [] then []
    else if IsAngle(Last(stack)) then Round(Init(stack))
    else Round(Init(stack)) + [Last(stack)]
  }

  /** At the bottom is no angle bracket, and above it only those that a search in this direction puts there. */
  predicate Grounded(stack: seq<char>, angle: char) {
    && |stack| > 0 && !IsAngle(stack[0]) && IsAngle(angle)
    && forall k :: 0 <= k < |stack| && IsAngle(stack[k]) ==> stack[k] == angle
  }

  lemma RoundPush(stack: seq<char>, c: char)
    ensures Round(stack + [c]) == if IsAngle(c) then Round(stack) else Round(stack) + [c]
  {
    assert Last(stack + [c]) == c && Init(stack + [c]) == stack;
  }

  lemma RoundOne(c: char, angle: char)
    requires !IsAngle(c) && IsAngle(angle)
    ensures Round([c]) == [c] && Grounded([c], angle)
  {
    assert [] + [c] == [c];
    RoundPush([], c);
    assert Round([]) == [];
  }

  lemma RoundPop(stack: seq<char>)
    requires |stack| > 0
    ensures Round(stack) == if IsAngle(Last(stack)) then Round(Init(stack)) else Round(Init(stack)) + [Last(stack)]
  {}

  lemma {:induction false} RoundIs(stack: seq<char>, angle: char)
    requires Grounded(stack, angle)
    ensures NoAngles(Round(stack)) && 0 < |Round(stack)| <= |stack| && (|stack| == 1 ==> Round(stack) == stack)
    ensures |stack| > 1 && !IsAngle(Last(stack)) ==> |Round(stack)| > 1
  {
    RoundPop(stack);
    if |stack| > 1 {
      assert Grounded(Init(stack), angle);
      RoundIs(Init(stack), angle);
    } else {
      assert Round(Init(stack)) == [];
    }
  }

  /** Dropping the pending angle brackets shows the top of the stack without any. */
  lemma {:induction false} DropRound(stack: seq<char>, angle: char)
    requires Grounded(stack, angle)
    ensures Grounded(Drop(stack, angle), angle) && !IsAngle(Last(Drop(stack, angle)))
    ensures Round(Drop(stack, angle)) == Round(stack)
  {
    if Last(stack) == angle {
      assert Grounded(Init(stack), angle);
      RoundPop(stack);
      DropRound(Init(stack), angle);
    }
  }

  lemma DropNone(stack: seq<char>, angle: char)
    requires NoAngles(stack) && IsAngle(angle)
    ensures Drop(stack, angle) == stack
  {}

  /** r' is what r is when angle brackets do not count. */
  predicate SameScan(r: Scan, r': Scan, angle: char) {
    match r
    case Open(s) => Grounded(s, angle) && r' == Open(Round(s))
    case _ => r' == r
  }

  /** A stack with a bracket more. */
  lemma Pushed(stack: seq<char>, angle: char, c: char)
    requires Grounded(stack, angle) && (IsAngle(c) ==> c == angle)
    ensures SameScan(Open(stack + [c]), Open(if IsAngle(c) then Round(stack) else Round(stack) + [c]), angle)
  {
    RoundPush(stack, c);
  }

  /** A stack without the angle bracket on its top. */
  lemma Unpushed(stack: seq<char>, angle: char)
    requires Grounded(stack, angle) && Last(stack) == angle
    ensures |stack| > 1 && SameScan(Open(Init(stack)), Open(Round(stack)), angle)
  {
    RoundPop(stack);
  }

  lemma PoppedTop(s: seq<char>, angle: char, pos: nat)
    requires Grounded(s, angle) && !IsAngle(Last(s))
    ensures |Round(s)| > 0 && Last(s) == Last(Round(s)) && SameScan(Pop(s, pos), Pop(Round(s), pos), angle)
  {
    RoundIs(s, angle);
    RoundPop(s);
    assert Init(Round(Init(s)) + [Last(s)]) == Round(Init(s));
    if |s| > 1 { assert Grounded(Init(s), angle); }
  }

  /** A bracket that ends a group meets the top of the stack, or what is the top without angle brackets. */
  lemma Popped(stack: seq<char>, angle: char, pos: nat) returns (s: seq<char>)
    requires Grounded(stack, angle)
    ensures s == Drop(stack, angle) && |s| > 0 && |Round(stack)| > 0 && Last(s) == Last(Round(stack))
    ensures SameScan(Pop(s, pos), Pop(Round(stack), pos), angle)
  {
    s := Drop(stack, angle);
    DropRound(stack, angle);
    PoppedTop(s, angle, pos);
  }

  /** What a step does with a character of blanked text over a stack without angle brackets. */
  function BlankStep(c: char, r: seq<char>, pos: nat): Scan
    requires |r| > 0
  {
    if IsOpen(c) then Open(r + [c])
    else if IsClose(c) then if Pairs(Last(r), c) then Pop(r, pos) else Failed
    else Open(r)
  }

  lemma BlankForward(line: string, i: nat, r: seq<char>)
    requires i < |line| && |r| > 0 && NoAngles(r)
    ensures StepForward(Blank(line), i, r) == BlankStep(line[i], r, i + 1)
  {
    DropNone(r, '<');
  }

  lemma AngleForward(line: string, i: nat, stack: seq<char>)
    requires i < |line| && IsAngle(line[i]) && Grounded(stack, '<')
    ensures SameScan(StepForward(line, i, stack), Open(Round(stack)), '<')
  {
    Pushed(stack, '<', '<');
    if Last(stack) == '<' { Unpushed(stack, '<'); }
  }

  lemma CloseStep(line: string, i: nat, stack: seq<char>, s: seq<char>)
    requires i < |line| && IsClose(line[i]) && s == Drop(stack, '<') && |s| > 0
    ensures StepForward(line, i, stack) == if Pairs(Last(s), line[i]) then Pop(s, i + 1) else Failed
  {}

  lemma CloseForward(line: string, i: nat, stack: seq<char>)
    requires i < |line| && IsClose(line[i]) && Grounded(stack, '<') && |Round(stack)| > 0
    ensures SameScan(StepForward(line, i, stack), BlankStep(line[i], Round(stack), i + 1), '<')
  {
    var s := Popped(stack, '<', i + 1);
    CloseStep(line, i, stack, s);
  }

  lemma OtherForward(line: string, i: nat, stack: seq<char>)
    requires i < |line| && !IsClose(line[i]) && !IsAngle(line[i]) && Grounded(stack, '<') && |Round(stack)| > 0
    ensures SameScan(StepForward(line, i, stack), BlankStep(line[i], Round(stack), i + 1), '<')
  {
    Pushed(stack, '<', line[i]);
    DropRound(stack, '<');
  }

  lemma StepForwardBlank(line: string, i: nat, stack: seq<char>)
    requires i < |line| && Grounded(stack, '<')
    ensures SameScan(StepForward(line, i, stack), StepForward(Blank(line), i, Round(stack)), '<')
  {
    RoundIs(stack, '<');
    BlankForward(line, i, Round(stack));
    if IsAngle(line[i]) { AngleForward(line, i, stack); }
    else if IsClose(line[i]) { CloseForward(line, i, stack); }
    else { OtherForward(line, i, stack); }
  }

  lemma {:induction false} ForwardBlank(line: string, i: nat, stack: seq<char>)
    requires i <= |line| && Grounded(stack, '<')
    ensures SameScan(Forward(line, i, stack), Forward(Blank(line), i, Round(stack)), '<')
    decreases |line| - i
  {
    if i < |line| {
      StepForwardBlank(line, i, stack);
      var r := StepForward(line, i, stack);
      if r.Open? { ForwardBlank(line, i + 1, r.stack); }
    }
  }

  lemma {:induction false} CloseLinesBlank(lines: seq<string>, n: nat, i: nat, stack: seq<char>)
    requires n < |lines| && i <= |lines[n]| && Grounded(stack, '<')
    ensures CloseLines(lines, n, i, stack) == CloseLines(BlankLines(lines), n, i, Round(stack))
    decreases |lines| - n
  {
    ForwardBlank(lines[n], i, stack);
    var r := Forward(lines[n], i, stack);
    if r.Open? {
      RoundIs(r.stack, '<');
      if n + 1 < |lines| { CloseLinesBlank(lines, n + 1, 0, r.stack); }
    }
  }

  lemma CloseBlank(lines: seq<string>, n: nat, p: nat)
    requires n < |lines| && p < |lines[n]| && IsOpen(lines[n][p])
    ensures Close(lines, n, p) == Close(BlankLines(lines), n, p)
  {
    var b, c := BlankLines(lines), lines[n][p];
    CloseIsSearch(lines, n, p);
    CloseIsSearch(b, n, p);
    assert b[n] == Blank(lines[n]) && b[n][p] == c;
    FirstForward(lines, n, p);
    FirstForward(b, n, p);
    RoundOne(c, '<');
    CloseLinesBlank(lines, n, p + 1, [c]);
  }

  /** The opening bracket itself is the first on the stack. */
  lemma FirstForward(lines: seq<string>, n: nat, p: nat)
    requires n < |lines| && p < |lines[n]| && IsOpen(lines[n][p])
    ensures CloseLines(lines, n, p, []) == CloseLines(lines, n, p + 1, [lines[n][p]])
  {
    assert [] + [lines[n][p]] == [lines[n][p]];
    assert Forward(lines[n], p, []) == Forward(lines[n], p + 1, [lines[n][p]]);
  }

  // ---- the same backward ----

  function BlankStepBack(c: char, r: seq<char>, pos: nat): Scan
    requires |r| > 0
  {
    if IsClose(c) then Open(r + [c])
    else if IsOpen(c) then if Pairs(c, Last(r)) then Pop(r, pos) else Failed
    else Open(r)
  }

  lemma BlankBackward(line: string, i: nat, r: seq<char>)
    requires i < |line| && |r| > 0 && NoAngles(r)
    ensures StepBackward(Blank(line), i, r) == (BlankStepBack(line[i], r, i), i - 1)
  {
    DropNone(r, '>');
  }

  /** The word operator and white space end in a character that is no bracket. */
  lemma OperatorEnd(s: string)
    requires EndsInOperator(s)
    ensures |s| > 0 && (IsSpace(Last(s)) || Last(s) == 'r')
  {
    if |s| > 0 && !IsSpace(Last(s)) { assert StripEnd(s) == s && s[|s| - 8..][7] == Last(s); }
  }

  lemma AngleBackward(line: string, i: nat, stack: seq<char>)
    requires i < |line| && IsAngle(line[i]) && Grounded(stack, '>')
    ensures SameScan(StepBackward(line, i, stack).0, Open(Round(stack)), '>')
    ensures StepBackward(line, i, stack).1 == i - 1 || (i > 0 && StepBackward(line, i, stack) == (Open(stack), i - 2))
  {
    Pushed(stack, '>', '>');
    if Last(stack) == '>' { Unpushed(stack, '>'); }
  }

  /** A character that an angle bracket makes the search skip is none that matters. */
  lemma SkippedBackward(line: string, i: nat, stack: seq<char>)
    requires 0 < i < |line| && IsAngle(line[i]) && StepBackward(line, i, stack).1 == i - 2
    ensures !IsOpen(line[i - 1]) && !IsClose(line[i - 1])
  {
    if EndsInOperator(line[..i]) {
      OperatorEnd(line[..i]);
      assert Last(line[..i]) == line[i - 1];
    }
  }

  lemma OpenStep(line: string, i: nat, stack: seq<char>, s: seq<char>)
    requires i < |line| && IsOpen(line[i]) && s == Drop(stack, '>') && |s| > 0
    ensures StepBackward(line, i, stack) == (if Pairs(line[i], Last(s)) then Pop(s, i) else Failed, i - 1)
  {}

  lemma OpenBackward(line: string, i: nat, stack: seq<char>)
    requires i < |line| && IsOpen(line[i]) && Grounded(stack, '>') && |Round(stack)| > 0
    ensures SameScan(StepBackward(line, i, stack).0, BlankStepBack(line[i], Round(stack), i), '>')
    ensures StepBackward(line, i, stack).1 == i - 1
  {
    var s := Popped(stack, '>', i);
    OpenStep(line, i, stack, s);
  }

  lemma OtherBackward(line: string, i: nat, stack: seq<char>)
    requires i < |line| && !IsOpen(line[i]) && !IsAngle(line[i]) && Grounded(stack, '>') && |Round(stack)| > 0
    ensures SameScan(StepBackward(line, i, stack).0, BlankStepBack(line[i], Round(stack), i), '>')
    ensures StepBackward(line, i, stack).1 == i - 1
  {
    Pushed(stack, '>', line[i]);
    DropRound(stack, '>');
  }

  lemma StepBackwardBlank(line: string, i: nat, stack: seq<char>)
    requires i < |line| && Grounded(stack, '>') && |Round(stack)| > 0 && StepBackward(line, i, stack).1 == i - 1
    ensures SameScan(StepBackward(line, i, stack).0, BlankStepBack(line[i], Round(stack), i), '>')
  {
    if IsAngle(line[i]) { AngleBackward(line, i, stack); }
    else if IsOpen(line[i]) { OpenBackward(line, i, stack); }
    else { OtherBackward(line, i, stack); }
  }

  lemma StepsBack(line: string, i: nat, stack: seq<char>)
    requires i < |line| && Grounded(stack, '>') && |Round(stack)| > 0
    ensures StepBackward(line, i, stack).1 == i - 1 ||
            (i > 0 && IsAngle(line[i]) && StepBackward(line, i, stack) == (Open(stack), i - 2))
  {
    if IsAngle(line[i]) { AngleBackward(line, i, stack); }
    else if IsOpen(line[i]) { OpenBackward(line, i, stack); }
    else { OtherBackward(line, i, stack); }
  }

  /** Two blanks, or a blank and a character that is no bracket, leave the stack alone. */
  lemma BlanksBackward(line: string, i: nat, r: seq<char>)
    requires 0 < i < |line| && IsAngle(line[i]) && !IsOpen(line[i - 1]) && !IsClose(line[i - 1])
    requires |r| > 0 && NoAngles(r)
    ensures Backward(Blank(line), i, r) == Backward(Blank(line), i - 2, r)
  {
    BlankBackward(line, i, r);
    BlankBackward(line, i - 1, r);
    assert Backward(Blank(line), i, r) == Backward(Blank(line), i - 1, r);
  }

  lemma {:induction false} BackwardBlank(line: string, i: int, stack: seq<char>)
    requires i < |line| && Grounded(stack, '>')
    ensures SameScan(Backward(line, i, stack), Backward(Blank(line), i, Round(stack)), '>')
    decreases i
  {
    RoundIs(stack, '>');
    if i >= 0 {
      var r := Round(stack);
      StepsBack(line, i, stack);
      if StepBackward(line, i, stack).1 == i - 1 {
        StepBackwardBlank(line, i, stack);
        BlankBackward(line, i, r);
        var s := StepBackward(line, i, stack).0;
        if s.Open? { BackwardBlank(line, i - 1, s.stack); }
      } else {
        SkippedBackward(line, i, stack);
        BlanksBackward(line, i, r);
        BackwardBlank(line, i - 2, stack);
      }
    }
  }

  lemma {:induction false} OpenLinesBlank(lines: seq<string>, n: nat, i: int, stack: seq<char>)
    requires n < |lines| && i < |lines[n]| && Grounded(stack, '>')
    ensures OpenLines(lines, n, i, stack) == OpenLines(BlankLines(lines), n, i, Round(stack))
    decreases n
  {
    BackwardBlank(lines[n], i, stack);
    var r := Backward(lines[n], i, stack);
    if r.Open? {
      RoundIs(r.stack, '>');
      if n > 0 { OpenLinesBlank(lines, n - 1, |lines[n - 1]| - 1, r.stack); }
    }
  }

  lemma FirstBackward(lines: seq<string>, n: nat, p: nat)
    requires n < |lines| && p < |lines[n]| && IsClose(lines[n][p])
    ensures OpenLines(lines, n, p, []) == OpenLines(lines, n, p - 1, [lines[n][p]])
  {
    assert [] + [lines[n][p]] == [lines[n][p]];
    assert Backward(lines[n], p, []) == Backward(lines[n], p - 1, [lines[n][p]]);
  }

  lemma ReverseCloseBlank(lines: seq<string>, n: nat, p: nat)
    requires n < |lines| && p < |lines[n]| && IsClose(lines[n][p])
    ensures ReverseClose(lines, n, p) == ReverseClose(BlankLines(lines), n, p)
  {
    var b, c := BlankLines(lines), lines[n][p];
    CloseIsSearch(lines, n, p);
    CloseIsSearch(b, n, p);
    assert b[n] == Blank(lines[n]) && b[n][p] == c;
    FirstBackward(lines, n, p);
    FirstBackward(b, n, p);
    RoundOne(c, '>');
    OpenLinesBlank(lines, n, p - 1, [c]);
  }

  // ---- on any lines ----

  /** The text from (n, p) to (m, q), with a space for every angle bracket, is one bracketed word. */
  ghost predicate IsRoundWord(lines: seq<string>, n: nat, p: nat, m: nat, q: nat)
    requires Positions(lines, n, p, m, q)
  {
    IsWord(BlankLines(lines), n, p, m, q)
  }

  /**
    On any lines: from a round, square or curly bracket at (n, p) the closing search ends just past (m, q) exactly when
    the text between them, angle brackets taken for spaces, is one bracketed word.
   */
  lemma CloseIsRoundWord(lines: seq<string>, n: nat, p: nat, m: nat, q: nat)
    requires Positions(lines, n, p, m, q) && IsOpen(lines[n][p])
    ensures Close(lines, n, p) == At(m, q + 1) <==> IsRoundWord(lines, n, p, m, q)
  {
    CloseBlank(lines, n, p);
    CloseIsBracketWord(BlankLines(lines), n, p, m, q);
  }

  /** The same for the opening search from a round, square or curly bracket at (m, q). */
  lemma ReverseCloseIsRoundWord(lines: seq<string>, n: nat, p: nat, m: nat, q: nat)
    requires Positions(lines, n, p, m, q) && IsClose(lines[m][q])
    ensures ReverseClose(lines, m, q) == At(n, p) <==> IsRoundWord(lines, n, p, m, q)
  {
    ReverseCloseBlank(lines, m, q);
    ReverseCloseIsBracketWord(BlankLines(lines), n, p, m, q);
  }

  /** On any lines the two searches undo each other between round, square and curly brackets. */
  lemma SearchesAreInverse(lines: seq<string>, n: nat, p: nat, m: nat, q: nat)
    requires Positions(lines, n, p, m, q) && IsOpen(lines[n][p]) && IsClose(lines[m][q])
    ensures Close(lines, n, p) == At(m, q + 1) <==> ReverseClose(lines, m, q) == At(n, p)
  {
    CloseIsRoundWord(lines, n, p, m, q);
    ReverseCloseIsRoundWord(lines, n, p, m, q);
  }

  // ---- template lists ----

  predicate IsOpener(c: char) { IsOpen(c) || c == '<' }
  predicate IsCloser(c: char) { IsClose(c) || c == '>' }
  function Closer(o: char): char { if o == '<' then '>' else Swap(o) }

  /** Balanced text in which angle brackets are balanced too; a list in angle brackets holds no semicolon. */
  predicate OkTemplate(w: Word, inList: bool) {
    match w
    case Empty => true
    case Plain(c, rest) => !IsOpener(c) && !IsCloser(c) && (inList ==> c != ';') && OkTemplate(rest, inList)
    case Group(o, inner, rest) => IsOpener(o) && OkTemplate(inner, o == '<') && OkTemplate(rest, inList)
  }

  function TemplateText(w: Word): string {
    match w
    case Empty => ""
    case Plain(c, rest) => [c] + TemplateText(rest)
    case Group(o, inner, rest) => [o] + (TemplateText(inner) + ([Closer(o)] + TemplateText(rest)))
  }

  /** t is one group, in brackets of any of the four kinds. */
  ghost predicate TemplateWord(t: string) {
    exists o, w :: IsOpener(o) && OkTemplate(w, o == '<') && t == [o] + (TemplateText(w) + [Closer(o)])
  }

  /** An angle bracket at k is no part of a shift, an arrow, an operator's name or a comparison with spaces round it. */
  predicate IsCalm(line: string, k: nat)
    requires k < |line|
  {
    && (line[k] == '<' ==> (k == 0 || line[k - 1] != '<') && !EndsInOperator(line[..k]))
    && (line[k] == '>' ==>
          && !EndsInOperator(line[..k])
          && (k > 0 ==> line[k - 1] != '-' && !EndsInOperator(line[..k - 1]) && !IsSpacedGreaterEqual(line[k - 1..])))
  }

  predicate AreCalm(line: string, i: nat, e: nat)
    requires e <= |line|
  { forall k :: i <= k < e ==> IsCalm(line, k) }

  lemma PlainForward(line: string, i: nat, stack: seq<char>)
    requires i < |line| && stack != [] && !IsOpener(line[i]) && !IsCloser(line[i])
    requires line[i] == ';' ==> Last(stack) != '<'
    ensures Forward(line, i, stack) == Forward(line, i + 1, stack)
  {
    assert Drop(stack, '<') == stack || line[i] != ';';
  }

  lemma OpenerForward(line: string, i: nat, stack: seq<char>)
    requires i < |line| && IsOpener(line[i]) && IsCalm(line, i)
    ensures Forward(line, i, stack) == Forward(line, i + 1, stack + [line[i]])
  {}

  lemma CloserForward(line: string, i: nat, stack: seq<char>, o: char)
    requires i < |line| && IsOpener(o) && line[i] == Closer(o) && IsCalm(line, i)
    ensures Forward(line, i, stack + [o]) == if stack == [] then Closed(i + 1) else Forward(line, i + 1, stack)
  {
    assert Last(stack + [o]) == o && Init(stack + [o]) == stack;
    if o != '<' { assert Drop(stack + [o], '<') == stack + [o]; }
  }

  lemma Slice(line: string, i: nat, e: nat, a: nat, b: nat)
    requires i <= e <= |line| && a <= b <= e - i
    ensures line[i..e][a..b] == line[i + a..i + b]
  {
    forall k | 0 <= k < b - a ensures line[i..e][a..b][k] == line[i + a..i + b][k] {}
  }

  /** The text of a group in a line: its brackets, the text in them and the text behind. */
  lemma GroupParts(line: string, i: nat, e: nat, o: char, inner: string, rest: string) returns (k: nat)
    requires i <= e <= |line| && line[i..e] == [o] + (inner + ([Closer(o)] + rest))
    ensures k == i + 1 + |inner| < e && line[i] == o && line[i + 1..k] == inner
    ensures line[k] == Closer(o) && line[k + 1..e] == rest
  {
    k := i + 1 + |inner|;
    var t, n := line[i..e], |inner|;
    Slice(line, i, e, 1, n + 1);
    Slice(line, i, e, n + 2, e - i);
    assert t[0] == o && t[1..n + 1] == inner && t[n + 1] == Closer(o) && t[n + 2..] == rest;
  }

  lemma PlainParts(line: string, i: nat, e: nat, c: char, rest: string)
    requires i <= e <= |line| && line[i..e] == [c] + rest
    ensures i < e && line[i] == c && line[i + 1..e] == rest
  {
    var t := line[i..e];
    assert t[0] == c && t[1..] == rest;
  }

  lemma CalmParts(line: string, i: nat, k: nat, e: nat)
    requires i < k < e <= |line| && AreCalm(line, i, e)
    ensures AreCalm(line, i + 1, k) && AreCalm(line, k + 1, e) && IsCalm(line, i) && IsCalm(line, k)
  {}

  /** The search goes over balanced text without a change of the stack. */
  lemma {:induction false} ForwardOver(line: string, i: nat, e: nat, w: Word, stack: seq<char>)
    requires i <= e <= |line| && line[i..e] == TemplateText(w) && AreCalm(line, i, e)
    requires stack != [] && OkTemplate(w, Last(stack) == '<')
    ensures Forward(line, i, stack) == Forward(line, e, stack)
    decreases w
  {
    match w
    case Empty =>
    case Plain(c, rest) =>
      PlainParts(line, i, e, c, TemplateText(rest));
      PlainForward(line, i, stack);
      ForwardOver(line, i + 1, e, rest, stack);
    case Group(o, inner, rest) =>
      var k := GroupParts(line, i, e, o, TemplateText(inner), TemplateText(rest));
      CalmParts(line, i, k, e);
      OpenerForward(line, i, stack);
      ForwardOver(line, i + 1, k, inner, stack + [o]);
      CloserForward(line, k, stack, o);
      ForwardOver(line, k + 1, e, rest, stack);
  }

  /** The search backward from i with stack s comes out as that from j with stack s'. */
  predicate SameBack(line: string, i: int, s: seq<char>, j: int, s': seq<char>)
    requires i < |line| && j < |line|
  {
    Backward(line, i, s) == Backward(line, j, s')
  }

  lemma BackThrough(line: string, i: int, s: seq<char>, j: int, s': seq<char>, k: int, s'': seq<char>)
    requires i < |line| && j < |line| && k < |line| && SameBack(line, i, s, j, s') && SameBack(line, j, s', k, s'')
    ensures SameBack(line, i, s, k, s'')
  {}

  lemma PlainBackward(line: string, i: nat, stack: seq<char>)
    requires i < |line| && stack != [] && !IsOpener(line[i]) && !IsCloser(line[i])
    requires line[i] == ';' ==> Last(stack) != '>'
    ensures SameBack(line, i, stack, i - 1, stack)
  {
    assert Drop(stack, '>') == stack || line[i] != ';';
  }

  lemma CloserBackward(line: string, i: nat, stack: seq<char>)
    requires i < |line| && IsCloser(line[i]) && IsCalm(line, i)
    ensures SameBack(line, i, stack, i - 1, stack + [line[i]])
  {}

  lemma OpenerBackward(line: string, i: nat, stack: seq<char>, o: char)
    requires i < |line| && IsOpener(o) && line[i] == o && IsCalm(line, i)
    ensures if stack == [] then Backward(line, i, stack + [Closer(o)]) == Closed(i)
            else SameBack(line, i, stack + [Closer(o)], i - 1, stack)
  {
    var c := Closer(o);
    assert Last(stack + [c]) == c && Init(stack + [c]) == stack;
    if o != '<' { assert Drop(stack + [c], '>') == stack + [c]; }
  }

  /** The search backward goes over the text behind a group, and over the text inside it. */
  predicate AroundBrackets(line: string, i: nat, k: nat, e: nat, stack: seq<char>, more: seq<char>)
    requires i < k < e <= |line|
  {
    SameBack(line, e - 1, stack, k, stack) && SameBack(line, k - 1, more, i, more)
  }

  lemma GroupBack(line: string, i: nat, k: nat, e: nat, o: char, stack: seq<char>, more: seq<char>)
    requires i < k < e <= |line| && AreCalm(line, i, e)
    requires IsOpener(o) && line[i] == o && line[k] == Closer(o) && stack != [] && more == stack + [Closer(o)]
    requires AroundBrackets(line, i, k, e, stack, more)
    ensures SameBack(line, e - 1, stack, i - 1, stack)
  {
    CloserBackward(line, k, stack);
    OpenerBackward(line, i, stack, o);
    BackThrough(line, e - 1, stack, k, stack, k - 1, more);
    BackThrough(line, e - 1, stack, k - 1, more, i, more);
    BackThrough(line, e - 1, stack, i, more, i - 1, stack);
  }

  lemma Grown(stack: seq<char>, c: char) returns (more: seq<char>)
    ensures more == stack + [c] && more != [] && Last(more) == c
  {
    more := stack + [c];
  }

  lemma CloserIs(o: char)
    requires IsOpener(o)
    ensures Closer(o) == '>' <==> o == '<'
  {}

  lemma {:induction false} BackwardOver(line: string, i: nat, e: nat, w: Word, stack: seq<char>)
    requires i <= e <= |line| && line[i..e] == TemplateText(w) && AreCalm(line, i, e)
    requires stack != [] && OkTemplate(w, Last(stack) == '>')
    ensures SameBack(line, e - 1, stack, i - 1, stack)
    decreases w, 1
  {
    match w
    case Empty =>
    case Plain(c, rest) =>
      PlainParts(line, i, e, c, TemplateText(rest));
      BackwardOver(line, i + 1, e, rest, stack);
      PlainBackward(line, i, stack);
      BackThrough(line, e - 1, stack, i, stack, i - 1, stack);
    case Group(o, inner, rest) =>
      var k := GroupParts(line, i, e, o, TemplateText(inner), TemplateText(rest));
      CalmParts(line, i, k, e);
      BackwardGroup(line, i, k, e, o, inner, rest, stack);
  }

  lemma {:induction false} BackwardGroup(line: string, i: nat, k: nat, e: nat, o: char, inner: Word, rest: Word,
                                         stack: seq<char>)
    requires i < k < e <= |line| && line[i + 1..k] == TemplateText(inner) && line[k + 1..e] == TemplateText(rest)
    requires IsOpener(o) && line[i] == o && line[k] == Closer(o) && stack != [] && AreCalm(line, i, e)
    requires AreCalm(line, i + 1, k) && AreCalm(line, k + 1, e)
    requires OkTemplate(inner, o == '<') && OkTemplate(rest, Last(stack) == '>')
    ensures SameBack(line, e - 1, stack, i - 1, stack)
    decreases Group(o, inner, rest), 0
  {
    BackwardOver(line, k + 1, e, rest, stack);
    var more := Grown(stack, Closer(o));
    CloserIs(o);
    BackwardOver(line, i + 1, k, inner, more);
    GroupBack(line, i, k, e, o, stack, more);
  }

  /** Forward from its first bracket and backward from its last, the search ends at the other end of a group. */
  lemma TemplateCloses(line: string, p: nat, q: nat)
    requires p <= q < |line| && TemplateWord(line[p..q + 1]) && AreCalm(line, p, q + 1)
    ensures IsOpener(line[p]) && IsCloser(line[q])
    ensures Forward(line, p, []) == Closed(q + 1) && Backward(line, q, []) == Closed(p)
  {
    var o, w :| IsOpener(o) && OkTemplate(w, o == '<') && line[p..q + 1] == [o] + (TemplateText(w) + [Closer(o)]);
    assert [Closer(o)] + "" == [Closer(o)];
    var k := GroupParts(line, p, q + 1, o, TemplateText(w), "");
    assert [] + [o] == [o] && [] + [Closer(o)] == [Closer(o)];
    OpenerForward(line, p, []);
    ForwardOver(line, p + 1, q, w, [o]);
    CloserForward(line, q, [], o);
    CloserBackward(line, q, []);
    BackwardOver(line, p + 1, q, w, [Closer(o)]);
    OpenerBackward(line, p, [], o);
  }

  /**
    A template list on one line: the two searches go from its one end to its other, except that a list that begins with
    an equals sign is taken for a comparison.
   */
  lemma TemplateListFound(lines: seq<string>, n: nat, p: nat, q: nat)
    requires n < |lines| && p <= q < |lines[n]| && TemplateWord(lines[n][p..q + 1]) && AreCalm(lines[n], p, q + 1)
    ensures Close(lines, n, p) == At(n, q + 1) <==> lines[n][p..p + 2] != "<="
    ensures ReverseClose(lines, n, q) == At(n, p)
  {
    var line := lines[n];
    TemplateCloses(line, p, q);
    assert IsCalm(line, p);
    if p < q { assert IsCalm(line, p + 1) && line[p..p + 2] == [line[p], line[p + 1]]; }
  }

  // ---- angle brackets that do not count ----

  predicate AllSpaces(s: string) { forall k :: 0 <= k < |s| ==> IsSpace(s[k]) }

  /** The word operator, white space, and what is before them. */
  predicate OperatorSplit(s: string, a: string, gap: string) {
    s == a + ("operator" + gap) && AllSpaces(gap) && (a == "" || !IsWordChar(Last(a)))
  }

  lemma {:induction false} StripEndSplit(s: string)
    ensures StripEnd(s) <= s && AllSpaces(s[|StripEnd(s)|..])
  {
    if |s| > 0 && IsSpace(Last(s)) {
      StripEndSplit(Init(s));
      var n := |StripEnd(s)|;
      assert s[n..] == Init(s)[n..] + [Last(s)];
    }
  }

  lemma {:induction false} StripEndOf(t: string, gap: string)
    requires AllSpaces(gap) && (t == "" || !IsSpace(Last(t)))
    ensures StripEnd(t + gap) == t
    decreases |gap|
  {
    if gap == "" {
      assert t + gap == t;
    } else {
      assert Last(t + gap) == Last(gap) && Init(t + gap) == t + Init(gap);
      StripEndOf(t, Init(gap));
    }
  }

  lemma OperatorTail(s: string, t: string) returns (a: string, gap: string)
    requires t <= s && AllSpaces(s[|t|..])
    requires |t| >= 8 && t[|t| - 8..] == "operator" && (|t| == 8 || !IsWordChar(t[|t| - 9]))
    ensures OperatorSplit(s, a, gap)
  {
    a, gap := t[..|t| - 8], s[|t|..];
    assert t == a + t[|t| - 8..] && s == t + gap;
    if a != "" { assert Last(a) == t[|t| - 9]; }
  }

  lemma LetterIsNoSpace(c: char)
    requires 'a' <= c <= 'z'
    ensures !IsSpace(c)
  {
    assert c as int >= 97;
  }

  lemma OperatorSeen(s: string, a: string, gap: string)
    requires OperatorSplit(s, a, gap)
    ensures EndsInOperator(s)
  {
    var t := a + "operator";
    assert s == t + gap && t[|t| - 8..] == "operator";
    assert Last(t) == "operator"[7];
    LetterIsNoSpace(Last(t));
    StripEndOf(t, gap);
    if a != "" { assert t[|t| - 9] == Last(a); }
  }

  /** Where the tool sees the name of an operator function. */
  lemma EndsInOperatorIff(s: string)
    ensures EndsInOperator(s) <==> exists a, gap :: OperatorSplit(s, a, gap)
  {
    if EndsInOperator(s) {
      StripEndSplit(s);
      var a, gap := OperatorTail(s, StripEnd(s));
    }
    if a, gap :| OperatorSplit(s, a, gap) { OperatorSeen(s, a, gap); }
  }

  /** Arrows and shifts leave the stack alone, in both directions. */
  lemma ArrowsAndShifts(line: string, i: nat, stack: seq<char>)
    requires i + 1 < |line| && stack != []
    ensures line[i..i + 2] == "->" ==> Forward(line, i, stack) == Forward(line, i + 2, stack)
    ensures line[i..i + 2] == "->" ==> Backward(line, i + 1, stack) == Backward(line, i - 1, stack)
    ensures line[i..i + 2] == "<<" ==> Backward(line, i + 1, stack) == Backward(line, i - 1, stack)
    ensures line[i..i + 2] == "<<" && IsCalm(line, i) ==> Forward(line, i, stack) == Forward(line, i + 2, stack)
  {
    var t := line[i..i + 2];
    assert t == [line[i], line[i + 1]];
    if t == "->" {
      assert line[i] == '-' && line[i + 1] == '>';
      assert Forward(line, i, stack) == Forward(line, i + 1, stack);
      assert Forward(line, i + 1, stack) == Forward(line, i + 2, stack);
    }
    if t == "<<" && IsCalm(line, i) {
      assert line[i] == '<' && line[i + 1] == '<';
      OpenerForward(line, i, stack);
      assert Last(stack + ['<']) == '<' && Init(stack + ['<']) == stack;
      assert Forward(line, i + 1, stack + ['<']) == Forward(line, i + 2, stack);
    }
  }

  lemma SpacedName(s: string, a: string, gap: string)
    requires OperatorSplit(s, a, gap) && gap != ""
    ensures EndsInOperator(Init(s))
  {
    assert Init(s) == a + ("operator" + Init(gap));
    assert OperatorSplit(Init(s), a, Init(gap));
    EndsInOperatorIff(Init(s));
  }

  lemma CutName(s: string, a: string)
    requires s == a + "operator"
    ensures !EndsInOperator(Init(s))
  {
    var t := Init(s);
    assert t == a + "operato" && Last(t) == 'o';
    if EndsInOperator(t) { OperatorEnd(t); }
  }

  lemma OperatorPrefix(s: string, a: string, gap: string)
    requires OperatorSplit(s, a, gap)
    ensures |s| > 0 && Last(s) != '<' && Last(s) != '-' && EndsInOperator(s)
    ensures EndsInOperator(Init(s)) <==> gap != ""
  {
    EndsInOperatorIff(s);
    OperatorEnd(s);
    if gap != "" {
      SpacedName(s, a, gap);
    } else {
      assert s == a + "operator";
      CutName(s, a);
    }
  }

  lemma LessSkipped(line: string, i: nat, stack: seq<char>, before: string)
    requires 0 < i < |line| && before == line[..i] && line[i] == '<' && line[i - 1] != '<' && EndsInOperator(before)
    ensures Forward(line, i, stack) == Forward(line, i + 1, stack)
  {}

  /** The name of an operator function hides the left angle bracket that ends it from the search forward. */
  lemma OperatorLessIgnored(line: string, a: string, gap: string, i: nat, stack: seq<char>)
    requires i < |line| && OperatorSplit(line[..i], a, gap) && line[i] == '<'
    ensures Forward(line, i, stack) == Forward(line, i + 1, stack)
  {
    var before := line[..i];
    OperatorPrefix(before, a, gap);
    assert Last(before) == line[i - 1];
    LessSkipped(line, i, stack, before);
  }

  lemma GreaterStep(line: string, i: nat, stack: seq<char>, before: string)
    requires 0 < i < |line| && before == line[..i] && line[i] == '>' && line[i - 1] != '-'
    requires |stack| > 0 && Last(stack) == '<'
    ensures StepForward(line, i, stack) == if EndsInOperator(Init(before)) then Open(stack) else Pop(stack, i + 1)
    ensures EndsInOperator(before) ==> StepBackward(line, i, stack) == (Open(stack), i - 2)
  {
    assert Init(before) == line[..i - 1];
  }

  /**
    The right angle bracket that ends such a name is hidden from the search backward. From the search forward it is
    hidden exactly when white space stands before it, though the tool means to skip it both ways.
   */
  lemma OperatorGreaterIgnoredIff(line: string, a: string, gap: string, i: nat, stack: seq<char>)
    requires i < |line| && OperatorSplit(line[..i], a, gap) && line[i] == '>' && |stack| > 0 && Last(stack) == '<'
    ensures StepForward(line, i, stack) == if gap != "" then Open(stack) else Pop(stack, i + 1)
    ensures StepBackward(line, i, stack) == (Open(stack), i - 2)
  {
    var before := line[..i];
    OperatorPrefix(before, a, gap);
    assert Last(before) == line[i - 1];
    GreaterStep(line, i, stack, before);
  }

  lemma {:induction false} PlainRun(line: string, i: nat, e: nat, stack: seq<char>)
    requires i <= e <= |line| && stack != []
    requires forall k :: i <= k < e ==> !IsOpener(line[k]) && !IsCloser(line[k]) && line[k] != ';'
    ensures Forward(line, i, stack) == Forward(line, e, stack)
    decreases e - i
  {
    if i < e {
      PlainForward(line, i, stack);
      PlainRun(line, i + 1, e, stack);
    }
  }

  /** A list that is open where such a name ends without white space closes there. */
  lemma NameClosesList(line: string, i: nat, e: nat, a: string)
    requires i < e < |line| && line[i] == '<' && IsCalm(line, i) && OperatorSplit(line[..e], a, "") && line[e] == '>'
    requires forall k :: i < k < e ==> !IsOpener(line[k]) && !IsCloser(line[k]) && line[k] != ';'
    ensures Forward(line, i, []) == Closed(e + 1)
  {
    OpenerForward(line, i, []);
    assert [] + ['<'] == ['<'];
    PlainRun(line, i + 1, e, ['<']);
    OperatorGreaterIgnoredIff(line, a, "", e, ['<']);
  }

  lemma TheLine(line: string)
    requires line == "<operator>()>"
    ensures |line| == 13 && line[0] == '<' && line[9] == '>' && line[..9] == "<" + ("operator" + "")
    ensures line[..0] == "" && forall k :: 0 < k < 9 ==> !IsOpener(line[k]) && !IsCloser(line[k]) && line[k] != ';'
  {}

  /** A concrete one. */
  lemma OperatorGreaterCloses()
    ensures Forward("<operator>()>", 0, []) == Closed(10)
  {
    var line: string := "<operator>()>";
    TheLine(line);
    NameClosesList(line, 0, 9, "<");
  }
}
