/** The multi-line bracket matchers of the lint tool, forward and backward. */
module Brackets {
  import opened Characters
  import opened Wrappers

  predicate IsOpen(c: char) { c == '(' || c == '[' || c == '{' }
  predicate IsClose(c: char) { c == ')' || c == ']' || c == '}' }
  predicate Pairs(open: char, close: char) {
    (open == '(' && close == ')') || (open == '[' && close == ']') || (open == '{' && close == '}')
  }

  function Last(s: seq<char>): char
    requires |s| > 0
  { s[|s| - 1] }

  function Init(s: seq<char>): seq<char>
    requires |s| > 0
  { s[..|s| - 1] }

  function StripEnd(s: string): string {
    if |s| > 0 && IsSpace(Last(s)) then StripEnd(Init(s)) else s
  }

  /** The text ends in the word operator and white space. */
  predicate EndsInOperator(s: string) {
    var t := StripEnd(s);
    |t| >= 8 && t[|t| - 8..] == "operator" && (|t| == 8 || !IsWordChar(t[|t| - 9]))
  }

  /** The stack without the pending angle brackets on top. */
  function Drop(stack: seq<char>, angle: char): seq<char> {
    if |stack| > 0 && Last(stack) == angle then Drop(Init(stack), angle) else stack
  }

  method DropAngles(stack: seq<char>, angle: char) returns (s: seq<char>)
    ensures s == Drop(stack, angle)
  {
    s := stack;
    while |s| > 0 && s[|s| - 1] == angle
      invariant Drop(s, angle) == Drop(stack, angle)
      decreases |s|
    {
      s := s[..|s| - 1];
    }
  }

  // ---- one line ----

  /** How a scan of a line ends: at a position, in failure, or at the end of the line with brackets still open. */
  datatype Scan = Closed(pos: nat) | Failed | Open(stack: seq<char>)

  function Pop(stack: seq<char>, pos: nat): Scan
    requires |stack| > 0
  {
    if |stack| == 1 then Closed(pos) else Open(Init(stack))
  }

  /** What the forward scan does with the character at i; Open means that it goes on with that stack. */
  function StepForward(line: string, i: nat, stack: seq<char>): Scan
    requires i < |line|
  {
    var c := line[i];
    if IsOpen(c) then Open(stack + [c])
    else if c == '<' then
      if i > 0 && line[i - 1] == '<' then
        if |stack| > 0 && Last(stack) == '<' then (if |stack| == 1 then Failed else Open(Init(stack))) else Open(stack)
      else if i > 0 && EndsInOperator(line[..i]) then Open(stack)
      else Open(stack + ['<'])
    else if IsClose(c) then
      var s := Drop(stack, '<');
      if |s| > 0 && Pairs(Last(s), c) then Pop(s, i + 1) else Failed
    else if c == '>' then
      if i > 0 && (line[i - 1] == '-' || EndsInOperator(line[..i - 1])) then Open(stack)
      else if |stack| > 0 && Last(stack) == '<' then Pop(stack, i + 1)
      else Open(stack)
    else if c == ';' then
      var s := Drop(stack, '<');
      if s == [] then Failed else Open(s)
    else Open(stack)
  }

  function Forward(line: string, i: nat, stack: seq<char>): Scan
    decreases |line| - i
  {
    if i >= |line| then Open(stack)
    else match StepForward(line, i, stack)
      case Open(s) => Forward(line, i + 1, s)
      case r => r
  }

  /** The backward step: how the character at i leaves the scan, and the next position. */
  function StepBackward(line: string, i: nat, stack: seq<char>): (Scan, int)
    requires i < |line|
  {
    var c := line[i];
    if IsClose(c) then (Open(stack + [c]), i - 1)
    else if c == '>' then
      if i > 0 && (line[i - 1] == '-' || IsSpacedGreaterEqual(line[i - 1..]) || EndsInOperator(line[..i]))
      then (Open(stack), i - 2)
      else (Open(stack + ['>']), i - 1)
    else if c == '<' then
      if i > 0 && line[i - 1] == '<' then (Open(stack), i - 2)
      else if |stack| > 0 && Last(stack) == '>' then (Pop(stack, i), i - 1)
      else (Open(stack), i - 1)
    else if IsOpen(c) then
      var s := Drop(stack, '>');
      if |s| > 0 && Pairs(c, Last(s)) then (Pop(s, i), i - 1) else (Failed, i - 1)
    else if c == ';' then
      var s := Drop(stack, '>');
      (if s == [] then Failed else Open(s), i - 1)
    else (Open(stack), i - 1)
  }

  predicate IsSpacedGreaterEqual(s: string) {
    |s| >= 4 && IsSpace(s[0]) && s[1] == '>' && s[2] == '=' && IsSpace(s[3])
  }

  function Backward(line: string, i: int, stack: seq<char>): Scan
    requires i < |line|
    decreases i
  {
    if i < 0 then Open(stack)
    else
      var (r, j) := StepBackward(line, i, stack);
      match r
      case Open(s) => Backward(line, j, s)
      case _ => r
  }

  /** The pair a line scanner returns: a position or -1, and the stack to carry on with, if any. */
  function Report(r: Scan): (int, Option<seq<char>>) {
    var pos: int := if r.Closed? then r.pos else -1;
    (pos, if r.Open? then Some(r.stack) else None)
  }

  method FindEndOfExpressionInLine(line: string, startpos: nat, stack0: seq<char>)
    returns (pos: int, left: Option<seq<char>>)
    ensures (pos, left) == Report(Forward(line, startpos, stack0))
  {
    var stack := stack0;
    var i := startpos;
    while i < |line|
      invariant Forward(line, i, stack) == Forward(line, startpos, stack0)
    {
      var c := line[i];
      if IsOpen(c) {
        stack := stack + [c];
      } else if c == '<' {
        if i > 0 && line[i - 1] == '<' {
          if |stack| > 0 && stack[|stack| - 1] == '<' {
            stack := stack[..|stack| - 1];
            if |stack| == 0 { return -1, None; }
          }
        } else if i > 0 && EndsInOperator(line[..i]) {
        } else {
          stack := stack + ['<'];
        }
      } else if IsClose(c) {
        stack := DropAngles(stack, '<');
        if |stack| == 0 { return -1, None; }
        if !Pairs(stack[|stack| - 1], c) { return -1, None; }
        stack := stack[..|stack| - 1];
        if |stack| == 0 { return i + 1, None; }
      } else if c == '>' {
        if i > 0 && (line[i - 1] == '-' || EndsInOperator(line[..i - 1])) {
        } else if |stack| > 0 && stack[|stack| - 1] == '<' {
          stack := stack[..|stack| - 1];
          if |stack| == 0 { return i + 1, None; }
        }
      } else if c == ';' {
        stack := DropAngles(stack, '<');
        if |stack| == 0 { return -1, None; }
      }
      i := i + 1;
    }
    return -1, Some(stack);
  }

  method FindStartOfExpressionInLine(line: string, endpos: int, stack0: seq<char>)
    returns (pos: int, left: Option<seq<char>>)
    requires endpos < |line|
    ensures (pos, left) == Report(Backward(line, endpos, stack0))
  {
    var stack := stack0;
    var i := endpos;
    while i >= 0
      invariant i < |line|
      invariant Backward(line, i, stack) == Backward(line, endpos, stack0)
    {
      var c := line[i];
      if IsClose(c) {
        stack := stack + [c];
      } else if c == '>' {
        if i > 0 && (line[i - 1] == '-' || IsSpacedGreaterEqual(line[i - 1..]) || EndsInOperator(line[..i])) {
          i := i - 1;
        } else {
          stack := stack + ['>'];
        }
      } else if c == '<' {
        if i > 0 && line[i - 1] == '<' {
          i := i - 1;
        } else if |stack| > 0 && stack[|stack| - 1] == '>' {
          stack := stack[..|stack| - 1];
          if |stack| == 0 { return i, None; }
        }
      } else if IsOpen(c) {
        stack := DropAngles(stack, '>');
        if |stack| == 0 { return -1, None; }
        if !Pairs(c, stack[|stack| - 1]) { return -1, None; }
        stack := stack[..|stack| - 1];
        if |stack| == 0 { return i, None; }
      } else if c == ';' {
        stack := DropAngles(stack, '>');
        if |stack| == 0 { return -1, None; }
      }
      i := i - 1;
    }
    return -1, Some(stack);
  }

  // ---- many lines ----

  /** A place in the file, or none; then the last line looked at. */
  datatype Place = At(line: nat, pos: nat) | Nowhere(last: nat)

  function CloseLines(lines: seq<string>, n: nat, i: nat, stack: seq<char>): Place
    requires n < |lines|
    decreases |lines| - n
  {
    match Forward(lines[n], i, stack)
    case Closed(e) => At(n, e)
    case Failed => Nowhere(n)
    case Open(s) => if s != [] && n + 1 < |lines| then CloseLines(lines, n + 1, 0, s) else Nowhere(n)
  }

  function OpenLines(lines: seq<string>, n: nat, i: int, stack: seq<char>): Place
    requires n < |lines| && i < |lines[n]|
    decreases n
  {
    match Backward(lines[n], i, stack)
    case Closed(e) => At(n, e)
    case Failed => Nowhere(n)
    case Open(s) => if s != [] && n > 0 then OpenLines(lines, n - 1, |lines[n - 1]| - 1, s) else Nowhere(n)
  }

  function Close(lines: seq<string>, n: nat, pos: nat): Place
    requires n < |lines| && pos < |lines[n]|
  {
    var c := lines[n][pos];
    if !(IsOpen(c) || c == '<') || (c == '<' && pos + 1 < |lines[n]| && lines[n][pos + 1] in "<=") then Nowhere(n)
    else CloseLines(lines, n, pos, [])
  }

  function ReverseClose(lines: seq<string>, n: nat, pos: nat): Place
    requires n < |lines| && pos < |lines[n]|
  {
    if !(IsClose(lines[n][pos]) || lines[n][pos] == '>') then Nowhere(n) else OpenLines(lines, n, pos, [])
  }

  /** What a search returns for a place: the line, its number and the position; for none, that number and -1. */
  predicate IsReport(lines: seq<string>, place: Place, none: nat, line: string, num: nat, pos: int) {
    match place
    case At(m, e) => m < |lines| && line == lines[m] && num == m && pos == e
    case Nowhere(m) => m < |lines| && line == lines[m] && num == none && pos == -1
  }

  /** The closing search goes on behind line n with what is left of the stack, and will end at the place. */
  predicate ClosesBehind(lines: seq<string>, n: nat, left: Option<seq<char>>, place: Place) {
    if left.Some? && left.value != [] && n + 1 < |lines| then place == CloseLines(lines, n + 1, 0, left.value)
    else place == Nowhere(n)
  }

  lemma CloseOnLine(lines: seq<string>, n: nat, i: nat, stack: seq<char>, end: int, left: Option<seq<char>>)
    requires n < |lines| && (end, left) == Report(Forward(lines[n], i, stack))
    ensures if end > -1 then CloseLines(lines, n, i, stack) == At(n, end)
            else end == -1 && ClosesBehind(lines, n, left, CloseLines(lines, n, i, stack))
  {}

  predicate OpensBefore(lines: seq<string>, n: nat, left: Option<seq<char>>, place: Place)
    requires n < |lines|
  {
    if left.Some? && left.value != [] && n > 0 then place == OpenLines(lines, n - 1, |lines[n - 1]| - 1, left.value)
    else place == Nowhere(n)
  }

  lemma OpenOnLine(lines: seq<string>, n: nat, i: int, stack: seq<char>, start: int, left: Option<seq<char>>)
    requires n < |lines| && i < |lines[n]| && (start, left) == Report(Backward(lines[n], i, stack))
    ensures if start > -1 then OpenLines(lines, n, i, stack) == At(n, start)
            else start == -1 && OpensBefore(lines, n, left, OpenLines(lines, n, i, stack))
  {}

  /** The place just past the bracket that closes the one at pos; (number of lines, -1) if there is none. */
  method CloseExpression(lines: seq<string>, linenum: nat, pos: nat) returns (line: string, num: nat, end: int)
    requires linenum < |lines| && pos < |lines[linenum]|
    ensures IsReport(lines, Close(lines, linenum, pos), |lines|, line, num, end)
  {
    line, num := lines[linenum], linenum;
    if !(IsOpen(line[pos]) || line[pos] == '<') || (line[pos] == '<' && pos + 1 < |line| && line[pos + 1] in "<=") {
      return line, |lines|, -1;
    }
    var stack;
    end, stack := FindEndOfExpressionInLine(line, pos, []);
    CloseOnLine(lines, num, pos, [], end, stack);
    if end > -1 { return; }
    ghost var place := Close(lines, linenum, pos);
    while stack.Some? && stack.value != [] && num + 1 < |lines|
      invariant num < |lines| && line == lines[num] && ClosesBehind(lines, num, stack, place)
      decreases |lines| - num
    {
      ghost var before := stack.value;
      num := num + 1;
      line := lines[num];
      end, stack := FindEndOfExpressionInLine(line, 0, stack.value);
      CloseOnLine(lines, num, 0, before, end, stack);
      if end > -1 { return; }
    }
    return line, |lines|, -1;
  }

  /** The place of the bracket that opens the one at pos; (0, -1) if there is none. */
  method ReverseCloseExpression(lines: seq<string>, linenum: nat, pos: nat) returns (line: string, num: nat, start: int)
    requires linenum < |lines| && pos < |lines[linenum]|
    ensures IsReport(lines, ReverseClose(lines, linenum, pos), 0, line, num, start)
  {
    line, num := lines[linenum], linenum;
    if !(IsClose(line[pos]) || line[pos] == '>') {
      return line, 0, -1;
    }
    var stack;
    start, stack := FindStartOfExpressionInLine(line, pos, []);
    OpenOnLine(lines, num, pos, [], start, stack);
    if start > -1 { return; }
    ghost var place := ReverseClose(lines, linenum, pos);
    while stack.Some? && stack.value != [] && num > 0
      invariant num < |lines| && line == lines[num] && OpensBefore(lines, num, stack, place)
      decreases num
    {
      ghost var before := stack.value;
      num := num - 1;
      line := lines[num];
      start, stack := FindStartOfExpressionInLine(line, |line| - 1, stack.value);
      OpenOnLine(lines, num, |line| - 1, before, start, stack);
      if start > -1 { return; }
    }
    return line, 0, -1;
  }
}
