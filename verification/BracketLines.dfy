/** The line-by-line bracket matchers against one scan of the joined text; forward and backward are inverses. */
module BracketLines {
  import opened Brackets
  import opened BracketWords

  function Join(lines: seq<string>): string {
    if |lines| == 0 then "" else lines[0] + Join(lines[1..])
  }

  /** Where line n starts in the joined text. */
  function Offset(lines: seq<string>, n: nat): nat
    requires n <= |lines|
  {
    if n == 0 then 0 else Offset(lines, n - 1) + |lines[n - 1]|
  }

  predicate Plain(lines: seq<string>) { forall k :: 0 <= k < |lines| ==> NoAngles(lines[k]) }

  lemma {:induction false} JoinSplit(lines: seq<string>, n: nat)
    requires n <= |lines|
    ensures Join(lines) == Join(lines[..n]) + Join(lines[n..])
    ensures |Join(lines[..n])| == Offset(lines, n)
    decreases n
  {
    if n == 0 {
      assert lines[..0] == [] && lines[0..] == lines;
    } else {
      JoinSplit(lines, n - 1);
      assert lines[n - 1..][1..] == lines[n..];
      JoinSnoc(lines[..n - 1], lines[n - 1]);
      assert lines[..n - 1] + [lines[n - 1]] == lines[..n];
    }
  }

  lemma {:induction false} JoinSnoc(lines: seq<string>, line: string)
    ensures Join(lines + [line]) == Join(lines) + line
  {
    if |lines| == 0 {
      assert [line][1..] == [];
      assert lines + [line] == [line];
    } else {
      JoinSnoc(lines[1..], line);
      assert (lines + [line])[1..] == lines[1..] + [line];
    }
  }

  /** The joined text around line n. */
  lemma JoinAround(lines: seq<string>, n: nat)
    requires n < |lines|
    ensures Join(lines) == Join(lines[..n]) + lines[n] + Join(lines[n + 1..])
    ensures |Join(lines[..n])| == Offset(lines, n) && Offset(lines, n) + |lines[n]| <= |Join(lines)|
    ensures forall i :: 0 <= i < |lines[n]| ==> Join(lines)[Offset(lines, n) + i] == lines[n][i]
  {
    JoinSplit(lines, n);
    assert lines[n..][1..] == lines[n + 1..];
    assert Join(lines[n..]) == lines[n] + Join(lines[n + 1..]);
  }

  lemma {:induction false} JoinPlain(lines: seq<string>)
    requires Plain(lines)
    ensures NoAngles(Join(lines))
  {
    if |lines| > 0 { JoinPlain(lines[1..]); }
  }

  lemma {:induction false} OffsetMono(lines: seq<string>, m: nat, n: nat)
    requires m < n <= |lines|
    ensures Offset(lines, m) + |lines[m]| <= Offset(lines, n)
    decreases n
  {
    if m + 1 < n { OffsetMono(lines, m, n - 1); }
  }

  /** A character of the joined text is on one line only. */
  lemma PlaceUnique(lines: seq<string>, m: nat, i: nat, n: nat, j: nat)
    requires m < |lines| && n < |lines| && i < |lines[m]| && j < |lines[n]|
    requires Offset(lines, m) + i == Offset(lines, n) + j
    ensures m == n && i == j
  {
    if m < n { OffsetMono(lines, m, n); }
    if n < m { OffsetMono(lines, n, m); }
  }

  // ---- forward ----

  lemma StaysOpen(t: string, stack: seq<char>)
    requires stack != [] || (t != "" && IsOpen(t[0]))
    ensures Run(t, stack).Open? ==> Run(t, stack).stack != []
  {
    if stack != [] { RunEnds(t, stack); } else { RunEnds(t[1..], [t[0]]); assert [] + [t[0]] == [t[0]]; }
  }

  /** The lines from position i of line n on, as one text. */
  function From(lines: seq<string>, n: nat, i: nat): string
    requires n < |lines| && i <= |lines[n]|
  { lines[n][i..] + Join(lines[n + 1..]) }

  /** The place is where the scan of the text from start on ends, on line n or a later one. */
  predicate FoundForward(lines: seq<string>, n: nat, place: Place, r: Scan, start: nat) {
    if place.At? then
      && n <= place.line < |lines| && 1 <= place.pos <= |lines[place.line]|
      && start <= Offset(lines, place.line) + place.pos
      && r == Closed(Offset(lines, place.line) + place.pos - start)
    else !r.Closed?
  }

  lemma FoundLater(lines: seq<string>, n: nat, place: Place, r: Scan, start: nat, len: nat)
    requires FoundForward(lines, n + 1, place, r, start + len)
    ensures FoundForward(lines, n, place, Shift(r, len), start)
  {}

  lemma CloseLinesStep(lines: seq<string>, n: nat, i: nat, stack: seq<char>, r: Scan)
    requires Plain(lines) && NoAngles(stack) && n < |lines| && i <= |lines[n]| && r == Run(lines[n][i..], stack)
    ensures CloseLines(lines, n, i, stack) ==
            if r.Closed? then At(n, r.pos + i)
            else if r.Open? && r.stack != [] && n + 1 < |lines| then CloseLines(lines, n + 1, 0, r.stack)
            else Nowhere(n)
  {
    ForwardIsRun(lines[n], i, stack);
  }

  lemma FromStep(lines: seq<string>, n: nat, i: nat, stack: seq<char>, r: Scan)
    requires n < |lines| && i <= |lines[n]| && r == Run(lines[n][i..], stack)
    ensures Run(From(lines, n, i), stack) ==
            if !r.Open? then r
            else Shift(if n + 1 < |lines| then Run(From(lines, n + 1, 0), r.stack) else r, |lines[n]| - i)
  {
    RunConcat(lines[n][i..], Join(lines[n + 1..]), stack);
    if n + 1 < |lines| { NextLine(lines, n); }
  }

  lemma {:induction false} CloseLinesIsRun(lines: seq<string>, n: nat, i: nat, stack: seq<char>)
    requires Plain(lines) && NoAngles(stack) && n < |lines| && i <= |lines[n]|
    requires stack != [] || (i < |lines[n]| && IsOpen(lines[n][i]))
    ensures FoundForward(lines, n, CloseLines(lines, n, i, stack), Run(From(lines, n, i), stack), Offset(lines, n) + i)
    decreases |lines| - n
  {
    var a := lines[n][i..];
    var r := Run(a, stack);
    CloseLinesStep(lines, n, i, stack, r);
    FromStep(lines, n, i, stack, r);
    RunEnds(a, stack);
    StaysOpen(a, stack);
    if r.Open? && n + 1 < |lines| {
      CloseLinesIsRun(lines, n + 1, 0, r.stack);
      NextLine(lines, n);
      FoundLater(lines, n, CloseLines(lines, n + 1, 0, r.stack), Run(From(lines, n + 1, 0), r.stack),
                 Offset(lines, n) + i, |a|);
    }
  }

  lemma NextLine(lines: seq<string>, n: nat)
    requires n + 1 < |lines|
    ensures Join(lines[n + 1..]) == From(lines, n + 1, 0)
    ensures Offset(lines, n + 1) == Offset(lines, n) + |lines[n]|
  {
    assert lines[n + 1..][1..] == lines[n + 2..];
    assert lines[n + 1][0..] == lines[n + 1];
  }

  /** The place a search over lines found is the one a scan of the joined text found, and there is one if there is. */
  predicate SameEnd(lines: seq<string>, place: Place, whole: Scan) {
    if place.At? then
      && place.line < |lines| && place.pos <= |lines[place.line]|
      && whole == Closed(Offset(lines, place.line) + place.pos)
    else !whole.Closed?
  }

  lemma CloseIsSearch(lines: seq<string>, n: nat, pos: nat)
    requires n < |lines| && pos < |lines[n]|
    ensures IsOpen(lines[n][pos]) ==> Close(lines, n, pos) == CloseLines(lines, n, pos, [])
    ensures IsClose(lines[n][pos]) ==> ReverseClose(lines, n, pos) == OpenLines(lines, n, pos, [])
  {}

  /** One scan of the joined text from position pos of line n. */
  function ScanForward(lines: seq<string>, n: nat, pos: nat): Scan
    requires n < |lines| && pos < |lines[n]|
  { Forward(Join(lines), Offset(lines, n) + pos, []) }

  function RunForward(lines: seq<string>, n: nat, pos: nat): Scan
    requires n < |lines| && pos < |lines[n]|
  { Shift(Run(From(lines, n, pos), []), Offset(lines, n) + pos) }

  lemma CloseLinesEnd(lines: seq<string>, n: nat, pos: nat)
    requires Plain(lines) && n < |lines| && pos < |lines[n]| && IsOpen(lines[n][pos])
    ensures SameEnd(lines, Close(lines, n, pos), RunForward(lines, n, pos))
  {
    CloseIsSearch(lines, n, pos);
    CloseLinesIsRun(lines, n, pos, []);
    PlaceOfShift(lines, n, CloseLines(lines, n, pos, []), Run(From(lines, n, pos), []), Offset(lines, n) + pos);
  }

  /** Where the line-by-line search ends is where one scan of the joined text ends. */
  lemma CloseIsOneScan(lines: seq<string>, n: nat, pos: nat)
    requires Plain(lines) && n < |lines| && pos < |lines[n]| && IsOpen(lines[n][pos])
    ensures SameEnd(lines, Close(lines, n, pos), ScanForward(lines, n, pos))
  {
    CloseLinesEnd(lines, n, pos);
    ForwardOfJoin(lines, n, pos);
  }

  lemma PlaceOfShift(lines: seq<string>, n: nat, place: Place, r: Scan, start: nat)
    requires FoundForward(lines, n, place, r, start)
    ensures SameEnd(lines, place, Shift(r, start))
  {}

  lemma ForwardOfJoin(lines: seq<string>, n: nat, pos: nat)
    requires Plain(lines) && n < |lines| && pos < |lines[n]|
    ensures ScanForward(lines, n, pos) == RunForward(lines, n, pos)
  {
    FromIs(lines, n, pos);
    JoinPlain(lines);
    ForwardIsRun(Join(lines), Offset(lines, n) + pos, []);
  }

  // ---- backward ----

  /** The lines up to and with position i of line n, as one text. */
  function UpTo(lines: seq<string>, n: nat, i: int): string
    requires n < |lines| && -1 <= i < |lines[n]|
  { Join(lines[..n]) + lines[n][..i + 1] }

  /** The place is where the backward scan of the text up to end ends, on line n or an earlier one. */
  predicate FoundBackward(lines: seq<string>, n: nat, place: Place, r: Scan, end: nat) {
    if place.At? then
      && place.line <= n && place.line < |lines| && place.pos < |lines[place.line]|
      && Offset(lines, place.line) + place.pos < end && r == Closed(end - (Offset(lines, place.line) + place.pos))
    else !r.Closed?
  }

  lemma FoundEarlier(lines: seq<string>, n: nat, place: Place, r: Scan, end: nat, len: nat)
    requires n > 0 && FoundBackward(lines, n - 1, place, r, end)
    ensures FoundBackward(lines, n, place, Shift(r, len), end + len)
  {}

  lemma OpenLinesStep(lines: seq<string>, n: nat, i: int, stack: seq<char>, r: Scan)
    requires Plain(lines) && NoAngles(stack) && n < |lines| && -1 <= i < |lines[n]|
    requires r == Run(Mirror(lines[n][..i + 1]), Swapped(stack))
    ensures r.Closed? ==> 1 <= r.pos <= i + 1
    ensures OpenLines(lines, n, i, stack) ==
            if r.Closed? then At(n, i + 1 - r.pos)
            else if r.Open? && r.stack != [] && n > 0 then OpenLines(lines, n - 1, |lines[n - 1]| - 1, Swapped(r.stack))
            else Nowhere(n)
  {
    BackwardIsRun(lines[n], i, stack);
    RunEnds(Mirror(lines[n][..i + 1]), Swapped(stack));
  }

  lemma UpToStep(lines: seq<string>, n: nat, i: int, stack: seq<char>, r: Scan)
    requires n < |lines| && -1 <= i < |lines[n]| && r == Run(Mirror(lines[n][..i + 1]), stack)
    ensures Run(Mirror(UpTo(lines, n, i)), stack) ==
            if !r.Open? then r
            else Shift(if n > 0 then Run(Mirror(UpTo(lines, n - 1, |lines[n - 1]| - 1)), r.stack) else r, i + 1)
  {
    MirrorConcat(Join(lines[..n]), lines[n][..i + 1]);
    RunConcat(Mirror(lines[n][..i + 1]), Mirror(Join(lines[..n])), stack);
    if n > 0 { PreviousLine(lines, n); } else { assert Mirror(Join(lines[..n])) == ""; }
  }

  /** On the mirrored line the stack stays open, and free of angle brackets. */
  lemma MirrorStaysOpen(line: string, i: int, stack: seq<char>)
    requires NoAngles(line) && NoAngles(stack) && -1 <= i < |line|
    requires stack != [] || (i >= 0 && IsClose(line[i]))
    ensures var r := Run(Mirror(line[..i + 1]), Swapped(stack));
            r.Open? ==> r.stack != [] && NoAngles(Swapped(r.stack)) && Swapped(Swapped(r.stack)) == r.stack
  {
    var a := Mirror(line[..i + 1]);
    if i >= 0 { assert a[0] == Swap(line[i]); }
    StaysOpen(a, Swapped(stack));
    RunEnds(a, Swapped(stack));
    var r := Run(a, Swapped(stack));
    if r.Open? {
      assert NoAngles(a) && NoAngles(r.stack);
      assert Swapped(Swapped(r.stack)) == r.stack;
    }
  }

  lemma {:induction false} OpenLinesIsRun(lines: seq<string>, n: nat, i: int, stack: seq<char>)
    requires Plain(lines) && NoAngles(stack) && n < |lines| && -1 <= i < |lines[n]|
    requires stack != [] || (i >= 0 && IsClose(lines[n][i]))
    ensures FoundBackward(lines, n, OpenLines(lines, n, i, stack), Run(Mirror(UpTo(lines, n, i)), Swapped(stack)),
                          Offset(lines, n) + i + 1)
    decreases n
  {
    var r := Run(Mirror(lines[n][..i + 1]), Swapped(stack));
    OpenLinesStep(lines, n, i, stack, r);
    UpToStep(lines, n, i, Swapped(stack), r);
    MirrorStaysOpen(lines[n], i, stack);
    if r.Open? && n > 0 {
      var k := |lines[n - 1]| - 1;
      OpenLinesIsRun(lines, n - 1, k, Swapped(r.stack));
      FoundEarlier(lines, n, OpenLines(lines, n - 1, k, Swapped(r.stack)), Run(Mirror(UpTo(lines, n - 1, k)), r.stack),
                   Offset(lines, n), i + 1);
    }
  }

  lemma PreviousLine(lines: seq<string>, n: nat)
    requires 0 < n < |lines|
    ensures Join(lines[..n]) == UpTo(lines, n - 1, |lines[n - 1]| - 1)
  {
    JoinSnoc(lines[..n - 1], lines[n - 1]);
    assert lines[..n - 1] + [lines[n - 1]] == lines[..n];
    assert lines[n - 1][..|lines[n - 1]|] == lines[n - 1];
  }

  lemma PrefixOfJoin(lines: seq<string>, n: nat, i: int)
    requires n < |lines| && -1 <= i < |lines[n]|
    ensures Offset(lines, n) + i < |Join(lines)| && Join(lines)[..Offset(lines, n) + i + 1] == UpTo(lines, n, i)
  {
    JoinAround(lines, n);
    Head(Join(lines[..n]), lines[n], Join(lines[n + 1..]), i);
  }

  lemma Head(a: string, b: string, c: string, i: int)
    requires -1 <= i < |b|
    ensures |a| + i < |a + b + c| && (a + b + c)[..|a| + i + 1] == a + b[..i + 1]
  {}

  /** One backward scan of the joined text from position pos of line n. */
  function ScanBackward(lines: seq<string>, n: nat, pos: nat): Scan
    requires n < |lines| && pos < |lines[n]|
  {
    PrefixOfJoin(lines, n, pos);
    Backward(Join(lines), Offset(lines, n) + pos, [])
  }

  function RunBackward(lines: seq<string>, n: nat, pos: nat): Scan
    requires n < |lines| && pos < |lines[n]|
  { Reflect(Run(Mirror(UpTo(lines, n, pos)), Swapped([])), Offset(lines, n) + pos + 1) }

  lemma BackwardOfJoin(lines: seq<string>, n: nat, pos: nat)
    requires Plain(lines) && n < |lines| && pos < |lines[n]|
    ensures ScanBackward(lines, n, pos) == RunBackward(lines, n, pos)
  {
    PrefixOfJoin(lines, n, pos);
    JoinPlain(lines);
    BackwardIsRun(Join(lines), Offset(lines, n) + pos, []);
  }

  lemma OpenLinesEnd(lines: seq<string>, n: nat, pos: nat)
    requires Plain(lines) && n < |lines| && pos < |lines[n]| && IsClose(lines[n][pos])
    ensures SameEnd(lines, ReverseClose(lines, n, pos), RunBackward(lines, n, pos))
  {
    CloseIsSearch(lines, n, pos);
    OpenLinesIsRun(lines, n, pos, []);
    PlaceOfRun(lines, n, OpenLines(lines, n, pos, []), Run(Mirror(UpTo(lines, n, pos)), Swapped([])),
               Offset(lines, n) + pos + 1);
  }

  /** The opening search over lines is one backward scan of the joined text. */
  lemma ReverseCloseIsOneScan(lines: seq<string>, n: nat, pos: nat)
    requires Plain(lines) && n < |lines| && pos < |lines[n]| && IsClose(lines[n][pos])
    ensures SameEnd(lines, ReverseClose(lines, n, pos), ScanBackward(lines, n, pos))
  {
    OpenLinesEnd(lines, n, pos);
    BackwardOfJoin(lines, n, pos);
  }

  lemma PlaceOfRun(lines: seq<string>, n: nat, place: Place, r: Scan, end: nat)
    requires FoundBackward(lines, n, place, r, end)
    ensures SameEnd(lines, place, Reflect(r, end))
  {}

  // ---- the two are inverses ----

  predicate ClosesAt(r: Scan, end: int) { r.Closed? && r.pos == end }

  lemma FromIs(lines: seq<string>, n: nat, p: nat)
    requires n < |lines| && p < |lines[n]|
    ensures Offset(lines, n) + p < |Join(lines)| && Join(lines)[Offset(lines, n) + p] == lines[n][p]
    ensures Join(lines)[Offset(lines, n) + p..] == From(lines, n, p)
  {
    JoinAround(lines, n);
    Middle(Join(lines[..n]), lines[n], Join(lines[n + 1..]), p);
  }

  lemma Middle(a: string, b: string, c: string, i: nat)
    requires i < |b|
    ensures |a| + i < |a + b + c| && (a + b + c)[|a| + i] == b[i] && (a + b + c)[|a| + i..] == b[i..] + c
  {}

  /** Without angle brackets, only an opening bracket starts a search forward, and a closing one a search back. */
  lemma SearchStarts(lines: seq<string>, n: nat, p: nat)
    requires Plain(lines) && n < |lines| && p < |lines[n]|
    ensures !IsOpen(lines[n][p]) ==> Close(lines, n, p) == Nowhere(n)
    ensures !IsClose(lines[n][p]) ==> ReverseClose(lines, n, p) == Nowhere(n)
  {
    assert lines[n][p] != '<' && lines[n][p] != '>';
  }

  lemma FoundIs(lines: seq<string>, n: nat, place: Place, r: Scan, start: nat, m: nat, q: nat)
    requires FoundForward(lines, n, place, r, start) && m < |lines| && q < |lines[m]|
    ensures place == At(m, q + 1) <==> ClosesAt(r, Offset(lines, m) + q + 1 - start)
  {
    if place.At? && Offset(lines, place.line) + place.pos == Offset(lines, m) + q + 1 {
      PlaceUnique(lines, place.line, place.pos - 1, m, q);
    }
  }

  lemma FoundBackIs(lines: seq<string>, n: nat, place: Place, r: Scan, end: nat, m: nat, q: nat)
    requires FoundBackward(lines, n, place, r, end) && m < |lines| && q < |lines[m]|
    ensures place == At(m, q) <==> ClosesAt(r, end - (Offset(lines, m) + q))
  {
    if place.At? && Offset(lines, place.line) + place.pos == Offset(lines, m) + q {
      PlaceUnique(lines, place.line, place.pos, m, q);
    }
  }

  /** (n, p) and (m, q) are positions of the lines. */
  predicate Positions(lines: seq<string>, n: nat, p: nat, m: nat, q: nat) {
    n < |lines| && p < |lines[n]| && m < |lines| && q < |lines[m]|
  }

  /** At (n, p) is an opening bracket, and the run of the joined text from there closes at (m, q). */
  predicate RunCloses(lines: seq<string>, n: nat, p: nat, m: nat, q: nat)
    requires Positions(lines, n, p, m, q)
  {
    IsOpen(lines[n][p]) && ClosesAt(Run(From(lines, n, p), []), Offset(lines, m) + q + 1 - (Offset(lines, n) + p))
  }

  /** At (m, q) is a closing bracket, and the run of the mirrored text from there closes at (n, p). */
  predicate RunOpens(lines: seq<string>, n: nat, p: nat, m: nat, q: nat)
    requires Positions(lines, n, p, m, q)
  {
    && IsClose(lines[m][q])
    && ClosesAt(Run(Mirror(UpTo(lines, m, q)), []), Offset(lines, m) + q + 1 - (Offset(lines, n) + p))
  }

  /** The closing search ends just past (m, q) exactly when the run of the joined text from (n, p) closes there. */
  lemma CloseLands(lines: seq<string>, n: nat, p: nat, m: nat, q: nat)
    requires Plain(lines) && Positions(lines, n, p, m, q)
    ensures Close(lines, n, p) == At(m, q + 1) <==> RunCloses(lines, n, p, m, q)
  {
    SearchStarts(lines, n, p);
    CloseIsSearch(lines, n, p);
    if IsOpen(lines[n][p]) {
      CloseLinesIsRun(lines, n, p, []);
      FoundIs(lines, n, CloseLines(lines, n, p, []), Run(From(lines, n, p), []), Offset(lines, n) + p, m, q);
    }
  }

  lemma ReverseCloseLands(lines: seq<string>, n: nat, p: nat, m: nat, q: nat)
    requires Plain(lines) && Positions(lines, n, p, m, q)
    ensures ReverseClose(lines, m, q) == At(n, p) <==> RunOpens(lines, n, p, m, q)
  {
    SearchStarts(lines, m, q);
    CloseIsSearch(lines, m, q);
    if IsClose(lines[m][q]) {
      OpenLinesIsRun(lines, m, q, []);
      assert Swapped([]) == [];
      FoundBackIs(lines, m, OpenLines(lines, m, q, []), Run(Mirror(UpTo(lines, m, q)), []), Offset(lines, m) + q + 1, n,
                  p);
    }
  }

  lemma EndsOfBracketWord(t: string)
    ensures BracketWord(t) ==> |t| > 0 && IsOpen(t[0]) && IsClose(t[|t| - 1])
  {}

  /** The text from one position to another is one bracketed word. */
  ghost predicate WordBetween(t: string, from: int, to: int) { 0 <= from <= to < |t| && BracketWord(t[from..to + 1]) }

  /** A piece of text is a bracketed word exactly when a run of the text from its start closes at its end. */
  lemma RunToWord(t: string, from: nat, to: nat)
    requires from < |t| && to < |t|
    ensures IsOpen(t[from]) && ClosesAt(Run(t[from..], []), to + 1 - from) <==> WordBetween(t, from, to)
  {
    RunEnds(t[from..], []);
    if from <= to {
      EndsOfBracketWord(t[from..to + 1]);
      assert t[from..][..to + 1 - from] == t[from..to + 1];
      if IsOpen(t[from]) { RunIsBracketWord(t[from..], to + 1 - from); }
    }
  }

  lemma MirrorRunToWord(t: string, from: nat, to: nat)
    requires from < |t| && to < |t|
    ensures IsClose(t[to]) && ClosesAt(Run(Mirror(t[..to + 1]), []), to + 1 - from) <==> WordBetween(t, from, to)
  {
    var m := Mirror(t[..to + 1]);
    RunEnds(m, []);
    if from <= to {
      EndsOfBracketWord(t[from..to + 1]);
      assert m[..to + 1 - from] == Mirror(t[from..to + 1]);
      MirrorBracketWord(t[from..to + 1]);
      if IsClose(t[to]) { RunIsBracketWord(m, to + 1 - from); }
    }
  }

  /** The text of the lines from (n, p) to (m, q) is one bracketed word. */
  ghost predicate IsWord(lines: seq<string>, n: nat, p: nat, m: nat, q: nat)
    requires Positions(lines, n, p, m, q)
  {
    WordBetween(Join(lines), Offset(lines, n) + p, Offset(lines, m) + q)
  }

  lemma RunClosesIsWord(lines: seq<string>, n: nat, p: nat, m: nat, q: nat)
    requires Positions(lines, n, p, m, q)
    ensures RunCloses(lines, n, p, m, q) <==> IsWord(lines, n, p, m, q)
  {
    FromIs(lines, n, p);
    FromIs(lines, m, q);
    RunToWord(Join(lines), Offset(lines, n) + p, Offset(lines, m) + q);
  }

  lemma RunOpensIsWord(lines: seq<string>, n: nat, p: nat, m: nat, q: nat)
    requires Positions(lines, n, p, m, q)
    ensures RunOpens(lines, n, p, m, q) <==> IsWord(lines, n, p, m, q)
  {
    FromIs(lines, n, p);
    FromIs(lines, m, q);
    PrefixOfJoin(lines, m, q);
    WordOfMirrorRun(Join(lines), Offset(lines, n) + p, Offset(lines, m) + q, UpTo(lines, m, q), lines[m][q]);
  }

  lemma WordOfMirrorRun(t: string, from: nat, to: nat, head: string, c: char)
    requires from < |t| && to < |t| && head == t[..to + 1] && c == t[to]
    ensures IsClose(c) && ClosesAt(Run(Mirror(head), []), to + 1 - from) <==> WordBetween(t, from, to)
  {
    MirrorRunToWord(t, from, to);
  }

  /**
   * On lines without angle brackets: from (n, p) the closing search ends just past (m, q) exactly when the text
   * between them is one bracketed word.
   */
  lemma CloseIsBracketWord(lines: seq<string>, n: nat, p: nat, m: nat, q: nat)
    requires Plain(lines) && Positions(lines, n, p, m, q)
    ensures Close(lines, n, p) == At(m, q + 1) <==> IsWord(lines, n, p, m, q)
  {
    CloseLands(lines, n, p, m, q);
    RunClosesIsWord(lines, n, p, m, q);
  }

  /** The same for the opening search from (m, q). */
  lemma ReverseCloseIsBracketWord(lines: seq<string>, n: nat, p: nat, m: nat, q: nat)
    requires Plain(lines) && Positions(lines, n, p, m, q)
    ensures ReverseClose(lines, m, q) == At(n, p) <==> IsWord(lines, n, p, m, q)
  {
    ReverseCloseLands(lines, n, p, m, q);
    RunOpensIsWord(lines, n, p, m, q);
  }

  /** Without angle brackets the two searches undo each other. */
  lemma CloseAndReverseAreInverse(lines: seq<string>, n: nat, p: nat, m: nat, q: nat)
    requires Plain(lines) && Positions(lines, n, p, m, q)
    ensures Close(lines, n, p) == At(m, q + 1) <==> ReverseClose(lines, m, q) == At(n, p)
  {
    CloseIsBracketWord(lines, n, p, m, q);
    ReverseCloseIsBracketWord(lines, n, p, m, q);
  }
}
