/** What the bracket matchers decide on text without angle brackets: balanced words, the same both ways. */
module BracketWords {
  import opened Brackets

  // ---- words ----

  /** A balanced text: other characters, and bracketed groups of balanced text. */
  datatype Word = Empty | Plain(c: char, rest: Word) | Group(open: char, inner: Word, rest: Word)

  predicate Ok(w: Word) {
    match w
    case Empty => true
    case Plain(c, rest) => !IsOpen(c) && !IsClose(c) && Ok(rest)
    case Group(o, inner, rest) => IsOpen(o) && Ok(inner) && Ok(rest)
  }

  /** The other bracket of the pair; every other character is its own. */
  function Swap(c: char): (d: char)
    ensures IsOpen(c) <==> IsClose(d)
    ensures IsClose(c) <==> IsOpen(d)
    ensures IsOpen(c) ==> Pairs(c, d)
  {
    match c
    case '(' => ')'
    case ')' => '('
    case '[' => ']'
    case ']' => '['
    case '{' => '}'
    case '}' => '{'
    case _ => c
  }

  function Text(w: Word): string {
    match w
    case Empty => ""
    case Plain(c, rest) => [c] + Text(rest)
    case Group(o, inner, rest) => [o] + Text(inner) + [Swap(o)] + Text(rest)
  }

  function Wrap(o: char, w: Word): string { [o] + Text(w) + [Swap(o)] }

  /** t is one bracketed group. */
  ghost predicate BracketWord(t: string) {
    exists w: Word :: Ok(w) && |t| > 0 && IsOpen(t[0]) && t == Wrap(t[0], w)
  }

  // ---- the scan without angle brackets ----

  predicate NoAngles(t: seq<char>) { forall k :: 0 <= k < |t| ==> t[k] != '<' && t[k] != '>' }

  function Next(c: char, stack: seq<char>): Scan {
    if IsOpen(c) then Open(stack + [c])
    else if IsClose(c) then if |stack| > 0 && Pairs(Last(stack), c) then Pop(stack, 1) else Failed
    else if c == ';' && stack == [] then Failed
    else Open(stack)
  }

  function Shift(r: Scan, n: nat): Scan {
    match r
    case Closed(p) => Closed(p + n)
    case _ => r
  }

  function Run(t: string, stack: seq<char>): Scan {
    if t == "" then Open(stack)
    else match Next(t[0], stack)
      case Open(s) => Shift(Run(t[1..], s), 1)
      case r => r
  }

  lemma {:induction false} ForwardIsRun(line: string, i: nat, stack: seq<char>)
    requires i <= |line| && NoAngles(line) && NoAngles(stack)
    ensures Forward(line, i, stack) == Shift(Run(line[i..], stack), i)
    decreases |line| - i
  {
    if i < |line| {
      assert Drop(stack, '<') == stack;
      var r := Next(line[i], stack);
      assert r.Open? ==> NoAngles(r.stack);
      assert StepForward(line, i, stack) == Shift(r, i);
      if r.Open? {
        ForwardIsRun(line, i + 1, r.stack);
        assert line[i..][1..] == line[i + 1..];
      }
    }
  }

  /** The text read from the other end with the brackets swapped. */
  function Mirror(t: string): (m: string)
    ensures |m| == |t|
    ensures forall k :: 0 <= k < |t| ==> m[k] == Swap(t[|t| - 1 - k])
  {
    seq(|t|, k requires 0 <= k < |t| => Swap(t[|t| - 1 - k]))
  }

  function Swapped(s: seq<char>): (m: seq<char>)
    ensures |m| == |s|
    ensures forall k :: 0 <= k < |s| ==> m[k] == Swap(s[k])
  {
    seq(|s|, k requires 0 <= k < |s| => Swap(s[k]))
  }

  /** What a scan of the mirrored text says about the text itself, up to position n. */
  function Reflect(r: Scan, n: nat): Scan {
    match r
    case Closed(e) => if e <= n then Closed(n - e) else Failed
    case Failed => Failed
    case Open(s) => Open(Swapped(s))
  }

  lemma {:induction false} RunEnds(t: string, stack: seq<char>)
    ensures Run(t, stack).Closed? ==> 1 <= Run(t, stack).pos <= |t|
    ensures NoAngles(t) && NoAngles(stack) && Run(t, stack).Open? ==> NoAngles(Run(t, stack).stack)
    ensures Run(t, stack).Open? && stack != [] ==> Run(t, stack).stack != []
    decreases |t|
  {
    if t != "" && Next(t[0], stack).Open? { RunEnds(t[1..], Next(t[0], stack).stack); }
  }

  lemma BackwardStep(line: string, i: nat, stack: seq<char>)
    requires i < |line| && NoAngles(line) && NoAngles(stack)
    ensures StepBackward(line, i, stack) == (Reflect(Next(Swap(line[i]), Swapped(stack)), i + 1), i - 1)
    ensures StepBackward(line, i, stack).0.Open? ==> NoAngles(StepBackward(line, i, stack).0.stack)
  {
    assert Drop(stack, '>') == stack;
    var r := Next(Swap(line[i]), Swapped(stack));
    if r.Open? {
      assert StepBackward(line, i, stack).0.stack == Swapped(r.stack);
    }
  }

  lemma {:induction false} BackwardIsRun(line: string, i: int, stack: seq<char>)
    requires -1 <= i < |line| && NoAngles(line) && NoAngles(stack)
    ensures Backward(line, i, stack) == Reflect(Run(Mirror(line[..i + 1]), Swapped(stack)), i + 1)
    decreases i
  {
    assert Swapped(Swapped(stack)) == stack;
    if i >= 0 {
      var m := Mirror(line[..i + 1]);
      BackwardStep(line, i, stack);
      assert m[0] == Swap(line[i]) && m[1..] == Mirror(line[..i]);
      var r := Next(m[0], Swapped(stack));
      if r.Open? {
        BackwardIsRun(line, i - 1, Swapped(r.stack));
        assert Swapped(Swapped(r.stack)) == r.stack;
        RunEnds(m[1..], r.stack);
      }
    }
  }

  // ---- scanning decides bracketed words ----

  lemma {:induction false} RunConcat(a: string, b: string, stack: seq<char>)
    ensures Run(a + b, stack) == match Run(a, stack) case Open(s) => Shift(Run(b, s), |a|) case r => r
    decreases |a|
  {
    if a == "" {
      assert a + b == b;
    } else {
      assert (a + b)[1..] == a[1..] + b;
      var r := Next(a[0], stack);
      if r.Open? { RunConcat(a[1..], b, r.stack); }
    }
  }

  lemma RunCons(c: char, t: string, stack: seq<char>)
    ensures var r := Next(c, stack); Run([c] + t, stack) == if r.Open? then Shift(Run(t, r.stack), 1) else r
  {
    assert ([c] + t)[1..] == t;
  }

  lemma RunOpen(o: char, t: string, stack: seq<char>)
    requires IsOpen(o)
    ensures Run([o] + t, stack) == Shift(Run(t, stack + [o]), 1)
  {
    RunCons(o, t, stack);
  }

  lemma RunClose(o: char, t: string, stack: seq<char>)
    requires IsOpen(o)
    ensures Run([Swap(o)] + t, stack + [o]) == if stack == [] then Closed(1) else Shift(Run(t, stack), 1)
  {
    RunCons(Swap(o), t, stack + [o]);
    assert Init(stack + [o]) == stack;
  }

  /** A text that leaves the stack alone, between brackets. */
  lemma RunBetween(o: char, a: string, b: string, stack: seq<char>)
    requires IsOpen(o) && Run(a, stack + [o]) == Open(stack + [o])
    ensures Run([o] + a + [Swap(o)] + b, stack) ==
            if stack == [] then Closed(|a| + 2) else Shift(Run(b, stack), |a| + 2)
  {
    var tail := [Swap(o)] + b;
    RunClose(o, b, stack);
    RunConcat(a, tail, stack + [o]);
    RunOpen(o, a + tail, stack);
    assert [o] + a + [Swap(o)] + b == [o] + (a + tail);
  }

  /** A balanced word leaves a nonempty stack as it was. */
  lemma {:induction false} RunWord(w: Word, stack: seq<char>)
    requires Ok(w) && stack != []
    ensures Run(Text(w), stack) == Open(stack)
    decreases w
  {
    match w
    case Empty =>
    case Plain(c, rest) =>
      RunWord(rest, stack);
      RunCons(c, Text(rest), stack);
    case Group(o, inner, rest) =>
      RunWord(inner, stack + [o]);
      RunWord(rest, stack);
      RunBetween(o, Text(inner), Text(rest), stack);
  }

  lemma RunGroup(o: char, w: Word, rest: string)
    requires IsOpen(o) && Ok(w)
    ensures Run(Wrap(o, w) + rest, []) == Closed(|Wrap(o, w)|)
  {
    assert [] + [o] == [o];
    RunWord(w, [o]);
    RunBetween(o, Text(w), rest, []);
  }

  /** Text that closes every bracket on the stack, from the top: balanced text and the closing bracket, for each. */
  function CloseText(ws: seq<Word>, stack: seq<char>): string
    requires |ws| == |stack|
  {
    if ws == [] then "" else Text(ws[0]) + [Swap(Last(stack))] + CloseText(ws[1..], Init(stack))
  }

  predicate AllOk(ws: seq<Word>) { forall k :: 0 <= k < |ws| ==> Ok(ws[k]) }

  lemma CloseTextCons(w: Word, ws: seq<Word>, stack: seq<char>, o: char)
    requires |ws| == |stack|
    ensures CloseText([w] + ws, stack + [o]) == Text(w) + [Swap(o)] + CloseText(ws, stack)
  {
    assert ([w] + ws)[1..] == ws && Init(stack + [o]) == stack;
  }

  lemma Assoc(c: char, a: string, b: string)
    ensures ([c] + a) + b == [c] + (a + b)
  {}

  /** One more character in front, of no bracket. */
  lemma ClosePlain(c: char, w: Word, ws: seq<Word>, stack: seq<char>, o: char)
    requires |ws| == |stack|
    ensures CloseText([Plain(c, w)] + ws, stack + [o]) == [c] + CloseText([w] + ws, stack + [o])
  {
    CloseTextCons(w, ws, stack, o);
    CloseTextCons(Plain(c, w), ws, stack, o);
    Assoc(c, Text(w), [Swap(o)] + CloseText(ws, stack));
  }

  /** An opening bracket in front: the first two words are inside it and behind it. */
  lemma CloseOpen(c: char, w: Word, v: Word, ws: seq<Word>, stack: seq<char>, o: char)
    requires |ws| == |stack|
    ensures CloseText([Group(c, w, v)] + ws, stack + [o]) == [c] + CloseText([w] + ([v] + ws), (stack + [o]) + [c])
  {
    CloseTextCons(w, [v] + ws, stack + [o], c);
    CloseTextCons(v, ws, stack, o);
    CloseTextCons(Group(c, w, v), ws, stack, o);
    Grouped(c, Text(w), Swap(c), Text(v), [Swap(o)], CloseText(ws, stack));
  }

  lemma Grouped(c: char, a: string, d: char, b: string, e: string, rest: string)
    ensures ([c] + a + [d] + b) + e + rest == [c] + (a + [d] + (b + e + rest))
  {}

  lemma Parts(s: seq<char>)
    requires |s| > 0
    ensures s == Init(s) + [Last(s)]
  {}

  lemma FirstWord(ws: seq<Word>) returns (w: Word, rest: seq<Word>)
    requires |ws| > 0 && AllOk(ws)
    ensures ws == [w] + rest && Ok(w) && AllOk(rest)
  {
    w, rest := ws[0], ws[1..];
  }

  lemma OkCons(w: Word, ws: seq<Word>)
    requires Ok(w) && AllOk(ws)
    ensures AllOk([w] + ws)
  {}

  /** What a scan does with the first character. */
  lemma RunFirst(c: char, u: string, stack: seq<char>, o: char)
    ensures Run([c] + u, stack + [o]) ==
            if IsOpen(c) then Shift(Run(u, (stack + [o]) + [c]), 1)
            else if IsClose(c) then
              if Swap(o) == c && IsOpen(o) then (if stack == [] then Closed(1) else Shift(Run(u, stack), 1)) else Failed
            else Shift(Run(u, stack + [o]), 1)
  {
    RunCons(c, u, stack + [o]);
    assert Init(stack + [o]) == stack;
  }

  /** A scan that closes has read the closing text of the stack. */
  lemma {:induction false} RunCloses(t: string, stack: seq<char>, o: char) returns (ws: seq<Word>)
    requires Run(t, stack + [o]).Closed?
    ensures |ws| == |stack| + 1 && AllOk(ws)
    ensures Run(t, stack + [o]).pos <= |t| && t[..Run(t, stack + [o]).pos] == CloseText(ws, stack + [o])
    decreases |t|
  {
    RunEnds(t, stack + [o]);
    var c, u, e := t[0], t[1..], Run(t, stack + [o]).pos;
    assert t == [c] + u && t[..e] == [c] + u[..e - 1];
    RunFirst(c, u, stack, o);
    if IsOpen(c) {
      var ws' := RunCloses(u, stack + [o], c);
      var w, rest := FirstWord(ws');
      var v, more := FirstWord(rest);
      ws := [Group(c, w, v)] + more;
      OkCons(Group(c, w, v), more);
      CloseOpen(c, w, v, more, stack, o);
    } else if IsClose(c) {
      var more := [];
      if stack != [] {
        Parts(stack);
        more := RunCloses(u, Init(stack), Last(stack));
      }
      ws := [Empty] + more;
      OkCons(Empty, more);
      CloseTextCons(Empty, more, stack, o);
    } else {
      var ws' := RunCloses(u, stack, o);
      var w, rest := FirstWord(ws');
      ws := [Plain(c, w)] + rest;
      OkCons(Plain(c, w), rest);
      ClosePlain(c, w, rest, stack, o);
    }
  }

  lemma IsBracketWord(t: string, w: Word)
    requires |t| > 0 && IsOpen(t[0]) && Ok(w) && t == Wrap(t[0], w)
    ensures BracketWord(t)
  {}

  /** The first e characters are one bracketed word. */
  ghost predicate BeginsWithWord(t: string, e: nat) { e <= |t| && BracketWord(t[..e]) }

  /** Scanning from an opening bracket closes just past e characters exactly when they are one bracketed word. */
  lemma RunIsBracketWord(t: string, e: nat)
    requires |t| > 0 && IsOpen(t[0])
    ensures Run(t, []) == Closed(e) <==> BeginsWithWord(t, e)
  {
    if BeginsWithWord(t, e) { WordRuns(t, e); }
    if Run(t, []) == Closed(e) { RunFindsWord(t, e); }
  }

  lemma WordRuns(t: string, e: nat)
    requires |t| > 0 && BeginsWithWord(t, e)
    ensures Run(t, []) == Closed(e)
  {
    var w: Word :| Ok(w) && IsOpen(t[..e][0]) && t[..e] == Wrap(t[0], w);
    RunGroup(t[0], w, t[e..]);
    assert t == Wrap(t[0], w) + t[e..];
  }

  lemma RunFindsWord(t: string, e: nat)
    requires |t| > 0 && IsOpen(t[0]) && Run(t, []) == Closed(e)
    ensures BeginsWithWord(t, e)
  {
    var o, u := t[0], t[1..];
    assert t == [o] + u && [] + [o] == [o];
    RunOpen(o, u, []);
    var ws := RunCloses(u, [], o);
    CloseOne(ws, o);
    assert t[..e] == [o] + u[..e - 1];
    IsBracketWord(t[..e], ws[0]);
  }

  lemma CloseOne(ws: seq<Word>, o: char)
    requires |ws| == 1
    ensures [o] + CloseText(ws, [] + [o]) == Wrap(o, ws[0])
  {
    CloseTextCons(ws[0], [], [], o);
    assert [ws[0]] + [] == ws;
  }

  // ---- mirrored words ----

  lemma AssocGroup(a: string, b: string, c: string)
    ensures (a + b) + c == a + (b + c)
  {}

  function Append(a: Word, b: Word): Word {
    match a
    case Empty => b
    case Plain(c, rest) => Plain(c, Append(rest, b))
    case Group(o, inner, rest) => Group(o, inner, Append(rest, b))
  }

  lemma {:induction false} AppendText(a: Word, b: Word)
    requires Ok(a) && Ok(b)
    ensures Ok(Append(a, b)) && Text(Append(a, b)) == Text(a) + Text(b)
  {
    match a
    case Empty =>
    case Plain(c, rest) =>
      AppendText(rest, b);
      Assoc(c, Text(rest), Text(b));
    case Group(o, inner, rest) =>
      AppendText(rest, b);
      AssocGroup([o] + Text(inner) + [Swap(o)], Text(rest), Text(b));
  }

  function MirrorWord(w: Word): Word {
    match w
    case Empty => Empty
    case Plain(c, rest) => Append(MirrorWord(rest), Plain(c, Empty))
    case Group(o, inner, rest) => Append(MirrorWord(rest), Group(o, MirrorWord(inner), Empty))
  }

  lemma MirrorConcat(a: string, b: string)
    ensures Mirror(a + b) == Mirror(b) + Mirror(a)
  {}

  lemma {:induction false} MirrorText(w: Word)
    requires Ok(w)
    ensures Ok(MirrorWord(w)) && Text(MirrorWord(w)) == Mirror(Text(w))
  {
    match w
    case Empty =>
    case Plain(c, rest) =>
      MirrorText(rest);
      AppendText(MirrorWord(rest), Plain(c, Empty));
      MirrorConcat([c], Text(rest));
      assert Text(Plain(c, Empty)) == [c] == Mirror([c]);
    case Group(o, inner, rest) =>
      MirrorText(rest);
      MirrorText(inner);
      var g := Group(o, MirrorWord(inner), Empty);
      AppendText(MirrorWord(rest), g);
      MirrorWrap(o, inner);
      assert Text(g) == Wrap(o, MirrorWord(inner));
      assert Text(w) == Wrap(o, inner) + Text(rest);
      MirrorConcat(Wrap(o, inner), Text(rest));
  }

  lemma MirrorWrap(o: char, w: Word)
    requires IsOpen(o) && Text(MirrorWord(w)) == Mirror(Text(w))
    ensures Mirror(Wrap(o, w)) == Wrap(o, MirrorWord(w))
  {
    MirrorConcat([o] + Text(w), [Swap(o)]);
    MirrorConcat([o], Text(w));
    assert Mirror([o]) == [Swap(o)] && Mirror([Swap(o)]) == [o];
  }

  lemma MirrorMirror(t: string)
    ensures Mirror(Mirror(t)) == t
  {
    forall k | 0 <= k < |t| ensures Swap(Swap(t[k])) == t[k] {}
  }

  lemma MirrorBracketWord(t: string)
    ensures BracketWord(Mirror(t)) <==> BracketWord(t)
  {
    MirrorMirror(t);
    if BracketWord(t) { OneWay(t); }
    if BracketWord(Mirror(t)) { OneWay(Mirror(t)); }
  }

  lemma OneWay(t: string)
    requires BracketWord(t)
    ensures BracketWord(Mirror(t))
  {
    var w: Word :| Ok(w) && |t| > 0 && IsOpen(t[0]) && t == Wrap(t[0], w);
    MirrorText(w);
    MirrorWrap(t[0], w);
    assert Mirror(t)[0] == t[0];
  }

  // ---- one text ----

  /**
   * On text without angle brackets, the forward scan from an opening bracket at p ends just past q exactly when
   * t[p..q] is one bracketed word, and exactly then the backward scan from q ends at p.
   */
  lemma ForwardIsWord(t: string, p: nat, q: nat)
    requires NoAngles(t) && p <= q < |t| && IsOpen(t[p])
    ensures Forward(t, p, []) == Closed(q + 1) <==> BracketWord(t[p..q + 1])
  {
    ForwardIsRun(t, p, []);
    RunIsBracketWord(t[p..], q + 1 - p);
    assert t[p..][..q + 1 - p] == t[p..q + 1];
  }

  lemma BackwardIsWord(t: string, p: nat, q: nat)
    requires NoAngles(t) && p <= q < |t| && IsClose(t[q])
    ensures Backward(t, q, []) == Closed(p) <==> BracketWord(t[p..q + 1])
  {
    BackwardIsRun(t, q, []);
    var m := Mirror(t[..q + 1]);
    assert Swapped([]) == [];
    RunIsBracketWord(m, q + 1 - p);
    RunEnds(m, []);
    assert m[..q + 1 - p] == Mirror(t[p..q + 1]);
    MirrorBracketWord(t[p..q + 1]);
  }
}
