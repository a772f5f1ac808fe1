/** Which lines the nesting stack takes for what: the tool's regular expressions as decompositions of the text. */
module LineForms {
  import opened Characters
  import opened NestingStates
  import opened Wrappers

  predicate AllSpace(s: string) { forall i :: 0 <= i < |s| ==> IsSpace(s[i]) }
  predicate AllWord(s: string) { forall i :: 0 <= i < |s| ==> IsWordChar(s[i]) }

  /** Nothing follows, or no white space. */
  predicate NoSpaceFirst(s: string) { s == "" || !IsSpace(s[0]) }

  /** A word ends before s. */
  predicate WordEnds(s: string) { s == "" || !IsWordChar(s[0]) }

  // ---- the scanning functions ----

  lemma {:induction false} StripOf(a: string, t: string)
    requires AllSpace(a) && NoSpaceFirst(t)
    ensures Strip(a + t) == t
  {
    if a == "" {
      assert a + t == t;
    } else {
      assert (a + t)[1..] == a[1..] + t;
      StripOf(a[1..], t);
    }
  }

  /** The white space that Strip takes off. */
  lemma {:induction false} StripFront(s: string) returns (a: string)
    ensures s == a + Strip(s) && AllSpace(a) && NoSpaceFirst(Strip(s))
    ensures a == "" <==> |Strip(s)| == |s|
  {
    if |s| > 0 && IsSpace(s[0]) {
      var b := StripFront(s[1..]);
      a := [s[0]] + b;
    } else {
      a := "";
    }
  }

  lemma {:induction false} WordOf(w: string, r: string)
    requires AllWord(w) && WordEnds(r)
    ensures Word(w + r) == w && AfterWord(w + r) == r
  {
    LengthOf(w, r);
    assert (w + r)[..|w|] == w && (w + r)[|w|..] == r;
  }

  lemma {:induction false} LengthOf(w: string, r: string)
    requires AllWord(w) && WordEnds(r)
    ensures WordLength(w + r, false) == |w|
  {
    if w == "" {
      assert w + r == r;
    } else {
      assert (w + r)[1..] == w[1..] + r;
      LengthOf(w[1..], r);
    }
  }

  lemma {:induction false} WordFront(s: string)
    ensures s == Word(s) + AfterWord(s) && AllWord(Word(s)) && WordEnds(AfterWord(s))
  {
    if |s| > 0 && IsWordChar(s[0]) {
      WordFront(s[1..]);
      assert Word(s) == [s[0]] + Word(s[1..]) && AfterWord(s) == AfterWord(s[1..]);
    }
  }

  lemma Head(s: string, h: string)
    requires |h| == 1 && |s| > 0 && s[0] == h[0]
    ensures s == h + s[1..]
  {}

  lemma Assoc(a: string, b: string, c: string)
    ensures a + (b + c) == a + b + c
  {}

  // ---- directives ----

  const IF_WORDS: seq<string> := ["if", "ifdef", "ifndef"]
  const ELSE_WORDS: seq<string> := ["else", "elif"]
  const ENDIF_WORDS: seq<string> := ["endif"]

  /** White space, #, white space, the word w, and then the end or a character that is no word character. */
  predicate DirectiveParts(text: string, a: string, b: string, w: string, r: string) {
    text == a + "#" + b + w + r && AllSpace(a) && AllSpace(b) && WordEnds(r)
  }

  /** The text is a directive with one of the words. */
  ghost predicate IsDirective(text: string, words: seq<string>) {
    exists a, b, w, r :: DirectiveParts(text, a, b, w, r) && w in words
  }

  /** The word of the directive, if the text is one. */
  function DirectiveWord(text: string): string {
    var s := Strip(text);
    if |s| == 0 || s[0] != '#' then "" else Word(Strip(s[1..]))
  }

  lemma WordOfParts(text: string, a: string, b: string, w: string, r: string)
    requires DirectiveParts(text, a, b, w, r) && AllWord(w) && w != ""
    ensures DirectiveWord(text) == w
  {
    var t := "#" + (b + (w + r));
    assert text == a + t;
    StripOf(a, t);
    assert t[1..] == b + (w + r);
    StripOf(b, w + r);
    WordOf(w, r);
  }

  lemma PartsOfWord(text: string) returns (a: string, b: string, r: string)
    requires DirectiveWord(text) != ""
    ensures DirectiveParts(text, a, b, DirectiveWord(text), r)
  {
    a := StripFront(text);
    var t := Strip(text)[1..];
    Head(Strip(text), "#");
    b := StripFront(t);
    r := AfterWord(Strip(t));
    WordFront(Strip(t));
    JoinParts(text, a, t, b, Strip(t), Word(Strip(t)), r);
  }

  lemma JoinParts(text: string, a: string, t: string, b: string, u: string, w: string, r: string)
    requires text == a + ("#" + t) && t == b + u && u == w + r
    ensures text == a + "#" + b + w + r
  {}

  predicate AreWords(words: seq<string>) { forall w :: w in words ==> w != "" && AllWord(w) }

  lemma DirectiveWordIff(text: string, words: seq<string>)
    requires AreWords(words)
    ensures IsDirective(text, words) <==> DirectiveWord(text) in words
  {
    if IsDirective(text, words) {
      var a, b, w, r :| DirectiveParts(text, a, b, w, r) && w in words;
      WordOfParts(text, a, b, w, r);
    }
    if DirectiveWord(text) in words {
      var a, b, r := PartsOfWord(text);
      assert DirectiveParts(text, a, b, DirectiveWord(text), r);
    }
  }

  lemma DirectiveByWord(text: string)
    ensures DirectiveOf(text) == If <==> DirectiveWord(text) in IF_WORDS
    ensures DirectiveOf(text) == Else <==> DirectiveWord(text) in ELSE_WORDS
    ensures DirectiveOf(text) == Endif <==> DirectiveWord(text) in ENDIF_WORDS
  {}

  lemma TheWords()
    ensures AreWords(IF_WORDS) && AreWords(ELSE_WORDS) && AreWords(ENDIF_WORDS)
  {}

  /**
    A line is an #if, an #else or an #endif exactly when it is white space, #, white space, one of the words, and then
    the end or a character that is no word character.
   */
  lemma DirectivesAre(text: string)
    ensures DirectiveOf(text) == If <==> IsDirective(text, IF_WORDS)
    ensures DirectiveOf(text) == Else <==> IsDirective(text, ELSE_WORDS)
    ensures DirectiveOf(text) == Endif <==> IsDirective(text, ENDIF_WORDS)
  {
    TheWords();
    DirectiveByWord(text);
    DirectiveWordIff(text, IF_WORDS);
    DirectiveWordIff(text, ELSE_WORDS);
    DirectiveWordIff(text, ENDIF_WORDS);
  }

  // ---- whole conditionals ----

  /** An #else or #elif line and the lines of its branch. */
  datatype Branch = Branch(head: Line, body: seq<Line>)

  /** The head is an #else or #elif, and the body closes the conditionals it opens. */
  ghost predicate IsBranch(b: Branch) { IsDirective(b.head.text, ELSE_WORDS) && Enclosed(b.body, 0) }

  function BranchLines(branches: seq<Branch>): seq<Line> {
    if branches == [] then [] else [branches[0].head] + branches[0].body + BranchLines(branches[1..])
  }

  lemma {:induction false} RunConcat(s: State, a: seq<Line>, b: seq<Line>)
    ensures Run(s, a + b) == Run(Run(s, a), b)
    decreases |a|
  {
    if a == [] {
      assert a + b == b;
    } else {
      assert (a + b)[1..] == a[1..] + b;
      RunConcat(Step(s, a[0]), a[1..], b);
    }
  }

  lemma RunOne(s: State, line: Line, more: seq<Line>)
    ensures Run(s, [line] + more) == Run(Step(s, line), more)
  {
    assert ([line] + more)[1..] == more;
  }

  /** The innermost conditional, above the checkpoints pp, keeps that stack for after its #endif. */
  predicate Keeps(s: State, pp: seq<PreprocessorInfo>, kept: seq<Block>) {
    && |s.pp| == |pp| + 1 && s.pp[..|pp|] == pp
    && kept == if s.pp[|pp|].seen_else then s.pp[|pp|].stack_before_else else s.stack
  }

  lemma ElseStep(s: State, line: Line, pp: seq<PreprocessorInfo>, kept: seq<Block>)
    requires DirectiveOf(line.text) == Else && Keeps(s, pp, kept)
    ensures Keeps(Step(s, line), pp, kept) && Step(s, line).pp[|pp|].seen_else
  {
    assert Step(s, line).pp == Checkpoint(s, Else).pp;
  }

  lemma BranchKeeps(s: State, b: Branch, pp: seq<PreprocessorInfo>, kept: seq<Block>)
    requires IsBranch(b) && Keeps(s, pp, kept)
    ensures Keeps(Run(Step(s, b.head), b.body), pp, kept)
  {
    DirectivesAre(b.head.text);
    ElseStep(s, b.head, pp, kept);
    EnclosedKeepsAll(Step(s, b.head), b.body);
  }

  ghost predicate AreBranches(branches: seq<Branch>) { forall k :: 0 <= k < |branches| ==> IsBranch(branches[k]) }

  lemma {:induction false} BranchesKeep(s: State, branches: seq<Branch>, pp: seq<PreprocessorInfo>, kept: seq<Block>)
    requires AreBranches(branches) && Keeps(s, pp, kept)
    ensures Keeps(Run(s, BranchLines(branches)), pp, kept)
    decreases |branches|
  {
    if branches != [] {
      var b, more := branches[0], branches[1..];
      BranchKeeps(s, b, pp, kept);
      BranchesKeep(Run(Step(s, b.head), b.body), more, pp, kept);
      RunBranch(s, b, BranchLines(more));
    }
  }

  lemma RunBranch(s: State, b: Branch, more: seq<Line>)
    ensures Run(s, [b.head] + b.body + more) == Run(Run(Step(s, b.head), b.body), more)
  {
    RunConcat(s, [b.head] + b.body, more);
    RunOne(s, b.head, b.body);
  }

  /** An #endif brings the kept stack back and drops its conditional. */
  lemma EndifStep(s: State, line: Line, pp: seq<PreprocessorInfo>, kept: seq<Block>)
    requires DirectiveOf(line.text) == Endif && Keeps(s, pp, kept)
    ensures Step(s, line) == State(CodeStep(kept, line), pp)
  {
    assert Checkpoint(s, Endif) == State(kept, pp);
  }

  lemma IfKeeps(s: State, line: Line, body: seq<Line>)
    requires DirectiveOf(line.text) == If && Enclosed(body, 0)
    ensures Keeps(Run(Step(s, line), body), s.pp, Run(Step(s, line), body).stack)
  {
    assert Step(s, line).pp == s.pp + [PreprocessorInfo(s.stack, [], false)];
    EnclosedKeepsAll(Step(s, line), body);
  }

  lemma RunLast(s: State, line: Line)
    ensures Run(s, [line]) == Step(s, line)
  {
    assert [line][1..] == [];
  }

  /**
    Whatever stands in the #elif and #else branches of a conditional, the run goes on behind its #endif as if they
    were not there.
   */
  lemma ElseBranchesVanish(s: State, head: Line, body: seq<Line>, branches: seq<Branch>, end: Line)
    requires IsDirective(head.text, IF_WORDS) && IsDirective(end.text, ENDIF_WORDS)
    requires Enclosed(body, 0) && AreBranches(branches)
    ensures Run(s, [head] + body + BranchLines(branches) + [end]) == Run(s, [head] + body + [end])
  {
    DirectivesAre(head.text);
    DirectivesAre(end.text);
    var first := [head] + body;
    var t := Run(s, first);
    RunOne(s, head, body);
    IfKeeps(s, head, body);
    BranchesKeep(t, branches, s.pp, t.stack);
    RunConcat(s, first, BranchLines(branches));
    RunConcat(s, first + BranchLines(branches), [end]);
    RunConcat(s, first, [end]);
    RunLast(t, end);
    RunLast(Run(t, BranchLines(branches)), end);
    EndifStep(t, end, s.pp, t.stack);
    EndifStep(Run(t, BranchLines(branches)), end, s.pp, t.stack);
  }

  // ---- bare colons ----

  /** A colon at i with no colon beside it. */
  predicate BareColonAt(s: string, i: nat) {
    i < |s| && s[i] == ':' && (i == 0 || s[i - 1] != ':') && (i + 1 == |s| || s[i + 1] != ':')
  }

  ghost predicate BareColonBehind(s: string, i: nat) { exists k: nat :: i <= k && BareColonAt(s, k) }

  lemma {:induction false} BareColonFrom(s: string, i: nat)
    ensures HasBareColon(s, i) <==> BareColonBehind(s, i)
    decreases |s| - i
  {
    if i < |s| {
      BareColonFrom(s, i + 1);
      if BareColonAt(s, i) { assert BareColonBehind(s, i); }
    }
  }

  /** A class head is taken for derived exactly when the line has a colon with no colon beside it. */
  lemma BareColonIff(s: string)
    ensures HasBareColon(s, 0) <==> exists k: nat :: BareColonAt(s, k)
  {
    BareColonFrom(s, 0);
  }

  // ---- access labels ----

  const ACCESS_WORDS: seq<string> := ["public", "private", "protected", "signals"]

  /** White space, and perhaps the word slots and white space again. */
  predicate SlotParts(g: string, a: string, b: string) {
    a != "" && AllSpace(a) && AllSpace(b) && (g == a || g == a + "slots" + b)
  }

  ghost predicate IsSlots(g: string) { g == "" || exists a, b :: SlotParts(g, a, b) }

  /** An access word w, perhaps slots, a colon, and then the end or no colon. */
  predicate LabelParts(s: string, w: string, g: string, r: string) {
    s == w + (g + (":" + r)) && w in ACCESS_WORDS && (r == "" || r[0] != ':')
  }

  ghost predicate LabelText(s: string, w: string) { exists g, r :: IsSlots(g) && LabelParts(s, w, g, r) }

  lemma TheAccessWords(w: string)
    requires w in ACCESS_WORDS
    ensures AllWord(w) && w != ""
  {}

  lemma SlotsTail(g: string, a: string, b: string, u: string)
    requires SlotParts(g, a, b) && |u| > 0 && u[0] == ':'
    ensures WordEnds(g + u) && |Strip(g + u)| < |g + u|
    ensures var t := Strip(g + u); (if StartsWith(t, "slots") then Strip(t[5..]) else t) == u
  {
    if g == a {
      StripOf(a, u);
    } else {
      var t := "slots" + (b + u);
      assert g + u == a + t;
      StripOf(a, t);
      assert t[5..] == b + u;
      StripOf(b, u);
    }
  }

  lemma TailOfParts(g: string, r: string)
    requires IsSlots(g) && (r == "" || r[0] != ':')
    ensures LabelTail(g + (":" + r)) && WordEnds(g + (":" + r))
  {
    var u := ":" + r;
    assert u[0] == ':' && (|u| == 1 || u[1] == r[0]);
    if g == "" {
      assert g + u == u;
      StripOf("", u);
      assert "" + u == u;
    } else {
      var a, b :| SlotParts(g, a, b);
      SlotsTail(g, a, b, u);
    }
  }

  lemma PartsOfTail(after: string) returns (g: string, r: string)
    requires LabelTail(after)
    ensures after == g + (":" + r) && IsSlots(g) && (r == "" || r[0] != ':')
  {
    var a := StripFront(after);
    var t := Strip(after);
    if |t| < |after| && StartsWith(t, "slots") {
      var b := StripFront(t[5..]);
      g, r := a + "slots" + b, Strip(t[5..])[1..];
      SlotsAfter(after, a, t, b, r);
      assert SlotParts(g, a, b);
    } else {
      g, r := a, t[1..];
      assert t == ":" + r;
      if a != "" { assert SlotParts(g, a, ""); }
    }
  }

  lemma SlotsAfter(after: string, a: string, t: string, b: string, r: string)
    requires after == a + t && "slots" <= t && t[5..] == b + (":" + r)
    ensures after == a + "slots" + b + (":" + r)
  {
    assert t == "slots" + t[5..];
  }

  /** A label with the word w stands at the front of s exactly when s is of that form. */
  lemma LabelIff(s: string, w: string)
    ensures LabelText(s, w) <==> IsLabel(s) && Word(s) == w
  {
    if LabelText(s, w) {
      var g, r :| IsSlots(g) && LabelParts(s, w, g, r);
      TheAccessWords(w);
      TailOfParts(g, r);
      WordOf(w, g + (":" + r));
    }
    if IsLabel(s) && Word(s) == w {
      WordFront(s);
      var g, r := PartsOfTail(AfterWord(s));
      assert LabelParts(s, w, g, r);
    }
  }

  /** At position i of s, not inside a word, a label with the access word w starts. */
  ghost predicate LabelAt(s: string, i: nat, w: string) {
    i < |s| && (i == 0 || !IsWordChar(s[i - 1])) && LabelText(s[i..], w)
  }

  /** What is at i is the last thing before n. */
  ghost predicate IsLast(at: (nat, string) -> bool, n: nat, i: nat, w: string) {
    i < n && at(i, w) && forall j: nat, v :: i < j < n ==> !at(j, v)
  }

  /** The word is that of the last thing before n, and there is none if there is nothing. */
  ghost predicate IsLastWord(at: (nat, string) -> bool, n: nat, word: Option<string>) {
    match word
    case None => forall i: nat, w :: i < n ==> !at(i, w)
    case Some(w) => exists i :: IsLast(at, n, i, w)
  }

  lemma LastStep(at: (nat, string) -> bool, n: nat, word: Option<string>, here: bool, w: string)
    requires IsLastWord(at, n, word) && forall v :: at(n, v) <==> here && v == w
    ensures IsLastWord(at, n + 1, if here then Some(w) else word)
  {
    if here {
      assert IsLast(at, n + 1, n, w);
    } else if word.Some? {
      var i :| IsLast(at, n, i, word.value);
      assert IsLast(at, n + 1, i, word.value);
    }
  }

  ghost function LabelsOf(s: string): (nat, string) -> bool { (i: nat, w: string) => LabelAt(s, i, w) }

  lemma LabelHere(s: string, i: nat)
    requires i < |s|
    ensures forall w :: LabelAt(s, i, w) <==> StartsLabel(s, i) && Word(s[i..]) == w
  {
    forall w ensures LabelText(s[i..], w) <==> IsLabel(s[i..]) && Word(s[i..]) == w { LabelIff(s[i..], w); }
  }

  predicate StartsLabel(s: string, i: nat)
    requires i < |s|
  {
    (i == 0 || !IsWordChar(s[i - 1])) && IsLabel(s[i..])
  }

  /** The word at the last of the first n places that is marked. */
  function LastMarked(here: nat -> bool, word: nat -> string, n: nat): Option<string> {
    if n == 0 then None else if here(n - 1) then Some(word(n - 1)) else LastMarked(here, word, n - 1)
  }

  lemma {:induction false} LastMarkedIs(at: (nat, string) -> bool, here: nat -> bool, word: nat -> string, n: nat)
    requires forall k: nat, v :: k < n ==> (at(k, v) <==> here(k) && v == word(k))
    ensures IsLastWord(at, n, LastMarked(here, word, n))
  {
    if n > 0 {
      LastMarkedIs(at, here, word, n - 1);
      LastStep(at, n - 1, LastMarked(here, word, n - 1), here(n - 1), word(n - 1));
    }
  }

  function LabelMarks(s: string): nat -> bool { (i: nat) => i < |s| && StartsLabel(s, i) }
  function LabelWords(s: string): nat -> string { (i: nat) => if i < |s| then Word(s[i..]) else "" }

  predicate SameAccess(s: string, n: nat) {
    n <= |s| && AccessLabel(s, n) == LastMarked(LabelMarks(s), LabelWords(s), n)
  }

  lemma SameAccessStep(s: string, n: nat)
    requires n < |s| && SameAccess(s, n)
    ensures SameAccess(s, n + 1)
  {
    assert LabelMarks(s)(n) == StartsLabel(s, n) && LabelWords(s)(n) == Word(s[n..]);
  }

  lemma {:induction false} AccessIsLastMarked(s: string, n: nat)
    requires n <= |s|
    ensures SameAccess(s, n)
  {
    if n > 0 {
      AccessIsLastMarked(s, n - 1);
      SameAccessStep(s, n - 1);
    }
  }

  /** The access of a line is the word of its last label. */
  lemma AccessLabelIs(s: string)
    ensures IsLastWord(LabelsOf(s), |s|, AccessLabel(s, |s|))
  {
    forall k: nat, v | k < |s| ensures LabelAt(s, k, v) <==> LabelMarks(s)(k) && v == LabelWords(s)(k) {
      LabelHere(s, k);
    }
    AccessIsLastMarked(s, |s|);
    LastMarkedIs(LabelsOf(s), LabelMarks(s), LabelWords(s), |s|);
  }

  // ---- inline assembly ----

  const ASM_WORDS: seq<string> := ["asm", "_asm", "__asm", "__asm__"]
  const VOLATILE_WORDS: seq<string> := ["volatile", "__volatile__"]

  /** White space and a word for volatile. */
  predicate VolatileParts(v: string, a: string, w: string) {
    v == a + w && a != "" && AllSpace(a) && w in VOLATILE_WORDS
  }

  ghost predicate IsVolatile(v: string) { v == "" || exists a, w :: VolatileParts(v, a, w) }

  /** White space, an asm word, perhaps volatile, white space and an opening brace or parenthesis. */
  predicate AsmParts(s: string, a: string, k: string, v: string, b: string, r: string) {
    s == a + (k + (v + (b + r))) && AllSpace(a) && k in ASM_WORDS && AllSpace(b) && OpensBracket(r)
  }

  ghost predicate AsmText(s: string) { exists a, k, v, b, r :: IsVolatile(v) && AsmParts(s, a, k, v, b, r) }

  lemma TheAsmWords(w: string)
    requires w in ASM_WORDS || w in VOLATILE_WORDS
    ensures AllWord(w) && w != ""
  {}

  lemma AsmTailOfParts(v: string, b: string, r: string)
    requires IsVolatile(v) && AllSpace(b) && OpensBracket(r)
    ensures AsmTail(v + (b + r)) && WordEnds(v + (b + r))
  {
    if v == "" {
      assert v + (b + r) == b + r;
      StripOf(b, r);
    } else {
      var a, w :| VolatileParts(v, a, w);
      assert v + (b + r) == a + (w + (b + r));
      VolatileTail(a, w, b, r);
    }
  }

  lemma VolatileTail(a: string, w: string, b: string, r: string)
    requires a != "" && AllSpace(a) && w in VOLATILE_WORDS && AllSpace(b) && OpensBracket(r)
    ensures AsmTail(a + (w + (b + r))) && WordEnds(a + (w + (b + r)))
  {
    TheAsmWords(w);
    StripOf(b, r);
    StripOf(a, w + (b + r));
    WordOf(w, b + r);
  }

  lemma PartsOfAsmTail(u: string) returns (v: string, b: string, r: string)
    requires AsmTail(u)
    ensures u == v + (b + r) && IsVolatile(v) && AllSpace(b) && OpensBracket(r)
  {
    var a := StripFront(u);
    var t := Strip(u);
    if OpensBracket(t) {
      v, b, r := "", a, t;
      assert "" + (a + t) == a + t;
    } else {
      WordFront(t);
      var w, after := Word(t), AfterWord(t);
      b := StripFront(after);
      v, r := a + w, Strip(after);
      assert VolatileParts(v, a, w);
      Assoc(a, w, b + r);
    }
  }

  /** A line opens inline assembly exactly when it is of that form. */
  lemma OpensAsmIff(s: string)
    ensures OpensAsm(s) <==> AsmText(s)
  {
    if AsmText(s) {
      var a, k, v, b, r :| IsVolatile(v) && AsmParts(s, a, k, v, b, r);
      TheAsmWords(k);
      AsmTailOfParts(v, b, r);
      StripOf(a, k + (v + (b + r)));
      WordOf(k, v + (b + r));
    }
    if OpensAsm(s) {
      var a := StripFront(s);
      WordFront(Strip(s));
      var v, b, r := PartsOfAsmTail(AfterWord(Strip(s)));
      assert AsmParts(s, a, Word(Strip(s)), v, b, r);
    }
  }

  // ---- extern "C" ----

  /** extern, white space, a quoted text, white space and an opening brace. */
  predicate ExternParts(s: string, a: string, q: string, b: string, r: string) {
    s == "extern" + (a + QuotedText(q, b, r)) && AllSpace(a) && '"' !in q && AllSpace(b)
  }

  function QuotedText(q: string, b: string, r: string): string { "\"" + (q + ("\"" + (b + ("{" + r)))) }

  ghost predicate ExternText(s: string) { exists a, q, b, r :: ExternParts(s, a, q, b, r) }

  lemma {:induction false} FindQuote(q: string, r: string)
    requires '"' !in q
    ensures Find(q + ("\"" + r), "\"") == |q|
  {
    var t := q + ("\"" + r);
    if q == "" {
      assert t[0] == '"';
    } else {
      assert q[0] in q && t[1..] == q[1..] + ("\"" + r);
      FindQuote(q[1..], r);
    }
  }

  lemma QuotedOfParts(q: string, b: string, r: string)
    requires '"' !in q && AllSpace(b)
    ensures QuotedBrace(QuotedText(q, b, r))
  {
    var t, u := QuotedText(q, b, r), "{" + r;
    assert t[1..] == q + ("\"" + (b + u));
    FindQuote(q, b + u);
    assert t[1..][|q| + 1..] == b + u;
    StripOf(b, u);
  }

  lemma PartsOfQuoted(t: string) returns (q: string, b: string, r: string)
    requires QuotedBrace(t)
    ensures t == QuotedText(q, b, r) && '"' !in q && AllSpace(b)
  {
    var t1 := t[1..];
    Head(t, "\"");
    var k := Find(t1, "\"");
    q := t1[..k];
    var t2 := t1[k..];
    Head(t2, "\"");
    assert t2[1..] == t1[k + 1..];
    b := StripFront(t1[k + 1..]);
    var u := Strip(t1[k + 1..]);
    Head(u, "{");
    r := u[1..];
    assert t1 == q + t2;
  }

  /** A brace opens an extern "C" block exactly when the text before it is of that form. */
  lemma OpensExternCIff(s: string)
    ensures OpensExternC(s) <==> ExternText(s)
  {
    if ExternText(s) {
      var a, q, b, r :| ExternParts(s, a, q, b, r);
      assert s[6..] == a + QuotedText(q, b, r);
      StripOf(a, QuotedText(q, b, r));
      QuotedOfParts(q, b, r);
    }
    if OpensExternC(s) {
      var a := StripFront(s[6..]);
      var q, b, r := PartsOfQuoted(Strip(s[6..]));
      assert s == "extern" + s[6..];
      assert ExternParts(s, a, q, b, r);
    }
  }
}
