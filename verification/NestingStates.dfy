/** The lint tool's nesting stack: one line at a time, with checkpoints at #if and #else. */
module NestingStates {
  import opened Characters
  import opened Wrappers

  datatype Asm = NoAsm | InsideAsm | EndAsm | BlockAsm
  datatype Kind = Generic | ExternC | Namespace(name: string) | Class(id: string, is_struct: bool)

  /** An open block. Blocks are values here: the program copies a stack deeply wherever two would share one. */
  datatype Block = Block(kind: Kind, seen_open_brace: bool, open_parentheses: int, inline_asm: Asm,
                         access: string, is_derived: bool)

  datatype ClassMatch = ClassMatch(name: string, is_struct: bool, rest: string)

  /** A line of the file; in_template says whether a declaration that ends at a position is a template argument. */
  datatype Line = Line(text: string, in_template: nat -> bool)

  datatype PreprocessorInfo = PreprocessorInfo(stack_before_if: seq<Block>, stack_before_else: seq<Block>,
                                               seen_else: bool)

  function NewBlock(kind: Kind, seen: bool): Block {
    Block(kind, seen, 0, NoAsm, if kind.Class? then (if kind.is_struct then "public" else "private") else "", false)
  }

  // ---- text ----

  function Strip(s: string): (r: string)
    ensures |r| <= |s|
  { if |s| > 0 && IsSpace(s[0]) then Strip(s[1..]) else s }

  /** The length of the longest prefix of word characters, with colons if asked. */
  function WordLength(s: string, colons: bool): (n: nat)
    ensures n <= |s|
  { if |s| > 0 && (IsWordChar(s[0]) || (colons && s[0] == ':')) then 1 + WordLength(s[1..], colons) else 0 }

  function Word(s: string): string { s[..WordLength(s, false)] }
  function AfterWord(s: string): string { s[WordLength(s, false)..] }

  function Count(s: string, c: char): nat {
    if |s| == 0 then 0 else (if s[0] == c then 1 else 0) + Count(s[1..], c)
  }

  /** The position of the first character of s that is in set, or |s|. */
  function Find(s: string, chars: string): (i: nat)
    ensures i <= |s| && (i < |s| ==> s[i] in chars) && forall j :: 0 <= j < i ==> s[j] !in chars
  { if |s| == 0 || s[0] in chars then 0 else 1 + Find(s[1..], chars) }

  datatype Directive = If | Else | Endif | Neither

  function DirectiveOf(text: string): Directive {
    var s := Strip(text);
    if |s| == 0 || s[0] != '#' then Neither
    else
      var word := Word(Strip(s[1..]));
      if word == "if" || word == "ifdef" || word == "ifndef" then If
      else if word == "else" || word == "elif" then Else
      else if word == "endif" then Endif
      else Neither
  }

  predicate OpensBracket(s: string) { |s| > 0 && (s[0] == '{' || s[0] == '(') }

  predicate OpensAsm(s: string) {
    Word(Strip(s)) in ["asm", "_asm", "__asm", "__asm__"] && AsmTail(AfterWord(Strip(s)))
  }

  /** Behind the asm word: perhaps white space and volatile, and then an opening bracket. */
  predicate AsmTail(u: string) {
    var v := Strip(u);
    OpensBracket(v) || (|v| < |u| && Word(v) in ["volatile", "__volatile__"] && OpensBracket(Strip(AfterWord(v))))
  }

  predicate OpensExternC(s: string) { "extern" <= s && QuotedBrace(Strip(s[6..])) }

  /** A quoted text and an opening brace. */
  predicate QuotedBrace(t: string) {
    && |t| > 0 && t[0] == '"'
    && var q := Find(t[1..], "\"");
       q < |t[1..]| && (var u := Strip(t[1..][q + 1..]); |u| > 0 && u[0] == '{')
  }

  /** Whether word stands at the front of s. */
  predicate StartsWith(s: string, word: string) { word <= s }

  /** (?:[A-Z_]+\s+)* and then the name: as many decorations as leave a name, then the longest name. */
  function Decorated(s: string): (r: Option<(string, string)>)
    ensures r.Some? ==> |r.value.1| <= |s|
    decreases |s|
  {
    var n := UpperLength(s);
    var rest := Strip(s[n..]);
    var more := if n > 0 && |rest| < |s| - n then Decorated(rest) else None;
    if more.Some? then more
    else
      var k := NameLength(s);
      if k == 0 then None else Some((s[..k], s[k..]))
  }

  function UpperLength(s: string): (n: nat)
    ensures n <= |s|
  { if |s| > 0 && ('A' <= s[0] <= 'Z' || s[0] == '_') then 1 + UpperLength(s[1..]) else 0 }

  /** The length of the longest \w+(?:::\w+)* at the front; 0 if there is none. */
  function NameLength(s: string): (n: nat)
    ensures n <= |s|
  {
    var n := WordLength(s, false);
    if n > 0 && "::" <= s[n..] then
      var more := NameLength(s[n + 2..]);
      if more > 0 then n + 2 + more else n
    else n
  }

  /** (class|struct)\s+ and what Decorated finds behind it. */
  function ClassKey(s: string): (r: Option<ClassMatch>)
    ensures r.Some? ==> |r.value.rest| <= |s|
  {
    var key := Word(s);
    var after := AfterWord(s);
    if (key == "class" || key == "struct") && |Strip(after)| < |after| then
      match Decorated(Strip(after))
      case None => None
      case Some((name, rest)) => Some(ClassMatch(name, key == "struct", rest))
    else None
  }

  /** The longest template parameter list that leaves a class key behind it; i is where the list may end at most. */
  function TemplateClass(s: string, i: nat): (r: Option<ClassMatch>)
    requires i <= |s|
    ensures r.Some? ==> |r.value.rest| <= |s|
  {
    if i == 0 then None
    else if s[i - 1] == '>' && ClassKey(Strip(s[i..])).Some? then ClassKey(Strip(s[i..]))
    else TemplateClass(s, i - 1)
  }

  /** The length of the longest prefix of characters that a template parameter list may hold. */
  function ListLength(s: string): (n: nat)
    ensures n <= |s|
  { if |s| > 0 && (IsWordChar(s[0]) || IsSpace(s[0]) || s[0] in "<>,:") then 1 + ListLength(s[1..]) else 0 }

  /** A class or struct head at the front of the text, with or without a template parameter list. */
  function ClassHead(text: string): (r: Option<ClassMatch>)
    ensures r.Some? ==> |r.value.rest| <= |text|
  {
    var s := Strip(text);
    var t := Strip(AfterWord(s));
    var templated :=
      if Word(s) == "template" && |t| > 0 && t[0] == '<' then TemplateClass(t[1..], ListLength(t[1..])) else None;
    if templated.Some? then templated else ClassKey(s)
  }

  /** A colon with no colon beside it, from position i on. */
  predicate HasBareColon(s: string, i: nat)
    decreases |s| - i
  {
    i < |s| && ((s[i] == ':' && (i == 0 || s[i - 1] != ':') && (i + 1 == |s| || s[i + 1] != ':')) ||
                HasBareColon(s, i + 1))
  }

  /** A label at the front of s: an access word, perhaps slots, and a colon that is not doubled. */
  predicate IsLabel(s: string) {
    Word(s) in ["public", "private", "protected", "signals"] && LabelTail(AfterWord(s))
  }

  predicate LabelTail(after: string) {
    var t := Strip(after);
    var u := if |t| < |after| && StartsWith(t, "slots") then Strip(t[5..]) else t;
    |u| > 0 && u[0] == ':' && (|u| == 1 || u[1] != ':')
  }

  /** The access word of the last label that starts before position i, at a word boundary. */
  function AccessLabel(s: string, i: nat): Option<string>
    requires i <= |s|
  {
    if i == 0 then None
    else if (i == 1 || !IsWordChar(s[i - 2])) && IsLabel(s[i - 1..]) then Some(Word(s[i - 1..]))
    else AccessLabel(s, i - 1)
  }

  // ---- preprocessor lines ----

  datatype State = State(stack: seq<Block>, pp: seq<PreprocessorInfo>)

  function Preprocess(s: State, text: string): State { Checkpoint(s, DirectiveOf(text)) }

  function Checkpoint(s: State, d: Directive): State {
    var n := |s.pp|;
    match d
    case If => s.(pp := s.pp + [PreprocessorInfo(s.stack, [], false)])
    case Else =>
      if n == 0 then s
      else
        var top := s.pp[n - 1];
        State(top.stack_before_if,
              if top.seen_else then s.pp
              else s.pp[..n - 1] + [top.(seen_else := true, stack_before_else := s.stack)])
    case Endif =>
      if n == 0 then s
      else State(if s.pp[n - 1].seen_else then s.pp[n - 1].stack_before_else else s.stack, s.pp[..n - 1])
    case Neither => s
  }

  // ---- the rest of a line ----

  function Top(stack: seq<Block>): Block
    requires |stack| > 0
  { stack[|stack| - 1] }

  function SetTop(stack: seq<Block>, b: Block): seq<Block>
    requires |stack| > 0
  { stack[|stack| - 1 := b] }

  predicate SeenOpenBrace(stack: seq<Block>) { |stack| == 0 || Top(stack).seen_open_brace }

  function NextAsm(b: Block, depth_change: int, text: string): Asm {
    match b.inline_asm
    case NoAsm | EndAsm => if depth_change != 0 && b.open_parentheses == 1 && OpensAsm(text) then InsideAsm else NoAsm
    case InsideAsm => if b.open_parentheses == 0 then EndAsm else InsideAsm
    case BlockAsm => BlockAsm
  }

  function Parentheses(stack: seq<Block>, text: string): seq<Block> {
    if |stack| == 0 then stack
    else
      var depth_change := Count(text, '(') - Count(text, ')');
      var b := Top(stack).(open_parentheses := Top(stack).open_parentheses + depth_change);
      SetTop(stack, b.(inline_asm := NextAsm(b, depth_change, text)))
  }

  /** The namespaces declared at the front of the text, pushed, and the rest of the text. */
  function Namespaces(stack: seq<Block>, text: string): (seq<Block>, string)
    decreases |text|
  {
    var s := Strip(text);
    if Word(s) != "namespace" then (stack, text)
    else
      var t := Strip(AfterWord(s));
      var n := WordLength(t, true);
      var rest := t[n..];
      var brace := Find(rest, "{");
      Namespaces(stack + [NewBlock(Namespace(t[..n]), brace < |rest|)],
                 if brace < |rest| then rest[brace + 1..] else rest)
  }

  /** A class declared at the front of the text, pushed, and the rest of the text; not a template argument. */
  function ClassDeclaration(stack: seq<Block>, line: Line, text: string): (seq<Block>, string) {
    var m := ClassHead(text);
    if m.Some? && (|stack| == 0 || Top(stack).open_parentheses == 0)
       && !line.in_template(|text| - |m.value.rest|)
    then (stack + [NewBlock(Class(m.value.name, m.value.is_struct), false)], m.value.rest)
    else (stack, text)
  }

  /** A bare colon on the line marks an open class head; an access label in the rest of the text sets the access. */
  function Labels(stack: seq<Block>, line: Line, text: string): seq<Block> {
    if |stack| == 0 || !Top(stack).kind.Class? then stack
    else
      var b := Top(stack);
      var b1 := if !b.seen_open_brace && HasBareColon(line.text, 0) then b.(is_derived := true) else b;
      var access := AccessLabel(text, |text|);
      SetTop(stack, if access.Some? then b1.(access := access.value) else b1)
  }

  /** The block that an opening brace in the text opens, where it does not belong to a head. */
  function OpenedBlock(text: string): Block {
    if OpensExternC(text) then NewBlock(ExternC, true)
    else NewBlock(Generic, true).(inline_asm := if OpensAsm(text) then BlockAsm else NoAsm)
  }

  /** The token c; text is the line from the position after the previous token. */
  function Token(stack: seq<Block>, c: char, text: string): seq<Block> { Act(stack, c, OpenedBlock(text)) }

  function Act(stack: seq<Block>, c: char, block: Block): seq<Block> {
    if c == '{' then
      if !SeenOpenBrace(stack) then SetTop(stack, Top(stack).(seen_open_brace := true)) else stack + [block]
    else if c == ';' || c == ')' then
      if !SeenOpenBrace(stack) then stack[..|stack| - 1] else stack
    else if |stack| > 0 then stack[..|stack| - 1]
    else stack
  }

  function Braces(stack: seq<Block>, text: string): seq<Block>
    decreases |text|
  {
    var i := Find(text, "{;)}");
    if i == |text| then stack else Braces(Token(stack, text[i], text), text[i + 1..])
  }

  /** The braces still to come are those of the whole text. */
  predicate BracesFrom(stack: seq<Block>, text: string, result: seq<Block>) { Braces(stack, text) == result }

  lemma BracesStep(stack: seq<Block>, text: string, i: nat, result: seq<Block>)
    requires i == Find(text, "{;)}") && BracesFrom(stack, text, result)
    ensures if i < |text| then BracesFrom(Token(stack, text[i], text), text[i + 1..], result) else stack == result
  {}

  /** What a line does to the stack once the preprocessor has had its say. */
  function CodeStep(stack: seq<Block>, line: Line): seq<Block> {
    var (s1, t1) := Namespaces(Parentheses(stack, line.text), line.text);
    var (s2, t2) := ClassDeclaration(s1, line, t1);
    Braces(Labels(s2, line, t2), t2)
  }

  function Step(s: State, line: Line): State {
    var p := Preprocess(s, line.text);
    State(CodeStep(p.stack, line), p.pp)
  }

  // ---- the class ----

  class NestingState {
    var stack: seq<Block>
    var pp_stack: seq<PreprocessorInfo>

    constructor ()
      ensures stack == [] && pp_stack == []
    {
      stack, pp_stack := [], [];
    }

    ghost function Now(): State
      reads this
    { State(stack, pp_stack) }

    method UpdatePreprocessor(line: string)
      modifies this
      ensures Now() == Preprocess(old(Now()), line)
    {
      var n := |pp_stack|;
      match DirectiveOf(line)
      case If =>
        pp_stack := pp_stack + [PreprocessorInfo(stack, [], false)];
      case Else =>
        if n > 0 {
          if !pp_stack[n - 1].seen_else {
            pp_stack := pp_stack[..n - 1] + [pp_stack[n - 1].(seen_else := true, stack_before_else := stack)];
          }
          stack := pp_stack[n - 1].stack_before_if;
        }
      case Endif =>
        if n > 0 {
          if pp_stack[n - 1].seen_else { stack := pp_stack[n - 1].stack_before_else; }
          pp_stack := pp_stack[..n - 1];
        }
      case Neither =>
    }

    method CountParentheses(line: string)
      modifies this`stack
      ensures stack == Parentheses(old(stack), line)
    {
      if |stack| > 0 {
        var inner_block := stack[|stack| - 1];
        var depth_change := Count(line, '(') - Count(line, ')');
        inner_block := inner_block.(open_parentheses := inner_block.open_parentheses + depth_change);
        if inner_block.inline_asm == NoAsm || inner_block.inline_asm == EndAsm {
          if depth_change != 0 && inner_block.open_parentheses == 1 && OpensAsm(line) {
            inner_block := inner_block.(inline_asm := InsideAsm);
          } else {
            inner_block := inner_block.(inline_asm := NoAsm);
          }
        } else if inner_block.inline_asm == InsideAsm && inner_block.open_parentheses == 0 {
          inner_block := inner_block.(inline_asm := EndAsm);
        }
        stack := stack[|stack| - 1 := inner_block];
      }
    }

    method ConsumeNamespaces(line: string) returns (rest: string)
      modifies this`stack
      ensures (stack, rest) == Namespaces(old(stack), line)
    {
      rest := line;
      while Word(Strip(rest)) == "namespace"
        invariant Namespaces(stack, rest) == Namespaces(old(stack), line)
        decreases |rest|
      {
        var t := Strip(AfterWord(Strip(rest)));
        var n := WordLength(t, true);
        var new_namespace := NewBlock(Namespace(t[..n]), false);
        rest := t[n..];
        var brace := Find(rest, "{");
        if brace < |rest| {
          new_namespace := new_namespace.(seen_open_brace := true);
          rest := rest[brace + 1..];
        }
        stack := stack + [new_namespace];
      }
    }

    method ConsumeToken(token: char, line: string)
      modifies this`stack
      ensures stack == Token(old(stack), token, line)
    {
      if token == '{' {
        if !SeenOpenBrace(stack) {
          stack := stack[|stack| - 1 := stack[|stack| - 1].(seen_open_brace := true)];
        } else if OpensExternC(line) {
          stack := stack + [NewBlock(ExternC, true)];
        } else {
          var block := NewBlock(Generic, true);
          if OpensAsm(line) { block := block.(inline_asm := BlockAsm); }
          stack := stack + [block];
        }
      } else if token == ';' || token == ')' {
        if !SeenOpenBrace(stack) { stack := stack[..|stack| - 1]; }
      } else if |stack| > 0 {
        stack := stack[..|stack| - 1];
      }
    }

    method ConsumeBraces(line0: string)
      modifies this`stack
      ensures stack == Braces(old(stack), line0)
    {
      var line := line0;
      ghost var result := Braces(stack, line);
      var i := Find(line, "{;)}");
      while i < |line|
        invariant i == Find(line, "{;)}") && BracesFrom(stack, line, result)
        decreases |line|
      {
        BracesStep(stack, line, i, result);
        ConsumeToken(line[i], line);
        line := line[i + 1..];
        i := Find(line, "{;)}");
      }
      BracesStep(stack, line, i, result);
    }

    method DeclareClass(line: Line, text: string) returns (rest: string)
      modifies this`stack
      ensures (stack, rest) == ClassDeclaration(old(stack), line, text)
    {
      rest := text;
      var m := ClassHead(text);
      if m.Some? && (|stack| == 0 || stack[|stack| - 1].open_parentheses == 0) {
        var end_declaration := |text| - |m.value.rest|;
        if !line.in_template(end_declaration) {
          stack := stack + [NewBlock(Class(m.value.name, m.value.is_struct), false)];
          rest := m.value.rest;
        }
      }
    }

    method UpdateLabels(line: Line, text: string)
      modifies this`stack
      ensures stack == Labels(old(stack), line, text)
    {
      if !SeenOpenBrace(stack) && stack[|stack| - 1].kind.Class? && HasBareColon(line.text, 0) {
        stack := stack[|stack| - 1 := stack[|stack| - 1].(is_derived := true)];
      }
      if |stack| > 0 && stack[|stack| - 1].kind.Class? {
        var access := AccessLabel(text, |text|);
        if access.Some? { stack := stack[|stack| - 1 := stack[|stack| - 1].(access := access.value)]; }
      }
    }

    method Update(line: Line)
      modifies this
      ensures Now() == Step(old(Now()), line)
    {
      UpdatePreprocessor(line.text);
      CountParentheses(line.text);
      var text := ConsumeNamespaces(line.text);
      text := DeclareClass(line, text);
      UpdateLabels(line, text);
      ConsumeBraces(text);
    }
  }

  /** The driver: every line of a file in turn. */
  method UpdateAll(nesting: NestingState, lines: seq<Line>)
    modifies nesting
    ensures nesting.Now() == Run(old(nesting.Now()), lines)
  {
    var i := 0;
    while i < |lines|
      invariant 0 <= i <= |lines|
      invariant Run(nesting.Now(), lines[i..]) == Run(old(nesting.Now()), lines)
    {
      assert lines[i..][1..] == lines[i + 1..];
      nesting.Update(lines[i]);
      i := i + 1;
    }
  }

  // ---- whole runs ----

  function Run(s: State, lines: seq<Line>): State
    decreases |lines|
  {
    if |lines| == 0 then s else Run(Step(s, lines[0]), lines[1..])
  }

  /** A run of the line rules alone: no checkpoints, no preprocessor. */
  function RunCode(stack: seq<Block>, lines: seq<Line>): seq<Block>
    decreases |lines|
  {
    if |lines| == 0 then stack else RunCode(CodeStep(stack, lines[0]), lines[1..])
  }

  /** For each open conditional, whether an #else or #elif of it has gone by. */
  function MarksAfter(marks: seq<bool>, d: Directive): seq<bool> {
    match d
    case If => marks + [false]
    case Else => if marks == [] then marks else marks[|marks| - 1 := true]
    case Endif => if marks == [] then marks else marks[..|marks| - 1]
    case Neither => marks
  }

  predicate Live(marks: seq<bool>) { forall k :: 0 <= k < |marks| ==> !marks[k] }

  /** The lines outside every #else and #elif branch; those directives themselves are left out too. */
  function Kept(lines: seq<Line>, marks: seq<bool>): seq<Line> {
    if |lines| == 0 then []
    else
      var after := MarksAfter(marks, DirectiveOf(lines[0].text));
      (if Live(after) then [lines[0]] else []) + Kept(lines[1..], after)
  }

  function MarksRun(lines: seq<Line>, marks: seq<bool>): seq<bool> {
    if |lines| == 0 then marks else MarksRun(lines[1..], MarksAfter(marks, DirectiveOf(lines[0].text)))
  }

  function Marks(pp: seq<PreprocessorInfo>): (m: seq<bool>)
    ensures |m| == |pp| && forall k :: 0 <= k < |m| ==> m[k] == pp[k].seen_else
  { seq(|pp|, k requires 0 <= k < |pp| => pp[k].seen_else) }

  /** The stack outside every #else: saved at the outermost #else gone by, else the stack itself. */
  function Outer(pp: seq<PreprocessorInfo>, stack: seq<Block>): seq<Block> {
    if |pp| == 0 then stack
    else if pp[0].seen_else then pp[0].stack_before_else
    else Outer(pp[1..], stack)
  }

  lemma {:induction false} OuterWhenLive(pp: seq<PreprocessorInfo>, stack: seq<Block>)
    requires Live(Marks(pp))
    ensures Outer(pp, stack) == stack
  {
    if |pp| > 0 {
      assert Marks(pp)[0] == pp[0].seen_else;
      forall k | 0 <= k < |pp| - 1 ensures !Marks(pp[1..])[k] { assert Marks(pp)[k + 1] == pp[1..][k].seen_else; }
      OuterWhenLive(pp[1..], stack);
    }
  }

  /** Below the first conditional whose #else has gone by, nothing changes what is saved there. */
  lemma {:induction false} OuterPrefix(pp: seq<PreprocessorInfo>, more: seq<PreprocessorInfo>, s1: seq<Block>,
                                       s2: seq<Block>)
    requires !Live(Marks(pp))
    ensures Outer(pp + more, s1) == Outer(pp, s2)
  {
    var k :| 0 <= k < |pp| && Marks(pp)[k];
    assert (pp + more)[0] == pp[0];
    if !pp[0].seen_else {
      assert Marks(pp[1..])[k - 1] == pp[k].seen_else;
      OuterPrefix(pp[1..], more, s1, s2);
      assert (pp + more)[1..] == pp[1..] + more;
    }
  }

  /** Live outside, and the last conditional at its #else: what was saved there. */
  lemma {:induction false} OuterLast(pp: seq<PreprocessorInfo>, last: PreprocessorInfo, stack: seq<Block>)
    requires Live(Marks(pp)) && last.seen_else
    ensures Outer(pp + [last], stack) == last.stack_before_else
  {
    if |pp| > 0 {
      assert Marks(pp)[0] == pp[0].seen_else;
      forall k | 0 <= k < |pp| - 1 ensures !Marks(pp[1..])[k] { assert Marks(pp)[k + 1] == pp[1..][k].seen_else; }
      OuterLast(pp[1..], last, stack);
      assert (pp + [last])[1..] == pp[1..] + [last];
    }
  }

  lemma MarksStep(s: State, d: Directive)
    ensures Marks(Checkpoint(s, d).pp) == MarksAfter(Marks(s.pp), d)
  {}

  lemma OuterIf(pp: seq<PreprocessorInfo>, stack: seq<Block>, more: seq<PreprocessorInfo>, stack2: seq<Block>)
    requires more == [] || (|more| == 1 && !more[0].seen_else)
    ensures Live(Marks(pp + more)) ==> stack == Outer(pp, stack)
    ensures !Live(Marks(pp + more)) ==> Outer(pp + more, stack2) == Outer(pp, stack)
  {
    if Live(Marks(pp)) {
      OuterWhenLive(pp, stack);
      if more == [] { assert pp + more == pp; } else { LiveSnoc(pp, more[0]); assert more == [more[0]]; }
    } else {
      OuterPrefix(pp, more, stack2, stack);
      if more == [] { assert pp + more == pp; } else { NotLiveSnoc(pp, more[0]); assert more == [more[0]]; }
    }
  }

  lemma OuterElse(init: seq<PreprocessorInfo>, top: PreprocessorInfo, stack: seq<Block>, stack2: seq<Block>)
    ensures var top2 := if top.seen_else then top else top.(seen_else := true, stack_before_else := stack);
            && !Live(Marks(init + [top2]))
            && Outer(init + [top2], stack2) == Outer(init + [top], stack)
  {
    var top2 := if top.seen_else then top else top.(seen_else := true, stack_before_else := stack);
    if Live(Marks(init)) {
      LiveSnoc(init, top2);
      LiveSnoc(init, top);
      OuterLast(init, top2, stack2);
      if top.seen_else { OuterLast(init, top, stack); } else { OuterWhenLive(init + [top], stack); }
    } else {
      NotLiveSnoc(init, top2);
      OuterPrefix(init, [top], stack, stack2);
      OuterPrefix(init, [top2], stack2, stack2);
    }
  }

  lemma OuterEndif(init: seq<PreprocessorInfo>, top: PreprocessorInfo, stack: seq<Block>, stack2: seq<Block>)
    ensures Live(Marks(init)) ==>
              Outer(init + [top], stack) == if top.seen_else then top.stack_before_else else stack
    ensures !Live(Marks(init)) ==> Outer(init, stack2) == Outer(init + [top], stack)
  {
    if Live(Marks(init)) {
      LiveSnoc(init, top);
      if top.seen_else { OuterLast(init, top, stack); } else { OuterWhenLive(init + [top], stack); }
    } else {
      OuterPrefix(init, [top], stack, stack2);
    }
  }

  /** One line: outside every #else it acts on the outer stack by the line rules alone; inside one it does nothing. */
  lemma OuterDirective(s: State, d: Directive, stack2: seq<Block>)
    ensures var p := Checkpoint(s, d);
            && Marks(p.pp) == MarksAfter(Marks(s.pp), d)
            && (Live(Marks(p.pp)) ==> p.stack == Outer(s.pp, s.stack))
            && (!Live(Marks(p.pp)) ==> Outer(p.pp, stack2) == Outer(s.pp, s.stack))
  {
    MarksStep(s, d);
    var n := |s.pp|;
    if d == If {
      OuterIf(s.pp, s.stack, [PreprocessorInfo(s.stack, [], false)], stack2);
    } else if d == Neither || n == 0 {
      OuterIf(s.pp, s.stack, [], stack2);
      assert s.pp + [] == s.pp;
    } else {
      var init, top := s.pp[..n - 1], s.pp[n - 1];
      assert s.pp == init + [top];
      if d == Else { OuterElse(init, top, s.stack, stack2); } else { OuterEndif(init, top, s.stack, stack2); }
    }
  }

  lemma LiveSnoc(pp: seq<PreprocessorInfo>, e: PreprocessorInfo)
    requires Live(Marks(pp))
    ensures Live(Marks(pp + [e])) <==> !e.seen_else
  {
    assert Marks(pp + [e])[|pp|] == e.seen_else;
    forall k | 0 <= k < |pp| ensures !Marks(pp + [e])[k] { assert Marks(pp)[k] == pp[k].seen_else; }
  }

  lemma NotLiveSnoc(pp: seq<PreprocessorInfo>, e: PreprocessorInfo)
    requires !Live(Marks(pp))
    ensures !Live(Marks(pp + [e]))
  {
    var k :| 0 <= k < |pp| && Marks(pp)[k];
    assert Marks(pp + [e])[k];
  }

  /**
   * Whatever the lines, and wherever they stop: the stack outside every #else is what the line rules alone make of
   * the kept lines. What an #else or #elif branch pushes, pops or opens leaves no trace.
   */
  lemma {:induction false} ElseBranchesLeaveNoTrace(s: State, lines: seq<Line>)
    ensures var t := Run(s, lines);
            && Outer(t.pp, t.stack) == RunCode(Outer(s.pp, s.stack), Kept(lines, Marks(s.pp)))
            && Marks(t.pp) == MarksRun(lines, Marks(s.pp))
    decreases |lines|
  {
    if |lines| > 0 {
      var line := lines[0];
      var p, t := Preprocess(s, line.text), Step(s, line);
      OuterDirective(s, DirectiveOf(line.text), t.stack);
      ElseBranchesLeaveNoTrace(t, lines[1..]);
      var rest := Kept(lines[1..], Marks(t.pp));
      if Live(Marks(t.pp)) {
        OuterWhenLive(t.pp, t.stack);
        assert ([line] + rest)[1..] == rest;
      } else {
        assert [] + rest == rest;
      }
    }
  }

  /** In a file whose conditionals are all closed, the stack is the one of a run without the #else branches. */
  lemma StackOfWholeFile(stack: seq<Block>, lines: seq<Line>)
    requires MarksRun(lines, []) == []
    ensures Run(State(stack, []), lines) == State(RunCode(stack, Kept(lines, [])), [])
  {
    assert Marks([]) == [];
    ElseBranchesLeaveNoTrace(State(stack, []), lines);
    var t := Run(State(stack, []), lines);
    assert |Marks(t.pp)| == |t.pp|;
  }

  // ---- where a branch starts ----

  /** The lines close every conditional they open, and have no #else or #endif of a conditional opened before them. */
  predicate Enclosed(lines: seq<Line>, depth: nat)
    decreases |lines|
  {
    if |lines| == 0 then depth == 0
    else match DirectiveOf(lines[0].text)
      case If => Enclosed(lines[1..], depth + 1)
      case Else => depth > 0 && Enclosed(lines[1..], depth)
      case Endif => depth > 0 && Enclosed(lines[1..], depth - 1)
      case Neither => Enclosed(lines[1..], depth)
  }

  function DepthAfter(depth: nat, d: Directive): int {
    match d
    case If => depth + 1
    case Endif => depth - 1
    case _ => depth
  }

  /** A directive above the first k conditionals leaves those k alone. */
  lemma StepAbove(s: State, line: Line, k: nat)
    requires k <= |s.pp| && (DirectiveOf(line.text) == Else || DirectiveOf(line.text) == Endif ==> k < |s.pp|)
    ensures k <= |Step(s, line).pp| == DepthAfter(|s.pp|, DirectiveOf(line.text))
    ensures Step(s, line).pp[..k] == s.pp[..k]
  {
    assert Step(s, line).pp == Checkpoint(s, DirectiveOf(line.text)).pp;
  }

  lemma {:induction false} EnclosedKeepsCheckpoints(s: State, lines: seq<Line>, depth: nat)
    requires Enclosed(lines, depth) && |s.pp| >= depth
    ensures Run(s, lines).pp == s.pp[..|s.pp| - depth]
    decreases |lines|
  {
    if |lines| > 0 {
      var d := DirectiveOf(lines[0].text);
      assert DepthAfter(depth, d) >= 0 && Enclosed(lines[1..], DepthAfter(depth, d));
      StepAbove(s, lines[0], |s.pp| - depth);
      EnclosedKeepsCheckpoints(Step(s, lines[0]), lines[1..], DepthAfter(depth, d));
    }
  }

  lemma EnclosedKeepsAll(s: State, lines: seq<Line>)
    requires Enclosed(lines, 0)
    ensures Run(s, lines).pp == s.pp
  {
    EnclosedKeepsCheckpoints(s, lines, 0);
    assert s.pp[..|s.pp|] == s.pp;
  }

  /** The line next, at an #else, acted on the stack before the #if; and that stack is still saved. */
  predicate BackAtIf(t: State, pp: seq<PreprocessorInfo>, next: Line)
    requires |pp| > 0
  {
    var top := pp[|pp| - 1];
    && t.stack == CodeStep(top.stack_before_if, next)
    && |t.pp| == |pp| && t.pp[|t.pp| - 1].stack_before_if == top.stack_before_if
  }

  lemma ElseRestores(s: State, next: Line)
    requires |s.pp| > 0 && DirectiveOf(next.text) == Else
    ensures BackAtIf(Step(s, next), s.pp, next)
  {
    assert Step(s, next).pp == Checkpoint(s, Else).pp;
  }

  /**
   * Every branch of a conditional starts from the stack before its #if, whatever the branch before it did: after the
   * lines of that branch, an #else brings that stack back.
   */
  lemma EveryBranchStartsAtIf(s: State, branch: seq<Line>, next: Line)
    requires |s.pp| > 0 && Enclosed(branch, 0) && DirectiveOf(next.text) == Else
    ensures BackAtIf(Step(Run(s, branch), next), s.pp, next)
  {
    EnclosedKeepsAll(s, branch);
    ElseRestores(Run(s, branch), next);
  }
}
