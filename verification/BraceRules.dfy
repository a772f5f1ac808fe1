/** What the line rules of the nesting stack compute: on braces, parentheses, inline assembly and namespace heads. */
module BraceRules {
  import opened Characters
  import opened NestingStates

  // ---- braces ----

  predicate NoTokens(text: string) { forall i :: 0 <= i < |text| ==> text[i] !in "{;)}" }

  /** A token of the text, with the block it opens if it is an opening brace. */
  datatype Mark = Mark(c: char, block: Block)

  function Marks(text: string): seq<Mark>
    decreases |text|
  {
    var i := Find(text, "{;)}");
    if i == |text| then [] else [Mark(text[i], OpenedBlock(text))] + Marks(text[i + 1..])
  }

  function Acts(stack: seq<Block>, marks: seq<Mark>): seq<Block>
    decreases |marks|
  {
    if |marks| == 0 then stack else Acts(Act(stack, marks[0].c, marks[0].block), marks[1..])
  }

  /** The braces rule sees the tokens of a text only. */
  lemma {:induction false} BracesActs(stack: seq<Block>, text: string)
    ensures Braces(stack, text) == Acts(stack, Marks(text))
    decreases |text|
  {
    var i := Find(text, "{;)}");
    if i < |text| {
      var mark, rest := Mark(text[i], OpenedBlock(text)), Marks(text[i + 1..]);
      assert ([mark] + rest)[1..] == rest;
      BracesActs(Act(stack, mark.c, mark.block), text[i + 1..]);
    }
  }

  lemma {:induction false} MarksSeen(text: string)
    ensures forall k :: 0 <= k < |Marks(text)| ==> Marks(text)[k].block.seen_open_brace && Marks(text)[k].c in "{;)}"
    decreases |text|
  {
    var i := Find(text, "{;)}");
    if i < |text| { MarksSeen(text[i + 1..]); }
  }

  /** Braces close what they open, starting with depth of them open. */
  predicate Balanced(text: string, depth: nat) {
    if text == "" then depth == 0
    else if text[0] == '{' then Balanced(text[1..], depth + 1)
    else if text[0] == '}' then depth > 0 && Balanced(text[1..], depth - 1)
    else Balanced(text[1..], depth)
  }

  predicate BalancedMarks(marks: seq<Mark>, depth: nat)
    decreases |marks|
  {
    if |marks| == 0 then depth == 0
    else if marks[0].c == '{' then BalancedMarks(marks[1..], depth + 1)
    else if marks[0].c == '}' then depth > 0 && BalancedMarks(marks[1..], depth - 1)
    else BalancedMarks(marks[1..], depth)
  }

  lemma {:induction false} BalancedSkips(text: string, i: nat, depth: nat)
    requires i <= |text| && NoTokens(text[..i])
    ensures Balanced(text, depth) <==> Balanced(text[i..], depth)
  {
    if i == 0 {
      assert text[0..] == text;
    } else {
      assert text[..i][0] == text[0] && text[1..][..i - 1] == text[..i][1..];
      BalancedSkips(text[1..], i - 1, depth);
      assert text[1..][i - 1..] == text[i..];
    }
  }

  /** The rest is balanced after the token c. */
  predicate BalancedAfter(c: char, rest: string, depth: nat) {
    if c == '{' then Balanced(rest, depth + 1)
    else if c == '}' then depth > 0 && Balanced(rest, depth - 1)
    else Balanced(rest, depth)
  }

  lemma BalancedAtToken(text: string, i: nat, depth: nat)
    requires i == Find(text, "{;)}")
    ensures Balanced(text, depth) <==> if i == |text| then depth == 0 else BalancedAfter(text[i], text[i + 1..], depth)
  {
    BalancedSkips(text, i, depth);
    if i == |text| {
      assert text[i..] == "";
    } else {
      assert text[i..][0] == text[i] && text[i..][1..] == text[i + 1..];
    }
  }

  lemma BalancedCons(mark: Mark, rest: seq<Mark>, depth: nat)
    ensures BalancedMarks([mark] + rest, depth) <==>
            if mark.c == '{' then BalancedMarks(rest, depth + 1)
            else if mark.c == '}' then depth > 0 && BalancedMarks(rest, depth - 1)
            else BalancedMarks(rest, depth)
  {
    assert ([mark] + rest)[1..] == rest;
  }

  lemma {:induction false} BalancedTokens(text: string, depth: nat)
    ensures Balanced(text, depth) <==> BalancedMarks(Marks(text), depth)
    decreases |text|
  {
    var i := Find(text, "{;)}");
    BalancedAtToken(text, i, depth);
    if i < |text| {
      BalancedCons(Mark(text[i], OpenedBlock(text)), Marks(text[i + 1..]), depth);
      BalancedTokens(text[i + 1..], if text[i] == '{' then depth + 1
                                    else if text[i] == '}' && depth > 0 then depth - 1 else depth);
    }
  }

  /** The blocks that depth closing braces take off, and the one below them, have seen their braces. */
  predicate SeenDown(stack: seq<Block>, depth: nat) {
    forall k :: 0 <= k < |stack| && |stack| - depth - 1 <= k ==> stack[k].seen_open_brace
  }

  lemma {:induction false} MarksTakeOff(stack: seq<Block>, marks: seq<Mark>, depth: nat)
    requires BalancedMarks(marks, depth) && depth <= |stack| && SeenDown(stack, depth)
    requires forall k :: 0 <= k < |marks| ==> marks[k].block.seen_open_brace && marks[k].c in "{;)}"
    ensures Acts(stack, marks) == stack[..|stack| - depth]
    decreases |marks|
  {
    if |marks| == 0 {
      assert stack[..|stack|] == stack;
    } else {
      var next := Act(stack, marks[0].c, marks[0].block);
      if marks[0].c == '{' {
        MarksTakeOff(next, marks[1..], depth + 1);
        assert next[..|stack| - depth] == stack[..|stack| - depth];
      } else if marks[0].c == '}' {
        MarksTakeOff(next, marks[1..], depth - 1);
      } else {
        MarksTakeOff(next, marks[1..], depth);
      }
    }
  }

  /** Text that closes depth blocks and every block it opens takes those depth blocks off, whatever else is in it. */
  lemma BalancedTakesOff(stack: seq<Block>, text: string, depth: nat)
    requires Balanced(text, depth) && depth <= |stack| && SeenDown(stack, depth)
    ensures Braces(stack, text) == stack[..|stack| - depth]
  {
    BracesActs(stack, text);
    MarksSeen(text);
    BalancedTokens(text, depth);
    MarksTakeOff(stack, Marks(text), depth);
  }

  /** Balanced text leaves a stack whose innermost block is open as it was. */
  lemma BalancedLeavesStack(stack: seq<Block>, text: string)
    requires Balanced(text, 0) && SeenOpenBrace(stack)
    ensures Braces(stack, text) == stack
  {
    BalancedTakesOff(stack, text, 0);
    assert stack[..|stack|] == stack;
  }

  lemma {:induction false} OneMoreClose(text: string, depth: nat)
    requires Balanced(text, depth)
    ensures Balanced(text + "}", depth + 1)
  {
    if text == "" {
      assert text + "}" == "}" && "}"[1..] == "";
    } else {
      assert (text + "}")[1..] == text[1..] + "}";
      OneMoreClose(text[1..], if text[0] == '{' then depth + 1 else if text[0] == '}' then depth - 1 else depth);
    }
  }

  lemma {:induction false} FindAfter(head: string, rest: string)
    requires NoTokens(head) && |rest| > 0 && rest[0] in "{;)}"
    ensures Find(head + rest, "{;)}") == |head|
  {
    if head == "" {
      assert head + rest == rest;
    } else {
      assert (head + rest)[1..] == head[1..] + rest;
      FindAfter(head[1..], rest);
    }
  }

  /** A head without tokens and then the token c. */
  lemma MarksAfterHead(head: string, c: char, rest: string)
    requires NoTokens(head) && c in "{;)}"
    ensures Marks(head + ([c] + rest)) == [Mark(c, OpenedBlock(head + ([c] + rest)))] + Marks(rest)
  {
    var text := head + ([c] + rest);
    FindAfter(head, [c] + rest);
    assert text[|head|] == c && text[|head| + 1..] == rest;
  }

  lemma ActsAfterHead(stack: seq<Block>, mark: Mark, rest: seq<Mark>)
    ensures Acts(stack, [mark] + rest) == Acts(Act(stack, mark.c, mark.block), rest)
  {
    assert ([mark] + rest)[1..] == rest;
  }

  /** A class or namespace head is done when its body closes, and a declaration is done at its semicolon. */
  lemma BodyClosesBlock(stack: seq<Block>, b: Block, head: string, body: string)
    requires !b.seen_open_brace && SeenOpenBrace(stack) && NoTokens(head) && Balanced(body, 0)
    ensures Braces(stack + [b], head + ("{" + (body + "}"))) == stack
    ensures Braces(stack + [b], head + (";" + "")) == stack
  {
    BodyCloses(stack, b, head, body);
    var text := head + (";" + "");
    BracesActs(stack + [b], text);
    MarksAfterHead(head, ';', "");
    ActsAfterHead(stack + [b], Mark(';', OpenedBlock(text)), Marks(""));
    assert (stack + [b])[..|stack|] == stack;
  }

  lemma BodyCloses(stack: seq<Block>, b: Block, head: string, body: string)
    requires !b.seen_open_brace && SeenOpenBrace(stack) && NoTokens(head) && Balanced(body, 0)
    ensures Braces(stack + [b], head + ("{" + (body + "}"))) == stack
  {
    var rest := body + "}";
    BracesActs(stack + [b], head + ("{" + rest));
    MarksAfterHead(head, '{', rest);
    BraceEndsHead(stack, b, Mark('{', OpenedBlock(head + ("{" + rest))), Marks(rest));
    BodyTakesOff(stack, b.(seen_open_brace := true), body);
    BracesActs(stack + [b.(seen_open_brace := true)], rest);
  }

  lemma BraceEndsHead(stack: seq<Block>, b: Block, mark: Mark, rest: seq<Mark>)
    requires !b.seen_open_brace && mark.c == '{'
    ensures Acts(stack + [b], [mark] + rest) == Acts(stack + [b.(seen_open_brace := true)], rest)
  {
    ActsAfterHead(stack + [b], mark, rest);
    assert Act(stack + [b], '{', mark.block) == stack + [b.(seen_open_brace := true)];
  }

  lemma BodyTakesOff(stack: seq<Block>, b: Block, body: string)
    requires b.seen_open_brace && SeenOpenBrace(stack) && Balanced(body, 0)
    ensures Braces(stack + [b], body + "}") == stack
  {
    OneMoreClose(body, 0);
    BalancedTakesOff(stack + [b], body + "}", 1);
    assert (stack + [b])[..|stack|] == stack;
  }

  // ---- parentheses and inline assembly ----

  function ParenthesesRun(stack: seq<Block>, texts: seq<string>): seq<Block>
    decreases |texts|
  {
    if |texts| == 0 then stack else ParenthesesRun(Parentheses(stack, texts[0]), texts[1..])
  }

  /** Opening less closing parentheses. */
  function Net(texts: seq<string>): int {
    if |texts| == 0 then 0 else Count(texts[0], '(') - Count(texts[0], ')') + Net(texts[1..])
  }

  /** The parentheses of every prefix of the lines, with those open before, are not yet all closed. */
  predicate StaysOpen(open: int, texts: seq<string>)
    decreases |texts|
  {
    |texts| <= 1 || (open + Count(texts[0], '(') - Count(texts[0], ')') != 0
                     && StaysOpen(open + Count(texts[0], '(') - Count(texts[0], ')'), texts[1..]))
  }

  /** The count of the innermost block is the net of all lines, and no other block is touched. */
  lemma {:induction false} ParenthesesAddUp(stack: seq<Block>, texts: seq<string>)
    requires |stack| > 0
    ensures var after := ParenthesesRun(stack, texts);
            && |after| == |stack| && after[..|stack| - 1] == stack[..|stack| - 1]
            && Top(after).open_parentheses == Top(stack).open_parentheses + Net(texts)
            && Top(after).kind == Top(stack).kind && Top(after).seen_open_brace == Top(stack).seen_open_brace
    decreases |texts|
  {
    if |texts| > 0 { ParenthesesAddUp(Parentheses(stack, texts[0]), texts[1..]); }
  }

  /** Inline assembly lasts until its parentheses are closed, and the line that closes them is its last. */
  lemma {:induction false} AsmUntilClosed(stack: seq<Block>, texts: seq<string>)
    requires |stack| > 0 && |texts| > 0 && Top(stack).inline_asm == InsideAsm
    requires StaysOpen(Top(stack).open_parentheses, texts)
    ensures var after := ParenthesesRun(stack, texts);
            && |after| == |stack|
            && Top(after).inline_asm == if Top(stack).open_parentheses + Net(texts) == 0 then EndAsm else InsideAsm
    decreases |texts|
  {
    var next := Parentheses(stack, texts[0]);
    if |texts| == 1 {
      assert texts[1..] == [];
      assert ParenthesesRun(next, []) == next;
    } else {
      AsmUntilClosed(next, texts[1..]);
    }
  }

  // ---- namespace heads ----

  predicate IsName(name: string) {
    |name| > 0 && forall i :: 0 <= i < |name| ==> IsWordChar(name[i]) || name[i] == ':'
  }

  /** The heads of nested namespaces, in front of the rest of a line. */
  function HeadsText(names: seq<string>, rest: string): string {
    if |names| == 0 then rest else "namespace " + (names[0] + (" {" + HeadsText(names[1..], rest)))
  }

  function NamespaceBlocks(names: seq<string>): (blocks: seq<Block>)
    ensures |blocks| == |names|
    ensures forall i :: 0 <= i < |names| ==> blocks[i] == NewBlock(Namespace(names[i]), true)
  {
    seq(|names|, i requires 0 <= i < |names| => NewBlock(Namespace(names[i]), true))
  }

  lemma {:induction false} WordLengthOf(name: string, rest: string, colons: bool)
    requires forall i :: 0 <= i < |name| ==> IsWordChar(name[i]) || (colons && name[i] == ':')
    requires |rest| > 0 && !IsWordChar(rest[0]) && !(colons && rest[0] == ':')
    ensures WordLength(name + rest, colons) == |name|
  {
    if name == "" {
      assert name + rest == rest;
    } else {
      assert (name + rest)[1..] == name[1..] + rest;
      WordLengthOf(name[1..], rest, colons);
    }
  }

  lemma NamespaceWord(tail: string)
    ensures var text := "namespace " + tail;
            Strip(text) == text && Word(text) == "namespace" && Strip(AfterWord(text)) == Strip(tail)
  {
    var text := "namespace " + tail;
    assert text == "namespace" + (" " + tail);
    WordLengthOf("namespace", " " + tail, false);
    assert AfterWord(text) == " " + tail && (" " + tail)[1..] == tail;
  }

  /** One head pushes one block and is gone from the text. */
  lemma OneNamespace(stack: seq<Block>, name: string, tail: string)
    requires IsName(name)
    ensures Namespaces(stack, "namespace " + (name + (" {" + tail)))
         == Namespaces(stack + [NewBlock(Namespace(name), true)], tail)
  {
    var after := " {" + tail;
    NamespaceWord(name + after);
    assert Strip(name + after) == name + after;
    WordLengthOf(name, after, true);
    assert (name + after)[..|name|] == name && (name + after)[|name|..] == after;
    assert after[1..] == "{" + tail && Find(after[1..], "{") == 0 && Find(after, "{") == 1;
    assert after[2..] == tail;
  }

  lemma BlocksInOrder(stack: seq<Block>, names: seq<string>)
    requires |names| > 0
    ensures stack + [NewBlock(Namespace(names[0]), true)] + NamespaceBlocks(names[1..]) ==
            stack + NamespaceBlocks(names)
  {
    assert [NewBlock(Namespace(names[0]), true)] + NamespaceBlocks(names[1..]) == NamespaceBlocks(names);
  }

  lemma NoNamespace(stack: seq<Block>, text: string)
    requires Word(Strip(text)) != "namespace"
    ensures Namespaces(stack, text) == (stack, text)
  {}

  /** Nested namespaces declared on one line are pushed in order, and the rest of the line remains. */
  lemma {:induction false} NamespacesInOrder(stack: seq<Block>, names: seq<string>, rest: string)
    requires forall i :: 0 <= i < |names| ==> IsName(names[i])
    requires Word(Strip(rest)) != "namespace"
    ensures Namespaces(stack, HeadsText(names, rest)) == (stack + NamespaceBlocks(names), rest)
    decreases |names|
  {
    if |names| == 0 {
      NoNamespace(stack, rest);
      assert stack + NamespaceBlocks(names) == stack;
    } else {
      OneNamespace(stack, names[0], HeadsText(names[1..], rest));
      NamespacesInOrder(stack + [NewBlock(Namespace(names[0]), true)], names[1..], rest);
      BlocksInOrder(stack, names);
    }
  }
}
