/** The simple regular expressions of the test framework: syntax, language, and the backtracking matcher. */
module Regex {
  import opened Wrappers

  /** A C string: no NUL inside; reading one past the end gives NUL. */
  type CString = s: string | forall i :: 0 <= i < |s| ==> s[i] != '\0' witness ""

  function CAt(s: string, i: nat): char {
    if i < |s| then s[i] else '\0'
  }

  predicate IsInSet(ch: char, str: string) { ch != '\0' && ch in str }
  predicate IsAsciiDigit(ch: char) { '0' <= ch <= '9' }
  predicate IsAsciiPunct(ch: char) { IsInSet(ch, "^-!\"#$%&'()*+,./:;<=>?@[\\]_`{|}~") }
  predicate IsRepeat(ch: char) { IsInSet(ch, "?*+") }
  predicate IsAsciiWhiteSpace(ch: char) { IsInSet(ch, " \U{000C}\n\r\t\U{000B}") }
  predicate IsAsciiWordChar(ch: char) { 'a' <= ch <= 'z' || 'A' <= ch <= 'Z' || '0' <= ch <= '9' || ch == '_' }
  predicate IsValidEscape(c: char) { IsAsciiPunct(c) || IsInSet(c, "dDfnrsStvwW") }

  predicate AtomMatchesChar(escaped: bool, pattern_char: char, ch: char) {
    if escaped then
      match pattern_char
      case 'd' => IsAsciiDigit(ch)
      case 'D' => !IsAsciiDigit(ch)
      case 'f' => ch == '\U{000C}'
      case 'n' => ch == '\n'
      case 'r' => ch == '\r'
      case 's' => IsAsciiWhiteSpace(ch)
      case 'S' => !IsAsciiWhiteSpace(ch)
      case 't' => ch == '\t'
      case 'v' => ch == '\U{000B}'
      case 'w' => IsAsciiWordChar(ch)
      case 'W' => !IsAsciiWordChar(ch)
      case _ => IsAsciiPunct(pattern_char) && pattern_char == ch
    else
      (pattern_char == '.' && ch != '\n') || pattern_char == ch
  }

  // ---- what an atom stands for ----

  ghost const DIGITS: iset<char> := iset ch: char | ch in "0123456789"
  ghost const WORD_CHARS: iset<char> := iset ch: char | 'a' <= ch <= 'z' || 'A' <= ch <= 'Z' || ch in "0123456789_"
  ghost const WHITE_SPACE: iset<char> := iset ch: char | '\U{0009}' <= ch <= '\U{000D}' || ch == ' '
  ghost const PUNCTUATION: iset<char> :=
    iset ch: char | '!' <= ch <= '/' || ':' <= ch <= '@' || '[' <= ch <= '`' || '{' <= ch <= '~'
  ghost const NEWLINE: iset<char> := iset{'\n'}

  ghost function Except(chars: iset<char>): iset<char> { iset ch: char | ch !in chars }

  /** The characters that an atom stands for, unescaped or escaped; none for an escape that is not supported. */
  ghost function AtomChars(escaped: bool, c: char): iset<char> {
    if !escaped then (if c == '.' then Except(NEWLINE) else iset{c})
    else
      match c
      case 'd' => DIGITS
      case 'D' => Except(DIGITS)
      case 'w' => WORD_CHARS
      case 'W' => Except(WORD_CHARS)
      case 's' => WHITE_SPACE
      case 'S' => Except(WHITE_SPACE)
      case 'f' => iset{'\U{000C}'}
      case 'n' => NEWLINE
      case 'r' => iset{'\U{000D}'}
      case 't' => iset{'\U{0009}'}
      case 'v' => iset{'\U{000B}'}
      case _ => if c in PUNCTUATION then iset{c} else iset{}
  }

  lemma ClassesAre(ch: char)
    ensures IsAsciiDigit(ch) <==> ch in DIGITS
    ensures IsAsciiWordChar(ch) <==> ch in WORD_CHARS
    ensures IsAsciiWhiteSpace(ch) <==> ch in WHITE_SPACE
    ensures IsAsciiPunct(ch) <==> ch in PUNCTUATION
  {}

  /** The matcher's test of a character decides the atom's set. */
  lemma AtomMatchesItsChars(escaped: bool, c: char, ch: char)
    ensures AtomMatchesChar(escaped, c, ch) <==> ch in AtomChars(escaped, c)
  {
    ClassesAre(ch);
    ClassesAre(c);
  }

  /** An escape is supported exactly when it stands for some character. */
  lemma ValidEscapeIff(c: char)
    ensures IsValidEscape(c) <==> exists ch :: ch in AtomChars(true, c)
  {
    ClassesAre(c);
    if IsValidEscape(c) {
      var ch := SampleChar(Item(true, c, None));
      assert ch in AtomChars(true, c);
    }
  }

  // ---- syntax ----

  datatype Item = Item(escaped: bool, c: char, rep: Option<char>)

  /** A regex: an optional ^, a list of atoms each with an optional repetition, an optional $. */
  datatype Re = Re(caret: bool, items: seq<Item>, dollar: bool)

  /** A character that stands for itself, or the dot. */
  predicate IsPlain(c: char) { c != '\0' && c !in "\\^$?*+()[]{}|" }

  predicate ItemOk(it: Item) {
    && (if it.escaped then IsValidEscape(it.c) else IsPlain(it.c))
    && (it.rep.Some? ==> IsRepeat(it.rep.value))
  }

  function ItemText(it: Item): string {
    (if it.escaped then "\\" else "") + [it.c] + (if it.rep.Some? then [it.rep.value] else "")
  }

  function ItemsText(items: seq<Item>, dollar: bool): string {
    if |items| == 0 then (if dollar then "$" else "") else ItemText(items[0]) + ItemsText(items[1..], dollar)
  }

  function Text(re: Re): string {
    (if re.caret then "^" else "") + ItemsText(re.items, re.dollar)
  }

  /** One atom and its repetition at the front of s, and the rest of s. */
  function ParseItem(s: string): Option<(Item, string)> {
    if |s| == 0 then None
    else
      var escaped := s[0] == '\\';
      var t := if escaped then s[1..] else s;
      if |t| == 0 then None
      else
        var rep := if IsRepeat(CAt(t, 1)) then Some(t[1]) else None;
        var it := Item(escaped, t[0], rep);
        if ItemOk(it) then Some((it, if rep.Some? then t[2..] else t[1..])) else None
  }

  function ParseItems(s: string): Option<(seq<Item>, bool)>
    decreases |s|
  {
    if s == "" then Some(([], false))
    else if s == "$" then Some(([], true))
    else match ParseItem(s)
      case None => None
      case Some((it, rest)) =>
        match ParseItems(rest)
        case None => None
        case Some((items, dollar)) => Some(([it] + items, dollar))
  }

  function Parse(s: string): Option<Re> {
    var caret := CAt(s, 0) == '^';
    match ParseItems(if caret then s[1..] else s)
    case None => None
    case Some((items, dollar)) => Some(Re(caret, items, dollar))
  }

  lemma ItemOfText(s: string)
    requires ParseItem(s).Some?
    ensures var (it, rest) := ParseItem(s).value; ItemOk(it) && ItemText(it) + rest == s
  {
    var (it, rest) := ParseItem(s).value;
    var n := (if it.escaped then 2 else 1) + (if it.rep.Some? then 1 else 0);
    ItemIsFront(s, it, rest);
    Front(s, n);
  }

  lemma ItemIsFront(s: string, it: Item, rest: string)
    requires ParseItem(s) == Some((it, rest))
    ensures var n := (if it.escaped then 2 else 1) + (if it.rep.Some? then 1 else 0);
            n <= |s| && rest == s[n..] && ItemText(it) == s[..n]
  {
    var k := if it.escaped then 1 else 0;
    assert s[k..][0] == it.c && (it.rep.Some? ==> s[k..][1] == it.rep.value);
    assert it.escaped ==> s[1..][1..] == s[2..] && (it.rep.Some? ==> s[1..][2..] == s[3..]);
  }

  lemma Front(s: string, n: nat)
    requires n <= |s|
    ensures s[..n] + s[n..] == s
  {}

  lemma TextOfItem(it: Item, rest: string)
    requires ItemOk(it) && !IsRepeat(CAt(rest, 0))
    ensures var s := ItemText(it) + rest; ParseItem(s) == Some((it, rest)) && s != "" && s != "$"
  {
    var s := ItemText(it) + rest;
    var t := if it.escaped then s[1..] else s;
    assert t[0] == it.c;
    assert it.rep.Some? ==> t[1] == it.rep.value && t[2..] == rest;
    assert it.rep == None ==> t[1..] == rest && CAt(t, 1) == CAt(rest, 0);
  }

  predicate ItemsOk(items: seq<Item>) { forall i :: 0 <= i < |items| ==> ItemOk(items[i]) }

  lemma TextCons(it: Item, items: seq<Item>, dollar: bool)
    ensures ItemsText([it] + items, dollar) == ItemText(it) + ItemsText(items, dollar)
  {
    assert ([it] + items)[1..] == items;
  }

  /** A parsed regex prints back to the text it was parsed from. */
  lemma {:induction false} TextOfParse(s: string)
    ensures ParseItems(s).Some? ==> ItemsText(ParseItems(s).value.0, ParseItems(s).value.1) == s
                                    && ItemsOk(ParseItems(s).value.0)
    decreases |s|
  {
    if s != "" && s != "$" && ParseItems(s).Some? {
      var (it, rest) := ParseItem(s).value;
      ItemOfText(s);
      TextOfParse(rest);
      var (items, dollar) := ParseItems(rest).value;
      TextCons(it, items, dollar);
    }
  }

  lemma ParseCons(it: Item, rest: string, items: seq<Item>, dollar: bool)
    requires ItemOk(it) && !IsRepeat(CAt(rest, 0)) && ParseItems(rest) == Some((items, dollar))
    ensures ParseItems(ItemText(it) + rest) == Some(([it] + items, dollar))
  {
    TextOfItem(it, rest);
  }

  /** Every well-formed regex parses, to itself: Parse accepts exactly the grammar. */
  lemma {:induction false} ParseOfText(items: seq<Item>, dollar: bool)
    requires ItemsOk(items)
    ensures ParseItems(ItemsText(items, dollar)) == Some((items, dollar))
    decreases |items|
  {
    if |items| > 0 {
      var it, rest := items[0], ItemsText(items[1..], dollar);
      ParseOfText(items[1..], dollar);
      FirstChar(items[1..], dollar);
      ParseCons(it, rest, items[1..], dollar);
      assert [it] + items[1..] == items;
    }
  }

  /** Text never starts with a repetition. */
  lemma FirstChar(items: seq<Item>, dollar: bool)
    requires ItemsOk(items)
    ensures !IsRepeat(CAt(ItemsText(items, dollar), 0))
  {
    if |items| > 0 {
      assert ItemOk(items[0]);
      assert ItemText(items[0])[0] == if items[0].escaped then '\\' else items[0].c;
    }
  }

  // ---- the validator ----

  /** Scanning on from position i with prev_repeatable == prev finds no error. */
  predicate ScanOk(s: string, i: nat, prev: bool)
    requires i <= |s|
    decreases |s| - i
  {
    if i == |s| then true
    else if s[i] == '\\' then i + 1 < |s| && IsValidEscape(s[i + 1]) && ScanOk(s, i + 2, true)
    else
      && !(s[i] == '^' && i > 0)
      && !(s[i] == '$' && i + 1 < |s|)
      && !IsInSet(s[i], "()[]{}|")
      && !(IsRepeat(s[i]) && !prev)
      && ScanOk(s, i + 1, !IsInSet(s[i], "^$?*+"))
  }

  /** What must follow an atom: an optional repetition and then items. */
  predicate TailOk(t: string) {
    if IsRepeat(CAt(t, 0)) then ParseItems(t[1..]).Some? else ParseItems(t).Some?
  }

  /** An escape at the front of t is accepted exactly when its character is valid and the tail is. */
  lemma EscapeParses(t: string)
    requires |t| >= 2 && t[0] == '\\'
    ensures ParseItems(t).Some? <==> IsValidEscape(t[1]) && TailOk(t[2..])
  {
    var u := t[1..];
    assert u[0] == t[1] && u[1..] == t[2..];
    assert CAt(u, 1) == CAt(t[2..], 0);
    if |t| > 2 { assert u[2..] == t[2..][1..]; }
  }

  /** The same for an ordinary character. */
  lemma PlainParses(t: string)
    requires |t| >= 1 && t[0] != '\\' && t != "$"
    ensures ParseItems(t).Some? <==> IsPlain(t[0]) && TailOk(t[1..])
  {
    assert CAt(t, 1) == CAt(t[1..], 0);
    if |t| > 1 { assert t[2..] == t[1..][1..]; }
  }

  /** The tests the validator makes on an unescaped character, against the grammar's one. */
  lemma CharClasses(ch: char)
    requires ch != '\0' && ch != '\\'
    ensures IsPlain(ch) <==> ch != '^' && ch != '$' && !IsInSet(ch, "()[]{}|") && !IsRepeat(ch)
    ensures IsInSet(ch, "^$?*+") <==> ch == '^' || ch == '$' || IsRepeat(ch)
  {}

  /** What the grammar wants of the text after a position the scanner reached with prev_repeatable == prev. */
  predicate RestOk(t: string, prev: bool) {
    if prev then TailOk(t) else ParseItems(t).Some?
  }

  lemma PlainStep(t: string, prev: bool)
    requires |t| >= 1 && t[0] != '\0' && t[0] != '\\'
    ensures RestOk(t, prev) <==>
            && t[0] != '^' && !(t[0] == '$' && |t| > 1) && !IsInSet(t[0], "()[]{}|") && !(IsRepeat(t[0]) && !prev)
            && RestOk(t[1..], !IsInSet(t[0], "^$?*+"))
  {
    CharClasses(t[0]);
    if t == "$" {
      assert t[1..] == "";
    } else {
      PlainParses(t);
    }
  }

  lemma ScanEscape(s: CString, i: nat, prev: bool)
    requires i < |s| && s[i] == '\\' && (i + 1 < |s| ==> (ScanOk(s, i + 2, true) <==> RestOk(s[i + 2..], true)))
    ensures ScanOk(s, i, prev) <==> RestOk(s[i..], prev)
  {
    var t := s[i..];
    assert !IsRepeat(t[0]);
    if i + 1 < |s| {
      assert t[2..] == s[i + 2..];
      EscapeParses(t);
    }
  }

  lemma ScanPlain(s: CString, i: nat, prev: bool)
    requires i < |s| && s[i] != '\\' && (i == 0 ==> s[0] != '^')
    requires var p := !IsInSet(s[i], "^$?*+"); ScanOk(s, i + 1, p) <==> RestOk(s[i + 1..], p)
    ensures ScanOk(s, i, prev) <==> RestOk(s[i..], prev)
  {
    assert s[i..][1..] == s[i + 1..];
    PlainStep(s[i..], prev);
  }

  lemma {:induction false} ScanIsParse(s: CString, i: nat, prev: bool)
    requires i <= |s| && (i == 0 ==> CAt(s, 0) != '^' && !prev)
    ensures ScanOk(s, i, prev) <==> RestOk(s[i..], prev)
    decreases |s| - i
  {
    if i == |s| {
      assert s[i..] == "";
    } else if s[i] == '\\' {
      if i + 1 < |s| { ScanIsParse(s, i + 2, true); }
      ScanEscape(s, i, prev);
    } else {
      ScanIsParse(s, i + 1, !IsInSet(s[i], "^$?*+"));
      ScanPlain(s, i, prev);
    }
  }

  lemma ValidIffParses(s: CString)
    ensures ScanOk(s, 0, false) <==> Parse(s).Some?
  {
    if CAt(s, 0) == '^' {
      ScanIsParse(s, 1, false);
    } else {
      ScanIsParse(s, 0, false);
      assert s[0..] == s;
    }
  }

  /** ValidateRegex accepts exactly the regexes of the grammar. */
  method ValidateRegex(regex: Option<CString>) returns (is_valid: bool)
    ensures is_valid <==> regex.Some? && Parse(regex.value).Some?
  {
    if regex == None { return false; }
    var s := regex.value;
    ValidIffParses(s);
    is_valid := true;
    var prev_repeatable, i := false, 0;
    while i < |s|
      invariant i <= |s|
      invariant is_valid && ScanOk(s, i, prev_repeatable) <==> ScanOk(s, 0, false)
    {
      if s[i] == '\\' {
        i := i + 1;
        if i == |s| { return false; }
        if !IsValidEscape(s[i]) { is_valid := false; }
        prev_repeatable := true;
      } else {
        var ch := s[i];
        if ch == '^' && i > 0 {
          is_valid := false;
        } else if ch == '$' && i + 1 < |s| {
          is_valid := false;
        } else if IsInSet(ch, "()[]{}|") {
          is_valid := false;
        } else if IsRepeat(ch) && !prev_repeatable {
          is_valid := false;
        }
        prev_repeatable := !IsInSet(ch, "^$?*+");
      }
      i := i + 1;
    }
  }

  // ---- language ----

  /** w is a repetition of the item's atom. */
  ghost predicate InItem(it: Item, w: string) {
    && (forall i :: 0 <= i < |w| ==> w[i] in AtomChars(it.escaped, it.c))
    && match it.rep
       case None => |w| == 1
       case Some(r) => (r == '?' ==> |w| <= 1) && (r == '+' ==> |w| >= 1)
  }

  /** w is the concatenation of words of the items. */
  ghost predicate InLanguage(items: seq<Item>, w: string) {
    if |items| == 0 then w == ""
    else exists k :: 0 <= k <= |w| && InItem(items[0], w[..k]) && InLanguage(items[1..], w[k..])
  }

  /** A prefix of str is in the language; all of str if the regex ends in $. */
  ghost predicate MatchesHead(items: seq<Item>, dollar: bool, str: string) {
    exists k :: 0 <= k <= |str| && InLanguage(items, str[..k]) && (dollar ==> k == |str|)
  }

  /** The first item takes k characters and the others match a head of the rest. */
  ghost predicate Splits(items: seq<Item>, dollar: bool, str: string, k: nat)
    requires |items| > 0
  {
    k <= |str| && InItem(items[0], str[..k]) && MatchesHead(items[1..], dollar, str[k..])
  }

  lemma HeadSplits(items: seq<Item>, dollar: bool, str: string)
    requires |items| > 0
    ensures MatchesHead(items, dollar, str) <==> exists k: nat :: Splits(items, dollar, str, k)
  {
    if MatchesHead(items, dollar, str) {
      var n :| 0 <= n <= |str| && InLanguage(items, str[..n]) && (dollar ==> n == |str|);
      var k :| 0 <= k <= n && InItem(items[0], str[..n][..k]) && InLanguage(items[1..], str[..n][k..]);
      assert str[..n][..k] == str[..k] && str[..n][k..] == str[k..][..n - k];
      assert Splits(items, dollar, str, k);
    }
    if exists k: nat :: Splits(items, dollar, str, k) {
      var k: nat :| Splits(items, dollar, str, k);
      var j :| 0 <= j <= |str[k..]| && InLanguage(items[1..], str[k..][..j]) && (dollar ==> j == |str[k..]|);
      assert str[..k + j][..k] == str[..k] && str[..k + j][k..] == str[k..][..j];
      assert InLanguage(items, str[..k + j]);
    }
  }

  // ---- the matcher ----

  const SIZE_MAX: nat := 0xFFFF_FFFF_FFFF_FFFF

  /** Tries every number of repetitions of the atom, then the rest of the regex. */
  method MatchRepetitionAndRegexAtHead(escaped: bool, c: char, repeat: char, regex: CString, str: CString)
    returns (found: bool)
    requires IsRepeat(repeat) && ParseItems(regex).Some? && |str| < SIZE_MAX
    ensures var (items, dollar) := ParseItems(regex).value;
            found <==> exists k: nat :: Splits([Item(escaped, c, Some(repeat))] + items, dollar, str, k)
    decreases |regex|, 1
  {
    ghost var (rest, dollar) := ParseItems(regex).value;
    ghost var items := [Item(escaped, c, Some(repeat))] + rest;
    assert items[1..] == rest;
    var min_count := if repeat == '+' then 1 else 0;
    var max_count := if repeat == '?' then 1 else SIZE_MAX - 1;
    var i := 0;
    while i <= max_count
      invariant 0 <= i <= |str| && i <= max_count + 1
      invariant forall j :: 0 <= j < i ==> str[j] in AtomChars(escaped, c)
      invariant forall k: nat :: k < i ==> !Splits(items, dollar, str, k)
      decreases |str| - i
    {
      if i >= min_count {
        var tail := MatchRegexAtHead(regex, str[i..]);
        if tail {
          assert Splits(items, dollar, str, i);
          return true;
        }
      }
      assert !Splits(items, dollar, str, i);
      if i < |str| { AtomMatchesItsChars(escaped, c, str[i]); }
      if i == |str| || !AtomMatchesChar(escaped, c, str[i]) {
        forall k: nat | i < k <= |str| ensures !InItem(items[0], str[..k]) { assert str[..k][i] == str[i]; }
        return false;
      }
      i := i + 1;
    }
    found := false;
  }

  /** A $ in front of a valid regex is all of it, and matches the end of the string only. */
  lemma DollarOnly(regex: CString, str: string)
    requires ParseItems(regex).Some? && CAt(regex, 0) == '$'
    ensures ParseItems(regex).value == ([], true)
    ensures MatchesHead([], true, str) <==> str == ""
  {
    assert str[..|str|] == str;
  }

  /** Whether the regex matches a head of str. */
  method MatchRegexAtHead(regex: CString, str: CString) returns (found: bool)
    requires ParseItems(regex).Some? && |str| < SIZE_MAX
    ensures var (items, dollar) := ParseItems(regex).value; found <==> MatchesHead(items, dollar, str)
    decreases |regex|, 0
  {
    ghost var (items, dollar) := ParseItems(regex).value;
    if CAt(regex, 0) == '\0' {
      assert str[..0] == "";
      return true;
    }
    if CAt(regex, 0) == '$' {
      DollarOnly(regex, str);
      return CAt(str, 0) == '\0';
    }
    HeadSplits(items, dollar, str);
    var escaped := regex[0] == '\\';
    var re := if escaped then regex[1..] else regex;
    assert items[0].c == re[0];
    if IsRepeat(CAt(re, 1)) {
      found := MatchRepetitionAndRegexAtHead(escaped, re[0], re[1], re[2..], str);
      assert items == [items[0]] + items[1..];
    } else {
      if str != "" { AtomMatchesItsChars(escaped, re[0], str[0]); }
      found := CAt(str, 0) != '\0' && AtomMatchesChar(escaped, re[0], str[0]);
      if found {
        found := MatchRegexAtHead(re[1..], str[1..]);
        OneChar(items, dollar, str);
      } else {
        forall k: nat ensures !Splits(items, dollar, str, k) {
          if k == 1 && k <= |str| { assert str[..1][0] == str[0]; }
        }
      }
    }
  }

  /** An item without repetition takes exactly one character. */
  lemma OneChar(items: seq<Item>, dollar: bool, str: string)
    requires |items| > 0 && items[0].rep == None && |str| > 0 && str[0] in AtomChars(items[0].escaped, items[0].c)
    ensures (exists k: nat :: Splits(items, dollar, str, k)) <==> MatchesHead(items[1..], dollar, str[1..])
  {
    assert str[..1] == [str[0]];
    assert InItem(items[0], str[..1]);
    if MatchesHead(items[1..], dollar, str[1..]) { assert Splits(items, dollar, str, 1); }
  }

  // ---- unanchored search and the RE class ----

  /** What a search promises: some substring is in the language, at the start if ^ is there, at the end if $ is. */
  ghost predicate Found(re: Re, str: string) {
    exists i, j :: 0 <= i <= j <= |str| && (re.caret ==> i == 0) && (re.dollar ==> j == |str|)
                   && InLanguage(re.items, str[i..j])
  }

  lemma FoundFrom(re: Re, str: string)
    ensures Found(re, str) <==>
            exists i :: 0 <= i <= |str| && (re.caret ==> i == 0) && MatchesHead(re.items, re.dollar, str[i..])
  {
    if Found(re, str) {
      var i, j :| 0 <= i <= j <= |str| && (re.caret ==> i == 0) && (re.dollar ==> j == |str|)
                  && InLanguage(re.items, str[i..j]);
      assert str[i..][..j - i] == str[i..j];
      assert MatchesHead(re.items, re.dollar, str[i..]);
    }
    if i :| 0 <= i <= |str| && (re.caret ==> i == 0) && MatchesHead(re.items, re.dollar, str[i..]) {
      var k :| 0 <= k <= |str[i..]| && InLanguage(re.items, str[i..][..k]) && (re.dollar ==> k == |str[i..]|);
      assert str[i..][..k] == str[i..i + k];
    }
  }

  /** Whether the regex matches a substring of str. */
  method MatchRegexAnywhere(regex: Option<CString>, str: Option<CString>) returns (found: bool)
    requires regex.Some? ==> Parse(regex.value).Some?
    requires str.Some? ==> |str.value| < SIZE_MAX
    ensures found <==> regex.Some? && str.Some? && Found(Parse(regex.value).value, str.value)
  {
    if regex == None || str == None { return false; }
    var s := str.value;
    FoundFrom(Parse(regex.value).value, s);
    if CAt(regex.value, 0) == '^' {
      found := MatchRegexAtHead(regex.value[1..], s);
      assert s[0..] == s;
      return;
    }
    ghost var re := Parse(regex.value).value;
    var i := 0;
    found := MatchRegexAtHead(regex.value, s[i..]);
    while !found && i < |s|
      invariant 0 <= i <= |s|
      invariant found <==> MatchesHead(re.items, re.dollar, s[i..])
      invariant forall j :: 0 <= j < i ==> !MatchesHead(re.items, re.dollar, s[j..])
      decreases |s| - i
    {
      i := i + 1;
      found := MatchRegexAtHead(regex.value, s[i..]);
    }
  }

  /** The last item is an escaped dollar standing alone, and no $ follows it. */
  predicate EndsInEscapedDollar(re: Re) {
    !re.dollar && |re.items| > 0 && re.items[|re.items| - 1] == Item(true, '$', None)
  }

  /** The regex that RE::Init builds for a full match. */
  function FullPattern(re: Re): Re {
    Re(true, re.items, re.dollar || !EndsInEscapedDollar(re))
  }

  /** The pattern text that Init makes: a ^ in front and a $ behind where they are missing. */
  function FullText(regex: string): string {
    (if CAt(regex, 0) == '^' then "" else "^") + regex + Missing(regex)
  }

  lemma LastOfItem(it: Item)
    requires ItemOk(it)
    ensures var t := ItemText(it); |t| > 0 && (t[|t| - 1] == '$' <==> it == Item(true, '$', None))
  {}

  lemma LastOfSum(a: string, b: string)
    requires |b| > 0
    ensures |a + b| > 0 && (a + b)[|a + b| - 1] == b[|b| - 1]
  {}

  /** The text ends in a dollar just when the regex ends in one, escaped or not. */
  predicate EndsAlike(text: string, items: seq<Item>, dollar: bool) {
    && |text| > 0
    && (text[|text| - 1] == '$' <==> dollar || (|items| > 0 && items[|items| - 1] == Item(true, '$', None)))
  }

  lemma OneEndsAlike(it: Item)
    requires ItemOk(it)
    ensures EndsAlike(ItemText(it) + "", [it], false)
  {
    LastOfItem(it);
    assert ItemText(it) + "" == ItemText(it);
  }

  lemma ConsEndsAlike(it: Item, text: string, items: seq<Item>, dollar: bool)
    requires EndsAlike(text, items, dollar) && (|items| > 0 || dollar)
    ensures EndsAlike(ItemText(it) + text, [it] + items, dollar)
  {
    LastOfSum(ItemText(it), text);
  }

  lemma {:induction false} LastChar(items: seq<Item>, dollar: bool)
    requires ItemsOk(items) && (|items| > 0 || dollar)
    ensures EndsAlike(ItemsText(items, dollar), items, dollar)
    decreases |items|
  {
    if |items| > 0 {
      var it, rest := items[0], items[1..];
      assert items == [it] + rest;
      TextCons(it, rest, dollar);
      if rest == [] && !dollar {
        OneEndsAlike(it);
      } else {
        LastChar(rest, dollar);
        ConsEndsAlike(it, ItemsText(rest, dollar), rest, dollar);
      }
    }
  }

  lemma {:induction false} AddDollar(items: seq<Item>)
    ensures ItemsText(items, true) == ItemsText(items, false) + "$"
  {
    if |items| > 0 { AddDollar(items[1..]); }
  }

  /** The dollar to add to a text that does not end in one. */
  function Missing(text: string): string {
    if |text| == 0 || text[|text| - 1] != '$' then "$" else ""
  }

  /** The text with its missing dollar is the text of the full pattern. */
  lemma AddedDollar(re: Re)
    requires ItemsOk(re.items)
    ensures var body := ItemsText(re.items, re.dollar);
            body + Missing(body) == ItemsText(re.items, FullPattern(re).dollar)
  {
    var body := ItemsText(re.items, re.dollar);
    AddDollar(re.items);
    assert body + "" == body;
    if |re.items| == 0 {
      assert "" + "$" == "$";
    } else {
      LastChar(re.items, re.dollar);
    }
  }

  lemma MissingBehind(c: char, body: string)
    requires c != '$'
    ensures Missing([c] + body) == Missing(body)
  {
    if body != "" { LastOfSum([c], body); }
  }

  lemma WithCaret(body: string, dollar: string)
    ensures "" + ("^" + body) + dollar == "^" + (body + dollar) && "^" + ("" + body) + dollar == "^" + (body + dollar)
  {}

  /** The text of the full pattern is the full pattern of the text. */
  lemma FullTextIs(regex: string, body: string)
    requires regex == (if CAt(regex, 0) == '^' then "^" else "") + body
    ensures FullText(regex) == "^" + (body + Missing(body))
  {
    WithCaret(body, Missing(body));
    MissingBehind('^', body);
    assert "" + body == body;
  }

  lemma ParseCaret(s: string, t: string, items: seq<Item>, dollar: bool)
    requires s == "^" + t && ParseItems(t) == Some((items, dollar))
    ensures Parse(s) == Some(Re(true, items, dollar))
  {
    assert s[0] == '^' && s[1..] == t;
  }

  function BehindCaret(s: string): string { if CAt(s, 0) == '^' then s[1..] else s }

  lemma CaretSplits(s: string)
    ensures s == (if CAt(s, 0) == '^' then "^" else "") + BehindCaret(s)
  {
    if CAt(s, 0) == '^' { assert s == "^" + s[1..]; } else { assert s == "" + s; }
  }

  /** A parsed text is the text of its parts. */
  lemma PartsOfParse(regex: string, re: Re) returns (body: string)
    requires Parse(regex) == Some(re)
    ensures regex == (if CAt(regex, 0) == '^' then "^" else "") + body
    ensures body == ItemsText(re.items, re.dollar) && ItemsOk(re.items)
  {
    body := BehindCaret(regex);
    CaretSplits(regex);
    TextOfParse(body);
  }

  lemma FullTextParses(regex: string)
    requires Parse(regex).Some?
    ensures Parse(FullText(regex)) == Some(FullPattern(Parse(regex).value))
  {
    var re := Parse(regex).value;
    var body := PartsOfParse(regex, re);
    FullTextIs(regex, body);
    AddedDollar(re);
    ParseOfText(re.items, FullPattern(re).dollar);
    ParseCaret(FullText(regex), body + Missing(body), re.items, FullPattern(re).dollar);
  }

  /** The whole of str is in the language; or only a head of it, when the regex ends in an escaped dollar. */
  ghost predicate FullMatches(re: Re, str: string) {
    if EndsInEscapedDollar(re) then exists k :: 0 <= k <= |str| && InLanguage(re.items, str[..k])
    else InLanguage(re.items, str)
  }

  lemma FullPatternFinds(re: Re, str: string)
    ensures Found(FullPattern(re), str) <==> FullMatches(re, str)
  {
    var full := FullPattern(re);
    assert str[0..|str|] == str;
    forall j | 0 <= j <= |str| ensures str[0..j] == str[..j] {}
    if FullMatches(re, str) && EndsInEscapedDollar(re) {
      var k :| 0 <= k <= |str| && InLanguage(re.items, str[..k]);
      assert InLanguage(full.items, str[0..k]);
    }
  }

  class RE {
    var pattern: Option<CString>
    var full_pattern: Option<CString>
    var is_valid: bool

    ghost predicate Valid()
      reads this
    {
      is_valid ==>
        && pattern.Some? && Parse(pattern.value).Some?
        && full_pattern.Some? && full_pattern.value == FullText(pattern.value)
    }

    constructor (regex: Option<CString>)
      ensures Valid() && pattern == regex
      ensures is_valid <==> regex.Some? && Parse(regex.value).Some?
      ensures !is_valid ==> full_pattern == None
    {
      pattern, full_pattern := regex, None;
      is_valid := false;
      new;
      is_valid := ValidateRegex(regex);
      if is_valid {
        var text: string := regex.value;
        var buffer := if CAt(text, 0) != '^' then "^" else "";
        buffer := buffer + text;
        if |text| == 0 || text[|text| - 1] != '$' { buffer := buffer + "$"; }
        full_pattern := Some(buffer);
      }
    }

    static method FullMatch(str: Option<CString>, re: RE) returns (found: bool)
      requires re.Valid() && (str.Some? ==> |str.value| < SIZE_MAX)
      ensures found <==> re.is_valid && str.Some? && FullMatches(Parse(re.pattern.value).value, str.value)
    {
      if !re.is_valid { return false; }
      FullTextParses(re.pattern.value);
      found := MatchRegexAnywhere(re.full_pattern, str);
      if str.Some? { FullPatternFinds(Parse(re.pattern.value).value, str.value); }
    }

    static method PartialMatch(str: Option<CString>, re: RE) returns (found: bool)
      requires re.Valid() && (str.Some? ==> |str.value| < SIZE_MAX)
      ensures found <==> re.is_valid && str.Some? && Found(Parse(re.pattern.value).value, str.value)
    {
      if !re.is_valid { return false; }
      found := MatchRegexAnywhere(re.pattern, str);
    }
  }

  // ---- when FullMatch means the whole string ----

  /** A character the item's atom matches; never NUL. */
  function SampleChar(it: Item): (ch: char)
    requires ItemOk(it)
    ensures ch != '\0' && ch in AtomChars(it.escaped, it.c)
  {
    ClassesAre(it.c);
    if it.escaped then
      match it.c
      case 'd' => '0'
      case 'D' => 'a'
      case 'f' => '\U{000C}'
      case 'n' => '\n'
      case 'r' => '\r'
      case 's' => ' '
      case 'S' => 'a'
      case 't' => '\t'
      case 'v' => '\U{000B}'
      case 'w' => 'a'
      case 'W' => ' '
      case c => c
    else it.c
  }

  /** No well-formed regex has an empty language. */
  lemma {:induction false} SomeWord(items: seq<Item>) returns (w: string)
    requires ItemsOk(items)
    ensures InLanguage(items, w) && forall i :: 0 <= i < |w| ==> w[i] != '\0'
    decreases |items|
  {
    if |items| == 0 { return ""; }
    var rest := SomeWord(items[1..]);
    w := [SampleChar(items[0])] + rest;
    assert w[..1] == [SampleChar(items[0])] && w[1..] == rest;
    assert InItem(items[0], w[..1]);
  }

  lemma {:induction false} WordEndsInDollar(items: seq<Item>, w: string)
    requires |items| > 0 && items[|items| - 1] == Item(true, '$', None) && InLanguage(items, w)
    ensures |w| > 0 && w[|w| - 1] == '$'
    decreases |items|
  {
    var k :| 0 <= k <= |w| && InItem(items[0], w[..k]) && InLanguage(items[1..], w[k..]);
    if |items| == 1 {
      assert w[k..] == "" && w[..k] == w;
    } else {
      WordEndsInDollar(items[1..], w[k..]);
    }
  }

  /** A string that a full match accepts and the language does not have. */
  lemma MatchesTooMuch(re: Re) returns (str: CString)
    requires ItemsOk(re.items) && EndsInEscapedDollar(re)
    ensures FullMatches(re, str) && !InLanguage(re.items, str)
  {
    var w := SomeWord(re.items);
    str := w + "a";
    assert str[..|w|] == w;
    if InLanguage(re.items, str) { WordEndsInDollar(re.items, str); }
  }

  /**
   * FullMatch decides whether the entire string is in the language, for every string, exactly when the
   * regex does not end in an escaped dollar.
   */
  lemma FullMatchIsWholeIff(re: Re)
    requires ItemsOk(re.items)
    ensures (forall str: CString :: FullMatches(re, str) <==> InLanguage(re.items, str)) <==> !EndsInEscapedDollar(re)
  {
    if EndsInEscapedDollar(re) { var str := MatchesTooMuch(re); }
  }

  /** The smallest case: \$ as a full match accepts $a. */
  lemma EscapedDollarMatchesMore()
    ensures var re := Re(false, [Item(true, '$', None)], false);
            Text(re) == "\\$" && FullText(Text(re)) == "^\\$" && FullMatches(re, "$a") && !InLanguage(re.items, "$a")
  {
    var items := [Item(true, '$', None)];
    assert ItemsText(items[1..], false) == "";
    assert "$a"[..1] == "$" && "$"[..1] == "$" && "$"[1..] == "";
    assert InItem(items[0], "$"[..1]) && InLanguage(items[1..], "$"[1..]);
    assert InLanguage(items, "$a"[..1]);
    if InLanguage(items, "$a") { WordEndsInDollar(items, "$a"); }
  }
}
