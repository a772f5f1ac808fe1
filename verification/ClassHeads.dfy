/** Class heads: what the tool's regular expression for a class or struct declaration takes for one. */
module ClassHeads {
  import opened Characters
  import opened LineForms
  import opened NestingStates
  import opened Wrappers

  // ---- names ----

  /** Words joined by double colons. */
  function NameText(ns: seq<string>): string {
    if |ns| == 0 then "" else if |ns| == 1 then ns[0] else ns[0] + ("::" + NameText(ns[1..]))
  }

  predicate AreNames(ns: seq<string>) { |ns| > 0 && forall k :: 0 <= k < |ns| ==> ns[k] != "" && AllWord(ns[k]) }

  /** The name does not go on: no word character follows, nor a double colon with one behind it. */
  predicate NameEnds(s: string) { WordEnds(s) && ("::" <= s ==> WordEnds(s[2..])) }

  predicate NameSplit(s: string, k: nat, ns: seq<string>) {
    k <= |s| && AreNames(ns) && s[..k] == NameText(ns) && NameEnds(s[k..])
  }

  lemma WordAtFront(s: string)
    ensures WordLength(s, false) > 0 <==> !WordEnds(s)
    ensures AllWord(s[..WordLength(s, false)]) && WordEnds(s[WordLength(s, false)..])
  {
    WordFront(s);
  }

  lemma LongerName(s: string, n: nat, more: nat, ns: seq<string>)
    requires 0 < n && n + 2 <= |s| && AllWord(s[..n]) && s[n..n + 2] == "::" && NameSplit(s[n + 2..], more, ns)
    ensures NameSplit(s, n + 2 + more, [s[..n]] + ns)
  {
    var all := [s[..n]] + ns;
    assert all[1..] == ns;
    assert s[..n + 2 + more] == s[..n] + (s[n..n + 2] + s[n + 2..][..more]);
    assert s[n + 2 + more..] == s[n + 2..][more..];
  }

  lemma ShortName(s: string, n: nat)
    requires 0 < n <= |s| && AllWord(s[..n]) && WordEnds(s[n..]) && ("::" <= s[n..] ==> WordEnds(s[n + 2..]))
    ensures NameSplit(s, n, [s[..n]])
  {
    assert "::" <= s[n..] ==> s[n..][2..] == s[n + 2..];
  }

  /** One step of NameLength, in which n is the length of the first word and more that of the name behind it. */
  lemma NameStep(s: string, n: nat, more: nat)
    requires n == WordLength(s, false) && (n > 0 && "::" <= s[n..] ==> more == NameLength(s[n + 2..]))
    ensures NameLength(s) == if n > 0 && "::" <= s[n..] && more > 0 then n + 2 + more else n
  {}

  /** n is the length of the longest name at the front. */
  predicate IsNameFront(s: string, n: nat, ns: seq<string>) {
    (n > 0 <==> !WordEnds(s)) && (n > 0 ==> NameSplit(s, n, ns))
  }

  lemma WordThenName(s: string, n: nat, more: nat, ns: seq<string>)
    requires 0 < n <= |s| && AllWord(s[..n]) && !WordEnds(s) && WordEnds(s[n..]) && "::" <= s[n..]
    requires IsNameFront(s[n + 2..], more, ns)
    ensures IsNameFront(s, if more > 0 then n + 2 + more else n, if more > 0 then [s[..n]] + ns else [s[..n]])
  {
    if more > 0 {
      assert s[n..][..2] == s[n..n + 2];
      LongerName(s, n, more, ns);
    } else {
      ShortName(s, n);
    }
  }

  /** NameLength is the length of the longest name at the front. */
  lemma {:induction false} NameFront(s: string) returns (ns: seq<string>)
    ensures IsNameFront(s, NameLength(s), ns)
    decreases |s|
  {
    WordAtFront(s);
    var n := WordLength(s, false);
    if n > 0 && "::" <= s[n..] {
      var rest := NameFront(s[n + 2..]);
      var more := NameLength(s[n + 2..]);
      WordThenName(s, n, more, rest);
      NameStep(s, n, more);
      ns := if more > 0 then [s[..n]] + rest else [s[..n]];
    } else {
      ns := [s[..n]];
      NameStep(s, n, 0);
      if n > 0 { ShortName(s, n); }
    }
  }

  // ---- decorations ----

  /** A word of capitals and underscores, and the white space behind it. */
  datatype Decoration = Decoration(word: string, gap: string)

  predicate AllUpper(s: string) { forall i :: 0 <= i < |s| ==> 'A' <= s[i] <= 'Z' || s[i] == '_' }

  predicate IsDecoration(d: Decoration) { d.word != "" && AllUpper(d.word) && d.gap != "" && AllSpace(d.gap) }

  predicate AreDecorations(ds: seq<Decoration>) { forall k :: 0 <= k < |ds| ==> IsDecoration(ds[k]) }

  function DecorationText(ds: seq<Decoration>): string {
    if ds == [] then "" else ds[0].word + (ds[0].gap + DecorationText(ds[1..]))
  }

  /** Decorations, a name, and what follows the name. */
  predicate DecoratedParts(s: string, ds: seq<Decoration>, ns: seq<string>, rest: string) {
    s == DecorationText(ds) + (NameText(ns) + rest) && AreDecorations(ds) && AreNames(ns)
  }

  lemma {:induction false} UpperOf(u: string, t: string)
    requires AllUpper(u) && |t| > 0 && IsSpace(t[0])
    ensures UpperLength(u + t) == |u|
  {
    if u == "" {
      assert u + t == t;
    } else {
      assert (u + t)[1..] == u[1..] + t;
      UpperOf(u[1..], t);
    }
  }

  lemma {:induction false} UpperFront(s: string)
    ensures AllUpper(s[..UpperLength(s)])
  {
    if UpperLength(s) > 0 {
      UpperFront(s[1..]);
      assert s[..UpperLength(s)] == [s[0]] + s[1..][..UpperLength(s[1..])];
    }
  }

  /** Such text begins with a word character. */
  lemma PartsBegin(s: string, ds: seq<Decoration>, ns: seq<string>, rest: string)
    requires DecoratedParts(s, ds, ns, rest)
    ensures |s| > 0 && IsWordChar(s[0]) && NoSpaceFirst(s) && !WordEnds(s)
  {
    if ds == [] { NameBegins(ns, rest); assert s == NameText(ns) + rest; } else { assert s[0] == ds[0].word[0]; }
  }

  lemma NameBegins(ns: seq<string>, rest: string)
    requires AreNames(ns)
    ensures |NameText(ns) + rest| > 0 && IsWordChar((NameText(ns) + rest)[0])
  {
    assert NameText(ns)[0] == ns[0][0];
  }

  /** What the first step of Decorated sees in front of a decoration. */
  lemma FirstDecoration(d: Decoration, t: string)
    requires IsDecoration(d) && |t| > 0 && NoSpaceFirst(t)
    ensures var s := d.word + (d.gap + t);
            && UpperLength(s) == |d.word| > 0 && Strip(s[|d.word|..]) == t && |t| < |s| - |d.word|
  {
    var s := d.word + (d.gap + t);
    UpperOf(d.word, d.gap + t);
    assert s[|d.word|..] == d.gap + t;
    StripOf(d.gap, t);
  }

  /** Text of that form is found to be decorated. */
  lemma {:induction false} DecoratedComplete(s: string, ds: seq<Decoration>, ns: seq<string>, rest: string)
    requires DecoratedParts(s, ds, ns, rest)
    ensures Decorated(s).Some?
    decreases |ds|
  {
    if ds == [] {
      PartsBegin(s, ds, ns, rest);
      var found := NameFront(s);
    } else {
      var t := DecorationText(ds[1..]) + (NameText(ns) + rest);
      assert DecoratedParts(t, ds[1..], ns, rest);
      PartsBegin(t, ds[1..], ns, rest);
      DecoratedComplete(t, ds[1..], ns, rest);
      assert s == ds[0].word + (ds[0].gap + t);
      FirstDecoration(ds[0], t);
    }
  }

  lemma OneMoreDecoration(s: string, d: Decoration, t: string, ds: seq<Decoration>, ns: seq<string>, rest: string)
    requires s == d.word + (d.gap + t) && IsDecoration(d) && DecoratedParts(t, ds, ns, rest)
    ensures DecoratedParts(s, [d] + ds, ns, rest)
  {
    assert ([d] + ds)[1..] == ds;
    assert d.word + (d.gap + (DecorationText(ds) + (NameText(ns) + rest))) ==
           d.word + (d.gap + DecorationText(ds)) + (NameText(ns) + rest);
  }

  /** Decorated has found ds and the name ns. */
  predicate FindsDecorated(s: string, ds: seq<Decoration>, ns: seq<string>) {
    && Decorated(s).Some? && DecoratedParts(s, ds, ns, Decorated(s).value.1)
    && Decorated(s).value.0 == NameText(ns) && NameEnds(Decorated(s).value.1)
  }

  /** The white space behind the capitals at the front, if text that is decorated follows it. */
  predicate DecorationFollows(s: string) {
    var n := UpperLength(s);
    var t := Strip(s[n..]);
    n > 0 && |t| < |s| - n && Decorated(t).Some?
  }

  lemma NameFound(s: string) returns (ns: seq<string>)
    requires Decorated(s).Some? && !DecorationFollows(s)
    ensures FindsDecorated(s, [], ns)
  {
    ns := NameFront(s);
    var k := NameLength(s);
    assert s == "" + (s[..k] + s[k..]);
  }

  lemma DecorationFound(s: string, ds: seq<Decoration>, ns: seq<string>) returns (d: Decoration)
    requires DecorationFollows(s) && FindsDecorated(Strip(s[UpperLength(s)..]), ds, ns)
    ensures FindsDecorated(s, [d] + ds, ns)
  {
    var n := UpperLength(s);
    var gap := StripFront(s[n..]);
    UpperFront(s);
    d := Decoration(s[..n], gap);
    assert s == s[..n] + s[n..];
    OneMoreDecoration(s, d, Strip(s[n..]), ds, ns, Decorated(s).value.1);
  }

  /** What is found is of that form, and the name is the longest there. */
  lemma {:induction false} DecoratedSound(s: string) returns (ds: seq<Decoration>, ns: seq<string>)
    requires Decorated(s).Some?
    ensures FindsDecorated(s, ds, ns)
    decreases |s|
  {
    if DecorationFollows(s) {
      var more;
      more, ns := DecoratedSound(Strip(s[UpperLength(s)..]));
      var d := DecorationFound(s, more, ns);
      ds := [d] + more;
    } else {
      ds := [];
      ns := NameFound(s);
    }
  }

  // ---- the head ----

  const CLASS_WORDS: seq<string> := ["class", "struct"]

  /** class or struct, white space, decorations, a name, and what follows the name. */
  predicate KeyParts(s: string, key: string, gap: string, ds: seq<Decoration>, ns: seq<string>, rest: string) {
    && key in CLASS_WORDS && gap != "" && AllSpace(gap) && AreDecorations(ds) && AreNames(ns)
    && s == key + (gap + (DecorationText(ds) + (NameText(ns) + rest)))
  }

  /** The text declares the class of the match, and the rest of the match follows its name. */
  ghost predicate Declares(s: string, m: ClassMatch) {
    exists key, gap, ds, ns ::
      KeyParts(s, key, gap, ds, ns, m.rest) && m.name == NameText(ns) && (m.is_struct <==> key == "struct")
  }

  lemma TheClassWords(w: string)
    requires w in CLASS_WORDS
    ensures AllWord(w) && w != ""
  {}

  lemma KeyComplete(s: string, key: string, gap: string, ds: seq<Decoration>, ns: seq<string>, rest: string)
    requires KeyParts(s, key, gap, ds, ns, rest)
    ensures ClassKey(s).Some? && |s| > 0 && NoSpaceFirst(s)
  {
    TheClassWords(key);
    var t := DecorationText(ds) + (NameText(ns) + rest);
    PartsBegin(t, ds, ns, rest);
    WordOf(key, gap + t);
    StripOf(gap, t);
    DecoratedComplete(t, ds, ns, rest);
    assert s[0] == key[0];
  }

  lemma KeySound(s: string)
    requires ClassKey(s).Some?
    ensures Declares(s, ClassKey(s).value) && NameEnds(ClassKey(s).value.rest)
  {
    WordFront(s);
    var after := AfterWord(s);
    var gap := StripFront(after);
    var ds, ns := DecoratedSound(Strip(after));
    assert KeyParts(s, Word(s), gap, ds, ns, ClassKey(s).value.rest);
  }

  /** A class key is found exactly when the text declares a class. */
  lemma KeyIff(s: string)
    ensures ClassKey(s).Some? <==> exists m :: Declares(s, m)
    ensures ClassKey(s).Some? ==> Declares(s, ClassKey(s).value) && NameEnds(ClassKey(s).value.rest)
  {
    if ClassKey(s).Some? { KeySound(s); }
    if m :| Declares(s, m) {
      var key, gap, ds, ns :| KeyParts(s, key, gap, ds, ns, m.rest);
      KeyComplete(s, key, gap, ds, ns, m.rest);
    }
  }

  /** What a template parameter list may hold. */
  predicate AllList(s: string) { forall i :: 0 <= i < |s| ==> IsWordChar(s[i]) || IsSpace(s[i]) || s[i] in "<>,:" }

  lemma {:induction false} ListFront(s: string)
    ensures AllList(s[..ListLength(s)])
  {
    if ListLength(s) > 0 {
      ListFront(s[1..]);
      assert s[..ListLength(s)] == [s[0]] + s[1..][..ListLength(s[1..])];
    }
  }

  lemma {:induction false} ListReaches(list: string, t: string)
    requires AllList(list)
    ensures |list| <= ListLength(list + t)
  {
    if list != "" {
      assert (list + t)[1..] == list[1..] + t;
      ListReaches(list[1..], t);
    }
  }

  /** The list may end at i: the bracket that closes it, and a class key behind it. */
  predicate EndsList(s: string, i: nat) {
    0 < i <= |s| && s[i - 1] == '>' && ClassKey(Strip(s[i..])).Some?
  }

  /** r is the class key behind the longest list that may end at n or before it, if there is one. */
  ghost predicate IsLongestList(s: string, n: nat, r: Option<ClassMatch>) {
    && (r.None? ==> forall i: nat :: i <= n ==> !EndsList(s, i))
    && (r.Some? ==> exists i: nat :: i <= n && EndsList(s, i) && r == ClassKey(Strip(s[i..])))
  }

  lemma TemplateStep(s: string, n: nat, r: Option<ClassMatch>)
    requires 0 < n <= |s| && r == TemplateClass(s, n - 1)
    ensures TemplateClass(s, n) == if EndsList(s, n) then ClassKey(Strip(s[n..])) else r
  {}

  lemma LongerList(s: string, n: nat, r: Option<ClassMatch>)
    requires 0 < n <= |s| && IsLongestList(s, n - 1, r)
    ensures IsLongestList(s, n, if EndsList(s, n) then ClassKey(Strip(s[n..])) else r)
  {}

  lemma {:induction false} TemplateFinds(s: string, n: nat)
    requires n <= |s|
    ensures IsLongestList(s, n, TemplateClass(s, n))
  {
    if n > 0 {
      TemplateFinds(s, n - 1);
      var r := TemplateClass(s, n - 1);
      TemplateStep(s, n, r);
      LongerList(s, n, r);
    }
  }

  /** template, white space, a parameter list, white space, and t. */
  predicate TemplateParts(s: string, a: string, list: string, gap: string, t: string) {
    s == "template" + (a + ("<" + (list + (">" + (gap + t))))) && AllSpace(a) && AllList(list) && AllSpace(gap)
  }

  ghost predicate HasTemplate(s: string, t: string) { exists a, list, gap :: TemplateParts(s, a, list, gap, t) }

  /** White space, perhaps a template parameter list, and t. */
  ghost predicate HeadParts(text: string, a: string, s: string, t: string) {
    text == a + s && AllSpace(a) && (s == t || HasTemplate(s, t))
  }

  /** The text declares the class of the match at its front, and the rest of the match follows its name. */
  ghost predicate DeclaresAtFront(text: string, m: ClassMatch) {
    exists a, s, t :: HeadParts(text, a, s, t) && Declares(t, m)
  }

  /** A template parameter list and a class key behind it. */
  function Templated(s: string): Option<ClassMatch> {
    var t := Strip(AfterWord(s));
    if Word(s) == "template" && |t| > 0 && t[0] == '<' then TemplateClass(t[1..], ListLength(t[1..])) else None
  }

  lemma TemplateWord(a: string, u: string)
    requires AllSpace(a) && |u| > 0 && u[0] == '<'
    ensures var s := "template" + (a + u);
            Word(s) == "template" && Strip(AfterWord(s)) == u && NoSpaceFirst(s)
  {
    WordOf("template", a + u);
    StripOf(a, u);
  }

  lemma ListEnds(list: string, gap: string, t: string)
    requires AllList(list) && AllSpace(gap) && NoSpaceFirst(t) && ClassKey(t).Some?
    ensures var u := list + (">" + (gap + t)); |list| + 1 <= ListLength(u) && EndsList(u, |list| + 1)
  {
    var u := list + (">" + (gap + t));
    assert u == (list + ">") + (gap + t);
    ListReaches(list + ">", gap + t);
    assert u[|list| + 1..] == gap + t;
    StripOf(gap, t);
  }

  lemma TemplateComplete(s: string, t: string)
    requires HasTemplate(s, t) && NoSpaceFirst(t) && ClassKey(t).Some?
    ensures Templated(s).Some? && NoSpaceFirst(s)
  {
    var a, list, gap :| TemplateParts(s, a, list, gap, t);
    var u := list + (">" + (gap + t));
    TemplateWord(a, "<" + u);
    assert ("<" + u)[1..] == u;
    ListEnds(list, gap, t);
    TemplateFinds(u, ListLength(u));
  }

  lemma TemplateSound(s: string) returns (t: string)
    requires Templated(s).Some?
    ensures HasTemplate(s, t) && ClassKey(t) == Templated(s)
  {
    WordFront(s);
    var after := AfterWord(s);
    var a := StripFront(after);
    var u := Strip(after);
    Head(u, "<");
    var v := u[1..];
    TemplateFinds(v, ListLength(v));
    var i: nat :| i <= ListLength(v) && EndsList(v, i) && Templated(s) == ClassKey(Strip(v[i..]));
    var gap := StripFront(v[i..]);
    t := Strip(v[i..]);
    ListFront(v);
    ListSplits(v, i, gap, t);
    assert TemplateParts(s, a, v[..i - 1], gap, t);
  }

  lemma ListSplits(v: string, i: nat, gap: string, t: string)
    requires 0 < i <= ListLength(v) && v[i - 1] == '>' && v[i..] == gap + t && AllList(v[..ListLength(v)])
    ensures v == v[..i - 1] + (">" + (gap + t)) && AllList(v[..i - 1])
  {
    assert v == v[..i - 1] + ([v[i - 1]] + v[i..]);
    forall k | 0 <= k < i - 1 ensures v[..i - 1][k] == v[..ListLength(v)][k] {}
  }

  /**
    A class head is found at the front of a text exactly when the text declares a class there; what is found is such a
    declaration, and its name is not cut short.
   */
  lemma ClassHeadIff(text: string)
    ensures ClassHead(text).Some? <==> exists m :: DeclaresAtFront(text, m)
    ensures ClassHead(text).Some? ==>
              DeclaresAtFront(text, ClassHead(text).value) && NameEnds(ClassHead(text).value.rest)
  {
    if ClassHead(text).Some? { HeadSound(text); }
    if m :| DeclaresAtFront(text, m) { HeadComplete(text, m); }
  }

  lemma HeadSound(text: string)
    requires ClassHead(text).Some?
    ensures DeclaresAtFront(text, ClassHead(text).value) && NameEnds(ClassHead(text).value.rest)
  {
    var a := StripFront(text);
    var s := Strip(text);
    var t := s;
    assert ClassHead(text) == if Templated(s).Some? then Templated(s) else ClassKey(s);
    if Templated(s).Some? { t := TemplateSound(s); }
    KeySound(t);
    assert HeadParts(text, a, s, t);
  }

  lemma HeadComplete(text: string, m: ClassMatch)
    requires DeclaresAtFront(text, m)
    ensures ClassHead(text).Some?
  {
    var a, s, t :| HeadParts(text, a, s, t) && Declares(t, m);
    var key, gap, ds, ns :| KeyParts(t, key, gap, ds, ns, m.rest);
    KeyComplete(t, key, gap, ds, ns, m.rest);
    if s != t { TemplateComplete(s, t); }
    StripOf(a, s);
  }
}
