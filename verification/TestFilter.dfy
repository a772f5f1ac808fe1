/** The wildcard filters of the test framework, and which test cases count as death tests. */
module TestFilter {

  /** str is in the language of the wildcard pattern: * is any string, ? any character. */
  ghost predicate InPattern(pattern: string, str: string) {
    if pattern == "" then str == ""
    else if pattern[0] == '*' then exists k :: 0 <= k <= |str| && InPattern(pattern[1..], str[k..])
    else |str| > 0 && (pattern[0] == '?' || pattern[0] == str[0]) && InPattern(pattern[1..], str[1..])
  }

  /** The text up to the first colon. */
  function Segment(filter: string): (s: string)
    ensures s <= filter && ':' !in s && (|s| < |filter| ==> filter[|s|] == ':')
  { if filter == "" || filter[0] == ':' then "" else [filter[0]] + Segment(filter[1..]) }

  /** The pattern ends at the first colon. */
  predicate PatternMatchesString(pattern: string, str: string)
    decreases |pattern| + |str|
  {
    if pattern == "" || pattern[0] == ':' then str == ""
    else match pattern[0]
      case '?' => str != "" && PatternMatchesString(pattern[1..], str[1..])
      case '*' => (str != "" && PatternMatchesString(pattern, str[1..])) || PatternMatchesString(pattern[1..], str)
      case c => str != "" && c == str[0] && PatternMatchesString(pattern[1..], str[1..])
  }

  /** The matcher decides the language of the pattern. */
  lemma {:induction false} PatternMatchesIsLanguage(pattern: string, str: string)
    ensures PatternMatchesString(pattern, str) <==> InPattern(Segment(pattern), str)
    decreases |pattern| + |str|
  {
    if pattern != "" && pattern[0] != ':' {
      var seg := Segment(pattern);
      assert seg[1..] == Segment(pattern[1..]);
      if pattern[0] == '*' {
        PatternMatchesIsLanguage(pattern[1..], str);
        assert str[0..] == str;
        if str != "" {
          PatternMatchesIsLanguage(pattern, str[1..]);
          StarStep(seg, str);
        }
      } else if str != "" {
        PatternMatchesIsLanguage(pattern[1..], str[1..]);
      }
    }
  }

  /** A star takes nothing, or one more character. */
  lemma StarStep(pattern: string, str: string)
    requires pattern != "" && pattern[0] == '*' && str != ""
    ensures InPattern(pattern, str) <==> InPattern(pattern[1..], str) || InPattern(pattern, str[1..])
  {
    assert str[0..] == str;
    if InPattern(pattern, str) {
      var k :| 0 <= k <= |str| && InPattern(pattern[1..], str[k..]);
      if k > 0 { assert str[1..][k - 1..] == str[k..]; }
    }
    if InPattern(pattern, str[1..]) {
      var k :| 0 <= k <= |str[1..]| && InPattern(pattern[1..], str[1..][k..]);
      assert str[1..][k..] == str[k + 1..];
    }
  }

  /** Some colon-separated pattern of the filter matches. */
  ghost predicate InFilter(filter: string, name: string)
    decreases |filter|
  {
    var seg := Segment(filter);
    InPattern(seg, name) || (|seg| < |filter| && InFilter(filter[|seg| + 1..], name))
  }

  method MatchesFilter(name: string, filter: string) returns (matches: bool)
    ensures matches <==> InFilter(filter, name)
  {
    var cur_pattern := filter;
    while true
      invariant InFilter(cur_pattern, name) <==> InFilter(filter, name)
      decreases |cur_pattern|
    {
      PatternMatchesIsLanguage(cur_pattern, name);
      if PatternMatchesString(cur_pattern, name) { return true; }
      var seg := Segment(cur_pattern);
      if |seg| == |cur_pattern| { return false; }
      cur_pattern := cur_pattern[|seg| + 1..];
    }
  }

  // ---- death tests ----

  const DEATH_TEST_CASE_FILTER := "*DeathTest:*DeathTest/*"

  /** The name ends in DeathTest, or has DeathTest/ in it. */
  ghost predicate IsDeathTestCase(name: string) {
    exists k :: 0 <= k <= |name| && (name[k..] == "DeathTest" || "DeathTest/" <= name[k..])
  }

  lemma {:induction false} LiteralThen(lit: string, rest: string, s: string)
    requires forall i :: 0 <= i < |lit| ==> lit[i] != '*' && lit[i] != '?'
    ensures InPattern(lit + rest, s) <==> lit <= s && InPattern(rest, s[|lit|..])
    decreases |lit|
  {
    if lit == "" {
      assert lit + rest == rest && s[0..] == s;
    } else {
      assert (lit + rest)[1..] == lit[1..] + rest;
      if s != "" {
        LiteralThen(lit[1..], rest, s[1..]);
        assert lit <= s <==> lit[0] == s[0] && lit[1..] <= s[1..];
        if lit <= s { assert s[1..][|lit| - 1..] == s[|lit|..]; }
      }
    }
  }

  lemma StarMatches(s: string)
    ensures InPattern("*", s)
  {
    assert "*"[1..] == "" && s[|s|..] == "";
    assert InPattern("*"[1..], s[|s|..]);
  }

  predicate IsLiteral(lit: string) { forall i :: 0 <= i < |lit| ==> lit[i] != '*' && lit[i] != '?' && lit[i] != ':' }

  lemma StarLiteral(lit: string, s: string)
    requires IsLiteral(lit)
    ensures InPattern("*" + lit, s) <==> exists k :: 0 <= k <= |s| && s[k..] == lit
  {
    assert ("*" + lit)[1..] == lit;
    assert lit + "" == lit;
    forall k | 0 <= k <= |s| ensures InPattern(lit, s[k..]) <==> s[k..] == lit { LiteralThen(lit, "", s[k..]); }
  }

  lemma StarLiteralStar(lit: string, s: string)
    requires IsLiteral(lit)
    ensures InPattern("*" + lit + "*", s) <==> exists k :: 0 <= k <= |s| && lit <= s[k..]
  {
    assert ("*" + lit + "*")[1..] == lit + "*";
    forall k | 0 <= k <= |s| ensures InPattern(lit + "*", s[k..]) <==> lit <= s[k..] {
      LiteralThen(lit, "*", s[k..]);
      if lit <= s[k..] { StarMatches(s[k..][|lit|..]); }
    }
  }

  lemma {:induction false} SegmentIs(a: string, b: string)
    requires ':' !in a && (b == "" || b[0] == ':')
    ensures Segment(a + b) == a
  {
    if a == "" {
      assert a + b == b;
    } else {
      assert (a + b)[1..] == a[1..] + b;
      SegmentIs(a[1..], b);
    }
  }

  /** A filter of two patterns. */
  lemma TwoPatterns(a: string, b: string, name: string)
    requires ':' !in a && ':' !in b
    ensures InFilter(a + ":" + b, name) <==> InPattern(a, name) || InPattern(b, name)
  {
    assert a + ":" + b == a + (":" + b);
    SegmentIs(a, ":" + b);
    assert (a + ":" + b)[|a| + 1..] == b;
    SegmentIs(b, "");
    assert b + "" == b;
  }

  lemma TwoPatternsMean(a: string, b: string, name: string)
    requires IsLiteral(a) && IsLiteral(b)
    ensures InFilter("*" + a + ":" + ("*" + b + "*"), name) <==>
            exists k :: 0 <= k <= |name| && (name[k..] == a || b <= name[k..])
  {
    StarLiteral(a, name);
    StarLiteralStar(b, name);
    TwoPatterns("*" + a, "*" + b + "*", name);
  }

  lemma FilterText()
    ensures DEATH_TEST_CASE_FILTER == "*" + "DeathTest" + ":" + ("*" + "DeathTest/" + "*")
  {}

  /** The filter for death test cases matches exactly the names that end in DeathTest or contain DeathTest/. */
  lemma DeathFilterMeans(name: string)
    ensures InFilter(DEATH_TEST_CASE_FILTER, name) <==> IsDeathTestCase(name)
  {
    FilterText();
    LiteralNames();
    TwoPatternsMean("DeathTest", "DeathTest/", name);
  }

  lemma LiteralNames()
    ensures IsLiteral("DeathTest") && IsLiteral("DeathTest/")
  {}
}
