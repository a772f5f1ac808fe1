/** The XML report's CDATA printer, and a reader of character data and CDATA sections. */
module Cdata {
  import opened Wrappers

  const OPEN := "<![CDATA["
  const CLOSE := "]]>"
  const BETWEEN := "]]>]]&gt;<![CDATA["
  const AFTER := "]]&gt;<![CDATA["

  predicate Closes(s: string) { |s| >= 3 && s[0] == ']' && s[1] == ']' && s[2] == '>' }

  /** The first place in s where ]]> begins, or |s|. */
  function FindClose(s: string): (i: nat)
    ensures i <= |s| && (i < |s| ==> i + 3 <= |s| && Closes(s[i..]))
    ensures forall j :: 0 <= j < i ==> !Closes(s[j..])
  {
    if s == "" || Closes(s) then 0
    else
      assert forall j :: 1 <= j <= |s| ==> s[1..][j - 1..] == s[j..];
      assert s[0..] == s;
      1 + FindClose(s[1..])
  }

  /** The segments of the data, each inside its own section. */
  function Body(data: string): string
    decreases |data|
  {
    var i := FindClose(data);
    if i < |data| then data[..i] + BETWEEN + Body(data[i + 3..]) else data + CLOSE
  }

  method OutputXmlCDataSection(data: string) returns (stream: string)
    ensures stream == OPEN + Body(data)
  {
    var segment := data;
    stream := OPEN;
    while true
      invariant stream + Body(segment) == OPEN + Body(data)
      decreases |segment|
    {
      var next_segment := FindClose(segment);
      if next_segment < |segment| {
        ghost var tail := Body(segment[next_segment + 3..]);
        assert stream + (segment[..next_segment] + BETWEEN + tail) == stream + segment[..next_segment] + BETWEEN + tail;
        stream := stream + segment[..next_segment];
        stream := stream + BETWEEN;
        segment := segment[next_segment + 3..];
      } else {
        assert stream + (segment + CLOSE) == stream + segment + CLOSE;
        stream := stream + segment;
        break;
      }
    }
    stream := stream + CLOSE;
  }

  // ---- reading: XML 1.0, sections 2.4 and 2.7 ----

  function Prepend(s: string, r: Option<string>): Option<string> {
    match r
    case None => None
    case Some(t) => Some(s + t)
  }

  /**
   * The text that content stands for, inside a CDATA section or outside. A section ends at the first ]]>; outside,
   * < and & stand for themselves nowhere, &gt; is >, and ]]> may not occur.
   */
  function Read(inside: bool, x: string): Option<string>
    decreases |x|
  {
    if inside then
      if x == "" then None
      else if Closes(x) then Read(false, x[3..])
      else Prepend([x[0]], Read(true, x[1..]))
    else
      if x == "" then Some("")
      else if x[0] == '<' then if OPEN <= x then Read(true, x[9..]) else None
      else if x[0] == '&' then if IsGt(x) then Prepend(">", Read(false, x[4..])) else None
      else if Closes(x) then None
      else Prepend([x[0]], Read(false, x[1..]))
  }

  predicate IsGt(x: string) { |x| >= 4 && x[0] == '&' && x[1] == 'g' && x[2] == 't' && x[3] == ';' }

  /** Inside a section, text up to the first ]]> reads as itself. */
  lemma {:induction false} ReadInside(a: string, rest: string)
    requires forall j :: 0 <= j < |a| ==> !Closes((a + CLOSE + rest)[j..])
    ensures Read(true, a + CLOSE + rest) == Prepend(a, Read(false, rest))
    decreases |a|
  {
    var x := a + CLOSE + rest;
    if a == "" {
      assert x == CLOSE + rest && x[3..] == rest;
      PrependNothing(Read(false, rest));
    } else {
      assert x[0..] == x;
      var y := a[1..] + CLOSE + rest;
      assert x[1..] == y;
      forall j | 0 <= j < |a| - 1 ensures !Closes(y[j..]) { assert y[j..] == x[j + 1..]; }
      ReadInside(a[1..], rest);
      PrependTwice([a[0]], a[1..], Read(false, rest));
      assert [a[0]] + a[1..] == a;
    }
  }

  lemma PrependNothing(r: Option<string>)
    ensures Prepend("", r) == r
  {
    if r.Some? { assert "" + r.value == r.value; }
  }

  lemma PrependTwice(a: string, b: string, r: Option<string>)
    ensures Prepend(a, Prepend(b, r)) == Prepend(a + b, r)
  {
    if r.Some? { assert a + (b + r.value) == a + b + r.value; }
  }

  lemma ReadOpen(rest: string)
    ensures Read(false, OPEN + rest) == Read(true, rest)
  {
    assert (OPEN + rest)[0] == '<' && (OPEN + rest)[9..] == rest;
  }

  lemma ReadGt(rest: string)
    ensures Read(false, "&gt;" + rest) == Prepend(">", Read(false, rest))
  {
    var x := "&gt;" + rest;
    assert x[0] == '&' && IsGt(x) && x[4..] == rest;
  }

  lemma ReadBracket(rest: string)
    requires !Closes("]" + rest)
    ensures Read(false, "]" + rest) == Prepend("]", Read(false, rest))
  {
    var x := "]" + rest;
    assert x[0] == ']' && x[1..] == rest;
  }

  lemma TwoBrackets(x: string)
    requires x != "" && x[0] == '&'
    ensures Read(false, "]" + ("]" + x)) == Prepend("]", Prepend("]", Read(false, x)))
  {
    ReadBracket(x);
    ReadBracket("]" + x);
  }

  lemma AfterIs(rest: string)
    ensures AFTER + rest == "]" + ("]" + ("&gt;" + (OPEN + rest)))
  {}

  /** What is printed between two segments reads as ]]> and opens the next section. */
  lemma ReadBetween(rest: string)
    ensures Read(false, AFTER + rest) == Prepend(CLOSE, Read(true, rest))
  {
    AfterIs(rest);
    TwoBrackets("&gt;" + (OPEN + rest));
    ReadGt(OPEN + rest);
    ReadOpen(rest);
    PrependThrice(Read(true, rest));
  }

  lemma PrependThrice(r: Option<string>)
    ensures Prepend("]", Prepend("]", Prepend(">", r))) == Prepend(CLOSE, r)
  {
    PrependTwice("]", ">", r);
    PrependTwice("]", "]>", r);
    assert "]" + ">" == "]>" && "]" + "]>" == CLOSE;
  }

  /** The text before the first ]]> does not make one earlier with what is printed after it. */
  lemma NoEarlierClose(data: string, i: nat, rest: string)
    requires i <= |data| && forall j :: 0 <= j < i ==> !Closes(data[j..])
    requires i < |data| ==> Closes(data[i..])
    ensures forall j :: 0 <= j < i ==> !Closes((data[..i] + CLOSE + rest)[j..])
  {
    var x := data[..i] + CLOSE + rest;
    forall j | 0 <= j < i ensures !Closes(x[j..]) {
      if j + 2 < i {
        assert data[j..][0] == x[j..][0] && data[j..][1] == x[j..][1] && data[j..][2] == x[j..][2];
      } else {
        assert x[j..][2] == x[j + 2] == CLOSE[j + 2 - i];
      }
    }
  }

  lemma SplitAtClose(data: string, i: nat)
    requires i + 3 <= |data| && Closes(data[i..])
    ensures data == data[..i] + (CLOSE + data[i + 3..])
  {
    assert data[i..] == CLOSE + data[i + 3..];
  }

  lemma {:induction false} ReadBody(data: string)
    ensures Read(true, Body(data)) == Some(data)
    decreases |data|
  {
    var i := FindClose(data);
    var a := data[..i];
    if i < |data| {
      var rest := data[i + 3..];
      var tail := AFTER + Body(rest);
      BodySplits(a, Body(rest));
      NoEarlierClose(data, i, tail);
      ReadInside(a, tail);
      ReadBetween(Body(rest));
      ReadBody(rest);
      SplitAtClose(data, i);
    } else {
      assert a == data && data + CLOSE + "" == data + CLOSE;
      NoEarlierClose(data, i, "");
      ReadInside(data, "");
      assert data + "" == data;
    }
  }

  lemma BodySplits(a: string, tail: string)
    ensures a + BETWEEN + tail == a + CLOSE + (AFTER + tail)
  {
    assert BETWEEN == CLOSE + AFTER;
  }

  /** Reading what was printed gives the data back, whatever it holds. */
  lemma PrintedReadsBack(data: string)
    ensures Read(false, OPEN + Body(data)) == Some(data)
  {
    ReadBody(data);
    assert (OPEN + Body(data))[9..] == Body(data);
  }
}
