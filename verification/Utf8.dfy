/** Wide strings to UTF-8, and a decoder for what comes out. */
module Utf8 {
  import opened Wrappers

  type byte = x: nat | x < 256

  const MAX_CODE_POINT_1: nat := 0x7F
  const MAX_CODE_POINT_2: nat := 0x7FF
  const MAX_CODE_POINT_3: nat := 0xFFFF
  const MAX_CODE_POINT_4: nat := 0x1F_FFFF

  // ---- the text for a value that is no code point ----

  function HexDigit(d: nat): (b: byte)
    requires d < 16
    ensures 0x30 <= b <= 0x46
  { if d < 10 then 0x30 + d else 0x41 + d - 10 }

  function Hex(v: nat): (s: seq<byte>)
    ensures |s| > 0 && forall i :: 0 <= i < |s| ==> 0x30 <= s[i] <= 0x46
  { if v < 16 then [HexDigit(v)] else Hex(v / 16) + [HexDigit(v % 16)] }

  /** The value of an upper-case hexadecimal digit, and of a row of them. */
  function DigitValue(b: byte): int { if 0x30 <= b <= 0x39 then b - 0x30 else b - 0x41 + 10 }

  function HexValue(s: seq<byte>): int {
    if s == [] then 0 else HexValue(s[..|s| - 1]) * 16 + DigitValue(s[|s| - 1])
  }

  predicate IsHexDigit(b: byte) { 0x30 <= b <= 0x39 || 0x41 <= b <= 0x46 }

  /** The hexadecimal digits shown are those of the value, without zeros in front. */
  lemma {:induction false} HexReadsBack(v: nat)
    ensures forall i :: 0 <= i < |Hex(v)| ==> IsHexDigit(Hex(v)[i])
    ensures HexValue(Hex(v)) == v && (v > 0 ==> Hex(v)[0] != 0x30)
  {
    var s := Hex(v);
    if v < 16 {
      assert s[..0] == [];
    } else {
      HexReadsBack(v / 16);
      assert s[..|s| - 1] == Hex(v / 16) && s[0] == Hex(v / 16)[0];
    }
  }

  function Ascii(s: string): (b: seq<byte>)
    requires forall i :: 0 <= i < |s| ==> '\0' < s[i] < '\U{0080}'
    ensures |b| == |s| && forall i :: 0 <= i < |b| ==> b[i] == s[i] as int
  { seq(|s|, i requires 0 <= i < |s| => s[i] as int) }

  function InvalidText(code_point: nat): (s: seq<byte>)
    ensures forall i :: 0 <= i < |s| ==> 0 < s[i] < 128
  { Ascii("(Invalid Unicode 0x") + Hex(code_point) + Ascii(")") }

  // ---- the encoder ----

  /** The bytes of the C string the encoder returns; it is empty for 0, whose only byte ends the string. */
  function Encode(code_point: nat): seq<byte> {
    if code_point > MAX_CODE_POINT_4 then InvalidText(code_point)
    else if code_point == 0 then []
    else if code_point <= MAX_CODE_POINT_1 then [code_point]
    else if code_point <= MAX_CODE_POINT_2 then [0xC0 + code_point / 64, 0x80 + code_point % 64]
    else if code_point <= MAX_CODE_POINT_3 then
      [0xE0 + code_point / 4096, 0x80 + code_point / 64 % 64, 0x80 + code_point % 64]
    else
      [0xF0 + code_point / 262144, 0x80 + code_point / 4096 % 64, 0x80 + code_point / 64 % 64, 0x80 + code_point % 64]
  }

  /** A byte 10xxxxxx from the low bits, and the bits left. */
  method TailByte(bits: nat) returns (b: byte, rest: nat)
    ensures b == 0x80 + bits % 64 && rest == bits / 64
  {
    b, rest := 0x80 + bits % 64, bits / 64;
  }

  method CodePointToUtf8(code_point: nat) returns (str: seq<byte>)
    ensures str == Encode(code_point)
  {
    if code_point > MAX_CODE_POINT_4 { return InvalidText(code_point); }
    var b1, b2, b3, bits;
    if code_point <= MAX_CODE_POINT_1 {
      str := if code_point == 0 then [] else [code_point];
    } else if code_point <= MAX_CODE_POINT_2 {
      b1, bits := TailByte(code_point);
      str := [0xC0 + bits, b1];
    } else if code_point <= MAX_CODE_POINT_3 {
      b2, bits := TailByte(code_point);
      b1, bits := TailByte(bits);
      Quotients(code_point);
      str := [0xE0 + bits, b1, b2];
    } else {
      b3, bits := TailByte(code_point);
      b2, bits := TailByte(bits);
      b1, bits := TailByte(bits);
      Quotients(code_point);
      str := [0xF0 + bits, b1, b2, b3];
    }
  }

  lemma Quotients(c: nat)
    ensures c / 64 / 64 == c / 4096 && c / 64 / 64 / 64 == c / 262144
  {}

  // ---- wide strings ----

  /** A NUL-terminated array of wide characters: its end reads as NUL. */
  function At(str: seq<nat>, i: nat): nat { if i < |str| then str[i] else 0 }

  predicate IsUtf16SurrogatePair(wide2: bool, first: nat, second: nat) {
    wide2 && first / 1024 % 64 == 0x36 && second / 1024 % 64 == 0x37
  }

  function CreateCodePointFromUtf16SurrogatePair(first: nat, second: nat): nat {
    first % 1024 * 1024 + second % 1024 + 0x1_0000
  }

  /** What makes a surrogate pair of two 16-bit units, and the code point it stands for. */
  lemma SurrogatePairIff(first: nat, second: nat)
    requires first < 0x1_0000 && second < 0x1_0000
    ensures IsUtf16SurrogatePair(true, first, second) <==> 0xD800 <= first < 0xDC00 && 0xDC00 <= second < 0xE000
    ensures IsUtf16SurrogatePair(true, first, second) ==>
              CreateCodePointFromUtf16SurrogatePair(first, second) ==
              0x1_0000 + (first - 0xD800) * 0x400 + (second - 0xDC00)
    ensures !IsUtf16SurrogatePair(false, first, second)
  {
    assert first / 1024 < 64 && second / 1024 < 64;
  }

  /** The characters processed: up to NUL, at most num_chars of them unless that is -1. */
  function Units(str: seq<nat>, num_chars: int): (units: seq<nat>)
    ensures forall i :: 0 <= i < |units| ==> units[i] != 0
  {
    if num_chars == 0 || num_chars < -1 || str == [] || str[0] == 0 then []
    else [str[0]] + Units(str[1..], if num_chars == -1 then -1 else num_chars - 1)
  }

  /** The code points of wide characters: surrogate pairs combined if the characters have two bytes. */
  function CodePoints(wide2: bool, units: seq<nat>): seq<nat> {
    if |units| == 0 then []
    else if |units| >= 2 && IsUtf16SurrogatePair(wide2, units[0], units[1]) then
      [CreateCodePointFromUtf16SurrogatePair(units[0], units[1])] + CodePoints(wide2, units[2..])
    else [units[0]] + CodePoints(wide2, units[1..])
  }

  function EncodeAll(code_points: seq<nat>): seq<byte> {
    if |code_points| == 0 then [] else Encode(code_points[0]) + EncodeAll(code_points[1..])
  }

  function Wcslen(str: seq<nat>): (n: nat)
    ensures n <= |str|
  { if str == [] || str[0] == 0 then 0 else 1 + Wcslen(str[1..]) }

  lemma {:induction false} UnitsOfLength(str: seq<nat>)
    ensures Units(str, Wcslen(str)) == Units(str, -1)
  {
    if str != [] && str[0] != 0 { UnitsOfLength(str[1..]); }
  }

  /** Encodes the code points of the string; num_chars -1 stands for the whole string. */
  method WideStringToUtf8(wide2: bool, str: seq<nat>, num_chars0: int) returns (stream: seq<byte>)
    ensures stream == EncodeAll(CodePoints(wide2, Units(str, num_chars0)))
  {
    var num_chars := num_chars0;
    if num_chars == -1 {
      UnitsOfLength(str);
      num_chars := Wcslen(str);
    }
    stream := [];
    var i := 0;
    while i < num_chars
      invariant 0 <= i && (i <= num_chars || (num_chars < 0 && i == 0))
      invariant stream + Rest(wide2, str, i, num_chars) == Rest(wide2, str, 0, num_chars)
      decreases num_chars - i
    {
      if At(str, i) == 0 {
        RestStep(wide2, str, i, num_chars);
        break;
      }
      var unicode_code_point, next := NextCodePoint(wide2, str, i, num_chars);
      var bytes := CodePointToUtf8(unicode_code_point);
      Regroup(stream, bytes, Rest(wide2, str, next, num_chars));
      stream := stream + bytes;
      i := next;
    }
    assert Rest(wide2, str, i, num_chars) == [];
    assert str == From(str, 0);
    assert stream + [] == stream;
  }

  lemma Regroup(a: seq<byte>, b: seq<byte>, c: seq<byte>)
    ensures a + (b + c) == (a + b) + c
  {}

  /** The code point at position i, and the position after it. */
  method NextCodePoint(wide2: bool, str: seq<nat>, i: nat, num_chars: int) returns (code_point: nat, next: nat)
    requires i < num_chars && At(str, i) != 0
    ensures i < next <= num_chars
    ensures Rest(wide2, str, i, num_chars) == Encode(code_point) + Rest(wide2, str, next, num_chars)
  {
    RestStep(wide2, str, i, num_chars);
    if i + 1 < num_chars && IsUtf16SurrogatePair(wide2, At(str, i), At(str, i + 1)) {
      return CreateCodePointFromUtf16SurrogatePair(At(str, i), At(str, i + 1)), i + 2;
    } else {
      return At(str, i), i + 1;
    }
  }

  function From(str: seq<nat>, i: nat): seq<nat> { if i <= |str| then str[i..] else [] }

  /** The bytes still to come at position i. */
  function Rest(wide2: bool, str: seq<nat>, i: nat, num_chars: int): seq<byte> {
    EncodeAll(CodePoints(wide2, Units(From(str, i), if i < num_chars then num_chars - i else 0)))
  }

  lemma UnitsStep(str: seq<nat>, i: nat, n: int)
    requires 0 <= i < n
    ensures var u := Units(From(str, i), n - i);
            && (At(str, i) == 0 ==> u == [])
            && (At(str, i) != 0 ==> |u| > 0 && u[0] == str[i]
                                    && u[1..] == Units(From(str, i + 1), if i + 1 < n then n - (i + 1) else 0))
  {
    if i < |str| { assert From(str, i)[1..] == From(str, i + 1); }
  }

  /** The first code point of some units. */
  lemma FrontCodePoint(wide2: bool, u: seq<nat>)
    requires |u| > 0
    ensures EncodeAll(CodePoints(wide2, u)) ==
            if |u| >= 2 && IsUtf16SurrogatePair(wide2, u[0], u[1]) then
              Encode(CreateCodePointFromUtf16SurrogatePair(u[0], u[1])) + EncodeAll(CodePoints(wide2, u[2..]))
            else Encode(u[0]) + EncodeAll(CodePoints(wide2, u[1..]))
  {
    var pair := |u| >= 2 && IsUtf16SurrogatePair(wide2, u[0], u[1]);
    var c := if pair then CreateCodePointFromUtf16SurrogatePair(u[0], u[1]) else u[0];
    EncodeFront(c, CodePoints(wide2, if pair then u[2..] else u[1..]));
  }

  /** The units at position i: none, one, or at least two. */
  lemma UnitsAt(str: seq<nat>, i: nat, n: int)
    requires 0 <= i < n && At(str, i) != 0
    ensures var u := Units(From(str, i), n - i);
            && |u| > 0 && u[0] == At(str, i)
            && (|u| >= 2 <==> i + 1 < n && At(str, i + 1) != 0)
            && (|u| >= 2 ==> u[1] == At(str, i + 1)
                             && u[2..] == Units(From(str, i + 2), if i + 2 < n then n - (i + 2) else 0))
            && u[1..] == Units(From(str, i + 1), if i + 1 < n then n - (i + 1) else 0)
  {
    UnitsStep(str, i, n);
    if i + 1 < n {
      UnitsStep(str, i + 1, n);
      var u := Units(From(str, i), n - i);
      if At(str, i + 1) != 0 { assert u[1] == u[1..][0] && u[2..] == u[1..][1..]; }
    }
  }

  lemma NoPair(wide2: bool, first: nat)
    ensures !IsUtf16SurrogatePair(wide2, first, 0)
  {}

  /** One step of the loop. */
  lemma RestStep(wide2: bool, str: seq<nat>, i: nat, n: int)
    requires 0 <= i < n
    ensures Rest(wide2, str, i, n) ==
            if At(str, i) == 0 then []
            else if i + 1 < n && IsUtf16SurrogatePair(wide2, At(str, i), At(str, i + 1)) then
              Encode(CreateCodePointFromUtf16SurrogatePair(At(str, i), At(str, i + 1))) + Rest(wide2, str, i + 2, n)
            else Encode(At(str, i)) + Rest(wide2, str, i + 1, n)
  {
    if At(str, i) == 0 {
      UnitsStep(str, i, n);
    } else {
      UnitsAt(str, i, n);
      NoPair(wide2, At(str, i));
      FrontCodePoint(wide2, Units(From(str, i), n - i));
    }
  }

  // ---- the decoder of RFC 3629, section 3, for code points of up to 21 bits ----

  predicate IsTail(b: byte) { 0x80 <= b < 0xC0 }

  /** Six more bits. */
  function Join(high: nat, tail: byte): (v: nat)
    requires IsTail(tail)
    ensures v / 64 == high && v % 64 == tail - 0x80
  { high * 64 + (tail - 0x80) }

  /** The first character and its length; no overlong forms. */
  function DecodeOne(b: seq<byte>): (r: Option<(nat, nat)>)
    ensures r.Some? ==> 1 <= r.value.1 <= |b|
  {
    if |b| == 0 then None
    else if b[0] < 0x80 then Some((b[0], 1))
    else if 0xC0 <= b[0] < 0xE0 && |b| >= 2 && IsTail(b[1]) then
      var v := Join(b[0] - 0xC0, b[1]);
      if v > MAX_CODE_POINT_1 then Some((v, 2)) else None
    else if 0xE0 <= b[0] < 0xF0 && |b| >= 3 && IsTail(b[1]) && IsTail(b[2]) then
      var v := Join(Join(b[0] - 0xE0, b[1]), b[2]);
      if v > MAX_CODE_POINT_2 then Some((v, 3)) else None
    else if 0xF0 <= b[0] < 0xF8 && |b| >= 4 && IsTail(b[1]) && IsTail(b[2]) && IsTail(b[3]) then
      var v := Join(Join(Join(b[0] - 0xF0, b[1]), b[2]), b[3]);
      if v > MAX_CODE_POINT_3 then Some((v, 4)) else None
    else None
  }

  function Decode(b: seq<byte>): Option<seq<nat>>
    decreases |b|
  {
    if |b| == 0 then Some([])
    else match DecodeOne(b)
      case None => None
      case Some((v, n)) =>
        match Decode(b[n..])
        case None => None
        case Some(rest) => Some([v] + rest)
  }

  lemma SplitDigits(c: nat)
    requires c <= MAX_CODE_POINT_4
    ensures c == c / 64 * 64 + c % 64
    ensures c / 64 == c / 4096 * 64 + c / 64 % 64
    ensures c / 4096 == c / 262144 * 64 + c / 4096 % 64
    ensures c / 262144 < 8
  {}

  lemma DecodeOneEncoded(c: nat, rest: seq<byte>)
    requires 0 < c <= MAX_CODE_POINT_4
    ensures DecodeOne(Encode(c) + rest) == Some((c, |Encode(c)|)) && |Encode(c)| > 0
  {
    SplitDigits(c);
  }

  /** What a reader sees of one value: the code point, nothing for 0, a note for what is no code point. */
  function Shown(c: nat): seq<nat> {
    if c > MAX_CODE_POINT_4 then InvalidText(c) else if c == 0 then [] else [c]
  }

  function ShownAll(cs: seq<nat>): seq<nat> {
    if |cs| == 0 then [] else Shown(cs[0]) + ShownAll(cs[1..])
  }

  lemma {:induction false} DecodeAscii(s: seq<byte>, rest: seq<byte>)
    requires Decode(rest).Some? && forall i :: 0 <= i < |s| ==> s[i] < 128
    ensures Decode(s + rest) == Some(s + Decode(rest).value)
    decreases |s|
  {
    if s == [] {
      assert s + rest == rest;
      assert s + Decode(rest).value == Decode(rest).value;
    } else {
      DecodeAscii(s[1..], rest);
      assert (s + rest)[1..] == s[1..] + rest;
      assert DecodeOne(s + rest) == Some((s[0], 1));
      assert [s[0]] + (s[1..] + Decode(rest).value) == s + Decode(rest).value;
    }
  }

  /** The decoder reads back what every value shows as, in order: all of them, code points or not. */
  lemma {:induction false} DecodeEncodeAll(cs: seq<nat>)
    ensures Decode(EncodeAll(cs)) == Some(ShownAll(cs))
    decreases |cs|
  {
    if |cs| > 0 {
      var c, rest := cs[0], EncodeAll(cs[1..]);
      DecodeEncodeAll(cs[1..]);
      if c > MAX_CODE_POINT_4 {
        DecodeAscii(InvalidText(c), rest);
      } else if c == 0 {
        assert Encode(c) + rest == rest && Shown(c) + ShownAll(cs[1..]) == ShownAll(cs[1..]);
      } else {
        DecodeOneEncoded(c, rest);
        assert (Encode(c) + rest)[|Encode(c)|..] == rest;
      }
    }
  }

  lemma {:induction false} ShownAllIsReadable(cs: seq<nat>)
    ensures forall i :: 0 <= i < |ShownAll(cs)| ==> 0 < ShownAll(cs)[i] <= MAX_CODE_POINT_4
  {
    if |cs| > 0 { ShownAllIsReadable(cs[1..]); }
  }

  lemma {:induction false} ShownAllIsSame(cs: seq<nat>)
    requires forall i :: 0 <= i < |cs| ==> 0 < cs[i] <= MAX_CODE_POINT_4
    ensures ShownAll(cs) == cs
  {
    if |cs| > 0 { ShownAllIsSame(cs[1..]); }
  }

  /** A sequence of values comes back as itself exactly when each is a nonzero code point of at most 21 bits. */
  lemma RoundTripIff(cs: seq<nat>)
    ensures Decode(EncodeAll(cs)) == Some(cs) <==> forall i :: 0 <= i < |cs| ==> 0 < cs[i] <= MAX_CODE_POINT_4
  {
    DecodeEncodeAll(cs);
    ShownAllIsReadable(cs);
    if forall i :: 0 <= i < |cs| ==> 0 < cs[i] <= MAX_CODE_POINT_4 { ShownAllIsSame(cs); }
  }

  lemma EncodeDecodedOne(b: seq<byte>)
    requires DecodeOne(b).Some? && b[0] != 0
    ensures var (c, n) := DecodeOne(b).value; Encode(c) == b[..n] && 0 < c <= MAX_CODE_POINT_4
  {
    var (c, n) := DecodeOne(b).value;
    Quotients(c);
    if n == 2 { assert b[..n] == [b[0], b[1]]; }
    if n == 3 { assert b[..n] == [b[0], b[1], b[2]]; }
    if n == 4 { assert b[..n] == [b[0], b[1], b[2], b[3]]; }
  }

  /** Every byte string the decoder accepts is the encoding of what it reads: there is one encoding only. */
  lemma {:induction false} EncodeDecoded(b: seq<byte>)
    requires Decode(b).Some? && forall i :: 0 <= i < |b| ==> b[i] != 0
    ensures EncodeAll(Decode(b).value) == b
    decreases |b|
  {
    if |b| > 0 {
      var c, n := DecodedFront(b);
      EncodeDecoded(b[n..]);
      EncodeJoined(b, c, n, Decode(b[n..]).value);
    }
  }

  /** The first character of what is read, its length, and the rest. */
  lemma DecodedFront(b: seq<byte>) returns (c: nat, n: nat)
    requires |b| > 0 && Decode(b).Some? && b[0] != 0
    ensures 0 < n <= |b| && Encode(c) == b[..n]
    ensures Decode(b[n..]).Some? && Decode(b).value == [c] + Decode(b[n..]).value
  {
    c, n := DecodeOne(b).value.0, DecodeOne(b).value.1;
    EncodeDecodedOne(b);
  }

  lemma EncodeJoined(b: seq<byte>, c: nat, n: nat, rest: seq<nat>)
    requires n <= |b| && Encode(c) == b[..n] && EncodeAll(rest) == b[n..]
    ensures EncodeAll([c] + rest) == b
  {
    EncodeFront(c, rest);
    assert b == b[..n] + b[n..];
  }

  lemma EncodeFront(c: nat, rest: seq<nat>)
    ensures EncodeAll([c] + rest) == Encode(c) + EncodeAll(rest)
  {
    assert ([c] + rest)[1..] == rest;
  }

  // ---- four-byte and two-byte wide characters ----

  lemma {:induction false} WideIsItself(units: seq<nat>)
    ensures CodePoints(false, units) == units
  {
    if |units| > 0 { WideIsItself(units[1..]); }
  }

  /** The text ends there: at the limit, or before it at NUL or at the end of the array. */
  predicate EndsAt(str: seq<nat>, n: nat, num_chars: int)
    requires n <= |str|
  {
    || num_chars == n || (num_chars < -1 && n == 0)
    || ((num_chars == -1 || num_chars > n) && (n == |str| || str[n] == 0))
  }

  /** The units processed are the longest head of the string that has no NUL and is within the limit. */
  lemma {:induction false} UnitsAre(str: seq<nat>, num_chars: int)
    ensures var u := Units(str, num_chars); u <= str && EndsAt(str, |u|, num_chars)
  {
    if num_chars != 0 && num_chars >= -1 && str != [] && str[0] != 0 {
      UnitsAre(str[1..], if num_chars == -1 then -1 else num_chars - 1);
    }
  }

  lemma OneEnd(str: seq<nat>, a: nat, b: nat, num_chars: int)
    requires a <= |str| && b <= |str| && EndsAt(str, a, num_chars) && EndsAt(str, b, num_chars)
    requires forall i :: 0 <= i < a || 0 <= i < b ==> str[i] != 0
    ensures a == b
  {}

  /** Text without NUL is all that is processed of the string it begins exactly when it ends there. */
  lemma UnitsAreTextIff(text: seq<nat>, more: seq<nat>, num_chars: int)
    requires forall i :: 0 <= i < |text| ==> text[i] != 0
    ensures Units(text + more, num_chars) == text <==> EndsAt(text + more, |text|, num_chars)
  {
    var str := text + more;
    var u := Units(str, num_chars);
    UnitsAre(str, num_chars);
    if EndsAt(str, |text|, num_chars) {
      OneEnd(str, |u|, |text|, num_chars);
      assert u == str[..|u|] && text == str[..|text|];
    }
  }

  /** UTF-16, section 2.1 of RFC 2781. */
  function Utf16(c: nat): seq<nat> {
    if c < 0x1_0000 then [c] else [0xD800 + (c - 0x1_0000) / 1024, 0xDC00 + (c - 0x1_0000) % 1024]
  }

  function Utf16All(cs: seq<nat>): seq<nat> {
    if |cs| == 0 then [] else Utf16(cs[0]) + Utf16All(cs[1..])
  }

  predicate IsScalar(c: nat) { 0 < c <= 0x10_FFFF && !(0xD800 <= c < 0xE000) }

  lemma PairBack(c: nat)
    requires 0x1_0000 <= c <= 0x10_FFFF
    ensures var first, second := 0xD800 + (c - 0x1_0000) / 1024, 0xDC00 + (c - 0x1_0000) % 1024;
            IsUtf16SurrogatePair(true, first, second) && CreateCodePointFromUtf16SurrogatePair(first, second) == c
  {
    var u := c - 0x1_0000;
    assert u / 1024 < 1024 && u == u / 1024 * 1024 + u % 1024;
  }

  lemma NotFirst(c: nat, second: nat)
    requires IsScalar(c) && c < 0x1_0000
    ensures !IsUtf16SurrogatePair(true, c, second)
  {
    assert c / 1024 != 0x36;
  }

  lemma FrontUnits(c: nat, rest: seq<nat>)
    requires IsScalar(c)
    ensures CodePoints(true, Utf16(c) + rest) == [c] + CodePoints(true, rest)
  {
    var units := Utf16(c) + rest;
    if c < 0x1_0000 {
      if |units| >= 2 { NotFirst(c, units[1]); }
      assert units[1..] == rest;
    } else {
      PairBack(c);
      assert units[2..] == rest;
    }
  }

  lemma {:induction false} Utf16CodePoints(cs: seq<nat>)
    requires forall i :: 0 <= i < |cs| ==> IsScalar(cs[i])
    ensures CodePoints(true, Utf16All(cs)) == cs
    decreases |cs|
  {
    if |cs| > 0 {
      Utf16CodePoints(cs[1..]);
      FrontUnits(cs[0], Utf16All(cs[1..]));
    }
  }

  lemma {:induction false} Utf16Nonzero(cs: seq<nat>)
    requires forall i :: 0 <= i < |cs| ==> IsScalar(cs[i])
    ensures forall i :: 0 <= i < |Utf16All(cs)| ==> Utf16All(cs)[i] != 0
  {
    if |cs| > 0 { Utf16Nonzero(cs[1..]); }
  }

  /** Text in either wide encoding comes back whole, whatever follows where it ends. */
  lemma WideRoundTrip(cs: seq<nat>, more: seq<nat>, num_chars: int)
    requires forall i :: 0 <= i < |cs| ==> 0 < cs[i] <= MAX_CODE_POINT_4
    ensures EndsAt(cs + more, |cs|, num_chars) ==>
              Decode(EncodeAll(CodePoints(false, Units(cs + more, num_chars)))) == Some(cs)
    ensures var units := Utf16All(cs);
            (forall i :: 0 <= i < |cs| ==> IsScalar(cs[i])) && EndsAt(units + more, |units|, num_chars) ==>
              Decode(EncodeAll(CodePoints(true, Units(units + more, num_chars)))) == Some(cs)
  {
    UnitsAreTextIff(cs, more, num_chars);
    WideIsItself(cs);
    RoundTripIff(cs);
    if forall i :: 0 <= i < |cs| ==> IsScalar(cs[i]) {
      Utf16Nonzero(cs);
      UnitsAreTextIff(Utf16All(cs), more, num_chars);
      Utf16CodePoints(cs);
    }
  }
}
