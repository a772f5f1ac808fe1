/** Division facts for index decomposition: every index used by the engine is a mixed-radix number. */
module Arith {

  /** C's `/` and `%` on unsigned operands; the divisor-zero case is undefined there and never reached. */
  function Quot(a: int, b: int): int {
    if b == 0 then 0 else a / b
  }

  function Rem(a: int, b: int): int {
    if b == 0 then 0 else a % b
  }

  function Min(a: int, b: int): int {
    if a < b then a else b
  }

  /** The two-digit number with high digit q and low digit r in base b. */
  function Join(q: int, b: int, r: int): int {
    q * b + r
  }

  /** Quotient and remainder are the only digits that rebuild a number. */
  lemma Digits(q: int, r: int, b: int)
    requires 0 <= r < b
    ensures (q * b + r) / b == q && (q * b + r) % b == r
    ensures Quot(q * b + r, b) == q && Rem(q * b + r, b) == r
  {
    var n := q * b + r;
    var q', r' := n / b, n % b;
    assert n == q' * b + r';
    assert (q - q') * b == r' - r;
    if q > q' { MulMono(1, q - q', b); }
    if q < q' { MulMono(1, q' - q, b); }
  }

  lemma MulNat(a: nat, b: nat)
    ensures 0 <= a * b
  {
  }

  lemma MulMono(a: int, b: int, c: int)
    requires a <= b && 0 <= c
    ensures a * c <= b * c
  {
    assert (b - a) * c >= 0;
  }

  /** A two-digit number with high digit below n stays below n * b. */
  lemma DigitsBound(q: int, r: int, n: int, b: int)
    requires 0 <= q < n && 0 <= r < b
    ensures 0 <= q * b + r < n * b
  {
    MulMono(q + 1, n, b);
    MulMono(0, q, b);
    assert (q + 1) * b == q * b + b;
  }

  /** Splitting a number below n * b gives a high digit below n and a low digit below b. */
  lemma SplitBound(k: int, n: int, b: int)
    requires 0 <= k < n * b && 0 <= n && 0 <= b
    ensures 0 < b && 0 < n
    ensures 0 <= Quot(k, b) < n && 0 <= Rem(k, b) < b
    ensures k == Quot(k, b) * b + Rem(k, b)
    ensures Quot(k, b) == k / b && Rem(k, b) == k % b
  {
    var q := k / b;
    assert k == q * b + k % b;
    if q >= n { MulMono(n, q, b); }
    if q < 0 { MulMono(q, -1, b); }
  }

  /** Floor division is the largest multiple below: q <= a / b iff q * b <= a. */
  lemma FloorLe(a: int, b: int, q: int)
    requires b > 0
    ensures q <= Quot(a, b) <==> q * b <= a
  {
    var d, r := a / b, a % b;
    assert a == d * b + r;
    if q <= d { MulMono(q, d, b); }
    if q > d { MulMono(d + 1, q, b); assert (d + 1) * b == d * b + b; }
  }

  lemma MulAssoc(a: int, b: int, c: int)
    ensures (a * b) * c == a * (b * c)
  {
  }

  lemma MulRotate(a: int, b: int, c: int)
    ensures (a * b) * c == (a * c) * b
  {
  }

  lemma MulDistrib(a: int, b: int, c: int)
    ensures (a + b) * c == a * c + b * c
  {
  }
}
