/** Exact-arithmetic meaning of the JavaScript built-ins the Mars clock relies on:
    `Math.floor` (Dafny's `.Floor`), the truncating remainder operator `%`
    (defined through truncation toward zero, `Trunc` below),
    `Number.prototype.toString` on integral values and `String.prototype.padStart`.
    Numbers are exact reals; IEEE-754 rounding is not modelled. */
module JsNumber {

  /** x rounded toward zero, the quotient the remainder operator `%` uses. */
  function Trunc(x: real): (r: int)
    ensures 0.0 <= x ==> r as real <= x < r as real + 1.0
    ensures x < 0.0 ==> r as real - 1.0 < x <= r as real
  {
    if x >= 0.0 then x.Floor else -((-x).Floor)
  }

  /** Reference definition of "x modulo y" for a positive divisor: the floored
      remainder, which always lies in [0, y). */
  function FloorMod(x: real, y: real): (r: real)
    requires y > 0.0
    ensures 0.0 <= r < y
  {
    var q := (x / y).Floor;
    assert y * (q as real) <= x < y * (q as real) + y by { FloorScale(x, y); }
    x - y * q as real
  }

  /** The floor of x / y, scaled back by y, brackets x. */
  lemma FloorScale(x: real, y: real)
    requires y > 0.0
    ensures y * ((x / y).Floor as real) <= x < y * ((x / y).Floor as real) + y
  {
    var q := x / y;
    var f := q.Floor as real;
    assert x == y * q;
    MulMono(y, f, q);
    MulStrict(y, q, f + 1.0);
    assert y * (f + 1.0) == y * f + y;
    assert x < y * f + y;
  }

  lemma MulMono(y: real, a: real, b: real)
    requires y > 0.0 && a <= b
    ensures y * a <= y * b
  {
    assert y * b - y * a == y * (b - a);
  }

  lemma MulStrict(y: real, a: real, b: real)
    requires y > 0.0 && a < b
    ensures y * a < y * b
  {
    assert y * b - y * a == y * (b - a);
  }

  /** The remainder operator `%` on numbers: the result has the sign of the
      dividend and differs from it by a whole multiple of the divisor, so it is
      either the floored remainder or the floored remainder minus one divisor. */
  function Rem(x: real, y: real): (r: real)
    requires y > 0.0
    ensures 0.0 <= x ==> 0.0 <= r < y
    ensures x < 0.0 ==> -y < r <= 0.0
    ensures r == FloorMod(x, y) || r == FloorMod(x, y) - y
  {
    var t := Trunc(x / y);
    TruncRemRelation(x, y);
    x - y * t as real
  }

  lemma TruncRemRelation(x: real, y: real)
    requires y > 0.0
    ensures var r := x - y * Trunc(x / y) as real;
      (r == FloorMod(x, y) || r == FloorMod(x, y) - y) &&
      (0.0 <= x ==> 0.0 <= r < y) && (x < 0.0 ==> -y < r <= 0.0)
  {
    var q := x / y;
    var f := q.Floor;
    var t := Trunc(q);
    FloorScale(x, y);
    QuotientSign(x, y);
    if x < 0.0 {
      TruncOfNegative(q);
      if t == f + 1 {
        BelowByOneStep(x, y, q, f as real);
      } else {
        assert y * (t as real) == y * q;
      }
    }
  }

  lemma BelowByOneStep(x: real, y: real, q: real, f: real)
    requires y > 0.0 && x == y * q && f < q && x < y * f + y
    ensures -y < x - y * (f + 1.0) < 0.0
  {
    MulStrict(y, f, q);
  }

  /** Dividing by a positive number keeps the sign. */
  lemma QuotientSign(x: real, y: real)
    requires y > 0.0
    ensures x == y * (x / y)
    ensures 0.0 <= x <==> 0.0 <= x / y
  {
    var q := x / y;
    if q < 0.0 { MulStrict(y, q, 0.0); }
    if q >= 0.0 { MulMono(y, 0.0, q); }
  }

  /** Rounding a negative number toward zero gives its floor when it is whole,
      and one more than its floor otherwise. */
  lemma TruncOfNegative(q: real)
    requires q < 0.0
    ensures Trunc(q) == q.Floor ==> q.Floor as real == q
    ensures Trunc(q) == q.Floor || (Trunc(q) == q.Floor + 1 && q.Floor as real < q)
  {
  }

  /** The clock's fix-up after `%`: a negative remainder has one divisor added.
      The result is the floored remainder. */
  function Wrap(x: real, y: real): (r: real)
    requires y > 0.0
    ensures r == FloorMod(x, y)
    ensures 0.0 <= r < y
  {
    var rem := Rem(x, y);
    if rem < 0.0 then rem + y else rem
  }

  /** The floored remainder is periodic: shifting the dividend by k divisors
      leaves it unchanged. */
  lemma FloorModShift(x: real, y: real, k: int)
    requires y > 0.0
    ensures FloorMod(x + (k as real) * y, y) == FloorMod(x, y)
  {
    var q := x / y;
    QuotientSign(x, y);
    var x' := x + (k as real) * y;
    assert x' == y * (q + k as real);
    QuotientOfProduct(x', y, q + k as real);
    FloorPlusInt(q, k);
    var f := q.Floor;
    assert FloorMod(x', y) == x' - y * (f + k) as real;
    assert y * (f + k) as real == y * (f as real) + (k as real) * y;
  }

  /** Division undoes multiplication by a positive number. */
  lemma QuotientOfProduct(a: real, y: real, b: real)
    requires y > 0.0 && a == y * b
    ensures a / y == b
  {
  }

  /** Adding a whole number to x adds it to the floor of x. */
  lemma FloorPlusInt(x: real, n: int)
    ensures (x + n as real).Floor == x.Floor + n
  {
  }

  /** The floored remainder of a value already in [0, y) is the value itself. */
  lemma FloorModOfInRange(x: real, y: real)
    requires y > 0.0 && 0.0 <= x < y
    ensures FloorMod(x, y) == x
  {
    var q := x / y;
    assert x == y * q;
    assert 0.0 <= q by {
      if q < 0.0 { MulStrict(y, q, 0.0); }
    }
    assert q < 1.0 by {
      if q >= 1.0 { MulMono(y, 1.0, q); }
    }
    assert q.Floor == 0;
  }

  // ---------------------------------------------------------------------------
  // Decimal text

  predicate IsDigit(c: char) {
    '0' <= c <= '9'
  }

  predicate AllDigits(s: string) {
    forall i :: 0 <= i < |s| ==> IsDigit(s[i])
  }

  function DigitValue(c: char): (d: nat)
    requires IsDigit(c)
    ensures d < 10
  {
    c as int - '0' as int
  }

  function DigitChar(d: nat): (c: char)
    requires d < 10
    ensures IsDigit(c) && DigitValue(c) == d
  {
    ('0' as int + d) as char
  }

  /** The number a string of decimal digits denotes (most significant first). */
  function DigitsValue(s: string): nat
    requires AllDigits(s)
  {
    if s == [] then 0 else DigitsValue(s[..|s| - 1]) * 10 + DigitValue(s[|s| - 1])
  }

  function Pow10(k: nat): (p: nat)
    ensures p >= 1
  {
    if k == 0 then 1 else 10 * Pow10(k - 1)
  }

  /** `toString` of a non-negative integral number: its shortest decimal
      digit string, which denotes the number and has no leading zero. */
  function NatToString(n: nat): (r: string)
    ensures 1 <= |r| && AllDigits(r) && DigitsValue(r) == n
    ensures n < Pow10(|r|)
    ensures |r| > 1 ==> Pow10(|r| - 1) <= n
    decreases n
  {
    if n < 10 then [DigitChar(n)]
    else
      var prefix := NatToString(n / 10);
      var r := prefix + [DigitChar(n % 10)];
      assert r[..|r| - 1] == prefix;
      r
  }

  /** `toString` of an integral number: a minus sign before the digits of the
      magnitude when it is negative. */
  function IntToString(n: int): (r: string)
    ensures 0 <= n ==> 1 <= |r| && AllDigits(r) && DigitsValue(r) == n && n < Pow10(|r|)
    ensures 0 <= n && |r| > 1 ==> Pow10(|r| - 1) <= n
    ensures n < 0 ==> 2 <= |r| && r[0] == '-' && AllDigits(r[1..]) && DigitsValue(r[1..]) == -n
    ensures n < 0 ==> -n < Pow10(|r| - 1) && (|r| > 2 ==> Pow10(|r| - 2) <= -n)
  {
    if n < 0 then
      var digits := NatToString(-n);
      assert ("-" + digits)[1..] == digits;
      "-" + digits
    else NatToString(n)
  }

  /** `padStart(width, fill)` with a one-character fill: the string itself when
      it is already `width` long, otherwise fill characters before it up to
      `width`. */
  function PadStart(s: string, width: nat, fill: char): (r: string)
    ensures |r| == if |s| < width then width else |s|
    ensures r[|r| - |s|..] == s
    ensures forall i :: 0 <= i < |r| - |s| ==> r[i] == fill
  {
    if |s| < width then seq(width - |s|, _ => fill) + s else s
  }
}
