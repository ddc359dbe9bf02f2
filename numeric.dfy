/**
 * Integer arithmetic the source does with JavaScript numbers: `Math.ceil`
 * of a quotient, decimal rendering (`toString`, `String(n)`) and decimal
 * parsing (`parseInt` on a digit string).
 */
module Numeric {

  /** `Math.ceil(a / b)` for a positive divisor: the least `r` with `a <= r * b`. */
  function CeilDiv(a: int, b: int): (r: int)
    requires b > 0
    ensures (r - 1) * b < a <= r * b
  {
    var q := (a + b - 1) / b;
    assert q * b <= a + b - 1 < q * b + b;
    q
  }

  /** The bounds in CeilDiv's contract pin the result down: nothing else satisfies them. */
  lemma CeilDivUnique(a: int, b: int, r: int)
    requires b > 0
    requires (r - 1) * b < a <= r * b
    ensures r == CeilDiv(a, b)
  {
    var c := CeilDiv(a, b);
    if r < c {
      assert r * b <= (c - 1) * b by { MulMonotone(r, c - 1, b); }
    } else if r > c {
      assert c * b <= (r - 1) * b by { MulMonotone(c, r - 1, b); }
    }
  }

  lemma MulMonotone(x: int, y: int, b: int)
    requires x <= y && b > 0
    ensures x * b <= y * b
  {
    assert y * b - x * b == (y - x) * b;
  }

  /** The ASCII decimal digits. */
  predicate IsDigit(c: char) {
    '0' <= c <= '9'
  }

  /** A non-empty string of decimal digits: the inputs on which `parseInt` is modelled. */
  predicate IsDigits(s: string) {
    |s| > 0 && forall i :: 0 <= i < |s| ==> IsDigit(s[i])
  }

  /** The value of a digit string read most-significant first, as `parseInt(s)` reads it. */
  function DecimalValue(s: string): (n: nat)
    requires forall i :: 0 <= i < |s| ==> IsDigit(s[i])
  {
    if s == [] then 0
    else
      assert IsDigit(s[|s| - 1]);
      DecimalValue(s[..|s| - 1]) * 10 + (s[|s| - 1] as int - '0' as int)
  }

  /** The decimal rendering of a natural number, as `n.toString()` writes it. */
  function ShowNat(n: nat): (s: string)
    ensures IsDigits(s)
    ensures |s| > 1 ==> s[0] != '0'
  {
    if n < 10 then [('0' as int + n) as char]
    else ShowNat(n / 10) + [('0' as int + n % 10) as char]
  }

  /** Reading back the rendering of `n` gives `n`. */
  lemma {:induction false} DecimalValueOfShowNat(n: nat)
    ensures DecimalValue(ShowNat(n)) == n
  {
    if n >= 10 {
      DecimalValueOfShowNat(n / 10);
      var s := ShowNat(n);
      assert s[..|s| - 1] == ShowNat(n / 10);
    }
  }

  /** The decimal rendering of an integer, as `String(n)` writes it: a minus sign before a negative one. */
  function ShowInt(n: int): string {
    if n >= 0 then ShowNat(n) else "-" + ShowNat(-n)
  }

  /** A non-negative integer's rendering is a digit string that reads back as the integer. */
  lemma ShowIntReadsBack(n: int)
    ensures n >= 0 ==> IsDigits(ShowInt(n)) && DecimalValue(ShowInt(n)) == n
  {
    if n >= 0 {
      DecimalValueOfShowNat(n);
    }
  }
}
