/** Powers, and decimal digits. */
module Numerals {

  function Power(b: nat, n: nat): (r: nat)
    ensures b > 0 ==> r > 0
  {
    if n == 0 then 1 else b * Power(b, n - 1)
  }

  lemma {:induction false} PowerSum(b: nat, m: nat, n: nat)
    ensures Power(b, m + n) == Power(b, m) * Power(b, n)
    decreases n
  {
    if n > 0 {
      PowerSum(b, m, n - 1);
      Regroup(b, Power(b, m), Power(b, n - 1));
    }
  }

  lemma Regroup(b: nat, x: nat, y: nat)
    ensures b * (x * y) == x * (b * y)
  {
  }

  lemma {:induction false} PowerGrows(b: nat, m: nat, n: nat)
    requires b >= 1 && m <= n
    ensures Power(b, m) <= Power(b, n)
    decreases n
  {
    if m < n {
      PowerGrows(b, m, n - 1);
      Scale(b, Power(b, n - 1));
    }
  }

  lemma Scale(b: nat, x: nat)
    requires b >= 1
    ensures x <= b * x
  {
  }

  function Times(x: real, y: real): real {
    x * y
  }

  lemma TimesOrdered(x: real, y: real, m: real)
    requires x <= y && m >= 0.0
    ensures Times(x, m) <= Times(y, m) && Times(0.0, m) == 0.0
  {
  }

  lemma TimesMore(x: real, m: real)
    ensures Times(x, m) == x + Times(x, m - 1.0)
  {
  }

  lemma TimesWhole(x: int, y: int)
    ensures Times(x as real, y as real) == (x * y) as real
  {
  }

  function RealPower(x: real, n: nat): real {
    if n == 0 then 1.0 else Times(x, RealPower(x, n - 1))
  }

  predicate IsDigit(c: char) {
    '0' <= c <= '9'
  }

  predicate AllDigits(s: string) {
    forall i :: 0 <= i < |s| ==> IsDigit(s[i])
  }

  predicate IsDigits(s: string) {
    s != "" && AllDigits(s)
  }

  function Positional(s: string): nat
    requires AllDigits(s)
  {
    if s == "" then 0 else 10 * Positional(s[..|s| - 1]) + (s[|s| - 1] - '0') as nat
  }

  function Digit(d: nat): char
    requires d < 10
  {
    '0' + d as char
  }

  /** The ten digits in their order. */
  lemma DigitIs(d: nat)
    requires d < 10
    ensures Digit(d) == "0123456789"[d]
  {
  }

  function Decimal(n: nat): string {
    if n < 10 then [Digit(n)] else Decimal(n / 10) + [Digit(n % 10)]
  }

  lemma {:induction false} DecimalLength(n: nat, k: nat)
    requires n < Power(10, k + 1)
    ensures |Decimal(n)| <= k + 1
    decreases k
  {
    if n >= 10 {
      DecimalLength(n / 10, k - 1);
    }
  }

  lemma {:induction false} DecimalPositional(n: nat)
    ensures IsDigits(Decimal(n)) && Positional(Decimal(n)) == n
  {
    if n >= 10 {
      DecimalPositional(n / 10);
      assert Decimal(n)[..|Decimal(n)| - 1] == Decimal(n / 10);
    } else {
      assert Decimal(n)[..0] == "";
    }
  }

  lemma {:induction false} PositionalFront(c: char, p: string)
    requires IsDigit(c) && AllDigits(p)
    ensures AllDigits([c] + p) && Positional([c] + p) == (c - '0') as nat * Power(10, |p|) + Positional(p)
    ensures Positional(p) < Power(10, |p|)
    decreases |p|
  {
    if p == "" {
      assert [c] + p == [c] && [c][..0] == "";
    } else {
      var n := |p| - 1;
      PositionalFront(c, p[..n]);
      assert ([c] + p)[..|p|] == [c] + p[..n];
      Shifted((c - '0') as nat, Power(10, n));
    }
  }

  lemma Shifted(a: nat, b: nat)
    ensures 10 * (a * b) == a * (10 * b)
  {
  }

  lemma LastDigit(q: nat, d: nat)
    requires d < 10
    ensures (10 * q + d) / 10 == q && (10 * q + d) % 10 == d
  {
  }

  /** Digits without a leading zero are the decimal text of their value. */
  lemma {:induction false} DecimalBack(s: string)
    requires IsDigits(s) && s[0] != '0'
    ensures Positional(s) > 0 && Decimal(Positional(s)) == s
    decreases |s|
  {
    var n := |s| - 1;
    var d := (s[n] - '0') as nat;
    if n == 0 {
      assert s[..0] == "" && s == [s[0]];
    } else {
      DecimalBack(s[..n]);
      var q := Positional(s[..n]);
      LastDigit(q, d);
      assert s == s[..n] + [s[n]];
    }
  }

  lemma {:induction false} NoLeadingZero(n: nat)
    requires n > 0
    ensures Decimal(n)[0] != '0'
  {
    if n >= 10 {
      NoLeadingZero(n / 10);
    }
  }

  lemma Power18()
    ensures Power(10, 18) == 1_000_000_000_000_000_000
    ensures Power(10, 19) == 10_000_000_000_000_000_000
  {
    assert Power(10, 6) == 1_000_000 by {
      assert Power(10, 3) == 1000;
      PowerSum(10, 3, 3);
    }
    PowerSum(10, 6, 6);
    PowerSum(10, 12, 6);
  }

  /** Whole numbers that a double holds whatever their digits. */
  const EXACT := 1_000_000_000_000_000

  lemma ShortDecimal(n: nat)
    requires n < EXACT
    ensures |Decimal(n)| <= 15
  {
    assert Power(10, 5) == 100_000 by {
      assert Power(10, 3) == 1000;
    }
    PowerSum(10, 5, 5);
    PowerSum(10, 10, 5);
    DecimalLength(n, 14);
  }
}
