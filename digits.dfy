/**
 * Decimal digits inside text: the filter that both the scraper and the price
 * normaliser apply, the base-10 value of a digit string, and the decimal
 * rendering of a natural number, which that value inverts.
 */
module Digits {

  predicate IsDigit(c: char) {
    '0' <= c <= '9'
  }

  predicate AllDigits(s: string) {
    forall i :: 0 <= i < |s| ==> IsDigit(s[i])
  }

  predicate HasDigit(s: string) {
    exists i :: 0 <= i < |s| && IsDigit(s[i])
  }

  /** The digits of `s` in their original order; every other character is dropped. */
  function Filter(s: string): (r: string)
    ensures AllDigits(r)
    ensures |r| <= |s|
  {
    if s == [] then []
    else
      var rest := Filter(s[1..]);
      if IsDigit(s[0]) then [s[0]] + rest else rest
  }

  /** Filtering leaves nothing exactly when the text holds no digit. */
  lemma {:induction false} FilterEmpty(s: string)
    ensures Filter(s) == [] <==> !HasDigit(s)
  {
    if s != [] {
      FilterEmpty(s[1..]);
      assert HasDigit(s) <==> IsDigit(s[0]) || HasDigit(s[1..]) by {
        if HasDigit(s) && !IsDigit(s[0]) {
          var i :| 0 <= i < |s| && IsDigit(s[i]);
          assert s[1..][i - 1] == s[i];
        }
        if HasDigit(s[1..]) {
          var i :| 0 <= i < |s[1..]| && IsDigit(s[1..][i]);
          assert s[i + 1] == s[1..][i];
        }
      }
    }
  }

  /** Filtering distributes over concatenation. */
  lemma {:induction false} FilterAppend(a: string, b: string)
    ensures Filter(a + b) == Filter(a) + Filter(b)
  {
    if a == [] {
      assert a + b == b;
    } else {
      assert (a + b)[1..] == a[1..] + b;
      FilterAppend(a[1..], b);
    }
  }

  /** A string of digits passes the filter unchanged. */
  lemma {:induction false} FilterOfDigits(s: string)
    requires AllDigits(s)
    ensures Filter(s) == s
  {
    if s != [] {
      FilterOfDigits(s[1..]);
    }
  }

  /** Filtering twice is filtering once. */
  lemma FilterIdempotent(s: string)
    ensures Filter(Filter(s)) == Filter(s)
  {
    FilterOfDigits(Filter(s));
  }

  /** Text without digits filters to the empty string. */
  lemma FilterOfNonDigits(s: string)
    requires !HasDigit(s)
    ensures Filter(s) == []
  {
    FilterEmpty(s);
  }

  function DigitValue(c: char): (d: nat)
    requires IsDigit(c)
    ensures d < 10
  {
    (c as int) - ('0' as int)
  }

  function DigitChar(d: nat): (c: char)
    requires d < 10
    ensures IsDigit(c) && DigitValue(c) == d
  {
    (('0' as int) + d) as char
  }

  function Pow10(n: nat): (p: nat)
    ensures p >= 1
  {
    if n == 0 then 1 else 10 * Pow10(n - 1)
  }

  /** The base-10 value of a digit string, most significant digit first; the empty string is 0. */
  function Value(s: string): (n: nat)
    requires AllDigits(s)
    ensures n < Pow10(|s|)
  {
    if s == [] then 0
    else 10 * Value(s[..|s| - 1]) + DigitValue(s[|s| - 1])
  }

  /** The decimal rendering of `n`, without leading zeros. */
  function Decimal(n: nat): (s: string)
    ensures AllDigits(s)
    ensures s != []
    ensures s[0] == '0' ==> n == 0 && s == "0"
  {
    if n < 10 then [DigitChar(n)]
    else Decimal(n / 10) + [DigitChar(n % 10)]
  }

  /** Appending digit string `b` to `a` shifts `a` left by `|b|` decimal places. */
  lemma {:induction false} ValueAppend(a: string, b: string)
    requires AllDigits(a) && AllDigits(b)
    ensures AllDigits(a + b)
    ensures Value(a + b) == Value(a) * Pow10(|b|) + Value(b)
  {
    if b == [] {
      assert a + b == a;
    } else {
      var b', d := b[..|b| - 1], DigitValue(b[|b| - 1]);
      var ab := a + b;
      assert ab[..|ab| - 1] == a + b';
      assert ab[|ab| - 1] == b[|b| - 1];
      ValueAppend(a, b');
      ShiftStep(Value(ab), Value(a + b'), Value(a), Value(b), Value(b'), Pow10(|b|), Pow10(|b'|), d);
    }
  }

  lemma ShiftStep(vab: int, vab': int, va: int, vb: int, vb': int, p: int, p': int, d: int)
    requires vab == 10 * vab' + d && vab' == va * p' + vb'
    requires vb == 10 * vb' + d && p == 10 * p'
    ensures vab == va * p + vb
  {
  }

  /** Leading zeros do not change the value. */
  lemma LeadingZero(s: string)
    requires AllDigits(s)
    ensures AllDigits("0" + s) && Value("0" + s) == Value(s)
  {
    ValueAppend("0", s);
    assert "0"[..0] == [];
  }

  /** The value of a number's decimal rendering is that number. */
  lemma {:induction false} ValueOfDecimal(n: nat)
    ensures Value(Decimal(n)) == n
  {
    if n >= 10 {
      var s := Decimal(n);
      assert s[..|s| - 1] == Decimal(n / 10);
      ValueOfDecimal(n / 10);
    }
  }

  /**
   * Rendering the value of a digit string gives that string back, exactly when the
   * string has no superfluous leading zero.
   */
  lemma {:induction false} DecimalOfValue(s: string)
    requires AllDigits(s) && s != []
    requires s[0] != '0' || s == "0"
    ensures Decimal(Value(s)) == s
  {
    var init := s[..|s| - 1];
    var d := DigitValue(s[|s| - 1]);
    if init == [] {
      assert s == [s[0]];
    } else {
      assert init[0] == s[0];
      LeadingDigitBound(init);
      DecimalOfValue(init);
      var n := Value(s);
      assert n == 10 * Value(init) + d;
      assert n / 10 == Value(init) && n % 10 == d;
      assert DigitChar(d) == s[|s| - 1];
      assert s == init + [s[|s| - 1]];
    }
  }

  /** A digit string that does not start with '0' is at least 1. */
  lemma {:induction false} LeadingDigitBound(s: string)
    requires AllDigits(s) && s != [] && s[0] != '0'
    ensures Value(s) >= 1
  {
    if |s| > 1 {
      var init := s[..|s| - 1];
      assert init[0] == s[0];
      LeadingDigitBound(init);
    }
  }
}
