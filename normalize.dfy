/**
 * The price normaliser of main.py (`clean_price`): drop every character that is
 * not a decimal digit and read what is left as a base-10 integer. Reading the
 * empty string fails, as `int("")` raises `ValueError`.
 */
module Normalize {
  import opened Wrappers
  import opened Digits

  datatype PriceError = ValueError

  function CleanPrice(s: string): (r: Result<int, PriceError>)
    ensures r.Ok? <==> HasDigit(s)
    ensures r.Err? ==> r.error == ValueError
    ensures r.Ok? ==> r.value >= 0 && r.value == Value(Filter(s))
  {
    var cleaned := Filter(s);
    FilterEmpty(s);
    if cleaned == [] then Err(ValueError)
    else
      Ok(Value(cleaned))
  }

  /** A non-empty digit string without its superfluous leading zeros ("007" becomes "7", "000" becomes "0"). */
  function StripLeadingZeros(s: string): (r: string)
    requires AllDigits(s) && s != []
    ensures AllDigits(r) && r != [] && (r[0] != '0' || r == "0")
    ensures Value(r) == Value(s)
    decreases |s|
  {
    if |s| > 1 && s[0] == '0' then
      LeadingZero(s[1..]);
      assert s == "0" + s[1..];
      StripLeadingZeros(s[1..])
    else s
  }

  /**
   * Printing a normalised price in decimal gives back the digits of the text it
   * came from, in their order, less any leading zeros.
   */
  lemma CleanPriceRendersDigits(s: string)
    requires HasDigit(s)
    ensures Decimal(CleanPrice(s).value) == StripLeadingZeros(Filter(s))
  {
    FilterEmpty(s);
    DecimalOfValue(StripLeadingZeros(Filter(s)));
  }

  /** A price printed in decimal between two digit-free texts normalises back to itself. */
  lemma CleanPriceOfDecimal(prefix: string, n: nat, suffix: string)
    requires !HasDigit(prefix) && !HasDigit(suffix)
    ensures CleanPrice(prefix + Decimal(n) + suffix) == Ok(n)
  {
    var d := Decimal(n);
    FilterOfNonDigits(prefix);
    FilterOfNonDigits(suffix);
    FilterOfDigits(d);
    FilterAppend(prefix, d);
    FilterAppend(prefix + d, suffix);
    assert Filter(prefix + d) == d;
    assert Filter(prefix + d + suffix) == d + [];
    CleanPriceOfDigitString(prefix + d + suffix, d);
    ValueOfDecimal(n);
  }

  lemma CleanPriceOfDigitString(s: string, digits: string)
    requires AllDigits(digits) && digits != [] && Filter(s) == digits
    ensures CleanPrice(s) == Ok(Value(digits))
  {
  }

  /**
   * Digits are concatenated, whatever separates them: the digits of `b` are
   * appended to those of `a` as lower-order decimal places ("12.50" reads as 1250).
   */
  lemma DigitConcatenation(a: string, b: string)
    requires HasDigit(a) && HasDigit(b)
    ensures CleanPrice(a + b).Ok?
    ensures CleanPrice(a + b).value
         == CleanPrice(a).value * Pow10(|Filter(b)|) + CleanPrice(b).value
  {
    FilterAppend(a, b);
    ValueAppend(Filter(a), Filter(b));
  }

  /** Normalising text that is already digit-filtered gives the same result as normalising the original. */
  lemma CleanPriceOfFiltered(s: string)
    ensures CleanPrice(Filter(s)) == CleanPrice(s)
  {
    FilterIdempotent(s);
  }

  /** "1 234 ₽" normalises to 1234: the space and the currency sign are dropped. */
  lemma CleanPriceSeparated()
    ensures CleanPrice("1 234 ₽") == Ok(1234)
  {
    assert Filter("1 234 ₽") == "1234";
    assert Decimal(1234) == "1234";
    ValueOfDecimal(1234);
    CleanPriceOfDigitString("1 234 ₽", "1234");
  }

  /** "12.50" normalises to 1250: the decimal point is dropped, not interpreted. */
  lemma CleanPriceFraction()
    ensures CleanPrice("12.50") == Ok(1250)
  {
    assert Filter("12.50") == "1250";
    assert Decimal(1250) == "1250";
    ValueOfDecimal(1250);
    CleanPriceOfDigitString("12.50", "1250");
  }

  /** Text without a digit, the empty text included, fails to normalise. */
  lemma CleanPriceNoDigits()
    ensures CleanPrice("") == Err(ValueError)
    ensures CleanPrice("abc") == Err(ValueError)
  {
    assert Filter("abc") == "";
  }
}
