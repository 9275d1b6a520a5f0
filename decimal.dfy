/**
 * Python's `str` applied to an `int`: the shortest decimal numeral, with a
 * leading '-' for negative values; and a strict parser for exactly those
 * numerals, used to state what the rendering means.
 */
module Decimal {
  import opened Wrappers

  predicate IsDigit(c: char) {
    '0' <= c <= '9'
  }

  predicate AllDigits(s: string) {
    forall i :: 0 <= i < |s| ==> IsDigit(s[i])
  }

  /** A non-empty run of digits without leading zeros ("0" itself allowed). */
  predicate IsCanonicalDigits(s: string) {
    |s| >= 1 && AllDigits(s) && (s[0] == '0' ==> |s| == 1)
  }

  function DigitChar(d: int): (c: char)
    requires 0 <= d < 10
    ensures IsDigit(c)
  {
    (48 + d) as char
  }

  function DigitValue(c: char): (d: int)
    requires IsDigit(c)
    ensures 0 <= d < 10 && DigitChar(d) == c
  {
    c as int - 48
  }

  /** The decimal numeral of a natural number, most significant digit first. */
  function NatToDecimal(n: nat): (s: string)
    ensures IsCanonicalDigits(s)
    decreases n
  {
    if n < 10 then [DigitChar(n)] else NatToDecimal(n / 10) + [DigitChar(n % 10)]
  }

  /**
   * `str(n)` for a Python `int`: the canonical digits of `|n|`, preceded by
   * '-' exactly when `n` is negative.
   */
  function IntToDecimal(n: int): (s: string)
    ensures n >= 0 ==> IsCanonicalDigits(s)
    ensures n < 0 ==> |s| >= 2 && s[0] == '-' && IsCanonicalDigits(s[1..]) && s[1..] != "0"
  {
    if n < 0 then "-" + NatToDecimal(-n) else NatToDecimal(n)
  }

  /** The value of a run of digits (most significant first). */
  function DigitsValue(s: string): nat
    requires AllDigits(s)
    decreases |s|
  {
    if |s| == 0 then 0 else 10 * DigitsValue(s[..|s| - 1]) + DigitValue(s[|s| - 1])
  }

  /** Parses exactly the numerals `IntToDecimal` produces ("-0" and "007" are refused). */
  function ParseDecimal(s: string): Option<int> {
    if |s| >= 1 && s[0] == '-' then
      if IsCanonicalDigits(s[1..]) && s[1..] != "0" then Some(0 - DigitsValue(s[1..])) else None
    else if IsCanonicalDigits(s) then Some(DigitsValue(s))
    else None
  }

  lemma {:induction false} DigitsValueNatToDecimal(n: nat)
    ensures DigitsValue(NatToDecimal(n)) == n
    decreases n
  {
    var s := NatToDecimal(n);
    if n >= 10 {
      DigitsValueNatToDecimal(n / 10);
      assert s[..|s| - 1] == NatToDecimal(n / 10);
    }
  }

  /** A canonical digit run with a nonzero first digit has a nonzero value. */
  lemma {:induction false} DigitsValuePositive(s: string)
    requires AllDigits(s) && |s| >= 1 && s[0] != '0'
    ensures DigitsValue(s) >= 1
    decreases |s|
  {
    if |s| > 1 {
      DigitsValuePositive(s[..|s| - 1]);
    }
  }

  lemma {:induction false} NatToDecimalDigitsValue(s: string)
    requires IsCanonicalDigits(s)
    ensures NatToDecimal(DigitsValue(s)) == s
    decreases |s|
  {
    if |s| > 1 {
      var init := s[..|s| - 1];
      DigitsValuePositive(init);
      NatToDecimalDigitsValue(init);
      assert s == init + [s[|s| - 1]];
    }
  }

  /** `str(n)` parses back to `n`. */
  lemma ParseIntToDecimal(n: int)
    ensures ParseDecimal(IntToDecimal(n)) == Some(n)
  {
    DigitsValueNatToDecimal(if n < 0 then -n else n);
    if n < 0 {
      assert IntToDecimal(n)[1..] == NatToDecimal(-n);
    }
  }

  /** Every accepted numeral is the rendering of the value it parses to. */
  lemma IntToDecimalParse(s: string, n: int)
    requires ParseDecimal(s) == Some(n)
    ensures IntToDecimal(n) == s
  {
    if |s| >= 1 && s[0] == '-' {
      NatToDecimalDigitsValue(s[1..]);
      assert s == "-" + s[1..];
    } else {
      NatToDecimalDigitsValue(s);
    }
  }

  /** Rendering and parsing are inverse to each other. */
  lemma ParseIffRender(s: string, n: int)
    ensures ParseDecimal(s) == Some(n) <==> IntToDecimal(n) == s
  {
    if ParseDecimal(s) == Some(n) {
      IntToDecimalParse(s, n);
    }
    if IntToDecimal(n) == s {
      ParseIntToDecimal(n);
    }
  }

  lemma Examples()
    ensures IntToDecimal(0) == "0"
    ensures IntToDecimal(1234) == "1234"
    ensures IntToDecimal(-15) == "-15"
  {
  }
}
