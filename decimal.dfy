/** Decimal digit strings: the text that Rust's `Display` writes for an
    integer (used by `format!` in `process_string`) and the digit strings that
    `str::parse` reads (used by `safe_parse_int`). */
module Decimal {

  predicate IsDigit(c: char) {
    '0' <= c <= '9'
  }

  predicate AllDigits(s: string) {
    forall i :: 0 <= i < |s| ==> IsDigit(s[i])
  }

  function DigitValue(c: char): (d: nat)
    requires IsDigit(c)
    ensures d < 10
  {
    c as int - '0' as int
  }

  function DigitChar(d: nat): (c: char)
    requires d < 10
    ensures IsDigit(c) && DigitValue(c) == d
  {
    ('0' as int + d) as char
  }

  /** The number a string of decimal digits denotes, most significant digit
      first; leading zeros are allowed and the empty string denotes 0. */
  function DigitsValue(s: string): nat
    requires AllDigits(s)
  {
    if |s| == 0 then 0 else 10 * DigitsValue(s[..|s| - 1]) + DigitValue(s[|s| - 1])
  }

  lemma DigitsValueSnoc(p: string, c: char)
    requires AllDigits(p) && IsDigit(c)
    ensures AllDigits(p + [c])
    ensures DigitsValue(p + [c]) == 10 * DigitsValue(p) + DigitValue(c)
  {
  }

  /** Appending digits never makes the denoted number smaller. */
  lemma {:induction false} DigitsValueMonotone(p: string, q: string)
    requires AllDigits(p) && AllDigits(q)
    ensures AllDigits(p + q)
    ensures DigitsValue(p) <= DigitsValue(p + q)
  {
    if |q| > 0 {
      var q' := q[..|q| - 1];
      DigitsValueMonotone(p, q');
      assert p + q == (p + q') + [q[|q| - 1]];
      DigitsValueSnoc(p + q', q[|q| - 1]);
    } else {
      assert p + q == p;
    }
  }

  /** Rust's `Display` for an unsigned integer: the shortest decimal digit
      string, "0" for zero. */
  function NatToDecimal(n: nat): (s: string)
    ensures |s| > 0 && AllDigits(s)
    ensures s[0] == '0' ==> s == "0"
    ensures DigitsValue(s) == n
  {
    if n < 10 then [DigitChar(n)]
    else
      var p := NatToDecimal(n / 10);
      DigitsValueSnoc(p, DigitChar(n % 10));
      p + [DigitChar(n % 10)]
  }

  /** A digit string without leading zeros ("0" itself aside), the form
      `Display` writes. */
  predicate IsCanonicalDigits(s: string) {
    |s| > 0 && AllDigits(s) && (s[0] == '0' ==> |s| == 1)
  }

  /** A string that starts with a non-zero digit denotes a positive number. */
  lemma NonZeroLeadingDigit(s: string)
    requires |s| > 0 && AllDigits(s) && s[0] != '0'
    ensures DigitsValue(s) > 0
  {
  }

  /** Each number has one canonical digit string, so `NatToDecimal`'s
      contract determines its result. */
  lemma {:induction false} CanonicalDigitsUnique(d1: string, d2: string)
    requires IsCanonicalDigits(d1) && IsCanonicalDigits(d2)
    requires DigitsValue(d1) == DigitsValue(d2)
    ensures d1 == d2
    decreases |d1|
  {
    var p1, p2 := d1[..|d1| - 1], d2[..|d2| - 1];
    DigitsValueSnoc(p1, d1[|d1| - 1]);
    DigitsValueSnoc(p2, d2[|d2| - 1]);
    assert p1 + [d1[|d1| - 1]] == d1 && p2 + [d2[|d2| - 1]] == d2;
    var v := DigitsValue(d1);
    assert DigitValue(d1[|d1| - 1]) == v % 10 && DigitsValue(p1) == v / 10;
    assert DigitValue(d2[|d2| - 1]) == v % 10 && DigitsValue(p2) == v / 10;
    if |p1| > 0 {
      NonZeroLeadingDigit(p1);
    }
    if |p2| > 0 {
      NonZeroLeadingDigit(p2);
    }
    if |p1| > 0 && |p2| > 0 {
      CanonicalDigitsUnique(p1, p2);
    }
  }
}
