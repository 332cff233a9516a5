/** The "Error handling demonstration" of `wasm/src/lib.rs`: `safe_parse_int`,
    which parses a signed 32-bit decimal integer with `str::parse::<i32>` and
    turns every parse error into one message. */
module Parsing {
  import opened Primitives
  import opened Decimal
  import Strings

  /** The text after one optional leading sign. */
  function Unsigned(s: string): (u: string)
    ensures |u| <= |s|
  {
    if |s| > 0 && (s[0] == '+' || s[0] == '-') then s[1..] else s
  }

  /** The syntax `str::parse::<i32>` accepts: an optional `+` or `-`, then one
      or more ASCII digits. Leading zeros are allowed; white space is not. */
  predicate IsDecimalInteger(s: string) {
    |Unsigned(s)| > 0 && AllDigits(Unsigned(s))
  }

  /** The integer such a text denotes. */
  function DecimalValue(s: string): int
    requires IsDecimalInteger(s)
  {
    if s[0] == '-' then -(DigitsValue(Unsigned(s)) as int) else DigitsValue(Unsigned(s))
  }

  function Signed(positive: bool, v: nat): int {
    if positive then v else -(v as int)
  }

  /** The loop behind `<i32 as FromStr>::from_str`: for each character, reject
      a non-digit, then multiply the accumulator by 10 and add the digit (for
      a positive number) or subtract it (for a negative one), rejecting either
      step when it overflows. */
  function Accumulate(digits: string, positive: bool, acc: I32): Option<I32>
    decreases |digits|
  {
    if |digits| == 0 then Some(acc)
    else if !IsDigit(digits[0]) then None
    else
      var m := acc * 10;
      if !InI32(m) then None
      else
        var d := DigitValue(digits[0]);
        var n := if positive then m + d else m - d;
        if !InI32(n) then None else Accumulate(digits[1..], positive, n)
  }

  /** `str::parse::<i32>`; `None` stands for every kind of `ParseIntError`
      (empty input, a lone sign, an invalid digit, overflow either way). */
  function ParseI32(s: string): (r: Option<I32>)
    ensures r.Some? <==> IsDecimalInteger(s) && InI32(DecimalValue(s))
    ensures r.Some? ==> r.value == DecimalValue(s)
  {
    ParseI32Correct(s);
    if |s| == 0 then None
    else if (s[0] == '+' || s[0] == '-') && |s| == 1 then None
    else if s[0] == '+' then Accumulate(s[1..], true, 0)
    else if s[0] == '-' then Accumulate(s[1..], false, 0)
    else Accumulate(s, true, 0)
  }

  /** `safe_parse_int`: the value when the whole input is a decimal `i32`,
      otherwise the error message naming the input. */
  function SafeParseInt(s: string): (r: Result<I32, string>)
    ensures r.Ok? <==> IsDecimalInteger(s) && InI32(DecimalValue(s))
    ensures r.Ok? ==> r.value == DecimalValue(s)
    ensures r.Err? ==> r.error == "Cannot parse '" + s + "' as integer"
  {
    match ParseI32(s)
    case Some(n) => Ok(n)
    case None => Err("Cannot parse '" + s + "' as integer")
  }

  /** The checked loop, started on the digits `done` already read, yields the
      value of all the digits exactly when they are all digits and every step
      stays in range; since digits only make a number larger in magnitude,
      that is when the final value is in range. */
  lemma {:induction false} AccumulateCorrect(done: string, rest: string, positive: bool)
    requires AllDigits(done) && InI32(Signed(positive, DigitsValue(done)))
    ensures AllDigits(rest) ==> AllDigits(done + rest)
    ensures Accumulate(rest, positive, Signed(positive, DigitsValue(done))) ==
            if AllDigits(rest) && InI32(Signed(positive, DigitsValue(done + rest)))
            then Some(Signed(positive, DigitsValue(done + rest)))
            else None
    decreases |rest|
  {
    if |rest| == 0 {
      assert done + rest == done;
    } else if IsDigit(rest[0]) {
      var c := rest[0];
      var done' := done + [c];
      DigitsValueSnoc(done, c);
      assert done + rest == done' + rest[1..];
      assert AllDigits(rest) <==> AllDigits(rest[1..]) by {
        if AllDigits(rest[1..]) {
          forall i | 0 <= i < |rest| ensures IsDigit(rest[i]) {
            if i > 0 { assert rest[i] == rest[1..][i - 1]; }
          }
        }
      }
      if AllDigits(rest[1..]) {
        DigitsValueMonotone(done', rest[1..]);
      }
      if InI32(Signed(positive, DigitsValue(done'))) {
        AccumulateCorrect(done', rest[1..], positive);
      }
    }
  }

  lemma ParseI32Correct(s: string)
    ensures var r := if |s| == 0 then None
                     else if (s[0] == '+' || s[0] == '-') && |s| == 1 then None
                     else if s[0] == '+' then Accumulate(s[1..], true, 0)
                     else if s[0] == '-' then Accumulate(s[1..], false, 0)
                     else Accumulate(s, true, 0);
            && (r.Some? <==> IsDecimalInteger(s) && InI32(DecimalValue(s)))
            && (r.Some? ==> r.value == DecimalValue(s))
  {
    if |s| > 1 && (s[0] == '+' || s[0] == '-') {
      assert "" + s[1..] == s[1..];
      AccumulateCorrect("", s[1..], s[0] == '+');
    } else if |s| > 0 && s[0] != '+' && s[0] != '-' {
      assert "" + s == s;
      AccumulateCorrect("", s, true);
    }
  }

  /** The text Rust's `Display` writes for an `i32`. */
  function FormatI32(n: I32): string {
    if n < 0 then "-" + NatToDecimal(-(n as int)) else NatToDecimal(n)
  }

  /** Parsing what `Display` wrote gives the number back. */
  lemma ParseFormatRoundTrip(n: I32)
    ensures SafeParseInt(FormatI32(n)) == Ok(n)
  {
  }

  /** Where the range ends: a digit string parses exactly when its value is at
      most 2^31 - 1, and after a minus sign exactly when it is at most 2^31. */
  lemma ParseRangeLimits(n: nat)
    ensures SafeParseInt(NatToDecimal(n)).Ok? <==> n <= I32_MAX
    ensures SafeParseInt("-" + NatToDecimal(n)).Ok? <==> n <= -I32_MIN
  {
  }

  /** The length that `process_string` writes reads back, with
      `safe_parse_int`, as the input's UTF-8 byte length. */
  lemma ProcessStringLengthParses(s: string)
    requires Strings.Utf8Len(s) <= I32_MAX
    ensures var r := Strings.ProcessString(s);
            var k := |Strings.PROCESSED| + |s| + |Strings.LENGTH_LABEL|;
            SafeParseInt(r[k..|r| - 1]) == Ok(Strings.Utf8Len(s))
  {
  }

  /** Unsigned digits parse to their value when it fits. */
  lemma DigitsParse(d: string)
    requires |d| > 0 && AllDigits(d) && DigitsValue(d) <= I32_MAX
    ensures SafeParseInt(d) == Ok(DigitsValue(d))
  {
  }

  /** The accepted cases of the module's unit tests. */
  lemma UnitTestsAccepted()
    ensures SafeParseInt("123") == Ok(123)
    ensures SafeParseInt("-456") == Ok(-456)
  {
  }

  /** The rejected cases of the module's unit tests. */
  lemma UnitTestsRejected()
    ensures SafeParseInt("abc").Err? && SafeParseInt("12.34").Err?
  {
  }

  /** Edge cases of the accepted syntax: a plus sign and leading zeros are
      accepted; empty text, a lone sign and white space are not. */
  lemma SyntaxEdgeCases()
    ensures SafeParseInt("+7") == Ok(7) && SafeParseInt("007") == Ok(7)
    ensures SafeParseInt("").Err? && SafeParseInt("-").Err? && SafeParseInt(" 1").Err?
  {
  }
}
