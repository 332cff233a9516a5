# wasm-postgres-bridge: the WebAssembly helper module, verified in Dafny

This project models `wasm/src/lib.rs`, the small Rust module that the bridge
compiles to WebAssembly and exposes to JavaScript through `wasm_bindgen`. It
offers arithmetic on `i32` (`add`, `subtract`, `multiply`, `divide`), string
helpers (`reverse_string`, `to_uppercase`, `count_words`, `process_string`),
two vector helpers (`create_array`, `sum_array`) and a checked integer parser
(`safe_parse_int`). Each is modelled on its Rust semantics. `add`,
`subtract` and `multiply` are the in-range integer operation itself, so their
bodies are their definition and the lemmas beside them state how they relate.
The others are proved against an independent description of what they compute
(a quotient/remainder characterisation, word-start positions, digit values,
the mathematical sum).

Modules, one per section of the source file plus two shared ones:

- `Primitives` (`primitives.dfy`): Rust's `i32` and wasm32 `usize` as subset
  types of `int`, `Result` and `Option`.
- `Decimal` (`decimal.dfy`): decimal digit strings, the value they denote, and
  Rust's `Display` for unsigned integers with its round trip.
- `Arithmetic` (`arithmetic.dfy`): the four arithmetic functions. Rust's `/`
  rounds toward zero, unlike Dafny's Euclidean `/`. It is therefore written out
  and proved against the quotient/remainder characterisation of truncating
  division.
- `Strings` (`strings.dfy`): the string functions. A Rust `&str` is seen
  through `chars()`, a sequence of Unicode scalar values, which is what a
  Dafny `string` is. `count_words` follows `split_whitespace`, which splits on
  the 25 code points with the Unicode White_Space property (`char::is_whitespace`).
  `process_string` reports `str::len`, the UTF-8 byte length, computed from
  the code-point ranges of section 3 of RFC 3629.
- `Arrays` (`arrays.dfy`): `create_array` is a method with the source's
  push loop; `sum_array` is the left fold that `iter().sum()` performs.
- `Parsing` (`parsing.dfy`): `safe_parse_int` over a model of
  `str::parse::<i32>`: an optional sign, then a digit loop with checked
  multiply and add/subtract.

Overflow: Rust's integer operators panic on overflow in debug builds and wrap
in release builds. The model takes neither side. Each arithmetic function and
`sum_array` asks its caller to stay in range. `divide` excludes
`i32::MIN / -1`, which panics in Rust in every build. In `create_array`, the
cast `i as i32` truncates, and `AsI32` models that cast for every `usize`.
The truncation is not reachable in the output, though: on wasm32
`Vec::with_capacity(size)` panics once `4 * size` exceeds `isize::MAX`, that is
for `size >= 2^29`, long before an index reaches 2^31.

## Model

| member | source | states |
|---|---|---|
| `Arithmetic.Add` | wasm/src/lib.rs:17-20 | `a + b`, defined for operands whose sum is in `i32` |
| `Arithmetic.Subtract` | wasm/src/lib.rs:22-26 | `a - b`, defined for operands whose difference is in `i32` |
| `Arithmetic.Multiply` | wasm/src/lib.rs:28-32 | `a * b`, defined for operands whose product is in `i32` |
| `Arithmetic.SubtractUndoesAdd` | wasm/src/lib.rs:17-26 | `subtract(add(a, b), b) == a` whenever the sum fits in `i32` |
| `Arithmetic.AddCommutes` | wasm/src/lib.rs:17-20 | `add(a, b) == add(b, a)` |
| `Arithmetic.TruncDiv` | wasm/src/lib.rs:40 | `a / b` leaves a remainder smaller than `b` in magnitude, zero or of the sign of `a` (rounding toward zero); for `|b| = 1` it is `a * b`, otherwise at most half of `|a|` |
| `Arithmetic.Divide` | wasm/src/lib.rs:35-44 | error `"Division by zero"` exactly when `b == 0`, otherwise `Ok` of the quotient rounded toward zero; `i32::MIN / -1` excluded as Rust panics |
| `Arithmetic.TruncatedQuotientUnique` | wasm/src/lib.rs:40 | the rounding-toward-zero characterisation determines the quotient uniquely |
| `Arithmetic.DivideUndoesMultiply` | wasm/src/lib.rs:28-44 | `divide(multiply(a, b), b) == Ok(a)` for every non-zero `b` with the product in range |
| `Arithmetic.UnitTestCases` | wasm/src/lib.rs:119-142 | the arithmetic unit-test cases, e.g. `divide(7, 3) == Ok(2)` and `divide(5, 0)` is an error |
| `Strings.Reverse` | wasm/src/lib.rs:48-52 | same length, and character `i` of the result is character `n-1-i` of the input |
| `Strings.ReverseInvolutive` | wasm/src/lib.rs:48-52 | reversing twice gives the input back |
| `Strings.ReverseAppend` | wasm/src/lib.rs:48-52 | `reverse(a + b) == reverse(b) + reverse(a)` |
| `Strings.ToUppercase` | wasm/src/lib.rs:55-59 | for ASCII input: same length, each lower-case letter replaced by its capital, every other character kept, no lower-case letter left |
| `Strings.ToUppercaseIdempotent` | wasm/src/lib.rs:55-59 | for ASCII input, upper-casing twice equals upper-casing once |
| `Strings.IsWhitespace` | wasm/src/lib.rs:63 | `char::is_whitespace`: the 25 code points with the Unicode White_Space property |
| `Strings.Words` | wasm/src/lib.rs:63 | `split_whitespace`: skips whitespace, takes the longest run of non-whitespace as a word, and repeats; its properties are the lemmas below |
| `Strings.WordsAreWords` | wasm/src/lib.rs:63 | `split_whitespace` yields only non-empty runs of non-whitespace characters |
| `Strings.WordsCoverText` | wasm/src/lib.rs:63 | the words, concatenated, are exactly the non-whitespace characters of the input in order |
| `Strings.WordsSeparated` | wasm/src/lib.rs:63 | the words of `x + [c] + y`, for a whitespace `c`, are the words of `x` followed by the words of `y` |
| `Strings.WordsCountIsWordStarts` | wasm/src/lib.rs:63 | `split_whitespace` yields as many words as there are positions holding a non-whitespace character that is first or follows whitespace |
| `Strings.CountWords` | wasm/src/lib.rs:62-66 | `count_words` equals the number of positions holding a non-whitespace character that is first or follows whitespace |
| `Strings.CountWordsSeparated` | wasm/src/lib.rs:62-66 | word counts add up across a whitespace character |
| `Strings.ExtraWhitespaceKeepsCount` | wasm/src/lib.rs:62-66 | doubling a whitespace character does not change the count |
| `Strings.CountWordsNoWhitespace` | wasm/src/lib.rs:62-66 | a string without whitespace has one word, none when empty |
| `Strings.Utf8Width` | wasm/src/lib.rs:70 | a character takes 1 to 4 UTF-8 bytes, exactly 1 when it is ASCII |
| `Strings.Utf8Len` | wasm/src/lib.rs:70 | the byte length lies between the character count and four times it, and equals the character count exactly for ASCII text |
| `Strings.ProcessString` | wasm/src/lib.rs:69-73 | the output is `"Processed: "`, the input verbatim, `" (length: "`, the decimal digits of the input's UTF-8 byte length without leading zeros, and `")"` |
| `Strings.ProcessedFormUnique` | wasm/src/lib.rs:69-73 | that description fixes the output: two strings that both fit it for the same input and length are equal |
| `Strings.ProcessStringAsciiCount` | wasm/src/lib.rs:70 | for ASCII input the reported length is the character count |
| `Strings.ProcessStringCountsBytes` | wasm/src/lib.rs:70 | the reported length is in bytes: the one-character string `"é"` is reported as 2 |
| `Strings.ReverseUnitTests` | wasm/src/lib.rs:145-148 | `"hello"` reverses to `"olleh"` and `""` to `""` |
| `Strings.ToUppercaseUnitTests` | wasm/src/lib.rs:151-154 | `"hello"` becomes `"HELLO"` and `"World"` becomes `"WORLD"` |
| `Strings.CountWordsUnitTestTwoWords` | wasm/src/lib.rs:158 | `"hello world"` has 2 words |
| `Strings.CountWordsUnitTestsEdges` | wasm/src/lib.rs:159-160 | `""` has 0 words and `"single"` has 1 |
| `Decimal.NatToDecimal` | wasm/src/lib.rs:70 | `Display` of a `usize` writes non-empty digits without leading zeros that denote the number |
| `Decimal.CanonicalDigitsUnique` | wasm/src/lib.rs:70 | two digit strings without leading zeros that denote the same number are equal, so `Display`'s output is determined by the number |
| `Arrays.AsI32` | wasm/src/lib.rs:81 | `i as i32` is the `i32` congruent to `i` modulo 2^32 |
| `Arrays.CreateArray` | wasm/src/lib.rs:77-85 | `size` elements, element `i` equal to `i as i32`, hence to `i` whenever `size <= 2^31` |
| `Arrays.SumFrom` | wasm/src/lib.rs:89 | the `i32` fold, started on the sum of a prefix, ends at the mathematical sum |
| `Arrays.SumArray` | wasm/src/lib.rs:88-92 | when no partial sum overflows, the result is the mathematical sum of the elements |
| `Arrays.CreatedArraySum` | wasm/src/lib.rs:77-92 | `sum_array(&create_array(n))` stays in range exactly when `n <= 65536`, and then is `n(n-1)/2` |
| `Arrays.UnitTestCases` | wasm/src/lib.rs:163-167 | `sum_array` of `[1, 2, 3, 4]` is 10 and of `[]` is 0 |
| `Parsing.Accumulate` | wasm/src/lib.rs:97 | the digit loop of `str::parse::<i32>`: multiply by 10 and add or subtract the digit, both checked, failing on a non-digit or on overflow |
| `Parsing.AccumulateCorrect` | wasm/src/lib.rs:97 | the checked digit loop yields the digits' value exactly when all are digits and the final value is in range |
| `Parsing.ParseI32` | wasm/src/lib.rs:97 | `str::parse::<i32>` succeeds exactly on an optional sign plus one or more digits whose value is in `i32`, and yields that value |
| `Parsing.SafeParseInt` | wasm/src/lib.rs:96-107 | `Ok(n)` exactly when the input is a decimal `i32` of value `n`; otherwise the error `"Cannot parse '<input>' as integer"` |
| `Parsing.DigitsParse` | wasm/src/lib.rs:96-107 | a non-empty digit string whose value fits in `i32` parses to that value |
| `Parsing.ParseFormatRoundTrip` | wasm/src/lib.rs:96-107 | parsing the `Display` text of any `i32` gives it back |
| `Parsing.ParseRangeLimits` | wasm/src/lib.rs:96-107 | digits parse exactly up to 2^31 - 1, and after a minus sign exactly up to 2^31 |
| `Parsing.ProcessStringLengthParses` | wasm/src/lib.rs:69-73 | the length field of `process_string`'s output parses back to the input's byte length |
| `Parsing.UnitTestsAccepted` | wasm/src/lib.rs:171-172 | `"123"` parses to 123 and `"-456"` to -456 |
| `Parsing.UnitTestsRejected` | wasm/src/lib.rs:173-174 | `"abc"` and `"12.34"` are rejected |
| `Parsing.SyntaxEdgeCases` | wasm/src/lib.rs:96-107 | a leading `+` and leading zeros are accepted (`"+7"`, `"007"` give 7); `""`, `"-"` and `" 1"` are rejected |

## Left out

- Logging: the `console.log` import, the `console_log!` macro and every call to it. It is a foreign call into the JavaScript console with no effect on any result.
- `main`, the `wasm_bindgen(start)` hook. It only logs.
- The `wasm_bindgen` glue that converts strings, vectors and `Result` values to JavaScript values.
- Strings.ToUppercase: modelled for ASCII input only. Rust's full Unicode case mapping (which can change the length, as `ß` becoming `SS` does) is not part of this model.
- Arithmetic.Add, Arithmetic.Subtract, Arithmetic.Multiply: overflow is excluded by a precondition. Neither the debug-build panic nor the release-build wrap-around is modelled.
- Arrays.SumArray: requires that no partial sum of the fold overflows. That is exactly when a debug build does not panic. The release-build wrap-around is not modelled.
- Arrays.CreateArray: allocation failure is not modelled. On wasm32, `Vec::with_capacity(size)` panics for `size >= 2^29`, where the `4 * size` requested bytes exceed `isize::MAX`, and aborts when memory runs out; the model instead returns an array for every `usize`, so its elements past 2^31 show the cast, not a reachable output.
- Parsing.ParseI32: every `ParseIntError` kind is one `None`. `safe_parse_int` reports them all with one message, so the kind is never observable.
- The gateway, session store, SQL validator, rate limiter, cache and database driver of the repository are not part of this model.
