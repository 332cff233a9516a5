/** The "String processing functions" of `wasm/src/lib.rs`:
    `reverse_string`, `to_uppercase`, `count_words` and `process_string`.

    A Rust `&str` is UTF-8 text whose `chars()` are Unicode scalar values;
    a Dafny `string` is a sequence of exactly those, so a string here is the
    sequence that `chars()` yields. */
module Strings {
  import opened Primitives
  import opened Decimal

  // ---------------------------------------------------------------------------
  // reverse_string

  /** `reverse_string`: `chars().rev().collect()`. */
  function Reverse(s: string): (r: string)
    ensures |r| == |s|
    ensures forall i :: 0 <= i < |s| ==> r[i] == s[|s| - 1 - i]
  {
    if |s| == 0 then [] else Reverse(s[1..]) + [s[0]]
  }

  /** Reversing twice gives the original string back. */
  lemma ReverseInvolutive(s: string)
    ensures Reverse(Reverse(s)) == s
  {
  }

  /** Reversal turns a concatenation around. */
  lemma ReverseAppend(a: string, b: string)
    ensures Reverse(a + b) == Reverse(b) + Reverse(a)
  {
  }

  // ---------------------------------------------------------------------------
  // to_uppercase (ASCII input only)

  predicate IsAsciiLower(c: char) {
    'a' <= c <= 'z'
  }

  /** The ASCII part of `char::to_uppercase`: `a`..`z` become `A`..`Z`,
      every other ASCII character is kept. */
  function UpperAscii(c: char): (u: char)
    requires c as int < 0x80
    ensures u as int < 0x80 && !IsAsciiLower(u)
    ensures IsAsciiLower(c) ==> u as int == c as int - ('a' as int - 'A' as int)
    ensures !IsAsciiLower(c) ==> u == c
  {
    if IsAsciiLower(c) then (c as int - 32) as char else c
  }

  /** `to_uppercase`, for ASCII input. */
  function ToUppercase(s: string): (r: string)
    requires IsAscii(s)
    ensures |r| == |s| && IsAscii(r)
    ensures forall i :: 0 <= i < |s| ==> r[i] == UpperAscii(s[i])
    ensures forall i :: 0 <= i < |r| ==> !IsAsciiLower(r[i])
  {
    if |s| == 0 then []
    else
      assert IsAscii(s[1..]) by {
        forall i | 0 <= i < |s[1..]| ensures s[1..][i] as int < 0x80 {
          assert s[1..][i] == s[i + 1];
        }
      }
      [UpperAscii(s[0])] + ToUppercase(s[1..])
  }

  /** Upper-casing is idempotent. */
  lemma ToUppercaseIdempotent(s: string)
    requires IsAscii(s)
    ensures ToUppercase(ToUppercase(s)) == ToUppercase(s)
  {
  }

  // ---------------------------------------------------------------------------
  // count_words

  /** `char::is_whitespace`: the characters with the Unicode White_Space
      property. */
  predicate IsWhitespace(c: char) {
    var x := c as int;
    || 0x09 <= x <= 0x0D
    || x == 0x20 || x == 0x85 || x == 0xA0 || x == 0x1680
    || 0x2000 <= x <= 0x200A
    || x == 0x2028 || x == 0x2029 || x == 0x202F || x == 0x205F || x == 0x3000
  }

  /** A word: a non-empty run of non-whitespace characters. */
  predicate IsWord(w: string) {
    |w| > 0 && forall i :: 0 <= i < |w| ==> !IsWhitespace(w[i])
  }

  /** Length of the run of non-whitespace characters that starts `s`. */
  function WordLength(s: string): (n: nat)
    ensures n <= |s|
    ensures forall i :: 0 <= i < n ==> !IsWhitespace(s[i])
    ensures n < |s| ==> IsWhitespace(s[n])
  {
    if |s| == 0 || IsWhitespace(s[0]) then 0 else 1 + WordLength(s[1..])
  }

  /** `split_whitespace()`: the words of `s`, in order. */
  function Words(s: string): seq<string>
    decreases |s|
  {
    if |s| == 0 then []
    else if IsWhitespace(s[0]) then Words(s[1..])
    else
      var n := WordLength(s);
      [s[..n]] + Words(s[n..])
  }

  /** `count_words`: `split_whitespace().count()`, which is the number of
      positions that start a word. */
  function CountWords(s: string): (r: nat)
    ensures r == WordStarts(s)
  {
    WordsCountIsWordStarts(s);
    |Words(s)|
  }

  /** Position `i` starts a word: it holds a non-whitespace character that is
      first in `s` or follows whitespace. */
  predicate StartsWord(s: string, i: nat)
    requires i < |s|
  {
    !IsWhitespace(s[i]) && (i == 0 || IsWhitespace(s[i - 1]))
  }

  /** The number of positions of `s` that start a word. */
  function WordStarts(s: string): nat {
    if |s| == 0 then 0
    else WordStarts(s[..|s| - 1]) + (if StartsWord(s, |s| - 1) then 1 else 0)
  }

  /** Reading on past the end of a word does not change where it ends; a
      string that is all one word continues into what follows. */
  lemma {:induction false} WordLengthAppend(s: string, t: string)
    ensures WordLength(s + t) ==
            if WordLength(s) < |s| then WordLength(s) else |s| + WordLength(t)
  {
    if |s| > 0 && !IsWhitespace(s[0]) {
      assert (s + t)[1..] == s[1..] + t;
      WordLengthAppend(s[1..], t);
    } else if |s| == 0 {
      assert s + t == t;
    }
  }

  /** One more character adds a word exactly when it starts one. */
  lemma {:induction false} WordsSnoc(s: string, c: char)
    ensures |Words(s + [c])| == |Words(s)| + (if StartsWord(s + [c], |s|) then 1 else 0)
    decreases |s|
  {
    var t := s + [c];
    if |s| == 0 {
      assert t == [c] && t[1..] == [];
      if !IsWhitespace(c) {
        assert WordLength(t[1..]) == 0;
      }
    } else if IsWhitespace(s[0]) {
      assert t[1..] == s[1..] + [c];
      WordsSnoc(s[1..], c);
    } else if WordLength(s) < |s| {
      var n := WordLength(s);
      WordLengthAppend(s, [c]);
      assert t[..n] == s[..n] && t[n..] == s[n..] + [c];
      WordsUnfold(s);
      WordsUnfold(t);
      WordsSnoc(s[n..], c);
    } else {
      WordsSnocWholeWord(s, c);
    }
  }

  /** `WordsSnoc` for a string that is one word: a further character either
      ends it (whitespace) or extends it. */
  lemma WordsSnocWholeWord(s: string, c: char)
    requires |s| > 0 && !IsWhitespace(s[0]) && WordLength(s) == |s|
    ensures |Words(s + [c])| == |Words(s)| + (if StartsWord(s + [c], |s|) then 1 else 0)
  {
    var t := s + [c];
    WordLengthAppend(s, [c]);
    WordsUnfold(s);
    WordsUnfold(t);
    assert s[|s|..] == [];
    if IsWhitespace(c) {
      assert t[|s|..] == [c] && [c][1..] == [];
    } else {
      assert WordLength([c]) == 1 by { assert [c][1..] == []; }
      assert t[|s| + 1..] == [];
    }
  }

  /** `split_whitespace` yields one word per position that starts a word. */
  lemma {:induction false} WordsCountIsWordStarts(s: string)
    ensures |Words(s)| == WordStarts(s)
    decreases |s|
  {
    if |s| > 0 {
      var p := s[..|s| - 1];
      WordsCountIsWordStarts(p);
      assert p + [s[|s| - 1]] == s;
      WordsSnoc(p, s[|s| - 1]);
    }
  }

  /** `Words` on a string that starts with a word: that word, then the rest. */
  lemma WordsUnfold(s: string)
    requires |s| > 0 && !IsWhitespace(s[0])
    ensures Words(s) == [s[..WordLength(s)]] + Words(s[WordLength(s)..])
  {
  }

  /** `split_whitespace` yields words only: non-empty, without whitespace. */
  lemma {:induction false} WordsAreWords(s: string)
    ensures forall k :: 0 <= k < |Words(s)| ==> IsWord(Words(s)[k])
    decreases |s|
  {
    if |s| > 0 {
      if IsWhitespace(s[0]) {
        WordsAreWords(s[1..]);
      } else {
        var n := WordLength(s);
        WordsUnfold(s);
        WordsAreWords(s[n..]);
        assert IsWord(s[..n]);
      }
    }
  }

  /** A word ends no later than the whitespace that follows it. */
  lemma WordLengthBeforeSeparator(x: string, c: char, y: string)
    requires IsWhitespace(c)
    ensures WordLength(x + [c] + y) == WordLength(x)
  {
    assert x + [c] + y == x + ([c] + y);
    WordLengthAppend(x, [c] + y);
    assert WordLength([c] + y) == 0;
  }

  /** Whitespace separates: the words on either side of a whitespace
      character are the words of each side. */
  lemma {:induction false} WordsSeparated(x: string, c: char, y: string)
    requires IsWhitespace(c)
    ensures Words(x + [c] + y) == Words(x) + Words(y)
    decreases |x|
  {
    var t := x + [c] + y;
    if |x| == 0 {
      assert t == [c] + y && t[1..] == y;
    } else if IsWhitespace(x[0]) {
      assert t[1..] == x[1..] + [c] + y;
      WordsSeparated(x[1..], c, y);
    } else {
      var n := WordLength(x);
      WordLengthBeforeSeparator(x, c, y);
      assert t[..n] == x[..n];
      assert t[n..] == x[n..] + [c] + y;
      WordsSeparated(x[n..], c, y);
      WordsUnfold(t);
      WordsUnfold(x);
    }
  }

  /** The non-whitespace characters of `s`, in order. */
  function NonWhitespace(s: string): string {
    if |s| == 0 then []
    else (if IsWhitespace(s[0]) then [] else [s[0]]) + NonWhitespace(s[1..])
  }

  function Concat(ws: seq<string>): string {
    if |ws| == 0 then [] else ws[0] + Concat(ws[1..])
  }

  lemma {:induction false} NonWhitespaceAppend(a: string, b: string)
    ensures NonWhitespace(a + b) == NonWhitespace(a) + NonWhitespace(b)
  {
    if |a| == 0 {
      assert a + b == b;
    } else {
      assert (a + b)[1..] == a[1..] + b;
      NonWhitespaceAppend(a[1..], b);
    }
  }

  lemma {:induction false} NonWhitespaceOfWord(w: string)
    requires forall i :: 0 <= i < |w| ==> !IsWhitespace(w[i])
    ensures NonWhitespace(w) == w
  {
    if |w| > 0 {
      NonWhitespaceOfWord(w[1..]);
    }
  }

  /** Nothing but whitespace is lost: the words, put back together, are
      the non-whitespace characters of `s`. */
  lemma {:induction false} WordsCoverText(s: string)
    ensures Concat(Words(s)) == NonWhitespace(s)
    decreases |s|
  {
    if |s| > 0 {
      if IsWhitespace(s[0]) {
        WordsCoverText(s[1..]);
      } else {
        var n := WordLength(s);
        WordsUnfold(s);
        var ws := Words(s);
        assert ws[0] == s[..n] && ws[1..] == Words(s[n..]);
        WordsCoverText(s[n..]);
        assert s == s[..n] + s[n..];
        NonWhitespaceAppend(s[..n], s[n..]);
        NonWhitespaceOfWord(s[..n]);
      }
    }
  }

  /** Word counts add up across a whitespace separator. */
  lemma CountWordsSeparated(x: string, c: char, y: string)
    requires IsWhitespace(c)
    ensures CountWords(x + [c] + y) == CountWords(x) + CountWords(y)
  {
    WordsSeparated(x, c, y);
  }

  /** Extra whitespace between words does not change the count. */
  lemma ExtraWhitespaceKeepsCount(x: string, c: char, d: char, y: string)
    requires IsWhitespace(c) && IsWhitespace(d)
    ensures CountWords(x + [c, d] + y) == CountWords(x + [c] + y)
  {
    assert x + [c, d] + y == x + [c] + ([d] + y);
    WordsSeparated(x, c, [d] + y);
    WordsSeparated([], d, y);
    assert [] + [d] + y == [d] + y;
    WordsSeparated(x, c, y);
  }

  /** A string without whitespace is one word, or none when empty. */
  lemma CountWordsNoWhitespace(w: string)
    requires forall i :: 0 <= i < |w| ==> !IsWhitespace(w[i])
    ensures CountWords(w) == if |w| == 0 then 0 else 1
  {
    if |w| > 0 {
      WordLengthAppend(w, []);
      assert w + [] == w;
      assert WordLength(w) == |w|;
      WordsUnfold(w);
      assert w[|w|..] == [];
    }
  }

  // ---------------------------------------------------------------------------
  // process_string

  /** Bytes that UTF-8 uses for one character (section 3 of RFC 3629). */
  function Utf8Width(c: char): (w: nat)
    ensures 1 <= w <= 4
    ensures w == 1 <==> c as int < 0x80
  {
    var x := c as int;
    if x < 0x80 then 1 else if x < 0x800 then 2 else if x < 0x1_0000 then 3 else 4
  }

  /** `str::len`: the length of the UTF-8 encoding in bytes. */
  function Utf8Len(s: string): (n: nat)
    ensures |s| <= n <= 4 * |s|
    ensures n == |s| <==> IsAscii(s)
  {
    if |s| == 0 then 0
    else
      assert IsAscii(s) <==> s[0] as int < 0x80 && IsAscii(s[1..]) by {
        if s[0] as int < 0x80 && IsAscii(s[1..]) {
          forall i | 0 <= i < |s| ensures s[i] as int < 0x80 {
            if i > 0 { assert s[i] == s[1..][i - 1]; }
          }
        }
      }
      Utf8Width(s[0]) + Utf8Len(s[1..])
  }

  const PROCESSED: string := "Processed: "
  const LENGTH_LABEL: string := " (length: "

  /** `r` reads "Processed: ", then `s` verbatim, then " (length: ", then
      the decimal digits of `n` without leading zeros, then ")". */
  predicate IsProcessed(s: string, n: nat, r: string) {
    var k := |PROCESSED| + |s| + |LENGTH_LABEL|;
    && k < |r| - 1
    && r[..|PROCESSED|] == PROCESSED
    && r[|PROCESSED|..|PROCESSED| + |s|] == s
    && r[|PROCESSED| + |s|..k] == LENGTH_LABEL
    && r[|r| - 1] == ')'
    && IsCanonicalDigits(r[k..|r| - 1])
    && DigitsValue(r[k..|r| - 1]) == n
  }

  /** `process_string`: `format!("Processed: {} (length: {})", input, input.len())`.
      The output holds the input verbatim, then the decimal digits of its
      UTF-8 byte length. */
  function ProcessString(s: string): (r: string)
    ensures IsProcessed(s, Utf8Len(s), r)
  {
    var digits := NatToDecimal(Utf8Len(s));
    var r := PROCESSED + s + LENGTH_LABEL + digits + ")";
    var k := |PROCESSED| + |s| + |LENGTH_LABEL|;
    assert r[k..|r| - 1] == digits;
    assert r[|PROCESSED|..|PROCESSED| + |s|] == s;
    r
  }

  /** The shape `IsProcessed` fixes the whole string: two strings that both
      report `s` with length `n` are the same string. */
  lemma ProcessedFormUnique(s: string, n: nat, r1: string, r2: string)
    requires IsProcessed(s, n, r1) && IsProcessed(s, n, r2)
    ensures r1 == r2
  {
    var k := |PROCESSED| + |s| + |LENGTH_LABEL|;
    CanonicalDigitsUnique(r1[k..|r1| - 1], r2[k..|r2| - 1]);
    assert r1[..k] == PROCESSED + s + LENGTH_LABEL by {
      assert r1[..k] == r1[..|PROCESSED|] + r1[|PROCESSED|..|PROCESSED| + |s|] + r1[|PROCESSED| + |s|..k];
    }
    assert r2[..k] == PROCESSED + s + LENGTH_LABEL by {
      assert r2[..k] == r2[..|PROCESSED|] + r2[|PROCESSED|..|PROCESSED| + |s|] + r2[|PROCESSED| + |s|..k];
    }
    assert r1 == r1[..k] + r1[k..|r1| - 1] + [r1[|r1| - 1]];
    assert r2 == r2[..k] + r2[k..|r2| - 1] + [r2[|r2| - 1]];
  }

  /** For ASCII input the length written is the character count ... */
  lemma ProcessStringAsciiCount(s: string)
    requires IsAscii(s)
    ensures var r := ProcessString(s);
            var k := |PROCESSED| + |s| + |LENGTH_LABEL|;
            DigitsValue(r[k..|r| - 1]) == |s|
  {
  }

  /** ... but it is the byte length, not the character count: the one
      character U+00E9 is reported as two bytes. */
  lemma ProcessStringCountsBytes()
    ensures var s := "é";
            var r := ProcessString(s);
            var k := |PROCESSED| + |s| + |LENGTH_LABEL|;
            |s| == 1 && DigitsValue(r[k..|r| - 1]) == 2
  {
  }

  // ---------------------------------------------------------------------------

  /** The unit-test cases of `reverse_string`. */
  lemma ReverseUnitTests()
    ensures Reverse("hello") == "olleh" && Reverse("") == ""
  {
  }

  /** The unit-test cases of `to_uppercase`. */
  lemma ToUppercaseUnitTests()
    ensures ToUppercase("hello") == "HELLO" && ToUppercase("World") == "WORLD"
  {
  }

  /** The unit-test cases of `count_words`: two words, ... */
  lemma CountWordsUnitTestTwoWords()
    ensures CountWords("hello world") == 2
  {
    var s := "hello world";
    var hello, world := "hello", "world";
    assert forall i :: 0 <= i < |hello| ==> 'a' <= hello[i] <= 'z';
    assert forall i :: 0 <= i < |world| ==> 'a' <= world[i] <= 'z';
    CountWordsNoWhitespace(hello);
    CountWordsNoWhitespace(world);
    CountWordsSeparated(hello, ' ', world);
    assert hello + [' '] + world == s;
  }

  /** ... no word, and one word. */
  lemma CountWordsUnitTestsEdges()
    ensures CountWords("") == 0 && CountWords("single") == 1
  {
    CountWordsNoWhitespace("single");
  }
}
