/**
 * The string operations of Rust's standard library that the command handlers
 * rely on: `char::is_whitespace`, `str::trim`, `str::split_whitespace`,
 * `usize::from_str`, `to_lowercase` on the interval words, and the ordering of
 * `String`.
 */
module Text {
  import opened Wrappers

  /** Unicode White_Space, which `char::is_whitespace` tests. */
  predicate IsWhitespace(c: char)
  {
    ('\U{0009}' <= c <= '\U{000D}') || c == ' ' || c == '\U{0085}' || c == '\U{00A0}'
    || c == '\U{1680}' || ('\U{2000}' <= c <= '\U{200A}') || c == '\U{2028}' || c == '\U{2029}'
    || c == '\U{202F}' || c == '\U{205F}' || c == '\U{3000}'
  }

  predicate AllWhitespace(s: string)
  {
    forall k :: 0 <= k < |s| ==> IsWhitespace(s[k])
  }

  predicate NoWhitespace(s: string)
  {
    forall k :: 0 <= k < |s| ==> !IsWhitespace(s[k])
  }

  /** The first index at or after `i` that is not whitespace, or `|s|`. */
  function LeadFrom(s: string, i: nat): (r: nat)
    requires i <= |s|
    ensures i <= r <= |s|
    ensures forall k :: i <= k < r ==> IsWhitespace(s[k])
    ensures r < |s| ==> !IsWhitespace(s[r])
    decreases |s| - i
  {
    if i < |s| && IsWhitespace(s[i]) then LeadFrom(s, i + 1) else i
  }

  /** Where the whitespace run that ends at `j` begins, looking no further left than `lo`. */
  function TrailTo(s: string, lo: nat, j: nat): (r: nat)
    requires lo <= j <= |s|
    ensures lo <= r <= j
    ensures forall k :: r <= k < j ==> IsWhitespace(s[k])
    ensures r > lo ==> !IsWhitespace(s[r - 1])
    decreases j
  {
    if j > lo && IsWhitespace(s[j - 1]) then TrailTo(s, lo, j - 1) else j
  }

  /** `str::trim`: the text between the leading and the trailing whitespace. */
  function Trim(s: string): string
  {
    var i := LeadFrom(s, 0);
    s[i..TrailTo(s, i, |s|)]
  }

  /** The trimmed text neither starts nor ends with whitespace. */
  lemma TrimEnds(s: string)
    ensures Trim(s) == [] || (!IsWhitespace(Trim(s)[0]) && !IsWhitespace(Trim(s)[|Trim(s)| - 1]))
  {
  }

  /** A trimmed string is empty exactly when the input is all whitespace. */
  lemma TrimEmptyIff(s: string)
    ensures Trim(s) == [] <==> AllWhitespace(s)
  {
    var i := LeadFrom(s, 0);
    var j := TrailTo(s, i, |s|);
    if Trim(s) == [] {
      assert i == j;
    }
  }

  /** Trimming twice changes nothing more. */
  lemma TrimIdempotent(s: string)
    ensures Trim(Trim(s)) == Trim(s)
  {
    TrimEnds(s);
    TrimUnchanged(Trim(s));
  }

  /** A string that neither starts nor ends with whitespace is its own trim. */
  lemma TrimUnchanged(s: string)
    requires s != [] ==> !IsWhitespace(s[0]) && !IsWhitespace(s[|s| - 1])
    ensures Trim(s) == s
  {
    assert LeadFrom(s, 0) == 0;
    assert TrailTo(s, 0, |s|) == |s|;
  }

  /** Length of the token at the front of `s`: the characters before the first whitespace. */
  function TokenLength(s: string): (n: nat)
    ensures n <= |s| && NoWhitespace(s[..n])
    ensures n == |s| || IsWhitespace(s[n])
  {
    if s == [] || IsWhitespace(s[0]) then 0 else 1 + TokenLength(s[1..])
  }

  /** `str::split_whitespace`: the maximal runs of non-whitespace characters, in order. */
  function SplitWhitespace(s: string): seq<string>
    decreases |s|
  {
    if s == [] then []
    else if IsWhitespace(s[0]) then SplitWhitespace(s[1..])
    else
      var n := TokenLength(s);
      [s[..n]] + SplitWhitespace(s[n..])
  }

  /** Every token is non-empty and free of whitespace. */
  lemma {:induction false} SplitTokens(s: string)
    ensures forall k :: 0 <= k < |SplitWhitespace(s)| ==>
      SplitWhitespace(s)[k] != [] && NoWhitespace(SplitWhitespace(s)[k])
    decreases |s|
  {
    if s == [] {
    } else if IsWhitespace(s[0]) {
      SplitTokens(s[1..]);
    } else {
      var n := TokenLength(s);
      SplitTokens(s[n..]);
    }
  }

  /** A line yields no tokens exactly when it is blank. */
  lemma {:induction false} SplitEmptyIff(s: string)
    ensures SplitWhitespace(s) == [] <==> AllWhitespace(s)
    decreases |s|
  {
    if s != [] {
      SplitEmptyIff(s[1..]);
      if IsWhitespace(s[0]) {
        assert AllWhitespace(s) <==> AllWhitespace(s[1..]) by {
          if AllWhitespace(s[1..]) {
            forall k | 0 <= k < |s| ensures IsWhitespace(s[k]) {
              if k > 0 { assert s[k] == s[1..][k - 1]; }
            }
          }
        }
      }
    }
  }

  /** A word with no whitespace is split into itself. */
  lemma SplitWord(w: string)
    requires w != [] && NoWhitespace(w)
    ensures SplitWhitespace(w) == [w]
  {
    assert TokenLength(w) == |w|;
    assert w[..|w|] == w && w[|w|..] == [];
  }

  /** The front token of `w + rest` is `w` when `rest` starts with whitespace. */
  lemma {:induction false} TokenOfWord(w: string, rest: string)
    requires NoWhitespace(w) && (rest == [] || IsWhitespace(rest[0]))
    ensures TokenLength(w + rest) == |w|
    decreases |w|
  {
    if w != [] {
      assert (w + rest)[1..] == w[1..] + rest;
      TokenOfWord(w[1..], rest);
    }
  }

  /** Two words separated by a space split into exactly those two words. */
  lemma SplitTwoWords(a: string, b: string)
    requires a != [] && NoWhitespace(a) && b != [] && NoWhitespace(b)
    ensures SplitWhitespace(a + " " + b) == [a, b]
  {
    var s := a + " " + b;
    TokenOfWord(a, " " + b);
    assert s == a + (" " + b);
    assert s[..|a|] == a;
    assert s[|a|..] == " " + b;
    assert (" " + b)[1..] == b;
    SplitWord(b);
  }

  predicate IsDigit(c: char) { '0' <= c <= '9' }

  predicate AllDigits(s: string) { forall k :: 0 <= k < |s| ==> IsDigit(s[k]) }

  function DigitValue(c: char): nat
    requires IsDigit(c)
  {
    c as int - '0' as int
  }

  function DigitChar(d: nat): (c: char)
    requires d < 10
    ensures IsDigit(c) && DigitValue(c) == d
  {
    ('0' as int + d) as char
  }

  /** The number a non-empty run of decimal digits denotes, most significant first. */
  function DigitsValue(s: string): nat
    requires AllDigits(s)
  {
    if s == [] then 0 else 10 * DigitsValue(s[..|s| - 1]) + DigitValue(s[|s| - 1])
  }

  /** The largest `usize` on a 64-bit target. */
  const UsizeMax: nat := 0xFFFF_FFFF_FFFF_FFFF

  /**
   * `str::parse::<usize>()`: an optional `+`, then one or more ASCII digits whose
   * value fits in 64 bits. `-`, a lone sign, other characters and overflow are errors.
   */
  function ParseUsize(s: string): Option<nat>
  {
    if s == [] || s == "+" then None
    else
      var digits := if s[0] == '+' then s[1..] else s;
      if AllDigits(digits) then
        var v := DigitsValue(digits);
        if v <= UsizeMax then Some(v) else None
      else None
  }

  /** The canonical decimal spelling of `n`, as `Display` for integers prints it. */
  function Decimal(n: nat): (s: string)
    ensures s != [] && AllDigits(s)
  {
    if n < 10 then [DigitChar(n)] else Decimal(n / 10) + [DigitChar(n % 10)]
  }

  /** Reading back the decimal spelling gives the number. */
  lemma {:induction false} DecimalValue(n: nat)
    ensures DigitsValue(Decimal(n)) == n
  {
    if n >= 10 {
      DecimalValue(n / 10);
      var s := Decimal(n);
      assert s[..|s| - 1] == Decimal(n / 10);
    }
  }

  /** Round trip: every `usize` parses back from its decimal spelling, with or without `+`. */
  lemma ParseDecimal(n: nat)
    requires n <= UsizeMax
    ensures ParseUsize(Decimal(n)) == Some(n)
    ensures ParseUsize("+" + Decimal(n)) == Some(n)
  {
    DecimalValue(n);
    assert ("+" + Decimal(n))[1..] == Decimal(n);
  }

  /** Whatever parses is an optional `+` followed by digits only. */
  lemma ParsedIsDigits(s: string)
    requires ParseUsize(s).Some?
    ensures s != [] && (s[0] == '+' || IsDigit(s[0]))
    ensures forall k :: 1 <= k < |s| ==> IsDigit(s[k])
  {
    var digits := if s[0] == '+' then s[1..] else s;
    assert AllDigits(digits);
    if s[0] == '+' {
      forall k | 1 <= k < |s| ensures IsDigit(s[k]) {
        assert s[k] == digits[k - 1];
      }
    } else {
      assert digits == s;
    }
  }

  /** A number past the 64-bit range does not parse. */
  lemma OverflowRejected(n: nat)
    requires n > UsizeMax
    ensures ParseUsize(Decimal(n)) == None
  {
    DecimalValue(n);
  }

  /**
   * Lower-casing of a character as far as it decides equality with the ASCII
   * words `hourly` and `weekly`: ASCII capitals and the Kelvin sign, which
   * lower-cases to `k`, are the only characters whose lower case is one of
   * their letters; every other character is left as it is.
   */
  function LowerChar(c: char): char
  {
    if 'A' <= c <= 'Z' then (c as int + 32) as char
    else if c == '\U{212A}' then 'k'
    else c
  }

  function Lower(s: string): (r: string)
    ensures |r| == |s| && forall k :: 0 <= k < |s| ==> r[k] == LowerChar(s[k])
  {
    if s == [] then [] else [LowerChar(s[0])] + Lower(s[1..])
  }

  /** Each letter of an ASCII lower-case word, in either case, lower-cases to that word. */
  lemma LowerAnyCase(text: string, word: string)
    requires |text| == |word|
    requires forall i :: 0 <= i < |word| ==> 'a' <= word[i] <= 'z'
    requires forall i :: 0 <= i < |word| ==> text[i] == word[i] || text[i] as int == word[i] as int - 32
    ensures Lower(text) == word
  {
    forall i | 0 <= i < |word|
      ensures Lower(text)[i] == word[i]
    {
      assert Lower(text)[i] == LowerChar(text[i]);
    }
  }

  /** Byte-wise order of `String`, which for UTF-8 is the order of code points. */
  predicate Less(a: string, b: string)
  {
    if a == [] then b != []
    else if b == [] then false
    else if a[0] != b[0] then a[0] < b[0]
    else Less(a[1..], b[1..])
  }

  lemma {:induction false} LessIrreflexive(a: string)
    ensures !Less(a, a)
  {
    if a != [] { LessIrreflexive(a[1..]); }
  }

  lemma {:induction false} LessAsymmetric(a: string, b: string)
    requires Less(a, b)
    ensures !Less(b, a)
  {
    if a != [] && b != [] && a[0] == b[0] { LessAsymmetric(a[1..], b[1..]); }
  }

  lemma {:induction false} LessTransitive(a: string, b: string, c: string)
    requires Less(a, b) && Less(b, c)
    ensures Less(a, c)
  {
    if a != [] && a[0] == b[0] && b[0] == c[0] {
      LessTransitive(a[1..], b[1..], c[1..]);
    }
  }

  lemma {:induction false} LessTotal(a: string, b: string)
    requires a != b
    ensures Less(a, b) || Less(b, a)
  {
    if a != [] && b != [] && a[0] == b[0] {
      assert a[1..] != b[1..] by { assert a == [a[0]] + a[1..] && b == [b[0]] + b[1..]; }
      LessTotal(a[1..], b[1..]);
    }
  }
}
