/**
  * String helpers shared by the PHP controller and the Rust service:
  * ASCII case folding (PHP's `stripos`, Rust's `to_lowercase` on the source
  * names), substring search, decimal rendering of integers, splitting on a
  * separator, trimming, and the last path segment of a URL.
  */
module Text {

  // ---------------------------------------------------------------- case

  predicate IsAsciiUpper(c: char) {
    'A' <= c <= 'Z'
  }

  function AsciiLowerChar(c: char): char {
    if IsAsciiUpper(c) then (c as int + 32) as char else c
  }

  /** Maps A-Z to a-z and leaves every other character as it is. */
  function AsciiLower(s: string): (r: string)
    ensures |r| == |s|
    ensures forall i | 0 <= i < |s| ::
      if IsAsciiUpper(s[i]) then r[i] as int == s[i] as int + 32 else r[i] == s[i]
    ensures forall c | c in r :: !IsAsciiUpper(c)
  {
    seq(|s|, i requires 0 <= i < |s| => AsciiLowerChar(s[i]))
  }

  lemma AsciiLowerIdempotent(s: string)
    ensures AsciiLower(AsciiLower(s)) == AsciiLower(s)
  {
  }

  // ----------------------------------------------------------- searching

  /** `needle` occurs in `haystack` starting at index `i`. */
  predicate OccursAt(haystack: string, needle: string, i: int) {
    0 <= i && i + |needle| <= |haystack| && haystack[i..i + |needle|] == needle
  }

  /** `needle` occurs in `haystack` at some position. */
  predicate Contains(haystack: string, needle: string) {
    exists i | 0 <= i <= |haystack| :: OccursAt(haystack, needle, i)
  }

  /** PHP's `stripos($haystack, $needle) !== false` with ASCII case folding. */
  predicate ContainsIgnoringCase(haystack: string, needle: string) {
    Contains(AsciiLower(haystack), AsciiLower(needle))
  }

  // ------------------------------------------------------------ decimals

  predicate IsDigit(c: char) {
    '0' <= c <= '9'
  }

  predicate AllDigits(s: string) {
    forall c | c in s :: IsDigit(c)
  }

  function DigitChar(d: nat): (c: char)
    requires d < 10
    ensures IsDigit(c) && c as int - '0' as int == d
  {
    ('0' as int + d) as char
  }

  /** The decimal digits of `n`, without leading zeros. */
  function NatToDecimal(n: nat): (s: string)
    ensures |s| >= 1 && AllDigits(s)
    ensures s[0] == '0' ==> n == 0 && |s| == 1
  {
    if n < 10 then [DigitChar(n)] else NatToDecimal(n / 10) + [DigitChar(n % 10)]
  }

  /** The text of an integer: PHP's `(string)$n`, serde_json's `Number::to_string`. */
  function IntToDecimal(n: int): string {
    if n < 0 then "-" + NatToDecimal(-n) else NatToDecimal(n)
  }

  /** The value of a string of decimal digits. */
  function DigitsValue(s: string): nat
    requires AllDigits(s)
  {
    if s == [] then 0
    else
      assert s[|s| - 1] in s;
      10 * DigitsValue(s[..|s| - 1]) + (s[|s| - 1] as int - '0' as int)
  }

  /**
    * A decimal integer written the one way PHP accepts as an integer array key:
    * "0", or an optional '-' followed by digits that do not start with '0'.
    */
  predicate IsCanonicalInt(s: string) {
    s == "0" || (var ds := Magnitude(s); ds != [] && AllDigits(ds) && ds[0] != '0')
  }

  /** `s` without its leading minus sign, if it has one. */
  function Magnitude(s: string): string {
    if s != [] && s[0] == '-' then s[1..] else s
  }

  function CanonicalIntValue(s: string): int
    requires IsCanonicalInt(s)
  {
    if s != [] && s[0] == '-' then -(DigitsValue(s[1..]) as int) else DigitsValue(s)
  }

  lemma {:induction false} NatToDecimalValue(n: nat)
    ensures DigitsValue(NatToDecimal(n)) == n
  {
    if n >= 10 {
      NatToDecimalValue(n / 10);
      var s := NatToDecimal(n);
      assert s[..|s| - 1] == NatToDecimal(n / 10);
    }
  }

  /** Rendering an integer and reading it back as an array key gives the integer. */
  lemma IntToDecimalRoundTrip(n: int)
    ensures IsCanonicalInt(IntToDecimal(n))
    ensures CanonicalIntValue(IntToDecimal(n)) == n
  {
    var m: nat := if n < 0 then -n else n;
    NatToDecimalValue(m);
    var d := NatToDecimal(m);
    if n < 0 {
      assert IntToDecimal(n)[1..] == d;
    } else if n == 0 {
      assert d == "0";
    } else {
      assert d[0] in d;
    }
  }

  // ------------------------------------------------------------ splitting

  /** Rust's `str::split` on one separator character: always at least one piece. */
  function Split(s: string, sep: char): (parts: seq<string>)
    ensures |parts| >= 1
    ensures forall p | p in parts :: sep !in p
  {
    if s == [] then [""]
    else
      var rest := Split(s[1..], sep);
      if s[0] == sep then [""] + rest else [[s[0]] + rest[0]] + rest[1..]
  }

  /** The pieces put back together with the separator between them. */
  function Join(parts: seq<string>, sep: char): string
    requires |parts| >= 1
  {
    if |parts| == 1 then parts[0] else parts[0] + [sep] + Join(parts[1..], sep)
  }

  lemma {:induction false} SplitJoin(s: string, sep: char)
    ensures Join(Split(s, sep), sep) == s
  {
    if s != [] {
      SplitJoin(s[1..], sep);
      var rest := Split(s[1..], sep);
      if s[0] == sep {
        assert ([""] + rest)[1..] == rest;
      } else {
        var parts := [[s[0]] + rest[0]] + rest[1..];
        if |rest| == 1 {
          assert parts == [[s[0]] + rest[0]];
        } else {
          assert parts[1..] == rest[1..];
          assert s == [s[0]] + s[1..];
        }
      }
    }
  }

  /** A string without the separator is a single piece. */
  lemma {:induction false} SplitNone(w: string, sep: char)
    requires sep !in w
    ensures Split(w, sep) == [w]
  {
    if w != [] {
      SplitNone(w[1..], sep);
      assert [w[0]] + w[1..] == w;
    }
  }

  /** A separator-free word followed by the separator is the first piece. */
  lemma {:induction false} SplitWord(w: string, sep: char, rest: string)
    requires sep !in w
    ensures Split(w + [sep] + rest, sep) == [w] + Split(rest, sep)
  {
    var s := w + [sep] + rest;
    if w == [] {
      assert s[1..] == rest;
    } else {
      assert s[1..] == w[1..] + [sep] + rest;
      SplitWord(w[1..], sep, rest);
      assert [w[0]] + w[1..] == w;
    }
  }

  /** Pieces without the separator survive joining and splitting again. */
  lemma {:induction false} JoinSplit(parts: seq<string>, sep: char)
    requires |parts| >= 1 && forall i | 0 <= i < |parts| :: sep !in parts[i]
    ensures Split(Join(parts, sep), sep) == parts
  {
    if |parts| == 1 {
      SplitNone(parts[0], sep);
    } else {
      JoinSplit(parts[1..], sep);
      SplitWord(parts[0], sep, Join(parts[1..], sep));
      assert [parts[0]] + parts[1..] == parts;
    }
  }

  // -------------------------------------------------------------- trimming

  /** How many leading characters of `s` satisfy `strip`. */
  function LeadingCount(s: string, strip: char -> bool): (n: nat)
    ensures n <= |s|
    ensures forall k | 0 <= k < n :: strip(s[k])
    ensures n == |s| || !strip(s[n])
  {
    if s == [] || !strip(s[0]) then 0
    else
      var n := LeadingCount(s[1..], strip);
      assert forall k | 1 <= k < 1 + n :: s[k] == s[1..][k - 1];
      1 + n
  }

  /** Where the run of trailing characters of `s` that satisfy `strip` begins. */
  function TrailingEnd(s: string, strip: char -> bool): (n: nat)
    ensures n <= |s|
    ensures forall k | n <= k < |s| :: strip(s[k])
    ensures n == 0 || !strip(s[n - 1])
  {
    if s == [] || !strip(s[|s| - 1]) then |s| else TrailingEnd(s[..|s| - 1], strip)
  }

  /** Rust's `char::is_whitespace`: the Unicode White_Space property. */
  predicate IsWhitespace(c: char) {
    || '\U{9}' <= c <= '\U{D}' || c == ' ' || c == '\U{85}' || c == '\U{A0}' || c == '\U{1680}'
    || '\U{2000}' <= c <= '\U{200A}' || c == '\U{2028}' || c == '\U{2029}'
    || c == '\U{202F}' || c == '\U{205F}' || c == '\U{3000}'
  }

  /** A string without capital letters is its own lower case. */
  lemma AsciiLowerUntouched(s: string)
    requires forall i | 0 <= i < |s| :: !IsAsciiUpper(s[i])
    ensures AsciiLower(s) == s
  {
  }

  /** Lower-casing never puts whitespace at either end of a string. */
  lemma AsciiLowerEnds(s: string)
    requires s == [] || (!IsWhitespace(s[0]) && !IsWhitespace(s[|s| - 1]))
    ensures var r := AsciiLower(s); r == [] || (!IsWhitespace(r[0]) && !IsWhitespace(r[|r| - 1]))
  {
    if s != [] {
      var r := AsciiLower(s);
      assert r[0] == AsciiLowerChar(s[0]);
      assert r[|r| - 1] == AsciiLowerChar(s[|s| - 1]);
    }
  }

  /** The number of leading whitespace characters of `s`. */
  function TrimStart(s: string): nat {
    LeadingCount(s, IsWhitespace)
  }

  /**
    * Rust's `str::trim`: the slice of `s` that starts after its leading
    * whitespace and stops before its trailing whitespace.
    */
  function Trim(s: string): (r: string)
    ensures var i := TrimStart(s);
      && i + |r| <= |s| && r == s[i..i + |r|]
      && (forall k | 0 <= k < i :: IsWhitespace(s[k]))
      && (forall k | i + |r| <= k < |s| :: IsWhitespace(s[k]))
    ensures r == [] || (!IsWhitespace(r[0]) && !IsWhitespace(r[|r| - 1]))
    ensures forall i | 0 <= i < |s| && !IsWhitespace(s[i]) :: s[i] in r
  {
    var i := TrimStart(s);
    if i == |s| then []
    else
      var e := TrailingEnd(s, IsWhitespace);
      assert i < e;
      assert forall k | 0 <= k < |s| && !IsWhitespace(s[k]) :: s[k] == s[i..e][k - i];
      s[i..e]
  }

  /** Trimming leaves a string with no whitespace at either end as it is. */
  lemma TrimUntouched(s: string)
    requires s == [] || (!IsWhitespace(s[0]) && !IsWhitespace(s[|s| - 1]))
    ensures Trim(s) == s
  {
  }

  predicate IsSlash(c: char) {
    c == '/'
  }

  /** PHP's `rtrim($s, '/')`. */
  function RTrimSlashes(s: string): (r: string)
    ensures |r| <= |s| && r == s[..|r|]
    ensures forall i | |r| <= i < |s| :: s[i] == '/'
    ensures r == [] || r[|r| - 1] != '/'
  {
    s[..TrailingEnd(s, IsSlash)]
  }

  // ------------------------------------------------------------- basename

  /** The part of `path` after its last '/', or all of it when it has none. */
  function AfterLastSlash(path: string): (r: string)
    ensures '/' !in r
    ensures |r| <= |path| && r == path[|path| - |r|..]
    ensures |r| < |path| ==> path[|path| - |r| - 1] == '/'
  {
    if path == [] || path[|path| - 1] == '/' then []
    else AfterLastSlash(path[..|path| - 1]) + [path[|path| - 1]]
  }

  /** PHP's `basename($path)` on '/'-separated paths: the last non-empty segment. */
  function Basename(path: string): (r: string)
    ensures '/' !in r
    ensures r == [] <==> forall i | 0 <= i < |path| :: path[i] == '/'
    ensures var t := RTrimSlashes(path);
      |r| <= |t| && r == t[|t| - |r|..] && (|r| < |t| ==> t[|t| - |r| - 1] == '/')
  {
    AfterLastSlash(RTrimSlashes(path))
  }

  // ------------------------------------------------------------- ordering

  /** Byte-wise string comparison (`strcmp` < 0): code-point order is UTF-8 byte order. */
  predicate StrLt(a: string, b: string) {
    if a == [] then b != []
    else if b == [] then false
    else if a[0] != b[0] then a[0] < b[0]
    else StrLt(a[1..], b[1..])
  }

  lemma {:induction false} StrLtIrreflexive(a: string)
    ensures !StrLt(a, a)
  {
    if a != [] {
      StrLtIrreflexive(a[1..]);
    }
  }

  /** Two different strings are ordered one way round and never both. */
  lemma {:induction false} StrLtTrichotomy(a: string, b: string)
    ensures a != b <==> StrLt(a, b) || StrLt(b, a)
    ensures !(StrLt(a, b) && StrLt(b, a))
  {
    if a == b {
      StrLtIrreflexive(a);
    } else if a != [] && b != [] && a[0] == b[0] {
      StrLtTrichotomy(a[1..], b[1..]);
      assert a == [a[0]] + a[1..] && b == [b[0]] + b[1..];
    }
  }

  lemma {:induction false} StrLtTransitive(a: string, b: string, c: string)
    requires StrLt(a, b) && StrLt(b, c)
    ensures StrLt(a, c)
  {
    if a != [] && a[0] == b[0] && b[0] == c[0] {
      StrLtTransitive(a[1..], b[1..], c[1..]);
    }
  }
}
