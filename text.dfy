/** Character classes, case mapping and string helpers with Python's meaning.

    Character classes follow CPython: `IsSpace` is `str.isspace` (which is
    also what `str.strip()` removes and what the regular-expression class
    `\s` matches). `IsWordChar` and `IsDecimalDigit` are the regular
    expression classes `\w` and `\d`, stated exactly for the Latin-1 range,
    the only characters a file decoded as latin-1 can hold. Case mapping is
    ASCII only. */
module Text {

  /** `str.isspace()` for one character (the complete Unicode list). */
  predicate IsSpace(c: char)
  {
    var n := c as int;
    (9 <= n <= 13) || (28 <= n <= 32) || n == 0x85 || n == 0xA0 || n == 0x1680
    || (0x2000 <= n <= 0x200A) || n == 0x2028 || n == 0x2029 || n == 0x202F
    || n == 0x205F || n == 0x3000
  }

  /** Every character lies in Latin-1, as after decoding a file with latin-1. */
  predicate IsLatin1(s: string)
  {
    forall i :: 0 <= i < |s| ==> s[i] as int < 256
  }

  /** The regular-expression class `\d` over Latin-1. */
  predicate IsDecimalDigit(c: char)
  {
    '0' <= c <= '9'
  }

  /** The regular-expression class `\w` over Latin-1: alphanumeric or `_`. */
  predicate IsWordChar(c: char)
  {
    var n := c as int;
    IsDecimalDigit(c) || ('A' <= c <= 'Z') || ('a' <= c <= 'z') || c == '_'
    || n == 0xAA || n == 0xB2 || n == 0xB3 || n == 0xB5 || n == 0xB9 || n == 0xBA
    || (0xBC <= n <= 0xBE) || (0xC0 <= n <= 0xD6) || (0xD8 <= n <= 0xF6) || (0xF8 <= n <= 0xFF)
  }

  /** `s and not s.strip()`: a non-empty string made only of whitespace. */
  predicate IsBlank(s: string)
  {
    s != [] && forall i :: 0 <= i < |s| ==> IsSpace(s[i])
  }

  function UpperChar(c: char): char
  {
    if 'a' <= c <= 'z' then (c as int - 32) as char else c
  }

  function LowerChar(c: char): char
  {
    if 'A' <= c <= 'Z' then (c as int + 32) as char else c
  }

  /** `str.upper()` (ASCII letters only). */
  function Upper(s: string): (r: string)
    ensures |r| == |s|
    ensures forall i :: 0 <= i < |s| ==> r[i] == UpperChar(s[i])
  {
    seq(|s|, i requires 0 <= i < |s| => UpperChar(s[i]))
  }

  /** `str.lower()` (ASCII letters only). */
  function Lower(s: string): (r: string)
    ensures |r| == |s|
    ensures forall i :: 0 <= i < |s| ==> r[i] == LowerChar(s[i])
  {
    seq(|s|, i requires 0 <= i < |s| => LowerChar(s[i]))
  }

  predicate StartsWith(s: string, prefix: string)
  {
    |prefix| <= |s| && s[..|prefix|] == prefix
  }

  predicate EndsWith(s: string, suffix: string)
  {
    |suffix| <= |s| && s[|s| - |suffix|..] == suffix
  }

  /** `s.endswith(tuple(suffixes))`. */
  predicate EndsWithAny(s: string, suffixes: seq<string>)
  {
    exists k :: 0 <= k < |suffixes| && EndsWith(s, suffixes[k])
  }

  /** `needle in haystack` for two strings. */
  predicate IsSubstring(needle: string, haystack: string)
  {
    StartsWith(haystack, needle) || (haystack != [] && IsSubstring(needle, haystack[1..]))
  }

  /** The decimal digits of a natural number, as `str(n)` prints them. */
  function NatToDecimal(n: nat): (r: string)
    ensures r != []
    ensures forall i :: 0 <= i < |r| ==> IsDecimalDigit(r[i])
  {
    var d := ['0' + (n % 10) as char];
    if n < 10 then d else NatToDecimal(n / 10) + d
  }

  /** `str(i)` for an integer. */
  function IntToDecimal(i: int): string
  {
    if i < 0 then "-" + NatToDecimal(-i) else NatToDecimal(i)
  }

  /** `int(s)` for a string of decimal digits. */
  function DigitsValue(s: string): (n: nat)
    requires forall i :: 0 <= i < |s| ==> IsDecimalDigit(s[i])
  {
    if s == [] then 0
    else
      assert IsDecimalDigit(s[|s| - 1]);
      10 * DigitsValue(s[..|s| - 1]) + (s[|s| - 1] as int - '0' as int)
  }

  /** Reading back what `NatToDecimal` printed gives the number again. */
  lemma {:induction false} DecimalRoundTrip(n: nat)
    ensures DigitsValue(NatToDecimal(n)) == n
  {
    var r := NatToDecimal(n);
    if n >= 10 {
      DecimalRoundTrip(n / 10);
      assert r[..|r| - 1] == NatToDecimal(n / 10);
    }
  }

  /** The text after the last occurrence of `sep` (`s.split(sep)[-1]`). */
  function AfterLast(s: string, sep: char): (r: string)
    ensures sep !in r
    ensures EndsWith(s, r)
    ensures |r| < |s| ==> s[|s| - |r| - 1] == sep
  {
    if s == [] then []
    else if s[|s| - 1] == sep then []
    else AfterLast(s[..|s| - 1], sep) + [s[|s| - 1]]
  }

  // ---------------------------------------------------------------------
  // Python's ordering of strings: lexicographic by code point.

  predicate Below(a: string, b: string)
  {
    if a == [] then b != []
    else if b == [] then false
    else a[0] < b[0] || (a[0] == b[0] && Below(a[1..], b[1..]))
  }

  lemma {:induction false} BelowIrreflexive(a: string)
    ensures !Below(a, a)
  {
    if a != [] {
      BelowIrreflexive(a[1..]);
    }
  }

  lemma {:induction false} BelowTransitive(a: string, b: string, c: string)
    requires Below(a, b) && Below(b, c)
    ensures Below(a, c)
  {
    if a != [] && b != [] && c != [] && a[0] == b[0] == c[0] {
      BelowTransitive(a[1..], b[1..], c[1..]);
    }
  }

  lemma {:induction false} BelowTotal(a: string, b: string)
    requires a != b
    ensures Below(a, b) || Below(b, a)
  {
    if a != [] && b != [] && a[0] == b[0] {
      assert a == [a[0]] + a[1..] && b == [b[0]] + b[1..];
      BelowTotal(a[1..], b[1..]);
    }
  }

  lemma {:induction false} BelowAsymmetric(a: string, b: string)
    requires Below(a, b)
    ensures !Below(b, a)
  {
    if Below(b, a) {
      BelowTransitive(a, b, a);
      BelowIrreflexive(a);
    }
  }

  /** Sorted in increasing order with no repetitions. */
  predicate StrictlySorted(s: seq<string>)
  {
    forall i, j :: 0 <= i < j < |s| ==> Below(s[i], s[j])
  }

  function SetOf<T>(s: seq<T>): set<T>
  {
    set x | x in s
  }

  lemma HeadInSetOf<T>(s: seq<T>)
    requires s != []
    ensures s[0] in SetOf(s)
  {
  }

  /** Inserts `x` into a strictly sorted sequence, unless it is already there. */
  function InsertSorted(x: string, s: seq<string>): (r: seq<string>)
    requires StrictlySorted(s)
    ensures StrictlySorted(r)
    ensures SetOf(r) == SetOf(s) + {x}
  {
    if s == [] then [x]
    else if x == s[0] then s
    else if Below(x, s[0]) then
      assert forall k :: 0 <= k < |s| ==> Below(x, s[k]) by {
        forall k | 0 <= k < |s| ensures Below(x, s[k]) {
          if k > 0 { BelowTransitive(x, s[0], s[k]); }
        }
      }
      [x] + s
    else
      BelowTotal(x, s[0]);
      var rest := InsertSorted(x, s[1..]);
      assert SetOf(s) == {s[0]} + SetOf(s[1..]);
      assert forall k :: 0 <= k < |rest| ==> Below(s[0], rest[k]) by {
        forall k | 0 <= k < |rest| ensures Below(s[0], rest[k]) {
          assert rest[k] in SetOf(rest);
          if rest[k] != x {
            var m :| 1 <= m < |s| && s[m] == rest[k];
          }
        }
      }
      assert SetOf([s[0]] + rest) == {s[0]} + SetOf(rest);
      [s[0]] + rest
  }

  /** `sorted(set(xs))`: the distinct elements of `xs` in increasing order. */
  function SortedDistinct(xs: seq<string>): (r: seq<string>)
    ensures StrictlySorted(r)
    ensures SetOf(r) == SetOf(xs)
  {
    if xs == [] then []
    else
      var r := InsertSorted(xs[|xs| - 1], SortedDistinct(xs[..|xs| - 1]));
      assert SetOf(xs) == SetOf(xs[..|xs| - 1]) + {xs[|xs| - 1]} by {
        assert xs == xs[..|xs| - 1] + [xs[|xs| - 1]];
      }
      r
  }

  /** A strictly sorted sequence has no repeated element. */
  lemma StrictlySortedIsDistinct(s: seq<string>, i: int, j: int)
    requires StrictlySorted(s)
    requires 0 <= i < |s| && 0 <= j < |s| && i != j
    ensures s[i] != s[j]
  {
    if i < j { BelowIrreflexive(s[i]); } else { BelowIrreflexive(s[j]); }
  }

  /** A strictly sorted sequence is determined by its set of elements. */
  lemma {:induction false} SortedUnique(a: seq<string>, b: seq<string>)
    requires StrictlySorted(a) && StrictlySorted(b) && SetOf(a) == SetOf(b)
    ensures a == b
  {
    if a == [] || b == [] {
      if a != [] { HeadInSetOf(a); }
      if b != [] { HeadInSetOf(b); }
    } else {
      // both heads are the least element of the common set
      if a[0] != b[0] {
        assert b[0] in SetOf(a);
        var i :| 0 <= i < |a| && a[i] == b[0];
        assert a[0] in SetOf(b);
        var j :| 0 <= j < |b| && b[j] == a[0];
        assert i > 0 && j > 0;
        BelowAsymmetric(a[0], a[i]);
      }
      assert SetOf(a[1..]) == SetOf(a) - {a[0]} by {
        forall k | 1 <= k < |a| ensures a[k] != a[0] { StrictlySortedIsDistinct(a, 0, k); }
      }
      assert SetOf(b[1..]) == SetOf(b) - {b[0]} by {
        forall k | 1 <= k < |b| ensures b[k] != b[0] { StrictlySortedIsDistinct(b, 0, k); }
      }
      SortedUnique(a[1..], b[1..]);
    }
  }
}
