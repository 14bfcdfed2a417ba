/**
 * String helpers standing in for the .NET string operations the core uses
 * (String.StartsWith, EndsWith, Replace, TrimStart, Split, Int32.ToString,
 * Char.IsWhiteSpace, invariant upper/lower casing restricted to ASCII).
 */
module Text {
  import opened Wrappers

  predicate StartsWith(s: string, prefix: string) {
    |prefix| <= |s| && s[..|prefix|] == prefix
  }

  predicate EndsWith(s: string, suffix: string) {
    |suffix| <= |s| && s[|s| - |suffix|..] == suffix
  }

  /** String.Replace(char, char): every occurrence of `from` becomes `to`. */
  function ReplaceChar(s: string, from: char, to: char): string {
    seq(|s|, i requires 0 <= i < |s| => if s[i] == from then to else s[i])
  }

  /** String.TrimStart(c): drops every leading occurrence of `c`. */
  function TrimStart(s: string, c: char): string {
    if |s| > 0 && s[0] == c then TrimStart(s[1..], c) else s
  }

  /** TrimStart removes a prefix made of `c` only, and the rest does not start with `c`. */
  lemma {:induction false} TrimStartRemovesLeading(s: string, c: char)
    ensures var r := TrimStart(s, c);
      |r| <= |s| && r == s[|s| - |r|..] && (r == [] || r[0] != c) &&
      forall i :: 0 <= i < |s| - |r| ==> s[i] == c
  {
    if |s| > 0 && s[0] == c {
      TrimStartRemovesLeading(s[1..], c);
    }
  }

  // ---------------------------------------------------------------------
  // Decimal rendering of non-negative integers (Int32/Int64.ToString with
  // the invariant culture: no sign, no grouping).

  function DigitChar(d: nat): char
    requires d < 10
  {
    "0123456789"[d]
  }

  predicate IsDigit(c: char) {
    '0' <= c <= '9'
  }

  function DigitValue(c: char): nat
    requires IsDigit(c)
  {
    (c as int - '0' as int) as nat
  }

  function NatToString(n: nat): (s: string)
    ensures |s| > 0
    ensures forall i :: 0 <= i < |s| ==> IsDigit(s[i])
    ensures |s| > 1 ==> s[0] != '0'
  {
    if n < 10 then [DigitChar(n)] else NatToString(n / 10) + [DigitChar(n % 10)]
  }

  /** The number a string of decimal digits denotes. */
  function DecimalValue(s: string): nat
    requires forall i :: 0 <= i < |s| ==> IsDigit(s[i])
  {
    if s == [] then 0 else DecimalValue(s[..|s| - 1]) * 10 + DigitValue(s[|s| - 1])
  }

  /** Rendering a number in decimal loses nothing: reading it back gives the number. */
  lemma {:induction false} DecimalRoundTrip(n: nat)
    ensures DecimalValue(NatToString(n)) == n
  {
    var s := NatToString(n);
    if n >= 10 {
      DecimalRoundTrip(n / 10);
      assert s[..|s| - 1] == NatToString(n / 10);
    }
  }

  /** Different numbers render differently. */
  lemma NatToStringInjective(m: nat, n: nat)
    requires NatToString(m) == NatToString(n)
    ensures m == n
  {
    DecimalRoundTrip(m);
    DecimalRoundTrip(n);
  }

  // ---------------------------------------------------------------------
  // String.Split(char) without options: k separators give k + 1 pieces.

  function Split(s: string, sep: char): (parts: seq<string>)
    ensures |parts| >= 1
    ensures forall i :: 0 <= i < |parts| ==> sep !in parts[i]
  {
    if |s| == 0 then [""]
    else if s[0] == sep then [""] + Split(s[1..], sep)
    else
      var rest := Split(s[1..], sep);
      [[s[0]] + rest[0]] + rest[1..]
  }

  /** Every character of a piece comes from the string that was split. */
  lemma {:induction false} SplitPieceWithin(s: string, sep: char, p: string, c: char)
    requires p in Split(s, sep) && c in p
    ensures c in s
    decreases |s|
  {
    if s[0] == sep {
      if p in Split(s[1..], sep) {
        SplitPieceWithin(s[1..], sep, p, c);
      }
    } else {
      var rest := Split(s[1..], sep);
      if p == [s[0]] + rest[0] {
        if c != s[0] {
          SplitPieceWithin(s[1..], sep, rest[0], c);
        }
      } else {
        assert p in rest;
        SplitPieceWithin(s[1..], sep, p, c);
      }
    }
  }

  /** A string without the separator is one piece. */
  lemma {:induction false} SplitWithoutSeparator(s: string, sep: char)
    requires sep !in s
    ensures Split(s, sep) == [s]
  {
    if |s| > 0 {
      assert sep !in s[1..];
      SplitWithoutSeparator(s[1..], sep);
      assert [s[0]] + s[1..] == s;
    }
  }

  function Join(parts: seq<string>, sep: char): string
    requires |parts| >= 1
  {
    if |parts| == 1 then parts[0] else parts[0] + [sep] + Join(parts[1..], sep)
  }

  /** Split loses nothing: joining the pieces with the separator gives the input back. */
  lemma {:induction false} SplitJoin(s: string, sep: char)
    ensures Join(Split(s, sep), sep) == s
  {
    if |s| > 0 {
      SplitJoin(s[1..], sep);
      var rest := Split(s[1..], sep);
      if s[0] != sep && |rest| > 1 {
        assert Join(Split(s, sep), sep) == [s[0]] + rest[0] + [sep] + Join(rest[1..], sep);
      }
    }
  }

  /** Splitting `a,b` gives the pieces of `a` followed by the pieces of `b`. */
  lemma {:induction false} SplitAppend(a: string, b: string, sep: char)
    ensures Split(a + [sep] + b, sep) == Split(a, sep) + Split(b, sep)
  {
    if |a| == 0 {
      assert a + [sep] + b == [sep] + b;
      assert ([sep] + b)[1..] == b;
    } else {
      assert (a + [sep] + b)[1..] == a[1..] + [sep] + b;
      SplitAppend(a[1..], b, sep);
    }
  }

  // ---------------------------------------------------------------------
  // Casing for ASCII letters, and white space as Char.IsWhiteSpace has it.

  function ToUpperAscii(c: char): char {
    if 'a' <= c <= 'z' then (c as int - 32) as char else c
  }

  function ToLowerAscii(c: char): char {
    if 'A' <= c <= 'Z' then (c as int + 32) as char else c
  }

  function Lower(s: string): (r: string)
    ensures |r| == |s|
    ensures forall i :: 0 <= i < |s| ==> r[i] == ToLowerAscii(s[i])
  {
    seq(|s|, i requires 0 <= i < |s| => ToLowerAscii(s[i]))
  }

  /** Lower-casing changes nothing in a string without upper-case letters. */
  lemma LowerOfLower(s: string)
    requires forall i :: 0 <= i < |s| ==> !('A' <= s[i] <= 'Z')
    ensures Lower(s) == s
  {
  }

  lemma LowerIdempotent(s: string)
    ensures Lower(Lower(s)) == Lower(s)
  {
  }

  /** Lower-cases every piece of a list of strings. */
  function LowerAll(parts: seq<string>): (r: seq<string>)
    ensures |r| == |parts|
    ensures forall i :: 0 <= i < |parts| ==> r[i] == Lower(parts[i])
  {
    seq(|parts|, i requires 0 <= i < |parts| => Lower(parts[i]))
  }

  /** Lower-casing commutes with splitting at a separator that is not a letter. */
  lemma {:induction false} SplitLower(s: string, sep: char)
    requires !('A' <= sep <= 'Z') && !('a' <= sep <= 'z')
    ensures Split(Lower(s), sep) == LowerAll(Split(s, sep))
  {
    if |s| > 0 {
      assert Lower(s)[1..] == Lower(s[1..]);
      SplitLower(s[1..], sep);
      var rest := Split(s[1..], sep);
      if s[0] != sep {
        assert Lower(s)[0] != sep;
        assert Lower([s[0]] + rest[0]) == [Lower(s)[0]] + Lower(rest[0]);
        assert Split(Lower(s), sep) == [[Lower(s)[0]] + LowerAll(rest)[0]] + LowerAll(rest)[1..];
      } else {
        assert Split(Lower(s), sep) == [""] + LowerAll(rest);
      }
    }
  }

  /**
   * Char.IsWhiteSpace: the control characters U+0009 to U+000D and U+0085,
   * the space separators, and the line and paragraph separators.
   */
  predicate IsWhiteSpace(c: char) {
    || ('\t' <= c <= '\r') || c == '\U{0085}'
    || c == ' ' || c == '\U{00A0}' || c == '\U{1680}' || ('\U{2000}' <= c <= '\U{200A}')
    || c == '\U{202F}' || c == '\U{205F}' || c == '\U{3000}'
    || c == '\U{2028}' || c == '\U{2029}'
  }

  /** String.IsNullOrWhiteSpace; `None` stands for null. */
  predicate IsNullOrWhiteSpace(s: Option<string>) {
    s.None? || forall i :: 0 <= i < |s.value| ==> IsWhiteSpace(s.value[i])
  }

  /** The index just after the last occurrence of `c` in `s`, or 0 if there is none. */
  function AfterLast(s: string, c: char): (k: nat)
    ensures k <= |s|
    ensures k > 0 ==> s[k - 1] == c
    ensures forall i :: k <= i < |s| ==> s[i] != c
  {
    if |s| == 0 then 0
    else if s[|s| - 1] == c then |s|
    else AfterLast(s[..|s| - 1], c)
  }
}
