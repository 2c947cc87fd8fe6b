/**
 * The pieces of .NET string handling the editor relies on: `Char.IsWhiteSpace`,
 * `String.Trim`, ordinal `IndexOf`, decimal rendering of integers and
 * `int.TryParse`. Strings are sequences of Unicode scalar values.
 */
module Strings {
  import opened Geometry
  import opened Integers

  /** `Char.IsWhiteSpace`: the Unicode white-space characters. */
  predicate IsWhiteSpace(c: char) {
    var n := c as int;
    (9 <= n <= 13) || n == 32 || n == 0x85 || n == 0xA0 || n == 0x1680
    || (0x2000 <= n <= 0x200A) || n == 0x2028 || n == 0x2029 || n == 0x202F
    || n == 0x205F || n == 0x3000
  }

  /** The white space `int.TryParse` skips around a number: U+0009 to U+000D and U+0020. */
  predicate IsNumberWhite(c: char) {
    var n := c as int;
    (9 <= n <= 13) || n == 32
  }

  predicate IsDigit(c: char) {
    '0' <= c <= '9'
  }

  /** Removes the leading characters that satisfy `white`. */
  function TrimStartWith(s: string, white: char -> bool): string {
    if |s| > 0 && white(s[0]) then TrimStartWith(s[1..], white) else s
  }

  /**
   * `TrimStartWith` yields the suffix of `s` that starts at the first
   * character not satisfying `white`: everything before it is removed.
   */
  lemma {:induction false} TrimStartFacts(s: string, white: char -> bool)
    ensures var r := TrimStartWith(s, white);
      |r| <= |s| && r == s[|s| - |r|..] && (r == [] || !white(r[0]))
      && forall k :: 0 <= k < |s| - |r| ==> white(s[k])
  {
    if |s| > 0 && white(s[0]) {
      TrimStartFacts(s[1..], white);
      assert forall k :: 1 <= k < |s| ==> s[k] == s[1..][k - 1];
    }
  }

  /** Removes the trailing characters that satisfy `white`. */
  function TrimEndWith(s: string, white: char -> bool): string {
    if |s| > 0 && white(s[|s| - 1]) then TrimEndWith(s[..|s| - 1], white) else s
  }

  /**
   * `TrimEndWith` yields the prefix of `s` that ends at the last character
   * not satisfying `white`: everything after it is removed.
   */
  lemma {:induction false} TrimEndFacts(s: string, white: char -> bool)
    ensures var r := TrimEndWith(s, white);
      |r| <= |s| && r == s[..|r|] && (r == [] || !white(r[|r| - 1]))
      && forall k :: |r| <= k < |s| ==> white(s[k])
  {
    if |s| > 0 && white(s[|s| - 1]) {
      TrimEndFacts(s[..|s| - 1], white);
    }
  }

  function TrimWith(s: string, white: char -> bool): string {
    TrimEndWith(TrimStartWith(s, white), white)
  }

  /** `String.Trim()`. */
  function Trim(s: string): string {
    TrimWith(s, IsWhiteSpace)
  }

  /** Trimming yields a contiguous piece `s[i..j]` of its input with nothing but white space cut off. */
  lemma TrimIsSlice(s: string, white: char -> bool) returns (i: nat, j: nat)
    ensures i <= j <= |s| && TrimWith(s, white) == s[i..j]
    ensures forall k :: 0 <= k < i ==> white(s[k])
    ensures forall k :: j <= k < |s| ==> white(s[k])
  {
    var t := TrimStartWith(s, white);
    TrimStartFacts(s, white);
    i := |s| - |t|;
    var e := TrimEndWith(t, white);
    TrimEndFacts(t, white);
    j := i + |e|;
    assert e == s[i..j] by {
      assert t == s[i..];
      assert e == t[..|e|];
    }
    assert TrimWith(s, white) == e;
    forall k | j <= k < |s| ensures white(s[k]) {
      assert s[k] == t[k - i];
      assert |e| <= k - i < |t|;
    }
  }

  /** Trimming only removes characters. */
  lemma TrimKeepsOut(s: string, white: char -> bool, c: char)
    requires c !in s
    ensures c !in TrimWith(s, white)
  {
    var i, j := TrimIsSlice(s, white);
    assert forall k :: 0 <= k < j - i ==> s[i..j][k] == s[i + k];
  }

  /** A string that neither starts nor ends with white space is its own trim. */
  lemma {:induction false} TrimIdentity(s: string, white: char -> bool)
    requires s == [] || (!white(s[0]) && !white(s[|s| - 1]))
    ensures TrimWith(s, white) == s
  {
  }

  /** The trimmed string has no white space at either end. */
  lemma TrimmedEnds(s: string, white: char -> bool)
    ensures var t := TrimWith(s, white);
      t == [] || (!white(t[0]) && !white(t[|t| - 1]))
  {
    var u := TrimStartWith(s, white);
    TrimStartFacts(s, white);
    var t := TrimEndWith(u, white);
    TrimEndFacts(u, white);
    if t != [] {
      assert t[0] == u[0];
    }
  }

  /** So trimming again changes nothing. */
  lemma TrimIdempotent(s: string, white: char -> bool)
    ensures TrimWith(TrimWith(s, white), white) == TrimWith(s, white)
  {
    TrimmedEnds(s, white);
    TrimIdentity(TrimWith(s, white), white);
  }

  /** Whether `pat` occurs in `s` starting at `k`. */
  predicate OccursAt(s: string, pat: string, k: int) {
    0 <= k && k + |pat| <= |s| && s[k..k + |pat|] == pat
  }

  /** Ordinal `String.IndexOf`: the first position at which `pat` occurs in `s`. */
  function IndexOf(s: string, pat: string): (r: Option<nat>)
    ensures r.Some? ==> OccursAt(s, pat, r.value)
    ensures r.Some? ==> forall k :: 0 <= k < r.value ==> !OccursAt(s, pat, k)
    ensures r.None? ==> forall k :: !OccursAt(s, pat, k)
  {
    if |s| < |pat| then None
    else if s[..|pat|] == pat then Some(0)
    else
      var rest := IndexOf(s[1..], pat);
      assert forall k :: 1 <= k ==> (OccursAt(s, pat, k) <==> OccursAt(s[1..], pat, k - 1)) by {
        forall k | 1 <= k ensures OccursAt(s, pat, k) <==> OccursAt(s[1..], pat, k - 1) {
          OccursShift(s, pat, k);
        }
      }
      if rest.None? then None else Some(rest.value + 1)
  }

  lemma OccursShift(s: string, pat: string, k: int)
    requires |s| > 0 && k >= 1
    ensures OccursAt(s, pat, k) <==> OccursAt(s[1..], pat, k - 1)
  {
    if k + |pat| <= |s| {
      assert s[k..k + |pat|] == s[1..][k - 1..k - 1 + |pat|];
    }
  }

  /** An occurrence in a slice of `s` is an occurrence in `s`, shifted by the slice's start. */
  lemma SliceOccurrence(s: string, pat: string, i: nat, j: nat)
    requires i <= j <= |s|
    ensures forall k :: OccursAt(s[i..j], pat, k) ==> OccursAt(s, pat, i + k)
  {
    forall k | OccursAt(s[i..j], pat, k) ensures OccursAt(s, pat, i + k) {
      forall m | 0 <= m < |pat| ensures s[i + k..i + k + |pat|][m] == pat[m] {
        assert pat[m] == s[i..j][k..k + |pat|][m] == s[i + k + m];
      }
    }
  }

  /** No occurrence of `pat` in `s` means none in any slice of `s`. */
  lemma NoOccurrenceInSlice(s: string, pat: string, i: nat, j: nat)
    requires i <= j <= |s|
    requires forall k :: !OccursAt(s, pat, k)
    ensures forall k :: !OccursAt(s[i..j], pat, k)
  {
    SliceOccurrence(s, pat, i, j);
  }

  /** Decimal digits of a natural number, most significant first, without leading zeros. */
  function NatToString(n: nat): (r: string)
    ensures |r| > 0 && IsDigits(r)
    ensures r[0] != '0' || n == 0
  {
    if n < 10 then [DigitChar(n)] else NatToString(n / 10) + [DigitChar(n % 10)]
  }

  function DigitChar(d: nat): (c: char)
    requires d < 10
    ensures IsDigit(c) && DigitValue(c) == d
  {
    (48 + d) as char
  }

  function DigitValue(c: char): nat
    requires IsDigit(c)
  {
    (c as int) - 48
  }

  predicate IsDigits(s: string) {
    |s| > 0 && forall k :: 0 <= k < |s| ==> IsDigit(s[k])
  }

  /** The value of a string of decimal digits. */
  function DigitsValue(s: string): nat
    requires forall k :: 0 <= k < |s| ==> IsDigit(s[k])
  {
    if s == [] then 0 else DigitsValue(s[..|s| - 1]) * 10 + DigitValue(s[|s| - 1])
  }

  /** `Int32.ToString()`: an optional minus sign and the decimal digits. */
  function IntToString(n: int): string {
    if n < 0 then "-" + NatToString(-n) else NatToString(n)
  }

  lemma {:induction false} NatToStringValue(n: nat)
    ensures DigitsValue(NatToString(n)) == n
  {
    if n >= 10 {
      NatToStringValue(n / 10);
      var s := NatToString(n);
      assert s[..|s| - 1] == NatToString(n / 10);
    }
  }

  /** `s` without the run of NUL characters at its end. */
  function DropTrailingNuls(s: string): (r: string)
    ensures r <= s && (r == [] || r[|r| - 1] != '\0')
    ensures forall k :: |r| <= k < |s| ==> s[k] == '\0'
  {
    if |s| > 0 && s[|s| - 1] == '\0' then DropTrailingNuls(s[..|s| - 1]) else s
  }

  /** NUL characters added at the end are dropped again. */
  lemma {:induction false} DropAddedNuls(s: string, n: nat)
    ensures DropTrailingNuls(s + seq(n, _ => '\0')) == DropTrailingNuls(s)
  {
    if n > 0 {
      var z := seq(n, _ => '\0');
      assert (s + z)[..|s + z| - 1] == s + seq(n - 1, _ => '\0');
      DropAddedNuls(s, n - 1);
    } else {
      assert s + seq(n, _ => '\0') == s;
    }
  }

  /**
   * `int.TryParse(s, out v)` with the default `NumberStyles.Integer`: white
   * space around, an optional sign, at least one decimal digit, and a value
   * that fits in an `int`; NUL characters may follow it all. The signs are
   * the ASCII `-` and `+`; `int.TryParse` takes them from the current
   * culture, which this model fixes.
   */
  function TryParseInt32(s: string): (r: Option<int>)
    ensures r.Some? ==> IsInt32(r.value)
  {
    var t := TrimWith(DropTrailingNuls(s), IsNumberWhite);
    var negative := |t| > 0 && t[0] == '-';
    var digits := if |t| > 0 && (t[0] == '-' || t[0] == '+') then t[1..] else t;
    if !IsDigits(digits) then None
    else
      var v: int := if negative then 0 - DigitsValue(digits) else DigitsValue(digits);
      if IsInt32(v) then Some(v) else None
  }

  /** `int.TryParse` reads a text followed by NUL characters as the text alone. */
  lemma ParseIgnoresTrailingNuls(s: string, n: nat)
    ensures TryParseInt32(s + seq(n, _ => '\0')) == TryParseInt32(s)
  {
    DropAddedNuls(s, n);
  }

  /** Rendering an `int` and parsing it back gives the same `int`. */
  lemma ParseRendered(n: int)
    requires IsInt32(n)
    ensures TryParseInt32(IntToString(n)) == Some(n)
  {
    var s := IntToString(n);
    var m: nat := if n < 0 then -n else n;
    NatToStringValue(m);
    var ds := NatToString(m);
    assert s[|s| - 1] == ds[|ds| - 1];
    assert DropTrailingNuls(s) == s;
    TrimIdentity(s, IsNumberWhite);
    if n < 0 {
      assert s[1..] == ds;
    }
  }

  /**
   * A string accepted by `TryParseInt32` consists only of digits, signs,
   * number white space and NUL characters; so any other character makes it
   * fail.
   */
  lemma ParsedCharacters(s: string)
    requires TryParseInt32(s).Some?
    ensures forall k :: 0 <= k < |s| ==>
      IsDigit(s[k]) || s[k] == '-' || s[k] == '+' || IsNumberWhite(s[k]) || s[k] == '\0'
  {
    var d := DropTrailingNuls(s);
    var i, j := TrimIsSlice(d, IsNumberWhite);
    var t := d[i..j];
    forall k | i <= k < j
      ensures IsDigit(s[k]) || s[k] == '-' || s[k] == '+'
    {
      assert s[k] == d[k] == t[k - i];
      if k > i && |t| > 0 && (t[0] == '-' || t[0] == '+') {
        assert t[k - i] == t[1..][k - i - 1];
      }
    }
    forall k | 0 <= k < |d| && !(i <= k < j)
      ensures IsNumberWhite(s[k])
    {
      assert s[k] == d[k];
    }
  }
}
