/**
 * The few pieces of JavaScript string semantics the rest of the model relies on:
 * which characters `\s` and `trim()` count as white space, `trim()` itself,
 * truthiness of an optional string, and ASCII lower-casing.
 */
module JsText {
  import opened Wrappers

  /** The characters matched by `\s` in a JavaScript regular expression; `trim()` removes the same set. */
  predicate IsSpace(c: char) {
    || c == '\t' || c == '\n' || c == '\U{000B}' || c == '\U{000C}' || c == '\r' || c == ' '
    || c == '\U{00A0}' || c == '\U{1680}' || ('\U{2000}' <= c <= '\U{200A}')
    || c == '\U{2028}' || c == '\U{2029}' || c == '\U{202F}' || c == '\U{205F}'
    || c == '\U{3000}' || c == '\U{FEFF}'
  }

  predicate AllSpace(s: string) {
    forall k :: 0 <= k < |s| ==> IsSpace(s[k])
  }

  /** A string value is truthy in JavaScript when it is present and not empty. */
  predicate Truthy(o: Option<string>) {
    o.Some? && o.value != ""
  }

  /** `v || d` on an optional string: the value when it is truthy, otherwise `d` */
  function StrOr(v: Option<string>, d: string): (r: string)
    ensures Truthy(v) ==> r == v.value
    ensures !Truthy(v) ==> r == d
  {
    if Truthy(v) then v.value else d
  }

  /** `v || d` on an optional number: the value when it is present and not 0, otherwise `d` */
  function IntOr(v: Option<int>, d: int): (r: int)
    ensures v.Some? && v.value != 0 ==> r == v.value
    ensures v.None? || v.value == 0 ==> r == d
  {
    if v.Some? && v.value != 0 then v.value else d
  }

  /** `s.trimStart()`: what is left after dropping the leading white space */
  function TrimStart(s: string): (r: string)
    ensures |r| <= |s| && r == s[|s| - |r|..]
    ensures AllSpace(s[..|s| - |r|])
    ensures r == [] || !IsSpace(r[0])
  {
    if s != [] && IsSpace(s[0]) then
      var r := TrimStart(s[1..]);
      assert s[..|s| - |r|] == [s[0]] + s[1..][..|s| - 1 - |r|];
      r
    else
      s
  }

  /** `s.trimEnd()`: what is left after dropping the trailing white space */
  function TrimEnd(s: string): (r: string)
    ensures |r| <= |s| && r == s[..|r|]
    ensures AllSpace(s[|r|..])
    ensures r == [] || !IsSpace(r[|r| - 1])
  {
    if s != [] && IsSpace(s[|s| - 1]) then
      var r := TrimEnd(s[..|s| - 1]);
      assert s[|r|..] == s[..|s| - 1][|r|..] + [s[|s| - 1]];
      r
    else
      s
  }

  /** `s.trim()`: no white space at either end of what is left (see `TrimIsSlice` for what is kept) */
  function Trim(s: string): (r: string)
    ensures |r| <= |s|
    ensures r == [] || (!IsSpace(r[0]) && !IsSpace(r[|r| - 1]))
  {
    TrimEnd(TrimStart(s))
  }

  /** The trimmed text is the slice of `s` starting at the returned index, with only white space around it. */
  lemma {:induction false} TrimIsSlice(s: string) returns (i: nat)
    ensures i + |Trim(s)| <= |s| && Trim(s) == s[i..i + |Trim(s)|]
    ensures AllSpace(s[..i]) && AllSpace(s[i + |Trim(s)|..])
  {
    var a := TrimStart(s);
    var r := TrimEnd(a);
    i := |s| - |a|;
    assert Trim(s) == r;
    SliceBetween(s, a, r, i);
  }

  /** A prefix `r` of the suffix `a` of `s` from `i` is a slice of `s`, and what follows it in `a` follows it in `s`. */
  lemma SliceBetween(s: string, a: string, r: string, i: nat)
    requires i <= |s| && a == s[i..] && |r| <= |a| && r == a[..|r|] && AllSpace(a[|r|..])
    ensures i + |r| <= |s| && r == s[i..i + |r|] && AllSpace(s[i + |r|..])
  {
    assert a[|r|..] == s[i + |r|..];
  }

  /** `s.trim()` is empty exactly when `s` is all white space. */
  lemma TrimEmptyIffAllSpace(s: string)
    ensures Trim(s) == [] <==> AllSpace(s)
  {
    var a := TrimStart(s);
    var r := TrimEnd(a);
    if r == [] {
      assert AllSpace(a[0..]);
      assert a == [];
      assert s[..|s|] == s;
    } else {
      assert r[0] == s[|s| - |a|];
    }
  }

  function LowerChar(c: char): (r: char)
    ensures 'A' <= c <= 'Z' ==> r != c && 'a' <= r <= 'z'
    ensures !('A' <= c <= 'Z') ==> r == c
  {
    if 'A' <= c <= 'Z' then (c as int + 32) as char else c
  }

  /** `s.toLowerCase()` restricted to the ASCII letters */
  function LowerAscii(s: string): (r: string)
    ensures |r| == |s|
    ensures forall k :: 0 <= k < |s| ==> r[k] == LowerChar(s[k])
  {
    seq(|s|, k requires 0 <= k < |s| => LowerChar(s[k]))
  }

  // ---------------------------------------------------------------------------------------------
  // Global replacement of a literal pattern, as `s.replace(/pat/g, rep)` does it

  /** Two characters match: equal, or equal after ASCII folding under the `i` flag */
  predicate SameChar(a: char, b: char, ignoreCase: bool) {
    a == b || (ignoreCase && LowerChar(a) == LowerChar(b))
  }

  /** `pat` matches at the start of `s` */
  predicate MatchesAt(s: string, pat: string, ignoreCase: bool) {
    |pat| <= |s| && forall k :: 0 <= k < |pat| ==> SameChar(s[k], pat[k], ignoreCase)
  }

  /**
   * Every match of the non-empty literal `pat`, found left to right and not overlapping, replaced by
   * `rep`.  Scanning resumes after the match, so text produced by `rep` is not rescanned.
   */
  function ReplaceAll(s: string, pat: string, rep: string, ignoreCase: bool): (r: string)
    requires |pat| > 0
    decreases |s|
  {
    if |s| < |pat| then s
    else if MatchesAt(s, pat, ignoreCase) then rep + ReplaceAll(s[|pat|..], pat, rep, ignoreCase)
    else [s[0]] + ReplaceAll(s[1..], pat, rep, ignoreCase)
  }

  /** A string in which the pattern's first character never occurs is left as it is. */
  lemma {:induction false} ReplaceAllAbsent(s: string, pat: string, rep: string, ignoreCase: bool)
    requires |pat| > 0
    requires forall k :: 0 <= k < |s| ==> !SameChar(s[k], pat[0], ignoreCase)
    ensures ReplaceAll(s, pat, rep, ignoreCase) == s
  {
    if |s| >= |pat| {
      assert !SameChar(s[0], pat[0], ignoreCase);
      ReplaceAllAbsent(s[1..], pat, rep, ignoreCase);
      assert s == [s[0]] + s[1..];
    }
  }

  /** A prefix in which the pattern's first character never occurs passes through unchanged. */
  lemma {:induction false} ReplaceAllSkips(a: string, b: string, pat: string, rep: string, ignoreCase: bool)
    requires |pat| > 0
    requires forall k :: 0 <= k < |a| ==> !SameChar(a[k], pat[0], ignoreCase)
    ensures ReplaceAll(a + b, pat, rep, ignoreCase) == a + ReplaceAll(b, pat, rep, ignoreCase)
  {
    if a == [] {
      assert a + b == b;
    } else if |a + b| >= |pat| {
      assert !SameChar((a + b)[0], pat[0], ignoreCase);
      assert (a + b)[1..] == a[1..] + b;
      ReplaceAllSkips(a[1..], b, pat, rep, ignoreCase);
      assert a == [a[0]] + a[1..];
    }
  }

  /** A string in which the pattern matches nowhere is left as it is. */
  lemma {:induction false} ReplaceAllNoMatch(s: string, pat: string, rep: string, ignoreCase: bool)
    requires |pat| > 0
    requires forall i :: 0 <= i < |s| ==> !MatchesAt(s[i..], pat, ignoreCase)
    ensures ReplaceAll(s, pat, rep, ignoreCase) == s
  {
    if |s| >= |pat| {
      assert s[0..] == s;
      assert forall i :: 0 <= i < |s[1..]| ==> s[1..][i..] == s[1 + i..];
      ReplaceAllNoMatch(s[1..], pat, rep, ignoreCase);
      assert s == [s[0]] + s[1..];
    }
  }

  /** A character found neither in `s` nor in `rep` is not in the result either. */
  lemma {:induction false} ReplaceAllKeepsOut(s: string, pat: string, rep: string, ignoreCase: bool, c: char)
    requires |pat| > 0 && c !in s && c !in rep
    ensures c !in ReplaceAll(s, pat, rep, ignoreCase)
  {
    if |s| >= |pat| {
      if MatchesAt(s, pat, ignoreCase) {
        ReplaceAllKeepsOut(s[|pat|..], pat, rep, ignoreCase, c);
      } else {
        ReplaceAllKeepsOut(s[1..], pat, rep, ignoreCase, c);
      }
    }
  }

  /** Non-empty patterns, as `ReplaceAll` needs them */
  predicate NonEmptyPatterns(table: seq<(string, string)>) {
    forall k :: 0 <= k < |table| ==> |table[k].0| > 0
  }

  /** A chain of global replacements: each (pattern, replacement) entry in turn, each on the previous output */
  function ReplaceInTurn(table: seq<(string, string)>, s: string, ignoreCase: bool): string
    requires NonEmptyPatterns(table)
  {
    if table == [] then s
    else
      var last := table[|table| - 1];
      ReplaceAll(ReplaceInTurn(table[..|table| - 1], s, ignoreCase), last.0, last.1, ignoreCase)
  }

  /** Applying two tables in turn is applying their concatenation. */
  lemma {:induction false} ReplaceInTurnAppend(t1: seq<(string, string)>, t2: seq<(string, string)>, s: string, ignoreCase: bool)
    requires NonEmptyPatterns(t1) && NonEmptyPatterns(t2)
    ensures NonEmptyPatterns(t1 + t2)
    ensures ReplaceInTurn(t1 + t2, s, ignoreCase) == ReplaceInTurn(t2, ReplaceInTurn(t1, s, ignoreCase), ignoreCase)
    decreases |t2|
  {
    if t2 == [] {
      assert t1 + t2 == t1;
    } else {
      assert (t1 + t2)[..|t1 + t2| - 1] == t1 + t2[..|t2| - 1];
      ReplaceInTurnAppend(t1, t2[..|t2| - 1], s, ignoreCase);
    }
  }

  /** A table none of whose patterns starts with a character of `s` leaves `s` alone. */
  lemma {:induction false} ReplaceInTurnAbsent(table: seq<(string, string)>, s: string, ignoreCase: bool)
    requires NonEmptyPatterns(table)
    requires forall k, i :: 0 <= k < |table| && 0 <= i < |s| ==> !SameChar(s[i], table[k].0[0], ignoreCase)
    ensures ReplaceInTurn(table, s, ignoreCase) == s
  {
    if table != [] {
      ReplaceInTurnAbsent(table[..|table| - 1], s, ignoreCase);
      ReplaceAllAbsent(s, table[|table| - 1].0, table[|table| - 1].1, ignoreCase);
    }
  }

  // ---------------------------------------------------------------------------------------------
  // Numbers as text

  predicate IsDigit(c: char) {
    '0' <= c <= '9'
  }

  function DigitChar(d: int): (c: char)
    requires 0 <= d < 10
    ensures IsDigit(c)
  {
    (48 + d) as char
  }

  /** The value of a string of decimal digits */
  function DigitsValue(s: string): (n: nat)
    requires forall k :: 0 <= k < |s| ==> IsDigit(s[k])
  {
    if s == [] then 0
    else
      assert IsDigit(s[|s| - 1]);
      10 * DigitsValue(s[..|s| - 1]) + (s[|s| - 1] as int - '0' as int)
  }

  /** `String(n)` for a natural number: decimal digits with no leading zero */
  function NatToString(n: nat): (r: string)
    ensures |r| >= 1 && forall k :: 0 <= k < |r| ==> IsDigit(r[k])
    ensures r[0] == '0' ==> n == 0 && r == "0"
    ensures n < 10 <==> |r| == 1
  {
    if n < 10 then [DigitChar(n)] else NatToString(n / 10) + [DigitChar(n % 10)]
  }

  /** Reading the digits back gives the number: the decimal text of a number names it exactly. */
  lemma {:induction false} NatToStringValue(n: nat)
    ensures DigitsValue(NatToString(n)) == n
  {
    if n >= 10 {
      var r := NatToString(n);
      assert r[..|r| - 1] == NatToString(n / 10);
      NatToStringValue(n / 10);
    }
  }

  /** `String(n)` for an integer */
  function IntToString(n: int): (r: string)
    ensures |r| >= 1
    ensures n >= 0 ==> r == NatToString(n)
    ensures n < 0 ==> r == "-" + NatToString(-n)
  {
    if n < 0 then "-" + NatToString(-n) else NatToString(n)
  }

  /** `s.padStart(2, '0')` */
  function PadStart2(s: string): (r: string)
    ensures |s| >= 2 ==> r == s
    ensures |s| < 2 ==> |r| == 2 && r[2 - |s|..] == s && forall k :: 0 <= k < 2 - |s| ==> r[k] == '0'
  {
    if |s| == 0 then "00" else if |s| == 1 then "0" + s else s
  }
}
