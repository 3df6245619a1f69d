/** The .NET string primitives the application relies on: white-space tests,
    `Trim`, invariant upper/lower casing, substring containment and character
    removal. Casing is modelled on ASCII letters only. */
module Text {
  import opened Wrappers
  import Seqs

  /** `char.IsWhiteSpace`: the Unicode separators, U+0009..U+000D, U+0085. */
  predicate IsWhiteSpace(c: char) {
    || ('\t' <= c <= '\r') || c == ' ' || c == '\U{0085}' || c == '\U{00A0}'
    || c == '\U{1680}' || ('\U{2000}' <= c <= '\U{200A}') || c == '\U{2028}'
    || c == '\U{2029}' || c == '\U{202F}' || c == '\U{205F}' || c == '\U{3000}'
  }

  /** Every character of `s` is white space (vacuously true of ""). */
  predicate IsBlank(s: string) {
    forall i | 0 <= i < |s| :: IsWhiteSpace(s[i])
  }

  /** `string.IsNullOrWhiteSpace`. */
  predicate IsNullOrWhiteSpace(s: Option<string>) {
    s.None? || IsBlank(s.value)
  }

  /** `string.IsNullOrEmpty`. */
  predicate IsNullOrEmpty(s: Option<string>) {
    s.None? || |s.value| == 0
  }

  /** The number of leading white-space characters. */
  function LeadingBlank(s: string): (n: nat)
    ensures n <= |s| && IsBlank(s[..n])
    ensures n < |s| ==> !IsWhiteSpace(s[n])
  {
    if |s| > 0 && IsWhiteSpace(s[0]) then
      var m := LeadingBlank(s[1..]);
      assert forall i | 1 <= i < m + 1 :: s[i] == s[1..][..m][i - 1];
      m + 1
    else 0
  }

  /** A blank string stays blank when white space is appended. */
  lemma BlankSnoc(t: string, c: char)
    requires IsBlank(t) && IsWhiteSpace(c)
    ensures IsBlank(t + [c])
  {
  }

  /** The number of trailing white-space characters. */
  function TrailingBlank(s: string): (n: nat)
    ensures n <= |s| && IsBlank(s[|s| - n..])
    ensures n < |s| ==> !IsWhiteSpace(s[|s| - n - 1])
  {
    if |s| > 0 && IsWhiteSpace(s[|s| - 1]) then
      var u := s[..|s| - 1];
      var m := TrailingBlank(u);
      assert s[|s| - (m + 1)..] == u[|u| - m..] + [s[|s| - 1]];
      BlankSnoc(u[|u| - m..], s[|s| - 1]);
      m + 1
    else 0
  }

  /** `string.Length`: the number of UTF-16 code units, two for a character
      above U+FFFF (a surrogate pair), one for any other. */
  function Utf16Length(s: string): (n: nat)
    ensures |s| <= n <= 2 * |s|
    ensures n == 0 <==> |s| == 0
  {
    if |s| == 0 then 0
    else Utf16Length(s[..|s| - 1]) + (if s[|s| - 1] <= '\U{FFFF}' then 1 else 2)
  }

  /** Code units add up over a concatenation. */
  lemma {:induction false} Utf16LengthConcat(a: string, b: string)
    ensures Utf16Length(a + b) == Utf16Length(a) + Utf16Length(b)
    decreases |b|
  {
    if |b| > 0 {
      assert (a + b)[..|a + b| - 1] == a + b[..|b| - 1];
      Utf16LengthConcat(a, b[..|b| - 1]);
    } else {
      assert a + b == a;
    }
  }

  /** Trimming never adds code units. */
  lemma Utf16LengthTrim(s: string)
    ensures Utf16Length(Trim(s)) <= Utf16Length(s)
  {
    TrimIsSlice(s);
    Utf16LengthSlice(s, TrimOffset(s), TrimOffset(s) + |Trim(s)|);
  }

  /** A slice has no more code units than the whole. */
  lemma Utf16LengthSlice(s: string, a: nat, b: nat)
    requires a <= b <= |s|
    ensures Utf16Length(s[a..b]) <= Utf16Length(s)
  {
    assert s == s[..a] + s[a..b] + s[b..];
    Utf16LengthConcat(s[..a] + s[a..b], s[b..]);
    Utf16LengthConcat(s[..a], s[a..b]);
  }

  /** `TrimStart()`: drops the leading white space. */
  function TrimStart(s: string): (r: string)
    ensures |r| <= |s| && r == s[|s| - |r|..]
    ensures IsBlank(s[..|s| - |r|])
    ensures |r| > 0 ==> !IsWhiteSpace(r[0])
  {
    s[LeadingBlank(s)..]
  }

  /** `TrimEnd()`: drops the trailing white space. */
  function TrimEnd(s: string): (r: string)
    ensures |r| <= |s| && r == s[..|r|]
    ensures IsBlank(s[|r|..])
    ensures |r| > 0 ==> !IsWhiteSpace(r[|r| - 1])
  {
    s[..|s| - TrailingBlank(s)]
  }

  /** `Trim()`: white space dropped from both ends. */
  function Trim(s: string): (r: string)
    ensures |r| <= |s|
    ensures |r| > 0 ==> !IsWhiteSpace(r[0]) && !IsWhiteSpace(r[|r| - 1])
    ensures |r| == 0 <==> IsBlank(s)
  {
    var t := TrimStart(s);
    TrimBlank(s, t);
    TrimEnd(t)
  }

  /** `s` is blank exactly when nothing survives trimming its start and end. */
  lemma TrimBlank(s: string, t: string)
    requires t == TrimStart(s)
    ensures |TrimEnd(t)| == 0 <==> IsBlank(s)
  {
    var a := |s| - |t|;
    assert s == s[..a] + t;
    if |TrimEnd(t)| == 0 {
      assert t == t[0..];
      assert IsBlank(t);
    } else {
      assert !IsWhiteSpace(t[0]);
      assert s[a] == t[0];
    }
  }

  /** How many leading characters `Trim` drops. */
  function TrimOffset(s: string): nat {
    |s| - |TrimStart(s)|
  }

  /** What `Trim` keeps is a contiguous slice of its input, and only blank
      text is dropped around it. */
  lemma TrimIsSlice(s: string)
    ensures TrimOffset(s) + |Trim(s)| <= |s|
    ensures Trim(s) == s[TrimOffset(s)..TrimOffset(s) + |Trim(s)|]
    ensures IsBlank(s[..TrimOffset(s)]) && IsBlank(s[TrimOffset(s) + |Trim(s)|..])
  {
    var t := TrimStart(s);
    var r := TrimEnd(t);
    var a := TrimOffset(s);
    assert t == s[a..];
    assert r == t[..|r|];
    assert s[a + |r|..] == t[|r|..];
  }

  /** A string with no white space at either end is its own trimming. */
  lemma TrimUnchanged(s: string)
    requires |s| > 0 && !IsWhiteSpace(s[0]) && !IsWhiteSpace(s[|s| - 1])
    ensures Trim(s) == s
  {
    assert TrimStart(s) == s;
  }

  /** Trimming again changes nothing. */
  lemma TrimIdempotent(s: string)
    ensures Trim(Trim(s)) == Trim(s)
  {
    if |Trim(s)| > 0 {
      TrimUnchanged(Trim(s));
    }
  }

  /** `s?.Trim()`. */
  function TrimOpt(s: Option<string>): (r: Option<string>)
    ensures r.None? <==> s.None?
    ensures r.Some? ==> |r.value| <= |s.value|
  {
    match s
    case None => None
    case Some(v) => Some(Trim(v))
  }

  /** Invariant upper-casing of one character (ASCII letters only). */
  function UpperChar(c: char): char {
    if 'a' <= c <= 'z' then (c as int - 32) as char else c
  }

  /** Invariant lower-casing of one character (ASCII letters only). */
  function LowerChar(c: char): char {
    if 'A' <= c <= 'Z' then (c as int + 32) as char else c
  }

  /** `ToUpper()` / `ToUpperInvariant()`. */
  function Upper(s: string): (r: string)
    ensures |r| == |s|
  {
    seq(|s|, i requires 0 <= i < |s| => UpperChar(s[i]))
  }

  /** `ToLower()` / `ToLowerInvariant()`. */
  function Lower(s: string): (r: string)
    ensures |r| == |s|
  {
    seq(|s|, i requires 0 <= i < |s| => LowerChar(s[i]))
  }

  /** `string.Equals(a, b, StringComparison.OrdinalIgnoreCase)`. */
  predicate EqualsIgnoreCase(a: string, b: string) {
    |a| == |b| && forall i | 0 <= i < |a| :: LowerChar(a[i]) == LowerChar(b[i])
  }

  /** Upper-casing does not change a string up to case. */
  lemma UpperEqualsIgnoreCase(s: string)
    ensures EqualsIgnoreCase(Upper(s), s)
  {
  }

  /** `s` has no lower-case letter, i.e. it is its own upper-casing. */
  predicate IsUpper(s: string) {
    Upper(s) == s
  }

  /** `Upper` is idempotent: its result is always upper-case. */
  lemma UpperIsUpper(s: string)
    ensures IsUpper(Upper(s))
  {
  }

  /** Lower-casing forgets an earlier upper-casing. */
  lemma LowerOfUpper(s: string)
    ensures Lower(Upper(s)) == Lower(s)
  {
  }

  /** `Upper` of a nullable string (`s?.ToUpper()`): null stays null. */
  function UpperOpt(s: Option<string>): (r: Option<string>)
    ensures r.None? <==> s.None?
    ensures r.Some? ==> IsUpper(r.value)
  {
    match s
    case None => None
    case Some(v) => UpperIsUpper(v); Some(Upper(v))
  }

  /** `sub` occurs in `s` starting at index `i`. */
  predicate OccursAt(s: string, sub: string, i: int) {
    0 <= i <= |s| - |sub| && s[i..i + |sub|] == sub
  }

  /** `string.Contains(sub)` (also Firebird's CONTAINING once both sides are
      upper-cased). */
  predicate Contains(s: string, sub: string) {
    exists i | 0 <= i <= |s| - |sub| :: OccursAt(s, sub, i)
  }

  /** `UPPER(col) CONTAINING UPPER(@part)` in a WHERE clause: a null column
      never matches; otherwise containment once both sides are upper-cased. */
  predicate ContainingIgnoreCase(col: Option<string>, part: string) {
    col.Some? && Contains(Upper(col.value), Upper(part))
  }

  /** `Replace(c, "")`: every occurrence of `c` removed, the other characters
      kept in order. */
  function RemoveChar(s: string, c: char): (r: string)
    ensures c !in r
    ensures forall i | 0 <= i < |s| && s[i] != c :: s[i] in r
    ensures forall i | 0 <= i < |r| :: r[i] in s
  {
    Seqs.FilterMembers(s, Other(c));
    Seqs.Filter(s, Other(c))
  }

  /** The characters other than `c`. */
  function Other(c: char): char -> bool {
    x => x != c
  }

  /** Removing a character that does not occur changes nothing. */
  lemma RemoveAbsentChar(s: string, c: char)
    requires c !in s
    ensures RemoveChar(s, c) == s
  {
    Seqs.FilterAll(s, Other(c));
  }

  /** `RemoveChar` keeps the other characters in order and once each: it
      works piecewise over a concatenation, and on one character keeps it
      exactly when it is not `c`. */
  lemma RemoveCharInOrder(x: string, y: string, c: char, d: char)
    ensures RemoveChar(x + y, c) == RemoveChar(x, c) + RemoveChar(y, c)
    ensures RemoveChar([d], c) == if d == c then [] else [d]
  {
    Seqs.FilterConcat(x, y, Other(c));
  }
}
