/** Decimal text of integers (`int.ToString()`) and `int.TryParse` with the
    default `NumberStyles.Integer`: optional surrounding white space
    (U+0009..U+000D, U+0020), an optional `+` or `-`, then one or more ASCII
    digits, accepted only when the value fits in a 32-bit signed integer. */
module Numbers {
  import opened Wrappers

  const MinInt32: int := -0x8000_0000
  const MaxInt32: int := 0x7FFF_FFFF

  predicate IsInt32(n: int) {
    MinInt32 <= n <= MaxInt32
  }

  predicate IsDigit(c: char) {
    '0' <= c <= '9'
  }

  predicate AllDigits(s: string) {
    forall i | 0 <= i < |s| :: IsDigit(s[i])
  }

  /** The value of one ASCII digit (`int.Parse(c.ToString())`). */
  function DigitValue(c: char): (d: nat)
    requires IsDigit(c)
    ensures d <= 9
  {
    c as int - '0' as int
  }

  /** The digit character of a value 0..9. */
  function DigitChar(d: nat): (c: char)
    requires d <= 9
    ensures IsDigit(c) && DigitValue(c) == d
  {
    ('0' as int + d) as char
  }

  /** The value of a string of decimal digits, most significant first. */
  function ParseDigits(s: string): nat
    requires AllDigits(s)
  {
    if |s| == 0 then 0 else ParseDigits(s[..|s| - 1]) * 10 + DigitValue(s[|s| - 1])
  }

  /** The shortest decimal text of a natural number. */
  function NatText(n: nat): (s: string)
    ensures |s| > 0 && AllDigits(s)
    ensures ParseDigits(s) == n
  {
    if n < 10 then [DigitChar(n)]
    else
      var s := NatText(n / 10) + [DigitChar(n % 10)];
      assert s[..|s| - 1] == NatText(n / 10);
      s
  }

  /** `int.ToString()` with the invariant negative sign. */
  function DecimalText(n: int): string {
    if n < 0 then "-" + NatText(-n) else NatText(n)
  }

  /** `n` written with at least `width` digits, padded with leading zeros
      (the `yyyy`, `MM` and `dd` date specifiers). */
  function PadNat(n: nat, width: nat): (s: string)
    ensures AllDigits(s) && |s| >= width
  {
    var t := NatText(n);
    if |t| >= width then t else seq(width - |t|, _ => '0') + t
  }

  /** Leading zeros do not change the value of a digit string. */
  lemma {:induction false} ParseLeadingZeros(z: nat, t: string)
    requires AllDigits(t)
    ensures AllDigits(seq(z, _ => '0') + t)
    ensures ParseDigits(seq(z, _ => '0') + t) == ParseDigits(t) + ParseDigits(seq(z, _ => '0')) * Pow10(|t|)
    ensures ParseDigits(seq(z, _ => '0')) == 0
    decreases |t|
  {
    var zs := seq(z, _ => '0');
    var u := zs + t;
    assert AllDigits(u) by {
      forall i | 0 <= i < |u| ensures IsDigit(u[i]) {
        if i < z { assert u[i] == zs[i]; } else { assert u[i] == t[i - z]; }
      }
    }
    ZerosParseToZero(z);
    if |t| == 0 {
      assert u == zs;
    } else {
      assert u[..|u| - 1] == zs + t[..|t| - 1];
      ParseLeadingZeros(z, t[..|t| - 1]);
    }
  }

  /** A run of zeros has value 0. */
  lemma {:induction false} ZerosParseToZero(z: nat)
    ensures AllDigits(seq(z, _ => '0')) && ParseDigits(seq(z, _ => '0')) == 0
  {
    if z > 0 {
      assert seq(z, _ => '0')[..z - 1] == seq(z - 1, _ => '0');
      ZerosParseToZero(z - 1);
    }
  }

  function Pow10(k: nat): nat {
    if k == 0 then 1 else 10 * Pow10(k - 1)
  }

  /** Zero padding round-trips: the padded text still reads back as `n`. */
  lemma PadNatRoundTrip(n: nat, width: nat)
    ensures ParseDigits(PadNat(n, width)) == n
  {
    var t := NatText(n);
    if |t| < width {
      ParseLeadingZeros(width - |t|, t);
    }
  }

  /** The white space `NumberStyles.Integer` lets surround a number. */
  predicate IsParseSpace(c: char) {
    ('\t' <= c <= '\r') || c == ' '
  }

  /** `s` without its leading and trailing `IsParseSpace` characters. */
  function StripParseSpace(s: string): (r: string)
    ensures |r| <= |s|
    decreases |s|
  {
    if |s| > 0 && IsParseSpace(s[0]) then StripParseSpace(s[1..])
    else if |s| > 0 && IsParseSpace(s[|s| - 1]) then StripParseSpace(s[..|s| - 1])
    else s
  }

  /** The signed value of an optional sign followed by digits, or `None`
      when the text has another shape. */
  function ParseSigned(t: string): (r: Option<int>)
    ensures r.Some? ==> |t| > 0
  {
    if |t| > 0 && (t[0] == '-' || t[0] == '+') then
      var ds := t[1..];
      if |ds| > 0 && AllDigits(ds) then
        Some(if t[0] == '-' then -(ParseDigits(ds) as int) else ParseDigits(ds) as int)
      else None
    else if |t| > 0 && AllDigits(t) then Some(ParseDigits(t))
    else None
  }

  /** `int.TryParse(s, out n)`: `Some(n)` on success, `None` on failure. */
  function TryParseInt32(s: string): (r: Option<int>)
    ensures r.Some? ==> IsInt32(r.value)
  {
    var v := ParseSigned(StripParseSpace(s));
    if v.Some? && IsInt32(v.value) then v else None
  }

  /** The decimal text of any integer reads back as that integer. */
  lemma ParseSignedDecimalText(n: int)
    ensures ParseSigned(StripParseSpace(DecimalText(n))) == Some(n)
  {
    var s := DecimalText(n);
    assert StripParseSpace(s) == s by {
      if n < 0 { assert s[0] == '-'; assert s[|s| - 1] == NatText(-n)[|NatText(-n)| - 1]; }
      else { assert IsDigit(s[0]) && IsDigit(s[|s| - 1]); }
    }
    if n < 0 {
      assert s[1..] == NatText(-n);
    }
  }

  /** Round trip: the decimal text of every 32-bit integer parses back to it. */
  lemma TryParseDecimalText(n: int)
    requires IsInt32(n)
    ensures TryParseInt32(DecimalText(n)) == Some(n)
  {
    ParseSignedDecimalText(n);
  }

  /** Text without any digit never parses. */
  lemma NoDigitsNoNumber(s: string)
    requires forall i | 0 <= i < |s| :: !IsDigit(s[i])
    ensures TryParseInt32(s) == None
  {
    StripIsSlice(s);
  }

  /** Text holding a character that is neither a digit, a sign nor parse
      white space never parses. */
  lemma ForeignCharNoNumber(s: string, k: nat)
    requires k < |s| && !IsDigit(s[k]) && !IsParseSpace(s[k]) && s[k] != '-' && s[k] != '+'
    ensures TryParseInt32(s) == None
  {
    var j := StripKeeps(s, k);
    var t := StripParseSpace(s);
    assert !IsDigit(t[j]);
  }

  /** `StripParseSpace` keeps every character that is not parse white space;
      the result is its position in the stripped text. */
  lemma {:induction false} StripKeeps(s: string, k: nat) returns (j: nat)
    requires k < |s| && !IsParseSpace(s[k])
    ensures j < |StripParseSpace(s)| && StripParseSpace(s)[j] == s[k]
    decreases |s|
  {
    if |s| > 0 && IsParseSpace(s[0]) {
      assert s[1..][k - 1] == s[k];
      j := StripKeeps(s[1..], k - 1);
    } else if |s| > 0 && IsParseSpace(s[|s| - 1]) {
      assert s[..|s| - 1][k] == s[k];
      j := StripKeeps(s[..|s| - 1], k);
    } else {
      j := k;
    }
  }

  /** What `StripParseSpace` keeps is a slice of its input. */
  lemma {:induction false} StripIsSlice(s: string)
    ensures exists a, b | 0 <= a <= b <= |s| :: StripParseSpace(s) == s[a..b]
    decreases |s|
  {
    if |s| > 0 && IsParseSpace(s[0]) {
      StripIsSlice(s[1..]);
      var a, b :| 0 <= a <= b <= |s[1..]| && StripParseSpace(s[1..]) == s[1..][a..b];
      assert s[1..][a..b] == s[a + 1..b + 1];
    } else if |s| > 0 && IsParseSpace(s[|s| - 1]) {
      StripIsSlice(s[..|s| - 1]);
      var a, b :| 0 <= a <= b <= |s[..|s| - 1]| && StripParseSpace(s[..|s| - 1]) == s[..|s| - 1][a..b];
      assert s[..|s| - 1][a..b] == s[a..b];
    } else {
      assert s == s[0..|s|];
    }
  }

  /** Text that denotes a number outside the 32-bit range is rejected. */
  lemma OutOfRangeRejected(n: int)
    requires !IsInt32(n)
    ensures TryParseInt32(DecimalText(n)) == None
  {
    ParseSignedDecimalText(n);
  }
}
