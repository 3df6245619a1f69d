/** `DataReaderExtensions`: null-safe reads of boxed database values. */
module DataReaderExtensions {
  import opened Wrappers
  import opened Numbers
  import opened Dates
  import opened Uteis

  /** `ToString()` of a non-null value. `DBNull.ToString()` is "". A date is
      rendered with the general pattern of the pt-BR culture the application
      sets, `dd/MM/yyyy HH:mm:ss`. */
  function ValueText(v: Value): string
    requires !v.Null?
  {
    match v
    case DBNull => ""
    case Str(s) => s
    case Int(i) => DecimalText(i)
    case Date(d) => GeneralText(d)
    case Other(t) => t
  }

  /** `DataReaderExtensions.ToIntNullable`. */
  function ToIntNullable(v: Value): (r: Option<int>)
    ensures (v.Null? || v.DBNull?) ==> r == None
    ensures r.Some? ==> IsInt32(r.value)
    ensures v.Date? ==> r == None
  {
    if v.Null? || v.DBNull? then None
    else if v.Date? then
      var s := GeneralText(v.d);
      var k :| 0 <= k < |s| && s[k] == '/';
      ForeignCharNoNumber(s, k);
      TryParseInt32(s)
    else TryParseInt32(ValueText(v))
  }

  /** Round trip: the decimal text of any 32-bit integer, boxed as text or as
      an int, reads back as that integer. */
  lemma ToIntNullableRoundTrip(n: int)
    requires IsInt32(n)
    ensures ToIntNullable(Str(DecimalText(n))) == Some(n)
    ensures ToIntNullable(Int(n)) == Some(n)
  {
    TryParseDecimalText(n);
  }

  /** A number outside the 32-bit range reads as null. */
  lemma ToIntNullableOutOfRange(n: int)
    requires !IsInt32(n)
    ensures ToIntNullable(Str(DecimalText(n))) == None
    ensures ToIntNullable(Other(DecimalText(n))) == None
  {
    OutOfRangeRejected(n);
  }

  /** Text with no digit at all (non-numeric text) reads as null. */
  lemma ToIntNullableNonNumeric(s: string)
    requires forall i | 0 <= i < |s| :: !IsDigit(s[i])
    ensures ToIntNullable(Str(s)) == None
  {
    NoDigitsNoNumber(s);
  }

  /** `DataReaderExtensions.ToStringSafe`: "" for null, otherwise the text. */
  function ToStringSafe(v: Value): (r: string)
    ensures v.Null? ==> r == ""
    ensures v.Str? ==> r == v.s
    ensures v.Int? ==> r == DecimalText(v.i)
    ensures v.Date? ==> r == GeneralText(v.d)
  {
    if v.Null? then "" else ValueText(v)
  }

  /** `ToStringSafe` and `ToIntNullable` read a non-null value through the
      same text, so the safe text of an int reads back as that int, and a
      null reads as "" and as null. */
  lemma ToStringSafeReadsBack(v: Value, n: int)
    requires IsInt32(n)
    ensures !v.Null? && !v.DBNull? ==> ToIntNullable(v) == TryParseInt32(ToStringSafe(v))
    ensures ToIntNullable(Str(ToStringSafe(Int(n)))) == Some(n)
    ensures ToStringSafe(Null) == "" && ToIntNullable(Null) == None
  {
    ToIntNullableRoundTrip(n);
  }
}
