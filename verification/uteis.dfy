/** The `object` coercion helpers of the domain (`Uteis`): mapping empty
    values to the database NULL, and reading nullable database values back. */
module Uteis {
  import opened Wrappers
  import opened Text
  import opened Dates

  /** A boxed .NET value as the helpers see it. `Other` is any runtime type
      the helpers do not single out; it carries its `ToString()` text. */
  datatype Value =
    | Null
    | DBNull
    | Str(s: string)
    | Int(i: int)
    | Date(d: DateTime)
    | Other(text: string)

  /** The values `ToBD` replaces with the database NULL. */
  predicate IsEmptyForDb(v: Value) {
    || v.Null?
    || (v.Str? && IsBlank(v.s))
    || (v.Int? && v.i == 0)
    || (v.Date? && v.d == MinValue)
  }

  /** `Uteis.ToBD`. */
  function ToBD(v: Value): (r: Value)
    ensures r == DBNull || r == v
    ensures r != Null
  {
    if v.Null? then DBNull
    else if v.Str? && IsBlank(v.s) then DBNull
    else if v.Int? && v.i == 0 then DBNull
    else if v.Date? && v.d == MinValue then DBNull
    else v
  }

  /** `ToBD` yields DBNull exactly for null, white-space strings, int 0 and
      `DateTime.MinValue` (and for DBNull itself), and is the identity on
      every other value. */
  lemma ToBDCharacterization(v: Value)
    ensures ToBD(v) == DBNull <==> IsEmptyForDb(v) || v.DBNull?
    ensures !IsEmptyForDb(v) ==> ToBD(v) == v
  {
  }

  /** `ToBD` is idempotent. */
  lemma ToBDIdempotent(v: Value)
    ensures ToBD(ToBD(v)) == ToBD(v)
  {
  }

  /** Why a conversion throws. */
  datatype ConversionError = InvalidCast | BadFormat

  /** `Uteis.ToObject<T>`: null and DBNull become `default(T)`; anything else
      goes through `Convert.ChangeType`, passed in as `changeType` (a failure
      there is the exception it throws). */
  function ToObject<T>(v: Value, defaultT: T, changeType: Value -> Result<T, ConversionError>): (r: Result<T, ConversionError>)
    ensures (v.Null? || v.DBNull?) ==> r == Success(defaultT)
    ensures !(v.Null? || v.DBNull?) ==> r == changeType(v)
  {
    if v.Null? || v.DBNull? then Success(defaultT) else changeType(v)
  }

  /** Writing with `ToBD` and reading back: an empty value reads back as
      `default(T)` and as a null date, any other value reaches the
      conversion unchanged, and a stored date other than `MinValue` reads
      back as itself. */
  lemma ToBDReadBack<T>(v: Value, defaultT: T, changeType: Value -> Result<T, ConversionError>, parseDate: string -> Option<DateTime>)
    ensures IsEmptyForDb(v) ==> ToObject(ToBD(v), defaultT, changeType) == Success(defaultT)
    ensures IsEmptyForDb(v) ==> ToDateTimeNullable(ToBD(v), parseDate) == Success(None)
    ensures !IsEmptyForDb(v) && !v.DBNull? ==> ToObject(ToBD(v), defaultT, changeType) == changeType(v)
    ensures v.Date? ==> ToDateTimeNullable(ToBD(v), parseDate) == if v.d == MinValue then Success(None) else Success(Some(v.d))
  {
    ToBDCharacterization(v);
  }

  /** `Uteis.ToDateTimeNullable`: null and DBNull become null; a date is
      returned as it is; text goes through `Convert.ToDateTime`, whose
      culture-dependent parser is passed in as `parseDate`; an int or any other
      value is an invalid cast. */
  function ToDateTimeNullable(v: Value, parseDate: string -> Option<DateTime>): (r: Result<Option<DateTime>, ConversionError>)
    ensures (v.Null? || v.DBNull?) <==> r == Success(None)
    ensures v.Date? ==> r == Success(Some(v.d))
    ensures (v.Int? || v.Other?) ==> r.Failure?
  {
    match v
    case Null => Success(None)
    case DBNull => Success(None)
    case Date(d) => Success(Some(d))
    case Str(s) =>
      (match parseDate(s)
       case Some(d) => Success(Some(d))
       case None => Failure(BadFormat))
    case Int(_) => Failure(InvalidCast)
    case Other(_) => Failure(InvalidCast)
  }
}
