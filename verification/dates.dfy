/** `System.DateTime` reduced to what the application observes: the calendar
    fields, a time-of-day component, the `default`/`MinValue` instant and the
    two date patterns the reports print. */
module Dates {
  import opened Numbers

  datatype DateTime = DateTime(year: nat, month: nat, day: nat, timeOfDayTicks: nat)

  /** `DateTime.MinValue`, which is also `default(DateTime)`. */
  const MinValue: DateTime := DateTime(1, 1, 1, 0)

  predicate IsDefault(d: DateTime) {
    d == MinValue
  }

  /** The calendar fields fit the fixed-width patterns. */
  predicate InPatternRange(d: DateTime) {
    1 <= d.year <= 9999 && 1 <= d.month <= 12 && 1 <= d.day <= 31
  }

  /** `ToString("yyyy-MM-dd")`. */
  function IsoDate(d: DateTime): (s: string)
    ensures InPatternRange(d) ==> |s| == 10 && s[4] == '-' && s[7] == '-'
    ensures InPatternRange(d) ==> AllDigits(s[..4]) && ParseDigits(s[..4]) == d.year
    ensures InPatternRange(d) ==> AllDigits(s[5..7]) && ParseDigits(s[5..7]) == d.month
    ensures InPatternRange(d) ==> AllDigits(s[8..]) && ParseDigits(s[8..]) == d.day
  {
    var y, m, dd := PadNat(d.year, 4), PadNat(d.month, 2), PadNat(d.day, 2);
    var s := y + "-" + m + "-" + dd;
    if InPatternRange(d) then
      PadWidth(d.year, 4, 9999);
      PadWidth(d.month, 2, 99);
      PadWidth(d.day, 2, 99);
      PadNatRoundTrip(d.year, 4);
      PadNatRoundTrip(d.month, 2);
      PadNatRoundTrip(d.day, 2);
      assert s[..4] == y && s[5..7] == m && s[8..] == dd;
      s
    else s
  }

  /** `ToString("dd/MM/yyyy")`. */
  function BrDate(d: DateTime): (s: string)
    ensures InPatternRange(d) ==> |s| == 10 && s[2] == '/' && s[5] == '/'
    ensures InPatternRange(d) ==> AllDigits(s[..2]) && ParseDigits(s[..2]) == d.day
    ensures InPatternRange(d) ==> AllDigits(s[3..5]) && ParseDigits(s[3..5]) == d.month
    ensures InPatternRange(d) ==> AllDigits(s[6..]) && ParseDigits(s[6..]) == d.year
  {
    var dd, m, y := PadNat(d.day, 2), PadNat(d.month, 2), PadNat(d.year, 4);
    var s := dd + "/" + m + "/" + y;
    if InPatternRange(d) then
      PadWidth(d.year, 4, 9999);
      PadWidth(d.month, 2, 99);
      PadWidth(d.day, 2, 99);
      PadNatRoundTrip(d.year, 4);
      PadNatRoundTrip(d.month, 2);
      PadNatRoundTrip(d.day, 2);
      assert s[..2] == dd && s[3..5] == m && s[6..] == y;
      s
    else s
  }

  const TicksPerSecond: nat := 10_000_000
  const SecondsPerDay: nat := 86_400

  /** `ToString("HH:mm:ss")` of the time of day (ticks are 100 ns). Within a
      day the three two-digit fields give back the elapsed whole seconds. */
  function ClockText(d: DateTime): (s: string)
    ensures d.timeOfDayTicks < SecondsPerDay * TicksPerSecond ==>
      |s| == 8 && s[2] == ':' && s[5] == ':' && AllDigits(s[..2]) && AllDigits(s[3..5]) && AllDigits(s[6..]) &&
      ParseDigits(s[..2]) * 3600 + ParseDigits(s[3..5]) * 60 + ParseDigits(s[6..]) == d.timeOfDayTicks / TicksPerSecond
  {
    var secs := d.timeOfDayTicks / TicksPerSecond;
    var s := Fields(secs / 3600, secs / 60 % 60, secs % 60);
    if d.timeOfDayTicks < SecondsPerDay * TicksPerSecond then
      ClockFields(secs);
      s
    else s
  }

  /** Three numbers as `HH:mm:ss`-style fields. */
  function Fields(h: nat, m: nat, sec: nat): (s: string)
    ensures h <= 99 && m <= 99 && sec <= 99 ==>
      |s| == 8 && s[2] == ':' && s[5] == ':' && AllDigits(s[..2]) && AllDigits(s[3..5]) && AllDigits(s[6..]) &&
      ParseDigits(s[..2]) == h && ParseDigits(s[3..5]) == m && ParseDigits(s[6..]) == sec
  {
    var a, b, c := PadNat(h, 2), PadNat(m, 2), PadNat(sec, 2);
    var s := a + ":" + b + ":" + c;
    if h <= 99 && m <= 99 && sec <= 99 then
      PadWidth(h, 2, 99);
      PadWidth(m, 2, 99);
      PadWidth(sec, 2, 99);
      PadNatRoundTrip(h, 2);
      PadNatRoundTrip(m, 2);
      PadNatRoundTrip(sec, 2);
      assert s[..2] == a && s[3..5] == b && s[6..] == c;
      s
    else s
  }

  /** Hours, minutes and seconds of a second count within one day. */
  lemma ClockFields(secs: nat)
    requires secs < SecondsPerDay
    ensures secs / 3600 <= 23 && secs / 60 % 60 <= 59 && secs % 60 <= 59
    ensures secs / 3600 * 3600 + secs / 60 % 60 * 60 + secs % 60 == secs
  {
    var q := secs / 60;
    assert secs == 60 * q + secs % 60;
    assert q == 60 * (q / 60) + q % 60;
    assert q / 60 == secs / 3600;
  }

  /** `ToString()` under the pt-BR culture the application runs in:
      `dd/MM/yyyy HH:mm:ss`. The text always holds a `/`. */
  function GeneralText(d: DateTime): (s: string)
    ensures |s| > |BrDate(d)| && s[..|BrDate(d)|] == BrDate(d) && s[|BrDate(d)|] == ' '
    ensures s[|BrDate(d)| + 1..] == ClockText(d)
    ensures exists k | 0 <= k < |s| :: s[k] == '/'
  {
    var b := BrDate(d);
    var dd := PadNat(d.day, 2);
    assert b == dd + "/" + PadNat(d.month, 2) + "/" + PadNat(d.year, 4);
    assert b[|dd|] == '/';
    var s := b + " " + ClockText(d);
    assert s[|dd|] == '/';
    s
  }

  /** A number below `10^width` is padded to exactly `width` digits. */
  lemma PadWidth(n: nat, width: nat, bound: nat)
    requires 1 <= width <= 4 && bound + 1 == Pow10(width) && n <= bound
    ensures |PadNat(n, width)| == width
  {
    NatTextLength(n, width);
  }

  /** The decimal text of a number below `10^k` has at most `k` digits. */
  lemma {:induction false} NatTextLength(n: nat, k: nat)
    requires 1 <= k && n < Pow10(k)
    ensures |NatText(n)| <= k
  {
    if n >= 10 {
      NatTextLength(n / 10, k - 1);
    }
  }
}
