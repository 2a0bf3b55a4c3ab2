/** Naive `datetime` values: the fields, their validity, the ISO-8601 text
    form written by `isoformat()` and read by `fromisoformat()`, the
    `strftime` patterns the program uses, and the chronological order. */
module Timestamps {
  import opened Text
  import opened Decimal
  import opened Wrappers

  datatype Moment = Moment(year: int, month: int, day: int,
                           hour: int, minute: int, second: int, microsecond: int)

  predicate IsLeapYear(y: int) {
    y % 4 == 0 && (y % 100 != 0 || y % 400 == 0)
  }

  function DaysInMonth(y: int, m: int): int
    requires 1 <= m <= 12
  {
    if m == 2 then (if IsLeapYear(y) then 29 else 28)
    else if m == 4 || m == 6 || m == 9 || m == 11 then 30
    else 31
  }

  /** The ranges `datetime` enforces on its fields. */
  predicate Valid(t: Moment) {
    && 1 <= t.year <= 9999
    && 1 <= t.month <= 12
    && 1 <= t.day <= DaysInMonth(t.year, t.month)
    && 0 <= t.hour < 24
    && 0 <= t.minute < 60
    && 0 <= t.second < 60
    && 0 <= t.microsecond < 1000000
  }

  type DateTime = t: Moment | Valid(t) witness Moment(1, 1, 1, 0, 0, 0, 0)

  /** `strftime('%Y-%m-%d')`, also the first ten characters of `isoformat()`. */
  function DateString(t: DateTime): String {
    Digits(t.year, 4) + "-" + Digits(t.month, 2) + "-" + Digits(t.day, 2)
  }

  function TimeString(t: DateTime): String {
    Digits(t.hour, 2) + ":" + Digits(t.minute, 2) + ":" + Digits(t.second, 2)
  }

  /** `strftime('%Y%m%d%H%M%S')`. */
  function CompactStamp(t: DateTime): (r: String)
    ensures |r| == 14 && AllChars(r, IsDigit)
  {
    Digits(t.year, 4) + Digits(t.month, 2) + Digits(t.day, 2)
      + Digits(t.hour, 2) + Digits(t.minute, 2) + Digits(t.second, 2)
  }

  /** `isoformat()`: the fraction is written only when it is not zero. */
  function IsoFormat(t: DateTime): (r: String)
    ensures |r| == 19 || |r| == 26
  {
    DateString(t) + "T" + TimeString(t)
      + (if t.microsecond == 0 then "" else "." + Digits(t.microsecond, 6))
  }

  predicate DigitsAt(s: String, lo: nat, hi: nat)
    requires lo <= hi <= |s|
  {
    AllChars(s[lo..hi], IsDigit)
  }

  function FieldAt(s: String, lo: nat, hi: nat): nat
    requires lo <= hi <= |s| && DigitsAt(s, lo, hi)
  {
    ParseDigits(s[lo..hi])
  }

  /** `fromisoformat()` on the two shapes `isoformat()` produces; None where
      Python raises ValueError. */
  function FromIsoFormat(s: String): (r: Option<DateTime>)
    ensures r.Some? ==> |s| == 19 || |s| == 26
  {
    if !(|s| == 19 || (|s| == 26 && s[19] == '.')) then None
    else if !(s[4] == '-' && s[7] == '-' && s[10] == 'T' && s[13] == ':' && s[16] == ':') then None
    else if !(DigitsAt(s, 0, 4) && DigitsAt(s, 5, 7) && DigitsAt(s, 8, 10)
              && DigitsAt(s, 11, 13) && DigitsAt(s, 14, 16) && DigitsAt(s, 17, 19)
              && (|s| == 26 ==> DigitsAt(s, 20, 26))) then None
    else
      var m := Moment(FieldAt(s, 0, 4), FieldAt(s, 5, 7), FieldAt(s, 8, 10),
                      FieldAt(s, 11, 13), FieldAt(s, 14, 16), FieldAt(s, 17, 19),
                      if |s| == 26 then FieldAt(s, 20, 26) else 0);
      if Valid(m) then Some(m) else None
  }

  lemma DateStringFields(t: DateTime)
    ensures var d := DateString(t);
      && |d| == 10 && d[4] == '-' && d[7] == '-'
      && d[0..4] == Digits(t.year, 4) && d[5..7] == Digits(t.month, 2) && d[8..10] == Digits(t.day, 2)
  {
  }

  lemma TimeStringFields(t: DateTime)
    ensures var d := TimeString(t);
      && |d| == 8 && d[2] == ':' && d[5] == ':'
      && d[0..2] == Digits(t.hour, 2) && d[3..5] == Digits(t.minute, 2) && d[6..8] == Digits(t.second, 2)
  {
  }

  /** The digits of the date fields read back as the fields. */
  lemma IsoDateParse(t: DateTime, s: String)
    requires s == IsoFormat(t)
    ensures s[4] == '-' && s[7] == '-' && s[10] == 'T'
    ensures DigitsAt(s, 0, 4) && FieldAt(s, 0, 4) == t.year
    ensures DigitsAt(s, 5, 7) && FieldAt(s, 5, 7) == t.month
    ensures DigitsAt(s, 8, 10) && FieldAt(s, 8, 10) == t.day
  {
    var d := DateString(t);
    DateStringFields(t);
    assert s[..10] == d;
    assert s[0..4] == d[0..4] && s[5..7] == d[5..7] && s[8..10] == d[8..10];
    ParseDigitsOfDigits(t.year, 4);
    ParseDigitsOfDigits(t.month, 2);
    ParseDigitsOfDigits(t.day, 2);
  }

  /** The digits of the time-of-day fields read back as the fields. */
  lemma IsoTimeParse(t: DateTime, s: String)
    requires s == IsoFormat(t)
    ensures s[13] == ':' && s[16] == ':'
    ensures DigitsAt(s, 11, 13) && FieldAt(s, 11, 13) == t.hour
    ensures DigitsAt(s, 14, 16) && FieldAt(s, 14, 16) == t.minute
    ensures DigitsAt(s, 17, 19) && FieldAt(s, 17, 19) == t.second
  {
    var tm := TimeString(t);
    DateStringFields(t);
    TimeStringFields(t);
    assert s[11..19] == tm;
    assert s[11..13] == tm[0..2] && s[14..16] == tm[3..5] && s[17..19] == tm[6..8];
    ParseDigitsOfDigits(t.hour, 2);
    ParseDigitsOfDigits(t.minute, 2);
    ParseDigitsOfDigits(t.second, 2);
  }

  /** The fraction is present exactly when the microseconds are not zero. */
  lemma IsoFractionParse(t: DateTime, s: String)
    requires s == IsoFormat(t)
    ensures |s| == 26 <==> t.microsecond != 0
    ensures |s| == 26 ==> s[19] == '.' && DigitsAt(s, 20, 26) && FieldAt(s, 20, 26) == t.microsecond
  {
    var f := if t.microsecond == 0 then "" else "." + Digits(t.microsecond, 6);
    assert s == DateString(t) + "T" + TimeString(t) + f;
    DateStringFields(t);
    TimeStringFields(t);
    assert s[19..] == f;
    if t.microsecond != 0 {
      assert s[20..26] == f[1..];
      ParseDigitsOfDigits(t.microsecond, 6);
    }
  }

  /** Decoding what `isoformat()` wrote gives back the same instant. */
  lemma IsoRoundTrip(t: DateTime)
    ensures FromIsoFormat(IsoFormat(t)) == Some(t)
  {
    var s := IsoFormat(t);
    IsoDateParse(t, s);
    IsoTimeParse(t, s);
    IsoFractionParse(t, s);
  }

  /** Days counted on a calendar of 12 months of 31 days; gaps do not
      matter for ordering. */
  function DayIndex(t: DateTime): int {
    (t.year * 12 + (t.month - 1)) * 31 + (t.day - 1)
  }

  function MicrosOfDay(t: DateTime): int {
    ((t.hour * 60 + t.minute) * 60 + t.second) * 1000000 + t.microsecond
  }

  const MicrosPerDay: int := 86400000000

  /** A key that orders instants chronologically (the comparison of
      `datetime` objects). */
  function OrderKey(t: DateTime): int {
    DayIndex(t) * MicrosPerDay + MicrosOfDay(t)
  }

  /** Field-by-field comparison of the date, then of the time of day, as
      `datetime.__le__` does it. */
  predicate DateLt(a: Moment, b: Moment) {
    if a.year != b.year then a.year < b.year
    else if a.month != b.month then a.month < b.month
    else a.day < b.day
  }

  predicate TimeLe(a: Moment, b: Moment) {
    if a.hour != b.hour then a.hour < b.hour
    else if a.minute != b.minute then a.minute < b.minute
    else if a.second != b.second then a.second < b.second
    else a.microsecond <= b.microsecond
  }

  predicate LexLe(a: Moment, b: Moment) {
    DateLt(a, b) || (a.year == b.year && a.month == b.month && a.day == b.day && TimeLe(a, b))
  }

  lemma MixedRadix(x1: int, d1: int, x2: int, d2: int, base: int)
    requires 0 <= d1 < base && 0 <= d2 < base
    ensures x1 * base + d1 <= x2 * base + d2 <==> x1 < x2 || (x1 == x2 && d1 <= d2)
    ensures x1 * base + d1 == x2 * base + d2 <==> x1 == x2 && d1 == d2
  {
    if x1 < x2 {
      assert x1 * base + d1 < (x1 + 1) * base <= x2 * base;
    } else if x1 > x2 {
      assert x2 * base + d2 < (x2 + 1) * base <= x1 * base;
    }
  }

  lemma DayIndexOrder(a: DateTime, b: DateTime)
    ensures DayIndex(a) < DayIndex(b) <==> DateLt(a, b)
    ensures DayIndex(a) == DayIndex(b) <==> a.year == b.year && a.month == b.month && a.day == b.day
  {
    MixedRadix(a.year, a.month - 1, b.year, b.month - 1, 12);
    MixedRadix(a.year * 12 + (a.month - 1), a.day - 1, b.year * 12 + (b.month - 1), b.day - 1, 31);
  }

  lemma MicrosOfDayOrder(a: DateTime, b: DateTime)
    ensures 0 <= MicrosOfDay(a) < MicrosPerDay
    ensures MicrosOfDay(a) <= MicrosOfDay(b) <==> TimeLe(a, b)
    ensures MicrosOfDay(a) == MicrosOfDay(b) <==>
              (a.hour == b.hour && a.minute == b.minute && a.second == b.second && a.microsecond == b.microsecond)
  {
    MixedRadix(a.hour, a.minute, b.hour, b.minute, 60);
    MixedRadix(a.hour * 60 + a.minute, a.second, b.hour * 60 + b.minute, b.second, 60);
    MixedRadix((a.hour * 60 + a.minute) * 60 + a.second, a.microsecond,
               (b.hour * 60 + b.minute) * 60 + b.second, b.microsecond, 1000000);
  }

  /** The key orders instants exactly as `datetime` comparison does, and
      distinct instants have distinct keys. */
  lemma OrderKeyMatchesComparison(a: DateTime, b: DateTime)
    ensures OrderKey(a) <= OrderKey(b) <==> LexLe(a, b)
    ensures OrderKey(a) == OrderKey(b) <==> a == b
  {
    DayIndexOrder(a, b);
    MicrosOfDayOrder(a, b);
    MicrosOfDayOrder(b, a);
    MixedRadix(DayIndex(a), MicrosOfDay(a), DayIndex(b), MicrosOfDay(b), MicrosPerDay);
  }
}
