/**
 * Civil UTC date-times and the compact timestamp "20060102150405" (Go
 * reference layout: year, month, day, hour, minute, second, no separators)
 * that prefixes every shared folder's name: how time.Time.Format writes it,
 * how time.Parse reads it back, and the Unix instant it denotes.
 */
module Clock {
  import opened Wrappers
  import opened Text

  const NanosPerSecond: int := 1_000_000_000
  const SecondsPerDay: int := 86400

  datatype DateTime = DateTime(year: int, month: int, day: int, hour: int, minute: int, second: int)

  /** The Gregorian leap-year rule. */
  predicate IsLeap(year: int) {
    year % 4 == 0 && (year % 100 != 0 || year % 400 == 0)
  }

  function DaysIn(month: int, year: int): (n: int)
    requires 1 <= month <= 12
    ensures 28 <= n <= 31
    ensures month == 2 ==> (n == 29 <==> IsLeap(year))
  {
    if month == 2 then (if IsLeap(year) then 29 else 28)
    else if month == 4 || month == 6 || month == 9 || month == 11 then 30
    else 31
  }

  /** A calendar reading of a UTC clock: every field within its range. */
  predicate Valid(t: DateTime) {
    && 1 <= t.month <= 12
    && 1 <= t.day <= DaysIn(t.month, t.year)
    && 0 <= t.hour < 24 && 0 <= t.minute < 60 && 0 <= t.second < 60
  }

  // ---------------------------------------------------------------------
  // Days since 1970-01-01 (proleptic Gregorian calendar)
  // ---------------------------------------------------------------------

  /** Days from 1970-01-01 to the given date, counting through 400-year eras. */
  function DaysFromCivil(year: int, month: int, day: int): int
    requires 1 <= month <= 12
  {
    var y := if month <= 2 then year - 1 else year;
    var era := y / 400;
    var yoe := y - era * 400;
    var mp := if month > 2 then month - 3 else month + 9;
    var doy := (153 * mp + 2) / 5 + day - 1;
    var doe := yoe * 365 + yoe / 4 - yoe / 100 + doy;
    era * 146097 + doe - 719468
  }

  /** Seconds since the Unix epoch (time.Time.Unix) of a UTC reading. */
  function ToUnix(t: DateTime): (secs: int)
    requires Valid(t)
    ensures secs % SecondsPerDay == t.hour * 3600 + t.minute * 60 + t.second
  {
    var days := DaysFromCivil(t.year, t.month, t.day);
    var sod := t.hour * 3600 + t.minute * 60 + t.second;
    DayPlusSeconds(days, sod);
    days * SecondsPerDay + sod
  }

  lemma DayPlusSeconds(days: int, sod: int)
    requires 0 <= sod < SecondsPerDay
    ensures (days * SecondsPerDay + sod) % SecondsPerDay == sod
    ensures (days * SecondsPerDay + sod) / SecondsPerDay == days
  {
  }

  lemma EpochIsZero()
    ensures ToUnix(DateTime(1970, 1, 1, 0, 0, 0)) == 0
  {
  }

  /** Within a month, the next day is one day later. */
  lemma NextDayInMonth(year: int, month: int, day: int)
    requires 1 <= month <= 12 && 1 <= day < DaysIn(month, year)
    ensures DaysFromCivil(year, month, day + 1) == DaysFromCivil(year, month, day) + 1
  {
  }

  /** Days before March 1 of year y + 1 counted from era 0, as DaysFromCivil accumulates them. */
  function YearStart(y: int): int {
    var era := y / 400;
    EraYearStart(era, y - era * 400)
  }

  /** The same count for year of era yoe of a 400-year era. */
  function EraYearStart(era: int, yoe: int): int {
    era * 146097 + yoe * 365 + yoe / 4 - yoe / 100
  }

  /** Consecutive March-based years differ by the length of the year holding the February. */
  lemma YearStartStep(y: int)
    ensures YearStart(y) - YearStart(y - 1) == if IsLeap(y) then 366 else 365
  {
    var era := y / 400;
    var yoe := y - era * 400;
    EraSplit(y, era, yoe);
    if yoe == 0 {
      EraSplit(y - 1, era - 1, 399);
    } else {
      EraSplit(y - 1, era, yoe - 1);
      EraStep(era, yoe);
    }
  }

  /** Within an era, one year of era more adds a year's length. */
  lemma EraStep(era: int, yoe: int)
    requires 0 < yoe < 400
    ensures EraYearStart(era, yoe) - EraYearStart(era, yoe - 1) == if yoe % 4 == 0 && yoe % 100 != 0 then 366 else 365
  {
    DivStep(yoe);
  }

  /** YearStart and the leap-year rule of a year given as its era and year of era. */
  lemma EraSplit(y: int, era: int, yoe: int)
    requires 0 <= yoe < 400 && y == era * 400 + yoe
    ensures YearStart(y) == EraYearStart(era, yoe)
    ensures IsLeap(y) <==> yoe % 4 == 0 && (yoe % 100 != 0 || yoe == 0)
  {
    assert y / 400 == era;
    assert y % 4 == yoe % 4 by { assert y == (era * 100 + yoe / 4) * 4 + yoe % 4; }
    assert y % 100 == yoe % 100 by { assert y == (era * 4 + yoe / 100) * 100 + yoe % 100; }
  }

  /** Going from a - 1 to a adds one leap day exactly at a multiple of 4, and drops one at a multiple of 100. */
  lemma DivStep(a: int)
    ensures a / 4 - (a - 1) / 4 == if a % 4 == 0 then 1 else 0
    ensures a / 100 - (a - 1) / 100 == if a % 100 == 0 then 1 else 0
  {
  }

  /** The last day of a month is followed by the first day of the next month. */
  lemma NextMonth(year: int, month: int)
    requires 1 <= month < 12
    ensures DaysFromCivil(year, month + 1, 1) == DaysFromCivil(year, month, DaysIn(month, year)) + 1
  {
    CivilDays(year, month, DaysIn(month, year));
    CivilDays(year, month + 1, 1);
    if month == 2 {
      YearStartStep(year);
    }
  }

  /** DaysFromCivil as the March-based year's start plus the day's place in that year. */
  lemma CivilDays(year: int, month: int, day: int)
    requires 1 <= month <= 12
    ensures DaysFromCivil(year, month, day)
         == YearStart(if month <= 2 then year - 1 else year) + MonthStart(month) + day - 1 - 719468
  {
  }

  /** Days from March 1 to the first of the month. */
  function MonthStart(month: int): int
    requires 1 <= month <= 12
  {
    var mp := if month > 2 then month - 3 else month + 9;
    (153 * mp + 2) / 5
  }

  /** December 31 is followed by January 1 of the next year. */
  lemma NextYear(year: int)
    ensures DaysFromCivil(year + 1, 1, 1) == DaysFromCivil(year, 12, 31) + 1
  {
  }

  /** Nanoseconds since the Unix epoch of a reading with a sub-second part. */
  function UnixNanos(t: DateTime, nanos: nat): int
    requires Valid(t)
  {
    ToUnix(t) * NanosPerSecond + nanos
  }

  // ---------------------------------------------------------------------
  // Format
  // ---------------------------------------------------------------------

  /** A year as time.Format writes "2006": at least four digits, '-' for a negative year. */
  function YearField(year: int): (s: string)
    ensures 0 <= year < 10000 ==> |s| == 4 && AllDigits(s) && DigitsValue(s, 0) == year
    ensures year < 0 ==> |s| > 0 && s[0] == '-'
  {
    assert Pow10(4) == 10000;
    if year < 0 then "-" + Pad(-year, 4)
    else if year < 10000 then PadRoundTrip(year, 4); Pad(year, 4)
    else Pad(year, 4)
  }

  function TwoDigits(n: nat): (s: string)
    requires n < 100
    ensures |s| == 2 && AllDigits(s) && DigitsValue(s, 0) == n
  {
    assert Pow10(2) == 100;
    PadRoundTrip(n, 2);
    Pad(n, 2)
  }

  /** t.Format("20060102150405") on a UTC time. */
  function FormatTimestamp(t: DateTime): (s: string)
    requires Valid(t)
    ensures 0 <= t.year < 10000 ==> |s| == 14 && AllDigits(s)
  {
    YearField(t.year) + TwoDigits(t.month) + TwoDigits(t.day)
    + TwoDigits(t.hour) + TwoDigits(t.minute) + TwoDigits(t.second)
  }

  // ---------------------------------------------------------------------
  // Parse
  // ---------------------------------------------------------------------

  /**
   * The fractional-seconds suffix time.Parse accepts after the seconds field
   * although the layout has none: '.' or ',' and one or more digits, of
   * which the first nine give the nanoseconds (and the rest are skipped).
   * Returns the nanoseconds and the text after the suffix.
   */
  function FractionSuffix(v: string): (r: (nat, string))
    ensures r.0 < NanosPerSecond
    ensures |r.1| <= |v| && r.1 == v[|v| - |r.1|..]
    ensures !(|v| >= 2 && (v[0] == '.' || v[0] == ',') && IsDigit(v[1])) ==> r == (0, v)
  {
    if |v| >= 2 && (v[0] == '.' || v[0] == ',') && IsDigit(v[1]) then
      var n := DigitRun(v[1..]);
      var used := if n > 9 then 9 else n;
      var digits := v[1..][..used];
      var nanos := DigitsValue(digits, 0) * Pow10(9 - used);
      FractionBound(digits, 9 - used);
      (nanos, v[1 + n..])
    else (0, v)
  }

  lemma FractionBound(digits: string, k: nat)
    requires AllDigits(digits) && |digits| + k == 9
    ensures DigitsValue(digits, 0) * Pow10(k) < NanosPerSecond
  {
    DigitsValueBelow(digits, 0);
    PowAdd(|digits|, k);
    assert Pow10(9) == NanosPerSecond;
    MulLess(DigitsValue(digits, 0), Pow10(|digits|), Pow10(k));
  }

  lemma MulLess(a: nat, b: nat, c: nat)
    requires a < b && c >= 1
    ensures a * c < b * c
  {
  }

  lemma {:induction false} DigitsValueBelow(ds: string, acc: nat)
    requires AllDigits(ds)
    ensures DigitsValue(ds, acc) < (acc + 1) * Pow10(|ds|)
    decreases |ds|
  {
    if ds != [] {
      var acc' := acc * 10 + DigitValue(ds[0]);
      var p := Pow10(|ds| - 1);
      assert DigitsValue(ds, acc) == DigitsValue(ds[1..], acc');
      DigitsValueBelow(ds[1..], acc');
      assert acc' + 1 <= (acc + 1) * 10;
      MulLe(acc' + 1, (acc + 1) * 10, p);
      assert Pow10(|ds|) == 10 * p;
      MulAssoc(acc + 1, 10, p);
    }
  }

  lemma MulLe(a: nat, b: nat, c: nat)
    requires a <= b
    ensures a * c <= b * c
  {
  }

  lemma MulAssoc(a: int, b: int, c: int)
    ensures a * b * c == a * (b * c)
  {
  }

  lemma {:induction false} PowAdd(a: nat, b: nat)
    ensures Pow10(a) * Pow10(b) == Pow10(a + b)
  {
    if a > 0 {
      PowAdd(a - 1, b);
    }
  }

  /**
   * time.Parse("20060102150405", s): exactly fourteen digits (year, month,
   * day, hour, minute, second) with every field in range, the day checked
   * against the month's length, then an optional fractional-seconds suffix
   * and no other text. Returns the reading and its nanoseconds.
   */
  function ParseTimestamp(s: string): (r: Option<(DateTime, nat)>)
    ensures r.Some? ==> Valid(r.value.0) && 0 <= r.value.0.year < 10000 && r.value.1 < NanosPerSecond
    ensures r.Some? ==> |s| >= 14 && AllDigits(s[..14])
  {
    if |s| < 14 || !AllDigits(s[..14]) then None
    else
      var t := DateTime(
        DigitsValue(s[0..4], 0), DigitsValue(s[4..6], 0), DigitsValue(s[6..8], 0),
        DigitsValue(s[8..10], 0), DigitsValue(s[10..12], 0), DigitsValue(s[12..14], 0));
      DigitsValueBelow(s[0..4], 0);
      assert Pow10(4) == 10000;
      if !(1 <= t.month <= 12) || !(t.hour < 24) || !(t.minute < 60) || !(t.second < 60) then None
      else if !(1 <= t.day <= DaysIn(t.month, t.year)) then None
      else
        var (nanos, rest) := FractionSuffix(s[14..]);
        if rest != [] then None else Some((t, nanos))
  }

  /** A timestamp written for a year 0..9999 reads back as the same reading with no fraction. */
  lemma ParseFormatTimestamp(t: DateTime)
    requires Valid(t) && 0 <= t.year < 10000
    ensures ParseTimestamp(FormatTimestamp(t)) == Some((t, 0))
  {
    var s := FormatTimestamp(t);
    var y, mo, d, h, mi, se := YearField(t.year), TwoDigits(t.month), TwoDigits(t.day),
      TwoDigits(t.hour), TwoDigits(t.minute), TwoDigits(t.second);
    assert s == y + mo + d + h + mi + se;
    assert s[..14] == s;
    assert s[0..4] == y;
    assert s[4..6] == mo;
    assert s[6..8] == d;
    assert s[8..10] == h;
    assert s[10..12] == mi;
    assert s[12..14] == se;
    assert s[14..] == [];
  }

  /** Appending anything but a fractional-seconds suffix makes the timestamp unreadable. */
  lemma ExtraTextRejected(t: DateTime, extra: string)
    requires Valid(t) && 0 <= t.year < 10000
    requires extra != [] && (extra[0] != '.' && extra[0] != ',')
    ensures ParseTimestamp(FormatTimestamp(t) + extra) == None
  {
    var s := FormatTimestamp(t) + extra;
    assert s[14..] == extra;
  }
}
