/** How the Python scan reads a timestamp: it drops the last six characters
    (the `+HH:MM` UTC offset) and parses the rest with the format
    `%Y-%m-%dT%H:%M:%S`, giving a naive datetime compared field by field. */
module Timestamps {
  import opened Wrappers

  /** A naive datetime, as `datetime.strptime` returns it. */
  datatype DateTime = DateTime(year: int, month: int, day: int, hour: int, minute: int, second: int)

  /** The `ValueError` strptime raises for text it cannot read. */
  datatype ParseError = ValueError(text: string)

  /** Python's `stamp[:-6]`: everything but the offset; empty for short text. */
  function WallClock(stamp: string): (w: string)
    ensures |stamp| >= 6 ==> |w| == |stamp| - 6 && stamp == w + stamp[|w|..]
    ensures |stamp| < 6 ==> w == ""
  {
    if |stamp| >= 6 then stamp[..|stamp| - 6] else ""
  }

  predicate IsDigit(c: char) {
    '0' <= c <= '9'
  }

  /** Every character is a decimal digit (checked from the last one back). */
  predicate AllDigits(s: string) {
    |s| == 0 || (IsDigit(s[|s| - 1]) && AllDigits(s[..|s| - 1]))
  }

  function Pow10(n: nat): (p: nat)
    ensures p >= 1
  {
    if n == 0 then 1 else 10 * Pow10(n - 1)
  }

  /** The number a string of decimal digits spells. */
  function DigitsValue(s: string): (n: nat)
    requires AllDigits(s)
    ensures n < Pow10(|s|)
  {
    if |s| == 0 then 0 else DigitsValue(s[..|s| - 1]) * 10 + (s[|s| - 1] as int - '0' as int)
  }

  /** A `%d` field of two characters: two digits, or a space and a digit 1-9. */
  predicate DayField(d: string) {
    |d| == 2 && (AllDigits(d) || (d[0] == ' ' && IsDigit(d[1]) && d[1] != '0'))
  }

  function DayValue(d: string): (n: nat)
    requires DayField(d)
    ensures n < 100
  {
    if AllDigits(d) then DigitsValue(d)
    else
      assert d[1..][..0] == [];
      DigitsValue(d[1..])
  }

  /** The 19-character form `YYYY-MM-DDTHH:MM:SS`; the format is matched
      ignoring case, so the separator may also be `t`. */
  predicate HasShape(w: string) {
    && |w| == 19
    && w[4] == '-' && w[7] == '-' && (w[10] == 'T' || w[10] == 't') && w[13] == ':' && w[16] == ':'
    && AllDigits(w[0..4]) && AllDigits(w[5..7]) && DayField(w[8..10])
    && AllDigits(w[11..13]) && AllDigits(w[14..16]) && AllDigits(w[17..19])
  }

  predicate IsLeapYear(y: int) {
    y % 4 == 0 && (y % 100 != 0 || y % 400 == 0)
  }

  function DaysInMonth(y: int, m: int): (d: int)
    requires 1 <= m <= 12
    ensures 28 <= d <= 31
    ensures m == 2 ==> (d == 29 <==> IsLeapYear(y)) && (d == 28 <==> !IsLeapYear(y))
    ensures m == 4 || m == 6 || m == 9 || m == 11 ==> d == 30
    ensures m != 2 && m != 4 && m != 6 && m != 9 && m != 11 ==> d == 31
  {
    if m == 2 then (if IsLeapYear(y) then 29 else 28)
    else if m == 4 || m == 6 || m == 9 || m == 11 then 30
    else 31
  }

  /** The days of the months 1 to `m` of year `y`. */
  function DaysThrough(y: int, m: int): int
    requires 0 <= m <= 12
  {
    if m == 0 then 0 else DaysThrough(y, m - 1) + DaysInMonth(y, m)
  }

  /** The month lengths add up to the Gregorian year: 366 days in a leap year,
      365 otherwise. */
  lemma YearLength(y: int)
    ensures DaysThrough(y, 12) == if IsLeapYear(y) then 366 else 365
  {
    var feb := if IsLeapYear(y) then 29 else 28;
    assert DaysThrough(y, 1) == 31;
    assert DaysThrough(y, 3) == 62 + feb;
    assert DaysThrough(y, 5) == 123 + feb;
    assert DaysThrough(y, 7) == 184 + feb;
    assert DaysThrough(y, 9) == 245 + feb;
    assert DaysThrough(y, 11) == 306 + feb;
  }

  /** The field ranges `datetime` accepts (year 1 to 9999, real calendar days). */
  predicate ValidDateTime(dt: DateTime) {
    && 1 <= dt.year <= 9999
    && 1 <= dt.month <= 12
    && 1 <= dt.day <= DaysInMonth(dt.year, dt.month)
    && 0 <= dt.hour < 24 && 0 <= dt.minute < 60 && 0 <= dt.second < 60
  }

  /** `datetime.strptime(w, '%Y-%m-%dT%H:%M:%S')` on the zero-padded form. */
  function ParseWallClock(w: string): (r: Result<DateTime, ParseError>)
    ensures r.Success? <==> HasShape(w) && ValidDateTime(FieldsOf(w))
    ensures r.Success? ==> r.value == FieldsOf(w)
  {
    if !HasShape(w) then Failure(ValueError("time data does not match format '%Y-%m-%dT%H:%M:%S'"))
    else
      var dt := FieldsOf(w);
      if ValidDateTime(dt) then Success(dt) else Failure(ValueError("field out of range"))
  }

  /** The six numeric fields of a string of the right shape. */
  function FieldsOf(w: string): DateTime
    requires HasShape(w)
  {
    DateTime(DigitsValue(w[0..4]), DigitsValue(w[5..7]), DayValue(w[8..10]),
             DigitsValue(w[11..13]), DigitsValue(w[14..16]), DigitsValue(w[17..19]))
  }

  /** What the Python scan does with one `start` or `end` value. */
  function ParseStamp(stamp: string): (r: Result<DateTime, ParseError>)
    ensures |stamp| < 6 ==> r.Failure?
    ensures r.Success? ==> |stamp| == 25 && HasShape(stamp[..19]) && r.value == FieldsOf(stamp[..19])
  {
    ParseWallClock(WallClock(stamp))
  }

  /** The order of naive datetimes: field by field, year first. */
  predicate Before(a: DateTime, b: DateTime) {
    || a.year < b.year
    || (a.year == b.year && a.month < b.month)
    || (a.year == b.year && a.month == b.month && a.day < b.day)
    || (a.year == b.year && a.month == b.month && a.day == b.day && a.hour < b.hour)
    || (a.year == b.year && a.month == b.month && a.day == b.day && a.hour == b.hour && a.minute < b.minute)
    || (a.year == b.year && a.month == b.month && a.day == b.day && a.hour == b.hour && a.minute == b.minute
        && a.second < b.second)
  }

  /** An integer key for a datetime: the seconds of a 12-month, 31-day calendar.
      It is not an epoch time, but it orders datetimes as Python does. */
  function Ordinal(dt: DateTime): int {
    ((((dt.year * 12 + (dt.month - 1)) * 31 + (dt.day - 1)) * 24 + dt.hour) * 60 + dt.minute) * 60 + dt.second
  }

  /** Mixed-radix step: with digits below the radix, the key compares high part first. */
  lemma RadixStep(hi1: int, lo1: int, hi2: int, lo2: int, k: int)
    requires 0 <= lo1 < k && 0 <= lo2 < k
    ensures hi1 * k + lo1 < hi2 * k + lo2 <==> hi1 < hi2 || (hi1 == hi2 && lo1 < lo2)
    ensures hi1 * k + lo1 == hi2 * k + lo2 <==> hi1 == hi2 && lo1 == lo2
  {
    if hi1 < hi2 {
      MulAtLeast(hi2 - hi1, k);
      assert hi2 * k == hi1 * k + (hi2 - hi1) * k;
    } else if hi2 < hi1 {
      MulAtLeast(hi1 - hi2, k);
      assert hi1 * k == hi2 * k + (hi1 - hi2) * k;
    }
  }

  lemma {:induction false} MulAtLeast(d: int, k: int)
    requires d >= 1 && k >= 0
    ensures d * k >= k
    decreases d
  {
    if d > 1 {
      MulAtLeast(d - 1, k);
      assert d * k == (d - 1) * k + k;
    }
  }

  /** Comparing ordinals is comparing the datetimes: the integer model of the
      Python scan decides exactly as the datetime comparisons do. */
  lemma OrdinalOrders(a: DateTime, b: DateTime)
    requires ValidDateTime(a) && ValidDateTime(b)
    ensures Before(a, b) <==> Ordinal(a) < Ordinal(b)
    ensures a == b <==> Ordinal(a) == Ordinal(b)
  {
    var a2, b2 := DayKey(a), DayKey(b);
    DayKeyOrders(a, b);
    var a3, b3 := a2 * 24 + a.hour, b2 * 24 + b.hour;
    RadixStep(a2, a.hour, b2, b.hour, 24);
    var a4, b4 := a3 * 60 + a.minute, b3 * 60 + b.minute;
    RadixStep(a3, a.minute, b3, b.minute, 60);
    RadixStep(a4, a.second, b4, b.second, 60);
    assert Ordinal(a) == a4 * 60 + a.second && Ordinal(b) == b4 * 60 + b.second;
  }

  /** The date part of the ordinal. */
  function DayKey(dt: DateTime): int {
    (dt.year * 12 + (dt.month - 1)) * 31 + (dt.day - 1)
  }

  lemma DayKeyOrders(a: DateTime, b: DateTime)
    requires ValidDateTime(a) && ValidDateTime(b)
    ensures DayKey(a) < DayKey(b) <==>
      a.year < b.year || (a.year == b.year && a.month < b.month) || (a.year == b.year && a.month == b.month && a.day < b.day)
    ensures DayKey(a) == DayKey(b) <==> a.year == b.year && a.month == b.month && a.day == b.day
  {
    var a1, b1 := a.year * 12 + (a.month - 1), b.year * 12 + (b.month - 1);
    RadixStep(a.year, a.month - 1, b.year, b.month - 1, 12);
    RadixStep(a1, a.day - 1, b1, b.day - 1, 31);
  }

  /** The offset plays no part: stamps that differ only in their last six
      characters parse to the same wall-clock datetime. */
  lemma OffsetIgnored(wall: string, offset1: string, offset2: string)
    requires |offset1| == 6 && |offset2| == 6
    ensures ParseStamp(wall + offset1) == ParseStamp(wall + offset2) == ParseWallClock(wall)
  {
    assert (wall + offset1)[..|wall|] == wall;
    assert (wall + offset2)[..|wall|] == wall;
  }

  lemma TwoDigits(s: string)
    requires |s| == 2 && IsDigit(s[0]) && IsDigit(s[1])
    ensures AllDigits(s) && DigitsValue(s) == (s[0] as int - '0' as int) * 10 + (s[1] as int - '0' as int)
  {
    assert s[..1][..0] == [];
    assert AllDigits(s[..1]);
    assert DigitsValue(s[..1]) == s[0] as int - '0' as int;
  }

  lemma FourDigits(s: string)
    requires |s| == 4 && IsDigit(s[0]) && IsDigit(s[1]) && IsDigit(s[2]) && IsDigit(s[3])
    ensures AllDigits(s)
    ensures DigitsValue(s) == (s[0] as int - '0' as int) * 1000 + (s[1] as int - '0' as int) * 100
                            + (s[2] as int - '0' as int) * 10 + (s[3] as int - '0' as int)
  {
    TwoDigits(s[..2]);
    assert s[..3][..2] == s[..2];
    assert AllDigits(s[..3]);
  }

  /** A zero-padded reading parses to its fields. */
  lemma ParseExample()
    ensures ParseWallClock("2024-11-03T01:30:00") == Success(DateTime(2024, 11, 3, 1, 30, 0))
  {
    var w := "2024-11-03T01:30:00";
    FourDigits(w[0..4]);
    TwoDigits(w[5..7]);
    TwoDigits(w[8..10]);
    TwoDigits(w[11..13]);
    TwoDigits(w[14..16]);
    TwoDigits(w[17..19]);
    assert HasShape(w);
    assert FieldsOf(w) == DateTime(2024, 11, 3, 1, 30, 0);
  }

  /** A number below 100 as two decimal digits. */
  function Two(n: int): (s: string)
    requires 0 <= n < 100
    ensures |s| == 2 && AllDigits(s) && DigitsValue(s) == n
  {
    var s := [('0' as int + n / 10) as char, ('0' as int + n % 10) as char];
    TwoDigits(s);
    s
  }

  /** A number below 10000 as four decimal digits. */
  function Four(n: int): (s: string)
    requires 0 <= n < 10000
    ensures |s| == 4 && AllDigits(s) && DigitsValue(s) == n
  {
    var hi, lo := n / 100, n % 100;
    var s := Two(hi) + Two(lo);
    FourDigits(s);
    assert s[..2] == Two(hi) && s[2..] == Two(lo);
    s
  }

  /** The zero-padded `%Y-%m-%dT%H:%M:%S` reading of a datetime, as the stamps
      the application stores are written. */
  function Render(dt: DateTime): (w: string)
    requires ValidDateTime(dt)
    ensures |w| == 19
  {
    Four(dt.year) + "-" + Two(dt.month) + "-" + Two(dt.day) + "T"
    + Two(dt.hour) + ":" + Two(dt.minute) + ":" + Two(dt.second)
  }

  /** Parsing reads a zero-padded reading back as the datetime it was made from. */
  lemma RenderParses(dt: DateTime)
    requires ValidDateTime(dt)
    ensures ParseWallClock(Render(dt)) == Success(dt)
  {
    var w := Render(dt);
    var date := Four(dt.year) + "-" + Two(dt.month) + "-" + Two(dt.day);
    var time := Two(dt.hour) + ":" + Two(dt.minute) + ":" + Two(dt.second);
    assert w == date + "T" + time;
    assert w[0..4] == Four(dt.year) && w[5..7] == Two(dt.month) && w[8..10] == Two(dt.day);
    assert w[11..13] == Two(dt.hour) && w[14..16] == Two(dt.minute) && w[17..19] == Two(dt.second);
    assert w[4] == '-' && w[7] == '-' && w[10] == 'T' && w[13] == ':' && w[16] == ':';
    assert HasShape(w);
    assert FieldsOf(w) == dt;
  }

  /** `strptime` also reads a lower-case separator and a space-padded day. */
  lemma LenientExample()
    ensures ParseWallClock("2024-11- 3t01:30:00") == Success(DateTime(2024, 11, 3, 1, 30, 0))
  {
    var w := "2024-11- 3t01:30:00";
    FourDigits(w[0..4]);
    TwoDigits(w[5..7]);
    assert w[8..10][1..] == "3" && AllDigits(w[8..10][1..][..0]);
    TwoDigits(w[11..13]);
    TwoDigits(w[14..16]);
    TwoDigits(w[17..19]);
    assert HasShape(w);
    assert FieldsOf(w) == DateTime(2024, 11, 3, 1, 30, 0);
  }

  /** Two instants an hour apart, 01:30 EDT and 01:30 EST on the night the
      clocks go back, read as one and the same datetime. */
  lemma DifferentInstantsSameReading()
    ensures ParseStamp("2024-11-03T01:30:00-04:00") == ParseStamp("2024-11-03T01:30:00-05:00")
                                                   == Success(DateTime(2024, 11, 3, 1, 30, 0))
  {
    var w := "2024-11-03T01:30:00";
    var edt, est := "2024-11-03T01:30:00-04:00", "2024-11-03T01:30:00-05:00";
    assert edt == w + "-04:00" && est == w + "-05:00";
    OffsetIgnored(w, "-04:00", "-05:00");
    ParseExample();
  }

  /** Text too short to carry an offset leaves nothing to parse. */
  lemma ShortStampRejected(stamp: string)
    requires |stamp| < 6
    ensures ParseStamp(stamp).Failure?
  {
  }
}
