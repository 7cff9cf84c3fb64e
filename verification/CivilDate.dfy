/** Proleptic Gregorian dates of Unix day numbers. */
module CivilDate {

  datatype Date = Date(year: int, month: int, day: int)

  // ----- the calendar -----

  predicate Leap(year: int) {
    year % 4 == 0 && (year % 100 != 0 || year % 400 == 0)
  }

  function MonthLength(year: int, month: int): int {
    if month == 2 then (if Leap(year) then 29 else 28)
    else if month in {4, 6, 9, 11} then 30
    else 31
  }

  predicate IsDate(date: Date) {
    1 <= date.month <= 12 && 1 <= date.day <= MonthLength(date.year, date.month)
  }

  function Tomorrow(date: Date): Date {
    if date.day < MonthLength(date.year, date.month) then date.(day := date.day + 1)
    else if date.month < 12 then Date(date.year, date.month + 1, 1)
    else Date(date.year + 1, 1, 1)
  }

  // ----- the conversion -----

  /** Division that rounds toward zero. */
  function Quotient(a: int, b: int): int
    requires b > 0
  {
    if a >= 0 then a / b else -((-a) / b)
  }

  function YearOfEra(dayOfEra: int): int {
    (dayOfEra - dayOfEra / 1460 + dayOfEra / 36524 - dayOfEra / 146096) / 365
  }

  function CivilFromDays(days: int): Date {
    var shifted := days + 719468;
    var era := Quotient(if shifted >= 0 then shifted else shifted - 146096, 146097);
    CivilInEra(era, shifted - era * 146097)
  }

  function CivilInEra(era: int, dayOfEra: int): Date {
    var yearOfEra := YearOfEra(dayOfEra);
    var year := yearOfEra + era * 400;
    var dayOfYear := dayOfEra - (365 * yearOfEra + yearOfEra / 4 - yearOfEra / 100);
    var monthPrime := (5 * dayOfYear + 2) / 153;
    var day := dayOfYear - (153 * monthPrime + 2) / 5 + 1;
    var month := monthPrime + if monthPrime < 10 then 3 else -9;
    Date(if month <= 2 then year + 1 else year, month, day)
  }

  /** The standard formula for the day number of a date. */
  function DaysFromCivil(date: Date): int {
    var year := if date.month <= 2 then date.year - 1 else date.year;
    var era := year / 400;
    var yearOfEra := year - era * 400;
    var dayOfYear := (153 * (date.month + if date.month > 2 then -3 else 9) + 2) / 5 + date.day - 1;
    era * 146097 + YearStart(yearOfEra) + dayOfYear - 719468
  }

  // ----- years that start in March -----

  function YearStart(y: int): int {
    365 * y + y / 4 - y / 100
  }

  /** Year `y` of an era, counted from March, has day `d`. */
  predicate YearHas(y: int, d: int) {
    0 <= y < 400 && 0 <= d <= 365 && (d == 365 ==> Leap(y + 1))
  }

  /** A year of an era as century, four-year group and remainder. */
  lemma Digits(y: int) returns (c: int, q: int, k: int)
    requires 0 <= y < 400
    ensures 0 <= c <= 3 && 0 <= q <= 24 && 0 <= k <= 3 && y == 100 * c + 4 * q + k
    ensures y / 4 == 25 * c + q && y / 100 == c
    ensures Leap(y + 1) <==> k == 3 && (q < 24 || c == 3)
  {
    c := y / 100;
    q := (y - 100 * c) / 4;
    k := y - 100 * c - 4 * q;
  }

  /** The year formula recovers the year from any day of it. */
  lemma YearRecovered(y: int, d: int)
    requires YearHas(y, d)
    ensures 0 <= YearStart(y) + d < 146097
    ensures YearOfEra(YearStart(y) + d) == y
  {
    var c, q, k := Digits(y);
    var doe := YearStart(y) + d;
    assert doe == 36524 * c + 1461 * q + 365 * k + d;
    hide Leap, YearStart;
    if doe < 146096 {
      var carry := if 24 * c + q + 365 * k + d >= 1460 then 1 else 0;
      assert doe / 36524 == c;
      assert doe / 1460 == 25 * c + q + carry;
      assert doe / 146096 == 0;
      assert doe - doe / 1460 + doe / 36524 - doe / 146096 == 365 * y + d - carry;
    }
  }

  /** Every day of an era belongs to some year. */
  lemma YearExists(doe: int) returns (y: int, d: int)
    requires 0 <= doe < 146097
    ensures YearHas(y, d) && YearStart(y) + d == doe
  {
    var c := if doe == 146096 then 3 else doe / 36524;
    var s := doe - 36524 * c;
    var q := s / 1461;
    var t := s - 1461 * q;
    var k := if t == 1460 then 3 else t / 365;
    d := t - 365 * k;
    y := 100 * c + 4 * q + k;
    assert 0 <= c <= 3 && 0 <= q <= 24 && 0 <= k <= 3;
    var c', q', k' := Digits(y);
    assert c' == c && q' == q && k' == k;
  }

  // ----- months that start in March -----

  function MonthStart(m: int): int {
    (153 * m + 2) / 5
  }

  /** Month `m` counted from March, in a year counted from March. */
  function FromMarch(m: int): int {
    if m < 10 then m + 3 else m - 9
  }

  lemma MonthRecovered(m: int, day: int)
    requires 0 <= m <= 11 && 1 <= day <= (if m == 11 then 29 else MonthLength(1, FromMarch(m)))
    ensures (5 * (MonthStart(m) + day - 1) + 2) / 153 == m
    ensures 0 <= MonthStart(m) + day - 1 <= 365
    ensures MonthStart(m) + day - 1 == 365 <==> m == 11 && day == 29
  {
  }

  lemma MonthExists(d: int) returns (m: int, day: int)
    requires 0 <= d <= 365
    ensures 0 <= m <= 11 && 1 <= day <= (if m == 11 then 29 else MonthLength(1, FromMarch(m)))
    ensures d == MonthStart(m) + day - 1 && m == (5 * d + 2) / 153
  {
    m := (5 * d + 2) / 153;
    day := d - MonthStart(m) + 1;
  }

  // ----- eras -----

  /** The adjusted truncating division rounds down. */
  lemma EraRoundsDown(shifted: int)
    ensures Quotient(if shifted >= 0 then shifted else shifted - 146096, 146097) == shifted / 146097
  {
  }

  lemma LeapPeriod(y: int, era: int)
    ensures Leap(y + 400 * era) <==> Leap(y)
  {
    Mod400(y, era);
    Mod100(y, 4 * era);
    Mod4(y, 100 * era);
  }

  lemma Mod400(y: int, e: int)
    ensures (y + 400 * e) % 400 == y % 400
  {
    assert y + 400 * e == 400 * (y / 400 + e) + y % 400;
  }

  lemma Mod100(y: int, e: int)
    ensures (y + 100 * e) % 100 == y % 100
  {
    assert y + 100 * e == 100 * (y / 100 + e) + y % 100;
  }

  lemma Mod4(y: int, e: int)
    ensures (y + 4 * e) % 4 == y % 4
  {
    assert y + 4 * e == 4 * (y / 4 + e) + y % 4;
  }

  // ----- the two conversions are inverse -----

  lemma CivilOf(era: int, y: int, m: int, day: int)
    requires 0 <= m <= 11 && 1 <= day <= (if m == 11 then 29 else MonthLength(1, FromMarch(m)))
    requires YearHas(y, MonthStart(m) + day - 1)
    ensures CivilFromDays(era * 146097 + YearStart(y) + MonthStart(m) + day - 1 - 719468)
            == Date(y + era * 400 + (if m >= 10 then 1 else 0), FromMarch(m), day)
  {
    hide YearOfEra, CivilInEra, Quotient, YearStart;
    var doe := YearStart(y) + MonthStart(m) + day - 1;
    YearRecovered(y, MonthStart(m) + day - 1);
    EraRoundsDown(era * 146097 + doe);
    EraOf(era, doe);
    InEra(era, y, m, day);
  }

  lemma EraOf(era: int, doe: int)
    requires 0 <= doe < 146097
    ensures (era * 146097 + doe) / 146097 == era
  {
  }

  lemma InEra(era: int, y: int, m: int, day: int)
    requires 0 <= m <= 11 && 1 <= day <= (if m == 11 then 29 else MonthLength(1, FromMarch(m)))
    requires YearHas(y, MonthStart(m) + day - 1)
    ensures CivilInEra(era, YearStart(y) + MonthStart(m) + day - 1)
            == Date(y + era * 400 + (if m >= 10 then 1 else 0), FromMarch(m), day)
  {
    hide YearOfEra, Leap;
    MonthRecovered(m, day);
    YearRecovered(y, MonthStart(m) + day - 1);
  }

  /** From a date to its day number and back. */
  lemma DateRoundTrip(date: Date)
    requires IsDate(date)
    ensures CivilFromDays(DaysFromCivil(date)) == date
  {
    hide YearOfEra, CivilFromDays, CivilInEra;
    var year := if date.month <= 2 then date.year - 1 else date.year;
    var era, m := year / 400, date.month + if date.month > 2 then -3 else 9;
    var y := year - era * 400;
    LeapPeriod(y + 1, era);
    MonthRecovered(m, date.day);
    CivilOf(era, y, m, date.day);
  }

  /** From a day number to its date and back; the date is always a real one. */
  lemma DayRoundTrip(days: int)
    ensures IsDate(CivilFromDays(days))
    ensures DaysFromCivil(CivilFromDays(days)) == days
  {
    hide YearOfEra, CivilFromDays, CivilInEra;
    var shifted := days + 719468;
    var era := shifted / 146097;
    var y, d := YearExists(shifted - era * 146097);
    var m, day := MonthExists(d);
    CivilOf(era, y, m, day);
    LeapPeriod(y + 1, era);
    assert (y + era * 400) / 400 == era;
  }

  // ----- consecutive days -----

  lemma YearLength(y: int)
    requires 0 <= y < 400
    ensures y < 399 ==> YearStart(y + 1) == YearStart(y) + 365 + (if Leap(y + 1) then 1 else 0)
    ensures y == 399 ==> 146097 == YearStart(y) + 366 && Leap(y + 1)
  {
    hide Leap;
    var c, q, k := Digits(y);
    if y < 399 {
      var c', q', k' := Digits(y + 1);
      if k < 3 {
        assert c' == c && q' == q && k' == k + 1;
      } else if q < 24 {
        assert c' == c && q' == q + 1 && k' == 0;
      } else {
        assert c' == c + 1 && q' == 0 && k' == 0;
      }
    }
  }

  /** The last day of February is the last day of a year counted from March. */
  lemma FebruaryEnds(year: int)
    ensures DaysFromCivil(Date(year, 3, 1)) == DaysFromCivil(Date(year, 2, MonthLength(year, 2))) + 1
  {
    var era := (year - 1) / 400;
    var y := year - 1 - era * 400;
    LeapPeriod(y + 1, era);
    YearLength(y);
    assert year / 400 == if y == 399 then era + 1 else era;
  }

  lemma TomorrowCounts(date: Date)
    requires IsDate(date)
    ensures IsDate(Tomorrow(date))
    ensures DaysFromCivil(Tomorrow(date)) == DaysFromCivil(date) + 1
  {
    hide Leap, YearStart;
    if date.month == 2 && date.day == MonthLength(date.year, 2) { FebruaryEnds(date.year); }
  }

  /** Consecutive day numbers are consecutive dates, from 1970-01-01 at day zero. */
  lemma NextDay(days: int)
    ensures CivilFromDays(days + 1) == Tomorrow(CivilFromDays(days))
    ensures CivilFromDays(0) == Date(1970, 1, 1)
  {
    hide CivilFromDays, DaysFromCivil;
    var today := CivilFromDays(days);
    DayRoundTrip(days);
    TomorrowCounts(today);
    DateRoundTrip(Tomorrow(today));
    Epoch();
  }

  lemma Epoch()
    ensures CivilFromDays(0) == Date(1970, 1, 1)
  {
    assert DaysFromCivil(Date(1970, 1, 1)) == 0;
    DateRoundTrip(Date(1970, 1, 1));
  }
}
