/** The calendar arithmetic of libjl777/jdatetime.h: closed formulas between dates and day numbers,
    Julian up to 4 October 1582 and Gregorian from 15 October 1582 on. Years count astronomically. */
module Calendar {
  import opened Basics

  datatype Date = Date(year: int, month: int, day: int)

  const JD_OF_J2000: int := 2451545
  const GREGORIAN_DUTC: int := -152384

  // ----- the formulas -----

  function JDNofGregYMD(year: int, month: int, day: int): int {
    var temp := if month <= 2 then -1 else 0;
    Div(1461 * (year + 4800 + temp), 4) + Div(367 * (month - 2 - 12 * temp), 12)
    - Div(3 * Div(year + 4900 + temp, 100), 4) + day - 32075
  }

  function JDNofJulYMD(year: int, month: int, day: int): int {
    367 * year - Div(7 * (year + 5001 + Div(month - 9, 7)), 4) + Div(275 * month, 9) + day + 1729777
  }

  function GregYMDofJDN(jd: int): Date {
    var l0 := jd + 68569;
    var n := Div(4 * l0, 146097);
    var l1 := l0 - Div(146097 * n + 3, 4);
    var i := Div(4000 * (l1 + 1), 1461001);
    var l2 := l1 - Div(1461 * i, 4) + 31;
    var j := Div(80 * l2, 2447);
    var l3 := Div(j, 11);
    Date(100 * (n - 49) + i + l3, j + 2 - 12 * l3, l2 - Div(2447 * j, 80))
  }

  function JulYMDofJDN(jd: int): Date {
    var j0 := jd + 1402;
    var k := Div(j0 - 1, 1461);
    var l := j0 - 1461 * k;
    var n := Div(l - 1, 365) - Div(l, 1461);
    var i0 := l - 365 * n + 30;
    var j := Div(80 * i0, 2447);
    var i := Div(j, 11);
    Date(4 * k + n + i - 4716, j + 2 - 12 * i, i0 - Div(2447 * j, 80))
  }

  /** The month brought into 1 to 12, and the year with it. */
  function FixedMonth(year: int, month: int): (int, int) { (year + (month - 1) / 12, (month - 1) % 12 + 1) }

  method FixYM(year: int, month: int) returns (y: int, m: int)
    ensures 1 <= m <= 12 && 12 * y + m == 12 * year + month
    ensures (y, m) == FixedMonth(year, month)
  {
    y, m := year, month;
    var dyear := Div(m - 1, 12);
    m := m - 12 * dyear;
    y := y + dyear;
    if m < 1 {
      m := m + 12;
      y := y - 1;
    }
  }

  predicate IsGregorian(d: Date) {
    d.year > 1582 || (d.year == 1582 && (d.month > 10 || (d.month == 10 && d.day >= 15)))
  }

  function DUTCofYMD(year: int, month: int, day: int): int {
    var (y, m) := FixedMonth(year, month);
    (if IsGregorian(Date(y, m, day)) then JDNofGregYMD(y, m, day) else JDNofJulYMD(y, m, day)) - JD_OF_J2000
  }

  function YMDofDUTC(dutc: int): Date {
    if dutc >= GREGORIAN_DUTC then GregYMDofJDN(dutc + JD_OF_J2000) else JulYMDofJDN(dutc + JD_OF_J2000)
  }

  // ----- the calendar itself -----

  predicate Leap(year: int) { year % 4 == 0 && (year > 1582 ==> year % 100 != 0 || year % 400 == 0) }

  function MonthLength(year: int, month: int): int {
    if month == 2 then (if Leap(year) then 29 else 28)
    else if month == 4 || month == 6 || month == 9 || month == 11 then 30
    else 31
  }

  /** The dates there were: ten days of October 1582 were left out. */
  predicate Real(d: Date) {
    && 1 <= d.month <= 12 && 1 <= d.day <= MonthLength(d.year, d.month)
    && !(d.year == 1582 && d.month == 10 && 4 < d.day < 15)
  }

  function Tomorrow(d: Date): Date {
    if d == Date(1582, 10, 4) then Date(1582, 10, 15)
    else if d.day < MonthLength(d.year, d.month) then d.(day := d.day + 1)
    else if d.month < 12 then Date(d.year, d.month + 1, 1)
    else Date(d.year + 1, 1, 1)
  }

  function DayNumber(d: Date): int { DUTCofYMD(d.year, d.month, d.day) }

  // ----- years that begin in March -----

  /** The month counted from March, and the year it belongs to. */
  function FromMarch(month: int): int { if month <= 2 then month + 9 else month - 3 }
  function MarchYear(d: Date): int { if d.month <= 2 then d.year - 1 else d.year }

  /** The days of the months before the one counted k from March, and 30 more. */
  function MonthStart(k: int): int { 367 * (k + 1) / 12 }

  lemma MonthStarts(k: int)
    requires 0 <= k <= 11
    ensures MonthStart(k) == [30, 61, 91, 122, 152, 183, 214, 244, 275, 305, 336, 367][k]
  { }

  /** The day numbers, counted in years from March. */
  function JulianDays(y: int, k: int, day: int): int { YearDays(y + 4716) + MonthStart(k) + day - 1432 }
  function GregorianDays(y: int, k: int, day: int): int {
    YearDays(y + 4800) - LeftOut(y + 4800) + MonthStart(k) + day - 32075
  }

  /** The days of y years with a leap day every four years, and the leap days left out at centuries. */
  function YearDays(y: int): int { 1461 * y / 4 }
  function LeftOut(y: int): int { 3 * (y / 100 + 1) / 4 }

  lemma JulianNumber(d: Date)
    requires 1 <= d.month <= 12 && d.year >= -4712
    ensures JDNofJulYMD(d.year, d.month, d.day) == JulianDays(MarchYear(d), FromMarch(d.month), d.day)
  {
    var y, m := MarchYear(d), d.month;
    JulianMonths(m);
    JulianYears(y);
    assert Div(7 * (y + 5001), 4) == 7 * (y + 5001) / 4 && Div(275 * m, 9) == 275 * m / 9;
    assert d.year + 5001 + Div(m - 9, 7) == y + 5001;
    assert 367 * d.year == 367 * y + (if m <= 2 then 367 else 0);
  }

  lemma JulianYears(y: int)
    ensures 367 * y - 7 * (y + 5001) / 4 == YearDays(y + 4716) - 1731270
  {
    var t, u := y / 4, y % 4;
    assert y == 4 * t + u;
    assert 7 * (y + 5001) == 4 * (7 * t + 8751) + (7 * u + 3);
    assert 1461 * (y + 4716) == 4 * (1461 * t + 1722519) + 1461 * u;
  }

  lemma JulianMonths(m: int)
    requires 1 <= m <= 12
    ensures 275 * m / 9 + (if m <= 2 then 367 else 0) == MonthStart(FromMarch(m)) + 61
    ensures Div(m - 9, 7) == if m <= 2 then -1 else 0
  {
    assert m == 1 || m == 2 || m == 3 || m == 4 || m == 5 || m == 6 || m == 7 || m == 8 || m == 9 || m == 10 ||
           m == 11 || m == 12;
  }

  lemma GregorianNumber(d: Date)
    requires 1 <= d.month <= 12 && d.year >= 1
    ensures JDNofGregYMD(d.year, d.month, d.day) == GregorianDays(MarchYear(d), FromMarch(d.month), d.day)
  {
    var y := MarchYear(d) + 4800;
    assert (y + 100) / 100 == y / 100 + 1;
  }

  /** The day number of a date in range, without the truncating divisions. */
  lemma NumberOf(d: Date)
    requires 1 <= d.month <= 12 && d.year >= -4712
    ensures DayNumber(d) + JD_OF_J2000 ==
            if IsGregorian(d) then GregorianDays(MarchYear(d), FromMarch(d.month), d.day)
                else JulianDays(MarchYear(d), FromMarch(d.month), d.day)
  {
    assert FixedMonth(d.year, d.month) == (d.year, d.month);
    if IsGregorian(d) {
      GregorianNumber(d);
    } else {
      JulianNumber(d);
    }
    hide JDNofGregYMD, JDNofJulYMD, GregorianDays, JulianDays;
  }

  // ----- consecutive days -----

  /** The months from March to January have the lengths between their starts. */
  lemma MonthSteps(d: Date)
    requires 1 <= d.month <= 12 && d.month != 2
    ensures var next := if d.month == 12 then 1 else d.month + 1;
            MonthStart(FromMarch(next)) == MonthStart(FromMarch(d.month)) + MonthLength(d.year, d.month)
  {
    var m := d.month;
    assert m == 1 || m == 3 || m == 4 || m == 5 || m == 6 || m == 7 || m == 8 || m == 9 || m == 10 || m == 11 ||
           m == 12;
  }

  /** A March year has as many days as its last February asks for. */
  lemma JulianYearStep(y: int)
    ensures YearDays(y + 1) == YearDays(y) + (if (y + 1) % 4 == 0 then 366 else 365)
  {
    var t, u := y / 4, y % 4;
    assert y == 4 * t + u;
    assert 1461 * y == 4 * (1461 * t) + 1461 * u;
    assert 1461 * (y + 1) == 4 * (1461 * t) + 1461 * (u + 1);
  }

  lemma CenturyStep(y: int)
    ensures LeftOut(y + 1) == LeftOut(y) + (if (y + 1) % 100 == 0 && (y + 1) % 400 != 0 then 1 else 0)
  {
    var c := y / 100;
    if (y + 1) % 100 == 0 {
      assert (y + 1) / 100 == c + 1;
      assert (y + 1) % 400 == 0 <==> (c + 1) % 4 == 0;
    } else {
      assert (y + 1) / 100 == c;
    }
  }

  /** From one day to the next within a calendar. */
  lemma JulianStep(d: Date)
    requires Real(d) && d.year <= 1582
    ensures d.month == 2 && d.day == MonthLength(d.year, 2)
            ==> JulianDays(MarchYear(d) + 1, 0, 1) == JulianDays(MarchYear(d), 11, d.day) + 1
  {
    hide MonthStart, YearDays;
    JulianYearStep(MarchYear(d) + 4716);
    MonthStarts(0);
    MonthStarts(11);
  }

  lemma GregorianStep(d: Date)
    requires Real(d) && d.year > 1582
    ensures d.month == 2 && d.day == MonthLength(d.year, 2)
            ==> GregorianDays(MarchYear(d) + 1, 0, 1) == GregorianDays(MarchYear(d), 11, d.day) + 1
  {
    hide MonthStart, YearDays, LeftOut;
    var y := MarchYear(d) + 4800;
    JulianYearStep(y);
    CenturyStep(y);
    MonthStarts(0);
    MonthStarts(11);
    if d.month == 2 && d.day == MonthLength(d.year, 2) {
      SameCycle(d.year);
      assert y + 1 == d.year + 4800;
    }
  }

  /** The leap years repeat every 400 years. */
  lemma SameCycle(y: int)
    ensures (y + 4800) % 4 == y % 4 && (y + 4800) % 100 == y % 100 && (y + 4800) % 400 == y % 400
  {
    var q, r := y / 400, y % 400;
    assert y + 4800 == 400 * (q + 12) + r;
    assert y == 100 * (4 * q) + r && y + 4800 == 100 * (4 * q + 48) + r;
  }

  /** Consecutive dates have consecutive day numbers, from the start of year -4712 on and across the
      change of calendars. */
  lemma Consecutive(d: Date)
    requires Real(d) && d.year >= -4712
    ensures DayNumber(Tomorrow(d)) == DayNumber(d) + 1
  {
    hide DayNumber, DUTCofYMD, Div, JDNofGregYMD, JDNofJulYMD, YearDays, LeftOut, IsGregorian, Leap, MonthStart;
    var e := Tomorrow(d);
    NumberOf(d);
    NumberOf(e);
    KeepsCalendar(d);
    if d == Date(1582, 10, 4) {
      CutOverDays();
    } else if e.day == 1 && d.month == 2 {
      if d.year > 1582 {
        GregorianStep(d);
      } else {
        JulianStep(d);
      }
    } else if e.day == 1 {
      MonthSteps(d);
    }
  }

  lemma KeepsCalendar(d: Date)
    requires Real(d)
    ensures d == Date(1582, 10, 4) ==> !IsGregorian(d) && IsGregorian(Tomorrow(d))
    ensures d != Date(1582, 10, 4) ==> IsGregorian(Tomorrow(d)) == IsGregorian(d)
    ensures d.month == 2 ==> (IsGregorian(d) <==> d.year > 1582)
  { }

  lemma CutOverDays()
    ensures GregorianDays(1582, 7, 15) == JulianDays(1582, 7, 4) + 1
  {
    MonthStarts(7);
    assert YearDays(6298) == 2300344 && YearDays(6382) == 2331025 && LeftOut(6382) == 48;
  }

  lemma TomorrowIsReal(d: Date)
    requires Real(d)
    ensures Real(Tomorrow(d))
  { }

  // ----- from day numbers back to dates -----

  /** The month and day of a number of days since the start of a March year. */
  lemma MonthOf(k: int, day: int)
    requires 0 <= k <= 11
    requires 1 <= day <= (if k == 1 || k == 3 || k == 6 || k == 8 then 30 else if k == 11 then 29 else 31)
    ensures 80 * (MonthStart(k) + day) / 2447 == k + 1 && 2447 * (k + 1) / 80 == MonthStart(k)
  {
    assert k == 0 || k == 1 || k == 2 || k == 3 || k == 4 || k == 5 || k == 6 || k == 7 || k == 8 || k == 9 || k == 10
           || k == 11;
  }

  /** The last step of both inverses. */
  lemma MonthAndYear(d: Date)
    requires Real(d)
    ensures var i := MonthStart(FromMarch(d.month)) + d.day;
            var j := Div(80 * i, 2447);
            j == FromMarch(d.month) + 1 && i - Div(2447 * j, 80) == d.day && j + 2 - 12 * Div(j, 11) == d.month
            && MarchYear(d) + Div(j, 11) == d.year
  {
    MonthOf(FromMarch(d.month), d.day);
    assert Div(FromMarch(d.month) + 1, 11) == if d.month <= 2 then 1 else 0;
  }

  /** The day within a March year. */
  function DayOfYear(d: Date): int { MonthStart(FromMarch(d.month)) - 30 + (d.day - 1) }

  lemma DayOfYearBound(d: Date)
    requires Real(d)
    ensures 0 <= DayOfYear(d) <= 365
    ensures !Leap(MarchYear(d) + 1) ==> DayOfYear(d) <= 364
  {
    MonthStarts(FromMarch(d.month));
    hide MonthStart;
  }

  lemma JulianInverse(d: Date)
    requires Real(d) && d.year >= -4712 && !IsGregorian(d)
    ensures JulYMDofJDN(JulianDays(MarchYear(d), FromMarch(d.month), d.day)) == d
  {
    hide Div, YearDays, MonthStart, Leap, Real, FromMarch;
    var y, x := MarchYear(d), DayOfYear(d);
    var jd, i := JulianDays(y, FromMarch(d.month), d.day), MonthStart(FromMarch(d.month)) + d.day;
    DayOfYearBound(d);
    FourYears(y + 1);
    JulianYearOf(y + 4716, x);
    MonthAndYear(d);
    hide MarchYear;
    assert jd + 1402 == YearDays(y + 4716) + x + 1 && x + 31 == i;
  }

  lemma FourYears(y: int)
    ensures y <= 1583 ==> (Leap(y) <==> (y + 4716) % 4 == 0)
    ensures (y + 4800) % 4 == y % 4
  { }

  /** Years and days from days, in the four-year cycle. */
  lemma JulianYearOf(u: int, x: int)
    requires u >= 0 && 0 <= x <= 365 && ((u + 1) % 4 != 0 ==> x <= 364)
    ensures var j0 := YearDays(u) + x + 1;
            var k := Div(j0 - 1, 1461);
            var l := j0 - 1461 * k;
            var n := Div(l - 1, 365) - Div(l, 1461);
            4 * k + n == u && l - 365 * n == x + 1
  {
    var t, r := u / 4, u % 4;
    assert YearDays(u) == 1461 * t + 1461 * r / 4;
    var l := 1461 * r / 4 + x + 1;
    assert r == 0 || r == 1 || r == 2 || r == 3;
    assert 1 <= l <= 1461;
    assert (YearDays(u) + x) / 1461 == t;
  }

  lemma GregorianInverse(d: Date)
    requires Real(d) && IsGregorian(d)
    ensures GregYMDofJDN(GregorianDays(MarchYear(d), FromMarch(d.month), d.day)) == d
  {
    hide Div, YearDays, LeftOut, MonthStart, Leap, Real, FromMarch;
    var y, x := MarchYear(d) + 4800, DayOfYear(d);
    var c, r := y / 100, y % 100;
    var jd, i := GregorianDays(y - 4800, FromMarch(d.month), d.day), MonthStart(FromMarch(d.month)) + d.day;
    DayOfYearBound(d);
    LeapInCentury(y - 4800 + 1);
    CenturyEnd(c, r);
    GregorianCentury(c, r, x);
    YearOfCentury(r, x);
    DivYear(r);
    CenturySplit(c, r);
    MonthAndYear(d);
    hide MarchYear;
    assert jd + 68569 == 36525 * c - 3 * (c + 1) / 4 + YearDays(r) + x + 36525 && x + 31 == i;
  }

  lemma DivYear(r: int)
    requires r >= 0
    ensures Div(1461 * r, 4) == YearDays(r)
  { }

  lemma CenturyEnd(c: int, r: int)
    requires 0 <= r < 100
    ensures (100 * c + r + 1) % 4 == (r + 1) % 4
    ensures (100 * c + r + 1) % 100 == 0 <==> r == 99
    ensures r == 99 ==> ((100 * c + r + 1) % 400 == 0 <==> (c + 1) % 4 == 0)
  {
    assert 100 * c + r + 1 == 4 * (25 * c) + (r + 1);
    if r == 99 {
      assert 100 * c + r + 1 == 100 * (c + 1);
    }
  }

  /** The days of a year are those of its centuries and of the years after. */
  lemma CenturySplit(c: int, r: int)
    requires c >= 0 && 0 <= r < 100
    ensures YearDays(100 * c + r) == 36525 * c + YearDays(r) && LeftOut(100 * c + r) == 3 * (c + 1) / 4
  {
    assert (100 * c + r) / 100 == c;
    assert 1461 * (100 * c + r) == 4 * (36525 * c) + 1461 * r;
  }

  lemma LeapInCentury(y: int)
    requires y > 1582
    ensures Leap(y) <==> (y + 4800) % 4 == 0 && ((y + 4800) % 100 == 0 ==> (y + 4800) % 400 == 0)
  {
    SameCycle(y);
  }

  /** The century from the days. */
  lemma GregorianCentury(c: int, r: int, x: int)
    requires c >= 0 && 0 <= r < 100 && 0 <= x <= 365
    requires !((r + 1) % 4 == 0 && (r == 99 ==> (c + 1) % 4 == 0)) ==> x <= 364
    ensures var l0 := 36525 * c - 3 * (c + 1) / 4 + YearDays(r) + x + 36525;
            Div(4 * l0, 146097) == c + 1 && l0 - Div(146097 * (c + 1) + 3, 4) == YearDays(r) + x
  {
    var n := c + 1;
    assert 36525 * n - 3 * n / 4 == (146097 * n + 3) / 4;
    var e := YearDays(r) + x;
    assert 0 <= e <= 36524 && (n % 4 != 0 ==> e <= 36523);
  }

  /** The year of the century from the days. */
  lemma YearOfCentury(r: int, x: int)
    requires 0 <= r < 100 && 0 <= x <= 365 && ((r + 1) % 4 != 0 ==> x <= 364)
    ensures Div(4000 * (YearDays(r) + x + 1), 1461001) == r
  {
    var t, u := r / 4, r % 4;
    assert YearDays(r) == 1461 * t + 1461 * u / 4;
  }

  // ----- the two conversions are inverse -----

  /** The first Gregorian day has the number the source compares with. */
  lemma CutOver(d: Date)
    requires Real(d) && d.year >= -4712
    ensures IsGregorian(d) <==> DayNumber(d) >= GREGORIAN_DUTC
  {
    MonthStarts(7);
    NumberOf(d);
    NumberOf(Date(1582, 10, 15));
    NumberOf(Date(1582, 10, 4));
  }

  /** Julian day 0 is the first day of the year -4712. */
  lemma FirstDay(d: Date)
    requires Real(d)
    ensures DayNumber(d) + JD_OF_J2000 >= 0 <==> d.year >= -4712
  {
    assert FixedMonth(d.year, d.month) == (d.year, d.month);
    if d.year >= -4712 {
      NumberOf(d);
      MonthStarts(FromMarch(d.month));
    } else {
      JulianMonths(d.month);
    }
  }

  /** Converting a date that there was to a day number and back. */
  lemma RoundTrip(d: Date)
    requires Real(d) && DayNumber(d) + JD_OF_J2000 >= 0
    ensures YMDofDUTC(DayNumber(d)) == d
  {
    hide DayNumber, DUTCofYMD, Div, FromMarch, MarchYear, IsGregorian, JulianDays, GregorianDays, JulYMDofJDN,
        GregYMDofJDN;
    FirstDay(d);
    CutOver(d);
    NumberOf(d);
    if IsGregorian(d) {
      GregorianInverse(d);
    } else {
      JulianInverse(d);
    }
  }

  /** The date n days after the first of year -4712. */
  function DateAt(n: nat): (d: Date)
    ensures Real(d) && d.year >= -4712
  {
    if n == 0 then Date(-4712, 1, 1) else (TomorrowIsReal(DateAt(n - 1)); Tomorrow(DateAt(n - 1)))
  }

  lemma FirstDays(d: Date)
    requires d == Date(-4712, 1, 1)
    ensures JulianDays(MarchYear(d), FromMarch(d.month), d.day) == 0
  { }

  lemma {:induction false} DateAtNumber(n: nat)
    ensures DayNumber(DateAt(n)) + JD_OF_J2000 == n
  {
    hide DayNumber, JulianDays;
    if n == 0 {
      NumberOf(Date(-4712, 1, 1));
      FirstDays(Date(-4712, 1, 1));
    } else {
      DateAtNumber(n - 1);
      Consecutive(DateAt(n - 1));
    }
  }

  /** Every day number from Julian day 0 on is that of a date there was, and converting there and back
      gives the number again. */
  lemma RoundTripBack(dutc: int)
    requires dutc + JD_OF_J2000 >= 0
    ensures Real(YMDofDUTC(dutc)) && DayNumber(YMDofDUTC(dutc)) == dutc
  {
    var d := DateAt(dutc + JD_OF_J2000);
    DateAtNumber(dutc + JD_OF_J2000);
    RoundTrip(d);
  }

  /** The date n days later. */
  function Later(d: Date, n: nat): Date { if n == 0 then d else Tomorrow(Later(d, n - 1)) }

  lemma {:induction false} Elapsed(d: Date, n: nat)
    requires Real(d) && d.year >= -4712
    ensures Real(Later(d, n)) && Later(d, n).year >= -4712 && DayNumber(Later(d, n)) == DayNumber(d) + n
  {
    hide DayNumber;
    if n > 0 {
      Elapsed(d, n - 1);
      Consecutive(Later(d, n - 1));
      TomorrowIsReal(Later(d, n - 1));
    }
  }

  lemma Epoch(d: Date)
    requires d == Date(2000, 1, 1)
    ensures DayNumber(d) == 0
  {
    assert FixedMonth(2000, 1) == (2000, 1);
    assert Div(1461 * 6799, 4) == 2483334 && Div(367 * 11, 12) == 336 && Div(6899, 100) == 68 && Div(204, 4) == 51;
  }

  /** Day numbers count the days from 1 January 2000: a date that comes n days after it has the number n, and one
      that comes n days before it has the number -n. */
  lemma CountsFromEpoch(d: Date, n: nat)
    requires Real(d) && d.year >= -4712
    ensures d == Later(Date(2000, 1, 1), n) ==> DayNumber(d) == n
    ensures Later(d, n) == Date(2000, 1, 1) ==> DayNumber(d) + n == 0
  {
    hide DayNumber, Later;
    Epoch(Date(2000, 1, 1));
    Elapsed(Date(2000, 1, 1), n);
    Elapsed(d, n);
  }

  /** Months out of range stand for the same day. */
  lemma MonthsNormalise(year: int, month: int, day: int, k: int)
    ensures DUTCofYMD(year + k, month - 12 * k, day) == DUTCofYMD(year, month, day)
  {
    assert (month - 12 * k - 1) / 12 == (month - 1) / 12 - k;
  }

  // ----- the routines that write their results -----

  method GregYMDofJDNStepwise(jd: int) returns (year: int, month: int, day: int)
    ensures Date(year, month, day) == GregYMDofJDN(jd)
  {
    hide Div;
    var l := jd + 68569;
    var n := Div(4 * l, 146097);
    l := l - Div(146097 * n + 3, 4);
    var i := Div(4000 * (l + 1), 1461001);
    l := l - Div(1461 * i, 4) + 31;
    var j := Div(80 * l, 2447);
    var d := l - Div(2447 * j, 80);
    l := Div(j, 11);
    year, month, day := 100 * (n - 49) + i + l, j + 2 - 12 * l, d;
  }

  method JulYMDofJDNStepwise(jd: int) returns (year: int, month: int, day: int)
    ensures Date(year, month, day) == JulYMDofJDN(jd)
  {
    hide Div;
    var j := jd + 1402;
    var k := Div(j - 1, 1461);
    var l := j - 1461 * k;
    var n := Div(l - 1, 365) - Div(l, 1461);
    var i := l - 365 * n + 30;
    j := Div(80 * i, 2447);
    var d := i - Div(2447 * j, 80);
    i := Div(j, 11);
    year, month, day := 4 * k + n + i - 4716, j + 2 - 12 * i, d;
  }

  /** Jul_YMDofDUTC: from Julian day 0 on, the date there was with that day number. */
  method DateOfDUTC(dutc: int) returns (year: int, month: int, day: int)
    ensures Date(year, month, day) == YMDofDUTC(dutc)
    ensures dutc + JD_OF_J2000 >= 0 ==> Real(Date(year, month, day)) && DUTCofYMD(year, month, day) == dutc
  {
    if dutc + JD_OF_J2000 >= 0 {
      RoundTripBack(dutc);
    }
    hide GregYMDofJDN, JulYMDofJDN, DUTCofYMD, Real;
    if dutc >= GREGORIAN_DUTC {
      year, month, day := GregYMDofJDNStepwise(dutc + JD_OF_J2000);
    } else {
      year, month, day := JulYMDofJDNStepwise(dutc + JD_OF_J2000);
    }
  }

  /** Jul_DUTCofYMD, for any month. */
  method DUTCOfDate(year: int, month: int, day: int) returns (dutc: int)
    ensures dutc == DUTCofYMD(year, month, day)
  {
    var y, m := FixYM(year, month);
    var isgreg := y > 1582 || (y == 1582 && (m > 10 || (m == 10 && day >= 15)));
    dutc := (if isgreg then JDNofGregYMD(y, m, day) else JDNofJulYMD(y, m, day)) - JD_OF_J2000;
  }

  // ----- dates that never were -----

  /** Of the dates with a day number from Julian day 0 on, exactly those there were come back. */
  lemma RealExactly(d: Date)
    requires DayNumber(d) + JD_OF_J2000 >= 0
    ensures YMDofDUTC(DayNumber(d)) == d <==> Real(d)
  {
    hide DayNumber, YMDofDUTC, Real;
    RoundTripBack(DayNumber(d));
    if Real(d) {
      RoundTrip(d);
    }
  }

  /** The ten days left out of October 1582 get the numbers of the ten days after the change. */
  lemma LeftOutDays(day: int)
    requires 5 <= day <= 14
    ensures !Real(Date(1582, 10, day)) && DayNumber(Date(1582, 10, day)) == DayNumber(Date(1582, 10, day + 10))
    ensures YMDofDUTC(DayNumber(Date(1582, 10, day))) == Date(1582, 10, day + 10)
  {
    hide DayNumber, YMDofDUTC, DUTCofYMD, YearDays, LeftOut, MonthStart;
    NumberOf(Date(1582, 10, day));
    NumberOf(Date(1582, 10, day + 10));
    FirstDay(Date(1582, 10, day + 10));
    CutOverDays();
    RoundTrip(Date(1582, 10, day + 10));
  }

  // ----- 32-bit arithmetic -----

  predicate Fits(x: int) { -0x8000_0000 <= x < 0x8000_0000 }

  /** Every value the Gregorian formula passes through fits 32 bits. */
  predicate GregorianFits(year: int, month: int, day: int) {
    var temp := if month <= 2 then -1 else 0;
    var a, m, c := year + 4800 + temp, month - 2 - 12 * temp, Div(year + 4900 + temp, 100);
    var s1 := Div(1461 * a, 4) + Div(367 * m, 12);
    var s2 := s1 - Div(3 * c, 4);
    && Fits(year + 4800) && Fits(a) && Fits(1461 * a) && Fits(m) && Fits(367 * m) && Fits(year + 4900 + temp)
    && Fits(3 * c) && Fits(s1) && Fits(s2) && Fits(s2 + day) && Fits(s2 + day - 32075)
    && Fits(s2 + day - 32075 - JD_OF_J2000)
  }

  predicate JulianFits(year: int, month: int, day: int) {
    var a := year + 5001 + Div(month - 9, 7);
    var s1 := 367 * year - Div(7 * a, 4);
    var s2 := s1 + Div(275 * month, 9);
    && Fits(367 * year) && Fits(year + 5001) && Fits(a) && Fits(7 * a) && Fits(275 * month) && Fits(s1) && Fits(s2)
    && Fits(s2 + day) && Fits(s2 + day + 1729777) && Fits(s2 + day + 1729777 - JD_OF_J2000)
  }

  const LAST_YEAR: int := 1465072

  /** From Julian day 0 on the Julian formula never overflows, and the Gregorian one exactly from March
      of the year after LAST_YEAR on. */
  lemma ForwardFits(d: Date)
    requires Real(d) && d.year >= -4712
    ensures !IsGregorian(d) ==> JulianFits(d.year, d.month, d.day)
    ensures IsGregorian(d) ==> (GregorianFits(d.year, d.month, d.day) <==> MarchYear(d) <= LAST_YEAR)
  {
    JulianMonths(d.month);
  }

  /** Every value the Gregorian inverse passes through fits 32 bits. */
  predicate GregorianInverseFits(jd: int) {
    var l0 := jd + 68569;
    var n := Div(4 * l0, 146097);
    var l1 := l0 - Div(146097 * n + 3, 4);
    var i := Div(4000 * (l1 + 1), 1461001);
    var l2 := l1 - Div(1461 * i, 4) + 31;
    var j := Div(80 * l2, 2447);
    var l3 := Div(j, 11);
    && Fits(l0) && Fits(4 * l0) && Fits(146097 * n + 3) && Fits(l1) && Fits(4000 * (l1 + 1)) && Fits(1461 * i)
    && Fits(l2) && Fits(80 * l2) && Fits(2447 * j) && Fits(l2 - Div(2447 * j, 80)) && Fits(j + 2 - 12 * l3)
    && Fits(100 * (n - 49)) && Fits(100 * (n - 49) + i + l3)
  }

  predicate JulianInverseFits(jd: int) {
    var j0 := jd + 1402;
    var k := Div(j0 - 1, 1461);
    var l := j0 - 1461 * k;
    var n := Div(l - 1, 365) - Div(l, 1461);
    var i0 := l - 365 * n + 30;
    var j := Div(80 * i0, 2447);
    var i := Div(j, 11);
    && Fits(j0) && Fits(1461 * k) && Fits(l) && Fits(n) && Fits(365 * n) && Fits(i0) && Fits(80 * i0) && Fits(2447 * j)
    && Fits(i0 - Div(2447 * j, 80)) && Fits(j + 2 - 12 * i) && Fits(4 * k) && Fits(4 * k + n + i - 4716)
  }

  const LAST_DAY: int := 536802342

  /** From Julian day 0 on the Julian inverse, used up to the change of calendars, never overflows, and
      the Gregorian one exactly after LAST_DAY. */
  lemma BackwardFits(jd: int)
    requires jd >= 0
    ensures jd - JD_OF_J2000 < GREGORIAN_DUTC ==> JulianInverseFits(jd)
    ensures jd - JD_OF_J2000 >= GREGORIAN_DUTC ==> (GregorianInverseFits(jd) <==> jd <= LAST_DAY)
  {
    if jd <= LAST_DAY {
      InverseSteps(jd);
    }
  }

  /** The ranges of the values in between. */
  lemma InverseSteps(jd: int)
    requires 0 <= jd <= LAST_DAY
    ensures GregorianInverseFits(jd)
  {
    var l0 := jd + 68569;
    var n := 4 * l0 / 146097;
    assert 146097 * n <= 4 * l0 < 146097 * (n + 1);
    var l1 := l0 - (146097 * n + 3) / 4;
    assert 0 <= l1 <= 36525;
    var i := 4000 * (l1 + 1) / 1461001;
    assert 0 <= i <= 100;
    var l2 := l1 - 1461 * i / 4 + 31;
    assert 0 <= l2 <= 40000;
  }
}
