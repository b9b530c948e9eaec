/** Dates with a leap year every four years and their day numbers, and the conversions between the two. */
module Calendar {
  datatype Date = Date(year: int, mon: int, day: int)

  datatype Time = Time(hr: int, minute: int, sec: real)

  predicate IsLeap(year: int) { year % 4 == 0 }

  const MONTH_DAYS: seq<int> := [31, 28, 31, 30, 31, 30, 31, 31, 30, 31, 30, 31]

  function MonthLength(year: int, mon: int): int
    requires 1 <= mon <= 12
  {
    if mon == 2 && IsLeap(year) then 29 else MONTH_DAYS[mon - 1]
  }

  function YearLength(year: int): int { if IsLeap(year) then 366 else 365 }

  predicate Valid(d: Date) { 1 <= d.mon <= 12 && 1 <= d.day <= MonthLength(d.year, d.mon) }

  predicate ValidTime(t: Time) { 0 <= t.hr < 24 && 0 <= t.minute < 60 && 0.0 <= t.sec < 60.0 }

  /** The days of the year before a month. */
  function MonthStart(year: int, mon: int): int
    requires 1 <= mon <= 13
  {
    if mon == 1 then 0 else MonthStart(year, mon - 1) + MonthLength(year, mon - 1)
  }

  /** The days from the beginning of 1900 to the beginning of a year. */
  function YearStart(year: int): int { 365 * (year - 1900) + (year - 1897) / 4 }

  /** The number of a day, also of one beyond the end of its month. */
  function DayNumber(d: Date): int
    requires 1 <= d.mon <= 12
  {
    YearStart(d.year) + MonthStart(d.year, d.mon) + d.day - 1
  }

  /** The next day of the calendar. */
  function Next(d: Date): Date
    requires Valid(d)
  {
    if d.day < MonthLength(d.year, d.mon) then d.(day := d.day + 1)
    else if d.mon < 12 then Date(d.year, d.mon + 1, 1)
    else Date(d.year + 1, 1, 1)
  }

  lemma YearGrows(year: int)
    ensures YearStart(year + 1) == YearStart(year) + YearLength(year)
  {
  }

  /** Where months begin, by the formula of the conversion. */
  lemma MonthStarts(year: int)
    ensures forall m :: 1 <= m <= 12 ==> MonthStart(year, m) == 275 * m / 9 - 30 - if m > 2 then YearShort(year) else 0
    ensures MonthStart(year, 13) == YearLength(year)
  {
    var leap := 2 - YearShort(year);
    assert MonthStart(year, 2) == 31;
    assert MonthStart(year, 3) == 59 + leap;
    assert MonthStart(year, 4) == 90 + leap;
    assert MonthStart(year, 5) == 120 + leap;
    assert MonthStart(year, 6) == 151 + leap;
    assert MonthStart(year, 7) == 181 + leap;
    assert MonthStart(year, 8) == 212 + leap;
    assert MonthStart(year, 9) == 243 + leap;
    assert MonthStart(year, 10) == 273 + leap;
    assert MonthStart(year, 11) == 304 + leap;
    assert MonthStart(year, 12) == 334 + leap;
  }

  /** By how many days February is shorter than 30. */
  function YearShort(year: int): int { if IsLeap(year) then 1 else 2 }

  /** The day numbers count the days of the calendar. */
  lemma NextDay(d: Date)
    requires Valid(d)
    ensures Valid(Next(d)) && DayNumber(Next(d)) == DayNumber(d) + 1
  {
    MonthStarts(d.year);
    YearGrows(d.year);
  }

  // ---- real numbers ---------------------------------------------------------------------------------

  /** The real number of a quotient rounded down is the integer quotient. */
  lemma FloorOfQuotient(x: int, d: int)
    requires d > 0
    ensures (x as real / d as real).Floor == x / d
  {
    var q, r := x / d, x % d;
    assert x as real == q as real * d as real + r as real;
    assert x as real / d as real == q as real + r as real / d as real;
    assert 0.0 <= r as real / d as real < 1.0;
  }

  lemma FloorOfSum(x: int, f: real)
    requires 0.0 <= f < 1.0
    ensures (x as real + f).Floor == x
  {
  }

  // ---- the conversions -------------------------------------------------------------------------------

  /** The Julian date of the beginning of 1900. */
  const START: real := 2415019.5

  /** The Julian date of a day, and what part of the day has passed. */
  method JDay(d: Date, t: Time) returns (jd: real, jdFrac: real)
    requires Valid(d) && ValidTime(t)
    ensures jd == START + DayNumber(d) as real && jdFrac == DayPart(t) && 0.0 <= jdFrac < 1.0
  {
    jd := 367.0 * d.year as real
        - (7.0 * (d.year as real + ((d.mon as real + 9.0) / 12.0).Floor as real) * 0.25).Floor as real
        + (275.0 * d.mon as real / 9.0).Floor as real + d.day as real + 1721013.5;
    jdFrac := (t.sec + t.minute as real * 60.0 + t.hr as real * 3600.0) / 86400.0;
    JulianFormula(d);
    if jdFrac > 1.0 || jdFrac < -1.0 {
      var dtt := jdFrac.Floor as real;
      jd := jd + dtt;
      jdFrac := jdFrac - dtt;
    }
  }

  function DayPart(t: Time): real { (t.sec + t.minute as real * 60.0 + t.hr as real * 3600.0) / 86400.0 }

  lemma JulianFormula(d: Date)
    requires Valid(d)
    ensures 367.0 * d.year as real
        - (7.0 * (d.year as real + ((d.mon as real + 9.0) / 12.0).Floor as real) * 0.25).Floor as real
        + (275.0 * d.mon as real / 9.0).Floor as real + d.day as real + 1721013.5 == START + DayNumber(d) as real
  {
    hide DayNumber;
    FloorOfQuotient(d.mon + 9, 12);
    FloorOfQuotient(275 * d.mon, 9);
    var y := d.year + (d.mon + 9) / 12;
    FloorOfQuotient(7 * y, 4);
    assert 7.0 * y as real * 0.25 == (7 * y) as real / 4.0;
    IntegerFormula(d);
  }

  lemma IntegerFormula(d: Date)
    requires Valid(d)
    ensures 367 * d.year - 7 * (d.year + (d.mon + 9) / 12) / 4 + 275 * d.mon / 9 + d.day + 1721013 == 2415019 + DayNumber(d)
  {
    hide MonthStart;
    MonthStarts(d.year);
    LeapDays(d.year, d.year / 4, d.year % 4);
    assert (d.mon + 9) / 12 == if d.mon > 2 then 1 else 0;
  }

  /** The two ways of counting leap days, before March and from March on. */
  lemma LeapDays(year: int, q: int, r: int)
    requires year == 4 * q + r && 0 <= r < 4
    ensures 2 * year - 7 * year / 4 == (year - 1897) / 4 + 475
    ensures 2 * year - 7 * (year + 1) / 4 == (year - 1897) / 4 + 475 - YearShort(year)
  {
    assert 7 * year / 4 == 7 * q + 7 * r / 4 && 7 * (year + 1) / 4 == 7 * q + (7 * r + 7) / 4;
    assert (year - 1897) / 4 == q - 475 + (r + 3) / 4;
  }

  /** Month, day and time of a day of the year. */
  method Days2mdhms(year: int, days: real) returns (mon: int, day: int, t: Time)
    ensures 1 <= mon <= 12 && day == days.Floor - MonthStart(year, mon)
    ensures 1.0 <= days < YearLength(year) as real + 1.0 ==> Valid(Date(year, mon, day))
    ensures days >= YearLength(year) as real + 1.0 ==> mon == 12 && day == days.Floor - YearLength(year) + 31
    ensures ValidTime(t) && days == days.Floor as real + DayPart(t)
  {
    var lmonth := [0] + MONTH_DAYS;
    var dayofyr := days.Floor;
    if year % 4 == 0 {
      lmonth := lmonth[2 := 29];
    }
    MonthStarts(year);
    var i, inttemp := 1, 0;
    while dayofyr > inttemp + lmonth[i] && i < 12
      invariant 1 <= i <= 12 && inttemp == MonthStart(year, i)
      invariant dayofyr >= 1 ==> dayofyr > inttemp
      decreases 12 - i
    {
      inttemp := inttemp + lmonth[i];
      i := i + 1;
    }
    mon := i;
    day := dayofyr - inttemp;
    var temp := (days - dayofyr as real) * 24.0;
    var hr := temp.Floor;
    temp := (temp - hr as real) * 60.0;
    var minute := temp.Floor;
    t := Time(hr, minute, (temp - minute as real) * 60.0);
    assert MonthStart(year, 13) == MonthStart(year, 12) + MonthLength(year, 12);
  }

  /** Whole days in the fraction, which are carried over to the date. */
  function Carried(jdfrac: real): int { if jdfrac >= 1.0 || jdfrac <= -1.0 then jdfrac.Floor else 0 }

  /** The number of the day that begins at the midnight nearest to a Julian date. */
  function NearestDay(jd: real, jdfrac: real): int { (jd + Carried(jdfrac) as real).Floor - 2415019 }

  /** The time since that midnight, in days; it may be negative, or more than one. */
  function Since(jd: real, jdfrac: real): real { jd + jdfrac - START - NearestDay(jd, jdfrac) as real }

  /** Not so close to midnight that the difference is ignored. */
  predicate Regular(jd: real, jdfrac: real) {
    var dt := jd + Carried(jdfrac) as real - (jd + Carried(jdfrac) as real).Floor as real - 0.5;
    dt == 0.0 || dt > 0.00000001 || dt < -0.00000001
  }

  function YearOf(n: int): int { 1900 + 4 * n / 1461 }

  /** The last day of a year passed by more than a day. */
  predicate Spills(jd: real, jdfrac: real) {
    Since(jd, jdfrac) >= 1.0 && YearStart(YearOf(NearestDay(jd, jdfrac)) + 1) == NearestDay(jd, jdfrac) + 1
  }

  /** The date and the time of a Julian date: they always add up to it, but past the end of a year the
      date may come out as the 32nd of December. */
  method InvJDay(jd0: real, jdfrac0: real) returns (d: Date, t: Time)
    requires Regular(jd0, jdfrac0)
    ensures 1 <= d.mon <= 12 && ValidTime(t) && START + DayNumber(d) as real + DayPart(t) == jd0 + jdfrac0
    ensures Valid(d) <==> !Spills(jd0, jdfrac0)
    ensures Spills(jd0, jdfrac0) ==> d == Date(YearOf(NearestDay(jd0, jdfrac0)), 12, 32)
  {
    hide YearStart, MonthStart, YearLength, YearOf, DayPart, IsLeap;
    ghost var n, f := NearestDay(jd0, jdfrac0), Since(jd0, jdfrac0);
    var jd, jdfrac := jd0, jdfrac0;
    if jdfrac >= 1.0 || jdfrac <= -1.0 {
      jd := jd + jdfrac.Floor as real;
      jdfrac := jdfrac - jdfrac.Floor as real;
    }
    var dt := jd - jd.Floor as real - 0.5;
    if dt > 0.00000001 || dt < -0.00000001 {
      jd := jd - dt;
      jdfrac := jdfrac + dt;
    }
    assert jd == START + n as real && jdfrac == f;
    var temp := jd - 2415019.5;
    var tu := temp / 365.25;
    var year := 1900 + tu.Floor;
    var leapyrs := ((year - 1901) as real * 0.25).Floor;
    var days := (temp - ((year - 1900) as real * 365.0 + leapyrs as real)).Floor as real;
    YearOfDay(n, year, leapyrs);
    DayOfYear(n, year, leapyrs);
    if days + jdfrac < 1.0 {
      year := year - 1;
      leapyrs := ((year - 1901) as real * 0.25).Floor;
      days := (temp - ((year - 1900) as real * 365.0 + leapyrs as real)).Floor as real;
      LeapYears(year, leapyrs);
      DayOfYear(n, year, leapyrs);
    }
    YearGrows(YearOf(n) - 1);
    YearGrows(YearOf(n));
    var mon, day;
    mon, day, t := Days2mdhms(year, days + jdfrac);
    d := Date(year, mon, day);
  }

  lemma Midnight(jd: real, jdfrac: real, n: int)
    requires jd == START + n as real && 0.0 <= jdfrac < 1.0
    ensures NearestDay(jd, jdfrac) == n && Since(jd, jdfrac) == jdfrac && Regular(jd, jdfrac)
  {
    FloorOfSum(2415019 + n, 0.5);
    assert jd == (2415019 + n) as real + 0.5;
  }

  lemma DayOfYear(n: int, year: int, leapyrs: int)
    requires (year - 1900) * 365 + leapyrs == YearStart(year) - 1
    ensures (n as real - ((year - 1900) as real * 365.0 + leapyrs as real)).Floor == n - YearStart(year) + 1
  {
    FloorOfSum(n - YearStart(year) + 1, 0.0);
    assert n as real - ((year - 1900) as real * 365.0 + leapyrs as real) == (n - YearStart(year) + 1) as real;
  }

  /** The year in which day `n` after the beginning of 1900 lies. */
  lemma YearOfDay(n: int, year: int, leapyrs: int)
    requires year == 1900 + (n as real / 365.25).Floor && leapyrs == ((year - 1901) as real * 0.25).Floor
    ensures year == YearOf(n) && YearStart(year) <= n < YearStart(year + 1)
    ensures (year - 1900) * 365 + leapyrs == YearStart(year) - 1
  {
    FloorOfQuotient(4 * n, 1461);
    assert n as real / 365.25 == (4 * n) as real / 1461.0;
    LeapYears(year, leapyrs);
  }

  lemma LeapYears(year: int, leapyrs: int)
    requires leapyrs == ((year - 1901) as real * 0.25).Floor
    ensures (year - 1900) * 365 + leapyrs == YearStart(year) - 1
  {
    FloorOfQuotient(year - 1901, 4);
    assert (year - 1901) as real * 0.25 == (year - 1901) as real / 4.0;
  }

  /** There and back: every date and time comes back. */
  method RoundTrip(d: Date, t: Time) returns (d2: Date, t2: Time)
    requires Valid(d) && ValidTime(t)
    ensures d2 == d && t2 == t
  {
    var jd, jdFrac := JDay(d, t);
    Midnight(jd, jdFrac, DayNumber(d));
    d2, t2 := InvJDay(jd, jdFrac);
    DayPartBelowOne(t2);
    SameSum(DayNumber(d), DayPart(t), DayNumber(d2), DayPart(t2));
    SameDay(d, d2);
    SameTime(t, t2);
  }

  lemma DayPartBelowOne(t: Time)
    requires ValidTime(t)
    ensures 0.0 <= DayPart(t) < 1.0
  {
  }

  lemma SameSum(m: int, a: real, n: int, b: real)
    requires 0.0 <= a < 1.0 && 0.0 <= b < 1.0 && m as real + a == n as real + b
    ensures m == n && a == b
  {
    FloorOfSum(m, a);
    FloorOfSum(n, b);
  }

  /** Different days have different numbers. */
  lemma SameDay(a: Date, b: Date)
    requires Valid(a) && Valid(b) && DayNumber(a) == DayNumber(b)
    ensures a == b
  {
    MonthStarts(a.year);
    MonthStarts(b.year);
    if a.year < b.year { Earlier(a, b); }
    if b.year < a.year { Earlier(b, a); }
  }

  lemma Earlier(a: Date, b: Date)
    requires Valid(a) && Valid(b) && a.year < b.year
    ensures DayNumber(a) < DayNumber(b)
  {
    MonthStarts(a.year);
    MonthStarts(b.year);
    YearGrows(a.year);
  }

  lemma SameTime(a: Time, b: Time)
    requires ValidTime(a) && ValidTime(b) && DayPart(a) == DayPart(b)
    ensures a == b
  {
  }
}
