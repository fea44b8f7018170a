/** Calendar arithmetic: the closed form for dates of the proleptic Gregorian calendar. */
module Calendar {

  datatype Date = Date(year: int, month: int, day: int)

  /** Integer division as Rust performs it: toward zero. */
  function Quotient(a: int, b: int): int
    requires b > 0
  {
    if a >= 0 then a / b else -(-a / b)
  }

  function EraOf(z: int): int {
    Quotient(if z >= 0 then z else z - 146_096, 146_097)
  }

  function YearOfEra(doe: int): int {
    Quotient(doe - Quotient(doe, 1_460) + Quotient(doe, 36_524) - Quotient(doe, 146_096), 365)
  }

  function MonthPart(doy: int): int {
    Quotient(5 * doy + 2, 153)
  }

  /** The date of a day of the year that starts in March of `year`. */
  function DateInYear(year: int, doy: int): Date {
    var month_part := MonthPart(doy);
    var day := doy - Quotient(153 * month_part + 2, 5) + 1;
    var month := month_part + if month_part < 10 then 3 else -9;
    Date(year + (if month <= 2 then 1 else 0), month, day)
  }

  function CivilFromDays(days: int): Date {
    var z := days + 719_468;
    var era := EraOf(z);
    var doe := z - era * 146_097;
    var yoe := YearOfEra(doe);
    var year := yoe + era * 400;
    var doy := doe - (365 * yoe + Quotient(yoe, 4) - Quotient(yoe, 100));
    DateInYear(year, doy)
  }

  /* The calendar. */

  predicate IsLeap(year: int) {
    year % 4 == 0 && (year % 100 != 0 || year % 400 == 0)
  }

  function DaysInMonth(year: int, month: int): int {
    if month == 2 then if IsLeap(year) then 29 else 28
    else if month == 4 || month == 6 || month == 9 || month == 11 then 30
    else 31
  }

  predicate IsDate(d: Date) {
    1 <= d.month <= 12 && 1 <= d.day <= DaysInMonth(d.year, d.month)
  }

  /** The day after. */
  function Next(d: Date): Date {
    if d.day < DaysInMonth(d.year, d.month) then Date(d.year, d.month, d.day + 1)
    else if d.month < 12 then Date(d.year, d.month + 1, 1)
    else Date(d.year + 1, 1, 1)
  }

  lemma EraBounds(z: int)
    ensures 0 <= z - EraOf(z) * 146_097 < 146_097
  {
  }

  /** Days of an era before its year `yoe`, years starting in March. */
  function YearStart(yoe: int): int {
    365 * yoe + yoe / 4 - yoe / 100
  }

  /** A day of an era by century `c`, four-year cycle `q` and day of the cycle `s`. */
  lemma YearOfEraParts(doe: int, c: int, q: int, s: int)
    requires doe == 36_524 * c + 1_461 * q + s
    requires 0 <= c < 4 && 0 <= q < 25 && 0 <= s <= 1_460 && (q == 24 ==> s < 1_460)
    ensures YearOfEra(doe) == 100 * c + 4 * q + (if s < 1_460 then s / 365 else 3)
  {
    var e := if 24 * c + q + s < 1_460 then 0 else 1;
    FourYearDays(doe, 25 * c + q + e, 24 * c + q + s - 1_460 * e);
    CenturyDays(doe, c, 1_461 * q + s);
    assert doe - doe / 1_460 + doe / 36_524 - doe / 146_096 == 365 * (100 * c + 4 * q) + (s - e);
    YearsAfter(100 * c + 4 * q, s - e);
  }

  lemma FourYearDays(doe: int, k: int, r: int)
    requires doe == 1_460 * k + r && 0 <= r < 1_460
    ensures doe / 1_460 == k
  {
  }

  lemma CenturyDays(doe: int, c: int, r: int)
    requires doe == 36_524 * c + r && 0 <= r < 36_524 && 0 <= c < 4
    ensures doe / 36_524 == c && doe / 146_096 == 0
  {
  }

  lemma YearsAfter(y: int, r: int)
    requires 0 <= r
    ensures (365 * y + r) / 365 == y + r / 365
  {
  }

  lemma YearOfEraBounds(doe: int)
    requires 0 <= doe < 146_097
    ensures var y := YearOfEra(doe); 0 <= y < 400 && YearStart(y) <= doe && (y < 399 ==> doe < YearStart(y + 1))
  {
    if doe < 146_096 {
      var c, r := doe / 36_524, doe % 36_524;
      var q, s := r / 1_461, r % 1_461;
      YearOfEraParts(doe, c, q, s);
      YearStartParts(c, q, if s < 1_460 then s / 365 else 3);
    }
  }

  lemma YearStartParts(c: int, q: int, t: int)
    requires 0 <= c < 4 && 0 <= q < 25 && 0 <= t < 4
    ensures YearStart(100 * c + 4 * q + t) == 36_524 * c + 1_461 * q + 365 * t
    ensures YearStart(100 * c + 4 * q + t + 1)
         == 36_524 * c + 1_461 * q + 365 * (t + 1) + (if t < 3 || q == 24 then 0 else 1)
  {
  }

  /** Length of the year that starts in March of `year`; the leap day is its last. */
  function MarchYearLength(year: int): int {
    if IsLeap(year + 1) then 366 else 365
  }

  lemma LeapEveryEra(yoe: int, era: int)
    ensures IsLeap(yoe + 400 * era) <==> IsLeap(yoe)
  {
    Remainders(yoe, era);
  }

  lemma Remainders(yoe: int, era: int)
    ensures (yoe + 400 * era) % 4 == yoe % 4
    ensures (yoe + 400 * era) % 100 == yoe % 100
    ensures (yoe + 400 * era) % 400 == yoe % 400
  {
    Remainder4(yoe / 4 + 100 * era, yoe % 4);
    Remainder100(yoe / 100 + 4 * era, yoe % 100);
    Remainder400(yoe / 400 + era, yoe % 400);
  }

  lemma Remainder4(q: int, r: int)
    requires 0 <= r < 4
    ensures (4 * q + r) % 4 == r
  {
  }

  lemma Remainder100(q: int, r: int)
    requires 0 <= r < 100
    ensures (100 * q + r) % 100 == r
  {
  }

  lemma Remainder400(q: int, r: int)
    requires 0 <= r < 400
    ensures (400 * q + r) % 400 == r
  {
  }

  lemma YearStartStep(yoe: int)
    requires 0 <= yoe < 400
    ensures (if yoe < 399 then YearStart(yoe + 1) else 146_097) == YearStart(yoe) + MarchYearLength(yoe)
  {
    FourthStep(yoe);
    HundredthStep(yoe);
    if yoe < 399 {
      assert (yoe + 1) % 400 != 0;
    }
  }

  lemma FourthStep(y: int)
    requires 0 <= y
    ensures (y + 1) / 4 == y / 4 + if (y + 1) % 4 == 0 then 1 else 0
  {
  }

  lemma HundredthStep(y: int)
    requires 0 <= y
    ensures (y + 1) / 100 == y / 100 + if (y + 1) % 100 == 0 then 1 else 0
    ensures (y + 1) % 100 == 0 ==> (y + 1) % 4 == 0
  {
  }

  /** Days of the year before its month number `m`, counting from March. */
  function MonthStart(m: int): int {
    if m == 0 then 0 else if m == 1 then 31 else if m == 2 then 61 else if m == 3 then 92 else if m == 4 then 122
    else if m == 5 then 153 else if m == 6 then 184 else if m == 7 then 214 else if m == 8 then 245
    else if m == 9 then 275 else if m == 10 then 306 else if m == 11 then 337 else 366
  }

  lemma DateParts(year: int, doy: int, m: int)
    requires 0 <= m < 12 && MonthStart(m) <= doy < MonthStart(m + 1)
    ensures DateInYear(year, doy)
         == Date(year + (if m < 10 then 0 else 1), if m < 10 then m + 3 else m - 9, doy - MonthStart(m) + 1)
  {
    assert (153 * m + 2) / 5 == MonthStart(m);
    assert 153 * m <= 5 * doy + 2 < 153 * (m + 1);
  }

  /** The month of a day of the year. */
  function MonthOf(doy: int): (m: int)
    requires 0 <= doy < 366
    ensures 0 <= m < 12 && MonthStart(m) <= doy < MonthStart(m + 1)
  {
    if doy < 31 then 0 else if doy < 61 then 1 else if doy < 92 then 2 else if doy < 122 then 3 else if doy < 153 then 4
    else if doy < 184 then 5 else if doy < 214 then 6 else if doy < 245 then 7 else if doy < 275 then 8
    else if doy < 306 then 9 else if doy < 337 then 10 else 11
  }

  lemma DateIsValid(year: int, doy: int)
    requires 0 <= doy < MarchYearLength(year)
    ensures IsDate(DateInYear(year, doy))
  {
    hide DateInYear;
    DateParts(year, doy, MonthOf(doy));
  }

  lemma DateSteps(year: int, doy: int)
    requires 0 <= doy < MarchYearLength(year) - 1
    ensures DateInYear(year, doy + 1) == Next(DateInYear(year, doy))
  {
    hide DateInYear;
    var m := MonthOf(doy);
    DateParts(year, doy, m);
    if doy + 1 < MonthStart(m + 1) {
      DateParts(year, doy + 1, m);
    } else {
      DateParts(year, doy + 1, m + 1);
    }
  }

  lemma YearSteps(year: int)
    ensures DateInYear(year + 1, 0) == Next(DateInYear(year, MarchYearLength(year) - 1))
  {
  }

  /** The two numbers the closed form computes from a day: the year that starts in March, and the day in it. */
  function MarchYear(days: int): int {
    var era := EraOf(days + 719_468);
    YearOfEra(days + 719_468 - era * 146_097) + 400 * era
  }

  function MarchDay(days: int): int {
    var era := EraOf(days + 719_468);
    var doe := days + 719_468 - era * 146_097;
    doe - YearStart(YearOfEra(doe))
  }

  lemma CivilIsMarch(days: int)
    ensures CivilFromDays(days) == DateInYear(MarchYear(days), MarchDay(days))
  {
    hide YearOfEra, EraOf, DateInYear, Quotient, YearStart;
    var era := EraOf(days + 719_468);
    var doe := days + 719_468 - era * 146_097;
    EraBounds(days + 719_468);
    YearOfEraBounds(doe);
    YearStartQuotients(YearOfEra(doe));
  }

  lemma MarchDayFits(days: int)
    ensures 0 <= MarchDay(days) < MarchYearLength(MarchYear(days))
  {
    hide YearOfEra, EraOf, MarchYearLength, YearStart;
    var era := EraOf(days + 719_468);
    var doe := days + 719_468 - era * 146_097;
    EraBounds(days + 719_468);
    YearOfEraBounds(doe);
    DayInYear(doe, YearOfEra(doe), era);
  }

  lemma YearStartQuotients(yoe: int)
    requires 0 <= yoe
    ensures 365 * yoe + Quotient(yoe, 4) - Quotient(yoe, 100) == YearStart(yoe)
  {
  }

  lemma DayInYear(doe: int, yoe: int, era: int)
    requires 0 <= yoe < 400 && YearStart(yoe) <= doe < 146_097 && (yoe < 399 ==> doe < YearStart(yoe + 1))
    ensures 0 <= doe - YearStart(yoe) < MarchYearLength(yoe + 400 * era)
  {
    YearStartStep(yoe);
    hide IsLeap, YearStart;
    LeapEveryEra(yoe + 1, era);
  }

  lemma EraUnique(z: int, era: int)
    requires 0 <= z - era * 146_097 < 146_097
    ensures EraOf(z) == era
  {
    EraBounds(z);
    hide EraOf;
  }

  lemma {:induction false} YearStartGrows(a: int, b: int)
    requires 0 <= a <= b
    ensures YearStart(a) <= YearStart(b)
    decreases b - a
  {
    if a < b {
      YearStartGrows(a + 1, b);
    }
  }

  /** The year of the era is determined by the days before it and after it. */
  lemma YearUnique(doe: int, y: int)
    requires 0 <= doe < 146_097 && 0 <= y < 400
    requires YearStart(y) <= doe && (y < 399 ==> doe < YearStart(y + 1))
    ensures YearOfEra(doe) == y
  {
    YearOfEraBounds(doe);
    var x := YearOfEra(doe);
    hide YearOfEra, YearStart;
    if x < y {
      YearStartGrows(x + 1, y);
    } else if y < x {
      YearStartGrows(y + 1, x);
    }
  }

  lemma MarchOf(days: int, era: int, yoe: int, doy: int)
    requires 0 <= yoe < 400 && 0 <= doy < MarchYearLength(yoe)
    requires days + 719_468 == era * 146_097 + YearStart(yoe) + doy
    ensures MarchYear(days) == yoe + 400 * era && MarchDay(days) == doy
  {
    var doe := YearStart(yoe) + doy;
    YearStartStep(yoe);
    EraEnd(yoe);
    hide EraOf, YearOfEra, YearStart, MarchYearLength;
    EraUnique(days + 719_468, era);
    YearUnique(doe, yoe);
  }

  lemma EraEnd(yoe: int)
    requires 0 <= yoe < 400
    ensures 0 <= YearStart(yoe) && YearStart(yoe) + MarchYearLength(yoe) <= 146_097
  {
    YearStartStep(yoe);
    YearStartGrows(0, yoe);
    if yoe < 399 {
      YearStartGrows(yoe + 1, 400);
    }
  }

  /** One day later is the next day of the same March year, or the first of the next. */
  lemma MarchNext(days: int)
    ensures if MarchDay(days) + 1 < MarchYearLength(MarchYear(days))
            then MarchYear(days + 1) == MarchYear(days) && MarchDay(days + 1) == MarchDay(days) + 1
            else MarchYear(days + 1) == MarchYear(days) + 1 && MarchDay(days + 1) == 0
  {
    hide EraOf, YearOfEra, YearStart, MarchYearLength, MarchYear, MarchDay;
    var era, yoe := MarchParts(days);
    var doy := MarchDay(days);
    YearStartStep(yoe);
    FirstDay(yoe + 1);
    if doy + 1 < MarchYearLength(yoe) {
      MarchOf(days + 1, era, yoe, doy + 1);
    } else if yoe < 399 {
      MarchOf(days + 1, era, yoe + 1, 0);
    } else {
      FirstDay(0);
      MarchOf(days + 1, era + 1, 0, 0);
    }
  }

  lemma MarchParts(days: int) returns (era: int, yoe: int)
    ensures 0 <= yoe < 400 && MarchYear(days) == yoe + 400 * era
    ensures 0 <= MarchDay(days) < MarchYearLength(yoe) == MarchYearLength(yoe + 400 * era)
    ensures days + 719_468 == era * 146_097 + YearStart(yoe) + MarchDay(days)
  {
    era := EraOf(days + 719_468);
    var doe := days + 719_468 - era * 146_097;
    yoe := YearOfEra(doe);
    EraBounds(days + 719_468);
    YearOfEraBounds(doe);
    LeapEveryEra(yoe + 1, era);
    hide EraOf, YearOfEra, YearStart, IsLeap;
    MarchDayFits(days);
  }

  lemma FirstDay(yoe: int)
    ensures 0 < MarchYearLength(yoe) && YearStart(0) == 0
  {
  }

  /** Every day has a valid date, and consecutive days have consecutive dates. */
  lemma CivilSteps(days: int)
    ensures IsDate(CivilFromDays(days))
    ensures CivilFromDays(days + 1) == Next(CivilFromDays(days))
  {
    hide CivilFromDays, MarchYear, MarchDay, DateInYear, IsDate, Next;
    CivilIsMarch(days);
    CivilIsMarch(days + 1);
    MarchDayFits(days);
    MarchNext(days);
    DateIsValid(MarchYear(days), MarchDay(days));
    if MarchDay(days) + 1 < MarchYearLength(MarchYear(days)) {
      DateSteps(MarchYear(days), MarchDay(days));
    } else {
      YearSteps(MarchYear(days));
    }
  }

  lemma Epoch()
    ensures CivilFromDays(0) == Date(1970, 1, 1)
  {
  }

  /* Counting days. */

  function YearLength(year: int): int {
    if IsLeap(year) then 366 else 365
  }

  /** Days from 1970-01-01 to the first of January of a year. */
  function DaysBeforeYear(year: int): int
    decreases if year >= 1970 then year - 1970 else 1970 - year
  {
    if year == 1970 then 0
    else if year > 1970 then DaysBeforeYear(year - 1) + YearLength(year - 1)
    else DaysBeforeYear(year + 1) - YearLength(year)
  }

  function DaysBeforeMonth(year: int, month: int): int
    requires 1 <= month <= 13
    decreases month
  {
    if month == 1 then 0 else DaysBeforeMonth(year, month - 1) + DaysInMonth(year, month - 1)
  }

  /** Days from 1970-01-01 to a date, counted year by year and month by month. */
  function DayNumber(d: Date): int
    requires IsDate(d)
  {
    DaysBeforeYear(d.year) + DaysBeforeMonth(d.year, d.month) + d.day - 1
  }

  lemma YearAdds(year: int)
    ensures DaysBeforeYear(year + 1) == DaysBeforeYear(year) + YearLength(year)
  {
  }

  lemma MonthsAdd(year: int)
    ensures DaysBeforeMonth(year, 13) == YearLength(year)
  {
    var feb := if IsLeap(year) then 29 else 28;
    assert DaysBeforeMonth(year, 3) == 31 + feb;
    assert DaysBeforeMonth(year, 6) == 123 + feb;
    assert DaysBeforeMonth(year, 9) == 215 + feb;
    assert DaysBeforeMonth(year, 12) == 306 + feb;
  }

  lemma NextCounts(d: Date)
    requires IsDate(d)
    ensures IsDate(Next(d)) && DayNumber(Next(d)) == DayNumber(d) + 1
  {
    YearAdds(d.year);
    MonthsAdd(d.year);
    hide DaysBeforeYear;
  }

  /** The closed form inverts the counting of days, before and after 1970. */
  lemma {:induction false} CivilCounts(days: int)
    ensures IsDate(CivilFromDays(days)) && DayNumber(CivilFromDays(days)) == days
    decreases if days >= 0 then days else -days
  {
    hide CivilFromDays, DayNumber, Next, IsDate;
    CivilSteps(days);
    if days == 0 {
      Epoch();
      EpochCounts();
    } else if days > 0 {
      CivilCounts(days - 1);
      CivilSteps(days - 1);
      NextCounts(CivilFromDays(days - 1));
    } else {
      CivilCounts(days + 1);
      NextCounts(CivilFromDays(days));
    }
  }

  lemma EpochCounts()
    ensures IsDate(Date(1970, 1, 1)) && DayNumber(Date(1970, 1, 1)) == 0
  {
  }

  lemma {:induction false} YearsGrow(a: int, b: int)
    requires a <= b
    ensures DaysBeforeYear(a) <= DaysBeforeYear(b)
    decreases b - a
  {
    if a < b {
      hide DaysBeforeYear;
      YearAdds(a);
      YearsGrow(a + 1, b);
    }
  }

  lemma {:induction false} MonthsGrow(year: int, a: int, b: int)
    requires 1 <= a <= b <= 13
    ensures 0 <= DaysBeforeMonth(year, a) <= DaysBeforeMonth(year, b)
    decreases b
  {
    if a < b {
      MonthsGrow(year, a, b - 1);
    } else if a > 1 {
      MonthsGrow(year, 1, a - 1);
    }
  }

  lemma DayFitsYear(d: Date)
    requires IsDate(d)
    ensures DaysBeforeYear(d.year) <= DayNumber(d) < DaysBeforeYear(d.year + 1)
  {
    MonthsAdd(d.year);
    YearAdds(d.year);
    MonthsGrow(d.year, 1, d.month);
    MonthsGrow(d.year, d.month + 1, 13);
    assert DaysBeforeMonth(d.year, d.month + 1) == DaysBeforeMonth(d.year, d.month) + DaysInMonth(d.year, d.month);
    hide DaysBeforeYear, DaysBeforeMonth;
  }

  lemma DayFitsMonth(d: Date)
    requires IsDate(d)
    ensures DaysBeforeMonth(d.year, d.month) <= DayNumber(d) - DaysBeforeYear(d.year)
    ensures DayNumber(d) - DaysBeforeYear(d.year) < DaysBeforeMonth(d.year, d.month + 1)
  {
    assert DaysBeforeMonth(d.year, d.month + 1) == DaysBeforeMonth(d.year, d.month) + DaysInMonth(d.year, d.month);
    hide DaysBeforeYear, DaysBeforeMonth;
  }

  /** No two dates have the same day number. */
  lemma DayNumberInjective(d: Date, e: Date)
    requires IsDate(d) && IsDate(e) && DayNumber(d) == DayNumber(e)
    ensures d == e
  {
    DayFitsYear(d);
    DayFitsYear(e);
    DayFitsMonth(d);
    DayFitsMonth(e);
    if d.year != e.year {
      YearsGrow(if d.year < e.year then d.year + 1 else e.year + 1, if d.year < e.year then e.year else d.year);
    } else if d.month != e.month {
      MonthsGrow(d.year, if d.month < e.month then d.month + 1 else e.month + 1,
                 if d.month < e.month then e.month else d.month);
    }
    hide DaysBeforeYear, DaysBeforeMonth, DaysInMonth;
  }

  /** Counting the days of a date and converting them back gives the date. */
  lemma CivilInverts(d: Date)
    requires IsDate(d)
    ensures CivilFromDays(DayNumber(d)) == d
  {
    hide CivilFromDays, DayNumber, IsDate;
    CivilCounts(DayNumber(d));
    DayNumberInjective(CivilFromDays(DayNumber(d)), d);
  }
}
