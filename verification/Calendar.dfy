/**
 `mktime64` of jiffies.c against the Gregorian calendar (section 3.2.1 of ISO 8601:2004),
 which is described here by counting days year by year and month by month.
 */
module Calendar {
  import opened Words

  // ----- the calendar -----

  datatype Date = Date(year: int, month: int, day: int)

  predicate IsLeap(year: int) {
    year % 4 == 0 && (year % 100 != 0 || year % 400 == 0)
  }

  function DaysInMonth(year: int, month: int): (days: int)
    ensures 28 <= days <= 31
  {
    match month
    case 2 => if IsLeap(year) then 29 else 28
    case 4 => 30
    case 6 => 30
    case 9 => 30
    case 11 => 30
    case _ => 31
  }

  predicate IsDate(d: Date) {
    1 <= d.year && 1 <= d.month <= 12 && 1 <= d.day <= DaysInMonth(d.year, d.month)
  }

  function NextDate(d: Date): Date {
    if d.day < DaysInMonth(d.year, d.month) then d.(day := d.day + 1)
    else if d.month < 12 then Date(d.year, d.month + 1, 1)
    else Date(d.year + 1, 1, 1)
  }

  /** The days of the years 1 to `year`. */
  function DaysOfYears(year: nat): int {
    if year == 0 then 0 else DaysOfYears(year - 1) + if IsLeap(year) then 366 else 365
  }

  /** The days of the months 1 to `month` of a year. */
  function DaysOfMonths(year: int, month: nat): int {
    if month == 0 then 0 else DaysOfMonths(year, month - 1) + DaysInMonth(year, month)
  }

  /** The number of days from the first of January of year 1 to `d`. */
  function DayCount(d: Date): int
    requires IsDate(d)
  {
    DaysOfYears(d.year - 1) + DaysOfMonths(d.year, d.month - 1) + d.day - 1
  }

  const EPOCH := Date(1970, 1, 1)

  // ----- mktime64 -----

  function ToS32(x: U32): int {
    if x < 0x8000_0000 then x else x - B32
  }

  /** March is month 1 of the shifted year, so that the leap day comes last. */
  function ShiftedMonth(mon0: U32): U32 {
    var mon := ToU32(mon0 - 2);
    if 0 >= ToS32(mon) then ToU32(mon + 12) else mon
  }

  function ShiftedYear(year0: U32, mon0: U32): U32 {
    if 0 >= ToS32(ToU32(mon0 - 2)) then ToU32(year0 - 1) else year0
  }

  /** The days since the epoch, in the mixed 32-bit and 64-bit arithmetic of the program. */
  function ProgramDays(year0: U32, mon0: U32, day: U32): int {
    var mon, year := ShiftedMonth(mon0), ShiftedYear(year0, mon0);
    ToU32(year / 4 - year / 100 + year / 400 + ToU32(367 * mon) / 12 + day) + ToU32(year * 365) - 719499
  }

  function Mktime64(year0: U32, mon0: U32, day: U32, hour: U32, min: U32, sec: U32): int {
    ((ProgramDays(year0, mon0, day) * 24 + hour) * 60 + min) * 60 + sec
  }

  // ----- agreement -----

  lemma LeapStep(y: nat)
    requires y > 0
    ensures y / 4 - y / 100 + y / 400 ==
            (y - 1) / 4 - (y - 1) / 100 + (y - 1) / 400 + if IsLeap(y) then 1 else 0
  {
    DivStep(y, 4);
    DivStep(y, 100);
    DivStep(y, 400);
    MultipleOfMultiple(y, 100, 4);
    MultipleOfMultiple(y, 4, 25);
  }

  lemma MultipleOfMultiple(y: int, d: int, k: int)
    requires d > 0 && k * d > 0
    ensures y % (k * d) == 0 ==> y % d == 0
  {
    if y % (k * d) == 0 {
      var q := y / (k * d);
      assert y == q * (k * d) == (q * k) * d;
      DivModUnique(y, d, q * k, 0);
    }
  }

  lemma DivStep(y: nat, d: int)
    requires y > 0 && d > 1
    ensures y / d == (y - 1) / d + if y % d == 0 then 1 else 0
  {
    assert y == (y / d) * d + y % d;
    if y % d == 0 {
      assert y - 1 == (y / d - 1) * d + (d - 1);
      DivModUnique(y - 1, d, y / d - 1, d - 1);
    } else {
      DivModUnique(y - 1, d, y / d, y % d - 1);
    }
  }

  lemma {:induction false} YearFormula(year: nat)
    ensures DaysOfYears(year) == 365 * year + year / 4 - year / 100 + year / 400
  {
    if year > 0 {
      YearFormula(year - 1);
      LeapStep(year);
    }
  }

  /** The month term of the formula, before and after the leap day. */
  lemma MonthFormula(year: int, month: int)
    requires 1 <= month <= 12
    ensures month <= 2 ==> DaysOfMonths(year, month - 1) == 367 * (month + 10) / 12 - 336
    ensures month > 2 ==> DaysOfMonths(year, month - 1) == 367 * (month - 2) / 12 + 29 + if IsLeap(year) then 1 else 0
  {
    assert DaysOfMonths(year, 0) == 0;
    assert DaysOfMonths(year, 1) == 31;
    var f := DaysInMonth(year, 2);
    assert DaysOfMonths(year, 2) == 31 + f;
    assert DaysOfMonths(year, 3) == 62 + f;
    assert DaysOfMonths(year, 4) == 92 + f;
    assert DaysOfMonths(year, 5) == 123 + f;
    assert DaysOfMonths(year, 6) == 153 + f;
    assert DaysOfMonths(year, 7) == 184 + f;
    assert DaysOfMonths(year, 8) == 215 + f;
    assert DaysOfMonths(year, 9) == 245 + f;
    assert DaysOfMonths(year, 10) == 276 + f;
    assert DaysOfMonths(year, 11) == 306 + f;
  }

  /** The formula of the program without its 32-bit wrap-around is the day count. */
  lemma UnwrappedFormula(d: Date)
    requires IsDate(d)
    ensures var y := if d.month <= 2 then d.year - 1 else d.year;
      var m := if d.month <= 2 then d.month + 10 else d.month - 2;
      y / 4 - y / 100 + y / 400 + 367 * m / 12 + d.day + y * 365 - 719499 == DayCount(d) - 719162
  {
    hide DaysOfYears, DaysOfMonths;
    MonthFormula(d.year, d.month);
    YearFormula(d.year - 1);
    if d.month > 2 {
      LeapStep(d.year);
    }
  }

  lemma EpochCount()
    ensures IsDate(EPOCH) && DayCount(EPOCH) == 719162
  {
    YearFormula(1969);
    hide DaysOfYears;
  }

  lemma ShiftedDate(year: U32, month: U32)
    requires 1 <= year && 1 <= month <= 12
    ensures ShiftedYear(year, month) == if month <= 2 then year - 1 else year
    ensures ShiftedMonth(month) == if month <= 2 then month + 10 else month - 2
  {
  }

  lemma YearDaysWrap(y: U32)
    ensures ToU32(y * 365) == y * 365 - (y * 365) / B32 * B32
    ensures (y * 365) / B32 == 0 <==> y <= 11767033
  {
  }

  lemma SmallTerms(y: U32, m: U32, day: int)
    requires 1 <= m <= 12 && 0 <= day <= 31
    ensures var t := y / 4 - y / 100 + y / 400 + 367 * m / 12 + day;
      0 <= t < B32 && ToU32(367 * m) == 367 * m && ToU32(t) == t
  {
  }

  /**
   The days computed fall short of the true ones by as many times 2^32 as 365 times the
   shifted year overflows 32 bits.
   */
  lemma DaysShort(d: Date)
    requires IsDate(d) && d.year < B32
    ensures var year := if d.month <= 2 then d.year - 1 else d.year;
      ProgramDays(d.year, d.month, d.day) == DayCount(d) - DayCount(EPOCH) - (year * 365) / B32 * B32
  {
    hide DayCount, IsLeap, ShiftedYear, ShiftedMonth, ToU32;
    UnwrappedFormula(d);
    EpochCount();
    ShiftedDate(d.year, d.month);
    var y, m := ShiftedYear(d.year, d.month), ShiftedMonth(d.month);
    SmallTerms(y, m, d.day);
    YearDaysWrap(y);
  }

  /** The days computed are the true ones exactly up to the largest year that does not overflow. */
  lemma DaysExactIff(d: Date)
    requires IsDate(d) && d.year < B32
    ensures ProgramDays(d.year, d.month, d.day) == DayCount(d) - DayCount(EPOCH)
        <==> ShiftedYear(d.year, d.month) <= 11767033
  {
    hide DayCount, IsLeap, ShiftedYear, ShiftedMonth, ToU32;
    DaysShort(d);
    ShiftedDate(d.year, d.month);
    YearDaysWrap(ShiftedYear(d.year, d.month));
  }

  /** `mktime64` on any date, with the overflow of the year. */
  lemma MktimeShort(d: Date, hour: U32, min: U32, sec: U32)
    requires IsDate(d) && d.year < B32
    ensures var year := if d.month <= 2 then d.year - 1 else d.year;
      Mktime64(d.year, d.month, d.day, hour, min, sec) ==
        86400 * (DayCount(d) - DayCount(EPOCH) - (year * 365) / B32 * B32) + 3600 * hour + 60 * min + sec
  {
    hide DayCount, ProgramDays;
    DaysShort(d);
  }

  /** `mktime64` counts the seconds of the Gregorian calendar from the epoch on. */
  lemma MktimeExact(d: Date, hour: U32, min: U32, sec: U32)
    requires IsDate(d) && d.year <= 11767033
    ensures Mktime64(d.year, d.month, d.day, hour, min, sec) ==
            86400 * (DayCount(d) - DayCount(EPOCH)) + 3600 * hour + 60 * min + sec
  {
    hide DayCount, Mktime64;
    MktimeShort(d, hour, min, sec);
    YearDaysWrap(d.year);
    YearDaysWrap(d.year - 1);
  }

  // ----- consequences -----

  lemma NextDateCount(d: Date)
    requires IsDate(d)
    ensures IsDate(NextDate(d)) && DayCount(NextDate(d)) == DayCount(d) + 1
  {
    hide DaysOfMonths, DaysOfYears, IsLeap;
    NextMonth(d.year, d.month);
    WholeYear(d.year);
  }

  lemma NextMonth(year: nat, month: nat)
    requires year > 0 && month > 0
    ensures DaysOfMonths(year, month) == DaysOfMonths(year, month - 1) + DaysInMonth(year, month)
    ensures DaysOfMonths(year, 0) == 0 && DaysOfMonths(year + 1, 0) == 0
    ensures DaysOfYears(year) == DaysOfYears(year - 1) + if IsLeap(year) then 366 else 365
  {
  }

  lemma WholeYear(year: nat)
    requires year > 0
    ensures DaysOfMonths(year, 11) + 31 == if IsLeap(year) then 366 else 365
  {
    MonthFormula(year, 12);
  }

  lemma EpochIsZero()
    ensures Mktime64(1970, 1, 1, 0, 0, 0) == 0
  {
    hide DayCount, Mktime64;
    EpochCount();
    MktimeExact(EPOCH, 0, 0, 0);
  }

  /** Each day begins 86400 seconds after the one before. */
  lemma NextDayIsLater(d: Date, n: Date, hour: U32, min: U32, sec: U32)
    requires IsDate(d) && n == NextDate(d) && n.year <= 11767033
    ensures IsDate(n)
    ensures Mktime64(n.year, n.month, n.day, hour, min, sec) == Mktime64(d.year, d.month, d.day, hour, min, sec) + 86400
  {
    hide DayCount, Mktime64;
    NextDateCount(d);
    MktimeExact(d, hour, min, sec);
    MktimeExact(n, hour, min, sec);
  }

  predicate Earlier(a: Date, b: Date) {
    a.year < b.year || (a.year == b.year && (a.month < b.month || (a.month == b.month && a.day < b.day)))
  }

  lemma {:induction false} MonthsGrow(year: int, m: nat, n: nat)
    requires 0 < m < n
    ensures DaysOfMonths(year, m - 1) + DaysInMonth(year, m) <= DaysOfMonths(year, n - 1)
  {
    if m < n - 1 {
      MonthsGrow(year, m, n - 1);
    }
  }

  lemma {:induction false} YearsGrow(m: nat, n: nat)
    requires 0 < m < n
    ensures DaysOfYears(m - 1) + (if IsLeap(m) then 366 else 365) <= DaysOfYears(n - 1)
  {
    if m < n - 1 {
      YearsGrow(m, n - 1);
    }
  }

  lemma WithinYear(d: Date)
    requires IsDate(d)
    ensures DaysOfMonths(d.year, d.month - 1) + d.day <= if IsLeap(d.year) then 366 else 365
  {
    WholeYear(d.year);
    hide IsLeap;
    if d.month < 12 {
      MonthsGrow(d.year, d.month, 12);
    }
  }

  lemma {:induction false} MonthsNatural(year: int, month: nat)
    ensures DaysOfMonths(year, month) >= 0
  {
    if month > 0 {
      MonthsNatural(year, month - 1);
    }
  }

  lemma LaterDateLargerCount(a: Date, b: Date)
    requires IsDate(a) && IsDate(b) && Earlier(a, b)
    ensures DayCount(a) < DayCount(b)
  {
    hide IsLeap, DaysOfYears, DaysOfMonths, DaysInMonth;
    MonthsNatural(b.year, b.month - 1);
    WithinYear(a);
    if a.year < b.year {
      YearsGrow(a.year, b.year);
    } else if a.month < b.month {
      MonthsGrow(a.year, a.month, b.month);
    }
  }

  /** A later date has a larger day count, so `mktime64` is strictly increasing on dates. */
  lemma LaterDateLaterTime(a: Date, b: Date, hour: U32, min: U32, sec: U32)
    requires IsDate(a) && IsDate(b) && Earlier(a, b) && b.year <= 11767033
    ensures Mktime64(a.year, a.month, a.day, hour, min, sec) < Mktime64(b.year, b.month, b.day, hour, min, sec)
  {
    hide Mktime64, DayCount;
    MktimeExact(a, hour, min, sec);
    MktimeExact(b, hour, min, sec);
    LaterDateLargerCount(a, b);
  }
}
