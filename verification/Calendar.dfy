/** Calendar arithmetic (src/kernel/time.c): broken-down time to seconds since the epoch. Years are since 1900, months from 0. */
module Calendar {
  const SEC_IN_MINUTE := 60
  const SEC_IN_HOUR := 3600
  const SEC_IN_DAY := 86400

  const DAYS_IN_MONTH := [31, 28, 31, 30, 31, 30, 31, 31, 30, 31, 30, 31]
  const DAYS_BEFORE_MONTH := [0, 31, 59, 90, 120, 151, 181, 212, 243, 273, 304, 334]

  /** The test as the source makes it, on years since 1900. */
  predicate IsLeap(y: int) {
    y % 4 == 0 && (y % 100 != 0 || (y + 1900) % 400 == 0)
  }

  function DaysInYear(y: int): int {
    if IsLeap(y) then 366 else 365
  }

  function DaysIn(y: int, month: nat): (d: int)
    requires month < 12
    ensures 28 <= d <= 31
  {
    if month == 1 then if IsLeap(y) then 29 else 28 else DAYS_IN_MONTH[month]
  }

  // ----- the reference: days counted by a closed formula

  /** Days from the start of 1970 to the start of a year: the formula of section 4.16 of POSIX.1-2017, with divisions rounding down. */
  function DaysBeforeYear(y: int): int {
    (y - 70) * 365 + (y - 69) / 4 - (y - 1) / 100 + (y + 299) / 400
  }

  function DaysBeforeMonth(y: int, month: nat): int
    requires month < 12
  {
    DAYS_BEFORE_MONTH[month] + (if month > 1 && IsLeap(y) then 1 else 0)
  }

  /** The number of a day, counted from 1 January 1970. */
  function DayNumber(y: int, month: nat, day: int): int
    requires month < 12
  {
    DaysBeforeYear(y) + DaysBeforeMonth(y, month) + day - 1
  }

  /** Seconds since the epoch. */
  function Seconds(y: int, month: nat, day: int, hour: int, minute: int, second: int): int
    requires month < 12
  {
    DayNumber(y, month, day) * SEC_IN_DAY + hour * SEC_IN_HOUR + minute * SEC_IN_MINUTE + second
  }

  lemma YearLength(y: int)
    ensures DaysBeforeYear(y + 1) == DaysBeforeYear(y) + DaysInYear(y)
  {
    Quarter(y);
    Century(y);
    FourCenturies(y);
    Nested(y);
  }

  lemma Quarter(y: int)
    ensures (y + 1 - 69) / 4 - (y - 69) / 4 == if y % 4 == 0 then 1 else 0
  {
  }

  lemma Century(y: int)
    ensures y / 100 - (y - 1) / 100 == if y % 100 == 0 then 1 else 0
  {
  }

  lemma FourCenturies(y: int)
    ensures (y + 300) / 400 - (y + 299) / 400 == if (y + 1900) % 400 == 0 then 1 else 0
  {
  }

  lemma Nested(y: int)
    ensures (y + 1900) % 400 == 0 ==> y % 100 == 0
    ensures y % 100 == 0 ==> y % 4 == 0
  {
  }

  lemma MonthLength(y: int, month: nat)
    requires month < 12
    ensures month < 11 ==> DaysBeforeMonth(y, month + 1) == DaysBeforeMonth(y, month) + DaysIn(y, month)
    ensures month == 11 ==> DaysBeforeMonth(y, month) + DaysIn(y, month) == DaysInYear(y)
  {
  }

  predicate ValidDate(y: int, month: nat, day: int) {
    month < 12 && 1 <= day <= DaysIn(y, month)
  }

  /** The day after a day. */
  function Tomorrow(y: int, month: nat, day: int): (int, nat, int)
    requires ValidDate(y, month, day)
  {
    if day < DaysIn(y, month) then (y, month, day + 1)
    else if month < 11 then (y, month + 1, 1)
    else (y + 1, 0, 1)
  }

  /** The numbering is the calendar's: it starts at the epoch, and the next day has the next number. */
  lemma NumberedInOrder(y: int, month: nat, day: int)
    requires ValidDate(y, month, day)
    ensures DayNumber(70, 0, 1) == 0
    ensures var (y', month', day') := Tomorrow(y, month, day);
            ValidDate(y', month', day') && DayNumber(y', month', day') == DayNumber(y, month, day) + 1
  {
    MonthLength(y, month);
    YearLength(y);
  }

  /** A later date has a larger number. */
  lemma DatesOrdered(y: int, month: nat, day: int, y': int, month': nat, day': int)
    requires ValidDate(y, month, day) && ValidDate(y', month', day')
    requires DateBefore(y, month, day, y', month', day')
    ensures DayNumber(y, month, day) < DayNumber(y', month', day')
  {
    DayInYear(y, month, day);
    DayInYear(y', month', day');
    if y < y' {
      YearsOrdered(y + 1, y');
      YearLength(y);
    } else if month < month' {
      MonthsOrdered(y, month + 1, month');
      MonthLength(y, month);
    }
  }

  lemma DayInYear(y: int, month: nat, day: int)
    requires ValidDate(y, month, day)
    ensures 0 <= DaysBeforeMonth(y, month) + day - 1 < DaysInYear(y)
  {
  }

  lemma {:induction false} YearsOrdered(y: int, y': int)
    requires y <= y'
    ensures DaysBeforeYear(y) <= DaysBeforeYear(y')
    decreases y' - y
  {
    if y < y' {
      YearLength(y);
      YearsOrdered(y + 1, y');
    }
  }

  lemma {:induction false} MonthsOrdered(y: int, month: nat, month': nat)
    requires month <= month' < 12
    ensures DaysBeforeMonth(y, month) <= DaysBeforeMonth(y, month')
    decreases month' - month
  {
    if month < month' {
      MonthLength(y, month);
      MonthsOrdered(y, month + 1, month');
    }
  }

  /** Valid times are ordered as their seconds are, so no two have the same. */
  lemma SecondsOrdered(y: int, month: nat, day: int, h: int, m: int, s: int, y': int, month': nat, day': int, h': int, m': int, s': int)
    requires ValidDate(y, month, day) && 0 <= h < 24 && 0 <= m < 60 && 0 <= s < 60
    requires ValidDate(y', month', day') && 0 <= h' < 24 && 0 <= m' < 60 && 0 <= s' < 60
    ensures Seconds(y, month, day, h, m, s) < Seconds(y', month', day', h', m', s') <==>
              DateBefore(y, month, day, y', month', day') ||
              (y == y' && month == month' && day == day' && DateBefore(h, m, s, h', m', s'))
  {
    if DateBefore(y, month, day, y', month', day') {
      DatesOrdered(y, month, day, y', month', day');
    } else if DateBefore(y', month', day', y, month, day) {
      DatesOrdered(y', month', day', y, month, day);
    }
    hide DayNumber;
  }

  /** Three fields in order, the first one the most significant. */
  predicate DateBefore(a: int, b: int, c: int, a': int, b': int, c': int) {
    a < a' || (a == a' && (b < b' || (b == b' && c < c')))
  }

  // ----- the source's functions

  /** How much too late the carried fields make the result: what is carried is added, but the field it came from is kept. */
  function Excess(hour: int, minute: int, second: int): (e: int)
    ensures e >= 0 && (e == 0 <==> second <= 59 && minute <= 59 && hour <= 23)
  {
    var minutes := if second > 59 then second / 60 else 0;
    var hours := if minute + minutes > 59 then (minute + minutes) / 60 else 0;
    var days := if hour + hours > 23 then (hour + hours) / 24 else 0;
    minutes * SEC_IN_MINUTE + hours * SEC_IN_HOUR + days * SEC_IN_DAY
  }

  /** A month that there is, for one that may not be. */
  function Month(month: int): (m: nat)
    ensures m < 12 && (0 <= month < 12 ==> m == month)
  {
    if 0 <= month < 12 then month else 0
  }

  class Time {
    var second: int
    var minute: int
    var hour: int
    var day: int
    var month: int
    var year: int

    constructor (second: int, minute: int, hour: int, day: int, month: int, year: int)
      ensures this.second == second && this.minute == minute && this.hour == hour
      ensures this.day == day && this.month == month && this.year == year
    {
      this.second, this.minute, this.hour := second, minute, hour;
      this.day, this.month, this.year := day, month, year;
    }

    /** The loop of validate_structure that carries days into months and years: it ends, and the day stays the same day. */
    method CarryDays()
      requires 0 <= month < 12
      modifies this`day, this`month, this`year
      ensures 0 <= month < 12 && day <= DaysIn(year, month)
      ensures DayNumber(year, month, day) == old(DayNumber(year, month, day))
      ensures old(day) >= 1 ==> day >= 1
      ensures old(day) <= old(DaysIn(year, month)) ==> day == old(day) && month == old(month) && year == old(year)
    {
      var daysInFeb := if DaysInYear(year) == 366 then 29 else 28;
      while day > (if month == 1 then daysInFeb else DAYS_IN_MONTH[month])
        invariant 0 <= month < 12 && daysInFeb == DaysIn(year, 1)
        invariant DayNumber(year, month, day) == old(DayNumber(year, month, day))
        invariant old(day) >= 1 ==> day >= 1
        invariant old(day) <= old(DaysIn(year, month)) ==> day == old(day) && month == old(month) && year == old(year)
        decreases day
      {
        MonthLength(year, month);
        YearLength(year);
        day := day - (if month == 1 then daysInFeb else DAYS_IN_MONTH[month]);
        month := month + 1;
        if month == 12 {
          year := year + 1;
          month := 0;
          daysInFeb := if DaysInYear(year) == 366 then 29 else 28;
        }
      }
    }

    /** validate_structure: what is above a field's range is carried on, and kept. A month that is kept above 11, or one
        below 0, is none of the tables'; reading there is the result false. */
    method ValidateStructure() returns (ok: bool)
      modifies this
      ensures ok <==> 0 <= old(month) < 12
      ensures ok ==> 0 <= month < 12 && day <= DaysIn(year, month) && second == old(second)
      ensures ok ==> var was := old(Seconds(year, Month(month), day, hour, minute, second));
                     Seconds(year, month, day, hour, minute, second) == was + Excess(old(hour), old(minute), old(second))
    {
      hide DaysBeforeYear, DaysBeforeMonth, DaysIn;
      if second > 59 {
        minute := minute + second / 60;
      }
      if minute > 59 {
        hour := hour + minute / 60;
      }
      if hour > 23 {
        day := day + hour / 24;
      }
      if month > 11 {
        year := year + month / 12;
      }
      if month < 0 || month >= 12 {
        return false;
      }
      CarryDays();
      ok := true;
    }

    /** The loops over the years since or before 1970. */
    method DaysOfYears() returns (days: int)
      ensures days == DaysBeforeYear(year)
    {
      days := 0;
      var y := year;
      if y > 70 {
        y := 70;
        while y < year
          invariant 70 <= y <= year && days == DaysBeforeYear(y)
        {
          YearLength(y);
          days := days + DaysInYear(y);
          y := y + 1;
        }
      } else if y < 70 {
        y := 69;
        while y > year
          invariant year <= y <= 69 && days == DaysBeforeYear(y + 1)
        {
          YearLength(y);
          days := days - DaysInYear(y);
          y := y - 1;
        }
        YearLength(y);
        days := days - DaysInYear(y);
      }
    }

    /** kern_mktime: the seconds since the epoch, and too many of them exactly when a time of day was out of range above. */
    method KernMktime() returns (ok: bool, tim: int)
      modifies this
      ensures ok <==> 0 <= old(month) < 12
      ensures ok ==> tim == old(Seconds(year, Month(month), day, hour, minute, second)) + Excess(old(hour), old(minute), old(second))
    {
      tim := 0;
      ok := ValidateStructure();
      if !ok {
        return;
      }
      tim := second + minute * SEC_IN_MINUTE + hour * SEC_IN_HOUR;
      var days := day - 1;
      days := days + DAYS_BEFORE_MONTH[month];
      if month > 1 && DaysInYear(year) == 366 {
        days := days + 1;
      }
      var before := DaysOfYears();
      days := days + before;
      tim := tim + days * SEC_IN_DAY;
    }

    /**
      * The end of gettimeofday, on the clock's date with months from 1 and the full year. It adds an hour, which
      * the carrying does not absorb: in the last hour of every day the result is a whole day ahead.
      */
    method TimeOfDay() returns (tim: int)
      requires 1 <= month && ValidDate(year - 1900, month - 1, day)
      requires 0 <= hour < 24 && 0 <= minute < 60 && 0 <= second < 60
      modifies this
      ensures tim == old(Seconds(year - 1900, month - 1, day, hour, minute, second)) + SEC_IN_HOUR
                   + if old(hour) == 23 then SEC_IN_DAY else 0
    {
      month := month - 1;
      year := year - 1900;
      hour := hour + 1;
      var ok;
      ok, tim := KernMktime();
    }
  }
}
