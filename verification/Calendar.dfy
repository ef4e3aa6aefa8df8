/** Civil date-times and the instants they denote: what `time.Time` values built
    from a backup's file name are compared by. */
module Calendar {

  datatype DateTime = DateTime(year: int, month: int, day: int, hour: int, minute: int, second: int)

  predicate IsLeap(year: int) {
    year % 4 == 0 && (year % 100 != 0 || year % 400 == 0)
  }

  function DaysIn(month: int, year: int): int {
    if month == 2 then (if IsLeap(year) then 29 else 28)
    else if month in {4, 6, 9, 11} then 30
    else 31
  }

  /** The dates `time.Parse` accepts with a four-digit year. */
  predicate Valid(t: DateTime) {
    && 0 <= t.year
    && 1 <= t.month <= 12
    && 1 <= t.day <= DaysIn(t.month, t.year)
    && 0 <= t.hour < 24
    && 0 <= t.minute < 60
    && 0 <= t.second < 60
  }

  function DaysBeforeMonth(month: nat, year: int): (days: nat)
    requires 1 <= month <= 13
  {
    if month == 1 then 0 else DaysBeforeMonth(month - 1, year) + DaysIn(month - 1, year)
  }

  function DaysBeforeYear(year: nat): nat {
    if year == 0 then 0 else DaysBeforeYear(year - 1) + DaysBeforeMonth(13, year - 1)
  }

  function DayNumber(t: DateTime): int
    requires Valid(t)
  {
    DaysBeforeYear(t.year) + DaysBeforeMonth(t.month, t.year) + t.day - 1
  }

  /** Seconds since the start of year 0: the instant of a date-time read as UTC. */
  function Instant(t: DateTime): int
    requires Valid(t)
  {
    86400 * DayNumber(t) + 3600 * t.hour + 60 * t.minute + t.second
  }

  /** Lexicographic order on (year, month, day, hour, minute, second). */
  predicate Earlier(a: DateTime, b: DateTime) {
    || a.year < b.year
    || (a.year == b.year && a.month < b.month)
    || (a.year == b.year && a.month == b.month && a.day < b.day)
    || (a.year == b.year && a.month == b.month && a.day == b.day && EarlierInDay(a, b))
  }

  predicate EarlierInDay(a: DateTime, b: DateTime) {
    || a.hour < b.hour
    || (a.hour == b.hour && a.minute < b.minute)
    || (a.hour == b.hour && a.minute == b.minute && a.second < b.second)
  }

  lemma {:induction false} MonthsAccumulate(m: nat, n: nat, year: int)
    requires 1 <= m < n <= 13
    ensures DaysBeforeMonth(m, year) + DaysIn(m, year) <= DaysBeforeMonth(n, year)
  {
    if m + 1 < n {
      MonthsAccumulate(m, n - 1, year);
    }
  }

  lemma {:induction false} YearsAccumulate(x: nat, y: nat)
    requires x < y
    ensures DaysBeforeYear(x) + DaysBeforeMonth(13, x) <= DaysBeforeYear(y)
  {
    if x + 1 < y {
      YearsAccumulate(x, y - 1);
    }
  }

  lemma DayWithinYear(t: DateTime)
    requires Valid(t)
    ensures DaysBeforeYear(t.year) <= DayNumber(t) < DaysBeforeYear(t.year) + DaysBeforeMonth(13, t.year)
  {
    MonthsAccumulate(t.month, 13, t.year);
  }

  lemma EarlierDaySmaller(a: DateTime, b: DateTime)
    requires Valid(a) && Valid(b)
    requires a.year < b.year || (a.year == b.year && (a.month < b.month || (a.month == b.month && a.day < b.day)))
    ensures DayNumber(a) < DayNumber(b)
  {
    DayWithinYear(a);
    DayWithinYear(b);
    if a.year < b.year {
      YearsAccumulate(a.year, b.year);
    } else if a.month < b.month {
      MonthsAccumulate(a.month, b.month, a.year);
    }
  }

  lemma EarlierSmaller(a: DateTime, b: DateTime)
    requires Valid(a) && Valid(b) && Earlier(a, b)
    ensures Instant(a) < Instant(b)
  {
    if !(a.year == b.year && a.month == b.month && a.day == b.day) {
      EarlierDaySmaller(a, b);
    }
  }

  /** Comparing instants is comparing (year, month, day, hour, minute, second). */
  lemma InstantOrder(a: DateTime, b: DateTime)
    requires Valid(a) && Valid(b)
    ensures Instant(a) < Instant(b) <==> Earlier(a, b)
    ensures Instant(a) == Instant(b) <==> a == b
  {
    if Earlier(a, b) {
      EarlierSmaller(a, b);
    } else if Earlier(b, a) {
      EarlierSmaller(b, a);
    } else {
      assert a == b;
    }
  }

  // ---------- which dates there are ----------

  /** The Gregorian calendar in figures. */
  predicate InCalendar(t: DateTime) {
    var leap := t.year % 4 == 0 && (t.year % 100 != 0 || t.year % 400 == 0);
    && t.year >= 0 && 1 <= t.month <= 12
    && 1 <= t.day <= [31, if leap then 29 else 28, 31, 30, 31, 30, 31, 31, 30, 31, 30, 31][t.month - 1]
    && 0 <= t.hour <= 23 && 0 <= t.minute <= 59 && 0 <= t.second <= 59
  }

  /** The dates accepted are those of that calendar. */
  lemma RealDates(t: DateTime)
    ensures Valid(t) <==> InCalendar(t)
  {
  }

  /** The days before each month: the sums of the lengths above. */
  lemma {:induction false} MonthTable(month: nat, year: nat)
    requires 1 <= month <= 13
    ensures var leap := year % 4 == 0 && (year % 100 != 0 || year % 400 == 0);
            DaysBeforeMonth(month, year)
            == [0, 31, 59, 90, 120, 151, 181, 212, 243, 273, 304, 334, 365][month - 1]
               + if leap && month > 2 then 1 else 0
  {
    if month > 1 {
      MonthTable(month - 1, year);
    }
  }

  lemma Fours(year: nat)
    ensures (year + 4) / 4 == (year + 3) / 4 + if year % 4 == 0 then 1 else 0
  {
  }

  lemma Hundreds(year: nat)
    ensures (year + 100) / 100 == (year + 99) / 100 + if year % 100 == 0 then 1 else 0
  {
  }

  lemma FourHundreds(year: nat)
    ensures (year + 400) / 400 == (year + 399) / 400 + if year % 400 == 0 then 1 else 0
  {
  }

  lemma Divides4(year: nat)
    requires year % 100 == 0
    ensures year % 4 == 0
  {
    var k := 25 * (year / 100) - year / 4;
    assert year % 4 == 4 * k;
  }

  lemma Divides100(year: nat)
    requires year % 400 == 0
    ensures year % 100 == 0
  {
    var k := 4 * (year / 400) - year / 100;
    assert year % 100 == 100 * k;
  }

  /** The leap years before a year: the multiples of 4, without those of 100, with those of 400. */
  function LeapsBefore(year: nat): int {
    (year + 3) / 4 - (year + 99) / 100 + (year + 399) / 400
  }

  lemma NextLeaps(year: nat)
    ensures LeapsBefore(year + 1)
            == LeapsBefore(year) + if year % 4 == 0 && (year % 100 != 0 || year % 400 == 0) then 1 else 0
  {
    Fours(year);
    Hundreds(year);
    FourHundreds(year);
    if year % 400 == 0 {
      Divides100(year);
    }
    if year % 100 == 0 {
      Divides4(year);
    }
  }

  lemma YearLength(year: nat)
    ensures DaysBeforeYear(year + 1)
            == DaysBeforeYear(year) + 365
               + if year % 4 == 0 && (year % 100 != 0 || year % 400 == 0) then 1 else 0
  {
    MonthTable(13, year);
  }

  /** The days before each year: 365 each, and one for every leap year, year 0 being the first. */
  lemma {:induction false} YearsClosed(year: nat)
    ensures DaysBeforeYear(year) == 365 * year + LeapsBefore(year)
  {
    if year > 0 {
      YearsClosed(year - 1);
      YearLength(year - 1);
      NextLeaps(year - 1);
    }
  }

  lemma {:induction false} YearOfDay(n: nat) returns (year: nat)
    ensures DaysBeforeYear(year) <= n < DaysBeforeYear(year + 1)
  {
    if n == 0 {
      year := 0;
      YearLength(0);
    } else {
      year := YearOfDay(n - 1);
      if n == DaysBeforeYear(year + 1) {
        year := year + 1;
        YearLength(year);
      }
    }
  }

  lemma {:induction false} MonthOfDay(n: nat, year: nat, month: nat) returns (found: nat)
    requires 1 <= month <= 12 && n < DaysBeforeMonth(month + 1, year)
    ensures 1 <= found <= month && DaysBeforeMonth(found, year) <= n < DaysBeforeMonth(found + 1, year)
  {
    found := month;
    if n < DaysBeforeMonth(month, year) {
      found := MonthOfDay(n, year, month - 1);
    }
  }

  /** No day is missing or counted twice: every day number is that of exactly one real date. */
  lemma EveryDayOnce(n: nat) returns (t: DateTime)
    ensures Valid(t) && t.hour == t.minute == t.second == 0 && DayNumber(t) == n
    ensures forall u :: Valid(u) && DayNumber(u) == n ==> u.year == t.year && u.month == t.month && u.day == t.day
  {
    var year := YearOfDay(n);
    var month := MonthOfDay(n - DaysBeforeYear(year), year, 12);
    t := DateTime(year, month, n - DaysBeforeYear(year) - DaysBeforeMonth(month, year) + 1, 0, 0, 0);
    forall u | Valid(u) && DayNumber(u) == n
      ensures u.year == t.year && u.month == t.month && u.day == t.day
    {
      if !(u.year == t.year && u.month == t.month && u.day == t.day) {
        SomeDayEarlier(t, u);
      }
    }
  }

  lemma SomeDayEarlier(a: DateTime, b: DateTime)
    requires Valid(a) && Valid(b) && !(a.year == b.year && a.month == b.month && a.day == b.day)
    ensures DayNumber(a) != DayNumber(b)
  {
    if Earlier(a, b) {
      EarlierDaySmaller(a, b);
    } else {
      EarlierDaySmaller(b, a);
    }
  }
}
