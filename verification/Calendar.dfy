/**
 The proleptic Gregorian calendar by day numbers. Months are counted through: month index
 12 * year + (month - 1), for every integer.
 */
module Calendar {

  /** Leap years as in Appendix C of RFC 3339. */
  predicate Leap(year: int)
  {
    year % 4 == 0 && (year % 100 != 0 || year % 400 == 0)
  }

  function MonthLength(index: int): (days: int)
    ensures 28 <= days <= 31
  {
    var month := index % 12 + 1;
    if month == 2 then (if Leap(index / 12) then 29 else 28)
    else if month == 4 || month == 6 || month == 9 || month == 11 then 30
    else 31
  }

  /** The day number of the first day of a month; the first of January of year 0 is day 0. */
  function FirstOfMonth(index: int): (day: int)
    decreases if index < 0 then -index else index
  {
    if index == 0 then 0
    else if index > 0 then FirstOfMonth(index - 1) + MonthLength(index - 1)
    else FirstOfMonth(index + 1) - MonthLength(index)
  }

  datatype Date = Date(year: int, month: int, day: int)
  {
    /** A `full-date` of section 5.6 of RFC 3339. */
    ghost predicate Valid()
    {
      0 <= year <= 9999 && Proper()
    }

    /** A date of the calendar, in any year. */
    ghost predicate Proper()
    {
      1 <= month <= 12 && 1 <= day <= MonthLength(MonthIndex())
    }

    /** Before u by year, month and day. */
    predicate Before(u: Date)
    {
      year < u.year || (year == u.year && (month < u.month || (month == u.month && day < u.day)))
    }

    /** The same day of the month, n months on; its number counts on where the month is too short. */
    function Moved(n: int): (u: Date)
    {
      var index := 12 * year + (month - 1) + n;
      Date(index / 12, index % 12 + 1, day)
    }

    /** The same month and day two years on, and the first of March for a leap day. */
    function TwoYearsOn(): (u: Date)
    {
      if month == 2 && day == 29 then Date(year + 2, 3, 1) else Date(year + 2, month, day)
    }

    function MonthIndex(): (index: int)
    {
      12 * year + month - 1
    }

    function DayNumber(): (n: int)
    {
      FirstOfMonth(MonthIndex()) + day - 1
    }

    /** Go's AddDate(0, months, days): months are normalised first, and the day is then counted on linearly. */
    function AddDate(months: int, days: int): (n: int)
    {
      FirstOfMonth(MonthIndex() + months) + day - 1 + days
    }
  }

  lemma NextMonth(index: int)
    ensures FirstOfMonth(index + 1) == FirstOfMonth(index) + MonthLength(index)
  {
  }

  /** A run of months is at least 28 and at most 31 days a month. */
  lemma {:induction false} MonthsApart(index: int, n: nat)
    ensures 28 * n <= FirstOfMonth(index + n) - FirstOfMonth(index) <= 31 * n
  {
    if n == 0 {
    } else {
      MonthsApart(index, n - 1);
      NextMonth(index + n - 1);
    }
  }

  lemma MonthOf(year: int, k: int)
    requires 0 <= k < 12
    ensures (12 * year + k) % 12 == k && (12 * year + k) / 12 == year
  {
  }

  lemma Quarter(year: int, k: int)
    requires k == 0 || k == 3 || k == 6 || k == 9
    ensures FirstOfMonth(12 * year + k + 3) - FirstOfMonth(12 * year + k) ==
            if k == 0 then (if Leap(year) then 91 else 90) else if k == 3 then 91 else 92
  {
    hide FirstOfMonth, Leap;
    MonthOf(year, k);
    MonthOf(year, k + 1);
    MonthOf(year, k + 2);
    NextMonth(12 * year + k);
    NextMonth(12 * year + k + 1);
    NextMonth(12 * year + k + 2);
  }

  /** A year has 365 days, and 366 when it is a leap year. */
  lemma YearLength(year: int)
    ensures FirstOfMonth(12 * (year + 1)) - FirstOfMonth(12 * year) == if Leap(year) then 366 else 365
  {
    hide FirstOfMonth, Leap;
    Quarter(year, 0);
    Quarter(year, 3);
    Quarter(year, 6);
    Quarter(year, 9);
  }

  /** The years counted through agree with the usual formula for them. */
  lemma {:induction false} YearsClosedForm(year: nat)
    ensures FirstOfMonth(12 * year) == 365 * year + (year + 3) / 4 - (year + 99) / 100 + (year + 399) / 400
  {
    hide FirstOfMonth, Leap;
    if year == 0 {
      YearZero();
    } else {
      var y := year - 1;
      YearsClosedForm(y);
      YearLength(y);
      LeapDay(y);
    }
  }

  lemma LeapDay(y: nat)
    ensures var a, b := (y + 4) / 4 - (y + 3) / 4, (y + 100) / 100 - (y + 99) / 100;
            var c := (y + 400) / 400 - (y + 399) / 400;
            a - b + c == if Leap(y) then 1 else 0
  {
    assert (y + 4) / 4 - (y + 3) / 4 == if y % 4 == 0 then 1 else 0;
    assert (y + 100) / 100 - (y + 99) / 100 == if y % 100 == 0 then 1 else 0;
    assert (y + 400) / 400 - (y + 399) / 400 == if y % 400 == 0 then 1 else 0;
    assert y % 400 == 0 ==> y % 100 == 0;
    assert y % 100 == 0 ==> y % 4 == 0;
  }

  lemma YearZero()
    ensures FirstOfMonth(0) == 0
  {
  }

  /** The days of a year before each of its months. */
  lemma {:induction false} MonthTable(year: int, m: nat)
    requires m < 12
    ensures FirstOfMonth(12 * year + m) - FirstOfMonth(12 * year) ==
            [0, 31, 59, 90, 120, 151, 181, 212, 243, 273, 304, 334][m] + if m >= 2 && Leap(year) then 1 else 0
  {
    hide FirstOfMonth, Leap;
    if m == 0 {
    } else {
      MonthTable(year, m - 1);
      MonthOf(year, m - 1);
      NextMonth(12 * year + m - 1);
    }
  }

  /** The number of a day by year, month and day. */
  lemma DayNumberClosedForm(t: Date)
    requires t.year >= 0 && t.Proper()
    ensures var y := t.year;
            t.DayNumber() == 365 * y + (y + 3) / 4 - (y + 99) / 100 + (y + 399) / 400
                             + [0, 31, 59, 90, 120, 151, 181, 212, 243, 273, 304, 334][t.month - 1]
                             + (if t.month > 2 && Leap(y) then 1 else 0) + t.day - 1
  {
    hide FirstOfMonth, Leap;
    YearsClosedForm(t.year);
    MonthTable(t.year, t.month - 1);
  }

  /** Day numbers are in the order of the calendar. */
  lemma DayNumberOrder(t: Date, u: Date)
    requires t.Proper() && u.Proper()
    ensures t.DayNumber() < u.DayNumber() <==> t.Before(u)
    ensures t.DayNumber() == u.DayNumber() <==> t == u
  {
    hide FirstOfMonth, MonthLength;
    var i, j := t.MonthIndex(), u.MonthIndex();
    if i < j {
      NextMonth(i);
      MonthsApart(i + 1, j - i - 1);
    } else if j < i {
      NextMonth(j);
      MonthsApart(j + 1, i - j - 1);
    }
  }

  /** `AddDate` moves by months to the same day of the month, and then by days. */
  lemma AddDateExactly(t: Date, months: int, days: int)
    ensures t.AddDate(months, days) == t.Moved(months).DayNumber() + days
    ensures 1 <= t.Moved(months).month <= 12
  {
    hide FirstOfMonth;
    var index := t.MonthIndex() + months;
    MonthOf(index / 12, index % 12);
  }

  /** Two years later is the same month and day, or the first of March. */
  lemma TwoYearsLater(t: Date)
    requires t.Proper()
    ensures t.TwoYearsOn().Proper() && t.AddDate(24, 0) == t.TwoYearsOn().DayNumber()
  {
    hide FirstOfMonth;
    MonthOf(t.year, t.month - 1);
    MonthOf(t.year + 2, t.month - 1);
    MonthOf(t.year + 2, 2);
    if t.month == 2 && t.day == 29 {
      NextMonth(12 * (t.year + 2) + 1);
    }
  }
}
