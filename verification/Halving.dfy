/**
 The halving schedule: calendar periods, their allocations, and how much may have been
 distributed by a given day.
 */
module Halving {
  import opened Common
  import opened Arith
  import opened Calendar

  /** cosmossdk.io/math.Int panics on results of more than 256 bits. */
  const INT_LIMIT: nat := 0x1_0000000000000000_0000000000000000_0000000000000000_0000000000000000

  const LAST_PERIOD: nat := 1000

  /** A time.Duration saturates at this many whole days. */
  const MAX_DURATION_DAYS: int := 106751

  /** Whole days of end.Sub(start), which saturates; the source divides its hours by 24. */
  function DaysBetween(start: int, end: int): (days: int)
  {
    var d := end - start;
    if d > MAX_DURATION_DAYS then MAX_DURATION_DAYS else if d < -MAX_DURATION_DAYS then -MAX_DURATION_DAYS else d
  }

  /** `daysInRange`. */
  function DaysInRange(start: int, end: int): (days: int)
  {
    DaysBetween(start, end) + 1
  }

  /** `daysSinceStart`. */
  function DaysSinceStart(start: int, target: int): (days: nat)
  {
    var d := DaysBetween(start, target);
    if d < 0 then 0 else d
  }

  datatype Schedule = Schedule(start: Date, months: nat, maxSupply: nat)
  {
    /** What `Params.Validate` and the integer and date parsers guarantee. */
    ghost predicate Valid()
    {
      start.Valid() && 0 < months < 0x1_0000_0000_0000_0000 && 0 < maxSupply < INT_LIMIT
    }

    /** All thousand periods are reached without the month arithmetic wrapping around. */
    ghost predicate Regular()
    {
      Valid() && LAST_PERIOD * months <= INT_MAX
    }

    /** `PeriodAllocation`; from period 64 on the 64-bit divisor is zero and the division panics. */
    function PeriodAllocation(period: nat): (r: Option<nat>)
    {
      if period == 0 then Some(0)
      else if period >= 64 then None
      else Some(Quo(maxSupply, Pow2(period)))
    }

    function MonthsOffset(period: nat): (offset: int)
    {
      GoInt((period - 1) * months)
    }

    /** `PeriodBounds`, as day numbers. */
    function PeriodStart(period: nat): (day: int)
    {
      start.AddDate(MonthsOffset(period), 0)
    }

    function PeriodEnd(period: nat): (day: int)
    {
      start.AddDate(GoInt(MonthsOffset(period) + GoInt(months)), -1)
    }

    predicate Contains(period: nat, day: int)
    {
      PeriodStart(period) <= day <= PeriodEnd(period)
    }

    /** The search of `CurrentPeriod` from a given period on. */
    function FindPeriod(day: int, period: nat): (p: nat)
      ensures p >= period
      decreases LAST_PERIOD - period
    {
      if Contains(period, day) then period
      else if period + 1 > LAST_PERIOD then period + 1
      else FindPeriod(day, period + 1)
    }

    /** The allocations of the first n periods. */
    function SumAllocations(n: nat): (sum: nat)
    {
      if n == 0 then 0 else SumAllocations(n - 1) + Quo(maxSupply, Pow2(n))
    }

    function Elapsed(period: nat, day: int): (days: nat)
      ensures days >= 1
    {
      DaysSinceStart(PeriodStart(period), day) + 1
    }

    function Length(period: nat): (days: int)
    {
      DaysInRange(PeriodStart(period), PeriodEnd(period))
    }

    /** What has become distributable by a day of the given period; the pro-rata product must fit 256 bits. */
    function DistributableIn(period: nat, day: int): (r: Outcome<nat>)
      requires period >= 1
      ensures !r.Hang?
    {
      if period > 64 || (period == 64 && Length(period) > 0) then Panic
      else if Length(period) <= 0 then Ok(SumAllocations(period - 1))
      else
        var product := Times(Quo(maxSupply, Pow2(period)), Elapsed(period, day));
        if product >= INT_LIMIT then Panic else Ok(SumAllocations(period - 1) + Quo(product, Length(period)))
    }

    /** `TotalDistributableAt`. */
    function TotalDistributableAt(day: int): (r: Outcome<nat>)
      ensures !r.Hang?
    {
      if day < start.DayNumber() then Err else DistributableIn(FindPeriod(day, 1), day)
    }
  }

  // ----- periods tile the calendar

  lemma NoWrap(h: Schedule, p: nat)
    requires h.Valid() && 1 <= p && p * h.months <= INT_MAX
    ensures h.PeriodStart(p) == h.start.AddDate((p - 1) * h.months, 0)
    ensures h.PeriodEnd(p) == h.start.AddDate(p * h.months, -1)
  {
    hide FirstOfMonth;
    assert p * h.months == (p - 1) * h.months + h.months;
    MulMonotone(h.months, 0, p - 1);
  }

  /** Periods start on the day of the month of the start date, a whole number of period lengths later. */
  lemma PeriodBoundsExact(h: Schedule, p: nat)
    requires h.Valid() && 1 <= p && p * h.months <= INT_MAX
    ensures h.PeriodStart(p) == h.start.Moved((p - 1) * h.months).DayNumber()
    ensures h.PeriodEnd(p) == h.start.Moved(p * h.months).DayNumber() - 1
  {
    hide FirstOfMonth, GoInt, Schedule.PeriodStart, Schedule.PeriodEnd;
    NoWrap(h, p);
    AddDateExactly(h.start, (p - 1) * h.months, 0);
    AddDateExactly(h.start, p * h.months, -1);
  }

  /** A difference of days as Go computes it: in nanoseconds, saturating at 64 bits, and then cut to whole days. */
  lemma DurationSaturates(start: int, end: int)
    ensures var ns := (end - start) * 86_400_000_000_000;
            var kept := if ns > 0x7FFF_FFFF_FFFF_FFFF then 0x7FFF_FFFF_FFFF_FFFF
                        else if ns < -0x8000_0000_0000_0000 then -0x8000_0000_0000_0000 else ns;
            DaysBetween(start, end) == if kept >= 0 then kept / 86_400_000_000_000 else -(-kept / 86_400_000_000_000)
  {
  }

  lemma MonthsInRange(h: Schedule, p: nat)
    requires h.Regular() && p <= LAST_PERIOD
    ensures p * h.months <= INT_MAX
  {
    MulMonotone(h.months, p, LAST_PERIOD);
  }

  /** Each period is non-empty and ends the day before the next one starts; the first starts on the start date. */
  lemma PeriodsTile(h: Schedule, p: nat)
    requires h.Valid() && 1 <= p && (p + 1) * h.months <= INT_MAX
    ensures h.PeriodStart(1) == h.start.DayNumber()
    ensures h.PeriodEnd(p) + 1 == h.PeriodStart(p + 1)
    ensures 28 * h.months <= h.PeriodEnd(p) + 1 - h.PeriodStart(p) <= 31 * h.months
  {
    hide FirstOfMonth, GoInt;
    NextMonths(h.months, p);
    FirstPeriod(h);
    NoWrap(h, p);
    NoWrap(h, p + 1);
    PeriodSize(h, p);
  }

  lemma NextMonths(months: nat, p: nat)
    ensures (p + 1) * months == p * months + months >= p * months >= 0
  {
    MulMonotone(months, 0, p);
  }

  lemma FirstPeriod(h: Schedule)
    ensures h.PeriodStart(1) == h.start.DayNumber()
  {
    hide FirstOfMonth;
    assert (1 - 1) * h.months == 0;
  }

  /** A period has between 28 and 31 days a month. */
  lemma PeriodSize(h: Schedule, p: nat)
    requires h.Valid() && 1 <= p && p * h.months <= INT_MAX
    ensures 28 * h.months <= h.PeriodEnd(p) + 1 - h.PeriodStart(p) <= 31 * h.months
  {
    hide FirstOfMonth;
    NoWrap(h, p);
    assert p * h.months == (p - 1) * h.months + h.months;
    MonthsApart(h.start.MonthIndex() + (p - 1) * h.months, h.months);
  }

  /** Later periods lie after earlier ones. */
  lemma {:induction false} PeriodsOrdered(h: Schedule, p: nat, q: nat)
    requires h.Regular() && 1 <= p < q <= LAST_PERIOD
    ensures h.PeriodEnd(p) < h.PeriodStart(q)
  {
    hide FirstOfMonth;
    MonthsInRange(h, q);
    if q == p + 1 {
      PeriodsTile(h, p);
    } else {
      PeriodsOrdered(h, p, q - 1);
      PeriodsTile(h, q - 1);
    }
  }

  /** A search that starts at or before the period of a day finds that period. */
  lemma {:induction false} SearchFinds(h: Schedule, day: int, from: nat, p: nat)
    requires h.Regular() && 1 <= from <= p <= LAST_PERIOD && h.Contains(p, day)
    ensures h.FindPeriod(day, from) == p
    decreases p - from
  {
    hide FirstOfMonth;
    if from == p {
    } else {
      PeriodsOrdered(h, from, p);
      SearchFinds(h, day, from + 1, p);
    }
  }

  lemma {:induction false} SearchExhausts(h: Schedule, day: int, from: nat)
    requires h.Regular() && 1 <= from <= LAST_PERIOD && day > h.PeriodEnd(LAST_PERIOD)
    ensures h.FindPeriod(day, from) == LAST_PERIOD + 1
    decreases LAST_PERIOD - from
  {
    hide FirstOfMonth;
    if from == LAST_PERIOD {
    } else {
      PeriodsOrdered(h, from, LAST_PERIOD);
      NonEmpty(h, LAST_PERIOD);
      SearchExhausts(h, day, from + 1);
    }
  }

  lemma NonEmpty(h: Schedule, p: nat)
    requires h.Regular() && 1 <= p <= LAST_PERIOD
    ensures h.PeriodStart(p) <= h.PeriodEnd(p)
  {
    hide FirstOfMonth;
    MonthsInRange(h, p);
    PeriodSize(h, p);
  }

  /** Every day from the start through the end of period n is in one of the first n periods. */
  lemma {:induction false} Covered(h: Schedule, day: int, n: nat) returns (p: nat)
    requires h.Regular() && 1 <= n <= LAST_PERIOD
    requires h.start.DayNumber() <= day <= h.PeriodEnd(n)
    ensures 1 <= p <= n && h.Contains(p, day)
  {
    hide FirstOfMonth;
    FirstPeriod(h);
    p := n;
    if day < h.PeriodStart(n) {
      if n > 1 {
        MonthsInRange(h, n);
        PeriodsTile(h, n - 1);
        p := Covered(h, day, n - 1);
      }
    }
  }

  /** `CurrentPeriod` is the one period that contains the day, or 1001 when all thousand are over. */
  lemma CurrentPeriodExact(h: Schedule, day: int)
    requires h.Regular() && h.start.DayNumber() <= day
    ensures var p := h.FindPeriod(day, 1);
            if day <= h.PeriodEnd(1000)
            then 1 <= p <= 1000 && forall q :: 1 <= q <= 1000 ==> (h.Contains(q, day) <==> q == p)
            else p == 1001
  {
    hide FirstOfMonth;
    if day <= h.PeriodEnd(LAST_PERIOD) {
      var p := Covered(h, day, LAST_PERIOD);
      SearchFinds(h, day, 1, p);
      forall q | 1 <= q <= LAST_PERIOD && h.Contains(q, day)
        ensures q == p
      {
        SearchFinds(h, day, 1, q);
      }
    } else {
      SearchExhausts(h, day, 1);
    }
  }

  // ----- the sum of floored halvings

  lemma {:induction false} HalvingStep(h: Schedule, half: Schedule, n: nat)
    requires half.maxSupply == h.maxSupply / 2
    ensures h.SumAllocations(n + 1) == h.maxSupply / 2 + half.SumAllocations(n)
  {
    if n == 0 {
      assert h.SumAllocations(1) == h.SumAllocations(0) + Quo(h.maxSupply, Pow2(1));
      QuoIs(h.maxSupply, 2, h.maxSupply / 2, h.maxSupply % 2);
    } else {
      HalvingStep(h, half, n - 1);
      QuoByTwice(h.maxSupply, Pow2(n));
    }
  }

  /** n halvings of a supply distribute all of it but its n-fold half and one unit for each low one bit. */
  lemma {:induction false} ClosedForm(h: Schedule, n: nat)
    ensures h.SumAllocations(n) == h.maxSupply - Quo(h.maxSupply, Pow2(n)) - OneBits(Rem(h.maxSupply, Pow2(n)))
    decreases n
  {
    if n == 0 {
    } else {
      var half := h.(maxSupply := h.maxSupply / 2);
      HalvingStep(h, half, n - 1);
      ClosedForm(half, n - 1);
      QuoByTwice(h.maxSupply, Pow2(n - 1));
      var r := Rem(h.maxSupply, Pow2(n));
      assert r / 2 == Rem(half.maxSupply, Pow2(n - 1)) && r % 2 == h.maxSupply % 2;
      assert OneBits(r) == r % 2 + OneBits(r / 2);
    }
  }

  /** However many periods pass, something always stays undistributed. */
  lemma AlwaysBelowMaxSupply(h: Schedule, n: nat)
    requires h.maxSupply > 0
    ensures h.SumAllocations(n) < h.maxSupply
  {
    ClosedForm(h, n);
    var d := Pow2(n);
    if Quo(h.maxSupply, d) == 0 {
      assert h.maxSupply == d * 0 + Rem(h.maxSupply, d);
    }
  }

  lemma {:induction false} SumGrows(h: Schedule, m: nat, n: nat)
    requires m <= n
    ensures h.SumAllocations(m) <= h.SumAllocations(n)
  {
    if m == n {
    } else {
      SumGrows(h, m, n - 1);
    }
  }
}
