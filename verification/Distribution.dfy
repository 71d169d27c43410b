/** How the distributable amount moves with the calendar, and the loops that compute it. */
module Distribution {
  import opened Common
  import opened Arith
  import opened Calendar
  import opened Halving

  const LAST_FUNDED: nat := 63

  // ----- pro-rata shares

  lemma TimesMonotone(a: nat, x: nat, y: nat)
    requires x <= y
    ensures Times(a, x) <= Times(a, y)
  {
    MulMonotone(a, x, y);
  }

  /** A share of the days is a share of the allocation, and all the days are all of it. */
  lemma ShareBounds(a: nat, e: nat, d: nat)
    requires e <= d && d > 0
    ensures Quo(Times(a, e), d) <= a
    ensures e == d ==> Quo(Times(a, e), d) == a
  {
    TimesMonotone(a, e, d);
    QuoIs(Times(a, d), d, a, 0);
    QuoMonotone(Times(a, e), Times(a, d), d);
  }

  /** One more day adds the daily quotient, or one unit more when the allocation does not divide evenly. */
  lemma ShareStep(a: nat, e: nat, d: nat)
    requires d > 0
    ensures var daily, more := Quo(a, d), Quo(Times(a, e + 1), d) - Quo(Times(a, e), d);
            more == daily || (more == daily + 1 && Rem(a, d) > 0)
  {
    var q, r := Quo(a, d), Rem(a, d);
    var q1, r1 := Quo(Times(a, e), d), Rem(Times(a, e), d);
    assert Times(a, e + 1) == Times(a, e) + a;
    assert d * (q1 + q) == d * q1 + d * q;
    if r1 + r < d {
      QuoIs(Times(a, e + 1), d, q1 + q, r1 + r);
    } else {
      assert d * (q1 + q + 1) == d * (q1 + q) + d;
      QuoIs(Times(a, e + 1), d, q1 + q + 1, r1 + r - d);
    }
  }

  // ----- inside a period

  lemma DaysWithin(h: Schedule, p: nat, day: int)
    requires h.Regular() && 1 <= p <= LAST_PERIOD && h.Contains(p, day)
    ensures 1 <= h.Elapsed(p, day) <= h.Length(p) <= MAX_DURATION_DAYS + 1
    ensures day == h.PeriodEnd(p) ==> h.Elapsed(p, day) == h.Length(p)
  {
  }

  function Allocation(h: Schedule, p: nat): (a: nat)
  {
    Quo(h.maxSupply, Pow2(p))
  }

  /** The completed periods and the elapsed share of the current one. */
  function CapIn(h: Schedule, p: nat, day: int): (c: nat)
    requires p >= 1
  {
    h.SumAllocations(p - 1) +
    (if h.Length(p) <= 0 then 0 else Quo(Times(Allocation(h, p), h.Elapsed(p, day)), h.Length(p)))
  }

  /** The distributable amount on any day: nothing before the start, and all 63 allocations after the last. */
  function Cap(h: Schedule, day: int): (c: nat)
  {
    if day < h.start.DayNumber() then 0 else
    var p := h.FindPeriod(day, 1);
    if p > LAST_FUNDED then h.SumAllocations(LAST_FUNDED) else CapIn(h, p, day)
  }

  lemma CapInBounds(h: Schedule, p: nat, day: int)
    requires h.Regular() && 1 <= p <= LAST_PERIOD && h.Contains(p, day)
    ensures h.SumAllocations(p - 1) <= CapIn(h, p, day) <= h.SumAllocations(p)
    ensures day == h.PeriodEnd(p) ==> CapIn(h, p, day) == h.SumAllocations(p)
  {
    hide FirstOfMonth, Quo, Times;
    DaysWithin(h, p, day);
    ShareBounds(Allocation(h, p), h.Elapsed(p, day), h.Length(p));
  }

  lemma CapInGrows(h: Schedule, p: nat, day: int, later: int)
    requires h.Regular() && 1 <= p <= LAST_PERIOD && h.Contains(p, day) && h.Contains(p, later) && day <= later
    ensures CapIn(h, p, day) <= CapIn(h, p, later)
  {
    hide FirstOfMonth, Quo, Times;
    DaysWithin(h, p, day);
    DaysWithin(h, p, later);
    assert h.Elapsed(p, day) <= h.Elapsed(p, later);
    TimesMonotone(Allocation(h, p), h.Elapsed(p, day), h.Elapsed(p, later));
    QuoMonotone(Times(Allocation(h, p), h.Elapsed(p, day)), Times(Allocation(h, p), h.Elapsed(p, later)), h.Length(p));
  }

  // ----- over the whole calendar

  /** The period of a later day is not an earlier period, and a period the search ends in contains the day. */
  lemma PeriodGrows(h: Schedule, day: int, later: int)
    requires h.Regular() && h.start.DayNumber() <= day <= later
    ensures h.FindPeriod(day, 1) <= h.FindPeriod(later, 1)
    ensures h.FindPeriod(day, 1) <= LAST_PERIOD ==> h.Contains(h.FindPeriod(day, 1), day)
    ensures h.FindPeriod(later, 1) <= LAST_PERIOD ==> h.Contains(h.FindPeriod(later, 1), later)
  {
    hide FirstOfMonth, GoInt, Schedule.FindPeriod, Schedule.PeriodStart, Schedule.PeriodEnd;
    Found(h, day);
    Found(h, later);
    var p, q := h.FindPeriod(day, 1), h.FindPeriod(later, 1);
    if q < p && p <= LAST_PERIOD {
      PeriodsOrdered(h, q, p);
    }
  }

  lemma Found(h: Schedule, day: int)
    requires h.Regular() && h.start.DayNumber() <= day
    ensures var p := h.FindPeriod(day, 1);
            if day <= h.PeriodEnd(LAST_PERIOD) then 1 <= p <= LAST_PERIOD && h.Contains(p, day)
            else p == LAST_PERIOD + 1
  {
    hide FirstOfMonth, GoInt, Schedule.FindPeriod, Schedule.Contains;
    CurrentPeriodExact(h, day);
  }

  /** The distributable amount never decreases, within periods and across their boundaries. */
  lemma CapMonotone(h: Schedule, day: int, later: int)
    requires h.Regular() && day <= later
    ensures Cap(h, day) <= Cap(h, later)
  {
    hide FirstOfMonth, GoInt, Quo, Times, CapIn, Schedule.FindPeriod;
    if h.start.DayNumber() <= day {
      PeriodGrows(h, day, later);
      var p, q := h.FindPeriod(day, 1), h.FindPeriod(later, 1);
      if q <= LAST_FUNDED {
        if p == q {
          CapInGrows(h, p, day, later);
        } else {
          CapInBounds(h, p, day);
          CapInBounds(h, q, later);
          SumGrows(h, p, q - 1);
        }
      } else if p <= LAST_FUNDED {
        CapInBounds(h, p, day);
        SumGrows(h, p, LAST_FUNDED);
      }
    }
  }

  /** On every day less than the maximum supply is distributable. */
  lemma CapBelowMaxSupply(h: Schedule, day: int)
    requires h.Regular()
    ensures Cap(h, day) < h.maxSupply
  {
    hide FirstOfMonth, GoInt, Quo, Times, CapIn, Schedule.FindPeriod;
    AlwaysBelowMaxSupply(h, LAST_FUNDED);
    if h.start.DayNumber() <= day {
      PeriodGrows(h, day, day);
      var p := h.FindPeriod(day, 1);
      if p <= LAST_FUNDED {
        CapInBounds(h, p, day);
        AlwaysBelowMaxSupply(h, p);
      }
    }
  }

  /** On the last day of a period everything allocated through it is distributable. */
  lemma CapOnLastDay(h: Schedule, p: nat)
    requires h.Regular() && 1 <= p <= 63
    ensures Cap(h, h.PeriodEnd(p)) == h.SumAllocations(p)
  {
    hide FirstOfMonth, GoInt, Quo, Times, CapIn, Schedule.FindPeriod;
    var day := h.PeriodEnd(p);
    NonEmpty(h, p);
    FirstPeriod(h);
    if p > 1 {
      PeriodsOrdered(h, 1, p);
      NonEmpty(h, 1);
    }
    SearchFinds(h, day, 1, p);
    CapInBounds(h, p, day);
  }

  /** In a period of at most 106752 days the share is the allocation by days elapsed over days, today counted in. */
  lemma CapProRata(h: Schedule, p: nat, day: int)
    requires h.Regular() && 1 <= p <= 63 && h.Contains(p, day) && h.PeriodEnd(p) - h.PeriodStart(p) <= 106751
    ensures var elapsed, days := day - h.PeriodStart(p) + 1, h.PeriodEnd(p) - h.PeriodStart(p) + 1;
            Cap(h, day) == h.SumAllocations(p - 1) + Quo(Times(Quo(h.maxSupply, Pow2(p)), elapsed), days)
  {
    hide FirstOfMonth, GoInt, Quo, Times, Pow2, Schedule.FindPeriod;
    SearchFinds(h, day, 1, p);
    FirstPeriod(h);
    if p > 1 {
      PeriodsOrdered(h, 1, p);
      NonEmpty(h, 1);
    }
  }

  /** Within one period, one day more adds the daily quotient or one unit more; nothing once time.Duration saturates. */
  lemma DailyEmission(h: Schedule, p: nat, day: int)
    requires h.Regular() && 1 <= p <= LAST_FUNDED && h.Contains(p, day) && h.Contains(p, day + 1)
    ensures var a, d, more := Allocation(h, p), h.Length(p), Cap(h, day + 1) - Cap(h, day);
            if day - h.PeriodStart(p) >= 106751 then more == 0
            else d > 0 && (more == Quo(a, d) || (more == Quo(a, d) + 1 && Rem(a, d) > 0))
  {
    hide FirstOfMonth, GoInt, Quo, Times, Rem, Schedule.FindPeriod;
    SearchFinds(h, day, 1, p);
    SearchFinds(h, day + 1, 1, p);
    FirstPeriod(h);
    if p > 1 {
      PeriodsOrdered(h, 1, p);
      NonEmpty(h, 1);
    }
    DaysWithin(h, p, day);
    DaysWithin(h, p, day + 1);
    ShareStep(Allocation(h, p), h.Elapsed(p, day), h.Length(p));
  }

  // ----- when the limit is defined

  /** Where the computation succeeds it gives the cap. */
  lemma LimitIsCap(h: Schedule, day: int)
    requires h.TotalDistributableAt(day).Ok?
    ensures h.TotalDistributableAt(day).value == Cap(h, day)
  {
    hide FirstOfMonth, GoInt, Quo, Times, Schedule.FindPeriod;
  }

  lemma ProductFits(h: Schedule, p: nat, day: int)
    requires h.Regular() && 1 <= p <= LAST_PERIOD && h.Contains(p, day)
    requires h.maxSupply <= 0x1000000000000_0000000000000000_0000000000000000_0000000000000000
    ensures Times(Allocation(h, p), h.Elapsed(p, day)) < INT_LIMIT
  {
    hide FirstOfMonth, GoInt;
    DaysWithin(h, p, day);
    var a := Allocation(h, p);
    HalfAtMost(h.maxSupply, p);
    TimesMonotone(a, h.Elapsed(p, day), 106752);
    assert Times(a, 106752) == a * 106752;
  }

  lemma HalfAtMost(m: nat, p: nat)
    requires p >= 1
    ensures 2 * Quo(m, Pow2(p)) <= m
  {
    var d, q := Pow2(p), Quo(m, Pow2(p));
    assert d >= 2;
    MulMonotone(q, 2, d);
    assert d * q == q * d;
  }

  /** The day is in a period with an allocation, and the pro-rata product of that day fits 256 bits. */
  predicate Funded(h: Schedule, day: int)
  {
    && h.start.DayNumber() <= day <= h.PeriodEnd(63)
    && var p := h.FindPeriod(day, 1);
       var limit := 0x1_0000000000000000_0000000000000000_0000000000000000_0000000000000000;
       Times(Allocation(h, p), h.Elapsed(p, day)) < limit
  }

  /**
   The limit exists exactly from the start date through the end of period 63, on days whose product
   fits; earlier days are refused, later ones make the source divide by zero, and too large a product
   makes it panic as well.
   */
  lemma LimitDefinedExactly(h: Schedule, day: int)
    requires h.Regular()
    ensures h.TotalDistributableAt(day).Err? <==> day < h.start.DayNumber()
    ensures h.TotalDistributableAt(day).Ok? <==> Funded(h, day)
  {
    hide FirstOfMonth, GoInt, Quo, Times, Schedule.FindPeriod;
    if h.start.DayNumber() <= day {
      if day <= h.PeriodEnd(LAST_FUNDED) {
        var p := Covered(h, day, LAST_FUNDED);
        SearchFinds(h, day, 1, p);
        DaysWithin(h, p, day);
      } else {
        PeriodGrows(h, day, day);
        var p := h.FindPeriod(day, 1);
        if p < LAST_FUNDED {
          PeriodsOrdered(h, p, LAST_FUNDED);
          NonEmpty(h, LAST_FUNDED);
        } else if p == 64 {
          DaysWithin(h, p, day);
        }
      }
    }
  }

  /** With a supply of at most 2^240 every product fits. */
  lemma SmallSupplyIsFunded(h: Schedule, day: int)
    requires h.Regular() && h.start.DayNumber() <= day <= h.PeriodEnd(LAST_FUNDED)
    requires h.maxSupply <= 0x1000000000000_0000000000000000_0000000000000000_0000000000000000
    ensures Funded(h, day)
  {
    hide FirstOfMonth, GoInt, Quo, Times, Schedule.FindPeriod;
    var p := Covered(h, day, LAST_FUNDED);
    SearchFinds(h, day, 1, p);
    ProductFits(h, p, day);
  }

  // ----- the loops of the source

  /** `CurrentPeriod`. */
  method CurrentPeriod(h: Schedule, targetDate: int) returns (res: Outcome<nat>)
    ensures res == if targetDate < h.start.DayNumber() then Err else Ok(h.FindPeriod(targetDate, 1))
  {
    hide FirstOfMonth, GoInt;
    if targetDate < h.start.DayNumber() { return Err; }
    var period := 1;
    while true
      invariant 1 <= period <= LAST_PERIOD
      invariant h.FindPeriod(targetDate, 1) == h.FindPeriod(targetDate, period)
      decreases LAST_PERIOD - period
    {
      var periodStart, periodEnd := h.PeriodStart(period), h.PeriodEnd(period);
      if !(targetDate < periodStart) && !(targetDate > periodEnd) {
        return Ok(period);
      }
      period := period + 1;
      if period > LAST_PERIOD {
        return Ok(period);
      }
    }
  }

  /** `TotalDistributableAt`. */
  method ComputeTotalDistributableAt(h: Schedule, targetDate: int) returns (res: Outcome<nat>)
    ensures res == h.TotalDistributableAt(targetDate)
  {
    hide FirstOfMonth, GoInt, Quo, Schedule.FindPeriod, Pow2;
    var current := CurrentPeriod(h, targetDate);
    if !current.Ok? { return Err; }
    var currentPeriod := current.value;
    var total := 0;
    var period := 1;
    while period < currentPeriod
      invariant 1 <= period <= currentPeriod
      invariant period <= 64 && total == h.SumAllocations(period - 1)
    {
      var allocation := h.PeriodAllocation(period);
      if allocation.None? { return Panic; }
      total := total + allocation.value;
      period := period + 1;
    }
    var periodStart, periodEnd := h.PeriodStart(currentPeriod), h.PeriodEnd(currentPeriod);
    var daysInPeriod := DaysInRange(periodStart, periodEnd);
    var daysElapsed := DaysSinceStart(periodStart, targetDate) + 1;
    if daysInPeriod > 0 {
      var allocation := h.PeriodAllocation(currentPeriod);
      if allocation.None? { return Panic; }
      var product := Times(allocation.value, daysElapsed);
      if product >= INT_LIMIT { return Panic; }
      total := total + Quo(product, daysInPeriod);
    }
    return Ok(total);
  }
}
