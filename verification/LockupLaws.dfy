/** What the lockup messages keep, exactly when they keep it, and the invariant over transactions and runs. */
module LockupLaws {
  import opened Common
  import opened Calendar
  import opened Delegations
  import opened Locks
  import opened Markers
  import opened Lockup

  // ----- what a change of one account's records leaves alone

  /** s' differs from s in the delegations of d only. */
  ghost predicate OnlyDels(s: State, s': State, d: Address)
  {
    && s'.today == s.today && s'.locks == s.locks && s'.queue == s.queue
    && forall a :: a != d ==> s'.Dels(a) == s.Dels(a)
  }

  /** s' differs from s in the locks of a only. */
  ghost predicate OnlyLocks(s: State, s': State, a: Address)
  {
    && s'.today == s.today && s'.dels == s.dels
    && forall b :: b != a ==> s'.LocksOf(b) == s.LocksOf(b)
  }

  lemma DelsStayValid(s: State, s': State, d: Address)
    requires s.WellFormed() && OnlyDels(s, s', d) && ValidStore(s'.Dels(d))
    ensures s'.WellFormed()
  {
    hide ValidStore, Ordered, AmountOn;
    assert forall a :: s'.LocksOf(a) == s.LocksOf(a);
    assert forall a, date :: s'.Queued(date, a) == s.Queued(date, a);
    forall a
      ensures ValidStore(s'.Dels(a))
    {
      if a != d {
        assert s'.Dels(a) == s.Dels(a);
      }
    }
  }

  // ----- effects

  /** A delegation adds its amount to the counted total. */
  lemma BondEffect(rates: Rates, marks: Marks, s: State, d: Address, v: Address, amount: int)
    requires ValidRates(rates) && s.WellFormed() && Bond(rates, marks, s, d, v, amount).Some?
    ensures var s' := Bond(rates, marks, s, d, v, amount).value;
            && OnlyDels(s, s', d) && s'.WellFormed()
            && Counted(rates, s'.Dels(d)) == Counted(rates, s.Dels(d)) + amount
  {
    hide Counted, Put, TokensAt, LockedOn, CheckExcluding, ValidStore, State.WellFormed;
    var s' := Bond(rates, marks, s, d, v, amount).value;
    assert rates(v) > 0.0;
    CountedMoves(rates, s.Dels(d), v, amount);
    StoreIsValid(s, d);
    TokensNonnegative(rates, s.Dels(d), v);
    var t := TokensAt(rates, s.Dels(d), v) + amount as real;
    ShareTokens(t, rates(v));
    PutValid(s.Dels(d), v, t / rates(v));
    DelsStayValid(s, s', d);
  }

  lemma StoreIsValid(s: State, d: Address)
    requires s.WellFormed()
    ensures ValidStore(s.Dels(d)) && Ordered(s.LocksOf(d))
  {
  }

  lemma TokensNonnegative(rates: Rates, ds: seq<Delegation>, v: Address)
    requires ValidRates(rates) && ValidStore(ds)
    ensures TokensAt(rates, ds, v) >= 0.0
    ensures TokensAt(rates, ds, v) == 0.0 <==> Find(ds, v) == |ds|
  {
    hide Find;
    assert rates(v) > 0.0;
    var i := Find(ds, v);
    if i < |ds| {
      Positive(ds[i].shares, rates(v));
    }
  }

  /** An undelegation takes its amount from the counted total, whether or not the record survives. */
  lemma UnbondEffect(rates: Rates, marks: Marks, s: State, d: Address, v: Address, amount: int)
    requires ValidRates(rates) && s.WellFormed() && Unbond(rates, marks, s, d, v, amount).Some?
    ensures var s' := Unbond(rates, marks, s, d, v, amount).value;
            && OnlyDels(s, s', d) && s'.WellFormed()
            && Counted(rates, s'.Dels(d)) == Counted(rates, s.Dels(d)) - amount
  {
    hide Counted, Put, Removed, TokensAt, LockedOn, CheckExcluding, ValidStore, State.WellFormed;
    var s' := Unbond(rates, marks, s, d, v, amount).value;
    assert rates(v) > 0.0;
    StoreIsValid(s, d);
    var t := TokensAt(rates, s.Dels(d), v) + (-amount) as real;
    if t == 0.0 {
      ExcludingIsRemoving(rates, s.Dels(d), v);
      AmountOfTokens(rates, s.Dels(d), v);
      CeilWhole(amount);
      RemovedValid(s.Dels(d), v);
    } else {
      CountedMoves(rates, s.Dels(d), v, -amount);
      ShareTokens(t, rates(v));
      PutValid(s.Dels(d), v, t / rates(v));
    }
    DelsStayValid(s, s', d);
  }

  lemma CeilWhole(n: int)
    ensures Ceil(n as real) == n
  {
  }

  // ----- acceptance

  /** The check passes exactly when nothing is locked, or fewer than 100 delegations cover what is locked. */
  lemma CheckExactly(rates: Rates, s: State, d: Address, exclude: Option<Address>)
    ensures CheckExcluding(rates, s, d, exclude) <==>
            || s.Locked(d) == 0
            || (&& |s.Dels(d)| <= 99
                && var left := if exclude.Some? then Removed(s.Dels(d), exclude.value) else s.Dels(d);
                   s.Locked(d) <= Counted(rates, left))
  {
    hide Counted, AmountAt, LockedOn, Removed, FirstOfMonth;
    if exclude.Some? {
      ExcludingIsRemoving(rates, s.Dels(d), exclude.value);
    }
  }

  /** A delegation is accepted exactly when it is positive and, unless exempt, covers what is locked with the rest. */
  lemma BondAcceptedExactly(rates: Rates, marks: Marks, s: State, d: Address, v: Address, n: int)
    requires ValidRates(rates) && rates(v) > 0.0
    ensures var records := if HasRecord(s.Dels(d), v) then |s.Dels(d)| else |s.Dels(d)| + 1;
            Bond(rates, marks, s, d, v, n).Some? <==>
            && n > 0
            && (Marked(marks, d, v) || s.Locked(d) == 0 ||
                (records <= 99 && s.Locked(d) <= Counted(rates, s.Dels(d)) + n))
    ensures Exec(rates, marks, s, Delegate(d, v, n)) == Bond(rates, marks, s, d, v, n)
  {
    hide Counted, Put, TokensAt, LockedOn, CheckExcluding, FirstOfMonth;
    var t := TokensAt(rates, s.Dels(d), v) + n as real;
    var s' := s.WithDels(d, Put(s.Dels(d), v, t / rates(v)));
    CountedMoves(rates, s.Dels(d), v, n);
    RecordsAfter(s.Dels(d), v, t / rates(v), v);
    assert s'.LocksOf(d) == s.LocksOf(d);
    CheckExactly(rates, s', d, None);
  }

  /**
   An undelegation is accepted exactly when it is positive and not more than is there, and, unless exempt,
   leaves what is locked covered; the record that goes counts among the 99 until it is gone.
   */
  lemma UnbondAcceptedExactly(rates: Rates, marks: Marks, s: State, d: Address, v: Address, n: int)
    requires ValidRates(rates) && rates(v) > 0.0 && s.WellFormed()
    ensures Unbond(rates, marks, s, d, v, n).Some? <==>
            && 0 < n && n as real <= TokensAt(rates, s.Dels(d), v)
            && (Marked(marks, d, v) || s.Locked(d) == 0 ||
                (|s.Dels(d)| <= 99 && s.Locked(d) + n <= Counted(rates, s.Dels(d))))
    ensures Exec(rates, marks, s, Undelegate(d, v, n)) == Unbond(rates, marks, s, d, v, n)
  {
    hide Counted, Put, Removed, TokensAt, LockedOn, CheckExcluding, FirstOfMonth, State.WellFormed;
    var ds := s.Dels(d);
    var t := TokensAt(rates, ds, v) + (-n) as real;
    StoreIsValid(s, d);
    TokensNonnegative(rates, ds, v);
    var s' := s.WithDels(d, Put(ds, v, t / rates(v)));
    RecordsAfter(ds, v, t / rates(v), v);
    assert s'.LocksOf(d) == s.LocksOf(d);
    ExcludingIsRemoving(rates, ds, v);
    AmountOfTokens(rates, ds, v);
    CeilWhole(n);
    CountedMoves(rates, ds, v, -n);
    CheckExactly(rates, s, d, Some(v));
    CheckExactly(rates, s', d, None);
  }

  /** A redelegation is accepted exactly when its withdrawal is, and its delegation is after it. */
  lemma RedelegateAcceptedExactly(rates: Rates, marks: Marks, s: State, d: Address, src: Address, dst: Address, n: int)
    requires ValidRates(rates) && s.WellFormed()
    ensures var ds := s.Dels(d);
            var emptied, added := TokensAt(rates, ds, src) == n as real, !HasRecord(ds, dst);
            var records := |ds| - (if emptied then 1 else 0) + (if added then 1 else 0);
            Exec(rates, marks, s, Redelegate(d, src, dst, n)).Some? <==>
            && src != dst && 0 < n && n as real <= TokensAt(rates, ds, src)
            && (Marked(marks, d, src) || s.Locked(d) == 0 ||
                (|ds| <= 99 && s.Locked(d) + n <= Counted(rates, ds)))
            && (Marked(marks, d, dst) || s.Locked(d) == 0 || (records <= 99 && s.Locked(d) <= Counted(rates, ds)))
  {
    hide Counted, TokensAt, LockedOn, FirstOfMonth, State.WellFormed, Bond, HasRecord;
    assert rates(src) > 0.0 && rates(dst) > 0.0;
    UnbondAcceptedExactly(rates, marks, s, d, src, n);
    if src != dst && Unbond(rates, marks, s, d, src, n).Some? {
      var mid := Unbond(rates, marks, s, d, src, n).value;
      UnbondEffect(rates, marks, s, d, src, n);
      DelsOnlyIsOthersKept(s, mid, d);
      UnbondRecords(rates, marks, s, d, src, n, dst);
      BondAcceptedExactly(rates, marks, mid, d, dst, n);
    }
  }

  lemma UnbondRecords(rates: Rates, marks: Marks, s: State, d: Address, v: Address, n: int, u: Address)
    requires ValidRates(rates) && rates(v) > 0.0 && s.WellFormed() && u != v
    requires Unbond(rates, marks, s, d, v, n).Some?
    ensures var ds, after := s.Dels(d), Unbond(rates, marks, s, d, v, n).value.Dels(d);
            && |after| == (if TokensAt(rates, ds, v) == n as real then |ds| - 1 else |ds|)
            && (HasRecord(after, u) <==> HasRecord(ds, u))
  {
    hide Counted, Put, Removed, TokensAt, LockedOn, CheckExcluding, FirstOfMonth, State.WellFormed, HasRecord;
    var ds := s.Dels(d);
    StoreIsValid(s, d);
    TokensNonnegative(rates, ds, v);
    RecordsAfter(ds, v, (TokensAt(rates, ds, v) - n as real) / rates(v), u);
  }

  /** The window for unlock dates: after today, and not after the same month and day two years on. */
  lemma DateAllowedExactly(today: Date, u: Date)
    requires today.Proper() && u.Proper()
    ensures DateAllowed(today, u.DayNumber()) <==> today.Before(u) && !today.TwoYearsOn().Before(u)
  {
    hide FirstOfMonth, MonthLength;
    DayNumberOrder(today, u);
    TwoYearsLater(today);
    DayNumberOrder(today.TwoYearsOn(), u);
  }

  /** A lock is accepted exactly when it is positive, in the window, and covered by fewer than 100 delegations. */
  lemma LockAcceptedExactly(rates: Rates, marks: Marks, s: State, a: Address, u: Date, n: int)
    requires ValidRates(rates) && s.today.Proper() && u.Proper()
    ensures LockSpec(rates, s, a, u.DayNumber(), n).Some? <==>
            && n > 0 && s.today.Before(u) && !s.today.TwoYearsOn().Before(u)
            && |s.Dels(a)| <= 99 && s.Locked(a) + n <= Counted(rates, s.Dels(a))
    ensures Exec(rates, marks, s, LockMsg(a, u.DayNumber(), n)) == LockSpec(rates, s, a, u.DayNumber(), n)
  {
    hide FirstOfMonth, MonthLength, Counted, LockedOn, DateAllowed;
    DateAllowedExactly(s.today, u);
  }

  /** A lock adds its amount to what is locked, which the delegations then still cover. */
  lemma LockEffect(rates: Rates, s: State, a: Address, date: int, amount: int)
    requires s.WellFormed() && LockSpec(rates, s, a, date, amount).Some?
    ensures var s' := LockSpec(rates, s, a, date, amount).value;
            && OnlyLocks(s, s', a) && s'.WellFormed()
            && s'.Locked(a) == s.Locked(a) + amount
            && Holds(rates, s', a)
  {
    hide Counted, AddOn, SumIf, FirstOfMonth, ValidStore, Ordered;
    var s' := LockSpec(rates, s, a, date, amount).value;
    StoreIsValid(s, a);
    SumAdded(s.LocksOf(a), date, amount, d => s.Day() < d);
    AddKeepsOrder(s.LocksOf(a), date, amount);
    forall q
      ensures AmountOn(s'.LocksOf(a), q) == AmountOn(s.LocksOf(a), q) + if q == date then amount else 0
    {
      SumAdded(s.LocksOf(a), date, amount, d => d == q);
    }
    forall q
      ensures s'.Queued(q, a) == AmountOn(s'.LocksOf(a), q)
    {
      assert s.Queued(q, a) == AmountOn(s.LocksOf(a), q);
    }
    LocksStayInStep(s, s', a);
  }

  /** A change of one account's locks and of its own queue entries keeps the stores in step. */
  lemma LocksStayInStep(s: State, s': State, a: Address)
    requires s.WellFormed() && OnlyLocks(s, s', a) && Ordered(s'.LocksOf(a))
    requires forall q :: s'.Queued(q, a) == AmountOn(s'.LocksOf(a), q)
    requires forall q, b :: b != a ==> s'.Queued(q, b) == s.Queued(q, b)
    ensures s'.WellFormed()
  {
    hide ValidStore, Ordered, AmountOn;
    assert forall b :: s'.Dels(b) == s.Dels(b);
    forall b
      ensures Ordered(s'.LocksOf(b))
    {
      if b != a {
        assert s'.LocksOf(b) == s.LocksOf(b);
      }
    }
    forall b, q
      ensures s'.Queued(q, b) == AmountOn(s'.LocksOf(b), q)
    {
      if b != a {
        assert s'.LocksOf(b) == s.LocksOf(b);
      }
    }
  }

  /** What extensions bring back: amounts taken from dates that have already passed. */
  function Revived(es: seq<Extension>, today: int): (n: int)
  {
    if es == [] then 0
    else Revived(es[..|es| - 1], today) + (if es[|es| - 1].from <= today then es[|es| - 1].amount else 0)
  }

  /** What an extension changes of the amount on date q. */
  function Shift(e: Extension, q: int): (n: int)
  {
    (if q == e.to then e.amount else 0) - (if q == e.from then e.amount else 0)
  }

  lemma ExtendOneEffect(s: State, a: Address, e: Extension)
    requires s.WellFormed() && ExtendOne(s, a, e).Some?
    ensures var s' := ExtendOne(s, a, e).value;
            && OnlyLocks(s, s', a) && s'.WellFormed()
            && s'.Locked(a) == s.Locked(a) + (if e.from <= s.Day() then e.amount else 0)
  {
    hide AddOn, TakeFrom, SumIf, FindDate, FirstOfMonth, ValidStore, Ordered;
    var s' := ExtendOne(s, a, e).value;
    var ls := s.LocksOf(a);
    var i := FindDate(ls, e.from);
    var taken := TakeFrom(ls, i, e.amount);
    StoreIsValid(s, a);
    SumTaken(ls, i, e.amount, d => s.Day() < d);
    SumAdded(taken, e.to, e.amount, d => s.Day() < d);
    TakeKeepsOrder(ls, i, e.amount);
    AddKeepsOrder(taken, e.to, e.amount);
    forall q
      ensures AmountOn(s'.LocksOf(a), q) == AmountOn(ls, q) + Shift(e, q)
    {
      SumTaken(ls, i, e.amount, d => d == q);
      SumAdded(taken, e.to, e.amount, d => d == q);
    }
    QueueFollows(s, a, e);
    LocksStayInStep(s, s', a);
  }

  /** The queue loses the amount at the old date and gains it at the new one. */
  lemma QueueFollows(s: State, a: Address, e: Extension)
    requires s.WellFormed() && ExtendOne(s, a, e).Some?
    ensures var s' := ExtendOne(s, a, e).value;
            && (forall q :: s'.Queued(q, a) == AmountOn(s.LocksOf(a), q) + Shift(e, q))
            && (forall q, b :: b != a ==> s'.Queued(q, b) == s.Queued(q, b))
  {
    hide AddOn, TakeFrom, AmountOn, FindDate, FirstOfMonth, ValidStore, Ordered;
    var s', ls := ExtendOne(s, a, e).value, s.LocksOf(a);
    RecordQueued(s, a, e.from);
    forall q
      ensures s'.Queued(q, a) == AmountOn(ls, q) + Shift(e, q)
    {
      assert s.Queued(q, a) == AmountOn(ls, q);
    }
  }

  /** An entry of the queue goes when all of its amount does, and only then. */
  lemma DequeuedKeys(s: State, date: int, a: Address, amount: int, q: int, b: Address)
    ensures (q, b) in Dequeued(s, date, a, amount) <==>
            (q, b) in s.queue && !((q, b) == (date, a) && s.queue[(q, b)] == amount)
  {
  }

  /** The queue entry of a date is the amount of its record. */
  lemma RecordQueued(s: State, a: Address, date: int)
    requires s.WellFormed()
    ensures var ls := s.LocksOf(a);
            var i := FindDate(ls, date);
            s.Queued(date, a) == AmountOn(ls, date) == if i < |ls| then ls[i].amount else 0
  {
    hide FindDate;
    StoreIsValid(s, a);
    AmountIsRecord(s.LocksOf(a), date);
  }

  /** `Extend` never fails because of the queue: the entry holds what the record holds. */
  lemma QueueNeverRefuses(s: State, a: Address, e: Extension)
    requires s.WellFormed()
    ensures var i := FindDate(s.LocksOf(a), e.from);
            ExtendOne(s, a, e).Some? <==>
              && 0 <= e.amount && e.from < e.to && DateAllowed(s.today, e.to)
              && i < |s.LocksOf(a)| && e.amount <= s.LocksOf(a)[i].amount
  {
    hide FindDate, AmountOn, FirstOfMonth, TakeFrom, AddOn, State.WellFormed;
    RecordQueued(s, a, e.from);
  }

  /** An extension is accepted exactly when its old date has enough and its new date is later and in the window. */
  lemma ExtendAcceptedExactly(s: State, a: Address, from: Date, to: Date, n: int)
    requires s.WellFormed() && s.today.Proper() && from.Proper() && to.Proper()
    ensures ExtendOne(s, a, Extension(from.DayNumber(), to.DayNumber(), n)).Some? <==>
            && n >= 0 && from.Before(to) && s.today.Before(to) && !s.today.TwoYearsOn().Before(to)
            && var ls := s.LocksOf(a);
               exists i :: 0 <= i < |ls| && ls[i].unlock == from.DayNumber() && n <= ls[i].amount
  {
    hide FirstOfMonth, MonthLength, ExtendOne, FindDate, DateAllowed;
    var e, ls := Extension(from.DayNumber(), to.DayNumber(), n), s.LocksOf(a);
    QueueNeverRefuses(s, a, e);
    DateAllowedExactly(s.today, to);
    DayNumberOrder(from, to);
    StoreIsValid(s, a);
    forall i | 0 <= i < |ls| && ls[i].unlock == from.DayNumber()
      ensures i == FindDate(ls, e.from)
    {
      DatesDiffer(ls, i, FindDate(ls, e.from));
    }
  }

  lemma DatesDiffer(ls: seq<Lock>, i: nat, j: nat)
    requires Ordered(ls) && i < |ls| && j < |ls| && ls[i].unlock == ls[j].unlock
    ensures i == j
  {
  }

  /** A list of extensions is accepted exactly when its parts are in turn, and the message when the list is. */
  lemma {:induction false} ExtendConcat(
    rates: Rates, marks: Marks, s: State, a: Address, xs: seq<Extension>, ys: seq<Extension>)
    requires ValidRates(rates)
    ensures ExtendSpec(s, a, xs + ys) == match ExtendSpec(s, a, xs)
                                         case None => None
                                         case Some(s') => ExtendSpec(s', a, ys)
    ensures forall e :: ExtendSpec(s, a, [e]) == ExtendOne(s, a, e)
    ensures Exec(rates, marks, s, ExtendMsg(a, xs)) == ExtendSpec(s, a, xs)
    decreases |ys|
  {
    hide ExtendOne;
    assert forall e: Extension :: [e][..0] == [];
    if ys == [] {
      assert xs + ys == xs;
    } else {
      assert (xs + ys)[..|xs + ys| - 1] == xs + ys[..|ys| - 1];
      ExtendConcat(rates, marks, s, a, xs, ys[..|ys| - 1]);
    }
  }

  lemma {:induction false} ExtendEffect(s: State, a: Address, es: seq<Extension>)
    requires s.WellFormed() && ExtendSpec(s, a, es).Some?
    ensures var s' := ExtendSpec(s, a, es).value;
            && OnlyLocks(s, s', a) && s'.WellFormed()
            && s'.Locked(a) == s.Locked(a) + Revived(es, s.Day())
  {
    hide ExtendOne, LockedOn, State.WellFormed;
    if es == [] {
    } else {
      ExtendEffect(s, a, es[..|es| - 1]);
      ExtendOneEffect(ExtendSpec(s, a, es[..|es| - 1]).value, a, es[|es| - 1]);
    }
  }

  // ----- one message

  /** The accounts a message does not name keep their delegations and their locks. */
  ghost predicate OthersKept(s: State, s': State, d: Address)
  {
    && s'.today == s.today
    && forall a :: a != d ==> s'.Dels(a) == s.Dels(a) && s'.LocksOf(a) == s.LocksOf(a)
  }

  /** How a message moves the two sides of the invariant for the account it names. */
  ghost predicate Moves(rates: Rates, s: State, s': State, m: Msg)
  {
    var more := Counted(rates, s'.Dels(m.d)) - Counted(rates, s.Dels(m.d));
    var locked := s'.Locked(m.d) - s.Locked(m.d);
    match m
    case Delegate(_, _, n) => more == n && locked == 0
    case Undelegate(_, _, n) => more == -n && locked == 0
    case Redelegate(_, _, _, _) => more == 0 && locked == 0
    case LockMsg(_, _, n) => more == 0 && locked == n
    case ExtendMsg(_, es) => more == 0 && locked == Revived(es, s.Day())
    case DelegateAndLock(_, _, _, n) => more == n && locked == n
  }

  lemma DelsOnlyIsOthersKept(s: State, s': State, d: Address)
    requires OnlyDels(s, s', d)
    ensures OthersKept(s, s', d) && s'.Locked(d) == s.Locked(d)
  {
    hide LockedOn;
    assert forall a :: s'.LocksOf(a) == s.LocksOf(a);
  }

  lemma LocksOnlyIsOthersKept(s: State, s': State, d: Address)
    requires OnlyLocks(s, s', d)
    ensures OthersKept(s, s', d) && s'.Dels(d) == s.Dels(d)
  {
    hide LockedOn;
    assert forall a :: s'.Dels(a) == s.Dels(a);
  }

  /** Every message keeps the stores well formed and other accounts untouched, and moves its own as it says. */
  lemma ExecEffect(rates: Rates, marks: Marks, s: State, m: Msg)
    requires ValidRates(rates) && s.WellFormed() && Exec(rates, marks, s, m).Some?
    ensures var s' := Exec(rates, marks, s, m).value;
            s'.WellFormed() && OthersKept(s, s', m.d) && Moves(rates, s, s', m)
  {
    hide Bond, Unbond, LockSpec, ExtendSpec, Counted, LockedOn, State.WellFormed, Holds;
    var s' := Exec(rates, marks, s, m).value;
    match m
    case Delegate(d, v, n) =>
      BondEffect(rates, marks, s, d, v, n);
      DelsOnlyIsOthersKept(s, s', d);
    case Undelegate(d, v, n) =>
      UnbondEffect(rates, marks, s, d, v, n);
      DelsOnlyIsOthersKept(s, s', d);
    case Redelegate(d, src, dst, n) =>
      var mid := Unbond(rates, marks, s, d, src, n).value;
      UnbondEffect(rates, marks, s, d, src, n);
      DelsOnlyIsOthersKept(s, mid, d);
      BondEffect(rates, marks, mid, d, dst, n);
      DelsOnlyIsOthersKept(mid, s', d);
    case LockMsg(a, date, n) =>
      LockEffect(rates, s, a, date, n);
      LocksOnlyIsOthersKept(s, s', a);
    case ExtendMsg(a, es) =>
      ExtendEffect(s, a, es);
      LocksOnlyIsOthersKept(s, s', a);
    case DelegateAndLock(a, v, date, n) =>
      var mid := Bond(rates, marks, s, a, v, n).value;
      BondEffect(rates, marks, s, a, v, n);
      DelsOnlyIsOthersKept(s, mid, a);
      LockEffect(rates, mid, a, date, n);
      LocksOnlyIsOthersKept(mid, s', a);
  }

  lemma OthersStillHold(rates: Rates, s: State, s': State, d: Address)
    requires OthersKept(s, s', d) && Invariant(rates, s) && Holds(rates, s', d)
    ensures Invariant(rates, s')
  {
    hide Counted, LockedOn;
    forall a
      ensures Holds(rates, s', a)
    {
      if a != d {
        assert Holds(rates, s, a);
      }
    }
  }

  // ----- which messages keep the invariant

  /** A message ends with a lockup check of its own account. */
  predicate Checked(marks: Marks, m: Msg)
  {
    match m
    case Delegate(d, v, _) => !Marked(marks, d, v)
    case Undelegate(d, v, _) => !Marked(marks, d, v)
    case Redelegate(d, _, dst, _) => !Marked(marks, d, dst)
    case LockMsg(_, _, _) => true
    case ExtendMsg(_, _) => false
    case DelegateAndLock(_, _, _, _) => true
  }

  /** After a checked message its account is covered, whatever was true before. */
  lemma CheckedMeansHolds(rates: Rates, marks: Marks, s: State, m: Msg)
    requires ValidRates(rates) && s.WellFormed() && Exec(rates, marks, s, m).Some? && Checked(marks, m)
    ensures Holds(rates, Exec(rates, marks, s, m).value, m.d)
  {
    hide Counted, LockedOn, State.WellFormed, Put, Removed, TokensAt, AddOn, FirstOfMonth;
    ExecEffect(rates, marks, s, m);
    var s' := Exec(rates, marks, s, m).value;
    match m
    case Delegate(d, v, n) =>
      CheckMeansCovered(rates, s', d, None);
    case Undelegate(d, v, n) =>
      UnbondChecked(rates, marks, s, d, v, n);
    case Redelegate(d, src, dst, n) =>
      CheckMeansCovered(rates, s', d, None);
    case LockMsg(a, date, n) =>
      LockEffect(rates, s, a, date, n);
    case DelegateAndLock(a, v, date, n) =>
      BondEffect(rates, marks, s, a, v, n);
      LockEffect(rates, Bond(rates, marks, s, a, v, n).value, a, date, n);
  }

  lemma UnbondChecked(rates: Rates, marks: Marks, s: State, d: Address, v: Address, n: int)
    requires ValidRates(rates) && s.WellFormed() && Unbond(rates, marks, s, d, v, n).Some? && !Marked(marks, d, v)
    ensures Holds(rates, Unbond(rates, marks, s, d, v, n).value, d)
  {
    hide Counted, LockedOn, State.WellFormed, Put, Removed, TokensAt, CheckExcluding;
    var s' := Unbond(rates, marks, s, d, v, n).value;
    UnbondEffect(rates, marks, s, d, v, n);
    DelsOnlyIsOthersKept(s, s', d);
    if CheckExcluding(rates, s, d, Some(v)) && s' == s.WithDels(d, Removed(s.Dels(d), v)) {
      CheckMeansCovered(rates, s, d, Some(v));
    } else {
      CheckMeansCovered(rates, s', d, None);
    }
  }

  /** An undelegation the ante handler exempted, or an extension that revives an expired lock. */
  predicate Unguarded(marks: Marks, today: int, m: Msg)
  {
    match m
    case Undelegate(d, v, _) => Marked(marks, d, v)
    case ExtendMsg(_, es) => Revived(es, today) > 0
    case _ => false
  }

  /** Every other message that succeeds keeps an account covered, whatever pairs are marked. */
  lemma GuardedKeepsHolds(rates: Rates, marks: Marks, s: State, m: Msg, a: Address)
    requires ValidRates(rates) && s.WellFormed() && Holds(rates, s, a)
    requires Exec(rates, marks, s, m).Some? && (a == m.d ==> !Unguarded(marks, s.Day(), m))
    ensures Holds(rates, Exec(rates, marks, s, m).value, a)
  {
    hide Exec, Counted, LockedOn, State.WellFormed;
    ExecEffect(rates, marks, s, m);
    if m.Delegate? {
      BondPositive(rates, marks, s, m);
    }
    if Checked(marks, m) {
      CheckedMeansHolds(rates, marks, s, m);
    }
  }

  lemma GuardedKeepsInvariant(rates: Rates, marks: Marks, s: State, m: Msg)
    requires ValidRates(rates) && s.WellFormed() && Invariant(rates, s)
    requires Exec(rates, marks, s, m).Some? && !Unguarded(marks, s.Day(), m)
    ensures Invariant(rates, Exec(rates, marks, s, m).value)
  {
    hide Exec, Holds, State.WellFormed, Unguarded;
    forall a
      ensures Holds(rates, Exec(rates, marks, s, m).value, a)
    {
      GuardedKeepsHolds(rates, marks, s, m, a);
    }
  }

  lemma BondPositive(rates: Rates, marks: Marks, s: State, m: Msg)
    requires ValidRates(rates) && m.Delegate? && Exec(rates, marks, s, m).Some?
    ensures m.amount > 0
  {
    hide CheckExcluding, Put, TokensAt;
  }

  /** An extension keeps the invariant exactly when the delegations also cover what it revives. */
  lemma ExtendKeepsExactly(rates: Rates, marks: Marks, s: State, m: Msg)
    requires ValidRates(rates) && s.WellFormed() && Invariant(rates, s)
    requires m.ExtendMsg? && Exec(rates, marks, s, m).Some?
    ensures Invariant(rates, Exec(rates, marks, s, m).value) <==>
            s.Locked(m.d) + Revived(m.extensions, s.Day()) <= Counted(rates, s.Dels(m.d))
  {
    hide Exec, Counted, LockedOn, State.WellFormed;
    var s' := Exec(rates, marks, s, m).value;
    ExecEffect(rates, marks, s, m);
    if Holds(rates, s', m.d) {
      OthersStillHold(rates, s, s', m.d);
    }
  }

  // ----- the undelegation that is not checked

  /** An account that has delegated n tokens to v and locked all of them until tomorrow. */
  function AllLocked(rates: Rates, today: Date, d: Address, v: Address, n: int): (s: State)
    requires rates(v) > 0.0
  {
    var tomorrow := today.DayNumber() + 1;
    State(
      today,
      map[d := [Delegation(v, n as real / rates(v))]], map[d := [Lock(tomorrow, n)]], map[(tomorrow, d) := n])
  }

  lemma AllLockedIsSound(rates: Rates, today: Date, d: Address, v: Address, n: int)
    requires ValidRates(rates) && n > 0
    ensures var s := AllLocked(rates, today, d, v, n);
            && s.WellFormed() && Invariant(rates, s)
            && s.Locked(d) == n && Counted(rates, s.Dels(d)) == n
            && TokensAt(rates, s.Dels(d), v) == n as real && |s.Dels(d)| == 1
  {
    hide FirstOfMonth, Counted, LockedOn, AmountOn, TokensAt, Find, ValidStore, Ordered;
    var s := AllLocked(rates, today, d, v, n);
    assert rates(v) > 0.0;
    var g, l := Delegation(v, n as real / rates(v)), Lock(today.DayNumber() + 1, n);
    OneDelegation(rates, v, n);
    OneLock(today.DayNumber(), n);
    assert s.Dels(d) == [g] && s.LocksOf(d) == [l];
    forall a | a != d
      ensures s.Dels(a) == [] && s.LocksOf(a) == []
    {
    }
    Nothing(rates, s.Day());
    assert forall a :: Holds(rates, s, a);
    assert forall a, date :: s.Queued(date, a) == AmountOn(s.LocksOf(a), date);
  }

  lemma OneDelegation(rates: Rates, v: Address, n: int)
    requires ValidRates(rates) && n > 0 && rates(v) > 0.0
    ensures var ds := [Delegation(v, n as real / rates(v))];
            ValidStore(ds) && Counted(rates, ds) == n && TokensAt(rates, ds, v) == n as real
  {
    hide Counted;
    var g := Delegation(v, n as real / rates(v));
    ShareTokens(n as real, rates(v));
    CountedOne(rates, g);
    CeilWhole(n);
    assert Find([g], v) == 0;
  }

  lemma OneLock(today: int, n: int)
    requires n > 0
    ensures var ls := [Lock(today + 1, n)];
            Ordered(ls) && LockedOn(ls, today) == n && forall q :: AmountOn(ls, q) == if q == today + 1 then n else 0
  {
    hide SumIf;
    var l := Lock(today + 1, n);
    SumOne(l, date => today < date);
    forall q
      ensures AmountOn([l], q) == if q == l.unlock then n else 0
    {
      SumOne(l, date => date == q);
    }
  }

  lemma Nothing(rates: Rates, today: int)
    ensures ValidStore([]) && Ordered([]) && Counted(rates, []) == 0 && LockedOn([], today) == 0
    ensures forall q :: AmountOn([], q) == 0
  {
  }

  /** Extending a lock that has expired brings it back although nothing is delegated. */
  lemma ExpiredExtensionBreaks(rates: Rates, marks: Marks, today: Date, d: Address, n: int)
    requires ValidRates(rates) && n > 0
    ensures var day := today.DayNumber();
            var s := State(today, map[], map[d := [Lock(day, n)]], map[(day, d) := n]);
            var r := Exec(rates, marks, s, ExtendMsg(d, [Extension(day, day + 1, n)]));
            s.WellFormed() && Invariant(rates, s) && r.Some? && !Invariant(rates, r.value)
  {
    hide FirstOfMonth, Counted, LockedOn, AmountOn, ValidStore, Ordered, FindDate, TakeFrom, AddOn;
    var day := today.DayNumber();
    var s := State(today, map[], map[d := [Lock(day, n)]], map[(day, d) := n]);
    var e, m := Extension(day, day + 1, n), ExtendMsg(d, [Extension(day, day + 1, n)]);
    ExpiredLock(day, n);
    Nothing(rates, day);
    assert forall a :: s.Dels(a) == [];
    assert s.LocksOf(d) == [Lock(day, n)] && forall a :: a != d ==> s.LocksOf(a) == [];
    assert forall a :: Holds(rates, s, a);
    MonthsApart(today.MonthIndex(), 24);
    assert DateAllowed(today, day + 1);
    assert [e][..0] == [];
    assert ExtendSpec(s, d, [e]) == ExtendOne(s, d, e);
    ExecEffect(rates, marks, s, m);
    assert Revived([e], day) == Revived([], day) + n;
    assert !Holds(rates, Exec(rates, marks, s, m).value, d);
  }

  lemma ExpiredLock(day: int, n: int)
    requires n > 0
    ensures var ls := [Lock(day, n)];
            && Ordered(ls) && LockedOn(ls, day) == 0 && FindDate(ls, day) == 0
            && forall q :: AmountOn(ls, q) == if q == day then n else 0
  {
    hide SumIf;
    var l := Lock(day, n);
    SumOne(l, date => day < date);
    forall q
      ensures AmountOn([l], q) == if q == day then n else 0
    {
      SumOne(l, date => date == q);
    }
    assert [l][..0] == [];
  }

  /** An undelegation is safe in every state exactly when its pair is not marked. */
  lemma UndelegateSafeExactly(rates: Rates, marks: Marks, today: Date, m: Msg)
    requires ValidRates(rates) && m.Undelegate? && m.amount > 0
    ensures !Marked(marks, m.d, m.v) <==>
            forall s: State ::
              s.WellFormed() && Invariant(rates, s) && s.today == today && Exec(rates, marks, s, m).Some? ==>
                Invariant(rates, Exec(rates, marks, s, m).value)
  {
    hide Exec, Counted, LockedOn, State.WellFormed, FirstOfMonth;
    if Marked(marks, m.d, m.v) {
      var s := AllLocked(rates, today, m.d, m.v, m.amount);
      AllLockedIsSound(rates, today, m.d, m.v, m.amount);
      MarkedUnbondSucceeds(rates, marks, s, m);
      ExecEffect(rates, marks, s, m);
      assert !Holds(rates, Exec(rates, marks, s, m).value, m.d);
    } else {
      forall s: State | s.WellFormed() && Invariant(rates, s) && s.today == today && Exec(rates, marks, s, m).Some?
        ensures Invariant(rates, Exec(rates, marks, s, m).value)
      {
        GuardedKeepsInvariant(rates, marks, s, m);
      }
    }
  }

  lemma MarkedUnbondSucceeds(rates: Rates, marks: Marks, s: State, m: Msg)
    requires ValidRates(rates) && m.Undelegate? && m.amount > 0 && Marked(marks, m.d, m.v)
    requires TokensAt(rates, s.Dels(m.d), m.v) >= m.amount as real
    ensures Exec(rates, marks, s, m).Some?
  {
    hide TokensAt, Put, Removed, CheckExcluding;
  }
}
