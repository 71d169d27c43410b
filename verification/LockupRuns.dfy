/** Transactions of several messages, and runs of transactions and passing days. */
module LockupRuns {
  import opened Common
  import opened Calendar
  import opened Delegations
  import opened Locks
  import opened Markers
  import opened Lockup
  import opened LockupLaws

  // ----- transactions

  function AnteView(ms: seq<Msg>): (msgs: seq<TxMsg>)
  {
    seq(|ms|, i requires 0 <= i < |ms| =>
      if ms[i].Redelegate? then BeginRedelegate(Some(ms[i].d), Some(ms[i].v)) else OtherMsg)
  }

  /** What the ante handler marks for a transaction. */
  ghost function TxMarks(ms: seq<Msg>): (marks: Marks)
  {
    SourceKeys(AnteView(ms))
  }

  /** The messages in turn; the first failure fails them all. */
  function ExecAll(rates: Rates, marks: Marks, s: State, ms: seq<Msg>): (r: Option<State>)
    requires forall v :: rates(v) > 0.0
  {
    if ms == [] then Some(s)
    else
      match ExecAll(rates, marks, s, ms[..|ms| - 1])
      case None => None
      case Some(s') => Exec(rates, marks, s', ms[|ms| - 1])
  }

  ghost predicate GuardedAll(marks: Marks, today: int, ms: seq<Msg>)
  {
    forall i :: 0 <= i < |ms| ==> !Unguarded(marks, today, ms[i])
  }

  lemma {:induction false} ExecAllKeeps(rates: Rates, marks: Marks, s: State, ms: seq<Msg>)
    requires ValidRates(rates) && s.WellFormed() && ExecAll(rates, marks, s, ms).Some?
    ensures var s' := ExecAll(rates, marks, s, ms).value;
            && s'.WellFormed() && s'.today == s.today
            && (GuardedAll(marks, s.Day(), ms) && Invariant(rates, s) ==> Invariant(rates, s'))
  {
    hide Exec, Invariant, State.WellFormed, Unguarded, FirstOfMonth;
    if ms == [] {
    } else {
      var front, last := ms[..|ms| - 1], ms[|ms| - 1];
      ExecAllKeeps(rates, marks, s, front);
      var mid := ExecAll(rates, marks, s, front).value;
      ExecEffect(rates, marks, mid, last);
      if GuardedAll(marks, s.Day(), ms) && Invariant(rates, s) {
        assert GuardedAll(marks, s.Day(), front);
        GuardedKeepsInvariant(rates, marks, mid, last);
      }
    }
  }

  /** A transaction is its first messages and then the others, and fails when either part does. */
  lemma {:induction false} ExecAllConcat(rates: Rates, marks: Marks, s: State, a: seq<Msg>, b: seq<Msg>)
    requires ValidRates(rates)
    ensures ExecAll(rates, marks, s, a + b) == match ExecAll(rates, marks, s, a)
                                               case None => None
                                               case Some(s') => ExecAll(rates, marks, s', b)
    ensures forall m :: ExecAll(rates, marks, s, [m]) == Exec(rates, marks, s, m)
  {
    hide Exec;
    assert forall m: Msg :: [m][..0] == [];
    if b == [] {
      assert a + b == a;
    } else {
      assert (a + b)[..|a + b| - 1] == a + b[..|b| - 1];
      ExecAllConcat(rates, marks, s, a, b[..|b| - 1]);
    }
  }

  lemma {:induction false} StaysCovered(rates: Rates, marks: Marks, s: State, ms: seq<Msg>, a: Address)
    requires ValidRates(rates) && s.WellFormed() && ExecAll(rates, marks, s, ms).Some? && Holds(rates, s, a)
    requires forall i :: 0 <= i < |ms| && ms[i].d == a ==> !Unguarded(marks, s.Day(), ms[i])
    ensures Holds(rates, ExecAll(rates, marks, s, ms).value, a)
  {
    hide Exec, State.WellFormed, Holds, Unguarded, FirstOfMonth;
    if ms == [] {
    } else {
      var front, last := ms[..|ms| - 1], ms[|ms| - 1];
      StaysCovered(rates, marks, s, front, a);
      ExecAllKeeps(rates, marks, s, front);
      GuardedKeepsHolds(rates, marks, ExecAll(rates, marks, s, front).value, last, a);
    }
  }

  /**
   In a transaction that succeeds, a checked message covers its account to the end, whatever was skipped
   before and wherever it started, unless a later message of the same account is an exempt undelegation
   or revives an expired lock.
   */
  lemma LastCheckedMessageDecides(rates: Rates, marks: Marks, s: State, before: seq<Msg>, m: Msg, after: seq<Msg>)
    requires ValidRates(rates) && s.WellFormed() && Checked(marks, m)
    requires ExecAll(rates, marks, s, before + [m] + after).Some?
    requires forall i :: 0 <= i < |after| && after[i].d == m.d ==> !Unguarded(marks, s.Day(), after[i])
    ensures Holds(rates, ExecAll(rates, marks, s, before + [m] + after).value, m.d)
  {
    hide Exec, State.WellFormed, Counted, LockedOn, Checked, Unguarded, FirstOfMonth;
    ExecAllConcat(rates, marks, s, before + [m], after);
    ExecAllConcat(rates, marks, s, before, [m]);
    var s1 := ExecAll(rates, marks, s, before).value;
    var s2 := ExecAll(rates, marks, s, before + [m]).value;
    ExecAllKeeps(rates, marks, s, before);
    assert (before + [m])[..|before|] == before;
    assert s2 == Exec(rates, marks, s1, m).value;
    CheckedMeansHolds(rates, marks, s1, m);
    ExecAllKeeps(rates, marks, s, before + [m]);
    StaysCovered(rates, marks, s2, after, m.d);
  }

  // ----- when a transaction that moves and withdraws is safe

  lemma TokensAfterPut(rates: Rates, ds: seq<Delegation>, v: Address, shares: real, u: Address)
    ensures TokensAt(rates, Put(ds, v, shares), u) == if u == v then shares * rates(v) else TokensAt(rates, ds, u)
    ensures |Put(ds, v, shares)| <= |ds| + 1
  {
    hide Find;
    if u == v {
      OwnPlace(ds, v, shares);
    } else {
      SamePlace(ds, v, shares, u);
    }
  }

  lemma OwnPlace(ds: seq<Delegation>, v: Address, shares: real)
    ensures var e := Put(ds, v, shares);
            Find(e, v) == Find(ds, v) < |e| && e[Find(e, v)] == Delegation(v, shares)
  {
    hide Find;
    var e, i := Put(ds, v, shares), Find(ds, v);
    assert e[i].validator == v;
    assert forall j :: 0 <= j < i ==> e[j] == ds[j];
  }

  lemma SamePlace(ds: seq<Delegation>, v: Address, shares: real, u: Address)
    requires u != v
    ensures var j, k := Find(ds, u), Find(Put(ds, v, shares), u);
            if j < |ds| then k == j && Put(ds, v, shares)[k] == ds[j] else k == |Put(ds, v, shares)|
  {
    hide Find;
    var e := Put(ds, v, shares);
    var j, k := Find(ds, u), Find(e, u);
    assert forall i :: 0 <= i < |ds| ==> e[i].validator == ds[i].validator;
    assert k < |e| ==> e[k].validator == u;
    assert j < |ds| ==> e[j].validator == u;
  }

  function MoveAndWithdraw(d: Address, v: Address, w: Address, a: int, d2: Address, v2: Address, b: int): (ms: seq<Msg>)
  {
    [Redelegate(d, v, w, a), Undelegate(d2, v2, b)]
  }

  lemma MarksOfMove(d: Address, v: Address, w: Address, a: int, d2: Address, v2: Address, b: int)
    ensures TxMarks(MoveAndWithdraw(d, v, w, a, d2, v2, b)) == {Key(d, v)}
  {
    var msgs := AnteView(MoveAndWithdraw(d, v, w, a, d2, v2, b));
    assert msgs == [BeginRedelegate(Some(d), Some(v)), OtherMsg];
    SourceKeysNext(msgs, 0);
    SourceKeysNext(msgs, 1);
    assert msgs[..2] == msgs && msgs[..0] == [];
    assert SourceKeys([]) == {};
  }

  /**
   Moving a tokens from v and then withdrawing b from v, all of which were locked, succeeds and uncovers the
   locks.
   */
  lemma MovedThenWithdrawn(rates: Rates, today: Date, d: Address, v: Address, w: Address, a: int, b: int)
    requires ValidRates(rates) && v != w && a > 0 && b > 0
    ensures var s := AllLocked(rates, today, d, v, a + b);
            var r := ExecAll(rates, {Key(d, v)}, s, MoveAndWithdraw(d, v, w, a, d, v, b));
            r.Some? && !Holds(rates, r.value, d)
  {
    hide Counted, LockedOn, FirstOfMonth, Put, Removed, TokensAt, State.WellFormed, AllLocked;
    var marks, s := {Key(d, v)}, AllLocked(rates, today, d, v, a + b);
    var ms := MoveAndWithdraw(d, v, w, a, d, v, b);
    AllLockedIsSound(rates, today, d, v, a + b);
    assert rates(v) > 0.0 && rates(w) > 0.0;
    var s1 := s.WithDels(d, Put(s.Dels(d), v, b as real / rates(v)));
    assert Unbond(rates, marks, s, d, v, a) == Some(s1);
    UnbondEffect(rates, marks, s, d, v, a);
    DelsOnlyIsOthersKept(s, s1, d);
    TokensAfterPut(rates, s.Dels(d), v, b as real / rates(v), v);
    ShareTokens(b as real, rates(v));
    MoveArrives(rates, marks, s1, d, v, w, a, a + b);
    var s2 := Bond(rates, marks, s1, d, w, a).value;
    assert ms[..1] == [ms[0]] && ms[..1][..0] == [];
    assert ExecAll(rates, marks, s, ms[..1]) == Some(s2);
    MarkedUnbondSucceeds(rates, marks, s2, ms[1]);
    ExecEffect(rates, marks, s2, ms[1]);
  }

  /** The destination of the move is checked, and the check passes because nothing has left yet. */
  lemma MoveArrives(rates: Rates, marks: Marks, s: State, d: Address, v: Address, w: Address, a: int, n: int)
    requires ValidRates(rates) && s.WellFormed() && v != w && a > 0
    requires s.Locked(d) == n && Counted(rates, s.Dels(d)) == n - a && |s.Dels(d)| < PAGE - 1
    ensures var r := Bond(rates, marks, s, d, w, a);
            && r.Some? && r.value.WellFormed() && r.value.Locked(d) == n && Counted(rates, r.value.Dels(d)) == n
            && TokensAt(rates, r.value.Dels(d), v) == TokensAt(rates, s.Dels(d), v)
  {
    hide Counted, LockedOn, FirstOfMonth, Put, TokensAt, State.WellFormed;
    assert rates(w) > 0.0;
    var t := TokensAt(rates, s.Dels(d), w) + a as real;
    var s' := s.WithDels(d, Put(s.Dels(d), w, t / rates(w)));
    CountedMoves(rates, s.Dels(d), w, a);
    TokensAfterPut(rates, s.Dels(d), w, t / rates(w), v);
    assert s'.Locked(d) == s.Locked(d);
    assert Bond(rates, marks, s, d, w, a) == Some(s');
    BondEffect(rates, marks, s, d, w, a);
  }

  /** An account d2 that has locked all its b tokens, and another that has delegated a tokens and locked none. */
  function Bystander(
    rates: Rates, today: Date, d: Address, v: Address, a: int, d2: Address, v2: Address, b: int): (s: State)
    requires rates(v) > 0.0 && rates(v2) > 0.0
  {
    AllLocked(rates, today, d2, v2, b).WithDels(d, [Delegation(v, a as real / rates(v))])
  }

  lemma BystanderIsSound(rates: Rates, today: Date, d: Address, v: Address, a: int, d2: Address, v2: Address, b: int)
    requires ValidRates(rates) && a > 0 && b > 0 && d != d2
    ensures var s := Bystander(rates, today, d, v, a, d2, v2, b);
            && s.today == today && s.WellFormed() && Invariant(rates, s) && s.Locked(d) == 0 && s.Locked(d2) == b
            && Counted(rates, s.Dels(d2)) == b && TokensAt(rates, s.Dels(d2), v2) == b as real
            && TokensAt(rates, s.Dels(d), v) == a as real
  {
    hide FirstOfMonth, Counted, LockedOn, TokensAt, ValidStore, State.WellFormed;
    assert rates(v) > 0.0 && rates(v2) > 0.0;
    var s, t := Bystander(rates, today, d, v, a, d2, v2, b), AllLocked(rates, today, d2, v2, b);
    AllLockedIsSound(rates, today, d2, v2, b);
    OneDelegation(rates, v, a);
    DelsStayValid(t, s, d);
    DelsOnlyIsOthersKept(t, s, d);
    Nothing(rates, t.Day());
    assert t.LocksOf(d) == [];
    OthersStillHold(rates, t, s, d);
  }

  /** Where two pairs share a key, the move of one account exempts the withdrawal of the other. */
  lemma MovedForAnother(
    rates: Rates, today: Date, d: Address, v: Address, w: Address, a: int, d2: Address, v2: Address, b: int)
    requires ValidRates(rates) && v != w && a > 0 && b > 0 && d != d2 && Key(d, v) == Key(d2, v2)
    ensures var s := Bystander(rates, today, d, v, a, d2, v2, b);
            var r := ExecAll(rates, {Key(d, v)}, s, MoveAndWithdraw(d, v, w, a, d2, v2, b));
            r.Some? && !Holds(rates, r.value, d2)
  {
    hide Counted, LockedOn, FirstOfMonth, Put, Removed, TokensAt, State.WellFormed, Bystander, Key;
    var marks, s := {Key(d, v)}, Bystander(rates, today, d, v, a, d2, v2, b);
    var ms := MoveAndWithdraw(d, v, w, a, d2, v2, b);
    BystanderIsSound(rates, today, d, v, a, d2, v2, b);
    assert rates(v) > 0.0 && rates(w) > 0.0;
    var s1 := s.WithDels(d, Removed(s.Dels(d), v));
    assert Unbond(rates, marks, s, d, v, a) == Some(s1);
    assert s1.Locked(d) == s.Locked(d);
    var t := TokensAt(rates, s1.Dels(d), w) + a as real;
    var s2 := s1.WithDels(d, Put(s1.Dels(d), w, t / rates(w)));
    assert s2.Locked(d) == s1.Locked(d);
    assert Exec(rates, marks, s, ms[0]) == Some(s2);
    ExecEffect(rates, marks, s, ms[0]);
    assert ms[..1] == [ms[0]] && ms[..1][..0] == [];
    assert ExecAll(rates, marks, s, ms[..1]) == Some(s2);
    MarkedUnbondSucceeds(rates, marks, s2, ms[1]);
    ExecEffect(rates, marks, s2, ms[1]);
  }

  /**
   A transaction that redelegates from one pair and then undelegates from a pair is safe in every
   state exactly when the two pairs have different keys.
   */
  lemma MoveAndWithdrawSafeExactly(
    rates: Rates, today: Date, d: Address, v: Address, w: Address, a: int, d2: Address, v2: Address, b: int)
    requires ValidRates(rates) && v != w && a > 0 && b > 0
    ensures var ms := MoveAndWithdraw(d, v, w, a, d2, v2, b);
            Key(d, v) != Key(d2, v2) <==>
            forall s: State ::
              s.WellFormed() && Invariant(rates, s) && s.today == today && ExecAll(rates, TxMarks(ms), s, ms).Some? ==>
                Invariant(rates, ExecAll(rates, TxMarks(ms), s, ms).value)
  {
    hide Exec, ExecAll, Counted, LockedOn, State.WellFormed, FirstOfMonth, Invariant, Key, Bystander;
    var ms := MoveAndWithdraw(d, v, w, a, d2, v2, b);
    MarksOfMove(d, v, w, a, d2, v2, b);
    if Key(d, v) == Key(d2, v2) {
      if d == d2 {
        KeyInjective(d, v, d2, v2);
        var s := AllLocked(rates, today, d, v, a + b);
        AllLockedIsSound(rates, today, d, v, a + b);
        MovedThenWithdrawn(rates, today, d, v, w, a, b);
        BrokenForOne(rates, ExecAll(rates, TxMarks(ms), s, ms).value, d);
      } else {
        var s := Bystander(rates, today, d, v, a, d2, v2, b);
        BystanderIsSound(rates, today, d, v, a, d2, v2, b);
        MovedForAnother(rates, today, d, v, w, a, d2, v2, b);
        BrokenForOne(rates, ExecAll(rates, TxMarks(ms), s, ms).value, d2);
      }
    } else {
      forall s: State |
          s.WellFormed() && Invariant(rates, s) && s.today == today && ExecAll(rates, TxMarks(ms), s, ms).Some?
        ensures Invariant(rates, ExecAll(rates, TxMarks(ms), s, ms).value)
      {
        ExecAllKeeps(rates, TxMarks(ms), s, ms);
      }
    }
  }

  lemma BrokenForOne(rates: Rates, s: State, d: Address)
    requires !Holds(rates, s, d)
    ensures !Invariant(rates, s)
  {
  }

  // ----- runs

  datatype Event = Tx(msgs: seq<Msg>) | NewDay(date: Date)

  /** A failed transaction leaves no trace; the clock does not go back. */
  ghost function Step(rates: Rates, s: State, e: Event): (s': State)
    requires forall v :: rates(v) > 0.0
  {
    match e
    case Tx(ms) =>
      (match ExecAll(rates, TxMarks(ms), s, ms)
       case None => s
       case Some(s') => s')
    case NewDay(date) => if date.DayNumber() < s.Day() then s else s.(today := date)
  }

  ghost function Run(rates: Rates, s: State, es: seq<Event>): (s': State)
    requires forall v :: rates(v) > 0.0
  {
    if es == [] then s else Step(rates, Run(rates, s, es[..|es| - 1]), es[|es| - 1])
  }

  /** No transaction of the run undelegates from a pair it redelegates from, or revives an expired lock. */
  ghost predicate GuardedRun(rates: Rates, s: State, es: seq<Event>)
    requires forall v :: rates(v) > 0.0
  {
    forall i :: 0 <= i < |es| && es[i].Tx? ==> GuardedAll(TxMarks(es[i].msgs), Run(rates, s, es[..i]).Day(), es[i].msgs)
  }

  lemma DayPasses(rates: Rates, s: State, date: Date)
    requires s.WellFormed() && s.Day() <= date.DayNumber()
    ensures s.(today := date).WellFormed()
    ensures Invariant(rates, s) ==> Invariant(rates, s.(today := date))
  {
    hide Counted, LockedOn, ValidStore, Ordered, AmountOn, FirstOfMonth;
    var s' := s.(today := date);
    assert forall a :: s'.Dels(a) == s.Dels(a) && s'.LocksOf(a) == s.LocksOf(a);
    assert forall a, q :: s'.Queued(q, a) == s.Queued(q, a);
    forall a
      ensures Holds(rates, s, a) ==> Holds(rates, s', a)
    {
      assert Ordered(s.LocksOf(a));
      LocksExpire(s.LocksOf(a), s.Day(), date.DayNumber());
    }
  }

  /** Every run keeps the stores well formed and, if its transactions are guarded, the lockup invariant. */
  lemma {:induction false} LockupSafety(rates: Rates, s: State, es: seq<Event>)
    requires ValidRates(rates) && s.WellFormed()
    ensures Run(rates, s, es).WellFormed()
    ensures Invariant(rates, s) && GuardedRun(rates, s, es) ==> Invariant(rates, Run(rates, s, es))
  {
    hide ExecAll, Invariant, State.WellFormed, GuardedAll, TxMarks, FirstOfMonth;
    if es == [] {
    } else {
      var front, last := es[..|es| - 1], es[|es| - 1];
      LockupSafety(rates, s, front);
      var mid := Run(rates, s, front);
      if GuardedRun(rates, s, es) {
        GuardedPrefix(rates, s, es);
      }
      match last
      case Tx(ms) =>
        if ExecAll(rates, TxMarks(ms), mid, ms).Some? {
          ExecAllKeeps(rates, TxMarks(ms), mid, ms);
        }
      case NewDay(date) =>
        if mid.Day() <= date.DayNumber() {
          DayPasses(rates, mid, date);
        }
    }
  }

  lemma GuardedPrefix(rates: Rates, s: State, es: seq<Event>)
    requires ValidRates(rates) && es != [] && GuardedRun(rates, s, es)
    ensures GuardedRun(rates, s, es[..|es| - 1])
    ensures var front, last := es[..|es| - 1], es[|es| - 1];
            last.Tx? ==> GuardedAll(TxMarks(last.msgs), Run(rates, s, front).Day(), last.msgs)
  {
    hide Run, GuardedAll, TxMarks, FirstOfMonth;
    var front := es[..|es| - 1];
    forall i | 0 <= i < |front| && front[i].Tx?
      ensures GuardedAll(TxMarks(front[i].msgs), Run(rates, s, front[..i]).Day(), front[i].msgs)
    {
      assert front[i] == es[i] && front[..i] == es[..i];
    }
  }

  /** The chain before its first transaction. */
  function Genesis(today: Date): (s: State)
  {
    State(today, map[], map[], map[])
  }

  /** A message that is alone in its transaction and extends no lock. */
  predicate Plain(e: Event)
  {
    e.Tx? ==> |e.msgs| == 1 && !e.msgs[0].ExtendMsg?
  }

  /**
   From genesis, runs of single-message transactions other than Extend keep the invariant without further
   condition.
   */
  lemma SingleMessageRunsAreSafe(rates: Rates, today: Date, es: seq<Event>)
    requires ValidRates(rates) && forall i :: 0 <= i < |es| ==> Plain(es[i])
    ensures Invariant(rates, Run(rates, Genesis(today), es))
  {
    hide Run, FirstOfMonth;
    var s := Genesis(today);
    GenesisIsSound(rates, today);
    forall i | 0 <= i < |es| && es[i].Tx?
      ensures GuardedAll(TxMarks(es[i].msgs), Run(rates, s, es[..i]).Day(), es[i].msgs)
    {
      assert Plain(es[i]);
      AloneIsGuarded(es[i].msgs[0], Run(rates, s, es[..i]).Day());
      assert es[i].msgs == [es[i].msgs[0]];
    }
    LockupSafety(rates, s, es);
  }

  lemma GenesisIsSound(rates: Rates, today: Date)
    ensures Genesis(today).WellFormed()
    ensures Invariant(rates, Genesis(today))
  {
    hide FirstOfMonth;
    var s := State(today, map[], map[], map[]);
    forall a
      ensures s.Dels(a) == [] && s.LocksOf(a) == []
    {
    }
    NothingLocked(s.Day());
  }

  lemma AloneIsGuarded(m: Msg, today: int)
    requires !m.ExtendMsg?
    ensures GuardedAll(TxMarks([m]), today, [m])
  {
    var msgs := AnteView([m]);
    SourceKeysNext(msgs, 0);
    assert msgs[..1] == msgs && msgs[..0] == [];
    assert SourceKeys([]) == {};
  }

  // ----- delegating and locking in one message

  /** Where the invariant holds, `SendDelegateAndLock` is never refused for lack of delegations. */
  lemma DelegateAndLockAcceptedExactly(rates: Rates, marks: Marks, s: State, a: Address, v: Address, date: int, n: int)
    requires ValidRates(rates) && s.WellFormed() && Holds(rates, s, a)
    ensures Exec(rates, marks, s, DelegateAndLock(a, v, date, n)).Some? <==>
            && n > 0 && DateAllowed(s.today, date)
            && ((HasRecord(s.Dels(a), v) && |s.Dels(a)| <= 99) || |s.Dels(a)| <= 98)
  {
    hide Counted, LockedOn, FirstOfMonth, TokensAt, State.WellFormed, AddOn, Find;
    assert rates(v) > 0.0;
    if n > 0 {
      var s' := s.WithDels(a, Put(s.Dels(a), v, (TokensAt(rates, s.Dels(a), v) + n as real) / rates(v)));
      CountedMoves(rates, s.Dels(a), v, n);
      assert s'.Locked(a) == s.Locked(a);
    }
  }

  // ----- the breaking states are reached from genesis

  lemma RunOn(rates: Rates, s: State, es: seq<Event>, e: Event)
    requires ValidRates(rates)
    ensures Run(rates, s, es + [e]) == Step(rates, Run(rates, s, es), e)
  {
    hide Step;
    assert (es + [e])[..|es|] == es;
  }

  lemma OneMessage(rates: Rates, s: State, m: Msg)
    requires ValidRates(rates) && !m.Redelegate?
    ensures TxMarks([m]) == {}
    ensures Step(rates, s, Tx([m])) == if Exec(rates, {}, s, m).Some? then Exec(rates, {}, s, m).value else s
  {
    hide Exec;
    var view := AnteView([m]);
    assert view == [OtherMsg];
    SourceKeysNext(view, 0);
    assert view[..1] == view && view[..0] == [] && SourceKeys([]) == {};
    assert [m][..0] == [];
    assert ExecAll(rates, {}, s, [m]) == Exec(rates, {}, s, m);
  }

  /** A first delegation of an account that has locked nothing. */
  lemma FirstDelegation(rates: Rates, s: State, d: Address, v: Address, n: int)
    requires ValidRates(rates) && n > 0 && d !in s.dels && d !in s.locks && rates(v) > 0.0
    ensures Step(rates, s, Tx([Delegate(d, v, n)])) == s.WithDels(d, [Delegation(v, n as real / rates(v))])
  {
    hide FirstOfMonth, Counted, LockedOn;
    OneMessage(rates, s, Delegate(d, v, n));
    Nothing(rates, s.Day());
    var s' := s.WithDels(d, [Delegation(v, n as real / rates(v))]);
    assert s'.LocksOf(d) == [] && s'.Locked(d) == 0;
    assert Put([], v, n as real / rates(v)) == [Delegation(v, n as real / rates(v))];
  }

  lemma TomorrowAllowed(today: Date)
    ensures DateAllowed(today, today.DayNumber() + 1)
  {
    MonthsApart(today.MonthIndex(), 24);
  }

  function Setup(today: Date, d: Address, v: Address, n: int): (es: seq<Event>)
  {
    [Tx([Delegate(d, v, n)]), Tx([LockMsg(d, today.DayNumber() + 1, n)])]
  }

  /** Delegating and locking leads from genesis to the state in which everything is locked. */
  lemma AllLockedReached(rates: Rates, today: Date, d: Address, v: Address, n: int)
    requires ValidRates(rates) && n > 0 && rates(v) > 0.0
    ensures Run(rates, Genesis(today), Setup(today, d, v, n)) == AllLocked(rates, today, d, v, n)
  {
    hide FirstOfMonth, Counted, LockedOn, Step;
    var e1, e2 := Tx([Delegate(d, v, n)]), Tx([LockMsg(d, today.DayNumber() + 1, n)]);
    var s0 := Genesis(today);
    RunOn(rates, s0, [], e1);
    RunOn(rates, s0, [e1], e2);
    assert [] + [e1] == [e1] && [e1] + [e2] == Setup(today, d, v, n);
    FirstDelegation(rates, s0, d, v, n);
    FirstLock(rates, today, d, v, n);
  }

  lemma FirstLock(rates: Rates, today: Date, d: Address, v: Address, n: int)
    requires ValidRates(rates) && n > 0 && rates(v) > 0.0
    ensures var s1 := Genesis(today).WithDels(d, [Delegation(v, n as real / rates(v))]);
            Step(rates, s1, Tx([LockMsg(d, today.DayNumber() + 1, n)])) == AllLocked(rates, today, d, v, n)
  {
    hide FirstOfMonth, Counted, LockedOn, Step;
    var day := today.DayNumber();
    var s1 := Genesis(today).WithDels(d, [Delegation(v, n as real / rates(v))]);
    OneMessage(rates, s1, LockMsg(d, day + 1, n));
    TomorrowAllowed(today);
    Nothing(rates, day);
    OneDelegation(rates, v, n);
    assert s1.LocksOf(d) == [] && s1.Locked(d) == 0;
    assert AddOn([], day + 1, n) == [Lock(day + 1, n)];
    var s2 := s1.(locks := s1.locks[d := [Lock(day + 1, n)]], queue := AddQueued(s1, day + 1, d, n));
    assert LockSpec(rates, s1, d, day + 1, n) == Some(s2);
    assert s2 == AllLocked(rates, today, d, v, n);
  }

  /** The run that leads to a state in which a move exempts a withdrawal. */
  function Prelude(today: Date, d: Address, v: Address, a: int, d2: Address, v2: Address, b: int): (es: seq<Event>)
  {
    if d == d2 then Setup(today, d, v, a + b) else Setup(today, d2, v2, b) + [Tx([Delegate(d, v, a)])]
  }

  /** From genesis: where two pairs share a key, a move and a withdrawal in one transaction uncover locks. */
  lemma MoveAndWithdrawBreaksRuns(
    rates: Rates, today: Date, d: Address, v: Address, w: Address, a: int, d2: Address, v2: Address, b: int)
    requires ValidRates(rates) && v != w && a > 0 && b > 0 && Key(d, v) == Key(d2, v2)
    ensures var ms := MoveAndWithdraw(d, v, w, a, d2, v2, b);
            && Invariant(rates, Run(rates, Genesis(today), Prelude(today, d, v, a, d2, v2, b)))
            && !Invariant(rates, Run(rates, Genesis(today), Prelude(today, d, v, a, d2, v2, b) + [Tx(ms)]))
  {
    hide FirstOfMonth, Exec, ExecAll, Run, Key, Holds, AllLocked, Bystander, State.WellFormed;
    assert rates(v) > 0.0 && rates(v2) > 0.0;
    var ms, es := MoveAndWithdraw(d, v, w, a, d2, v2, b), Prelude(today, d, v, a, d2, v2, b);
    RunOn(rates, Genesis(today), es, Tx(ms));
    MarksOfMove(d, v, w, a, d2, v2, b);
    if d == d2 {
      KeyInjective(d, v, d2, v2);
      AllLockedReached(rates, today, d, v, a + b);
      AllLockedIsSound(rates, today, d, v, a + b);
      MovedThenWithdrawn(rates, today, d, v, w, a, b);
      BrokenForOne(rates, Run(rates, Genesis(today), es + [Tx(ms)]), d);
    } else {
      BystanderReached(rates, today, d, v, a, d2, v2, b);
      BystanderIsSound(rates, today, d, v, a, d2, v2, b);
      MovedForAnother(rates, today, d, v, w, a, d2, v2, b);
      BrokenForOne(rates, Run(rates, Genesis(today), es + [Tx(ms)]), d2);
    }
  }

  lemma BystanderReached(rates: Rates, today: Date, d: Address, v: Address, a: int, d2: Address, v2: Address, b: int)
    requires ValidRates(rates) && a > 0 && b > 0 && d != d2 && rates(v) > 0.0 && rates(v2) > 0.0
    ensures Run(rates, Genesis(today), Prelude(today, d, v, a, d2, v2, b)) ==
            Bystander(rates, today, d, v, a, d2, v2, b)
  {
    hide FirstOfMonth, Run, Step;
    AllLockedReached(rates, today, d2, v2, b);
    RunOn(rates, Genesis(today), Setup(today, d2, v2, b), Tx([Delegate(d, v, a)]));
    FirstDelegation(rates, AllLocked(rates, today, d2, v2, b), d, v, a);
  }

  /** Delegate, lock until tomorrow, and withdraw tomorrow, when the lock has expired. */
  function ExpiredPrelude(today: Date, next: Date, d: Address, v: Address, n: int): (es: seq<Event>)
  {
    Setup(today, d, v, n) + [NewDay(next)] + [Tx([Undelegate(d, v, n)])]
  }

  /** From genesis, one message a transaction: extending a lock after it has expired and its delegation is withdrawn. */
  lemma ExpiredExtensionBreaksRuns(rates: Rates, today: Date, next: Date, d: Address, v: Address, n: int)
    requires ValidRates(rates) && n > 0 && next.DayNumber() == today.DayNumber() + 1
    ensures var day := next.DayNumber();
            var es, m := ExpiredPrelude(today, next, d, v, n), ExtendMsg(d, [Extension(day, day + 1, n)]);
            && Invariant(rates, Run(rates, Genesis(today), es))
            && !Invariant(rates, Run(rates, Genesis(today), es + [Tx([m])]))
  {
    hide FirstOfMonth, Run, Step, Exec, AllLocked, Invariant, State.WellFormed;
    assert rates(v) > 0.0;
    var day, s0 := next.DayNumber(), Genesis(today);
    var es, m := ExpiredPrelude(today, next, d, v, n), ExtendMsg(d, [Extension(day, day + 1, n)]);
    AllLockedReached(rates, today, d, v, n);
    RunOn(rates, s0, Setup(today, d, v, n), NewDay(next));
    RunOn(rates, s0, Setup(today, d, v, n) + [NewDay(next)], Tx([Undelegate(d, v, n)]));
    RunOn(rates, s0, es, Tx([m]));
    var s2 := AllLocked(rates, today, d, v, n);
    WithdrawnTomorrow(rates, today, next, d, v, n);
    ExpiredRevived(rates, Run(rates, s0, es), next, d, n);
  }

  lemma WithdrawnTomorrow(rates: Rates, today: Date, next: Date, d: Address, v: Address, n: int)
    requires ValidRates(rates) && n > 0 && next.DayNumber() == today.DayNumber() + 1 && rates(v) > 0.0
    ensures var s3 := Step(rates, AllLocked(rates, today, d, v, n), NewDay(next));
            var s := Step(rates, s3, Tx([Undelegate(d, v, n)]));
            && s.WellFormed() && Invariant(rates, s) && s.today == next
            && s.LocksOf(d) == [Lock(next.DayNumber(), n)] && s.Locked(d) == 0 && Counted(rates, s.Dels(d)) == 0
  {
    hide FirstOfMonth, Counted, LockedOn, Invariant, State.WellFormed, Removed, TokensAt, Put;
    AllLockedIsSound(rates, today, d, v, n);
    var s2 := AllLocked(rates, today, d, v, n);
    var s3 := s2.(today := next);
    DayPasses(rates, s2, next);
    ExpiredLock(next.DayNumber(), n);
    assert s3.LocksOf(d) == [Lock(next.DayNumber(), n)] && s3.Dels(d) == s2.Dels(d);
    var m := Undelegate(d, v, n);
    OneMessage(rates, s3, m);
    assert Exec(rates, {}, s3, m).Some?;
    ExecEffect(rates, {}, s3, m);
    GuardedKeepsInvariant(rates, {}, s3, m);
    var s4 := Exec(rates, {}, s3, m).value;
    UnbondEffect(rates, {}, s3, d, v, n);
    DelsOnlyIsOthersKept(s3, s4, d);
    assert s4.LocksOf(d) == s3.LocksOf(d);
  }

  lemma ExpiredRevived(rates: Rates, s: State, next: Date, d: Address, n: int)
    requires ValidRates(rates) && n > 0 && s.WellFormed() && s.today == next
    requires s.LocksOf(d) == [Lock(next.DayNumber(), n)] && s.Locked(d) == 0 && Counted(rates, s.Dels(d)) == 0
    ensures var day := next.DayNumber();
            !Invariant(rates, Step(rates, s, Tx([ExtendMsg(d, [Extension(day, day + 1, n)])])))
  {
    hide FirstOfMonth, Counted, LockedOn, State.WellFormed, ExtendOne, Invariant;
    var day := next.DayNumber();
    var e := Extension(day, day + 1, n);
    var m := ExtendMsg(d, [e]);
    OneMessage(rates, s, m);
    TomorrowAllowed(next);
    ExpiredLock(day, n);
    QueueNeverRefuses(s, d, e);
    assert [e][..0] == [];
    assert ExtendSpec(s, d, [e]) == ExtendOne(s, d, e);
    ExecEffect(rates, {}, s, m);
    assert Revived([e], day) == Revived([], day) + n;
    BrokenForOne(rates, Exec(rates, {}, s, m).value, d);
  }
}
