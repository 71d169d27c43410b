/**
 Locks against delegations: the staking hooks, the lockup messages, transactions and whole runs.
 The invariant everywhere is that an account has delegated at least what it has locked.
 */
module Lockup {
  import opened Common
  import opened Calendar
  import opened Delegations
  import opened Locks
  import opened Markers

  /** queue holds, by date and account, the amounts that `AddToExpirationQueue` has summed. */
  datatype State = State(
    today: Date,
    dels: map<Address, seq<Delegation>>,
    locks: map<Address, seq<Lock>>,
    queue: map<(int, Address), int>)
  {
    function Day(): (d: int)
    {
      today.DayNumber()
    }

    function Dels(a: Address): (ds: seq<Delegation>)
    {
      if a in dels then dels[a] else []
    }

    function LocksOf(a: Address): (ls: seq<Lock>)
    {
      if a in locks then locks[a] else []
    }

    function Queued(date: int, a: Address): (n: int)
    {
      if (date, a) in queue then queue[(date, a)] else 0
    }

    function Locked(a: Address): (n: int)
    {
      LockedOn(LocksOf(a), Day())
    }

    function WithDels(a: Address, ds: seq<Delegation>): (s: State)
    {
      this.(dels := dels[a := ds])
    }

    /** Stores in order, and the queue in step with the lock records. */
    ghost predicate WellFormed()
    {
      && (forall a {:trigger Dels(a)} :: ValidStore(Dels(a)))
      && (forall a {:trigger LocksOf(a)} :: Ordered(LocksOf(a)))
      && forall a, date {:trigger Queued(date, a)} :: Queued(date, a) == AmountOn(LocksOf(a), date)
    }
  }

  ghost predicate Holds(rates: Rates, s: State, a: Address)
  {
    s.Locked(a) <= Counted(rates, s.Dels(a))
  }

  ghost predicate Invariant(rates: Rates, s: State)
  {
    forall a :: Holds(rates, s, a)
  }

  // ----- the hooks

  /** `checkLockupInvariantExcluding`; a count that does not return ends the transaction as well. */
  predicate CheckExcluding(rates: Rates, s: State, d: Address, exclude: Option<Address>)
  {
    var locked := s.Locked(d);
    if locked == 0 then true else
    match TotalDelegated(rates, s.Dels(d))
    case None => false
    case Some(total) =>
      var excluded := if exclude.Some? then AmountAt(rates, s.Dels(d), exclude.value) else 0;
      total - excluded >= locked
  }

  predicate AfterDelegationModified(rates: Rates, marks: Marks, s: State, d: Address, v: Address)
  {
    Marked(marks, d, v) || CheckExcluding(rates, s, d, None)
  }

  predicate BeforeDelegationRemoved(rates: Rates, marks: Marks, s: State, d: Address, v: Address)
  {
    Marked(marks, d, v) || CheckExcluding(rates, s, d, Some(v))
  }

  /** Checking before a removal is checking the store after it. */
  lemma CheckBeforeIsCheckAfter(rates: Rates, s: State, d: Address, v: Address)
    requires |s.Dels(d)| < PAGE
    ensures CheckExcluding(rates, s, d, Some(v)) <==>
            CheckExcluding(rates, s.WithDels(d, Removed(s.Dels(d), v)), d, None)
  {
    hide Counted, AmountAt, LockedOn, Find;
    ExcludingIsRemoving(rates, s.Dels(d), v);
  }

  /** A check that passes means that the store without the excluded delegation covers the locks. */
  lemma CheckMeansCovered(rates: Rates, s: State, d: Address, exclude: Option<Address>)
    requires ValidRates(rates) && s.WellFormed() && CheckExcluding(rates, s, d, exclude)
    ensures s.Locked(d) <= Counted(rates, if exclude.Some? then Removed(s.Dels(d), exclude.value) else s.Dels(d))
  {
    hide Counted, AmountAt, LockedOn;
    assert ValidStore(s.Dels(d));
    CountedNonnegative(rates, s.Dels(d));
    if exclude.Some? {
      RemovedValid(s.Dels(d), exclude.value);
      CountedNonnegative(rates, Removed(s.Dels(d), exclude.value));
      ExcludingIsRemoving(rates, s.Dels(d), exclude.value);
    }
  }

  // ----- staking, with the hooks where x/staking calls them

  function Bond(rates: Rates, marks: Marks, s: State, d: Address, v: Address, amount: int): (r: Option<State>)
    requires rates(v) > 0.0
  {
    if amount <= 0 then None else
    var t := TokensAt(rates, s.Dels(d), v) + amount as real;
    var s' := s.WithDels(d, Put(s.Dels(d), v, t / rates(v)));
    if AfterDelegationModified(rates, marks, s', d, v) then Some(s') else None
  }

  function Unbond(rates: Rates, marks: Marks, s: State, d: Address, v: Address, amount: int): (r: Option<State>)
    requires rates(v) > 0.0
  {
    var t := TokensAt(rates, s.Dels(d), v) - amount as real;
    if amount <= 0 || t < 0.0 then None
    else if t == 0.0 then
      if BeforeDelegationRemoved(rates, marks, s, d, v) then Some(s.WithDels(d, Removed(s.Dels(d), v))) else None
    else
      var s' := s.WithDels(d, Put(s.Dels(d), v, t / rates(v)));
      if AfterDelegationModified(rates, marks, s', d, v) then Some(s') else None
  }

  // ----- lockup messages

  function AddQueued(s: State, date: int, a: Address, amount: int): (q: map<(int, Address), int>)
  {
    s.queue[(date, a) := s.Queued(date, a) + amount]
  }

  /** The window both `Lock` and `Extend` put on a new date: in the future, at most two years ahead. */
  predicate DateAllowed(today: Date, date: int)
  {
    today.DayNumber() < date <= today.AddDate(24, 0)
  }

  /** `Lock`. */
  function LockSpec(rates: Rates, s: State, a: Address, date: int, amount: int): (r: Option<State>)
  {
    if amount <= 0 || !DateAllowed(s.today, date) then None else
    match TotalDelegated(rates, s.Dels(a))
    case None => None
    case Some(total) =>
      if total < s.Locked(a) + amount then None
      else Some(s.(locks := s.locks[a := AddOn(s.LocksOf(a), date, amount)], queue := AddQueued(s, date, a, amount)))
  }

  datatype Extension = Extension(from: int, to: int, amount: int)

  /** One extension of `Extend`; amounts below zero are refused before the handler runs. */
  function ExtendOne(s: State, a: Address, e: Extension): (r: Option<State>)
  {
    var i := FindDate(s.LocksOf(a), e.from);
    if e.amount < 0 || e.to <= e.from || !DateAllowed(s.today, e.to) then None
    else if i == |s.LocksOf(a)| || s.LocksOf(a)[i].amount < e.amount then None
    else if (e.from, a) in s.queue && s.Queued(e.from, a) < e.amount then None
    else
      var taken := TakeFrom(s.LocksOf(a), i, e.amount);
      var s' := s.(locks := s.locks[a := AddOn(taken, e.to, e.amount)],
                   queue := Dequeued(s, e.from, a, e.amount));
      Some(s'.(queue := AddQueued(s', e.to, a, e.amount)))
  }

  /** `RemoveFromExpirationQueue`, when it does not fail. */
  function Dequeued(s: State, date: int, a: Address, amount: int): (q: map<(int, Address), int>)
  {
    if (date, a) !in s.queue then s.queue
    else if s.Queued(date, a) == amount then s.queue - {(date, a)}
    else s.queue[(date, a) := s.Queued(date, a) - amount]
  }

  /** `Extend`: its extensions in turn. */
  function ExtendSpec(s: State, a: Address, es: seq<Extension>): (r: Option<State>)
  {
    if es == [] then Some(s)
    else
      match ExtendSpec(s, a, es[..|es| - 1])
      case None => None
      case Some(s') => ExtendOne(s', a, es[|es| - 1])
  }

  // ----- messages

  datatype Msg =
    | Delegate(d: Address, v: Address, amount: int)
    | Undelegate(d: Address, v: Address, amount: int)
    | Redelegate(d: Address, v: Address, dst: Address, amount: int)
    | LockMsg(d: Address, date: int, amount: int)
    | ExtendMsg(d: Address, extensions: seq<Extension>)
    | DelegateAndLock(d: Address, v: Address, date: int, amount: int)

  /**
   One message; None when it fails. Balances are not modelled: a transfer that fails only makes more
   messages fail.
   */
  function Exec(rates: Rates, marks: Marks, s: State, m: Msg): (r: Option<State>)
    requires forall v :: rates(v) > 0.0
  {
    match m
    case Delegate(d, v, amount) => Bond(rates, marks, s, d, v, amount)
    case Undelegate(d, v, amount) => Unbond(rates, marks, s, d, v, amount)
    case Redelegate(d, src, dst, amount) =>
      if src == dst then None else
      (match Unbond(rates, marks, s, d, src, amount)
       case None => None
       case Some(s') => Bond(rates, marks, s', d, dst, amount))
    case LockMsg(a, date, amount) => LockSpec(rates, s, a, date, amount)
    case ExtendMsg(a, es) => ExtendSpec(s, a, es)
    case DelegateAndLock(a, v, date, amount) =>
      match Bond(rates, marks, s, a, v, amount)
      case None => None
      case Some(s') => LockSpec(rates, s', a, date, amount)
  }
}
