/** The lockup keeper as the source has it: stores that the message server and the hooks read and change. */
module LockupKeeper {
  import opened Common
  import opened Calendar
  import opened Delegations
  import opened Locks
  import opened Lockup

  class Keeper {
    const rates: Rates
    var today: Date
    var dels: map<Address, seq<Delegation>>
    var locks: map<Address, seq<Lock>>
    var queue: map<(int, Address), int>

    constructor (rates: Rates, today: Date)
      ensures this.rates == rates && Model() == State(today, map[], map[], map[])
    {
      this.rates, this.today, this.dels, this.locks, this.queue := rates, today, map[], map[], map[];
    }

    function Model(): (s: State)
      reads this
    {
      State(today, dels, locks, queue)
    }

    /** `GetLocksByAddress`: an address without a record has no locks. */
    function GetLocksByAddress(addr: Address): (ls: seq<Lock>)
      reads this
      ensures ls == Model().LocksOf(addr)
    {
      if addr in locks then locks[addr] else []
    }

    /** `SetLocksByAddress`: an empty list is not stored. */
    method SetLocksByAddress(addr: Address, ls: seq<Lock>)
      modifies this`locks
      ensures Model().LocksOf(addr) == ls && (addr in locks <==> ls != [])
      ensures forall a :: a != addr ==>
                (a in locks <==> a in old(locks)) && Model().LocksOf(a) == old(Model().LocksOf(a))
    {
      if |ls| == 0 {
        locks := locks - {addr};
      } else {
        locks := locks[addr := ls];
      }
    }

    /** `SetLockByAddress`. */
    method SetLockByAddress(addr: Address, lock: Lock)
      modifies this`locks
      ensures locks == old(locks)[addr := Inserted(old(Model().LocksOf(addr)), lock)]
    {
      var ls := SetLock(GetLocksByAddress(addr), lock);
      locks := locks[addr := ls];
    }

    /** `UpdateLockByAddressAndIndex`. */
    method UpdateLockByAddressAndIndex(addr: Address, index: int, lock: Lock) returns (ok: bool)
      modifies this`locks
      ensures ok <==> 0 <= index < |old(Model().LocksOf(addr))|
      ensures locks == if ok then old(locks)[addr := old(Model().LocksOf(addr))[index := lock]] else old(locks)
    {
      var ls := GetLocksByAddress(addr);
      if index < 0 || index >= |ls| { return false; }
      SetLocksByAddress(addr, ls[index := lock]);
      return true;
    }

    /** `DeleteLockByAddressAndIndex`. */
    method DeleteLockByAddressAndIndex(addr: Address, index: int) returns (ok: bool)
      modifies this`locks
      ensures ok <==> 0 <= index < |old(Model().LocksOf(addr))|
      ensures ok ==> var ls := old(Model().LocksOf(addr));
                     Model().LocksOf(addr) == ls[..index] + ls[index + 1..]
      ensures ok ==> forall a :: a != addr ==>
                       (a in locks <==> a in old(locks)) && (a in locks ==> locks[a] == old(locks)[a])
      ensures !ok ==> locks == old(locks)
    {
      var ls := GetLocksByAddress(addr);
      if index < 0 || index >= |ls| { return false; }
      SetLocksByAddress(addr, ls[..index] + ls[index + 1..]);
      return true;
    }

    /** `AddToExpirationQueue`. */
    method AddToExpirationQueue(date: int, addr: Address, amount: int)
      modifies this`queue
      ensures queue == AddQueued(old(Model()), date, addr, amount)
    {
      var currentAmount := 0;
      if (date, addr) in queue { currentAmount := queue[(date, addr)]; }
      queue := queue[(date, addr) := currentAmount + amount];
    }

    /** `RemoveFromExpirationQueue`. */
    method RemoveFromExpirationQueue(date: int, addr: Address, amount: int) returns (ok: bool)
      modifies this`queue
      ensures ok <==> !((date, addr) in old(queue) && old(Model()).Queued(date, addr) < amount)
      ensures queue == if ok then Dequeued(old(Model()), date, addr, amount) else old(queue)
    {
      if (date, addr) !in queue { return true; }
      var currentAmount := queue[(date, addr)];
      if currentAmount < amount { return false; }
      var newAmount := currentAmount - amount;
      if newAmount == 0 {
        queue := queue - {(date, addr)};
      } else {
        queue := queue[(date, addr) := newAmount];
      }
      return true;
    }

    /** `checkLockupInvariantExcluding`. */
    method CheckLockupInvariantExcluding(d: Address, exclude: Option<Address>) returns (ok: bool)
      ensures ok <==> CheckExcluding(rates, Model(), d, exclude)
    {
      var totalLocked := GetLockedAmount(GetLocksByAddress(d), today.DayNumber());
      if totalLocked == 0 { return true; }
      var ds := if d in dels then dels[d] else [];
      if |ds| >= PAGE { return false; } // the count never returns and the transaction runs out of gas
      var totalDelegated := GetTotalDelegatedAmount(rates, ds);
      if exclude.Some? {
        totalDelegated := totalDelegated - AmountAt(rates, ds, exclude.value);
      }
      return !(totalDelegated < totalLocked);
    }

    /** `Lock`, for an amount whose denomination has been compared with the bond denomination. */
    method Lock(address: Address, unlockDate: int, isBondDenom: bool, amount: int) returns (ok: bool)
      modifies this`locks, this`queue
      ensures ok <==> isBondDenom && LockSpec(rates, old(Model()), address, unlockDate, amount).Some?
      ensures Model() == if ok then LockSpec(rates, old(Model()), address, unlockDate, amount).value else old(Model())
    {
      hide FirstOfMonth, FindDate, FirstAfter, LockedOn, Counted;
      if !isBondDenom { return false; }
      if amount <= 0 { return false; }
      if today.DayNumber() >= unlockDate { return false; }
      if today.AddDate(24, 0) < unlockDate { return false; }
      var currentLockedAmount := GetLockedAmount(GetLocksByAddress(address), today.DayNumber());
      var ds := if address in dels then dels[address] else [];
      if |ds| >= PAGE { return false; } // the count never returns and the transaction runs out of gas
      var totalDelegatedAmount := GetTotalDelegatedAmount(rates, ds);
      if totalDelegatedAmount < currentLockedAmount + amount { return false; }
      AddLock(address, unlockDate, amount);
      AddToExpirationQueue(unlockDate, address, amount);
      return true;
    }

    /** The end of `Lock` and of each extension: merge into the record of the date or insert one. */
    method AddLock(address: Address, date: int, amount: int)
      modifies this`locks
      ensures locks == old(locks)[address := AddOn(old(Model().LocksOf(address)), date, amount)]
    {
      hide FindDate, FirstAfter;
      var idx, found := GetLockByDate(GetLocksByAddress(address), date);
      if found {
        var existing := GetLocksByAddress(address)[idx];
        var ok := UpdateLockByAddressAndIndex(address, idx, Locks.Lock(date, existing.amount + amount));
      } else {
        SetLockByAddress(address, Locks.Lock(date, amount));
      }
    }

    /** The two changes an extension makes to the lock records. */
    method MoveLock(addr: Address, idx: nat, e: Extension)
      requires idx < |Model().LocksOf(addr)|
      modifies this`locks
      ensures locks == old(locks)[addr := AddOn(TakeFrom(old(Model().LocksOf(addr)), idx, e.amount), e.to, e.amount)]
    {
      hide FindDate, FirstAfter, AddOn;
      ghost var was := Model();
      var fromLock := GetLocksByAddress(addr)[idx];
      var done: bool;
      if fromLock.amount == e.amount {
        done := DeleteLockByAddressAndIndex(addr, idx);
      } else {
        done := UpdateLockByAddressAndIndex(addr, idx, Locks.Lock(fromLock.unlock, fromLock.amount - e.amount));
      }
      assert Model().LocksOf(addr) == TakeFrom(was.LocksOf(addr), idx, e.amount);
      AddLock(addr, e.to, e.amount);
    }

    /** One extension of `Extend`. */
    method ExtendLock(addr: Address, isBondDenom: bool, e: Extension) returns (ok: bool)
      requires e.amount >= 0
      modifies this`locks, this`queue
      ensures ok <==> isBondDenom && ExtendOne(old(Model()), addr, e).Some?
      ensures ok ==> Model() == ExtendOne(old(Model()), addr, e).value
    {
      hide FirstOfMonth, FindDate, AddOn, TakeFrom;
      if !isBondDenom { return false; }
      if e.to <= e.from { return false; }
      if today.DayNumber() >= e.to { return false; }
      if today.AddDate(24, 0) < e.to { return false; }
      var idx, found := GetLockByDate(GetLocksByAddress(addr), e.from);
      if !found { return false; }
      if GetLocksByAddress(addr)[idx].amount < e.amount { return false; }
      MoveLock(addr, idx, e);
      var removed := RemoveFromExpirationQueue(e.from, addr, e.amount);
      if !removed { return false; }
      AddToExpirationQueue(e.to, addr, e.amount);
      return true;
    }

    /** `Extend`: what an extension before a failing one has changed is rolled back with the transaction. */
    method Extend(addr: Address, isBondDenom: bool, extensions: seq<Extension>) returns (ok: bool)
      requires forall i :: 0 <= i < |extensions| ==> extensions[i].amount >= 0
      modifies this`locks, this`queue
      ensures ok <==> (isBondDenom || extensions == []) && ExtendSpec(old(Model()), addr, extensions).Some?
      ensures ok ==> Model() == ExtendSpec(old(Model()), addr, extensions).value
    {
      hide ExtendOne;
      ghost var s0 := Model();
      var i := 0;
      while i < |extensions|
        invariant 0 <= i <= |extensions| && (i > 0 ==> isBondDenom)
        invariant ExtendSpec(s0, addr, extensions[..i]) == Some(Model())
      {
        assert extensions[..i + 1][..i] == extensions[..i];
        var done := ExtendLock(addr, isBondDenom, extensions[i]);
        if !done {
          FailsOn(s0, addr, extensions, i + 1);
          return false;
        }
        i := i + 1;
      }
      assert extensions[..i] == extensions;
      return true;
    }
  }

  /** A failing extension fails the message. */
  lemma {:induction false} FailsOn(s: State, addr: Address, es: seq<Extension>, k: nat)
    requires k <= |es|
    ensures ExtendSpec(s, addr, es[..k]).None? ==> ExtendSpec(s, addr, es).None?
    decreases |es| - k
  {
    hide ExtendOne;
    if k < |es| {
      assert es[..k + 1][..k] == es[..k];
      FailsOn(s, addr, es, k + 1);
    } else {
      assert es[..k] == es;
    }
  }
}
