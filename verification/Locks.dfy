/**
 The lock records of one account. Unlock dates are day numbers: a `YYYY-MM-DD` text is stored for
 each, and such texts compare as their dates do.
 */
module Locks {

  datatype Lock = Lock(unlock: int, amount: int)

  /** The amounts of the records whose date satisfies `keep`. */
  function SumIf(locks: seq<Lock>, keep: int -> bool): (sum: int)
  {
    if locks == [] then 0
    else SumIf(locks[..|locks| - 1], keep) + Kept(locks[|locks| - 1], keep)
  }

  function Kept(l: Lock, keep: int -> bool): (n: int)
  {
    if keep(l.unlock) then l.amount else 0
  }

  /** `GetLockedAmountByAddress`: what is still locked on a given day (`IsLocked`). */
  function LockedOn(locks: seq<Lock>, today: int): (sum: int)
  {
    SumIf(locks, date => today < date)
  }

  function AmountOn(locks: seq<Lock>, date: int): (sum: int)
  {
    SumIf(locks, d => d == date)
  }

  /** Records are kept in order of their dates, one record a date, none negative. */
  ghost predicate Ordered(locks: seq<Lock>)
  {
    && (forall i :: 0 <= i < |locks| ==> locks[i].amount >= 0)
    && forall i, j :: 0 <= i < j < |locks| ==> locks[i].unlock < locks[j].unlock
  }

  /** The index of the record of a date (`GetLockByAddressAndDate`), or the length of the list. */
  function FindDate(locks: seq<Lock>, date: int): (i: nat)
    ensures i <= |locks|
    ensures i < |locks| ==> locks[i].unlock == date
    ensures forall j :: 0 <= j < i ==> locks[j].unlock != date
  {
    if locks == [] then 0
    else
      var i := FindDate(locks[..|locks| - 1], date);
      if i < |locks| - 1 then i else if locks[|locks| - 1].unlock == date then |locks| - 1 else |locks|
  }

  /** The first index whose record unlocks after the date, or the length of the list. */
  function FirstAfter(locks: seq<Lock>, date: int): (i: nat)
    ensures i <= |locks|
    ensures i < |locks| ==> date < locks[i].unlock
    ensures forall j :: 0 <= j < i ==> locks[j].unlock <= date
  {
    if locks == [] then 0
    else
      var i := FirstAfter(locks[..|locks| - 1], date);
      if i < |locks| - 1 then i else if date < locks[|locks| - 1].unlock then |locks| - 1 else |locks|
  }

  /** `SetLockByAddress`. */
  function Inserted(locks: seq<Lock>, l: Lock): (r: seq<Lock>)
  {
    var i := FirstAfter(locks, l.unlock);
    locks[..i] + [l] + locks[i..]
  }

  /** Adds to the record of a date, or inserts one: the last step of `Lock` and of `Extend`. */
  function AddOn(locks: seq<Lock>, date: int, amount: int): (r: seq<Lock>)
  {
    var i := FindDate(locks, date);
    if i < |locks| then locks[i := Lock(date, locks[i].amount + amount)] else Inserted(locks, Lock(date, amount))
  }

  /** Takes from the record of a date, and drops the record when nothing is left: the first step of `Extend`. */
  function TakeFrom(locks: seq<Lock>, i: nat, amount: int): (r: seq<Lock>)
    requires i < |locks|
  {
    if locks[i].amount == amount then locks[..i] + locks[i + 1..]
    else locks[i := Lock(locks[i].unlock, locks[i].amount - amount)]
  }

  // ----- sums

  lemma {:induction false} SumConcat(a: seq<Lock>, b: seq<Lock>, keep: int -> bool)
    ensures SumIf(a + b, keep) == SumIf(a, keep) + SumIf(b, keep)
  {
    if b == [] {
      assert a + b == a;
    } else {
      assert (a + b)[..|a + b| - 1] == a + b[..|b| - 1];
      SumConcat(a, b[..|b| - 1], keep);
    }
  }

  lemma SumOne(l: Lock, keep: int -> bool)
    ensures SumIf([l], keep) == Kept(l, keep)
  {
    assert [l][..0] == [];
  }

  lemma SumSplit(locks: seq<Lock>, i: nat, keep: int -> bool)
    requires i < |locks|
    ensures SumIf(locks, keep) == SumIf(locks[..i], keep) + Kept(locks[i], keep) + SumIf(locks[i + 1..], keep)
  {
    hide SumIf, Kept;
    var l := locks[i];
    assert locks == locks[..i] + [l] + locks[i + 1..];
    SumConcat(locks[..i] + [l], locks[i + 1..], keep);
    SumConcat(locks[..i], [l], keep);
    SumOne(l, keep);
  }

  lemma SumReplaced(locks: seq<Lock>, i: nat, l: Lock, keep: int -> bool)
    requires i < |locks|
    ensures SumIf(locks[i := l], keep) == SumIf(locks, keep) - Kept(locks[i], keep) + Kept(l, keep)
  {
    hide SumIf, Kept;
    var r := locks[i := l];
    SumSplit(locks, i, keep);
    SumSplit(r, i, keep);
    assert r[..i] == locks[..i] && r[i + 1..] == locks[i + 1..];
  }

  /** Every sum over dates gains exactly the amount added at its date. */
  lemma SumAdded(locks: seq<Lock>, date: int, amount: int, keep: int -> bool)
    ensures SumIf(AddOn(locks, date, amount), keep) == SumIf(locks, keep) + Kept(Lock(date, amount), keep)
  {
    hide SumIf, FindDate, FirstAfter;
    var i, l := FindDate(locks, date), Lock(date, amount);
    if i < |locks| {
      SumReplaced(locks, i, Lock(date, locks[i].amount + amount), keep);
    } else {
      var k := FirstAfter(locks, date);
      SumConcat(locks[..k] + [l], locks[k..], keep);
      SumConcat(locks[..k], [l], keep);
      SumOne(l, keep);
      assert locks == locks[..k] + locks[k..];
      SumConcat(locks[..k], locks[k..], keep);
    }
  }

  /** Every sum over dates loses exactly the amount taken at its date. */
  lemma SumTaken(locks: seq<Lock>, i: nat, amount: int, keep: int -> bool)
    requires i < |locks|
    ensures SumIf(TakeFrom(locks, i, amount), keep) == SumIf(locks, keep) - Kept(Lock(locks[i].unlock, amount), keep)
  {
    hide SumIf;
    if locks[i].amount == amount {
      SumSplit(locks, i, keep);
      SumConcat(locks[..i], locks[i + 1..], keep);
    } else {
      SumReplaced(locks, i, Lock(locks[i].unlock, locks[i].amount - amount), keep);
    }
  }

  lemma {:induction false} SumNonnegative(locks: seq<Lock>, keep: int -> bool)
    requires Ordered(locks)
    ensures SumIf(locks, keep) >= 0
  {
    if locks == [] {
    } else {
      SumNonnegative(locks[..|locks| - 1], keep);
    }
  }

  /** As days pass, less is locked, never more. */
  lemma {:induction false} LocksExpire(locks: seq<Lock>, today: int, later: int)
    requires Ordered(locks) && today <= later
    ensures LockedOn(locks, later) <= LockedOn(locks, today)
  {
    if locks == [] {
    } else {
      LocksExpire(locks[..|locks| - 1], today, later);
      LockedSnoc(locks, today);
      LockedSnoc(locks, later);
    }
  }

  lemma LockedSnoc(locks: seq<Lock>, today: int)
    requires locks != []
    ensures var l := locks[|locks| - 1];
            LockedOn(locks, today) == LockedOn(locks[..|locks| - 1], today) + if today < l.unlock then l.amount else 0
  {
  }

  /** One record a date: the amount on a date is the amount of its record. */
  lemma {:induction false} AmountIsRecord(locks: seq<Lock>, date: int)
    requires Ordered(locks)
    ensures var i := FindDate(locks, date);
            AmountOn(locks, date) == if i < |locks| then locks[i].amount else 0
  {
    var i := FindDate(locks, date);
    if locks == [] {
    } else {
      var front, last := locks[..|locks| - 1], locks[|locks| - 1];
      AmountIsRecord(front, date);
      AmountSnoc(locks, date);
    }
  }

  lemma AmountSnoc(locks: seq<Lock>, date: int)
    requires locks != []
    ensures var l := locks[|locks| - 1];
            AmountOn(locks, date) == AmountOn(locks[..|locks| - 1], date) + if l.unlock == date then l.amount else 0
  {
  }

  // ----- order

  lemma AddKeepsOrder(locks: seq<Lock>, date: int, amount: int)
    requires Ordered(locks) && amount >= 0
    ensures Ordered(AddOn(locks, date, amount))
  {
    hide FindDate, FirstAfter;
    var i := FindDate(locks, date);
    if i == |locks| {
      var k := FirstAfter(locks, date);
      assert forall j :: 0 <= j < k ==> locks[j].unlock < date;
      assert forall j :: k <= j < |locks| ==> date < locks[j].unlock;
    }
  }

  lemma TakeKeepsOrder(locks: seq<Lock>, i: nat, amount: int)
    requires Ordered(locks) && i < |locks| && amount <= locks[i].amount
    ensures Ordered(TakeFrom(locks, i, amount))
  {
  }

  // ----- the loops of the source

  predicate HasDate(locks: seq<Lock>, date: int)
  {
    exists i :: 0 <= i < |locks| && locks[i].unlock == date
  }

  lemma HasDateConcat(a: seq<Lock>, b: seq<Lock>, q: int)
    ensures HasDate(a + b, q) <==> HasDate(a, q) || HasDate(b, q)
  {
    if HasDate(a, q) {
      var i :| 0 <= i < |a| && a[i].unlock == q;
      assert (a + b)[i] == a[i];
    }
    if HasDate(b, q) {
      var i :| 0 <= i < |b| && b[i].unlock == q;
      assert (a + b)[|a| + i] == b[i];
    }
    if HasDate(a + b, q) {
      var i :| 0 <= i < |a + b| && (a + b)[i].unlock == q;
      assert if i < |a| then a[i].unlock == q else b[i - |a|].unlock == q;
    }
  }

  lemma HasDateOne(l: Lock, q: int)
    ensures HasDate([l], q) <==> q == l.unlock
  {
    assert [l][0] == l;
  }

  /** A list around one of its records. */
  lemma HasDateAround(locks: seq<Lock>, i: nat, l: Lock, q: int)
    requires i <= |locks|
    ensures HasDate(locks[..i] + [l] + locks[i..], q) <==> q == l.unlock || HasDate(locks, q)
    ensures i < |locks| ==> (HasDate(locks, q) <==> q == locks[i].unlock || HasDate(locks[..i] + locks[i + 1..], q))
  {
    hide HasDate;
    HasDateConcat(locks[..i], [l], q);
    HasDateConcat(locks[..i] + [l], locks[i..], q);
    HasDateConcat(locks[..i], locks[i..], q);
    HasDateOne(l, q);
    assert locks[..i] + locks[i..] == locks;
    if i < |locks| {
      HasDateConcat(locks[..i], locks[i + 1..], q);
      HasDateConcat([locks[i]], locks[i + 1..], q);
      HasDateOne(locks[i], q);
      assert [locks[i]] + locks[i + 1..] == locks[i..];
    }
  }

  lemma HasDateKept(locks: seq<Lock>, i: nat, l: Lock, q: int)
    requires i < |locks| && l.unlock == locks[i].unlock
    ensures HasDate(locks[i := l], q) <==> HasDate(locks, q)
  {
    hide HasDate;
    HasDateAround(locks, i, l, q);
    HasDateAround(locks[i := l], i, l, q);
    assert locks[i := l][..i] + locks[i := l][i + 1..] == locks[..i] + locks[i + 1..];
  }

  /** Adding makes a record for its date where there is none, and touches no other date. */
  lemma DatesAdded(locks: seq<Lock>, date: int, amount: int, q: int)
    ensures HasDate(AddOn(locks, date, amount), q) <==> q == date || HasDate(locks, q)
  {
    hide FindDate, FirstAfter, HasDate;
    var i := FindDate(locks, date);
    if i < |locks| {
      HasDateKept(locks, i, Lock(date, locks[i].amount + amount), q);
      HasDateAround(locks, i, locks[i], q);
    } else {
      HasDateAround(locks, FirstAfter(locks, date), Lock(date, amount), q);
    }
  }

  /** Taking all of a record removes it; taking less leaves every date its record. */
  lemma DatesTaken(locks: seq<Lock>, i: nat, amount: int, q: int)
    requires Ordered(locks) && i < |locks|
    ensures HasDate(TakeFrom(locks, i, amount), q) <==>
            HasDate(locks, q) && !(q == locks[i].unlock && amount == locks[i].amount)
  {
    hide HasDate, Ordered;
    if locks[i].amount == amount {
      HasDateAround(locks, i, locks[i], q);
      NoOther(locks, i);
    } else {
      HasDateKept(locks, i, Lock(locks[i].unlock, locks[i].amount - amount), q);
    }
  }

  lemma NoOther(locks: seq<Lock>, i: nat)
    requires Ordered(locks) && i < |locks|
    ensures !HasDate(locks[..i] + locks[i + 1..], locks[i].unlock)
  {
    hide HasDate;
    var q := locks[i].unlock;
    HasDateConcat(locks[..i], locks[i + 1..], q);
    NotAmong(locks[..i], q);
    NotAmong(locks[i + 1..], q);
  }

  lemma NotAmong(locks: seq<Lock>, q: int)
    requires forall j :: 0 <= j < |locks| ==> locks[j].unlock != q
    ensures !HasDate(locks, q)
  {
  }

  /** The loop of `GetLockedAmountByAddress`. */
  method GetLockedAmount(locks: seq<Lock>, blockDay: int) returns (totalLocked: int)
    ensures totalLocked == LockedOn(locks, blockDay)
  {
    hide LockedOn;
    totalLocked := 0;
    var i := 0;
    NothingLocked(blockDay);
    while i < |locks|
      invariant 0 <= i <= |locks| && totalLocked == LockedOn(locks[..i], blockDay)
    {
      LockedSnoc(locks[..i + 1], blockDay);
      assert locks[..i + 1][..i] == locks[..i];
      if blockDay < locks[i].unlock {
        totalLocked := totalLocked + locks[i].amount;
      }
      i := i + 1;
    }
    assert locks[..i] == locks;
  }

  lemma NothingLocked(today: int)
    ensures LockedOn([], today) == 0
  {
  }

  /** The search of `GetLockByAddressAndDate`. */
  method GetLockByDate(locks: seq<Lock>, date: int) returns (idx: int, found: bool)
    ensures found <==> FindDate(locks, date) < |locks|
    ensures idx == if found then FindDate(locks, date) else -1
  {
    hide FindDate;
    var i := 0;
    while i < |locks|
      invariant 0 <= i <= |locks| && forall j :: 0 <= j < i ==> locks[j].unlock != date
    {
      if locks[i].unlock == date { return i, true; }
      i := i + 1;
    }
    return -1, false;
  }

  /** The insertion of `SetLockByAddress`. */
  method SetLock(locks: seq<Lock>, l: Lock) returns (res: seq<Lock>)
    ensures res == Inserted(locks, l)
  {
    hide FirstAfter;
    var i := 0;
    while i < |locks|
      invariant 0 <= i <= |locks| && forall j :: 0 <= j < i ==> locks[j].unlock <= l.unlock
    {
      if l.unlock < locks[i].unlock {
        return locks[..i] + [l] + locks[i..];
      }
      i := i + 1;
    }
    assert locks[..|locks|] + [l] + locks[|locks|..] == locks + [l];
    return locks + [l];
  }
}
