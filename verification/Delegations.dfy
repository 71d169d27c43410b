/**
 A delegator's delegations and how the lockup module counts them: each one's tokens are rounded up
 and the roundings are added. Exchange rates are fixed; a validator that has delegations exists.
 */
module Delegations {
  import opened Common
  import opened Varint

  type Address = seq<byte>

  datatype Delegation = Delegation(validator: Address, shares: real)

  /** Tokens per share of every validator. */
  type Rates = Address -> real

  ghost predicate ValidRates(rates: Rates)
  {
    forall v :: rates(v) > 0.0
  }

  /** `GetDelegatorDelegations` is asked for at most this many. */
  const PAGE: nat := 100

  // ----- rounding

  /** LegacyDec.Ceil().TruncateInt(). */
  function Ceil(x: real): (n: int)
    ensures x <= n as real < x + 1.0
  {
    if x.Floor as real == x then x.Floor else x.Floor + 1
  }

  lemma CeilShift(x: real, n: int)
    ensures Ceil(x + n as real) == Ceil(x) + n
  {
  }

  // ----- the store

  function Tokens(rates: Rates, d: Delegation): (t: real)
  {
    d.shares * rates(d.validator)
  }

  function Amount(rates: Rates, d: Delegation): (n: int)
  {
    Ceil(Tokens(rates, d))
  }

  /** One record per validator, and no empty record. */
  ghost predicate ValidStore(ds: seq<Delegation>)
  {
    && (forall i :: 0 <= i < |ds| ==> ds[i].shares > 0.0)
    && forall i, j :: 0 <= i < j < |ds| ==> ds[i].validator != ds[j].validator
  }

  function Counted(rates: Rates, ds: seq<Delegation>): (n: int)
  {
    if ds == [] then 0 else Counted(rates, ds[..|ds| - 1]) + Amount(rates, ds[|ds| - 1])
  }

  function Exact(rates: Rates, ds: seq<Delegation>): (t: real)
  {
    if ds == [] then 0.0 else Exact(rates, ds[..|ds| - 1]) + Tokens(rates, ds[|ds| - 1])
  }

  /** Where the record of a validator is, or the length of the store. */
  function Find(ds: seq<Delegation>, v: Address): (i: nat)
    ensures i <= |ds|
    ensures i < |ds| ==> ds[i].validator == v
    ensures forall j :: 0 <= j < i ==> ds[j].validator != v
  {
    if ds == [] then 0
    else
      var i := Find(ds[..|ds| - 1], v);
      if i < |ds| - 1 then i else if ds[|ds| - 1].validator == v then |ds| - 1 else |ds|
  }

  predicate HasRecord(ds: seq<Delegation>, v: Address)
  {
    exists i :: 0 <= i < |ds| && ds[i].validator == v
  }

  function SharesAt(ds: seq<Delegation>, v: Address): (s: real)
  {
    var i := Find(ds, v);
    if i < |ds| then ds[i].shares else 0.0
  }

  function Removed(ds: seq<Delegation>, v: Address): (r: seq<Delegation>)
  {
    var i := Find(ds, v);
    if i < |ds| then ds[..i] + ds[i + 1..] else ds
  }

  function Put(ds: seq<Delegation>, v: Address, shares: real): (r: seq<Delegation>)
  {
    var i := Find(ds, v);
    if i < |ds| then ds[i := Delegation(v, shares)] else ds + [Delegation(v, shares)]
  }

  /** `GetDelegationAmount`: zero when there is no such delegation. */
  function AmountAt(rates: Rates, ds: seq<Delegation>, v: Address): (n: int)
  {
    var i := Find(ds, v);
    if i < |ds| then Amount(rates, ds[i]) else 0
  }

  // ----- sums over the store

  lemma {:induction false} CountedConcat(rates: Rates, a: seq<Delegation>, b: seq<Delegation>)
    ensures Counted(rates, a + b) == Counted(rates, a) + Counted(rates, b)
  {
    hide Amount;
    if b == [] {
      assert a + b == a;
    } else {
      assert (a + b)[..|a + b| - 1] == a + b[..|b| - 1];
      CountedConcat(rates, a, b[..|b| - 1]);
    }
  }

  lemma CountedSplit(rates: Rates, ds: seq<Delegation>, i: nat)
    requires i < |ds|
    ensures Counted(rates, ds) == Counted(rates, ds[..i]) + Amount(rates, ds[i]) + Counted(rates, ds[i + 1..])
  {
    hide Amount;
    assert ds == ds[..i] + ([ds[i]] + ds[i + 1..]);
    CountedConcat(rates, ds[..i], [ds[i]] + ds[i + 1..]);
    CountedConcat(rates, [ds[i]], ds[i + 1..]);
    assert [ds[i]][..0] == [];
  }

  /** Subtracting a delegation from the total is counting the store without it. */
  lemma ExcludingIsRemoving(rates: Rates, ds: seq<Delegation>, v: Address)
    ensures Counted(rates, ds) - AmountAt(rates, ds, v) == Counted(rates, Removed(ds, v))
  {
    hide Amount, Find, Counted;
    var i := Find(ds, v);
    if i < |ds| {
      CountedSplit(rates, ds, i);
      CountedConcat(rates, ds[..i], ds[i + 1..]);
    }
  }

  /** A record set to new shares changes the total by the change of its own amount. */
  lemma CountedPut(rates: Rates, ds: seq<Delegation>, v: Address, shares: real)
    ensures Counted(rates, Put(ds, v, shares)) ==
            Counted(rates, ds) - AmountAt(rates, ds, v) + Amount(rates, Delegation(v, shares))
  {
    hide Amount, Find, Counted;
    var i, d := Find(ds, v), Delegation(v, shares);
    if i < |ds| {
      var e := ds[i := d];
      CountedSplit(rates, ds, i);
      CountedSplit(rates, e, i);
      assert e[..i] == ds[..i] && e[i + 1..] == ds[i + 1..];
    } else {
      CountedOne(rates, d);
      CountedConcat(rates, ds, [d]);
    }
  }

  lemma CountedOne(rates: Rates, d: Delegation)
    ensures Counted(rates, [d]) == Amount(rates, d)
  {
    assert [d][..0] == [];
  }

  /** Rounding up counts less than one token too much for each delegation. */
  lemma {:induction false} CountedBounds(rates: Rates, ds: seq<Delegation>)
    ensures Exact(rates, ds) <= Counted(rates, ds) as real <= Exact(rates, ds) + |ds| as real
    ensures ds != [] ==> Counted(rates, ds) as real < Exact(rates, ds) + |ds| as real
  {
    hide Tokens;
    if ds == [] {
    } else {
      CountedBounds(rates, ds[..|ds| - 1]);
    }
  }

  lemma {:induction false} CountedNonnegative(rates: Rates, ds: seq<Delegation>)
    requires ValidRates(rates) && ValidStore(ds)
    ensures Counted(rates, ds) >= 0
  {
    if ds == [] {
    } else {
      CountedNonnegative(rates, ds[..|ds| - 1]);
      var d := ds[|ds| - 1];
      assert rates(d.validator) > 0.0;
      Positive(d.shares, rates(d.validator));
    }
  }

  lemma Positive(x: real, y: real)
    requires x > 0.0 && y > 0.0
    ensures x * y > 0.0
  {
  }

  /** Writing or removing one record leaves the others. */
  lemma RecordsAfter(ds: seq<Delegation>, v: Address, shares: real, u: Address)
    ensures Find(ds, v) < |ds| <==> HasRecord(ds, v)
    ensures |Put(ds, v, shares)| == if HasRecord(ds, v) then |ds| else |ds| + 1
    ensures |Removed(ds, v)| == if HasRecord(ds, v) then |ds| - 1 else |ds|
    ensures u != v ==> (HasRecord(Put(ds, v, shares), u) <==> HasRecord(ds, u))
    ensures u != v ==> (HasRecord(Removed(ds, v), u) <==> HasRecord(ds, u))
  {
    hide Find;
    var i, put, removed := Find(ds, v), Put(ds, v, shares), Removed(ds, v);
    forall j | 0 <= j < |ds| && ds[j].validator == u && u != v
      ensures HasRecord(put, u) && HasRecord(removed, u)
    {
      assert put[j] == ds[j];
      if j < i {
        assert removed[j] == ds[j];
      } else {
        assert removed[j - 1] == ds[j];
      }
    }
    forall j | 0 <= j < |put| && put[j].validator == u && u != v
      ensures HasRecord(ds, u)
    {
      assert put[j] == ds[j];
    }
    forall j | 0 <= j < |removed| && removed[j].validator == u
      ensures HasRecord(ds, u)
    {
      assert removed[j] == if j < i then ds[j] else ds[j + 1];
    }
  }

  lemma PutValid(ds: seq<Delegation>, v: Address, shares: real)
    requires ValidStore(ds) && shares > 0.0
    ensures ValidStore(Put(ds, v, shares))
  {
    hide Find;
  }

  lemma RemovedValid(ds: seq<Delegation>, v: Address)
    requires ValidStore(ds)
    ensures ValidStore(Removed(ds, v))
  {
    hide Find;
  }

  // ----- token amounts moved in and out

  lemma ShareTokens(t: real, rate: real)
    requires rate > 0.0
    ensures t / rate * rate == t
    ensures t > 0.0 ==> t / rate > 0.0
  {
    if t > 0.0 && t / rate <= 0.0 {
      NonPositive(t / rate, rate);
    }
  }

  lemma NonPositive(x: real, y: real)
    requires x <= 0.0 && y > 0.0
    ensures x * y <= 0.0
  {
  }

  /** The tokens behind the shares of one delegation. */
  function TokensAt(rates: Rates, ds: seq<Delegation>, v: Address): (t: real)
  {
    SharesAt(ds, v) * rates(v)
  }

  lemma AmountOfTokens(rates: Rates, ds: seq<Delegation>, v: Address)
    ensures AmountAt(rates, ds, v) == Ceil(TokensAt(rates, ds, v))
  {
    hide Find;
    if Find(ds, v) == |ds| {
      assert 0.0 * rates(v) == 0.0;
    }
  }

  /** A record whose tokens change by a whole number of tokens changes the total by that number. */
  lemma CountedMoves(rates: Rates, ds: seq<Delegation>, v: Address, n: int)
    requires ValidRates(rates)
    ensures Counted(rates, Put(ds, v, (TokensAt(rates, ds, v) + n as real) / rates(v))) == Counted(rates, ds) + n
  {
    hide Counted, Find, Ceil, TokensAt;
    var t := TokensAt(rates, ds, v) + n as real;
    var r := rates(v);
    assert r > 0.0;
    CountedPut(rates, ds, v, t / r);
    ShareTokens(t, r);
    AmountOfTokens(rates, ds, v);
    CeilShift(TokensAt(rates, ds, v), n);
  }

  // ----- the loops of the source

  /** What `GetTotalDelegatedAmount` returns; None when it does not return, see `PagingEndsExactly`. */
  function TotalDelegated(rates: Rates, ds: seq<Delegation>): (r: Option<int>)
  {
    if |ds| < PAGE then Some(Counted(rates, ds)) else None
  }

  /** The page that every query of the loop gets: it always asks from the beginning. */
  function FirstPage(ds: seq<Delegation>): (page: seq<Delegation>)
  {
    if |ds| < PAGE then ds else ds[..PAGE]
  }

  datatype Paging = Paging(more: bool, total: int)

  /** The loop's variables after k turns. */
  function AfterTurns(rates: Rates, ds: seq<Delegation>, k: nat): (p: Paging)
  {
    if k == 0 then Paging(true, 0)
    else
      var p := AfterTurns(rates, ds, k - 1);
      if p.more then Paging(|FirstPage(ds)| == PAGE, p.total + Counted(rates, FirstPage(ds))) else p
  }

  /** The loop ends exactly when there are fewer than 100 delegations, and then after one turn with their total. */
  lemma {:induction false} PagingEndsExactly(rates: Rates, ds: seq<Delegation>, k: nat)
    requires k >= 1
    ensures AfterTurns(rates, ds, k).more <==> |ds| >= 100
    ensures |ds| <= 99 ==> TotalDelegated(rates, ds) == Some(AfterTurns(rates, ds, k).total)
  {
    hide Counted;
    if k == 1 {
    } else {
      PagingEndsExactly(rates, ds, k - 1);
    }
  }

  /** `GetTotalDelegatedAmount`, on the stores on which it ends. */
  method GetTotalDelegatedAmount(rates: Rates, ds: seq<Delegation>) returns (total: int)
    requires |ds| <= 99
    ensures TotalDelegated(rates, ds) == Some(total)
  {
    total := 0;
    var more := true;
    while more
      invariant total == if more then 0 else Counted(rates, ds)
      decreases more
    {
      var delegations := FirstPage(ds);
      var i := 0;
      while i < |delegations|
        invariant 0 <= i <= |delegations| && total == Counted(rates, delegations[..i])
      {
        assert delegations[..i + 1][..i] == delegations[..i];
        total := total + Ceil(Tokens(rates, delegations[i]));
        i := i + 1;
      }
      assert delegations[..i] == delegations;
      more := |delegations| == PAGE;
    }
  }
}
