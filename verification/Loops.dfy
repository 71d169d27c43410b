/**
 Loops over an index that a turn can move anywhere, backwards included, as Go's index arithmetic
 does when it wraps around. Such a loop can end, panic, or go round for ever.
 */
module Loops {
  import opened Common

  /** What one turn adds to the output, and where it leaves the index unless it stops the loop. */
  datatype Step<+T> = Step(out: seq<T>, next: int, stop: bool)

  type Turn<T> = nat -> Outcome<Step<T>>

  function Indices(n: nat): (s: set<nat>)
    ensures forall j :: j in s <==> 0 <= j < n
  {
    if n == 0 then {} else Indices(n - 1) + {n - 1}
  }

  lemma Shrinks(n: nat, seen: set<nat>, i: nat)
    requires i < n && i !in seen
    ensures |Indices(n) - (seen + {i})| < |Indices(n) - seen|
  {
    assert Indices(n) - (seen + {i}) == (Indices(n) - seen) - {i};
  }

  function Prepend<T>(out: seq<T>, r: Outcome<seq<T>>): (q: Outcome<seq<T>>)
  {
    if r.Ok? then Ok(out + r.value) else r
  }

  /** The loop from index i after turns at the indices in seen: an index that comes back never leads out. */
  function Walk<T>(turn: Turn<T>, n: nat, i: int, seen: set<nat>): (r: Outcome<seq<T>>)
    decreases |Indices(n) - seen|
  {
    if i >= n then Ok([])
    else if i < 0 then Panic
    else if i in seen then Hang
    else
      var st :- turn(i);
      if st.stop then Ok(st.out)
      else
        Shrinks(n, seen, i);
        Prepend(st.out, Walk(turn, n, st.next, seen + {i}))
  }

  function From<T>(turn: Turn<T>, n: nat, i: int): (r: Outcome<seq<T>>)
  {
    Walk(turn, n, i, {})
  }

  /** What k turns lead to, if the loop is over by then. No index is remembered. */
  function Turns<T>(turn: Turn<T>, n: nat, i: int, k: nat): (r: Option<Outcome<seq<T>>>)
    decreases k
  {
    if i >= n then Some(Ok([]))
    else if i < 0 then Some(Panic)
    else if k == 0 then None
    else
      match turn(i)
      case Ok(st) =>
        if st.stop then Some(Ok(st.out))
        else
          (match Turns(turn, n, st.next, k - 1)
           case None => None
           case Some(r) => Some(Prepend(st.out, r)))
      case Err => Some(Err)
      case Panic => Some(Panic)
      case Hang => Some(Hang)
  }

  /** One turn of a walk. */
  lemma WalkTurn<T>(turn: Turn<T>, n: nat, i: nat, seen: set<nat>)
    requires i < n && i !in seen
    ensures Walk(turn, n, i, seen) == match turn(i)
                                      case Ok(st) =>
                                        if st.stop then Ok(st.out)
                                        else Prepend(st.out, Walk(turn, n, st.next, seen + {i}))
                                      case Err => Err
                                      case Panic => Panic
                                      case Hang => Hang
  {
    hide Indices;
  }

  lemma WalkOver<T>(turn: Turn<T>, n: nat, i: int, seen: set<nat>)
    ensures i >= n ==> Walk(turn, n, i, seen) == Ok([])
    ensures i < 0 ==> Walk(turn, n, i, seen) == Panic
    ensures 0 <= i < n && i in seen ==> Walk(turn, n, i, seen) == Hang
  {
    hide Indices;
  }

  /** Forgetting indices does not change a result. */
  lemma {:induction false} ForgetSeen<T>(turn: Turn<T>, n: nat, i: int, seen: set<nat>, more: set<nat>)
    requires seen <= more && Walk(turn, n, i, more) != Hang
    ensures Walk(turn, n, i, seen) == Walk(turn, n, i, more)
    decreases |Indices(n) - more|
  {
    hide Walk, Indices;
    WalkOver(turn, n, i, seen);
    WalkOver(turn, n, i, more);
    if 0 <= i < n {
      WalkTurn(turn, n, i, seen);
      WalkTurn(turn, n, i, more);
      if turn(i).Ok? && !turn(i).value.stop {
        Shrinks(n, more, i);
        ForgetSeen(turn, n, turn(i).value.next, seen + {i}, more + {i});
      }
    }
  }

  /** Where the index after i has been seen, a walk that ends does not pass through i. */
  lemma {:induction false} AvoidsPredecessor<T>(turn: Turn<T>, n: nat, j: int, seen: set<nat>, i: nat)
    requires i < n && turn(i).Ok? && !turn(i).value.stop && turn(i).value.next in seen && turn(i).value.next < n
    requires Walk(turn, n, j, seen) != Hang
    ensures Walk(turn, n, j, seen + {i}) == Walk(turn, n, j, seen)
    decreases |Indices(n) - seen|
  {
    hide Walk, Indices;
    WalkOver(turn, n, j, seen);
    WalkOver(turn, n, j, seen + {i});
    if 0 <= j < n {
      WalkTurn(turn, n, j, seen);
      WalkOver(turn, n, turn(i).value.next, seen + {i});
      if j != i {
        WalkTurn(turn, n, j, seen + {i});
        if turn(j).Ok? && !turn(j).value.stop {
          Shrinks(n, seen, j);
          AvoidsPredecessor(turn, n, turn(j).value.next, seen + {j}, i);
          assert seen + {j} + {i} == seen + {i} + {j};
        }
      }
    }
  }

  /** The loop is its first turn and then the loop from where that leads. */
  lemma Unroll<T>(turn: Turn<T>, n: nat, i: nat)
    requires i < n
    ensures From(turn, n, i) == match turn(i)
                                case Ok(st) => if st.stop then Ok(st.out) else Prepend(st.out, From(turn, n, st.next))
                                case Err => Err
                                case Panic => Panic
                                case Hang => Hang
  {
    hide Walk, Indices;
    WalkTurn(turn, n, i, {});
    if turn(i).Ok? && !turn(i).value.stop {
      var none: set<nat> := {};
      assert none + {i} == {i};
      SeenIsForgotten(turn, n, i);
    }
  }

  lemma SeenIsForgotten<T>(turn: Turn<T>, n: nat, i: nat)
    requires i < n && turn(i).Ok? && !turn(i).value.stop
    ensures Walk(turn, n, turn(i).value.next, {i}) == Walk(turn, n, turn(i).value.next, {})
  {
    hide Walk, Indices;
    var next := turn(i).value.next;
    var none: set<nat> := {};
    WalkOver(turn, n, next, {i});
    WalkOver(turn, n, next, none);
    if 0 <= next < n {
      WalkTurn(turn, n, next, none);
      assert none + {next} == {next};
      if next != i {
        WalkTurn(turn, n, next, {i});
        assert {i} + {next} == {next} + {i};
        if turn(next).Ok? && !turn(next).value.stop {
          var after := turn(next).value.next;
          if Walk(turn, n, after, {next}) != Hang {
            AvoidsPredecessor(turn, n, after, {next}, i);
          } else if Walk(turn, n, after, {next} + {i}) != Hang {
            ForgetSeen(turn, n, after, {next}, {next} + {i});
          }
        }
      }
    }
  }

  /** Where m turns lead, if none of them ends the loop. */
  function Leads<T>(turn: Turn<T>, n: nat, i: int, m: nat): (j: Option<int>)
    decreases m
  {
    if m == 0 then Some(i)
    else if !(0 <= i < n) || !turn(i).Ok? || turn(i).value.stop then None
    else Leads(turn, n, turn(i).value.next, m - 1)
  }

  lemma {:induction false} LeadsOn<T>(turn: Turn<T>, n: nat, i: int, m: nat, k: nat)
    requires Leads(turn, n, i, m).Some?
    ensures Leads(turn, n, i, m + k) == Leads(turn, n, Leads(turn, n, i, m).value, k)
    decreases m
  {
    if m == 0 {
    } else {
      LeadsOn(turn, n, turn(i).value.next, m - 1, k);
    }
  }

  /** While turns lead on the loop is not over, and afterwards it is over as it is from there. */
  lemma {:induction false} TurnsLead<T>(turn: Turn<T>, n: nat, i: int, m: nat, k: nat)
    requires Leads(turn, n, i, m).Some?
    ensures k < m ==> Turns(turn, n, i, k).None?
    ensures k >= m ==> (Turns(turn, n, i, k).Some? <==> Turns(turn, n, Leads(turn, n, i, m).value, k - m).Some?)
    decreases m
  {
    if m == 0 {
    } else if k > 0 {
      TurnsLead(turn, n, turn(i).value.next, m - 1, k - 1);
    }
  }

  lemma {:induction false} CycleIsNeverOver<T>(turn: Turn<T>, n: nat, i: int, m: nat, k: nat)
    requires m > 0 && Leads(turn, n, i, m) == Some(i)
    ensures Turns(turn, n, i, k).None?
    decreases k
  {
    TurnsLead(turn, n, i, m, k);
    if k < m {
    } else {
      CycleIsNeverOver(turn, n, i, m, k - m);
    }
  }

  /** Turns that lead back to where they started are taken for ever. */
  lemma Cycle<T>(turn: Turn<T>, n: nat, i: int, m: nat)
    requires m > 0 && Leads(turn, n, i, m) == Some(i)
    ensures From(turn, n, i) == Hang
  {
    hide Walk, Leads;
    if From(turn, n, i) != Hang {
      var k := WalkReturns(turn, n, i, {});
      CycleIsNeverOver(turn, n, i, m, k);
    }
  }

  lemma {:induction false} WalkReturns<T>(turn: Turn<T>, n: nat, i: int, seen: set<nat>) returns (k: nat)
    requires Walk(turn, n, i, seen) != Hang
    ensures Turns(turn, n, i, k) == Some(Walk(turn, n, i, seen))
    decreases |Indices(n) - seen|
  {
    hide Walk, Indices;
    k := 1;
    WalkOver(turn, n, i, seen);
    if 0 <= i < n {
      WalkTurn(turn, n, i, seen);
      if turn(i).Ok? && !turn(i).value.stop {
        Shrinks(n, seen, i);
        var m := WalkReturns(turn, n, turn(i).value.next, seen + {i});
        k := m + 1;
      }
    }
  }

  lemma {:induction false} TurnsAreWalked<T>(turn: Turn<T>, n: nat, i: int, k: nat)
    requires Turns(turn, n, i, k).Some?
    ensures From(turn, n, i) == Turns(turn, n, i, k).value
    decreases k
  {
    hide Walk, Indices;
    WalkOver(turn, n, i, {});
    if 0 <= i < n {
      Unroll(turn, n, i);
      if turn(i).Ok? && !turn(i).value.stop {
        TurnsAreWalked(turn, n, turn(i).value.next, k - 1);
      }
    }
  }

  /** The loop has a result exactly when some number of turns leads to it; otherwise it never returns. */
  lemma ReturnsExactly<T>(turn: Turn<T>, n: nat, i: int, r: Outcome<seq<T>>)
    requires !r.Hang?
    ensures From(turn, n, i) == r <==> exists k :: Turns(turn, n, i, k) == Some(r)
  {
    hide Walk, Turns;
    if From(turn, n, i) == r {
      var k := WalkReturns(turn, n, i, {});
    }
    forall k | Turns(turn, n, i, k) == Some(r)
      ensures From(turn, n, i) == r
    {
      TurnsAreWalked(turn, n, i, k);
    }
  }
}
