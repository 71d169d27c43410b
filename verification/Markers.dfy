/**
 The redelegation markers: which (delegator, validator) pairs the ante handler exempts from the
 lockup check, and what the textual key of a pair can and cannot tell apart.
 */
module Markers {
  import opened Common
  import opened Varint
  import opened Delegations

  type Marks = set<seq<byte>>

  /** `redelegateMapKey`. */
  function Key(del: Address, val: Address): (k: seq<byte>)
  {
    del + [0] + val
  }

  /** `isRedelegating`. */
  predicate Marked(marks: Marks, del: Address, val: Address)
  {
    Key(del, val) in marks
  }

  /** The messages of a transaction as the decorator sees them; None where an address does not parse. */
  datatype TxMsg = BeginRedelegate(del: Option<Address>, src: Option<Address>) | OtherMsg

  predicate Readable(m: TxMsg)
  {
    m.BeginRedelegate? ==> m.del.Some? && m.src.Some?
  }

  /** A redelegation that marks a pair. */
  predicate Marking(m: TxMsg)
  {
    m.BeginRedelegate? && Readable(m)
  }

  /** The keys of all redelegations in a transaction. */
  ghost function SourceKeys(msgs: seq<TxMsg>): (marks: Marks)
  {
    set i | 0 <= i < |msgs| && Marking(msgs[i]) :: Key(msgs[i].del.value, msgs[i].src.value)
  }

  /** `redelegatingSet`, the map that contexts share by reference. */
  class RedelegatingSet {
    var keys: Marks

    constructor ()
      ensures keys == {}
    {
      keys := {};
    }
  }

  /** The marks of a context; one without a set has none. */
  function KeysOf(ctx: RedelegatingSet?): (marks: Marks)
    reads ctx
  {
    if ctx == null then {} else ctx.keys
  }

  /** `WithRedelegating`: a new set with one key more; contexts that hold the existing set keep their marks. */
  method WithRedelegating(existing: RedelegatingSet?, del: Address, src: Address) returns (next: RedelegatingSet)
    ensures fresh(next) && next.keys == KeysOf(existing) + {Key(del, src)}
    ensures existing != null ==> unchanged(existing)
  {
    next := new RedelegatingSet();
    var rest := KeysOf(existing);
    while rest != {}
      invariant next.keys + rest == KeysOf(existing)
      invariant existing != null ==> unchanged(existing)
      decreases |rest|
    {
      var k :| k in rest;
      next.keys := next.keys + {k};
      rest := rest - {k};
    }
    next.keys := next.keys + {Key(del, src)};
  }

  /** `RedelegationMarkerDecorator.AnteHandle`: fails on the first address that does not parse. */
  method AnteHandle(ctx: RedelegatingSet?, msgs: seq<TxMsg>) returns (ok: bool, marked: RedelegatingSet?)
    ensures ok <==> forall i :: 0 <= i < |msgs| ==> Readable(msgs[i])
    ensures ok ==> KeysOf(marked) == KeysOf(ctx) + SourceKeys(msgs)
    ensures ctx != null ==> unchanged(ctx)
  {
    marked := ctx;
    var i := 0;
    while i < |msgs|
      invariant 0 <= i <= |msgs| && forall j :: 0 <= j < i ==> Readable(msgs[j])
      invariant KeysOf(marked) == KeysOf(ctx) + SourceKeys(msgs[..i])
      invariant ctx != null ==> unchanged(ctx)
    {
      SourceKeysNext(msgs, i);
      if msgs[i].BeginRedelegate? {
        if msgs[i].del.None? { return false, marked; }
        if msgs[i].src.None? { return false, marked; }
        marked := WithRedelegating(marked, msgs[i].del.value, msgs[i].src.value);
      }
      i := i + 1;
    }
    assert msgs[..i] == msgs;
    return true, marked;
  }

  lemma SourceKeysNext(msgs: seq<TxMsg>, i: nat)
    requires i < |msgs|
    ensures var m := msgs[i];
            SourceKeys(msgs[..i + 1]) == SourceKeys(msgs[..i]) +
              (if Marking(m) then {Key(m.del.value, m.src.value)} else {})
  {
    forall k
      ensures k in SourceKeys(msgs[..i + 1]) <==>
              k in SourceKeys(msgs[..i]) || (Marking(msgs[i]) && k == Key(msgs[i].del.value, msgs[i].src.value))
    {
      if k in SourceKeys(msgs[..i]) {
        var ms := msgs[..i];
        var j :| 0 <= j < i && Marking(ms[j]) && k == Key(ms[j].del.value, ms[j].src.value);
        assert msgs[..i + 1][j] == msgs[..i][j];
      }
      if k in SourceKeys(msgs[..i + 1]) {
        var ms := msgs[..i + 1];
        var j :| 0 <= j < i + 1 && Marking(ms[j]) && k == Key(ms[j].del.value, ms[j].src.value);
        if j < i {
          assert msgs[..i][j] == msgs[..i + 1][j];
        }
      }
      if Marking(msgs[i]) {
        assert msgs[..i + 1][i] == msgs[i];
      }
    }
  }

  /** Two pairs share a key exactly when they are equal or one delegator continues the other across a zero byte. */
  lemma KeysCollideExactly(d: Address, v: Address, d': Address, v': Address)
    ensures Key(d, v) == Key(d', v') <==>
            || (d == d' && v == v')
            || Overlaps(d, v, d', v')
            || Overlaps(d', v', d, v)
  {
    if Key(d, v) == Key(d', v') {
      if |d| == |d'| {
        KeySplit(d, v);
        KeySplit(d', v');
      } else if |d| < |d'| {
        KeyOverlap(d, v, d', v');
      } else {
        KeyOverlap(d', v', d, v);
      }
    }
    if Overlaps(d, v, d', v') {
      OverlapCollides(d, v, d', v');
    }
    if Overlaps(d', v', d, v) {
      OverlapCollides(d', v', d, v);
    }
  }

  /** d' is d, a zero byte and m, while v is m, a zero byte and v'. */
  ghost predicate Overlaps(d: Address, v: Address, d': Address, v': Address)
  {
    exists m: seq<byte> :: d' == Key(d, m) && v == Key(m, v')
  }

  lemma KeySplit(d: Address, v: Address)
    ensures Key(d, v)[..|d|] == d && Key(d, v)[|d| + 1..] == v
  {
  }

  lemma KeyOverlap(d: Address, v: Address, d': Address, v': Address)
    requires Key(d, v) == Key(d', v') && |d| < |d'|
    ensures Overlaps(d, v, d', v')
  {
    var k := Key(d, v);
    KeySplit(d, v);
    KeySplit(d', v');
    var m := d'[|d| + 1..];
    assert d' == k[..|d'|];
    assert k[..|d'|] == k[..|d|] + [k[|d|]] + k[|d| + 1..|d'|];
    assert m == k[|d| + 1..|d'|];
    assert k[|d|] == 0;
    assert d' == Key(d, m);
    assert v == k[|d| + 1..|d'|] + [k[|d'|]] + k[|d'| + 1..];
    assert v == Key(m, v');
  }

  lemma OverlapCollides(d: Address, v: Address, d': Address, v': Address)
    requires Overlaps(d, v, d', v')
    ensures Key(d, v) == Key(d', v')
  {
    var m: seq<byte> :| d' == Key(d, m) && v == Key(m, v');
    assert Key(d, v) == d + [0] + (m + [0] + v');
    assert Key(d', v') == (d + [0] + m) + [0] + v';
  }

  /** Between delegators whose addresses have the same length the key tells all pairs apart. */
  lemma KeyInjective(d: Address, v: Address, d': Address, v': Address)
    requires |d| == |d'| && Key(d, v) == Key(d', v')
    ensures d == d' && v == v'
  {
    KeySplit(d, v);
    KeySplit(d', v');
  }

  /**
   From an unmarked context a pair is exempt exactly when the transaction redelegates from it,
   provided delegator addresses have one length.
   */
  lemma MarkedExactly(msgs: seq<TxMsg>, d: Address, v: Address)
    requires forall i :: 0 <= i < |msgs| ==> Readable(msgs[i])
    requires forall i :: 0 <= i < |msgs| && Marking(msgs[i]) ==> |msgs[i].del.value| == |d|
    ensures Marked(SourceKeys(msgs), d, v) <==>
            exists i :: 0 <= i < |msgs| && msgs[i] == BeginRedelegate(Some(d), Some(v))
  {
    if Marked(SourceKeys(msgs), d, v) {
      var i :| 0 <= i < |msgs| && Marking(msgs[i]) && Key(d, v) == Key(msgs[i].del.value, msgs[i].src.value);
      KeyInjective(d, v, msgs[i].del.value, msgs[i].src.value);
      assert msgs[i] == BeginRedelegate(Some(d), Some(v));
    }
  }

  /** With addresses of different lengths a redelegation of one account can exempt a pair of another. */
  lemma KeysCanCollide()
    ensures Key([1], [2, 0, 3]) == Key([1, 0, 2], [3])
  {
  }
}
