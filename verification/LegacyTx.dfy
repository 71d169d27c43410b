/**
 The decoders of old-format Ethereum transactions: access tuples and the three transaction kinds.

 Each message is described twice. `Pick...` says what every field of the struct is, from the
 occurrences of its number ("last one wins", repeated fields concatenate); the methods are the
 loops of the source and are proved to compute it.
 */
module LegacyTx {
  import opened Common
  import opened Loops
  import opened Varint
  import opened Wire
  import opened Scanner

  /** cosmossdk.io/math.Int is not part of this repository; it is any pair of functions. */
  datatype IntCodec = IntCodec(marshal: int -> seq<byte>, unmarshal: seq<byte> -> Option<int>)
  {
    /** The codec gives n back, from text whose length fits a length prefix. */
    ghost predicate Carries(n: int)
    {
      unmarshal(marshal(n)) == Some(n) && |marshal(n)| < U64
    }

    ghost predicate CarriesOpt(n: Option<int>)
    {
      n.Some? ==> Carries(n.value)
    }
  }

  datatype AccessTuple = AccessTuple(address: seq<byte>, storageKeys: seq<seq<byte>>)

  datatype LegacyTx = LegacyTx(
    nonce: uint64, gasPrice: Option<int>, gasLimit: uint64, to: seq<byte>, amount: Option<int>,
    data: seq<byte>, v: seq<byte>, r: seq<byte>, s: seq<byte>)

  datatype AccessListTx = AccessListTx(
    chainID: Option<int>, nonce: uint64, gasPrice: Option<int>, gasLimit: uint64, to: seq<byte>,
    amount: Option<int>, data: seq<byte>, accesses: seq<AccessTuple>,
    v: seq<byte>, r: seq<byte>, s: seq<byte>)

  datatype DynamicFeeTx = DynamicFeeTx(
    chainID: Option<int>, nonce: uint64, gasTipCap: Option<int>, gasFeeCap: Option<int>,
    gasLimit: uint64, to: seq<byte>, amount: Option<int>, data: seq<byte>,
    accesses: seq<AccessTuple>, v: seq<byte>, r: seq<byte>, s: seq<byte>)

  // ----- what a struct field is, given the occurrences of its number

  function BigInt(c: IntCodec, last: Option<Field>): (n: Option<int>)
  {
    if last.Some? then c.unmarshal(Payload(last.value)) else None
  }

  function Payloads(occ: seq<Field>): (ps: seq<seq<byte>>)
  {
    seq(|occ|, j requires 0 <= j < |occ| => Payload(occ[j]))
  }

  function Tuples(occ: seq<Field>): (ts: seq<AccessTuple>)
  {
    seq(|occ|, j requires 0 <= j < |occ| => TupleAt(Payload(occ[j])))
  }

  /** The tuple in a payload that has passed its check. */
  function TupleAt(data: seq<byte>): (t: AccessTuple)
  {
    match DecodeAccessTuple(data)
    case Ok(t) => t
    case _ => AccessTuple([], [])
  }

  // ----- the switch statements

  function Expect(wt: nat, want: nat): (a: Action)
  {
    if wt == want then Take else Reject
  }

  function TupleAction(num: nat, wt: nat): (a: Action)
  {
    if num == 1 || num == 2 then Expect(wt, 2) else Skip
  }

  function LegacyAction(num: nat, wt: nat): (a: Action)
  {
    if num == 1 || num == 3 then Expect(wt, 0) else if 2 <= num <= 9 then Expect(wt, 2) else Skip
  }

  function AccessListAction(num: nat, wt: nat): (a: Action)
  {
    if num == 2 || num == 4 then Expect(wt, 0) else if 1 <= num <= 11 then Expect(wt, 2) else Skip
  }

  function DynamicFeeAction(num: nat, wt: nat): (a: Action)
  {
    if num == 2 || num == 5 then Expect(wt, 0) else if 1 <= num <= 12 then Expect(wt, 2) else Skip
  }

  /** Big integers must unmarshal and access tuples must decode; other fields are taken as they are. */
  function CheckField(c: IntCodec, isInt: bool, isTuple: bool, f: Field): (r: Outcome<()>)
  {
    if isInt then
      if c.unmarshal(Payload(f)).Some? then Ok(()) else Err
    else if isTuple then
      var _ :- DecodeAccessTuple(Payload(f));
      Ok(())
    else Ok(())
  }

  function TupleSchema(): (s: Schema)
  {
    Schema(TupleAction, f => Ok(()), false, false)
  }

  function LegacySchema(c: IntCodec): (s: Schema)
  {
    Schema(LegacyAction, (f: Field) => CheckField(c, f.num == 2 || f.num == 5, false, f), false, false)
  }

  function AccessListSchema(c: IntCodec): (s: Schema)
  {
    Schema(
      AccessListAction,
      (f: Field) => CheckField(c, f.num == 1 || f.num == 3 || f.num == 6, f.num == 8, f),
      false, false)
  }

  function DynamicFeeSchema(c: IntCodec): (s: Schema)
  {
    Schema(
      DynamicFeeAction,
      (f: Field) => CheckField(c, f.num == 1 || f.num == 3 || f.num == 4 || f.num == 7, f.num == 9, f),
      false, false)
  }

  // ----- what the decoders compute

  function PickAccessTuple(fs: seq<Field>): (t: AccessTuple)
  {
    AccessTuple(Bytes(LastOf(1, fs)), Payloads(Only(2, fs)))
  }

  function PickLegacyTx(c: IntCodec, fs: seq<Field>): (tx: LegacyTx)
  {
    LegacyTx(
      Uint(LastOf(1, fs)), BigInt(c, LastOf(2, fs)), Uint(LastOf(3, fs)), Bytes(LastOf(4, fs)),
      BigInt(c, LastOf(5, fs)), Bytes(LastOf(6, fs)), Bytes(LastOf(7, fs)), Bytes(LastOf(8, fs)), Bytes(LastOf(9, fs)))
  }

  function PickAccessListTx(c: IntCodec, fs: seq<Field>): (tx: AccessListTx)
  {
    AccessListTx(
      BigInt(c, LastOf(1, fs)), Uint(LastOf(2, fs)), BigInt(c, LastOf(3, fs)), Uint(LastOf(4, fs)),
      Bytes(LastOf(5, fs)), BigInt(c, LastOf(6, fs)), Bytes(LastOf(7, fs)), Tuples(Only(8, fs)),
      Bytes(LastOf(9, fs)), Bytes(LastOf(10, fs)), Bytes(LastOf(11, fs)))
  }

  function PickDynamicFeeTx(c: IntCodec, fs: seq<Field>): (tx: DynamicFeeTx)
  {
    DynamicFeeTx(
      BigInt(c, LastOf(1, fs)), Uint(LastOf(2, fs)), BigInt(c, LastOf(3, fs)), BigInt(c, LastOf(4, fs)),
      Uint(LastOf(5, fs)), Bytes(LastOf(6, fs)), BigInt(c, LastOf(7, fs)), Bytes(LastOf(8, fs)),
      Tuples(Only(9, fs)), Bytes(LastOf(10, fs)), Bytes(LastOf(11, fs)), Bytes(LastOf(12, fs)))
  }

  function DecodeAccessTuple(data: seq<byte>): (r: Outcome<AccessTuple>)
  {
    var fs :- Scan(TupleSchema(), data);
    Ok(PickAccessTuple(fs))
  }

  function DecodeLegacyTx(c: IntCodec, data: seq<byte>): (r: Outcome<LegacyTx>)
  {
    var fs :- Scan(LegacySchema(c), data);
    Ok(PickLegacyTx(c, fs))
  }

  function DecodeAccessListTx(c: IntCodec, data: seq<byte>): (r: Outcome<AccessListTx>)
  {
    var fs :- Scan(AccessListSchema(c), data);
    Ok(PickAccessListTx(c, fs))
  }

  function DecodeDynamicFeeTx(c: IntCodec, data: seq<byte>): (r: Outcome<DynamicFeeTx>)
  {
    var fs :- Scan(DynamicFeeSchema(c), data);
    Ok(PickDynamicFeeTx(c, fs))
  }

  // ----- the loops of the source

  lemma TuplesSnoc(occ: seq<Field>, f: Field)
    ensures Tuples(occ + [f]) == Tuples(occ) + [TupleAt(Payload(f))]
  {
  }

  lemma PayloadsSnoc(occ: seq<Field>, f: Field)
    ensures Payloads(occ + [f]) == Payloads(occ) + [Payload(f)]
  {
  }

  /** The switch of `unmarshalAccessTuple`, after a tag; fs are the fields taken before it. */
  method TupleField(tx: AccessTuple, fieldNum: nat, wireType: nat, data: seq<byte>, i: nat, ghost fs: seq<Field>)
    returns (res: Outcome<(AccessTuple, int)>)
    requires tx == PickAccessTuple(fs) && i <= |data| <= INT_MAX
    requires !Judge(TupleSchema(), fieldNum, wireType, data, i).Hang?
    ensures var j := Judge(TupleSchema(), fieldNum, wireType, data, i);
            if j.Ok? then res == Ok((PickAccessTuple(fs + j.value.0), j.value.1)) else res == j.PropagateFailure()
  {
    ghost var s := TupleSchema();
    hide Scan, Judge, ReadLenDelimited, SkipProtoField, DecodeVarint, DecodeAccessTuple, LastOf, Only, GoInt;
    if fieldNum == 1 || fieldNum == 2 {
      if wireType != 2 { JudgeReject(s, fieldNum, wireType, data, i); return Err; }
      JudgeLen(s, fieldNum, data, i);
      var bk :- ReadLenDelimited(data[i..]);
      var (b, k) := bk;
      LastOfSnoc(fs, LenField(fieldNum, b));
      OnlySnoc(fs, LenField(fieldNum, b));
      match fieldNum
      case 1 => return Ok((tx.(address := b), i + k));
      case 2 =>
        PayloadsSnoc(Only(2, fs), LenField(2, b));
        return Ok((tx.(storageKeys := tx.storageKeys + [b]), i + k));
    } else {
      JudgeSkip(s, fieldNum, wireType, data, i);
      var k :- SkipProtoField(data[i..], wireType);
      assert fs + [] == fs;
      return Ok((tx, GoInt(i + k)));
    }
  }

  lemma NothingAccessTuple()
    ensures PickAccessTuple([]) == AccessTuple([], [])
  {
  }

  /** `unmarshalAccessTuple`. */
  method UnmarshalAccessTuple(data: seq<byte>) returns (res: Outcome<AccessTuple>)
    requires |data| <= INT_MAX && !DecodeAccessTuple(data).Hang?
    ensures res == DecodeAccessTuple(data)
  {
    hide Scan, Judge, At, PickAccessTuple, TupleSchema, DecodeVarint, Indices;
    var tx := AccessTuple([], []);
    var i: int := 0;
    ghost var seen: set<nat>, fs: seq<Field> := {}, [];
    ghost var s := TupleSchema();
    ghost var goal := Scan(s, data);
    Begin(s, data);
    NothingAccessTuple();
    while i < |data|
      invariant At(s, data, i, seen, fs, goal)
      invariant tx == PickAccessTuple(fs)
      decreases |Indices(|data|) - seen|
    {
      if i < 0 { BelowZero(s, data, i, seen, fs, goal); return Panic; }
      var tag, n := ProtoDecodeVarint(data[i..]);
      if n == 0 { NoTag(s, data, i, seen, fs, goal); return Err; }
      i := i + n;
      OneTurn(s, data, i - n, seen, fs, goal, tag, i);
      var turn := TupleField(tx, tag / 8, tag % 8, data, i, fs);
      var txk :- turn;
      fs, seen := fs + Judge(s, tag / 8, tag % 8, data, i).value.0, seen + {i - n};
      tx, i := txk.0, txk.1;
    }
    End(s, data, i, seen, fs, goal);
    return Ok(tx);
  }

  /** The switch of `unmarshalLegacyTx`, after a tag; fs are the fields taken before it. */
  method LegacyTxField(c: IntCodec, tx: LegacyTx, fieldNum: nat, wireType: nat, data: seq<byte>, i: nat,
                       ghost fs: seq<Field>)
    returns (res: Outcome<(LegacyTx, int)>)
    requires tx == PickLegacyTx(c, fs) && i <= |data| <= INT_MAX
    requires !Judge(LegacySchema(c), fieldNum, wireType, data, i).Hang?
    ensures var j := Judge(LegacySchema(c), fieldNum, wireType, data, i);
            if j.Ok? then res == Ok((PickLegacyTx(c, fs + j.value.0), j.value.1)) else res == j.PropagateFailure()
  {
    ghost var s := LegacySchema(c);
    hide Scan, Judge, ReadLenDelimited, SkipProtoField, DecodeVarint, DecodeAccessTuple, LastOf, Only, GoInt;
    if fieldNum == 1 || fieldNum == 3 {
      if wireType != 0 { JudgeReject(s, fieldNum, wireType, data, i); return Err; }
      JudgeVarint(s, fieldNum, data, i);
      var v, k := ProtoDecodeVarint(data[i..]);
      if k == 0 { return Err; }
      LastOfSnoc(fs, VarintField(fieldNum, v));
      match fieldNum
      case 1 => return Ok((tx.(nonce := v), i + k));
      case 3 => return Ok((tx.(gasLimit := v), i + k));
    } else if 1 <= fieldNum <= 9 {
      if wireType != 2 { JudgeReject(s, fieldNum, wireType, data, i); return Err; }
      JudgeLen(s, fieldNum, data, i);
      var bk :- ReadLenDelimited(data[i..]);
      var (b, k) := bk;
      LastOfSnoc(fs, LenField(fieldNum, b));
      if fieldNum == 2 || fieldNum == 5 {
        var v := c.unmarshal(b);
        if v.None? { return Err; }
        match fieldNum
        case 2 => return Ok((tx.(gasPrice := v), i + k));
        case 5 => return Ok((tx.(amount := v), i + k));
      }
      match fieldNum
      case 4 => return Ok((tx.(to := b), i + k));
      case 6 => return Ok((tx.(data := b), i + k));
      case 7 => return Ok((tx.(v := b), i + k));
      case 8 => return Ok((tx.(r := b), i + k));
      case 9 => return Ok((tx.(s := b), i + k));
    } else {
      JudgeSkip(s, fieldNum, wireType, data, i);
      var k :- SkipProtoField(data[i..], wireType);
      assert fs + [] == fs;
      return Ok((tx, GoInt(i + k)));
    }
  }

  lemma NothingLegacyTx(c: IntCodec)
    ensures PickLegacyTx(c, []) == LegacyTx(0, None, 0, [], None, [], [], [], [])
  {
  }

  /** `unmarshalLegacyTx`. */
  method UnmarshalLegacyTx(c: IntCodec, data: seq<byte>) returns (res: Outcome<LegacyTx>)
    requires |data| <= INT_MAX && !DecodeLegacyTx(c, data).Hang?
    ensures res == DecodeLegacyTx(c, data)
  {
    hide Scan, Judge, At, PickLegacyTx, LegacySchema, DecodeVarint, Indices;
    var tx := LegacyTx(0, None, 0, [], None, [], [], [], []);
    var i: int := 0;
    ghost var seen: set<nat>, fs: seq<Field> := {}, [];
    ghost var s := LegacySchema(c);
    ghost var goal := Scan(s, data);
    Begin(s, data);
    NothingLegacyTx(c);
    while i < |data|
      invariant At(s, data, i, seen, fs, goal)
      invariant tx == PickLegacyTx(c, fs)
      decreases |Indices(|data|) - seen|
    {
      if i < 0 { BelowZero(s, data, i, seen, fs, goal); return Panic; }
      var tag, n := ProtoDecodeVarint(data[i..]);
      if n == 0 { NoTag(s, data, i, seen, fs, goal); return Err; }
      i := i + n;
      OneTurn(s, data, i - n, seen, fs, goal, tag, i);
      var turn := LegacyTxField(c, tx, tag / 8, tag % 8, data, i, fs);
      var txk :- turn;
      fs, seen := fs + Judge(s, tag / 8, tag % 8, data, i).value.0, seen + {i - n};
      tx, i := txk.0, txk.1;
    }
    End(s, data, i, seen, fs, goal);
    return Ok(tx);
  }

  /** The switch of `unmarshalAccessListTx`, after a tag; fs are the fields taken before it. */
  method AccessListTxField(c: IntCodec, tx: AccessListTx, fieldNum: nat, wireType: nat, data: seq<byte>,
                           i: nat, ghost fs: seq<Field>)
    returns (res: Outcome<(AccessListTx, int)>)
    requires tx == PickAccessListTx(c, fs) && i <= |data| <= INT_MAX
    requires !Judge(AccessListSchema(c), fieldNum, wireType, data, i).Hang?
    ensures var j := Judge(AccessListSchema(c), fieldNum, wireType, data, i);
            if j.Ok? then res == Ok((PickAccessListTx(c, fs + j.value.0), j.value.1)) else res == j.PropagateFailure()
  {
    ghost var s := AccessListSchema(c);
    hide Scan, Judge, ReadLenDelimited, SkipProtoField, DecodeVarint, DecodeAccessTuple, LastOf, Only, GoInt;
    if fieldNum == 2 || fieldNum == 4 {
      if wireType != 0 { JudgeReject(s, fieldNum, wireType, data, i); return Err; }
      JudgeVarint(s, fieldNum, data, i);
      var v, k := ProtoDecodeVarint(data[i..]);
      if k == 0 { return Err; }
      LastOfSnoc(fs, VarintField(fieldNum, v));
      OnlySnoc(fs, VarintField(fieldNum, v));
      match fieldNum
      case 2 => return Ok((tx.(nonce := v), i + k));
      case 4 => return Ok((tx.(gasLimit := v), i + k));
    } else if 1 <= fieldNum <= 11 {
      if wireType != 2 { JudgeReject(s, fieldNum, wireType, data, i); return Err; }
      JudgeLen(s, fieldNum, data, i);
      var bk :- ReadLenDelimited(data[i..]);
      var (b, k) := bk;
      LastOfSnoc(fs, LenField(fieldNum, b));
      OnlySnoc(fs, LenField(fieldNum, b));
      if fieldNum == 1 || fieldNum == 3 || fieldNum == 6 {
        var v := c.unmarshal(b);
        if v.None? { return Err; }
        match fieldNum
        case 1 => return Ok((tx.(chainID := v), i + k));
        case 3 => return Ok((tx.(gasPrice := v), i + k));
        case 6 => return Ok((tx.(amount := v), i + k));
      }
      if fieldNum == 8 {
        var at :- UnmarshalAccessTuple(b);
        TuplesSnoc(Only(8, fs), LenField(8, b));
        return Ok((tx.(accesses := tx.accesses + [at]), i + k));
      }
      match fieldNum
      case 5 => return Ok((tx.(to := b), i + k));
      case 7 => return Ok((tx.(data := b), i + k));
      case 9 => return Ok((tx.(v := b), i + k));
      case 10 => return Ok((tx.(r := b), i + k));
      case 11 => return Ok((tx.(s := b), i + k));
    } else {
      JudgeSkip(s, fieldNum, wireType, data, i);
      var k :- SkipProtoField(data[i..], wireType);
      assert fs + [] == fs;
      return Ok((tx, GoInt(i + k)));
    }
  }

  lemma NothingAccessListTx(c: IntCodec)
    ensures PickAccessListTx(c, []) == AccessListTx(None, 0, None, 0, [], None, [], [], [], [], [])
  {
  }

  /** `unmarshalAccessListTx`. */
  method UnmarshalAccessListTx(c: IntCodec, data: seq<byte>) returns (res: Outcome<AccessListTx>)
    requires |data| <= INT_MAX && !DecodeAccessListTx(c, data).Hang?
    ensures res == DecodeAccessListTx(c, data)
  {
    hide Scan, Judge, At, PickAccessListTx, AccessListSchema, DecodeVarint, Indices;
    var tx := AccessListTx(None, 0, None, 0, [], None, [], [], [], [], []);
    var i: int := 0;
    ghost var seen: set<nat>, fs: seq<Field> := {}, [];
    ghost var s := AccessListSchema(c);
    ghost var goal := Scan(s, data);
    Begin(s, data);
    NothingAccessListTx(c);
    while i < |data|
      invariant At(s, data, i, seen, fs, goal)
      invariant tx == PickAccessListTx(c, fs)
      decreases |Indices(|data|) - seen|
    {
      if i < 0 { BelowZero(s, data, i, seen, fs, goal); return Panic; }
      var tag, n := ProtoDecodeVarint(data[i..]);
      if n == 0 { NoTag(s, data, i, seen, fs, goal); return Err; }
      i := i + n;
      OneTurn(s, data, i - n, seen, fs, goal, tag, i);
      var turn := AccessListTxField(c, tx, tag / 8, tag % 8, data, i, fs);
      var txk :- turn;
      fs, seen := fs + Judge(s, tag / 8, tag % 8, data, i).value.0, seen + {i - n};
      tx, i := txk.0, txk.1;
    }
    End(s, data, i, seen, fs, goal);
    return Ok(tx);
  }

  /** The switch of `unmarshalDynamicFeeTx`, after a tag; fs are the fields taken before it. */
  method DynamicFeeTxField(c: IntCodec, tx: DynamicFeeTx, fieldNum: nat, wireType: nat, data: seq<byte>,
                           i: nat, ghost fs: seq<Field>)
    returns (res: Outcome<(DynamicFeeTx, int)>)
    requires tx == PickDynamicFeeTx(c, fs) && i <= |data| <= INT_MAX
    requires !Judge(DynamicFeeSchema(c), fieldNum, wireType, data, i).Hang?
    ensures var j := Judge(DynamicFeeSchema(c), fieldNum, wireType, data, i);
            if j.Ok? then res == Ok((PickDynamicFeeTx(c, fs + j.value.0), j.value.1)) else res == j.PropagateFailure()
  {
    ghost var s := DynamicFeeSchema(c);
    hide Scan, Judge, ReadLenDelimited, SkipProtoField, DecodeVarint, DecodeAccessTuple, LastOf, Only, GoInt;
    if fieldNum == 2 || fieldNum == 5 {
      if wireType != 0 { JudgeReject(s, fieldNum, wireType, data, i); return Err; }
      JudgeVarint(s, fieldNum, data, i);
      var v, k := ProtoDecodeVarint(data[i..]);
      if k == 0 { return Err; }
      LastOfSnoc(fs, VarintField(fieldNum, v));
      OnlySnoc(fs, VarintField(fieldNum, v));
      match fieldNum
      case 2 => return Ok((tx.(nonce := v), i + k));
      case 5 => return Ok((tx.(gasLimit := v), i + k));
    } else if 1 <= fieldNum <= 12 {
      if wireType != 2 { JudgeReject(s, fieldNum, wireType, data, i); return Err; }
      JudgeLen(s, fieldNum, data, i);
      var bk :- ReadLenDelimited(data[i..]);
      var (b, k) := bk;
      LastOfSnoc(fs, LenField(fieldNum, b));
      OnlySnoc(fs, LenField(fieldNum, b));
      if fieldNum == 1 || fieldNum == 3 || fieldNum == 4 || fieldNum == 7 {
        var v := c.unmarshal(b);
        if v.None? { return Err; }
        match fieldNum
        case 1 => return Ok((tx.(chainID := v), i + k));
        case 3 => return Ok((tx.(gasTipCap := v), i + k));
        case 4 => return Ok((tx.(gasFeeCap := v), i + k));
        case 7 => return Ok((tx.(amount := v), i + k));
      }
      if fieldNum == 9 {
        var at :- UnmarshalAccessTuple(b);
        TuplesSnoc(Only(9, fs), LenField(9, b));
        return Ok((tx.(accesses := tx.accesses + [at]), i + k));
      }
      match fieldNum
      case 6 => return Ok((tx.(to := b), i + k));
      case 8 => return Ok((tx.(data := b), i + k));
      case 10 => return Ok((tx.(v := b), i + k));
      case 11 => return Ok((tx.(r := b), i + k));
      case 12 => return Ok((tx.(s := b), i + k));
    } else {
      JudgeSkip(s, fieldNum, wireType, data, i);
      var k :- SkipProtoField(data[i..], wireType);
      assert fs + [] == fs;
      return Ok((tx, GoInt(i + k)));
    }
  }

  lemma NothingDynamicFeeTx(c: IntCodec)
    ensures PickDynamicFeeTx(c, []) == DynamicFeeTx(None, 0, None, None, 0, [], None, [], [], [], [], [])
  {
  }

  /** `unmarshalDynamicFeeTx`. */
  method UnmarshalDynamicFeeTx(c: IntCodec, data: seq<byte>) returns (res: Outcome<DynamicFeeTx>)
    requires |data| <= INT_MAX && !DecodeDynamicFeeTx(c, data).Hang?
    ensures res == DecodeDynamicFeeTx(c, data)
  {
    hide Scan, Judge, At, PickDynamicFeeTx, DynamicFeeSchema, DecodeVarint, Indices;
    var tx := DynamicFeeTx(None, 0, None, None, 0, [], None, [], [], [], [], []);
    var i: int := 0;
    ghost var seen: set<nat>, fs: seq<Field> := {}, [];
    ghost var s := DynamicFeeSchema(c);
    ghost var goal := Scan(s, data);
    Begin(s, data);
    NothingDynamicFeeTx(c);
    while i < |data|
      invariant At(s, data, i, seen, fs, goal)
      invariant tx == PickDynamicFeeTx(c, fs)
      decreases |Indices(|data|) - seen|
    {
      if i < 0 { BelowZero(s, data, i, seen, fs, goal); return Panic; }
      var tag, n := ProtoDecodeVarint(data[i..]);
      if n == 0 { NoTag(s, data, i, seen, fs, goal); return Err; }
      i := i + n;
      OneTurn(s, data, i - n, seen, fs, goal, tag, i);
      var turn := DynamicFeeTxField(c, tx, tag / 8, tag % 8, data, i, fs);
      var txk :- turn;
      fs, seen := fs + Judge(s, tag / 8, tag % 8, data, i).value.0, seen + {i - n};
      tx, i := txk.0, txk.1;
    }
    End(s, data, i, seen, fs, goal);
    return Ok(tx);
  }
}
