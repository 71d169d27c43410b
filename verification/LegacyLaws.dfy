/**
 Laws of the legacy decoders, for every input: concatenation is merging, field order does not
 matter, and every transaction is read back from its encoding.
 */
module LegacyLaws {
  import opened Common
  import opened Loops
  import opened Varint
  import opened Wire
  import opened Scanner
  import opened LegacyTx

  // ----- what has been taken has been checked

  lemma ScanTakes(s: Schema, data: seq<byte>, f: Field)
    requires !Wraps(s, data) && Scan(s, data).Ok? && f in Scan(s, data).value
    ensures s.action(f.num, f.WireType()).Take? && s.check(f).Ok?
  {
    hide Scan, SplitFields, DecodeVarint, Wraps;
    ScanUnwrapped(s, data);
    var sp := SplitFields(data);
    assert TailOutcome(s, sp.tail) == Ok([]);
    ThenNothing(Select(s, sp.fields));
    SelectTakes(s, sp.fields, f);
  }

  lemma {:induction false} SelectTakes(s: Schema, fs: seq<Field>, f: Field)
    requires Select(s, fs).Ok? && f in Select(s, fs).value
    ensures s.action(f.num, f.WireType()).Take? && s.check(f).Ok?
  {
    if fs != [] && f !in SelectOne(s, fs[0]).value {
      SelectTakes(s, fs[1..], f);
    }
  }

  // ----- merging, field by field

  function MergeUint(x: uint64, y: uint64): (z: uint64)
  {
    if y != 0 then y else x
  }

  function MergeBytes(x: seq<byte>, y: seq<byte>): (z: seq<byte>)
  {
    if y != [] then y else x
  }

  function MergeInt(x: Option<int>, y: Option<int>): (z: Option<int>)
  {
    if y.Some? then y else x
  }

  /** A later occurrence spells out the default and so erases the value that was there. */
  predicate ErasesUint(num: nat, x: uint64, later: seq<Field>)
  {
    x != 0 && LastOf(num, later).Some? && Uint(LastOf(num, later)) == 0
  }

  predicate ErasesBytes(num: nat, x: seq<byte>, later: seq<Field>)
  {
    x != [] && LastOf(num, later).Some? && Bytes(LastOf(num, later)) == []
  }

  lemma UintMerges(num: nat, fs: seq<Field>, gs: seq<Field>)
    ensures var x, y := Uint(LastOf(num, fs)), Uint(LastOf(num, gs));
            Uint(LastOf(num, fs + gs)) == MergeUint(x, y) <==> !ErasesUint(num, x, gs)
  {
    hide LastOf;
    LastOfConcat(num, fs, gs);
  }

  lemma BytesMerges(num: nat, fs: seq<Field>, gs: seq<Field>)
    ensures var x, y := Bytes(LastOf(num, fs)), Bytes(LastOf(num, gs));
            Bytes(LastOf(num, fs + gs)) == MergeBytes(x, y) <==> !ErasesBytes(num, x, gs)
  {
    hide LastOf;
    LastOfConcat(num, fs, gs);
  }

  lemma IntMerges(c: IntCodec, num: nat, fs: seq<Field>, gs: seq<Field>)
    requires LastOf(num, gs).Some? ==> BigInt(c, LastOf(num, gs)).Some?
    ensures BigInt(c, LastOf(num, fs + gs)) == MergeInt(BigInt(c, LastOf(num, fs)), BigInt(c, LastOf(num, gs)))
  {
    hide LastOf;
    LastOfConcat(num, fs, gs);
  }

  lemma TuplesMerge(num: nat, fs: seq<Field>, gs: seq<Field>)
    ensures Tuples(Only(num, fs + gs)) == Tuples(Only(num, fs)) + Tuples(Only(num, gs))
  {
    hide Only;
    OnlyConcat(num, fs, gs);
  }

  // ----- slots of an encoding

  function IntSlot(c: IntCodec, num: nat, n: Option<int>): (fs: seq<Field>)
  {
    if n.None? then [] else [LenField(num, c.marshal(n.value))]
  }

  function KeySlot(num: nat, keys: seq<seq<byte>>): (fs: seq<Field>)
  {
    seq(|keys|, j requires 0 <= j < |keys| => LenField(num, keys[j]))
  }

  function TupleSlot(num: nat, ts: seq<AccessTuple>): (fs: seq<Field>)
  {
    seq(|ts|, j requires 0 <= j < |ts| => LenField(num, EncodeAccessTuple(ts[j])))
  }

  /** The slot belongs to field number num, and the schema takes everything in it. */
  ghost predicate SlotTaken(s: Schema, num: nat, fs: seq<Field>)
  {
    forall f :: f in fs ==> f.num == num && f.Valid() && SelectOne(s, f) == Ok([f])
  }

  ghost predicate SlotsTaken(s: Schema, slots: seq<seq<Field>>)
  {
    forall k :: 0 <= k < |slots| ==> SlotTaken(s, k + 1, slots[k])
  }

  lemma {:induction false} SelectAll(s: Schema, fs: seq<Field>)
    requires forall f :: f in fs ==> SelectOne(s, f) == Ok([f])
    ensures Select(s, fs) == Ok(fs)
  {
    if fs == [] {
    } else {
      assert fs[0] in fs;
      SelectAll(s, fs[1..]);
      assert [fs[0]] + fs[1..] == fs;
    }
  }

  /** A message laid out in slots that its schema takes is scanned back slot by slot. */
  lemma SlotsScanned(s: Schema, slots: seq<seq<Field>>)
    requires SlotsTaken(s, slots)
    ensures Scan(s, EncodeFields(Flatten(slots))) == Ok(Flatten(slots))
    ensures Slotted(slots)
  {
    hide Scan, Select, SelectOne, EncodeFields;
    var fs := Flatten(slots);
    forall f | f in fs
      ensures f.Valid() && SelectOne(s, f) == Ok([f])
    {
      var k := FlattenMember(slots, f);
      assert SlotTaken(s, k + 1, slots[k]);
    }
    SelectAll(s, fs);
    ScanEncoded(s, fs);
    forall k | 0 <= k < |slots|
      ensures Uniform(k + 1, slots[k])
    {
      assert SlotTaken(s, k + 1, slots[k]);
    }
  }

  // ----- the layouts of the messages, and what else their decoders make of a field

  /** A field that the schema takes. */
  ghost predicate TakenBy(s: Schema, f: Field)
  {
    f.Valid() && s.action(f.num, f.WireType()).Take? && s.check(f) == Ok(())
  }

  /** A message in which every number of a decoder occurs once is taken as it stands. */
  lemma LayoutScanned(s: Schema, fs: seq<Field>)
    requires forall f :: f in fs ==> TakenBy(s, f)
    ensures Scan(s, EncodeFields(fs)) == Ok(fs)
  {
    hide Scan, EncodeFields, Select;
    SelectAll(s, fs);
    ScanEncoded(s, fs);
  }

  lemma LegacyTakes(c: IntCodec, num: nat, b: seq<byte>, v: uint64)
    ensures num in {1, 3} ==> TakenBy(LegacySchema(c), VarintField(num, v))
    ensures num in {2, 4, 5, 6, 7, 8, 9} && |b| < U64 && (num in {2, 5} ==> c.unmarshal(b).Some?) ==>
              TakenBy(LegacySchema(c), LenField(num, b))
  {
  }

  lemma AccessListTakes(c: IntCodec, num: nat, b: seq<byte>, v: uint64)
    ensures num in {2, 4} ==> TakenBy(AccessListSchema(c), VarintField(num, v))
    ensures && num in {1, 3, 5, 6, 7, 8, 9, 10, 11} && |b| < U64 && (num in {1, 3, 6} ==> c.unmarshal(b).Some?)
            && (num == 8 ==> DecodeAccessTuple(b).Ok?) ==>
              TakenBy(AccessListSchema(c), LenField(num, b))
  {
    hide DecodeAccessTuple;
  }

  lemma DynamicFeeTakes(c: IntCodec, num: nat, b: seq<byte>, v: uint64)
    ensures num in {2, 5} ==> TakenBy(DynamicFeeSchema(c), VarintField(num, v))
    ensures && num in {1, 3, 4, 6, 7, 8, 9, 10, 11, 12} && |b| < U64 && (num in {1, 3, 4, 7} ==> c.unmarshal(b).Some?)
            && (num == 9 ==> DecodeAccessTuple(b).Ok?) ==>
              TakenBy(DynamicFeeSchema(c), LenField(num, b))
  {
    hide DecodeAccessTuple;
  }

  lemma AccessTupleLayout(address: seq<byte>, key: seq<byte>)
    requires |address| < U64 && |key| < U64
    ensures DecodeAccessTuple(EncodeFields([LenField(1, address), LenField(2, key)])) == Ok(AccessTuple(address, [key]))
  {
    hide Scan, EncodeFields, Only, LastOf;
    var fs := [LenField(1, address), LenField(2, key)];
    LayoutScanned(TupleSchema(), fs);
    NumberedRead(1, fs);
    NumberedRead(2, fs);
    assert Payloads([LenField(2, key)]) == [key];
  }

  /** Which field number holds what in a legacy transaction. */
  lemma LegacyTxLayout(c: IntCodec, nonce: uint64, gasPrice: seq<byte>, gas: uint64, to: seq<byte>, amount: seq<byte>,
                       data: seq<byte>, v: seq<byte>, r: seq<byte>, s: seq<byte>)
    requires c.unmarshal(gasPrice).Some? && c.unmarshal(amount).Some?
    requires |gasPrice| < U64 && |to| < U64 && |amount| < U64 && |data| < U64 && |v| < U64 && |r| < U64 && |s| < U64
    ensures DecodeLegacyTx(c, EncodeFields([
              VarintField(1, nonce), LenField(2, gasPrice), VarintField(3, gas), LenField(4, to), LenField(5, amount),
              LenField(6, data), LenField(7, v), LenField(8, r), LenField(9, s)])) ==
            Ok(LegacyTx(nonce, c.unmarshal(gasPrice), gas, to, c.unmarshal(amount), data, v, r, s))
  {
    hide Scan, EncodeFields, Only, LastOf, DecodeAccessTuple, LegacySchema, TakenBy, Numbered;
    var fs := [VarintField(1, nonce), LenField(2, gasPrice), VarintField(3, gas), LenField(4, to), LenField(5, amount),
               LenField(6, data), LenField(7, v), LenField(8, r), LenField(9, s)];
    LegacyTakes(c, 1, [], nonce);
    LegacyTakes(c, 2, gasPrice, 0);
    LegacyTakes(c, 3, [], gas);
    LegacyTakes(c, 4, to, 0);
    LegacyTakes(c, 5, amount, 0);
    LegacyTakes(c, 6, data, 0);
    LegacyTakes(c, 7, v, 0);
    LegacyTakes(c, 8, r, 0);
    LegacyTakes(c, 9, s, 0);
    LayoutScanned(LegacySchema(c), fs);
    InOrder(fs);
    NumberedRead(1, fs);
    NumberedRead(2, fs);
    NumberedRead(3, fs);
    NumberedRead(4, fs);
    NumberedRead(5, fs);
    NumberedRead(6, fs);
    NumberedRead(7, fs);
    NumberedRead(8, fs);
    NumberedRead(9, fs);
  }

  /** Which field number holds what in an access-list transaction. */
  lemma AccessListTxLayout(c: IntCodec, chain: seq<byte>, nonce: uint64, gasPrice: seq<byte>, gas: uint64,
                           to: seq<byte>, amount: seq<byte>, data: seq<byte>, tuple: seq<byte>,
                           v: seq<byte>, r: seq<byte>, s: seq<byte>)
    requires c.unmarshal(chain).Some? && c.unmarshal(gasPrice).Some? && c.unmarshal(amount).Some?
    requires DecodeAccessTuple(tuple).Ok?
    requires |chain| < U64 && |gasPrice| < U64 && |to| < U64 && |amount| < U64 && |data| < U64 && |tuple| < U64
    requires |v| < U64 && |r| < U64 && |s| < U64
    ensures DecodeAccessListTx(c, EncodeFields([
              LenField(1, chain), VarintField(2, nonce), LenField(3, gasPrice), VarintField(4, gas), LenField(5, to),
              LenField(6, amount), LenField(7, data), LenField(8, tuple), LenField(9, v), LenField(10, r),
              LenField(11, s)])) ==
            Ok(AccessListTx(c.unmarshal(chain), nonce, c.unmarshal(gasPrice), gas, to, c.unmarshal(amount), data,
                            [DecodeAccessTuple(tuple).value], v, r, s))
  {
    hide Scan, EncodeFields, Only, LastOf, DecodeAccessTuple, AccessListSchema, TakenBy, Numbered;
    var fs := [LenField(1, chain), VarintField(2, nonce), LenField(3, gasPrice), VarintField(4, gas), LenField(5, to),
               LenField(6, amount), LenField(7, data), LenField(8, tuple), LenField(9, v), LenField(10, r),
               LenField(11, s)];
    AccessListTakes(c, 1, chain, 0);
    AccessListTakes(c, 2, [], nonce);
    AccessListTakes(c, 3, gasPrice, 0);
    AccessListTakes(c, 4, [], gas);
    AccessListTakes(c, 5, to, 0);
    AccessListTakes(c, 6, amount, 0);
    AccessListTakes(c, 7, data, 0);
    AccessListTakes(c, 8, tuple, 0);
    AccessListTakes(c, 9, v, 0);
    AccessListTakes(c, 10, r, 0);
    AccessListTakes(c, 11, s, 0);
    LayoutScanned(AccessListSchema(c), fs);
    InOrder(fs);
    NumberedRead(1, fs);
    NumberedRead(2, fs);
    NumberedRead(3, fs);
    NumberedRead(4, fs);
    NumberedRead(5, fs);
    NumberedRead(6, fs);
    NumberedRead(7, fs);
    NumberedRead(8, fs);
    NumberedRead(9, fs);
    NumberedRead(10, fs);
    NumberedRead(11, fs);
    assert Tuples([LenField(8, tuple)]) == [DecodeAccessTuple(tuple).value];
  }

  /** Which field number holds what in a dynamic-fee transaction. */
  lemma DynamicFeeTxLayout(c: IntCodec, chain: seq<byte>, nonce: uint64, tip: seq<byte>, fee: seq<byte>, gas: uint64,
                           to: seq<byte>, amount: seq<byte>, data: seq<byte>, tuple: seq<byte>,
                           v: seq<byte>, r: seq<byte>, s: seq<byte>)
    requires c.unmarshal(chain).Some? && c.unmarshal(tip).Some? && c.unmarshal(fee).Some? && c.unmarshal(amount).Some?
    requires DecodeAccessTuple(tuple).Ok?
    requires |chain| < U64 && |tip| < U64 && |fee| < U64 && |to| < U64 && |amount| < U64 && |data| < U64
    requires |tuple| < U64
    requires |v| < U64 && |r| < U64 && |s| < U64
    ensures DecodeDynamicFeeTx(c, EncodeFields([
              LenField(1, chain), VarintField(2, nonce), LenField(3, tip), LenField(4, fee), VarintField(5, gas),
              LenField(6, to), LenField(7, amount), LenField(8, data), LenField(9, tuple), LenField(10, v),
              LenField(11, r), LenField(12, s)])) ==
            Ok(DynamicFeeTx(c.unmarshal(chain), nonce, c.unmarshal(tip), c.unmarshal(fee), gas, to, c.unmarshal(amount),
                            data, [DecodeAccessTuple(tuple).value], v, r, s))
  {
    hide Scan, EncodeFields, Only, LastOf, DecodeAccessTuple, DynamicFeeSchema, TakenBy, Numbered;
    var fs := [LenField(1, chain), VarintField(2, nonce), LenField(3, tip), LenField(4, fee), VarintField(5, gas),
               LenField(6, to), LenField(7, amount), LenField(8, data), LenField(9, tuple), LenField(10, v),
               LenField(11, r), LenField(12, s)];
    DynamicFeeTakes(c, 1, chain, 0);
    DynamicFeeTakes(c, 2, [], nonce);
    DynamicFeeTakes(c, 3, tip, 0);
    DynamicFeeTakes(c, 4, fee, 0);
    DynamicFeeTakes(c, 5, [], gas);
    DynamicFeeTakes(c, 6, to, 0);
    DynamicFeeTakes(c, 7, amount, 0);
    DynamicFeeTakes(c, 8, data, 0);
    DynamicFeeTakes(c, 9, tuple, 0);
    DynamicFeeTakes(c, 10, v, 0);
    DynamicFeeTakes(c, 11, r, 0);
    DynamicFeeTakes(c, 12, s, 0);
    LayoutScanned(DynamicFeeSchema(c), fs);
    InOrder(fs);
    NumberedRead(1, fs);
    NumberedRead(2, fs);
    NumberedRead(3, fs);
    NumberedRead(4, fs);
    NumberedRead(5, fs);
    NumberedRead(6, fs);
    NumberedRead(7, fs);
    NumberedRead(8, fs);
    NumberedRead(9, fs);
    NumberedRead(10, fs);
    NumberedRead(11, fs);
    NumberedRead(12, fs);
    assert Tuples([LenField(9, tuple)]) == [DecodeAccessTuple(tuple).value];
  }

  /**
   What the switches do with a field number and a wire type: a known number is taken with its own wire
   type and refused with any other, and every other number is skipped.
   */
  lemma SwitchesExactly(c: IntCodec, num: nat, wt: nat)
    ensures TupleSchema().action(num, wt) == if num == 0 || num > 2 then Skip else if wt == 2 then Take else Reject
    ensures LegacySchema(c).action(num, wt) ==
            if num == 0 || num > 9 then Skip else if wt == [0, 2, 0, 2, 2, 2, 2, 2, 2][num - 1] then Take else Reject
    ensures AccessListSchema(c).action(num, wt) ==
            if num == 0 || num > 11 then Skip
            else if wt == [2, 0, 2, 0, 2, 2, 2, 2, 2, 2, 2][num - 1] then Take else Reject
    ensures DynamicFeeSchema(c).action(num, wt) ==
            if num == 0 || num > 12 then Skip
            else if wt == [2, 0, 2, 2, 0, 2, 2, 2, 2, 2, 2, 2][num - 1] then Take else Reject
    ensures !TupleSchema().laxVarint && !LegacySchema(c).laxVarint
    ensures !AccessListSchema(c).laxVarint && !DynamicFeeSchema(c).laxVarint
  {
  }

  /** A number that does not unmarshal and a tuple that does not decode fail the transaction as they fail. */
  lemma NestedDecides(c: IntCodec, b: seq<byte>)
    requires |b| < U64
    ensures forall num :: num in {2, 5} ==>
              DecodeLegacyTx(c, EncodeFields([LenField(num, b)])).Ok? == c.unmarshal(b).Some?
    ensures forall num :: num in {1, 3, 6} ==>
              DecodeAccessListTx(c, EncodeFields([LenField(num, b)])).Ok? == c.unmarshal(b).Some?
    ensures forall num :: num in {1, 3, 4, 7} ==>
              DecodeDynamicFeeTx(c, EncodeFields([LenField(num, b)])).Ok? == c.unmarshal(b).Some?
    ensures var t, r := DecodeAccessTuple(b), DecodeAccessListTx(c, EncodeFields([LenField(8, b)]));
            (t.Ok? <==> r.Ok?) && (!t.Ok? ==> r == t.PropagateFailure())
    ensures var t, r := DecodeAccessTuple(b), DecodeDynamicFeeTx(c, EncodeFields([LenField(9, b)]));
            (t.Ok? <==> r.Ok?) && (!t.Ok? ==> r == t.PropagateFailure())
  {
    hide Scan, EncodeFields, DecodeAccessTuple, Select;
    forall num: nat | num <= 9
      ensures var f := LenField(num, b);
              && Scan(LegacySchema(c), EncodeFields([f])) == SelectOne(LegacySchema(c), f)
              && Scan(AccessListSchema(c), EncodeFields([f])) == SelectOne(AccessListSchema(c), f)
              && Scan(DynamicFeeSchema(c), EncodeFields([f])) == SelectOne(DynamicFeeSchema(c), f)
    {
      ScanOne(LegacySchema(c), LenField(num, b));
      ScanOne(AccessListSchema(c), LenField(num, b));
      ScanOne(DynamicFeeSchema(c), LenField(num, b));
    }
  }

  lemma ScanOne(s: Schema, f: Field)
    requires f.Valid()
    ensures Scan(s, EncodeFields([f])) == SelectOne(s, f)
  {
    hide Scan, EncodeFields;
    ScanEncoded(s, [f]);
    SelectSingle(s, f);
  }

  // ----- access tuples

  function TupleSlots(t: AccessTuple): (slots: seq<seq<Field>>)
  {
    [BytesSlot(1, t.address), KeySlot(2, t.storageKeys)]
  }

  function EncodeAccessTuple(t: AccessTuple): (data: seq<byte>)
  {
    EncodeFields(Flatten(TupleSlots(t)))
  }

  /** Every string fits its 64-bit length prefix. */
  ghost predicate TupleFits(t: AccessTuple)
  {
    |t.address| < U64 && (forall j :: 0 <= j < |t.storageKeys| ==> |t.storageKeys[j]| < U64)
  }

  ghost predicate TuplesFit(ts: seq<AccessTuple>)
  {
    forall j :: 0 <= j < |ts| ==> TupleFits(ts[j]) && |EncodeAccessTuple(ts[j])| < U64
  }

  lemma AccessTupleRoundTrip(t: AccessTuple)
    requires TupleFits(t)
    ensures DecodeAccessTuple(EncodeAccessTuple(t)) == Ok(t)
  {
    hide Scan, EncodeFields, Flatten, Only, LastOf;
    var s, slots := TupleSchema(), TupleSlots(t);
    SlotsScanned(s, slots);
    SlotRead(1, slots, BytesSlot(1, t.address));
    SlotRead(2, slots, KeySlot(2, t.storageKeys));
    assert Payloads(KeySlot(2, t.storageKeys)) == t.storageKeys;
  }

  lemma PayloadsMerge(num: nat, fs: seq<Field>, gs: seq<Field>)
    ensures Payloads(Only(num, fs + gs)) == Payloads(Only(num, fs)) + Payloads(Only(num, gs))
  {
    hide Only;
    OnlyConcat(num, fs, gs);
  }

  function MergeAccessTuple(x: AccessTuple, y: AccessTuple): (z: AccessTuple)
  {
    AccessTuple(MergeBytes(x.address, y.address), x.storageKeys + y.storageKeys)
  }

  /** For access tuples, too: the later address wins unless it is spelled out empty, and storage keys concatenate. */
  lemma AccessTupleConcatIsMerge(a: seq<byte>, b: seq<byte>)
    requires WellFormed(a) && !Wraps(TupleSchema(), a + b)
    requires DecodeAccessTuple(a).Ok? && DecodeAccessTuple(b).Ok?
    ensures DecodeAccessTuple(a + b).Ok?
    ensures var x, y := DecodeAccessTuple(a).value, DecodeAccessTuple(b).value;
            DecodeAccessTuple(a + b) == Ok(MergeAccessTuple(x, y)) <==>
              !ErasesBytes(1, x.address, Taken(TupleSchema(), b))
  {
    hide Scan, SplitFields, Wraps, LastOf, Only, Payloads;
    var s := TupleSchema();
    var fs, gs := Scan(s, a).value, Scan(s, b).value;
    ScanConcat(s, a, b);
    BytesMerges(1, fs, gs);
    PayloadsMerge(2, fs, gs);
  }

  /** Only the order among occurrences of the same number matters. */
  lemma AccessTupleFieldOrder(a: seq<byte>, b: seq<byte>)
    requires WellFormed(a) && WellFormed(b)
    requires forall num :: Only(num, SplitFields(a).fields) == Only(num, SplitFields(b).fields)
    ensures var x, y := DecodeAccessTuple(a), DecodeAccessTuple(b);
            (x.Ok? <==> y.Ok?) && (x.Ok? ==> x == y)
  {
    hide Scan, SplitFields, Select, Wraps, LastOf, Only;
    var s := TupleSchema();
    ScanWellFormed(s, a);
    ScanWellFormed(s, b);
    FieldOrderIsIrrelevant(s, SplitFields(a).fields, SplitFields(b).fields);
    if Scan(s, a).Ok? {
      var xs, ys := Scan(s, a).value, Scan(s, b).value;
      assert Only(2, xs) == Only(2, ys);
      LastOfOnly(1, xs);
      LastOfOnly(1, ys);
    }
  }

  lemma TupleSlotReads(num: nat, ts: seq<AccessTuple>)
    requires TuplesFit(ts)
    ensures Tuples(TupleSlot(num, ts)) == ts
    ensures forall f :: f in TupleSlot(num, ts) ==>
              f.LenField? && f.num == num && |f.payload| < U64 && DecodeAccessTuple(f.payload).Ok?
  {
    hide DecodeAccessTuple, EncodeAccessTuple;
    forall j | 0 <= j < |ts|
      ensures DecodeAccessTuple(EncodeAccessTuple(ts[j])) == Ok(ts[j])
    {
      AccessTupleRoundTrip(ts[j]);
    }
  }

  // ----- one slot: taken by the schema, and read back

  lemma UintTaken(s: Schema, num: nat, v: uint64)
    requires num < 0x2000_0000_0000_0000 && s.action(num, 0).Take? && s.check(VarintField(num, v)).Ok?
    ensures SlotTaken(s, num, UintSlot(num, v))
  {
  }

  lemma BytesTaken(s: Schema, num: nat, b: seq<byte>)
    requires num < 0x2000_0000_0000_0000 && s.action(num, 2).Take? && s.check(LenField(num, b)).Ok? && |b| < U64
    ensures SlotTaken(s, num, BytesSlot(num, b))
  {
  }

  lemma IntTaken(c: IntCodec, s: Schema, num: nat, n: Option<int>)
    requires num < 0x2000_0000_0000_0000 && s.action(num, 2).Take? && c.CarriesOpt(n)
    requires n.Some? ==> s.check(LenField(num, c.marshal(n.value))).Ok?
    ensures SlotTaken(s, num, IntSlot(c, num, n))
  {
  }

  lemma TuplesTaken(s: Schema, num: nat, ts: seq<AccessTuple>)
    requires num < 0x2000_0000_0000_0000 && s.action(num, 2).Take? && TuplesFit(ts)
    requires forall f: Field :: f.LenField? && f.num == num && DecodeAccessTuple(f.payload).Ok? ==> s.check(f).Ok?
    ensures SlotTaken(s, num, TupleSlot(num, ts))
  {
    hide DecodeAccessTuple, EncodeAccessTuple, TuplesFit, TupleSlot;
    TupleSlotReads(num, ts);
  }

  lemma IntReadBack(c: IntCodec, num: nat, slots: seq<seq<Field>>, n: Option<int>)
    requires Slotted(slots) && 1 <= num <= |slots| && slots[num - 1] == IntSlot(c, num, n) && c.CarriesOpt(n)
    ensures BigInt(c, LastOf(num, Flatten(slots))) == n
  {
    hide LastOf, Only, Flatten, Slotted;
    SlotRead(num, slots, IntSlot(c, num, n));
  }

  lemma TuplesReadBack(num: nat, slots: seq<seq<Field>>, ts: seq<AccessTuple>)
    requires Slotted(slots) && 1 <= num <= |slots| && slots[num - 1] == TupleSlot(num, ts) && TuplesFit(ts)
    ensures Tuples(Only(num, Flatten(slots))) == ts
  {
    hide LastOf, Only, Flatten, Slotted, TupleSlot, Tuples;
    SlotRead(num, slots, TupleSlot(num, ts));
    TupleSlotReads(num, ts);
  }

  // ----- LegacyTx

  /** Proto3 merging of values: what is not the default wins, repeated fields concatenate. */
  function MergeLegacyTx(x: LegacyTx, y: LegacyTx): (z: LegacyTx)
  {
    LegacyTx(
      MergeUint(x.nonce, y.nonce), MergeInt(x.gasPrice, y.gasPrice), MergeUint(x.gasLimit, y.gasLimit),
      MergeBytes(x.to, y.to), MergeInt(x.amount, y.amount), MergeBytes(x.data, y.data),
      MergeBytes(x.v, y.v), MergeBytes(x.r, y.r), MergeBytes(x.s, y.s))
  }

  predicate ErasesLegacyTx(x: LegacyTx, later: seq<Field>)
  {
    || ErasesUint(1, x.nonce, later)
    || ErasesUint(3, x.gasLimit, later)
    || ErasesBytes(4, x.to, later)
    || ErasesBytes(6, x.data, later)
    || ErasesBytes(7, x.v, later)
    || ErasesBytes(8, x.r, later)
    || ErasesBytes(9, x.s, later)
  }

  lemma PickLegacyTxMerges(c: IntCodec, fs: seq<Field>, gs: seq<Field>)
    requires forall num :: num in {2, 5} && LastOf(num, gs).Some? ==> BigInt(c, LastOf(num, gs)).Some?
    ensures var x, y := PickLegacyTx(c, fs), PickLegacyTx(c, gs);
            PickLegacyTx(c, fs + gs) == MergeLegacyTx(x, y) <==> !ErasesLegacyTx(x, gs)
  {
    hide LastOf, Only, Tuples, Uint, Bytes, BigInt, MergeUint, MergeBytes, MergeInt, ErasesUint, ErasesBytes;
    UintMerges(1, fs, gs);
    IntMerges(c, 2, fs, gs);
    UintMerges(3, fs, gs);
    BytesMerges(4, fs, gs);
    IntMerges(c, 5, fs, gs);
    BytesMerges(6, fs, gs);
    BytesMerges(7, fs, gs);
    BytesMerges(8, fs, gs);
    BytesMerges(9, fs, gs);
  }

  /**
   Decoding a complete message followed by another is merging the two results exactly when the
   second message does not spell out a default over a value of the first.
   */
  lemma LegacyTxConcatIsMerge(c: IntCodec, a: seq<byte>, b: seq<byte>)
    requires WellFormed(a) && !Wraps(LegacySchema(c), a + b)
    requires DecodeLegacyTx(c, a).Ok? && DecodeLegacyTx(c, b).Ok?
    ensures DecodeLegacyTx(c, a + b).Ok?
    ensures var x, y := DecodeLegacyTx(c, a).value, DecodeLegacyTx(c, b).value;
            DecodeLegacyTx(c, a + b) == Ok(MergeLegacyTx(x, y)) <==> !ErasesLegacyTx(x, Taken(LegacySchema(c), b))
  {
    hide Scan, SplitFields, Wraps, LastOf, PickLegacyTx, MergeLegacyTx, ErasesLegacyTx;
    var s := LegacySchema(c);
    var fs, gs := Scan(s, a).value, Scan(s, b).value;
    ScanConcat(s, a, b);
    forall num | num in {2, 5} && LastOf(num, gs).Some?
      ensures BigInt(c, LastOf(num, gs)).Some?
    {
      LastOfMember(num, gs);
      ScanTakes(s, b, LastOf(num, gs).value);
    }
    PickLegacyTxMerges(c, fs, gs);
  }

  /** Only the order among occurrences of the same number matters. */
  lemma LegacyTxFieldOrder(c: IntCodec, a: seq<byte>, b: seq<byte>)
    requires WellFormed(a) && WellFormed(b)
    requires forall num :: Only(num, SplitFields(a).fields) == Only(num, SplitFields(b).fields)
    ensures var x, y := DecodeLegacyTx(c, a), DecodeLegacyTx(c, b);
            (x.Ok? <==> y.Ok?) && (x.Ok? ==> x == y)
  {
    hide Scan, SplitFields, Select, Wraps, LastOf, Only, PickLegacyTx;
    var s := LegacySchema(c);
    ScanWellFormed(s, a);
    ScanWellFormed(s, b);
    FieldOrderIsIrrelevant(s, SplitFields(a).fields, SplitFields(b).fields);
    if Scan(s, a).Ok? {
      PickLegacyTxByNumber(c, Scan(s, a).value, Scan(s, b).value);
    }
  }

  lemma PickLegacyTxByNumber(c: IntCodec, xs: seq<Field>, ys: seq<Field>)
    requires forall num :: Only(num, xs) == Only(num, ys)
    ensures PickLegacyTx(c, xs) == PickLegacyTx(c, ys)
  {
    hide LastOf, Only;
    forall num
      ensures LastOf(num, xs) == LastOf(num, ys)
    {
      LastOfOnly(num, xs);
      LastOfOnly(num, ys);
    }
  }

  function LegacyTxSlots(c: IntCodec, tx: LegacyTx): (slots: seq<seq<Field>>)
  {
    [ UintSlot(1, tx.nonce), IntSlot(c, 2, tx.gasPrice), UintSlot(3, tx.gasLimit), BytesSlot(4, tx.to),
      IntSlot(c, 5, tx.amount), BytesSlot(6, tx.data), BytesSlot(7, tx.v), BytesSlot(8, tx.r),
      BytesSlot(9, tx.s) ]
  }

  function EncodeLegacyTx(c: IntCodec, tx: LegacyTx): (data: seq<byte>)
  {
    EncodeFields(Flatten(LegacyTxSlots(c, tx)))
  }

  /** The integers survive their codec and every payload fits its 64-bit length prefix. */
  ghost predicate LegacyTxFits(c: IntCodec, tx: LegacyTx)
  {
    && c.CarriesOpt(tx.gasPrice)
    && |tx.to| < U64
    && c.CarriesOpt(tx.amount)
    && |tx.data| < U64
    && |tx.v| < U64
    && |tx.r| < U64
    && |tx.s| < U64
  }

  lemma LegacyTxSlotsTaken(c: IntCodec, tx: LegacyTx)
    requires LegacyTxFits(c, tx)
    ensures SlotsTaken(LegacySchema(c), LegacyTxSlots(c, tx))
  {
    hide DecodeAccessTuple, SlotTaken, UintSlot, BytesSlot, IntSlot, TupleSlot, TupleFits, EncodeAccessTuple;
    var s := LegacySchema(c);
    UintTaken(s, 1, tx.nonce);
    IntTaken(c, s, 2, tx.gasPrice);
    UintTaken(s, 3, tx.gasLimit);
    BytesTaken(s, 4, tx.to);
    IntTaken(c, s, 5, tx.amount);
    BytesTaken(s, 6, tx.data);
    BytesTaken(s, 7, tx.v);
    BytesTaken(s, 8, tx.r);
    BytesTaken(s, 9, tx.s);
  }

  /** Every LegacyTx is read back from its encoding. */
  lemma LegacyTxRoundTrip(c: IntCodec, tx: LegacyTx)
    requires LegacyTxFits(c, tx)
    ensures DecodeLegacyTx(c, EncodeLegacyTx(c, tx)) == Ok(tx)
  {
    hide Scan, EncodeFields, Flatten, Only, LastOf, SlotsTaken, Slotted;
    hide Uint, Bytes, BigInt, Tuples, UintSlot, BytesSlot, IntSlot, TupleSlot, TupleFits, EncodeAccessTuple;
    var slots := LegacyTxSlots(c, tx);
    LegacyTxSlotsTaken(c, tx);
    SlotsScanned(LegacySchema(c), slots);
    UintReadBack(1, slots, tx.nonce);
    IntReadBack(c, 2, slots, tx.gasPrice);
    UintReadBack(3, slots, tx.gasLimit);
    BytesReadBack(4, slots, tx.to);
    IntReadBack(c, 5, slots, tx.amount);
    BytesReadBack(6, slots, tx.data);
    BytesReadBack(7, slots, tx.v);
    BytesReadBack(8, slots, tx.r);
    BytesReadBack(9, slots, tx.s);
  }

  // ----- AccessListTx

  /** Proto3 merging of values: what is not the default wins, repeated fields concatenate. */
  function MergeAccessListTx(x: AccessListTx, y: AccessListTx): (z: AccessListTx)
  {
    AccessListTx(
      MergeInt(x.chainID, y.chainID), MergeUint(x.nonce, y.nonce), MergeInt(x.gasPrice, y.gasPrice),
      MergeUint(x.gasLimit, y.gasLimit), MergeBytes(x.to, y.to), MergeInt(x.amount, y.amount),
      MergeBytes(x.data, y.data), x.accesses + y.accesses, MergeBytes(x.v, y.v),
      MergeBytes(x.r, y.r), MergeBytes(x.s, y.s))
  }

  predicate ErasesAccessListTx(x: AccessListTx, later: seq<Field>)
  {
    || ErasesUint(2, x.nonce, later)
    || ErasesUint(4, x.gasLimit, later)
    || ErasesBytes(5, x.to, later)
    || ErasesBytes(7, x.data, later)
    || ErasesBytes(9, x.v, later)
    || ErasesBytes(10, x.r, later)
    || ErasesBytes(11, x.s, later)
  }

  lemma PickAccessListTxMerges(c: IntCodec, fs: seq<Field>, gs: seq<Field>)
    requires forall num :: num in {1, 3, 6} && LastOf(num, gs).Some? ==> BigInt(c, LastOf(num, gs)).Some?
    ensures var x, y := PickAccessListTx(c, fs), PickAccessListTx(c, gs);
            PickAccessListTx(c, fs + gs) == MergeAccessListTx(x, y) <==> !ErasesAccessListTx(x, gs)
  {
    hide LastOf, Only, Tuples, Uint, Bytes, BigInt, MergeUint, MergeBytes, MergeInt, ErasesUint, ErasesBytes;
    IntMerges(c, 1, fs, gs);
    UintMerges(2, fs, gs);
    IntMerges(c, 3, fs, gs);
    UintMerges(4, fs, gs);
    BytesMerges(5, fs, gs);
    IntMerges(c, 6, fs, gs);
    BytesMerges(7, fs, gs);
    TuplesMerge(8, fs, gs);
    BytesMerges(9, fs, gs);
    BytesMerges(10, fs, gs);
    BytesMerges(11, fs, gs);
  }

  /**
   Decoding a complete message followed by another is merging the two results exactly when the
   second message does not spell out a default over a value of the first.
   */
  lemma AccessListTxConcatIsMerge(c: IntCodec, a: seq<byte>, b: seq<byte>)
    requires WellFormed(a) && !Wraps(AccessListSchema(c), a + b)
    requires DecodeAccessListTx(c, a).Ok? && DecodeAccessListTx(c, b).Ok?
    ensures DecodeAccessListTx(c, a + b).Ok?
    ensures var x, y := DecodeAccessListTx(c, a).value, DecodeAccessListTx(c, b).value;
            DecodeAccessListTx(c, a + b) == Ok(MergeAccessListTx(x, y)) <==>
              !ErasesAccessListTx(x, Taken(AccessListSchema(c), b))
  {
    hide Scan, SplitFields, Wraps, LastOf, PickAccessListTx, MergeAccessListTx, ErasesAccessListTx;
    var s := AccessListSchema(c);
    var fs, gs := Scan(s, a).value, Scan(s, b).value;
    ScanConcat(s, a, b);
    forall num | num in {1, 3, 6} && LastOf(num, gs).Some?
      ensures BigInt(c, LastOf(num, gs)).Some?
    {
      LastOfMember(num, gs);
      ScanTakes(s, b, LastOf(num, gs).value);
    }
    PickAccessListTxMerges(c, fs, gs);
  }

  /** Only the order among occurrences of the same number matters. */
  lemma AccessListTxFieldOrder(c: IntCodec, a: seq<byte>, b: seq<byte>)
    requires WellFormed(a) && WellFormed(b)
    requires forall num :: Only(num, SplitFields(a).fields) == Only(num, SplitFields(b).fields)
    ensures var x, y := DecodeAccessListTx(c, a), DecodeAccessListTx(c, b);
            (x.Ok? <==> y.Ok?) && (x.Ok? ==> x == y)
  {
    hide Scan, SplitFields, Select, Wraps, LastOf, Only, PickAccessListTx;
    var s := AccessListSchema(c);
    ScanWellFormed(s, a);
    ScanWellFormed(s, b);
    FieldOrderIsIrrelevant(s, SplitFields(a).fields, SplitFields(b).fields);
    if Scan(s, a).Ok? {
      PickAccessListTxByNumber(c, Scan(s, a).value, Scan(s, b).value);
    }
  }

  lemma PickAccessListTxByNumber(c: IntCodec, xs: seq<Field>, ys: seq<Field>)
    requires forall num :: Only(num, xs) == Only(num, ys)
    ensures PickAccessListTx(c, xs) == PickAccessListTx(c, ys)
  {
    hide LastOf, Only;
    forall num
      ensures LastOf(num, xs) == LastOf(num, ys)
    {
      LastOfOnly(num, xs);
      LastOfOnly(num, ys);
    }
  }

  function AccessListTxSlots(c: IntCodec, tx: AccessListTx): (slots: seq<seq<Field>>)
  {
    [ IntSlot(c, 1, tx.chainID), UintSlot(2, tx.nonce), IntSlot(c, 3, tx.gasPrice), UintSlot(4, tx.gasLimit),
      BytesSlot(5, tx.to), IntSlot(c, 6, tx.amount), BytesSlot(7, tx.data), TupleSlot(8, tx.accesses),
      BytesSlot(9, tx.v), BytesSlot(10, tx.r), BytesSlot(11, tx.s) ]
  }

  function EncodeAccessListTx(c: IntCodec, tx: AccessListTx): (data: seq<byte>)
  {
    EncodeFields(Flatten(AccessListTxSlots(c, tx)))
  }

  /** The integers survive their codec and every payload fits its 64-bit length prefix. */
  ghost predicate AccessListTxFits(c: IntCodec, tx: AccessListTx)
  {
    && c.CarriesOpt(tx.chainID)
    && c.CarriesOpt(tx.gasPrice)
    && |tx.to| < U64
    && c.CarriesOpt(tx.amount)
    && |tx.data| < U64
    && TuplesFit(tx.accesses)
    && |tx.v| < U64
    && |tx.r| < U64
    && |tx.s| < U64
  }

  lemma AccessListTxSlotsTaken(c: IntCodec, tx: AccessListTx)
    requires AccessListTxFits(c, tx)
    ensures SlotsTaken(AccessListSchema(c), AccessListTxSlots(c, tx))
  {
    hide DecodeAccessTuple, SlotTaken, UintSlot, BytesSlot, IntSlot, TupleSlot, TupleFits, EncodeAccessTuple;
    var s := AccessListSchema(c);
    IntTaken(c, s, 1, tx.chainID);
    UintTaken(s, 2, tx.nonce);
    IntTaken(c, s, 3, tx.gasPrice);
    UintTaken(s, 4, tx.gasLimit);
    BytesTaken(s, 5, tx.to);
    IntTaken(c, s, 6, tx.amount);
    BytesTaken(s, 7, tx.data);
    TuplesTaken(s, 8, tx.accesses);
    BytesTaken(s, 9, tx.v);
    BytesTaken(s, 10, tx.r);
    BytesTaken(s, 11, tx.s);
  }

  /** Every AccessListTx is read back from its encoding. */
  lemma AccessListTxRoundTrip(c: IntCodec, tx: AccessListTx)
    requires AccessListTxFits(c, tx)
    ensures DecodeAccessListTx(c, EncodeAccessListTx(c, tx)) == Ok(tx)
  {
    hide Scan, EncodeFields, Flatten, Only, LastOf, SlotsTaken, Slotted;
    hide Uint, Bytes, BigInt, Tuples, UintSlot, BytesSlot, IntSlot, TupleSlot, TupleFits, EncodeAccessTuple;
    var slots := AccessListTxSlots(c, tx);
    AccessListTxSlotsTaken(c, tx);
    SlotsScanned(AccessListSchema(c), slots);
    IntReadBack(c, 1, slots, tx.chainID);
    UintReadBack(2, slots, tx.nonce);
    IntReadBack(c, 3, slots, tx.gasPrice);
    UintReadBack(4, slots, tx.gasLimit);
    BytesReadBack(5, slots, tx.to);
    IntReadBack(c, 6, slots, tx.amount);
    BytesReadBack(7, slots, tx.data);
    TuplesReadBack(8, slots, tx.accesses);
    BytesReadBack(9, slots, tx.v);
    BytesReadBack(10, slots, tx.r);
    BytesReadBack(11, slots, tx.s);
  }

  // ----- DynamicFeeTx

  /** Proto3 merging of values: what is not the default wins, repeated fields concatenate. */
  function MergeDynamicFeeTx(x: DynamicFeeTx, y: DynamicFeeTx): (z: DynamicFeeTx)
  {
    DynamicFeeTx(
      MergeInt(x.chainID, y.chainID), MergeUint(x.nonce, y.nonce), MergeInt(x.gasTipCap, y.gasTipCap),
      MergeInt(x.gasFeeCap, y.gasFeeCap), MergeUint(x.gasLimit, y.gasLimit), MergeBytes(x.to, y.to),
      MergeInt(x.amount, y.amount), MergeBytes(x.data, y.data), x.accesses + y.accesses,
      MergeBytes(x.v, y.v), MergeBytes(x.r, y.r), MergeBytes(x.s, y.s))
  }

  predicate ErasesDynamicFeeTx(x: DynamicFeeTx, later: seq<Field>)
  {
    || ErasesUint(2, x.nonce, later)
    || ErasesUint(5, x.gasLimit, later)
    || ErasesBytes(6, x.to, later)
    || ErasesBytes(8, x.data, later)
    || ErasesBytes(10, x.v, later)
    || ErasesBytes(11, x.r, later)
    || ErasesBytes(12, x.s, later)
  }

  lemma PickDynamicFeeTxMerges(c: IntCodec, fs: seq<Field>, gs: seq<Field>)
    requires forall num :: num in {1, 3, 4, 7} && LastOf(num, gs).Some? ==> BigInt(c, LastOf(num, gs)).Some?
    ensures var x, y := PickDynamicFeeTx(c, fs), PickDynamicFeeTx(c, gs);
            PickDynamicFeeTx(c, fs + gs) == MergeDynamicFeeTx(x, y) <==> !ErasesDynamicFeeTx(x, gs)
  {
    hide LastOf, Only, Tuples, Uint, Bytes, BigInt, MergeUint, MergeBytes, MergeInt, ErasesUint, ErasesBytes;
    IntMerges(c, 1, fs, gs);
    UintMerges(2, fs, gs);
    IntMerges(c, 3, fs, gs);
    IntMerges(c, 4, fs, gs);
    UintMerges(5, fs, gs);
    BytesMerges(6, fs, gs);
    IntMerges(c, 7, fs, gs);
    BytesMerges(8, fs, gs);
    TuplesMerge(9, fs, gs);
    BytesMerges(10, fs, gs);
    BytesMerges(11, fs, gs);
    BytesMerges(12, fs, gs);
  }

  /**
   Decoding a complete message followed by another is merging the two results exactly when the
   second message does not spell out a default over a value of the first.
   */
  lemma DynamicFeeTxConcatIsMerge(c: IntCodec, a: seq<byte>, b: seq<byte>)
    requires WellFormed(a) && !Wraps(DynamicFeeSchema(c), a + b)
    requires DecodeDynamicFeeTx(c, a).Ok? && DecodeDynamicFeeTx(c, b).Ok?
    ensures DecodeDynamicFeeTx(c, a + b).Ok?
    ensures var x, y := DecodeDynamicFeeTx(c, a).value, DecodeDynamicFeeTx(c, b).value;
            DecodeDynamicFeeTx(c, a + b) == Ok(MergeDynamicFeeTx(x, y)) <==>
              !ErasesDynamicFeeTx(x, Taken(DynamicFeeSchema(c), b))
  {
    hide Scan, SplitFields, Wraps, LastOf, PickDynamicFeeTx, MergeDynamicFeeTx, ErasesDynamicFeeTx;
    var s := DynamicFeeSchema(c);
    var fs, gs := Scan(s, a).value, Scan(s, b).value;
    ScanConcat(s, a, b);
    forall num | num in {1, 3, 4, 7} && LastOf(num, gs).Some?
      ensures BigInt(c, LastOf(num, gs)).Some?
    {
      LastOfMember(num, gs);
      ScanTakes(s, b, LastOf(num, gs).value);
    }
    PickDynamicFeeTxMerges(c, fs, gs);
  }

  /** Only the order among occurrences of the same number matters. */
  lemma DynamicFeeTxFieldOrder(c: IntCodec, a: seq<byte>, b: seq<byte>)
    requires WellFormed(a) && WellFormed(b)
    requires forall num :: Only(num, SplitFields(a).fields) == Only(num, SplitFields(b).fields)
    ensures var x, y := DecodeDynamicFeeTx(c, a), DecodeDynamicFeeTx(c, b);
            (x.Ok? <==> y.Ok?) && (x.Ok? ==> x == y)
  {
    hide Scan, SplitFields, Select, Wraps, LastOf, Only, PickDynamicFeeTx;
    var s := DynamicFeeSchema(c);
    ScanWellFormed(s, a);
    ScanWellFormed(s, b);
    FieldOrderIsIrrelevant(s, SplitFields(a).fields, SplitFields(b).fields);
    if Scan(s, a).Ok? {
      PickDynamicFeeTxByNumber(c, Scan(s, a).value, Scan(s, b).value);
    }
  }

  lemma PickDynamicFeeTxByNumber(c: IntCodec, xs: seq<Field>, ys: seq<Field>)
    requires forall num :: Only(num, xs) == Only(num, ys)
    ensures PickDynamicFeeTx(c, xs) == PickDynamicFeeTx(c, ys)
  {
    hide LastOf, Only;
    forall num
      ensures LastOf(num, xs) == LastOf(num, ys)
    {
      LastOfOnly(num, xs);
      LastOfOnly(num, ys);
    }
  }

  function DynamicFeeTxSlots(c: IntCodec, tx: DynamicFeeTx): (slots: seq<seq<Field>>)
  {
    [ IntSlot(c, 1, tx.chainID), UintSlot(2, tx.nonce), IntSlot(c, 3, tx.gasTipCap), IntSlot(c, 4, tx.gasFeeCap),
      UintSlot(5, tx.gasLimit), BytesSlot(6, tx.to), IntSlot(c, 7, tx.amount), BytesSlot(8, tx.data),
      TupleSlot(9, tx.accesses), BytesSlot(10, tx.v), BytesSlot(11, tx.r), BytesSlot(12, tx.s) ]
  }

  function EncodeDynamicFeeTx(c: IntCodec, tx: DynamicFeeTx): (data: seq<byte>)
  {
    EncodeFields(Flatten(DynamicFeeTxSlots(c, tx)))
  }

  /** The integers survive their codec and every payload fits its 64-bit length prefix. */
  ghost predicate DynamicFeeTxFits(c: IntCodec, tx: DynamicFeeTx)
  {
    && c.CarriesOpt(tx.chainID)
    && c.CarriesOpt(tx.gasTipCap)
    && c.CarriesOpt(tx.gasFeeCap)
    && |tx.to| < U64
    && c.CarriesOpt(tx.amount)
    && |tx.data| < U64
    && TuplesFit(tx.accesses)
    && |tx.v| < U64
    && |tx.r| < U64
    && |tx.s| < U64
  }

  lemma DynamicFeeTxSlotsTaken(c: IntCodec, tx: DynamicFeeTx)
    requires DynamicFeeTxFits(c, tx)
    ensures SlotsTaken(DynamicFeeSchema(c), DynamicFeeTxSlots(c, tx))
  {
    hide DecodeAccessTuple, SlotTaken, UintSlot, BytesSlot, IntSlot, TupleSlot, TupleFits, EncodeAccessTuple;
    var s := DynamicFeeSchema(c);
    IntTaken(c, s, 1, tx.chainID);
    UintTaken(s, 2, tx.nonce);
    IntTaken(c, s, 3, tx.gasTipCap);
    IntTaken(c, s, 4, tx.gasFeeCap);
    UintTaken(s, 5, tx.gasLimit);
    BytesTaken(s, 6, tx.to);
    IntTaken(c, s, 7, tx.amount);
    BytesTaken(s, 8, tx.data);
    TuplesTaken(s, 9, tx.accesses);
    BytesTaken(s, 10, tx.v);
    BytesTaken(s, 11, tx.r);
    BytesTaken(s, 12, tx.s);
  }

  /** Every DynamicFeeTx is read back from its encoding. */
  lemma DynamicFeeTxRoundTrip(c: IntCodec, tx: DynamicFeeTx)
    requires DynamicFeeTxFits(c, tx)
    ensures DecodeDynamicFeeTx(c, EncodeDynamicFeeTx(c, tx)) == Ok(tx)
  {
    hide Scan, EncodeFields, Flatten, Only, LastOf, SlotsTaken, Slotted;
    hide Uint, Bytes, BigInt, Tuples, UintSlot, BytesSlot, IntSlot, TupleSlot, TupleFits, EncodeAccessTuple;
    var slots := DynamicFeeTxSlots(c, tx);
    DynamicFeeTxSlotsTaken(c, tx);
    SlotsScanned(DynamicFeeSchema(c), slots);
    IntReadBack(c, 1, slots, tx.chainID);
    UintReadBack(2, slots, tx.nonce);
    IntReadBack(c, 3, slots, tx.gasTipCap);
    IntReadBack(c, 4, slots, tx.gasFeeCap);
    UintReadBack(5, slots, tx.gasLimit);
    BytesReadBack(6, slots, tx.to);
    IntReadBack(c, 7, slots, tx.amount);
    BytesReadBack(8, slots, tx.data);
    TuplesReadBack(9, slots, tx.accesses);
    BytesReadBack(10, slots, tx.v);
    BytesReadBack(11, slots, tx.r);
    BytesReadBack(12, slots, tx.s);
  }

  // ----- where merging values is not what happens

  /** A nonce spelled out as zero erases an earlier one, though merging the values would keep it. */
  lemma ExplicitZeroErases(c: IntCodec)
    ensures var a, b := EncodeFields([VarintField(1, 5)]), EncodeFields([VarintField(1, 0)]);
            && WellFormed(a) && DecodeLegacyTx(c, a).Ok? && DecodeLegacyTx(c, b).Ok? && DecodeLegacyTx(c, a + b).Ok?
            && DecodeLegacyTx(c, a + b).value.nonce == 0
            && MergeLegacyTx(DecodeLegacyTx(c, a).value, DecodeLegacyTx(c, b).value).nonce == 5
  {
    hide Scan, EncodeFields, Only, SplitFields;
    var s, f, g := LegacySchema(c), VarintField(1, 5), VarintField(1, 0);
    SplitInvertsEncode([f]);
    EncodeFieldsConcat([f], [g]);
    assert [f] + [g] == [f, g];
    SelectAll(s, [f]);
    SelectAll(s, [g]);
    SelectAll(s, [f, g]);
    ScanEncoded(s, [f]);
    ScanEncoded(s, [g]);
    ScanEncoded(s, [f, g]);
  }

  /** A fixed64 field of unknown number cut short after its tag is accepted, and swallows the nonce that follows. */
  lemma CutShortSwallowsNonce(c: IntCodec)
    ensures !WellFormed([121]) && DecodeLegacyTx(c, [121]).Ok?
    ensures DecodeLegacyTx(c, [121] + [8, 5]).Ok? && DecodeLegacyTx(c, [121] + [8, 5]).value.nonce == 0
    ensures DecodeLegacyTx(c, [8, 5]).Ok? && DecodeLegacyTx(c, [8, 5]).value.nonce == 5
  {
    hide Scan, ParseField, Only;
    Swallowed(c, []);
    Swallowed(c, [8, 5]);
    assert [121] + [] == [121];
    NonceFive(c);
  }

  /** 121 is the tag of a fixed64 field number 15: it skips the eight bytes after it, there or not. */
  lemma Swallowed(c: IntCodec, rest: seq<byte>)
    requires |rest| < 8
    ensures ParseField([121] + rest).None? && Scan(LegacySchema(c), [121] + rest) == Ok([])
  {
    hide DecodeVarint, ParseField, Scan;
    OneByteVarint(121, rest);
    CutFixed64(LegacySchema(c), [121] + rest, 121);
  }

  lemma CutFixed64(s: Schema, data: seq<byte>, tag: uint64)
    requires DecodeVarint(data) == (tag, 1) && tag % 8 == 1 && |data| < 9
    requires s.action(tag / 8, 1).Skip? && !s.laxVarint
    ensures ParseField(data).None? && Scan(s, data) == Ok([])
  {
    hide DecodeVarint, Scan, SplitFields;
    SplitNone(data);
    assert data[0..] == data;
    ScanUnwrapped(s, data);
    ThenNothing(Ok([]));
  }

  lemma NonceFive(c: IntCodec)
    ensures DecodeLegacyTx(c, [8, 5]).Ok? && DecodeLegacyTx(c, [8, 5]).value.nonce == 5
  {
    hide Scan, Only, SplitFields;
    var s, f := LegacySchema(c), VarintField(1, 5);
    assert EncodeField(f) == [8] + [5];
    assert EncodeFields([f]) == [8, 5] by {
      assert [f][1..] == [];
    }
    SelectAll(s, [f]);
    ScanEncoded(s, [f]);
  }

  // ----- where the index wraps around

  /** No access tuple of the message, in field number num, has a length that wraps around. */
  ghost predicate TuplesUnwrapped(num: nat, data: seq<byte>)
  {
    forall f :: f in SplitFields(data).fields && f.num == num ==> !Wraps(TupleSchema(), Payload(f))
  }

  /** The decoders return a transaction or an error on every input in which no length wraps around. */
  lemma DecodersReturn(c: IntCodec, data: seq<byte>)
    ensures !Wraps(LegacySchema(c), data) ==> DecodeLegacyTx(c, data).Ok? || DecodeLegacyTx(c, data).Err?
    ensures !Wraps(AccessListSchema(c), data) && TuplesUnwrapped(8, data) ==>
              DecodeAccessListTx(c, data).Ok? || DecodeAccessListTx(c, data).Err?
    ensures !Wraps(DynamicFeeSchema(c), data) && TuplesUnwrapped(9, data) ==>
              DecodeDynamicFeeTx(c, data).Ok? || DecodeDynamicFeeTx(c, data).Err?
  {
    hide Scan, Wraps, SplitFields, DecodeAccessTuple;
    forall f | f in SplitFields(data).fields && !Wraps(TupleSchema(), Payload(f))
      ensures DecodeAccessTuple(Payload(f)).Ok? || DecodeAccessTuple(Payload(f)).Err?
    {
      TupleReturns(Payload(f));
    }
    if !Wraps(LegacySchema(c), data) {
      ReturnsUnlessWrapped(LegacySchema(c), data);
    }
    if !Wraps(AccessListSchema(c), data) && TuplesUnwrapped(8, data) {
      ReturnsUnlessWrapped(AccessListSchema(c), data);
    }
    if !Wraps(DynamicFeeSchema(c), data) && TuplesUnwrapped(9, data) {
      ReturnsUnlessWrapped(DynamicFeeSchema(c), data);
    }
  }

  lemma TupleReturns(data: seq<byte>)
    requires !Wraps(TupleSchema(), data)
    ensures DecodeAccessTuple(data).Ok? || DecodeAccessTuple(data).Err?
  {
    hide Scan, Wraps, SplitFields;
    ReturnsUnlessWrapped(TupleSchema(), data);
  }

  /** Eleven bytes on which `unmarshalLegacyTx` goes round for ever: an unknown field that declares 2^64 - 11 bytes. */
  lemma LegacyTxNeverReturns(c: IntCodec)
    ensures DecodeLegacyTx(c, [122, 245, 255, 255, 255, 255, 255, 255, 255, 255, 1]).Hang?
  {
    hide Scan, EncodeVarint;
    NothingWellFormed();
    ScanNothing(LegacySchema(c));
    LoopBytes();
    assert LoopHead(15, 0) == [122] + [245, 255, 255, 255, 255, 255, 255, 255, 255, 1];
    NeverReturns(LegacySchema(c), [], [], 15, []);
    assert [] + ([] + (LoopHead(15, 0) + [])) == [122, 245, 255, 255, 255, 255, 255, 255, 255, 255, 1];
  }

  lemma ScanNothing(s: Schema)
    ensures Scan(s, []) == Ok([])
  {
    ScanOver(s, [], 0);
  }

  /** The bytes of the tag and the length. */
  lemma LoopBytes()
    ensures EncodeVarint(122) == [122]
    ensures EncodeVarint(0xFFFF_FFFF_FFFF_FFF5) == [245, 255, 255, 255, 255, 255, 255, 255, 255, 1]
  {
    hide EncodeVarint;
    EncodesTo(122, [], 0);
    EncodesTo(1, [], 0);
    EncodesTo(0xff, [1], 0x1);
    EncodesTo(0x7fff, [255, 1], 0xff);
    EncodesTo(0x3fffff, [255, 255, 1], 0x7fff);
    EncodesTo(0x1fffffff, [255, 255, 255, 1], 0x3fffff);
    EncodesTo(0xfffffffff, [255, 255, 255, 255, 1], 0x1fffffff);
    EncodesTo(0x7ffffffffff, [255, 255, 255, 255, 255, 1], 0xfffffffff);
    EncodesTo(0x3ffffffffffff, [255, 255, 255, 255, 255, 255, 1], 0x7ffffffffff);
    EncodesTo(0x1ffffffffffffff, [255, 255, 255, 255, 255, 255, 255, 1], 0x3ffffffffffff);
    EncodesTo(0xfffffffffffffff5, [255, 255, 255, 255, 255, 255, 255, 255, 1], 0x1ffffffffffffff);
  }

  lemma EncodesTo(v: nat, rest: seq<byte>, high: nat)
    requires high == v / 128 && (high > 0 ==> EncodeVarint(high) == rest) && (high == 0 ==> rest == [])
    ensures EncodeVarint(v) == [if high == 0 then v else v % 128 + 128] + rest
  {
  }

  /** b alone steps to before its start; after a, the same step reads a payload of a as a field. */
  lemma WrapBreaksConcat(c: IntCodec)
    ensures var s, a, b := LegacySchema(c), [34, 2, 122, 20], [122] + EncodeVarint(0xFFFF_FFFF_FFFF_FFF3);
            WellFormed(a) && Scan(s, a).Ok? && Scan(s, b).Panic? && Scan(s, a + b).Ok?
  {
    hide Scan, ScanFrom, EncodeVarint, DecodeVarint, SplitFields, ParseField, Select, Wraps;
    var s, a, b := LegacySchema(c), [34, 2, 122, 20], [122] + EncodeVarint(0xFFFF_FFFF_FFFF_FFF3);
    var f := LenField(4, [122, 20]);
    ToField();
    SplitInvertsEncode([f]);
    SelectSingle(s, f);
    ScanEncoded(s, [f]);
    BackwardStep(s, [], b);
    BackwardStep(s, a, b);
    assert [] + b == b;
    SplitNone(b);
    SplitConcat(a, b);
    SplitAndScan(s, b);
    SplitAndScan(s, a + b);
    assert SplitFields(a + b).fields == [f] && SplitFields(a + b).tail == b;
    assert (a + b)[..4] == a;
    ReadsPayload(s, a + b);
    BeforeStart(s, b);
    NothingSelected(s);
    assert SplitFields(b).fields == [];
    assert TailStart(b) == 0 && TailStart(a + b) == 4;
  }

  lemma NothingSelected(s: Schema)
    ensures Select(s, []) == Ok([])
  {
  }

  lemma ToField()
    ensures EncodeFields([LenField(4, [122, 20])]) == [34, 2, 122, 20]
  {
    var f := LenField(4, [122, 20]);
    assert EncodeField(f) == [34] + [2] + [122, 20];
    assert [f][1..] == [];
  }

  /** The field b of number 15 declares 2^64 - 13 bytes: two less than its own head takes back. */
  lemma BackwardStep(s: Schema, a: seq<byte>, b: seq<byte>)
    requires s.action(15, 2).Skip? && |a| <= 4 && b == [122] + EncodeVarint(0xFFFF_FFFF_FFFF_FFF3)
    ensures ParseField(b).None?
    ensures |b| == 11 && ScanFrom(s, a + b, |a|) == ScanFrom(s, a + b, |a| - 2)
  {
    hide ScanFrom, EncodeVarint, DecodeVarint, ReadBody, ParseField, Next;
    BackwardReads(b);
    var data, p := a + b, |a|;
    assert data[p..] == b && data[p + 1..] == b[1..];
    ScanTurn(s, data, p);
    BackwardNext(s, data, p);
    ThenNothing(ScanFrom(s, data, p - 2));
  }

  lemma BackwardReads(b: seq<byte>)
    requires b == [122] + EncodeVarint(0xFFFF_FFFF_FFFF_FFF3)
    ensures |b| == 11 && DecodeVarint(b) == (122, 1) && DecodeVarint(b[1..]) == (0xFFFF_FFFF_FFFF_FFF3, 10)
    ensures ParseField(b).None?
  {
    hide EncodeVarint, DecodeVarint;
    var len := EncodeVarint(0xFFFF_FFFF_FFFF_FFF3);
    EncodedLength(0xFFFF_FFFF_FFFF_FFF3, 9);
    Pow128Nine();
    OneByteVarint(122, len);
    DecodeInvertsEncode(0xFFFF_FFFF_FFFF_FFF3, []);
    assert len + [] == len == b[1..];
  }

  lemma BackwardNext(s: Schema, data: seq<byte>, p: nat)
    requires s.action(15, 2).Skip? && p <= 4 && |data| == p + 11
    requires DecodeVarint(data[p..]) == (122, 1) && DecodeVarint(data[p + 1..]) == (0xFFFF_FFFF_FFFF_FFF3, 10)
    ensures Next(s, data, p) == Ok(Step([], p - 2, false))
  {
    hide DecodeVarint, ReadBody;
  }

  lemma BeforeStart(s: Schema, data: seq<byte>)
    ensures ScanFrom(s, data, -2) == Panic
  {
  }

  /** Index 2 holds tag 122 and length 20, which skip past the end. */
  lemma ReadsPayload(s: Schema, data: seq<byte>)
    requires |data| == 15 && data[..4] == [34, 2, 122, 20] && s.action(15, 2).Skip?
    ensures ScanFrom(s, data, 2) == Ok([])
  {
    hide ScanFrom, DecodeVarint;
    assert data[2..] == [122] + data[3..] && data[3..] == [20] + data[4..];
    OneByteVarint(122, data[3..]);
    OneByteVarint(20, data[4..]);
    ScanTurn(s, data, 2);
    ScanOver(s, data, 24);
    ThenNothing(Ok([]));
  }
}
