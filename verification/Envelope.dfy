/**
 The way from the bytes of a Cosmos transaction to an old-format Ethereum transaction: field
 extraction, the Any and MsgEthereumTx decoders, and the choice of the transaction decoder.
 */
module Envelope {
  import opened Common
  import opened Loops
  import opened Varint
  import opened Wire
  import opened Scanner
  import opened LegacyTx
  import opened LegacyLaws

  datatype Any = Any(typeUrl: seq<byte>, value: seq<byte>)

  /** `size` holds the eight bytes of the double as they stand; an absent size is empty. */
  datatype MsgEthereumTx = MsgEthereumTx(data: Option<Any>, size: seq<byte>, hash: seq<byte>, from: seq<byte>)

  datatype Inner =
    | Legacy(legacy: LegacyTx)
    | AccessList(accessList: AccessListTx)
    | DynamicFee(dynamicFee: DynamicFeeTx)

  // ----- extracting one field

  /** What `extractProtoField` returns for a field: a varint as its bytes, the rest as their payload. */
  function RawBytes(f: Field, body: seq<byte>, k: nat): (b: seq<byte>)
    requires k <= |body|
  {
    match f
    case VarintField(_, _) => body[..k]
    case Fixed64Field(_, bits) => bits
    case LenField(_, payload) => payload
    case Fixed32Field(_, bits) => bits
  }

  predicate Matches(f: Field, num: nat, wt: nat)
  {
    f.num == num && f.WireType() == wt
  }

  /** What the loop of `extractProtoField` does after a tag that ends at i. */
  function ExtractBody(data: seq<byte>, num: nat, wt: nat, fieldNum: nat, wireType: nat, i: nat)
    : (r: Outcome<Step<seq<byte>>>)
    requires i <= |data|
  {
    var body := data[i..];
    var wanted := fieldNum == num && wireType == wt;
    match ReadBody(fieldNum, wireType, body)
    case Some((f, k)) => Ok(if wanted then Step([RawBytes(f, body, k)], i + k, true) else Step([], i + k, false))
    case None =>
      if !Overruns(wireType, body, i) then Err
      else if wanted then Panic
      else Ok(Step([], GoInt(i + Extent(wireType, body).value), false))
  }

  function ExtractNext(data: seq<byte>, num: nat, wt: nat, i: nat): (r: Outcome<Step<seq<byte>>>)
  {
    if i >= |data| then Err else
    var (tag, n) := DecodeVarint(data[i..]);
    if n == 0 then Err else ExtractBody(data, num, wt, tag / 8, tag % 8, i + n)
  }

  function Extractor(data: seq<byte>, num: nat, wt: nat): (t: Turn<seq<byte>>)
  {
    (i: nat) => ExtractNext(data, num, wt, i)
  }

  /** What a loop that found something, or came to the end, returns. */
  function Found(r: Outcome<seq<seq<byte>>>): (q: Outcome<seq<byte>>)
  {
    var bs :- r;
    if bs == [] then Err else Ok(bs[0])
  }

  function ExtractFrom(data: seq<byte>, num: nat, wt: nat, i: int): (r: Outcome<seq<byte>>)
  {
    Found(From(Extractor(data, num, wt), |data|, i))
  }

  /** `extractProtoField`. */
  function Extract(data: seq<byte>, num: nat, wt: nat): (r: Outcome<seq<byte>>)
  {
    ExtractFrom(data, num, wt, 0)
  }

  function FirstMatch(fs: seq<Field>, num: nat, wt: nat): (r: Option<Field>)
  {
    if fs == [] then None
    else if Matches(fs[0], num, wt) then Some(fs[0])
    else FirstMatch(fs[1..], num, wt)
  }

  /** b is the payload of f; for a varint, some encoding of its value. */
  predicate Denotes(b: seq<byte>, f: Field)
  {
    match f
    case VarintField(_, v) => DecodeVarint(b) == (v, |b|)
    case Fixed64Field(_, bits) => b == bits
    case LenField(_, payload) => b == payload
    case Fixed32Field(_, bits) => b == bits
  }

  lemma ExtractTurn(data: seq<byte>, num: nat, wt: nat, i: nat)
    requires i < |data|
    ensures ExtractFrom(data, num, wt, i) ==
            match ExtractNext(data, num, wt, i)
            case Ok(st) => if st.stop then Found(Ok(st.out)) else ExtractFrom(data, num, wt, st.next)
            case Err => Err
            case Panic => Panic
            case Hang => Hang
  {
    hide Walk, ExtractBody, DecodeVarint;
    Unroll(Extractor(data, num, wt), |data|, i);
    if ExtractNext(data, num, wt, i).Ok? {
      NothingOrAll(data, num, wt, i);
      var rest := From(Extractor(data, num, wt), |data|, ExtractNext(data, num, wt, i).value.next);
      assert rest.Ok? ==> [] + rest.value == rest.value;
    }
  }

  lemma NothingOrAll(data: seq<byte>, num: nat, wt: nat, i: nat)
    requires ExtractNext(data, num, wt, i).Ok?
    ensures var st := ExtractNext(data, num, wt, i).value;
            !st.stop ==> st.out == []
  {
    hide DecodeVarint, ReadBody;
  }

  /** A complete field is what is asked for, or passed. */
  lemma ExtractField(data: seq<byte>, num: nat, wt: nat, i: nat)
    requires i < |data| && ParseField(data[i..]).Some?
    ensures var (f, k) := ParseField(data[i..]).value;
            var r := ExtractFrom(data, num, wt, i);
            if Matches(f, num, wt) then r.Ok? && Denotes(r.value, f) else r == ExtractFrom(data, num, wt, i + k)
  {
    hide DecodeVarint, ExtractFrom, ReadBody, RawBytes, Denotes;
    var (tag, n) := DecodeVarint(data[i..]);
    var (f, k) := ParseField(data[i..]).value;
    assert data[i..][n..] == data[i + n..];
    ExtractTurn(data, num, wt, i);
    if Matches(f, num, wt) {
      RawDenotes(f, tag / 8, tag % 8, data[i + n..], k - n);
    }
  }

  /** From a field boundary on: the first complete field asked for is found, or the complete fields are passed. */
  lemma {:induction false} ExtractFields(data: seq<byte>, num: nat, wt: nat, i: nat)
    requires i <= |data|
    ensures var sp := SplitFields(data[i..]);
            var first, r := FirstMatch(sp.fields, num, wt), ExtractFrom(data, num, wt, i);
            if first.Some? then r.Ok? && Denotes(r.value, first.value)
            else r == ExtractFrom(data, num, wt, |data| - |sp.tail|)
    decreases |data| - i
  {
    hide ExtractFrom, ParseField, Denotes;
    match ParseField(data[i..])
    case None =>
    case Some((f, k)) =>
      ExtractField(data, num, wt, i);
      assert data[i..][k..] == data[i + k..];
      var rest := SplitFields(data[i + k..]);
      assert ([f] + rest.fields)[1..] == rest.fields;
      if !Matches(f, num, wt) {
        ExtractFields(data, num, wt, i + k);
      }
  }

  /**
   On every input: extraction finds the first complete field asked for. Without one it fails, unless the
   field after the complete ones claims so much that its end wraps around: asked for, it panics;
   otherwise the search goes on from where the wrapped index points.
   */
  lemma ExtractFindsFirst(data: seq<byte>, num: nat, wt: nat)
    ensures var first := FirstMatch(SplitFields(data).fields, num, wt);
            var r, p := Extract(data, num, wt), TailStart(data);
            var (tag, n) := DecodeVarint(data[p..]);
            && (first.Some? ==> r.Ok? && Denotes(r.value, first.value))
            && (first.None? && (n == 0 || !Overruns(tag % 8, data[p + n..], p + n)) ==> r == Err)
            && (first.None? && n > 0 && Overruns(tag % 8, data[p + n..], p + n) ==>
                  r == if tag / 8 == num && tag % 8 == wt then Panic
                       else ExtractFrom(data, num, wt, GoInt(p + n + Extent(tag % 8, data[p + n..]).value)))
  {
    hide DecodeVarint, ExtractFrom, ReadBody, RawBytes, SplitFields, FirstMatch;
    assert data[0..] == data;
    ExtractFields(data, num, wt, 0);
    var w := SplitAt(data);
    var p := TailStart(data);
    assert data[p..] == SplitFields(data).tail;
    if p < |data| {
      ExtractTurn(data, num, wt, p);
      assert data[p..][DecodeVarint(data[p..]).1..] == data[p + DecodeVarint(data[p..]).1..];
    } else {
      NothingThere(data, num, wt);
    }
  }

  lemma NothingThere(data: seq<byte>, num: nat, wt: nat)
    ensures ExtractFrom(data, num, wt, |data|) == Err && DecodeVarint(data[|data|..]).1 == 0
  {
  }

  lemma RawDenotes(f: Field, num: nat, wt: nat, body: seq<byte>, k: nat)
    requires ReadBody(num, wt, body) == Some((f, k))
    ensures Denotes(RawBytes(f, body, k), f)
  {
    if f.VarintField? {
      LenAt(body[..k], MAX_BYTES, k);
      assert body[..k][..k] == body[..k];
    }
  }

  /** `extractMsgAnyValue`: Tx field 1, TxBody field 1, Any field 2. */
  function ExtractMsgAnyValue(txBytes: seq<byte>): (r: Outcome<seq<byte>>)
  {
    var body :- Extract(txBytes, 1, 2);
    var any :- Extract(body, 1, 2);
    Extract(any, 2, 2)
  }

  /** The value of the first message is found wherever it stands among other fields. */
  lemma FirstMessageIsFound(tx: seq<Field>, body: seq<Field>, any: seq<Field>, value: seq<byte>)
    requires AllValid(tx) && AllValid(body) && AllValid(any)
    requires FirstMatch(tx, 1, 2) == Some(LenField(1, EncodeFields(body)))
    requires FirstMatch(body, 1, 2) == Some(LenField(1, EncodeFields(any)))
    requires FirstMatch(any, 2, 2) == Some(LenField(2, value))
    ensures ExtractMsgAnyValue(EncodeFields(tx)) == Ok(value)
  {
    hide EncodeFields, SplitFields, Extract, FirstMatch, DecodeVarint, Overruns;
    SplitInvertsEncode(tx);
    SplitInvertsEncode(body);
    SplitInvertsEncode(any);
    ExtractFindsFirst(EncodeFields(tx), 1, 2);
    ExtractFindsFirst(EncodeFields(body), 1, 2);
    ExtractFindsFirst(EncodeFields(any), 2, 2);
  }

  // ----- Any and MsgEthereumTx

  function AnyAction(num: nat, wt: nat): (a: Action)
  {
    if wt != 2 then Skip else if num == 1 || num == 2 then Take else Pass
  }

  function MsgAction(num: nat, wt: nat): (a: Action)
  {
    if num == 2 then Expect(wt, 1) else if num == 1 || num == 3 || num == 4 then Expect(wt, 2) else Skip
  }

  function AnySchema(): (s: Schema)
  {
    Schema(AnyAction, f => Ok(()), true, true)
  }

  function MsgSchema(): (s: Schema)
  {
    Schema(MsgAction, (f: Field) => CheckData(f), false, true)
  }

  function CheckData(f: Field): (r: Outcome<()>)
  {
    if f.num == 1 then
      var _ :- DecodeAny(Payload(f));
      Ok(())
    else Ok(())
  }

  function PickAny(fs: seq<Field>): (any: Any)
  {
    Any(Bytes(LastOf(1, fs)), Bytes(LastOf(2, fs)))
  }

  function AnyAt(last: Option<Field>): (any: Option<Any>)
  {
    if last.None? then None else
    match DecodeAny(Payload(last.value))
    case Ok(any) => Some(any)
    case _ => None
  }

  function Bits(last: Option<Field>): (b: seq<byte>)
  {
    if last.Some? && last.value.Fixed64Field? then last.value.bits else []
  }

  function PickMsg(fs: seq<Field>): (msg: MsgEthereumTx)
  {
    MsgEthereumTx(AnyAt(LastOf(1, fs)), Bits(LastOf(2, fs)), Bytes(LastOf(3, fs)), Bytes(LastOf(4, fs)))
  }

  function DecodeAny(data: seq<byte>): (r: Outcome<Any>)
  {
    var fs :- Scan(AnySchema(), data);
    Ok(PickAny(fs))
  }

  function DecodeMsg(data: seq<byte>): (r: Outcome<MsgEthereumTx>)
  {
    var fs :- Scan(MsgSchema(), data);
    Ok(PickMsg(fs))
  }

  // ----- choosing the transaction decoder

  function Ascii(s: string): (b: seq<byte>)
  {
    seq(|s|, j requires 0 <= j < |s| => s[j] as int % 256)
  }

  const LEGACY_URL := "/cosmos.evm.vm.v1.LegacyTx"
  const ACCESS_LIST_URL := "/cosmos.evm.vm.v1.AccessListTx"
  const DYNAMIC_FEE_URL := "/cosmos.evm.vm.v1.DynamicFeeTx"

  /** `legacyMsgToEthTransaction`, up to the struct it decodes. */
  function DecodeInner(c: IntCodec, any: Any): (r: Outcome<Inner>)
  {
    if any.typeUrl == Ascii(LEGACY_URL) then
      var tx :- DecodeLegacyTx(c, any.value);
      Ok(Legacy(tx))
    else if any.typeUrl == Ascii(ACCESS_LIST_URL) then
      var tx :- DecodeAccessListTx(c, any.value);
      Ok(AccessList(tx))
    else if any.typeUrl == Ascii(DYNAMIC_FEE_URL) then
      var tx :- DecodeDynamicFeeTx(c, any.value);
      Ok(DynamicFee(tx))
    else Err
  }

  /** `decodeLegacyEthTx`, up to the construction of the go-ethereum transaction. */
  function DecodeLegacyEthTx(c: IntCodec, txBytes: seq<byte>): (r: Outcome<(Inner, MsgEthereumTx)>)
  {
    var raw :- ExtractMsgAnyValue(txBytes);
    var msg :- DecodeMsg(raw);
    if msg.data.None? then Err else
    var inner :- DecodeInner(c, msg.data.value);
    Ok((inner, msg))
  }

  lemma UrlsDiffer()
    ensures Ascii(LEGACY_URL) != Ascii(ACCESS_LIST_URL)
    ensures Ascii(LEGACY_URL) != Ascii(DYNAMIC_FEE_URL)
    ensures Ascii(ACCESS_LIST_URL) != Ascii(DYNAMIC_FEE_URL)
    ensures |Ascii(LEGACY_URL)| == 26 && |Ascii(ACCESS_LIST_URL)| == |Ascii(DYNAMIC_FEE_URL)| == 30
  {
    assert Ascii(ACCESS_LIST_URL)[18] == 65;
    assert Ascii(DYNAMIC_FEE_URL)[18] == 68;
  }

  /** The three type URLs, byte by byte, lead to the three decoders, and no other does. */
  lemma DispatchExactly(c: IntCodec, url: seq<byte>, value: seq<byte>)
    ensures url == [47, 99, 111, 115, 109, 111, 115, 46, 101, 118, 109, 46, 118, 109, 46, 118, 49, 46,
                    76, 101, 103, 97, 99, 121, 84, 120] ==>
            DecodeInner(c, Any(url, value)) ==
            var r := DecodeLegacyTx(c, value); if r.Ok? then Ok(Legacy(r.value)) else r.PropagateFailure()
    ensures url == [47, 99, 111, 115, 109, 111, 115, 46, 101, 118, 109, 46, 118, 109, 46, 118, 49, 46,
                    65, 99, 99, 101, 115, 115, 76, 105, 115, 116, 84, 120] ==>
            DecodeInner(c, Any(url, value)) ==
            var r := DecodeAccessListTx(c, value); if r.Ok? then Ok(AccessList(r.value)) else r.PropagateFailure()
    ensures url == [47, 99, 111, 115, 109, 111, 115, 46, 101, 118, 109, 46, 118, 109, 46, 118, 49, 46,
                    68, 121, 110, 97, 109, 105, 99, 70, 101, 101, 84, 120] ==>
            DecodeInner(c, Any(url, value)) ==
            var r := DecodeDynamicFeeTx(c, value); if r.Ok? then Ok(DynamicFee(r.value)) else r.PropagateFailure()
    ensures url !in {
              [47, 99, 111, 115, 109, 111, 115, 46, 101, 118, 109, 46, 118, 109, 46, 118, 49, 46,
               76, 101, 103, 97, 99, 121, 84, 120],
              [47, 99, 111, 115, 109, 111, 115, 46, 101, 118, 109, 46, 118, 109, 46, 118, 49, 46,
               65, 99, 99, 101, 115, 115, 76, 105, 115, 116, 84, 120],
              [47, 99, 111, 115, 109, 111, 115, 46, 101, 118, 109, 46, 118, 109, 46, 118, 49, 46,
               68, 121, 110, 97, 109, 105, 99, 70, 101, 101, 84, 120]} ==>
            DecodeInner(c, Any(url, value)) == Err
  {
    hide Ascii, DecodeLegacyTx, DecodeAccessListTx, DecodeDynamicFeeTx;
    LegacyUrlBytes();
    AccessListUrlBytes();
    DynamicFeeUrlBytes();
    UrlsDiffer();
  }

  lemma LegacyUrlBytes()
    ensures Ascii(LEGACY_URL) ==
            [47, 99, 111, 115, 109, 111, 115, 46, 101, 118, 109, 46, 118, 109, 46, 118, 49, 46,
             76, 101, 103, 97, 99, 121, 84, 120]
  {
  }

  lemma AccessListUrlBytes()
    ensures Ascii(ACCESS_LIST_URL) ==
            [47, 99, 111, 115, 109, 111, 115, 46, 101, 118, 109, 46, 118, 109, 46, 118, 49, 46,
             65, 99, 99, 101, 115, 115, 76, 105, 115, 116, 84, 120]
  {
  }

  lemma DynamicFeeUrlBytes()
    ensures Ascii(DYNAMIC_FEE_URL) ==
            [47, 99, 111, 115, 109, 111, 115, 46, 101, 118, 109, 46, 118, 109, 46, 118, 49, 46,
             68, 121, 110, 97, 109, 105, 99, 70, 101, 101, 84, 120]
  {
  }

  /** Which field number holds what in an Any and in a message. */
  lemma AnyLayout(url: seq<byte>, value: seq<byte>)
    requires |url| < U64 && |value| < U64
    ensures DecodeAny(EncodeFields([LenField(1, url), LenField(2, value)])) == Ok(Any(url, value))
  {
    hide Scan, EncodeFields, Only, LastOf;
    var fs := [LenField(1, url), LenField(2, value)];
    LayoutScanned(AnySchema(), fs);
    NumberedRead(1, fs);
    NumberedRead(2, fs);
  }

  lemma MsgLayout(any: seq<byte>, size: seq<byte>, hash: seq<byte>, from: seq<byte>)
    requires DecodeAny(any).Ok? && |size| == 8 && |any| < U64 && |hash| < U64 && |from| < U64
    ensures DecodeMsg(EncodeFields([LenField(1, any), Fixed64Field(2, size), LenField(3, hash), LenField(4, from)])) ==
            Ok(MsgEthereumTx(Some(DecodeAny(any).value), size, hash, from))
  {
    hide Scan, EncodeFields, Only, LastOf, DecodeAny;
    var fs := [LenField(1, any), Fixed64Field(2, size), LenField(3, hash), LenField(4, from)];
    LayoutScanned(MsgSchema(), fs);
    NumberedRead(1, fs);
    NumberedRead(2, fs);
    NumberedRead(3, fs);
    NumberedRead(4, fs);
  }

  /** An Any that does not decode fails its message, as it fails itself. */
  lemma NestedAnyDecides(b: seq<byte>)
    requires |b| < U64
    ensures var any, r := DecodeAny(b), DecodeMsg(EncodeFields([LenField(1, b)]));
            (any.Ok? <==> r.Ok?) && (!any.Ok? ==> r == any.PropagateFailure())
  {
    hide Scan, EncodeFields, DecodeAny;
    ScanOne(MsgSchema(), LenField(1, b));
  }

  /** What the switches of the two wrapping messages do with a field number and a wire type. */
  lemma WrapperSwitchesExactly(num: nat, wt: nat)
    ensures AnySchema().action(num, wt) == if wt != 2 then Skip else if num == 1 || num == 2 then Take else Pass
    ensures MsgSchema().action(num, wt) ==
            if num == 0 || num > 4 then Skip else if wt == [2, 1, 2, 2][num - 1] then Take else Reject
    ensures AnySchema().laxVarint && !MsgSchema().laxVarint
  {
  }

  /** Nine bytes of length that fit after a field but not after its tag: by absolute offsets a panic, else an error. */
  lemma OffsetsDiffer()
    ensures var data := [26] + EncodeVarint(0x7FFF_FFFF_FFFF_FFF6);
            var twin := [10] + data[1..];
            DecodeMsg(data) == Panic && DecodeAny(twin) == Panic && DecodeAccessTuple(twin) == Err
  {
    hide Scan, EncodeVarint;
    EncodedLength(0x7FFF_FFFF_FFFF_FFF6, 9);
    EncodedLength(0x7FFF_FFFF_FFFF_FFF6, 8);
    Pow128Nine();
    var len := EncodeVarint(0x7FFF_FFFF_FFFF_FFF6);
    assert ([26] + len)[1..] == len;
    WrapsByOne(MsgSchema(), 26, len);
    WrapsByOne(AnySchema(), 10, len);
    WrapsByOne(TupleSchema(), 10, len);
  }

  lemma WrapsByOne(s: Schema, tag: byte, len: seq<byte>)
    requires tag < 128 && tag % 8 == 2 && s.action(tag / 8, 2).Take?
    requires len == EncodeVarint(0x7FFF_FFFF_FFFF_FFF6) && |len| == 9
    ensures Scan(s, [tag] + len) == if s.absolute then Panic else Err
  {
    hide Scan, SplitFields, EncodeVarint, DecodeVarint, ParseField, AfterWrap;
    var data := [tag] + len;
    OneByteVarint(tag, len);
    DecodeInvertsEncode(0x7FFF_FFFF_FFFF_FFF6, []);
    assert len + [] == len && data[1..] == len && data[0..] == data;
    NotComplete(data, tag);
    SplitNone(data);
    ScanTail(s, data, 0);
    ScansFromStart(s, data);
  }

  lemma ScansFromStart(s: Schema, data: seq<byte>)
    ensures Scan(s, data) == ScanFrom(s, data, 0)
  {
  }

  lemma NotComplete(data: seq<byte>, tag: byte)
    requires |data| == 10 && tag % 8 == 2 && DecodeVarint(data) == (tag, 1)
    requires DecodeVarint(data[1..]) == (0x7FFF_FFFF_FFFF_FFF6, 9)
    ensures ParseField(data).None?
  {
    hide DecodeVarint;
  }

  // ----- encodings and round trips

  function AnySlots(any: Any): (slots: seq<seq<Field>>)
  {
    [BytesSlot(1, any.typeUrl), BytesSlot(2, any.value)]
  }

  function EncodeAny(any: Any): (data: seq<byte>)
  {
    EncodeFields(Flatten(AnySlots(any)))
  }

  function MsgSlots(msg: MsgEthereumTx): (slots: seq<seq<Field>>)
  {
    [ if msg.data.Some? then [LenField(1, EncodeAny(msg.data.value))] else [],
      if msg.size == [] then [] else [Fixed64Field(2, msg.size)],
      BytesSlot(3, msg.hash),
      BytesSlot(4, msg.from) ]
  }

  function EncodeMsg(msg: MsgEthereumTx): (data: seq<byte>)
  {
    EncodeFields(Flatten(MsgSlots(msg)))
  }

  ghost predicate AnyFits(any: Any)
  {
    |any.typeUrl| < U64 && |any.value| < U64
  }

  ghost predicate MsgFits(msg: MsgEthereumTx)
  {
    && (msg.data.Some? ==> AnyFits(msg.data.value) && |EncodeAny(msg.data.value)| < U64)
    && (|msg.size| == 0 || |msg.size| == 8)
    && |msg.hash| < U64 && |msg.from| < U64
  }

  lemma AnyRoundTrip(any: Any)
    requires AnyFits(any)
    ensures DecodeAny(EncodeAny(any)) == Ok(any)
  {
    hide Scan, EncodeFields, Flatten, Only, LastOf, Slotted, SlotTaken, BytesSlot, Bytes;
    var s, slots := AnySchema(), AnySlots(any);
    BytesTaken(s, 1, any.typeUrl);
    BytesTaken(s, 2, any.value);
    SlotsScanned(s, slots);
    BytesReadBack(1, slots, any.typeUrl);
    BytesReadBack(2, slots, any.value);
  }

  lemma MsgRoundTrip(msg: MsgEthereumTx)
    requires MsgFits(msg)
    ensures DecodeMsg(EncodeMsg(msg)) == Ok(msg)
  {
    hide Scan, EncodeFields, Flatten, Only, LastOf, Slotted, BytesSlot, Bytes, DecodeAny, EncodeAny;
    var s, slots := MsgSchema(), MsgSlots(msg);
    if msg.data.Some? {
      AnyRoundTrip(msg.data.value);
    }
    assert SlotTaken(s, 1, slots[0]);
    assert SlotTaken(s, 2, slots[1]);
    BytesTaken(s, 3, msg.hash);
    BytesTaken(s, 4, msg.from);
    SlotsScanned(s, slots);
    SlotRead(1, slots, slots[0]);
    SlotRead(2, slots, slots[1]);
    BytesReadBack(3, slots, msg.hash);
    BytesReadBack(4, slots, msg.from);
  }

  function InnerAny(c: IntCodec, inner: Inner): (any: Any)
  {
    match inner
    case Legacy(tx) => Any(Ascii(LEGACY_URL), EncodeLegacyTx(c, tx))
    case AccessList(tx) => Any(Ascii(ACCESS_LIST_URL), EncodeAccessListTx(c, tx))
    case DynamicFee(tx) => Any(Ascii(DYNAMIC_FEE_URL), EncodeDynamicFeeTx(c, tx))
  }

  ghost predicate InnerFits(c: IntCodec, inner: Inner)
  {
    match inner
    case Legacy(tx) => LegacyTxFits(c, tx)
    case AccessList(tx) => AccessListTxFits(c, tx)
    case DynamicFee(tx) => DynamicFeeTxFits(c, tx)
  }

  lemma InnerRoundTrip(c: IntCodec, inner: Inner)
    requires InnerFits(c, inner)
    ensures DecodeInner(c, InnerAny(c, inner)) == Ok(inner)
  {
    hide Ascii, DecodeLegacyTx, DecodeAccessListTx, DecodeDynamicFeeTx;
    hide EncodeLegacyTx, EncodeAccessListTx, EncodeDynamicFeeTx, LegacyTxFits, AccessListTxFits, DynamicFeeTxFits;
    UrlsDiffer();
    match inner
    case Legacy(tx) => LegacyTxRoundTrip(c, tx);
    case AccessList(tx) => AccessListTxRoundTrip(c, tx);
    case DynamicFee(tx) => DynamicFeeTxRoundTrip(c, tx);
  }

  /** What the chain of decoders makes of the data that a message carries. */
  function Delivered(c: IntCodec, msg: MsgEthereumTx): (r: Outcome<(Inner, MsgEthereumTx)>)
  {
    if msg.data.None? then Err else
    var inner :- DecodeInner(c, msg.data.value);
    Ok((inner, msg))
  }

  /** The fields of a Cosmos transaction whose first message carries value, whatever other fields surround it. */
  ghost predicate Carries(tx: seq<Field>, body: seq<Field>, any: seq<Field>, value: seq<byte>)
  {
    && AllValid(tx) && AllValid(body) && AllValid(any)
    && FirstMatch(tx, 1, 2) == Some(LenField(1, EncodeFields(body)))
    && FirstMatch(body, 1, 2) == Some(LenField(1, EncodeFields(any)))
    && FirstMatch(any, 2, 2) == Some(LenField(2, value))
  }

  /** The message that a Cosmos transaction carries decides its outcome, a panic or a hang included. */
  lemma EnvelopeDelivers(c: IntCodec, msg: MsgEthereumTx, tx: seq<Field>, body: seq<Field>, any: seq<Field>)
    requires MsgFits(msg) && Carries(tx, body, any, EncodeMsg(msg))
    ensures DecodeLegacyEthTx(c, EncodeFields(tx)) == Delivered(c, msg)
  {
    hide EncodeFields, FirstMatch, EncodeMsg, DecodeMsg, ExtractMsgAnyValue, DecodeInner, MsgFits;
    FirstMessageIsFound(tx, body, any, EncodeMsg(msg));
    MsgRoundTrip(msg);
  }

  /**
   End to end: a Cosmos transaction whose first message carries an old-format Ethereum
   transaction is decoded to exactly that transaction, whatever other fields surround it.
   */
  lemma EnvelopeRoundTrip(c: IntCodec, inner: Inner, msg: MsgEthereumTx,
                          tx: seq<Field>, body: seq<Field>, any: seq<Field>)
    requires InnerFits(c, inner) && MsgFits(msg) && msg.data == Some(InnerAny(c, inner))
    requires Carries(tx, body, any, EncodeMsg(msg))
    ensures DecodeLegacyEthTx(c, EncodeFields(tx)) == Ok((inner, msg))
  {
    hide EncodeFields, EncodeMsg, DecodeInner, InnerAny, InnerFits, MsgFits, Carries, DecodeLegacyEthTx;
    EnvelopeDelivers(c, msg, tx, body, any);
    InnerRoundTrip(c, inner);
  }

  // ----- when the whole chain returns

  predicate Returns<T>(r: Outcome<T>)
  {
    r.Ok? || r.Err?
  }

  /** Extraction returns unless the field after the complete ones wraps around. */
  lemma ExtractReturns(data: seq<byte>, num: nat, wt: nat)
    requires !Overclaims(data)
    ensures Returns(Extract(data, num, wt))
  {
    hide Extract, SplitFields, FirstMatch, DecodeVarint, Denotes;
    ExtractFindsFirst(data, num, wt);
  }

  lemma AnyReturns(data: seq<byte>)
    requires !Wraps(AnySchema(), data)
    ensures Returns(DecodeAny(data))
  {
    hide Scan, Wraps, SplitFields;
    ReturnsUnlessWrapped(AnySchema(), data);
  }

  /** No length of the message or of an Any in its data field wraps around. */
  ghost predicate MsgUnwrapped(data: seq<byte>)
  {
    && !Wraps(MsgSchema(), data)
    && forall f :: f in SplitFields(data).fields && f.num == 1 ==> !Wraps(AnySchema(), Payload(f))
  }

  lemma MsgReturns(data: seq<byte>)
    requires MsgUnwrapped(data)
    ensures Returns(DecodeMsg(data))
  {
    hide Scan, Wraps, SplitFields, DecodeAny;
    forall f | f in SplitFields(data).fields
      ensures Returns(MsgSchema().check(f))
    {
      if f.num == 1 {
        AnyReturns(Payload(f));
      }
    }
    ReturnsUnlessWrapped(MsgSchema(), data);
  }

  /** No length of the transaction inside an Any wraps around. */
  ghost predicate InnerUnwrapped(c: IntCodec, any: Any)
  {
    && (any.typeUrl == Ascii(LEGACY_URL) ==> !Wraps(LegacySchema(c), any.value))
    && (any.typeUrl == Ascii(ACCESS_LIST_URL) ==>
          !Wraps(AccessListSchema(c), any.value) && TuplesUnwrapped(8, any.value))
    && (any.typeUrl == Ascii(DYNAMIC_FEE_URL) ==>
          !Wraps(DynamicFeeSchema(c), any.value) && TuplesUnwrapped(9, any.value))
  }

  lemma InnerReturns(c: IntCodec, any: Any)
    requires InnerUnwrapped(c, any)
    ensures Returns(DecodeInner(c, any))
  {
    hide Ascii, Wraps, TuplesUnwrapped, DecodeLegacyTx, DecodeAccessListTx, DecodeDynamicFeeTx;
    DecodersReturn(c, any.value);
  }

  ghost predicate MessageUnwrapped(c: IntCodec, raw: Outcome<seq<byte>>)
  {
    raw.Ok? ==>
      && MsgUnwrapped(raw.value)
      && (DecodeMsg(raw.value).Ok? && DecodeMsg(raw.value).value.data.Some? ==>
            InnerUnwrapped(c, DecodeMsg(raw.value).value.data.value))
  }

  ghost predicate AnyUnwrapped(c: IntCodec, any: Outcome<seq<byte>>)
  {
    any.Ok? ==> !Overclaims(any.value) && MessageUnwrapped(c, Extract(any.value, 2, 2))
  }

  ghost predicate BodyUnwrapped(c: IntCodec, body: Outcome<seq<byte>>)
  {
    body.Ok? ==> !Overclaims(body.value) && AnyUnwrapped(c, Extract(body.value, 1, 2))
  }

  /** At every level that the decoding of txBytes gets to, no length wraps around. */
  ghost predicate Unwrapped(c: IntCodec, txBytes: seq<byte>)
  {
    !Overclaims(txBytes) && BodyUnwrapped(c, Extract(txBytes, 1, 2))
  }

  /**
   The whole chain returns a transaction or an error on every input in which no length, at any level, wraps
   around.
   */
  lemma TransactionReturns(c: IntCodec, txBytes: seq<byte>)
    requires Unwrapped(c, txBytes)
    ensures Returns(DecodeLegacyEthTx(c, txBytes))
  {
    hide Extract, Overclaims, MsgUnwrapped, InnerUnwrapped, DecodeMsg, DecodeInner;
    ExtractReturns(txBytes, 1, 2);
    var body := Extract(txBytes, 1, 2);
    if body.Ok? {
      ExtractReturns(body.value, 1, 2);
      var any := Extract(body.value, 1, 2);
      if any.Ok? {
        ExtractReturns(any.value, 2, 2);
        var raw := Extract(any.value, 2, 2);
        if raw.Ok? {
          MsgReturns(raw.value);
          var msg := DecodeMsg(raw.value);
          if msg.Ok? && msg.value.data.Some? {
            InnerReturns(c, msg.value.data.value);
          }
        }
      }
    }
  }

  const LOOP: seq<byte> := [122, 245, 255, 255, 255, 255, 255, 255, 255, 255, 1]

  /** A message with a legacy transaction of eleven bytes. */
  function LoopMsg(): (msg: MsgEthereumTx)
  {
    MsgEthereumTx(Some(Any(Ascii(LEGACY_URL), LOOP)), [], [], [])
  }

  function Wrap(num: nat, payload: seq<byte>): (fs: seq<Field>)
  {
    [LenField(num, payload)]
  }

  /** A whole Cosmos transaction on which the decoding never ends. */
  lemma TransactionNeverReturns(c: IntCodec)
    ensures var any := Wrap(2, EncodeMsg(LoopMsg()));
            var body := Wrap(1, EncodeFields(any));
            var tx := Wrap(1, EncodeFields(body));
            DecodeLegacyEthTx(c, EncodeFields(tx)).Hang?
  {
    hide EncodeFields, EncodeMsg, DecodeLegacyEthTx, DecodeLegacyTx, Ascii, LoopMsg, MsgFits;
    var any := Wrap(2, EncodeMsg(LoopMsg()));
    var body := Wrap(1, EncodeFields(any));
    var tx := Wrap(1, EncodeFields(body));
    LoopMsgFits();
    WrapIsShort(2, EncodeMsg(LoopMsg()));
    WrapIsShort(1, EncodeFields(any));
    assert Carries(tx, body, any, EncodeMsg(LoopMsg()));
    EnvelopeDelivers(c, LoopMsg(), tx, body, any);
    LegacyTxNeverReturns(c);
    LoopDelivered(c);
  }

  lemma LoopDelivered(c: IntCodec)
    requires DecodeLegacyTx(c, LOOP).Hang?
    ensures Delivered(c, LoopMsg()).Hang?
  {
    hide DecodeLegacyTx, Ascii;
  }

  lemma WrapIsShort(num: nat, payload: seq<byte>)
    requires num < 0x2000_0000_0000_0000 && |payload| < 0x1000_0000_0000_0000
    ensures |EncodeFields(Wrap(num, payload))| <= |payload| + 20
  {
    hide EncodeVarint;
    var f := LenField(num, payload);
    assert [f][1..] == [];
    DecodeInvertsEncode(f.Tag(), []);
    DecodeInvertsEncode(|payload|, []);
  }

  lemma LoopMsgFits()
    ensures MsgFits(LoopMsg()) && |EncodeMsg(LoopMsg())| <= 97
  {
    hide EncodeVarint, Ascii;
    UrlsDiffer();
    var any := Any(Ascii(LEGACY_URL), LOOP);
    AnyIsShort(any);
    var f := LenField(1, EncodeAny(any));
    MsgOfData(any);
    WrapIsShort(1, EncodeAny(any));
  }

  lemma AnyIsShort(any: Any)
    requires |any.typeUrl| == 26 && |any.value| == 11
    ensures |EncodeAny(any)| <= 77
  {
    hide EncodeVarint, EncodeFields;
    var fs, gs := Wrap(1, any.typeUrl), Wrap(2, any.value);
    assert AnySlots(any) == [fs, gs];
    FlattenTwo(fs, gs);
    EncodeFieldsConcat(fs, gs);
    WrapIsShort(1, any.typeUrl);
    WrapIsShort(2, any.value);
  }

  lemma FlattenSnoc(slots: seq<seq<Field>>, last: seq<Field>)
    ensures Flatten(slots + [last]) == Flatten(slots) + last
  {
    assert (slots + [last])[..|slots|] == slots;
  }

  lemma FlattenTwo(fs: seq<Field>, gs: seq<Field>)
    ensures Flatten([fs, gs]) == fs + gs
  {
    hide Flatten;
    FlattenSnoc([], fs);
    FlattenSnoc([fs], gs);
    FlattenNone();
    assert [] + [fs] == [fs] && [fs] + [gs] == [fs, gs];
  }

  lemma FlattenNone()
    ensures Flatten([]) == []
  {
  }

  lemma MsgOfData(any: Any)
    ensures EncodeMsg(MsgEthereumTx(Some(any), [], [], [])) == EncodeFields(Wrap(1, EncodeAny(any)))
  {
    hide EncodeFields, EncodeAny, Flatten;
    var fs: seq<Field>, none: seq<Field> := Wrap(1, EncodeAny(any)), [];
    var slots := MsgSlots(MsgEthereumTx(Some(any), [], [], []));
    FlattenTwo(fs, none);
    FlattenSnoc([fs, none], none);
    FlattenSnoc([fs, none, none], none);
    assert [fs, none] + [none] == [fs, none, none];
    assert slots == [fs, none, none] + [none];
    assert Flatten(slots) == fs;
  }

  // ----- the loops of the source

  /** The switch of `extractProtoField`, after a tag that ends at i. */
  method ExtractAt(data: seq<byte>, num: nat, wt: nat, fieldNum: nat, wireType: nat, i: nat)
    returns (res: Outcome<Step<seq<byte>>>)
    requires i <= |data| <= INT_MAX
    ensures res == ExtractBody(data, num, wt, fieldNum, wireType, i)
  {
    hide DecodeVarint, GoInt;
    var wanted := fieldNum == num && wireType == wt;
    match wireType
    case 0 =>
      var _, k := ProtoDecodeVarint(data[i..]);
      if k == 0 { return Err; }
      return Ok(if wanted then Step([data[i..][..k]], i + k, true) else Step([], i + k, false));
    case 1 => res := ExtractFixed(data, wanted, i, 8);
    case 2 => res := ExtractLen(data, wanted, fieldNum, i);
    case 5 => res := ExtractFixed(data, wanted, i, 4);
    case _ => return Err;
  }

  /** A length and as many bytes. */
  method ExtractLen(data: seq<byte>, wanted: bool, ghost num: nat, i: nat) returns (res: Outcome<Step<seq<byte>>>)
    requires i <= |data| <= INT_MAX
    ensures res == ExtractBody(data, num, if wanted then 2 else 0, num, 2, i)
  {
    hide DecodeVarint, GoInt;
    var len, k := ProtoDecodeVarint(data[i..]);
    if k == 0 { return Err; }
    var end := GoInt(i + k + GoInt(len));
    WrapBelow(i + k, len);
    if end > |data| { return Err; }
    if wanted && end < i + k { return Panic; }
    if wanted {
      assert data[i..][k..k + len] == data[i + k..i + k + len];
      return Ok(Step([data[i + k..end]], end, true));
    }
    return Ok(Step([], end, false));
  }

  /** A fixed number of bytes. */
  method ExtractFixed(data: seq<byte>, wanted: bool, i: nat, size: nat) returns (res: Outcome<Step<seq<byte>>>)
    requires i <= |data| <= INT_MAX && size <= 8
    ensures res == if i + size <= |data| && wanted then Ok(Step([data[i..][..size]], i + size, true))
                   else if i + size <= |data| then Ok(Step([], i + size, false))
                   else if i + size <= INT_MAX then Err
                   else if wanted then Panic
                   else Ok(Step([], GoInt(i + size), false))
  {
    hide GoInt;
    WrapBelow(i, size);
    var end := GoInt(i + size);
    if end > |data| { return Err; }
    if wanted && end < i { return Panic; }
    if wanted {
      assert data[i..end] == data[i..][..size];
      return Ok(Step([data[i..end]], end, true));
    }
    return Ok(Step([], end, false));
  }

  /** The loop has come to index i by way of the indices in seen, and goal is what it leads to. */
  ghost predicate Searching(data: seq<byte>, num: nat, wt: nat, i: int, seen: set<nat>, goal: Outcome<seq<seq<byte>>>)
  {
    goal == Walk(Extractor(data, num, wt), |data|, i, seen)
  }

  lemma BeginSearch(data: seq<byte>, num: nat, wt: nat)
    ensures var goal := From(Extractor(data, num, wt), |data|, 0);
            && Searching(data, num, wt, 0, {}, goal) && Extract(data, num, wt) == Found(goal)
            && (Found(goal).Hang? <==> goal.Hang?)
  {
  }

  /** After a tag from start to i, the switch ends the loop with its outcome or leads to the next index. */
  lemma ExtractOneTurn(data: seq<byte>, num: nat, wt: nat, start: nat, seen: set<nat>, goal: Outcome<seq<seq<byte>>>,
                       tag: uint64, i: nat)
    requires start < i <= |data| && DecodeVarint(data[start..]) == (tag, i - start)
    requires Searching(data, num, wt, start, seen, goal) && !goal.Hang?
    ensures start !in seen && |Indices(|data|) - (seen + {start})| < |Indices(|data|) - seen|
    ensures var st := ExtractBody(data, num, wt, tag / 8, tag % 8, i);
            && (!st.Ok? ==> Found(goal) == st.PropagateFailure())
            && (st.Ok? && st.value.stop ==>
                  |st.value.out| == 1 && |st.value.out[0]| <= |data| && Found(goal) == Ok(st.value.out[0]))
            && (st.Ok? && !st.value.stop ==> Searching(data, num, wt, st.value.next, seen + {start}, goal))
  {
    hide DecodeVarint, Walk, Indices, ExtractBody, Extractor;
    var turn := Extractor(data, num, wt);
    WalkOver(turn, |data|, start, seen);
    WalkTurn(turn, |data|, start, seen);
    Shrinks(|data|, seen, start);
    ExtractsAfterTag(data, num, wt, start, tag, i);
    var st := ExtractBody(data, num, wt, tag / 8, tag % 8, i);
    if st.Ok? {
      RawIsShort(data, num, wt, tag / 8, tag % 8, i);
      var rest := Walk(turn, |data|, st.value.next, seen + {start});
      assert rest.Ok? ==> [] + rest.value == rest.value;
    }
  }

  lemma ExtractsAfterTag(data: seq<byte>, num: nat, wt: nat, start: nat, tag: uint64, i: nat)
    requires start < i <= |data| && DecodeVarint(data[start..]) == (tag, i - start)
    ensures Extractor(data, num, wt)(start) == ExtractBody(data, num, wt, tag / 8, tag % 8, i)
  {
    hide DecodeVarint, ExtractBody;
  }

  lemma ExtractWithoutTag(data: seq<byte>, num: nat, wt: nat, i: int, seen: set<nat>, goal: Outcome<seq<seq<byte>>>)
    requires Searching(data, num, wt, i, seen, goal) && !goal.Hang?
    ensures i >= |data| ==> Found(goal) == Err
    ensures i < 0 ==> Found(goal) == Panic
    ensures 0 <= i < |data| && DecodeVarint(data[i..]).1 == 0 ==> Found(goal) == Err
  {
    hide DecodeVarint, Walk, ExtractBody;
    WalkOver(Extractor(data, num, wt), |data|, i, seen);
    if 0 <= i < |data| {
      WalkTurn(Extractor(data, num, wt), |data|, i, seen);
    }
  }

  /** The loop of `extractProtoField`. */
  method ExtractProtoField(data: seq<byte>, targetFieldNum: nat, targetWireType: nat) returns (res: Outcome<seq<byte>>)
    requires |data| <= INT_MAX && !Extract(data, targetFieldNum, targetWireType).Hang?
    ensures res == Extract(data, targetFieldNum, targetWireType)
    ensures res.Ok? ==> |res.value| <= |data|
  {
    hide DecodeVarint, From, Walk, Indices, ExtractBody, Extractor, Searching, Extract, Found;
    var i: int := 0;
    ghost var seen: set<nat> := {};
    ghost var goal := From(Extractor(data, targetFieldNum, targetWireType), |data|, 0);
    BeginSearch(data, targetFieldNum, targetWireType);
    while i < |data|
      invariant Searching(data, targetFieldNum, targetWireType, i, seen, goal)
      decreases |Indices(|data|) - seen|
    {
      ExtractWithoutTag(data, targetFieldNum, targetWireType, i, seen, goal);
      if i < 0 { return Panic; }
      var tag, n := ProtoDecodeVarint(data[i..]);
      if n == 0 { return Err; }
      i := i + n;
      ExtractOneTurn(data, targetFieldNum, targetWireType, i - n, seen, goal, tag, i);
      var turn := ExtractAt(data, targetFieldNum, targetWireType, tag / 8, tag % 8, i);
      var step :- turn;
      if step.stop { return Ok(step.out[0]); }
      seen, i := seen + {i - n}, step.next;
    }
    ExtractWithoutTag(data, targetFieldNum, targetWireType, i, seen, goal);
    return Err;
  }

  lemma RawIsShort(data: seq<byte>, num: nat, wt: nat, fieldNum: nat, wireType: nat, i: nat)
    requires i <= |data| && ExtractBody(data, num, wt, fieldNum, wireType, i).Ok?
    ensures var st := ExtractBody(data, num, wt, fieldNum, wireType, i).value;
            if st.stop then |st.out| == 1 && |st.out[0]| <= |data| else st.out == []
  {
    hide DecodeVarint;
  }

  lemma JudgeSkipLax(s: Schema, num: nat, wt: nat, data: seq<byte>, i: nat)
    requires i <= |data| <= INT_MAX && s.action(num, wt).Skip? && s.laxVarint && wt != 2
    ensures Judge(s, num, wt, data, i) == match wt
                                          case 0 => Ok(([], i + DecodeVarint(data[i..]).1))
                                          case 1 => Ok(([], GoInt(i + 8)))
                                          case 5 => Ok(([], GoInt(i + 4)))
                                          case _ => Err
  {
    hide DecodeVarint;
  }

  lemma JudgePass(s: Schema, num: nat, data: seq<byte>, i: nat)
    requires i <= |data| <= INT_MAX && s.action(num, 2).Pass?
    ensures var (len, k) := DecodeVarint(data[i..]);
            var end := GoInt(i + k + GoInt(len));
            Judge(s, num, 2, data, i) == if k == 0 || end > |data| then Err else Ok(([], end))
  {
    hide DecodeVarint, GoInt;
    var (len, k) := DecodeVarint(data[i..]);
    WrapBelow(i + k, len);
  }

  predicate AnyWithin(any: Any, n: nat)
  {
    |any.typeUrl| <= n && |any.value| <= n
  }

  /** The body of `unmarshalAny`'s loop after a tag; fs are the fields taken before it. */
  method AnyField(any: Any, fieldNum: nat, wireType: nat, data: seq<byte>, i: nat, ghost fs: seq<Field>)
    returns (res: Outcome<(Any, int)>)
    requires any == PickAny(fs) && i <= |data| <= INT_MAX && AnyWithin(any, |data|)
    ensures var j := Judge(AnySchema(), fieldNum, wireType, data, i);
            if j.Ok? then res == Ok((PickAny(fs + j.value.0), j.value.1)) else res == j.PropagateFailure()
    ensures res.Ok? ==> AnyWithin(res.value.0, |data|)
  {
    hide Scan, Judge, ReadLenAt, DecodeVarint, LastOf, GoInt;
    ghost var s := AnySchema();
    assert fs + [] == fs;
    if wireType != 2 {
      JudgeSkipLax(s, fieldNum, wireType, data, i);
      match wireType
      case 0 =>
        var _, k := ProtoDecodeVarint(data[i..]);
        return Ok((any, i + k));
      case 1 => return Ok((any, GoInt(i + 8)));
      case 5 => return Ok((any, GoInt(i + 4)));
      case _ => return Err;
    }
    if fieldNum == 1 || fieldNum == 2 {
      JudgeLenAt(s, fieldNum, data, i);
      var be :- ReadLenAt(data, i);
      var (b, end) := be;
      LastOfSnoc(fs, LenField(fieldNum, b));
      match fieldNum
      case 1 => return Ok((any.(typeUrl := b), end));
      case 2 => return Ok((any.(value := b), end));
    }
    JudgePass(s, fieldNum, data, i);
    var len, k := ProtoDecodeVarint(data[i..]);
    if k == 0 { return Err; }
    var end := GoInt(i + k + GoInt(len));
    if end > |data| { return Err; }
    return Ok((any, end));
  }

  lemma NothingAny()
    ensures PickAny([]) == Any([], [])
  {
  }

  /** `unmarshalAny`. */
  method UnmarshalAny(data: seq<byte>) returns (res: Outcome<Any>)
    requires |data| <= INT_MAX && !DecodeAny(data).Hang?
    ensures res == DecodeAny(data)
    ensures res.Ok? ==> AnyWithin(res.value, |data|)
  {
    hide Scan, Judge, At, PickAny, AnySchema, DecodeVarint, Indices;
    var any := Any([], []);
    var i: int := 0;
    ghost var seen: set<nat>, fs: seq<Field> := {}, [];
    ghost var s := AnySchema();
    ghost var goal := Scan(s, data);
    Begin(s, data);
    NothingAny();
    while i < |data|
      invariant At(s, data, i, seen, fs, goal)
      invariant any == PickAny(fs) && AnyWithin(any, |data|)
      decreases |Indices(|data|) - seen|
    {
      if i < 0 { BelowZero(s, data, i, seen, fs, goal); return Panic; }
      var tag, n := ProtoDecodeVarint(data[i..]);
      if n == 0 { NoTag(s, data, i, seen, fs, goal); return Err; }
      i := i + n;
      OneTurn(s, data, i - n, seen, fs, goal, tag, i);
      var turn := AnyField(any, tag / 8, tag % 8, data, i, fs);
      var anyk :- turn;
      fs, seen := fs + Judge(s, tag / 8, tag % 8, data, i).value.0, seen + {i - n};
      any, i := anyk.0, anyk.1;
    }
    End(s, data, i, seen, fs, goal);
    return Ok(any);
  }

  predicate MsgWithin(msg: MsgEthereumTx, n: nat)
  {
    msg.data.Some? ==> AnyWithin(msg.data.value, n)
  }

  /** The switch of `unmarshalLegacyMsgEthereumTx`, after a tag; fs are the fields taken before it. */
  method MsgField(msg: MsgEthereumTx, fieldNum: nat, wireType: nat, data: seq<byte>, i: nat, ghost fs: seq<Field>)
    returns (res: Outcome<(MsgEthereumTx, int)>)
    requires msg == PickMsg(fs) && i <= |data| <= INT_MAX && MsgWithin(msg, |data|)
    requires !Judge(MsgSchema(), fieldNum, wireType, data, i).Hang?
    ensures var j := Judge(MsgSchema(), fieldNum, wireType, data, i);
            if j.Ok? then res == Ok((PickMsg(fs + j.value.0), j.value.1)) else res == j.PropagateFailure()
    ensures res.Ok? ==> MsgWithin(res.value.0, |data|)
  {
    hide Scan, Judge, ReadLenAt, SkipProtoField, DecodeVarint, LastOf, DecodeAny, GoInt;
    ghost var s := MsgSchema();
    if fieldNum == 1 || fieldNum == 3 || fieldNum == 4 {
      if wireType != 2 { JudgeReject(s, fieldNum, wireType, data, i); return Err; }
      JudgeLenAt(s, fieldNum, data, i);
      var be :- ReadLenAt(data, i);
      var (b, end) := be;
      LastOfSnoc(fs, LenField(fieldNum, b));
      match fieldNum
      case 1 =>
        var any :- UnmarshalAny(b);
        return Ok((msg.(data := Some(any)), end));
      case 3 => return Ok((msg.(hash := b), end));
      case 4 => return Ok((msg.(from := b), end));
    } else if fieldNum == 2 {
      if wireType != 1 { JudgeReject(s, fieldNum, wireType, data, i); return Err; }
      JudgeFixed64(s, fieldNum, data, i);
      WrapBelow(i, 8);
      if GoInt(i + 8) > |data| { return Err; }
      if |data| - i < 8 { return Panic; }
      LastOfSnoc(fs, Fixed64Field(2, data[i..i + 8]));
      return Ok((msg.(size := data[i..i + 8]), i + 8));
    } else {
      JudgeSkip(s, fieldNum, wireType, data, i);
      var k :- SkipProtoField(data[i..], wireType);
      assert fs + [] == fs;
      return Ok((msg, GoInt(i + k)));
    }
  }

  lemma NothingMsg()
    ensures PickMsg([]) == MsgEthereumTx(None, [], [], [])
  {
  }

  /** `unmarshalLegacyMsgEthereumTx`. */
  method UnmarshalLegacyMsgEthereumTx(data: seq<byte>) returns (res: Outcome<MsgEthereumTx>)
    requires |data| <= INT_MAX && !DecodeMsg(data).Hang?
    ensures res == DecodeMsg(data)
    ensures res.Ok? ==> MsgWithin(res.value, |data|)
  {
    hide Scan, Judge, At, PickMsg, MsgSchema, DecodeVarint, Indices, AnyWithin;
    var msg := MsgEthereumTx(None, [], [], []);
    var i: int := 0;
    ghost var seen: set<nat>, fs: seq<Field> := {}, [];
    ghost var s := MsgSchema();
    ghost var goal := Scan(s, data);
    Begin(s, data);
    NothingMsg();
    while i < |data|
      invariant At(s, data, i, seen, fs, goal)
      invariant msg == PickMsg(fs) && MsgWithin(msg, |data|)
      decreases |Indices(|data|) - seen|
    {
      if i < 0 { BelowZero(s, data, i, seen, fs, goal); return Panic; }
      var tag, n := ProtoDecodeVarint(data[i..]);
      if n == 0 { NoTag(s, data, i, seen, fs, goal); return Err; }
      i := i + n;
      OneTurn(s, data, i - n, seen, fs, goal, tag, i);
      var turn := MsgField(msg, tag / 8, tag % 8, data, i, fs);
      var msgk :- turn;
      fs, seen := fs + Judge(s, tag / 8, tag % 8, data, i).value.0, seen + {i - n};
      msg, i := msgk.0, msgk.1;
    }
    End(s, data, i, seen, fs, goal);
    return Ok(msg);
  }

  /** `decodeLegacyEthTx`, up to the construction of the go-ethereum transaction. */
  method DecodeTransaction(c: IntCodec, txBytes: seq<byte>) returns (res: Outcome<(Inner, MsgEthereumTx)>)
    requires |txBytes| <= INT_MAX && !DecodeLegacyEthTx(c, txBytes).Hang?
    ensures res == DecodeLegacyEthTx(c, txBytes)
  {
    hide Extract, DecodeMsg, DecodeLegacyTx, DecodeAccessListTx, DecodeDynamicFeeTx, Ascii;
    var body :- ExtractProtoField(txBytes, 1, 2);
    var any :- ExtractProtoField(body, 1, 2);
    var raw :- ExtractProtoField(any, 2, 2);
    var msg :- UnmarshalLegacyMsgEthereumTx(raw);
    if msg.data.None? { return Err; }
    var data := msg.data.value;
    if data.typeUrl == Ascii(LEGACY_URL) {
      var tx :- UnmarshalLegacyTx(c, data.value);
      return Ok((Legacy(tx), msg));
    } else if data.typeUrl == Ascii(ACCESS_LIST_URL) {
      var tx :- UnmarshalAccessListTx(c, data.value);
      return Ok((AccessList(tx), msg));
    } else if data.typeUrl == Ascii(DYNAMIC_FEE_URL) {
      var tx :- UnmarshalDynamicFeeTx(c, data.value);
      return Ok((DynamicFee(tx), msg));
    } else {
      return Err;
    }
  }
}
