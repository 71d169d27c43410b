/**
 The generated codec of `Params` and `GenesisState`: a writer that fills a buffer from its end, a
 strict reader that merges into the object it is called on, and their laws.
 */
module GenesisCodec {
  import opened Common
  import opened Varint
  import opened Wire
  import opened Scanner
  import opened GenesisSkip

  datatype ParamsValue = ParamsValue(
    mintingAddress: seq<byte>, receivingAddress: seq<byte>, denom: seq<byte>, maxSupply: seq<byte>,
    distributionStartDate: seq<byte>, monthsInHalvingPeriod: uint64)

  const EMPTY := ParamsValue([], [], [], [], [], 0)

  // ----- reading a message whose known fields are listed

  /** The wire type a known field must have, and what its contents must satisfy. */
  datatype Known = Known(want: int -> Option<nat>, check: Field -> bool)

  /** Go's int32(x). */
  function Int32(x: nat): (y: int)
    ensures -0x8000_0000 <= y < 0x8000_0000
    ensures x < 0x8000_0000 ==> y == x
  {
    var low := x % 0x1_0000_0000;
    if low >= 0x8000_0000 then low - 0x1_0000_0000 else low
  }

  /** One turn of the parser: the known field read, if any, and its size. */
  function ParseNext(g: Known, data: seq<byte>): (r: Option<(seq<Field>, nat)>)
    ensures r.Some? ==> 0 < r.value.1 <= |data|
  {
    var (tag, n) := DecodeVarint(data);
    var num, wt := Int32(tag / 8), tag % 8;
    if n == 0 || wt == 4 || num <= 0 then None
    else if g.want(num).Some? then
      if g.want(num) != Some(wt) then None else
      match ReadBody(num, wt, data[n..])
      case None => None
      case Some((f, k)) => if g.check(f) then Some(([f], n + k)) else None
    else
      match SkipItem(data)
      case None => None
      case Some(k) => if k > |data| then None else Some(([], k))
  }

  function Append(fs: seq<Field>, r: Option<seq<Field>>): (q: Option<seq<Field>>)
  {
    match r
    case None => None
    case Some(gs) => Some(fs + gs)
  }

  /** The known fields of a message, in order. */
  function Parse(g: Known, data: seq<byte>): (r: Option<seq<Field>>)
    decreases |data|
  {
    if data == [] then Some([])
    else
      match ParseNext(g, data)
      case None => None
      case Some((fs, k)) => Append(fs, Parse(g, data[k..]))
  }

  // ----- laws of the strict parser

  lemma AppendAppend(fs: seq<Field>, gs: seq<Field>, r: Option<seq<Field>>)
    ensures Append(fs, Append(gs, r)) == Append(fs + gs, r)
  {
    if r.Some? {
      assert fs + (gs + r.value) == fs + gs + r.value;
    }
  }

  lemma AppendNothing(r: Option<seq<Field>>)
    ensures Append([], r) == r
  {
    if r.Some? {
      assert [] + r.value == r.value;
    }
  }

  lemma ParseNextPrefix(g: Known, a: seq<byte>, b: seq<byte>)
    requires ParseNext(g, a).Some?
    ensures ParseNext(g, a + b) == ParseNext(g, a)
  {
    hide DecodeVarint, SkipItem, ReadBody;
    DecodePrefix(a, b);
    var (tag, n) := DecodeVarint(a);
    assert (a + b)[n..] == a[n..] + b;
    if g.want(Int32(tag / 8)).Some? {
      ReadBodyPrefix(Int32(tag / 8), tag % 8, a[n..], b);
    } else {
      SkipItemPrefix(a, b);
    }
  }

  /** Concatenation: an accepted message followed by anything parses as the two in turn. */
  lemma {:induction false} ParseConcat(g: Known, a: seq<byte>, b: seq<byte>)
    requires Parse(g, a).Some?
    ensures Parse(g, a + b) == Append(Parse(g, a).value, Parse(g, b))
    decreases |a|
  {
    hide ParseNext;
    if a == [] {
      assert a + b == b;
      AppendNothing(Parse(g, b));
    } else {
      ParseNextPrefix(g, a, b);
      var (fs, k) := ParseNext(g, a).value;
      assert (a + b)[k..] == a[k..] + b;
      ParseConcat(g, a[k..], b);
      AppendAppend(fs, Parse(g, a[k..]).value, Parse(g, b));
    }
  }

  function ItemNum(it: Item): (num: nat)
  {
    match it
    case Plain(f) => f.num
    case Group(num, _, _) => num
  }

  /** The number, as the parser sees it, is legal and not one the message knows. */
  predicate Unknown(g: Known, num: nat)
  {
    Int32(num) > 0 && g.want(Int32(num)).None?
  }

  lemma ItemTag(it: Item, rest: seq<byte>)
    requires ValidItem(it)
    ensures var (tag, n) := DecodeVarint(EncodeItem(it) + rest);
            n > 0 && tag / 8 == ItemNum(it) && tag % 8 != 4
  {
    hide DecodeVarint, EncodeVarint, EncodeItems;
    match it
    case Plain(f) =>
      assert EncodeItem(it) + rest == EncodeVarint(f.Tag()) + (f.Body() + rest);
      DecodeInvertsEncode(f.Tag(), f.Body() + rest);
    case Group(num, body, endNum) =>
      var after := EncodeItems(body) + EncodeVarint(endNum * 8 + 4) + rest;
      assert EncodeItem(it) + rest == EncodeVarint(num * 8 + 3) + after;
      DecodeInvertsEncode(num * 8 + 3, after);
  }

  /** A field of unknown number, nested groups included, can stand at any field boundary. */
  lemma UnknownItemIsInvisible(g: Known, a: seq<byte>, it: Item, b: seq<byte>)
    requires Parse(g, a).Some? && ValidItem(it) && |EncodeItem(it)| <= INT_MAX
    requires Unknown(g, ItemNum(it))
    ensures Parse(g, a + EncodeItem(it) + b) == Parse(g, a + b)
  {
    hide DecodeVarint, EncodeItem, SkipItem, ReadBody, ValidItem;
    var e := EncodeItem(it);
    ItemTag(it, b);
    SkipInvertsEncode(it, b);
    assert ParseNext(g, e + b) == Some(([], |e|));
    assert (e + b)[|e|..] == b;
    assert Parse(g, e + b) == Append([], Parse(g, b));
    AppendNothing(Parse(g, b));
    assert a + e + b == a + (e + b);
    ParseConcat(g, a, e + b);
    ParseConcat(g, a, b);
  }

  /** Known fields, in any order and number, are read back from their encoding. */
  lemma {:induction false} ParseEncoded(g: Known, fs: seq<Field>)
    requires AllValid(fs)
    requires forall f :: f in fs ==> 0 < f.num < 0x8000_0000 && g.want(f.num) == Some(f.WireType()) && g.check(f)
    ensures Parse(g, EncodeFields(fs)) == Some(fs)
  {
    hide DecodeVarint, ReadBody, EncodeField, SkipItem;
    if fs == [] {
    } else {
      var f, head, rest := fs[0], EncodeField(fs[0]), EncodeFields(fs[1..]);
      assert f in fs;
      ParseInvertsEncode(f, rest);
      NextIsField(g, f, rest);
      assert (head + rest)[|head|..] == rest;
      ParseEncoded(g, fs[1..]);
      assert [f] + fs[1..] == fs;
    }
  }

  lemma NextIsField(g: Known, f: Field, rest: seq<byte>)
    requires f.Valid() && 0 < f.num < 0x8000_0000 && g.want(f.num) == Some(f.WireType()) && g.check(f)
    ensures ParseNext(g, EncodeField(f) + rest) == Some(([f], |EncodeField(f)|))
  {
    hide DecodeVarint, EncodeVarint, ReadBody, SkipItem;
    var tag, body := EncodeVarint(f.Tag()), f.Body();
    assert EncodeField(f) + rest == tag + (body + rest);
    DecodeInvertsEncode(f.Tag(), body + rest);
    assert (tag + (body + rest))[|tag|..] == body + rest;
    BodyInvertsEncode(f, rest);
  }

  /** The generated parser refuses every message that ends inside a field, known or not. */
  lemma TruncatedIsRefused(g: Known, a: seq<byte>, f: Field, k: nat)
    requires Parse(g, a).Some? && f.Valid() && 0 < f.num < 0x8000_0000
    requires 0 < k < |EncodeField(f)| <= INT_MAX
    ensures Parse(g, a + EncodeField(f)[..k]) == None
  {
    hide ParseNext, ParseField;
    var t := EncodeField(f)[..k];
    ParseConcat(g, a, t);
    NextIsCut(g, f, k);
  }

  lemma NextIsCut(g: Known, f: Field, k: nat)
    requires f.Valid() && 0 < f.num < 0x8000_0000 && 0 < k < |EncodeField(f)| <= INT_MAX
    ensures ParseNext(g, EncodeField(f)[..k]) == None
  {
    hide DecodeVarint, EncodeVarint, ReadBody, SkipGroup, Extent, SkipScalar;
    var t, n := EncodeField(f)[..k], |EncodeVarint(f.Tag())|;
    CutField(f, k);
    if k >= n {
      CutBody(f, k - n);
      CompleteExactly(f.num, f.WireType(), t[n..]);
      ScalarIsExtent(f.WireType(), t[n..], n);
    }
  }

  lemma ScalarIsExtent(wt: nat, body: seq<byte>, before: nat)
    ensures SkipScalar(wt, body, before).None? || SkipScalar(wt, body, before) == Extent(wt, body)
  {
    hide DecodeVarint;
  }

  // ----- Params

  function ParamsWant(num: int): (wt: Option<nat>)
  {
    if 1 <= num <= 5 then Some(2) else if num == 6 then Some(0) else None
  }

  function ParamsKnown(): (g: Known)
  {
    Known(ParamsWant, f => true)
  }

  /** Which numbers the two parsers know, and with which wire type. */
  lemma KnownExactly(num: int)
    ensures ParamsKnown().want(num) == if 1 <= num <= 6 then Some([2, 2, 2, 2, 2, 0][num - 1]) else None
    ensures GenesisKnown().want(num) == if num == 1 then Some(2) else None
  {
  }

  function OrBytes(last: Option<Field>, was: seq<byte>): (b: seq<byte>)
  {
    if last.Some? then Bytes(last) else was
  }

  function OrUint(last: Option<Field>, was: uint64): (v: uint64)
  {
    if last.Some? then Uint(last) else was
  }

  /** p after the fields fs have been read into it: the last occurrence of each number wins. */
  function Overlay(p: ParamsValue, fs: seq<Field>): (q: ParamsValue)
  {
    ParamsValue(
      OrBytes(LastOf(1, fs), p.mintingAddress), OrBytes(LastOf(2, fs), p.receivingAddress),
      OrBytes(LastOf(3, fs), p.denom), OrBytes(LastOf(4, fs), p.maxSupply),
      OrBytes(LastOf(5, fs), p.distributionStartDate), OrUint(LastOf(6, fs), p.monthsInHalvingPeriod))
  }

  /** `Params.Unmarshal` called on p. */
  function DecodeParams(p: ParamsValue, data: seq<byte>): (r: Option<ParamsValue>)
  {
    match Parse(ParamsKnown(), data)
    case None => None
    case Some(fs) => Some(Overlay(p, fs))
  }

  function ParamsSlots(p: ParamsValue): (slots: seq<seq<Field>>)
  {
    [ BytesSlot(1, p.mintingAddress), BytesSlot(2, p.receivingAddress), BytesSlot(3, p.denom),
      BytesSlot(4, p.maxSupply), BytesSlot(5, p.distributionStartDate), UintSlot(6, p.monthsInHalvingPeriod) ]
  }

  function EncodeParams(p: ParamsValue): (data: seq<byte>)
  {
    EncodeFields(Flatten(ParamsSlots(p)))
  }

  /** A Go object in memory: its strings, and all of them together, are shorter than an int can count. */
  ghost predicate ParamsFit(p: ParamsValue)
  {
    && |p.mintingAddress| <= INT_MAX && |p.receivingAddress| <= INT_MAX && |p.denom| <= INT_MAX
    && |p.maxSupply| <= INT_MAX && |p.distributionStartDate| <= INT_MAX
    && |EncodeParams(p)| <= INT_MAX
  }

  lemma OverlayConcat(p: ParamsValue, fs: seq<Field>, gs: seq<Field>)
    ensures Overlay(p, fs + gs) == Overlay(Overlay(p, fs), gs)
  {
    hide LastOf;
    forall num
      ensures LastOf(num, fs + gs) == if LastOf(num, gs).Some? then LastOf(num, gs) else LastOf(num, fs)
    {
      LastOfConcat(num, fs, gs);
    }
  }

  lemma OverlayNothing(p: ParamsValue)
    ensures Overlay(p, []) == p
  {
  }

  /** Reading two messages one after the other is reading their concatenation. */
  lemma ParamsMergeHomomorphism(p: ParamsValue, a: seq<byte>, b: seq<byte>)
    requires DecodeParams(p, a).Some?
    ensures DecodeParams(p, a + b) == DecodeParams(DecodeParams(p, a).value, b)
  {
    hide Parse, Overlay;
    ParseConcat(ParamsKnown(), a, b);
    if Parse(ParamsKnown(), b).Some? {
      OverlayConcat(p, Parse(ParamsKnown(), a).value, Parse(ParamsKnown(), b).value);
    }
  }

  ghost predicate ParamsSlot(num: nat, fs: seq<Field>)
  {
    Uniform(num, fs) && forall f :: f in fs ==> f.Valid() && ParamsWant(num) == Some(f.WireType())
  }

  lemma ParamsSlotsGood(p: ParamsValue)
    requires ParamsFit(p)
    ensures forall k :: 0 <= k < 6 ==> ParamsSlot(k + 1, ParamsSlots(p)[k])
  {
    hide EncodeParams;
  }

  /** What the writer produces, the reader reads back into an empty object. */
  /** Which field number holds what in the parameters. */
  lemma ParamsLayout(p: ParamsValue, minting: seq<byte>, receiving: seq<byte>, denom: seq<byte>, supply: seq<byte>,
                     start: seq<byte>, months: uint64)
    requires |minting| < U64 && |receiving| < U64 && |denom| < U64 && |supply| < U64 && |start| < U64
    ensures DecodeParams(p, EncodeFields([
              LenField(1, minting), LenField(2, receiving), LenField(3, denom), LenField(4, supply), LenField(5, start),
              VarintField(6, months)])) ==
            Some(ParamsValue(minting, receiving, denom, supply, start, months))
  {
    hide Parse, EncodeFields, LastOf, Only, Numbered;
    var fs := [LenField(1, minting), LenField(2, receiving), LenField(3, denom), LenField(4, supply),
               LenField(5, start), VarintField(6, months)];
    ParseEncoded(ParamsKnown(), fs);
    InOrder(fs);
    NumberedRead(1, fs);
    NumberedRead(2, fs);
    NumberedRead(3, fs);
    NumberedRead(4, fs);
    NumberedRead(5, fs);
    NumberedRead(6, fs);
  }

  lemma ParamsRoundTrip(p: ParamsValue)
    requires ParamsFit(p)
    ensures DecodeParams(EMPTY, EncodeParams(p)) == Some(p)
  {
    hide Parse, EncodeFields, Flatten, LastOf, Only, BytesSlot, UintSlot, ParamsFit;
    var slots := ParamsSlots(p);
    var fs := Flatten(slots);
    ParamsSlotsGood(p);
    forall f | f in fs
      ensures f.Valid() && 0 < f.num < 0x8000_0000 && ParamsWant(f.num) == Some(f.WireType())
    {
      var k := FlattenMember(slots, f);
      assert ParamsSlot(k + 1, slots[k]);
    }
    ParseEncoded(ParamsKnown(), fs);
    assert Slotted(slots) by {
      forall k | 0 <= k < |slots|
        ensures Uniform(k + 1, slots[k])
      {
        assert ParamsSlot(k + 1, slots[k]);
      }
    }
    BytesReadBack(1, slots, p.mintingAddress);
    BytesReadBack(2, slots, p.receivingAddress);
    BytesReadBack(3, slots, p.denom);
    BytesReadBack(4, slots, p.maxSupply);
    BytesReadBack(5, slots, p.distributionStartDate);
    UintReadBack(6, slots, p.monthsInHalvingPeriod);
  }

  // ----- GenesisState

  function GenesisWant(num: int): (wt: Option<nat>)
  {
    if num == 1 then Some(2) else None
  }

  function GenesisKnown(): (g: Known)
  {
    Known(GenesisWant, (f: Field) => Parse(ParamsKnown(), Payload(f)).Some?)
  }

  /** The payloads of the params fields, one after the other. */
  function Join(fs: seq<Field>): (data: seq<byte>)
  {
    if fs == [] then [] else Join(fs[..|fs| - 1]) + Payload(fs[|fs| - 1])
  }

  /** The params after each payload has been unmarshalled in turn into the same object. */
  function ReadInTurn(p: ParamsValue, fs: seq<Field>): (r: Option<ParamsValue>)
  {
    if fs == [] then Some(p)
    else
      match ReadInTurn(p, fs[..|fs| - 1])
      case None => None
      case Some(q) => DecodeParams(q, Payload(fs[|fs| - 1]))
  }

  /** `GenesisState.Unmarshal` called on a state whose params are p. */
  function DecodeGenesis(p: ParamsValue, data: seq<byte>): (r: Option<ParamsValue>)
  {
    match Parse(GenesisKnown(), data)
    case None => None
    case Some(fs) => ReadInTurn(p, fs)
  }

  function EncodeGenesis(p: ParamsValue): (data: seq<byte>)
  {
    EncodeField(LenField(1, EncodeParams(p)))
  }

  /** Several params fields amount to one whose payload is all of theirs. */
  lemma {:induction false} TurnsAreOneRead(p: ParamsValue, fs: seq<Field>)
    requires forall f :: f in fs ==> Parse(ParamsKnown(), Payload(f)).Some?
    ensures ReadInTurn(p, fs).Some? && ReadInTurn(p, fs) == DecodeParams(p, Join(fs))
  {
    hide Overlay, LastOf, ParseNext;
    if fs == [] {
      OverlayNothing(p);
    } else {
      var front, last := fs[..|fs| - 1], fs[|fs| - 1];
      assert last in fs;
      TurnsAreOneRead(p, front);
      ParamsMergeHomomorphism(p, Join(front), Payload(last));
    }
  }

  lemma {:induction false} ParseChecks(g: Known, data: seq<byte>, f: Field)
    requires Parse(g, data).Some? && f in Parse(g, data).value
    ensures g.check(f)
    decreases |data|
  {
    hide DecodeVarint, SkipItem, ReadBody;
    if data == [] {
    } else {
      var (fs, k) := ParseNext(g, data).value;
      if f !in fs {
        ParseChecks(g, data[k..], f);
      }
    }
  }

  /** Embedded messages merge: an accepted genesis is read as its joined params payloads are. */
  lemma GenesisReadsJoinedParams(p: ParamsValue, data: seq<byte>)
    requires Parse(GenesisKnown(), data).Some?
    ensures DecodeGenesis(p, data) == DecodeParams(p, Join(Parse(GenesisKnown(), data).value))
    ensures DecodeGenesis(p, data).Some?
  {
    hide Parse, ReadInTurn, DecodeParams, Join;
    var fs := Parse(GenesisKnown(), data).value;
    forall f | f in fs
      ensures Parse(ParamsKnown(), Payload(f)).Some?
    {
      ParseChecks(GenesisKnown(), data, f);
    }
    TurnsAreOneRead(p, fs);
  }

  lemma GenesisRoundTrip(p: ParamsValue)
    requires ParamsFit(p)
    ensures DecodeGenesis(EMPTY, EncodeGenesis(p)) == Some(p)
  {
    hide Parse, EncodeParams, Overlay, EncodeField, ParamsFit;
    var f := LenField(1, EncodeParams(p));
    ParamsRoundTrip(p);
    FitsPrefix(p);
    ParseEncoded(GenesisKnown(), [f]);
    OneField(f);
    assert [f][..0] == [];
    assert ReadInTurn(EMPTY, []) == Some(EMPTY);
  }

  lemma FitsPrefix(p: ParamsValue)
    requires ParamsFit(p)
    ensures |EncodeParams(p)| < U64
  {
    hide EncodeParams;
  }

  lemma OneField(f: Field)
    ensures EncodeFields([f]) == EncodeField(f)
  {
    assert [f][1..] == [];
    assert EncodeField(f) + [] == EncodeField(f);
  }
}
