/**
 `Params` and `GenesisState` as the objects of the source: marshalling fills a buffer in place
 from its end, unmarshalling updates the fields.
 */
module GenesisMessages {
  import opened Common
  import opened Varint
  import opened Wire
  import opened GenesisSkip
  import opened GenesisCodec

  // ----- the parser's loop

  /** A parser whose index is i has read fs, and the rest of the input completes them to `goal`. */
  ghost predicate Reading(g: Known, data: seq<byte>, i: nat, fs: seq<Field>, goal: Option<seq<Field>>)
  {
    i <= |data| && goal == Append(fs, Parse(g, data[i..]))
  }

  lemma StartReading(g: Known, data: seq<byte>)
    ensures Reading(g, data, 0, [], Parse(g, data))
  {
    assert data[0..] == data;
    AppendNothing(Parse(g, data));
  }

  lemma ReadOn(g: Known, data: seq<byte>, i: nat, fs: seq<Field>, goal: Option<seq<Field>>)
    requires i < |data| && Reading(g, data, i, fs, goal)
    ensures match ParseNext(g, data[i..])
            case None => goal == None
            case Some(gk) => Reading(g, data, i + gk.1, fs + gk.0, goal)
  {
    hide ParseNext;
    var rest := data[i..];
    if ParseNext(g, rest).Some? {
      var (gs, k) := ParseNext(g, rest).value;
      assert rest[k..] == data[i + k..];
      assert Parse(g, rest) == Append(gs, Parse(g, data[i + k..]));
      AppendAppend(fs, gs, Parse(g, data[i + k..]));
    }
  }

  lemma StopReading(g: Known, data: seq<byte>, fs: seq<Field>, goal: Option<seq<Field>>)
    requires Reading(g, data, |data|, fs, goal)
    ensures goal == Some(fs)
  {
    assert data[|data|..] == [];
    assert fs + [] == fs;
  }

  /** What one turn reads, told by the kind of field. */
  lemma NextKinds(g: Known, rest: seq<byte>, tag: uint64, n: nat)
    requires n > 0 && DecodeVarint(rest) == (tag, n)
    ensures var num, wt := Int32(tag / 8), tag % 8;
            && (wt == 4 || num <= 0 ==> ParseNext(g, rest) == None)
            && (wt != 4 && num > 0 && g.want(num).None? ==>
                  ParseNext(g, rest) == match SkipItem(rest)
                                        case None => None
                                        case Some(k) => if k > |rest| then None else Some(([], k)))
            && (wt != 4 && num > 0 && g.want(num).Some? && g.want(num) != Some(wt) ==> ParseNext(g, rest) == None)
            && (wt != 4 && num > 0 && g.want(num) == Some(wt) ==>
                  match ReadBody(num, wt, rest[n..])
                  case None => ParseNext(g, rest) == None
                  case Some(fk) => ParseNext(g, rest) == if g.check(fk.0) then Some(([fk.0], n + fk.1)) else None)
  {
    hide DecodeVarint, SkipItem, ReadBody;
  }

  /** A length-delimited body, with the checks of the generated code on its length. */
  method ReadLengthDelimited(dAtA: seq<byte>, iNdEx: nat, ghost num: nat) returns (res: Option<(seq<byte>, nat)>)
    requires iNdEx <= |dAtA| <= INT_MAX
    ensures match ReadBody(num, 2, dAtA[iNdEx..])
            case None => res == None
            case Some(fk) => fk.0.LenField? && res == Some((fk.0.payload, iNdEx + fk.1))
  {
    hide DecodeVarint;
    var length := ReadVarint(dAtA, iNdEx);
    if length.None? { return None; }
    var (len, at) := length.value;
    if len > INT_MAX { return None; }
    var postIndex := at + len;
    if postIndex > INT_MAX { return None; }
    if postIndex > |dAtA| { return None; }
    assert dAtA[iNdEx..][at - iNdEx..postIndex - iNdEx] == dAtA[at..postIndex];
    return Some((dAtA[at..postIndex], postIndex));
  }

  /** The default case: skip the field that starts at preIndex. */
  method SkipUnknown(dAtA: seq<byte>, preIndex: nat) returns (res: Option<nat>)
    requires preIndex <= |dAtA| <= INT_MAX
    ensures res == match SkipItem(dAtA[preIndex..])
                   case None => None
                   case Some(k) => if preIndex + k > |dAtA| then None else Some(preIndex + k)
  {
    var skippy := SkipGenesis(dAtA[preIndex..]);
    if skippy.None? { return None; }
    if preIndex + skippy.value > |dAtA| { return None; }
    return Some(preIndex + skippy.value);
  }

  // ----- writing backwards

  lemma OneByte(t: nat)
    requires t < 128
    ensures EncodeVarint(t) == [t]
  {
  }

  lemma NoFields()
    ensures EncodeFields([]) == []
  {
  }

  lemma SlotBytes(num: nat, s: seq<byte>)
    requires num * 8 + 2 < 128
    ensures s != [] ==> EncodeFields(BytesSlot(num, s)) == [num * 8 + 2] + (EncodeVarint(|s|) + s)
    ensures s == [] ==> EncodeFields(BytesSlot(num, s)) == []
  {
    hide EncodeVarint, EncodeFields;
    NoFields();
    if s != [] {
      var f := LenField(num, s);
      OneField(f);
      OneByte(f.Tag());
      assert EncodeField(f) == [f.Tag()] + f.Body();
    }
  }

  lemma SlotUint(num: nat, v: uint64)
    requires num * 8 < 128
    ensures v != 0 ==> EncodeFields(UintSlot(num, v)) == [num * 8] + EncodeVarint(v)
    ensures v == 0 ==> EncodeFields(UintSlot(num, v)) == []
  {
    hide EncodeVarint, EncodeFields;
    NoFields();
    if v != 0 {
      OneField(VarintField(num, v));
      OneByte(num * 8);
    }
  }

  /** Between i and `end` the buffer holds `done`; elsewhere it is what it was. */
  ghost predicate Wrote(now: seq<byte>, was: seq<byte>, i: nat, end: nat, done: seq<byte>)
  {
    i <= end <= |now| == |was| && now[..i] == was[..i] && now[i..end] == done && now[end..] == was[end..]
  }

  lemma NothingWrote(was: seq<byte>, end: nat)
    requires end <= |was|
    ensures Wrote(was, was, end, end, [])
  {
  }

  /** A piece put in front of what is already written. */
  lemma PutInFront(now: seq<byte>, mid: seq<byte>, was: seq<byte>, j: nat, i: nat, end: nat, piece: seq<byte>,
                   done: seq<byte>)
    requires Wrote(mid, was, i, end, done)
    requires j <= i && |now| == |mid| && now[..j] == mid[..j] && now[j..i] == piece && now[i..] == mid[i..]
    ensures Wrote(now, was, j, end, piece + done)
  {
    assert now[..j] == mid[..i][..j];
    assert now[i..end] == mid[i..][..end - i] == done;
    assert now[end..] == mid[i..][end - i..];
    assert now[j..end] == now[j..i] + now[i..end];
  }

  /** One tag byte in front. */
  method PutTag(dAtA: array<byte>, i: nat, tag: byte, ghost was: seq<byte>, ghost end: nat,
                ghost done: seq<byte>) returns (j: nat)
    requires 1 <= i <= dAtA.Length && Wrote(dAtA[..], was, i, end, done)
    modifies dAtA
    ensures j == i - 1 && Wrote(dAtA[..], was, j, end, [tag] + done)
  {
    ghost var mid := dAtA[..];
    j := i - 1;
    dAtA[j] := tag;
    PutInFront(dAtA[..], mid, was, j, i, end, [tag], done);
  }

  /** A varint in front. */
  method PutVarint(dAtA: array<byte>, i: nat, v: uint64, ghost was: seq<byte>, ghost end: nat,
                   ghost done: seq<byte>) returns (j: nat)
    requires |EncodeVarint(v)| <= i <= dAtA.Length && Wrote(dAtA[..], was, i, end, done)
    modifies dAtA
    ensures j == i - |EncodeVarint(v)| && Wrote(dAtA[..], was, j, end, EncodeVarint(v) + done)
  {
    hide EncodeVarint, Sov;
    SovIsLength(v);
    ghost var mid := dAtA[..];
    j := EncodeVarintGenesis(dAtA, i, v);
    assert dAtA[..j] == dAtA[..][..j] && dAtA[i..] == dAtA[..][i..] && dAtA[j..i] == dAtA[..][j..i];
    PutInFront(dAtA[..], mid, was, j, i, end, EncodeVarint(v), done);
  }

  /** The bytes of a string in front. */
  method PutBytes(dAtA: array<byte>, i: nat, s: seq<byte>, ghost was: seq<byte>, ghost end: nat,
                  ghost done: seq<byte>) returns (j: nat)
    requires |s| <= i <= dAtA.Length && Wrote(dAtA[..], was, i, end, done)
    modifies dAtA
    ensures j == i - |s| && Wrote(dAtA[..], was, j, end, s + done)
  {
    ghost var mid := dAtA[..];
    j := i - |s|;
    CopyInto(dAtA, j, s);
    assert dAtA[..j] == dAtA[..][..j] && dAtA[i..] == dAtA[..][i..] && dAtA[j..i] == dAtA[..][j..i];
    PutInFront(dAtA[..], mid, was, j, i, end, s, done);
  }

  /** A string field in front, or nothing when the string is empty. */
  method PutString(dAtA: array<byte>, i: nat, num: nat, s: seq<byte>, ghost was: seq<byte>, ghost end: nat,
                   ghost done: seq<byte>)
    returns (j: nat)
    requires num * 8 + 2 < 128 && |s| < U64
    requires |EncodeFields(BytesSlot(num, s))| <= i <= dAtA.Length && Wrote(dAtA[..], was, i, end, done)
    modifies dAtA
    ensures j == i - |EncodeFields(BytesSlot(num, s))|
    ensures Wrote(dAtA[..], was, j, end, EncodeFields(BytesSlot(num, s)) + done)
  {
    hide EncodeFields, EncodeVarint, BytesSlot, Wrote;
    SlotBytes(num, s);
    j := i;
    if |s| > 0 {
      j := PutBytes(dAtA, j, s, was, end, done);
      j := PutVarint(dAtA, j, |s|, was, end, s + done);
      j := PutTag(dAtA, j, num * 8 + 2, was, end, EncodeVarint(|s|) + (s + done));
      assert [num * 8 + 2] + (EncodeVarint(|s|) + (s + done)) == [num * 8 + 2] + (EncodeVarint(|s|) + s) + done;
    } else {
      assert [] + done == done;
    }
  }

  /** A varint field in front, or nothing when the value is zero. */
  method PutUint(dAtA: array<byte>, i: nat, num: nat, v: uint64, ghost was: seq<byte>, ghost end: nat,
                 ghost done: seq<byte>)
    returns (j: nat)
    requires num * 8 < 128
    requires |EncodeFields(UintSlot(num, v))| <= i <= dAtA.Length && Wrote(dAtA[..], was, i, end, done)
    modifies dAtA
    ensures j == i - |EncodeFields(UintSlot(num, v))|
    ensures Wrote(dAtA[..], was, j, end, EncodeFields(UintSlot(num, v)) + done)
  {
    hide EncodeFields, EncodeVarint, UintSlot, Wrote;
    SlotUint(num, v);
    j := i;
    if v != 0 {
      j := PutVarint(dAtA, j, v, was, end, done);
      j := PutTag(dAtA, j, num * 8, was, end, EncodeVarint(v) + done);
      assert [num * 8] + (EncodeVarint(v) + done) == [num * 8] + EncodeVarint(v) + done;
    } else {
      assert [] + done == done;
    }
  }

  /** Go's copy(dAtA[at:], s). */
  method CopyInto(dAtA: array<byte>, at: nat, s: seq<byte>)
    requires at + |s| <= dAtA.Length
    modifies dAtA
    ensures dAtA[at..at + |s|] == s
    ensures dAtA[..at] == old(dAtA[..at]) && dAtA[at + |s|..] == old(dAtA[at + |s|..])
  {
    forall k | 0 <= k < |s| {
      dAtA[at + k] := s[k];
    }
  }

  /** The six slots of a Params message, encoded one after the other. */
  lemma EncodedInOrder(p: ParamsValue)
    ensures EncodeParams(p) ==
            EncodeFields(BytesSlot(1, p.mintingAddress)) + (EncodeFields(BytesSlot(2, p.receivingAddress))
            + (EncodeFields(BytesSlot(3, p.denom)) + (EncodeFields(BytesSlot(4, p.maxSupply))
            + (EncodeFields(BytesSlot(5, p.distributionStartDate))
            + EncodeFields(UintSlot(6, p.monthsInHalvingPeriod))))))
  {
    hide EncodeFields, BytesSlot, UintSlot;
    var s := ParamsSlots(p);
    EncodeLastSlot(s);
    EncodeLastSlot(s[..5]);
    EncodeLastSlot(s[..4]);
    EncodeLastSlot(s[..3]);
    EncodeLastSlot(s[..2]);
    EncodeLastSlot(s[..1]);
    assert s[..5][..4] == s[..4] && s[..4][..3] == s[..3] && s[..3][..2] == s[..2];
    assert s[..2][..1] == s[..1] && s[..1][..0] == [];
    NoSlots();
  }

  lemma NoSlots()
    ensures EncodeFields(Flatten([])) == []
  {
  }

  lemma EncodeLastSlot(s: seq<seq<Field>>)
    requires s != []
    ensures EncodeFields(Flatten(s)) == EncodeFields(Flatten(s[..|s| - 1])) + EncodeFields(s[|s| - 1])
  {
    hide EncodeFields;
    EncodeFieldsConcat(Flatten(s[..|s| - 1]), s[|s| - 1]);
  }

  class Params {
    var mintingAddress: seq<byte>
    var receivingAddress: seq<byte>
    var denom: seq<byte>
    var maxSupply: seq<byte>
    var distributionStartDate: seq<byte>
    var monthsInHalvingPeriod: uint64

    constructor ()
      ensures Value() == EMPTY
    {
      mintingAddress, receivingAddress, denom := [], [], [];
      maxSupply, distributionStartDate, monthsInHalvingPeriod := [], [], 0;
    }

    function Value(): (p: ParamsValue)
      reads this
    {
      ParamsValue(mintingAddress, receivingAddress, denom, maxSupply, distributionStartDate, monthsInHalvingPeriod)
    }

    /** The bytes a string field takes. */
    static method StringSize(num: nat, s: seq<byte>) returns (n: nat)
      requires num * 8 + 2 < 128
      ensures n == |EncodeFields(BytesSlot(num, s))|
    {
      SlotBytes(num, s);
      SovIsLength(|s|);
      n := 0;
      if |s| > 0 {
        n := n + (1 + |s| + Sov(|s|));
      }
    }

    /** `Params.Size` counts the bytes of the encoding. */
    method Size() returns (n: nat)
      ensures n == |EncodeParams(Value())|
    {
      hide EncodeFields, EncodeParams, Sov, BytesSlot, UintSlot;
      EncodedInOrder(Value());
      n := 0;
      var l := StringSize(1, mintingAddress);
      n := n + l;
      l := StringSize(2, receivingAddress);
      n := n + l;
      l := StringSize(3, denom);
      n := n + l;
      l := StringSize(4, maxSupply);
      n := n + l;
      l := StringSize(5, distributionStartDate);
      n := n + l;
      SlotUint(6, monthsInHalvingPeriod);
      SovIsLength(monthsInHalvingPeriod);
      if monthsInHalvingPeriod != 0 {
        n := n + (1 + Sov(monthsInHalvingPeriod));
      }
    }

    /** `Params.MarshalToSizedBuffer` on the buffer dAtA[..end]: the encoding ends exactly at `end`. */
    method MarshalToSizedBuffer(dAtA: array<byte>, end: nat) returns (n: nat)
      requires ParamsFit(Value()) && |EncodeParams(Value())| <= end <= dAtA.Length
      modifies dAtA
      ensures Value() == old(Value())
      ensures n == |EncodeParams(Value())|
      ensures Wrote(dAtA[..], old(dAtA[..]), end - n, end, EncodeParams(Value()))
    {
      hide EncodeFields, EncodeParams, BytesSlot, UintSlot, Wrote;
      var p := Value();
      EncodedInOrder(p);
      ghost var was, done: seq<byte> := dAtA[..], [];
      NothingWrote(was, end);
      var i := PutUint(dAtA, end, 6, monthsInHalvingPeriod, was, end, done);
      done := EncodeFields(UintSlot(6, p.monthsInHalvingPeriod)) + done;
      i := PutString(dAtA, i, 5, distributionStartDate, was, end, done);
      done := EncodeFields(BytesSlot(5, p.distributionStartDate)) + done;
      i := PutString(dAtA, i, 4, maxSupply, was, end, done);
      done := EncodeFields(BytesSlot(4, p.maxSupply)) + done;
      i := PutString(dAtA, i, 3, denom, was, end, done);
      done := EncodeFields(BytesSlot(3, p.denom)) + done;
      i := PutString(dAtA, i, 2, receivingAddress, was, end, done);
      done := EncodeFields(BytesSlot(2, p.receivingAddress)) + done;
      i := PutString(dAtA, i, 1, mintingAddress, was, end, done);
      done := EncodeFields(BytesSlot(1, p.mintingAddress)) + done;
      assert done == EncodeParams(p);
      n := end - i;
    }

    /** `Params.Marshal`. */
    method Marshal() returns (dAtA: array<byte>)
      requires ParamsFit(Value())
      ensures fresh(dAtA) && dAtA[..] == EncodeParams(Value())
    {
      hide EncodeParams, ParamsFit;
      var size := Size();
      dAtA := new byte[size];
      var n := MarshalToSizedBuffer(dAtA, size);
      assert dAtA[..] == dAtA[..][0..size];
    }

    /** The assignment of one known field. */
    method SetField(f: Field)
      requires 1 <= f.num <= 6 && ParamsWant(f.num) == Some(f.WireType())
      modifies this
      ensures Value() == Overlay(old(Value()), [f])
    {
      LastOfSnoc([], f);
      assert [] + [f] == [f];
      match f.num
      case 1 => mintingAddress := f.payload;
      case 2 => receivingAddress := f.payload;
      case 3 => denom := f.payload;
      case 4 => maxSupply := f.payload;
      case 5 => distributionStartDate := f.payload;
      case 6 => monthsInHalvingPeriod := f.value;
    }

    /** The body of the loop after a tag that starts at preIndex and ends at iNdEx. */
    method ReadField(dAtA: seq<byte>, preIndex: nat, iNdEx: nat, tag: uint64, ghost fs: seq<Field>,
                     ghost p: ParamsValue)
      returns (res: Option<nat>)
      requires preIndex < iNdEx <= |dAtA| <= INT_MAX && DecodeVarint(dAtA[preIndex..]) == (tag, iNdEx - preIndex)
      requires Value() == Overlay(p, fs)
      modifies this
      ensures match ParseNext(ParamsKnown(), dAtA[preIndex..])
              case None => res == None
              case Some(gk) => res == Some(preIndex + gk.1) && Value() == Overlay(p, fs + gk.0)
    {
      hide DecodeVarint, ParseNext, SkipItem, Overlay, Int32, Value;
      NextKinds(ParamsKnown(), dAtA[preIndex..], tag, iNdEx - preIndex);
      assert dAtA[preIndex..][iNdEx - preIndex..] == dAtA[iNdEx..];
      var fieldNum, wireType := Int32(tag / 8), tag % 8;
      if wireType == 4 { return None; }
      if fieldNum <= 0 { return None; }
      if 1 <= fieldNum <= 5 {
        if wireType != 2 { return None; }
        var body := ReadLengthDelimited(dAtA, iNdEx, fieldNum);
        if body.None? { return None; }
        OverlayConcat(p, fs, [LenField(fieldNum, body.value.0)]);
        SetField(LenField(fieldNum, body.value.0));
        return Some(body.value.1);
      } else if fieldNum == 6 {
        if wireType != 0 { return None; }
        var v := ReadVarint(dAtA, iNdEx);
        if v.None? { return None; }
        OverlayConcat(p, fs, [VarintField(6, v.value.0)]);
        SetField(VarintField(6, v.value.0));
        return Some(v.value.1);
      } else {
        assert fs + [] == fs;
        res := SkipUnknown(dAtA, preIndex);
      }
    }

    /** `Params.Unmarshal`; when it fails the object holds what was read before. */
    method Unmarshal(dAtA: seq<byte>) returns (ok: bool)
      requires |dAtA| <= INT_MAX
      modifies this
      ensures ok <==> DecodeParams(old(Value()), dAtA).Some?
      ensures ok ==> Value() == DecodeParams(old(Value()), dAtA).value
    {
      hide DecodeVarint, ParseNext, Parse, Overlay, Reading, ParamsKnown, Value;
      ghost var g, fs: seq<Field> := ParamsKnown(), [];
      ghost var goal, p := Parse(g, dAtA), Value();
      StartReading(g, dAtA);
      OverlayNothing(p);
      var iNdEx := 0;
      while iNdEx < |dAtA|
        invariant iNdEx <= |dAtA| && Reading(g, dAtA, iNdEx, fs, goal)
        invariant Value() == Overlay(p, fs)
        decreases |dAtA| - iNdEx
      {
        ReadOn(g, dAtA, iNdEx, fs, goal);
        var preIndex := iNdEx;
        var wire := ReadVarint(dAtA, iNdEx);
        if wire.None? { NoTagNoField(g, dAtA[preIndex..]); return false; }
        var next := ReadField(dAtA, preIndex, wire.value.1, wire.value.0, fs, p);
        if next.None? { return false; }
        fs := fs + ParseNext(g, dAtA[preIndex..]).value.0;
        iNdEx := next.value;
      }
      StopReading(g, dAtA, fs, goal);
      return true;
    }
  }

  lemma NoTagNoField(g: Known, rest: seq<byte>)
    requires DecodeVarint(rest).1 == 0
    ensures ParseNext(g, rest) == None
  {
  }

  class GenesisState {
    const params: Params

    constructor ()
      ensures fresh(params) && params.Value() == EMPTY
    {
      params := new Params();
    }

    /** `GenesisState.Size`. */
    method Size() returns (n: nat)
      ensures n == |EncodeGenesis(params.Value())|
    {
      hide EncodeParams, Sov;
      var l := params.Size();
      SovIsLength(l);
      n := 1 + l + Sov(l);
    }

    /** `GenesisState.Marshal`: the params are written first, then their length and tag in front of them. */
    method Marshal() returns (dAtA: array<byte>)
      requires ParamsFit(params.Value()) && |EncodeGenesis(params.Value())| <= INT_MAX
      ensures fresh(dAtA) && dAtA[..] == EncodeGenesis(params.Value())
    {
      hide EncodeParams, EncodeVarint, ParamsFit;
      ghost var body := EncodeParams(params.Value());
      GenesisBytes(params.Value());
      FitsPrefix(params.Value());
      var size := Size();
      dAtA := new byte[size];
      ghost var was := dAtA[..];
      var n := params.MarshalToSizedBuffer(dAtA, size);
      var i := PutVarint(dAtA, size - n, n, was, size, body);
      i := PutTag(dAtA, i, 0xa, was, size, EncodeVarint(n) + body);
      assert dAtA[..] == dAtA[..][0..size];
    }

    lemma GenesisBytes(p: ParamsValue)
      ensures EncodeGenesis(p) == [0xa] + (EncodeVarint(|EncodeParams(p)|) + EncodeParams(p))
    {
      hide EncodeParams;
    }

    /** The body of the loop after a tag that starts at preIndex and ends at iNdEx. */
    method ReadField(dAtA: seq<byte>, preIndex: nat, iNdEx: nat, tag: uint64, ghost fs: seq<Field>,
                     ghost p: ParamsValue)
      returns (res: Option<nat>)
      requires preIndex < iNdEx <= |dAtA| <= INT_MAX && DecodeVarint(dAtA[preIndex..]) == (tag, iNdEx - preIndex)
      requires ReadInTurn(p, fs) == Some(params.Value())
      modifies params
      ensures match ParseNext(GenesisKnown(), dAtA[preIndex..])
              case None => res == None
              case Some(gk) => res == Some(preIndex + gk.1) && ReadInTurn(p, fs + gk.0) == Some(params.Value())
    {
      hide DecodeVarint, ParseNext, SkipItem, Parse, Int32, Overlay, ReadInTurn;
      NextKinds(GenesisKnown(), dAtA[preIndex..], tag, iNdEx - preIndex);
      assert dAtA[preIndex..][iNdEx - preIndex..] == dAtA[iNdEx..];
      var fieldNum, wireType := Int32(tag / 8), tag % 8;
      if wireType == 4 { return None; }
      if fieldNum <= 0 { return None; }
      if fieldNum == 1 {
        if wireType != 2 { return None; }
        var msg := ReadLengthDelimited(dAtA, iNdEx, fieldNum);
        if msg.None? { return None; }
        ReadInTurnSnoc(p, fs, LenField(1, msg.value.0));
        var ok := params.Unmarshal(msg.value.0);
        if !ok { return None; }
        return Some(msg.value.1);
      } else {
        assert fs + [] == fs;
        res := SkipUnknown(dAtA, preIndex);
      }
    }

    lemma ReadInTurnSnoc(p: ParamsValue, fs: seq<Field>, f: Field)
      requires ReadInTurn(p, fs).Some?
      ensures ReadInTurn(p, fs + [f]) == DecodeParams(ReadInTurn(p, fs).value, Payload(f))
    {
      hide DecodeParams;
      assert (fs + [f])[..|fs|] == fs;
    }

    /** `GenesisState.Unmarshal`. */
    method Unmarshal(dAtA: seq<byte>) returns (ok: bool)
      requires |dAtA| <= INT_MAX
      modifies params
      ensures ok <==> DecodeGenesis(old(params.Value()), dAtA).Some?
      ensures ok ==> params.Value() == DecodeGenesis(old(params.Value()), dAtA).value
    {
      hide DecodeVarint, ParseNext, Parse, Reading, GenesisKnown, ReadInTurn;
      ghost var g, fs: seq<Field> := GenesisKnown(), [];
      ghost var goal, p := Parse(g, dAtA), params.Value();
      StartReading(g, dAtA);
      NoTurns(p);
      var iNdEx := 0;
      while iNdEx < |dAtA|
        invariant iNdEx <= |dAtA| && Reading(g, dAtA, iNdEx, fs, goal)
        invariant ReadInTurn(p, fs) == Some(params.Value())
        decreases |dAtA| - iNdEx
      {
        ReadOn(g, dAtA, iNdEx, fs, goal);
        var preIndex := iNdEx;
        var wire := ReadVarint(dAtA, iNdEx);
        if wire.None? { NoTagNoField(g, dAtA[preIndex..]); return false; }
        var next := ReadField(dAtA, preIndex, wire.value.1, wire.value.0, fs, p);
        if next.None? { return false; }
        fs := fs + ParseNext(g, dAtA[preIndex..]).value.0;
        iNdEx := next.value;
      }
      StopReading(g, dAtA, fs, goal);
      return true;
    }

    lemma NoTurns(p: ParamsValue)
      ensures ReadInTurn(p, []) == Some(p)
    {
    }
  }
}
