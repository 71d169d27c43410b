/**
 The repository reads protobuf in two unrelated ways: the hand-written legacy decoders and the
 generated parser. On messages both are meant for they read the same fields.
 */
module ParsersAgree {
  import opened Common
  import opened Varint
  import opened Wire
  import opened Scanner
  import opened GenesisSkip
  import opened GenesisCodec

  /**
   The loop of the hand-written decoders, with the fields a generated parser knows; the repository has no
   such decoder.
   */
  function HandWritten(g: Known): (s: Schema)
  {
    Schema((num: nat, wt: nat) => Choice(g, num, wt), (f: Field) => if g.check(f) then Ok(()) else Err, false, false)
  }

  function Choice(g: Known, num: nat, wt: nat): (a: Action)
  {
    match g.want(num)
    case None => Skip
    case Some(want) => if wt == want then Take else Reject
  }

  function AsOption(r: Outcome<seq<Field>>): (q: Option<seq<Field>>)
  {
    if r.Ok? then Some(r.value) else None
  }

  /** A complete field outside groups is skipped whole by the generated code too. */
  lemma SkipsCompleteField(data: seq<byte>)
    requires ParseField(data).Some? && |data| <= INT_MAX
    ensures SkipItem(data) == Some(ParseField(data).value.1)
  {
    hide DecodeVarint, SkipGroup, SkipScalar, ReadBody;
    var (tag, n) := DecodeVarint(data);
    SkipsCompleteBody(tag / 8, tag % 8, data[n..], n);
  }

  lemma SkipsCompleteBody(num: nat, wt: nat, body: seq<byte>, before: nat)
    requires ReadBody(num, wt, body).Some? && before + |body| <= INT_MAX
    ensures wt != 3 && SkipScalar(wt, body, before) == Some(ReadBody(num, wt, body).value.1)
  {
    hide DecodeVarint;
  }

  lemma NextAgrees(g: Known, data: seq<byte>)
    requires ParseField(data).Some? && |data| <= INT_MAX && 0 < ParseField(data).value.0.num < 0x8000_0000
    ensures var (f, k) := ParseField(data).value;
            ParseNext(g, data) == match SelectOne(HandWritten(g), f)
                                  case Ok(fs) => Some((fs, k))
                                  case _ => None
  {
    hide DecodeVarint, SkipItem, ReadBody;
    SkipsCompleteField(data);
    var (tag, n) := DecodeVarint(data);
    CompleteIsNoEnd(tag / 8, tag % 8, data[n..]);
  }

  lemma CompleteIsNoEnd(num: nat, wt: nat, body: seq<byte>)
    requires ReadBody(num, wt, body).Some?
    ensures wt != 4
  {
  }

  /**
   Complete fields, none in a group, numbers below 2^31: both parsers accept the same messages and read the
   same fields.
   */
  lemma {:induction false} ParsersAgreeOn(g: Known, data: seq<byte>)
    requires WellFormed(data) && |data| <= INT_MAX
    requires forall f :: f in SplitFields(data).fields ==> 0 < f.num < 0x8000_0000
    ensures Parse(g, data) == AsOption(Select(HandWritten(g), SplitFields(data).fields))
    decreases |data|
  {
    hide ParseField, ParseNext, SelectOne;
    if data == [] {
      NothingParses();
    } else {
      var (f, k) := ParseField(data).value;
      var rest := SplitFields(data[k..]).fields;
      assert SplitFields(data).fields == [f] + rest && ([f] + rest)[1..] == rest;
      assert f in SplitFields(data).fields;
      NextAgrees(g, data);
      ParsersAgreeOn(g, data[k..]);
    }
  }

  /** A parser that knows none of the (truncated) numbers reads nothing, or refuses a number that is not positive. */
  lemma {:induction false} ParseIgnores(g: Known, data: seq<byte>)
    requires WellFormed(data) && |data| <= INT_MAX
    requires forall f :: f in SplitFields(data).fields ==> g.want(Int32(f.num)).None?
    ensures Parse(g, data) == if exists f :: f in SplitFields(data).fields && Int32(f.num) <= 0 then None else Some([])
    decreases |data|
  {
    hide ParseField, ParseNext, Int32;
    if data == [] {
      NothingParses();
    } else {
      var (f, k) := ParseField(data).value;
      var rest := SplitFields(data[k..]).fields;
      assert SplitFields(data).fields == [f] + rest;
      assert forall h :: h in [f] + rest <==> h == f || h in rest;
      NextIgnores(g, data);
      ParseIgnores(g, data[k..]);
      AppendNothing(Parse(g, data[k..]));
    }
  }

  lemma NextIgnores(g: Known, data: seq<byte>)
    requires ParseField(data).Some? && |data| <= INT_MAX && g.want(Int32(ParseField(data).value.0.num)).None?
    ensures var (f, k) := ParseField(data).value;
            ParseNext(g, data) == if Int32(f.num) <= 0 then None else Some(([], k))
  {
    hide DecodeVarint, SkipItem, ReadBody, Int32;
    SkipsCompleteField(data);
    var (tag, n) := DecodeVarint(data);
    CompleteIsNoEnd(tag / 8, tag % 8, data[n..]);
  }

  function KnowsNothing(): (g: Known)
  {
    Known(_ => None, _ => true)
  }

  /** Knows one number, and wants a wire type for it that does not exist. */
  function Refuses(num: nat): (g: Known)
  {
    Known((m: int) => if m == num then Some(7) else None, _ => true)
  }

  /**
   The two loops agree on a message of complete fields, whatever fields are known, exactly when all its
   numbers are proper.
   */
  lemma ParsersAgreeExactly(data: seq<byte>)
    requires WellFormed(data) && |data| <= INT_MAX
    ensures (forall f :: f in SplitFields(data).fields ==> 0 < f.num < 0x8000_0000) <==>
            (forall g :: Parse(g, data) == AsOption(Scan(HandWritten(g), data)))
  {
    hide Parse, Scan, SplitFields, Select, Wraps, HandWritten, Int32;
    var fs := SplitFields(data).fields;
    forall g
      ensures Scan(HandWritten(g), data) == Select(HandWritten(g), fs)
    {
      ScanWellFormed(HandWritten(g), data);
    }
    if forall f :: f in fs ==> 0 < f.num < 0x8000_0000 {
      forall g
        ensures Parse(g, data) == AsOption(Scan(HandWritten(g), data))
      {
        ParsersAgreeOn(g, data);
      }
    } else {
      var f :| f in fs && !(0 < f.num < 0x8000_0000);
      DisagreeOn(data, f);
    }
  }

  lemma DisagreeOn(data: seq<byte>, f: Field)
    requires WellFormed(data) && |data| <= INT_MAX
    requires f in SplitFields(data).fields && !(0 < f.num < 0x8000_0000)
    ensures exists g :: Parse(g, data) != AsOption(Select(HandWritten(g), SplitFields(data).fields))
  {
    hide Parse, SplitFields, Select, Int32;
    var fs := SplitFields(data).fields;
    if exists h :: h in fs && Int32(h.num) <= 0 {
      var g := KnowsNothing();
      ParseIgnores(g, data);
      SelectNothing(HandWritten(g), fs);
      assert Parse(g, data) != AsOption(Select(HandWritten(g), fs));
    } else {
      var g := Refuses(f.num);
      Int32OfZero();
      ParseIgnores(g, data);
      SelectAccepts(HandWritten(g), fs);
      WireTypes(f);
      assert !SelectOne(HandWritten(g), f).Ok?;
      assert Parse(g, data) != AsOption(Select(HandWritten(g), fs));
    }
  }

  lemma Int32OfZero()
    ensures Int32(0) == 0
  {
  }

  lemma WireTypes(f: Field)
    ensures f.WireType() != 7
  {
  }

  /**
   Five bytes of tag for number 2^32 + 1: the generated code reads the field as number 1, the minting
   address, and the hand-written loop with the same fields skips it.
   */
  lemma NumbersAlias(p: ParamsValue)
    ensures var data := EncodeFields([LenField(0x1_0000_0001, [65])]);
            && DecodeParams(p, data) == Some(p.(mintingAddress := [65]))
            && Scan(HandWritten(ParamsKnown()), data) == Ok([])
  {
    hide Scan, Parse, EncodeFields, SplitFields, ParseNext, LastOf;
    var f, g := LenField(0x1_0000_0001, [65]), LenField(1, [65]);
    var data := EncodeFields([f]);
    ScanEncoded(HandWritten(ParamsKnown()), [f]);
    SelectSingle(HandWritten(ParamsKnown()), f);
    AliasParsed();
    assert [] + [g] == [g];
    LastOfSnoc([], g);
    NoneOfNothing();
  }

  lemma NoneOfNothing()
    ensures forall num :: LastOf(num, []) == None
  {
  }

  lemma AliasParsed()
    ensures Parse(ParamsKnown(), EncodeFields([LenField(0x1_0000_0001, [65])])) == Some([LenField(1, [65])])
  {
    hide EncodeField, ParseNext, ParamsKnown;
    var f := LenField(0x1_0000_0001, [65]);
    OneField(f);
    AliasRead();
    var data := EncodeField(f);
    assert data[|data|..] == [];
    assert [LenField(1, [65])] + [] == [LenField(1, [65])];
  }

  lemma AliasRead()
    ensures var data := EncodeField(LenField(0x1_0000_0001, [65]));
            ParseNext(ParamsKnown(), data) == Some(([LenField(1, [65])], |data|))
  {
    hide DecodeVarint, EncodeVarint, ReadBody, SkipItem;
    var f, g := LenField(0x1_0000_0001, [65]), LenField(1, [65]);
    var tag, body := EncodeVarint(f.Tag()), f.Body();
    DecodeInvertsEncode(f.Tag(), body);
    BodyInvertsEncode(g, []);
    assert body + [] == body && (tag + body)[|tag|..] == body;
  }
}
