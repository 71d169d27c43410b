/**
 What the hand-written legacy decoders have in common. Each of them reads tags in a loop and, by
 field number and wire type, rejects the message, takes the field, or passes over it. The decoders
 differ only in that choice, which a `Schema` records; `Scan` lists the fields a message makes a
 decoder take, with Go's 64-bit index arithmetic.
 */
module Scanner {
  import opened Common
  import opened Loops
  import opened Varint
  import opened Wire

  /** Pass: the field must be there in full, but is not looked at. Skip: not even that. */
  datatype Action = Reject | Take | Pass | Skip

  /**
   laxVarint: a varint that must be skipped but is broken ends nothing (only `unmarshalAny` does this).
   absolute: the end of a taken field is computed from the start of the message, not of the field.
   */
  datatype Schema = Schema(action: (nat, nat) -> Action, check: Field -> Outcome<()>, laxVarint: bool, absolute: bool)

  /** How many bytes the body of a field claims, which can be more than there are. */
  function Extent(wt: nat, body: seq<byte>): (r: Option<nat>)
  {
    match wt
    case 0 =>
      var (_, k) := DecodeVarint(body);
      if k == 0 then None else Some(k)
    case 1 => Some(8)
    case 2 =>
      var (len, k) := DecodeVarint(body);
      if k == 0 then None else Some(k + len)
    case 5 => Some(4)
    case _ => None
  }

  /** A field is complete exactly when it claims no more than there is. */
  lemma CompleteExactly(num: nat, wt: nat, body: seq<byte>)
    ensures var e := Extent(wt, body);
            if e.Some? && e.value <= |body| then
              ReadBody(num, wt, body).Some? && ReadBody(num, wt, body).value.1 == e.value
            else ReadBody(num, wt, body).None?
  {
    hide DecodeVarint;
  }

  /** The claim goes beyond the buffer and, counted from base, beyond the largest Go int: it wraps around. */
  predicate Overruns(wt: nat, body: seq<byte>, base: nat)
  {
    var e := Extent(wt, body);
    e.Some? && e.value > |body| && base + e.value > INT_MAX
  }

  /** What a decoder does after a tag that ends at i: the fields taken (at most one) and the next index. */
  function Judge(s: Schema, num: nat, wt: nat, data: seq<byte>, i: nat): (r: Outcome<(seq<Field>, int)>)
    requires i <= |data|
  {
    var body := data[i..];
    match s.action(num, wt)
    case Reject => Err
    case Take =>
      (match ReadBody(num, wt, body)
       case Some((f, k)) => Approve(s, f, i + k)
       case None => if Overruns(wt, body, if s.absolute then i else 0) then Panic else Err)
    case Pass =>
      (match Extent(wt, body)
       case None => Err
       case Some(e) =>
         if e <= |body| then Ok(([], i + e)) else if i + e <= INT_MAX then Err else Ok(([], GoInt(i + e))))
    case Skip =>
      if s.laxVarint && wt == 0 && DecodeVarint(body).1 == 0 then Ok(([], i))
      else
        match Extent(wt, body)
        case None => Err
        case Some(e) => Ok(([], if e <= |body| then i + e else GoInt(i + e)))
  }

  function Approve(s: Schema, f: Field, next: int): (r: Outcome<(seq<Field>, int)>)
  {
    var _ :- s.check(f);
    Ok(([f], next))
  }

  predicate Ignored(s: Schema, num: nat, wt: nat)
  {
    s.action(num, wt).Pass? || s.action(num, wt).Skip?
  }

  /** One turn of a decoder's loop. */
  function Next(s: Schema, data: seq<byte>, i: nat): (r: Outcome<Step<Field>>)
  {
    if i >= |data| then Err else
    var (tag, n) := DecodeVarint(data[i..]);
    if n == 0 then Err else
    var (fs, next) :- Judge(s, tag / 8, tag % 8, data, i + n);
    Ok(Step(fs, next, false))
  }

  function Decoder(s: Schema, data: seq<byte>): (t: Turn<Field>)
  {
    (i: nat) => Next(s, data, i)
  }

  /** The fields a decoder takes once its index is i, in order. */
  function ScanFrom(s: Schema, data: seq<byte>, i: int): (r: Outcome<seq<Field>>)
  {
    From(Decoder(s, data), |data|, i)
  }

  function Scan(s: Schema, data: seq<byte>): (r: Outcome<seq<Field>>)
  {
    ScanFrom(s, data, 0)
  }

  /** The fields of an accepted message. */
  function Taken(s: Schema, data: seq<byte>): (fs: seq<Field>)
  {
    var r := Scan(s, data);
    if r.Ok? then r.value else []
  }

  function Then(a: Outcome<seq<Field>>, b: Outcome<seq<Field>>): (r: Outcome<seq<Field>>)
  {
    if a.Ok? then Prepend(a.value, b) else a
  }

  /** What a schema makes of a list of complete fields. */
  function Select(s: Schema, fs: seq<Field>): (r: Outcome<seq<Field>>)
  {
    if fs == [] then Ok([]) else Then(SelectOne(s, fs[0]), Select(s, fs[1..]))
  }

  function SelectOne(s: Schema, f: Field): (r: Outcome<seq<Field>>)
  {
    match s.action(f.num, f.WireType())
    case Reject => Err
    case Take =>
      var _ :- s.check(f);
      Ok([f])
    case Pass => Ok([])
    case Skip => Ok([])
  }

  /** The bytes left after the last complete field are accepted exactly when they are a field that is skipped unread. */
  function TailOutcome(s: Schema, tail: seq<byte>): (r: Outcome<seq<Field>>)
  {
    if tail == [] || CutShort(s, tail) then Ok([]) else Err
  }

  /** A skipped field that the message is too short for; the index then runs past the end. */
  predicate CutShort(s: Schema, tail: seq<byte>)
  {
    var (tag, n) := DecodeVarint(tail);
    && n > 0 && s.action(tag / 8, tag % 8).Skip?
    && (Extent(tag % 8, tail[n..]).Some? || (tag % 8 == 0 && s.laxVarint && tail[n..] == []))
  }

  // ----- index arithmetic that wraps around

  /** The field whose tag stands at p claims so much that its end wraps around. */
  predicate WrapsAt(s: Schema, data: seq<byte>, p: nat)
    requires p <= |data|
  {
    var (tag, n) := DecodeVarint(data[p..]);
    && n > 0
    && match s.action(tag / 8, tag % 8)
       case Reject => false
       case Take => Overruns(tag % 8, data[p + n..], if s.absolute then p + n else 0)
       case Pass => Overruns(tag % 8, data[p + n..], p + n)
       case Skip => Overruns(tag % 8, data[p + n..], p + n)
  }

  /** Where the complete fields of data end. */
  function TailStart(data: seq<byte>): (p: nat)
    ensures p <= |data|
  {
    |data| - |SplitFields(data).tail|
  }

  /** The decoder gets to a field whose end wraps around; complete fields never do. */
  predicate Wraps(s: Schema, data: seq<byte>)
  {
    Select(s, SplitFields(data).fields).Ok? && WrapsAt(s, data, TailStart(data))
  }

  /** What happens at such a field: slicing it panics; otherwise the index jumps to where the wrapped sum points. */
  function AfterWrap(s: Schema, data: seq<byte>, p: nat): (r: Outcome<seq<Field>>)
    requires p <= |data| && WrapsAt(s, data, p)
  {
    var (tag, n) := DecodeVarint(data[p..]);
    if s.action(tag / 8, tag % 8).Take? then Panic
    else ScanFrom(s, data, GoInt(p + n + Extent(tag % 8, data[p + n..]).value))
  }

  // ----- combining outcomes

  lemma ThenPrepend(fs: seq<Field>, a: Outcome<seq<Field>>, b: Outcome<seq<Field>>)
    ensures Then(Prepend(fs, a), b) == Prepend(fs, Then(a, b))
  {
    if a.Ok? && b.Ok? {
      assert fs + a.value + b.value == fs + (a.value + b.value);
    }
  }

  lemma ThenAssociates(a: Outcome<seq<Field>>, b: Outcome<seq<Field>>, c: Outcome<seq<Field>>)
    ensures Then(Then(a, b), c) == Then(a, Then(b, c))
  {
    if a.Ok? {
      ThenPrepend(a.value, b, c);
    }
  }

  lemma ThenNothing(a: Outcome<seq<Field>>)
    ensures Then(a, Ok([])) == a == Then(Ok([]), a)
  {
    if a.Ok? {
      assert a.value + [] == a.value == [] + a.value;
    }
  }

  lemma {:induction false} SelectConcat(s: Schema, fs: seq<Field>, gs: seq<Field>)
    ensures Select(s, fs + gs) == Then(Select(s, fs), Select(s, gs))
  {
    if fs == [] {
      assert fs + gs == gs;
      ThenNothing(Select(s, gs));
    } else {
      assert (fs + gs)[1..] == fs[1..] + gs;
      SelectConcat(s, fs[1..], gs);
      ThenAssociates(SelectOne(s, fs[0]), Select(s, fs[1..]), Select(s, gs));
    }
  }

  // ----- scanning bytes is selecting from their fields

  /** A complete field at i is judged on its own. */
  lemma NextOfField(s: Schema, data: seq<byte>, i: nat)
    requires i < |data| && ParseField(data[i..]).Some?
    ensures var (f, k) := ParseField(data[i..]).value;
            Next(s, data, i) == match SelectOne(s, f)
                                case Ok(fs) => Ok(Step(fs, i + k, false))
                                case Err => Err
                                case Panic => Panic
                                case Hang => Hang
  {
    hide DecodeVarint, ReadBody, Extent;
    var (tag, n) := DecodeVarint(data[i..]);
    var body := data[i + n..];
    assert data[i..][n..] == body;
    CompleteExactly(tag / 8, tag % 8, body);
    VarintComplete(body);
  }

  lemma VarintComplete(body: seq<byte>)
    ensures Extent(0, body).Some? <==> DecodeVarint(body).1 > 0
  {
  }

  /** One turn of the scan, and where it ends. */
  lemma ScanTurn(s: Schema, data: seq<byte>, i: nat)
    requires i < |data|
    ensures ScanFrom(s, data, i) == match Next(s, data, i)
                                    case Ok(st) => Prepend(st.out, ScanFrom(s, data, st.next))
                                    case Err => Err
                                    case Panic => Panic
                                    case Hang => Hang
  {
    hide Walk;
    Unroll(Decoder(s, data), |data|, i);
  }

  lemma ScanOver(s: Schema, data: seq<byte>, i: int)
    requires i >= |data|
    ensures ScanFrom(s, data, i) == Ok([])
  {
  }

  lemma ScanField(s: Schema, data: seq<byte>, i: nat)
    requires i < |data| && ParseField(data[i..]).Some?
    ensures var (f, k) := ParseField(data[i..]).value;
            ScanFrom(s, data, i) == Then(SelectOne(s, f), ScanFrom(s, data, i + k))
  {
    hide ScanFrom, Next, SelectOne;
    NextOfField(s, data, i);
    ScanTurn(s, data, i);
  }

  /** From a field boundary on: the complete fields are selected from, then the tail is scanned. */
  lemma {:induction false} ScanFields(s: Schema, data: seq<byte>, i: nat)
    requires i <= |data|
    ensures var sp := SplitFields(data[i..]);
            ScanFrom(s, data, i) == Then(Select(s, sp.fields), ScanFrom(s, data, |data| - |sp.tail|))
    decreases |data| - i
  {
    hide ScanFrom, ParseField, SelectOne;
    match ParseField(data[i..])
    case None =>
      ThenNothing(ScanFrom(s, data, i));
    case Some((f, k)) =>
      ScanField(s, data, i);
      ScanFields(s, data, i + k);
      assert data[i..][k..] == data[i + k..];
      var rest := SplitFields(data[i + k..]);
      assert ([f] + rest.fields)[1..] == rest.fields;
      ThenAssociates(SelectOne(s, f), Select(s, rest.fields), ScanFrom(s, data, |data| - |rest.tail|));
  }

  /** Where no complete field stands, the decoder stops or runs past the end, unless an index wraps around. */
  lemma ScanTail(s: Schema, data: seq<byte>, p: nat)
    requires p <= |data| && ParseField(data[p..]).None?
    ensures ScanFrom(s, data, p) == if WrapsAt(s, data, p) then AfterWrap(s, data, p) else TailOutcome(s, data[p..])
  {
    hide DecodeVarint, ScanFrom, ReadBody, Extent;
    if p == |data| {
      ScanOver(s, data, p);
    } else {
      var (tag, n) := DecodeVarint(data[p..]);
      ScanTurn(s, data, p);
      if n > 0 {
        var num, wt, body := tag / 8, tag % 8, data[p + n..];
        assert data[p..][n..] == body;
        CompleteExactly(num, wt, body);
        VarintComplete(body);
        LaxTail(s, data, p + n);
        RunsPast(s, data, p + n, wt);
        ThenNothing(ScanFrom(s, data, p + n));
      }
    }
  }

  /** What the loop does where `unmarshalAny` has passed a broken varint. */
  lemma LaxTail(s: Schema, data: seq<byte>, i: nat)
    requires i <= |data|
    ensures DecodeVarint(data[i..]).1 == 0 ==> ScanFrom(s, data, i) == if i == |data| then Ok([]) else Err
  {
    hide DecodeVarint, ScanFrom;
    if i == |data| {
      ScanOver(s, data, i);
    } else {
      ScanTurn(s, data, i);
    }
  }

  lemma RunsPast(s: Schema, data: seq<byte>, i: nat, wt: nat)
    requires i <= |data|
    ensures var e := Extent(wt, data[i..]);
            && (e.Some? && e.value > |data| - i && i + e.value <= INT_MAX ==>
                  ScanFrom(s, data, GoInt(i + e.value)) == Ok([]))
            && (e.Some? ==> Prepend([], ScanFrom(s, data, GoInt(i + e.value))) == ScanFrom(s, data, GoInt(i + e.value)))
  {
    hide ScanFrom, Extent;
    var e := Extent(wt, data[i..]);
    if e.Some? {
      ThenNothing(ScanFrom(s, data, GoInt(i + e.value)));
      if e.value > |data| - i && i + e.value <= INT_MAX {
        ScanOver(s, data, i + e.value);
      }
    }
  }

  /**
   Every decoder, on every input: it selects from the complete fields, then judges what is left; an
   index that wraps around there panics or starts the scan again from where it points.
   */
  lemma ScanIsSelect(s: Schema, data: seq<byte>)
    ensures var sp, p := SplitFields(data), TailStart(data);
            Scan(s, data) == Then(Select(s, sp.fields),
                                  if WrapsAt(s, data, p) then AfterWrap(s, data, p) else TailOutcome(s, sp.tail))
  {
    hide ScanFrom, SplitFields, Select, WrapsAt, AfterWrap, TailOutcome;
    assert data[0..] == data;
    ScanFields(s, data, 0);
    var w := SplitAt(data);
    assert data[TailStart(data)..] == SplitFields(data).tail;
    ScanTail(s, data, TailStart(data));
  }

  lemma SplitAndScan(s: Schema, data: seq<byte>)
    ensures Scan(s, data) == Then(Select(s, SplitFields(data).fields), ScanFrom(s, data, TailStart(data)))
  {
    hide ScanFrom, SplitFields, Select;
    assert data[0..] == data;
    ScanFields(s, data, 0);
  }

  /** Without a wrap-around the decoder returns what its complete fields and its tail say. */
  lemma ScanUnwrapped(s: Schema, data: seq<byte>)
    requires !Wraps(s, data)
    ensures var sp := SplitFields(data);
            Scan(s, data) == Then(Select(s, sp.fields), TailOutcome(s, sp.tail))
  {
    hide Scan, SplitFields, Select, WrapsAt, AfterWrap, TailOutcome;
    ScanIsSelect(s, data);
  }

  /** Messages of complete fields never wrap around. */
  lemma ScanWellFormed(s: Schema, data: seq<byte>)
    requires WellFormed(data)
    ensures !Wraps(s, data) && Scan(s, data) == Select(s, SplitFields(data).fields)
  {
    hide Scan, SplitFields, Select;
    assert data[|data|..] == [];
    ScanUnwrapped(s, data);
    ThenNothing(Select(s, SplitFields(data).fields));
  }

  /** On the encoding of a field list a decoder is a selection from that list. */
  lemma ScanEncoded(s: Schema, fs: seq<Field>)
    requires AllValid(fs)
    ensures Scan(s, EncodeFields(fs)) == Select(s, fs)
  {
    hide Scan, SplitFields, Select, EncodeFields;
    SplitInvertsEncode(fs);
    ScanWellFormed(s, EncodeFields(fs));
  }

  /** A decoder returns, with a result or an error, unless it gets to a wrap-around or a check does not return. */
  lemma ReturnsUnlessWrapped(s: Schema, data: seq<byte>)
    requires !Wraps(s, data)
    requires forall f :: f in SplitFields(data).fields ==> s.check(f).Ok? || s.check(f).Err?
    ensures Scan(s, data).Ok? || Scan(s, data).Err?
  {
    hide Scan, SplitFields, Select;
    ScanUnwrapped(s, data);
    SelectReturns(s, SplitFields(data).fields);
  }

  /** The field after the complete ones claims so much that its end, counted from the start of data, wraps around. */
  predicate Overclaims(data: seq<byte>)
  {
    var p := TailStart(data);
    var (tag, n) := DecodeVarint(data[p..]);
    n > 0 && Overruns(tag % 8, data[p + n..], p + n)
  }

  ghost predicate ChecksReturn(s: Schema)
  {
    forall f :: s.check(f).Ok? || s.check(f).Err?
  }

  /** Takes the fields of one number and wire type, by offsets from the start, and skips all others. */
  function TakesOnly(num: nat, wt: nat): (s: Schema)
  {
    Schema((m: nat, t: nat) => if m == num && t == wt then Take else Skip, _ => Ok(()), false, true)
  }

  /** Every decoder returns on given bytes exactly when the field after their complete fields does not wrap around. */
  lemma AllDecodersReturnExactly(data: seq<byte>)
    ensures !Overclaims(data) <==> forall s :: ChecksReturn(s) ==> Scan(s, data).Ok? || Scan(s, data).Err?
  {
    hide Scan, SplitFields, Select, DecodeVarint, Extent;
    if Overclaims(data) {
      var (tag, n) := DecodeVarint(data[TailStart(data)..]);
      var s := TakesOnly(tag / 8, tag % 8);
      assert ChecksReturn(s);
      SelectAccepts(s, SplitFields(data).fields);
      ScanIsSelect(s, data);
      assert Scan(s, data).Panic?;
    } else {
      forall s | ChecksReturn(s)
        ensures Scan(s, data).Ok? || Scan(s, data).Err?
      {
        ReturnsUnlessWrapped(s, data);
      }
    }
  }

  lemma {:induction false} SelectReturns(s: Schema, fs: seq<Field>)
    requires forall f :: f in fs ==> s.check(f).Ok? || s.check(f).Err?
    ensures Select(s, fs).Ok? || Select(s, fs).Err?
  {
    if fs == [] {
    } else {
      assert fs[0] in fs;
      SelectReturns(s, fs[1..]);
    }
  }

  /** A wrap-around in a longer message is one in its second part, too, unless it is a matter of the offset. */
  lemma WrapsInSecond(s: Schema, a: seq<byte>, b: seq<byte>)
    requires WellFormed(a) && Select(s, SplitFields(a).fields).Ok? && Wraps(s, b)
    ensures Wraps(s, a + b)
  {
    hide DecodeVarint, SplitFields, Select, Extent;
    var sa, sb := SplitFields(a), SplitFields(b);
    SplitConcat(a, b);
    SelectConcat(s, sa.fields, sb.fields);
    var p := TailStart(b);
    assert TailStart(a + b) == |a| + p;
    assert (a + b)[|a| + p..] == b[p..];
    var (tag, n) := DecodeVarint(b[p..]);
    assert (a + b)[|a| + p + n..] == b[p + n..];
  }

  /**
   Concatenation: after complete fields a decoder goes on from where they end, whatever follows, and as
   if it started there unless it gets to a wrap-around.
   */
  lemma ScanConcat(s: Schema, a: seq<byte>, b: seq<byte>)
    requires WellFormed(a)
    ensures Scan(s, a + b) == Then(Scan(s, a), ScanFrom(s, a + b, |a|))
    ensures !Wraps(s, a + b) ==> Scan(s, a + b) == Then(Scan(s, a), Scan(s, b))
    ensures !Wraps(s, a + b) && Scan(s, a).Ok? ==> !Wraps(s, b)
  {
    hide Scan, ScanFrom, SplitFields, Select, DecodeVarint, Wraps;
    var sa, sb := SplitFields(a), SplitFields(b);
    SplitConcat(a, b);
    ScanWellFormed(s, a);
    SelectConcat(s, sa.fields, sb.fields);
    var p := |a + b| - |sb.tail|;
    SplitAndScan(s, a + b);
    assert (a + b)[|a|..] == b;
    ScanFields(s, a + b, |a|);
    ThenAssociates(Select(s, sa.fields), Select(s, sb.fields), ScanFrom(s, a + b, p));
    if !Wraps(s, a + b) && Select(s, sa.fields).Ok? {
      if Wraps(s, b) {
        WrapsInSecond(s, a, b);
      }
      ScanUnwrapped(s, a + b);
      ScanUnwrapped(s, b);
      ThenAssociates(Select(s, sa.fields), Select(s, sb.fields), TailOutcome(s, sb.tail));
    }
  }

  /**
   A message is accepted exactly when its complete fields are and nothing but a field cut short follows
   them, or the scan is accepted from where a wrapped index jumps to.
   */
  lemma AcceptedExactly(s: Schema, data: seq<byte>)
    ensures var sp, p := SplitFields(data), TailStart(data);
            Scan(s, data).Ok? <==>
              && Select(s, sp.fields).Ok?
              && (if WrapsAt(s, data, p) then AfterWrap(s, data, p).Ok? else sp.tail == [] || CutShort(s, sp.tail))
  {
    hide DecodeVarint, SplitFields, Scan, Select, AfterWrap, WrapsAt, CutShort;
    ScanIsSelect(s, data);
  }

  /** The complete fields of data, as bytes. */
  lemma {:induction false} SplitAt(data: seq<byte>) returns (w: seq<byte>)
    ensures WellFormed(w) && data == w + SplitFields(data).tail
    ensures ParseField(SplitFields(data).tail).None?
    decreases |data|
  {
    hide ParseField, SplitFields;
    TailOf(data);
    match ParseField(data)
    case None =>
      w := [];
      NothingWellFormed();
      assert [] + data == data;
    case Some((f, k)) =>
      var rest := SplitAt(data[k..]);
      w := data[..k] + rest;
      ParseFieldCut(data);
      ParseFieldPrefix(data[..k], rest);
      TailOf(w);
      assert w[k..] == rest;
      assert data == data[..k] + data[k..];
  }

  lemma TailOf(data: seq<byte>)
    ensures SplitFields(data).tail == match ParseField(data)
                                      case None => data
                                      case Some(fk) => SplitFields(data[fk.1..]).tail
  {
  }

  lemma NothingWellFormed()
    ensures WellFormed([])
  {
  }

  lemma ParseFieldCut(data: seq<byte>)
    requires ParseField(data).Some?
    ensures ParseField(data[..ParseField(data).value.1]) == ParseField(data)
  {
    hide ReadBody, DecodeVarint;
    var (tag, n) := DecodeVarint(data);
    var (f, k) := ParseField(data).value;
    DecodeCut(data, k);
    ReadBodyCut(tag / 8, tag % 8, data[n..]);
    assert data[..k][n..] == data[n..][..k - n];
  }

  lemma DecodeCut(data: seq<byte>, k: nat)
    requires 0 < DecodeVarint(data).1 <= k <= |data|
    ensures DecodeVarint(data[..k]) == DecodeVarint(data)
  {
    var n := VarintLen(data, MAX_BYTES);
    LenAt(data[..k], MAX_BYTES, n);
    assert data[..k][..n] == data[..n];
  }

  lemma ReadBodyCut(num: nat, wt: nat, body: seq<byte>)
    requires ReadBody(num, wt, body).Some?
    ensures ReadBody(num, wt, body[..ReadBody(num, wt, body).value.1]) == ReadBody(num, wt, body)
  {
    hide DecodeVarint;
    var k := ReadBody(num, wt, body).value.1;
    if wt == 0 || wt == 2 {
      DecodeCut(body, k);
      if wt == 2 {
        var (len, j) := DecodeVarint(body);
        assert body[..k][j..j + len] == body[j..j + len];
      }
    } else {
      assert body[..k][..k] == body[..k];
    }
  }

  /** No message starts with byte 7: there is no wire type 7. */
  lemma StraySeven(s: Schema, b: seq<byte>)
    requires b != [] && b[0] == 7
    ensures Scan(s, b) == Err
  {
    hide ScanFrom, DecodeVarint;
    assert b[0..] == b;
    assert [b[0]] + b[1..] == b;
    OneByteVarint(7, b[1..]);
    ScanTurn(s, b, 0);
  }

  /** One more byte completes a field cut short, or leaves it cut short with the same claim. */
  lemma OneMoreByte(s: Schema, tail: seq<byte>)
    requires CutShort(s, tail) && ParseField(tail).None?
    ensures var more := tail + [7];
            var (tag, n) := DecodeVarint(tail);
            && DecodeVarint(more) == (tag, n)
            && match ParseField(more)
               case Some((f, k)) => k == |more| && f.num == tag / 8 && f.WireType() == tag % 8
               case None => CutShort(s, more) && Extent(tag % 8, more[n..]) == Extent(tag % 8, tail[n..])
  {
    hide DecodeVarint, ReadBody;
    DecodePrefix(tail, [7]);
    var (tag, n) := DecodeVarint(tail);
    var wt, body := tag % 8, tail[n..];
    assert (tail + [7])[n..] == body + [7];
    CompleteExactly(tag / 8, wt, body);
    CompleteExactly(tag / 8, wt, body + [7]);
    if wt == 2 {
      DecodePrefix(body, [7]);
    } else if wt == 0 {
      assert body + [7] == [7] + [];
      OneByteVarint(7, []);
    }
  }

  /**
   An accepted message that ends inside a field, without wrapping around, goes on being accepted after a
   stray byte.
   */
  lemma SwallowsStrayByte(s: Schema, a: seq<byte>)
    requires Scan(s, a).Ok? && !WellFormed(a) && !Wraps(s, a)
    ensures !Wraps(s, a + [7]) && Scan(s, a + [7]).Ok?
  {
    hide Scan, ScanFrom, SplitFields, ParseField, DecodeVarint, Extent, Select;
    var w := SplitAt(a);
    var tail, p := SplitFields(a).tail, TailStart(a);
    AcceptedExactly(s, a);
    var (tag, n) := DecodeVarint(tail);
    assert a[p..] == tail && a[p + n..] == tail[n..];
    OneMoreByte(s, tail);
    var more := tail + [7];
    assert a + [7] == w + more;
    SplitNone(tail);
    SplitConcat(w, tail);
    SplitConcat(w, more);
    assert SplitFields(a).fields == SplitFields(w).fields;
    if ParseField(more).Some? {
      var f := ParseField(more).value.0;
      SplitOne(more);
      assert SplitFields(a + [7]).fields == SplitFields(w).fields + [f];
      ScanWellFormed(s, a + [7]);
      SelectConcat(s, SplitFields(w).fields, [f]);
      SelectSingle(s, f);
    } else {
      SplitNone(more);
      assert SplitFields(a + [7]).fields == SplitFields(w).fields;
      assert (a + [7])[p..] == more && (a + [7])[p + n..] == more[n..];
      AcceptedExactly(s, a + [7]);
    }
  }

  /** In buffers that Go can hold, nothing that follows keeps a length from wrapping around. */
  lemma StillWraps(s: Schema, a: seq<byte>, b: seq<byte>)
    requires Wraps(s, a) && |a + b| <= INT_MAX
    ensures Wraps(s, a + b)
  {
    hide SplitFields, ParseField, DecodeVarint, Extent, Select;
    var w := SplitAt(a);
    var tail, p := SplitFields(a).tail, TailStart(a);
    var (tag, n) := DecodeVarint(tail);
    assert a[p..] == tail && a[p + n..] == tail[n..];
    StillIncomplete(tail, b);
    assert a + b == w + (tail + b);
    SplitNone(tail);
    SplitConcat(w, tail);
    SplitNone(tail + b);
    SplitConcat(w, tail + b);
    assert SplitFields(a + b).fields == SplitFields(w).fields == SplitFields(a).fields;
    assert (a + b)[p..] == tail + b && (a + b)[p + n..] == (tail + b)[n..];
  }

  lemma StillIncomplete(tail: seq<byte>, b: seq<byte>)
    requires var (tag, n) := DecodeVarint(tail);
             var e := Extent(tag % 8, tail[n..]);
             n > 0 && e.Some? && e.value > |tail[n..] + b|
    ensures var (tag, n) := DecodeVarint(tail);
            && DecodeVarint(tail + b) == (tag, n)
            && Extent(tag % 8, (tail + b)[n..]) == Extent(tag % 8, tail[n..])
            && ParseField(tail + b).None?
  {
    hide DecodeVarint, ReadBody;
    DecodePrefix(tail, b);
    var (tag, n) := DecodeVarint(tail);
    var wt, body := tag % 8, tail[n..];
    assert (tail + b)[n..] == body + b;
    if wt == 0 || wt == 2 {
      DecodePrefix(body, b);
    }
    CompleteExactly(tag / 8, wt, body + b);
  }

  lemma SplitOne(data: seq<byte>)
    requires ParseField(data).Some? && ParseField(data).value.1 == |data|
    ensures SplitFields(data) == Split([ParseField(data).value.0], [])
  {
    hide ParseField;
    assert data[|data|..] == [];
    NothingParses();
  }

  lemma SplitNone(data: seq<byte>)
    requires ParseField(data).None?
    ensures SplitFields(data) == Split([], data)
  {
  }

  lemma NothingParses()
    ensures ParseField([]).None?
  {
  }

  lemma SelectSingle(s: Schema, f: Field)
    ensures Select(s, [f]) == SelectOne(s, f)
  {
    assert [f][1..] == [];
    ThenNothing(SelectOne(s, f));
  }

  /**
   In buffers that Go can hold, the concatenation law holds of an accepted message exactly when it
   consists of complete fields, or wraps around already, as then does everything it starts.
   */
  lemma ConcatLawExactly(s: Schema, a: seq<byte>)
    requires Scan(s, a).Ok? && |a| < INT_MAX
    ensures WellFormed(a) || Wraps(s, a) <==>
            forall b :: |a + b| <= INT_MAX && !Wraps(s, a + b) ==> Scan(s, a + b) == Then(Scan(s, a), Scan(s, b))
  {
    hide Scan, SplitFields, Wraps;
    if WellFormed(a) || Wraps(s, a) {
      forall b | |a + b| <= INT_MAX && !Wraps(s, a + b)
        ensures Scan(s, a + b) == Then(Scan(s, a), Scan(s, b))
      {
        if WellFormed(a) {
          ScanConcat(s, a, b);
        } else {
          StillWraps(s, a, b);
        }
      }
    } else {
      SwallowsStrayByte(s, a);
      StraySeven(s, [7]);
      assert |a + [7]| <= INT_MAX && !Wraps(s, a + [7]) && !Then(Scan(s, a), Scan(s, [7])).Ok?;
    }
  }

  /** Complete fields that the schema ignores can be inserted at any field boundary. */
  lemma UnknownFieldsAreInvisible(s: Schema, a: seq<byte>, u: seq<byte>, b: seq<byte>)
    requires WellFormed(a) && WellFormed(u) && !Wraps(s, a + u + b)
    requires forall f :: f in SplitFields(u).fields ==> Ignored(s, f.num, f.WireType())
    ensures Scan(s, a + u + b) == Scan(s, a + b)
  {
    hide Scan, SplitFields, Select, Wraps;
    assert a + u + b == a + (u + b);
    SelectNothing(s, SplitFields(u).fields);
    ScanWellFormed(s, a);
    ScanWellFormed(s, u);
    if Scan(s, a).Ok? {
      if Wraps(s, u + b) {
        WrapsInSecond(s, a, u + b);
      }
      ScanConcat(s, a, u + b);
      ScanConcat(s, u, b);
      WrapsSooner(s, a, u, b);
      ScanConcat(s, a, b);
      ThenNothing(Scan(s, b));
    } else {
      ScanConcat(s, a, u + b);
      RefusedAlready(s, a, b);
    }
  }

  /** Taking out ignored fields moves what follows to the front, so that it wraps around no more than before. */
  lemma WrapsSooner(s: Schema, a: seq<byte>, u: seq<byte>, b: seq<byte>)
    requires WellFormed(a) && WellFormed(u) && !Wraps(s, a + (u + b))
    requires Select(s, SplitFields(a).fields).Ok? && Select(s, SplitFields(u).fields) == Ok([])
    ensures !Wraps(s, a + b)
  {
    hide DecodeVarint, SplitFields, Select, Extent;
    var sa, su, sb := SplitFields(a), SplitFields(u), SplitFields(b);
    SplitConcat(u, b);
    SplitConcat(a, u + b);
    SplitConcat(a, b);
    SelectConcat(s, sa.fields, su.fields + sb.fields);
    SelectConcat(s, su.fields, sb.fields);
    SelectConcat(s, sa.fields, sb.fields);
    ThenNothing(Select(s, sb.fields));
    var p := TailStart(b);
    assert (a + (u + b))[|a| + |u| + p..] == b[p..] == (a + b)[|a| + p..];
    var (tag, n) := DecodeVarint(b[p..]);
    assert (a + (u + b))[|a| + |u| + p + n..] == b[p + n..] == (a + b)[|a| + p + n..];
  }

  lemma RefusedAlready(s: Schema, a: seq<byte>, b: seq<byte>)
    requires WellFormed(a) && !Scan(s, a).Ok?
    ensures Scan(s, a + b) == Scan(s, a)
  {
    hide Scan, SplitFields, Select;
    ScanWellFormed(s, a);
    SplitConcat(a, b);
    SelectConcat(s, SplitFields(a).fields, SplitFields(b).fields);
    ScanIsSelect(s, a + b);
  }

  lemma {:induction false} SelectNothing(s: Schema, fs: seq<Field>)
    requires forall f :: f in fs ==> Ignored(s, f.num, f.WireType())
    ensures Select(s, fs) == Ok([])
  {
    if fs == [] {
    } else {
      assert fs[0] in fs;
      SelectNothing(s, fs[1..]);
      ThenNothing(Ok([]));
    }
  }

  // ----- fields cut short

  /** The bytes of a field before its contents: the tag, and the length of a length-delimited one. */
  function HeadSize(f: Field): (n: nat)
  {
    |EncodeVarint(f.Tag())| + if f.LenField? then |EncodeVarint(|f.payload|)| else 0
  }

  /** What is left of a field claims all of its body, or cannot be read at all. */
  lemma CutBody(f: Field, j: nat)
    requires f.Valid() && j < |f.Body()|
    ensures Extent(f.WireType(), f.Body()[..j]) ==
            if f.VarintField? || (f.LenField? && j < |EncodeVarint(|f.payload|)|) then None else Some(|f.Body()|)
  {
    hide DecodeVarint, EncodeVarint;
    match f
    case VarintField(_, v) => CutVarint(v, j);
    case Fixed64Field(_, _) =>
    case Fixed32Field(_, _) =>
    case LenField(_, p) =>
      var len := EncodeVarint(|p|);
      if j < |len| {
        assert f.Body()[..j] == len[..j];
        CutVarint(|p|, j);
      } else {
        assert f.Body()[..j] == len + f.Body()[|len|..j];
        DecodeInvertsEncode(|p|, f.Body()[|len|..j]);
      }
  }

  /** The first k bytes of a field hold no complete field: a tag that is cut, or the tag and part of the body. */
  lemma CutField(f: Field, k: nat)
    requires f.Valid() && 0 < k < |EncodeField(f)|
    ensures var t, n := EncodeField(f)[..k], |EncodeVarint(f.Tag())|;
            && ParseField(t).None?
            && (k < n ==> DecodeVarint(t).1 == 0)
            && (k >= n ==> DecodeVarint(t) == (f.Tag(), n) && t[n..] == f.Body()[..k - n])
  {
    hide DecodeVarint, EncodeVarint, ReadBody, Extent;
    var tag, body := EncodeVarint(f.Tag()), f.Body();
    var t := EncodeField(f)[..k];
    if k < |tag| {
      assert t == tag[..k];
      CutVarint(f.Tag(), k);
    } else {
      var j := k - |tag|;
      assert t == tag + body[..j] && t[|tag|..] == body[..j];
      DecodeInvertsEncode(f.Tag(), body[..j]);
      CutBody(f, j);
      CompleteExactly(f.num, f.WireType(), body[..j]);
    }
  }

  /** The decoder skips the field and has read its head; of a varint only the lax decoder needs no more. */
  predicate PassesOver(s: Schema, f: Field, k: nat)
  {
    && s.action(f.num, f.WireType()).Skip? && k >= HeadSize(f)
    && (!f.VarintField? || (s.laxVarint && k == HeadSize(f)))
  }

  lemma CutShortExactly(s: Schema, f: Field, k: nat)
    requires f.Valid() && 0 < k < |EncodeField(f)|
    ensures CutShort(s, EncodeField(f)[..k]) <==> PassesOver(s, f, k)
  {
    hide DecodeVarint, EncodeVarint, ParseField, Extent;
    var n := |EncodeVarint(f.Tag())|;
    CutField(f, k);
    if k >= n {
      CutBody(f, k - n);
    }
  }

  lemma CutDoesNotWrap(s: Schema, data: seq<byte>, p: nat, f: Field, k: nat)
    requires f.Valid() && 0 < k < |EncodeField(f)| && p + |EncodeField(f)| <= INT_MAX
    requires p <= |data| && data[p..] == EncodeField(f)[..k]
    ensures !WrapsAt(s, data, p)
  {
    hide DecodeVarint, EncodeVarint, ParseField, Extent;
    var n := |EncodeVarint(f.Tag())|;
    CutField(f, k);
    if k >= n {
      assert data[p + n..] == data[p..][n..];
      CutBody(f, k - n);
    }
  }

  /**
   A message that ends inside a field is accepted exactly when the decoder skips that field and has read
   the head of it; a varint is accepted so only by the lax decoder, cut right after its tag.
   */
  lemma TruncatedExactly(s: Schema, a: seq<byte>, f: Field, k: nat)
    requires WellFormed(a) && Scan(s, a).Ok? && f.Valid() && 0 < k < |EncodeField(f)|
    requires |a| + |EncodeField(f)| <= INT_MAX
    ensures Scan(s, a + EncodeField(f)[..k]) ==
            if && s.action(f.num, f.WireType()).Skip? && k >= HeadSize(f)
               && (!f.VarintField? || (s.laxVarint && k == HeadSize(f)))
            then Scan(s, a) else Err
  {
    hide Scan, SplitFields, DecodeVarint, EncodeField, ParseField, Select, WrapsAt, AfterWrap, CutShort, HeadSize;
    var t := EncodeField(f)[..k];
    CutField(f, k);
    SplitNone(t);
    SplitConcat(a, t);
    ScanWellFormed(s, a);
    ScanIsSelect(s, a + t);
    assert SplitFields(a + t).fields == SplitFields(a).fields && SplitFields(a + t).tail == t;
    assert (a + t)[|a|..] == t;
    CutDoesNotWrap(s, a + t, |a|, f, k);
    CutShortExactly(s, f, k);
    ThenNothing(Scan(s, a));
  }

  // ----- inputs on which a decoder does not return

  /** The head of a length-delimited field that declares 2^64 bytes less its own size and less back. */
  function LoopHead(num: nat, back: nat): (h: seq<byte>)
    requires num < 0x2000_0000_0000_0000 && back < 0x7FFF_FFFF_FFFF_FF00
  {
    EncodeVarint(num * 8 + 2) + EncodeVarint(LoopLength(num, back))
  }

  function LoopLength(num: nat, back: nat): (len: uint64)
    requires num < 0x2000_0000_0000_0000 && back < 0x7FFF_FFFF_FFFF_FF00
  {
    ShortTag(num);
    0x1_0000_0000_0000_0000 - |EncodeVarint(num * 8 + 2)| - 10 - back
  }

  lemma ShortTag(num: nat)
    requires num < 0x2000_0000_0000_0000
    ensures |EncodeVarint(num * 8 + 2)| <= MAX_BYTES
  {
    DecodeInvertsEncode(num * 8 + 2, []);
  }

  /** p holds such a head. */
  predicate LoopsAt(data: seq<byte>, p: nat, num: nat, back: nat)
    requires p <= |data| && num < 0x2000_0000_0000_0000 && back < 0x7FFF_FFFF_FFFF_FF00
  {
    var n := |EncodeVarint(num * 8 + 2)|;
    && 0 < n < |data| - p && DecodeVarint(data[p..]) == (num * 8 + 2, n)
    && DecodeVarint(data[p..][n..]) == (LoopLength(num, back), 10)
  }

  lemma LoopHeadReads(num: nat, back: nat, rest: seq<byte>)
    requires num < 0x2000_0000_0000_0000 && back < 0x7FFF_FFFF_FFFF_FF00
    ensures LoopsAt(LoopHead(num, back) + rest, 0, num, back)
  {
    hide EncodeVarint, DecodeVarint;
    var tag, len := EncodeVarint(num * 8 + 2), EncodeVarint(LoopLength(num, back));
    var data := LoopHead(num, back) + rest;
    assert data[0..] == data == tag + (len + rest);
    assert (tag + (len + rest))[|tag|..] == len + rest;
    DecodeInvertsEncode(num * 8 + 2, len + rest);
    DecodeInvertsEncode(LoopLength(num, back), rest);
    ShortTag(num);
    EncodedLength(LoopLength(num, back), 9);
    Pow128Nine();
  }

  lemma LoopHeadCut(tail: seq<byte>, num: nat, back: nat)
    requires num < 0x2000_0000_0000_0000 && back < 0x7FFF_FFFF_FFFF_FF00 && back + |tail| <= INT_MAX
    requires LoopsAt(tail, 0, num, back)
    ensures ParseField(tail).None?
  {
    hide DecodeVarint, EncodeVarint;
    assert tail[0..] == tail;
    ShortTag(num);
  }

  lemma LoopTurn(s: Schema, data: seq<byte>, p: nat, num: nat, back: nat)
    requires back <= p < |data| <= INT_MAX && num < 0x2000_0000_0000_0000 && back < 0x7FFF_FFFF_FFFF_FF00
    requires Ignored(s, num, 2) && LoopsAt(data, p, num, back)
    ensures Next(s, data, p) == Ok(Step([], p - back, false))
  {
    hide DecodeVarint, EncodeVarint;
    var n := |EncodeVarint(num * 8 + 2)|;
    assert data[p..][n..] == data[p + n..];
    assert p + n + 10 + LoopLength(num, back) == p - back + 0x1_0000_0000_0000_0000;
  }

  /** Accepted complete fields lead from one boundary to the next. */
  lemma {:induction false} FieldsLead(s: Schema, data: seq<byte>, i: nat, m: nat)
    requires i <= |data| && m == |SplitFields(data[i..]).fields| && Select(s, SplitFields(data[i..]).fields).Ok?
    ensures Leads(Decoder(s, data), |data|, i, m) == Some(|data| - |SplitFields(data[i..]).tail|)
    decreases |data| - i
  {
    hide ParseField, SelectOne, Next;
    match ParseField(data[i..])
    case None =>
    case Some((f, k)) =>
      NextOfField(s, data, i);
      assert data[i..][k..] == data[i + k..];
      var rest := SplitFields(data[i + k..]);
      assert ([f] + rest.fields)[1..] == rest.fields;
      FieldsLead(s, data, i + k, m - 1);
  }

  /**
   Such a field, ignored by the schema, leads the index back to an earlier field boundary: whatever
   accepted fields a stand before that boundary, whatever accepted fields b between it and the head,
   and whatever bytes follow, the decoder never returns.
   */
  lemma NeverReturns(s: Schema, a: seq<byte>, b: seq<byte>, num: nat, rest: seq<byte>)
    requires WellFormed(a) && WellFormed(b) && Scan(s, a).Ok? && Scan(s, b).Ok?
    requires num < 0x2000_0000_0000_0000 && Ignored(s, num, 2) && |b| < 0x7FFF_FFFF_FFFF_FF00
    requires |a + (b + (LoopHead(num, |b|) + rest))| <= INT_MAX
    ensures Scan(s, a + (b + (LoopHead(num, |b|) + rest))) == Hang
  {
    hide Scan, ScanFrom, LoopHead, LoopLength, LoopsAt, SplitFields, Select, Walk, Wraps, ParseField;
    hide Next, Leads, Decoder;
    var back := |b|;
    var tail := LoopHead(num, back) + rest;
    var data, p := a + (b + tail), |a| + back;
    LoopHeadReads(num, back, rest);
    LoopHeadCut(tail, num, back);
    SplitNone(tail);
    SplitConcat(b, tail);
    ScanWellFormed(s, b);
    assert data[|a|..] == b + tail && data[p..] == tail;
    var fs := SplitFields(data[|a|..]).fields;
    assert fs == SplitFields(b).fields;
    FieldsLead(s, data, |a|, |fs|);
    LoopHeadAt(tail, data, p, num, back);
    LoopTurn(s, data, p, num, back);
    LeadsBack(s, data, p, |a|);
    LeadsOn(Decoder(s, data), |data|, |a|, |fs|, 1);
    Cycle(Decoder(s, data), |data|, |a|, |fs| + 1);
    CycleScanned(s, data, |a|);
    ScanConcat(s, a, b + tail);
  }

  lemma LoopHeadAt(tail: seq<byte>, data: seq<byte>, p: nat, num: nat, back: nat)
    requires num < 0x2000_0000_0000_0000 && back < 0x7FFF_FFFF_FFFF_FF00
    requires LoopsAt(tail, 0, num, back) && p <= |data| && data[p..] == tail
    ensures p < |data| && LoopsAt(data, p, num, back)
  {
    hide DecodeVarint, EncodeVarint;
    assert tail[0..] == tail;
  }

  lemma LeadsBack(s: Schema, data: seq<byte>, p: nat, j: int)
    requires p < |data| && Next(s, data, p) == Ok(Step([], j, false))
    ensures Leads(Decoder(s, data), |data|, p, 1) == Some(j)
  {
    hide Next;
  }

  lemma CycleScanned(s: Schema, data: seq<byte>, i: int)
    requires From(Decoder(s, data), |data|, i) == Hang
    ensures ScanFrom(s, data, i) == Hang
  {
  }

  // ----- field order

  /** Whether a message is accepted does not depend on the order of its fields. */
  lemma {:induction false} SelectAccepts(s: Schema, fs: seq<Field>)
    ensures Select(s, fs).Ok? <==> forall f :: f in fs ==> SelectOne(s, f).Ok?
  {
    if fs == [] {
    } else {
      SelectAccepts(s, fs[1..]);
      assert fs == [fs[0]] + fs[1..];
    }
  }

  /** Complete fields are accepted exactly when none is rejected and every one that is taken passes its check. */
  lemma SelectsExactly(s: Schema, fs: seq<Field>)
    ensures Select(s, fs).Ok? <==>
            forall f :: f in fs ==> var a := s.action(f.num, f.WireType());
                                    !a.Reject? && (a.Take? ==> s.check(f).Ok?)
    ensures Select(s, fs).Ok? ==>
              forall f :: f in Select(s, fs).value <==> f in fs && s.action(f.num, f.WireType()).Take?
  {
    hide Select;
    SelectAccepts(s, fs);
    if Select(s, fs).Ok? {
      SelectKeeps(s, fs);
    }
  }

  lemma {:induction false} SelectKeeps(s: Schema, fs: seq<Field>)
    requires Select(s, fs).Ok?
    ensures forall f :: f in Select(s, fs).value <==> f in fs && s.action(f.num, f.WireType()).Take?
  {
    if fs == [] {
    } else {
      SelectKeeps(s, fs[1..]);
      assert fs == [fs[0]] + fs[1..];
    }
  }

  lemma {:induction false} OnlyOfSelect(s: Schema, num: nat, fs: seq<Field>)
    requires Select(s, fs).Ok?
    ensures Select(s, Only(num, fs)) == Ok(Only(num, Select(s, fs).value))
  {
    if fs == [] {
    } else {
      var head, rest := SelectOne(s, fs[0]), Select(s, fs[1..]);
      OnlyOfSelect(s, num, fs[1..]);
      OnlyConcat(num, [fs[0]], fs[1..]);
      assert fs == [fs[0]] + fs[1..];
      OnlyConcat(num, head.value, rest.value);
      SelectConcat(s, Only(num, [fs[0]]), Only(num, fs[1..]));
      SelectOneOnly(s, num, fs[0]);
    }
  }

  lemma SelectOneOnly(s: Schema, num: nat, f: Field)
    requires SelectOne(s, f).Ok?
    ensures Select(s, Only(num, [f])) == Ok(Only(num, SelectOne(s, f).value))
  {
    OnlyUniform(num, [f], f.num);
    assert Only(num, []) == [];
    if f.num == num {
      ThenNothing(SelectOne(s, f));
      assert [f][1..] == [];
    }
  }

  /**
   Two messages that agree, number by number, on the occurrences and their order make a decoder
   take the same occurrences of every number, or are both refused.
   */
  lemma FieldOrderIsIrrelevant(s: Schema, fs: seq<Field>, gs: seq<Field>)
    requires forall num :: Only(num, fs) == Only(num, gs)
    ensures Select(s, fs).Ok? <==> Select(s, gs).Ok?
    ensures Select(s, fs).Ok? ==> forall num :: Only(num, Select(s, fs).value) == Only(num, Select(s, gs).value)
  {
    forall f: Field
      ensures f in fs <==> f in gs
    {
      OnlyMembers(f.num, fs, f);
      OnlyMembers(f.num, gs, f);
    }
    SelectAccepts(s, fs);
    SelectAccepts(s, gs);
    if Select(s, fs).Ok? {
      forall num: nat
        ensures Only(num, Select(s, fs).value) == Only(num, Select(s, gs).value)
      {
        OnlyOfSelect(s, num, fs);
        OnlyOfSelect(s, num, gs);
      }
    }
  }

  // ----- the loop of a decoder

  /**
   A decoder with index i, after turns at the indices in seen, has taken fs; the rest of its walk completes
   them to goal.
   */
  ghost predicate At(s: Schema, data: seq<byte>, i: int, seen: set<nat>, fs: seq<Field>, goal: Outcome<seq<Field>>)
  {
    goal == Prepend(fs, Walk(Decoder(s, data), |data|, i, seen))
  }

  lemma Begin(s: Schema, data: seq<byte>)
    ensures At(s, data, 0, {}, [], Scan(s, data))
  {
    ThenNothing(Scan(s, data));
  }

  lemma PrependTwice(fs: seq<Field>, gs: seq<Field>, r: Outcome<seq<Field>>)
    ensures Prepend(fs, Prepend(gs, r)) == Prepend(fs + gs, r)
  {
    if r.Ok? {
      assert fs + (gs + r.value) == fs + gs + r.value;
    }
  }

  /** A negative index cannot be sliced from. */
  lemma BelowZero(s: Schema, data: seq<byte>, i: int, seen: set<nat>, fs: seq<Field>, goal: Outcome<seq<Field>>)
    requires i < 0 && At(s, data, i, seen, fs, goal)
    ensures goal.Panic?
  {
  }

  /** Without a tag the whole scan fails. */
  lemma NoTag(s: Schema, data: seq<byte>, i: nat, seen: set<nat>, fs: seq<Field>, goal: Outcome<seq<Field>>)
    requires i < |data| && At(s, data, i, seen, fs, goal) && !goal.Hang?
    requires DecodeVarint(data[i..]).1 == 0
    ensures goal.Err?
  {
    hide Walk, DecodeVarint;
    WalkOver(Decoder(s, data), |data|, i, seen);
    WalkTurn(Decoder(s, data), |data|, i, seen);
  }

  lemma NextAfterTag(s: Schema, data: seq<byte>, start: nat, tag: uint64, i: nat)
    requires start < i <= |data| && DecodeVarint(data[start..]) == (tag, i - start)
    ensures var j := Judge(s, tag / 8, tag % 8, data, i);
            Decoder(s, data)(start) == if j.Ok? then Ok(Step(j.value.0, j.value.1, false)) else j.PropagateFailure()
  {
    hide Judge, DecodeVarint;
  }

  /**
   After a tag from start to i, one judgement leads to the next index or fails the whole scan. A scan
   that returns has not been at start before, so that its turns run out.
   */
  lemma OneTurn(s: Schema, data: seq<byte>, start: nat, seen: set<nat>, fs: seq<Field>, goal: Outcome<seq<Field>>,
                tag: uint64, i: nat)
    requires start < i <= |data| && At(s, data, start, seen, fs, goal) && !goal.Hang?
    requires DecodeVarint(data[start..]) == (tag, i - start)
    ensures start !in seen && |Indices(|data|) - (seen + {start})| < |Indices(|data|) - seen|
    ensures var j := Judge(s, tag / 8, tag % 8, data, i);
            if j.Ok? then At(s, data, j.value.1, seen + {start}, fs + j.value.0, goal) else goal == j.PropagateFailure()
  {
    hide Judge, DecodeVarint, Walk, Indices, Next, Decoder;
    var turn := Decoder(s, data);
    WalkOver(turn, |data|, start, seen);
    WalkTurn(turn, |data|, start, seen);
    Shrinks(|data|, seen, start);
    NextAfterTag(s, data, start, tag, i);
    var j := Judge(s, tag / 8, tag % 8, data, i);
    if j.Ok? {
      PrependTwice(fs, j.value.0, Walk(turn, |data|, j.value.1, seen + {start}));
    }
  }

  lemma End(s: Schema, data: seq<byte>, i: int, seen: set<nat>, fs: seq<Field>, goal: Outcome<seq<Field>>)
    requires i >= |data| && At(s, data, i, seen, fs, goal)
    ensures goal == Ok(fs)
  {
    ThenNothing(Ok(fs));
  }

  // ----- what the decoders share

  /** `readLenDelimited`. */
  function ReadLenDelimited(body: seq<byte>): (r: Outcome<(seq<byte>, nat)>)
    ensures r.Ok? ==> |r.value.0| <= r.value.1 <= |body|
  {
    var (len, k) := DecodeVarint(body);
    if k == 0 then Err else
    var end := GoInt(k + GoInt(len));
    if end > |body| then Err else if end < k then Panic else Ok((body[k..end], end))
  }

  /** The same written out in place, with offsets from the start of the message. */
  function ReadLenAt(data: seq<byte>, i: nat): (r: Outcome<(seq<byte>, nat)>)
    requires i <= |data|
    ensures r.Ok? ==> |r.value.0| <= r.value.1 <= |data|
  {
    var (len, k) := DecodeVarint(data[i..]);
    if k == 0 then Err else
    var end := GoInt(i + k + GoInt(len));
    if end > |data| then Err else if end < i + k then Panic else Ok((data[i + k..end], end))
  }

  /** `skipProtoField`: how far to move the index. */
  function SkipProtoField(body: seq<byte>, wt: nat): (r: Outcome<int>)
  {
    match wt
    case 0 =>
      var (_, k) := DecodeVarint(body);
      if k == 0 then Err else Ok(k)
    case 1 => Ok(8)
    case 2 =>
      var (len, k) := DecodeVarint(body);
      if k == 0 then Err else Ok(GoInt(k + GoInt(len)))
    case 5 => Ok(4)
    case _ => Err
  }

  /** A sum of a buffer offset and a declared length wraps to below the offset, or not at all. */
  lemma WrapBelow(base: nat, len: uint64)
    requires base <= INT_MAX
    ensures GoInt(base + GoInt(len)) == GoInt(base + len)
    ensures base + len <= INT_MAX ==> GoInt(base + len) == base + len
    ensures base + len > INT_MAX ==> GoInt(base + len) < base
  {
    GoIntAdds(base, len);
  }

  /** What becomes of a declared length: a slice, an error, or a panic, exactly by where the sum ends up. */
  lemma ReadsExactly(body: seq<byte>)
    requires |body| <= INT_MAX
    ensures var (len, k) := DecodeVarint(body);
            var r := ReadLenDelimited(body);
            && (r.Ok? <==> k > 0 && k + len <= |body|)
            && (r.Ok? ==> r.value == (body[k..k + len], k + len))
            && (r.Panic? <==> k > 0 && k + len > INT_MAX)
            && !r.Hang?
  {
    hide DecodeVarint, GoInt;
    var (len, k) := DecodeVarint(body);
    WrapBelow(k, len);
  }

  lemma JudgeReject(s: Schema, num: nat, wt: nat, data: seq<byte>, i: nat)
    requires i <= |data| && s.action(num, wt).Reject?
    ensures Judge(s, num, wt, data, i).Err?
  {
  }

  lemma JudgeVarint(s: Schema, num: nat, data: seq<byte>, i: nat)
    requires i <= |data| && s.action(num, 0).Take?
    ensures var (v, k) := DecodeVarint(data[i..]);
            Judge(s, num, 0, data, i) == if k == 0 then Err else Approve(s, VarintField(num, v), i + k)
  {
    hide DecodeVarint, Approve;
  }

  /** A taken length-delimited field is `readLenDelimited`, which panics exactly when its end wraps around. */
  lemma JudgeLen(s: Schema, num: nat, data: seq<byte>, i: nat)
    requires i <= |data| <= INT_MAX && s.action(num, 2).Take? && !s.absolute
    ensures var r := ReadLenDelimited(data[i..]);
            Judge(s, num, 2, data, i) ==
              if r.Ok? then Approve(s, LenField(num, r.value.0), i + r.value.1) else r.PropagateFailure()
  {
    hide DecodeVarint, GoInt, Approve;
    var (len, k) := DecodeVarint(data[i..]);
    WrapBelow(k, len);
  }

  lemma JudgeLenAt(s: Schema, num: nat, data: seq<byte>, i: nat)
    requires i <= |data| <= INT_MAX && s.action(num, 2).Take? && s.absolute
    ensures var r := ReadLenAt(data, i);
            Judge(s, num, 2, data, i) ==
              if r.Ok? then Approve(s, LenField(num, r.value.0), r.value.1) else r.PropagateFailure()
  {
    hide DecodeVarint, GoInt, Approve;
    var (len, k) := DecodeVarint(data[i..]);
    WrapBelow(i + k, len);
    if i + k + len <= |data| {
      assert data[i..][k..k + len] == data[i + k..i + k + len];
    }
  }

  lemma JudgeFixed64(s: Schema, num: nat, data: seq<byte>, i: nat)
    requires i <= |data| && s.action(num, 1).Take? && s.absolute
    ensures Judge(s, num, 1, data, i) == if i + 8 <= |data| then Approve(s, Fixed64Field(num, data[i..i + 8]), i + 8)
                                         else if i + 8 > INT_MAX then Panic else Err
  {
    hide Approve;
    if i + 8 <= |data| {
      assert data[i..][..8] == data[i..i + 8];
    }
  }

  lemma JudgeSkip(s: Schema, num: nat, wt: nat, data: seq<byte>, i: nat)
    requires i <= |data| <= INT_MAX && s.action(num, wt).Skip? && !s.laxVarint
    ensures var r := SkipProtoField(data[i..], wt);
            Judge(s, num, wt, data, i) == if r.Ok? then Ok(([], GoInt(i + r.value))) else r.PropagateFailure()
  {
    hide DecodeVarint, GoInt;
    var (len, k) := DecodeVarint(data[i..]);
    WrapBelow(k, len);
    if wt == 2 {
      GoIntAdds(i, k + len);
    }
  }
}
