/**
 The field-list view of a protobuf message without groups: a specification encoder and the
 complete fields a byte string starts with. Both decoders of the chain are judged against it.
 */
module Wire {
  import opened Common
  import opened Varint

  datatype Field =
    | VarintField(num: nat, value: uint64)
    | Fixed64Field(num: nat, bits: seq<byte>)
    | LenField(num: nat, payload: seq<byte>)
    | Fixed32Field(num: nat, bits: seq<byte>)
  {
    function WireType(): (wt: nat)
    {
      match this
      case VarintField(_, _) => 0
      case Fixed64Field(_, _) => 1
      case LenField(_, _) => 2
      case Fixed32Field(_, _) => 5
    }

    /** A tag is 64 bits wide and a length-delimited payload states its length in 64 bits. */
    ghost predicate Valid()
    {
      && num < 0x2000_0000_0000_0000
      && (Fixed64Field? ==> |bits| == 8)
      && (Fixed32Field? ==> |bits| == 4)
      && (LenField? ==> |payload| < U64)
    }

    function Tag(): (t: nat)
    {
      num * 8 + WireType()
    }

    function Body(): (s: seq<byte>)
    {
      match this
      case VarintField(_, v) => EncodeVarint(v)
      case Fixed64Field(_, b) => b
      case LenField(_, p) => EncodeVarint(|p|) + p
      case Fixed32Field(_, b) => b
    }
  }

  ghost predicate AllValid(fs: seq<Field>)
  {
    forall f :: f in fs ==> f.Valid()
  }

  // ----- writing

  function EncodeField(f: Field): (s: seq<byte>)
    ensures |s| >= 1
  {
    EncodeVarint(f.Tag()) + f.Body()
  }

  function EncodeFields(fs: seq<Field>): (s: seq<byte>)
  {
    if fs == [] then [] else EncodeField(fs[0]) + EncodeFields(fs[1..])
  }

  lemma {:induction false} EncodeFieldsConcat(fs: seq<Field>, gs: seq<Field>)
    ensures EncodeFields(fs + gs) == EncodeFields(fs) + EncodeFields(gs)
  {
    if fs == [] {
      assert fs + gs == gs;
    } else {
      assert (fs + gs)[1..] == fs[1..] + gs;
      EncodeFieldsConcat(fs[1..], gs);
    }
  }

  // ----- reading

  /** The complete body of wire type wt at the head of `body`, and its size. */
  function ReadBody(num: nat, wt: nat, body: seq<byte>): (r: Option<(Field, nat)>)
    ensures r.Some? ==> r.value.1 <= |body| && r.value.0.num == num && r.value.0.WireType() == wt
  {
    if wt == 0 then
      var (v, k) := DecodeVarint(body);
      if k == 0 then None else Some((VarintField(num, v), k))
    else if wt == 1 then
      if |body| < 8 then None else Some((Fixed64Field(num, body[..8]), 8))
    else if wt == 2 then
      var (len, k) := DecodeVarint(body);
      if k == 0 || k + len > |body| then None else Some((LenField(num, body[k..k + len]), k + len))
    else if wt == 5 then
      if |body| < 4 then None else Some((Fixed32Field(num, body[..4]), 4))
    else None
  }

  /** The complete field at the head of data, and its size. */
  function ParseField(data: seq<byte>): (r: Option<(Field, nat)>)
    ensures r.Some? ==> 0 < r.value.1 <= |data|
  {
    var (tag, n) := DecodeVarint(data);
    if n == 0 then None else
    match ReadBody(tag / 8, tag % 8, data[n..])
    case None => None
    case Some((f, k)) => Some((f, n + k))
  }

  datatype Split = Split(fields: seq<Field>, tail: seq<byte>)
  {
    function After(fs: seq<Field>): (r: Split)
    {
      Split(fs + fields, tail)
    }
  }

  /** The complete fields data starts with, and what is left when no further complete field follows. */
  function SplitFields(data: seq<byte>): (r: Split)
    ensures |r.tail| <= |data|
    decreases |data|
  {
    match ParseField(data)
    case None => Split([], data)
    case Some((f, k)) => SplitFields(data[k..]).After([f])
  }

  /** data is nothing but complete fields. */
  predicate WellFormed(data: seq<byte>)
  {
    SplitFields(data).tail == []
  }

  // ----- complete fields do not depend on what follows them

  lemma ReadBodyPrefix(num: nat, wt: nat, a: seq<byte>, b: seq<byte>)
    requires ReadBody(num, wt, a).Some?
    ensures ReadBody(num, wt, a + b) == ReadBody(num, wt, a)
  {
    hide DecodeVarint;
    if wt == 0 || wt == 2 {
      DecodePrefix(a, b);
      if wt == 2 {
        var (len, k) := DecodeVarint(a);
        assert (a + b)[k..k + len] == a[k..k + len];
      }
    } else if wt == 1 {
      assert (a + b)[..8] == a[..8];
    } else {
      assert (a + b)[..4] == a[..4];
    }
  }

  lemma ParseFieldPrefix(a: seq<byte>, b: seq<byte>)
    requires ParseField(a).Some?
    ensures ParseField(a + b) == ParseField(a)
  {
    hide DecodeVarint, ReadBody;
    DecodePrefix(a, b);
    var (tag, n) := DecodeVarint(a);
    assert (a + b)[n..] == a[n..] + b;
    ReadBodyPrefix(tag / 8, tag % 8, a[n..], b);
  }

  /** Complete fields followed by anything split as the fields followed by the split of the rest. */
  lemma {:induction false} SplitConcat(a: seq<byte>, b: seq<byte>)
    requires WellFormed(a)
    ensures SplitFields(a + b) == SplitFields(b).After(SplitFields(a).fields)
    decreases |a|
  {
    if a == [] {
      assert a + b == b;
    } else {
      var (f, k) := ParseField(a).value;
      ParseFieldPrefix(a, b);
      assert (a + b)[k..] == a[k..] + b;
      SplitConcat(a[k..], b);
      AfterAfter([f], SplitFields(a[k..]).fields, SplitFields(b));
    }
  }

  lemma AfterAfter(fs: seq<Field>, gs: seq<Field>, s: Split)
    ensures s.After(gs).After(fs) == s.After(fs + gs)
  {
    assert fs + (gs + s.fields) == fs + gs + s.fields;
  }

  // ----- what is written is read back

  lemma ParseInvertsEncode(f: Field, rest: seq<byte>)
    requires f.Valid()
    ensures ParseField(EncodeField(f) + rest) == Some((f, |EncodeField(f)|))
  {
    hide EncodeVarint, DecodeVarint, ReadBody;
    var tag, body := EncodeVarint(f.Tag()), f.Body();
    var data := EncodeField(f) + rest;
    assert data == tag + (body + rest);
    DecodeInvertsEncode(f.Tag(), body + rest);
    assert data[|tag|..] == body + rest;
    assert f.Tag() / 8 == f.num && f.Tag() % 8 == f.WireType();
    BodyInvertsEncode(f, rest);
  }

  lemma BodyInvertsEncode(f: Field, rest: seq<byte>)
    requires f.Valid()
    ensures ReadBody(f.num, f.WireType(), f.Body() + rest) == Some((f, |f.Body()|))
  {
    hide EncodeVarint, DecodeVarint;
    match f
    case VarintField(_, v) =>
      DecodeInvertsEncode(v, rest);
    case LenField(_, p) =>
      var len := EncodeVarint(|p|);
      assert f.Body() + rest == len + (p + rest);
      DecodeInvertsEncode(|p|, p + rest);
      assert (len + (p + rest))[|len|..|len| + |p|] == p;
    case Fixed64Field(_, b) =>
      assert (b + rest)[..8] == b;
    case Fixed32Field(_, b) =>
      assert (b + rest)[..4] == b;
  }

  /** Any list of fields is exactly what its encoding splits into. */
  lemma {:induction false} SplitInvertsEncode(fs: seq<Field>)
    requires AllValid(fs)
    ensures SplitFields(EncodeFields(fs)) == Split(fs, [])
  {
    if fs == [] {
    } else {
      var head, rest := EncodeField(fs[0]), EncodeFields(fs[1..]);
      ParseInvertsEncode(fs[0], rest);
      assert (head + rest)[|head|..] == rest;
      SplitInvertsEncode(fs[1..]);
    }
  }

  // ----- the occurrences of one field number

  function Only(num: nat, fs: seq<Field>): (r: seq<Field>)
  {
    if fs == [] then []
    else
      var last := fs[|fs| - 1];
      var front := Only(num, fs[..|fs| - 1]);
      if last.num == num then front + [last] else front
  }

  lemma OnlySnoc(fs: seq<Field>, f: Field)
    ensures forall num :: Only(num, fs + [f]) == if f.num == num then Only(num, fs) + [f] else Only(num, fs)
  {
    assert (fs + [f])[..|fs|] == fs;
  }

  lemma {:induction false} OnlyConcat(num: nat, fs: seq<Field>, gs: seq<Field>)
    ensures Only(num, fs + gs) == Only(num, fs) + Only(num, gs)
  {
    if gs == [] {
      assert fs + gs == fs;
    } else {
      var front := gs[..|gs| - 1];
      assert fs + gs == (fs + front) + [gs[|gs| - 1]];
      OnlySnoc(fs + front, gs[|gs| - 1]);
      OnlyConcat(num, fs, front);
    }
  }

  lemma {:induction false} OnlyMembers(num: nat, fs: seq<Field>, f: Field)
    ensures f in Only(num, fs) <==> f in fs && f.num == num
  {
    if fs == [] {
    } else {
      OnlyMembers(num, fs[..|fs| - 1], f);
      assert fs == fs[..|fs| - 1] + [fs[|fs| - 1]];
    }
  }

  // ----- the last occurrence of one field number

  function LastOf(num: nat, fs: seq<Field>): (r: Option<Field>)
  {
    if fs == [] then None
    else
      var last := fs[|fs| - 1];
      if last.num == num then Some(last) else LastOf(num, fs[..|fs| - 1])
  }

  lemma LastOfSnoc(fs: seq<Field>, f: Field)
    ensures forall num :: LastOf(num, fs + [f]) == if f.num == num then Some(f) else LastOf(num, fs)
  {
    assert (fs + [f])[..|fs|] == fs;
  }

  lemma {:induction false} LastOfOnly(num: nat, fs: seq<Field>)
    ensures var occ := Only(num, fs);
            LastOf(num, fs) == if occ == [] then None else Some(occ[|occ| - 1])
  {
    if fs == [] {
    } else {
      LastOfOnly(num, fs[..|fs| - 1]);
    }
  }

  lemma {:induction false} LastOfMember(num: nat, fs: seq<Field>)
    requires LastOf(num, fs).Some?
    ensures LastOf(num, fs).value in fs && LastOf(num, fs).value.num == num
  {
    if fs[|fs| - 1].num == num {
    } else {
      LastOfMember(num, fs[..|fs| - 1]);
    }
  }

  lemma LastOfConcat(num: nat, fs: seq<Field>, gs: seq<Field>)
    ensures LastOf(num, fs + gs) == if LastOf(num, gs).Some? then LastOf(num, gs) else LastOf(num, fs)
  {
    OnlyConcat(num, fs, gs);
    LastOfOnly(num, fs);
    LastOfOnly(num, gs);
    LastOfOnly(num, fs + gs);
  }

  // ----- what a struct field is, given the last occurrence of its number

  function Uint(last: Option<Field>): (v: uint64)
  {
    if last.Some? && last.value.VarintField? then last.value.value else 0
  }

  function Payload(f: Field): (p: seq<byte>)
  {
    if f.LenField? then f.payload else []
  }

  function Bytes(last: Option<Field>): (b: seq<byte>)
  {
    if last.Some? then Payload(last.value) else []
  }

  // ----- messages laid out slot by slot

  ghost predicate Uniform(num: nat, fs: seq<Field>)
  {
    forall j :: 0 <= j < |fs| ==> fs[j].num == num
  }

  /** slots[k] holds occurrences of field number k + 1 and of no other. */
  ghost predicate Slotted(slots: seq<seq<Field>>)
  {
    forall k :: 0 <= k < |slots| ==> Uniform(k + 1, slots[k])
  }

  function Flatten(slots: seq<seq<Field>>): (fs: seq<Field>)
  {
    if slots == [] then [] else Flatten(slots[..|slots| - 1]) + slots[|slots| - 1]
  }

  lemma {:induction false} OnlyUniform(num: nat, fs: seq<Field>, own: nat)
    requires Uniform(own, fs)
    ensures Only(num, fs) == if num == own then fs else []
  {
    if fs == [] {
    } else {
      OnlyUniform(num, fs[..|fs| - 1], own);
    }
  }

  /** The occurrences of a number in a slotted message are its slot. */
  lemma OnlyNothing(num: nat)
    ensures Only(num, []) == []
  {
  }

  lemma {:induction false} OnlyOfFlatten(num: nat, slots: seq<seq<Field>>)
    requires Slotted(slots)
    ensures Only(num, Flatten(slots)) == if 1 <= num <= |slots| then slots[num - 1] else []
  {
    hide Only, Uniform;
    if slots == [] {
      OnlyNothing(num);
    } else {
      var n := |slots|;
      var front, last := slots[..n - 1], slots[n - 1];
      OnlyOfFlatten(num, front);
      OnlyUniform(num, last, n);
      OnlyConcat(num, Flatten(front), last);
      assert 1 <= num < n ==> front[num - 1] == slots[num - 1];
    }
  }

  lemma {:induction false} FlattenMember(slots: seq<seq<Field>>, f: Field) returns (k: nat)
    requires f in Flatten(slots)
    ensures k < |slots| && f in slots[k]
  {
    k := |slots| - 1;
    if f !in slots[k] {
      k := FlattenMember(slots[..k], f);
    }
  }

  function Singles(fs: seq<Field>): (slots: seq<seq<Field>>)
  {
    seq(|fs|, i requires 0 <= i < |fs| => [fs[i]])
  }

  lemma {:induction false} FlattenSingles(fs: seq<Field>)
    ensures Flatten(Singles(fs)) == fs
  {
    if fs == [] {
    } else {
      var front := fs[..|fs| - 1];
      FlattenSingles(front);
      assert Singles(fs)[..|fs| - 1] == Singles(front);
      assert fs == front + [fs[|fs| - 1]];
    }
  }

  /** One occurrence of each of the numbers 1 to |fs|, in order. */
  ghost predicate Numbered(fs: seq<Field>)
  {
    forall k :: 0 <= k < |fs| ==> fs[k].num == k + 1
  }

  lemma InOrder(fs: seq<Field>)
    requires forall k :: 0 <= k < |fs| ==> fs[k].num == k + 1
    ensures Numbered(fs)
  {
  }

  lemma NumberedRead(num: nat, fs: seq<Field>)
    requires Numbered(fs) && 1 <= num <= |fs|
    ensures Only(num, fs) == [fs[num - 1]] && LastOf(num, fs) == Some(fs[num - 1])
  {
    hide Only, LastOf, Flatten;
    FlattenSingles(fs);
    SlotRead(num, Singles(fs), [fs[num - 1]]);
  }

  lemma SlotRead(num: nat, slots: seq<seq<Field>>, slot: seq<Field>)
    requires Slotted(slots) && 1 <= num <= |slots| && slots[num - 1] == slot
    ensures Only(num, Flatten(slots)) == slot
    ensures LastOf(num, Flatten(slots)) == if slot == [] then None else Some(slot[|slot| - 1])
  {
    hide Flatten, Only, LastOf;
    OnlyOfFlatten(num, slots);
    LastOfOnly(num, Flatten(slots));
  }

  // ----- slots that leave out defaults

  function UintSlot(num: nat, v: uint64): (fs: seq<Field>)
  {
    if v == 0 then [] else [VarintField(num, v)]
  }

  function BytesSlot(num: nat, b: seq<byte>): (fs: seq<Field>)
  {
    if b == [] then [] else [LenField(num, b)]
  }

  lemma UintReadBack(num: nat, slots: seq<seq<Field>>, v: uint64)
    requires Slotted(slots) && 1 <= num <= |slots| && slots[num - 1] == UintSlot(num, v)
    ensures Uint(LastOf(num, Flatten(slots))) == v
  {
    hide LastOf, Only, Flatten, Slotted;
    SlotRead(num, slots, UintSlot(num, v));
  }

  lemma BytesReadBack(num: nat, slots: seq<seq<Field>>, b: seq<byte>)
    requires Slotted(slots) && 1 <= num <= |slots| && slots[num - 1] == BytesSlot(num, b)
    ensures Bytes(LastOf(num, Flatten(slots))) == b
  {
    hide LastOf, Only, Flatten, Slotted;
    SlotRead(num, slots, BytesSlot(num, b));
  }
}
