/**
 Skipping one field of unknown number in the generated parser. The source counts open groups; the
 specification is a recursive descent through them.
 */
module GenesisSkip {
  import opened Common
  import opened Varint
  import opened Wire
  import opened Scanner

  function Add(n: nat, r: Option<nat>): (q: Option<nat>)
  {
    match r
    case None => None
    case Some(k) => Some(n + k)
  }

  /** The size of the field at the head of data, groups and all; a truncated scalar can reach past the end. */
  function SkipItem(data: seq<byte>): (r: Option<nat>)
    ensures r.Some? ==> r.value > 0
    decreases |data|, 0
  {
    var (tag, n) := DecodeVarint(data);
    if n == 0 then None
    else if tag % 8 == 3 then Add(n, SkipGroup(data[n..]))
    else Add(n, SkipScalar(tag % 8, data[n..], n))
  }

  /** The size of a body that is not a group; `before` is what the index has already passed. */
  function SkipScalar(wt: nat, body: seq<byte>, before: nat): (r: Option<nat>)
  {
    match wt
    case 0 =>
      var (_, k) := DecodeVarint(body);
      if k == 0 then None else Some(k)
    case 1 => Some(8)
    case 2 =>
      var (len, k) := DecodeVarint(body);
      if k == 0 || before + k + len > INT_MAX then None else Some(k + len)
    case 5 => Some(4)
    case _ => None
  }

  /** The size of the rest of a group: whole fields up to and including the tag that ends it. */
  function SkipGroup(data: seq<byte>): (r: Option<nat>)
    ensures r.Some? ==> 0 < r.value <= |data|
    decreases |data|, 1
  {
    var (tag, n) := DecodeVarint(data);
    if n == 0 then None
    else if tag % 8 == 4 then Some(n)
    else
      match SkipItem(data)
      case None => None
      case Some(k) => if k > |data| then None else Add(k, SkipGroup(data[k..]))
  }

  /** What is left to skip when `depth` groups are open. */
  function Unwind(data: seq<byte>, depth: nat): (r: Option<nat>)
    decreases depth
  {
    if depth == 0 then Some(0)
    else
      match SkipGroup(data)
      case None => None
      case Some(k) => Add(k, Unwind(data[k..], depth - 1))
  }

  // ----- the two ways of counting agree

  /** A group inside a group: its rest, then the rest of the outer one. */
  lemma GroupInGroup(data: seq<byte>, tag: uint64, n: nat)
    requires n > 0 && DecodeVarint(data) == (tag, n) && tag % 8 == 3
    ensures SkipGroup(data) == match SkipGroup(data[n..])
                               case None => None
                               case Some(m) => Add(n + m, SkipGroup(data[n + m..]))
  {
    hide DecodeVarint;
    assert SkipItem(data) == Add(n, SkipGroup(data[n..]));
  }

  /** A start-group tag opens one more group. */
  lemma UnwindOpens(data: seq<byte>, depth: nat, tag: uint64, n: nat)
    requires depth > 0 && n > 0 && DecodeVarint(data) == (tag, n) && tag % 8 == 3
    ensures Unwind(data, depth) == Add(n, Unwind(data[n..], depth + 1))
  {
    hide DecodeVarint, SkipGroup;
    GroupInGroup(data, tag, n);
    if SkipGroup(data[n..]).Some? {
      var m := SkipGroup(data[n..]).value;
      assert data[n..][m..] == data[n + m..];
      if SkipGroup(data[n + m..]).Some? {
        var k := SkipGroup(data[n + m..]).value;
        assert data[n + m..][k..] == data[n + m + k..];
      }
    }
  }

  /** An end-group tag closes the innermost group. */
  lemma UnwindCloses(data: seq<byte>, depth: nat, tag: uint64, n: nat)
    requires depth > 0 && n > 0 && DecodeVarint(data) == (tag, n) && tag % 8 == 4
    ensures Unwind(data, depth) == Add(n, Unwind(data[n..], depth - 1))
  {
    hide DecodeVarint;
  }

  /** Any other field is passed over at the same depth. */
  lemma UnwindPasses(data: seq<byte>, depth: nat, tag: uint64, n: nat)
    requires depth > 0 && n > 0 && DecodeVarint(data) == (tag, n) && tag % 8 != 3 && tag % 8 != 4
    ensures Unwind(data, depth) == match SkipItem(data)
                                   case None => None
                                   case Some(k) => if k > |data| then None else Add(k, Unwind(data[k..], depth))
  {
    hide DecodeVarint, SkipItem;
    var item := SkipItem(data);
    if item.Some? && item.value <= |data| && SkipGroup(data[item.value..]).Some? {
      var k, m := item.value, SkipGroup(data[item.value..]).value;
      assert data[k..][m..] == data[k + m..];
    }
  }

  // ----- the loops of the source

  /** One inlined varint loop: the value and where it ends, or an error (overflow or end of input). */
  method ReadVarint(dAtA: seq<byte>, start: nat) returns (res: Option<(uint64, nat)>)
    requires start <= |dAtA|
    ensures var (v, n) := DecodeVarint(dAtA[start..]);
            res == if n == 0 then None else Some((v, start + n))
  {
    hide Base128, VarintLen;
    var wire: uint64, iNdEx, k := 0, start, 0;
    ghost var data := dAtA[start..];
    Base128Nothing();
    while true
      invariant k <= MAX_BYTES && iNdEx == start + k <= |dAtA|
      invariant forall j :: 0 <= j < k ==> data[j] >= 128
      invariant wire == Low64(Base128(data[..k]))
      invariant k < MAX_BYTES ==> wire == Base128(data[..k])
      decreases MAX_BYTES - k
    {
      if 7 * k >= 64 || iNdEx >= |dAtA| {
        LenNone(data, MAX_BYTES);
        return None;
      }
      var b := dAtA[iNdEx];
      iNdEx := iNdEx + 1;
      Accumulate(data[..k], b);
      assert data[..k] + [b] == data[..k + 1];
      wire := wire + Shifted(b, k);
      if b < 128 {
        LenAt(data, MAX_BYTES, k + 1);
        return Some((wire, iNdEx));
      }
      k := k + 1;
    }
  }

  /** The cases of `skipGenesis` that are not groups: where the index stands afterwards. */
  method SkipScalarAt(dAtA: seq<byte>, iNdEx: nat, wireType: nat) returns (res: Option<nat>)
    requires iNdEx <= |dAtA|
    ensures res == Add(iNdEx, SkipScalar(wireType, dAtA[iNdEx..], iNdEx))
  {
    hide DecodeVarint;
    match wireType
    case 0 =>
      var skipped := ReadVarint(dAtA, iNdEx);
      return if skipped.None? then None else Some(skipped.value.1);
    case 1 => return Some(iNdEx + 8);
    case 2 =>
      var length := ReadVarint(dAtA, iNdEx);
      if length.None? { return None; }
      var (len, at) := length.value;
      return if len > INT_MAX || at + len > INT_MAX then None else Some(at + len);
    case 5 => return Some(iNdEx + 4);
    case _ => return None;
  }

  /** `skipGenesis`: the depth counter computes the recursive descent. */
  method SkipGenesis(dAtA: seq<byte>) returns (res: Option<nat>)
    requires |dAtA| <= INT_MAX
    ensures res == SkipItem(dAtA)
  {
    hide DecodeVarint, SkipItem, SkipGroup, Unwind, SkipScalar;
    var l := |dAtA|;
    var iNdEx, depth := 0, 0;
    ghost var goal := SkipItem(dAtA);
    assert dAtA[0..] == dAtA;
    while iNdEx < l
      invariant depth == 0 ==> iNdEx == 0
      invariant depth > 0 ==> goal == if iNdEx <= l then Add(iNdEx, Unwind(dAtA[iNdEx..], depth)) else None
      decreases l - iNdEx
    {
      ghost var start, rest := iNdEx, dAtA[iNdEx..];
      var wire := ReadVarint(dAtA, iNdEx);
      if wire.None? { NoField(rest, depth); return None; }
      var tag := wire.value.0;
      iNdEx := wire.value.1;
      ghost var n := iNdEx - start;
      var wireType := tag % 8;
      assert rest[n..] == dAtA[iNdEx..];
      if wireType == 3 {
        Opens(rest, depth, tag, n);
        depth := depth + 1;
      } else if wireType == 4 {
        if depth == 0 { StrayEnd(rest, tag, n); return None; }
        UnwindCloses(rest, depth, tag, n);
        depth := depth - 1;
      } else {
        if depth > 0 { UnwindPasses(rest, depth, tag, n); }
        Scalar(rest, tag, n, start, l);
        var next := SkipScalarAt(dAtA, iNdEx, wireType);
        if next.None? { return None; }
        iNdEx := next.value;
        assert iNdEx <= l ==> rest[iNdEx - start..] == dAtA[iNdEx..];
      }
      if depth == 0 { Done(dAtA[if iNdEx <= l then iNdEx else l..]); return Some(iNdEx); }
    }
    if iNdEx == l {
      assert dAtA[iNdEx..] == [];
      EndOfInput(depth);
    }
    return None;
  }

  lemma NoField(rest: seq<byte>, depth: nat)
    requires DecodeVarint(rest).1 == 0
    ensures SkipItem(rest) == None && (depth > 0 ==> Unwind(rest, depth) == None)
  {
  }

  lemma Opens(rest: seq<byte>, depth: nat, tag: uint64, n: nat)
    requires n > 0 && DecodeVarint(rest) == (tag, n) && tag % 8 == 3
    ensures depth == 0 ==> SkipItem(rest) == Add(n, Unwind(rest[n..], 1))
    ensures depth > 0 ==> Unwind(rest, depth) == Add(n, Unwind(rest[n..], depth + 1))
  {
    hide DecodeVarint;
    if depth > 0 {
      UnwindOpens(rest, depth, tag, n);
    } else if SkipGroup(rest[n..]).Some? {
      assert Unwind(rest[n..][SkipGroup(rest[n..]).value..], 0) == Some(0);
    }
  }

  lemma StrayEnd(rest: seq<byte>, tag: uint64, n: nat)
    requires n > 0 && DecodeVarint(rest) == (tag, n) && tag % 8 == 4
    ensures SkipItem(rest) == None
  {
  }

  /** The absolute bound the source checks and the relative one of the specification agree inside the buffer. */
  lemma Scalar(rest: seq<byte>, tag: uint64, n: nat, start: nat, l: nat)
    requires n > 0 && DecodeVarint(rest) == (tag, n) && tag % 8 != 3 && tag % 8 != 4
    requires start + |rest| == l <= INT_MAX
    ensures var absolute := Add(start + n, SkipScalar(tag % 8, rest[n..], start + n));
            || absolute == Add(start, SkipItem(rest))
            || (start > 0 && absolute == None && SkipItem(rest).value > |rest|)
  {
    hide DecodeVarint, SkipGroup;
  }

  lemma Done(rest: seq<byte>)
    ensures Unwind(rest, 0) == Some(0)
  {
  }

  lemma EndOfInput(depth: nat)
    ensures SkipItem([]) == None && (depth > 0 ==> Unwind([], depth) == None)
  {
  }

  // ----- prefixes

  lemma {:induction false} SkipItemPrefix(a: seq<byte>, b: seq<byte>)
    requires SkipItem(a).Some? && SkipItem(a).value <= |a|
    ensures SkipItem(a + b) == SkipItem(a)
    decreases |a|, 0
  {
    hide DecodeVarint;
    var (tag, n) := DecodeVarint(a);
    DecodePrefix(a, b);
    assert (a + b)[n..] == a[n..] + b;
    if tag % 8 == 3 {
      SkipGroupPrefix(a[n..], b);
    } else if tag % 8 == 0 || tag % 8 == 2 {
      DecodePrefix(a[n..], b);
    }
  }

  lemma {:induction false} SkipGroupPrefix(a: seq<byte>, b: seq<byte>)
    requires SkipGroup(a).Some?
    ensures SkipGroup(a + b) == SkipGroup(a)
    decreases |a|, 1
  {
    hide DecodeVarint, SkipItem;
    var (tag, n) := DecodeVarint(a);
    DecodePrefix(a, b);
    if tag % 8 == 4 {
    } else {
      SkipItemPrefix(a, b);
      var k := SkipItem(a).value;
      assert (a + b)[k..] == a[k..] + b;
      SkipGroupPrefix(a[k..], b);
    }
  }

  // ----- well-formed items, with groups nested to any depth

  datatype Item = Plain(field: Field) | Group(num: nat, body: seq<Item>, endNum: nat)

  ghost predicate ValidItem(it: Item)
  {
    match it
    case Plain(f) => f.Valid()
    case Group(num, body, endNum) =>
      && num < 0x2000_0000_0000_0000
      && endNum < 0x2000_0000_0000_0000
      && forall b :: b in body ==> ValidItem(b)
  }

  function EncodeItem(it: Item): (s: seq<byte>)
    ensures |s| >= 1
    decreases it, 1
  {
    match it
    case Plain(f) => EncodeField(f)
    case Group(num, body, endNum) =>
      EncodeVarint(num * 8 + 3) + EncodeItems(body) + EncodeVarint(endNum * 8 + 4)
  }

  function EncodeItems(items: seq<Item>): (s: seq<byte>)
    decreases items, 0
  {
    if items == [] then [] else EncodeItem(items[0]) + EncodeItems(items[1..])
  }

  /** The skipper passes over exactly one well-formed field, however deeply its groups nest. */
  lemma {:induction false} SkipInvertsEncode(it: Item, rest: seq<byte>)
    requires ValidItem(it) && |EncodeItem(it)| <= INT_MAX
    ensures SkipItem(EncodeItem(it) + rest) == Some(|EncodeItem(it)|)
    decreases it, 1
  {
    hide DecodeVarint, EncodeVarint, SkipGroup, EncodeItems;
    match it
    case Plain(f) =>
      SkipPlain(f, rest);
    case Group(num, body, endNum) =>
      var open, inner, close := EncodeVarint(num * 8 + 3), EncodeItems(body), EncodeVarint(endNum * 8 + 4);
      var data := EncodeItem(it) + rest;
      assert data == open + (inner + close + rest);
      DecodeInvertsEncode(num * 8 + 3, inner + close + rest);
      assert data[|open|..] == inner + close + rest;
      SkipGroupInvertsEncode(body, endNum, rest);
  }

  lemma {:induction false} SkipGroupInvertsEncode(items: seq<Item>, endNum: nat, rest: seq<byte>)
    requires forall b :: b in items ==> ValidItem(b)
    requires endNum < 0x2000_0000_0000_0000 && |EncodeItems(items)| <= INT_MAX
    ensures var close := EncodeVarint(endNum * 8 + 4);
            SkipGroup(EncodeItems(items) + close + rest) == Some(|EncodeItems(items)| + |close|)
    decreases items, 0
  {
    hide DecodeVarint, EncodeVarint, EncodeItem, SkipItem;
    var close := EncodeVarint(endNum * 8 + 4);
    if items == [] {
      DecodeInvertsEncode(endNum * 8 + 4, rest);
      assert EncodeItems(items) + close + rest == close + rest;
    } else {
      var head, tail := EncodeItem(items[0]), EncodeItems(items[1..]);
      var data := EncodeItems(items) + close + rest;
      assert data == head + (tail + close + rest);
      SkipInvertsEncode(items[0], tail + close + rest);
      NotAnEnd(items[0], tail + close + rest);
      assert data[|head|..] == tail + close + rest;
      SkipGroupInvertsEncode(items[1..], endNum, rest);
    }
  }

  lemma NotAnEnd(it: Item, rest: seq<byte>)
    requires ValidItem(it)
    ensures var (tag, n) := DecodeVarint(EncodeItem(it) + rest);
            n > 0 && tag % 8 != 4
  {
    hide DecodeVarint, EncodeVarint, EncodeItems;
    match it
    case Plain(f) =>
      assert EncodeItem(it) + rest == EncodeVarint(f.Tag()) + (f.Body() + rest);
      DecodeInvertsEncode(f.Tag(), f.Body() + rest);
    case Group(num, body, endNum) =>
      var after := EncodeItems(body) + EncodeVarint(endNum * 8 + 4) + rest;
      assert EncodeItem(it) + rest == EncodeVarint(num * 8 + 3) + after;
      DecodeInvertsEncode(num * 8 + 3, after);
  }

  lemma SkipPlain(f: Field, rest: seq<byte>)
    requires f.Valid() && |EncodeField(f)| <= INT_MAX
    ensures SkipItem(EncodeField(f) + rest) == Some(|EncodeField(f)|)
  {
    hide DecodeVarint, EncodeVarint, SkipGroup;
    var tag, body := EncodeVarint(f.Tag()), f.Body();
    assert EncodeField(f) + rest == tag + (body + rest);
    DecodeInvertsEncode(f.Tag(), body + rest);
    assert (tag + (body + rest))[|tag|..] == body + rest;
    BodyInvertsEncode(f, rest);
  }

  /** A group that is not ended is refused, whatever items stand in it. */
  lemma UnterminatedIsRefused(num: nat, items: seq<Item>)
    requires num < 0x2000_0000_0000_0000 && forall b :: b in items ==> ValidItem(b)
    requires |EncodeItems(items)| <= INT_MAX
    ensures SkipItem(EncodeVarint(num * 8 + 3) + EncodeItems(items)) == None
  {
    hide DecodeVarint, EncodeVarint, SkipGroup, EncodeItems;
    var tag, rest := EncodeVarint(num * 8 + 3), EncodeItems(items);
    DecodeInvertsEncode(num * 8 + 3, rest);
    assert (tag + rest)[|tag|..] == rest;
    OpenGroup(items);
  }

  lemma {:induction false} OpenGroup(items: seq<Item>)
    requires forall b :: b in items ==> ValidItem(b)
    requires |EncodeItems(items)| <= INT_MAX
    ensures SkipGroup(EncodeItems(items)) == None
  {
    hide DecodeVarint, EncodeItem, SkipItem;
    if items == [] {
      NothingDecodes();
    } else {
      var head, tail := EncodeItem(items[0]), EncodeItems(items[1..]);
      assert EncodeItems(items) == head + tail;
      SkipInvertsEncode(items[0], tail);
      NotAnEnd(items[0], tail);
      assert (head + tail)[|head|..] == tail;
      OpenGroup(items[1..]);
    }
  }

  lemma NothingDecodes()
    ensures DecodeVarint([]).1 == 0
  {
  }

  /** A tag that ends a group where none is open is refused. */
  lemma StrayEndIsRefused(num: nat, rest: seq<byte>)
    requires num < 0x2000_0000_0000_0000
    ensures SkipItem(EncodeVarint(num * 8 + 4) + rest) == None
  {
    hide DecodeVarint, EncodeVarint;
    DecodeInvertsEncode(num * 8 + 4, rest);
  }

  // ----- the two skippers of the repository

  /**
   Outside groups the two skippers move alike exactly when the end stays within Go's int; beyond it the
   generated one refuses, where the hand-written one moves to wherever the sum wraps around to.
   */
  lemma SkippersAgree(data: seq<byte>)
    requires |data| <= INT_MAX
    ensures var (tag, n) := DecodeVarint(data);
            n > 0 && tag % 8 != 3 ==>
              match SkipProtoField(data[n..], tag % 8)
              case Ok(k) =>
                var e := Extent(tag % 8, data[n..]);
                e.Some? && k == GoInt(e.value) && SkipItem(data) == if n + e.value <= INT_MAX then Some(n + k) else None
              case r => r.Err? && SkipItem(data) == None
  {
    hide DecodeVarint, SkipGroup, GoInt;
    var (tag, n) := DecodeVarint(data);
    if n > 0 {
      var (len, k) := DecodeVarint(data[n..]);
      WrapBelow(k, len);
    }
  }
}
