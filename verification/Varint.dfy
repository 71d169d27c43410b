/**
 Base 128 varints, as written by `encodeVarintGenesis` and `sovGenesis` and as read by
 `protoDecodeVarint` and by the inlined `for shift := ...` loops of the generated parser.

 A byte is a number below 256, so `b & 0x7F` is `b % 128`, `v >> 7` is `v / 128` and the union
 of two values with disjoint bits is their sum.
 */
module Varint {
  import opened Arith

  type byte = x: int | 0 <= x < 256

  const U64: nat := 0x1_0000_0000_0000_0000

  type uint64 = x: int | 0 <= x < 0x1_0000_0000_0000_0000

  /** The low 64 bits of x. */
  function Low64(x: nat): (y: uint64)
  {
    x % 0x1_0000_0000_0000_0000
  }

  /** The longest varint either reader accepts. */
  const MAX_BYTES: nat := 10

  function Pow128(n: nat): (p: nat)
    ensures p >= 1
  {
    if n == 0 then 1 else 128 * Pow128(n - 1)
  }

  /** The minimal varint of v: seven bits a byte, least significant first. */
  function EncodeVarint(v: nat): (s: seq<byte>)
    ensures |s| >= 1
  {
    if v < 128 then [v] else [v % 128 + 128] + EncodeVarint(v / 128)
  }

  /** The number written by the low seven bits of every byte of s. */
  function Base128(s: seq<byte>): (p: nat)
  {
    if s == [] then 0 else s[0] % 128 + 128 * Base128(s[1..])
  }

  /** How many bytes the varint at the head of data has, or 0 when none of the first `budget` bytes ends it. */
  function VarintLen(data: seq<byte>, budget: nat): (n: nat)
    ensures n <= |data| && n <= budget
    ensures n > 0 ==> data[n - 1] < 128 && forall j :: 0 <= j < n - 1 ==> data[j] >= 128
    ensures n == 0 ==> forall j :: 0 <= j < |data| && j < budget ==> data[j] >= 128
  {
    if data == [] || budget == 0 then 0
    else if data[0] < 128 then 1
    else
      var n := VarintLen(data[1..], budget - 1);
      assert n == 0 ==> forall j :: 1 <= j < |data| && j < budget ==> data[j] == data[1..][j - 1];
      if n == 0 then 0 else n + 1
  }

  /** Value (truncated to 64 bits) and size of the varint at the head of data; size 0 when there is none. */
  function DecodeVarint(data: seq<byte>): (r: (uint64, nat))
    ensures r.1 <= |data| && r.1 <= MAX_BYTES
  {
    var n := VarintLen(data, MAX_BYTES);
    if n == 0 then (0, 0) else (Low64(Base128(data[..n])), n)
  }

  /** Number of bits of x (Go's math/bits.Len64). */
  function Len64(x: nat): (n: nat)
  {
    if x == 0 then 0 else 1 + Len64(x / 2)
  }

  /** The generated size of a varint: (Len64(x | 1) + 6) / 7. */
  function Sov(x: nat): (n: nat)
  {
    (Len64(if x % 2 == 0 then x + 1 else x) + 6) / 7
  }

  // ----- the arithmetic of base 128

  /** x moved up by i groups of seven bits. */
  function Weight(x: nat, i: nat): (w: nat)
  {
    if i == 0 then x else 128 * Weight(x, i - 1)
  }

  lemma {:induction false} ValueSnoc(s: seq<byte>, b: byte)
    ensures Base128(s + [b]) == Base128(s) + Weight(b % 128, |s|)
  {
    if s == [] {
    } else {
      assert (s + [b])[1..] == s[1..] + [b];
      ValueSnoc(s[1..], b);
    }
  }

  lemma {:induction false} ValueBound(s: seq<byte>)
    ensures Base128(s) < Pow128(|s|)
  {
    if s == [] {
    } else {
      ValueBound(s[1..]);
    }
  }

  lemma {:induction false} Pow128Monotone(m: nat, n: nat)
    requires m <= n
    ensures Pow128(m) <= Pow128(n)
  {
    if m == n {
    } else {
      Pow128Monotone(m, n - 1);
    }
  }

  lemma Pow128Nine()
    ensures Pow128(9) == 0x8000_0000_0000_0000
  {
    assert Pow128(3) == 0x20_0000;
    assert Pow128(6) == 0x400_0000_0000;
  }

  lemma Pow128Ten()
    ensures Pow128(MAX_BYTES) >= U64
  {
    Pow128Nine();
  }

  lemma {:induction false} EncodedLength(v: nat, n: nat)
    requires n >= 1
    ensures |EncodeVarint(v)| <= n <==> v < Pow128(n)
  {
    if v < 128 {
      Pow128Monotone(1, n);
    } else if n == 1 {
    } else {
      EncodedLength(v / 128, n - 1);
    }
  }

  lemma {:induction false} EncodedShape(v: nat, budget: nat)
    requires |EncodeVarint(v)| <= budget
    ensures Base128(EncodeVarint(v)) == v
    ensures VarintLen(EncodeVarint(v), budget) == |EncodeVarint(v)|
  {
    if v >= 128 {
      EncodedShape(v / 128, budget - 1);
    }
  }

  lemma {:induction false} VarintLenPrefix(a: seq<byte>, b: seq<byte>, budget: nat)
    requires VarintLen(a, budget) > 0
    ensures VarintLen(a + b, budget) == VarintLen(a, budget)
  {
    if a[0] < 128 {
    } else {
      assert (a + b)[1..] == a[1..] + b;
      VarintLenPrefix(a[1..], b, budget - 1);
    }
  }

  // ----- what the readers and the writer promise each other

  /** Bytes after a complete varint do not change what is read. */
  lemma DecodePrefix(a: seq<byte>, b: seq<byte>)
    requires DecodeVarint(a).1 > 0
    ensures DecodeVarint(a + b) == DecodeVarint(a)
  {
    VarintLenPrefix(a, b, MAX_BYTES);
    var n := VarintLen(a, MAX_BYTES);
    assert (a + b)[..n] == a[..n];
  }

  /** Every 64-bit value is read back from its encoding, whatever follows it. */
  lemma DecodeInvertsEncode(v: uint64, rest: seq<byte>)
    ensures |EncodeVarint(v)| <= MAX_BYTES
    ensures DecodeVarint(EncodeVarint(v) + rest) == (v, |EncodeVarint(v)|)
  {
    hide Pow128, EncodeVarint, VarintLen;
    Pow128Ten();
    EncodedLength(v, MAX_BYTES);
    EncodedShape(v, MAX_BYTES);
    var e := EncodeVarint(v);
    assert e[..|e|] == e;
    DecodePrefix(e, rest);
  }

  lemma OneByteVarint(b: byte, rest: seq<byte>)
    requires b < 128
    ensures DecodeVarint([b] + rest) == (b, 1)
  {
    DecodeInvertsEncode(b, rest);
  }

  /** No byte string shorter than the encoding of v is read as v. */
  lemma EncodingIsMinimal(data: seq<byte>)
    requires DecodeVarint(data).1 > 0
    ensures |EncodeVarint(DecodeVarint(data).0)| <= DecodeVarint(data).1
  {
    var (v, n) := DecodeVarint(data);
    ValueBound(data[..n]);
    EncodedLength(v, n);
  }

  /** The bit-counting size formula is the length of the encoding. */
  lemma {:induction false} SovIsLength(v: nat)
    ensures Sov(v) == |EncodeVarint(v)|
  {
    if v < 128 {
      BitsOfSmall(v);
    } else {
      BitsOfOr1(v);
      BitsOfOr1(v / 128);
      BitsBy7(v);
      SovIsLength(v / 128);
    }
  }

  lemma BitsOfSmall(v: nat)
    requires v < 128
    ensures 1 <= Len64(if v % 2 == 0 then v + 1 else v) <= 7
  {
    var w := if v % 2 == 0 then v + 1 else v;
    Len64AtMost(w, 7);
  }

  lemma {:induction false} Len64AtMost(x: nat, n: nat)
    requires x < Pow2(n)
    ensures Len64(x) <= n
  {
    if x == 0 {
    } else {
      Len64AtMost(x / 2, n - 1);
    }
  }

  lemma BitsOfOr1(v: nat)
    ensures v >= 1 ==> Len64(if v % 2 == 0 then v + 1 else v) == Len64(v)
  {
    if v >= 1 && v % 2 == 0 {
      assert (v + 1) / 2 == v / 2;
    }
  }

  lemma BitsBy4(v: nat)
    requires v >= 4
    ensures Len64(v) == 2 + Len64(v / 4)
  {
    var h := v / 2;
    assert h / 2 == v / 4;
  }

  lemma BitsBy7(v: nat)
    requires v >= 128
    ensures Len64(v) == 7 + Len64(v / 128)
  {
    BitsBy4(v);
    BitsBy4(v / 4);
    BitsBy4(v / 4 / 4);
    var w := v / 4 / 4 / 4;
    assert w / 2 == v / 128;
  }

  /** Which varints are read: the first byte below 128 among ten ends one, and its value is kept modulo 2^64. */
  lemma DecodesExactly(data: seq<byte>)
    ensures var (v, n) := DecodeVarint(data);
            && (n == 0 <==> forall j :: 0 <= j < |data| && j < 10 ==> data[j] >= 128)
            && (n == 0 ==> v == 0)
            && (n > 0 ==> && n <= 10 && data[n - 1] < 128 && (forall j :: 0 <= j < n - 1 ==> data[j] >= 128)
                          && v == Base128(data[..n]) % 0x1_0000_0000_0000_0000)
  {
    hide Base128;
  }

  /** A varint that is cut short is not read. */
  lemma CutVarint(v: nat, k: nat)
    requires k < |EncodeVarint(v)|
    ensures DecodeVarint(EncodeVarint(v)[..k]).1 == 0
  {
    hide EncodeVarint;
    EncodedBytes(v, |EncodeVarint(v)|);
    LenNone(EncodeVarint(v)[..k], MAX_BYTES);
  }

  lemma {:induction false} EncodedBytes(v: nat, n: nat)
    requires n == |EncodeVarint(v)|
    ensures forall j :: 0 <= j < n - 1 ==> EncodeVarint(v)[j] >= 128
  {
    if v < 128 {
    } else {
      EncodedBytes(v / 128, n - 1);
    }
  }

  // ----- the loops of the source

  /** `protoDecodeVarint`. */
  method ProtoDecodeVarint(data: seq<byte>) returns (val: uint64, n: nat)
    ensures (val, n) == DecodeVarint(data)
  {
    hide Base128, VarintLen;
    var acc: uint64, i := 0, 0;
    Base128Nothing();
    while i < |data| && i < MAX_BYTES
      invariant i <= |data| && i <= MAX_BYTES
      invariant forall j :: 0 <= j < i ==> data[j] >= 128
      invariant acc == Low64(Base128(data[..i]))
      invariant i < MAX_BYTES ==> acc == Base128(data[..i])
    {
      var b := data[i];
      Accumulate(data[..i], b);
      assert data[..i] + [b] == data[..i + 1];
      acc := acc + Shifted(b, i);
      if b < 128 {
        LenAt(data, MAX_BYTES, i + 1);
        return acc, i + 1;
      }
      i := i + 1;
    }
    LenNone(data, MAX_BYTES);
    return 0, 0;
  }

  lemma Base128Nothing()
    ensures Base128([]) == 0 == Low64(0)
  {
  }

  /** Go's uint64(b & 0x7F) << (7 * i): whatever passes bit 63 is dropped. */
  function Shifted(b: byte, i: nat): (x: uint64)
  {
    Low64(Weight(b % 128, i))
  }

  /** One step of a varint loop: the new seven bits are above all earlier ones, and the tenth byte is cut to 64 bits. */
  lemma Accumulate(s: seq<byte>, b: byte)
    requires |s| < MAX_BYTES
    ensures Base128(s) + Shifted(b, |s|) == Low64(Base128(s + [b]))
    ensures |s| + 1 < MAX_BYTES ==> Base128(s + [b]) < U64
  {
    hide Base128, Weight, Low64;
    ValueSnoc(s, b);
    ValueBelowTop(s);
    if |s| < 9 {
      ValueBelowTop(s + [b]);
      Low64Is(Weight(b % 128, |s|), 0, Weight(b % 128, |s|));
      Low64Is(Base128(s + [b]), 0, Base128(s + [b]));
    } else {
      WeightNine(b % 128, |s|);
      CutTopByte(Base128(s), b % 128, Weight(b % 128, |s|));
    }
  }

  lemma WeightNine(x: nat, i: nat)
    requires i == 9
    ensures Weight(x, i) == x * 0x8000_0000_0000_0000
  {
    assert Weight(x, 1) == x * 0x80;
    assert Weight(x, 2) == x * 0x4000;
    assert Weight(x, 3) == x * 0x20_0000;
    assert Weight(x, 4) == x * 0x1000_0000;
    assert Weight(x, 5) == x * 0x8_0000_0000;
    assert Weight(x, 6) == x * 0x400_0000_0000;
    assert Weight(x, 7) == x * 0x2_0000_0000_0000;
    assert Weight(x, 8) == x * 0x100_0000_0000_0000;
  }

  lemma ValueBelowTop(s: seq<byte>)
    requires |s| <= 9
    ensures Base128(s) < 0x8000_0000_0000_0000
  {
    ValueBound(s);
    Pow128Monotone(|s|, 9);
    Pow128Nine();
  }

  lemma Low64Is(x: nat, q: nat, r: nat)
    requires x == q * 0x1_0000_0000_0000_0000 + r && r < 0x1_0000_0000_0000_0000
    ensures Low64(x) == r
  {
  }

  lemma CutTopByte(low: nat, x: nat, w: nat)
    requires low < 0x8000_0000_0000_0000 && w == x * 0x8000_0000_0000_0000
    ensures low + Low64(w) == Low64(low + w)
  {
    var k, r := x / 2, x % 2 * 0x8000_0000_0000_0000;
    Low64Is(w, k, r);
    Low64Is(low + w, k, low + r);
  }

  lemma {:induction false} LenAt(data: seq<byte>, budget: nat, n: nat)
    requires 1 <= n <= |data| && n <= budget
    requires data[n - 1] < 128 && forall j :: 0 <= j < n - 1 ==> data[j] >= 128
    ensures VarintLen(data, budget) == n
  {
    assert VarintLen(data, budget) > 0;
  }

  lemma LenNone(data: seq<byte>, budget: nat)
    requires forall j :: 0 <= j < |data| && j < budget ==> data[j] >= 128
    ensures VarintLen(data, budget) == 0
  {
  }

  /** `encodeVarintGenesis`: writes v so that it ends just before `offset` and returns where it starts. */
  method EncodeVarintGenesis(dAtA: array<byte>, offset: nat, v: uint64) returns (base: nat)
    requires Sov(v) <= offset <= dAtA.Length
    modifies dAtA
    ensures base == offset - Sov(v)
    ensures dAtA[base..offset] == EncodeVarint(v)
    ensures dAtA[..base] == old(dAtA[..base]) && dAtA[offset..] == old(dAtA[offset..])
  {
    hide Sov;
    SovIsLength(v);
    base := offset - Sov(v);
    var at, w := base, v;
    while w >= 128
      invariant base <= at < offset
      invariant at + |EncodeVarint(w)| == offset
      invariant dAtA[base..at] + EncodeVarint(w) == EncodeVarint(v)
      invariant dAtA[..base] == old(dAtA[..base]) && dAtA[offset..] == old(dAtA[offset..])
      decreases w
    {
      ghost var done := dAtA[base..at];
      ghost var b, e := w % 128 + 128, EncodeVarint(w / 128);
      assert done + ([b] + e) == done + [b] + e;
      dAtA[at] := w % 128 + 128;
      assert dAtA[base..at + 1] == done + [b];
      w := w / 128;
      at := at + 1;
    }
    ghost var done := dAtA[base..at];
    dAtA[at] := w;
    assert dAtA[base..offset] == done + [w];
  }
}
