/**
 Base-128 varints and zigzag integers of the compact protocol
 (thrift/compact_protocol.go, "Internal writing methods" and "Internal reading methods").
 */
module Varint {
  import opened Widths

  // ----- varints -----

  /** Seven bits a byte, least significant first; every byte but the last has its top bit set. */
  function Encode(u: nat): (r: seq<byte>)
    ensures |r| >= 1
  {
    if u < 128 then [u] else [u % 128 + 128] + Encode(u / 128)
  }

  datatype Decoded = Decoded(ok: bool, value: nat, rest: seq<byte>)

  /** The number a varint spells, unbounded; a stream that ends inside the varint is an error and is used up. */
  function Spelled(s: seq<byte>): (d: Decoded)
    ensures |d.rest| <= |s|
    ensures d.ok ==> |d.rest| < |s|
  {
    if s == [] then
      Decoded(false, 0, [])
    else if s[0] < 128 then
      Decoded(true, s[0], s[1..])
    else
      var d := Spelled(s[1..]);
      d.(value := if d.ok then s[0] - 128 + 128 * d.value else 0)
  }

  /** readVarint64: the number spelled, kept in 64 bits. */
  function Decode(s: seq<byte>): (d: Decoded)
    ensures |d.rest| <= |s|
    ensures d.ok ==> |d.rest| < |s|
    ensures d.value < 0x1_0000_0000_0000_0000
  {
    var d := Spelled(s);
    d.(value := d.value % 0x1_0000_0000_0000_0000)
  }

  lemma {:induction false} SpelledEncode(u: nat, rest: seq<byte>)
    ensures Spelled(Encode(u) + rest) == Decoded(true, u, rest)
    decreases u
  {
    var s := Encode(u) + rest;
    if u < 128 {
      assert s[1..] == rest;
    } else {
      assert s[1..] == Encode(u / 128) + rest;
      SpelledEncode(u / 128, rest);
    }
  }

  /** Reading back any varint gives the value modulo 2^64 and consumes exactly its bytes. */
  lemma DecodeEncode(u: nat, rest: seq<byte>)
    ensures Decode(Encode(u) + rest) == Decoded(true, u % 0x1_0000_0000_0000_0000, rest)
  {
    SpelledEncode(u, rest);
  }

  lemma DecodeWord(u: uint64, rest: seq<byte>)
    ensures Decode(Encode(u) + rest) == Decoded(true, u, rest)
  {
    hide Encode, Decode;
    DecodeEncode(u, rest);
  }

  /**
   The reading loop's accumulator `acc` and the number `more` still to be read at `weight` = 1 << shift. Both are kept
   in 64 bits, so the weight is 0 once shift reaches 64.
   */
  function Combine(acc: nat, weight: nat, more: nat): (r: nat)
  {
    (acc + weight * more) % 0x1_0000_0000_0000_0000
  }

  lemma CombineStart(more: nat)
    ensures Combine(0, 1, more) == more % 0x1_0000_0000_0000_0000
  {
  }

  lemma CombineLast(acc: nat, weight: nat, bits: nat)
    ensures Combine(acc, weight, bits) == (acc + bits * weight) % 0x1_0000_0000_0000_0000
  {
  }

  /** One turn of the loop: acc |= bits << shift; shift += 7. */
  lemma CombineStep(acc: nat, weight: nat, bits: nat, more: nat)
    ensures Combine(acc, weight, bits + 128 * more)
         == Combine((acc + bits * weight) % 0x1_0000_0000_0000_0000, weight * 128 % 0x1_0000_0000_0000_0000, more)
  {
    var w' := weight * 128 % 0x1_0000_0000_0000_0000;
    var q := weight * 128 / 0x1_0000_0000_0000_0000;
    var a' := (acc + bits * weight) % 0x1_0000_0000_0000_0000;
    var q' := (acc + bits * weight) / 0x1_0000_0000_0000_0000;
    var k := q' + q * more;
    calc {
      acc + weight * (bits + 128 * more);
      acc + bits * weight + (weight * 128) * more;
      acc + bits * weight + (q * 0x1_0000_0000_0000_0000 + w') * more;
      acc + bits * weight + w' * more + (q * more) * 0x1_0000_0000_0000_0000;
      a' + w' * more + k * 0x1_0000_0000_0000_0000;
    }
    MultipleDrops(a' + w' * more, k);
  }

  lemma MultipleDrops(x: int, k: int)
    ensures (x + k * 0x1_0000_0000_0000_0000) % 0x1_0000_0000_0000_0000 == x % 0x1_0000_0000_0000_0000
  {
  }

  function Pow128(k: nat): (r: nat)
    ensures r >= 1
  {
    if k == 0 then 1 else 128 * Pow128(k - 1)
  }

  /** The exact size of a varint: at most k bytes just when the value is below 128^k. */
  lemma {:induction false} EncodeLength(u: nat, k: nat)
    requires k >= 1
    ensures |Encode(u)| <= k <==> u < Pow128(k)
    decreases k
  {
    if u < 128 {
      assert Pow128(k) >= 128 by { assert Pow128(k) == 128 * Pow128(k - 1); }
    } else if k == 1 {
      assert Pow128(1) == 128 * Pow128(0);
    } else {
      EncodeLength(u / 128, k - 1);
      assert Pow128(k) == 128 * Pow128(k - 1);
    }
  }

  lemma Pow128Values()
    ensures Pow128(1) == 0x80 && Pow128(2) == 0x4000 && Pow128(3) == 0x20_0000
    ensures Pow128(4) == 0x1000_0000 && Pow128(5) == 0x8_0000_0000
    ensures Pow128(9) == 0x8000_0000_0000_0000 && Pow128(10) == 0x40_0000_0000_0000_0000
  {
  }

  /** Varints of 32-bit words take 1 to 5 bytes, of 64-bit words 1 to 10. */
  lemma WordLengths(u: uint64)
    ensures 1 <= |Encode(u)| <= 10
    ensures u < 0x1_0000_0000 ==> |Encode(u)| <= 5
    ensures |Encode(u)| <= 9 <==> u < 0x8000_0000_0000_0000
  {
    Pow128Values();
    EncodeLength(u, 5);
    EncodeLength(u, 9);
    EncodeLength(u, 10);
  }

  /** writeVarint32: fills a five-byte buffer; that its index stays inside is part of what is proved. */
  method WriteVarint32(n: int32) returns (out: seq<byte>)
    ensures out == Encode(Unsigned32(n))
    ensures 1 <= |out| <= 5
  {
    hide Encode;
    ghost var word := Unsigned32(n);
    WordLengths(word);
    var i32buf := new byte[5];
    var idx := 0;
    var m: int32 := n;
    while !(0 <= m < 128)
      invariant 0 <= idx < 5
      invariant Encode(word) == i32buf[..idx] + Encode(Unsigned32(m))
      decreases Unsigned32(m)
    {
      var u := Unsigned32(m);
      LowBits32(m);
      EncodeStep(u);
      i32buf[idx] := m % 128 + 128;
      m := Signed32(u / 128);
      idx := idx + 1;
      assert |Encode(word)| == idx + |Encode(Unsigned32(m))|;
    }
    EncodeSmall(m);
    i32buf[idx] := m;
    idx := idx + 1;
    out := i32buf[..idx];
  }

  /** writeVarint64, with its ten-byte buffer. */
  method WriteVarint64(n: int64) returns (out: seq<byte>)
    ensures out == Encode(Unsigned64(n))
    ensures 1 <= |out| <= 10
  {
    hide Encode;
    ghost var word := Unsigned64(n);
    WordLengths(word);
    var varint64out := new byte[10];
    var idx := 0;
    var m: int64 := n;
    while !(0 <= m < 128)
      invariant 0 <= idx < 10
      invariant Encode(word) == varint64out[..idx] + Encode(Unsigned64(m))
      decreases Unsigned64(m)
    {
      var u := Unsigned64(m);
      LowBits64(m);
      EncodeStep(u);
      varint64out[idx] := m % 128 + 128;
      m := Signed64(u / 128);
      idx := idx + 1;
      assert |Encode(word)| == idx + |Encode(Unsigned64(m))|;
    }
    EncodeSmall(m);
    varint64out[idx] := m;
    idx := idx + 1;
    out := varint64out[..idx];
  }

  lemma EncodeSmall(u: nat)
    requires u < 128
    ensures Encode(u) == [u]
  {
  }

  lemma EncodeStep(u: nat)
    requires u >= 128
    ensures Encode(u) == [u % 128 + 128] + Encode(u / 128)
  {
  }

  lemma LowBits32(m: int32)
    ensures m % 128 == Unsigned32(m) % 128
    ensures !(0 <= m < 128) ==> Unsigned32(m) >= 128
    ensures 0 <= m ==> Unsigned32(m) == m
  {
  }

  lemma LowBits64(m: int64)
    ensures m % 128 == Unsigned64(m) % 128
    ensures !(0 <= m < 128) ==> Unsigned64(m) >= 128
    ensures 0 <= m ==> Unsigned64(m) == m
  {
  }

  // ----- zigzag -----

  /** x ^ mask for a mask that an arithmetic shift or a negation produced: all zeros or all ones. */
  function XorMask(x: int, mask: int): (r: int)
    requires mask == 0 || mask == -1
    ensures mask == 0 ==> r == x
    ensures mask == -1 ==> x + r == -1
  {
    if mask == 0 then x else -x - 1
  }

  /** (n << 1) ^ (n >> 31) on a signed 32-bit word. */
  function Int32ToZigzag(n: int32): (r: int32)
  {
    XorMask(Signed32(Unsigned32(n) * 2 % 0x1_0000_0000), if n < 0 then -1 else 0)
  }

  /** (l << 1) ^ (l >> 63) on a signed 64-bit word. */
  function Int64ToZigzag(l: int64): (r: int64)
  {
    XorMask(Signed64(Unsigned64(l) * 2 % 0x1_0000_0000_0000_0000), if l < 0 then -1 else 0)
  }

  /** int32(uint32(n) >> 1) ^ -(n & 1). */
  function ZigzagToInt32(n: int32): (r: int32)
  {
    XorMask(Signed32(Unsigned32(n) / 2), -(n % 2))
  }

  /** int64(uint64(n) >> 1) ^ -(n & 1). */
  function ZigzagToInt64(n: int64): (r: int64)
  {
    XorMask(Signed64(Unsigned64(n) / 2), -(n % 2))
  }

  /** What zigzag is for: numbers near zero, of either sign, become small unsigned words. */
  lemma ZigzagMagnitude32(n: int32)
    ensures Unsigned32(Int32ToZigzag(n)) == if n >= 0 then 2 * n else -2 * n - 1
  {
  }

  lemma ZigzagMagnitude64(l: int64)
    ensures Unsigned64(Int64ToZigzag(l)) == if l >= 0 then 2 * l else -2 * l - 1
  {
  }

  lemma UnzigzagMagnitude32(n: int32)
    ensures var u := Unsigned32(n); ZigzagToInt32(n) == if u % 2 == 0 then u / 2 else -(u / 2) - 1
  {
  }

  lemma UnzigzagMagnitude64(n: int64)
    ensures var u := Unsigned64(n); ZigzagToInt64(n) == if u % 2 == 0 then u / 2 else -(u / 2) - 1
  {
  }

  /** Zigzag is a bijection at both widths. */
  lemma ZigzagBijection32(n: int32)
    ensures ZigzagToInt32(Int32ToZigzag(n)) == n
    ensures Int32ToZigzag(ZigzagToInt32(n)) == n
  {
    ZigzagMagnitude32(n);
    UnzigzagMagnitude32(Int32ToZigzag(n));
    UnzigzagMagnitude32(n);
    ZigzagMagnitude32(ZigzagToInt32(n));
  }

  lemma ZigzagBijection64(n: int64)
    ensures ZigzagToInt64(Int64ToZigzag(n)) == n
    ensures Int64ToZigzag(ZigzagToInt64(n)) == n
  {
    ZigzagMagnitude64(n);
    UnzigzagMagnitude64(Int64ToZigzag(n));
    UnzigzagMagnitude64(n);
    ZigzagMagnitude64(ZigzagToInt64(n));
  }

  /** A non-negative i64 takes at most nine bytes on the wire exactly when it is below 2^62. */
  lemma NineBytes(l: int64)
    requires l >= 0
    ensures |Encode(Unsigned64(Int64ToZigzag(l)))| <= 9 <==> l < 0x4000_0000_0000_0000
  {
    ZigzagMagnitude64(l);
    WordLengths(Unsigned64(Int64ToZigzag(l)));
  }

  // ----- the wire form of signed integers -----

  function EncodeI32(n: int32): (r: seq<byte>)
  {
    Encode(Unsigned32(Int32ToZigzag(n)))
  }

  function EncodeI64(l: int64): (r: seq<byte>)
  {
    Encode(Unsigned64(Int64ToZigzag(l)))
  }

  /** WriteI32 then ReadI32 is the identity on every word. */
  lemma RoundTripI32(n: int32, rest: seq<byte>)
    ensures Decode(EncodeI32(n) + rest).ok && Decode(EncodeI32(n) + rest).rest == rest
    ensures ZigzagToInt32(Truncate32(Decode(EncodeI32(n) + rest).value)) == n
  {
    Raw32RoundTrip(Int32ToZigzag(n), rest);
    ZigzagBijection32(n);
  }

  /** WriteI64 then ReadI64 is the identity on every word. */
  lemma RoundTripI64(l: int64, rest: seq<byte>)
    ensures Decode(EncodeI64(l) + rest).ok && Decode(EncodeI64(l) + rest).rest == rest
    ensures ZigzagToInt64(Signed64(Decode(EncodeI64(l) + rest).value)) == l
  {
    DecodeWord(Unsigned64(Int64ToZigzag(l)), rest);
    ZigzagBijection64(l);
  }

  /** The raw 32-bit varint, which carries sequence ids and sizes: writeVarint32 then readVarint32. */
  lemma Raw32RoundTrip(n: int32, rest: seq<byte>)
    ensures Decode(Encode(Unsigned32(n)) + rest).ok && Decode(Encode(Unsigned32(n)) + rest).rest == rest
    ensures Truncate32(Decode(Encode(Unsigned32(n)) + rest).value) == n
  {
    DecodeEncode(Unsigned32(n), rest);
  }
}
