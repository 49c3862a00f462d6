/** The zig-zag helpers of the codec, with Python's operator precedence: `&` binds tighter than `^`. */
module Zigzag {
  import opened Results
  import opened Bits
  import opened Varints
  import opened Wire
  import opened WireMethods
  import Messages

  const MASK64: int := 0xFFFF_FFFF_FFFF_FFFF

  function EncZigzag64(v: int): int {
    Xor(Shl(v, 1), And(Shr(v, 63), MASK64))
  }

  function DecZigzag64(v: int): int {
    Xor(Shr(v, 1), -And(v, 1))
  }

  /** The zig-zag form of the Protocol Buffers encoding guide, section "Signed Integers". */
  function Standard(v: int): nat {
    if v >= 0 then 2 * v else -2 * v - 1
  }

  /** The decoder in arithmetic: even numbers halve, odd ones go down from -1. */
  lemma DecMeans(u: int)
    ensures DecZigzag64(u) == if u % 2 == 0 then u / 2 else -(u / 2) - 1
  {
    hide Xor, And;
    assert Pow2(1) == 2;
    AndMask(u, 1);
    XorZero(u / 2);
    XorMinusOne(u / 2);
  }

  /** The decoder inverts the standard form on every integer. */
  lemma DecInvertsStandard(v: int)
    ensures DecZigzag64(Standard(v)) == v
  {
    hide DecZigzag64;
    DecMeans(Standard(v));
  }

  lemma Pow2Step(n: nat)
    ensures Pow2(n + 1) == 2 * Pow2(n)
  {
  }

  /** What the encoder computes of any integer: its double, with the 64 bits from bit 63 up flipped in. */
  lemma EncZigzagMeans(v: int)
    ensures EncZigzag64(v) == Xor(2 * v, v / 0x8000_0000_0000_0000 % 0x1_0000_0000_0000_0000)
  {
    hide Xor, And, Pow2;
    Pow2Of64();
    Pow2Step(63);
    assert Pow2(1) == 2 by { Pow2Of1(); }
    StatusMask(Shr(v, 63));
  }

  lemma Pow2Of1()
    ensures Pow2(1) == 2
  {
  }

  /** The encoder gives the standard form for non-negative numbers and misses it by 2^64 below zero. */
  lemma EncZigzagExact(v: int)
    requires Messages.Int64(v)
    ensures EncZigzag64(v) == if v < 0 then Standard(v) - Messages.TWO64 else Standard(v)
  {
    hide Xor, EncZigzag64;
    EncZigzagMeans(v);
    if v < 0 {
      assert v / 0x8000_0000_0000_0000 == -1;
      Pow2Of64();
      XorMaskNegative(2 * v, 64);
    } else {
      XorZero(2 * v);
    }
  }

  /** What `_enc_sint32` appends: nothing for 0. */
  function SintBytes(num: nat, v: int): bytes {
    if v == 0 then [] else TagBytes(num, 0) + Enc(EncZigzag64(v))
  }

  method EncSint32(out: ByteArray, num: nat, v: int)
    modifies out
    ensures out.data == old(out.data) + SintBytes(num, v)
    ensures out.data == if v == 0 then old(out.data) else old(out.data) + Enc(num * 8) + Enc(EncZigzag64(v))
  {
    if v == 0 {
      return;
    }
    hide Enc, TagBytes, EncZigzag64;
    EncTag(out, num, 0);
    EncVarint(out, EncZigzag64(v));
    Associate(old(out.data), TagBytes(num, 0), Enc(EncZigzag64(v)), []);
    assert Enc(EncZigzag64(v)) + [] == Enc(EncZigzag64(v));
  }

  /** The number that reading the field back yields: 0 when there is none. */
  function SintBack(num: nat, b: bytes): Option<int> {
    if b == [] then Some(0)
    else
      match Next(b)
      case None => None
      case Some(f) =>
        if f.rec.Number? && f.rec.num == num && f.end == |b| then Some(DecZigzag64(f.rec.value)) else None
  }

  /** Writing and reading back works exactly from -64 upwards: below, only the low seven bits of a
      negative number are written. */
  lemma {:induction false} SintRoundTripIff(num: nat, v: int)
    requires Messages.Int64(v) && num * 8 < LIMIT
    ensures SintBack(num, SintBytes(num, v)) == Some(v) <==> v >= -64
  {
    hide EncZigzag64, DecZigzag64, Next, Varint, TagBytes;
    if v != 0 {
      EncZigzagExact(v);
      var z := EncZigzag64(v);
      var u := if v < 0 then z % 128 else z;
      assert Enc(z) == Enc(u);
      var b := SintBytes(num, v);
      assert b + [] == b == Ser(Number(num, u));
      NextSer(Number(num, u), []);
      DecMeans(u);
    }
  }
}
