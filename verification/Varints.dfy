/** Base 128 varints: the specification of the encoder and of the ten-byte decoder. */
module Varints {
  import opened Results
  import opened Bits

  type byte = b: int | 0 <= b < 256
  type bytes = seq<byte>

  /** The decoder reads at most ten groups of seven bits, so no value reaches 2^70. */
  const ROOM: nat := 10
  const LIMIT: int := 0x40_0000_0000_0000_0000

  /** The numbers that fit in n groups of seven bits are those below Cap(n). */
  function Cap(n: nat): (c: int)
    ensures c >= 1
  {
    if n == 0 then 1 else 128 * Cap(n - 1)
  }

  lemma CapOfRoom()
    ensures Cap(ROOM) == LIMIT
    ensures Cap(9) == 0x8000_0000_0000_0000
  {
    assert Cap(3) == 0x20_0000;
    assert Cap(6) == 128 * (128 * (128 * Cap(3)));
    assert Cap(9) == 128 * (128 * (128 * Cap(6)));
  }

  lemma {:induction false} CapIsPow2(n: nat)
    ensures Cap(n) == Pow2(7 * n)
  {
    if n == 0 {
    } else {
      CapIsPow2(n - 1);
      var k := 7 * (n - 1);
      assert Pow2(k + 2) == 2 * Pow2(k + 1) == 4 * Pow2(k);
      assert Pow2(k + 4) == 2 * Pow2(k + 3) == 4 * Pow2(k + 2);
      assert Pow2(k + 6) == 2 * Pow2(k + 5) == 4 * Pow2(k + 4);
      assert Pow2(k + 7) == 128 * Pow2(k);
    }
  }

  lemma {:induction false} CapMonotone(m: nat, n: nat)
    requires m <= n
    ensures Cap(m) <= Cap(n)
  {
    if m < n {
      CapMonotone(m, n - 1);
    }
  }

  /** What the encoder writes. A negative number is below 0x80, so it becomes its low seven bits. */
  function Enc(v: int): (b: bytes)
    ensures |b| >= 1
    decreases if v < 0 then 0 else v
  {
    if v >= 0x80 then [v % 128 + 128] + Enc(v / 128) else [v % 128]
  }

  datatype Read = Read(value: nat, used: nat)

  /** The value at the front of b and the number of bytes it takes; None when the input ends
      first or when `room` bytes all have the continuation bit. A decoded value is never
      shorter than its encoding. */
  function Dec(b: bytes, room: nat): (r: Option<Read>)
    ensures r.Some? ==>
              && 1 <= r.value.used <= |b| && r.value.used <= room
              && |Enc(r.value.value)| <= r.value.used
              && r.value.value < Cap(room)
  {
    if b == [] || room == 0 then
      None
    else if b[0] < 0x80 then
      assert Cap(room) == 128 * Cap(room - 1);
      Some(Read(b[0], 1))
    else
      match Dec(b[1..], room - 1)
      case None => None
      case Some(t) => Some(Read(b[0] - 128 + 128 * t.value, t.used + 1))
  }

  /** The decoder as the codec calls it. */
  function Varint(b: bytes): (r: Option<Read>)
    ensures r.Some? ==>
              && 1 <= r.value.used <= |b|
              && |Enc(r.value.value)| <= r.value.used
              && r.value.value < LIMIT
  {
    CapOfRoom();
    Dec(b, ROOM)
  }

  /** What remains of b from index i on; nothing once i has passed the end. */
  function Drop(b: bytes, i: nat): bytes {
    if i <= |b| then b[i..] else []
  }

  /** The first n bytes of b, or all of b when it is shorter: Python's slice. */
  function Take(b: bytes, n: nat): (t: bytes)
    ensures |t| == if n <= |b| then n else |b|
  {
    if n <= |b| then b[..n] else b
  }

  lemma DropDrop(b: bytes, i: nat, j: nat)
    ensures Drop(Drop(b, i), j) == Drop(b, i + j)
  {
  }

  // ----- lemmas about the codec -----

  /** The number that groups of seven bits stand for, low group first. */
  function Groups(b: bytes): nat {
    if b == [] then 0 else b[0] % 128 + 128 * Groups(b[1..])
  }

  /** An encoding is the number's groups, each but the last marked by the continuation bit. */
  lemma {:induction false} EncMeans(v: nat)
    ensures Groups(Enc(v)) == v
    ensures forall i :: 0 <= i < |Enc(v)| ==> (Enc(v)[i] >= 0x80 <==> i < |Enc(v)| - 1)
    ensures |Enc(v)| > 1 ==> Enc(v)[|Enc(v)| - 1] > 0
  {
    if v < 0x80 {
      assert Enc(v)[1..] == [];
    } else {
      EncMeans(v / 128);
      assert Enc(v)[1..] == Enc(v / 128);
      assert forall i :: 0 < i < |Enc(v)| ==> Enc(v)[i] == Enc(v / 128)[i - 1];
    }
  }

  /** A successful read yields what the groups it uses stand for. */
  lemma {:induction false} DecMeans(b: bytes, room: nat)
    requires Dec(b, room).Some?
    ensures Dec(b, room).value.value == Groups(b[..Dec(b, room).value.used])
  {
    var used := Dec(b, room).value.used;
    var a := b[..used];
    if b[0] < 0x80 {
      assert a[1..] == [];
    } else {
      DecMeans(b[1..], room - 1);
      assert a[1..] == b[1..][..used - 1];
    }
  }

  /** Decoding an encoding in front of anything gives the number back and stops exactly after it,
      if and only if the number fits. */
  lemma {:induction false} DecEnc(v: nat, s: bytes, room: nat)
    ensures Dec(Enc(v) + s, room) == if v < Cap(room) && room > 0 then Some(Read(v, |Enc(v)|)) else None
    decreases v
  {
    if room > 0 && v >= 0x80 {
      assert (Enc(v) + s)[1..] == Enc(v / 128) + s;
      DecEnc(v / 128, s, room - 1);
      assert Cap(room) == 128 * Cap(room - 1);
    }
  }

  lemma {:induction false} VarintEnc(v: nat, s: bytes)
    ensures Varint(Enc(v) + s) == if v < LIMIT then Some(Read(v, |Enc(v)|)) else None
  {
    CapOfRoom();
    DecEnc(v, s, ROOM);
  }

  /** Decoding at an index: between any prefix and any suffix. */
  lemma VarintInContext(p: bytes, v: nat, s: bytes)
    ensures Varint(Drop(p + Enc(v) + s, |p|)) == if v < LIMIT then Some(Read(v, |Enc(v)|)) else None
  {
    assert Drop(p + Enc(v) + s, |p|) == Enc(v) + s;
    VarintEnc(v, s);
  }

  /** A successful read depends on the bytes it uses and on no others. */
  lemma {:induction false} DecLocal(b: bytes, s: bytes, room: nat)
    requires Dec(b, room).Some?
    ensures Dec(b[..Dec(b, room).value.used] + s, room) == Dec(b, room)
  {
    if b[0] >= 0x80 {
      var used := Dec(b, room).value.used;
      DecLocal(b[1..], s, room - 1);
      assert (b[..used] + s)[1..] == b[1..][..used - 1] + s;
    }
  }

  lemma VarintExtends(b: bytes, s: bytes)
    requires Varint(b).Some?
    ensures Varint(b + s) == Varint(b)
  {
    var used := Varint(b).value.used;
    assert b[..used] + (b[used..] + s) == b + s;
    DecLocal(b, b[used..] + s, ROOM);
  }

  lemma VarintTruncated(b: bytes, n: nat)
    requires Varint(b).Some? && Varint(b).value.used <= n <= |b|
    ensures Varint(b[..n]) == Varint(b)
  {
    var used := Varint(b).value.used;
    assert b[..used] + b[used..n] == b[..n];
    DecLocal(b, b[used..n], ROOM);
  }

  /** Decoding succeeds exactly when a byte below 0x80 comes in time, and then uses the bytes up to it. */
  lemma {:induction false} DecSucceedsIff(b: bytes, room: nat)
    ensures Dec(b, room).Some? <==> exists j :: 0 <= j < |b| && j < room && b[j] < 0x80
    ensures Dec(b, room).Some? ==>
              var last := Dec(b, room).value.used - 1;
              b[last] < 0x80 && forall j :: 0 <= j < last ==> b[j] >= 0x80
  {
    if b != [] && room > 0 && b[0] >= 0x80 {
      DecSucceedsIff(b[1..], room - 1);
      assert forall j :: 0 < j < |b| ==> b[j] == b[1..][j - 1];
    }
  }

  lemma VarintSucceedsIff(b: bytes)
    ensures Varint(b).Some? <==> exists j :: 0 <= j < |b| && j < 10 && b[j] < 0x80
  {
    DecSucceedsIff(b, ROOM);
  }

  /** n bytes encode exactly the numbers from Cap(n - 1) up to Cap(n). */
  lemma {:induction false} EncLength(v: nat, n: nat)
    requires n >= 1
    ensures |Enc(v)| <= n <==> v < Cap(n)
    decreases v
  {
    assert Cap(n) == 128 * Cap(n - 1);
    if v >= 0x80 {
      if n == 1 {
        assert Cap(0) == 1;
      } else {
        EncLength(v / 128, n - 1);
      }
    }
  }

  lemma EncMonotone(v: nat, w: nat)
    requires v <= w
    ensures |Enc(v)| <= |Enc(w)|
  {
    EncLength(w, |Enc(w)|);
    EncLength(v, |Enc(w)|);
  }

  /** A sign-extended negative status takes ten bytes. */
  lemma NegativeTakesTenBytes(status: int)
    requires -0x8000_0000_0000_0000 <= status < 0
    ensures |Enc(status + 0x1_0000_0000_0000_0000)| == 10
  {
    CapOfRoom();
    EncLength(status + 0x1_0000_0000_0000_0000, 9);
    EncLength(status + 0x1_0000_0000_0000_0000, 10);
  }

  lemma {:induction false} CapExceeds(v: nat)
    ensures v < Cap(v)
  {
    if v == 0 {
    } else {
      CapExceeds(v - 1);
    }
  }

  /** No encoding is a proper prefix of another. */
  lemma PrefixFree(v: nat, w: nat)
    requires Enc(v) <= Enc(w)
    ensures v == w
  {
    var room := v + w + 1;
    CapExceeds(room);
    CapExceeds(v); CapMonotone(v, room);
    CapExceeds(w); CapMonotone(w, room);
    var s := Enc(w)[|Enc(v)|..];
    assert Enc(w) == Enc(v) + s && Enc(w) + [] == Enc(w);
    DecEnc(v, s, room);
    DecEnc(w, [], room);
  }
}
