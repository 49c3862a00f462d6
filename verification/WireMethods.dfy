/** The low-level helpers of the codec: encoders that append to a `bytearray`, and decoders that walk an
    index over immutable `bytes`. */
module WireMethods {
  import opened Results
  import opened Bits
  import opened Varints
  import opened Utf8
  import opened Utf8Laws
  import opened Wire
  import Messages

  /** Python's growable `bytearray`. */
  class ByteArray {
    var data: bytes

    constructor ()
      ensures data == []
    {
      data := [];
    }

    method Append(b: byte)
      modifies this
      ensures data == old(data) + [b]
    {
      data := data + [b];
    }

    method Extend(b: bytes)
      modifies this
      ensures data == old(data) + b
    {
      data := data + b;
    }
  }

  lemma LowSeven(v: int)
    ensures And(v, 0x7F) == v % 128
  {
    hide And;
    AndMask(v, 7);
  }

  lemma WithContinuation(v: nat)
    requires v < 128
    ensures Or(v, 0x80) == v + 128
  {
    hide Or;
    OrDisjoint(v, 1, 7);
  }

  // ----- encoders -----

  method EncVarint(out: ByteArray, v: int)
    modifies out
    ensures out.data == old(out.data) + Enc(v)
  {
    hide And, Or;
    var w := v;
    while w >= 0x80
      invariant out.data + Enc(w) == old(out.data) + Enc(v)
      decreases if w < 0 then 0 else w
    {
      LowSeven(w);
      WithContinuation(w % 128);
      assert Enc(w) == [w % 128 + 128] + Enc(w / 128);
      out.Append(Or(And(w, 0x7F), 0x80));
      w := Shr(w, 7);
    }
    LowSeven(w);
    out.Append(And(w, 0x7F));
  }

  lemma TagWord(num: nat, wire: nat)
    requires wire < 8
    ensures Or(Shl(num, 3), wire) == num * 8 + wire
  {
    assert Pow2(3) == 8;
    OrCommutes(Shl(num, 3), wire);
    OrDisjoint(wire, num, 3);
  }

  lemma {:induction false} OrCommutes(a: int, b: int)
    ensures Or(a, b) == Or(b, a)
    decreases Mag(a) + Mag(b)
  {
    if !(-1 <= a <= 0 && -1 <= b <= 0) {
      OrCommutes(a / 2, b / 2);
    }
  }

  method EncTag(out: ByteArray, num: nat, wire: nat)
    requires wire < 8
    modifies out
    ensures out.data == old(out.data) + TagBytes(num, wire)
    ensures out.data == old(out.data) + Enc(num * 8 + wire)
  {
    TagWord(num, wire);
    EncVarint(out, Or(Shl(num, 3), wire));
  }

  method EncBytes(out: ByteArray, num: nat, b: bytes)
    modifies out
    ensures out.data == old(out.data) + Serialize(Messages.BytesRecords(num, b))
    ensures out.data == if b == [] then old(out.data) else old(out.data) + Enc(num * 8 + 2) + Enc(|b|) + b
  {
    if b == [] {
      return;
    }
    EncSubmessage(out, num, b);
    SerializeOne(Chunk(num, b));
  }

  method EncString(out: ByteArray, num: nat, s: str) returns (r: Outcome)
    modifies out
    ensures r.Done? <==> Encodable(s)
    ensures r.Done? <==> forall c <- s :: c < 0xD800 || c > 0xDFFF
    ensures r.Done? ==> out.data == old(out.data) + Serialize(Messages.StrRecords(num, s))
    ensures r.Done? ==>
              var b := Units8(s);
              out.data == if s == [] then old(out.data) else old(out.data) + Enc(num * 8 + 2) + Enc(|b|) + b
  {
    if s == [] {
      return Done;
    }
    hide Units8, Enc, TagBytes, Ser, Serialize;
    var b := Utf8.Encode(s);
    if b.ValueError? {
      return Raised;
    }
    EncTag(out, num, 2);
    EncVarint(out, |b.value|);
    out.Extend(b.value);
    SerChunk(old(out.data), num, b.value);
    SerializeOne(Chunk(num, b.value));
    return Done;
  }

  method EncRepeatedString(out: ByteArray, num: nat, ss: seq<str>) returns (r: Outcome)
    modifies out
    ensures r.Done? <==> forall s <- ss :: Encodable(s)
    ensures r.Done? <==> forall s <- ss, c <- s :: c < 0xD800 || c > 0xDFFF
    ensures r.Done? ==> out.data == old(out.data) + Serialize(Messages.RepeatedRecords(num, ss))
  {
    hide Units8, Enc, TagBytes, Ser, Serialize, Messages.RepeatedRecords;
    for i := 0 to |ss|
      invariant forall s <- ss[..i] :: Encodable(s)
      invariant out.data + Serialize(Messages.RepeatedRecords(num, ss[i..]))
             == old(out.data) + Serialize(Messages.RepeatedRecords(num, ss))
    {
      assert ss[i] in ss && ss[..i + 1] == ss[..i] + [ss[i]];
      ghost var before := out.data;
      EncTag(out, num, 2);
      var b := Utf8.Encode(ss[i]);
      if b.ValueError? {
        return Raised;
      }
      EncVarint(out, |b.value|);
      out.Extend(b.value);
      SerChunk(before, num, b.value);
      RepeatedStep(num, ss, i);
    }
    assert ss[..|ss|] == ss && ss[|ss|..] == [];
    RepeatedNone(num);
    assert out.data + [] == out.data;
    return Done;
  }

  lemma RepeatedStep(num: nat, ss: seq<str>, i: nat)
    requires i < |ss|
    ensures Serialize(Messages.RepeatedRecords(num, ss[i..]))
         == Ser(Chunk(num, Units8(ss[i]))) + Serialize(Messages.RepeatedRecords(num, ss[i + 1..]))
  {
    hide Ser, Units8;
    assert ss[i..][1..] == ss[i + 1..] && ss[i..][0] == ss[i];
    SerializeCons(Chunk(num, Units8(ss[i])), Messages.RepeatedRecords(num, ss[i + 1..]));
  }

  lemma RepeatedNone(num: nat)
    ensures Serialize(Messages.RepeatedRecords(num, [])) == []
  {
  }

  lemma SerializeCons(r: Record, rs: seq<Record>)
    ensures Serialize([r] + rs) == Ser(r) + Serialize(rs)
  {
    assert ([r] + rs)[1..] == rs;
  }

  lemma Pow2Of64()
    ensures Pow2(64) == Messages.TWO64
  {
    assert Pow2(4) == 16 && Pow2(8) == 16 * Pow2(4) && Pow2(12) == 16 * Pow2(8) && Pow2(16) == 16 * Pow2(12);
    assert Pow2(20) == 16 * Pow2(16) && Pow2(24) == 16 * Pow2(20) && Pow2(28) == 16 * Pow2(24);
    assert Pow2(32) == 16 * Pow2(28) && Pow2(36) == 16 * Pow2(32) && Pow2(40) == 16 * Pow2(36);
    assert Pow2(44) == 16 * Pow2(40) && Pow2(48) == 16 * Pow2(44) && Pow2(52) == 16 * Pow2(48);
    assert Pow2(56) == 16 * Pow2(52) && Pow2(60) == 16 * Pow2(56) && Pow2(64) == 16 * Pow2(60);
  }

  lemma StatusMask(v: int)
    ensures And(v, 0xFFFF_FFFF_FFFF_FFFF) == v % Messages.TWO64
  {
    hide And, Pow2;
    Pow2Of64();
    AndMask(v, 64);
  }

  method EncInt32(out: ByteArray, num: nat, v: int)
    modifies out
    ensures out.data == old(out.data) + Serialize(Messages.StatusRecords(num, v))
    ensures out.data == if v == 0 then old(out.data)
                        else old(out.data) + Enc(num * 8) + Enc(if v < 0 then v % 0x1_0000_0000_0000_0000 else v)
  {
    if v == 0 {
      return;
    }
    hide Enc, TagBytes, Ser, Serialize, And;
    EncTag(out, num, 0);
    var w := v;
    if w < 0 {
      StatusMask(w);
      w := And(w, 0xFFFF_FFFF_FFFF_FFFF);
    }
    EncVarint(out, w);
    SerNumber(old(out.data), num, Messages.Unsigned(v));
    SerializeOne(Number(num, Messages.Unsigned(v)));
  }

  method EncSubmessage(out: ByteArray, num: nat, sub: bytes)
    modifies out
    ensures out.data == old(out.data) + Ser(Chunk(num, sub))
    ensures out.data == old(out.data) + Enc(num * 8 + 2) + Enc(|sub|) + sub
  {
    hide Enc, TagBytes, Ser;
    EncTag(out, num, 2);
    EncVarint(out, |sub|);
    out.Extend(sub);
    SerChunk(old(out.data), num, sub);
  }

  lemma SerChunk(before: bytes, num: nat, b: bytes)
    ensures before + TagBytes(num, 2) + Enc(|b|) + b == before + Ser(Chunk(num, b))
  {
    Associate(before, TagBytes(num, 2), Enc(|b|), b);
  }

  lemma SerNumber(before: bytes, num: nat, v: nat)
    ensures before + TagBytes(num, 0) + Enc(v) == before + Ser(Number(num, v))
  {
    Associate(before, TagBytes(num, 0), Enc(v), []);
    assert Enc(v) + [] == Enc(v);
  }

  lemma Associate(a: bytes, b: bytes, c: bytes, d: bytes)
    ensures a + b + c + d == a + (b + (c + d))
  {
  }

  // ----- decoders -----

  /** A value whose first k groups are v and whose remaining groups are x. */
  function Plus(v: nat, k: nat, x: nat): nat {
    v + Cap(k) * x
  }

  /** The whole value, given the part v decoded from k groups and what the rest of the input yields. */
  function Lift(v: nat, k: nat, d: Option<Read>): Option<Read> {
    match d
    case None => None
    case Some(x) => Some(Read(Plus(v, k, x.value), x.used + k))
  }

  lemma DecStep(b: bytes, room: nat)
    requires b != [] && room > 0
    ensures Dec(b, room) ==
            if b[0] < 0x80 then Some(Read(b[0], 1))
            else
              match Dec(b[1..], room - 1)
              case None => None
              case Some(t) => Some(Read(b[0] - 128 + 128 * t.value, t.used + 1))
  {
  }

  lemma LiftStep(v: nat, k: nat, b: bytes)
    requires k < ROOM && b != []
    ensures Lift(v, k, Dec(b, ROOM - k)) ==
            if b[0] < 0x80 then Some(Read(Plus(v, k, b[0]), k + 1))
            else Lift(Plus(v, k, b[0] - 0x80), k + 1, Dec(b[1..], ROOM - k - 1))
  {
    hide Plus, Dec;
    DecStep(b, ROOM - k);
    var d := Dec(b[1..], ROOM - k - 1);
    if b[0] >= 0x80 && d.Some? {
      PlusPlus(v, k, b[0] - 0x80, d.value.value);
    }
  }

  lemma PlusPlus(v: nat, k: nat, x: nat, t: nat)
    ensures Plus(v, k, x + 128 * t) == Plus(Plus(v, k, x), k + 1, t)
  {
    hide Cap;
    CapStep(k);
    Distribute(Cap(k), x, t);
  }

  lemma Distribute(c: int, x: int, t: int)
    ensures c * (x + 128 * t) == c * x + (128 * c) * t
  {
  }

  lemma CapStep(k: nat)
    ensures Cap(k + 1) == 128 * Cap(k)
  {
  }

  lemma GroupBound(c: int, x: nat, v: int)
    requires x < 128 && v < c && c >= 1
    ensures v + c * x < 128 * c && x * c == c * x
  {
  }

  /** The `|=` of the decoder adds a group of seven bits above the ones it has. */
  lemma OrGroup(v: nat, k: nat, b: byte)
    requires v < Cap(k)
    ensures Or(v, Shl(And(b, 0x7F), 7 * k)) == Plus(v, k, b % 128) < Cap(k + 1)
  {
    hide And, Or, Cap, Pow2;
    LowSeven(b);
    CapIsPow2(k);
    CapStep(k);
    OrDisjoint(v, b % 128, 7 * k);
    GroupBound(Cap(k), b % 128, v);
  }

  method DecVarint(buf: bytes, i: nat) returns (r: Result<(nat, nat)>)
    ensures r == match Varint(Drop(buf, i))
                 case None => ValueError
                 case Some(x) => Ok((x.value, i + x.used))
    ensures r.Ok? ==> r.value.1 > i
  {
    hide Cap, Dec, And, Or, Shl, Plus;
    var v, shift, n, j := 0, 0, |buf|, i;
    ghost var k := 0;
    assert Cap(0) == 1 by { CapZero(); }
    LiftZero(Dec(Drop(buf, i), ROOM));
    while true
      invariant shift == 7 * k && k < ROOM && j == i + k
      invariant 0 <= v < Cap(k)
      invariant Varint(Drop(buf, i)) == Lift(v, k, Dec(Drop(buf, j), ROOM - k))
      decreases ROOM - k
    {
      if j >= n {
        assert Dec(Drop(buf, j), ROOM - k) == None by { DecEdges(Drop(buf, j)); }
        return ValueError;
      }
      var b := buf[j];
      LiftStep(v, k, Drop(buf, j));
      OrGroup(v, k, b);
      assert Drop(buf, j)[1..] == Drop(buf, j + 1);
      j := j + 1;
      v := Or(v, Shl(And(b, 0x7F), shift));
      if b < 0x80 {
        return Ok((v, j));
      }
      assert b % 128 == b - 0x80;
      shift := shift + 7;
      k := k + 1;
      if shift > 63 {
        assert Dec(Drop(buf, j), 0) == None by { DecEdges(Drop(buf, j)); }
        return ValueError;
      }
    }
  }

  lemma CapZero()
    ensures Cap(0) == 1
  {
  }

  lemma LiftZero(d: Option<Read>)
    ensures Lift(0, 0, d) == d
  {
  }

  lemma DecEdges(b: bytes)
    ensures Dec(b, 0) == None
    ensures forall room: nat :: Dec([], room) == None
  {
  }

  method DecTag(buf: bytes, i: nat) returns (r: Result<(nat, nat, nat)>)
    ensures r == match ReadTag(Drop(buf, i))
                 case None => ValueError
                 case Some(t) => Ok((t.num, t.wire, i + t.used))
    ensures r.Ok? ==> r.value.2 > i
  {
    var t :- DecVarint(buf, i);
    AndMask(t.0, 3);
    assert Pow2(3) == 8;
    return Ok((Shr(t.0, 3), And(t.0, 7), t.1));
  }

  /** Python's `buf[i:end]`, which stops at the end of the buffer without complaint. */
  function Slice(buf: bytes, i: nat, end: nat): bytes
    requires i <= end
  {
    Take(Drop(buf, i), end - i)
  }

  method DecString(buf: bytes, i: nat) returns (r: Result<(str, nat)>)
    ensures r == match ReadChunk(Drop(buf, i))
                 case None => ValueError
                 case Some(c) =>
                   match Utf8.Decode(c.payload)
                   case ValueError => ValueError
                   case Ok(s) => Ok((s, i + c.end))
    ensures r.Ok? <==> ReadChunk(Drop(buf, i)).Some? && RfcText(ReadChunk(Drop(buf, i)).value.payload)
    ensures r.Ok? ==> r.value.1 > i
  {
    hide Varint, Utf8.Decode, RfcText;
    if ReadChunk(Drop(buf, i)).Some? {
      DecodeOkIff(ReadChunk(Drop(buf, i)).value.payload);
    }
    var t :- DecVarint(buf, i);
    var end := t.1 + t.0;
    DropDrop(buf, i, t.1 - i);
    var s :- Utf8.Decode(Slice(buf, t.1, end));
    return Ok((s, end));
  }

  method DecBytes(buf: bytes, i: nat) returns (r: Result<(bytes, nat)>)
    ensures r == match ReadChunk(Drop(buf, i))
                 case None => ValueError
                 case Some(c) => Ok((c.payload, i + c.end))
    ensures r.Ok? ==> r.value.1 > i
  {
    hide Varint;
    var t :- DecVarint(buf, i);
    var end := t.1 + t.0;
    DropDrop(buf, i, t.1 - i);
    return Ok((Slice(buf, t.1, end), end));
  }

  method SkipField(buf: bytes, i: nat, wire: nat) returns (r: Result<nat>)
    ensures r == match SkipBody(wire, Drop(buf, i))
                 case None => ValueError
                 case Some(end) => Ok(i + end)
    ensures wire == 0 ==> r == match Varint(Drop(buf, i))
                               case None => ValueError
                               case Some(v) => Ok(i + v.used)
    ensures wire == 1 ==> r == Ok(i + 8)
    ensures wire == 2 ==> r == match Varint(Drop(buf, i))
                               case None => ValueError
                               case Some(l) =>
                                 if i + l.used + l.value > |buf| then ValueError else Ok(i + l.used + l.value)
    ensures wire == 5 ==> r == Ok(i + 4)
    ensures wire !in {0, 1, 2, 5} ==> r == ValueError
    ensures r.Ok? ==> r.value > i
  {
    hide Varint;
    if wire == 0 {
      var t :- DecVarint(buf, i);
      return Ok(t.1);
    }
    if wire == 1 {
      return Ok(i + 8);
    }
    if wire == 2 {
      var t :- DecVarint(buf, i);
      if t.0 < 0 || t.1 + t.0 > |buf| {
        return ValueError;
      }
      return Ok(t.1 + t.0);
    }
    if wire == 5 {
      return Ok(i + 4);
    }
    return ValueError;
  }
}
