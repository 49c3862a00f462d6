/** Python's `str` and its strict UTF-8 codec (section 3 of RFC 3629). A `str` is a sequence of
    code points and may hold lone surrogates, which the strict encoder refuses. */
module Utf8 {
  import opened Results
  import opened Varints

  type codepoint = c: int | 0 <= c < 0x11_0000
  type str = seq<codepoint>

  predicate Scalar(c: codepoint) {
    !(0xD800 <= c < 0xE000)
  }

  ghost predicate Encodable(s: str) {
    forall c <- s :: Scalar(c)
  }

  /** The one to four bytes that carry a code point. */
  function Units(c: codepoint): (b: bytes)
    ensures 1 <= |b| <= 4
  {
    if c < 0x80 then [c]
    else if c < 0x800 then [0xC0 + c / 64, 0x80 + c % 64]
    else if c < 0x1_0000 then [0xE0 + c / 64 / 64, 0x80 + c / 64 % 64, 0x80 + c % 64]
    else [0xF0 + c / 64 / 64 / 64, 0x80 + c / 64 / 64 % 64, 0x80 + c / 64 % 64, 0x80 + c % 64]
  }

  function Units8(s: str): bytes {
    if s == [] then [] else Units(s[0]) + Units8(s[1..])
  }

  /** `s.encode("utf-8")` */
  function Encode(s: str): Result<bytes> {
    if forall c <- s :: Scalar(c) then Ok(Units8(s)) else ValueError
  }

  predicate Tail(b: byte) {
    0x80 <= b < 0xC0
  }

  datatype First = First(c: codepoint, len: nat)

  /** The six payload bits of a continuation byte. */
  function Low(b: byte): int {
    b as int - 0x80
  }

  function Two(b: bytes): int
    requires |b| >= 2
  {
    (b[0] as int - 0xC0) * 64 + Low(b[1])
  }

  function Three(b: bytes): int
    requires |b| >= 3
  {
    ((b[0] as int - 0xE0) * 64 + Low(b[1])) * 64 + Low(b[2])
  }

  function Four(b: bytes): int
    requires |b| >= 4
  {
    (((b[0] as int - 0xF0) * 64 + Low(b[1])) * 64 + Low(b[2])) * 64 + Low(b[3])
  }

  /** The code point at the front of b, when a shortest-form sequence for a scalar value stands there. */
  function DecodeFirst(b: bytes): (r: Option<First>)
    ensures r.Some? ==> 1 <= r.value.len <= |b|
  {
    if b == [] then None
    else if b[0] < 0x80 then Some(First(b[0], 1))
    else if 0xC0 <= b[0] < 0xE0 && |b| >= 2 && Tail(b[1]) then
      (if Two(b) >= 0x80 then Some(First(Two(b), 2)) else None)
    else if 0xE0 <= b[0] < 0xF0 && |b| >= 3 && Tail(b[1]) && Tail(b[2]) then
      (if Three(b) >= 0x800 && Scalar(Three(b)) then Some(First(Three(b), 3)) else None)
    else if 0xF0 <= b[0] < 0xF8 && |b| >= 4 && Tail(b[1]) && Tail(b[2]) && Tail(b[3]) then
      (if 0x1_0000 <= Four(b) < 0x11_0000 then Some(First(Four(b), 4)) else None)
    else None
  }

  /** `b.decode("utf-8")` */
  function Decode(b: bytes): Result<str> {
    if b == [] then Ok([])
    else
      match DecodeFirst(b)
      case None => ValueError
      case Some(f) =>
        match Decode(b[f.len..])
        case ValueError => ValueError
        case Ok(s) => Ok([f.c] + s)
  }

  lemma DecodeFirstUnits(c: codepoint, t: bytes)
    requires Scalar(c)
    ensures DecodeFirst(Units(c) + t) == Some(First(c, |Units(c)|))
  {
    var u, b := Units(c), Units(c) + t;
    assert forall i :: 0 <= i < |u| ==> b[i] == u[i];
    if 0x80 <= c < 0x800 {
      assert Two(b) == Two(u) == c;
    } else if 0x800 <= c < 0x1_0000 {
      assert Three(b) == Three(u) == c;
    } else if 0x1_0000 <= c {
      assert Four(b) == Four(u) == c;
    }
  }

  lemma UnitsDecodeFirst(b: bytes)
    requires DecodeFirst(b).Some?
    ensures Scalar(DecodeFirst(b).value.c)
    ensures Units(DecodeFirst(b).value.c) == b[..DecodeFirst(b).value.len]
  {
    var First(c, len) := DecodeFirst(b).value;
    if len == 2 {
      assert c / 64 == b[0] - 0xC0;
    } else if len == 3 {
      assert c / 64 == (b[0] as int - 0xE0) * 64 + Low(b[1]);
      assert c / 64 / 64 == b[0] - 0xE0;
    } else if len == 4 {
      UnitsFour(b[0], b[1], b[2], b[3], c);
    }
  }

  lemma UnitsFour(b0: int, b1: int, b2: int, b3: int, c: int)
    requires 0xF0 <= b0 < 0xF8 && 0x80 <= b1 < 0xC0 && 0x80 <= b2 < 0xC0 && 0x80 <= b3 < 0xC0
    requires c == (((b0 - 0xF0) * 64 + (b1 - 0x80)) * 64 + (b2 - 0x80)) * 64 + (b3 - 0x80)
    ensures c % 64 == b3 - 0x80 && c / 64 % 64 == b2 - 0x80
    ensures c / 64 / 64 % 64 == b1 - 0x80 && c / 64 / 64 / 64 == b0 - 0xF0
  {
    assert c / 64 == ((b0 - 0xF0) * 64 + (b1 - 0x80)) * 64 + (b2 - 0x80);
    assert c / 64 / 64 == (b0 - 0xF0) * 64 + (b1 - 0x80);
  }

  /** Decoding inverts encoding. */
  lemma {:induction false} DecodeEncode(s: str)
    requires Encodable(s)
    ensures Decode(Units8(s)) == Ok(s)
  {
    hide DecodeFirst, Units;
    if s == [] {
    } else {
      var u, rest := Units(s[0]), Units8(s[1..]);
      DecodeFirstUnits(s[0], rest);
      DecodeEncode(s[1..]);
      assert Units8(s) == u + rest && (u + rest)[|u|..] == rest;
      assert [s[0]] + s[1..] == s;
    }
  }

  /** Encoding inverts decoding: only one byte string decodes to a given text. */
  lemma {:induction false} EncodeDecode(b: bytes)
    requires Decode(b).Ok?
    ensures Encodable(Decode(b).value)
    ensures Units8(Decode(b).value) == b
  {
    hide DecodeFirst, Units;
    if b == [] {
    } else {
      UnitsDecodeFirst(b);
      EncodeDecode(b[DecodeFirst(b).value.len..]);
    }
  }
}
