/** Standard base64 (section 4 of RFC 4648), as `base64.b64encode` writes it, and its reader. */
module Base64 {
  import opened Results
  import opened Varints

  function Char(i: int): char
    requires 0 <= i < 64
  {
    if i < 26 then (i + 65) as char
    else if i < 52 then (i + 71) as char
    else if i < 62 then (i - 4) as char
    else if i == 62 then '+'
    else '/'
  }

  /** The six bits of a character, or -1. */
  function Bits6(c: char): (v: int)
    ensures -1 <= v < 64
  {
    if 'A' <= c <= 'Z' then c as int - 65
    else if 'a' <= c <= 'z' then c as int - 71
    else if '0' <= c <= '9' then c as int + 4
    else if c == '+' then 62
    else if c == '/' then 63
    else -1
  }

  lemma Bits6Char(i: int)
    requires 0 <= i < 64
    ensures Bits6(Char(i)) == i
  {
  }

  /** One to three bytes as four characters. */
  function Quad(b: bytes): (q: string)
    requires 1 <= |b| <= 3
    ensures |q| == 4
  {
    if |b| == 1 then [Char(b[0] / 4), Char(b[0] % 4 * 16), '=', '=']
    else if |b| == 2 then [Char(b[0] / 4), Char(b[0] % 4 * 16 + b[1] / 16), Char(b[1] % 16 * 4), '=']
    else [Char(b[0] / 4), Char(b[0] % 4 * 16 + b[1] / 16), Char(b[1] % 16 * 4 + b[2] / 64), Char(b[2] % 64)]
  }

  function Encode(b: bytes): string {
    if b == [] then ""
    else if |b| <= 3 then Quad(b)
    else Quad(b[..3]) + Encode(b[3..])
  }

  function Unquad(q: string): Option<bytes>
    requires |q| == 4
  {
    var v0, v1, v2, v3 := Bits6(q[0]), Bits6(q[1]), Bits6(q[2]), Bits6(q[3]);
    if v0 < 0 || v1 < 0 then None
    else if q[2] == '=' && q[3] == '=' then Some([v0 * 4 + v1 / 16])
    else if v2 < 0 then None
    else if q[3] == '=' then Some([v0 * 4 + v1 / 16, v1 % 16 * 16 + v2 / 4])
    else if v3 < 0 then None
    else Some([v0 * 4 + v1 / 16, v1 % 16 * 16 + v2 / 4, v2 % 4 * 64 + v3])
  }

  function Decode(s: string): Option<bytes> {
    if s == "" then Some([])
    else if |s| < 4 then None
    else
      match Unquad(s[..4])
      case None => None
      case Some(b) =>
        if |b| < 3 then (if |s| == 4 then Some(b) else None)
        else
          match Decode(s[4..])
          case None => None
          case Some(rest) => Some(b + rest)
  }

  lemma UnquadQuad(b: bytes)
    requires 1 <= |b| <= 3
    ensures Unquad(Quad(b)) == Some(b)
  {
    hide Quad, Unquad;
    if |b| == 1 {
      UnquadOne(b);
    } else if |b| == 2 {
      UnquadTwo(b);
    } else {
      UnquadThree(b);
    }
  }

  lemma UnquadOne(b: bytes)
    requires |b| == 1
    ensures Unquad(Quad(b)) == Some(b)
  {
    hide Char, Bits6;
    Known(b[0] / 4);
    Known(b[0] % 4 * 16);
    assert b == [b[0]];
  }

  lemma UnquadTwo(b: bytes)
    requires |b| == 2
    ensures Unquad(Quad(b)) == Some(b)
  {
    hide Char, Bits6;
    var x1 := b[0] % 4 * 16 + b[1] / 16;
    Known(b[0] / 4);
    Known(x1);
    Known(b[1] % 16 * 4);
    assert x1 / 16 == b[0] % 4 && x1 % 16 == b[1] / 16;
    assert b == [b[0], b[1]];
  }

  lemma UnquadThree(b: bytes)
    requires |b| == 3
    ensures Unquad(Quad(b)) == Some(b)
  {
    hide Char, Bits6;
    var x1, x2 := b[0] % 4 * 16 + b[1] / 16, b[1] % 16 * 4 + b[2] / 64;
    Known(b[0] / 4);
    Known(x1);
    Known(x2);
    Known(b[2] % 64);
    assert x1 / 16 == b[0] % 4 && x1 % 16 == b[1] / 16;
    assert x2 / 4 == b[1] % 16 && x2 % 4 == b[2] / 64;
    assert b == [b[0], b[1], b[2]];
  }

  lemma Known(i: int)
    requires 0 <= i < 64
    ensures Bits6(Char(i)) == i && Char(i) != '='
  {
    Bits6Char(i);
    NoPad(i);
  }

  lemma NoPad(i: int)
    requires 0 <= i < 64
    ensures Char(i) != '=' && Char(i) != '"' && Char(i) != '\n'
  {
  }

  lemma {:induction false} DecodeEncode(b: bytes)
    ensures Decode(Encode(b)) == Some(b)
  {
    hide Quad, Unquad;
    if b == [] {
    } else {
      if |b| <= 3 {
        UnquadQuad(b);
        assert Quad(b)[..4] == Quad(b) && Quad(b)[4..] == "" && b + [] == b;
      } else {
        var q, rest := Quad(b[..3]), Encode(b[3..]);
        UnquadQuad(b[..3]);
        DecodeEncode(b[3..]);
        assert (q + rest)[..4] == q && (q + rest)[4..] == rest && b[..3] + b[3..] == b;
      }
    }
  }

  /** The text holds neither a quote nor a line feed. */
  lemma {:induction false} EncodePlain(b: bytes)
    ensures forall c <- Encode(b) :: c != '"' && c != '\n'
  {
    hide Char;
    if b == [] {
    } else {
      forall i: int | 0 <= i < 64 ensures Char(i) != '"' && Char(i) != '\n' { NoPad(i); }
      if |b| > 3 {
        EncodePlain(b[3..]);
      }
    }
  }

  // ----- the text of each group of bytes -----

  /** Table 1 of RFC 4648. */
  const ALPHABET := "ABCDEFGHIJKLMNOPQRSTUVWXYZ" + "abcdefghijklmnopqrstuvwxyz" + "0123456789+/"

  lemma Alphabet()
    ensures |ALPHABET| == 64
    ensures forall i :: 0 <= i < 64 ==> Char(i) == ALPHABET[i]
  {
    assert "ABCDEFGHIJKLMNOPQRSTUVWXYZ" == seq(26, i requires 0 <= i < 26 => Char(i));
    assert "abcdefghijklmnopqrstuvwxyz" == seq(26, i requires 0 <= i < 26 => Char(i + 26));
    assert "0123456789+/" == seq(12, i requires 0 <= i < 12 => Char(i + 52));
    hide Char;
  }

  /** The first k of the four base 64 digits of n, high digit first. */
  function Digits(n: int, k: nat): string
    requires 0 <= n < 0x100_0000 && k <= 4
  {
    [Char(n / 0x4_0000), Char(n / 0x1000 % 64), Char(n / 0x40 % 64), Char(n % 64)][..k]
  }

  /** The four characters stand for the 24 bits of the group, high bits first, with zero bits and `=` where
      bytes are missing. */
  lemma GroupMeans(b0: byte, b1: byte, b2: byte)
    ensures Encode([b0, b1, b2]) == Digits((b0 as int * 256 + b1) * 256 + b2, 4)
    ensures Encode([b0, b1]) == Digits((b0 as int * 256 + b1) * 256, 3) + "="
    ensures Encode([b0]) == Digits(b0 as int * 256 * 256, 2) + "=="
  {
    hide Char;
    DigitsOf(b0, b1, b2);
    DigitsOf(b0, b1, 0);
    DigitsOf(b0, 0, 0);
  }

  lemma DigitsOf(b0: int, b1: int, b2: int)
    requires 0 <= b0 < 256 && 0 <= b1 < 256 && 0 <= b2 < 256
    ensures var n := (b0 * 256 + b1) * 256 + b2;
            && n / 0x4_0000 == b0 / 4
            && n / 0x1000 % 64 == b0 % 4 * 16 + b1 / 16
            && n / 0x40 % 64 == b1 % 16 * 4 + b2 / 64
            && n % 64 == b2 % 64
  {
    var x1, x2 := b0 % 4 * 16 + b1 / 16, b1 % 16 * 4 + b2 / 64;
    assert b0 == 4 * (b0 / 4) + b0 % 4 && b1 == 16 * (b1 / 16) + b1 % 16 && b2 == 64 * (b2 / 64) + b2 % 64;
    FourDigits((b0 * 256 + b1) * 256 + b2, b0 / 4, x1, x2, b2 % 64);
  }

  lemma FourDigits(n: int, x0: int, x1: int, x2: int, x3: int)
    requires 0 <= x1 < 64 && 0 <= x2 < 64 && 0 <= x3 < 64
    requires n == 0x4_0000 * x0 + 0x1000 * x1 + 0x40 * x2 + x3
    ensures n / 0x4_0000 == x0 && n / 0x1000 % 64 == x1 && n / 0x40 % 64 == x2 && n % 64 == x3
  {
    assert n / 0x40 == 0x1000 * x0 + 0x40 * x1 + x2;
    assert n / 0x1000 == 0x40 * x0 + x1;
  }

  lemma EncodeFirst(a: bytes)
    requires |a| >= 3
    ensures Encode(a) == Quad(a[..3]) + Encode(a[3..])
  {
    if |a| == 3 {
      assert a[..3] == a && Quad(a) + "" == Quad(a);
    }
  }

  /** Whole groups are encoded on their own. */
  lemma {:induction false} EncodeConcat(a: bytes, b: bytes)
    requires |a| % 3 == 0
    ensures Encode(a + b) == Encode(a) + Encode(b)
  {
    hide Quad;
    if a == [] {
      assert a + b == b;
    } else {
      assert (a + b)[..3] == a[..3] && (a + b)[3..] == a[3..] + b;
      EncodeConcat(a[3..], b);
      EncodeFirst(a);
      EncodeFirst(a + b);
      assert Quad(a[..3]) + Encode(a[3..]) + Encode(b) == Quad(a[..3]) + (Encode(a[3..]) + Encode(b));
    }
  }
}
