/** Which texts and which byte strings strict UTF-8 takes, in the terms of RFC 3629, and the order that fixes
    the bytes of every code point. */
module Utf8Laws {
  import opened Results
  import opened Varints
  import opened Utf8

  /** b is one character: a row of the grammar in section 4 of RFC 3629. */
  predicate RfcChar(b: bytes) {
    || (|b| == 1 && b[0] <= 0x7F)
    || (|b| == 2 && 0xC2 <= b[0] <= 0xDF && RfcTail(b[1]))
    || (|b| == 3 && b[0] == 0xE0 && 0xA0 <= b[1] <= 0xBF && RfcTail(b[2]))
    || (|b| == 3 && 0xE1 <= b[0] <= 0xEC && RfcTail(b[1]) && RfcTail(b[2]))
    || (|b| == 3 && b[0] == 0xED && 0x80 <= b[1] <= 0x9F && RfcTail(b[2]))
    || (|b| == 3 && 0xEE <= b[0] <= 0xEF && RfcTail(b[1]) && RfcTail(b[2]))
    || (|b| == 4 && b[0] == 0xF0 && 0x90 <= b[1] <= 0xBF && RfcTail(b[2]) && RfcTail(b[3]))
    || (|b| == 4 && 0xF1 <= b[0] <= 0xF3 && RfcTail(b[1]) && RfcTail(b[2]) && RfcTail(b[3]))
    || (|b| == 4 && b[0] == 0xF4 && 0x80 <= b[1] <= 0x8F && RfcTail(b[2]) && RfcTail(b[3]))
  }

  predicate RfcTail(b: byte) {
    0x80 <= b <= 0xBF
  }

  /** b splits into characters. */
  ghost predicate RfcText(b: bytes)
    decreases |b|
  {
    b == [] || exists n :: 1 <= n <= 4 && n <= |b| && RfcChar(b[..n]) && RfcText(b[n..])
  }

  lemma FirstIsRfc(b: bytes)
    requires DecodeFirst(b).Some?
    ensures RfcChar(b[..DecodeFirst(b).value.len]) && DecodeFirst(b).value.len <= 4
  {
  }

  lemma RfcIsFirst(b: bytes, n: nat)
    requires n <= |b| && RfcChar(b[..n])
    ensures DecodeFirst(b).Some? && DecodeFirst(b).value.len == n
  {
    var u := b[..n];
    assert forall i :: 0 <= i < n ==> u[i] == b[i];
    if n == 3 {
      ThreeRange(b);
    } else if n == 4 {
      FourRange(b);
    }
  }

  lemma ThreeRange(b: bytes)
    requires |b| >= 3 && RfcChar(b[..3])
    ensures 0x800 <= Three(b) < 0x1_0000 && !(0xD800 <= Three(b) < 0xE000)
  {
    assert b[..3][0] == b[0] && b[..3][1] == b[1] && b[..3][2] == b[2];
  }

  lemma FourRange(b: bytes)
    requires |b| >= 4 && RfcChar(b[..4])
    ensures 0x1_0000 <= Four(b) < 0x11_0000
  {
    assert b[..4][0] == b[0] && b[..4][1] == b[1] && b[..4][2] == b[2] && b[..4][3] == b[3];
  }

  /** The decoder accepts exactly the byte strings of the grammar. */
  lemma {:induction false} DecodeOkIff(b: bytes)
    ensures Utf8.Decode(b).Ok? <==> RfcText(b)
    decreases |b|
  {
    hide DecodeFirst, RfcChar;
    if b == [] {
    } else {
      if DecodeFirst(b).Some? {
        var n := DecodeFirst(b).value.len;
        FirstIsRfc(b);
        DecodeOkIff(b[n..]);
      }
      if RfcText(b) {
        var n :| 1 <= n <= 4 && n <= |b| && RfcChar(b[..n]) && RfcText(b[n..]);
        RfcIsFirst(b, n);
        DecodeOkIff(b[n..]);
      }
    }
  }

  /** The encoder takes exactly the texts without surrogates, and writes byte strings of the grammar. */
  lemma EncodeOkIff(s: str)
    ensures Encode(s).Ok? <==> forall c <- s :: c < 0xD800 || c > 0xDFFF
    ensures Encode(s).Ok? ==> RfcText(Encode(s).value)
  {
    hide Utf8.Decode, Units8, RfcText;
    if Encode(s).Ok? {
      DecodeEncode(s);
      DecodeOkIff(Units8(s));
    }
  }

  /** The characters of the grammar are the bytes of the code points that are not surrogates. */
  lemma CharIff(u: bytes)
    ensures RfcChar(u) <==> exists c: codepoint :: (c < 0xD800 || c > 0xDFFF) && Units(c) == u
  {
    hide DecodeFirst, RfcChar, Units;
    if RfcChar(u) {
      assert u[..|u|] == u;
      RfcIsFirst(u, |u|);
      UnitsDecodeFirst(u);
    }
    if exists c: codepoint :: (c < 0xD800 || c > 0xDFFF) && Units(c) == u {
      var c: codepoint :| (c < 0xD800 || c > 0xDFFF) && Units(c) == u;
      DecodeFirstUnits(c, []);
      assert u + [] == u && u[..|u|] == u;
      FirstIsRfc(u);
    }
  }

  /** a comes before b: at the first byte that differs it has the smaller one. */
  ghost predicate Before(a: bytes, b: bytes) {
    exists k :: DiffersAt(a, b, k)
  }

  predicate DiffersAt(a: bytes, b: bytes, k: nat) {
    k < |a| && k < |b| && a[..k] == b[..k] && a[k] < b[k]
  }

  /** The bytes of code points are ordered as the code points are. With `CharIff` this leaves one choice for
      the bytes of each. */
  lemma UnitsIncreasing(c: codepoint, d: codepoint)
    requires c < d
    ensures Before(Units(c), Units(d))
  {
    var a, b := Units(c), Units(d);
    if |a| != |b| || a[0] != b[0] {
      FirstIncreases(c, d);
      assert DiffersAt(a, b, 0);
    } else if |a| == 2 {
      assert DiffersAt(a, b, 1);
    } else if a[1] != b[1] {
      SecondIncreases(c, d);
      assert DiffersAt(a, b, 1);
    } else if |a| == 3 {
      assert DiffersAt(a, b, 2);
    } else if a[2] != b[2] {
      assert DiffersAt(a, b, 2);
    } else {
      assert DiffersAt(a, b, 3);
    }
  }

  lemma FirstIncreases(c: codepoint, d: codepoint)
    requires c < d && (|Units(c)| != |Units(d)| || Units(c)[0] != Units(d)[0])
    ensures Units(c)[0] < Units(d)[0]
  {
  }

  lemma SecondIncreases(c: codepoint, d: codepoint)
    requires c < d && |Units(c)| == |Units(d)| >= 3 && Units(c)[0] == Units(d)[0] && Units(c)[1] != Units(d)[1]
    ensures Units(c)[1] < Units(d)[1]
  {
  }
}
