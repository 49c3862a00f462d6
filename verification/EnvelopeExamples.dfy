/** Byte strings that the repository's tests fix, which pin the field numbers and wire types, and inputs at
    which a promise of the codec fails. */
module EnvelopeExamples {
  import opened Results
  import opened Varints
  import opened Utf8
  import opened Wire
  import opened WireLaws
  import opened Messages
  import opened EnvelopeMerge

  lemma One(r: Record)
    ensures Serialize([r]) == Ser(r)
    ensures Serialize([]) == []
  {
    SerializeOne(r);
  }

  /** Seven bits a byte, low group first: the sign-extended -1. */
  lemma {:induction false} EncOnes(n: nat)
    requires n >= 1
    ensures Enc(Cap(n) * 2 - 1) == seq(n, _ => 0xFF) + [0x01]
  {
    var v := Cap(n) * 2 - 1;
    assert Cap(n) == 128 * Cap(n - 1);
    assert v % 128 == 127 && v / 128 == Cap(n - 1) * 2 - 1;
    if n == 1 {
      assert Cap(0) == 1;
      assert Enc(1) == [1];
    } else {
      EncOnes(n - 1);
    }
    assert [0xFF] + (seq(n - 1, _ => 0xFF) + [0x01]) == seq(n, _ => 0xFF) + [0x01];
  }

  lemma Tags()
    ensures TagBytes(1, 0) == [0x08] && TagBytes(1, 2) == [0x0A] && TagBytes(2, 2) == [0x12]
    ensures TagBytes(3, 2) == [0x1A] && TagBytes(4, 2) == [0x22]
    ensures Enc(3) == [3] && Enc(4) == [4] && Enc(5) == [5]
  {
  }

  lemma NegativeStatus()
    ensures EnvelopeBytes(NO_ENVELOPE.(status := -1))
         == [0x08, 0xFF, 0xFF, 0xFF, 0xFF, 0xFF, 0xFF, 0xFF, 0xFF, 0xFF, 0x01]
  {
    hide Serialize, Cap, Enc, TagBytes, EnvelopeBytes;
    EnvelopePieces(NO_ENVELOPE.(status := -1));
    One(Number(1, Unsigned(-1)));
    Tags();
    CapOfRoom();
    EncOnes(9);
    assert seq(9, _ => 0xFF) + [0x01] == [0xFF, 0xFF, 0xFF, 0xFF, 0xFF, 0xFF, 0xFF, 0xFF, 0xFF, 0x01];
  }

  lemma TransportError()
    ensures EnvelopeBytes(NO_ENVELOPE.(transportError := [0x6F, 0x6F, 0x70, 0x73]))
         == [0x12, 4, 0x6F, 0x6F, 0x70, 0x73]
  {
    hide Serialize, Enc, TagBytes, EnvelopeBytes, Units8;
    var s: str := [0x6F, 0x6F, 0x70, 0x73];
    EnvelopePieces(NO_ENVELOPE.(transportError := s));
    Ascii(s);
    One(Chunk(2, s));
    Tags();
  }

  /** ASCII text is its own encoding. */
  lemma {:induction false} Ascii(s: str)
    requires forall i :: 0 <= i < |s| ==> s[i] < 0x80
    ensures Units8(s) == s
  {
    if s == [] {
    } else {
      Ascii(s[1..]);
      assert s == [s[0]] + s[1..];
    }
  }

  lemma DataPassthrough()
    ensures EnvelopeBytes(NO_ENVELOPE.(data := [0, 1, 2])) == [0x1A, 3, 0, 1, 2]
  {
    hide Serialize, Enc, TagBytes, EnvelopeBytes, Units8;
    EnvelopePieces(NO_ENVELOPE.(data := [0, 1, 2]));
    One(Chunk(3, [0, 1, 2]));
    Tags();
  }

  /** An error that carries only the code "BAD". */
  lemma NestedAppError()
    ensures EnvelopeBytes(NO_ENVELOPE.(error := Some(NO_APP_ERROR.(code := [0x42, 0x41, 0x44]))))
         == [0x22, 5, 0x0A, 3, 0x42, 0x41, 0x44]
  {
    hide Serialize, Enc, TagBytes, EnvelopeBytes, AppErrorBytes, Units8;
    var code: str := [0x42, 0x41, 0x44];
    var a := NO_APP_ERROR.(code := code);
    AppErrorPieces(a);
    Ascii(code);
    One(Chunk(1, code));
    Tags();
    assert AppErrorBytes(a) == [0x0A, 3, 0x42, 0x41, 0x44];
    EnvelopePieces(NO_ENVELOPE.(error := Some(a)));
    One(Chunk(4, AppErrorBytes(a)));
  }

  // ----- inputs at which a promise fails -----

  /** The bytes of a status record whose varint is past 2^64 + 2^63. */
  function OversizedStatus(): bytes {
    Ser(Number(1, TWO64 + TWO63))
  }

  /** It is accepted with status 2^63, and writing that down and reading it again gives -2^63. */
  lemma StatusDoesNotSettle()
    ensures OversizedStatus() == [0x08] + Enc(TWO64 + TWO63)
    ensures Wire.Decode(ENVELOPE, OversizedStatus()) == Ok(NO_ENVELOPE.(status := TWO63))
    ensures Wire.Decode(ENVELOPE, EnvelopeBytes(NO_ENVELOPE.(status := TWO63))) == Ok(NO_ENVELOPE.(status := -TWO63))
  {
    hide Serialize, Run, Fold, Enc, TagBytes, EnvelopeBytes;
    var r := Number(1, TWO64 + TWO63);
    Tags();
    One(r);
    assert r in [r];
    RunSerialize(ENVELOPE, NO_ENVELOPE, [r]);
    FoldOne(EnvelopeStep, NO_ENVELOPE, r);
    RunEnvelope(NO_ENVELOPE, NO_ENVELOPE.(status := TWO63));
  }

  lemma OneByteVarint(b: bytes)
    requires b != [] && b[0] < 0x80
    ensures Varint(b) == Some(Read(b[0], 1))
  {
  }

  /** A transport error that announces more bytes than there are. */
  lemma ClippedField(length: byte, payload: bytes)
    requires length < 0x80
    ensures Next([0x12, length] + payload) == Some(Frame(Chunk(2, Take(payload, length)), 2 + length as nat))
  {
    hide Varint;
    var b := [0x12, length] + payload;
    OneByteVarint(b);
    OneByteVarint(b[1..]);
    assert b[1..][1..] == payload;
  }

  /** Five bytes announced, one there: accepted, as "h". */
  lemma TruncationGoesUnnoticed()
    ensures CutShort(EnvelopeKnown, [0x12, 5, 0x68])
    ensures Wire.Decode(ENVELOPE, [0x12, 5, 0x68]) == Ok(NO_ENVELOPE.(transportError := [0x68]))
  {
    hide Next;
    var b: bytes := [0x12, 5, 0x68];
    assert b == [0x12, 5] + [0x68];
    ClippedField(5, [0x68]);
    DecodeEncode([0x68]);
    Ascii([0x68]);
    assert Drop(b, 7) == [];
    assert Run(ENVELOPE, NO_ENVELOPE.(transportError := [0x68]), []) == Ok(NO_ENVELOPE.(transportError := [0x68]));
  }

  /** The same cut through the middle of a character: split all the same, but refused. */
  lemma TruncationIsRefused()
    ensures CutShort(EnvelopeKnown, [0x12, 2, 0xC3])
    ensures Wire.Decode(ENVELOPE, [0x12, 2, 0xC3]) == ValueError
  {
    hide Next;
    var b: bytes := [0x12, 2, 0xC3];
    assert b == [0x12, 2] + [0xC3];
    ClippedField(2, [0xC3]);
    assert DecodeFirst([0xC3]) == None;
    assert Utf8.Decode([0xC3]) == ValueError;
  }

  /** Field 5 as a fixed64 of which one byte is there: accepted, and without a trace. */
  lemma ShortFixedGoesUnnoticed()
    ensures Wire.Decode(ENVELOPE, [0x29, 0]) == Ok(NO_ENVELOPE)
  {
    hide Varint, Next;
    var b: bytes := [0x29, 0];
    OneByteVarint(b);
    NextByWire(b);
    assert Drop(b, 9) == [];
    assert Run(ENVELOPE, NO_ENVELOPE, []) == Ok(NO_ENVELOPE);
  }

  /** A one-letter transport error in front of anything. */
  lemma TextField(e: Envelope, c: codepoint, rest: bytes)
    requires c < 0x80
    ensures Run(ENVELOPE, e, [0x12, 1, c] + rest) == Run(ENVELOPE, e.(transportError := [c]), rest)
  {
    hide Next, Utf8.Decode;
    assert [0x12, 1, c] + rest == [0x12, 1] + ([c] + rest);
    ClippedField(1, [c] + rest);
    assert Take([c] + rest, 1) == [c] && Drop([0x12, 1] + ([c] + rest), 3) == rest;
    DecodeEncode([c]);
    Ascii([c]);
  }

  lemma EmptyTextField(e: Envelope, rest: bytes)
    ensures Run(ENVELOPE, e, [0x12, 0] + rest) == Run(ENVELOPE, e.(transportError := []), rest)
  {
    hide Next;
    ClippedField(0, rest);
    assert Drop([0x12, 0] + rest, 2) == rest;
  }

  lemma RunDone(e: Envelope)
    ensures Run(ENVELOPE, e, []) == Ok(e)
  {
  }

  lemma SkipFixed32(e: Envelope, rest: bytes)
    ensures Run(ENVELOPE, e, [0x2D, 0, 0, 0, 0] + rest) == Run(ENVELOPE, e, rest)
  {
    hide Varint, Next;
    var b := [0x2D, 0, 0, 0, 0] + rest;
    OneByteVarint(b);
    NextByWire(b);
    assert Drop(b, 5) == rest;
  }

  /** Field 5 as a fixed32, skipped by its four bytes, and then the transport error "x". */
  lemma FixedIsSkipped()
    ensures Wire.Decode(ENVELOPE, [0x2D, 0, 0, 0, 0, 0x12, 1, 0x78]) == Ok(NO_ENVELOPE.(transportError := [0x78]))
  {
    hide Run;
    SkipFixed32(NO_ENVELOPE, [0x12, 1, 0x78] + []);
    TextField(NO_ENVELOPE, 0x78, []);
    RunDone(NO_ENVELOPE.(transportError := [0x78]));
    assert [0x2D, 0, 0, 0, 0] + ([0x12, 1, 0x78] + []) == [0x2D, 0, 0, 0, 0, 0x12, 1, 0x78];
  }

  /** The transport error "x", and then an empty one, which is the one that counts. */
  lemma EmptyTextWins()
    ensures Wire.Decode(ENVELOPE, [0x12, 1, 0x78, 0x12, 0]) == Ok(NO_ENVELOPE)
  {
    hide Run;
    TextField(NO_ENVELOPE, 0x78, [0x12, 0] + []);
    EmptyTextField(NO_ENVELOPE.(transportError := [0x78]), []);
    RunDone(NO_ENVELOPE);
    assert [0x12, 1, 0x78] + ([0x12, 0] + []) == [0x12, 1, 0x78, 0x12, 0];
  }
}
