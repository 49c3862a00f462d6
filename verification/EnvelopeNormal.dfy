/** Decoded values are in the domain on which encoding can be undone, status apart. */
module EnvelopeNormal {
  import opened Results
  import opened Varints
  import opened Utf8
  import opened Wire
  import opened WireLaws
  import opened OrderedDict
  import opened Messages
  import opened EnvelopeFields
  import opened EnvelopeMerge
  import opened EnvelopeMinimal

  ghost predicate FieldErrorNormal(f: FieldError) {
    FieldErrorEncodable(f) && FieldErrorFits(f)
  }

  ghost predicate AppErrorNormal(a: AppError) {
    AppErrorEncodable(a) && AppErrorFits(a) && IsDict(a.metadata)
  }

  /** Everything the round trip needs but the upper bound on the status. */
  ghost predicate EnvelopeNormal(e: Envelope) {
    EnvelopeEncodable(e) && EnvelopeFits(e) && EnvelopeIsDict(e) && e.status >= -TWO63
  }

  lemma EntryStaysNormal()
    ensures Preserves(ENTRY, EntryEncodable)
  {
    hide Utf8.Decode, Encodable;
    forall e, r: Record | EntryEncodable(e) && EntryStep(e, r).Ok?
      ensures EntryEncodable(EntryStep(e, r).value)
    {
      if r.Chunk? && EntryKnown(r.num, 2) { EncodeDecode(r.payload); }
    }
  }

  lemma FieldErrorStaysNormal()
    ensures Preserves(FIELD_ERROR, FieldErrorNormal)
  {
    hide Utf8.Decode, Encodable, Units8;
    forall f, r: Record | FieldErrorNormal(f) && Readable(r) && FieldErrorStep(f, r).Ok?
      ensures FieldErrorNormal(FieldErrorStep(f, r).value)
    {
      if r.Chunk? && FieldErrorKnown(r.num, 2) { EncodeDecode(r.payload); }
    }
  }

  lemma EntryDecodesNormal(b: bytes)
    requires Wire.Decode(ENTRY, b).Ok?
    ensures EntryEncodable(Wire.Decode(ENTRY, b).value)
  {
    hide Run;
    EntryStaysNormal();
    RunPreserves(ENTRY, EntryEncodable, NO_ENTRY, b);
  }

  lemma FieldErrorDecodesNormal(b: bytes)
    requires Wire.Decode(FIELD_ERROR, b).Ok?
    ensures FieldErrorNormal(Wire.Decode(FIELD_ERROR, b).value)
  {
    hide Run;
    FieldErrorStaysNormal();
    assert FieldErrorNormal(NO_FIELD_ERROR);
    RunPreserves(FIELD_ERROR, FieldErrorNormal, NO_FIELD_ERROR, b);
  }

  lemma {:induction false} SetMembers(d: dict, k: str, v: str)
    ensures forall e <- Set(d, k, v) :: e == Entry(k, v) || e in d
  {
    if d == [] {
    } else {
      SetMembers(d[1..], k, v);
    }
  }

  lemma AppErrorStaysNormal()
    ensures Preserves(APP_ERROR, AppErrorNormal)
  {
    hide Utf8.Decode, Wire.Decode, Encodable, Units8, FieldErrorBytes, EntryBytes, FieldErrorEncodable, EntryEncodable,
      Set, IsDict;
    forall a, r: Record | AppErrorNormal(a) && Readable(r) && AppErrorStep(a, r).Ok?
      ensures AppErrorNormal(AppErrorStep(a, r).value)
    {
      if r.Chunk? && 1 <= r.num <= 3 {
        EncodeDecode(r.payload);
      } else if r.Chunk? && r.num == 4 {
        FieldErrorDecodesNormal(r.payload);
        FieldErrorShrinks(r.payload);
      } else if r.Chunk? && r.num == 5 {
        var e := Wire.Decode(ENTRY, r.payload).value;
        EntryDecodesNormal(r.payload);
        EntryShrinks(r.payload);
        SetMembers(a.metadata, e.key, e.value);
        SetKeepsDict(a.metadata, e.key, e.value);
      }
    }
  }

  lemma AppErrorDecodesNormal(b: bytes)
    requires Wire.Decode(APP_ERROR, b).Ok?
    ensures AppErrorNormal(Wire.Decode(APP_ERROR, b).value)
  {
    hide Run;
    AppErrorStaysNormal();
    assert AppErrorNormal(NO_APP_ERROR);
    RunPreserves(APP_ERROR, AppErrorNormal, NO_APP_ERROR, b);
  }

  lemma EnvelopeStaysNormal()
    ensures Preserves(ENVELOPE, EnvelopeNormal)
  {
    hide Utf8.Decode, Wire.Decode, Encodable, Units8, AppErrorBytes, AppErrorEncodable, AppErrorFits, IsDict;
    forall e, r: Record | EnvelopeNormal(e) && Readable(r) && EnvelopeStep(e, r).Ok?
      ensures EnvelopeNormal(EnvelopeStep(e, r).value)
    {
      if r.Chunk? && r.num == 2 {
        EncodeDecode(r.payload);
      } else if r.Chunk? && r.num == 4 {
        AppErrorDecodesNormal(r.payload);
        AppErrorShrinks(r.payload);
      }
    }
  }

  lemma EnvelopeDecodesNormal(b: bytes)
    requires Wire.Decode(ENVELOPE, b).Ok?
    ensures EnvelopeNormal(Wire.Decode(ENVELOPE, b).value)
  {
    hide Run;
    EnvelopeStaysNormal();
    assert EnvelopeNormal(NO_ENVELOPE);
    RunPreserves(ENVELOPE, EnvelopeNormal, NO_ENVELOPE, b);
  }

  /** Decoding, encoding and decoding again gives the first result back, except for a status that the
      ten-byte varint carried past 2^63. */
  lemma {:induction false} NormalisationIsIdempotentIff(b: bytes)
    requires Wire.Decode(ENVELOPE, b).Ok?
    ensures var e := Wire.Decode(ENVELOPE, b).value;
            Wire.Decode(ENVELOPE, EnvelopeBytes(e)) == Ok(e) <==> e.status < TWO63
  {
    hide Wire.Decode, EnvelopeBytes, EnvelopeFits, EnvelopeEncodable, EnvelopeIsDict;
    EnvelopeDecodesNormal(b);
    RoundTripIff(Wire.Decode(ENVELOPE, b).value);
  }

  /** So the encoder writes a shortest input for every envelope it can carry. */
  lemma {:induction false} ShortestInput(e: Envelope, b: bytes)
    requires EnvelopeEncodable(e) && EnvelopeIsDict(e) && EnvelopeFits(e) && Int64(e.status)
    requires Wire.Decode(ENVELOPE, b) == Ok(e)
    ensures Wire.Decode(ENVELOPE, EnvelopeBytes(e)) == Ok(e) && |EnvelopeBytes(e)| <= |b|
  {
    hide Wire.Decode, EnvelopeBytes, EnvelopeFits, EnvelopeEncodable, EnvelopeIsDict;
    RoundTripIff(e);
    EncodeIsShortest(b);
  }

  /** Last one wins, and exactly which inputs give a status past the int64 range. */
  lemma {:induction false} StatusPastInt64Iff(b: bytes)
    requires Wire.Decode(ENVELOPE, b).Ok?
    ensures Parse(EnvelopeKnown, b).Ok?
    ensures var vs := Numbers(Parse(EnvelopeKnown, b).value, 1);
            var status := Wire.Decode(ENVELOPE, b).value.status;
            && LastStatus(vs, 0, status)
            && (status >= 0x8000_0000_0000_0000
                <==> vs != [] && vs[|vs| - 1] >= 0x1_8000_0000_0000_0000)
  {
    hide Wire.Decode, Parse, Numbers, LastText, LastBytes, LastError;
    DecodedEnvelope(b);
  }
}
