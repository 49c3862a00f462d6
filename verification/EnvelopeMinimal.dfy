/** Encoding what was decoded never takes more bytes than were read, at each of the four levels. */
module EnvelopeMinimal {
  import opened Varints
  import opened Utf8
  import opened Wire
  import opened WireLaws
  import opened OrderedDict
  import opened Messages

  function Size(rs: seq<Record>): nat {
    |Serialize(rs)|
  }

  function EntrySize(e: Entry): nat { |EntryBytes(e)| }
  function FieldErrorSize(f: FieldError): nat { |FieldErrorBytes(f)| }
  function AppErrorSize(a: AppError): nat { |AppErrorBytes(a)| }
  function EnvelopeSize(e: Envelope): nat { |EnvelopeBytes(e)| }

  lemma SizeConcat(a: seq<Record>, b: seq<Record>)
    ensures Size(a + b) == Size(a) + Size(b)
  {
    SerializeConcat(a, b);
  }

  lemma SizeOne(r: Record)
    ensures Size([r]) == |Ser(r)|
    ensures Size([]) == 0
  {
    SerializeOne(r);
  }

  lemma ChunkMonotone(num: nat, a: bytes, b: bytes)
    requires |a| <= |b|
    ensures |Ser(Chunk(num, a))| <= |Ser(Chunk(num, b))|
  {
    EncMonotone(|a|, |b|);
  }

  // ----- a message's size is the sum over its fields -----

  lemma EntryParts(e: Entry)
    ensures EntrySize(e) == Size(StrRecords(1, e.key)) + Size(StrRecords(2, e.value))
  {
    hide Serialize, StrRecords, EntryBytes;
    EntryPieces(e);
  }

  lemma FieldErrorParts(f: FieldError)
    ensures FieldErrorSize(f) == Size(StrRecords(1, f.field)) + Size(StrRecords(2, f.code))
                               + Size(StrRecords(3, f.message)) + Size(RepeatedRecords(4, f.args))
  {
    hide Serialize, StrRecords, RepeatedRecords, FieldErrorBytes;
    FieldErrorPieces(f);
  }

  lemma AppErrorParts(a: AppError)
    ensures AppErrorSize(a) == Size(StrRecords(1, a.code)) + Size(StrRecords(2, a.message))
                             + Size(RepeatedRecords(3, a.args)) + Size(DetailRecords(4, a.details))
                             + Size(MetaRecords(5, a.metadata))
  {
    hide Serialize, StrRecords, RepeatedRecords, DetailRecords, MetaRecords, AppErrorBytes;
    AppErrorPieces(a);
  }

  lemma EnvelopeParts(e: Envelope)
    ensures EnvelopeSize(e) == Size(StatusRecords(1, e.status)) + Size(StrRecords(2, e.transportError))
                             + Size(BytesRecords(3, e.data)) + Size(ErrorRecords(4, e.error))
  {
    hide Serialize, StatusRecords, StrRecords, BytesRecords, ErrorRecords, EnvelopeBytes;
    EnvelopePieces(e);
  }

  // ----- what one record adds -----

  /** A decoded string is written in no more bytes than the record it came from. */
  lemma StrSize(num: nat, b: bytes)
    requires Utf8.Decode(b).Ok?
    ensures Size(StrRecords(num, Utf8.Decode(b).value)) <= |Ser(Chunk(num, b))|
  {
    hide Utf8.Decode, Units8;
    EncodeDecode(b);
    SizeOne(Chunk(num, b));
  }

  lemma {:induction false} RepeatedSize(num: nat, ss: seq<str>, s: str)
    ensures Size(RepeatedRecords(num, ss + [s])) == Size(RepeatedRecords(num, ss)) + |Ser(Chunk(num, Units8(s)))|
  {
    hide Serialize, Ser, Units8;
    if ss == [] {
      assert [] + [s] == [s] && [s][1..] == [];
      assert RepeatedRecords(num, [s]) == [Chunk(num, Units8(s))];
      SizeOne(Chunk(num, Units8(s)));
    } else {
      assert (ss + [s])[1..] == ss[1..] + [s] && (ss + [s])[0] == ss[0];
      RepeatedSize(num, ss[1..], s);
      SizeConcat([Chunk(num, Units8(ss[0]))], RepeatedRecords(num, ss[1..]));
      SizeConcat([Chunk(num, Units8(ss[0]))], RepeatedRecords(num, ss[1..] + [s]));
    }
  }

  lemma {:induction false} DetailsSize(num: nat, ds: seq<FieldError>, d: FieldError)
    ensures Size(DetailRecords(num, ds + [d])) == Size(DetailRecords(num, ds)) + |Ser(Chunk(num, FieldErrorBytes(d)))|
  {
    hide Serialize, Ser, FieldErrorBytes;
    if ds == [] {
      assert [] + [d] == [d] && [d][1..] == [];
      assert DetailRecords(num, [d]) == [Chunk(num, FieldErrorBytes(d))];
      SizeOne(Chunk(num, FieldErrorBytes(d)));
    } else {
      assert (ds + [d])[1..] == ds[1..] + [d] && (ds + [d])[0] == ds[0];
      DetailsSize(num, ds[1..], d);
      SizeConcat([Chunk(num, FieldErrorBytes(ds[0]))], DetailRecords(num, ds[1..]));
      SizeConcat([Chunk(num, FieldErrorBytes(ds[0]))], DetailRecords(num, ds[1..] + [d]));
    }
  }

  /** Assigning a map entry costs at most that entry: a replaced one gives its bytes back. */
  lemma {:induction false} MetaSize(num: nat, d: dict, e: Entry)
    ensures Size(MetaRecords(num, Set(d, e.key, e.value))) <= Size(MetaRecords(num, d)) + |Ser(Chunk(num, EntryBytes(e)))|
  {
    hide Serialize, Ser, EntryBytes;
    var x := Chunk(num, EntryBytes(e));
    var s := Set(d, e.key, e.value);
    SizeOne(x);
    if d == [] {
      assert s == [e] && [e][1..] == [];
      assert MetaRecords(num, s) == [x];
    } else {
      var y := Chunk(num, EntryBytes(d[0]));
      SizeConcat([y], MetaRecords(num, d[1..]));
      if d[0].key == e.key {
        assert s[1..] == d[1..] && s[0] == e;
        SizeConcat([x], MetaRecords(num, d[1..]));
      } else {
        assert s[1..] == Set(d[1..], e.key, e.value) && s[0] == d[0];
        MetaSize(num, d[1..], e);
        SizeConcat([y], MetaRecords(num, s[1..]));
      }
    }
  }

  lemma StatusSize(v: nat)
    ensures Size(StatusRecords(1, Signed(v))) <= |Ser(Number(1, v))|
  {
    var u := Unsigned(Signed(v));
    assert u <= v;
    EncMonotone(u, v);
    SizeOne(Number(1, u));
  }

  // ----- the four loops -----

  lemma EntryGrows()
    ensures GrowsBy(ENTRY, EntrySize)
  {
    hide EntrySize, Utf8.Decode, Ser;
    forall e, r: Record | EntryStep(e, r).Ok?
      ensures EntrySize(EntryStep(e, r).value) <= EntrySize(e) + |Ser(r)|
    {
      EntryParts(e);
      EntryParts(EntryStep(e, r).value);
      if r.Chunk? && EntryKnown(r.num, 2) { StrSize(r.num, r.payload); }
    }
  }

  lemma FieldErrorGrows()
    ensures GrowsBy(FIELD_ERROR, FieldErrorSize)
  {
    hide FieldErrorSize, Utf8.Decode, Ser, Size;
    forall f, r: Record | FieldErrorStep(f, r).Ok?
      ensures FieldErrorSize(FieldErrorStep(f, r).value) <= FieldErrorSize(f) + |Ser(r)|
    {
      FieldErrorParts(f);
      FieldErrorParts(FieldErrorStep(f, r).value);
      if r.Chunk? && FieldErrorKnown(r.num, 2) {
        StrSize(r.num, r.payload);
        EncodeDecode(r.payload);
        RepeatedSize(4, f.args, Utf8.Decode(r.payload).value);
      }
    }
  }

  /** A submessage decoded from b is written in no more bytes than b has. */
  lemma EntryShrinks(b: bytes)
    requires Wire.Decode(ENTRY, b).Ok?
    ensures |EntryBytes(Wire.Decode(ENTRY, b).value)| <= |b|
  {
    hide Run;
    EntryGrows();
    RunGrows(ENTRY, EntrySize, NO_ENTRY, b);
    assert EntrySize(NO_ENTRY) == 0;
  }

  lemma FieldErrorShrinks(b: bytes)
    requires Wire.Decode(FIELD_ERROR, b).Ok?
    ensures |FieldErrorBytes(Wire.Decode(FIELD_ERROR, b).value)| <= |b|
  {
    hide Run;
    FieldErrorGrows();
    RunGrows(FIELD_ERROR, FieldErrorSize, NO_FIELD_ERROR, b);
    assert FieldErrorSize(NO_FIELD_ERROR) == 0;
  }

  lemma AppErrorGrows()
    ensures GrowsBy(APP_ERROR, AppErrorSize)
  {
    hide AppErrorSize, Utf8.Decode, Wire.Decode, Ser, Size, FieldErrorBytes, EntryBytes, Set;
    forall a, r: Record | AppErrorStep(a, r).Ok?
      ensures AppErrorSize(AppErrorStep(a, r).value) <= AppErrorSize(a) + |Ser(r)|
    {
      AppErrorParts(a);
      AppErrorParts(AppErrorStep(a, r).value);
      if r.Chunk? && 1 <= r.num <= 3 {
        StrSize(r.num, r.payload);
        EncodeDecode(r.payload);
        RepeatedSize(3, a.args, Utf8.Decode(r.payload).value);
      } else if r.Chunk? && r.num == 4 {
        var d := Wire.Decode(FIELD_ERROR, r.payload).value;
        FieldErrorShrinks(r.payload);
        ChunkMonotone(4, FieldErrorBytes(d), r.payload);
        DetailsSize(4, a.details, d);
      } else if r.Chunk? && r.num == 5 {
        var e := Wire.Decode(ENTRY, r.payload).value;
        EntryShrinks(r.payload);
        ChunkMonotone(5, EntryBytes(e), r.payload);
        MetaSize(5, a.metadata, e);
      }
    }
  }

  lemma AppErrorShrinks(b: bytes)
    requires Wire.Decode(APP_ERROR, b).Ok?
    ensures |AppErrorBytes(Wire.Decode(APP_ERROR, b).value)| <= |b|
  {
    hide Run;
    AppErrorGrows();
    RunGrows(APP_ERROR, AppErrorSize, NO_APP_ERROR, b);
    assert AppErrorSize(NO_APP_ERROR) == 0;
  }

  lemma EnvelopeGrows()
    ensures GrowsBy(ENVELOPE, EnvelopeSize)
  {
    hide EnvelopeSize, Utf8.Decode, Wire.Decode, Ser, Size, AppErrorBytes, Signed;
    forall e, r: Record | EnvelopeStep(e, r).Ok?
      ensures EnvelopeSize(EnvelopeStep(e, r).value) <= EnvelopeSize(e) + |Ser(r)|
    {
      EnvelopeParts(e);
      EnvelopeParts(EnvelopeStep(e, r).value);
      if r.Number? && r.num == 1 {
        StatusSize(r.value);
      } else if r.Chunk? && r.num == 2 {
        StrSize(2, r.payload);
      } else if r.Chunk? && r.num == 3 {
        SizeOne(r);
      } else if r.Chunk? && r.num == 4 {
        var a := Wire.Decode(APP_ERROR, r.payload).value;
        AppErrorShrinks(r.payload);
        ChunkMonotone(4, AppErrorBytes(a), r.payload);
        SizeOne(Chunk(4, AppErrorBytes(a)));
      }
    }
  }

  /** The encoder is length-minimal: of all byte strings that decode to a given envelope, none is
      shorter than the one it writes. */
  lemma {:induction false} EncodeIsShortest(b: bytes)
    requires Wire.Decode(ENVELOPE, b).Ok?
    ensures |EnvelopeBytes(Wire.Decode(ENVELOPE, b).value)| <= |b|
  {
    hide Run;
    EnvelopeGrows();
    RunGrows(ENVELOPE, EnvelopeSize, NO_ENVELOPE, b);
    assert EnvelopeSize(NO_ENVELOPE) == 0;
  }
}
