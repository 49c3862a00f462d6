/** What decoding does to bytes that the encoders wrote: behind any earlier state it merges, from a
    fresh object it gives the written value back. */
module EnvelopeMerge {
  import opened Results
  import opened Varints
  import opened Utf8
  import opened Wire
  import opened OrderedDict
  import opened Messages

  // ----- the merge -----

  function MergeStr(a: str, b: str): str {
    if b == [] then a else b
  }

  function MergeEntry(a: Entry, b: Entry): Entry {
    Entry(MergeStr(a.key, b.key), MergeStr(a.value, b.value))
  }

  function MergeFieldError(a: FieldError, b: FieldError): FieldError {
    FieldError(MergeStr(a.field, b.field), MergeStr(a.code, b.code), MergeStr(a.message, b.message), a.args + b.args)
  }

  function MergeAppError(a: AppError, b: AppError): AppError {
    AppError(MergeStr(a.code, b.code), MergeStr(a.message, b.message),
             a.args + b.args, a.details + b.details, Update(a.metadata, b.metadata))
  }

  /** b's non-default scalars win; an error is taken whole. */
  function MergeEnvelope(a: Envelope, b: Envelope): Envelope {
    Envelope(if b.status == 0 then a.status else b.status,
             MergeStr(a.transportError, b.transportError),
             if b.data == [] then a.data else b.data,
             if b.error.None? then a.error else b.error)
  }

  lemma MergeFieldErrorAssociative(a: FieldError, b: FieldError, c: FieldError)
    ensures MergeFieldError(a, MergeFieldError(b, c)) == MergeFieldError(MergeFieldError(a, b), c)
  {
    assert a.args + (b.args + c.args) == a.args + b.args + c.args;
  }

  lemma MergeAppErrorAssociative(a: AppError, b: AppError, c: AppError)
    requires IsDict(b.metadata)
    ensures MergeAppError(a, MergeAppError(b, c)) == MergeAppError(MergeAppError(a, b), c)
  {
    assert a.args + (b.args + c.args) == a.args + b.args + c.args;
    assert a.details + (b.details + c.details) == a.details + b.details + c.details;
    UpdateAssociative(a.metadata, b.metadata, c.metadata);
  }

  lemma MergeEnvelopeAssociative(a: Envelope, b: Envelope, c: Envelope)
    ensures MergeEnvelope(a, MergeEnvelope(b, c)) == MergeEnvelope(MergeEnvelope(a, b), c)
  {
  }

  // ----- which written messages can be read -----

  predicate StrFits(s: str) {
    |Units8(s)| < LIMIT
  }

  predicate EntryFits(e: Entry) {
    StrFits(e.key) && StrFits(e.value)
  }

  predicate FieldErrorFits(f: FieldError) {
    StrFits(f.field) && StrFits(f.code) && StrFits(f.message) && forall s <- f.args :: StrFits(s)
  }

  predicate AppErrorFits(a: AppError) {
    && StrFits(a.code) && StrFits(a.message)
    && (forall s <- a.args :: StrFits(s))
    && (forall d <- a.details :: |FieldErrorBytes(d)| < LIMIT)
    && (forall e <- a.metadata :: |EntryBytes(e)| < LIMIT)
  }

  predicate EnvelopeFits(e: Envelope) {
    && e.status < LIMIT
    && StrFits(e.transportError) && |e.data| < LIMIT
    && (e.error.Some? ==> |AppErrorBytes(e.error.value)| < LIMIT)
  }

  /** Records as the encoders write them: small field numbers, no fixed-width fields. */
  ghost predicate Written(rs: seq<Record>) {
    forall r <- rs :: SmallTag(r) && (r.Number? || r.Chunk?)
  }

  ghost predicate AllChunks(rs: seq<Record>) {
    forall r <- rs :: r.Chunk?
  }

  ghost predicate AllSmall(rs: seq<Record>) {
    forall r <- rs :: Small(r)
  }

  lemma WrittenConcat(a: seq<Record>, b: seq<Record>)
    ensures Written(a + b) <==> Written(a) && Written(b)
    ensures AllSmall(a + b) <==> AllSmall(a) && AllSmall(b)
    ensures AllChunks(a + b) <==> AllChunks(a) && AllChunks(b)
  {
    assert forall r :: r in a + b <==> r in a || r in b;
  }

  lemma WrittenStr(num: nat, s: str)
    requires num < 16
    ensures Written(StrRecords(num, s)) && AllChunks(StrRecords(num, s))
    ensures AllSmall(StrRecords(num, s)) <==> StrFits(s)
  {
    if s == [] {
      assert Units8(s) == [];
    } else {
      assert Chunk(num, Units8(s)) in StrRecords(num, s);
    }
  }

  lemma {:induction false} WrittenRepeated(num: nat, ss: seq<str>)
    requires num < 16
    ensures Written(RepeatedRecords(num, ss)) && AllChunks(RepeatedRecords(num, ss))
    ensures AllSmall(RepeatedRecords(num, ss)) <==> forall s <- ss :: StrFits(s)
  {
    hide Units8;
    if ss == [] {
    } else {
      var r, rs := Chunk(num, Units8(ss[0])), RepeatedRecords(num, ss[1..]);
      assert ss == [ss[0]] + ss[1..];
      WrittenRepeated(num, ss[1..]);
      WrittenConcat([r], rs);
      assert r in [r] && (Small(r) <==> StrFits(ss[0]));
    }
  }

  lemma {:induction false} WrittenDetails(num: nat, ds: seq<FieldError>)
    requires num < 16
    ensures Written(DetailRecords(num, ds)) && AllChunks(DetailRecords(num, ds))
    ensures AllSmall(DetailRecords(num, ds)) <==> forall d <- ds :: |FieldErrorBytes(d)| < LIMIT
  {
    hide FieldErrorBytes;
    if ds == [] {
    } else {
      var r, rs := Chunk(num, FieldErrorBytes(ds[0])), DetailRecords(num, ds[1..]);
      assert ds == [ds[0]] + ds[1..];
      WrittenDetails(num, ds[1..]);
      WrittenConcat([r], rs);
      assert r in [r];
    }
  }

  lemma {:induction false} WrittenMeta(num: nat, d: dict)
    requires num < 16
    ensures Written(MetaRecords(num, d)) && AllChunks(MetaRecords(num, d))
    ensures AllSmall(MetaRecords(num, d)) <==> forall e <- d :: |EntryBytes(e)| < LIMIT
  {
    hide EntryBytes;
    if d == [] {
    } else {
      var r, rs := Chunk(num, EntryBytes(d[0])), MetaRecords(num, d[1..]);
      assert d == [d[0]] + d[1..];
      WrittenMeta(num, d[1..]);
      WrittenConcat([r], rs);
      assert r in [r];
    }
  }

  lemma WrittenEntry(e: Entry)
    ensures Written(EntryRecords(e)) && AllChunks(EntryRecords(e))
    ensures AllSmall(EntryRecords(e)) <==> EntryFits(e)
  {
    hide StrRecords, StrFits;
    WrittenStr(1, e.key);
    WrittenStr(2, e.value);
    WrittenConcat(StrRecords(1, e.key), StrRecords(2, e.value));
  }

  lemma WrittenFieldError(f: FieldError)
    ensures Written(FieldErrorRecords(f)) && AllChunks(FieldErrorRecords(f))
    ensures AllSmall(FieldErrorRecords(f)) <==> FieldErrorFits(f)
  {
    hide StrRecords, RepeatedRecords, StrFits;
    WrittenStr(1, f.field);
    WrittenStr(2, f.code);
    WrittenStr(3, f.message);
    WrittenRepeated(4, f.args);
    var r3 := StrRecords(3, f.message) + RepeatedRecords(4, f.args);
    var r2 := StrRecords(2, f.code) + r3;
    WrittenConcat(StrRecords(3, f.message), RepeatedRecords(4, f.args));
    WrittenConcat(StrRecords(2, f.code), r3);
    WrittenConcat(StrRecords(1, f.field), r2);
  }

  lemma WrittenAppError(a: AppError)
    ensures Written(AppErrorRecords(a)) && AllChunks(AppErrorRecords(a))
    ensures AllSmall(AppErrorRecords(a)) <==> AppErrorFits(a)
  {
    hide StrRecords, RepeatedRecords, DetailRecords, MetaRecords, StrFits, FieldErrorBytes, EntryBytes;
    WrittenStr(1, a.code);
    WrittenStr(2, a.message);
    WrittenRepeated(3, a.args);
    WrittenDetails(4, a.details);
    WrittenMeta(5, a.metadata);
    var r4 := DetailRecords(4, a.details) + MetaRecords(5, a.metadata);
    var r3 := RepeatedRecords(3, a.args) + r4;
    var r2 := StrRecords(2, a.message) + r3;
    WrittenConcat(DetailRecords(4, a.details), MetaRecords(5, a.metadata));
    WrittenConcat(RepeatedRecords(3, a.args), r4);
    WrittenConcat(StrRecords(2, a.message), r3);
    WrittenConcat(StrRecords(1, a.code), r2);
  }

  lemma WrittenEnvelope(e: Envelope)
    ensures Written(EnvelopeRecords(e))
    ensures AllSmall(EnvelopeRecords(e)) <==> EnvelopeFits(e)
  {
    hide StrRecords, StrFits, AppErrorBytes;
    WrittenStr(2, e.transportError);
    var b, c := BytesRecords(3, e.data), ErrorRecords(4, e.error);
    assert Written(b) && (AllSmall(b) <==> |e.data| < LIMIT) by {
      if e.data != [] { assert Chunk(3, e.data) in b; }
    }
    assert Written(c) && (AllSmall(c) <==> (e.error.Some? ==> |AppErrorBytes(e.error.value)| < LIMIT)) by {
      if e.error.Some? { assert Chunk(4, AppErrorBytes(e.error.value)) in c; }
    }
    var s := StatusRecords(1, e.status);
    assert Written(s) && (AllSmall(s) <==> e.status < LIMIT) by {
      if e.status != 0 { assert Number(1, Unsigned(e.status)) in s; }
    }
    WrittenConcat(b, c);
    WrittenConcat(StrRecords(2, e.transportError), b + c);
    WrittenConcat(s, StrRecords(2, e.transportError) + (b + c));
  }

  /** A message that is itself short holds only small records. */
  lemma ShortIsSmall(rs: seq<Record>)
    requires Written(rs) && |Serialize(rs)| < LIMIT
    requires AllChunks(rs)
    ensures AllSmall(rs)
  {
    hide Serialize;
    forall r <- rs ensures Small(r) {
      SerializeCovers(rs, r);
      assert |r.payload| <= |Ser(r)|;
    }
  }

  /** Running a schema over a written message is folding its step over the records written. */
  lemma {:induction false} RunSerialize<S>(sch: Schema<S>, s: S, rs: seq<Record>)
    requires Written(rs)
    ensures Run(sch, s, Serialize(rs)) == if AllSmall(rs) then Fold(sch.step, s, rs) else ValueError
  {
    hide Serialize, Run, Fold, Parse, SmallTag;
    ParseSerialize(sch.known, rs);
    RunIsFold(sch, s, Serialize(rs));
  }

  // ----- folding over written records -----

  lemma FoldOne<S>(step: (S, Record) -> Result<S>, s: S, r: Record)
    ensures Fold(step, s, [r]) == step(s, r)
    ensures Fold(step, s, []) == Ok(s)
  {
    assert [r][1..] == [];
    assert step(s, r).Ok? ==> Fold(step, step(s, r).value, []) == step(s, r);
  }

  lemma FoldEntry(e: Entry, f: Entry)
    requires EntryEncodable(f)
    ensures Fold(EntryStep, e, EntryRecords(f)) == Ok(MergeEntry(e, f))
  {
    hide Utf8.Decode, Units8, Fold;
    var e1 := e.(key := MergeStr(e.key, f.key));
    FoldConcat(EntryStep, e, StrRecords(1, f.key), StrRecords(2, f.value));
    DecodeEncode(f.key);
    DecodeEncode(f.value);
    FoldOne(EntryStep, e, Chunk(1, Units8(f.key)));
    FoldOne(EntryStep, e1, Chunk(2, Units8(f.value)));
  }

  lemma {:induction false} FoldFieldArgs(f: FieldError, ss: seq<str>)
    requires forall s <- ss :: Encodable(s)
    ensures Fold(FieldErrorStep, f, RepeatedRecords(4, ss)) == Ok(f.(args := f.args + ss))
    decreases |ss|
  {
    hide Utf8.Decode, Units8, Fold;
    if ss == [] {
      FoldOne(FieldErrorStep, f, Number(0, 0));
      assert f.args + ss == f.args;
    } else {
      var r := Chunk(4, Units8(ss[0]));
      assert ss == [ss[0]] + ss[1..] && ss[0] in ss;
      DecodeEncode(ss[0]);
      FoldConcat(FieldErrorStep, f, [r], RepeatedRecords(4, ss[1..]));
      FoldOne(FieldErrorStep, f, r);
      FoldFieldArgs(f.(args := f.args + [ss[0]]), ss[1..]);
      assert f.args + [ss[0]] + ss[1..] == f.args + ss;
    }
  }

  lemma FoldFieldError(f: FieldError, g: FieldError)
    requires FieldErrorEncodable(g)
    ensures Fold(FieldErrorStep, f, FieldErrorRecords(g)) == Ok(MergeFieldError(f, g))
  {
    hide Utf8.Decode, Units8, Fold, RepeatedRecords;
    var f1 := f.(field := MergeStr(f.field, g.field));
    var f2 := f1.(code := MergeStr(f.code, g.code));
    var f3 := f2.(message := MergeStr(f.message, g.message));
    var r3 := StrRecords(3, g.message) + RepeatedRecords(4, g.args);
    FoldConcat(FieldErrorStep, f, StrRecords(1, g.field), StrRecords(2, g.code) + r3);
    FoldConcat(FieldErrorStep, f1, StrRecords(2, g.code), r3);
    FoldConcat(FieldErrorStep, f2, StrRecords(3, g.message), RepeatedRecords(4, g.args));
    DecodeEncode(g.field);
    DecodeEncode(g.code);
    DecodeEncode(g.message);
    FoldOne(FieldErrorStep, f, Chunk(1, Units8(g.field)));
    FoldOne(FieldErrorStep, f1, Chunk(2, Units8(g.code)));
    FoldOne(FieldErrorStep, f2, Chunk(3, Units8(g.message)));
    FoldFieldArgs(f3, g.args);
  }

  /** A map entry: decoding its bytes behind any entry read so far. */
  lemma {:induction false} RunEntry(e: Entry, f: Entry)
    requires EntryEncodable(f)
    ensures Run(ENTRY, e, EntryBytes(f)) == if EntryFits(f) then Ok(MergeEntry(e, f)) else ValueError
  {
    hide Run, Fold, EntryRecords, EntryFits;
    WrittenEntry(f);
    RunSerialize(ENTRY, e, EntryRecords(f));
    FoldEntry(e, f);
  }

  lemma {:induction false} RunFieldError(f: FieldError, g: FieldError)
    requires FieldErrorEncodable(g)
    ensures Run(FIELD_ERROR, f, FieldErrorBytes(g)) == if FieldErrorFits(g) then Ok(MergeFieldError(f, g)) else ValueError
  {
    hide Run, Fold, FieldErrorRecords, FieldErrorFits;
    WrittenFieldError(g);
    RunSerialize(FIELD_ERROR, f, FieldErrorRecords(g));
    FoldFieldError(f, g);
  }

  lemma ShortEntryFits(e: Entry)
    requires |EntryBytes(e)| < LIMIT
    ensures EntryFits(e)
  {
    hide EntryFits, EntryRecords, Serialize;
    WrittenEntry(e);
    ShortIsSmall(EntryRecords(e));
  }

  lemma ShortFieldErrorFits(f: FieldError)
    requires |FieldErrorBytes(f)| < LIMIT
    ensures FieldErrorFits(f)
  {
    hide FieldErrorFits, FieldErrorRecords, Serialize;
    WrittenFieldError(f);
    ShortIsSmall(FieldErrorRecords(f));
  }

  /** Reading back what was written, from a fresh object. */
  lemma {:induction false} EntryRoundTrip(e: Entry)
    requires EntryEncodable(e)
    ensures Wire.Decode(ENTRY, EntryBytes(e)) == if EntryFits(e) then Ok(e) else ValueError
  {
    hide Run, EntryBytes, EntryFits;
    RunEntry(NO_ENTRY, e);
  }

  lemma {:induction false} FieldErrorRoundTrip(f: FieldError)
    requires FieldErrorEncodable(f)
    ensures Wire.Decode(FIELD_ERROR, FieldErrorBytes(f)) == if FieldErrorFits(f) then Ok(f) else ValueError
  {
    hide Run, FieldErrorBytes, FieldErrorFits;
    RunFieldError(NO_FIELD_ERROR, f);
    assert [] + f.args == f.args;
  }

  lemma {:induction false} FoldAppArgs(a: AppError, ss: seq<str>)
    requires forall s <- ss :: Encodable(s)
    ensures Fold(AppErrorStep, a, RepeatedRecords(3, ss)) == Ok(a.(args := a.args + ss))
    decreases |ss|
  {
    hide Utf8.Decode, Wire.Decode, Units8, Fold;
    if ss == [] {
      FoldOne(AppErrorStep, a, Number(0, 0));
      assert a.args + ss == a.args;
    } else {
      var r := Chunk(3, Units8(ss[0]));
      assert ss == [ss[0]] + ss[1..] && ss[0] in ss;
      DecodeEncode(ss[0]);
      FoldConcat(AppErrorStep, a, [r], RepeatedRecords(3, ss[1..]));
      FoldOne(AppErrorStep, a, r);
      FoldAppArgs(a.(args := a.args + [ss[0]]), ss[1..]);
      assert a.args + [ss[0]] + ss[1..] == a.args + ss;
    }
  }

  lemma {:induction false} FoldDetails(a: AppError, ds: seq<FieldError>)
    requires forall d <- ds :: FieldErrorEncodable(d) && |FieldErrorBytes(d)| < LIMIT
    ensures Fold(AppErrorStep, a, DetailRecords(4, ds)) == Ok(a.(details := a.details + ds))
    decreases |ds|
  {
    hide Utf8.Decode, Wire.Decode, FieldErrorBytes, FieldErrorEncodable, Fold;
    if ds == [] {
      FoldOne(AppErrorStep, a, Number(0, 0));
      assert a.details + ds == a.details;
    } else {
      var r := Chunk(4, FieldErrorBytes(ds[0]));
      assert ds == [ds[0]] + ds[1..] && ds[0] in ds;
      ShortFieldErrorFits(ds[0]);
      FieldErrorRoundTrip(ds[0]);
      FoldConcat(AppErrorStep, a, [r], DetailRecords(4, ds[1..]));
      FoldOne(AppErrorStep, a, r);
      FoldDetails(a.(details := a.details + [ds[0]]), ds[1..]);
      assert a.details + [ds[0]] + ds[1..] == a.details + ds;
    }
  }

  lemma {:induction false} FoldMeta(a: AppError, d: dict)
    requires forall e <- d :: EntryEncodable(e) && |EntryBytes(e)| < LIMIT
    ensures Fold(AppErrorStep, a, MetaRecords(5, d)) == Ok(a.(metadata := Update(a.metadata, d)))
    decreases |d|
  {
    hide Utf8.Decode, Wire.Decode, EntryBytes, EntryEncodable, Fold, Set;
    if d == [] {
      FoldOne(AppErrorStep, a, Number(0, 0));
    } else {
      var r := Chunk(5, EntryBytes(d[0]));
      assert d == [d[0]] + d[1..] && d[0] in d;
      ShortEntryFits(d[0]);
      EntryRoundTrip(d[0]);
      FoldConcat(AppErrorStep, a, [r], MetaRecords(5, d[1..]));
      FoldOne(AppErrorStep, a, r);
      FoldMeta(a.(metadata := Set(a.metadata, d[0].key, d[0].value)), d[1..]);
    }
  }

  lemma FoldAppError(a: AppError, b: AppError)
    requires AppErrorEncodable(b) && AppErrorFits(b)
    ensures Fold(AppErrorStep, a, AppErrorRecords(b)) == Ok(MergeAppError(a, b))
  {
    hide Utf8.Decode, Wire.Decode, Units8, Fold, RepeatedRecords, DetailRecords, MetaRecords, FieldErrorBytes, EntryBytes,
      FieldErrorEncodable, EntryEncodable, Update;
    var a1 := a.(code := MergeStr(a.code, b.code));
    var a2 := a1.(message := MergeStr(a.message, b.message));
    var a3 := a2.(args := a.args + b.args);
    var a4 := a3.(details := a.details + b.details);
    var r4 := DetailRecords(4, b.details) + MetaRecords(5, b.metadata);
    var r3 := RepeatedRecords(3, b.args) + r4;
    FoldConcat(AppErrorStep, a, StrRecords(1, b.code), StrRecords(2, b.message) + r3);
    FoldConcat(AppErrorStep, a1, StrRecords(2, b.message), r3);
    FoldConcat(AppErrorStep, a2, RepeatedRecords(3, b.args), r4);
    FoldConcat(AppErrorStep, a3, DetailRecords(4, b.details), MetaRecords(5, b.metadata));
    DecodeEncode(b.code);
    DecodeEncode(b.message);
    FoldOne(AppErrorStep, a, Chunk(1, Units8(b.code)));
    FoldOne(AppErrorStep, a1, Chunk(2, Units8(b.message)));
    FoldAppArgs(a2, b.args);
    FoldDetails(a3, b.details);
    FoldMeta(a4, b.metadata);
  }

  lemma {:induction false} RunAppError(a: AppError, b: AppError)
    requires AppErrorEncodable(b)
    ensures Run(APP_ERROR, a, AppErrorBytes(b)) == if AppErrorFits(b) then Ok(MergeAppError(a, b)) else ValueError
  {
    hide Run, Fold, AppErrorRecords, AppErrorFits, AppErrorEncodable;
    WrittenAppError(b);
    RunSerialize(APP_ERROR, a, AppErrorRecords(b));
    if AppErrorFits(b) {
      FoldAppError(a, b);
    }
  }

  lemma {:induction false} AppErrorRoundTrip(a: AppError)
    requires AppErrorEncodable(a) && IsDict(a.metadata)
    ensures Wire.Decode(APP_ERROR, AppErrorBytes(a)) == if AppErrorFits(a) then Ok(a) else ValueError
  {
    hide Run, AppErrorBytes, AppErrorFits, AppErrorEncodable;
    RunAppError(NO_APP_ERROR, a);
    assert [] + a.args == a.args && [] + a.details == a.details;
    UpdateEmpty(a.metadata);
  }

  lemma ShortAppErrorFits(a: AppError)
    requires |AppErrorBytes(a)| < LIMIT
    ensures AppErrorFits(a)
  {
    hide AppErrorFits, AppErrorRecords, Serialize;
    WrittenAppError(a);
    ShortIsSmall(AppErrorRecords(a));
  }

  /** The status a decoder sees when it reads what the encoder wrote for v. */
  function StatusBack(v: int): int {
    Signed(Unsigned(v))
  }

  ghost predicate EnvelopeIsDict(e: Envelope) {
    e.error.Some? ==> IsDict(e.error.value.metadata)
  }

  lemma FoldEnvelope(a: Envelope, b: Envelope)
    requires EnvelopeEncodable(b) && EnvelopeFits(b) && EnvelopeIsDict(b)
    ensures Fold(EnvelopeStep, a, EnvelopeRecords(b))
         == Ok(MergeEnvelope(a, b).(status := if b.status == 0 then a.status else StatusBack(b.status)))
  {
    hide Utf8.Decode, Wire.Decode, Units8, Fold, AppErrorBytes, AppErrorEncodable, Signed, Unsigned, StrFits;
    var a1 := a.(status := if b.status == 0 then a.status else StatusBack(b.status));
    var a2 := a1.(transportError := MergeStr(a.transportError, b.transportError));
    var a3 := a2.(data := if b.data == [] then a.data else b.data);
    var r2, r3 := BytesRecords(3, b.data), ErrorRecords(4, b.error);
    FoldConcat(EnvelopeStep, a, StatusRecords(1, b.status), StrRecords(2, b.transportError) + (r2 + r3));
    FoldConcat(EnvelopeStep, a1, StrRecords(2, b.transportError), r2 + r3);
    FoldConcat(EnvelopeStep, a2, r2, r3);
    DecodeEncode(b.transportError);
    FoldOne(EnvelopeStep, a, Number(1, Unsigned(b.status)));
    FoldOne(EnvelopeStep, a1, Chunk(2, Units8(b.transportError)));
    FoldOne(EnvelopeStep, a2, Chunk(3, b.data));
    if b.error.Some? {
      var x := b.error.value;
      ShortAppErrorFits(x);
      AppErrorRoundTrip(x);
      FoldOne(EnvelopeStep, a3, Chunk(4, AppErrorBytes(x)));
    } else {
      FoldOne(EnvelopeStep, a3, Number(0, 0));
    }
  }

  lemma {:induction false} RunEnvelope(a: Envelope, b: Envelope)
    requires EnvelopeEncodable(b) && EnvelopeIsDict(b)
    ensures Run(ENVELOPE, a, EnvelopeBytes(b))
         == if EnvelopeFits(b)
            then Ok(MergeEnvelope(a, b).(status := if b.status == 0 then a.status else StatusBack(b.status)))
            else ValueError
  {
    hide Run, Fold, EnvelopeRecords, EnvelopeFits, EnvelopeEncodable, MergeEnvelope, StatusBack;
    WrittenEnvelope(b);
    RunSerialize(ENVELOPE, a, EnvelopeRecords(b));
    if EnvelopeFits(b) {
      FoldEnvelope(a, b);
    }
  }

  // ----- main results -----

  lemma StatusBackIsIdentityIff(v: int)
    ensures StatusBack(v) == v <==> Int64(v)
  {
  }

  /** Decoding inverts encoding for exactly the envelopes with an int64 status and lengths below 2^70. */
  lemma {:induction false} RoundTripIff(e: Envelope)
    requires EnvelopeEncodable(e) && EnvelopeIsDict(e)
    ensures Wire.Decode(ENVELOPE, EnvelopeBytes(e)) == Ok(e) <==> EnvelopeFits(e) && Int64(e.status)
  {
    hide Run, EnvelopeBytes, EnvelopeFits, EnvelopeEncodable;
    RunEnvelope(NO_ENVELOPE, e);
    StatusBackIsIdentityIff(e.status);
  }

  /** Decoding two encodings written one behind the other merges the two envelopes. */
  lemma {:induction false} ConcatenationIsMerge(a: Envelope, b: Envelope)
    requires EnvelopeEncodable(a) && EnvelopeIsDict(a) && EnvelopeFits(a) && Int64(a.status)
    requires EnvelopeEncodable(b) && EnvelopeIsDict(b) && EnvelopeFits(b) && Int64(b.status)
    ensures Wire.Decode(ENVELOPE, EnvelopeBytes(a) + EnvelopeBytes(b)) == Ok(MergeEnvelope(a, b))
  {
    hide Run, EnvelopeFits, EnvelopeEncodable, EnvelopeRecords, StatusBack;
    RoundTripIff(a);
    RunEnvelope(a, b);
    StatusBackIsIdentityIff(b.status);
    WrittenEnvelope(a);
    ParseSerialize(EnvelopeKnown, EnvelopeRecords(a));
    RunConcat(ENVELOPE, NO_ENVELOPE, EnvelopeBytes(a), EnvelopeBytes(b));
  }

  lemma {:induction false} FieldErrorConcatenationIsMerge(f: FieldError, g: FieldError)
    requires FieldErrorEncodable(f) && FieldErrorFits(f)
    requires FieldErrorEncodable(g) && FieldErrorFits(g)
    ensures Wire.Decode(FIELD_ERROR, FieldErrorBytes(f) + FieldErrorBytes(g)) == Ok(MergeFieldError(f, g))
  {
    hide Run, FieldErrorFits, FieldErrorEncodable, FieldErrorRecords, MergeFieldError;
    FieldErrorRoundTrip(f);
    RunFieldError(f, g);
    WrittenFieldError(f);
    ParseSerialize(FieldErrorKnown, FieldErrorRecords(f));
    RunConcat(FIELD_ERROR, NO_FIELD_ERROR, FieldErrorBytes(f), FieldErrorBytes(g));
  }

  /** The same one level down, where args, details and metadata accumulate. */
  lemma {:induction false} AppErrorConcatenationIsMerge(a: AppError, b: AppError)
    requires AppErrorEncodable(a) && IsDict(a.metadata) && AppErrorFits(a)
    requires AppErrorEncodable(b) && AppErrorFits(b)
    ensures Wire.Decode(APP_ERROR, AppErrorBytes(a) + AppErrorBytes(b)) == Ok(MergeAppError(a, b))
  {
    hide Run, AppErrorFits, AppErrorEncodable, AppErrorRecords, MergeAppError;
    AppErrorRoundTrip(a);
    RunAppError(a, b);
    WrittenAppError(a);
    ParseSerialize(AppErrorKnown, AppErrorRecords(a));
    RunConcat(APP_ERROR, NO_APP_ERROR, AppErrorBytes(a), AppErrorBytes(b));
  }
}
