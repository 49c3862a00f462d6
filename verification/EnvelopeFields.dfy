/** What a decoded message holds, field by field, in terms of the records of its bytes: of a scalar the last
    one counts, an empty one included; repeated fields hold all of theirs in order. */
module EnvelopeFields {
  import opened Results
  import opened Varints
  import opened Utf8
  import opened Wire
  import opened OrderedDict
  import opened Messages

  /** The payloads of the length-delimited records with number n, in order. */
  function Chunks(rs: seq<Record>, n: nat): seq<bytes> {
    if rs == [] then []
    else (if rs[0].Chunk? && rs[0].num == n then [rs[0].payload] else []) + Chunks(rs[1..], n)
  }

  /** The values of the varint records with number n, in order. */
  function Numbers(rs: seq<Record>, n: nat): seq<nat> {
    if rs == [] then []
    else (if rs[0].Number? && rs[0].num == n then [rs[0].value] else []) + Numbers(rs[1..], n)
  }

  /** now is the text of the last payload; was, when there is none. */
  predicate LastText(ps: seq<bytes>, was: str, now: str) {
    if ps == [] then now == was else Utf8.Decode(ps[|ps| - 1]) == Ok(now)
  }

  /** now is was with the texts of the payloads behind it. */
  ghost predicate AllTexts(ps: seq<bytes>, was: seq<str>, now: seq<str>) {
    && |now| == |was| + |ps| && was <= now
    && forall i :: 0 <= i < |ps| ==> Utf8.Decode(ps[i]) == Ok(now[|was| + i])
  }

  ghost predicate AllDetails(ps: seq<bytes>, was: seq<FieldError>, now: seq<FieldError>) {
    && |now| == |was| + |ps| && was <= now
    && forall i :: 0 <= i < |ps| ==> Wire.Decode(FIELD_ERROR, ps[i]) == Ok(now[|was| + i])
  }

  ghost predicate AllEntries(ps: seq<bytes>, es: seq<Entry>) {
    |es| == |ps| && forall i :: 0 <= i < |ps| ==> Wire.Decode(ENTRY, ps[i]) == Ok(es[i])
  }

  // ----- one record in front -----

  predicate Has(r: Record, n: nat) {
    r.Chunk? && r.num == n
  }

  lemma ChunksCons(rs: seq<Record>, n: nat)
    requires rs != []
    ensures Chunks(rs, n) == (if Has(rs[0], n) then [rs[0].payload] else []) + Chunks(rs[1..], n)
  {
  }

  lemma LastTextCons(rs: seq<Record>, n: nat, was: str, mid: str, now: str)
    requires rs != [] && LastText(Chunks(rs[1..], n), mid, now)
    requires if Has(rs[0], n) then Utf8.Decode(rs[0].payload) == Ok(mid) else mid == was
    ensures LastText(Chunks(rs, n), was, now)
  {
    hide Utf8.Decode, Chunks;
    ChunksCons(rs, n);
  }

  lemma AllTextsCons(rs: seq<Record>, n: nat, was: seq<str>, mid: seq<str>, now: seq<str>)
    requires rs != [] && AllTexts(Chunks(rs[1..], n), mid, now)
    requires if Has(rs[0], n) then exists s: str :: Utf8.Decode(rs[0].payload) == Ok(s) && mid == was + [s]
             else mid == was
    ensures AllTexts(Chunks(rs, n), was, now)
  {
    hide Utf8.Decode, Chunks;
    ChunksCons(rs, n);
    if Has(rs[0], n) {
      assert now[|was|] == mid[|was|];
    }
  }

  lemma AllDetailsCons(rs: seq<Record>, n: nat, was: seq<FieldError>, mid: seq<FieldError>, now: seq<FieldError>)
    requires rs != [] && AllDetails(Chunks(rs[1..], n), mid, now)
    requires if Has(rs[0], n) then exists d :: Wire.Decode(FIELD_ERROR, rs[0].payload) == Ok(d) && mid == was + [d]
             else mid == was
    ensures AllDetails(Chunks(rs, n), was, now)
  {
    hide Wire.Decode, Chunks;
    ChunksCons(rs, n);
    if Has(rs[0], n) {
      assert now[|was|] == mid[|was|];
    }
  }

  // ----- what a fold leaves in each field -----

  ghost predicate EntryHolds(rs: seq<Record>, was: Entry, now: Entry) {
    LastText(Chunks(rs, 1), was.key, now.key) && LastText(Chunks(rs, 2), was.value, now.value)
  }

  lemma {:induction false} FoldEntry(e: Entry, rs: seq<Record>)
    requires Fold(EntryStep, e, rs).Ok?
    ensures EntryHolds(rs, e, Fold(EntryStep, e, rs).value)
    decreases |rs|
  {
    hide Utf8.Decode, Chunks, LastText;
    var t := Fold(EntryStep, e, rs).value;
    if rs == [] {
      Nothing(e.key);
      Nothing(e.value);
    } else {
      var m := EntryStep(e, rs[0]).value;
      FoldEntry(m, rs[1..]);
      LastTextCons(rs, 1, e.key, m.key, t.key);
      LastTextCons(rs, 2, e.value, m.value, t.value);
    }
  }

  lemma Nothing(s: str)
    ensures forall n: nat :: Chunks([], n) == []
    ensures LastText([], s, s)
  {
  }

  ghost predicate FieldErrorHolds(rs: seq<Record>, was: FieldError, now: FieldError) {
    && LastText(Chunks(rs, 1), was.field, now.field)
    && LastText(Chunks(rs, 2), was.code, now.code)
    && LastText(Chunks(rs, 3), was.message, now.message)
    && AllTexts(Chunks(rs, 4), was.args, now.args)
  }

  lemma {:induction false} FoldFieldError(f: FieldError, rs: seq<Record>)
    requires Fold(FieldErrorStep, f, rs).Ok?
    ensures FieldErrorHolds(rs, f, Fold(FieldErrorStep, f, rs).value)
    decreases |rs|
  {
    hide Utf8.Decode, Chunks, LastText, AllTexts;
    var t := Fold(FieldErrorStep, f, rs).value;
    if rs == [] {
      Nothing(f.field);
      Nothing(f.code);
      Nothing(f.message);
      NothingMore(f.args, []);
    } else {
      var m := FieldErrorStep(f, rs[0]).value;
      FoldFieldError(m, rs[1..]);
      LastTextCons(rs, 1, f.field, m.field, t.field);
      LastTextCons(rs, 2, f.code, m.code, t.code);
      LastTextCons(rs, 3, f.message, m.message, t.message);
      AllTextsCons(rs, 4, f.args, m.args, t.args);
    }
  }

  lemma NothingMore(ss: seq<str>, ds: seq<FieldError>)
    ensures AllTexts([], ss, ss) && AllDetails([], ds, ds) && AllEntries([], [])
  {
  }

  /** The entries es are those that the map records hold. */
  ghost predicate AppErrorHolds(rs: seq<Record>, was: AppError, now: AppError, es: seq<Entry>) {
    && LastText(Chunks(rs, 1), was.code, now.code)
    && LastText(Chunks(rs, 2), was.message, now.message)
    && AllTexts(Chunks(rs, 3), was.args, now.args)
    && AllDetails(Chunks(rs, 4), was.details, now.details)
    && AllEntries(Chunks(rs, 5), es) && now.metadata == Update(was.metadata, es)
  }

  lemma AllEntriesCons(rs: seq<Record>, es: seq<Entry>, e: Entry)
    requires rs != [] && AllEntries(Chunks(rs[1..], 5), es)
    ensures !Has(rs[0], 5) ==> AllEntries(Chunks(rs, 5), es)
    ensures Has(rs[0], 5) && Wire.Decode(ENTRY, rs[0].payload) == Ok(e) ==> AllEntries(Chunks(rs, 5), [e] + es)
  {
    hide Wire.Decode, Chunks;
    ChunksCons(rs, 5);
  }

  lemma {:induction false} FoldAppError(a: AppError, rs: seq<Record>) returns (es: seq<Entry>)
    requires Fold(AppErrorStep, a, rs).Ok?
    ensures AppErrorHolds(rs, a, Fold(AppErrorStep, a, rs).value, es)
    decreases |rs|
  {
    hide Utf8.Decode, Wire.Decode, Chunks, LastText, AllTexts, AllDetails, AllEntries, Set;
    var t := Fold(AppErrorStep, a, rs).value;
    if rs == [] {
      es := [];
      Nothing(a.code);
      Nothing(a.message);
      NothingMore(a.args, a.details);
    } else {
      var m := AppErrorStep(a, rs[0]).value;
      es := FoldAppError(m, rs[1..]);
      LastTextCons(rs, 1, a.code, m.code, t.code);
      LastTextCons(rs, 2, a.message, m.message, t.message);
      AllTextsCons(rs, 3, a.args, m.args, t.args);
      AllDetailsCons(rs, 4, a.details, m.details, t.details);
      if Has(rs[0], 5) {
        var e := Wire.Decode(ENTRY, rs[0].payload).value;
        AllEntriesCons(rs, es, e);
        assert ([e] + es)[1..] == es;
        es := [e] + es;
      } else {
        AllEntriesCons(rs, es, NO_ENTRY);
      }
    }
  }

  /** now is the error in the last payload; was, when there is none. */
  predicate LastError(ps: seq<bytes>, was: Option<AppError>, now: Option<AppError>) {
    if ps == [] then now == was
    else now.Some? && Wire.Decode(APP_ERROR, ps[|ps| - 1]) == Ok(now.value)
  }

  predicate LastBytes(ps: seq<bytes>, was: bytes, now: bytes) {
    now == if ps == [] then was else ps[|ps| - 1]
  }

  predicate LastStatus(vs: seq<nat>, was: int, now: int) {
    if vs == [] then now == was
    else
      var v: int := vs[|vs| - 1];
      now == if v >= 0x8000_0000_0000_0000 then v - 0x1_0000_0000_0000_0000 else v
  }

  ghost predicate EnvelopeHolds(rs: seq<Record>, was: Envelope, now: Envelope) {
    && LastStatus(Numbers(rs, 1), was.status, now.status)
    && LastText(Chunks(rs, 2), was.transportError, now.transportError)
    && LastBytes(Chunks(rs, 3), was.data, now.data)
    && LastError(Chunks(rs, 4), was.error, now.error)
  }

  lemma LastBytesCons(rs: seq<Record>, n: nat, was: bytes, mid: bytes, now: bytes)
    requires rs != [] && LastBytes(Chunks(rs[1..], n), mid, now)
    requires mid == if Has(rs[0], n) then rs[0].payload else was
    ensures LastBytes(Chunks(rs, n), was, now)
  {
    hide Chunks;
    ChunksCons(rs, n);
  }

  lemma LastErrorCons(rs: seq<Record>, n: nat, was: Option<AppError>, mid: Option<AppError>, now: Option<AppError>)
    requires rs != [] && LastError(Chunks(rs[1..], n), mid, now)
    requires if Has(rs[0], n) then mid.Some? && Wire.Decode(APP_ERROR, rs[0].payload) == Ok(mid.value) else mid == was
    ensures LastError(Chunks(rs, n), was, now)
  {
    hide Chunks, Wire.Decode;
    ChunksCons(rs, n);
  }

  lemma LastStatusCons(rs: seq<Record>, n: nat, was: int, mid: int, now: int)
    requires rs != [] && LastStatus(Numbers(rs[1..], n), mid, now)
    requires mid == if rs[0].Number? && rs[0].num == n then Signed(rs[0].value) else was
    ensures LastStatus(Numbers(rs, n), was, now)
  {
  }

  lemma {:induction false} FoldEnvelope(e: Envelope, rs: seq<Record>)
    requires Fold(EnvelopeStep, e, rs).Ok?
    ensures EnvelopeHolds(rs, e, Fold(EnvelopeStep, e, rs).value)
    decreases |rs|
  {
    hide Utf8.Decode, Wire.Decode, Chunks, Numbers, LastText, LastBytes, LastError, LastStatus, Signed;
    var t := Fold(EnvelopeStep, e, rs).value;
    if rs == [] {
      Nothing(e.transportError);
      NothingElse(e);
    } else {
      var m := EnvelopeStep(e, rs[0]).value;
      FoldEnvelope(m, rs[1..]);
      LastStatusCons(rs, 1, e.status, m.status, t.status);
      LastTextCons(rs, 2, e.transportError, m.transportError, t.transportError);
      LastBytesCons(rs, 3, e.data, m.data, t.data);
      LastErrorCons(rs, 4, e.error, m.error, t.error);
    }
  }

  lemma NothingElse(e: Envelope)
    ensures LastStatus(Numbers([], 1), e.status, e.status)
    ensures LastBytes([], e.data, e.data) && LastError([], e.error, e.error)
  {
  }

  // ----- and what decoding does -----

  lemma DecodedEntry(b: bytes)
    requires Wire.Decode(ENTRY, b).Ok?
    ensures Parse(EntryKnown, b).Ok?
    ensures EntryHolds(Parse(EntryKnown, b).value, NO_ENTRY, Wire.Decode(ENTRY, b).value)
  {
    hide Run, Fold, Parse, EntryHolds;
    RunIsFold(ENTRY, NO_ENTRY, b);
    FoldEntry(NO_ENTRY, Parse(EntryKnown, b).value);
  }

  lemma DecodedFieldError(b: bytes)
    requires Wire.Decode(FIELD_ERROR, b).Ok?
    ensures Parse(FieldErrorKnown, b).Ok?
    ensures FieldErrorHolds(Parse(FieldErrorKnown, b).value, NO_FIELD_ERROR, Wire.Decode(FIELD_ERROR, b).value)
  {
    hide Run, Fold, Parse, FieldErrorHolds;
    RunIsFold(FIELD_ERROR, NO_FIELD_ERROR, b);
    FoldFieldError(NO_FIELD_ERROR, Parse(FieldErrorKnown, b).value);
  }

  lemma DecodedAppError(b: bytes) returns (es: seq<Entry>)
    requires Wire.Decode(APP_ERROR, b).Ok?
    ensures Parse(AppErrorKnown, b).Ok?
    ensures AppErrorHolds(Parse(AppErrorKnown, b).value, NO_APP_ERROR, Wire.Decode(APP_ERROR, b).value, es)
  {
    hide Run, Fold, Parse, AppErrorHolds;
    RunIsFold(APP_ERROR, NO_APP_ERROR, b);
    es := FoldAppError(NO_APP_ERROR, Parse(AppErrorKnown, b).value);
  }

  lemma DecodedEnvelope(b: bytes)
    requires Wire.Decode(ENVELOPE, b).Ok?
    ensures Parse(EnvelopeKnown, b).Ok?
    ensures EnvelopeHolds(Parse(EnvelopeKnown, b).value, NO_ENVELOPE, Wire.Decode(ENVELOPE, b).value)
  {
    hide Run, Fold, Parse, EnvelopeHolds;
    RunIsFold(ENVELOPE, NO_ENVELOPE, b);
    FoldEnvelope(NO_ENVELOPE, Parse(EnvelopeKnown, b).value);
  }
}
