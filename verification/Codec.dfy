/** The message classes with their `encode` and `decode`, proved against the functions of `Messages`. */
module Codec {
  import opened Results
  import opened Varints
  import opened Utf8
  import opened Utf8Laws
  import opened Wire
  import opened WireLaws
  import opened WireMethods
  import opened OrderedDict
  import EnvelopeLaws
  import M = Messages

  class FieldError {
    var field: str
    var code: str
    var message: str
    var args: seq<str>

    ghost function Value(): M.FieldError
      reads this
    {
      M.FieldError(field, code, message, args)
    }

    constructor ()
      ensures Value() == M.NO_FIELD_ERROR
    {
      field, code, message, args := [], [], [], [];
    }

    method Encode() returns (r: Result<bytes>)
      ensures r == if M.FieldErrorEncodable(Value()) then Ok(M.FieldErrorBytes(Value())) else ValueError
      ensures r.Ok? <==> && Encodable(field) && Encodable(code) && Encodable(message)
                         && forall s <- args :: Encodable(s)
    {
      hide Encodable, Serialize, M.StrRecords, M.RepeatedRecords;
      var out := new ByteArray();
      :- EncString(out, 1, field);
      assert out.data == Serialize(M.StrRecords(1, field));
      :- EncString(out, 2, code);
      :- EncString(out, 3, message);
      :- EncRepeatedString(out, 4, args);
      M.FieldErrorPieces(Value());
      return Ok(out.data);
    }

    static method Decode(data: bytes) returns (r: Result<FieldError>)
      ensures r.Ok? <==> Wire.Decode(M.FIELD_ERROR, data).Ok?
      ensures r.Ok? ==> fresh(r.value) && r.value.Value() == Wire.Decode(M.FIELD_ERROR, data).value
    {
      hide Run, Wire.Decode, Drop, FieldError.Value;
      var out := new FieldError();
      var i := 0;
      DecodeIsRun(M.FIELD_ERROR, data);
      while i < |data|
        invariant fresh(out)
        invariant Run(M.FIELD_ERROR, out.Value(), Drop(data, i)) == Wire.Decode(M.FIELD_ERROR, data)
        decreases |data| - i
      {
        i :- out.DecodeField(data, i);
      }
      RunEnd(M.FIELD_ERROR, out.Value(), data, i);
      return Ok(out);
    }

    /** One turn of the loop of `decode`. */
    method DecodeField(data: bytes, i: nat) returns (r: Result<nat>)
      requires i < |data|
      modifies this
      ensures r.Ok? ==> r.value > i
      ensures r.Ok? ==> Run(M.FIELD_ERROR, old(Value()), Drop(data, i)) == Run(M.FIELD_ERROR, Value(), Drop(data, r.value))
      ensures r.ValueError? ==> Run(M.FIELD_ERROR, old(Value()), Drop(data, i)).ValueError?
    {
      hide Run, ReadTag, ReadChunk, SkipBody, Utf8.Decode, RfcText, Lawful, Drop, Varint;
      ghost var s := Value();
      TurnBadTag(M.FIELD_ERROR, s, data, i);
      var t :- DecTag(data, i);
      ghost var tag := Tag(t.0, t.1, t.2 - i);
      if t.0 == 1 && t.1 == 2 {
        TurnChunk(M.FIELD_ERROR, s, data, i, tag);
        var v :- DecString(data, t.2);
        field := v.0;
        return Ok(v.1);
      } else if t.0 == 2 && t.1 == 2 {
        TurnChunk(M.FIELD_ERROR, s, data, i, tag);
        var v :- DecString(data, t.2);
        code := v.0;
        return Ok(v.1);
      } else if t.0 == 3 && t.1 == 2 {
        TurnChunk(M.FIELD_ERROR, s, data, i, tag);
        var v :- DecString(data, t.2);
        message := v.0;
        return Ok(v.1);
      } else if t.0 == 4 && t.1 == 2 {
        TurnChunk(M.FIELD_ERROR, s, data, i, tag);
        var v :- DecString(data, t.2);
        args := args + [v.0];
        return Ok(v.1);
      } else {
        EnvelopeLaws.FieldErrorLawful();
        TurnSkip(M.FIELD_ERROR, s, data, i, tag);
        r := SkipField(data, t.2, t.1);
      }
    }
  }

  lemma RunEnd<S>(sch: Schema<S>, s: S, data: bytes, i: nat)
    requires i >= |data|
    ensures Run(sch, s, Drop(data, i)) == Ok(s)
  {
  }

  // What one turn of a decode loop at index i must do, by the tag it finds there.

  lemma TurnBadTag<S>(sch: Schema<S>, s: S, data: bytes, i: nat)
    requires i < |data|
    ensures ReadTag(Drop(data, i)).None? ==> Run(sch, s, Drop(data, i)).ValueError?
    ensures ReadTag(Drop(data, i)).Some? ==> i + ReadTag(Drop(data, i)).value.used <= |data|
  {
    hide Run, ReadTag, Drop;
    DropLength(data, i);
    if ReadTag(Drop(data, i)).None? {
      RunBadTag(sch, s, Drop(data, i));
    }
  }

  lemma TurnChunk<S>(sch: Schema<S>, s: S, data: bytes, i: nat, t: Tag)
    requires i < |data| && ReadTag(Drop(data, i)) == Some(t)
    requires t.wire == 2 && sch.known(t.num, 2)
    ensures Run(sch, s, Drop(data, i)) ==
            match ReadChunk(Drop(data, i + t.used))
            case None => ValueError
            case Some(c) =>
              match sch.step(s, Chunk(t.num, c.payload))
              case ValueError => ValueError
              case Ok(u) => Run(sch, u, Drop(data, i + t.used + c.end))
  {
    hide Run, ReadTag, ReadChunk, Drop;
    DropLength(data, i);
    DropDrop(data, i, t.used);
    RunChunk(sch, s, Drop(data, i));
    if ReadChunk(Drop(data, i + t.used)).Some? {
      DropDrop(data, i, t.used + ReadChunk(Drop(data, i + t.used)).value.end);
    }
  }

  lemma TurnNumber<S>(sch: Schema<S>, s: S, data: bytes, i: nat, t: Tag)
    requires i < |data| && ReadTag(Drop(data, i)) == Some(t)
    requires t.wire == 0
    ensures Run(sch, s, Drop(data, i)) ==
            match Varint(Drop(data, i + t.used))
            case None => ValueError
            case Some(v) =>
              match sch.step(s, Number(t.num, v.value))
              case ValueError => ValueError
              case Ok(u) => Run(sch, u, Drop(data, i + t.used + v.used))
  {
    hide Run, ReadTag, Varint, Drop;
    DropLength(data, i);
    DropDrop(data, i, t.used);
    RunNumber(sch, s, Drop(data, i));
    if Varint(Drop(data, i + t.used)).Some? {
      DropDrop(data, i, t.used + Varint(Drop(data, i + t.used)).value.used);
    }
  }

  lemma TurnSkip<S(!new)>(sch: Schema<S>, s: S, data: bytes, i: nat, t: Tag)
    requires Lawful(sch)
    requires i < |data| && ReadTag(Drop(data, i)) == Some(t)
    requires !sch.known(t.num, t.wire)
    ensures Run(sch, s, Drop(data, i)) ==
            match SkipBody(t.wire, Drop(data, i + t.used))
            case None => ValueError
            case Some(end) => Run(sch, s, Drop(data, i + t.used + end))
  {
    hide Run, ReadTag, SkipBody, Drop;
    DropLength(data, i);
    DropDrop(data, i, t.used);
    RunSkip(sch, s, Drop(data, i));
    if SkipBody(t.wire, Drop(data, i + t.used)).Some? {
      DropDrop(data, i, t.used + SkipBody(t.wire, Drop(data, i + t.used)).value);
    }
  }

  lemma DropLength(b: bytes, i: nat)
    requires i <= |b|
    ensures |Drop(b, i)| == |b| - i
  {
  }

  /** The values of a list of detail objects. */
  ghost function Values(ds: seq<FieldError>): seq<M.FieldError>
    reads ds
  {
    if ds == [] then [] else [ds[0].Value()] + Values(ds[1..])
  }

  lemma {:induction false} ValuesAppend(ds: seq<FieldError>, d: FieldError)
    ensures Values(ds + [d]) == Values(ds) + [d.Value()]
  {
    if ds == [] {
      assert ds + [d] == [d] && [d][1..] == [];
    } else {
      assert (ds + [d])[1..] == ds[1..] + [d] && (ds + [d])[0] == ds[0];
      ValuesAppend(ds[1..], d);
    }
  }

  lemma ValuesFrom(ds: seq<FieldError>, i: nat)
    requires i < |ds|
    ensures Values(ds[i..]) == [ds[i].Value()] + Values(ds[i + 1..])
  {
    assert ds[i..][1..] == ds[i + 1..];
  }

  lemma ValuesNone(ds: seq<FieldError>)
    ensures Values(ds[|ds|..]) == []
  {
  }

  class AppError {
    var code: str
    var message: str
    var args: seq<str>
    var details: seq<FieldError>
    var metadata: dict

    ghost function Value(): M.AppError
      reads this, details
    {
      M.AppError(code, message, args, Values(details), metadata)
    }

    constructor ()
      ensures Value() == M.NO_APP_ERROR
      ensures details == []
    {
      code, message, args, details, metadata := [], [], [], [], [];
    }

    method Encode() returns (r: Result<bytes>)
      ensures r == if M.AppErrorEncodable(Value()) then Ok(M.AppErrorBytes(Value())) else ValueError
      ensures r.Ok? <==> && Encodable(code) && Encodable(message) && (forall s <- args :: Encodable(s))
                         && (forall d <- Values(details) :: M.FieldErrorEncodable(d))
                         && (forall e <- metadata :: Encodable(e.key) && Encodable(e.value))
    {
      hide Encodable, Serialize, Ser, M.StrRecords, M.RepeatedRecords, M.DetailRecords, M.MetaRecords,
        M.FieldErrorBytes, M.FieldErrorEncodable, M.EntryBytes, M.EntryEncodable;
      var out := new ByteArray();
      :- EncString(out, 1, code);
      assert out.data == Serialize(M.StrRecords(1, code));
      :- EncString(out, 2, message);
      :- EncRepeatedString(out, 3, args);
      :- EncodeDetails(out);
      :- EncodeMetadata(out);
      M.AppErrorPieces(Value());
      return Ok(out.data);
    }

    /** The first loop of `encode`. */
    method EncodeDetails(out: ByteArray) returns (r: Outcome)
      modifies out
      ensures r.Done? <==> forall d <- Values(details) :: M.FieldErrorEncodable(d)
      ensures r.Done? ==> out.data == old(out.data) + Serialize(M.DetailRecords(4, Values(details)))
    {
      hide Serialize, Ser, M.DetailRecords, M.FieldErrorBytes, M.FieldErrorEncodable, Values, FieldError.Value;
      var i := 0;
      assert details[0..] == details;
      while i < |details|
        invariant i <= |details|
        invariant (forall d <- Values(details) :: M.FieldErrorEncodable(d))
             <==> (forall d <- Values(details[i..]) :: M.FieldErrorEncodable(d))
        invariant out.data + Serialize(M.DetailRecords(4, Values(details[i..])))
               == old(out.data) + Serialize(M.DetailRecords(4, Values(details)))
      {
        ValuesFrom(details, i);
        var b := details[i].Encode();
        if b.ValueError? {
          assert details[i].Value() in Values(details[i..]);
          return Raised;
        }
        DetailCons(4, details[i].Value(), Values(details[i + 1..]));
        EncSubmessage(out, 4, b.value);
        i := i + 1;
      }
      ValuesNone(details);
      DetailNone(4);
      assert out.data + [] == out.data;
      return Done;
    }

    /** The second loop of `encode`: each map entry is a submessage {key = 1, value = 2}. */
    method EncodeMetadata(out: ByteArray) returns (r: Outcome)
      modifies out
      ensures r.Done? <==> forall e <- metadata :: M.EntryEncodable(e)
      ensures r.Done? <==> forall e <- metadata :: Encodable(e.key) && Encodable(e.value)
      ensures r.Done? ==> out.data == old(out.data) + Serialize(M.MetaRecords(5, metadata))
    {
      hide Serialize, Ser, Enc, Units8, M.MetaRecords, M.EntryRecords, Encodable, M.StrRecords;
      var i := 0;
      while i < |metadata|
        invariant i <= |metadata|
        invariant forall e <- metadata[..i] :: M.EntryEncodable(e)
        invariant out.data + Serialize(M.MetaRecords(5, metadata[i..]))
               == old(out.data) + Serialize(M.MetaRecords(5, metadata))
      {
        assert metadata[i] in metadata && metadata[..i + 1] == metadata[..i] + [metadata[i]];
        assert metadata[i..] == [metadata[i]] + metadata[i + 1..];
        var entry := new ByteArray();
        var done := EncString(entry, 1, metadata[i].key);
        if done.Raised? {
          return Raised;
        }
        assert entry.data == Serialize(M.StrRecords(1, metadata[i].key));
        done := EncString(entry, 2, metadata[i].value);
        if done.Raised? {
          return Raised;
        }
        M.EntryPieces(metadata[i]);
        assert entry.data == M.EntryBytes(metadata[i]);
        MetaCons(5, metadata[i], metadata[i + 1..]);
        EncSubmessage(out, 5, entry.data);
        i := i + 1;
      }
      assert metadata[|metadata|..] == [] && metadata[..|metadata|] == metadata;
      MetaNone(5);
      assert out.data + [] == out.data;
      return Done;
    }

    static method Decode(data: bytes) returns (r: Result<AppError>)
      ensures r.Ok? <==> Wire.Decode(M.APP_ERROR, data).Ok?
      ensures r.Ok? ==> fresh(r.value) && forall d <- r.value.details :: fresh(d)
      ensures r.Ok? ==> r.value.Value() == Wire.Decode(M.APP_ERROR, data).value
    {
      hide Run, Wire.Decode, Drop, AppError.Value;
      var out := new AppError();
      var i := 0;
      DecodeIsRun(M.APP_ERROR, data);
      while i < |data|
        invariant fresh(out)
        invariant forall d <- out.details :: fresh(d)
        invariant Run(M.APP_ERROR, out.Value(), Drop(data, i)) == Wire.Decode(M.APP_ERROR, data)
        decreases |data| - i
      {
        i :- out.DecodeField(data, i);
      }
      RunEnd(M.APP_ERROR, out.Value(), data, i);
      return Ok(out);
    }

    /** One turn of the loop of `decode`. */
    method DecodeField(data: bytes, i: nat) returns (r: Result<nat>)
      requires i < |data|
      modifies this
      ensures r.Ok? ==> r.value > i
      ensures forall d <- details :: d in old(details) || fresh(d)
      ensures r.Ok? ==> Run(M.APP_ERROR, old(Value()), Drop(data, i)) == Run(M.APP_ERROR, Value(), Drop(data, r.value))
      ensures r.ValueError? ==> Run(M.APP_ERROR, old(Value()), Drop(data, i)).ValueError?
    {
      hide Run, ReadTag, ReadChunk, SkipBody, Utf8.Decode, RfcText, Lawful, Drop, Varint, Wire.Decode,
        Set, Values, FieldError.Value;
      ghost var s := Value();
      TurnBadTag(M.APP_ERROR, s, data, i);
      var t :- DecTag(data, i);
      ghost var tag := Tag(t.0, t.1, t.2 - i);
      if t.0 == 1 && t.1 == 2 {
        TurnChunk(M.APP_ERROR, s, data, i, tag);
        var v :- DecString(data, t.2);
        code := v.0;
        return Ok(v.1);
      } else if t.0 == 2 && t.1 == 2 {
        TurnChunk(M.APP_ERROR, s, data, i, tag);
        var v :- DecString(data, t.2);
        message := v.0;
        return Ok(v.1);
      } else if t.0 == 3 && t.1 == 2 {
        TurnChunk(M.APP_ERROR, s, data, i, tag);
        var v :- DecString(data, t.2);
        args := args + [v.0];
        return Ok(v.1);
      } else if t.0 == 4 && t.1 == 2 {
        TurnChunk(M.APP_ERROR, s, data, i, tag);
        var sub :- DecBytes(data, t.2);
        var d :- FieldError.Decode(sub.0);
        ValuesAppend(details, d);
        details := details + [d];
        return Ok(sub.1);
      } else if t.0 == 5 && t.1 == 2 {
        TurnChunk(M.APP_ERROR, s, data, i, tag);
        var sub :- DecBytes(data, t.2);
        var e :- DecodeEntry(sub.0);
        metadata := Set(metadata, e.key, e.value);
        return Ok(sub.1);
      } else {
        EnvelopeLaws.AppErrorLawful();
        TurnSkip(M.APP_ERROR, s, data, i, tag);
        r := SkipField(data, t.2, t.1);
      }
    }

    /** The inner loop of `decode`, which stands inline there. */
    static method DecodeEntry(sub: bytes) returns (r: Result<Entry>)
      ensures r == Wire.Decode(M.ENTRY, sub)
    {
      hide Run, ReadTag, ReadChunk, SkipBody, Utf8.Decode, RfcText, Lawful, Drop, Varint;
      EnvelopeLaws.EntryLawful();
      var key, val, j := [], [], 0;
      DecodeIsRun(M.ENTRY, sub);
      while j < |sub|
        invariant Run(M.ENTRY, Entry(key, val), Drop(sub, j)) == Wire.Decode(M.ENTRY, sub)
        decreases |sub| - j
      {
        ghost var s := Entry(key, val);
        TurnBadTag(M.ENTRY, s, sub, j);
        var t :- DecTag(sub, j);
        ghost var tag := Tag(t.0, t.1, t.2 - j);
        if t.0 == 1 && t.1 == 2 {
          TurnChunk(M.ENTRY, s, sub, j, tag);
          var v :- DecString(sub, t.2);
          key, j := v.0, v.1;
        } else if t.0 == 2 && t.1 == 2 {
          TurnChunk(M.ENTRY, s, sub, j, tag);
          var v :- DecString(sub, t.2);
          val, j := v.0, v.1;
        } else {
          TurnSkip(M.ENTRY, s, sub, j, tag);
          j :- SkipField(sub, t.2, t.1);
        }
      }
      RunEnd(M.ENTRY, Entry(key, val), sub, j);
      return Ok(Entry(key, val));
    }
  }

  lemma DecodeIsRun<S>(sch: Schema<S>, data: bytes)
    ensures Wire.Decode(sch, data) == Run(sch, sch.init, Drop(data, 0))
  {
    assert Drop(data, 0) == data;
  }

  lemma DetailCons(num: nat, d: M.FieldError, ds: seq<M.FieldError>)
    ensures Serialize(M.DetailRecords(num, [d] + ds))
         == Ser(Chunk(num, M.FieldErrorBytes(d))) + Serialize(M.DetailRecords(num, ds))
  {
    hide Ser, M.FieldErrorBytes;
    assert ([d] + ds)[1..] == ds;
    SerializeCons(Chunk(num, M.FieldErrorBytes(d)), M.DetailRecords(num, ds));
  }

  lemma DetailNone(num: nat)
    ensures Serialize(M.DetailRecords(num, [])) == []
  {
  }

  lemma MetaCons(num: nat, e: Entry, d: dict)
    ensures Serialize(M.MetaRecords(num, [e] + d))
         == Ser(Chunk(num, M.EntryBytes(e))) + Serialize(M.MetaRecords(num, d))
  {
    hide Ser, M.EntryBytes;
    assert ([e] + d)[1..] == d;
    SerializeCons(Chunk(num, M.EntryBytes(e)), M.MetaRecords(num, d));
  }

  lemma MetaNone(num: nat)
    ensures Serialize(M.MetaRecords(num, [])) == []
  {
  }

  class Envelope {
    var status: int
    var transportError: str
    var data: bytes
    var error: AppError?

    ghost function Value(): M.Envelope
      reads this, error, if error == null then {} else set d <- error.details
    {
      M.Envelope(status, transportError, data, if error == null then None else Some(error.Value()))
    }

    constructor ()
      ensures Value() == M.NO_ENVELOPE
      ensures error == null
    {
      status, transportError, data, error := 0, [], [], null;
    }

    method Encode() returns (r: Result<bytes>)
      ensures r == if M.EnvelopeEncodable(Value()) then Ok(M.EnvelopeBytes(Value())) else ValueError
      ensures r.Ok? <==> Encodable(transportError) && (error == null || M.AppErrorEncodable(error.Value()))
    {
      hide Encodable, Serialize, Ser, Enc, Units8, M.StrRecords, M.StatusRecords, M.BytesRecords, M.AppErrorBytes,
        M.AppErrorEncodable, M.EnvelopeBytes, AppError.Value;
      var out := new ByteArray();
      EncInt32(out, 1, status);
      assert out.data == Serialize(M.StatusRecords(1, status));
      :- EncString(out, 2, transportError);
      EncBytes(out, 3, data);
      M.EnvelopePieces(Value());
      if error != null {
        var sub :- error.Encode();
        EncSubmessage(out, 4, sub);
        SerializeOne(Chunk(4, sub));
      } else {
        SerializeNone();
        assert out.data + [] == out.data;
      }
      return Ok(out.data);
    }

    static method Decode(data: bytes) returns (r: Result<Envelope>)
      ensures r.Ok? <==> Wire.Decode(M.ENVELOPE, data).Ok?
      ensures r.Ok? ==> fresh(r.value)
      ensures r.Ok? && r.value.error != null ==>
                fresh(r.value.error) && forall d <- r.value.error.details :: fresh(d)
      ensures r.Ok? ==> r.value.Value() == Wire.Decode(M.ENVELOPE, data).value
    {
      hide Run, Wire.Decode, Drop, Envelope.Value;
      var out := new Envelope();
      var i := 0;
      DecodeIsRun(M.ENVELOPE, data);
      while i < |data|
        invariant fresh(out)
        invariant out.error != null ==> fresh(out.error) && forall d <- out.error.details :: fresh(d)
        invariant Run(M.ENVELOPE, out.Value(), Drop(data, i)) == Wire.Decode(M.ENVELOPE, data)
        decreases |data| - i
      {
        i :- out.DecodeField(data, i);
      }
      RunEnd(M.ENVELOPE, out.Value(), data, i);
      return Ok(out);
    }

    /** One turn of the loop of `decode`. */
    method DecodeField(data: bytes, i: nat) returns (r: Result<nat>)
      requires i < |data|
      modifies this
      ensures r.Ok? ==> r.value > i
      ensures error != old(error) ==>
                error != null && fresh(error) && forall d <- error.details :: fresh(d)
      ensures r.Ok? ==> Run(M.ENVELOPE, old(Value()), Drop(data, i)) == Run(M.ENVELOPE, Value(), Drop(data, r.value))
      ensures r.ValueError? ==> Run(M.ENVELOPE, old(Value()), Drop(data, i)).ValueError?
    {
      hide Run, ReadTag, ReadChunk, SkipBody, Utf8.Decode, RfcText, Lawful, Drop, Varint, Wire.Decode,
        M.Signed, AppError.Value;
      ghost var s := Value();
      TurnBadTag(M.ENVELOPE, s, data, i);
      var t :- DecTag(data, i);
      ghost var tag := Tag(t.0, t.1, t.2 - i);
      if t.0 == 1 && t.1 == 0 {
        TurnNumber(M.ENVELOPE, s, data, i, tag);
        var v :- DecVarint(data, t.2);
        status := DecInt32(v.0);
        return Ok(v.1);
      } else if t.0 == 2 && t.1 == 2 {
        TurnChunk(M.ENVELOPE, s, data, i, tag);
        var v :- DecString(data, t.2);
        transportError := v.0;
        return Ok(v.1);
      } else if t.0 == 3 && t.1 == 2 {
        TurnChunk(M.ENVELOPE, s, data, i, tag);
        var v :- DecBytes(data, t.2);
        this.data := v.0;
        return Ok(v.1);
      } else if t.0 == 4 && t.1 == 2 {
        TurnChunk(M.ENVELOPE, s, data, i, tag);
        var sub :- DecBytes(data, t.2);
        var a :- AppError.Decode(sub.0);
        error := a;
        return Ok(sub.1);
      } else {
        EnvelopeLaws.EnvelopeLawful();
        TurnSkip(M.ENVELOPE, s, data, i, tag);
        r := SkipField(data, t.2, t.1);
      }
    }
  }

  function DecInt32(v: nat): int {
    M.Signed(v)
  }

  lemma SerializeNone()
    ensures Serialize([]) == []
  {
  }
}
