/** Exactly which byte strings the four decoders accept, and which fields cut short at the end of the
    input they let pass. */
module EnvelopeAccepts {
  import opened Results
  import opened Varints
  import opened Utf8
  import opened Utf8Laws
  import opened Wire
  import opened WireLaws
  import opened Messages
  import EnvelopeLaws

  /** Whether a step succeeds is a matter of the record alone. */
  ghost predicate Admits<S(!new)>(sch: Schema<S>, ok: Record -> bool) {
    forall s, r: Record :: sch.step(s, r).Ok? <==> ok(r)
  }

  /** b is whole fields with admissible payloads up to k; what is left, if anything, is one field that is
      tolerated although it stops early, and the part of its payload that is there is admissible. */
  ghost predicate Decodes(known: (nat, nat) -> bool, ok: Record -> bool, b: bytes, k: nat) {
    && Splits(known, b, k)
    && Parse(known, b[..k]).Ok?
    && (forall r <- Parse(known, b[..k]).value :: ok(r))
    && (k < |b| ==> ok(Next(b[k..]).value.rec))
  }

  ghost predicate Accepts(known: (nat, nat) -> bool, ok: Record -> bool, b: bytes) {
    exists k :: Decodes(known, ok, b, k)
  }

  lemma {:induction false} FoldAccepts<S(!new)>(sch: Schema<S>, ok: Record -> bool, s: S, rs: seq<Record>)
    requires Admits(sch, ok)
    ensures Fold(sch.step, s, rs).Ok? <==> forall r <- rs :: ok(r)
  {
    if rs == [] {
    } else {
      assert rs == [rs[0]] + rs[1..];
      assert sch.step(s, rs[0]).Ok? <==> ok(rs[0]);
      if sch.step(s, rs[0]).Ok? {
        FoldAccepts(sch, ok, sch.step(s, rs[0]).value, rs[1..]);
      }
    }
  }

  /** The records of an input are those of its whole fields, and the one that is cut short. */
  lemma {:induction false} ParseSplit(known: (nat, nat) -> bool, b: bytes, k: nat)
    requires Splits(known, b, k)
    ensures Parse(known, b[..k]).Ok?
    ensures Parse(known, b)
         == Ok(Parse(known, b[..k]).value + (if k < |b| then [Next(b[k..]).value.rec] else []))
    decreases |b|
  {
    hide Next;
    if k == 0 {
      assert b[..0] == [] && b[0..] == b;
      if b != [] {
        ParseCutShort(known, b);
        assert [] + [Next(b).value.rec] == [Next(b).value.rec];
      }
    } else {
      hide Parse, Splits;
      var a := b[..k];
      FirstOfSplit(known, b, k);
      var f := Next(a).value;
      ParseSplit(known, b[f.end..], k - f.end);
      ParseCons(known, b);
      ParseCons(known, a);
      var rs := Parse(known, a[f.end..]).value;
      var last := if k < |b| then [Next(b[k..]).value.rec] else [];
      assert [f.rec] + (rs + last) == [f.rec] + rs + last;
    }
  }

  lemma FirstOfSplit(known: (nat, nat) -> bool, b: bytes, k: nat)
    requires Splits(known, b, k) && k > 0
    ensures var a := b[..k];
            && Next(a).Some? && 0 < Next(a).value.end <= k && Next(b) == Next(a)
            && var end := Next(a).value.end;
               && Splits(known, b[end..], k - end)
               && a[end..] == b[end..][..k - end] && b[k..] == b[end..][k - end..]
  {
    hide Next;
    var a := b[..k];
    assert a + b[k..] == b;
    var f := Next(a).value;
    NextExtends(a, b[k..]);
    SplitsCons(known, b, k - f.end);
    Slices(b, f.end, k - f.end);
  }

  lemma ParseCutShort(known: (nat, nat) -> bool, b: bytes)
    requires b != [] && CutShort(known, b)
    ensures Parse(known, b) == Ok([Next(b).value.rec])
  {
    hide Next;
    var rec := Next(b).value.rec;
    assert Parse(known, Drop(b, Next(b).value.end)) == Ok([]);
    assert [rec] + [] == [rec];
  }

  lemma ParseCons(known: (nat, nat) -> bool, b: bytes)
    requires Next(b).Some? && Next(b).value.end <= |b| && b != []
    requires Parse(known, b[Next(b).value.end..]).Ok?
    ensures Parse(known, b) == Ok([Next(b).value.rec] + Parse(known, b[Next(b).value.end..]).value)
  {
    hide Next;
  }

  lemma CutShortReads(known: (nat, nat) -> bool, b: bytes, k: nat)
    requires Splits(known, b, k) && k < |b|
    ensures Next(b[k..]).Some?
  {
    hide Next;
  }

  /** A decode loop ends with a value for exactly these inputs. */
  lemma {:induction false} RunAcceptsIff<S(!new)>(sch: Schema<S>, ok: Record -> bool, s: S, b: bytes)
    requires Admits(sch, ok)
    ensures Run(sch, s, b).Ok? <==> Accepts(sch.known, ok, b)
  {
    hide Run, Fold, Parse, Next, Admits, WellFramed, CutShort;
    RunIsFold(sch, s, b);
    AcceptedIffSplits(sch.known, b);
    if Parse(sch.known, b).Ok? {
      FoldAccepts(sch, ok, s, Parse(sch.known, b).value);
    }
    forall k: nat | Splits(sch.known, b, k)
      ensures Parse(sch.known, b).Ok?
      ensures Decodes(sch.known, ok, b, k) <==> forall r <- Parse(sch.known, b).value :: ok(r)
    {
      ParseSplit(sch.known, b, k);
      if k < |b| { CutShortReads(sch.known, b, k); }
      var rs := Parse(sch.known, b[..k]).value;
      var last := if k < |b| then [Next(b[k..]).value.rec] else [];
      assert forall r :: r in rs + last <==> r in rs || r in last;
      assert k < |b| ==> Next(b[k..]).value.rec in last;
    }
    if Accepts(sch.known, ok, b) {
      var k :| Decodes(sch.known, ok, b, k);
      assert Splits(sch.known, b, k);
    }
  }

  /** A field that the end of the input cuts short goes unnoticed if and only if its kind is tolerated
      and the clipped payload is one that could have been meant. */
  lemma CutShortUnnoticedIff<S(!new)>(sch: Schema<S>, ok: Record -> bool, s: S, a: bytes, z: bytes)
    requires Admits(sch, ok) && WellFramed(a)
    requires z != [] && Next(z).Some? && Next(z).value.end > |z|
    ensures Run(sch, s, a + z).Ok? <==> Run(sch, s, a).Ok? && CutShort(sch.known, z) && ok(Next(z).value.rec)
  {
    hide Next, WellFramed;
    RunConcat(sch, s, a, z);
    if Run(sch, s, a).Ok? {
      var t := Run(sch, s, a).value;
      var f := Next(z).value;
      assert sch.step(t, f.rec).Ok? <==> ok(f.rec);
      assert sch.step(t, f.rec).Ok? ==> Run(sch, sch.step(t, f.rec).value, []).Ok?;
    }
  }

  // ----- the payloads each decoder admits -----

  ghost predicate EntryOk(r: Record) {
    r.Chunk? && 1 <= r.num <= 2 ==> RfcText(r.payload)
  }

  ghost predicate FieldErrorOk(r: Record) {
    r.Chunk? && 1 <= r.num <= 4 ==> RfcText(r.payload)
  }

  ghost predicate AppErrorOk(r: Record) {
    && (r.Chunk? && 1 <= r.num <= 3 ==> RfcText(r.payload))
    && (r.Chunk? && r.num == 4 ==> Accepts(FieldErrorKnown, FieldErrorOk, r.payload))
    && (r.Chunk? && r.num == 5 ==> Accepts(EntryKnown, EntryOk, r.payload))
  }

  ghost predicate EnvelopeOk(r: Record) {
    && (r.Chunk? && r.num == 2 ==> RfcText(r.payload))
    && (r.Chunk? && r.num == 4 ==> Accepts(AppErrorKnown, AppErrorOk, r.payload))
  }

  lemma EntryAdmits()
    ensures Admits(ENTRY, EntryOk)
  {
    hide Utf8.Decode, RfcText;
    forall e, r: Record ensures EntryStep(e, r).Ok? <==> EntryOk(r) {
      if r.Chunk? { DecodeOkIff(r.payload); }
    }
  }

  lemma FieldErrorAdmits()
    ensures Admits(FIELD_ERROR, FieldErrorOk)
  {
    hide Utf8.Decode, RfcText;
    forall f, r: Record ensures FieldErrorStep(f, r).Ok? <==> FieldErrorOk(r) {
      if r.Chunk? { DecodeOkIff(r.payload); }
    }
  }

  lemma EntryAcceptsIff(b: bytes)
    ensures Wire.Decode(ENTRY, b).Ok? <==> Accepts(EntryKnown, EntryOk, b)
  {
    hide Run, Admits, Accepts;
    EntryAdmits();
    RunAcceptsIff(ENTRY, EntryOk, NO_ENTRY, b);
  }

  lemma FieldErrorAcceptsIff(b: bytes)
    ensures Wire.Decode(FIELD_ERROR, b).Ok? <==> Accepts(FieldErrorKnown, FieldErrorOk, b)
  {
    hide Run, Admits, Accepts;
    FieldErrorAdmits();
    RunAcceptsIff(FIELD_ERROR, FieldErrorOk, NO_FIELD_ERROR, b);
  }

  lemma AppErrorAdmits()
    ensures Admits(APP_ERROR, AppErrorOk)
  {
    hide Utf8.Decode, Wire.Decode, RfcText, Accepts;
    forall a, r: Record ensures AppErrorStep(a, r).Ok? <==> AppErrorOk(r) {
      if r.Chunk? {
        DecodeOkIff(r.payload);
        FieldErrorAcceptsIff(r.payload);
        EntryAcceptsIff(r.payload);
      }
    }
  }

  lemma AppErrorAcceptsIff(b: bytes)
    ensures Wire.Decode(APP_ERROR, b).Ok? <==> Accepts(AppErrorKnown, AppErrorOk, b)
  {
    hide Run, Admits, Accepts;
    AppErrorAdmits();
    RunAcceptsIff(APP_ERROR, AppErrorOk, NO_APP_ERROR, b);
  }

  lemma EnvelopeAdmits()
    ensures Admits(ENVELOPE, EnvelopeOk)
  {
    hide Utf8.Decode, Wire.Decode, RfcText, Accepts;
    forall e, r: Record ensures EnvelopeStep(e, r).Ok? <==> EnvelopeOk(r) {
      if r.Chunk? {
        DecodeOkIff(r.payload);
        AppErrorAcceptsIff(r.payload);
      }
    }
  }

  /** `Envelope.decode` accepts exactly the inputs whose fields are whole and carry admissible payloads,
      at every level down, save that at each level the last field may be cut short as `Decodes` says. */
  lemma EnvelopeAcceptsIff(b: bytes)
    ensures Wire.Decode(ENVELOPE, b).Ok? <==> Accepts(EnvelopeKnown, EnvelopeOk, b)
  {
    hide Run, Admits, Accepts;
    EnvelopeAdmits();
    RunAcceptsIff(ENVELOPE, EnvelopeOk, NO_ENVELOPE, b);
  }

  // ----- the last field, in bytes -----

  /** z starts with the tag of a field, and p is what stands behind it. */
  ghost predicate Head(z: bytes, num: nat, wire: nat, p: bytes) {
    && wire < 8
    && Varint(z).Some? && Varint(z).value.value == num * 8 + wire
    && p == z[Varint(z).value.used..]
  }

  lemma HeadReads(z: bytes, num: nat, wire: nat, p: bytes)
    requires Head(z, num, wire, p)
    ensures z != [] && Varint(z).value.value / 8 == num && Varint(z).value.value % 8 == wire
  {
    hide Varint;
  }

  lemma LastFixedKeeps<S(!new)>(sch: Schema<S>, a: bytes, z: bytes, num: nat, wire: nat, p: bytes)
    requires Lawful(sch) && !sch.known(num, wire)
    requires WellFramed(a) && Head(z, num, wire, p)
    requires (wire == 1 && |p| <= 8) || (wire == 5 && |p| <= 4)
    ensures Wire.Decode(sch, a + z) == Wire.Decode(sch, a)
  {
    hide Varint, Next, WellFramed;
    RunConcat(sch, sch.init, a, z);
    NextByWire(z);
    HeadReads(z, num, wire, p);
    var f := Next(z).value;
    assert f.rec.num == num && f.rec.WireType() == wire && Drop(z, f.end) == [];
    if Wire.Decode(sch, a).Ok? {
      var t := Wire.Decode(sch, a).value;
      assert sch.step(t, f.rec) == Ok(t);
      assert Run(sch, t, []) == Ok(t);
    }
  }

  /** A fixed-width field at the end changes nothing at any level, however much of it is there. */
  lemma LastFixedUnnoticed(a: bytes, z: bytes, num: nat, wire: nat, p: bytes)
    requires WellFramed(a) && Head(z, num, wire, p)
    requires (wire == 1 && |p| <= 8) || (wire == 5 && |p| <= 4)
    ensures Wire.Decode(ENTRY, a + z) == Wire.Decode(ENTRY, a)
    ensures Wire.Decode(FIELD_ERROR, a + z) == Wire.Decode(FIELD_ERROR, a)
    ensures Wire.Decode(APP_ERROR, a + z) == Wire.Decode(APP_ERROR, a)
    ensures Wire.Decode(ENVELOPE, a + z) == Wire.Decode(ENVELOPE, a)
  {
    hide Wire.Decode, WellFramed, Lawful, Head;
    EnvelopeLaws.EntryLawful();
    EnvelopeLaws.FieldErrorLawful();
    EnvelopeLaws.AppErrorLawful();
    EnvelopeLaws.EnvelopeLawful();
    LastFixedKeeps(ENTRY, a, z, num, wire, p);
    LastFixedKeeps(FIELD_ERROR, a, z, num, wire, p);
    LastFixedKeeps(APP_ERROR, a, z, num, wire, p);
    LastFixedKeeps(ENVELOPE, a, z, num, wire, p);
  }

  /** A last field that ends where the input does or past it: what it takes for a decoder to accept it. */
  lemma LastField<S(!new)>(sch: Schema<S>, ok: Record -> bool, a: bytes, z: bytes)
    requires Admits(sch, ok) && WellFramed(a)
    requires Next(z).Some? && Next(z).value.end >= |z| && z != []
    ensures Wire.Decode(sch, a + z).Ok?
       <==> Wire.Decode(sch, a).Ok? && Wire.Accepts(sch.known, Next(z).value, z) && ok(Next(z).value.rec)
  {
    hide Next, WellFramed;
    RunConcat(sch, sch.init, a, z);
    if Wire.Decode(sch, a).Ok? {
      var t, f := Wire.Decode(sch, a).value, Next(z).value;
      assert Drop(z, f.end) == [];
      assert sch.step(t, f.rec).Ok? <==> ok(f.rec);
      assert sch.step(t, f.rec).Ok? ==> Run(sch, sch.step(t, f.rec).value, []).Ok?;
    }
  }

  /** A chunk at the end, whole or clipped, is accepted for a known field if what is there of it will do, and
      for any other field if it is whole. */
  lemma LastChunkIff(a: bytes, z: bytes, num: nat, p: bytes)
    requires WellFramed(a) && Head(z, num, 2, p)
    requires Varint(p).Some? && Varint(p).value.used + Varint(p).value.value >= |p|
    ensures var q := p[Varint(p).value.used..];
            var whole := Varint(p).value.value == |q|;
            && (Wire.Decode(ENTRY, a + z).Ok?
                <==> Wire.Decode(ENTRY, a).Ok? && if 1 <= num <= 2 then RfcText(q) else whole)
            && (Wire.Decode(FIELD_ERROR, a + z).Ok?
                <==> Wire.Decode(FIELD_ERROR, a).Ok? && if 1 <= num <= 4 then RfcText(q) else whole)
            && (Wire.Decode(APP_ERROR, a + z).Ok?
                <==> Wire.Decode(APP_ERROR, a).Ok?
                     && if 1 <= num <= 3 then RfcText(q)
                        else if num == 4 then Wire.Decode(FIELD_ERROR, q).Ok?
                        else if num == 5 then Wire.Decode(ENTRY, q).Ok?
                        else whole)
            && (Wire.Decode(ENVELOPE, a + z).Ok?
                <==> Wire.Decode(ENVELOPE, a).Ok?
                     && if num == 2 then RfcText(q)
                        else if num == 3 then true
                        else if num == 4 then Wire.Decode(APP_ERROR, q).Ok?
                        else whole)
  {
    hide Varint, Next, WellFramed, Wire.Decode, RfcText, Accepts, Admits;
    NextByWire(z);
    HeadReads(z, num, 2, p);
    var q := p[Varint(p).value.used..];
    assert Next(z).value.rec == Chunk(num, q) && Next(z).value.end >= |z|;
    EntryAdmits();
    FieldErrorAdmits();
    AppErrorAdmits();
    EnvelopeAdmits();
    LastField(ENTRY, EntryOk, a, z);
    LastField(FIELD_ERROR, FieldErrorOk, a, z);
    LastField(APP_ERROR, AppErrorOk, a, z);
    LastField(ENVELOPE, EnvelopeOk, a, z);
    FieldErrorAcceptsIff(q);
    EntryAcceptsIff(q);
    AppErrorAcceptsIff(q);
  }

  /** A varint field at the end is accepted at every level, whatever its number and value. */
  lemma LastNumberAccepted(a: bytes, z: bytes, num: nat, p: bytes)
    requires WellFramed(a) && Head(z, num, 0, p)
    requires Varint(p).Some? && Varint(p).value.used == |p|
    ensures Wire.Decode(ENTRY, a + z).Ok? <==> Wire.Decode(ENTRY, a).Ok?
    ensures Wire.Decode(FIELD_ERROR, a + z).Ok? <==> Wire.Decode(FIELD_ERROR, a).Ok?
    ensures Wire.Decode(APP_ERROR, a + z).Ok? <==> Wire.Decode(APP_ERROR, a).Ok?
    ensures Wire.Decode(ENVELOPE, a + z).Ok? <==> Wire.Decode(ENVELOPE, a).Ok?
  {
    hide Varint, Next, WellFramed, Wire.Decode, RfcText, Accepts, Admits;
    NextByWire(z);
    HeadReads(z, num, 0, p);
    EntryAdmits();
    FieldErrorAdmits();
    AppErrorAdmits();
    EnvelopeAdmits();
    LastField(ENTRY, EntryOk, a, z);
    LastField(FIELD_ERROR, FieldErrorOk, a, z);
    LastField(APP_ERROR, AppErrorOk, a, z);
    LastField(ENVELOPE, EnvelopeOk, a, z);
  }

  /** A field that cannot be read - no whole tag, no whole varint or length behind it, a group or a wire type
      that does not exist - is refused at every level. */
  lemma UnreadableRefused(a: bytes, z: bytes)
    requires WellFramed(a) && z != []
    requires || Varint(z).None?
             || exists num: nat, wire: nat, p: bytes :: Head(z, num, wire, p)
                  && (wire in {3, 4, 6, 7} || (wire in {0, 2} && Varint(p).None?))
    ensures Wire.Decode(ENTRY, a + z).ValueError?
    ensures Wire.Decode(FIELD_ERROR, a + z).ValueError?
    ensures Wire.Decode(APP_ERROR, a + z).ValueError?
    ensures Wire.Decode(ENVELOPE, a + z).ValueError?
  {
    hide Varint, Next, WellFramed;
    NextByWire(z);
    if Varint(z).Some? {
      var num: nat, wire: nat, p: bytes :| Head(z, num, wire, p)
        && (wire in {3, 4, 6, 7} || (wire in {0, 2} && Varint(p).None?));
      HeadReads(z, num, wire, p);
    }
    assert Next(z) == None;
    RunConcat(ENTRY, NO_ENTRY, a, z);
    RunConcat(FIELD_ERROR, NO_FIELD_ERROR, a, z);
    RunConcat(APP_ERROR, NO_APP_ERROR, a, z);
    RunConcat(ENVELOPE, NO_ENVELOPE, a, z);
  }

  /** The input ends inside the field that starts with the tag in front of p. */
  predicate Torn(wire: nat, p: bytes) {
    || (wire == 1 && |p| < 8)
    || (wire == 2 && Varint(p).Some? && Varint(p).value.used + Varint(p).value.value > |p|)
    || (wire == 5 && |p| < 4)
  }

  /** What is there of the payload of a torn chunk. */
  function Rest(p: bytes): bytes {
    match Varint(p)
    case None => []
    case Some(l) => p[l.used..]
  }

  /** Which torn last fields each decoder lets pass, behind whole fields: fixed-width ones, and those chunks
      of its own of which enough is there. */
  lemma CutShortAtEveryLevel(a: bytes, z: bytes, num: nat, wire: nat, p: bytes)
    requires WellFramed(a) && Head(z, num, wire, p) && Torn(wire, p)
    ensures Wire.Decode(ENTRY, a + z).Ok?
       <==> Wire.Decode(ENTRY, a).Ok? && (wire == 2 ==> 1 <= num <= 2 && RfcText(Rest(p)))
    ensures Wire.Decode(FIELD_ERROR, a + z).Ok?
       <==> Wire.Decode(FIELD_ERROR, a).Ok? && (wire == 2 ==> 1 <= num <= 4 && RfcText(Rest(p)))
    ensures Wire.Decode(APP_ERROR, a + z).Ok?
       <==> Wire.Decode(APP_ERROR, a).Ok?
            && (wire == 2 ==> && 1 <= num <= 5
                              && (num <= 3 ==> RfcText(Rest(p)))
                              && (num == 4 ==> Wire.Decode(FIELD_ERROR, Rest(p)).Ok?)
                              && (num == 5 ==> Wire.Decode(ENTRY, Rest(p)).Ok?))
    ensures Wire.Decode(ENVELOPE, a + z).Ok?
       <==> Wire.Decode(ENVELOPE, a).Ok?
            && (wire == 2 ==> && 2 <= num <= 4
                              && (num == 2 ==> RfcText(Rest(p)))
                              && (num == 4 ==> Wire.Decode(APP_ERROR, Rest(p)).Ok?))
  {
    hide Varint, WellFramed, Wire.Decode, RfcText, Head;
    if wire == 2 {
      LastChunkIff(a, z, num, p);
    } else {
      LastFixedUnnoticed(a, z, num, wire, p);
    }
  }
}
