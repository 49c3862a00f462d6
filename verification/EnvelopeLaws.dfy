/** The four decode loops keep the laws of `WireLaws`, and what follows for each of them. */
module EnvelopeLaws {
  import opened Varints
  import opened Utf8
  import opened Wire
  import opened WireLaws
  import opened OrderedDict
  import opened Messages

  lemma EntryLawful()
    ensures Lawful(ENTRY)
  {
    hide Utf8.Decode;
  }

  lemma FieldErrorLawful()
    ensures Lawful(FIELD_ERROR)
  {
    hide Utf8.Decode;
  }

  lemma AppErrorLawful()
    ensures Lawful(APP_ERROR)
  {
    hide Utf8.Decode, Wire.Decode, Set;
  }

  lemma EnvelopeLawful()
    ensures Lawful(ENVELOPE)
  {
    hide Utf8.Decode, Wire.Decode;
  }

  /** Swapping neighbouring fields with different numbers is harmless in each of the four loops. */
  lemma {:induction false} SwapAtEveryLevel(a: bytes, x: bytes, y: bytes, z: bytes)
    requires WellFramed(a) && OneField(x) && OneField(y)
    requires Next(x).value.rec.num != Next(y).value.rec.num
    ensures var p, q := a + (x + (y + z)), a + (y + (x + z));
            && Wire.Decode(ENTRY, p) == Wire.Decode(ENTRY, q)
            && Wire.Decode(FIELD_ERROR, p) == Wire.Decode(FIELD_ERROR, q)
            && Wire.Decode(APP_ERROR, p) == Wire.Decode(APP_ERROR, q)
            && Wire.Decode(ENVELOPE, p) == Wire.Decode(ENVELOPE, q)
  {
    hide Lawful, Run, Next, WellFramed, OneField;
    EntryLawful();
    FieldErrorLawful();
    AppErrorLawful();
    EnvelopeLawful();
    SwapFields(ENTRY, NO_ENTRY, a, x, y, z);
    SwapFields(FIELD_ERROR, NO_FIELD_ERROR, a, x, y, z);
    SwapFields(APP_ERROR, NO_APP_ERROR, a, x, y, z);
    SwapFields(ENVELOPE, NO_ENVELOPE, a, x, y, z);
  }

  /** a and b hold the same fields, number by number in the same order. */
  ghost predicate SameFields(known: (nat, nat) -> bool, a: bytes, b: bytes) {
    && Parse(known, a).Ok? && Parse(known, b).Ok?
    && forall n: nat :: OfNumber(Parse(known, a).value, n) == OfNumber(Parse(known, b).value, n)
  }

  /** So is every rearrangement that keeps the order within each number. */
  lemma {:induction false} ReorderAtEveryLevel(a: bytes, b: bytes)
    ensures SameFields(EntryKnown, a, b) ==> Wire.Decode(ENTRY, a) == Wire.Decode(ENTRY, b)
    ensures SameFields(FieldErrorKnown, a, b) ==> Wire.Decode(FIELD_ERROR, a) == Wire.Decode(FIELD_ERROR, b)
    ensures SameFields(AppErrorKnown, a, b) ==> Wire.Decode(APP_ERROR, a) == Wire.Decode(APP_ERROR, b)
    ensures SameFields(EnvelopeKnown, a, b) ==> Wire.Decode(ENVELOPE, a) == Wire.Decode(ENVELOPE, b)
  {
    hide Lawful, Run, Parse, OfNumber;
    EntryLawful();
    FieldErrorLawful();
    AppErrorLawful();
    EnvelopeLawful();
    if SameFields(EntryKnown, a, b) { FieldOrderIrrelevant(ENTRY, NO_ENTRY, a, b); }
    if SameFields(FieldErrorKnown, a, b) { FieldOrderIrrelevant(FIELD_ERROR, NO_FIELD_ERROR, a, b); }
    if SameFields(AppErrorKnown, a, b) { FieldOrderIrrelevant(APP_ERROR, NO_APP_ERROR, a, b); }
    if SameFields(EnvelopeKnown, a, b) { FieldOrderIrrelevant(ENVELOPE, NO_ENVELOPE, a, b); }
  }

  /** Fields a loop does not know may be inserted at any of its field boundaries. */
  lemma {:induction false} ForwardCompatibleAtEveryLevel(a: bytes, u: bytes, b: bytes)
    requires WellFramed(a)
    ensures Unknown(ENTRY, u) ==> Wire.Decode(ENTRY, a + (u + b)) == Wire.Decode(ENTRY, a + b)
    ensures Unknown(FIELD_ERROR, u) ==> Wire.Decode(FIELD_ERROR, a + (u + b)) == Wire.Decode(FIELD_ERROR, a + b)
    ensures Unknown(APP_ERROR, u) ==> Wire.Decode(APP_ERROR, a + (u + b)) == Wire.Decode(APP_ERROR, a + b)
    ensures Unknown(ENVELOPE, u) ==> Wire.Decode(ENVELOPE, a + (u + b)) == Wire.Decode(ENVELOPE, a + b)
  {
    hide Lawful, Run, Unknown, WellFramed;
    EntryLawful();
    FieldErrorLawful();
    AppErrorLawful();
    EnvelopeLawful();
    if Unknown(ENTRY, u) { ForwardCompatible(ENTRY, NO_ENTRY, a, u, b); }
    if Unknown(FIELD_ERROR, u) { ForwardCompatible(FIELD_ERROR, NO_FIELD_ERROR, a, u, b); }
    if Unknown(APP_ERROR, u) { ForwardCompatible(APP_ERROR, NO_APP_ERROR, a, u, b); }
    if Unknown(ENVELOPE, u) { ForwardCompatible(ENVELOPE, NO_ENVELOPE, a, u, b); }
  }
}
