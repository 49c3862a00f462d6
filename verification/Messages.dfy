/** The four message types of the envelope as values: which records each one is written as, what each
    decode loop does with a record, and the whole-message functions the codec methods are proved against. */
module Messages {
  import opened Results
  import opened Varints
  import opened Utf8
  import opened Wire
  import opened OrderedDict

  datatype FieldError = FieldError(field: str, code: str, message: str, args: seq<str>)

  datatype AppError = AppError(code: str, message: str, args: seq<str>, details: seq<FieldError>, metadata: dict)

  datatype Envelope = Envelope(status: int, transportError: str, data: bytes, error: Option<AppError>)

  const NO_ENTRY := Entry([], [])
  const NO_FIELD_ERROR := FieldError([], [], [], [])
  const NO_APP_ERROR := AppError([], [], [], [], [])
  const NO_ENVELOPE := Envelope(0, [], [], None)

  // ----- what is written -----

  /** A string field is left out when it is empty. */
  function StrRecords(num: nat, s: str): seq<Record> {
    if s == [] then [] else [Chunk(num, Units8(s))]
  }

  function BytesRecords(num: nat, b: bytes): seq<Record> {
    if b == [] then [] else [Chunk(num, b)]
  }

  /** A repeated string has one record per element, empty ones included. */
  function RepeatedRecords(num: nat, ss: seq<str>): seq<Record> {
    if ss == [] then [] else [Chunk(num, Units8(ss[0]))] + RepeatedRecords(num, ss[1..])
  }

  const TWO64: int := 0x1_0000_0000_0000_0000
  const TWO63: int := 0x8000_0000_0000_0000

  predicate Int64(v: int) {
    -TWO63 <= v < TWO63
  }

  /** A negative status is written as its low 64 bits. */
  function Unsigned(v: int): nat {
    if v < 0 then v % TWO64 else v
  }

  function StatusRecords(num: nat, v: int): seq<Record> {
    if v == 0 then [] else [Number(num, Unsigned(v))]
  }

  function EntryRecords(e: Entry): seq<Record> {
    StrRecords(1, e.key) + StrRecords(2, e.value)
  }

  function FieldErrorRecords(f: FieldError): seq<Record> {
    StrRecords(1, f.field) + (StrRecords(2, f.code) + (StrRecords(3, f.message) + RepeatedRecords(4, f.args)))
  }

  function EntryBytes(e: Entry): bytes {
    Serialize(EntryRecords(e))
  }

  function FieldErrorBytes(f: FieldError): bytes {
    Serialize(FieldErrorRecords(f))
  }

  function DetailRecords(num: nat, ds: seq<FieldError>): seq<Record> {
    if ds == [] then [] else [Chunk(num, FieldErrorBytes(ds[0]))] + DetailRecords(num, ds[1..])
  }

  function MetaRecords(num: nat, d: dict): seq<Record> {
    if d == [] then [] else [Chunk(num, EntryBytes(d[0]))] + MetaRecords(num, d[1..])
  }

  function AppErrorRecords(a: AppError): seq<Record> {
    StrRecords(1, a.code) + (StrRecords(2, a.message)
      + (RepeatedRecords(3, a.args) + (DetailRecords(4, a.details) + MetaRecords(5, a.metadata))))
  }

  function AppErrorBytes(a: AppError): bytes {
    Serialize(AppErrorRecords(a))
  }

  function ErrorRecords(num: nat, e: Option<AppError>): seq<Record> {
    match e
    case None => []
    case Some(a) => [Chunk(num, AppErrorBytes(a))]
  }

  function EnvelopeRecords(e: Envelope): seq<Record> {
    StatusRecords(1, e.status)
      + (StrRecords(2, e.transportError) + (BytesRecords(3, e.data) + ErrorRecords(4, e.error)))
  }

  function EnvelopeBytes(e: Envelope): bytes {
    Serialize(EnvelopeRecords(e))
  }

  // ----- a message is its fields one behind the other -----

  lemma EntryPieces(e: Entry)
    ensures EntryBytes(e) == Serialize(StrRecords(1, e.key)) + Serialize(StrRecords(2, e.value))
  {
    hide Serialize, StrRecords;
    SerializeConcat(StrRecords(1, e.key), StrRecords(2, e.value));
  }

  lemma FieldErrorPieces(f: FieldError)
    ensures FieldErrorBytes(f) == Serialize(StrRecords(1, f.field)) + Serialize(StrRecords(2, f.code))
                                  + Serialize(StrRecords(3, f.message)) + Serialize(RepeatedRecords(4, f.args))
  {
    hide Serialize, StrRecords, RepeatedRecords;
    var r3 := StrRecords(3, f.message) + RepeatedRecords(4, f.args);
    SerializeConcat(StrRecords(3, f.message), RepeatedRecords(4, f.args));
    SerializeConcat(StrRecords(2, f.code), r3);
    SerializeConcat(StrRecords(1, f.field), StrRecords(2, f.code) + r3);
  }

  lemma AppErrorPieces(a: AppError)
    ensures AppErrorBytes(a) == Serialize(StrRecords(1, a.code)) + Serialize(StrRecords(2, a.message))
                                + Serialize(RepeatedRecords(3, a.args)) + Serialize(DetailRecords(4, a.details))
                                + Serialize(MetaRecords(5, a.metadata))
  {
    hide Serialize, StrRecords, RepeatedRecords, DetailRecords, MetaRecords;
    var r4 := DetailRecords(4, a.details) + MetaRecords(5, a.metadata);
    var r3 := RepeatedRecords(3, a.args) + r4;
    SerializeConcat(DetailRecords(4, a.details), MetaRecords(5, a.metadata));
    SerializeConcat(RepeatedRecords(3, a.args), r4);
    SerializeConcat(StrRecords(2, a.message), r3);
    SerializeConcat(StrRecords(1, a.code), StrRecords(2, a.message) + r3);
  }

  lemma EnvelopePieces(e: Envelope)
    ensures EnvelopeBytes(e) == Serialize(StatusRecords(1, e.status)) + Serialize(StrRecords(2, e.transportError))
                                + Serialize(BytesRecords(3, e.data)) + Serialize(ErrorRecords(4, e.error))
  {
    hide Serialize, StatusRecords, StrRecords, BytesRecords, ErrorRecords;
    var r3 := BytesRecords(3, e.data) + ErrorRecords(4, e.error);
    SerializeConcat(BytesRecords(3, e.data), ErrorRecords(4, e.error));
    SerializeConcat(StrRecords(2, e.transportError), r3);
    SerializeConcat(StatusRecords(1, e.status), StrRecords(2, e.transportError) + r3);
  }

  // ----- what is read -----

  /** A varint taken as a sign-extended 64-bit integer. */
  function Signed(v: nat): int {
    if v >= TWO63 then v - TWO64 else v
  }

  predicate EntryKnown(num: nat, wire: nat) {
    1 <= num <= 2 && wire == 2
  }

  function EntryStep(e: Entry, r: Record): Result<Entry> {
    match r
    case Chunk(1, b) => (match Utf8.Decode(b) case ValueError => ValueError case Ok(s) => Ok(e.(key := s)))
    case Chunk(2, b) => (match Utf8.Decode(b) case ValueError => ValueError case Ok(s) => Ok(e.(value := s)))
    case _ => Ok(e)
  }

  const ENTRY: Schema<Entry> := Schema(EntryKnown, NO_ENTRY, EntryStep)

  predicate FieldErrorKnown(num: nat, wire: nat) {
    1 <= num <= 4 && wire == 2
  }

  function FieldErrorStep(f: FieldError, r: Record): Result<FieldError> {
    match r
    case Chunk(1, b) => (match Utf8.Decode(b) case ValueError => ValueError case Ok(s) => Ok(f.(field := s)))
    case Chunk(2, b) => (match Utf8.Decode(b) case ValueError => ValueError case Ok(s) => Ok(f.(code := s)))
    case Chunk(3, b) => (match Utf8.Decode(b) case ValueError => ValueError case Ok(s) => Ok(f.(message := s)))
    case Chunk(4, b) => (match Utf8.Decode(b) case ValueError => ValueError case Ok(s) => Ok(f.(args := f.args + [s])))
    case _ => Ok(f)
  }

  const FIELD_ERROR: Schema<FieldError> := Schema(FieldErrorKnown, NO_FIELD_ERROR, FieldErrorStep)

  predicate AppErrorKnown(num: nat, wire: nat) {
    1 <= num <= 5 && wire == 2
  }

  function AppErrorStep(a: AppError, r: Record): Result<AppError> {
    match r
    case Chunk(1, b) => (match Utf8.Decode(b) case ValueError => ValueError case Ok(s) => Ok(a.(code := s)))
    case Chunk(2, b) => (match Utf8.Decode(b) case ValueError => ValueError case Ok(s) => Ok(a.(message := s)))
    case Chunk(3, b) => (match Utf8.Decode(b) case ValueError => ValueError case Ok(s) => Ok(a.(args := a.args + [s])))
    case Chunk(4, b) =>
      (match Wire.Decode(FIELD_ERROR, b) case ValueError => ValueError case Ok(d) => Ok(a.(details := a.details + [d])))
    case Chunk(5, b) =>
      (match Wire.Decode(ENTRY, b)
       case ValueError => ValueError
       case Ok(e) => Ok(a.(metadata := Set(a.metadata, e.key, e.value))))
    case _ => Ok(a)
  }

  const APP_ERROR: Schema<AppError> := Schema(AppErrorKnown, NO_APP_ERROR, AppErrorStep)

  predicate EnvelopeKnown(num: nat, wire: nat) {
    (num == 1 && wire == 0) || (2 <= num <= 4 && wire == 2)
  }

  /** Field 4 replaces the whole error: nothing of an earlier one survives. */
  function EnvelopeStep(e: Envelope, r: Record): Result<Envelope> {
    match r
    case Number(1, v) => Ok(e.(status := Signed(v)))
    case Chunk(2, b) =>
      (match Utf8.Decode(b) case ValueError => ValueError case Ok(s) => Ok(e.(transportError := s)))
    case Chunk(3, b) => Ok(e.(data := b))
    case Chunk(4, b) =>
      (match Wire.Decode(APP_ERROR, b) case ValueError => ValueError case Ok(a) => Ok(e.(error := Some(a))))
    case _ => Ok(e)
  }

  const ENVELOPE: Schema<Envelope> := Schema(EnvelopeKnown, NO_ENVELOPE, EnvelopeStep)

  // ----- which values can be written -----

  ghost predicate EntryEncodable(e: Entry) {
    Encodable(e.key) && Encodable(e.value)
  }

  ghost predicate FieldErrorEncodable(f: FieldError) {
    Encodable(f.field) && Encodable(f.code) && Encodable(f.message) && forall s <- f.args :: Encodable(s)
  }

  ghost predicate AppErrorEncodable(a: AppError) {
    && Encodable(a.code) && Encodable(a.message)
    && (forall s <- a.args :: Encodable(s))
    && (forall d <- a.details :: FieldErrorEncodable(d))
    && (forall e <- a.metadata :: EntryEncodable(e))
  }

  ghost predicate EnvelopeEncodable(e: Envelope) {
    Encodable(e.transportError) && (e.error.Some? ==> AppErrorEncodable(e.error.value))
  }
}
