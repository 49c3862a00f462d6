/** The wire format of one message level: records, how a byte string splits into them, and decoding
    as a fold over them. A message type supplies only a `Schema`. */
module Wire {
  import opened Results
  import opened Varints

  /** One field as it stands on the wire: its number, its wire type (the constructor), its payload. */
  datatype Record =
    | Number(num: nat, value: nat)
    | Fixed64(num: nat, payload: bytes)
    | Chunk(num: nat, payload: bytes)
    | Fixed32(num: nat, payload: bytes)
  {
    function WireType(): nat {
      match this
      case Number(_, _) => 0
      case Fixed64(_, _) => 1
      case Chunk(_, _) => 2
      case Fixed32(_, _) => 5
    }
  }

  // ----- writing -----

  function TagBytes(num: nat, wire: nat): bytes {
    Enc(num * 8 + wire)
  }

  function Body(r: Record): bytes {
    match r
    case Number(_, v) => Enc(v)
    case Chunk(_, b) => Enc(|b|) + b
    case Fixed64(_, b) => b
    case Fixed32(_, b) => b
  }

  function Ser(r: Record): bytes {
    TagBytes(r.num, r.WireType()) + Body(r)
  }

  function Serialize(rs: seq<Record>): bytes {
    if rs == [] then [] else Ser(rs[0]) + Serialize(rs[1..])
  }

  lemma {:induction false} SerializeConcat(a: seq<Record>, b: seq<Record>)
    ensures Serialize(a + b) == Serialize(a) + Serialize(b)
  {
    if a == [] {
      assert a + b == b;
    } else {
      assert (a + b)[1..] == a[1..] + b;
      SerializeConcat(a[1..], b);
    }
  }

  lemma SerializeOne(r: Record)
    ensures Serialize([r]) == Ser(r)
  {
    assert [r][1..] == [];
  }

  // ----- reading -----

  datatype Tag = Tag(num: nat, wire: nat, used: nat)

  function ReadTag(b: bytes): (r: Option<Tag>)
    ensures r.Some? ==> 1 <= r.value.used <= |b|
  {
    match Varint(b)
    case None => None
    case Some(t) => Some(Tag(t.value / 8, t.value % 8, t.used))
  }

  /** A payload and the position just after it, which lies past the end of b when the payload was cut short. */
  datatype Span = Span(payload: bytes, end: nat)

  /** A length prefix and as much of the announced payload as there is. */
  function ReadChunk(b: bytes): Option<Span> {
    match Varint(b)
    case None => None
    case Some(l) => Some(Span(Take(Drop(b, l.used), l.value), l.used + l.value))
  }

  datatype Frame = Frame(rec: Record, end: nat)

  function ReadBody(num: nat, wire: nat, b: bytes): Option<Frame> {
    if wire == 0 then
      match Varint(b)
      case None => None
      case Some(v) => Some(Frame(Number(num, v.value), v.used))
    else if wire == 1 then Some(Frame(Fixed64(num, Take(b, 8)), 8))
    else if wire == 2 then
      match ReadChunk(b)
      case None => None
      case Some(s) => Some(Frame(Chunk(num, s.payload), s.end))
    else if wire == 5 then Some(Frame(Fixed32(num, Take(b, 4)), 4))
    else None
  }

  /** Where the loop goes on after a field it does not know; None when it refuses to. A skipped
      length-delimited field must fit, a skipped fixed-width one need not. */
  function SkipBody(wire: nat, b: bytes): Option<nat> {
    match ReadBody(0, wire, b)
    case None => None
    case Some(f) => if wire == 2 && f.end > |b| then None else Some(f.end)
  }

  /** The first field of b, and where the next one starts. */
  function Next(b: bytes): (r: Option<Frame>)
    ensures r.Some? ==> r.value.end > 0
    ensures r.Some? && r.value.rec.Number? ==> r.value.end <= |b|
  {
    match ReadTag(b)
    case None => None
    case Some(t) =>
      match ReadBody(t.num, t.wire, Drop(b, t.used))
      case None => None
      case Some(f) => Some(Frame(f.rec, t.used + f.end))
  }

  /** What the bytes behind a tag are taken for, wire type by wire type, and where the next field starts: a
      fixed-width payload or a chunk is what there is of it, a varint must be whole, a group is refused. */
  lemma NextByWire(b: bytes)
    ensures Varint(b).None? ==> Next(b) == None
    ensures Varint(b).Some? ==>
              var num, wire, used := Varint(b).value.value / 8, Varint(b).value.value % 8, Varint(b).value.used;
              var p := b[used..];
              && (wire == 0 ==> Next(b) == match Varint(p)
                                           case None => None
                                           case Some(v) => Some(Frame(Number(num, v.value), used + v.used)))
              && (wire == 1 ==> Next(b) == Some(Frame(Fixed64(num, if |p| < 8 then p else p[..8]), used + 8)))
              && (wire == 2 ==> Next(b) == match Varint(p)
                                           case None => None
                                           case Some(l) =>
                                             var q := p[l.used..];
                                             Some(Frame(Chunk(num, if |q| < l.value then q else q[..l.value]),
                                                        used + l.used + l.value)))
              && (wire == 5 ==> Next(b) == Some(Frame(Fixed32(num, if |p| < 4 then p else p[..4]), used + 4)))
              && (wire in {3, 4, 6, 7} ==> Next(b) == None)
  {
    hide Varint;
  }

  /** Each field of b ends inside b. */
  predicate WellFramed(b: bytes)
    decreases |b|
  {
    b == [] ||
    match Next(b)
    case None => false
    case Some(f) => f.end <= |b| && WellFramed(b[f.end..])
  }

  /** What a message type contributes: the (number, wire type) pairs it dispatches on, the value of a
      fresh object, and the effect of one record. */
  datatype Schema<!S> = Schema(known: (nat, nat) -> bool, init: S, step: (S, Record) -> Result<S>)

  /** A length-delimited field may announce more bytes than there are only when it is a known one. */
  predicate Accepts(known: (nat, nat) -> bool, f: Frame, b: bytes) {
    f.end <= |b| || !f.rec.Chunk? || known(f.rec.num, 2)
  }

  /** The records of b, in order. */
  function Parse(known: (nat, nat) -> bool, b: bytes): Result<seq<Record>>
    decreases |b|
  {
    if b == [] then Ok([])
    else
      match Next(b)
      case None => ValueError
      case Some(f) =>
        if !Accepts(known, f, b) then ValueError
        else
          match Parse(known, Drop(b, f.end))
          case ValueError => ValueError
          case Ok(rs) => Ok([f.rec] + rs)
  }

  function Fold<S>(step: (S, Record) -> Result<S>, s: S, rs: seq<Record>): Result<S> {
    if rs == [] then Ok(s)
    else
      match step(s, rs[0])
      case ValueError => ValueError
      case Ok(t) => Fold(step, t, rs[1..])
  }

  /** The decode loop: read a field, apply it, go on behind it. */
  function Run<S>(sch: Schema<S>, s: S, b: bytes): Result<S>
    decreases |b|
  {
    if b == [] then Ok(s)
    else
      match Next(b)
      case None => ValueError
      case Some(f) =>
        if !Accepts(sch.known, f, b) then ValueError
        else
          match sch.step(s, f.rec)
          case ValueError => ValueError
          case Ok(t) => Run(sch, t, Drop(b, f.end))
  }

  function Decode<S>(sch: Schema<S>, b: bytes): Result<S> {
    Run(sch, sch.init, b)
  }

  /** The interleaved loop accepts and computes what splitting first and folding afterwards would. */
  lemma {:induction false} RunIsFold<S>(sch: Schema<S>, s: S, b: bytes)
    ensures Run(sch, s, b) ==
            match Parse(sch.known, b)
            case ValueError => ValueError
            case Ok(rs) => Fold(sch.step, s, rs)
    decreases |b|
  {
    hide Next;
    if b != [] && Next(b).Some? && Accepts(sch.known, Next(b).value, b) {
      var f := Next(b).value;
      var rest := Drop(b, f.end);
      if sch.step(s, f.rec).Ok? {
        RunIsFold(sch, sch.step(s, f.rec).value, rest);
      }
      if Parse(sch.known, rest).Ok? {
        var rs := Parse(sch.known, rest).value;
        assert ([f.rec] + rs)[0] == f.rec && ([f.rec] + rs)[1..] == rs;
      }
    }
  }

  lemma {:induction false} FoldConcat<S>(step: (S, Record) -> Result<S>, s: S, a: seq<Record>, b: seq<Record>)
    ensures Fold(step, s, a + b) ==
            match Fold(step, s, a)
            case ValueError => ValueError
            case Ok(t) => Fold(step, t, b)
  {
    if a == [] {
      assert a + b == b;
    } else {
      assert (a + b)[0] == a[0] && (a + b)[1..] == a[1..] + b;
      if step(s, a[0]).Ok? {
        FoldConcat(step, step(s, a[0]).value, a[1..], b);
      }
    }
  }

  // ----- one field in context -----

  /** A field that ends inside b is read the same whatever follows it. */
  lemma NextExtends(b: bytes, s: bytes)
    requires Next(b).Some? && Next(b).value.end <= |b|
    ensures Next(b + s) == Next(b)
  {
    hide Varint, ReadBody;
    VarintExtends(b, s);
    var t := ReadTag(b).value;
    assert Drop(b + s, t.used) == Drop(b, t.used) + s;
    BodyExtends(t.num, t.wire, Drop(b, t.used), s);
  }

  lemma BodyExtends(num: nat, wire: nat, b: bytes, s: bytes)
    requires ReadBody(num, wire, b).Some? && ReadBody(num, wire, b).value.end <= |b|
    ensures ReadBody(num, wire, b + s) == ReadBody(num, wire, b)
  {
    hide Varint;
    if wire == 0 {
      VarintExtends(b, s);
    } else if wire == 2 {
      VarintExtends(b, s);
      var l := Varint(b).value;
      assert Drop(b + s, l.used) == Drop(b, l.used) + s;
      assert Take(Drop(b, l.used) + s, l.value) == Take(Drop(b, l.used), l.value);
    } else if wire == 1 {
      assert Take(b + s, 8) == Take(b, 8);
    } else {
      assert Take(b + s, 4) == Take(b, 4);
    }
  }

  /** Everything behind a field that fits can be cut off without changing how the field is read. */
  lemma NextTruncated(b: bytes, n: nat)
    requires Next(b).Some? && Next(b).value.end <= n <= |b|
    ensures Next(b[..n]) == Next(b)
  {
    hide Varint, ReadBody;
    VarintTruncated(b, n);
    var t := ReadTag(b).value;
    assert Drop(b[..n], t.used) == Drop(b, t.used)[..n - t.used];
    BodyTruncated(t.num, t.wire, Drop(b, t.used), n - t.used);
  }

  lemma BodyTruncated(num: nat, wire: nat, b: bytes, n: nat)
    requires ReadBody(num, wire, b).Some? && ReadBody(num, wire, b).value.end <= n <= |b|
    ensures ReadBody(num, wire, b[..n]) == ReadBody(num, wire, b)
  {
    hide Varint;
    if wire == 0 {
      VarintTruncated(b, n);
    } else if wire == 2 {
      VarintTruncated(b, n);
      var l := Varint(b).value;
      assert Drop(b[..n], l.used) == Drop(b, l.used)[..n - l.used];
      assert Take(Drop(b, l.used)[..n - l.used], l.value) == Take(Drop(b, l.used), l.value);
    } else if wire == 1 {
      assert Take(b[..n], 8) == Take(b, 8);
    } else {
      assert Take(b[..n], 4) == Take(b, 4);
    }
  }

  /** The sizes within which a record written by the encoder can be read back. */
  predicate Small(r: Record) {
    match r
    case Number(_, v) => v < LIMIT
    case Chunk(_, b) => |b| < LIMIT
    case Fixed64(_, b) => |b| == 8
    case Fixed32(_, b) => |b| == 4
  }

  predicate SmallTag(r: Record) {
    r.num * 8 + r.WireType() < LIMIT
  }

  /** A written record is read back, whatever follows it, exactly when it is small. */
  lemma {:induction false} NextSer(r: Record, s: bytes)
    requires SmallTag(r)
    requires r.Fixed64? ==> |r.payload| == 8
    requires r.Fixed32? ==> |r.payload| == 4
    ensures Next(Ser(r) + s) == if Small(r) then Some(Frame(r, |Ser(r)|)) else None
  {
    hide Varint, Enc, ReadBody, ReadTag, Ser;
    TagOfSer(r, s);
    BodySer(r, s);
  }

  lemma TagOfSer(r: Record, s: bytes)
    requires SmallTag(r)
    ensures ReadTag(Ser(r) + s) == Some(Tag(r.num, r.WireType(), |TagBytes(r.num, r.WireType())|))
    ensures Drop(Ser(r) + s, |TagBytes(r.num, r.WireType())|) == Body(r) + s
  {
    hide Varint, Enc;
    var tag := r.num * 8 + r.WireType();
    assert Ser(r) + s == Enc(tag) + (Body(r) + s);
    VarintEnc(tag, Body(r) + s);
  }

  lemma BodySer(r: Record, s: bytes)
    requires r.Fixed64? ==> |r.payload| == 8
    requires r.Fixed32? ==> |r.payload| == 4
    ensures ReadBody(r.num, r.WireType(), Body(r) + s) == if Small(r) then Some(Frame(r, |Body(r)|)) else None
  {
    hide Varint, Enc;
    match r
    case Number(_, v) =>
      VarintEnc(v, s);
    case Chunk(_, b) =>
      assert Body(r) + s == Enc(|b|) + (b + s);
      VarintEnc(|b|, b + s);
      assert Drop(Enc(|b|) + (b + s), |Enc(|b|)|) == b + s;
      assert Take(b + s, |b|) == b;
    case Fixed64(_, b) =>
      assert Take(b + s, 8) == b;
    case Fixed32(_, b) =>
      assert Take(b + s, 4) == b;
  }

  /** Reading bounds what was read: the canonical form of the record is no longer than the bytes consumed. */
  lemma NextBounds(b: bytes)
    requires Next(b).Some?
    ensures var f := Next(b).value;
            && |Ser(f.rec)| <= f.end && |Ser(f.rec)| <= |b|
            && SmallTag(f.rec)
            && (f.rec.Chunk? ==> |f.rec.payload| < LIMIT)
            && (f.rec.Number? ==> f.rec.value < LIMIT)
  {
    hide Varint, Enc;
    var f := Next(b).value;
    var t := Varint(b).value;
    assert t.value == f.rec.num * 8 + f.rec.WireType();
    if f.rec.Chunk? {
      EncMonotone(|f.rec.payload|, Varint(Drop(b, t.used)).value.value);
    }
  }

  // ----- whole messages -----

  lemma {:induction false} RunConcat<S>(sch: Schema<S>, s: S, a: bytes, b: bytes)
    requires WellFramed(a)
    ensures Run(sch, s, a + b) ==
            match Run(sch, s, a)
            case ValueError => ValueError
            case Ok(t) => Run(sch, t, b)
    decreases |a|
  {
    hide Next;
    if a == [] {
      assert a + b == b;
    } else {
      var f := Next(a).value;
      NextExtends(a, b);
      assert Drop(a + b, f.end) == a[f.end..] + b;
      if sch.step(s, f.rec).Ok? {
        RunConcat(sch, sch.step(s, f.rec).value, a[f.end..], b);
      }
    }
  }

  lemma WellFramedCons(b: bytes)
    requires Next(b).Some? && Next(b).value.end <= |b|
    ensures WellFramed(b) <==> WellFramed(b[Next(b).value.end..])
  {
  }

  /** The records of a written message are the records that were written, provided all are small;
      one that is not makes the message unreadable. */
  lemma {:induction false} ParseSerialize(known: (nat, nat) -> bool, rs: seq<Record>)
    requires forall r <- rs :: SmallTag(r) && !r.Fixed64? && !r.Fixed32?
    ensures Parse(known, Serialize(rs)) == if forall r <- rs :: Small(r) then Ok(rs) else ValueError
    ensures (forall r <- rs :: Small(r)) ==> WellFramed(Serialize(rs))
  {
    hide Next;
    if rs == [] {
    } else {
      var r, rest := rs[0], Serialize(rs[1..]);
      assert r in rs && rs == [r] + rs[1..];
      NextSer(r, rest);
      ParseSerialize(known, rs[1..]);
      assert Drop(Ser(r) + rest, |Ser(r)|) == rest == (Ser(r) + rest)[|Ser(r)|..];
    }
  }

  lemma {:induction false} SerializeCovers(rs: seq<Record>, r: Record)
    requires r in rs
    ensures |Ser(r)| <= |Serialize(rs)|
  {
    if r != rs[0] {
      SerializeCovers(rs[1..], r);
    }
  }

  // ----- one turn of the decode loop, branch by branch -----

  lemma RunBadTag<S>(sch: Schema<S>, s: S, b: bytes)
    requires b != [] && ReadTag(b).None?
    ensures Run(sch, s, b).ValueError?
  {
  }

  lemma RunNumber<S>(sch: Schema<S>, s: S, b: bytes)
    requires b != [] && ReadTag(b).Some? && ReadTag(b).value.wire == 0
    ensures var t := ReadTag(b).value;
            Run(sch, s, b) ==
            match Varint(Drop(b, t.used))
            case None => ValueError
            case Some(v) =>
              match sch.step(s, Number(t.num, v.value))
              case ValueError => ValueError
              case Ok(u) => Run(sch, u, Drop(b, t.used + v.used))
  {
    hide Varint, ReadTag;
  }

  lemma RunChunk<S>(sch: Schema<S>, s: S, b: bytes)
    requires b != [] && ReadTag(b).Some? && ReadTag(b).value.wire == 2 && sch.known(ReadTag(b).value.num, 2)
    ensures var t := ReadTag(b).value;
            Run(sch, s, b) ==
            match ReadChunk(Drop(b, t.used))
            case None => ValueError
            case Some(c) =>
              match sch.step(s, Chunk(t.num, c.payload))
              case ValueError => ValueError
              case Ok(u) => Run(sch, u, Drop(b, t.used + c.end))
  {
    hide ReadChunk, ReadTag;
  }

  lemma RunSkip<S>(sch: Schema<S>, s: S, b: bytes)
    requires b != [] && ReadTag(b).Some?
    requires var t := ReadTag(b).value;
             && !sch.known(t.num, t.wire)
             && forall r: Record :: r.num == t.num && r.WireType() == t.wire ==> sch.step(s, r) == Ok(s)
    ensures var t := ReadTag(b).value;
            Run(sch, s, b) ==
            match SkipBody(t.wire, Drop(b, t.used))
            case None => ValueError
            case Some(end) => Run(sch, s, Drop(b, t.used + end))
  {
    hide Varint, ReadChunk, ReadTag;
    var t := ReadTag(b).value;
  }
}
