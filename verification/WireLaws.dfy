/** What holds of every decode loop whose schema keeps two laws: unknown fields change nothing, and
    fields with different numbers do not interfere. */
module WireLaws {
  import opened Results
  import opened Varints
  import opened Wire

  function Then<S>(step: (S, Record) -> Result<S>, x: Result<S>, r: Record): Result<S> {
    match x
    case ValueError => ValueError
    case Ok(s) => step(s, r)
  }

  predicate Commutes<S(==)>(step: (S, Record) -> Result<S>, s: S, r: Record, q: Record) {
    Then(step, step(s, r), q) == Then(step, step(s, q), r)
  }

  ghost predicate Lawful<S(!new)>(sch: Schema<S>) {
    && (forall s, r: Record :: !sch.known(r.num, r.WireType()) ==> sch.step(s, r) == Ok(s))
    && (forall s, r: Record, q: Record :: r.num != q.num ==> Commutes(sch.step, s, r, q))
  }

  // ----- field order -----

  /** x holds one field and nothing else. */
  predicate OneField(x: bytes) {
    && Next(x).Some?
    && Next(x).value.end == |x|
  }

  lemma OneFieldRun<S>(sch: Schema<S>, s: S, x: bytes, z: bytes)
    requires OneField(x)
    ensures Run(sch, s, x + z) ==
            match sch.step(s, Next(x).value.rec)
            case ValueError => ValueError
            case Ok(t) => Run(sch, t, z)
  {
    NextExtends(x, z);
    assert Drop(x + z, |x|) == z;
  }

  lemma TwoFieldsRun<S>(sch: Schema<S>, s: S, x: bytes, y: bytes, z: bytes)
    requires OneField(x) && OneField(y)
    ensures Run(sch, s, x + (y + z)) ==
            match Then(sch.step, sch.step(s, Next(x).value.rec), Next(y).value.rec)
            case ValueError => ValueError
            case Ok(t) => Run(sch, t, z)
  {
    OneFieldRun(sch, s, x, y + z);
    if sch.step(s, Next(x).value.rec).Ok? {
      OneFieldRun(sch, sch.step(s, Next(x).value.rec).value, y, z);
    }
  }

  /** Swapping two neighbouring fields with different numbers changes neither the value nor the
      verdict, whatever stands before (a whole number of fields) and behind (anything). */
  lemma {:induction false} SwapFields<S(!new)>(sch: Schema<S>, s: S, a: bytes, x: bytes, y: bytes, z: bytes)
    requires Lawful(sch) && WellFramed(a) && OneField(x) && OneField(y)
    requires Next(x).value.rec.num != Next(y).value.rec.num
    ensures Run(sch, s, a + (x + (y + z))) == Run(sch, s, a + (y + (x + z)))
  {
    RunConcat(sch, s, a, x + (y + z));
    RunConcat(sch, s, a, y + (x + z));
    if Run(sch, s, a).Ok? {
      var t := Run(sch, s, a).value;
      TwoFieldsRun(sch, t, x, y, z);
      TwoFieldsRun(sch, t, y, x, z);
      assert Commutes(sch.step, t, Next(x).value.rec, Next(y).value.rec);
    }
  }

  /** The records with number n, in order. */
  function OfNumber(rs: seq<Record>, n: nat): seq<Record> {
    if rs == [] then []
    else (if rs[0].num == n then [rs[0]] else []) + OfNumber(rs[1..], n)
  }

  lemma {:induction false} OfNumberConcat(a: seq<Record>, b: seq<Record>, n: nat)
    ensures OfNumber(a + b, n) == OfNumber(a, n) + OfNumber(b, n)
  {
    if a == [] {
      assert a + b == b;
    } else {
      assert (a + b)[0] == a[0] && (a + b)[1..] == a[1..] + b;
      OfNumberConcat(a[1..], b, n);
    }
  }

  /** Where the first record with number n stands. */
  lemma {:induction false} FirstOfNumber(rs: seq<Record>, n: nat) returns (i: nat)
    requires OfNumber(rs, n) != []
    ensures i < |rs| && rs[i] == OfNumber(rs, n)[0] && rs[i].num == n
    ensures forall j :: 0 <= j < i ==> rs[j].num != n
  {
    if rs[0].num == n {
      i := 0;
    } else {
      var k := FirstOfNumber(rs[1..], n);
      i := k + 1;
      assert forall j :: 0 < j < |rs| ==> rs[j] == rs[1..][j - 1];
    }
  }

  lemma {:induction false} MoveToFront<S(!new)>(sch: Schema<S>, s: S, a: seq<Record>, x: Record, b: seq<Record>)
    requires Lawful(sch)
    requires forall r <- a :: r.num != x.num
    ensures Fold(sch.step, s, a + [x] + b) == Fold(sch.step, s, [x] + (a + b))
  {
    if a == [] {
      assert a + [x] + b == [x] + (a + b);
    } else {
      var r, a' := a[0], a[1..];
      assert r in a && a + [x] + b == [r] + (a' + [x] + b) && a + b == [r] + (a' + b);
      FoldCons(sch.step, s, r, a' + [x] + b);
      if sch.step(s, r).Ok? {
        var t := sch.step(s, r).value;
        MoveToFront(sch, t, a', x, b);
        FoldCons(sch.step, t, x, a' + b);
      }
      FoldCons(sch.step, s, x, a + b);
      if sch.step(s, x).Ok? {
        FoldCons(sch.step, sch.step(s, x).value, r, a' + b);
      }
      assert Commutes(sch.step, s, r, x);
    }
  }

  lemma FoldCons<S>(step: (S, Record) -> Result<S>, s: S, r: Record, rs: seq<Record>)
    ensures Fold(step, s, [r] + rs) ==
            match step(s, r)
            case ValueError => ValueError
            case Ok(t) => Fold(step, t, rs)
  {
    assert ([r] + rs)[1..] == rs;
  }

  lemma OwnNumber(q: seq<Record>)
    requires q != []
    ensures OfNumber(q, q[0].num) != []
  {
  }

  /** Any rearrangement that keeps the order within each field number is harmless. */
  lemma {:induction false} FoldOrder<S(!new)>(sch: Schema<S>, s: S, p: seq<Record>, q: seq<Record>)
    requires Lawful(sch)
    requires forall n: nat :: OfNumber(p, n) == OfNumber(q, n)
    ensures Fold(sch.step, s, p) == Fold(sch.step, s, q)
    decreases |p|
  {
    if p == [] {
      assert forall n: nat :: OfNumber(q, n) == OfNumber(p, n) == [];
      if q != [] {
        OwnNumber(q);
      }
    } else {
      var x := p[0];
      assert p == [x] + p[1..];
      var i := FirstOfNumber(q, x.num);
      var a, b := q[..i], q[i + 1..];
      assert q == a + [x] + b;
      MoveToFront(sch, s, a, x, b);
      FoldCons(sch.step, s, x, p[1..]);
      FoldCons(sch.step, s, x, a + b);
      forall n: nat
        ensures OfNumber(p[1..], n) == OfNumber(a + b, n)
      {
        assert OfNumber(p, n) == OfNumber(q, n);
        RemoveOne(a, x, b, n);
        Cancel(if x.num == n then [x] else [], OfNumber(p[1..], n), OfNumber(a + b, n));
      }
      if sch.step(s, x).Ok? {
        FoldOrder(sch, sch.step(s, x).value, p[1..], a + b);
      }
    }
  }

  lemma Cancel<T>(l: seq<T>, u: seq<T>, v: seq<T>)
    requires l + u == l + v
    ensures u == v
  {
    assert (l + u)[|l|..] == u && (l + v)[|l|..] == v;
  }

  lemma RemoveOne(a: seq<Record>, x: Record, b: seq<Record>, n: nat)
    requires forall r <- a :: r.num != x.num
    ensures OfNumber(a + [x] + b, n) == (if x.num == n then [x] else []) + OfNumber(a + b, n)
  {
    OfNumberConcat(a + [x], b, n);
    OfNumberConcat(a, [x], n);
    OfNumberConcat(a, b, n);
    assert [x][1..] == [];
    if x.num == n {
      NoneOfNumber(a, n);
    }
  }

  lemma {:induction false} NoneOfNumber(a: seq<Record>, n: nat)
    requires forall r <- a :: r.num != n
    ensures OfNumber(a, n) == []
  {
    if a == [] {
    } else {
      assert a[0] in a;
      NoneOfNumber(a[1..], n);
    }
  }

  /** The same on bytes: two accepted inputs whose fields agree number by number decode alike,
      clipped last fields included. */
  lemma {:induction false} FieldOrderIrrelevant<S(!new)>(sch: Schema<S>, s: S, a: bytes, b: bytes)
    requires Lawful(sch)
    requires Parse(sch.known, a).Ok? && Parse(sch.known, b).Ok?
    requires forall n: nat :: OfNumber(Parse(sch.known, a).value, n) == OfNumber(Parse(sch.known, b).value, n)
    ensures Run(sch, s, a) == Run(sch, s, b)
  {
    RunIsFold(sch, s, a);
    RunIsFold(sch, s, b);
    FoldOrder(sch, s, Parse(sch.known, a).value, Parse(sch.known, b).value);
  }

  // ----- forward compatibility -----

  lemma {:induction false} WellFramedParses(known: (nat, nat) -> bool, u: bytes)
    requires WellFramed(u)
    ensures Parse(known, u).Ok?
    decreases |u|
  {
    if u == [] {
    } else {
      WellFramedParses(known, u[Next(u).value.end..]);
    }
  }

  /** u holds whole fields only, none of which the schema dispatches on: an unknown number, or a
      known number with another wire type. */
  ghost predicate Unknown<S>(sch: Schema<S>, u: bytes) {
    && WellFramed(u)
    && Parse(sch.known, u).Ok?
    && forall r <- Parse(sch.known, u).value :: !sch.known(r.num, r.WireType())
  }

  lemma {:induction false} UnknownKeeps<S(!new)>(sch: Schema<S>, s: S, rs: seq<Record>)
    requires Lawful(sch)
    requires forall r <- rs :: !sch.known(r.num, r.WireType())
    ensures Fold(sch.step, s, rs) == Ok(s)
  {
    if rs == [] {
    } else {
      assert rs[0] in rs;
      UnknownKeeps(sch, s, rs[1..]);
    }
  }

  /** Unknown fields may be inserted at any field boundary; the input behind them is arbitrary. */
  lemma {:induction false} ForwardCompatible<S(!new)>(sch: Schema<S>, s: S, a: bytes, u: bytes, b: bytes)
    requires Lawful(sch) && WellFramed(a) && Unknown(sch, u)
    ensures Run(sch, s, a + (u + b)) == Run(sch, s, a + b)
  {
    RunConcat(sch, s, a, u + b);
    RunConcat(sch, s, a, b);
    if Run(sch, s, a).Ok? {
      var t := Run(sch, s, a).value;
      RunConcat(sch, t, u, b);
      RunIsFold(sch, t, u);
      UnknownKeeps(sch, t, Parse(sch.known, u).value);
    }
  }

  // ----- which inputs are split successfully -----

  /** z is a last field that stops before its end and is tolerated all the same. */
  predicate CutShort(known: (nat, nat) -> bool, z: bytes) {
    && Next(z).Some?
    && Next(z).value.end > |z|
    && match Next(z).value.rec {
         case Number(_, _) => false
         case Fixed64(_, _) => true
         case Chunk(num, _) => known(num, 2)
         case Fixed32(_, _) => true
       }
  }

  /** b is whole fields, save that the last one may be cut short. */
  predicate Splits(known: (nat, nat) -> bool, b: bytes, k: nat) {
    && k <= |b|
    && WellFramed(b[..k])
    && (k == |b| || CutShort(known, b[k..]))
  }

  lemma SplitsCons(known: (nat, nat) -> bool, b: bytes, j: nat)
    requires Next(b).Some? && Next(b).value.end <= |b|
    ensures var end := Next(b).value.end;
            Splits(known, b[end..], j) <==> Splits(known, b, end + j)
  {
    hide Next;
    var end := Next(b).value.end;
    if end + j <= |b| {
      var c := b[..end + j];
      Slices(b, end, j);
      NextTruncated(b, end + j);
      WellFramedCons(c);
    }
  }

  lemma Slices(b: bytes, i: nat, j: nat)
    requires i + j <= |b|
    ensures b[..i + j][i..] == b[i..][..j] && b[i + j..] == b[i..][j..]
  {
  }

  lemma SplitsAtZero(known: (nat, nat) -> bool, b: bytes)
    requires b == [] || CutShort(known, b)
    ensures Splits(known, b, 0)
  {
    hide Next;
    assert b[0..] == b;
  }

  lemma {:induction false} AcceptedSplits(known: (nat, nat) -> bool, b: bytes) returns (k: nat)
    requires Parse(known, b).Ok?
    ensures Splits(known, b, k)
    decreases |b|
  {
    hide Next;
    if b == [] || Next(b).value.end > |b| {
      k := 0;
      SplitsAtZero(known, b);
    } else {
      var rest := Drop(b, Next(b).value.end);
      var j := AcceptedSplits(known, rest);
      k := Next(b).value.end + j;
      SplitsCons(known, b, j);
    }
  }

  lemma {:induction false} SplitsAccepted(known: (nat, nat) -> bool, b: bytes, k: nat)
    requires Splits(known, b, k)
    ensures Parse(known, b).Ok?
    decreases |b|
  {
    hide Next;
    if k == 0 {
      assert b[0..] == b;
    } else {
      var end := Next(b[..k]).value.end;
      assert b[..k] + b[k..] == b;
      NextExtends(b[..k], b[k..]);
      SplitsCons(known, b, k - end);
      SplitsAccepted(known, b[end..], k - end);
    }
  }

  /** Exactly which truncations go unnoticed: the fields are all whole, except that a known
      length-delimited field or a skipped fixed-width one may be the last and fall short. */
  lemma AcceptedIffSplits(known: (nat, nat) -> bool, b: bytes)
    ensures Parse(known, b).Ok? <==> exists k :: Splits(known, b, k)
  {
    if Parse(known, b).Ok? {
      var k := AcceptedSplits(known, b);
      assert Splits(known, b, k);
    }
    if exists k :: Splits(known, b, k) {
      var k :| Splits(known, b, k);
      SplitsAccepted(known, b, k);
    }
  }

  // ----- what a run keeps -----

  /** Records as they come out of the reader: payloads below 2^70. */
  predicate Readable(r: Record) {
    && (r.Number? ==> r.value < LIMIT)
    && (r.Chunk? ==> |r.payload| < LIMIT)
  }

  ghost predicate Preserves<S(!new)>(sch: Schema<S>, inv: S -> bool) {
    forall s, r: Record :: inv(s) && Readable(r) && sch.step(s, r).Ok? ==> inv(sch.step(s, r).value)
  }

  lemma {:induction false} RunPreserves<S(!new)>(sch: Schema<S>, inv: S -> bool, s: S, b: bytes)
    requires Preserves(sch, inv) && inv(s)
    requires Run(sch, s, b).Ok?
    ensures inv(Run(sch, s, b).value)
    decreases |b|
  {
    if b == [] {
    } else {
      var f := Next(b).value;
      NextBounds(b);
      RunPreserves(sch, inv, sch.step(s, f.rec).value, Drop(b, f.end));
    }
  }

  ghost predicate GrowsBy<S(!new)>(sch: Schema<S>, size: S -> nat) {
    forall s, r: Record :: sch.step(s, r).Ok? ==> size(sch.step(s, r).value) <= size(s) + |Ser(r)|
  }

  /** When no record adds more to the size of the value than its canonical form is long, no input
      adds more than its own length. */
  lemma {:induction false} RunGrows<S(!new)>(sch: Schema<S>, size: S -> nat, s: S, b: bytes)
    requires GrowsBy(sch, size)
    requires Run(sch, s, b).Ok?
    ensures size(Run(sch, s, b).value) <= size(s) + |b|
    decreases |b|
  {
    if b == [] {
    } else {
      var f := Next(b).value;
      NextBounds(b);
      var t := sch.step(s, f.rec).value;
      RunGrows(sch, size, t, Drop(b, f.end));
    }
  }
}
