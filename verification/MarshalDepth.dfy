/** The depth arithmetic of `PxfMarshal`: how deep a message nests as PXF text and as protobuf bytes, and
    why reading the bytes one level past the limit leaves the verdict to the PXF encoder. */
module MarshalDepth {
  import opened Cpp

  /** A message as far as nesting goes. A literal is a message that PXF writes as a value (Timestamp,
      Duration, a wrapper, Secret, a big number); it has no submessages. */
  datatype Message = Message(fields: seq<Field>)

  datatype Field =
    | Scalar                            // no nesting in either form
    | ScalarList                        // `[..]`; no submessage
    | ScalarMap                         // `{..}`; one entry message per key
    | Block(m: Message)                 // `{..}`; a submessage
    | Literal                           // a value; a submessage all the same
    | BlockList(ms: seq<Message>)       // `[ {..} .. ]`; one submessage per element
    | LiteralList                       // `[..]`; one submessage per element
    | BlockMap(ms: seq<Message>)        // `{ k: {..} .. }`; an entry message around each value
    | LiteralMap                        // `{ k: value .. }`; an entry message around each value

  function Max(a: nat, b: nat): nat {
    if a > b then a else b
  }

  /** Levels of `{` and `[` below the root, as the PXF encoder and decoder count them. */
  function PxfDepth(m: Message): nat
    decreases m, 1
  {
    PxfFields(m.fields)
  }

  function PxfFields(fs: seq<Field>): nat
    decreases fs, 0
  {
    if fs == [] then 0 else Max(PxfField(fs[0]), PxfFields(fs[1..]))
  }

  function PxfField(f: Field): nat
    decreases f, 1
  {
    match f
    case Scalar => 0
    case ScalarList => 1
    case ScalarMap => 1
    case Block(m) => 1 + PxfDepth(m)
    case Literal => 0
    case BlockList(ms) => if ms == [] then 0 else 2 + PxfAll(ms)
    case LiteralList => 1
    case BlockMap(ms) => if ms == [] then 0 else 2 + PxfAll(ms)
    case LiteralMap => 1
  }

  function PxfAll(ms: seq<Message>): nat
    decreases ms, 0
  {
    if ms == [] then 0 else Max(PxfDepth(ms[0]), PxfAll(ms[1..]))
  }

  /** Levels of submessage below the root in the protobuf bytes. */
  function PbDepth(m: Message): nat
    decreases m, 1
  {
    PbFields(m.fields)
  }

  function PbFields(fs: seq<Field>): nat
    decreases fs, 0
  {
    if fs == [] then 0 else Max(PbField(fs[0]), PbFields(fs[1..]))
  }

  function PbField(f: Field): nat
    decreases f, 1
  {
    match f
    case Scalar => 0
    case ScalarList => 0
    case ScalarMap => 1
    case Block(m) => 1 + PbDepth(m)
    case Literal => 1
    case BlockList(ms) => if ms == [] then 0 else 1 + PbAll(ms)
    case LiteralList => 1
    case BlockMap(ms) => if ms == [] then 0 else 2 + PbAll(ms)
    case LiteralMap => 2
  }

  function PbAll(ms: seq<Message>): nat
    decreases ms, 0
  {
    if ms == [] then 0 else Max(PbDepth(ms[0]), PbAll(ms[1..]))
  }

  /** A parse of a submessage's bytes with `budget` levels left below it. The root is parsed by
      `ParsesFields` alone: the budget is spent on entering a submessage. */
  predicate Parses(m: Message, budget: int)
    decreases m, 1
  {
    budget >= 0 && ParsesFields(m.fields, budget)
  }

  predicate ParsesFields(fs: seq<Field>, budget: int)
    decreases fs, 0
  {
    fs == [] || (ParsesField(fs[0], budget) && ParsesFields(fs[1..], budget))
  }

  predicate ParsesField(f: Field, budget: int)
    decreases f, 1
  {
    match f
    case Scalar => true
    case ScalarList => true
    case ScalarMap => budget >= 1
    case Block(m) => Parses(m, budget - 1)
    case Literal => budget >= 1
    case BlockList(ms) => ParsesAll(ms, budget - 1)
    case LiteralList => budget >= 1
    case BlockMap(ms) => ms == [] || (budget >= 1 && ParsesAll(ms, budget - 2))
    case LiteralMap => budget >= 2
  }

  predicate ParsesAll(ms: seq<Message>, budget: int)
    decreases ms, 0
  {
    ms == [] || (Parses(ms[0], budget) && ParsesAll(ms[1..], budget))
  }

  const MAX_NESTING_DEPTH: int := 100

  /** The nesting the PXF encoder allows: the given limit, or the default for 0. */
  function Limit(maxNestingDepth: int32): int32 {
    if maxNestingDepth > 0 then maxNestingDepth else MAX_NESTING_DEPTH
  }

  /** The recursion limit of the parse, `depth + 1` computed as an `int`. */
  function ReadLimit(maxNestingDepth: int32): int32 {
    Wrap(Limit(maxNestingDepth) + 1)
  }

  datatype Verdict = BadLimit | ParseFailed | TooDeep | Written

  /** The recursion limit refuses exactly the messages that nest deeper than it. */
  lemma {:induction false} ParsesIff(m: Message, budget: int)
    ensures Parses(m, budget) <==> PbDepth(m) <= budget
    decreases m, 1
  {
    ParsesFieldsIff(m.fields, budget);
  }

  /** A message without submessages is read at any limit, others down to the limit and no further. */
  lemma {:induction false} ParsesFieldsIff(fs: seq<Field>, budget: int)
    ensures ParsesFields(fs, budget) <==> PbFields(fs) == 0 || PbFields(fs) <= budget
    decreases fs, 0
  {
    if fs == [] {
    } else {
      ParsesFieldIff(fs[0], budget);
      ParsesFieldsIff(fs[1..], budget);
    }
  }

  lemma {:induction false} ParsesFieldIff(f: Field, budget: int)
    ensures ParsesField(f, budget) <==> PbField(f) == 0 || PbField(f) <= budget
    decreases f, 1
  {
    match f {
      case Block(m) => ParsesIff(m, budget - 1);
      case BlockList(ms) => ParsesAllIff(ms, budget - 1);
      case BlockMap(ms) => ParsesAllIff(ms, budget - 2);
      case _ =>
    }
  }

  lemma {:induction false} ParsesAllIff(ms: seq<Message>, budget: int)
    ensures ParsesAll(ms, budget) <==> ms == [] || PbAll(ms) <= budget
    decreases ms, 0
  {
    if ms == [] {
    } else {
      ParsesIff(ms[0], budget);
      ParsesAllIff(ms[1..], budget);
    }
  }

  /** The bytes nest at most one level deeper than the PXF. */
  lemma {:induction false} PbWithinPxf(m: Message)
    ensures PbDepth(m) <= PxfDepth(m) + 1
    decreases m, 1
  {
    PbFieldsWithinPxf(m.fields);
  }

  lemma {:induction false} PbFieldsWithinPxf(fs: seq<Field>)
    ensures PbFields(fs) <= PxfFields(fs) + 1
    decreases fs, 0
  {
    if fs == [] {
    } else {
      PbFieldWithinPxf(fs[0]);
      PbFieldsWithinPxf(fs[1..]);
    }
  }

  lemma {:induction false} PbFieldWithinPxf(f: Field)
    ensures PbField(f) <= PxfField(f) + 1
    decreases f, 1
  {
    match f {
      case Block(m) => PbWithinPxf(m);
      case BlockList(ms) => PbAllWithinPxf(ms);
      case BlockMap(ms) => PbAllWithinPxf(ms);
      case _ =>
    }
  }

  lemma {:induction false} PbAllWithinPxf(ms: seq<Message>)
    ensures PbAll(ms) <= PxfAll(ms) + 1
    decreases ms, 0
  {
    if ms == [] {
    } else {
      PbWithinPxf(ms[0]);
      PbAllWithinPxf(ms[1..]);
    }
  }

  /** `PxfMarshal` as far as depth decides it, for bytes that are well formed. Below the largest `int` the
      limit that decides is the encoder's: a message is written exactly when its PXF form nests no deeper
      than the limit given, or than 100 when that is 0. */
  method PxfMarshal(m: Message, maxNestingDepth: int32) returns (v: Verdict)
    ensures v == BadLimit <==> maxNestingDepth < 0
    ensures v == ParseFailed
       <==> maxNestingDepth >= 0 && PbDepth(m) > 0
            && PbDepth(m) > (if maxNestingDepth == 0 then 101
                             else if maxNestingDepth < 0x7FFF_FFFF then maxNestingDepth + 1
                             else -0x8000_0000)
    ensures v == TooDeep
       <==> maxNestingDepth >= 0 && v != ParseFailed
            && PxfDepth(m) > if maxNestingDepth == 0 then 100 else maxNestingDepth
    ensures maxNestingDepth == 0 ==> (v == Written <==> PxfDepth(m) <= 100)
    ensures 0 < maxNestingDepth < 0x7FFF_FFFF ==> (v == Written <==> PxfDepth(m) <= maxNestingDepth)
    ensures maxNestingDepth == 0x7FFF_FFFF ==> (v == Written <==> PbDepth(m) == 0 && PxfDepth(m) <= 0x7FFF_FFFF)
  {
    if maxNestingDepth < 0 {
      return BadLimit;
    }
    var depth: int32 := if maxNestingDepth > 0 then maxNestingDepth else MAX_NESTING_DEPTH;
    var recursionLimit := Wrap(depth + 1);
    PbWithinPxf(m);
    ParsesFieldsIff(m.fields, recursionLimit);
    if !ParsesFields(m.fields, recursionLimit) {
      return ParseFailed;
    }
    if PxfDepth(m) > Limit(maxNestingDepth) {
      return TooDeep;
    }
    return Written;
  }

  /** At the largest `int` the increment overflows: a message of PXF depth 1 is refused by the parse,
      although the encoder allows over two billion levels. */
  lemma OverflowRefusesShallow()
    ensures PxfDepth(Chain(1)) == 1 <= Limit(INT_MAX)
    ensures ReadLimit(INT_MAX) == -0x8000_0000 && !ParsesFields(Chain(1).fields, ReadLimit(INT_MAX))
  {
    ExtraLevelIsNeeded(1);
    ParsesFieldsIff(Chain(1).fields, ReadLimit(INT_MAX));
  }

  /** The parse never refuses a message that the encoder would write. */
  ghost predicate EncoderDecides(maxNestingDepth: int32) {
    forall m: Message :: PxfDepth(m) <= Limit(maxNestingDepth) ==> ParsesFields(m.fields, ReadLimit(maxNestingDepth))
  }

  /** That holds for exactly the limits below the largest `int`. */
  lemma EncoderDecidesIff(maxNestingDepth: int32)
    requires maxNestingDepth >= 0
    ensures EncoderDecides(maxNestingDepth) <==> maxNestingDepth < INT_MAX
  {
    hide PxfDepth, PbDepth, ParsesFields;
    if maxNestingDepth == INT_MAX {
      OverflowRefusesShallow();
    } else {
      forall m: Message | PxfDepth(m) <= Limit(maxNestingDepth)
        ensures ParsesFields(m.fields, ReadLimit(maxNestingDepth))
      {
        PbWithinPxf(m);
        ParsesFieldsIff(m.fields, ReadLimit(maxNestingDepth));
        RootDepth(m);
      }
    }
  }

  lemma RootDepth(m: Message)
    ensures PbDepth(m) == PbFields(m.fields)
  {
  }

  /** A chain of d blocks with a literal in the last. */
  function Chain(d: nat): (m: Message)
    decreases d
  {
    if d == 0 then Message([Literal]) else Message([Block(Chain(d - 1))])
  }

  /** The bound is met at every depth, so the parse needs the extra level: at the limit d itself it would
      refuse a message that the encoder writes. */
  lemma {:induction false} ExtraLevelIsNeeded(d: nat)
    ensures PxfDepth(Chain(d)) == d && PbDepth(Chain(d)) == d + 1
    ensures !ParsesFields(Chain(d).fields, d)
  {
    if d == 0 {
      OneFieldDepth(Literal);
    } else {
      ExtraLevelIsNeeded(d - 1);
      OneFieldDepth(Block(Chain(d - 1)));
    }
    ParsesFieldsIff(Chain(d).fields, d);
  }

  /** Nesting through a repeated field, one element per level. */
  function ListChain(n: nat): (m: Message)
    decreases n
  {
    if n == 0 then Message([Scalar]) else Message([BlockList([ListChain(n - 1)])])
  }

  /** Nesting through map values. */
  function MapChain(n: nat): (m: Message)
    decreases n
  {
    if n == 0 then Message([Scalar]) else Message([BlockMap([MapChain(n - 1)])])
  }

  lemma OneFieldDepth(f: Field)
    ensures PxfDepth(Message([f])) == PxfField(f) && PbDepth(Message([f])) == PbField(f)
  {
    assert [f][1..] == [];
    assert PxfFields([f]) == Max(PxfField(f), PxfFields([]));
    assert PbFields([f]) == Max(PbField(f), PbFields([]));
  }

  lemma OneMessageDepth(m: Message)
    ensures PxfAll([m]) == PxfDepth(m) && PbAll([m]) == PbDepth(m)
  {
    assert [m][1..] == [];
    assert PxfAll([m]) == Max(PxfDepth(m), PxfAll([]));
    assert PbAll([m]) == Max(PbDepth(m), PbAll([]));
  }

  /** A repeated field costs two PXF levels an element, and half of that in the bytes; a map value costs
      two in both, so it is the parse that refuses a chain of maps too deep by two. */
  lemma {:induction false} ChainDepths(n: nat)
    ensures PxfDepth(ListChain(n)) == 2 * n && PbDepth(ListChain(n)) == n
    ensures PxfDepth(MapChain(n)) == 2 * n && PbDepth(MapChain(n)) == 2 * n
  {
    if n == 0 {
      OneFieldDepth(Scalar);
    } else {
      var l, m := ListChain(n - 1), MapChain(n - 1);
      ChainDepths(n - 1);
      OneFieldDepth(BlockList([l]));
      OneMessageDepth(l);
      OneFieldDepth(BlockMap([m]));
      OneMessageDepth(m);
    }
  }

  /** What a single field costs in the two forms. */
  lemma LeafDepths()
    ensures PxfDepth(Message([])) == 0 && PbDepth(Message([])) == 0
    ensures PxfDepth(Message([Scalar])) == 0 && PbDepth(Message([Scalar])) == 0
    ensures PxfDepth(Message([ScalarList])) == 1 && PbDepth(Message([ScalarList])) == 0
    ensures PxfDepth(Message([ScalarMap])) == 1 && PbDepth(Message([ScalarMap])) == 1
    ensures PxfDepth(Message([Literal])) == 0 && PbDepth(Message([Literal])) == 1
    ensures PxfDepth(Message([LiteralList])) == 1 && PbDepth(Message([LiteralList])) == 1
    ensures PxfDepth(Message([LiteralMap])) == 1 && PbDepth(Message([LiteralMap])) == 2
    ensures PxfDepth(Message([BlockList([])])) == 0 && PbDepth(Message([BlockList([])])) == 0
    ensures PxfDepth(Message([BlockMap([])])) == 0 && PbDepth(Message([BlockMap([])])) == 0
  {
    OneFieldDepth(Scalar);
    OneFieldDepth(ScalarList);
    OneFieldDepth(ScalarMap);
    OneFieldDepth(Literal);
    OneFieldDepth(LiteralList);
    OneFieldDepth(LiteralMap);
    OneFieldDepth(BlockList([]));
    OneFieldDepth(BlockMap([]));
  }

  /** What a submessage costs, by the field it stands in. */
  lemma NodeDepths(m: Message)
    ensures PxfDepth(Message([Block(m)])) == PxfDepth(m) + 1 && PbDepth(Message([Block(m)])) == PbDepth(m) + 1
    ensures PxfDepth(Message([BlockList([m])])) == PxfDepth(m) + 2
    ensures PbDepth(Message([BlockList([m])])) == PbDepth(m) + 1
    ensures PxfDepth(Message([BlockMap([m])])) == PxfDepth(m) + 2
    ensures PbDepth(Message([BlockMap([m])])) == PbDepth(m) + 2
  {
    OneFieldDepth(Block(m));
    OneFieldDepth(BlockList([m]));
    OneFieldDepth(BlockMap([m]));
    OneMessageDepth(m);
  }

  /** Several fields, or several elements of one field, nest as deep as the deepest does. With `LeafDepths`
      and `NodeDepths` this determines both depths of every message. */
  lemma DepthsJoin(fs: seq<Field>, gs: seq<Field>, ms: seq<Message>, ns: seq<Message>)
    requires ms != [] && ns != []
    ensures PxfDepth(Message(fs + gs)) == Max(PxfDepth(Message(fs)), PxfDepth(Message(gs)))
    ensures PbDepth(Message(fs + gs)) == Max(PbDepth(Message(fs)), PbDepth(Message(gs)))
    ensures var a, b, c := Message([BlockList(ms)]), Message([BlockList(ns)]), Message([BlockList(ms + ns)]);
            PxfDepth(c) == Max(PxfDepth(a), PxfDepth(b)) && PbDepth(c) == Max(PbDepth(a), PbDepth(b))
    ensures var a, b, c := Message([BlockMap(ms)]), Message([BlockMap(ns)]), Message([BlockMap(ms + ns)]);
            PxfDepth(c) == Max(PxfDepth(a), PxfDepth(b)) && PbDepth(c) == Max(PbDepth(a), PbDepth(b))
  {
    FieldsJoin(fs, gs);
    ElementsJoin(ms, ns);
    OneFieldDepth(BlockList(ms));
    OneFieldDepth(BlockList(ns));
    OneFieldDepth(BlockList(ms + ns));
    OneFieldDepth(BlockMap(ms));
    OneFieldDepth(BlockMap(ns));
    OneFieldDepth(BlockMap(ms + ns));
  }

  lemma {:induction false} FieldsJoin(fs: seq<Field>, gs: seq<Field>)
    ensures PxfFields(fs + gs) == Max(PxfFields(fs), PxfFields(gs))
    ensures PbFields(fs + gs) == Max(PbFields(fs), PbFields(gs))
    decreases |fs|
  {
    if fs == [] {
      assert fs + gs == gs;
    } else {
      assert (fs + gs)[0] == fs[0] && (fs + gs)[1..] == fs[1..] + gs;
      FieldsJoin(fs[1..], gs);
    }
  }

  lemma {:induction false} ElementsJoin(ms: seq<Message>, ns: seq<Message>)
    ensures PxfAll(ms + ns) == Max(PxfAll(ms), PxfAll(ns))
    ensures PbAll(ms + ns) == Max(PbAll(ms), PbAll(ns))
    decreases |ms|
  {
    if ms == [] {
      assert ms + ns == ns;
    } else {
      assert (ms + ns)[0] == ms[0] && (ms + ns)[1..] == ms[1..] + ns;
      ElementsJoin(ms[1..], ns);
    }
  }

  /** At the default limit the parse takes fifty nested map values and refuses more. */
  lemma MapChainAtDefault(n: nat)
    ensures Limit(0) == 100 && ReadLimit(0) == 101
    ensures ParsesFields(MapChain(n).fields, ReadLimit(0)) <==> n <= 50
  {
    hide PxfDepth, ParsesFields, MapChain;
    ChainDepths(n);
    ParsesFieldsIff(MapChain(n).fields, ReadLimit(0));
  }
}
