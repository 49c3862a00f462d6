/** `bind_row` and `_cell_to_pxf`: a dataset row rendered as a PXF body, and a line reader for such bodies. */
module PxfRow {
  import opened Results
  import opened Varints
  import Base64

  /** A cell as the bridge hands it over: the kind tag and the value it comes with. */
  datatype Cell =
    | Null
    | String(text: string)
    | Raw(text: string) // int, float, timestamp and duration carry their literal text
    | Bool(flag: bool)
    | Bytes(content: bytes)
    | Ident(text: string)
    | UnknownKind

  // ----- rendering -----

  /** `s.replace(c, t)` for a one-character c. */
  function Replace(s: string, c: char, t: string): string {
    if s == "" then ""
    else (if s[0] == c then t else [s[0]]) + Replace(s[1..], c, t)
  }

  function Escape(s: string): string {
    Replace(Replace(Replace(s, '\\', "\\\\"), '"', "\\\""), '\n', "\\n")
  }

  function CellToPxf(cell: Cell): Result<string> {
    match cell
    case Null => Ok("null")
    case String(s) => Ok("\"" + Escape(s) + "\"")
    case Raw(s) => Ok(s)
    case Bool(b) => Ok(if b then "true" else "false")
    case Bytes(b) => Ok("b\"" + Base64.Encode(b) + "\"")
    case Ident(s) => Ok(s)
    case UnknownKind => ValueError
  }

  function Line(column: string, text: string): string {
    column + " = " + text + "\n"
  }

  /** The body for the columns and cells of a row of the same length: one line per present cell. */
  function Body(columns: seq<string>, row: seq<Option<Cell>>): Result<string>
    requires |columns| == |row|
  {
    if columns == [] then Ok("")
    else if row[0].None? then Body(columns[1..], row[1..])
    else
      match CellToPxf(row[0].value)
      case ValueError => ValueError
      case Ok(text) =>
        match Body(columns[1..], row[1..])
        case ValueError => ValueError
        case Ok(rest) => Ok(Line(columns[0], text) + rest)
  }

  lemma KnownKind(cell: Cell)
    ensures CellToPxf(cell).Ok? <==> !cell.UnknownKind?
  {
  }

  /** A row is rendered whatever its cells hold, as long as the kind of each one that is there is known. */
  lemma {:induction false} BodyOkIff(columns: seq<string>, row: seq<Option<Cell>>)
    requires |columns| == |row|
    ensures Body(columns, row).Ok? <==> forall c <- row :: c.Some? ==> !c.value.UnknownKind?
    decreases |columns|
  {
    hide CellToPxf, Line;
    if columns == [] {
    } else {
      assert row == [row[0]] + row[1..];
      BodyOkIff(columns[1..], row[1..]);
      if row[0].Some? {
        KnownKind(row[0].value);
      }
    }
  }

  /** The columns of a row are rendered one behind the other, each on its own. */
  lemma {:induction false} BodyConcat(cs: seq<string>, row: seq<Option<Cell>>, ds: seq<string>, more: seq<Option<Cell>>)
    requires |cs| == |row| && |ds| == |more|
    ensures Body(cs + ds, row + more) ==
            if Body(cs, row).Ok? && Body(ds, more).Ok? then Ok(Body(cs, row).value + Body(ds, more).value)
            else ValueError
    decreases |cs|
  {
    hide CellToPxf, Line;
    if cs == [] {
      assert cs + ds == ds && row + more == more;
      assert Body(ds, more).Ok? ==> "" + Body(ds, more).value == Body(ds, more).value;
    } else {
      assert (cs + ds)[0] == cs[0] && (cs + ds)[1..] == cs[1..] + ds;
      assert (row + more)[0] == row[0] && (row + more)[1..] == row[1..] + more;
      BodyConcat(cs[1..], row[1..], ds, more);
      if Body(cs, row).Ok? && row[0].Some? && Body(ds, more).Ok? {
        var line := Line(cs[0], CellToPxf(row[0].value).value);
        var a, b := Body(cs[1..], row[1..]).value, Body(ds, more).value;
        assert line + a + b == line + (a + b);
      }
    }
  }

  /** And this is what one column comes to. */
  lemma BodyOfOne(c: string, cell: Option<Cell>)
    ensures Body([c], [cell]) ==
            match cell
            case None => Ok("")
            case Some(Null) => Ok(c + " = null\n")
            case Some(String(s)) => Ok(c + " = \"" + Escape(s) + "\"\n")
            case Some(Raw(s)) => Ok(c + " = " + s + "\n")
            case Some(Bool(true)) => Ok(c + " = true\n")
            case Some(Bool(false)) => Ok(c + " = false\n")
            case Some(Bytes(b)) => Ok(c + " = b\"" + Base64.Encode(b) + "\"\n")
            case Some(Ident(s)) => Ok(c + " = " + s + "\n")
            case Some(UnknownKind) => ValueError
  {
    hide Escape, Base64.Encode;
    assert [c][1..] == [] && [cell][1..] == [];
    if cell.Some? && CellToPxf(cell.value).Ok? {
      var text := CellToPxf(cell.value).value;
      assert Line(c, text) + "" == Line(c, text);
      LineShape(c, text);
      match cell.value {
        case Null => assert " = " + "null" + "\n" == " = null\n";
        case Bool(_) => assert " = " + "true" + "\n" == " = true\n" && " = " + "false" + "\n" == " = false\n";
        case String(s) =>
          Quotes(c, "\"", Escape(s));
          assert " = " + "\"" == " = \"";
        case Bytes(b) =>
          Quotes(c, "b\"", Base64.Encode(b));
          assert " = " + "b\"" == " = b\"";
        case _ =>
      }
    }
  }

  lemma LineShape(c: string, text: string)
    ensures Line(c, text) == c + " = " + text + "\n" == c + (" = " + text + "\n")
  {
  }

  lemma Quotes(c: string, open: string, s: string)
    ensures c + " = " + (open + s + "\"") + "\n" == c + (" = " + open) + s + "\"\n"
  {
    assert "\"\n" == "\"" + "\n";
  }

  function Join(parts: seq<string>): string {
    if parts == [] then "" else Join(parts[..|parts| - 1]) + parts[|parts| - 1]
  }

  /** The part of `bind_row` before the body goes to `unmarshal`. */
  method BindRow(columns: seq<string>, row: seq<Option<Cell>>) returns (r: Result<string>)
    ensures r == if |columns| != |row| then ValueError else Body(columns, row)
    ensures r.Ok? <==> |columns| == |row| && forall c <- row :: c.Some? ==> !c.value.UnknownKind?
  {
    hide CellToPxf, Line;
    if |columns| != |row| {
      return ValueError;
    }
    BodyOkIff(columns, row);
    var parts: seq<string> := [];
    var i := 0;
    assert columns[0..] == columns && row[0..] == row;
    assert Body(columns, row).Ok? ==> Join(parts) + Body(columns, row).value == Body(columns, row).value;
    while i < |columns|
      invariant i <= |columns|
      invariant Body(columns, row) ==
                match Body(columns[i..], row[i..])
                case ValueError => ValueError
                case Ok(rest) => Ok(Join(parts) + rest)
    {
      assert columns[i..][1..] == columns[i + 1..] && row[i..][1..] == row[i + 1..];
      if row[i].Some? {
        var text :- CellToPxf(row[i].value);
        var part := Line(columns[i], text);
        assert (parts + [part])[..|parts|] == parts;
        if Body(columns[i + 1..], row[i + 1..]).Ok? {
          var rest := Body(columns[i + 1..], row[i + 1..]).value;
          assert Join(parts) + (part + rest) == Join(parts) + part + rest;
        }
        parts := parts + [part];
      }
      i := i + 1;
    }
    assert Join(parts) + "" == Join(parts);
    return Ok(Join(parts));
  }

  // ----- escaping -----

  function EscapeChar(c: char): string {
    if c == '\\' then "\\\\" else if c == '"' then "\\\"" else if c == '\n' then "\\n" else [c]
  }

  function EscapeEach(s: string): string {
    if s == "" then "" else EscapeChar(s[0]) + EscapeEach(s[1..])
  }

  lemma {:induction false} ReplaceConcat(a: string, b: string, c: char, t: string)
    ensures Replace(a + b, c, t) == Replace(a, c, t) + Replace(b, c, t)
  {
    if a == "" {
      assert a + b == b;
    } else {
      assert (a + b)[0] == a[0] && (a + b)[1..] == a[1..] + b;
      ReplaceConcat(a[1..], b, c, t);
    }
  }

  lemma ReplaceOne(x: char, c: char, t: string)
    ensures Replace([x], c, t) == if x == c then t else [x]
  {
    assert [x][1..] == "" && t + "" == t;
  }

  lemma ReplaceTwo(x: char, y: char, c: char, t: string)
    ensures Replace([x, y], c, t) == (if x == c then t else [x]) + (if y == c then t else [y])
  {
    assert [x, y] == [x] + [y];
    ReplaceConcat([x], [y], c, t);
    ReplaceOne(x, c, t);
    ReplaceOne(y, c, t);
  }

  lemma EscapeOne(c: char)
    ensures Escape([c]) == if c == '\\' then "\\\\" else if c == '"' then "\\\"" else if c == '\n' then "\\n" else [c]
  {
    hide Replace;
    ReplaceOne(c, '\\', "\\\\");
    if c == '\\' {
      assert "\\\\" == ['\\', '\\'] == ['\\'] + ['\\'];
      ReplaceTwo('\\', '\\', '"', "\\\"");
      ReplaceTwo('\\', '\\', '\n', "\\n");
    } else {
      ReplaceOne(c, '"', "\\\"");
      if c == '"' {
        assert "\\\"" == ['\\', '"'] == ['\\'] + ['"'];
        ReplaceTwo('\\', '"', '\n', "\\n");
      } else {
        ReplaceOne(c, '\n', "\\n");
      }
    }
  }

  /** A text is escaped piece by piece: no replacement sees across a seam, nor what another one put there. */
  lemma EscapeConcat(a: string, b: string)
    ensures Escape(a + b) == Escape(a) + Escape(b)
  {
    hide Replace;
    var a1, b1 := Replace(a, '\\', "\\\\"), Replace(b, '\\', "\\\\");
    ReplaceConcat(a, b, '\\', "\\\\");
    ReplaceConcat(a1, b1, '"', "\\\"");
    ReplaceConcat(Replace(a1, '"', "\\\""), Replace(b1, '"', "\\\""), '\n', "\\n");
  }

  /** The three whole-string replacements, one after the other, escape character by character. */
  lemma {:induction false} EscapeIsPerCharacter(s: string)
    ensures Escape(s) == EscapeEach(s)
  {
    if s != "" {
      hide Replace, Escape;
      EscapeConcat([s[0]], s[1..]);
      EscapeOne(s[0]);
      EscapeIsPerCharacter(s[1..]);
      assert s == [s[0]] + s[1..];
    } else {
      assert Replace("", '\\', "\\\\") == "";
    }
  }

  lemma {:induction false} EscapeHasNoLineFeed(s: string)
    ensures forall c <- EscapeEach(s) :: c != '\n'
  {
    if s == "" {
    } else {
      EscapeHasNoLineFeed(s[1..]);
    }
  }

  // ----- the reader -----

  datatype Scanned = Scanned(text: string, rest: string)

  /** Reads a string literal from behind its opening quote. */
  function ReadString(t: string): Option<Scanned>
    decreases |t|
  {
    if t == "" || t[0] == '\n' then None
    else if t[0] == '"' then Some(Scanned("", t[1..]))
    else if t[0] != '\\' then Prepend(t[0], ReadString(t[1..]))
    else if |t| == 1 then None
    else if t[1] == '\\' || t[1] == '"' then Prepend(t[1], ReadString(t[2..]))
    else if t[1] == 'n' then Prepend('\n', ReadString(t[2..]))
    else None
  }

  function Prepend(c: char, r: Option<Scanned>): Option<Scanned> {
    match r
    case None => None
    case Some(x) => Some(Scanned([c] + x.text, x.rest))
  }

  /** Scanning an escaped string stops at the closing quote and nowhere before, and gives the string back. */
  lemma {:induction false} ReadStringEscape(s: string, rest: string)
    ensures ReadString(EscapeEach(s) + ("\"" + rest)) == Some(Scanned(s, rest))
  {
    if s == "" {
      assert "" + ("\"" + rest) == "\"" + rest && ("\"" + rest)[1..] == rest;
    } else {
      hide ReadString, EscapeChar, EscapeEach;
      ReadStringEscape(s[1..], rest);
      EscapeEachCons(s, "\"" + rest);
      ReadEscaped(s[0], EscapeEach(s[1..]) + ("\"" + rest));
      assert [s[0]] + s[1..] == s;
    }
  }

  lemma EscapeEachCons(s: string, q: string)
    requires s != ""
    ensures EscapeEach(s) + q == EscapeChar(s[0]) + (EscapeEach(s[1..]) + q)
  {
  }

  lemma ReadEscaped(c: char, t: string)
    ensures ReadString(EscapeChar(c) + t) == Prepend(c, ReadString(t))
  {
    var e := EscapeChar(c);
    var s := e + t;
    assert s[0] == e[0];
    if |e| == 2 {
      assert s[1] == e[1] && s[2..] == t;
    } else {
      assert s[1..] == t;
    }
  }

  /** What a reader can tell apart: a quoted string, a bytes literal, any other word. */
  datatype Token = Quoted(text: string) | BytesLiteral(content: bytes) | Word(text: string)

  function TokenOf(cell: Cell): Token {
    match cell
    case Null => Word("null")
    case String(s) => Quoted(s)
    case Raw(s) => Word(s)
    case Bool(b) => Word(if b then "true" else "false")
    case Bytes(b) => BytesLiteral(b)
    case Ident(s) => Word(s)
    case UnknownKind => Word("")
  }

  predicate StartsLiteral(v: string) {
    "\"" <= v || "b\"" <= v
  }

  function ReadValue(v: string): Option<Token> {
    if "\"" <= v then
      match ReadString(v[1..])
      case None => None
      case Some(x) => if x.rest == "" then Some(Quoted(x.text)) else None
    else if "b\"" <= v then
      if |v| >= 3 && v[|v| - 1] == '"' then
        match Base64.Decode(v[2..|v| - 1])
        case None => None
        case Some(b) => Some(BytesLiteral(b))
      else None
    else Some(Word(v))
  }

  predicate IdentChar(c: char) {
    'a' <= c <= 'z' || 'A' <= c <= 'Z' || '0' <= c <= '9' || c == '_'
  }

  predicate IsIdent(s: string) {
    s != "" && forall c <- s :: IdentChar(c)
  }

  /** The length of the identifier at the front. */
  function IdentLength(s: string): (n: nat)
    ensures n <= |s|
  {
    if s == "" || !IdentChar(s[0]) then 0 else 1 + IdentLength(s[1..])
  }

  /** Where the first line feed stands; the length when there is none. */
  function LineEnd(s: string): (n: nat)
    ensures n <= |s| && forall i :: 0 <= i < n ==> s[i] != '\n'
    ensures n < |s| ==> s[n] == '\n'
  {
    if s == "" || s[0] == '\n' then 0
    else
      assert forall i :: 0 < i < |s| ==> s[i] == s[1..][i - 1];
      1 + LineEnd(s[1..])
  }

  datatype Assignment = Assignment(column: string, token: Token)

  function ReadLine(line: string): Option<Assignment> {
    var k := IdentLength(line);
    if k == 0 || !(" = " <= line[k..]) then None
    else
      match ReadValue(line[k + 3..])
      case None => None
      case Some(t) => Some(Assignment(line[..k], t))
  }

  function ReadBody(s: string): Option<seq<Assignment>>
    decreases |s|
  {
    if s == "" then Some([])
    else
      var n := LineEnd(s);
      if n == |s| then None
      else
        match ReadLine(s[..n])
        case None => None
        case Some(a) =>
          match ReadBody(s[n + 1..])
          case None => None
          case Some(rest) => Some([a] + rest)
  }

  /** What a reader should find: the present cells, in column order. */
  function Expected(columns: seq<string>, row: seq<Option<Cell>>): seq<Assignment>
    requires |columns| == |row|
  {
    if columns == [] then []
    else (if row[0].None? then [] else [Assignment(columns[0], TokenOf(row[0].value))]) + Expected(columns[1..], row[1..])
  }

  /** Raw text that is a word: no line feed in it, no quote in front. */
  predicate IsWord(v: string) {
    !StartsLiteral(v) && forall c <- v :: c != '\n'
  }

  predicate Plain(cell: Cell) {
    (cell.Raw? || cell.Ident?) ==> IsWord(cell.text)
  }

  // ----- reading back -----

  lemma ReadBackString(s: string)
    ensures ReadValue("\"" + Escape(s) + "\"") == Some(Quoted(s))
    ensures forall c <- "\"" + Escape(s) + "\"" :: c != '\n'
  {
    hide Escape, ReadString;
    EscapeIsPerCharacter(s);
    EscapeHasNoLineFeed(s);
    ReadStringEscape(s, "");
    var v := "\"" + Escape(s) + "\"";
    assert v[1..] == EscapeEach(s) + ("\"" + "");
  }

  lemma ReadBackBytes(b: bytes)
    ensures ReadValue("b\"" + Base64.Encode(b) + "\"") == Some(BytesLiteral(b))
    ensures forall c <- "b\"" + Base64.Encode(b) + "\"" :: c != '\n'
  {
    hide Base64.Encode, Base64.Decode, ReadString;
    var e := Base64.Encode(b);
    var v := "b\"" + e + "\"";
    Base64.DecodeEncode(b);
    Base64.EncodePlain(b);
    assert v[0] == 'b' && v[1] == '"' && v[..2] == "b\"" && v[2..|v| - 1] == e;
  }

  lemma {:induction false} ReadBackCell(cell: Cell)
    requires Plain(cell) && !cell.UnknownKind?
    ensures ReadValue(CellToPxf(cell).value) == Some(TokenOf(cell))
    ensures forall c <- CellToPxf(cell).value :: c != '\n'
  {
    hide Escape, ReadString, Base64.Encode, Base64.Decode;
    match cell {
      case String(s) =>
        ReadBackString(s);
      case Bytes(b) =>
        ReadBackBytes(b);
      case Null =>
        NoLiteral("null");
      case Bool(b) =>
        NoLiteral("true");
        NoLiteral("false");
      case Raw(_) =>
      case Ident(_) =>
    }
  }

  lemma NoLiteral(v: string)
    requires v != "" && v[0] != '"' && v[0] != 'b'
    ensures !StartsLiteral(v)
  {
  }

  lemma {:induction false} IdentLengthOf(column: string, rest: string)
    requires IsIdent(column)
    ensures IdentLength(column + (" = " + rest)) == |column|
  {
    var s := column + (" = " + rest);
    assert s[0] == column[0] && column[0] in column;
    assert s[1..] == column[1..] + (" = " + rest);
    if |column| > 1 {
      IdentLengthOf(column[1..], rest);
    } else {
      assert s[1..] == " = " + rest;
    }
  }

  lemma {:induction false} LineEndOf(line: string, rest: string)
    requires forall c <- line :: c != '\n'
    ensures LineEnd(line + ("\n" + rest)) == |line|
  {
    hide LineEnd;
    var s := line + ("\n" + rest);
    assert |s| == |line| + 1 + |rest| && s[|line|] == '\n';
    forall i | 0 <= i < |line| ensures s[i] != '\n' { assert s[i] == line[i]; assert line[i] in line; }
  }

  lemma ReadBackLine(column: string, text: string)
    requires IsIdent(column) && ReadValue(text).Some?
    ensures ReadLine(column + (" = " + text)) == Some(Assignment(column, ReadValue(text).value))
  {
    hide ReadValue, IdentLength;
    var line := column + (" = " + text);
    IdentLengthOf(column, text);
    assert line[|column|..] == " = " + text;
    assert line[|column| + 3..] == text && line[..|column|] == column;
  }

  lemma {:induction false} ReadBackRow(columns: seq<string>, row: seq<Option<Cell>>)
    requires |columns| == |row|
    requires forall c <- columns :: IsIdent(c)
    requires forall c <- row :: c.Some? ==> Plain(c.value)
    requires Body(columns, row).Ok?
    ensures ReadBody(Body(columns, row).value) == Some(Expected(columns, row))
    decreases |columns|
  {
    hide CellToPxf, ReadLine, TokenOf, Plain, IsIdent, Line;
    if columns == [] {
    } else {
      hide ReadBody, ReadValue;
      var col, cell := columns[0], row[0];
      assert col in columns && cell in row;
      ReadBackRow(columns[1..], row[1..]);
      if cell.Some? {
        var text, rest := CellToPxf(cell.value).value, Body(columns[1..], row[1..]).value;
        assert !cell.value.UnknownKind? by { KnownKind(cell.value); }
        ReadBackCell(cell.value);
        ReadBackLine(col, text);
        NextLine(col, text, rest);
        assert Body(columns, row).value == Line(col, text) + rest;
      } else {
        assert Expected(columns, row) == Expected(columns[1..], row[1..]);
      }
    }
  }

  lemma NextLine(col: string, text: string, rest: string)
    requires IsIdent(col) && forall c <- text :: c != '\n'
    ensures ReadBody(Line(col, text) + rest) ==
            match ReadLine(col + (" = " + text))
            case None => None
            case Some(a) =>
              match ReadBody(rest)
              case None => None
              case Some(more) => Some([a] + more)
  {
    hide ReadLine, LineEnd;
    var line := col + (" = " + text);
    var s := line + ("\n" + rest);
    assert Line(col, text) + rest == s;
    assert forall c <- line :: c != '\n';
    LineEndOf(line, rest);
    assert s[..|line|] == line && s[|line| + 1..] == rest;
  }

  /** The reader never takes for a word what starts a literal or holds a line feed. */
  lemma {:induction false} WordsArePlain(s: string)
    requires ReadBody(s).Some?
    ensures forall a <- ReadBody(s).value :: a.token.Word? ==> IsWord(a.token.text)
    decreases |s|
  {
    hide ReadString, Base64.Decode;
    if s == "" {
    } else {
      WordsArePlain(s[LineEnd(s) + 1..]);
    }
  }

  lemma {:induction false} ExpectedHolds(columns: seq<string>, row: seq<Option<Cell>>, i: nat)
    requires |columns| == |row| && i < |row| && row[i].Some?
    ensures Assignment(columns[i], TokenOf(row[i].value)) in Expected(columns, row)
  {
    if i == 0 {
    } else {
      ExpectedHolds(columns[1..], row[1..], i - 1);
    }
  }

  /** A row reads back, column by column and absent cells leaving no trace, exactly when the texts that
      are written raw are words. */
  lemma {:induction false} RowReadsBackIff(columns: seq<string>, row: seq<Option<Cell>>)
    requires |columns| == |row|
    requires forall c <- columns :: IsIdent(c)
    requires forall c <- row :: c.Some? ==> !c.value.UnknownKind?
    ensures Body(columns, row).Ok?
    ensures ReadBody(Body(columns, row).value) == Some(Expected(columns, row))
       <==> forall c <- row :: c.Some? ==> Plain(c.value)
  {
    hide Body, ReadBody, Expected, IsIdent;
    BodyOkIff(columns, row);
    if forall c <- row :: c.Some? ==> Plain(c.value) {
      ReadBackRow(columns, row);
    } else {
      var i :| 0 <= i < |row| && row[i].Some? && !Plain(row[i].value);
      ExpectedHolds(columns, row, i);
      if ReadBody(Body(columns, row).value).Some? {
        WordsArePlain(Body(columns, row).value);
      }
    }
  }
}
