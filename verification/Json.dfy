/**
 JSON values as JavaScript hands them to the canonical serializer, JSON text over
 UTF-16 code units, and a reader that undoes the printer.
 */
module Json {
  import opened Wrappers

  type CodeUnit = n: int | 0 <= n < 0x1_0000
  type Text = seq<CodeUnit>

  /**
   `Absent` stands for undefined, a function or a symbol: the values for which native
   stringification yields no token. A number is the token it prints as; objects list
   their own keys in insertion order.
   */
  datatype Value =
    | Absent
    | Null
    | Bool(b: bool)
    | Num(token: Text)
    | Str(s: Text)
    | Arr(items: seq<Value>)
    | Obj(fields: seq<Field>)

  datatype Field = Field(key: Text, val: Value)

  const QUOTE: CodeUnit := 34
  const COMMA: CodeUnit := 44
  const COLON: CodeUnit := 58
  const BACKSLASH: CodeUnit := 92
  const OPEN_LIST: CodeUnit := 91
  const CLOSE_LIST: CodeUnit := 93
  const OPEN_OBJECT: CodeUnit := 123
  const CLOSE_OBJECT: CodeUnit := 125
  const NULL_TEXT: Text := [110, 117, 108, 108]
  const TRUE_TEXT: Text := [116, 114, 117, 101]
  const FALSE_TEXT: Text := [102, 97, 108, 115, 101]

  predicate IsDigit(c: CodeUnit) { 48 <= c <= 57 }

  /** The characters number tokens are made of: digits, '-', '+', '.', 'e'. */
  predicate IsNumberUnit(c: CodeUnit) { IsDigit(c) || c == 45 || c == 43 || c == 46 || c == 101 }

  predicate IsNumberToken(t: Text) {
    && t != []
    && (IsDigit(t[0]) || t[0] == 45)
    && forall i :: 0 <= i < |t| ==> IsNumberUnit(t[i])
  }

  predicate DistinctKeys(fields: seq<Field>) {
    forall i, j :: 0 <= i < j < |fields| ==> fields[i].key != fields[j].key
  }

  /** Number tokens have the shape of a number, and no object repeats a key. */
  predicate WellFormed(v: Value) {
    match v
    case Num(t) => IsNumberToken(t)
    case Arr(items) => forall i :: 0 <= i < |items| ==> WellFormed(items[i])
    case Obj(fields) => DistinctKeys(fields) && forall i :: 0 <= i < |fields| ==> WellFormed(fields[i].val)
    case _ => true
  }

  /** No absent value at any position. */
  predicate Present(v: Value) {
    match v
    case Absent => false
    case Arr(items) => forall i :: 0 <= i < |items| ==> Present(items[i])
    case Obj(fields) => forall i :: 0 <= i < |fields| ==> Present(fields[i].val)
    case _ => true
  }

  // ---------------------------------------------------------------- strings

  predicate IsHigh(c: CodeUnit) { 0xD800 <= c <= 0xDBFF }

  predicate IsLow(c: CodeUnit) { 0xDC00 <= c <= 0xDFFF }

  function HexDigit(n: nat): CodeUnit
    requires n < 16
  {
    if n < 10 then 48 + n else 87 + n
  }

  function UnicodeEscape(c: CodeUnit): Text {
    [BACKSLASH, 117] + HexByte(c / 256) + HexByte(c % 256)
  }

  function HexByte(b: nat): Text
    requires b < 256
  {
    [HexDigit(b / 16), HexDigit(b % 16)]
  }

  /** The escape of one code unit that is not part of a surrogate pair. */
  function EscapeUnit(c: CodeUnit): Text {
    if c == 8 then [BACKSLASH, 98]
    else if c == 9 then [BACKSLASH, 116]
    else if c == 10 then [BACKSLASH, 110]
    else if c == 12 then [BACKSLASH, 102]
    else if c == 13 then [BACKSLASH, 114]
    else if c == QUOTE || c == BACKSLASH then [BACKSLASH, c]
    else if c < 32 || IsHigh(c) || IsLow(c) then UnicodeEscape(c)
    else [c]
  }

  /** Section 7 of RFC 8259, with lone surrogates escaped and pairs copied. */
  function Escape(s: Text): Text {
    if s == [] then []
    else if |s| > 1 && IsHigh(s[0]) && IsLow(s[1]) then [s[0], s[1]] + Escape(s[2..])
    else EscapeUnit(s[0]) + Escape(s[1..])
  }

  function Quote(s: Text): Text { [QUOTE] + Escape(s) + [QUOTE] }

  function HexValue(c: CodeUnit): (r: Option<nat>)
    ensures r.Some? ==> r.value < 16
  {
    if 48 <= c <= 57 then Some(c - 48)
    else if 97 <= c <= 102 then Some(c - 87)
    else if 65 <= c <= 70 then Some(c - 55)
    else None
  }

  function ReadHexByte(t: Text): (r: Option<nat>)
    requires |t| == 2
    ensures r.Some? ==> r.value < 256
  {
    match (HexValue(t[0]), HexValue(t[1]))
    case (Some(a), Some(b)) => Some(16 * a + b)
    case _ => None
  }

  function ReadHex4(t: Text): (r: Option<CodeUnit>)
    requires |t| == 4
  {
    match (ReadHexByte(t[..2]), ReadHexByte(t[2..]))
    case (Some(a), Some(b)) => Some(256 * a + b)
    case _ => None
  }

  function SimpleEscape(c: CodeUnit): Option<CodeUnit> {
    if c == 98 then Some(8)
    else if c == 116 then Some(9)
    else if c == 110 then Some(10)
    else if c == 102 then Some(12)
    else if c == 114 then Some(13)
    else if c == QUOTE || c == BACKSLASH || c == 47 then Some(c)
    else None
  }

  function Prepend(c: CodeUnit, r: Parsed<Text, Text>): Parsed<Text, Text> {
    match r
    case Fail => Fail
    case Parsed(s, rest) => Parsed([c] + s, rest)
  }

  /** Reads string contents up to and including the closing quote. */
  function ReadString(t: Text): (r: Parsed<Text, Text>)
    ensures r.Parsed? ==> |r.rest| < |t|
  {
    if t == [] then Fail
    else if t[0] == QUOTE then Parsed([], t[1..])
    else if t[0] < 32 then Fail
    else if t[0] != BACKSLASH then Prepend(t[0], ReadString(t[1..]))
    else if |t| < 2 then Fail
    else if t[1] == 117 then
      if |t| < 6 then Fail
      else match ReadHex4(t[2..6])
        case None => Fail
        case Some(c) => Prepend(c, ReadString(t[6..]))
    else match SimpleEscape(t[1])
      case None => Fail
      case Some(c) => Prepend(c, ReadString(t[2..]))
  }

  // ---------------------------------------------------------------- printing

  function Join(parts: seq<Text>): Text {
    if parts == [] then []
    else if |parts| == 1 then parts[0]
    else parts[0] + [COMMA] + Join(parts[1..])
  }

  /** The text of a value without absent parts, object fields in the order they are listed. */
  function Print(v: Value): Text
    decreases v, 1
  {
    match v
    case Absent => []
    case Null => NULL_TEXT
    case Bool(b) => if b then TRUE_TEXT else FALSE_TEXT
    case Num(t) => t
    case Str(s) => Quote(s)
    case Arr(items) => [OPEN_LIST] + Join(PrintItems(items)) + [CLOSE_LIST]
    case Obj(fields) => [OPEN_OBJECT] + Join(PrintFields(fields)) + [CLOSE_OBJECT]
  }

  function PrintItems(items: seq<Value>): (parts: seq<Text>)
    ensures |parts| == |items|
    decreases items, 0
  {
    if items == [] then [] else [Print(items[0])] + PrintItems(items[1..])
  }

  function PrintField(f: Field): Text
    decreases f, 2
  {
    Quote(f.key) + [COLON] + Print(f.val)
  }

  function PrintFields(fields: seq<Field>): (parts: seq<Text>)
    ensures |parts| == |fields|
    decreases fields, 0
  {
    if fields == [] then [] else [PrintField(fields[0])] + PrintFields(fields[1..])
  }

  // ---------------------------------------------------------------- reading

  /** Length of the longest prefix made of number characters. */
  function NumberLength(t: Text): (n: nat)
    ensures n <= |t|
  {
    if t == [] || !IsNumberUnit(t[0]) then 0 else 1 + NumberLength(t[1..])
  }

  predicate StartsWith(t: Text, p: Text) { |p| <= |t| && t[..|p|] == p }

  function ReadScalar(t: Text): (r: Parsed<Value, Text>)
    requires t != []
    ensures r.Parsed? ==> |r.rest| < |t|
  {
    if t[0] == QUOTE then
      match ReadString(t[1..])
      case Fail => Fail
      case Parsed(s, rest) => Parsed(Str(s), rest)
    else if StartsWith(t, NULL_TEXT) then Parsed(Null, t[4..])
    else if StartsWith(t, TRUE_TEXT) then Parsed(Bool(true), t[4..])
    else if StartsWith(t, FALSE_TEXT) then Parsed(Bool(false), t[5..])
    else
      var n := NumberLength(t);
      if n > 0 && IsNumberToken(t[..n]) then Parsed(Num(t[..n]), t[n..]) else Fail
  }

  /** Reads one value of compact (whitespace-free) JSON text. */
  function Read(t: Text): (r: Parsed<Value, Text>)
    ensures r.Parsed? ==> |r.rest| < |t|
    decreases |t|, 0
  {
    if t == [] then Fail
    else if t[0] == OPEN_LIST then ReadArray(t[1..])
    else if t[0] == OPEN_OBJECT then ReadObject(t[1..])
    else ReadScalar(t)
  }

  function ReadArray(t: Text): (r: Parsed<Value, Text>)
    ensures r.Parsed? ==> |r.rest| < |t|
    decreases |t|, 2
  {
    if t != [] && t[0] == CLOSE_LIST then Parsed(Arr([]), t[1..])
    else match ReadItems(t)
      case Fail => Fail
      case Parsed(items, rest) => Parsed(Arr(items), rest)
  }

  function ReadObject(t: Text): (r: Parsed<Value, Text>)
    ensures r.Parsed? ==> |r.rest| < |t|
    decreases |t|, 3
  {
    if t != [] && t[0] == CLOSE_OBJECT then Parsed(Obj([]), t[1..])
    else match ReadFields(t)
      case Fail => Fail
      case Parsed(fields, rest) => Parsed(Obj(fields), rest)
  }

  /** Reads a non-empty item list up to and including the closing bracket. */
  function ReadItems(t: Text): (r: Parsed<seq<Value>, Text>)
    ensures r.Parsed? ==> |r.rest| < |t|
    decreases |t|, 1
  {
    match Read(t)
    case Fail => Fail
    case Parsed(v, rest) =>
      if rest == [] then Fail
      else if rest[0] == CLOSE_LIST then Parsed([v], rest[1..])
      else if rest[0] != COMMA then Fail
      else match ReadItems(rest[1..])
        case Fail => Fail
        case Parsed(vs, rest') => Parsed([v] + vs, rest')
  }

  function ReadField(t: Text): (r: Parsed<Field, Text>)
    ensures r.Parsed? ==> |r.rest| < |t|
    decreases |t|, 1
  {
    if t == [] || t[0] != QUOTE then Fail
    else match ReadString(t[1..])
      case Fail => Fail
      case Parsed(k, rest) =>
        if rest == [] || rest[0] != COLON then Fail
        else match Read(rest[1..])
          case Fail => Fail
          case Parsed(v, rest') => Parsed(Field(k, v), rest')
  }

  /** Reads a non-empty field list up to and including the closing brace. */
  function ReadFields(t: Text): (r: Parsed<seq<Field>, Text>)
    ensures r.Parsed? ==> |r.rest| < |t|
    decreases |t|, 2
  {
    match ReadField(t)
    case Fail => Fail
    case Parsed(f, rest) =>
      if rest == [] then Fail
      else if rest[0] == CLOSE_OBJECT then Parsed([f], rest[1..])
      else if rest[0] != COMMA then Fail
      else match ReadFields(rest[1..])
        case Fail => Fail
        case Parsed(fs, rest') => Parsed([f] + fs, rest')
  }

  // ---------------------------------------------------------------- reading undoes printing

  lemma ReadHexByteUndoes(b: nat)
    requires b < 256
    ensures ReadHexByte(HexByte(b)) == Some(b)
  {
    assert b == 16 * (b / 16) + b % 16;
  }

  lemma ReadHex4Undoes(c: CodeUnit)
    ensures ReadHex4(UnicodeEscape(c)[2..6]) == Some(c)
  {
    var t := UnicodeEscape(c)[2..6];
    assert t == HexByte(c / 256) + HexByte(c % 256);
    assert t[..2] == HexByte(c / 256) && t[2..] == HexByte(c % 256);
    ReadHexByteUndoes(c / 256);
    ReadHexByteUndoes(c % 256);
  }

  lemma ReadSimpleEscape(e: CodeUnit, c: CodeUnit, t: Text)
    requires e != 117 && SimpleEscape(e) == Some(c)
    ensures ReadString([BACKSLASH, e] + t) == Prepend(c, ReadString(t))
  {
    assert ([BACKSLASH, e] + t)[2..] == t;
  }

  lemma ReadUnicodeEscape(c: CodeUnit, t: Text)
    ensures ReadString(UnicodeEscape(c) + t) == Prepend(c, ReadString(t))
  {
    var e := UnicodeEscape(c);
    ReadHex4Undoes(c);
    assert (e + t)[2..6] == e[2..6];
    assert (e + t)[6..] == t;
  }

  lemma ReadEscapedUnit(c: CodeUnit, t: Text)
    ensures ReadString(EscapeUnit(c) + t) == Prepend(c, ReadString(t))
  {
    if c == 8 { ReadSimpleEscape(98, c, t); }
    else if c == 9 { ReadSimpleEscape(116, c, t); }
    else if c == 10 { ReadSimpleEscape(110, c, t); }
    else if c == 12 { ReadSimpleEscape(102, c, t); }
    else if c == 13 { ReadSimpleEscape(114, c, t); }
    else if c == QUOTE || c == BACKSLASH { ReadSimpleEscape(c, c, t); }
    else if c < 32 || IsHigh(c) || IsLow(c) { ReadUnicodeEscape(c, t); }
    else { assert ([c] + t)[1..] == t; }
  }

  lemma ReadCopiedPair(high: CodeUnit, low: CodeUnit, t: Text)
    requires IsHigh(high) && IsLow(low)
    ensures ReadString([high, low] + t) == Prepend(high, Prepend(low, ReadString(t)))
  {
    assert ([high, low] + t)[1..] == [low] + t;
    assert ([low] + t)[1..] == t;
  }

  function PrependAll(s: Text, r: Parsed<Text, Text>): Parsed<Text, Text> {
    match r
    case Fail => Fail
    case Parsed(x, rest) => Parsed(s + x, rest)
  }

  lemma Associate(a: Text, b: Text, c: Text)
    ensures (a + b) + c == a + (b + c)
  {
  }

  lemma {:induction false} ReadEscaped(s: Text, t: Text)
    ensures ReadString(Escape(s) + t) == PrependAll(s, ReadString(t))
  {
    if s == [] {
      assert Escape(s) + t == t;
      PrependNone(ReadString(t));
    } else {
      if |s| > 1 && IsHigh(s[0]) && IsLow(s[1]) {
        Associate([s[0], s[1]], Escape(s[2..]), t);
        ReadCopiedPair(s[0], s[1], Escape(s[2..]) + t);
        ReadEscaped(s[2..], t);
        PrependTwice(s[0], s[1], s[2..], ReadString(t));
        assert s == [s[0]] + ([s[1]] + s[2..]);
      } else {
        Associate(EscapeUnit(s[0]), Escape(s[1..]), t);
        ReadEscapedUnit(s[0], Escape(s[1..]) + t);
        ReadEscaped(s[1..], t);
        PrependOnce(s[0], s[1..], ReadString(t));
        assert s == [s[0]] + s[1..];
      }
    }
  }

  lemma PrependNone(r: Parsed<Text, Text>)
    ensures PrependAll([], r) == r
  {
    if r.Parsed? {
      assert [] + r.value == r.value;
    }
  }

  lemma PrependOnce(c: CodeUnit, s: Text, r: Parsed<Text, Text>)
    ensures Prepend(c, PrependAll(s, r)) == PrependAll([c] + s, r)
  {
    if r.Parsed? {
      assert [c] + (s + r.value) == [c] + s + r.value;
    }
  }

  lemma PrependTwice(c: CodeUnit, d: CodeUnit, s: Text, r: Parsed<Text, Text>)
    ensures Prepend(c, Prepend(d, PrependAll(s, r))) == PrependAll([c] + ([d] + s), r)
  {
    PrependOnce(d, s, r);
    PrependOnce(c, [d] + s, r);
  }

  /** Every code-unit sequence, surrogates included, is recovered from its quoted form. */
  lemma ReadStringUndoesEscape(s: Text, rest: Text)
    ensures ReadString(Escape(s) + ([QUOTE] + rest)) == Parsed(s, rest)
  {
    ReadEscaped(s, [QUOTE] + rest);
    assert ([QUOTE] + rest)[1..] == rest;
    assert s + [] == s;
  }

  predicate EndsNumber(rest: Text) { rest == [] || !IsNumberUnit(rest[0]) }

  lemma NumberLengthOf(t: Text, rest: Text)
    requires forall i :: 0 <= i < |t| ==> IsNumberUnit(t[i])
    requires EndsNumber(rest)
    ensures NumberLength(t + rest) == |t|
  {
    if t == [] {
      assert t + rest == rest;
    } else {
      assert (t + rest)[1..] == t[1..] + rest;
      NumberLengthOf(t[1..], rest);
    }
  }

  lemma ReadUndoesWord(v: Value, rest: Text)
    requires v.Null? || v.Bool?
    ensures Read(Print(v) + rest) == Parsed(v, rest)
  {
    var t := Print(v) + rest;
    if v == Bool(false) {
      assert t[0] == 102 && t[..5] == FALSE_TEXT && t[5..] == rest;
    } else {
      assert t[..4] == Print(v) && t[4..] == rest;
    }
  }

  lemma ReadUndoesQuote(s: Text, rest: Text)
    ensures Quote(s) + rest == [QUOTE] + (Escape(s) + ([QUOTE] + rest))
    ensures (Quote(s) + rest)[1..] == Escape(s) + ([QUOTE] + rest)
    ensures ReadString((Quote(s) + rest)[1..]) == Parsed(s, rest)
  {
    ReadStringUndoesEscape(s, rest);
  }

  lemma ReadUndoesNumber(n: Text, rest: Text)
    requires IsNumberToken(n) && EndsNumber(rest)
    ensures Read(n + rest) == Parsed(Num(n), rest)
  {
    var t := n + rest;
    NumberLengthOf(n, rest);
    assert t[..|n|] == n && t[|n|..] == rest;
    assert t[0] == n[0];
  }

  lemma ReadAfterBracket(inner: Text)
    ensures Read([OPEN_LIST] + inner) == ReadArray(inner)
    ensures Read([OPEN_OBJECT] + inner) == ReadObject(inner)
  {
    assert ([OPEN_LIST] + inner)[1..] == inner;
    assert ([OPEN_OBJECT] + inner)[1..] == inner;
  }

  lemma BracketedText(open: CodeUnit, inner: Text, close: CodeUnit, rest: Text)
    ensures [open] + inner + [close] + rest == [open] + (inner + [close] + rest)
  {
  }

  /** The reader recovers exactly the printed value and leaves what follows it. */
  lemma {:induction false} ReadUndoesPrint(v: Value, rest: Text)
    requires WellFormed(v) && Present(v) && EndsNumber(rest)
    ensures Read(Print(v) + rest) == Parsed(v, rest)
    decreases v, 1
  {
    match v
    case Arr(items) =>
      ReadUndoesPrintArray(items, rest);
      BracketedText(OPEN_LIST, Join(PrintItems(items)), CLOSE_LIST, rest);
      ReadAfterBracket(Join(PrintItems(items)) + [CLOSE_LIST] + rest);
    case Obj(fields) =>
      ReadUndoesPrintObject(fields, rest);
      BracketedText(OPEN_OBJECT, Join(PrintFields(fields)), CLOSE_OBJECT, rest);
      ReadAfterBracket(Join(PrintFields(fields)) + [CLOSE_OBJECT] + rest);
    case Num(n) => ReadUndoesNumber(n, rest);
    case Str(s) => ReadUndoesQuote(s, rest);
    case _ => ReadUndoesWord(v, rest);
  }

  lemma {:induction false} ReadUndoesPrintArray(items: seq<Value>, rest: Text)
    requires forall i :: 0 <= i < |items| ==> WellFormed(items[i]) && Present(items[i])
    ensures ReadArray(Join(PrintItems(items)) + [CLOSE_LIST] + rest) == Parsed(Arr(items), rest)
    decreases items, 1
  {
    var t := Join(PrintItems(items)) + [CLOSE_LIST] + rest;
    if items == [] {
      assert t[1..] == rest;
    } else {
      ReadUndoesPrintItems(items, rest);
      PrintStart(items[0]);
      JoinStart(PrintItems(items));
      assert t[0] == Print(items[0])[0];
    }
  }

  lemma {:induction false} ReadUndoesPrintObject(fields: seq<Field>, rest: Text)
    requires forall i :: 0 <= i < |fields| ==> WellFormed(fields[i].val) && Present(fields[i].val)
    ensures ReadObject(Join(PrintFields(fields)) + [CLOSE_OBJECT] + rest) == Parsed(Obj(fields), rest)
    decreases fields, 1
  {
    var t := Join(PrintFields(fields)) + [CLOSE_OBJECT] + rest;
    if fields == [] {
      assert t[1..] == rest;
    } else {
      ReadUndoesPrintFields(fields, rest);
      JoinStart(PrintFields(fields));
      assert t[0] == QUOTE;
    }
  }

  lemma JoinStart(parts: seq<Text>)
    requires parts != [] && parts[0] != []
    ensures Join(parts) != [] && Join(parts)[0] == parts[0][0]
  {
  }

  lemma PrintStart(v: Value)
    requires WellFormed(v) && Present(v)
    ensures Print(v) != [] && Print(v)[0] != CLOSE_LIST
  {
  }

  lemma JoinOne(part: Text, close: CodeUnit, rest: Text)
    ensures Join([part]) + [close] + rest == part + ([close] + rest)
  {
  }

  lemma JoinSplit(parts: seq<Text>, close: CodeUnit, rest: Text)
    requires |parts| > 1
    ensures Join(parts) + [close] + rest == parts[0] + ([COMMA] + (Join(parts[1..]) + [close] + rest))
  {
    RegroupFive(parts[0], [COMMA], Join(parts[1..]), [close], rest);
  }

  lemma RegroupFive(a: Text, b: Text, c: Text, d: Text, e: Text)
    ensures ((a + b + c) + d) + e == a + (b + ((c + d) + e))
  {
  }

  lemma ReadItemsStep(t: Text, v: Value, more: Text, vs: seq<Value>, rest: Text)
    requires Read(t) == Parsed(v, [COMMA] + more)
    requires ReadItems(more) == Parsed(vs, rest)
    ensures ReadItems(t) == Parsed([v] + vs, rest)
  {
    assert ([COMMA] + more)[1..] == more;
  }

  lemma {:induction false} ReadUndoesPrintItems(items: seq<Value>, rest: Text)
    requires items != []
    requires forall i :: 0 <= i < |items| ==> WellFormed(items[i]) && Present(items[i])
    ensures ReadItems(Join(PrintItems(items)) + [CLOSE_LIST] + rest) == Parsed(items, rest)
    decreases items, 0
  {
    var parts := PrintItems(items);
    if |items| == 1 {
      ReadUndoesPrint(items[0], [CLOSE_LIST] + rest);
      assert parts == [Print(items[0])];
      JoinOne(Print(items[0]), CLOSE_LIST, rest);
      assert items == [items[0]];
    } else {
      var more := Join(PrintItems(items[1..])) + [CLOSE_LIST] + rest;
      JoinSplit(parts, CLOSE_LIST, rest);
      ReadUndoesPrint(items[0], [COMMA] + more);
      ReadUndoesPrintItems(items[1..], rest);
      ReadItemsStep(Print(items[0]) + ([COMMA] + more), items[0], more, items[1..], rest);
      assert items == [items[0]] + items[1..];
    }
  }

  lemma ReadFieldParts(t: Text, key: Text, afterColon: Text, val: Value, rest: Text)
    requires t != [] && t[0] == QUOTE
    requires ReadString(t[1..]) == Parsed(key, [COLON] + afterColon)
    requires Read(afterColon) == Parsed(val, rest)
    ensures ReadField(t) == Parsed(Field(key, val), rest)
  {
    assert ([COLON] + afterColon)[1..] == afterColon;
  }

  lemma FieldText(f: Field, rest: Text)
    ensures PrintField(f) + rest == Quote(f.key) + ([COLON] + (Print(f.val) + rest))
  {
  }

  lemma {:induction false} ReadUndoesPrintField(f: Field, rest: Text)
    requires WellFormed(f.val) && Present(f.val) && EndsNumber(rest)
    ensures ReadField(PrintField(f) + rest) == Parsed(f, rest)
    decreases f, 2
  {
    var value := Print(f.val) + rest;
    ReadUndoesPrint(f.val, rest);
    ReadUndoesQuote(f.key, [COLON] + value);
    ReadFieldParts(Quote(f.key) + ([COLON] + value), f.key, value, f.val, rest);
    FieldText(f, rest);
  }

  lemma ReadFieldsStep(t: Text, f: Field, more: Text, fs: seq<Field>, rest: Text)
    requires ReadField(t) == Parsed(f, [COMMA] + more)
    requires ReadFields(more) == Parsed(fs, rest)
    ensures ReadFields(t) == Parsed([f] + fs, rest)
  {
    assert ([COMMA] + more)[1..] == more;
  }

  lemma {:induction false} ReadUndoesPrintFields(fields: seq<Field>, rest: Text)
    requires fields != []
    requires forall i :: 0 <= i < |fields| ==> WellFormed(fields[i].val) && Present(fields[i].val)
    ensures ReadFields(Join(PrintFields(fields)) + [CLOSE_OBJECT] + rest) == Parsed(fields, rest)
    decreases fields, 0
  {
    var parts := PrintFields(fields);
    if |fields| == 1 {
      ReadUndoesPrintField(fields[0], [CLOSE_OBJECT] + rest);
      assert parts == [PrintField(fields[0])];
      JoinOne(PrintField(fields[0]), CLOSE_OBJECT, rest);
      assert fields == [fields[0]];
    } else {
      var more := Join(PrintFields(fields[1..])) + [CLOSE_OBJECT] + rest;
      JoinSplit(parts, CLOSE_OBJECT, rest);
      ReadUndoesPrintField(fields[0], [COMMA] + more);
      ReadUndoesPrintFields(fields[1..], rest);
      ReadFieldsStep(PrintField(fields[0]) + ([COMMA] + more), fields[0], more, fields[1..], rest);
      assert fields == [fields[0]] + fields[1..];
    }
  }

  // ---------------------------------------------------------------- the text, character by character

  /** A digit or minus sign, then digits, signs, dots and the letter e. */
  lemma NumberTokenSpelled(t: Text)
    ensures IsNumberToken(t) <==>
      && t != [] && ('0' as int <= t[0] <= '9' as int || t[0] == '-' as int)
      && forall c :: c in t ==> '0' as int <= c <= '9' as int || c in {'-' as int, '+' as int, '.' as int, 'e' as int}
  {
    assert forall i :: 0 <= i < |t| ==> t[i] in t;
  }

  lemma ScalarTexts(b: bool, token: Text, s: Text)
    ensures Print(Null) == [110, 117, 108, 108]
    ensures Print(Bool(b)) == if b then [116, 114, 117, 101] else [102, 97, 108, 115, 101]
    ensures Print(Num(token)) == token
    ensures Print(Str(s)) == [34] + Escape(s) + [34]
  {
  }

  /** Brackets around the items, a comma between two of them and nothing else. */
  lemma ArrayText(x: Value, more: seq<Value>)
    ensures Print(Arr([])) == [91, 93] && Print(Arr([x])) == [91] + Print(x) + [93]
    ensures more != [] ==> Print(Arr([x] + more)) == [91] + Print(x) + [44] + Print(Arr(more))[1..]
  {
    assert PrintItems([x]) == [Print(x)] by { assert [x][1..] == []; }
    assert ([x] + more)[1..] == more;
    SplicedText(91, Print(x), Join(PrintItems(more)), 93);
  }

  /** Braces around the fields, each a quoted key, a colon and the value, and a comma between two of them. */
  lemma ObjectText(f: Field, more: seq<Field>)
    ensures Print(Obj([])) == [123, 125]
    ensures Print(Obj([f])) == [123] + ([34] + Escape(f.key) + [34, 58] + Print(f.val)) + [125]
    ensures more != [] ==>
      Print(Obj([f] + more)) == [123] + ([34] + Escape(f.key) + [34, 58] + Print(f.val)) + [44] + Print(Obj(more))[1..]
  {
    FieldSpelled(f);
    assert PrintFields([f]) == [PrintField(f)] by { assert [f][1..] == []; }
    assert ([f] + more)[1..] == more;
    SplicedText(123, PrintField(f), Join(PrintFields(more)), 125);
  }

  lemma FieldSpelled(f: Field)
    ensures PrintField(f) == [34] + Escape(f.key) + [34, 58] + Print(f.val)
  {
    assert [34] + Escape(f.key) + [34] + [58] == [34] + Escape(f.key) + [34, 58];
  }

  lemma SplicedText(open: CodeUnit, first: Text, rest: Text, close: CodeUnit)
    ensures [open] + (first + [COMMA] + rest) + [close] == [open] + first + [COMMA] + ([open] + rest + [close])[1..]
  {
  }

  const HEX_DIGITS: Text := [48, 49, 50, 51, 52, 53, 54, 55, 56, 57, 97, 98, 99, 100, 101, 102]

  lemma HexDigitSpelled(n: nat)
    requires n < 16
    ensures HexDigit(n) == HEX_DIGITS[n]
  {
  }

  lemma HighNibbles(c: CodeUnit)
    ensures c / 256 / 16 == c / 4096 && c / 4096 < 16
  {
  }

  lemma LowNibbles(c: CodeUnit)
    ensures c % 256 / 16 == c / 16 % 16 && c % 256 % 16 == c % 16
  {
    var h, l := c / 256, c % 256;
    assert c == 16 * (16 * h) + l && c / 16 == 16 * h + l / 16;
  }

  /** A backslash, a u and the four lower-case hexadecimal digits of the unit. */
  lemma UnicodeEscapeSpelled(c: CodeUnit)
    ensures UnicodeEscape(c) == [92, 117] + [HEX_DIGITS[c / 4096], HEX_DIGITS[c / 256 % 16], HEX_DIGITS[c / 16 % 16], HEX_DIGITS[c % 16]]
  {
    HighNibbles(c);
    LowNibbles(c);
    HexDigitSpelled(c / 4096);
    HexDigitSpelled(c / 256 % 16);
    HexDigitSpelled(c / 16 % 16);
    HexDigitSpelled(c % 16);
  }

  /**
   A string escaped unit by unit: two-character escapes for the quote, the backslash and five controls, six-character
   ones for the other controls and lone surrogates; a surrogate pair and everything else stands for itself.
   */
  lemma EscapeSpelled(c: CodeUnit, rest: Text)
    ensures Escape([]) == []
    ensures 0xD800 <= c < 0xDC00 && rest != [] && 0xDC00 <= rest[0] < 0xE000 ==>
      Escape([c] + rest) == [c, rest[0]] + Escape(rest[1..])
    ensures !(0xD800 <= c < 0xDC00 && rest != [] && 0xDC00 <= rest[0] < 0xE000) ==>
      Escape([c] + rest) ==
        (if c == 34 || c == 92 then [92, c]
         else if c == 8 then [92, 98] else if c == 9 then [92, 116] else if c == 10 then [92, 110]
         else if c == 12 then [92, 102] else if c == 13 then [92, 114]
         else if c < 32 || 0xD800 <= c < 0xE000 then UnicodeEscape(c)
         else [c]) + Escape(rest)
  {
    var s := [c] + rest;
    assert s[1..] == rest;
    if rest != [] { assert s[2..] == rest[1..]; }
  }
}
