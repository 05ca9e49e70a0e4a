/**
 The append-only journal: one JSON value a line, appended by reading the file as text, concatenating, and rewriting
 the whole file atomically.
 */
module Journal {
  import opened Wrappers
  import opened Json
  import opened CanonicalJson
  import opened Lines
  import opened LockedUpdate
  import opened TransactionRecord
  import opened Utf8

  /** Parses one line; `JSON.parse`. */
  type Parser = Text -> Option<Value>

  predicate EndsLine(t: Text) { t != [] && t[|t| - 1] == NEWLINE }

  /** Prior bytes brought to a line boundary. */
  function Base(prior: Text): Text { if prior != [] && !EndsLine(prior) then prior + [NEWLINE] else prior }

  /** The text after appending one line; `prior` is empty when there was no file. */
  function Appended(prior: Text, line: Text): Text { Base(prior) + line + [NEWLINE] }

  /** The line goes on a line of its own: after a newline, which is added when the last character is none. */
  lemma AppendedSpelled(prior: Text, line: Text)
    ensures prior == [] || prior[|prior| - 1] == 10 ==> Appended(prior, line) == prior + line + [10]
    ensures prior != [] && prior[|prior| - 1] != 10 ==> Appended(prior, line) == prior + [10] + line + [10]
  {
  }

  function ParseAll(parse: Parser, lines: seq<Text>): seq<Value> {
    if lines == [] then []
    else (match parse(lines[0]) case None => [] case Some(v) => [v]) + ParseAll(parse, lines[1..])
  }

  /** The lines that end in a newline. */
  function WholeLines(raw: Text): seq<Text> { var lines := Split(raw); NonEmpty(lines[..|lines| - 1]) }

  /** The text after the last newline: what a torn write leaves. */
  function Torn(raw: Text): Text { var lines := Split(raw); lines[|lines| - 1] }

  /** The entries a reader sees: unterminated and unparseable lines are dropped. */
  function Entries(parse: Parser, raw: Text): seq<Value> { ParseAll(parse, WholeLines(raw)) }

  lemma {:induction false} ParseAllConcat(parse: Parser, a: seq<Text>, b: seq<Text>)
    ensures ParseAll(parse, a + b) == ParseAll(parse, a) + ParseAll(parse, b)
  {
    if a == [] {
      assert a + b == b;
    } else {
      assert (a + b)[1..] == a[1..] + b;
      ParseAllConcat(parse, a[1..], b);
    }
  }

  lemma {:induction false} TornIffUnterminated(raw: Text)
    ensures Torn(raw) == [] <==> raw == [] || EndsLine(raw)
    ensures OneLine(Torn(raw))
  {
    if raw != [] {
      TornIffUnterminated(raw[1..]);
      TornTail(raw);
      if raw[1..] == [] { assert Split(raw[1..]) == [[]]; }
    }
  }

  lemma TornTail(raw: Text)
    requires raw != []
    ensures raw[0] == NEWLINE || |Split(raw[1..])| > 1 ==> Torn(raw) == Torn(raw[1..])
    ensures raw[0] != NEWLINE && |Split(raw[1..])| == 1 ==> Torn(raw) == [raw[0]] + Torn(raw[1..])
  {
  }

  /** Terminating a file turns its torn tail into a whole line. */
  lemma TerminateLines(raw: Text)
    ensures WholeLines(raw + [NEWLINE]) == WholeLines(raw) + (if Torn(raw) == [] then [] else [Torn(raw)])
    ensures Torn(raw + [NEWLINE]) == []
  {
    var lines := Split(raw);
    var n := |lines| - 1;
    assert raw + [NEWLINE] == raw + [NEWLINE] + [];
    SplitAtNewline(raw, []);
    assert Split(raw + [NEWLINE]) == lines + [[]];
    assert (lines + [[]])[..|lines|] == lines == lines[..n] + [lines[n]];
    NonEmptyConcat(lines[..n], [lines[n]]);
    assert NonEmpty([lines[n]][1..]) == [];
  }

  lemma AddLine(base: Text, line: Text)
    requires OneLine(line) && line != [] && Torn(base) == []
    ensures WholeLines(base + line + [NEWLINE]) == WholeLines(base) + [line]
    ensures Torn(base + line + [NEWLINE]) == []
  {
    TerminateLines(base + line);
    if base == [] {
      assert base + line == line;
      SplitOneLine(line);
    } else {
      TornIffUnterminated(base);
      var head := base[..|base| - 1];
      assert base == head + [NEWLINE];
      SplitAtNewline(head, line);
      SplitOneLine(line);
      TerminateLines(head);
      var lines := Split(head);
      assert Split(base + line) == lines + [line];
      assert (lines + [line])[..|lines|] == lines;
      assert base == head + [NEWLINE] + [];
      SplitAtNewline(head, []);
      assert Split(base) == lines + [[]];
      assert (lines + [[]])[..|lines|] == lines;
    }
  }

  /** The value a torn tail holds, once a later append terminates it. */
  function TornEntry(parse: Parser, raw: Text): seq<Value> {
    if Torn(raw) != [] && parse(Torn(raw)).Some? then [parse(Torn(raw)).value] else []
  }

  lemma ParseOne(parse: Parser, line: Text)
    ensures ParseAll(parse, [line]) == match parse(line) case None => [] case Some(v) => [v]
  {
    assert ParseAll(parse, [line][1..]) == [];
  }

  lemma BaseEntries(parse: Parser, prior: Text)
    ensures Torn(Base(prior)) == []
    ensures Entries(parse, Base(prior)) == Entries(parse, prior) + TornEntry(parse, prior)
  {
    TornIffUnterminated(prior);
    if prior != [] && !EndsLine(prior) {
      TerminateLines(prior);
      ParseAllConcat(parse, WholeLines(prior), [Torn(prior)]);
      ParseOne(parse, Torn(prior));
    }
  }

  /**
   Reading after an append gives the old entries, then the old torn tail if it parses, then the new entry; for any
   prior bytes.
   */
  lemma ReadAfterAppend(parse: Parser, prior: Text, line: Text, entry: Value)
    requires OneLine(line) && line != [] && parse(line) == Some(entry)
    ensures Entries(parse, Appended(prior, line)) == Entries(parse, prior) + TornEntry(parse, prior) + [entry]
  {
    BaseEntries(parse, prior);
    AddLine(Base(prior), line);
    ParseAllConcat(parse, WholeLines(Base(prior)), [line]);
    ParseOne(parse, line);
  }

  /** The reader's loop computes the entries of the decoded file; a missing file and a failed read give none. */
  method ReadJournal(parse: Parser, file: Option<Bytes>, readable: bool) returns (entries: seq<Value>)
    ensures entries == (if file.None? || !readable then [] else Entries(parse, Decode(file.value)))
  {
    if file.None? || !readable { return []; }
    entries := ReadLines(parse, Decode(file.value));
  }

  method ReadLines(parse: Parser, raw: Text) returns (entries: seq<Value>)
    ensures entries == Entries(parse, raw)
  {
    if raw == [] { return []; }
    var lines := Split(raw);
    var lastIsTorn := !EndsLine(raw);
    TornIffUnterminated(raw);
    entries := [];
    for i := 0 to |lines|
      invariant i < |lines| ==> entries == ParseAll(parse, NonEmpty(lines[..i]))
      invariant i == |lines| ==> entries == Entries(parse, raw)
    {
      var line := lines[i];
      LineNext(parse, lines, i);
      if line == [] { continue; }
      if i == |lines| - 1 && lastIsTorn { continue; }
      var v := parse(line);
      if v.Some? { entries := entries + [v.value]; }
    }
  }

  lemma LineNext(parse: Parser, lines: seq<Text>, i: nat)
    requires i < |lines|
    ensures ParseAll(parse, NonEmpty(lines[..i + 1])) == ParseAll(parse, NonEmpty(lines[..i])) +
      (if lines[i] == [] then [] else match parse(lines[i]) case None => [] case Some(v) => [v])
  {
    assert lines[..i + 1] == lines[..i] + [lines[i]];
    NonEmptyConcat(lines[..i], [lines[i]]);
    ParseAllConcat(parse, NonEmpty(lines[..i]), NonEmpty([lines[i]]));
    assert NonEmpty([lines[i]][1..]) == [];
    if lines[i] != [] { assert ParseAll(parse, [lines[i]][1..]) == []; }
  }

  // ---------------------------------------------------------------- one line a value

  lemma EscapeOneLine(s: Text)
    ensures OneLine(Escape(s))
  {
  }

  lemma JoinOneLine(parts: seq<Text>)
    requires forall p :: p in parts ==> OneLine(p)
    ensures OneLine(Join(parts))
  {
    if |parts| > 1 {
      assert forall p :: p in parts[1..] ==> p in parts;
      JoinOneLine(parts[1..]);
    }
    assert parts != [] ==> OneLine(parts[0]);
  }

  /** Compact JSON is one line. */
  lemma {:induction false} PrintOneLine(v: Value)
    requires WellFormed(v)
    ensures OneLine(Print(v))
    decreases v, 1
  {
    match v
    case Str(s) => EscapeOneLine(s);
    case Arr(items) => PrintItemsOneLine(items); JoinOneLine(PrintItems(items));
    case Obj(fields) => PrintFieldsOneLine(fields); JoinOneLine(PrintFields(fields));
    case _ =>
  }

  lemma {:induction false} PrintItemsOneLine(items: seq<Value>)
    requires forall i :: 0 <= i < |items| ==> WellFormed(items[i])
    ensures forall p :: p in PrintItems(items) ==> OneLine(p)
    decreases items, 0
  {
    if items != [] {
      PrintOneLine(items[0]);
      PrintItemsOneLine(items[1..]);
    }
  }

  lemma {:induction false} PrintFieldsOneLine(fields: seq<Field>)
    requires forall i :: 0 <= i < |fields| ==> WellFormed(fields[i].val)
    ensures forall p :: p in PrintFields(fields) ==> OneLine(p)
    decreases fields, 0
  {
    if fields != [] {
      EscapeOneLine(fields[0].key);
      PrintOneLine(fields[0].val);
      PrintFieldsOneLine(fields[1..]);
    }
  }

  lemma NativeOneLine(v: Value)
    requires WellFormed(v) && v.Obj?
    ensures OneLine(NativeText(v)) && NativeText(v) != []
  {
    ImageWellFormed(v);
    PrintOneLine(Image(v));
  }

  /** The parser reads back what native stringification writes. */
  ghost predicate ParsesNative(parse: Parser) {
    forall v :: WellFormed(v) && v.Obj? ==> parse(NativeText(v)) == Some(Image(v))
  }

  function ParseCompact(line: Text): Option<Value> {
    match Read(line) case Parsed(v, rest) => (if rest == [] then Some(v) else None) case Fail => None
  }

  lemma ParseCompactParsesNative()
    ensures ParsesNative(ParseCompact)
  {
    forall v | WellFormed(v) && v.Obj? ensures ParseCompact(NativeText(v)) == Some(Image(v)) {
      NativeRoundTrip(v);
    }
  }

  // ---------------------------------------------------------------- the file's bytes

  predicate IsEntry(e: Value) { WellFormed(e) && e.Obj? }

  /** One append as an update of the bytes that were read; no file and a failed read are as good as an empty one. */
  function AppendEntry(file: Bytes, entry: Value): Bytes { Encode(Appended(Decode(file), NativeText(entry))) }

  predicate NoSurrogate(t: Text) { forall i :: 0 <= i < |t| ==> !IsSurrogate(t[i]) }

  lemma {:induction false} NoSurrogatePaired(t: Text)
    requires NoSurrogate(t)
    ensures Paired(t)
  {
    if t != [] { NoSurrogatePaired(t[1..]); }
  }

  lemma EscapeUnitPaired(c: CodeUnit)
    ensures Paired(EscapeUnit(c))
  {
    NoSurrogatePaired(EscapeUnit(c));
  }

  /** Escaping leaves no lone surrogate. */
  lemma {:induction false} EscapePaired(s: Text)
    ensures Paired(Escape(s))
  {
    if |s| > 1 && IsHigh(s[0]) && IsLow(s[1]) {
      EscapePaired(s[2..]);
      assert [s[0], s[1]][2..] == [];
      PairedConcat([s[0], s[1]], Escape(s[2..]));
    } else if s != [] {
      EscapePaired(s[1..]);
      EscapeUnitPaired(s[0]);
      PairedConcat(EscapeUnit(s[0]), Escape(s[1..]));
    }
  }

  lemma QuotePaired(s: Text)
    ensures Paired(Quote(s))
  {
    EscapePaired(s);
    NoSurrogatePaired([QUOTE]);
    PairedConcat([QUOTE], Escape(s));
    PairedConcat([QUOTE] + Escape(s), [QUOTE]);
  }

  lemma BracketPaired(open: CodeUnit, inner: Text, close: CodeUnit)
    requires Paired(inner) && !IsSurrogate(open) && !IsSurrogate(close)
    ensures Paired([open] + inner + [close])
  {
    NoSurrogatePaired([open]);
    NoSurrogatePaired([close]);
    PairedConcat([open], inner);
    PairedConcat([open] + inner, [close]);
  }

  lemma {:induction false} JoinPaired(parts: seq<Text>)
    requires forall p :: p in parts ==> Paired(p)
    ensures Paired(Join(parts))
  {
    if |parts| > 1 {
      assert forall p :: p in parts[1..] ==> p in parts;
      JoinPaired(parts[1..]);
      NoSurrogatePaired([COMMA]);
      assert parts[0] in parts;
      PairedConcat(parts[0], [COMMA]);
      PairedConcat(parts[0] + [COMMA], Join(parts[1..]));
    }
    assert parts != [] ==> Paired(parts[0]);
  }

  /** Printed JSON has no lone surrogate. */
  lemma {:induction false} PrintPaired(v: Value)
    requires WellFormed(v)
    ensures Paired(Print(v))
    decreases v, 1
  {
    match v
    case Str(s) => QuotePaired(s);
    case Arr(items) =>
      PrintItemsPaired(items);
      JoinPaired(PrintItems(items));
      BracketPaired(OPEN_LIST, Join(PrintItems(items)), CLOSE_LIST);
    case Obj(fields) =>
      PrintFieldsPaired(fields);
      JoinPaired(PrintFields(fields));
      BracketPaired(OPEN_OBJECT, Join(PrintFields(fields)), CLOSE_OBJECT);
    case _ => NoSurrogatePaired(Print(v));
  }

  lemma {:induction false} PrintItemsPaired(items: seq<Value>)
    requires forall i :: 0 <= i < |items| ==> WellFormed(items[i])
    ensures forall p :: p in PrintItems(items) ==> Paired(p)
    decreases items, 0
  {
    if items != [] {
      PrintPaired(items[0]);
      PrintItemsPaired(items[1..]);
    }
  }

  lemma {:induction false} PrintFieldsPaired(fields: seq<Field>)
    requires forall i :: 0 <= i < |fields| ==> WellFormed(fields[i].val)
    ensures forall p :: p in PrintFields(fields) ==> Paired(p)
    decreases fields, 0
  {
    if fields != [] {
      QuotePaired(fields[0].key);
      PrintPaired(fields[0].val);
      NoSurrogatePaired([COLON]);
      PairedConcat(Quote(fields[0].key), [COLON]);
      PairedConcat(Quote(fields[0].key) + [COLON], Print(fields[0].val));
      PrintFieldsPaired(fields[1..]);
    }
  }

  lemma NativePaired(v: Value)
    requires IsEntry(v)
    ensures Paired(NativeText(v))
  {
    ImageWellFormed(v);
    PrintPaired(Image(v));
  }

  /** What follows the prior text in the appended one. */
  function Added(prior: Text, line: Text): Text {
    (if prior != [] && !EndsLine(prior) then [NEWLINE] else []) + line + [NEWLINE]
  }

  lemma AppendedIsAdded(prior: Text, line: Text)
    ensures Appended(prior, line) == prior + Added(prior, line)
  {
  }

  lemma AddedPaired(prior: Text, line: Text)
    requires Paired(line)
    ensures Paired(Added(prior, line))
  {
    NoSurrogatePaired([NEWLINE]);
    var start: Text := if prior != [] && !EndsLine(prior) then [NEWLINE] else [];
    PairedConcat(start, line);
    PairedConcat(start + line, [NEWLINE]);
  }

  /** The new file is the recoded old one with the line added, and decodes to the appended text. */
  lemma AppendedBytes(file: Bytes, e: Value)
    requires IsEntry(e)
    ensures AppendEntry(file, e) == Recode(file) + Encode(Added(Decode(file), NativeText(e)))
    ensures Decode(AppendEntry(file, e)) == Appended(Decode(file), NativeText(e))
  {
    var prior, line := Decode(file), NativeText(e);
    DecodePaired(file);
    NativePaired(e);
    AddedPaired(prior, line);
    AppendedIsAdded(prior, line);
    EncodeConcat(prior, Added(prior, line));
    PairedConcat(prior, Added(prior, line));
    DecodeUndoesEncode(Appended(prior, line));
  }

  /**
   An append keeps the prior bytes as a prefix exactly when they are well-formed UTF-8, but for a cut-off
   replacement character at their end.
   */
  lemma AppendKeepsPrefixIff(file: Bytes, e: Value)
    requires IsEntry(e)
    ensures file <= AppendEntry(file, e) <==> ValidButStub(file)
  {
    AppendedBytes(file, e);
    RecodeKeepsPrefixIff(file);
    RecodeNoShorter(file);
    PrefixOfLonger(file, Recode(file), Encode(Added(Decode(file), NativeText(e))));
  }

  lemma PrefixOfLonger<T>(a: seq<T>, b: seq<T>, c: seq<T>)
    requires |a| <= |b|
    ensures a <= b + c <==> a <= b
  {
    assert (b + c)[..|a|] == b[..|a|];
  }

  /** A torn tail cut inside a two-byte character: its byte is rewritten. */
  lemma TornCharacterIsRewritten(e: Value)
    requires IsEntry(e)
    ensures !([0xC3] <= AppendEntry([0xC3], e)) && REPLACEMENT_BYTES <= AppendEntry([0xC3], e)
  {
    AppendKeepsPrefixIff([0xC3], e);
    AppendedBytes([0xC3], e);
    RecodeStep([0xC3]);
    assert Recode([]) == [];
  }

  // ---------------------------------------------------------------- many appenders

  function Images(entries: seq<Value>): seq<Value> {
    if entries == [] then [] else Images(entries[..|entries| - 1]) + [Image(entries[|entries| - 1])]
  }

  const APPENDS: Rule<Bytes, Value> := Rule(AppendEntry, [])

  lemma OneMore(parse: Parser, mid: Bytes, e: Value)
    requires ParsesNative(parse) && IsEntry(e)
    ensures var file := AppendEntry(mid, e);
      && TornEntry(parse, Decode(file)) == []
      && Entries(parse, Decode(file)) == Entries(parse, Decode(mid)) + TornEntry(parse, Decode(mid)) + [Image(e)]
  {
    NativeOneLine(e);
    AppendedBytes(mid, e);
    ReadAfterAppend(parse, Decode(mid), NativeText(e), Image(e));
    TornIffUnterminated(Decode(AppendEntry(mid, e)));
  }

  lemma Chain(all: seq<Value>, prior: seq<Value>, torn: seq<Value>, images: seq<Value>, image: Value)
    requires all == (prior + torn + images) + [] + [image]
    ensures all == prior + torn + (images + [image])
  {
  }

  /** Any number of appends, to any prior bytes: the file reads as the old entries, the torn one, and the new ones in order. */
  lemma {:induction false} ReadAfterAppends(parse: Parser, first: Bytes, entries: seq<Value>)
    requires ParsesNative(parse) && entries != [] && forall e :: e in entries ==> IsEntry(e)
    ensures var file := Fold(APPENDS, first, entries);
      && TornEntry(parse, Decode(file)) == []
      && Entries(parse, Decode(file)) == Entries(parse, Decode(first)) + TornEntry(parse, Decode(first)) + Images(entries)
  {
    var n := |entries| - 1;
    var before, e := entries[..n], entries[n];
    assert e in entries;
    var mid := Fold(APPENDS, first, before);
    OneMore(parse, mid, e);
    if before != [] {
      assert forall x :: x in before ==> x in entries;
      ReadAfterAppends(parse, first, before);
      Chain(Entries(parse, Decode(AppendEntry(mid, e))), Entries(parse, Decode(first)), TornEntry(parse, Decode(first)),
            Images(before), Image(e));
    } else {
      assert Images(before) == [] && Images(entries) == [Image(e)];
    }
  }

  /** Only the first append can change bytes that were there. */
  lemma {:induction false} AppendsKeepPrefix(first: Bytes, entries: seq<Value>)
    requires ValidButStub(first) && forall e :: e in entries ==> IsEntry(e)
    ensures first <= Fold(APPENDS, first, entries) && ValidButStub(Fold(APPENDS, first, entries))
  {
    if entries != [] {
      var n := |entries| - 1;
      var mid := Fold(APPENDS, first, entries[..n]);
      assert entries[n] in entries;
      assert forall x :: x in entries[..n] ==> x in entries;
      AppendsKeepPrefix(first, entries[..n]);
      AppendKeepsPrefixIff(mid, entries[n]);
      AppendedBytes(mid, entries[n]);
      RecodeKeepsPrefixIff(AppendEntry(mid, entries[n]));
    }
  }

  lemma NoEntries(parse: Parser)
    ensures Entries(parse, Decode([])) == [] && TornEntry(parse, Decode([])) == []
  {
    assert NonEmpty(Split([])[..0]) == [];
  }

  /**
   Whatever the interleaving of appenders, timeouts, faults and crashes: the journal reads as every entry written
   since the last append that could not read the file, after the prior entries if there was none such; a reported
   append was written.
   */
  lemma AppendersLoseOnlyToFailedReads(parse: Parser, first: Bytes, steps: seq<(Pid, Event<Value>)>)
    requires ParsesNative(parse)
    requires Run(APPENDS, Start(first), steps).Some?
    requires forall i :: 0 <= i < |steps| && steps[i].1.Ask? ==> IsEntry(steps[i].1.a)
    ensures var s := Run(APPENDS, Start(first), steps).value;
      && multiset(s.reported) <= multiset(Acts(s.written))
      && (s.written != [] ==>
            Entries(parse, Decode(s.content)) ==
            (if Sighted(s.written) then Entries(parse, Decode(first)) + TornEntry(parse, Decode(first)) else [])
            + Images(Recent(s.written)))
  {
    RunIsSerial(APPENDS, first, steps);
    RunWritesAsked(APPENDS, Start(first), steps, IsEntry);
    var s := Run(APPENDS, Start(first), steps).value;
    NoEntries(parse);
    if s.written != [] {
      ReadAfterAppends(parse, if Sighted(s.written) then first else [], Recent(s.written));
    }
  }

  /** If no read fails, no written entry is lost, and well-formed prior bytes stay a prefix. */
  lemma AppendersLoseNothing(parse: Parser, first: Bytes, steps: seq<(Pid, Event<Value>)>)
    requires ParsesNative(parse)
    requires Run(APPENDS, Start(first), steps).Some?
    requires forall i :: 0 <= i < |steps| ==> !steps[i].1.ReadFault? && (steps[i].1.Ask? ==> IsEntry(steps[i].1.a))
    ensures var s := Run(APPENDS, Start(first), steps).value;
      && multiset(s.reported) <= multiset(Acts(s.written))
      && (s.written != [] ==>
            Entries(parse, Decode(s.content)) ==
            Entries(parse, Decode(first)) + TornEntry(parse, Decode(first)) + Images(Acts(s.written)))
      && (ValidButStub(first) ==> first <= s.content)
  {
    AppendersLoseOnlyToFailedReads(parse, first, steps);
    SightedRunIsSerial(APPENDS, first, steps);
    RunWritesAsked(APPENDS, Start(first), steps, IsEntry);
    var s := Run(APPENDS, Start(first), steps).value;
    SightedRecent(s.written);
    if ValidButStub(first) { AppendsKeepPrefix(first, Acts(s.written)); }
  }

  /** Two appends, and a third whose read fails: all three are reported, and the file holds the third alone. */
  lemma FailedReadLosesEntries(parse: Parser, a: Value, b: Value, c: Value) returns (steps: seq<(Pid, Event<Value>)>)
    requires ParsesNative(parse) && IsEntry(a) && IsEntry(b) && IsEntry(c)
    ensures Run(APPENDS, Start([]), steps).Some?
    ensures var s := Run(APPENDS, Start([]), steps).value;
      s.reported == [a, b, c] && Entries(parse, Decode(s.content)) == [Image(c)]
  {
    var first := OneAppend(Start([]), a, Load);
    var second := OneAppend(first.1, b, Load);
    var third := OneAppend(second.1, c, ReadFault);
    RunConcat(APPENDS, Start([]), first.0, second.0);
    RunConcat(APPENDS, Start([]), first.0 + second.0, third.0);
    steps := first.0 + second.0 + third.0;
    OnlyEntry(parse, c);
    assert [] + [a] + [b] + [c] == [a, b, c];
  }

  lemma OnlyEntry(parse: Parser, e: Value)
    requires ParsesNative(parse) && IsEntry(e)
    ensures Entries(parse, Decode(AppendEntry([], e))) == [Image(e)]
  {
    NoEntries(parse);
    OneMore(parse, [], e);
  }

  /** One process's append from asking to reporting. */
  lemma OneAppend(s: System<Bytes, Value>, e: Value, read: Event<Value>) returns (r: (seq<(Pid, Event<Value>)>, System<Bytes, Value>))
    requires s.owner.None? && s.active == map[] && (read.Load? || read.ReadFault?)
    ensures Run(APPENDS, s, r.0) == Some(r.1)
    ensures r.1.owner.None? && r.1.active == map[] && r.1.reported == s.reported + [e]
    ensures r.1.content == AppendEntry(if read.Load? then s.content else [], e)
  {
    var steps: seq<(Pid, Event<Value>)> := [(0, Ask(e)), (0, Acquire), (0, read), (0, Store), (0, Release)];
    var s1 := After(APPENDS, s, 0, Ask(e)).value;
    var s2 := After(APPENDS, s1, 0, Acquire).value;
    var s3 := After(APPENDS, s2, 0, read).value;
    var s4 := After(APPENDS, s3, 0, Store).value;
    var s5 := After(APPENDS, s4, 0, Release).value;
    assert s5.active == map[];
    RunFive(APPENDS, s, steps, s1, s2, s3, s4, s5);
    r := (steps, s5);
  }

  // ---------------------------------------------------------------- one append, step by step

  const ENTRY_REQUIRED := ["schema_version", "entry_id", "promoted_sha", "pre_state_hash", "worktree_root", "outcome",
                     "timestamp_iso"]

  /** Required fields present, a known outcome, and an undo description exactly for outcomes that have one. */
  predicate ValidEntry(e: Value) {
    && e.Obj?
    && (forall i :: 0 <= i < |ENTRY_REQUIRED| ==> !Nullish(Get(e, ENTRY_REQUIRED[i])))
    && OneOf(Get(e, "outcome"), ["PROMOTED", "ABORTED", "NOOP_ALREADY_PRESENT", "REVERTED"])
    && Get(e, "schema_version") == Str(Ascii("k9-journal-v1"))
    && (OneOf(Get(e, "outcome"), ["PROMOTED", "REVERTED"]) <==> !Nullish(Get(e, "reverse_op_description")))
  }

  predicate Given(e: Value, name: string) { Get(e, name) !in {Absent, Null} }

  /** A valid entry, outcome by outcome: one that changed the branch says how to undo it, one that did not says nothing. */
  lemma ValidEntryIff(e: Value)
    ensures ValidEntry(e) <==>
      && e.Obj? && Get(e, "schema_version") == Str(Ascii("k9-journal-v1"))
      && Given(e, "entry_id") && Given(e, "promoted_sha") && Given(e, "pre_state_hash") && Given(e, "worktree_root")
      && Given(e, "timestamp_iso")
      && (|| (Get(e, "outcome") in {Str(Ascii("PROMOTED")), Str(Ascii("REVERTED"))} && Given(e, "reverse_op_description"))
          || (&& Get(e, "outcome") in {Str(Ascii("ABORTED")), Str(Ascii("NOOP_ALREADY_PRESENT"))}
              && !Given(e, "reverse_op_description")))
  {
    var outcome := Get(e, "outcome");
    RequiredGiven(e);
    OneOfFour(outcome, "PROMOTED", "ABORTED", "NOOP_ALREADY_PRESENT", "REVERTED");
    OneOfTwo(outcome, "PROMOTED", "REVERTED");
    if outcome in {Str(Ascii("ABORTED")), Str(Ascii("NOOP_ALREADY_PRESENT"))} { OutcomesDiffer(outcome); }
  }

  lemma SevenGiven(e: Value, names: seq<string>)
    requires |names| == 7
    ensures (forall i :: 0 <= i < |names| ==> !Nullish(Get(e, names[i]))) <==>
      && Given(e, names[0]) && Given(e, names[1]) && Given(e, names[2]) && Given(e, names[3]) && Given(e, names[4])
      && Given(e, names[5]) && Given(e, names[6])
  {
  }

  lemma RequiredGiven(e: Value)
    ensures (forall i :: 0 <= i < |ENTRY_REQUIRED| ==> !Nullish(Get(e, ENTRY_REQUIRED[i]))) <==>
      && Given(e, "schema_version") && Given(e, "entry_id") && Given(e, "promoted_sha") && Given(e, "pre_state_hash")
      && Given(e, "worktree_root") && Given(e, "outcome") && Given(e, "timestamp_iso")
  {
    SevenGiven(e, ENTRY_REQUIRED);
  }

  lemma OneOfTwo(v: Value, a: string, b: string)
    ensures OneOf(v, [a, b]) <==> v in {Str(Ascii(a)), Str(Ascii(b))}
  {
    assert [a, b][0] == a && [a, b][1] == b;
  }

  lemma OneOfFour(v: Value, a: string, b: string, c: string, d: string)
    ensures OneOf(v, [a, b, c, d]) <==> v in {Str(Ascii(a)), Str(Ascii(b)), Str(Ascii(c)), Str(Ascii(d))}
  {
    var names := [a, b, c, d];
    assert names[0] == a && names[1] == b && names[2] == c && names[3] == d;
  }

  lemma OutcomesDiffer(outcome: Value)
    requires outcome in {Str(Ascii("ABORTED")), Str(Ascii("NOOP_ALREADY_PRESENT"))}
    ensures outcome !in {Str(Ascii("PROMOTED")), Str(Ascii("REVERTED"))}
  {
    AsciiDistinct("ABORTED", "PROMOTED");
    AsciiDistinct("ABORTED", "REVERTED");
    AsciiDistinct("NOOP_ALREADY_PRESENT", "PROMOTED");
    AsciiDistinct("NOOP_ALREADY_PRESENT", "REVERTED");
  }

  /** What goes wrong in one atomic write: nothing, an error or a crash, before or after the rename. */
  datatype Fault = NoFault | WriteFails | RenameFails | CrashWriting(kept: nat) | CrashBeforeRename | CrashAfterRename

  datatype Done = Finished | Threw | Crashed

  datatype Report = Invalid | LockContended | AppendedNow(lineCount: nat) | WriteThrew | Died

  datatype WalReport = WalWritten | WalSwallowed | WalThrew | WalDied

  class JournalFile {
    var file: Option<Bytes>
    var temp: Option<Bytes>

    constructor (file: Option<Bytes>)
      ensures this.file == file && temp == None
    {
      this.file := file;
      temp := None;
    }

    /** The file's bytes; none counts as empty. */
    function Contents(): Bytes
      reads this
    {
      if file.Some? then file.value else []
    }

    /** Temporary file, then rename: the file is the old one or the new one at every point. */
    method WriteAtomicString(text: Text, fault: Fault) returns (done: Done)
      modifies this
      ensures done.Finished? <==> fault.NoFault?
      ensures done.Threw? <==> fault.WriteFails? || fault.RenameFails?
      ensures file == if fault.NoFault? || fault.CrashAfterRename? then Some(Encode(text)) else old(file)
      ensures !done.Crashed? ==> temp == None
    {
      var bytes := Encode(text);
      match fault {
        case WriteFails => temp := None; return Threw;
        case CrashWriting(kept) => temp := Some(if kept <= |bytes| then bytes[..kept] else bytes); return Crashed;
        case _ =>
      }
      temp := Some(bytes);
      match fault {
        case CrashBeforeRename => return Crashed;
        case RenameFails => temp := None; return Threw;
        case _ =>
      }
      file, temp := temp, None;
      return if fault.CrashAfterRename? then Crashed else Finished;
    }

    /**
     Validate, take the lock, read, normalize, write. When the new file lands, the prior bytes are its prefix exactly
     when they were read and are well-formed but for a stub, or could not be read and happen to be one; what is read
     of it afterwards is what was read before, the torn tail if it parses, and the entry.
     */
    method AppendJournalEntry(entry: Value, gotLock: bool, readable: bool, fault: Fault, ghost parse: Parser)
      returns (report: Report)
      requires WellFormed(entry) && ParsesNative(parse)
      modifies this
      ensures report.Invalid? <==> !ValidEntry(entry)
      ensures report.LockContended? <==> ValidEntry(entry) && !gotLock
      ensures report.AppendedNow? <==> ValidEntry(entry) && gotLock && fault.NoFault?
      ensures report.WriteThrew? <==> ValidEntry(entry) && gotLock && (fault.WriteFails? || fault.RenameFails?)
      ensures var lands := ValidEntry(entry) && gotLock && (fault.NoFault? || fault.CrashAfterRename?);
        var seen := if readable then old(Contents()) else [];
        && (!lands ==> file == old(file))
        && (lands ==>
              && file.Some?
              && (old(Contents()) <= file.value <==>
                    if readable then ValidButStub(old(Contents())) else old(Contents()) <= AppendEntry([], entry))
              && Entries(parse, Decode(file.value)) ==
                   Entries(parse, Decode(seen)) + TornEntry(parse, Decode(seen)) + [Image(entry)])
      ensures report.AppendedNow? ==> file.Some? && report.lineCount == |LinesOf(Decode(file.value))|
    {
      if !ValidEntry(entry) { return Invalid; }
      if !gotLock { return LockContended; }
      ghost var seen := if readable then Contents() else [];
      AppendKeepsPrefixIff(seen, entry);
      AppendedBytes(seen, entry);
      OneMore(parse, seen, entry);
      var prior := if file.Some? && readable then Decode(file.value) else [];
      var base := if prior != [] && !EndsLine(prior) then prior + [NEWLINE] else prior;
      var next := base + NativeText(entry) + [NEWLINE];
      assert Encode(next) == AppendEntry(seen, entry);
      var done := WriteAtomicString(next, fault);
      match done {
        case Finished => return AppendedNow(|LinesOf(next)|);
        case Threw => return WriteThrew;
        case Crashed => return Died;
      }
    }

    /** The same append without validation or lock, as the write-ahead log does it; an empty path is refused. */
    method AppendWalRecord(record: Value, hasPath: bool, failSoft: bool, readable: bool, fault: Fault)
      returns (report: WalReport)
      requires IsEntry(record)
      modifies this
      ensures report == (if hasPath && fault.NoFault? then WalWritten
                         else if !hasPath || fault.WriteFails? || fault.RenameFails? then
                           (if failSoft then WalSwallowed else WalThrew)
                         else WalDied)
      ensures var lands := hasPath && (fault.NoFault? || fault.CrashAfterRename?);
        var seen := if readable then old(Contents()) else [];
        && (!lands ==> file == old(file))
        && (lands ==>
              && file == Some(AppendEntry(seen, record))
              && (old(Contents()) <= file.value <==>
                    if readable then ValidButStub(old(Contents())) else old(Contents()) <= AppendEntry([], record)))
    {
      if !hasPath { return if failSoft then WalSwallowed else WalThrew; }
      ghost var seen := if readable then Contents() else [];
      AppendKeepsPrefixIff(seen, record);
      var prior := if file.Some? && readable then Decode(file.value) else [];
      var done := WriteAtomicString(Base(prior) + NativeText(record) + [NEWLINE], fault);
      match done {
        case Finished => return WalWritten;
        case Threw => return if failSoft then WalSwallowed else WalThrew;
        case Crashed => return WalDied;
      }
    }
  }
}
