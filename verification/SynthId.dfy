/** Printing and parsing of identities: `persona.name[~hash][/r:run[:d<depth>][:p=parent#hash]]`. */
module SynthId {
  import opened Wrappers
  import opened Json

  const MAX_SYNTHID_LEN: nat := 512

  /** Whole numbers up to here are exact as doubles and print as plain decimals. */
  const MAX_EXACT: nat := 0x20_0000_0000_0000

  const DOT: CodeUnit := 46
  const TILDE: CodeUnit := 126
  const SLASH: CodeUnit := 47
  const HYPHEN: CodeUnit := 45
  const HASH: CodeUnit := 35
  const RUN_MARK: Text := [47, 114, 58]
  const DEPTH_MARK: Text := [58, 100]
  const PARENT_MARK: Text := [58, 112, 61]

  // ---------------------------------------------------------------- the pattern

  predicate PersonaUnit(c: CodeUnit) { c != DOT && c != TILDE && c != SLASH }
  predicate NameUnit(c: CodeUnit) { c != TILDE && c != SLASH }
  predicate HexUnit(c: CodeUnit) { 48 <= c <= 57 || 97 <= c <= 102 }
  predicate RunUnit(c: CodeUnit) { 48 <= c <= 57 || 65 <= c <= 90 || 97 <= c <= 122 }
  predicate ParentUnit(c: CodeUnit) { c != HASH }

  predicate All(p: CodeUnit -> bool, t: Text) { forall i :: 0 <= i < |t| ==> p(t[i]) }
  predicate AtLeastOne(p: CodeUnit -> bool, t: Text) { t != [] && All(p, t) }

  /** One or more runs without a hyphen, single hyphens between them. */
  predicate IsPersona(t: Text) {
    && AtLeastOne(PersonaUnit, t)
    && t[0] != HYPHEN && t[|t| - 1] != HYPHEN
    && forall i :: 0 <= i < |t| - 1 ==> !(t[i] == HYPHEN && t[i + 1] == HYPHEN)
  }

  /** The groups of a match. */
  datatype RunGroups = RunGroups(runId: Text, depth: Option<Text>, parent: Option<Text>, parentHash: Option<Text>)
  datatype Groups = Groups(persona: Text, name: Text, contentHash: Option<Text>, run: Option<RunGroups>)

  predicate RunOk(r: RunGroups) {
    && AtLeastOne(RunUnit, r.runId)
    && (r.depth.Some? ==> AtLeastOne(IsDigit, r.depth.value))
    && (r.parent.Some? <==> r.parentHash.Some?)
    && (r.parent.Some? ==> AtLeastOne(ParentUnit, r.parent.value) && AtLeastOne(HexUnit, r.parentHash.value))
  }

  predicate GroupsOk(g: Groups) {
    && IsPersona(g.persona)
    && AtLeastOne(NameUnit, g.name)
    && (g.contentHash.Some? ==> |g.contentHash.value| == 8 && All(HexUnit, g.contentHash.value))
    && (g.run.Some? ==> RunOk(g.run.value))
  }

  function HashText(h: Option<Text>): Text { match h case None => [] case Some(t) => [TILDE] + t }
  function DepthText(d: Option<Text>): Text { match d case None => [] case Some(t) => DEPTH_MARK + t }

  function ParentText(r: RunGroups): Text {
    if r.parent.Some? && r.parentHash.Some? then PARENT_MARK + r.parent.value + [HASH] + r.parentHash.value else []
  }

  function RunText(r: Option<RunGroups>): Text {
    match r
    case None => []
    case Some(g) => RUN_MARK + (g.runId + (DepthText(g.depth) + ParentText(g)))
  }

  function GroupsText(g: Groups): Text {
    g.persona + ([DOT] + (g.name + (HashText(g.contentHash) + RunText(g.run))))
  }

  /** The regular expression as a relation between strings and groups. */
  predicate Matches(s: Text, g: Groups) { GroupsOk(g) && s == GroupsText(g) }

  // ---------------------------------------------------------------- matching from the left

  function Span(p: CodeUnit -> bool, t: Text): (n: nat)
    ensures n <= |t| && forall i :: 0 <= i < n ==> p(t[i])
    ensures n < |t| ==> !p(t[n])
  {
    if t == [] || !p(t[0]) then 0 else 1 + Span(p, t[1..])
  }

  lemma {:induction false} SpanOf(p: CodeUnit -> bool, a: Text, b: Text)
    requires All(p, a) && (b == [] || !p(b[0]))
    ensures Span(p, a + b) == |a| && (a + b)[..|a|] == a && (a + b)[|a|..] == b
  {
    if a == [] {
      assert a + b == b;
    } else {
      assert (a + b)[1..] == a[1..] + b;
      SpanOf(p, a[1..], b);
    }
  }

  function MatchParent(t: Text): Option<(Option<Text>, Option<Text>)> {
    if t == [] then Some((None, None))
    else if !StartsWith(t, PARENT_MARK) then None
    else
      var z := t[3..];
      var n := Span(ParentUnit, z);
      if n == 0 || n == |z| || !AtLeastOne(HexUnit, z[n + 1..]) then None
      else Some((Some(z[..n]), Some(z[n + 1..])))
  }

  /** The optional depth, and what follows it. */
  function MatchDepth(t: Text): Option<(Option<Text>, Text)> {
    if !StartsWith(t, DEPTH_MARK) then Some((None, t))
    else
      var n := Span(IsDigit, t[2..]);
      if n == 0 then None else Some((Some(t[2..][..n]), t[2..][n..]))
  }

  function MatchRun(t: Text): Option<Option<RunGroups>> {
    if t == [] then Some(None)
    else if !StartsWith(t, RUN_MARK) then None
    else
      var v := t[3..];
      var n := Span(RunUnit, v);
      if n == 0 then None
      else match MatchDepth(v[n..])
        case None => None
        case Some((depth, rest)) =>
          match MatchParent(rest)
          case None => None
          case Some((parent, parentHash)) => Some(Some(RunGroups(v[..n], depth, parent, parentHash)))
  }

  /** The optional hash, and what follows it. */
  function MatchHash(t: Text): Option<(Option<Text>, Text)> {
    if t == [] || t[0] != TILDE then Some((None, t))
    else if |t| < 9 || !All(HexUnit, t[1..9]) then None
    else Some((Some(t[1..9]), t[9..]))
  }

  datatype Rest = Rest(name: Text, contentHash: Option<Text>, run: Option<RunGroups>)

  function RestText(r: Rest): Text { r.name + (HashText(r.contentHash) + RunText(r.run)) }

  /** What follows the dot. */
  function MatchRest(t: Text): Option<Rest> {
    var m := Span(NameUnit, t);
    if m == 0 then None
    else match MatchHash(t[m..])
      case None => None
      case Some((hash, rest)) =>
        match MatchRun(rest)
        case None => None
        case Some(run) => Some(Rest(t[..m], hash, run))
  }

  function MatchGroups(s: Text): Option<Groups> {
    var n := Span(PersonaUnit, s);
    if n == |s| || s[n] != DOT || !IsPersona(s[..n]) then None
    else match MatchRest(s[n + 1..])
      case None => None
      case Some(r) => Some(Groups(s[..n], r.name, r.contentHash, r.run))
  }

  // ---------------------------------------------------------------- the match is exact

  lemma SkipMark(mark: Text, rest: Text)
    ensures StartsWith(mark + rest, mark) && (mark + rest)[|mark|..] == rest
  {
  }

  lemma MatchParentComplete(r: RunGroups)
    requires RunOk(r)
    ensures MatchParent(ParentText(r)) == Some((r.parent, r.parentHash))
  {
    if r.parent.Some? {
      var tail := [HASH] + r.parentHash.value;
      assert ParentText(r) == PARENT_MARK + (r.parent.value + tail);
      SkipMark(PARENT_MARK, r.parent.value + tail);
      SpanOf(ParentUnit, r.parent.value, tail);
      assert (r.parent.value + tail)[|r.parent.value| + 1..] == r.parentHash.value;
    }
  }

  lemma MatchParentSound(t: Text)
    requires MatchParent(t).Some?
    ensures var m := MatchParent(t).value;
      && (m.0.Some? <==> m.1.Some?)
      && (m.0.Some? ==> AtLeastOne(ParentUnit, m.0.value) && AtLeastOne(HexUnit, m.1.value)
                        && t == PARENT_MARK + m.0.value + [HASH] + m.1.value)
      && (m.0.None? ==> t == [])
  {
    if t != [] {
      var z := t[3..];
      var n := Span(ParentUnit, z);
      assert z == z[..n] + [HASH] + z[n + 1..];
      assert t == PARENT_MARK + z;
    }
  }

  lemma ParentTextStart(r: RunGroups)
    ensures ParentText(r) == [] || (|ParentText(r)| > 2 && ParentText(r)[0] == 58 && ParentText(r)[1] == 112)
  {
    if ParentText(r) != [] {
      assert ParentText(r)[..3] == PARENT_MARK;
    }
  }

  lemma NoDepthMark(rest: Text)
    requires rest == [] || (|rest| > 1 && rest[1] == 112)
    ensures !StartsWith(rest, DEPTH_MARK)
  {
    if |rest| > 1 { assert rest[..2][1] == 112 && DEPTH_MARK[1] == 100; }
  }

  lemma MatchDepthComplete(d: Option<Text>, rest: Text)
    requires d.Some? ==> AtLeastOne(IsDigit, d.value)
    requires rest == [] || (|rest| > 1 && rest[0] == 58 && rest[1] == 112)
    ensures MatchDepth(DepthText(d) + rest) == Some((d, rest))
  {
    match d
    case None =>
      assert DepthText(d) + rest == rest;
      NoDepthMark(rest);
    case Some(t) =>
      assert DepthText(d) + rest == DEPTH_MARK + (t + rest);
      SkipMark(DEPTH_MARK, t + rest);
      SpanOf(IsDigit, t, rest);
  }

  lemma MatchDepthSound(t: Text)
    requires MatchDepth(t).Some?
    ensures var m := MatchDepth(t).value;
      t == DepthText(m.0) + m.1 && (m.0.Some? ==> AtLeastOne(IsDigit, m.0.value))
  {
    if StartsWith(t, DEPTH_MARK) {
      var n := Span(IsDigit, t[2..]);
      assert t[2..] == t[2..][..n] + t[2..][n..];
      assert t == DEPTH_MARK + t[2..];
    }
  }

  lemma MatchRunComplete(r: Option<RunGroups>)
    requires r.Some? ==> RunOk(r.value)
    ensures MatchRun(RunText(r)) == Some(r)
  {
    if r.Some? {
      var g := r.value;
      var tail := DepthText(g.depth) + ParentText(g);
      SkipMark(RUN_MARK, g.runId + tail);
      RunTail(g);
      SpanOf(RunUnit, g.runId, tail);
      ParentTextStart(g);
      MatchDepthComplete(g.depth, ParentText(g));
      MatchParentComplete(g);
    }
  }

  lemma RunTail(g: RunGroups)
    ensures var tail := DepthText(g.depth) + ParentText(g); tail == [] || tail[0] == 58
  {
    ParentTextStart(g);
  }

  lemma MatchRunSound(t: Text)
    requires MatchRun(t).Some?
    ensures MatchRun(t).value.Some? ==> RunOk(MatchRun(t).value.value)
    ensures t == RunText(MatchRun(t).value)
  {
    if t != [] {
      var v := t[3..];
      var n := Span(RunUnit, v);
      var depth := MatchDepth(v[n..]).value;
      var parent := MatchParent(depth.1).value;
      MatchDepthSound(v[n..]);
      MatchParentSound(depth.1);
      Cut(v, n);
      Cut(t, 3);
      assert depth.1 == ParentText(RunGroups(v[..n], depth.0, parent.0, parent.1));
    }
  }

  lemma Cut<T>(t: seq<T>, n: nat)
    requires n <= |t|
    ensures t == t[..n] + t[n..]
  {
  }

  lemma RunTextStart(r: Option<RunGroups>)
    ensures RunText(r) == [] || RunText(r)[0] == SLASH
  {
    if r.Some? { assert RunText(r)[..3] == RUN_MARK; }
  }

  lemma MatchHashComplete(h: Option<Text>, rest: Text)
    requires h.Some? ==> |h.value| == 8 && All(HexUnit, h.value)
    requires rest == [] || rest[0] == SLASH
    ensures MatchHash(HashText(h) + rest) == Some((h, rest))
  {
    match h
    case None => assert HashText(h) + rest == rest;
    case Some(t) =>
      var u := HashText(h) + rest;
      assert u[1..9] == t && u[9..] == rest && u[0] == TILDE;
  }

  lemma MatchHashSound(t: Text)
    requires MatchHash(t).Some?
    ensures var m := MatchHash(t).value;
      t == HashText(m.0) + m.1 && (m.0.Some? ==> |m.0.value| == 8 && All(HexUnit, m.0.value))
  {
    if t != [] && t[0] == TILDE {
      assert t == [TILDE] + t[1..9] + t[9..];
    }
  }

  predicate RestOk(r: Rest) {
    && AtLeastOne(NameUnit, r.name)
    && (r.contentHash.Some? ==> |r.contentHash.value| == 8 && All(HexUnit, r.contentHash.value))
    && (r.run.Some? ==> RunOk(r.run.value))
  }

  lemma MatchRestComplete(r: Rest)
    requires RestOk(r)
    ensures MatchRest(RestText(r)) == Some(r)
  {
    var run := RunText(r.run);
    RunTextStart(r.run);
    SpanOf(NameUnit, r.name, HashText(r.contentHash) + run);
    MatchHashComplete(r.contentHash, run);
    MatchRunComplete(r.run);
  }

  lemma MatchRestSound(t: Text)
    requires MatchRest(t).Some?
    ensures RestOk(MatchRest(t).value) && t == RestText(MatchRest(t).value)
  {
    var m := Span(NameUnit, t);
    MatchHashSound(t[m..]);
    MatchRunSound(MatchHash(t[m..]).value.1);
    Cut(t, m);
  }

  lemma MatchComplete(g: Groups)
    requires GroupsOk(g)
    ensures MatchGroups(GroupsText(g)) == Some(g)
  {
    var r := Rest(g.name, g.contentHash, g.run);
    SpanOf(PersonaUnit, g.persona, [DOT] + RestText(r));
    assert (g.persona + ([DOT] + RestText(r)))[|g.persona| + 1..] == RestText(r);
    MatchRestComplete(r);
  }

  lemma MatchSound(s: Text)
    requires MatchGroups(s).Some?
    ensures Matches(s, MatchGroups(s).value)
  {
    var n := Span(PersonaUnit, s);
    MatchRestSound(s[n + 1..]);
    CutAtDot(s, n);
  }

  lemma CutAtDot(s: Text, n: nat)
    requires n < |s| && s[n] == DOT
    ensures s == s[..n] + ([DOT] + s[n + 1..])
  {
  }

  /** The scan finds the groups of the match, and there is one exactly when the pattern matches. */
  lemma MatchIsExact(s: Text, g: Groups)
    ensures MatchGroups(s) == Some(g) <==> Matches(s, g)
  {
    if Matches(s, g) { MatchComplete(g); }
    if MatchGroups(s) == Some(g) { MatchSound(s); }
  }

  // ---------------------------------------------------------------- numbers

  function Decimal(n: nat): (t: Text)
    ensures t != [] && All(IsDigit, t)
  {
    if n < 10 then [48 + n] else Decimal(n / 10) + [48 + n % 10]
  }

  function Value(t: Text): nat
    requires All(IsDigit, t)
  {
    if t == [] then 0 else 10 * Value(t[..|t| - 1]) + (t[|t| - 1] - 48)
  }

  lemma ValueOfDecimal(n: nat)
    ensures Value(Decimal(n)) == n
  {
    if n >= 10 {
      var t := Decimal(n);
      assert t[..|t| - 1] == Decimal(n / 10);
      ValueOfDecimal(n / 10);
    } else {
      assert Value([48 + n][..0]) == 0;
    }
  }

  /** Digits as a positive number is written. */
  predicate Canonical(t: Text) { t != [] && t[0] != 48 }

  lemma {:induction false} DecimalCanonical(n: nat)
    requires n > 0
    ensures Canonical(Decimal(n))
  {
    if n >= 10 { DecimalCanonical(n / 10); }
  }

  lemma LastDigit(v: nat, d: nat)
    requires v > 0 && d < 10
    ensures Decimal(10 * v + d) == Decimal(v) + [48 + d]
  {
  }

  lemma {:induction false} DecimalOfValue(t: Text)
    requires AtLeastOne(IsDigit, t) && Canonical(t)
    ensures Value(t) > 0 && Decimal(Value(t)) == t
  {
    var n := |t| - 1;
    if n == 0 {
      assert Value(t[..0]) == 0;
    } else {
      var init, d := t[..n], t[n] - 48;
      DecimalOfValue(init);
      LastDigit(Value(init), d);
      assert t == init + [t[n]];
    }
  }

  /** How digits become a number and a number prints; both are exact up to MAX_EXACT. */
  datatype Numbers = Numbers(read: nat -> nat, show: nat -> Text)

  ghost predicate Faithful(k: Numbers) {
    forall n: nat :: n <= MAX_EXACT ==> k.read(n) == n && k.show(n) == Decimal(n)
  }

  // ---------------------------------------------------------------- parts

  datatype Lineage = Lineage(runId: Text, depth: nat, parent: Option<Text>, parentHash: Option<Text>)
  datatype Parts = Parts(persona: Text, name: Text, contentHash: Option<Text>, lineage: Option<Lineage>)

  function LineageOf(k: Numbers, r: RunGroups): Lineage
    requires RunOk(r)
  {
    Lineage(r.runId, if r.depth.Some? then k.read(Value(r.depth.value)) else 0, r.parent, r.parentHash)
  }

  function ParseSynthId(k: Numbers, s: Text): Option<Parts> {
    if s == [] || |s| > MAX_SYNTHID_LEN then None
    else match MatchGroups(s)
      case None => None
      case Some(g) =>
        MatchSound(s);
        Some(Parts(g.persona, g.name, g.contentHash, if g.run.Some? then Some(LineageOf(k, g.run.value)) else None))
  }

  predicate Truthy(t: Option<Text>) { t.Some? && t.value != [] }

  function FormatLineage(k: Numbers, l: Option<Lineage>): Text {
    if l.Some? && l.value.runId != [] then
      RUN_MARK + l.value.runId
      + (if l.value.depth > 0 then DEPTH_MARK + k.show(l.value.depth) else [])
      + (if Truthy(l.value.parent) && Truthy(l.value.parentHash)
         then PARENT_MARK + l.value.parent.value + [HASH] + l.value.parentHash.value else [])
    else []
  }

  function Format(k: Numbers, p: Parts): Text {
    p.persona + [DOT] + p.name + (if Truthy(p.contentHash) then [TILDE] + p.contentHash.value else [])
    + FormatLineage(k, p.lineage)
  }

  /** Appends part after part; a missing persona or name throws. */
  method FormatSynthId(k: Numbers, p: Parts) returns (r: Option<Text>)
    ensures r == if p.persona == [] || p.name == [] then None else Some(Format(k, p))
  {
    if p.persona == [] || p.name == [] { return None; }
    var id := p.persona + [DOT] + p.name;
    if Truthy(p.contentHash) { id := id + ([TILDE] + p.contentHash.value); } else { assert id == id + []; }
    if p.lineage.Some? && p.lineage.value.runId != [] {
      var run := FormatRun(k, p.lineage.value);
      id := id + run;
    } else {
      assert id == id + FormatLineage(k, p.lineage);
    }
    return Some(id);
  }

  method FormatRun(k: Numbers, l: Lineage) returns (run: Text)
    requires l.runId != []
    ensures run == FormatLineage(k, Some(l))
  {
    run := RUN_MARK + l.runId;
    if l.depth > 0 { run := run + (DEPTH_MARK + k.show(l.depth)); }
    if Truthy(l.parent) && Truthy(l.parentHash) {
      run := run + (PARENT_MARK + l.parent.value + [HASH] + l.parentHash.value);
    }
  }

  predicate PartsOk(p: Parts) {
    && IsPersona(p.persona)
    && AtLeastOne(NameUnit, p.name)
    && (p.contentHash.Some? ==> |p.contentHash.value| == 8 && All(HexUnit, p.contentHash.value))
    && (p.lineage.Some? ==>
          var l := p.lineage.value;
          && l.depth <= MAX_EXACT
          && RunOk(RunGroups(l.runId, None, l.parent, l.parentHash)))
  }

  /** The groups that well-formed parts print as. */
  function GroupsOf(p: Parts): Groups {
    Groups(p.persona, p.name, p.contentHash,
           match p.lineage
           case None => None
           case Some(l) => Some(RunOf(l)))
  }

  function RunOf(l: Lineage): RunGroups {
    RunGroups(l.runId, if l.depth > 0 then Some(Decimal(l.depth)) else None, l.parent, l.parentHash)
  }

  lemma LineageOfRun(k: Numbers, l: Lineage)
    requires Faithful(k) && l.depth <= MAX_EXACT && RunOk(RunOf(l))
    ensures LineageOf(k, RunOf(l)) == l
  {
    ValueOfDecimal(l.depth);
  }

  lemma FormatRunText(k: Numbers, l: Lineage)
    requires Faithful(k) && l.depth <= MAX_EXACT && l.runId != [] && (l.parent.Some? <==> l.parentHash.Some?)
    requires l.parent.Some? ==> l.parent.value != [] && l.parentHash.value != []
    ensures FormatLineage(k, Some(l)) == RunText(Some(RunOf(l)))
  {
    var r := RunOf(l);
    Regrouped(RUN_MARK, l.runId, DepthText(r.depth), ParentText(r));
  }

  lemma Regrouped(a: Text, b: Text, c: Text, d: Text)
    ensures a + b + c + d == a + (b + (c + d))
  {
  }

  lemma GroupsOfOk(p: Parts)
    requires PartsOk(p)
    ensures GroupsOk(GroupsOf(p))
  {
  }

  lemma FormatIsGroupsText(k: Numbers, p: Parts)
    requires Faithful(k) && PartsOk(p)
    ensures GroupsOk(GroupsOf(p)) && Format(k, p) == GroupsText(GroupsOf(p))
  {
    GroupsOfOk(p);
    if p.lineage.Some? { FormatRunText(k, p.lineage.value); }
    RegroupedFive(p.persona, [DOT], p.name, HashText(p.contentHash), RunText(GroupsOf(p).run));
  }

  lemma RegroupedFive(a: Text, b: Text, c: Text, d: Text, e: Text)
    ensures a + b + c + d + e == a + (b + (c + (d + e)))
  {
  }

  /** Parsing what well-formed parts print as, within the length cap, gives the parts back. */
  lemma ParseUndoesFormat(k: Numbers, p: Parts)
    requires Faithful(k) && PartsOk(p) && |Format(k, p)| <= 512
    ensures ParseSynthId(k, Format(k, p)) == Some(p)
  {
    var g := GroupsOf(p);
    FormatIsGroupsText(k, p);
    MatchComplete(g);
    assert p == Parts(p.persona, p.name, p.contentHash, p.lineage);
    if p.lineage.Some? { LineageOfRun(k, p.lineage.value); }
    var s := Format(k, p);
    assert s != [];
  }

  /** The depth as it is written in a matching string. */
  function DepthGroup(s: Text): Option<Text> {
    match MatchGroups(s)
    case None => None
    case Some(g) => if g.run.Some? then g.run.value.depth else None
  }

  predicate ExactDepth(s: Text) {
    match DepthGroup(s) case None => true case Some(d) => All(IsDigit, d) && Value(d) <= MAX_EXACT
  }

  /** A parse succeeds exactly for nonempty strings within the cap that match the pattern. */
  lemma ParsesIffMatches(k: Numbers, s: Text)
    ensures ParseSynthId(k, s).Some? <==> s != [] && |s| <= 512 && exists g :: Matches(s, g)
  {
    if g :| Matches(s, g) { MatchIsExact(s, g); }
    if MatchGroups(s).Some? { MatchSound(s); }
  }

  /** Printing parsed parts gives the string back exactly when the depth is absent or written as a positive number is. */
  lemma FormatUndoesParse(k: Numbers, s: Text)
    requires Faithful(k) && ParseSynthId(k, s).Some? && ExactDepth(s)
    ensures PartsOk(ParseSynthId(k, s).value)
    ensures Format(k, ParseSynthId(k, s).value) == s <==> DepthGroup(s).None? || Canonical(DepthGroup(s).value)
  {
    var p, g := ParseSynthId(k, s).value, MatchGroups(s).value;
    MatchSound(s);
    FormatIsGroupsText(k, p);
    var back := GroupsOf(p);
    match DepthGroup(s)
    case None => assert back == g;
    case Some(d) =>
      if Canonical(d) {
        DecimalOfValue(d);
        assert back == g;
      } else {
        if back == g { DecimalCanonical(Value(d)); }
        if Format(k, p) == s { MatchIsExact(s, back); }
      }
  }

  // ---------------------------------------------------------------- the pattern, character by character

  function Code(c: char): CodeUnit
    requires c < '\U{80}'
  {
    c as int
  }

  lemma ClassesSpelled(c: CodeUnit)
    ensures PersonaUnit(c) <==> c !in {Code('.'), Code('~'), Code('/')}
    ensures NameUnit(c) <==> c !in {Code('~'), Code('/')}
    ensures HexUnit(c) <==> Code('0') <= c <= Code('9') || Code('a') <= c <= Code('f')
    ensures RunUnit(c) <==>
      Code('0') <= c <= Code('9') || Code('A') <= c <= Code('Z') || Code('a') <= c <= Code('z')
    ensures IsDigit(c) <==> Code('0') <= c <= Code('9')
    ensures ParentUnit(c) <==> c != Code('#')
  {
  }

  /** Hyphens inside a persona stand between other characters, one at a time. */
  lemma PersonaSpelled(t: Text)
    ensures IsPersona(t) <==>
      && t != [] && (forall i :: 0 <= i < |t| ==> t[i] !in {Code('.'), Code('~'), Code('/')})
      && forall i :: 0 <= i < |t| && t[i] == Code('-') ==> 0 < i < |t| - 1 && t[i + 1] != Code('-')
  {
    if t != [] && (forall i :: 0 <= i < |t| ==> t[i] !in {Code('.'), Code('~'), Code('/')})
       && forall i :: 0 <= i < |t| && t[i] == Code('-') ==> 0 < i < |t| - 1 && t[i + 1] != Code('-')
    {
      assert t[0] != HYPHEN && t[|t| - 1] != HYPHEN;
    }
  }

  lemma RunTextSpelled(r: RunGroups)
    requires RunOk(r)
    ensures RunText(Some(r)) ==
      [Code('/'), Code('r'), Code(':')] + r.runId
      + (if r.depth.Some? then [Code(':'), Code('d')] + r.depth.value else [])
      + (if r.parent.Some? then [Code(':'), Code('p'), Code('=')] + r.parent.value + [Code('#')] + r.parentHash.value else [])
  {
    Regrouped(RUN_MARK, r.runId, DepthText(r.depth), ParentText(r));
  }

  /** The text of a match: the parts with their marks. */
  lemma GroupsTextSpelled(g: Groups)
    requires GroupsOk(g)
    ensures GroupsText(g) ==
      g.persona + [Code('.')] + g.name + (if g.contentHash.Some? then [Code('~')] + g.contentHash.value else [])
      + RunText(g.run)
  {
    RegroupedFive(g.persona, [DOT], g.name, HashText(g.contentHash), RunText(g.run));
  }

  /** What a parse returns: the groups of the match, the depth as a number, 0 when it is absent. */
  lemma ParsedSpelled(k: Numbers, s: Text)
    requires ParseSynthId(k, s).Some?
    ensures |s| <= 512
    ensures exists g :: Matches(s, g) && var p := ParseSynthId(k, s).value;
      && p.persona == g.persona && p.name == g.name && p.contentHash == g.contentHash
      && (p.lineage.Some? <==> g.run.Some?)
      && (g.run.Some? ==>
            var l, r := p.lineage.value, g.run.value;
            && l.runId == r.runId && l.parent == r.parent && l.parentHash == r.parentHash
            && l.depth == (if r.depth.Some? then k.read(Value(r.depth.value)) else 0))
  {
    MatchSound(s);
    assert Matches(s, MatchGroups(s).value);
  }
}
