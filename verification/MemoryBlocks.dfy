/**
 The block model of a memory file: fence-aware splitting at headings, anchors, and the outline that
 splitting and joining go through. A file is the sequence of its lines; empty text is one empty line.
 */
module MemoryBlocks {
  import opened Wrappers

  type Line = string

  // ---------------------------------------------------------------- characters

  /** The whitespace of JavaScript's `\s` and `trim`. */
  predicate IsSpace(c: char) {
    var n := c as int;
    || 9 <= n <= 13 || n == 32 || n == 0xA0 || n == 0x1680 || 0x2000 <= n <= 0x200A
    || n == 0x2028 || n == 0x2029 || n == 0x202F || n == 0x205F || n == 0x3000 || n == 0xFEFF
  }

  /** Line terminators, which the regex dot does not match. */
  predicate IsTerminator(c: char) {
    c == '\n' || c == '\r' || c as int == 0x2028 || c as int == 0x2029
  }

  function RunLength(c: char, s: string): (n: nat)
    ensures n <= |s|
  {
    if s == [] || s[0] != c then 0 else 1 + RunLength(c, s[1..])
  }

  function TrimStart(s: string): string {
    if s == [] || !IsSpace(s[0]) then s else TrimStart(s[1..])
  }

  function TrimEnd(s: string): string {
    if s == [] || !IsSpace(s[|s| - 1]) then s else TrimEnd(s[..|s| - 1])
  }

  predicate IsBlank(line: Line) { forall i :: 0 <= i < |line| ==> IsSpace(line[i]) }

  // ---------------------------------------------------------------- anchors

  /** Lower-casing followed by the filter on letters, digits, space, underscore and hyphen. */
  function LowerKept(c: char): string {
    if 'A' <= c <= 'Z' then [(c as int + 32) as char]
    else if 'a' <= c <= 'z' || '0' <= c <= '9' || c == ' ' || c == '_' || c == '-' then [c]
    else if c as int == 0x212A then ['k']   // the Kelvin sign lower-cases to k
    else if c as int == 0x0130 then ['i']   // dotted capital I lower-cases to i and a combining dot
    else []
  }

  function KeepLower(s: string): string {
    if s == [] then [] else LowerKept(s[0]) + KeepLower(s[1..])
  }

  /** Runs of spaces and underscores become one hyphen. */
  function DashSpaces(s: string): string {
    if s == [] then []
    else if s[0] != ' ' && s[0] != '_' then [s[0]] + DashSpaces(s[1..])
    else if |s| > 1 && (s[1] == ' ' || s[1] == '_') then DashSpaces(s[1..])
    else ['-'] + DashSpaces(s[1..])
  }

  function CollapseDashes(s: string): string {
    if s == [] then []
    else if s[0] == '-' && |s| > 1 && s[1] == '-' then CollapseDashes(s[1..])
    else [s[0]] + CollapseDashes(s[1..])
  }

  function StripDashes(s: string): string {
    var t := if s != [] && s[0] == '-' then s[1..] else s;
    if t != [] && t[|t| - 1] == '-' then t[..|t| - 1] else t
  }

  function Slugify(s: string): string {
    StripDashes(CollapseDashes(DashSpaces(TrimEnd(TrimStart(KeepLower(s))))))
  }

  predicate IsSlugChar(c: char) { 'a' <= c <= 'z' || '0' <= c <= '9' || c == '-' }

  predicate NoDoubleDash(s: string) {
    forall i :: 0 <= i < |s| - 1 ==> !(s[i] == '-' && s[i + 1] == '-')
  }

  /** The shape of every anchor. */
  predicate IsSlug(s: string) {
    && (forall i :: 0 <= i < |s| ==> IsSlugChar(s[i]))
    && NoDoubleDash(s)
    && (s != [] ==> s[0] != '-' && s[|s| - 1] != '-')
  }

  predicate IsKept(c: char) { IsSlugChar(c) || c == ' ' || c == '_' }

  predicate AllKept(s: string) { forall i :: 0 <= i < |s| ==> IsKept(s[i]) }

  predicate AllSlugChars(s: string) { forall i :: 0 <= i < |s| ==> IsSlugChar(s[i]) }

  lemma KeepLowerKept(s: string)
    ensures AllKept(KeepLower(s))
  {
    if s != [] {
      KeepLowerKept(s[1..]);
      var c := s[0];
      assert AllKept(LowerKept(c));
    }
  }

  lemma TrimKept(s: string)
    requires AllKept(s)
    ensures AllKept(TrimStart(s)) && AllKept(TrimEnd(s))
  {
  }

  lemma DashSpacesChars(s: string)
    requires AllKept(s)
    ensures AllSlugChars(DashSpaces(s))
  {
  }

  lemma CollapseDashesShape(s: string)
    requires AllSlugChars(s)
    ensures AllSlugChars(CollapseDashes(s)) && NoDoubleDash(CollapseDashes(s))
    ensures s != [] ==> CollapseDashes(s) != [] && CollapseDashes(s)[0] == s[0]
  {
  }

  lemma DropFirst(s: string)
    requires AllSlugChars(s) && NoDoubleDash(s)
    ensures var t := if s != [] && s[0] == '-' then s[1..] else s;
      AllSlugChars(t) && NoDoubleDash(t) && (t != [] ==> t[0] != '-')
  {
    if s != [] && s[0] == '-' {
      var t := s[1..];
      forall i | 0 <= i < |t| - 1 ensures !(t[i] == '-' && t[i + 1] == '-') {
        assert !(s[i + 1] == '-' && s[i + 1 + 1] == '-');
      }
      if t != [] { assert !(s[0] == '-' && s[0 + 1] == '-'); }
    }
  }

  lemma DropLast(t: string)
    requires AllSlugChars(t) && NoDoubleDash(t) && (t != [] ==> t[0] != '-')
    ensures IsSlug(if t != [] && t[|t| - 1] == '-' then t[..|t| - 1] else t)
  {
    if t != [] && t[|t| - 1] == '-' {
      var r := t[..|t| - 1];
      if r != [] {
        var k := |r| - 1;
        assert t[k + 1] == '-';
        assert t[k] != '-';
      }
    }
  }

  lemma StripDashesSlug(s: string)
    requires AllSlugChars(s) && NoDoubleDash(s)
    ensures IsSlug(StripDashes(s))
  {
    DropFirst(s);
    DropLast(if s != [] && s[0] == '-' then s[1..] else s);
  }

  lemma SlugifyIsSlug(s: string)
    ensures IsSlug(Slugify(s))
  {
    var a := KeepLower(s);
    KeepLowerKept(s);
    TrimKept(a);
    TrimKept(TrimStart(a));
    var b := TrimEnd(TrimStart(a));
    DashSpacesChars(b);
    CollapseDashesShape(DashSpaces(b));
    StripDashesSlug(CollapseDashes(DashSpaces(b)));
  }

  lemma KeepLowerSlug(s: string)
    requires AllSlugChars(s)
    ensures KeepLower(s) == s && DashSpaces(s) == s && TrimStart(s) == s && TrimEnd(s) == s
  {
    if s != [] {
      KeepLowerSlug(s[1..]);
      assert s == [s[0]] + s[1..];
    }
  }

  lemma CollapseDashesSlug(s: string)
    requires NoDoubleDash(s)
    ensures CollapseDashes(s) == s
  {
    if s != [] {
      assert forall i :: 0 <= i < |s[1..]| ==> s[1..][i] == s[i + 1];
      CollapseDashesSlug(s[1..]);
      assert s == [s[0]] + s[1..];
      if |s| > 1 { assert !(s[0] == '-' && s[0 + 1] == '-'); }
    }
  }

  /** Anchors are fixed points, so a printed anchor resolves to what it was printed from. */
  lemma SlugifyIdempotent(s: string)
    ensures Slugify(Slugify(s)) == Slugify(s)
  {
    SlugifyIsSlug(s);
    var t := Slugify(s);
    KeepLowerSlug(t);
    CollapseDashesSlug(t);
  }

  function SpaceRun(s: string): (n: nat)
    ensures n <= |s|
  {
    if s == [] || !IsSpace(s[0]) then 0 else 1 + SpaceRun(s[1..])
  }

  predicate IsDash(c: char) { c == '-' || c as int == 0x2013 || c as int == 0x2014 }

  /** A dash between spaces, or a colon before a space, starts here. */
  predicate SeparatorAt(s: string)
    requires s != []
  {
    || (s[0] == ':' && |s| > 1 && IsSpace(s[1]))
    || (var n := SpaceRun(s); n > 0 && n + 1 < |s| && IsDash(s[n]) && IsSpace(s[n + 1]))
  }

  /** The heading text before its first separator. */
  function Lead(s: string): string {
    if s == [] || SeparatorAt(s) then [] else [s[0]] + Lead(s[1..])
  }

  function ShortAnchorOf(title: string): string { Slugify(Lead(title)) }

  // ---------------------------------------------------------------- lines

  datatype Kind = FenceMark(marker: char, len: nat) | Heading(level: nat, title: string) | Plain

  /** Marker and length of a fence: zero to three spaces, then at least three backticks or tildes. */
  function FenceOf(line: Line): Option<(char, nat)> {
    var indent := RunLength(' ', line);
    var rest := line[indent..];
    if indent > 3 || rest == [] || (rest[0] != '`' && rest[0] != '~') then None
    else
      var n := RunLength(rest[0], rest);
      if n < 3 then None else Some((rest[0], n))
  }

  /** Level and title of a heading: one to six hashes, whitespace, text within one line. */
  function HeadingOf(line: Line): Option<(nat, string)> {
    var n := RunLength('#', line);
    if n < 1 || n > 6 || n == |line| || !IsSpace(line[n]) then None
    else
      var title := TrimEnd(TrimStart(line[n..]));
      if title == [] || exists i :: 0 <= i < |title| && IsTerminator(title[i]) then None
      else Some((n, title))
  }

  function KindOf(line: Line): Kind {
    match FenceOf(line)
    case Some((m, n)) => FenceMark(m, n)
    case None =>
      match HeadingOf(line)
      case Some((n, t)) => Heading(n, t)
      case None => Plain
  }

  datatype Fence = Closed | Open(marker: char, len: nat)

  /** A fence closes on the same marker at least as long; anything else inside is literal. */
  function NextFence(f: Fence, line: Line): Fence {
    match KindOf(line)
    case FenceMark(m, n) =>
      if f == Closed then Open(m, n)
      else if m == f.marker && n >= f.len then Closed
      else f
    case _ => f
  }

  function FenceAfter(f: Fence, lines: seq<Line>): Fence
    decreases lines
  {
    if lines == [] then f else FenceAfter(NextFence(f, lines[0]), lines[1..])
  }

  /** An unfenced heading that ends a block at this split level. */
  predicate IsBoundary(f: Fence, line: Line, level: nat) {
    f == Closed && KindOf(line).Heading? && KindOf(line).level <= level
  }

  predicate NoBoundary(f: Fence, lines: seq<Line>, level: nat)
    decreases lines
  {
    lines == [] || (!IsBoundary(f, lines[0], level) && NoBoundary(NextFence(f, lines[0]), lines[1..], level))
  }

  lemma {:induction false} FenceAfterConcat(f: Fence, a: seq<Line>, b: seq<Line>)
    ensures FenceAfter(f, a + b) == FenceAfter(FenceAfter(f, a), b)
    decreases a
  {
    if a == [] {
      assert a + b == b;
    } else {
      assert (a + b)[1..] == a[1..] + b;
      FenceAfterConcat(NextFence(f, a[0]), a[1..], b);
    }
  }

  lemma {:induction false} NoBoundaryConcat(f: Fence, a: seq<Line>, b: seq<Line>, level: nat)
    ensures NoBoundary(f, a + b, level) <==> NoBoundary(f, a, level) && NoBoundary(FenceAfter(f, a), b, level)
    decreases a
  {
    if a == [] {
      assert a + b == b;
    } else {
      assert (a + b)[1..] == a[1..] + b;
      NoBoundaryConcat(NextFence(f, a[0]), a[1..], b, level);
    }
  }

  // ---------------------------------------------------------------- outlines

  /** A boundary heading and the lines up to the next one; it is a block when its level is the split level. */
  datatype Piece = Piece(level: nat, title: string, lines: seq<Line>)

  datatype Outline = Outline(preamble: seq<Line>, pieces: seq<Piece>)

  datatype Scan = Scan(outline: Outline, fence: Fence)

  function AddLine(o: Outline, line: Line): Outline {
    if o.pieces == [] then o.(preamble := o.preamble + [line])
    else
      var n := |o.pieces| - 1;
      o.(pieces := o.pieces[..n] + [o.pieces[n].(lines := o.pieces[n].lines + [line])])
  }

  function ScanLine(st: Scan, line: Line, level: nat): Scan {
    var o :=
      if IsBoundary(st.fence, line, level)
      then st.outline.(pieces := st.outline.pieces + [Piece(KindOf(line).level, KindOf(line).title, [line])])
      else AddLine(st.outline, line);
    Scan(o, NextFence(st.fence, line))
  }

  function ScanLines(st: Scan, lines: seq<Line>, level: nat): Scan
    decreases lines
  {
    if lines == [] then st else ScanLines(ScanLine(st, lines[0], level), lines[1..], level)
  }

  const START := Scan(Outline([], []), Closed)

  function OutlineOf(lines: seq<Line>, level: nat): Outline { ScanLines(START, lines, level).outline }

  lemma {:induction false} ScanLinesConcat(st: Scan, a: seq<Line>, b: seq<Line>, level: nat)
    ensures ScanLines(st, a + b, level) == ScanLines(ScanLines(st, a, level), b, level)
    decreases a
  {
    if a == [] {
      assert a + b == b;
    } else {
      assert (a + b)[1..] == a[1..] + b;
      ScanLinesConcat(ScanLine(st, a[0], level), a[1..], b, level);
    }
  }

  function FlattenPieces(pieces: seq<Piece>): seq<Line> {
    if pieces == [] then [] else pieces[0].lines + FlattenPieces(pieces[1..])
  }

  function Flatten(o: Outline): seq<Line> { o.preamble + FlattenPieces(o.pieces) }

  lemma {:induction false} FlattenPiecesConcat(a: seq<Piece>, b: seq<Piece>)
    ensures FlattenPieces(a + b) == FlattenPieces(a) + FlattenPieces(b)
  {
    if a == [] {
      assert a + b == b;
    } else {
      assert (a + b)[1..] == a[1..] + b;
      FlattenPiecesConcat(a[1..], b);
    }
  }

  lemma FlattenOne(p: Piece)
    ensures FlattenPieces([p]) == p.lines
  {
    assert FlattenPieces([p][1..]) == [];
  }

  lemma ScanLineFlatten(st: Scan, line: Line, level: nat)
    ensures Flatten(ScanLine(st, line, level).outline) == Flatten(st.outline) + [line]
  {
    var ps := st.outline.pieces;
    if IsBoundary(st.fence, line, level) {
      var p := Piece(KindOf(line).level, KindOf(line).title, [line]);
      FlattenPiecesConcat(ps, [p]);
      FlattenOne(p);
    } else if ps != [] {
      var n := |ps| - 1;
      var p := ps[n].(lines := ps[n].lines + [line]);
      FlattenPiecesConcat(ps[..n], [p]);
      FlattenPiecesConcat(ps[..n], [ps[n]]);
      assert ps == ps[..n] + [ps[n]];
      FlattenOne(p);
      FlattenOne(ps[n]);
    }
  }

  lemma {:induction false} ScanLinesFlatten(st: Scan, lines: seq<Line>, level: nat)
    ensures Flatten(ScanLines(st, lines, level).outline) == Flatten(st.outline) + lines
    decreases lines
  {
    if lines != [] {
      ScanLineFlatten(st, lines[0], level);
      ScanLinesFlatten(ScanLine(st, lines[0], level), lines[1..], level);
      assert [lines[0]] + lines[1..] == lines;
    }
  }

  /** Splitting loses nothing: joining the outline gives the lines back. */
  lemma FlattenUndoesOutline(lines: seq<Line>, level: nat)
    ensures Flatten(OutlineOf(lines, level)) == lines
  {
    ScanLinesFlatten(START, lines, level);
    assert Flatten(START.outline) == [];
  }

  /** A piece as scanning makes them, whatever the state of its fences at the end. */
  predicate IsPiece(p: Piece, level: nat) {
    && p.lines != []
    && KindOf(p.lines[0]) == Heading(p.level, p.title)
    && p.level <= level
    && NoBoundary(Closed, p.lines[1..], level)
  }

  /** A piece whose fences are closed at its end. */
  predicate TidyPiece(p: Piece, level: nat) {
    IsPiece(p, level) && FenceAfter(Closed, p.lines[1..]) == Closed
  }

  predicate TidyPieces(pieces: seq<Piece>, level: nat) {
    forall i :: 0 <= i < |pieces| ==> TidyPiece(pieces[i], level)
  }

  predicate Tidy(o: Outline, level: nat) {
    && NoBoundary(Closed, o.preamble, level)
    && FenceAfter(Closed, o.preamble) == Closed
    && TidyPieces(o.pieces, level)
  }

  /** What scanning maintains: everything is tidy but for a fence still open in the last part. */
  predicate ScanTidy(st: Scan, level: nat) {
    var o := st.outline;
    && NoBoundary(Closed, o.preamble, level)
    && (o.pieces == [] ==> FenceAfter(Closed, o.preamble) == st.fence)
    && (o.pieces != [] ==>
          var n := |o.pieces| - 1;
          && FenceAfter(Closed, o.preamble) == Closed
          && TidyPieces(o.pieces[..n], level)
          && IsPiece(o.pieces[n], level)
          && FenceAfter(Closed, o.pieces[n].lines[1..]) == st.fence)
  }

  lemma FenceAfterOne(f: Fence, line: Line)
    ensures FenceAfter(f, [line]) == NextFence(f, line)
  {
    assert FenceAfter(NextFence(f, line), [line][1..]) == NextFence(f, line);
  }

  lemma ScanLineTidy(st: Scan, line: Line, level: nat)
    requires ScanTidy(st, level)
    ensures ScanTidy(ScanLine(st, line, level), level)
  {
    var o := st.outline;
    FenceAfterOne(st.fence, line);
    if IsBoundary(st.fence, line, level) {
      var p := Piece(KindOf(line).level, KindOf(line).title, [line]);
      assert (o.pieces + [p])[..|o.pieces|] == o.pieces;
      assert p.lines[1..] == [];
    } else if o.pieces == [] {
      FenceAfterConcat(Closed, o.preamble, [line]);
      NoBoundaryConcat(Closed, o.preamble, [line], level);
    } else {
      var n := |o.pieces| - 1;
      var p := o.pieces[n];
      assert (p.lines + [line])[1..] == p.lines[1..] + [line];
      FenceAfterConcat(Closed, p.lines[1..], [line]);
      NoBoundaryConcat(Closed, p.lines[1..], [line], level);
      assert AddLine(o, line).pieces[..n] == o.pieces[..n];
    }
  }

  lemma {:induction false} ScanLinesTidy(st: Scan, lines: seq<Line>, level: nat)
    requires ScanTidy(st, level)
    ensures ScanTidy(ScanLines(st, lines, level), level)
    ensures ScanLines(st, lines, level).fence == FenceAfter(st.fence, lines)
    decreases lines
  {
    if lines != [] {
      ScanLineTidy(st, lines[0], level);
      ScanLinesTidy(ScanLine(st, lines[0], level), lines[1..], level);
    }
  }

  /** A file with all fences closed has a tidy outline. */
  lemma OutlineTidy(lines: seq<Line>, level: nat)
    requires FenceAfter(Closed, lines) == Closed
    ensures Tidy(OutlineOf(lines, level), level)
  {
    ScanLinesTidy(START, lines, level);
    var o := OutlineOf(lines, level);
    if o.pieces != [] {
      var n := |o.pieces| - 1;
      forall i | 0 <= i < |o.pieces| ensures TidyPiece(o.pieces[i], level) {
        if i < n { assert o.pieces[i] == o.pieces[..n][i]; }
      }
    }
  }

  /** Lines without a boundary all go to the part being scanned. */
  lemma {:induction false} ScanPlain(st: Scan, lines: seq<Line>, level: nat)
    requires NoBoundary(st.fence, lines, level)
    ensures ScanLines(st, lines, level) ==
            Scan(if st.outline.pieces == [] then st.outline.(preamble := st.outline.preamble + lines)
                 else var n := |st.outline.pieces| - 1;
                      st.outline.(pieces := st.outline.pieces[..n] +
                        [st.outline.pieces[n].(lines := st.outline.pieces[n].lines + lines)]),
                 FenceAfter(st.fence, lines))
    decreases lines
  {
    var o := st.outline;
    if lines == [] {
      if o.pieces == [] {
        assert o.preamble + [] == o.preamble;
      } else {
        var n := |o.pieces| - 1;
        assert o.pieces[n].lines + [] == o.pieces[n].lines;
        assert o.pieces[..n] + [o.pieces[n]] == o.pieces;
      }
    } else {
      ScanPlain(ScanLine(st, lines[0], level), lines[1..], level);
      if o.pieces == [] {
        assert o.preamble + [lines[0]] + lines[1..] == o.preamble + lines;
      } else {
        var n := |o.pieces| - 1;
        assert o.pieces[n].lines + [lines[0]] + lines[1..] == o.pieces[n].lines + lines;
        assert AddLine(o, lines[0]).pieces[..n] == o.pieces[..n];
      }
    }
  }

  function Push(o: Outline, pieces: seq<Piece>): Outline { o.(pieces := o.pieces + pieces) }

  lemma ScanPiece(st: Scan, p: Piece, level: nat)
    requires st.fence == Closed && TidyPiece(p, level)
    ensures ScanLines(st, p.lines, level) == Scan(Push(st.outline, [p]), Closed)
  {
    var head := Piece(p.level, p.title, [p.lines[0]]);
    var st1 := ScanLine(st, p.lines[0], level);
    assert st1 == Scan(st.outline.(pieces := st.outline.pieces + [head]), Closed);
    ScanPlain(st1, p.lines[1..], level);
    assert [p.lines[0]] + p.lines[1..] == p.lines;
    assert (st.outline.pieces + [head])[..|st.outline.pieces|] == st.outline.pieces;
  }

  lemma PushPush(o: Outline, a: seq<Piece>, b: seq<Piece>)
    ensures Push(Push(o, a), b) == Push(o, a + b)
  {
    assert (o.pieces + a) + b == o.pieces + (a + b);
  }

  lemma {:induction false} ScanPieces(st: Scan, pieces: seq<Piece>, level: nat)
    requires st.fence == Closed && TidyPieces(pieces, level)
    ensures ScanLines(st, FlattenPieces(pieces), level) == Scan(Push(st.outline, pieces), Closed)
    decreases pieces
  {
    if pieces == [] {
      assert st.outline.pieces + [] == st.outline.pieces;
    } else {
      var st1 := Scan(Push(st.outline, [pieces[0]]), Closed);
      ScanLinesConcat(st, pieces[0].lines, FlattenPieces(pieces[1..]), level);
      ScanPiece(st, pieces[0], level);
      ScanPieces(st1, pieces[1..], level);
      PushPush(st.outline, [pieces[0]], pieces[1..]);
      assert [pieces[0]] + pieces[1..] == pieces;
    }
  }

  /** Joining a tidy outline and splitting again gives the same outline. */
  lemma OutlineUndoesFlatten(o: Outline, level: nat)
    requires Tidy(o, level)
    ensures OutlineOf(Flatten(o), level) == o
    ensures FenceAfter(Closed, Flatten(o)) == Closed
  {
    ScanLinesConcat(START, o.preamble, FlattenPieces(o.pieces), level);
    ScanPlain(START, o.preamble, level);
    assert [] + o.preamble == o.preamble;
    ScanPieces(Scan(Outline(o.preamble, []), Closed), o.pieces, level);
    assert [] + o.pieces == o.pieces;
    assert ScanTidy(START, level);
    ScanLinesTidy(START, Flatten(o), level);
  }

  // ---------------------------------------------------------------- blocks

  /** A block with its half-open line range. */
  datatype Block = Block(title: string, lines: seq<Line>, start: nat, end: nat)

  function BlockOf(p: Piece, offset: nat, level: nat): seq<Block> {
    if p.level == level then [Block(p.title, p.lines, offset, offset + |p.lines|)] else []
  }

  function BlocksOf(pieces: seq<Piece>, offset: nat, level: nat): seq<Block> {
    if pieces == [] then []
    else
      var end := offset + |pieces[0].lines|;
      BlockOf(pieces[0], offset, level) + BlocksOf(pieces[1..], end, level)
  }

  function Blocks(lines: seq<Line>, level: nat): seq<Block> {
    var o := OutlineOf(lines, level);
    BlocksOf(o.pieces, |o.preamble|, level)
  }

  lemma {:induction false} BlocksOfConcat(a: seq<Piece>, b: seq<Piece>, offset: nat, level: nat)
    ensures BlocksOf(a + b, offset, level) ==
            BlocksOf(a, offset, level) + BlocksOf(b, offset + |FlattenPieces(a)|, level)
  {
    if a == [] {
      assert a + b == b;
    } else {
      assert (a + b)[1..] == a[1..] + b;
      BlocksOfConcat(a[1..], b, offset + |a[0].lines|, level);
      var first, x, y := BlockOf(a[0], offset, level), BlocksOf(a[1..], offset + |a[0].lines|, level),
                         BlocksOf(b, offset + |FlattenPieces(a)|, level);
      assert first + (x + y) == (first + x) + y;
    }
  }

  lemma BlocksOfOne(p: Piece, offset: nat, level: nat)
    ensures BlocksOf([p], offset, level) == BlockOf(p, offset, level)
  {
    assert BlocksOf([p][1..], offset + |p.lines|, level) == [];
  }

  /** The parser state that corresponds to a scan: finished blocks and the one being read. */
  ghost predicate ParserAt(o: Outline, level: nat, blocks: seq<Block>, cur: Option<Block>) {
    if o.pieces != [] && o.pieces[|o.pieces| - 1].level == level then
      var n := |o.pieces| - 1;
      var start := |o.preamble| + |FlattenPieces(o.pieces[..n])|;
      && blocks == BlocksOf(o.pieces[..n], |o.preamble|, level)
      && cur.Some?
      && cur.value.title == o.pieces[n].title
      && cur.value.lines == o.pieces[n].lines
      && cur.value.start == start
    else
      blocks == BlocksOf(o.pieces, |o.preamble|, level) && cur.None?
  }

  /** Closing the block being read gives all blocks of the outline. */
  lemma ParserClose(o: Outline, level: nat, blocks: seq<Block>, cur: Option<Block>, i: nat)
    requires ParserAt(o, level, blocks, cur) && i == |Flatten(o)|
    ensures (if cur.Some? then blocks + [cur.value.(end := i)] else blocks) == BlocksOf(o.pieces, |o.preamble|, level)
  {
    if cur.Some? {
      var n := |o.pieces| - 1;
      assert o.pieces == o.pieces[..n] + [o.pieces[n]];
      BlocksOfConcat(o.pieces[..n], [o.pieces[n]], |o.preamble|, level);
      BlocksOfOne(o.pieces[n], |o.preamble| + |FlattenPieces(o.pieces[..n])|, level);
      FlattenPiecesConcat(o.pieces[..n], [o.pieces[n]]);
      FlattenOne(o.pieces[n]);
    }
  }

  lemma ParserOpen(o: Outline, p: Piece, level: nat, blocks: seq<Block>, i: nat)
    requires blocks == BlocksOf(o.pieces, |o.preamble|, level) && i == |Flatten(o)| && |p.lines| == 1
    ensures ParserAt(o.(pieces := o.pieces + [p]), level, blocks,
              if p.level == level then Some(Block(p.title, p.lines, i, i)) else None)
  {
    var ps := o.pieces + [p];
    assert ps[..|o.pieces|] == o.pieces;
    BlocksOfConcat(o.pieces, [p], |o.preamble|, level);
    BlocksOfOne(p, |o.preamble| + |FlattenPieces(o.pieces)|, level);
  }

  lemma ParserExtend(o: Outline, line: Line, level: nat, blocks: seq<Block>, cur: Option<Block>)
    requires ParserAt(o, level, blocks, cur)
    ensures ParserAt(AddLine(o, line), level, blocks,
              if cur.Some? then Some(cur.value.(lines := cur.value.lines + [line])) else None)
  {
    if o.pieces != [] {
      var n := |o.pieces| - 1;
      var p, q := o.pieces[n], o.pieces[n].(lines := o.pieces[n].lines + [line]);
      assert o.pieces == o.pieces[..n] + [p];
      assert AddLine(o, line).pieces[..n] == o.pieces[..n];
      BlocksOfConcat(o.pieces[..n], [p], |o.preamble|, level);
      BlocksOfConcat(o.pieces[..n], [q], |o.preamble|, level);
      BlocksOfOne(p, |o.preamble| + |FlattenPieces(o.pieces[..n])|, level);
      BlocksOfOne(q, |o.preamble| + |FlattenPieces(o.pieces[..n])|, level);
    }
  }

  /** The finished blocks once the block being read, if any, ends before line `i`. */
  ghost function Closing(blocks: seq<Block>, cur: Option<Block>, i: nat): seq<Block> {
    if cur.Some? then blocks + [cur.value.(end := i)] else blocks
  }

  /** One line of the parser against one line of the scan. */
  lemma ParserStep(st: Scan, line: Line, level: nat, blocks: seq<Block>, cur: Option<Block>, i: nat)
    requires ParserAt(st.outline, level, blocks, cur) && i == |Flatten(st.outline)|
    ensures var next, kind := ScanLine(st, line, level).outline, KindOf(line);
      && |Flatten(next)| == i + 1
      && (if IsBoundary(st.fence, line, level)
          then ParserAt(next, level, Closing(blocks, cur, i),
                 if kind.level == level then Some(Block(kind.title, [line], i, i)) else None)
          else ParserAt(next, level, blocks,
                 if cur.Some? then Some(cur.value.(lines := cur.value.lines + [line])) else None))
  {
    ScanLineFlatten(st, line, level);
    if IsBoundary(st.fence, line, level) {
      ParserClose(st.outline, level, blocks, cur, i);
      ParserOpen(st.outline, Piece(KindOf(line).level, KindOf(line).title, [line]), level, Closing(blocks, cur, i), i);
    } else {
      ParserExtend(st.outline, line, level, blocks, cur);
    }
  }

  lemma ScanNext(lines: seq<Line>, i: nat, level: nat)
    requires i < |lines|
    ensures ScanLines(START, lines[..i + 1], level) == ScanLine(ScanLines(START, lines[..i], level), lines[i], level)
  {
    var st := ScanLines(START, lines[..i], level);
    assert lines[..i + 1] == lines[..i] + [lines[i]];
    ScanLinesConcat(START, lines[..i], [lines[i]], level);
    assert [lines[i]][1..] == [];
  }

  /** The parser's single pass computes the blocks of the outline. */
  method ParseBlocks(lines: seq<Line>, level: nat) returns (blocks: seq<Block>)
    ensures blocks == Blocks(lines, level)
  {
    blocks := [];
    var cur: Option<Block> := None;
    var fence := Closed;
    ghost var st := START;
    for i := 0 to |lines|
      invariant st == ScanLines(START, lines[..i], level) && st.fence == fence
      invariant i == |Flatten(st.outline)|
      invariant ParserAt(st.outline, level, blocks, cur)
    {
      var line := lines[i];
      ScanNext(lines, i, level);
      ParserStep(st, line, level, blocks, cur, i);
      st := ScanLine(st, line, level);
      var kind := KindOf(line);
      if fence == Closed && kind.Heading? && kind.level <= level {
        if cur.Some? {
          blocks := blocks + [cur.value.(end := i)];
          cur := None;
        }
        if kind.level == level {
          cur := Some(Block(kind.title, [line], i, i));
        }
      } else if cur.Some? {
        cur := Some(cur.value.(lines := cur.value.lines + [line]));
      }
      fence := NextFence(fence, line);
    }
    assert lines[..|lines|] == lines;
    ParserClose(st.outline, level, blocks, cur, |lines|);
    if cur.Some? {
      blocks := blocks + [cur.value.(end := |lines|)];
    }
  }

  // ---------------------------------------------------------------- resolving an anchor

  predicate Answers(b: Block, want: string) {
    Slugify(b.title) == want || ShortAnchorOf(b.title) == want
  }

  /** Index of the first block that answers to the wanted slug. */
  function FindBlock(blocks: seq<Block>, want: string): (r: Option<nat>)
    ensures r.Some? ==> r.value < |blocks| && Answers(blocks[r.value], want)
    ensures r.Some? ==> forall i :: 0 <= i < r.value ==> !Answers(blocks[i], want)
    ensures r.None? ==> forall i :: 0 <= i < |blocks| ==> !Answers(blocks[i], want)
  {
    if blocks == [] then None
    else if Answers(blocks[0], want) then Some(0)
    else match FindBlock(blocks[1..], want)
      case None => None
      case Some(i) => Some(i + 1)
  }

  function ResolveBlock(lines: seq<Line>, anchor: string, level: nat): Option<nat> {
    FindBlock(Blocks(lines, level), Slugify(anchor))
  }

  /** The printed short anchor of any block resolves in the file the block is in. */
  lemma ShortAnchorResolves(lines: seq<Line>, level: nat, i: nat)
    requires i < |Blocks(lines, level)|
    ensures ResolveBlock(lines, ShortAnchorOf(Blocks(lines, level)[i].title), level).Some?
  {
    SlugifyIdempotent(Lead(Blocks(lines, level)[i].title));
  }
}
