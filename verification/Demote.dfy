/**
 Moving a block from one memory file to another: staging of both new contents, the two atomic writes
 with rollback, and what the move leaves alone.
 */
module Demote {
  import opened Wrappers
  import opened MemoryBlocks

  const DEMOTED_TITLE := "Demoted (pointers to relocated blocks)"
  const DEMOTED_HEADING := "## " + DEMOTED_TITLE

  /** Drop trailing empty lines; the first line stays, as text without newlines is still one line. */
  function StripEnd(lines: seq<Line>): (r: seq<Line>)
    ensures r <= lines
    ensures forall i :: |r| <= i < |lines| ==> lines[i] == []
    ensures lines != [] ==> r != []
  {
    if |lines| > 1 && lines[|lines| - 1] == [] then StripEnd(lines[..|lines| - 1]) else lines
  }

  function IndexOfLine(lines: seq<Line>, line: Line): (r: Option<nat>)
    ensures r.Some? ==> r.value < |lines| && lines[r.value] == line && line !in lines[..r.value]
    ensures r.None? ==> line !in lines
  {
    if lines == [] then None
    else if lines[0] == line then Some(0)
    else match IndexOfLine(lines[1..], line)
      case None => None
      case Some(i) => assert lines[..i + 1] == [lines[0]] + lines[1..][..i]; Some(i + 1)
  }

  function Prefix60(s: string): string { if |s| <= 60 then s else s[..60] }

  function PointerLine(b: Block, destBase: string): Line {
    "- [#" + ShortAnchorOf(b.title) + "] " + Prefix60(b.title) + " -> [[" + destBase + "#" + ShortAnchorOf(b.title) + "]]"
  }

  /** The pointer goes right under the first `## Demoted` line, or under a new one at the end. */
  function AppendPointer(lines: seq<Line>, pointer: Line): seq<Line> { AppendUnder(lines, DEMOTED_HEADING, pointer) }

  function AppendUnder(lines: seq<Line>, heading: Line, pointer: Line): seq<Line> {
    match IndexOfLine(lines, heading)
    case Some(h) => lines[..h + 1] + [pointer] + lines[h + 1..]
    case None => StripEnd(lines) + ["", heading, pointer, ""]
  }

  /** Text with no lines left is one empty line. */
  function NonEmpty(lines: seq<Line>): seq<Line> { if lines == [] then [""] else lines }

  predicate HasText(lines: seq<Line>) { exists i :: 0 <= i < |lines| && !IsBlank(lines[i]) }

  function AppendBody(dest: Option<seq<Line>>, body: seq<Line>): seq<Line> {
    if dest.Some? && HasText(dest.value) then StripEnd(dest.value) + [""] + StripEnd(body) + [""]
    else StripEnd(body) + [""]
  }

  function RemoveBlock(src: seq<Line>, b: Block): seq<Line>
    requires b.start <= b.end <= |src|
  {
    NonEmpty(src[..b.start] + src[b.end..])
  }

  datatype Staged =
    | NoBlock
    | Collision
    | Ready(block: Block, newSrc: seq<Line>, newDest: seq<Line>)

  function DestLines(dest: Option<seq<Line>>): seq<Line> { if dest.Some? then dest.value else [""] }

  /** Both new contents, computed before any write. */
  function Stage(src: seq<Line>, dest: Option<seq<Line>>, anchor: string, destBase: string, level: nat): Staged {
    match ResolveBlock(src, anchor, level)
    case None => NoBlock
    case Some(k) =>
      var b := Blocks(src, level)[k];
      BlockRange(src, level, k);
      if ResolveBlock(DestLines(dest), ShortAnchorOf(b.title), level).Some? then Collision
      else Ready(b, AppendPointer(RemoveBlock(src, b), PointerLine(b, destBase)), AppendBody(dest, b.lines))
  }

  // ---------------------------------------------------------------- where blocks lie

  /** The piece behind a block. */
  lemma {:induction false} PieceOfBlock(pieces: seq<Piece>, offset: nat, level: nat, k: nat) returns (j: nat)
    requires k < |BlocksOf(pieces, offset, level)|
    ensures j < |pieces| && pieces[j].level == level
    ensures BlocksOf(pieces, offset, level)[k] ==
            Block(pieces[j].title, pieces[j].lines, offset + |FlattenPieces(pieces[..j])|,
                  offset + |FlattenPieces(pieces[..j])| + |pieces[j].lines|)
    ensures |BlocksOf(pieces[..j], offset, level)| == k
    decreases pieces
  {
    var n := |BlockOf(pieces[0], offset, level)|;
    if k < n {
      j := 0;
      assert pieces[..0] == [];
    } else {
      var i := PieceOfBlock(pieces[1..], offset + |pieces[0].lines|, level, k - n);
      j := i + 1;
      FlattenPrefix(pieces, i);
      BlocksPrefix(pieces, i, offset, level);
    }
  }

  lemma BlocksPrefix(pieces: seq<Piece>, i: nat, offset: nat, level: nat)
    requires i < |pieces|
    ensures BlocksOf(pieces[..i + 1], offset, level) ==
            BlockOf(pieces[0], offset, level) + BlocksOf(pieces[1..][..i], offset + |pieces[0].lines|, level)
  {
    assert pieces[..i + 1][1..] == pieces[1..][..i];
  }

  lemma FlattenPrefix(pieces: seq<Piece>, i: nat)
    requires i < |pieces|
    ensures FlattenPieces(pieces[..i + 1]) == pieces[0].lines + FlattenPieces(pieces[1..][..i])
  {
    assert pieces[..i + 1][1..] == pieces[1..][..i];
  }

  /** A block's lines are the lines of the file in its range. */
  lemma BlockRange(src: seq<Line>, level: nat, k: nat)
    requires k < |Blocks(src, level)|
    ensures var b := Blocks(src, level)[k]; b.start <= b.end <= |src| && src[b.start..b.end] == b.lines
  {
    var o := OutlineOf(src, level);
    var j := PieceOfBlock(o.pieces, |o.preamble|, level, k);
    SplitAt(src, level, j);
  }

  /** A file around one piece of its outline. */
  lemma SplitAt(src: seq<Line>, level: nat, j: nat)
    requires j < |OutlineOf(src, level).pieces|
    ensures var o := OutlineOf(src, level);
      src == o.preamble + FlattenPieces(o.pieces[..j]) + o.pieces[j].lines + FlattenPieces(o.pieces[j + 1..])
  {
    var o := OutlineOf(src, level);
    FlattenUndoesOutline(src, level);
    var a, p, b := o.pieces[..j], o.pieces[j], o.pieces[j + 1..];
    assert o.pieces == a + ([p] + b);
    FlattenPiecesConcat(a, [p] + b);
    FlattenPiecesConcat([p], b);
    FlattenOne(p);
  }

  // ---------------------------------------------------------------- conservation of content

  /** The non-blank lines with their multiplicities. */
  function Content(lines: seq<Line>): multiset<Line> {
    if lines == [] then multiset{}
    else (if IsBlank(lines[0]) then multiset{} else multiset{lines[0]}) + Content(lines[1..])
  }

  lemma {:induction false} ContentConcat(a: seq<Line>, b: seq<Line>)
    ensures Content(a + b) == Content(a) + Content(b)
  {
    if a == [] {
      assert a + b == b;
    } else {
      assert (a + b)[1..] == a[1..] + b;
      ContentConcat(a[1..], b);
    }
  }

  lemma ContentBlank(lines: seq<Line>)
    requires forall i :: 0 <= i < |lines| ==> IsBlank(lines[i])
    ensures Content(lines) == multiset{}
  {
  }

  lemma ContentStripEnd(lines: seq<Line>)
    ensures Content(StripEnd(lines)) == Content(lines)
  {
    var r := StripEnd(lines);
    assert lines == r + lines[|r|..];
    ContentConcat(r, lines[|r|..]);
    ContentBlank(lines[|r|..]);
  }

  lemma ContentOne(line: Line)
    requires !IsBlank(line)
    ensures Content([line]) == multiset{line}
  {
    assert [line][1..] == [];
  }

  lemma ContentPointer(lines: seq<Line>, pointer: Line)
    requires !IsBlank(pointer)
    ensures Content(AppendPointer(lines, pointer)) ==
            Content(lines) + multiset{pointer} +
            (if DEMOTED_HEADING in lines then multiset{} else multiset{DEMOTED_HEADING})
  {
    DemotedIsHeading();
    ContentUnder(lines, DEMOTED_HEADING, pointer);
  }

  lemma ContentUnder(lines: seq<Line>, heading: Line, pointer: Line)
    requires !IsBlank(pointer) && !IsBlank(heading)
    ensures heading in lines ==> Content(AppendUnder(lines, heading, pointer)) == Content(lines) + multiset{pointer}
    ensures heading !in lines ==>
      Content(AppendUnder(lines, heading, pointer)) == Content(lines) + multiset{pointer} + multiset{heading}
  {
    if heading in lines { ContentUnderKnown(lines, heading, pointer); }
    else { ContentNewSection(lines, heading, pointer); }
  }

  lemma ContentUnderKnown(lines: seq<Line>, heading: Line, pointer: Line)
    requires !IsBlank(pointer) && heading in lines
    ensures Content(AppendUnder(lines, heading, pointer)) == Content(lines) + multiset{pointer}
  {
    var h := IndexOfLine(lines, heading).value;
    ContentInsert(lines, h + 1, pointer);
  }

  lemma ContentNewSection(lines: seq<Line>, heading: Line, pointer: Line)
    requires !IsBlank(pointer) && !IsBlank(heading)
    ensures Content(StripEnd(lines) + ["", heading, pointer, ""]) == Content(lines) + multiset{pointer} + multiset{heading}
  {
    ContentStripEnd(lines);
    ContentConcat(StripEnd(lines), ["", heading, pointer, ""]);
    ContentTail(heading, pointer);
  }

  lemma ContentInsert(lines: seq<Line>, i: nat, line: Line)
    requires i <= |lines| && !IsBlank(line)
    ensures Content(lines[..i] + [line] + lines[i..]) == Content(lines) + multiset{line}
  {
    ContentOne(line);
    assert lines == lines[..i] + lines[i..];
    ContentConcat(lines[..i], lines[i..]);
    ContentConcat(lines[..i], [line]);
    ContentConcat(lines[..i] + [line], lines[i..]);
  }

  lemma ContentStep(line: Line, rest: seq<Line>)
    ensures Content([line] + rest) == (if IsBlank(line) then multiset{} else multiset{line}) + Content(rest)
  {
    assert ([line] + rest)[1..] == rest;
  }

  lemma ContentTail(heading: Line, pointer: Line)
    requires !IsBlank(pointer) && !IsBlank(heading)
    ensures Content(["", heading, pointer, ""]) == multiset{pointer} + multiset{heading}
  {
    ContentBlank([""]);
    ContentStep(pointer, [""]);
    ContentStep(heading, [pointer] + [""]);
    ContentStep("", [heading] + ([pointer] + [""]));
    assert ["", heading, pointer, ""] == [""] + ([heading] + ([pointer] + [""]));
  }

  lemma ContentBody(dest: Option<seq<Line>>, body: seq<Line>)
    ensures Content(AppendBody(dest, body)) == Content(DestLines(dest)) + Content(body)
  {
    ContentStripEnd(body);
    ContentBlank([""]);
    ContentConcat(StripEnd(body), [""]);
    if dest.Some? && HasText(dest.value) {
      ContentStripEnd(dest.value);
      ContentConcat(StripEnd(dest.value), [""]);
      ContentConcat(StripEnd(dest.value) + [""], StripEnd(body));
      ContentConcat(StripEnd(dest.value) + [""] + StripEnd(body), [""]);
    } else {
      ContentBlank(DestLines(dest));
    }
  }

  lemma PointerShape(b: Block, destBase: string)
    ensures |PointerLine(b, destBase)| > 0 && PointerLine(b, destBase)[0] == '-'
    ensures !IsBlank(PointerLine(b, destBase)) && KindOf(PointerLine(b, destBase)) == Plain
    ensures PointerLine(b, destBase) != DEMOTED_HEADING
  {
    var p := PointerLine(b, destBase);
    assert p[0] == '-';
    assert RunLength(' ', p) == 0 && RunLength('#', p) == 0;
    assert p[0..] == p;
    assert DEMOTED_HEADING[0] == '#';
  }

  /** What staging prepares when it does. */
  lemma Staging(src: seq<Line>, dest: Option<seq<Line>>, anchor: string, destBase: string, level: nat)
    requires Stage(src, dest, anchor, destBase, level).Ready?
    ensures var k := ResolveBlock(src, anchor, level);
      && k.Some? && k.value < |Blocks(src, level)|
      && var b := Blocks(src, level)[k.value];
      && b.start <= b.end <= |src| && src[b.start..b.end] == b.lines
      && Stage(src, dest, anchor, destBase, level) ==
         Ready(b, AppendPointer(RemoveBlock(src, b), PointerLine(b, destBase)), AppendBody(dest, b.lines))
  {
    BlockRange(src, level, ResolveBlock(src, anchor, level).value);
  }

  /** A move keeps every non-blank line of the two files, adding one pointer and, once, its heading. */
  lemma DemoteConservesContent(src: seq<Line>, dest: Option<seq<Line>>, anchor: string, destBase: string, level: nat)
    requires Stage(src, dest, anchor, destBase, level).Ready?
    ensures var r := Stage(src, dest, anchor, destBase, level);
      r.block.start <= r.block.end <= |src| &&
      Content(r.newSrc) + Content(r.newDest) ==
      Content(src) + Content(DestLines(dest)) + multiset{PointerLine(r.block, destBase)} +
      (if DEMOTED_HEADING in RemoveBlock(src, r.block) then multiset{} else multiset{DEMOTED_HEADING})
  {
    Staging(src, dest, anchor, destBase, level);
    ContentMoved(src, dest, Stage(src, dest, anchor, destBase, level).block, destBase);
  }

  lemma ContentMoved(src: seq<Line>, dest: Option<seq<Line>>, b: Block, destBase: string)
    requires b.start <= b.end <= |src| && src[b.start..b.end] == b.lines
    ensures Content(AppendPointer(RemoveBlock(src, b), PointerLine(b, destBase))) + Content(AppendBody(dest, b.lines)) ==
      Content(src) + Content(DestLines(dest)) + multiset{PointerLine(b, destBase)} +
      (if DEMOTED_HEADING in RemoveBlock(src, b) then multiset{} else multiset{DEMOTED_HEADING})
  {
    PointerShape(b, destBase);
    ContentRemove(src, b);
    ContentPointer(RemoveBlock(src, b), PointerLine(b, destBase));
    ContentBody(dest, b.lines);
  }

  lemma ContentRemove(src: seq<Line>, b: Block)
    requires b.start <= b.end <= |src| && src[b.start..b.end] == b.lines
    ensures Content(src) == Content(RemoveBlock(src, b)) + Content(b.lines)
  {
    assert src == src[..b.start] + b.lines + src[b.end..];
    ContentWithout(src[..b.start], b.lines, src[b.end..]);
  }

  lemma ContentWithout(left: seq<Line>, mid: seq<Line>, right: seq<Line>)
    ensures Content(left + mid + right) == Content(NonEmpty(left + right)) + Content(mid)
  {
    ContentThree(left, mid, right);
    ContentConcat(left, right);
    ContentNonEmpty(left + right);
  }

  lemma ContentNonEmpty(lines: seq<Line>)
    ensures Content(NonEmpty(lines)) == Content(lines)
  {
    ContentBlank([""]);
  }

  lemma ContentThree(a: seq<Line>, b: seq<Line>, c: seq<Line>)
    ensures Content(a + b + c) == Content(a) + Content(b) + Content(c)
  {
    ContentConcat(a, b);
    ContentConcat(a + b, c);
  }

  /** A move within one file is always refused. */
  lemma SameFileRefused(src: seq<Line>, anchor: string, destBase: string, level: nat)
    ensures !Stage(src, Some(src), anchor, destBase, level).Ready?
    ensures Stage(src, Some(src), anchor, destBase, level).Collision? <==> ResolveBlock(src, anchor, level).Some?
  {
    if ResolveBlock(src, anchor, level).Some? {
      ShortAnchorResolves(src, level, ResolveBlock(src, anchor, level).value);
    }
  }

  // ---------------------------------------------------------------- non-interference

  /** Same titles in the same order, same lines up to trailing empty ones. */
  predicate SameBlocks(a: seq<Block>, b: seq<Block>) {
    |a| == |b| && forall i :: 0 <= i < |a| ==> SameBlock(a[i], b[i])
  }

  predicate SameBlock(a: Block, b: Block) { a.title == b.title && StripEnd(a.lines) == StripEnd(b.lines) }

  predicate SamePiece(p: Piece, q: Piece) {
    p.level == q.level && p.title == q.title && StripEnd(p.lines) == StripEnd(q.lines)
  }

  predicate SamePieces(a: seq<Piece>, b: seq<Piece>) {
    |a| == |b| && forall i :: 0 <= i < |a| ==> SamePiece(a[i], b[i])
  }

  lemma {:induction false} SamePiecesSameBlocks(a: seq<Piece>, b: seq<Piece>, x: nat, y: nat, level: nat)
    requires SamePieces(a, b)
    ensures SameBlocks(BlocksOf(a, x, level), BlocksOf(b, y, level))
    decreases a
  {
    if a != [] {
      assert SamePiece(a[0], b[0]);
      assert SamePieces(a[1..], b[1..]) by {
        forall i | 0 <= i < |a[1..]| ensures SamePiece(a[1..][i], b[1..][i]) {
          assert SamePiece(a[i + 1], b[i + 1]);
        }
      }
      SamePiecesSameBlocks(a[1..], b[1..], x + |a[0].lines|, y + |b[0].lines|, level);
      SameBlocksConcat(BlockOf(a[0], x, level), BlockOf(b[0], y, level),
                       BlocksOf(a[1..], x + |a[0].lines|, level), BlocksOf(b[1..], y + |b[0].lines|, level));
    }
  }

  lemma SameBlocksConcat(a: seq<Block>, b: seq<Block>, c: seq<Block>, d: seq<Block>)
    requires SameBlocks(a, b) && SameBlocks(c, d)
    ensures SameBlocks(a + c, b + d)
  {
    forall i | 0 <= i < |a + c| ensures SameBlock((a + c)[i], (b + d)[i]) {
      if i >= |a| { assert SameBlock(c[i - |a|], d[i - |a|]); }
    }
  }

  lemma EmptyLines(lines: seq<Line>, level: nat)
    requires forall i :: 0 <= i < |lines| ==> lines[i] == []
    ensures NoBoundary(Closed, lines, level) && FenceAfter(Closed, lines) == Closed
  {
    if lines != [] {
      EmptyIsPlain();
      EmptyLines(lines[1..], level);
    }
  }

  /** Empty lines at the end, however many, change no fence. */
  lemma SwapEmptyFence(t: seq<Line>, rest: seq<Line>)
    requires forall i :: 0 <= i < |rest| ==> rest[i] == []
    ensures FenceAfter(Closed, t + [""]) == FenceAfter(Closed, t + rest)
  {
    FenceAfterConcat(Closed, t, rest);
    FenceAfterConcat(Closed, t, [""]);
    EmptyTail(FenceAfter(Closed, t), rest);
    EmptyTail(FenceAfter(Closed, t), [""]);
  }

  /** ... and add no boundary. */
  lemma SwapEmptyBoundary(t: seq<Line>, rest: seq<Line>, level: nat)
    requires NoBoundary(Closed, t + rest, level)
    ensures NoBoundary(Closed, t + [""], level)
  {
    NoBoundaryConcat(Closed, t, rest, level);
    NoBoundaryConcat(Closed, t, [""], level);
    EmptyNoBoundary(FenceAfter(Closed, t), level);
  }

  lemma EmptyNoBoundary(f: Fence, level: nat)
    ensures NoBoundary(f, [""], level)
  {
    EmptyIsPlain();
    assert [""][1..] == [];
  }

  /** Lines of a tidy part stay tidy when trailing empty lines go and one comes. */
  lemma TidyLinesStrip(lines: seq<Line>, level: nat)
    requires NoBoundary(Closed, lines, level) && FenceAfter(Closed, lines) == Closed
    ensures NoBoundary(Closed, StripEnd(lines) + [""], level) && FenceAfter(Closed, StripEnd(lines) + [""]) == Closed
  {
    var r := StripEnd(lines);
    assert lines == r + lines[|r|..];
    SwapEmptyFence(r, lines[|r|..]);
    SwapEmptyBoundary(r, lines[|r|..], level);
  }

  function Restrip(p: Piece): Piece { p.(lines := StripEnd(p.lines) + [""]) }

  lemma EmptyIsPlain()
    ensures KindOf("") == Plain
  {
    assert RunLength(' ', "") == 0 && RunLength('#', "") == 0;
  }

  /** Dropping trailing empty lines of a headed part leaves the head; only empty lines are lost. */
  lemma TidyPieceRestrip(p: Piece, level: nat)
    requires TidyPiece(p, level)
    ensures TidyPiece(Restrip(p), level) && SamePiece(Restrip(p), p)
  {
    StripEndIdempotent(p.lines);
    RestripTail(p.lines);
    var t, rest := StripEnd(p.lines)[1..], p.lines[|StripEnd(p.lines)|..];
    SwapEmptyFence(t, rest);
    SwapEmptyBoundary(t, rest, level);
  }

  lemma RestripTail(lines: seq<Line>)
    requires lines != []
    ensures var r := StripEnd(lines);
      && r[0] == lines[0] && (r + [""])[0] == lines[0]
      && lines[1..] == r[1..] + lines[|r|..] && (r + [""])[1..] == r[1..] + [""]
  {
  }

  lemma EmptyTail(f: Fence, lines: seq<Line>)
    requires forall i :: 0 <= i < |lines| ==> lines[i] == []
    ensures FenceAfter(f, lines) == f
  {
    if lines != [] {
      EmptyIsPlain();
      EmptyTail(f, lines[1..]);
    }
  }

  lemma StripEndIdempotent(lines: seq<Line>)
    requires lines != []
    ensures StripEnd(StripEnd(lines) + [""]) == StripEnd(lines)
  {
    var r := StripEnd(lines);
    assert (r + [""])[..|r|] == r;
    StripEndFixed(lines);
  }

  lemma StripEndFixed(lines: seq<Line>)
    ensures StripEnd(StripEnd(lines)) == StripEnd(lines)
  {
  }

  /** Stripping a file strips its last part. */
  lemma StripEndConcat(a: seq<Line>, b: seq<Line>)
    requires b != [] && b[0] != []
    ensures StripEnd(a + b) == a + StripEnd(b)
  {
    if |b| > 1 && b[|b| - 1] == [] {
      assert (a + b)[..|a + b| - 1] == a + b[..|b| - 1];
      StripEndConcat(a, b[..|b| - 1]);
    }
  }

  /** An outline whose last part lost its trailing empty lines and gained one. */
  function RestripLast(o: Outline): Outline {
    if o.pieces == [] then o.(preamble := StripEnd(o.preamble) + [""])
    else
      var n := |o.pieces| - 1;
      o.(pieces := o.pieces[..n] + [Restrip(o.pieces[n])])
  }

  lemma FlattenLast(preamble: seq<Line>, a: seq<Piece>, p: Piece)
    ensures Flatten(Outline(preamble, a + [p])) == (preamble + FlattenPieces(a)) + p.lines
  {
    FlattenPiecesConcat(a, [p]);
    FlattenOne(p);
  }

  lemma RestripLastTidy(o: Outline, level: nat)
    requires Tidy(o, level)
    ensures Tidy(RestripLast(o), level)
  {
    if o.pieces == [] {
      TidyLinesStrip(o.preamble, level);
    } else {
      TidyPieceRestrip(o.pieces[|o.pieces| - 1], level);
    }
  }

  lemma RestripLastSame(o: Outline)
    requires forall p :: p in o.pieces ==> p.lines != []
    ensures SamePieces(RestripLast(o).pieces, o.pieces)
  {
    if o.pieces != [] {
      StripEndIdempotent(o.pieces[|o.pieces| - 1].lines);
    }
  }

  lemma RestripLastFlatten(o: Outline, level: nat)
    requires Tidy(o, level)
    ensures Flatten(RestripLast(o)) == StripEnd(Flatten(o)) + [""]
  {
    if o.pieces == [] {
      assert Flatten(o) == o.preamble;
    } else {
      var n := |o.pieces| - 1;
      var a, p := o.pieces[..n], o.pieces[n];
      assert TidyPiece(p, level);
      EmptyIsPlain();
      assert o.pieces == a + [p];
      FlattenLast(o.preamble, a, p);
      FlattenLast(o.preamble, a, Restrip(p));
      StripEndConcat(o.preamble + FlattenPieces(a), p.lines);
      Associate(o.preamble + FlattenPieces(a), StripEnd(p.lines), [""]);
    }
  }

  lemma Associate<T>(a: seq<T>, b: seq<T>, c: seq<T>)
    ensures (a + b) + c == a + (b + c)
  {
  }

  lemma SecondLevelHeading(s: string, title: string)
    requires s == "## " + title && title != [] && !IsSpace(title[0]) && !IsSpace(title[|title| - 1])
    requires forall i :: 0 <= i < |title| ==> !IsTerminator(title[i])
    ensures KindOf(s) == Heading(2, title)
  {
    var blank := " " + title;
    assert s[2..] == blank;
    TwoHashes(s);
    assert blank[1..] == title;
    assert TrimStart(title) == title && TrimStart(blank) == title;
  }

  lemma TwoHashes(s: string)
    requires |s| > 2 && s[0] == '#' && s[1] == '#' && s[2] == ' '
    ensures RunLength('#', s) == 2 && FenceOf(s).None?
  {
    assert RunLength(' ', s) == 0;
    assert s[0..] == s;
    assert s[1..][1..] == s[2..];
    assert RunLength('#', s[2..]) == 0;
    assert RunLength('#', s[1..]) == 1;
  }

  lemma DemotedIsHeading()
    ensures KindOf(DEMOTED_HEADING) == Heading(2, DEMOTED_TITLE)
    ensures !IsBlank(DEMOTED_HEADING)
  {
    assert DEMOTED_HEADING[0] == '#';
    SecondLevelHeading(DEMOTED_HEADING, DEMOTED_TITLE);
  }

  /** The new pointer section as a part of an outline. */
  function PointerPiece(pointer: Line): Piece { Piece(2, DEMOTED_TITLE, [DEMOTED_HEADING, pointer, ""]) }

  lemma PlainLines(lines: seq<Line>, level: nat)
    requires forall i :: 0 <= i < |lines| ==> KindOf(lines[i]) == Plain
    ensures NoBoundary(Closed, lines, level) && FenceAfter(Closed, lines) == Closed
  {
    if lines != [] { PlainLines(lines[1..], level); }
  }

  lemma PointerPieceTidy(pointer: Line, level: nat)
    requires KindOf(pointer) == Plain && level >= 2
    ensures TidyPiece(PointerPiece(pointer), level)
  {
    DemotedIsHeading();
    var p := PointerPiece(pointer);
    assert p.lines[1..] == [pointer, ""];
    EmptyIsPlain();
    PlainLines(p.lines[1..], level);
  }

  /** Every existing pointer heading is outside fenced code. */
  predicate DemotedUnfenced(lines: seq<Line>) {
    forall i :: 0 <= i < |lines| && lines[i] == DEMOTED_HEADING ==> FenceAfter(Closed, lines[..i]) == Closed
  }

  /** An unfenced boundary inside tidy pieces is the head of one of them. */
  lemma InsidePieceNoBoundary(p: Piece, h: nat, level: nat)
    requires TidyPiece(p, level) && 0 < h < |p.lines|
    ensures !IsBoundary(FenceAfter(Closed, p.lines[..h]), p.lines[h], level)
  {
    assert p.lines[..h] == [p.lines[0]] + p.lines[1..][..h - 1];
    FenceAfterConcat(Closed, [p.lines[0]], p.lines[1..][..h - 1]);
    FenceAfterOne(Closed, p.lines[0]);
    NoBoundaryAt(Closed, p.lines[1..], h - 1, level);
  }

  lemma {:induction false} BoundaryIsHead(pieces: seq<Piece>, h: nat, level: nat) returns (m: nat)
    requires TidyPieces(pieces, level) && h < |FlattenPieces(pieces)|
    requires IsBoundary(FenceAfter(Closed, FlattenPieces(pieces)[..h]), FlattenPieces(pieces)[h], level)
    ensures m < |pieces| && h == |FlattenPieces(pieces[..m])|
    decreases pieces
  {
    var p, rest := pieces[0], pieces[1..];
    PastPiece(p, FlattenPieces(rest), h, level);
    if h < |p.lines| {
      m := 0;
      assert pieces[..0] == [];
    } else {
      var i := BoundaryIsHead(rest, h - |p.lines|, level);
      m := i + 1;
      FlattenPrefix(pieces, i);
    }
  }

  /** A boundary in or after a tidy piece is its head or a boundary of what follows. */
  lemma PastPiece(p: Piece, tail: seq<Line>, h: nat, level: nat)
    requires TidyPiece(p, level) && h < |p.lines + tail|
    requires IsBoundary(FenceAfter(Closed, (p.lines + tail)[..h]), (p.lines + tail)[h], level)
    ensures h < |p.lines| ==> h == 0
    ensures h >= |p.lines| ==> IsBoundary(FenceAfter(Closed, tail[..h - |p.lines|]), tail[h - |p.lines|], level)
  {
    if h < |p.lines| {
      assert (p.lines + tail)[..h] == p.lines[..h];
      if h > 0 { InsidePieceNoBoundary(p, h, level); }
    } else {
      var g := h - |p.lines|;
      assert (p.lines + tail)[..h] == p.lines + tail[..g];
      FenceAfterConcat(Closed, p.lines, tail[..g]);
      PieceFence(p, level);
    }
  }

  lemma PieceFence(p: Piece, level: nat)
    requires TidyPiece(p, level)
    ensures FenceAfter(Closed, p.lines) == Closed
  {
  }

  lemma {:induction false} NoBoundaryAt(f: Fence, lines: seq<Line>, i: nat, level: nat)
    requires NoBoundary(f, lines, level) && i < |lines|
    ensures !IsBoundary(FenceAfter(f, lines[..i]), lines[i], level)
    decreases lines
  {
    if i == 0 {
      assert lines[..0] == [];
    } else {
      assert lines[..i][1..] == lines[1..][..i - 1];
      NoBoundaryAt(NextFence(f, lines[0]), lines[1..], i - 1, level);
    }
  }

  lemma TidyPrefix(pieces: seq<Piece>, level: nat)
    requires TidyPieces(pieces, level)
    ensures FenceAfter(Closed, FlattenPieces(pieces)) == Closed
  {
    if pieces != [] {
      PieceFence(pieces[0], level);
      FenceAfterConcat(Closed, pieces[0].lines, FlattenPieces(pieces[1..]));
      TidyPrefix(pieces[1..], level);
    }
  }

  /** The piece with the pointer inserted right under its head. */
  function WithPointer(p: Piece, pointer: Line): Piece
    requires p.lines != []
  {
    p.(lines := [p.lines[0], pointer] + p.lines[1..])
  }

  /** An unfenced pointer heading of a tidy file heads one of its parts. */
  lemma HeadingHeadsPiece(o: Outline, h: nat, level: nat) returns (m: nat)
    requires Tidy(o, level) && level >= 3
    requires h < |Flatten(o)| && Flatten(o)[h] == DEMOTED_HEADING
    requires FenceAfter(Closed, Flatten(o)[..h]) == Closed
    ensures m < |o.pieces| && h == |o.preamble| + |FlattenPieces(o.pieces[..m])|
  {
    DemotedIsHeading();
    var n, rest := |o.preamble|, FlattenPieces(o.pieces);
    if h < n {
      assert Flatten(o)[..h] == o.preamble[..h];
      NoBoundaryAt(Closed, o.preamble, h, level);
    }
    assert Flatten(o)[..h] == o.preamble + rest[..h - n];
    FenceAfterConcat(Closed, o.preamble, rest[..h - n]);
    m := BoundaryIsHead(o.pieces, h - n, level);
  }

  /** Under an existing unfenced heading the pointer lands in a part that is no block at level 3 or deeper. */
  lemma PointerUnderHeading(o: Outline, pointer: Line, h: nat, level: nat)
    requires Tidy(o, level) && level >= 3 && KindOf(pointer) == Plain
    requires h < |Flatten(o)| && Flatten(o)[h] == DEMOTED_HEADING
    requires FenceAfter(Closed, Flatten(o)[..h]) == Closed
    ensures SameBlocks(Blocks(Flatten(o)[..h + 1] + [pointer] + Flatten(o)[h + 1..], level),
                       BlocksOf(o.pieces, |o.preamble|, level))
  {
    var m := HeadingHeadsPiece(o, h, level);
    assert TidyPiece(o.pieces[m], level);
    PointerSplice(o, pointer, m, h);
    PointerInPiece(o, pointer, m, level);
  }

  lemma PointerSplice(o: Outline, pointer: Line, m: nat, h: nat)
    requires m < |o.pieces| && o.pieces[m].lines != [] && h == |o.preamble| + |FlattenPieces(o.pieces[..m])|
    ensures h < |Flatten(o)| && Flatten(o)[h] == o.pieces[m].lines[0]
    ensures Flatten(o)[..h + 1] + [pointer] + Flatten(o)[h + 1..] ==
            Flatten(o.(pieces := o.pieces[..m] + [WithPointer(o.pieces[m], pointer)] + o.pieces[m + 1..]))
  {
    var a, p, b := o.pieces[..m], o.pieces[m], o.pieces[m + 1..];
    assert o.pieces == a + [p] + b;
    FlattenAround(o.preamble, a, p, b);
    FlattenAround(o.preamble, a, WithPointer(p, pointer), b);
    Splice(o.preamble + FlattenPieces(a), p.lines, pointer, FlattenPieces(b));
  }

  lemma Splice(before: seq<Line>, lines: seq<Line>, pointer: Line, after: seq<Line>)
    requires lines != []
    ensures var whole, h := before + lines + after, |before|;
      && whole[h] == lines[0]
      && whole[..h + 1] + [pointer] + whole[h + 1..] == before + ([lines[0], pointer] + lines[1..]) + after
  {
  }

  lemma FlattenAround(preamble: seq<Line>, a: seq<Piece>, p: Piece, b: seq<Piece>)
    ensures Flatten(Outline(preamble, a + [p] + b)) == (preamble + FlattenPieces(a)) + p.lines + FlattenPieces(b)
  {
    FlattenThree(a, p, b);
    AssociateInner(preamble, FlattenPieces(a), p.lines, FlattenPieces(b));
  }

  lemma AssociateInner<T>(a: seq<T>, b: seq<T>, c: seq<T>, d: seq<T>)
    ensures a + ((b + c) + d) == ((a + b) + c) + d
  {
  }

  lemma FlattenThree(a: seq<Piece>, p: Piece, b: seq<Piece>)
    ensures FlattenPieces(a + [p] + b) == FlattenPieces(a) + p.lines + FlattenPieces(b)
  {
    FlattenPiecesConcat(a + [p], b);
    FlattenPiecesConcat(a, [p]);
    FlattenOne(p);
  }

  lemma PointerInPiece(o: Outline, pointer: Line, m: nat, level: nat)
    requires Tidy(o, level) && level >= 3 && KindOf(pointer) == Plain
    requires m < |o.pieces| && o.pieces[m].lines[0] == DEMOTED_HEADING
    ensures var q := WithPointer(o.pieces[m], pointer);
      SameBlocks(Blocks(Flatten(o.(pieces := o.pieces[..m] + [q] + o.pieces[m + 1..])), level),
                 BlocksOf(o.pieces, |o.preamble|, level))
  {
    var p, a, b := o.pieces[m], o.pieces[..m], o.pieces[m + 1..];
    var q := WithPointer(p, pointer);
    assert o.pieces == a + [p] + b;
    TidySwap(o, m, pointer, level);
    OutlineUndoesFlatten(o.(pieces := a + [q] + b), level);
    PointerHeadLevel(o, m, level);
    SwapNonBlock(a, p, q, b, |o.preamble|, level);
  }

  lemma PointerHeadLevel(o: Outline, m: nat, level: nat)
    requires Tidy(o, level) && m < |o.pieces| && o.pieces[m].lines[0] == DEMOTED_HEADING
    ensures o.pieces[m].level == 2
  {
    DemotedIsHeading();
    assert TidyPiece(o.pieces[m], level);
  }

  lemma TidySwap(o: Outline, m: nat, pointer: Line, level: nat)
    requires Tidy(o, level) && m < |o.pieces| && KindOf(pointer) == Plain
    ensures Tidy(o.(pieces := o.pieces[..m] + [WithPointer(o.pieces[m], pointer)] + o.pieces[m + 1..]), level)
  {
    WithPointerTidy(o.pieces[m], pointer, level);
  }

  lemma WithPointerTidy(p: Piece, pointer: Line, level: nat)
    requires TidyPiece(p, level) && KindOf(pointer) == Plain
    ensures TidyPiece(WithPointer(p, pointer), level)
  {
    assert WithPointer(p, pointer).lines[1..] == [pointer] + p.lines[1..];
    NoBoundaryConcat(Closed, [pointer], p.lines[1..], level);
    FenceAfterConcat(Closed, [pointer], p.lines[1..]);
    PlainLines([pointer], level);
  }

  /** Replacing a part that is no block by another that is none changes no block. */
  lemma SwapNonBlock(a: seq<Piece>, p: Piece, q: Piece, b: seq<Piece>, n: nat, level: nat)
    requires p.level != level && q.level != level
    ensures SameBlocks(BlocksOf(a + [q] + b, n, level), BlocksOf(a + [p] + b, n, level))
  {
    BlocksAround(a, p, b, n, level);
    BlocksAround(a, q, b, n, level);
    var x, y := n + |FlattenPieces(a)| + |q.lines|, n + |FlattenPieces(a)| + |p.lines|;
    SameBlocksRefl(BlocksOf(a, n, level));
    SamePiecesRefl(b);
    SamePiecesSameBlocks(b, b, x, y, level);
    SameBlocksConcat(BlocksOf(a, n, level), BlocksOf(a, n, level), BlocksOf(b, x, level), BlocksOf(b, y, level));
  }

  lemma SamePiecesRefl(a: seq<Piece>)
    ensures SamePieces(a, a)
  {
  }

  /** The blocks around a part that is itself no block. */
  lemma BlocksAround(a: seq<Piece>, p: Piece, b: seq<Piece>, offset: nat, level: nat)
    ensures BlocksOf(a + [p] + b, offset, level) ==
            BlocksOf(a, offset, level) + BlockOf(p, offset + |FlattenPieces(a)|, level)
            + BlocksOf(b, offset + |FlattenPieces(a)| + |p.lines|, level)
  {
    BlocksOfConcat(a + [p], b, offset, level);
    BlocksOfConcat(a, [p], offset, level);
    BlocksOfOne(p, offset + |FlattenPieces(a)|, level);
    FlattenPiecesConcat(a, [p]);
    FlattenOne(p);
  }

  /** Without an existing heading the pointer gets a section of its own at the end. */
  lemma PointerAtEnd(o: Outline, pointer: Line, level: nat)
    requires Tidy(o, level) && level >= 3 && KindOf(pointer) == Plain
    ensures SameBlocks(Blocks(StripEnd(Flatten(o)) + ["", DEMOTED_HEADING, pointer, ""], level),
                       BlocksOf(o.pieces, |o.preamble|, level))
  {
    PointerPieceTidy(pointer, level);
    assert [""] + PointerPiece(pointer).lines == ["", DEMOTED_HEADING, pointer, ""];
    PieceAtEnd(o, PointerPiece(pointer), level);
  }

  /** A tidy part after an empty line at the end of a tidy file adds its own block, if it is one, and nothing else. */
  lemma PieceAtEnd(o: Outline, q: Piece, level: nat)
    requires Tidy(o, level) && TidyPiece(q, level)
    ensures SameBlocks(Blocks(StripEnd(Flatten(o)) + ([""] + q.lines), level),
                       BlocksOf(o.pieces, |o.preamble|, level) + BlockOf(q, 0, level))
  {
    var r := RestripLast(o);
    var o' := Outline(r.preamble, r.pieces + [q]);
    RestripLastTidy(o, level);
    RestripLastFlatten(o, level);
    FlattenLast(r.preamble, r.pieces, q);
    Associate(StripEnd(Flatten(o)), [""], q.lines);
    TidyWithPiece(r, q, level);
    OutlineUndoesFlatten(o', level);
    assert forall p :: p in o.pieces ==> p.lines != [];
    RestripLastSame(o);
    OneMorePiece(r.pieces, o.pieces, q, |r.preamble|, |o.preamble|, level);
  }

  lemma TidyWithPiece(o: Outline, q: Piece, level: nat)
    requires Tidy(o, level) && TidyPiece(q, level)
    ensures Tidy(Outline(o.preamble, o.pieces + [q]), level)
  {
  }

  lemma OneMorePiece(a: seq<Piece>, b: seq<Piece>, q: Piece, n: nat, m: nat, level: nat)
    requires SamePieces(a, b)
    ensures SameBlocks(BlocksOf(a + [q], n, level), BlocksOf(b, m, level) + BlockOf(q, 0, level))
  {
    var at := n + |FlattenPieces(a)|;
    BlocksOfConcat(a, [q], n, level);
    BlocksOfOne(q, at, level);
    SamePiecesSameBlocks(a, b, n, m, level);
    SameBlocksConcat(BlocksOf(a, n, level), BlocksOf(b, m, level), BlockOf(q, at, level), BlockOf(q, 0, level));
  }

  /** Removing a line range whose fences balance does not change what is fenced after it. */
  lemma UnfencedAfterRemoval(left: seq<Line>, mid: seq<Line>, right: seq<Line>)
    requires FenceAfter(Closed, left) == Closed && FenceAfter(Closed, mid) == Closed
    requires DemotedUnfenced(left + mid + right)
    ensures DemotedUnfenced(left + right)
  {
    var all, cut := left + mid + right, left + right;
    forall i | 0 <= i < |cut| && cut[i] == DEMOTED_HEADING ensures FenceAfter(Closed, cut[..i]) == Closed {
      if i < |left| {
        assert all[i] == cut[i] && all[..i] == cut[..i];
      } else {
        var j := i + |mid|;
        assert all[j] == cut[i];
        assert all[..j] == (left + mid) + right[..i - |left|];
        assert cut[..i] == left + right[..i - |left|];
        FenceAfterConcat(Closed, left + mid, right[..i - |left|]);
        FenceAfterConcat(Closed, left, mid);
        FenceAfterConcat(Closed, left, right[..i - |left|]);
      }
    }
  }

  /** Adding the pointer to a tidy file changes no block. */
  lemma PointerKeepsBlocks(o: Outline, pointer: Line, level: nat)
    requires Tidy(o, level) && level >= 3 && KindOf(pointer) == Plain
    requires DemotedUnfenced(Flatten(o))
    ensures SameBlocks(Blocks(AppendPointer(Flatten(o), pointer), level), BlocksOf(o.pieces, |o.preamble|, level))
  {
    match IndexOfLine(Flatten(o), DEMOTED_HEADING)
    case Some(h) => PointerUnderHeading(o, pointer, h, level);
    case None => PointerAtEnd(o, pointer, level);
  }

  /** A file around one of its blocks, with the outline that the rest has. */
  lemma CutBlock(src: seq<Line>, k: nat, level: nat) returns (j: nat)
    requires k < |Blocks(src, level)|
    ensures var o, b := OutlineOf(src, level), Blocks(src, level)[k];
      && b.start <= b.end <= |src|
      && j < |o.pieces| && o.pieces[j].level == level
      && |BlocksOf(o.pieces[..j], |o.preamble|, level)| == k
      && b.title == o.pieces[j].title && b.lines == o.pieces[j].lines
      && src[..b.start] == o.preamble + FlattenPieces(o.pieces[..j])
      && src[b.end..] == FlattenPieces(o.pieces[j + 1..])
      && src == src[..b.start] + b.lines + src[b.end..]
  {
    var o := OutlineOf(src, level);
    j := PieceOfBlock(o.pieces, |o.preamble|, level, k);
    SplitAt(src, level, j);
    BlockRange(src, level, k);
  }

  /** What is left of a tidy file is tidy, and its headings stay unfenced. */
  lemma RestTidy(o: Outline, j: nat, src: seq<Line>, level: nat)
    requires Tidy(o, level) && j < |o.pieces| && DemotedUnfenced(src)
    requires src == (o.preamble + FlattenPieces(o.pieces[..j])) + o.pieces[j].lines + FlattenPieces(o.pieces[j + 1..])
    ensures var rest := o.(pieces := o.pieces[..j] + o.pieces[j + 1..]);
      && Tidy(rest, level)
      && Flatten(rest) == (o.preamble + FlattenPieces(o.pieces[..j])) + FlattenPieces(o.pieces[j + 1..])
      && DemotedUnfenced(Flatten(rest))
  {
    var a, p, c := o.pieces[..j], o.pieces[j], o.pieces[j + 1..];
    FlattenPiecesConcat(a, c);
    Associate(o.preamble, FlattenPieces(a), FlattenPieces(c));
    TidyPrefix(a, level);
    FenceAfterConcat(Closed, o.preamble, FlattenPieces(a));
    PieceFence(p, level);
    UnfencedAfterRemoval(o.preamble + FlattenPieces(a), p.lines, FlattenPieces(c));
  }

  /** The same for a file left empty. */
  lemma PointerKeepsRest(o: Outline, pointer: Line, level: nat)
    requires Tidy(o, level) && level >= 3 && KindOf(pointer) == Plain
    requires DemotedUnfenced(Flatten(o))
    ensures SameBlocks(Blocks(AppendPointer(NonEmpty(Flatten(o)), pointer), level), BlocksOf(o.pieces, |o.preamble|, level))
  {
    if Flatten(o) == [] {
      TidyPiecesLength(o.pieces, level);
      EmptiedFile(pointer, level);
    } else {
      PointerKeepsBlocks(o, pointer, level);
    }
  }

  /** The source keeps every other block and gains none. */
  lemma SourceKeepsOthers(src: seq<Line>, k: nat, pointer: Line, level: nat)
    requires level >= 3 && FenceAfter(Closed, src) == Closed && DemotedUnfenced(src)
    requires k < |Blocks(src, level)| && KindOf(pointer) == Plain
    ensures var b := Blocks(src, level)[k];
      && b.start <= b.end <= |src|
      && SameBlocks(Blocks(AppendPointer(RemoveBlock(src, b), pointer), level),
                    Blocks(src, level)[..k] + Blocks(src, level)[k + 1..])
  {
    var o := OutlineOf(src, level);
    OutlineTidy(src, level);
    var j := CutBlock(src, k, level);
    RestTidy(o, j, src, level);
    var rest := o.(pieces := o.pieces[..j] + o.pieces[j + 1..]);
    PointerKeepsRest(rest, pointer, level);
    RemovedBlocks(o, j, k, level);
    SameBlocksTrans(Blocks(AppendPointer(NonEmpty(Flatten(rest)), pointer), level),
                    BlocksOf(rest.pieces, |rest.preamble|, level),
                    Blocks(src, level)[..k] + Blocks(src, level)[k + 1..]);
  }

  lemma TidyPiecesLength(pieces: seq<Piece>, level: nat)
    requires TidyPieces(pieces, level)
    ensures |FlattenPieces(pieces)| >= |pieces|
  {
    if pieces != [] {
      assert TidyPiece(pieces[0], level);
      TidyPiecesLength(pieces[1..], level);
    }
  }

  lemma EmptiedFile(pointer: Line, level: nat)
    requires level >= 3 && KindOf(pointer) == Plain
    ensures SameBlocks(Blocks(AppendPointer([""], pointer), level), [])
  {
    var o := Outline([""], []);
    EmptyLines([""], level);
    assert Flatten(o) == [""];
    assert DEMOTED_HEADING != "";
    PointerKeepsBlocks(o, pointer, level);
  }

  lemma SameBlocksTrans(a: seq<Block>, b: seq<Block>, c: seq<Block>)
    requires SameBlocks(a, b) && SameBlocks(b, c)
    ensures SameBlocks(a, c)
  {
    forall i | 0 <= i < |a| ensures SameBlock(a[i], c[i]) {
      assert SameBlock(a[i], b[i]) && SameBlock(b[i], c[i]);
    }
  }

  /** Dropping the piece of block `k` drops exactly that block. */
  lemma RemovedBlocks(o: Outline, j: nat, k: nat, level: nat)
    requires j < |o.pieces| && o.pieces[j].level == level
    requires |BlocksOf(o.pieces[..j], |o.preamble|, level)| == k
    ensures var bs := BlocksOf(o.pieces, |o.preamble|, level);
      && k < |bs|
      && SameBlocks(BlocksOf(o.pieces[..j] + o.pieces[j + 1..], |o.preamble|, level), bs[..k] + bs[k + 1..])
  {
    var a, p, c := o.pieces[..j], o.pieces[j], o.pieces[j + 1..];
    assert o.pieces == a + [p] + c;
    DropBlock(a, p, c, |o.preamble|, level);
    var bs := BlocksOf(o.pieces, |o.preamble|, level);
    var first := BlocksOf(a, |o.preamble|, level);
    assert bs[..k] == first;
    assert bs[k + 1..] == BlocksOf(c, |o.preamble| + |FlattenPieces(a)| + |p.lines|, level);
  }

  lemma DropBlock(a: seq<Piece>, p: Piece, c: seq<Piece>, n: nat, level: nat)
    requires p.level == level
    ensures var first, last := BlocksOf(a, n, level), BlocksOf(c, n + |FlattenPieces(a)| + |p.lines|, level);
      && |BlockOf(p, n + |FlattenPieces(a)|, level)| == 1
      && BlocksOf(a + [p] + c, n, level) == first + BlockOf(p, n + |FlattenPieces(a)|, level) + last
      && SameBlocks(BlocksOf(a + c, n, level), first + last)
  {
    BlocksAround(a, p, c, n, level);
    BlocksOfConcat(a, c, n, level);
    var x := n + |FlattenPieces(a)|;
    SameBlocksRefl(BlocksOf(a, n, level));
    SamePiecesRefl(c);
    SamePiecesSameBlocks(c, c, x, x + |p.lines|, level);
    SameBlocksConcat(BlocksOf(a, n, level), BlocksOf(a, n, level), BlocksOf(c, x, level), BlocksOf(c, x + |p.lines|, level));
  }

  lemma BlankNoBlocks(lines: seq<Line>, level: nat)
    requires !HasText(lines)
    ensures Blocks(lines, level) == []
  {
    BlankPlain(lines);
    PlainLines(lines, level);
    ScanPlain(START, lines, level);
  }

  lemma BlankPlain(lines: seq<Line>)
    requires !HasText(lines)
    ensures forall i :: 0 <= i < |lines| ==> KindOf(lines[i]) == Plain
  {
    forall i | 0 <= i < |lines| ensures KindOf(lines[i]) == Plain {
      assert IsBlank(lines[i]);
      BlankLinePlain(lines[i]);
    }
  }

  lemma BlankLinePlain(line: Line)
    requires IsBlank(line)
    ensures KindOf(line) == Plain
  {
    assert FenceOf(line).None?;
    assert line != [] ==> IsSpace(line[0]);
    assert RunLength('#', line) == 0;
  }

  /** The destination keeps its blocks and gains the moved one at the end. */
  lemma DestinationGainsBlock(dest: Option<seq<Line>>, p: Piece, level: nat)
    requires FenceAfter(Closed, DestLines(dest)) == Closed
    requires TidyPiece(p, level) && p.level == level
    ensures SameBlocks(Blocks(AppendBody(dest, p.lines), level),
                       Blocks(DestLines(dest), level) + [Block(p.title, p.lines, 0, |p.lines|)])
  {
    var d, q := DestLines(dest), Restrip(p);
    var bs := Blocks(d, level);
    TidyPieceRestrip(p, level);
    if dest.Some? && HasText(d) {
      OutlineTidy(d, level);
      FlattenUndoesOutline(d, level);
      PieceAtEnd(OutlineOf(d, level), q, level);
      AssociateFour(StripEnd(d), [""], StripEnd(p.lines), [""]);
    } else {
      BlankText(dest);
      BlankNoBlocks(d, level);
      OnlyPiece(q, level);
      assert bs + BlockOf(q, 0, level) == BlockOf(q, 0, level);
    }
    assert SameBlocks(BlockOf(q, 0, level), [Block(p.title, p.lines, 0, |p.lines|)]);
    SameBlocksRefl(bs);
    SameBlocksConcat(bs, bs, BlockOf(q, 0, level), [Block(p.title, p.lines, 0, |p.lines|)]);
    SameBlocksTrans(Blocks(AppendBody(dest, p.lines), level), bs + BlockOf(q, 0, level),
                    bs + [Block(p.title, p.lines, 0, |p.lines|)]);
  }

  lemma AssociateFour<T>(a: seq<T>, b: seq<T>, c: seq<T>, d: seq<T>)
    ensures ((a + b) + c) + d == a + (b + (c + d))
  {
  }

  lemma SameBlocksRefl(bs: seq<Block>)
    ensures SameBlocks(bs, bs)
  {
  }

  lemma OnlyPiece(q: Piece, level: nat)
    requires TidyPiece(q, level)
    ensures SameBlocks(Blocks(q.lines, level), BlockOf(q, 0, level))
  {
    var o := Outline([], [q]);
    FlattenOne(q);
    assert Flatten(o) == q.lines;
    OutlineUndoesFlatten(o, level);
    BlocksOfOne(q, 0, level);
    SameBlocksRefl(BlockOf(q, 0, level));
  }

  lemma BlankText(dest: Option<seq<Line>>)
    requires !(dest.Some? && HasText(DestLines(dest)))
    ensures !HasText(DestLines(dest))
  {
    assert IsBlank("");
  }

  /** First answer among blocks that only differ in trailing empty lines. */
  lemma {:induction false} FindSameBlocks(a: seq<Block>, b: seq<Block>, want: string)
    requires SameBlocks(a, b)
    ensures FindBlock(a, want) == FindBlock(b, want)
  {
    if a != [] {
      assert SameBlock(a[0], b[0]);
      assert SameBlocks(a[1..], b[1..]) by {
        forall i | 0 <= i < |a[1..]| ensures SameBlock(a[1..][i], b[1..][i]) {
          assert SameBlock(a[i + 1], b[i + 1]);
        }
      }
      FindSameBlocks(a[1..], b[1..], want);
    }
  }

  lemma FindAppended(bs: seq<Block>, b: Block, want: string)
    requires FindBlock(bs, want).None? && Answers(b, want)
    ensures FindBlock(bs + [b], want) == Some(|bs|)
  {
    var r := FindBlock(bs + [b], want);
    assert (bs + [b])[|bs|] == b;
    assert forall i :: 0 <= i < |bs| ==> (bs + [b])[i] == bs[i];
  }

  /**
   At a split level of 3 or deeper, with fences closed at the end of both files and any existing pointer
   heading unfenced, a move changes no other block of either file, no block absorbs the pointer, and the
   moved block's short anchor resolves to it in the destination.
   */
  lemma DemoteDisturbsNothing(src: seq<Line>, dest: Option<seq<Line>>, anchor: string, destBase: string, level: nat)
    requires level >= 3
    requires FenceAfter(Closed, src) == Closed && FenceAfter(Closed, DestLines(dest)) == Closed
    requires DemotedUnfenced(src)
    requires Stage(src, dest, anchor, destBase, level).Ready?
    ensures var r, k := Stage(src, dest, anchor, destBase, level), ResolveBlock(src, anchor, level).value;
      && r.block == Blocks(src, level)[k]
      && SameBlocks(Blocks(r.newSrc, level), Blocks(src, level)[..k] + Blocks(src, level)[k + 1..])
      && SameBlocks(Blocks(r.newDest, level), Blocks(DestLines(dest), level) + [r.block])
      && var at := ResolveBlock(r.newDest, ShortAnchorOf(r.block.title), level);
         at.Some? && SameBlock(Blocks(r.newDest, level)[at.value], r.block)
  {
    var k := ResolveBlock(src, anchor, level).value;
    var b := Blocks(src, level)[k];
    PointerShape(b, destBase);
    SourceKeepsOthers(src, k, PointerLine(b, destBase), level);
    var o := OutlineOf(src, level);
    OutlineTidy(src, level);
    var j := PieceOfBlock(o.pieces, |o.preamble|, level, k);
    DestinationGainsBlock(dest, o.pieces[j], level);
    MovedResolves(src, dest, b, level);
  }

  lemma MovedResolves(src: seq<Line>, dest: Option<seq<Line>>, b: Block, level: nat)
    requires ResolveBlock(DestLines(dest), ShortAnchorOf(b.title), level).None?
    requires SameBlocks(Blocks(AppendBody(dest, b.lines), level),
                        Blocks(DestLines(dest), level) + [Block(b.title, b.lines, 0, |b.lines|)])
    ensures SameBlocks(Blocks(AppendBody(dest, b.lines), level), Blocks(DestLines(dest), level) + [b])
    ensures var at := ResolveBlock(AppendBody(dest, b.lines), ShortAnchorOf(b.title), level);
      at.Some? && SameBlock(Blocks(AppendBody(dest, b.lines), level)[at.value], b)
  {
    var before, after := Blocks(DestLines(dest), level), Blocks(AppendBody(dest, b.lines), level);
    var short := ShortAnchorOf(b.title);
    SlugifyIdempotent(Lead(b.title));
    assert Slugify(short) == short;
    SameBlocksConcatRefl(before, Block(b.title, b.lines, 0, |b.lines|), b);
    SameBlocksTrans(after, before + [Block(b.title, b.lines, 0, |b.lines|)], before + [b]);
    FindSameBlocks(after, before + [b], short);
    FindAppended(before, b, short);
    assert SameBlock(after[|before|], (before + [b])[|before|]);
  }

  lemma SameBlocksConcatRefl(bs: seq<Block>, a: Block, b: Block)
    requires SameBlock(a, b)
    ensures SameBlocks(bs + [a], bs + [b])
  {
  }

  // ---------------------------------------------------------------- the two writes

  /** What happens to one atomic write: done, failed with no effect, or a crash before or after its rename. */
  datatype Fate = Done | Failed | CrashBefore | CrashAfter

  datatype Report =
    | Refused            // nothing to move, or the anchor is taken
    | Moved
    | NoChange           // a write failed and nothing was changed or the destination was rolled back
    | Reconcile          // the source write and the rollback both failed
    | Crashed

  /** The lines stand somewhere in the file, one after another. */
  ghost predicate Carries(file: seq<Line>, lines: seq<Line>) {
    exists before: seq<Line>, after: seq<Line> :: file == before + lines + after
  }

  lemma SourceCarries(src: seq<Line>, b: Block)
    requires b.start <= b.end <= |src| && src[b.start..b.end] == b.lines
    ensures Carries(src, StripEnd(b.lines))
  {
    var r := StripEnd(b.lines);
    assert src == src[..b.start] + b.lines + src[b.end..];
    assert b.lines == r + b.lines[|r|..];
    Inside(src[..b.start], r, b.lines[|r|..], src[b.end..]);
  }

  lemma Inside(a: seq<Line>, r: seq<Line>, rest: seq<Line>, c: seq<Line>)
    ensures Carries(a + (r + rest) + c, r)
  {
    assert a + (r + rest) + c == a + r + (rest + c);
  }

  lemma DestinationCarries(dest: Option<seq<Line>>, body: seq<Line>)
    ensures Carries(AppendBody(dest, body), StripEnd(body))
  {
    if !(dest.Some? && HasText(dest.value)) {
      assert StripEnd(body) + [""] == [] + StripEnd(body) + [""];
    }
  }

  /** Before the move the source carries the block's lines, after it the destination does. */
  lemma BlockCarried(src: seq<Line>, dest: Option<seq<Line>>, anchor: string, destBase: string, level: nat)
    requires Stage(src, dest, anchor, destBase, level).Ready?
    ensures var r := Stage(src, dest, anchor, destBase, level);
      Carries(src, StripEnd(r.block.lines)) && Carries(r.newDest, StripEnd(r.block.lines))
  {
    Staging(src, dest, anchor, destBase, level);
    var b := Stage(src, dest, anchor, destBase, level).block;
    SourceCarries(src, b);
    DestinationCarries(dest, b.lines);
  }

  /** A pointer line holds the anchor, at most 60 characters of the title, and where the block went. */
  lemma PointerSpelled(b: Block, destBase: string)
    ensures DEMOTED_HEADING == "## Demoted (pointers to relocated blocks)"
    ensures exists shown: string ::
      && shown <= b.title && |shown| == (if |b.title| < 60 then |b.title| else 60)
      && PointerLine(b, destBase) ==
           "- [#" + ShortAnchorOf(b.title) + "] " + shown + " -> [[" + destBase + "#" + ShortAnchorOf(b.title) + "]]"
  {
    assert Prefix60(b.title) <= b.title;
  }

  class MemoryDir {
    var src: seq<Line>
    var dest: Option<seq<Line>>

    constructor (src: seq<Line>, dest: Option<seq<Line>>)
      ensures this.src == src && this.dest == dest
    {
      this.src := src;
      this.dest := dest;
    }

    /**
     Write the destination, then the source, rolling the destination back when the source write fails. The report
     and both files for every fate of the writes; whatever they are, the block is in at least one file.
     */
    method CmdDemote(anchor: string, destBase: string, level: nat, destFate: Fate, srcFate: Fate, undoFate: Fate)
      returns (report: Report)
      modifies this
      ensures var r := old(Stage(src, dest, anchor, destBase, level));
        && (report.Refused? <==> !r.Ready?)
        && (report.Moved? <==> r.Ready? && destFate.Done? && srcFate.Done?)
        && (report.Reconcile? <==> r.Ready? && destFate.Done? && srcFate.Failed? && undoFate.Failed?)
        && (report.NoChange? <==> r.Ready? && (destFate.Failed? || (destFate.Done? && srcFate.Failed? && undoFate.Done?)))
        && src == (if r.Ready? && destFate.Done? && (srcFate.Done? || srcFate.CrashAfter?) then r.newSrc else old(src))
        && dest == (if && r.Ready? && (destFate.Done? || destFate.CrashAfter?)
                       && !(destFate.Done? && srcFate.Failed? && (undoFate.Done? || undoFate.CrashAfter?))
                    then Some(r.newDest) else old(dest))
      ensures var r := old(Stage(src, dest, anchor, destBase, level));
        r.Ready? ==>
          Carries(src, StripEnd(r.block.lines)) || (dest.Some? && Carries(dest.value, StripEnd(r.block.lines)))
    {
      var staged := Stage(src, dest, anchor, destBase, level);
      if !staged.Ready? {
        return Refused;
      }
      BlockCarried(src, dest, anchor, destBase, level);
      var oldDest := dest;
      match destFate {
        case Failed => return NoChange;
        case CrashBefore => return Crashed;
        case CrashAfter => dest := Some(staged.newDest); return Crashed;
        case Done => dest := Some(staged.newDest);
      }
      match srcFate {
        case CrashBefore => return Crashed;
        case CrashAfter => src := staged.newSrc; return Crashed;
        case Done => src := staged.newSrc; return Moved;
        case Failed =>
      }
      match undoFate {
        case Failed => return Reconcile;
        case CrashBefore => return Crashed;
        case CrashAfter => dest := oldDest; return Crashed;
        case Done => dest := oldDest; return NoChange;
      }
    }
  }
}
