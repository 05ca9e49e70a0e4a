/**
 Fences and headings spelled out character by character, the fenced spans of a file, and its sections: what the block
 parser computes, said without its running fence state.
 */
module FenceSpans {
  import opened Wrappers
  import opened MemoryBlocks

  // ---------------------------------------------------------------- lines, character by character

  predicate AllAre(s: string, c: char) { forall i :: 0 <= i < |s| ==> s[i] == c }

  predicate AllSpace(s: string) { forall i :: 0 <= i < |s| ==> IsSpace(s[i]) }

  /** At most three spaces, then exactly `n` of the marker, at least three. */
  ghost predicate FenceLine(line: Line, marker: char, n: nat) {
    && (marker == '`' || marker == '~') && n >= 3
    && exists indent: nat :: indent <= 3 && FenceAt(line, marker, n, indent)
  }

  predicate FenceAt(line: Line, marker: char, n: nat, indent: nat) {
    && indent + n <= |line|
    && AllAre(line[..indent], ' ') && AllAre(line[indent..indent + n], marker)
    && (indent + n == |line| || line[indent + n] != marker)
  }

  /** Between one and six hashes, white space, and a title on one line with no space around it. */
  ghost predicate HeadingLine(line: Line, level: nat, title: string) {
    && 1 <= level <= 6
    && title != [] && !IsSpace(title[0]) && !IsSpace(title[|title| - 1])
    && (forall i :: 0 <= i < |title| ==> !IsTerminator(title[i]))
    && exists a: nat, b: nat :: HeadingAt(line, level, title, a, b)
  }

  predicate HeadingAt(line: Line, level: nat, title: string, a: nat, b: nat) {
    && level < a <= b <= |line|
    && AllAre(line[..level], '#') && AllSpace(line[level..a]) && line[a..b] == title && AllSpace(line[b..])
  }

  lemma AllAreTail(c: char, s: string, n: nat)
    requires 0 < n <= |s|
    ensures AllAre(s[..n], c) <==> s[0] == c && AllAre(s[1..][..n - 1], c)
  {
    var t := s[1..][..n - 1];
    assert s[..n] == [s[0]] + t;
    if AllAre(s[..n], c) {
      assert s[..n][0] == s[0] && forall i :: 0 <= i < |t| ==> t[i] == s[..n][i + 1];
    }
  }

  lemma {:induction false} RunLengthIs(c: char, s: string, n: nat)
    requires n <= |s|
    ensures RunLength(c, s) == n <==> AllAre(s[..n], c) && (n == |s| || s[n] != c)
  {
    if n > 0 {
      AllAreTail(c, s, n);
      if s[0] == c { RunLengthIs(c, s[1..], n - 1); }
    }
  }

  lemma FenceOfIs(line: Line, marker: char, n: nat)
    requires FenceOf(line) == Some((marker, n))
    ensures FenceLine(line, marker, n)
  {
    var indent := RunLength(' ', line);
    RunLengthIs(' ', line, indent);
    RunLengthIs(marker, line[indent..], n);
    assert line[indent..][..n] == line[indent..indent + n];
    assert FenceAt(line, marker, n, indent);
  }

  lemma FenceLineIs(line: Line, marker: char, n: nat, indent: nat)
    requires marker == '`' || marker == '~'
    requires n >= 3 && indent <= 3 && FenceAt(line, marker, n, indent)
    ensures FenceOf(line) == Some((marker, n))
  {
    assert line[indent..indent + n][0] == line[indent];
    RunLengthIs(' ', line, indent);
    assert line[indent..][..n] == line[indent..indent + n];
    RunLengthIs(marker, line[indent..], n);
  }

  lemma FenceOfIff(line: Line, marker: char, n: nat)
    ensures FenceOf(line) == Some((marker, n)) <==> FenceLine(line, marker, n)
  {
    if FenceOf(line) == Some((marker, n)) { FenceOfIs(line, marker, n); }
    if FenceLine(line, marker, n) {
      var indent: nat :| indent <= 3 && FenceAt(line, marker, n, indent);
      FenceLineIs(line, marker, n, indent);
    }
  }

  lemma {:induction false} TrimStartIs(s: string, a: nat)
    requires a <= |s| && AllSpace(s[..a]) && (a == |s| || !IsSpace(s[a]))
    ensures TrimStart(s) == s[a..]
  {
    if a > 0 {
      assert s[..a][0] == s[0];
      assert s[1..][..a - 1] == s[..a][1..];
      TrimStartIs(s[1..], a - 1);
    }
  }

  lemma {:induction false} TrimEndIs(s: string, b: nat)
    requires b <= |s| && AllSpace(s[b..]) && (b == 0 || !IsSpace(s[b - 1]))
    ensures TrimEnd(s) == s[..b]
  {
    if b < |s| {
      var t := s[..|s| - 1];
      assert s[b..][|s| - 1 - b] == s[|s| - 1];
      assert t[b..] == s[b..][..|s| - 1 - b];
      TrimEndIs(t, b);
      assert t[..b] == s[..b];
    } else {
      assert s[..b] == s;
    }
  }

  lemma {:induction false} TrimStartAt(s: string) returns (a: nat)
    ensures a <= |s| && AllSpace(s[..a]) && (a == |s| || !IsSpace(s[a]))
  {
    if s == [] || !IsSpace(s[0]) {
      a := 0;
    } else {
      var k := TrimStartAt(s[1..]);
      a := k + 1;
      assert s[..a] == [s[0]] + s[1..][..k];
    }
  }

  lemma {:induction false} TrimEndAt(s: string) returns (b: nat)
    ensures b <= |s| && AllSpace(s[b..]) && (b == 0 || !IsSpace(s[b - 1]))
  {
    if s == [] || !IsSpace(s[|s| - 1]) {
      b := |s|;
    } else {
      var t := s[..|s| - 1];
      b := TrimEndAt(t);
      assert s[b..] == t[b..] + [s[|s| - 1]];
    }
  }

  /** Where what trimming leaves begins and ends. */
  lemma TrimmedAt(s: string) returns (a: nat, b: nat)
    requires TrimEnd(TrimStart(s)) != []
    ensures a < b <= |s| && TrimEnd(TrimStart(s)) == s[a..b]
    ensures AllSpace(s[..a]) && !IsSpace(s[a]) && !IsSpace(s[b - 1]) && AllSpace(s[b..])
  {
    a := TrimStartAt(s);
    TrimStartIs(s, a);
    b := TrimEndAt(s[a..]);
    TrimEndIs(s[a..], b);
    assert s[a..][b..] == s[a + b..] && s[a..][..b] == s[a..a + b];
    b := a + b;
  }

  lemma HeadingOfParts(line: Line, level: nat, title: string)
    requires HeadingOf(line) == Some((level, title))
    ensures level == RunLength('#', line) && 1 <= level <= 6 && level < |line| && IsSpace(line[level])
    ensures title == TrimEnd(TrimStart(line[level..])) && title != []
    ensures forall i :: 0 <= i < |title| ==> !IsTerminator(title[i])
  {
  }

  lemma HeadingOfIs(line: Line, level: nat, title: string)
    requires HeadingOf(line) == Some((level, title))
    ensures HeadingLine(line, level, title)
  {
    HeadingOfParts(line, level, title);
    RunLengthIs('#', line, level);
    var a, b := TrimmedAt(line[level..]);
    Suffix(line, level, level + a, level + b);
    assert HeadingAt(line, level, title, level + a, level + b);
  }

  lemma HeadingLineIs(line: Line, level: nat, title: string, a: nat, b: nat)
    requires HeadingLine(line, level, title) && HeadingAt(line, level, title, a, b)
    ensures HeadingOf(line) == Some((level, title))
  {
    assert line[level..a][0] == line[level] && IsSpace(line[level]);
    RunLengthIs('#', line, level);
    assert title[0] == line[a] && title[|title| - 1] == line[b - 1];
    Suffix(line, level, a, b);
    TrimmedIs(line[level..], a - level, b - level);
  }

  lemma Suffix(line: Line, level: nat, a: nat, b: nat)
    requires level <= a <= b <= |line|
    ensures line[level..][..a - level] == line[level..a]
    ensures line[level..][a - level..b - level] == line[a..b]
    ensures line[level..][b - level..] == line[b..]
  {
  }

  lemma TrimmedIs(s: string, a: nat, b: nat)
    requires a < b <= |s| && AllSpace(s[..a]) && !IsSpace(s[a]) && !IsSpace(s[b - 1]) && AllSpace(s[b..])
    ensures TrimEnd(TrimStart(s)) == s[a..b]
  {
    TrimStartIs(s, a);
    assert s[a..][b - a..] == s[b..] && s[a..][..b - a] == s[a..b];
    TrimEndIs(s[a..], b - a);
  }

  /** The kind of a line is what it spells. */
  lemma HeadingOfIff(line: Line, level: nat, title: string)
    ensures HeadingOf(line) == Some((level, title)) <==> HeadingLine(line, level, title)
  {
    if HeadingOf(line) == Some((level, title)) { HeadingOfIs(line, level, title); }
    if HeadingLine(line, level, title) {
      var a: nat, b: nat :| HeadingAt(line, level, title, a, b);
      HeadingLineIs(line, level, title, a, b);
    }
  }

  lemma HeadingIsNoFence(line: Line)
    requires HeadingOf(line).Some?
    ensures FenceOf(line).None?
  {
  }

  lemma KindIs(line: Line)
    ensures forall m, n: nat :: KindOf(line) == FenceMark(m, n) <==> FenceLine(line, m, n)
    ensures forall l: nat, s :: KindOf(line) == Heading(l, s) <==> HeadingLine(line, l, s)
  {
    if HeadingOf(line).Some? { HeadingIsNoFence(line); }
    forall m, n: nat ensures KindOf(line) == FenceMark(m, n) <==> FenceLine(line, m, n) { FenceOfIff(line, m, n); }
    forall l: nat, s ensures KindOf(line) == Heading(l, s) <==> HeadingLine(line, l, s) { HeadingOfIff(line, l, s); }
  }

  // ---------------------------------------------------------------- fenced spans

  /** From an opening fence line to the line that closes it, or to the end of the file. */
  datatype Span = Span(open: nat, close: nat, marker: char, len: nat)

  /** A fence line of the same marker, at least as long. */
  ghost predicate Closes(line: Line, s: Span) { exists n: nat :: n >= s.len && FenceLine(line, s.marker, n) }

  ghost predicate SpanOk(lines: seq<Line>, s: Span) {
    && s.open < s.close <= |lines|
    && FenceLine(lines[s.open], s.marker, s.len)
    && (forall i :: s.open < i < s.close ==> !Closes(lines[i], s))
    && (s.close < |lines| ==> Closes(lines[s.close], s))
  }

  predicate Covers(s: Span, i: nat) { s.open <= i <= s.close }

  predicate Inside(spans: seq<Span>, i: nat) { exists k :: 0 <= k < |spans| && Covers(spans[k], i) }

  ghost predicate IsFenceLine(line: Line) { exists m, n: nat :: FenceLine(line, m, n) }

  /** The spans of a file: one after another, with every fence line in one of them. */
  ghost predicate Fencing(lines: seq<Line>, spans: seq<Span>) {
    AllOk(lines, spans) && Apart(spans) && AllInside(lines, spans)
  }

  ghost predicate AllOk(lines: seq<Line>, spans: seq<Span>) {
    forall k :: 0 <= k < |spans| ==> SpanOk(lines, spans[k])
  }

  predicate Apart(spans: seq<Span>) {
    forall k, l :: 0 <= k < l < |spans| ==> spans[k].close < spans[l].open
  }

  ghost predicate AllInside(lines: seq<Line>, spans: seq<Span>) {
    forall i :: 0 <= i < |lines| && IsFenceLine(lines[i]) ==> Inside(spans, i)
  }

  // ---------------------------------------------------------------- the running state against the spans

  predicate Within(s: Span, i: nat) { s.open < i <= s.close }

  /** The state before line `i`. */
  ghost predicate StateAt(spans: seq<Span>, i: nat, f: Fence) {
    match f
    case Closed => forall k :: 0 <= k < |spans| ==> !Within(spans[k], i)
    case Open(m, n) => exists k :: 0 <= k < |spans| && Within(spans[k], i) && spans[k].marker == m && spans[k].len == n
  }

  lemma FenceLineUnique(line: Line, s: Span)
    requires FenceLine(line, s.marker, s.len)
    ensures KindOf(line) == FenceMark(s.marker, s.len)
  {
    KindIs(line);
  }

  lemma StateFromClosed(lines: seq<Line>, spans: seq<Span>, i: nat)
    requires Fencing(lines, spans) && i < |lines| && StateAt(spans, i, Closed)
    ensures StateAt(spans, i + 1, NextFence(Closed, lines[i]))
  {
    KindIs(lines[i]);
    if KindOf(lines[i]).FenceMark? {
      assert IsFenceLine(lines[i]);
      var k :| 0 <= k < |spans| && Covers(spans[k], i);
      assert !Within(spans[k], i);
      FenceLineUnique(lines[i], spans[k]);
      assert Within(spans[k], i + 1);
    } else {
      forall k | 0 <= k < |spans| ensures !Within(spans[k], i + 1) {
        if Within(spans[k], i + 1) {
          assert !Within(spans[k], i);
          FenceLineUnique(lines[i], spans[k]);
        }
      }
    }
  }

  lemma ClosesIff(line: Line, s: Span)
    ensures Closes(line, s) <==> NextFence(Open(s.marker, s.len), line) == Closed
  {
    KindIs(line);
  }

  /** A closed span leaves no other open. */
  lemma ClosedAfter(lines: seq<Line>, spans: seq<Span>, i: nat, k: nat)
    requires AllOk(lines, spans) && Apart(spans) && k < |spans| && Within(spans[k], i) && i == spans[k].close
    ensures StateAt(spans, i + 1, Closed)
  {
    forall l | 0 <= l < |spans| ensures !Within(spans[l], i + 1) {
      assert SpanOk(lines, spans[l]);
      OnlyLater(spans, k, l);
    }
  }

  lemma OnlyLater(spans: seq<Span>, k: nat, l: nat)
    requires Apart(spans) && k < |spans| && l < |spans|
    ensures k < l ==> spans[k].close < spans[l].open
    ensures l < k ==> spans[l].close < spans[k].open
  {
  }

  lemma StateFromOpen(lines: seq<Line>, spans: seq<Span>, i: nat, k: nat)
    requires Fencing(lines, spans) && i < |lines| && k < |spans| && Within(spans[k], i)
    ensures StateAt(spans, i + 1, NextFence(Open(spans[k].marker, spans[k].len), lines[i]))
  {
    assert SpanOk(lines, spans[k]);
    ClosesIff(lines[i], spans[k]);
    if i < spans[k].close {
      StaysOpen(lines[i], spans[k]);
      assert Within(spans[k], i + 1);
    } else {
      ClosedAfter(lines, spans, i, k);
    }
  }

  lemma StaysOpen(line: Line, s: Span)
    requires !Closes(line, s)
    ensures NextFence(Open(s.marker, s.len), line) == Open(s.marker, s.len)
  {
    ClosesIff(line, s);
  }

  lemma StateNext(lines: seq<Line>, i: nat)
    requires i < |lines|
    ensures FenceAfter(Closed, lines[..i + 1]) == NextFence(FenceAfter(Closed, lines[..i]), lines[i])
  {
    assert lines[..i + 1] == lines[..i] + [lines[i]];
    FenceAfterConcat(Closed, lines[..i], [lines[i]]);
    FenceAfterOne(FenceAfter(Closed, lines[..i]), lines[i]);
  }

  lemma StateKept(lines: seq<Line>, spans: seq<Span>, i: nat, f: Fence)
    requires Fencing(lines, spans) && i < |lines| && StateAt(spans, i, f)
    ensures StateAt(spans, i + 1, NextFence(f, lines[i]))
  {
    if f == Closed {
      StateFromClosed(lines, spans, i);
    } else {
      var k :| 0 <= k < |spans| && Within(spans[k], i) && spans[k].marker == f.marker && spans[k].len == f.len;
      StateFromOpen(lines, spans, i, k);
    }
  }

  lemma {:induction false} FenceStateIs(lines: seq<Line>, spans: seq<Span>, i: nat)
    requires Fencing(lines, spans) && i <= |lines|
    ensures StateAt(spans, i, FenceAfter(Closed, lines[..i]))
  {
    if i > 0 {
      FenceStateIs(lines, spans, i - 1);
      StateKept(lines, spans, i - 1, FenceAfter(Closed, lines[..i - 1]));
      StateNext(lines, i - 1);
    }
  }

  // ---------------------------------------------------------------- headings outside the spans

  /** An unfenced heading of this level and title. */
  ghost predicate IsHead(lines: seq<Line>, spans: seq<Span>, i: nat, level: nat, title: string) {
    i < |lines| && HeadingLine(lines[i], level, title) && !Inside(spans, i)
  }

  /** A line at which a block of the split level ends. */
  ghost predicate Cuts(lines: seq<Line>, spans: seq<Span>, i: nat, level: nat) {
    exists l: nat, t: string :: l <= level && IsHead(lines, spans, i, l, t)
  }

  /** The same by the running state. */
  predicate Boundary(lines: seq<Line>, i: nat, level: nat) {
    i < |lines| && IsBoundary(FenceAfter(Closed, lines[..i]), lines[i], level)
  }

  lemma HeadIsOutside(lines: seq<Line>, spans: seq<Span>, i: nat)
    requires Fencing(lines, spans) && i < |lines| && KindOf(lines[i]).Heading?
    ensures FenceAfter(Closed, lines[..i]) == Closed <==> !Inside(spans, i)
  {
    FenceStateIs(lines, spans, i);
    var f := FenceAfter(Closed, lines[..i]);
    if f == Closed && Inside(spans, i) {
      var k :| 0 <= k < |spans| && Covers(spans[k], i);
      assert !Within(spans[k], i);
      FenceLineUnique(lines[i], spans[k]);
    }
    if f != Closed {
      var k :| 0 <= k < |spans| && Within(spans[k], i) && spans[k].marker == f.marker && spans[k].len == f.len;
      assert Covers(spans[k], i);
    }
  }

  lemma BoundaryIff(lines: seq<Line>, spans: seq<Span>, i: nat, level: nat)
    requires Fencing(lines, spans)
    ensures Boundary(lines, i, level) <==> Cuts(lines, spans, i, level)
    ensures forall l: nat, t :: Boundary(lines, i, level) && KindOf(lines[i]) == Heading(l, t) ==> IsHead(lines, spans, i, l, t)
    ensures forall l: nat, t :: l <= level && IsHead(lines, spans, i, l, t) ==>
      Boundary(lines, i, level) && KindOf(lines[i]) == Heading(l, t)
  {
    if i < |lines| {
      KindIs(lines[i]);
      if KindOf(lines[i]).Heading? {
        HeadIsOutside(lines, spans, i);
        assert HeadingLine(lines[i], KindOf(lines[i]).level, KindOf(lines[i]).title);
        if Boundary(lines, i, level) { assert IsHead(lines, spans, i, KindOf(lines[i]).level, KindOf(lines[i]).title); }
      }
    }
  }

  // ---------------------------------------------------------------- sections

  /** A block that starts at a boundary of the split level and ends before the next boundary. */
  ghost predicate RunsToBoundary(lines: seq<Line>, level: nat, b: Block) {
    && b.start < b.end <= |lines| && b.lines == lines[b.start..b.end]
    && Boundary(lines, b.start, level) && KindOf(lines[b.start]) == Heading(level, b.title)
    && (forall i :: b.start < i < b.end ==> !Boundary(lines, i, level))
    && (b.end < |lines| ==> Boundary(lines, b.end, level))
  }

  lemma {:induction false} NoBoundaryAt(f: Fence, lines: seq<Line>, j: nat, level: nat)
    requires NoBoundary(f, lines, level) && j < |lines|
    ensures !IsBoundary(FenceAfter(f, lines[..j]), lines[j], level)
    decreases lines
  {
    if j > 0 {
      NoBoundaryAt(NextFence(f, lines[0]), lines[1..], j - 1, level);
      assert lines[..j][1..] == lines[1..][..j - 1];
    }
  }

  lemma CutPart(pre: seq<Line>, part: seq<Line>, rest: seq<Line>, j: nat)
    requires 1 <= j <= |part|
    ensures (pre + part + rest)[..|pre| + j] == pre + ([part[0]] + part[1..][..j - 1])
  {
  }

  /** Before line `j` of a part, counted from its head, the fence state is that of its other lines. */
  lemma StateInPart(pre: seq<Line>, p: Piece, rest: seq<Line>, j: nat, level: nat)
    requires IsPiece(p, level) && FenceAfter(Closed, pre) == Closed && 1 <= j <= |p.lines|
    ensures FenceAfter(Closed, (pre + p.lines + rest)[..|pre| + j]) == FenceAfter(Closed, p.lines[1..][..j - 1])
  {
    var head, tail := [p.lines[0]], p.lines[1..][..j - 1];
    CutPart(pre, p.lines, rest, j);
    FenceAfterConcat(Closed, pre, head + tail);
    FenceAfterConcat(Closed, head, tail);
    FenceAfterOne(Closed, p.lines[0]);
  }

  lemma PartHead(pre: seq<Line>, p: Piece, rest: seq<Line>, level: nat)
    requires IsPiece(p, level) && FenceAfter(Closed, pre) == Closed
    ensures Boundary(pre + p.lines + rest, |pre|, level) && (pre + p.lines + rest)[|pre|] == p.lines[0]
  {
    assert (pre + p.lines + rest)[..|pre|] == pre;
  }

  lemma PartLine(pre: seq<Line>, p: Piece, rest: seq<Line>, i: nat, level: nat)
    requires IsPiece(p, level) && FenceAfter(Closed, pre) == Closed && |pre| < i < |pre| + |p.lines|
    ensures !Boundary(pre + p.lines + rest, i, level)
  {
    var j := i - |pre|;
    StateInPart(pre, p, rest, j, level);
    NoBoundaryAt(Closed, p.lines[1..], j - 1, level);
    assert (pre + p.lines + rest)[i] == p.lines[1..][j - 1];
  }

  lemma AfterPart(pre: seq<Line>, p: Piece, level: nat)
    requires TidyPiece(p, level) && FenceAfter(Closed, pre) == Closed
    ensures FenceAfter(Closed, pre + p.lines) == Closed
  {
    StateInPart(pre, p, [], |p.lines|, level);
    assert (pre + p.lines + [])[..|pre| + |p.lines|] == pre + p.lines;
    assert p.lines[1..][..|p.lines| - 1] == p.lines[1..];
  }

  /** All parts are pieces, and all but the last are closed. */
  predicate Parts(pieces: seq<Piece>, level: nat) {
    && (forall k :: 0 <= k < |pieces| ==> IsPiece(pieces[k], level))
    && (forall k :: 0 <= k < |pieces| - 1 ==> TidyPiece(pieces[k], level))
  }

  /** The lines `from` to `to` start at a boundary and have no other; a boundary follows them, or the end. */
  ghost predicate Stretch(lines: seq<Line>, level: nat, from: nat, to: nat) {
    && from < to <= |lines|
    && Boundary(lines, from, level)
    && (forall i :: from < i < to ==> !Boundary(lines, i, level))
    && (to < |lines| ==> Boundary(lines, to, level))
  }

  ghost predicate AllRun(lines: seq<Line>, level: nat, from: nat, blocks: seq<Block>) {
    forall k :: 0 <= k < |blocks| ==> RunsToBoundary(lines, level, blocks[k]) && blocks[k].start >= from
  }

  predicate InOrder(blocks: seq<Block>) {
    forall k, l :: 0 <= k < l < |blocks| ==> blocks[k].end <= blocks[l].start
  }

  predicate Starts(blocks: seq<Block>, i: nat) { exists k :: 0 <= k < |blocks| && blocks[k].start == i }

  /** Every boundary of exactly the split level starts a block. */
  ghost predicate AllStart(lines: seq<Line>, level: nat, from: nat, blocks: seq<Block>) {
    forall i :: from <= i < |lines| && Boundary(lines, i, level) && KindOf(lines[i]).level == level ==> Starts(blocks, i)
  }

  ghost predicate Found(lines: seq<Line>, level: nat, from: nat, blocks: seq<Block>) {
    AllRun(lines, level, from, blocks) && InOrder(blocks) && AllStart(lines, level, from, blocks)
  }

  /** One part stretches from its head to the next part or the end. */
  lemma PartStretch(pre: seq<Line>, p: Piece, others: seq<Piece>, level: nat)
    requires Parts([p] + others, level) && FenceAfter(Closed, pre) == Closed
    ensures Stretch(pre + p.lines + FlattenPieces(others), level, |pre|, |pre| + |p.lines|)
    ensures others != [] ==> FenceAfter(Closed, pre + p.lines) == Closed
  {
    var pieces, rest := [p] + others, FlattenPieces(others);
    assert IsPiece(pieces[0], level);
    PartHead(pre, p, rest, level);
    forall i | |pre| < i < |pre| + |p.lines| ensures !Boundary(pre + p.lines + rest, i, level) {
      PartLine(pre, p, rest, i, level);
    }
    if others != [] {
      assert TidyPiece(pieces[0], level) && IsPiece(pieces[1], level);
      AfterPart(pre, p, level);
      PartHead(pre + p.lines, others[0], FlattenPieces(others[1..]), level);
      Regroup(pre + p.lines, others[0].lines, FlattenPieces(others[1..]));
    }
  }

  lemma Regroup<T>(a: seq<T>, b: seq<T>, c: seq<T>)
    ensures a + (b + c) == a + b + c
  {
  }

  lemma PartsTail(pieces: seq<Piece>, level: nat)
    requires Parts(pieces, level) && pieces != []
    ensures pieces == [pieces[0]] + pieces[1..] && Parts(pieces[1..], level)
  {
    forall k | 0 <= k < |pieces[1..]| ensures IsPiece(pieces[1..][k], level) {
      assert IsPiece(pieces[k + 1], level);
    }
    forall k | 0 <= k < |pieces[1..]| - 1 ensures TidyPiece(pieces[1..][k], level) {
      assert TidyPiece(pieces[k + 1], level);
    }
  }

  lemma PartFacts(lines: seq<Line>, pre: seq<Line>, pieces: seq<Piece>, level: nat)
    requires lines == pre + FlattenPieces(pieces) && Parts(pieces, level) && pieces != []
    requires FenceAfter(Closed, pre) == Closed
    ensures var p, others := pieces[0], pieces[1..];
      && IsPiece(p, level) && Parts(others, level) && lines == (pre + p.lines) + FlattenPieces(others)
      && Stretch(lines, level, |pre|, |pre| + |p.lines|)
      && lines[|pre|..|pre| + |p.lines|] == p.lines && lines[|pre|] == p.lines[0]
      && (others != [] ==> FenceAfter(Closed, pre + p.lines) == Closed)
  {
    var p, others := pieces[0], pieces[1..];
    PartsTail(pieces, level);
    Regroup(pre, p.lines, FlattenPieces(others));
    PartStretch(pre, p, others, level);
    PartHead(pre, p, FlattenPieces(others), level);
    PartText(pre, p.lines, FlattenPieces(others));
  }

  lemma {:induction false} PartsFound(lines: seq<Line>, pre: seq<Line>, pieces: seq<Piece>, level: nat)
    requires lines == pre + FlattenPieces(pieces) && Parts(pieces, level)
    requires pieces != [] ==> FenceAfter(Closed, pre) == Closed
    ensures Found(lines, level, |pre|, BlocksOf(pieces, |pre|, level))
    decreases pieces
  {
    if pieces != [] {
      var mid := pre + pieces[0].lines;
      PartFacts(lines, pre, pieces, level);
      PartsFound(lines, mid, pieces[1..], level);
      var later := BlocksOf(pieces[1..], |mid|, level);
      FoundOneMore(lines, |pre|, |mid|, pieces[0], level, later);
      BlocksHead(pieces, |pre|, |mid|, level);
    }
  }

  lemma BlocksHead(pieces: seq<Piece>, from: nat, to: nat, level: nat)
    requires pieces != [] && to == from + |pieces[0].lines|
    ensures BlocksOf(pieces, from, level) == BlockOf(pieces[0], from, level) + BlocksOf(pieces[1..], to, level)
  {
  }

  lemma PartText(pre: seq<Line>, part: seq<Line>, rest: seq<Line>)
    ensures (pre + part + rest)[|pre|..|pre| + |part|] == part
  {
  }

  lemma FoundOneMore(lines: seq<Line>, from: nat, to: nat, p: Piece, level: nat, blocks: seq<Block>)
    requires to == from + |p.lines| && IsPiece(p, level) && Stretch(lines, level, from, to)
    requires lines[from..to] == p.lines && lines[from] == p.lines[0]
    requires Found(lines, level, to, blocks)
    ensures Found(lines, level, from, BlockOf(p, from, level) + blocks)
  {
    if p.level == level {
      PartRuns(lines, from, to, p, level);
      FoundMore(lines, level, Block(p.title, p.lines, from, to), blocks);
    } else {
      NoneMore(lines, from, to, level, blocks);
      assert BlockOf(p, from, level) + blocks == blocks;
    }
  }

  lemma PartRuns(lines: seq<Line>, from: nat, to: nat, p: Piece, level: nat)
    requires IsPiece(p, level) && Stretch(lines, level, from, to) && p.level == level
    requires lines[from..to] == p.lines && lines[from] == p.lines[0]
    ensures RunsToBoundary(lines, level, Block(p.title, p.lines, from, to))
  {
  }

  lemma NoneMore(lines: seq<Line>, from: nat, to: nat, level: nat, blocks: seq<Block>)
    requires Stretch(lines, level, from, to) && KindOf(lines[from]).Heading? && KindOf(lines[from]).level != level
    requires Found(lines, level, to, blocks)
    ensures Found(lines, level, from, blocks)
  {
  }

  lemma FoundMore(lines: seq<Line>, level: nat, b: Block, blocks: seq<Block>)
    requires RunsToBoundary(lines, level, b) && Found(lines, level, b.end, blocks)
    ensures Found(lines, level, b.start, [b] + blocks)
  {
    RunMore(lines, level, b, blocks);
    StartMore(lines, level, b, blocks);
  }

  lemma RunMore(lines: seq<Line>, level: nat, b: Block, blocks: seq<Block>)
    requires RunsToBoundary(lines, level, b) && AllRun(lines, level, b.end, blocks) && InOrder(blocks)
    ensures AllRun(lines, level, b.start, [b] + blocks) && InOrder([b] + blocks)
  {
    assert b.start < b.end;
    RunAll(lines, level, b, blocks);
    OrderMore(b, blocks);
  }

  lemma RunAll(lines: seq<Line>, level: nat, b: Block, blocks: seq<Block>)
    requires RunsToBoundary(lines, level, b) && AllRun(lines, level, b.end, blocks) && b.start < b.end
    ensures AllRun(lines, level, b.start, [b] + blocks)
  {
    var all := [b] + blocks;
    forall k | 0 <= k < |all| ensures RunsToBoundary(lines, level, all[k]) && all[k].start >= b.start {
      if k > 0 { assert all[k] == blocks[k - 1]; }
    }
  }

  lemma OrderMore(b: Block, blocks: seq<Block>)
    requires InOrder(blocks) && forall k :: 0 <= k < |blocks| ==> blocks[k].start >= b.end
    ensures InOrder([b] + blocks)
  {
  }

  lemma StartMore(lines: seq<Line>, level: nat, b: Block, blocks: seq<Block>)
    requires RunsToBoundary(lines, level, b) && AllStart(lines, level, b.end, blocks)
    ensures AllStart(lines, level, b.start, [b] + blocks)
  {
    var all := [b] + blocks;
    forall i | b.start <= i < |lines| && Boundary(lines, i, level) && KindOf(lines[i]).level == level ensures Starts(all, i) {
      if i == b.start {
        assert all[0].start == i;
      } else {
        assert Starts(blocks, i);
        var k :| 0 <= k < |blocks| && blocks[k].start == i;
        assert all[k + 1].start == i;
      }
    }
  }

  /** A block that starts at an unfenced heading of the split level and ends before the next one that cuts, or at the end. */
  ghost predicate IsSection(lines: seq<Line>, spans: seq<Span>, level: nat, b: Block) {
    && b.start < b.end <= |lines| && b.lines == lines[b.start..b.end]
    && IsHead(lines, spans, b.start, level, b.title)
    && (forall i :: b.start < i < b.end ==> !Cuts(lines, spans, i, level))
    && (b.end < |lines| ==> Cuts(lines, spans, b.end, level))
  }

  /** Exactly the sections of the file, in order. */
  ghost predicate Sections(lines: seq<Line>, spans: seq<Span>, level: nat, blocks: seq<Block>) {
    && (forall k :: 0 <= k < |blocks| ==> IsSection(lines, spans, level, blocks[k]))
    && InOrder(blocks)
    && (forall i: nat, t :: IsHead(lines, spans, i, level, t) ==> Starts(blocks, i))
  }

  lemma RunsIsSection(lines: seq<Line>, spans: seq<Span>, level: nat, b: Block)
    requires Fencing(lines, spans) && RunsToBoundary(lines, level, b)
    ensures IsSection(lines, spans, level, b)
  {
    BoundaryIff(lines, spans, b.start, level);
    BoundaryIff(lines, spans, b.end, level);
    forall i | b.start < i < b.end ensures !Cuts(lines, spans, i, level) {
      BoundaryIff(lines, spans, i, level);
    }
  }

  lemma OutlineParts(lines: seq<Line>, level: nat)
    ensures var o := OutlineOf(lines, level);
      && Parts(o.pieces, level) && NoBoundary(Closed, o.preamble, level)
      && (o.pieces != [] ==> FenceAfter(Closed, o.preamble) == Closed)
  {
    ScanLinesTidy(START, lines, level);
    var pieces := OutlineOf(lines, level).pieces;
    if pieces != [] {
      var n := |pieces| - 1;
      forall k | 0 <= k < n ensures TidyPiece(pieces[k], level) {
        assert pieces[..n][k] == pieces[k];
      }
    }
  }

  lemma BlocksFound(lines: seq<Line>, level: nat)
    ensures Found(lines, level, 0, Blocks(lines, level))
  {
    var o := OutlineOf(lines, level);
    OutlineParts(lines, level);
    FlattenUndoesOutline(lines, level);
    PartsFound(lines, o.preamble, o.pieces, level);
    forall i | 0 <= i < |o.preamble| ensures !Boundary(lines, i, level) {
      NoBoundaryAt(Closed, o.preamble, i, level);
      assert lines[..i] == o.preamble[..i] && lines[i] == o.preamble[i];
    }
  }

  /** What the parser computes, for any file and its fenced spans. */
  lemma BlocksAreSections(lines: seq<Line>, spans: seq<Span>, level: nat)
    requires Fencing(lines, spans)
    ensures Sections(lines, spans, level, Blocks(lines, level))
  {
    var blocks := Blocks(lines, level);
    BlocksFound(lines, level);
    forall k | 0 <= k < |blocks| ensures IsSection(lines, spans, level, blocks[k]) {
      RunsIsSection(lines, spans, level, blocks[k]);
    }
    forall i: nat, t | IsHead(lines, spans, i, level, t) ensures Starts(blocks, i) {
      BoundaryIff(lines, spans, i, level);
    }
  }

  // ---------------------------------------------------------------- one answer

  lemma NoShorter(lines: seq<Line>, spans: seq<Span>, level: nat, b: Block, c: Block)
    requires IsSection(lines, spans, level, b) && IsSection(lines, spans, level, c) && b.start == c.start
    ensures b.end >= c.end
  {
  }

  lemma SameStartSameSection(lines: seq<Line>, spans: seq<Span>, level: nat, b: Block, c: Block)
    requires IsSection(lines, spans, level, b) && IsSection(lines, spans, level, c) && b.start == c.start
    ensures b == c
  {
    KindIs(lines[b.start]);
    assert Heading(level, b.title) == Heading(level, c.title);
    NoShorter(lines, spans, level, b, c);
    NoShorter(lines, spans, level, c, b);
  }

  lemma Increasing(lines: seq<Line>, spans: seq<Span>, level: nat, bs: seq<Block>)
    requires Sections(lines, spans, level, bs)
    ensures forall j, k :: 0 <= j < k < |bs| ==> bs[j].start < bs[k].start
  {
    forall j, k | 0 <= j < k < |bs| ensures bs[j].start < bs[k].start {
      assert IsSection(lines, spans, level, bs[j]);
    }
  }

  lemma SameBefore<T>(bs: seq<T>, cs: seq<T>, k: nat)
    requires k <= |bs| && k <= |cs| && bs[..k] == cs[..k]
    ensures forall j :: 0 <= j < k ==> bs[j] == cs[j]
  {
    forall j | 0 <= j < k ensures bs[j] == cs[j] { assert bs[j] == bs[..k][j]; }
  }

  lemma NoEarlierStart(lines: seq<Line>, spans: seq<Span>, level: nat, bs: seq<Block>, cs: seq<Block>, k: nat)
    requires Sections(lines, spans, level, bs) && Sections(lines, spans, level, cs)
    requires k < |bs| && k <= |cs| && bs[..k] == cs[..k]
    ensures k < |cs| && cs[k].start <= bs[k].start
  {
    assert IsSection(lines, spans, level, bs[k]);
    assert Starts(cs, bs[k].start);
    var j :| 0 <= j < |cs| && cs[j].start == bs[k].start;
    Increasing(lines, spans, level, bs);
    Increasing(lines, spans, level, cs);
    SameBefore(bs, cs, k);
    NotAfter(bs, cs, k, j);
  }

  lemma NotAfter(bs: seq<Block>, cs: seq<Block>, k: nat, j: nat)
    requires forall j, k :: 0 <= j < k < |bs| ==> bs[j].start < bs[k].start
    requires forall j, k :: 0 <= j < k < |cs| ==> cs[j].start < cs[k].start
    requires k < |bs| && k <= |cs| && forall j :: 0 <= j < k ==> bs[j] == cs[j]
    requires j < |cs| && cs[j].start == bs[k].start
    ensures k < |cs| && cs[k].start <= bs[k].start
  {
  }

  lemma {:induction false} SamePrefix(lines: seq<Line>, spans: seq<Span>, level: nat, bs: seq<Block>, cs: seq<Block>, k: nat)
    requires Sections(lines, spans, level, bs) && Sections(lines, spans, level, cs) && k <= |bs|
    ensures k <= |cs| && bs[..k] == cs[..k]
  {
    if k > 0 {
      SamePrefix(lines, spans, level, bs, cs, k - 1);
      NoEarlierStart(lines, spans, level, bs, cs, k - 1);
      NoEarlierStart(lines, spans, level, cs, bs, k - 1);
      SameStartSameSection(lines, spans, level, bs[k - 1], cs[k - 1]);
      assert bs[..k] == bs[..k - 1] + [bs[k - 1]] && cs[..k] == cs[..k - 1] + [cs[k - 1]];
    }
  }

  /** The parsed blocks are the one list of the file's sections. */
  lemma BlocksIff(lines: seq<Line>, spans: seq<Span>, level: nat, blocks: seq<Block>)
    requires Fencing(lines, spans)
    ensures blocks == Blocks(lines, level) <==> Sections(lines, spans, level, blocks)
  {
    var all := Blocks(lines, level);
    BlocksAreSections(lines, spans, level);
    if Sections(lines, spans, level, blocks) {
      SamePrefix(lines, spans, level, all, blocks, |all|);
      SamePrefix(lines, spans, level, blocks, all, |blocks|);
      assert all[..|all|] == all && blocks[..|blocks|] == blocks;
    }
  }

  // ---------------------------------------------------------------- every file has its spans

  lemma SpanStays(lines: seq<Line>, line: Line, s: Span)
    requires SpanOk(lines, s) && s.close < |lines|
    ensures SpanOk(lines + [line], s)
  {
  }

  lemma SpanGoesOn(lines: seq<Line>, line: Line, s: Span)
    requires SpanOk(lines, s) && s.close == |lines|
    ensures SpanOk(lines + [line], if Closes(line, s) then s else s.(close := s.close + 1))
  {
  }

  /** The spans but the last, with one more line. */
  lemma FrontStays(lines: seq<Line>, line: Line, spans: seq<Span>)
    requires AllOk(lines, spans) && Apart(spans) && spans != []
    ensures AllOk(lines + [line], spans[..|spans| - 1])
  {
    forall k | 0 <= k < |spans| - 1 ensures SpanOk(lines + [line], spans[k]) {
      assert SpanOk(lines, spans[k]) && SpanOk(lines, spans[|spans| - 1]) && spans[k].close < spans[|spans| - 1].open;
      SpanStays(lines, line, spans[k]);
    }
  }

  /** Old fence lines stay inside, and the new line is covered. */
  lemma InsideNext(lines: seq<Line>, line: Line, spans: seq<Span>, more: seq<Span>)
    requires AllInside(lines, spans) && |spans| <= |more|
    requires forall k :: 0 <= k < |spans| ==> more[k].open == spans[k].open && more[k].close >= spans[k].close
    requires IsFenceLine(line) ==> Inside(more, |lines|)
    ensures AllInside(lines + [line], more)
  {
    var all := lines + [line];
    forall i | 0 <= i < |all| && IsFenceLine(all[i]) ensures Inside(more, i) {
      if i < |lines| {
        assert all[i] == lines[i];
        StillInside(spans, more, i);
      }
    }
  }

  /** An open span is closed or lengthened by one more line. */
  lemma LastGoesOn(lines: seq<Line>, line: Line, spans: seq<Span>) returns (more: seq<Span>)
    requires Fencing(lines, spans) && spans != [] && spans[|spans| - 1].close == |lines|
    ensures Fencing(lines + [line], more)
  {
    var front, last := spans[..|spans| - 1], spans[|spans| - 1];
    var s := if Closes(line, last) then last else last.(close := |lines| + 1);
    more := front + [s];
    SpanGoesOn(lines, line, last);
    FrontStays(lines, line, spans);
    FrontApart(spans);
    AddSpanOk(lines + [line], front, s);
    AddSpanApart(front, s);
    LastCovers(front, s, |lines|);
    InsideNext(lines, line, spans, more);
  }

  lemma FrontApart(spans: seq<Span>)
    requires Apart(spans) && spans != []
    ensures Apart(spans[..|spans| - 1])
    ensures var front := spans[..|spans| - 1]; forall k :: 0 <= k < |front| ==> front[k].close < spans[|spans| - 1].open
  {
  }

  lemma LastCovers(front: seq<Span>, s: Span, i: nat)
    requires Covers(s, i)
    ensures Inside(front + [s], i)
  {
    assert (front + [s])[|front|] == s;
  }

  lemma AddSpanOk(lines: seq<Line>, spans: seq<Span>, s: Span)
    requires AllOk(lines, spans) && SpanOk(lines, s)
    ensures AllOk(lines, spans + [s])
  {
  }

  lemma AddSpanApart(spans: seq<Span>, s: Span)
    requires Apart(spans) && forall k :: 0 <= k < |spans| ==> spans[k].close < s.open
    ensures Apart(spans + [s])
  {
  }

  lemma OpenedHere(lines: seq<Line>, line: Line, spans: seq<Span>) returns (more: seq<Span>)
    requires Fencing(lines, spans) && (spans != [] ==> spans[|spans| - 1].close != |lines|) && IsFenceLine(line)
    ensures Fencing(lines + [line], more)
  {
    var m, k: nat :| FenceLine(line, m, k);
    var s := Span(|lines|, |lines| + 1, m, k);
    more := spans + [s];
    SpansStay(lines, line, spans);
    AddSpanOk(lines + [line], spans, s);
    AddSpanApart(spans, s);
    assert Covers(more[|spans|], |lines|);
    InsideNext(lines, line, spans, more);
  }

  /** The spans with one more line: it closes or lengthens an open span, opens one, or stays outside. */
  lemma SpansNext(lines: seq<Line>, line: Line, spans: seq<Span>) returns (more: seq<Span>)
    requires Fencing(lines, spans)
    ensures Fencing(lines + [line], more)
  {
    if spans != [] && spans[|spans| - 1].close == |lines| {
      more := LastGoesOn(lines, line, spans);
    } else if IsFenceLine(line) {
      more := OpenedHere(lines, line, spans);
    } else {
      more := spans;
      SpansStay(lines, line, spans);
      InsideNext(lines, line, spans, more);
    }
  }

  lemma SpansStay(lines: seq<Line>, line: Line, spans: seq<Span>)
    requires Fencing(lines, spans) && (spans != [] ==> spans[|spans| - 1].close != |lines|)
    ensures forall k :: 0 <= k < |spans| ==> SpanOk(lines + [line], spans[k]) && spans[k].close < |lines|
  {
    forall k | 0 <= k < |spans| ensures SpanOk(lines + [line], spans[k]) && spans[k].close < |lines| {
      if k < |spans| - 1 { assert SpanOk(lines, spans[|spans| - 1]) && spans[k].close < spans[|spans| - 1].open; }
      SpanStays(lines, line, spans[k]);
    }
  }

  lemma StillInside(spans: seq<Span>, more: seq<Span>, i: nat)
    requires Inside(spans, i) && |spans| <= |more|
    requires forall k :: 0 <= k < |spans| ==> more[k].open == spans[k].open && more[k].close >= spans[k].close
    ensures Inside(more, i)
  {
    var k :| 0 <= k < |spans| && Covers(spans[k], i);
    assert Covers(more[k], i);
  }

  lemma {:induction false} FencingExists(lines: seq<Line>) returns (spans: seq<Span>)
    ensures Fencing(lines, spans)
  {
    if lines == [] {
      spans := [];
    } else {
      var n := |lines| - 1;
      spans := FencingExists(lines[..n]);
      spans := SpansNext(lines[..n], lines[n], spans);
      assert lines == lines[..n] + [lines[n]];
    }
  }

  // ---------------------------------------------------------------- a block with a fence

  lemma HeadingNoFence(line: Line, level: nat, title: string)
    requires HeadingLine(line, level, title)
    ensures !IsFenceLine(line)
  {
    KindIs(line);
  }

  /** A heading, an opening fence line, and lines that do not close it. */
  ghost predicate Fenced(lines: seq<Line>, body: nat, level: nat, title: string, marker: char, n: nat) {
    && |lines| >= body + 2
    && HeadingLine(lines[0], level, title) && FenceLine(lines[1], marker, n)
    && forall i :: 2 <= i < body + 2 ==> !Closes(lines[i], Span(1, body + 2, marker, n))
  }

  lemma FencedSpan(lines: seq<Line>, body: nat, level: nat, title: string, marker: char, n: nat)
    requires Fenced(lines, body, level, title, marker, n)
    requires |lines| > body + 2 ==> Closes(lines[body + 2], Span(1, body + 2, marker, n))
    requires forall i :: body + 2 < i < |lines| ==> !IsFenceLine(lines[i])
    ensures Fencing(lines, [Span(1, body + 2, marker, n)])
  {
    var s := Span(1, body + 2, marker, n);
    HeadingNoFence(lines[0], level, title);
    forall i | 0 <= i < |lines| && IsFenceLine(lines[i]) ensures Inside([s], i) {
      assert [s][0] == s && Covers(s, i);
    }
  }

  lemma OnlyHead(lines: seq<Line>, s: Span, level: nat, title: string, i: nat)
    requires |lines| > 0 && HeadingLine(lines[0], level, title) && s.open == 1
    ensures IsHead(lines, [s], 0, level, title)
    ensures 1 <= i <= s.close ==> !Cuts(lines, [s], i, level)
  {
    assert [s][0] == s;
    if 1 <= i <= s.close { assert Covers([s][0], i); }
  }

  /**
   Whatever stands between a fence and the line that closes it, headings, shorter fences and fences of the other
   marker included, belongs to the block of the heading before it; so does an unclosed fence to the end of the file.
   */
  lemma FencedBlock(lines: seq<Line>, body: nat, level: nat, title: string, marker: char, n: nat)
    requires Fenced(lines, body, level, title, marker, n)
    requires |lines| == body + 2 || (|lines| == body + 3 && Closes(lines[body + 2], Span(1, body + 2, marker, n)))
    ensures Blocks(lines, level) == [Block(title, lines, 0, |lines|)]
  {
    var s, b := Span(1, body + 2, marker, n), Block(title, lines, 0, |lines|);
    FencedSpan(lines, body, level, title, marker, n);
    OnlyHead(lines, s, level, title, 0);
    forall i | 0 < i < |lines| ensures !Cuts(lines, [s], i, level) { OnlyHead(lines, s, level, title, i); }
    assert lines[0..|lines|] == lines && IsSection(lines, [s], level, b);
    forall i: nat, t | IsHead(lines, [s], i, level, t) ensures Starts([b], i) {
      assert i > 0 ==> Cuts(lines, [s], i, level);
      assert [b][0].start == 0;
    }
    BlocksIff(lines, [s], level, [b]);
  }

  /** A heading of the split level right after the closing line starts a block of its own. */
  lemma HeadingAfterFence(lines: seq<Line>, body: nat, level: nat, title: string, marker: char, n: nat, next: string)
    requires Fenced(lines, body, level, title, marker, n) && |lines| == body + 4
    requires Closes(lines[body + 2], Span(1, body + 2, marker, n)) && HeadingLine(lines[body + 3], level, next)
    ensures Blocks(lines, level) ==
      [Block(title, lines[..body + 3], 0, body + 3), Block(next, [lines[body + 3]], body + 3, body + 4)]
  {
    var s := Span(1, body + 2, marker, n);
    var b, c := Block(title, lines[..body + 3], 0, body + 3), Block(next, [lines[body + 3]], body + 3, body + 4);
    HeadingNoFence(lines[body + 3], level, next);
    FencedSpan(lines, body, level, title, marker, n);
    OnlyHead(lines, s, level, title, 0);
    forall i | 0 < i < body + 3 ensures !Cuts(lines, [s], i, level) { OnlyHead(lines, s, level, title, i); }
    assert IsHead(lines, [s], body + 3, level, next);
    assert lines[0..body + 3] == lines[..body + 3] && IsSection(lines, [s], level, b);
    assert lines[body + 3..body + 4] == [lines[body + 3]] && IsSection(lines, [s], level, c);
    forall i: nat, t | IsHead(lines, [s], i, level, t) ensures Starts([b, c], i) {
      assert Cuts(lines, [s], i, level);
      assert [b, c][0].start == 0 && [b, c][1].start == body + 3;
    }
    BlocksIff(lines, [s], level, [b, c]);
  }
}
