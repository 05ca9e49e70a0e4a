/** Anchors spelled out: the words of a heading in lower case with single hyphens between them, cut before its first separator. */
module AnchorRules {
  import opened Wrappers
  import opened MemoryBlocks

  // ---------------------------------------------------------------- characters

  /** The white space of JavaScript's regular expressions. */
  lemma SpacesAre(c: char)
    ensures IsSpace(c) <==>
      c as int in {0x09, 0x0A, 0x0B, 0x0C, 0x0D, 0x20, 0xA0, 0x1680, 0x2000, 0x2001, 0x2002, 0x2003, 0x2004, 0x2005, 0x2006,
                   0x2007, 0x2008, 0x2009, 0x200A, 0x2028, 0x2029, 0x202F, 0x205F, 0x3000, 0xFEFF}
  {
  }

  lemma TerminatorsAre(c: char)
    ensures IsTerminator(c) <==> c as int in {0x0A, 0x0D, 0x2028, 0x2029}
  {
  }

  const LOWER := "abcdefghijklmnopqrstuvwxyz"
  const UPPER := "ABCDEFGHIJKLMNOPQRSTUVWXYZ"

  /** Letters and digits. */
  predicate IsWordChar(c: char) { c in LOWER || c in "0123456789" }

  predicate IsGap(c: char) { c == ' ' || c == '_' || c == '-' }

  /** What lower-casing and filtering leave of one character. */
  lemma KeptIs(c: char)
    ensures IsWordChar(c) || IsGap(c) ==> LowerKept(c) == [c]
    ensures forall i :: 0 <= i < 26 && c == UPPER[i] ==> LowerKept(c) == [LOWER[i]]
    ensures c == '\U{212A}' ==> LowerKept(c) == "k"
    ensures c == '\U{130}' ==> LowerKept(c) == "i"
    ensures !IsWordChar(c) && !IsGap(c) && c !in UPPER && c != '\U{212A}' && c != '\U{130}' ==> LowerKept(c) == []
  {
    LowerLetters(c);
    UpperLetters(c);
    Digits(c);
  }

  lemma LowerLetters(c: char)
    ensures c in LOWER <==> 'a' <= c <= 'z'
  {
    assert forall i :: 0 <= i < 26 ==> LOWER[i] as int == 'a' as int + i;
    if 'a' <= c <= 'z' { assert LOWER[c as int - 'a' as int] == c; }
  }

  lemma UpperLetters(c: char)
    ensures c in UPPER <==> 'A' <= c <= 'Z'
    ensures forall i :: 0 <= i < 26 ==> UPPER[i] as int == 'A' as int + i && LOWER[i] as int == 'a' as int + i
  {
    assert forall i :: 0 <= i < 26 ==> UPPER[i] as int == 'A' as int + i;
    if 'A' <= c <= 'Z' { assert UPPER[c as int - 'A' as int] == c; }
  }

  lemma Digits(c: char)
    ensures c in "0123456789" <==> '0' <= c <= '9'
  {
    var d := "0123456789";
    assert forall i :: 0 <= i < 10 ==> d[i] as int == '0' as int + i;
    if '0' <= c <= '9' { assert d[c as int - '0' as int] == c; }
  }

  /** Filtering works character by character. */
  lemma {:induction false} KeepLowerConcat(a: string, b: string)
    ensures KeepLower(a + b) == KeepLower(a) + KeepLower(b)
  {
    if a == [] {
      assert a + b == b;
    } else {
      assert (a + b)[1..] == a[1..] + b;
      KeepLowerConcat(a[1..], b);
    }
  }

  lemma KeepLowerOne(c: char)
    ensures KeepLower([c]) == LowerKept(c)
  {
    assert [c][1..] == [];
  }

  // ---------------------------------------------------------------- words and hyphens

  /** The words of filtered text with one hyphen between two of them. */
  function Hyphenated(t: string): string {
    if t == [] then []
    else if IsGap(t[0]) then Hyphenated(t[1..])
    else if |t| > 1 && IsGap(t[1]) && Hyphenated(t[1..]) != [] then [t[0], '-'] + Hyphenated(t[1..])
    else [t[0]] + Hyphenated(t[1..])
  }

  /** Every gap of filtered text as one hyphen. */
  function Runs(t: string): string {
    if t == [] then []
    else if !IsGap(t[0]) then [t[0]] + Runs(t[1..])
    else if |t| > 1 && IsGap(t[1]) then Runs(t[1..])
    else ['-'] + Runs(t[1..])
  }

  lemma {:induction false} DashSpacesHead(t: string)
    requires t != []
    ensures DashSpaces(t) != []
    ensures DashSpaces(t)[0] == if IsGap(t[0]) then '-' else t[0]
  {
    if |t| > 1 { DashSpacesHead(t[1..]); }
  }

  lemma {:induction false} RunsAre(t: string)
    ensures CollapseDashes(DashSpaces(t)) == Runs(t)
  {
    if t != [] {
      RunsAre(t[1..]);
      if |t| > 1 { DashSpacesHead(t[1..]); }
    }
  }

  function DropHead(s: string): string { if s != [] && s[0] == '-' then s[1..] else s }

  function DropTail(s: string): string { if s != [] && s[|s| - 1] == '-' then s[..|s| - 1] else s }

  lemma StripIs(s: string)
    ensures StripDashes(s) == DropTail(DropHead(s))
  {
  }

  /** Runs start with a hyphen exactly at a gap, and never with two. */
  lemma {:induction false} RunsHead(t: string)
    requires t != [] && AllKept(t)
    ensures Runs(t) != []
    ensures Runs(t)[0] == if IsGap(t[0]) then '-' else t[0]
    ensures DropHead(Runs(t)) != [] ==> DropHead(Runs(t))[0] != '-'
  {
    if |t| > 1 { RunsHead(t[1..]); }
  }

  lemma DropTailHead(c: char, s: string)
    requires s != []
    ensures DropTail([c] + s) == [c] + DropTail(s)
  {
  }

  /** A letter or digit in front of the rest, a gap first. */
  lemma BeforeGap(c: char, runs: string)
    requires c != '-' && runs != [] && runs[0] == '-'
    requires DropHead(runs) != [] ==> DropHead(runs)[0] != '-'
    ensures DropTail([c] + runs) == if DropHead(runs) == [] then [c] else [c, '-'] + DropTail(DropHead(runs))
  {
    DropTailHead(c, runs);
    if DropHead(runs) != [] {
      HyphenFirst(runs);
      TwoHeads(c, '-', DropTail(DropHead(runs)));
    } else {
      assert runs == ['-'] && DropTail(runs) == [];
    }
  }

  lemma HyphenFirst(runs: string)
    requires runs != [] && runs[0] == '-' && DropHead(runs) != []
    ensures DropTail(runs) == ['-'] + DropTail(DropHead(runs))
  {
    assert runs == ['-'] + DropHead(runs);
    DropTailHead('-', DropHead(runs));
  }

  lemma TwoHeads(a: char, b: char, s: string)
    ensures [a] + ([b] + s) == [a, b] + s
  {
  }

  lemma {:induction false} HyphenatedIs(t: string)
    requires AllKept(t)
    ensures Hyphenated(t) == DropTail(DropHead(Runs(t)))
    ensures Hyphenated(t) == [] <==> DropHead(Runs(t)) == []
  {
    if t != [] {
      var rest := t[1..];
      HyphenatedIs(rest);
      RunsHead(t);
      if rest != [] { RunsHead(rest); }
      if !IsGap(t[0]) && rest != [] {
        if IsGap(rest[0]) { BeforeGap(t[0], Runs(rest)); } else { DropTailHead(t[0], Runs(rest)); }
      }
    }
  }

  lemma {:induction false} TrimStartGaps(t: string)
    ensures AllKept(t) ==> Hyphenated(TrimStart(t)) == Hyphenated(t) && AllKept(TrimStart(t))
  {
    if t != [] && IsSpace(t[0]) { TrimStartGaps(t[1..]); }
  }

  lemma {:induction false} TrailingGap(t: string, g: char)
    requires IsGap(g)
    ensures Hyphenated(t + [g]) == Hyphenated(t)
  {
    if t == [] {
      assert [g][1..] == [];
    } else {
      assert (t + [g])[1..] == t[1..] + [g];
      TrailingGap(t[1..], g);
    }
  }

  lemma {:induction false} TrimEndGaps(t: string)
    requires AllKept(t)
    ensures Hyphenated(TrimEnd(t)) == Hyphenated(t) && AllKept(TrimEnd(t))
  {
    if t != [] && IsSpace(t[|t| - 1]) {
      var front := t[..|t| - 1];
      TrimEndGaps(front);
      TrailingGap(front, t[|t| - 1]);
      assert t == front + [t[|t| - 1]];
    }
  }

  /** An anchor is the filtered text's words, hyphenated. */
  lemma SlugifyIs(s: string)
    ensures Slugify(s) == Hyphenated(KeepLower(s))
  {
    var t := KeepLower(s);
    KeepLowerKept(s);
    TrimStartGaps(t);
    TrimEndGaps(TrimStart(t));
    var u := TrimEnd(TrimStart(t));
    RunsAre(u);
    StripIs(Runs(u));
    HyphenatedIs(u);
  }

  /** Both sides of a gap, with a hyphen between them when there is something on both. */
  function Hyphened(a: string, b: string): string {
    if a == [] then b else if b == [] then a else a + ['-'] + b
  }

  lemma {:induction false} HyphenatedGap(a: string, g: char, b: string)
    requires IsGap(g) && AllKept(a)
    ensures Hyphenated(a + [g] + b) == Hyphened(Hyphenated(a), Hyphenated(b))
  {
    if a == [] {
      assert a + [g] + b == [g] + b && ([g] + b)[1..] == b;
    } else {
      var whole := a + [g] + b;
      assert whole[1..] == a[1..] + [g] + b;
      HyphenatedGap(a[1..], g, b);
      if |a| == 1 { assert whole[1] == g; }
    }
  }

  lemma {:induction false} HyphenatedWord(w: string)
    requires forall i :: 0 <= i < |w| ==> !IsGap(w[i])
    ensures Hyphenated(w) == w
  {
    if w != [] {
      HyphenatedWord(w[1..]);
      assert w == [w[0]] + w[1..];
    }
  }

  lemma WordIsNoGap(c: char)
    requires IsWordChar(c)
    ensures !IsGap(c)
  {
    LowerLetters(c);
    Digits(c);
  }

  /** A word of lower-case letters and digits is its own anchor. */
  lemma WordAnchor(w: string)
    requires forall i :: 0 <= i < |w| ==> IsWordChar(w[i])
    ensures Slugify(w) == w
  {
    SlugifyIs(w);
    forall i | 0 <= i < |w| ensures !IsGap(w[i]) { WordIsNoGap(w[i]); }
    HyphenatedWord(w);
    WordKept(w);
  }

  lemma {:induction false} WordKept(w: string)
    requires forall i :: 0 <= i < |w| ==> IsWordChar(w[i])
    ensures KeepLower(w) == w
  {
    if w != [] {
      KeptIs(w[0]);
      WordKept(w[1..]);
    }
  }

  /** A space, underscore or hyphen joins the anchors of its two sides with one hyphen. */
  lemma GapAnchor(a: string, g: char, b: string)
    requires IsGap(g)
    ensures Slugify(a + [g] + b) == Hyphened(Slugify(a), Slugify(b))
  {
    KeepLowerConcat(a + [g], b);
    KeepLowerConcat(a, [g]);
    KeepLowerOne(g);
    KeptIs(g);
    KeepLowerKept(a);
    HyphenatedGap(KeepLower(a), g, KeepLower(b));
    SlugifyIs(a + [g] + b);
    SlugifyIs(a);
    SlugifyIs(b);
  }

  /** Case and everything else do not matter: one character counts as what filtering leaves of it. */
  lemma KeptAnchor(a: string, c: char, b: string)
    ensures Slugify(a + [c] + b) == Slugify(a + LowerKept(c) + b)
  {
    KeepLowerConcat(a + [c], b);
    KeepLowerConcat(a, [c]);
    KeepLowerOne(c);
    KeepLowerConcat(a + LowerKept(c), b);
    KeepLowerConcat(a, LowerKept(c));
    KeptTwice(c);
    SlugifyIs(a + [c] + b);
    SlugifyIs(a + LowerKept(c) + b);
  }

  lemma KeptTwice(c: char)
    ensures KeepLower(LowerKept(c)) == LowerKept(c)
  {
    if LowerKept(c) != [] {
      var k := LowerKept(c)[0];
      assert LowerKept(c) == [k] && LowerKept(k) == [k];
      KeepLowerOne(k);
    }
  }

  // ---------------------------------------------------------------- the short anchor

  /** A colon and a space, or a hyphen or dash with spaces on both sides. */
  ghost predicate IsSeparator(s: string) {
    || (|s| > 1 && s[0] == ':' && IsSpace(s[1]))
    || exists n :: 0 < n < |s| - 1 && (forall i :: 0 <= i < n ==> IsSpace(s[i])) && IsSpace(s[n + 1])
                   && s[n] in "-\U{2013}\U{2014}"
  }

  lemma {:induction false} SpaceRunIs(s: string)
    ensures forall i :: 0 <= i < SpaceRun(s) ==> IsSpace(s[i])
    ensures SpaceRun(s) < |s| ==> !IsSpace(s[SpaceRun(s)])
  {
    if s != [] && IsSpace(s[0]) { SpaceRunIs(s[1..]); }
  }

  lemma DashIs(c: char)
    ensures IsDash(c) <==> c in "-\U{2013}\U{2014}"
    ensures IsDash(c) ==> !IsSpace(c)
  {
    var d := "-\U{2013}\U{2014}";
    assert d[0] == '-' && d[1] as int == 0x2013 && d[2] as int == 0x2014;
  }

  lemma SeparatorIs(s: string)
    requires s != []
    ensures SeparatorAt(s) <==> IsSeparator(s)
  {
    var n := SpaceRun(s);
    SpaceRunIs(s);
    if 0 < n < |s| - 1 && IsDash(s[n]) && IsSpace(s[n + 1]) { DashIs(s[n]); }
    if IsSeparator(s) && !(|s| > 1 && s[0] == ':' && IsSpace(s[1])) {
      var k :| 0 < k < |s| - 1 && (forall i :: 0 <= i < k ==> IsSpace(s[i])) && IsSpace(s[k + 1]) && s[k] in "-\U{2013}\U{2014}";
      DashIs(s[k]);
      assert k == n;
    }
  }

  /** The short anchor is that of the text before the first separator. */
  lemma {:induction false} LeadIs(s: string)
    ensures Lead(s) <= s
    ensures forall i :: 0 <= i < |Lead(s)| ==> !IsSeparator(s[i..])
    ensures |Lead(s)| < |s| ==> IsSeparator(s[|Lead(s)|..])
  {
    if s != [] {
      SeparatorIs(s);
      assert s[0..] == s;
      if !SeparatorAt(s) {
        LeadIs(s[1..]);
        forall i | 0 <= i < |Lead(s)| ensures !IsSeparator(s[i..]) {
          if i > 0 { assert s[i..] == s[1..][i - 1..]; }
        }
        assert |Lead(s)| < |s| ==> s[|Lead(s)|..] == s[1..][|Lead(s[1..])|..];
      }
    }
  }

  /** The first separator is at `k`, or there is none and `k` is the end. */
  ghost predicate IsFirstCut(s: string, k: nat) {
    k <= |s| && (forall i :: 0 <= i < k ==> !IsSeparator(s[i..])) && (k < |s| ==> IsSeparator(s[k..]))
  }

  lemma NotAfterFirst(s: string, n: nat, k: nat)
    requires IsFirstCut(s, n) && IsFirstCut(s, k)
    ensures n <= k
  {
  }

  lemma ShortAnchorIs(title: string, k: nat)
    requires IsFirstCut(title, k)
    ensures ShortAnchorOf(title) == Slugify(title[..k])
  {
    LeadIs(title);
    var n := |Lead(title)|;
    assert Lead(title) == title[..n];
    NotAfterFirst(title, n, k);
    NotAfterFirst(title, k, n);
  }

  /** An anchor resolves to the first block whose anchor or short anchor it is, in any spelling of the anchor. */
  lemma ResolvesIff(lines: seq<Line>, anchor: string, level: nat, i: nat)
    ensures ResolveBlock(lines, anchor, level) == Some(i) <==>
      && i < |Blocks(lines, level)| && IsAnchorOf(Blocks(lines, level)[i], Slugify(anchor))
      && forall j :: 0 <= j < i ==> !IsAnchorOf(Blocks(lines, level)[j], Slugify(anchor))
  {
    ResolvedFirst(Blocks(lines, level), Slugify(anchor), i);
  }

  predicate IsAnchorOf(b: Block, want: string) { want in {Slugify(b.title), ShortAnchorOf(b.title)} }

  lemma ResolvedFirst(blocks: seq<Block>, want: string, i: nat)
    ensures FindBlock(blocks, want) == Some(i) <==>
      i < |blocks| && IsAnchorOf(blocks[i], want) && forall j :: 0 <= j < i ==> !IsAnchorOf(blocks[j], want)
  {
    forall j | 0 <= j < |blocks| ensures Answers(blocks[j], want) <==> IsAnchorOf(blocks[j], want) {
    }
    FoundFirst(blocks, want, i);
  }

  lemma FoundFirst(blocks: seq<Block>, want: string, i: nat)
    ensures FindBlock(blocks, want) == Some(i) <==>
      i < |blocks| && Answers(blocks[i], want) && forall j :: 0 <= j < i ==> !Answers(blocks[j], want)
  {
    var r := FindBlock(blocks, want);
    if i < |blocks| && Answers(blocks[i], want) && forall j :: 0 <= j < i ==> !Answers(blocks[j], want) {
      assert r.Some? && r.value <= i;
    }
  }
}
