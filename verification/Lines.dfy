/** Text split into lines, and the backward scan for the last of them. */
module Lines {
  import opened Wrappers
  import opened Json
  import opened Utf8

  predicate OneLine(t: Text) { NEWLINE !in t }

  /** The text split at every newline; there is always at least one, possibly empty, line. */
  function Split(t: Text): (lines: seq<Text>)
    ensures |lines| > 0
  {
    if t == [] then [[]]
    else if t[0] == NEWLINE then [[]] + Split(t[1..])
    else var rest := Split(t[1..]); [[t[0]] + rest[0]] + rest[1..]
  }

  function NonEmpty(lines: seq<Text>): seq<Text> {
    if lines == [] then [] else (if lines[0] == [] then [] else [lines[0]]) + NonEmpty(lines[1..])
  }

  /** The non-empty lines in order. */
  function LinesOf(t: Text): seq<Text> { NonEmpty(Split(t)) }

  lemma {:induction false} SplitOneLine(t: Text)
    requires OneLine(t)
    ensures Split(t) == [t]
  {
    if t != [] {
      SplitOneLine(t[1..]);
      assert t == [t[0]] + t[1..];
    }
  }

  lemma {:induction false} SplitAtNewline(a: Text, b: Text)
    ensures Split(a + [NEWLINE] + b) == Split(a) + Split(b)
  {
    var whole := a + [NEWLINE] + b;
    if a == [] {
      assert whole[1..] == b;
    } else {
      assert whole[1..] == a[1..] + [NEWLINE] + b;
      SplitAtNewline(a[1..], b);
    }
  }

  lemma {:induction false} NonEmptyConcat(a: seq<Text>, b: seq<Text>)
    ensures NonEmpty(a + b) == NonEmpty(a) + NonEmpty(b)
  {
    if a == [] {
      assert a + b == b;
    } else {
      assert (a + b)[1..] == a[1..] + b;
      NonEmptyConcat(a[1..], b);
    }
  }

  lemma LinesAtNewline(a: Text, b: Text)
    ensures LinesOf(a + [NEWLINE] + b) == LinesOf(a) + LinesOf(b)
  {
    SplitAtNewline(a, b);
    NonEmptyConcat(Split(a), Split(b));
  }

  lemma LinesOfOneLine(t: Text)
    requires OneLine(t)
    ensures LinesOf(t) == if t == [] then [] else [t]
  {
    SplitOneLine(t);
    assert NonEmpty([t][1..]) == [];
  }

  // ---------------------------------------------------------------- scanning backward

  function Last<T>(s: seq<T>, n: nat): (r: seq<T>)
    ensures |r| == if |s| < n then |s| else n
  {
    if |s| <= n then s else s[|s| - n..]
  }

  lemma LastOfConcat<T>(a: seq<T>, b: seq<T>, n: nat)
    requires |b| == n || (|b| <= n && a == [])
    ensures Last(a + b, n) == b
  {
    if a == [] { assert a + b == b; }
  }

  function Reverse<T>(s: seq<T>): (r: seq<T>)
    ensures |r| == |s|
  {
    if s == [] then [] else Reverse(s[1..]) + [s[0]]
  }

  lemma {:induction false} ReverseAppend<T>(s: seq<T>, x: T)
    ensures Reverse(s + [x]) == [x] + Reverse(s)
  {
    if s != [] {
      assert (s + [x])[1..] == s[1..] + [x];
      ReverseAppend(s[1..], x);
    }
  }

  /** Position of the last newline before `end`, or -1. */
  function LastNewline(t: Text, end: nat): (n: int)
    requires end <= |t|
    ensures -1 <= n < end
    ensures forall k :: n < k < end ==> t[k] != NEWLINE
    ensures n >= 0 ==> t[n] == NEWLINE
  {
    if end == 0 then -1 else if t[end - 1] == NEWLINE then end - 1 else LastNewline(t, end - 1)
  }

  /** What is left to scan; below zero nothing is. */
  function Prefix(t: Text, end: int): Text
    requires end <= |t|
  {
    if end <= 0 then [] else t[..end]
  }

  lemma SkipNewline(t: Text, end: nat)
    requires 0 < end <= |t| && t[end - 1] == NEWLINE
    ensures LinesOf(Prefix(t, end)) == LinesOf(Prefix(t, end - 1))
  {
    assert Prefix(t, end) == Prefix(t, end - 1) + [NEWLINE] + [];
    LinesAtNewline(Prefix(t, end - 1), []);
    LinesOfOneLine([]);
  }

  lemma SplitSlice<T>(t: seq<T>, n: nat, end: nat)
    requires n < end <= |t|
    ensures t[..end] == t[..n] + [t[n]] + t[n + 1..end]
  {
  }

  lemma TakeLine(t: Text, end: nat)
    requires 0 < end <= |t| && t[end - 1] != NEWLINE
    ensures var n := LastNewline(t, end);
      LinesOf(Prefix(t, end)) == LinesOf(Prefix(t, n)) + [t[n + 1..end]]
  {
    var n := LastNewline(t, end);
    var line := t[n + 1..end];
    LinesOfOneLine(line);
    LinesOfOneLine([]);
    if n >= 0 {
      SplitSlice(t, n, end);
      LinesAtNewline(Prefix(t, n), line);
    } else {
      assert Prefix(t, end) == line;
    }
  }

  /** One line moves from what is left to what was found. */
  lemma Moved(whole: seq<Text>, rest: seq<Text>, line: Text, out: seq<Text>)
    requires whole == (rest + [line]) + Reverse(out)
    ensures whole == rest + Reverse(out + [line])
  {
    ReverseAppend(out, line);
  }

  /** The last `max` non-empty lines, oldest first, found from the end without splitting the whole text. */
  method LastLines(text: Text, max: nat) returns (out: seq<Text>)
    ensures out == Last(LinesOf(text), max)
  {
    out := [];
    var end: int := |text|;
    ghost var whole := LinesOf(text);
    assert Prefix(text, |text|) == text;
    while |out| < max && end > 0
      invariant end <= |text| && |out| <= max
      invariant whole == LinesOf(Prefix(text, end)) + Reverse(out)
      decreases end
    {
      if text[end - 1] == NEWLINE {
        SkipNewline(text, end);
        end := end - 1;
        continue;
      }
      TakeLine(text, end);
      var nl := LastNewline(text, end);
      Moved(whole, LinesOf(Prefix(text, nl)), text[nl + 1..end], out);
      out := out + [text[nl + 1..end]];
      end := nl;
    }
    LinesOfOneLine([]);
    LastOfConcat(LinesOf(Prefix(text, end)), Reverse(out), max);
    out := Reverse(out);
  }

  // ---------------------------------------------------------------- the tail window

  /** Position of the first `x`. */
  function IndexOf<T(==)>(s: seq<T>, x: T): (r: Option<nat>)
    ensures r.Some? ==> r.value < |s| && s[r.value] == x && x !in s[..r.value]
    ensures r.None? ==> x !in s
  {
    if s == [] then None
    else if s[0] == x then Some(0)
    else match IndexOf(s[1..], x)
      case None => None
      case Some(n) => assert s[..n + 1] == [s[0]] + s[1..][..n]; Some(n + 1)
  }

  function AfterFirstLine(text: Text): Text {
    match IndexOf(text, NEWLINE) case None => [] case Some(n) => text[n + 1..]
  }

  /** The text of the last `max` bytes of a file, without the line the window cuts into. */
  function TailText(file: Bytes, max: nat): Text {
    if |file| <= max then Decode(file) else AfterFirstLine(Decode(file[|file| - max..]))
  }

  /** A file beyond the window reads the same whatever stands before it. */
  lemma TailForgets(head: Bytes, file: Bytes, max: nat)
    requires |file| > max
    ensures TailText(head + file, max) == TailText(file, max)
  {
    assert (head + file)[|head + file| - max..] == file[|file| - max..];
  }

  predicate IsSuffix<T(==)>(a: seq<T>, b: seq<T>) { |a| <= |b| && b[|b| - |a|..] == a }

  lemma SuffixOfConcat<T>(a: seq<T>, b: seq<T>)
    ensures IsSuffix(b, a + b)
  {
  }

  lemma UnitsNoNewline(b: Bytes)
    requires b != [] && b[0] != NEWLINE
    ensures NEWLINE !in Units(b)
  {
  }

  /** Only a newline byte decodes to a newline. */
  lemma {:induction false} DecodeNoNewline(b: Bytes)
    requires NEWLINE !in b
    ensures OneLine(Decode(b))
  {
    if b != [] {
      UnitsNoNewline(b);
      DecodeNoNewline(b[Length(b)..]);
    }
  }

  /** A window that cuts anywhere, inside a character too, drops exactly up to its first newline byte. */
  lemma WindowAfterNewline(x: Bytes, y: Bytes)
    requires NEWLINE !in x
    ensures var text := Decode(x + [NEWLINE] + y);
      IndexOf(text, NEWLINE) == Some(|Decode(x)|) && text[|Decode(x)| + 1..] == Decode(y)
  {
    DecodeAtNewline(x, y);
    DecodeNoNewline(x);
    FirstAfter(Decode(x), NEWLINE, Decode(y));
  }

  lemma {:induction false} FirstAfter<T>(a: seq<T>, x: T, b: seq<T>)
    requires x !in a
    ensures IndexOf(a + [x] + b, x) == Some(|a|) && (a + [x] + b)[|a| + 1..] == b
  {
    var whole := a + [x] + b;
    if a != [] {
      assert whole[1..] == a[1..] + [x] + b;
      FirstAfter(a[1..], x, b);
    }
  }

  /** The lines after a newline byte are the last of the file's lines. */
  lemma AfterNewline(x: Bytes, y: Bytes)
    ensures IsSuffix(LinesOf(Decode(y)), LinesOf(Decode(x + [NEWLINE] + y)))
  {
    DecodeAtNewline(x, y);
    LinesAtNewline(Decode(x), Decode(y));
    SuffixOfConcat(LinesOf(Decode(x)), LinesOf(Decode(y)));
  }

  /** What a window keeps is decoded from the bytes after its first newline byte. */
  lemma WindowText(w: Bytes)
    ensures AfterFirstLine(Decode(w)) ==
      match IndexOf(w, NEWLINE) case None => [] case Some(k) => Decode(w[k + 1..])
  {
    match IndexOf(w, NEWLINE)
    case None => DecodeNoNewline(w);
    case Some(k) =>
      assert w == w[..k] + [NEWLINE] + w[k + 1..];
      WindowAfterNewline(w[..k], w[k + 1..]);
  }

  /** A window shows a suffix of the file's lines, whole lines only, wherever it cuts. */
  lemma TailIsSuffix(file: Bytes, max: nat)
    ensures IsSuffix(LinesOf(TailText(file, max)), LinesOf(Decode(file)))
  {
    if |file| <= max {
      SuffixOfAll(LinesOf(Decode(file)));
    } else {
      WindowIsSuffix(file[..|file| - max], file[|file| - max..]);
      assert file == file[..|file| - max] + file[|file| - max..];
    }
  }

  lemma SplitInside<T>(head: seq<T>, w: seq<T>, k: nat)
    requires k < |w|
    ensures head + w == (head + w[..k]) + [w[k]] + w[k + 1..]
  {
  }

  lemma WindowIsSuffix(head: Bytes, w: Bytes)
    ensures IsSuffix(LinesOf(AfterFirstLine(Decode(w))), LinesOf(Decode(head + w)))
  {
    WindowText(w);
    match IndexOf(w, NEWLINE)
    case None =>
      LinesOfOneLine([]);
      SuffixOfAll(LinesOf(Decode(head + w)));
    case Some(k) =>
      AfterNewline(head + w[..k], w[k + 1..]);
      SplitInside(head, w, k);
  }

  lemma SuffixOfAll<T>(a: seq<T>)
    ensures IsSuffix(a, a) && IsSuffix([], a)
  {
  }

  /** A window with enough lines, or with all of the file, gives the same last lines as the whole file. */
  lemma TailIsExact(file: Bytes, max: nat, count: nat)
    requires |file| <= max || |LinesOf(TailText(file, max))| >= count
    ensures Last(LinesOf(TailText(file, max)), count) == Last(LinesOf(Decode(file)), count)
  {
    TailIsSuffix(file, max);
  }
}
