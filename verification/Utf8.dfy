/**
 UTF-8 as files are read and written: decoding replaces each maximal broken sequence by U+FFFD, encoding writes a
 lone surrogate as U+FFFD.
 */
module Utf8 {
  import opened Json

  type Byte = b: int | 0 <= b < 256
  type Bytes = seq<Byte>

  const NEWLINE: CodeUnit := 10
  const REPLACEMENT: CodeUnit := 0xFFFD
  const REPLACEMENT_BYTES: Bytes := [0xEF, 0xBF, 0xBD]

  predicate IsSurrogate(c: CodeUnit) { IsHigh(c) || IsLow(c) }

  // ---------------------------------------------------------------- encoding

  function EncodeUnit(c: CodeUnit): (b: Bytes)
    ensures b != []
  {
    if c < 0x80 then [c]
    else if c < 0x800 then [0xC0 + c / 64, 0x80 + c % 64]
    else if IsSurrogate(c) then REPLACEMENT_BYTES
    else [0xE0 + c / 64 / 64, 0x80 + c / 64 % 64, 0x80 + c % 64]
  }

  /** A code point above the first plane. */
  function EncodePoint(n: int): (b: Bytes)
    requires 0x1_0000 <= n < 0x11_0000
    ensures |b| == 4
  {
    [0xF0 + n / 64 / 64 / 64, 0x80 + n / 64 / 64 % 64, 0x80 + n / 64 % 64, 0x80 + n % 64]
  }

  function EncodePair(high: CodeUnit, low: CodeUnit): (b: Bytes)
    requires IsHigh(high) && IsLow(low)
    ensures |b| == 4
  {
    EncodePoint(0x1_0000 + Bits(high, 0xD800) * 1024 + Bits(low, 0xDC00))
  }

  function Encode(t: Text): Bytes {
    if t == [] then []
    else if |t| > 1 && IsHigh(t[0]) && IsLow(t[1]) then EncodePair(t[0], t[1]) + Encode(t[2..])
    else EncodeUnit(t[0]) + Encode(t[1..])
  }

  // ---------------------------------------------------------------- decoding

  predicate IsTail(b: Byte) { 0x80 <= b < 0xC0 }

  /** How many bytes must follow a lead byte; none for a byte that leads nothing. */
  function Needed(lead: Byte): (n: nat)
    ensures n <= 3
  {
    if 0xC2 <= lead < 0xE0 then 1 else if 0xE0 <= lead < 0xF0 then 2 else if 0xF0 <= lead < 0xF5 then 3 else 0
  }

  /** The second byte excludes overlong forms, surrogates and numbers past the last code point. */
  predicate SecondOk(lead: Byte, b: Byte) {
    && IsTail(b)
    && (lead == 0xE0 ==> b >= 0xA0) && (lead == 0xED ==> b < 0xA0)
    && (lead == 0xF0 ==> b >= 0x90) && (lead == 0xF4 ==> b < 0x90)
  }

  /** How many of the needed bytes are there. */
  function Found(b: Bytes): (n: nat)
    requires b != []
    ensures n <= Needed(b[0]) && n < |b|
  {
    if Needed(b[0]) == 0 || |b| < 2 || !SecondOk(b[0], b[1]) then 0
    else if Needed(b[0]) == 1 || |b| < 3 || !IsTail(b[2]) then 1
    else if Needed(b[0]) == 2 || |b| < 4 || !IsTail(b[3]) then 2
    else 3
  }

  /** The bytes start with a whole, well-formed sequence. */
  predicate Whole(b: Bytes)
    requires b != []
  {
    b[0] < 0x80 || (Needed(b[0]) > 0 && Found(b) == Needed(b[0]))
  }

  /** Bytes taken by the first sequence, whole or broken. */
  function Length(b: Bytes): (n: nat)
    requires b != []
    ensures 1 <= n <= |b|
    ensures !Whole(b) ==> n <= 3
  {
    1 + Found(b)
  }

  function Units(b: Bytes): (t: Text)
    requires b != []
    ensures t != []
  {
    if !Whole(b) then [REPLACEMENT]
    else if b[0] < 0x80 then [b[0]]
    else if Needed(b[0]) == 1 then [Bits(b[0], 0xC0) * 64 + Bits(b[1], 0x80)]
    else if Needed(b[0]) == 2 then [(Bits(b[0], 0xE0) * 64 + Bits(b[1], 0x80)) * 64 + Bits(b[2], 0x80)]
    else PairOf(((Bits(b[0], 0xF0) * 64 + Bits(b[1], 0x80)) * 64 + Bits(b[2], 0x80)) * 64 + Bits(b[3], 0x80) - 0x1_0000)
  }

  /** The payload of a byte under its marker. */
  function Bits(b: int, marker: int): int { b - marker }

  /** The surrogate pair of a code point above the first plane, less 2^16. */
  function PairOf(n: int): (t: Text)
    requires 0 <= n < 0x10_0000
    ensures |t| == 2 && IsHigh(t[0]) && IsLow(t[1])
  {
    [0xD800 + n / 1024, 0xDC00 + n % 1024]
  }

  function Decode(b: Bytes): Text {
    if b == [] then [] else Units(b) + Decode(b[Length(b)..])
  }

  /** What reading a file as text and writing the text back makes of its bytes. */
  function Recode(b: Bytes): Bytes { Encode(Decode(b)) }

  // ---------------------------------------------------------------- texts without lone surrogates

  predicate Paired(t: Text) {
    || t == []
    || (|t| > 1 && IsHigh(t[0]) && IsLow(t[1]) && Paired(t[2..]))
    || (!IsSurrogate(t[0]) && Paired(t[1..]))
  }

  lemma {:induction false} PairedConcat(a: Text, b: Text)
    requires Paired(a) && Paired(b)
    ensures Paired(a + b)
  {
    if a == [] {
      assert a + b == b;
    } else if IsHigh(a[0]) {
      assert (a + b)[2..] == a[2..] + b;
      PairedConcat(a[2..], b);
    } else {
      assert (a + b)[1..] == a[1..] + b;
      PairedConcat(a[1..], b);
    }
  }

  lemma Associate<T>(a: seq<T>, b: seq<T>, c: seq<T>)
    ensures a + (b + c) == (a + b) + c
  {
  }

  lemma {:induction false} EncodeConcat(a: Text, b: Text)
    requires Paired(a)
    ensures Encode(a + b) == Encode(a) + Encode(b)
  {
    if a == [] {
      assert a + b == b;
    } else if IsHigh(a[0]) {
      assert (a + b)[2..] == a[2..] + b;
      EncodeConcat(a[2..], b);
      Associate(EncodePair(a[0], a[1]), Encode(a[2..]), Encode(b));
    } else {
      assert (a + b)[1..] == a[1..] + b;
      EncodeConcat(a[1..], b);
      Associate(EncodeUnit(a[0]), Encode(a[1..]), Encode(b));
    }
  }

  lemma PairedUnits(b: Bytes)
    requires b != []
    ensures Paired(Units(b))
  {
    var t := Units(b);
    if |t| == 1 {
      assert t[1..] == [];
    } else {
      assert t[2..] == [];
    }
  }

  /** Decoded text never has a lone surrogate. */
  lemma {:induction false} DecodePaired(b: Bytes)
    ensures Paired(Decode(b))
  {
    if b != [] {
      PairedUnits(b);
      DecodePaired(b[Length(b)..]);
      PairedConcat(Units(b), Decode(b[Length(b)..]));
    }
  }

  // ---------------------------------------------------------------- decoding undoes encoding

  lemma UnitDecodes(c: CodeUnit, rest: Bytes)
    requires !IsSurrogate(c)
    ensures var b := EncodeUnit(c) + rest; Length(b) == |EncodeUnit(c)| && Whole(b) && Units(b) == [c]
  {
  }

  lemma PairDecodes(high: CodeUnit, low: CodeUnit, rest: Bytes)
    requires IsHigh(high) && IsLow(low)
    ensures var b := EncodePair(high, low) + rest; Length(b) == 4 && Whole(b) && Units(b) == [high, low]
  {
    var m := Bits(high, 0xD800) * 1024 + Bits(low, 0xDC00);
    PointDecodes(0x1_0000 + m, rest);
    assert m / 1024 == high - 0xD800 && m % 1024 == low - 0xDC00;
  }

  lemma PointDecodes(n: int, rest: Bytes)
    requires 0x1_0000 <= n < 0x11_0000
    ensures var b := EncodePoint(n) + rest; Length(b) == 4 && Whole(b) && Units(b) == PairOf(n - 0x1_0000)
  {
    var b := EncodePoint(n) + rest;
    var h, i := n / 64, n / 64 / 64;
    assert b[0] == 0xF0 + i / 64 && b[1] == 0x80 + i % 64 && b[2] == 0x80 + h % 64 && b[3] == 0x80 + n % 64;
    assert 0x10 <= i < 0x110;
    assert Needed(b[0]) == 3 && SecondOk(b[0], b[1]) && IsTail(b[2]) && IsTail(b[3]);
    assert i / 64 * 64 + i % 64 == i && i * 64 + h % 64 == h && h * 64 + n % 64 == n;
  }

  lemma {:induction false} DecodeUndoesEncode(t: Text)
    requires Paired(t)
    ensures Decode(Encode(t)) == t
  {
    if t != [] {
      if IsHigh(t[0]) {
        PairDecodes(t[0], t[1], Encode(t[2..]));
        DecodeUndoesEncode(t[2..]);
        assert Encode(t)[4..] == Encode(t[2..]);
        assert t == [t[0], t[1]] + t[2..];
      } else {
        UnitDecodes(t[0], Encode(t[1..]));
        DecodeUndoesEncode(t[1..]);
        assert Encode(t)[|EncodeUnit(t[0])|..] == Encode(t[1..]);
        assert t == [t[0]] + t[1..];
      }
    }
  }

  /** A newline byte ends every sequence, so decoding splits there, broken sequences or not. */
  lemma {:induction false} DecodeAtNewline(x: Bytes, y: Bytes)
    ensures Decode(x + [NEWLINE] + y) == Decode(x) + [NEWLINE] + Decode(y)
  {
    var whole := x + [NEWLINE] + y;
    if x == [] {
      assert whole[1..] == y;
    } else {
      SameStart(x, y);
      var n := Length(x);
      assert whole[n..] == x[n..] + [NEWLINE] + y;
      DecodeAtNewline(x[n..], y);
      Regroup(Units(x), Decode(x[n..]), [NEWLINE], Decode(y));
    }
  }

  lemma Regroup<T>(a: seq<T>, b: seq<T>, c: seq<T>, d: seq<T>)
    ensures a + (b + c + d) == (a + b) + c + d
  {
  }

  lemma SameStart(x: Bytes, y: Bytes)
    requires x != []
    ensures var whole := x + [NEWLINE] + y;
      Length(whole) == Length(x) && Units(whole) == Units(x)
  {
    var whole := x + [NEWLINE] + y;
    assert whole[|x|] == NEWLINE && forall i :: 0 <= i < |x| ==> whole[i] == x[i];
    assert Found(whole) == Found(x);
  }

  // ---------------------------------------------------------------- what recoding keeps

  /** The bytes are well-formed UTF-8. */
  predicate Valid(b: Bytes) { b == [] || (Whole(b) && Valid(b[Length(b)..])) }

  /** A cut-off replacement character: the start of what a broken tail is rewritten as. */
  predicate IsStub(b: Bytes) { b == [0xEF] || b == [0xEF, 0xBF] }

  /** Well-formed, but for a cut-off replacement character at the end. */
  predicate ValidButStub(b: Bytes) { b == [] || IsStub(b) || (Whole(b) && ValidButStub(b[Length(b)..])) }

  lemma WholeEncodes(b: Bytes)
    requires b != [] && Whole(b)
    ensures Encode(Units(b)) == b[..Length(b)]
  {
    var t := Units(b);
    if |t| == 1 {
      assert t[1..] == [];
      UnitEncodes(b);
    } else {
      assert t[2..] == [];
      PointEncodes(b);
    }
  }

  lemma UnitEncodes(b: Bytes)
    requires b != [] && Whole(b) && Needed(b[0]) < 3
    ensures EncodeUnit(Units(b)[0]) == b[..Length(b)]
  {
    if Needed(b[0]) == 1 {
      var c := Units(b)[0];
      assert c / 64 == Bits(b[0], 0xC0) && c % 64 == Bits(b[1], 0x80);
    } else if Needed(b[0]) == 2 {
      var c := Units(b)[0];
      assert c / 64 == Bits(b[0], 0xE0) * 64 + Bits(b[1], 0x80) && c % 64 == Bits(b[2], 0x80);
      assert c / 64 / 64 == Bits(b[0], 0xE0) && c / 64 % 64 == Bits(b[1], 0x80);
    }
  }

  lemma PointEncodes(b: Bytes)
    requires b != [] && Whole(b) && Needed(b[0]) == 3
    ensures EncodePair(Units(b)[0], Units(b)[1]) == b[..4]
  {
    var i := Bits(b[0], 0xF0) * 64 + Bits(b[1], 0x80);
    var h := i * 64 + Bits(b[2], 0x80);
    var n := h * 64 + Bits(b[3], 0x80);
    assert n / 64 == h && n % 64 == Bits(b[3], 0x80);
    assert h / 64 == i && h % 64 == Bits(b[2], 0x80);
    assert i / 64 == Bits(b[0], 0xF0) && i % 64 == Bits(b[1], 0x80);
    assert Units(b) == PairOf(n - 0x1_0000);
    var m := n - 0x1_0000;
    assert m / 1024 * 1024 + m % 1024 == m;
  }

  /** Recoding goes sequence by sequence: whole ones stay, broken ones become the replacement character. */
  lemma RecodeStep(b: Bytes)
    requires b != []
    ensures Recode(b) == (if Whole(b) then b[..Length(b)] else REPLACEMENT_BYTES) + Recode(b[Length(b)..])
  {
    PairedUnits(b);
    EncodeConcat(Units(b), Decode(b[Length(b)..]));
    if Whole(b) {
      WholeEncodes(b);
    } else {
      assert Units(b)[1..] == [];
    }
  }

  lemma ReplacementWhole(b: Bytes)
    requires |b| >= 3 && b[..3] == REPLACEMENT_BYTES
    ensures Whole(b)
  {
    assert b[0] == b[..3][0] && b[1] == b[..3][1] && b[2] == b[..3][2];
  }

  /** Recoding changes nothing exactly in well-formed bytes. */
  lemma {:induction false} RecodeSameIffValid(b: Bytes)
    ensures Recode(b) == b <==> Valid(b)
  {
    if b != [] {
      RecodeStep(b);
      var n := Length(b);
      RecodeSameIffValid(b[n..]);
      assert b == b[..n] + b[n..];
      if !Whole(b) && Recode(b) == b {
        assert b[..3] == Recode(b)[..3] == REPLACEMENT_BYTES;
        ReplacementWhole(b);
      }
      if Whole(b) && Recode(b) == b {
        assert b[n..] == Recode(b)[n..] == Recode(b[n..]);
      }
    }
  }

  lemma StubRecodes(b: Bytes)
    requires IsStub(b)
    ensures !Whole(b) && Recode(b) == REPLACEMENT_BYTES && b <= Recode(b)
  {
    RecodeStep(b);
    assert b[Length(b)..] == [];
    assert Recode([]) == [];
  }

  /** Bytes stay a prefix of their recoding exactly when they are well-formed but for such a stub. */
  lemma {:induction false} RecodeKeepsPrefixIff(b: Bytes)
    ensures b <= Recode(b) <==> ValidButStub(b)
  {
    if IsStub(b) {
      StubRecodes(b);
    } else if b != [] {
      RecodeStep(b);
      var n := Length(b);
      RecodeKeepsPrefixIff(b[n..]);
      if Whole(b) {
        PrefixAfter(b, Recode(b[n..]), n);
      } else if b <= Recode(b) {
        BrokenNotPrefix(b, Recode(b[n..]));
      }
    }
  }

  lemma {:induction false} RecodeNoShorter(b: Bytes)
    ensures |Recode(b)| >= |b|
  {
    if b != [] {
      RecodeStep(b);
      RecodeNoShorter(b[Length(b)..]);
    }
  }

  lemma PrefixAfter(b: Bytes, rest: Bytes, n: nat)
    requires n <= |b|
    ensures b <= b[..n] + rest <==> b[n..] <= rest
  {
    assert b == b[..n] + b[n..];
    if b <= b[..n] + rest {
      assert (b[..n] + rest)[n..|b|] == b[n..];
    }
  }

  lemma BrokenNotPrefix(b: Bytes, rest: Bytes)
    requires b != [] && b <= REPLACEMENT_BYTES + rest
    ensures Whole(b) || IsStub(b)
  {
    var all := REPLACEMENT_BYTES + rest;
    assert all[..3] == REPLACEMENT_BYTES;
    if |b| >= 3 {
      assert b[..3] == all[..3];
      ReplacementWhole(b);
    } else {
      assert b == REPLACEMENT_BYTES[..|b|];
    }
  }
}
