/** Conversions between byte offsets and LSP positions (`edda-lsp/src/position.rs`). */
module Positions {
  import opened Utf8
  import opened Lines

  datatype Encoding = Utf8Units | Utf16Units | Utf32Units

  datatype Position = Position(line: nat, character: nat)

  const U32: nat := 0x1_0000_0000

  function Saturate(n: nat): nat {
    if n < U32 then n else U32 - 1
  }

  /** Code units of one scalar. */
  function UnitsOf(enc: Encoding, c: Scalar): (n: nat)
    ensures 1 <= n <= Width(c)
  {
    match enc
    case Utf8Units => Width(c)
    case Utf16Units => if c < 0x1_0000 then 1 else 2
    case Utf32Units => 1
  }

  function Units(enc: Encoding, s: Text): (n: nat)
    ensures |s| <= n
  {
    if s == [] then 0 else Units(enc, s[..|s| - 1]) + UnitsOf(enc, s[|s| - 1])
  }

  lemma {:induction false} UnitsConcat(enc: Encoding, s: Text, t: Text)
    ensures Units(enc, s + t) == Units(enc, s) + Units(enc, t)
    decreases |t|
  {
    if t == [] {
      assert s + t == s;
    } else {
      var n := |t| - 1;
      assert (s + t)[..|s| + n] == s + t[..n];
      UnitsConcat(enc, s, t[..n]);
    }
  }

  lemma {:induction false} UnitsFit(enc: Encoding, s: Text)
    ensures Units(enc, s) <= Size(s)
    ensures enc.Utf8Units? ==> Units(enc, s) == Size(s)
    ensures enc.Utf32Units? ==> Units(enc, s) == |s|
    decreases |s|
  {
    if s != [] {
      var n := |s| - 1;
      UnitsFit(enc, s[..n]);
      SizeConcat(s[..n], [s[n]]);
      assert s[..n] + [s[n]] == s;
      assert [s[n]][1..] == [];
    }
  }

  // ----- Byte offset to position -----

  function LastLine(p: Text): Text {
    p[LastStart(p)..]
  }

  /** The position just after the prefix `p` of a text, without any width limit. */
  function PositionAfter(p: Text, enc: Encoding): Position {
    Position(Newlines(p), Units(enc, LastLine(p)))
  }

  /** What 32-bit fields make of it: lines and UTF-16 columns saturate, the other columns are truncated. */
  function WirePosition(p: Text, enc: Encoding): (r: Position) {
    Position(Saturate(Newlines(p)), Column(enc, LastLine(p)))
  }

  function Column(enc: Encoding, s: Text): nat {
    if enc.Utf16Units? then Saturate(Units(enc, s)) else Units(enc, s) % U32
  }

  lemma {:induction false} NewlinesFit(s: seq<nat>)
    ensures Newlines(s) <= |s|
  {
    if s != [] {
      NewlinesFit(s[1..]);
    }
  }

  /** Below 4 GiB the width makes no difference. */
  lemma WireIsExact(text: Text, p: Text, enc: Encoding)
    requires p <= text && Size(text) < U32
    ensures WirePosition(p, enc) == PositionAfter(p, enc)
    ensures PositionAfter(p, enc).line < U32
  {
    SizeOfPrefix(p, text);
    NewlinesFit(p);
    LastLineFits(p, LastStart(p), enc);
  }

  lemma LastLineFits(p: Text, k: nat, enc: Encoding)
    requires k <= |p|
    ensures Units(enc, p[k..]) <= Size(p)
  {
    UnitsFit(enc, p[k..]);
    SizeOfPrefix(p[..k], p);
  }

  /** `count_utf16_units`. */
  method CountUtf16Units(s: Text) returns (units: nat)
    ensures units == Saturate(Units(Utf16Units, s))
  {
    units := 0;
    for i := 0 to |s|
      invariant units == Saturate(Units(Utf16Units, s[..i]))
    {
      assert s[..i + 1][..i] == s[..i];
      units := Saturate(units + UnitsOf(Utf16Units, s[i]));
    }
    assert s[..|s|] == s;
  }

  method Character(enc: Encoding, column: Text) returns (character: nat)
    ensures character == Column(enc, column)
  {
    UnitsFit(enc, column);
    match enc {
      case Utf8Units => character := Size(column) % U32;
      case Utf16Units => character := CountUtf16Units(column);
      case Utf32Units => character := |column| % U32;
    }
  }

  /** Counting over the bytes of a prefix is counting over its scalars. */
  lemma PrefixLine(text: Text, p: Text)
    requires p <= text
    ensures Size(p) <= Size(text)
    ensures var bs := Encoded(text)[..Size(p)];
            && Newlines(bs) == Newlines(p) && LastStart(bs) == Size(p[..LastStart(p)]) <= Size(p)
            && Boundary(text, LastStart(bs)) && Boundary(text, Size(p))
            && Slice(text, LastStart(bs), Size(p)) == LastLine(p)
  {
    SizeOfPrefix(p, text);
    EncodedNewlines(p);
    EncodedLastStart(p);
    SliceIs(text, p[..LastStart(p)], p);
  }

  /** `byte_to_position`. Slicing panics off a character boundary, so an offset inside the text is on one. */
  method ByteToPosition(text: Text, offset: nat, enc: Encoding) returns (pos: Position)
    requires offset < Size(text) ==> Boundary(text, offset)
    ensures pos == WirePosition(PrefixAt(text, offset), enc)
  {
    var bytes := Encoded(text);
    var clamped := if offset < |bytes| then offset else |bytes|;
    var line: nat, lineStart: nat := 0, 0;
    for i := 0 to clamped
      invariant line == Saturate(Newlines(bytes[..i])) && lineStart == LastStart(bytes[..i])
    {
      LineScan(bytes, i);
      if bytes[i] == NEWLINE {
        line := Saturate(line + 1);
        lineStart := i + 1;
      }
    }
    if offset >= Size(text) {
      PrefixAtSize(text, text, offset);
    }
    PrefixLine(text, PrefixAt(text, offset));
    var character := Character(enc, Slice(text, lineStart, clamped));
    pos := Position(line, character);
  }

  lemma LineScan(bytes: seq<nat>, i: nat)
    requires i < |bytes|
    ensures Newlines(bytes[..i + 1]) == Newlines(bytes[..i]) + if bytes[i] == NEWLINE then 1 else 0
    ensures LastStart(bytes[..i + 1]) == if bytes[i] == NEWLINE then i + 1 else LastStart(bytes[..i])
  {
    assert bytes[..i + 1][..i] == bytes[..i] && bytes[..i + 1] == bytes[..i] + [bytes[i]];
    NewlinesConcat(bytes[..i], [bytes[i]]);
    NewlinesOf(bytes[i]);
  }

  // ----- Position to byte offset -----

  function Before(text: Text, line: nat): (p: Text)
    ensures p <= text
  {
    text[..NthStart(text, line)]
  }

  /** The text of a line, without its newline; empty for a line past the end. */
  function LineText(text: Text, line: nat): Text {
    FirstLine(text[NthStart(text, line)..])
  }

  function FirstLine(t: Text): Text {
    t[..LineLength(t)]
  }

  /** `j` is the first scalar boundary of `s` with at least `target` units before it, or its end. */
  ghost predicate Reaches(enc: Encoding, s: Text, target: nat, j: nat) {
    && j <= |s|
    && (Units(enc, s[..j]) >= target || j == |s|)
    && forall i | 0 <= i < j :: Units(enc, s[..i]) < target
  }

  /** The byte offset within a line that a column stands for. UTF-8 columns are byte counts, clamped. */
  ghost predicate ColumnOffset(enc: Encoding, s: Text, target: nat, o: nat) {
    if enc.Utf8Units? then o == if target < Size(s) then target else Size(s)
    else exists j: nat :: Reaches(enc, s, target, j) && o == Size(s[..j])
  }

  /** `bytes_for_utf16_units` and `bytes_for_chars`. */
  method BytesForUnits(enc: Encoding, s: Text, target: nat) returns (o: nat)
    ensures exists j: nat :: Reaches(enc, s, target, j) && o == Size(s[..j])
  {
    var units := 0;
    for i := 0 to |s|
      invariant units == Units(enc, s[..i])
      invariant forall h | 0 <= h < i :: Units(enc, s[..h]) < target
    {
      if units >= target {
        assert Reaches(enc, s, target, i);
        return Size(s[..i]);
      }
      assert s[..i + 1][..i] == s[..i];
      units := units + UnitsOf(enc, s[i]);
    }
    assert s[..|s|] == s;
    assert Reaches(enc, s, target, |s|);
    o := Size(s);
  }

  /** `line_start_offset`: a count that reaches `line` has not saturated. */
  method LineStartOffset(text: Text, line: nat) returns (o: nat)
    requires line < U32
    ensures o == Size(Before(text, line))
  {
    EncodedNthStart(text, line);
    if line == 0 {
      return 0;
    }
    var bytes := Encoded(text);
    var seen: nat := 0;
    for i := 0 to |bytes|
      invariant seen < line
      invariant NthStart(bytes, line) == i + NthStart(bytes[i..], line - seen)
    {
      assert bytes[i..][1..] == bytes[i + 1..];
      if bytes[i] == NEWLINE {
        seen := Saturate(seen + 1);
        if seen == line {
          return i + 1;
        }
      }
    }
    o := |bytes|;
  }

  /** `next_line_offset`. */
  method NextLineOffset(text: Text, start: nat, ghost s: Text, ghost t: Text) returns (o: nat)
    requires text == s + t && start == Size(s)
    ensures o == Size(s + FirstLine(t))
  {
    var bytes := Encoded(text);
    EncodedHalves(text, s, t);
    LineEnds(s, t);
    var tail := bytes[start..];
    for off := 0 to |tail|
      invariant LineLength(tail) == off + LineLength(tail[off..])
    {
      assert tail[off..][1..] == tail[off + 1..];
      if tail[off] == NEWLINE {
        return start + off;
      }
    }
    o := |bytes|;
  }

  lemma LineEnds(s: Text, t: Text)
    ensures Size(s + FirstLine(t)) == Size(s) + LineLength(Encoded(t))
  {
    SizeConcat(s, FirstLine(t));
    EncodedLineLength(t);
  }

  /** `position_to_byte`. */
  method PositionToByte(text: Text, pos: Position, enc: Encoding) returns (o: nat)
    requires pos.line < U32
    ensures o >= Size(Before(text, pos.line))
    ensures ColumnOffset(enc, LineText(text, pos.line), pos.character, o - Size(Before(text, pos.line)))
  {
    ghost var s, t := Before(text, pos.line), text[NthStart(text, pos.line)..];
    var lineStart := LineStartOffset(text, pos.line);
    var lineEnd := NextLineOffset(text, lineStart, s, t);
    LineSlice(text, s, t);
    var lineText := Slice(text, lineStart, lineEnd);
    if enc.Utf8Units? {
      o := lineStart + if pos.character < Size(lineText) then pos.character else Size(lineText);
    } else {
      var column := BytesForUnits(enc, lineText, pos.character);
      o := lineStart + column;
    }
  }

  lemma LineSlice(text: Text, s: Text, t: Text)
    requires text == s + t
    ensures var e := Size(s + FirstLine(t));
            Boundary(text, Size(s)) && Boundary(text, e) && Size(s) <= e && Slice(text, Size(s), e) == FirstLine(t)
  {
    var q := s + FirstLine(t);
    assert s <= q <= text;
    SliceIs(text, s, q);
    assert q[|s|..] == FirstLine(t);
  }
}
