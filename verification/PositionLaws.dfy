/** What the two position conversions promise together. */
module PositionLaws {
  import opened Utf8
  import opened Lines
  import opened Positions

  /** `o` is what `PositionToByte` returns. */
  ghost predicate Converts(text: Text, pos: Position, enc: Encoding, o: nat) {
    var start := Size(Before(text, pos.line));
    o >= start && ColumnOffset(enc, LineText(text, pos.line), pos.character, o - start)
  }

  ghost predicate Precedes(x: Position, y: Position) {
    x.line < y.line || (x.line == y.line && x.character < y.character)
  }

  // ----- Round trip -----

  /** More text takes more units. */
  lemma UnitsGrow(enc: Encoding, p: Text, q: Text)
    requires p <= q
    ensures p != q ==> Units(enc, p) < Units(enc, q)
  {
    UnitsConcat(enc, p, q[|p|..]);
    assert p + q[|p|..] == q;
  }

  /** The column of a boundary leads back to it. */
  lemma ColumnReturns(enc: Encoding, l: Text, s: Text, o: nat)
    requires l <= s && ColumnOffset(enc, s, Units(enc, l), o)
    ensures o == Size(l)
  {
    SizeOfPrefix(l, s);
    UnitsFit(enc, l);
    if !enc.Utf8Units? {
      var j: nat :| Reaches(enc, s, Units(enc, l), j) && o == Size(s[..j]);
      ReachReturns(enc, l, s, j);
    }
  }

  lemma ReachReturns(enc: Encoding, l: Text, s: Text, j: nat)
    requires l <= s && Reaches(enc, s, Units(enc, l), j)
    ensures s[..j] == l
  {
    assert s[..|l|] == l;
    if j < |l| {
      assert s[..j] == l[..j];
      UnitsGrow(enc, l[..j], l);
    }
  }

  /** Where the line of a prefix starts, and that the prefix's last line begins the line's text. */
  lemma LineOfPrefix(p: Text, rest: Text)
    ensures Before(p + rest, Newlines(p)) == p[..LastStart(p)]
    ensures LastLine(p) <= LineText(p + rest, Newlines(p))
  {
    LastStartIsNth(p, rest);
    LastLineIsPlain(p);
    var k := LastStart(p);
    assert (p + rest)[..k] == p[..k];
    assert (p + rest)[k..] == LastLine(p) + rest;
    PlainStartsLine(LastLine(p), rest);
  }

  lemma PlainStartsLine(l: Text, rest: Text)
    requires forall i | 0 <= i < |l| :: l[i] != NEWLINE
    ensures l <= FirstLine(l + rest)
  {
    LineLengthSkips(l, rest);
  }

  /** Every boundary survives the trip to a position and back, under all three encodings. */
  lemma PositionRoundTrips(text: Text, p: Text, enc: Encoding, o: nat)
    requires p <= text && Converts(text, PositionAfter(p, enc), enc, o)
    ensures o == Size(p)
  {
    var rest := text[|p|..];
    assert p + rest == text;
    LineOfPrefix(p, rest);
    ColumnReturns(enc, LastLine(p), LineText(text, Newlines(p)), o - Size(p[..LastStart(p)]));
    SizeOfPrefix(p[..LastStart(p)], p);
  }

  // ----- Monotonicity -----

  lemma {:induction false} PlainIffNoNewlines(s: seq<nat>)
    ensures Newlines(s) == 0 <==> forall i | 0 <= i < |s| :: s[i] != NEWLINE
  {
    if s != [] {
      PlainIffNoNewlines(s[1..]);
      if Newlines(s) == 0 {
        forall i | 0 <= i < |s| ensures s[i] != NEWLINE { if i > 0 { assert s[i] == s[1..][i - 1]; } }
      }
    }
  }

  lemma {:induction false} LastStartKept(p: seq<nat>, x: seq<nat>)
    requires forall i | 0 <= i < |x| :: x[i] != NEWLINE
    ensures LastStart(p + x) == LastStart(p)
    decreases |x|
  {
    if x == [] {
      assert p + x == p;
    } else {
      var n := |x| - 1;
      assert (p + x)[..|p| + n] == p + x[..n];
      LastStartKept(p, x[..n]);
    }
  }

  /** Further boundaries have later positions. */
  lemma PositionsAdvance(p: Text, x: Text, enc: Encoding)
    requires x != []
    ensures Precedes(PositionAfter(p, enc), PositionAfter(p + x, enc))
  {
    NewlinesConcat(p, x);
    if Newlines(x) == 0 {
      PlainIffNoNewlines(x);
      LastStartKept(p, x);
      assert (p + x)[LastStart(p)..] == LastLine(p) + x;
      UnitsConcat(enc, LastLine(p), x);
    }
  }

  lemma PositionsInOrder(p: Text, q: Text, enc: Encoding)
    requires p <= q
    ensures p == q || Precedes(PositionAfter(p, enc), PositionAfter(q, enc))
  {
    if p != q {
      PositionsAdvance(p, q[|p|..], enc);
      assert p + q[|p|..] == q;
    }
  }

  lemma ColumnsAdvance(enc: Encoding, s: Text, c: nat, d: nat, o: nat, o': nat)
    requires c <= d && ColumnOffset(enc, s, c, o) && ColumnOffset(enc, s, d, o')
    ensures o <= o' <= Size(s)
  {
    if !enc.Utf8Units? {
      var j: nat :| Reaches(enc, s, c, j) && o == Size(s[..j]);
      var k: nat :| Reaches(enc, s, d, k) && o' == Size(s[..k]);
      ReachAdvances(enc, s, c, d, j, k);
      SizesAdvance(s, s[..j], s[..k]);
    }
  }

  lemma SizesAdvance(s: Text, p: Text, q: Text)
    requires p <= q <= s
    ensures Size(p) <= Size(q) <= Size(s)
  {
    SizeOfPrefix(p, q);
    SizeOfPrefix(q, s);
  }

  lemma ReachAdvances(enc: Encoding, s: Text, c: nat, d: nat, j: nat, k: nat)
    requires c <= d && Reaches(enc, s, c, j) && Reaches(enc, s, d, k)
    ensures j <= k
  {
  }

  /** A line ends before the next one starts. */
  lemma {:induction false} LineEndsBeforeNext(s: seq<nat>, line: nat, next: nat)
    requires line < next
    ensures var k := NthStart(s, line); k + LineLength(s[k..]) <= NthStart(s, next)
  {
    if s != [] {
      var step := if s[0] == NEWLINE then 1 else 0;
      if line == 0 {
        if s[0] != NEWLINE { LineEndsBeforeNext(s[1..], 0, next); }
      } else {
        LineEndsBeforeNext(s[1..], line - step, next - step);
        var k := NthStart(s[1..], line - step);
        assert s[1..][k..] == s[k + 1..];
      }
    }
  }

  /** A later position never converts to an earlier offset. */
  lemma OffsetsAdvance(text: Text, x: Position, y: Position, enc: Encoding, o: nat, o': nat)
    requires x == y || Precedes(x, y)
    requires Converts(text, x, enc, o) && Converts(text, y, enc, o')
    ensures o <= o' <= Size(text)
  {
    OffsetWithinLine(text, x, enc, o);
    OffsetWithinLine(text, y, enc, o');
    if x.line == y.line {
      var start := Size(Before(text, x.line));
      ColumnsAdvance(enc, LineText(text, x.line), x.character, y.character, o - start, o' - start);
    } else {
      LinesAdvance(text, x.line, y.line);
    }
  }

  lemma LinesAdvance(text: Text, line: nat, next: nat)
    requires line < next
    ensures Size(Before(text, line) + LineText(text, line)) <= Size(Before(text, next))
  {
    LineEndsBeforeNext(text, line, next);
    LineEnd(text, line);
    SizesAdvance(text, Before(text, line) + LineText(text, line), Before(text, next));
  }

  lemma LineEnd(text: Text, line: nat)
    ensures var k := NthStart(text, line);
            Before(text, line) + LineText(text, line) == text[..k + LineLength(text[k..])]
  {
  }

  lemma OffsetWithinLine(text: Text, pos: Position, enc: Encoding, o: nat)
    requires Converts(text, pos, enc, o)
    ensures Size(Before(text, pos.line)) <= o <= Size(Before(text, pos.line) + LineText(text, pos.line)) <= Size(text)
  {
    var s, l := Before(text, pos.line), LineText(text, pos.line);
    ColumnsAdvance(enc, l, pos.character, pos.character, o - Size(s), o - Size(s));
    SizeConcat(s, l);
    LineEnd(text, pos.line);
    SizeOfPrefix(s + l, text);
  }

  // ----- Lines that exist, and those that do not -----

  /** A line within the text is preceded by exactly its number of newlines; past the last line a position
      stands for the end of the text. */
  lemma LineIsNamed(text: Text, line: nat)
    ensures if line <= Newlines(text) then Newlines(Before(text, line)) == line && LastLine(Before(text, line)) == []
            else Before(text, line) == text && LineText(text, line) == []
    ensures forall i | 0 <= i < |LineText(text, line)| :: LineText(text, line)[i] != NEWLINE
  {
    NthStartCounts(text, line);
    LineLengthIs(text[NthStart(text, line)..]);
  }

  /** A UTF-16 or UTF-32 position always converts to a boundary; the position of that boundary is the
      original one exactly when the line has a boundary at that column. */
  lemma OffsetIsBoundary(text: Text, pos: Position, enc: Encoding, o: nat) returns (p: Text)
    requires Converts(text, pos, enc, o) && !enc.Utf8Units?
    ensures p <= text && Size(p) == o
    ensures PositionAfter(p, enc) == pos <==>
              pos.line <= Newlines(text)
              && exists l :: l <= LineText(text, pos.line) && Units(enc, l) == pos.character
  {
    var s, t := Before(text, pos.line), LineText(text, pos.line);
    var j: nat :| Reaches(enc, t, pos.character, j) && o - Size(s) == Size(t[..j]);
    p := s + t[..j];
    LineEnd(text, pos.line);
    assert p <= s + t;
    SizeConcat(s, t[..j]);
    LineIsNamed(text, pos.line);
    NewlinesConcat(s, t[..j]);
    NoNewlines(t[..j]);
    if pos.line <= Newlines(text) {
      LastStartKept(s, t[..j]);
      assert LastLine(p) == t[..j];
      ReachedExactly(enc, t, pos.character, j);
    }
  }

  lemma ReachedExactly(enc: Encoding, s: Text, target: nat, j: nat)
    requires Reaches(enc, s, target, j)
    ensures Units(enc, s[..j]) == target <==> exists l :: l <= s && Units(enc, l) == target
  {
    assert s[..j] <= s;
    if l :| l <= s && Units(enc, l) == target {
      assert l == s[..|l|];
      if j < |l| {
        assert s[..j] == l[..j];
        UnitsGrow(enc, l[..j], l);
      }
    }
  }
}
