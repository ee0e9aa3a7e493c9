/** Delta encoding of semantic tokens (`edda-lsp/src/semtokens.rs`). */
module SemanticTokens {
  import opened Bytes
  import opened Utf8
  import opened Lines
  import opened Positions
  import opened PositionLaws

  /** A lexed token with the classification of its kind, if it has one. */
  datatype Lexed = Lexed(tokenType: Option<nat>, lo: nat, hi: nat)

  datatype Delta = Delta(deltaLine: nat, deltaStart: nat, length: nat, tokenType: nat)

  /** A token by its place in the text. */
  datatype Absolute = Absolute(line: nat, start: nat, length: nat, tokenType: nat)

  /** Spans of the buffer that was lexed, ordered by where they start. */
  ghost predicate LexedFrom(text: Text, tokens: seq<Lexed>) {
    && Size(text) < U32
    && (forall i | 0 <= i < |tokens| :: Cut(text, tokens[i].lo) && Cut(text, tokens[i].hi))
    && (forall i, j | 0 <= i < j < |tokens| :: tokens[i].lo <= tokens[j].lo)
  }

  ghost predicate Cut(text: Text, o: nat) {
    o < Size(text) ==> Boundary(text, o)
  }

  ghost function PlaceOf(text: Text, o: nat, enc: Encoding): Position
  {
    PositionAfter(PrefixAt(text, o), enc)
  }

  /** The entry of one token: none for an unclassified, empty or multi-line token. */
  ghost function EntryOf(text: Text, t: Lexed, enc: Encoding): Option<Absolute>
  {
    if t.tokenType.None? || t.hi <= t.lo then None
    else EntryBetween(PlaceOf(text, t.lo, enc), PlaceOf(text, t.hi, enc), t.tokenType.value)
  }

  ghost function EntryBetween(start: Position, end: Position, tokenType: nat): Option<Absolute> {
    if start.line != end.line || end.character <= start.character then None
    else Some(Absolute(start.line, start.character, end.character - start.character, tokenType))
  }

  ghost function EntriesOf(text: Text, tokens: seq<Lexed>, enc: Encoding): (es: seq<Option<Absolute>>)
    ensures |es| == |tokens|
  {
    if tokens == [] then []
    else EntriesOf(text, tokens[..|tokens| - 1], enc) + [EntryOf(text, tokens[|tokens| - 1], enc)]
  }

  lemma {:induction false} EntryAt(text: Text, tokens: seq<Lexed>, enc: Encoding, i: nat)
    requires i < |tokens|
    ensures EntriesOf(text, tokens, enc)[i] == EntryOf(text, tokens[i], enc)
    decreases |tokens|
  {
    var n := |tokens| - 1;
    Snoc(EntriesOf(text, tokens[..n], enc), EntryOf(text, tokens[n], enc), i);
    if i < n {
      EntryAt(text, tokens[..n], enc, i);
    }
  }

  lemma Snoc<T>(s: seq<T>, x: T, i: nat)
    requires i <= |s|
    ensures (s + [x])[i] == if i < |s| then s[i] else x
  {
  }

  /** The entries that are there, in order. */
  ghost function Kept(es: seq<Option<Absolute>>): seq<Absolute> {
    if es == [] then []
    else
      var n := |es| - 1;
      Kept(es[..n]) + match es[n] case None => [] case Some(a) => [a]
  }

  /** A client's running sums: the line and start after the given deltas. */
  function Sums(deltas: seq<Delta>): (nat, nat) {
    if deltas == [] then (0, 0)
    else
      var prev, d := Sums(deltas[..|deltas| - 1]), deltas[|deltas| - 1];
      (prev.0 + d.deltaLine, if d.deltaLine == 0 then prev.1 + d.deltaStart else d.deltaStart)
  }

  /** What a client reads. */
  function Decoded(deltas: seq<Delta>): seq<Absolute> {
    if deltas == [] then []
    else
      var d := deltas[|deltas| - 1];
      Decoded(deltas[..|deltas| - 1]) + [Absolute(Sums(deltas).0, Sums(deltas).1, d.length, d.tokenType)]
  }

  /** A client that has reached `(line, start)` reads the next delta as the place it was computed from. */
  lemma DecodedExtended(deltas: seq<Delta>, line: nat, start: nat, d: Delta, a: Absolute)
    requires Sums(deltas) == (line, start)
    requires a.length == d.length && a.tokenType == d.tokenType && a.line == line + d.deltaLine
    requires a.start == if d.deltaLine == 0 then start + d.deltaStart else d.deltaStart
    ensures Sums(deltas + [d]) == (a.line, a.start) && Decoded(deltas + [d]) == Decoded(deltas) + [a]
  {
    var all := deltas + [d];
    assert all[..|all| - 1] == deltas && all[|all| - 1] == d;
  }

  lemma KeptExtended(es: seq<Option<Absolute>>, i: nat)
    requires i < |es|
    ensures Kept(es[..i + 1]) == Kept(es[..i]) + match es[i] case None => [] case Some(a) => [a]
  {
    assert es[..i + 1][..i] == es[..i];
  }

  lemma CutSize(text: Text, o: nat)
    requires Cut(text, o)
    ensures Size(PrefixAt(text, o)) == if o < Size(text) then o else Size(text)
    ensures o >= Size(text) ==> PrefixAt(text, o) == text
  {
    if o >= Size(text) {
      PrefixAtSize(text, text, o);
    }
  }

  /** Offsets in order have positions in order. */
  lemma PlacesInOrder(text: Text, o: nat, o': nat, enc: Encoding)
    requires Cut(text, o) && Cut(text, o') && o <= o'
    ensures var x, y := PlaceOf(text, o, enc), PlaceOf(text, o', enc); x == y || Precedes(x, y)
  {
    var p, q := PrefixAt(text, o), PrefixAt(text, o');
    CutSize(text, o);
    CutSize(text, o');
    ShorterPrefix(text, p, q);
    PositionsInOrder(p, q, enc);
  }

  /** `byte_to_position` on a buffer below 4 GiB. */
  method Locate(text: Text, o: nat, enc: Encoding) returns (pos: Position)
    requires Cut(text, o) && Size(text) < U32
    ensures pos == PlaceOf(text, o, enc)
  {
    pos := ByteToPosition(text, o, enc);
    WireIsExact(text, PrefixAt(text, o), enc);
  }

  /** Where `t` starts and ends, when it is to be emitted. */
  method Placed(text: Text, t: Lexed, enc: Encoding) returns (entry: Option<Absolute>)
    requires Cut(text, t.lo) && Cut(text, t.hi) && Size(text) < U32
    ensures entry == EntryOf(text, t, enc)
  {
    if t.tokenType.None? || t.hi <= t.lo {
      return None;
    }
    var start := Locate(text, t.lo, enc);
    var end := Locate(text, t.hi, enc);
    assert EntryOf(text, t, enc) == EntryBetween(start, end, t.tokenType.value);
    if start.line != end.line {
      return None;
    }
    var length: nat := if end.character > start.character then end.character - start.character else 0;
    if length == 0 {
      return None;
    }
    entry := Some(Absolute(start.line, start.character, length, t.tokenType.value));
  }

  /** The entry's place is no earlier than the given one. */
  ghost predicate NotBefore(a: Absolute, line: nat, start: nat) {
    line <= a.line && (line == a.line ==> start <= a.start)
  }

  ghost predicate AllNotBefore(es: seq<Option<Absolute>>, line: nat, start: nat) {
    forall j | 0 <= j < |es| && es[j].Some? :: NotBefore(es[j].value, line, start)
  }

  ghost predicate InOrder(es: seq<Option<Absolute>>) {
    forall i | 0 <= i < |es| && es[i].Some? :: AllNotBefore(es[i + 1..], es[i].value.line, es[i].value.start)
  }

  lemma EntriesInOrder(text: Text, tokens: seq<Lexed>, enc: Encoding)
    requires LexedFrom(text, tokens)
    ensures InOrder(EntriesOf(text, tokens, enc))
  {
    var es := EntriesOf(text, tokens, enc);
    forall i, j | 0 <= i < j < |es| && es[i].Some? && es[j].Some?
      ensures NotBefore(es[j].value, es[i].value.line, es[i].value.start)
    {
      EntryAt(text, tokens, enc, i);
      EntryAt(text, tokens, enc, j);
      PlacesInOrder(text, tokens[i].lo, tokens[j].lo, enc);
    }
  }

  /** `encode_semantic_tokens`: no delta is negative, and a client's running sums give back the line, start,
      length and type of exactly the tokens that are kept. */
  method EncodeSemanticTokens(text: Text, tokens: seq<Lexed>, enc: Encoding) returns (out: seq<Delta>)
    requires LexedFrom(text, tokens)
    ensures Decoded(out) == Kept(EntriesOf(text, tokens, enc))
  {
    out := [];
    var prevLine: nat, prevStart: nat := 0, 0;
    ghost var es := EntriesOf(text, tokens, enc);
    EntriesInOrder(text, tokens, enc);
    for i := 0 to |tokens|
      invariant Decoded(out) == Kept(es[..i]) && Sums(out) == (prevLine, prevStart)
      invariant AllNotBefore(es[i..], prevLine, prevStart)
    {
      var entry := Placed(text, tokens[i], enc);
      EntryAt(text, tokens, enc, i);
      KeptExtended(es, i);
      assert es[i..][0] == es[i] && es[i..][1..] == es[i + 1..];
      if entry.None? {
        continue;
      }
      var a := entry.value;
      assert NotBefore(a, prevLine, prevStart);
      var deltaLine: nat := a.line - prevLine;
      var deltaStart: nat := if deltaLine == 0 then a.start - prevStart else a.start;
      var d := Delta(deltaLine, deltaStart, a.length, a.tokenType);
      DecodedExtended(out, prevLine, prevStart, d, a);
      out := out + [d];
      prevLine, prevStart := a.line, a.start;
    }
    assert es[..|tokens|] == es;
  }

  lemma BoundaryReturns(text: Text, offset: nat, enc: Encoding, pos: Position, o: nat)
    requires Cut(text, offset) && pos == PlaceOf(text, offset, enc) && Converts(text, pos, enc, o)
    ensures o == if offset < Size(text) then offset else Size(text)
  {
    PositionRoundTrips(text, PrefixAt(text, offset), enc, o);
    CutSize(text, offset);
  }

  /** An entry's start and end, and the token's own offsets they stand for. */
  lemma EntryPlaces(text: Text, t: Lexed, enc: Encoding, a: Absolute)
    requires Cut(text, t.lo) && Cut(text, t.hi) && EntryOf(text, t, enc) == Some(a)
    ensures Position(a.line, a.start) == PlaceOf(text, t.lo, enc)
    ensures Position(a.line, a.start + a.length) == PlaceOf(text, t.hi, enc)
    ensures t.lo < Size(text)
  {
    if t.lo >= Size(text) {
      CutSize(text, t.lo);
      CutSize(text, t.hi);
    }
  }

  /** The entry of a token points back at it: both of its ends convert to the token's own offsets. */
  lemma EntryPointsBack(text: Text, t: Lexed, enc: Encoding, a: Absolute, o: nat, o': nat)
    requires Cut(text, t.lo) && Cut(text, t.hi) && EntryOf(text, t, enc) == Some(a)
    requires Converts(text, Position(a.line, a.start), enc, o)
    requires Converts(text, Position(a.line, a.start + a.length), enc, o')
    ensures o == t.lo && o' == if t.hi < Size(text) then t.hi else Size(text)
  {
    EntryPlaces(text, t, enc, a);
    BoundaryReturns(text, t.lo, enc, Position(a.line, a.start), o);
    BoundaryReturns(text, t.hi, enc, Position(a.line, a.start + a.length), o');
  }

  /** Which tokens are kept: those with a type that cover some text on a single line. The entry has that type,
      the place of the token's first character, and the length of its text. */
  lemma EntryIff(text: Text, t: Lexed, enc: Encoding)
    requires Cut(text, t.lo) && Cut(text, t.hi)
    ensures var p, q := PrefixAt(text, t.lo), PrefixAt(text, t.hi);
      && (EntryOf(text, t, enc).Some? <==> t.tokenType.Some? && |p| < |q| && NEWLINE !in q[|p|..])
      && (EntryOf(text, t, enc).Some? ==>
            EntryOf(text, t, enc).value == Absolute(Newlines(p), Units(enc, LastLine(p)), Units(enc, q[|p|..]),
                                                    t.tokenType.value))
  {
    var p, q := PrefixAt(text, t.lo), PrefixAt(text, t.hi);
    CoversText(text, t);
    if |p| < |q| {
      assert p + q[|p|..] == q;
      EntryOfCovered(text, t, enc, p, q[|p|..]);
    }
  }

  lemma EntryOfCovered(text: Text, t: Lexed, enc: Encoding, p: Text, x: Text)
    requires PrefixAt(text, t.lo) == p && PrefixAt(text, t.hi) == p + x && x != [] && t.lo < t.hi
    ensures EntryOf(text, t, enc)
         == if t.tokenType.None? || NEWLINE in x then None
            else Some(Absolute(Newlines(p), Units(enc, LastLine(p)), Units(enc, x), t.tokenType.value))
  {
    if t.tokenType.Some? {
      CoveredBetween(p, x, enc, t.tokenType.value);
    }
  }

  lemma CoveredBetween(p: Text, x: Text, enc: Encoding, tokenType: nat)
    requires x != []
    ensures EntryBetween(PositionAfter(p, enc), PositionAfter(p + x, enc), tokenType)
         == if NEWLINE in x then None
            else Some(Absolute(Newlines(p), Units(enc, LastLine(p)), Units(enc, x), tokenType))
  {
    PlacesWithin(p, x, enc);
    assert Units(enc, x) > 0;
  }

  /** Unless a token covers some text, it is empty or lies beyond the end. */
  lemma CoversText(text: Text, t: Lexed)
    requires Cut(text, t.lo) && Cut(text, t.hi)
    ensures var p, q := PrefixAt(text, t.lo), PrefixAt(text, t.hi);
      if |p| < |q| then p <= q && t.lo < t.hi else t.hi <= t.lo || p == q
  {
    var p, q := PrefixAt(text, t.lo), PrefixAt(text, t.hi);
    CutSize(text, t.lo);
    CutSize(text, t.hi);
    ShorterPrefix(text, p, q);
    ShorterPrefix(text, q, p);
  }

  /** Text without a newline stays on the line and moves the column by its length; other text leaves the line. */
  lemma PlacesWithin(p: Text, x: Text, enc: Encoding)
    ensures PositionAfter(p + x, enc).line == PositionAfter(p, enc).line <==> NEWLINE !in x
    ensures NEWLINE !in x ==>
              PositionAfter(p + x, enc).character == PositionAfter(p, enc).character + Units(enc, x)
  {
    NewlinesConcat(p, x);
    if NEWLINE in x {
      HasNewline(x);
    } else {
      NoNewlines(x);
      LastStartKept(p, x);
      assert LastLine(p + x) == LastLine(p) + x;
      UnitsConcat(enc, LastLine(p), x);
    }
  }

  lemma {:induction false} HasNewline(x: Text)
    requires NEWLINE in x
    ensures Newlines(x) > 0
  {
    if x[0] != NEWLINE {
      HasNewline(x[1..]);
    }
  }
}
