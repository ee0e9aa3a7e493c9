/** Line breaks, counted over bytes and over scalars (`edda-lsp/src/position.rs`). */
module Lines {
  import opened Utf8

  // Both bytes and scalars are numbers, and a newline is 10 among either.

  function Newlines(s: seq<nat>): nat {
    if s == [] then 0 else (if s[0] == NEWLINE then 1 else 0) + Newlines(s[1..])
  }

  /** Start of the last line. */
  function LastStart(s: seq<nat>): (k: nat)
    ensures k <= |s|
  {
    if s == [] then 0
    else if s[|s| - 1] == NEWLINE then |s|
    else LastStart(s[..|s| - 1])
  }

  /** Start of line `line`, or the end when there are not that many lines. */
  function NthStart(s: seq<nat>, line: nat): (k: nat)
    ensures k <= |s|
  {
    if s == [] || line == 0 then 0
    else 1 + NthStart(s[1..], if s[0] == NEWLINE then line - 1 else line)
  }

  /** Distance to the next newline, or to the end. */
  function LineLength(s: seq<nat>): (k: nat)
    ensures k <= |s|
  {
    if s == [] || s[0] == NEWLINE then 0 else 1 + LineLength(s[1..])
  }

  // ----- Facts about any sequence -----

  lemma {:induction false} NewlinesConcat(s: seq<nat>, t: seq<nat>)
    ensures Newlines(s + t) == Newlines(s) + Newlines(t)
  {
    if s == [] {
      assert s + t == t;
    } else {
      assert (s + t)[0] == s[0] && (s + t)[1..] == s[1..] + t;
      NewlinesConcat(s[1..], t);
    }
  }

  lemma NewlinesOf(c: nat)
    ensures Newlines([c]) == if c == NEWLINE then 1 else 0
  {
    assert [c][1..] == [];
  }

  lemma {:induction false} NoNewlines(s: seq<nat>)
    requires forall i | 0 <= i < |s| :: s[i] != NEWLINE
    ensures Newlines(s) == 0
  {
    if s != [] {
      NoNewlines(s[1..]);
    }
  }

  /** From the start of the last line on there is no newline. */
  lemma {:induction false} LastLineIsPlain(s: seq<nat>)
    ensures forall i | LastStart(s) <= i < |s| :: s[i] != NEWLINE
  {
    if s != [] && s[|s| - 1] != NEWLINE {
      LastLineIsPlain(s[..|s| - 1]);
    }
  }

  /** The last line starts at the line numbered by the newlines before it. */
  lemma {:induction false} LastStartIsNth(s: seq<nat>, rest: seq<nat>)
    ensures NthStart(s + rest, Newlines(s)) == LastStart(s)
    decreases |s|
  {
    if s != [] {
      var n := |s| - 1;
      NewlinesConcat(s[..n], [s[n]]);
      NewlinesOf(s[n]);
      assert s[..n] + [s[n]] == s;
      if s[n] == NEWLINE {
        NthStartAfter(s[..n], rest);
        assert s[..n] + [NEWLINE] + rest == s + rest;
      } else {
        LastStartIsNth(s[..n], [s[n]] + rest);
        assert s[..n] + ([s[n]] + rest) == s + rest;
      }
    }
  }

  lemma {:induction false} NthStartAfter(s: seq<nat>, rest: seq<nat>)
    ensures NthStart(s + [NEWLINE] + rest, Newlines(s) + 1) == |s| + 1
  {
    var all := s + [NEWLINE] + rest;
    if s == [] {
      assert all[1..] == rest;
    } else {
      assert all[0] == s[0] && all[1..] == s[1..] + [NEWLINE] + rest;
      NthStartAfter(s[1..], rest);
    }
  }

  /** A line that is not cut short by the end has exactly its number of newlines before it. */
  lemma {:induction false} NthStartCounts(s: seq<nat>, line: nat)
    ensures var k := NthStart(s, line);
            if line <= Newlines(s) then Newlines(s[..k]) == line && LastStart(s[..k]) == k else k == |s|
  {
    if s != [] && line > 0 {
      var line' := if s[0] == NEWLINE then line - 1 else line;
      NthStartCounts(s[1..], line');
      var k := NthStart(s[1..], line');
      assert s[..k + 1][0] == s[0] && s[..k + 1][1..] == s[1..][..k];
      if line <= Newlines(s) {
        LastStartShifts(s[0], s[1..][..k]);
        assert s[..k + 1] == [s[0]] + s[1..][..k];
        if k == 0 { assert s[1..][..0] == []; }
      }
    }
  }

  lemma {:induction false} LastStartShifts(c: nat, s: seq<nat>)
    requires LastStart(s) == |s|
    ensures s != [] ==> LastStart([c] + s) == |s| + 1
    ensures s == [] && c == NEWLINE ==> LastStart([c] + s) == 1
  {
    if s != [] {
      LastStartBelow(s);
    }
  }

  lemma LastStartBelow(s: seq<nat>)
    requires s != [] && LastStart(s) == |s|
    ensures s[|s| - 1] == NEWLINE
  {
  }

  lemma {:induction false} LineLengthIs(s: seq<nat>)
    ensures forall i | 0 <= i < LineLength(s) :: s[i] != NEWLINE
    ensures LineLength(s) < |s| ==> s[LineLength(s)] == NEWLINE
  {
    if s != [] && s[0] != NEWLINE {
      LineLengthIs(s[1..]);
    }
  }

  // ----- Bytes against scalars -----

  /** A prefix without newlines shifts every line start. */
  lemma {:induction false} NthStartSkips(p: seq<nat>, t: seq<nat>, line: nat)
    requires line > 0 && forall i | 0 <= i < |p| :: p[i] != NEWLINE
    ensures NthStart(p + t, line) == |p| + NthStart(t, line)
  {
    if p == [] {
      assert p + t == t;
    } else {
      assert (p + t)[1..] == p[1..] + t;
      NthStartSkips(p[1..], t, line);
    }
  }

  lemma {:induction false} LineLengthSkips(p: seq<nat>, t: seq<nat>)
    requires forall i | 0 <= i < |p| :: p[i] != NEWLINE
    ensures LineLength(p + t) == |p| + LineLength(t)
  {
    if p == [] {
      assert p + t == t;
    } else {
      assert (p + t)[1..] == p[1..] + t;
      LineLengthSkips(p[1..], t);
    }
  }

  lemma {:induction false} EncodedNewlines(text: Text)
    ensures Newlines(Encoded(text)) == Newlines(text)
  {
    if text != [] {
      EncodedNewlines(text[1..]);
      NewlinesConcat(Utf8Of(text[0]), Encoded(text[1..]));
      if text[0] == NEWLINE { NewlinesOf(NEWLINE); } else { NoNewlines(Utf8Of(text[0])); }
    }
  }

  lemma {:induction false} EncodedNthStart(text: Text, line: nat)
    ensures NthStart(Encoded(text), line) == Size(text[..NthStart(text, line)])
  {
    if text != [] && line > 0 {
      var line' := if text[0] == NEWLINE then line - 1 else line;
      EncodedNthStart(text[1..], line');
      PrefixSize(text, 1 + NthStart(text[1..], line'));
      if text[0] == NEWLINE {
        assert Encoded(text)[1..] == Encoded(text[1..]);
      } else {
        NthStartSkips(Utf8Of(text[0]), Encoded(text[1..]), line);
      }
    }
  }

  lemma PrefixSize(text: Text, k: nat)
    requires 1 <= k <= |text|
    ensures Size(text[..k]) == Width(text[0]) + Size(text[1..][..k - 1])
  {
    assert text[..k][1..] == text[1..][..k - 1];
  }

  lemma {:induction false} EncodedLineLength(text: Text)
    ensures LineLength(Encoded(text)) == Size(text[..LineLength(text)])
  {
    if text != [] && text[0] != NEWLINE {
      EncodedLineLength(text[1..]);
      LineLengthSkips(Utf8Of(text[0]), Encoded(text[1..]));
      PrefixSize(text, LineLength(text));
    }
  }

  lemma EncodedLastStart(text: Text)
    ensures LastStart(Encoded(text)) == Size(text[..LastStart(text)])
  {
    LastStartIsNth(text, []);
    LastStartIsNth(Encoded(text), []);
    assert text + [] == text && Encoded(text) + [] == Encoded(text);
    EncodedNewlines(text);
    EncodedNthStart(text, Newlines(text));
  }

  // ----- The protocol's line endings -----

  const CR: nat := 13

  /** The length of the line ending the text starts with, if it starts with one: `\n`, `\r\n` or `\r`. */
  function Ending(s: seq<nat>): (k: nat)
    ensures k <= |s|
  {
    if s == [] then 0
    else if s[0] == NEWLINE then 1
    else if s[0] != CR then 0
    else if |s| > 1 && s[1] == NEWLINE then 2 else 1
  }

  /** Start of line `line` as the protocol divides lines, or the end when there are not that many. */
  function ProtocolStart(s: seq<nat>, line: nat): (k: nat)
    ensures k <= |s|
  {
    if s == [] || line == 0 then 0
    else if Ending(s) > 0 then Ending(s) + ProtocolStart(s[Ending(s)..], line - 1)
    else 1 + ProtocolStart(s[1..], line)
  }

  /** Distance to the next line ending of the protocol, or to the end. */
  function ProtocolLength(s: seq<nat>): (k: nat)
    ensures k <= |s|
  {
    if s == [] || Ending(s) > 0 then 0 else 1 + ProtocolLength(s[1..])
  }

  /** The line has the same place and the same length by both divisions. */
  predicate SameLine(s: seq<nat>, line: nat) {
    var k := NthStart(s, line);
    k == ProtocolStart(s, line) && LineLength(s[k..]) == ProtocolLength(s[k..])
  }

  lemma {:induction false} SameLengthWithoutReturn(s: seq<nat>)
    requires CR !in s
    ensures LineLength(s) == ProtocolLength(s)
  {
    if s != [] {
      SameLengthWithoutReturn(s[1..]);
    }
  }

  lemma {:induction false} SameStartWithoutReturn(s: seq<nat>, line: nat)
    requires CR !in s
    ensures NthStart(s, line) == ProtocolStart(s, line)
  {
    if s != [] && line > 0 {
      SameStartWithoutReturn(s[1..], if s[0] == NEWLINE then line - 1 else line);
    }
  }

  /** With a carriage return, the line of the first one differs. */
  lemma {:induction false} ReturnDivides(s: seq<nat>) returns (line: nat)
    requires CR in s
    ensures !SameLine(s, line)
  {
    line := 0;
    if s[0] != CR {
      var rest := ReturnDivides(s[1..]);
      line := if s[0] == NEWLINE then rest + 1 else rest;
      var k := NthStart(s[1..], rest);
      assert s[1..][k..] == s[k + 1..];
    }
  }

  /** The source divides a text into lines as the protocol does if and only if it has no carriage return. */
  lemma LinesAgreeIff(s: seq<nat>)
    ensures (forall line :: SameLine(s, line)) <==> CR !in s
  {
    if CR in s {
      var line := ReturnDivides(s);
    } else {
      forall line: nat ensures SameLine(s, line) {
        SameStartWithoutReturn(s, line);
        SameLengthWithoutReturn(s[NthStart(s, line)..]);
      }
    }
  }

  /** `a\r\nb`: the first line is one longer than the protocol's. */
  lemma ReturnStaysInLine()
    ensures var s := [0x61, CR, NEWLINE, 0x62]; LineLength(s) == 2 && ProtocolLength(s) == 1
  {
    var s := [0x61, CR, NEWLINE, 0x62];
    assert s[1..] == [CR, NEWLINE, 0x62] && s[1..][1..] == [NEWLINE, 0x62];
    assert LineLength(s[1..]) == 1;
  }
}
