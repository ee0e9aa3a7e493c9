/** `file:` URIs and paths (`edda-lsp/src/uri.rs`), with percent-encoding as in section 2.1 of RFC 3986. */
module Uris {
  import opened Bytes
  import Utf8

  const PERCENT: byte := 0x25
  const SLASH: byte := 0x2F
  const BACKSLASH: byte := 0x5C
  const COLON: byte := 0x3A

  /** Bytes written as they are: the unreserved characters of section 2.3 of RFC 3986, `/` and `:`. */
  predicate IsPlain(b: byte) {
    || 0x41 <= b <= 0x5A || 0x61 <= b <= 0x7A || 0x30 <= b <= 0x39
    || b == 0x2D || b == 0x5F || b == 0x2E || b == 0x7E || b == SLASH || b == COLON
  }

  function HexDigit(n: nat): byte
    requires n < 16
  {
    if n < 10 then 0x30 + n else 0x41 + (n - 10)
  }

  lemma HexDigitIs(n: nat)
    requires n < 16
    ensures HexDigit(n) == "0123456789ABCDEF"[n] as int
  {
  }

  function Escaped(b: byte): Str {
    if IsPlain(b) then [b] else [PERCENT, HexDigit(b / 16), HexDigit(b % 16)]
  }

  function Encoded(s: Str): Str {
    if s == [] then [] else Escaped(s[0]) + Encoded(s[1..])
  }

  /** A `%` followed by two hexadecimal digits. */
  predicate IsTriplet(s: Str) {
    |s| >= 3 && s[0] == PERCENT && HexValue(s[1]).Some? && HexValue(s[2]).Some?
  }

  /** Every triplet becomes its byte; all else stays. */
  function Decoded(s: Str): Str {
    if s == [] then []
    else if IsTriplet(s) then [HexValue(s[1]).value * 16 + HexValue(s[2]).value] + Decoded(s[3..])
    else [s[0]] + Decoded(s[1..])
  }

  /** `percent_encode_path`. */
  method PercentEncodePath(input: Str) returns (out: Str)
    ensures out == Encoded(input)
  {
    out := [];
    assert input[0..] == input;
    for i := 0 to |input|
      invariant out + Encoded(input[i..]) == Encoded(input)
    {
      var b := input[i];
      assert input[i..][1..] == input[i + 1..];
      Joined(out, Escaped(b), Encoded(input[i + 1..]));
      if IsPlain(b) {
        out := out + [b];
      } else {
        out := out + [PERCENT, HexDigit(b / 16), HexDigit(b % 16)];
      }
    }
  }

  lemma Joined(a: Str, b: Str, c: Str)
    ensures a + (b + c) == a + b + c
  {
  }

  /** The decoded text, or the input when that is not UTF-8. */
  ghost function DecodedText(input: Str): Str {
    if Utf8.IsUtf8(Decoded(input)) then Decoded(input) else input
  }

  /** `percent_decode`. `isUtf8` is the test of `from_utf8`. */
  method PercentDecode(input: Str, isUtf8: Str -> bool) returns (r: Str)
    requires forall s :: isUtf8(s) <==> Utf8.IsUtf8(s)
    ensures r == DecodedText(input)
  {
    var out: Str, i := [], 0;
    assert input[0..] == input;
    while i < |input|
      invariant 0 <= i <= |input| && out + Decoded(input[i..]) == Decoded(input)
    {
      var rest := input[i..];
      if IsTriplet(rest) {
        assert rest[3..] == input[i + 3..];
        var b: byte := HexValue(rest[1]).value * 16 + HexValue(rest[2]).value;
        Joined(out, [b], Decoded(input[i + 3..]));
        out := out + [b];
        i := i + 3;
      } else {
        assert rest[1..] == input[i + 1..];
        Joined(out, [rest[0]], Decoded(input[i + 1..]));
        out := out + [rest[0]];
        i := i + 1;
      }
    }
    assert input[i..] == [] && out + [] == out;
    r := if isUtf8(out) then out else input;
  }

  lemma EscapeDecodes(b: byte, rest: Str)
    ensures Decoded(Escaped(b) + rest) == [b] + Decoded(rest)
  {
    var s := Escaped(b) + rest;
    if IsPlain(b) {
      assert s[1..] == rest;
    } else {
      assert s[3..] == rest;
    }
  }

  /** Decoding undoes encoding on every byte string. */
  lemma {:induction false} DecodeUndoesEncode(s: Str)
    ensures Decoded(Encoded(s)) == s
  {
    if s != [] {
      DecodeUndoesEncode(s[1..]);
      EscapeDecodes(s[0], Encoded(s[1..]));
    }
  }

  /** An encoded path holds only characters a URI may hold, and `%` only to start a triplet. */
  lemma {:induction false} EncodedIsClean(s: Str, i: nat)
    requires i < |Encoded(s)|
    ensures IsPlain(Encoded(s)[i]) || Encoded(s)[i] == PERCENT
    ensures Encoded(s)[i] == PERCENT ==> IsTriplet(Encoded(s)[i..])
    decreases |s|
  {
    var first, rest := Escaped(s[0]), Encoded(s[1..]);
    if i >= |first| {
      EncodedIsClean(s[1..], i - |first|);
      assert Encoded(s)[i..] == rest[i - |first|..];
    }
  }

  /** Letters, digits and `-_.~/:` are written as they are, every other byte as `%` and two uppercase digits. */
  lemma EscapesExactly(b: byte)
    ensures var plain := || 'A' as int <= b <= 'Z' as int || 'a' as int <= b <= 'z' as int
                         || '0' as int <= b <= '9' as int || IsOneOf(b, "-_.~/:");
      Encoded([b]) == if plain then [b]
                      else ['%' as int, "0123456789ABCDEF"[b / 16] as int, "0123456789ABCDEF"[b % 16] as int]
  {
    assert [b][1..] == [];
    HexDigitIs(b / 16);
    HexDigitIs(b % 16);
    var others := "-_.~/:";
    assert others[0] == '-' && others[1] == '_' && others[2] == '.' && others[3] == '~' && others[4] == '/'
           && others[5] == ':';
  }

  lemma {:induction false} EncodedConcat(s: Str, t: Str)
    ensures Encoded(s + t) == Encoded(s) + Encoded(t)
  {
    if s == [] {
      assert s + t == t;
    } else {
      assert (s + t)[1..] == s[1..] + t;
      EncodedConcat(s[1..], t);
      Joined(Escaped(s[0]), Encoded(s[1..]), Encoded(t));
    }
  }

  // ----- Paths -----

  function Slashed(path: Str): (r: Str)
    ensures |r| == |path| && (r == path <==> BACKSLASH !in path)
  {
    var r: Str := seq(|path|, i requires 0 <= i < |path| => if path[i] == BACKSLASH then SLASH else path[i]);
    assert BACKSLASH in path ==> r != path by {
      if BACKSLASH in path {
        var i :| 0 <= i < |path| && path[i] == BACKSLASH;
        assert r[i] != path[i];
      }
    }
    r
  }

  predicate IsAlphabetic(b: byte) {
    0x41 <= b <= 0x5A || 0x61 <= b <= 0x7A
  }

  predicate HasDriveLetter(path: Str) {
    |path| >= 2 && IsAlphabetic(path[0]) && path[1] == COLON
  }

  const SCHEME: Str := Ascii("file:///")

  /** The path as written after `file:///`. */
  function BodyOf(path: Str, windows: bool): Str {
    var normalized := Slashed(path);
    if !(windows && HasDriveLetter(normalized)) && normalized != [] && normalized[0] == SLASH then normalized[1..]
    else normalized
  }

  /** `path_to_uri_string`. */
  function PathToUri(path: Str, windows: bool): Str {
    SCHEME + Encoded(BodyOf(path, windows))
  }

  datatype UriError = UnsupportedScheme | InvalidPath

  /** `uri_to_path`; the text after `file://` keeps its leading slash. */
  ghost function UriToPath(uri: Str, windows: bool): Result<Str, UriError> {
    if |uri| < 7 || uri[..7] != SCHEME[..7] then Err(UnsupportedScheme)
    else
      var decoded := DecodedText(uri[7..]);
      var path := if windows && decoded != [] && decoded[0] == SLASH && HasDriveLetter(decoded[1..]) then decoded[1..]
                  else decoded;
      if path == [] then Err(InvalidPath) else Ok(path)
  }

  // ----- Replacing separators keeps UTF-8 -----

  function SlashedText(text: Utf8.Text): (r: Utf8.Text)
    ensures |r| == |text|
  {
    if text == [] then [] else [if text[0] == BACKSLASH then SLASH else text[0]] + SlashedText(text[1..])
  }

  lemma SlashedConcat(a: Str, b: Str)
    ensures Slashed(a + b) == Slashed(a) + Slashed(b)
  {
  }

  lemma SlashedScalar(c: nat)
    ensures Slashed(Utf8.Utf8Of(c)) == Utf8.Utf8Of(if c == BACKSLASH then SLASH else c)
  {
    forall i | 0 <= i < |Utf8.Utf8Of(c)| && Utf8.Utf8Of(c)[i] == BACKSLASH ensures Utf8.Utf8Of(c) == [c] {
      Utf8.AsciiStandsAlone(c, i);
    }
  }

  lemma {:induction false} SlashedEncoding(text: Utf8.Text)
    requires Utf8.AllScalars(text)
    ensures Utf8.AllScalars(SlashedText(text)) && Utf8.Encoded(SlashedText(text)) == Slashed(Utf8.Encoded(text))
  {
    if text != [] {
      SlashedEncoding(text[1..]);
      SlashedScalar(text[0]);
      SlashedConcat(Utf8.Utf8Of(text[0]), Utf8.Encoded(text[1..]));
    }
  }

  lemma SlashThenText(text: Utf8.Text)
    requires Utf8.AllScalars(text)
    ensures Utf8.IsUtf8([SLASH] + Utf8.Encoded(text))
  {
    var longer: Utf8.Text := [SLASH] + text;
    assert longer[1..] == text && Utf8.AllScalars(longer);
    assert Utf8.Encoded(longer) == [SLASH] + Utf8.Encoded(text);
  }

  /** What a URI decodes to is UTF-8 when the path is. */
  lemma BodyIsUtf8(path: Str, windows: bool)
    requires Utf8.IsUtf8(path)
    ensures Utf8.IsUtf8([SLASH] + BodyOf(path, windows))
  {
    var text :| Utf8.AllScalars(text) && Utf8.Encoded(text) == path;
    SlashedEncoding(text);
    var normalized := Slashed(path);
    if BodyOf(path, windows) == normalized {
      SlashThenText(SlashedText(text));
    } else {
      assert [SLASH] + normalized[1..] == normalized;
    }
  }

  lemma SchemeEndsInSlash()
    ensures |SCHEME| == 8 && SCHEME[7] == SLASH
  {
    assert '/' as int == 0x2F;
  }

  lemma AfterScheme(body: Str)
    ensures |SCHEME| == 8 && (SCHEME + body)[..7] == SCHEME[..7] && (SCHEME + body)[7..] == [SLASH] + body
  {
    SchemeEndsInSlash();
  }

  /** The path that comes back: separators become `/` and it becomes absolute, unless it has a drive letter. */
  function Returned(path: Str, windows: bool): Str {
    var body := BodyOf(path, windows);
    if windows && HasDriveLetter(body) then body else [SLASH] + body
  }

  lemma UriReturns(path: Str, windows: bool)
    requires Utf8.IsUtf8(path)
    ensures UriToPath(PathToUri(path, windows), windows) == Ok(Returned(path, windows))
  {
    var body := BodyOf(path, windows);
    BodyIsUtf8(path, windows);
    AfterScheme(Encoded(body));
    SlashDecodes(Encoded(body));
    DecodeUndoesEncode(body);
    assert ([SLASH] + body)[1..] == body;
  }

  lemma SlashDecodes(rest: Str)
    ensures Decoded([SLASH] + rest) == [SLASH] + Decoded(rest)
  {
    assert ([SLASH] + rest)[1..] == rest;
  }

  /** A path comes back from its URI unchanged exactly when it has no backslash and is absolute in the form
      the platform writes: a drive letter on Windows, or a leading slash with no drive letter behind it. */
  lemma PathRoundTripsIff(path: Str, windows: bool)
    requires Utf8.IsUtf8(path)
    ensures UriToPath(PathToUri(path, windows), windows) == Ok(path) <==>
      && BACKSLASH !in path
      && if windows && HasDriveLetter(path) then true
         else path != [] && path[0] == SLASH && !(windows && HasDriveLetter(path[1..]))
  {
    UriReturns(path, windows);
    if BACKSLASH in path {
      ReturnedIsSlashed(path, windows);
    } else {
      assert path != [] && path[0] == SLASH ==> [SLASH] + path[1..] == path;
      assert |[SLASH] + path| != |path|;
    }
  }

  /** What comes back has no backslash. */
  lemma ReturnedIsSlashed(path: Str, windows: bool)
    ensures BACKSLASH !in Returned(path, windows)
  {
    assert BACKSLASH !in Slashed(path);
  }

  /** A space is escaped and the leading slash is written once; on Windows backslashes turn and the drive stays. */
  lemma UriExamples()
    ensures PathToUri(Ascii("/a b"), false) == Ascii("file:///") + ([0x61] + ([0x25, 0x32, 0x30] + [0x62]))
    ensures PathToUri(Ascii("C:\\x"), true) == Ascii("file:///") + [0x43, 0x3A, 0x2F, 0x78]
  {
    var p, w := Ascii("/a b"), Ascii("C:\\x");
    assert p == [0x2F, 0x61, 0x20, 0x62] && w == [0x43, 0x3A, 0x5C, 0x78];
    assert BodyOf(p, false) == [0x61] + ([0x20] + [0x62]);
    SpaceEscaped();
    assert BodyOf(w, true) == [0x43, 0x3A, 0x2F, 0x78];
    PlainStays([0x43, 0x3A, 0x2F, 0x78]);
  }

  lemma SpaceEscaped()
    ensures Encoded([0x61] + ([0x20] + [0x62])) == [0x61] + ([0x25, 0x32, 0x30] + [0x62])
  {
    EncodedConcat([0x61], [0x20] + [0x62]);
    EncodedConcat([0x20], [0x62]);
    PlainStays([0x61]);
    PlainStays([0x62]);
    assert [0x20][1..] == [];
    assert Encoded([0x20]) == Escaped(0x20);
  }

  lemma {:induction false} PlainStays(s: Str)
    requires forall i | 0 <= i < |s| :: IsPlain(s[i])
    ensures Encoded(s) == s
  {
    if s != [] {
      PlainStays(s[1..]);
      assert [s[0]] + s[1..] == s;
    }
  }
}
