/** Hash and artifact-name text (`edda-cache/src/hash.rs`, `edda-cache/src/name.rs`). */
module Names {
  import opened Bytes
  import opened Utf8
  import Gc

  // ----- Hexadecimal -----

  function HexDigit(n: nat): byte
    requires n < 16
  {
    if n < 10 then 0x30 + n else 0x61 + (n - 10)
  }

  lemma HexDigitIs(n: nat)
    requires n < 16
    ensures HexDigit(n) == "0123456789abcdef"[n] as int
  {
  }

  function Lower(c: nat): nat {
    if 0x41 <= c <= 0x5A then c + 0x20 else c
  }

  /** Two lowercase digits for each byte, the high one first. */
  lemma HexSpelled(bs: seq<byte>, i: nat)
    requires i < |bs|
    ensures Hex(bs)[2 * i] == "0123456789abcdef"[bs[i] / 16] as int
    ensures Hex(bs)[2 * i + 1] == "0123456789abcdef"[bs[i] % 16] as int
  {
    HexAt(bs, i);
    HexDigitIs(bs[i] / 16);
    HexDigitIs(bs[i] % 16);
  }

  lemma DigitOfValue(c: nat)
    ensures HexValue(c).Some? ==> HexDigit(HexValue(c).value) == Lower(c)
  {
  }

  function Hex(bs: seq<byte>): (r: Str)
    ensures |r| == 2 * |bs|
  {
    if bs == [] then [] else [HexDigit(bs[0] / 16), HexDigit(bs[0] % 16)] + Hex(bs[1..])
  }

  lemma {:induction false} HexAt(bs: seq<byte>, i: nat)
    requires i < |bs|
    ensures Hex(bs)[2 * i] == HexDigit(bs[i] / 16) && Hex(bs)[2 * i + 1] == HexDigit(bs[i] % 16)
  {
    if i > 0 {
      HexAt(bs[1..], i - 1);
    }
  }

  /** `write_hex`, filling the caller's buffer. */
  method WriteHex(bs: seq<byte>, out: array<byte>)
    requires out.Length == 2 * |bs|
    modifies out
    ensures out[..] == Hex(bs)
  {
    for i := 0 to |bs|
      invariant out[..2 * i] == Hex(bs)[..2 * i]
    {
      HexAt(bs, i);
      out[2 * i] := HexDigit(bs[i] / 16);
      out[2 * i + 1] := HexDigit(bs[i] % 16);
      assert out[..2 * (i + 1)] == out[..2 * i] + [out[2 * i], out[2 * i + 1]];
      assert Hex(bs)[..2 * (i + 1)] == Hex(bs)[..2 * i] + [Hex(bs)[2 * i], Hex(bs)[2 * i + 1]];
    }
  }

  ghost predicate AllHex(s: seq<nat>) {
    forall i | 0 <= i < |s| :: HexValue(s[i]).Some?
  }

  /** `parse_hex` of a hash: `n` bytes from `2n` digits. */
  method ParseHex(s: Str, n: nat) returns (r: Option<seq<byte>>)
    ensures r.Some? <==> |s| == 2 * n && AllHex(s)
    ensures r.Some? ==> |r.value| == n && Hex(r.value) == Lowered(s)
  {
    if |s| != 2 * n {
      return None;
    }
    var out: seq<byte> := [];
    for i := 0 to n
      invariant |out| == i && forall j | 0 <= j < 2 * i :: HexValue(s[j]).Some?
      invariant Hex(out) == Lowered(s[..2 * i])
    {
      var hi, lo := HexValue(s[2 * i]), HexValue(s[2 * i + 1]);
      if hi.None? || lo.None? {
        return None;
      }
      var b: byte := hi.value * 16 + lo.value;
      PairParsed(s, i, out, b);
      out := out + [b];
    }
    assert s[..2 * n] == s;
    return Some(out);
  }

  lemma PairParsed(s: Str, i: nat, out: seq<byte>, b: byte)
    requires 2 * i + 2 <= |s| && HexValue(s[2 * i]) == Some(b / 16) && HexValue(s[2 * i + 1]) == Some(b % 16)
    requires Hex(out) == Lowered(s[..2 * i])
    ensures Hex(out + [b]) == Lowered(s[..2 * (i + 1)])
  {
    HexSnoc(out, b);
    DigitOfValue(s[2 * i]);
    DigitOfValue(s[2 * i + 1]);
    assert s[..2 * (i + 1)] == s[..2 * i] + [s[2 * i], s[2 * i + 1]];
  }

  function Lowered(s: seq<nat>): (r: seq<nat>)
    ensures |r| == |s|
  {
    seq(|s|, i requires 0 <= i < |s| => Lower(s[i]))
  }

  lemma {:induction false} HexSnoc(bs: seq<byte>, b: byte)
    ensures Hex(bs + [b]) == Hex(bs) + [HexDigit(b / 16), HexDigit(b % 16)]
  {
    if bs == [] {
      assert [b][1..] == [];
    } else {
      assert (bs + [b])[1..] == bs[1..] + [b];
      HexSnoc(bs[1..], b);
    }
  }

  lemma {:induction false} HexIsHex(bs: seq<byte>)
    ensures AllHex(Hex(bs)) && Lowered(Hex(bs)) == Hex(bs)
    ensures forall i | 0 <= i < |Hex(bs)| :: Gc.IsHexLower(Hex(bs)[i])
  {
    if bs != [] {
      HexIsHex(bs[1..]);
      var h, t := Hex(bs), Hex(bs[1..]);
      assert forall i | 2 <= i < |h| :: h[i] == t[i - 2];
    }
  }

  lemma {:induction false} HexIsInjective(a: seq<byte>, b: seq<byte>)
    requires Hex(a) == Hex(b)
    ensures a == b
  {
    if a != [] {
      assert Hex(a)[0] == Hex(b)[0] && Hex(a)[1] == Hex(b)[1];
      assert Hex(a)[2..] == Hex(a[1..]) && Hex(b)[2..] == Hex(b[1..]);
      HexIsInjective(a[1..], b[1..]);
      assert a[0] == b[0];
      assert a == [a[0]] + a[1..] && b == [b[0]] + b[1..];
    }
  }

  /** Whatever `ParseHex` returns for a displayed hash is that hash. */
  lemma HashRoundTrips(h: seq<byte>, parsed: Option<seq<byte>>)
    requires parsed.Some? <==> AllHex(Hex(h))
    requires parsed.Some? ==> Hex(parsed.value) == Lowered(Hex(h))
    ensures parsed == Some(h)
  {
    HexIsHex(h);
    HexIsInjective(parsed.value, h);
  }

  /** The shard directory of every hash is one the collector recognises. */
  lemma ShardIsRecognised(h: seq<byte>)
    requires |h| == 32
    ensures Gc.IsShardName(Hex(h[..2]))
  {
    HexIsHex(h[..2]);
  }

  // ----- Artifact names -----

  const UNDERSCORE: nat := 0x5F

  datatype ArtifactName = ArtifactName(short: Text, prefix: seq<nat>)

  datatype ParseError = MissingSeparator | BadPrefix | BadShort

  /** `char::is_whitespace`. */
  predicate IsWhitespace(c: nat) {
    || 0x09 <= c <= 0x0D || c == 0x20 || c == 0x85 || c == 0xA0 || c == 0x1680 || 0x2000 <= c <= 0x200A
    || c == 0x2028 || c == 0x2029 || c == 0x202F || c == 0x205F || c == 0x3000
  }

  predicate IsValidShort(s: Text) {
    s != [] && forall i | 0 <= i < |s| :: s[i] != 0x2F && s[i] != 0x5C && s[i] != 0 && !IsWhitespace(s[i])
  }

  /** What `new` and `parse` let through: twelve lowercase digits after a valid short name. */
  ghost predicate Valid(n: ArtifactName) {
    IsValidShort(n.short) && |n.prefix| == 12 && AllHex(n.prefix) && Lowered(n.prefix) == n.prefix
  }

  function Display(n: ArtifactName): Text {
    n.short + [UNDERSCORE, UNDERSCORE] + n.prefix
  }

  /** `rfind("__")`. */
  function LastSeparator(s: Text): (r: Option<nat>)
    ensures r.Some? ==> r.value + 2 <= |s| && s[r.value] == s[r.value + 1] == UNDERSCORE
  {
    if |s| < 2 then None
    else if s[|s| - 2] == s[|s| - 1] == UNDERSCORE then Some(|s| - 2)
    else LastSeparator(s[..|s| - 1])
  }

  /** `ArtifactName::parse`. */
  function Parse(s: Text): Result<ArtifactName, ParseError> {
    match LastSeparator(s)
    case None => Err(MissingSeparator)
    case Some(k) =>
      var prefix := s[k + 2..];
      if |prefix| != 12 || !forall i | 0 <= i < |prefix| :: HexValue(prefix[i]).Some? then Err(BadPrefix)
      else if !IsValidShort(s[..k]) then Err(BadShort)
      else Ok(ArtifactName(s[..k], Lowered(prefix)))
  }

  /** The separator found is the one written, even after a short name full of underscores. */
  lemma {:induction false} SeparatorFound(short: Text, t: Text)
    requires UNDERSCORE !in t
    ensures LastSeparator(short + [UNDERSCORE, UNDERSCORE] + t) == Some(|short|)
    decreases |t|
  {
    var s := short + [UNDERSCORE, UNDERSCORE] + t;
    if t != [] {
      var n := |t| - 1;
      assert t[n] in t && s[|s| - 1] == t[n];
      assert s[..|s| - 1] == short + [UNDERSCORE, UNDERSCORE] + t[..n];
      SeparatorFound(short, t[..n]);
    }
  }

  /** Every valid artifact name survives display and parse. */
  lemma NameRoundTrips(n: ArtifactName)
    requires Valid(n)
    ensures Parse(Display(n)) == Ok(n)
  {
    var s := Display(n);
    assert UNDERSCORE !in n.prefix;
    SeparatorFound(n.short, n.prefix);
    assert s[..|n.short|] == n.short && s[|n.short| + 2..] == n.prefix;
  }

  ghost predicate IsHexDigit(c: nat) {
    exists n | 0 <= n < 16 :: c == "0123456789abcdef"[n] as int || c == "0123456789ABCDEF"[n] as int
  }

  /** The names that parse: a short name, two underscores and twelve hexadecimal digits of either case. */
  lemma ParsesIff(s: Text)
    ensures Parse(s).Ok? <==>
      && |s| > 14
      && s[|s| - 14] == '_' as int && s[|s| - 13] == '_' as int
      && (forall i | |s| - 12 <= i < |s| :: IsHexDigit(s[i]))
      && (forall i | 0 <= i < |s| - 14 ::
            s[i] != '/' as int && s[i] != '\\' as int && s[i] != 0 && !IsWhitespace(s[i]))
  {
    ParsesAtFourteen(s);
    if |s| > 14 {
      HexSuffix(s);
      var short := s[..|s| - 14];
      assert forall i | 0 <= i < |short| :: short[i] == s[i];
    }
  }

  lemma ParsesAtFourteen(s: Text)
    ensures Parse(s).Ok? <==>
      |s| > 14 && s[|s| - 14] == s[|s| - 13] == UNDERSCORE && AllHex(s[|s| - 12..]) && IsValidShort(s[..|s| - 14])
  {
    if |s| > 14 && s[|s| - 14] == s[|s| - 13] == UNDERSCORE && AllHex(s[|s| - 12..]) {
      var k := |s| - 14;
      assert s[..k] + [UNDERSCORE, UNDERSCORE] + s[k + 2..] == s;
      SeparatorFound(s[..k], s[k + 2..]);
    }
  }

  lemma HexSuffix(s: Text)
    requires |s| > 14
    ensures AllHex(s[|s| - 12..]) <==> forall i | |s| - 12 <= i < |s| :: IsHexDigit(s[i])
  {
    var t := s[|s| - 12..];
    forall c: nat ensures HexValue(c).Some? <==> IsHexDigit(c) { HexValueIff(c); }
    assert forall i | |s| - 12 <= i < |s| :: s[i] == t[i - (|s| - 12)];
    assert forall j | 0 <= j < 12 :: t[j] == s[j + (|s| - 12)];
  }

  lemma HexValueIff(c: nat)
    ensures HexValue(c).Some? <==> IsHexDigit(c)
    ensures HexValue(c).Some? ==>
              c == "0123456789abcdef"[HexValue(c).value] as int || c == "0123456789ABCDEF"[HexValue(c).value] as int
  {
  }

  /** What parses is a valid name, and displays as the input with its hash prefix in lower case. */
  lemma ParsedIsDisplayed(s: Text)
    requires Parse(s).Ok?
    ensures var n := Parse(s).value;
      && Valid(n)
      && |s| >= 12 && Display(n) == s[..|s| - 12] + Lowered(s[|s| - 12..])
  {
    var k := LastSeparator(s).value;
    var n := Parse(s).value;
    var prefix := s[k + 2..];
    assert forall i | 0 <= i < |prefix| ::
        HexValue(Lower(prefix[i])).Some? && Lower(Lower(prefix[i])) == Lower(prefix[i]);
    assert s[..k + 2] == s[..k] + [UNDERSCORE, UNDERSCORE];
    assert Display(n) == s[..k + 2] + Lowered(s[k + 2..]);
  }
}
