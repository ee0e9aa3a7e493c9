/** UTF-16 code units (section 3.9 of the Unicode Standard), the default unit of LSP columns. */
module Utf16 {
  import opened Bytes
  import opened Utf8
  import opened Positions

  /** One unit, or a surrogate pair. */
  function Utf16Of(c: Scalar): (us: seq<nat>)
    requires IsScalar(c)
  {
    if c < 0x1_0000 then [c] else [0xD800 + (c - 0x1_0000) / 0x400, 0xDC00 + (c - 0x1_0000) % 0x400]
  }

  function Encoding16(text: Text): seq<nat>
    requires AllScalars(text)
  {
    if text == [] then [] else Utf16Of(text[0]) + Encoding16(text[1..])
  }

  /** A reader of code units: a high surrogate must be followed by a low one, and only there may one stand. */
  function Decoding16(us: seq<nat>): Option<Text>
    decreases |us|
  {
    if us == [] then Some([])
    else if 0xD800 <= us[0] < 0xDC00 then
      if |us| < 2 || !(0xDC00 <= us[1] < 0xE000) then None
      else
        match Decoding16(us[2..])
        case None => None
        case Some(rest) => Some([0x1_0000 + (us[0] - 0xD800) * 0x400 + (us[1] - 0xDC00)] + rest)
    else if 0xDC00 <= us[0] < 0xE000 then None
    else
      match Decoding16(us[1..])
      case None => None
      case Some(rest) => Some([us[0]] + rest)
  }

  /** Every unit fits sixteen bits, and the units of a text give it back. */
  lemma {:induction false} Utf16RoundTrips(text: Text)
    requires AllScalars(text)
    ensures forall i | 0 <= i < |Encoding16(text)| :: Encoding16(text)[i] < 0x1_0000
    ensures Decoding16(Encoding16(text)) == Some(text)
  {
    if text != [] {
      Utf16RoundTrips(text[1..]);
      var us, first, rest := Encoding16(text), Utf16Of(text[0]), Encoding16(text[1..]);
      assert us[|first|..] == rest;
      assert [text[0]] + text[1..] == text;
    }
  }

  /** A UTF-16 column counts the code units before it. */
  lemma {:induction false} UnitsAreUtf16(s: Text)
    requires AllScalars(s)
    ensures Units(Utf16Units, s) == |Encoding16(s)|
  {
    if s != [] {
      UnitsAreUtf16(s[1..]);
      UnitsConcat(Utf16Units, [s[0]], s[1..]);
      assert [s[0]] + s[1..] == s;
      assert [s[0]][..0] == [];
    }
  }

  /** A UTF-8 column counts bytes, a UTF-32 column scalars. */
  lemma UnitsAreBytesOrScalars(s: Text)
    ensures Units(Utf8Units, s) == |Encoded(s)|
    ensures Units(Utf32Units, s) == |s|
  {
    UnitsFit(Utf8Units, s);
    UnitsFit(Utf32Units, s);
  }

  /** After U+1F600 the column is 4, 2 or 1. */
  lemma AstralColumn()
    ensures Units(Utf8Units, [0x1_F600]) == 4 && Units(Utf16Units, [0x1_F600]) == 2
    ensures Units(Utf32Units, [0x1_F600]) == 1
  {
    var s: Text := [0x1_F600];
    assert s[..0] == [];
    forall enc ensures Units(enc, s) == UnitsOf(enc, 0x1_F600) {
      assert Units(enc, []) == 0;
    }
  }
}
