/** Text as Unicode scalars, and its UTF-8 bytes. */
module Utf8 {
  import opened Bytes

  /** A text by its scalars. Nothing below depends on Unicode ending at 0x10FFFF. */
  type Scalar = nat

  type Text = seq<Scalar>

  const NEWLINE: nat := 0x0A

  /** Bytes one scalar takes. */
  function Width(c: Scalar): (n: nat)
    ensures 1 <= n <= 4
  {
    if c < 0x80 then 1 else if c < 0x800 then 2 else if c < 0x1_0000 then 3 else 4
  }

  /** Bytes a text takes. */
  function Size(text: Text): (n: nat)
    ensures n >= |text|
  {
    if text == [] then 0 else Width(text[0]) + Size(text[1..])
  }

  /** The encoding of one scalar. */
  function Utf8Of(c: Scalar): (bs: seq<byte>)
    ensures |bs| == Width(c)
    ensures c == NEWLINE ==> bs == [NEWLINE]
    ensures c != NEWLINE ==> forall i | 0 <= i < |bs| :: bs[i] != NEWLINE
  {
    if c < 0x80 then [c]
    else if c < 0x800 then [0xC0 + c / 0x40, 0x80 + c % 0x40]
    else if c < 0x1_0000 then [0xE0 + c / 0x1000, 0x80 + c / 0x40 % 0x40, 0x80 + c % 0x40]
    else [0xF0 + c / 0x4_0000 % 8, 0x80 + c / 0x1000 % 0x40, 0x80 + c / 0x40 % 0x40, 0x80 + c % 0x40]
  }

  /** The scalar in the payload bits of one to four bytes. */
  function ScalarOf(bs: seq<nat>): nat
    requires 1 <= |bs| <= 4
  {
    if |bs| == 1 then bs[0]
    else if |bs| == 2 then Sextet(bs[0] % 0x20, bs[1])
    else if |bs| == 3 then Sextet(Sextet(bs[0] % 0x10, bs[1]), bs[2])
    else Sextet(Sextet(Sextet(bs[0] % 8, bs[1]), bs[2]), bs[3])
  }

  /** Six more bits from a continuation byte. */
  function Sextet(acc: nat, b: nat): nat {
    acc * 0x40 + b % 0x40
  }

  lemma SextetSplits(c: nat)
    ensures Sextet(c / 0x40, 0x80 + c % 0x40) == c
  {
  }

  lemma Quotients(c: nat)
    ensures c / 0x40 / 0x40 == c / 0x1000 && c / 0x1000 / 0x40 == c / 0x4_0000
  {
  }

  /** The payload bits give the scalar. */
  lemma Utf8Decodes(c: Scalar)
    requires c < 0x11_0000
    ensures ScalarOf(Utf8Of(c)) == c
  {
    LeadBits(c);
    SextetSplits(c);
    if c >= 0x1_0000 {
      DecodesFour(c);
    } else if c >= 0x800 {
      DecodesThree(c);
    }
  }

  lemma DecodesThree(c: Scalar)
    ensures Sextet(Sextet(c / 0x1000, 0x80 + c / 0x40 % 0x40), 0x80 + c % 0x40) == c
  {
    Quotients(c);
    SextetSplits(c / 0x40);
    SextetSplits(c);
  }

  lemma DecodesFour(c: Scalar)
    ensures Sextet(Sextet(Sextet(c / 0x4_0000, 0x80 + c / 0x1000 % 0x40), 0x80 + c / 0x40 % 0x40), 0x80 + c % 0x40) == c
  {
    Quotients(c);
    SextetSplits(c / 0x1000);
    DecodesThree(c);
  }

  lemma LeadBits(c: Scalar)
    requires c < 0x11_0000
    ensures c < 0x800 ==> (0xC0 + c / 0x40) % 0x20 == c / 0x40
    ensures c < 0x1_0000 ==> (0xE0 + c / 0x1000) % 0x10 == c / 0x1000
    ensures (0xF0 + c / 0x4_0000 % 8) % 8 == c / 0x4_0000
  {
  }

  /** The first byte tells the length, the others are continuation bytes, and no shorter sequence would do. */
  lemma Utf8IsWellFormed(c: Scalar)
    requires c < 0x11_0000
    ensures var bs := Utf8Of(c);
      && (|bs| == 1 <==> bs[0] < 0x80) && (|bs| == 2 <==> 0xC0 <= bs[0] < 0xE0)
      && (|bs| == 3 <==> 0xE0 <= bs[0] < 0xF0) && (|bs| == 4 <==> 0xF0 <= bs[0] < 0xF8)
      && (forall i | 1 <= i < |bs| :: 0x80 <= bs[i] < 0xC0)
      && (|bs| > 1 ==> c >= 0x80) && (|bs| > 2 ==> c >= 0x800) && (|bs| > 3 ==> c >= 0x1_0000)
  {
  }

  /** The bytes of a text. */
  function Encoded(text: Text): (bs: seq<byte>)
    ensures |bs| == Size(text)
  {
    if text == [] then [] else Utf8Of(text[0]) + Encoded(text[1..])
  }

  lemma {:induction false} EncodedConcat(s: Text, t: Text)
    ensures Encoded(s + t) == Encoded(s) + Encoded(t)
  {
    if s == [] {
      assert s + t == t;
    } else {
      assert (s + t)[0] == s[0] && (s + t)[1..] == s[1..] + t;
      EncodedConcat(s[1..], t);
      assert Utf8Of(s[0]) + (Encoded(s[1..]) + Encoded(t)) == Utf8Of(s[0]) + Encoded(s[1..]) + Encoded(t);
    }
  }

  lemma EncodedHalves(text: Text, s: Text, t: Text)
    requires text == s + t
    ensures Size(s) <= Size(text) && Encoded(text)[..Size(s)] == Encoded(s) && Encoded(text)[Size(s)..] == Encoded(t)
  {
    EncodedConcat(s, t);
  }

  lemma {:induction false} SizeConcat(s: Text, t: Text)
    ensures Size(s + t) == Size(s) + Size(t)
  {
    if s == [] {
      assert s + t == t;
    } else {
      assert (s + t)[0] == s[0] && (s + t)[1..] == s[1..] + t;
      SizeConcat(s[1..], t);
    }
  }

  lemma SizeOfPrefix(p: Text, text: Text)
    requires p <= text
    ensures Size(text) == Size(p) + Size(text[|p|..]) && Encoded(text)[..Size(p)] == Encoded(p)
    ensures p != text ==> Size(p) < Size(text)
  {
    SizeConcat(p, text[|p|..]);
    assert p + text[|p|..] == text;
    EncodedHalves(text, p, text[|p|..]);
  }

  /** The longest prefix of at most `o` bytes. */
  function PrefixAt(text: Text, o: nat): (p: Text)
    ensures p <= text && Size(p) <= o
  {
    if text == [] || o < Width(text[0]) then []
    else [text[0]] + PrefixAt(text[1..], o - Width(text[0]))
  }

  /** Offsets at which a text can be cut. */
  predicate Boundary(text: Text, o: nat) {
    Size(PrefixAt(text, o)) == o
  }

  lemma {:induction false} PrefixAtSize(text: Text, p: Text, o: nat)
    requires p <= text && Size(p) <= o && (|p| == |text| || o < Size(p) + Width(text[|p|]))
    ensures PrefixAt(text, o) == p
  {
    if p != [] {
      PrefixAtSize(text[1..], p[1..], o - Width(text[0]));
      assert [text[0]] + p[1..] == p;
    }
  }

  /** `&text[lo..hi]`. */
  function Slice(text: Text, lo: nat, hi: nat): Text
    requires lo <= hi
  {
    var p, q := PrefixAt(text, lo), PrefixAt(text, hi);
    if |p| <= |q| then q[|p|..] else []
  }

  lemma ShorterPrefix(text: Text, p: Text, q: Text)
    requires p <= text && q <= text
    ensures |p| <= |q| ==> p <= q
    ensures Size(p) <= Size(q) ==> |p| <= |q|
  {
    if |q| < |p| {
      assert q <= p;
      SizeOfPrefix(q, p);
    }
  }

  lemma SliceIs(text: Text, p: Text, q: Text)
    requires p <= q <= text
    ensures Boundary(text, Size(p)) && Boundary(text, Size(q)) && Size(p) <= Size(q)
    ensures Slice(text, Size(p), Size(q)) == q[|p|..]
  {
    SizeOfPrefix(p, q);
    assert p <= text;
    PrefixAtSize(text, p, Size(p));
    PrefixAtSize(text, q, Size(q));
  }

  // ----- Well-formed bytes -----

  predicate IsScalar(c: nat) {
    c < 0x11_0000 && !(0xD800 <= c < 0xE000)
  }

  ghost predicate AllScalars(text: Text) {
    forall i | 0 <= i < |text| :: IsScalar(text[i])
  }

  /** What `from_utf8` accepts. */
  ghost predicate IsUtf8(bs: seq<byte>) {
    exists text: Text :: AllScalars(text) && Encoded(text) == bs
  }

  /** A byte below 0x80 stands for itself, alone. */
  lemma AsciiStandsAlone(c: Scalar, i: nat)
    requires i < |Utf8Of(c)| && Utf8Of(c)[i] < 0x80
    ensures Utf8Of(c) == [c]
  {
  }
}
