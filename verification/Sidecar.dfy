/** The bodies sidecar (`edda-driver/src/workspace_exec.rs`): a map of paths to texts as length-prefixed pairs. */
module Sidecar {
  import opened Bytes
  import opened Wire
  import Utf8

  datatype Body = Body(path: Str, text: Str)

  function BodyBytes(b: Body): seq<byte> {
    LengthPrefixed(b.path) + LengthPrefixed(b.text)
  }

  function SidecarBytes(bodies: seq<Body>): seq<byte> {
    if bodies == [] then [] else BodyBytes(bodies[0]) + SidecarBytes(bodies[1..])
  }

  /** The map read back: a later entry for the same path wins. */
  function MapOf(bodies: seq<Body>): map<Str, Str> {
    if bodies == [] then map[]
    else MapOf(bodies[..|bodies| - 1])[bodies[|bodies| - 1].path := bodies[|bodies| - 1].text]
  }

  /** The entries of a map, each path once. */
  ghost predicate Lists(bodies: seq<Body>, m: map<Str, Str>) {
    && (forall i | 0 <= i < |bodies| :: bodies[i].path in m && m[bodies[i].path] == bodies[i].text)
    && (forall p | p in m :: exists i :: 0 <= i < |bodies| && bodies[i].path == p)
    && (forall i, j | 0 <= i < j < |bodies| :: bodies[i].path != bodies[j].path)
  }

  /** Strings, as every `String` and every path shown as one is, of a length that fits its field. */
  ghost predicate Fits(bodies: seq<Body>) {
    forall i | 0 <= i < |bodies| :: FieldFits(bodies[i].path) && FieldFits(bodies[i].text)
  }

  ghost predicate FieldFits(s: Str) {
    |s| < U32_LIMIT && Utf8.IsUtf8(s)
  }

  /** `from_utf8_lossy`: it replaces what is not UTF-8, in whatever way, and keeps what is. */
  type Lossy = seq<byte> -> Str

  ghost predicate KeepsUtf8(lossy: Lossy) {
    forall s | Utf8.IsUtf8(s) :: lossy(s) == s
  }

  /** Entries up to the first that does not read back whole. */
  function ReadBodies(bs: seq<byte>, lossy: Lossy): seq<Body>
    decreases |bs|
  {
    match ReadLengthPrefixed(bs)
    case None => []
    case Some((path, afterPath)) =>
      match ReadLengthPrefixed(afterPath)
      case None => []
      case Some((text, rest)) =>
        ReadLengthPrefixedBound(bs);
        ReadLengthPrefixedBound(afterPath);
        [Body(lossy(path), lossy(text))] + ReadBodies(rest, lossy)
  }

  /** `encode_bodies`, over the map's entries in key order. */
  method EncodeBodies(bodies: seq<Body>) returns (out: seq<byte>)
    ensures out == SidecarBytes(bodies)
  {
    out := [];
    assert bodies[0..] == bodies;
    for i := 0 to |bodies|
      invariant out + SidecarBytes(bodies[i..]) == SidecarBytes(bodies)
    {
      var b := bodies[i];
      assert bodies[i..][1..] == bodies[i + 1..];
      Assoc(out, BodyBytes(b), SidecarBytes(bodies[i + 1..]));
      Pieces(out, U32Le(|b.path|), b.path, U32Le(|b.text|), b.text);
      out := out + U32Le(|b.path|);
      out := out + b.path;
      out := out + U32Le(|b.text|);
      out := out + b.text;
    }
  }

  lemma Pieces(out: seq<byte>, a: seq<byte>, b: seq<byte>, c: seq<byte>, d: seq<byte>)
    ensures out + a + b + c + d == out + (a + b + (c + d))
  {
    Assoc(out + a + b, c, d);
    Assoc(out, a, b);
    Assoc(out, a + b, c + d);
  }

  /** `read_member_bodies` on the file's bytes. */
  method ReadMemberBodies(bs: seq<byte>, lossy: Lossy) returns (out: map<Str, Str>)
    ensures out == MapOf(ReadBodies(bs, lossy))
  {
    out := map[];
    var cursor := bs;
    ghost var done: seq<Body> := [];
    assert [] + ReadBodies(bs, lossy) == ReadBodies(bs, lossy);
    while true
      invariant done + ReadBodies(cursor, lossy) == ReadBodies(bs, lossy) && out == MapOf(done)
      decreases |cursor|
    {
      var first := ReadLengthPrefixed(cursor);
      assert done + [] == done;
      if first.None? {
        return;
      }
      var second := ReadLengthPrefixed(first.value.1);
      if second.None? {
        return;
      }
      ReadLengthPrefixedBound(cursor);
      ReadLengthPrefixedBound(first.value.1);
      var b := Body(lossy(first.value.0), lossy(second.value.0));
      BodyMoves(done, b, ReadBodies(second.value.1, lossy));
      done := done + [b];
      out := out[b.path := b.text];
      cursor := second.value.1;
    }
  }

  lemma BodyMoves(done: seq<Body>, b: Body, rest: seq<Body>)
    ensures done + ([b] + rest) == done + [b] + rest
    ensures MapOf(done + [b]) == MapOf(done)[b.path := b.text]
  {
    assert (done + [b])[..|done|] == done;
  }

  // ----- Reading a kept prefix -----

  lemma Cut(a: seq<byte>, b: seq<byte>, n: nat)
    requires n <= |a| + |b|
    ensures (a + b)[..n] == if n < |a| then a[..n] else a + b[..n - |a|]
  {
  }

  /** A field cut short is not read. */
  lemma CutFieldIsRefused(bs: seq<byte>, n: nat)
    requires |bs| < U32_LIMIT && n < |LengthPrefixed(bs)|
    ensures ReadLengthPrefixed(LengthPrefixed(bs)[..n]) == None
  {
    if n >= 4 {
      var tail := bs[..n - 4];
      assert LengthPrefixed(bs)[..n] == U32Le(|bs|) + tail;
      ReadU32Back(|bs|, tail);
    }
  }

  /** An entry cut short is not read, wherever the cut falls. */
  lemma CutBodyIsRefused(b: Body, n: nat, lossy: Lossy)
    requires FieldFits(b.path) && FieldFits(b.text) && n < |BodyBytes(b)|
    ensures ReadBodies(BodyBytes(b)[..n], lossy) == []
  {
    var path, text := LengthPrefixed(b.path), LengthPrefixed(b.text);
    if n < |path| {
      assert BodyBytes(b)[..n] == path[..n];
      CutFieldIsRefused(b.path, n);
    } else {
      assert BodyBytes(b)[..n] == path + text[..n - |path|];
      ReadLengthPrefixedBack(b.path, text[..n - |path|]);
      CutFieldIsRefused(b.text, n - |path|);
    }
  }

  lemma BodyReadsBack(b: Body, rest: seq<byte>, lossy: Lossy)
    requires FieldFits(b.path) && FieldFits(b.text) && KeepsUtf8(lossy)
    ensures ReadBodies(BodyBytes(b) + rest, lossy) == [b] + ReadBodies(rest, lossy)
  {
    var path, text := LengthPrefixed(b.path), LengthPrefixed(b.text);
    Assoc(path, text, rest);
    ReadLengthPrefixedBack(b.path, text + rest);
    ReadLengthPrefixedBack(b.text, rest);
  }

  /** How many entries lie wholly inside the first `n` bytes. */
  function Whole(bodies: seq<Body>, n: nat): (k: nat)
    ensures k <= |bodies|
  {
    if bodies == [] || n < |BodyBytes(bodies[0])| then 0
    else 1 + Whole(bodies[1..], n - |BodyBytes(bodies[0])|)
  }

  /** `Whole` counts exactly the entries whose encodings end at or before `n`. */
  lemma {:induction false} WholeCounts(bodies: seq<Body>, n: nat, k: nat)
    requires k <= |bodies|
    ensures k <= Whole(bodies, n) <==> |SidecarBytes(bodies[..k])| <= n
  {
    if k == 0 {
      assert bodies[..0] == [];
    } else {
      assert bodies[..k][0] == bodies[0] && bodies[..k][1..] == bodies[1..][..k - 1];
      if n >= |BodyBytes(bodies[0])| {
        WholeCounts(bodies[1..], n - |BodyBytes(bodies[0])|, k - 1);
      }
    }
  }

  /** Reading any truncation yields exactly the entries that lie wholly inside it. */
  lemma {:induction false} TruncationKeepsWholeEntries(bodies: seq<Body>, n: nat, lossy: Lossy)
    requires Fits(bodies) && KeepsUtf8(lossy) && n <= |SidecarBytes(bodies)|
    ensures ReadBodies(SidecarBytes(bodies)[..n], lossy) == bodies[..Whole(bodies, n)]
    decreases |bodies|
  {
    if bodies != [] {
      var first, rest := BodyBytes(bodies[0]), SidecarBytes(bodies[1..]);
      Cut(first, rest, n);
      if n < |first| {
        CutBodyIsRefused(bodies[0], n, lossy);
      } else {
        TruncationKeepsWholeEntries(bodies[1..], n - |first|, lossy);
        BodyReadsBack(bodies[0], rest[..n - |first|], lossy);
        FirstAndMore(bodies, Whole(bodies[1..], n - |first|));
      }
    }
  }

  lemma FirstAndMore(bodies: seq<Body>, k: nat)
    requires bodies != [] && k <= |bodies| - 1
    ensures [bodies[0]] + bodies[1..][..k] == bodies[..1 + k]
  {
  }

  lemma {:induction false} MapOfHas(bodies: seq<Body>, i: nat)
    requires i < |bodies| && forall j | i < j < |bodies| :: bodies[j].path != bodies[i].path
    ensures bodies[i].path in MapOf(bodies) && MapOf(bodies)[bodies[i].path] == bodies[i].text
    decreases |bodies|
  {
    var n := |bodies| - 1;
    if i < n {
      MapOfHas(bodies[..n], i);
    }
  }

  lemma {:induction false} MapOfHasOnly(bodies: seq<Body>, p: Str)
    requires p in MapOf(bodies)
    ensures exists i :: 0 <= i < |bodies| && bodies[i].path == p
    decreases |bodies|
  {
    var n := |bodies| - 1;
    if bodies[n].path != p {
      MapOfHasOnly(bodies[..n], p);
      var i :| 0 <= i < n && bodies[..n][i].path == p;
      assert bodies[i].path == p;
    }
  }

  lemma MapOfListed(bodies: seq<Body>, m: map<Str, Str>)
    requires Lists(bodies, m)
    ensures MapOf(bodies) == m
  {
    forall p | p in m ensures p in MapOf(bodies) && MapOf(bodies)[p] == m[p] {
      var i :| 0 <= i < |bodies| && bodies[i].path == p;
      MapOfHas(bodies, i);
    }
    forall p | p in MapOf(bodies) ensures p in m {
      MapOfHasOnly(bodies, p);
    }
  }

  lemma WholeReadsBack(bodies: seq<Body>, lossy: Lossy)
    requires Fits(bodies) && KeepsUtf8(lossy)
    ensures ReadBodies(SidecarBytes(bodies), lossy) == bodies
  {
    var all := SidecarBytes(bodies);
    assert all[..|all|] == all && bodies[..|bodies|] == bodies;
    WholeCounts(bodies, |all|, |bodies|);
    TruncationKeepsWholeEntries(bodies, |all|, lossy);
  }

  /** The sidecar gives back the whole map. */
  lemma SidecarRoundTrips(bodies: seq<Body>, m: map<Str, Str>, lossy: Lossy)
    requires Lists(bodies, m) && Fits(bodies) && KeepsUtf8(lossy)
    ensures MapOf(ReadBodies(SidecarBytes(bodies), lossy)) == m
  {
    WholeReadsBack(bodies, lossy);
    MapOfListed(bodies, m);
  }

  /** One entry, byte by byte. */
  lemma SidecarExample()
    ensures SidecarBytes([Body([0x61], [0x62, 0x63])]) == [1, 0, 0, 0, 0x61, 2, 0, 0, 0, 0x62, 0x63]
  {
    var b := Body([0x61], [0x62, 0x63]);
    assert [b][1..] == [];
    assert LeBytes(1, 4) == [1, 0, 0, 0] && LeBytes(2, 4) == [2, 0, 0, 0];
  }
}
