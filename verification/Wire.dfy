/** Little-endian numbers and length-prefixed byte strings, as written by
    `edda-codegen/src/encode.rs` and `edda-driver/src/workspace_exec.rs`. */
module Wire {
  import opened Bytes
  import Rounding

  const U32_LIMIT: nat := 0x1_0000_0000

  /** `n as u32`: truncation to the low 32 bits. */
  function TruncateU32(n: nat): nat {
    n % U32_LIMIT
  }

  function Pow256(w: nat): nat {
    if w == 0 then 1 else 256 * Pow256(w - 1)
  }

  /** The `w` low bytes of `v`, least significant first: `to_le_bytes`. */
  function LeBytes(v: nat, w: nat): (r: seq<byte>)
    ensures |r| == w
  {
    if w == 0 then [] else [v % 256] + LeBytes(v / 256, w - 1)
  }

  /** `from_le_bytes`. */
  function FromLe(bs: seq<byte>): (r: nat)
    ensures r < Pow256(|bs|)
  {
    if bs == [] then 0 else bs[0] + 256 * FromLe(bs[1..])
  }

  lemma {:induction false} FromLeOfLe(v: nat, w: nat)
    requires v < Pow256(w)
    ensures FromLe(LeBytes(v, w)) == v
  {
    if w > 0 {
      FromLeOfLe(v / 256, w - 1);
      assert LeBytes(v, w)[1..] == LeBytes(v / 256, w - 1);
    }
  }

  /** Byte `i` has the weight `256^i`. */
  lemma {:induction false} LeByteAt(v: nat, w: nat, i: nat)
    requires i < w
    ensures Pow256(i) > 0 && LeBytes(v, w)[i] == v / Pow256(i) % 256
  {
    if i > 0 {
      LeByteAt(v / 256, w - 1, i - 1);
      DivideTwice(v, Pow256(i - 1));
    }
  }

  lemma DivideTwice(v: nat, p: nat)
    requires p > 0
    ensures v / 256 / p == v / (256 * p)
  {
    var q, r := v / 256, v % 256;
    var q', r' := q / p, q % p;
    assert v == q' * (256 * p) + (256 * r' + r) by {
      assert q == p * q' + r';
    }
    Rounding.Remainder(v, q', 256 * p, 256 * r' + r);
  }

  lemma Widths()
    ensures Pow256(1) == 0x100 && Pow256(2) == 0x1_0000 && Pow256(4) == U32_LIMIT
    ensures Pow256(8) == 0x1_0000_0000_0000_0000
  {
    assert Pow256(3) == 0x100_0000;
    assert Pow256(5) == 0x100 * 0x1_0000_0000;
    assert Pow256(6) == 0x1_0000 * 0x1_0000_0000;
    assert Pow256(7) == 0x100_0000 * 0x1_0000_0000;
  }

  function U32Le(n: nat): seq<byte> {
    LeBytes(TruncateU32(n), 4)
  }

  function LengthPrefixed(bs: seq<byte>): seq<byte> {
    U32Le(|bs|) + bs
  }

  lemma U32At(n: nat, i: nat)
    requires i < 4 && n < 0x1_0000_0000
    ensures U32Le(n)[i] == if i == 0 then n % 256 else if i == 1 then n / 0x100 % 256
                           else if i == 2 then n / 0x1_0000 % 256 else n / 0x100_0000
  {
    assert TruncateU32(n) == n;
    LeByteAt(n, 4, i);
    Powers();
  }

  lemma Powers()
    ensures Pow256(0) == 1 && Pow256(1) == 0x100 && Pow256(2) == 0x1_0000 && Pow256(3) == 0x100_0000
  {
    assert Pow256(2) == 256 * Pow256(1);
  }

  /** A length-prefixed string: four bytes of its length, the least significant first, then its bytes. */
  lemma LengthPrefixedAt(bs: seq<byte>, i: nat)
    requires i < 4 + |bs| && |bs| < 0x1_0000_0000
    ensures |LengthPrefixed(bs)| == 4 + |bs|
    ensures LengthPrefixed(bs)[i]
         == if i == 0 then |bs| % 256 else if i == 1 then |bs| / 0x100 % 256
            else if i == 2 then |bs| / 0x1_0000 % 256 else if i == 3 then |bs| / 0x100_0000
            else bs[i - 4]
  {
    if i < 4 {
      U32At(|bs|, i);
    }
  }

  // ----- Readers: the value read and the bytes after it -----

  type Read<+T> = Option<(T, seq<byte>)>

  function Take(n: nat, bs: seq<byte>): Read<seq<byte>> {
    if n <= |bs| then Some((bs[..n], bs[n..])) else None
  }

  function ReadLe(w: nat, bs: seq<byte>): Read<nat> {
    match Take(w, bs)
    case None => None
    case Some((head, rest)) => Some((FromLe(head), rest))
  }

  function ReadLengthPrefixed(bs: seq<byte>): Read<seq<byte>> {
    match ReadLe(4, bs)
    case None => None
    case Some((n, rest)) => Take(n, rest)
  }

  lemma TakeBack(head: seq<byte>, rest: seq<byte>)
    ensures Take(|head|, head + rest) == Some((head, rest))
  {
    assert (head + rest)[..|head|] == head && (head + rest)[|head|..] == rest;
  }

  lemma ReadLeBack(v: nat, w: nat, rest: seq<byte>)
    requires v < Pow256(w)
    ensures ReadLe(w, LeBytes(v, w) + rest) == Some((v, rest))
  {
    TakeBack(LeBytes(v, w), rest);
    FromLeOfLe(v, w);
  }

  lemma ReadU32Back(n: nat, rest: seq<byte>)
    requires n < U32_LIMIT
    ensures ReadLe(4, U32Le(n) + rest) == Some((n, rest))
  {
    Widths();
    ReadLeBack(n, 4, rest);
  }

  lemma ReadLengthPrefixedBack(bs: seq<byte>, rest: seq<byte>)
    requires |bs| < U32_LIMIT
    ensures ReadLengthPrefixed(LengthPrefixed(bs) + rest) == Some((bs, rest))
  {
    assert LengthPrefixed(bs) + rest == U32Le(|bs|) + (bs + rest);
    ReadU32Back(|bs|, bs + rest);
    TakeBack(bs, rest);
  }

  lemma ReadU32Bound(bs: seq<byte>)
    ensures ReadLe(4, bs).Some? ==> ReadLe(4, bs).value.0 < U32_LIMIT
  {
    Widths();
  }

  lemma ReadLengthPrefixedBound(bs: seq<byte>)
    ensures ReadLengthPrefixed(bs).Some? ==> |ReadLengthPrefixed(bs).value.0| < U32_LIMIT
    ensures ReadLengthPrefixed(bs).Some? ==> |ReadLengthPrefixed(bs).value.1| < |bs|
  {
    ReadU32Bound(bs);
  }

  lemma Assoc(a: seq<byte>, b: seq<byte>, c: seq<byte>)
    ensures a + b + c == a + (b + c)
  {
  }

  // ----- The mutable output buffer -----

  class Buffer {
    var bytes: seq<byte>

    constructor ()
      ensures bytes == []
    {
      bytes := [];
    }

    method Push(b: byte)
      modifies this
      ensures bytes == old(bytes) + [b]
    {
      bytes := bytes + [b];
    }

    /** `extend_from_slice`. */
    method Extend(bs: seq<byte>)
      modifies this
      ensures bytes == old(bytes) + bs
    {
      bytes := bytes + bs;
    }

    method WriteU32Le(n: nat)
      modifies this
      ensures bytes == old(bytes) + U32Le(n)
    {
      Extend(LeBytes(TruncateU32(n), 4));
    }

    method WriteLengthPrefixed(bs: seq<byte>)
      modifies this
      ensures bytes == old(bytes) + LengthPrefixed(bs)
    {
      WriteU32Le(|bs|);
      Extend(bs);
    }
  }
}
