/** Bytes, strings and their order.

    A Rust `str` is modelled by its UTF-8 bytes: `as_bytes` is the identity,
    lengths are byte lengths and the derived `Ord` is the lexicographic order on
    bytes. */
module Bytes {

  type byte = b: nat | b < 256

  type Str = seq<byte>

  datatype Option<+T> = None | Some(value: T)

  datatype Result<+T, +E> = Ok(value: T) | Err(error: E)

  /** The bytes of an ASCII literal. */
  function Ascii(s: string): (r: Str)
    ensures |r| == |s|
    ensures forall i | 0 <= i < |s| && s[i] as int < 128 :: r[i] == s[i] as int
  {
    seq(|s|, i requires 0 <= i < |s| => s[i] as int % 256)
  }

  predicate IsOneOf(b: byte, chars: string) {
    exists i :: 0 <= i < |chars| && chars[i] as int == b
  }

  /** Strict lexicographic order, `<` on `str`. */
  predicate Less(a: Str, b: Str) {
    if b == [] then false
    else if a == [] then true
    else a[0] < b[0] || (a[0] == b[0] && Less(a[1..], b[1..]))
  }

  lemma {:induction false} LessIrreflexive(a: Str)
    ensures !Less(a, a)
  {
    if a != [] { LessIrreflexive(a[1..]); }
  }

  lemma {:induction false} LessTransitive(a: Str, b: Str, c: Str)
    requires Less(a, b) && Less(b, c)
    ensures Less(a, c)
  {
    if a != [] && a[0] == b[0] == c[0] { LessTransitive(a[1..], b[1..], c[1..]); }
  }

  lemma {:induction false} LessTotal(a: Str, b: Str)
    ensures Less(a, b) || a == b || Less(b, a)
  {
    if a != [] && b != [] && a[0] == b[0] {
      LessTotal(a[1..], b[1..]);
      assert a == [a[0]] + a[1..] && b == [b[0]] + b[1..];
    }
  }

  /** `a` comes first when it is a proper prefix of `b`, or smaller where they first differ. */
  lemma {:induction false} LessIff(a: Str, b: Str)
    ensures Less(a, b) <==>
              exists k: nat :: k <= |a| && k < |b| && a[..k] == b[..k] && (k < |a| ==> a[k] < b[k])
  {
    if a == [] || b == [] || a[0] != b[0] {
      assert b != [] ==> a[..0] == b[..0];
      forall k: nat | 0 < k <= |a| && k < |b| ensures a[..k] != b[..k] {
        assert a[..k][0] == a[0] && b[..k][0] == b[0];
      }
    } else {
      var a', b' := a[1..], b[1..];
      LessIff(a', b');
      if k: nat :| k <= |a'| && k < |b'| && a'[..k] == b'[..k] && (k < |a'| ==> a'[k] < b'[k]) {
        assert a[..k + 1] == [a[0]] + a'[..k] && b[..k + 1] == [b[0]] + b'[..k];
      }
      if k: nat :| k <= |a| && k < |b| && a[..k] == b[..k] && (k < |a| ==> a[k] < b[k]) {
        assert a'[..k - 1] == a[..k][1..] && b'[..k - 1] == b[..k][1..];
      }
    }
  }

  predicate IsLeast(x: Str, s: set<Str>) {
    x in s && forall y | y in s :: x == y || Less(x, y)
  }

  lemma {:induction false} LeastExists(s: set<Str>)
    requires s != {}
    ensures exists x :: IsLeast(x, s)
  {
    var x :| x in s;
    var rest := s - {x};
    if rest == {} {
      assert s == {x};
      assert IsLeast(x, s);
    } else {
      LeastExists(rest);
      var y :| IsLeast(y, rest);
      LessTotal(x, y);
      if Less(x, y) {
        forall z | z in s ensures x == z || Less(x, z) {
          if z != x && z != y { LessTransitive(x, y, z); }
        }
        assert IsLeast(x, s);
      } else {
        assert IsLeast(y, s);
      }
    }
  }

  ghost predicate Ascending(s: seq<Str>) {
    forall i, j | 0 <= i < j < |s| :: Less(s[i], s[j])
  }

  ghost function Elements<T(!new)>(s: seq<T>): (r: set<T>)
    ensures forall x :: x in r <==> x in s
  {
    set x | x in s
  }

  ghost predicate NoDuplicates<T(!new)>(s: seq<T>) {
    forall i, j | 0 <= i < j < |s| :: s[i] != s[j]
  }

  lemma {:induction false} AscendingNoDuplicates(s: seq<Str>)
    requires Ascending(s)
    ensures NoDuplicates(s)
  {
    forall i, j | 0 <= i < j < |s| ensures s[i] != s[j] { LessIrreflexive(s[i]); }
  }

  /** A duplicate-free sequence has as many elements as its set of elements. */
  lemma {:induction false} NoDuplicatesSize<T(!new)>(s: seq<T>)
    requires NoDuplicates(s)
    ensures |Elements(s)| == |s|
  {
    if s != [] {
      var t := s[..|s| - 1];
      NoDuplicatesSize(t);
      assert Elements(s) == Elements(t) + {s[|s| - 1]};
      assert s[|s| - 1] !in t;
    }
  }

  lemma SubsetSize<T>(a: set<T>, b: set<T>)
    requires a <= b
    ensures |a| <= |b|
    ensures |a| == |b| ==> a == b
  {
    assert b == a + (b - a);
    assert |b| == |a| + |b - a|;
    if |a| == |b| { assert b - a == {}; }
  }

  /** The iteration order of a `BTreeSet<SmolStr>`: ascending, every element once. */
  method AscendingElements(s: set<Str>) returns (r: seq<Str>)
    ensures Ascending(r)
    ensures forall x :: x in r <==> x in s
    ensures |r| == |s|
  {
    r := [];
    var rest := s;
    while rest != {}
      invariant Ascending(r)
      invariant forall x :: x in s <==> x in r || x in rest
      invariant forall x, y | x in r && y in rest :: Less(x, y)
      invariant rest <= s && |r| + |rest| == |s|
    {
      LeastExists(rest);
      var x :| x in rest && IsLeast(x, rest);
      r := r + [x];
      rest := rest - {x};
    }
  }

  /** The value of a hexadecimal digit of either case. */
  function HexValue(c: nat): (r: Option<nat>)
    ensures r.Some? ==> r.value < 16
  {
    if 0x30 <= c <= 0x39 then Some(c - 0x30)
    else if 0x61 <= c <= 0x66 then Some(c - 0x61 + 10)
    else if 0x41 <= c <= 0x46 then Some(c - 0x41 + 10)
    else None
  }
}
