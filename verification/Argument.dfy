/** Comptime arguments (`edda-codegen/src/argument.rs`) and the canonical form they are part of
    (`edda-codegen/src/canonical.rs`). */
module Argument {
  import opened Bytes

  type u8 = n: nat | n < 0x100
  type u16 = n: nat | n < 0x1_0000
  type u32 = n: nat | n < 0x1_0000_0000
  type u64 = n: nat | n < 0x1_0000_0000_0000_0000
  type i8 = n: int | -0x80 <= n < 0x80
  type i16 = n: int | -0x8000 <= n < 0x8000
  type i32 = n: int | -0x8000_0000 <= n < 0x8000_0000
  type i64 = n: int | -0x8000_0000_0000_0000 <= n < 0x8000_0000_0000_0000

  datatype PrimitiveValue =
    | U8(u8: u8) | U16(u16: u16) | U32(u32: u32) | U64(u64: u64) | USize(usize: u64)
    | I8(i8: i8) | I16(i16: i16) | I32(i32: i32) | I64(i64: i64) | ISize(isize: i64)
    | Bool(b: bool)
    | String(s: Str)

  /** One effect: `err: T`, `panic` or `yield: T`. */
  datatype EffectRowEntry = Raises(ty: Str) | Panic | Yields(ty: Str)

  datatype Argument =
    | Type(qualified: Str)
    | EffectRow(row: seq<EffectRowEntry>)
    | Primitive(p: PrimitiveValue)
    | UserDefined(v: UserValue)
    | Function(qualified: Str)

  datatype UserValue =
    | Record(typeQualified: Str, fields: seq<UserField>)
    | Variant(typeQualified: Str, variantTag: Str, payload: UserVariantPayload)

  datatype UserField = UserField(name: Str, value: Argument)

  datatype UserVariantPayload = Unit | Tuple(items: seq<Argument>) | Struct(fields: seq<UserField>)

  type Hash32 = h: seq<byte> | |h| == 32 witness seq(32, _ => 0)

  datatype NestedDependency = NestedDependency(qualified: Str, argumentTupleHash: Hash32)

  datatype CanonicalForm = CanonicalForm(
    specQualified: Str,
    argumentTuple: seq<Argument>,
    canonicalBody: seq<byte>,
    nested: seq<NestedDependency>)

  // ----- Effect rows -----

  function Rank(e: EffectRowEntry): nat {
    match e case Raises(_) => 0 case Panic => 1 case Yields(_) => 2
  }

  function Payload(e: EffectRowEntry): Str {
    match e case Raises(t) => t case Panic => [] case Yields(t) => t
  }

  /** The derived `Ord`: kind first, then the payload name. */
  predicate Before(a: EffectRowEntry, b: EffectRowEntry) {
    Rank(a) < Rank(b) || (Rank(a) == Rank(b) && Less(Payload(a), Payload(b)))
  }

  /** The declaration order: `err` entries by name, then `panic`, then `yield` entries by name. */
  lemma BeforeIff(a: EffectRowEntry, b: EffectRowEntry)
    ensures Before(a, b) <==>
      match (a, b)
      case (Raises(s), Raises(t)) => Less(s, t)
      case (Raises(_), _) => true
      case (Panic, Yields(_)) => true
      case (Yields(s), Yields(t)) => Less(s, t)
      case _ => false
  {
  }

  lemma BeforeIsStrictTotalOrder(a: EffectRowEntry, b: EffectRowEntry, c: EffectRowEntry)
    ensures !Before(a, a)
    ensures Before(a, b) || a == b || Before(b, a)
    ensures Before(a, b) && Before(b, c) ==> Before(a, c)
  {
    LessIrreflexive(Payload(a));
    LessTotal(Payload(a), Payload(b));
    if Less(Payload(a), Payload(b)) && Less(Payload(b), Payload(c)) {
      LessTransitive(Payload(a), Payload(b), Payload(c));
    }
  }

  function Insert(e: EffectRowEntry, row: seq<EffectRowEntry>): seq<EffectRowEntry> {
    if row == [] || !Before(row[0], e) then [e] + row else [row[0]] + Insert(e, row[1..])
  }

  /** `Vec::sort`. Entries that compare equal are equal, so every sort gives this result. */
  function Sort(entries: seq<EffectRowEntry>): seq<EffectRowEntry> {
    if entries == [] then [] else Insert(entries[0], Sort(entries[1..]))
  }

  /** `Vec::dedup`: drop an element equal to the one before it. */
  function Dedup(row: seq<EffectRowEntry>): seq<EffectRowEntry> {
    if |row| < 2 then row
    else if row[0] == row[1] then Dedup(row[1..])
    else [row[0]] + Dedup(row[1..])
  }

  /** `EffectRowArgument::new`. */
  function NewRow(entries: seq<EffectRowEntry>): seq<EffectRowEntry> {
    Dedup(Sort(entries))
  }

  ghost predicate Increasing(row: seq<EffectRowEntry>) {
    forall i, j | 0 <= i < j < |row| :: Before(row[i], row[j])
  }

  ghost predicate NonDecreasing(row: seq<EffectRowEntry>) {
    forall i, j | 0 <= i < j < |row| :: !Before(row[j], row[i])
  }

  lemma {:induction false} InsertSorts(e: EffectRowEntry, row: seq<EffectRowEntry>)
    requires NonDecreasing(row)
    ensures NonDecreasing(Insert(e, row))
    ensures forall x :: x in Insert(e, row) <==> x == e || x in row
  {
    var r := Insert(e, row);
    if row == [] || !Before(row[0], e) {
      forall i, j | 0 <= i < j < |r| ensures !Before(r[j], r[i]) {
        if i == 0 && row != [] {
          BeforeIsStrictTotalOrder(r[j], e, row[0]);
          BeforeIsStrictTotalOrder(row[0], r[j], e);
        }
      }
    } else {
      InsertSorts(e, row[1..]);
      forall i, j | 0 <= i < j < |r| ensures !Before(r[j], r[i]) {
        if i == 0 {
          assert r[j] in Insert(e, row[1..]);
          BeforeIsStrictTotalOrder(row[0], e, row[0]);
          BeforeIsStrictTotalOrder(e, row[0], e);
        }
      }
    }
  }

  lemma {:induction false} SortSorts(entries: seq<EffectRowEntry>)
    ensures NonDecreasing(Sort(entries))
    ensures forall x :: x in Sort(entries) <==> x in entries
  {
    if entries != [] {
      SortSorts(entries[1..]);
      InsertSorts(entries[0], Sort(entries[1..]));
    }
  }

  lemma {:induction false} DedupIncreases(row: seq<EffectRowEntry>)
    requires NonDecreasing(row)
    ensures Increasing(Dedup(row))
    ensures forall x :: x in Dedup(row) <==> x in row
  {
    if |row| >= 2 {
      DedupIncreases(row[1..]);
      if row[0] != row[1] {
        var rest := Dedup(row[1..]);
        forall j | 0 <= j < |rest| ensures Before(row[0], rest[j]) {
          assert rest[j] in row[1..];
          BeforeIsStrictTotalOrder(row[0], rest[j], row[1]);
          BeforeIsStrictTotalOrder(row[0], row[1], rest[j]);
          BeforeIsStrictTotalOrder(rest[j], row[1], row[0]);
        }
      }
    }
  }

  /** The stored row is strictly increasing and holds exactly the entries given. */
  lemma NewRowIsCanonical(entries: seq<EffectRowEntry>)
    ensures Increasing(NewRow(entries))
    ensures forall x :: x in NewRow(entries) <==> x in entries
  {
    SortSorts(entries);
    DedupIncreases(Sort(entries));
  }

  lemma {:induction false} IncreasingIsDetermined(a: seq<EffectRowEntry>, b: seq<EffectRowEntry>)
    requires Increasing(a) && Increasing(b) && forall x :: x in a <==> x in b
    ensures a == b
  {
    assert (a != [] ==> a[0] in a) && (b != [] ==> b[0] in b);
    if a != [] && b != [] {
      assert a[0] in b && b[0] in a;
      assert a[0] == b[0] by { BeforeIsStrictTotalOrder(a[0], b[0], a[0]); }
      assert a == [a[0]] + a[1..] && b == [b[0]] + b[1..];
      forall x ensures x in a[1..] <==> x in b[1..] {
        BeforeIsStrictTotalOrder(a[0], a[0], a[0]);
        assert a[0] !in a[1..] && a[0] !in b[1..];
        assert x in a <==> x == a[0] || x in a[1..];
        assert x in b <==> x == b[0] || x in b[1..];
      }
      IncreasingIsDetermined(a[1..], b[1..]);
    }
  }

  /** Two source forms build the same row exactly when they name the same set of effects. */
  lemma RowsEqualIffSameSet(a: seq<EffectRowEntry>, b: seq<EffectRowEntry>)
    ensures NewRow(a) == NewRow(b) <==> Elements(a) == Elements(b)
  {
    NewRowIsCanonical(a);
    NewRowIsCanonical(b);
    if Elements(a) == Elements(b) {
      forall x ensures x in NewRow(a) <==> x in NewRow(b) {
        assert x in a <==> x in Elements(a);
        assert x in b <==> x in Elements(b);
      }
      IncreasingIsDetermined(NewRow(a), NewRow(b));
    }
    if NewRow(a) == NewRow(b) {
      forall x ensures x in Elements(a) <==> x in Elements(b) {
        assert x in a <==> x in NewRow(a);
      }
    }
  }
}
