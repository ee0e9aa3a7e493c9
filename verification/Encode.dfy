/** The canonical encoding fed to the content hash (`edda-codegen/src/encode.rs`). */
module Encode {
  import opened Bytes
  import opened Wire
  import opened Argument

  // ----- Tags -----

  function KindTag(a: Argument): byte {
    match a
    case Type(_) => 0x01
    case EffectRow(_) => 0x02
    case Primitive(_) => 0x03
    case UserDefined(_) => 0x04
    case Function(_) => 0x05
  }

  function PrimitiveTag(p: PrimitiveValue): byte {
    match p
    case U8(_) => 0x01
    case U16(_) => 0x02
    case U32(_) => 0x03
    case U64(_) => 0x04
    case USize(_) => 0x05
    case I8(_) => 0x06
    case I16(_) => 0x07
    case I32(_) => 0x08
    case I64(_) => 0x09
    case ISize(_) => 0x0a
    case Bool(_) => 0x0b
    case String(_) => 0x0c
  }

  function ShapeTag(v: UserValue): byte {
    match v case Record(_, _) => 0x00 case Variant(_, _, _) => 0x01
  }

  function PayloadTag(p: UserVariantPayload): byte {
    match p case Unit => 0x00 case Tuple(_) => 0x01 case Struct(_) => 0x02
  }

  // ----- The bytes of each part -----

  /** Two's complement at `w` bytes. */
  function Unsigned(n: int, w: nat): nat
    requires -(Pow256(w) as int) <= n
  {
    if n < 0 then n + Pow256(w) else n
  }

  function PrimitiveBody(p: PrimitiveValue): seq<byte> {
    Widths();
    match p
    case U8(v) => [v]
    case U16(v) => LeBytes(v, 2)
    case U32(v) => LeBytes(v, 4)
    case U64(v) => LeBytes(v, 8)
    case USize(v) => LeBytes(v, 8)
    case I8(v) => [Unsigned(v, 1)]
    case I16(v) => LeBytes(Unsigned(v, 2), 2)
    case I32(v) => LeBytes(Unsigned(v, 4), 4)
    case I64(v) => LeBytes(Unsigned(v, 8), 8)
    case ISize(v) => LeBytes(Unsigned(v, 8), 8)
    case Bool(b) => [if b then 0x01 else 0x00]
    case String(s) => LengthPrefixed(s)
  }

  function PrimitiveBytes(p: PrimitiveValue): seq<byte> {
    [PrimitiveTag(p)] + PrimitiveBody(p)
  }

  function EntryBytes(e: EffectRowEntry): seq<byte> {
    [Rank(e)] + if e.Panic? then [] else LengthPrefixed(e.ty)
  }

  function EntriesBytes(row: seq<EffectRowEntry>): seq<byte> {
    if row == [] then [] else EntryBytes(row[0]) + EntriesBytes(row[1..])
  }

  function RowBytes(row: seq<EffectRowEntry>): seq<byte> {
    U32Le(|row|) + EntriesBytes(row)
  }

  function ArgumentBytes(a: Argument): seq<byte>
    decreases a
  {
    [KindTag(a)]
    + match a
      case Type(q) => LengthPrefixed(q)
      case EffectRow(row) => RowBytes(row)
      case Primitive(p) => PrimitiveBytes(p)
      case UserDefined(v) => ValueBytes(v)
      case Function(q) => LengthPrefixed(q)
  }

  function ArgumentsBytes(args: seq<Argument>): seq<byte>
    decreases args
  {
    if args == [] then [] else ArgumentBytes(args[0]) + ArgumentsBytes(args[1..])
  }

  function FieldsBytes(fields: seq<UserField>): seq<byte>
    decreases fields
  {
    if fields == [] then []
    else LengthPrefixed(fields[0].name) + ArgumentBytes(fields[0].value) + FieldsBytes(fields[1..])
  }

  function ValueBytes(v: UserValue): seq<byte>
    decreases v
  {
    LengthPrefixed(v.typeQualified) + [ShapeTag(v)]
    + match v
      case Record(_, fields) => U32Le(|fields|) + FieldsBytes(fields)
      case Variant(_, tag, payload) => LengthPrefixed(tag) + PayloadBytes(payload)
  }

  function PayloadBytes(p: UserVariantPayload): seq<byte>
    decreases p
  {
    [PayloadTag(p)]
    + match p
      case Unit => []
      case Tuple(items) => U32Le(|items|) + ArgumentsBytes(items)
      case Struct(fields) => U32Le(|fields|) + FieldsBytes(fields)
  }

  function NestedBytes(nested: seq<NestedDependency>): seq<byte> {
    if nested == [] then []
    else LengthPrefixed(nested[0].qualified) + nested[0].argumentTupleHash + NestedBytes(nested[1..])
  }

  function FormBytes(form: CanonicalForm, version: byte): seq<byte> {
    [version]
    + LengthPrefixed(form.specQualified)
    + (U32Le(|form.argumentTuple|) + ArgumentsBytes(form.argumentTuple))
    + LengthPrefixed(form.canonicalBody)
    + (U32Le(|form.nested|) + NestedBytes(form.nested))
  }

  // ----- The encoder, appending to a buffer -----

  method EncodePrimitiveBody(p: PrimitiveValue, out: Buffer)
    modifies out
    ensures out.bytes == old(out.bytes) + PrimitiveBody(p)
  {
    Widths();
    match p {
      case U8(v) => out.Push(v);
      case U16(v) => out.Extend(LeBytes(v, 2));
      case U32(v) => out.Extend(LeBytes(v, 4));
      case U64(v) => out.Extend(LeBytes(v, 8));
      case USize(v) => out.Extend(LeBytes(v, 8));
      case I8(v) => out.Push(Unsigned(v, 1));
      case I16(v) => out.Extend(LeBytes(Unsigned(v, 2), 2));
      case I32(v) => out.Extend(LeBytes(Unsigned(v, 4), 4));
      case I64(v) => out.Extend(LeBytes(Unsigned(v, 8), 8));
      case ISize(v) => out.Extend(LeBytes(Unsigned(v, 8), 8));
      case Bool(b) => out.Push(if b then 0x01 else 0x00);
      case String(s) => out.WriteLengthPrefixed(s);
    }
  }

  method EncodePrimitive(p: PrimitiveValue, out: Buffer)
    modifies out
    ensures out.bytes == old(out.bytes) + PrimitiveBytes(p)
  {
    out.Push(PrimitiveTag(p));
    EncodePrimitiveBody(p, out);
    Assoc(old(out.bytes), [PrimitiveTag(p)], PrimitiveBody(p));
  }

  method EncodeEntry(e: EffectRowEntry, out: Buffer)
    modifies out
    ensures out.bytes == old(out.bytes) + EntryBytes(e)
  {
    out.Push(Rank(e));
    match e {
      case Raises(ty) =>
        out.WriteLengthPrefixed(ty);
        Assoc(old(out.bytes), [Rank(e)], LengthPrefixed(ty));
      case Yields(ty) =>
        out.WriteLengthPrefixed(ty);
        Assoc(old(out.bytes), [Rank(e)], LengthPrefixed(ty));
      case Panic =>
        assert [Rank(e)] + [] == [Rank(e)];
    }
  }

  method EncodeEffectRow(row: seq<EffectRowEntry>, out: Buffer)
    modifies out
    ensures out.bytes == old(out.bytes) + RowBytes(row)
  {
    out.WriteU32Le(|row|);
    Assoc(old(out.bytes), U32Le(|row|), EntriesBytes(row));
    assert row[0..] == row;
    for k := 0 to |row|
      invariant out.bytes + EntriesBytes(row[k..]) == old(out.bytes) + RowBytes(row)
    {
      assert row[k..][1..] == row[k + 1..];
      Assoc(out.bytes, EntryBytes(row[k]), EntriesBytes(row[k + 1..]));
      EncodeEntry(row[k], out);
    }
    assert row[|row|..] == [];
  }

  method EncodeArguments(args: seq<Argument>, out: Buffer)
    modifies out
    ensures out.bytes == old(out.bytes) + (U32Le(|args|) + ArgumentsBytes(args))
    decreases args, 1
  {
    out.WriteU32Le(|args|);
    Assoc(old(out.bytes), U32Le(|args|), ArgumentsBytes(args));
    assert args[0..] == args;
    for k := 0 to |args|
      invariant out.bytes + ArgumentsBytes(args[k..]) == old(out.bytes) + (U32Le(|args|) + ArgumentsBytes(args))
    {
      assert args[k..][1..] == args[k + 1..];
      Assoc(out.bytes, ArgumentBytes(args[k]), ArgumentsBytes(args[k + 1..]));
      EncodeArgument(args[k], out);
    }
    assert args[|args|..] == [];
  }

  method EncodeUserFields(fields: seq<UserField>, out: Buffer)
    modifies out
    ensures out.bytes == old(out.bytes) + (U32Le(|fields|) + FieldsBytes(fields))
    decreases fields, 1
  {
    out.WriteU32Le(|fields|);
    Assoc(old(out.bytes), U32Le(|fields|), FieldsBytes(fields));
    assert fields[0..] == fields;
    for k := 0 to |fields|
      invariant out.bytes + FieldsBytes(fields[k..]) == old(out.bytes) + (U32Le(|fields|) + FieldsBytes(fields))
    {
      assert fields[k..][1..] == fields[k + 1..];
      ghost var name, value := LengthPrefixed(fields[k].name), ArgumentBytes(fields[k].value);
      Assoc(out.bytes, name + value, FieldsBytes(fields[k + 1..]));
      Assoc(out.bytes, name, value);
      out.WriteLengthPrefixed(fields[k].name);
      EncodeArgument(fields[k].value, out);
    }
    assert fields[|fields|..] == [];
  }

  method EncodeArgument(arg: Argument, out: Buffer)
    modifies out
    ensures out.bytes == old(out.bytes) + ArgumentBytes(arg)
    decreases arg, 0
  {
    ghost var tag := [KindTag(arg)];
    out.Push(KindTag(arg));
    match arg {
      case Type(q) =>
        out.WriteLengthPrefixed(q);
        Assoc(old(out.bytes), tag, LengthPrefixed(q));
      case EffectRow(row) =>
        EncodeEffectRow(row, out);
        Assoc(old(out.bytes), tag, RowBytes(row));
      case Primitive(p) =>
        EncodePrimitive(p, out);
        Assoc(old(out.bytes), tag, PrimitiveBytes(p));
      case UserDefined(v) =>
        EncodeUserValue(v, out);
        Assoc(old(out.bytes), tag, ValueBytes(v));
      case Function(q) =>
        out.WriteLengthPrefixed(q);
        Assoc(old(out.bytes), tag, LengthPrefixed(q));
    }
  }

  method EncodeUserValue(v: UserValue, out: Buffer)
    modifies out
    ensures out.bytes == old(out.bytes) + ValueBytes(v)
    decreases v, 0
  {
    ghost var head := LengthPrefixed(v.typeQualified);
    out.WriteLengthPrefixed(v.typeQualified);
    out.Push(ShapeTag(v));
    Assoc(old(out.bytes), head, [ShapeTag(v)]);
    match v {
      case Record(_, fields) =>
        EncodeUserFields(fields, out);
        Assoc(old(out.bytes), head + [ShapeTag(v)], U32Le(|fields|) + FieldsBytes(fields));
      case Variant(_, tag, payload) =>
        ghost var before := out.bytes;
        out.WriteLengthPrefixed(tag);
        EncodePayload(payload, out);
        Assoc(before, LengthPrefixed(tag), PayloadBytes(payload));
        Assoc(old(out.bytes), head + [ShapeTag(v)], LengthPrefixed(tag) + PayloadBytes(payload));
    }
  }

  method EncodePayload(payload: UserVariantPayload, out: Buffer)
    modifies out
    ensures out.bytes == old(out.bytes) + PayloadBytes(payload)
    decreases payload, 0
  {
    ghost var tag := [PayloadTag(payload)];
    out.Push(PayloadTag(payload));
    match payload {
      case Unit =>
        assert tag + [] == tag;
      case Tuple(items) =>
        EncodeArguments(items, out);
        Assoc(old(out.bytes), tag, U32Le(|items|) + ArgumentsBytes(items));
      case Struct(fields) =>
        EncodeUserFields(fields, out);
        Assoc(old(out.bytes), tag, U32Le(|fields|) + FieldsBytes(fields));
    }
  }

  method EncodeNested(nested: seq<NestedDependency>, out: Buffer)
    modifies out
    ensures out.bytes == old(out.bytes) + (U32Le(|nested|) + NestedBytes(nested))
  {
    out.WriteU32Le(|nested|);
    Assoc(old(out.bytes), U32Le(|nested|), NestedBytes(nested));
    assert nested[0..] == nested;
    for k := 0 to |nested|
      invariant out.bytes + NestedBytes(nested[k..]) == old(out.bytes) + (U32Le(|nested|) + NestedBytes(nested))
    {
      assert nested[k..][1..] == nested[k + 1..];
      ghost var name, hash := LengthPrefixed(nested[k].qualified), nested[k].argumentTupleHash;
      Assoc(out.bytes, name + hash, NestedBytes(nested[k + 1..]));
      Assoc(out.bytes, name, hash);
      out.WriteLengthPrefixed(nested[k].qualified);
      out.Extend(nested[k].argumentTupleHash);
    }
    assert nested[|nested|..] == [];
  }

  /** `encode_into`. */
  method EncodeInto(form: CanonicalForm, version: byte, out: Buffer)
    modifies out
    ensures out.bytes == old(out.bytes) + FormBytes(form, version)
  {
    ghost var spec := LengthPrefixed(form.specQualified);
    ghost var args := U32Le(|form.argumentTuple|) + ArgumentsBytes(form.argumentTuple);
    ghost var body, nested := LengthPrefixed(form.canonicalBody), U32Le(|form.nested|) + NestedBytes(form.nested);
    out.Push(version);
    out.WriteLengthPrefixed(form.specQualified);
    Assoc(old(out.bytes), [version], spec);
    EncodeArguments(form.argumentTuple, out);
    Assoc(old(out.bytes), [version] + spec, args);
    out.WriteLengthPrefixed(form.canonicalBody);
    Assoc(old(out.bytes), [version] + spec + args, body);
    EncodeNested(form.nested, out);
    Assoc(old(out.bytes), [version] + spec + args + body, nested);
  }

  // ----- Bytes spelled out -----

  lemma SmallLength(n: nat)
    requires n < 256
    ensures U32Le(n) == [n, 0, 0, 0]
  {
    assert LeBytes(n, 4) == [n] + LeBytes(0, 3);
    assert LeBytes(0, 3) == [0, 0, 0];
  }

  lemma OneByteName(c: byte)
    ensures LengthPrefixed([c]) == [1, 0, 0, 0, c]
  {
    SmallLength(1);
  }

  /** Every primitive's tag and width. */
  lemma UnsignedExamples()
    ensures ArgumentBytes(Primitive(U8(7))) == [0x03] + ([0x01] + [7])
    ensures ArgumentBytes(Primitive(U16(0x0102))) == [0x03] + ([0x02] + [0x02, 0x01])
    ensures ArgumentBytes(Primitive(U32(0x0102_0304))) == [0x03] + ([0x03] + [0x04, 0x03, 0x02, 0x01])
    ensures ArgumentBytes(Primitive(U64(0x0102))) == [0x03] + ([0x04] + [0x02, 0x01, 0, 0, 0, 0, 0, 0])
    ensures ArgumentBytes(Primitive(USize(0x0102))) == [0x03] + ([0x05] + [0x02, 0x01, 0, 0, 0, 0, 0, 0])
  {
    OneTwo();
  }

  lemma OneTwo()
    ensures LeBytes(0x0102, 2) == [0x02, 0x01] && LeBytes(0x0102_0304, 4) == [0x04, 0x03, 0x02, 0x01]
    ensures LeBytes(0x0102, 8) == [0x02, 0x01, 0, 0, 0, 0, 0, 0]
  {
    Zeros();
    assert LeBytes(1, 7) == [1] + LeBytes(0, 6);
    assert LeBytes(0x0102, 8) == [0x02] + LeBytes(1, 7);
  }

  lemma Zeros()
    ensures LeBytes(0, 6) == [0, 0, 0, 0, 0, 0]
  {
    assert LeBytes(0, 3) == [0, 0, 0];
    assert LeBytes(0, 4) == [0] + LeBytes(0, 3);
    assert LeBytes(0, 5) == [0] + LeBytes(0, 4);
    assert LeBytes(0, 6) == [0] + LeBytes(0, 5);
  }

  /** Negative numbers are two's complement. */
  lemma SignedExamples()
    ensures ArgumentBytes(Primitive(I8(-1))) == [0x03] + ([0x06] + [0xff])
    ensures ArgumentBytes(Primitive(I16(-2))) == [0x03] + ([0x07] + [0xfe, 0xff])
    ensures ArgumentBytes(Primitive(I32(-2))) == [0x03] + ([0x08] + [0xfe, 0xff, 0xff, 0xff])
    ensures ArgumentBytes(Primitive(I64(-2)))
         == [0x03] + ([0x09] + [0xfe, 0xff, 0xff, 0xff, 0xff, 0xff, 0xff, 0xff])
    ensures ArgumentBytes(Primitive(ISize(-2)))
         == [0x03] + ([0x0a] + [0xfe, 0xff, 0xff, 0xff, 0xff, 0xff, 0xff, 0xff])
  {
    Widths();
    MinusTwo();
  }

  lemma MinusTwo()
    ensures LeBytes(0xfffe, 2) == [0xfe, 0xff] && LeBytes(0xffff_fffe, 4) == [0xfe, 0xff, 0xff, 0xff]
    ensures LeBytes(0xffff_ffff_ffff_fffe, 8) == [0xfe, 0xff, 0xff, 0xff, 0xff, 0xff, 0xff, 0xff]
  {
    assert LeBytes(0xffff_ffff, 4) == [0xff, 0xff, 0xff, 0xff];
    assert LeBytes(0xff_ffff_ffff, 5) == [0xff] + LeBytes(0xffff_ffff, 4);
    assert LeBytes(0xffff_ffff_ffff, 6) == [0xff] + LeBytes(0xff_ffff_ffff, 5);
    assert LeBytes(0xff_ffff_ffff_ffff, 7) == [0xff] + LeBytes(0xffff_ffff_ffff, 6);
  }

  lemma OtherPrimitiveExamples()
    ensures ArgumentBytes(Primitive(Bool(true))) == [0x03] + ([0x0b] + [0x01])
    ensures ArgumentBytes(Primitive(Bool(false))) == [0x03] + ([0x0b] + [0x00])
    ensures ArgumentBytes(Primitive(String([0x61]))) == [0x03] + ([0x0c] + [1, 0, 0, 0, 0x61])
  {
    OneByteName(0x61);
  }

  /** Types and functions. */
  lemma NameExamples()
    ensures ArgumentBytes(Type([0x61])) == [0x01] + [1, 0, 0, 0, 0x61]
    ensures ArgumentBytes(Function([0x61])) == [0x05] + [1, 0, 0, 0, 0x61]
    ensures ArgumentsBytes([Type([0x61])]) == [0x01] + [1, 0, 0, 0, 0x61]
    ensures FieldsBytes([UserField([0x66], Type([0x61]))]) == [1, 0, 0, 0, 0x66] + ([0x01] + [1, 0, 0, 0, 0x61])
  {
    OneByteName(0x61);
    OneByteName(0x66);
    var a, f := Type([0x61]), UserField([0x66], Type([0x61]));
    assert [a][1..] == [] && [f][1..] == [];
    assert ArgumentsBytes([a]) == ArgumentBytes(a);
    assert FieldsBytes([f]) == LengthPrefixed(f.name) + ArgumentBytes(f.value);
  }

  lemma RowExample()
    ensures ArgumentBytes(EffectRow([Raises([0x61]), Panic, Yields([0x62])]))
         == [0x02] + ([3, 0, 0, 0] + ([0x00] + [1, 0, 0, 0, 0x61] + ([0x01] + ([0x02] + [1, 0, 0, 0, 0x62]))))
  {
    SmallLength(3);
    OneByteName(0x61);
    OneByteName(0x62);
    var e, f, g := Raises([0x61]), Panic, Yields([0x62]);
    assert [e, f, g][1..] == [f, g] && [f, g][1..] == [g] && [g][1..] == [];
    assert EntriesBytes([g]) == EntryBytes(g);
    assert EntriesBytes([f, g]) == EntryBytes(f) + EntryBytes(g);
    assert EntryBytes(f) == [0x01];
  }

  lemma RecordExample()
    ensures ArgumentBytes(UserDefined(Record([0x72], [UserField([0x66], Type([0x61]))])))
         == [0x04] + ([1, 0, 0, 0, 0x72] + [0x00]
                      + ([1, 0, 0, 0] + ([1, 0, 0, 0, 0x66] + ([0x01] + [1, 0, 0, 0, 0x61]))))
  {
    NameExamples();
    SmallLength(1);
    OneByteName(0x72);
  }

  /** The three kinds of variants. */
  lemma VariantExamples()
    ensures ArgumentBytes(UserDefined(Variant([0x72], [0x76], Unit)))
         == [0x04] + ([1, 0, 0, 0, 0x72] + [0x01] + ([1, 0, 0, 0, 0x76] + ([0x00] + [])))
    ensures ArgumentBytes(UserDefined(Variant([0x72], [0x76], Tuple([Type([0x61])]))))
         == [0x04] + ([1, 0, 0, 0, 0x72] + [0x01]
                      + ([1, 0, 0, 0, 0x76] + ([0x01] + ([1, 0, 0, 0] + ([0x01] + [1, 0, 0, 0, 0x61])))))
    ensures ArgumentBytes(UserDefined(Variant([0x72], [0x76], Struct([UserField([0x66], Type([0x61]))]))))
         == [0x04] + ([1, 0, 0, 0, 0x72] + [0x01]
                      + ([1, 0, 0, 0, 0x76]
                         + ([0x02] + ([1, 0, 0, 0] + ([1, 0, 0, 0, 0x66] + ([0x01] + [1, 0, 0, 0, 0x61]))))))
  {
    NameExamples();
    SmallLength(1);
    OneByteName(0x72);
    OneByteName(0x76);
  }

  /** A whole form. */
  lemma FormExample(hash: Hash32)
    ensures FormBytes(CanonicalForm([0x73], [Type([0x61])], [9, 8], [NestedDependency([0x6e], hash)]), 0x01)
         == [0x01] + [1, 0, 0, 0, 0x73] + ([1, 0, 0, 0] + ([0x01] + [1, 0, 0, 0, 0x61]))
            + ([2, 0, 0, 0] + [9, 8]) + ([1, 0, 0, 0] + ([1, 0, 0, 0, 0x6e] + hash))
  {
    NameExamples();
    SmallLength(1);
    TwoBytes();
    OneByteName(0x73);
    NestedExample(hash);
  }

  lemma TwoBytes()
    ensures LengthPrefixed([9, 8]) == [2, 0, 0, 0] + [9, 8]
  {
    SmallLength(2);
  }

  lemma NestedExample(hash: Hash32)
    ensures NestedBytes([NestedDependency([0x6e], hash)]) == [1, 0, 0, 0, 0x6e] + hash
  {
    OneByteName(0x6e);
    var d := NestedDependency([0x6e], hash);
    assert [d][1..] == [];
    assert NestedBytes([d]) == LengthPrefixed(d.qualified) + hash + NestedBytes([]);
  }
}
