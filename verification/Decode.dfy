/** The canonical encoding can be read back: it is prefix-free and injective, so the content hash of a
    form identifies the form. The reader below is the specification of the format, written against
    the layout table at the head of `edda-codegen/src/encode.rs`. */
module Decode {
  import opened Bytes
  import opened Wire
  import opened Argument
  import opened Encode

  // ----- The reader -----

  function ReadByte(bs: seq<byte>): Read<byte> {
    if bs == [] then None else Some((bs[0], bs[1..]))
  }

  function ReadStr(bs: seq<byte>): (r: Read<Str>)
    ensures r.Some? ==> |r.value.1| < |bs| && |r.value.0| < U32_LIMIT
  {
    ReadLengthPrefixedBound(bs);
    ReadLengthPrefixed(bs)
  }

  function Signed(n: nat, w: nat): int {
    if 2 * n < Pow256(w) then n else n - Pow256(w)
  }

  function ReadPrimitiveBody(tag: byte, bs: seq<byte>): (r: Read<PrimitiveValue>)
    ensures r.Some? ==> |r.value.1| < |bs|
  {
    Widths();
    var w := WidthOf(tag);
    if tag == 0x0c then
      match ReadStr(bs) case None => None case Some((s, rest)) => Some((String(s), rest))
    else if w == 0 then None
    else
      match ReadLe(w, bs)
      case None => None
      case Some((n, rest)) =>
        match FixedValue(tag, n) case None => None case Some(p) => Some((p, rest))
  }

  function WidthOf(tag: byte): nat {
    match tag
    case 0x01 => 1 case 0x02 => 2 case 0x03 => 4 case 0x04 => 8 case 0x05 => 8
    case 0x06 => 1 case 0x07 => 2 case 0x08 => 4 case 0x09 => 8 case 0x0a => 8
    case 0x0b => 1
    case _ => 0
  }

  function FixedValue(tag: byte, n: nat): Option<PrimitiveValue>
    requires n < Pow256(WidthOf(tag))
  {
    Widths();
    match tag
    case 0x01 => Some(U8(n))
    case 0x02 => Some(U16(n))
    case 0x03 => Some(U32(n))
    case 0x04 => Some(U64(n))
    case 0x05 => Some(USize(n))
    case 0x06 => Some(I8(Signed(n, 1)))
    case 0x07 => Some(I16(Signed(n, 2)))
    case 0x08 => Some(I32(Signed(n, 4)))
    case 0x09 => Some(I64(Signed(n, 8)))
    case 0x0a => Some(ISize(Signed(n, 8)))
    case 0x0b => if n <= 1 then Some(Bool(n == 1)) else None
    case _ => None
  }

  function ReadPrimitive(bs: seq<byte>): (r: Read<PrimitiveValue>)
    ensures r.Some? ==> |r.value.1| < |bs|
  {
    match ReadByte(bs) case None => None case Some((tag, rest)) => ReadPrimitiveBody(tag, rest)
  }

  function ReadEntry(bs: seq<byte>): (r: Read<EffectRowEntry>)
    ensures r.Some? ==> |r.value.1| < |bs|
  {
    match ReadByte(bs)
    case None => None
    case Some((tag, rest)) =>
      if tag == 0x01 then Some((Panic, rest))
      else if tag == 0x00 || tag == 0x02 then
        match ReadStr(rest)
        case None => None
        case Some((ty, rest')) => Some((if tag == 0x00 then Raises(ty) else Yields(ty), rest'))
      else None
  }

  function ReadEntries(n: nat, bs: seq<byte>): (r: Read<seq<EffectRowEntry>>)
    ensures r.Some? ==> |r.value.1| <= |bs| && |r.value.0| == n
    decreases |bs|
  {
    if n == 0 then Some(([], bs))
    else
      match ReadEntry(bs)
      case None => None
      case Some((e, rest)) =>
        match ReadEntries(n - 1, rest)
        case None => None
        case Some((es, rest')) => Some(([e] + es, rest'))
  }

  function ReadRow(bs: seq<byte>): (r: Read<seq<EffectRowEntry>>)
    ensures r.Some? ==> |r.value.1| < |bs| && |r.value.0| < U32_LIMIT
  {
    ReadU32Bound(bs);
    match ReadLe(4, bs) case None => None case Some((n, rest)) => ReadEntries(n, rest)
  }

  function ReadArgument(bs: seq<byte>): (r: Read<Argument>)
    ensures r.Some? ==> |r.value.1| < |bs|
    decreases |bs|, 0
  {
    match ReadByte(bs)
    case None => None
    case Some((tag, rest)) =>
      match tag
      case 0x01 => (match ReadStr(rest) case None => None case Some((q, t)) => Some((Type(q), t)))
      case 0x02 => (match ReadRow(rest) case None => None case Some((row, t)) => Some((EffectRow(row), t)))
      case 0x03 => (match ReadPrimitive(rest) case None => None case Some((p, t)) => Some((Primitive(p), t)))
      case 0x04 => (match ReadValue(rest) case None => None case Some((v, t)) => Some((UserDefined(v), t)))
      case 0x05 => (match ReadStr(rest) case None => None case Some((q, t)) => Some((Function(q), t)))
      case _ => None
  }

  function ReadArguments(n: nat, bs: seq<byte>): (r: Read<seq<Argument>>)
    ensures r.Some? ==> |r.value.1| <= |bs| && |r.value.0| == n
    decreases |bs|, 1
  {
    if n == 0 then Some(([], bs))
    else
      match ReadArgument(bs)
      case None => None
      case Some((a, rest)) =>
        match ReadArguments(n - 1, rest)
        case None => None
        case Some((more, rest')) => Some(([a] + more, rest'))
  }

  function ReadCountedArguments(bs: seq<byte>): (r: Read<seq<Argument>>)
    ensures r.Some? ==> |r.value.1| < |bs| && |r.value.0| < U32_LIMIT
    decreases |bs|, 2
  {
    ReadU32Bound(bs);
    match ReadLe(4, bs) case None => None case Some((n, rest)) => ReadArguments(n, rest)
  }

  function ReadFields(n: nat, bs: seq<byte>): (r: Read<seq<UserField>>)
    ensures r.Some? ==> |r.value.1| <= |bs| && |r.value.0| == n
    decreases |bs|, 1
  {
    if n == 0 then Some(([], bs))
    else
      match ReadStr(bs)
      case None => None
      case Some((name, rest)) =>
        match ReadArgument(rest)
        case None => None
        case Some((a, rest')) =>
          match ReadFields(n - 1, rest')
          case None => None
          case Some((more, rest'')) => Some(([UserField(name, a)] + more, rest''))
  }

  function ReadCountedFields(bs: seq<byte>): (r: Read<seq<UserField>>)
    ensures r.Some? ==> |r.value.1| < |bs| && |r.value.0| < U32_LIMIT
    decreases |bs|, 2
  {
    ReadU32Bound(bs);
    match ReadLe(4, bs) case None => None case Some((n, rest)) => ReadFields(n, rest)
  }

  function ReadPayload(bs: seq<byte>): (r: Read<UserVariantPayload>)
    ensures r.Some? ==> |r.value.1| < |bs|
    decreases |bs|, 3
  {
    match ReadByte(bs)
    case None => None
    case Some((tag, rest)) =>
      match tag
      case 0x00 => Some((Unit, rest))
      case 0x01 => (match ReadCountedArguments(rest) case None => None case Some((items, t)) => Some((Tuple(items), t)))
      case 0x02 => (match ReadCountedFields(rest) case None => None case Some((fs, t)) => Some((Struct(fs), t)))
      case _ => None
  }

  function ReadValue(bs: seq<byte>): (r: Read<UserValue>)
    ensures r.Some? ==> |r.value.1| < |bs|
    decreases |bs|, 4
  {
    match ReadStr(bs)
    case None => None
    case Some((q, rest)) =>
      match ReadByte(rest)
      case None => None
      case Some((shape, body)) => ReadShape(q, shape, body)
  }

  function ReadShape(q: Str, shape: byte, bs: seq<byte>): (r: Read<UserValue>)
    ensures r.Some? ==> |r.value.1| < |bs|
    decreases |bs|, 4
  {
    match shape
    case 0x00 => (match ReadCountedFields(bs) case None => None case Some((fs, t)) => Some((Record(q, fs), t)))
    case 0x01 =>
      (match ReadStr(bs)
       case None => None
       case Some((tag, rest)) =>
         match ReadPayload(rest) case None => None case Some((p, t)) => Some((Variant(q, tag, p), t)))
    case _ => None
  }

  function ReadNested(n: nat, bs: seq<byte>): (r: Read<seq<NestedDependency>>)
    ensures r.Some? ==> |r.value.0| == n
    decreases |bs|
  {
    if n == 0 then Some(([], bs))
    else
      match ReadStr(bs)
      case None => None
      case Some((q, rest)) =>
        match Take(32, rest)
        case None => None
        case Some((h, rest')) =>
          match ReadNested(n - 1, rest')
          case None => None
          case Some((more, rest'')) => Some(([NestedDependency(q, h)] + more, rest''))
  }

  function ReadCountedNested(bs: seq<byte>): (r: Read<seq<NestedDependency>>)
    ensures r.Some? ==> |r.value.0| < U32_LIMIT
  {
    ReadU32Bound(bs);
    match ReadLe(4, bs) case None => None case Some((n, rest)) => ReadNested(n, rest)
  }

  /** Version, spec name, argument tuple, body and nested set, and the bytes that follow. */
  function ReadForm(bs: seq<byte>): Read<(byte, CanonicalForm)> {
    match ReadByte(bs)
    case None => None
    case Some((version, b1)) =>
      match ReadStr(b1)
      case None => None
      case Some((spec, b2)) =>
        match ReadCountedArguments(b2)
        case None => None
        case Some((args, b3)) =>
          match ReadStr(b3)
          case None => None
          case Some((body, b4)) =>
            match ReadCountedNested(b4)
            case None => None
            case Some((nested, rest)) => Some(((version, CanonicalForm(spec, args, body, nested)), rest))
  }

  // ----- Which forms fit the 32-bit length fields -----

  ghost predicate Fits(n: nat) { n < U32_LIMIT }

  ghost predicate PrimitiveFits(p: PrimitiveValue) { p.String? ==> Fits(|p.s|) }

  ghost predicate RowFits(row: seq<EffectRowEntry>) {
    Fits(|row|) && forall i | 0 <= i < |row| :: Fits(|Payload(row[i])|)
  }

  ghost predicate ArgumentFits(a: Argument)
    decreases a
  {
    match a
    case Type(q) => Fits(|q|)
    case EffectRow(row) => RowFits(row)
    case Primitive(p) => PrimitiveFits(p)
    case UserDefined(v) => ValueFits(v)
    case Function(q) => Fits(|q|)
  }

  ghost predicate ArgumentsFit(args: seq<Argument>)
    decreases args
  {
    args != [] ==> ArgumentFits(args[0]) && ArgumentsFit(args[1..])
  }

  ghost predicate FieldsFit(fields: seq<UserField>)
    decreases fields
  {
    fields != [] ==> Fits(|fields[0].name|) && ArgumentFits(fields[0].value) && FieldsFit(fields[1..])
  }

  ghost predicate PayloadFits(p: UserVariantPayload)
    decreases p
  {
    match p
    case Unit => true
    case Tuple(items) => Fits(|items|) && ArgumentsFit(items)
    case Struct(fields) => Fits(|fields|) && FieldsFit(fields)
  }

  ghost predicate ValueFits(v: UserValue)
    decreases v
  {
    && Fits(|v.typeQualified|)
    && match v
       case Record(_, fields) => Fits(|fields|) && FieldsFit(fields)
       case Variant(_, tag, payload) => Fits(|tag|) && PayloadFits(payload)
  }

  ghost predicate NestedFits(nested: seq<NestedDependency>) {
    nested != [] ==> Fits(|nested[0].qualified|) && NestedFits(nested[1..])
  }

  /** Every length and every count in the form is below 2^32. */
  ghost predicate FormFits(form: CanonicalForm) {
    && Fits(|form.specQualified|)
    && Fits(|form.argumentTuple|) && ArgumentsFit(form.argumentTuple)
    && Fits(|form.canonicalBody|)
    && Fits(|form.nested|) && NestedFits(form.nested)
  }

  // ----- Reading back what was written -----

  lemma ReadStrBack(s: Str, rest: seq<byte>)
    requires Fits(|s|)
    ensures ReadStr(LengthPrefixed(s) + rest) == Some((s, rest))
  {
    ReadLengthPrefixedBack(s, rest);
  }

  lemma ReadTag(tag: byte, body: seq<byte>, rest: seq<byte>)
    ensures ReadByte([tag] + body + rest) == Some((tag, body + rest))
  {
    assert [tag] + body + rest == [tag] + (body + rest);
  }

  lemma FixedBack(tag: byte, p: PrimitiveValue, n: nat, w: nat, rest: seq<byte>)
    requires w == WidthOf(tag) > 0 && tag != 0x0c && n < Pow256(w) && FixedValue(tag, n) == Some(p)
    ensures ReadPrimitiveBody(tag, LeBytes(n, w) + rest) == Some((p, rest))
  {
    ReadLeBack(n, w, rest);
  }

  lemma OneByte(n: nat)
    requires n < 256
    ensures LeBytes(n, 1) == [n]
  {
    assert LeBytes(n / 256, 0) == [];
  }

  lemma ReadPrimitiveBodyBack(p: PrimitiveValue, rest: seq<byte>)
    requires PrimitiveFits(p)
    ensures ReadPrimitiveBody(PrimitiveTag(p), PrimitiveBody(p) + rest) == Some((p, rest))
  {
    Widths();
    match p
    case U8(v) => OneByte(v); FixedBack(0x01, p, v, 1, rest);
    case U16(v) => FixedBack(0x02, p, v, 2, rest);
    case U32(v) => FixedBack(0x03, p, v, 4, rest);
    case U64(v) => FixedBack(0x04, p, v, 8, rest);
    case USize(v) => FixedBack(0x05, p, v, 8, rest);
    case I8(v) => OneByte(Unsigned(v, 1)); FixedBack(0x06, p, Unsigned(v, 1), 1, rest);
    case I16(v) => FixedBack(0x07, p, Unsigned(v, 2), 2, rest);
    case I32(v) => FixedBack(0x08, p, Unsigned(v, 4), 4, rest);
    case I64(v) => FixedBack(0x09, p, Unsigned(v, 8), 8, rest);
    case ISize(v) => FixedBack(0x0a, p, Unsigned(v, 8), 8, rest);
    case Bool(b) =>
      var n := if b then 1 else 0;
      OneByte(n);
      FixedBack(0x0b, p, n, 1, rest);
    case String(s) => ReadStrBack(s, rest);
  }

  lemma ReadPrimitiveBack(p: PrimitiveValue, rest: seq<byte>)
    requires PrimitiveFits(p)
    ensures ReadPrimitive(PrimitiveBytes(p) + rest) == Some((p, rest))
  {
    ReadTag(PrimitiveTag(p), PrimitiveBody(p), rest);
    ReadPrimitiveBodyBack(p, rest);
  }

  lemma ReadEntryBack(e: EffectRowEntry, rest: seq<byte>)
    requires Fits(|Payload(e)|)
    ensures ReadEntry(EntryBytes(e) + rest) == Some((e, rest))
  {
    if e.Panic? {
      assert EntryBytes(e) + rest == [0x01] + rest;
    } else {
      ReadTag(Rank(e), LengthPrefixed(e.ty), rest);
      ReadStrBack(e.ty, rest);
    }
  }

  lemma ReadEntriesCons(e: EffectRowEntry, row: seq<EffectRowEntry>, tail: seq<byte>, rest: seq<byte>)
    requires Fits(|Payload(e)|) && ReadEntries(|row|, tail) == Some((row, rest))
    ensures ReadEntries(|row| + 1, EntryBytes(e) + tail) == Some(([e] + row, rest))
  {
    ReadEntryBack(e, tail);
  }

  lemma {:induction false} ReadEntriesBack(row: seq<EffectRowEntry>, rest: seq<byte>)
    requires forall i | 0 <= i < |row| :: Fits(|Payload(row[i])|)
    ensures ReadEntries(|row|, EntriesBytes(row) + rest) == Some((row, rest))
  {
    if row != [] {
      Assoc(EntryBytes(row[0]), EntriesBytes(row[1..]), rest);
      ReadEntriesBack(row[1..], rest);
      ReadEntriesCons(row[0], row[1..], EntriesBytes(row[1..]) + rest, rest);
      assert row == [row[0]] + row[1..];
    } else {
      assert EntriesBytes(row) + rest == rest;
    }
  }

  lemma ReadRowBack(row: seq<EffectRowEntry>, rest: seq<byte>)
    requires RowFits(row)
    ensures ReadRow(RowBytes(row) + rest) == Some((row, rest))
  {
    Assoc(U32Le(|row|), EntriesBytes(row), rest);
    ReadU32Back(|row|, EntriesBytes(row) + rest);
    ReadEntriesBack(row, rest);
  }

  lemma {:induction false} ReadArgumentBack(a: Argument, rest: seq<byte>)
    requires ArgumentFits(a)
    ensures ReadArgument(ArgumentBytes(a) + rest) == Some((a, rest))
    decreases a, 0
  {
    if a.UserDefined? {
      ReadTag(KindTag(a), ValueBytes(a.v), rest);
      ReadValueBack(a.v, rest);
    } else {
      ReadPlainArgumentBack(a, rest);
    }
  }

  lemma ReadPlainArgumentBack(a: Argument, rest: seq<byte>)
    requires ArgumentFits(a) && !a.UserDefined?
    ensures ReadArgument(ArgumentBytes(a) + rest) == Some((a, rest))
  {
    match a
    case Type(q) => ReadTag(KindTag(a), LengthPrefixed(q), rest); ReadStrBack(q, rest);
    case EffectRow(row) => ReadTag(KindTag(a), RowBytes(row), rest); ReadRowBack(row, rest);
    case Primitive(p) => ReadTag(KindTag(a), PrimitiveBytes(p), rest); ReadPrimitiveBack(p, rest);
    case Function(q) => ReadTag(KindTag(a), LengthPrefixed(q), rest); ReadStrBack(q, rest);
  }

  lemma ReadArgumentsCons(a: Argument, args: seq<Argument>, bytes: seq<byte>, tail: seq<byte>, rest: seq<byte>)
    requires ReadArgument(bytes + tail) == Some((a, tail)) && ReadArguments(|args|, tail) == Some((args, rest))
    ensures ReadArguments(|args| + 1, bytes + tail) == Some(([a] + args, rest))
  {
  }

  lemma {:induction false} ReadArgumentsBack(args: seq<Argument>, rest: seq<byte>)
    requires ArgumentsFit(args)
    ensures ReadArguments(|args|, ArgumentsBytes(args) + rest) == Some((args, rest))
    decreases args, 1
  {
    if args != [] {
      Assoc(ArgumentBytes(args[0]), ArgumentsBytes(args[1..]), rest);
      ReadArgumentBack(args[0], ArgumentsBytes(args[1..]) + rest);
      ReadArgumentsBack(args[1..], rest);
      ReadArgumentsCons(args[0], args[1..], ArgumentBytes(args[0]), ArgumentsBytes(args[1..]) + rest, rest);
      assert args == [args[0]] + args[1..];
    } else {
      assert ArgumentsBytes(args) + rest == rest;
    }
  }

  lemma ReadCountedArgumentsBack(args: seq<Argument>, rest: seq<byte>)
    requires Fits(|args|) && ArgumentsFit(args)
    ensures ReadCountedArguments(U32Le(|args|) + ArgumentsBytes(args) + rest) == Some((args, rest))
    decreases args, 2
  {
    Assoc(U32Le(|args|), ArgumentsBytes(args), rest);
    ReadU32Back(|args|, ArgumentsBytes(args) + rest);
    ReadArgumentsBack(args, rest);
  }

  lemma ReadFieldsCons(f: UserField, fields: seq<UserField>, value: seq<byte>, tail: seq<byte>, rest: seq<byte>)
    requires Fits(|f.name|)
    ensures ReadArgument(value + tail) == Some((f.value, tail))
            && ReadFields(|fields|, tail) == Some((fields, rest)) ==>
              ReadFields(|fields| + 1, LengthPrefixed(f.name) + value + tail) == Some(([f] + fields, rest))
  {
    Assoc(LengthPrefixed(f.name), value, tail);
    ReadStrBack(f.name, value + tail);
  }

  lemma {:induction false} ReadFieldsBack(fields: seq<UserField>, rest: seq<byte>)
    requires FieldsFit(fields)
    ensures ReadFields(|fields|, FieldsBytes(fields) + rest) == Some((fields, rest))
    decreases fields, 1
  {
    if fields != [] {
      var name, value, more := LengthPrefixed(fields[0].name), ArgumentBytes(fields[0].value), FieldsBytes(fields[1..]);
      Assoc(name + value, more, rest);
      ReadArgumentBack(fields[0].value, more + rest);
      ReadFieldsBack(fields[1..], rest);
      ReadFieldsCons(fields[0], fields[1..], value, more + rest, rest);
      assert fields == [fields[0]] + fields[1..];
    } else {
      assert FieldsBytes(fields) + rest == rest;
    }
  }

  lemma ReadCountedFieldsBack(fields: seq<UserField>, rest: seq<byte>)
    requires Fits(|fields|) && FieldsFit(fields)
    ensures ReadCountedFields(U32Le(|fields|) + FieldsBytes(fields) + rest) == Some((fields, rest))
    decreases fields, 2
  {
    Assoc(U32Le(|fields|), FieldsBytes(fields), rest);
    ReadU32Back(|fields|, FieldsBytes(fields) + rest);
    ReadFieldsBack(fields, rest);
  }

  lemma {:induction false} ReadPayloadBack(p: UserVariantPayload, rest: seq<byte>)
    requires PayloadFits(p)
    ensures ReadPayload(PayloadBytes(p) + rest) == Some((p, rest))
    decreases p, 0
  {
    match p
    case Unit => ReadTag(0x00, [], rest); assert [] + rest == rest;
    case Tuple(items) =>
      ReadTag(0x01, U32Le(|items|) + ArgumentsBytes(items), rest);
      ReadCountedArgumentsBack(items, rest);
    case Struct(fields) =>
      ReadTag(0x02, U32Le(|fields|) + FieldsBytes(fields), rest);
      ReadCountedFieldsBack(fields, rest);
  }

  lemma {:induction false} ReadValueBack(v: UserValue, rest: seq<byte>)
    requires ValueFits(v)
    ensures ReadValue(ValueBytes(v) + rest) == Some((v, rest))
    decreases v, 1
  {
    var q, shape := LengthPrefixed(v.typeQualified), [ShapeTag(v)];
    var body := ShapeBytes(v);
    Assoc(q, shape, body);
    Assoc(q, shape + body, rest);
    ReadStrBack(v.typeQualified, shape + body + rest);
    ReadTag(ShapeTag(v), body, rest);
    ReadShapeBack(v, rest);
  }

  ghost function ShapeBytes(v: UserValue): seq<byte> {
    match v
    case Record(_, fields) => U32Le(|fields|) + FieldsBytes(fields)
    case Variant(_, tag, payload) => LengthPrefixed(tag) + PayloadBytes(payload)
  }

  lemma {:induction false} ReadShapeBack(v: UserValue, rest: seq<byte>)
    requires ValueFits(v)
    ensures ReadShape(v.typeQualified, ShapeTag(v), ShapeBytes(v) + rest) == Some((v, rest))
    decreases v, 0
  {
    match v
    case Record(_, fields) => ReadCountedFieldsBack(fields, rest);
    case Variant(_, tag, payload) =>
      Assoc(LengthPrefixed(tag), PayloadBytes(payload), rest);
      ReadStrBack(tag, PayloadBytes(payload) + rest);
      ReadPayloadBack(payload, rest);
  }

  lemma ReadNestedCons(d: NestedDependency, nested: seq<NestedDependency>, tail: seq<byte>, rest: seq<byte>)
    requires NestedFits([d]) && ReadNested(|nested|, tail) == Some((nested, rest))
    ensures ReadNested(|nested| + 1, LengthPrefixed(d.qualified) + d.argumentTupleHash + tail)
         == Some(([d] + nested, rest))
  {
    assert [d][0] == d;
    Assoc(LengthPrefixed(d.qualified), d.argumentTupleHash, tail);
    ReadStrBack(d.qualified, d.argumentTupleHash + tail);
    TakeBack(d.argumentTupleHash, tail);
  }

  lemma {:induction false} ReadNestedBack(nested: seq<NestedDependency>, rest: seq<byte>)
    requires NestedFits(nested)
    ensures ReadNested(|nested|, NestedBytes(nested) + rest) == Some((nested, rest))
  {
    if nested != [] {
      var name, hash := LengthPrefixed(nested[0].qualified), nested[0].argumentTupleHash;
      var more := NestedBytes(nested[1..]);
      Assoc(name + hash, more, rest);
      ReadNestedBack(nested[1..], rest);
      ReadNestedCons(nested[0], nested[1..], more + rest, rest);
      assert nested == [nested[0]] + nested[1..];
    } else {
      assert NestedBytes(nested) + rest == rest;
    }
  }

  lemma ReadCountedNestedBack(nested: seq<NestedDependency>, rest: seq<byte>)
    requires Fits(|nested|) && NestedFits(nested)
    ensures ReadCountedNested(U32Le(|nested|) + NestedBytes(nested) + rest) == Some((nested, rest))
  {
    Assoc(U32Le(|nested|), NestedBytes(nested), rest);
    ReadU32Back(|nested|, NestedBytes(nested) + rest);
    ReadNestedBack(nested, rest);
  }

  /** Round trip, with any bytes behind: the encoding of no form is a prefix of another's. */
  lemma ReadFormBack(form: CanonicalForm, version: byte, rest: seq<byte>)
    requires FormFits(form)
    ensures ReadForm(FormBytes(form, version) + rest) == Some(((version, form), rest))
  {
    var spec := LengthPrefixed(form.specQualified);
    var args := U32Le(|form.argumentTuple|) + ArgumentsBytes(form.argumentTuple);
    var body, nested := LengthPrefixed(form.canonicalBody), U32Le(|form.nested|) + NestedBytes(form.nested);
    var b4 := nested + rest;
    var b3 := body + b4;
    var b2 := args + b3;
    var b1 := spec + b2;
    assert FormBytes(form, version) + rest == [version] + b1 by {
      Assoc([version] + spec + args + body, nested, rest);
      Assoc([version] + spec + args, body, b4);
      Assoc([version] + spec, args, b3);
      Assoc([version], spec, b2);
    }
    ReadStrBack(form.specQualified, b2);
    ReadCountedArgumentsBack(form.argumentTuple, b3);
    ReadStrBack(form.canonicalBody, b4);
    ReadCountedNestedBack(form.nested, rest);
  }

  /** Equal bytes, even with different bytes behind them, come from equal forms and versions. */
  lemma EncodingIsInjective(f: CanonicalForm, v: byte, r: seq<byte>, f': CanonicalForm, v': byte, r': seq<byte>)
    requires FormFits(f) && FormFits(f')
    requires FormBytes(f, v) + r == FormBytes(f', v') + r'
    ensures f == f' && v == v' && r == r'
  {
    ReadFormBack(f, v, r);
    ReadFormBack(f', v', r');
  }

  /** `compute_hash`. */
  function ComputeHash(digest: seq<byte> -> Hash32, form: CanonicalForm, version: byte): Hash32 {
    digest(FormBytes(form, version))
  }

  /** Content addressing is sound: unless the digest collides on the two encodings, the hash identifies the form. */
  lemma HashIdentifiesForm(digest: seq<byte> -> Hash32, f: CanonicalForm, v: byte, f': CanonicalForm, v': byte)
    requires FormFits(f) && FormFits(f')
    requires digest(FormBytes(f, v)) == digest(FormBytes(f', v')) ==> FormBytes(f, v) == FormBytes(f', v')
    ensures ComputeHash(digest, f, v) == ComputeHash(digest, f', v') <==> f == f' && v == v'
  {
    if ComputeHash(digest, f, v) == ComputeHash(digest, f', v') {
      assert FormBytes(f, v) + [] == FormBytes(f, v) == FormBytes(f', v') == FormBytes(f', v') + [];
      EncodingIsInjective(f, v, [], f', v', []);
    }
  }

  /** Canonicalised effect rows have equal bytes exactly when they were built from the same set. */
  lemma RowBytesEqualIffSameSet(a: seq<EffectRowEntry>, b: seq<EffectRowEntry>)
    requires RowFits(NewRow(a)) && RowFits(NewRow(b))
    ensures ArgumentBytes(EffectRow(NewRow(a))) == ArgumentBytes(EffectRow(NewRow(b))) <==> Elements(a) == Elements(b)
  {
    RowsEqualIffSameSet(a, b);
    var x, y := EffectRow(NewRow(a)), EffectRow(NewRow(b));
    if ArgumentBytes(x) == ArgumentBytes(y) {
      ReadArgumentBack(x, []);
      ReadArgumentBack(y, []);
    }
  }

  // ----- Exactly the fitting forms survive -----

  lemma ReadPrimitiveFits(bs: seq<byte>)
    ensures ReadPrimitive(bs).Some? ==> PrimitiveFits(ReadPrimitive(bs).value.0)
  {
    if ReadByte(bs).Some? {
      var (tag, rest) := ReadByte(bs).value;
      if tag != 0x0c && WidthOf(tag) != 0 && ReadLe(WidthOf(tag), rest).Some? {
        Widths();
        var n := ReadLe(WidthOf(tag), rest).value.0;
        assert FixedValue(tag, n).Some? ==> !FixedValue(tag, n).value.String?;
      }
    }
  }

  lemma {:induction false} ReadEntriesFit(n: nat, bs: seq<byte>)
    ensures ReadEntries(n, bs).Some? ==>
              forall i | 0 <= i < n :: Fits(|Payload(ReadEntries(n, bs).value.0[i])|)
    decreases n
  {
    if n > 0 && ReadEntry(bs).Some? { ReadEntriesFit(n - 1, ReadEntry(bs).value.1); }
  }

  lemma ReadRowFits(bs: seq<byte>)
    ensures ReadRow(bs).Some? ==> RowFits(ReadRow(bs).value.0)
  {
    if ReadLe(4, bs).Some? { ReadEntriesFit(ReadLe(4, bs).value.0, ReadLe(4, bs).value.1); }
  }

  lemma {:induction false} ReadArgumentFits(bs: seq<byte>)
    ensures ReadArgument(bs).Some? ==> ArgumentFits(ReadArgument(bs).value.0)
    decreases |bs|, 0
  {
    if ReadArgument(bs).Some? {
      var (tag, rest) := ReadByte(bs).value;
      match tag
      case 0x02 => ReadRowFits(rest);
      case 0x03 => ReadPrimitiveFits(rest);
      case 0x04 => ReadValueFits(rest);
      case _ =>
    }
  }

  lemma {:induction false} ReadArgumentsFit(n: nat, bs: seq<byte>)
    ensures ReadArguments(n, bs).Some? ==> ArgumentsFit(ReadArguments(n, bs).value.0)
    decreases |bs|, 1
  {
    if n > 0 && ReadArguments(n, bs).Some? {
      var (a, rest) := ReadArgument(bs).value;
      ReadArgumentFits(bs);
      ReadArgumentsFit(n - 1, rest);
      var more := ReadArguments(n - 1, rest).value.0;
      assert ([a] + more)[1..] == more;
    }
  }

  lemma {:induction false} ReadFieldsFit(n: nat, bs: seq<byte>)
    ensures ReadFields(n, bs).Some? ==> FieldsFit(ReadFields(n, bs).value.0)
    decreases |bs|, 1
  {
    if n > 0 && ReadFields(n, bs).Some? {
      var (name, rest) := ReadStr(bs).value;
      var (a, rest') := ReadArgument(rest).value;
      ReadArgumentFits(rest);
      ReadFieldsFit(n - 1, rest');
      var more := ReadFields(n - 1, rest').value.0;
      assert ([UserField(name, a)] + more)[1..] == more;
    }
  }

  lemma ReadCountedArgumentsFit(bs: seq<byte>)
    ensures ReadCountedArguments(bs).Some? ==> ArgumentsFit(ReadCountedArguments(bs).value.0)
    decreases |bs|, 2
  {
    if ReadLe(4, bs).Some? { ReadArgumentsFit(ReadLe(4, bs).value.0, ReadLe(4, bs).value.1); }
  }

  lemma ReadCountedFieldsFit(bs: seq<byte>)
    ensures ReadCountedFields(bs).Some? ==> FieldsFit(ReadCountedFields(bs).value.0)
    decreases |bs|, 2
  {
    if ReadLe(4, bs).Some? { ReadFieldsFit(ReadLe(4, bs).value.0, ReadLe(4, bs).value.1); }
  }

  lemma {:induction false} ReadValueFits(bs: seq<byte>)
    ensures ReadValue(bs).Some? ==> ValueFits(ReadValue(bs).value.0)
    decreases |bs|, 4
  {
    if ReadValue(bs).Some? {
      var (q, rest) := ReadStr(bs).value;
      var (shape, body) := ReadByte(rest).value;
      assert ReadShape(q, shape, body).Some?;
      if shape == 0x00 {
        ReadCountedFieldsFit(body);
      } else {
        var (tag, rest') := ReadStr(body).value;
        ReadPayloadFits(rest');
      }
    }
  }

  lemma {:induction false} ReadPayloadFits(bs: seq<byte>)
    ensures ReadPayload(bs).Some? ==> PayloadFits(ReadPayload(bs).value.0)
    decreases |bs|, 3
  {
    if ReadPayload(bs).Some? {
      var (tag, rest) := ReadByte(bs).value;
      if tag == 0x01 { ReadCountedArgumentsFit(rest); }
      if tag == 0x02 { ReadCountedFieldsFit(rest); }
    }
  }

  lemma {:induction false} ReadNestedFits(n: nat, bs: seq<byte>)
    ensures ReadNested(n, bs).Some? ==> NestedFits(ReadNested(n, bs).value.0)
    decreases n
  {
    if n > 0 && ReadNested(n, bs).Some? {
      var (q, rest) := ReadStr(bs).value;
      var (h, rest') := Take(32, rest).value;
      ReadNestedFits(n - 1, rest');
      var more := ReadNested(n - 1, rest').value.0;
      assert ([NestedDependency(q, h)] + more)[1..] == more;
    }
  }

  lemma ReadFormFits(bs: seq<byte>)
    ensures ReadForm(bs).Some? ==> FormFits(ReadForm(bs).value.0.1)
  {
    if ReadForm(bs).Some? {
      var b1 := ReadByte(bs).value.1;
      var b2 := ReadStr(b1).value.1;
      var b3 := ReadCountedArguments(b2).value.1;
      var b4 := ReadStr(b3).value.1;
      ReadCountedArgumentsFit(b2);
      var (n, rest) := ReadLe(4, b4).value;
      ReadNestedFits(n, rest);
    }
  }

  /** A form survives encoding exactly when every length in it fits 32 bits. */
  lemma RoundTripsIffFits(form: CanonicalForm, version: byte)
    ensures ReadForm(FormBytes(form, version)) == Some(((version, form), [])) <==> FormFits(form)
  {
    assert FormBytes(form, version) + [] == FormBytes(form, version);
    if FormFits(form) { ReadFormBack(form, version, []); }
    ReadFormFits(FormBytes(form, version));
  }

  // ----- What the truncating cast does beyond 2^32 -----

  /** One nested dependency, spelt as the start of a body of exactly 2^32 bytes. */
  ghost function OversizedBody(q: Str, h: Hash32): seq<byte> {
    U32Le(1) + (LengthPrefixed(q) + h[..28])
  }

  lemma ZeroLe()
    ensures U32Le(0) == [0, 0, 0, 0]
  {
    assert LeBytes(0, 0) == [] && LeBytes(0, 1) == [0] && LeBytes(0, 2) == [0, 0] && LeBytes(0, 3) == [0, 0, 0];
  }

  lemma OversizedTail(q: Str, h: Hash32)
    requires |q| == U32_LIMIT - 36 && h[28..] == [0, 0, 0, 0]
    ensures |OversizedBody(q, h)| == U32_LIMIT
    ensures LengthPrefixed(OversizedBody(q, h)) + (U32Le(0) + NestedBytes([]))
         == LengthPrefixed([]) + (U32Le(1) + NestedBytes([NestedDependency(q, h)]))
  {
    ZeroLe();
    var body, dep := OversizedBody(q, h), NestedDependency(q, h);
    assert [dep][1..] == [];
    assert NestedBytes([dep]) == LengthPrefixed(q) + h + NestedBytes([]);
    assert U32Le(|body|) == U32Le(0);
    assert h[..28] + [0, 0, 0, 0] == h;
    calc {
      LengthPrefixed(body) + (U32Le(0) + NestedBytes([]));
      U32Le(0) + (body + [0, 0, 0, 0]);
      U32Le(0) + (U32Le(1) + (LengthPrefixed(q) + (h[..28] + [0, 0, 0, 0])));
      U32Le(0) + (U32Le(1) + (LengthPrefixed(q) + h));
      LengthPrefixed([]) + (U32Le(1) + NestedBytes([dep]));
    }
  }

  /** A body of exactly 2^32 bytes is announced as empty, so two different forms get the same bytes,
      whatever their spec name, arguments and version; the second of them fits. */
  lemma OversizedBodyCollides(spec: Str, args: seq<Argument>, version: byte, q: Str, h: Hash32)
    requires |q| == U32_LIMIT - 36 && h[28..] == [0, 0, 0, 0]
    requires Fits(|spec|) && Fits(|args|) && ArgumentsFit(args)
    ensures var big := CanonicalForm(spec, args, OversizedBody(q, h), []);
            var small := CanonicalForm(spec, args, [], [NestedDependency(q, h)]);
            big != small && FormFits(small) && FormBytes(big, version) == FormBytes(small, version)
  {
    OversizedTail(q, h);
    var head := [version] + LengthPrefixed(spec) + (U32Le(|args|) + ArgumentsBytes(args));
    Assoc(head, LengthPrefixed(OversizedBody(q, h)), U32Le(0) + NestedBytes([]));
    Assoc(head, LengthPrefixed([]), U32Le(1) + NestedBytes([NestedDependency(q, h)]));
    assert NestedFits([NestedDependency(q, h)][1..]);
  }
}
