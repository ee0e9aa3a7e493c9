/** Size and alignment of types (`edda-comptime/src/layout.rs`).

    `Arith` selects 64-bit words, as the source computes, or unbounded integers, the reference that the
    word arithmetic is compared with. */
module Layouts {
  import opened Bytes
  import opened Rounding

  datatype Primitive =
    | BoolTy | I8 | U8 | I16 | U16 | I32 | U32 | F32 | Codepoint | I64 | U64Ty | F64 | I128 | U128
    | Isize | Usize | HeapPtr | UnitTy | Never | StringTy | MetaType

  datatype Arch = X86_64 | Aarch64 | Riscv64 | Wasm64 | Wasm32

  datatype Layout = Layout(size: nat, align: nat)

  datatype Unsupported =
    | UninhabitedNever | DeferredString | SliceDeferred | NominalDeferred | MetaHasNoRuntimeForm
    | CapabilityHasNoLayout | FnPtrDeferred | ErrorPlaceholder

  type TyId = nat
  type BindingId = nat

  datatype Kind =
    | PrimitiveKind(p: Primitive)
    | Tuple(parts: seq<TyId>)
    | Slice(elem: TyId)
    | Nominal(binding: BindingId)
    | Capability
    | FnPtr
    | ErrorKind

  datatype Shape = Product(fields: seq<TyId>) | Sum

  /** The type interner, the declaration lookup and the target. */
  datatype Context = Context(kinds: seq<Kind>, decls: map<BindingId, Shape>, arch: Arch)

  datatype Arith = Word | Unbounded

  function PointerBytes(arch: Arch): nat {
    if arch.Wasm32? then 4 else 8
  }

  /** `Layout::primitive`. */
  function PrimitiveLayout(p: Primitive, arch: Arch): (r: Result<Layout, Unsupported>)
    ensures r.Ok? ==> IsAlign(r.value.align) && r.value.size % r.value.align == 0 && r.value.size <= 16
  {
    match p
    case BoolTy | I8 | U8 => Ok(Layout(1, 1))
    case I16 | U16 => Ok(Layout(2, 2))
    case I32 | U32 | F32 | Codepoint => Ok(Layout(4, 4))
    case I64 | U64Ty | F64 => Ok(Layout(8, 8))
    case I128 | U128 => Ok(Layout(16, 16))
    case Isize | Usize | HeapPtr => Ok(Layout(PointerBytes(arch), PointerBytes(arch)))
    case UnitTy => Ok(Layout(0, 1))
    case Never => Err(UninhabitedNever)
    case StringTy => Err(DeferredString)
    case MetaType => Err(MetaHasNoRuntimeForm)
  }

  /** The whole table, in bits: each type by the width in its name. */
  ghost function PrimitiveBits(p: Primitive, arch: Arch): Option<nat> {
    if p in {I8, U8, BoolTy} then Some(8)
    else if p in {I16, U16} then Some(16)
    else if p in {I32, U32, F32, Codepoint} then Some(32)
    else if p in {I64, U64Ty, F64} then Some(64)
    else if p in {I128, U128} then Some(128)
    else if p in {Isize, Usize, HeapPtr} then Some(if arch == Wasm32 then 32 else 64)
    else if p == UnitTy then Some(0)
    else None
  }

  /** A primitive takes its bits and is aligned to its size, the unit to one byte. */
  lemma PrimitiveTable(p: Primitive, arch: Arch)
    ensures PrimitiveLayout(p, arch).Ok? <==> PrimitiveBits(p, arch).Some?
    ensures PrimitiveBits(p, arch).Some? ==>
              var bytes := PrimitiveBits(p, arch).value / 8;
              PrimitiveLayout(p, arch) == Ok(Layout(bytes, if bytes == 0 then 1 else bytes))
  {
  }

  // ----- Alignments -----

  predicate IsAlign(a: nat) {
    a == 1 || a == 2 || a == 4 || a == 8 || a == 16
  }

  lemma MaskRoundsUpTo(v: nat, a: nat)
    requires IsAlign(a) && v < U64
    ensures RoundUp(v, a) == if CeilTo(v, a) < U64 then CeilTo(v, a) else 0
    ensures v + a - 1 < U64 <==> CeilTo(v, a) < U64
  {
    var k := if a == 1 then 0 else if a == 2 then 1 else if a == 4 then 2 else if a == 8 then 3 else 4;
    assert Pow2(k) == a;
    MaskRoundsUp(v, k);
  }

  function Max(a: nat, b: nat): nat {
    if b > a then b else a
  }

  // ----- One aggregate -----

  /** A layout a word machine can hold. */
  predicate Held(m: Arith, l: Layout) {
    IsAlign(l.align) && (m.Word? ==> l.size < U64)
  }

  function Round(m: Arith, v: nat, a: nat): (r: nat)
    requires IsAlign(a) && (m.Word? ==> v < U64)
    ensures r == if m.Word? && CeilTo(v, a) >= U64 then 0 else CeilTo(v, a)
  {
    if m.Word? then
      MaskRoundsUpTo(v, a);
      RoundUp(v, a)
    else CeilTo(v, a)
  }

  /** `saturating_add`. */
  function Plus(m: Arith, x: nat, y: nat): nat {
    if m.Word? && x + y >= U64 then U64 - 1 else x + y
  }

  function Step(m: Arith, acc: Layout, l: Layout): (r: Layout)
    requires Held(m, acc) && Held(m, l)
    ensures Held(m, r)
  {
    Layout(Plus(m, Round(m, acc.size, l.align), l.size), Max(acc.align, l.align))
  }

  ghost predicate AllHeld(m: Arith, ls: seq<Layout>) {
    forall i | 0 <= i < |ls| :: Held(m, ls[i])
  }

  /** The running size and alignment after the given fields. */
  ghost function Run(m: Arith, ls: seq<Layout>): (r: Layout)
    requires AllHeld(m, ls)
    ensures Held(m, r)
  {
    if ls == [] then Layout(0, 1) else Step(m, Run(m, ls[..|ls| - 1]), ls[|ls| - 1])
  }

  lemma RunExtended(m: Arith, ls: seq<Layout>, l: Layout)
    requires AllHeld(m, ls) && Held(m, l)
    ensures AllHeld(m, ls + [l]) && Run(m, ls + [l]) == Step(m, Run(m, ls), l)
  {
    assert (ls + [l])[..|ls|] == ls;
  }

  ghost function Aggregate(m: Arith, ls: seq<Layout>): (r: Layout)
    requires AllHeld(m, ls)
    ensures Held(m, r)
  {
    var acc := Run(m, ls);
    Layout(Round(m, acc.size, acc.align), acc.align)
  }

  // ----- Recursion through the type table -----

  function Children(cx: Context, ty: TyId): seq<TyId>
    requires ty < |cx.kinds|
  {
    match cx.kinds[ty]
    case Tuple(parts) => parts
    case Nominal(b) => if b in cx.decls && cx.decls[b].Product? then cx.decls[b].fields else []
    case _ => []
  }

  /** The ranked types are closed under components, and none contains itself: every component ranks below its
      aggregate. Other types of the table are left alone. */
  ghost predicate Ranked(cx: Context, rank: map<TyId, nat>) {
    forall ty | ty in rank :: ty < |cx.kinds| && Below(rank, Children(cx, ty), rank[ty])
  }

  ghost predicate Below(rank: map<TyId, nat>, tys: seq<TyId>, top: nat) {
    forall i | 0 <= i < |tys| :: tys[i] in rank && rank[tys[i]] < top
  }

  /** The blocker a type that is not an aggregate carries, or its layout. */
  function Leaf(cx: Context, ty: TyId): (r: Result<Layout, Unsupported>)
    requires ty < |cx.kinds|
    ensures r.Ok? ==> Held(Word, r.value) && Held(Unbounded, r.value) && r.value.size % r.value.align == 0
  {
    match cx.kinds[ty]
    case PrimitiveKind(p) => PrimitiveLayout(p, cx.arch)
    case Slice(_) => Err(SliceDeferred)
    case Capability => Err(CapabilityHasNoLayout)
    case FnPtr => Err(FnPtrDeferred)
    case ErrorKind => Err(ErrorPlaceholder)
    case _ => Err(NominalDeferred)
  }

  predicate IsAggregate(cx: Context, ty: TyId)
    requires ty < |cx.kinds|
  {
    var kind := cx.kinds[ty];
    kind.Tuple? || (kind.Nominal? && kind.binding in cx.decls && cx.decls[kind.binding].Product?)
  }

  /** The layout of a type. */
  ghost function LayoutOf(m: Arith, cx: Context, rank: map<TyId, nat>, ty: TyId): (r: Result<Layout, Unsupported>)
    requires Ranked(cx, rank) && ty in rank
    ensures r.Ok? ==> Held(m, r.value)
    decreases rank[ty], 1, 0
  {
    if !IsAggregate(cx, ty) then Leaf(cx, ty)
    else
      match LayoutsOf(m, cx, rank, Children(cx, ty), rank[ty])
      case Ok(ls) => Ok(Aggregate(m, ls))
      case Err(e) => Err(e)
  }

  /** The layouts of the components in order, or the first failure. */
  ghost function LayoutsOf(m: Arith, cx: Context, rank: map<TyId, nat>, tys: seq<TyId>, top: nat)
    : (r: Result<seq<Layout>, Unsupported>)
    requires Ranked(cx, rank) && Below(rank, tys, top)
    ensures r.Ok? ==> |r.value| == |tys| && AllHeld(m, r.value)
    decreases top, 0, |tys|
  {
    if tys == [] then Ok([])
    else
      var n := |tys| - 1;
      match LayoutsOf(m, cx, rank, tys[..n], top)
      case Err(e) => Err(e)
      case Ok(ls) =>
        match LayoutOf(m, cx, rank, tys[n])
        case Err(e) => Err(e)
        case Ok(l) => Ok(ls + [l])
  }

  /** The ranking only shows that the recursion ends. */
  lemma {:induction false} RankIsIrrelevant(m: Arith, cx: Context, rank: map<TyId, nat>, other: map<TyId, nat>,
                                            ty: TyId)
    requires Ranked(cx, rank) && Ranked(cx, other) && ty in rank && ty in other
    ensures LayoutOf(m, cx, rank, ty) == LayoutOf(m, cx, other, ty)
    decreases rank[ty], 1, 0
  {
    if IsAggregate(cx, ty) {
      RanksAreIrrelevant(m, cx, rank, other, Children(cx, ty), rank[ty], other[ty]);
    }
  }

  lemma {:induction false} RanksAreIrrelevant(m: Arith, cx: Context, rank: map<TyId, nat>, other: map<TyId, nat>,
                                              tys: seq<TyId>, top: nat, otherTop: nat)
    requires Ranked(cx, rank) && Ranked(cx, other) && Below(rank, tys, top) && Below(other, tys, otherTop)
    ensures LayoutsOf(m, cx, rank, tys, top) == LayoutsOf(m, cx, other, tys, otherTop)
    decreases top, 0, |tys|
  {
    if tys != [] {
      var n := |tys| - 1;
      RanksAreIrrelevant(m, cx, rank, other, tys[..n], top, otherTop);
      RankIsIrrelevant(m, cx, rank, other, tys[n]);
    }
  }

  // ----- The source's functions -----

  /** `layout_with_decls`, reached from `of_ty` with an empty lookup and from `of_ty_with_decls`. */
  method LayoutWithDecls(cx: Context, ty: TyId, ghost rank: map<TyId, nat>) returns (r: Result<Layout, Unsupported>)
    requires Ranked(cx, rank) && ty in rank
    ensures r == LayoutOf(Word, cx, rank, ty)
    decreases rank[ty], 1
  {
    match cx.kinds[ty]
    case PrimitiveKind(p) => r := PrimitiveLayout(p, cx.arch);
    case Tuple(parts) => r := LayoutAggregate(cx, parts, rank, rank[ty]);
    case Slice(_) => r := Err(SliceDeferred);
    case Nominal(b) =>
      if b !in cx.decls {
        r := Err(NominalDeferred);
      } else {
        match cx.decls[b]
        case Product(fields) => r := LayoutAggregate(cx, fields, rank, rank[ty]);
        case Sum => r := Err(NominalDeferred);
      }
    case Capability => r := Err(CapabilityHasNoLayout);
    case FnPtr => r := Err(FnPtrDeferred);
    case ErrorKind => r := Err(ErrorPlaceholder);
  }

  /** `layout_aggregate`. */
  method LayoutAggregate(cx: Context, fields: seq<TyId>, ghost rank: map<TyId, nat>, ghost top: nat)
    returns (r: Result<Layout, Unsupported>)
    requires Ranked(cx, rank) && Below(rank, fields, top)
    ensures r == match LayoutsOf(Word, cx, rank, fields, top)
                 case Ok(ls) => Ok(Aggregate(Word, ls))
                 case Err(e) => Err(e)
    decreases top, 0
  {
    var size: nat, align: nat := 0, 1;
    ghost var ls: seq<Layout> := [];
    for i := 0 to |fields|
      invariant LayoutsOf(Word, cx, rank, fields[..i], top) == Ok(ls)
      invariant Layout(size, align) == Run(Word, ls)
    {
      var l := LayoutWithDecls(cx, fields[i], rank);
      assert fields[..i + 1][..i] == fields[..i];
      if l.Err? {
        FirstFailure(cx, rank, fields, top, i + 1);
        return Err(l.error);
      }
      size := Round(Word, size, l.value.align);
      size := Plus(Word, size, l.value.size);
      if l.value.align > align {
        align := l.value.align;
      }
      RunExtended(Word, ls, l.value);
      ls := ls + [l.value];
    }
    assert fields[..|fields|] == fields;
    size := Round(Word, size, align);
    r := Ok(Layout(size, align));
  }

  /** A failing prefix makes the whole sequence fail the same way. */
  lemma {:induction false} FirstFailure(cx: Context, rank: map<TyId, nat>, tys: seq<TyId>, top: nat, k: nat)
    requires Ranked(cx, rank) && Below(rank, tys, top) && k <= |tys|
    requires LayoutsOf(Word, cx, rank, tys[..k], top).Err?
    ensures LayoutsOf(Word, cx, rank, tys, top) == LayoutsOf(Word, cx, rank, tys[..k], top)
    decreases |tys|
  {
    if k == |tys| {
      assert tys[..k] == tys;
    } else {
      var n := |tys| - 1;
      assert tys[..n][..k] == tys[..k];
      FirstFailure(cx, rank, tys[..n], top, k);
    }
  }

  // ----- Packing -----

  /** Fields in declaration order, each aligned, none overlapping the one before, all within `size`. */
  ghost predicate Placement(ls: seq<Layout>, offsets: seq<nat>, size: nat) {
    && |offsets| == |ls|
    && AllHeld(Unbounded, ls)
    && (forall i | 0 <= i < |ls| :: offsets[i] % ls[i].align == 0)
    && (forall i, j | 0 <= i < j < |ls| :: offsets[i] + ls[i].size <= offsets[j])
    && (forall i | 0 <= i < |ls| :: offsets[i] + ls[i].size <= size)
  }

  /** Where each field starts. */
  ghost function Offsets(ls: seq<Layout>): (r: seq<nat>)
    requires AllHeld(Unbounded, ls)
    ensures |r| == |ls|
  {
    if ls == [] then []
    else Offsets(ls[..|ls| - 1]) + [CeilTo(Run(Unbounded, ls[..|ls| - 1]).size, ls[|ls| - 1].align)]
  }

  lemma PlacementExtends(ls: seq<Layout>, offsets: seq<nat>, size: nat, l: Layout, o: nat)
    requires Placement(ls, offsets, size) && Held(Unbounded, l) && o % l.align == 0 && size <= o
    ensures Placement(ls + [l], offsets + [o], o + l.size)
  {
    var ls', offsets' := ls + [l], offsets + [o];
    forall i, j | 0 <= i < j < |ls'| ensures offsets'[i] + ls'[i].size <= offsets'[j] {
      assert offsets'[i] == offsets[i] && ls'[i] == ls[i];
    }
  }

  /** The running size places every field so far. */
  lemma {:induction false} RunPlaces(ls: seq<Layout>)
    requires AllHeld(Unbounded, ls)
    ensures Placement(ls, Offsets(ls), Run(Unbounded, ls).size)
  {
    if ls != [] {
      var n := |ls| - 1;
      RunPlaces(ls[..n]);
      var end := Run(Unbounded, ls[..n]).size;
      PlacementExtends(ls[..n], Offsets(ls[..n]), end, ls[n], CeilTo(end, ls[n].align));
      assert ls[..n] + [ls[n]] == ls;
    }
  }

  /** No placement in declaration order starts any field earlier or is shorter. */
  lemma {:induction false} RunIsLeast(ls: seq<Layout>, offsets: seq<nat>, size: nat)
    requires Placement(ls, offsets, size)
    ensures Run(Unbounded, ls).size <= size && forall i | 0 <= i < |ls| :: Offsets(ls)[i] <= offsets[i]
  {
    if ls != [] {
      var n := |ls| - 1;
      RunIsLeast(ls[..n], offsets[..n], offsets[n]);
      CeilIsLeast(Run(Unbounded, ls[..n]).size, ls[n].align, offsets[n]);
    }
  }

  lemma {:induction false} RunAlign(m: Arith, ls: seq<Layout>)
    requires AllHeld(m, ls)
    ensures forall i | 0 <= i < |ls| :: ls[i].align <= Run(m, ls).align
    ensures Run(m, ls).align == 1 || exists i :: 0 <= i < |ls| && ls[i].align == Run(m, ls).align
  {
    if ls != [] {
      RunAlign(m, ls[..|ls| - 1]);
    }
  }

  lemma AlignDivides(a: nat, b: nat, x: nat)
    requires IsAlign(a) && IsAlign(b) && a <= b && x % b == 0
    ensures x % a == 0
  {
    if b != a {
      var h := if b == 16 then 8 else if b == 8 then 4 else if b == 4 then 2 else 1;
      HalfDivides(h, x);
      AlignDivides(a, h, x);
    }
  }

  lemma HalfDivides(h: nat, x: nat)
    requires h > 0 && x % (2 * h) == 0
    ensures x % h == 0
  {
    Remainder(x, 2 * (x / (2 * h)), h, 0);
  }

  /** What an aggregate's layout promises on unbounded integers: the alignment is the largest of the fields';
      the size is a multiple of it, has room for every field at an aligned offset, and no other placement
      in declaration order with such a size is shorter. */
  lemma AggregateIsTightest(ls: seq<Layout>, offsets: seq<nat>, size: nat)
    requires AllHeld(Unbounded, ls)
    ensures var r := Aggregate(Unbounded, ls);
      && r.size % r.align == 0
      && Placement(ls, Offsets(ls), r.size)
      && (forall i | 0 <= i < |ls| :: ls[i].align <= r.align && r.align % ls[i].align == 0)
      && (r.align == 1 || exists i :: 0 <= i < |ls| && ls[i].align == r.align)
      && (Placement(ls, offsets, size) && size % r.align == 0 ==>
            r.size <= size && forall i | 0 <= i < |ls| :: Offsets(ls)[i] <= offsets[i])
  {
    var r := Aggregate(Unbounded, ls);
    RunPlaces(ls);
    RunAlign(Unbounded, ls);
    forall i | 0 <= i < |ls| ensures r.align % ls[i].align == 0 {
      AlignDivides(ls[i].align, r.align, r.align);
    }
    if Placement(ls, offsets, size) && size % r.align == 0 {
      RunIsLeast(ls, offsets, size);
      CeilIsLeast(Run(Unbounded, ls).size, r.align, size);
    }
  }

  lemma FieldIsAligned(ls: seq<Layout>, i: nat)
    requires AllHeld(Unbounded, ls) && i < |ls|
    ensures var r := Aggregate(Unbounded, ls);
      r.size % r.align == 0 && Offsets(ls)[i] % ls[i].align == 0 && ls[i].align <= r.align
  {
    RunPlaces(ls);
    RunAlign(Unbounded, ls);
  }

  /** In an array of aggregates every field of every element keeps its alignment. */
  lemma {:induction false} ArrayElementsStayAligned(ls: seq<Layout>, base: nat, n: nat, i: nat)
    requires AllHeld(Unbounded, ls) && i < |ls|
    requires base % Aggregate(Unbounded, ls).align == 0
    ensures var r := Aggregate(Unbounded, ls); (base + n * r.size + Offsets(ls)[i]) % ls[i].align == 0
  {
    var r := Aggregate(Unbounded, ls);
    FieldIsAligned(ls, i);
    MultipleTimes(r.size, n, r.align);
    AlignedSum(base, n * r.size, Offsets(ls)[i], ls[i].align, r.align);
  }

  lemma SumOfMultiples(x: nat, y: nat, a: nat)
    requires IsAlign(a) && x % a == 0 && y % a == 0
    ensures (x + y) % a == 0
  {
    assert (x / a + y / a) * a == x / a * a + y / a * a;
    Remainder(x + y, x / a + y / a, a, 0);
  }

  lemma AlignedSum(x: nat, y: nat, o: nat, a: nat, b: nat)
    requires IsAlign(a) && IsAlign(b) && a <= b && x % b == 0 && y % b == 0 && o % a == 0
    ensures (x + y + o) % a == 0
  {
    SumOfMultiples(x, y, b);
    AlignDivides(a, b, x + y);
    SumOfMultiples(x + y, o, a);
  }

  lemma {:induction false} MultipleTimes(x: nat, n: nat, a: nat)
    requires IsAlign(a) && x % a == 0
    ensures n * x % a == 0
  {
    if n > 0 {
      MultipleTimes(x, n - 1, a);
      assert n * x == (n - 1) * x + x;
      SumOfMultiples((n - 1) * x, x, a);
    }
  }

  ghost function Total(ls: seq<Layout>): nat {
    if ls == [] then 0 else Total(ls[..|ls| - 1]) + ls[|ls| - 1].size
  }

  /** `n * c` by repeated addition. */
  ghost function Times(n: nat, c: nat): (r: nat)
    ensures r == n * c
  {
    if n == 0 then 0 else Times(n - 1, c) + c
  }

  lemma {:induction false} RunPadding(ls: seq<Layout>, a: nat)
    requires AllHeld(Unbounded, ls) && ls != [] && forall i | 0 <= i < |ls| :: 1 <= ls[i].align <= a
    ensures Total(ls) <= Run(Unbounded, ls).size <= Total(ls) + Times(|ls| - 1, a - 1)
    decreases |ls|
  {
    var n := |ls| - 1;
    if n > 0 {
      RunPadding(ls[..n], a);
      StepBounds(Run(Unbounded, ls[..n]), ls[n]);
    } else {
      assert ls[..0] == [];
    }
  }

  lemma StepBounds(acc: Layout, l: Layout)
    requires Held(Unbounded, acc) && Held(Unbounded, l)
    ensures acc.size + l.size <= Step(Unbounded, acc, l).size <= acc.size + l.size + (l.align - 1)
  {
  }

  /** Padding is at most `align - 1` bytes per field. */
  lemma PaddingBound(ls: seq<Layout>)
    requires AllHeld(Unbounded, ls)
    ensures var r := Aggregate(Unbounded, ls); Total(ls) <= r.size <= Total(ls) + |ls| * (r.align - 1)
  {
    var r := Aggregate(Unbounded, ls);
    if ls != [] {
      RunAlign(Unbounded, ls);
      RunPadding(ls, r.align);
      assert Times(|ls|, r.align - 1) == Times(|ls| - 1, r.align - 1) + (r.align - 1);
    }
  }

  // ----- Words against unbounded integers -----

  /** The word layout has the true alignment, and the true size exactly when that size fits a word. */
  ghost predicate Faithful(word: Layout, ideal: Layout) {
    && Held(Word, word) && Held(Unbounded, ideal)
    && word.align == ideal.align
    && (word.size == ideal.size <==> ideal.size < U64)
  }

  ghost predicate AllFaithful(word: seq<Layout>, ideal: seq<Layout>) {
    && |word| == |ideal| && AllHeld(Word, word) && AllHeld(Unbounded, ideal)
    && forall i | 0 <= i < |word| :: Faithful(word[i], ideal[i])
  }

  lemma StepIsFaithful(word: Layout, ideal: Layout, l: Layout, l': Layout)
    requires Faithful(word, ideal) && Faithful(l, l')
    ensures Faithful(Step(Word, word, l), Step(Unbounded, ideal, l'))
  {
    StepBounds(ideal, l');
  }

  lemma {:induction false} RunIsFaithful(word: seq<Layout>, ideal: seq<Layout>)
    requires AllFaithful(word, ideal)
    ensures Faithful(Run(Word, word), Run(Unbounded, ideal))
  {
    if word != [] {
      var n := |word| - 1;
      RunIsFaithful(word[..n], ideal[..n]);
      StepIsFaithful(Run(Word, word[..n]), Run(Unbounded, ideal[..n]), word[n], ideal[n]);
    }
  }

  lemma AggregateIsFaithful(word: seq<Layout>, ideal: seq<Layout>)
    requires AllFaithful(word, ideal)
    ensures Faithful(Aggregate(Word, word), Aggregate(Unbounded, ideal))
  {
    RunIsFaithful(word, ideal);
  }

  ghost predicate SameOutcome(word: Result<Layout, Unsupported>, ideal: Result<Layout, Unsupported>) {
    if ideal.Ok? then word.Ok? && Faithful(word.value, ideal.value) else word == ideal
  }

  ghost predicate SameOutcomes(word: Result<seq<Layout>, Unsupported>, ideal: Result<seq<Layout>, Unsupported>) {
    if ideal.Ok? then word.Ok? && AllFaithful(word.value, ideal.value) else word == ideal
  }

  /** Sixty-four bits are enough exactly for the types whose true size is below `2^64`, however they nest:
      wrapping and saturation show on no other type. Alignments and failures never depend on the width. */
  lemma {:induction false} WordLayoutIsFaithful(cx: Context, rank: map<TyId, nat>, ty: TyId)
    requires Ranked(cx, rank) && ty in rank
    ensures SameOutcome(LayoutOf(Word, cx, rank, ty), LayoutOf(Unbounded, cx, rank, ty))
    decreases rank[ty], 1, 0
  {
    if IsAggregate(cx, ty) {
      WordLayoutsAreFaithful(cx, rank, Children(cx, ty), rank[ty]);
      var word, ideal := LayoutsOf(Word, cx, rank, Children(cx, ty), rank[ty]),
                         LayoutsOf(Unbounded, cx, rank, Children(cx, ty), rank[ty]);
      if ideal.Ok? {
        AggregateIsFaithful(word.value, ideal.value);
      }
    }
  }

  lemma {:induction false} WordLayoutsAreFaithful(cx: Context, rank: map<TyId, nat>, tys: seq<TyId>, top: nat)
    requires Ranked(cx, rank) && Below(rank, tys, top)
    ensures SameOutcomes(LayoutsOf(Word, cx, rank, tys, top), LayoutsOf(Unbounded, cx, rank, tys, top))
    decreases top, 0, |tys|
  {
    if tys != [] {
      var n := |tys| - 1;
      WordLayoutsAreFaithful(cx, rank, tys[..n], top);
      WordLayoutIsFaithful(cx, rank, tys[n]);
    }
  }

  // ----- Overflow -----

  /** `round_up`'s sum leaves the word: a build with overflow checks panics, another one wraps. */
  predicate SumOverflows(v: nat, a: nat)
    requires a > 0
  {
    v + (a - 1) >= U64
  }

  ghost predicate RunOverflows(ls: seq<Layout>)
    requires AllHeld(Word, ls)
  {
    ls != [] && (RunOverflows(ls[..|ls| - 1]) || SumOverflows(Run(Word, ls[..|ls| - 1]).size, ls[|ls| - 1].align))
  }

  ghost predicate AggregateOverflows(ls: seq<Layout>)
    requires AllHeld(Word, ls)
  {
    RunOverflows(ls) || SumOverflows(Run(Word, ls).size, Run(Word, ls).align)
  }

  /** Some sum overflows on the way to the layout of a type that has one. */
  ghost predicate Overflows(cx: Context, rank: map<TyId, nat>, ty: TyId)
    requires Ranked(cx, rank) && ty in rank
    decreases rank[ty], 1, 0
  {
    IsAggregate(cx, ty) &&
      var fields := Children(cx, ty);
      var ls := LayoutsOf(Word, cx, rank, fields, rank[ty]);
      (exists i :: 0 <= i < |fields| && Overflows(cx, rank, fields[i])) || (ls.Ok? && AggregateOverflows(ls.value))
  }

  /** The word layout has the true alignment, and the true size or else the largest word. */
  ghost predicate Clamped(word: Layout, ideal: Layout) {
    && Held(Word, word) && Held(Unbounded, ideal)
    && word.align == ideal.align
    && word.size == if ideal.size < U64 then ideal.size else U64 - 1
  }

  /** Too large for a word, and aligned to more than a byte. */
  ghost predicate TooLarge(ideal: Layout) {
    ideal.size >= U64 && ideal.align > 1
  }

  /** The sum overflows exactly when the rounded size is too large. */
  lemma RoundOverflowsIff(word: Layout, ideal: Layout, a: nat)
    requires Clamped(word, ideal) && IsAlign(a)
    ensures SumOverflows(word.size, a) <==> a > 1 && CeilTo(ideal.size, a) >= U64
    ensures !SumOverflows(word.size, a) ==>
              Round(Word, word.size, a) == if CeilTo(ideal.size, a) < U64 then CeilTo(ideal.size, a) else U64 - 1
  {
    MaskRoundsUpTo(word.size, a);
  }

  lemma StepOverflowsIff(word: Layout, ideal: Layout, l: Layout, l': Layout)
    requires Clamped(word, ideal) && Clamped(l, l')
    ensures SumOverflows(word.size, l.align) ==> TooLarge(Step(Unbounded, ideal, l'))
    ensures !SumOverflows(word.size, l.align) ==> Clamped(Step(Word, word, l), Step(Unbounded, ideal, l'))
  {
    RoundOverflowsIff(word, ideal, l.align);
  }

  lemma TooLargeStays(acc: Layout, l: Layout)
    requires Held(Unbounded, acc) && Held(Unbounded, l) && (TooLarge(acc) || TooLarge(l))
    ensures TooLarge(Step(Unbounded, acc, l))
  {
    StepBounds(acc, l);
  }

  ghost predicate AllClamped(word: seq<Layout>, ideal: seq<Layout>) {
    && |word| == |ideal| && AllHeld(Word, word) && AllHeld(Unbounded, ideal)
    && forall i | 0 <= i < |word| :: Clamped(word[i], ideal[i])
  }

  lemma {:induction false} RunOverflowsIff(word: seq<Layout>, ideal: seq<Layout>)
    requires AllClamped(word, ideal)
    ensures RunOverflows(word) ==> TooLarge(Run(Unbounded, ideal))
    ensures !RunOverflows(word) ==> Clamped(Run(Word, word), Run(Unbounded, ideal))
  {
    if word != [] {
      var n := |word| - 1;
      RunOverflowsIff(word[..n], ideal[..n]);
      if RunOverflows(word[..n]) {
        TooLargeStays(Run(Unbounded, ideal[..n]), ideal[n]);
      } else {
        StepOverflowsIff(Run(Word, word[..n]), Run(Unbounded, ideal[..n]), word[n], ideal[n]);
      }
    }
  }

  lemma AggregateOverflowsIff(word: seq<Layout>, ideal: seq<Layout>)
    requires AllClamped(word, ideal)
    ensures AggregateOverflows(word) <==> TooLarge(Aggregate(Unbounded, ideal))
    ensures !AggregateOverflows(word) ==> Clamped(Aggregate(Word, word), Aggregate(Unbounded, ideal))
  {
    RunOverflowsIff(word, ideal);
    if !RunOverflows(word) {
      RoundOverflowsIff(Run(Word, word), Run(Unbounded, ideal), Run(Word, word).align);
    }
  }

  /** A component that is too large makes the aggregate too large. */
  lemma {:induction false} TooLargeWithin(ideal: seq<Layout>, i: nat)
    requires AllHeld(Unbounded, ideal) && i < |ideal| && TooLarge(ideal[i])
    ensures TooLarge(Run(Unbounded, ideal))
  {
    var n := |ideal| - 1;
    if i < n {
      TooLargeWithin(ideal[..n], i);
    }
    TooLargeStays(Run(Unbounded, ideal[..n]), ideal[n]);
  }

  lemma {:induction false} ComponentsAreLaidOut(m: Arith, cx: Context, rank: map<TyId, nat>, tys: seq<TyId>, top: nat,
                                                i: nat)
    requires Ranked(cx, rank) && Below(rank, tys, top) && LayoutsOf(m, cx, rank, tys, top).Ok? && i < |tys|
    ensures LayoutOf(m, cx, rank, tys[i]) == Ok(LayoutsOf(m, cx, rank, tys, top).value[i])
    decreases |tys|
  {
    if i < |tys| - 1 {
      ComponentsAreLaidOut(m, cx, rank, tys[..|tys| - 1], top, i);
    }
  }

  /** An aggregate's layout is that of its components' layouts, in order. */
  lemma AggregateOfComponents(m: Arith, cx: Context, rank: map<TyId, nat>, ty: TyId) returns (ls: seq<Layout>)
    requires Ranked(cx, rank) && ty in rank && IsAggregate(cx, ty) && LayoutOf(m, cx, rank, ty).Ok?
    ensures |ls| == |Children(cx, ty)| && AllHeld(m, ls) && LayoutOf(m, cx, rank, ty) == Ok(Aggregate(m, ls))
    ensures forall i | 0 <= i < |ls| :: LayoutOf(m, cx, rank, Children(cx, ty)[i]) == Ok(ls[i])
  {
    var tys := Children(cx, ty);
    ls := LayoutsOf(m, cx, rank, tys, rank[ty]).value;
    forall i | 0 <= i < |ls| ensures LayoutOf(m, cx, rank, tys[i]) == Ok(ls[i]) {
      ComponentsAreLaidOut(m, cx, rank, tys, rank[ty], i);
    }
  }

  /** A product has the layout of a tuple of its declared fields. */
  lemma ProductIsTuple(m: Arith, cx: Context, rank: map<TyId, nat>, product: TyId, tuple: TyId, b: BindingId,
                       fields: seq<TyId>)
    requires Ranked(cx, rank) && product in rank && tuple in rank
    requires cx.kinds[product] == Nominal(b) && b in cx.decls && cx.decls[b] == Product(fields)
    requires cx.kinds[tuple] == Tuple(fields)
    ensures LayoutOf(m, cx, rank, product) == LayoutOf(m, cx, rank, tuple)
  {
    RanksAreIrrelevant(m, cx, rank, rank, fields, rank[product], rank[tuple]);
  }

  /** A build with overflow checks panics on a type that has a layout exactly when its true size is `2^64` or more
      and its alignment is more than one byte. Where it does not, the size is the true one or the largest word. */
  lemma {:induction false} OverflowsIff(cx: Context, rank: map<TyId, nat>, ty: TyId)
    requires Ranked(cx, rank) && ty in rank && LayoutOf(Unbounded, cx, rank, ty).Ok?
    ensures LayoutOf(Word, cx, rank, ty).Ok?
    ensures Overflows(cx, rank, ty) <==> TooLarge(LayoutOf(Unbounded, cx, rank, ty).value)
    ensures !Overflows(cx, rank, ty) ==>
              Clamped(LayoutOf(Word, cx, rank, ty).value, LayoutOf(Unbounded, cx, rank, ty).value)
    decreases rank[ty]
  {
    WordLayoutIsFaithful(cx, rank, ty);
    if IsAggregate(cx, ty) {
      var fields, top := Children(cx, ty), rank[ty];
      WordLayoutsAreFaithful(cx, rank, fields, top);
      var word, ideal := LayoutsOf(Word, cx, rank, fields, top).value,
                         LayoutsOf(Unbounded, cx, rank, fields, top).value;
      forall i | 0 <= i < |fields|
        ensures Overflows(cx, rank, fields[i]) <==> TooLarge(ideal[i])
        ensures !Overflows(cx, rank, fields[i]) ==> Clamped(word[i], ideal[i])
      {
        ComponentsAreLaidOut(Word, cx, rank, fields, top, i);
        ComponentsAreLaidOut(Unbounded, cx, rank, fields, top, i);
        OverflowsIff(cx, rank, fields[i]);
      }
      if i :| 0 <= i < |fields| && Overflows(cx, rank, fields[i]) {
        TooLargeWithin(ideal, i);
      } else {
        AggregateOverflowsIff(word, ideal);
      }
    }
  }

  // ----- Failures -----

  /** Every unsupported leaf of a type, depth first in declaration order. */
  ghost function Blockers(cx: Context, rank: map<TyId, nat>, ty: TyId): seq<Unsupported>
    requires Ranked(cx, rank) && ty in rank
    decreases rank[ty], 1, 0
  {
    if IsAggregate(cx, ty) then BlockersIn(cx, rank, Children(cx, ty), rank[ty])
    else if Leaf(cx, ty).Err? then [Leaf(cx, ty).error] else []
  }

  ghost function BlockersIn(cx: Context, rank: map<TyId, nat>, tys: seq<TyId>, top: nat): seq<Unsupported>
    requires Ranked(cx, rank) && Below(rank, tys, top)
    decreases top, 0, |tys|
  {
    if tys == [] then [] else BlockersIn(cx, rank, tys[..|tys| - 1], top) + Blockers(cx, rank, tys[|tys| - 1])
  }

  /** A layout fails exactly when some leaf is unsupported, and names the first one. */
  lemma {:induction false} FirstBlockerIsNamed(m: Arith, cx: Context, rank: map<TyId, nat>, ty: TyId)
    requires Ranked(cx, rank) && ty in rank
    ensures LayoutOf(m, cx, rank, ty).Ok? <==> Blockers(cx, rank, ty) == []
    ensures Blockers(cx, rank, ty) != [] ==> LayoutOf(m, cx, rank, ty) == Err(Blockers(cx, rank, ty)[0])
    decreases rank[ty], 1, 0
  {
    if IsAggregate(cx, ty) {
      FirstBlockerInIsNamed(m, cx, rank, Children(cx, ty), rank[ty]);
    }
  }

  lemma {:induction false} FirstBlockerInIsNamed(m: Arith, cx: Context, rank: map<TyId, nat>, tys: seq<TyId>, top: nat)
    requires Ranked(cx, rank) && Below(rank, tys, top)
    ensures LayoutsOf(m, cx, rank, tys, top).Ok? <==> BlockersIn(cx, rank, tys, top) == []
    ensures BlockersIn(cx, rank, tys, top) != [] ==>
              LayoutsOf(m, cx, rank, tys, top) == Err(BlockersIn(cx, rank, tys, top)[0])
    decreases top, 0, |tys|
  {
    if tys != [] {
      var n := |tys| - 1;
      FirstBlockerInIsNamed(m, cx, rank, tys[..n], top);
      FirstBlockerIsNamed(m, cx, rank, tys[n]);
    }
  }

  // ----- Declarations only add layouts -----

  function WithoutDecls(cx: Context): Context {
    cx.(decls := map[])
  }

  /** The types a layout is found for without declarations. */
  ghost function LaidOut(m: Arith, cx: Context, rank: map<TyId, nat>): map<TyId, nat>
    requires Ranked(WithoutDecls(cx), rank)
  {
    map ty | ty in rank && LayoutOf(m, WithoutDecls(cx), rank, ty).Ok? :: rank[ty]
  }

  /** They contain no nominal type, so no lookup makes one of them contain itself. */
  lemma LaidOutIsRanked(m: Arith, cx: Context, rank: map<TyId, nat>)
    requires Ranked(WithoutDecls(cx), rank)
    ensures Ranked(cx, LaidOut(m, cx, rank))
  {
    var bare, found := WithoutDecls(cx), LaidOut(m, cx, rank);
    forall ty | ty in found ensures ty < |cx.kinds| && Below(found, Children(cx, ty), found[ty]) {
      assert Below(rank, Children(bare, ty), rank[ty]);
      if IsAggregate(bare, ty) {
        forall i | 0 <= i < |Children(cx, ty)| ensures Children(cx, ty)[i] in found {
          ComponentsAreLaidOut(m, bare, rank, Children(bare, ty), rank[ty], i);
        }
      }
    }
  }

  /** A layout found with no declarations is found again, unchanged, under every lookup, whatever it says. */
  lemma DeclsReproduceLayouts(m: Arith, cx: Context, rank: map<TyId, nat>, ty: TyId)
    requires Ranked(WithoutDecls(cx), rank) && ty in rank && LayoutOf(m, WithoutDecls(cx), rank, ty).Ok?
    ensures var found := LaidOut(m, cx, rank);
      && Ranked(cx, found) && ty in found
      && LayoutOf(m, cx, found, ty) == LayoutOf(m, WithoutDecls(cx), rank, ty)
    ensures forall other | Ranked(cx, other) && ty in other ::
              LayoutOf(m, cx, other, ty) == LayoutOf(m, WithoutDecls(cx), rank, ty)
  {
    var found := LaidOut(m, cx, rank);
    LaidOutIsRanked(m, cx, rank);
    LayoutReproduced(m, cx, rank, found, ty);
    forall other | Ranked(cx, other) && ty in other ensures LayoutOf(m, cx, other, ty) == LayoutOf(m, cx, found, ty) {
      RankIsIrrelevant(m, cx, other, found, ty);
    }
  }

  lemma {:induction false} LayoutReproduced(m: Arith, cx: Context, rank: map<TyId, nat>, found: map<TyId, nat>,
                                            ty: TyId)
    requires Ranked(WithoutDecls(cx), rank) && Ranked(cx, found) && found.Keys <= rank.Keys
    requires (forall t | t in found :: found[t] == rank[t]) && ty in found
    requires LayoutOf(m, WithoutDecls(cx), rank, ty).Ok?
    ensures LayoutOf(m, cx, found, ty) == LayoutOf(m, WithoutDecls(cx), rank, ty)
    decreases rank[ty], 1, 0
  {
    if IsAggregate(WithoutDecls(cx), ty) {
      LayoutsReproduced(m, cx, rank, found, Children(cx, ty), rank[ty]);
    }
  }

  lemma {:induction false} LayoutsReproduced(m: Arith, cx: Context, rank: map<TyId, nat>, found: map<TyId, nat>,
                                             tys: seq<TyId>, top: nat)
    requires Ranked(WithoutDecls(cx), rank) && Ranked(cx, found) && found.Keys <= rank.Keys
    requires (forall t | t in found :: found[t] == rank[t]) && Below(found, tys, top) && Below(rank, tys, top)
    requires LayoutsOf(m, WithoutDecls(cx), rank, tys, top).Ok?
    ensures LayoutsOf(m, cx, found, tys, top) == LayoutsOf(m, WithoutDecls(cx), rank, tys, top)
    decreases top, 0, |tys|
  {
    if tys != [] {
      var n := |tys| - 1;
      LayoutsReproduced(m, cx, rank, found, tys[..n], top);
      LayoutReproduced(m, cx, rank, found, tys[n]);
    }
  }
}
