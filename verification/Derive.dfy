/** The synthesised `eq` comparator (`edda-driver/src/derive_eq.rs`).

    The emitted source is modelled by its syntax tree, with an evaluator in which `==` is what the lowering of
    `edda-mir/src/lower/arith.rs` makes of it: built in on primitives, a call of the type's own synthesised
    comparator on records and sums, and a length test and an element loop on slices of either. */
module Derive {
  import opened Bytes
  import opened Decimal

  // ----- Type declarations and values -----

  datatype Ty = PrimTy(prim: nat) | Nominal(name: Str) | SliceTy(elem: Ty)

  datatype FieldInfo = FieldInfo(name: Str, ty: Ty)

  datatype PayloadInfo = UnitPayload | TuplePayload(elems: seq<Ty>) | StructPayload(fields: seq<FieldInfo>)

  datatype VariantInfo = VariantInfo(name: Str, payload: PayloadInfo)

  datatype Shape = Product(fields: seq<FieldInfo>) | Sum(variants: seq<VariantInfo>)

  type Decls = map<Str, Shape>

  datatype Value =
    | Prim(prim: nat, bits: int)
    | RecordOf(ty: Str, parts: seq<Value>)
    | VariantOf(ty: Str, variant: Str, parts: seq<Value>)
    | SliceOf(parts: seq<Value>)

  predicate IsNominal(v: Value) {
    v.RecordOf? || v.VariantOf?
  }

  function FieldTypes(fields: seq<FieldInfo>): (r: seq<Ty>)
    ensures |r| == |fields|
  {
    seq(|fields|, i requires 0 <= i < |fields| => fields[i].ty)
  }

  function PayloadTypes(p: PayloadInfo): seq<Ty> {
    match p
    case UnitPayload => []
    case TuplePayload(elems) => elems
    case StructPayload(fields) => FieldTypes(fields)
  }

  /** Slots a variant carries. */
  function PayloadArity(p: PayloadInfo): (n: nat)
    ensures n == |PayloadTypes(p)|
  {
    match p
    case UnitPayload => 0
    case TuplePayload(elems) => |elems|
    case StructPayload(fields) => |fields|
  }

  /** Names within a declaration are distinct. */
  ghost predicate WellFormed(decls: Decls) {
    forall t | t in decls ::
      match decls[t]
      case Product(fields) => forall i, j | 0 <= i < j < |fields| :: fields[i].name != fields[j].name
      case Sum(variants) => forall i, j | 0 <= i < j < |variants| :: variants[i].name != variants[j].name
  }

  ghost predicate HasType(decls: Decls, v: Value, ty: Ty)
    decreases v
  {
    match ty
    case PrimTy(p) => v.Prim? && v.prim == p
    // Slices of slices have no `==`.
    case SliceTy(elem) => v.SliceOf? && !elem.SliceTy? && AllHaveType(decls, v.parts, elem)
    case Nominal(t) =>
      && t in decls && IsNominal(v) && v.ty == t
      && match decls[t]
         case Product(fields) => v.RecordOf? && HaveTypes(decls, v.parts, FieldTypes(fields))
         case Sum(variants) =>
           v.VariantOf? && exists k :: 0 <= k < |variants| && variants[k].name == v.variant
                                       && HaveTypes(decls, v.parts, PayloadTypes(variants[k].payload))
  }

  ghost predicate AllHaveType(decls: Decls, vs: seq<Value>, ty: Ty)
    decreases vs
  {
    forall i | 0 <= i < |vs| :: HasType(decls, vs[i], ty)
  }

  ghost predicate HaveTypes(decls: Decls, vs: seq<Value>, tys: seq<Ty>)
    decreases vs
  {
    |vs| == |tys| && forall i | 0 <= i < |vs| :: HasType(decls, vs[i], tys[i])
  }

  ghost function Depth(v: Value): nat
    decreases v
  {
    if v.Prim? then 0 else 1 + MaxDepth(v.parts)
  }

  ghost function MaxDepth(vs: seq<Value>): nat
    decreases vs
  {
    if vs == [] then 0
    else
      var d, rest := Depth(vs[0]), MaxDepth(vs[1..]);
      if d > rest then d else rest
  }

  lemma {:induction false} PartsAreShallower(vs: seq<Value>, i: nat)
    requires i < |vs|
    ensures Depth(vs[i]) <= MaxDepth(vs)
  {
    if i > 0 { PartsAreShallower(vs[1..], i - 1); }
  }

  // ----- The emitted language -----

  datatype Expr =
    | Var(x: Str)
    | Field(e: Expr, name: Str)
    | Eq(l: Expr, r: Expr)
    | And(l: Expr, r: Expr)
    | Bool(b: bool)
    | Match(scrutinee: Expr, arms: seq<Arm>)

  datatype Arm = Arm(pat: Pat, body: Expr)

  datatype Pat = VariantPat(variant: Str, binders: seq<Str>) | Wildcard

  const A: Str := [0x61]
  const B: Str := [0x62]

  /** `t0 && t1 && ...`, which groups to the left. */
  function Conjunction(terms: seq<Expr>): Expr
    requires terms != []
  {
    if |terms| == 1 then terms[0] else And(Conjunction(terms[..|terms| - 1]), terms[|terms| - 1])
  }

  function FieldTest(name: Str): Expr {
    Eq(Field(Var(A), name), Field(Var(B), name))
  }

  function RecordCompareBody(fields: seq<FieldInfo>): Expr {
    if fields == [] then Bool(true)
    else Conjunction(seq(|fields|, i requires 0 <= i < |fields| => FieldTest(fields[i].name)))
  }

  /** `a0`, `a1`, ... */
  function Binder(prefix: Str, i: nat): Str {
    prefix + Numeral(i)
  }

  function Binders(prefix: Str, arity: nat): (r: seq<Str>)
    ensures |r| == arity
  {
    seq(arity, i requires 0 <= i < arity => Binder(prefix, i))
  }

  function VariantPattern(name: Str, arity: nat, prefix: Str): Pat {
    VariantPat(name, Binders(prefix, arity))
  }

  function SlotTest(i: nat): Expr {
    Eq(Var(Binder(A, i)), Var(Binder(B, i)))
  }

  function PayloadTest(arity: nat): Expr {
    if arity == 0 then Bool(true) else Conjunction(seq(arity, i requires 0 <= i < arity => SlotTest(i)))
  }

  function VariantArm(v: VariantInfo): Arm {
    var arity := PayloadArity(v.payload);
    Arm(VariantPattern(v.name, arity, A),
        Match(Var(B), [Arm(VariantPattern(v.name, arity, B), PayloadTest(arity)), Arm(Wildcard, Bool(false))]))
  }

  function SumArms(variants: seq<VariantInfo>): (r: seq<Arm>)
    ensures |r| == |variants|
  {
    seq(|variants|, i requires 0 <= i < |variants| => VariantArm(variants[i]))
  }

  function SumCompareBody(variants: seq<VariantInfo>): Expr {
    if variants == [] then Bool(true) else Match(Var(A), SumArms(variants))
  }

  /** `sum_compare_body`, pushing one arm per variant. */
  method EmitSumCompareBody(variants: seq<VariantInfo>) returns (body: Expr)
    ensures body == SumCompareBody(variants)
  {
    if variants == [] {
      return Bool(true);
    }
    var arms: seq<Arm> := [];
    for k := 0 to |variants|
      invariant arms == SumArms(variants)[..k]
    {
      arms := arms + [VariantArm(variants[k])];
    }
    body := Match(Var(A), arms);
  }

  function EqBody(shape: Shape): Expr {
    match shape
    case Product(fields) => RecordCompareBody(fields)
    case Sum(variants) => SumCompareBody(variants)
  }

  // ----- Evaluation -----

  type Env = map<Str, Value>

  /** `Stuck` covers every run-time failure: an unbound name, a missing field, a type mismatch, a match
      that no arm covers. `Deep` means the bound on nested comparator calls was hit. */
  datatype Outcome = Is(v: Value) | Truth(b: bool) | Stuck | Deep

  function FieldIndex(fields: seq<FieldInfo>, name: Str): (k: nat)
    ensures k <= |fields|
  {
    if fields == [] || fields[0].name == name then 0 else 1 + FieldIndex(fields[1..], name)
  }

  function FieldOf(decls: Decls, v: Value, name: Str): Outcome {
    if v.RecordOf? && v.ty in decls && decls[v.ty].Product? then
      var k := FieldIndex(decls[v.ty].fields, name);
      if k < |decls[v.ty].fields| && k < |v.parts| then Is(v.parts[k]) else Stuck
    else Stuck
  }

  function Bind(env: Env, binders: seq<Str>, parts: seq<Value>): Env
    requires |binders| == |parts|
  {
    if binders == [] then env
    else Bind(env, binders[..|binders| - 1], parts[..|parts| - 1])[binders[|binders| - 1] := parts[|parts| - 1]]
  }

  predicate Matches(p: Pat, v: Value) {
    p.Wildcard? || (v.VariantOf? && v.variant == p.variant && |v.parts| == |p.binders|)
  }

  function Eval(decls: Decls, calls: nat, e: Expr, env: Env): Outcome
    decreases calls, 1, e
  {
    match e
    case Var(x) => if x in env then Is(env[x]) else Stuck
    case Bool(b) => Truth(b)
    case Field(e0, name) =>
      var r := Eval(decls, calls, e0, env);
      if r.Is? then FieldOf(decls, r.v, name) else if r.Deep? then Deep else Stuck
    case Eq(l, r) =>
      var x := Eval(decls, calls, l, env);
      var y := Eval(decls, calls, r, env);
      if x.Is? && y.Is? then Compare(decls, calls, x.v, y.v)
      else if x.Deep? || y.Deep? then Deep else Stuck
    case And(l, r) =>
      var x := Eval(decls, calls, l, env);
      if x == Truth(true) then Eval(decls, calls, r, env)
      else if x.Is? then Stuck else x
    case Match(s, arms) =>
      var x := Eval(decls, calls, s, env);
      if x.Is? then EvalArms(decls, calls, arms, x.v, env) else if x.Deep? then Deep else Stuck
  }

  /** The first arm whose pattern matches. */
  function EvalArms(decls: Decls, calls: nat, arms: seq<Arm>, v: Value, env: Env): Outcome
    decreases calls, 1, arms
  {
    if arms == [] then Stuck
    else if Matches(arms[0].pat, v) then EvalArm(decls, calls, arms[0], v, env)
    else EvalArms(decls, calls, arms[1..], v, env)
  }

  function EvalArm(decls: Decls, calls: nat, arm: Arm, v: Value, env: Env): Outcome
    requires Matches(arm.pat, v)
    decreases calls, 1, arm
  {
    Eval(decls, calls, arm.body, if arm.pat.Wildcard? then env else Bind(env, arm.pat.binders, v.parts))
  }

  /** `==`. */
  function Compare(decls: Decls, calls: nat, v: Value, w: Value): Outcome
    decreases calls, 0, v
  {
    if v.Prim? && w.Prim? then if v.prim == w.prim then Truth(v == w) else Stuck
    else if v.SliceOf? && w.SliceOf? then
      if |v.parts| == |w.parts| then CompareElements(decls, calls, v.parts, w.parts, 0) else Truth(false)
    else if !IsNominal(v) || !IsNominal(w) || v.ty != w.ty || v.ty !in decls then Stuck
    else if calls == 0 then Deep
    else Eval(decls, calls - 1, EqBody(decls[v.ty]), map[A := v, B := w])
  }

  /** The element loop, from index `i`: it stops at the first difference. */
  function CompareElements(decls: Decls, calls: nat, vs: seq<Value>, ws: seq<Value>, i: nat): Outcome
    requires i <= |vs| == |ws|
    decreases calls, 0, vs, |vs| - i
  {
    if i == |vs| then Truth(true)
    else if vs[i].SliceOf? || ws[i].SliceOf? then Stuck
    else
      var r := Compare(decls, calls, vs[i], ws[i]);
      if r == Truth(true) then CompareElements(decls, calls, vs, ws, i + 1)
      else if r.Is? then Stuck else r
  }

  // ----- Conjunctions -----

  ghost predicate AllTrue(bits: seq<bool>) {
    forall i | 0 <= i < |bits| :: bits[i]
  }

  /** When every term has a truth value, so has the conjunction. */
  lemma {:induction false} ConjunctionValue(decls: Decls, calls: nat, terms: seq<Expr>, env: Env, bits: seq<bool>)
    requires terms != [] && |bits| == |terms|
    requires forall i | 0 <= i < |terms| :: Eval(decls, calls, terms[i], env) == Truth(bits[i])
    ensures Eval(decls, calls, Conjunction(terms), env) == Truth(AllTrue(bits))
    decreases |terms|
  {
    var n := |terms| - 1;
    if n > 0 {
      ConjunctionValue(decls, calls, terms[..n], env, bits[..n]);
      assert AllTrue(bits) <==> AllTrue(bits[..n]) && bits[n] by {
        assert forall i | 0 <= i < n :: bits[..n][i] == bits[i];
        if AllTrue(bits[..n]) && bits[n] {
          forall i | 0 <= i < |bits| ensures bits[i] { if i < n { assert bits[..n][i]; } }
        }
      }
    }
  }

  ghost function Agreement(vs: seq<Value>, ws: seq<Value>): (bits: seq<bool>)
    requires |vs| == |ws|
    ensures |bits| == |vs| && forall i | 0 <= i < |vs| :: bits[i] == (vs[i] == ws[i])
  {
    seq(|vs|, i requires 0 <= i < |vs| => vs[i] == ws[i])
  }

  lemma AgreementIsEquality(vs: seq<Value>, ws: seq<Value>)
    requires |vs| == |ws|
    ensures AllTrue(Agreement(vs, ws)) <==> vs == ws
  {
    if AllTrue(Agreement(vs, ws)) {
      forall i | 0 <= i < |vs| ensures vs[i] == ws[i] { assert Agreement(vs, ws)[i]; }
    }
  }

  // ----- Records -----

  lemma {:induction false} FieldIndexOf(fields: seq<FieldInfo>, i: nat)
    requires i < |fields| && forall j | 0 <= j < i :: fields[j].name != fields[i].name
    ensures FieldIndex(fields, fields[i].name) == i
  {
    if i > 0 {
      FieldIndexOf(fields[1..], i - 1);
    }
  }

  lemma FieldTestValue(decls: Decls, calls: nat, v: Value, w: Value, i: nat)
    requires v.RecordOf? && w.RecordOf? && v.ty == w.ty && v.ty in decls && decls[v.ty].Product? && WellFormed(decls)
    requires |v.parts| == |w.parts| == |decls[v.ty].fields| && i < |v.parts|
    ensures Eval(decls, calls, FieldTest(decls[v.ty].fields[i].name), map[A := v, B := w])
         == Compare(decls, calls, v.parts[i], w.parts[i])
  {
    var fields, env := decls[v.ty].fields, map[A := v, B := w];
    FieldIndexOf(fields, i);
    assert Eval(decls, calls, Var(A), env) == Is(v) && Eval(decls, calls, Var(B), env) == Is(w);
    assert Eval(decls, calls, Field(Var(A), fields[i].name), env) == Is(v.parts[i]);
    assert Eval(decls, calls, Field(Var(B), fields[i].name), env) == Is(w.parts[i]);
  }

  lemma RecordBodyValue(decls: Decls, calls: nat, v: Value, w: Value)
    requires v.RecordOf? && w.RecordOf? && v.ty == w.ty && v.ty in decls && decls[v.ty].Product? && WellFormed(decls)
    requires |v.parts| == |w.parts| == |decls[v.ty].fields|
    requires forall i | 0 <= i < |v.parts| ::
               Compare(decls, calls, v.parts[i], w.parts[i]) == Truth(v.parts[i] == w.parts[i])
    ensures Eval(decls, calls, EqBody(decls[v.ty]), map[A := v, B := w]) == Truth(v == w)
  {
    var fields := decls[v.ty].fields;
    AgreementIsEquality(v.parts, w.parts);
    if fields != [] {
      var terms := seq(|fields|, i requires 0 <= i < |fields| => FieldTest(fields[i].name));
      forall i | 0 <= i < |terms|
        ensures Eval(decls, calls, terms[i], map[A := v, B := w]) == Truth(Agreement(v.parts, w.parts)[i])
      {
        FieldTestValue(decls, calls, v, w, i);
      }
      ConjunctionValue(decls, calls, terms, map[A := v, B := w], Agreement(v.parts, w.parts));
    }
  }

  // ----- Binders -----

  lemma BindersDiffer(p: Str, i: nat, q: Str, j: nat)
    requires |p| == |q| && Binder(p, i) == Binder(q, j)
    ensures p == q && i == j
  {
    var s := Binder(p, i);
    assert s[..|p|] == p && s[..|p|] == q && s[|p|..] == Numeral(i) && s[|p|..] == Numeral(j);
    NumeralIsInjective(i, j);
  }

  /** Neither `a` nor `b` is shadowed: binders are longer. */
  lemma BinderIsNoParameter(p: Str, i: nat)
    requires |p| == 1
    ensures Binder(p, i) != A && Binder(p, i) != B
  {
    assert |Numeral(i)| >= 1;
  }

  lemma {:induction false} BoundValue(env: Env, binders: seq<Str>, parts: seq<Value>, i: nat)
    requires |binders| == |parts| && i < |binders|
    requires forall j | i < j < |binders| :: binders[j] != binders[i]
    ensures binders[i] in Bind(env, binders, parts) && Bind(env, binders, parts)[binders[i]] == parts[i]
  {
    var n := |binders| - 1;
    if i < n {
      BoundValue(env, binders[..n], parts[..n], i);
    }
  }

  lemma {:induction false} UnboundValue(env: Env, binders: seq<Str>, parts: seq<Value>, x: Str)
    requires |binders| == |parts| && x !in binders && x in env
    ensures x in Bind(env, binders, parts) && Bind(env, binders, parts)[x] == env[x]
  {
    if binders != [] {
      var n := |binders| - 1;
      assert binders[n] in binders;
      UnboundValue(env, binders[..n], parts[..n], x);
    }
  }

  lemma SlotBound(env: Env, prefix: Str, parts: seq<Value>, i: nat)
    requires i < |parts|
    ensures var env' := Bind(env, Binders(prefix, |parts|), parts);
            Binder(prefix, i) in env' && env'[Binder(prefix, i)] == parts[i]
  {
    var binders := Binders(prefix, |parts|);
    forall j | i < j < |binders| ensures binders[j] != binders[i] {
      if binders[j] == binders[i] { BindersDiffer(prefix, j, prefix, i); }
    }
    BoundValue(env, binders, parts, i);
  }

  lemma SlotKept(env: Env, prefix: Str, parts: seq<Value>, x: Str)
    requires x in env && forall j: nat | j < |parts| :: Binder(prefix, j) != x
    ensures var env' := Bind(env, Binders(prefix, |parts|), parts); x in env' && env'[x] == env[x]
  {
    UnboundValue(env, Binders(prefix, |parts|), parts, x);
  }

  // ----- Sums -----

  /** What the inner arm sees: `v`'s slots under `a0`, `a1`, ... and `w`'s under `b0`, `b1`, ... */
  ghost function ArmEnv(v: Value, w: Value): Env
    requires v.VariantOf? && w.VariantOf?
  {
    Bind(Bind(map[A := v, B := w], Binders(A, |v.parts|), v.parts), Binders(B, |w.parts|), w.parts)
  }

  lemma OuterKeepsB(v: Value, w: Value)
    requires v.VariantOf?
    ensures var env := Bind(map[A := v, B := w], Binders(A, |v.parts|), v.parts); B in env && env[B] == w
  {
    forall j: nat | j < |v.parts| ensures Binder(A, j) != B { BinderIsNoParameter(A, j); }
    SlotKept(map[A := v, B := w], A, v.parts, B);
  }

  lemma SlotTestValue(decls: Decls, calls: nat, v: Value, w: Value, i: nat)
    requires v.VariantOf? && w.VariantOf? && |v.parts| == |w.parts| && i < |v.parts|
    ensures Eval(decls, calls, SlotTest(i), ArmEnv(v, w)) == Compare(decls, calls, v.parts[i], w.parts[i])
  {
    var outer := Bind(map[A := v, B := w], Binders(A, |v.parts|), v.parts);
    SlotBound(map[A := v, B := w], A, v.parts, i);
    SlotBound(outer, B, w.parts, i);
    forall j: nat | j < |w.parts| ensures Binder(B, j) != Binder(A, i) {
      if Binder(B, j) == Binder(A, i) { BindersDiffer(B, j, A, i); }
    }
    SlotKept(outer, B, w.parts, Binder(A, i));
    assert Eval(decls, calls, Var(Binder(A, i)), ArmEnv(v, w)) == Is(v.parts[i]);
    assert Eval(decls, calls, Var(Binder(B, i)), ArmEnv(v, w)) == Is(w.parts[i]);
  }

  lemma PayloadTestValue(decls: Decls, calls: nat, v: Value, w: Value)
    requires v.VariantOf? && w.VariantOf? && |v.parts| == |w.parts|
    requires forall i | 0 <= i < |v.parts| ::
               Compare(decls, calls, v.parts[i], w.parts[i]) == Truth(v.parts[i] == w.parts[i])
    ensures Eval(decls, calls, PayloadTest(|v.parts|), ArmEnv(v, w)) == Truth(v.parts == w.parts)
  {
    var n := |v.parts|;
    AgreementIsEquality(v.parts, w.parts);
    if n > 0 {
      var terms := seq(n, i requires 0 <= i < n => SlotTest(i));
      forall i | 0 <= i < n
        ensures Eval(decls, calls, terms[i], ArmEnv(v, w)) == Truth(Agreement(v.parts, w.parts)[i])
      {
        SlotTestValue(decls, calls, v, w, i);
      }
      ConjunctionValue(decls, calls, terms, ArmEnv(v, w), Agreement(v.parts, w.parts));
    }
  }

  /** The arm reached is the one of the value's own variant. */
  lemma {:induction false} ArmReached(decls: Decls, calls: nat, arms: seq<Arm>, k: nat, v: Value, env: Env)
    requires k < |arms| && Matches(arms[k].pat, v) && forall j | 0 <= j < k :: !Matches(arms[j].pat, v)
    ensures EvalArms(decls, calls, arms, v, env) == EvalArm(decls, calls, arms[k], v, env)
  {
    if k > 0 {
      ArmReached(decls, calls, arms[1..], k - 1, v, env);
    }
  }

  ghost predicate OfVariant(v: Value, variants: seq<VariantInfo>, k: nat) {
    v.VariantOf? && k < |variants| && v.variant == variants[k].name && |v.parts| == PayloadArity(variants[k].payload)
  }

  lemma InnerMatchValue(decls: Decls, calls: nat, v: Value, w: Value, info: VariantInfo)
    requires v.VariantOf? && w.VariantOf? && v.ty == w.ty
    requires v.variant == info.name && |v.parts| == PayloadArity(info.payload)
    requires v.variant == w.variant ==> |v.parts| == |w.parts|
    requires v.variant == w.variant ==> forall i | 0 <= i < |v.parts| ::
               Compare(decls, calls, v.parts[i], w.parts[i]) == Truth(v.parts[i] == w.parts[i])
    ensures EvalArm(decls, calls, VariantArm(info), v, map[A := v, B := w]) == Truth(v == w)
  {
    var n := PayloadArity(info.payload);
    var env := Bind(map[A := v, B := w], Binders(A, n), v.parts);
    var arms := [Arm(VariantPattern(info.name, n, B), PayloadTest(n)), Arm(Wildcard, Bool(false))];
    OuterKeepsB(v, w);
    assert Eval(decls, calls, Var(B), env) == Is(w);
    assert EvalArm(decls, calls, VariantArm(info), v, map[A := v, B := w]) == EvalArms(decls, calls, arms, w, env);
    if v.variant == w.variant {
      ArmReached(decls, calls, arms, 0, w, env);
      PayloadTestValue(decls, calls, v, w);
    } else {
      ArmReached(decls, calls, arms, 1, w, env);
    }
  }

  lemma SumBodyValue(decls: Decls, calls: nat, v: Value, w: Value, k: nat)
    requires v.VariantOf? && v.ty in decls && decls[v.ty].Sum? && WellFormed(decls)
    requires OfVariant(v, decls[v.ty].variants, k) && w.VariantOf? && v.ty == w.ty
    requires v.variant == w.variant ==> |v.parts| == |w.parts|
    requires v.variant == w.variant ==> forall i | 0 <= i < |v.parts| ::
               Compare(decls, calls, v.parts[i], w.parts[i]) == Truth(v.parts[i] == w.parts[i])
    ensures Eval(decls, calls, EqBody(decls[v.ty]), map[A := v, B := w]) == Truth(v == w)
  {
    var variants, env := decls[v.ty].variants, map[A := v, B := w];
    var arms := SumArms(variants);
    forall j | 0 <= j < k ensures !Matches(arms[j].pat, v) { assert variants[j].name != variants[k].name; }
    ArmReached(decls, calls, arms, k, v, env);
    InnerMatchValue(decls, calls, v, w, variants[k]);
    assert Eval(decls, calls, Var(A), env) == Is(v);
    assert Eval(decls, calls, SumCompareBody(variants), env) == EvalArms(decls, calls, arms, v, env);
  }
}
