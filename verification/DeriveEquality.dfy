/** The synthesised comparator decides structural equality. */
module DeriveEquality {
  import opened Bytes
  import opened Derive

  /** On two values of one type the synthesised comparator decides structural equality: it never fails at
      run time, and as many nested calls as the first value is deep are enough. */
  lemma {:induction false} CompareIsEquality(decls: Decls, calls: nat, v: Value, w: Value, ty: Ty)
    requires WellFormed(decls) && HasType(decls, v, ty) && HasType(decls, w, ty) && Depth(v) <= calls
    ensures Compare(decls, calls, v, w) == Truth(v == w)
    decreases v, 1
  {
    if ty.SliceTy? {
      SlicesCompare(decls, calls, v, w, ty.elem);
    } else if ty.Nominal? {
      if decls[ty.name].Product? {
        PartsCompare(decls, calls - 1, v.parts, w.parts, FieldTypes(decls[ty.name].fields));
        RecordBodyValue(decls, calls - 1, v, w);
      } else {
        SumsCompare(decls, calls, v, w, ty.name);
      }
    }
  }

  lemma {:induction false} SlicesCompare(decls: Decls, calls: nat, v: Value, w: Value, elem: Ty)
    requires WellFormed(decls) && Depth(v) <= calls
    requires HasType(decls, v, SliceTy(elem)) && HasType(decls, w, SliceTy(elem))
    ensures Compare(decls, calls, v, w) == Truth(v == w)
    decreases v, 0
  {
    if |v.parts| == |w.parts| {
      forall i | 0 <= i < |v.parts|
        ensures Compare(decls, calls, v.parts[i], w.parts[i]) == Truth(v.parts[i] == w.parts[i])
        ensures !v.parts[i].SliceOf? && !w.parts[i].SliceOf?
      {
        assert HasType(decls, v.parts[i], elem) && HasType(decls, w.parts[i], elem);
        PartsAreShallower(v.parts, i);
        CompareIsEquality(decls, calls, v.parts[i], w.parts[i], elem);
      }
      ElementsValue(decls, calls, v.parts, w.parts, 0);
      assert v.parts[0..] == v.parts && w.parts[0..] == w.parts;
    }
  }

  /** The loop decides equality of what is left. */
  lemma {:induction false} ElementsValue(decls: Decls, calls: nat, vs: seq<Value>, ws: seq<Value>, i: nat)
    requires |vs| == |ws| && i <= |vs|
    requires forall j | 0 <= j < |vs| :: !vs[j].SliceOf? && !ws[j].SliceOf?
    requires forall j | 0 <= j < |vs| :: Compare(decls, calls, vs[j], ws[j]) == Truth(vs[j] == ws[j])
    ensures CompareElements(decls, calls, vs, ws, i) == Truth(vs[i..] == ws[i..])
    decreases |vs| - i
  {
    if i < |vs| {
      ElementsValue(decls, calls, vs, ws, i + 1);
      assert vs[i..] == [vs[i]] + vs[i + 1..] && ws[i..] == [ws[i]] + ws[i + 1..];
      assert vs[i..][0] == vs[i] && ws[i..][0] == ws[i] && vs[i..][1..] == vs[i + 1..] && ws[i..][1..] == ws[i + 1..];
    }
  }

  lemma {:induction false} SumsCompare(decls: Decls, calls: nat, v: Value, w: Value, t: Str)
    requires WellFormed(decls) && t in decls && decls[t].Sum?
    requires HasType(decls, v, Nominal(t)) && HasType(decls, w, Nominal(t)) && Depth(v) <= calls
    ensures Compare(decls, calls, v, w) == Truth(v == w)
    decreases v, 0
  {
    var variants := decls[t].variants;
    var k :| 0 <= k < |variants| && variants[k].name == v.variant
             && HaveTypes(decls, v.parts, PayloadTypes(variants[k].payload));
    if v.variant == w.variant {
      SameVariant(decls, variants, w, k);
      PartsCompare(decls, calls - 1, v.parts, w.parts, PayloadTypes(variants[k].payload));
    }
    SumBodyValue(decls, calls - 1, v, w, k);
  }

  lemma SameVariant(decls: Decls, variants: seq<VariantInfo>, w: Value, k: nat)
    requires w.VariantOf? && k < |variants| && variants[k].name == w.variant
    requires forall i, j | 0 <= i < j < |variants| :: variants[i].name != variants[j].name
    requires exists m :: 0 <= m < |variants| && variants[m].name == w.variant
                         && HaveTypes(decls, w.parts, PayloadTypes(variants[m].payload))
    ensures HaveTypes(decls, w.parts, PayloadTypes(variants[k].payload))
  {
  }

  lemma {:induction false} PartsCompare(decls: Decls, calls: nat, vs: seq<Value>, ws: seq<Value>, tys: seq<Ty>)
    requires WellFormed(decls) && HaveTypes(decls, vs, tys) && HaveTypes(decls, ws, tys) && MaxDepth(vs) <= calls
    ensures forall i | 0 <= i < |vs| :: Compare(decls, calls, vs[i], ws[i]) == Truth(vs[i] == ws[i])
    decreases vs
  {
    forall i | 0 <= i < |vs| ensures Compare(decls, calls, vs[i], ws[i]) == Truth(vs[i] == ws[i]) {
      PartsAreShallower(vs, i);
      CompareIsEquality(decls, calls, vs[i], ws[i], tys[i]);
    }
  }
}
