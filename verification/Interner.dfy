/** The string interner (`edda-intern/src/lib.rs`): its state, its critical sections, and the
    sequential interner that specifies them. */
module Interner {
  import opened Bytes

  const U32_MAX: nat := 0xffff_ffff

  datatype Symbol = Symbol(index: nat)

  /** Reserved: outside the range an interner issues. */
  const DUMMY: Symbol := Symbol(U32_MAX)

  /** `Exhausted` is the panic of `intern_slow`; it leaves the state alone. */
  datatype Outcome = Issued(sym: Symbol) | Exhausted

  // ----- The sequential interner: a list of distinct strings -----

  ghost function IndexOf(strings: seq<Str>, s: Str): (i: nat)
    requires s in strings
    ensures i < |strings| && strings[i] == s
  {
    var i :| 0 <= i < |strings| && strings[i] == s;
    i
  }

  ghost function SeqIntern(strings: seq<Str>, s: Str): (r: (seq<Str>, Outcome)) {
    if s in strings then (strings, Issued(Symbol(IndexOf(strings, s))))
    else if |strings| < U32_MAX then (strings + [s], Issued(Symbol(|strings|)))
    else (strings, Exhausted)
  }

  function SeqResolve(strings: seq<Str>, sym: Symbol): Option<Str> {
    if sym == DUMMY then None
    else if sym.index < |strings| then Some(strings[sym.index])
    else None
  }

  // ----- The two tables -----

  /** `lookup` and `strings` are inverse to each other. */
  ghost predicate Inverse(lookup: map<Str, Symbol>, strings: seq<Str>) {
    && |strings| <= U32_MAX
    && (forall i | 0 <= i < |strings| :: strings[i] in lookup && lookup[strings[i]] == Symbol(i))
    && (forall s | s in lookup :: lookup[s].index < |strings| && strings[lookup[s].index] == s)
  }

  lemma InverseIsDistinct(lookup: map<Str, Symbol>, strings: seq<Str>)
    requires Inverse(lookup, strings)
    ensures NoDuplicates(strings)
  {
    forall i, j | 0 <= i < j < |strings| ensures strings[i] != strings[j] {
      assert lookup[strings[i]] == Symbol(i) && lookup[strings[j]] == Symbol(j);
    }
  }

  /** A lookup hit is what the sequential interner would answer. */
  lemma HitIsSequential(lookup: map<Str, Symbol>, strings: seq<Str>, s: Str)
    requires Inverse(lookup, strings)
    ensures s in lookup <==> s in strings
    ensures s in lookup ==> SeqIntern(strings, s) == (strings, Issued(lookup[s]))
  {
    InverseIsDistinct(lookup, strings);
    if s in strings { assert strings[IndexOf(strings, s)] == s; }
  }

  lemma InsertKeepsInverse(lookup: map<Str, Symbol>, strings: seq<Str>, s: Str)
    requires Inverse(lookup, strings) && s !in lookup && |strings| < U32_MAX
    ensures Inverse(lookup[s := Symbol(|strings|)], strings + [s])
  {
    var lookup', strings' := lookup[s := Symbol(|strings|)], strings + [s];
    forall i | 0 <= i < |strings'| ensures strings'[i] in lookup' && lookup'[strings'[i]] == Symbol(i) {
      if i < |strings| { assert strings'[i] == strings[i]; }
    }
    forall k | k in lookup' ensures lookup'[k].index < |strings'| && strings'[lookup'[k].index] == k {
      if k != s { assert strings'[lookup[k].index] == strings[lookup[k].index]; }
    }
  }

  // ----- The critical sections -----

  class Interner {
    var lookup: map<Str, Symbol>
    var strings: seq<Str>

    ghost predicate Valid()
      reads this
    {
      Inverse(lookup, strings)
    }

    constructor ()
      ensures Valid() && strings == []
    {
      lookup, strings := map[], [];
    }

    method Intern(s: Str) returns (r: Outcome)
      requires Valid()
      modifies this
      ensures Valid() && (strings, r) == SeqIntern(old(strings), s)
    {
      HitIsSequential(lookup, strings, s);
      if s in lookup {
        return Issued(lookup[s]);
      }
      r := InternSlow(s);
    }

    method InternSlow(s: Str) returns (r: Outcome)
      requires Valid()
      modifies this
      ensures Valid() && (strings, r) == SeqIntern(old(strings), s)
    {
      HitIsSequential(lookup, strings, s);
      if s in lookup {
        return Issued(lookup[s]);
      }
      var idx := |strings|;
      if idx >= U32_MAX {
        return Exhausted;
      }
      InsertKeepsInverse(lookup, strings, s);
      strings := strings + [s];
      lookup := lookup[s := Symbol(idx)];
      r := Issued(Symbol(idx));
    }

    /** The inverse of interning: exactly the string this symbol was issued for. */
    method TryResolve(sym: Symbol) returns (r: Option<Str>)
      requires Valid()
      ensures forall s :: r == Some(s) <==> s in lookup && lookup[s] == sym
      ensures r == SeqResolve(strings, sym)
    {
      if sym == DUMMY {
        return None;
      }
      r := if sym.index < |strings| then Some(strings[sym.index]) else None;
    }

    /** Look up without interning. */
    method Contains(s: Str) returns (r: Option<Symbol>)
      requires Valid()
      ensures r.Some? <==> s in strings
      ensures r.Some? ==> r.value.index < |strings| && strings[r.value.index] == s
    {
      HitIsSequential(lookup, strings, s);
      r := if s in lookup then Some(lookup[s]) else None;
    }
  }
}
