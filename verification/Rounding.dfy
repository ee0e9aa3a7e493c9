/** Rounding up to an alignment: the mask form `(value + mask) & !mask` on 64-bit words, and what it computes. */
module Rounding {
  function Pow2(k: nat): (p: nat)
    ensures p >= 1
  {
    if k == 0 then 1 else 2 * Pow2(k - 1)
  }

  const U64: nat := 0x1_0000_0000_0000_0000

  /** Bitwise conjunction. */
  function And(x: nat, y: nat): nat {
    if x == 0 || y == 0 then 0 else (x % 2) * (y % 2) + 2 * And(x / 2, y / 2)
  }

  /** Complement of a 64-bit word. */
  function Not(x: nat): nat
    requires x < U64
  {
    U64 - 1 - x
  }

  /** `round_up`: the sum wraps at 64 bits. */
  function RoundUp(value: nat, align: nat): nat
    requires value < U64 && 0 < align < U64
  {
    var mask := align - 1;
    And((value + mask) % U64, Not(mask))
  }

  /** The least multiple of `a` that is at least `v`. */
  function CeilTo(v: nat, a: nat): (r: nat)
    requires a > 0
    ensures r % a == 0 && v <= r < v + a
  {
    if v % a == 0 then v else
      MultipleAbove(v, a);
      v - v % a + a
  }

  lemma MultipleAbove(v: nat, a: nat)
    requires a > 0
    ensures v % a <= v && (v - v % a + a) % a == 0
  {
    var q := v / a;
    assert v - v % a + a == (q + 1) * a + 0;
    Remainder((q + 1) * a, q + 1, a, 0);
  }

  lemma {:induction false} Multiples(p: nat, q: nat, a: nat)
    ensures p < q ==> p * a + a <= q * a
  {
    if p + 1 < q {
      Multiples(p, q - 1, a);
      assert q * a == (q - 1) * a + a;
    }
  }

  /** Uniqueness of quotient and remainder. */
  lemma Remainder(v: nat, q: nat, a: nat, r: nat)
    requires r < a && v == q * a + r
    ensures v % a == r && v / a == q
  {
    assert v / a * a + v % a == v;
    Multiples(q, v / a, a);
    Multiples(v / a, q, a);
  }

  lemma CeilIsLeast(v: nat, a: nat, m: nat)
    requires a > 0 && m % a == 0 && v <= m
    ensures CeilTo(v, a) <= m
  {
    Multiples(m / a, CeilTo(v, a) / a, a);
    Multiples(CeilTo(v, a) / a, m / a, a);
  }

  // ----- The mask -----

  lemma {:induction false} AndWithOnes(x: nat, w: nat)
    requires x < Pow2(w)
    ensures And(x, Pow2(w) - 1) == x
  {
    if w > 0 {
      var y := Pow2(w) - 1;
      assert y % 2 == 1 && y / 2 == Pow2(w - 1) - 1;
      AndWithOnes(x / 2, w - 1);
    }
  }

  lemma AndOfDouble(x: nat, y: nat)
    ensures And(x, 2 * y) == 2 * And(x / 2, y)
  {
    assert 2 * y % 2 == 0 && 2 * y / 2 == y;
  }

  lemma HalfOfRemainder(x: nat, a: nat)
    requires a > 0
    ensures x % (2 * a) == 2 * (x / 2 % a) + x % 2
  {
    var q, r := x / 2 / a, x / 2 % a;
    assert x / 2 == q * a + r;
    assert x == q * (2 * a) + (2 * r + x % 2);
    Remainder(x, q, 2 * a, 2 * r + x % 2);
  }

  /** Clearing the low `k` bits of a `w`-bit word subtracts the remainder modulo `2^k`. */
  lemma {:induction false} AndWithMask(x: nat, w: nat, k: nat)
    requires k <= w && x < Pow2(w)
    ensures Pow2(k) <= Pow2(w) && And(x, Pow2(w) - Pow2(k)) == x - x % Pow2(k)
  {
    if k == 0 {
      AndWithOnes(x, w);
    } else {
      AndWithMask(x / 2, w - 1, k - 1);
      HalfOfRemainder(x, Pow2(k - 1));
      AndOfDouble(x, Pow2(w - 1) - Pow2(k - 1));
    }
  }

  lemma Square(k: nat, p: nat)
    requires Pow2(k) == p
    ensures Pow2(2 * k) == p * p
  {
    Pow2Sum(k, k);
  }

  lemma Pow2Of64()
    ensures Pow2(64) == U64
  {
    Square(4, 16);
    Square(8, 0x100);
    Square(16, 0x1_0000);
    Square(32, 0x1_0000_0000);
  }

  lemma {:induction false} Pow2Sum(i: nat, j: nat)
    ensures Pow2(i + j) == Pow2(i) * Pow2(j)
  {
    if i > 0 {
      Pow2Sum(i - 1, j);
      assert Pow2(i) * Pow2(j) == 2 * (Pow2(i - 1) * Pow2(j));
    }
  }

  /** For every power of two that fits a word the mask form is arithmetic rounding modulo `2^64`:
      it wraps to zero exactly when the rounded value needs 65 bits, and just then the sum overflows. */
  lemma MaskRoundsUp(value: nat, k: nat)
    requires value < U64 && k < 64
    ensures Pow2(k) < U64
    ensures RoundUp(value, Pow2(k)) == if CeilTo(value, Pow2(k)) < U64 then CeilTo(value, Pow2(k)) else 0
    ensures value + Pow2(k) - 1 < U64 <==> CeilTo(value, Pow2(k)) < U64
  {
    WordSplits(k);
    SumFits(value, Pow2(k), Pow2(64 - k));
    WordMask((value + Pow2(k) - 1) % U64, k);
    WrappedFloor(value, Pow2(k), Pow2(64 - k));
  }

  lemma WordSplits(k: nat)
    requires k < 64
    ensures U64 == Pow2(64 - k) * Pow2(k) && Pow2(k) < U64
  {
    Pow2Of64();
    Pow2Sum(64 - k, k);
    Multiples(1, Pow2(64 - k), Pow2(k));
  }

  lemma WordMask(x: nat, k: nat)
    requires k < 64 && x < U64 && Pow2(k) < U64
    ensures And(x, Not(Pow2(k) - 1)) == x - x % Pow2(k)
  {
    Pow2Of64();
    AndWithMask(x, 64, k);
  }

  lemma WrappedFloor(v: nat, a: nat, n: nat)
    requires a > 0 && v < n * a
    ensures var sum := (v + a - 1) % (n * a);
            sum - sum % a == if CeilTo(v, a) < n * a then CeilTo(v, a) else 0
  {
    CeilIsFloorOfSum(v, a);
    WordIsMultiple(CeilTo(v, a), a, n);
    var word, sum := n * a, v + a - 1;
    if sum < word {
      Remainder(sum, 0, word, sum);
    } else {
      Multiples(0, n, a);
      Remainder(sum, 1, word, sum - word);
      Remainder(sum - word, 0, a, sum - word);
    }
  }

  lemma SumFits(v: nat, a: nat, n: nat)
    requires a > 0
    ensures v + a - 1 < n * a <==> CeilTo(v, a) < n * a
  {
    CeilIsFloorOfSum(v, a);
    WordIsMultiple(CeilTo(v, a), a, n);
  }

  lemma CeilIsFloorOfSum(v: nat, a: nat)
    requires a > 0
    ensures CeilTo(v, a) == v + a - 1 - (v + a - 1) % a
  {
    var q, r := v / a, v % a;
    assert v == q * a + r;
    if r == 0 {
      Remainder(v + a - 1, q, a, a - 1);
    } else {
      assert v + a - 1 == (q + 1) * a + (r - 1);
      Remainder(v + a - 1, q + 1, a, r - 1);
    }
  }

  /** Below a word that is itself a multiple of `a`, a multiple of `a` leaves room for `a - 1` more. */
  lemma WordIsMultiple(r: nat, a: nat, n: nat)
    requires a > 0 && r % a == 0
    ensures r < n * a ==> r + a <= n * a
  {
    Multiples(r / a, n, a);
    Multiples(n, r / a, a);
  }
}
