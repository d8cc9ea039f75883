/** Powers of two and the aligned ("dyadic") page ranges the buddy allocator works with. */
module Dyadic {

  function Pow2(k: nat): (r: nat)
    ensures r >= 1
  {
    if k == 0 then 1 else 2 * Pow2(k - 1)
  }

  lemma Pow2Step(k: nat)
    ensures Pow2(0) == 1 && Pow2(k + 1) == 2 * Pow2(k)
  {
  }

  /** What `^ 1` does to an index: an even one goes up, an odd one goes down. */
  function XorOne(i: nat): nat {
    if i % 2 == 0 then i + 1 else i - 1
  }

  /** The buddy of the range of order k at page p, by the allocator's own index arithmetic. */
  function Buddy(p: nat, k: nat): nat {
    Times(XorOne(Quotient(p, Pow2(k))), Pow2(k))
  }

  function Quotient(a: nat, d: nat): nat
    requires d > 0
  {
    a / d
  }

  function Times(a: nat, b: nat): nat {
    a * b
  }

  lemma TimesNext(i: nat, n: nat)
    ensures Times(i + 1, n) == Times(i, n) + n
  {
  }

  lemma TimesSwap(i: nat, n: nat)
    ensures Times(i, n) == Times(n, i)
  {
  }

  function Min(a: nat, b: nat): nat {
    if a <= b then a else b
  }

  predicate Aligned(p: nat, k: nat) {
    p % Pow2(k) == 0
  }

  lemma MultipleOf(x: nat, d: nat)
    requires d > 0
    ensures (x * d) % d == 0
    ensures (x * d) / d == x
  {
    DivUnique(x * d, d, x, 0);
  }

  lemma DivUnique(a: int, d: int, q: int, r: int)
    requires d > 0 && 0 <= r < d && a == q * d + r
    ensures a / d == q && a % d == r
  {
    var e := a / d - q;
    assert e * d == r - a % d by { assert a == (a / d) * d + a % d; }
    if e != 0 { Outside(e, d); }
  }

  /** Only the zero multiple of d lies strictly between -d and d. */
  lemma Outside(e: int, d: int)
    requires d > 0 && e != 0
    ensures e * d >= d || e * d <= -d
  {
    assert e * d >= d <==> (e - 1) * d >= 0;
  }

  /** Two different multiples of d are at least d apart. */
  lemma NextMultiple(a: nat, b: nat, d: nat)
    requires d > 0 && a % d == 0 && b % d == 0 && a < b
    ensures a + d <= b
  {
    var x, y := a / d, b / d;
    assert a == x * d && b == y * d;
    if y <= x {
      MulMonotone(y, x, d);
      assert false;
    }
    MulMonotone(x + 1, y, d);
  }

  lemma MulMonotone(x: int, y: int, d: nat)
    requires x <= y
    ensures x * d <= y * d
  {
    assert (y - x) * d >= 0;
  }

  lemma SumOfMultiples(a: nat, b: nat, d: nat)
    requires d > 0 && a % d == 0 && b % d == 0
    ensures (a + b) % d == 0
  {
    var x, y := a / d, b / d;
    assert a + b == (x + y) * d;
    MultipleOf(x + y, d);
  }

  lemma {:induction false} Coarser(p: nat, k: nat, l: nat)
    requires k <= l && Aligned(p, l)
    ensures Aligned(p, k)
    decreases l
  {
    if k < l {
      var d := Pow2(l - 1);
      assert p == (2 * (p / Pow2(l))) * d by { assert p == (p / Pow2(l)) * (2 * d); }
      MultipleOf(2 * (p / Pow2(l)), d);
      Coarser(p, k, l - 1);
    }
  }

  lemma {:induction false} Pow2Monotone(k: nat, l: nat)
    requires k <= l
    ensures Pow2(k) <= Pow2(l)
    ensures Aligned(Pow2(l), k)
    decreases l
  {
    MultipleOf(1, Pow2(l));
    Coarser(Pow2(l), k, l);
    if k < l { Pow2Monotone(k, l - 1); }
  }

  /** Aligned ranges never overlap partially: they are disjoint, or the smaller lies inside the larger. */
  lemma Nest(p: nat, k: nat, q: nat, l: nat)
    requires k <= l && Aligned(p, k) && Aligned(q, l)
    ensures p + Pow2(k) <= q || q + Pow2(l) <= p || (q <= p && p + Pow2(k) <= q + Pow2(l))
  {
    Coarser(q, k, l);
    Pow2Monotone(k, l);
    SumOfMultiples(q, Pow2(l), Pow2(k));
    if p < q {
      NextMultiple(p, q, Pow2(k));
    } else if p < q + Pow2(l) {
      NextMultiple(p, q + Pow2(l), Pow2(k));
    }
  }

  /** A range and its buddy are the two halves of one aligned range of the next order. */
  lemma BuddyFacts(p: nat, k: nat)
    requires Aligned(p, k)
    ensures var q := Buddy(p, k);
            && Aligned(q, k)
            && Buddy(q, k) == p
            && (q == p + Pow2(k) || p == q + Pow2(k))
            && Aligned(Min(p, q), k + 1)
  {
    var d, i := Pow2(k), p / Pow2(k);
    var q := Buddy(p, k);
    assert p == i * d;
    IndexBuddy(i, d);
    assert q / d == XorOne(i) && q % d == 0;
    assert Pow2(k + 1) == 2 * d;
  }

  lemma IndexBuddy(i: nat, d: nat)
    requires d > 0
    ensures var j := XorOne(i);
            && XorOne(j) == i
            && (j * d) % d == 0 && (j * d) / d == j
            && (j * d == i * d + d || i * d == j * d + d)
            && Min(i * d, j * d) % (2 * d) == 0
  {
    var m := i / 2;
    MultipleOf(XorOne(i), d);
    MultipleOf(m, 2 * d);
    assert m * (2 * d) == (2 * m) * d;
    assert (2 * m + 1) * d == (2 * m) * d + d;
  }

  /** The lower half of an aligned range of order k + 1 has the upper half as its buddy. */
  lemma HalfFacts(p: nat, k: nat)
    requires Aligned(p, k + 1)
    ensures Aligned(p, k) && Aligned(p + Pow2(k), k)
    ensures Buddy(p, k) == p + Pow2(k) && Buddy(p + Pow2(k), k) == p
  {
    var d, m := Pow2(k), p / Pow2(k + 1);
    assert p == (2 * m) * d by { assert p == m * (2 * d); }
    assert p + d == (2 * m + 1) * d;
    MultipleOf(2 * m, d);
    MultipleOf(2 * m + 1, d);
  }
}
