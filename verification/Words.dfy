/** Unsigned 32-bit arithmetic on numbers: wrap-around, the bitwise and, and rounding up to an alignment
    as the allocators write it. */
module Words {
  import opened Dyadic

  const U32: nat := 0x1_0000_0000

  function Wrap(x: nat): (r: nat)
    ensures r < U32
    ensures x < U32 ==> r == x
  {
    x % U32
  }

  lemma WrapOnce(x: nat)
    requires x < 2 * U32
    ensures Wrap(x) == if x < U32 then x else x - U32
  {
  }

  /** x & y. */
  function And(x: nat, y: nat): nat {
    if x == 0 then 0 else 2 * And(x / 2, y / 2) + (if x % 2 == 1 && y % 2 == 1 then 1 else 0)
  }

  /** The test of is_power_of_two, as a recursion on the number. */
  predicate IsPowerOfTwo(n: nat) {
    n == 1 || (n > 0 && n % 2 == 0 && IsPowerOfTwo(n / 2))
  }

  /** alignment - 1 on 32 bits. */
  function Mask(alignment: nat): (m: nat)
    ensures alignment < U32 ==> m < U32
  {
    if alignment == 0 then U32 - 1 else alignment - 1
  }

  /** (x + alignment - 1) & ~(alignment - 1), with every operation on 32 bits. */
  function AlignUp(x: nat, alignment: nat): (r: nat)
    requires alignment < U32
  {
    And(Wrap(x + Mask(alignment)), U32 - 1 - Mask(alignment))
  }

  /** The same on numbers without a bound. */
  function Round(x: nat, alignment: nat): (r: nat)
    ensures r >= x
  {
    AndBelow(x + Mask(alignment), Mask(alignment));
    x + Mask(alignment) - And(x + Mask(alignment), Mask(alignment))
  }

  // ---- the bitwise and ----

  /** Bit k of the and of two numbers is set exactly if it is in both. */
  lemma {:induction false} AndIsBitwise(x: nat, y: nat, k: nat)
    ensures And(x, y) / Pow2(k) % 2 == 1 <==> x / Pow2(k) % 2 == 1 && y / Pow2(k) % 2 == 1
  {
    Pow2Step(k);
    if k == 0 {
      if x == 0 { AndZero(y); }
    } else {
      AndHalf(x, y);
      HigherBit(And(x, y), k);
      HigherBit(x, k);
      HigherBit(y, k);
      hide And, Pow2;
      AndIsBitwise(x / 2, y / 2, k - 1);
    }
  }

  lemma AndHalf(x: nat, y: nat)
    ensures And(x, y) / 2 == And(x / 2, y / 2)
  {
  }

  lemma HigherBit(x: nat, k: nat)
    requires k > 0
    ensures x / Pow2(k) == x / 2 / Pow2(k - 1)
  {
    Pow2Step(k - 1);
    var d := Pow2(k - 1);
    hide Pow2;
    var q, r := x / 2 / d, x / 2 % d;
    assert x / 2 == q * d + r;
    assert x == q * (2 * d) + (2 * r + x % 2);
    DivUnique(x, 2 * d, q, 2 * r + x % 2);
  }

  lemma {:induction false} AndBelow(x: nat, y: nat)
    ensures And(x, y) <= x && And(x, y) <= y
  {
    if x > 0 { AndBelow(x / 2, y / 2); }
  }

  lemma {:induction false} AndSelf(x: nat)
    ensures And(x, x) == x
  {
    if x > 0 { AndSelf(x / 2); }
  }

  lemma {:induction false} AndZero(x: nat)
    ensures And(x, 0) == 0 && And(0, x) == 0
  {
    if x > 0 { AndZero(x / 2); }
  }

  lemma Halves(n: nat)
    requires n > 0
    ensures Pow2(n) / 2 == Pow2(n - 1) && Pow2(n) % 2 == 0 && (Pow2(n) - 1) / 2 == Pow2(n - 1) - 1
  {
    Pow2Step(n - 1);
  }

  /** The bits of a word that a mask does not keep are those its complement keeps. */
  lemma {:induction false} AndComplement(x: nat, y: nat, n: nat)
    requires x < Pow2(n) && y < Pow2(n)
    ensures And(x, y) + And(x, Pow2(n) - 1 - y) == x
    decreases n
  {
    if x > 0 && n > 0 {
      Halves(n);
      hide Pow2;
      var p, q := Pow2(n), Pow2(n - 1);
      assert p == 2 * q;
      assert (p - 1 - y) / 2 == q - 1 - y / 2;
      assert (p - 1 - y) % 2 == 1 - y % 2;
      AndComplement(x / 2, y / 2, n - 1);
    }
  }

  /** Bits above a mask do not count. */
  lemma {:induction false} AndIgnores(x: nat, h: nat, y: nat, n: nat)
    requires y < Pow2(n)
    ensures And(x + h * Pow2(n), y) == And(x, y)
    decreases n
  {
    if n == 0 {
      AndZero(x);
      AndZero(x + h * Pow2(n));
    } else {
      Halves(n);
      AndIgnores(x / 2, h, y / 2, n - 1);
      DoubleProduct(h, n);
      AndOfHalves(x, h * Pow2(n - 1), y);
    }
  }

  lemma AndOfHalves(x: nat, z: nat, y: nat)
    requires And(x / 2 + z, y / 2) == And(x / 2, y / 2)
    ensures And(x + 2 * z, y) == And(x, y)
  {
    AndHalves(x + 2 * z, y);
    AndHalves(x, y);
    assert (x + 2 * z) / 2 == x / 2 + z && (x + 2 * z) % 2 == x % 2;
  }

  lemma DoubleProduct(h: nat, n: nat)
    requires n > 0
    ensures h * Pow2(n) == 2 * (h * Pow2(n - 1))
  {
    Pow2Step(n - 1);
  }

  lemma AndHalves(x: nat, y: nat)
    ensures And(x, y) == 2 * And(x / 2, y / 2) + (if x % 2 == 1 && y % 2 == 1 then 1 else 0)
  {
  }

  lemma ThirtyTwo()
    ensures Pow2(32) == U32
  {
    Pow2Sum(16, 16);
    Pow2Sum(8, 8);
    Pow2Sum(4, 4);
    Pow2Sum(2, 2);
    Pow2Step(0);
    Pow2Step(1);
  }

  lemma {:induction false} Pow2Sum(a: nat, b: nat)
    ensures Pow2(a + b) == Pow2(a) * Pow2(b)
    decreases b
  {
    if b > 0 {
      Pow2Sum(a, b - 1);
      Pow2Step(b - 1);
      Pow2Step(a + b - 1);
    }
  }

  // ---- rounding up ----

  /** The masked sum is the rounded number, on 32 bits: for every alignment, also one that is no power of
      two. */
  lemma MaskIsRounding(x: nat, alignment: nat)
    requires x < U32 && alignment < U32
    ensures AlignUp(x, alignment) == Wrap(Round(x, alignment))
    ensures Round(x, alignment) < U32 ==> x + Mask(alignment) < U32
  {
    hide And, Pow2;
    ThirtyTwo();
    var m := Mask(alignment);
    var s, w := x + m, Wrap(x + m);
    AndComplement(w, m, 32);
    AndIgnores(w, if s < U32 then 0 else 1, m, 32);
    AndBelow(w, m);
  }

  /** The test `alignment & (alignment - 1)` finds the powers of two. */
  lemma {:induction false} PowerTest(a: nat)
    requires a > 0
    ensures And(a, a - 1) == 0 <==> IsPowerOfTwo(a)
  {
    if a % 2 == 1 {
      assert (a - 1) / 2 == a / 2;
      AndSelf(a / 2);
    } else {
      assert (a - 1) / 2 == a / 2 - 1;
      PowerTest(a / 2);
    }
  }

  /** For a power of two the low bits are the remainder. */
  lemma {:induction false} LowBitsAreRemainder(x: nat, a: nat)
    requires IsPowerOfTwo(a)
    ensures a > 0 && And(x, a - 1) == x % a
  {
    if a == 1 {
      AndZero(x);
    } else {
      var b := a / 2;
      LowBitsAreRemainder(x / 2, b);
      assert (a - 1) / 2 == b - 1;
      if x == 0 { AndZero(a - 1); }
      HalfRemainder(x, b);
    }
  }

  lemma HalfRemainder(x: nat, b: nat)
    requires b > 0
    ensures x % (2 * b) == 2 * ((x / 2) % b) + x % 2
  {
    var q, r := (x / 2) / b, (x / 2) % b;
    assert x / 2 == q * b + r;
    assert x == q * (2 * b) + (2 * r + x % 2);
    DivUnique(x, 2 * b, q, 2 * r + x % 2);
  }

  predicate IsMultiple(x: nat, a: nat)
    requires a > 0
  {
    x % a == 0
  }

  /** Rounding to a power of two gives the next multiple. */
  lemma RoundIs(x: nat, a: nat)
    requires IsPowerOfTwo(a)
    ensures a > 0
    ensures var r := Round(x, a);
      && IsMultiple(r, a) && x <= r < x + a && (x > 0 ==> r >= a)
  {
    RoundClearsRemainder(x, a);
    NextMultipleAt(x, a, Round(x, a));
  }

  lemma RoundClearsRemainder(x: nat, a: nat)
    requires IsPowerOfTwo(a)
    ensures a > 0 && Round(x, a) == x + a - 1 - (x + a - 1) % a
  {
    LowBitsAreRemainder(x + a - 1, a);
    hide And, IsPowerOfTwo;
  }

  lemma NextMultipleAt(x: nat, a: nat, r: nat)
    requires a > 0 && r == x + a - 1 - (x + a - 1) % a
    ensures IsMultiple(r, a) && x <= r < x + a && (x > 0 ==> r >= a)
  {
    NextMultipleIs(x, a);
  }

  lemma NextMultipleIs(x: nat, a: nat)
    requires a > 0
    ensures var s := x + a - 1;
      && IsMultiple(s - s % a, a) && x <= s - s % a < x + a && (x > 0 ==> s - s % a >= a)
  {
    var s := x + a - 1;
    var q := Quotient(s, a);
    assert s == q * a + s % a;
    MultipleOf(q, a);
    if q == 0 { assert q * a == 0; } else { MulMonotone(1, q, a); }
  }

  lemma RoundBelow(x: nat, a: nat)
    ensures Round(x, a) <= x + Mask(a)
  {
  }

  /** What rounding gives has none of the low bits. */
  lemma {:induction false} ClearedBits(s: nat, m: nat)
    ensures And(s, m) <= s && And(s - And(s, m), m) == 0
  {
    AndBelow(s, m);
    if s > 0 {
      ClearedBits(s / 2, m / 2);
      AndBelow(s / 2, m / 2);
      var t, b := s - And(s, m), if s % 2 == 1 && m % 2 == 1 then 1 else 0;
      assert t == 2 * (s / 2 - And(s / 2, m / 2)) + (s % 2 - b);
    }
  }

  lemma RoundIsClear(x: nat, a: nat)
    ensures And(Round(x, a), Mask(a)) == 0
  {
    ClearedBits(x + Mask(a), Mask(a));
  }

  lemma {:induction false} ShiftedAnd(k: nat)
    ensures And(2 * k, k) == k <==> k == 0
  {
    AndZero(k);
    if k > 0 {
      AndHalves(2 * k, k);
      hide And;
      assert (2 * k) / 2 == k;
      if k % 2 == 0 {
        assert 2 * (k / 2) == k;
        ShiftedAnd(k / 2);
      }
    }
  }

  /** The bits of m are among those of 2m + 1 exactly if m is all ones. */
  lemma {:induction false} OnesOnly(m: nat)
    ensures And(2 * m + 1, m) == m <==> IsPowerOfTwo(m + 1)
  {
    if m > 0 {
      assert (2 * m + 1) / 2 == m;
      var k := m / 2;
      assert And(2 * m + 1, m) == 2 * And(m, k) + m % 2;
      if m % 2 == 0 {
        ShiftedAnd(k);
      } else {
        OnesOnly(k);
        assert (m + 1) / 2 == k + 1;
      }
    }
  }

  /** Masking rounds every number up to a multiple exactly for the powers of two; any other alignment
      already fails on itself. */
  lemma RoundsToMultiplesIff(a: nat)
    requires a > 0
    ensures (forall x: nat :: Round(x, a) % a == 0) <==> IsPowerOfTwo(a)
    ensures !IsPowerOfTwo(a) ==> a < Round(a, a) < 2 * a && Round(a, a) % a != 0
  {
    hide And;
    if IsPowerOfTwo(a) {
      forall x: nat ensures Round(x, a) % a == 0 { RoundIs(x, a); }
    } else {
      OnesOnly(a - 1);
      AndBelow(2 * a - 1, a - 1);
      assert Round(a, a) == 2 * a - 1 - And(2 * a - 1, a - 1);
      DivUnique(Round(a, a), a, 1, Round(a, a) - a);
    }
  }

  lemma {:induction false} PowerIs(a: nat) returns (k: nat)
    requires IsPowerOfTwo(a)
    ensures a == Pow2(k)
  {
    if a == 1 {
      k := 0;
    } else {
      var j := PowerIs(a / 2);
      Pow2Step(j);
      k := j + 1;
    }
  }

  /** A number from which rounding to a power of two leads out of 32 bits is masked to 0. */
  lemma WrappedIsZero(x: nat, a: nat)
    requires IsPowerOfTwo(a) && a < U32 && x < U32 && x + a - 1 >= U32
    ensures AlignUp(x, a) == 0 && x > U32 / 2
  {
    hide AlignUp, Round, IsPowerOfTwo;
    RoundOnWords(x, a);
    DividesWords(a);
    MaskIsRounding(x, a);
  }

  /** Rounding a word to a power of two stays a word, or gives 2^32, which is masked to 0. */
  lemma RoundOnWords(x: nat, a: nat)
    requires IsPowerOfTwo(a) && a < U32 && x < U32
    ensures var r := Round(x, a);
      && x <= r < x + a && (r == U32 || r + a <= U32) && AlignUp(x, a) == if r == U32 then 0 else r
  {
    hide AlignUp, Round, IsPowerOfTwo, IsMultiple;
    DividesWords(a);
    MaskIsRounding(x, a);
    RoundIs(x, a);
    MultiplesApart(Round(x, a), U32, a);
  }

  lemma DividesWords(a: nat)
    requires IsPowerOfTwo(a) && a < U32
    ensures 0 < a <= U32 / 2 && IsMultiple(U32, a)
  {
    var k := PowerIs(a);
    ThirtyTwo();
    assert k < 32 by {
      if k >= 32 { Pow2Monotone(32, k); }
    }
    Pow2Monotone(k, 31);
    Pow2Monotone(k, 32);
    Pow2Step(31);
  }

  lemma MultiplesApart(x: nat, y: nat, a: nat)
    requires a > 0 && IsMultiple(x, a) && IsMultiple(y, a)
    ensures x == y || x + a <= y || y + a <= x
  {
    if x < y { NextMultiple(x, y, a); }
    if y < x { NextMultiple(y, x, a); }
  }
}
