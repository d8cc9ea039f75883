/** The 64-bit unsigned division helpers: shift-subtract, one bit of the dividend per turn. Machine
    words are numbers below 2^64; a shift that would lose a bit wraps. */
module LongDivision {
  import opened Dyadic

  predicate IsU64(x: nat) {
    x < Pow2(64)
  }

  function ShiftLeft(x: nat): nat {
    (2 * x) % Pow2(64)
  }

  function Bit(n: nat, i: nat): nat {
    (n / Pow2(i)) % 2
  }

  /** Bitwise or. */
  function Or(a: nat, b: nat): nat {
    if a == 0 then b else if b == 0 then a
    else 2 * Or(a / 2, b / 2) + (if a % 2 + b % 2 > 0 then 1 else 0)
  }

  /** Setting bit i of a word whose bits i and below are clear adds 2^i. */
  lemma {:induction false} OrSetsClearBit(h: nat, i: nat)
    ensures Or(h * Pow2(i + 1), Pow2(i)) == h * Pow2(i + 1) + Pow2(i)
    decreases i
  {
    var a, b := h * Pow2(i + 1), Pow2(i);
    if i == 0 {
      assert Pow2(1) == 2;
      assert a / 2 == h;
    } else {
      assert a == 2 * (h * Pow2(i)) by { assert Pow2(i + 1) == 2 * Pow2(i); }
      OrSetsClearBit(h, i - 1);
      assert a / 2 == h * Pow2(i) && b / 2 == Pow2(i - 1) && a % 2 == 0 && b % 2 == 0;
    }
  }

  lemma OrLowBit(x: nat, bit: nat)
    requires bit < 2
    ensures Or(2 * x, bit) == 2 * x + bit
  {
  }

  /** The leading part of n one bit longer. */
  lemma NextPrefix(n: nat, i: nat)
    ensures n / Pow2(i) == 2 * (n / Pow2(i + 1)) + Bit(n, i)
  {
    var d, x := Pow2(i), n / Pow2(i);
    var r := n % d;
    assert n == x * d + r;
    var b := x % 2;
    assert n == (x / 2) * (2 * d) + (b * d + r) by { assert x == 2 * (x / 2) + b; }
    assert 0 <= b * d + r < 2 * d;
    DivUnique(n, 2 * d, x / 2, b * d + r);
  }

  /** While bits below i + 1 are still to come, the remainder is at most the leading part of n, so
      shifting it left loses nothing, however large the divisor is. */
  lemma ShiftIsExact(n: nat, i: nat, r: nat)
    requires IsU64(n) && i < 64 && r <= n / Pow2(i + 1)
    ensures 2 * r + 1 < Pow2(64) && ShiftLeft(r) == 2 * r
  {
    var d := Pow2(i + 1);
    Pow2Step(i);
    Pow2Step(63);
    Floor(n, d);
    HalfBound(n, d, n / d, Pow2(63));
    DivUnique(2 * r, Pow2(64), 0, 2 * r);
  }

  lemma HalfBound(n: nat, d: nat, x: nat, p: nat)
    requires d >= 2 && d * x <= n < 2 * p
    ensures x < p
  {
    MulMonotone(2, d, x);
  }

  lemma Floor(n: nat, d: nat)
    requires d > 0
    ensures d * (n / d) <= n
  {
  }

  /** The leading part of n, all bits above bit i, is h * d + r with r a remainder. */
  ghost predicate Leading(n: nat, d: nat, i: int, h: nat, r: nat) {
    0 <= i + 1 && n / Pow2(i + 1) == h * d + r && r < d
  }

  ghost predicate QuotientBits(q: nat, i: int, h: nat) {
    0 <= i + 1 && q == h * Pow2(i + 1)
  }

  /** One turn: take the next bit in and subtract if possible. */
  lemma Turn(n: nat, d: nat, i: nat, h: nat, r: nat)
    requires IsU64(n) && i < 64 && Leading(n, d, i, h, r)
    ensures var s := Or(ShiftLeft(r), Bit(n, i));
            if s >= d then Leading(n, d, i - 1, 2 * h + 1, s - d) else Leading(n, d, i - 1, 2 * h, s)
  {
    TakeBit(n, d, i, h, r);
    NextPrefix(n, i);
    Distribute(h, d);
  }

  lemma Distribute(h: nat, d: nat)
    ensures 2 * (h * d) == (2 * h) * d == h * (2 * d) && (2 * h + 1) * d == (2 * h) * d + d
  {
  }

  /** What the shift and the or make of the remainder. */
  lemma TakeBit(n: nat, d: nat, i: nat, h: nat, r: nat)
    requires IsU64(n) && i < 64 && Leading(n, d, i, h, r)
    ensures Or(ShiftLeft(r), Bit(n, i)) == 2 * r + Bit(n, i) < Pow2(64)
  {
    hide Pow2;
    MulMonotone(0, h, d);
    ShiftIsExact(n, i, r);
    OrLowBit(r, Bit(n, i));
  }

  /** Setting bit i of the quotient, or leaving it clear. */
  lemma QuotientBit(q: nat, i: nat, h: nat)
    requires QuotientBits(q, i, h)
    ensures QuotientBits(q, i - 1, 2 * h) && QuotientBits(Or(q, Pow2(i)), i - 1, 2 * h + 1)
  {
    OrSetsClearBit(h, i);
    Pow2Step(i);
    Distribute(h, Pow2(i));
  }

  lemma Start(n: nat, d: nat)
    requires IsU64(n) && d > 0
    ensures Leading(n, d, 63, 0, 0) && QuotientBits(0, 63, 0)
  {
    DivUnique(n, Pow2(64), 0, n);
  }

  lemma End(n: nat, d: nat, h: nat, r: nat, q: nat)
    requires Leading(n, d, -1, h, r)
    ensures n == h * d + r && r < d && (QuotientBits(q, -1, h) ==> q == h)
  {
    Pow2Step(0);
  }

  method UDivDi3(n: nat, d: nat) returns (q: nat)
    requires IsU64(n) && IsU64(d)
    ensures d == 0 ==> q == 0
    ensures d > 0 ==> q * d <= n < q * d + d
  {
    hide *;
    if d == 0 { return 0; }
    q := 0;
    var r: nat := 0;
    var i: int := 63;
    Start(n, d);
    ghost var h: nat := 0;
    while i >= 0
      invariant -1 <= i <= 63
      invariant Leading(n, d, i, h, r) && QuotientBits(q, i, h)
    {
      Turn(n, d, i, h, r);
      QuotientBit(q, i, h);
      h := 2 * h;
      r := ShiftLeft(r);
      r := Or(r, Bit(n, i));
      if r >= d {
        r := r - d;
        q := Or(q, Pow2(i));
        h := h + 1;
      }
      i := i - 1;
    }
    End(n, d, h, r, q);
  }

  method UModDi3(n: nat, d: nat) returns (r: nat)
    requires IsU64(n) && IsU64(d)
    ensures d == 0 ==> r == 0
    ensures d > 0 ==> r < d && exists q: nat :: n == q * d + r
  {
    hide *;
    if d == 0 { return 0; }
    r := 0;
    var i: int := 63;
    Start(n, d);
    ghost var h: nat := 0;
    while i >= 0
      invariant -1 <= i <= 63
      invariant Leading(n, d, i, h, r)
    {
      Turn(n, d, i, h, r);
      h := 2 * h;
      r := ShiftLeft(r);
      r := Or(r, Bit(n, i));
      if r >= d {
        r := r - d;
        h := h + 1;
      }
      i := i - 1;
    }
    End(n, d, h, r, 0);
  }

  /** The two helpers agree: what they return is the one quotient and remainder of n by d. */
  lemma QuotientAndRemainderAreUnique(n: nat, d: nat, q: nat, r: nat, s: nat)
    requires d > 0 && q * d <= n < q * d + d && r < d && n == s * d + r
    ensures s == q && r == n - q * d && q == n / d && r == n % d
  {
    DivUnique(n, d, q, n - q * d);
    DivUnique(n, d, s, r);
  }
}
