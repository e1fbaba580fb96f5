/** Unsigned machine words as natural numbers, with their bitwise operators.

  The operators recurse over the binary digits, least significant digit first, so
  that facts about them are proved by induction on the number of digits. */
module Words {
  const TWO64: int := 0x1_0000_0000_0000_0000

  type U64 = x: nat | x < TWO64

  function Pow2(n: nat): (p: nat)
    ensures p >= 1
  {
    if n == 0 then 1 else 2 * Pow2(n - 1)
  }

  function And(x: nat, y: nat): (r: nat)
    ensures r <= x && r <= y
    decreases x
  {
    if x == 0 || y == 0 then 0
    else 2 * And(x / 2, y / 2) + (if x % 2 == 1 && y % 2 == 1 then 1 else 0)
  }

  function Or(x: nat, y: nat): (r: nat)
    ensures x <= r && y <= r <= x + y
    decreases x + y
  {
    if x == 0 && y == 0 then 0
    else 2 * Or(x / 2, y / 2) + (if x % 2 == 1 || y % 2 == 1 then 1 else 0)
  }

  function Xor(x: nat, y: nat): (r: nat)
    ensures r <= x + y
    ensures r == 0 <==> x == y
    decreases x + y
  {
    if x == 0 && y == 0 then 0
    else 2 * Xor(x / 2, y / 2) + (if x % 2 != y % 2 then 1 else 0)
  }

  /** `x & ~m`, without reference to a word width. */
  function AndNot(x: nat, m: nat): (r: nat)
    ensures r <= x
    decreases x
  {
    if x == 0 then 0 else 2 * AndNot(x / 2, m / 2) + (if m % 2 == 1 then 0 else x % 2)
  }

  /** The complement of a 64-bit word. */
  function Not(x: U64): U64 {
    TWO64 - 1 - x
  }

  // ----- powers of two -----

  lemma {:induction false} Pow2Sum(m: nat, n: nat)
    ensures Pow2(m + n) == Pow2(m) * Pow2(n)
  {
    if m == 0 {
    } else {
      Pow2Sum(m - 1, n);
      assert Pow2(m + n) == 2 * Pow2(m - 1 + n);
      assert 2 * (Pow2(m - 1) * Pow2(n)) == (2 * Pow2(m - 1)) * Pow2(n);
    }
  }

  lemma {:induction false} Pow2Monotone(m: nat, n: nat)
    requires m <= n
    ensures Pow2(m) <= Pow2(n)
    decreases n
  {
    if m < n {
      Pow2Monotone(m, n - 1);
    }
  }

  lemma {:induction false} Pow2Values()
    ensures Pow2(0) == 1 && Pow2(1) == 2 && Pow2(2) == 4 && Pow2(4) == 16 && Pow2(8) == 0x100
    ensures Pow2(16) == 0x1_0000 && Pow2(32) == 0x1_0000_0000 && Pow2(64) == TWO64
  {
    assert Pow2(4) == 16;
    Pow2Square(4, 8);
    Pow2Square(8, 16);
    Pow2Square(16, 32);
    Pow2Square(32, 64);
  }

  lemma {:induction false} Pow2Square(n: nat, m: nat)
    requires m == n + n
    ensures Pow2(m) == Pow2(n) * Pow2(n)
  {
    Pow2Sum(n, n);
  }

  /** The word shifted right by `k` digits. */
  function Shr(v: nat, k: nat): (r: nat)
    ensures r <= v
  {
    DivShrinks(v, Pow2(k));
    v / Pow2(k)
  }

  lemma {:induction false} DivShrinks(w: nat, p: nat)
    requires p > 0
    ensures 0 <= w / p <= w
  {
    var q := w / p;
    assert w == p * q + w % p;
    if q > w {
      MulMonotone(q, 1, p);
    }
    if q < 0 {
      MulMonotone(p, q, -1);
    }
  }

  /** Halving and then shifting by `k` is shifting by `k` and then halving. */
  lemma {:induction false} ShiftHalf(v: nat, k: nat)
    ensures Shr(v / 2, k) == Shr(v, k + 1) == Shr(v, k) / 2
  {
    DivDiv(v, 2, Pow2(k));
    DivDiv(v, Pow2(k), 2);
  }

  lemma {:induction false} DivDiv(v: nat, a: nat, b: nat)
    requires a > 0 && b > 0
    ensures a * b > 0 && (v / a) / b == v / (a * b)
  {
    var q := v / a;
    var p := q / b;
    var r, s := v % a, q % b;
    assert v == a * q + r && q == b * p + s;
    assert a * q == a * (b * p) + a * s by { MulDistributes(a, b * p, s); }
    assert a * (b * p) == (a * b) * p by { MulAssociates(a, b, p); }
    MulMonotone(a, s, b - 1);
    assert a * (b - 1) == a * b - a by { MulDistributes(a, b, -1); }
    assert a * s >= 0;
    DivUnique(v, a * b, p, a * s + r);
  }

  lemma {:induction false} MulDistributes(a: int, x: int, y: int)
    ensures a * (x + y) == a * x + a * y
  {}

  lemma {:induction false} MulAssociates(a: int, b: int, c: int)
    ensures a * (b * c) == (a * b) * c
  {}

  lemma {:induction false} MulMonotone(a: int, x: int, y: int)
    requires a >= 0 && x <= y
    ensures a * x <= a * y
  {}

  /** The quotient and the remainder are determined by their defining equation. */
  lemma {:induction false} DivUnique(v: int, d: int, q: int, r: int)
    requires d > 0 && 0 <= r < d && v == d * q + r
    ensures v / d == q && v % d == r
  {
    var p, s := v / d, v % d;
    assert v == d * p + s;
    assert d * (p - q) == r - s by { MulDistributes(d, p, -q); }
    if p > q {
      MulMonotone(d, 1, p - q);
    } else if p < q {
      MulMonotone(d, p - q, -1);
    }
  }

  // ----- width of results -----

  lemma {:induction false} BitwiseWidth(n: nat, x: nat, y: nat)
    requires x < Pow2(n) && y < Pow2(n)
    ensures Or(x, y) < Pow2(n) && Xor(x, y) < Pow2(n)
  {
    if n > 0 {
      BitwiseWidth(n - 1, x / 2, y / 2);
    }
  }

  lemma {:induction false} WordWidth(x: U64, y: U64)
    ensures Or(x, y) < TWO64 && Xor(x, y) < TWO64
  {
    Pow2Values();
    BitwiseWidth(64, x, y);
  }

  lemma {:induction false} AndNotIsMasking(n: nat, x: nat, m: nat)
    requires x < Pow2(n) && m < Pow2(n)
    ensures And(x, Pow2(n) - 1 - m) == AndNot(x, m)
  {
    if n > 0 && x > 0 {
      var c := Pow2(n) - 1 - m;
      assert c / 2 == Pow2(n - 1) - 1 - m / 2 && c % 2 == 1 - m % 2;
      AndNotIsMasking(n - 1, x / 2, m / 2);
    }
  }

  /** Masking with a complemented word, as the source writes it. */
  lemma {:induction false} MaskedOut(x: U64, m: U64)
    ensures And(x, Not(m)) == AndNot(x, m)
  {
    Pow2Values();
    AndNotIsMasking(64, x, m);
  }

  // ----- the order on bit sets -----

  /** Every digit of `p` is at most the matching digit of `x`. */
  predicate Covers(p: nat, x: nat) {
    p == 0 || (p % 2 <= x % 2 && Covers(p / 2, x / 2))
  }

  /** `x` and `y` have the same digits wherever `d` has the digit 0. */
  predicate Agree(x: nat, y: nat, d: nat)
    decreases x + y
  {
    (x == 0 && y == 0) || ((d % 2 == 1 || x % 2 == y % 2) && Agree(x / 2, y / 2, d / 2))
  }

  lemma {:induction false} CoversIsBelow(p: nat, x: nat)
    requires Covers(p, x)
    ensures p <= x
  {
    if p > 0 {
      CoversIsBelow(p / 2, x / 2);
    }
  }

  lemma {:induction false} CoversAnd(p: nat, x: nat, q: nat, y: nat)
    requires Covers(p, x) && Covers(q, y)
    ensures Covers(And(p, q), And(x, y))
    decreases p
  {
    if p > 0 && q > 0 {
      CoversAnd(p / 2, x / 2, q / 2, y / 2);
      AndDigits(p, q);
      AndDigits(x, y);
      CoversStep(And(p, q), And(x, y));
    }
  }

  lemma {:induction false} CoversOr(p: nat, x: nat, q: nat, y: nat)
    requires Covers(p, x) && Covers(q, y)
    ensures Covers(Or(p, q), Or(x, y))
    decreases p + q
  {
    if p > 0 || q > 0 {
      CoversOr(p / 2, x / 2, q / 2, y / 2);
      OrDigit(p, q);
      OrDigit(x, y);
      CoversStep(Or(p, q), Or(x, y));
    }
  }

  lemma {:induction false} CoversStep(p: nat, x: nat)
    requires p % 2 <= x % 2 && Covers(p / 2, x / 2)
    ensures Covers(p, x)
  {}

  lemma {:induction false} AndDigits(x: nat, y: nat)
    ensures And(x, y) / 2 == And(x / 2, y / 2)
    ensures And(x, y) % 2 == 1 <==> x % 2 == 1 && y % 2 == 1
  {}

  lemma {:induction false} OrDigit(x: nat, y: nat)
    ensures Or(x, y) / 2 == Or(x / 2, y / 2)
    ensures Or(x, y) % 2 == 1 <==> x % 2 == 1 || y % 2 == 1
  {}

  lemma {:induction false} XorDigit(x: nat, y: nat)
    ensures Xor(x, y) / 2 == Xor(x / 2, y / 2)
    ensures Xor(x, y) % 2 == 1 <==> x % 2 != y % 2
  {}

  /** Clearing the free digits gives a word below, setting them a word above. */
  lemma {:induction false} AgreeBelow(x: nat, y: nat, d: nat)
    requires Agree(x, y, d)
    ensures Covers(AndNot(y, d), x)
    decreases x + y
  {
    if x > 0 || y > 0 {
      AgreeBelow(x / 2, y / 2, d / 2);
    }
  }

  lemma {:induction false} AgreeAbove(x: nat, y: nat, d: nat)
    requires Agree(x, y, d)
    ensures Covers(x, Or(y, d))
    decreases x + y
  {
    if x > 0 {
      AgreeAbove(x / 2, y / 2, d / 2);
      OrDigit(y, d);
    }
  }

  lemma {:induction false} AgreeStep(x: nat, y: nat, d: nat)
    requires (d % 2 == 1 || x % 2 == y % 2) && Agree(x / 2, y / 2, d / 2)
    ensures Agree(x, y, d)
  {}

  lemma {:induction false} AgreeXor(x: nat, u: nat, d: nat, y: nat, v: nat, e: nat)
    requires Agree(x, u, d) && Agree(y, v, e)
    ensures Agree(Xor(x, y), Xor(u, v), Or(d, e))
    decreases x + u + y + v
  {
    if x > 0 || y > 0 || u > 0 || v > 0 {
      AgreeXor(x / 2, u / 2, d / 2, y / 2, v / 2, e / 2);
      XorDigit(x, y);
      XorDigit(u, v);
      OrDigit(d, e);
      AgreeStep(Xor(x, y), Xor(u, v), Or(d, e));
    }
  }

  // ----- the mask of all digits up to the highest set one -----

  function Mask(v: nat): (m: nat)
    ensures v <= m && (m == 0 <==> v == 0)
  {
    if v == 0 then 0 else 2 * Mask(v / 2) + 1
  }

  /** The mask is the least number of the form 2^n - 1 that is not below `v`. */
  lemma {:induction false} MaskIsLeast(v: nat) returns (n: nat)
    ensures Mask(v) == Pow2(n) - 1
    ensures forall k: nat {:trigger Pow2(k)} :: Pow2(k) - 1 >= v ==> Pow2(k) - 1 >= Mask(v)
  {
    if v == 0 {
      n := 0;
    } else {
      var h := MaskIsLeast(v / 2);
      n := h + 1;
      forall k: nat {:trigger Pow2(k)} | Pow2(k) - 1 >= v
        ensures Pow2(k) - 1 >= Mask(v)
      {
        assert k > 0 && Pow2(k - 1) - 1 >= v / 2;
      }
    }
  }

  lemma {:induction false} MaskWidth(n: nat, v: nat)
    requires v < Pow2(n)
    ensures Mask(v) < Pow2(n)
  {
    if n > 0 && v > 0 {
      MaskWidth(n - 1, v / 2);
    }
  }

  /** Every number of an interval agrees with its ends above the highest digit in which
    the two ends differ. */
  lemma {:induction false} IntervalAgrees(lo: nat, x: nat, hi: nat)
    requires lo <= x <= hi
    ensures Agree(x, lo, Mask(Xor(lo, hi))) && Agree(x, hi, Mask(Xor(lo, hi)))
    decreases hi
  {
    if hi > 0 {
      IntervalAgrees(lo / 2, x / 2, hi / 2);
      var d := Mask(Xor(lo, hi));
      XorDigit(lo, hi);
      assert d / 2 == Mask(Xor(lo / 2, hi / 2)) && (d % 2 == 0 ==> lo == hi);
      AgreeStep(x, lo, d);
      AgreeStep(x, hi, d);
    }
  }

  /** The upper bound for `|` by Adam D. Ruppe that the source refers to. */
  lemma {:induction false} OrUpperBound(x: nat, a: nat, y: nat, b: nat)
    requires x <= a && y <= b
    ensures Or(x, y) <= Or(Or(a, b), Mask(And(a, b)))
    decreases a + b
  {
    if a > 0 || b > 0 {
      OrUpperBound(x / 2, a / 2, y / 2, b / 2);
      var c, m := Or(a, b), Mask(And(a, b));
      MaskOfHalf(And(a, b));
      AndDigits(a, b);
      OrDigit(a, b);
      OrDigit(c, m);
      OrDigit(x, y);
      if Or(c, m) % 2 == 0 {
        OrOfDisjoint(x, a, y, b);
      }
    }
  }

  lemma {:induction false} MaskOfHalf(v: nat)
    ensures Mask(v) / 2 == Mask(v / 2) && (Mask(v) % 2 == 0 ==> v == 0)
  {}

  /** Without a common digit, `a | b` is the sum. */
  lemma {:induction false} OrOfDisjoint(x: nat, a: nat, y: nat, b: nat)
    requires x <= a && y <= b && And(a, b) == 0
    ensures Or(x, y) <= Or(a, b)
  {
    DisjointOr(a, b);
    OrIsBelowSum(x, y);
  }

  lemma {:induction false} OrIsBelowSum(x: nat, y: nat)
    ensures Or(x, y) <= x + y
    decreases x + y
  {
    if x > 0 || y > 0 {
      OrIsBelowSum(x / 2, y / 2);
      OrDigit(x, y);
    }
  }

  lemma {:induction false} DisjointOr(a: nat, b: nat)
    requires And(a, b) == 0
    ensures Or(a, b) == a + b
    decreases a + b
  {
    if a > 0 || b > 0 {
      assert And(a, b) / 2 == And(a / 2, b / 2);
      DisjointOr(a / 2, b / 2);
    }
  }

  // ----- getMask -----

  /** Digit `i` is set exactly when `v` has a digit set among the `k` digits from `i` up. */
  function Smear(v: nat, k: nat): (r: nat)
    ensures r == 0 ==> v == 0 || k == 0
  {
    if v == 0 then 0 else 2 * Smear(v / 2, k) + (if v % Pow2(k) != 0 then 1 else 0)
  }

  lemma {:induction false} SmearShift(v: nat, k: nat, j: nat)
    ensures Shr(Smear(v, k), j) == Smear(Shr(v, j), k)
    decreases j
  {
    if j > 0 {
      SmearShift(v / 2, k, j - 1);
      ShiftHalf(v, j - 1);
      ShiftHalf(Smear(v, k), j - 1);
      SmearDigit(v, k);
    }
  }

  lemma {:induction false} SmearTwice(v: nat, k: nat)
    ensures Or(Smear(v, k), Smear(Shr(v, k), k)) == Smear(v, 2 * k)
  {
    if v > 0 {
      SmearTwice(v / 2, k);
      ShiftHalf(v, k);
      SmearDigits(v, k);
      SmearDigit(v, k);
      SmearDigit(Shr(v, k), k);
      SmearDigit(v, 2 * k);
      OrDigit(Smear(v, k), Smear(Shr(v, k), k));
    }
  }

  lemma {:induction false} SmearDigits(v: nat, k: nat)
    ensures v % Pow2(2 * k) != 0 <==> v % Pow2(k) != 0 || Shr(v, k) % Pow2(k) != 0
  {
    Pow2Square(k, 2 * k);
    SplitShift(v, k, Pow2(k), Pow2(2 * k));
  }

  lemma {:induction false} SplitShift(v: nat, k: nat, p: nat, pp: nat)
    requires p == Pow2(k) && pp == p * p
    ensures 0 < pp && (v % pp == 0 <==> v % p == 0 && Shr(v, k) % p == 0)
  {
    SplitRemainder(v, p, pp);
  }

  lemma {:induction false} SmearDigit(v: nat, k: nat)
    ensures Smear(v, k) / 2 == Smear(v / 2, k)
    ensures Smear(v, k) % 2 == 1 <==> v % Pow2(k) != 0
  {
    if v == 0 {
      DivUnique(0, Pow2(k), 0, 0);
    }
  }

  lemma {:induction false} SplitRemainder(v: nat, p: nat, pp: nat)
    requires 0 < p && pp == p * p
    ensures 0 < pp && (v % pp == 0 <==> v % p == 0 && (v / p) % p == 0)
  {
    var w := v / p;
    var q, t, r := w / p, w % p, v % p;
    assert p * w == pp * q + p * t by {
      assert w == p * q + t;
      MulDistributes(p, p * q, t);
      MulAssociates(p, p, q);
    }
    MulMonotone(p, 1, p);
    MulMonotone(p, t, p - 1);
    MulMonotone(p, 0, t);
    assert p * (p - 1) == pp - p by { MulDistributes(p, p, -1); }
    DivUnique(v, pp, q, p * t + r);
    if t > 0 {
      MulMonotone(p, 1, t);
    }
  }

  lemma {:induction false} SmearOne(v: nat)
    ensures Smear(v, 1) == v
  {
    if v > 0 {
      SmearOne(v / 2);
    }
  }

  lemma {:induction false} SmearAll(v: nat, k: nat)
    requires v < Pow2(k)
    ensures Smear(v, k) == Mask(v)
  {
    if v > 0 {
      DivUnique(v, Pow2(k), 0, v);
      SmearAll(v / 2, k);
    }
  }

  /** One line of `GetMask`: or-ing a word with itself shifted doubles the smear. */
  lemma {:induction false} SmearStep(v: nat, k: nat, p: nat, w: U64)
    requires p == Pow2(k) && w == Smear(v, k)
    ensures w / p == Shr(w, k) && Or(w, Shr(w, k)) == Smear(v, 2 * k) < TWO64
  {
    SmearShift(v, k, k);
    SmearTwice(v, k);
    assert w / p == Shr(w, k);
    WordWidth(w, Shr(w, k));
  }

  /** Round up to a number of the form 2^n - 1. */
  method GetMask(v0: U64) returns (v: U64)
    ensures v == Mask(v0)
  {
    Pow2Values();
    SmearOne(v0);
    v := v0;
    SmearStep(v0, 1, 2, v);
    v := Or(v, v / 2);
    SmearStep(v0, 2, 4, v);
    v := Or(v, v / 4);
    SmearStep(v0, 4, 16, v);
    v := Or(v, v / 16);
    SmearStep(v0, 8, 0x100, v);
    v := Or(v, v / 0x100);
    SmearStep(v0, 16, 0x1_0000, v);
    v := Or(v, v / 0x1_0000);
    SmearStep(v0, 32, 0x1_0000_0000, v);
    v := Or(v, v / 0x1_0000_0000);
    SmearAll(v0, 64);
  }
}
