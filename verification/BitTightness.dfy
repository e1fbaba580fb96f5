/** When the ranges of `&`, `|` and `^` are the least ones. */
module BitTightness {
  import opened Words
  import opened SignExtended
  import opened IntRanges
  import opened RangeRules

  // ----- words whose upper digits are given -----

  lemma {:induction false} AgreeSelf(x: nat, d: nat)
    ensures Agree(x, x, d)
    decreases x
  {
    if x > 0 { AgreeSelf(x / 2, d / 2); }
  }

  lemma {:induction false} Cleared(x: nat, d: nat)
    ensures Agree(AndNot(x, d), x, d)
    decreases x
  {
    if x > 0 {
      Cleared(x / 2, d / 2);
      AgreeStep(AndNot(x, d), x, d);
    }
  }

  lemma {:induction false} Filled(x: nat, d: nat)
    ensures Agree(Or(x, d), x, d)
    decreases x + d
  {
    if x > 0 || d > 0 {
      Filled(x / 2, d / 2);
      OrDigit(x, d);
      AgreeStep(Or(x, d), x, d);
    }
  }

  lemma {:induction false} AndNotDigit(x: nat, m: nat)
    ensures AndNot(x, m) / 2 == AndNot(x / 2, m / 2)
    ensures AndNot(x, m) % 2 == 1 <==> x % 2 == 1 && m % 2 == 0
  {}

  /** A number by its halves and its last digit. */
  function Digit(half: nat, one: bool): (x: nat)
    ensures x / 2 == half && (x % 2 == 1 <==> one)
  {
    2 * half + if one then 1 else 0
  }

  lemma {:induction false} AgreeDigit(x: nat, y: nat, d: nat)
    requires d % 2 == 0 ==> (x % 2 == 1 <==> y % 2 == 1)
    requires Agree(x / 2, y / 2, d / 2)
    ensures Agree(x, y, d)
  {
    AgreeStep(x, y, d);
  }

  lemma {:induction false} SameDigits(x: nat, y: nat)
    requires x / 2 == y / 2 && (x % 2 == 1 <==> y % 2 == 1)
    ensures x == y
  {}

  /** Where a digit is free in one of two words, they can be equal in it. */
  lemma {:induction false} XorLow(u: nat, d: nat, v: nat, e: nat) returns (x: nat, y: nat)
    ensures Agree(x, u, d) && Agree(y, v, e) && Xor(x, y) == AndNot(Xor(u, v), Or(d, e))
    decreases u + v
  {
    if u == 0 && v == 0 {
      x, y := 0, 0;
    } else {
      var p, q := XorLow(u / 2, d / 2, v / 2, e / 2);
      x := Digit(p, if d % 2 == 1 then v % 2 == 1 else u % 2 == 1);
      y := Digit(q, if d % 2 == 0 && e % 2 == 1 then u % 2 == 1 else v % 2 == 1);
      AgreeDigit(x, u, d);
      AgreeDigit(y, v, e);
      XorLowDigit(u, d, v, e, x, y);
    }
  }

  lemma {:induction false} XorLowDigit(u: nat, d: nat, v: nat, e: nat, x: nat, y: nat)
    requires Xor(x / 2, y / 2) == AndNot(Xor(u / 2, v / 2), Or(d / 2, e / 2))
    requires x % 2 == 1 <==> if d % 2 == 1 then v % 2 == 1 else u % 2 == 1
    requires y % 2 == 1 <==> if d % 2 == 0 && e % 2 == 1 then u % 2 == 1 else v % 2 == 1
    ensures Xor(x, y) == AndNot(Xor(u, v), Or(d, e))
  {
    XorDigit(x, y);
    XorDigit(u, v);
    OrDigit(d, e);
    AndNotDigit(Xor(u, v), Or(d, e));
    SameDigits(Xor(x, y), AndNot(Xor(u, v), Or(d, e)));
  }

  lemma {:induction false} XorHighDigit(u: nat, d: nat, v: nat, e: nat, x: nat, y: nat)
    requires Xor(x / 2, y / 2) == Or(Xor(u / 2, v / 2), Or(d / 2, e / 2))
    requires x % 2 == 1 <==> if d % 2 == 1 then v % 2 == 0 else u % 2 == 1
    requires y % 2 == 1 <==> if d % 2 == 0 && e % 2 == 1 then u % 2 == 0 else v % 2 == 1
    ensures Xor(x, y) == Or(Xor(u, v), Or(d, e))
  {
    XorDigit(x, y);
    XorDigit(u, v);
    OrDigit(d, e);
    OrDigit(Xor(u, v), Or(d, e));
    SameDigits(Xor(x, y), Or(Xor(u, v), Or(d, e)));
  }

  /** They can be different, too. */
  lemma {:induction false} XorHigh(u: nat, d: nat, v: nat, e: nat) returns (x: nat, y: nat)
    ensures Agree(x, u, d) && Agree(y, v, e) && Xor(x, y) == Or(Xor(u, v), Or(d, e))
    decreases u + v + d + e
  {
    if u == 0 && v == 0 && d == 0 && e == 0 {
      x, y := 0, 0;
    } else {
      var p, q := XorHigh(u / 2, d / 2, v / 2, e / 2);
      x := Digit(p, if d % 2 == 1 then v % 2 == 0 else u % 2 == 1);
      y := Digit(q, if d % 2 == 0 && e % 2 == 1 then u % 2 == 0 else v % 2 == 1);
      AgreeDigit(x, u, d);
      AgreeDigit(y, v, e);
      XorHighDigit(u, d, v, e, x, y);
    }
  }

  /** Ruppe's bound is an exact maximum: `b` without its highest digit in common with `a`, and
    with all lower digits, attains it. */
  lemma {:induction false} OrUpperIsTaken(a: nat, b: nat) returns (y: nat)
    ensures y <= b && (And(a, b) > 0 ==> y < b)
    ensures Or(a, y) == Or(Or(a, b), Mask(And(a, b)))
    decreases a + b
  {
    if And(a, b) == 0 {
      y := b;
      OrNothing(Or(a, b));
    } else {
      var p := OrUpperIsTaken(a / 2, b / 2);
      AndDigits(a, b);
      y := Digit(p, And(a / 2, b / 2) > 0);
      OrUpperDigit(a, b, y);
    }
  }

  lemma {:induction false} OrUpperDigit(a: nat, b: nat, y: nat)
    requires And(a, b) > 0 && Or(a / 2, y / 2) == Or(Or(a / 2, b / 2), Mask(And(a / 2, b / 2)))
    requires y % 2 == 1 <==> And(a / 2, b / 2) > 0
    ensures Or(a, y) == Or(Or(a, b), Mask(And(a, b)))
  {
    var m := Mask(And(a, b));
    AndDigits(a, b);
    MaskOfHalf(And(a, b));
    OrDigit(a, y);
    OrDigit(a, b);
    OrDigit(Or(a, b), m);
    SameDigits(Or(a, y), Or(Or(a, b), m));
  }

  lemma {:induction false} OrNothing(x: nat)
    ensures Or(x, 0) == x
  {
    if x > 0 { OrNothing(x / 2); }
  }

  // ----- blocks -----

  /** All numbers that differ in the last `k` digits only: a single number, a byte with any low
    digits, the numbers of a type of one sign. */
  predicate IsBlock(r: IntRange, k: nat) {
    OneSign(r) && k <= 64 && r.imin.value % Pow2(k) == 0 && r.imax.value == r.imin.value + Pow2(k) - 1
  }

  lemma {:induction false} BlockMask(lo: nat, hi: nat, q: nat, k: nat, p: nat)
    requires p == Pow2(k) && lo == q * p && hi == lo + p - 1
    ensures Mask(Xor(lo, hi)) == p - 1
    decreases k
  {
    if k > 0 {
      HalfPower(k, p);
      HalfBlock(lo, hi, q, p / 2);
      BlockMask(lo / 2, hi / 2, q, k - 1, p / 2);
      MaskFromHalves(lo, hi);
    }
  }

  lemma {:induction false} HalfPower(k: nat, p: nat)
    requires k > 0 && p == Pow2(k)
    ensures p == 2 * (p / 2) && p / 2 == Pow2(k - 1)
  {}

  lemma {:induction false} HalfBlock(lo: nat, hi: nat, q: nat, h: nat)
    requires h > 0 && lo == q * (2 * h) && hi == lo + 2 * h - 1
    ensures lo % 2 == 0 && hi % 2 == 1 && lo / 2 == q * h && hi / 2 == lo / 2 + h - 1
  {
    assert q * (2 * h) == 2 * (q * h);
  }

  lemma {:induction false} MaskFromHalves(x: nat, y: nat)
    requires x % 2 == 0 && y % 2 == 1
    ensures Mask(Xor(x, y)) == 2 * Mask(Xor(x / 2, y / 2)) + 1
  {
    XorDigit(x, y);
  }

  /** What agrees with a number of a block is in the block. */
  lemma {:induction false} AgreeingQuotient(x: nat, z: nat, k: nat)
    requires Agree(x, z, Pow2(k) - 1)
    ensures Shr(x, k) == Shr(z, k)
    decreases k
  {
    if k == 0 {
      AgreeNowhere(x, z);
    } else {
      assert (Pow2(k) - 1) / 2 == Pow2(k - 1) - 1;
      assert Agree(x / 2, z / 2, Pow2(k - 1) - 1);
      AgreeingQuotient(x / 2, z / 2, k - 1);
      ShiftHalf(x, k - 1);
      ShiftHalf(z, k - 1);
    }
  }

  lemma {:induction false} AgreeNowhere(x: nat, z: nat)
    requires Agree(x, z, 0)
    ensures x == z
    decreases x + z
  {
    if x > 0 || z > 0 { AgreeNowhere(x / 2, z / 2); }
  }

  lemma {:induction false} BlockDigits(r: IntRange, k: nat)
    requires IsBlock(r, k)
    ensures DiffMask(r) == Pow2(k) - 1
  {
    var q := r.imin.value / Pow2(k);
    assert r.imin.value == q * Pow2(k);
    BlockMask(r.imin.value, r.imax.value, q, k, Pow2(k));
  }

  lemma {:induction false} InBlock(r: IntRange, k: nat, z: nat, x: nat)
    requires IsBlock(r, k) && Agree(x, z, DiffMask(r)) && r.imin.value <= z <= r.imax.value
    ensures r.imin.value <= x <= r.imax.value
  {
    BlockDigits(r, k);
    AgreeingQuotient(x, z, k);
    SameBlock(r.imin.value, x, z, Pow2(k));
  }

  lemma {:induction false} SameBlock(lo: nat, x: nat, z: nat, p: nat)
    requires p > 0 && lo % p == 0 && lo <= z < lo + p && x / p == z / p
    ensures lo <= x < lo + p
  {
    var q := lo / p;
    assert lo == p * q;
    DivUnique(z, p, q, z - lo);
    assert x == p * q + x % p;
  }

  /** The number of that sign with that word. */
  function Signed(w: nat, negative: bool): int {
    w - if negative then TWO64 else 0
  }

  lemma {:induction false} SignedIn(r: IntRange, w: nat)
    requires OneSign(r) && r.imin.value <= w <= r.imax.value
    ensures r.Has(Signed(w, r.imin.negative)) && Word(Signed(w, r.imin.negative)) == w
    ensures Signed(w, r.imin.negative) < 0 <==> r.imin.negative
  {}

  // ----- one quadrant -----

  /** Words that give the lower bound or less, and agree with the operands in all digits that do
    not vary. */
  lemma {:induction false} LowWords(op: BitOp, a: IntRange, b: IntRange) returns (x: nat, y: nat)
    ensures Agree(x, a.imin.value, DiffMask(a)) && Agree(y, b.imin.value, DiffMask(b))
    ensures Bitwise(op, x, y) <= QuadrantMin(op, a, b)
  {
    var u, v, d, e := a.imin.value, b.imin.value, DiffMask(a), DiffMask(b);
    if op.BitXor? {
      x, y := XorLow(u, d, v, e);
    } else {
      x, y := AndNot(u, d), AndNot(v, e);
      Cleared(u, d);
      Cleared(v, e);
    }
  }

  /** The same for the upper bounds of `&` and `^`. */
  lemma {:induction false} HighWords(op: BitOp, a: IntRange, b: IntRange) returns (x: nat, y: nat)
    requires !op.BitOr?
    ensures Agree(x, a.imax.value, DiffMask(a)) && Agree(y, b.imax.value, DiffMask(b))
    ensures Bitwise(op, x, y) >= QuadrantMax(op, a, b)
  {
    var u, v, d, e := a.imax.value, b.imax.value, DiffMask(a), DiffMask(b);
    if op.BitXor? {
      x, y := XorHigh(u, d, v, e);
    } else {
      x, y := Or(u, d), Or(v, e);
      Filled(u, d);
      Filled(v, e);
    }
  }

  /** `&` never goes above its operands, and `|` never below. */
  lemma {:induction false} OperandsLimit(a: IntRange, b: IntRange)
    ensures QuadrantMax(BitAnd, a, b) <= Min(a.imax.value, b.imax.value)
    ensures QuadrantMin(BitOr, a, b) >= Max(a.imin.value, b.imin.value)
  {}

  lemma {:induction false} LowTaken(op: BitOp, a: IntRange, b: IntRange, k: nat, j: nat) returns (v1: int, v2: int)
    requires IsBlock(a, k) && IsBlock(b, j)
    ensures a.Has(v1) && b.Has(v2) && BitValue(op, v1, v2) == Quadrant(op, a, b).Lo()
  {
    var x, y := LowWords(op, a, b);
    InBlock(a, k, a.imin.value, x);
    InBlock(b, j, b.imin.value, y);
    BitwiseBounds(op, a, b, x, y);
    v1, v2 := Signed(x, a.imin.negative), Signed(y, b.imin.negative);
    SignedIn(a, x);
    SignedIn(b, y);
  }

  lemma {:induction false} HighTaken(op: BitOp, a: IntRange, b: IntRange, k: nat, j: nat) returns (v1: int, v2: int)
    requires IsBlock(a, k) && IsBlock(b, j) && (op.BitOr? ==> OrFits(a, b))
    ensures a.Has(v1) && b.Has(v2) && BitValue(op, v1, v2) == Quadrant(op, a, b).Hi()
  {
    var x, y := a.imax.value, b.imax.value;
    if op.BitOr? {
      CoveredOr(Mask(And(x, y)), Or(x, y));
    } else {
      x, y := HighWords(op, a, b);
      InBlock(a, k, a.imax.value, x);
      InBlock(b, j, b.imax.value, y);
      BitwiseBounds(op, a, b, x, y);
    }
    v1, v2 := Signed(x, a.imin.negative), Signed(y, b.imin.negative);
    SignedIn(a, x);
    SignedIn(b, y);
  }

  /** The upper ends together have all digits below their highest common one. */
  predicate OrFits(a: IntRange, b: IntRange) {
    Covers(Mask(And(a.imax.value, b.imax.value)), Or(a.imax.value, b.imax.value))
  }

  lemma {:induction false} CoveredOr(p: nat, x: nat)
    ensures Or(x, p) == x <==> Covers(p, x)
    decreases x + p
  {
    if x > 0 || p > 0 {
      CoveredOr(p / 2, x / 2);
      OrDigit(x, p);
      if Or(x, p) != x && Or(x, p) / 2 == x / 2 {
        assert p % 2 == 1 && x % 2 == 0;
      }
    }
  }

  /** Between blocks the upper bound of `|` is taken if and only if the ends fit. */
  lemma {:induction false} OrIsTightExactly(a: IntRange, b: IntRange, k: nat, j: nat)
    requires IsBlock(a, k) && IsBlock(b, j)
    ensures OrFits(a, b) <==>
            exists v1, v2 {:trigger BitValue(BitOr, v1, v2)} ::
              a.Has(v1) && b.Has(v2) && BitValue(BitOr, v1, v2) == Quadrant(BitOr, a, b).Hi()
  {
    if OrFits(a, b) {
      var v1, v2 := HighTaken(BitOr, a, b, k, j);
    }
    if v1, v2 {:trigger BitValue(BitOr, v1, v2)} :|
         a.Has(v1) && b.Has(v2) && BitValue(BitOr, v1, v2) == Quadrant(BitOr, a, b).Hi()
    {
      var x, y, u, v := Word(v1), Word(v2), a.imax.value, b.imax.value;
      WordInside(a, v1);
      WordInside(b, v2);
      CoveredByEnd(a, k, x);
      CoveredByEnd(b, j, y);
      CoversOr(x, u, y, v);
      CoversIsBelow(Or(x, y), Or(u, v));
      CoveredOr(Mask(And(u, v)), Or(u, v));
    }
  }

  /** The last number of a block has all digits of the others. */
  lemma {:induction false} CoveredByEnd(a: IntRange, k: nat, x: nat)
    requires IsBlock(a, k) && a.imin.value <= x <= a.imax.value
    ensures Covers(x, a.imax.value)
  {
    var u, d := a.imax.value, DiffMask(a);
    IntervalAgrees(a.imin.value, x, u);
    AgreeAbove(x, u, d);
    Filled(u, d);
    InBlock(a, k, u, Or(u, d));
  }

  // ----- all quadrants -----

  predicate IsPart(a: IntRange, r: IntRange)
    requires r.Ordered()
  {
    NegPart(r) == Some(a) || NonNegPart(r) == Some(a)
  }

  ghost predicate InBlocks(r: IntRange)
    requires r.Ordered()
  {
    forall a | IsPart(a, r) :: exists k: nat :: IsBlock(a, k)
  }

  lemma {:induction false} PartIn(a: IntRange, r: IntRange, x: int)
    requires r.Ordered() && IsPart(a, r) && a.Has(x)
    ensures r.Has(x)
  {}

  /** A union ends where one of its members does. */
  lemma {:induction false} AddedEnds(op: BitOp, acc: Option<IntRange>, a: Option<IntRange>, b: Option<IntRange>)
    requires (acc.Some? ==> acc.value.Ordered()) && (a.Some? ==> OneSign(a.value)) && (b.Some? ==> OneSign(b.value))
    ensures
      var u := AddQuadrant(op, acc, a, b);
      && (u.Some? ==>
            || (acc.Some? && u.value.Lo() == acc.value.Lo())
            || (a.Some? && b.Some? && u.value.Lo() == Quadrant(op, a.value, b.value).Lo()))
      && (u.Some? ==>
            || (acc.Some? && u.value.Hi() == acc.value.Hi())
            || (a.Some? && b.Some? && u.value.Hi() == Quadrant(op, a.value, b.value).Hi()))
  {}

  ghost predicate EndsAt(op: BitOp, r1: IntRange, r2: IntRange, u: Option<IntRange>)
    requires r1.Ordered() && r2.Ordered()
  {
    u.Some? ==>
      && (exists a, b :: LowAt(op, a, b, r1, r2, u.value.Lo()))
      && (exists a, b :: HighAt(op, a, b, r1, r2, u.value.Hi()))
  }

  predicate LowAt(op: BitOp, a: IntRange, b: IntRange, r1: IntRange, r2: IntRange, end: int)
    requires r1.Ordered() && r2.Ordered()
  {
    IsPart(a, r1) && IsPart(b, r2) && Quadrant(op, a, b).Lo() == end
  }

  predicate HighAt(op: BitOp, a: IntRange, b: IntRange, r1: IntRange, r2: IntRange, end: int)
    requires r1.Ordered() && r2.Ordered()
  {
    IsPart(a, r1) && IsPart(b, r2) && Quadrant(op, a, b).Hi() == end
  }

  lemma {:induction false} Added(op: BitOp, r1: IntRange, r2: IntRange, acc: Option<IntRange>,
                                 a: Option<IntRange>, b: Option<IntRange>)
    requires r1.Ordered() && r2.Ordered() && EndsAt(op, r1, r2, acc) && (acc.Some? ==> acc.value.Ordered())
    requires (a.Some? ==> IsPart(a.value, r1)) && (b.Some? ==> IsPart(b.value, r2))
    ensures EndsAt(op, r1, r2, AddQuadrant(op, acc, a, b))
  {
    AddedEnds(op, acc, a, b);
    var u := AddQuadrant(op, acc, a, b);
    if a.Some? && b.Some? {
      var q := Quadrant(op, a.value, b.value);
      assert LowAt(op, a.value, b.value, r1, r2, q.Lo()) && HighAt(op, a.value, b.value, r1, r2, q.Hi());
    }
  }

  /** The bounds are those of two quadrants. */
  lemma {:induction false} EndQuadrants(op: BitOp, r1: IntRange, r2: IntRange)
    returns (a: IntRange, b: IntRange, c: IntRange, d: IntRange)
    requires r1.Ordered() && r2.Ordered()
    ensures LowAt(op, a, b, r1, r2, BitRange(op, r1, r2).Lo()) && HighAt(op, c, d, r1, r2, BitRange(op, r1, r2).Hi())
  {
    var n1, p1, n2, p2 := NegPart(r1), NonNegPart(r1), NegPart(r2), NonNegPart(r2);
    var u1 := AddQuadrant(op, None, p1, p2);
    var u2 := AddQuadrant(op, u1, p1, n2);
    var u3 := AddQuadrant(op, u2, n1, p2);
    Added(op, r1, r2, None, p1, p2);
    Added(op, r1, r2, u1, p1, n2);
    Added(op, r1, r2, u2, n1, p2);
    Added(op, r1, r2, u3, n1, n2);
    assert r1.Has(r1.Lo()) && r2.Has(r2.Lo());
    var r := BitRange(op, r1, r2);
    assert Some(r) == AddQuadrant(op, u3, n1, n2);
    a, b :| LowAt(op, a, b, r1, r2, r.Lo());
    c, d :| HighAt(op, c, d, r1, r2, r.Hi());
  }

  /** Operands of two ranges whose parts of one sign are blocks take the bounds of `&`, `|` and
    `^`, the upper one of `|` provided that the ends fit. */
  lemma {:induction false} BitsAreTight(op: BitOp, r1: IntRange, r2: IntRange)
    returns (v1: int, v2: int, w1: int, w2: int)
    requires r1.Ordered() && r2.Ordered() && InBlocks(r1) && InBlocks(r2)
    ensures r1.Has(v1) && r2.Has(v2) && BitValue(op, v1, v2) == BitRange(op, r1, r2).Lo()
    ensures !op.BitOr? || (forall a, b | IsPart(a, r1) && IsPart(b, r2) :: OrFits(a, b)) ==>
              r1.Has(w1) && r2.Has(w2) && BitValue(op, w1, w2) == BitRange(op, r1, r2).Hi()
  {
    var a, b, c, d := EndQuadrants(op, r1, r2);
    var k: nat :| IsBlock(a, k);
    var j: nat :| IsBlock(b, j);
    v1, v2 := LowTaken(op, a, b, k, j);
    PartIn(a, r1, v1);
    PartIn(b, r2, v2);
    if !op.BitOr? || OrFits(c, d) {
      k :| IsBlock(c, k);
      j :| IsBlock(d, j);
      w1, w2 := HighTaken(op, c, d, k, j);
      PartIn(c, r1, w1);
      PartIn(d, r2, w2);
    } else {
      w1, w2 := v1, v2;
    }
  }

  /** Operands of ranges that begin at 0 take the bounds of `&` and `|`, wherever the ranges end. */
  lemma {:induction false} FromZeroIsTight(op: BitOp, r1: IntRange, r2: IntRange) returns (w1: int, w2: int)
    requires r1.Ordered() && r2.Ordered() && r1.Lo() == 0 && r2.Lo() == 0 && !op.BitXor?
    ensures r1.Has(w1) && r2.Has(w2) && BitValue(op, w1, w2) == BitRange(op, r1, r2).Hi()
    ensures BitValue(op, r1.Lo(), r2.Lo()) == BitRange(op, r1, r2).Lo()
  {
    w1, w2 := FromZeroWords(op, r1, r2);
    FromZeroLow(op, r1, r2);
    var a, b, c, d := EndQuadrants(op, r1, r2);
    OnlyPart(r1, a);
    OnlyPart(r1, c);
    OnlyPart(r2, b);
    OnlyPart(r2, d);
    QuadrantEnds(op, r1, r2, w1, w2);
  }

  lemma {:induction false} QuadrantEnds(op: BitOp, a: IntRange, b: IntRange, x: nat, y: nat)
    requires OneSign(a) && OneSign(b) && !a.imin.negative && !b.imin.negative && x < TWO64 && y < TWO64
    ensures Bitwise(op, x, y) == QuadrantMin(op, a, b) ==> BitValue(op, x, y) == Quadrant(op, a, b).Lo()
    ensures Bitwise(op, x, y) == QuadrantMax(op, a, b) ==> BitValue(op, x, y) == Quadrant(op, a, b).Hi()
  {
    WordOfWord(x);
    WordOfWord(y);
    assert BitValue(op, x, y) == Bitwise(op, x, y);
  }

  lemma {:induction false} WordOfWord(x: nat)
    requires x < TWO64
    ensures Word(x) == x
  {}

  lemma {:induction false} FromZeroLow(op: BitOp, a: IntRange, b: IntRange)
    requires OneSign(a) && OneSign(b) && a.Lo() == 0 && b.Lo() == 0
    ensures BitValue(op, a.Lo(), b.Lo()) == Quadrant(op, a, b).Lo()
  {
    BitwiseBounds(op, a, b, a.imin.value, b.imin.value);
    var zero := a.imin.value;
    assert Bitwise(op, zero, b.imin.value) == 0;
    QuadrantEnds(op, a, b, zero, b.imin.value);
  }

  lemma {:induction false} OnlyPart(r: IntRange, a: IntRange)
    requires r.Ordered() && r.Lo() == 0 && IsPart(a, r)
    ensures a == r && OneSign(r)
  {}

  lemma {:induction false} FromZeroWords(op: BitOp, a: IntRange, b: IntRange) returns (x: nat, y: nat)
    requires a.imin.value == 0 && b.imin.value == 0 && !op.BitXor?
    ensures x <= a.imax.value && y <= b.imax.value && Bitwise(op, x, y) == QuadrantMax(op, a, b)
  {
    if op.BitOr? {
      x := a.imax.value;
      y := OrUpperIsTaken(x, b.imax.value);
    } else {
      x := Min(a.imax.value, b.imax.value);
      y := x;
      AndSelf(x);
      BitwiseBounds(op, a, b, x, y);
    }
  }

  lemma {:induction false} AndSelf(x: nat)
    ensures And(x, x) == x
  {
    if x > 0 { AndSelf(x / 2); }
  }
}
