/** What the rule for one operator does to ranges, and why the result holds every value
  that the constant folder can compute from operands in the given ranges. */
module RangeRules {
  import opened Words
  import opened SignExtended
  import opened IntRanges

  // ----- casting keeps the wrapped values -----

  /** The only two casts that can lose a value: to bool, whose range keeps the lowest digit
    while the value keeps "not zero", and to dchar. */
  predicate CastSafe(r: IntRange, t: Ty)
    requires r.Ordered()
  {
    match t
    case Tbool => !(r.Lo() == r.Hi() && r.Lo() % 2 == 0 && r.Lo() != 0)
    case Tdchar => CastUnsigned(r, 0xFFFF_FFFF).Hi() <= 0x10FFFF
    case _ => true
  }

  lemma {:induction false} WrapBetween(lo: int, x: int, hi: int, m: int)
    requires lo <= x <= hi && m > 0 && lo / m == hi / m
    ensures lo % m <= x % m <= hi % m
  {
    ChunkOrder(lo, x, m);
    ChunkOrder(x, hi, m);
    ChunkOrder(lo, hi, m);
  }

  lemma {:induction false} CastKeeps(r: IntRange, t: Ty, x: int)
    requires r.Has(x) && CastSafe(r, t)
    ensures Cast(r, t).Has(Wrap(t, x))
  {
    if !IsUnsigned(t) {
      CastSignedKeeps(r, SizeMask(t), x);
    } else {
      CastUnsignedKeeps(r, SizeMask(t), x);
    }
  }

  lemma {:induction false} CastSignedKeeps(r: IntRange, mask: U64, x: int)
    requires r.Has(x)
    ensures CastSigned(r, mask).Has(WrapSigned(mask, x)) || mask % 2 == 0
  {
    var h, m := mask / 2 + 1, mask + 1;
    if (r.Lo() + h) / m == (r.Hi() + h) / m {
      WrapBetween(r.Lo() + h, x + h, r.Hi() + h, m);
    }
  }

  lemma {:induction false} CastUnsignedKeeps(r: IntRange, mask: U64, x: int)
    requires r.Has(x)
    ensures CastUnsigned(r, mask).Has(WrapUnsigned(mask, x))
  {
    var m := mask + 1;
    if r.Lo() / m == r.Hi() / m {
      WrapBetween(r.Lo(), x, r.Hi(), m);
    }
  }

  /** Casting a range that already fits the type leaves it as it is. */
  lemma {:induction false} CastFits(r: IntRange, t: Ty)
    requires r.Ordered() && TypeRange(t).Contains(r)
    ensures Cast(r, t).Lo() == r.Lo() && Cast(r, t).Hi() == r.Hi()
  {
    if !IsUnsigned(t) {
      SignedFits(r, SizeMask(t));
    } else {
      UnsignedFits(r, SizeMask(t));
    }
  }

  lemma {:induction false} SignedFits(r: IntRange, mask: U64)
    requires r.Ordered() && mask % 2 == 1 && -(mask / 2 + 1) <= r.Lo() && r.Hi() <= mask / 2
    ensures CastSigned(r, mask).Lo() == r.Lo() && CastSigned(r, mask).Hi() == r.Hi()
  {
    SmallQuotient(r.Lo() + mask / 2 + 1, mask + 1);
    SmallQuotient(r.Hi() + mask / 2 + 1, mask + 1);
  }

  lemma {:induction false} UnsignedFits(r: IntRange, mask: U64)
    requires r.Ordered() && 0 <= r.Lo() && r.Hi() <= mask
    ensures CastUnsigned(r, mask).Lo() == r.Lo() && CastUnsigned(r, mask).Hi() == r.Hi()
  {
    SmallQuotient(r.Lo(), mask + 1);
    SmallQuotient(r.Hi(), mask + 1);
  }

  lemma {:induction false} SmallQuotient(x: int, m: int)
    requires 0 <= x < m
    ensures x / m == 0 && x % m == x
  {
    DivUnique(x, m, 0, x);
  }

  /** Casting a range is sound exactly when it is `CastSafe`. */
  lemma {:induction false} CastSafeIsExact(r: IntRange, t: Ty)
    requires r.Ordered()
    ensures CastSafe(r, t) <==> forall x :: r.Has(x) ==> Cast(r, t).Has(Wrap(t, x))
  {
    if CastSafe(r, t) {
      forall x | r.Has(x) ensures Cast(r, t).Has(Wrap(t, x)) { CastKeeps(r, t, x); }
    } else if t == Tbool {
      assert r.Has(r.Lo()) && Wrap(t, r.Lo()) == 1 && Cast(r, t).Hi() == 0;
    } else {
      assert t == Tdchar;
      var x := LastOfChunk(r.Lo(), r.Hi(), 0x1_0000_0000);
      assert r.Has(x) && Wrap(t, x) == CastUnsigned(r, 0xFFFF_FFFF).Hi() > 0x10FFFF;
      assert Cast(r, t).Hi() == 0x10FFFF;
    }
  }

  lemma {:induction false} LastOfChunk(lo: int, hi: int, m: int) returns (x: int)
    requires lo <= hi && m > 0
    ensures lo <= x <= hi && x % m == if lo / m == hi / m then hi % m else m - 1
  {
    if lo / m == hi / m {
      x := hi;
    } else {
      var q := hi / m;
      x := m * q - 1;
      assert lo == m * (lo / m) + lo % m && hi == m * q + hi % m;
      ChunkOrder(lo, hi, m);
      MulDistributes(m, q, -1);
      DivUnique(x, m, q - 1, m - 1);
    }
  }

  /** Reading a 64-bit word back gives what wrapping the exact result gives. */
  lemma {:induction false} WrapTurns(t: Ty, x: int, k: int)
    requires t != Tbool
    ensures Wrap(t, x + TWO64 * k) == Wrap(t, x)
  {
    SizeMaskDigits(t);
    var m, p := SizeMask(t) + 1, Pow2(64 - Width(t));
    WordTurns(SizeMask(t), Width(t));
    assert TWO64 * k == m * (p * k) by { MulAssociates(m, p, k); }
    WholeTurns(x, m, p * k);
    WholeTurns(x + SizeMask(t) / 2 + 1, m, p * k);
  }

  function Word(x: int): (w: U64)
    ensures w == x % TWO64
  {
    x % TWO64
  }

  lemma {:induction false} WrapWord(t: Ty, x: int)
    requires t != Tbool
    ensures Wrap(t, Word(x)) == Wrap(t, x)
  {
    WrapTurns(t, Word(x), x / TWO64);
  }

  // ----- the four corners of a box -----

  /** Multiplication takes its extremes over a box at the corners. */
  lemma {:induction false} ProductCorners(a: int, x: int, b: int, c: int, y: int, d: int)
    requires a <= x <= b && c <= y <= d
    ensures a * c <= x * y || a * d <= x * y || b * c <= x * y || b * d <= x * y
    ensures x * y <= a * c || x * y <= a * d || x * y <= b * c || x * y <= b * d
  {
    ProductEnds(a, x, b, y);
    ProductEnds(c, y, d, a);
    ProductEnds(c, y, d, b);
  }

  lemma {:induction false} ProductEnds(a: int, x: int, b: int, y: int)
    requires a <= x <= b
    ensures (a * y <= x * y <= b * y) || (b * y <= x * y <= a * y)
  {
    if y >= 0 {
      MulMonotone(y, a, x);
      MulMonotone(y, x, b);
    } else {
      MulMonotone(-y, a, x);
      MulMonotone(-y, x, b);
    }
  }

  /** So does truncating division when no divisor is zero. */
  lemma {:induction false} QuotientCorners(a: int, x: int, b: int, c: int, y: int, d: int)
    requires a <= x <= b && c <= y <= d && (c > 0 || d < 0)
    ensures TDiv(a, c) <= TDiv(x, y) || TDiv(a, d) <= TDiv(x, y) || TDiv(b, c) <= TDiv(x, y) || TDiv(b, d) <= TDiv(x, y)
    ensures TDiv(x, y) <= TDiv(a, c) || TDiv(x, y) <= TDiv(a, d) || TDiv(x, y) <= TDiv(b, c) || TDiv(x, y) <= TDiv(b, d)
  {
    DividendEnds(a, x, b, y);
    DivisorEnds(a, c, y, d);
    DivisorEnds(b, c, y, d);
  }

  lemma {:induction false} QuotientMonotone(x: nat, x': nat, y: nat)
    requires x <= x' && y > 0
    ensures 0 <= x / y <= x' / y
  {
    DivShrinks(x, y);
    var p, q := x / y, x' / y;
    assert x == y * p + x % y && x' == y * q + x' % y;
    if p > q { MulMonotone(y, q + 1, p); MulDistributes(y, q, 1); }
  }

  lemma {:induction false} QuotientAntitone(x: nat, y: nat, y': nat)
    requires 0 < y <= y'
    ensures 0 <= x / y' <= x / y
  {
    DivShrinks(x, y');
    var p, q := x / y, x / y';
    assert x == y * p + x % y && x == y' * q + x % y';
    if q > p {
      MulMonotone(q, y, y');
      MulMonotone(y, p + 1, q);
      MulDistributes(y, p, 1);
    }
  }

  lemma {:induction false} DividendEnds(a: int, x: int, b: int, y: int)
    requires a <= x <= b && y != 0
    ensures if y > 0 then TDiv(a, y) <= TDiv(x, y) <= TDiv(b, y) else TDiv(b, y) <= TDiv(x, y) <= TDiv(a, y)
  {
    TDivMonotone(a, x, y);
    TDivMonotone(x, b, y);
  }

  lemma {:induction false} TDivMonotone(x: int, x': int, y: int)
    requires x <= x' && y != 0
    ensures if y > 0 then TDiv(x, y) <= TDiv(x', y) else TDiv(x', y) <= TDiv(x, y)
  {
    QuotientMonotone(0, Abs(x), Abs(y));
    QuotientMonotone(0, Abs(x'), Abs(y));
    if x >= 0 {
      QuotientMonotone(Abs(x), Abs(x'), Abs(y));
    } else if x' < 0 {
      QuotientMonotone(Abs(x'), Abs(x), Abs(y));
    }
  }

  lemma {:induction false} DivisorEnds(x: int, c: int, y: int, d: int)
    requires c <= y <= d && (c > 0 || d < 0)
    ensures (TDiv(x, c) <= TDiv(x, y) <= TDiv(x, d)) || (TDiv(x, d) <= TDiv(x, y) <= TDiv(x, c))
  {
    if c > 0 {
      QuotientAntitone(Abs(x), c, y);
      QuotientAntitone(Abs(x), y, d);
    } else {
      QuotientAntitone(Abs(x), Abs(d), Abs(y));
      QuotientAntitone(Abs(x), Abs(y), Abs(c));
    }
  }

  // ----- remainders -----

  /** The rule for `%`: the bound is one less than the largest absolute divisor, and a
    remainder never leaves the interval between 0 and the dividend. */
  function ModRange(num: IntRange, den: IntRange): (r: IntRange)
    requires num.Ordered() && den.Ordered() && den.Lo() > -TWO64
    requires den.AbsNeg().Lo() < 0
    ensures r.Ordered()
    ensures forall x, y {:trigger TMod(x, y)} :: num.Has(x) && den.Has(y) && y != 0 ==> r.Has(TMod(x, y))
  {
    var dmin := Inc(den.AbsNeg().imin);
    var dmax := Neg(dmin);
    var r := IntRange(
      if !num.imin.negative then Sx(0, false) else if Less(num.imin, dmin) then dmin else num.imin,
      if num.imax.negative then Sx(0, false) else if Less(dmax, num.imax) then dmax else num.imax);
    assert forall x, y {:trigger TMod(x, y)} :: num.Has(x) && den.Has(y) && y != 0 ==> r.Has(TMod(x, y)) by {
      forall x, y {:trigger TMod(x, y)} | num.Has(x) && den.Has(y) && y != 0 ensures r.Has(TMod(x, y)) {
        RemainderBounds(x, y);
        assert den.AbsNeg().Has(0 - Abs(y));
      }
    }
    r
  }

  lemma {:induction false} RemainderBounds(x: int, y: int)
    requires y != 0
    ensures Abs(TMod(x, y)) <= Abs(y) - 1 && Abs(TMod(x, y)) <= Abs(x)
    ensures x >= 0 ==> TMod(x, y) >= 0
    ensures x <= 0 ==> TMod(x, y) <= 0
  {
    var p, q := Abs(x), Abs(y);
    assert p == q * (p / q) + p % q;
    DivShrinks(p, q);
    MulMonotone(q, 0, p / q);
  }

  // ----- bitwise operators -----

  datatype BitOp = BitAnd | BitOr | BitXor

  function Bitwise(op: BitOp, x: nat, y: nat): nat {
    match op
    case BitAnd => And(x, y)
    case BitOr => Or(x, y)
    case BitXor => Xor(x, y)
  }

  function BitSign(op: BitOp, x: bool, y: bool): bool {
    match op
    case BitAnd => x && y
    case BitOr => x || y
    case BitXor => x != y
  }

  /** The operator on 65-bit numbers. */
  function BitValue(op: BitOp, x: int, y: int): int {
    Bitwise(op, Word(x), Word(y)) - if BitSign(op, x < 0, y < 0) then TWO64 else 0
  }

  predicate OneSign(r: IntRange) {
    r.Ordered() && r.imin.negative == r.imax.negative
  }

  function DiffMask(r: IntRange): (m: U64) {
    WordWidth(r.imin.value, r.imax.value);
    Pow2Values();
    MaskWidth(64, Xor(r.imin.value, r.imax.value));
    Mask(Xor(r.imin.value, r.imax.value))
  }

  function QuadrantMin(op: BitOp, a: IntRange, b: IntRange): nat {
    var da, db := DiffMask(a), DiffMask(b);
    match op
    case BitAnd => And(AndNot(a.imin.value, da), AndNot(b.imin.value, db))
    case BitOr => Max(Max(Or(AndNot(a.imin.value, da), AndNot(b.imin.value, db)), a.imin.value), b.imin.value)
    case BitXor => AndNot(Xor(a.imin.value, b.imin.value), Or(da, db))
  }

  function QuadrantMax(op: BitOp, a: IntRange, b: IntRange): nat {
    var da, db := DiffMask(a), DiffMask(b);
    match op
    case BitAnd => Min(Min(And(Or(a.imax.value, da), Or(b.imax.value, db)), a.imax.value), b.imax.value)
    case BitOr => Or(Or(a.imax.value, b.imax.value), Mask(And(a.imax.value, b.imax.value)))
    case BitXor => Or(Xor(a.imax.value, b.imax.value), Or(da, db))
  }

  function Max(x: nat, y: nat): nat { if x < y then y else x }

  function Min(x: nat, y: nat): nat { if x > y then y else x }

  /** The result of a bitwise operator lies between the two bounds of its quadrant. */
  lemma {:induction false} BitwiseBounds(op: BitOp, a: IntRange, b: IntRange, x: nat, y: nat)
    requires a.imin.value <= x <= a.imax.value && b.imin.value <= y <= b.imax.value
    ensures QuadrantMin(op, a, b) <= Bitwise(op, x, y) <= QuadrantMax(op, a, b)
  {
    var da, db := DiffMask(a), DiffMask(b);
    IntervalAgrees(a.imin.value, x, a.imax.value);
    IntervalAgrees(b.imin.value, y, b.imax.value);
    match op
    case BitAnd => AndBounds(x, a.imin.value, a.imax.value, da, y, b.imin.value, b.imax.value, db);
    case BitOr =>
      OrLowerBound(x, a.imin.value, da, y, b.imin.value, db);
      OrUpperBound(x, a.imax.value, y, b.imax.value);
    case BitXor =>
      AgreeXor(x, a.imin.value, da, y, b.imin.value, db);
      AgreeXor(x, a.imax.value, da, y, b.imax.value, db);
      AgreeBelow(Xor(x, y), Xor(a.imin.value, b.imin.value), Or(da, db));
      AgreeAbove(Xor(x, y), Xor(a.imax.value, b.imax.value), Or(da, db));
      CoversIsBelow(AndNot(Xor(a.imin.value, b.imin.value), Or(da, db)), Xor(x, y));
      CoversIsBelow(Xor(x, y), Or(Xor(a.imax.value, b.imax.value), Or(da, db)));
  }

  lemma {:induction false} AndBounds(x: nat, lo: nat, hi: nat, d: nat, y: nat, lo': nat, hi': nat, d': nat)
    requires Agree(x, lo, d) && Agree(x, hi, d) && Agree(y, lo', d') && Agree(y, hi', d')
    ensures And(AndNot(lo, d), AndNot(lo', d')) <= And(x, y) <= And(Or(hi, d), Or(hi', d'))
  {
    AgreeBelow(x, lo, d);
    AgreeBelow(y, lo', d');
    AgreeAbove(x, hi, d);
    AgreeAbove(y, hi', d');
    CoversAnd(AndNot(lo, d), x, AndNot(lo', d'), y);
    CoversAnd(x, Or(hi, d), y, Or(hi', d'));
    CoversIsBelow(And(AndNot(lo, d), AndNot(lo', d')), And(x, y));
    CoversIsBelow(And(x, y), And(Or(hi, d), Or(hi', d')));
  }

  lemma {:induction false} OrLowerBound(x: nat, lo: nat, d: nat, y: nat, lo': nat, d': nat)
    requires Agree(x, lo, d) && Agree(y, lo', d')
    ensures Or(AndNot(lo, d), AndNot(lo', d')) <= Or(x, y)
  {
    AgreeBelow(x, lo, d);
    AgreeBelow(y, lo', d');
    CoversOr(AndNot(lo, d), x, AndNot(lo', d'), y);
    CoversIsBelow(Or(AndNot(lo, d), AndNot(lo', d')), Or(x, y));
  }

  lemma {:induction false} QuadrantWidth(op: BitOp, a: IntRange, b: IntRange)
    ensures QuadrantMin(op, a, b) < TWO64 && QuadrantMax(op, a, b) < TWO64
  {
    var da, db := DiffMask(a), DiffMask(b);
    var u, v := a.imax.value, b.imax.value;
    WordWidth(da, db);
    match op
    case BitAnd =>
    case BitOr =>
      WordWidth(AndNot(a.imin.value, da), AndNot(b.imin.value, db));
      Pow2Values();
      MaskWidth(64, And(u, v));
      WordWidth(u, v);
      WordWidth(Or(u, v), Mask(And(u, v)));
    case BitXor =>
      WordWidth(a.imin.value, b.imin.value);
      WordWidth(u, v);
      WordWidth(Xor(u, v), Or(da, db));
  }

  /** `unsignedBitwiseAnd`, `unsignedBitwiseOr` and `unsignedBitwiseXor`. */
  function Quadrant(op: BitOp, a: IntRange, b: IntRange): (r: IntRange)
    requires OneSign(a) && OneSign(b)
    ensures r.Ordered()
    ensures forall x, y {:trigger BitValue(op, x, y)} :: a.Has(x) && b.Has(y) ==> r.Has(BitValue(op, x, y))
  {
    QuadrantWidth(op, a, b);
    var negative := BitSign(op, a.imin.negative, b.imin.negative);
    var r := IntRange(Sx(QuadrantMin(op, a, b), negative), Sx(QuadrantMax(op, a, b), negative));
    QuadrantHolds(op, a, b, r);
    assert r.Has(BitValue(op, a.Lo(), b.Lo()));
    r
  }

  lemma {:induction false} QuadrantHolds(op: BitOp, a: IntRange, b: IntRange, r: IntRange)
    requires OneSign(a) && OneSign(b)
    requires r.imin.value == QuadrantMin(op, a, b) && r.imax.value == QuadrantMax(op, a, b)
    requires r.imin.negative == r.imax.negative == BitSign(op, a.imin.negative, b.imin.negative)
    ensures forall x, y {:trigger BitValue(op, x, y)} :: a.Has(x) && b.Has(y) ==> r.Has(BitValue(op, x, y))
  {
    forall x, y {:trigger BitValue(op, x, y)} | a.Has(x) && b.Has(y) ensures r.Has(BitValue(op, x, y)) {
      WordInside(a, x);
      WordInside(b, y);
      BitwiseBounds(op, a, b, Word(x), Word(y));
    }
  }

  lemma {:induction false} WordInside(a: IntRange, x: int)
    requires OneSign(a) && a.Has(x)
    ensures a.imin.value <= Word(x) <= a.imax.value && (x < 0 <==> a.imin.negative)
  {}

  datatype Option<T> = None | Some(value: T)

  function NegPart(r: IntRange): (n: Option<IntRange>)
    requires r.Ordered()
    ensures n.Some? ==> OneSign(n.value)
    ensures forall x :: r.Has(x) && x < 0 ==> n.Some? && n.value.Has(x)
  {
    if r.imin.negative then Some(IntRange(r.imin, if r.imax.negative then r.imax else Sx(TWO64 - 1, true)))
    else None
  }

  function NonNegPart(r: IntRange): (n: Option<IntRange>)
    requires r.Ordered()
    ensures n.Some? ==> OneSign(n.value)
    ensures forall x :: r.Has(x) && x >= 0 ==> n.Some? && n.value.Has(x)
  {
    if !r.imax.negative then Some(IntRange(if r.imin.negative then Sx(0, false) else r.imin, r.imax))
    else None
  }

  function UnionWith(acc: Option<IntRange>, r: IntRange): (u: Option<IntRange>)
    requires r.Ordered() && (acc.Some? ==> acc.value.Ordered())
    ensures u.Some? && u.value.Ordered() && u.value.Contains(r)
    ensures acc.Some? ==> u.value.Contains(acc.value)
  {
    if acc.None? then Some(r)
    else Some(IntRange(if Less(r.imin, acc.value.imin) then r.imin else acc.value.imin,
                       if Less(acc.value.imax, r.imax) then r.imax else acc.value.imax))
  }

  function AddQuadrant(op: BitOp, acc: Option<IntRange>, a: Option<IntRange>,
                       b: Option<IntRange>): (u: Option<IntRange>)
    requires (acc.Some? ==> acc.value.Ordered()) && (a.Some? ==> OneSign(a.value)) && (b.Some? ==> OneSign(b.value))
    ensures u.Some? ==> u.value.Ordered()
    ensures acc.Some? ==> u.Some? && u.value.Contains(acc.value)
    ensures a.Some? && b.Some? ==> u.Some? && u.value.Contains(Quadrant(op, a.value, b.value))
  {
    if a.Some? && b.Some? then UnionWith(acc, Quadrant(op, a.value, b.value)) else acc
  }

  /** The rule for `&`, `|` and `^`: the union of the up to four sign quadrants. */
  function BitRange(op: BitOp, r1: IntRange, r2: IntRange): (r: IntRange)
    requires r1.Ordered() && r2.Ordered()
    ensures r.Ordered()
    ensures forall x, y {:trigger BitValue(op, x, y)} :: r1.Has(x) && r2.Has(y) ==> r.Has(BitValue(op, x, y))
  {
    var n1, p1, n2, p2 := NegPart(r1), NonNegPart(r1), NegPart(r2), NonNegPart(r2);
    var u1 := AddQuadrant(op, None, p1, p2);
    var u2 := AddQuadrant(op, u1, p1, n2);
    var u3 := AddQuadrant(op, u2, n1, p2);
    var u4 := AddQuadrant(op, u3, n1, n2);
    assert r1.Has(r1.Lo()) && r2.Has(r2.Lo());
    u4.value
  }

  // ----- the same rules as the source runs them -----

  method UnsignedAnd(a: IntRange, b: IntRange) returns (result: IntRange)
    requires OneSign(a) && OneSign(b)
    ensures result == Quadrant(BitAnd, a, b)
  {
    var aDiffMask := VaryingDigits(a);
    var bDiffMask := VaryingDigits(b);
    MaskedOut(a.imin.value, aDiffMask);
    MaskedOut(b.imin.value, bDiffMask);
    QuadrantWidth(BitAnd, a, b);
    var lower := And(And(a.imin.value, Not(aDiffMask)), And(b.imin.value, Not(bDiffMask)));
    var upper := And(Or(a.imax.value, aDiffMask), Or(b.imax.value, bDiffMask));
    if upper > a.imax.value { upper := a.imax.value; }
    if upper > b.imax.value { upper := b.imax.value; }
    var negative := a.imin.negative && b.imin.negative;
    result := IntRange(Sx(lower, negative), Sx(upper, negative));
  }

  method UnsignedOr(a: IntRange, b: IntRange) returns (result: IntRange)
    requires OneSign(a) && OneSign(b)
    ensures result == Quadrant(BitOr, a, b)
  {
    var aDiffMask := VaryingDigits(a);
    var bDiffMask := VaryingDigits(b);
    MaskedOut(a.imin.value, aDiffMask);
    MaskedOut(b.imin.value, bDiffMask);
    QuadrantWidth(BitOr, a, b);
    WordWidth(a.imax.value, b.imax.value);
    var lower := Or(And(a.imin.value, Not(aDiffMask)), And(b.imin.value, Not(bDiffMask)));
    var m := GetMask(And(a.imax.value, b.imax.value));
    var upper := Or(Or(a.imax.value, b.imax.value), m);
    if lower < a.imin.value { lower := a.imin.value; }
    if lower < b.imin.value { lower := b.imin.value; }
    var negative := a.imin.negative || b.imin.negative;
    result := IntRange(Sx(lower, negative), Sx(upper, negative));
  }

  method UnsignedXor(a: IntRange, b: IntRange) returns (result: IntRange)
    requires OneSign(a) && OneSign(b)
    ensures result == Quadrant(BitXor, a, b)
  {
    var aDiffMask := VaryingDigits(a);
    var bDiffMask := VaryingDigits(b);
    WordWidth(aDiffMask, bDiffMask);
    WordWidth(a.imin.value, b.imin.value);
    MaskedOut(Xor(a.imin.value, b.imin.value), Or(aDiffMask, bDiffMask));
    QuadrantWidth(BitXor, a, b);
    var lower := And(Xor(a.imin.value, b.imin.value), Not(Or(aDiffMask, bDiffMask)));
    var upper := Or(Xor(a.imax.value, b.imax.value), Or(aDiffMask, bDiffMask));
    var negative := a.imin.negative != b.imin.negative;
    result := IntRange(Sx(lower, negative), Sx(upper, negative));
  }

  /** The mask of the digits in which the words of a range may differ. */
  method VaryingDigits(r: IntRange) returns (m: U64)
    ensures m == DiffMask(r)
  {
    WordWidth(r.imin.value, r.imax.value);
    m := GetMask(Xor(r.imin.value, r.imax.value));
  }

  method UnsignedBitwise(op: BitOp, a: IntRange, b: IntRange) returns (result: IntRange)
    requires OneSign(a) && OneSign(b)
    ensures result == Quadrant(op, a, b)
  {
    match op {
      case BitAnd => result := UnsignedAnd(a, b);
      case BitOr => result := UnsignedOr(a, b);
      case BitXor => result := UnsignedXor(a, b);
    }
  }

  method SplitBySign(r: IntRange)
      returns (negRange: IntRange, hasNegRange: bool, nonNegRange: IntRange, hasNonNegRange: bool)
    requires r.Ordered()
    ensures NegPart(r) == if hasNegRange then Some(negRange) else None
    ensures NonNegPart(r) == if hasNonNegRange then Some(nonNegRange) else None
  {
    negRange, nonNegRange := r, r;
    hasNegRange := r.imin.negative;
    if hasNegRange {
      negRange := IntRange(r.imin, if r.imax.negative then r.imax else Sx(TWO64 - 1, true));
    }
    hasNonNegRange := !r.imax.negative;
    if hasNonNegRange {
      nonNegRange := IntRange(if r.imin.negative then Sx(0, false) else r.imin, r.imax);
    }
  }

  method UnionOrAssign(r: IntRange, other: IntRange, union: bool) returns (result: IntRange)
    requires other.Ordered() && (union ==> r.Ordered())
    ensures UnionWith(if union then Some(r) else None, other) == Some(result)
  {
    result := r;
    if !union || Less(other.imin, result.imin) {
      result := result.(imin := other.imin);
    }
    if !union || Less(result.imax, other.imax) {
      result := result.(imax := other.imax);
    }
  }

  /** `AndExp`, `OrExp` and `XorExp::getIntRange` before the final cast. The assertion on
    `hasResult` is the one of the source. */
  method BitwiseGetIntRange(op: BitOp, ir1: IntRange, ir2: IntRange) returns (result: IntRange)
    requires ir1.Ordered() && ir2.Ordered()
    ensures result == BitRange(op, ir1, ir2)
  {
    var ir1neg, has1neg, ir1pos, has1pos := SplitBySign(ir1);
    var ir2neg, has2neg, ir2pos, has2pos := SplitBySign(ir2);
    result := ir1;
    var hasResult := false;
    if has1pos && has2pos {
      var q := UnsignedBitwise(op, ir1pos, ir2pos);
      result := UnionOrAssign(result, q, hasResult);
      hasResult := true;
    }
    if has1pos && has2neg {
      var q := UnsignedBitwise(op, ir1pos, ir2neg);
      result := UnionOrAssign(result, q, hasResult);
      hasResult := true;
    }
    if has1neg && has2pos {
      var q := UnsignedBitwise(op, ir1neg, ir2pos);
      result := UnionOrAssign(result, q, hasResult);
      hasResult := true;
    }
    if has1neg && has2neg {
      var q := UnsignedBitwise(op, ir1neg, ir2neg);
      result := UnionOrAssign(result, q, hasResult);
      hasResult := true;
    }
    assert hasResult;
  }
}
