/** Ranges that hold all values could still be too wide; these are the least ones. */
module Tightness {
  import opened Words
  import opened SignExtended
  import opened IntRanges
  import opened RangeRules
  import opened ValueRange
  import opened BitTightness

  /** The bounds of a cast are taken by wrapped values of the range. */
  lemma {:induction false} CastIsTight(r: IntRange, t: Ty) returns (x: int, y: int)
    requires r.Ordered() && t != Tbool && t != Tdchar
    ensures r.Has(x) && r.Has(y)
    ensures Wrap(t, x) == Cast(r, t).Lo() && Wrap(t, y) == Cast(r, t).Hi()
  {
    if IsUnsigned(t) {
      x, y := UnsignedEnds(r, SizeMask(t));
    } else {
      x, y := SignedEnds(r, SizeMask(t));
    }
  }

  /** An interval within one chunk of `m` numbers has its own ends; one that is not has the end
    of a chunk and the beginning of the next. */
  lemma {:induction false} ChunkEnds(lo: int, hi: int, m: int) returns (x: int, y: int)
    requires lo <= hi && m > 0
    ensures lo <= x <= hi && lo <= y <= hi
    ensures lo / m == hi / m ==> x == lo && y == hi
    ensures lo / m != hi / m ==> x % m == 0 && y % m == m - 1
  {
    if lo / m == hi / m {
      x, y := lo, hi;
    } else {
      ChunkOrder(lo, hi, m);
      var q := hi / m;
      x := q * m;
      y := x - 1;
      assert hi == m * q + hi % m && lo == m * (lo / m) + lo % m;
      DivUnique(x, m, q, 0);
      DivUnique(y, m, q - 1, m - 1);
    }
  }

  lemma {:induction false} UnsignedEnds(r: IntRange, mask: U64) returns (x: int, y: int)
    requires r.Ordered()
    ensures r.Has(x) && r.Has(y)
    ensures WrapUnsigned(mask, x) == CastUnsigned(r, mask).Lo() && WrapUnsigned(mask, y) == CastUnsigned(r, mask).Hi()
  {
    x, y := ChunkEnds(r.Lo(), r.Hi(), mask + 1);
  }

  lemma {:induction false} SignedEnds(r: IntRange, mask: U64) returns (x: int, y: int)
    requires r.Ordered() && mask % 2 == 1
    ensures r.Has(x) && r.Has(y)
    ensures WrapSigned(mask, x) == CastSigned(r, mask).Lo() && WrapSigned(mask, y) == CastSigned(r, mask).Hi()
  {
    var h := mask / 2 + 1;
    x, y := ChunkEnds(r.Lo() + h, r.Hi() + h, mask + 1);
    x, y := x - h, y - h;
  }

  /** Unless they saturate, the bounds of sums, differences, products and shifts are results for
    operands in their ranges. */
  lemma {:induction false} BoundsAreTaken(op: BinOp, t: Ty, r1: IntRange, r2: IntRange, u: Shifter)
    returns (v1: int, v2: int, w1: int, w2: int)
    requires op.AddOp? || op.MinOp? || op.MulOp? || op.ShlOp? || op.ShrOp?
    requires r1.Ordered() && r2.Ordered() && Unsaturated(op, r1, r2) && (IsShift(op) ==> r2.Lo() >= 0)
    requires Defined(op, t, r1, r2)
    ensures r1.Has(v1) && r2.Has(v2) && r1.Has(w1) && r2.Has(w2)
    ensures Exact(op, t, v1, v2) == RawRange(op, t, r1, r2, u).Lo()
    ensures Exact(op, t, w1, w2) == RawRange(op, t, r1, r2, u).Hi()
  {
    var a, b, c, d := r1.Lo(), r1.Hi(), r2.Lo(), r2.Hi();
    match op
    case AddOp => v1, v2, w1, w2 := a, c, b, d;
    case MinOp => v1, v2, w1, w2 := a, d, b, c;
    case MulOp =>
      var r := MulRange(r1, r2);
      v1, v2 := ProductCorner(r1, r2, r.imin);
      w1, w2 := ProductCorner(r1, r2, r.imax);
    case ShlOp =>
      v1, v2, w1, w2 := a, if a < 0 then d else c, b, if b < 0 then c else d;
    case ShrOp =>
      v1, v2, w1, w2 := a, if a < 0 then c else d, b, if b < 0 then d else c;
  }

  lemma {:induction false} ProductCorner(r1: IntRange, r2: IntRange, p: Sx) returns (v1: int, v2: int)
    requires r1.Ordered() && r2.Ordered() && Unsaturated(MulOp, r1, r2)
    requires p in {Times(r1.imin, r2.imin), Times(r1.imin, r2.imax), Times(r1.imax, r2.imin), Times(r1.imax, r2.imax)}
    ensures r1.Has(v1) && r2.Has(v2) && v1 * v2 == p.Val()
  {
    if p == Times(r1.imin, r2.imin) {
      v1, v2 := r1.Lo(), r2.Lo();
    } else if p == Times(r1.imin, r2.imax) {
      v1, v2 := r1.Lo(), r2.Hi();
    } else if p == Times(r1.imax, r2.imin) {
      v1, v2 := r1.Hi(), r2.Lo();
    } else {
      v1, v2 := r1.Hi(), r2.Hi();
    }
  }

  /** Operands with a given sum, which folding wraps. */
  lemma {:induction false} Summands(t: Ty, r1: IntRange, r2: IntRange, x: int) returns (v1: int, v2: int)
    requires Promoted(t) && InType(r1, t) && InType(r2, t)
    requires r1.Lo() + r2.Lo() <= x <= r1.Hi() + r2.Hi()
    ensures r1.Has(v1) && r2.Has(v2) && Fold(AddOp, t, v1, v2) == Some(Wrap(t, x))
  {
    v1 := if x - r2.Lo() <= r1.Hi() then x - r2.Lo() else r1.Hi();
    v2 := x - v1;
    FoldIsExact(AddOp, t, v1, v2);
  }

  lemma {:induction false} Terms(t: Ty, r1: IntRange, r2: IntRange, x: int) returns (v1: int, v2: int)
    requires Promoted(t) && InType(r1, t) && InType(r2, t)
    requires r1.Lo() - r2.Hi() <= x <= r1.Hi() - r2.Lo()
    ensures r1.Has(v1) && r2.Has(v2) && Fold(MinOp, t, v1, v2) == Some(Wrap(t, x))
  {
    v1 := if x + r2.Hi() <= r1.Hi() then x + r2.Hi() else r1.Hi();
    v2 := v1 - x;
    FoldIsExact(MinOp, t, v1, v2);
  }

  lemma {:induction false} RawSum(t: Ty, r1: IntRange, r2: IntRange, u: Shifter)
    requires r1.Ordered() && r2.Ordered() && Unsaturated(AddOp, r1, r2)
    ensures RawRange(AddOp, t, r1, r2, u).Lo() == r1.Lo() + r2.Lo()
    ensures RawRange(AddOp, t, r1, r2, u).Hi() == r1.Hi() + r2.Hi()
  {}

  lemma {:induction false} RawDifference(t: Ty, r1: IntRange, r2: IntRange, u: Shifter)
    requires r1.Ordered() && r2.Ordered() && Unsaturated(MinOp, r1, r2)
    ensures RawRange(MinOp, t, r1, r2, u).Lo() == r1.Lo() - r2.Hi()
    ensures RawRange(MinOp, t, r1, r2, u).Hi() == r1.Hi() - r2.Lo()
  {}

  /** Sums of operands in their ranges take every value between the bounds, so the range of an
    addition, cast included, is the least that holds all folded values. */
  lemma {:induction false} SumsAreTight(t: Ty, r1: IntRange, r2: IntRange, r: IntRange, u: Shifter)
    returns (v1: int, v2: int, w1: int, w2: int)
    requires Promoted(t) && InType(r1, t) && InType(r2, t) && Unsaturated(AddOp, r1, r2)
    requires r2.Lo() > -TWO64 && r == BinRange(AddOp, t, r1, r2, u)
    ensures r1.Has(v1) && r2.Has(v2) && r1.Has(w1) && r2.Has(w2)
    ensures Fold(AddOp, t, v1, v2) == Some(r.Lo()) && Fold(AddOp, t, w1, w2) == Some(r.Hi())
  {
    RawSum(t, r1, r2, u);
    var x, y := CastIsTight(RawRange(AddOp, t, r1, r2, u), t);
    v1, v2 := Summands(t, r1, r2, x);
    w1, w2 := Summands(t, r1, r2, y);
  }

  /** The same for differences, which never saturate. */
  lemma {:induction false} DifferencesAreTight(t: Ty, r1: IntRange, r2: IntRange, r: IntRange, u: Shifter)
    returns (v1: int, v2: int, w1: int, w2: int)
    requires Promoted(t) && InType(r1, t) && InType(r2, t)
    requires r2.Lo() > -TWO64 && r == BinRange(MinOp, t, r1, r2, u)
    ensures r1.Has(v1) && r2.Has(v2) && r1.Has(w1) && r2.Has(w2)
    ensures Fold(MinOp, t, v1, v2) == Some(r.Lo()) && Fold(MinOp, t, w1, w2) == Some(r.Hi())
  {
    DifferenceFits(t, r1, r2);
    RawDifference(t, r1, r2, u);
    var x, y := CastIsTight(RawRange(MinOp, t, r1, r2, u), t);
    v1, v2 := Terms(t, r1, r2, x);
    w1, w2 := Terms(t, r1, r2, y);
  }

  // ----- quotients and remainders -----

  /** Unless the least number is divided by -1, the bounds of a quotient are quotients of ends. */
  lemma {:induction false} QuotientsAreTight(t: Ty, r1: IntRange, r2: IntRange, u: Shifter)
    returns (v1: int, v2: int, w1: int, w2: int)
    requires Promoted(t) && InType(r1, t) && InType(r2, t) && !r2.Has(0)
    requires IsUnsigned(t) || r1.Lo() > TypeRange(t).Lo() || !r2.Has(-1)
    ensures {v1, w1} <= {r1.Lo(), r1.Hi()} && {v2, w2} <= {r2.Lo(), r2.Hi()} && v2 != 0 && w2 != 0
    ensures TDiv(v1, v2) == BinRange(DivOp, t, r1, r2, u).Lo()
    ensures TDiv(w1, w2) == BinRange(DivOp, t, r1, r2, u).Hi()
  {
    QuotientFits(r1, r2, t);
    var p, q := Corners(r1, r2);
    v1, v2 := QuotientCorner(r1, r2, p);
    w1, w2 := QuotientCorner(r1, r2, q);
    QuotientInType(t, v1, v2);
    QuotientInType(t, w1, w2);
    CastFits(IntRange(p, q), t);
  }

  lemma {:induction false} Corners(r1: IntRange, r2: IntRange) returns (p: Sx, q: Sx)
    ensures IntRange(p, q) == FromNumbers4(Over(r1.imin, r2.imin), Over(r1.imin, r2.imax),
                                           Over(r1.imax, r2.imin), Over(r1.imax, r2.imax))
    ensures IsQuotient(p, r1, r2) && IsQuotient(q, r1, r2) && p.Val() <= q.Val()
  {
    var r := FromNumbers4(Over(r1.imin, r2.imin), Over(r1.imin, r2.imax),
                          Over(r1.imax, r2.imin), Over(r1.imax, r2.imax));
    p, q := r.imin, r.imax;
  }

  predicate IsQuotient(p: Sx, r1: IntRange, r2: IntRange) {
    p in {Over(r1.imin, r2.imin), Over(r1.imin, r2.imax), Over(r1.imax, r2.imin), Over(r1.imax, r2.imax)}
  }

  lemma {:induction false} QuotientCorner(r1: IntRange, r2: IntRange, p: Sx) returns (v1: int, v2: int)
    requires r1.Ordered() && r2.Ordered() && !r2.Has(0) && IsQuotient(p, r1, r2)
    requires Fits(TDiv(r1.Lo(), r2.Lo())) && Fits(TDiv(r1.Lo(), r2.Hi()))
    requires Fits(TDiv(r1.Hi(), r2.Lo())) && Fits(TDiv(r1.Hi(), r2.Hi()))
    ensures v1 in {r1.Lo(), r1.Hi()} && v2 in {r2.Lo(), r2.Hi()} && v2 != 0 && TDiv(v1, v2) == p.Val()
  {
    if p == Over(r1.imin, r2.imin) {
      v1, v2 := r1.Lo(), r2.Lo();
    } else if p == Over(r1.imin, r2.imax) {
      v1, v2 := r1.Lo(), r2.Hi();
    } else if p == Over(r1.imax, r2.imin) {
      v1, v2 := r1.Hi(), r2.Lo();
    } else {
      v1, v2 := r1.Hi(), r2.Hi();
    }
  }

  lemma {:induction false} QuotientInType(t: Ty, x: int, y: int)
    requires Promoted(t) && TypeRange(t).Has(x) && TypeRange(t).Has(y) && y != 0
    requires IsUnsigned(t) || x > TypeRange(t).Lo() || y != -1
    ensures TypeRange(t).Has(TDiv(x, y))
  {
    QuotientBounds(Abs(x), Abs(y));
  }

  /** The largest absolute value. */
  function Largest(r: IntRange): nat {
    if Abs(r.Lo()) < Abs(r.Hi()) then Abs(r.Hi()) else Abs(r.Lo())
  }

  function Lesser(x: int, y: int): int { if x < y then x else y }

  function Greater(x: int, y: int): int { if x < y then y else x }

  /** The bounds of a remainder: those of the dividend, extended to 0, and one less than the largest
    absolute divisor. */
  predicate IsRemainders(num: IntRange, den: IntRange, r: IntRange) {
    && r.Lo() == Greater(Lesser(num.Lo(), 0), 1 - Largest(den))
    && r.Hi() == Lesser(Greater(num.Hi(), 0), Largest(den) - 1)
  }

  lemma {:induction false} RemaindersEnd(num: IntRange, den: IntRange)
    requires num.Ordered() && den.Ordered() && den.Lo() > -TWO64
    ensures den.AbsNeg().Lo() == 0 - Largest(den)
    ensures Largest(den) > 0 ==> IsRemainders(num, den, ModRange(num, den))
  {
    AbsNegEnd(den);
    if Largest(den) > 0 {
      var dmin := Inc(den.AbsNeg().imin);
      RemaindersBetween(num, den, dmin, Neg(dmin));
    }
  }

  lemma {:induction false} AbsNegEnd(den: IntRange)
    requires den.Ordered() && den.Lo() > -TWO64
    ensures den.AbsNeg().Lo() == 0 - Largest(den)
  {
    assert den.Has(den.Lo()) && den.Has(den.Hi());
    assert den.AbsNeg().Has(0 - Abs(den.Lo())) && den.AbsNeg().Has(0 - Abs(den.Hi()));
  }

  lemma {:induction false} RemaindersBetween(num: IntRange, den: IntRange, dmin: Sx, dmax: Sx)
    requires num.Ordered() && dmin.Val() == 1 - Largest(den) && dmax.Val() == Largest(den) - 1 && Largest(den) > 0
    ensures
      IsRemainders(num, den, IntRange(
        if !num.imin.negative then Sx(0, false) else if Less(num.imin, dmin) then dmin else num.imin,
        if num.imax.negative then Sx(0, false) else if Less(dmax, num.imax) then dmax else num.imax))
  {}

  /** The cast to the type of the dividend leaves them. */
  lemma {:induction false} RemainderRange(t: Ty, r1: IntRange, r2: IntRange, u: Shifter)
    requires InType(r1, t) && r2.Ordered() && r2.Lo() > -TWO64 && Largest(r2) > 0
    ensures IsRemainders(r1, r2, BinRange(ModOp, t, r1, r2, u))
  {
    RemaindersEnd(r1, r2);
    CastFits(ModRange(r1, r2), t);
  }

  /** A bound that the dividend reaches is a remainder of itself. */
  lemma {:induction false} RemaindersAreTaken(num: IntRange, den: IntRange, b: int) returns (d: int)
    requires num.Ordered() && den.Ordered() && den.Lo() > -TWO64 && Largest(den) > 0
    requires num.Has(b) && (b == ModRange(num, den).Lo() || b == ModRange(num, den).Hi())
    ensures den.Has(d) && d != 0 && TMod(b, d) == b
  {
    RemaindersEnd(num, den);
    d := if Abs(den.Lo()) < Abs(den.Hi()) then den.Hi() else den.Lo();
    SmallQuotient(Abs(b), Abs(d));
  }

  // ----- unary operators and single operands -----

  /** Both bounds of `-` and `~` are folded values. */
  lemma {:induction false} UnaryIsTight(op: UnaOp, t: Ty, r: IntRange) returns (v: int, w: int)
    requires InType(r, t) && t != Tbool && t != Tdchar
    ensures r.Has(v) && FoldUna(op, t, v) == Cast(UnaRange(op, r), t).Lo()
    ensures r.Has(w) && FoldUna(op, t, w) == Cast(UnaRange(op, r), t).Hi()
  {
    var x, y := CastIsTight(UnaRange(op, r), t);
    v, w := Turn(op, x), Turn(op, y);
    UnaryOperand(op, t, r, x);
    UnaryOperand(op, t, r, y);
    UnaryWrap(op, t, v);
    UnaryWrap(op, t, w);
  }

  function Turn(op: UnaOp, v: int): (x: int)
    ensures op.NegOp? ==> v + x == 0
    ensures op.ComOp? ==> v + x == -1
  {
    if op.NegOp? then 0 - v else -1 - v
  }

  lemma {:induction false} UnaryOperand(op: UnaOp, t: Ty, r: IntRange, x: int)
    requires InType(r, t) && UnaRange(op, r).Has(x)
    ensures r.Has(Turn(op, x)) && TypeRange(t).Has(Turn(op, x)) && Turn(op, Turn(op, x)) == x
  {}

  lemma {:induction false} UnaryWrap(op: UnaOp, t: Ty, v: int)
    requires TypeRange(t).Has(v) && t != Tbool
    ensures FoldUna(op, t, v) == Wrap(t, Turn(op, v))
  {
    if op.NegOp? { WrapWord(t, 0 - v); } else { WrapTurns(t, -1 - v, v / TWO64 + 1); }
  }

  predicate IsPoint(r: IntRange, v: int) {
    r.Lo() == v && r.Hi() == v
  }

  /** Operands of known value give a range of one value, which folding gives, unless the operator is
    a remainder, something saturates, or the operands of `|` do not fit. */
  lemma {:induction false} PointsGivePoint(op: BinOp, t: Ty, r1: IntRange, r2: IntRange, v1: int, v2: int, u: Shifter)
    requires IsPoint(r1, v1) && IsPoint(r2, v2) && r2.Lo() > -TWO64 && !op.ModOp? && OperandsOf(op, t, v1, v2)
    requires Unsaturated(op, r1, r2) && Defined(op, t, r1, r2)
    requires op == BitsOp(BitOr) ==> OrFits(r1, r2)
    ensures IsPoint(BinRange(op, t, r1, r2, u), Fold(op, t, v1, v2).value)
  {
    FoldIsExact(op, t, v1, v2);
    if op.DivOp? {
      QuotientPoint(t, r1, r2, v1, v2, u);
    } else {
      RawPoint(op, t, r1, r2, v1, v2, u);
      if t == Tbool { BoolBits(op.bits, r1, r2); }
      CastPoint(RawRange(op, t, r1, r2, u), t, Exact(op, t, v1, v2));
    }
  }

  lemma {:induction false} QuotientPoint(t: Ty, r1: IntRange, r2: IntRange, v1: int, v2: int, u: Shifter)
    requires IsPoint(r1, v1) && IsPoint(r2, v2) && v2 != 0 && InType(r1, t) && InType(r2, t) && Promoted(t)
    ensures IsPoint(BinRange(DivOp, t, r1, r2, u), Wrap(t, TDiv(v1, v2)))
  {
    QuotientFits(r1, r2, t);
    var p, q := Corners(r1, r2);
    var x, x' := QuotientCorner(r1, r2, p);
    var y, y' := QuotientCorner(r1, r2, q);
    CastPoint(IntRange(p, q), t, TDiv(v1, v2));
  }

  lemma {:induction false} CastPoint(r: IntRange, t: Ty, x: int)
    requires IsPoint(r, x) && t != Tdchar && (t == Tbool ==> TypeRange(t).Contains(r))
    ensures IsPoint(Cast(r, t), Wrap(t, x))
  {
    if t == Tbool {
      CastFits(r, t);
      WrapOfTypeValue(t, x);
    } else {
      var y, z := CastIsTight(r, t);
    }
  }

  lemma {:induction false} RawPoint(op: BinOp, t: Ty, r1: IntRange, r2: IntRange, v1: int, v2: int, u: Shifter)
    requires IsPoint(r1, v1) && IsPoint(r2, v2) && !op.ModOp? && !op.DivOp? && OperandsOf(op, t, v1, v2)
    requires Unsaturated(op, r1, r2) && Defined(op, t, r1, r2)
    requires op == BitsOp(BitOr) ==> OrFits(r1, r2)
    ensures IsPoint(RawRange(op, t, r1, r2, u), Exact(op, t, v1, v2))
  {
    match op
    case UshrOp =>
      UshrPoint(t, r1, r2, v1, v2, u);
    case BitsOp(b) =>
      BitsPoint(b, r1, r2, v1, v2);
    case _ =>
      var x, x', y, y' := BoundsAreTaken(op, t, r1, r2, u);
  }

  lemma {:induction false} BitsPoint(b: BitOp, r1: IntRange, r2: IntRange, v1: int, v2: int)
    requires IsPoint(r1, v1) && IsPoint(r2, v2) && (b.BitOr? ==> OrFits(r1, r2))
    ensures IsPoint(BitRange(b, r1, r2), BitValue(b, v1, v2))
  {
    PointsFit(b, r1, r2, v1, v2);
    var x, x', y, y' := BitsAreTight(b, r1, r2);
    assert x == y == v1 && x' == y' == v2;
  }

  lemma {:induction false} UshrPoint(t: Ty, r1: IntRange, r2: IntRange, v1: int, v2: nat, u: Shifter)
    requires IsPoint(r1, v1) && IsPoint(r2, v2) && Promoted(t) && Defined(UshrOp, t, r1, r2)
    ensures IsPoint(RawRange(UshrOp, t, r1, r2, u), WrapUnsigned(SizeMask(t), v1) / Pow2(v2))
  {
    var x, y := UnsignedEnds(r1, SizeMask(t));
    assert IsPoint(CastUnsignedType(r1, t), WrapUnsigned(SizeMask(t), v1));
    assert ShiftCounts(r2) == r2;
  }

  lemma {:induction false} PointsFit(b: BitOp, r1: IntRange, r2: IntRange, v1: int, v2: int)
    requires IsPoint(r1, v1) && IsPoint(r2, v2) && (b.BitOr? ==> OrFits(r1, r2))
    ensures InBlocks(r1) && InBlocks(r2)
    ensures b.BitOr? ==> forall a1, a2 | IsPart(a1, r1) && IsPart(a2, r2) :: OrFits(a1, a2)
  {
    PointIsBlock(r1, v1);
    PointIsBlock(r2, v2);
  }

  lemma {:induction false} PointIsBlock(r: IntRange, v: int)
    requires IsPoint(r, v)
    ensures InBlocks(r) && forall a | IsPart(a, r) :: a == r
  {
    var k: nat := 0;
    DivUnique(r.imin.value, 1, r.imin.value, 0);
    assert IsBlock(r, k);
  }

  /** The range of `2 | 2` also holds 3. */
  lemma {:induction false} OrOfTwosIsTooWide(u: Shifter)
    ensures
      var two := IntRange(Sx(2, false), Sx(2, false));
      BinRange(BitsOp(BitOr), Tint32, two, two, u).Hi() == 3
  {
    OrOfPoints(IntRange(Sx(2, false), Sx(2, false)), 3, u);
  }

  lemma {:induction false} OrOfPoints(r: IntRange, top: int, u: Shifter)
    requires OneSign(r) && !r.imin.negative && top <= 3
    requires Or(Or(r.imax.value, r.imax.value), Mask(And(r.imax.value, r.imax.value))) == top
    ensures BinRange(BitsOp(BitOr), Tint32, r, r, u).Hi() == top
  {
    var a, b, c, d := EndQuadrants(BitOr, r, r);
    assert c == r && d == r;
    assert Quadrant(BitOr, r, r).Hi() == top;
    assert a == r && b == r && Quadrant(BitOr, r, r).Lo() >= 0;
    CastFits(RawRange(BitsOp(BitOr), Tint32, r, r, u), Tint32);
  }

  // ----- left shifts -----

  lemma {:induction false} LowDigitsTaken(t: Ty, k: nat, r: IntRange) returns (x: int, y: int)
    requires 0 < k <= 64 && r.Ordered()
    ensures r.Has(x) && r.Has(y)
    ensures LowDigitsOf(t, k, x) == LowDigitsRange(t, k, r).Lo()
    ensures LowDigitsOf(t, k, y) == LowDigitsRange(t, k, r).Hi()
  {
    HalfOfMask(LowMask(k), k);
    if IsUnsigned(t) {
      x, y := UnsignedEnds(r, LowMask(k));
    } else {
      x, y := SignedEnds(r, LowMask(k));
    }
  }

  ghost predicate ShlKeeps(t: Ty, r1: IntRange, n: nat, r: IntRange) {
    forall v | r1.Has(v) :: r.Has(Wrap(t, v * Pow2(n)))
  }

  /** One amount: the range holds all results if and only if it holds the least and the greatest. */
  lemma {:induction false} ShlHoldsExactly(t: Ty, r1: IntRange, n: nat, r: IntRange)
    requires Promoted(t) && r1.Ordered()
    ensures ShlHolds(t, r1, n, r) <==> ShlKeeps(t, r1, n, r)
  {
    if ShlHolds(t, r1, n, r) {
      forall v | r1.Has(v) ensures r.Has(Wrap(t, v * Pow2(n))) {
        ShlHoldsOne(t, r1, n, r, v);
      }
    }
    if ShlKeeps(t, r1, n, r) {
      if n >= Width(t) {
        ShlKeepsDigits(t, r1.Lo(), n);
        assert r.Has(Wrap(t, r1.Lo() * Pow2(n)));
      } else {
        var x, y := LowDigitsTaken(t, Width(t) - n, r1);
        ShlKeepsDigits(t, x, n);
        ShlKeepsDigits(t, y, n);
        assert r.Has(Wrap(t, x * Pow2(n))) && r.Has(Wrap(t, y * Pow2(n)));
      }
    }
  }

  /** The range of a left shift holds everything that folding gives if and only if for each of the
    at most 64 amounts it holds two numbers. */
  lemma {:induction false} ShlSafeIsExact(t: Ty, r1: IntRange, r2: IntRange, u: Shifter)
    requires Promoted(t) && InType(r1, t) && r2.Ordered() && r2.Lo() > -TWO64
    ensures BinSafe(ShlOp, t, r1, r2, u) <==>
            forall v1, v2 {:trigger Fold(ShlOp, t, v1, v2)} :: r1.Has(v1) && r2.Has(v2) && 0 <= v2 < 64 ==>
              BinRange(ShlOp, t, r1, r2, u).Has(Fold(ShlOp, t, v1, v2).value)
  {
    if BinSafe(ShlOp, t, r1, r2, u) {
      forall v1, v2 {:trigger Fold(ShlOp, t, v1, v2)} | r1.Has(v1) && r2.Has(v2) && 0 <= v2 < 64
        ensures BinRange(ShlOp, t, r1, r2, u).Has(Fold(ShlOp, t, v1, v2).value)
      {
        ShlFoldHeld(t, r1, r2, v1, v2, u);
      }
    }
    var r := BinRange(ShlOp, t, r1, r2, u);
    if forall v1, v2 {:trigger Fold(ShlOp, t, v1, v2)} :: r1.Has(v1) && r2.Has(v2) && 0 <= v2 < 64 ==>
         r.Has(Fold(ShlOp, t, v1, v2).value)
    {
      forall n: nat | n < 64 && r2.Has(n) ensures ShlHolds(t, r1, n, r) {
        FoldsHeld(t, r1, r2, n, r);
      }
      SafeForAll(t, r1, r2, u);
    }
  }

  lemma {:induction false} SafeForAll(t: Ty, r1: IntRange, r2: IntRange, u: Shifter)
    requires r1.Ordered() && r2.Ordered() && r2.Lo() > -TWO64
    requires forall n: nat | n < 64 && r2.Has(n) :: ShlHolds(t, r1, n, BinRange(ShlOp, t, r1, r2, u))
    ensures BinSafe(ShlOp, t, r1, r2, u)
  {}

  lemma {:induction false} ShlFoldHeld(t: Ty, r1: IntRange, r2: IntRange, v1: int, v2: nat, u: Shifter)
    requires Promoted(t) && InType(r1, t) && r1.Has(v1) && r2.Has(v2) && v2 < 64 && r2.Lo() > -TWO64
    requires BinSafe(ShlOp, t, r1, r2, u)
    ensures BinRange(ShlOp, t, r1, r2, u).Has(Fold(ShlOp, t, v1, v2).value)
  {
    ShlSound(t, r1, r2, v1, v2, u);
    FoldIsExact(ShlOp, t, v1, v2);
  }

  lemma {:induction false} FoldsHeld(t: Ty, r1: IntRange, r2: IntRange, n: nat, r: IntRange)
    requires Promoted(t) && InType(r1, t) && r2.Has(n) && n < 64
    requires forall v1, v2 {:trigger Fold(ShlOp, t, v1, v2)} :: r1.Has(v1) && r2.Has(v2) && 0 <= v2 < 64 ==>
               r.Has(Fold(ShlOp, t, v1, v2).value)
    ensures ShlHolds(t, r1, n, r)
  {
    forall v | r1.Has(v) ensures r.Has(Wrap(t, v * Pow2(n))) {
      FoldIsExact(ShlOp, t, v, n);
      assert r.Has(Fold(ShlOp, t, v, n).value);
    }
    ShlHoldsExactly(t, r1, n, r);
  }

  /** It does so in particular when nothing saturates. */
  lemma {:induction false} UnsaturatedShl(t: Ty, r1: IntRange, r2: IntRange, u: Shifter)
    requires Promoted(t) && InType(r1, t) && r2.Ordered() && r2.Lo() > -TWO64 && Unsaturated(ShlOp, r1, r2)
    ensures BinSafe(ShlOp, t, r1, r2, u)
  {
    var r := BinRange(ShlOp, t, r1, r2, u);
    forall n: nat | n < 64 && r2.Has(n) ensures ShlHolds(t, r1, n, r) {
      forall v | r1.Has(v) ensures r.Has(Wrap(t, v * Pow2(n))) {
        RawIsSafe(ShlOp, t, r1, r2, u);
        PlainSound(ShlOp, t, r1, r2, v, n, u);
      }
      ShlHoldsExactly(t, r1, n, r);
    }
  }
}
