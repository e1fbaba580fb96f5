/** Where value-range propagation is exact, where it is not, and what implicit narrowing
  conversions inherit from it. */
module Narrowing {
  import opened Words
  import opened SignExtended
  import opened IntRanges
  import opened RangeRules
  import opened ValueRange
  import opened Tightness

  // ----- the source's own way of computing a range -----

  /** `cast(Type)` */
  method CastRange(r: IntRange, t: Ty) returns (c: IntRange)
    requires r.Ordered()
    ensures c == Cast(r, t)
  {
    SizeMaskDigits(t);
    if !IsUnsigned(t) {
      c := CastSignedWords(r, SizeMask(t), Width(t));
    } else if t.Tdchar? {
      c := CastDcharWords(r);
    } else {
      c := CastUnsignedWords(r, SizeMask(t), Width(t));
    }
  }

  method CastDcharWords(r: IntRange) returns (c: IntRange)
    requires r.Ordered()
    ensures c == CastDchar(r)
  {
    SizeMaskDigits(Tdchar);
    c := CastUnsignedWords(r, 0xFFFF_FFFF, 32);
    if c.imin.value > 0x10FFFF {
      c := c.(imin := c.imin.(value := 0x10FFFF));
    }
    if c.imax.value > 0x10FFFF {
      c := c.(imax := c.imax.(value := 0x10FFFF));
    }
  }

  /** `fromNumbers4` */
  method FromCorners(numbers: array<Sx>) returns (ab: IntRange)
    requires numbers.Length == 4
    ensures ab == FromNumbers4(numbers[0], numbers[1], numbers[2], numbers[3])
  {
    ab := FromNumbers2(numbers[0], numbers[1]);
    var cd := FromNumbers2(numbers[2], numbers[3]);
    if Less(cd.imin, ab.imin) {
      ab := ab.(imin := cd.imin);
    }
    if Less(ab.imax, cd.imax) {
      ab := ab.(imax := cd.imax);
    }
  }

  method DivGetIntRange(ir1: IntRange, ir2: IntRange, t: Ty, u: Shifter) returns (r: IntRange)
    requires ir1.Ordered() && ir2.Ordered() && ir2.Lo() > -TWO64
    ensures r == BinRange(DivOp, t, ir1, ir2, u)
  {
    if ir2.ContainsZero() {
      return TypeRange(t);
    }
    r := Quotients(ir1, ir2);
    r := CastRange(r, t);
  }

  method Quotients(ir1: IntRange, ir2: IntRange) returns (r: IntRange)
    requires ir1.Ordered() && ir2.Ordered()
    ensures r.Ordered()
    ensures r == FromNumbers4(Over(ir1.imin, ir2.imin), Over(ir1.imin, ir2.imax),
                              Over(ir1.imax, ir2.imin), Over(ir1.imax, ir2.imax))
  {
    var bdy := new Sx[4](_ => Zero);
    bdy[0] := Divide(ir1.imin, ir2.imin);
    bdy[1] := Divide(ir1.imin, ir2.imax);
    bdy[2] := Divide(ir1.imax, ir2.imin);
    bdy[3] := Divide(ir1.imax, ir2.imax);
    r := FromCorners(bdy);
  }

  method MulGetIntRange(ir1: IntRange, ir2: IntRange, t: Ty, u: Shifter) returns (r: IntRange)
    requires ir1.Ordered() && ir2.Ordered() && ir2.Lo() > -TWO64
    ensures r == BinRange(MulOp, t, ir1, ir2, u)
  {
    r := Products(ir1, ir2);
    r := CastRange(r, t);
  }

  method Products(ir1: IntRange, ir2: IntRange) returns (r: IntRange)
    requires ir1.Ordered() && ir2.Ordered()
    ensures r == MulRange(ir1, ir2)
  {
    var bdy := new Sx[4](_ => Zero);
    bdy[0] := Times(ir1.imin, ir2.imin);
    bdy[1] := Times(ir1.imin, ir2.imax);
    bdy[2] := Times(ir1.imax, ir2.imin);
    bdy[3] := Times(ir1.imax, ir2.imax);
    r := FromCorners(bdy);
  }

  /** `ModExp::getIntRange`, which adjusts the two ranges in place. */
  method ModGetIntRange(ir1: IntRange, ir2: IntRange, t: Ty, u: Shifter) returns (r: IntRange)
    requires ir1.Ordered() && ir2.Ordered() && ir2.Lo() > -TWO64
    ensures r == BinRange(ModOp, t, ir1, ir2, u)
    ensures ir2.Lo() == 0 == ir2.Hi() ==> r == TypeRange(t)
    ensures !(ir2.Lo() == 0 == ir2.Hi()) && InType(ir1, t) ==> IsRemainders(ir1, ir2, r)
  {
    RemaindersEnd(ir1, ir2);
    if !ir2.AbsNeg().imin.negative {
      return TypeRange(t);
    }
    var irNum := Remainders(ir1, ir2);
    r := CastRange(irNum, t);
    if InType(ir1, t) { RemainderRange(t, ir1, ir2, u); }
  }

  method Remainders(ir1: IntRange, ir2: IntRange) returns (irNum: IntRange)
    requires ir1.Ordered() && ir2.Ordered() && ir2.Lo() > -TWO64 && ir2.AbsNeg().imin.negative
    ensures irNum == ModRange(ir1, ir2)
    ensures IsRemainders(ir1, ir2, irNum)
  {
    RemaindersEnd(ir1, ir2);
    irNum := ir1;
    var irDen := ir2.AbsNeg();
    irDen := irDen.(imin := Inc(irDen.imin));
    irDen := irDen.(imax := Neg(irDen.imin));
    if !irNum.imin.negative {
      irNum := irNum.(imin := Sx(0, irNum.imin.negative));
    } else if Less(irNum.imin, irDen.imin) {
      irNum := irNum.(imin := irDen.imin);
    }
    if irNum.imax.negative {
      irNum := irNum.(imax := Sx(0, false));
    } else if Less(irDen.imax, irNum.imax) {
      irNum := irNum.(imax := irDen.imax);
    }
  }

  /** The amounts of a shift. */
  method Amounts(ir2: IntRange) returns (r: IntRange)
    requires ir2.Ordered()
    ensures r == ShiftCounts(ir2)
  {
    r := ir2;
    if r.imin.negative {
      r := IntRange(Sx(0, false), Sx(64, false));
    }
  }

  method ShlGetIntRange(ir1: IntRange, ir2: IntRange, t: Ty, u: Shifter) returns (r: IntRange)
    requires ir1.Ordered() && ir2.Ordered() && ir2.Lo() > -TWO64
    ensures r == BinRange(ShlOp, t, ir1, ir2, u)
  {
    var amounts := Amounts(ir2);
    var lower := LeftShift(ir1.imin, if ir1.imin.negative then amounts.imax else amounts.imin);
    var upper := LeftShift(ir1.imax, if ir1.imax.negative then amounts.imin else amounts.imax);
    assert IntRange(lower, upper) == ShlRange(ir1, amounts);
    r := CastRange(IntRange(lower, upper), t);
  }

  /** The ends of a right shift; unless the machine has a say, they are in order. */
  method ShiftedEnds(ir1: IntRange, amounts: IntRange, u: Shifter) returns (r: IntRange)
    requires ir1.Ordered() && amounts.Ordered() && amounts.Lo() >= 0
    ensures r == ShrRange(ir1, amounts, u)
  {
    var lower := ShiftRight(ir1.imin, if ir1.imin.negative then amounts.imin else amounts.imax, u);
    var upper := ShiftRight(ir1.imax, if ir1.imax.negative then amounts.imax else amounts.imin, u);
    r := FromNumbers2(lower, upper);
  }

  method UshrGetIntRange(e1: IntRange, ir2: IntRange, t: Ty, u: Shifter) returns (r: IntRange)
    requires e1.Ordered() && ir2.Ordered() && ir2.Lo() > -TWO64
    ensures r == BinRange(UshrOp, t, e1, ir2, u)
  {
    SizeMaskDigits(t);
    var ir1;
    if t.Tdchar? {
      ir1 := CastDcharWords(e1);
    } else {
      ir1 := CastUnsignedWords(e1, SizeMask(t), Width(t));
    }
    var amounts := Amounts(ir2);
    var ends := ShiftedEnds(ir1, amounts, u);
    r := CastRange(ends, t);
  }

  method PlusMinusGetIntRange(op: BinOp, ir1: IntRange, ir2: IntRange, t: Ty, u: Shifter) returns (r: IntRange)
    requires op.AddOp? || op.MinOp?
    requires ir1.Ordered() && ir2.Ordered() && ir2.Lo() > -TWO64
    ensures r == BinRange(op, t, ir1, ir2, u)
  {
    if op.AddOp? {
      r := IntRange(Plus(ir1.imin, ir2.imin), Plus(ir1.imax, ir2.imax));
    } else {
      r := IntRange(Minus(ir1.imin, ir2.imax), Minus(ir1.imax, ir2.imin));
    }
    r := CastRange(r, t);
  }

  method UnaGetIntRange(op: UnaOp, ir: IntRange, t: Ty) returns (r: IntRange)
    requires ir.Ordered()
    ensures r == Cast(UnaRange(op, ir), t)
  {
    if op.ComOp? {
      r := IntRange(Sx(Not(ir.imax.value), !ir.imax.negative), Sx(Not(ir.imin.value), !ir.imin.negative));
    } else {
      r := IntRange(Neg(ir.imax), Neg(ir.imin));
    }
    assert r == UnaRange(op, ir);
    r := CastRange(r, t);
  }

  method BinGetIntRange(op: BinOp, t: Ty, ir1: IntRange, ir2: IntRange, u: Shifter) returns (r: IntRange)
    requires ir1.Ordered() && ir2.Ordered() && ir2.Lo() > -TWO64
    ensures r == BinRange(op, t, ir1, ir2, u)
    ensures InType(ir1, t) && (!IsShift(op) ==> InType(ir2, t)) && BinSafe(op, t, ir1, ir2, u) ==>
              forall v1, v2 {:trigger Fold(op, t, v1, v2)} ::
                ir1.Has(v1) && ir2.Has(v2) && OperandsOf(op, t, v1, v2) ==>
                r.Has(Fold(op, t, v1, v2).value)
  {
    match op {
      case AddOp => r := PlusMinusGetIntRange(op, ir1, ir2, t, u);
      case MinOp => r := PlusMinusGetIntRange(op, ir1, ir2, t, u);
      case MulOp => r := MulGetIntRange(ir1, ir2, t, u);
      case DivOp => r := DivGetIntRange(ir1, ir2, t, u);
      case ModOp => r := ModGetIntRange(ir1, ir2, t, u);
      case ShlOp => r := ShlGetIntRange(ir1, ir2, t, u);
      case ShrOp =>
        var amounts := Amounts(ir2);
        r := ShiftedEnds(ir1, amounts, u);
        r := CastRange(r, t);
      case UshrOp => r := UshrGetIntRange(ir1, ir2, t, u);
      case BitsOp(b) =>
        r := BitwiseGetIntRange(b, ir1, ir2);
        r := CastRange(r, t);
    }
    NodeHolds(op, t, ir1, ir2, u);
  }

  lemma {:induction false} NodeHolds(op: BinOp, t: Ty, ir1: IntRange, ir2: IntRange, u: Shifter)
    requires ir1.Ordered() && ir2.Ordered() && ir2.Lo() > -TWO64
    ensures InType(ir1, t) && (!IsShift(op) ==> InType(ir2, t)) && BinSafe(op, t, ir1, ir2, u) ==>
              forall v1, v2 {:trigger Fold(op, t, v1, v2)} ::
                ir1.Has(v1) && ir2.Has(v2) && OperandsOf(op, t, v1, v2) ==>
                BinRange(op, t, ir1, ir2, u).Has(Fold(op, t, v1, v2).value)
  {
    if InType(ir1, t) && (!IsShift(op) ==> InType(ir2, t)) && BinSafe(op, t, ir1, ir2, u) {
      forall v1, v2 {:trigger Fold(op, t, v1, v2)} | ir1.Has(v1) && ir2.Has(v2) && OperandsOf(op, t, v1, v2)
        ensures BinRange(op, t, ir1, ir2, u).Has(Fold(op, t, v1, v2).value)
      {
        BinSound(op, t, ir1, ir2, v1, v2, u);
      }
    }
  }

  /** The range that is computed, for a given machine, and what it holds. */
  method GetIntRange(e: Expr, u: Shifter) returns (r: IntRange)
    ensures r == RangeOf(e, u)
    ensures forall env: nat -> int :: WellTyped(e) && Safe(e, u) && ValidEnv(e, env) && Eval(e, env).Some? ==>
              r.Has(Eval(e, env).value)
  {
    match e {
      case Opaque(t, _) => r := TypeRange(t);
      case IntegerExp(t, w) => r := CastRange(IntRange(Sx(w, false), Sx(w, false)), t);
      case CastExp(t, e1) =>
        r := GetIntRange(e1, u);
        r := CastRange(r, t);
      case UnaExp(op, e1) =>
        r := GetIntRange(e1, u);
        r := UnaGetIntRange(op, r, TypeOf(e1));
      case BinExp(op, e1, e2) =>
        var ir1 := GetIntRange(e1, u);
        var ir2 := GetIntRange(e2, u);
        r := BinGetIntRange(op, TypeOf(e1), ir1, ir2, u);
      case CommaExp(_, e2) => r := GetIntRange(e2, u);
    }
    forall env: nat -> int | WellTyped(e) && Safe(e, u) && ValidEnv(e, env) && Eval(e, env).Some?
      ensures r.Has(Eval(e, env).value)
    {
      RangeIsSound(e, env, u);
    }
  }

  // ----- expressions whose ranges are always right -----

  /** Nothing in the tree can saturate or drop values: additions are not at ulong,
    multiplications and left shifts are at 32 bits, no right shift shifts a bound by 64, and
    there is no cast to bool or dchar and no unary operator on dchar. */
  predicate Tame(e: Expr, u: Shifter) {
    match e
    case Opaque(_, _) => true
    case IntegerExp(t, _) => t != Tbool && t != Tdchar
    case CastExp(t, e1) => Tame(e1, u) && t != Tbool && t != Tdchar
    case UnaExp(_, e1) => Tame(e1, u) && TypeOf(e1) != Tdchar
    case BinExp(op, e1, e2) =>
      && Tame(e1, u) && Tame(e2, u)
      && (op.AddOp? ==> TypeOf(e1) != Tuns64)
      && (op.MulOp? ==> Width(TypeOf(e1)) == 32)
      && (op.ShlOp? ==> Width(TypeOf(e1)) == 32 && 0 <= RangeOf(e2, u).Lo() && RangeOf(e2, u).Hi() < 32)
      && Defined(op, TypeOf(e1), RangeOf(e1, u), RangeOf(e2, u))
    case CommaExp(e1, e2) => Tame(e1, u) && Tame(e2, u)
  }

  lemma {:induction false} ProductBound(x: int, y: int, m: nat)
    requires Abs(x) <= m && Abs(y) <= m
    ensures Abs(x * y) <= m * m
  {
    MulMonotone(Abs(x), Abs(y), m);
    MulMonotone(m, Abs(x), m);
    SignOfProduct(x, y);
  }

  lemma {:induction false} NarrowProducts(t: Ty, r1: IntRange, r2: IntRange)
    requires Promoted(t) && Width(t) == 32 && InType(r1, t) && InType(r2, t)
    ensures Unsaturated(MulOp, r1, r2)
  {
    var m := 0xFFFF_FFFF;
    ProductBound(r1.Lo(), r2.Lo(), m);
    ProductBound(r1.Lo(), r2.Hi(), m);
    ProductBound(r1.Hi(), r2.Lo(), m);
    ProductBound(r1.Hi(), r2.Hi(), m);
  }

  lemma {:induction false} NarrowShifts(t: Ty, r1: IntRange, r2: IntRange)
    requires Promoted(t) && Width(t) == 32 && InType(r1, t)
    requires r2.Ordered() && 0 <= r2.Lo() && r2.Hi() < 32
    ensures Unsaturated(ShlOp, r1, r2)
  {
    NarrowShift(r1.Lo(), r2.Lo());
    NarrowShift(r1.Lo(), r2.Hi());
    NarrowShift(r1.Hi(), r2.Lo());
    NarrowShift(r1.Hi(), r2.Hi());
  }

  lemma {:induction false} NarrowShift(x: int, n: nat)
    requires Abs(x) <= 0xFFFF_FFFF && n < 32
    ensures Fits(x * Pow2(n))
  {
    assert Pow2(31) == 0x8000_0000 by { HalfPowers(); }
    Pow2Monotone(n, 31);
    ScaledWord(x, Pow2(n));
  }

  lemma {:induction false} ScaledWord(x: int, p: int)
    requires Abs(x) <= 0xFFFF_FFFF && 0 < p <= 0x8000_0000
    ensures Fits(x * p)
  {
    MulMonotone(Abs(x), p, 0x8000_0000);
    SignOfProduct(x, p);
  }

  lemma {:induction false} TameIsSafe(e: Expr, u: Shifter)
    requires WellTyped(e) && Tame(e, u)
    ensures Safe(e, u)
  {
    match e
    case Opaque(_, _) =>
    case IntegerExp(t, _) =>
    case CastExp(_, e1) => TameIsSafe(e1, u);
    case UnaExp(_, e1) => TameIsSafe(e1, u);
    case BinExp(op, e1, e2) =>
      TameIsSafe(e1, u);
      TameIsSafe(e2, u);
      TameNode(op, TypeOf(e1), RangeOf(e1, u), RangeOf(e2, u), u);
    case CommaExp(e1, e2) =>
      TameIsSafe(e1, u);
      TameIsSafe(e2, u);
  }

  lemma {:induction false} TameNode(op: BinOp, t: Ty, r1: IntRange, r2: IntRange, u: Shifter)
    requires InType(r1, t) && r2.Ordered() && r2.Lo() > -TWO64 && (!IsShift(op) ==> InType(r2, t))
    requires Promoted(t) || op.BitsOp?
    requires op.AddOp? ==> t != Tuns64
    requires op.MulOp? ==> Width(t) == 32
    requires op.ShlOp? ==> Width(t) == 32 && 0 <= r2.Lo() && r2.Hi() < 32
    requires Defined(op, t, r1, r2)
    ensures BinSafe(op, t, r1, r2, u)
  {
    match op
    case MulOp => NarrowProducts(t, r1, r2);
    case ShlOp =>
      NarrowShifts(t, r1, r2);
      UnsaturatedShl(t, r1, r2, u);
    case _ =>
  }

  // ----- the guard of an addition is exact -----

  /** An addition's range holds all the sums if and only if it is not at ulong, or the bounds do
    not overflow, or it is the range of ulong. */
  lemma {:induction false} SumSafeIsExact(t: Ty, r1: IntRange, r2: IntRange, u: Shifter)
    requires Promoted(t) && InType(r1, t) && InType(r2, t)
    ensures t != Tuns64 || r1.Hi() + r2.Hi() < TWO64 || r1.Lo() + r2.Lo() == 0 <==>
            forall v1, v2 {:trigger Fold(AddOp, t, v1, v2)} :: r1.Has(v1) && r2.Has(v2) ==>
              BinRange(AddOp, t, r1, r2, u).Has(Fold(AddOp, t, v1, v2).value)
  {
    if BinSafe(AddOp, t, r1, r2, u) {
      forall v1, v2 {:trigger Fold(AddOp, t, v1, v2)} | r1.Has(v1) && r2.Has(v2)
        ensures BinRange(AddOp, t, r1, r2, u).Has(Fold(AddOp, t, v1, v2).value)
      {
        BinSound(AddOp, t, r1, r2, v1, v2, u);
      }
    } else {
      var v1, v2 := EscapingSum(r1, r2, u);
      assert r1.Has(v1) && r2.Has(v2);
    }
  }

  lemma {:induction false} EscapingSum(r1: IntRange, r2: IntRange, u: Shifter) returns (v1: int, v2: int)
    requires InType(r1, Tuns64) && InType(r2, Tuns64)
    requires r1.Hi() + r2.Hi() >= TWO64 && r1.Lo() + r2.Lo() != 0
    ensures r1.Has(v1) && r2.Has(v2)
    ensures !BinRange(AddOp, Tuns64, r1, r2, u).Has(Fold(AddOp, Tuns64, v1, v2).value)
  {
    SumRange(r1, r2, u);
    if r1.Lo() + r2.Lo() >= TWO64 {
      v1, v2 := r1.Lo(), r2.Lo();
    } else {
      v1 := if r1.Hi() < TWO64 - r2.Lo() then r1.Hi() else TWO64 - r2.Lo();
      v2 := TWO64 - v1;
    }
    UlongSum(v1, v2);
  }

  lemma {:induction false} UlongSum(v1: int, v2: int)
    requires 0 <= v1 < TWO64 && 0 <= v2 < TWO64
    ensures Fold(AddOp, Tuns64, v1, v2) == Some(if v1 + v2 < TWO64 then v1 + v2 else v1 + v2 - TWO64)
  {}

  // ----- when a right shift's range is left to the machine -----

  function Always(c: U64): Shifter {
    (x: U64) => c
  }

  /** An amount that may be negative counts as 0 to 64, so that a bound is shifted by 64 unless the
    range has negative and other numbers. */
  lemma {:induction false} NegativeAmounts(t: Ty, r1: IntRange, r2: IntRange)
    requires r1.Ordered() && r2.Ordered() && r2.Lo() < 0
    ensures Defined(ShrOp, t, r1, r2) <==> r1.Lo() < 0 <= r1.Hi()
  {}

  /** The range of a right shift is the same on every machine if and only if no bound is shifted
    by 64. */
  lemma {:induction false} DefinedExactly(op: BinOp, t: Ty, r1: IntRange, r2: IntRange)
    requires (op.ShrOp? || op.UshrOp?) && Promoted(t) && InType(r1, t) && r2.Ordered() && r2.Lo() > -TWO64
    ensures Defined(op, t, r1, r2) <==>
            forall u: Shifter, u': Shifter :: BinRange(op, t, r1, r2, u) == BinRange(op, t, r1, r2, u')
  {
    if Defined(op, t, r1, r2) {
      forall u: Shifter, u': Shifter ensures BinRange(op, t, r1, r2, u) == BinRange(op, t, r1, r2, u') {
        SameEnds(RawRange(op, t, r1, r2, u), RawRange(op, t, r1, r2, u'));
      }
    } else if op.ShrOp? {
      MachinesDiffer(t, r1, ShiftCounts(r2));
      assert BinRange(op, t, r1, r2, Always(0)) != BinRange(op, t, r1, r2, Always(1));
    } else {
      var c, d := UnsignedMachinesDiffer(t, CastUnsignedType(r1, t), ShiftCounts(r2));
      assert BinRange(op, t, r1, r2, Always(c)) != BinRange(op, t, r1, r2, Always(d));
    }
  }

  lemma {:induction false} SameEnds(r: IntRange, r': IntRange)
    ensures r.Lo() == r'.Lo() && r.Hi() == r'.Hi() ==> r == r'
  {
    ValueDetermines(r.imin, r'.imin);
    ValueDetermines(r.imax, r'.imax);
  }

  /** A shifted number stays in its type. */
  lemma {:induction false} ShiftedWithin(t: Ty, x: Sx, n: Sx, u: Shifter)
    requires TypeRange(t).Has(x.Val()) && !n.negative && n.value != 64
    ensures TypeRange(t).Has(ShiftRight(x, n, u).Val())
    ensures ShiftRight(x, n, u).Val() < 0 <==> x.Val() < 0
  {
    FloorTowards(x.Val(), Pow2(n.value));
  }

  lemma {:induction false} WholeWordShifted(x: Sx, n: Sx, c: U64)
    requires n == Sx(64, false) && !x.IsMinimum()
    ensures ShiftRight(x, n, Always(c)).Val() == if x.negative then 0 - c - 1 else c
  {}

  /** What is not left to the machine is the same for all. */
  lemma {:induction false} MachineIndependent(x: Sx, n: Sx, u: Shifter, u': Shifter)
    requires !n.negative && n.value != 64
    ensures ShiftRight(x, n, u) == ShiftRight(x, n, u')
  {
    ValueDetermines(ShiftRight(x, n, u), ShiftRight(x, n, u'));
  }

  /** One end, on two machines. */
  lemma {:induction false} EndsDiffer(t: Ty, x: Sx, n: Sx)
    requires !n.negative && TypeRange(t).Has(x.Val()) && Promoted(t)
    ensures var a, b := ShiftRight(x, n, Always(0)).Val(), ShiftRight(x, n, Always(1)).Val();
            && TypeRange(t).Has(a) && TypeRange(t).Has(b)
            && if n.value == 64 then (if x.negative then a == -1 && b == -2 else a == 0 && b == 1) else a == b
  {
    if n.value == 64 {
      WholeWordShifted(x, n, 0);
      WholeWordShifted(x, n, 1);
    } else {
      ShiftedWithin(t, x, n, Always(0));
      MachineIndependent(x, n, Always(0), Always(1));
    }
  }

  lemma {:induction false} EndsMove(t: Ty, r1: IntRange, s: IntRange)
    requires Promoted(t) && InType(r1, t) && s.Ordered() && s.Lo() >= 0
    ensures
      var p, p' := LowerEnd(r1, s, Always(0)), LowerEnd(r1, s, Always(1));
      var q, q' := UpperEnd(r1, s, Always(0)), UpperEnd(r1, s, Always(1));
      && TypeRange(t).Has(p.Val()) && TypeRange(t).Has(p'.Val())
      && TypeRange(t).Has(q.Val()) && TypeRange(t).Has(q'.Val())
      && (Moved(p, p') || p.Val() == p'.Val()) && (Moved(q, q') || q.Val() == q'.Val())
      && (ShrDefined(r1, s) || Moved(p, p') || Moved(q, q'))
  {
    EndsDiffer(t, r1.imin, if r1.imin.negative then s.imin else s.imax);
    EndsDiffer(t, r1.imax, if r1.imax.negative then s.imax else s.imin);
  }

  lemma {:induction false} MachinesDiffer(t: Ty, r1: IntRange, s: IntRange)
    requires Promoted(t) && InType(r1, t) && s.Ordered() && s.Lo() >= 0 && !ShrDefined(r1, s)
    ensures Cast(ShrRange(r1, s, Always(0)), t) != Cast(ShrRange(r1, s, Always(1)), t)
  {
    EndsMove(t, r1, s);
    var p, p' := LowerEnd(r1, s, Always(0)), LowerEnd(r1, s, Always(1));
    var q, q' := UpperEnd(r1, s, Always(0)), UpperEnd(r1, s, Always(1));
    SortedDiffer(p, q, p', q');
    SortedInType(t, p, q);
    SortedInType(t, p', q');
    CastsDiffer(t, FromNumbers2(p, q), FromNumbers2(p', q'));
  }

  lemma {:induction false} SortedInType(t: Ty, p: Sx, q: Sx)
    requires TypeRange(t).Has(p.Val()) && TypeRange(t).Has(q.Val())
    ensures InType(FromNumbers2(p, q), t)
  {}

  predicate Moved(a: Sx, b: Sx) {
    (a.Val() == 0 && b.Val() == 1) || (a.Val() == -1 && b.Val() == -2)
  }

  lemma {:induction false} SortedDiffer(p: Sx, q: Sx, p': Sx, q': Sx)
    requires Moved(p, p') || Moved(q, q')
    requires Moved(p, p') || p.Val() == p'.Val()
    requires Moved(q, q') || q.Val() == q'.Val()
    ensures var a, b := FromNumbers2(p, q), FromNumbers2(p', q');
            a.Lo() != b.Lo() || a.Hi() != b.Hi()
  {}

  lemma {:induction false} CastsDiffer(t: Ty, a: IntRange, b: IntRange)
    requires InType(a, t) && InType(b, t) && (a.Lo() != b.Lo() || a.Hi() != b.Hi())
    ensures Cast(a, t) != Cast(b, t)
  {
    CastFits(a, t);
    CastFits(b, t);
  }

  /** The cast of a single number is a single number, and of two numbers it is not. */
  lemma {:induction false} CastOfTwo(t: Ty, r: IntRange)
    requires Promoted(t) && r.Ordered() && 0 <= r.Lo() && r.Hi() <= SizeMask(t)
    ensures Cast(r, t).Lo() == Cast(r, t).Hi() <==> r.Lo() == r.Hi()
  {
    var m := SizeMask(t) + 1;
    SmallQuotient(r.Lo(), m);
    SmallQuotient(r.Hi(), m);
    if !IsUnsigned(t) { SignedApart(SizeMask(t), r.Lo(), r.Hi()); }
  }

  lemma {:induction false} SignedApart(mask: U64, a: int, b: int)
    requires 0 <= a <= b <= mask && mask % 2 == 1
    ensures WrapSigned(mask, a) == WrapSigned(mask, b) <==> a == b
  {
    var h, m := mask / 2 + 1, mask + 1;
    if a < h { SmallQuotient(a + h, m); } else { DivUnique(a + h, m, 1, a - h); }
    if b < h { SmallQuotient(b + h, m); } else { DivUnique(b + h, m, 1, b - h); }
  }

  lemma {:induction false} UnsignedMachinesDiffer(t: Ty, q: IntRange, s: IntRange) returns (c: U64, d: U64)
    requires Promoted(t) && q.Ordered() && FromType(t, true).Contains(q)
    requires s.Ordered() && s.Lo() >= 0 && !ShrDefined(q, s)
    ensures Cast(ShrRange(q, s, Always(c)), t) != Cast(ShrRange(q, s, Always(d)), t)
  {
    if s.Lo() != 64 {
      c, d := LowerEndDiffers(t, q, s);
    } else if s.Hi() != 64 {
      c, d := 0, 1;
      UpperEndDiffers(t, q, s);
    } else {
      c, d := 0, 1;
      BothEndsDiffer(t, q, s);
    }
  }

  lemma {:induction false} BothEndsDiffer(t: Ty, q: IntRange, s: IntRange)
    requires Promoted(t) && q.Ordered() && q.Lo() >= 0
    requires s.Ordered() && s.Lo() == s.Hi() == 64
    ensures Cast(ShrRange(q, s, Always(0)), t) != Cast(ShrRange(q, s, Always(1)), t)
  {
    PointShifted(q, s, 0);
    PointShifted(q, s, 1);
    SmallPoint(t, ShrRange(q, s, Always(0)), 0);
    SmallPoint(t, ShrRange(q, s, Always(1)), 1);
  }

  lemma {:induction false} SmallPoint(t: Ty, r: IntRange, c: U64)
    requires Promoted(t) && HasBounds(r, c, c) && c <= 1
    ensures HasBounds(Cast(r, t), c, c)
  {
    CastFits(r, t);
  }

  lemma {:induction false} PointShifted(q: IntRange, s: IntRange, c: U64)
    requires q.Ordered() && q.Lo() >= 0 && s.Ordered() && s.Lo() == s.Hi() == 64
    ensures HasBounds(ShrRange(q, s, Always(c)), c, c)
  {
    WholeWordShifted(q.imin, s.imax, c);
    WholeWordShifted(q.imax, s.imin, c);
  }

  lemma {:induction false} LowerEndDiffers(t: Ty, q: IntRange, s: IntRange) returns (c: U64, d: U64)
    requires Promoted(t) && q.Ordered() && FromType(t, true).Contains(q)
    requires s.Ordered() && 0 <= s.Lo() < 64 && s.Hi() == 64
    ensures Cast(ShrRange(q, s, Always(c)), t) != Cast(ShrRange(q, s, Always(d)), t)
  {
    var hi := ShiftRight(q.imax, s.imin, Always(0)).Val();
    FloorTowards(q.Hi(), Pow2(s.imin.value));
    c, d := hi, if hi > 0 then 0 else 1;
    MachineIndependent(q.imax, s.imin, Always(0), Always(c));
    MachineIndependent(q.imax, s.imin, Always(0), Always(d));
    PairsDiffer(t, ShrRange(q, s, Always(c)), ShrRange(q, s, Always(d)));
  }

  lemma {:induction false} UpperEndDiffers(t: Ty, q: IntRange, s: IntRange)
    requires Promoted(t) && q.Ordered() && FromType(t, true).Contains(q)
    requires s.Ordered() && s.Lo() == 64 && s.Hi() > 64
    ensures Cast(ShrRange(q, s, Always(0)), t) != Cast(ShrRange(q, s, Always(1)), t)
  {
    LongShiftVanishes(q.imin, s.imax, Always(0));
    LongShiftVanishes(q.imin, s.imax, Always(1));
    PairsDiffer(t, ShrRange(q, s, Always(0)), ShrRange(q, s, Always(1)));
  }

  lemma {:induction false} LongShiftVanishes(x: Sx, n: Sx, u: Shifter)
    requires !x.negative && n.Val() > 64
    ensures ShiftRight(x, n, u) == Zero
  {}

  lemma {:induction false} PairsDiffer(t: Ty, a: IntRange, b: IntRange)
    requires Promoted(t) && a.Ordered() && 0 <= a.Lo() && a.Hi() <= SizeMask(t)
    requires b.Ordered() && 0 <= b.Lo() && b.Hi() <= SizeMask(t)
    requires (a.Lo() == a.Hi()) != (b.Lo() == b.Hi())
    ensures Cast(a, t) != Cast(b, t)
  {
    CastOfTwo(t, a);
    CastOfTwo(t, b);
  }

  // ----- when it is right on every machine -----

  /** The range holds everything that folding gives. */
  ghost predicate HoldsFolds(op: BinOp, t: Ty, r1: IntRange, r2: IntRange, r: IntRange) {
    forall v1, v2 {:trigger Fold(op, t, v1, v2)} :: r1.Has(v1) && r2.Has(v2) && Fold(op, t, v1, v2).Some? ==>
      r.Has(Fold(op, t, v1, v2).value)
  }

  /** The operands of a right shift as they are read, and the amounts for which it has results. */
  function ReadAs(op: BinOp, t: Ty, r1: IntRange): (q: IntRange)
    requires r1.Ordered()
    ensures q.Ordered()
  {
    if op.UshrOp? then CastUnsignedType(r1, t) else r1
  }

  function LimitOf(op: BinOp, t: Ty): nat {
    if op.UshrOp? then 64 else ShrLimit(t)
  }

  /** The range is right on a machine: if there are results at all, its ends agree and it holds
    them. */
  ghost predicate RightOn(op: BinOp, t: Ty, r1: IntRange, r2: IntRange, u: Shifter)
    requires r1.Ordered() && r2.Ordered() && r2.Lo() > -TWO64
  {
    var q, s := ReadAs(op, t, r1), ShiftCounts(r2);
    && HoldsFolds(op, t, r1, r2, BinRange(op, t, r1, r2, u))
    && (NoAmount(r2, LimitOf(op, t)) || EndsAgree(t, LowerEnd(q, s, u), UpperEnd(q, s, u)))
  }

  /** The range of a right shift is right on every machine if and only if no bound is shifted by
    64, or there are no results, or there is a single one that lies at the edge of its chunk. */
  lemma {:induction false} RightShiftSafeIsExact(op: BinOp, t: Ty, r1: IntRange, r2: IntRange)
    requires (op.ShrOp? || op.UshrOp?) && Promoted(t) && InType(r1, t) && r2.Ordered() && r2.Lo() > -TWO64
    ensures RightShiftSafe(op, t, r1, r2) <==> forall u: Shifter :: RightOn(op, t, r1, r2, u)
  {
    if RightShiftSafe(op, t, r1, r2) {
      forall u: Shifter ensures RightOn(op, t, r1, r2, u) {
        SafeIsRight(op, t, r1, r2, u);
      }
    } else if !Collapses(ReadAs(op, t, r1), r2, LimitOf(op, t)) {
      var u := EscapingShift(op, t, r1, r2);
      assert !RightOn(op, t, r1, r2, u);
    } else {
      var u := CrossedEnds(t, ReadAs(op, t, r1), r2, LimitOf(op, t));
      assert !RightOn(op, t, r1, r2, u);
    }
  }

  lemma {:induction false} SafeIsRight(op: BinOp, t: Ty, r1: IntRange, r2: IntRange, u: Shifter)
    requires (op.ShrOp? || op.UshrOp?) && Promoted(t) && InType(r1, t) && r2.Ordered() && r2.Lo() > -TWO64
    requires RightShiftSafe(op, t, r1, r2)
    ensures RightOn(op, t, r1, r2, u)
  {
    SafeHoldsFolds(op, t, r1, r2, u);
    SafeEndsAgree(t, ReadAs(op, t, r1), r2, LimitOf(op, t), u);
  }

  lemma {:induction false} SafeEndsAgree(t: Ty, q: IntRange, r2: IntRange, limit: nat, u: Shifter)
    requires Promoted(t) && q.Ordered() && -TWO64 < q.Lo() && r2.Ordered() && limit <= 64
    requires (if q.Lo() < 0 then TypeRange(t) else FromType(t, true)).Contains(q) && ShrSafe(t, q, r2, limit)
    ensures NoAmount(r2, limit) || EndsAgree(t, LowerEnd(q, ShiftCounts(r2), u), UpperEnd(q, ShiftCounts(r2), u))
  {
    if ShrDefined(q, ShiftCounts(r2)) {
      DefinedEnds(t, q, ShiftCounts(r2), u);
    } else if !NoAmount(r2, limit) {
      var n: nat :| n < limit && r2.Has(n);
      EdgeEnds(t, q, r2, n, u);
    }
  }

  lemma {:induction false} DefinedEnds(t: Ty, q: IntRange, s: IntRange, u: Shifter)
    requires q.Ordered() && s.Ordered() && s.Lo() >= 0 && ShrDefined(q, s)
    ensures EndsAgree(t, LowerEnd(q, s, u), UpperEnd(q, s, u))
  {
    ShrBounds(q, s, q.Lo(), s.imin.value);
  }

  lemma {:induction false} EdgeEnds(t: Ty, q: IntRange, r2: IntRange, n: nat, u: Shifter)
    requires Promoted(t) && q.Ordered() && (q.Lo() < 0 ==> !IsUnsigned(t)) && r2.Has(n) && n < 64
    requires AtEdge(t, q, LeastShifted(q, ShiftCounts(r2)))
    ensures EndsAgree(t, LowerEnd(q, ShiftCounts(r2), u), UpperEnd(q, ShiftCounts(r2), u))
  {
    var s := ShiftCounts(r2);
    assert s.Has(n);
    var end := LeastShifted(q, s);
    var a, b := LowerEnd(q, s, u), UpperEnd(q, s, u);
    if q.Lo() < 0 {
      assert a.Val() == end;
      EdgeBelow(t, b.Val());
    } else {
      assert b.Val() == end;
      EdgeAbove(t, a.Val(), end);
    }
  }

  lemma {:induction false} EdgeBelow(t: Ty, b: int)
    requires Promoted(t) && !IsUnsigned(t)
    ensures var m, h := SizeMask(t) + 1, SizeMask(t) / 2 + 1;
            b < -h ==> (-h + h) / m != (b + h) / m
  {}

  lemma {:induction false} EdgeAbove(t: Ty, a: int, end: int)
    requires Promoted(t) && a < TWO64
    requires end == TWO64 - 1 || end == if IsUnsigned(t) then SizeMask(t) else SizeMask(t) / 2
    ensures var m, h := SizeMask(t) + 1, if IsUnsigned(t) then 0 else SizeMask(t) / 2 + 1;
            a > end ==> (a + h) / m != (end + h) / m
  {}

  /** `[8, 9] >> [5, 64]`: the only result is 0, but where the machine leaves the word alone the
    ends are 8 and 0. */
  lemma {:induction false} OneResultIsNotEnough(q: IntRange, r2: IntRange, u: Shifter)
    requires HasBounds(q, 8, 9) && HasBounds(r2, 5, 64) && u(8) == 8
    ensures InType(q, Tint32) && Collapses(q, r2, ShrLimit(Tint32)) && !RightShiftSafe(ShrOp, Tint32, q, r2)
    ensures LowerEnd(q, r2, u).Val() == 8 && UpperEnd(q, r2, u).Val() == 0
    ensures !RightOn(ShrOp, Tint32, q, r2, u)
  {
    EightAndNine(q, r2);
    EightAndNineEnds(q, r2, u);
    EndsSpoil(q, r2, 5, u);
  }

  /** Ends that are out of order make the range wrong on that machine. */
  lemma {:induction false} EndsSpoil(q: IntRange, r2: IntRange, n: nat, u: Shifter)
    requires q.Ordered() && r2.Has(n) && n < 32 && r2.Lo() >= 0
    requires !EndsAgree(Tint32, LowerEnd(q, r2, u), UpperEnd(q, r2, u))
    ensures !RightOn(ShrOp, Tint32, q, r2, u)
  {}

  lemma {:induction false} EightAndNine(q: IntRange, r2: IntRange)
    requires HasBounds(q, 8, 9) && HasBounds(r2, 5, 64)
    ensures Collapses(q, r2, 32) && LeastShifted(q, ShiftCounts(r2)) == 0
  {
    ValueDetermines(r2.imin, Sx(5, false));
    ShiftedAway(5);
    forall n: nat | n < 32 && r2.Has(n) ensures CollapsesAt(q, n, 0) {
      ShiftedAway(n);
    }
  }

  lemma {:induction false} ShiftedAway(n: nat)
    requires n >= 5
    ensures 8 / Pow2(n) == 0 == 9 / Pow2(n)
  {
    var k := 5;
    assert Pow2(k) == 32;
    Pow2Monotone(k, n);
    SmallQuotient(8, Pow2(n));
    SmallQuotient(9, Pow2(n));
  }

  lemma {:induction false} EightAndNineEnds(q: IntRange, r2: IntRange, u: Shifter)
    requires HasBounds(q, 8, 9) && HasBounds(r2, 5, 64) && u(8) == 8
    ensures LowerEnd(q, r2, u).Val() == 8 && UpperEnd(q, r2, u).Val() == 0
  {
    ValueDetermines(q.imin, Sx(8, false));
    ValueDetermines(r2.imin, Sx(5, false));
    ValueDetermines(r2.imax, Sx(64, false));
    ShiftedAway(5);
  }

  /** A machine that puts the ends out of order within one chunk. */
  lemma {:induction false} CrossedEnds(t: Ty, q: IntRange, r2: IntRange, limit: nat) returns (u: Shifter)
    requires Promoted(t) && q.Ordered() && -TWO64 < q.Lo() && r2.Ordered() && limit <= 64
    requires (if q.Lo() < 0 then TypeRange(t) else FromType(t, true)).Contains(q)
    requires !ShrSafe(t, q, r2, limit) && Collapses(q, r2, limit)
    ensures !NoAmount(r2, limit) && !EndsAgree(t, LowerEnd(q, ShiftCounts(r2), u), UpperEnd(q, ShiftCounts(r2), u))
  {
    var s := ShiftCounts(r2);
    var n: nat :| n < limit && r2.Has(n);
    assert s.Has(n);
    var end := LeastShifted(q, s);
    if q.Lo() < 0 {
      CrossedBelow(t, q, s, end);
      u := Always(0 - end);
    } else {
      CrossedAbove(t, q, s, end);
      u := Always(end + 1);
    }
  }

  lemma {:induction false} CrossedBelow(t: Ty, q: IntRange, s: IntRange, end: int)
    requires Promoted(t) && q.Ordered() && q.Lo() < 0 && TypeRange(t).Contains(q)
    requires s.Ordered() && 0 <= s.Lo() < 64 && !ShrDefined(q, s)
    requires end == LeastShifted(q, s) && end != -(SizeMask(t) / 2 + 1)
    ensures 0 <= 0 - end < TWO64 && !EndsAgree(t, LowerEnd(q, s, Always(0 - end)), UpperEnd(q, s, Always(0 - end)))
  {
    FloorTowards(q.Lo(), Pow2(s.imin.value));
    WholeWordShifted(q.imax, s.imax, 0 - end);
    InsideBelow(t, end);
  }

  lemma {:induction false} CrossedAbove(t: Ty, q: IntRange, s: IntRange, end: int)
    requires Promoted(t) && q.Ordered() && q.Lo() >= 0 && FromType(t, true).Contains(q)
    requires s.Ordered() && 0 <= s.Lo() < 64 && !ShrDefined(q, s)
    requires end == LeastShifted(q, s) && !AtEdge(t, q, end)
    ensures 0 <= end + 1 < TWO64
    ensures !EndsAgree(t, LowerEnd(q, s, Always(end + 1)), UpperEnd(q, s, Always(end + 1)))
  {
    FloorTowards(q.Hi(), Pow2(s.imin.value));
    WholeWordShifted(q.imin, s.imax, end + 1);
    InsideAbove(t, end);
    var u := Always(end + 1);
    ShrBounds(q, s, q.Hi(), s.imin.value);
    NotInOrder(t, LowerEnd(q, s, u), UpperEnd(q, s, u), end);
  }

  lemma {:induction false} NotInOrder(t: Ty, a: Sx, b: Sx, end: int)
    requires a.Val() == end + 1 && b.Val() == end
    requires var m, h := SizeMask(t) + 1, if IsUnsigned(t) then 0 else SizeMask(t) / 2 + 1;
             (end + h) / m == (end + 1 + h) / m
    ensures !EndsAgree(t, a, b)
  {}

  lemma {:induction false} InsideBelow(t: Ty, end: int)
    requires Promoted(t) && !IsUnsigned(t) && TypeRange(t).Has(end) && end != -(SizeMask(t) / 2 + 1)
    ensures var m, h := SizeMask(t) + 1, SizeMask(t) / 2 + 1;
            end < 0 ==> (end + h) / m == (end - 1 + h) / m
  {}

  lemma {:induction false} InsideAbove(t: Ty, end: int)
    requires Promoted(t) && 0 <= end <= SizeMask(t)
    requires end != if IsUnsigned(t) then SizeMask(t) else SizeMask(t) / 2
    ensures var m, h := SizeMask(t) + 1, if IsUnsigned(t) then 0 else SizeMask(t) / 2 + 1;
            (end + h) / m == (end + 1 + h) / m
  {}

  lemma {:induction false} SafeHoldsFolds(op: BinOp, t: Ty, r1: IntRange, r2: IntRange, u: Shifter)
    requires (op.ShrOp? || op.UshrOp?) && Promoted(t) && InType(r1, t) && r2.Ordered() && r2.Lo() > -TWO64
    requires RightShiftSafe(op, t, r1, r2)
    ensures HoldsFolds(op, t, r1, r2, BinRange(op, t, r1, r2, u))
  {
    forall v1, v2 {:trigger Fold(op, t, v1, v2)} | r1.Has(v1) && r2.Has(v2) && Fold(op, t, v1, v2).Some?
      ensures BinRange(op, t, r1, r2, u).Has(Fold(op, t, v1, v2).value)
    {
      BinSound(op, t, r1, r2, v1, v2, u);
    }
  }

  /** A machine on which the range is a single number, and an operand that gives another one. */
  lemma {:induction false} EscapingShift(op: BinOp, t: Ty, r1: IntRange, r2: IntRange) returns (u: Shifter)
    requires (op.ShrOp? || op.UshrOp?) && Promoted(t) && InType(r1, t) && r2.Ordered() && r2.Lo() > -TWO64
    requires !RightShiftSafe(op, t, r1, r2) && !Collapses(ReadAs(op, t, r1), r2, LimitOf(op, t))
    ensures !HoldsFolds(op, t, r1, r2, BinRange(op, t, r1, r2, u))
  {
    var q, s := ReadAs(op, t, r1), ShiftCounts(r2);
    var end := LeastShifted(q, s);
    var n: nat :| n < LimitOf(op, t) && r2.Has(n) && !CollapsesAt(q, n, end);
    u := PointShifter(q, r2, n);
    var x := if q.Lo() / Pow2(n) != end then q.Lo() else q.Hi();
    FloorTowards(x, Pow2(n));
    FloorTowards(if q.Lo() >= 0 then q.Hi() else q.Lo(), Pow2(s.imin.value));
    if op.ShrOp? {
      ShrEscapes(t, r1, r2, x, n, end, u);
    } else {
      UshrEscapes(t, r1, r2, x, n, end, u);
    }
  }

  /** The machine that brings both ends of the range together. */
  lemma {:induction false} PointShifter(q: IntRange, r2: IntRange, n: nat) returns (u: Shifter)
    requires q.Ordered() && -TWO64 < q.Lo() && r2.Ordered() && r2.Has(n) && n < 64
    requires !ShrDefined(q, ShiftCounts(r2))
    ensures var s := ShiftCounts(r2);
            HasBounds(ShrRange(q, s, u), LeastShifted(q, s), LeastShifted(q, s))
  {
    var s := ShiftCounts(r2);
    assert s.Has(n);
    var end := LeastShifted(q, s);
    FloorTowards(if q.Lo() >= 0 then q.Hi() else q.Lo(), Pow2(s.imin.value));
    var c: U64 := if end >= 0 then end else 0 - end - 1;
    u := Always(c);
    WholeWordShifted(if end >= 0 then q.imin else q.imax, s.imax, c);
  }

  lemma {:induction false} ShrEscapes(t: Ty, r1: IntRange, r2: IntRange, x: int, n: nat, end: int, u: Shifter)
    requires Promoted(t) && InType(r1, t) && r1.Has(x) && r2.Has(n) && n < ShrLimit(t) && r2.Lo() > -TWO64
    requires HasBounds(ShrRange(r1, ShiftCounts(r2), u), end, end) && TypeRange(t).Has(end)
    requires TypeRange(t).Has(x / Pow2(n)) && x / Pow2(n) != end
    ensures !HoldsFolds(ShrOp, t, r1, r2, BinRange(ShrOp, t, r1, r2, u))
  {
    ShrPoint(t, r1, r2, end, u);
    ShrFold(t, x, n);
    NotHeld(ShrOp, t, r1, r2, BinRange(ShrOp, t, r1, r2, u), x, n);
  }

  lemma {:induction false} ShrPoint(t: Ty, r1: IntRange, r2: IntRange, end: int, u: Shifter)
    requires r1.Ordered() && r2.Ordered() && r2.Lo() > -TWO64
    requires HasBounds(ShrRange(r1, ShiftCounts(r2), u), end, end) && TypeRange(t).Has(end)
    ensures HasBounds(BinRange(ShrOp, t, r1, r2, u), end, end)
  {
    PointFits(t, ShrRange(r1, ShiftCounts(r2), u), end);
  }

  lemma {:induction false} PointFits(t: Ty, r: IntRange, end: int)
    requires HasBounds(r, end, end) && TypeRange(t).Has(end)
    ensures HasBounds(Cast(r, t), end, end)
  {
    CastFits(r, t);
  }

  /** On operands of the type, folding gives what is rounded down. */
  lemma {:induction false} ShrFold(t: Ty, x: int, n: nat)
    requires Promoted(t) && TypeRange(t).Has(x) && n < ShrLimit(t)
    ensures Fold(ShrOp, t, x, n) == Some(x / Pow2(n))
  {
    FoldIsExact(ShrOp, t, x, n);
    FloorTowards(x, Pow2(n));
    WrapOfTypeValue(t, x / Pow2(n));
  }

  lemma {:induction false} NotHeld(op: BinOp, t: Ty, r1: IntRange, r2: IntRange, r: IntRange, v1: int, v2: int)
    requires r1.Has(v1) && r2.Has(v2) && Fold(op, t, v1, v2).Some? && !r.Has(Fold(op, t, v1, v2).value)
    ensures !HoldsFolds(op, t, r1, r2, r)
  {}

  lemma {:induction false} UshrEscapes(t: Ty, r1: IntRange, r2: IntRange, x: int, n: nat, end: int, u: Shifter)
    requires Promoted(t) && InType(r1, t) && r2.Has(n) && n < 64 && r2.Lo() > -TWO64
    requires x == CastUnsignedType(r1, t).Lo() || x == CastUnsignedType(r1, t).Hi()
    requires HasBounds(ShrRange(CastUnsignedType(r1, t), ShiftCounts(r2), u), end, end) && 0 <= end <= SizeMask(t)
    requires 0 <= x / Pow2(n) <= SizeMask(t) && x / Pow2(n) != end
    ensures !HoldsFolds(UshrOp, t, r1, r2, BinRange(UshrOp, t, r1, r2, u))
  {
    var v := OperandFor(t, r1, x);
    UshrFold(t, v, n);
    PointCast(t, ShrRange(CastUnsignedType(r1, t), ShiftCounts(r2), u), end);
    WrapsApart(t, end, x / Pow2(n));
    NotHeld(UshrOp, t, r1, r2, BinRange(UshrOp, t, r1, r2, u), v, n);
  }

  lemma {:induction false} OperandFor(t: Ty, r1: IntRange, x: int) returns (v: int)
    requires Promoted(t) && r1.Ordered()
    requires x == CastUnsignedType(r1, t).Lo() || x == CastUnsignedType(r1, t).Hi()
    ensures r1.Has(v) && WrapUnsigned(SizeMask(t), v) == x
  {
    var lo, hi := UnsignedEnds(r1, SizeMask(t));
    v := if x == CastUnsignedType(r1, t).Lo() then lo else hi;
  }

  lemma {:induction false} UshrFold(t: Ty, v: int, n: nat)
    requires Promoted(t) && TypeRange(t).Has(v) && n < 64
    ensures Fold(UshrOp, t, v, n) == Some(Wrap(t, WrapUnsigned(SizeMask(t), v) / Pow2(n)))
  {
    FoldIsExact(UshrOp, t, v, n);
  }

  lemma {:induction false} PointCast(t: Ty, r: IntRange, end: int)
    requires Promoted(t) && HasBounds(r, end, end)
    ensures HasBounds(Cast(r, t), Wrap(t, end), Wrap(t, end))
  {}

  lemma {:induction false} WrapsApart(t: Ty, a: int, b: int)
    requires Promoted(t) && 0 <= a <= SizeMask(t) && 0 <= b <= SizeMask(t) && a != b
    ensures Wrap(t, a) != Wrap(t, b)
  {
    var m := SizeMask(t) + 1;
    SmallQuotient(a, m);
    SmallQuotient(b, m);
    if a < b { SignedApart(SizeMask(t), a, b); } else { SignedApart(SizeMask(t), b, a); }
  }

  // ----- implicit narrowing -----

  /** The branch of `Expression::implicitConvTo` for integral types. */
  predicate NarrowsTo(e: Expr, t: Ty, u: Shifter) {
    FromType(t, true).Contains(RangeOf(e, u)) || FromType(t, false).Contains(RangeOf(e, u))
  }

  /** What is read back from the low digits of a value, with the signedness of the range
    that held the source range. */
  function ReadBack(e: Expr, t: Ty, v: int, u: Shifter): int {
    if FromType(t, true).Contains(RangeOf(e, u)) then WrapUnsigned(SizeMask(t), v) else WrapSigned(SizeMask(t), v)
  }

  /** An accepted narrowing loses nothing, for every value the expression can take. */
  lemma {:induction false} NarrowingKeepsValue(e: Expr, t: Ty, env: nat -> int, u: Shifter)
    requires WellTyped(e) && Safe(e, u) && ValidEnv(e, env) && Eval(e, env).Some?
    requires NarrowsTo(e, t, u)
    ensures ReadBack(e, t, Eval(e, env).value, u) == Eval(e, env).value
  {
    RangeIsSound(e, env, u);
    ReadBackValue(RangeOf(e, u), t, Eval(e, env).value);
  }

  lemma {:induction false} ReadBackValue(r: IntRange, t: Ty, v: int)
    requires r.Has(v)
    ensures FromType(t, true).Contains(r) ==> WrapUnsigned(SizeMask(t), v) == v
    ensures FromType(t, false).Contains(r) ==> WrapSigned(SizeMask(t), v) == v || FromType(t, true).Contains(r)
  {
    var m, h := SizeMask(t) + 1, SizeMask(t) / 2 + 1;
    if FromType(t, true).Contains(r) {
      SmallQuotient(v, m);
    } else if FromType(t, false).Contains(r) {
      SmallQuotient(v + h, m);
    }
  }

  ghost predicate ReadsAll(t: Ty, r: IntRange, isUnsigned: bool)
    requires r.Ordered()
  {
    forall v | r.Has(v) :: Read(SizeMask(t), v, isUnsigned) == v
  }

  function Read(mask: U64, v: int, isUnsigned: bool): int {
    if isUnsigned then WrapUnsigned(mask, v) else WrapSigned(mask, v)
  }

  /** It is refused only when the low digits do not determine every value of the range, whichever
    way they are read. */
  lemma {:induction false} NarrowsExactly(e: Expr, t: Ty, u: Shifter)
    requires t != Tdchar
    ensures NarrowsTo(e, t, u) <==> ReadsAll(t, RangeOf(e, u), true) || ReadsAll(t, RangeOf(e, u), false)
  {
    ReadsExactly(t, RangeOf(e, u), true);
    ReadsExactly(t, RangeOf(e, u), false);
  }

  lemma {:induction false} ReadsExactly(t: Ty, r: IntRange, isUnsigned: bool)
    requires t != Tdchar && r.Ordered()
    ensures FromType(t, isUnsigned).Contains(r) <==> ReadsAll(t, r, isUnsigned)
  {
    var mask := SizeMask(t);
    assert r.Has(r.Lo()) && r.Has(r.Hi());
    forall v | r.Has(v) ensures ReadsAll(t, r, isUnsigned) || FromType(t, isUnsigned).Contains(r) ==>
                                  Read(mask, v, isUnsigned) == v
    {
      ReadsOne(mask, v, isUnsigned);
    }
    ReadsOne(mask, r.Lo(), isUnsigned);
    ReadsOne(mask, r.Hi(), isUnsigned);
  }

  lemma {:induction false} ReadsOne(mask: U64, v: int, isUnsigned: bool)
    ensures var h := if isUnsigned then 0 else mask / 2 + 1;
            Read(mask, v, isUnsigned) == v <==> 0 <= v + h <= mask
  {
    if isUnsigned {
      if 0 <= v <= mask { SmallQuotient(v, mask + 1); }
    } else {
      if 0 <= v + mask / 2 + 1 <= mask { SmallQuotient(v + mask / 2 + 1, mask + 1); }
    }
  }

  // ----- where it goes wrong -----

  predicate HasBounds(r: IntRange, lo: int, hi: int) {
    r.Lo() == lo && r.Hi() == hi
  }

  /** A literal and a widened ubyte: the operands of the examples below. */
  predicate IsLiteral(e: Expr, t: Ty, w: U64) {
    e == IntegerExp(t, w) && TypeRange(t).Has(w)
  }

  predicate IsWidenedByte(e: Expr) {
    e == CastExp(Tuns64, Opaque(Tuns8, 0))
  }

  lemma {:induction false} LiteralFacts(e: Expr, t: Ty, w: U64, env: nat -> int, u: Shifter)
    requires IsLiteral(e, t, w)
    ensures HasBounds(RangeOf(e, u), w, w) && Eval(e, env) == Some(w)
    ensures WellTyped(e) && ValidEnv(e, env) && TypeOf(e) == t
  {
    CastFits(IntRange(Sx(w, false), Sx(w, false)), t);
    WrapOfTypeValue(t, w);
  }

  lemma {:induction false} WidenedByteFacts(e: Expr, env: nat -> int, u: Shifter)
    requires IsWidenedByte(e) && 0 <= env(0) <= 0xFF
    ensures HasBounds(RangeOf(e, u), 0, 0xFF) && Eval(e, env) == Some(env(0))
    ensures WellTyped(e) && ValidEnv(e, env) && TypeOf(e) == Tuns64
  {
    assert RangeOf(e, u) == Cast(TypeRange(Tuns8), Tuns64);
    CastFits(TypeRange(Tuns8), Tuns64);
    ByteWord(env(0));
  }

  lemma {:induction false} ByteWord(v: int)
    requires 0 <= v <= 0xFF
    ensures Wrap(Tuns64, Word(v)) == v
  {}

  /** `cast(ulong)b + ulong.max`, that is, `b - 1`: an addition that carries out of 64 bits
    has a range that misses the sum, and its negation is accepted as a byte although the
    value does not fit in one. */
  lemma {:induction false} SaturatedSumLosesValues(b: Expr, m: Expr, env: nat -> int, u: Shifter)
    requires IsWidenedByte(b) && IsLiteral(m, Tuns64, TWO64 - 1) && env(0) == 2
    ensures var e := BinExp(AddOp, b, m);
            && WellTyped(e) && ValidEnv(e, env) && Eval(e, env) == Some(1) && !RangeOf(e, u).Has(1)
    ensures var e := UnaExp(NegOp, BinExp(AddOp, b, m));
            && Eval(e, env) == Some(TWO64 - 1)
            && NarrowsTo(e, Tint8, u) && ReadBack(e, Tint8, TWO64 - 1, u) != TWO64 - 1
  {
    WidenedByteFacts(b, env, u);
    LiteralFacts(m, Tuns64, TWO64 - 1, env, u);
    SumRange(RangeOf(b, u), RangeOf(m, u), u);
    UlongSum(2, TWO64 - 1);
    var e := BinExp(AddOp, b, m);
    assert RangeOf(e, u) == BinRange(AddOp, Tuns64, RangeOf(b, u), RangeOf(m, u), u);
    NegatedMaximum(UnaExp(NegOp, e), e, env, u);
  }

  lemma {:induction false} NegatedMaximum(n: Expr, e: Expr, env: nat -> int, u: Shifter)
    requires n == UnaExp(NegOp, e) && TypeOf(e) == Tuns64
    requires HasBounds(RangeOf(e, u), TWO64 - 1, TWO64 - 1) && Eval(e, env) == Some(1)
    ensures Eval(n, env) == Some(TWO64 - 1)
    ensures NarrowsTo(n, Tint8, u) && ReadBack(n, Tint8, TWO64 - 1, u) != TWO64 - 1
  {
    var r := RangeOf(e, u);
    assert RangeOf(n, u) == Cast(UnaRange(NegOp, r), Tuns64);
    NegatedBounds(r, UnaRange(NegOp, r));
    NegatedOne();
    OneFitsByte(RangeOf(n, u));
  }

  lemma {:induction false} NegatedOne()
    ensures FoldUna(NegOp, Tuns64, 1) == TWO64 - 1
  {}

  lemma {:induction false} OneFitsByte(r: IntRange)
    requires HasBounds(r, 1, 1)
    ensures FromType(Tint8, true).Contains(r) && WrapUnsigned(SizeMask(Tint8), TWO64 - 1) == 0xFF
  {}

  lemma {:induction false} NegatedBounds(r: IntRange, u: IntRange)
    requires HasBounds(r, TWO64 - 1, TWO64 - 1) && u.Lo() == 1 - TWO64 && u.Hi() == 1 - TWO64
    ensures HasBounds(Cast(u, Tuns64), 1, 1)
  {
    DivUnique(1 - TWO64, TWO64, -1, 1);
  }

  /** `3L << 63`: a left shift that drops digits has a range that misses the value. */
  lemma {:induction false} SaturatedShiftLosesValues(three: Expr, s: Expr, env: nat -> int, u: Shifter)
    requires IsLiteral(three, Tint64, 3) && IsLiteral(s, Tint32, 63)
    ensures var e := BinExp(ShlOp, three, s);
            && WellTyped(e) && ValidEnv(e, env)
            && Eval(e, env) == Some(-0x8000_0000_0000_0000) && !RangeOf(e, u).Has(-0x8000_0000_0000_0000)
  {
    LiteralFacts(three, Tint64, 3, env, u);
    LiteralFacts(s, Tint32, 63, env, u);
    TopShift(RangeOf(three, u), RangeOf(s, u), u);
    TopShiftValue(63);
    BinNode(ShlOp, three, s, env, u);
  }

  /** `0x1_0000_0000UL * 0x1_0000_0000UL`: the product is 0, the range that of the greatest ulong. */
  lemma {:induction false} SaturatedProductLosesValues(f: Expr, env: nat -> int, u: Shifter)
    requires IsLiteral(f, Tuns64, 0x1_0000_0000)
    ensures var e := BinExp(MulOp, f, f);
            && WellTyped(e) && ValidEnv(e, env) && Eval(e, env) == Some(0) && !RangeOf(e, u).Has(0)
  {
    LiteralFacts(f, Tuns64, 0x1_0000_0000, env, u);
    SquareIsTyped(f, env);
    BinNode(MulOp, f, f, env, u);
    BigProduct(RangeOf(f, u));
    BigProductWraps();
  }

  lemma {:induction false} SquareIsTyped(f: Expr, env: nat -> int)
    requires WellTyped(f) && ValidEnv(f, env) && Promoted(TypeOf(f))
    ensures WellTyped(BinExp(MulOp, f, f)) && ValidEnv(BinExp(MulOp, f, f), env)
  {}

  lemma {:induction false} BigProduct(r: IntRange)
    requires HasBounds(r, 0x1_0000_0000, 0x1_0000_0000)
    ensures HasBounds(Cast(MulRange(r, r), Tuns64), TWO64 - 1, TWO64 - 1)
  {
    CastFits(MulRange(r, r), Tuns64);
  }

  lemma {:induction false} BigProductWraps()
    ensures Fold(MulOp, Tuns64, 0x1_0000_0000, 0x1_0000_0000) == Some(0)
  {}

  /** `8 >> n` for any int `n`, where the machine leaves a word alone that is shifted by its
    width: the range is that of 8, but `8 >> 1` is 4. */
  lemma {:induction false} UndefinedShiftLosesValues(eight: Expr, n: Expr, env: nat -> int, u: Shifter)
    requires IsLiteral(eight, Tint32, 8) && n == Opaque(Tint32, 0) && env(0) == 1 && u(8) == 8
    ensures var e := BinExp(ShrOp, eight, n);
            && WellTyped(e) && ValidEnv(e, env) && Eval(e, env) == Some(4) && !RangeOf(e, u).Has(4)
  {
    LiteralFacts(eight, Tint32, 8, env, u);
    BinNode(ShrOp, eight, n, env, u);
    EightShifted(RangeOf(eight, u), u);
    EightHalved(1);
  }

  lemma {:induction false} EightShifted(r: IntRange, u: Shifter)
    requires HasBounds(r, 8, 8) && u(8) == 8
    ensures HasBounds(BinRange(ShrOp, Tint32, r, TypeRange(Tint32), u), 8, 8)
  {
    var s := ShiftCounts(TypeRange(Tint32));
    assert s.imin == Zero && s.imax == Sx(64, false);
    ValueDetermines(r.imin, Sx(8, false));
    ValueDetermines(r.imax, Sx(8, false));
    assert ShiftRight(r.imin, s.imax, u) == Sx(8, false);
    UnshiftedWord(r.imax, s.imin, u);
    CastFits(ShrRange(r, s, u), Tint32);
  }

  lemma {:induction false} UnshiftedWord(x: Sx, n: Sx, u: Shifter)
    requires n == Zero
    ensures ShiftRight(x, n, u).Val() == x.Val()
  {}

  lemma {:induction false} EightHalved(n: nat)
    requires n == 1
    ensures Fold(ShrOp, Tint32, 8, n) == Some(4)
  {
    assert Pow2(n) == 2;
    ShrFold(Tint32, 8, n);
    assert 8 / Pow2(n) == 4;
  }

  lemma {:induction false} BinRangeNode(op: BinOp, e1: Expr, e2: Expr, u: Shifter)
    ensures RangeOf(BinExp(op, e1, e2), u) == BinRange(op, TypeOf(e1), RangeOf(e1, u), RangeOf(e2, u), u)
  {}

  lemma {:induction false} BinEvalNode(op: BinOp, e1: Expr, e2: Expr, env: nat -> int)
    requires Eval(e1, env).Some? && Eval(e2, env).Some?
    ensures Eval(BinExp(op, e1, e2), env) == Fold(op, TypeOf(e1), Eval(e1, env).value, Eval(e2, env).value)
  {}

  lemma {:induction false} BinNode(op: BinOp, e1: Expr, e2: Expr, env: nat -> int, u: Shifter)
    requires Eval(e1, env).Some? && Eval(e2, env).Some?
    ensures RangeOf(BinExp(op, e1, e2), u) == BinRange(op, TypeOf(e1), RangeOf(e1, u), RangeOf(e2, u), u)
    ensures Eval(BinExp(op, e1, e2), env) == Fold(op, TypeOf(e1), Eval(e1, env).value, Eval(e2, env).value)
  {
    BinRangeNode(op, e1, e2, u);
    BinEvalNode(op, e1, e2, env);
  }

  lemma {:induction false} TopShift(r1: IntRange, r2: IntRange, u: Shifter)
    requires HasBounds(r1, 3, 3) && HasBounds(r2, 63, 63)
    ensures HasBounds(BinRange(ShlOp, Tint64, r1, r2, u), -1, -1)
  {
    assert Pow2(63) == 0x8000_0000_0000_0000 by { HalfPowers(); }
    var raw := ShlRange(r1, ShiftCounts(r2));
    assert HasBounds(raw, TWO64 - 1, TWO64 - 1);
    MaximumIsMinusOne(raw);
  }

  lemma {:induction false} MaximumIsMinusOne(r: IntRange)
    requires HasBounds(r, TWO64 - 1, TWO64 - 1)
    ensures HasBounds(Cast(r, Tint64), -1, -1)
  {}

  lemma {:induction false} TopShiftValue(n: nat)
    requires n == 63
    ensures Fold(ShlOp, Tint64, 3, n) == Some(-0x8000_0000_0000_0000)
  {
    var p: int := Pow2(n);
    assert p == 0x8000_0000_0000_0000 by { HalfPowers(); }
    assert Word(3 * p) == p && Wrap(Tint64, p) == 0 - p;
  }

  /** Casting 2 to bool gives the range [0, 0] but the value 1. */
  lemma {:induction false} CastToBoolLosesValues(e1: Expr, env: nat -> int, u: Shifter)
    requires IsLiteral(e1, Tint32, 2)
    ensures var e := CastExp(Tbool, e1);
            && WellTyped(e) && Eval(e, env) == Some(1) && !RangeOf(e, u).Has(1)
  {
    LiteralFacts(e1, Tint32, 2, env, u);
    EvenBool(RangeOf(e1, u));
  }

  lemma {:induction false} EvenBool(r: IntRange)
    requires HasBounds(r, 2, 2)
    ensures HasBounds(Cast(r, Tbool), 0, 0)
  {
  }
}
