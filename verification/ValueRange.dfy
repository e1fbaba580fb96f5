/** Value-range propagation over expression trees, its soundness with respect to the
  integer constant folder, and the implicit narrowing conversion that relies on it. */
module ValueRange {
  import opened Words
  import opened SignExtended
  import opened IntRanges
  import opened RangeRules

  datatype UnaOp = NegOp | ComOp

  datatype BinOp = AddOp | MinOp | MulOp | DivOp | ModOp | ShlOp | ShrOp | UshrOp | BitsOp(bits: BitOp)

  /** Integral expressions after semantic analysis. `Opaque` is any expression whose range
    is that of its type; a unary or binary expression has the type of its first operand. */
  datatype Expr =
    | Opaque(ty: Ty, id: nat)
    | IntegerExp(ty: Ty, word: U64)
    | CastExp(ty: Ty, e1: Expr)
    | UnaExp(una: UnaOp, e1: Expr)
    | BinExp(op: BinOp, e1: Expr, e2: Expr)
    | CommaExp(e1: Expr, e2: Expr)

  function TypeOf(e: Expr): Ty {
    match e
    case Opaque(t, _) => t
    case IntegerExp(t, _) => t
    case CastExp(t, _) => t
    case UnaExp(_, e1) => TypeOf(e1)
    case BinExp(_, e1, _) => TypeOf(e1)
    case CommaExp(_, e2) => TypeOf(e2)
  }

  predicate IsShift(op: BinOp) {
    op.ShlOp? || op.ShrOp? || op.UshrOp?
  }

  /** The types that integral promotion leaves. */
  predicate Promoted(t: Ty) {
    t.Tint32? || t.Tuns32? || t.Tint64? || t.Tuns64?
  }

  /** What semantic analysis has arranged: both operands of an arithmetic operator have one
    promoted type, a shift has a promoted left operand, bool has no arithmetic. */
  predicate WellTyped(e: Expr) {
    match e
    case Opaque(_, _) => true
    case IntegerExp(_, _) => true
    case CastExp(_, e1) => WellTyped(e1)
    case UnaExp(_, e1) => WellTyped(e1) && TypeOf(e1) != Tbool
    case BinExp(op, e1, e2) =>
      && WellTyped(e1) && WellTyped(e2)
      && (IsShift(op) || TypeOf(e2) == TypeOf(e1))
      && (Promoted(TypeOf(e1)) || (op.BitsOp? && TypeOf(e1) == Tbool))
    case CommaExp(e1, e2) => WellTyped(e1) && WellTyped(e2)
  }

  // ----- the constant folder -----

  /** The binary operators on the words of the operands. `None` stands for an error
    (division by zero, overflowing remainder) or for a shift or a quotient that C++ leaves
    undefined. */
  function Fold(op: BinOp, t: Ty, v1: int, v2: int): Option<int> {
    match op
    case AddOp => Some(Wrap(t, Word(Word(v1) + Word(v2))))
    case MinOp => Some(Wrap(t, Word(Word(v1) - Word(v2))))
    case MulOp => Some(Wrap(t, Word(Word(v1) * Word(v2))))
    case DivOp =>
      if Word(v2) == 0 || (v1 == -0x8000_0000_0000_0000 && v2 == -1) then None
      else if IsUnsigned(t) then Some(Wrap(t, Word(v1) / Word(v2)))
      else Some(Wrap(t, Word(TDiv(v1, v2))))
    case ModOp =>
      if Word(v2) == 0 then None
      else if v2 == -1 && (v1 == -0x8000_0000_0000_0000 || (v1 == -0x8000_0000 && t != Tint64)) then None
      else if IsUnsigned(t) then Some(Wrap(t, Word(v1) % Word(v2)))
      else Some(Wrap(t, Word(TMod(v1, v2))))
    case ShlOp =>
      if 0 <= v2 < 64 then Some(Wrap(t, Word(Word(v1) * Pow2(v2)))) else None
    case ShrOp =>
      if 0 <= v2 < ShrLimit(t) then Some(Wrap(t, Word(Wrap(t, v1) / Pow2(v2)))) else None
    case UshrOp =>
      if 0 <= v2 < 64 then Some(Wrap(t, And(Word(v1), SizeMask(t)) / Pow2(v2))) else None
    case BitsOp(b) => Some(Wrap(t, Bitwise(b, Word(v1), Word(v2))))
  }

  function FoldUna(op: UnaOp, t: Ty, v: int): int {
    match op
    case NegOp => Wrap(t, Word(-v))
    case ComOp => Wrap(t, Not(Word(v)))
  }

  /** The value of an expression for given values of its opaque parts. */
  function Eval(e: Expr, env: nat -> int): Option<int> {
    match e
    case Opaque(_, id) => Some(env(id))
    case IntegerExp(t, w) => Some(Wrap(t, w))
    case CastExp(t, e1) =>
      var v := Eval(e1, env);
      if v.None? then None
      else if t == Tbool then Some(if v.value == 0 then 0 else 1)
      else Some(Wrap(t, Word(v.value)))
    case UnaExp(op, e1) =>
      var v := Eval(e1, env);
      if v.None? then None else Some(FoldUna(op, TypeOf(e1), v.value))
    case BinExp(op, e1, e2) =>
      var v1, v2 := Eval(e1, env), Eval(e2, env);
      if v1.None? || v2.None? then None else Fold(op, TypeOf(e1), v1.value, v2.value)
    case CommaExp(e1, e2) =>
      if Eval(e1, env).None? then None else Eval(e2, env)
  }

  /** Every opaque part has a value of its type (for dchar: a character). */
  predicate ValidEnv(e: Expr, env: nat -> int) {
    match e
    case Opaque(t, id) => TypeRange(t).Has(env(id))
    case IntegerExp(_, _) => true
    case CastExp(_, e1) => ValidEnv(e1, env)
    case UnaExp(_, e1) => ValidEnv(e1, env)
    case BinExp(_, e1, e2) => ValidEnv(e1, env) && ValidEnv(e2, env)
    case CommaExp(e1, e2) => ValidEnv(e1, env) && ValidEnv(e2, env)
  }

  // ----- the ranges -----

  /** The range of a shift amount: an amount that may be negative counts as [0, 64]. */
  function ShiftCounts(r: IntRange): (s: IntRange)
    requires r.Ordered()
    ensures s.Ordered() && s.Lo() >= 0
    ensures forall n :: r.Has(n) && 0 <= n < 64 ==> s.Has(n)
  {
    if r.imin.negative then IntRange(Zero, Sx(64, false)) else r
  }

  predicate InType(r: IntRange, t: Ty) {
    r.Ordered() && TypeRange(t).Contains(r)
  }

  function MulRange(r1: IntRange, r2: IntRange): (r: IntRange)
    requires r1.Ordered() && r2.Ordered()
    ensures r.Ordered()
  {
    FromNumbers4(Times(r1.imin, r2.imin), Times(r1.imin, r2.imax), Times(r1.imax, r2.imin), Times(r1.imax, r2.imax))
  }

  function ShlRange(r1: IntRange, s: IntRange): (r: IntRange)
    requires r1.Ordered() && s.Ordered() && s.Lo() >= 0
    ensures r.Ordered()
  {
    ShlBounds(r1, s, r1.Lo(), s.imin.value);
    IntRange(ShiftLeft(r1.imin, if r1.imin.negative then s.imax else s.imin),
             ShiftLeft(r1.imax, if r1.imax.negative then s.imin else s.imax))
  }

  /** A bound is shifted by no amount that leaves the result to the machine. */
  predicate ShrDefined(r1: IntRange, s: IntRange) {
    && (if r1.imin.negative then s.Lo() else s.Hi()) != 64
    && (if r1.imax.negative then s.Hi() else s.Lo()) != 64
  }

  function LowerEnd(r1: IntRange, s: IntRange, u: Shifter): Sx {
    ShiftRight(r1.imin, if r1.imin.negative then s.imin else s.imax, u)
  }

  function UpperEnd(r1: IntRange, s: IntRange, u: Shifter): Sx {
    ShiftRight(r1.imax, if r1.imax.negative then s.imax else s.imin, u)
  }

  /** Ends that an undefined shift has put out of order are put in order here. */
  function ShrRange(r1: IntRange, s: IntRange, u: Shifter): (r: IntRange)
    requires r1.Ordered() && s.Ordered() && s.Lo() >= 0
    ensures r.Ordered()
    ensures ShrDefined(r1, s) ==>
      && r.Lo() == r1.Lo() / Pow2(if r1.imin.negative then s.Lo() else s.Hi())
      && r.Hi() == r1.Hi() / Pow2(if r1.imax.negative then s.Hi() else s.Lo())
  {
    ShrBounds(r1, s, r1.Lo(), s.imin.value);
    FromNumbers2(LowerEnd(r1, s, u), UpperEnd(r1, s, u))
  }

  /** Ends that are out of order make a range that holds nothing, unless the cast to the type finds
    them in different chunks and makes it the range of the type. */
  predicate EndsAgree(t: Ty, a: Sx, b: Sx) {
    var m, h := SizeMask(t) + 1, if IsUnsigned(t) then 0 else SizeMask(t) / 2 + 1;
    a.Val() <= b.Val() || (a.Val() + h) / m != (b.Val() + h) / m
  }

  /** The range of a binary operator before the cast to the expression's type. */
  function RawRange(op: BinOp, t: Ty, r1: IntRange, r2: IntRange, u: Shifter): (r: IntRange)
    requires r1.Ordered() && r2.Ordered() && !op.DivOp? && !op.ModOp?
    ensures r.Ordered()
  {
    match op
    case AddOp => IntRange(Plus(r1.imin, r2.imin), Plus(r1.imax, r2.imax))
    case MinOp => IntRange(Minus(r1.imin, r2.imax), Minus(r1.imax, r2.imin))
    case MulOp => MulRange(r1, r2)
    case ShlOp => ShlRange(r1, ShiftCounts(r2))
    case ShrOp => ShrRange(r1, ShiftCounts(r2), u)
    case UshrOp => ShrRange(CastUnsignedType(r1, t), ShiftCounts(r2), u)
    case BitsOp(b) => BitRange(b, r1, r2)
  }

  function BinRange(op: BinOp, t: Ty, r1: IntRange, r2: IntRange, u: Shifter): (r: IntRange)
    requires r1.Ordered() && r2.Ordered() && r2.Lo() > -TWO64
    ensures InType(r, t)
  {
    match op
    case DivOp =>
      if r2.ContainsZero() then TypeRange(t)
      else Cast(FromNumbers4(Over(r1.imin, r2.imin), Over(r1.imin, r2.imax),
                             Over(r1.imax, r2.imin), Over(r1.imax, r2.imax)), t)
    case ModOp =>
      if !r2.AbsNeg().imin.negative then TypeRange(t) else Cast(ModRange(r1, r2), t)
    case _ => Cast(RawRange(op, t, r1, r2, u), t)
  }

  function UnaRange(op: UnaOp, r: IntRange): (u: IntRange)
    requires r.Ordered()
    ensures u.Ordered()
  {
    match op
    case NegOp => IntRange(Neg(r.imax), Neg(r.imin))
    case ComOp => IntRange(Sx(Not(r.imax.value), !r.imax.negative), Sx(Not(r.imin.value), !r.imin.negative))
  }

  /** `getIntRange` of every kind of expression. */
  function RangeOf(e: Expr, u: Shifter): (r: IntRange)
    ensures InType(r, TypeOf(e))
  {
    match e
    case Opaque(t, _) => TypeRange(t)
    case IntegerExp(t, w) => Cast(IntRange(Sx(w, false), Sx(w, false)), t)
    case CastExp(t, e1) => Cast(RangeOf(e1, u), t)
    case UnaExp(op, e1) => Cast(UnaRange(op, RangeOf(e1, u)), TypeOf(e1))
    case BinExp(op, e1, e2) => BinRange(op, TypeOf(e1), RangeOf(e1, u), RangeOf(e2, u), u)
    case CommaExp(_, e2) => RangeOf(e2, u)
  }

  // ----- when a rule is sound -----

  /** The exact bounds of a sum, a difference, a product or a left shift fit in 65 bits, so that
    the saturating operators have not moved them. */
  predicate Unsaturated(op: BinOp, r1: IntRange, r2: IntRange)
    requires r1.Ordered() && r2.Ordered()
  {
    match op
    case AddOp => Fits(r1.Lo() + r2.Lo()) && Fits(r1.Hi() + r2.Hi())
    case MinOp => Fits(r1.Lo() - r2.Hi()) && Fits(r1.Hi() - r2.Lo())
    case MulOp => && Fits(r1.Lo() * r2.Lo()) && Fits(r1.Lo() * r2.Hi())
                  && Fits(r1.Hi() * r2.Lo()) && Fits(r1.Hi() * r2.Hi())
    case ShlOp =>
      var s := ShiftCounts(r2);
      && Fits(r1.Lo() * Pow2(if r1.imin.negative then s.Hi() else s.Lo()))
      && Fits(r1.Hi() * Pow2(if r1.imax.negative then s.Lo() else s.Hi()))
    case _ => true
  }

  /** The bounds of a right shift are not left to the machine. */
  predicate Defined(op: BinOp, t: Ty, r1: IntRange, r2: IntRange)
    requires r1.Ordered() && r2.Ordered()
  {
    match op
    case ShrOp => ShrDefined(r1, ShiftCounts(r2))
    case UshrOp => ShrDefined(CastUnsignedType(r1, t), ShiftCounts(r2))
    case _ => true
  }

  /** One amount gives this result for all operands. */
  predicate CollapsesAt(q: IntRange, n: nat, end: int) {
    q.Lo() / Pow2(n) == end == q.Hi() / Pow2(n)
  }

  /** The end of a right shift's range that comes from the least amount. */
  function LeastShifted(q: IntRange, s: IntRange): int {
    (if q.Lo() >= 0 then q.Hi() else q.Lo()) / Pow2(s.imin.value)
  }

  /** Every amount below `limit` gives that end for all operands. */
  predicate Collapses(q: IntRange, r2: IntRange, limit: nat)
    requires r2.Ordered()
  {
    forall n: nat | n < limit && r2.Has(n) :: CollapsesAt(q, n, LeastShifted(q, ShiftCounts(r2)))
  }

  /** The amounts for which `>>` has a result. */
  function ShrLimit(t: Ty): nat {
    if Width(t) == 64 then 64 else 32
  }

  predicate NoAmount(r2: IntRange, limit: nat) {
    forall n: nat | n < limit :: !r2.Has(n)
  }

  /** No machine can put the other end past this one without leaving its chunk, or at all. */
  predicate AtEdge(t: Ty, q: IntRange, end: int) {
    if q.Lo() < 0 then end == -(SizeMask(t) / 2 + 1)
    else end == TWO64 - 1 || end == if IsUnsigned(t) then SizeMask(t) else SizeMask(t) / 2
  }

  /** The guard of a right shift of operands that are read as `q`: no bound is left to the machine,
    or there are no results, or there is a single one, at the edge of its chunk. */
  predicate ShrSafe(t: Ty, q: IntRange, r2: IntRange, limit: nat)
    requires r2.Ordered()
  {
    || ShrDefined(q, ShiftCounts(r2))
    || NoAmount(r2, limit)
    || (Collapses(q, r2, limit) && AtEdge(t, q, LeastShifted(q, ShiftCounts(r2))))
  }

  predicate RightShiftSafe(op: BinOp, t: Ty, r1: IntRange, r2: IntRange)
    requires r1.Ordered() && r2.Ordered()
  {
    match op
    case ShrOp => ShrSafe(t, r1, r2, ShrLimit(t))
    case UshrOp => ShrSafe(t, CastUnsignedType(r1, t), r2, 64)
    case _ => true
  }

  function LowMask(k: nat): (m: U64)
    requires 0 < k <= 64
    ensures HasDigits(m, k)
  {
    assert Pow2(64) == TWO64 by { Pow2Values(); }
    Pow2Monotone(k, 64);
    Pow2(k) - 1
  }

  /** The low digits of a number, with the signedness of a type. */
  function LowDigitsOf(t: Ty, k: nat, v: int): int
    requires 0 < k <= 64
  {
    if IsUnsigned(t) then WrapUnsigned(LowMask(k), v) else WrapSigned(LowMask(k), v)
  }

  function LowDigitsRange(t: Ty, k: nat, r: IntRange): (c: IntRange)
    requires 0 < k <= 64 && r.Ordered()
    ensures c.Ordered()
  {
    if IsUnsigned(t) then CastUnsigned(r, LowMask(k)) else CastSigned(r, LowMask(k))
  }

  /** A shift by `n` keeps the low `Width(t) - n` digits of its operand: the results of the range
    `r1` lie between the ends of its cast to that many digits, moved to the left. */
  predicate ShlHolds(t: Ty, r1: IntRange, n: nat, r: IntRange)
    requires r1.Ordered()
  {
    if n >= Width(t) then r.Has(0)
    else
      var c, p := LowDigitsRange(t, Width(t) - n, r1), Pow2(n);
      r.Lo() <= c.Lo() * p && c.Hi() * p <= r.Hi()
  }

  /** For every amount that has a result. */
  predicate ShlSafe(t: Ty, r1: IntRange, r2: IntRange)
    requires r1.Ordered() && r2.Ordered()
  {
    forall n: nat | n < 64 && r2.Has(n) :: ShlHolds(t, r1, n, Cast(ShlRange(r1, ShiftCounts(r2)), t))
  }

  /** The guard of one binary node. */
  predicate BinSafe(op: BinOp, t: Ty, r1: IntRange, r2: IntRange, u: Shifter)
    requires r1.Ordered() && r2.Ordered() && r2.Lo() > -TWO64
  {
    match op
    case AddOp => t != Tuns64 || r1.Hi() + r2.Hi() < TWO64 || r1.Lo() + r2.Lo() == 0
    case MulOp => Unsaturated(op, r1, r2) || BinRange(op, t, r1, r2, u).Contains(TypeRange(t))
    case ShlOp => ShlSafe(t, r1, r2)
    case _ => RightShiftSafe(op, t, r1, r2)
  }

  /** The guard of a tree. */
  predicate Safe(e: Expr, u: Shifter) {
    match e
    case Opaque(_, _) => true
    case IntegerExp(t, w) => CastSafe(IntRange(Sx(w, false), Sx(w, false)), t)
    case CastExp(t, e1) => Safe(e1, u) && CastSafe(RangeOf(e1, u), t)
    case UnaExp(op, e1) => Safe(e1, u) && CastSafe(UnaRange(op, RangeOf(e1, u)), TypeOf(e1))
    case BinExp(op, e1, e2) => Safe(e1, u) && Safe(e2, u) && BinSafe(op, TypeOf(e1), RangeOf(e1, u), RangeOf(e2, u), u)
    case CommaExp(e1, e2) => Safe(e1, u) && Safe(e2, u)
  }

  // ----- shift rules -----

  lemma {:induction false} ShlBounds(r: IntRange, s: IntRange, x: int, n: nat)
    requires r.Has(x) && s.Ordered() && s.Lo() >= 0 && s.Has(n)
    ensures r.Lo() * Pow2(if r.imin.negative then s.Hi() else s.Lo()) <= x * Pow2(n)
    ensures x * Pow2(n) <= r.Hi() * Pow2(if r.imax.negative then s.Lo() else s.Hi())
  {
    Pow2Monotone(s.Lo(), n);
    Pow2Monotone(n, s.Hi());
    ScaledBetween(r.Lo(), x, r.Hi(), Pow2(s.Lo()), Pow2(n), Pow2(s.Hi()));
  }

  lemma {:induction false} ScaledBetween(a: int, x: int, b: int, p: int, n: int, q: int)
    requires a <= x <= b && 0 < p <= n <= q
    ensures a * (if a < 0 then q else p) <= x * n <= b * (if b < 0 then p else q)
  {
    MulMonotone(n, a, x);
    MulMonotone(n, x, b);
    ScaledEnd(a, p, n, q);
    ScaledEnd(b, p, n, q);
  }

  lemma {:induction false} ScaledEnd(a: int, p: int, n: int, q: int)
    requires 0 < p <= n <= q
    ensures a * (if a < 0 then q else p) <= a * n <= a * (if a < 0 then p else q)
  {
    if a < 0 {
      MulMonotone(-a, p, n);
      MulMonotone(-a, n, q);
    } else {
      MulMonotone(a, p, n);
      MulMonotone(a, n, q);
    }
  }

  lemma {:induction false} FloorMonotone(x: int, x': int, p: nat)
    requires x <= x' && p > 0
    ensures x / p <= x' / p
  {
    var a, b := x / p, x' / p;
    assert x == p * a + x % p && x' == p * b + x' % p;
    if a > b { MulMonotone(p, b + 1, a); MulDistributes(p, b, 1); }
  }

  /** A longer shift moves a number towards 0 or -1. */
  lemma {:induction false} FloorShrinks(x: int, m: nat, n: nat)
    requires m <= n
    ensures if x >= 0 then 0 <= x / Pow2(n) <= x / Pow2(m) else x / Pow2(m) <= x / Pow2(n) <= -1
  {
    Pow2Sum(m, n - m);
    FloorOfFloor(x, Pow2(m), Pow2(n - m));
    FloorSign(x, Pow2(m));
    FloorTowards(x / Pow2(m), Pow2(n - m));
  }

  lemma {:induction false} FloorSign(x: int, p: nat)
    requires p > 0
    ensures if x >= 0 then x / p >= 0 else x / p <= -1
  {
    var a := x / p;
    assert x == p * a + x % p;
    if x >= 0 && a < 0 {
      MulMonotone(p, a, -1);
    } else if x < 0 && a >= 0 {
      MulMonotone(p, 0, a);
    }
  }

  lemma {:induction false} FloorTowards(a: int, q: nat)
    requires q > 0
    ensures if a >= 0 then 0 <= a / q <= a else a <= a / q <= -1
  {
    FloorSign(a, q);
    var b := a / q;
    assert a == q * b + a % q;
    if a >= 0 {
      MulMonotone(b, 1, q);
    } else {
      MulMonotone(-b - 1, 1, q);
    }
  }

  lemma {:induction false} FloorOfFloor(x: int, p: nat, q: nat)
    requires p > 0 && q > 0
    ensures p * q > 0 && x / (p * q) == (x / p) / q
  {
    var a := x / p;
    var b, r, s := a / q, x % p, a % q;
    assert x == p * a + r && a == q * b + s;
    assert p * a == (p * q) * b + p * s by { MulDistributes(p, q * b, s); MulAssociates(p, q, b); }
    MulMonotone(p, s, q - 1);
    MulDistributes(p, q, -1);
    MulMonotone(p, 0, s);
    MulMonotone(p, 1, q);
    DivUnique(x, p * q, b, p * s + r);
  }

  lemma {:induction false} ShrBounds(r: IntRange, s: IntRange, x: int, n: nat)
    requires r.Has(x) && s.Ordered() && s.Lo() >= 0 && s.Has(n)
    ensures r.Lo() / Pow2(if r.imin.negative then s.Lo() else s.Hi()) <= x / Pow2(n)
    ensures x / Pow2(n) <= r.Hi() / Pow2(if r.imax.negative then s.Hi() else s.Lo())
  {
    FloorMonotone(r.Lo(), x, Pow2(n));
    FloorMonotone(x, r.Hi(), Pow2(n));
    FloorShrinks(r.Lo(), s.Lo(), n);
    FloorShrinks(r.Lo(), n, s.Hi());
    FloorShrinks(r.Hi(), s.Lo(), n);
    FloorShrinks(r.Hi(), n, s.Hi());
  }

  // ----- the folder computes the exact result, wrapped to the type -----

  /** The result of an operator on integers, before wrapping. */
  function Exact(op: BinOp, t: Ty, v1: int, v2: int): int
    requires (op.DivOp? || op.ModOp?) ==> v2 != 0
    requires IsShift(op) ==> v2 >= 0
  {
    match op
    case AddOp => v1 + v2
    case MinOp => v1 - v2
    case MulOp => v1 * v2
    case DivOp => TDiv(v1, v2)
    case ModOp => TMod(v1, v2)
    case ShlOp => v1 * Pow2(v2)
    case ShrOp => v1 / Pow2(v2)
    case UshrOp => WrapUnsigned(SizeMask(t), v1) / Pow2(v2)
    case BitsOp(b) => BitValue(b, v1, v2)
  }

  predicate OperandsOf(op: BinOp, t: Ty, v1: int, v2: int) {
    && (Promoted(t) || (op.BitsOp? && t == Tbool))
    && TypeRange(t).Has(v1)
    && (!IsShift(op) ==> TypeRange(t).Has(v2))
    && Fold(op, t, v1, v2).Some?
  }

  lemma {:induction false} FoldIsExact(op: BinOp, t: Ty, v1: int, v2: int)
    requires OperandsOf(op, t, v1, v2)
    ensures Fold(op, t, v1, v2) == Some(Wrap(t, Exact(op, t, v1, v2)))
  {
    match op
    case AddOp => WrapSum(t, v1, v2);
    case MinOp => WrapDifference(t, v1, v2);
    case MulOp => WrapProduct(t, v1, v2);
    case DivOp => FoldDivIsExact(t, v1, v2);
    case ModOp => FoldModIsExact(t, v1, v2);
    case ShlOp => WrapShifted(t, v1, Pow2(v2));
    case ShrOp => FoldShrIsExact(t, v1, v2);
    case UshrOp => UnsignedReading(t, v1);
    case BitsOp(b) => FoldBitsIsExact(b, t, v1, v2);
  }

  lemma {:induction false} FoldBitsIsExact(b: BitOp, t: Ty, v1: int, v2: int)
    requires OperandsOf(BitsOp(b), t, v1, v2)
    ensures Wrap(t, Bitwise(b, Word(v1), Word(v2))) == Wrap(t, BitValue(b, v1, v2))
  {
    if t != Tbool { WrapTurns(t, BitValue(b, v1, v2), 1); }
  }

  lemma {:induction false} WrapSum(t: Ty, v1: int, v2: int)
    requires t != Tbool
    ensures Wrap(t, Word(Word(v1) + Word(v2))) == Wrap(t, v1 + v2)
  {
    WrapWord(t, Word(v1) + Word(v2));
    WrapTurns(t, v1 + v2, -(v1 / TWO64) - v2 / TWO64);
  }

  lemma {:induction false} WrapDifference(t: Ty, v1: int, v2: int)
    requires t != Tbool
    ensures Wrap(t, Word(Word(v1) - Word(v2))) == Wrap(t, v1 - v2)
  {
    WrapWord(t, Word(v1) - Word(v2));
    WrapTurns(t, v1 - v2, v2 / TWO64 - v1 / TWO64);
  }

  lemma {:induction false} WrapProduct(t: Ty, v1: int, v2: int)
    requires t != Tbool
    ensures Wrap(t, Word(Word(v1) * Word(v2))) == Wrap(t, v1 * v2)
  {
    var k1, k2 := v1 / TWO64, v2 / TWO64;
    WrapWord(t, Word(v1) * Word(v2));
    ProductTurns(v1, v2, k1, k2);
    WrapTurns(t, v1 * v2, TWO64 * (k1 * k2) - k1 * v2 - k2 * v1);
  }

  lemma {:induction false} WrapShifted(t: Ty, v: int, p: nat)
    requires t != Tbool
    ensures Wrap(t, Word(Word(v) * p)) == Wrap(t, v * p)
  {
    WrapWord(t, Word(v) * p);
    ShiftTurns(v, p, v / TWO64);
    WrapTurns(t, v * p, -((v / TWO64) * p));
  }

  lemma {:induction false} WordOfUnsigned(t: Ty, v: int)
    requires IsUnsigned(t) && TypeRange(t).Has(v)
    ensures Word(v) == v == Abs(v)
  {}

  lemma {:induction false} FoldDivIsExact(t: Ty, v1: int, v2: int)
    requires OperandsOf(DivOp, t, v1, v2)
    ensures Fold(DivOp, t, v1, v2) == Some(Wrap(t, TDiv(v1, v2)))
  {
    if IsUnsigned(t) {
      WordOfUnsigned(t, v1);
      WordOfUnsigned(t, v2);
      assert Word(v1) / Word(v2) == TDiv(v1, v2);
    } else {
      WrapWord(t, TDiv(v1, v2));
    }
  }

  lemma {:induction false} FoldModIsExact(t: Ty, v1: int, v2: int)
    requires OperandsOf(ModOp, t, v1, v2)
    ensures Fold(ModOp, t, v1, v2) == Some(Wrap(t, TMod(v1, v2)))
  {
    if IsUnsigned(t) {
      WordOfUnsigned(t, v1);
      WordOfUnsigned(t, v2);
      assert Word(v1) % Word(v2) == TMod(v1, v2);
    } else {
      WrapWord(t, TMod(v1, v2));
    }
  }

  lemma {:induction false} WrapOfTypeValue(t: Ty, v: int)
    requires TypeRange(t).Has(v)
    ensures Wrap(t, v) == v
  {
    if !IsUnsigned(t) {
      SmallQuotient(v + SizeMask(t) / 2 + 1, SizeMask(t) + 1);
    } else {
      SmallQuotient(v, SizeMask(t) + 1);
    }
  }

  lemma {:induction false} FoldShrIsExact(t: Ty, v1: int, v2: int)
    requires OperandsOf(ShrOp, t, v1, v2)
    ensures Fold(ShrOp, t, v1, v2) == Some(Wrap(t, v1 / Pow2(v2)))
  {
    WrapOfTypeValue(t, v1);
    WrapWord(t, v1 / Pow2(v2));
  }

  lemma {:induction false} ProductTurns(v1: int, v2: int, k1: int, k2: int)
    ensures (v1 - TWO64 * k1) * (v2 - TWO64 * k2) == v1 * v2 + TWO64 * (TWO64 * (k1 * k2) - k1 * v2 - k2 * v1)
  {
    assert (v1 - TWO64 * k1) * (v2 - TWO64 * k2)
        == v1 * v2 - TWO64 * (k2 * v1) - TWO64 * (k1 * v2) + (TWO64 * TWO64) * (k1 * k2);
  }

  lemma {:induction false} ShiftTurns(v: int, p: int, k: int)
    ensures (v - TWO64 * k) * p == v * p + TWO64 * (-(k * p))
  {
    assert (v - TWO64 * k) * p == v * p - TWO64 * (k * p);
  }

  lemma {:induction false} UnsignedReading(t: Ty, v: int)
    ensures And(Word(v), SizeMask(t)) == WrapUnsigned(SizeMask(t), v)
  {
    SizeMaskDigits(t);
    var m, p := SizeMask(t) + 1, Pow2(64 - Width(t));
    MaskDigits(Word(v), SizeMask(t), Width(t));
    WordTurns(SizeMask(t), Width(t));
    assert TWO64 * (v / TWO64) == m * (p * (v / TWO64)) by { MulAssociates(m, p, v / TWO64); }
    WholeTurns(Word(v), m, p * (v / TWO64));
  }

  // ----- soundness of one node -----

  lemma {:induction false} RawHolds(op: BinOp, t: Ty, r1: IntRange, r2: IntRange, v1: int, v2: int, u: Shifter)
    requires InType(r1, t) && r2.Ordered() && r1.Has(v1) && r2.Has(v2)
    requires !op.DivOp? && !op.ModOp? && (IsShift(op) ==> 0 <= v2 < 64)
    requires Unsaturated(op, r1, r2) && Defined(op, t, r1, r2) && (op.UshrOp? ==> Promoted(t))
    ensures RawRange(op, t, r1, r2, u).Has(Exact(op, t, v1, v2))
  {
    match op
    case AddOp =>
    case MinOp =>
    case MulOp => ProductHolds(r1, r2, v1, v2);
    case ShlOp => ShlRangeHolds(r1, r2, v1, v2);
    case ShrOp => ShrRangeHolds(r1, r2, v1, v2, u);
    case UshrOp => UshrHolds(t, r1, r2, v1, v2, u);
    case BitsOp(b) => assert RawRange(op, t, r1, r2, u).Has(BitValue(b, v1, v2));
  }

  lemma {:induction false} ShlRangeHolds(r1: IntRange, r2: IntRange, v1: int, v2: nat)
    requires r1.Has(v1) && r2.Has(v2) && v2 < 64 && Unsaturated(ShlOp, r1, r2)
    ensures ShlRange(r1, ShiftCounts(r2)).Has(v1 * Pow2(v2))
  {
    ShlBounds(r1, ShiftCounts(r2), v1, v2);
  }

  lemma {:induction false} ShrRangeHolds(r1: IntRange, r2: IntRange, v1: int, v2: nat, u: Shifter)
    requires r1.Has(v1) && r2.Has(v2) && v2 < 64 && ShrDefined(r1, ShiftCounts(r2))
    ensures ShrRange(r1, ShiftCounts(r2), u).Has(v1 / Pow2(v2))
  {
    ShrBounds(r1, ShiftCounts(r2), v1, v2);
  }

  lemma {:induction false} ProductHolds(r1: IntRange, r2: IntRange, v1: int, v2: int)
    requires r1.Has(v1) && r2.Has(v2) && Unsaturated(MulOp, r1, r2)
    ensures MulRange(r1, r2).Has(v1 * v2)
  {
    ProductCorners(r1.Lo(), v1, r1.Hi(), r2.Lo(), v2, r2.Hi());
  }

  lemma {:induction false} UshrHolds(t: Ty, r1: IntRange, r2: IntRange, v1: int, v2: int, u: Shifter)
    requires r2.Ordered() && r1.Has(v1) && r2.Has(v2) && 0 <= v2 < 64 && Promoted(t)
    requires Defined(UshrOp, t, r1, r2)
    ensures RawRange(UshrOp, t, r1, r2, u).Has(WrapUnsigned(SizeMask(t), v1) / Pow2(v2))
  {
    SizeMaskDigits(t);
    CastUnsignedKeeps(r1, SizeMask(t), v1);
    ShrBounds(CastUnsignedType(r1, t), ShiftCounts(r2), WrapUnsigned(SizeMask(t), v1), v2);
  }

  lemma {:induction false} WrapInType(t: Ty, x: int)
    requires t != Tdchar
    ensures TypeRange(t).Has(Wrap(t, x))
  {}

  /** On bool operands the bitwise operators stay inside [0, 1]. */
  lemma {:induction false} BoolBits(b: BitOp, r1: IntRange, r2: IntRange)
    requires InType(r1, Tbool) && InType(r2, Tbool)
    ensures InType(BitRange(b, r1, r2), Tbool)
  {
    var p1, p2 := NonNegPart(r1).value, NonNegPart(r2).value;
    var (u, v) := (p1.imax.value, p2.imax.value);
    var da, db := DiffMask(p1), DiffMask(p2);
    assert Pow2(1) == 2;
    BitwiseWidth(1, p1.imin.value, u);
    BitwiseWidth(1, p2.imin.value, v);
    MaskWidth(1, Xor(p1.imin.value, u));
    MaskWidth(1, Xor(p2.imin.value, v));
    MaskWidth(1, And(u, v));
    BitwiseWidth(1, da, db);
    BitwiseWidth(1, u, v);
    BitwiseWidth(1, Or(u, v), Mask(And(u, v)));
    BitwiseWidth(1, Xor(u, v), Or(da, db));
    assert QuadrantMax(b, p1, p2) < 2;
  }

  /** Whatever the folder computes from operands in the given ranges lies in the range of a
    node that is safe. */
  lemma {:induction false} BinSound(op: BinOp, t: Ty, r1: IntRange, r2: IntRange, v1: int, v2: int, u: Shifter)
    requires InType(r1, t) && r1.Has(v1) && r2.Has(v2)
    requires r2.Ordered() && r2.Lo() > -TWO64 && (!IsShift(op) ==> InType(r2, t))
    requires OperandsOf(op, t, v1, v2) && BinSafe(op, t, r1, r2, u)
    ensures BinRange(op, t, r1, r2, u).Has(Fold(op, t, v1, v2).value)
  {
    FoldIsExact(op, t, v1, v2);
    OperandFacts(op, t, v1, v2);
    WrappedResultInRange(op, t, r1, r2, v1, v2, u);
  }

  lemma {:induction false} OperandFacts(op: BinOp, t: Ty, v1: int, v2: int)
    requires OperandsOf(op, t, v1, v2)
    ensures (op.DivOp? || op.ModOp?) ==> v2 != 0
    ensures IsShift(op) ==> 0 <= v2 < 64
    ensures op.ShrOp? ==> v2 < ShrLimit(t)
  {}

  lemma {:induction false} WrappedResultInRange(op: BinOp, t: Ty, r1: IntRange, r2: IntRange, v1: int, v2: int,
                                                u: Shifter)
    requires InType(r1, t) && r1.Has(v1) && r2.Has(v2)
    requires r2.Ordered() && r2.Lo() > -TWO64 && (!IsShift(op) ==> InType(r2, t))
    requires Promoted(t) || (op.BitsOp? && t == Tbool)
    requires (op.DivOp? || op.ModOp?) ==> v2 != 0
    requires (IsShift(op) ==> 0 <= v2 < 64) && (op.ShrOp? ==> v2 < ShrLimit(t))
    requires BinSafe(op, t, r1, r2, u)
    ensures BinRange(op, t, r1, r2, u).Has(Wrap(t, Exact(op, t, v1, v2)))
  {
    if op.ShlOp? {
      ShlSound(t, r1, r2, v1, v2, u);
    } else if !Unsaturated(op, r1, r2) {
      WholeType(op, t, r1, r2, u);
      WrapInType(t, Exact(op, t, v1, v2));
    } else if op.DivOp? {
      DivSound(t, r1, r2, v1, v2, u);
    } else if op.ModOp? {
      ModSound(t, r1, r2, v1, v2, u);
    } else if !Defined(op, t, r1, r2) {
      CollapsedSound(op, t, r1, r2, v1, v2, u);
    } else {
      RawIsSafe(op, t, r1, r2, u);
      PlainSound(op, t, r1, r2, v1, v2, u);
    }
  }

  /** The range of a ulong addition is that of the clamped bounds. */
  lemma {:induction false} SumRange(r1: IntRange, r2: IntRange, u: Shifter)
    requires InType(r1, Tuns64) && InType(r2, Tuns64)
    ensures var r := BinRange(AddOp, Tuns64, r1, r2, u);
            r.Lo() == Clamp(r1.Lo() + r2.Lo()) && r.Hi() == Clamp(r1.Hi() + r2.Hi())
  {
    CastFits(RawRange(AddOp, Tuns64, r1, r2, u), Tuns64);
  }

  /** A safe node whose bounds are saturated has the range of its type. */
  lemma {:induction false} WholeType(op: BinOp, t: Ty, r1: IntRange, r2: IntRange, u: Shifter)
    requires InType(r1, t) && r2.Ordered() && r2.Lo() > -TWO64 && (!IsShift(op) ==> InType(r2, t))
    requires Promoted(t) && !op.ShlOp? && BinSafe(op, t, r1, r2, u) && !Unsaturated(op, r1, r2)
    ensures BinRange(op, t, r1, r2, u).Contains(TypeRange(t))
  {
    match op
    case AddOp =>
      OnlyUlongOverflows(t, r1, r2);
      WholeSum(r1, r2, u);
    case MinOp => DifferenceFits(t, r1, r2);
    case MulOp => assert BinSafe(op, t, r1, r2, u);
  }

  lemma {:induction false} DifferenceFits(t: Ty, r1: IntRange, r2: IntRange)
    requires Promoted(t) && InType(r1, t) && InType(r2, t)
    ensures Unsaturated(MinOp, r1, r2)
  {}

  lemma {:induction false} WholeSum(r1: IntRange, r2: IntRange, u: Shifter)
    requires InType(r1, Tuns64) && InType(r2, Tuns64)
    requires r1.Hi() + r2.Hi() >= TWO64 && r1.Lo() + r2.Lo() == 0
    ensures BinRange(AddOp, Tuns64, r1, r2, u).Contains(TypeRange(Tuns64))
  {
    SumRange(r1, r2, u);
    WholeWord(BinRange(AddOp, Tuns64, r1, r2, u));
  }

  lemma {:induction false} OnlyUlongOverflows(t: Ty, r1: IntRange, r2: IntRange)
    requires Promoted(t) && InType(r1, t) && InType(r2, t)
    ensures !Unsaturated(AddOp, r1, r2) <==> t == Tuns64 && r1.Hi() + r2.Hi() >= TWO64
  {}

  lemma {:induction false} WholeWord(r: IntRange)
    requires r.Lo() == 0 && r.Hi() == TWO64 - 1
    ensures r.Contains(TypeRange(Tuns64))
  {}

  /** The exact result of a left shift, wrapped, keeps the low digits of the operand. */
  lemma {:induction false} ShlKeepsDigits(t: Ty, v: int, n: nat)
    requires Promoted(t)
    ensures Wrap(t, v * Pow2(n)) == if n >= Width(t) then 0 else LowDigitsOf(t, Width(t) - n, v) * Pow2(n)
  {
    SizeMaskDigits(t);
    if n >= Width(t) {
      NothingKept(SizeMask(t), Width(t), v, n);
    } else {
      DigitsKept(SizeMask(t), Width(t), v, n);
    }
  }

  lemma {:induction false} NothingKept(mask: U64, w: nat, v: int, n: nat)
    requires HasDigits(mask, w) && n >= w
    ensures WrapUnsigned(mask, v * Pow2(n)) == 0 && WrapSigned(mask, v * Pow2(n)) == 0
  {
    Pow2Sum(w, n - w);
    HalfOfMask(mask, w);
    TurnsVanish(v, Pow2(w), Pow2(n - w), mask / 2 + 1);
  }

  lemma {:induction false} TurnsVanish(v: int, m: nat, q: nat, h: nat)
    requires 0 < h < m
    ensures (v * (m * q)) % m == 0 && (v * (m * q) + h) % m == h
  {
    assert v * (m * q) == m * (v * q);
    WholeTurns(0, m, v * q);
    WholeTurns(h, m, v * q);
    SmallQuotient(0, m);
    SmallQuotient(h, m);
  }

  lemma {:induction false} DigitsKept(mask: U64, w: nat, v: int, n: nat)
    requires HasDigits(mask, w) && n < w
    ensures WrapUnsigned(mask, v * Pow2(n)) == WrapUnsigned(LowMask(w - n), v) * Pow2(n)
    ensures WrapSigned(mask, v * Pow2(n)) == WrapSigned(LowMask(w - n), v) * Pow2(n)
  {
    var k := w - n;
    var low, h, m, p := LowMask(k), Pow2(k - 1), Pow2(k), Pow2(n);
    Pow2Sum(k, n);
    Pow2Sum(k - 1, n);
    HalfOfMask(low, k);
    HalfOfMask(mask, w);
    ReadingKept(mask, low, v, h, m, p);
  }

  lemma {:induction false} ReadingKept(mask: U64, low: U64, v: int, h: nat, m: nat, p: nat)
    requires m > 0 && p > 0 && mask + 1 == m * p && low + 1 == m
    requires low / 2 + 1 == h && mask / 2 + 1 == h * p
    ensures WrapUnsigned(mask, v * p) == WrapUnsigned(low, v) * p
    ensures WrapSigned(mask, v * p) == WrapSigned(low, v) * p
  {
    ScaledRemainder(v, m, p);
    ScaledRemainder(v + h, m, p);
    ShiftedReading(v, h, m, p);
  }

  lemma {:induction false} ShiftedReading(v: int, h: int, m: int, p: int)
    requires m > 0 && p > 0 && m * p > 0 && ((v + h) * p) % (m * p) == ((v + h) % m) * p
    ensures (v * p + h * p) % (m * p) - h * p == ((v + h) % m - h) * p
  {
    assert (v + h) * p == v * p + h * p;
    var r := (v + h) % m;
    assert (r - h) * p == r * p - h * p;
  }

  lemma {:induction false} ScaledRemainder(x: int, m: nat, p: nat)
    requires m > 0 && p > 0
    ensures m * p > 0 && (x * p) % (m * p) == (x % m) * p
  {
    var q, r := x / m, x % m;
    assert x == m * q + r;
    MulMonotone(m, 1, p);
    MulMonotone(p, r, m - 1);
    MulMonotone(p, 0, r);
    assert x * p == (m * p) * q + r * p by { MulDistributes(p, m * q, r); MulAssociates(p, m, q); }
    assert p * (m - 1) == m * p - p by { MulDistributes(p, m, -1); }
    DivUnique(x * p, m * p, q, r * p);
  }

  lemma {:induction false} LowDigitsKept(t: Ty, k: nat, r: IntRange, v: int)
    requires 0 < k <= 64 && r.Has(v)
    ensures LowDigitsRange(t, k, r).Has(LowDigitsOf(t, k, v))
  {
    HalfOfMask(LowMask(k), k);
    if IsUnsigned(t) {
      CastUnsignedKeeps(r, LowMask(k), v);
    } else {
      CastSignedKeeps(r, LowMask(k), v);
    }
  }

  lemma {:induction false} ShlHoldsOne(t: Ty, r1: IntRange, n: nat, r: IntRange, v: int)
    requires Promoted(t) && r1.Has(v) && ShlHolds(t, r1, n, r)
    ensures r.Has(Wrap(t, v * Pow2(n)))
  {
    ShlKeepsDigits(t, v, n);
    if n < Width(t) {
      var k := Width(t) - n;
      LowDigitsKept(t, k, r1, v);
      var c := LowDigitsRange(t, k, r1);
      ScaledWithin(c.Lo(), LowDigitsOf(t, k, v), c.Hi(), Pow2(n));
    }
  }

  lemma {:induction false} ScaledWithin(a: int, x: int, b: int, p: int)
    requires a <= x <= b && p > 0
    ensures a * p <= x * p <= b * p
  {
    MulMonotone(p, a, x);
    MulMonotone(p, x, b);
  }

  lemma {:induction false} ShlSound(t: Ty, r1: IntRange, r2: IntRange, v: int, n: int, u: Shifter)
    requires Promoted(t) && r1.Has(v) && r2.Has(n) && 0 <= n < 64 && r2.Lo() > -TWO64
    requires ShlSafe(t, r1, r2)
    ensures BinRange(ShlOp, t, r1, r2, u).Has(Wrap(t, v * Pow2(n)))
  {
    ShlHoldsOne(t, r1, n, BinRange(ShlOp, t, r1, r2, u), v);
  }

  lemma {:induction false} RawIsSafe(op: BinOp, t: Ty, r1: IntRange, r2: IntRange, u: Shifter)
    requires InType(r1, t) && r2.Ordered() && !op.DivOp? && !op.ModOp?
    requires Promoted(t) || (op.BitsOp? && t == Tbool && InType(r2, t))
    ensures CastSafe(RawRange(op, t, r1, r2, u), t)
  {
    if t == Tbool {
      BoolBits(op.bits, r1, r2);
      BoolSafe(BitRange(op.bits, r1, r2));
    } else {
      PromotedSafe(t, RawRange(op, t, r1, r2, u));
    }
  }

  lemma {:induction false} BoolSafe(r: IntRange)
    requires InType(r, Tbool)
    ensures CastSafe(r, Tbool)
  {}

  lemma {:induction false} PromotedSafe(t: Ty, r: IntRange)
    requires Promoted(t) && r.Ordered()
    ensures CastSafe(r, t)
  {}

  lemma {:induction false} PlainSound(op: BinOp, t: Ty, r1: IntRange, r2: IntRange, v1: int, v2: int, u: Shifter)
    requires InType(r1, t) && r2.Ordered() && r2.Lo() > -TWO64 && r1.Has(v1) && r2.Has(v2)
    requires !op.DivOp? && !op.ModOp? && (IsShift(op) ==> 0 <= v2 < 64)
    requires Unsaturated(op, r1, r2) && Defined(op, t, r1, r2) && (op.UshrOp? ==> Promoted(t))
    requires CastSafe(RawRange(op, t, r1, r2, u), t)
    ensures BinRange(op, t, r1, r2, u).Has(Wrap(t, Exact(op, t, v1, v2)))
  {
    RawHolds(op, t, r1, r2, v1, v2, u);
    CastKeeps(RawRange(op, t, r1, r2, u), t, Exact(op, t, v1, v2));
  }

  lemma {:induction false} CollapsedSound(op: BinOp, t: Ty, r1: IntRange, r2: IntRange, v1: int, v2: nat, u: Shifter)
    requires Promoted(t) && InType(r1, t) && r2.Ordered() && r2.Lo() > -TWO64 && r1.Has(v1) && r2.Has(v2)
    requires !Defined(op, t, r1, r2) && RightShiftSafe(op, t, r1, r2)
    requires v2 < if op.ShrOp? then ShrLimit(t) else 64
    ensures BinRange(op, t, r1, r2, u).Has(Wrap(t, Exact(op, t, v1, v2)))
  {
    if op.ShrOp? {
      OneResult(t, r1, r2, v1, v2, u);
    } else {
      CastUnsignedKeeps(r1, SizeMask(t), v1);
      OneResult(t, CastUnsignedType(r1, t), r2, WrapUnsigned(SizeMask(t), v1), v2, u);
    }
  }

  lemma {:induction false} OneResult(t: Ty, q: IntRange, r2: IntRange, v: int, n: nat, u: Shifter)
    requires Promoted(t) && q.Has(v) && r2.Has(n) && n < 64
    requires CollapsesAt(q, n, LeastShifted(q, ShiftCounts(r2)))
    ensures Cast(ShrRange(q, ShiftCounts(r2), u), t).Has(Wrap(t, v / Pow2(n)))
  {
    FloorMonotone(q.Lo(), v, Pow2(n));
    FloorMonotone(v, q.Hi(), Pow2(n));
    HasLeastShifted(q, r2, n, u);
    PromotedSafe(t, ShrRange(q, ShiftCounts(r2), u));
    CastKeeps(ShrRange(q, ShiftCounts(r2), u), t, v / Pow2(n));
  }

  lemma {:induction false} HasLeastShifted(q: IntRange, r2: IntRange, n: nat, u: Shifter)
    requires q.Ordered() && r2.Has(n) && n < 64
    ensures ShrRange(q, ShiftCounts(r2), u).Has(LeastShifted(q, ShiftCounts(r2)))
  {
    assert ShiftCounts(r2).Has(n);
  }

  lemma {:induction false} DivSound(t: Ty, r1: IntRange, r2: IntRange, v1: int, v2: int, u: Shifter)
    requires InType(r1, t) && InType(r2, t) && r1.Has(v1) && r2.Has(v2) && v2 != 0
    requires Promoted(t)
    ensures BinRange(DivOp, t, r1, r2, u).Has(Wrap(t, TDiv(v1, v2)))
  {
    if r2.ContainsZero() {
      WrapInType(t, TDiv(v1, v2));
    } else {
      QuotientCorners(r1.Lo(), v1, r1.Hi(), r2.Lo(), v2, r2.Hi());
      QuotientFits(r1, r2, t);
      var r := FromNumbers4(Over(r1.imin, r2.imin), Over(r1.imin, r2.imax),
                            Over(r1.imax, r2.imin), Over(r1.imax, r2.imax));
      CastKeeps(r, t, TDiv(v1, v2));
    }
  }

  lemma {:induction false} ModSound(t: Ty, r1: IntRange, r2: IntRange, v1: int, v2: int, u: Shifter)
    requires InType(r1, t) && InType(r2, t) && r1.Has(v1) && r2.Has(v2) && v2 != 0
    requires Promoted(t)
    ensures BinRange(ModOp, t, r1, r2, u).Has(Wrap(t, TMod(v1, v2)))
  {
    assert r2.AbsNeg().Has(0 - Abs(v2));
    assert ModRange(r1, r2).Has(TMod(v1, v2));
    CastKeeps(ModRange(r1, r2), t, TMod(v1, v2));
  }

  lemma {:induction false} QuotientFits(r1: IntRange, r2: IntRange, t: Ty)
    requires InType(r1, t) && InType(r2, t) && !r2.ContainsZero()
    ensures Fits(TDiv(r1.Lo(), r2.Lo())) && Fits(TDiv(r1.Lo(), r2.Hi()))
    ensures Fits(TDiv(r1.Hi(), r2.Lo())) && Fits(TDiv(r1.Hi(), r2.Hi()))
  {
    var n := 0xFFFF_FFFF_FFFF_FFFF;
    QuotientWithin(r1.Lo(), r2.Lo(), n);
    QuotientWithin(r1.Lo(), r2.Hi(), n);
    QuotientWithin(r1.Hi(), r2.Lo(), n);
    QuotientWithin(r1.Hi(), r2.Hi(), n);
  }

  lemma {:induction false} QuotientWithin(x: int, y: int, n: nat)
    requires y != 0 && Abs(x) <= n
    ensures Abs(TDiv(x, y)) <= n
  {
    QuotientBounds(Abs(x), Abs(y));
  }

  lemma {:induction false} UnaSound(op: UnaOp, t: Ty, r: IntRange, v: int)
    requires InType(r, t) && r.Has(v) && t != Tbool && CastSafe(UnaRange(op, r), t)
    ensures Cast(UnaRange(op, r), t).Has(FoldUna(op, t, v))
  {
    var x := if op.NegOp? then -v else -v - 1;
    UnaHolds(op, t, r, v, x);
    assert FoldUna(op, t, v) == Wrap(t, x) by {
      if op.NegOp? { WrapWord(t, -v); } else { WrapTurns(t, -v - 1, v / TWO64 + 1); }
    }
    CastKeeps(UnaRange(op, r), t, x);
  }

  lemma {:induction false} UnaHolds(op: UnaOp, t: Ty, r: IntRange, v: int, x: int)
    requires InType(r, t) && r.Has(v) && x == if op.NegOp? then -v else -v - 1
    ensures UnaRange(op, r).Has(x)
  {}

  // ----- soundness of whole trees -----

  /** For every tree and all values of its leaves, what the folder computes lies in the
    range of the tree. */
  lemma {:induction false} RangeIsSound(e: Expr, env: nat -> int, u: Shifter)
    requires WellTyped(e) && Safe(e, u) && ValidEnv(e, env) && Eval(e, env).Some?
    ensures RangeOf(e, u).Has(Eval(e, env).value)
  {
    match e
    case Opaque(_, _) =>
    case IntegerExp(t, w) => CastKeeps(IntRange(Sx(w, false), Sx(w, false)), t, w);
    case CastExp(t, e1) =>
      RangeIsSound(e1, env, u);
      var v := Eval(e1, env).value;
      if t != Tbool { WrapWord(t, v); }
      CastKeeps(RangeOf(e1, u), t, v);
    case UnaExp(op, e1) =>
      RangeIsSound(e1, env, u);
      UnaSound(op, TypeOf(e1), RangeOf(e1, u), Eval(e1, env).value);
    case BinExp(op, e1, e2) =>
      RangeIsSound(e1, env, u);
      RangeIsSound(e2, env, u);
      BinSound(op, TypeOf(e1), RangeOf(e1, u), RangeOf(e2, u), Eval(e1, env).value, Eval(e2, env).value, u);
    case CommaExp(_, e2) =>
      RangeIsSound(e2, env, u);
  }
}
