/** Lowering of casts between basic types: the table that rewrites the 'from' type one
  conversion at a time until it meets the 'to' type. */
module CastChain {
  import Words

  datatype Ty =
    | Tbool | Tint8 | Tuns8 | Tint16 | Tuns16 | Tint32 | Tuns32 | Tint64 | Tuns64
    | Tfloat32 | Tfloat64 | Tfloat80
    | Timaginary32 | Timaginary64 | Timaginary80
    | Tcomplex32 | Tcomplex64 | Tcomplex80

  /** `OPadd` is the addition of a zero of the other kind, in a node of the given type. */
  datatype Op =
    | OPu8_16 | OPs8_16 | OP16_8 | OPs16_32 | OPu16_32 | OP32_16 | OPs32_64 | OPu32_64 | OP64_32
    | OPs16_d | OPs32_d | OPu32_d | OPs64_d | OPu64_d
    | OPd_s16 | OPd_u16 | OPd_s32 | OPd_u32 | OPd_s64 | OPd_u64 | OPld_u64
    | OPf_d | OPd_f | OPd_ld | OPld_d | OPc_r | OPc_i | OPadd(ty: Ty)

  /** What the table says for one pair of types: the constant zero, a repainting of the
    type, a last conversion, or a conversion to another 'from' type after which the table
    is consulted again. */
  datatype Action = Zero | Paint | Last(op: Op) | Again(op: Op, fty: Ty)

  predicate Integral(t: Ty) {
    t.Tbool? || t.Tint8? || t.Tuns8? || t.Tint16? || t.Tuns16? || t.Tint32? || t.Tuns32? || t.Tint64? || t.Tuns64?
  }

  predicate Floating(t: Ty) { t.Tfloat32? || t.Tfloat64? || t.Tfloat80? }

  predicate Imaginary(t: Ty) { t.Timaginary32? || t.Timaginary64? || t.Timaginary80? }

  predicate Complex(t: Ty) { t.Tcomplex32? || t.Tcomplex64? || t.Tcomplex80? }

  function Width(t: Ty): nat {
    match t
    case Tbool | Tint8 | Tuns8 => 8
    case Tint16 | Tuns16 => 16
    case Tint32 | Tuns32 => 32
    case Tint64 | Tuns64 => 64
    case Tfloat32 | Timaginary32 | Tcomplex32 => 32
    case Tfloat64 | Timaginary64 | Tcomplex64 => 64
    case Tfloat80 | Timaginary80 | Tcomplex80 => 80
  }

  predicate Signed(t: Ty) {
    t.Tint8? || t.Tint16? || t.Tint32? || t.Tint64?
  }

  /** The table, for a target other than bool. */
  function Step(fty: Ty, tty: Ty): Action
    requires tty != Tbool
  {
    if fty == tty then Paint
    else if Integral(fty) && Imaginary(tty) then Zero
    else
      match fty
      case Tbool | Tuns8 =>
        if Integral(tty) && Width(tty) == 8 then Paint
        else if Integral(tty) && Width(tty) <= 32 then Last(OPu8_16)
        else Again(OPu8_16, Tuns32)
      case Tint8 =>
        if tty == Tuns8 then Paint
        else if Integral(tty) && Width(tty) <= 32 then Last(OPs8_16)
        else Again(OPs8_16, Tint32)
      case Tint16 =>
        if !Integral(tty) then Again(OPs16_d, Tfloat64)
        else if Width(tty) == 8 then Last(OP16_8)
        else if Width(tty) == 16 then Paint
        else if Width(tty) == 32 then Last(OPs16_32)
        else Again(OPs16_32, Tint32)
      case Tuns16 =>
        if Integral(tty) && Width(tty) == 8 then Last(OP16_8)
        else if Integral(tty) && Width(tty) == 16 then Paint
        else if Integral(tty) && Width(tty) == 32 then Last(OPu16_32)
        else Again(OPu16_32, Tuns32)
      case Tint32 | Tuns32 =>
        if !Integral(tty) then Again(if Signed(fty) then OPs32_d else OPu32_d, Tfloat64)
        else if Width(tty) == 8 then Again(OP32_16, if Signed(fty) then Tint16 else Tuns16)
        else if Width(tty) == 16 then Last(OP32_16)
        else if Width(tty) == 32 then Paint
        else Last(if Signed(fty) then OPs32_64 else OPu32_64)
      case Tint64 | Tuns64 =>
        if !Integral(tty) then Again(if Signed(fty) then OPs64_d else OPu64_d, Tfloat64)
        else if Width(tty) <= 16 then Again(OP64_32, Tint32)
        else if Width(tty) == 32 then Last(OP64_32)
        else Paint
      case Tfloat32 =>
        if Imaginary(tty) then Zero
        else if Complex(tty) then Again(OPadd(Tcomplex32), Tcomplex32)
        else if tty == Tfloat64 then Last(OPf_d)
        else Again(OPf_d, Tfloat64)
      case Tfloat64 =>
        (match tty
         case Tint8 | Tuns8 => Again(OPd_s16, Tint16)
         case Tint16 => Last(OPd_s16)
         case Tuns16 => Last(OPd_u16)
         case Tint32 => Last(OPd_s32)
         case Tuns32 => Last(OPd_u32)
         case Tint64 => Last(OPd_s64)
         case Tuns64 => Last(OPd_u64)
         case Tfloat32 => Last(OPd_f)
         case Tfloat80 => Last(OPd_ld)
         case Timaginary32 | Timaginary64 | Timaginary80 => Zero
         case _ => Again(OPadd(Tcomplex32), Tcomplex64))
      case Tfloat80 =>
        if Imaginary(tty) then Zero
        else if Complex(tty) then Again(OPadd(Tcomplex80), Tcomplex80)
        else if tty == Tuns64 then Last(OPld_u64)
        else if tty == Tfloat64 then Last(OPld_d)
        else Again(OPld_d, Tfloat64)
      case Timaginary32 =>
        if Complex(tty) then Again(OPadd(Tcomplex32), Tcomplex32)
        else if tty == Timaginary64 then Last(OPf_d)
        else if tty == Timaginary80 then Again(OPf_d, Timaginary64)
        else Zero
      case Timaginary64 =>
        if Complex(tty) then Again(OPadd(Tcomplex64), Tcomplex64)
        else if tty == Timaginary32 then Last(OPd_f)
        else if tty == Timaginary80 then Last(OPd_ld)
        else Zero
      case Timaginary80 =>
        if Complex(tty) then Again(OPadd(Tcomplex80), Tcomplex80)
        else if tty == Timaginary32 then Again(OPf_d, Timaginary64)
        else if tty == Timaginary64 then Last(OPld_d)
        else Zero
      case Tcomplex32 =>
        if Imaginary(tty) then Again(OPc_i, Timaginary32)
        else if Complex(tty) then Again(OPf_d, Tcomplex64)
        else Again(OPc_r, Tfloat32)
      case Tcomplex64 =>
        if Imaginary(tty) then Again(OPc_i, Timaginary64)
        else if tty == Tcomplex32 then Last(OPd_f)
        else if tty == Tcomplex80 then Last(OPd_ld)
        else Again(OPc_r, Tfloat64)
      case Tcomplex80 =>
        if Imaginary(tty) then Again(OPc_i, Timaginary80)
        else if Complex(tty) then Again(OPld_d, Tcomplex64)
        else Again(OPc_r, Tfloat80)
  }

  /** How far a 'from' type is from its target: every `Again` comes nearer. */
  function Distance(fty: Ty, tty: Ty): nat {
    if Integral(tty) then
      match fty
      case Tbool | Tint8 | Tuns8 => 4
      case Tint16 | Tuns16 => if Width(tty) <= 16 then 1 else 3
      case Tint32 | Tuns32 => 2
      case Tint64 | Tuns64 => 3
      case Tfloat64 => 4
      case Tfloat32 | Tfloat80 => 5
      case _ => 6
    else if Floating(tty) then
      match fty
      case Tbool | Tint8 | Tuns8 | Tuns16 => 3
      case Tfloat64 => 1
      case Tcomplex32 | Tcomplex64 | Tcomplex80 => 3
      case _ => 2
    else if Imaginary(tty) then
      if fty == Timaginary64 then 1 else if Complex(fty) then 3 else 2
    else
      match fty
      case Tcomplex64 => 1
      case Tcomplex32 | Tcomplex80 => 2
      case Tbool | Tint8 | Tuns8 | Tuns16 => 5
      case Tint16 | Tint32 | Tuns32 | Tint64 | Tuns64 => 4
      case _ => 3
  }

  /** The `goto Lagain` rewriting terminates for every pair of types. */
  lemma {:induction false} AgainComesNearer(fty: Ty, tty: Ty)
    requires tty != Tbool && Step(fty, tty).Again?
    ensures Distance(Step(fty, tty).fty, tty) < Distance(fty, tty)
  {
    if Integral(tty) {
      NearerInteger(fty, tty);
    } else if Floating(tty) {
      NearerFloat(fty, tty);
    } else {
      NearerComplex(fty, tty);
    }
  }

  lemma {:induction false} NearerInteger(fty: Ty, tty: Ty)
    requires Integral(tty) && tty != Tbool && Step(fty, tty).Again?
    ensures Distance(Step(fty, tty).fty, tty) < Distance(fty, tty)
  {
    if Integral(fty) {
      assert Distance(fty, tty) >= 2;
    } else {
      assert Distance(fty, tty) >= 4;
    }
  }

  lemma {:induction false} NearerFloat(fty: Ty, tty: Ty)
    requires Floating(tty) && Step(fty, tty).Again?
    ensures Distance(Step(fty, tty).fty, tty) < Distance(fty, tty)
  {}

  lemma {:induction false} NearerComplex(fty: Ty, tty: Ty)
    requires (Imaginary(tty) || Complex(tty)) && Step(fty, tty).Again?
    ensures Distance(Step(fty, tty).fty, tty) < Distance(fty, tty)
  {}

  // ----- what the conversions do to the bits of integers -----

  /** A conversion whose result has the given number of bits. */
  datatype Conversion = Conversion(op: Op, bits: nat)

  function Modulus(bits: nat): (m: nat)
    ensures m > 0
  {
    match bits
    case 8 => 0x100
    case 16 => 0x1_0000
    case 32 => 0x1_0000_0000
    case _ => 0x1_0000_0000_0000_0000
  }

  /** The low `bits` of a word read with a sign. */
  function SignedReading(bits: nat, word: nat): int {
    var w := word % Modulus(bits);
    if w < Modulus(bits) / 2 then w else w - Modulus(bits)
  }

  predicate OnIntegers(op: Op) {
    op.OPu8_16? || op.OPs8_16? || op.OP16_8? || op.OPs16_32? || op.OPu16_32?
    || op.OP32_16? || op.OPs32_64? || op.OPu32_64? || op.OP64_32?
  }

  function Convert(c: Conversion, word: nat): nat
    requires OnIntegers(c.op)
  {
    match c.op
    case OPu8_16 => word % Modulus(8)
    case OPs8_16 => SignedReading(8, word) % Modulus(c.bits)
    case OP16_8 => word % Modulus(8)
    case OPs16_32 => SignedReading(16, word) % Modulus(c.bits)
    case OPu16_32 => word % Modulus(16)
    case OP32_16 => word % Modulus(16)
    case OPs32_64 => SignedReading(32, word) % Modulus(c.bits)
    case OPu32_64 => word % Modulus(32)
    case _ => word % Modulus(32)
  }

  /** The integer that a word of an integral type stands for. */
  function Denotes(t: Ty, word: nat): int
    requires Integral(t)
  {
    if Signed(t) then SignedReading(Width(t), word) else word % Modulus(Width(t))
  }

  predicate WordOf(t: Ty, word: nat)
    requires Integral(t)
  {
    word < Modulus(Width(t)) && (t == Tbool ==> word <= 1)
  }

  /** The action keeps the value of the word modulo the size of the target. */
  ghost predicate KeepsValue(a: Action, fty: Ty, tty: Ty, word: nat)
    requires Integral(fty) && Integral(tty)
  {
    var m := Modulus(Width(tty));
    match a
    case Zero => false
    case Paint => word == Denotes(fty, word) % m
    case Last(op) =>
      OnIntegers(op) && Convert(Conversion(op, Width(tty)), word) == Denotes(fty, word) % m
    case Again(op, mid) =>
      && OnIntegers(op) && Integral(mid)
      && var w := Convert(Conversion(op, Width(mid)), word);
         WordOf(mid, w) && Denotes(mid, w) % m == Denotes(fty, word) % m
  }

  /** Reading fewer digits of a number that has been cut to more digits. */
  lemma {:induction false} Truncates(x: int, big: nat, m: nat, k: nat)
    requires m > 0 && big == m * k && big > 0
    ensures (x % big) % m == x % m
  {
    var q, r := x / big, x % big;
    assert x == big * q + r;
    assert big * q == m * (k * q) by { Words.MulAssociates(m, k, q); }
    var p, s := r / m, r % m;
    assert r == m * p + s;
    Words.MulDistributes(m, k * q, p);
    Words.DivUnique(x, m, k * q + p, s);
  }

  lemma {:induction false} Small(x: int, m: nat)
    requires 0 <= x < m
    ensures x % m == x
  {
    Words.DivUnique(x, m, 0, x);
  }

  /** The signed reading differs from the word by a multiple of every smaller modulus. */
  lemma {:induction false} SignedTruncates(bits: nat, word: nat, m: nat, k: nat)
    requires m > 0 && Modulus(bits) == m * k
    ensures SignedReading(bits, word) % m == word % m
  {
    var big := Modulus(bits);
    var w := word % big;
    Truncates(word, big, m, k);
    if w >= big / 2 {
      assert w - big == w + m * (0 - k);
      var p, s := w / m, w % m;
      assert w == m * p + s;
      Words.MulDistributes(m, p, 0 - k);
      Words.DivUnique(w - big, m, p - k, s);
    }
  }

  /** Sign extension to more digits keeps the signed reading. */
  lemma {:induction false} SignExtends(bits: nat, word: nat, wide: nat)
    requires Modulus(bits) <= Modulus(wide)
    ensures SignedReading(wide, SignedReading(bits, word) % Modulus(wide)) == SignedReading(bits, word)
  {
    var v, big := SignedReading(bits, word), Modulus(wide);
    assert big % 2 == 0 && Modulus(bits) % 2 == 0;
    if v >= 0 {
      Small(v, big);
    } else {
      Words.DivUnique(v, big, -1, v + big);
    }
    Small(v % big, big);
  }

  /** Every line of the table for integral types keeps the value. */
  lemma {:induction false} StepKeepsValue(fty: Ty, tty: Ty, word: nat)
    requires Integral(fty) && Integral(tty) && tty != Tbool && WordOf(fty, word)
    ensures KeepsValue(Step(fty, tty), fty, tty, word)
  {
    if Width(fty) == Width(tty) {
      KeepsPaint(fty, tty, word);
    } else if Width(fty) < Width(tty) {
      KeepsWider(fty, tty, word);
    } else {
      KeepsNarrower(fty, tty, word);
    }
  }

  lemma {:induction false} KeepsPaint(fty: Ty, tty: Ty, word: nat)
    requires Integral(fty) && Integral(tty) && tty != Tbool && WordOf(fty, word) && Width(fty) == Width(tty)
    ensures KeepsValue(Step(fty, tty), fty, tty, word)
  {
    var m := Modulus(Width(fty));
    Small(word, m);
    SignedTruncates(Width(fty), word, m, 1);
  }

  lemma {:induction false} KeepsWider(fty: Ty, tty: Ty, word: nat)
    requires Integral(fty) && Integral(tty) && WordOf(fty, word) && Width(fty) < Width(tty)
    ensures KeepsValue(Step(fty, tty), fty, tty, word)
  {
    if Signed(fty) {
      KeepsWiderSigned(fty, tty, word);
    } else {
      KeepsWiderUnsigned(fty, tty, word);
    }
  }

  lemma {:induction false} KeepsWiderSigned(fty: Ty, tty: Ty, word: nat)
    requires Integral(fty) && Integral(tty) && WordOf(fty, word) && Width(fty) < Width(tty) && Signed(fty)
    ensures KeepsValue(Step(fty, tty), fty, tty, word)
  {
    Small(word, Modulus(Width(fty)));
    if Step(fty, tty).Again? {
      var v := SignedReading(Width(fty), word);
      SignExtends(Width(fty), word, 32);
      Small(v % Modulus(32), Modulus(32));
    }
  }

  lemma {:induction false} KeepsWiderUnsigned(fty: Ty, tty: Ty, word: nat)
    requires Integral(fty) && Integral(tty) && WordOf(fty, word) && Width(fty) < Width(tty) && !Signed(fty)
    ensures KeepsValue(Step(fty, tty), fty, tty, word)
  {
    Small(word, Modulus(Width(fty)));
    Small(word, Modulus(Width(tty)));
    if Step(fty, tty).Again? { Small(word, Modulus(32)); }
  }

  lemma {:induction false} KeepsNarrower(fty: Ty, tty: Ty, word: nat)
    requires Integral(fty) && Integral(tty) && tty != Tbool && WordOf(fty, word) && Width(fty) > Width(tty)
    ensures KeepsValue(Step(fty, tty), fty, tty, word)
  {
    var f, m := Modulus(Width(fty)), Modulus(Width(tty));
    var k := f / m;
    assert f == m * k;
    SignedTruncates(Width(fty), word, m, k);
    Truncates(word, f, m, k);
    match Step(fty, tty)
    case Last(op) =>
    case Again(op, mid) => NarrowsTwice(mid, Width(tty), word);
  }

  /** Cutting to an intermediate type first makes no difference. */
  lemma {:induction false} NarrowsTwice(mid: Ty, bits: nat, word: nat)
    requires Integral(mid) && (Width(mid) == 16 || Width(mid) == 32) && mid != Tbool
    requires (bits == 8 || bits == 16) && bits < Width(mid)
    ensures var w := word % Modulus(Width(mid));
            WordOf(mid, w) && Denotes(mid, w) % Modulus(bits) == word % Modulus(bits)
  {
    var f, m := Modulus(Width(mid)), Modulus(bits);
    var k := f / m;
    assert f == m * k;
    Truncates(word, f, m, k);
    SignedTruncates(Width(mid), word % f, m, k);
    Truncates(word % f, f, m, k);
  }

  // ----- what they do to numbers -----

  /** An integer's word, or a number of any other type. Their precision is not modelled. */
  datatype Value = Bits(word: nat) | Num(re: real, im: real)

  datatype Option<T> = None | Some(value: T)

  predicate IsValue(t: Ty, v: Value) {
    if Integral(t) then v.Bits? && WordOf(t, v.word)
    else v.Num? && (Floating(t) ==> v.im == 0.0) && (Imaginary(t) ==> v.re == 0.0)
  }

  /** Towards zero. */
  function Truncated(x: real): int {
    if x < 0.0 then 0 - (0.0 - x).Floor else x.Floor
  }

  /** The word of an integer, if it has one. */
  function ToWord(n: int, bits: nat, signed: bool): Option<Value> {
    var m := Modulus(bits);
    if signed then (if -(m / 2) <= n < m / 2 then Some(Bits(n % m)) else None)
    else if 0 <= n < m then Some(Bits(n)) else None
  }

  /** Conversions between numbers of one kind. */
  predicate OfPrecision(op: Op) {
    op.OPf_d? || op.OPd_f? || op.OPd_ld? || op.OPld_d?
  }

  /** One conversion; a number without a word is not converted. */
  function Apply(c: Conversion, v: Value): Option<Value> {
    if v.Bits? then
      if OnIntegers(c.op) then Some(Bits(Convert(c, v.word)))
      else
        match c.op
        case OPs16_d => Some(Num(SignedReading(16, v.word) as real, 0.0))
        case OPs32_d => Some(Num(SignedReading(32, v.word) as real, 0.0))
        case OPu32_d => Some(Num((v.word % Modulus(32)) as real, 0.0))
        case OPs64_d => Some(Num(SignedReading(64, v.word) as real, 0.0))
        case OPu64_d => Some(Num((v.word % Modulus(64)) as real, 0.0))
        case _ => None
    else if OfPrecision(c.op) then Some(v)
    else
      match c.op
      case OPd_s16 => ToWord(Truncated(v.re), 16, true)
      case OPd_u16 => ToWord(Truncated(v.re), 16, false)
      case OPd_s32 => ToWord(Truncated(v.re), 32, true)
      case OPd_u32 => ToWord(Truncated(v.re), 32, false)
      case OPd_s64 => ToWord(Truncated(v.re), 64, true)
      case OPd_u64 | OPld_u64 => ToWord(Truncated(v.re), 64, false)
      case OPadd(_) => Some(v)
      case OPc_r => Some(Num(v.re, 0.0))
      case OPc_i => Some(Num(0.0, v.im))
      case _ => None
  }

  function Run(chain: seq<Conversion>, v: Value): Option<Value> {
    if chain == [] then Some(v)
    else
      var w := Run(chain[..|chain| - 1], v);
      if w.None? then None else Apply(chain[|chain| - 1], w.value)
  }

  function RealPart(t: Ty, v: Value): real
    requires IsValue(t, v)
  {
    if Integral(t) then Denotes(t, v.word) as real else v.re
  }

  function ImaginaryPart(t: Ty, v: Value): real
    requires IsValue(t, v)
  {
    if Integral(t) then 0.0 else v.im
  }

  /** What a cast gives: the parts that the target has, and for integers the integer part, which
    the target must hold unless the value was an integer before. */
  function CastOf(fty: Ty, tty: Ty, v: Value): Option<Value>
    requires IsValue(fty, v)
  {
    if Integral(tty) then
      if Integral(fty) then Some(Bits(Denotes(fty, v.word) % Modulus(Width(tty))))
      else ToWord(Truncated(v.re), Width(tty), Signed(tty))
    else if Floating(tty) then Some(Num(RealPart(fty, v), 0.0))
    else if Imaginary(tty) then Some(Num(0.0, ImaginaryPart(fty, v)))
    else Some(Num(RealPart(fty, v), ImaginaryPart(fty, v)))
  }

  function ZeroOf(t: Ty): Value {
    if Integral(t) then Bits(0) else Num(0.0, 0.0)
  }

  /** One line of the table does what remains of the cast, or a part of it. */
  predicate KeepsNumber(a: Action, fty: Ty, tty: Ty, v: Value)
    requires IsValue(fty, v)
  {
    match a
    case Zero => CastOf(fty, tty, v) == Some(ZeroOf(tty))
    case Paint => CastOf(fty, tty, v) == Some(v)
    case Last(op) => CastOf(fty, tty, v) == Apply(Conversion(op, Width(tty)), v)
    case Again(op, mid) =>
      var w := Apply(Conversion(op, Width(mid)), v);
      w.Some? && IsValue(mid, w.value) && CastOf(mid, tty, w.value) == CastOf(fty, tty, v)
  }

  predicate Castable(fty: Ty, tty: Ty, v: Value) {
    IsValue(fty, v) && CastOf(fty, tty, v).Some?
  }

  /** Every line of the table, for every value that the cast is defined for. */
  lemma {:induction false} StepKeepsNumber(fty: Ty, tty: Ty, v: Value)
    requires tty != Tbool && Castable(fty, tty, v)
    ensures KeepsNumber(Step(fty, tty), fty, tty, v)
  {
    if Integral(fty) {
      if Integral(tty) { BetweenIntegers(fty, tty, v); } else { FromInteger(fty, tty, v); }
    } else if Integral(tty) {
      if Floating(fty) { FloatToInteger(fty, tty, v); } else { PartToInteger(fty, tty, v); }
    } else {
      if Floating(fty) { FromFloat(fty, tty, v); } else { FromParts(fty, tty, v); }
    }
  }

  lemma {:induction false} BetweenIntegers(fty: Ty, tty: Ty, v: Value)
    requires Integral(fty) && Integral(tty) && tty != Tbool && IsValue(fty, v)
    ensures KeepsNumber(Step(fty, tty), fty, tty, v)
  {
    StepKeepsValue(fty, tty, v.word);
    IntegerActionKeeps(Step(fty, tty), fty, tty, v);
  }

  lemma {:induction false} IntegerActionKeeps(a: Action, fty: Ty, tty: Ty, v: Value)
    requires Integral(fty) && Integral(tty) && tty != Tbool && IsValue(fty, v) && KeepsValue(a, fty, tty, v.word)
    ensures KeepsNumber(a, fty, tty, v)
  {}

  lemma {:induction false} FromInteger(fty: Ty, tty: Ty, v: Value)
    requires Integral(fty) && !Integral(tty) && IsValue(fty, v)
    ensures KeepsNumber(Step(fty, tty), fty, tty, v)
  {
    Small(v.word, Modulus(Width(fty)));
    if Imaginary(tty) {
    } else if Width(fty) >= 32 {
      FromWide(fty, tty, v);
    } else {
      FromNarrow(fty, tty, v);
    }
  }

  lemma {:induction false} FromWide(fty: Ty, tty: Ty, v: Value)
    requires Integral(fty) && Width(fty) >= 32 && !Integral(tty) && !Imaginary(tty) && IsValue(fty, v)
    ensures KeepsNumber(Step(fty, tty), fty, tty, v)
  {}

  lemma {:induction false} FromNarrow(fty: Ty, tty: Ty, v: Value)
    requires Integral(fty) && Width(fty) < 32 && !Integral(tty) && !Imaginary(tty) && IsValue(fty, v)
    ensures KeepsNumber(Step(fty, tty), fty, tty, v)
  {
    if fty == Tint8 { FromByte(tty, v); } else { FromShort(fty, tty, v); }
  }

  lemma {:induction false} FromByte(tty: Ty, v: Value)
    requires !Integral(tty) && !Imaginary(tty) && IsValue(Tint8, v)
    ensures KeepsNumber(Step(Tint8, tty), Tint8, tty, v)
  {
    Small(v.word, Modulus(8));
    SignExtends(8, v.word, 32);
    Small(SignedReading(8, v.word) % Modulus(32), Modulus(32));
  }

  lemma {:induction false} FromShort(fty: Ty, tty: Ty, v: Value)
    requires Integral(fty) && Width(fty) < 32 && fty != Tint8 && !Integral(tty) && !Imaginary(tty) && IsValue(fty, v)
    ensures KeepsNumber(Step(fty, tty), fty, tty, v)
  {
    Small(v.word, Modulus(Width(fty)));
    Small(v.word, Modulus(32));
  }

  lemma {:induction false} FloatToInteger(fty: Ty, tty: Ty, v: Value)
    requires Floating(fty) && Integral(tty) && tty != Tbool && Castable(fty, tty, v)
    ensures KeepsNumber(Step(fty, tty), fty, tty, v)
  {
    if fty == Tfloat64 { DoubleToInteger(tty, v); } else { ThroughDouble(fty, tty); }
  }

  /** Conversions of other floats to integers, and to each other, go through double. */
  lemma {:induction false} ThroughDouble(fty: Ty, tty: Ty)
    requires (fty == Tfloat32 || fty == Tfloat80) && tty != Tbool && (Integral(tty) || Floating(tty)) && fty != tty
    ensures
      var op := if fty == Tfloat32 then OPf_d else OPld_d;
      Step(fty, tty) == if tty == Tfloat64 then Last(op)
                        else if fty == Tfloat80 && tty == Tuns64 then Last(OPld_u64) else Again(op, Tfloat64)
  {}

  lemma {:induction false} DoubleToInteger(tty: Ty, v: Value)
    requires Integral(tty) && tty != Tbool && Castable(Tfloat64, tty, v)
    ensures KeepsNumber(Step(Tfloat64, tty), Tfloat64, tty, v)
  {
    if Width(tty) == 8 { ThroughShort(Truncated(v.re), tty); }
  }

  lemma {:induction false} PartToInteger(fty: Ty, tty: Ty, v: Value)
    requires (Imaginary(fty) || Complex(fty)) && Integral(tty) && tty != Tbool && Castable(fty, tty, v)
    ensures KeepsNumber(Step(fty, tty), fty, tty, v)
  {
    if Complex(fty) {
      ComplexLines(fty, tty);
      PartKeeps(fty, tty, v);
    } else {
      ImaginaryLines(fty, tty);
    }
  }

  /** The type of the real or the imaginary part. */
  function PartOf(fty: Ty, imaginary: bool): Ty
    requires Complex(fty)
  {
    match fty
    case Tcomplex32 => if imaginary then Timaginary32 else Tfloat32
    case Tcomplex64 => if imaginary then Timaginary64 else Tfloat64
    case _ => if imaginary then Timaginary80 else Tfloat80
  }

  lemma {:induction false} ComplexLines(fty: Ty, tty: Ty)
    requires Complex(fty) && tty != Tbool && fty != tty
    ensures Imaginary(tty) ==> Step(fty, tty) == Again(OPc_i, PartOf(fty, true))
    ensures Integral(tty) || Floating(tty) ==> Step(fty, tty) == Again(OPc_r, PartOf(fty, false))
    ensures Complex(tty) ==>
              Step(fty, tty) == if fty == Tcomplex32 then Again(OPf_d, Tcomplex64)
                                else if fty == Tcomplex80 then Again(OPld_d, Tcomplex64)
                                else Last(if tty == Tcomplex32 then OPd_f else OPd_ld)
  {}

  lemma {:induction false} ImaginaryLines(fty: Ty, tty: Ty)
    requires Imaginary(fty) && tty != Tbool
    ensures Integral(tty) || Floating(tty) ==> Step(fty, tty) == Zero
    ensures Complex(tty) ==>
              var t := if fty == Timaginary32 then Tcomplex32
                       else if fty == Timaginary64 then Tcomplex64 else Tcomplex80;
              Step(fty, tty) == Again(OPadd(t), t)
    ensures Imaginary(tty) && fty != tty ==>
              Step(fty, tty) == if fty == Timaginary32 then
                                  (if tty == Timaginary64 then Last(OPf_d) else Again(OPf_d, Timaginary64))
                                else if fty == Timaginary64 then Last(if tty == Timaginary32 then OPd_f else OPd_ld)
                                else if tty == Timaginary64 then Last(OPld_d) else Again(OPf_d, Timaginary64)
  {}

  lemma {:induction false} FromFloat(fty: Ty, tty: Ty, v: Value)
    requires Floating(fty) && !Integral(tty) && IsValue(fty, v)
    ensures KeepsNumber(Step(fty, tty), fty, tty, v)
  {
    if Complex(tty) {
      PairLines(fty, tty);
      PairKeeps(Step(fty, tty).fty, fty, tty, v);
    } else if Floating(tty) && fty != tty {
      if fty != Tfloat64 { ThroughDouble(fty, tty); }
      SameKindKeeps(Step(fty, tty), fty, tty, v);
    }
  }

  lemma {:induction false} PairLines(fty: Ty, tty: Ty)
    requires Floating(fty) && Complex(tty)
    ensures Step(fty, tty).Again? && Step(fty, tty).op.OPadd? && Complex(Step(fty, tty).fty)
  {}

  lemma {:induction false} FromParts(fty: Ty, tty: Ty, v: Value)
    requires (Imaginary(fty) || Complex(fty)) && !Integral(tty) && IsValue(fty, v)
    ensures KeepsNumber(Step(fty, tty), fty, tty, v)
  {
    if fty == tty {
    } else if Complex(fty) {
      FromComplex(fty, tty, v);
    } else {
      FromImaginary(fty, tty, v);
    }
  }

  lemma {:induction false} FromComplex(fty: Ty, tty: Ty, v: Value)
    requires Complex(fty) && !Integral(tty) && IsValue(fty, v) && fty != tty
    ensures KeepsNumber(Step(fty, tty), fty, tty, v)
  {
    ComplexLines(fty, tty);
    if Complex(tty) { SameKindKeeps(Step(fty, tty), fty, tty, v); } else { PartKeeps(fty, tty, v); }
  }

  lemma {:induction false} PartKeeps(fty: Ty, tty: Ty, v: Value)
    requires Complex(fty) && !Complex(tty) && IsValue(fty, v)
    ensures KeepsNumber(Again(if Imaginary(tty) then OPc_i else OPc_r, PartOf(fty, Imaginary(tty))), fty, tty, v)
  {}

  lemma {:induction false} FromImaginary(fty: Ty, tty: Ty, v: Value)
    requires Imaginary(fty) && !Integral(tty) && IsValue(fty, v) && fty != tty
    ensures KeepsNumber(Step(fty, tty), fty, tty, v)
  {
    ImaginaryLines(fty, tty);
    if Imaginary(tty) {
      SameKindKeeps(Step(fty, tty), fty, tty, v);
    } else if Complex(tty) {
      PairKeeps(Step(fty, tty).fty, fty, tty, v);
    }
  }

  predicate SameKind(t: Ty, t': Ty) {
    (Floating(t) && Floating(t')) || (Imaginary(t) && Imaginary(t')) || (Complex(t) && Complex(t'))
  }

  /** A change of precision, on the way or at the end. */
  lemma {:induction false} SameKindKeeps(a: Action, fty: Ty, tty: Ty, v: Value)
    requires SameKind(fty, tty) && IsValue(fty, v)
    requires a.Last? || (a.Again? && a.fty == OfKind(fty, Tfloat64, Timaginary64, Tcomplex64))
    requires OfPrecision(a.op)
    ensures KeepsNumber(a, fty, tty, v)
  {
    if a.Last? { PrecisionAtEnd(a.op, fty, tty, v); } else { PrecisionOnTheWay(a.op, fty, tty, v); }
  }

  lemma {:induction false} PrecisionAtEnd(op: Op, fty: Ty, tty: Ty, v: Value)
    requires SameKind(fty, tty) && IsValue(fty, v) && OfPrecision(op)
    ensures KeepsNumber(Last(op), fty, tty, v)
  {
    CastWithinKind(fty, tty, v);
    assert Apply(Conversion(op, Width(tty)), v) == Some(v);
  }

  lemma {:induction false} PrecisionOnTheWay(op: Op, fty: Ty, tty: Ty, v: Value)
    requires SameKind(fty, tty) && IsValue(fty, v) && OfPrecision(op)
    ensures KeepsNumber(Again(op, OfKind(fty, Tfloat64, Timaginary64, Tcomplex64)), fty, tty, v)
  {
    var mid := OfKind(fty, Tfloat64, Timaginary64, Tcomplex64);
    ValueWithinKind(fty, mid, v);
    CastWithinKind(fty, tty, v);
    CastWithinKind(mid, tty, v);
    assert Apply(Conversion(op, Width(mid)), v) == Some(v);
  }

  lemma {:induction false} ValueWithinKind(fty: Ty, tty: Ty, v: Value)
    requires SameKind(fty, tty) && IsValue(fty, v)
    ensures IsValue(tty, v)
  {}

  lemma {:induction false} CastWithinKind(fty: Ty, tty: Ty, v: Value)
    requires SameKind(fty, tty) && IsValue(fty, v)
    ensures CastOf(fty, tty, v) == Some(v)
  {}

  lemma {:induction false} PairKeeps(mid: Ty, fty: Ty, tty: Ty, v: Value)
    requires (Floating(fty) || Imaginary(fty)) && Complex(mid) && Complex(tty) && IsValue(fty, v)
    ensures forall ty :: KeepsNumber(Again(OPadd(ty), mid), fty, tty, v)
  {}

  /** A number that fits 8 digits keeps them on the way through a short. */
  lemma {:induction false} ThroughShort(n: int, tty: Ty)
    requires Integral(tty) && Width(tty) == 8 && ToWord(n, 8, Signed(tty)).Some?
    ensures ToWord(n, 16, true) == Some(Bits(n % Modulus(16))) && WordOf(Tint16, n % Modulus(16))
    ensures ToWord(n, 8, Signed(tty)) == Some(Bits(Denotes(Tint16, n % Modulus(16)) % Modulus(8)))
  {
    var w := n % Modulus(16);
    Small(w, Modulus(16));
    if n >= 0 { Small(n, Modulus(16)); } else { Words.DivUnique(n, Modulus(16), -1, n + Modulus(16)); }
    assert Denotes(Tint16, w) == n;
    if !Signed(tty) { Small(n, Modulus(8)); }
  }

  // ----- the types of the operations -----

  function Operands(op: Op): set<Ty> {
    match op
    case OPu8_16 => {Tbool, Tuns8}
    case OPs8_16 => {Tint8}
    case OP16_8 => {Tint16, Tuns16}
    case OPs16_32 | OPs16_d => {Tint16}
    case OPu16_32 => {Tuns16}
    case OP32_16 => {Tint32, Tuns32}
    case OPs32_64 | OPs32_d => {Tint32}
    case OPu32_64 | OPu32_d => {Tuns32}
    case OP64_32 => {Tint64, Tuns64}
    case OPs64_d => {Tint64}
    case OPu64_d => {Tuns64}
    case OPd_s16 | OPd_u16 | OPd_s32 | OPd_u32 | OPd_s64 | OPd_u64 => {Tfloat64}
    case OPld_u64 => {Tfloat80}
    case OPf_d => {Tfloat32, Timaginary32, Tcomplex32}
    case OPd_f | OPd_ld => {Tfloat64, Timaginary64, Tcomplex64}
    case OPld_d => {Tfloat80, Timaginary80, Tcomplex80}
    case OPc_r | OPc_i => {Tcomplex32, Tcomplex64, Tcomplex80}
    case OPadd(Tcomplex32) => {Tfloat32, Timaginary32}
    case OPadd(Tcomplex64) => {Tfloat64, Timaginary64}
    case OPadd(_) => {Tfloat80, Timaginary80}
  }

  /** The types that an operation gives from the operand's. */
  function Results(op: Op, fty: Ty): set<Ty> {
    match op
    case OPu8_16 | OPs8_16 => {Tint16, Tuns16, Tint32, Tuns32}
    case OP16_8 => {Tint8, Tuns8}
    case OP32_16 => {Tint16, Tuns16}
    case OPs16_32 | OPu16_32 | OP64_32 => {Tint32, Tuns32}
    case OPs32_64 | OPu32_64 => {Tint64, Tuns64}
    case OPs16_d | OPs32_d | OPu32_d | OPs64_d | OPu64_d => {Tfloat64}
    case OPd_s16 => {Tint16}
    case OPd_u16 => {Tuns16}
    case OPd_s32 => {Tint32}
    case OPd_u32 => {Tuns32}
    case OPd_s64 => {Tint64}
    case OPd_u64 | OPld_u64 => {Tuns64}
    case OPf_d | OPld_d => {OfKind(fty, Tfloat64, Timaginary64, Tcomplex64)}
    case OPd_f => {OfKind(fty, Tfloat32, Timaginary32, Tcomplex32)}
    case OPd_ld => {OfKind(fty, Tfloat80, Timaginary80, Tcomplex80)}
    case OPc_r => {if fty == Tcomplex32 then Tfloat32 else if fty == Tcomplex64 then Tfloat64 else Tfloat80}
    case OPc_i => {if fty == Tcomplex32 then Timaginary32 else if fty == Tcomplex64 then Timaginary64 else Timaginary80}
    case OPadd(ty) => {ty}
  }

  /** The type of the operand's kind among three. */
  function OfKind(fty: Ty, real_: Ty, imaginary: Ty, complex: Ty): Ty {
    if Floating(fty) then real_ else if Imaginary(fty) then imaginary else complex
  }

  predicate Links(a: Action, fty: Ty, tty: Ty) {
    match a
    case Zero => true
    case Paint => fty == tty || (Integral(fty) && Integral(tty) && Width(fty) == Width(tty))
    case Last(op) => fty in Operands(op) && tty in Results(op, fty)
    case Again(op, mid) => fty in Operands(op) && mid in Results(op, fty)
  }

  predicate LineMisfits(fty: Ty, tty: Ty) {
    (fty == Timaginary80 && tty == Timaginary32) || (fty == Tfloat64 && Complex(tty))
  }

  /** The operation of every line takes the type that it is used for and gives the one that the
    table goes on with, except for two: ireal to ifloat takes the operand for an ifloat, and the
    complex number that is made from a double has a node of type cfloat. */
  lemma {:induction false} LinesLink(fty: Ty, tty: Ty)
    requires tty != Tbool
    ensures Links(Step(fty, tty), fty, tty) <==> !LineMisfits(fty, tty)
  {
    if Integral(fty) {
      if Integral(tty) { IntegersLink(fty, tty); } else { FromIntegerLinks(fty, tty); }
    } else if Floating(fty) {
      if fty == Tfloat64 { DoubleLinks(tty); } else { FloatLinks(fty, tty); }
    } else {
      if Imaginary(fty) { ImaginaryLinks(fty, tty); } else { ComplexLinks(fty, tty); }
    }
  }

  lemma {:induction false} IntegersLink(fty: Ty, tty: Ty)
    requires tty != Tbool && Integral(fty) && Integral(tty)
    ensures Links(Step(fty, tty), fty, tty)
  {}

  lemma {:induction false} FromIntegerLinks(fty: Ty, tty: Ty)
    requires Integral(fty) && !Integral(tty)
    ensures Links(Step(fty, tty), fty, tty)
  {}

  lemma {:induction false} DoubleLinks(tty: Ty)
    requires tty != Tbool
    ensures Links(Step(Tfloat64, tty), Tfloat64, tty) <==> !Complex(tty)
  {}

  lemma {:induction false} FloatLinks(fty: Ty, tty: Ty)
    requires tty != Tbool && (fty == Tfloat32 || fty == Tfloat80)
    ensures Links(Step(fty, tty), fty, tty)
  {
    if fty != tty && (Integral(tty) || Floating(tty)) { ThroughDouble(fty, tty); }
  }

  lemma {:induction false} ImaginaryLinks(fty: Ty, tty: Ty)
    requires tty != Tbool && Imaginary(fty)
    ensures Links(Step(fty, tty), fty, tty) <==> !(fty == Timaginary80 && tty == Timaginary32)
  {
    if Complex(tty) { ToPairLinks(fty, tty); } else if fty != tty { ImaginaryLines(fty, tty); }
  }

  lemma {:induction false} ToPairLinks(fty: Ty, tty: Ty)
    requires Imaginary(fty) && Complex(tty)
    ensures Links(Step(fty, tty), fty, tty)
  {
    ImaginaryLines(fty, tty);
  }

  lemma {:induction false} ComplexLinks(fty: Ty, tty: Ty)
    requires tty != Tbool && Complex(fty)
    ensures Links(Step(fty, tty), fty, tty)
  {
    if fty == tty {
    } else if Complex(tty) {
      ComplexLines(fty, tty);
    } else {
      PartLinks(fty, tty);
    }
  }

  lemma {:induction false} PartLinks(fty: Ty, tty: Ty)
    requires tty != Tbool && Complex(fty) && !Complex(tty)
    ensures Links(Step(fty, tty), fty, tty)
  {
    ComplexLines(fty, tty);
  }

  /** The operations of the whole cast fit together. */
  predicate AllLink(fty: Ty, tty: Ty)
    requires tty != Tbool
    decreases Distance(fty, tty)
  {
    var a := Step(fty, tty);
    Links(a, fty, tty) && if a.Again? then (AgainComesNearer(fty, tty); AllLink(a.fty, tty)) else true
  }

  predicate Misfits(fty: Ty, tty: Ty) {
    || (tty == Timaginary32 && (fty == Timaginary80 || fty == Tcomplex80))
    || (Complex(tty) && (Integral(fty) || fty == Tfloat64))
  }

  /** They do not for ireal and creal to ifloat, and for integers and double to complex. */
  lemma {:induction false} AllLinkExactly(fty: Ty, tty: Ty)
    requires tty != Tbool
    ensures AllLink(fty, tty) <==> !Misfits(fty, tty)
    decreases Distance(fty, tty)
  {
    LinesLink(fty, tty);
    if Step(fty, tty).Again? {
      AgainComesNearer(fty, tty);
      AllLinkExactly(Step(fty, tty).fty, tty);
      MisfitsLater(fty, tty);
    } else {
      MisfitsNow(fty, tty);
    }
  }

  lemma {:induction false} MisfitsLater(fty: Ty, tty: Ty)
    requires tty != Tbool && Step(fty, tty).Again?
    ensures
      Misfits(fty, tty) <==> LineMisfits(fty, tty) || Misfits(Step(fty, tty).fty, tty)
  {
    if Complex(fty) {
      MisfitsOfComplex(fty, tty);
    } else if Imaginary(fty) {
      MisfitsOfImaginary(fty, tty);
    } else if Complex(tty) {
      MisfitsToComplex(fty, tty);
    }
  }

  lemma {:induction false} MisfitsOfComplex(fty: Ty, tty: Ty)
    requires tty != Tbool && Complex(fty) && Step(fty, tty).Again?
    ensures Misfits(fty, tty) <==> Misfits(Step(fty, tty).fty, tty)
  {
    ComplexLines(fty, tty);
  }

  lemma {:induction false} MisfitsOfImaginary(fty: Ty, tty: Ty)
    requires tty != Tbool && Imaginary(fty) && Step(fty, tty).Again?
    ensures Misfits(fty, tty) <==> LineMisfits(fty, tty)
    ensures !Misfits(Step(fty, tty).fty, tty)
  {
    ImaginaryLines(fty, tty);
  }

  lemma {:induction false} MisfitsToComplex(fty: Ty, tty: Ty)
    requires (Integral(fty) || Floating(fty)) && Complex(tty) && Step(fty, tty).Again?
    ensures Misfits(fty, tty) <==> LineMisfits(fty, tty) || Misfits(Step(fty, tty).fty, tty)
  {}

  lemma {:induction false} MisfitsNow(fty: Ty, tty: Ty)
    requires tty != Tbool && !Step(fty, tty).Again?
    ensures !Misfits(fty, tty) && !LineMisfits(fty, tty)
  {}

  // ----- the chain -----

  /** The chain has brought every value of the first type to a value of `fty` that casts alike. */
  ghost predicate Reaches(fty0: Ty, tty: Ty, fty: Ty, chain: seq<Conversion>) {
    forall v | Castable(fty0, tty, v) :: ReachesAt(fty0, tty, fty, chain, v)
  }

  predicate ReachesAt(fty0: Ty, tty: Ty, fty: Ty, chain: seq<Conversion>, v: Value)
    requires IsValue(fty0, v)
  {
    var w := Run(chain, v);
    w.Some? && IsValue(fty, w.value) && CastOf(fty, tty, w.value) == CastOf(fty0, tty, v)
  }

  /** What the generated code gives. */
  function Outcome(chain: seq<Conversion>, zero: bool, tty: Ty, v: Value): Option<Value> {
    if zero then Some(ZeroOf(tty)) else Run(chain, v)
  }

  ghost predicate Arrives(fty0: Ty, tty: Ty, chain: seq<Conversion>, zero: bool) {
    forall v | Castable(fty0, tty, v) :: Outcome(chain, zero, tty, v) == CastOf(fty0, tty, v)
  }

  ghost predicate Follows(a: Action, fty0: Ty, tty: Ty, chain: seq<Conversion>) {
    match a
    case Zero => Arrives(fty0, tty, chain, true)
    case Paint => Arrives(fty0, tty, chain, false)
    case Last(op) => Arrives(fty0, tty, chain + [Conversion(op, Width(tty))], false)
    case Again(op, mid) => Reaches(fty0, tty, mid, chain + [Conversion(op, Width(mid))])
  }

  lemma {:induction false} RunLast(chain: seq<Conversion>, c: Conversion, v: Value)
    ensures Run(chain + [c], v) == if Run(chain, v).None? then None else Apply(c, Run(chain, v).value)
  {
    assert (chain + [c])[..|chain|] == chain;
  }

  lemma {:induction false} StepFollows(fty0: Ty, tty: Ty, fty: Ty, chain: seq<Conversion>)
    requires tty != Tbool && Reaches(fty0, tty, fty, chain)
    ensures Follows(Step(fty, tty), fty0, tty, chain)
  {
    var a := Step(fty, tty);
    forall v | Castable(fty0, tty, v) ensures KeepsAt(a, fty0, tty, fty, chain, v) {
      assert ReachesAt(fty0, tty, fty, chain, v);
      StepKeepsNumber(fty, tty, Run(chain, v).value);
    }
    match a
    case Zero => ZeroFollows(fty0, tty, fty, chain);
    case Paint => PaintFollows(fty0, tty, fty, chain);
    case Last(op) => LastFollows(op, fty0, tty, fty, chain);
    case Again(op, mid) => AgainFollows(op, mid, fty0, tty, fty, chain);
  }

  predicate KeepsAt(a: Action, fty0: Ty, tty: Ty, fty: Ty, chain: seq<Conversion>, v: Value)
    requires IsValue(fty0, v)
  {
    ReachesAt(fty0, tty, fty, chain, v) && KeepsNumber(a, fty, tty, Run(chain, v).value)
  }

  lemma {:induction false} ZeroFollows(fty0: Ty, tty: Ty, fty: Ty, chain: seq<Conversion>)
    requires forall v | Castable(fty0, tty, v) :: KeepsAt(Zero, fty0, tty, fty, chain, v)
    ensures Arrives(fty0, tty, chain, true)
  {
    forall v | Castable(fty0, tty, v) ensures Outcome(chain, true, tty, v) == CastOf(fty0, tty, v) {
      assert KeepsAt(Zero, fty0, tty, fty, chain, v);
    }
  }

  lemma {:induction false} PaintFollows(fty0: Ty, tty: Ty, fty: Ty, chain: seq<Conversion>)
    requires forall v | Castable(fty0, tty, v) :: KeepsAt(Paint, fty0, tty, fty, chain, v)
    ensures Arrives(fty0, tty, chain, false)
  {
    forall v | Castable(fty0, tty, v) ensures Outcome(chain, false, tty, v) == CastOf(fty0, tty, v) {
      assert KeepsAt(Paint, fty0, tty, fty, chain, v);
    }
  }

  lemma {:induction false} LastFollows(op: Op, fty0: Ty, tty: Ty, fty: Ty, chain: seq<Conversion>)
    requires forall v | Castable(fty0, tty, v) :: KeepsAt(Last(op), fty0, tty, fty, chain, v)
    ensures Arrives(fty0, tty, chain + [Conversion(op, Width(tty))], false)
  {
    var c := Conversion(op, Width(tty));
    forall v | Castable(fty0, tty, v) ensures Outcome(chain + [c], false, tty, v) == CastOf(fty0, tty, v) {
      assert KeepsAt(Last(op), fty0, tty, fty, chain, v);
      RunLast(chain, c, v);
    }
  }

  lemma {:induction false} AgainFollows(op: Op, mid: Ty, fty0: Ty, tty: Ty, fty: Ty, chain: seq<Conversion>)
    requires forall v | Castable(fty0, tty, v) :: KeepsAt(Again(op, mid), fty0, tty, fty, chain, v)
    ensures Reaches(fty0, tty, mid, chain + [Conversion(op, Width(mid))])
  {
    var c := Conversion(op, Width(mid));
    forall v | Castable(fty0, tty, v) ensures ReachesAt(fty0, tty, mid, chain + [c], v) {
      assert KeepsAt(Again(op, mid), fty0, tty, fty, chain, v);
      RunLast(chain, c, v);
    }
  }

  /** A number without a part in common with the target. */
  predicate MustBeZero(fty: Ty, tty: Ty) {
    (Imaginary(tty) && !Imaginary(fty) && !Complex(fty)) || (Imaginary(fty) && !Imaginary(tty) && !Complex(tty))
  }

  lemma {:induction false} ZeroLines(fty: Ty, tty: Ty)
    requires tty != Tbool
    ensures Step(fty, tty).Zero? <==> MustBeZero(fty, tty)
  {
    if Floating(fty) || Imaginary(fty) { ZeroLinesOfParts(fty, tty); }
  }

  lemma {:induction false} ZeroLinesOfParts(fty: Ty, tty: Ty)
    requires tty != Tbool && (Floating(fty) || Imaginary(fty))
    ensures Step(fty, tty).Zero? <==> MustBeZero(fty, tty)
  {}

  lemma {:induction false} NoZeroLater(fty: Ty, tty: Ty)
    requires tty != Tbool && Step(fty, tty).Again?
    ensures !MustBeZero(Step(fty, tty).fty, tty)
  {
    if Complex(fty) { NoZeroOfComplex(fty, tty); }
  }

  lemma {:induction false} NoZeroOfComplex(fty: Ty, tty: Ty)
    requires tty != Tbool && Complex(fty) && Step(fty, tty).Again?
    ensures !MustBeZero(Step(fty, tty).fty, tty)
  {}

  /** The chain of conversions that a cast emits, applied to a value for which the cast is defined,
    gives what the cast means, or that is zero. Between integral types this is the word of the
    target with the same value modulo its size. */
  method LowerCast(fty0: Ty, tty: Ty) returns (chain: seq<Conversion>, zero: bool)
    requires tty != Tbool
    ensures forall v :: Castable(fty0, tty, v) ==> Outcome(chain, zero, tty, v) == CastOf(fty0, tty, v)
    ensures zero <==> MustBeZero(fty0, tty)
  {
    chain, zero := [], false;
    var fty := fty0;
    var again := true;
    while again
      invariant if again then Reaches(fty0, tty, fty, chain) && !zero else Arrives(fty0, tty, chain, zero)
      invariant MustBeZero(fty, tty) <==> MustBeZero(fty0, tty)
      invariant !again ==> (zero <==> MustBeZero(fty0, tty))
      decreases again, Distance(fty, tty)
    {
      StepFollows(fty0, tty, fty, chain);
      ZeroLines(fty, tty);
      match Step(fty, tty) {
        case Zero => zero, again := true, false;
        case Paint => again := false;
        case Last(op) => chain, again := chain + [Conversion(op, Width(tty))], false;
        case Again(op, mid) =>
          AgainComesNearer(fty, tty);
          NoZeroLater(fty, tty);
          chain, fty := chain + [Conversion(op, Width(mid))], mid;
      }
    }
  }
}
