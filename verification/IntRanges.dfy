/** Ranges of integers, and how a range is cast to an integral type. */
module IntRanges {
  import opened Words
  import opened SignExtended

  // ----- integral types -----

  datatype Ty =
    | Tbool | Tint8 | Tuns8 | Tchar | Tint16 | Tuns16 | Twchar
    | Tint32 | Tuns32 | Tdchar | Tint64 | Tuns64

  function SizeMask(t: Ty): U64 {
    match t
    case Tbool => 1
    case Tint8 | Tuns8 | Tchar => 0xFF
    case Tint16 | Tuns16 | Twchar => 0xFFFF
    case Tint32 | Tuns32 | Tdchar => 0xFFFF_FFFF
    case Tint64 | Tuns64 => 0xFFFF_FFFF_FFFF_FFFF
  }

  predicate IsUnsigned(t: Ty) {
    !(t.Tint8? || t.Tint16? || t.Tint32? || t.Tint64?)
  }

  /** The number of binary digits of a size mask. */
  function Width(t: Ty): (n: nat)
    ensures 0 < n <= 64 && (!t.Tbool? ==> n > 1)
  {
    match t
    case Tbool => 1
    case Tint8 | Tuns8 | Tchar => 8
    case Tint16 | Tuns16 | Twchar => 16
    case Tint32 | Tuns32 | Tdchar => 32
    case Tint64 | Tuns64 => 64
  }

  predicate HasDigits(mask: U64, n: nat) {
    0 < n <= 64 && mask + 1 == Pow2(n)
  }

  lemma {:induction false} SizeMaskDigits(t: Ty)
    ensures HasDigits(SizeMask(t), Width(t))
  {
    HalfPowers();
  }

  /** The value of the low digits of `x`, read without and with a sign. */
  function WrapUnsigned(mask: U64, x: int): int {
    x % (mask + 1)
  }

  function WrapSigned(mask: U64, x: int): int {
    var h := mask / 2 + 1;
    (x + h) % (mask + 1) - h
  }

  /** The value that the constant folder reads back from a word of type `t`. */
  function Wrap(t: Ty, x: int): int {
    if t.Tbool? then if x == 0 then 0 else 1
    else if IsUnsigned(t) then WrapUnsigned(SizeMask(t), x)
    else WrapSigned(SizeMask(t), x)
  }

  // ----- masks of whole types -----

  lemma {:induction false} LowDigits(n: nat, v: nat)
    ensures And(v, Pow2(n) - 1) == v % Pow2(n)
    ensures AndNot(v, Pow2(n) - 1) == v - v % Pow2(n)
  {
    if n == 0 {
      AndNotNothing(v);
    } else if v == 0 {
      DivUnique(0, Pow2(n), 0, 0);
    } else {
      LowDigits(n - 1, v / 2);
      assert (Pow2(n) - 1) / 2 == Pow2(n - 1) - 1;
      HalfRemainder(v, Pow2(n - 1));
    }
  }

  lemma {:induction false} HalfRemainder(v: nat, p: nat)
    requires p > 0
    ensures v % (2 * p) == 2 * ((v / 2) % p) + v % 2
  {
    var q, r := (v / 2) / p, (v / 2) % p;
    assert v / 2 == p * q + r;
    assert 2 * (p * q) == (2 * p) * q;
    DivUnique(v, 2 * p, q, 2 * r + v % 2);
  }

  lemma {:induction false} AndNotNothing(v: nat)
    ensures AndNot(v, 0) == v
  {
    if v > 0 { AndNotNothing(v / 2); }
  }

  lemma {:induction false} MaskDigitsAt(v: U64, mask: U64, n: nat)
    requires mask + 1 == Pow2(n)
    ensures And(v, mask) == v % (mask + 1)
    ensures And(v, Not(mask)) == v - v % (mask + 1)
  {
    MaskedOut(v, mask);
    LowDigits(n, v);
  }

  lemma {:induction false} MaskDigits(v: U64, mask: U64, n: nat)
    requires HasDigits(mask, n)
    ensures And(v, mask) == v % (mask + 1)
    ensures And(v, Not(mask)) == v - v % (mask + 1)
    ensures And(v, Not(mask / 2)) == v - v % (mask / 2 + 1)
  {
    MaskDigitsAt(v, mask, n);
    MaskDigitsAt(v, mask / 2, n - 1);
  }

  /** 2^64 is a whole number of turns of every type. */
  lemma {:induction false} WordTurns(mask: U64, n: nat)
    requires HasDigits(mask, n)
    ensures TWO64 == (mask + 1) * Pow2(64 - n)
  {
    assert Pow2(64) == TWO64 by { Pow2Values(); }
    Pow2Sum(n, 64 - n);
  }

  lemma {:induction false} HalfPowers()
    ensures Pow2(0) == 1 && Pow2(1) == 2 && Pow2(7) == 0x80 && Pow2(8) == 0x100
    ensures Pow2(15) == 0x8000 && Pow2(16) == 0x1_0000
    ensures Pow2(31) == 0x8000_0000 && Pow2(32) == 0x1_0000_0000
    ensures Pow2(63) == 0x8000_0000_0000_0000 && Pow2(64) == TWO64
  {
    Pow2Values();
    Pow2Double(7);
    Pow2Double(15);
    Pow2Double(31);
    Pow2Double(63);
  }

  lemma {:induction false} Pow2Double(n: nat)
    ensures Pow2(n + 1) == 2 * Pow2(n)
  {}

  lemma {:induction false} FlipTopDigit(n: nat, v: nat)
    requires v < Pow2(n + 1)
    ensures Xor(v, Pow2(n)) == if v < Pow2(n) then v + Pow2(n) else v - Pow2(n)
  {
    if n > 0 {
      FlipTopDigit(n - 1, v / 2);
      FlipDoubled(v, Pow2(n - 1));
    } else {
      XorDigit(v, 1);
      assert v / 2 == 0 && Xor(0, 0) == 0;
    }
  }

  lemma {:induction false} FlipDoubled(v: nat, p: nat)
    requires Xor(v / 2, p) == if v / 2 < p then v / 2 + p else v / 2 - p
    ensures Xor(v, 2 * p) == if v < 2 * p then v + 2 * p else v - 2 * p
  {
    var q := 2 * p;
    assert q / 2 == p && q % 2 == 0;
    XorDigit(v, q);
  }

  // ----- ranges -----

  datatype IntRange = IntRange(imin: Sx, imax: Sx) {
    function Lo(): int { imin.Val() }
    function Hi(): int { imax.Val() }

    predicate Ordered() { Lo() <= Hi() }

    predicate Has(x: int) { Lo() <= x <= Hi() }

    predicate Contains(a: IntRange)
      ensures Contains(a) <==> Lo() <= a.Lo() && a.Hi() <= Hi()
    {
      !Less(a.imin, imin) && !Less(imax, a.imax)
    }

    predicate ContainsZero()
      requires Ordered()
      ensures ContainsZero() <==> Has(0)
    {
      (imin.negative && !imax.negative) || (!imin.negative && imin.value == 0)
    }

    /** The range of the negated absolute values. */
    function AbsNeg(): (r: IntRange)
      requires Ordered() && Lo() > -TWO64
      ensures r.Ordered()
      ensures forall x :: Has(x) ==> r.Has(0 - Abs(x))
      ensures Abs(r.Lo()) == Abs(Lo()) || Abs(r.Lo()) == Abs(Hi())
    {
      if imax.negative then this
      else if !imin.negative then IntRange(Neg(imax), Neg(imin))
      else IntRange(if Less(Neg(imax), imin) then Neg(imax) else imin, Zero)
    }
  }

  /** All values of a type, with its own or with a forced signedness. */
  function FromType(t: Ty, isUnsigned: bool): (r: IntRange)
    ensures r.Ordered()
  {
    var mask := SizeMask(t);
    if t.Tdchar? then IntRange(Zero, Sx(0x10FFFF, false))
    else if !isUnsigned then IntRange(Sx(Not(mask / 2), true), Sx(mask / 2, false))
    else IntRange(Zero, Sx(mask, false))
  }

  function TypeRange(t: Ty): (r: IntRange)
    ensures r.Ordered()
  {
    FromType(t, IsUnsigned(t))
  }

  function FromNumbers2(a: Sx, b: Sx): (r: IntRange)
    ensures r.Lo() == if a.Val() < b.Val() then a.Val() else b.Val()
    ensures r.Hi() == if a.Val() < b.Val() then b.Val() else a.Val()
  {
    if Less(a, b) then IntRange(a, b) else IntRange(b, a)
  }

  /** The tightest range that holds four numbers. */
  function FromNumbers4(a: Sx, b: Sx, c: Sx, d: Sx): (r: IntRange)
    ensures r.Has(a.Val()) && r.Has(b.Val()) && r.Has(c.Val()) && r.Has(d.Val())
    ensures r.imin in {a, b, c, d} && r.imax in {a, b, c, d}
  {
    var ab, cd := FromNumbers2(a, b), FromNumbers2(c, d);
    IntRange(if Less(cd.imin, ab.imin) then cd.imin else ab.imin,
             if Less(ab.imax, cd.imax) then cd.imax else ab.imax)
  }

  // ----- casts -----

  /** Cast to an unsigned type: exact when the range does not step across a multiple of
    the type's size, otherwise the whole type. */
  function CastUnsigned(r: IntRange, mask: U64): (c: IntRange)
    requires r.Ordered()
    ensures c.Ordered()
  {
    var m := mask + 1;
    if r.Lo() / m == r.Hi() / m then
      ChunkOrder(r.Lo(), r.Hi(), m);
      IntRange(Of(WrapUnsigned(mask, r.Lo())), Of(WrapUnsigned(mask, r.Hi())))
    else
      IntRange(Zero, Sx(mask, false))
  }

  /** Cast to a signed type: the chunks are offset by half the type's size. */
  function CastSigned(r: IntRange, mask: U64): (c: IntRange)
    requires r.Ordered()
    ensures c.Ordered()
  {
    var h, m := mask / 2 + 1, mask + 1;
    if (r.Lo() + h) / m == (r.Hi() + h) / m then
      ChunkOrder(r.Lo() + h, r.Hi() + h, m);
      IntRange(Of(WrapSigned(mask, r.Lo())), Of(WrapSigned(mask, r.Hi())))
    else
      IntRange(Of(-h), Of(mask / 2))
  }

  /** Cast to dchar, which drops every value that is not a character. */
  function CastDchar(r: IntRange): (c: IntRange)
    requires r.Ordered()
    ensures c.Ordered() && TypeRange(Tdchar).Contains(c)
  {
    var u := CastUnsigned(r, 0xFFFF_FFFF);
    IntRange(if u.imin.value > 0x10FFFF then Sx(0x10FFFF, false) else u.imin,
             if u.imax.value > 0x10FFFF then Sx(0x10FFFF, false) else u.imax)
  }

  function Cast(r: IntRange, t: Ty): (c: IntRange)
    requires r.Ordered()
    ensures c.Ordered() && TypeRange(t).Contains(c)
  {
    if !IsUnsigned(t) then CastSigned(r, SizeMask(t))
    else if t.Tdchar? then CastDchar(r)
    else CastUnsigned(r, SizeMask(t))
  }

  function CastUnsignedType(r: IntRange, t: Ty): (c: IntRange)
    requires r.Ordered()
    ensures c.Ordered() && FromType(t, true).Contains(c)
  {
    if t.Tdchar? then CastDchar(r) else CastUnsigned(r, SizeMask(t))
  }

  // ----- the casts as the source runs them, on words and signs -----

  /** `castUnsigned` computes the unsigned cast. */
  method CastUnsignedWords(r: IntRange, mask: U64, ghost n: nat) returns (c: IntRange)
    requires r.Ordered() && HasDigits(mask, n)
    ensures c == CastUnsigned(r, mask)
  {
    SameChunk(r, mask, n);
    c := r;
    var minChunk := And(c.imin.value, Not(mask));
    var maxChunk := And(c.imax.value, Not(mask));
    if minChunk == maxChunk && c.imin.negative == c.imax.negative {
      c := IntRange(c.imin.(value := And(c.imin.value, mask)), c.imax.(value := And(c.imax.value, mask)));
    } else {
      c := IntRange(c.imin.(value := 0), c.imax.(value := mask));
    }
    c := IntRange(c.imin.(negative := false), c.imax.(negative := false));
  }

  lemma {:induction false} SameChunk(r: IntRange, mask: U64, n: nat)
    requires r.Ordered() && HasDigits(mask, n)
    ensures And(r.imin.value, Not(mask)) == And(r.imax.value, Not(mask)) && r.imin.negative == r.imax.negative
            <==> r.Lo() / (mask + 1) == r.Hi() / (mask + 1)
    ensures And(r.imin.value, mask) == WrapUnsigned(mask, r.Lo())
    ensures And(r.imax.value, mask) == WrapUnsigned(mask, r.Hi())
    ensures r.Lo() / (mask + 1) == r.Hi() / (mask + 1) ==> WrapUnsigned(mask, r.Lo()) <= WrapUnsigned(mask, r.Hi())
  {
    MaskDigits(r.imin.value, mask, n);
    MaskDigits(r.imax.value, mask, n);
    ChunkOfWord(r.imin, mask, n);
    ChunkOfWord(r.imax, mask, n);
    ChunkOrder(r.Lo(), r.Hi(), mask + 1);
  }

  lemma {:induction false} ChunkOfWord(a: Sx, mask: U64, n: nat)
    requires HasDigits(mask, n)
    ensures a.value % (mask + 1) == a.Val() % (mask + 1)
    ensures a.value - a.value % (mask + 1) - (if a.negative then TWO64 else 0) == (a.Val() / (mask + 1)) * (mask + 1)
  {
    WordTurns(mask, n);
    TurnedChunk(a.value, mask + 1, Pow2(64 - n), a.negative);
  }

  lemma {:induction false} TurnedChunk(v: int, m: int, k: int, negative: bool)
    requires m > 0 && TWO64 == m * k
    ensures var x := v - if negative then TWO64 else 0;
            && v % m == x % m
            && v - v % m - (if negative then TWO64 else 0) == (x / m) * m
  {
    Turned(v, m, k, 0, negative);
    assert v == m * (v / m) + v % m;
  }

  /** Taking 2^64 from a word turns it backwards `k` times. */
  lemma {:induction false} Turned(v: int, m: int, k: int, h: int, negative: bool)
    requires m > 0 && TWO64 == m * k
    ensures var x := v - if negative then TWO64 else 0;
            && (x + h) % m == (v + h) % m
            && ((x + h) / m) * m == m * ((v + h) / m) - if negative then TWO64 else 0
  {
    if negative {
      WholeTurns(v + h, m, -k);
      MulDistributes(m, (v + h) / m, -k);
    }
  }

  /** Adding a multiple of the modulus moves the quotient and keeps the remainder. */
  lemma {:induction false} WholeTurns(x: int, m: int, k: int)
    requires m > 0
    ensures (x + m * k) / m == x / m + k && (x + m * k) % m == x % m
  {
    var q := x / m;
    assert x == m * q + x % m;
    MulDistributes(m, q, k);
    DivUnique(x + m * k, m, q + k, x % m);
  }

  /** Two ordered numbers have the same quotient exactly when they lie in the same chunk,
    and their remainders are then ordered too. */
  lemma {:induction false} ChunkOrder(lo: int, hi: int, m: int)
    requires lo <= hi && m > 0
    ensures lo / m == hi / m ==> lo % m <= hi % m
    ensures lo / m == hi / m <==> (lo / m) * m == (hi / m) * m
    ensures lo / m != hi / m <==> (lo / m) * m + m <= (hi / m) * m
  {
    var p, q := lo / m, hi / m;
    assert lo == m * p + lo % m && hi == m * q + hi % m;
    if p < q {
      MulMonotone(m, p + 1, q);
    } else if p > q {
      MulMonotone(m, q + 1, p);
    }
  }

  /** The chunk of a signed type that holds `a`, as a word and a sign (1 negative,
    0 not negative, -1 past the largest word). */
  function HalfChunk(a: Sx, mask: U64): (c: (U64, int)) {
    var half := mask / 2;
    var chunk := And(a.value, Not(half));
    NextChunk(chunk, And(chunk, mask) != 0, half + 1, if a.negative then 1 else 0)
  }

  function NextChunk(chunk: U64, odd: bool, h: nat, negativity: int): (c: (U64, int))
    requires h > 0
    ensures chunk + h <= TWO64 || !odd ==>
              c.0 - c.1 * TWO64 == chunk + (if odd then h else 0) - negativity * TWO64
  {
    if odd then
      var next := (chunk + h) % TWO64;
      (next, if next == 0 then negativity - 1 else negativity)
    else (chunk, negativity)
  }

  lemma {:induction false} HalfChunkIsRounding(a: Sx, mask: U64, n: nat)
    requires HasDigits(mask, n)
    ensures var c, m := HalfChunk(a, mask), mask + 1;
            c.0 - c.1 * TWO64 == ((a.Val() + mask / 2 + 1) / m) * m
  {
    var v, h, m := a.value, mask / 2 + 1, mask + 1;
    var chunk := And(v, Not(mask / 2));
    assert m == 2 * h by { assert Pow2(n) == 2 * Pow2(n - 1); }
    assert chunk == v - v % h by { MaskDigits(v, mask, n); }
    var k := Pow2(64 - n);
    assert TWO64 == m * k by { WordTurns(mask, n); }
    var odd := And(chunk, mask) != 0;
    assert odd <==> chunk % m != 0 by { MaskDigits(chunk, mask, n); }
    NextChunkIsRounding(v, chunk, odd, h, m, k, a.negative);
  }

  lemma {:induction false} NextChunkIsRounding(v: U64, chunk: U64, odd: bool, h: nat, m: int, k: int, negative: bool)
    requires h > 0 && m == 2 * h && TWO64 == m * k && chunk == v - v % h
    requires odd <==> chunk % m != 0
    ensures var c := NextChunk(chunk, odd, h, if negative then 1 else 0);
            var x := v - if negative then TWO64 else 0;
            c.0 - c.1 * TWO64 == ((x + h) / m) * m
  {
    HalfRounding(v, h, m, chunk);
    if odd {
      BelowMultiple(chunk, h, m, k);
    }
    Turned(v, m, k, h, negative);
  }

  lemma {:induction false} HalfRounding(v: nat, h: nat, m: int, chunk: nat)
    requires h > 0 && m == 2 * h && chunk == v - v % h
    ensures chunk % m == 0 || chunk % m == h
    ensures chunk + (if chunk % m == 0 then 0 else h) == m * ((v + h) / m)
  {
    var q, r := v / h, v % h;
    var p, b := q / 2, q % 2;
    assert chunk == h * q == m * p + h * b by { MulDistributes(h, 2 * p, b); }
    if b == 1 {
      MulDistributes(m, p, 1);
      DivUnique(chunk, m, p, h);
      DivUnique(v + h, m, p + 1, r);
    } else {
      DivUnique(chunk, m, p, 0);
      DivUnique(v + h, m, p, h + r);
    }
  }

  lemma {:induction false} BelowMultiple(chunk: U64, h: int, m: int, k: int)
    requires h > 0 && m == 2 * h && TWO64 == m * k && chunk % m == h
    ensures chunk + h <= TWO64
  {
    var q := chunk / m;
    assert chunk == m * q + h;
    if q >= k {
      MulMonotone(m, k, q);
    } else {
      MulMonotone(m, q + 1, k);
      MulDistributes(m, q, 1);
    }
  }

  function SignExtend(word: U64, mask: U64, ghost n: nat): (r: Sx)
    requires HasDigits(mask, n)
    ensures r.Val() == WrapSigned(mask, word)
  {
    var half := mask / 2;
    var low := And(word, mask);
    SignDigit(word, mask, n);
    SignedWord(low, half + 1, Xor(low, half + 1));
    Sx((Xor(low, half + 1) + TWO64 - (half + 1)) % TWO64, And(low, Not(half)) != 0)
  }

  lemma {:induction false} SignedWord(low: U64, h: U64, flipped: nat)
    requires 0 < h && 2 * h <= TWO64 && low < 2 * h && flipped == if low < h then low + h else low - h
    ensures (flipped + TWO64 - h) % TWO64 == if low < h then low else low - 2 * h + TWO64
  {}

  lemma {:induction false} SignDigit(word: U64, mask: U64, n: nat)
    requires HasDigits(mask, n)
    ensures var low, h := And(word, mask), mask / 2 + 1;
            && low < 2 * h
            && Xor(low, h) == (if low < h then low + h else low - h)
            && (And(low, Not(mask / 2)) == 0 <==> low < h)
            && WrapSigned(mask, word) == (if low < h then low else low - 2 * h)
  {
    HalfOfMask(mask, n);
    LowOfWord(word, mask, n);
    SignOfLow(And(word, mask), mask, n);
    SignedReading(word, mask / 2 + 1);
  }

  lemma {:induction false} LowOfWord(word: U64, mask: U64, n: nat)
    requires HasDigits(mask, n)
    ensures And(word, mask) == word % (mask + 1) <= mask
  {
    MaskDigits(word, mask, n);
  }

  lemma {:induction false} SignOfLow(low: U64, mask: U64, n: nat)
    requires HasDigits(mask, n) && low <= mask
    ensures var h := mask / 2 + 1;
            && Xor(low, h) == (if low < h then low + h else low - h)
            && And(low, Not(mask / 2)) == low - low % h
  {
    HalfOfMask(mask, n);
    MaskDigits(low, mask, n);
    FlipTopDigit(n - 1, low);
    assert Pow2(n) == 2 * Pow2(n - 1);
  }

  lemma {:induction false} HalfOfMask(mask: U64, n: nat)
    requires HasDigits(mask, n)
    ensures mask / 2 + 1 == Pow2(n - 1) && mask % 2 == 1
  {
    assert Pow2(n) == 2 * Pow2(n - 1);
  }

  lemma {:induction false} SignedReading(word: nat, h: nat)
    requires h > 0
    ensures var low := word % (2 * h);
            && (word + h) % (2 * h) - h == (if low < h then low else low - 2 * h)
            && (low - low % h == 0 <==> low < h)
  {
    var m, q := 2 * h, word / (2 * h);
    var low := word % m;
    assert word == m * q + low;
    if low < h {
      DivUnique(word + h, m, q, low + h);
      DivUnique(low, h, 0, low);
    } else {
      MulDistributes(m, q, 1);
      DivUnique(word + h, m, q + 1, low - h);
      DivUnique(low, h, 1, low - h);
    }
  }

  /** `castSigned` computes the signed cast. */
  method CastSignedWords(r: IntRange, mask: U64, ghost n: nat) returns (c: IntRange)
    requires r.Ordered() && HasDigits(mask, n)
    ensures c == CastSigned(r, mask)
  {
    SameHalfChunk(r, mask, n);
    var halfChunkMask := mask / 2;
    var minHalf, maxHalf := HalfChunk(r.imin, mask), HalfChunk(r.imax, mask);
    if minHalf == maxHalf {
      c := IntRange(SignExtend(r.imin.value, mask, n), SignExtend(r.imax.value, mask, n));
    } else {
      c := IntRange(Sx(Not(halfChunkMask), true), Sx(halfChunkMask, false));
    }
    ValueDetermines(c.imin, CastSigned(r, mask).imin);
    ValueDetermines(c.imax, CastSigned(r, mask).imax);
  }

  lemma {:induction false} ValueDetermines(a: Sx, b: Sx)
    ensures a.Val() == b.Val() ==> a == b
  {}

  lemma {:induction false} SameHalfChunk(r: IntRange, mask: U64, n: nat)
    requires r.Ordered() && HasDigits(mask, n)
    ensures var h, m := mask / 2 + 1, mask + 1;
            && (HalfChunk(r.imin, mask) == HalfChunk(r.imax, mask) <==> (r.Lo() + h) / m == (r.Hi() + h) / m)
            && ((r.Lo() + h) / m == (r.Hi() + h) / m ==>
                WrapSigned(mask, r.imin.value) <= WrapSigned(mask, r.imax.value))
    ensures WrapSigned(mask, r.imin.value) == WrapSigned(mask, r.Lo())
    ensures WrapSigned(mask, r.imax.value) == WrapSigned(mask, r.Hi())
  {
    var h, m := mask / 2 + 1, mask + 1;
    HalfChunksAgree(r.imin, r.imax, mask, n);
    WordWraps(r.imin, mask, n);
    WordWraps(r.imax, mask, n);
    ChunkOrder(r.Lo() + h, r.Hi() + h, m);
  }

  lemma {:induction false} HalfChunksAgree(a: Sx, b: Sx, mask: U64, n: nat)
    requires HasDigits(mask, n) && a.Val() <= b.Val()
    ensures var h, m := mask / 2 + 1, mask + 1;
            HalfChunk(a, mask) == HalfChunk(b, mask) <==> (a.Val() + h) / m == (b.Val() + h) / m
  {
    var c, d := HalfChunk(a, mask), HalfChunk(b, mask);
    HalfChunkIsRounding(a, mask, n);
    HalfChunkIsRounding(b, mask, n);
    if c.0 - c.1 * TWO64 == d.0 - d.1 * TWO64 { SameChunkSameWord(c, d); }
    ChunkOrder(a.Val() + mask / 2 + 1, b.Val() + mask / 2 + 1, mask + 1);
  }

  lemma {:induction false} WordWraps(a: Sx, mask: U64, n: nat)
    requires HasDigits(mask, n)
    ensures WrapSigned(mask, a.value) == WrapSigned(mask, a.Val())
  {
    WordTurns(mask, n);
    Turned(a.value, mask + 1, Pow2(64 - n), mask / 2 + 1, a.negative);
  }

  lemma {:induction false} SameChunkSameWord(c: (U64, int), d: (U64, int))
    requires c.0 - c.1 * TWO64 == d.0 - d.1 * TWO64
    ensures c == d
  {}
}
