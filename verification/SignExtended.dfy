/** The 65-bit "sign-extended numbers" of value-range propagation.

  A number is a 64-bit word and a sign. Its operators are written on the word and the
  sign, as the compiler does; each contract says which saturated operation on integers
  that is. */
module SignExtended {
  import opened Words

  datatype Sx = Sx(value: U64, negative: bool) {
    function Val(): int {
      if negative then value - TWO64 else value
    }

    predicate IsMinimum() {
      negative && value == 0
    }
  }

  function Clamp(n: int): int {
    if n < -TWO64 then -TWO64 else if n >= TWO64 then TWO64 - 1 else n
  }

  predicate Fits(n: int) {
    -TWO64 <= n < TWO64
  }

  function Abs(n: int): nat {
    if n < 0 then -n else n
  }

  /** Division truncated towards zero, as in C. */
  function TDiv(x: int, y: int): int
    requires y != 0
  {
    if (x < 0) == (y < 0) then Abs(x) / Abs(y) else -(Abs(x) / Abs(y))
  }

  /** Remainder with the sign of the dividend, as in C. */
  function TMod(x: int, y: int): int
    requires y != 0
  {
    if x < 0 then -(Abs(x) % Abs(y)) else x % Abs(y)
  }

  const Zero := Sx(0, false)

  /** The number with a given value. */
  function Of(n: int): (s: Sx)
    requires Fits(n)
    ensures s.Val() == n
  {
    Sx(if n < 0 then n + TWO64 else n, n < 0)
  }

  function Extreme(minimum: bool): (r: Sx)
    ensures r.Val() == if minimum then -TWO64 else TWO64 - 1
  {
    if minimum then Sx(0, true) else Sx(TWO64 - 1, false)
  }

  /** `(x - sign) ^ -sign` on words: negate when the sign is set. */
  function CopySign(x: U64, sign: bool): (r: U64)
    ensures r == if sign && x != 0 then TWO64 - x else x
  {
    if sign then Not((x + TWO64 - 1) % TWO64) else x
  }

  predicate Less(a: Sx, b: Sx)
    ensures Less(a, b) <==> a.Val() < b.Val()
  {
    (a.negative && !b.negative) || (a.negative == b.negative && a.value < b.value)
  }

  function Neg(a: Sx): (r: Sx)
    ensures r.Val() == Clamp(-a.Val())
  {
    if a.value == 0 then Sx(if a.negative then TWO64 - 1 else 0, false)
    else Sx(TWO64 - a.value, !a.negative)
  }

  function Plus(a: Sx, b: Sx): (r: Sx)
    ensures r.Val() == Clamp(a.Val() + b.Val())
  {
    var sum := (a.value + b.value) % TWO64;
    var carry := sum < a.value && sum < b.value;
    if a.negative != b.negative then Sx(sum, !carry)
    else if a.negative then Sx(if carry then sum else 0, true)
    else Sx(if carry then TWO64 - 1 else sum, false)
  }

  function Minus(a: Sx, b: Sx): (r: Sx)
    ensures r.Val() == Clamp(a.Val() - b.Val())
  {
    if b.IsMinimum() then
      if a.negative then Sx(a.value, false) else Sx(TWO64 - 1, false)
    else Plus(a, Neg(b))
  }

  function Inc(a: Sx): (r: Sx)
    ensures r.Val() == Clamp(a.Val() + 1)
  {
    if a.value != TWO64 - 1 then Sx(a.value + 1, a.negative)
    else if a.negative then Sx(0, false)
    else a
  }

  function Times(a: Sx, b: Sx): (r: Sx)
    ensures r.Val() == Clamp(a.Val() * b.Val())
  {
    if a.value == 0 || b.value == 0 then
      TimesByZeroWord(a, b);
      TimesZeroWord(a, b)
    else
      var tAbs, aAbs := CopySign(a.value, a.negative), CopySign(b.value, b.negative);
      var negative := a.negative != b.negative;
      assert a.Val() * b.Val() == if negative then -(tAbs * aAbs) else tAbs * aAbs by {
        SignOfProduct(a.Val(), b.Val());
      }
      ProductOverflow(tAbs, aAbs);
      if (TWO64 - 1) / tAbs < aAbs then Sx(if negative then 0 else TWO64 - 1, negative)
      else Sx(CopySign(tAbs * aAbs, negative), negative)
  }

  /** The product when one of the words is zero, that is, one number is 0 or the minimum. */
  function TimesZeroWord(a: Sx, b: Sx): Sx
    requires a.value == 0 || b.value == 0
  {
    var (x, y) := if a.value == 0 then (a, b) else (b, a);
    if !x.negative then x
    else if y.negative then Sx(TWO64 - 1, false)
    else if y.value == 0 then y
    else x
  }

  lemma {:induction false} TimesByZeroWord(a: Sx, b: Sx)
    requires a.value == 0 || b.value == 0
    ensures TimesZeroWord(a, b).Val() == Clamp(a.Val() * b.Val())
  {
    var (x, y) := if a.value == 0 then (a, b) else (b, a);
    assert a.Val() * b.Val() == x.Val() * y.Val();
    assert x.negative ==> x.Val() * y.Val() == -(TWO64 * y.Val());
  }

  lemma {:induction false} SignOfProduct(x: int, y: int)
    ensures x * y == if (x < 0) != (y < 0) then -(Abs(x) * Abs(y)) else Abs(x) * Abs(y)
  {}

  lemma {:induction false} ProductOverflow(x: U64, y: U64)
    requires x > 0 && y > 0
    ensures 0 < x * y
    ensures (TWO64 - 1) / x < y <==> x * y >= TWO64
  {
    var q, r := (TWO64 - 1) / x, (TWO64 - 1) % x;
    assert TWO64 - 1 == x * q + r && 0 <= r < x;
    MulMonotone(x, 1, y);
    if q < y {
      MulMonotone(x, q + 1, y);
      assert x * (q + 1) == x * q + x by { MulDistributes(x, q, 1); }
    } else {
      MulMonotone(x, y, q);
    }
  }

  function Over(a: Sx, b: Sx): (r: Sx)
    ensures b.Val() != 0 ==> r.Val() == Clamp(TDiv(a.Val(), b.Val()))
    ensures b.Val() == 0 ==> r == Extreme(a.negative)
  {
    if b.value == 0 then
      if b.negative then
        QuotientBounds(Abs(a.Val()), TWO64);
        Sx(if a.value == 0 && a.negative then 1 else 0, false)
      else Extreme(a.negative)
    else
      var aAbs := CopySign(b.value, b.negative);
      if a.IsMinimum() && And(aAbs, aAbs - 1) == 0 && aAbs == 1 then Extreme(!b.negative)
      else
        var rvVal := if !a.IsMinimum() then CopySign(a.value, a.negative) / aAbs
                     else if And(aAbs, aAbs - 1) != 0 then (TWO64 - 1) / aAbs
                     else TWO64 / aAbs;
        assert rvVal == Abs(a.Val()) / Abs(b.Val()) by {
          if And(aAbs, aAbs - 1) != 0 { MinimumQuotient(aAbs); }
        }
        assert 0 <= rvVal < TWO64 by {
          QuotientBounds(Abs(a.Val()), Abs(b.Val()));
          if aAbs == 1 { assert And(1, 0) == 0; }
        }
        var rvNeg := a.negative != b.negative;
        Sx(CopySign(rvVal, rvNeg), CopySign(rvVal, rvNeg) != 0 && rvNeg)
  }

  // ----- division as the source runs it -----

  /** The number of `n` digits in which digit `k` is that of `k / p`: the masks that tell in
    which half of each block of `2 * p` digits a single digit is. */
  function Pattern(p: nat, n: nat): nat
    requires p > 0
  {
    if n == 0 then 0 else Pattern(p, n - 1) + (((n - 1) / p) % 2) * Pow2(n - 1)
  }

  lemma {:induction false} PatternWidth(p: nat, n: nat)
    requires p > 0
    ensures Pattern(p, n) < Pow2(n)
  {
    if n > 0 {
      PatternWidth(p, n - 1);
      var d := ((n - 1) / p) % 2;
      assert d == 0 || d == 1;
    }
  }

  lemma {:induction false} PatternDigit(p: nat, n: nat, k: nat)
    requires p > 0 && k < n
    ensures (Pattern(p, n) / Pow2(k)) % 2 == (k / p) % 2
  {
    var x, c := Pattern(p, n - 1), ((n - 1) / p) % 2;
    PatternWidth(p, n - 1);
    if k == n - 1 {
      TopDigitOf(x, c, Pow2(k));
    } else {
      var q := Pow2(n - 2 - k);
      PatternDigit(p, n - 1, k);
      Pow2Sum(k, n - 1 - k);
      assert Pow2(n - 1) == Pow2(k) * (2 * q);
      EvenTurns(x, c, Pow2(k), q);
    }
  }

  lemma {:induction false} TopDigitOf(x: nat, c: nat, p: nat)
    requires x < p && c < 2
    ensures ((x + c * p) / p) % 2 == c
  {
    DivUnique(x + c * p, p, c, x);
  }

  lemma {:induction false} EvenTurns(x: nat, c: nat, p: nat, q: nat)
    requires p > 0
    ensures ((x + c * (p * (2 * q))) / p) % 2 == (x / p) % 2
  {
    var d, r := x / p, x % p;
    assert x == p * d + r;
    assert c * (p * (2 * q)) == p * (2 * (c * q));
    MulDistributes(p, d, 2 * (c * q));
    DivUnique(x + p * (2 * (c * q)), p, d + 2 * (c * q), r);
  }

  lemma {:induction false} AndPower(k: nat, x: nat)
    ensures And(Pow2(k), x) == ((x / Pow2(k)) % 2) * Pow2(k)
    decreases k
  {
    if k > 0 {
      var h, y := Pow2(k - 1), x / 2;
      AndPower(k - 1, y);
      DivDiv(x, 2, h);
      AndDoubled(h, x, And(h, y));
      Doubled((y / h) % 2, h);
    } else {
      AndDigit(1, x);
      assert And(0, x / 2) == 0;
    }
  }

  lemma {:induction false} AndDoubled(h: nat, x: nat, e: nat)
    requires And(h, x / 2) == e
    ensures And(2 * h, x) == 2 * e
  {
    var p := 2 * h;
    assert p % 2 == 0 && p / 2 == h;
    AndDigit(p, x);
  }

  lemma {:induction false} Doubled(d: int, h: int)
    ensures 2 * (d * h) == d * (2 * h)
  {}

  predicate TellsAt(mask: U64, p: nat, k: nat)
    requires p > 0
  {
    And(Pow2(k), mask) != 0 <==> (k / p) % 2 == 1
  }

  /** The mask tells in which half of a block of `2 * p` digits the digit of a power of two is. */
  ghost predicate Tells(mask: U64, p: nat) {
    p > 0 && forall k: nat | k < 64 :: TellsAt(mask, p, k)
  }

  /** One block: zeros below, ones above. */
  lemma {:induction false} PatternBlock(p: nat, m: nat)
    requires p > 0 && m <= p
    ensures Pattern(p, p + m) == (Pow2(m) - 1) * Pow2(p)
  {
    if m > 0 {
      var n := m - 1;
      PatternBlock(p, n);
      DivUnique(p + n, p, 1, n);
      Pow2Sum(n, p);
      BlockStep(Pow2(n), Pow2(p));
      assert Pattern(p, p + m) == Pattern(p, p + n) + Pow2(p + n);
    } else {
      PatternZeros(p, p);
    }
  }

  lemma {:induction false} BlockStep(a: nat, b: nat)
    requires a > 0
    ensures (a - 1) * b + a * b == (2 * a - 1) * b
  {}

  lemma {:induction false} PatternZeros(p: nat, m: nat)
    requires p > 0 && m <= p
    ensures Pattern(p, m) == 0
  {
    if m > 0 {
      PatternZeros(p, m - 1);
      DivUnique(m - 1, p, 0, m - 1);
    }
  }

  /** Whole blocks repeat. */
  lemma {:induction false} PatternRepeats(p: nat, c: nat, n: nat, m: nat)
    requires p > 0 && n == 2 * p * c
    ensures Pattern(p, n + m) == Pattern(p, n) + Pattern(p, m) * Pow2(n)
    decreases m
  {
    if m > 0 {
      PatternRepeats(p, c, n, m - 1);
      SameHalf(m - 1, p, c);
      Pow2Sum(n, m - 1);
      var d := ((m - 1) / p) % 2;
      RepeatStep(Pattern(p, m - 1), d, Pow2(m - 1), Pow2(n));
    }
  }

  lemma {:induction false} SameHalf(k: nat, p: nat, c: nat)
    requires p > 0
    ensures ((2 * p * c + k) / p) % 2 == (k / p) % 2
  {
    assert k == p * (k / p) + k % p;
    assert 2 * p * c == p * (2 * c);
    MulDistributes(p, 2 * c, k / p);
    DivUnique(2 * p * c + k, p, 2 * c + k / p, k % p);
  }

  lemma {:induction false} RepeatStep(x: nat, d: nat, a: nat, b: nat)
    ensures (x + d * a) * b == x * b + d * (b * a)
  {}

  /** The value of whole blocks. */
  lemma {:induction false} PatternValue(p: nat, c: nat, n: nat)
    requires p > 0 && n == 2 * p * c
    ensures Pattern(p, n) * (Pow2(p) + 1) == (Pow2(n) - 1) * Pow2(p)
    decreases c
  {
    if c > 0 {
      var m: nat := 2 * p * (c - 1);
      assert n == m + 2 * p by { MulDistributes(2 * p, c - 1, 1); }
      PatternValue(p, c - 1, m);
      PatternRepeats(p, c - 1, m, 2 * p);
      PatternBlock(p, p);
      Pow2Sum(m, 2 * p);
      Pow2Sum(p, p);
      OneMoreBlock(Pattern(p, m), Pow2(p), Pow2(m), Pow2(n));
    }
  }

  lemma {:induction false} OneMoreBlock(x: nat, p: nat, m: nat, n: nat)
    requires x * (p + 1) == (m - 1) * p && n == m * (p * p)
    ensures (x + (p - 1) * p * m) * (p + 1) == (n - 1) * p
  {
    var b := (p - 1) * p;
    assert b * (p + 1) == p * (p * p) - p;
    assert (b * m) * (p + 1) == m * (b * (p + 1));
    assert m * (p * (p * p) - p) == m * (p * (p * p)) - m * p;
    assert m * (p * (p * p)) == n * p;
    assert (x + b * m) * (p + 1) == x * (p + 1) + (b * m) * (p + 1);
  }

  /** A word that is to 2^64 - 1 as 2^p is to 2^p + 1 has that pattern. */
  lemma {:induction false} PatternTells(mask: U64, p: nat, c: nat, q: nat)
    requires p > 0 && 63 < 2 * p * c < 65 && q == Pow2(p) && mask * (q + 1) == (TWO64 - 1) * q
    ensures Tells(mask, p)
  {
    var n: nat := 2 * p * c;
    assert Pow2(n) == TWO64 by { Pow2Values(); }
    PatternValue(p, c, n);
    SameFactor(mask, Pattern(p, n), q + 1);
    forall k: nat | k < n ensures TellsAt(mask, p, k) {
      AndPower(k, mask);
      PatternDigit(p, n, k);
    }
  }

  lemma {:induction false} SameFactor(x: int, y: int, z: nat)
    requires z > 0 && x * z == y * z
    ensures x == y
  {
    if x < y { ProductBelow(x, y, z); }
    if y < x { ProductBelow(y, x, z); }
  }

  lemma {:induction false} MasksTell()
    ensures Tells(0xAAAA_AAAA_AAAA_AAAA, 1) && Tells(0xCCCC_CCCC_CCCC_CCCC, 2)
    ensures Tells(0xF0F0_F0F0_F0F0_F0F0, 4) && Tells(0xFF00_FF00_FF00_FF00, 8)
    ensures Tells(0xFFFF_0000_FFFF_0000, 16) && Tells(0xFFFF_FFFF_0000_0000, 32)
  {
    Pow2Values();
    PatternTells(0xAAAA_AAAA_AAAA_AAAA, 1, 32, 2);
    PatternTells(0xCCCC_CCCC_CCCC_CCCC, 2, 16, 4);
    PatternTells(0xF0F0_F0F0_F0F0_F0F0, 4, 8, 16);
    PatternTells(0xFF00_FF00_FF00_FF00, 8, 4, 0x100);
    PatternTells(0xFFFF_0000_FFFF_0000, 16, 2, 0x1_0000);
    PatternTells(0xFFFF_FFFF_0000_0000, 32, 1, 0x1_0000_0000);
  }

  ghost predicate IsPower(a: nat, k: nat) {
    a == Pow2(k)
  }

  lemma {:induction false} PowerOfTwo(a: nat) returns (k: nat)
    requires a > 0 && And(a, a - 1) == 0
    ensures IsPower(a, k)
  {
    AndDigit(a, a - 1);
    if a == 1 {
      k := 0;
    } else if a % 2 == 0 {
      assert (a - 1) / 2 == a / 2 - 1;
      k := PowerOfTwo(a / 2);
      k := k + 1;
    } else {
      assert (a - 1) / 2 == a / 2;
      AndSelf(a / 2);
    }
  }

  lemma {:induction false} AndSelf(x: nat)
    ensures And(x, x) == x
  {
    AndDigit(x, x);
    if x > 0 { AndSelf(x / 2); }
  }

  lemma {:induction false} PowerShifted(v: nat, e: nat, p: nat)
    requires IsPower(v, e) && p <= e
    ensures IsPower(v / Pow2(p), e - p) && v / Pow2(p) <= v
  {
    Pow2Sum(e - p, p);
    DivUnique(v, Pow2(p), Pow2(e - p), 0);
    DivShrinks(v, Pow2(p));
  }

  /** One step of the search: `if (aAbs & mask) rvVal >>= p`. */
  method HalveBlock(v: U64, aAbs: U64, mask: U64, p: nat, ghost k: nat, ghost e: nat) returns (w: U64, ghost f: nat)
    requires Tells(mask, p) && k < 64 && IsPower(aAbs, k) && e == 63 - k % p && IsPower(v, e)
    ensures f == 63 - k % (2 * p) && IsPower(w, f)
  {
    assert TellsAt(mask, p, k);
    HalfOfBlock(k, p);
    if And(aAbs, mask) != 0 {
      PowerShifted(v, e, p);
      w, f := v / Pow2(p), e - p;
    } else {
      w, f := v, e;
    }
  }

  lemma {:induction false} HalfOfBlock(k: nat, p: nat)
    requires p > 0
    ensures k % (2 * p) == k % p + if (k / p) % 2 == 1 then p else 0
    ensures k % (2 * p) <= k && k % p <= k
  {
    var q, r := k / p, k % p;
    assert k == p * q + r;
    DivShrinks(k, p);
    MulMonotone(p, 0, q);
    var h, b := q / 2, q % 2;
    BlockParts(p, h, b);
    MulMonotone(2 * p, 0, h);
    DivUnique(k, 2 * p, h, p * b + r);
  }

  lemma {:induction false} BlockParts(p: nat, h: nat, b: nat)
    ensures p * (2 * h + b) == (2 * p) * h + p * b
  {}

  /** 2^64 over a power of two, by "reversing its bits". */
  method PowerQuotient(a: U64) returns (rvVal: U64)
    requires a > 1 && And(a, a - 1) == 0
    ensures rvVal == TWO64 / a
  {
    ghost var n := PowerOfTwo(a);
    MasksTell();
    SmallPower(a, n);
    ghost var k: nat, e: nat := n - 1, 63;
    rvVal := 0x8000_0000_0000_0000;
    var aAbs := a / 2;
    rvVal, e := HalveBlock(rvVal, aAbs, 0xAAAA_AAAA_AAAA_AAAA, 1, k, e);
    rvVal, e := HalveBlock(rvVal, aAbs, 0xCCCC_CCCC_CCCC_CCCC, 2, k, e);
    rvVal, e := HalveBlock(rvVal, aAbs, 0xF0F0_F0F0_F0F0_F0F0, 4, k, e);
    rvVal, e := HalveBlock(rvVal, aAbs, 0xFF00_FF00_FF00_FF00, 8, k, e);
    rvVal, e := HalveBlock(rvVal, aAbs, 0xFFFF_0000_FFFF_0000, 16, k, e);
    rvVal, e := HalveBlock(rvVal, aAbs, 0xFFFF_FFFF_0000_0000, 32, k, e);
    SmallQuotientOf(k, 64);
    PowerOver(a, n);
  }

  lemma {:induction false} SmallPower(a: U64, n: nat)
    requires a > 1 && IsPower(a, n)
    ensures 0 < n < 64 && IsPower(a / 2, n - 1) && IsPower(0x8000_0000_0000_0000, 63)
  {
    Pow2Values();
    assert Pow2(64) == 2 * Pow2(63);
    if n >= 64 { Pow2Monotone(64, n); }
    assert n > 0;
  }

  lemma {:induction false} SmallQuotientOf(k: nat, m: nat)
    requires k < m
    ensures k % m == k
  {
    DivUnique(k, m, 0, k);
  }

  lemma {:induction false} PowerOver(a: nat, n: nat)
    requires 0 < n < 64 && IsPower(a, n)
    ensures a > 0 && TWO64 / a == Pow2(64 - n)
  {
    var m := 64;
    assert IsPower(TWO64, m) by { Pow2Values(); }
    Pow2Sum(n, m - n);
    DivUnique(TWO64, a, Pow2(m - n), 0);
  }

  /** `operator/` */
  method Divide(a: Sx, b: Sx) returns (r: Sx)
    ensures r == Over(a, b)
  {
    if b.value == 0 {
      if b.negative {
        return Sx(if a.value == 0 && a.negative then 1 else 0, false);
      } else {
        return Extreme(a.negative);
      }
    }
    var aAbs := CopySign(b.value, b.negative);
    var rvVal: U64;
    if !a.IsMinimum() {
      DivShrinks(CopySign(a.value, a.negative), aAbs);
      rvVal := CopySign(a.value, a.negative) / aAbs;
    } else if And(aAbs, aAbs - 1) != 0 {
      DivShrinks(TWO64 - 1, aAbs);
      rvVal := (TWO64 - 1) / aAbs;
    } else {
      if aAbs == 1 {
        return Extreme(!b.negative);
      }
      rvVal := PowerQuotient(aAbs);
    }
    var rvNeg := a.negative != b.negative;
    r := Sx(CopySign(rvVal, rvNeg), CopySign(rvVal, rvNeg) != 0 && rvNeg);
  }

  lemma {:induction false} QuotientBounds(x: nat, y: nat)
    requires y > 0
    ensures 0 <= x / y <= x
    ensures y > 1 && x > 0 ==> x / y < x
    ensures x < y ==> x / y == 0
    ensures x == y ==> x / y == 1
  {
    DivShrinks(x, y);
    if x < y { DivUnique(x, y, 0, x); }
    if x == y { DivUnique(x, y, 1, 0); }
    if y > 1 && x > 0 && x / y == x {
      assert x == y * (x / y) + x % y;
      MulMonotone(x, 2, y);
    }
  }

  /** A number that is not a power of two leaves a remainder on division into 2^64. */
  lemma {:induction false} MinimumQuotient(a: U64)
    requires a > 0 && And(a, a - 1) != 0
    ensures (TWO64 - 1) / a == TWO64 / a
  {
    QuotientBelow(TWO64, a);
    if TWO64 % a == 0 { NoDivisor(a, TWO64 / a); }
  }

  lemma {:induction false} QuotientBelow(n: nat, a: nat)
    requires a > 0
    ensures n / a >= 0
    ensures if n % a == 0 then n == a * (n / a) else (n - 1) / a == n / a
  {
    var q, r := n / a, n % a;
    assert n == a * q + r;
    DivShrinks(n, a);
    if r > 0 { DivUnique(n - 1, a, q, r - 1); }
  }

  lemma {:induction false} NoDivisor(a: nat, q: nat)
    requires a > 0 && a * q == TWO64
    ensures And(a, a - 1) == 0
  {
    var m := 64;
    assert Pow2(m) == TWO64 by { Pow2Values(); }
    DivisorOfPowerOfTwo(a, q, m);
  }

  lemma {:induction false} DivisorOfPowerOfTwo(a: nat, b: nat, n: nat)
    requires a > 0 && a * b == Pow2(n)
    ensures And(a, a - 1) == 0
    decreases n
  {
    HalveProduct(a, b);
    if n == 0 {
      UnitProduct(a, b);
    } else if a % 2 == 0 {
      DivisorOfPowerOfTwo(a / 2, b, n - 1);
      AndDigit(a, a - 1);
      assert (a - 1) / 2 == a / 2 - 1;
    } else {
      DivisorOfPowerOfTwo(a, b / 2, n - 1);
    }
  }

  lemma {:induction false} AndDigit(x: nat, y: nat)
    ensures And(x, y) == 2 * And(x / 2, y / 2) + if x % 2 == 1 && y % 2 == 1 then 1 else 0
  {}

  lemma {:induction false} UnitProduct(a: nat, b: nat)
    requires a * b == 1
    ensures a == 1
  {
    if a > 1 {
      if b > 0 { MulMonotone(a, 1, b); }
    }
  }

  lemma {:induction false} HalveProduct(a: nat, b: nat)
    ensures a % 2 == 0 ==> a * b == 2 * ((a / 2) * b)
    ensures b % 2 == 0 ==> a * b == 2 * (a * (b / 2))
    ensures a % 2 == 1 && b % 2 == 1 ==> (a * b) % 2 == 1
  {
    var p, q := a / 2, b / 2;
    if a % 2 == 0 {
      assert a == 2 * p;
    } else if b % 2 == 1 {
      assert a == 2 * p + 1 && b == 2 * q + 1;
      assert a * b == 2 * (p * b) + b;
    }
    if b % 2 == 0 {
      assert b == 2 * q;
    }
  }

  // ----- shifts -----

  function FloorLog2(v: nat): (r: nat)
    requires v > 0
    ensures Pow2(r) <= v < Pow2(r + 1)
  {
    if v == 1 then 0 else 1 + FloorLog2(v / 2)
  }

  lemma {:induction false} FloorLog2Unique(v: nat, r: nat)
    requires v > 0 && Pow2(r) <= v < Pow2(r + 1)
    ensures r == FloorLog2(v)
  {
    var s := FloorLog2(v);
    if r < s { Pow2Monotone(r + 1, s); }
    if s < r { Pow2Monotone(s + 1, r); }
  }

  /** One step of the base-2 logarithm, which halves the number of digits still to be
    inspected: `s = (v > mask) << k; v >>= s; r |= s`. */
  method LogStep(v0: nat, v: nat, r: nat, s: nat) returns (w: nat, q: nat)
    requires 0 < v < Pow2(s) * Pow2(s) && v == Shr(v0, r)
    ensures 0 < w < Pow2(s) && w == Shr(v0, q) && r <= q <= r + s
  {
    if v >= Pow2(s) {
      w, q := v / Pow2(s), r + s;
      Pow2Sum(r, s);
      DivDiv(v0, Pow2(r), Pow2(s));
      TopDigits(v, Pow2(s), w);
    } else {
      w, q := v, r;
    }
  }

  lemma {:induction false} TopDigits(v: nat, p: nat, q: int)
    requires 0 < p <= v < p * p && q == v / p
    ensures 0 < q < p
  {
    assert v == p * q + v % p;
    if q <= 0 { MulMonotone(p, q, 0); }
    if q >= p { MulMonotone(p, p, q); }
  }

  /** The logarithm that bounds the amount of a left shift. */
  method Log2(v0: U64) returns (r: nat)
    requires v0 > 0
    ensures r == FloorLog2(v0)
  {
    Pow2Values();
    var v := v0;
    r := 0;
    assert Shr(v0, 0) == v0;
    v, r := LogStep(v0, v, r, 32);
    v, r := LogStep(v0, v, r, 16);
    v, r := LogStep(v0, v, r, 8);
    v, r := LogStep(v0, v, r, 4);
    v, r := LogStep(v0, v, r, 2);
    LastDigit(v0, v, r);
    r := r + v / 2;
  }

  lemma {:induction false} LastDigit(v0: nat, v: nat, r: nat)
    requires 0 < v < 4 && v == Shr(v0, r)
    ensures v0 > 0 && r + v / 2 == FloorLog2(v0)
  {
    var p := Pow2(r);
    assert v0 == p * v + v0 % p && 0 <= v0 % p < p;
    assert Pow2(r + 1) == 2 * p && Pow2(r + 2) == 4 * p;
    assert v == 1 || v == 2 || v == 3;
    FloorLog2Unique(v0, r + v / 2);
  }

  function ShiftLeft(a: Sx, b: Sx): (r: Sx)
    ensures !b.negative ==> r.Val() == Clamp(a.Val() * Pow2(b.value))
    ensures b.negative ==> r == if a.value == 0 then a else Extreme(a.negative)
  {
    if a.value == 0 then
      ShiftLeftOfExtreme(a, b.value);
      a
    else if b.negative then Extreme(a.negative)
    else
      var v := CopySign(a.value, a.negative);
      var allowableShift := 63 - FloorLog2(v) as int;
      ShiftLeftFits(v, b.value);
      NegatedProduct(v, Pow2(b.value));
      if b.value > allowableShift then Extreme(a.negative)
      else
        ShiftedNegative(v, Pow2(b.value));
        Sx((a.value * Pow2(b.value)) % TWO64, a.negative)
  }

  /** `operator<<` */
  method LeftShift(a: Sx, b: Sx) returns (r: Sx)
    ensures r == ShiftLeft(a, b)
  {
    if a.value == 0 {
      return a;
    } else if b.negative {
      return Extreme(a.negative);
    }
    var v := CopySign(a.value, a.negative);
    ShiftLeftFits(v, b.value);
    var log := Log2(v);
    var allowableShift := 63 - log;
    if b.value > allowableShift {
      r := Extreme(a.negative);
    } else {
      r := Sx((a.value * Pow2(b.value)) % TWO64, a.negative);
    }
  }

  lemma {:induction false} NegatedProduct(v: int, p: int)
    ensures (-v) * p == -(v * p)
  {}

  lemma {:induction false} ShiftLeftOfExtreme(a: Sx, k: nat)
    requires a.value == 0
    ensures a.Val() == Clamp(a.Val() * Pow2(k))
  {
    if a.negative {
      MulMonotone(TWO64, 1, Pow2(k));
      assert a.Val() * Pow2(k) == -(TWO64 * Pow2(k));
    }
  }

  lemma {:induction false} ShiftLeftFits(v: U64, k: nat)
    requires v > 0
    ensures FloorLog2(v) < 64 && 0 < v * Pow2(k)
    ensures v * Pow2(k) < TWO64 <==> k <= 63 - FloorLog2(v)
  {
    LogOfWord(v, FloorLog2(v));
    ShiftFitsBelow(v, FloorLog2(v), k);
  }

  lemma {:induction false} LogOfWord(v: U64, r: nat)
    requires Pow2(r) <= v
    ensures r < 64
  {
    assert Pow2(64) == TWO64 by { Pow2Values(); }
    if 64 <= r { Pow2Monotone(64, r); }
  }

  lemma {:induction false} ShiftFitsBelow(v: nat, r: nat, k: nat)
    requires r < 64 && Pow2(r) <= v < Pow2(r + 1)
    ensures 0 < v * Pow2(k)
    ensures v * Pow2(k) < TWO64 <==> k <= 63 - r
  {
    MulMonotone(Pow2(k), 1, v);
    assert Pow2(64) == TWO64 by { Pow2Values(); }
    if k <= 63 - r {
      Pow2Sum(r + 1, k);
      ProductBelow(v, Pow2(r + 1), Pow2(k));
      Pow2Monotone(r + 1 + k, 64);
    } else {
      Pow2Sum(r, k);
      MulMonotone(Pow2(k), Pow2(r), v);
      Pow2Monotone(64, r + k);
    }
  }

  lemma {:induction false} ProductBelow(v: int, w: int, p: int)
    requires v < w && p > 0
    ensures v * p < w * p
  {
    MulMonotone(p, v + 1, w);
  }

  lemma {:induction false} ShiftedNegative(v: U64, p: nat)
    requires 0 < v * p < TWO64
    ensures ((TWO64 - v) * p) % TWO64 == TWO64 - v * p
    ensures (v * p) % TWO64 == v * p
  {
    assert (TWO64 - v) * p == TWO64 * (p - 1) + (TWO64 - v * p);
    DivUnique((TWO64 - v) * p, TWO64, p - 1, TWO64 - v * p);
  }

  /** What a shift of a word by its own width gives, which C++ leaves undefined: a machine may
    clear the word, leave it alone, or do something else. */
  type Shifter = U64 -> U64

  /** Right shift, which rounds down unless a word is shifted by its width. */
  function ShiftRight(a: Sx, b: Sx, u: Shifter): (r: Sx)
    ensures b.negative ==> r.Val() == if a.negative then -1 else 0
    ensures !b.negative && (b.value == 64 ==> a.IsMinimum()) ==> r.Val() == a.Val() / Pow2(b.value)
    ensures !b.negative && b.value == 64 && !a.IsMinimum() ==>
              r == if a.negative then Sx(Not(u(Not(a.value))), true) else Sx(u(a.value), false)
  {
    if b.negative || b.value > 64 then
      LongShift(a, b.value);
      Sx(if a.negative then TWO64 - 1 else 0, a.negative)
    else if a.IsMinimum() then
      MinimumShift(b.value);
      if b.value == 0 then a else Sx(TWO64 - Pow2(64 - b.value), true)
    else
      ShiftedFloor(a, b.value);
      var x := if a.negative then Not(a.value) else a.value;
      var y := WordShifted(x, b.value, u);
      Sx(if a.negative then Not(y) else y, a.negative)
  }

  lemma {:induction false} ShiftedFloor(a: Sx, n: nat)
    ensures a.negative ==> a.Val() / Pow2(n) == 0 - Not(a.value) / Pow2(n) - 1
    ensures !a.negative ==> a.Val() == a.value
  {
    FloorOfComplement(Not(a.value), Pow2(n));
  }

  /** `x >>= n` on a word. */
  function WordShifted(x: U64, n: nat, u: Shifter): (y: U64)
    ensures y == if n == 64 then u(x) else x / Pow2(n)
  {
    DivShrinks(x, Pow2(n));
    if n == 64 then u(x) else x / Pow2(n)
  }

  lemma {:induction false} FloorOfComplement(x: U64, p: nat)
    requires p > 0
    ensures 0 <= x / p <= x
    ensures (0 - x - 1) / p == 0 - x / p - 1
  {
    DivShrinks(x, p);
    var q, r := x / p, x % p;
    assert x == p * q + r;
    assert p * (0 - q - 1) == -(p * q) - p by { MulDistributes(p, 0 - q, -1); }
    DivUnique(0 - x - 1, p, 0 - q - 1, p - 1 - r);
  }

  lemma {:induction false} MinimumShift(k: nat)
    requires k <= 64
    ensures 1 <= Pow2(64 - k) <= TWO64 && (k > 0 ==> Pow2(64 - k) < TWO64)
    ensures (-TWO64) / Pow2(k) == 0 - Pow2(64 - k)
  {
    assert Pow2(64) == TWO64 && Pow2(63) < TWO64 by { Pow2Values(); }
    Pow2Monotone(64 - k, 64);
    if k > 0 { Pow2Monotone(64 - k, 63); }
    Pow2Sum(k, 64 - k);
    ExactQuotient(-TWO64, Pow2(k), 0 - Pow2(64 - k));
  }

  lemma {:induction false} ExactQuotient(v: int, d: int, q: int)
    requires d > 0 && -v == d * (-q)
    ensures v / d == q
  {
    assert v == d * q;
    DivUnique(v, d, q, 0);
  }

  lemma {:induction false} LongShift(a: Sx, k: nat)
    ensures k > 64 ==> a.Val() / Pow2(k) == if a.negative then -1 else 0
  {
    if k > 64 {
      Pow2Values();
      Pow2Monotone(64, k);
      DivUnique(a.Val(), Pow2(k), if a.negative then -1 else 0, if a.negative then a.Val() + Pow2(k) else a.Val());
    }
  }
}
