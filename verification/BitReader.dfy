/** A cursor over the bits of a byte array, lowest bit of each byte first. */
module BitReader {
  import opened Words

  type Byte = x: nat | x < 256

  function Bits(data: seq<Byte>): nat {
    8 * |data|
  }

  // ----- the bits by themselves -----

  /** Binary digit `i`, counted from the lowest. */
  function Digit(v: nat, i: nat): (b: nat)
    ensures b < 2
    decreases i, v
  {
    if i == 0 then v % 2 else Digit(v / 2, i - 1)
  }

  /** Bit `p` counted from byte `k`. */
  function BitFrom(data: seq<Byte>, k: nat, p: nat): (b: nat)
    requires 8 * k + p < Bits(data)
    ensures b < 2
    decreases p, data
  {
    if p >= 8 then BitFrom(data, k + 1, p - 8) else Digit(data[k], p)
  }

  /** Bit `p`, and 0 past the end. */
  function Bit(data: seq<Byte>, p: nat): (b: nat)
    ensures b < 2
  {
    if p < Bits(data) then BitFrom(data, 0, p) else 0
  }

  lemma {:induction false} BitInByte(data: seq<Byte>, k: nat, p: nat)
    requires 8 * k + p < Bits(data)
    ensures BitFrom(data, k, p) == Digit(data[k + p / 8], p % 8)
    decreases p
  {
    if p >= 8 {
      BitInByte(data, k + 1, p - 8);
      assert (p - 8) / 8 == p / 8 - 1 && (p - 8) % 8 == p % 8;
    }
  }

  /** The number that the `n` bits from `p` on stand for. */
  function Value(data: seq<Byte>, p: nat, n: nat): nat
    decreases n, p
  {
    if n == 0 then 0 else Bit(data, p) + 2 * Value(data, p + 1, n - 1)
  }

  /** The number `v` has the `n` bits from `p` on as its binary digits. */
  ghost predicate Reads(data: seq<Byte>, p: nat, n: nat, v: nat) {
    && (n > 0 ==> p + n <= Bits(data)) && v < Pow2(n)
    && forall i :: 0 <= i < n ==> Digit(v, i) == Bit(data, p + i)
  }

  lemma {:induction false} ValueFits(data: seq<Byte>, p: nat, n: nat)
    ensures Value(data, p, n) < Pow2(n)
    decreases n
  {
    if n > 0 { ValueFits(data, p + 1, n - 1); }
  }

  lemma {:induction false} ValueReads(data: seq<Byte>, p: nat, n: nat)
    requires n > 0 ==> p + n <= Bits(data)
    ensures Reads(data, p, n, Value(data, p, n))
  {
    ValueFits(data, p, n);
    forall i | 0 <= i < n
      ensures Digit(Value(data, p, n), i) == Bit(data, p + i)
    {
      ValueDigit(data, p, n, i);
    }
  }

  lemma {:induction false} ValueDigit(data: seq<Byte>, p: nat, n: nat, i: nat)
    requires i < n
    ensures Digit(Value(data, p, n), i) == Bit(data, p + i)
    decreases n
  {
    if i > 0 { ValueDigit(data, p + 1, n - 1, i - 1); }
  }

  /** Only one number does. */
  lemma {:induction false} ReadsIsUnique(data: seq<Byte>, p: nat, n: nat, v: nat, w: nat)
    requires Reads(data, p, n, v) && Reads(data, p, n, w)
    ensures v == w
  {
    forall i | 0 <= i < n
      ensures Digit(v, i) == Digit(w, i)
    {
      assert Digit(v, i) == Bit(data, p + i);
    }
    DigitsDetermine(v, w, n);
  }

  lemma {:induction false} DigitsDetermine(v: nat, w: nat, n: nat)
    requires v < Pow2(n) && w < Pow2(n) && forall i :: 0 <= i < n ==> Digit(v, i) == Digit(w, i)
    ensures v == w
    decreases n
  {
    if n > 0 {
      assert Digit(v, 0) == Digit(w, 0);
      forall i | 0 <= i < n - 1
        ensures Digit(v / 2, i) == Digit(w / 2, i)
      {
        assert Digit(v, i + 1) == Digit(w, i + 1);
      }
      DigitsDetermine(v / 2, w / 2, n - 1);
    }
  }

  lemma {:induction false} ValueSplits(data: seq<Byte>, p: nat, m: nat, n: nat)
    ensures Value(data, p, m + n) == Value(data, p, m) + Pow2(m) * Value(data, p + m, n)
    decreases m
  {
    if m > 0 {
      ValueSplits(data, p + 1, m - 1, n);
      SplitStep(Bit(data, p), Value(data, p, m + n), Value(data, p + 1, m + n - 1),
                Value(data, p, m), Value(data, p + 1, m - 1), Pow2(m), Pow2(m - 1), Value(data, p + m, n));
    }
  }

  lemma {:induction false} SplitStep(b: int, x: int, x': int, y: int, y': int, p: int, p': int, w: int)
    requires x == b + 2 * x' && y == b + 2 * y' && p == 2 * p' && x' == y' + p' * w
    ensures x == y + p * w
  {
    assert p * w == 2 * (p' * w) by { MulAssociates(2, p', w); }
  }

  /** Bits of a single byte are what shift and mask cut out. */
  lemma {:induction false} ValueInByte(data: seq<Byte>, p: nat, n: nat)
    requires p % 8 + n <= 8 && p + n <= Bits(data) && p < Bits(data)
    ensures Value(data, p, n) == Shr(data[p / 8], p % 8) % Pow2(n)
    decreases n
  {
    var x := Shr(data[p / 8], p % 8);
    BitInByte(data, 0, p);
    if n > 1 {
      ValueInByte(data, p + 1, n - 1);
      assert (p + 1) / 8 == p / 8 && (p + 1) % 8 == p % 8 + 1;
      ShiftHalf(data[p / 8], p % 8);
      RemainderDigit(x, Pow2(n - 1));
      ShiftedDigit(data[p / 8], p % 8);
    } else if n == 1 {
      assert Value(data, p + 1, 0) == 0;
      ShiftedDigit(data[p / 8], p % 8);
    }
  }

  lemma {:induction false} ShiftedDigit(v: nat, i: nat)
    ensures Digit(v, i) == Shr(v, i) % 2
    decreases i
  {
    if i > 0 {
      ShiftedDigit(v / 2, i - 1);
      ShiftHalf(v, i - 1);
    }
  }

  lemma {:induction false} RemainderDigit(x: nat, h: nat)
    requires h > 0
    ensures x % (2 * h) == x % 2 + 2 * (x / 2 % h)
  {
    var q, r := x / 2 / h, x / 2 % h;
    assert x / 2 == h * q + r;
    assert (2 * h) * q == 2 * (h * q) by { MulAssociates(2, h, q); }
    DivUnique(x, 2 * h, q, x % 2 + 2 * r);
  }

  lemma {:induction false} AndMask(x: nat, n: nat)
    ensures And(x, Pow2(n) - 1) == x % Pow2(n)
  {
    if n > 0 {
      AndMask(x / 2, n - 1);
      RemainderDigit(x, Pow2(n - 1));
      assert (Pow2(n) - 1) / 2 == Pow2(n - 1) - 1 && (Pow2(n) - 1) % 2 == 1;
    }
  }

  /** Or-ing in digits above those that are there adds them. */
  lemma {:induction false} OrAbove(a: nat, b: nat, k: nat)
    requires a < Pow2(k)
    ensures Or(a, Pow2(k) * b) == a + Pow2(k) * b
  {
    if k == 0 {
      OrZero(b);
    } else {
      var c := Pow2(k - 1) * b;
      MulAssociates(2, Pow2(k - 1), b);
      OrAbove(a / 2, b, k - 1);
      OrEven(a, c);
    }
  }

  lemma {:induction false} OrZero(b: nat)
    ensures Or(0, b) == b
  {
    if b > 0 { OrZero(b / 2); }
  }

  lemma {:induction false} OrEven(a: nat, c: nat)
    ensures Or(a, 2 * c) == 2 * Or(a / 2, c) + a % 2
  {
    assert 2 * c / 2 == c && 2 * c % 2 == 0;
  }

  // ----- the cursor -----

  class Reader {
    const Data: seq<Byte>
    var BitOffset: nat
    var ByteOffset: nat

    constructor (data: seq<Byte>)
      ensures Data == data && BitOffset == 0 && ByteOffset == 0
    {
      Data := data;
      BitOffset, ByteOffset := 0, 0;
    }

    function Position(): nat
      reads this
    {
      ByteOffset * 8 + BitOffset
    }

    method SetPosition(value: nat)
      modifies this
      ensures Position() == value && BitOffset < 8
    {
      BitOffset := value % 8;
      ByteOffset := value / 8;
    }

    function BitsLeft(): (r: int)
      reads this
      ensures r == Bits(Data) - Position()
    {
      (|Data| - ByteOffset - 1) * 8 + (8 - BitOffset)
    }

    /** Only the number of bytes in `count` moves to the next byte. */
    method SkipBits(count: nat)
      modifies this
      ensures BitOffset == old(BitOffset) + count % 8 && Position() == old(Position()) + count
    {
      BitOffset := BitOffset + count % 8;
      ByteOffset := ByteOffset + count / 8;
    }

    /** Take bits of the current byte, and go to the next byte when none are left. */
    method TakeBits(readCount: nat) returns (bits: nat)
      requires BitOffset < 8 && ByteOffset < |Data| && readCount <= 8 - BitOffset
      modifies this
      ensures bits == Cut(Data[old(ByteOffset)], old(BitOffset), readCount)
      ensures BitOffset < 8 && Position() == old(Position()) + readCount
    {
      bits := Cut(Data[ByteOffset], BitOffset, readCount);
      BitOffset := BitOffset + readCount;
      if BitOffset == 8 {
        BitOffset := 0;
        ByteOffset := ByteOffset + 1;
      }
    }

    /** Reading works from a cursor within a byte, and fails when the data run out. */
    method ReadBits(count: nat) returns (ok: bool, value: nat)
      requires BitOffset < 8 && count <= 32
      modifies this
      ensures ok <==> count == 0 || old(Position()) + count <= Bits(Data)
      ensures ok ==> Reads(Data, old(Position()), count, value)
      ensures ok ==> BitOffset < 8 && Position() == old(Position()) + count
    {
      ghost var p := Position();
      ok, value := CollectBits(count);
      if ok { ValueReads(Data, p, count); }
    }

    method CollectBits(count: nat) returns (ok: bool, value: nat)
      requires BitOffset < 8 && count <= 32
      modifies this
      ensures ok <==> count == 0 || old(Position()) + count <= Bits(Data)
      ensures ok ==> value == Value(Data, old(Position()), count)
      ensures ok ==> BitOffset < 8 && Position() == old(Position()) + count
    {
      value := 0;
      var readOffset := 0;
      var left := count;
      ghost var p := Position();
      while left > 0
        invariant 0 <= left <= count && readOffset == count - left && BitOffset < 8 && Position() == p + readOffset
        invariant readOffset > 0 ==> p + readOffset <= Bits(Data)
        invariant value == Value(Data, p, readOffset)
        decreases left
      {
        var leftInByte := 8 - BitOffset;
        var readCount := if left < leftInByte then left else leftInByte;
        if ByteOffset >= |Data| {
          return false, 0;
        }
        AppendCut(Data, p, readOffset, ByteOffset, BitOffset, readCount);
        var bits := TakeBits(readCount);
        value := Or(value, Pow2(readOffset) * bits);
        readOffset := readOffset + readCount;
        left := left - readCount;
      }
      ok := true;
    }
  }

  /** `(byte >> bit) & ((1 << n) - 1)` */
  function Cut(byte: Byte, bit: nat, n: nat): nat {
    And(Shr(byte, bit), Pow2(n) - 1)
  }

  lemma {:induction false} AppendCut(data: seq<Byte>, p: nat, m: nat, byte: nat, bit: nat, n: nat)
    requires p + m == byte * 8 + bit && byte < |data| && bit < 8 && 0 < n <= 8 - bit
    ensures p + m + n <= Bits(data)
    ensures
      Or(Value(data, p, m), Pow2(m) * Cut(data[byte], bit, n)) == Value(data, p, m + n)
  {
    CutBits(data, p + m, n);
    assert (p + m) / 8 == byte && (p + m) % 8 == bit;
    AppendBits(data, p, m, n);
  }

  lemma {:induction false} CutBits(data: seq<Byte>, p: nat, n: nat)
    requires p < Bits(data) && p % 8 + n <= 8
    ensures p + n <= Bits(data)
    ensures Cut(data[p / 8], p % 8, n) == Value(data, p, n)
  {
    ValueInByte(data, p, n);
    AndMask(Shr(data[p / 8], p % 8), n);
  }

  lemma {:induction false} AppendBits(data: seq<Byte>, p: nat, m: nat, n: nat)
    ensures Or(Value(data, p, m), Pow2(m) * Value(data, p + m, n)) == Value(data, p, m + n)
  {
    ValueFits(data, p, m);
    OrAbove(Value(data, p, m), Value(data, p + m, n), m);
    ValueSplits(data, p, m, n);
  }

  // ----- random access and bulk access -----

  method ReadBitsAt(data: seq<Byte>, offset: nat, count: nat) returns (ok: bool, value: nat)
    requires count <= 32
    ensures ok <==> count == 0 || offset + count <= Bits(data)
    ensures ok ==> Reads(data, offset, count, value)
  {
    var reader := new Reader(data);
    reader.SetPosition(offset);
    ok, value := reader.ReadBits(count);
  }

  datatype Entry = Entry(index: nat, value: nat)

  /** Where field `k` begins: `width` bits after the one before it. */
  function Place(offset: nat, width: nat, k: nat): nat {
    if k == 0 then offset else Place(offset, width, k - 1) + width
  }

  lemma {:induction false} PlaceIsProduct(offset: nat, width: nat, k: nat)
    ensures Place(offset, width, k) == offset + k * width
  {
    if k > 0 { PlaceIsProduct(offset, width, k - 1); }
  }

  ghost predicate IsField(data: seq<Byte>, width: nat, offset: nat, k: nat, e: Entry) {
    e.index == k && Reads(data, Place(offset, width, k), width, e.value)
  }

  ghost predicate AllFields(data: seq<Byte>, width: nat, offset: nat, entries: seq<Entry>) {
    forall k :: 0 <= k < |entries| ==> IsField(data, width, offset, k, entries[k])
  }

  /** The entries of a table of fields of `width` bits: as many as there is room for, each with
    the value at its place. With `width` 0 there would be no last one. */
  method FixedBitReader(data: seq<Byte>, width: nat, offset: nat) returns (entries: seq<Entry>)
    requires 0 < width <= 32
    ensures |entries| == if offset <= Bits(data) then (Bits(data) - offset) / width else 0
    ensures AllFields(data, width, offset, entries)
  {
    var reader := new Reader(data);
    reader.SetPosition(offset);
    entries := [];
    while reader.BitsLeft() >= width
      invariant fresh(reader) && reader.Data == data && reader.BitOffset < 8
      invariant reader.Position() == Place(offset, width, |entries|)
      invariant entries == [] || reader.Position() <= Bits(data)
      invariant AllFields(data, width, offset, entries)
      decreases reader.BitsLeft()
    {
      var ok, value := reader.ReadBits(width);
      entries := entries + [Entry(|entries|, value)];
    }
    FieldCount(Bits(data), width, offset, |entries|);
  }

  lemma {:induction false} FieldCount(bits: nat, width: nat, offset: nat, n: nat)
    requires width > 0 && bits < Place(offset, width, n) + width
    requires n == 0 || Place(offset, width, n) <= bits
    ensures n == if offset <= bits then (bits - offset) / width else 0
  {
    PlaceIsProduct(offset, width, n);
    if offset <= bits {
      DivUnique(bits - offset, width, n, bits - Place(offset, width, n));
    } else if n > 0 {
      MulMonotone(width, 0, n);
    }
  }
}
