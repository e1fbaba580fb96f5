/** Folding of array constants: strings, which are bytes in memory, and array literals. */
module ConstSeq {
  import Words

  datatype Option<T> = None | Some(value: T)

  type Byte = x: nat | x < 256

  datatype Type = Int(size: nat, char_: bool) | Array(elem: Type)

  /** A string has `len` units of `sz` bytes. */
  datatype Const =
    | IntC(ty: Type, v: nat)
    | NullC(ty: Type)
    | StrC(sz: nat, len: nat, bytes: seq<Byte>)
    | ArrC(ty: Type, elements: seq<Const>)

  function TypeOf(c: Const): Type {
    match c
    case IntC(ty, _) => ty
    case NullC(ty) => ty
    case StrC(sz, _, _) => Array(Int(sz, true))
    case ArrC(ty, _) => ty
  }

  /** The value that an integer of a character type can have. */
  predicate Fits(v: nat, sz: nat) {
    v < Pow256(sz)
  }

  function Pow256(n: nat): (p: nat)
    ensures p > 0
  {
    if n == 0 then 1 else 256 * Pow256(n - 1)
  }

  predicate Valid(c: Const) {
    match c
    case IntC(ty, v) => ty.Int? && (ty.char_ ==> ty.size > 0 && Fits(v, ty.size))
    case NullC(ty) => ty.Array?
    case StrC(sz, len, bytes) => sz > 0 && |bytes| == len * sz
    case ArrC(ty, elements) =>
      ty.Array? && forall i :: 0 <= i < |elements| ==> Valid(elements[i]) && TypeOf(elements[i]) == ty.elem
  }

  // ----- what constants stand for -----

  datatype Val = Num(n: nat) | List(s: seq<Val>)

  /** Bytes as a number, lowest byte first. */
  function Number(bs: seq<Byte>): nat {
    if bs == [] then 0 else bs[0] + 256 * Number(bs[1..])
  }

  /** The lowest `sz` bytes of a number. */
  function LowBytes(v: nat, sz: nat): (bs: seq<Byte>)
    ensures |bs| == sz
    decreases sz
  {
    if sz == 0 then [] else [v % 256] + LowBytes(v / 256, sz - 1)
  }

  function Units(bytes: seq<Byte>, sz: nat, len: nat): (us: seq<Val>)
    ensures |us| == len
    decreases len
  {
    if len == 0 then [] else if |bytes| < sz then [Num(0)] + Units([], sz, len - 1)
    else [Num(Number(bytes[..sz]))] + Units(bytes[sz..], sz, len - 1)
  }

  function Denote(c: Const): Val
    decreases c
  {
    match c
    case IntC(_, v) => Num(v)
    case NullC(_) => List([])
    case StrC(sz, len, bytes) => List(Units(bytes, sz, len))
    case ArrC(_, elements) => List(DenoteAll(elements))
  }

  function DenoteAll(cs: seq<Const>): (vs: seq<Val>)
    ensures |vs| == |cs|
    ensures forall i :: 0 <= i < |cs| ==> vs[i] == Denote(cs[i])
    decreases cs
  {
    if cs == [] then [] else [Denote(cs[0])] + DenoteAll(cs[1..])
  }

  /** The elements of a constant that is an array. */
  function Elements(c: Const): seq<Val> {
    if c.IntC? then [] else Denote(c).s
  }

  // ----- numbers and bytes -----

  lemma {:induction false} NumberOfLowBytes(v: nat, sz: nat)
    ensures Number(LowBytes(v, sz)) < Pow256(sz)
    ensures Number(LowBytes(v, sz)) == v <==> Fits(v, sz)
    decreases sz
  {
    if sz > 0 {
      NumberOfLowBytes(v / 256, sz - 1);
      assert LowBytes(v, sz)[1..] == LowBytes(v / 256, sz - 1);
    }
  }

  lemma {:induction false} LowBytesOfNumber(bs: seq<Byte>)
    ensures LowBytes(Number(bs), |bs|) == bs
  {
    if bs != [] {
      LowBytesOfNumber(bs[1..]);
      assert (bs[0] + 256 * Number(bs[1..])) / 256 == Number(bs[1..]);
    }
  }

  lemma {:induction false} NumberFits(bs: seq<Byte>)
    ensures Fits(Number(bs), |bs|)
  {
    LowBytesOfNumber(bs);
    NumberOfLowBytes(Number(bs), |bs|);
  }

  /** Byte `k` counts 256 to the power of `k`. */
  lemma {:induction false} LowBytesAt(v: nat, sz: nat, k: nat)
    requires k < sz
    ensures LowBytes(v, sz)[k] == (v / Pow256(k)) % 256
    decreases sz
  {
    if k > 0 {
      LowBytesAt(v / 256, sz - 1, k - 1);
      Words.DivDiv(v, 256, Pow256(k - 1));
    }
  }

  lemma {:induction false} OneMore(n: nat, sz: nat)
    requires n > 0
    ensures n * sz == (n - 1) * sz + sz
  {}

  lemma {:induction false} Ordered(i: nat, n: nat, sz: nat)
    requires i <= n
    ensures i * sz <= n * sz && n * sz - i * sz == (n - i) * sz
  {
    assert n * sz == (n - i) * sz + i * sz;
  }

  lemma {:induction false} UnitAt(bytes: seq<Byte>, sz: nat, len: nat, i: nat)
    requires sz > 0 && |bytes| == len * sz && i < len
    ensures i * sz + sz <= |bytes|
    ensures Units(bytes, sz, len)[i] == Num(Number(bytes[i * sz..i * sz + sz]))
    decreases len
  {
    OneMore(len, sz);
    OneMore(i + 1, sz);
    Ordered(i + 1, len, sz);
    var p := i * sz;
    if i > 0 {
      OneMore(i, sz);
      UnitAt(bytes[sz..], sz, len - 1, i - 1);
      UnitShifts(bytes, sz, p - sz);
    }
  }

  lemma {:induction false} UnitShifts(bytes: seq<Byte>, sz: nat, p: nat)
    requires p + 2 * sz <= |bytes|
    ensures bytes[sz..][p..p + sz] == bytes[p + sz..p + 2 * sz]
  {}

  lemma {:induction false} UnitsConcat(a: seq<Byte>, b: seq<Byte>, sz: nat, m: nat, n: nat)
    requires sz > 0 && |a| == m * sz && |b| == n * sz
    ensures |a + b| == (m + n) * sz
    ensures Units(a + b, sz, m + n) == Units(a, sz, m) + Units(b, sz, n)
    decreases m
  {
    assert (m + n) * sz == m * sz + n * sz;
    if m == 0 {
      assert a + b == b;
    } else {
      assert m * sz == (m - 1) * sz + sz;
      UnitsConcat(a[sz..], b, sz, m - 1, n);
      assert (a + b)[..sz] == a[..sz] && (a + b)[sz..] == a[sz..] + b;
    }
  }

  lemma {:induction false} FirstUnit(a: seq<Byte>, sz: nat, len: nat)
    requires len > 0 && |a| >= sz
    ensures Units(a, sz, len)[0] == Num(Number(a[..sz])) && Units(a, sz, len)[1..] == Units(a[sz..], sz, len - 1)
  {}

  /** Equal bytes are equal strings, and the other way round. */
  lemma {:induction false} UnitsAreInjective(a: seq<Byte>, b: seq<Byte>, sz: nat, len: nat)
    requires sz > 0 && |a| == len * sz && |b| == len * sz && Units(a, sz, len) == Units(b, sz, len)
    ensures a == b
    decreases len
  {
    if len > 0 {
      OneMore(len, sz);
      SameFirstUnit(a, b, sz, len);
      UnitsAreInjective(a[sz..], b[sz..], sz, len - 1);
      assert a == a[..sz] + a[sz..] && b == b[..sz] + b[sz..];
    }
  }

  lemma {:induction false} SameFirstUnit(a: seq<Byte>, b: seq<Byte>, sz: nat, len: nat)
    requires len > 0 && |a| >= sz && |b| >= sz && Units(a, sz, len) == Units(b, sz, len)
    ensures a[..sz] == b[..sz] && Units(a[sz..], sz, len - 1) == Units(b[sz..], sz, len - 1)
  {
    FirstUnit(a, sz, len);
    FirstUnit(b, sz, len);
    LowBytesOfNumber(a[..sz]);
    LowBytesOfNumber(b[..sz]);
  }

  /** The unit at `i`. */
  function CharAt(s: Const, i: nat): (v: nat)
    requires s.StrC? && Valid(s) && i < s.len
    ensures Num(v) == Elements(s)[i] && Fits(v, s.sz)
  {
    UnitAt(s.bytes, s.sz, s.len, i);
    NumberFits(s.bytes[i * s.sz..i * s.sz + s.sz]);
    Number(s.bytes[i * s.sz..i * s.sz + s.sz])
  }

  // ----- Equal -----

  /** Constants of one type are always compared; where there is an answer, it tells whether they
    stand for the same value. */
  method Equal(e1: Const, e2: Const) returns (cmp: Option<bool>)
    requires Valid(e1) && Valid(e2)
    ensures cmp.Some? ==> (cmp.value <==> Denote(e1) == Denote(e2))
    ensures TypeOf(e1) == TypeOf(e2) ==> cmp.Some?
    decreases e1, e2
  {
    match (e1, e2) {
      case (NullC(_), NullC(_)) => cmp := Some(true);
      case (NullC(_), StrC(_, len, _)) => cmp := Some(len == 0);
      case (NullC(_), ArrC(_, es)) => cmp := Some(|es| == 0);
      case (NullC(_), IntC(_, _)) => cmp := None;
      case (StrC(_, len, _), NullC(_)) => cmp := Some(len == 0);
      case (ArrC(_, es), NullC(_)) => cmp := Some(|es| == 0);
      case (IntC(_, _), NullC(_)) => cmp := None;
      case (StrC(sz1, len1, bytes1), StrC(sz2, len2, bytes2)) =>
        if sz1 != sz2 {
          cmp := None;
        } else {
          cmp := Some(len1 == len2 && bytes1 == bytes2);
          if Denote(e1) == Denote(e2) {
            assert |Units(bytes1, sz1, len1)| == |Units(bytes2, sz2, len2)|;
            UnitsAreInjective(bytes1, bytes2, sz1, len1);
          }
        }
      case (ArrC(_, es1), ArrC(_, es2)) => cmp := EqualArrays(e1, e2);
      case (ArrC(_, _), StrC(_, _, _)) => cmp := EqualStringArray(e2, e1);
      case (StrC(_, _, _), ArrC(_, _)) => cmp := EqualStringArray(e1, e2);
      case (IntC(_, v1), IntC(_, v2)) => cmp := Some(v1 == v2);
      case _ => cmp := None;
    }
  }

  method EqualArrays(e1: Const, e2: Const) returns (cmp: Option<bool>)
    requires e1.ArrC? && e2.ArrC? && Valid(e1) && Valid(e2)
    ensures cmp.Some? ==> (cmp.value <==> Denote(e1) == Denote(e2))
    ensures TypeOf(e1) == TypeOf(e2) ==> cmp.Some?
    decreases e1, e2, 0
  {
    var es1, es2 := e1.elements, e2.elements;
    if |es1| == 0 && |es2| == 0 {
      return Some(true);
    }
    if |es1| != |es2| {
      assert |DenoteAll(es1)| != |DenoteAll(es2)|;
      return Some(false);
    }
    for i := 0 to |es1|
      invariant forall k :: 0 <= k < i ==> Denote(es1[k]) == Denote(es2[k])
    {
      var v := Equal(es1[i], es2[i]);
      if v.None? {
        return None;
      }
      if !v.value {
        assert DenoteAll(es1)[i] != DenoteAll(es2)[i];
        return Some(false);
      }
    }
    assert DenoteAll(es1) == DenoteAll(es2);
    cmp := Some(true);
  }

  method EqualStringArray(e1: Const, e2: Const) returns (cmp: Option<bool>)
    requires e1.StrC? && e2.ArrC? && Valid(e1) && Valid(e2)
    ensures cmp.Some? ==> (cmp.value <==> Denote(e1) == Denote(e2))
    ensures TypeOf(e1) == TypeOf(e2) ==> cmp.Some?
  {
    var es2 := e2.elements;
    if e1.len != |es2| {
      assert |Elements(e1)| != |Elements(e2)|;
      return Some(false);
    }
    for i := 0 to e1.len
      invariant forall k :: 0 <= k < i ==> Elements(e1)[k] == Elements(e2)[k]
    {
      var c := CharAt(e1, i);
      if !es2[i].IntC? {
        return None;
      }
      if c != es2[i].v {
        assert Elements(e1)[i] != Elements(e2)[i];
        return Some(false);
      }
    }
    assert Elements(e1) == Elements(e2);
    cmp := Some(true);
  }

  // ----- ArrayLength, Index, Slice -----

  function ArrayLength(e1: Const): (r: Option<nat>)
    ensures r.Some? ==> Denote(e1).List? && r.value == |Elements(e1)|
    ensures r.None? <==> e1.IntC? || e1.NullC?
  {
    match e1
    case StrC(_, len, _) => Some(len)
    case ArrC(_, elements) => Some(|elements|)
    case _ => None
  }

  function Index(e1: Const, i: nat): (r: Option<Const>)
    requires Valid(e1)
    ensures r.Some? <==> !e1.IntC? && i < |Elements(e1)|
    ensures r.Some? ==> Denote(r.value) == Elements(e1)[i]
    ensures r.Some? ==> Valid(r.value) && TypeOf(e1) == Array(TypeOf(r.value))
  {
    match e1
    case StrC(sz, len, _) => if i >= len then None else Some(IntC(Int(sz, true), CharAt(e1, i)))
    case ArrC(_, elements) => if i >= |elements| then None else Some(elements[i])
    case _ => None
  }

  function UnitSlice(bytes: seq<Byte>, sz: nat, len: nat, lwr: nat, upr: nat): (bs: seq<Byte>)
    requires sz > 0 && |bytes| == len * sz && lwr <= upr <= len
    ensures |bs| == (upr - lwr) * sz && Units(bs, sz, upr - lwr) == Units(bytes, sz, len)[lwr..upr]
  {
    SliceUnits(bytes, sz, len, lwr, upr);
    bytes[lwr * sz..upr * sz]
  }

  /** There are no slices of null. */
  function Slice(e1: Const, lwr: nat, upr: nat): (r: Option<Const>)
    requires Valid(e1)
    ensures r.Some? <==> (e1.StrC? || e1.ArrC?) && lwr <= upr <= |Elements(e1)|
    ensures r.Some? ==>
      && Valid(r.value) && TypeOf(r.value) == TypeOf(e1)
      && !r.value.IntC? && Elements(r.value) == Elements(e1)[lwr..upr]
  {
    match e1
    case StrC(sz, len, bytes) =>
      if upr > len || lwr > upr then None
      else
        Some(StrC(sz, upr - lwr, UnitSlice(bytes, sz, len, lwr, upr)))
    case ArrC(ty, elements) =>
      if upr > |elements| || lwr > upr then None else Some(ArrC(ty, elements[lwr..upr]))
    case _ => None
  }

  lemma {:induction false} SliceUnits(bytes: seq<Byte>, sz: nat, len: nat, lwr: nat, upr: nat)
    requires sz > 0 && |bytes| == len * sz && lwr <= upr <= len
    ensures lwr * sz <= upr * sz <= |bytes| && upr * sz - lwr * sz == (upr - lwr) * sz
    ensures Units(bytes[lwr * sz..upr * sz], sz, upr - lwr) == Units(bytes, sz, len)[lwr..upr]
  {
    Ordered(lwr, upr, sz);
    Ordered(upr, len, sz);
    MiddleUnits(bytes, sz, len, lwr, upr, lwr * sz, upr * sz);
  }

  lemma {:induction false} MiddleUnits(bytes: seq<Byte>, sz: nat, len: nat, lwr: nat, upr: nat, p: nat, q: nat)
    requires sz > 0 && lwr <= upr <= len && p == lwr * sz && q - p == (upr - lwr) * sz && q == upr * sz
    requires p <= q <= |bytes| == len * sz
    ensures Units(bytes[p..q], sz, upr - lwr) == Units(bytes, sz, len)[lwr..upr]
  {
    var a, b, c := bytes[..p], bytes[p..q], bytes[q..];
    Ordered(upr, len, sz);
    ThreeParts(a, b, c, sz, lwr, upr - lwr, len - upr);
    assert bytes == a + b + c;
  }

  lemma {:induction false} ThreeParts(a: seq<Byte>, b: seq<Byte>, c: seq<Byte>, sz: nat, l: nat, m: nat, n: nat)
    requires sz > 0 && |a| == l * sz && |b| == m * sz && |c| == n * sz
    ensures Units(a + b + c, sz, l + m + n)[l..l + m] == Units(b, sz, m)
  {
    UnitsConcat(a, b, sz, l, m);
    UnitsConcat(a + b, c, sz, l + m, n);
  }

  // ----- Cat -----

  /** Code units of a character for strings with units of the given size. */
  type Utf = (nat, nat) -> seq<nat>

  function UnitBytes(vs: seq<nat>, sz: nat): (bs: seq<Byte>)
    ensures |bs| == |vs| * sz
  {
    if vs == [] then [] else LowBytes(vs[0], sz) + UnitBytes(vs[1..], sz)
  }

  predicate AllInts(cs: seq<Const>) {
    forall i :: 0 <= i < |cs| ==> cs[i].IntC?
  }

  function Values(cs: seq<Const>): (vs: seq<nat>)
    requires AllInts(cs)
    ensures |vs| == |cs|
  {
    seq(|cs|, i requires 0 <= i < |cs| => cs[i].v)
  }

  function SizeOf(t: Type): nat {
    if t.Int? then t.size else 2 * 8
  }

  /** `null ~ v` and `v ~ null`, where null has type `t`. */
  function OneElement(utf: Utf, t: Type, e: Const): Const
    requires t.Array? && e.IntC? && e.ty.Int?
  {
    var sz := SizeOf(t.elem);
    if !e.ty.char_ then ArrC(Array(e.ty), [e])
    else if t.elem == e.ty then StrC(sz, 1, LowBytes(e.v, sz))
    else StrC(sz, |utf(sz, e.v)|, UnitBytes(utf(sz, e.v), sz))
  }

  /** A null of type `t` and a string. */
  function NullString(t: Type, e: Const): Const {
    if t == Array(TypeOf(e)) then ArrC(t, [e]) else e
  }

  function CatOf(utf: Utf, e1: Const, e2: Const): Option<Const>
    requires Valid(e1) && Valid(e2)
  {
    var t1, t2 := TypeOf(e1), TypeOf(e2);
    if e1.NullC? && e2.IntC? then Some(OneElement(utf, t1, e2))
    else if e1.IntC? && e2.NullC? then Some(OneElement(utf, t2, e1))
    else if e1.NullC? && e2.NullC? then Some(e1)
    else if e1.StrC? && e2.StrC? then
      if e1.sz != e2.sz then None else Some(StrC(e1.sz, e1.len + e2.len, e1.bytes + e2.bytes))
    else if e2.StrC? && e1.ArrC? && t1.elem.Int? then
      if !AllInts(e1.elements) then None
      else Some(StrC(e2.sz, |e1.elements| + e2.len, UnitBytes(Values(e1.elements), e2.sz) + e2.bytes))
    else if e1.StrC? && e2.ArrC? && t2.elem.Int? then
      if !AllInts(e2.elements) then None
      else Some(StrC(e1.sz, e1.len + |e2.elements|, e1.bytes + UnitBytes(Values(e2.elements), e1.sz)))
    else if e1.StrC? && e2.IntC? then
      if e1.sz == SizeOf(t2) then Some(StrC(e1.sz, e1.len + 1, e1.bytes + LowBytes(e2.v, e1.sz)))
      else Some(StrC(e1.sz, e1.len + |utf(e1.sz, e2.v)|, e1.bytes + UnitBytes(utf(e1.sz, e2.v), e1.sz)))
    else if e1.IntC? && e2.StrC? then Some(StrC(e2.sz, 1 + e2.len, LowBytes(e1.v, e2.sz) + e2.bytes))
    else if e1.ArrC? && e2.ArrC? && t1.elem == t2.elem then Some(ArrC(t1, e1.elements + e2.elements))
    else if e1.ArrC? && e2.NullC? && t1.elem == t2.elem then Some(e1)
    else if e1.NullC? && e2.ArrC? && t1.elem == t2.elem then Some(e2)
    else if e1.ArrC? && t1.elem == t2 then Some(ArrC(t1, e1.elements + [e2]))
    else if e1.NullC? && t1.elem == t2 then Some(ArrC(t1, [e2]))
    else if e2.ArrC? && t2.elem == t1 then Some(ArrC(t2, [e1] + e2.elements))
    else if e1.NullC? && e2.StrC? then Some(NullString(t1, e2))
    else if e1.StrC? && e2.NullC? then Some(NullString(t2, e1))
    else None
  }

  /** Copy bytes into the buffer. */
  method Memcpy(s: array<Byte>, p: nat, bs: seq<Byte>)
    requires p + |bs| <= s.Length
    modifies s
    ensures s[p..p + |bs|] == bs && s[..p] == old(s[..p]) && s[p + |bs|..] == old(s[p + |bs|..])
  {
    for k := 0 to |bs|
      invariant s[p..p + k] == bs[..k] && s[..p] == old(s[..p]) && s[p + k..] == old(s[p + k..])
    {
      s[p + k] := bs[k];
    }
  }

  lemma {:induction false} UnitBytesNext(vs: seq<nat>, sz: nat, i: nat)
    requires i < |vs|
    ensures UnitBytes(vs[..i + 1], sz) == UnitBytes(vs[..i], sz) + LowBytes(vs[i], sz)
  {
    if i == 0 {
      assert vs[..1][1..] == [] && vs[..0] == [];
    } else {
      UnitBytesNext(vs[1..], sz, i - 1);
      assert vs[..i + 1][1..] == vs[1..][..i] && vs[..i][1..] == vs[1..][..i - 1];
    }
  }

  /** The bytes of the first `i` elements. */
  function BytesUpTo(elements: seq<Const>, sz: nat, i: nat): (bs: seq<Byte>)
    requires i <= |elements| && AllInts(elements[..i])
    ensures |bs| == i * sz
  {
    UnitBytes(Values(elements[..i]), sz)
  }

  lemma {:induction false} NextElement(elements: seq<Const>, sz: nat, i: nat)
    requires i < |elements| && AllInts(elements[..i]) && elements[i].IntC?
    ensures AllInts(elements[..i + 1]) && i * sz + sz <= |elements| * sz
    ensures BytesUpTo(elements, sz, i + 1) == BytesUpTo(elements, sz, i) + LowBytes(elements[i].v, sz)
  {
    OneMore(i + 1, sz);
    Ordered(i + 1, |elements|, sz);
    var vs := Values(elements[..i + 1]);
    UnitBytesNext(vs, sz, i);
    assert vs[..i] == Values(elements[..i]) && vs[..i + 1] == vs;
  }

  /** Copy the values of array elements as units of a string. */
  method ElementBytes(elements: seq<Const>, sz: nat) returns (ok: bool, bytes: seq<Byte>)
    ensures ok <==> AllInts(elements)
    ensures ok ==> bytes == UnitBytes(Values(elements), sz)
  {
    var s := new Byte[|elements| * sz];
    var q := 0;
    for i := 0 to |elements|
      invariant AllInts(elements[..i]) && q == |BytesUpTo(elements, sz, i)| <= s.Length
      invariant s[..q] == BytesUpTo(elements, sz, i)
    {
      if !elements[i].IntC? {
        return false, [];
      }
      NextElement(elements, sz, i);
      ghost var before := s[..q];
      var bs := LowBytes(elements[i].v, sz);
      Memcpy(s, q, bs);
      assert s[..q + sz] == before + bs;
      q := q + sz;
    }
    assert elements[..|elements|] == elements && s[..q] == s[..];
    ok, bytes := true, s[..];
  }

  /** A string of the units of two pieces, with a zero unit behind it. */
  method Join(sz: nat, len: nat, bs1: seq<Byte>, bs2: seq<Byte>) returns (es: Const)
    requires |bs1| + |bs2| == len * sz
    ensures es == StrC(sz, len, bs1 + bs2)
  {
    OneMore(len + 1, sz);
    var s := new Byte[(len + 1) * sz];
    Memcpy(s, 0, bs1);
    Memcpy(s, |bs1|, bs2);
    Memcpy(s, len * sz, LowBytes(0, sz));
    assert s[..len * sz] == s[0..|bs1|] + s[|bs1|..|bs1| + |bs2|];
    es := StrC(sz, len, s[..len * sz]);
  }

  lemma {:induction false} Lengths(m: nat, n: nat, sz: nat)
    ensures (m + n) * sz == m * sz + n * sz
  {}

  /** A null of type `t` and a number or character. */
  method FromUnit(utf: Utf, t: Type, e: Const) returns (c: Const)
    requires t.Array? && e.IntC? && e.ty.Int?
    ensures c == OneElement(utf, t, e)
  {
    if e.ty.char_ {
      var sz := SizeOf(t.elem);
      var units := if t.elem == e.ty then LowBytes(e.v, sz) else UnitBytes(utf(sz, e.v), sz);
      c := Join(sz, if t.elem == e.ty then 1 else |utf(sz, e.v)|, units, []);
      assert units + [] == units;
    } else {
      c := ArrC(Array(e.ty), [e]);
    }
  }

  /** A string and a character. */
  method AppendUnit(utf: Utf, e1: Const, e2: Const) returns (es: Const)
    requires Valid(e1) && e1.StrC? && e2.IntC?
    ensures es == if e1.sz == SizeOf(e2.ty) then StrC(e1.sz, e1.len + 1, e1.bytes + LowBytes(e2.v, e1.sz))
                  else StrC(e1.sz, e1.len + |utf(e1.sz, e2.v)|, e1.bytes + UnitBytes(utf(e1.sz, e2.v), e1.sz))
  {
    var sz, homoConcat := e1.sz, e1.sz == SizeOf(e2.ty);
    var len := if homoConcat then 1 else |utf(sz, e2.v)|;
    Lengths(e1.len, len, sz);
    es := Join(sz, e1.len + len, e1.bytes, if homoConcat then LowBytes(e2.v, sz) else UnitBytes(utf(sz, e2.v), sz));
  }

  /** Two array literals or strings, one of them perhaps a literal of numbers. */
  method CatArrays(e1: Const, e2: Const) returns (e: Option<Const>)
    requires Valid(e1) && Valid(e2) && (e1.StrC? || e1.ArrC?) && (e2.StrC? || e2.ArrC?)
    requires e1.ArrC? ==> e2.StrC? && e1.ty.elem.Int?
    requires e2.ArrC? ==> e2.ty.elem.Int?
    ensures forall utf :: e == CatOf(utf, e1, e2)
  {
    if e1.StrC? && e2.StrC? {
      if e1.sz != e2.sz {
        return None;
      }
      Lengths(e1.len, e2.len, e1.sz);
      var es := Join(e1.sz, e1.len + e2.len, e1.bytes, e2.bytes);
      e := Some(es);
    } else if e2.StrC? {
      var ok, bs := ElementBytes(e1.elements, e2.sz);
      if !ok {
        return None;
      }
      Lengths(|e1.elements|, e2.len, e2.sz);
      var es := Join(e2.sz, |e1.elements| + e2.len, bs, e2.bytes);
      e := Some(es);
    } else {
      var ok, bs := ElementBytes(e2.elements, e1.sz);
      if !ok {
        return None;
      }
      Lengths(e1.len, |e2.elements|, e1.sz);
      var es := Join(e1.sz, e1.len + |e2.elements|, e1.bytes, bs);
      e := Some(es);
    }
  }

  /** The new constant, if the operands can be folded. A character that is appended to a string
    of another width, or that alone is to be a string of another width, is encoded; one that
    comes before a string is not. */
  method Cat(utf: Utf, e1: Const, e2: Const) returns (e: Option<Const>)
    requires Valid(e1) && Valid(e2)
    ensures e == CatOf(utf, e1, e2)
    ensures e1.StrC? && e2.IntC? ==> e.Some? && MakesLonger(utf, e1, e2, e.value)
    ensures e1.IntC? && e2.StrC? ==> e.Some? && Makes(Elements(e.value), [], [e1.v], Elements(e2), e2.sz)
    ensures e1.NullC? && e2.IntC? ==> e.Some? && MakesOne(utf, e1, e2, e.value)
    ensures e1.IntC? && e2.NullC? ==> e.Some? && MakesOne(utf, e2, e1, e.value)
    ensures e1.StrC? && e2.StrC? ==> (e.None? <==> e1.sz != e2.sz)
    ensures e1.NullC? && e2.StrC? && e1.ty.elem != TypeOf(e2) ==> e == Some(e2)
    ensures e1.StrC? && e2.NullC? && e2.ty.elem != TypeOf(e1) ==> e == Some(e1)
  {
    if e1.StrC? && e2.IntC? { StringAndUnit(utf, e1, e2); }
    if e1.IntC? && e2.StrC? { UnitAndString(utf, e1, e2); }
    if e1.NullC? && e2.IntC? { OneElementMakes(utf, e1, e2); }
    if e1.IntC? && e2.NullC? { OneElementMakes(utf, e2, e1); }
    var t1, t2 := TypeOf(e1), TypeOf(e2);
    if e1.NullC? && e2.IntC? {
      var c := FromUnit(utf, t1, e2);
      e := Some(c);
    } else if e1.IntC? && e2.NullC? {
      var c := FromUnit(utf, t2, e1);
      e := Some(c);
    } else if e1.NullC? && e2.NullC? {
      e := Some(e1);
    } else if (e1.StrC? && e2.StrC?) || (e2.StrC? && e1.ArrC? && t1.elem.Int?)
           || (e1.StrC? && e2.ArrC? && t2.elem.Int?) {
      e := CatArrays(e1, e2);
    } else if e1.StrC? && e2.IntC? {
      var es := AppendUnit(utf, e1, e2);
      e := Some(es);
    } else if e1.IntC? && e2.StrC? {
      Lengths(1, e2.len, e2.sz);
      var es := Join(e2.sz, 1 + e2.len, LowBytes(e1.v, e2.sz), e2.bytes);
      e := Some(es);
    } else {
      e := CatElements(e1, e2);
    }
  }

  /** The branches for array literals, which copy the list of elements and change the copy. */
  method CatElements(e1: Const, e2: Const) returns (e: Option<Const>)
    requires Valid(e1) && Valid(e2) && !(e1.NullC? && e2.NullC?) && !(e1.StrC? && e2.StrC?)
    requires e1.IntC? ==> !e2.NullC? && !e2.StrC?
    requires e2.IntC? ==> !e1.NullC? && !e1.StrC?
    requires !(e2.StrC? && e1.ArrC? && e1.ty.elem.Int?) && !(e1.StrC? && e2.ArrC? && e2.ty.elem.Int?)
    ensures forall utf :: e == CatOf(utf, e1, e2)
  {
    var t1, t2 := TypeOf(e1), TypeOf(e2);
    if e1.ArrC? && e2.ArrC? && t1.elem == t2.elem {
      var elements := e1.elements;
      elements := elements + e2.elements;
      e := Some(ArrC(t1, elements));
    } else if e1.ArrC? && e2.NullC? && t1.elem == t2.elem {
      e := Some(ArrC(e1.ty, e1.elements));
    } else if e1.NullC? && e2.ArrC? && t1.elem == t2.elem {
      e := Some(ArrC(e2.ty, e2.elements));
    } else if (e1.ArrC? || e1.NullC?) && t1.elem == t2 {
      var elements := if e1.ArrC? then e1.elements else [];
      assert [] + [e2] == [e2];
      elements := elements + [e2];
      e := Some(ArrC(t1, elements));
    } else if e2.ArrC? && t2.elem == t1 {
      var elements := e2.elements;
      elements := [e1] + elements;
      e := Some(ArrC(t2, elements));
    } else if e1.NullC? && e2.StrC? {
      var es := e2;
      if t1 == Array(TypeOf(es)) {
        es := ArrC(t1, [es]);
      }
      e := Some(es);
    } else if e1.StrC? && e2.NullC? {
      var es := e1;
      if t2 == Array(TypeOf(es)) {
        es := ArrC(t2, [es]);
      }
      e := Some(es);
    } else {
      e := None;
    }
  }

  // ----- what concatenation means -----

  function Nums(vs: seq<nat>): (s: seq<Val>)
    ensures |s| == |vs|
  {
    seq(|vs|, i requires 0 <= i < |vs| => Num(vs[i]))
  }

  predicate UnitsFit(vs: seq<nat>, sz: nat) {
    forall i :: 0 <= i < |vs| ==> Fits(vs[i], sz)
  }

  /** The elements are those before, the given numbers and those after, if and only if the numbers
    fit in units of a size. */
  predicate Makes(us: seq<Val>, before: seq<Val>, vs: seq<nat>, after: seq<Val>, sz: nat) {
    us == before + Nums(vs) + after <==> UnitsFit(vs, sz)
  }

  /** The same for a string and a number or character. */
  predicate MakesLonger(utf: Utf, s: Const, c: Const, e: Const)
    requires s.StrC? && c.IntC?
  {
    s.sz > 0 ==>
      Makes(Elements(e), Elements(s), if s.sz == SizeOf(c.ty) then [c.v] else utf(s.sz, c.v), [], s.sz)
  }

  /** The same for a null and a number or character alone. */
  predicate MakesOne(utf: Utf, n: Const, c: Const, e: Const)
    requires n.NullC? && n.ty.Array? && c.IntC? && c.ty.Int?
  {
    var sz := SizeOf(n.ty.elem);
    if !c.ty.char_ || n.ty.elem == c.ty then Elements(e) == [Num(c.v)]
    else sz > 0 ==> Makes(Elements(e), [], utf(sz, c.v), [], sz)
  }

  lemma {:induction false} UnitsOfValues(vs: seq<nat>, sz: nat)
    requires sz > 0
    ensures Units(UnitBytes(vs, sz), sz, |vs|) == Nums(vs) <==> UnitsFit(vs, sz)
  {
    if vs != [] {
      UnitsOfValues(vs[1..], sz);
      UnitsConcat(LowBytes(vs[0], sz), UnitBytes(vs[1..], sz), sz, 1, |vs| - 1);
      LowBytesUnit(vs[0], sz);
      FirstOfNums(vs, sz);
      SamePairs(Units(LowBytes(vs[0], sz), sz, 1), [Num(vs[0])],
                Units(UnitBytes(vs[1..], sz), sz, |vs| - 1), Nums(vs[1..]));
    }
  }

  lemma {:induction false} FirstOfNums(vs: seq<nat>, sz: nat)
    requires vs != []
    ensures Nums(vs) == [Num(vs[0])] + Nums(vs[1..])
    ensures UnitsFit(vs, sz) <==> Fits(vs[0], sz) && UnitsFit(vs[1..], sz)
  {
    if UnitsFit(vs[1..], sz) {
      forall i | 0 < i < |vs| ensures Fits(vs[i], sz) { assert vs[i] == vs[1..][i - 1]; }
    }
  }

  lemma {:induction false} SamePairs(a: seq<Val>, a': seq<Val>, b: seq<Val>, b': seq<Val>)
    requires |a| == |a'|
    ensures a + b == a' + b' <==> a == a' && b == b'
  {
    if a + b == a' + b' {
      assert a == (a + b)[..|a|] && b == (a + b)[|a|..];
      assert a' == (a' + b')[..|a'|] && b' == (a' + b')[|a'|..];
    }
  }

  lemma {:induction false} UnitBytesOne(v: nat, sz: nat)
    ensures UnitBytes([v], sz) == LowBytes(v, sz)
  {
    assert [v][1..] == [];
  }

  /** Numbers behind units, in front of units, and alone. */
  lemma {:induction false} AppendMakes(bytes: seq<Byte>, len: nat, vs: seq<nat>, sz: nat)
    requires sz > 0 && |bytes| == len * sz
    ensures Makes(Units(bytes + UnitBytes(vs, sz), sz, len + |vs|), Units(bytes, sz, len), vs, [], sz)
  {
    UnitsConcat(bytes, UnitBytes(vs, sz), sz, len, |vs|);
    UnitsOfValues(vs, sz);
    MakesBetween(Units(bytes, sz, len), Units(UnitBytes(vs, sz), sz, |vs|), vs, [], sz);
    assert Units(bytes, sz, len) + Units(UnitBytes(vs, sz), sz, |vs|) + []
        == Units(bytes, sz, len) + Units(UnitBytes(vs, sz), sz, |vs|);
  }

  lemma {:induction false} MakesBetween(a: seq<Val>, us: seq<Val>, vs: seq<nat>, b: seq<Val>, sz: nat)
    requires |us| == |vs| && (us == Nums(vs) <==> UnitsFit(vs, sz))
    ensures Makes(a + us + b, a, vs, b, sz)
  {
    Cancels(a, us, Nums(vs), b);
  }

  lemma {:induction false} PrependMakes(vs: seq<nat>, bytes: seq<Byte>, len: nat, sz: nat)
    requires sz > 0 && |bytes| == len * sz
    ensures Makes(Units(UnitBytes(vs, sz) + bytes, sz, |vs| + len), [], vs, Units(bytes, sz, len), sz)
  {
    UnitsConcat(UnitBytes(vs, sz), bytes, sz, |vs|, len);
    UnitsOfValues(vs, sz);
    MakesBetween([], Units(UnitBytes(vs, sz), sz, |vs|), vs, Units(bytes, sz, len), sz);
    assert [] + Units(UnitBytes(vs, sz), sz, |vs|) == Units(UnitBytes(vs, sz), sz, |vs|);
  }

  lemma {:induction false} AloneMakes(sz: nat, vs: seq<nat>)
    requires sz > 0
    ensures Makes(Units(UnitBytes(vs, sz), sz, |vs|), [], vs, [], sz)
  {
    UnitsOfValues(vs, sz);
    MakesBetween([], Units(UnitBytes(vs, sz), sz, |vs|), vs, [], sz);
    assert [] + Units(UnitBytes(vs, sz), sz, |vs|) + [] == Units(UnitBytes(vs, sz), sz, |vs|);
  }

  lemma {:induction false} ElementsOf(sz: nat, len: nat, bytes: seq<Byte>)
    ensures Elements(StrC(sz, len, bytes)) == Units(bytes, sz, len)
  {}

  lemma {:induction false} StringLonger(utf: Utf, e1: Const, e2: Const, vs: seq<nat>)
    requires Valid(e1) && Valid(e2) && e1.StrC? && e2.IntC?
    requires vs == if e1.sz == SizeOf(e2.ty) then [e2.v] else utf(e1.sz, e2.v)
    ensures CatOf(utf, e1, e2) == Some(StrC(e1.sz, e1.len + |vs|, e1.bytes + UnitBytes(vs, e1.sz)))
  {
    UnitBytesOne(e2.v, e1.sz);
  }

  lemma {:induction false} StringAndUnit(utf: Utf, e1: Const, e2: Const)
    requires Valid(e1) && Valid(e2) && e1.StrC? && e2.IntC?
    ensures var e := CatOf(utf, e1, e2); e.Some? && MakesLonger(utf, e1, e2, e.value)
  {
    var vs := if e1.sz == SizeOf(e2.ty) then [e2.v] else utf(e1.sz, e2.v);
    StringLonger(utf, e1, e2, vs);
    AppendMakes(e1.bytes, e1.len, vs, e1.sz);
    ElementsOf(e1.sz, e1.len + |vs|, e1.bytes + UnitBytes(vs, e1.sz));
  }

  lemma {:induction false} UnitAndString(utf: Utf, e1: Const, e2: Const)
    requires Valid(e1) && Valid(e2) && e1.IntC? && e2.StrC?
    ensures var e := CatOf(utf, e1, e2); e.Some? && Makes(Elements(e.value), [], [e1.v], Elements(e2), e2.sz)
  {
    UnitBytesOne(e1.v, e2.sz);
    PrependMakes([e1.v], e2.bytes, e2.len, e2.sz);
    ElementsOf(e2.sz, 1 + e2.len, LowBytes(e1.v, e2.sz) + e2.bytes);
  }

  lemma {:induction false} OneElementMakes(utf: Utf, n: Const, c: Const)
    requires n.NullC? && c.IntC? && Valid(n) && Valid(c)
    ensures MakesOne(utf, n, c, OneElement(utf, n.ty, c))
  {
    var sz := SizeOf(n.ty.elem);
    if c.ty.char_ && n.ty.elem == c.ty {
      LowBytesUnit(c.v, sz);
      ElementsOf(sz, 1, LowBytes(c.v, sz));
    } else if c.ty.char_ && sz > 0 {
      AloneMakes(sz, utf(sz, c.v));
      ElementsOf(sz, |utf(sz, c.v)|, UnitBytes(utf(sz, c.v), sz));
    }
  }

  /** The elements that an operand contributes to an array of type `t`: its own, or itself. */
  function Contributes(t: Type, c: Const): seq<Val> {
    if TypeOf(c) == t then Elements(c) else [Denote(c)]
  }

  /** Arrays of one type, or an array and an element of it. */
  predicate Matching(t: Type, e1: Const, e2: Const) {
    && t.Array? && (TypeOf(e1) == t || Array(TypeOf(e1)) == t) && (TypeOf(e2) == t || Array(TypeOf(e2)) == t)
    && (TypeOf(e1) == t || TypeOf(e2) == t)
  }

  lemma {:induction false} LowBytesUnit(v: nat, sz: nat)
    requires sz > 0
    ensures Units(LowBytes(v, sz), sz, 1) == [Num(v)] <==> Fits(v, sz)
  {
    NumberOfLowBytes(v, sz);
    assert LowBytes(v, sz)[..sz] == LowBytes(v, sz);
    var us := Units(LowBytes(v, sz), sz, 1);
    assert us[0] == Num(Number(LowBytes(v, sz))) && (us == [Num(v)] <==> us[0] == Num(v));
  }

  lemma {:induction false} TypesAreFinite(t: Type)
    ensures t != Array(t)
  {
    if t.Array? { TypesAreFinite(t.elem); }
  }

  lemma {:induction false} Appended(cs: seq<Const>, ds: seq<Const>)
    ensures DenoteAll(cs + ds) == DenoteAll(cs) + DenoteAll(ds)
  {
    forall i | 0 <= i < |cs + ds|
      ensures DenoteAll(cs + ds)[i] == (DenoteAll(cs) + DenoteAll(ds))[i]
    {
      assert (cs + ds)[i] == if i < |cs| then cs[i] else ds[i - |cs|];
    }
  }

  lemma {:induction false} ValuesDenoted(cs: seq<Const>, sz: nat)
    requires AllInts(cs)
    ensures DenoteAll(cs) == Nums(Values(cs))
    ensures AllFit(cs, sz) <==> UnitsFit(Values(cs), sz)
  {
    var vs := Values(cs);
    if UnitsFit(vs, sz) {
      forall i | 0 <= i < |cs| ensures Fits(cs[i].v, sz) { assert Fits(vs[i], sz); }
    }
  }

  /** Concatenation of matching operands gives the array of what they contribute, except for a
    null that is to be an element of a null array: that is lost. */
  lemma {:induction false} CatDenotes(utf: Utf, t: Type, e1: Const, e2: Const, e: Const)
    requires Valid(e1) && Valid(e2) && Matching(t, e1, e2) && CatOf(utf, e1, e2) == Some(e)
    ensures !e.IntC? && (Elements(e) == Contributes(t, e1) + Contributes(t, e2)
                         <==> !(e1.NullC? && e2.NullC? && e1.ty != e2.ty))
  {
    TypesAreFinite(TypeOf(e1));
    TypesAreFinite(TypeOf(e2));
    if e1.IntC? || e2.IntC? {
      CatUnit(utf, t, e1, e2, e);
    } else if TypeOf(e1) == TypeOf(e2) {
      CatSame(utf, t, e1, e2, e);
    } else {
      CatElement(utf, t, e1, e2, e);
    }
  }

  /** `cast(int[][])null ~ cast(int[])null` is folded to no elements where there should be one. */
  lemma {:induction false} NullElementIsLost(utf: Utf, t: Type, e1: Const, e2: Const)
    requires t == Array(Array(Int(4, false))) && e1 == NullC(t) && e2 == NullC(t.elem)
    ensures Valid(e1) && Valid(e2) && Matching(t, e1, e2)
    ensures CatOf(utf, e1, e2) == Some(e1) && Elements(e1) == []
    ensures Contributes(t, e1) + Contributes(t, e2) == [List([])]
  {
    var d := Int(4, false);
    assert TypeOf(e1) == Array(Array(d)) && TypeOf(e2) == Array(d);
    assert Array(d) != Array(Array(d)) by { TypesAreFinite(Array(d)); }
    assert Contributes(t, e1) == [] && Contributes(t, e2) == [Denote(e2)];
  }

  lemma {:induction false} CatUnit(utf: Utf, t: Type, e1: Const, e2: Const, e: Const)
    requires Valid(e1) && Valid(e2) && Matching(t, e1, e2) && CatOf(utf, e1, e2) == Some(e)
    requires e1.IntC? || e2.IntC?
    ensures !e.IntC? && Elements(e) == Contributes(t, e1) + Contributes(t, e2)
  {
    var unit, whole := if e1.IntC? then e1 else e2, if e1.IntC? then e2 else e1;
    if whole.StrC? {
      LowBytesUnit(unit.v, whole.sz);
      if e1.IntC? {
        UnitsConcat(LowBytes(unit.v, whole.sz), whole.bytes, whole.sz, 1, whole.len);
      } else {
        UnitsConcat(whole.bytes, LowBytes(unit.v, whole.sz), whole.sz, whole.len, 1);
      }
    } else if whole.NullC? {
      if unit.ty.char_ { LowBytesUnit(unit.v, unit.ty.size); }
    } else {
      Appended(whole.elements, [unit]);
      Appended([unit], whole.elements);
    }
  }

  lemma {:induction false} CatSame(utf: Utf, t: Type, e1: Const, e2: Const, e: Const)
    requires Valid(e1) && Valid(e2) && t.Array? && TypeOf(e1) == t == TypeOf(e2) && CatOf(utf, e1, e2) == Some(e)
    ensures Valid(e) && TypeOf(e) == t && Elements(e) == Elements(e1) + Elements(e2)
  {
    if e1.StrC? && e2.StrC? {
      UnitsConcat(e1.bytes, e2.bytes, e1.sz, e1.len, e2.len);
    } else if e1.StrC? && e2.ArrC? {
      TypedElementsFit(e2, e1.sz);
      CatStringArray(utf, e1, e2, e);
    } else if e1.ArrC? && e2.StrC? {
      TypedElementsFit(e1, e2.sz);
      CatArrayString(utf, e1, e2, e);
    } else if e1.ArrC? && e2.ArrC? {
      Appended(e1.elements, e2.elements);
    }
  }

  lemma {:induction false} CatElement(utf: Utf, t: Type, e1: Const, e2: Const, e: Const)
    requires Valid(e1) && Valid(e2) && Matching(t, e1, e2) && CatOf(utf, e1, e2) == Some(e)
    requires !e1.IntC? && !e2.IntC? && TypeOf(e1) != TypeOf(e2)
    ensures !e.IntC? && (Elements(e) == Contributes(t, e1) + Contributes(t, e2) <==> !(e1.NullC? && e2.NullC?))
  {
    if e1.ArrC? { Appended(e1.elements, [e2]); }
    if e2.ArrC? { Appended([e1], e2.elements); }
  }

  predicate AllFit(cs: seq<Const>, sz: nat)
    requires AllInts(cs)
  {
    forall i :: 0 <= i < |cs| ==> Fits(cs[i].v, sz)
  }

  /** A string and an array of integers of any size: exact just when the integers fit the units of
    the string. */
  lemma {:induction false} CatStringArray(utf: Utf, e1: Const, e2: Const, e: Const)
    requires Valid(e1) && Valid(e2) && CatOf(utf, e1, e2) == Some(e)
    requires e1.StrC? && e2.ArrC? && e2.ty.elem.Int?
    ensures AllInts(e2.elements) && e.StrC? && Valid(e) && e.sz == e1.sz
    ensures Elements(e) == Elements(e1) + Elements(e2) <==> AllFit(e2.elements, e1.sz)
  {
    Lengths(e1.len, |e2.elements|, e1.sz);
    CatUnitsAfter(e1, e2.elements, e.bytes);
  }

  lemma {:induction false} CatArrayString(utf: Utf, e1: Const, e2: Const, e: Const)
    requires Valid(e1) && Valid(e2) && CatOf(utf, e1, e2) == Some(e)
    requires e1.ArrC? && e2.StrC? && e1.ty.elem.Int?
    ensures AllInts(e1.elements) && e.StrC? && Valid(e) && e.sz == e2.sz
    ensures Elements(e) == Elements(e1) + Elements(e2) <==> AllFit(e1.elements, e2.sz)
  {
    Lengths(|e1.elements|, e2.len, e2.sz);
    CatUnitsBefore(e1.elements, e2, e.bytes);
  }

  lemma {:induction false} CatUnitsAfter(str: Const, cs: seq<Const>, bytes: seq<Byte>)
    requires str.StrC? && Valid(str) && AllInts(cs) && bytes == str.bytes + UnitBytes(Values(cs), str.sz)
    ensures Units(bytes, str.sz, str.len + |cs|) == Elements(str) + DenoteAll(cs)
       <==> AllFit(cs, str.sz)
  {
    ValuesDenoted(cs, str.sz);
    AppendMakes(str.bytes, str.len, Values(cs), str.sz);
    NothingBetween(Elements(str), DenoteAll(cs));
  }

  lemma {:induction false} NothingBetween(a: seq<Val>, b: seq<Val>)
    ensures a + b + [] == a + b == [] + a + b
  {}

  lemma {:induction false} CatUnitsBefore(cs: seq<Const>, str: Const, bytes: seq<Byte>)
    requires str.StrC? && Valid(str) && AllInts(cs) && bytes == UnitBytes(Values(cs), str.sz) + str.bytes
    ensures Units(bytes, str.sz, |cs| + str.len) == DenoteAll(cs) + Elements(str)
       <==> AllFit(cs, str.sz)
  {
    ValuesDenoted(cs, str.sz);
    PrependMakes(Values(cs), str.bytes, str.len, str.sz);
    NothingBetween(DenoteAll(cs), Elements(str));
  }

  lemma {:induction false} TypedElementsFit(c: Const, sz: nat)
    requires Valid(c) && c.ArrC? && c.ty == Array(Int(sz, true))
    ensures AllInts(c.elements) && AllFit(c.elements, sz)
  {
    forall i | 0 <= i < |c.elements|
      ensures c.elements[i].IntC? && Fits(c.elements[i].v, sz)
    {
      assert Valid(c.elements[i]) && TypeOf(c.elements[i]) == Int(sz, true);
    }
  }

  lemma {:induction false} Cancels(a: seq<Val>, b: seq<Val>, b': seq<Val>, c: seq<Val>)
    requires |b| == |b'|
    ensures a + b + c == a + b' + c <==> b == b'
    ensures a + b == a + b' <==> b == b'
    ensures b + c == b' + c <==> b == b'
  {
    assert b == (a + b + c)[|a|..|a| + |b|] && b' == (a + b' + c)[|a|..|a| + |b|];
    assert b == (a + b)[|a|..] && b' == (a + b')[|a|..];
    assert b == (b + c)[..|b|] && b' == (b' + c)[..|b|];
  }

  /** Matching operands are always folded, except for an array before a null that it is to be an
    element of. */
  lemma {:induction false} CatAnswers(utf: Utf, t: Type, e1: Const, e2: Const)
    requires Valid(e1) && Valid(e2) && Matching(t, e1, e2)
    ensures CatOf(utf, e1, e2).None? <==> e1.ArrC? && e2.NullC? && TypeOf(e2) == Array(TypeOf(e1))
  {
    TypesAreFinite(TypeOf(e1));
    TypesAreFinite(TypeOf(e2));
    if e1.ArrC? && e2.StrC? && e1.ty == TypeOf(e2) { TypedElementsFit(e1, e2.sz); }
    if e1.StrC? && e2.ArrC? && e2.ty == TypeOf(e1) { TypedElementsFit(e2, e1.sz); }
  }

  /** Slicing a concatenation gives the parts back. */
  lemma {:induction false} SlicesOfCat(utf: Utf, e1: Const, e2: Const, e: Const)
    requires Valid(e1) && Valid(e2) && TypeOf(e1).Array? && TypeOf(e1) == TypeOf(e2)
    requires CatOf(utf, e1, e2) == Some(e) && !e.NullC?
    ensures Valid(e)
    ensures
      var n := |Elements(e1)|;
      var s1, s2 := Slice(e, 0, n), Slice(e, n, |Elements(e)|);
      && s1.Some? && Elements(s1.value) == Elements(e1)
      && s2.Some? && Elements(s2.value) == Elements(e2)
  {
    CatSame(utf, TypeOf(e1), e1, e2, e);
    var n := |Elements(e1)|;
    Parts(Elements(e1), Elements(e2));
  }

  lemma {:induction false} Parts(a: seq<Val>, b: seq<Val>)
    ensures (a + b)[0..|a|] == a && (a + b)[|a|..|a + b|] == b
  {}
}
