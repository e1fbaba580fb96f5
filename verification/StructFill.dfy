/** Lowering of struct literals: zero stores that fill the alignment holes, followed by the
  stores of the fields. */
module StructFill {
  newtype Byte = x: int | 0 <= x < 256

  /** A store of some bytes at an offset from the start of the struct. */
  datatype Store = Store(offset: nat, bytes: seq<Byte>) {
    function End(): nat { offset + |bytes| }

    predicate Covers(b: int) { offset <= b < End() }

    predicate IsZero() { forall k :: 0 <= k < |bytes| ==> bytes[k] == 0 }
  }

  function Apply(mem: seq<Byte>, s: Store): (m: seq<Byte>)
    requires s.End() <= |mem|
    ensures |m| == |mem|
    ensures forall b :: 0 <= b < |mem| ==> m[b] == if s.Covers(b) then s.bytes[b - s.offset] else mem[b]
  {
    mem[..s.offset] + s.bytes + mem[s.End()..]
  }

  ghost predicate Inside(stores: seq<Store>, size: nat) {
    forall i :: 0 <= i < |stores| ==> stores[i].End() <= size
  }

  /** Memory after the stores have been carried out in order. */
  function Run(mem: seq<Byte>, stores: seq<Store>): (m: seq<Byte>)
    requires Inside(stores, |mem|)
    ensures |m| == |mem|
    decreases stores
  {
    if stores == [] then mem else Run(Apply(mem, stores[0]), stores[1..])
  }

  ghost predicate Covered(stores: seq<Store>, b: int) {
    exists i :: 0 <= i < |stores| && stores[i].Covers(b)
  }

  lemma {:induction false} RunAppend(mem: seq<Byte>, a: seq<Store>, b: seq<Store>)
    requires Inside(a, |mem|) && Inside(b, |mem|)
    ensures Inside(a + b, |mem|) && Run(mem, a + b) == Run(Run(mem, a), b)
    decreases a
  {
    if a == [] {
      assert a + b == b;
    } else {
      RunAppend(Apply(mem, a[0]), a[1..], b);
      assert (a + b)[1..] == a[1..] + b;
    }
  }

  /** Zero stores clear exactly the bytes they cover. */
  lemma {:induction false} RunZeros(mem: seq<Byte>, stores: seq<Store>, b: nat)
    requires Inside(stores, |mem|) && b < |mem|
    requires forall i :: 0 <= i < |stores| ==> stores[i].IsZero()
    ensures Run(mem, stores)[b] == if Covered(stores, b) then 0 else mem[b]
    decreases stores
  {
    if stores != [] {
      RunZeros(Apply(mem, stores[0]), stores[1..], b);
      CoveredSplit(stores[0], stores[1..], b);
      assert [stores[0]] + stores[1..] == stores;
    }
  }

  lemma {:induction false} CoveredSplit(s: Store, rest: seq<Store>, b: int)
    ensures Covered([s] + rest, b) <==> s.Covers(b) || Covered(rest, b)
  {
    var stores := [s] + rest;
    if s.Covers(b) {
      assert stores[0].Covers(b);
    }
    if Covered(rest, b) {
      var i :| 0 <= i < |rest| && rest[i].Covers(b);
      assert stores[i + 1].Covers(b);
    }
    if Covered(stores, b) {
      var i :| 0 <= i < |stores| && stores[i].Covers(b);
      assert i == 0 || rest[i - 1].Covers(b);
    }
  }

  // ----- filling one hole -----

  /** What `fillHole` promises about the stores it has generated when the offset has moved
    from `start` to `offset`. */
  ghost predicate Fills(stores: seq<Store>, start: nat, offset: nat, maxoff: nat) {
    && Inside(stores, maxoff)
    && (forall i :: 0 <= i < |stores| ==> stores[i].IsZero() && start - start % 4 <= stores[i].offset)
    && (forall b :: start <= b < offset ==> Covered(stores, b))
  }

  function Zeros(n: nat): (z: seq<Byte>)
    ensures |z| == n && forall k :: 0 <= k < n ==> z[k] == 0
  {
    seq(n, _ => 0)
  }

  /** Zero fill `offset0 .. offset2` with stores of four bytes at offsets divisible by four
    where possible; the returned offset is the end of what has been filled. */
  method FillHole(offset0: nat, offset2: nat, maxoff: nat) returns (stores: seq<Store>, offset: nat)
    requires offset2 <= maxoff
    ensures Fills(stores, offset0, offset, maxoff)
    ensures offset2 <= offset && offset0 <= offset
    ensures offset0 < offset2 ==> offset <= maxoff
    ensures offset2 <= offset0 ==> stores == [] && offset == offset0
  {
    stores, offset := [], offset0;
    var basealign := true;
    while offset < offset2
      invariant offset0 <= offset && Fills(stores, offset0, offset, maxoff)
      invariant offset0 < offset2 ==> offset <= maxoff
      invariant offset2 <= offset0 ==> stores == [] && offset == offset0
      invariant !basealign ==> maxoff - offset == 1 && offset0 < offset2
      decreases maxoff - offset, basealign
    {
      ghost var before := offset;
      if basealign {
        offset := offset - offset % 4;
      }
      basealign := true;
      var sz := maxoff - offset;
      var size: nat;
      match sz {
        case 1 => size := 1;
        case 2 => size := 2;
        case 3 =>
          size := 2;
          basealign := false;
        case _ => size := 4;
      }
      ghost var sofar := stores;
      stores := stores + [Store(offset, Zeros(size))];
      CoveredGrows(sofar, stores[|sofar|], offset0, before);
      offset := offset + size;
    }
  }

  lemma {:induction false} CoveredGrows(stores: seq<Store>, s: Store, start: nat, before: nat)
    requires forall b :: start <= b < before ==> Covered(stores, b)
    requires s.offset <= before
    ensures forall b :: start <= b < s.End() ==> Covered(stores + [s], b)
    ensures forall b :: start <= b < before ==> Covered(stores + [s], b)
  {
    forall b | start <= b && (b < before || b < s.End())
      ensures Covered(stores + [s], b)
    {
      if b < before {
        assert Covered(stores, b);
        var i :| 0 <= i < |stores| && stores[i].Covers(b);
        assert (stores + [s])[i].Covers(b);
      } else {
        assert (stores + [s])[|stores|].Covers(b);
      }
    }
  }

  // ----- the literal -----

  datatype Field = Field(offset: nat, size: nat) {
    function End(): nat { offset + size }

    predicate Holds(b: int) { offset <= b < End() }
  }

  datatype Element = Skipped | Supplied(bytes: seq<Byte>)

  /** The fields lie in the struct, and the elements parallel them. */
  ghost predicate WellFormed(fields: seq<Field>, elements: seq<Element>, size: nat) {
    && (forall i :: 0 <= i < |fields| ==> fields[i].End() <= size)
    && |elements| <= |fields|
    && (forall i :: 0 <= i < |elements| && elements[i].Supplied? ==> |elements[i].bytes| == fields[i].size)
  }

  ghost predicate InField(fields: seq<Field>, b: int) {
    exists i :: 0 <= i < |fields| && fields[i].Holds(b)
  }

  /** The stores of the supplied elements from number `i` on. */
  function FieldStores(fields: seq<Field>, elements: seq<Element>, i: nat): (s: seq<Store>)
    requires i <= |elements| <= |fields|
    decreases |elements| - i
  {
    if i == |elements| then []
    else if elements[i].Skipped? then FieldStores(fields, elements, i + 1)
    else [Store(fields[i].offset, elements[i].bytes)] + FieldStores(fields, elements, i + 1)
  }

  /** Element `i` is supplied and its byte at `b` is not overwritten by a later element. */
  ghost predicate Survives(fields: seq<Field>, elements: seq<Element>, i: nat, b: int)
    requires i < |elements| <= |fields|
  {
    && elements[i].Supplied? && fields[i].Holds(b)
    && forall j :: i < j < |elements| && elements[j].Supplied? ==> !fields[j].Holds(b)
  }

  ghost predicate Written(fields: seq<Field>, elements: seq<Element>, i: nat, b: int)
    requires i <= |elements| <= |fields|
  {
    exists j :: i <= j < |elements| && elements[j].Supplied? && fields[j].Holds(b)
  }

  lemma {:induction false} RunFields(mem: seq<Byte>, fields: seq<Field>, elements: seq<Element>, i: nat)
    requires WellFormed(fields, elements, |mem|) && i <= |elements|
    ensures Inside(FieldStores(fields, elements, i), |mem|)
    ensures var m := Run(mem, FieldStores(fields, elements, i));
            && (forall b :: 0 <= b < |mem| && !Written(fields, elements, i, b) ==> m[b] == mem[b])
            && (forall j, b :: i <= j < |elements| && Survives(fields, elements, j, b) ==>
                  m[b] == elements[j].bytes[b - fields[j].offset])
    decreases |elements| - i
  {
    if i < |elements| {
      var rest := FieldStores(fields, elements, i + 1);
      if elements[i].Skipped? {
        RunFields(mem, fields, elements, i + 1);
      } else {
        var s := Store(fields[i].offset, elements[i].bytes);
        var mid := Apply(mem, s);
        RunFields(mid, fields, elements, i + 1);
        assert ([s] + rest)[1..] == rest;
        forall b | 0 <= b < |mem| && !Written(fields, elements, i, b)
          ensures Run(mid, rest)[b] == mem[b]
        {
          assert !Written(fields, elements, i + 1, b);
          assert !fields[i].Holds(b);
        }
        forall j, b | i <= j < |elements| && Survives(fields, elements, j, b)
          ensures Run(mid, rest)[b] == elements[j].bytes[b - fields[j].offset]
        {
          if j == i {
            assert !Written(fields, elements, i + 1, b);
            assert s.Covers(b);
          }
        }
      }
    }
  }

  /** Memory after a struct literal: bytes outside every field are zero when the holes are
    filled and untouched otherwise, and supplied fields hold their values. */
  ghost predicate LiteralMemory(fields: seq<Field>, elements: seq<Element>, fillHoles: bool, before: seq<Byte>,
                                after: seq<Byte>)
    requires WellFormed(fields, elements, |before|) && |after| == |before|
  {
    && (fillHoles ==> forall b :: 0 <= b < |before| && !InField(fields, b) ==> after[b] == 0)
    && (!fillHoles ==> forall b :: 0 <= b < |before| && !Written(fields, elements, 0, b) ==> after[b] == before[b])
    && (forall i, b :: 0 <= i < |elements| && Survives(fields, elements, i, b) ==>
          after[b] == elements[i].bytes[b - fields[i].offset])
  }

  /** The stores that fill the holes between the fields, in declaration order. */
  method FillHoles(fields: seq<Field>, structsize: nat) returns (stores: seq<Store>)
    requires forall i :: 0 <= i < |fields| ==> fields[i].End() <= structsize
    ensures Inside(stores, structsize)
    ensures forall i :: 0 <= i < |stores| ==> stores[i].IsZero()
    ensures forall b :: 0 <= b < structsize ==> Covered(stores, b) || InField(fields, b)
  {
    stores := [];
    var offset := 0;
    for i := 0 to |fields|
      invariant Inside(stores, structsize)
      invariant forall k :: 0 <= k < |stores| ==> stores[k].IsZero()
      invariant forall b :: 0 <= b < offset ==> Covered(stores, b) || InField(fields, b)
    {
      var v := fields[i];
      var hole, filled := FillHole(offset, v.offset, structsize);
      FilledUpTo(fields, stores, hole, offset, filled);
      stores, offset := stores + hole, filled;
      var vend := v.offset + v.size;
      if offset < vend {
        assert forall b :: offset <= b < vend ==> fields[i].Holds(b);
        offset := vend;
      }
    }
    var hole, filled := FillHole(offset, structsize, structsize);
    FilledUpTo(fields, stores, hole, offset, filled);
    stores := stores + hole;
  }

  lemma {:induction false} FilledUpTo(fields: seq<Field>, stores: seq<Store>, hole: seq<Store>, offset: nat,
                                      filled: nat)
    requires forall b :: 0 <= b < offset ==> Covered(stores, b) || InField(fields, b)
    requires forall b :: offset <= b < filled ==> Covered(hole, b)
    ensures forall b :: 0 <= b < filled ==> Covered(stores + hole, b) || InField(fields, b)
  {
    forall b | 0 <= b < filled && !InField(fields, b)
      ensures Covered(stores + hole, b)
    {
      if b < offset {
        assert Covered(stores, b) || InField(fields, b);
        var i :| 0 <= i < |stores| && stores[i].Covers(b);
        assert (stores + hole)[i].Covers(b);
      } else {
        assert Covered(hole, b);
        var i :| 0 <= i < |hole| && hole[i].Covers(b);
        assert (stores + hole)[|stores| + i].Covers(b);
      }
    }
  }

  /** `StructLiteralExp::toElem`: whatever the memory held before, it holds the literal
    after the generated stores have run. */
  method LowerLiteral(fields: seq<Field>, elements: seq<Element>, structsize: nat, fillHoles: bool)
      returns (stores: seq<Store>)
    requires WellFormed(fields, elements, structsize)
    ensures Inside(stores, structsize)
    ensures forall mem: seq<Byte> :: |mem| == structsize ==>
              LiteralMemory(fields, elements, fillHoles, mem, Run(mem, stores))
  {
    stores := [];
    if fillHoles {
      stores := FillHoles(fields, structsize);
    }
    ghost var fill := stores;
    assert stores == fill + [];
    var i := 0;
    ghost var done: seq<Store> := [];
    while i < |elements|
      invariant 0 <= i <= |elements|
      invariant stores == fill + done
      invariant done + FieldStores(fields, elements, i) == FieldStores(fields, elements, 0)
    {
      if elements[i].Supplied? {
        var s := Store(fields[i].offset, elements[i].bytes);
        assert done + FieldStores(fields, elements, i) == (done + [s]) + FieldStores(fields, elements, i + 1);
        done := done + [s];
        stores := stores + [s];
      }
      i := i + 1;
    }
    assert done == FieldStores(fields, elements, 0);
    forall mem: seq<Byte> | |mem| == structsize
      ensures Inside(stores, structsize) && LiteralMemory(fields, elements, fillHoles, mem, Run(mem, stores))
    {
      LiteralRuns(fields, elements, fillHoles, fill, mem);
    }
    assert Inside(stores, structsize) by { LiteralRuns(fields, elements, fillHoles, fill, Zeros(structsize)); }
  }

  lemma {:induction false} LiteralRuns(fields: seq<Field>, elements: seq<Element>, fillHoles: bool, fill: seq<Store>,
                                       mem: seq<Byte>)
    requires WellFormed(fields, elements, |mem|) && Inside(fill, |mem|)
    requires forall i :: 0 <= i < |fill| ==> fill[i].IsZero()
    requires if fillHoles then forall b :: 0 <= b < |mem| ==> Covered(fill, b) || InField(fields, b) else fill == []
    ensures Inside(fill + FieldStores(fields, elements, 0), |mem|)
    ensures LiteralMemory(fields, elements, fillHoles, mem, Run(mem, fill + FieldStores(fields, elements, 0)))
  {
    var mid := Run(mem, fill);
    RunFields(mid, fields, elements, 0);
    RunAppend(mem, fill, FieldStores(fields, elements, 0));
    if fillHoles {
      forall b | 0 <= b < |mem| && !InField(fields, b)
        ensures Run(mid, FieldStores(fields, elements, 0))[b] == 0
      {
        RunZeros(mem, fill, b);
        assert !Written(fields, elements, 0, b);
      }
    }
  }
}
