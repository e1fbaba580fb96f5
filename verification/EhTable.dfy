/** The exception handler table of a function, as it is laid out for Linux: a header, the
  guards of the try blocks, the guards of temporaries, and the catch records. */
module EhTable {
  import opened EhGuards

  // ----- the records and their sizes; `p` is the size of a pointer -----

  datatype Record =
    | Header(spoff: int, retoffset: int, guards: nat)
    | GuardRecord(guard: Guard)
    | CatchRecord(bpoffset: int, catches: seq<Handler>)

  datatype Field = Dword(v: int) | SizeT(v: int)

  function GuardSize(p: nat): nat {
    if p == 8 then 3 * 8 else 5 * 4
  }

  function Width(p: nat, r: Record): nat {
    match r
    case Header(_, _, _) => p + 4 + 4 + p
    case GuardRecord(_) => GuardSize(p)
    case CatchRecord(_, catches) => p + |catches| * (3 * p)
  }

  function Bytes(p: nat, rs: seq<Record>): nat {
    if rs == [] then 0 else Bytes(p, rs[..|rs| - 1]) + Width(p, rs[|rs| - 1])
  }

  function CatchFields(bpoffset: int, catches: seq<Handler>): seq<Field> {
    if catches == [] then []
    else [SizeT(catches[0].cls), SizeT(bpoffset), SizeT(catches[0].offset)] + CatchFields(bpoffset, catches[1..])
  }

  /** The fields that are written for a record; addresses are written with the size of a pointer. */
  function Fields(r: Record): seq<Field> {
    match r
    case Header(spoff, retoffset, n) => [SizeT(0), Dword(spoff), Dword(retoffset), SizeT(n)]
    case GuardRecord(g) =>
      [Dword(g.offset), Dword(g.endoffset), Dword(g.parent), Dword(g.catchoffset), SizeT(g.handler)]
    case CatchRecord(bpoffset, catches) => [SizeT(|catches|)] + CatchFields(bpoffset, catches)
  }

  function FieldBytes(p: nat, fs: seq<Field>): nat {
    if fs == [] then 0 else (if fs[0].Dword? then 4 else p) + FieldBytes(p, fs[1..])
  }

  lemma {:induction false} FieldBytesFirst(p: nat, f: Field, fs: seq<Field>)
    ensures FieldBytes(p, [f] + fs) == (if f.Dword? then 4 else p) + FieldBytes(p, fs)
  {
    assert ([f] + fs)[1..] == fs;
  }

  /** The sizes that the layout counts with are the sizes of what is written. */
  lemma {:induction false} FieldsFillRecord(p: nat, r: Record)
    requires p == 4 || p == 8
    ensures FieldBytes(p, Fields(r)) == Width(p, r)
  {
    match r
    case Header(spoff, retoffset, n) =>
      FieldBytesFirst(p, SizeT(n), []);
      FieldBytesFirst(p, Dword(retoffset), [SizeT(n)]);
      FieldBytesFirst(p, Dword(spoff), [Dword(retoffset), SizeT(n)]);
      FieldBytesFirst(p, SizeT(0), [Dword(spoff), Dword(retoffset), SizeT(n)]);
      assert Fields(r) == [SizeT(0)] + [Dword(spoff), Dword(retoffset), SizeT(n)];
    case GuardRecord(g) =>
      var last := [SizeT(g.handler)];
      FieldBytesFirst(p, SizeT(g.handler), []);
      FieldBytesFirst(p, Dword(g.catchoffset), last);
      FieldBytesFirst(p, Dword(g.parent), [Dword(g.catchoffset)] + last);
      FieldBytesFirst(p, Dword(g.endoffset), [Dword(g.parent)] + ([Dword(g.catchoffset)] + last));
      var most := [Dword(g.endoffset)] + ([Dword(g.parent)] + ([Dword(g.catchoffset)] + last));
      FieldBytesFirst(p, Dword(g.offset), most);
      assert Fields(r) == [Dword(g.offset)] + most;
    case CatchRecord(bpoffset, catches) =>
      CatchFieldsFill(p, bpoffset, catches);
      FieldBytesFirst(p, SizeT(|catches|), CatchFields(bpoffset, catches));
  }

  lemma {:induction false} CatchFieldsFill(p: nat, bpoffset: int, catches: seq<Handler>)
    ensures FieldBytes(p, CatchFields(bpoffset, catches)) == |catches| * (3 * p)
  {
    if catches != [] {
      var h, more := catches[0], CatchFields(bpoffset, catches[1..]);
      CatchFieldsFill(p, bpoffset, catches[1..]);
      FieldBytesFirst(p, SizeT(h.offset), more);
      FieldBytesFirst(p, SizeT(bpoffset), [SizeT(h.offset)] + more);
      FieldBytesFirst(p, SizeT(h.cls), [SizeT(bpoffset)] + ([SizeT(h.offset)] + more));
      assert CatchFields(bpoffset, catches)
          == [SizeT(h.cls)] + ([SizeT(bpoffset)] + ([SizeT(h.offset)] + more));
      assert (|catches| - 1) * (3 * p) + 3 * p == |catches| * (3 * p);
    }
  }

  // ----- the records as the runtime declares them -----

  /** The field that begins at a byte of a record. */
  function FieldAt(p: nat, fs: seq<Field>, at: nat): Field
    requires p > 0 && at < FieldBytes(p, fs)
  {
    var size := if fs[0].Dword? then 4 else p;
    if at < size then fs[0] else FieldAt(p, fs[1..], at - size)
  }

  lemma {:induction false} NextField(p: nat, f: Field, fs: seq<Field>, at: nat)
    requires p > 0 && at < FieldBytes(p, [f] + fs)
    ensures var size := if f.Dword? then 4 else p;
            if at < size then FieldAt(p, [f] + fs, at) == f
            else at - size < FieldBytes(p, fs) && FieldAt(p, [f] + fs, at) == FieldAt(p, fs, at - size)
  {
    FieldBytesFirst(p, f, fs);
    assert ([f] + fs)[1..] == fs;
  }

  /** `DHandlerTable`: the offset of ESP, the offset of the return code, and the number of guards. */
  lemma {:induction false} HeaderReads(p: nat, spoff: int, retoffset: int, n: nat)
    requires p == 4 || p == 8
    ensures
      var fs := Fields(Header(spoff, retoffset, n));
      && FieldBytes(p, fs) == 2 * p + 8
      && FieldAt(p, fs, p) == Dword(spoff) && FieldAt(p, fs, p + 4) == Dword(retoffset)
      && FieldAt(p, fs, p + 8) == SizeT(n)
  {
    var fs, fs1, fs2 := Fields(Header(spoff, retoffset, n)), [Dword(retoffset), SizeT(n)], [SizeT(n)];
    FieldsFillRecord(p, Header(spoff, retoffset, n));
    assert fs == [SizeT(0)] + ([Dword(spoff)] + ([Dword(retoffset)] + fs2));
    assert fs1 == [Dword(retoffset)] + fs2;
    NextField(p, SizeT(0), [Dword(spoff)] + fs1, p);
    NextField(p, SizeT(0), [Dword(spoff)] + fs1, p + 4);
    NextField(p, SizeT(0), [Dword(spoff)] + fs1, p + 8);
    NextField(p, Dword(spoff), fs1, 4);
    NextField(p, Dword(spoff), fs1, 8);
    NextField(p, Dword(retoffset), fs2, 4);
  }

  /** `DHandlerInfo`: the range, the index of the enclosing guard, the offset of the catch record,
    and the handler of a finally. */
  lemma {:induction false} GuardReads(p: nat, g: Guard)
    requires p == 4 || p == 8
    ensures
      var fs := Fields(GuardRecord(g));
      && FieldBytes(p, fs) == 16 + p
      && FieldAt(p, fs, 0) == Dword(g.offset) && FieldAt(p, fs, 4) == Dword(g.endoffset)
      && FieldAt(p, fs, 8) == Dword(g.parent) && FieldAt(p, fs, 12) == Dword(g.catchoffset)
      && FieldAt(p, fs, 16) == SizeT(g.handler)
  {
    FieldsFillRecord(p, GuardRecord(g));
    var fs4 := [SizeT(g.handler)];
    var fs3 := [Dword(g.catchoffset)] + fs4;
    var fs2 := [Dword(g.parent)] + fs3;
    var fs1 := [Dword(g.endoffset)] + fs2;
    assert Fields(GuardRecord(g)) == [Dword(g.offset)] + fs1;
    GuardFieldsAt(p, g, fs1, fs2, fs3, fs4);
  }

  lemma {:induction false} GuardFieldsAt(p: nat, g: Guard, fs1: seq<Field>, fs2: seq<Field>, fs3: seq<Field>,
                                         fs4: seq<Field>)
    requires p > 0 && fs1 == [Dword(g.endoffset)] + fs2 && fs2 == [Dword(g.parent)] + fs3
    requires fs3 == [Dword(g.catchoffset)] + fs4 && fs4 == [SizeT(g.handler)]
    requires FieldBytes(p, [Dword(g.offset)] + fs1) == 16 + p
    ensures
      var fs := [Dword(g.offset)] + fs1;
      && FieldAt(p, fs, 0) == Dword(g.offset) && FieldAt(p, fs, 4) == Dword(g.endoffset)
      && FieldAt(p, fs, 8) == Dword(g.parent) && FieldAt(p, fs, 12) == Dword(g.catchoffset)
      && FieldAt(p, fs, 16) == SizeT(g.handler)
  {
    var f := Dword(g.offset);
    NextField(p, f, fs1, 4);
    NextField(p, f, fs1, 8);
    NextField(p, f, fs1, 12);
    NextField(p, f, fs1, 16);
    NextField(p, Dword(g.endoffset), fs2, 4);
    NextField(p, Dword(g.endoffset), fs2, 8);
    NextField(p, Dword(g.endoffset), fs2, 12);
    NextField(p, Dword(g.parent), fs3, 4);
    NextField(p, Dword(g.parent), fs3, 8);
    NextField(p, Dword(g.catchoffset), fs4, 4);
  }

  /** `DCatchInfo`: the number of catches, and of each the type, the offset of its variable, and
    the code. */
  lemma {:induction false} CatchReads(p: nat, bpoffset: int, catches: seq<Handler>, k: nat)
    requires (p == 4 || p == 8) && k < |catches|
    ensures
      var fs, at := Fields(CatchRecord(bpoffset, catches)), p + k * (3 * p);
      && at + 2 * p < FieldBytes(p, fs)
      && FieldAt(p, fs, 0) == SizeT(|catches|) && FieldAt(p, fs, at) == SizeT(catches[k].cls)
      && FieldAt(p, fs, at + p) == SizeT(bpoffset) && FieldAt(p, fs, at + 2 * p) == SizeT(catches[k].offset)
  {
    CatchFieldsRead(p, bpoffset, catches, k);
    BehindCount(p, SizeT(|catches|), CatchFields(bpoffset, catches), k * (3 * p));
  }

  lemma {:induction false} BehindCount(p: nat, count: Field, fs: seq<Field>, at: nat)
    requires p > 0 && count.SizeT? && at + 2 * p < FieldBytes(p, fs)
    ensures
      var all := [count] + fs;
      && FieldBytes(p, all) == p + FieldBytes(p, fs) && FieldAt(p, all, 0) == count
      && FieldAt(p, all, p + at) == FieldAt(p, fs, at) && FieldAt(p, all, p + at + p) == FieldAt(p, fs, at + p)
      && FieldAt(p, all, p + at + 2 * p) == FieldAt(p, fs, at + 2 * p)
  {
    FieldBytesFirst(p, count, fs);
    NextField(p, count, fs, p + at);
    NextField(p, count, fs, p + at + p);
    NextField(p, count, fs, p + at + 2 * p);
  }

  lemma {:induction false} CatchFieldsRead(p: nat, bpoffset: int, catches: seq<Handler>, k: nat)
    requires p > 0 && k < |catches|
    ensures
      var fs, at := CatchFields(bpoffset, catches), k * (3 * p);
      && at + 2 * p < FieldBytes(p, fs) && FieldAt(p, fs, at) == SizeT(catches[k].cls)
      && FieldAt(p, fs, at + p) == SizeT(bpoffset) && FieldAt(p, fs, at + 2 * p) == SizeT(catches[k].offset)
    decreases k
  {
    var h, more := catches[0], CatchFields(bpoffset, catches[1..]);
    CatchFieldsFill(p, bpoffset, catches);
    assert CatchFields(bpoffset, catches) == [SizeT(h.cls)] + ([SizeT(bpoffset)] + ([SizeT(h.offset)] + more));
    if k == 0 {
      CatchBytes(3 * p, |catches|, 0);
      ThreeFields(p, SizeT(h.cls), SizeT(bpoffset), SizeT(h.offset), more);
    } else {
      CatchFieldsRead(p, bpoffset, catches[1..], k - 1);
      CatchBytes(3 * p, k, k - 1);
      var at := (k - 1) * (3 * p);
      AfterThree(p, SizeT(h.cls), SizeT(bpoffset), SizeT(h.offset), more, at);
      AfterThree(p, SizeT(h.cls), SizeT(bpoffset), SizeT(h.offset), more, at + p);
      AfterThree(p, SizeT(h.cls), SizeT(bpoffset), SizeT(h.offset), more, at + 2 * p);
    }
  }

  lemma {:induction false} CatchBytes(size: nat, n: nat, k: nat)
    requires k < n
    ensures n * size == (n - 1) * size + size && k * size + size <= n * size
    decreases n
  {
    if k < n - 1 { CatchBytes(size, n - 1, k); }
  }

  lemma {:induction false} ThreeFields(p: nat, f: Field, g: Field, h: Field, fs: seq<Field>)
    requires p > 0 && f.SizeT? && g.SizeT? && h.SizeT?
    ensures
      var all := [f] + ([g] + ([h] + fs));
      && FieldBytes(p, all) == 3 * p + FieldBytes(p, fs)
      && FieldAt(p, all, 0) == f && FieldAt(p, all, p) == g && FieldAt(p, all, 2 * p) == h
  {
    FieldBytesFirst(p, h, fs);
    FieldBytesFirst(p, g, [h] + fs);
    FieldBytesFirst(p, f, [g] + ([h] + fs));
    NextField(p, f, [g] + ([h] + fs), p);
    NextField(p, f, [g] + ([h] + fs), 2 * p);
    NextField(p, g, [h] + fs, p);
  }

  lemma {:induction false} AfterThree(p: nat, f: Field, g: Field, h: Field, fs: seq<Field>, at: nat)
    requires p > 0 && f.SizeT? && g.SizeT? && h.SizeT? && at < FieldBytes(p, fs)
    ensures
      var all := [f] + ([g] + ([h] + fs));
      3 * p + at < FieldBytes(p, all) && FieldAt(p, all, 3 * p + at) == FieldAt(p, fs, at)
  {
    FieldBytesFirst(p, h, fs);
    FieldBytesFirst(p, g, [h] + fs);
    FieldBytesFirst(p, f, [g] + ([h] + fs));
    NextField(p, f, [g] + ([h] + fs), 3 * p + at);
    NextField(p, g, [h] + fs, 2 * p + at);
    NextField(p, h, fs, p + at);
  }

  lemma {:induction false} BytesSplit(p: nat, a: seq<Record>, b: seq<Record>)
    ensures Bytes(p, a + b) == Bytes(p, a) + Bytes(p, b)
    decreases b
  {
    if b == [] {
      assert a + b == a;
    } else {
      BytesSplit(p, a, b[..|b| - 1]);
      assert (a + b)[..|a + b| - 1] == a + b[..|b| - 1];
    }
  }

  /** Where the catch records begin in a table of `n` guards. */
  function CatchStart(p: nat, n: nat): nat {
    2 * p + 8 + n * GuardSize(p)
  }

  function GuardRecords(gs: seq<Guard>): (rs: seq<Record>)
    ensures |rs| == |gs|
  {
    seq(|gs|, i requires 0 <= i < |gs| => GuardRecord(gs[i]))
  }

  lemma {:induction false} GuardBytes(p: nat, gs: seq<Guard>)
    ensures Bytes(p, GuardRecords(gs)) == |gs| * GuardSize(p)
    decreases gs
  {
    if gs != [] {
      GuardBytes(p, gs[..|gs| - 1]);
      assert GuardRecords(gs)[..|gs| - 1] == GuardRecords(gs[..|gs| - 1]);
    }
  }

  // ----- what the blocks ask for -----

  /** The number of guards of the try blocks among the first `n` blocks, gaps included. */
  function GuardDim(blocks: seq<Block>, n: nat): nat
    requires n <= |blocks|
  {
    if n == 0 then 0
    else
      var d, b := GuardDim(blocks, n - 1), blocks[n - 1];
      if !b.kind.NoTry? && b.scopeIndex >= d then b.scopeIndex + 1 else d
  }

  /** The number of temporaries in the first `n` blocks. */
  function Temporaries(blocks: seq<Block>, n: nat): nat
    requires n <= |blocks|
  {
    if n == 0 then 0
    else Temporaries(blocks, n - 1) + Dctors(blocks[n - 1].code, |blocks[n - 1].code|)
  }

  function CatchOf(b: Block): Record
    requires b.kind.Catch?
  {
    CatchRecord(b.kind.bpoffset, b.kind.catches)
  }

  /** The catch records of the first `n` blocks. */
  function Catches(blocks: seq<Block>, n: nat): seq<Record>
    requires n <= |blocks|
  {
    if n == 0 then []
    else Catches(blocks, n - 1) + if blocks[n - 1].kind.Catch? then [CatchOf(blocks[n - 1])] else []
  }

  lemma {:induction false} CatchesGrow(blocks: seq<Block>, i: nat, n: nat)
    requires i < n <= |blocks| && blocks[i].kind.Catch?
    ensures Catches(blocks, i) + [CatchOf(blocks[i])] <= Catches(blocks, n)
    decreases n
  {
    if i < n - 1 { CatchesGrow(blocks, i, n - 1); }
  }

  lemma {:induction false} CatchBytesStep(blocks: seq<Block>, p: nat, n: nat)
    requires n < |blocks|
    ensures
      var kind := blocks[n].kind;
      Bytes(p, Catches(blocks, n + 1)) ==
        Bytes(p, Catches(blocks, n)) + if kind.Catch? then p + |kind.catches| * (3 * p) else 0
  {
    var before, after := Catches(blocks, n), Catches(blocks, n + 1);
    if blocks[n].kind.Catch? {
      assert after[..|after| - 1] == before;
    } else {
      assert after == before;
    }
  }

  /** Try blocks come in the order of their scope indices. */
  ghost predicate Ordered(blocks: seq<Block>) {
    forall i :: 0 <= i < |blocks| ==> InOrder(blocks, i)
  }

  predicate InOrder(blocks: seq<Block>, i: nat)
    requires i < |blocks|
  {
    !blocks[i].kind.NoTry? ==> blocks[i].scopeIndex >= GuardDim(blocks, i)
  }

  ghost predicate EndsTry(blocks: seq<Block>, i: int, n: int) {
    && 0 <= i < n < |blocks| && blocks[n].btry == blocks[i].btry
    && forall l :: i < l < n ==> blocks[l].btry != blocks[i].btry
  }

  ghost predicate TriesEnd(blocks: seq<Block>) {
    forall i :: 0 <= i < |blocks| ==> TryEnds(blocks, i)
  }

  ghost predicate TryEnds(blocks: seq<Block>, i: nat)
    requires i < |blocks|
  {
    !blocks[i].kind.NoTry? ==> exists n :: EndsTry(blocks, i, n)
  }

  ghost predicate CodeNests(blocks: seq<Block>) {
    forall i :: 0 <= i < |blocks| ==> WellNested(blocks[i].code) && JumpsFollow(blocks[i].code)
  }

  // ----- what the guards have to be -----

  const GAP := Guard(0, 0, 0, 0, 0)

  ghost predicate GuardsTry(blocks: seq<Block>, i: nat, catchoffset: nat, g: Guard)
    requires i < |blocks|
  {
    var b := blocks[i];
    && g.offset == b.offset && g.parent == b.lastIndex
    && (exists n :: EndsTry(blocks, i, n) && g.endoffset == blocks[n].offset)
    && (b.kind.Catch? ==> g.catchoffset == catchoffset && g.handler == 0)
    && (b.kind.Finally? ==> g.catchoffset == 0 && g.handler == b.kind.handler)
  }

  /** The guard of block `i` stands at the block's scope index; the catch records begin at `start`. */
  ghost predicate TryGuarded(blocks: seq<Block>, p: nat, start: nat, guards: seq<Guard>, i: nat)
    requires i < |blocks|
  {
    var b := blocks[i];
    !b.kind.NoTry? ==>
      && 0 <= b.scopeIndex < |guards|
      && GuardsTry(blocks, i, start + Bytes(p, Catches(blocks, i)), guards[b.scopeIndex])
  }

  ghost predicate Taken(blocks: seq<Block>, n: nat, s: int)
    requires n <= |blocks|
  {
    exists i :: 0 <= i < n && !blocks[i].kind.NoTry? && blocks[i].scopeIndex == s
  }

  /** Indices that no try block has are left empty. */
  ghost predicate GapsEmpty(blocks: seq<Block>, guards: seq<Guard>, n: nat)
    requires n <= |blocks|
  {
    forall s :: 0 <= s < |guards| && !Taken(blocks, n, s) ==> guards[s] == GAP
  }

  ghost predicate TriesGuarded(blocks: seq<Block>, p: nat, start: nat, guards: seq<Guard>, n: nat)
    requires n <= |blocks|
  {
    && |guards| == GuardDim(blocks, n)
    && (forall i :: 0 <= i < n ==> TryGuarded(blocks, p, start, guards, i))
    && GapsEmpty(blocks, guards, n)
  }

  /** The guards of the temporaries of block `i` follow those of the blocks before it. */
  ghost predicate BlockGuarded(blocks: seq<Block>, guarddim: nat, guards: seq<Guard>, i: nat)
    requires i < |blocks|
  {
    var from, to := Temporaries(blocks, i), Temporaries(blocks, i + 1);
    to <= |guards| && TemporariesGuarded(blocks[i], guarddim + from, guards[from..to], |blocks[i].code|)
  }

  ghost predicate BlocksGuarded(blocks: seq<Block>, guarddim: nat, guards: seq<Guard>) {
    && |guards| == Temporaries(blocks, |blocks|)
    && forall i :: 0 <= i < |blocks| ==> BlockGuarded(blocks, guarddim, guards, i)
  }

  // ----- the passes -----

  method CountGuards(blocks: seq<Block>, cleanup: bool) returns (guarddim: nat, ndctors: nat)
    requires cleanup ==> CodeNests(blocks)
    ensures guarddim == GuardDim(blocks, |blocks|)
    ensures ndctors == if cleanup then Temporaries(blocks, |blocks|) else 0
  {
    guarddim, ndctors := 0, 0;
    for i := 0 to |blocks|
      invariant guarddim == GuardDim(blocks, i)
      invariant ndctors == if cleanup then Temporaries(blocks, i) else 0
    {
      var b := blocks[i];
      if !b.kind.NoTry? && b.scopeIndex >= guarddim {
        guarddim := b.scopeIndex + 1;
      }
      if cleanup {
        var before := ndctors;
        for c := 0 to |b.code|
          invariant ndctors == before + Ddtors(b.code, c)
        {
          if b.code[c].Ddtor? { ndctors := ndctors + 1; }
        }
        assert Depth(b.code, |b.code|) == 0;
      }
    }
  }

  method FindTryEnd(blocks: seq<Block>, i: nat) returns (endoffset: nat)
    requires i < |blocks| && exists n :: EndsTry(blocks, i, n)
    ensures exists n :: EndsTry(blocks, i, n) && endoffset == blocks[n].offset
  {
    ghost var last :| EndsTry(blocks, i, last);
    var bn := i + 1;
    while blocks[bn].btry != blocks[i].btry
      invariant i < bn <= last
      invariant forall l :: i < l < bn ==> blocks[l].btry != blocks[i].btry
      decreases last - bn
    {
      bn := bn + 1;
    }
    assert EndsTry(blocks, i, bn);
    endoffset := blocks[bn].offset;
  }

  lemma {:induction false} GapsStayEmpty(blocks: seq<Block>, guards: seq<Guard>, n: nat, gap: seq<Guard>, g: Guard)
    requires n < |blocks| && !blocks[n].kind.NoTry? && GapsEmpty(blocks, guards, n)
    requires |guards| + |gap| == blocks[n].scopeIndex && forall s :: 0 <= s < |gap| ==> gap[s] == GAP
    ensures GapsEmpty(blocks, guards + gap + [g], n + 1)
  {
    var gs := guards + gap + [g];
    forall s | 0 <= s < |gs| && !Taken(blocks, n + 1, s)
      ensures gs[s] == GAP
    {
      assert s != blocks[n].scopeIndex;
      assert !Taken(blocks, n, s);
    }
  }

  lemma {:induction false} TryStays(blocks: seq<Block>, p: nat, start: nat, guards: seq<Guard>, more: seq<Guard>,
                                    i: nat)
    requires i < |blocks| && TryGuarded(blocks, p, start, guards, i)
    ensures TryGuarded(blocks, p, start, guards + more, i)
  {}

  lemma {:induction false} AppendTry(blocks: seq<Block>, p: nat, start: nat, guards: seq<Guard>, n: nat,
                                     gap: seq<Guard>, g: Guard)
    requires n < |blocks| && Ordered(blocks) && !blocks[n].kind.NoTry?
    requires TriesGuarded(blocks, p, start, guards, n)
    requires |guards| + |gap| == blocks[n].scopeIndex && forall s :: 0 <= s < |gap| ==> gap[s] == GAP
    requires GuardsTry(blocks, n, start + Bytes(p, Catches(blocks, n)), g)
    ensures TriesGuarded(blocks, p, start, guards + gap + [g], n + 1)
  {
    var gs := guards + gap + [g];
    GapsStayEmpty(blocks, guards, n, gap, g);
    assert InOrder(blocks, n);
    assert gs == guards + (gap + [g]);
    forall i | 0 <= i < n
      ensures TryGuarded(blocks, p, start, gs, i)
    {
      TryStays(blocks, p, start, guards, gap + [g], i);
    }
    assert gs[blocks[n].scopeIndex] == g;
    assert TryGuarded(blocks, p, start, gs, n);
  }

  lemma {:induction false} SkipBlock(blocks: seq<Block>, p: nat, start: nat, guards: seq<Guard>, n: nat)
    requires n < |blocks| && blocks[n].kind.NoTry?
    requires TriesGuarded(blocks, p, start, guards, n)
    ensures TriesGuarded(blocks, p, start, guards, n + 1)
  {
    forall s | 0 <= s < |guards| && !Taken(blocks, n + 1, s)
      ensures guards[s] == GAP
    {
      assert !Taken(blocks, n, s);
    }
  }

  method TryGuards(blocks: seq<Block>, p: nat, start: nat) returns (guards: seq<Guard>)
    requires Ordered(blocks) && TriesEnd(blocks)
    ensures TriesGuarded(blocks, p, start, guards, |blocks|)
  {
    var catchoffset := start;
    guards := [];
    for n := 0 to |blocks|
      invariant TriesGuarded(blocks, p, start, guards, n)
      invariant catchoffset == start + Bytes(p, Catches(blocks, n))
    {
      var b := blocks[n];
      CatchBytesStep(blocks, p, n);
      if b.kind.NoTry? {
        SkipBlock(blocks, p, start, guards, n);
      } else {
        assert InOrder(blocks, n) && TryEnds(blocks, n);
        var gap := seq(b.scopeIndex - |guards|, _ => GAP);
        var endoffset := FindTryEnd(blocks, n);
        var g := if b.kind.Catch? then Guard(b.offset, endoffset, b.lastIndex, catchoffset, 0)
                 else Guard(b.offset, endoffset, b.lastIndex, 0, b.kind.handler);
        AppendTry(blocks, p, start, guards, n, gap, g);
        guards := guards + gap + [g];
        if b.kind.Catch? {
          catchoffset := catchoffset + p + |b.kind.catches| * (3 * p);
        }
      }
    }
  }

  method AllTemporaryGuards(blocks: seq<Block>, guarddim: nat) returns (guards: seq<Guard>)
    requires CodeNests(blocks)
    ensures BlocksGuarded(blocks, guarddim, guards)
  {
    guards := [];
    for n := 0 to |blocks|
      invariant |guards| == Temporaries(blocks, n)
      invariant forall i :: 0 <= i < n ==> BlockGuarded(blocks, guarddim, guards, i)
    {
      var gs := TemporaryGuards(blocks[n], guarddim + |guards|);
      forall i | 0 <= i < n + 1
        ensures BlockGuarded(blocks, guarddim, guards + gs, i)
      {
        if i < n { assert BlockGuarded(blocks, guarddim, guards, i); }
        var from, to := Temporaries(blocks, i), Temporaries(blocks, i + 1);
        if i < n {
          assert (guards + gs)[from..to] == guards[from..to];
        } else {
          assert (guards + gs)[from..to] == gs;
        }
      }
      guards := guards + gs;
    }
  }

  method AppendTemporaries(blocks: seq<Block>, cleanup: bool, guarddim: nat, tries: seq<Guard>)
    returns (guards: seq<Guard>, ghost temps: seq<Guard>)
    requires cleanup ==> CodeNests(blocks)
    ensures guards == tries + temps
    ensures if cleanup then BlocksGuarded(blocks, guarddim, temps) else temps == []
  {
    guards, temps := tries, [];
    if cleanup {
      var more := AllTemporaryGuards(blocks, guarddim);
      guards, temps := guards + more, more;
    }
  }

  method EmitCatches(blocks: seq<Block>) returns (pdt: seq<Record>)
    ensures pdt == Catches(blocks, |blocks|)
  {
    pdt := [];
    for n := 0 to |blocks|
      invariant pdt == Catches(blocks, n)
    {
      if blocks[n].kind.Catch? { pdt := pdt + [CatchOf(blocks[n])]; }
    }
  }

  // ----- the table -----

  /** The catch record of block `i` is in the table, and the block's guard holds the number of
    bytes that come before it. */
  ghost predicate CatchFound(blocks: seq<Block>, p: nat, pdt: seq<Record>, i: nat)
    requires i < |blocks|
  {
    var b := blocks[i];
    b.kind.Catch? ==>
      exists k :: && 0 <= b.scopeIndex + 1 < k < |pdt| && pdt[k] == CatchOf(b)
                  && pdt[b.scopeIndex + 1].GuardRecord?
                  && pdt[b.scopeIndex + 1].guard.catchoffset == Bytes(p, pdt[..k])
  }

  ghost predicate CatchesFound(blocks: seq<Block>, p: nat, pdt: seq<Record>) {
    forall i :: 0 <= i < |blocks| ==> CatchFound(blocks, p, pdt, i)
  }

  lemma {:induction false} RecordAt(a: seq<Record>, before: seq<Record>, r: Record, all: seq<Record>)
    requires before + [r] <= all
    ensures |a| + |before| < |a + all| && (a + all)[|a| + |before|] == r
    ensures (a + all)[..|a| + |before|] == a + before
  {
    assert all[|before|] == r && all[..|before|] == before;
  }

  lemma {:induction false} HeadBytes(p: nat, header: Record, gs: seq<Guard>)
    requires header.Header?
    ensures Bytes(p, [header] + GuardRecords(gs)) == CatchStart(p, |gs|)
  {
    BytesSplit(p, [header], GuardRecords(gs));
    assert [header][..0] == [];
    assert Bytes(p, [header]) == Width(p, header);
    GuardBytes(p, gs);
  }

  lemma {:induction false} GuardRecordAt(header: Record, gs: seq<Guard>, all: seq<Record>, s: nat)
    requires s < |gs|
    ensures |GuardRecords(gs)| == |gs|
    ensures s + 1 < |[header] + GuardRecords(gs) + all|
    ensures ([header] + GuardRecords(gs) + all)[s + 1] == GuardRecord(gs[s])
  {}

  lemma {:induction false} StoredOffset(blocks: seq<Block>, p: nat, start: nat, guards: seq<Guard>, i: nat)
    requires i < |blocks| && blocks[i].kind.Catch? && TryGuarded(blocks, p, start, guards, i)
    ensures 0 <= blocks[i].scopeIndex < |guards|
    ensures guards[blocks[i].scopeIndex].catchoffset == start + Bytes(p, Catches(blocks, i))
  {}

  lemma {:induction false} CatchOffsetPoints(blocks: seq<Block>, p: nat, header: Record, gs: seq<Guard>,
                                             pdt: seq<Record>, i: nat)
    requires i < |blocks| && header.Header? && blocks[i].kind.Catch?
    requires 0 <= blocks[i].scopeIndex < |gs|
    requires gs[blocks[i].scopeIndex].catchoffset == CatchStart(p, |gs|) + Bytes(p, Catches(blocks, i))
    requires pdt == [header] + GuardRecords(gs) + Catches(blocks, |blocks|)
    ensures CatchFound(blocks, p, pdt, i)
  {
    var b := blocks[i];
    var all, before := Catches(blocks, |blocks|), Catches(blocks, i);
    CatchesGrow(blocks, i, |blocks|);
    var head := [header] + GuardRecords(gs);
    RecordAt(head, before, CatchOf(b), all);
    HeadBytes(p, header, gs);
    BytesSplit(p, head, before);
    GuardRecordAt(header, gs, all, b.scopeIndex);
    var k := |head| + |before|;
    assert pdt[k] == CatchOf(b) && pdt[..k] == head + before;
  }

  lemma {:induction false} AllCatchesFound(blocks: seq<Block>, p: nat, header: Record, tries: seq<Guard>,
                                           temps: seq<Guard>,
                        pdt: seq<Record>)
    requires header.Header? && TriesGuarded(blocks, p, CatchStart(p, |tries| + |temps|), tries, |blocks|)
    requires pdt == [header] + GuardRecords(tries + temps) + Catches(blocks, |blocks|)
    ensures CatchesFound(blocks, p, pdt)
  {
    forall i | 0 <= i < |blocks|
      ensures CatchFound(blocks, p, pdt, i)
    {
      if blocks[i].kind.Catch? {
        assert TryGuarded(blocks, p, CatchStart(p, |tries| + |temps|), tries, i);
        StoredOffset(blocks, p, CatchStart(p, |tries| + |temps|), tries, i);
        assert (tries + temps)[blocks[i].scopeIndex] == tries[blocks[i].scopeIndex];
        CatchOffsetPoints(blocks, p, header, tries + temps, pdt, i);
      }
    }
  }

  /** The whole table. Guards of temporaries are made only for functions that need cleanup. */
  method FillInTable(blocks: seq<Block>, p: nat, cleanup: bool, spoff: int, retoffset: int)
    returns (pdt: seq<Record>, ghost tries: seq<Guard>, ghost temps: seq<Guard>)
    requires p == 4 || p == 8
    requires Ordered(blocks) && TriesEnd(blocks) && (cleanup ==> CodeNests(blocks))
    ensures pdt == [Header(spoff, retoffset, |tries| + |temps|)] + GuardRecords(tries + temps)
                   + Catches(blocks, |blocks|)
    ensures TriesGuarded(blocks, p, CatchStart(p, |tries| + |temps|), tries, |blocks|)
    ensures if cleanup then BlocksGuarded(blocks, |tries|, temps) else temps == []
    ensures CatchesFound(blocks, p, pdt)
  {
    var guarddim, ndctors := CountGuards(blocks, cleanup);
    var header := Header(spoff, retoffset, guarddim + ndctors);
    var catchoffset := Width(p, header) + (guarddim + ndctors) * GuardSize(p);
    var guards := TryGuards(blocks, p, catchoffset);
    tries := guards;
    guards, temps := AppendTemporaries(blocks, cleanup, guarddim, guards);
    assert catchoffset == CatchStart(p, |tries| + |temps|);
    var catches := EmitCatches(blocks);
    pdt := [header] + GuardRecords(guards) + catches;
    AllCatchesFound(blocks, p, header, tries, temps, pdt);
  }
}
