/** The guards of temporaries in the exception handler table of a function: ranges of code in
  which a temporary is alive, found by matching the marks around it. */
module EhGuards {
  // ----- the function -----

  /** Machine code: the marks around a temporary take no bytes. */
  datatype Code = Dctor | Ddtor | Instr(size: nat, jump: bool)

  /** One catch of a try block: the class it catches and the offset of its code. */
  datatype Handler = Handler(cls: int, offset: nat)

  datatype Try = NoTry | Catch(bpoffset: int, catches: seq<Handler>) | Finally(handler: nat)

  /** A basic block. `btry` names the enclosing try block and `offset` is relative to the
    start of the function, as all offsets are. */
  datatype Block = Block(kind: Try, btry: int, scopeIndex: int, lastIndex: int, offset: nat, code: seq<Code>)

  function Size(c: Code): nat {
    if c.Instr? then c.size else 0
  }

  /** The offset of instruction `i` from the start of the code. */
  function Off(code: seq<Code>, i: nat): nat
    requires i <= |code|
  {
    if i == 0 then 0 else Off(code, i - 1) + Size(code[i - 1])
  }

  function Dctors(code: seq<Code>, i: nat): nat
    requires i <= |code|
  {
    if i == 0 then 0 else Dctors(code, i - 1) + if code[i - 1].Dctor? then 1 else 0
  }

  function Ddtors(code: seq<Code>, i: nat): nat
    requires i <= |code|
  {
    if i == 0 then 0 else Ddtors(code, i - 1) + if code[i - 1].Ddtor? then 1 else 0
  }

  /** The number of temporaries that are alive before instruction `i`. */
  function Depth(code: seq<Code>, i: nat): int
    requires i <= |code|
  {
    Dctors(code, i) - Ddtors(code, i)
  }

  ghost predicate WellNested(code: seq<Code>) {
    NeverNegative(code) && Depth(code, |code|) == 0
  }

  /** Every destruction is followed by a jump and a further instruction. */
  ghost predicate JumpsFollow(code: seq<Code>) {
    forall j :: 0 <= j < |code| ==> JumpFollows(code, j)
  }

  ghost predicate JumpFollows(code: seq<Code>, j: nat)
    requires j < |code|
  {
    code[j].Ddtor? ==> exists k :: JumpAfter(code, j, k)
  }

  ghost predicate JumpAfter(code: seq<Code>, j: int, k: int) {
    j < k && 0 <= k && k + 1 < |code| && code[k].Instr? && code[k].jump
  }

  /** `j` ends what `i` has begun. */
  ghost predicate Matches(code: seq<Code>, i: int, j: int) {
    && 0 <= i < j < |code| && code[i].Dctor? && code[j].Ddtor?
    && Depth(code, j + 1) == Depth(code, i)
    && forall k :: i < k <= j ==> Depth(code, k) > Depth(code, i)
  }

  /** `p` is the innermost pair around instruction `i`. */
  ghost predicate Encloses(code: seq<Code>, p: int, i: int) {
    && 0 <= p < i <= |code| && code[p].Dctor?
    && Depth(code, i) == Depth(code, p) + 1
    && forall k :: p < k <= i ==> Depth(code, k) > Depth(code, p)
  }

  lemma {:induction false} MatchIsUnique(code: seq<Code>, i: int, j: int, j': int)
    requires Matches(code, i, j) && Matches(code, i, j')
    ensures j == j'
  {}

  lemma {:induction false} EnclosingIsUnique(code: seq<Code>, p: int, p': int, i: int)
    requires Encloses(code, p, i) && Encloses(code, p', i)
    ensures p == p'
  {}

  /** The depth was `d` at `p` and has been larger ever since, up to `i`. */
  ghost predicate OpenSince(code: seq<Code>, p: int, d: int, i: int)
    requires i <= |code|
  {
    && 0 <= p < i && code[p].Dctor? && Depth(code, p) == d
    && forall k :: p < k <= i ==> Depth(code, k) > d
  }

  ghost predicate NeverNegative(code: seq<Code>) {
    forall i :: 0 <= i <= |code| ==> Depth(code, i) >= 0
  }

  ghost predicate AllOpen(code: seq<Code>, o: seq<nat>, i: nat)
    requires i <= |code|
  {
    |o| == Depth(code, i) && forall m :: 0 <= m < |o| ==> OpenSince(code, o[m], m, i)
  }

  /** The positions of the temporaries alive before instruction `i`. */
  ghost function Open(code: seq<Code>, i: nat): (o: seq<nat>)
    requires i <= |code|
    ensures forall m :: 0 <= m < |o| ==> o[m] < i
  {
    if i == 0 then []
    else
      var q := Open(code, i - 1);
      match code[i - 1]
      case Dctor => q + [i - 1]
      case Ddtor => if |q| > 0 then q[..|q| - 1] else q
      case Instr(_, _) => q
  }

  lemma {:induction false} OpenIsAll(code: seq<Code>, i: nat)
    requires i <= |code| && NeverNegative(code)
    ensures AllOpen(code, Open(code, i), i)
  {
    if i > 0 {
      var q := Open(code, i - 1);
      OpenIsAll(code, i - 1);
      assert Depth(code, i) >= 0;
      if code[i - 1].Dctor? {
        OpenPushed(code, i, q);
      } else {
        OpenKept(code, i, q);
        assert code[i - 1].Instr? ==> q[..|q|] == q;
      }
    }
  }

  lemma {:induction false} OpenPushed(code: seq<Code>, i: nat, q: seq<nat>)
    requires 0 < i <= |code| && code[i - 1].Dctor? && AllOpen(code, q, i - 1)
    ensures AllOpen(code, q + [i - 1], i)
  {
    var o := q + [i - 1];
    forall m | 0 <= m < |o|
      ensures OpenSince(code, o[m], m, i)
    {
      if m < |q| { assert OpenSince(code, q[m], m, i - 1); }
    }
  }

  lemma {:induction false} OpenKept(code: seq<Code>, i: nat, q: seq<nat>)
    requires 0 < i <= |code| && !code[i - 1].Dctor? && AllOpen(code, q, i - 1) && Depth(code, i) >= 0
    ensures AllOpen(code, q[..Depth(code, i)], i)
  {
    var o := q[..Depth(code, i)];
    forall m | 0 <= m < |o|
      ensures OpenSince(code, o[m], m, i)
    {
      assert OpenSince(code, q[m], m, i - 1);
    }
  }

  lemma {:induction false} LastOpenEncloses(code: seq<Code>, i: nat)
    requires i <= |code| && NeverNegative(code) && Depth(code, i) > 0
    ensures |Open(code, i)| == Depth(code, i) && Encloses(code, Open(code, i)[Depth(code, i) - 1], i)
  {
    OpenIsAll(code, i);
    var d := Depth(code, i) - 1;
    assert OpenSince(code, Open(code, i)[d], d, i);
  }

  // ----- guards -----

  datatype Guard = Guard(offset: nat, endoffset: nat, parent: int, catchoffset: nat, handler: nat)

  ghost predicate IsJump(code: seq<Code>, l: int)
    requires 0 <= l < |code|
  {
    code[l].Instr? && code[l].jump
  }

  /** The handler offset: past the first jump after the destruction at `j` and past one more
    instruction. */
  ghost predicate HandlerOf(b: Block, j: int, handler: nat)
    requires 0 <= j
  {
    exists k :: && JumpAfter(b.code, j, k)
                && (forall l :: j < l < k ==> !IsJump(b.code, l))
                && handler == b.offset + Off(b.code, k + 2)
  }

  ghost predicate EndFound(b: Block, i: int, j: int, endoffset: nat, handler: nat) {
    Matches(b.code, i, j) && endoffset == b.offset + Off(b.code, j) && HandlerOf(b, j, handler)
  }

  ghost predicate EndsAt(b: Block, i: int, j: int, g: Guard) {
    EndFound(b, i, j, g.endoffset, g.handler)
  }

  ghost predicate HasParent(b: Block, base: int, i: int, parent: int)
    requires 0 <= i < |b.code|
  {
    if Depth(b.code, i) == 0 then parent == b.scopeIndex
    else exists p :: Encloses(b.code, p, i) && parent == base + Dctors(b.code, p)
  }

  /** The guard of the temporary that is begun at `i`, when the guards of the block are
    numbered from `base`. */
  ghost predicate GuardsTemporary(b: Block, base: int, i: int, g: Guard)
    requires 0 <= i < |b.code|
  {
    && g.offset == b.offset + Off(b.code, i)
    && (exists j :: EndsAt(b, i, j, g))
    && HasParent(b, base, i, g.parent)
    && g.catchoffset == 0
  }

  /** If a temporary begins at `i`, its guard is among `guards` where its turn is. */
  ghost predicate GuardedAt(b: Block, base: int, guards: seq<Guard>, i: int)
    requires 0 <= i < |b.code|
  {
    b.code[i].Dctor? ==>
      Dctors(b.code, i) < |guards| && GuardsTemporary(b, base, i, guards[Dctors(b.code, i)])
  }

  ghost predicate TemporariesGuarded(b: Block, base: int, guards: seq<Guard>, n: nat)
    requires n <= |b.code|
  {
    && |guards| == Dctors(b.code, n)
    && forall i :: 0 <= i < n ==> GuardedAt(b, base, guards, i)
  }

  lemma {:induction false} DctorsGrow(code: seq<Code>, i: nat, j: nat)
    requires i <= j <= |code|
    ensures Dctors(code, i) <= Dctors(code, j)
    ensures i < j && code[i].Dctor? ==> Dctors(code, i) < Dctors(code, j)
    decreases j
  {
    if i < j { DctorsGrow(code, i, j - 1); }
  }

  /** The search of the matching mark and of the handler behind it. */
  method FindEnd(b: Block, i: nat, boffset: nat) returns (eoffset: nat, foffset: nat)
    requires WellNested(b.code) && JumpsFollow(b.code)
    requires i < |b.code| && b.code[i].Dctor? && boffset == b.offset + Off(b.code, i)
    ensures exists j :: EndFound(b, i, j, eoffset, foffset)
  {
    var code := b.code;
    var n := 0;
    eoffset := boffset;
    var c2 := i + 1;
    while !(code[c2].Ddtor? && n == 0)
      invariant i < c2 < |code|
      invariant n == Depth(code, c2) - Depth(code, i) - 1 && n >= 0
      invariant forall k :: i < k <= c2 ==> Depth(code, k) > Depth(code, i)
      invariant eoffset == b.offset + Off(code, c2)
      decreases |code| - c2
    {
      if code[c2].Ddtor? {
        n := n - 1;
      } else if code[c2].Dctor? {
        n := n + 1;
      } else {
        eoffset := eoffset + Size(code[c2]);
      }
      c2 := c2 + 1;
      assert Depth(code, c2) > Depth(code, i) >= 0;
    }
    ghost var j := c2;
    assert JumpFollows(code, j);
    ghost var jump :| JumpAfter(code, j, jump);
    var cf := c2 + 1;
    foffset := eoffset + Size(code[cf]);
    while !(code[cf].Instr? && code[cf].jump)
      invariant j < cf <= jump
      invariant forall l :: j < l < cf ==> !IsJump(code, l)
      invariant foffset == b.offset + Off(code, cf + 1)
      decreases jump - cf
    {
      cf := cf + 1;
      foffset := foffset + Size(code[cf]);
    }
    assert JumpAfter(code, j, cf);
    foffset := foffset + Size(code[cf + 1]);
    assert EndFound(b, i, j, eoffset, foffset);
  }

  const STACKINC: nat := 16

  /** The stack of scope indices: the block's own index, then those of the open temporaries. */
  ghost predicate StackHolds(b: Block, base: int, stack: seq<int>, c: nat)
    requires c <= |b.code| && NeverNegative(b.code)
  {
    var o := Open(b.code, c);
    && |stack| == 1 + |o| && stack[0] == b.scopeIndex
    && forall m :: 0 <= m < |o| ==> stack[m + 1] == base + Dctors(b.code, o[m])
  }

  lemma {:induction false} StackPushed(b: Block, base: int, stack: seq<int>, c: nat, top: int)
    requires c < |b.code| && NeverNegative(b.code) && StackHolds(b, base, stack, c)
    requires b.code[c].Dctor? && top == base + Dctors(b.code, c)
    ensures StackHolds(b, base, stack + [top], c + 1)
  {
    assert Open(b.code, c + 1) == Open(b.code, c) + [c];
  }

  lemma {:induction false} StackPopped(b: Block, base: int, stack: seq<int>, c: nat)
    requires c < |b.code| && NeverNegative(b.code) && StackHolds(b, base, stack, c)
    requires !b.code[c].Dctor?
    ensures b.code[c].Ddtor? ==> |stack| > 1
    ensures StackHolds(b, base, if b.code[c].Ddtor? then stack[..|stack| - 1] else stack, c + 1)
  {
    assert Depth(b.code, c + 1) >= 0;
    OpenIsAll(b.code, c);
  }

  lemma {:induction false} TopIsParent(b: Block, base: int, stack: seq<int>, c: nat)
    requires c < |b.code| && NeverNegative(b.code) && StackHolds(b, base, stack, c)
    ensures HasParent(b, base, c, stack[|stack| - 1])
  {
    OpenIsAll(b.code, c);
    if Depth(b.code, c) > 0 {
      LastOpenEncloses(b.code, c);
    }
  }

  /** The guard of the temporary that begins at `c`. */
  method GuardOf(b: Block, base: int, c: nat, boffset: nat, parent: int) returns (g: Guard)
    requires WellNested(b.code) && JumpsFollow(b.code)
    requires c < |b.code| && b.code[c].Dctor? && boffset == b.offset + Off(b.code, c)
    requires HasParent(b, base, c, parent)
    ensures GuardsTemporary(b, base, c, g)
  {
    var eoffset, foffset := FindEnd(b, c, boffset);
    g := Guard(boffset, eoffset, parent, 0, foffset);
    ghost var j :| EndFound(b, c, j, eoffset, foffset);
    assert EndsAt(b, c, j, g);
  }

  /** Store `x` on top of the stack, which moves to a larger array when it is full. */
  method Push(stack: array<int>, stacki: nat, x: int) returns (pi: array<int>)
    requires stacki <= stack.Length
    modifies stack
    ensures pi == stack || fresh(pi)
    ensures stacki < pi.Length && pi[..stacki + 1] == old(stack[..stacki]) + [x]
  {
    pi := stack;
    if stacki == stack.Length {
      pi := new int[stack.Length + STACKINC];
      for k := 0 to stack.Length
        invariant pi[..k] == stack[..k]
        invariant stack[..] == old(stack[..])
      {
        pi[k] := stack[k];
      }
      assert pi[..stacki] == old(stack[..stacki]);
    }
    pi[stacki] := x;
  }

  ghost predicate Progress(b: Block, base: int, guards: seq<Guard>, scopeindex: int, boffset: nat, c: nat)
    requires c <= |b.code|
  {
    && TemporariesGuarded(b, base, guards, c)
    && scopeindex == base + Dctors(b.code, c) && boffset == b.offset + Off(b.code, c)
  }

  /** Append the guards of the temporaries of one block. The stack of scope indices starts
    with the block's own index. */
  method TemporaryGuards(b: Block, base: int) returns (guards: seq<Guard>)
    requires WellNested(b.code) && JumpsFollow(b.code)
    ensures TemporariesGuarded(b, base, guards, |b.code|)
  {
    var code := b.code;
    var stack := new int[STACKINC];
    stack[0] := b.scopeIndex;
    var stacki := 1;
    var scopeindex := base;
    var boffset: nat := b.offset;
    guards := [];
    var c := 0;
    while c < |code|
      invariant 0 <= c <= |code|
      invariant fresh(stack) && 1 <= stacki <= stack.Length
      invariant StackHolds(b, base, stack[..stacki], c)
      invariant Progress(b, base, guards, scopeindex, boffset, c)
    {
      ghost var before := stack[..stacki];
      if code[c].Dctor? {
        TopIsParent(b, base, before, c);
        var g := GuardOf(b, base, c, boffset, stack[stacki - 1]);
        AppendGuard(b, base, guards, boffset, c, g);
        guards := guards + [g];
        StackPushed(b, base, before, c, scopeindex);
        stack := Push(stack, stacki, scopeindex);
        stacki := stacki + 1;
        scopeindex := scopeindex + 1;
      } else {
        StackPopped(b, base, before, c);
        SkipInstruction(b, base, guards, scopeindex, boffset, c);
        if code[c].Ddtor? {
          stacki := stacki - 1;
          assert stacki != 0;
          assert stack[..stacki] == before[..|before| - 1];
        }
      }
      boffset := boffset + Size(code[c]);
      c := c + 1;
    }
  }

  lemma {:induction false} AppendGuard(b: Block, base: int, guards: seq<Guard>, boffset: nat, c: nat, g: Guard)
    requires c < |b.code| && b.code[c].Dctor? && GuardsTemporary(b, base, c, g)
    requires Progress(b, base, guards, base + |guards|, boffset, c)
    ensures Progress(b, base, guards + [g], base + |guards| + 1, boffset + Size(b.code[c]), c + 1)
  {
    forall i | 0 <= i < c + 1
      ensures GuardedAt(b, base, guards + [g], i)
    {
      if i < c {
        assert GuardedAt(b, base, guards, i);
        DctorsGrow(b.code, i, c);
      }
    }
  }

  lemma {:induction false} SkipInstruction(b: Block, base: int, guards: seq<Guard>, scopeindex: int, boffset: nat,
                                           c: nat)
    requires c < |b.code| && !b.code[c].Dctor? && Progress(b, base, guards, scopeindex, boffset, c)
    ensures Progress(b, base, guards, scopeindex, boffset + Size(b.code[c]), c + 1)
  {}

  // ----- nesting -----

  lemma {:induction false} OffGrows(code: seq<Code>, i: nat, j: nat)
    requires i <= j <= |code|
    ensures Off(code, i) <= Off(code, j)
    decreases j
  {
    if i < j { OffGrows(code, i, j - 1); }
  }

  /** Of two temporaries of a block, the later one is destroyed first, or begins only after
    the earlier one has been destroyed. */
  lemma {:induction false} PairsNest(code: seq<Code>, i: nat, j: nat, i': nat, j': nat)
    requires Matches(code, i, j) && Matches(code, i', j') && i < i'
    ensures j' < j || j < i'
    ensures Encloses(code, i, i') ==> j' < j
  {
    assert Depth(code, j + 1) == Depth(code, i);
    if i' < j {
      assert Depth(code, i') > Depth(code, i);
    }
  }

  lemma {:induction false} EndOf(b: Block, base: int, guards: seq<Guard>, i: nat) returns (g: Guard, j: nat)
    requires TemporariesGuarded(b, base, guards, |b.code|)
    requires i < |b.code| && b.code[i].Dctor?
    ensures Dctors(b.code, i) < |guards| && g == guards[Dctors(b.code, i)]
    ensures Matches(b.code, i, j)
    ensures g.offset == b.offset + Off(b.code, i) <= g.endoffset == b.offset + Off(b.code, j)
    ensures HasParent(b, base, i, g.parent)
  {
    assert GuardedAt(b, base, guards, i);
    g := guards[Dctors(b.code, i)];
    j :| EndsAt(b, i, j, g);
    OffGrows(b.code, i, j);
  }

  /** So the ranges of two guards of a block are nested or disjoint, that of a guard lies
    within that of its parent, and a parent comes before its children. */
  lemma {:induction false} GuardsNest(b: Block, base: int, guards: seq<Guard>, i: nat, i': nat)
    requires TemporariesGuarded(b, base, guards, |b.code|) && NeverNegative(b.code)
    requires i < i' < |b.code| && b.code[i].Dctor? && b.code[i'].Dctor?
    ensures Dctors(b.code, i) < Dctors(b.code, i') < |guards|
    ensures
      var g, g' := guards[Dctors(b.code, i)], guards[Dctors(b.code, i')];
      && g.offset <= g.endoffset && g.offset <= g'.offset
      && (g'.endoffset <= g.endoffset || g.endoffset <= g'.offset)
      && (Encloses(b.code, i, i') ==>
            g'.endoffset <= g.endoffset && g'.parent == base + Dctors(b.code, i))
  {
    var g, j := EndOf(b, base, guards, i);
    var g', j' := EndOf(b, base, guards, i');
    DctorsGrow(b.code, i, i');
    PairsNest(b.code, i, j, i', j');
    OffGrows(b.code, i, i');
    if j' < j { OffGrows(b.code, j', j); } else { OffGrows(b.code, j, i'); }
    if Encloses(b.code, i, i') { assert Depth(b.code, i) >= 0; ParentIs(b, base, i, i', g'.parent); }
  }

  lemma {:induction false} ParentIs(b: Block, base: int, i: nat, i': nat, parent: int)
    requires i' < |b.code| && Encloses(b.code, i, i') && HasParent(b, base, i', parent)
    requires Depth(b.code, i) >= 0
    ensures parent == base + Dctors(b.code, i)
  {
    var p :| Encloses(b.code, p, i') && parent == base + Dctors(b.code, p);
    EnclosingIsUnique(b.code, i, p, i');
  }

  /** The parent of a guard has a smaller index, if that of the block has. */
  lemma {:induction false} ParentsPrecede(b: Block, base: int, guards: seq<Guard>, i: nat)
    requires TemporariesGuarded(b, base, guards, |b.code|) && b.scopeIndex < base
    requires i < |b.code| && b.code[i].Dctor?
    ensures Dctors(b.code, i) < |guards|
    ensures guards[Dctors(b.code, i)].parent < base + Dctors(b.code, i)
  {
    assert GuardedAt(b, base, guards, i);
    var g := guards[Dctors(b.code, i)];
    if Depth(b.code, i) != 0 {
      var p :| Encloses(b.code, p, i) && g.parent == base + Dctors(b.code, p);
      DctorsGrow(b.code, p, i);
    }
  }
}
