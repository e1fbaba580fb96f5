/** Lowering of expressions whose temporaries need destruction.

  `ToElem` collects the variables it constructs in a list that belongs to the function
  being lowered; `ToElemDtor` afterwards destroys the ones added by one expression. The
  second operand of `&&` and `||` and both arms of `?:` are lowered with `ToElemDtor`,
  because they may not be evaluated. */
module Temporaries {
  type Var = nat

  datatype Kind = Void | Scalar | Aggregate

  /** Front-end expressions. `Value` is any expression without temporaries of its own:
    a constant, a variable or something with an effect, such as a call. */
  datatype Leaf = Constant(n: int) | Variable(id: nat) | Effect(id: nat)

  datatype Exp =
    | Value(leaf: Leaf, kind: Kind)
    | Declare(v: Var, init: Init)
    | CommaExp(e1: Exp, e2: Exp)
    | BinExp(op: nat, e1: Exp, e2: Exp)
    | AndAndExp(kind: Kind, e1: Exp, e2: Exp)
    | OrOrExp(kind: Kind, e1: Exp, e2: Exp)
    | CondExp(econd: Exp, e1: Exp, e2: Exp)

  datatype Init = NoInit | Init(e: Exp)

  /** Back-end trees. `Keep(e, d)` is `((tmp = e, tmp), d), tmp` for a fresh `tmp`. */
  datatype Elem =
    | Leaf(leaf: Leaf, kind: Kind)
    | Dctor(v: Var)
    | Info(v: Var, e: Elem)
    | Ddtor(v: Var)
    | Comma(e1: Elem, e2: Elem)
    | Bin(op: nat, e1: Elem, e2: Elem)
    | AndAnd(kind: Kind, e1: Elem, e2: Elem)
    | OrOr(kind: Kind, e1: Elem, e2: Elem)
    | Cond(kind: Kind, econd: Elem, e1: Elem, e2: Elem)
    | Addr(e: Elem)
    | Ind(kind: Kind, e: Elem)
    | Keep(e: Elem, d: Elem)

  function ExpKind(e: Exp): Kind {
    match e
    case Value(_, k) => k
    case Declare(_, i) => if i.NoInit? then Void else ExpKind(i.e)
    case CommaExp(_, e2) => ExpKind(e2)
    case BinExp(_, _, _) => Scalar
    case AndAndExp(k, _, _) => k
    case OrOrExp(k, _, _) => k
    case CondExp(_, e1, _) => ExpKind(e1)
  }

  function KindOf(e: Elem): Kind {
    match e
    case Leaf(_, k) => k
    case Dctor(_) => Void
    case Info(_, e) => KindOf(e)
    case Ddtor(_) => Void
    case Comma(_, e2) => KindOf(e2)
    case Bin(_, _, _) => Scalar
    case AndAnd(k, _, _) => k
    case OrOr(k, _, _) => k
    case Cond(k, _, _, _) => k
    case Addr(_) => Scalar
    case Ind(k, _) => k
    case Keep(e, _) => KindOf(e)
  }

  predicate HasSideEffect(e: Elem) {
    match e
    case Leaf(l, _) => l.Effect?
    case Dctor(_) => true
    case Info(_, _) => true
    case Ddtor(_) => true
    case Comma(e1, e2) => HasSideEffect(e1) || HasSideEffect(e2)
    case Bin(_, e1, e2) => HasSideEffect(e1) || HasSideEffect(e2)
    case AndAnd(_, e1, e2) => HasSideEffect(e1) || HasSideEffect(e2)
    case OrOr(_, e1, e2) => HasSideEffect(e1) || HasSideEffect(e2)
    case Cond(_, c, e1, e2) => HasSideEffect(c) || HasSideEffect(e1) || HasSideEffect(e2)
    case Addr(e) => HasSideEffect(e)
    case Ind(_, e) => HasSideEffect(e)
    case Keep(_, _) => true
  }

  // ----- what happens when expressions and trees are evaluated -----

  datatype Event = Called(id: nat) | Constructed(v: Var) | Destroyed(v: Var)

  /** What has happened so far. */
  type History = seq<Event>

  /** The values of variables and of the results of effects, which every event may change, and
    the results of binary operators; a program outcome is one choice of these. */
  datatype Env = Env(variable: (nat, History) -> int, effect: (nat, History) -> int, binary: (nat, int, int) -> int)

  /** Where a value is read from. */
  datatype Place = Named(id: nat) | Result(id: nat) | Literal(n: int)

  function Contents(p: Place, env: Env, h: History): int {
    match p
    case Named(id) => env.variable(id, h)
    case Result(id) => env.effect(id, h)
    case Literal(n) => n
  }

  function LeafTrace(l: Leaf): seq<Event> {
    if l.Effect? then [Called(l.id)] else []
  }

  function LeafPlace(l: Leaf): Place {
    match l
    case Constant(n) => Literal(n)
    case Variable(id) => Named(id)
    case Effect(id) => Result(id)
  }

  function LeafValue(l: Leaf, env: Env, h: History): int {
    Contents(LeafPlace(l), env, h + LeafTrace(l))
  }

  function Truth(b: bool): int { if b then 1 else 0 }

  /** The events of a tree that is evaluated after `h`. */
  function ElemTrace(e: Elem, env: Env, h: History): seq<Event>
    decreases e, 0
  {
    match e
    case Leaf(l, _) => LeafTrace(l)
    case Dctor(v) => [Constructed(v)]
    case Info(v, e1) => ElemTrace(e1, env, h) + [Constructed(v)]
    case Ddtor(v) => [Destroyed(v)]
    case Comma(e1, e2) => var t := ElemTrace(e1, env, h); t + ElemTrace(e2, env, h + t)
    case Bin(_, e1, e2) => var t := ElemTrace(e1, env, h); t + ElemTrace(e2, env, h + t)
    case AndAnd(_, e1, e2) =>
      var t := ElemTrace(e1, env, h);
      t + if ElemValue(e1, env, h) != 0 then ElemTrace(e2, env, h + t) else []
    case OrOr(_, e1, e2) =>
      var t := ElemTrace(e1, env, h);
      t + if ElemValue(e1, env, h) == 0 then ElemTrace(e2, env, h + t) else []
    case Cond(_, c, e1, e2) =>
      var t := ElemTrace(c, env, h);
      t + if ElemValue(c, env, h) != 0 then ElemTrace(e1, env, h + t) else ElemTrace(e2, env, h + t)
    case Addr(e1) => ElemTrace(e1, env, h)
    case Ind(_, e1) => ElemTrace(e1, env, h)
    case Keep(e1, d) => var t := ElemTrace(e1, env, h); t + ElemTrace(d, env, h + t)
  }

  /** The value of a tree; void trees count as 0. An indirection reads what is there after its
    operand has been evaluated, and an aggregate that is constructed is what it then holds. */
  function ElemValue(e: Elem, env: Env, h: History): int
    decreases e, 0
  {
    if KindOf(e) == Void then 0 else
    match e
    case Leaf(l, _) => LeafValue(l, env, h)
    case Dctor(_) => 0
    case Info(v, e1) =>
      if KindOf(e1) == Aggregate then env.variable(v, h + (ElemTrace(e1, env, h) + [Constructed(v)]))
      else ElemValue(e1, env, h)
    case Ddtor(_) => 0
    case Comma(e1, e2) => ElemValue(e2, env, h + ElemTrace(e1, env, h))
    case Bin(op, e1, e2) =>
      env.binary(op, ElemValue(e1, env, h), ElemValue(e2, env, h + ElemTrace(e1, env, h)))
    case AndAnd(_, e1, e2) =>
      Truth(ElemValue(e1, env, h) != 0 && ElemValue(e2, env, h + ElemTrace(e1, env, h)) != 0)
    case OrOr(_, e1, e2) =>
      Truth(ElemValue(e1, env, h) != 0 || ElemValue(e2, env, h + ElemTrace(e1, env, h)) != 0)
    case Cond(_, c, e1, e2) =>
      var h1 := h + ElemTrace(c, env, h);
      if ElemValue(c, env, h) != 0 then ElemValue(e1, env, h1) else ElemValue(e2, env, h1)
    case Addr(e1) => ElemValue(e1, env, h)
    case Ind(_, e1) => Contents(PlaceOf(e1, env, h), env, h + ElemTrace(e1, env, h))
    case Keep(e1, _) => ElemValue(e1, env, h)
  }

  /** The place that a tree names, or that the pointer which it computes points to. A temporary
    copy is not reached by anything else. */
  function PlaceOf(e: Elem, env: Env, h: History): Place
    decreases e, 1
  {
    if KindOf(e) == Void then Literal(0) else
    match e
    case Leaf(l, _) => LeafPlace(l)
    case Info(v, e1) => if KindOf(e1) == Aggregate then Named(v) else PlaceOf(e1, env, h)
    case Comma(e1, e2) => PlaceOf(e2, env, h + ElemTrace(e1, env, h))
    case Cond(k, c, e1, e2) =>
      var h1 := h + ElemTrace(c, env, h);
      var arm := if ElemValue(c, env, h) != 0 then e1 else e2;
      if KindOf(arm) == k then PlaceOf(arm, env, h1) else Literal(ElemValue(arm, env, h1))
    case Addr(e1) => PlaceOf(e1, env, h)
    case Ind(_, e1) => PlaceOf(e1, env, h)
    case Keep(e1, _) =>
      if KindOf(e1) == Aggregate then Literal(ElemValue(e1, env, h)) else PlaceOf(e1, env, h)
    case _ => Literal(ElemValue(e, env, h))
  }

  // ----- the reference: the source, which destroys the temporaries of a scope at its end -----

  /** The temporaries that an expression leaves for the end of the scope it is in. The second
    operands of `&&` and `||` and the arms of `?:` are scopes of their own. */
  function Pending(e: Exp): seq<Var> {
    match e
    case Value(_, _) => []
    case Declare(v, i) => (if i.NoInit? then [] else Pending(i.e)) + [v]
    case CommaExp(e1, e2) => Pending(e1) + Pending(e2)
    case BinExp(_, e1, e2) => Pending(e1) + Pending(e2)
    case AndAndExp(_, e1, _) => Pending(e1)
    case OrOrExp(_, e1, _) => Pending(e1)
    case CondExp(c, _, _) => Pending(c)
  }

  /** Destruction, the latest first. */
  function Unwind(vs: seq<Var>): seq<Event> {
    if vs == [] then [] else [Destroyed(vs[|vs| - 1])] + Unwind(vs[..|vs| - 1])
  }

  /** The value of an expression; that of a scope is computed before its temporaries are destroyed. */
  function Meaning(e: Exp, env: Env, h: History): int
    decreases e, 0
  {
    if ExpKind(e) == Void then 0 else
    match e
    case Value(l, _) => LeafValue(l, env, h)
    case Declare(v, i) =>
      if i.NoInit? then 0
      else if ExpKind(e) == Aggregate then env.variable(v, h + (Effects(i.e, env, h) + [Constructed(v)]))
      else Meaning(i.e, env, h)
    case CommaExp(e1, e2) => Meaning(e2, env, h + Effects(e1, env, h))
    case BinExp(op, e1, e2) => env.binary(op, Meaning(e1, env, h), Meaning(e2, env, h + Effects(e1, env, h)))
    case AndAndExp(_, e1, e2) => Truth(Meaning(e1, env, h) != 0 && Meaning(e2, env, h + Effects(e1, env, h)) != 0)
    case OrOrExp(_, e1, e2) => Truth(Meaning(e1, env, h) != 0 || Meaning(e2, env, h + Effects(e1, env, h)) != 0)
    case CondExp(c, e1, e2) =>
      var h1 := h + Effects(c, env, h);
      if Meaning(c, env, h) != 0 then Meaning(e1, env, h1) else Meaning(e2, env, h1)
  }

  /** Its events up to the end of its evaluation. */
  function Effects(e: Exp, env: Env, h: History): seq<Event>
    decreases e, 0
  {
    match e
    case Value(l, _) => LeafTrace(l)
    case Declare(v, i) => (if i.NoInit? then [] else Effects(i.e, env, h)) + [Constructed(v)]
    case CommaExp(e1, e2) => var t := Effects(e1, env, h); t + Effects(e2, env, h + t)
    case BinExp(_, e1, e2) => var t := Effects(e1, env, h); t + Effects(e2, env, h + t)
    case AndAndExp(_, e1, e2) =>
      var t := Effects(e1, env, h);
      t + if Meaning(e1, env, h) != 0 then ScopeEffects(e2, env, h + t) else []
    case OrOrExp(_, e1, e2) =>
      var t := Effects(e1, env, h);
      t + if Meaning(e1, env, h) == 0 then ScopeEffects(e2, env, h + t) else []
    case CondExp(c, e1, e2) =>
      var t := Effects(c, env, h);
      t + if Meaning(c, env, h) != 0 then ScopeEffects(e1, env, h + t) else ScopeEffects(e2, env, h + t)
  }

  /** The events of a scope. */
  function ScopeEffects(e: Exp, env: Env, h: History): seq<Event>
    decreases e, 1
  {
    Effects(e, env, h) + Unwind(Pending(e))
  }

  datatype Option<T> = None | Some(value: T)

  /** Plays a trace on the stack of constructed variables; only the variable that was
    constructed last may be destroyed. */
  function Play(stack: seq<Var>, t: seq<Event>): Option<seq<Var>>
    decreases t
  {
    if t == [] then Some(stack)
    else match t[0]
      case Called(_) => Play(stack, t[1..])
      case Constructed(v) => Play(stack + [v], t[1..])
      case Destroyed(v) =>
        if stack != [] && stack[|stack| - 1] == v then Play(stack[..|stack| - 1], t[1..]) else None
  }

  // ----- the lowering -----

  type Scope = seq<Option<Var>>

  /** `edtors` after the loop of `appendDtors` has handled the entries from `lo` below `hi`. */
  function Dtors(vars: Scope, lo: nat, hi: nat): Option<Elem>
    requires lo <= hi <= |vars|
    decreases hi
  {
    if lo == hi then None
    else
      var rest := Dtors(vars, lo, hi - 1);
      match vars[hi - 1]
      case None => rest
      case Some(v) => if rest.None? then Some(Ddtor(v)) else Some(Comma(Ddtor(v), rest.value))
  }

  function Cleared(vars: Scope, lo: nat, hi: nat): (c: Scope)
    requires lo <= hi <= |vars|
    ensures |c| == |vars|
  {
    vars[..lo] + seq(hi - lo, _ => None) + vars[hi..]
  }

  lemma {:induction false} ClearedStep(vars: Scope, lo: nat, i: nat)
    requires lo <= i < |vars|
    ensures Cleared(vars, lo, i)[i] == vars[i]
    ensures Cleared(vars, lo, i + 1) == Cleared(vars, lo, i)[i := None]
  {}

  /** Destroy after a value has been computed, at the end of the chain of commas. */
  function AfterValue(er: Elem, edtors: Elem): Elem {
    match er
    case Comma(e1, e2) => Comma(e1, AfterValue(e2, edtors))
    case Leaf(Constant(_), _) => Comma(edtors, er)
    case _ =>
      if KindOf(er) == Aggregate then Ind(Aggregate, Same(Addr(er), edtors)) else Same(er, edtors)
  }

  /** `el_same`: an elem with side effects is evaluated into a temporary. */
  function Same(e: Elem, edtors: Elem): Elem {
    if HasSideEffect(e) then Keep(e, edtors) else Comma(Comma(e, edtors), e)
  }

  function WithDtors(er: Elem, edtors: Option<Elem>): Elem {
    if edtors.None? then er
    else if KindOf(er) == Void then Comma(er, edtors.value)
    else AfterValue(er, edtors.value)
  }

  /** `toElem`: the tree, and the list of variables in scope afterwards. */
  function Lower(e: Exp, vars: Scope): (r: (Elem, Scope))
    ensures |vars| <= |r.1| && r.1[..|vars|] == vars
    decreases e, 0
  {
    match e
    case Value(l, k) => (Leaf(l, k), vars)
    case Declare(v, i) =>
      (match i
       case NoInit => (Dctor(v), vars + [Some(v)])
       case Init(e1) => var (el, vars1) := Lower(e1, vars); (Info(v, el), vars1 + [Some(v)]))
    case CommaExp(e1, e2) =>
      var (el, vars1) := Lower(e1, vars);
      var (er, vars2) := Lower(e2, vars1);
      (Comma(el, er), vars2)
    case BinExp(op, e1, e2) =>
      var (el, vars1) := Lower(e1, vars);
      var (er, vars2) := Lower(e2, vars1);
      (Bin(op, el, er), vars2)
    case AndAndExp(k, e1, e2) =>
      var (el, vars1) := Lower(e1, vars);
      var (er, vars2) := LowerDtor(e2, vars1);
      (AndAnd(k, el, er), vars2)
    case OrOrExp(k, e1, e2) =>
      var (el, vars1) := Lower(e1, vars);
      var (er, vars2) := LowerDtor(e2, vars1);
      (OrOr(k, el, er), vars2)
    case CondExp(c, e1, e2) =>
      var (ec, vars1) := Lower(c, vars);
      var (el, vars2) := LowerDtor(e1, vars1);
      var (er, vars3) := LowerDtor(e2, vars2);
      (Cond(KindOf(el), ec, el, er), vars3)
  }

  /** `toElemDtor`. */
  function LowerDtor(e: Exp, vars: Scope): (r: (Elem, Scope))
    ensures |vars| <= |r.1| && r.1[..|vars|] == vars
    ensures forall i :: |vars| <= i < |r.1| ==> r.1[i] == None
    decreases e, 1
  {
    var (er, vars1) := Lower(e, vars);
    (WithDtors(er, Dtors(vars1, |vars|, |vars1|)), Cleared(vars1, |vars|, |vars1|))
  }

  // ----- the lowering as the source runs it -----

  class IRState {
    var varsInScope: Scope

    constructor ()
      ensures varsInScope == []
    {
      varsInScope := [];
    }

    method AppendDtors(er: Elem, starti: nat, endi: nat) returns (r: Elem)
      requires starti <= endi <= |varsInScope|
      modifies this
      ensures varsInScope == Cleared(old(varsInScope), starti, endi)
      ensures r == WithDtors(er, Dtors(old(varsInScope), starti, endi))
    {
      var edtors: Option<Elem> := None;
      var i := starti;
      while i != endi
        invariant starti <= i <= endi
        invariant varsInScope == Cleared(old(varsInScope), starti, i)
        invariant |varsInScope| == |old(varsInScope)|
        invariant edtors == Dtors(old(varsInScope), starti, i)
      {
        var vd := varsInScope[i];
        ClearedStep(old(varsInScope), starti, i);
        if vd.Some? {
          varsInScope := varsInScope[i := None];
          var ed := Ddtor(vd.value);
          edtors := Some(if edtors.None? then ed else Comma(ed, edtors.value));
        }
        i := i + 1;
      }
      r := WithDtors(er, edtors);
    }

    method ToElemDtor(e: Exp) returns (r: Elem)
      modifies this
      ensures (r, varsInScope) == LowerDtor(e, old(varsInScope))
      decreases e, 1
    {
      var starti := |varsInScope|;
      var er := ToElem(e);
      var endi := |varsInScope|;
      r := AppendDtors(er, starti, endi);
    }

    method ToElem(e: Exp) returns (r: Elem)
      modifies this
      ensures (r, varsInScope) == Lower(e, old(varsInScope))
      decreases e, 0
    {
      match e {
        case Value(l, k) =>
          r := Leaf(l, k);
        case Declare(v, i) =>
          match i {
            case NoInit =>
              r := Dctor(v);
            case Init(e1) =>
              var el := ToElem(e1);
              r := Info(v, el);
          }
          varsInScope := varsInScope + [Some(v)];
        case CommaExp(e1, e2) =>
          var el := ToElem(e1);
          var er := ToElem(e2);
          r := Comma(el, er);
        case BinExp(op, e1, e2) =>
          var el := ToElem(e1);
          var er := ToElem(e2);
          r := Bin(op, el, er);
        case AndAndExp(k, e1, e2) =>
          var el := ToElem(e1);
          var er := ToElemDtor(e2);
          r := AndAnd(k, el, er);
        case OrOrExp(k, e1, e2) =>
          var el := ToElem(e1);
          var er := ToElemDtor(e2);
          r := OrOr(k, el, er);
        case CondExp(c, e1, e2) =>
          var ec := ToElem(c);
          var el := ToElemDtor(e1);
          var er := ToElemDtor(e2);
          r := Cond(KindOf(el), ec, el, er);
      }
    }
  }

  // ----- appending destructors -----

  function Live(vars: Scope): (l: seq<Var>) {
    if vars == [] then []
    else (if vars[0].None? then [] else [vars[0].value]) + Live(vars[1..])
  }

  lemma {:induction false} LiveAppend(a: Scope, b: Scope)
    ensures Live(a + b) == Live(a) + Live(b)
    decreases a
  {
    if a == [] {
      assert a + b == b;
    } else {
      assert (a + b)[1..] == a[1..] + b;
      LiveAppend(a[1..], b);
    }
  }

  lemma {:induction false} LiveOfNone(a: Scope)
    requires forall i :: 0 <= i < |a| ==> a[i] == None
    ensures Live(a) == []
    decreases a
  {
    if a != [] { LiveOfNone(a[1..]); }
  }

  lemma {:induction false} PlayAppend(stack: seq<Var>, s: seq<Event>, t: seq<Event>, mid: seq<Var>)
    requires Play(stack, s) == Some(mid)
    ensures Play(stack, s + t) == Play(mid, t)
    decreases s
  {
    if s == [] {
      assert s + t == t;
    } else {
      assert (s + t)[1..] == s[1..] + t;
      match s[0]
      case Called(_) => PlayAppend(stack, s[1..], t, mid);
      case Constructed(v) => PlayAppend(stack + [v], s[1..], t, mid);
      case Destroyed(v) => PlayAppend(stack[..|stack| - 1], s[1..], t, mid);
    }
  }

  lemma {:induction false} PlayDestroyed(stack: seq<Var>, v: Var, t: seq<Event>)
    ensures Play(stack + [v], [Destroyed(v)] + t) == Play(stack, t)
  {
    var full := stack + [v];
    assert full[..|full| - 1] == stack;
    assert ([Destroyed(v)] + t)[1..] == t;
  }

  lemma {:induction false} LiveLast(vars: Scope, lo: nat, hi: nat)
    requires lo < hi <= |vars|
    ensures Live(vars[lo..hi]) == Live(vars[lo..hi - 1]) + if vars[hi - 1].None? then [] else [vars[hi - 1].value]
  {
    assert vars[lo..hi] == vars[lo..hi - 1] + [vars[hi - 1]];
    LiveAppend(vars[lo..hi - 1], [vars[hi - 1]]);
    assert [vars[hi - 1]][1..] == [];
  }

  lemma {:induction false} UnwindLast(live: seq<Var>, v: Var)
    ensures Unwind(live + [v]) == [Destroyed(v)] + Unwind(live)
  {
    assert (live + [v])[..|live|] == live;
  }

  /** `d` computes nothing, and `u` is all that happens in it. */
  ghost predicate Destroys(d: Elem, u: seq<Event>) {
    KindOf(d) == Void && forall env: Env, h: History :: ElemTrace(d, env, h) == u
  }

  lemma {:induction false} DestroysOne(v: Var)
    ensures Destroys(Ddtor(v), [Destroyed(v)] + Unwind([]))
  {
    assert [Destroyed(v)] + [] == [Destroyed(v)];
  }

  lemma {:induction false} DtorsLast(vars: Scope, lo: nat, hi: nat)
    requires lo < hi <= |vars|
    ensures vars[hi - 1].None? ==> Dtors(vars, lo, hi) == Dtors(vars, lo, hi - 1)
    ensures vars[hi - 1].Some? ==>
      var rest, ed := Dtors(vars, lo, hi - 1), Ddtor(vars[hi - 1].value);
      Dtors(vars, lo, hi) == Some(if rest.None? then ed else Comma(ed, rest.value))
  {}

  lemma {:induction false} DestroysFirst(v: Var, rest: Elem, u: seq<Event>)
    requires Destroys(rest, u)
    ensures Destroys(Comma(Ddtor(v), rest), [Destroyed(v)] + u)
  {}

  /** The generated destructors destroy exactly the live variables, the latest first. */
  lemma {:induction false} DtorsUnwind(vars: Scope, lo: nat, hi: nat)
    requires lo <= hi <= |vars|
    ensures Dtors(vars, lo, hi).None? <==> Live(vars[lo..hi]) == []
    ensures Dtors(vars, lo, hi).Some? ==> Destroys(Dtors(vars, lo, hi).value, Unwind(Live(vars[lo..hi])))
    decreases hi
  {
    if lo == hi {
      assert vars[lo..hi] == [];
    } else {
      var live, rest := Live(vars[lo..hi - 1]), Dtors(vars, lo, hi - 1);
      LiveLast(vars, lo, hi);
      DtorsLast(vars, lo, hi);
      DtorsUnwind(vars, lo, hi - 1);
      if vars[hi - 1].Some? {
        var v := vars[hi - 1].value;
        UnwindLast(live, v);
        if rest.Some? {
          DestroysFirst(v, rest.value, Unwind(live));
        } else {
          DestroysOne(v);
        }
      } else {
        assert live + [] == live;
      }
    }
  }

  lemma {:induction false} UnwindPlays(vs: seq<Var>, stack: seq<Var>)
    ensures Play(stack + vs, Unwind(vs)) == Some(stack)
    decreases |vs|
  {
    if vs == [] {
      assert stack + vs == stack;
    } else {
      var n := |vs| - 1;
      UnwindPlays(vs[..n], stack);
      PlayDestroyed(stack + vs[..n], vs[n], Unwind(vs[..n]));
      assert stack + vs == stack + vs[..n] + [vs[n]];
    }
  }

  lemma {:induction false} PureTrace(e: Elem, env: Env, h: History)
    requires !HasSideEffect(e)
    ensures ElemTrace(e, env, h) == []
  {
    assert h + [] == h;
    match e
    case Leaf(_, _) =>
    case Comma(e1, e2) => PureTrace(e1, env, h); PureTrace(e2, env, h);
    case Bin(_, e1, e2) => PureTrace(e1, env, h); PureTrace(e2, env, h);
    case AndAnd(_, e1, e2) => PureTrace(e1, env, h); PureTrace(e2, env, h);
    case OrOr(_, e1, e2) => PureTrace(e1, env, h); PureTrace(e2, env, h);
    case Cond(_, c, e1, e2) => PureTrace(c, env, h); PureTrace(e1, env, h); PureTrace(e2, env, h);
    case Addr(e1) => PureTrace(e1, env, h);
    case Ind(_, e1) => PureTrace(e1, env, h);
  }

  lemma {:induction false} SameRuns(e: Elem, d: Elem, env: Env, h: History)
    ensures
      var h1 := h + ElemTrace(e, env, h);
      ElemTrace(Same(e, d), env, h) == ElemTrace(e, env, h) + ElemTrace(d, env, h1)
    ensures KindOf(Same(e, d)) == KindOf(e)
  {
    if !HasSideEffect(e) {
      PureTrace(e, env, h);
      var t := ElemTrace(d, env, h);
      assert h + [] == h && [] + t == t;
      assert ElemTrace(Comma(e, d), env, h) == t;
      PureTrace(e, env, h + t);
      assert t + [] == t;
    }
  }

  lemma {:induction false} AfterTailRuns(er: Elem, edtors: Elem, u: seq<Event>, env: Env, h: History)
    requires Destroys(edtors, u) && !er.Comma?
    ensures ElemTrace(AfterValue(er, edtors), env, h) == ElemTrace(er, env, h) + u
    ensures KindOf(AfterValue(er, edtors)) == KindOf(er)
  {
    if er.Leaf? && er.leaf.Constant? {
      assert u + [] == u == [] + u;
    } else if KindOf(er) == Aggregate {
      SameRuns(Addr(er), edtors, env, h);
      assert AfterValue(er, edtors) == Ind(Aggregate, Same(Addr(er), edtors));
    } else {
      SameRuns(er, edtors, env, h);
      assert AfterValue(er, edtors) == Same(er, edtors);
    }
  }

  /** The destructors run after everything else. */
  lemma {:induction false} AfterValueRuns(er: Elem, edtors: Elem, u: seq<Event>, env: Env, h: History)
    requires Destroys(edtors, u)
    ensures ElemTrace(AfterValue(er, edtors), env, h) == ElemTrace(er, env, h) + u
    ensures KindOf(AfterValue(er, edtors)) == KindOf(er)
  {
    if er.Comma? {
      var t := ElemTrace(er.e1, env, h);
      AfterValueRuns(er.e2, edtors, u, env, h + t);
      assert t + (ElemTrace(er.e2, env, h + t) + u) == (t + ElemTrace(er.e2, env, h + t)) + u;
    } else {
      AfterTailRuns(er, edtors, u, env, h);
    }
  }

  lemma {:induction false} WithDtorsRuns(er: Elem, vars: Scope, lo: nat, hi: nat, env: Env, h: History)
    requires lo <= hi <= |vars|
    ensures var r := WithDtors(er, Dtors(vars, lo, hi));
            && ElemTrace(r, env, h) == ElemTrace(er, env, h) + Unwind(Live(vars[lo..hi]))
            && KindOf(r) == KindOf(er)
  {
    var d := Dtors(vars, lo, hi);
    DtorsUnwind(vars, lo, hi);
    if d.Some? && KindOf(er) != Void { AfterValueRuns(er, d.value, Unwind(Live(vars[lo..hi])), env, h); }
  }

  // ----- every temporary is destroyed once, whatever the values are -----

  /** From any stack the trace constructs the given variables and leaves them, in order. */
  ghost predicate Leaves(t: seq<Event>, live: seq<Var>) {
    forall stack: seq<Var> :: Play(stack, t) == Some(stack + live)
  }

  lemma {:induction false} LeavesAppend(t: seq<Event>, live: seq<Var>, t': seq<Event>, live': seq<Var>)
    requires Leaves(t, live) && Leaves(t', live')
    ensures Leaves(t + t', live + live')
  {
    forall stack: seq<Var>
      ensures Play(stack, t + t') == Some(stack + (live + live'))
    {
      PlayAppend(stack, t, t', stack + live);
      assert (stack + live) + live' == stack + (live + live');
    }
  }

  lemma {:induction false} NothingLeft()
    ensures Leaves([], [])
  {
    forall stack: seq<Var> ensures Play(stack, []) == Some(stack + []) { assert stack + [] == stack; }
  }

  lemma {:induction false} OneLeft(v: Var)
    ensures Leaves([Constructed(v)], [v])
  {
    assert [Constructed(v)][1..] == [];
  }

  lemma {:induction false} LeafLeaves(l: Leaf)
    ensures Leaves(LeafTrace(l), [])
  {
    NothingLeft();
    if l.Effect? {
      assert LeafTrace(l)[1..] == [];
      forall stack: seq<Var> ensures Play(stack, LeafTrace(l)) == Some(stack + []) { assert stack + [] == stack; }
    }
  }

  lemma {:induction false} LowerKeepsKind(e: Exp, vars: Scope)
    ensures KindOf(Lower(e, vars).0) == ExpKind(e)
    decreases e, 0
  {
    match e
    case Value(l, k) =>
    case Declare(v, i) => if i.Init? { LowerKeepsKind(i.e, vars); }
    case CommaExp(e1, e2) => LowerKeepsKind(e2, Lower(e1, vars).1);
    case BinExp(op, e1, e2) =>
    case AndAndExp(k, e1, e2) =>
    case OrOrExp(k, e1, e2) =>
    case CondExp(c, e1, e2) => ScopeKeepsKind(e1, Lower(c, vars).1);
  }

  lemma {:induction false} ScopeKeepsKind(e: Exp, vars: Scope)
    ensures KindOf(LowerDtor(e, vars).0) == ExpKind(e)
    decreases e, 1
  {
    LowerKeepsKind(e, vars);
    var env := Env((x, h) => 0, (x, h) => 0, (o, x, y) => 0);
    var (er, vars1) := Lower(e, vars);
    WithDtorsRuns(er, vars1, |vars|, |vars1|, env, []);
  }

  /** What the lowering does to the list of variables. */
  lemma {:induction false} LowerLists(e: Exp, vars: Scope)
    ensures Live(Lower(e, vars).1[|vars|..]) == Pending(e)
    decreases e
  {
    match e
    case Value(l, k) =>
      assert Lower(e, vars).1[|vars|..] == [];
    case Declare(v, i) =>
      assert Live([Some(v)]) == [v];
      if i.NoInit? {
        assert Lower(e, vars).1[|vars|..] == [Some(v)];
      } else {
        var vars1 := Lower(i.e, vars).1;
        LowerLists(i.e, vars);
        assert Lower(e, vars).1[|vars|..] == vars1[|vars|..] + [Some(v)];
        LiveAppend(vars1[|vars|..], [Some(v)]);
      }
    case CommaExp(e1, e2) =>
      LowerLists(e1, vars);
      LowerLists(e2, Lower(e1, vars).1);
      ListsAppend(vars, Lower(e1, vars).1, Lower(e2, Lower(e1, vars).1).1);
    case BinExp(op, e1, e2) =>
      LowerLists(e1, vars);
      LowerLists(e2, Lower(e1, vars).1);
      ListsAppend(vars, Lower(e1, vars).1, Lower(e2, Lower(e1, vars).1).1);
    case AndAndExp(k, e1, e2) =>
      LowerLists(e1, vars);
      ScopeLists(e2, vars, Lower(e1, vars).1);
    case OrOrExp(k, e1, e2) =>
      LowerLists(e1, vars);
      ScopeLists(e2, vars, Lower(e1, vars).1);
    case CondExp(c, e1, e2) =>
      LowerLists(c, vars);
      ScopeLists(e1, vars, Lower(c, vars).1);
      ScopeLists(e2, vars, LowerDtor(e1, Lower(c, vars).1).1);
  }

  /** A scope leaves no live variables behind. */
  lemma {:induction false} ScopeLists(e: Exp, vars: Scope, vars1: Scope)
    requires |vars| <= |vars1|
    ensures Live(LowerDtor(e, vars1).1[|vars|..]) == Live(vars1[|vars|..])
  {
    var vars2 := LowerDtor(e, vars1).1;
    ListsAppend(vars, vars1, vars2);
    LiveOfNone(vars2[|vars1|..]);
    assert Live(vars1[|vars|..]) + [] == Live(vars1[|vars|..]);
  }

  lemma {:induction false} ListsAppend(vars: Scope, vars1: Scope, vars2: Scope)
    requires |vars| <= |vars1| <= |vars2| && vars2[..|vars1|] == vars1
    ensures Live(vars2[|vars|..]) == Live(vars1[|vars|..]) + Live(vars2[|vars1|..])
  {
    LiveAppend(vars1[|vars|..], vars2[|vars1|..]);
    assert vars2[|vars|..] == vars1[|vars|..] + vars2[|vars1|..];
  }

  lemma {:induction false} PerhapsLeaves(t: seq<Event>, live: seq<Var>, runs: bool, t': seq<Event>)
    requires Leaves(t, live) && (runs ==> Leaves(t', []))
    ensures Leaves(t + if runs then t' else [], live)
  {
    NothingLeft();
    LeavesAppend(t, live, if runs then t' else [], []);
    assert live + [] == live;
  }

  lemma {:induction false} BothLeave(el: Elem, er: Elem, live: seq<Var>, live': seq<Var>, op: nat, env: Env, h: History)
    requires Leaves(ElemTrace(el, env, h), live)
    requires Leaves(ElemTrace(er, env, h + ElemTrace(el, env, h)), live')
    ensures Leaves(ElemTrace(Comma(el, er), env, h), live + live')
    ensures Leaves(ElemTrace(Bin(op, el, er), env, h), live + live')
  {
    LeavesAppend(ElemTrace(el, env, h), live, ElemTrace(er, env, h + ElemTrace(el, env, h)), live');
  }

  lemma {:induction false} PerhapsLeave(el: Elem, er: Elem, live: seq<Var>, k: Kind, env: Env, h: History)
    requires Leaves(ElemTrace(el, env, h), live)
    requires Leaves(ElemTrace(er, env, h + ElemTrace(el, env, h)), [])
    ensures Leaves(ElemTrace(AndAnd(k, el, er), env, h), live)
    ensures Leaves(ElemTrace(OrOr(k, el, er), env, h), live)
  {
    var t, t' := ElemTrace(el, env, h), ElemTrace(er, env, h + ElemTrace(el, env, h));
    PerhapsLeaves(t, live, true, t');
    PerhapsLeaves(t, live, false, t');
  }

  lemma {:induction false} OneArmLeaves(ec: Elem, el: Elem, er: Elem, live: seq<Var>, k: Kind, env: Env, h: History)
    requires Leaves(ElemTrace(ec, env, h), live)
    requires Leaves(ElemTrace(el, env, h + ElemTrace(ec, env, h)), [])
    requires Leaves(ElemTrace(er, env, h + ElemTrace(ec, env, h)), [])
    ensures Leaves(ElemTrace(Cond(k, ec, el, er), env, h), live)
  {
    var t := ElemTrace(ec, env, h);
    PerhapsLeaves(t, live, true, ElemTrace(el, env, h + t));
    PerhapsLeaves(t, live, true, ElemTrace(er, env, h + t));
  }

  /** For every outcome, evaluating a tree leaves constructed just the variables that are pending. */
  lemma {:induction false} LowerLeaves(e: Exp, vars: Scope, env: Env, h: History)
    ensures Leaves(ElemTrace(Lower(e, vars).0, env, h), Pending(e))
    decreases e, 0
  {
    match e
    case Value(l, k) => LeafLeaves(l);
    case Declare(v, i) =>
      OneLeft(v);
      if i.NoInit? {
        assert [] + [v] == [v];
      } else {
        LowerLeaves(i.e, vars, env, h);
        LeavesAppend(ElemTrace(Lower(i.e, vars).0, env, h), Pending(i.e), [Constructed(v)], [v]);
      }
    case CommaExp(e1, e2) =>
      var (el, vars1) := Lower(e1, vars);
      LowerLeaves(e1, vars, env, h);
      LowerLeaves(e2, vars1, env, h + ElemTrace(el, env, h));
      BothLeave(el, Lower(e2, vars1).0, Pending(e1), Pending(e2), 0, env, h);
    case BinExp(op, e1, e2) =>
      var (el, vars1) := Lower(e1, vars);
      LowerLeaves(e1, vars, env, h);
      LowerLeaves(e2, vars1, env, h + ElemTrace(el, env, h));
      BothLeave(el, Lower(e2, vars1).0, Pending(e1), Pending(e2), op, env, h);
    case AndAndExp(k, e1, e2) =>
      var (el, vars1) := Lower(e1, vars);
      LowerLeaves(e1, vars, env, h);
      ScopeLeaves(e2, vars1, env, h + ElemTrace(el, env, h));
      PerhapsLeave(el, LowerDtor(e2, vars1).0, Pending(e1), k, env, h);
    case OrOrExp(k, e1, e2) =>
      var (el, vars1) := Lower(e1, vars);
      LowerLeaves(e1, vars, env, h);
      ScopeLeaves(e2, vars1, env, h + ElemTrace(el, env, h));
      PerhapsLeave(el, LowerDtor(e2, vars1).0, Pending(e1), k, env, h);
    case CondExp(c, e1, e2) =>
      var (ec, vars1) := Lower(c, vars);
      var (el, vars2) := LowerDtor(e1, vars1);
      LowerLeaves(c, vars, env, h);
      ScopeLeaves(e1, vars1, env, h + ElemTrace(ec, env, h));
      ScopeLeaves(e2, vars2, env, h + ElemTrace(ec, env, h));
      OneArmLeaves(ec, el, LowerDtor(e2, vars2).0, Pending(c), KindOf(el), env, h);
  }

  /** `toElemDtor` destroys what its expression constructed. */
  lemma {:induction false} ScopeLeaves(e: Exp, vars: Scope, env: Env, h: History)
    ensures Leaves(ElemTrace(LowerDtor(e, vars).0, env, h), [])
    decreases e, 1
  {
    LowerLeaves(e, vars, env, h);
    LowerLists(e, vars);
    var (er, vars1) := Lower(e, vars);
    assert vars1[|vars|..|vars1|] == vars1[|vars|..];
    WithDtorsRuns(er, vars1, |vars|, |vars1|, env, h);
    UnwindLeaves(ElemTrace(er, env, h), Pending(e));
  }

  lemma {:induction false} UnwindLeaves(t: seq<Event>, live: seq<Var>)
    requires Leaves(t, live)
    ensures Leaves(t + Unwind(live), [])
  {
    forall stack: seq<Var> ensures Play(stack, t + Unwind(live)) == Some(stack + []) {
      PlayAppend(stack, t, Unwind(live), stack + live);
      UnwindPlays(live, stack);
      assert stack + [] == stack;
    }
  }

  /** The main result on lifetimes: whatever values variables, calls and operators have and
    however events change them, every temporary that is constructed is destroyed once, the
    latest first, and nothing else is destroyed. */
  lemma {:induction false} TemporariesBalance(e: Exp, vars: Scope, env: Env, h: History)
    ensures Play([], ElemTrace(LowerDtor(e, vars).0, env, h)) == Some([])
  {
    ScopeLeaves(e, vars, env, h);
    var t := ElemTrace(LowerDtor(e, vars).0, env, h);
    var empty: seq<Var> := [];
    assert Play(empty, t) == Some(empty + []);
    assert empty + [] == empty;
  }

  // ----- when the value survives the destructors -----

  /** What is evaluated last. */
  function TailOf(er: Elem): Elem {
    if er.Comma? then TailOf(er.e2) else er
  }

  /** The value of an aggregate is what its place holds when it has been evaluated. */
  lemma {:induction false} AggregateValue(e: Elem, env: Env, h: History)
    requires KindOf(e) == Aggregate
    ensures ElemValue(e, env, h) == Contents(PlaceOf(e, env, h), env, h + ElemTrace(e, env, h))
  {
    match e
    case Comma(e1, e2) =>
      var t := ElemTrace(e1, env, h);
      AggregateValue(e2, env, h + t);
      assert h + t + ElemTrace(e2, env, h + t) == h + (t + ElemTrace(e2, env, h + t));
    case Cond(k, c, e1, e2) =>
      var t := ElemTrace(c, env, h);
      var arm := if ElemValue(c, env, h) != 0 then e1 else e2;
      if KindOf(arm) == Aggregate { AggregateValue(arm, env, h + t); }
      assert h + t + ElemTrace(arm, env, h + t) == h + (t + ElemTrace(arm, env, h + t));
    case _ =>
  }

  /** After destructors that do `u` the value is read again where it is not a constant and not
    kept in a temporary: this says that the same is read. */
  predicate Survives(er: Elem, u: seq<Event>, env: Env, h: History) {
    match er
    case Comma(e1, e2) => Survives(e2, u, env, h + ElemTrace(e1, env, h))
    case Leaf(Constant(_), _) => true
    case _ =>
      if !HasSideEffect(er) then ElemValue(er, env, h + u) == ElemValue(er, env, h)
      else KindOf(er) == Aggregate ==>
        var p, h1 := PlaceOf(er, env, h), h + ElemTrace(er, env, h);
        Contents(p, env, h1 + u) == Contents(p, env, h1)
  }

  /** For one outcome. */
  lemma {:induction false} SurvivesExactly(er: Elem, d: Elem, u: seq<Event>, env: Env, h: History)
    requires Destroys(d, u) && KindOf(er) != Void
    ensures ElemValue(AfterValue(er, d), env, h) == ElemValue(er, env, h) <==> Survives(er, u, env, h)
  {
    if er.Comma? {
      var h1 := h + ElemTrace(er.e1, env, h);
      SurvivesExactly(er.e2, d, u, env, h1);
      AfterValueRuns(er.e2, d, u, env, h1);
      CommaValue(er.e1, er.e2, env, h);
      CommaValue(er.e1, AfterValue(er.e2, d), env, h);
    } else {
      TailSurvives(er, d, u, env, h);
    }
  }

  lemma {:induction false} CommaValue(e1: Elem, e2: Elem, env: Env, h: History)
    requires KindOf(e2) != Void
    ensures ElemValue(Comma(e1, e2), env, h) == ElemValue(e2, env, h + ElemTrace(e1, env, h))
  {}

  lemma {:induction false} TailSurvives(er: Elem, d: Elem, u: seq<Event>, env: Env, h: History)
    requires Destroys(d, u) && KindOf(er) != Void && !er.Comma?
    ensures ElemValue(AfterValue(er, d), env, h) == ElemValue(er, env, h) <==> Survives(er, u, env, h)
  {
    if er.Leaf? && er.leaf.Constant? {
      CommaValue(d, er, env, h);
      assert AfterValue(er, d) == Comma(d, er);
    } else if !HasSideEffect(er) {
      PureAgain(er, d, u, env, h);
    } else if KindOf(er) == Aggregate {
      AggregateValue(er, env, h);
      KeptAggregate(er, d, u, env, h);
    } else {
      assert AfterValue(er, d) == Keep(er, d);
      KeptScalar(er, d, env, h);
    }
  }

  lemma {:induction false} KeptScalar(er: Elem, d: Elem, env: Env, h: History)
    requires KindOf(er) == Scalar
    ensures ElemValue(Keep(er, d), env, h) == ElemValue(er, env, h)
  {}

  lemma {:induction false} KeptAggregate(er: Elem, d: Elem, u: seq<Event>, env: Env, h: History)
    requires Destroys(d, u) && KindOf(er) == Aggregate && HasSideEffect(er) && !er.Comma?
    requires !(er.Leaf? && er.leaf.Constant?)
    ensures ElemValue(AfterValue(er, d), env, h) == Contents(PlaceOf(er, env, h), env, h + ElemTrace(er, env, h) + u)
  {
    var kept, t := Keep(Addr(er), d), ElemTrace(er, env, h);
    assert ElemTrace(Addr(er), env, h) == t;
    assert ElemTrace(kept, env, h) == t + u;
    assert PlaceOf(Addr(er), env, h) == PlaceOf(er, env, h);
    assert PlaceOf(kept, env, h) == PlaceOf(er, env, h);
    assert AfterValue(er, d) == Ind(Aggregate, kept);
    assert h + (t + u) == h + t + u;
  }

  lemma {:induction false} PureAgain(er: Elem, d: Elem, u: seq<Event>, env: Env, h: History)
    requires Destroys(d, u) && KindOf(er) != Void && !HasSideEffect(er)
    requires !er.Comma? && !(er.Leaf? && er.leaf.Constant?)
    ensures ElemValue(AfterValue(er, d), env, h) == ElemValue(er, env, h + u)
  {
    if KindOf(er) == Aggregate {
      PureAggregateAgain(er, d, u, env, h);
    } else {
      assert AfterValue(er, d) == Comma(Comma(er, d), er);
      TwiceRuns(er, d, u, env, h);
    }
  }

  lemma {:induction false} PureAggregateAgain(er: Elem, d: Elem, u: seq<Event>, env: Env, h: History)
    requires Destroys(d, u) && KindOf(er) == Aggregate && !HasSideEffect(er)
    requires !er.Comma? && !(er.Leaf? && er.leaf.Constant?)
    ensures ElemValue(AfterValue(er, d), env, h) == ElemValue(er, env, h + u)
  {
    var e1 := Addr(er);
    assert AfterValue(er, d) == Ind(Aggregate, Comma(Comma(e1, d), e1));
    TwiceRuns(e1, d, u, env, h);
    assert PlaceOf(e1, env, h + u) == PlaceOf(er, env, h + u);
    AggregateValue(er, env, h + u);
    PureTrace(er, env, h + u);
    assert h + u + [] == h + u;
  }

  lemma {:induction false} TwiceRuns(e: Elem, d: Elem, u: seq<Event>, env: Env, h: History)
    requires Destroys(d, u) && KindOf(e) == Scalar && !HasSideEffect(e)
    ensures ElemTrace(Comma(Comma(e, d), e), env, h) == u
    ensures ElemValue(Comma(Comma(e, d), e), env, h) == ElemValue(e, env, h + u)
    ensures PlaceOf(Comma(Comma(e, d), e), env, h) == PlaceOf(e, env, h + u)
  {
    PureTrace(e, env, h);
    PureTrace(e, env, h + u);
    assert [] + u == u && u + [] == u && h + [] == h;
    assert ElemTrace(Comma(e, d), env, h) == u;
  }

  // ----- when it survives for every outcome -----

  /** The places that the destructors leave alone. */
  ghost predicate Untouched(safe: set<Place>, u: seq<Event>, env: Env) {
    forall p | p in safe :: KeepsContents(p, u, env)
  }

  ghost predicate KeepsContents(p: Place, u: seq<Event>, env: Env) {
    forall h: History :: Contents(p, env, h + u) == Contents(p, env, h)
  }

  /** The value of a tree without effects is determined by what is in the safe places. */
  ghost predicate ReadsOnly(e: Elem, safe: set<Place>) {
    forall env: Env, env': Env :: SameIn(safe, env, env') ==> ElemValue(e, env, []) == ElemValue(e, env', [])
  }

  ghost predicate SameIn(safe: set<Place>, env: Env, env': Env) {
    env.binary == env'.binary && forall x: nat | Named(x) in safe :: env.variable(x, []) == env'.variable(x, [])
  }

  /** What is evaluated last is a constant, or is kept in a temporary, or reads nothing but safe
    places; where only a pointer is kept, it is to a safe place. */
  ghost predicate Steady(er: Elem, u: seq<Event>, safe: set<Place>) {
    var e := TailOf(er);
    || (e.Leaf? && e.leaf.Constant?)
    || if !HasSideEffect(e) then ReadsOnly(e, safe)
       else KindOf(e) == Aggregate ==>
              forall env: Env, h: History :: Untouched(safe, u, env) ==> PointsToSafe(er, safe, env, h)
  }

  ghost predicate PointsToSafe(er: Elem, safe: set<Place>, env: Env, h: History) {
    PlaceOf(er, env, h).Literal? || PlaceOf(er, env, h) in safe
  }

  function Before(er: Elem, env: Env, h: History): History {
    if er.Comma? then Before(er.e2, env, h + ElemTrace(er.e1, env, h)) else h
  }

  lemma {:induction false} TailIsLast(er: Elem, u: seq<Event>, env: Env, h: History)
    requires KindOf(er) != Void
    ensures var h1 := Before(er, env, h);
            && h1 + ElemTrace(TailOf(er), env, h1) == h + ElemTrace(er, env, h)
            && PlaceOf(er, env, h) == PlaceOf(TailOf(er), env, h1)
            && (Survives(er, u, env, h) <==> Survives(TailOf(er), u, env, h1))
            && KindOf(TailOf(er)) == KindOf(er) && !TailOf(er).Comma?
  {
    if er.Comma? {
      var t := ElemTrace(er.e1, env, h);
      TailIsLast(er.e2, u, env, h + t);
      assert h + t + ElemTrace(er.e2, env, h + t) == h + (t + ElemTrace(er.e2, env, h + t));
    }
  }

  /** The outcomes are the same as long as no more than `n` events have happened. */
  ghost predicate SameUpTo(n: nat, env: Env, env': Env) {
    && env.binary == env'.binary
    && forall x: nat, h: History | |h| <= n ::
         env.variable(x, h) == env'.variable(x, h) && env.effect(x, h) == env'.effect(x, h)
  }

  ghost predicate RunsAlike(e: Elem, env: Env, env': Env, h: History) {
    && ElemTrace(e, env, h) == ElemTrace(e, env', h)
    && ElemValue(e, env, h) == ElemValue(e, env', h)
    && PlaceOf(e, env, h) == PlaceOf(e, env', h)
  }

  lemma {:induction false} SameRun(e: Elem, n: nat, env: Env, env': Env, h: History)
    requires SameUpTo(n, env, env') && |h + ElemTrace(e, env, h)| <= n
    ensures RunsAlike(e, env, env', h)
  {
    match e
    case Leaf(_, _) =>
    case Dctor(_) =>
    case Ddtor(_) =>
    case Info(v, e1) => SameRun(e1, n, env, env', h);
    case Comma(e1, e2) => SameRun(e1, n, env, env', h); SameRun(e2, n, env, env', h + ElemTrace(e1, env, h));
    case Bin(_, e1, e2) => SameRun(e1, n, env, env', h); SameRun(e2, n, env, env', h + ElemTrace(e1, env, h));
    case AndAnd(_, e1, e2) =>
      SameRun(e1, n, env, env', h);
      if ElemValue(e1, env, h) != 0 { SameRun(e2, n, env, env', h + ElemTrace(e1, env, h)); }
    case OrOr(_, e1, e2) =>
      SameRun(e1, n, env, env', h);
      if ElemValue(e1, env, h) == 0 { SameRun(e2, n, env, env', h + ElemTrace(e1, env, h)); }
    case Cond(_, c, e1, e2) =>
      SameRun(c, n, env, env', h);
      SameRun(if ElemValue(c, env, h) != 0 then e1 else e2, n, env, env', h + ElemTrace(c, env, h));
    case Addr(e1) => SameRun(e1, n, env, env', h);
    case Ind(_, e1) => SameRun(e1, n, env, env', h);
    case Keep(e1, d) => SameRun(e1, n, env, env', h); SameRun(d, n, env, env', h + ElemTrace(e1, env, h));
  }

  /** The variables that a tree without effects may read. */
  function Reads(e: Elem): set<nat> {
    match e
    case Leaf(l, _) => if l.Variable? then {l.id} else {}
    case Comma(_, e2) => Reads(e2)
    case Bin(_, e1, e2) => Reads(e1) + Reads(e2)
    case AndAnd(_, e1, e2) => Reads(e1) + Reads(e2)
    case OrOr(_, e1, e2) => Reads(e1) + Reads(e2)
    case Cond(_, c, e1, e2) => Reads(c) + Reads(e1) + Reads(e2)
    case Addr(e1) => Reads(e1)
    case Ind(_, e1) => Reads(e1)
    case _ => {}
  }

  /** Its value depends on nothing else. */
  lemma {:induction false} PureReads(e: Elem, env: Env, h: History, env': Env, h': History)
    requires !HasSideEffect(e) && env.binary == env'.binary
    requires forall x: nat | x in Reads(e) :: env.variable(x, h) == env'.variable(x, h')
    ensures ElemValue(e, env, h) == ElemValue(e, env', h')
    ensures PlaceOf(e, env, h) == PlaceOf(e, env', h')
  {
    assert h + [] == h && h' + [] == h';
    match e
    case Leaf(_, _) =>
    case Comma(e1, e2) => PureReadsBoth(e1, e2, env, h, env', h'); PureReads(e2, env, h, env', h');
    case Bin(_, e1, e2) =>
      PureReadsBoth(e1, e2, env, h, env', h');
      PureReads(e1, env, h, env', h');
      PureReads(e2, env, h, env', h');
    case AndAnd(_, e1, e2) =>
      PureReadsBoth(e1, e2, env, h, env', h');
      PureReads(e1, env, h, env', h');
      PureReads(e2, env, h, env', h');
    case OrOr(_, e1, e2) =>
      PureReadsBoth(e1, e2, env, h, env', h');
      PureReads(e1, env, h, env', h');
      PureReads(e2, env, h, env', h');
    case Cond(_, c, e1, e2) =>
      PureReadsBoth(c, e1, env, h, env', h');
      PureReads(c, env, h, env', h');
      PureReads(if ElemValue(c, env, h) != 0 then e1 else e2, env, h, env', h');
    case Addr(e1) => PureReads(e1, env, h, env', h');
    case Ind(_, e1) =>
      PureReads(e1, env, h, env', h');
      PureTrace(e1, env, h);
      PureTrace(e1, env', h');
      PurePlace(e1, env, h);
  }

  lemma {:induction false} PureReadsBoth(e1: Elem, e2: Elem, env: Env, h: History, env': Env, h': History)
    requires !HasSideEffect(e1)
    ensures h + ElemTrace(e1, env, h) == h && h' + ElemTrace(e1, env', h') == h'
  {
    PureTrace(e1, env, h);
    PureTrace(e1, env', h');
  }

  lemma {:induction false} PurePlace(e: Elem, env: Env, h: History)
    requires !HasSideEffect(e)
    ensures !PlaceOf(e, env, h).Result?
    ensures PlaceOf(e, env, h).Named? ==> PlaceOf(e, env, h).id in Reads(e)
  {
    match e
    case Leaf(_, _) =>
    case Comma(e1, e2) => PurePlace(e2, env, h + ElemTrace(e1, env, h));
    case Bin(_, e1, e2) =>
    case AndAnd(_, e1, e2) =>
    case OrOr(_, e1, e2) =>
    case Cond(_, c, e1, e2) =>
      PurePlace(if ElemValue(c, env, h) != 0 then e1 else e2, env, h + ElemTrace(c, env, h));
    case Addr(e1) => PurePlace(e1, env, h);
    case Ind(_, e1) => PurePlace(e1, env, h);
  }

  /** `env`, but with `n` in the place `p` after `h`. */
  function Put(env: Env, p: Place, h: History, n: int): Env {
    Env((x: nat, g: History) => if Named(x) == p && g == h then n else env.variable(x, g),
        (x: nat, g: History) => if Result(x) == p && g == h then n else env.effect(x, g),
        env.binary)
  }

  lemma {:induction false} PutElsewhere(env: Env, p: Place, h: History, n: int, q: Place, g: History)
    requires g != h || q != p
    ensures Contents(q, Put(env, p, h, n), g) == Contents(q, env, g)
  {}

  lemma {:induction false} PutKeepsSafe(env: Env, p: Place, h: History, n: int, u: seq<Event>, safe: set<Place>)
    requires Untouched(safe, u, env) && p !in safe
    ensures Untouched(safe, u, Put(env, p, h, n))
  {
    var env' := Put(env, p, h, n);
    forall q | q in safe ensures KeepsContents(q, u, env') {
      assert KeepsContents(q, u, env);
      forall g: History ensures Contents(q, env', g + u) == Contents(q, env', g) {
        PutElsewhere(env, p, h, n, q, g + u);
        PutElsewhere(env, p, h, n, q, g);
      }
    }
  }

  lemma {:induction false} SteadySurvives(er: Elem, u: seq<Event>, safe: set<Place>, env: Env, h: History)
    requires KindOf(er) != Void && Steady(er, u, safe) && Untouched(safe, u, env)
    ensures Survives(er, u, env, h)
  {
    TailIsLast(er, u, env, h);
    var e, h1 := TailOf(er), Before(er, env, h);
    if e.Leaf? && e.leaf.Constant? {
    } else if !HasSideEffect(e) {
      ReadAgain(e, u, safe, env, h1);
    } else if KindOf(e) == Aggregate {
      assert PointsToSafe(er, safe, env, h);
      var p := PlaceOf(er, env, h);
      if p in safe {
        assert KeepsContents(p, u, env);
        assert Contents(p, env, h1 + ElemTrace(e, env, h1) + u) == Contents(p, env, h1 + ElemTrace(e, env, h1));
      }
    }
  }

  lemma {:induction false} ReadAgain(e: Elem, u: seq<Event>, safe: set<Place>, env: Env, h: History)
    requires !HasSideEffect(e) && ReadsOnly(e, safe) && Untouched(safe, u, env)
    ensures ElemValue(e, env, h + u) == ElemValue(e, env, h)
  {
    var before := Env((x: nat, g: History) => env.variable(x, h), env.effect, env.binary);
    var after := Env((x: nat, g: History) => env.variable(x, h + u), env.effect, env.binary);
    PureReads(e, env, h, before, []);
    PureReads(e, env, h + u, after, []);
    forall x: nat | Named(x) in safe ensures before.variable(x, []) == after.variable(x, []) {
      assert KeepsContents(Named(x), u, env);
      assert Contents(Named(x), env, h + u) == Contents(Named(x), env, h);
    }
    assert SameIn(safe, before, after);
  }

  /** Values for variables before and after the history `h`. */
  function Turning(before: Env, after: Env, h: History): Env {
    Env((x: nat, g: History) => if g == h then after.variable(x, []) else before.variable(x, []),
        (x: nat, g: History) => 0,
        before.binary)
  }

  lemma {:induction false} TurningKeepsSafe(before: Env, after: Env, h: History, u: seq<Event>, safe: set<Place>)
    requires SameIn(safe, before, after)
    ensures Untouched(safe, u, Turning(before, after, h))
  {
    var env := Turning(before, after, h);
    forall q | q in safe ensures KeepsContents(q, u, env) {
      forall g: History ensures Contents(q, env, g + u) == Contents(q, env, g) {
        if q.Named? { assert before.variable(q.id, []) == after.variable(q.id, []); }
      }
    }
  }

  /** A tree that reads something else has an outcome in which it is lost. */
  lemma {:induction false} ReadsElsewhere(er: Elem, u: seq<Event>, safe: set<Place>, before: Env, after: Env)
    returns (env: Env)
    requires KindOf(er) != Void && !HasSideEffect(TailOf(er)) && u != []
    requires !(TailOf(er).Leaf? && TailOf(er).leaf.Constant?)
    requires SameIn(safe, before, after)
    requires ElemValue(TailOf(er), before, []) != ElemValue(TailOf(er), after, [])
    ensures Untouched(safe, u, env) && !Survives(er, u, env, [])
  {
    var first := Turning(before, before, []);
    var h := [] + ElemTrace(er, first, []);
    env := Turning(before, after, h + u);
    TurningKeepsSafe(before, after, h + u, u, safe);
    assert SameUpTo(|h|, first, env);
    SameRun(er, |h|, first, env, []);
    TailIsLast(er, u, env, []);
    var e, h1 := TailOf(er), Before(er, env, []);
    PureTrace(e, env, h1);
    assert h1 + [] == h1 == h;
    PureReads(e, env, h, before, []);
    PureReads(e, env, h + u, after, []);
  }

  lemma {:induction false} PointsElsewhere(er: Elem, u: seq<Event>, safe: set<Place>, env: Env, h: History)
    returns (env': Env)
    requires KindOf(er) == Aggregate && HasSideEffect(TailOf(er)) && u != []
    requires Untouched(safe, u, env) && !PointsToSafe(er, safe, env, h)
    ensures Untouched(safe, u, env') && !Survives(er, u, env', h)
  {
    var p, g := PlaceOf(er, env, h), h + ElemTrace(er, env, h);
    var n := Contents(p, env, g) + 1;
    env' := Put(env, p, g + u, n);
    PutKeepsSafe(env, p, g + u, n, u, safe);
    assert SameUpTo(|g|, env, env');
    SameRun(er, |g|, env, env', h);
    TailIsLast(er, u, env', h);
    PutElsewhere(env, p, g + u, n, p, g);
    assert Contents(p, env', g + u) == n;
  }

  /** The value of a tree survives its destructors in every outcome that leaves the safe
    places alone if and only if what is evaluated last is a constant, or is kept, or reads
    only safe places. */
  lemma {:induction false} SurvivesAlways(er: Elem, edtors: Elem, u: seq<Event>, safe: set<Place>)
    requires Destroys(edtors, u) && u != [] && KindOf(er) != Void
    ensures
      (forall env: Env, h: History :: Untouched(safe, u, env) ==> KeepsValue(er, edtors, env, h))
      <==> Steady(er, u, safe)
  {
    forall env: Env, h: History
      ensures KeepsValue(er, edtors, env, h) <==> Survives(er, u, env, h)
    {
      SurvivesExactly(er, edtors, u, env, h);
    }
    if Steady(er, u, safe) {
      forall env: Env, h: History | Untouched(safe, u, env) ensures KeepsValue(er, edtors, env, h) {
        SteadySurvives(er, u, safe, env, h);
      }
    } else if !HasSideEffect(TailOf(er)) {
      var e := TailOf(er);
      var before, after :| SameIn(safe, before, after) && ElemValue(e, before, []) != ElemValue(e, after, []);
      var env := ReadsElsewhere(er, u, safe, before, after);
      assert !KeepsValue(er, edtors, env, []);
    } else {
      var env, h :| Untouched(safe, u, env) && !PointsToSafe(er, safe, env, h);
      TailIsLast(er, u, env, h);
      var env' := PointsElsewhere(er, u, safe, env, h);
      assert !KeepsValue(er, edtors, env', h);
    }
  }

  ghost predicate KeepsValue(er: Elem, edtors: Elem, env: Env, h: History) {
    ElemValue(AfterValue(er, edtors), env, h) == ElemValue(er, env, h)
  }

  /** A tree without effects and without branches. */
  predicate Straight(e: Elem) {
    match e
    case Leaf(l, k) => k != Void && !l.Effect?
    case Bin(_, e1, e2) => Straight(e1) && Straight(e2)
    case Comma(e1, e2) => !HasSideEffect(e1) && Straight(e2)
    case Addr(e1) => Straight(e1)
    case Ind(k, e1) => k != Void && Straight(e1)
    case _ => false
  }

  /** All operators add, and the variable `x` holds `n`. */
  function Adding(x: Var, n: int): Env {
    Env((y: nat, g: History) => if y == x then n else 0, (y: nat, g: History) => 0, (op: nat, a: int, b: int) => a + b)
  }

  lemma {:induction false} StraightValue(e: Elem, x: Var, n: int)
    requires Straight(e)
    ensures KindOf(e) != Void && !HasSideEffect(e)
    ensures Contents(PlaceOf(e, Adding(x, n), []), Adding(x, n), []) == ElemValue(e, Adding(x, n), [])
  {
    match e
    case Leaf(_, _) =>
    case Bin(_, e1, e2) => StraightValue(e1, x, n); StraightValue(e2, x, n);
    case Comma(e1, e2) => PureTrace(e1, Adding(x, n), []); StraightValue(e2, x, n);
    case Addr(e1) => StraightValue(e1, x, n);
    case Ind(_, e1) => StraightValue(e1, x, n); PureTrace(e1, Adding(x, n), []);
  }

  /** The value of such a tree grows with each variable that it mentions. */
  lemma {:induction false} StraightGrows(e: Elem, x: Var)
    requires Straight(e)
    ensures ElemValue(e, Adding(x, 0), []) <= ElemValue(e, Adding(x, 1), [])
    ensures x in Reads(e) ==> ElemValue(e, Adding(x, 0), []) < ElemValue(e, Adding(x, 1), [])
  {
    StraightValue(e, x, 0);
    StraightValue(e, x, 1);
    match e
    case Leaf(_, _) =>
    case Bin(_, e1, e2) =>
      StraightValue(e1, x, 0);
      PureTrace(e1, Adding(x, 0), []);
      PureTrace(e1, Adding(x, 1), []);
      StraightGrows(e1, x);
      StraightGrows(e2, x);
    case Comma(e1, e2) =>
      PureTrace(e1, Adding(x, 0), []);
      PureTrace(e1, Adding(x, 1), []);
      StraightGrows(e2, x);
    case Addr(e1) => StraightGrows(e1, x);
    case Ind(_, e1) =>
      StraightValue(e1, x, 0);
      StraightValue(e1, x, 1);
      PureTrace(e1, Adding(x, 0), []);
      PureTrace(e1, Adding(x, 1), []);
      StraightGrows(e1, x);
  }

  /** For a tree that ends without branches the condition is that it mentions only safe variables. */
  lemma {:induction false} StraightIsSteady(er: Elem, u: seq<Event>, safe: set<Place>)
    requires Straight(TailOf(er))
    ensures Steady(er, u, safe) <==> forall x: Var | x in Reads(TailOf(er)) :: Named(x) in safe
  {
    var e := TailOf(er);
    StraightValue(e, 0, 0);
    if forall x: Var | x in Reads(e) :: Named(x) in safe {
      MentionsSafe(e, safe);
    } else {
      var x: Var :| x in Reads(e) && Named(x) !in safe;
      StraightGrows(e, x);
      assert SameIn(safe, Adding(x, 0), Adding(x, 1));
    }
  }

  // ----- whole expressions -----

  /** In the scopes within an expression that are evaluated, the values survive. */
  predicate InnerSurvive(e: Exp, vars: Scope, env: Env, h: History)
    decreases e, 0
  {
    match e
    case Value(_, _) => true
    case Declare(_, i) => i.NoInit? || InnerSurvive(i.e, vars, env, h)
    case CommaExp(e1, e2) =>
      InnerSurvive(e1, vars, env, h) && InnerSurvive(e2, Lower(e1, vars).1, env, h + Effects(e1, env, h))
    case BinExp(_, e1, e2) =>
      InnerSurvive(e1, vars, env, h) && InnerSurvive(e2, Lower(e1, vars).1, env, h + Effects(e1, env, h))
    case AndAndExp(_, e1, e2) =>
      && InnerSurvive(e1, vars, env, h)
      && (Meaning(e1, env, h) != 0 ==> ScopeSurvives(e2, Lower(e1, vars).1, env, h + Effects(e1, env, h)))
    case OrOrExp(_, e1, e2) =>
      && InnerSurvive(e1, vars, env, h)
      && (Meaning(e1, env, h) == 0 ==> ScopeSurvives(e2, Lower(e1, vars).1, env, h + Effects(e1, env, h)))
    case CondExp(c, e1, e2) =>
      var vars1, h1 := Lower(c, vars).1, h + Effects(c, env, h);
      && InnerSurvive(c, vars, env, h)
      && if Meaning(c, env, h) != 0 then ScopeSurvives(e1, vars1, env, h1)
         else ScopeSurvives(e2, LowerDtor(e1, vars1).1, env, h1)
  }

  predicate ScopeSurvives(e: Exp, vars: Scope, env: Env, h: History)
    decreases e, 1
  {
    InnerSurvive(e, vars, env, h) && ValueSurvives(e, vars, env, h)
  }

  predicate ValueSurvives(e: Exp, vars: Scope, env: Env, h: History) {
    Pending(e) == [] || ExpKind(e) == Void || Survives(Lower(e, vars).0, Unwind(Pending(e)), env, h)
  }

  ghost predicate Faithful(e: Exp, el: Elem, env: Env, h: History) {
    ElemTrace(el, env, h) == Effects(e, env, h) && ElemValue(el, env, h) == Meaning(e, env, h)
  }

  ghost predicate ScopeFaithful(e: Exp, el: Elem, env: Env, h: History) {
    ElemTrace(el, env, h) == ScopeEffects(e, env, h) && ElemValue(el, env, h) == Meaning(e, env, h)
  }

  lemma {:induction false} AndAndIsFaithful(k: Kind, e1: Exp, el: Elem, e2: Exp, er: Elem, env: Env, h: History)
    requires Faithful(e1, el, env, h)
    requires Meaning(e1, env, h) != 0 ==> ScopeFaithful(e2, er, env, h + Effects(e1, env, h))
    ensures Faithful(AndAndExp(k, e1, e2), AndAnd(k, el, er), env, h)
  {}

  lemma {:induction false} OrOrIsFaithful(k: Kind, e1: Exp, el: Elem, e2: Exp, er: Elem, env: Env, h: History)
    requires Faithful(e1, el, env, h)
    requires Meaning(e1, env, h) == 0 ==> ScopeFaithful(e2, er, env, h + Effects(e1, env, h))
    ensures Faithful(OrOrExp(k, e1, e2), OrOr(k, el, er), env, h)
  {}

  lemma {:induction false} CondIsFaithful(c: Exp, ec: Elem, e1: Exp, el: Elem, e2: Exp, er: Elem, env: Env, h: History)
    requires Faithful(c, ec, env, h) && KindOf(el) == ExpKind(e1)
    requires Meaning(c, env, h) != 0 ==> ScopeFaithful(e1, el, env, h + Effects(c, env, h))
    requires Meaning(c, env, h) == 0 ==> ScopeFaithful(e2, er, env, h + Effects(c, env, h))
    ensures Faithful(CondExp(c, e1, e2), Cond(KindOf(el), ec, el, er), env, h)
  {}

  /** A tree does what its expression does, as long as the values of the scopes within survive. */
  lemma {:induction false} LowerIsFaithful(e: Exp, vars: Scope, env: Env, h: History)
    requires InnerSurvive(e, vars, env, h)
    ensures Faithful(e, Lower(e, vars).0, env, h)
    decreases e, 0
  {
    LowerKeepsKind(e, vars);
    match e
    case Value(l, k) =>
    case Declare(v, i) =>
      if i.Init? { LowerIsFaithful(i.e, vars, env, h); LowerKeepsKind(i.e, vars); }
    case CommaExp(e1, e2) =>
      LowerIsFaithful(e1, vars, env, h);
      LowerIsFaithful(e2, Lower(e1, vars).1, env, h + Effects(e1, env, h));
    case BinExp(op, e1, e2) =>
      LowerIsFaithful(e1, vars, env, h);
      LowerIsFaithful(e2, Lower(e1, vars).1, env, h + Effects(e1, env, h));
    case AndAndExp(k, e1, e2) =>
      LowerIsFaithful(e1, vars, env, h);
      var (el, vars1) := Lower(e1, vars);
      if Meaning(e1, env, h) != 0 { ScopeIsFaithful(e2, vars1, env, h + Effects(e1, env, h)); }
      AndAndIsFaithful(k, e1, el, e2, LowerDtor(e2, vars1).0, env, h);
    case OrOrExp(k, e1, e2) =>
      LowerIsFaithful(e1, vars, env, h);
      var (el, vars1) := Lower(e1, vars);
      if Meaning(e1, env, h) == 0 { ScopeIsFaithful(e2, vars1, env, h + Effects(e1, env, h)); }
      OrOrIsFaithful(k, e1, el, e2, LowerDtor(e2, vars1).0, env, h);
    case CondExp(c, e1, e2) =>
      LowerIsFaithful(c, vars, env, h);
      var (ec, vars1) := Lower(c, vars);
      var (el, vars2) := LowerDtor(e1, vars1);
      var h1 := h + Effects(c, env, h);
      ScopeKeepsKind(e1, vars1);
      if Meaning(c, env, h) != 0 {
        ScopeIsFaithful(e1, vars1, env, h1);
      } else {
        ScopeIsFaithful(e2, vars2, env, h1);
      }
      CondIsFaithful(c, ec, e1, el, e2, LowerDtor(e2, vars2).0, env, h);
  }

  /** The events of a scope are those of the source, and its value is so if and only if it
    survives the destructors. */
  lemma {:induction false} ScopeIsFaithful(e: Exp, vars: Scope, env: Env, h: History)
    requires InnerSurvive(e, vars, env, h)
    ensures ElemTrace(LowerDtor(e, vars).0, env, h) == ScopeEffects(e, env, h)
    ensures ElemValue(LowerDtor(e, vars).0, env, h) == Meaning(e, env, h) <==> ValueSurvives(e, vars, env, h)
    decreases e, 1
  {
    LowerIsFaithful(e, vars, env, h);
    LowerLists(e, vars);
    LowerKeepsKind(e, vars);
    ScopeKeepsKind(e, vars);
    var (er, vars1) := Lower(e, vars);
    assert vars1[|vars|..|vars1|] == vars1[|vars|..];
    WithDtorsRuns(er, vars1, |vars|, |vars1|, env, h);
    var d := Dtors(vars1, |vars|, |vars1|);
    DtorsUnwind(vars1, |vars|, |vars1|);
    if d.Some? && ExpKind(e) != Void {
      SurvivesExactly(er, d.value, Unwind(Pending(e)), env, h);
    }
  }

  /** A tree that mentions only safe variables reads only safe places. */
  lemma {:induction false} MentionsSafe(e: Elem, safe: set<Place>)
    requires !HasSideEffect(e) && forall x: nat | x in Reads(e) :: Named(x) in safe
    ensures ReadsOnly(e, safe)
  {
    forall env: Env, env': Env | SameIn(safe, env, env') ensures ElemValue(e, env, []) == ElemValue(e, env', []) {
      PureReads(e, env, [], env', []);
    }
  }

  /** For an expression without operands the condition can be read off. */
  lemma {:induction false} LeafIsSteady(l: Leaf, k: Kind, u: seq<Event>, safe: set<Place>)
    requires k != Void
    ensures Steady(Leaf(l, k), u, safe) <==> l.Constant? || (l.Effect? && k == Scalar) || LeafPlace(l) in safe
  {
    var zero := Env((x: nat, g: History) => 0, (x: nat, g: History) => 0, (o: nat, x: int, y: int) => 0);
    var e := Leaf(l, k);
    match l
    case Constant(_) =>
    case Variable(id) =>
      if Named(id) in safe {
        MentionsSafe(e, safe);
      } else {
        var one := Env((x: nat, g: History) => if x == id then 1 else 0, zero.effect, zero.binary);
        assert SameIn(safe, zero, one);
        assert ElemValue(e, zero, []) == 0 && ElemValue(e, one, []) == 1;
      }
    case Effect(id) =>
      if k == Aggregate {
        assert Untouched(safe, u, zero);
        assert PointsToSafe(e, safe, zero, []) <==> Result(id) in safe;
      }
  }

  // ----- a guard that can be read off the expression -----

  /** What is evaluated last is a constant, or is kept by value, or mentions only safe variables. */
  predicate TailGuarded(er: Elem, safe: set<Var>) {
    var e := TailOf(er);
    || (e.Leaf? && e.leaf.Constant?)
    || if HasSideEffect(e) then KindOf(e) != Aggregate else Reads(e) <= safe
  }

  /** The scopes within an expression have such tails where they destroy something. */
  predicate InnerGuarded(e: Exp, vars: Scope, safe: set<Var>)
    decreases e, 0
  {
    match e
    case Value(_, _) => true
    case Declare(_, i) => i.NoInit? || InnerGuarded(i.e, vars, safe)
    case CommaExp(e1, e2) => InnerGuarded(e1, vars, safe) && InnerGuarded(e2, Lower(e1, vars).1, safe)
    case BinExp(_, e1, e2) => InnerGuarded(e1, vars, safe) && InnerGuarded(e2, Lower(e1, vars).1, safe)
    case AndAndExp(_, e1, e2) => InnerGuarded(e1, vars, safe) && Guarded(e2, Lower(e1, vars).1, safe)
    case OrOrExp(_, e1, e2) => InnerGuarded(e1, vars, safe) && Guarded(e2, Lower(e1, vars).1, safe)
    case CondExp(c, e1, e2) =>
      var vars1 := Lower(c, vars).1;
      && InnerGuarded(c, vars, safe) && Guarded(e1, vars1, safe) && Guarded(e2, LowerDtor(e1, vars1).1, safe)
  }

  predicate Guarded(e: Exp, vars: Scope, safe: set<Var>)
    decreases e, 1
  {
    && InnerGuarded(e, vars, safe)
    && (Pending(e) == [] || ExpKind(e) == Void || TailGuarded(Lower(e, vars).0, safe))
  }

  /** Destructors leave the safe variables alone. */
  ghost predicate LeavesAlone(safe: set<Var>, env: Env) {
    forall x, v: Var, h: History | x in safe :: KeepsVariable(x, v, env, h)
  }

  predicate KeepsVariable(x: Var, v: Var, env: Env, h: History) {
    env.variable(x, h + [Destroyed(v)]) == env.variable(x, h)
  }

  lemma {:induction false} UnwindKeeps(x: Var, vs: seq<Var>, safe: set<Var>, env: Env, h: History)
    requires LeavesAlone(safe, env) && x in safe
    ensures env.variable(x, h + Unwind(vs)) == env.variable(x, h)
    decreases |vs|
  {
    if vs == [] {
      assert h + [] == h;
    } else {
      var n := |vs| - 1;
      assert KeepsVariable(x, vs[n], env, h);
      UnwindKeeps(x, vs[..n], safe, env, h + [Destroyed(vs[n])]);
      assert h + ([Destroyed(vs[n])] + Unwind(vs[..n])) == h + [Destroyed(vs[n])] + Unwind(vs[..n]);
    }
  }

  lemma {:induction false} GuardedTailSurvives(er: Elem, vs: seq<Var>, safe: set<Var>, env: Env, h: History)
    requires KindOf(er) != Void && TailGuarded(er, safe) && LeavesAlone(safe, env)
    ensures Survives(er, Unwind(vs), env, h)
  {
    var u := Unwind(vs);
    TailIsLast(er, u, env, h);
    var e, h1 := TailOf(er), Before(er, env, h);
    if !HasSideEffect(e) && !(e.Leaf? && e.leaf.Constant?) {
      forall x: Var | x in Reads(e) ensures env.variable(x, h1 + u) == env.variable(x, h1) {
        UnwindKeeps(x, vs, safe, env, h1);
      }
      PureReads(e, env, h1 + u, env, h1);
    }
  }

  lemma {:induction false} GuardedSurvives(e: Exp, vars: Scope, safe: set<Var>, env: Env, h: History)
    requires InnerGuarded(e, vars, safe) && LeavesAlone(safe, env)
    ensures InnerSurvive(e, vars, env, h)
    decreases e, 0
  {
    match e
    case Value(_, _) =>
    case Declare(_, i) => if i.Init? { GuardedSurvives(i.e, vars, safe, env, h); }
    case CommaExp(e1, e2) =>
      GuardedSurvives(e1, vars, safe, env, h);
      GuardedSurvives(e2, Lower(e1, vars).1, safe, env, h + Effects(e1, env, h));
    case BinExp(_, e1, e2) =>
      GuardedSurvives(e1, vars, safe, env, h);
      GuardedSurvives(e2, Lower(e1, vars).1, safe, env, h + Effects(e1, env, h));
    case AndAndExp(_, e1, e2) =>
      GuardedSurvives(e1, vars, safe, env, h);
      GuardedScopeSurvives(e2, Lower(e1, vars).1, safe, env, h + Effects(e1, env, h));
    case OrOrExp(_, e1, e2) =>
      GuardedSurvives(e1, vars, safe, env, h);
      GuardedScopeSurvives(e2, Lower(e1, vars).1, safe, env, h + Effects(e1, env, h));
    case CondExp(c, e1, e2) =>
      var vars1, h1 := Lower(c, vars).1, h + Effects(c, env, h);
      GuardedSurvives(c, vars, safe, env, h);
      GuardedScopeSurvives(e1, vars1, safe, env, h1);
      GuardedScopeSurvives(e2, LowerDtor(e1, vars1).1, safe, env, h1);
  }

  lemma {:induction false} GuardedScopeSurvives(e: Exp, vars: Scope, safe: set<Var>, env: Env, h: History)
    requires Guarded(e, vars, safe) && LeavesAlone(safe, env)
    ensures ScopeSurvives(e, vars, env, h)
    decreases e, 1
  {
    GuardedSurvives(e, vars, safe, env, h);
    LowerKeepsKind(e, vars);
    if Pending(e) != [] && ExpKind(e) != Void {
      GuardedTailSurvives(Lower(e, vars).0, Pending(e), safe, env, h);
    }
  }

  /** The main result on values: a guarded expression is lowered to a tree with the events of the
    source and its value, for every history and every outcome in which destructors leave the safe
    variables alone. */
  lemma {:induction false} GuardedIsFaithful(e: Exp, vars: Scope, safe: set<Var>, env: Env, h: History)
    requires Guarded(e, vars, safe) && LeavesAlone(safe, env)
    ensures ScopeFaithful(e, LowerDtor(e, vars).0, env, h)
  {
    GuardedScopeSurvives(e, vars, safe, env, h);
    ScopeIsFaithful(e, vars, env, h);
  }

  // ----- what goes wrong -----

  /** A scope that constructs a variable and gives its value: the variable is read after it
    has been destroyed. */
  lemma {:induction false} DestroyedIsRead()
    returns (e: Exp, env: Env)
    ensures e == CommaExp(Declare(0, NoInit), Value(Variable(0), Scalar))
    ensures LowerDtor(e, []).0
         == Comma(Dctor(0), Comma(Comma(Leaf(Variable(0), Scalar), Ddtor(0)), Leaf(Variable(0), Scalar)))
    ensures Meaning(e, env, []) == 1 && ElemValue(LowerDtor(e, []).0, env, []) == 0
  {
    var read := Value(Variable(0), Scalar);
    e := CommaExp(Declare(0, NoInit), read);
    env := Env((x: nat, g: History) => if Destroyed(0) in g then 0 else 1,
               (x: nat, g: History) => 0,
               (o: nat, x: int, y: int) => 0);
    var er, vars := Comma(Dctor(0), Leaf(Variable(0), Scalar)), [Some(0)];
    assert Lower(read, vars) == (Leaf(Variable(0), Scalar), vars);
    assert [] + [Some(0)] == vars;
    assert Lower(e, []) == (er, vars);
    assert Dtors(vars, 0, 0) == None;
    assert Dtors(vars, 0, 1) == Some(Ddtor(0));
    var tail := AfterValue(Leaf(Variable(0), Scalar), Ddtor(0));
    assert tail == Comma(Comma(Leaf(Variable(0), Scalar), Ddtor(0)), Leaf(Variable(0), Scalar));
    assert WithDtors(er, Some(Ddtor(0))) == Comma(Dctor(0), tail);
    DestroyedIsReadValue(e, env);
  }

  lemma {:induction false} DestroyedIsReadValue(e: Exp, env: Env)
    requires e == CommaExp(Declare(0, NoInit), Value(Variable(0), Scalar))
    requires forall g: History :: env.variable(0, g) == if Destroyed(0) in g then 0 else 1
    ensures Meaning(e, env, []) == 1
    ensures
      var x := Leaf(Variable(0), Scalar);
      ElemValue(Comma(Dctor(0), Comma(Comma(x, Ddtor(0)), x)), env, []) == 0
  {
    var x := Leaf(Variable(0), Scalar);
    var c: History := [Constructed(0)];
    assert [] + c == c && c + [] == c;
    assert Effects(Declare(0, NoInit), env, []) == c;
    assert Meaning(Value(Variable(0), Scalar), env, c) == 1;
    var inner := Comma(x, Ddtor(0));
    assert ElemTrace(inner, env, c) == [] + [Destroyed(0)];
    var g := c + ElemTrace(inner, env, c);
    assert g[1] == Destroyed(0);
    assert g + [] == g;
    assert ElemValue(x, env, g) == 0;
    assert ElemValue(Comma(inner, x), env, c) == 0;
    assert ElemTrace(Dctor(0), env, []) == c;
  }
}
