/** Array operations: an expression over whole arrays is turned into a call of a function with a
  loop over the elements. The function is found by a name that spells the expression in RPN. */
module ArrayOp {
  datatype Option<T> = None | Some(value: T)

  datatype Op = Add | Min | Mul | Div | Mod | Xor | And | Or

  /** `Other` is any expression that is passed as it is. `ty` is the mangled name of its base type
    without qualifiers, for a slice that of its elements. */
  datatype Exp =
    | Other(id: nat, ty: string)
    | Slice(id: nat, ty: string)
    | ArrayCast(e: Exp)
    | Neg(e: Exp)
    | Com(e: Exp)
    | Bin(op: Op, e1: Exp, e2: Exp)
    | Assign(e1: Exp, e2: Exp)
    | OpAssign(op: Op, e1: Exp, e2: Exp)

  // ----- the name -----

  /** The words of a name. */
  datatype Word = ExpW | SliceW | NegW | ComW | BinW(op: Op) | AssignW | OpAssignW(op: Op)

  function OpName(op: Op): string {
    match op
    case Add => "Add"
    case Min => "Min"
    case Mul => "Mul"
    case Div => "Div"
    case Mod => "Mod"
    case Xor => "Xor"
    case And => "And"
    case Or => "Or"
  }

  function Spell(w: Word): string {
    match w
    case ExpW => "Exp"
    case SliceW => "Slice"
    case NegW => "Neg"
    case ComW => "Com"
    case BinW(op) => OpName(op)
    case AssignW => "Assign"
    case OpAssignW(op) => OpName(op) + "ass"
  }

  /** The expression in RPN; assignments name their source first. */
  function Words(e: Exp): seq<Word> {
    match e
    case Other(_, _) => [ExpW]
    case Slice(_, _) => [SliceW]
    case ArrayCast(e1) => Words(e1)
    case Neg(e1) => Words(e1) + [NegW]
    case Com(e1) => Words(e1) + [ComW]
    case Bin(op, e1, e2) => Words(e1) + Words(e2) + [BinW(op)]
    case Assign(e1, e2) => Words(e2) + Words(e1) + [AssignW]
    case OpAssign(op, e1, e2) => Words(e2) + Words(e1) + [OpAssignW(op)]
  }

  function SpellAll(ws: seq<Word>): string {
    if ws == [] then "" else Spell(ws[0]) + SpellAll(ws[1..])
  }

  /** The operands in the order in which they are met. */
  function Leaves(e: Exp): (s: seq<Exp>)
    ensures |s| > 0
    ensures forall k :: 0 <= k < |s| ==> s[k].Other? || s[k].Slice?
  {
    match e
    case Other(_, _) => [e]
    case Slice(_, _) => [e]
    case ArrayCast(e1) => Leaves(e1)
    case Neg(e1) => Leaves(e1)
    case Com(e1) => Leaves(e1)
    case Bin(_, e1, e2) => Leaves(e1) + Leaves(e2)
    case Assign(e1, e2) => Leaves(e2) + Leaves(e1)
    case OpAssign(_, e1, e2) => Leaves(e2) + Leaves(e1)
  }

  function Reverse<T>(s: seq<T>): (r: seq<T>)
    ensures |r| == |s|
  {
    if s == [] then [] else Reverse(s[1..]) + [s[0]]
  }

  lemma {:induction false} ReverseAt<T>(s: seq<T>, k: nat)
    requires k < |s|
    ensures Reverse(s)[k] == s[|s| - 1 - k]
  {
    if k < |s| - 1 { ReverseAt(s[1..], k); }
  }

  lemma {:induction false} ReverseConcat<T>(s: seq<T>, t: seq<T>)
    ensures Reverse(s + t) == Reverse(t) + Reverse(s)
  {
    if s == [] {
      assert s + t == t;
    } else {
      ReverseConcat(s[1..], t);
      assert (s + t)[1..] == s[1..] + t;
    }
  }

  // ----- names determine shapes -----

  predicate Upper(c: char) { 'A' <= c <= 'Z' }

  predicate Lower(c: char) { 'a' <= c <= 'z' }

  predicate WordLike(s: string) {
    |s| >= 2 && Upper(s[0]) && forall k :: 0 < k < |s| ==> Lower(s[k])
  }

  lemma {:induction false} SpelledLikeWord(w: Word)
    ensures WordLike(Spell(w))
  {}

  /** Which word is spelled; length and two letters tell. */
  function Unspell(s: string): Word
    requires |s| >= 2
  {
    if s[0] == 'E' then ExpW
    else if s[0] == 'S' then SliceW
    else if s[0] == 'N' then NegW
    else if s[0] == 'C' then ComW
    else if s[0] == 'A' && s[1] == 's' then AssignW
    else
      var op :=
        if s[0] == 'A' then (if s[1] == 'd' then Add else And)
        else if s[0] == 'M' then (if s[1] == 'i' then Min else if s[1] == 'u' then Mul else Mod)
        else if s[0] == 'D' then Div
        else if s[0] == 'X' then Xor
        else Or;
      if |s| <= 3 then BinW(op) else OpAssignW(op)
  }

  lemma {:induction false} UnspellSpell(w: Word)
    ensures |Spell(w)| >= 2 && Unspell(Spell(w)) == w
  {}

  lemma {:induction false} SpellingBegins(ws: seq<Word>)
    ensures ws == [] <==> SpellAll(ws) == ""
    ensures ws != [] ==> Upper(SpellAll(ws)[0])
  {
    if ws != [] { SpelledLikeWord(ws[0]); }
  }

  lemma {:induction false} LowerWithin(s: string, u: string, k: nat)
    requires WordLike(s) && s <= u && 0 < k < |s|
    ensures Lower(u[k])
  {}

  lemma {:induction false} NoWordWithin(s: string, rest: string, t: string)
    requires WordLike(s) && WordLike(t) && s <= t + rest
    requires rest != "" ==> Upper(rest[0])
    ensures |s| <= |t|
  {
    if |s| > |t| {
      LowerWithin(s, t + rest, |t|);
    }
  }

  lemma {:induction false} FirstWord(s: string, rest: string, s': string, rest': string)
    requires WordLike(s) && WordLike(s') && s + rest == s' + rest'
    requires rest != "" ==> Upper(rest[0])
    requires rest' != "" ==> Upper(rest'[0])
    ensures s == s' && rest == rest'
  {
    assert s <= s + rest && s' <= s' + rest';
    NoWordWithin(s, rest', s');
    NoWordWithin(s', rest, s);
    assert s == (s + rest)[..|s|] && rest == (s + rest)[|s|..];
    assert s' == (s' + rest')[..|s'|] && rest' == (s' + rest')[|s'|..];
  }

  /** The spelling of several words can be taken apart in one way only. */
  lemma {:induction false} SpellingIsUnique(ws: seq<Word>, vs: seq<Word>)
    requires SpellAll(ws) == SpellAll(vs)
    ensures ws == vs
  {
    SpellingBegins(ws);
    SpellingBegins(vs);
    if ws != [] {
      var s, s' := Spell(ws[0]), Spell(vs[0]);
      SpelledLikeWord(ws[0]);
      SpelledLikeWord(vs[0]);
      SpellingBegins(ws[1..]);
      SpellingBegins(vs[1..]);
      FirstWord(s, SpellAll(ws[1..]), s', SpellAll(vs[1..]));
      UnspellSpell(ws[0]);
      UnspellSpell(vs[0]);
      SpellingIsUnique(ws[1..], vs[1..]);
    }
  }

  lemma {:induction false} SpellConcat(ws: seq<Word>, vs: seq<Word>)
    ensures SpellAll(ws + vs) == SpellAll(ws) + SpellAll(vs)
  {
    if ws == [] {
      assert ws + vs == vs;
    } else {
      SpellConcat(ws[1..], vs);
      var s := SpellFirst(ws, vs);
      Associates(s, SpellAll(ws[1..]), SpellAll(vs));
    }
  }

  lemma {:induction false} SpellFirst(ws: seq<Word>, vs: seq<Word>) returns (s: string)
    requires ws != []
    ensures SpellAll(ws) == s + SpellAll(ws[1..]) && SpellAll(ws + vs) == s + SpellAll(ws[1..] + vs)
  {
    s := Spell(ws[0]);
    assert (ws + vs)[1..] == ws[1..] + vs && (ws + vs)[0] == ws[0];
  }

  lemma {:induction false} Associates(s: string, t: string, u: string)
    ensures s + (t + u) == (s + t) + u
  {}

  /** An expression without its operands and casts. */
  datatype Shape =
    | Leaf(slice: bool)
    | UnS(word: Word, s: Shape)
    | BinS(word: Word, s1: Shape, s2: Shape)

  function ShapeOf(e: Exp): Shape {
    match e
    case Other(_, _) => Leaf(false)
    case Slice(_, _) => Leaf(true)
    case ArrayCast(e1) => ShapeOf(e1)
    case Neg(e1) => UnS(NegW, ShapeOf(e1))
    case Com(e1) => UnS(ComW, ShapeOf(e1))
    case Bin(op, e1, e2) => BinS(BinW(op), ShapeOf(e1), ShapeOf(e2))
    case Assign(e1, e2) => BinS(AssignW, ShapeOf(e2), ShapeOf(e1))
    case OpAssign(op, e1, e2) => BinS(OpAssignW(op), ShapeOf(e2), ShapeOf(e1))
  }

  function Size(e: Exp): (n: nat)
    ensures n > 0
  {
    match e
    case Other(_, _) => 1
    case Slice(_, _) => 1
    case ArrayCast(e1) => 1 + Size(e1)
    case Neg(e1) => 1 + Size(e1)
    case Com(e1) => 1 + Size(e1)
    case Bin(_, e1, e2) => 1 + Size(e1) + Size(e2)
    case Assign(e1, e2) => 1 + Size(e1) + Size(e2)
    case OpAssign(_, e1, e2) => 1 + Size(e1) + Size(e2)
  }

  /** Reading RPN with a stack. */
  function Parse(stack: seq<Shape>, ws: seq<Word>): seq<Shape>
    decreases ws
  {
    if ws == [] then stack
    else
      var n := |stack|;
      match ws[0]
      case ExpW => Parse(stack + [Leaf(false)], ws[1..])
      case SliceW => Parse(stack + [Leaf(true)], ws[1..])
      case NegW => if n < 1 then [] else Parse(stack[..n - 1] + [UnS(ws[0], stack[n - 1])], ws[1..])
      case ComW => if n < 1 then [] else Parse(stack[..n - 1] + [UnS(ws[0], stack[n - 1])], ws[1..])
      case _ =>
        if n < 2 then []
        else Parse(stack[..n - 2] + [BinS(ws[0], stack[n - 2], stack[n - 1])], ws[1..])
  }

  lemma {:induction false} ParseBinary(stack: seq<Shape>, w: Word, s1: Shape, s2: Shape, rest: seq<Word>)
    requires w.BinW? || w.AssignW? || w.OpAssignW?
    ensures Parse(stack + [s1] + [s2], [w] + rest) == Parse(stack + [BinS(w, s1, s2)], rest)
  {
    var st := stack + [s1] + [s2];
    assert st[..|st| - 2] == stack && ([w] + rest)[1..] == rest;
  }

  lemma {:induction false} ParseUnary(stack: seq<Shape>, w: Word, s: Shape, rest: seq<Word>)
    requires w.NegW? || w.ComW?
    ensures Parse(stack + [s], [w] + rest) == Parse(stack + [UnS(w, s)], rest)
  {
    var st := stack + [s];
    assert st[..|st| - 1] == stack && ([w] + rest)[1..] == rest;
  }

  lemma {:induction false} ParseWords(stack: seq<Shape>, e: Exp, rest: seq<Word>)
    ensures Parse(stack, Words(e) + rest) == Parse(stack + [ShapeOf(e)], rest)
    decreases Size(e), 0
  {
    match e
    case Other(_, _) => assert ([ExpW] + rest)[1..] == rest;
    case Slice(_, _) => assert ([SliceW] + rest)[1..] == rest;
    case ArrayCast(e1) => ParseWords(stack, e1, rest);
    case Neg(e1) => ParseUnaryWords(stack, NegW, e1, rest);
    case Com(e1) => ParseUnaryWords(stack, ComW, e1, rest);
    case Bin(op, e1, e2) => ParseBinaryWords(stack, BinW(op), e1, e2, rest);
    case Assign(e1, e2) => ParseBinaryWords(stack, AssignW, e2, e1, rest);
    case OpAssign(op, e1, e2) => ParseBinaryWords(stack, OpAssignW(op), e2, e1, rest);
  }

  lemma {:induction false} ParseUnaryWords(stack: seq<Shape>, w: Word, e: Exp, rest: seq<Word>)
    requires w.NegW? || w.ComW?
    ensures Parse(stack, Words(e) + [w] + rest) == Parse(stack + [UnS(w, ShapeOf(e))], rest)
    decreases Size(e), 1
  {
    assert Words(e) + [w] + rest == Words(e) + ([w] + rest);
    ParseWords(stack, e, [w] + rest);
    ParseUnary(stack, w, ShapeOf(e), rest);
  }

  lemma {:induction false} ParseBinaryWords(stack: seq<Shape>, w: Word, e1: Exp, e2: Exp, rest: seq<Word>)
    requires w.BinW? || w.AssignW? || w.OpAssignW?
    ensures Parse(stack, Words(e1) + Words(e2) + [w] + rest)
         == Parse(stack + [BinS(w, ShapeOf(e1), ShapeOf(e2))], rest)
    decreases Size(e1) + Size(e2), 1
  {
    assert Words(e1) + Words(e2) + [w] + rest == Words(e1) + (Words(e2) + ([w] + rest));
    ParseWords(stack, e1, Words(e2) + ([w] + rest));
    ParseWords(stack + [ShapeOf(e1)], e2, [w] + rest);
    ParseBinary(stack, w, ShapeOf(e1), ShapeOf(e2), rest);
  }

  /** The type of the elements of the result. */
  function Ty(e: Exp): string {
    match e
    case Other(_, ty) => ty
    case Slice(_, ty) => ty
    case ArrayCast(e1) => Ty(e1)
    case Neg(e1) => Ty(e1)
    case Com(e1) => Ty(e1)
    case Bin(_, e1, e2) => Ty(e1)
    case Assign(e1, e2) => Ty(e1)
    case OpAssign(_, e1, e2) => Ty(e1)
  }

  function Name(e: Exp): string {
    "_array" + SpellAll(Words(e)) + "_" + Ty(e)
  }

  lemma {:induction false} NoUnderscore(ws: seq<Word>)
    ensures '_' !in SpellAll(ws)
  {
    if ws != [] {
      SpelledLikeWord(ws[0]);
      NoUnderscore(ws[1..]);
    }
  }

  lemma {:induction false} SplitAtUnderscore(s: string, t: string, s': string, t': string)
    requires '_' !in s && '_' !in s' && "_array" + s + "_" + t == "_array" + s' + "_" + t'
    ensures s == s' && t == t'
  {
    var u, u' := s + "_" + t, s' + "_" + t';
    assert u == ("_array" + s + "_" + t)[6..] && u' == ("_array" + s' + "_" + t')[6..];
    FirstUnderscore(s, t, s', t');
    FirstUnderscore(s', t', s, t);
    assert s == u[..|s|] && s' == u'[..|s'|] && t == u[|s| + 1..] && t' == u'[|s'| + 1..];
  }

  lemma {:induction false} NotWithin(s: string, u: string, k: nat)
    requires '_' !in s && s <= u && k < |s|
    ensures u[k] != '_'
  {
    assert s[k] in s;
  }

  lemma {:induction false} EndsBefore(s: string, u: string, k: nat)
    requires '_' !in s && s <= u && k < |u| && u[k] == '_'
    ensures |s| <= k
  {
    if k < |s| { NotWithin(s, u, k); }
  }

  lemma {:induction false} FirstUnderscore(s: string, t: string, s': string, t': string)
    requires '_' !in s' && s + "_" + t == s' + "_" + t'
    ensures |s'| <= |s|
  {
    var u := s + "_" + t;
    assert u[|s|] == '_' && s' <= s' + "_" + t';
    EndsBefore(s', u, |s|);
  }

  /** Expressions with the same name have the same shape and type. */
  lemma {:induction false} NamesDetermineShapes(e: Exp, e': Exp)
    requires Name(e) == Name(e')
    ensures ShapeOf(e) == ShapeOf(e') && Ty(e) == Ty(e')
  {
    NoUnderscore(Words(e));
    NoUnderscore(Words(e'));
    SplitAtUnderscore(SpellAll(Words(e)), Ty(e), SpellAll(Words(e')), Ty(e'));
    SpellingIsUnique(Words(e), Words(e'));
    ParseWords([], e, []);
    ParseWords([], e', []);
    assert Words(e) + [] == Words(e) && Words(e') + [] == Words(e');
    assert [ShapeOf(e)] == [] + [ShapeOf(e)] && [ShapeOf(e')] == [] + [ShapeOf(e')];
    assert [ShapeOf(e)][0] == [ShapeOf(e')][0];
  }

  // ----- the function -----

  datatype Param = Param(name: string, ty: string, const_: bool)

  datatype Body =
    | Var(name: string)
    | Index(name: string)
    | BCast(ty: string, b: Body)
    | BNeg(b: Body)
    | BCom(b: Body)
    | BBin(op: Op, b1: Body, b2: Body)
    | BAssign(b1: Body, b2: Body)
    | BOpAssign(op: Op, b1: Body, b2: Body)

  function Decimal(n: nat): (s: string)
    ensures s != ""
  {
    if n < 10 then ['0' + n as char] else Decimal(n / 10) + ['0' + (n % 10) as char]
  }

  lemma {:induction false} DecimalIsUnique(m: nat, n: nat)
    requires Decimal(m) == Decimal(n)
    ensures m == n
  {
    var s, t := Decimal(m), Decimal(n);
    assert s[|s| - 1] == '0' + (m % 10) as char && t[|t| - 1] == '0' + (n % 10) as char;
    if m >= 10 && n >= 10 {
      assert s[..|s| - 1] == Decimal(m / 10) && t[..|t| - 1] == Decimal(n / 10);
      DecimalIsUnique(m / 10, n / 10);
    }
  }

  /** The loop index. */
  const INDEX := "p"

  function ParamName(leaf: Exp, n: nat): string {
    (if leaf.Slice? then "p" else "c") + Decimal(n)
  }

  /** Parameters are told apart by their numbers, and none is the loop index. */
  lemma {:induction false} ParamNamesDiffer(a: Exp, m: nat, b: Exp, n: nat)
    ensures ParamName(a, m) == ParamName(b, n) ==> m == n
    ensures ParamName(a, m) != INDEX
  {
    assert ParamName(a, m)[1..] == Decimal(m) && ParamName(b, n)[1..] == Decimal(n);
    assert |ParamName(a, m)| > 1;
    if Decimal(m) == Decimal(n) { DecimalIsUnique(m, n); }
  }

  /** The parameters, last one met first, when `n` are there already. An assignment makes its
    destination writable. */
  function Params(e: Exp, n: nat): (ps: seq<Param>)
    ensures |ps| == |Leaves(e)|
  {
    match e
    case Other(_, ty) => [Param(ParamName(e, n), ty, false)]
    case Slice(_, ty) => [Param(ParamName(e, n), ty, true)]
    case ArrayCast(e1) => Params(e1, n)
    case Neg(e1) => Params(e1, n)
    case Com(e1) => Params(e1, n)
    case Bin(_, e1, e2) => Params(e2, n + |Leaves(e1)|) + Params(e1, n)
    case Assign(e1, e2) => Writable(Params(e1, n + |Leaves(e2)|) + Params(e2, n))
    case OpAssign(_, e1, e2) => Writable(Params(e1, n + |Leaves(e2)|) + Params(e2, n))
  }

  function Writable(ps: seq<Param>): seq<Param>
    requires ps != []
  {
    ps[0 := ps[0].(const_ := false)]
  }

  /** The statement of the loop. */
  function BodyOf(e: Exp, n: nat): Body {
    match e
    case Other(_, _) => Var(ParamName(e, n))
    case Slice(_, _) => Index(ParamName(e, n))
    case ArrayCast(e1) => BodyOf(e1, n)
    case Neg(e1) => BNeg(BodyOf(e1, n))
    case Com(e1) => BCom(BodyOf(e1, n))
    case Bin(op, e1, e2) => BBin(op, BodyOf(e1, n), BodyOf(e2, n + |Leaves(e1)|))
    case Assign(e1, e2) => BAssign(BodyOf(e1, n + |Leaves(e2)|), BCast(Ty(e1), BodyOf(e2, n)))
    case OpAssign(op, e1, e2) => BOpAssign(op, BodyOf(e1, n + |Leaves(e2)|), BodyOf(e2, n))
  }

  // ----- the passes over the expression -----

  class OutBuffer {
    var data: string

    constructor ()
      ensures data == ""
    {
      data := "";
    }

    method WriteString(s: string)
      modifies this
      ensures data == old(data) + s
    {
      data := data + s;
    }
  }

  class Array<T> {
    var data: seq<T>

    constructor ()
      ensures data == []
    {
      data := [];
    }

    method Shift(x: T)
      modifies this
      ensures data == [x] + old(data)
    {
      data := [x] + data;
    }
  }

  /** Append the name of the expression and put its operands in front of the arguments. */
  method BuildArrayIdent(e: Exp, buf: OutBuffer, arguments: Array<Exp>)
    modifies buf, arguments
    ensures buf.data == old(buf.data) + SpellAll(Words(e))
    ensures arguments.data == Reverse(Leaves(e)) + old(arguments.data)
    decreases Size(e), 0
  {
    match e {
      case Other(_, _) =>
        buf.WriteString("Exp");
        arguments.Shift(e);
        OneWord(ExpW);
      case Slice(_, _) =>
        buf.WriteString("Slice");
        arguments.Shift(e);
        OneWord(SliceW);
      case ArrayCast(e1) =>
        BuildArrayIdent(e1, buf, arguments);
      case Neg(e1) =>
        UnaryName(buf.data, Words(e1), NegW);
        BuildArrayIdent(e1, buf, arguments);
        buf.WriteString("Neg");
      case Com(e1) =>
        UnaryName(buf.data, Words(e1), ComW);
        BuildArrayIdent(e1, buf, arguments);
        buf.WriteString("Com");
      case Bin(op, e1, e2) =>
        BuildBothIdents(e1, e2, BinW(op), buf, arguments);
      case Assign(e1, e2) =>
        BuildBothIdents(e2, e1, AssignW, buf, arguments);
      case OpAssign(op, e1, e2) =>
        BuildBothIdents(e2, e1, OpAssignW(op), buf, arguments);
    }
  }

  method BuildBothIdents(e1: Exp, e2: Exp, w: Word, buf: OutBuffer, arguments: Array<Exp>)
    modifies buf, arguments
    ensures buf.data == old(buf.data) + SpellAll(Words(e1) + Words(e2) + [w])
    ensures arguments.data == Reverse(Leaves(e1) + Leaves(e2)) + old(arguments.data)
    decreases Size(e1) + Size(e2), 1
  {
    BinaryName(buf.data, Words(e1), Words(e2), w);
    ReverseBoth(Leaves(e1), Leaves(e2), arguments.data);
    BuildArrayIdent(e1, buf, arguments);
    BuildArrayIdent(e2, buf, arguments);
    buf.WriteString(Spell(w));
  }

  lemma {:induction false} OneWord(w: Word)
    ensures SpellAll([w]) == Spell(w)
  {
    assert SpellAll([]) == "" && [w][1..] == [];
  }

  lemma {:induction false} UnaryName(name: string, ws: seq<Word>, w: Word)
    ensures name + SpellAll(ws) + Spell(w) == name + SpellAll(ws + [w])
  {
    SpellConcat(ws, [w]);
    OneWord(w);
    Associates(name, SpellAll(ws), Spell(w));
  }

  lemma {:induction false} BinaryName(name: string, ws: seq<Word>, vs: seq<Word>, w: Word)
    ensures name + SpellAll(ws) + SpellAll(vs) + Spell(w) == name + SpellAll(ws + vs + [w])
  {
    SpellConcat(ws, vs);
    Associates(name, SpellAll(ws), SpellAll(vs));
    UnaryName(name, ws + vs, w);
  }

  lemma {:induction false} ReverseBoth<T>(s: seq<T>, t: seq<T>, args: seq<T>)
    ensures Reverse(t) + (Reverse(s) + args) == Reverse(s + t) + args
  {
    ReverseConcat(s, t);
    assert Reverse(t) + (Reverse(s) + args) == (Reverse(t) + Reverse(s)) + args;
  }

  /** Build the statement and put the parameters in front of those that are there. */
  method BuildArrayLoop(e: Exp, fparams: Array<Param>) returns (b: Body)
    modifies fparams
    ensures b == BodyOf(e, |old(fparams.data)|)
    ensures fparams.data == Params(e, |old(fparams.data)|) + old(fparams.data)
    decreases Size(e), 0
  {
    match e {
      case Other(_, _) =>
        var id := BuildLeaf(e, fparams);
        b := Var(id);
      case Slice(_, _) =>
        var id := BuildLeaf(e, fparams);
        b := Index(id);
      case ArrayCast(e1) =>
        b := BuildArrayLoop(e1, fparams);
      case Neg(e1) =>
        var b1 := BuildArrayLoop(e1, fparams);
        b := BNeg(b1);
      case Com(e1) =>
        var b1 := BuildArrayLoop(e1, fparams);
        b := BCom(b1);
      case Bin(op, e1, e2) =>
        var b1, b2 := BuildBothLoops(e1, e2, fparams);
        b := BBin(op, b1, b2);
      case Assign(e1, e2) =>
        var b1, b2 := BuildAssignLoops(e1, e2, fparams);
        b := BAssign(b1, BCast(Ty(e1), b2));
      case OpAssign(op, e1, e2) =>
        var b1, b2 := BuildAssignLoops(e1, e2, fparams);
        b := BOpAssign(op, b1, b2);
    }
  }

  method BuildBothLoops(e1: Exp, e2: Exp, fparams: Array<Param>) returns (b1: Body, b2: Body)
    modifies fparams
    ensures var n := |old(fparams.data)|;
      && b1 == BodyOf(e1, n) && b2 == BodyOf(e2, n + |Leaves(e1)|)
      && fparams.data == (Params(e2, n + |Leaves(e1)|) + Params(e1, n)) + old(fparams.data)
    decreases Size(e1) + Size(e2), 1
  {
    b1 := BuildArrayLoop(e1, fparams);
    b2 := BuildArrayLoop(e2, fparams);
  }

  /** The destination of an assignment is the operand that was met last. */
  method BuildAssignLoops(e1: Exp, e2: Exp, fparams: Array<Param>) returns (b1: Body, b2: Body)
    modifies fparams
    ensures var n := |old(fparams.data)|;
      && b2 == BodyOf(e2, n) && b1 == BodyOf(e1, n + |Leaves(e2)|)
      && fparams.data == Writable(Params(e1, n + |Leaves(e2)|) + Params(e2, n)) + old(fparams.data)
    decreases Size(e1) + Size(e2), 2
  {
    b2, b1 := BuildBothLoops(e2, e1, fparams);
    fparams.data := fparams.data[0 := fparams.data[0].(const_ := false)];
  }

  method BuildLeaf(e: Exp, fparams: Array<Param>) returns (id: string)
    requires e.Other? || e.Slice?
    modifies fparams
    ensures id == ParamName(e, |old(fparams.data)|)
    ensures fparams.data == Params(e, |old(fparams.data)|) + old(fparams.data)
  {
    id := ParamName(e, |fparams.data|);
    fparams.Shift(Param(id, e.ty, e.Slice?));
  }

  // ----- types -----

  const REAL := {"f", "d", "e"}
  const IMAGINARY := {"o", "p", "j"}
  const COMPLEX := {"q", "r", "c"}

  predicate Floating(ty: string) {
    ty in REAL || ty in IMAGINARY || ty in COMPLEX
  }

  /** The types of the same precision. */
  function Triple(ty: string): seq<string>
    requires Floating(ty)
  {
    if ty in {"f", "o", "q"} then ["f", "o", "q"]
    else if ty in {"d", "p", "r"} then ["d", "p", "r"]
    else ["e", "j", "c"]
  }

  /** The type of an operator whose operands, converted to each other, have the given types.
    Floating operands are brought to one precision only, and each stays real, imaginary or
    complex. In a product of imaginary numbers, and in the quotient of a real number by an
    imaginary one, imaginary operands are given a real type, but not what they are made of. */
  predicate HasType(op: Op, t1: string, t2: string, ty: string) {
    if !Floating(t1) || !Floating(t2) then t1 == t2 == ty
    else
      && op !in {Xor, And, Or}
      && Triple(t1) == Triple(t2)
      && (var re, im, co := Triple(t1)[0], Triple(t1)[1], Triple(t1)[2];
          if op == Mod then ty == t1 && t2 != co
          else if t1 == co || t2 == co then ty == co
          else if t1 == t2 == re then ty == re || (op == Div && ty == im)
          else if t1 == t2 == im then ty == if op == Mul || op == Div then re else im
          else if op.Add? || op.Min? then ty == co
          else ty == im || (op == Mul && ty == re))
  }

  /** A scalar of a type. */
  ghost predicate IsScalar(e: Exp, ty: string) {
    match e
    case Other(_, t) => t == ty
    case Neg(e1) => IsScalar(e1, ty)
    case Com(e1) => IsScalar(e1, ty)
    case Bin(op, e1, e2) =>
      exists t1, t2 :: HasType(op, t1, t2, ty) && IsScalar(e1, t1) && IsScalar(e2, t2)
    case _ => false
  }

  /** An array with elements of a type, without array casts. A scalar that is combined with an
    array has been converted to the type of the elements. */
  ghost predicate IsArray(e: Exp, ty: string) {
    match e
    case Slice(_, t) => t == ty
    case Neg(e1) => IsArray(e1, ty)
    case Com(e1) => IsArray(e1, ty)
    case Bin(_, e1, e2) =>
      || (IsArray(e1, ty) && IsArray(e2, ty))
      || (IsArray(e1, ty) && IsScalar(e2, ty))
      || (IsScalar(e1, ty) && IsArray(e2, ty))
    case _ => false
  }

  /** The slice that is assigned to. */
  function Dest(e: Exp): Exp
    requires e.Assign? || e.OpAssign?
  {
    if e.e1.ArrayCast? then e.e1.e else e.e1
  }

  /** What is turned into a call: an assignment to a slice, from which an array is computed or,
    with an operator, a scalar. An operator assignment may have cast its destination to an array
    of constant elements. Assignments of arrays within it have become calls before. */
  ghost predicate Valid(e: Exp) {
    && (e.Assign? || e.OpAssign?)
    && (e.e1.ArrayCast? ==> e.OpAssign?)
    && Dest(e).Slice?
    && (IsArray(e.e2, Dest(e).ty) || (e.OpAssign? && IsScalar(e.e2, Dest(e).ty)))
  }

  // ----- what expressions and functions compute -----

  /** Numbers have a real and an imaginary part. */
  datatype Number = Number(re: int, im: int)

  const ZERO := Number(0, 0)

  /** The arithmetic of elements, and the values of the operands that are no slices. `alien` is
    what a parameter of a type sees of an operand that has another type. */
  datatype Sem = Sem(apply: (Op, Number, Number) -> Number, neg: Number -> Number, com: Number -> Number,
                     conv: (string, Number) -> Number, other: nat -> Number,
                     alien: (string, Exp, nat, Mem) -> Number)

  /** Arrays by identity and index. */
  type Mem = map<(nat, nat), Number>

  function Get(m: Mem, id: nat, i: nat): Number {
    if (id, i) in m then m[(id, i)] else ZERO
  }

  predicate Pure(e: Exp) {
    match e
    case Other(_, _) => true
    case Slice(_, _) => true
    case ArrayCast(e1) => Pure(e1)
    case Neg(e1) => Pure(e1)
    case Com(e1) => Pure(e1)
    case Bin(_, e1, e2) => Pure(e1) && Pure(e2)
    case Assign(_, _) => false
    case OpAssign(_, _, _) => false
  }

  lemma {:induction false} ScalarIsPure(e: Exp, ty: string)
    requires IsScalar(e, ty)
    ensures Pure(e)
  {
    match e
    case Other(_, _) =>
    case Neg(e1) => ScalarIsPure(e1, ty);
    case Com(e1) => ScalarIsPure(e1, ty);
    case Bin(op, e1, e2) =>
      var t1, t2 :| HasType(op, t1, t2, ty) && IsScalar(e1, t1) && IsScalar(e2, t2);
      ScalarIsPure(e1, t1);
      ScalarIsPure(e2, t2);
  }

  lemma {:induction false} ArrayIsPure(e: Exp, ty: string)
    requires IsArray(e, ty) || IsScalar(e, ty)
    ensures Pure(e)
  {
    if IsScalar(e, ty) {
      ScalarIsPure(e, ty);
    } else {
      match e
      case Slice(_, _) =>
      case Neg(e1) => ArrayIsPure(e1, ty);
      case Com(e1) => ArrayIsPure(e1, ty);
      case Bin(op, e1, e2) => ArrayIsPure(e1, ty); ArrayIsPure(e2, ty);
    }
  }

  /** Element `i` of an expression. */
  function Value(e: Exp, i: nat, m: Mem, sem: Sem): Number
    requires Pure(e)
  {
    match e
    case Other(id, _) => sem.other(id)
    case Slice(id, _) => Get(m, id, i)
    case ArrayCast(e1) => Value(e1, i, m, sem)
    case Neg(e1) => sem.neg(Value(e1, i, m, sem))
    case Com(e1) => sem.com(Value(e1, i, m, sem))
    case Bin(op, e1, e2) => sem.apply(op, Value(e1, i, m, sem), Value(e2, i, m, sem))
  }

  /** The assignment of element `i`. */
  function Run(e: Exp, i: nat, m: Mem, sem: Sem): Mem
    requires Valid(e)
  {
    ArrayIsPure(e.e2, Dest(e).ty);
    var dest := Dest(e);
    var v := Value(e.e2, i, m, sem);
    m[(dest.id, i) := sem.conv(dest.ty, if e.Assign? then v else sem.apply(e.op, Get(m, dest.id, i), v))]
  }

  /** The assignment of the first `n` elements. */
  function RunAll(e: Exp, n: nat, m: Mem, sem: Sem): Mem
    requires Valid(e)
  {
    if n == 0 then m else Run(e, n - 1, RunAll(e, n - 1, m, sem), sem)
  }

  datatype Func = Library(name: string) | Generated(params: seq<Param>, body: Body)

  /** The index of a parameter. */
  function Find(ps: seq<Param>, name: string): nat {
    if ps == [] || ps[0].name == name then 0 else 1 + Find(ps[1..], name)
  }

  function BodyValue(b: Body, ps: seq<Param>, args: seq<Exp>, i: nat, m: Mem, sem: Sem): Number {
    match b
    case Var(name) =>
      var k := Find(ps, name);
      if k < |args| && k < |ps| && args[k].Other? then
        if ps[k].ty == args[k].ty then sem.other(args[k].id) else sem.alien(ps[k].ty, args[k], i, m)
      else ZERO
    case Index(name) =>
      var k := Find(ps, name);
      if k < |args| && k < |ps| && args[k].Slice? then
        if ps[k].ty == args[k].ty then Get(m, args[k].id, i) else sem.alien(ps[k].ty, args[k], i, m)
      else ZERO
    case BCast(ty, b1) => sem.conv(ty, BodyValue(b1, ps, args, i, m, sem))
    case BNeg(b1) => sem.neg(BodyValue(b1, ps, args, i, m, sem))
    case BCom(b1) => sem.com(BodyValue(b1, ps, args, i, m, sem))
    case BBin(op, b1, b2) =>
      sem.apply(op, BodyValue(b1, ps, args, i, m, sem), BodyValue(b2, ps, args, i, m, sem))
    case BAssign(_, _) => ZERO
    case BOpAssign(_, _, _) => ZERO
  }

  /** The statement of the loop at index `i`, when the parameters are bound to `args`. An
    operator assignment converts to the type of its destination. */
  function BodyRun(b: Body, ps: seq<Param>, args: seq<Exp>, i: nat, m: Mem, sem: Sem): Mem {
    if (b.BAssign? || b.BOpAssign?) && b.b1.Index? then
      var k := Find(ps, b.b1.name);
      if k < |ps| && k < |args| && args[k].Slice? && ps[k].ty == args[k].ty && !ps[k].const_ then
        var v := BodyValue(b.b2, ps, args, i, m, sem);
        m[(args[k].id, i) :=
          if b.BAssign? then v else sem.conv(ps[k].ty, sem.apply(b.op, Get(m, args[k].id, i), v))]
      else m
    else m
  }

  function CallAll(f: Func, args: seq<Exp>, n: nat, m: Mem, sem: Sem): Mem
    requires f.Generated?
  {
    if n == 0 then m else BodyRun(f.body, f.params, args, n - 1, CallAll(f, args, n - 1, m, sem), sem)
  }

  // ----- parameters and arguments line up -----

  /** The parameter for the operand that is met as number `n`. */
  predicate IsFor(p: Param, leaf: Exp, n: nat) {
    (leaf.Other? || leaf.Slice?) && p.name == ParamName(leaf, n) && p.ty == leaf.ty
  }

  /** Parameter `k` belongs to the operand that is `k`-th from the end. */
  ghost predicate Aligned(ps: seq<Param>, leaves: seq<Exp>, n: nat) {
    |ps| == |leaves| && forall j :: 0 <= j < |leaves| ==> AlignedAt(ps, leaves, n, j)
  }

  predicate AlignedAt(ps: seq<Param>, leaves: seq<Exp>, n: nat, j: nat)
    requires j < |leaves| == |ps|
  {
    IsFor(ps[|leaves| - 1 - j], leaves[j], n + j)
  }

  lemma {:induction false} AlignedConcat(ps: seq<Param>, a: seq<Exp>, qs: seq<Param>, b: seq<Exp>, n: nat)
    requires Aligned(ps, a, n) && Aligned(qs, b, n + |a|)
    ensures Aligned(qs + ps, a + b, n)
  {
    forall j | 0 <= j < |a + b|
      ensures AlignedAt(qs + ps, a + b, n, j)
    {
      if j < |a| {
        assert AlignedAt(ps, a, n, j);
      } else {
        assert AlignedAt(qs, b, n + |a|, j - |a|);
      }
    }
  }

  lemma {:induction false} WritableAligned(ps: seq<Param>, leaves: seq<Exp>, n: nat)
    requires ps != [] && Aligned(ps, leaves, n)
    ensures Aligned(Writable(ps), leaves, n)
  {
    forall j | 0 <= j < |leaves|
      ensures AlignedAt(Writable(ps), leaves, n, j)
    {
      assert AlignedAt(ps, leaves, n, j);
    }
  }

  ghost predicate HasParams(e: Exp, n: nat) {
    Aligned(Params(e, n), Leaves(e), n)
  }

  lemma {:induction false} ParamsAligned(e: Exp, n: nat)
    ensures HasParams(e, n)
    decreases Size(e)
  {
    if e.Other? || e.Slice? {
      LeafAligned(e, n);
    } else if e.Bin? {
      ParamsAligned(e.e1, n);
      ParamsAligned(e.e2, n + |Leaves(e.e1)|);
      BinAligned(e, n);
    } else if e.Assign? || e.OpAssign? {
      ParamsAligned(e.e2, n);
      ParamsAligned(e.e1, n + |Leaves(e.e2)|);
      AssignAligned(e, n);
    } else {
      ParamsAligned(e.e, n);
      UnaryAligned(e, n);
    }
  }

  lemma {:induction false} LeafAligned(e: Exp, n: nat)
    requires e.Other? || e.Slice?
    ensures HasParams(e, n)
  {}

  lemma {:induction false} UnaryAligned(e: Exp, n: nat)
    requires (e.ArrayCast? || e.Neg? || e.Com?) && HasParams(e.e, n)
    ensures HasParams(e, n)
  {
    assert Params(e, n) == Params(e.e, n) && Leaves(e) == Leaves(e.e);
  }

  lemma {:induction false} BinAligned(e: Exp, n: nat)
    requires e.Bin? && HasParams(e.e1, n) && HasParams(e.e2, n + |Leaves(e.e1)|)
    ensures HasParams(e, n)
  {
    AlignedConcat(Params(e.e1, n), Leaves(e.e1), Params(e.e2, n + |Leaves(e.e1)|), Leaves(e.e2), n);
    assert Params(e, n) == Params(e.e2, n + |Leaves(e.e1)|) + Params(e.e1, n);
    assert Leaves(e) == Leaves(e.e1) + Leaves(e.e2);
  }

  lemma {:induction false} AssignAligned(e: Exp, n: nat)
    requires (e.Assign? || e.OpAssign?) && HasParams(e.e2, n) && HasParams(e.e1, n + |Leaves(e.e2)|)
    ensures HasParams(e, n)
  {
    var ps := Params(e.e1, n + |Leaves(e.e2)|) + Params(e.e2, n);
    AlignedConcat(Params(e.e2, n), Leaves(e.e2), Params(e.e1, n + |Leaves(e.e2)|), Leaves(e.e1), n);
    WritableAligned(ps, Leaves(e.e2) + Leaves(e.e1), n);
    assert Params(e, n) == Writable(ps);
    assert Leaves(e) == Leaves(e.e2) + Leaves(e.e1);
  }

  lemma {:induction false} ParamsAt(e: Exp, k: nat)
    requires k < |Leaves(e)|
    ensures IsFor(Params(e, 0)[k], Leaves(e)[|Leaves(e)| - 1 - k], |Leaves(e)| - 1 - k)
  {
    ParamsAligned(e, 0);
    var j := |Leaves(e)| - 1 - k;
    assert AlignedAt(Params(e, 0), Leaves(e), 0, j);
  }

  lemma {:induction false} FindFirst(ps: seq<Param>, k: nat)
    requires k < |ps| && forall j :: 0 <= j < k ==> ps[j].name != ps[k].name
    ensures Find(ps, ps[k].name) == k
  {
    if k > 0 {
      assert ps[0].name != ps[k].name;
      forall j | 0 <= j < k - 1
        ensures ps[1..][j].name != ps[1..][k - 1].name
      {
        assert ps[j + 1].name != ps[k].name;
      }
      FindFirst(ps[1..], k - 1);
    }
  }

  /** Operand `j` is found under its parameter's name. */
  lemma {:induction false} FindParam(e: Exp, j: nat)
    requires j < |Leaves(e)|
    ensures Find(Params(e, 0), ParamName(Leaves(e)[j], j)) == |Leaves(e)| - 1 - j
  {
    var ps, k := Params(e, 0), |Leaves(e)| - 1 - j;
    ParamsAt(e, k);
    forall l | 0 <= l < k
      ensures ps[l].name != ps[k].name
    {
      ParamsAt(e, l);
      ParamNamesDiffer(Leaves(e)[|Leaves(e)| - 1 - l], |Leaves(e)| - 1 - l, Leaves(e)[j], j);
    }
    FindFirst(ps, k);
  }

  lemma {:induction false} ShapesAlign(e: Exp, e': Exp)
    requires ShapeOf(e) == ShapeOf(e')
    ensures |Leaves(e)| == |Leaves(e')|
    ensures forall j :: 0 <= j < |Leaves(e)| ==> Leaves(e)[j].Slice? == Leaves(e')[j].Slice?
    decreases Size(e) + Size(e')
  {
    if e.ArrayCast? {
      ShapesAlign(e.e, e');
    } else if e'.ArrayCast? {
      ShapesAlign(e, e'.e);
    } else if e.Neg? || e.Com? {
      ShapesAlign(e.e, e'.e);
    } else if !e.Other? && !e.Slice? {
      ShapesAlign(e.e1, e'.e1);
      ShapesAlign(e.e2, e'.e2);
    }
  }

  /** The name is bound to the operand, by a parameter of its type. */
  ghost predicate Bound(ps: seq<Param>, args: seq<Exp>, name: string, leaf: Exp) {
    var k := Find(ps, name);
    k < |args| && k < |ps| && args[k] == leaf && ps[k].ty == Ty(leaf)
  }

  ghost predicate AllBound(ps: seq<Param>, args: seq<Exp>, leaves: seq<Exp>, n: nat, leaves': seq<Exp>) {
    |leaves| == |leaves'| && forall j :: 0 <= j < |leaves| ==> BoundAt(ps, args, leaves, n, leaves', j)
  }

  ghost predicate BoundAt(ps: seq<Param>, args: seq<Exp>, leaves: seq<Exp>, n: nat, leaves': seq<Exp>, j: nat)
    requires j < |leaves| == |leaves'|
  {
    Bound(ps, args, ParamName(leaves[j], n + j), leaves'[j])
  }

  lemma {:induction false} AllBoundSplits(ps: seq<Param>, args: seq<Exp>, a: seq<Exp>, b: seq<Exp>, n: nat,
                                          a': seq<Exp>, b': seq<Exp>)
    requires |a| == |a'| && |b| == |b'| && AllBound(ps, args, a + b, n, a' + b')
    ensures AllBound(ps, args, a, n, a') && AllBound(ps, args, b, n + |a|, b')
  {
    forall j | 0 <= j < |a|
      ensures BoundAt(ps, args, a, n, a', j)
    {
      assert BoundAt(ps, args, a + b, n, a' + b', j);
    }
    var n' := n + |a|;
    forall j | 0 <= j < |b|
      ensures BoundAt(ps, args, b, n', b', j)
    {
      assert BoundAt(ps, args, a + b, n, a' + b', |a| + j);
    }
  }

  ghost predicate OperandsAgree(e: Exp, e': Exp) {
    && |Leaves(e)| == |Leaves(e')|
    && forall j :: 0 <= j < |Leaves(e)| ==> Ty(Leaves(e)[j]) == Ty(Leaves(e')[j])
  }

  ghost predicate Fits(ps: seq<Param>, args: seq<Exp>) {
    |ps| == |args| && forall k :: 0 <= k < |ps| ==> ps[k].ty == Ty(args[k])
  }

  lemma {:induction false} ArgumentAt(e: Exp, e': Exp, k: nat)
    requires k < |Leaves(e)| == |Leaves(e')|
    ensures Params(e, 0)[k].ty == Ty(Leaves(e)[|Leaves(e)| - 1 - k])
    ensures Reverse(Leaves(e'))[k] == Leaves(e')[|Leaves(e)| - 1 - k]
  {
    ParamsAt(e, k);
    ReverseAt(Leaves(e'), k);
  }

  /** The parameters made for one expression fit the arguments of another if and only if the
    operands of both have the same types. */
  lemma {:induction false} FitsExactly(e: Exp, e': Exp)
    ensures Fits(Params(e, 0), Reverse(Leaves(e'))) <==> OperandsAgree(e, e')
  {
    var ps, args, n := Params(e, 0), Reverse(Leaves(e')), |Leaves(e)|;
    if Fits(ps, args) {
      forall j | 0 <= j < n ensures Ty(Leaves(e)[j]) == Ty(Leaves(e')[j]) {
        ArgumentAt(e, e', n - 1 - j);
        assert ps[n - 1 - j].ty == Ty(args[n - 1 - j]);
      }
    }
    if OperandsAgree(e, e') {
      forall k | 0 <= k < n ensures ps[k].ty == Ty(args[k]) {
        ArgumentAt(e, e', k);
      }
    }
  }

  /** A function made from one expression binds the operands of another of the same shape and
    operand types. */
  lemma {:induction false} ArgumentsBound(e: Exp, e': Exp)
    requires ShapeOf(e) == ShapeOf(e') && OperandsAgree(e, e')
    ensures AllBound(Params(e, 0), Reverse(Leaves(e')), Leaves(e), 0, Leaves(e'))
  {
    forall j | 0 <= j < |Leaves(e)|
      ensures BoundAt(Params(e, 0), Reverse(Leaves(e')), Leaves(e), 0, Leaves(e'), j)
    {
      FindParam(e, j);
      ParamsAt(e, |Leaves(e)| - 1 - j);
      ReverseAt(Leaves(e'), |Leaves(e)| - 1 - j);
    }
  }

  ghost predicate Evaluates(e: Exp, n: nat, e': Exp, ps: seq<Param>, args: seq<Exp>, i: nat, m: Mem, sem: Sem)
    requires Pure(e')
  {
    BodyValue(BodyOf(e, n), ps, args, i, m, sem) == Value(e', i, m, sem)
  }

  /** And then its body evaluates to that other expression. */
  lemma {:induction false} BodyEvaluates(e: Exp, n: nat, e': Exp, ps: seq<Param>, args: seq<Exp>,
                                         i: nat, m: Mem, sem: Sem)
    requires Pure(e) && Pure(e') && ShapeOf(e) == ShapeOf(e')
    requires AllBound(ps, args, Leaves(e), n, Leaves(e'))
    ensures Evaluates(e, n, e', ps, args, i, m, sem)
    decreases Size(e) + Size(e')
  {
    if e.ArrayCast? {
      BodyEvaluates(e.e, n, e', ps, args, i, m, sem);
    } else if e'.ArrayCast? {
      BodyEvaluates(e, n, e'.e, ps, args, i, m, sem);
    } else if e.Neg? || e.Com? {
      BodyEvaluates(e.e, n, e'.e, ps, args, i, m, sem);
      UnaryEvaluates(e, n, e', ps, args, i, m, sem);
    } else if e.Bin? {
      SidesBound(e, n, e', ps, args);
      BodyEvaluates(e.e1, n, e'.e1, ps, args, i, m, sem);
      BodyEvaluates(e.e2, n + |Leaves(e.e1)|, e'.e2, ps, args, i, m, sem);
      BinEvaluates(e, n, e', ps, args, i, m, sem);
    } else {
      LeafEvaluates(e, n, e', ps, args, i, m, sem);
    }
  }

  lemma {:induction false} UnaryEvaluates(e: Exp, n: nat, e': Exp, ps: seq<Param>, args: seq<Exp>,
                                          i: nat, m: Mem, sem: Sem)
    requires (e.Neg? && e'.Neg?) || (e.Com? && e'.Com?)
    requires Pure(e') && Evaluates(e.e, n, e'.e, ps, args, i, m, sem)
    ensures Evaluates(e, n, e', ps, args, i, m, sem)
  {}

  lemma {:induction false} BinEvaluates(e: Exp, n: nat, e': Exp, ps: seq<Param>, args: seq<Exp>,
                                        i: nat, m: Mem, sem: Sem)
    requires e.Bin? && e'.Bin? && e.op == e'.op && Pure(e')
    requires Evaluates(e.e1, n, e'.e1, ps, args, i, m, sem)
    requires Evaluates(e.e2, n + |Leaves(e.e1)|, e'.e2, ps, args, i, m, sem)
    ensures Evaluates(e, n, e', ps, args, i, m, sem)
  {}

  lemma {:induction false} SidesBound(e: Exp, n: nat, e': Exp, ps: seq<Param>, args: seq<Exp>)
    requires e.Bin? && e'.Bin? && ShapeOf(e.e1) == ShapeOf(e'.e1) && ShapeOf(e.e2) == ShapeOf(e'.e2)
    requires AllBound(ps, args, Leaves(e), n, Leaves(e'))
    ensures AllBound(ps, args, Leaves(e.e1), n, Leaves(e'.e1))
    ensures AllBound(ps, args, Leaves(e.e2), n + |Leaves(e.e1)|, Leaves(e'.e2))
  {
    ShapesAlign(e.e1, e'.e1);
    ShapesAlign(e.e2, e'.e2);
    AllBoundSplits(ps, args, Leaves(e.e1), Leaves(e.e2), n, Leaves(e'.e1), Leaves(e'.e2));
  }

  lemma {:induction false} LeafEvaluates(e: Exp, n: nat, e': Exp, ps: seq<Param>, args: seq<Exp>,
                                         i: nat, m: Mem, sem: Sem)
    requires (e.Other? && e'.Other?) || (e.Slice? && e'.Slice?)
    requires AllBound(ps, args, Leaves(e), n, Leaves(e'))
    ensures Evaluates(e, n, e', ps, args, i, m, sem)
  {
    assert BoundAt(ps, args, Leaves(e), n, Leaves(e'), 0);
  }

  /** The function made from `e` runs any assignment of the same name and operand types. */
  lemma {:induction false} CallRuns(e: Exp, e': Exp, i: nat, m: Mem, sem: Sem)
    requires Valid(e) && Valid(e') && Name(e) == Name(e') && OperandsAgree(e, e')
    ensures BodyRun(BodyOf(e, 0), Params(e, 0), Reverse(Leaves(e')), i, m, sem) == Run(e', i, m, sem)
  {
    NamesDetermineShapes(e, e');
    ArgumentsBound(e, e');
    var ps, args := Params(e, 0), Reverse(Leaves(e'));
    ShapesAlign(e.e1, e'.e1);
    ShapesAlign(e.e2, e'.e2);
    AllBoundSplits(ps, args, Leaves(e.e2), Leaves(e.e1), 0, Leaves(e'.e2), Leaves(e'.e1));
    ArrayIsPure(e.e2, Dest(e).ty);
    ArrayIsPure(e'.e2, Dest(e').ty);
    BodyEvaluates(e.e2, 0, e'.e2, ps, args, i, m, sem);
    SourceWritten(e, e', i, m, sem);
  }

  /** What the call writes, and where. */
  lemma {:induction false} SourceWritten(e: Exp, e': Exp, i: nat, m: Mem, sem: Sem)
    requires Valid(e) && Valid(e') && Name(e) == Name(e')
    ensures
      var v := BodyValue(BodyOf(e.e2, 0), Params(e, 0), Reverse(Leaves(e')), i, m, sem);
      var dest := Dest(e');
      BodyRun(BodyOf(e, 0), Params(e, 0), Reverse(Leaves(e')), i, m, sem)
      == m[(dest.id, i) := sem.conv(dest.ty, if e'.Assign? then v else sem.apply(e'.op, Get(m, dest.id, i), v))]
  {
    NamesDetermineShapes(e, e');
    DestinationFirst(e, e');
    DestinationLeaf(e);
    DestinationLeaf(e');
    var dest, ps, args := Dest(e'), Params(e, 0), Reverse(Leaves(e'));
    assert args[0] == dest && ps[0].ty == dest.ty;
    if e.Assign? {
      assert BodyOf(e, 0) == BAssign(Index(ps[0].name), BCast(dest.ty, BodyOf(e.e2, 0)));
    } else {
      assert BodyOf(e, 0) == BOpAssign(e.op, Index(ps[0].name), BodyOf(e.e2, 0));
    }
  }

  /** The destination is the first argument, and the first parameter is writable. */
  lemma {:induction false} DestinationFirst(e: Exp, e': Exp)
    requires Valid(e) && Valid(e')
    ensures Reverse(Leaves(e'))[0] == Dest(e')
    ensures !Params(e, 0)[0].const_ && Params(e, 0)[0].ty == Dest(e).ty
    ensures Params(e, 0)[0].name == ParamName(Dest(e), |Leaves(e.e2)|)
    ensures Find(Params(e, 0), Params(e, 0)[0].name) == 0
  {
    DestinationLeaf(e);
    DestinationLeaf(e');
    ReverseAt(Leaves(e'), 0);
    ParamsAt(e, 0);
  }

  lemma {:induction false} DestinationLeaf(e: Exp)
    requires Valid(e)
    ensures Leaves(e.e1) == [Dest(e)] && Leaves(e) == Leaves(e.e2) + [Dest(e)]
    ensures Ty(e) == Ty(e.e1) == Dest(e).ty && Pure(e.e1)
    ensures forall n :: BodyOf(e.e1, n) == Index(ParamName(Dest(e), n))
  {
    if e.e1.ArrayCast? {
      assert Leaves(e.e1) == Leaves(e.e1.e);
      assert forall n :: BodyOf(e.e1, n) == BodyOf(e.e1.e, n);
    }
  }

  ghost predicate Computes(f: Func, args: seq<Exp>, e: Exp)
    requires f.Generated? && Valid(e)
  {
    forall n: nat, m: Mem, sem: Sem :: CallsLike(f, args, e, n, m, sem)
  }

  ghost predicate CallsLike(f: Func, args: seq<Exp>, e: Exp, n: nat, m: Mem, sem: Sem)
    requires f.Generated? && Valid(e)
  {
    CallAll(f, args, n, m, sem) == RunAll(e, n, m, sem)
  }

  function FuncOf(e: Exp): Func {
    Generated(Params(e, 0), BodyOf(e, 0))
  }

  lemma {:induction false} CallRunsAll(e: Exp, e': Exp, n: nat, m: Mem, sem: Sem)
    requires Valid(e) && Valid(e') && Name(e) == Name(e') && OperandsAgree(e, e')
    ensures CallAll(FuncOf(e), Reverse(Leaves(e')), n, m, sem) == RunAll(e', n, m, sem)
  {
    if n > 0 {
      CallRunsAll(e, e', n - 1, m, sem);
      CallRuns(e, e', n - 1, RunAll(e', n - 1, m, sem), sem);
    }
  }

  // ----- when a function serves -----

  /** Elements for which only misfits give something else than 0. */
  function Telling(): Sem {
    Sem((op: Op, x: Number, y: Number) => Number(x.re + y.re, 0), (x: Number) => x, (x: Number) => x,
        (ty: string, x: Number) => x, (id: nat) => ZERO, (ty: string, e: Exp, i: nat, m: Mem) => Number(1, 0))
  }

  lemma {:induction false} ZeroValue(e: Exp)
    requires Pure(e)
    ensures Value(e, 0, map[], Telling()) == ZERO
  {
    match e
    case Other(_, _) =>
    case Slice(_, _) =>
    case ArrayCast(e1) => ZeroValue(e1);
    case Neg(e1) => ZeroValue(e1);
    case Com(e1) => ZeroValue(e1);
    case Bin(_, e1, e2) => ZeroValue(e1); ZeroValue(e2);
  }

  /** Operand `j` is bound, perhaps by a parameter of another type. */
  ghost predicate Met(ps: seq<Param>, args: seq<Exp>, name: string, leaf: Exp, fits: bool) {
    var k := Find(ps, name);
    k < |args| && k < |ps| && args[k] == leaf && (ps[k].ty == Ty(leaf) <==> fits)
  }

  ghost predicate MetAt(ps: seq<Param>, args: seq<Exp>, leaves: seq<Exp>, n: nat, leaves': seq<Exp>, j: nat)
    requires j < |leaves| == |leaves'|
  {
    Met(ps, args, ParamName(leaves[j], n + j), leaves'[j], Ty(leaves[j]) == Ty(leaves'[j]))
  }

  ghost predicate AllMet(ps: seq<Param>, args: seq<Exp>, leaves: seq<Exp>, n: nat, leaves': seq<Exp>) {
    |leaves| == |leaves'| && forall j :: 0 <= j < |leaves| ==> MetAt(ps, args, leaves, n, leaves', j)
  }

  lemma {:induction false} AllMetSplits(ps: seq<Param>, args: seq<Exp>, a: seq<Exp>, b: seq<Exp>, n: nat,
                                        a': seq<Exp>, b': seq<Exp>)
    requires |a| == |a'| && |b| == |b'| && AllMet(ps, args, a + b, n, a' + b')
    ensures AllMet(ps, args, a, n, a') && AllMet(ps, args, b, n + |a|, b')
  {
    forall j | 0 <= j < |a|
      ensures MetAt(ps, args, a, n, a', j)
    {
      assert MetAt(ps, args, a + b, n, a' + b', j);
    }
    var n' := n + |a|;
    forall j | 0 <= j < |b|
      ensures MetAt(ps, args, b, n', b', j)
    {
      assert MetAt(ps, args, a + b, n, a' + b', |a| + j);
    }
  }

  ghost predicate Shows(e: Exp, n: nat, e': Exp, ps: seq<Param>, args: seq<Exp>, m: Mem, sem: Sem) {
    var v := BodyValue(BodyOf(e, n), ps, args, 0, m, sem).re;
    v >= 0 && (!OperandsAgree(e, e') ==> v > 0)
  }

  /** A misfit shows in the value of the body. */
  lemma {:induction false} MisfitShows(e: Exp, n: nat, e': Exp, ps: seq<Param>, args: seq<Exp>, m: Mem, sem: Sem)
    requires Pure(e) && Pure(e') && ShapeOf(e) == ShapeOf(e')
    requires AllMet(ps, args, Leaves(e), n, Leaves(e')) && m == map[] && sem == Telling()
    ensures Shows(e, n, e', ps, args, m, sem)
    decreases Size(e) + Size(e')
  {
    if e.ArrayCast? {
      MisfitShows(e.e, n, e', ps, args, m, sem);
    } else if e'.ArrayCast? {
      MisfitShows(e, n, e'.e, ps, args, m, sem);
    } else if e.Neg? || e.Com? {
      MisfitShows(e.e, n, e'.e, ps, args, m, sem);
      UnaryShows(e, n, e', ps, args, m, sem);
    } else if e.Bin? {
      SidesMet(e, n, e', ps, args);
      MisfitShows(e.e1, n, e'.e1, ps, args, m, sem);
      MisfitShows(e.e2, n + |Leaves(e.e1)|, e'.e2, ps, args, m, sem);
      SumShows(e, n, e', ps, args, m, sem);
    } else {
      MisfitLeaf(e, n, e', ps, args);
    }
  }

  lemma {:induction false} UnaryShows(e: Exp, n: nat, e': Exp, ps: seq<Param>, args: seq<Exp>, m: Mem, sem: Sem)
    requires (e.Neg? && e'.Neg?) || (e.Com? && e'.Com?)
    requires sem == Telling() && Shows(e.e, n, e'.e, ps, args, m, sem)
    ensures Shows(e, n, e', ps, args, m, sem)
  {
    assert Leaves(e) == Leaves(e.e) && Leaves(e') == Leaves(e'.e);
  }

  lemma {:induction false} SumShows(e: Exp, n: nat, e': Exp, ps: seq<Param>, args: seq<Exp>, m: Mem, sem: Sem)
    requires e.Bin? && e'.Bin? && sem == Telling()
    requires Shows(e.e1, n, e'.e1, ps, args, m, sem)
    requires Shows(e.e2, n + |Leaves(e.e1)|, e'.e2, ps, args, m, sem)
    ensures Shows(e, n, e', ps, args, m, sem)
  {
    AgreeBoth(e.e1, e'.e1, e.e2, e'.e2);
    assert Leaves(e) == Leaves(e.e1) + Leaves(e.e2) && Leaves(e') == Leaves(e'.e1) + Leaves(e'.e2);
    assert BodyOf(e, n) == BBin(e.op, BodyOf(e.e1, n), BodyOf(e.e2, n + |Leaves(e.e1)|));
  }

  lemma {:induction false} SidesMet(e: Exp, n: nat, e': Exp, ps: seq<Param>, args: seq<Exp>)
    requires e.Bin? && e'.Bin? && ShapeOf(e.e1) == ShapeOf(e'.e1) && ShapeOf(e.e2) == ShapeOf(e'.e2)
    requires AllMet(ps, args, Leaves(e), n, Leaves(e'))
    ensures AllMet(ps, args, Leaves(e.e1), n, Leaves(e'.e1))
    ensures AllMet(ps, args, Leaves(e.e2), n + |Leaves(e.e1)|, Leaves(e'.e2))
  {
    ShapesAlign(e.e1, e'.e1);
    ShapesAlign(e.e2, e'.e2);
    AllMetSplits(ps, args, Leaves(e.e1), Leaves(e.e2), n, Leaves(e'.e1), Leaves(e'.e2));
  }

  lemma {:induction false} AgreeBoth(a: Exp, a': Exp, b: Exp, b': Exp)
    ensures OperandsAgree(a, a') && OperandsAgree(b, b') ==>
              var s, s' := Leaves(a) + Leaves(b), Leaves(a') + Leaves(b');
              |s| == |s'| && forall j :: 0 <= j < |s| ==> Ty(s[j]) == Ty(s'[j])
  {}

  lemma {:induction false} MisfitLeaf(e: Exp, n: nat, e': Exp, ps: seq<Param>, args: seq<Exp>)
    requires (e.Other? && e'.Other?) || (e.Slice? && e'.Slice?)
    requires AllMet(ps, args, Leaves(e), n, Leaves(e'))
    ensures BodyValue(BodyOf(e, n), ps, args, 0, map[], Telling()).re == if e.ty == e'.ty then 0 else 1
    ensures OperandsAgree(e, e') <==> e.ty == e'.ty
  {
    assert MetAt(ps, args, Leaves(e), n, Leaves(e'), 0);
  }

  lemma {:induction false} ArgumentsMet(e: Exp, e': Exp)
    requires ShapeOf(e) == ShapeOf(e')
    ensures AllMet(Params(e, 0), Reverse(Leaves(e')), Leaves(e), 0, Leaves(e'))
  {
    ShapesAlign(e, e');
    forall j | 0 <= j < |Leaves(e)|
      ensures MetAt(Params(e, 0), Reverse(Leaves(e')), Leaves(e), 0, Leaves(e'), j)
    {
      FindParam(e, j);
      ParamsAt(e, |Leaves(e)| - 1 - j);
      ReverseAt(Leaves(e'), |Leaves(e)| - 1 - j);
    }
  }

  lemma {:induction false} SourceMet(e: Exp, e': Exp)
    requires Valid(e) && Valid(e') && ShapeOf(e) == ShapeOf(e')
    ensures AllMet(Params(e, 0), Reverse(Leaves(e')), Leaves(e.e2), 0, Leaves(e'.e2))
    ensures ShapeOf(e.e2) == ShapeOf(e'.e2)
  {
    ArgumentsMet(e, e');
    ShapesAlign(e.e1, e'.e1);
    ShapesAlign(e.e2, e'.e2);
    AllMetSplits(Params(e, 0), Reverse(Leaves(e')), Leaves(e.e2), Leaves(e.e1), 0, Leaves(e'.e2), Leaves(e'.e1));
  }

  lemma {:induction false} MisfitInSource(e: Exp, e': Exp)
    requires Valid(e) && Valid(e') && Name(e) == Name(e') && !OperandsAgree(e, e')
    ensures BodyValue(BodyOf(e.e2, 0), Params(e, 0), Reverse(Leaves(e')), 0, map[], Telling()).re > 0
  {
    var ps, args := Params(e, 0), Reverse(Leaves(e'));
    NamesDetermineShapes(e, e');
    SourceMet(e, e');
    ArrayIsPure(e.e2, Dest(e).ty);
    ArrayIsPure(e'.e2, Dest(e').ty);
    MisfitShows(e.e2, 0, e'.e2, ps, args, map[], Telling());
    DestinationLeaf(e);
    DestinationLeaf(e');
    AgreeBoth(e.e2, e'.e2, e.e1, e'.e1);
  }

  /** Operands of different types make the call compute something else, for some arithmetic. */
  lemma {:induction false} MisfitFails(e: Exp, e': Exp)
    requires Valid(e) && Valid(e') && Name(e) == Name(e') && !OperandsAgree(e, e')
    ensures !CallsLike(FuncOf(e), Reverse(Leaves(e')), e', 1, map[], Telling())
  {
    var args, sem := Reverse(Leaves(e')), Telling();
    MisfitInSource(e, e');
    ArrayIsPure(e'.e2, Dest(e').ty);
    ZeroValue(e'.e2);
    SourceWritten(e, e', 0, map[], sem);
    CallOnce(FuncOf(e), args, map[], sem);
    RunOnce(e', map[], sem);
    assert Run(e', 0, map[], sem)[(Dest(e').id, 0)] == ZERO;
  }

  lemma {:induction false} CallOnce(f: Func, args: seq<Exp>, m: Mem, sem: Sem)
    requires f.Generated?
    ensures CallAll(f, args, 1, m, sem) == BodyRun(f.body, f.params, args, 0, m, sem)
  {
    assert CallAll(f, args, 0, m, sem) == m;
  }

  lemma {:induction false} RunOnce(e: Exp, m: Mem, sem: Sem)
    requires Valid(e)
    ensures RunAll(e, 1, m, sem) == Run(e, 0, m, sem)
  {
    assert RunAll(e, 0, m, sem) == m;
  }

  /** A function that is found by its name serves an assignment, for every length, memory and
    arithmetic, if and only if the operands have the types of those that it was made from. */
  lemma {:induction false} ServesExactly(e: Exp, e': Exp)
    requires Valid(e) && Valid(e') && Name(e) == Name(e')
    ensures Computes(FuncOf(e), Reverse(Leaves(e')), e') <==> OperandsAgree(e, e')
  {
    if OperandsAgree(e, e') {
      forall n: nat, m: Mem, sem: Sem
        ensures CallsLike(FuncOf(e), Reverse(Leaves(e')), e', n, m, sem)
      {
        CallRunsAll(e, e', n, m, sem);
      }
    } else {
      MisfitFails(e, e');
    }
  }

  // ----- when names determine types -----

  /** All operands have one type. */
  ghost predicate Uniform(e: Exp, ty: string) {
    forall j :: 0 <= j < |Leaves(e)| ==> Ty(Leaves(e)[j]) == ty
  }

  lemma {:induction false} NothingMixed(op: Op, t1: string, t2: string, ty: string)
    requires HasType(op, t1, t2, ty) && !Floating(ty)
    ensures t1 == t2 == ty
  {}

  lemma {:induction false} UniformBoth(e: Exp, ty: string)
    requires e.Bin? && Uniform(e.e1, ty) && Uniform(e.e2, ty)
    ensures Uniform(e, ty)
  {}

  lemma {:induction false} ScalarIsUniform(e: Exp, ty: string)
    requires IsScalar(e, ty) && !Floating(ty)
    ensures Uniform(e, ty)
  {
    match e
    case Other(_, _) =>
    case Neg(e1) => ScalarIsUniform(e1, ty);
    case Com(e1) => ScalarIsUniform(e1, ty);
    case Bin(op, e1, e2) =>
      var t1, t2 :| HasType(op, t1, t2, ty) && IsScalar(e1, t1) && IsScalar(e2, t2);
      NothingMixed(op, t1, t2, ty);
      ScalarIsUniform(e1, ty);
      ScalarIsUniform(e2, ty);
      UniformBoth(e, ty);
  }

  lemma {:induction false} ArrayIsUniform(e: Exp, ty: string)
    requires (IsArray(e, ty) || IsScalar(e, ty)) && !Floating(ty)
    ensures Uniform(e, ty)
  {
    if IsScalar(e, ty) {
      ScalarIsUniform(e, ty);
    } else {
      match e
      case Slice(_, _) =>
      case Neg(e1) => ArrayIsUniform(e1, ty);
      case Com(e1) => ArrayIsUniform(e1, ty);
      case Bin(op, e1, e2) => ArrayIsUniform(e1, ty); ArrayIsUniform(e2, ty); UniformBoth(e, ty);
    }
  }

  /** With elements that are no floating numbers a name determines the types of all operands. */
  lemma {:induction false} NamesDetermineTypes(e: Exp, e': Exp)
    requires Valid(e) && Valid(e') && Name(e) == Name(e') && !Floating(Ty(e))
    ensures OperandsAgree(e, e')
  {
    NamesDetermineShapes(e, e');
    ShapesAlign(e, e');
    DestinationLeaf(e);
    DestinationLeaf(e');
    ArrayIsUniform(e.e2, Ty(e));
    ArrayIsUniform(e'.e2, Ty(e));
  }

  /** `a[] = b[] * (x op y)` */
  function Scaled(ty: string, op: Op, t1: string, t2: string): Exp {
    Assign(Slice(0, ty), Bin(Mul, Slice(1, ty), Bin(op, Other(2, t1), Other(3, t2))))
  }

  lemma {:induction false} ScaledIsValid(ty: string, op: Op, t1: string, t2: string)
    requires HasType(op, t1, t2, ty)
    ensures Valid(Scaled(ty, op, t1, t2)) && Ty(Scaled(ty, op, t1, t2)) == ty
  {
    var b, x, y := Slice(1, ty), Other(2, t1), Other(3, t2);
    assert IsScalar(x, t1) && IsScalar(y, t2);
    assert IsScalar(Bin(op, x, y), ty);
    assert IsArray(b, ty);
    assert IsArray(Bin(Mul, b, Bin(op, x, y)), ty);
  }

  lemma {:induction false} ScaledFacts(ty: string, op: Op, t1: string, t2: string)
    ensures Words(Scaled(ty, op, t1, t2)) == [SliceW, ExpW, ExpW, BinW(op), BinW(Mul), SliceW, AssignW]
    ensures Leaves(Scaled(ty, op, t1, t2)) == [Slice(1, ty), Other(2, t1), Other(3, t2), Slice(0, ty)]
  {
    var x, y := Other(2, t1), Other(3, t2);
    var sum, b := Bin(op, x, y), Slice(1, ty);
    assert Words(x) == [ExpW] && Words(y) == [ExpW] && Leaves(x) == [x] && Leaves(y) == [y];
    assert Words(sum) == [ExpW] + [ExpW] + [BinW(op)] && Leaves(sum) == [x] + [y];
    assert Words(Bin(Mul, b, sum)) == [SliceW, ExpW, ExpW, BinW(op), BinW(Mul)];
    assert Leaves(Bin(Mul, b, sum)) == [b, x, y];
  }

  ghost predicate NameIsAmbiguous(e: Exp, e': Exp, ty: string) {
    Valid(e) && Valid(e') && Name(e) == Name(e') && Ty(e) == ty && !OperandsAgree(e, e')
  }

  /** With floating elements it does not: the sum of a real and an imaginary number has the name
    of the sum of an imaginary and a real one, and so on. */
  lemma {:induction false} NamesForgetTypes(ty: string) returns (e: Exp, e': Exp)
    requires Floating(ty)
    ensures NameIsAmbiguous(e, e', ty)
    ensures ty == "r" ==> e == Scaled(ty, Add, "d", "p") && e' == Scaled(ty, Add, "p", "d")
  {
    var re, im := Triple(ty)[0], Triple(ty)[1];
    if ty in COMPLEX {
      e, e' := Ambiguous(ty, Add, re, im, im, re);
    } else if ty in IMAGINARY {
      e, e' := Ambiguous(ty, Mul, re, im, im, re);
    } else {
      e, e' := Ambiguous(ty, Div, im, im, re, re);
    }
  }

  lemma {:induction false} Ambiguous(ty: string, op: Op, t1: string, t2: string, t1': string, t2': string)
    returns (e: Exp, e': Exp)
    requires HasType(op, t1, t2, ty) && HasType(op, t1', t2', ty) && t1 != t1'
    ensures NameIsAmbiguous(e, e', ty)
    ensures e == Scaled(ty, op, t1, t2) && e' == Scaled(ty, op, t1', t2')
  {
    ScaledIsValid(ty, op, t1, t2);
    ScaledIsValid(ty, op, t1', t2');
    ScaledFacts(ty, op, t1, t2);
    ScaledFacts(ty, op, t1', t2');
    e, e' := Scaled(ty, op, t1, t2), Scaled(ty, op, t1', t2');
    assert Ty(Leaves(e)[1]) == t1 && Ty(Leaves(e')[1]) == t1';
  }

  lemma {:induction false} AmbiguousExactly(ty: string)
    ensures (exists e, e' :: NameIsAmbiguous(e, e', ty)) <==> Floating(ty)
  {
    if Floating(ty) {
      var e, e' := NamesForgetTypes(ty);
    } else if e, e' :| NameIsAmbiguous(e, e', ty) {
      NamesDetermineTypes(e, e');
    }
  }

  // ----- what a misfit computes -----

  /** Complex arithmetic; and a real and an imaginary number of one precision have the same bits. */
  ghost predicate IsComplex(sem: Sem) {
    && (forall x, y :: sem.apply(Add, x, y) == Number(x.re + y.re, x.im + y.im))
    && (forall x, y :: sem.apply(Mul, x, y) == Number(x.re * y.re - x.im * y.im, x.re * y.im + x.im * y.re))
    && (forall ty: string, x: Number :: sem.conv(ty, x) == x)
    && (forall ty: string, e: Exp, i: nat, m: Mem | Swapped(ty, e) :: Rereads(sem, ty, e, i, m))
  }

  predicate Swapped(ty: string, e: Exp) {
    e.Other? && ((ty in REAL && e.ty in IMAGINARY) || (ty in IMAGINARY && e.ty in REAL))
  }

  predicate Rereads(sem: Sem, ty: string, e: Exp, i: nat, m: Mem)
    requires e.Other?
  {
    sem.alien(ty, e, i, m) == Number(sem.other(e.id).im, sem.other(e.id).re)
  }

  function Seen(ty: string, e: Exp, i: nat, m: Mem, sem: Sem): Number
    requires e.Other?
  {
    if ty == e.ty then sem.other(e.id) else sem.alien(ty, e, i, m)
  }

  /** The value that the body made for one `b[] * (x op y)` gives for another. */
  lemma {:induction false} ScaledBody(ty: string, op: Op, t1: string, t2: string, t1': string, t2': string, m: Mem,
                                      sem: Sem)
    ensures
      var e, e' := Scaled(ty, op, t1, t2), Scaled(ty, op, t1', t2');
      BodyValue(BodyOf(e.e2, 0), Params(e, 0), Reverse(Leaves(e')), 0, m, sem)
      == sem.apply(Mul, Get(m, 1, 0),
                   sem.apply(op, Seen(t1, Other(2, t1'), 0, m, sem), Seen(t2, Other(3, t2'), 0, m, sem)))
  {
    var e, e' := Scaled(ty, op, t1, t2), Scaled(ty, op, t1', t2');
    ScaledFacts(ty, op, t1, t2);
    ScaledFacts(ty, op, t1', t2');
    var ps, args := Params(e, 0), Reverse(Leaves(e'));
    OperandSeen(e, e', 0, 0, m, sem);
    OperandSeen(e, e', 1, 0, m, sem);
    OperandSeen(e, e', 2, 0, m, sem);
    var b, x, y := Slice(1, ty), Other(2, t1), Other(3, t2);
    assert Leaves(b) == [b] && Leaves(x) == [x];
    assert BodyOf(Bin(op, x, y), 1) == BBin(op, Var(ParamName(x, 1)), Var(ParamName(y, 2)));
    assert BodyOf(e.e2, 0) == BBin(Mul, Index(ParamName(b, 0)), BodyOf(Bin(op, x, y), 1));
    SumOfBodies(op, Var(ParamName(x, 1)), Var(ParamName(y, 2)), ps, args, m, sem);
    SumOfBodies(Mul, Index(ParamName(b, 0)), BodyOf(Bin(op, x, y), 1), ps, args, m, sem);
  }

  lemma {:induction false} SumOfBodies(op: Op, b1: Body, b2: Body, ps: seq<Param>, args: seq<Exp>, m: Mem, sem: Sem)
    ensures BodyValue(BBin(op, b1, b2), ps, args, 0, m, sem)
         == sem.apply(op, BodyValue(b1, ps, args, 0, m, sem), BodyValue(b2, ps, args, 0, m, sem))
  {}

  lemma {:induction false} OperandSeen(e: Exp, e': Exp, j: nat, i: nat, m: Mem, sem: Sem)
    requires j < |Leaves(e)| == |Leaves(e')| && Leaves(e)[j].Slice? == Leaves(e')[j].Slice?
    ensures
      var x, x' := Leaves(e)[j], Leaves(e')[j];
      var b := if x.Slice? then Index(ParamName(x, j)) else Var(ParamName(x, j));
      var v := BodyValue(b, Params(e, 0), Reverse(Leaves(e')), i, m, sem);
      if x.Slice? then x.ty == x'.ty ==> v == Get(m, x'.id, i) else v == Seen(x.ty, x', i, m, sem)
  {
    FindParam(e, j);
    ArgumentAt(e, e', |Leaves(e)| - 1 - j);
  }

  lemma {:induction false} ScaledCall(ty: string, op: Op, t1: string, t2: string, t1': string, t2': string,
                                      m: Mem, sem: Sem)
    requires HasType(op, t1, t2, ty) && HasType(op, t1', t2', ty) && IsComplex(sem)
    ensures
      var b, x, y := Get(m, 1, 0), Other(2, t1'), Other(3, t2');
      CallAll(FuncOf(Scaled(ty, op, t1, t2)), Reverse(Leaves(Scaled(ty, op, t1', t2'))), 1, m, sem)
      == m[(0, 0) := sem.apply(Mul, b, sem.apply(op, Seen(t1, x, 0, m, sem), Seen(t2, y, 0, m, sem)))]
  {
    var e, e' := Scaled(ty, op, t1, t2), Scaled(ty, op, t1', t2');
    ScaledIsValid(ty, op, t1, t2);
    ScaledIsValid(ty, op, t1', t2');
    ScaledFacts(ty, op, t1, t2);
    ScaledFacts(ty, op, t1', t2');
    SourceWritten(e, e', 0, m, sem);
    ScaledBody(ty, op, t1, t2, t1', t2', m, sem);
    CallOnce(FuncOf(e), Reverse(Leaves(e')), m, sem);
  }

  lemma {:induction false} ScaledRun(ty: string, op: Op, t1: string, t2: string, m: Mem, sem: Sem)
    requires Valid(Scaled(ty, op, t1, t2)) && IsComplex(sem)
    ensures RunAll(Scaled(ty, op, t1, t2), 1, m, sem)
         == m[(0, 0) := sem.apply(Mul, Get(m, 1, 0), sem.apply(op, sem.other(2), sem.other(3)))]
  {
    RunOnce(Scaled(ty, op, t1, t2), m, sem);
    ScaledValue(ty, op, Other(2, t1), Other(3, t2), m, sem);
  }

  lemma {:induction false} ScaledValue(ty: string, op: Op, x: Exp, y: Exp, m: Mem, sem: Sem)
    requires x.Other? && y.Other?
    ensures Pure(Bin(Mul, Slice(1, ty), Bin(op, x, y)))
    ensures Value(Bin(Mul, Slice(1, ty), Bin(op, x, y)), 0, m, sem)
         == sem.apply(Mul, Get(m, 1, 0), sem.apply(op, sem.other(x.id), sem.other(y.id)))
  {
    assert Pure(x) && Pure(y) && Pure(Bin(op, x, y));
    assert Value(Bin(op, x, y), 0, m, sem) == sem.apply(op, sem.other(x.id), sem.other(y.id));
  }

  /** `a[] = b[] * (x + y)` for complex `a` and `b`, imaginary `x` and real `y`, calling the function
    made for real `x` and imaginary `y`: that swaps the parts of the sum. */
  lemma {:induction false} ComplexSumIsSwapped(ty: string, x: int, y: int, m: Mem, sem: Sem)
    requires ty in COMPLEX && IsComplex(sem)
    requires sem.other(2) == Number(0, x) && sem.other(3) == Number(y, 0) && Get(m, 1, 0) == Number(1, 0)
    ensures
      var re, im := Triple(ty)[0], Triple(ty)[1];
      var e, e' := Scaled(ty, Add, re, im), Scaled(ty, Add, im, re);
      && NameIsAmbiguous(e, e', ty)
      && RunAll(e', 1, m, sem) == m[(0, 0) := Number(y, x)]
      && CallAll(FuncOf(e), Reverse(Leaves(e')), 1, m, sem) == m[(0, 0) := Number(x, y)]
  {
    var re, im := Triple(ty)[0], Triple(ty)[1];
    var a, b := Other(2, im), Other(3, re);
    var e, e' := Ambiguous(ty, Add, re, im, im, re);
    ScaledCall(ty, Add, re, im, im, re, m, sem);
    ScaledRun(ty, Add, im, re, m, sem);
    assert Swapped(re, a) && Swapped(im, b);
    assert Rereads(sem, re, a, 0, m) && Rereads(sem, im, b, 0, m);
    Unscaled(sem, Number(x, y));
    Unscaled(sem, Number(y, x));
  }

  lemma {:induction false} Unscaled(sem: Sem, v: Number)
    requires IsComplex(sem)
    ensures sem.apply(Mul, Number(1, 0), v) == v
  {}

  lemma {:induction false} TurnedProduct(sem: Sem, x: int, y: int)
    requires IsComplex(sem)
    ensures sem.apply(Mul, Number(x, 0), Number(0, y)) == sem.apply(Mul, Number(0, x), Number(y, 0))
  {}

  /** With imaginary elements the pair above does no harm: a product is the same. */
  lemma {:induction false} ImaginaryProductIsRight(ty: string, x: int, y: int, m: Mem, sem: Sem)
    requires ty in IMAGINARY && IsComplex(sem) && sem.other(2) == Number(0, x) && sem.other(3) == Number(y, 0)
    ensures
      var re, im := Triple(ty)[0], Triple(ty)[1];
      var e, e' := Scaled(ty, Mul, re, im), Scaled(ty, Mul, im, re);
      && NameIsAmbiguous(e, e', ty)
      && CallAll(FuncOf(e), Reverse(Leaves(e')), 1, m, sem) == RunAll(e', 1, m, sem)
  {
    var re, im := Triple(ty)[0], Triple(ty)[1];
    var a, b := Other(2, im), Other(3, re);
    var e, e' := Ambiguous(ty, Mul, re, im, im, re);
    ScaledCall(ty, Mul, re, im, im, re, m, sem);
    ScaledRun(ty, Mul, im, re, m, sem);
    TurnedProduct(sem, x, y);
    assert Swapped(re, a) && Swapped(im, b);
    assert Rereads(sem, re, a, 0, m) && Rereads(sem, im, b, 0, m);
  }

  // ----- the functions of the library -----

  /** What is computed from the arguments, which are counted from the destination on. */
  datatype Term = TVal(k: nat) | TArr(k: nat) | TBin(op: Op, t1: Term, t2: Term)

  /** Functions whose names begin alike: the last letter of a name is one of `types`. They assign
    to the first argument, with an operator or without. */
  datatype Lib = Lib(prefix: string, types: string, op: Option<Op>, source: Term)

  /** The table. Values and arrays are numbered as the functions declare them. */
  function Table(k: nat): Lib
    requires k < ROWS
  {
    match k
    case 0 => Lib("_arrayExpSliceAddass", "adfghikstuw", Some(Add), TVal(1))
    case 1 => Lib("_arrayExpSliceDivass", "df", Some(Div), TVal(1))
    case 2 => Lib("_arrayExpSliceMinSliceAssign", "adfghikstuw", None, TBin(Min, TVal(2), TArr(1)))
    case 3 => Lib("_arrayExpSliceMinass", "adfghikstuw", Some(Min), TVal(1))
    case 4 => Lib("_arrayExpSliceMulass", "dfikstuw", Some(Mul), TVal(1))
    case 5 => Lib("_arraySliceExpAddSliceAssign", "adfghikstuw", None, TBin(Add, TArr(2), TVal(1)))
    case 6 => Lib("_arraySliceExpDivSliceAssign", "df", None, TBin(Div, TArr(2), TVal(1)))
    case 7 => Lib("_arraySliceExpMinSliceAssign", "adfghikstuw", None, TBin(Min, TArr(2), TVal(1)))
    case 8 => Lib("_arraySliceExpMulSliceAddass", "dfr", Some(Add), TBin(Mul, TArr(2), TVal(1)))
    case 9 => Lib("_arraySliceExpMulSliceAssign", "dfikstuw", None, TBin(Mul, TArr(2), TVal(1)))
    case 10 => Lib("_arraySliceExpMulSliceMinass", "dfr", Some(Min), TBin(Mul, TArr(2), TVal(1)))
    case 11 => Lib("_arraySliceSliceAddSliceAssign", "adfghikrstuw", None, TBin(Add, TArr(2), TArr(1)))
    case 12 => Lib("_arraySliceSliceAddass", "adfghikstuw", Some(Add), TArr(1))
    case 13 => Lib("_arraySliceSliceMinSliceAssign", "adfghikrstuw", None, TBin(Min, TArr(2), TArr(1)))
    case 14 => Lib("_arraySliceSliceMinass", "adfghikstuw", Some(Min), TArr(1))
    case 15 => Lib("_arraySliceSliceMulSliceAssign", "dfikstuw", None, TBin(Mul, TArr(2), TArr(1)))
    case _ => Lib("_arraySliceSliceMulass", "dfikstuw", Some(Mul), TArr(1))
  }

  const ROWS: nat := 17

  predicate IsLib(l: Lib, name: string) {
    |name| == |l.prefix| + 2 && name[|name| - 1] in l.types && name == l.prefix + "_" + [name[|name| - 1]]
  }

  predicate InLibrary(name: string) {
    exists k: nat | k < ROWS :: IsLib(Table(k), name)
  }

  /** The elements that a function takes. Those of integers do the arithmetic of every integer of
    their width; the functions with `r`, the letter of cdouble, are written for real. */
  function LibType(name: string): string {
    if name == "" then "" else if name[|name| - 1] == 'r' then "e" else [name[|name| - 1]]
  }

  function LibValue(t: Term, ty: string, args: seq<Exp>, i: nat, m: Mem, sem: Sem): Number {
    match t
    case TVal(k) =>
      if k < |args| && args[k].Other? then Seen(ty, args[k], i, m, sem) else ZERO
    case TArr(k) =>
      if k < |args| && args[k].Slice? then
        if args[k].ty == ty then Get(m, args[k].id, i) else sem.alien(ty, args[k], i, m)
      else ZERO
    case TBin(op, t1, t2) =>
      sem.apply(op, LibValue(t1, ty, args, i, m, sem), LibValue(t2, ty, args, i, m, sem))
  }

  function LibRun(l: Lib, ty: string, args: seq<Exp>, i: nat, m: Mem, sem: Sem): Mem {
    if args != [] && args[0].Slice? && args[0].ty == ty then
      var v := LibValue(l.source, ty, args, i, m, sem);
      m[(args[0].id, i) :=
        sem.conv(ty, if l.op.None? then v else sem.apply(l.op.value, Get(m, args[0].id, i), v))]
    else m
  }

  function LibAll(l: Lib, ty: string, args: seq<Exp>, n: nat, m: Mem, sem: Sem): Mem {
    if n == 0 then m else LibRun(l, ty, args, n - 1, LibAll(l, ty, args, n - 1, m, sem), sem)
  }

  /** The function does the assignment, for every length, memory and arithmetic. */
  ghost predicate LibComputes(l: Lib, ty: string, args: seq<Exp>, e: Exp)
    requires Valid(e)
  {
    forall n: nat, m: Mem, sem: Sem :: LibCalls(l, ty, args, e, n, m, sem)
  }

  ghost predicate LibCalls(l: Lib, ty: string, args: seq<Exp>, e: Exp, n: nat, m: Mem, sem: Sem)
    requires Valid(e)
  {
    LibAll(l, ty, args, n, m, sem) == RunAll(e, n, m, sem)
  }

  // ----- what names of the library stand for -----

  function TermExp(t: Term, ty: string): Exp {
    match t
    case TVal(k) => Other(k, ty)
    case TArr(k) => Slice(k, ty)
    case TBin(op, t1, t2) => Bin(op, TermExp(t1, ty), TermExp(t2, ty))
  }

  /** An assignment that the function does. */
  function LibExp(l: Lib, ty: string): Exp {
    if l.op.None? then Assign(Slice(0, ty), TermExp(l.source, ty))
    else OpAssign(l.op.value, Slice(0, ty), TermExp(l.source, ty))
  }

  function ArgSpelled(t: Term): string {
    if t.TArr? then "Slice" else "Exp"
  }

  lemma {:induction false} ShortName(l: Lib, ty: string)
    requires !l.source.TBin? && l.op.Some?
    requires Spells(l)
    ensures Name(LibExp(l, ty)) == l.prefix + "_" + ty
  {
    var w := if l.source.TArr? then SliceW else ExpW;
    var ws := [SliceW, OpAssignW(l.op.value)];
    assert Words(LibExp(l, ty)) == [w] + ws;
    SpellFirstWord(w, ws);
    assert ws == [SliceW] + [OpAssignW(l.op.value)];
    SpellFirstWord(SliceW, [OpAssignW(l.op.value)]);
    OneWord(OpAssignW(l.op.value));
    NameParts(l, ty, SpellAll([w] + ws));
  }

  lemma {:induction false} NameParts(l: Lib, ty: string, spelled: string)
    requires SpellAll(Words(LibExp(l, ty))) == spelled && l.prefix == "_array" + spelled
    ensures Name(LibExp(l, ty)) == l.prefix + "_" + ty
  {
    assert Ty(Slice(0, ty)) == ty;
    assert Ty(LibExp(l, ty)) == ty;
  }

  lemma {:induction false} LongName(l: Lib, ty: string)
    requires l.source.TBin? && !l.source.t1.TBin? && !l.source.t2.TBin?
    requires Spells(l)
    ensures Name(LibExp(l, ty)) == l.prefix + "_" + ty
  {
    var w1, w2 := if l.source.t1.TArr? then SliceW else ExpW, if l.source.t2.TArr? then SliceW else ExpW;
    var w := if l.op.None? then AssignW else OpAssignW(l.op.value);
    LongWords(l, ty, w1, w2, w);
    SpellFirstWord(w1, [w2, BinW(l.source.op), SliceW, w]);
    var v := BinW(l.source.op);
    assert [w2, v, SliceW, w] == [w2] + [v, SliceW, w] && [v, SliceW, w] == [v] + [SliceW, w];
    assert [SliceW, w] == [SliceW] + [w];
    SpellFirstWord(w2, [v, SliceW, w]);
    SpellFirstWord(v, [SliceW, w]);
    SpellFirstWord(SliceW, [w]);
    OneWord(w);
    NameParts(l, ty, SpellAll([w1] + [w2, v, SliceW, w]));
  }

  lemma {:induction false} LongWords(l: Lib, ty: string, w1: Word, w2: Word, w: Word)
    requires l.source.TBin? && !l.source.t1.TBin? && !l.source.t2.TBin?
    requires w1 == (if l.source.t1.TArr? then SliceW else ExpW) && w2 == if l.source.t2.TArr? then SliceW else ExpW
    requires w == if l.op.None? then AssignW else OpAssignW(l.op.value)
    ensures Words(LibExp(l, ty)) == [w1] + [w2, BinW(l.source.op), SliceW, w]
  {
    var e1, e2 := TermExp(l.source.t1, ty), TermExp(l.source.t2, ty);
    assert Words(e1) == [w1] && Words(e2) == [w2];
    assert Words(TermExp(l.source, ty)) == [w1] + [w2] + [BinW(l.source.op)];
  }

  lemma {:induction false} SpellFirstWord(w: Word, ws: seq<Word>)
    ensures SpellAll([w] + ws) == Spell(w) + SpellAll(ws)
  {
    assert ([w] + ws)[1..] == ws;
  }

  predicate Spells(l: Lib) {
    l.prefix == "_array" +
      if l.source.TBin? then
        ArgSpelled(l.source.t1) + (ArgSpelled(l.source.t2) + (OpName(l.source.op)
        + ("Slice" + if l.op.None? then "Assign" else OpName(l.op.value) + "ass")))
      else ArgSpelled(l.source) + ("Slice" + if l.op.None? then "Assign" else OpName(l.op.value) + "ass")
  }

  lemma {:induction false} Row0()
    ensures Spells(Table(0))
  {
    assert "Add" + "ass" == "Addass";
    assert "Slice" + "Addass" == "SliceAddass";
    assert "Exp" + "SliceAddass" == "ExpSliceAddass";
    assert "_array" + "ExpSliceAddass" == "_arrayExpSliceAddass";
  }

  lemma {:induction false} Row1()
    ensures Spells(Table(1))
  {
    assert "Div" + "ass" == "Divass";
    assert "Slice" + "Divass" == "SliceDivass";
    assert "Exp" + "SliceDivass" == "ExpSliceDivass";
    assert "_array" + "ExpSliceDivass" == "_arrayExpSliceDivass";
  }

  lemma {:induction false} Row2()
    ensures Spells(Table(2))
  {
    assert "Slice" + "Assign" == "SliceAssign";
    assert "Min" + "SliceAssign" == "MinSliceAssign";
    assert "Slice" + "MinSliceAssign" == "SliceMinSliceAssign";
    assert "Exp" + "SliceMinSliceAssign" == "ExpSliceMinSliceAssign";
    assert "_array" + "ExpSliceMinSliceAssign" == "_arrayExpSliceMinSliceAssign";
  }

  lemma {:induction false} Row3()
    ensures Spells(Table(3))
  {
    assert "Min" + "ass" == "Minass";
    assert "Slice" + "Minass" == "SliceMinass";
    assert "Exp" + "SliceMinass" == "ExpSliceMinass";
    assert "_array" + "ExpSliceMinass" == "_arrayExpSliceMinass";
  }

  lemma {:induction false} Row4()
    ensures Spells(Table(4))
  {
    assert "Mul" + "ass" == "Mulass";
    assert "Slice" + "Mulass" == "SliceMulass";
    assert "Exp" + "SliceMulass" == "ExpSliceMulass";
    assert "_array" + "ExpSliceMulass" == "_arrayExpSliceMulass";
  }

  lemma {:induction false} Row5()
    ensures Spells(Table(5))
  {
    assert "Slice" + "Assign" == "SliceAssign";
    assert "Add" + "SliceAssign" == "AddSliceAssign";
    assert "Exp" + "AddSliceAssign" == "ExpAddSliceAssign";
    assert "Slice" + "ExpAddSliceAssign" == "SliceExpAddSliceAssign";
    assert "_array" + "SliceExpAddSliceAssign" == "_arraySliceExpAddSliceAssign";
  }

  lemma {:induction false} Row6()
    ensures Spells(Table(6))
  {
    assert "Slice" + "Assign" == "SliceAssign";
    assert "Div" + "SliceAssign" == "DivSliceAssign";
    assert "Exp" + "DivSliceAssign" == "ExpDivSliceAssign";
    assert "Slice" + "ExpDivSliceAssign" == "SliceExpDivSliceAssign";
    assert "_array" + "SliceExpDivSliceAssign" == "_arraySliceExpDivSliceAssign";
  }

  lemma {:induction false} Row7()
    ensures Spells(Table(7))
  {
    assert "Slice" + "Assign" == "SliceAssign";
    assert "Min" + "SliceAssign" == "MinSliceAssign";
    assert "Exp" + "MinSliceAssign" == "ExpMinSliceAssign";
    assert "Slice" + "ExpMinSliceAssign" == "SliceExpMinSliceAssign";
    assert "_array" + "SliceExpMinSliceAssign" == "_arraySliceExpMinSliceAssign";
  }

  lemma {:induction false} Row8()
    ensures Spells(Table(8))
  {
    assert "Add" + "ass" == "Addass";
    assert "Slice" + "Addass" == "SliceAddass";
    assert "Mul" + "SliceAddass" == "MulSliceAddass";
    assert "Exp" + "MulSliceAddass" == "ExpMulSliceAddass";
    assert "Slice" + "ExpMulSliceAddass" == "SliceExpMulSliceAddass";
    assert "_array" + "SliceExpMulSliceAddass" == "_arraySliceExpMulSliceAddass";
  }

  lemma {:induction false} Row9()
    ensures Spells(Table(9))
  {
    assert "Slice" + "Assign" == "SliceAssign";
    assert "Mul" + "SliceAssign" == "MulSliceAssign";
    assert "Exp" + "MulSliceAssign" == "ExpMulSliceAssign";
    assert "Slice" + "ExpMulSliceAssign" == "SliceExpMulSliceAssign";
    assert "_array" + "SliceExpMulSliceAssign" == "_arraySliceExpMulSliceAssign";
  }

  lemma {:induction false} Row10()
    ensures Spells(Table(10))
  {
    assert "Min" + "ass" == "Minass";
    assert "Slice" + "Minass" == "SliceMinass";
    assert "Mul" + "SliceMinass" == "MulSliceMinass";
    assert "Exp" + "MulSliceMinass" == "ExpMulSliceMinass";
    assert "Slice" + "ExpMulSliceMinass" == "SliceExpMulSliceMinass";
    assert "_array" + "SliceExpMulSliceMinass" == "_arraySliceExpMulSliceMinass";
  }

  lemma {:induction false} Row11()
    ensures Spells(Table(11))
  {
    assert "Slice" + "Assign" == "SliceAssign";
    assert "Add" + "SliceAssign" == "AddSliceAssign";
    assert "Slice" + "AddSliceAssign" == "SliceAddSliceAssign";
    assert "Slice" + "SliceAddSliceAssign" == "SliceSliceAddSliceAssign";
    assert "_array" + "SliceSliceAddSliceAssign" == "_arraySliceSliceAddSliceAssign";
  }

  lemma {:induction false} Row12()
    ensures Spells(Table(12))
  {
    assert "Add" + "ass" == "Addass";
    assert "Slice" + "Addass" == "SliceAddass";
    assert "Slice" + "SliceAddass" == "SliceSliceAddass";
    assert "_array" + "SliceSliceAddass" == "_arraySliceSliceAddass";
  }

  lemma {:induction false} Row13()
    ensures Spells(Table(13))
  {
    assert "Slice" + "Assign" == "SliceAssign";
    assert "Min" + "SliceAssign" == "MinSliceAssign";
    assert "Slice" + "MinSliceAssign" == "SliceMinSliceAssign";
    assert "Slice" + "SliceMinSliceAssign" == "SliceSliceMinSliceAssign";
    assert "_array" + "SliceSliceMinSliceAssign" == "_arraySliceSliceMinSliceAssign";
  }

  lemma {:induction false} Row14()
    ensures Spells(Table(14))
  {
    assert "Min" + "ass" == "Minass";
    assert "Slice" + "Minass" == "SliceMinass";
    assert "Slice" + "SliceMinass" == "SliceSliceMinass";
    assert "_array" + "SliceSliceMinass" == "_arraySliceSliceMinass";
  }

  lemma {:induction false} Row15()
    ensures Spells(Table(15))
  {
    assert "Slice" + "Assign" == "SliceAssign";
    assert "Mul" + "SliceAssign" == "MulSliceAssign";
    assert "Slice" + "MulSliceAssign" == "SliceMulSliceAssign";
    assert "Slice" + "SliceMulSliceAssign" == "SliceSliceMulSliceAssign";
    assert "_array" + "SliceSliceMulSliceAssign" == "_arraySliceSliceMulSliceAssign";
  }

  lemma {:induction false} Row16()
    ensures Spells(Table(16))
  {
    assert "Mul" + "ass" == "Mulass";
    assert "Slice" + "Mulass" == "SliceMulass";
    assert "Slice" + "SliceMulass" == "SliceSliceMulass";
    assert "_array" + "SliceSliceMulass" == "_arraySliceSliceMulass";
  }

  /** The arguments behind the destination are those of the source from right to left. */
  predicate Simple(l: Lib) {
    match l.source
    case TBin(_, t1, t2) => !t1.TBin? && !t2.TBin? && t1.k == 2 && t2.k == 1
    case _ => l.source.k == 1 && l.op.Some?
  }

  lemma {:induction false} TableSpells(k: nat)
    requires k < ROWS
    ensures Spells(Table(k)) && Simple(Table(k))
    ensures var t := Table(k).source; t.TBin? ==> t.t1.TArr? || t.t2.TArr?
  {
    match k
    case 0 => Row0();
    case 1 => Row1();
    case 2 => Row2();
    case 3 => Row3();
    case 4 => Row4();
    case 5 => Row5();
    case 6 => Row6();
    case 7 => Row7();
    case 8 => Row8();
    case 9 => Row9();
    case 10 => Row10();
    case 11 => Row11();
    case 12 => Row12();
    case 13 => Row13();
    case 14 => Row14();
    case 15 => Row15();
    case 16 => Row16();
  }

  /** Every name of the table spells an assignment of its function. */
  lemma {:induction false} LibraryNames(k: nat, ty: string)
    requires k < ROWS
    ensures Name(LibExp(Table(k), ty)) == Table(k).prefix + "_" + ty
  {
    TableSpells(k);
    if Table(k).source.TBin? { LongName(Table(k), ty); } else { ShortName(Table(k), ty); }
  }

  /** The operand that an argument is for. */
  ghost predicate IsArg(t: Term, e: Exp, args: seq<Exp>) {
    !t.TBin? && t.k < |args| && args[t.k] == e && if t.TArr? then e.Slice? else e.Other?
  }

  ghost predicate AreArgs(t: Term, e: Exp, args: seq<Exp>) {
    if t.TBin? then e.Bin? && e.op == t.op && IsArg(t.t1, e.e1, args) && IsArg(t.t2, e.e2, args)
    else IsArg(t, e, args)
  }

  /** Operands of the type of the elements. */
  predicate AllOf(e: Exp, ty: string) {
    match e
    case Other(_, t) => t == ty
    case Slice(_, t) => t == ty
    case Bin(_, e1, e2) => AllOf(e1, ty) && AllOf(e2, ty)
    case _ => false
  }

  lemma {:induction false} SourceArgs(l: Lib, ty: string, e: Exp)
    requires Valid(e) && Simple(l) && ShapeOf(e) == ShapeOf(LibExp(l, ty)) && Spells(l)
    ensures e.Assign? == l.op.None? && (l.op.Some? ==> e.op == l.op.value)
    ensures ShapeOf(e.e2) == ShapeOf(TermExp(l.source, ty))
    ensures Leaves(e) == Leaves(e.e2) + [Dest(e)]
  {
    DestinationLeaf(e);
  }

  lemma {:induction false} ArgumentsOf(l: Lib, ty: string, e: Exp)
    requires Valid(e) && Simple(l) && ShapeOf(e) == ShapeOf(LibExp(l, ty)) && Spells(l)
    ensures AreArgs(l.source, e.e2, Reverse(Leaves(e))) && Reverse(Leaves(e))[0] == Dest(e)
  {
    SourceArgs(l, ty, e);
    var leaves := Leaves(e);
    if l.source.TBin? {
      NoCast(e.e2, Dest(e).ty);
      assert Leaves(e.e2.e1) == [e.e2.e1] && Leaves(e.e2.e2) == [e.e2.e2];
      assert leaves == [e.e2.e1, e.e2.e2, Dest(e)];
      ReverseAt(leaves, 2);
      ReverseAt(leaves, 1);
      ReverseAt(leaves, 0);
    } else {
      NoCast(e.e2, Dest(e).ty);
      assert leaves == [e.e2, Dest(e)];
      ReverseAt(leaves, 1);
      ReverseAt(leaves, 0);
    }
  }

  /** Typed operands are no casts. */
  lemma {:induction false} NoCast(e: Exp, ty: string)
    requires IsArray(e, ty) || IsScalar(e, ty)
    ensures !e.ArrayCast? && (e.Bin? ==> !e.e1.ArrayCast? && !e.e2.ArrayCast?)
  {
    if e.Bin? && IsScalar(e, ty) {
      var t1, t2 :| HasType(e.op, t1, t2, ty) && IsScalar(e.e1, t1) && IsScalar(e.e2, t2);
    }
  }

  /** The operands of an assignment that the library does have the type of its elements. */
  lemma {:induction false} SourceTyped(l: Lib, e: Exp, args: seq<Exp>)
    requires Valid(e) && Simple(l) && AreArgs(l.source, e.e2, args) && Spells(l)
    requires l.source.TBin? ==> l.source.t1.TArr? || l.source.t2.TArr?
    ensures AllOf(e.e2, Dest(e).ty)
  {
    if l.source.TBin? {
      var ty := Dest(e).ty;
      if IsScalar(e.e2, ty) {
        var t1, t2 :| HasType(e.e2.op, t1, t2, ty) && IsScalar(e.e2.e1, t1) && IsScalar(e.e2.e2, t2);
        assert false;
      }
      assert IsArray(e.e2, ty);
      OperandTyped(e.e2.e1, ty);
      OperandTyped(e.e2.e2, ty);
    }
  }

  lemma {:induction false} OperandTyped(e: Exp, ty: string)
    requires (e.Slice? || e.Other?) && (IsArray(e, ty) || IsScalar(e, ty))
    ensures AllOf(e, ty)
  {}

  lemma {:induction false} LibValueIs(t: Term, e: Exp, ty: string, args: seq<Exp>, i: nat, m: Mem, sem: Sem)
    requires AreArgs(t, e, args) && AllOf(e, ty)
    ensures Pure(e) && LibValue(t, ty, args, i, m, sem) == Value(e, i, m, sem)
  {
    if t.TBin? {
      LibOperandIs(t.t1, e.e1, ty, args, i, m, sem);
      LibOperandIs(t.t2, e.e2, ty, args, i, m, sem);
    } else {
      LibOperandIs(t, e, ty, args, i, m, sem);
    }
  }

  lemma {:induction false} LibOperandIs(t: Term, e: Exp, ty: string, args: seq<Exp>, i: nat, m: Mem, sem: Sem)
    requires IsArg(t, e, args) && AllOf(e, ty)
    ensures Pure(e) && LibValue(t, ty, args, i, m, sem) == Value(e, i, m, sem)
  {}

  lemma {:induction false} LibAllIs(l: Lib, e: Exp, ty: string, args: seq<Exp>, n: nat, m: Mem, sem: Sem)
    requires Valid(e) && AreArgs(l.source, e.e2, args) && AllOf(e.e2, ty) && Dest(e).ty == ty
    requires args != [] && args[0] == Dest(e) && e.Assign? == l.op.None? && (l.op.Some? ==> e.op == l.op.value)
    ensures LibAll(l, ty, args, n, m, sem) == RunAll(e, n, m, sem)
  {
    if n > 0 {
      LibAllIs(l, e, ty, args, n - 1, m, sem);
      LibValueIs(l.source, e.e2, ty, args, n - 1, RunAll(e, n - 1, m, sem), sem);
    }
  }

  lemma {:induction false} WrongElements(l: Lib, e: Exp, ty: string, args: seq<Exp>)
    requires Valid(e) && args != [] && args[0] == Dest(e) && Dest(e).ty != ty
    ensures !LibCalls(l, ty, args, e, 1, map[], Telling())
  {
    var m: Mem := map[];
    RunOnce(e, m, Telling());
    assert LibAll(l, ty, args, 0, m, Telling()) == m;
    assert LibAll(l, ty, args, 1, m, Telling()) == m;
    assert (Dest(e).id, 0) in Run(e, 0, m, Telling());
  }

  /** An assignment whose name is in the table is written like the one that the function does. */
  lemma {:induction false} FoundByName(l: Lib, e: Exp)
    requires Valid(e) && IsLib(l, Name(e))
    requires var ty := [Name(e)[|Name(e)| - 1]]; Name(LibExp(l, ty)) == l.prefix + "_" + ty
    ensures ShapeOf(e) == ShapeOf(LibExp(l, Ty(e)))
    ensures Ty(e) == Dest(e).ty && LibType(Name(e)) == if Ty(e) == "r" then "e" else Ty(e)
  {
    var ty := [Name(e)[|Name(e)| - 1]];
    NamesDetermineShapes(e, LibExp(l, ty));
    assert Ty(Slice(0, ty)) == ty;
    assert Ty(LibExp(l, ty)) == ty;
    DestinationLeaf(e);
    assert ty == "r" <==> ty[0] == 'r';
  }

  lemma {:induction false} ServesTyped(l: Lib, e: Exp, ty: string, args: seq<Exp>)
    requires Valid(e) && AreArgs(l.source, e.e2, args) && AllOf(e.e2, Dest(e).ty)
    requires args != [] && args[0] == Dest(e) && e.Assign? == l.op.None? && (l.op.Some? ==> e.op == l.op.value)
    requires ty == if Dest(e).ty == "r" then "e" else Dest(e).ty
    ensures LibComputes(l, ty, args, e) <==> Dest(e).ty != "r"
  {
    if Dest(e).ty != "r" {
      forall n: nat, m: Mem, sem: Sem ensures LibCalls(l, ty, args, e, n, m, sem) {
        LibAllIs(l, e, ty, args, n, m, sem);
      }
    } else {
      WrongElements(l, e, ty, args);
    }
  }

  /** A function of the library that is found by the name of an assignment does it, for every length,
    memory and arithmetic, if and only if the elements are not cdouble. */
  lemma {:induction false} LibraryServes(k: nat, e: Exp)
    requires k < ROWS && Valid(e) && IsLib(Table(k), Name(e))
    ensures LibComputes(Table(k), LibType(Name(e)), Reverse(Leaves(e)), e) <==> Ty(e) != "r"
  {
    TableSpells(k);
    LibraryNames(k, [Name(e)[|Name(e)| - 1]]);
    FoundByName(Table(k), e);
    SourceArgs(Table(k), Ty(e), e);
    ArgumentsOf(Table(k), Ty(e), e);
    SourceTyped(Table(k), e, Reverse(Leaves(e)));
    ServesTyped(Table(k), e, LibType(Name(e)), Reverse(Leaves(e)));
  }

  // ----- the cache of functions -----

  method BuildName(e: Exp) returns (name: string, arguments: seq<Exp>)
    ensures name == Name(e) && arguments == Reverse(Leaves(e))
  {
    var args := new Array<Exp>();
    var buf := new OutBuffer();
    buf.WriteString("_array");
    assert buf.data == "_array";
    BuildArrayIdent(e, buf, args);
    buf.WriteString("_");
    buf.WriteString(Ty(e));
    name, arguments := buf.data, args.data;
  }

  method Generate(e: Exp) returns (fd: Func)
    ensures fd == FuncOf(e)
  {
    var fparams := new Array<Param>();
    var loopbody := BuildArrayLoop(e, fparams);
    fd := Generated(fparams.data, loopbody);
  }

  class Compiler {
    var arrayfuncs: map<string, Func>

    constructor ()
      ensures ValidCache()
    {
      arrayfuncs := map[];
    }

    /** Functions of the library are known by name; the others were made from an expression. */
    ghost predicate Serves(name: string, f: Func) {
      if InLibrary(name) then f == Library(name)
      else exists e :: Valid(e) && Name(e) == name && f == FuncOf(e)
    }

    ghost predicate ValidCache()
      reads this
    {
      forall name :: name in arrayfuncs ==> Serves(name, arrayfuncs[name])
    }

    /** The call for an assignment. If the library has the function, this runs the assignment if and
      only if the elements are not cdouble. Otherwise calling the one that is in the cache, or is
      put there, runs it if and only if its parameters fit; a new one fits, and with elements that
      are no floating numbers all do. */
    method ArrayOp(e: Exp) returns (fd: Func, arguments: seq<Exp>)
      requires ValidCache() && Valid(e)
      modifies this`arrayfuncs
      ensures ValidCache()
      ensures arrayfuncs == old(arrayfuncs)[Name(e) := fd]
      ensures Name(e) in old(arrayfuncs) ==> fd == old(arrayfuncs)[Name(e)]
      ensures InLibrary(Name(e)) ==> fd == Library(Name(e)) && LibraryDoes(Name(e), arguments, e)
      ensures !InLibrary(Name(e)) ==>
        && fd.Generated? && |fd.params| == |arguments|
        && (Computes(fd, arguments, e) <==> Fits(fd.params, arguments))
        && (Name(e) !in old(arrayfuncs) || !Floating(Ty(e)) ==> Fits(fd.params, arguments))
    {
      var name;
      name, arguments := BuildName(e);
      if name in arrayfuncs {
        fd := arrayfuncs[name];
        assert Serves(name, fd);
      } else {
        if InLibrary(name) {
          fd := Library(name);
        } else {
          fd := Generate(e);
          FitsExactly(e, e);
        }
        assert Serves(name, fd);
        arrayfuncs := arrayfuncs[name := fd];
      }
      if InLibrary(name) { ForLibrary(e); } else { ForComputes(fd, e); }
    }

    /** What functions with that name do. */
    ghost predicate LibraryDoes(name: string, arguments: seq<Exp>, e: Exp)
      requires Valid(e)
    {
      forall k: nat | k < ROWS && IsLib(Table(k), name) ::
        LibComputes(Table(k), LibType(name), arguments, e) <==> Ty(e) != "r"
    }

    lemma {:induction false} ForLibrary(e: Exp)
      requires Valid(e)
      ensures LibraryDoes(Name(e), Reverse(Leaves(e)), e)
    {
      forall k: nat | k < ROWS && IsLib(Table(k), Name(e))
        ensures LibComputes(Table(k), LibType(Name(e)), Reverse(Leaves(e)), e) <==> Ty(e) != "r"
      {
        LibraryServes(k, e);
      }
    }

    lemma {:induction false} ForComputes(fd: Func, e: Exp)
      requires Valid(e) && !InLibrary(Name(e)) && Serves(Name(e), fd)
      ensures fd.Generated? && |fd.params| == |Leaves(e)|
      ensures Computes(fd, Reverse(Leaves(e)), e) <==> Fits(fd.params, Reverse(Leaves(e)))
      ensures !Floating(Ty(e)) ==> Fits(fd.params, Reverse(Leaves(e)))
    {
      var e0 :| Valid(e0) && Name(e0) == Name(e) && fd == FuncOf(e0);
      NamesDetermineShapes(e0, e);
      ShapesAlign(e0, e);
      ServesExactly(e0, e);
      FitsExactly(e0, e);
      if !Floating(Ty(e)) { NamesDetermineTypes(e0, e); }
    }
  }
}
