/** Repair of documentation text: unpaired parentheses and dollars become macros, and the
  finished file gets uniform newlines. Text is a string of bytes. */
module Ddoc {
  const LPAREN := "$(LPAREN)"
  const RPAREN := "$(RPAREN)"
  const DOLLAR := "$(DOLLAR)"

  // ----- pairs of parentheses -----

  /** The number of `(` less the number of `)` in the first `n` bytes. */
  function Depth(t: string, n: nat): int
    requires n <= |t|
  {
    if n == 0 then 0
    else Depth(t, n - 1) + if t[n - 1] == '(' then 1 else if t[n - 1] == ')' then -1 else 0
  }

  ghost predicate Balanced(t: string) {
    Depth(t, |t|) == 0 && forall k :: 0 <= k <= |t| ==> Depth(t, k) >= 0
  }

  /** The parentheses at `i` and `j` belong together: what is between them is balanced. */
  ghost predicate Pairs(t: string, i: int, j: int) {
    0 <= i < j < |t| && t[i] == '(' && t[j] == ')' && Balanced(t[i + 1..j])
  }

  /** A parenthesis that belongs to no other. */
  ghost predicate Stray(t: string, i: nat)
    requires i < |t|
  {
    || (t[i] == '(' && !exists j :: Pairs(t, i, j))
    || (t[i] == ')' && !exists j :: Pairs(t, j, i))
  }

  /** What becomes of the text from `n` on when exactly the stray parentheses are replaced. */
  ghost function Repaired(t: string, n: nat): string
    requires n <= |t|
    decreases |t| - n
  {
    if n == |t| then []
    else (if !Stray(t, n) then [t[n]] else if t[n] == '(' then LPAREN else RPAREN) + Repaired(t, n + 1)
  }

  lemma {:induction false} DepthOfPrefix(a: string, b: string, n: nat)
    requires n <= |a|
    ensures Depth(a + b, n) == Depth(a, n)
  {
    if n > 0 { DepthOfPrefix(a, b, n - 1); }
  }

  lemma {:induction false} DepthOfSuffix(a: string, b: string, n: nat)
    requires n <= |b|
    ensures Depth(a + b, |a| + n) == Depth(a, |a|) + Depth(b, n)
  {
    if n > 0 { DepthOfSuffix(a, b, n - 1); } else { DepthOfPrefix(a, b, |a|); }
  }

  lemma {:induction false} DepthWithin(t: string, i: nat, j: nat, n: nat)
    requires i <= n <= j <= |t|
    ensures Depth(t[i..j], n - i) == Depth(t, n) - Depth(t, i)
  {
    assert t == t[..i] + (t[i..j] + t[j..]);
    DepthOfSuffix(t[..i], t[i..j] + t[j..], n - i);
    DepthOfPrefix(t[i..j], t[j..], n - i);
    DepthOfPrefix(t[..i], t[i..], i);
    assert t[..i] + t[i..] == t;
  }

  /** The depth returns to that before `i` with `j`, and not before. */
  ghost predicate Returns(t: string, i: int, j: int) {
    && 0 <= i < j < |t| && t[i] == '(' && t[j] == ')'
    && Depth(t, j + 1) == Depth(t, i) && forall k :: i < k <= j ==> Depth(t, k) > Depth(t, i)
  }

  lemma {:induction false} PairsByDepth(t: string, i: int, j: int)
    ensures Pairs(t, i, j) <==> Returns(t, i, j)
  {
    if 0 <= i < j < |t| && t[i] == '(' && t[j] == ')' {
      var s := t[i + 1..j];
      DepthWithin(t, i + 1, j, j);
      assert |s| == j - i - 1 && Depth(s, |s|) == Depth(t, j) - Depth(t, i) - 1;
      assert Depth(t, j + 1) == Depth(t, j) - 1;
      forall k | i < k <= j && Balanced(s)
        ensures Depth(t, k) > Depth(t, i)
      {
        DepthWithin(t, i + 1, j, k);
        assert Depth(s, k - i - 1) >= 0;
      }
      forall k | 0 <= k <= |s| && Returns(t, i, j)
        ensures Depth(s, k) >= 0
      {
        DepthWithin(t, i + 1, j, k + i + 1);
        assert Depth(t, k + i + 1) > Depth(t, i);
      }
    }
  }

  // ----- the counters of the two passes -----

  /** The number of `(` in the first `n` bytes that have not been closed. */
  function Opens(t: string, n: nat): nat
    requires n <= |t|
  {
    if n == 0 then 0
    else
      var opens := Opens(t, n - 1);
      if t[n - 1] == '(' then opens + 1 else if t[n - 1] == ')' && opens > 0 then opens - 1 else opens
  }

  /** The number of `)` in the text that have not been opened. */
  function Closes(s: string): nat {
    if s == [] then 0
    else
      var closes := Closes(s[1..]);
      if s[0] == ')' then closes + 1 else if s[0] == '(' && closes > 0 then closes - 1 else closes
  }

  lemma {:induction false} OpensIsRise(t: string, n: nat) returns (low: nat)
    requires n <= |t|
    ensures low <= n && Opens(t, n) == Depth(t, n) - Depth(t, low)
    ensures forall k :: 0 <= k <= n ==> Depth(t, k) >= Depth(t, low)
  {
    if n == 0 {
      low := 0;
    } else {
      low := OpensIsRise(t, n - 1);
      if Depth(t, n) < Depth(t, low) { low := n; }
    }
  }

  lemma {:induction false} ClosesIsFall(t: string, n: nat) returns (low: nat)
    requires n <= |t|
    ensures n <= low <= |t| && Closes(t[n..]) == Depth(t, n) - Depth(t, low)
    ensures forall k :: n <= k <= |t| ==> Depth(t, k) >= Depth(t, low)
    decreases |t| - n
  {
    if n == |t| {
      low := n;
    } else {
      low := ClosesIsFall(t, n + 1);
      assert t[n..][1..] == t[n + 1..];
      if Depth(t, n) < Depth(t, low) { low := n; }
    }
  }

  /** Where the depth last rose to what it is before `n`. */
  lemma {:induction false} LastRise(t: string, k: nat, m: nat, n: nat) returns (j: nat)
    requires k < m <= n <= |t| && Depth(t, k) < Depth(t, n)
    requires forall l :: m <= l <= n ==> Depth(t, l) >= Depth(t, n)
    ensures j < n && t[j] == '(' && Depth(t, j) == Depth(t, n) - 1
    ensures forall l :: j < l <= n ==> Depth(t, l) >= Depth(t, n)
  {
    if Depth(t, m - 1) >= Depth(t, n) {
      j := LastRise(t, k, m - 1, n);
    } else {
      j := m - 1;
      assert Depth(t, m) >= Depth(t, n) && Depth(t, m) <= Depth(t, m - 1) + 1;
    }
  }

  /** Where the depth first falls below what it is before `n`. */
  lemma {:induction false} FirstFall(t: string, n: nat, m: nat, k: nat) returns (j: nat)
    requires n <= m < k <= |t| && Depth(t, k) < Depth(t, n)
    requires forall l :: n <= l <= m ==> Depth(t, l) >= Depth(t, n)
    ensures n <= j < |t| && t[j] == ')' && Depth(t, j + 1) == Depth(t, n) - 1
    ensures forall l :: n <= l <= j ==> Depth(t, l) >= Depth(t, n)
    decreases k - m
  {
    if Depth(t, m + 1) >= Depth(t, n) {
      j := FirstFall(t, n, m + 1, k);
    } else {
      j := m;
    }
  }

  lemma {:induction false} PairCounts(t: string, i: int, j: int)
    requires Pairs(t, i, j)
    ensures Opens(t, j) > 0 && Closes(t[i + 1..]) > 0
  {
    PairsByDepth(t, i, j);
    var low := OpensIsRise(t, j);
    assert Depth(t, i) >= Depth(t, low);
    var low' := ClosesIsFall(t, i + 1);
    assert Depth(t, j + 1) >= Depth(t, low');
  }

  lemma {:induction false} StrayClose(t: string, n: nat)
    requires n < |t| && t[n] == ')'
    ensures Stray(t, n) <==> Opens(t, n) == 0
  {
    forall j | Pairs(t, j, n)
      ensures Opens(t, n) > 0
    {
      PairCounts(t, j, n);
    }
    if Opens(t, n) > 0 {
      var low := OpensIsRise(t, n);
      var j := LastRise(t, low, n, n);
      PairsByDepth(t, j, n);
      assert Pairs(t, j, n);
    }
  }

  lemma {:induction false} StrayOpen(t: string, n: nat)
    requires n < |t| && t[n] == '('
    ensures Stray(t, n) <==> Closes(t[n + 1..]) == 0
  {
    forall j | Pairs(t, n, j)
      ensures Closes(t[n + 1..]) > 0
    {
      PairCounts(t, n, j);
    }
    if Closes(t[n + 1..]) > 0 {
      var low := ClosesIsFall(t, n + 1);
      var j := FirstFall(t, n + 1, n + 1, low);
      PairsByDepth(t, n, j);
      assert Pairs(t, n, j);
    }
  }

  // ----- the passes -----

  /** The first pass, from `n` on: stray `)` are replaced. */
  function FirstPass(t: string, n: nat): string
    requires n <= |t|
    decreases |t| - n
  {
    if n == |t| then []
    else (if t[n] == ')' && Opens(t, n) == 0 then RPAREN else [t[n]]) + FirstPass(t, n + 1)
  }

  /** The second pass: stray `(` are replaced. */
  function SecondPass(s: string): string {
    if s == [] then []
    else (if s[0] == '(' && Closes(s[1..]) == 0 then LPAREN else [s[0]]) + SecondPass(s[1..])
  }

  lemma {:induction false} SecondPassFirst(c: char, s: string)
    ensures SecondPass([c] + s) == (if c == '(' && Closes(s) == 0 then LPAREN else [c]) + SecondPass(s)
    ensures Closes([c] + s) ==
      if c == ')' then Closes(s) + 1 else if c == '(' && Closes(s) > 0 then Closes(s) - 1 else Closes(s)
  {
    assert ([c] + s)[1..] == s;
  }

  /** The second pass leaves words without parentheses alone. */
  lemma {:induction false} SecondPassSkips(w: string, s: string)
    requires '(' !in w && ')' !in w
    ensures SecondPass(w + s) == w + SecondPass(s) && Closes(w + s) == Closes(s)
  {
    if w == [] {
      assert w + s == s;
    } else {
      SecondPassSkips(w[1..], s);
      SecondPassFirst(w[0], w[1..] + s);
      assert w + s == [w[0]] + (w[1..] + s);
    }
  }

  /** It leaves the macros of the first pass alone. */
  lemma {:induction false} SecondPassSkipsMacro(s: string)
    ensures SecondPass(RPAREN + s) == RPAREN + SecondPass(s) && Closes(RPAREN + s) == Closes(s)
  {
    var w, s1 := "RPAREN", [')'] + s;
    SecondPassFirst(')', s);
    SecondPassSkips(w, s1);
    MacroStart(w + s1);
    MacroParts(s, w);
    MacroParts(SecondPass(s), w);
  }

  lemma {:induction false} MacroParts(s: string, w: string)
    requires w == "RPAREN"
    ensures RPAREN + s == "$(" + (w + ([')'] + s))
  {
    assert RPAREN == "$(" + w + ")";
  }

  lemma {:induction false} MacroStart(s: string)
    requires Closes(s) > 0
    ensures SecondPass("$(" + s) == "$(" + SecondPass(s) && Closes("$(" + s) == Closes(s) - 1
  {
    SecondPassFirst('(', s);
    SecondPassFirst('$', ['('] + s);
    assert "$(" + s == ['$'] + (['('] + s);
  }

  /** The number of pairs around the place before byte `n`. */
  function Around(t: string, n: nat): nat
    requires n <= |t|
  {
    if Opens(t, n) <= Closes(t[n..]) then Opens(t, n) else Closes(t[n..])
  }

  /** The passes together replace exactly the stray parentheses. */
  lemma {:induction false} PassesRepair(t: string, n: nat)
    requires n <= |t|
    ensures SecondPass(FirstPass(t, n)) == Repaired(t, n)
    ensures Closes(FirstPass(t, n)) == Around(t, n)
    decreases |t| - n
  {
    if n < |t| {
      PassesRepair(t, n + 1);
      assert t[n..][1..] == t[n + 1..];
      var s := FirstPass(t, n + 1);
      if t[n] == ')' {
        StrayClose(t, n);
        if Opens(t, n) == 0 { SecondPassSkipsMacro(s); } else { SecondPassFirst(t[n], s); }
      } else {
        if t[n] == '(' { StrayOpen(t, n); }
        SecondPassFirst(t[n], s);
      }
    }
  }

  class OutBuffer {
    var data: string

    constructor (text: string)
      ensures data == text
    {
      data := text;
    }

    method Remove(u: nat, n: nat)
      requires u + n <= |data|
      modifies this
      ensures data == old(data[..u] + data[u + n..])
    {
      data := data[..u] + data[u + n..];
    }

    method Insert(u: nat, p: string)
      requires u <= |data|
      modifies this
      ensures data == old(data[..u]) + p + old(data[u..])
    {
      data := data[..u] + p + data[u..];
    }

    /** Replace the byte at `u` by a macro. */
    method Replace(u: nat, p: string)
      requires u < |data|
      modifies this
      ensures data == old(data[..u]) + p + old(data[u + 1..])
    {
      Remove(u, 1);
      Insert(u, p);
    }

    method EscapeStrayParenthesis(start: nat)
      requires start <= |data|
      modifies this
      ensures data == old(data[..start]) + Repaired(old(data[start..]), 0)
    {
      ghost var prefix, t := data[..start], data[start..];
      var parOpen := ReplaceStrayCloses(start);
      ghost var s := FirstPass(t, 0);
      PassesRepair(t, 0);
      if parOpen != 0 {
        ReplaceStrayOpens(start, prefix, s);
      } else {
        NoStrayOpens(t, 0);
      }
    }

    method ReplaceStrayCloses(start: nat) returns (parOpen: nat)
      requires start <= |data|
      modifies this
      ensures data == old(data[..start]) + FirstPass(old(data[start..]), 0)
      ensures parOpen == Opens(old(data[start..]), old(|data| - start))
    {
      ghost var prefix, t := data[..start], data[start..];
      ghost var done, n := prefix, 0;
      parOpen := 0;
      var u := start;
      while u < |data|
        invariant 0 <= n <= |t| && u == |done|
        invariant data == done + t[n..]
        invariant done + FirstPass(t, n) == prefix + FirstPass(t, 0)
        invariant parOpen == Opens(t, n)
        decreases |t| - n
      {
        var c := data[u];
        ghost var block := if c == ')' && parOpen == 0 then RPAREN else [c];
        Advance(done, t, n, block);
        FirstPassStep(done, t, n);
        if c == '(' {
          parOpen := parOpen + 1;
        } else if c == ')' {
          if parOpen == 0 {
            Replace(u, RPAREN);
            u := u + 8;
          } else {
            parOpen := parOpen - 1;
          }
        }
        u := u + 1;
        done, n := done + block, n + 1;
      }
    }

    method ReplaceStrayOpens(start: nat, ghost prefix: string, ghost s: string)
      requires start == |prefix| && data == prefix + s
      modifies this
      ensures data == prefix + SecondPass(s)
    {
      var parOpen := 0;
      ghost var n := |s|;
      var u := |data|;
      while u > start
        invariant u == start + n && 0 <= n <= |s|
        invariant data == prefix + s[..n] + SecondPass(s[n..])
        invariant parOpen == Closes(s[n..])
      {
        Retreat(prefix, s, n, SecondPass(s[n..]));
        SecondPassStep(s, n);
        u, n := u - 1, n - 1;
        var c := data[u];
        if c == ')' {
          parOpen := parOpen + 1;
        } else if c == '(' {
          if parOpen == 0 {
            Replace(u, LPAREN);
          } else {
            parOpen := parOpen - 1;
          }
        }
      }
    }

    /** Replace every dollar and parenthesis. */
    method EscapeDdocString(start: nat)
      requires start <= |data|
      modifies this
      ensures data == old(data[..start]) + Escaped(old(data[start..]))
    {
      ghost var prefix, t := data[..start], data[start..];
      ghost var done, n := prefix, 0;
      var u := start;
      while u < |data|
        invariant 0 <= n <= |t| && u == |done|
        invariant data == done + t[n..]
        invariant done + Escaped(t[n..]) == prefix + Escaped(t)
        decreases |t| - n
      {
        var c := data[u];
        Advance(done, t, n, EscapeOf(c));
        EscapedStep(done, t, n);
        if c == '$' {
          Replace(u, DOLLAR);
          u := u + 8;
        } else if c == '(' {
          Replace(u, LPAREN);
          u := u + 8;
        } else if c == ')' {
          Replace(u, RPAREN);
          u := u + 8;
        }
        u := u + 1;
        done, n := done + EscapeOf(c), n + 1;
      }
    }
  }

  function EscapeOf(c: char): string {
    if c == '$' then DOLLAR else if c == '(' then LPAREN else if c == ')' then RPAREN else [c]
  }

  function Escaped(t: string): string {
    if t == [] then [] else EscapeOf(t[0]) + Escaped(t[1..])
  }

  lemma {:induction false} EscapedStep(done: string, t: string, n: nat)
    requires n < |t|
    ensures done + EscapeOf(t[n]) + Escaped(t[n + 1..]) == done + Escaped(t[n..])
  {
    assert t[n..][1..] == t[n + 1..];
  }

  /** The buffer `done + t[n..]` before and after byte `n` is handled. */
  lemma {:induction false} Advance(done: string, t: string, n: nat, block: string)
    requires n < |t|
    ensures (done + t[n..])[|done|] == t[n]
    ensures (done + t[n..])[..|done|] + block + (done + t[n..])[|done| + 1..] == done + block + t[n + 1..]
    ensures done + t[n..] == done + [t[n]] + t[n + 1..]
  {}

  lemma {:induction false} Retreat(prefix: string, s: string, n: nat, done: string)
    requires 0 < n <= |s|
    ensures
      var c, u, data := s[n - 1], |prefix| + n - 1, prefix + s[..n] + done;
      && data[u] == c
      && data == prefix + s[..n - 1] + ([c] + done)
      && data[..u] + LPAREN + data[u + 1..] == prefix + s[..n - 1] + (LPAREN + done)
  {
    assert s[..n] == s[..n - 1] + [s[n - 1]];
  }

  lemma {:induction false} SecondPassStep(s: string, n: nat)
    requires 0 < n <= |s|
    ensures
      var c, closes := s[n - 1], Closes(s[n..]);
      && SecondPass(s[n - 1..]) == (if c == '(' && closes == 0 then LPAREN else [c]) + SecondPass(s[n..])
      && Closes(s[n - 1..]) ==
           if c == ')' then closes + 1 else if c == '(' && closes > 0 then closes - 1 else closes
  {
    SecondPassFirst(s[n - 1], s[n..]);
    assert s[n - 1..] == [s[n - 1]] + s[n..];
  }

  lemma {:induction false} FirstPassStep(done: string, t: string, n: nat)
    requires n < |t|
    ensures
      var block := if t[n] == ')' && Opens(t, n) == 0 then RPAREN else [t[n]];
      done + block + FirstPass(t, n + 1) == done + FirstPass(t, n)
  {}

  /** When the first pass ends with nothing open, there is nothing left to replace. */
  lemma {:induction false} NoStrayOpens(t: string, n: nat)
    requires n <= |t| && Opens(t, |t|) == 0
    ensures SecondPass(FirstPass(t, n)) == FirstPass(t, n)
    decreases |t| - n
  {
    if n < |t| {
      NoStrayOpens(t, n + 1);
      PassesRepair(t, n + 1);
      var s := FirstPass(t, n + 1);
      if t[n] == '(' { AllClosed(t, n); }
      if t[n] == ')' && Opens(t, n) == 0 { SecondPassSkipsMacro(s); } else { SecondPassFirst(t[n], s); }
    }
  }

  lemma {:induction false} AllClosed(t: string, n: nat)
    requires n < |t| && t[n] == '(' && Opens(t, |t|) == 0
    ensures Closes(t[n + 1..]) > 0
  {
    var low := OpensIsRise(t, |t|);
    assert Depth(t, n) >= Depth(t, |t|);
    var low' := ClosesIsFall(t, n + 1);
    assert Depth(t, |t|) >= Depth(t, low');
  }

  // ----- the repaired text -----

  lemma {:induction false} WordDepth(w: string, k: nat)
    requires '(' !in w && ')' !in w && k <= |w|
    ensures Depth(w, k) == 0
  {
    if k > 0 { WordDepth(w, k - 1); }
  }

  /** Reading `s` from depth `d` never goes below zero and ends at zero. */
  ghost predicate Lands(s: string, d: int) {
    d + Depth(s, |s|) == 0 && forall k :: 0 <= k <= |s| ==> d + Depth(s, k) >= 0
  }

  lemma {:induction false} LandsConcat(b: string, s: string, d: int, d': int)
    requires d' == d + Depth(b, |b|) && Lands(s, d')
    requires forall k :: 0 <= k <= |b| ==> d + Depth(b, k) >= 0
    ensures Lands(b + s, d)
  {
    forall k | 0 <= k <= |b + s|
      ensures d + Depth(b + s, k) >= 0
    {
      if k <= |b| { DepthOfPrefix(b, s, k); } else { DepthOfSuffix(b, s, k - |b|); }
    }
    DepthOfSuffix(b, s, |s|);
  }

  lemma {:induction false} MacroDepth(m: string, w: string, k: nat)
    requires m == "$(" + w + ")" && '(' !in w && ')' !in w && k <= |m|
    ensures Depth(m, k) >= 0 && (k == |m| ==> Depth(m, k) == 0)
  {
    assert Depth("$(", 0) == 0 && Depth("$(", 1) == 0 && Depth("$(", 2) == 1;
    if k <= 2 {
      DepthOfPrefix("$(", w + ")", k);
      assert m == "$(" + (w + ")");
    } else if k < |m| {
      DepthOfPrefix("$(" + w, ")", k);
      DepthOfSuffix("$(", w, k - 2);
      WordDepth(w, k - 2);
    } else {
      DepthOfSuffix("$(" + w, ")", 1);
      DepthOfSuffix("$(", w, |w|);
      WordDepth(w, |w|);
    }
  }

  lemma {:induction false} StrayMacroDepth(c: char, k: nat)
    requires k <= 9
    ensures Depth(if c == '(' then LPAREN else RPAREN, k) >= 0
    ensures k == 9 ==> Depth(if c == '(' then LPAREN else RPAREN, k) == 0
  {
    if c == '(' { MacroDepth(LPAREN, "LPAREN", k); } else { MacroDepth(RPAREN, "RPAREN", k); }
  }

  lemma {:induction false} RepairedLands(t: string, n: nat)
    requires n <= |t|
    ensures Lands(Repaired(t, n), Around(t, n))
    decreases |t| - n
  {
    if n < |t| {
      RepairedLands(t, n + 1);
      assert t[n..][1..] == t[n + 1..];
      if t[n] == '(' { StrayOpen(t, n); } else if t[n] == ')' { StrayClose(t, n); }
      var block := if !Stray(t, n) then [t[n]] else if t[n] == '(' then LPAREN else RPAREN;
      forall k | 0 <= k <= |block|
        ensures Around(t, n) + Depth(block, k) >= 0
      {
        if Stray(t, n) { StrayMacroDepth(t[n], k); }
      }
      if Stray(t, n) { StrayMacroDepth(t[n], 9); }
      LandsConcat(block, Repaired(t, n + 1), Around(t, n), Around(t, n + 1));
    }
  }

  lemma {:induction false} BalancedHasNoStrays(t: string, n: nat)
    requires Balanced(t) && n < |t|
    ensures !Stray(t, n)
  {
    if t[n] == '(' {
      StrayOpen(t, n);
      var low := ClosesIsFall(t, n + 1);
      assert Depth(t, n) >= 0 && Depth(t, |t|) >= Depth(t, low);
    } else if t[n] == ')' {
      StrayClose(t, n);
      var low := OpensIsRise(t, n);
      assert Depth(t, n + 1) >= 0 && Depth(t, 0) >= Depth(t, low);
    }
  }

  /** Where nothing is stray, the text is copied. */
  lemma {:induction false} RepairedCopies(t: string, n: nat, m: nat)
    requires n <= m <= |t| && forall i :: n <= i < m ==> !Stray(t, i)
    ensures Repaired(t, n) == t[n..m] + Repaired(t, m)
    decreases m - n
  {
    if n < m {
      RepairedCopies(t, n + 1, m);
      CopyNext(t, n);
      FirstOfSlice(t, n, m, Repaired(t, m));
    }
  }

  lemma {:induction false} CopyNext(t: string, n: nat)
    requires n < |t| && !Stray(t, n)
    ensures Repaired(t, n) == [t[n]] + Repaired(t, n + 1)
  {}

  lemma {:induction false} FirstOfSlice(t: string, n: nat, m: nat, rest: string)
    requires n < m <= |t|
    ensures t[n..m] + rest == [t[n]] + (t[n + 1..m] + rest)
  {}

  /** The repaired text is balanced; a text changes just when it is not balanced, so a second
    repair changes nothing. */
  lemma {:induction false} RepairBalances(t: string)
    ensures Balanced(Repaired(t, 0))
    ensures Repaired(t, 0) == t <==> Balanced(t)
    ensures Repaired(Repaired(t, 0), 0) == Repaired(t, 0)
  {
    RepairedLands(t, 0);
    if Balanced(t) { CopiesBalanced(t); }
    CopiesBalanced(Repaired(t, 0));
  }

  lemma {:induction false} CopiesBalanced(t: string)
    requires Balanced(t)
    ensures Repaired(t, 0) == t
  {
    forall i | 0 <= i < |t|
      ensures !Stray(t, i)
    {
      BalancedHasNoStrays(t, i);
    }
    RepairedCopies(t, 0, |t|);
    assert t[0..|t|] == t;
  }

  // ----- what a reader sees -----

  predicate StartsMacro(s: string) {
    LPAREN <= s || RPAREN <= s || DOLLAR <= s
  }

  /** Expansion of the three macros. */
  function Expand(s: string): string {
    if s == [] then []
    else if LPAREN <= s then "(" + Expand(s[9..])
    else if RPAREN <= s then ")" + Expand(s[9..])
    else if DOLLAR <= s then "$" + Expand(s[9..])
    else [s[0]] + Expand(s[1..])
  }

  /** Words without dollars at the start of a repaired text were there before. */
  lemma {:induction false} WordWasThere(t: string, n: nat, w: string)
    requires n <= |t| && '$' !in w && w <= Repaired(t, n)
    ensures w <= t[n..]
    decreases |w|
  {
    if w != [] {
      assert w[0] == Repaired(t, n)[0] && w[0] in w;
      assert Repaired(t, n)[1..] == Repaired(t, n + 1);
      WordWasThere(t, n + 1, w[1..]);
      assert t[n..] == [t[n]] + t[n + 1..];
    }
  }

  lemma {:induction false} MacroWasThere(t: string, n: nat, w: string)
    requires n < |t| && !Stray(t, n) && '$' !in w && ['$'] + w <= Repaired(t, n)
    ensures ['$'] + w <= t[n..]
  {
    assert Repaired(t, n)[1..] == Repaired(t, n + 1);
    assert (['$'] + w)[1..] == w && w <= Repaired(t, n + 1);
    WordWasThere(t, n + 1, w);
    assert t[n..] == [t[n]] + t[n + 1..];
  }

  lemma {:induction false} MacroIsCopied(t: string, n: nat, w: string)
    requires n <= |t| && "$(" + w + ")" <= t[n..] && '(' !in w && ')' !in w
    ensures Repaired(t, n) == "$(" + w + ")" + Repaired(t, n + |w| + 3)
  {
    var m := "$(" + w + ")";
    var i, j := n + 1, n + 2 + |w|;
    assert t[n..][..|m|] == m;
    assert t[n..n + |m|] == m;
    assert t[n] == m[0] && t[i] == m[1] && t[j] == m[|w| + 2];
    assert t[i + 1..j] == m[2..|w| + 2] == w;
    forall k | 0 <= k <= |w|
      ensures Depth(w, k) == 0
    {
      WordDepth(w, k);
    }
    assert Pairs(t, i, j);
    forall k | i < k < j
      ensures t[k] in w
    {
      assert t[k] == t[i + 1..j][k - i - 1];
    }
    RepairedCopies(t, n, n + |m|);
  }

  /** Repair does not change what a reader sees. */
  lemma {:induction false} RepairKeepsText(t: string, n: nat)
    requires n <= |t|
    ensures Expand(Repaired(t, n)) == Expand(t[n..])
    decreases |t| - n
  {
    if n < |t| {
      var s := t[n..];
      if StartsMacro(s) {
        RepairKeepsText(t, n + 9);
        KnownMacro(t, n, Repaired(t, n + 9));
      } else {
        RepairKeepsText(t, n + 1);
        PlainByte(t, n, Repaired(t, n + 1));
      }
    }
  }

  function MacroText(w: string): string {
    if w == "LPAREN" then "(" else if w == "RPAREN" then ")" else "$"
  }

  lemma {:induction false} ExpandMacro(w: string, rest: string)
    requires w == "LPAREN" || w == "RPAREN" || w == "DOLLAR"
    ensures Expand("$(" + w + ")" + rest) == MacroText(w) + Expand(rest)
  {
    var s := "$(" + w + ")" + rest;
    assert s[9..] == rest && s[..9] == "$(" + w + ")" && s[2] == w[0];
    assert LPAREN[2] == 'L' && RPAREN[2] == 'R' && DOLLAR[2] == 'D';
    assert w == "LPAREN" ==> LPAREN == s[..9];
    assert w == "RPAREN" ==> RPAREN == s[..9];
    assert w == "DOLLAR" ==> DOLLAR == s[..9];
  }

  lemma {:induction false} MacroName(s: string) returns (w: string)
    requires StartsMacro(s)
    ensures w == "LPAREN" || w == "RPAREN" || w == "DOLLAR"
    ensures "$(" + w + ")" == LPAREN || "$(" + w + ")" == RPAREN || "$(" + w + ")" == DOLLAR
    ensures "$(" + w + ")" <= s && |w| == 6 && '(' !in w && ')' !in w && '$' !in w
  {
    w := if LPAREN <= s then "LPAREN" else if RPAREN <= s then "RPAREN" else "DOLLAR";
    var m := "$(" + w + ")";
    assert m == LPAREN || m == RPAREN || m == DOLLAR;
  }

  lemma {:induction false} KnownMacro(t: string, n: nat, rest: string)
    requires n + 9 <= |t| && StartsMacro(t[n..]) && rest == Repaired(t, n + 9)
    requires Expand(rest) == Expand(t[n + 9..])
    ensures Expand(Repaired(t, n)) == Expand(t[n..])
  {
    var w := MacroName(t[n..]);
    MacroIsCopied(t, n, w);
    ExpandMacro(w, rest);
    ExpandMacro(w, t[n + 9..]);
    assert t[n..] == t[n..][..9] + t[n + 9..];
    assert t[n..][..9] == "$(" + w + ")";
  }

  lemma {:induction false} PlainByte(t: string, n: nat, rest: string)
    requires n < |t| && !StartsMacro(t[n..]) && rest == Repaired(t, n + 1)
    requires Expand(rest) == Expand(t[n + 1..])
    ensures Expand(Repaired(t, n)) == Expand(t[n..])
  {
    assert t[n..][1..] == t[n + 1..];
    assert Expand(t[n..]) == [t[n]] + Expand(rest);
    if Stray(t, n) {
      var w := if t[n] == '(' then "LPAREN" else "RPAREN";
      assert LPAREN == "$(" + "LPAREN" + ")" && RPAREN == "$(" + "RPAREN" + ")";
      assert Repaired(t, n) == "$(" + w + ")" + rest;
      ExpandMacro(w, rest);
    } else {
      NoNewMacro(t, n);
      assert Repaired(t, n)[1..] == rest;
    }
  }

  lemma {:induction false} NoNewMacro(t: string, n: nat)
    requires n < |t| && !StartsMacro(t[n..]) && !Stray(t, n)
    ensures !StartsMacro(Repaired(t, n))
  {
    if StartsMacro(Repaired(t, n)) {
      var w := MacroName(Repaired(t, n));
      var rest := "(" + w + ")";
      assert ['$'] + rest == "$(" + w + ")";
      MacroWasThere(t, n, rest);
    }
  }

  /** Escaped text reads as the original, whatever that is. */
  lemma {:induction false} EscapeKeepsText(t: string)
    ensures Expand(Escaped(t)) == t
  {
    if t != [] {
      EscapeKeepsText(t[1..]);
      EscapeReads(t[0], Escaped(t[1..]));
      assert t == [t[0]] + t[1..];
    }
  }

  lemma {:induction false} EscapeReads(c: char, rest: string)
    ensures Expand(EscapeOf(c) + rest) == [c] + Expand(rest)
  {
    if c == '$' || c == '(' || c == ')' {
      var w := if c == '(' then "LPAREN" else if c == ')' then "RPAREN" else "DOLLAR";
      EscapeIsMacro(c, w);
      ExpandMacro(w, rest);
    } else {
      var s := EscapeOf(c) + rest;
      assert s[0] == c && s[1..] == rest;
    }
  }

  lemma {:induction false} EscapeIsMacro(c: char, w: string)
    requires c == '$' || c == '(' || c == ')'
    requires w == if c == '(' then "LPAREN" else if c == ')' then "RPAREN" else "DOLLAR"
    ensures EscapeOf(c) == "$(" + w + ")" && MacroText(w) == [c]
  {
    assert LPAREN == "$(" + "LPAREN" + ")" && RPAREN == "$(" + "RPAREN" + ")";
    assert DOLLAR == "$(" + "DOLLAR" + ")";
  }

  /** Its parentheses are balanced, whatever those of the original are. */
  lemma {:induction false} EscapeBalances(t: string)
    ensures Lands(Escaped(t), 0) && Balanced(Escaped(t))
  {
    if t != [] {
      EscapeBalances(t[1..]);
      var block := EscapeOf(t[0]);
      forall k | 0 <= k <= |block|
        ensures Depth(block, k) >= 0 && Depth(block, |block|) == 0
      {
        EscapeDepth(t[0], k);
        EscapeDepth(t[0], |block|);
      }
      LandsConcat(block, Escaped(t[1..]), 0, 0);
    }
  }

  lemma {:induction false} EscapeDepth(c: char, k: nat)
    requires k <= |EscapeOf(c)|
    ensures Depth(EscapeOf(c), k) >= 0 && (k == |EscapeOf(c)| ==> Depth(EscapeOf(c), k) == 0)
  {
    if c == '$' {
      MacroDepth(DOLLAR, "DOLLAR", k);
    } else if c == '(' {
      MacroDepth(LPAREN, "LPAREN", k);
    } else if c == ')' {
      MacroDepth(RPAREN, "RPAREN", k);
    } else {
      WordDepth([c], k);
    }
  }

  // ----- newlines -----

  /** The byte that hides the byte after it from the highlighter. */
  const ESCAPE: char := '\U{FF}'

  function Newline(p: string): nat
    requires p != [] && p[0] == '\r'
  {
    if |p| > 1 && p[1] == '\n' then 2 else 1
  }

  /** Escapes dropped, and `newline` for each of the three kinds of newline. */
  function Lines(p: string, newline: string): string {
    if p == [] then []
    else if p[0] == ESCAPE && |p| > 1 then Lines(p[2..], newline)
    else if p[0] == '\n' then newline + Lines(p[1..], newline)
    else if p[0] == '\r' then newline + Lines(p[Newline(p)..], newline)
    else [p[0]] + Lines(p[1..], newline)
  }

  method CleanUp(p: string) returns (buf: string)
    ensures buf == Lines(p, "\r\n")
  {
    buf := [];
    var j := 0;
    while j < |p|
      invariant 0 <= j <= |p|
      invariant buf + Lines(p[j..], "\r\n") == Lines(p, "\r\n")
    {
      var c := p[j];
      LinesFrom(p, j, "\r\n");
      if c == ESCAPE && j + 1 < |p| {
        j := j + 2;
        continue;
      }
      if c == '\n' {
        buf := buf + ['\r'];
      } else if c == '\r' {
        buf := buf + "\r\n";
        if j + 1 < |p| && p[j + 1] == '\n' {
          j := j + 1;
        }
        j := j + 1;
        continue;
      }
      buf := buf + [c];
      j := j + 1;
    }
  }

  lemma {:induction false} LinesFrom(p: string, j: nat, newline: string)
    requires j < |p|
    ensures
      var rest := Lines(p[j..], newline);
      if p[j] == ESCAPE && j + 1 < |p| then rest == Lines(p[j + 2..], newline)
      else if p[j] == '\n' then rest == newline + Lines(p[j + 1..], newline)
      else if p[j] == '\r' then
        rest == newline + Lines(p[if j + 1 < |p| && p[j + 1] == '\n' then j + 2 else j + 1..], newline)
      else rest == [p[j]] + Lines(p[j + 1..], newline)
  {
    var rest := p[j..];
    assert rest[1..] == p[j + 1..];
    if j + 1 < |p| { assert rest[1] == p[j + 1] && rest[2..] == p[j + 2..]; }
  }

  /** Returns and newlines come in pairs only, and only the last byte may be an escape. */
  ghost predicate Clean(s: string) {
    && (forall i :: 0 <= i < |s| && s[i] == '\r' ==> i + 1 < |s| && s[i + 1] == '\n')
    && (forall i :: 0 <= i < |s| && s[i] == '\n' ==> i > 0 && s[i - 1] == '\r')
    && (forall i :: 0 <= i < |s| && s[i] == ESCAPE ==> i == |s| - 1)
  }

  lemma {:induction false} LinesAreClean(p: string)
    ensures Clean(Lines(p, "\r\n"))
    decreases |p|
  {
    if p != [] {
      if p[0] == ESCAPE && |p| > 1 {
        LinesAreClean(p[2..]);
      } else if p[0] == '\r' {
        LinesAreClean(p[Newline(p)..]);
      } else {
        LinesAreClean(p[1..]);
      }
    }
  }

  /** Clean text is left alone, and only clean text. */
  lemma {:induction false} CleanIsFixed(p: string)
    ensures Lines(p, "\r\n") == p <==> Clean(p)
    decreases |p|
  {
    LinesAreClean(p);
    if Clean(p) && p != [] {
      if p[0] == '\r' {
        CleanTail(p, 2);
        CleanIsFixed(p[2..]);
        assert p == "\r\n" + p[2..];
      } else {
        CleanTail(p, 1);
        CleanIsFixed(p[1..]);
        assert p == [p[0]] + p[1..];
      }
    }
  }

  lemma {:induction false} CleanTail(p: string, k: nat)
    requires Clean(p) && 0 < k <= |p| && (p[k - 1] != '\r')
    ensures Clean(p[k..])
  {}

  /** So a second pass changes nothing, and the lines of text stay the same. */
  lemma {:induction false} CleanUpKeepsLines(p: string)
    ensures Lines(Lines(p, "\r\n"), "\r\n") == Lines(p, "\r\n")
    ensures Lines(Lines(p, "\r\n"), "\n") == Lines(p, "\n")
  {
    LinesAreClean(p);
    CleanIsFixed(Lines(p, "\r\n"));
    LinesAgree(p);
  }

  lemma {:induction false} LinesAgree(p: string)
    ensures Lines(Lines(p, "\r\n"), "\n") == Lines(p, "\n")
    decreases |p|
  {
    if p != [] {
      if p[0] == ESCAPE && |p| > 1 {
        LinesAgree(p[2..]);
      } else if p[0] == '\n' || p[0] == '\r' {
        var rest := if p[0] == '\n' then p[1..] else p[Newline(p)..];
        LinesAgree(rest);
        var s := Lines(rest, "\r\n");
        assert ("\r\n" + s)[2..] == s;
      } else {
        LinesAgree(p[1..]);
        var s := Lines(p[1..], "\r\n");
        assert ([p[0]] + s)[1..] == s;
      }
    }
  }
}
