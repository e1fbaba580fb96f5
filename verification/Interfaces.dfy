/** Interfaces in the layout of a class. The class gets its own copy of the tree of interfaces
  that it implements; the copy falls apart into chains of leftmost bases, and every chain gets
  one slot for a pointer to a virtual table. */
module Interfaces {
  import opened Words

  /** For every interface the interfaces it is derived from; these come before it. */
  type Decls = d: seq<seq<nat>> | forall i :: 0 <= i < |d| ==> Earlier(d[i], i) witness []

  predicate Earlier(bases: seq<nat>, i: nat) {
    forall k :: 0 <= k < |bases| ==> bases[k] < i
  }

  /** A node of the copy: the interface, the offset of its slot and its `dim` bases, which are
    nodes one after the other. */
  datatype Node = Node(base: nat, offset: nat, first: nat, dim: nat)

  // ----- the shape of the copy; `parents` has -1 for the interfaces of the class itself -----

  predicate IsHead(nodes: seq<Node>, parents: seq<int>, n: nat)
    requires n < |nodes| == |parents| && parents[n] < |nodes|
  {
    parents[n] < 0 || n != nodes[parents[n]].first
  }

  predicate HasParent(decls: Decls, nodes: seq<Node>, parents: seq<int>, open: set<nat>, n: nat)
    requires n < |nodes| == |parents|
  {
    && -1 <= parents[n] < n && nodes[n].base < |decls|
    && (parents[n] >= 0 ==>
          var p := nodes[parents[n]];
          && parents[n] !in open && p.base < |decls| && p.first <= n < p.first + p.dim
          && p.dim == |decls[p.base]| && nodes[n].base == decls[p.base][n - p.first])
  }

  /** Open nodes have no bases yet; the others have those of their interface. */
  predicate HasBases(decls: Decls, nodes: seq<Node>, parents: seq<int>, open: set<nat>, n: nat)
    requires n < |nodes| == |parents|
  {
    if n in open then nodes[n].dim == 0 && nodes[n].first == 0
    else
      && nodes[n].base < |decls| && nodes[n].dim == |decls[nodes[n].base]| && n < nodes[n].first
      && nodes[n].first + nodes[n].dim <= |nodes|
      && forall k :: nodes[n].first <= k < nodes[n].first + nodes[n].dim ==> parents[k] == n
  }

  ghost predicate Tree(decls: Decls, nodes: seq<Node>, parents: seq<int>, open: set<nat>) {
    && |nodes| == |parents|
    && (forall n :: 0 <= n < |nodes| ==> HasParent(decls, nodes, parents, open, n))
    && (forall n :: 0 <= n < |nodes| ==> HasBases(decls, nodes, parents, open, n))
  }

  /** The heads of chains, except those in `later`, are listed, each once. */
  ghost predicate Listed(nodes: seq<Node>, parents: seq<int>, heads: seq<nat>, later: set<nat>) {
    && |nodes| == |parents|
    && (forall n :: 0 <= n < |nodes| ==> ListedAt(nodes, parents, heads, later, n))
    && (forall i :: 0 <= i < |heads| ==> heads[i] < |nodes|)
    && (forall i, j :: 0 <= i < j < |heads| ==> heads[i] != heads[j])
  }

  predicate ListedAt(nodes: seq<Node>, parents: seq<int>, heads: seq<nat>, later: set<nat>, n: nat)
    requires n < |nodes| == |parents|
  {
    parents[n] < |nodes| && (n in heads <==> IsHead(nodes, parents, n) && n !in later)
  }

  ghost predicate Unplaced(nodes: seq<Node>) {
    forall n :: 0 <= n < |nodes| ==> nodes[n].offset == 0
  }

  function From(lo: nat, hi: nat): (s: set<nat>)
    requires lo <= hi
    ensures forall k :: k in s <==> lo <= k < hi
    decreases hi - lo
  {
    if lo == hi then {} else {lo} + From(lo + 1, hi)
  }

  /** The state after the bases of `b` have been allocated. */
  function Grown(decls: Decls, nodes: seq<Node>, b: nat): (r: seq<Node>)
    requires b < |nodes| && nodes[b].base < |decls|
    ensures |r| == |nodes| + |decls[nodes[b].base]|
  {
    var bases := decls[nodes[b].base];
    nodes[b := nodes[b].(first := |nodes|, dim := |bases|)]
    + seq(|bases|, k requires 0 <= k < |bases| => Node(bases[k], 0, 0, 0))
  }

  lemma {:induction false} GrownTree(decls: Decls, nodes: seq<Node>, parents: seq<int>, open: set<nat>, b: nat)
    requires Tree(decls, nodes, parents, open) && b < |nodes| && b in open
    requires forall n :: n in open ==> n < |nodes|
    ensures nodes[b].base < |decls|
    ensures
      var d := |decls[nodes[b].base]|;
      Tree(decls, Grown(decls, nodes, b), parents + seq(d, k => b),
           open - {b} + From(|nodes|, |nodes| + d))
  {
    assert HasParent(decls, nodes, parents, open, b);
    var d := |decls[nodes[b].base]|;
    assert Earlier(decls[nodes[b].base], nodes[b].base);
    var nodes', parents' := Grown(decls, nodes, b), parents + seq(d, k => b);
    var open' := open - {b} + From(|nodes|, |nodes| + d);
    forall n | 0 <= n < |nodes'|
      ensures HasParent(decls, nodes', parents', open', n)
    {
      if n < |nodes| {
        assert HasParent(decls, nodes, parents, open, n);
        if parents[n] >= 0 { assert HasBases(decls, nodes, parents, open, parents[n]); }
      }
    }
    forall n | 0 <= n < |nodes'|
      ensures HasBases(decls, nodes', parents', open', n)
    {
      if n < |nodes| { assert HasBases(decls, nodes, parents, open, n); }
    }
  }

  lemma {:induction false} GrownListed(decls: Decls, nodes: seq<Node>, parents: seq<int>, open: set<nat>,
                                       heads: seq<nat>, later: set<nat>, b: nat)
    requires Tree(decls, nodes, parents, open) && b < |nodes| && b in open
    requires forall n :: n in later ==> n < |nodes|
    requires Listed(nodes, parents, heads, later) && nodes[b].base < |decls|
    ensures
      var d := |decls[nodes[b].base]|;
      Listed(Grown(decls, nodes, b), parents + seq(d, k => b), heads, later + From(|nodes|, |nodes| + d))
  {
    var d := |decls[nodes[b].base]|;
    var nodes', parents' := Grown(decls, nodes, b), parents + seq(d, k => b);
    var later' := later + From(|nodes|, |nodes| + d);
    forall n | 0 <= n < |nodes'|
      ensures ListedAt(nodes', parents', heads, later', n)
    {
      if n < |nodes| {
        assert ListedAt(nodes, parents, heads, later, n);
        assert HasParent(decls, nodes, parents, open, n);
      }
    }
  }

  ghost predicate NoRoots(parents: seq<int>, from: nat) {
    forall n :: from <= n < |parents| ==> parents[n] >= 0
  }

  /** A head is listed when its turn comes. */
  lemma {:induction false} ListHead(nodes: seq<Node>, parents: seq<int>, heads: seq<nat>, later: set<nat>, c: nat)
    requires Listed(nodes, parents, heads, later) && c < |nodes| && c in later
    ensures parents[c] < |nodes|
    ensures Listed(nodes, parents, if IsHead(nodes, parents, c) then heads + [c] else heads, later - {c})
  {
    assert ListedAt(nodes, parents, heads, later, c);
    var heads' := if IsHead(nodes, parents, c) then heads + [c] else heads;
    forall n | 0 <= n < |nodes|
      ensures ListedAt(nodes, parents, heads', later - {c}, n)
    {
      assert ListedAt(nodes, parents, heads, later, n);
    }
  }

  // ----- chains -----

  /** The first node of the chain of leftmost bases that `n` is in. */
  ghost function Head(nodes: seq<Node>, parents: seq<int>, n: nat): (h: nat)
    requires n < |nodes| == |parents|
    ensures h <= n
  {
    if 0 <= parents[n] < n && n == nodes[parents[n]].first then Head(nodes, parents, parents[n]) else n
  }

  /** The offsets do not matter for the shape of the tree. */
  ghost predicate SameShape(nodes: seq<Node>, nodes': seq<Node>) {
    && |nodes| == |nodes'|
    && forall n :: 0 <= n < |nodes| ==> nodes'[n] == nodes[n].(offset := nodes'[n].offset)
  }

  lemma {:induction false} HeadIsHead(decls: Decls, nodes: seq<Node>, parents: seq<int>, n: nat)
    requires Tree(decls, nodes, parents, {}) && n < |nodes|
    ensures var h := Head(nodes, parents, n);
      h <= n && parents[h] < |nodes| && IsHead(nodes, parents, h) && Head(nodes, parents, h) == h
    ensures parents[n] < |nodes| && IsHead(nodes, parents, n) ==> Head(nodes, parents, n) == n
    decreases n
  {
    assert HasParent(decls, nodes, parents, {}, n);
    if parents[n] >= 0 { HeadIsHead(decls, nodes, parents, parents[n]); }
  }

  /** Behind `b`, its chain goes on with the first base of `b`. */
  lemma {:induction false} NextInChain(decls: Decls, nodes: seq<Node>, parents: seq<int>, n: nat, b: nat)
    requires Tree(decls, nodes, parents, {}) && b < n < |nodes|
    requires Head(nodes, parents, n) == Head(nodes, parents, b)
    ensures nodes[b].dim > 0 && nodes[b].first <= n
    decreases n
  {
    HeadIsHead(decls, nodes, parents, n);
    HeadIsHead(decls, nodes, parents, b);
    assert HasParent(decls, nodes, parents, {}, n);
    var p := parents[n];
    if p > b {
      NextInChain(decls, nodes, parents, p, b);
    } else if p < b {
      NextInChain(decls, nodes, parents, b, p);
    }
  }

  lemma {:induction false} FirstInChain(decls: Decls, nodes: seq<Node>, parents: seq<int>, b: nat)
    requires Tree(decls, nodes, parents, {}) && b < |nodes| && nodes[b].dim > 0
    ensures b < nodes[b].first < |nodes|
    ensures Head(nodes, parents, nodes[b].first) == Head(nodes, parents, b)
  {
    assert HasBases(decls, nodes, parents, {}, b);
  }

  // ----- slots -----

  /** The alignment in effect for a member; with `salign` up to 1 there is none. */
  function Alignment(salign: nat, size: nat): (a: nat)
    ensures a > 0
  {
    if salign <= 1 then 1 else if size == 0 || salign < size then salign else size
  }

  /** Rounding up to the alignment. Alignments are powers of two, for which rounding is the
    masking of the low digits. */
  function AlignMember(salign: nat, size: nat, offset: nat): (r: nat)
    ensures offset <= r < offset + Alignment(salign, size) && r % Alignment(salign, size) == 0
  {
    if salign > 1 then
      var sa := if size == 0 || salign < size then salign else size;
      RoundsUp(offset, sa);
      (offset + sa - 1) / sa * sa
    else offset
  }

  lemma {:induction false} RoundsUp(x: nat, a: nat)
    requires a > 0
    ensures x <= (x + a - 1) / a * a < x + a && (x + a - 1) / a * a % a == 0
  {
    var q := (x + a - 1) / a;
    assert x + a - 1 == a * q + (x + a - 1) % a;
    DivUnique(q * a, a, q, 0);
  }

  predicate Aligned(slots: seq<nat>, a: nat)
    requires a > 0
  {
    forall k :: 0 <= k < |slots| ==> slots[k] % a == 0
  }

  /** The slots lie behind the fields, aligned, one after the other. */
  ghost predicate AreSlots(slots: seq<nat>, start: nat, a: nat, ptrSize: nat, end: nat)
    requires a > 0
  {
    && (forall k :: 0 <= k < |slots| ==> start <= slots[k] && slots[k] + ptrSize <= end)
    && Aligned(slots, a)
    && (forall k, l :: 0 <= k < l < |slots| ==> slots[k] + ptrSize <= slots[l])
    && (forall k :: 0 <= k < |slots| ==> NoGap(slots, start, a, ptrSize, k))
    && end == if slots == [] then start else slots[|slots| - 1] + ptrSize
  }

  /** Before slot `k` no more room is lost than the alignment takes. */
  predicate NoGap(slots: seq<nat>, start: nat, a: nat, ptrSize: nat, k: nat)
    requires k < |slots|
  {
    slots[k] < (if k == 0 then start else slots[k - 1] + ptrSize) + a
  }

  lemma {:induction false} AppendSlot(slots: seq<nat>, start: nat, a: nat, ptrSize: nat, end: nat, slot: nat)
    requires a > 0 && AreSlots(slots, start, a, ptrSize, end) && start <= end <= slot < end + a && slot % a == 0
    ensures AreSlots(slots + [slot], start, a, ptrSize, slot + ptrSize)
  {
    var slots' := slots + [slot];
    forall k | 0 <= k < |slots'|
      ensures NoGap(slots', start, a, ptrSize, k)
    {
      if k < |slots| { assert NoGap(slots, start, a, ptrSize, k); }
    }
  }

  /** Node `n` has the slot of its chain, or none yet. */
  ghost predicate Placed(shape: seq<Node>, parents: seq<int>, heads: seq<nat>, slots: seq<nat>, nodes: seq<Node>,
                         n: nat)
    requires n < |shape| == |parents| == |nodes| && |slots| <= |heads|
  {
    var h := Head(shape, parents, n);
    && (forall k :: 0 <= k < |slots| && heads[k] == h ==> nodes[n].offset == slots[k])
    && (h !in heads[..|slots|] ==> nodes[n].offset == 0)
  }

  ghost predicate AllPlaced(shape: seq<Node>, parents: seq<int>, heads: seq<nat>, slots: seq<nat>, nodes: seq<Node>) {
    && |shape| == |parents| == |nodes| && |slots| <= |heads|
    && forall n :: 0 <= n < |nodes| ==> Placed(shape, parents, heads, slots, nodes, n)
  }

  lemma {:induction false} PlaceNext(shape: seq<Node>, parents: seq<int>, heads: seq<nat>, slots: seq<nat>,
                                     nodes: seq<Node>, slot: nat, nodes': seq<Node>)
    requires AllPlaced(shape, parents, heads, slots, nodes) && |slots| < |heads| && |nodes'| == |nodes|
    requires forall i, j :: 0 <= i < j < |heads| ==> heads[i] != heads[j]
    requires forall n :: 0 <= n < |nodes| ==>
      nodes'[n].offset == if Head(shape, parents, n) == heads[|slots|] then slot else nodes[n].offset
    ensures AllPlaced(shape, parents, heads, slots + [slot], nodes')
  {
    var m := |slots|;
    assert heads[..m + 1] == heads[..m] + [heads[m]];
    forall n | 0 <= n < |nodes|
      ensures Placed(shape, parents, heads, slots + [slot], nodes', n)
    {
      assert Placed(shape, parents, heads, slots, nodes, n);
    }
  }

  lemma {:induction false} SameHead(nodes: seq<Node>, nodes': seq<Node>, parents: seq<int>, n: nat)
    requires SameShape(nodes, nodes') && n < |nodes| == |parents|
    ensures Head(nodes', parents, n) == Head(nodes, parents, n)
    decreases n
  {
    if 0 <= parents[n] < n { SameHead(nodes, nodes', parents, parents[n]); }
  }

  lemma {:induction false} SameTree(decls: Decls, nodes: seq<Node>, nodes': seq<Node>, parents: seq<int>)
    requires SameShape(nodes, nodes') && Tree(decls, nodes, parents, {})
    ensures Tree(decls, nodes', parents, {})
  {
    forall n | 0 <= n < |nodes|
      ensures HasParent(decls, nodes', parents, {}, n) && HasBases(decls, nodes', parents, {}, n)
    {
      assert HasParent(decls, nodes, parents, {}, n) && HasBases(decls, nodes, parents, {}, n);
    }
  }

  lemma {:induction false} SameList(decls: Decls, nodes: seq<Node>, nodes': seq<Node>, parents: seq<int>,
                                    heads: seq<nat>)
    requires SameShape(nodes, nodes') && Tree(decls, nodes, parents, {}) && Listed(nodes, parents, heads, {})
    ensures Listed(nodes', parents, heads, {})
  {
    forall n | 0 <= n < |nodes|
      ensures ListedAt(nodes', parents, heads, {}, n)
    {
      assert ListedAt(nodes, parents, heads, {}, n);
      assert HasParent(decls, nodes, parents, {}, n);
    }
  }

  /** The nodes of one chain have one offset, and different chains have slots that do not overlap. */
  ghost predicate ShareSlots(nodes: seq<Node>, parents: seq<int>, start: nat, ptrSize: nat, end: nat, n: nat, m: nat)
    requires n < |nodes| == |parents| && m < |nodes|
  {
    && start <= nodes[n].offset && nodes[n].offset + ptrSize <= end
    && (nodes[n].offset == nodes[m].offset <==> Head(nodes, parents, n) == Head(nodes, parents, m))
    && (nodes[n].offset < nodes[m].offset ==> nodes[n].offset + ptrSize <= nodes[m].offset)
  }

  class ClassLayout {
    const decls: Decls
    var nodes: seq<Node>
    var vtblInterfaces: seq<nat>
    ghost var parents: seq<int>

    constructor (d: Decls)
      ensures decls == d && nodes == [] && vtblInterfaces == []
    {
      decls, nodes, vtblInterfaces, parents := d, [], [], [];
    }

    ghost predicate State(open: set<nat>, later: set<nat>)
      reads this
    {
      && Tree(decls, nodes, parents, open) && Listed(nodes, parents, vtblInterfaces, later) && Unplaced(nodes)
      && (forall n :: n in open ==> n < |nodes|) && later <= open
    }

    /** Allocate the bases of node `b`. */
    method Allocate(b: nat, ghost open: set<nat>, ghost later: set<nat>)
      requires State(open, later) && b < |nodes| && b in open && b !in later
      modifies `nodes, `parents
      ensures old(|nodes|) <= |nodes| == |parents| && nodes[b].base < |decls|
      ensures old(nodes[b].base) < |decls| && nodes == old(Grown(decls, nodes, b))
      ensures parents[..old(|nodes|)] == old(parents) && NoRoots(parents, old(|nodes|))
      ensures
        var first, end := old(|nodes|), |nodes|;
        State(open - {b} + From(first, end), later + From(first, end))
    {
      assert HasParent(decls, nodes, parents, open, b);
      GrownTree(decls, nodes, parents, open, b);
      GrownListed(decls, nodes, parents, open, vtblInterfaces, later, b);
      ghost var dim := |decls[nodes[b].base]|;
      nodes, parents := Grown(decls, nodes, b), parents + seq(dim, k => b);
    }

    /** List base `i` of node `b`, unless it continues the chain of `b`. */
    method ListBase(b: nat, i: nat, ghost open: set<nat>, ghost later: set<nat>)
      requires State(open, later) && b < |nodes| && b !in open
      requires i < nodes[b].dim && nodes[b].first + i in later
      modifies `vtblInterfaces
      ensures State(open, later - {nodes[b].first + i})
    {
      var c := nodes[b].first + i;
      assert parents[c] == b by { assert HasBases(decls, nodes, parents, open, b); }
      ListHead(nodes, parents, vtblInterfaces, later, c);
      assert IsHead(nodes, parents, c) <==> i != 0;
      if i != 0 {
        vtblInterfaces := vtblInterfaces + [c];
      }
    }

    /** Give node `b` a copy of the bases of its interface, and so on. */
    method CopyBaseInterfaces(b: nat, ghost open: set<nat>, ghost later: set<nat>)
      requires State(open, later) && b < |nodes| && b in open && b !in later
      modifies `nodes, `parents, `vtblInterfaces
      ensures State(open - {b}, later)
      ensures |nodes| >= old(|nodes|) && nodes[b].base == old(nodes[b].base)
      ensures forall n :: 0 <= n < old(|nodes|) && n != b ==> nodes[n] == old(nodes[n])
      ensures old(parents) <= parents && NoRoots(parents, old(|nodes|))
      decreases nodes[b].base, 1
    {
      ghost var rest := open - {b};
      Allocate(b, open, later);
      var first, dim := nodes[b].first, nodes[b].dim;
      ghost var grown, end := nodes, first + dim;
      assert rest + From(end, end) == rest && later + From(end, end) == later;
      for i := 0 to dim
        invariant State(rest + From(first + i, end), later + From(first + i, end))
        invariant |nodes| >= end
        invariant forall n :: 0 <= n < first ==> nodes[n] == grown[n]
        invariant forall n :: first + i <= n < end ==> nodes[n] == grown[n]
        invariant old(parents) <= parents && NoRoots(parents, first)
      {
        CopyBase(b, i, end, rest, later);
      }
    }

    /** The same for base `i` of node `b`. */
    method CopyBase(b: nat, i: nat, ghost end: nat, ghost rest: set<nat>, ghost later: set<nat>)
      requires b < |nodes| && i < nodes[b].dim && end == nodes[b].first + nodes[b].dim <= |nodes|
      requires State(rest + From(nodes[b].first + i, end), later + From(nodes[b].first + i, end))
      requires b < nodes[b].first && forall n :: n in rest || n in later ==> n < nodes[b].first && n != b
      modifies `nodes, `parents, `vtblInterfaces
      ensures |nodes| >= old(|nodes|)
      ensures forall n :: 0 <= n < old(|nodes|) && n != old(nodes[b].first) + i ==> nodes[n] == old(nodes[n])
      ensures State(rest + From(nodes[b].first + i + 1, end), later + From(nodes[b].first + i + 1, end))
      ensures old(parents) <= parents && NoRoots(parents, old(|nodes|))
      decreases nodes[b].base, 0
    {
      var c := nodes[b].first + i;
      ghost var open := rest + From(c, end);
      assert HasBases(decls, nodes, parents, open, b) && HasParent(decls, nodes, parents, open, c);
      assert Earlier(decls[nodes[b].base], nodes[b].base);
      ListBase(b, i, open, later + From(c, end));
      assert later + From(c, end) - {c} == later + From(c + 1, end);
      assert open - {c} == rest + From(c + 1, end);
      CopyBaseInterfaces(c, open, later + From(c + 1, end));
    }

    /** List interface `i` of the class and copy its bases. */
    method CopyInterface(i: nat, ghost dim: nat)
      requires i < dim <= |nodes| && State(From(i, dim), From(i, dim)) && parents[i] < 0
      modifies `nodes, `parents, `vtblInterfaces
      ensures State(From(i + 1, dim), From(i + 1, dim))
      ensures |nodes| >= old(|nodes|) && nodes[i].base == old(nodes[i].base)
      ensures forall n :: 0 <= n < old(|nodes|) && n != i ==> nodes[n] == old(nodes[n])
      ensures old(parents) <= parents && NoRoots(parents, old(|nodes|))
    {
      ListHead(nodes, parents, vtblInterfaces, From(i, dim), i);
      vtblInterfaces := vtblInterfaces + [i];
      assert From(i, dim) - {i} == From(i + 1, dim);
      CopyBaseInterfaces(i, From(i, dim), From(i + 1, dim));
    }

    /** The copy for a class that implements `interfaces`. */
    method InterfaceSemantic(interfaces: seq<nat>)
      requires forall i :: 0 <= i < |interfaces| ==> interfaces[i] < |decls|
      modifies `nodes, `parents, `vtblInterfaces
      ensures State({}, {})
      ensures |interfaces| <= |nodes|
      ensures forall n :: 0 <= n < |nodes| ==> (parents[n] < 0 <==> n < |interfaces|)
      ensures forall n :: 0 <= n < |interfaces| ==> nodes[n].base == interfaces[n]
    {
      var dim := |interfaces|;
      nodes := seq(dim, i requires 0 <= i < dim => Node(interfaces[i], 0, 0, 0));
      parents := seq(dim, i => -1);
      vtblInterfaces := [];
      for i := 0 to dim
        invariant State(From(i, dim), From(i, dim))
        invariant dim <= |nodes| && NoRoots(parents, dim)
        invariant forall n :: 0 <= n < dim ==> parents[n] == -1 && nodes[n].base == interfaces[n]
        invariant forall n :: i <= n < dim ==> nodes[n].dim == 0
      {
        CopyInterface(i, dim);
      }
      assert From(dim, dim) == {};
    }

    /** Give the chain that begins with `h`, which has none yet, its slot: every node of the chain is
      written once. */
    method PlaceChain(h: nat, slot: nat)
      requires Tree(decls, nodes, parents, {}) && h < |nodes| && Head(nodes, parents, h) == h
      requires nodes[h].offset == 0
      modifies `nodes
      ensures SameShape(old(nodes), nodes)
      ensures forall n :: 0 <= n < |nodes| ==>
        nodes[n].offset == if Head(old(nodes), parents, n) == h then slot else old(nodes)[n].offset
    {
      ghost var shape := nodes;
      var b := h;
      nodes := nodes[b := nodes[b].(offset := slot)];
      while nodes[b].dim > 0
        invariant SameShape(shape, nodes) && b < |nodes| && Head(shape, parents, b) == h
        invariant forall n :: 0 <= n < |nodes| ==>
          nodes[n].offset == if Head(shape, parents, n) == h && n <= b then slot else shape[n].offset
        decreases |nodes| - b
      {
        FirstInChain(decls, shape, parents, b);
        forall n | b < n < |nodes| && Head(shape, parents, n) == h
          ensures nodes[b].first <= n
        {
          NextInChain(decls, shape, parents, n, b);
        }
        b := nodes[b].first;
        nodes := nodes[b := nodes[b].(offset := slot)];
      }
      forall n | b < n < |nodes|
        ensures Head(shape, parents, n) != h
      {
        if Head(shape, parents, n) == h { NextInChain(decls, shape, parents, n, b); }
      }
    }

    /** Allocate an instance of each interface: a slot for every chain, behind the fields that
      end at `offset`. */
    method AllocateSlots(offset: nat, structalign: nat, ptrSize: nat) returns (structsize: nat, ghost slots: seq<nat>)
      requires State({}, {})
      modifies `nodes
      ensures SameShape(old(nodes), nodes) && Tree(decls, nodes, parents, {})
      ensures Listed(nodes, parents, vtblInterfaces, {})
      ensures |slots| == |vtblInterfaces|
      ensures AreSlots(slots, offset, Alignment(structalign, ptrSize), ptrSize, structsize)
      ensures AllPlaced(nodes, parents, vtblInterfaces, slots, nodes)
    {
      ghost var shape := nodes;
      slots, structsize := [], offset;
      var i := 0;
      assert vtblInterfaces[..0] == [];
      while i < |vtblInterfaces|
        invariant 0 <= i == |slots| <= |vtblInterfaces| && offset <= structsize
        invariant SameShape(shape, nodes) && Tree(decls, nodes, parents, {})
        invariant AreSlots(slots, offset, Alignment(structalign, ptrSize), ptrSize, structsize)
        invariant AllPlaced(shape, parents, vtblInterfaces, slots, nodes)
      {
        var b := vtblInterfaces[i];
        ghost var before := nodes;
        HeadOfList(shape, b, i);
        SameHead(shape, nodes, parents, b);
        assert nodes[b].offset == 0 by { assert Placed(shape, parents, vtblInterfaces, slots, nodes, b); }
        ghost var end := structsize;
        structsize := AlignMember(structalign, ptrSize, structsize);
        AppendSlot(slots, offset, Alignment(structalign, ptrSize), ptrSize, end, structsize);
        PlaceChain(b, structsize);
        forall n | 0 <= n < |nodes|
          ensures Head(before, parents, n) == Head(shape, parents, n)
        {
          SameHead(shape, before, parents, n);
        }
        PlaceNext(shape, parents, vtblInterfaces, slots, before, structsize, nodes);
        SameTree(decls, before, nodes, parents);
        slots := slots + [structsize];
        structsize := structsize + ptrSize;
        i := i + 1;
      }
      forall n | 0 <= n < |nodes|
        ensures Placed(nodes, parents, vtblInterfaces, slots, nodes, n)
      {
        assert Placed(shape, parents, vtblInterfaces, slots, nodes, n);
        SameHead(shape, nodes, parents, n);
      }
      SameList(decls, shape, nodes, parents, vtblInterfaces);
    }

    /** The whole layout of a class that implements `interfaces`, and looking one up in it. */
    method LayOut(interfaces: seq<nat>, offset: nat, structalign: nat, ptrSize: nat, id: nat)
      returns (structsize: nat, found: bool, at: int, ghost node: nat)
      requires forall i :: 0 <= i < |interfaces| ==> interfaces[i] < |decls|
      requires ptrSize > 0
      modifies `nodes, `parents, `vtblInterfaces
      ensures Tree(decls, nodes, parents, {}) && Listed(nodes, parents, vtblInterfaces, {}) && |interfaces| <= |nodes|
      ensures forall n :: 0 <= n < |interfaces| ==> nodes[n].base == interfaces[n] && parents[n] < 0
      ensures forall n, m :: 0 <= n < |nodes| && 0 <= m < |nodes| ==>
                ShareSlots(nodes, parents, offset, ptrSize, structsize, n, m)
      ensures found <==> exists n :: 0 <= n < |nodes| && nodes[n].base == id
      ensures found ==> FirstOfClass(nodes, parents, id, node)
      ensures found ==>
                at == if Head(nodes, parents, node) < |interfaces| then nodes[node].offset as int else OFFSET_RUNTIME
      ensures !found ==> at == 0
    {
      InterfaceSemantic(interfaces);
      ghost var slots;
      structsize, slots := AllocateSlots(offset, structalign, ptrSize);
      forall n, m | 0 <= n < |nodes| && 0 <= m < |nodes|
        ensures ShareSlots(nodes, parents, offset, ptrSize, structsize, n, m)
      {
        ChainsShareSlots(decls, nodes, parents, vtblInterfaces, slots, offset, Alignment(structalign, ptrSize),
                         ptrSize, structsize, n, m);
      }
      found, at, node := ClassIsBaseOf(decls, nodes, parents, id, |interfaces|);
    }

    lemma {:induction false} HeadOfList(shape: seq<Node>, b: nat, i: nat)
      requires Tree(decls, shape, parents, {}) && Listed(shape, parents, vtblInterfaces, {})
      requires i < |vtblInterfaces| && b == vtblInterfaces[i]
      ensures b < |shape| && Head(shape, parents, b) == b && b !in vtblInterfaces[..i]
    {
      assert ListedAt(shape, parents, vtblInterfaces, {}, b);
      HeadIsHead(decls, shape, parents, b);
    }
  }

  /** Two nodes share a slot just when they are in the same chain, and no node is without one. */
  lemma {:induction false} ChainsShareSlots(decls: Decls, nodes: seq<Node>, parents: seq<int>, heads: seq<nat>,
                                            slots: seq<nat>, start: nat, a: nat, ptrSize: nat, end: nat,
                                            n: nat, m: nat)
    requires Tree(decls, nodes, parents, {}) && Listed(nodes, parents, heads, {}) && ptrSize > 0
    requires |slots| == |heads| && a > 0 && AreSlots(slots, start, a, ptrSize, end)
    requires AllPlaced(nodes, parents, heads, slots, nodes) && n < |nodes| && m < |nodes|
    ensures ShareSlots(nodes, parents, start, ptrSize, end, n, m)
  {
    var k := SlotOf(decls, nodes, parents, heads, slots, n);
    var l := SlotOf(decls, nodes, parents, heads, slots, m);
    if k < l { assert slots[k] + ptrSize <= slots[l]; }
    if l < k { assert slots[l] + ptrSize <= slots[k]; }
  }

  lemma {:induction false} SlotOf(decls: Decls, nodes: seq<Node>, parents: seq<int>, heads: seq<nat>,
                                  slots: seq<nat>, n: nat)
    returns (k: nat)
    requires Tree(decls, nodes, parents, {}) && Listed(nodes, parents, heads, {}) && |slots| == |heads|
    requires AllPlaced(nodes, parents, heads, slots, nodes) && n < |nodes|
    ensures k < |slots| && heads[k] == Head(nodes, parents, n) && nodes[n].offset == slots[k]
  {
    HeadIsHead(decls, nodes, parents, n);
    var h := Head(nodes, parents, n);
    assert ListedAt(nodes, parents, heads, {}, h);
    k :| 0 <= k < |heads| && heads[k] == h;
    assert Placed(nodes, parents, heads, slots, nodes, n);
  }

  // ----- looking an interface up -----

  const OFFSET_RUNTIME: int := 0x76543210

  /** `n` is `a` or comes from it. */
  ghost predicate Below(parents: seq<int>, n: nat, a: nat)
    requires n < |parents|
  {
    n == a || (0 <= parents[n] < n && Below(parents, parents[n], a))
  }

  /** `n` is a node of interface `id` below `a`. */
  ghost predicate Occurs(nodes: seq<Node>, parents: seq<int>, id: nat, n: nat, a: nat) {
    n < |nodes| == |parents| && nodes[n].base == id && Below(parents, n, a)
  }

  /** The search meets `n` before `m`: above it, or in a base that comes before that of `m`. */
  ghost predicate Precedes(parents: seq<int>, n: nat, m: nat)
    requires n < |parents| && m < |parents|
  {
    (n != m && Below(parents, m, n)) || exists c: nat, d: nat :: Apart(parents, n, m, c, d)
  }

  ghost predicate Apart(parents: seq<int>, n: nat, m: nat, c: nat, d: nat)
    requires n < |parents| && m < |parents|
  {
    && c < d < |parents| && (parents[c] == parents[d] || (parents[c] < 0 && parents[d] < 0))
    && Below(parents, n, c) && Below(parents, m, d)
  }

  /** `n` is the first node of interface `id` that the search below `a` meets. */
  ghost predicate FirstBelow(nodes: seq<Node>, parents: seq<int>, id: nat, n: nat, a: nat) {
    && Occurs(nodes, parents, id, n, a) && n != a
    && forall m: nat | m != a && m != n && Occurs(nodes, parents, id, m, a) :: Precedes(parents, n, m)
  }

  /** The same for the whole class. */
  ghost predicate FirstOfClass(nodes: seq<Node>, parents: seq<int>, id: nat, n: nat) {
    && n < |nodes| == |parents| && nodes[n].base == id
    && forall m: nat | m < |nodes| && m != n && nodes[m].base == id :: Precedes(parents, n, m)
  }

  /** What comes from the head of a chain has a chain that begins there or further down. */
  lemma {:induction false} HeadStaysBelow(nodes: seq<Node>, parents: seq<int>, n: nat, b: nat)
    requires |nodes| == |parents| && n < |nodes| && b < |nodes| && Below(parents, n, b)
    requires Head(nodes, parents, b) == b
    ensures Head(nodes, parents, n) >= b && Below(parents, Head(nodes, parents, n), b)
    decreases n
  {
    BelowIsLater(parents, n, b);
    if n != b && n == nodes[parents[n]].first { HeadStaysBelow(nodes, parents, parents[n], b); }
  }

  /** A chain that is entered through the first base of `bc` goes on that of `bc`, and through
    another base it does not. */
  lemma {:induction false} ChainThrough(decls: Decls, nodes: seq<Node>, parents: seq<int>, bc: nat, b: nat, n: nat)
    requires Tree(decls, nodes, parents, {}) && bc < b < |nodes| && n < |nodes| && Below(parents, n, b)
    requires nodes[bc].first <= b < nodes[bc].first + nodes[bc].dim
    ensures parents[b] == bc && (b == nodes[bc].first ==> Head(nodes, parents, b) == Head(nodes, parents, bc))
    ensures b != nodes[bc].first ==> Head(nodes, parents, n) != Head(nodes, parents, bc)
  {
    assert HasBases(decls, nodes, parents, {}, bc);
    if b != nodes[bc].first { HeadStaysBelow(nodes, parents, n, b); }
  }

  /** `n` is the first node that is met in base `b`, and the bases before have none. */
  ghost predicate FirstIn(nodes: seq<Node>, parents: seq<int>, id: nat, n: nat, b: nat) {
    && Occurs(nodes, parents, id, n, b)
    && (n != b ==> FirstBelow(nodes, parents, id, n, b) && !Occurs(nodes, parents, id, b, b))
  }

  lemma {:induction false} FirstOfBases(decls: Decls, nodes: seq<Node>, parents: seq<int>, id: nat, bc: nat, b: nat,
                                        n: nat)
    requires Tree(decls, nodes, parents, {}) && bc < b < |nodes| && n < |nodes|
    requires nodes[bc].first <= b < nodes[bc].first + nodes[bc].dim
    requires forall k, m :: nodes[bc].first <= k < b ==> !Occurs(nodes, parents, id, m, k)
    requires FirstIn(nodes, parents, id, n, b)
    ensures FirstBelow(nodes, parents, id, n, bc)
  {
    assert HasBases(decls, nodes, parents, {}, bc);
    BelowTrans(parents, n, b, bc);
    BelowIsLater(parents, n, b);
    forall m: nat | m != bc && m != n && Occurs(nodes, parents, id, m, bc)
      ensures Precedes(parents, n, m)
    {
      var c := BelowABase(decls, nodes, parents, m, bc);
      assert Occurs(nodes, parents, id, m, c);
      if c == b {
        if n != b { assert Occurs(nodes, parents, id, m, b) && m != b; }
      } else {
        assert parents[b] == bc == parents[c];
        assert Apart(parents, n, m, b, c);
      }
    }
  }

  lemma {:induction false} FirstOfRoots(decls: Decls, nodes: seq<Node>, parents: seq<int>, id: nat, dim: nat, b: nat,
                                        n: nat)
    requires Tree(decls, nodes, parents, {}) && b < dim <= |nodes| && n < |nodes|
    requires forall m :: 0 <= m < |nodes| ==> (parents[m] < 0 <==> m < dim)
    requires forall k, m :: 0 <= k < b ==> !Occurs(nodes, parents, id, m, k)
    requires FirstIn(nodes, parents, id, n, b)
    ensures FirstOfClass(nodes, parents, id, n)
    ensures Head(nodes, parents, n) < dim <==> Head(nodes, parents, n) == Head(nodes, parents, b)
  {
    assert Head(nodes, parents, b) == b;
    HeadStaysBelow(nodes, parents, n, b);
    forall m: nat | m < |nodes| && m != n && nodes[m].base == id
      ensures Precedes(parents, n, m)
    {
      var c := RootOf(decls, nodes, parents, m, dim);
      assert Occurs(nodes, parents, id, m, c);
      if c == b {
        if n != b { assert Occurs(nodes, parents, id, m, b) && m != b; }
      } else {
        assert Apart(parents, n, m, b, c);
      }
    }
  }

  lemma {:induction false} BelowIsLater(parents: seq<int>, n: nat, a: nat)
    requires n < |parents| && Below(parents, n, a)
    ensures a <= n
  {
    if n != a { BelowIsLater(parents, parents[n], a); }
  }

  lemma {:induction false} BelowTrans(parents: seq<int>, n: nat, c: nat, a: nat)
    requires n < |parents| && Below(parents, n, c) && c < |parents| && parents[c] == a && a < c
    ensures Below(parents, n, a)
  {
    if n != c { BelowTrans(parents, parents[n], c, a); }
  }

  /** What comes from `a` comes from one of its bases. */
  lemma {:induction false} BelowABase(decls: Decls, nodes: seq<Node>, parents: seq<int>, n: nat, a: nat)
    returns (c: nat)
    requires Tree(decls, nodes, parents, {}) && a < |nodes| && n < |nodes| && Below(parents, n, a) && n != a
    ensures nodes[a].first <= c < nodes[a].first + nodes[a].dim && c < |nodes| && Below(parents, n, c)
  {
    assert HasParent(decls, nodes, parents, {}, n);
    if parents[n] == a { c := n; } else { c := BelowABase(decls, nodes, parents, parents[n], a); }
  }

  /** Search the bases of node `bc`. The offset is that of the first node that is met, if this is on
    the chain of `bc`; otherwise it is determined at run time. */
  method IsBaseOf(decls: Decls, nodes: seq<Node>, ghost parents: seq<int>, id: nat, bc: nat)
    returns (r: bool, offset: int, ghost n: nat)
    requires Tree(decls, nodes, parents, {}) && bc < |nodes|
    ensures !r ==> offset == 0 && forall m :: m != bc ==> !Occurs(nodes, parents, id, m, bc)
    ensures r ==> FirstBelow(nodes, parents, id, n, bc)
    ensures r ==> offset == if Head(nodes, parents, n) == Head(nodes, parents, bc) then nodes[n].offset as int
                            else OFFSET_RUNTIME
    decreases |nodes| - bc
  {
    n := 0;
    assert HasBases(decls, nodes, parents, {}, bc);
    assert nodes[bc].first + nodes[bc].dim <= |nodes| && (nodes[bc].dim > 0 ==> bc < nodes[bc].first);
    var j := 0;
    while j < nodes[bc].dim
      invariant 0 <= j <= nodes[bc].dim
      invariant forall k, m :: nodes[bc].first <= k < nodes[bc].first + j ==> !Occurs(nodes, parents, id, m, k)
    {
      var b := nodes[bc].first + j;
      assert Below(parents, b, b);
      if id == nodes[b].base {
        ChainThrough(decls, nodes, parents, bc, b, b);
        FirstOfBases(decls, nodes, parents, id, bc, b, b);
        return true, if j != 0 then OFFSET_RUNTIME else nodes[b].offset, b;
      }
      r, offset, n := IsBaseOf(decls, nodes, parents, id, b);
      if r {
        ChainThrough(decls, nodes, parents, bc, b, n);
        FirstOfBases(decls, nodes, parents, id, bc, b, n);
        offset := if j != 0 then OFFSET_RUNTIME else offset;
        return;
      }
      j := j + 1;
    }
    r, offset := false, 0;
    forall m: nat | m != bc
      ensures !Occurs(nodes, parents, id, m, bc)
    {
      if Occurs(nodes, parents, id, m, bc) {
        var c := BelowABase(decls, nodes, parents, m, bc);
        assert Occurs(nodes, parents, id, m, c);
      }
    }
  }

  /** Search a class that implements `dim` interfaces. The offset is the slot of the first node that
    is met, if this is on a chain that begins with one of these interfaces. */
  method ClassIsBaseOf(decls: Decls, nodes: seq<Node>, ghost parents: seq<int>, id: nat, dim: nat)
    returns (r: bool, offset: int, ghost n: nat)
    requires Tree(decls, nodes, parents, {}) && dim <= |nodes|
    requires forall m :: 0 <= m < |nodes| ==> (parents[m] < 0 <==> m < dim)
    ensures r <==> exists m :: 0 <= m < |nodes| && nodes[m].base == id
    ensures r ==> FirstOfClass(nodes, parents, id, n)
    ensures r ==> offset == if Head(nodes, parents, n) < dim then nodes[n].offset as int else OFFSET_RUNTIME
    ensures !r ==> offset == 0
  {
    n := 0;
    for j := 0 to dim
      invariant forall k, m :: 0 <= k < j ==> !Occurs(nodes, parents, id, m, k)
    {
      assert Head(nodes, parents, j) == j && Below(parents, j, j);
      if id == nodes[j].base {
        FirstOfRoots(decls, nodes, parents, id, dim, j, j);
        return true, nodes[j].offset, j;
      }
      r, offset, n := IsBaseOf(decls, nodes, parents, id, j);
      if r {
        FirstOfRoots(decls, nodes, parents, id, dim, j, n);
        return;
      }
    }
    r, offset := false, 0;
    forall m | 0 <= m < |nodes|
      ensures nodes[m].base != id
    {
      var root := RootOf(decls, nodes, parents, m, dim);
      assert !Occurs(nodes, parents, id, m, root);
    }
  }

  lemma {:induction false} RootOf(decls: Decls, nodes: seq<Node>, parents: seq<int>, n: nat, dim: nat) returns (r: nat)
    requires Tree(decls, nodes, parents, {}) && n < |nodes|
    requires forall m :: 0 <= m < |nodes| ==> (parents[m] < 0 <==> m < dim)
    ensures r < dim && Below(parents, n, r)
    decreases n
  {
    assert HasParent(decls, nodes, parents, {}, n);
    if parents[n] < 0 { r := n; } else { r := RootOf(decls, nodes, parents, parents[n], dim); }
  }

  /** A class in a line of classes, each with its base class behind it. */
  datatype ClassNodes = ClassNodes(nodes: seq<Node>, dim: nat)

  ghost predicate WellLaid(decls: Decls, c: ClassNodes, parents: seq<int>) {
    && Tree(decls, c.nodes, parents, {}) && c.dim <= |c.nodes|
    && forall m :: 0 <= m < |c.nodes| ==> (parents[m] < 0 <==> m < c.dim)
  }

  ghost predicate Implements(c: ClassNodes, id: nat) {
    exists m :: 0 <= m < |c.nodes| && c.nodes[m].base == id
  }

  /** Search class `k` of a line and then its base classes: the first class that has the interface
    decides. */
  method LineIsBaseOf(decls: Decls, classes: seq<ClassNodes>, ghost parents: seq<seq<int>>, id: nat, k: nat)
    returns (r: bool, offset: int, ghost c: nat, ghost n: nat)
    requires k < |classes| == |parents|
    requires forall i :: 0 <= i < |classes| ==> WellLaid(decls, classes[i], parents[i])
    ensures r <==> exists i :: k <= i < |classes| && Implements(classes[i], id)
    ensures r ==> k <= c < |classes| && Implements(classes[c], id)
    ensures r ==> forall i :: k <= i < c ==> !Implements(classes[i], id)
    ensures r ==>
      var nodes := classes[c].nodes;
      && FirstOfClass(nodes, parents[c], id, n)
      && offset == if Head(nodes, parents[c], n) < classes[c].dim then nodes[n].offset as int else OFFSET_RUNTIME
    ensures !r ==> offset == 0
    decreases |classes| - k
  {
    c := k;
    assert WellLaid(decls, classes[k], parents[k]);
    r, offset, n := ClassIsBaseOf(decls, classes[k].nodes, parents[k], id, classes[k].dim);
    assert r <==> Implements(classes[k], id);
    if !r && k + 1 < |classes| {
      r, offset, c, n := LineIsBaseOf(decls, classes, parents, id, k + 1);
    }
  }

  // ----- the search order -----

  ghost predicate Descends(parents: seq<int>) {
    forall k :: 0 <= k < |parents| ==> parents[k] < k
  }

  predicate Siblings(parents: seq<int>, c: nat, d: nat)
    requires c < |parents| && d < |parents|
  {
    parents[c] == parents[d] || (parents[c] < 0 && parents[d] < 0)
  }

  lemma {:induction false} BelowBoth(parents: seq<int>, m: nat, c: nat, d: nat)
    requires m < |parents| && c < |parents| && d < |parents| && Below(parents, m, c) && Below(parents, m, d)
    ensures Below(parents, c, d) || Below(parents, d, c)
  {
    if m != c && m != d { BelowBoth(parents, parents[m], c, d); }
  }

  lemma {:induction false} BelowAll(parents: seq<int>, n: nat, m: nat, a: nat)
    requires n < |parents| && m < |parents| && Below(parents, n, m) && Below(parents, m, a)
    ensures Below(parents, n, a)
  {
    if n != m { BelowAll(parents, parents[n], m, a); }
  }

  lemma {:induction false} SiblingsExclude(parents: seq<int>, m: nat, c: nat, d: nat)
    requires m < |parents| && c < |parents| && d < |parents| && Siblings(parents, c, d)
    requires Descends(parents) && Below(parents, m, c) && Below(parents, m, d)
    ensures c == d
  {
    BelowBoth(parents, m, c, d);
    if Below(parents, c, d) && c != d { BelowIsLater(parents, parents[c], d); }
    if Below(parents, d, c) && c != d { BelowIsLater(parents, parents[d], c); }
  }

  /** A sibling is below what is strictly above. */
  lemma {:induction false} SiblingBelow(parents: seq<int>, c: nat, d: nat, a: nat)
    requires c < |parents| && d < |parents| && Siblings(parents, c, d) && Below(parents, c, a) && c != a
    requires parents[d] < d
    ensures Below(parents, d, a)
  {}

  /** Of two nodes only one precedes the other. */
  lemma {:induction false} PrecedesOneWay(parents: seq<int>, n: nat, m: nat)
    requires n < |parents| && m < |parents| && Descends(parents)
    requires Precedes(parents, n, m)
    ensures !Precedes(parents, m, n)
  {
    if Precedes(parents, m, n) {
      if n != m && Below(parents, m, n) {
        NotBefore(parents, n, m);
      } else if n != m && Below(parents, n, m) {
        NotBefore(parents, m, n);
      } else {
        var c: nat, d: nat :| Apart(parents, n, m, c, d);
        forall c': nat, d': nat ensures !Apart(parents, m, n, c', d') {
          NotBothApart(parents, n, m, c, d, c', d');
        }
      }
    }
  }

  lemma {:induction false} NotBefore(parents: seq<int>, n: nat, m: nat)
    requires n < |parents| && m < |parents| && n != m && Below(parents, m, n) && Descends(parents)
    ensures !Precedes(parents, m, n) && !exists c: nat, d: nat :: Apart(parents, n, m, c, d)
  {
    BelowIsLater(parents, m, n);
    if Below(parents, n, m) { BelowIsLater(parents, n, m); }
    forall c: nat, d: nat
      ensures !Apart(parents, m, n, c, d) && !Apart(parents, n, m, c, d)
    {
      if Apart(parents, m, n, c, d) {
        BelowAll(parents, m, n, d);
        SiblingsExclude(parents, m, c, d);
      }
      if Apart(parents, n, m, c, d) {
        BelowAll(parents, m, n, c);
        SiblingsExclude(parents, m, c, d);
      }
    }
  }

  lemma {:induction false} NotBothApart(parents: seq<int>, n: nat, m: nat, c: nat, d: nat, c': nat, d': nat)
    requires n < |parents| && m < |parents| && Descends(parents) && Apart(parents, n, m, c, d)
    ensures !Apart(parents, m, n, c', d')
  {
    if Apart(parents, m, n, c', d') {
      BelowBoth(parents, n, c, d');
      if c == d' {
        SiblingsExclude(parents, m, c', d);
      } else if Below(parents, d', c) {
        SiblingBelow(parents, d', c', c);
        BelowAll(parents, m, c', c);
        SiblingsExclude(parents, m, c, d);
      } else {
        SiblingBelow(parents, c, d, d');
        BelowAll(parents, m, d, d');
        SiblingsExclude(parents, m, c', d');
      }
    }
  }

  /** So there is one first node of an interface. */
  lemma {:induction false} FirstIsUnique(decls: Decls, nodes: seq<Node>, parents: seq<int>, id: nat, n: nat, m: nat)
    requires Tree(decls, nodes, parents, {})
    requires FirstOfClass(nodes, parents, id, n) && FirstOfClass(nodes, parents, id, m)
    ensures n == m
  {
    if n != m {
      assert Descends(parents) by {
        forall k | 0 <= k < |parents| ensures parents[k] < k { assert HasParent(decls, nodes, parents, {}, k); }
      }
      PrecedesOneWay(parents, n, m);
    }
  }
}
