/** The protection with which a class gives access to a member that it may have inherited. */
module Access {
  datatype Prot = NoAccess | Private | Package | Protected | Public | Export {
    function Rank(): nat {
      match this
      case NoAccess => 0
      case Private => 1
      case Package => 2
      case Protected => 3
      case Public => 4
      case Export => 5
    }
  }

  datatype Base = Base(base: nat, protection: Prot)

  /** For every class its bases, which come before it. */
  type Classes = c: seq<seq<Base>> | forall i :: 0 <= i < |c| ==> Earlier(c[i], i) witness []

  predicate Earlier(bases: seq<Base>, i: nat) {
    forall k :: 0 <= k < |bases| ==> bases[k].base < i
  }

  /** A member: the class that declares it, its protection, and whether it is static. */
  datatype Member = Member(parent: nat, prot: Prot, isStatic: bool)

  /** What is left of an access through a base. */
  function Through(access: Prot, protection: Prot): Prot {
    if access.NoAccess? || access.Private? then NoAccess
    else if protection.Rank() < access.Rank() then protection else access
  }

  /** What class `c` itself gives. */
  function Own(c: nat, m: Member): Prot {
    if m.parent == c || m.isStatic then m.prot else NoAccess
  }

  /** The access along one line of inheritance from `c`, given by the numbers of the bases. It ends
    where the member is declared. */
  function Along(classes: Classes, c: nat, m: Member, path: seq<nat>): Prot
    requires c < |classes|
    decreases path
  {
    if path == [] then Own(c, m)
    else if m.parent == c || path[0] >= |classes[c]| then NoAccess
    else
      assert Earlier(classes[c], c);
      var b := classes[c][path[0]];
      Through(Along(classes, b.base, m, path[1..]), b.protection)
  }

  /** The least of the protections on the line, the member's own included. */
  function Least(classes: Classes, c: nat, m: Member, path: seq<nat>): Prot
    requires c < |classes|
    decreases path
  {
    if path == [] then Own(c, m)
    else if m.parent == c || path[0] >= |classes[c]| then NoAccess
    else
      assert Earlier(classes[c], c);
      var b := classes[c][path[0]];
      var rest := Least(classes, b.base, m, path[1..]);
      if b.protection.Rank() < rest.Rank() then b.protection else rest
  }

  /** A line gives its least protection, but nothing if a base on the way gives private access or
    none: what is private in a base stays there. */
  lemma {:induction false} LineGives(classes: Classes, c: nat, m: Member, path: seq<nat>)
    requires c < |classes| && path != [] && m.parent != c && path[0] < |classes[c]|
    ensures
      var rest := Least(classes, classes[c][path[0]].base, m, path[1..]);
      Along(classes, c, m, path)
      == if rest.NoAccess? || rest.Private? then NoAccess else Least(classes, c, m, path)
    decreases path
  {
    assert Earlier(classes[c], c);
    var b, rest := classes[c][path[0]].base, path[1..];
    if rest != [] && m.parent != b && rest[0] < |classes[b]| {
      LineGives(classes, b, m, rest);
    }
  }

  /** A private member that is not static is reached in its own class only. */
  lemma {:induction false} PrivateStays(classes: Classes, c: nat, m: Member, path: seq<nat>)
    requires c < |classes| && m.parent != c && !m.isStatic && (m.prot.Private? || m.prot.NoAccess?)
    ensures Along(classes, c, m, path) == NoAccess
    decreases path
  {
    if path != [] && path[0] < |classes[c]| {
      assert Earlier(classes[c], c);
      var b := classes[c][path[0]].base;
      if b != m.parent { PrivateStays(classes, b, m, path[1..]); }
    }
  }

  lemma {:induction false} ThroughIsMonotone(a: Prot, a': Prot, protection: Prot)
    requires a.Rank() <= a'.Rank()
    ensures Through(a, protection).Rank() <= Through(a', protection).Rank()
  {}

  /** The access of `c` is the loosest along any line of inheritance. */
  method GetAccess(classes: Classes, c: nat, m: Member) returns (accessRet: Prot, ghost best: seq<nat>)
    requires c < |classes|
    ensures Along(classes, c, m, best) == accessRet
    ensures forall path :: Along(classes, c, m, path).Rank() <= accessRet.Rank()
    ensures m.prot.Private? && m.parent != c && !m.isStatic ==> accessRet == NoAccess
    decreases c
  {
    accessRet, best := NoAccess, [];
    if m.parent == c {
      accessRet := m.prot;
    } else {
      if m.isStatic {
        accessRet := m.prot;
      }
      assert Earlier(classes[c], c);
      for i := 0 to |classes[c]|
        invariant Along(classes, c, m, best) == accessRet
        invariant Along(classes, c, m, []).Rank() <= accessRet.Rank()
        invariant forall path: seq<nat> :: path != [] && path[0] < i ==>
          Along(classes, c, m, path).Rank() <= accessRet.Rank()
      {
        var b := classes[c][i];
        var access, way := GetAccess(classes, b.base, m);
        ghost var inner := access;
        if access.Private? {
          access := NoAccess;
        } else if !access.NoAccess? {
          if b.protection.Rank() < access.Rank() {
            access := b.protection;
          }
        }
        assert access == Through(inner, b.protection);
        forall path: seq<nat> | path != [] && path[0] == i
          ensures Along(classes, c, m, path).Rank() <= access.Rank()
        {
          ThroughIsMonotone(Along(classes, b.base, m, path[1..]), inner, b.protection);
        }
        if access.Rank() > accessRet.Rank() {
          accessRet, best := access, [i] + way;
          assert best[1..] == way;
        }
      }
      forall path: seq<nat>
        ensures Along(classes, c, m, path).Rank() <= accessRet.Rank()
      {
        if path != [] && path[0] >= |classes[c]| { assert Along(classes, c, m, path) == NoAccess; }
      }
      if m.prot.Private? && !m.isStatic { PrivateStays(classes, c, m, best); }
    }
  }
}
