/** Members of a scope: symbols, and groups of them that are folded in when members are counted
  or fetched by index. */
module SymbolTree {
  datatype Option<T> = None | Some(value: T)

  /** `Attrib` groups declarations; it may have none. */
  datatype Symbol = Plain(name: string) | Attrib(decl: Members)

  datatype Members = NoMembers | Members(list: seq<Symbol>)

  /** The symbols, with the groups opened. */
  function Flat(members: seq<Symbol>): seq<Symbol>
    decreases members
  {
    if members == [] then []
    else Group(members[0]) + Flat(members[1..])
  }

  function Group(s: Symbol): seq<Symbol> {
    match s
    case Plain(_) => [s]
    case Attrib(decl) => FlatMembers(decl)
  }

  function FlatMembers(members: Members): seq<Symbol> {
    match members
    case NoMembers => []
    case Members(list) => Flat(list)
  }

  lemma {:induction false} FlatConcat(a: seq<Symbol>, b: seq<Symbol>)
    ensures Flat(a + b) == Flat(a) + Flat(b)
    decreases |a|
  {
    if a == [] {
      assert a + b == b;
    } else {
      FlatConcat(a[1..], b);
      assert (a + b)[0] == a[0] && (a + b)[1..] == a[1..] + b;
    }
  }

  lemma {:induction false} FlatNext(members: seq<Symbol>, i: nat)
    requires i < |members|
    ensures Flat(members[..i + 1]) == Flat(members[..i]) + Group(members[i])
  {
    assert members[..i + 1] == members[..i] + [members[i]];
    FlatConcat(members[..i], [members[i]]);
    assert [members[i]][1..] == [];
  }

  lemma {:induction false} FlatRest(members: seq<Symbol>, i: nat)
    requires i <= |members|
    ensures Flat(members) == Flat(members[..i]) + Flat(members[i..])
  {
    FlatConcat(members[..i], members[i..]);
    assert members[..i] + members[i..] == members;
  }

  /** The number of symbols. */
  method Dim(members: Members) returns (n: nat)
    ensures n == |FlatMembers(members)|
    decreases members
  {
    n := 0;
    if members.Members? {
      var ms := members.list;
      for i := 0 to |ms|
        invariant n == |Flat(ms[..i])|
      {
        FlatNext(ms, i);
        match ms[i] {
          case Attrib(decl) =>
            var d := Dim(decl);
            n := n + d;
          case Plain(_) =>
            n := n + 1;
        }
      }
      assert ms[..|ms|] == ms;
    }
  }

  /** Symbol number `nth`. When there are not so many, `pn` is advanced by their number; the
    number that is passed on never gets below zero. */
  method GetNth(members: Members, nth: nat, pn: nat) returns (s: Option<Symbol>, pn': nat)
    ensures nth < |FlatMembers(members)| ==> s == Some(FlatMembers(members)[nth]) && pn' == pn
    ensures nth >= |FlatMembers(members)| ==> s == None && pn' == pn + |FlatMembers(members)|
    decreases members
  {
    if members.NoMembers? {
      return None, pn;
    }
    var ms := members.list;
    var n := 0;
    for i := 0 to |ms|
      invariant n == |Flat(ms[..i])| <= nth
    {
      FlatNext(ms, i);
      FlatRest(ms, i + 1);
      match ms[i] {
        case Attrib(decl) =>
          s, n := GetNth(decl, nth - n, n);
          if s.Some? {
            return s, pn;
          }
        case Plain(_) =>
          if n == nth {
            return Some(ms[i]), pn;
          }
          n := n + 1;
      }
    }
    assert ms[..|ms|] == ms;
    return None, pn + n;
  }

  // ----- qualified names -----

  /** The name of a symbol within its parents, `names` beginning with the symbol itself. */
  function Dotted(names: seq<string>): string
    requires names != []
  {
    if |names| == 1 then names[0] else Dotted(names[1..]) + "." + names[0]
  }

  /** The room for names with a byte after each. */
  function Room(names: seq<string>): nat {
    if names == [] then 0 else |names[0]| + 1 + Room(names[1..])
  }

  lemma {:induction false} DottedLength(names: seq<string>)
    requires names != []
    ensures |Dotted(names)| + 1 == Room(names)
  {
    if |names| > 1 { DottedLength(names[1..]); }
  }

  method CopyBack(s: array<char>, q: nat, t: string)
    requires q + |t| <= s.Length
    modifies s
    ensures s[q..q + |t|] == t
    ensures s[..q] == old(s[..q]) && s[q + |t|..] == old(s[q + |t|..])
  {
    for k := 0 to |t|
      invariant s[q..q + k] == t[..k]
      invariant s[..q] == old(s[..q]) && s[q + k..] == old(s[q + k..])
    {
      s[q + k] := t[k];
    }
  }

  /** The first loop, which adds up the room. */
  method LengthOf(names: seq<string>) returns (len: nat)
    ensures len == Room(names)
  {
    len := 0;
    for i := 0 to |names|
      invariant len + Room(names[i..]) == Room(names)
    {
      assert names[i..][1..] == names[i + 1..];
      len := len + |names[i]| + 1;
    }
  }

  /** The buffer is filled from its end and is just large enough. */
  method ToPrettyChars(names: seq<string>) returns (s: array<char>)
    requires names != []
    ensures fresh(s) && s[..] == Dotted(names) + ['\0']
  {
    var len := LengthOf(names);
    s := new char[len];
    var q := len - 1;
    s[q] := '\0';
    var i := 0;
    DottedLength(names);
    while true
      invariant 0 <= i < |names| && q + 1 == Room(names[i..])
      invariant fresh(s) && s.Length == len && q < len
      invariant Dotted(names[i..]) + s[q..] == Dotted(names) + ['\0']
      decreases |names| - i
    {
      assert names[i..][1..] == names[i + 1..];
      ghost var before := s[q..];
      q := PrependName(s, q, names[i]);
      if q == 0 {
        break;
      }
      q := PrependDot(s, q);
      NextName(names, i, before);
      i := i + 1;
    }
    assert s[..] == s[0..];
  }

  method PrependName(s: array<char>, p: nat, t: string) returns (q: nat)
    requires |t| <= p <= s.Length
    modifies s
    ensures q == p - |t| && s[q..] == t + old(s[p..])
  {
    q := p - |t|;
    CopyBack(s, q, t);
    assert s[q..] == s[q..p] + s[p..];
  }

  method PrependDot(s: array<char>, p: nat) returns (q: nat)
    requires 0 < p <= s.Length
    modifies s
    ensures q == p - 1 && s[q..] == ['.'] + old(s[p..])
  {
    q := p - 1;
    s[q] := '.';
  }

  lemma {:induction false} NextName(names: seq<string>, i: nat, before: string)
    requires i + 1 < |names|
    ensures Dotted(names[i..]) + before == Dotted(names[i + 1..]) + (['.'] + (names[i] + before))
  {
    assert names[i..][1..] == names[i + 1..];
  }
}
