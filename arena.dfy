/** The pointer graph of nwk.go as a value: every Node under its Id, with
    its Child, Sib and Parent links as optional Ids. Two ghost-style maps
    make the shape explicit: `kids[k]` is k's child chain (Child, then Sib,
    Sib, ...) and `anc[k]` is k's inclusive ancestor path (k, Parent,
    Parent.Parent, ...). `Linked` ties the links to these maps, which rules
    out cycles and makes Parent and Sib agree. The tree operations are
    defined here as pure functions on this value; the class in forest.dfy
    performs them in place and is proved to reach exactly these states. */
module Arenas {
  import opened Wrappers
  import opened Text

  /** One Go Node without its Id (the Id is its key in the arena). */
  datatype Rec = Rec(child: Option<int>, sib: Option<int>, parent: Option<int>,
                     name: string, length: real, hasLength: bool, marked: bool)

  /** All nodes made so far, their chains and paths, and the next Id
      NewNode will hand out (Go's package variable nodeId). */
  datatype Arena = Arena(nodes: map<int, Rec>, kids: map<int, seq<int>>,
                         anc: map<int, seq<int>>, next: int)

  function First(s: seq<int>): Option<int> {
    if s == [] then None else Some(s[0])
  }

  /** The sibling that follows position i of a chain. */
  function After(s: seq<int>, i: int): Option<int>
    requires 0 <= i < |s|
  {
    if i + 1 < |s| then Some(s[i + 1]) else None
  }

  /** The maps cover exactly the nodes, and every Id is below `next`. */
  predicate Domains(a: Arena) {
    a.kids.Keys == a.nodes.Keys && a.anc.Keys == a.nodes.Keys && a.next >= 1
    && forall k {:trigger a.nodes[k]} :: k in a.nodes ==> 1 <= k < a.next
  }

  /** The local shape of node k: Child points at the head of k's chain;
      a root has no siblings and is its own path;
      any other node sits in its parent's chain and its path is itself
      followed by its parent's path. */
  predicate NodeOk(a: Arena, k: int)
    requires Domains(a) && k in a.nodes
  {
    var r := a.nodes[k];
    r.child == First(a.kids[k])
    && match r.parent
       case None => r.sib == None && a.anc[k] == [k]
       case Some(p) => p in a.nodes && k in a.kids[p] && a.anc[k] == [k] + a.anc[p]
  }

  /** Member i of k's chain has k as its Parent and the next member as Sib. */
  predicate MemberOk(a: Arena, k: int, i: int)
    requires Domains(a) && k in a.nodes && 0 <= i < |a.kids[k]|
  {
    var x := a.kids[k][i];
    x in a.nodes && a.nodes[x].parent == Some(k) && a.nodes[x].sib == After(a.kids[k], i)
  }

  /** The well-formedness of the pointer graph. As every path is one longer
      than its parent's, following Parent always ends at a root. */
  predicate Linked(a: Arena) {
    Domains(a)
    && (forall k {:trigger NodeOk(a, k)} :: k in a.nodes ==> NodeOk(a, k))
    && (forall k, i {:trigger MemberOk(a, k, i)} :: k in a.nodes && 0 <= i < |a.kids[k]| ==> MemberOk(a, k, i))
  }

  // ---------------------------------------------------------------------
  // Chains and paths
  // ---------------------------------------------------------------------

  /** A chain never repeats a node: a repeat would give one node two
      different Sib links further down the chain. */
  lemma {:induction false} ChainNoRepeat(a: Arena, k: int, i: int, j: int)
    requires Linked(a) && k in a.nodes && 0 <= i < j < |a.kids[k]|
    ensures a.kids[k][i] != a.kids[k][j]
    decreases |a.kids[k]| - j
  {
    assert MemberOk(a, k, i);
    assert MemberOk(a, k, j);
    if j + 1 < |a.kids[k]| {
      ChainNoRepeat(a, k, i + 1, j + 1);
    }
  }

  lemma KidsDistinct(a: Arena, k: int)
    requires Linked(a) && k in a.nodes
    ensures Distinct(a.kids[k])
  {
    forall i, j | 0 <= i < j < |a.kids[k]| ensures a.kids[k][i] != a.kids[k][j] {
      ChainNoRepeat(a, k, i, j);
    }
  }

  function IndexOf(s: seq<int>, x: int): (i: nat)
    requires x in s
    ensures i < |s| && s[i] == x && x !in s[..i]
  {
    if s[0] == x then 0 else
      assert s[1..][IndexOf(s[1..], x)] == x;
      assert s[..IndexOf(s[1..], x) + 1] == [s[0]] + s[1..][..IndexOf(s[1..], x)];
      IndexOf(s[1..], x) + 1
  }

  /** The first occurrence of x is at i when s[i] is x and x does not
      occur before i. */
  lemma IndexAt(s: seq<int>, x: int, i: int)
    requires 0 <= i < |s| && s[i] == x && x !in s[..i]
    ensures IndexOf(s, x) == i
  {
  }

  /** The path of an ancestor is a suffix of the path of its descendant. */
  lemma {:induction false} AncSuffix(a: Arena, k: int, x: int)
    requires Linked(a) && k in a.nodes && x in a.anc[k]
    ensures x in a.nodes && |a.anc[x]| <= |a.anc[k]|
    ensures a.anc[k][|a.anc[k]| - |a.anc[x]|..] == a.anc[x]
    decreases |a.anc[k]|
  {
    assert NodeOk(a, k);
    if x != k {
      AncSuffix(a, a.nodes[k].parent.value, x);
    }
  }

  /** A path starts at its node and never visits a node twice: there are
      no cycles. */
  lemma {:induction false} AncDistinct(a: Arena, k: int)
    requires Linked(a) && k in a.nodes
    ensures a.anc[k] != [] && a.anc[k][0] == k
    ensures Distinct(a.anc[k])
    decreases |a.anc[k]|
  {
    assert NodeOk(a, k);
    if a.nodes[k].parent.Some? {
      var p := a.nodes[k].parent.value;
      AncDistinct(a, p);
      if k in a.anc[p] {
        AncSuffix(a, p, k);
        assert false;
      }
      var s := a.anc[k];
      forall i, j | 0 <= i < j < |s| ensures s[i] != s[j] {
        if i > 0 {
          assert s[i] == a.anc[p][i - 1] && s[j] == a.anc[p][j - 1];
        } else {
          assert s[j] in a.anc[p];
        }
      }
    }
  }

  /** An ancestor sits on the path where its own path begins. */
  lemma AncIndex(a: Arena, k: int, x: int)
    requires Linked(a) && k in a.nodes && x in a.anc[k]
    ensures x in a.nodes && IndexOf(a.anc[k], x) == |a.anc[k]| - |a.anc[x]|
  {
    AncSuffix(a, k, x);
    AncDistinct(a, k);
    AncDistinct(a, x);
    var s := a.anc[k];
    assert s[|s| - |a.anc[x]|] == x;
  }

  /** Paths are no longer than the arena is large. */
  lemma DepthBound(a: Arena, k: int)
    requires Linked(a) && k in a.nodes
    ensures |a.anc[k]| <= |a.nodes|
  {
    AncDistinct(a, k);
    forall x | x in a.anc[k] ensures x in a.nodes.Keys {
      AncSuffix(a, k, x);
    }
    DistinctWithin(a.anc[k], a.nodes.Keys);
  }

  /** Following Parent from the j-th node of a path gives the next node of
      the path, or nil at its end. */
  lemma AncStep(a: Arena, v: int, j: int)
    requires Linked(a) && v in a.nodes && 0 <= j < |a.anc[v]|
    ensures a.anc[v][j] in a.nodes
    ensures a.nodes[a.anc[v][j]].parent == if j + 1 < |a.anc[v]| then Some(a.anc[v][j + 1]) else None
  {
    var x := a.anc[v][j];
    AncSuffix(a, v, x);
    AncIndex(a, v, x);
    AncDistinct(a, x);
    assert NodeOk(a, x);
    if a.nodes[x].parent.Some? {
      AncDistinct(a, a.nodes[x].parent.value);
      assert a.anc[v][j + 1] == a.anc[x][1];
    }
  }

  /** b has a's shape: the same nodes, chains, paths and links; only names,
      lengths and marks may differ. */
  predicate SameLinks(a: Arena, b: Arena) {
    a.kids == b.kids && a.anc == b.anc && a.nodes.Keys == b.nodes.Keys
    && forall k {:trigger b.nodes[k]} :: k in a.nodes ==>
         b.nodes[k].child == a.nodes[k].child && b.nodes[k].sib == a.nodes[k].sib
         && b.nodes[k].parent == a.nodes[k].parent
  }

  /** Whether the graph is well linked depends on its shape alone. */
  lemma SameLinksLinked(a: Arena, b: Arena)
    requires Linked(a) && SameLinks(a, b) && b.next >= a.next
    ensures Linked(b)
  {
    forall k | k in b.nodes ensures NodeOk(b, k) {
      assert NodeOk(a, k);
    }
    forall k, i | k in b.nodes && 0 <= i < |b.kids[k]| ensures MemberOk(b, k, i) {
      assert MemberOk(a, k, i);
    }
  }

  // ---------------------------------------------------------------------
  // NewNode (nwk.go:232-238)
  // ---------------------------------------------------------------------

  /** A node as `new(Node)` leaves it: no links, empty label, no length. */
  const Blank := Rec(None, None, None, "", 0.0, false, false)

  /** NewNode: a blank node under the next Id, which is then advanced. */
  function NewNodeSpec(a: Arena): Arena {
    Arena(a.nodes[a.next := Blank], a.kids[a.next := []], a.anc[a.next := [a.next]], a.next + 1)
  }

  /** The new node is a fresh, isolated root; every other node is untouched
      and the arena stays well linked. */
  lemma NewNodeLinked(a: Arena)
    requires Linked(a)
    ensures var r := NewNodeSpec(a);
      Linked(r) && a.next !in a.nodes && r.nodes.Keys == a.nodes.Keys + {a.next}
      && (forall k :: k in a.nodes ==> r.nodes[k] == a.nodes[k] && r.kids[k] == a.kids[k] && r.anc[k] == a.anc[k])
  {
    var r := NewNodeSpec(a);
    assert Domains(r);
    forall k | k in r.nodes ensures NodeOk(r, k) {
      if k != a.next {
        assert NodeOk(a, k);
      }
    }
    forall k, i | k in r.nodes && 0 <= i < |r.kids[k]| ensures MemberOk(r, k, i) {
      assert MemberOk(a, k, i);
    }
  }

  // ---------------------------------------------------------------------
  // AddChild (nwk.go:35-47)
  // ---------------------------------------------------------------------

  /** What AddChild may be given without corrupting the graph: v is a root
      (so it has no siblings to drag along) and n does not lie below v. */
  predicate CanAdopt(a: Arena, n: int, v: int) {
    Linked(a) && n in a.nodes && v in a.nodes
    && a.nodes[v].parent == None && v !in a.anc[n]
  }

  /** n.AddChild(v): v's Parent becomes n, and v is hung after the last
      node of n's child chain (or becomes n's Child when there is none).
      Every path through v grows by n's path. */
  function AddChildSpec(a: Arena, n: int, v: int): (r: Arena)
    requires CanAdopt(a, n, v)

  {
    var ks := a.kids[n];
    var withParent := a.nodes[v := a.nodes[v].(parent := Some(n))];
    var nodes :=
      if ks == [] then withParent[n := withParent[n].(child := Some(v))]
      else
        assert MemberOk(a, n, |ks| - 1);
        withParent[ks[|ks| - 1] := withParent[ks[|ks| - 1]].(sib := Some(v))];
    Arena(nodes, a.kids[n := ks + [v]],
          map k | k in a.anc :: if v in a.anc[k] then a.anc[k] + a.anc[n] else a.anc[k],
          a.next)
  }

  lemma AddChildKeys(a: Arena, n: int, v: int)
    requires CanAdopt(a, n, v)
    ensures AddChildSpec(a, n, v).nodes.Keys == a.nodes.Keys
  {
    AdoptFacts(a, n, v);
  }

  /** Facts about an adoption that the proofs below share: v is neither n
      nor on n's chain, and n is not the last member of its own chain. */
  lemma AdoptFacts(a: Arena, n: int, v: int)
    requires CanAdopt(a, n, v)
    ensures v != n && v !in a.kids[n]
    ensures a.kids[n] != [] ==>
      (a.kids[n][|a.kids[n]| - 1] in a.nodes
       && a.kids[n][|a.kids[n]| - 1] != n && a.kids[n][|a.kids[n]| - 1] != v
       && a.nodes[a.kids[n][|a.kids[n]| - 1]].parent == Some(n))
  {
    assert NodeOk(a, n);
    assert NodeOk(a, v);
    var ks := a.kids[n];
    forall i | 0 <= i < |ks| ensures ks[i] != v && ks[i] != n {
      assert MemberOk(a, n, i);
    }
    if ks != [] {
      assert MemberOk(a, n, |ks| - 1);
    }
  }

  /** How AddChild changes one node's record. */
  lemma AddChildRec(a: Arena, n: int, v: int, k: int)
    requires CanAdopt(a, n, v) && k in a.nodes
    ensures var r := AddChildSpec(a, n, v); var ks := a.kids[n];
      k in r.nodes && r.kids[k] == (if k == n then ks + [v] else a.kids[k])
      && r.nodes[k] ==
        if k == v then a.nodes[k].(parent := Some(n))
        else if k == n && ks == [] then a.nodes[k].(child := Some(v))
        else if ks != [] && k == ks[|ks| - 1] then a.nodes[k].(sib := Some(v))
        else a.nodes[k]
  {
    AdoptFacts(a, n, v);
  }

  /** AddChild keeps every node's local shape. */
  lemma AddChildNode(a: Arena, n: int, v: int, k: int)
    requires CanAdopt(a, n, v) && k in a.nodes
    ensures Domains(AddChildSpec(a, n, v)) && NodeOk(AddChildSpec(a, n, v), k)
  {
    AdoptFacts(a, n, v);
    AddChildHead(a, n, v, k);
    AddChildUp(a, n, v, k);
  }

  lemma AddChildHead(a: Arena, n: int, v: int, k: int)
    requires CanAdopt(a, n, v) && k in a.nodes
    ensures var r := AddChildSpec(a, n, v);
      k in r.nodes && r.nodes[k].child == First(r.kids[k])
  {
    AdoptFacts(a, n, v);
    AddChildRec(a, n, v, k);
    assert NodeOk(a, k);
  }

  lemma AddChildUp(a: Arena, n: int, v: int, k: int)
    requires CanAdopt(a, n, v) && k in a.nodes
    ensures var r := AddChildSpec(a, n, v);
      Domains(r) && k in r.nodes &&
      match r.nodes[k].parent
      case None => r.nodes[k].sib == None && r.anc[k] == [k]
      case Some(p) => p in r.nodes && k in r.kids[p] && r.anc[k] == [k] + r.anc[p]
  {
    var r := AddChildSpec(a, n, v);
    AdoptFacts(a, n, v);
    AddChildRec(a, n, v, k);
    assert NodeOk(a, k);
    assert NodeOk(a, n);
    assert r.anc[n] == a.anc[n];
    if k == v {
      assert r.anc[v] == [v] + a.anc[n];
    } else if a.nodes[k].parent.Some? {
      var p := a.nodes[k].parent.value;
      assert NodeOk(a, p);
      AddChildRec(a, n, v, p);
      if v in a.anc[k] {
        assert r.anc[k] == [k] + (a.anc[p] + a.anc[n]);
      }
    }
  }

  /** AddChild keeps every chain member's links. */
  lemma AddChildMember(a: Arena, n: int, v: int, k: int, i: int)
    requires CanAdopt(a, n, v) && k in a.nodes
    requires 0 <= i < |AddChildSpec(a, n, v).kids[k]|
    ensures Domains(AddChildSpec(a, n, v)) && MemberOk(AddChildSpec(a, n, v), k, i)
  {
    var r := AddChildSpec(a, n, v);
    var ks := a.kids[n];
    AdoptFacts(a, n, v);
    assert NodeOk(a, v);
    if k == n && i == |ks| {
      assert r.kids[k][i] == v;
    } else {
      assert MemberOk(a, k, i);
      assert r.kids[k][i] == a.kids[k][i];
      if k == n {
        if i < |ks| - 1 {
          ChainNoRepeat(a, n, i, |ks| - 1);
        }
      }
    }
  }

  /** AddChild keeps the graph well linked. */
  lemma AddChildLinked(a: Arena, n: int, v: int)
    requires CanAdopt(a, n, v)
    ensures Linked(AddChildSpec(a, n, v))
  {
    var r := AddChildSpec(a, n, v);
    AdoptFacts(a, n, v);
    assert r.nodes.Keys == a.nodes.Keys;
    AddChildNode(a, n, v, n);
    assert Domains(r);
    forall k | k in r.nodes ensures NodeOk(r, k) {
      AddChildNode(a, n, v, k);
    }
    forall k, i | k in r.nodes && 0 <= i < |r.kids[k]| ensures MemberOk(r, k, i) {
      AddChildMember(a, n, v, k, i);
    }
  }

  // ---------------------------------------------------------------------
  // RemoveChild (nwk.go:49-74)
  // ---------------------------------------------------------------------

  /** v.RemoveChild(c): "no children" when v has no Child, "child not
      found" when no member of v's chain has c's Id; nothing changes then.
      Otherwise the member is spliced out of the chain. */
  function RemoveChildSpec(a: Arena, v: int, c: int): (Outcome, Arena)
    requires Linked(a) && v in a.nodes
  {
    if a.nodes[v].child == None then (Fail(NoChildren), a)
    else if c !in a.kids[v] then (Fail(ChildNotFound), a)
    else (Pass, DetachSpec(a, v, c))
  }

  /** Splicing member c out of v's chain: the link that pointed at c (v's
      Child or the previous member's Sib) now points at c's Sib, c loses
      its Sib and Parent, and every path through c now ends at c. */
  function DetachSpec(a: Arena, v: int, c: int): (r: Arena)
    requires Linked(a) && v in a.nodes && c in a.kids[v]

  {
    var ks := a.kids[v];
    var i := IndexOf(ks, c);
    assert MemberOk(a, v, i);
    var spliced :=
      if i == 0 then a.nodes[v := a.nodes[v].(child := a.nodes[c].sib)]
      else
        assert MemberOk(a, v, i - 1);
        a.nodes[ks[i - 1] := a.nodes[ks[i - 1]].(sib := a.nodes[c].sib)];
    Arena(spliced[c := spliced[c].(sib := None, parent := None)],
          a.kids[v := ks[..i] + ks[i + 1..]],
          CutAnc(a.anc, c),
          a.next)
  }

  /** Every path through c cut short at c. */
  function CutAnc(anc: map<int, seq<int>>, c: int): map<int, seq<int>> {
    map k | k in anc :: if c in anc[k] then anc[k][..IndexOf(anc[k], c) + 1] else anc[k]
  }

  /** DetachSpec when c heads v's chain. */
  lemma DetachFirst(a: Arena, v: int, c: int)
    requires Linked(a) && v in a.nodes && a.kids[v] != [] && a.kids[v][0] == c && c in a.nodes
    ensures c in a.kids[v]
    ensures var n := a.nodes[v := a.nodes[v].(child := a.nodes[c].sib)];
      DetachSpec(a, v, c)
        == Arena(n[c := n[c].(sib := None, parent := None)], a.kids[v := a.kids[v][1..]], CutAnc(a.anc, c), a.next)
  {
    var ks := a.kids[v];
    IndexAt(ks, c, 0);
    assert ks[..0] + ks[1..] == ks[1..];
  }

  /** DetachSpec when c follows member w = ks[i - 1] of v's chain ks. */
  lemma DetachLater(a: Arena, v: int, c: int, i: int)
    requires Linked(a) && v in a.nodes && 0 < i < |a.kids[v]| && a.kids[v][i] == c && c !in a.kids[v][..i]
    requires c in a.nodes && a.kids[v][i - 1] in a.nodes
    ensures c in a.kids[v]
    ensures var ks := a.kids[v];
      var n := a.nodes[ks[i - 1] := a.nodes[ks[i - 1]].(sib := a.nodes[c].sib)];
      DetachSpec(a, v, c)
        == Arena(n[c := n[c].(sib := None, parent := None)], a.kids[v := ks[..i] + ks[i + 1..]], CutAnc(a.anc, c), a.next)
  {
    IndexAt(a.kids[v], c, i);
  }

  lemma DetachKeys(a: Arena, v: int, c: int)
    requires Linked(a) && v in a.nodes && c in a.kids[v]
    ensures DetachSpec(a, v, c).nodes.Keys == a.nodes.Keys
  {
    DetachFacts(a, v, c);
  }

  /** Facts about a detachment that the proofs below share. */
  lemma DetachFacts(a: Arena, v: int, c: int)
    requires Linked(a) && v in a.nodes && c in a.kids[v]
    ensures var ks := a.kids[v]; var i := IndexOf(ks, c);
      c in a.nodes && c != v && a.nodes[c].parent == Some(v) && a.nodes[c].sib == After(ks, i)
      && (i > 0 ==> ks[i - 1] in a.nodes && ks[i - 1] != c && ks[i - 1] != v
                    && a.nodes[ks[i - 1]].parent == Some(v))
  {
    var ks := a.kids[v];
    var i := IndexOf(ks, c);
    assert MemberOk(a, v, i);
    assert NodeOk(a, c);
    assert NodeOk(a, v);
    if i > 0 {
      assert MemberOk(a, v, i - 1);
      assert NodeOk(a, ks[i - 1]);
    }
  }

  /** How the detachment changes one node's record and chain. */
  lemma DetachRec(a: Arena, v: int, c: int, k: int)
    requires Linked(a) && v in a.nodes && c in a.kids[v] && k in a.nodes
    ensures var r := DetachSpec(a, v, c); var ks := a.kids[v]; var i := IndexOf(ks, c);
      c in a.nodes && k in r.nodes && r.kids[k] == (if k == v then ks[..i] + ks[i + 1..] else a.kids[k])
      && r.nodes[k] ==
        if k == c then a.nodes[k].(sib := None, parent := None)
        else if i == 0 && k == v then a.nodes[k].(child := a.nodes[c].sib)
        else if i > 0 && k == ks[i - 1] then a.nodes[k].(sib := a.nodes[c].sib)
        else a.nodes[k]
  {
    DetachFacts(a, v, c);
  }

  lemma DetachHead(a: Arena, v: int, c: int, k: int)
    requires Linked(a) && v in a.nodes && c in a.kids[v] && k in a.nodes
    ensures var r := DetachSpec(a, v, c);
      k in r.nodes && r.nodes[k].child == First(r.kids[k])
  {
    var ks := a.kids[v];
    var i := IndexOf(ks, c);
    DetachFacts(a, v, c);
    DetachRec(a, v, c, k);
    assert NodeOk(a, k);
    if k == v {
      if i == 0 {
        assert ks[..0] + ks[1..] == ks[1..];
      } else {
        assert (ks[..i] + ks[i + 1..])[0] == ks[0];
      }
    }
  }

  lemma DetachUp(a: Arena, v: int, c: int, k: int)
    requires Linked(a) && v in a.nodes && c in a.kids[v] && k in a.nodes
    ensures var r := DetachSpec(a, v, c);
      Domains(r) && k in r.nodes &&
      match r.nodes[k].parent
      case None => r.nodes[k].sib == None && r.anc[k] == [k]
      case Some(p) => p in r.nodes && k in r.kids[p] && r.anc[k] == [k] + r.anc[p]
  {
    var r := DetachSpec(a, v, c);
    var ks := a.kids[v];
    var i := IndexOf(ks, c);
    DetachFacts(a, v, c);
    DetachRec(a, v, c, k);
    assert NodeOk(a, k);
    if k == c {
      AncDistinct(a, c);
      assert r.anc[c] == a.anc[c][..1];
    } else if a.nodes[k].parent.Some? {
      var p := a.nodes[k].parent.value;
      DetachRec(a, v, c, p);
      if p == v {
        KidsDistinct(a, v);
        RemoveDistinct(ks, i);
      }
      DetachAnc(a, v, c, k);
    }
  }

  /** Below c, paths are cut right after c; elsewhere they are kept. */
  lemma DetachAnc(a: Arena, v: int, c: int, k: int)
    requires Linked(a) && v in a.nodes && c in a.kids[v] && k in a.nodes
    requires k != c && a.nodes[k].parent.Some?
    ensures var r := DetachSpec(a, v, c); var p := a.nodes[k].parent.value;
      p in r.anc && r.anc[k] == [k] + r.anc[p]
  {
    var r := DetachSpec(a, v, c);
    var p := a.nodes[k].parent.value;
    assert NodeOk(a, k);
    assert a.anc[k] == [k] + a.anc[p];
    if c in a.anc[k] {
      assert c in a.anc[p];
      AncIndex(a, k, c);
      AncIndex(a, p, c);
      var m := IndexOf(a.anc[p], c) + 1;
      assert IndexOf(a.anc[k], c) + 1 == m + 1;
      assert a.anc[k][..m + 1] == [k] + a.anc[p][..m];
    }
  }

  lemma DetachMember(a: Arena, v: int, c: int, k: int, j: int)
    requires Linked(a) && v in a.nodes && c in a.kids[v] && k in a.nodes
    requires 0 <= j < |DetachSpec(a, v, c).kids[k]|
    ensures Domains(DetachSpec(a, v, c)) && MemberOk(DetachSpec(a, v, c), k, j)
  {
    var r := DetachSpec(a, v, c);
    DetachFacts(a, v, c);
    if k == v {
      DetachOwnMember(a, v, c, j);
    } else {
      assert MemberOk(a, k, j);
      DetachRec(a, v, c, a.kids[k][j]);
      DetachRec(a, v, c, k);
    }
  }

  lemma DetachOwnMember(a: Arena, v: int, c: int, j: int)
    requires Linked(a) && v in a.nodes && c in a.kids[v]
    requires 0 <= j < |DetachSpec(a, v, c).kids[v]|
    ensures Domains(DetachSpec(a, v, c)) && MemberOk(DetachSpec(a, v, c), v, j)
  {
    var r := DetachSpec(a, v, c);
    var ks := a.kids[v];
    var i := IndexOf(ks, c);
    DetachFacts(a, v, c);
    DetachRec(a, v, c, v);
    KidsDistinct(a, v);
    var j' := if j < i then j else j + 1;
    assert r.kids[v][j] == ks[j'];
    assert MemberOk(a, v, j');
    DetachRec(a, v, c, ks[j']);
    if j + 1 == i {
      assert After(r.kids[v], j) == After(ks, i);
    } else {
      assert After(r.kids[v], j) == After(ks, j');
    }
  }

  /** RemoveChild keeps the graph well linked, whatever it returns. */
  lemma RemoveChildLinked(a: Arena, v: int, c: int)
    requires Linked(a) && v in a.nodes
    ensures Linked(RemoveChildSpec(a, v, c).1)
  {
    if a.nodes[v].child != None && c in a.kids[v] {
      var r := DetachSpec(a, v, c);
      DetachFacts(a, v, c);
      DetachUp(a, v, c, v);
      assert r.nodes.Keys == a.nodes.Keys;
      forall k | k in r.nodes ensures NodeOk(r, k) {
        DetachHead(a, v, c, k);
        DetachUp(a, v, c, k);
      }
      forall k, j | k in r.nodes && 0 <= j < |r.kids[k]| ensures MemberOk(r, k, j) {
        DetachMember(a, v, c, k, j);
      }
    }
  }

  /** Adding a root as a child and then removing it restores the arena
      exactly, so also every serialization of it. */
  lemma RemoveAfterAdd(a: Arena, n: int, v: int)
    requires CanAdopt(a, n, v)
    ensures Linked(AddChildSpec(a, n, v))
    ensures RemoveChildSpec(AddChildSpec(a, n, v), n, v) == (Pass, a)
  {
    var b := AddChildSpec(a, n, v);
    AdoptedLast(a, n, v);
    AddChildHead(a, n, v, n);
    assert b.nodes[n].child != None;
    RestoreChain(a, n, v);
    RestoreNodes(a, n, v);
    RestorePaths(a, n, v);
    var d := DetachSpec(b, n, v);
    assert d.next == a.next;
    assert d == a;
  }

  lemma AdoptedLast(a: Arena, n: int, v: int)
    requires CanAdopt(a, n, v)
    ensures Linked(AddChildSpec(a, n, v))
    ensures var b := AddChildSpec(a, n, v);
      b.kids[n] == a.kids[n] + [v] && IndexOf(b.kids[n], v) == |a.kids[n]|
  {
    var ks := a.kids[n];
    AdoptFacts(a, n, v);
    AddChildLinked(a, n, v);
    AddChildRec(a, n, v, n);
    assert (ks + [v])[|ks|] == v;
    assert (ks + [v])[..|ks|] == ks;
  }

  lemma RestoreChain(a: Arena, n: int, v: int)
    requires CanAdopt(a, n, v)
    ensures Linked(AddChildSpec(a, n, v)) && v in AddChildSpec(a, n, v).kids[n]
    ensures DetachSpec(AddChildSpec(a, n, v), n, v).kids == a.kids
  {
    var ks := a.kids[n];
    AdoptedLast(a, n, v);
    assert (ks + [v])[..|ks|] + (ks + [v])[|ks| + 1..] == ks;
  }

  lemma RestoreNodes(a: Arena, n: int, v: int)
    requires CanAdopt(a, n, v)
    ensures Linked(AddChildSpec(a, n, v)) && v in AddChildSpec(a, n, v).kids[n]
    ensures DetachSpec(AddChildSpec(a, n, v), n, v).nodes == a.nodes
  {
    var b := AddChildSpec(a, n, v);
    AdoptedLast(a, n, v);
    var d := DetachSpec(b, n, v);
    AddChildKeys(a, n, v);
    DetachKeys(b, n, v);
    forall k | k in a.nodes ensures d.nodes[k] == a.nodes[k] {
      RestoreNode(a, n, v, k);
    }
  }

  lemma RestoreNode(a: Arena, n: int, v: int, k: int)
    requires CanAdopt(a, n, v) && k in a.nodes
    ensures Linked(AddChildSpec(a, n, v)) && v in AddChildSpec(a, n, v).kids[n]
    ensures var d := DetachSpec(AddChildSpec(a, n, v), n, v); k in d.nodes && d.nodes[k] == a.nodes[k]
  {
    var b := AddChildSpec(a, n, v);
    var ks := a.kids[n];
    AdoptedLast(a, n, v);
    AdoptFacts(a, n, v);
    var d := DetachSpec(b, n, v);
    AddChildRec(a, n, v, k);
    DetachRec(b, n, v, k);
    AddChildRec(a, n, v, v);
    if k == v {
      assert NodeOk(a, v);
      assert d.nodes[k] == b.nodes[v].(sib := None, parent := None);
    } else if ks == [] && k == n {
      assert NodeOk(a, n);
      assert d.nodes[k] == b.nodes[n].(child := b.nodes[v].sib);
    } else if ks != [] && k == ks[|ks| - 1] {
      assert MemberOk(a, n, |ks| - 1);
      assert d.nodes[k] == b.nodes[k].(sib := b.nodes[v].sib);
    } else {
      assert d.nodes[k] == b.nodes[k];
    }
  }

  lemma RestorePaths(a: Arena, n: int, v: int)
    requires CanAdopt(a, n, v)
    ensures Linked(AddChildSpec(a, n, v)) && v in AddChildSpec(a, n, v).kids[n]
    ensures DetachSpec(AddChildSpec(a, n, v), n, v).anc == a.anc
  {
    AdoptedLast(a, n, v);
    var d := DetachSpec(AddChildSpec(a, n, v), n, v);
    forall k | k in a.anc ensures k in d.anc && d.anc[k] == a.anc[k] {
      RestorePath(a, n, v, k);
    }
  }

  lemma RestorePath(a: Arena, n: int, v: int, k: int)
    requires CanAdopt(a, n, v) && k in a.nodes
    ensures Linked(AddChildSpec(a, n, v)) && v in AddChildSpec(a, n, v).kids[n]
    ensures var d := DetachSpec(AddChildSpec(a, n, v), n, v); k in d.anc && d.anc[k] == a.anc[k]
  {
    var b := AddChildSpec(a, n, v);
    AdoptedLast(a, n, v);
    var d := DetachSpec(b, n, v);
    if v in a.anc[k] {
      AncSuffix(a, k, v);
      AddChildUp(a, n, v, v);
      assert NodeOk(a, v);
      assert b.anc[v] == [v] + a.anc[n];
      assert b.anc[k] == a.anc[k] + a.anc[n];
      AncIndex(b, k, v);
      assert b.anc[k][..IndexOf(b.anc[k], v) + 1] == a.anc[k];
    } else {
      assert v !in b.anc[k];
    }
  }

  /** A successful RemoveChild takes c, and only c, out of v's chain. */
  lemma RemoveChildChain(a: Arena, v: int, c: int)
    requires Linked(a) && v in a.nodes && c in a.kids[v]
    ensures var (res, r) := RemoveChildSpec(a, v, c);
      res == Pass && v in r.kids && |r.kids[v]| == |a.kids[v]| - 1
      && (forall x :: x in r.kids[v] <==> x in a.kids[v] && x != c)
  {
    var ks := a.kids[v];
    var i := IndexOf(ks, c);
    assert NodeOk(a, v);
    KidsDistinct(a, v);
    RemoveDistinct(ks, i);
    DetachRec(a, v, c, v);
  }

  /** The removed child becomes a root with no siblings. */
  lemma RemoveChildRoot(a: Arena, v: int, c: int)
    requires Linked(a) && v in a.nodes && c in a.kids[v]
    ensures var r := RemoveChildSpec(a, v, c).1;
      c in r.nodes && r.nodes[c].parent == None && r.nodes[c].sib == None && c in r.anc && r.anc[c] == [c]
  {
    assert NodeOk(a, v);
    DetachFacts(a, v, c);
    DetachUp(a, v, c, c);
  }

  /** Every node other than v, c and the member whose Sib was c keeps its
      record. */
  lemma RemoveChildOthers(a: Arena, v: int, c: int)
    requires Linked(a) && v in a.nodes && c in a.kids[v]
    ensures var r := RemoveChildSpec(a, v, c).1;
      forall k :: k in a.nodes && k != v && k != c && (k in a.kids[v] ==> a.nodes[k].sib != Some(c))
        ==> k in r.nodes && r.nodes[k] == a.nodes[k]
  {
    var ks := a.kids[v];
    var i := IndexOf(ks, c);
    assert NodeOk(a, v);
    if i > 0 {
      assert MemberOk(a, v, i - 1);
    }
    forall k | k in a.nodes && k != v && k != c && (k in a.kids[v] ==> a.nodes[k].sib != Some(c))
      ensures k in DetachSpec(a, v, c).nodes && DetachSpec(a, v, c).nodes[k] == a.nodes[k]
    {
      DetachRec(a, v, c, k);
    }
  }

  /** When RemoveChild fails, it says why and changes nothing. */
  lemma RemoveChildErrors(a: Arena, v: int, c: int)
    requires Linked(a) && v in a.nodes
    ensures var (res, r) := RemoveChildSpec(a, v, c);
      (res == Fail(NoChildren) <==> a.kids[v] == [])
      && (res == Fail(ChildNotFound) <==> a.kids[v] != [] && c !in a.kids[v])
      && (res.Fail? ==> r == a)
  {
    assert NodeOk(a, v);
  }

  // ---------------------------------------------------------------------
  // LCA, clearPath and markPath (nwk.go:76-85, 239-250)
  // ---------------------------------------------------------------------

  /** The first element of `s` that also occurs in `t`. */
  function FirstCommon(s: seq<int>, t: seq<int>): (r: Option<int>)
    ensures r.Some? ==> r.value in s && r.value in t
    ensures r.Some? ==> forall j :: 0 <= j < IndexOf(s, r.value) ==> s[j] !in t
    ensures r.None? ==> forall x :: x in s ==> x !in t
  {
    if s == [] then None
    else if s[0] in t then Some(s[0])
    else
      var r := FirstCommon(s[1..], t);
      if r.Some? then
        assert IndexOf(s, r.value) == IndexOf(s[1..], r.value) + 1;
        r
      else r
  }

  /** v.LCA(w): the first node on w's path that is also on v's path. */
  function LcaSpec(a: Arena, v: int, w: int): Option<int>
    requires Linked(a) && v in a.nodes && w in a.nodes
  {
    FirstCommon(a.anc[w], a.anc[v])
  }

  /** The answer is a common ancestor below every other common ancestor;
      there is none exactly when the two nodes lie in different trees. */
  lemma LcaIsLowest(a: Arena, v: int, w: int)
    requires Linked(a) && v in a.nodes && w in a.nodes
    ensures match LcaSpec(a, v, w)
      case Some(x) => x in a.anc[v] && x in a.anc[w] && x in a.nodes
        && forall y :: y in a.anc[v] && y in a.anc[w] ==> y in a.anc[x]
      case None => forall y :: y in a.anc[w] ==> y !in a.anc[v]
  {
    var r := LcaSpec(a, v, w);
    if r.Some? {
      var x := r.value;
      AncSuffix(a, w, x);
      AncIndex(a, w, x);
      forall y | y in a.anc[v] && y in a.anc[w] ensures y in a.anc[x] {
        var j := IndexOf(a.anc[w], y);
        assert j >= IndexOf(a.anc[w], x);
        assert a.anc[w][j] == a.anc[x][j - (|a.anc[w]| - |a.anc[x]|)];
      }
    }
  }

  /** Two nodes that are each other's ancestors are the same node. */
  lemma AncAntisymmetric(a: Arena, x: int, y: int)
    requires Linked(a) && x in a.nodes && y in a.nodes
    requires x in a.anc[y] && y in a.anc[x]
    ensures x == y
  {
    AncSuffix(a, x, y);
    AncSuffix(a, y, x);
    AncDistinct(a, x);
    AncDistinct(a, y);
  }

  /** v.LCA(w) and w.LCA(v) agree. */
  lemma LcaSymmetric(a: Arena, v: int, w: int)
    requires Linked(a) && v in a.nodes && w in a.nodes
    ensures LcaSpec(a, v, w) == LcaSpec(a, w, v)
  {
    LcaIsLowest(a, v, w);
    LcaIsLowest(a, w, v);
    var r := LcaSpec(a, v, w);
    var q := LcaSpec(a, w, v);
    if r.Some? && q.Some? {
      AncAntisymmetric(a, r.value, q.value);
    }
  }

  /** a.LCA(a) is a. */
  lemma LcaSelf(a: Arena, v: int)
    requires Linked(a) && v in a.nodes
    ensures LcaSpec(a, v, v) == Some(v)
  {
    AncDistinct(a, v);
  }

  /** The first common element is found at the first position j of s whose
      element is in t; there is none when no position qualifies. */
  lemma {:induction false} FirstCommonAt(s: seq<int>, t: seq<int>, j: int)
    requires 0 <= j <= |s| && forall i :: 0 <= i < j ==> s[i] !in t
    requires j < |s| ==> s[j] in t
    ensures FirstCommon(s, t) == if j < |s| then Some(s[j]) else None
  {
    if s != [] && j > 0 {
      FirstCommonAt(s[1..], t, j - 1);
    }
  }

  /** clearPath and markPath: set `marked` to b on every node of a path. */
  function MarkPath(nodes: map<int, Rec>, path: seq<int>, b: bool): (r: map<int, Rec>)
    ensures r.Keys == nodes.Keys
  {
    map k | k in nodes :: if k in path then nodes[k].(marked := b) else nodes[k]
  }

  /** The records after LCA's clearPath(v), clearPath(w), markPath(v). */
  function LcaMarks(a: Arena, v: int, w: int): map<int, Rec>
    requires Linked(a) && v in a.nodes && w in a.nodes
  {
    MarkPath(MarkPath(MarkPath(a.nodes, a.anc[v], false), a.anc[w], false), a.anc[v], true)
  }

  /** Marking one more node of the path. */
  lemma MarkPathStep(nodes: map<int, Rec>, p: seq<int>, j: int, b: bool)
    requires 0 <= j < |p| && p[j] in nodes
    ensures MarkPath(nodes, p[..j + 1], b)
      == MarkPath(nodes, p[..j], b)[p[j] := MarkPath(nodes, p[..j], b)[p[j]].(marked := b)]
  {
    assert p[..j + 1] == p[..j] + [p[j]];
  }

  /** Marking changes no link. */
  lemma MarkPathLinks(a: Arena, path: seq<int>, b: bool)
    requires Linked(a)
    ensures SameLinks(a, a.(nodes := MarkPath(a.nodes, path, b)))
    ensures Linked(a.(nodes := MarkPath(a.nodes, path, b)))
  {
    SameLinksLinked(a, a.(nodes := MarkPath(a.nodes, path, b)));
  }

  /** The first node of s that is marked in m. */
  function MarkedOn(m: map<int, Rec>, s: seq<int>): (r: Option<int>)
    ensures r.Some? ==> r.value in s && r.value in m && m[r.value].marked
    ensures r.None? ==> forall i :: 0 <= i < |s| && s[i] in m ==> !m[s[i]].marked
  {
    if s == [] then None
    else if s[0] in m && m[s[0]].marked then Some(s[0])
    else MarkedOn(m, s[1..])
  }

  /** When the marks on s single out the members of t, the first marked
      node of s is the first node of s in t. */
  lemma {:induction false} MarkedOnIsFirstCommon(m: map<int, Rec>, s: seq<int>, t: seq<int>)
    requires forall i :: 0 <= i < |s| ==> s[i] in m && (m[s[i]].marked <==> s[i] in t)
    ensures MarkedOn(m, s) == FirstCommon(s, t)
  {
    if s != [] {
      MarkedOnIsFirstCommon(m, s[1..], t);
    }
  }

  /** Walking up w's path to the first marked node after LCA's marking
      finds v.LCA(w). */
  lemma LcaFound(a: Arena, v: int, w: int)
    requires Linked(a) && v in a.nodes && w in a.nodes
    ensures MarkedOn(LcaMarks(a, v, w), a.anc[w]) == LcaSpec(a, v, w)
  {
    var q := a.anc[w];
    AncInArena(a, w);
    forall i | 0 <= i < |q|
      ensures q[i] in LcaMarks(a, v, w) && (LcaMarks(a, v, w)[q[i]].marked <==> q[i] in a.anc[v])
    {
      LcaMarkAt(a, v, w, q[i]);
    }
    MarkedOnIsFirstCommon(LcaMarks(a, v, w), q, a.anc[v]);
  }

  /** On w's path, the marks LCA leaves are exactly v's path. */
  lemma LcaMarkAt(a: Arena, v: int, w: int, k: int)
    requires Linked(a) && v in a.nodes && w in a.nodes && k in a.nodes && k in a.anc[w]
    ensures k in LcaMarks(a, v, w) && (LcaMarks(a, v, w)[k].marked <==> k in a.anc[v])
  {
  }

  /** After the marking, a node on either path is marked exactly when it is
      on v's path; marks elsewhere and all other fields are untouched. */
  lemma LcaMarksMeaning(a: Arena, v: int, w: int)
    requires Linked(a) && v in a.nodes && w in a.nodes
    ensures var m := LcaMarks(a, v, w);
      m.Keys == a.nodes.Keys
      && forall k :: k in m ==>
         m[k].(marked := a.nodes[k].marked) == a.nodes[k]
         && m[k].marked == if k in a.anc[v] then true else if k in a.anc[w] then false else a.nodes[k].marked
  {
  }

  // ---------------------------------------------------------------------
  // UpDistance (nwk.go:87-99)
  // ---------------------------------------------------------------------

  /** Every member of s is a node of the arena. */
  predicate AllIn(a: Arena, s: seq<int>) {
    forall i :: 0 <= i < |s| ==> s[i] in a.nodes
  }

  /** The sum of the branch lengths of the nodes on a path. */
  function PathLength(a: Arena, s: seq<int>): real
    requires AllIn(a, s)
  {
    if s == [] then 0.0 else a.nodes[s[0]].length + PathLength(a, s[1..])
  }

  lemma {:induction false} PathLengthConcat(a: Arena, s: seq<int>, t: seq<int>)
    requires AllIn(a, s) && AllIn(a, t)
    ensures AllIn(a, s + t)
    ensures PathLength(a, s + t) == PathLength(a, s) + PathLength(a, t)
  {
    if s != [] {
      assert (s + t)[1..] == s[1..] + t;
      PathLengthConcat(a, s[1..], t);
    } else {
      assert s + t == t;
    }
  }

  lemma AncInArena(a: Arena, k: int)
    requires Linked(a) && k in a.nodes
    ensures AllIn(a, a.anc[k])
  {
    forall i | 0 <= i < |a.anc[k]| ensures a.anc[k][i] in a.nodes {
      AncSuffix(a, k, a.anc[k][i]);
    }
  }

  /** v.UpDistance(w): the lengths of v and its ancestors strictly below w
      added up; an error (a process exit in nwk.go) when w is not on
      v's path. */
  function UpDistanceSpec(a: Arena, v: int, w: int): Result<real>
    requires Linked(a) && v in a.nodes
  {
    AncInArena(a, v);
    if w in a.anc[v] then Ok(PathLength(a, a.anc[v][..IndexOf(a.anc[v], w)]))
    else Err(NotAncestor)
  }

  /** The distance from a node to itself is 0. */
  lemma UpDistanceSelf(a: Arena, v: int)
    requires Linked(a) && v in a.nodes
    ensures UpDistanceSpec(a, v, v) == Ok(0.0)
  {
    AncDistinct(a, v);
  }

  /** The distance to the parent is the node's own length. */
  lemma UpDistanceParent(a: Arena, v: int)
    requires Linked(a) && v in a.nodes && a.nodes[v].parent.Some?
    ensures UpDistanceSpec(a, v, a.nodes[v].parent.value) == Ok(a.nodes[v].length)
  {
    assert NodeOk(a, v);
    var p := a.nodes[v].parent.value;
    AncDistinct(a, v);
    AncDistinct(a, p);
    AncInArena(a, v);
    assert a.anc[v] == [v] + a.anc[p];
    assert a.anc[v][1] == p;
    assert IndexOf(a.anc[v], p) == 1;
    assert a.anc[v][..1] == [v];
    assert PathLength(a, [v]) == a.nodes[v].length + PathLength(a, []);
  }

  /** A prefix reaching into a suffix t of s splits at the start of t. */
  lemma SuffixCompose(s: seq<int>, t: seq<int>, i: int, j: int)
    requires 0 <= i <= |s| && s[i..] == t && 0 <= j < |t|
    ensures s[i + j] == t[j] && t[j] in s
    ensures s[..i + j] == s[..i] + t[..j]
  {
    assert s[i + j] == s[i..][j];
    assert s[i..i + j] == t[..j];
    assert s[..i + j] == s[..i] + s[i..i + j];
  }

  /** Going up from v to w and then from w to u walks the path of v up to u. */
  lemma AncPrefixCompose(a: Arena, v: int, w: int, u: int)
    requires Linked(a) && v in a.nodes && w in a.nodes && w in a.anc[v] && u in a.anc[w]
    ensures u in a.anc[v]
    ensures a.anc[v][..IndexOf(a.anc[v], u)]
      == a.anc[v][..IndexOf(a.anc[v], w)] + a.anc[w][..IndexOf(a.anc[w], u)]
  {
    AncSuffix(a, v, w);
    AncSuffix(a, w, u);
    AncIndex(a, v, w);
    AncIndex(a, w, u);
    var i := IndexOf(a.anc[v], w);
    var j := IndexOf(a.anc[w], u);
    SuffixCompose(a.anc[v], a.anc[w], i, j);
    AncIndex(a, v, u);
  }

  /** Distances add up along a path: from v to u through w. */
  lemma UpDistanceAdd(a: Arena, v: int, w: int, u: int)
    requires Linked(a) && v in a.nodes && w in a.nodes && w in a.anc[v] && u in a.anc[w]
    ensures UpDistanceSpec(a, w, u).Ok? && UpDistanceSpec(a, v, w).Ok?
    ensures UpDistanceSpec(a, v, u) ==
      Ok(UpDistanceSpec(a, v, w).value + UpDistanceSpec(a, w, u).value)
  {
    AncPrefixCompose(a, v, w, u);
    AncInArena(a, v);
    AncInArena(a, w);
    var p := a.anc[v][..IndexOf(a.anc[v], w)];
    var q := a.anc[w][..IndexOf(a.anc[w], u)];
    assert AllIn(a, p) && AllIn(a, q);
    PathLengthConcat(a, p, q);
  }

  // ---------------------------------------------------------------------
  // UniformLabels and label (nwk.go:101-104, 251-258)
  // ---------------------------------------------------------------------

  /** How far k is from the end of its parent's chain (0 for a root). */
  function Rank(a: Arena, k: int): nat
    requires Linked(a) && k in a.nodes
  {
    assert NodeOk(a, k);
    match a.nodes[k].parent
    case None => 0
    case Some(p) => |a.kids[p]| - IndexOf(a.kids[p], k)
  }

  /** k followed by its later siblings: the rest of its parent's chain from k on. */
  function Later(a: Arena, k: int): (r: seq<int>)
    requires Linked(a) && k in a.nodes
    ensures r != [] && r[0] == k
  {
    assert NodeOk(a, k);
    match a.nodes[k].parent
    case None => [k]
    case Some(p) => a.kids[p][IndexOf(a.kids[p], k)..]
  }

  /** Child leads one level down, to the head of k's chain. */
  lemma ChildStep(a: Arena, k: int)
    requires Linked(a) && k in a.nodes && a.nodes[k].child.Some?
    ensures var c := a.nodes[k].child.value;
      c in a.nodes && a.nodes[c].parent == Some(k)
      && |a.anc[c]| == |a.anc[k]| + 1 && |a.anc[c]| <= |a.nodes|
      && Later(a, c) == a.kids[k]
  {
    assert NodeOk(a, k);
    assert MemberOk(a, k, 0);
    var c := a.kids[k][0];
    assert NodeOk(a, c);
    DepthBound(a, c);
  }

  /** Sib leads one place along the chain, at the same depth. */
  lemma SibStep(a: Arena, k: int)
    requires Linked(a) && k in a.nodes && a.nodes[k].sib.Some?
    ensures var s := a.nodes[k].sib.value;
      s in a.nodes && |a.anc[s]| == |a.anc[k]| && Rank(a, s) < Rank(a, k)
      && Later(a, k) == [k] + Later(a, s)
  {
    assert NodeOk(a, k);
    var p := a.nodes[k].parent.value;
    var ks := a.kids[p];
    var i := IndexOf(ks, k);
    assert MemberOk(a, p, i);
    assert MemberOk(a, p, i + 1);
    var s := ks[i + 1];
    assert NodeOk(a, s);
    assert NodeOk(a, p);
    KidsDistinct(a, p);
    assert IndexOf(ks, s) == i + 1;
    assert ks[i..] == [k] + ks[i + 1..];
  }

  /** A node without Sib ends its chain. */
  lemma LastStep(a: Arena, k: int)
    requires Linked(a) && k in a.nodes && a.nodes[k].sib.None?
    ensures Later(a, k) == [k]
  {
    assert NodeOk(a, k);
    if a.nodes[k].parent.Some? {
      var p := a.nodes[k].parent.value;
      assert MemberOk(a, p, IndexOf(a.kids[p], k));
    }
  }

  /** label(v): the nodes the Go recursion visits, following Child and then
      Sib from v. */
  function Reach(a: Arena, k: int): (r: set<int>)
    requires Linked(a) && k in a.nodes
    ensures k in r
    decreases |a.nodes| - |a.anc[k]|, Rank(a, k)
  {
    DepthBound(a, k);
    var below := if a.nodes[k].child.None? then {} else (ChildStep(a, k); Reach(a, a.nodes[k].child.value));
    var after := if a.nodes[k].sib.None? then {} else (SibStep(a, k); Reach(a, a.nodes[k].sib.value));
    {k} + below + after
  }

  /** k is an ancestor of x exactly when x is k or one of k's children is an
      ancestor of x. */
  lemma DescendantStep(a: Arena, k: int, x: int)
    requires Linked(a) && k in a.nodes && x in a.nodes
    ensures k in a.anc[x] <==> x == k || exists y :: y in a.kids[k] && y in a.anc[x]
  {
    AncDistinct(a, x);
    AncDistinct(a, k);
    if x != k && k in a.anc[x] {
      AncSuffix(a, x, k);
      var m := |a.anc[x]| - |a.anc[k]|;
      var c := a.anc[x][m - 1];
      AncIndex(a, x, c);
      AncSuffix(a, x, c);
      assert IndexOf(a.anc[x], c) == m - 1;
      assert a.anc[x][m - 1..] == [c] + a.anc[x][m..];
      assert a.anc[c] == [c] + a.anc[k];
      ParentOfStep(a, c, k);
    }
    forall y | y in a.kids[k] && y in a.anc[x] ensures k in a.anc[x] {
      ChildAnc(a, k, y);
      AncSuffix(a, x, y);
      var d := |a.anc[x]| - |a.anc[y]|;
      assert a.anc[y][1] == k;
      assert a.anc[x][d + 1] == a.anc[y][1];
    }
  }

  /** A node whose path is itself followed by k's path is a child of k. */
  lemma ParentOfStep(a: Arena, c: int, k: int)
    requires Linked(a) && c in a.nodes && k in a.nodes && a.anc[c] == [c] + a.anc[k]
    ensures c in a.kids[k]
  {
    assert NodeOk(a, c);
    AncDistinct(a, k);
    if a.nodes[c].parent.Some? {
      var p := a.nodes[c].parent.value;
      AncDistinct(a, p);
      assert a.anc[p] == a.anc[c][1..] == a.anc[k];
    }
  }

  /** The path of a chain member is the member followed by its parent's path. */
  lemma ChildAnc(a: Arena, k: int, y: int)
    requires Linked(a) && k in a.nodes && y in a.kids[k]
    ensures y in a.nodes && a.anc[y] == [y] + a.anc[k]
  {
    assert MemberOk(a, k, IndexOf(a.kids[k], y));
    assert NodeOk(a, y);
  }

  /** The nodes label(v) visits are v's later siblings (v included) and all
      their descendants. */
  lemma {:induction false} ReachMeaning(a: Arena, k: int, x: int)
    requires Linked(a) && k in a.nodes
    ensures x in Reach(a, k) <==> x in a.nodes && exists y :: y in Later(a, k) && y in a.anc[x]
    decreases |a.nodes| - |a.anc[k]|, Rank(a, k)
  {
    DepthBound(a, k);
    ReachInArena(a, k);
    if x in a.nodes {
      DescendantStep(a, k, x);
      AncDistinct(a, x);
    }
    if a.nodes[k].child.Some? {
      ChildStep(a, k);
      ReachMeaning(a, a.nodes[k].child.value, x);
    } else {
      assert NodeOk(a, k);
    }
    if a.nodes[k].sib.Some? {
      SibStep(a, k);
      ReachMeaning(a, a.nodes[k].sib.value, x);
    } else {
      LastStep(a, k);
    }
  }

  /** label(v) visits only nodes of the arena. */
  lemma {:induction false} ReachInArena(a: Arena, k: int)
    requires Linked(a) && k in a.nodes
    ensures Reach(a, k) <= a.nodes.Keys
    decreases |a.nodes| - |a.anc[k]|, Rank(a, k)
  {
    DepthBound(a, k);
    if a.nodes[k].child.Some? {
      ChildStep(a, k);
      ReachInArena(a, a.nodes[k].child.value);
    }
    if a.nodes[k].sib.Some? {
      SibStep(a, k);
      ReachInArena(a, a.nodes[k].sib.value);
    }
  }

  /** v.UniformLabels(pre): every node label(v) visits is named pre followed
      by its Id in decimal. */
  function RelabelSpec(a: Arena, v: int, pre: string): Arena
    requires Linked(a) && v in a.nodes
  {
    a.(nodes := map k | k in a.nodes :: if k in Reach(a, v) then a.nodes[k].(name := pre + Itoa(k)) else a.nodes[k])
  }

  /** Relabelling names exactly v's later siblings and their descendants,
      changes no other field and no other node, and keeps the graph well
      linked. */
  lemma RelabelEffect(a: Arena, v: int, pre: string)
    requires Linked(a) && v in a.nodes
    ensures var r := RelabelSpec(a, v, pre);
      Linked(r) && r.nodes.Keys == a.nodes.Keys
      && forall k :: k in a.nodes ==>
           r.nodes[k].(name := a.nodes[k].name) == a.nodes[k]
           && r.nodes[k].name == if exists y :: y in Later(a, v) && y in a.anc[k] then pre + Itoa(k) else a.nodes[k].name
  {
    var r := RelabelSpec(a, v, pre);
    forall k | k in a.nodes
      ensures r.nodes[k].name == if exists y :: y in Later(a, v) && y in a.anc[k] then pre + Itoa(k) else a.nodes[k].name
    {
      ReachMeaning(a, v, k);
    }
    forall k | k in r.nodes ensures NodeOk(r, k) {
      assert NodeOk(a, k);
    }
    forall k, i | k in r.nodes && 0 <= i < |r.kids[k]| ensures MemberOk(r, k, i) {
      assert MemberOk(a, k, i);
    }
  }

  /** Relabelling twice is relabelling once. */
  lemma RelabelIdempotent(a: Arena, v: int, pre: string)
    requires Linked(a) && v in a.nodes
    ensures Linked(RelabelSpec(a, v, pre))
    ensures RelabelSpec(RelabelSpec(a, v, pre), v, pre) == RelabelSpec(a, v, pre)
  {
    var r := RelabelSpec(a, v, pre);
    RelabelEffect(a, v, pre);
    assert NodeOk(a, v);
    assert Later(r, v) == Later(a, v);
    forall k | k in a.nodes ensures k in Reach(r, v) <==> k in Reach(a, v) {
      ReachMeaning(a, v, k);
      ReachMeaning(r, v, k);
    }
    assert RelabelSpec(r, v, pre).nodes == r.nodes;
  }

  /** label(v) visits the same nodes in two arenas of the same shape. */
  lemma {:induction false} ReachSameLinks(a: Arena, b: Arena, k: int)
    requires Linked(a) && Linked(b) && SameLinks(a, b) && k in a.nodes
    ensures Reach(b, k) == Reach(a, k) && Rank(b, k) == Rank(a, k)
    decreases |a.nodes| - |a.anc[k]|, Rank(a, k)
  {
    DepthBound(a, k);
    assert NodeOk(a, k);
    if a.nodes[k].child.Some? {
      ChildStep(a, k);
      ReachSameLinks(a, b, a.nodes[k].child.value);
    }
    if a.nodes[k].sib.Some? {
      SibStep(a, k);
      ReachSameLinks(a, b, a.nodes[k].sib.value);
    }
  }

  /** b is a with the nodes of R, and only those, named pre followed by
      their Id. */
  predicate Relabelled(a: Arena, b: Arena, R: set<int>, pre: string) {
    SameLinks(a, b) && b.next == a.next
    && forall x {:trigger b.nodes[x]} :: x in a.nodes ==>
         b.nodes[x] == if x in R then a.nodes[x].(name := pre + Itoa(x)) else a.nodes[x]
  }

  lemma RelabelledNothing(a: Arena, pre: string)
    ensures Relabelled(a, a, {}, pre)
  {
  }

  /** Naming node k alone. */
  lemma RelabelOne(d: Arena, k: int, pre: string)
    requires k in d.nodes
    ensures Relabelled(d, d.(nodes := d.nodes[k := d.nodes[k].(name := pre + Itoa(k))]), {k}, pre)
  {
  }

  /** Names do not affect the shape. */
  lemma RelabelledLinked(a: Arena, b: Arena, R: set<int>, pre: string)
    requires Linked(a) && Relabelled(a, b, R, pre)
    ensures Linked(b)
  {
    SameLinksLinked(a, b);
  }

  /** Relabelling in two rounds relabels the union. */
  lemma RelabelledTrans(a: Arena, b: Arena, c: Arena, R: set<int>, S: set<int>, pre: string)
    requires Relabelled(a, b, R, pre) && Relabelled(b, c, S, pre)
    ensures Relabelled(a, c, R + S, pre)
  {
  }

  /** The relabelling of v's part of the arena is the arena RelabelSpec gives. */
  lemma RelabelledIsSpec(a: Arena, b: Arena, v: int, pre: string)
    requires Linked(a) && v in a.nodes && Relabelled(a, b, Reach(a, v), pre)
    ensures b == RelabelSpec(a, v, pre)
  {
    var c := RelabelSpec(a, v, pre);
    assert b.nodes.Keys == c.nodes.Keys;
    forall k | k in c.nodes ensures b.nodes[k] == c.nodes[k] {
      assert k in a.nodes;
    }
    assert b.nodes == c.nodes;
  }

  /** What label(v.Child) visits. */
  function ChildPart(a: Arena, k: int): set<int>
    requires Linked(a) && k in a.nodes
  {
    if a.nodes[k].child.None? then {} else (ChildStep(a, k); Reach(a, a.nodes[k].child.value))
  }

  /** What label(v.Sib) visits. */
  function SibPart(a: Arena, k: int): set<int>
    requires Linked(a) && k in a.nodes
  {
    if a.nodes[k].sib.None? then {} else (SibStep(a, k); Reach(a, a.nodes[k].sib.value))
  }

  /** label(v)'s recursion: what label(v.Child) and label(v.Sib) visit,
      and then v's own node. */
  lemma ReachUnfold(a: Arena, k: int)
    requires Linked(a) && k in a.nodes
    ensures Reach(a, k) == ChildPart(a, k) + SibPart(a, k) + {k}
  {
  }

  /** The two recursive calls of label(v) and the final naming of v
      together relabel what label(v) visits. */
  lemma LabelAssemble(a: Arena, b: Arena, d: Arena, e: Arena, k: int, below: set<int>, after: set<int>, pre: string)
    requires Linked(a) && k in a.nodes && below == ChildPart(a, k) && after == SibPart(a, k)
    requires Relabelled(a, b, below, pre) && Relabelled(b, d, after, pre)
    requires k in d.nodes && e.nodes == d.nodes[k := d.nodes[k].(name := pre + Itoa(k))]
    requires e.kids == d.kids && e.anc == d.anc && e.next == d.next
    ensures Relabelled(a, e, Reach(a, k), pre) && Linked(e)
  {
    assert e == d.(nodes := d.nodes[k := d.nodes[k].(name := pre + Itoa(k))]);
    RelabelledTrans(a, b, d, ChildPart(a, k), SibPart(a, k), pre);
    RelabelOne(d, k, pre);
    RelabelledTrans(a, d, e, ChildPart(a, k) + SibPart(a, k), {k}, pre);
    ReachUnfold(a, k);
    RelabelledLinked(a, e, Reach(a, k), pre);
  }
}
