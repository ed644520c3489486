/** Reading back what writeTree writes. `ToTree` views a node of the heap
    as the Tree value of tree.dfy; `NewickTokens` is the token sequence of
    a written tree as the tokenizer hands it to the builder. The main
    result, BuildReadsWriteTree, is that the builder run on the tokens of
    any tree whose root has children and whose labels and lengths read
    back rebuilds a tree that writeTree renders exactly as the input tree. */
module Reading {
  import opened Wrappers
  import opened Text
  import opened NewickTree
  import opened Arenas
  import opened Builder

  // ---------------------------------------------------------------------
  // The heap seen as a Tree
  // ---------------------------------------------------------------------

  /** The subtree at node k: its Id, Label, Length and HasLength and the
      subtrees of its child chain in order. */
  function ToTree(a: Arena, k: int): (t: Tree)
    requires Linked(a) && k in a.nodes
    ensures t.id == k && t.name == a.nodes[k].name && |t.kids| == |a.kids[k]|
    decreases |a.nodes| - |a.anc[k]|, 1
  {
    DepthBound(a, k);
    var ks := a.kids[k];
    Node(k, a.nodes[k].name, a.nodes[k].length, a.nodes[k].hasLength,
         seq(|ks|, i requires 0 <= i < |ks| => ChildTree(a, k, i)))
  }

  function ChildTree(a: Arena, k: int, i: int): (t: Tree)
    requires Linked(a) && k in a.nodes && 0 <= i < |a.kids[k]|
    ensures t.id == a.kids[k][i]
    decreases |a.nodes| - |a.anc[k]|, 0
  {
    DepthBound(a, k);
    assert MemberOk(a, k, i);
    var c := a.kids[k][i];
    assert NodeOk(a, c);
    DepthBound(a, c);
    ToTree(a, c)
  }

  // ---------------------------------------------------------------------
  // The tokens of a written tree
  // ---------------------------------------------------------------------

  /** The label token (absent for an empty name) and the length token. */
  function LabelTokens(t: Tree, hasParent: bool, fmt: real -> string): seq<string> {
    (if t.name == [] then [] else [t.name])
    + (if t.hasLength && hasParent then [":" + fmt(t.length)] else [])
  }

  function SubtreeTokens(t: Tree, hasParent: bool, fmt: real -> string): seq<string>
    decreases Size(t), 1
  {
    (if t.kids == [] then [] else ["("] + JoinedTokens(t.kids, fmt) + [")"])
    + LabelTokens(t, hasParent, fmt)
  }

  function JoinedTokens(ts: seq<Tree>, fmt: real -> string): seq<string>
    decreases ForestSize(ts), 2
  {
    if ts == [] then []
    else if |ts| == 1 then ChainSmaller(ts); SubtreeTokens(ts[0], true, fmt)
    else ChainSmaller(ts); SubtreeTokens(ts[0], true, fmt) + [","] + JoinedTokens(ts[1..], fmt)
  }

  /** The tokens of Newick(t): the root's and then `;`. */
  function NewickTokens(t: Tree, fmt: real -> string): seq<string> {
    SubtreeTokens(t, false, fmt) + [";"]
  }

  /** A name the builder takes for a label: empty (no token) or not
      starting with a structural character. */
  predicate NameReadable(name: string) {
    name == [] || name[0] !in Structural
  }

  /** Every name below the root reads back, and every length written
      parses back to itself. */
  predicate Readable(t: Tree, fmt: real -> string, parse: string -> Option<real>)
    decreases t
  {
    NameReadable(t.name) && (t.hasLength ==> parse(fmt(t.length)) == Some(t.length))
    && forall i :: 0 <= i < |t.kids| ==> Readable(t.kids[i], fmt, parse)
  }

  // ---------------------------------------------------------------------
  // Running token sequences one after the other
  // ---------------------------------------------------------------------

  /** Without a `;` in the first part, running a concatenation runs the
      first part and then the second from where the first ended. */
  lemma {:induction false} RunConcat(s: Parse, t1: seq<string>, t2: seq<string>, parse: string -> Option<real>)
    requires Sound(s) && ";" !in t1
    requires Run(s, t1, parse).Ok?
    ensures Run(s, t1 + t2, parse) == Run(Run(s, t1, parse).value, t2, parse)
    decreases |t1|
  {
    if t1 == [] {
      assert t1 + t2 == t2;
    } else {
      assert (t1 + t2)[0] == t1[0] && (t1 + t2)[1..] == t1[1..] + t2;
      var s1 := Step(s, t1[0], parse).value;
      assert t1 == [t1[0]] + t1[1..];
      RunConcat(s1, t1[1..], t2, parse);
    }
  }

  // ---------------------------------------------------------------------
  // A node of the heap built after a Tree
  // ---------------------------------------------------------------------

  /** No token of a tree whose names read back is `;`, so the builder's
      loop only stops at the end. */
  lemma {:induction false} SubtreeNoStop(t: Tree, hasParent: bool, fmt: real -> string, parse: string -> Option<real>)
    requires NameReadable(t.name) && forall i :: 0 <= i < |t.kids| ==> Readable(t.kids[i], fmt, parse)
    ensures ";" !in SubtreeTokens(t, hasParent, fmt)
    decreases Size(t), 1
  {
    assert ";"[0] in Structural;
    if t.kids != [] {
      JoinedNoStop(t.kids, fmt, parse);
    }
  }

  lemma {:induction false} JoinedNoStop(ts: seq<Tree>, fmt: real -> string, parse: string -> Option<real>)
    requires forall i :: 0 <= i < |ts| ==> Readable(ts[i], fmt, parse)
    ensures ";" !in JoinedTokens(ts, fmt)
    decreases ForestSize(ts), 2
  {
    if ts != [] {
      ChainSmaller(ts);
      assert Readable(ts[0], fmt, parse);
      SubtreeNoStop(ts[0], true, fmt, parse);
      if |ts| > 1 {
        assert forall i :: 0 <= i < |ts[1..]| ==> ts[1..][i] == ts[i + 1];
        JoinedNoStop(ts[1..], fmt, parse);
      }
    }
  }

  /** Node x carries t's name, t's length where it is written (below the
      root), and a chain of children built after t's children, each with
      an Id in [lo, hi). Ids are not compared. */
  predicate Built(a: Arena, x: int, t: Tree, hasParent: bool, lo: int, hi: int)
    decreases t
  {
    x in a.nodes && x in a.kids && a.nodes[x].name == t.name
    && (hasParent ==> a.nodes[x].hasLength == t.hasLength && (t.hasLength ==> a.nodes[x].length == t.length))
    && |a.kids[x]| == |t.kids|
    && forall i :: 0 <= i < |t.kids| ==>
         lo <= a.kids[x][i] < hi && Built(a, a.kids[x][i], t.kids[i], true, lo, hi)
  }

  /** Node k has the same label, length and child chain in b as in a. */
  predicate Keeps(a: Arena, b: Arena, k: int) {
    k in a.nodes && k in a.kids ==>
      k in b.nodes && k in b.kids && b.kids[k] == a.kids[k]
      && b.nodes[k].name == a.nodes[k].name && b.nodes[k].length == a.nodes[k].length
      && b.nodes[k].hasLength == a.nodes[k].hasLength
  }

  /** A built node stays built while it and the Ids in [lo, hi) are kept. */
  lemma {:induction false} BuiltFrame(a: Arena, b: Arena, x: int, t: Tree, hasParent: bool, lo: int, hi: int)
    requires Built(a, x, t, hasParent, lo, hi) && Keeps(a, b, x)
    requires forall k :: lo <= k < hi ==> Keeps(a, b, k)
    ensures Built(b, x, t, hasParent, lo, hi)
    decreases t
  {
    forall i | 0 <= i < |t.kids|
      ensures lo <= b.kids[x][i] < hi && Built(b, b.kids[x][i], t.kids[i], true, lo, hi)
    {
      BuiltFrame(a, b, a.kids[x][i], t.kids[i], true, lo, hi);
    }
  }

  /** A wider Id range holds as well. */
  lemma {:induction false} BuiltWiden(a: Arena, x: int, t: Tree, hasParent: bool, lo: int, hi: int, lo2: int, hi2: int)
    requires Built(a, x, t, hasParent, lo, hi) && lo2 <= lo && hi <= hi2
    ensures Built(a, x, t, hasParent, lo2, hi2)
    decreases t
  {
    forall i | 0 <= i < |t.kids|
      ensures lo2 <= a.kids[x][i] < hi2 && Built(a, a.kids[x][i], t.kids[i], true, lo2, hi2)
    {
      BuiltWiden(a, a.kids[x][i], t.kids[i], true, lo, hi, lo2, hi2);
    }
  }

  /** A node built after t is written as t is. */
  lemma {:induction false} SubtreeOfBuilt(a: Arena, x: int, t: Tree, hasParent: bool, lo: int, hi: int, fmt: real -> string)
    requires Linked(a) && Built(a, x, t, hasParent, lo, hi)
    ensures Subtree(ToTree(a, x), hasParent, fmt) == Subtree(t, hasParent, fmt)
    decreases t, 1
  {
    var u := ToTree(a, x);
    assert PrintLabel(u, hasParent, fmt) == PrintLabel(t, hasParent, fmt);
    if t.kids != [] {
      forall i | 0 <= i < |t.kids| ensures Subtree(u.kids[i], true, fmt) == Subtree(t.kids[i], true, fmt) {
        assert u.kids[i] == ChildTree(a, x, i);
        SubtreeOfBuilt(a, a.kids[x][i], t.kids[i], true, lo, hi, fmt);
      }
      JoinedAlike(u.kids, t.kids, fmt);
    }
  }

  /** Chains whose members are written alike are joined alike. */
  lemma {:induction false} JoinedAlike(us: seq<Tree>, ts: seq<Tree>, fmt: real -> string)
    requires |us| == |ts|
    requires forall i :: 0 <= i < |ts| ==> Subtree(us[i], true, fmt) == Subtree(ts[i], true, fmt)
    ensures Joined(us, fmt) == Joined(ts, fmt)
    decreases |ts|
  {
    if |ts| > 1 {
      JoinedAlike(us[1..], ts[1..], fmt);
    }
  }

  // ---------------------------------------------------------------------
  // What `(` and `,` do to a fresh part of the heap
  // ---------------------------------------------------------------------

  /** Node k has an entry in each map of the heap. */
  predicate Has(a: Arena, k: int) {
    k in a.nodes && k in a.kids && k in a.anc
  }

  /** Every node has an entry in each map and an Id below the next one. */
  predicate Bounded(a: Arena) {
    forall k :: k in a.nodes ==> k in a.kids && k in a.anc && k < a.next
  }

  /** Node k, if a has it, has the same record and chain in b. */
  predicate Same(a: Arena, b: Arena, k: int) {
    Has(a, k) ==> Has(b, k) && b.nodes[k] == a.nodes[k] && b.kids[k] == a.kids[k]
  }

  /** The heap after `(` below a childless x, written out: a blank node
      with the next Id is x's only child and has x's path below it. */
  function Adopt(a: Arena, x: int): Arena
    requires Has(a, x)
  {
    var c := a.next;
    Arena(a.nodes[c := Blank.(parent := Some(x))][x := a.nodes[x].(child := Some(c))],
          a.kids[c := []][x := [c]], a.anc[c := [c] + a.anc[x]], c + 1)
  }

  /** The heap after `,` on the last child v of p, written out: a blank
      node with the next Id joins p's chain after v. */
  function Sprout(a: Arena, v: int, p: int): Arena
    requires v in a.nodes && Has(a, p)
  {
    var s := a.next;
    Arena(a.nodes[s := Blank.(parent := Some(p))][v := a.nodes[v].(sib := Some(s))],
          a.kids[s := []][p := a.kids[p] + [s]], a.anc[s := [s] + a.anc[p]], s + 1)
  }

  /** A blank node just made is on no path but its own, so an adoption
      of it extends no other path. */
  lemma AdoptNew(a: Arena, n: int)
    requires Linked(a) && n in a.nodes
    ensures var a1 := NewNodeSpec(a); var c := a.next;
      CanAdopt(a1, n, c)
      && AddChildSpec(a1, n, c).anc == a.anc[c := [c] + a.anc[n]]
  {
    NewNodeLinked(a);
    var a1 := NewNodeSpec(a);
    var c := a.next;
    FreshOffPath(a, n);
    forall k | k in a.anc ensures c !in a.anc[k] {
      FreshOffPath(a, k);
    }
    var r := AddChildSpec(a1, n, c);
    assert r.anc.Keys == a.anc.Keys + {c};
    forall k | k in r.anc ensures r.anc[k] == a.anc[c := [c] + a.anc[n]][k] {
    }
  }

  /** `(` on a cursor without children gives Adopt, the cursor on the new
      node. */
  lemma OpenAdopts(a: Arena, x: int)
    requires Linked(a) && x in a.nodes && a.kids[x] == []
    ensures Open(Parse(a, Some(x))) == Parse(Adopt(a, x), Some(a.next))
  {
    AdoptNew(a, x);
    var a1 := NewNodeSpec(a);
    AddChildRec(a1, x, a.next, x);
    var r := AddChildSpec(a1, x, a.next);
    assert a1.kids[x] + [a.next] == [a.next];
    assert r.nodes == Adopt(a, x).nodes;
    assert r.kids == Adopt(a, x).kids;
  }

  /** `(` on a nil cursor: a root with the next Id, then Adopt below it. */
  lemma OpenRootAdopts(a: Arena)
    requires Linked(a)
    ensures NewNodeSpec(a).kids[a.next] == []
    ensures Open(Parse(a, None)) == Parse(Adopt(NewNodeSpec(a), a.next), Some(NewNodeSpec(a).next))
  {
    NewNodeLinked(a);
    var a0 := NewNodeSpec(a);
    AdoptNew(a0, a.next);
    var a1 := NewNodeSpec(a0);
    AddChildRec(a1, a.next, a0.next, a.next);
    var r := AddChildSpec(a1, a.next, a0.next);
    assert a1.kids[a.next] + [a0.next] == [a0.next];
    assert r.nodes == Adopt(a0, a.next).nodes;
    assert r.kids == Adopt(a0, a.next).kids;
  }

  /** `,` on the last child v of p gives Sprout, the cursor on the new
      node. */
  lemma CommaSprouts(a: Arena, v: int, p: int)
    requires Linked(a) && v in a.nodes && a.nodes[v].parent == Some(p) && a.nodes[v].sib == None
    ensures p in a.nodes && p != v && a.next !in a.nodes
    ensures Comma(Parse(a, Some(v))) == Ok(Parse(Sprout(a, v, p), Some(a.next)))
  {
    LastOfChain(a, v, p);
    assert NodeOk(a, v);
    AdoptNew(a, p);
    var a1 := NewNodeSpec(a);
    var r := AddChildSpec(a1, p, a.next);
    assert r.nodes == Sprout(a, v, p).nodes;
  }

  /** CommaSprouts as a step of the builder's loop. */
  lemma CommaStep(a: Arena, v: int, p: int, parse: string -> Option<real>)
    requires Linked(a) && v in a.nodes && a.nodes[v].parent == Some(p) && a.nodes[v].sib == None
    ensures p in a.nodes && p != v && a.next !in a.nodes && Linked(Sprout(a, v, p))
    ensures Step(Parse(a, Some(v)), ",", parse) == Ok(Parse(Sprout(a, v, p), Some(a.next)))
  {
    CommaSprouts(a, v, p);
  }

  /** The record after the label and length tokens of t. */
  function Labelled(r: Rec, t: Tree, hasParent: bool): Rec {
    var named := if t.name == [] then r else r.(name := t.name);
    if t.hasLength && hasParent then named.(length := t.length, hasLength := true) else named
  }

  /** A run of one token other than `;` is one step. */
  lemma RunOne(s: Parse, tok: string, parse: string -> Option<real>)
    requires Sound(s) && tok != ";"
    ensures Run(s, [tok], parse) == Step(s, tok, parse)
  {
    var none: seq<string> := [];
    assert [tok][0] == tok && [tok][1..] == none;
  }

  /** The label and length tokens write the cursor's Label, Length and
      HasLength and nothing else. */
  lemma LabelRun(a: Arena, x: int, t: Tree, hasParent: bool, fmt: real -> string, parse: string -> Option<real>)
    requires Linked(a) && x in a.nodes && NameReadable(t.name)
    requires t.hasLength && hasParent ==> parse(fmt(t.length)) == Some(t.length)
    ensures Run(Parse(a, Some(x)), LabelTokens(t, hasParent, fmt), parse)
         == Ok(Parse(a.(nodes := a.nodes[x := Labelled(a.nodes[x], t, hasParent)]), Some(x)))
  {
    var s := Parse(a, Some(x));
    var named := if t.name == [] then a.nodes[x] else a.nodes[x].(name := t.name);
    var s1 := Parse(a.(nodes := a.nodes[x := named]), Some(x));
    var lt: seq<string> := if t.hasLength && hasParent then [":" + fmt(t.length)] else [];
    if t.name != [] {
      assert t.name[0] !in Structural;
      RunOne(s, t.name, parse);
      assert Step(s, t.name, parse) == Ok(SetLabel(s, t.name));
      RunConcat(s, [t.name], lt, parse);
    } else {
      assert LabelTokens(t, hasParent, fmt) == lt;
      assert a.nodes[x := named] == a.nodes;
    }
    assert Run(s, LabelTokens(t, hasParent, fmt), parse) == Run(s1, lt, parse);
    if t.hasLength && hasParent {
      var tok := ":" + fmt(t.length);
      assert tok[0] == ':' && tok[1..] == fmt(t.length);
      RunOne(s1, tok, parse);
      assert a.nodes[x := named][x := named.(length := t.length, hasLength := true)]
          == a.nodes[x := Labelled(a.nodes[x], t, hasParent)];
    }
  }

  // ---------------------------------------------------------------------
  // The builder rebuilds a subtree from its tokens
  // ---------------------------------------------------------------------

  /** A node the builder has just made and not yet labelled. */
  predicate Fresh(a: Arena, x: int) {
    x in a.nodes && x in a.kids && a.kids[x] == [] && a.nodes[x].name == [] && !a.nodes[x].hasLength
  }

  /** Two token runs one after the other, the first without `;`. */
  lemma RunThen(s: Parse, t1: seq<string>, t2: seq<string>, s1: Parse, s2: Parse, parse: string -> Option<real>)
    requires Sound(s) && Sound(s1) && ";" !in t1
    requires Run(s, t1, parse) == Ok(s1) && Run(s1, t2, parse) == Ok(s2)
    ensures Run(s, t1 + t2, parse) == Ok(s2)
  {
    RunConcat(s, t1, t2, parse);
  }

  /** `)` from the last child of x goes back to x. */
  lemma CloseToParent(b: Arena, x: int, ms: seq<int>, parse: string -> Option<real>)
    requires Linked(b) && x in b.nodes && b.kids[x] == ms && ms != []
    ensures Sound(Parse(b, Some(Last(ms))))
    ensures Run(Parse(b, Some(Last(ms))), [")"], parse) == Ok(Parse(b, Some(x)))
  {
    assert MemberOk(b, x, |ms| - 1);
    RunOne(Parse(b, Some(Last(ms))), ")", parse);
  }

  /** A chain extended by a first member and then by the rest. */
  lemma AppendFirst(k: seq<int>, ms: seq<int>)
    requires ms != []
    ensures k + [ms[0]] + ms[1..] == k + ms
  {
    assert ms == [ms[0]] + ms[1..];
    assert k + [ms[0]] + ms[1..] == k + ([ms[0]] + ms[1..]);
  }

  lemma Assoc3<T>(x: seq<T>, y: seq<T>, z: seq<T>)
    ensures x + y + z == x + (y + z)
  {
  }

  // ---------------------------------------------------------------------
  // The heap the builder makes from the tokens of a subtree
  // ---------------------------------------------------------------------

  /** The last member of a non-empty chain. */
  function Last(ms: seq<int>): int
    requires ms != []
  {
    ms[|ms| - 1]
  }

  /** A heap and a chain of node Ids in it. */
  datatype Placed = Placed(arena: Arena, chain: seq<int>)

  /** The heap after the tokens of t, from a cursor on x: for a node with
      children `(` and the children's chain, then x's label and length. */
  function PlaceTree(a: Arena, x: int, t: Tree): (b: Arena)
    requires Has(a, x)
    ensures forall k :: Has(a, k) ==> Has(b, k)
    decreases Size(t), 1
  {
    var b1 :=
      if t.kids == [] then a
      else
        var a1 := Adopt(a, x);
        assert forall k :: Has(a, k) ==> Has(a1, k);
        PlaceChain(a1, x, a.next, t.kids).arena;
    b1.(nodes := b1.nodes[x := Labelled(b1.nodes[x], t, true)])
  }

  /** The heap after the tokens of the forest ts, from a cursor on c, a
      child of p: ts[0] at c, then for each later tree a `,` and that
      tree at the new sibling. The chain is c and the new siblings in
      order. */
  function PlaceChain(a: Arena, p: int, c: int, ts: seq<Tree>): (r: Placed)
    requires Has(a, c) && Has(a, p) && ts != []
    ensures |r.chain| == |ts| && forall k :: Has(a, k) ==> Has(r.arena, k)
    decreases ForestSize(ts), 2
  {
    ChainSmaller(ts);
    var b1 := PlaceTree(a, c, ts[0]);
    if |ts| == 1 then Placed(b1, [c])
    else
      var b2 := Sprout(b1, c, p);
      assert forall k :: Has(b1, k) ==> Has(b2, k);
      var r := PlaceChain(b2, p, b1.next, ts[1..]);
      Placed(r.arena, [c] + r.chain)
  }

  /** The heap after the tokens of a tree with children from a nil cursor:
      `(` makes the root with the next Id and its first child, the
      children's chain follows, then the root's label (a root's length is
      not written). */
  function PlaceRoot(a: Arena, t: Tree): (b: Arena)
    requires t.kids != []
    ensures Has(b, a.next)
  {
    var a0 := NewNodeSpec(a);
    var b1 := PlaceChain(Adopt(a0, a.next), a.next, a0.next, t.kids).arena;
    b1.(nodes := b1.nodes[a.next := Labelled(b1.nodes[a.next], t, false)])
  }

  /** PlaceTree keeps x's links and every other node, and takes new Ids
      only. */
  lemma {:induction false} TreeShape(a: Arena, x: int, t: Tree)
    requires Bounded(a) && Has(a, x)
    ensures var b := PlaceTree(a, x, t);
      Bounded(b) && b.next >= a.next
      && b.nodes[x].parent == a.nodes[x].parent && b.nodes[x].sib == a.nodes[x].sib
      && forall k :: k != x ==> Same(a, b, k)
    decreases Size(t), 1
  {
    if t.kids != [] {
      var a1 := Adopt(a, x);
      var r := PlaceChain(a1, x, a.next, t.kids);
      ChainShape(a1, x, a.next, t.kids);
      forall k | k != x ensures Same(a, PlaceTree(a, x, t), k) {
        if k != a.next {
          assert Same(a, a1, k) && Same(a1, r.arena, k);
        }
      }
    }
  }

  /** PlaceTree leaves x's place among its siblings and the other nodes
      where they were. */
  lemma TreeLinks(a: Arena, x: int, p: int, t: Tree)
    requires Bounded(a) && Has(a, x) && Has(a, p) && p != x
    ensures var b := PlaceTree(a, x, t);
      b.nodes[x].parent == a.nodes[x].parent && b.nodes[x].sib == a.nodes[x].sib && Has(b, x) && Has(b, p)
  {
    TreeShape(a, x, t);
    assert Same(a, PlaceTree(a, x, t), p);
  }

  /** PlaceChain keeps p's record and extends p's chain by the new
      siblings; no node other than c and p changes. */
  lemma {:induction false} ChainShape(a: Arena, p: int, c: int, ts: seq<Tree>)
    requires Bounded(a) && Has(a, c) && Has(a, p) && p != c && ts != []
    ensures var r := PlaceChain(a, p, c, ts);
      Bounded(r.arena) && r.arena.next >= a.next && r.chain[0] == c
      && r.arena.nodes[p] == a.nodes[p] && r.arena.kids[p] == a.kids[p] + r.chain[1..]
      && forall k :: k != c && k != p ==> Same(a, r.arena, k)
    decreases ForestSize(ts), 2
  {
    ChainSmaller(ts);
    var b1 := PlaceTree(a, c, ts[0]);
    TreeShape(a, c, ts[0]);
    assert Same(a, b1, p);
    if |ts| > 1 {
      var b2 := Sprout(b1, c, p);
      var r := PlaceChain(b2, p, b1.next, ts[1..]);
      ChainShape(b2, p, b1.next, ts[1..]);
      AppendFirst(b1.kids[p], r.chain);
      assert ([c] + r.chain)[1..] == r.chain;
      forall k | k != c && k != p ensures Same(a, r.arena, k) {
        if k != b1.next {
          assert Same(a, b1, k) && Same(b1, b2, k) && Same(b2, r.arena, k);
        }
      }
    }
  }

  // ---------------------------------------------------------------------
  // The tokens of a subtree lead the builder to that heap
  // ---------------------------------------------------------------------

  /** `)` back from the last child to x, then x's label and length. */
  lemma CloseLabel(b1: Arena, x: int, t: Tree, hasParent: bool, ms: seq<int>, fmt: real -> string, parse: string -> Option<real>)
    requires Linked(b1) && x in b1.nodes && b1.kids[x] == ms && ms != []
    requires NameReadable(t.name) && (t.hasLength && hasParent ==> parse(fmt(t.length)) == Some(t.length))
    ensures Sound(Parse(b1, Some(Last(ms))))
    ensures Run(Parse(b1, Some(Last(ms))), [")"] + LabelTokens(t, hasParent, fmt), parse)
         == Ok(Parse(b1.(nodes := b1.nodes[x := Labelled(b1.nodes[x], t, hasParent)]), Some(x)))
  {
    CloseToParent(b1, x, ms, parse);
    LabelRun(b1, x, t, hasParent, fmt, parse);
    SetPayloadLinked(b1, x, Labelled(b1.nodes[x], t, hasParent));
    var b := b1.(nodes := b1.nodes[x := Labelled(b1.nodes[x], t, hasParent)]);
    RunThen(Parse(b1, Some(Last(ms))), [")"], LabelTokens(t, hasParent, fmt), Parse(b1, Some(x)), Parse(b, Some(x)), parse);
  }

  /** `(`, then the children's tokens, then `)` and the label: a node
      with children read from the state `(` leads to. */
  lemma Enclosed(s: Parse, s1: Parse, b1: Arena, x: int, t: Tree, hasParent: bool, ms: seq<int>,
                 fmt: real -> string, parse: string -> Option<real>)
    requires Sound(s) && Sound(s1) && Step(s, "(", parse) == Ok(s1)
    requires Linked(b1) && x in b1.nodes && b1.kids[x] == ms && ms != [] && t.kids != []
    requires NameReadable(t.name) && (t.hasLength && hasParent ==> parse(fmt(t.length)) == Some(t.length))
    requires forall i :: 0 <= i < |t.kids| ==> Readable(t.kids[i], fmt, parse)
    requires Run(s1, JoinedTokens(t.kids, fmt), parse) == Ok(Parse(b1, Some(Last(ms))))
    ensures Run(s, SubtreeTokens(t, hasParent, fmt), parse)
         == Ok(Parse(b1.(nodes := b1.nodes[x := Labelled(b1.nodes[x], t, hasParent)]), Some(x)))
  {
    var b := b1.(nodes := b1.nodes[x := Labelled(b1.nodes[x], t, hasParent)]);
    CloseLabel(b1, x, t, hasParent, ms, fmt, parse);
    JoinedNoStop(t.kids, fmt, parse);
    RunOne(s, "(", parse);
    var head := ["("] + JoinedTokens(t.kids, fmt);
    var last := Parse(b1, Some(Last(ms)));
    RunThen(s, ["("], JoinedTokens(t.kids, fmt), s1, last, parse);
    Assoc3(head, [")"], LabelTokens(t, hasParent, fmt));
    RunThen(s, head, [")"] + LabelTokens(t, hasParent, fmt), last, Parse(b, Some(x)), parse);
  }

  /** `,` and then a run of tokens from the state `,` leads to. */
  lemma CommaThen(s: Parse, s1: Parse, toks: seq<string>, s2: Parse, parse: string -> Option<real>)
    requires Sound(s) && Sound(s1) && Step(s, ",", parse) == Ok(s1) && Run(s1, toks, parse) == Ok(s2)
    ensures Run(s, [","] + toks, parse) == Ok(s2)
  {
    RunOne(s, ",", parse);
    RunThen(s, [","], toks, s1, s2, parse);
  }

  /** The tokens of a forest of several trees, run as the first tree's
      and then `,` and the rest's. */
  lemma JoinedRun(s: Parse, ts: seq<Tree>, rest: seq<Tree>, s1: Parse, s2: Parse, fmt: real -> string, parse: string -> Option<real>)
    requires Sound(s) && Sound(s1) && |ts| > 1 && rest == ts[1..] && Readable(ts[0], fmt, parse)
    requires Run(s, SubtreeTokens(ts[0], true, fmt), parse) == Ok(s1)
    requires Run(s1, [","] + JoinedTokens(rest, fmt), parse) == Ok(s2)
    ensures Run(s, JoinedTokens(ts, fmt), parse) == Ok(s2)
  {
    var head := SubtreeTokens(ts[0], true, fmt);
    SubtreeNoStop(ts[0], true, fmt, parse);
    RunThen(s, head, [","] + JoinedTokens(rest, fmt), s1, s2, parse);
    Assoc3(head, [","], JoinedTokens(rest, fmt));
  }

  /** From a cursor on a childless node x, the tokens of a readable t
      lead the builder's loop to PlaceTree's heap with the cursor back on
      x. */
  lemma {:induction false} TreeReads(a: Arena, x: int, t: Tree, fmt: real -> string, parse: string -> Option<real>)
    requires Linked(a) && x in a.nodes && a.kids[x] == [] && Readable(t, fmt, parse)
    ensures Run(Parse(a, Some(x)), SubtreeTokens(t, true, fmt), parse) == Ok(Parse(PlaceTree(a, x, t), Some(x)))
    decreases Size(t), 2
  {
    if t.kids == [] {
      assert SubtreeTokens(t, true, fmt) == LabelTokens(t, true, fmt);
      LabelRun(a, x, t, true, fmt, parse);
    } else {
      InnerReads(a, x, t, fmt, parse);
    }
  }

  /** TreeReads for a node with children: `(`, the children's tokens,
      `)` and the label. */
  lemma {:induction false} InnerReads(a: Arena, x: int, t: Tree, fmt: real -> string, parse: string -> Option<real>)
    requires Linked(a) && x in a.nodes && a.kids[x] == [] && Readable(t, fmt, parse) && t.kids != []
    ensures Run(Parse(a, Some(x)), SubtreeTokens(t, true, fmt), parse) == Ok(Parse(PlaceTree(a, x, t), Some(x)))
    decreases Size(t), 1
  {
    var s := Parse(a, Some(x));
    OpenAdopts(a, x);
    var a1 := Adopt(a, x);
    var r := PlaceChain(a1, x, a.next, t.kids);
    var ms := r.chain;
    ChainReads(a1, x, a.next, t.kids, fmt, parse);
    ChainShape(a1, x, a.next, t.kids);
    assert [a.next] + ms[1..] == ms;
    var s1 := Parse(a1, Some(a.next));
    assert Sound(s1) && Step(s, "(", parse) == Ok(s1);
    assert Linked(r.arena) && x in r.arena.nodes && r.arena.kids[x] == ms;
    assert Run(s1, JoinedTokens(t.kids, fmt), parse) == Ok(Parse(r.arena, Some(Last(ms))));
    Enclosed(s, s1, r.arena, x, t, true, ms, fmt, parse);
  }

  /** From a cursor on c, a childless last child of p, the tokens of a
      readable forest lead to PlaceChain's heap with the cursor on the
      last member of the chain. */
  lemma {:induction false} ChainReads(a: Arena, p: int, c: int, ts: seq<Tree>, fmt: real -> string, parse: string -> Option<real>)
    requires Linked(a) && c in a.nodes && a.kids[c] == [] && a.nodes[c].parent == Some(p) && a.nodes[c].sib == None
    requires p in a.nodes && p != c && ts != [] && forall i :: 0 <= i < |ts| ==> Readable(ts[i], fmt, parse)
    ensures Run(Parse(a, Some(c)), JoinedTokens(ts, fmt), parse)
         == Ok(Parse(PlaceChain(a, p, c, ts).arena, Some(Last(PlaceChain(a, p, c, ts).chain))))
    decreases ForestSize(ts), 3
  {
    ChainSmaller(ts);
    assert Readable(ts[0], fmt, parse);
    TreeReads(a, c, ts[0], fmt, parse);
    var b1 := PlaceTree(a, c, ts[0]);
    if |ts| == 1 {
      assert PlaceChain(a, p, c, ts) == Placed(b1, [c]);
    } else {
      TreeLinks(a, c, p, ts[0]);
      MoreReads(a, b1, p, c, ts, fmt, parse);
      ChainUnfold(a, p, c, ts);
    }
  }

  /** PlaceChain over several trees, one step unfolded. */
  lemma ChainUnfold(a: Arena, p: int, c: int, ts: seq<Tree>)
    requires Has(a, c) && Has(a, p) && |ts| > 1
    ensures var b1 := PlaceTree(a, c, ts[0]);
      var r := PlaceChain(Sprout(b1, c, p), p, b1.next, ts[1..]);
      PlaceChain(a, p, c, ts) == Placed(r.arena, [c] + r.chain) && Last([c] + r.chain) == Last(r.chain)
  {
    var b1 := PlaceTree(a, c, ts[0]);
    var r := PlaceChain(Sprout(b1, c, p), p, b1.next, ts[1..]);
    assert PlaceChain(a, p, c, ts) == Placed(r.arena, [c] + r.chain);
    LastCons(c, r.chain);
  }

  lemma LastCons(c: int, xs: seq<int>)
    requires xs != []
    ensures Last([c] + xs) == Last(xs)
  {
  }

  /** ChainReads for a forest of several trees once the first has been
      read into b1. */
  lemma {:induction false} MoreReads(a: Arena, b1: Arena, p: int, c: int, ts: seq<Tree>, fmt: real -> string, parse: string -> Option<real>)
    requires Linked(a) && c in a.nodes && |ts| > 1 && forall i :: 0 <= i < |ts| ==> Readable(ts[i], fmt, parse)
    requires Run(Parse(a, Some(c)), SubtreeTokens(ts[0], true, fmt), parse) == Ok(Parse(b1, Some(c)))
    requires c in b1.nodes && b1.nodes[c].parent == Some(p) && b1.nodes[c].sib == None && p in b1.nodes && p != c
    ensures var r := PlaceChain(Sprout(b1, c, p), p, b1.next, ts[1..]);
      Run(Parse(a, Some(c)), JoinedTokens(ts, fmt), parse) == Ok(Parse(r.arena, Some(Last(r.chain))))
    decreases ForestSize(ts), 2
  {
    ChainSmaller(ts);
    var rest := ts[1..];
    assert forall i :: 0 <= i < |rest| ==> rest[i] == ts[i + 1];
    assert Sound(Parse(b1, Some(c))) && Readable(ts[0], fmt, parse);
    CommaReads(b1, p, c, rest, fmt, parse);
    var r := PlaceChain(Sprout(b1, c, p), p, b1.next, rest);
    var s2 := Parse(r.arena, Some(Last(r.chain)));
    assert Run(Parse(b1, Some(c)), [","] + JoinedTokens(rest, fmt), parse) == Ok(s2);
    JoinedRun(Parse(a, Some(c)), ts, rest, Parse(b1, Some(c)), s2, fmt, parse);
  }

  /** From a cursor on the last child c of p, `,` and the tokens of a
      readable forest lead to PlaceChain's heap from the new sibling. */
  lemma {:induction false} CommaReads(b1: Arena, p: int, c: int, rest: seq<Tree>, fmt: real -> string, parse: string -> Option<real>)
    requires Linked(b1) && c in b1.nodes && b1.nodes[c].parent == Some(p) && b1.nodes[c].sib == None
    requires p in b1.nodes && p != c && rest != [] && forall i :: 0 <= i < |rest| ==> Readable(rest[i], fmt, parse)
    ensures Run(Parse(b1, Some(c)), [","] + JoinedTokens(rest, fmt), parse)
         == Ok(Parse(PlaceChain(Sprout(b1, c, p), p, b1.next, rest).arena, Some(Last(PlaceChain(Sprout(b1, c, p), p, b1.next, rest).chain))))
    decreases ForestSize(rest), 4
  {
    CommaStep(b1, c, p, parse);
    var b2 := Sprout(b1, c, p);
    ChainReads(b2, p, b1.next, rest, fmt, parse);
    var r := PlaceChain(b2, p, b1.next, rest);
    var s1 := Parse(b2, Some(b1.next));
    assert Run(s1, JoinedTokens(rest, fmt), parse) == Ok(Parse(r.arena, Some(Last(r.chain))));
    CommaThen(Parse(b1, Some(c)), s1, JoinedTokens(rest, fmt), Parse(r.arena, Some(Last(r.chain))), parse);
  }

  // ---------------------------------------------------------------------
  // That heap holds the subtree
  // ---------------------------------------------------------------------

  /** A built node stays built in a later heap that keeps every Id from
      lo2 up, over a wider Id range. */
  lemma BuiltMove(a: Arena, b: Arena, y: int, u: Tree, lo: int, hi: int, lo2: int, hi2: int)
    requires Built(a, y, u, true, lo, hi) && lo2 <= lo && hi <= hi2 && lo2 <= y
    requires forall k :: lo2 <= k ==> Keeps(a, b, k)
    ensures Built(b, y, u, true, lo2, hi2)
  {
    BuiltWiden(a, y, u, true, lo, hi, lo2, hi2);
    BuiltFrame(a, b, y, u, true, lo2, hi2);
  }

  /** Node x of b is built after t once it carries t's label (and, below
      the root, t's length) over a chain whose members were built in an
      earlier heap b1 that b agrees with from lo up. */
  lemma BuiltOver(b1: Arena, b: Arena, x: int, t: Tree, hasParent: bool, ms: seq<int>, lo1: int, hi1: int, lo: int, hi: int)
    requires x in b.nodes && x in b.kids && b.kids[x] == ms && |ms| == |t.kids| && b.nodes[x].name == t.name
    requires hasParent ==> b.nodes[x].hasLength == t.hasLength && (t.hasLength ==> b.nodes[x].length == t.length)
    requires lo <= lo1 && hi1 <= hi
    requires forall i :: 0 <= i < |ms| ==> lo <= ms[i] < hi && Built(b1, ms[i], t.kids[i], true, lo1, hi1)
    requires forall k :: lo <= k ==> Keeps(b1, b, k)
    ensures Built(b, x, t, hasParent, lo, hi)
  {
    forall i | 0 <= i < |t.kids|
      ensures lo <= ms[i] < hi && Built(b, ms[i], t.kids[i], true, lo, hi)
    {
      BuiltMove(b1, b, ms[i], t.kids[i], lo1, hi1, lo, hi);
    }
  }

  /** PlaceTree on a fresh node builds it after t, the new nodes taking
      Ids from a.next up. */
  lemma {:induction false} TreeBuilt(a: Arena, x: int, t: Tree)
    requires Bounded(a) && Has(a, x) && Fresh(a, x)
    ensures var b := PlaceTree(a, x, t); Built(b, x, t, true, a.next, b.next)
    decreases Size(t), 1
  {
    var b := PlaceTree(a, x, t);
    if t.kids != [] {
      var a1 := Adopt(a, x);
      var r := PlaceChain(a1, x, a.next, t.kids);
      ChainBuilt(a1, x, a.next, t.kids);
      ChainShape(a1, x, a.next, t.kids);
      AppendFirst([], r.chain);
      forall k | a.next <= k ensures Keeps(r.arena, b, k) {
      }
      BuiltOver(r.arena, b, x, t, true, r.chain, a.next, r.arena.next, a.next, b.next);
    }
  }

  /** PlaceChain from the newest node c builds each member of the chain
      after its tree, all Ids from c up. */
  lemma {:induction false} ChainBuilt(a: Arena, p: int, c: int, ts: seq<Tree>)
    requires Bounded(a) && Has(a, c) && Fresh(a, c) && Has(a, p) && p != c && ts != [] && c == a.next - 1
    ensures var r := PlaceChain(a, p, c, ts);
      forall i :: 0 <= i < |ts| ==> c <= r.chain[i] < r.arena.next && Built(r.arena, r.chain[i], ts[i], true, c, r.arena.next)
    decreases ForestSize(ts), 2
  {
    ChainSmaller(ts);
    var b1 := PlaceTree(a, c, ts[0]);
    TreeBuilt(a, c, ts[0]);
    TreeShape(a, c, ts[0]);
    BuiltWiden(b1, c, ts[0], true, a.next, b1.next, c, b1.next);
    if |ts| > 1 {
      var rest := ts[1..];
      assert Same(a, b1, p);
      var r := PlaceChain(Sprout(b1, c, p), p, b1.next, rest);
      ChainBuiltMore(b1, p, c, ts);
      forall i | 0 <= i < |ts|
        ensures c <= ([c] + r.chain)[i] < r.arena.next && Built(r.arena, ([c] + r.chain)[i], ts[i], true, c, r.arena.next)
      {
        if i > 0 {
          assert ([c] + r.chain)[i] == r.chain[i - 1] && ts[i] == rest[i - 1];
        }
      }
    }
  }

  /** The later trees of a chain, after `,`: the first member stays built
      and the rest are built from the new sibling up. */
  lemma {:induction false} ChainBuiltMore(b1: Arena, p: int, c: int, ts: seq<Tree>)
    requires Bounded(b1) && Has(b1, c) && Has(b1, p) && p < c < b1.next && |ts| > 1
    requires Built(b1, c, ts[0], true, c, b1.next)
    ensures var r := PlaceChain(Sprout(b1, c, p), p, b1.next, ts[1..]);
      Built(r.arena, c, ts[0], true, c, r.arena.next)
      && forall i :: 0 <= i < |ts| - 1 ==>
           c <= r.chain[i] < r.arena.next && Built(r.arena, r.chain[i], ts[1..][i], true, c, r.arena.next)
    decreases ForestSize(ts), 1
  {
    ChainSmaller(ts);
    var b2 := Sprout(b1, c, p);
    var s := b1.next;
    var rest := ts[1..];
    ChainBuilt(b2, p, s, rest);
    ChainShape(b2, p, s, rest);
    var r := PlaceChain(b2, p, s, rest);
    var b := r.arena;
    SproutKeeps(b1, b, p, c);
    BuiltFrame(b1, b, c, ts[0], true, c, s);
    BuiltWiden(b, c, ts[0], true, c, s, c, b.next);
    forall i | 0 <= i < |rest| ensures c <= r.chain[i] < b.next && Built(b, r.chain[i], rest[i], true, c, b.next) {
      BuiltWiden(b, r.chain[i], rest[i], true, s, b.next, c, b.next);
    }
  }

  /** The nodes from c up to the new sibling keep their label and chain
      in a heap that agrees with Sprout's except at the sibling and p. */
  lemma SproutKeeps(b1: Arena, b: Arena, p: int, c: int)
    requires Bounded(b1) && c in b1.nodes && Has(b1, p) && p < c
    requires forall k :: k != b1.next && k != p ==> Same(Sprout(b1, c, p), b, k)
    ensures forall k :: c <= k < b1.next ==> Keeps(b1, b, k)
  {
    forall k | c <= k < b1.next ensures Keeps(b1, b, k) {
      assert Same(Sprout(b1, c, p), b, k);
    }
  }

  // ---------------------------------------------------------------------
  // The whole tree
  // ---------------------------------------------------------------------

  /** PlaceRoot keeps every node that was there and makes the new root a
      root. */
  lemma RootShape(a: Arena, t: Tree)
    requires Bounded(a) && t.kids != []
    ensures var b := PlaceRoot(a, t);
      b.nodes[a.next].parent == None && forall k :: k != a.next ==> Same(a, b, k)
  {
    var a0 := NewNodeSpec(a);
    var c := a0.next;
    var a1 := Adopt(a0, a.next);
    var r := PlaceChain(a1, a.next, c, t.kids);
    ChainShape(a1, a.next, c, t.kids);
    forall k | k != a.next ensures Same(a, PlaceRoot(a, t), k) {
      if k != c {
        assert Same(a, a0, k) && Same(a0, a1, k) && Same(a1, r.arena, k);
      }
    }
  }

  /** From a nil cursor, the tokens of a tree with children lead the
      builder's loop to PlaceRoot's heap with the cursor on the new root. */
  lemma RootReads(a: Arena, t: Tree, fmt: real -> string, parse: string -> Option<real>)
    requires Linked(a) && t.kids != [] && NameReadable(t.name)
    requires forall i :: 0 <= i < |t.kids| ==> Readable(t.kids[i], fmt, parse)
    ensures Run(Parse(a, None), SubtreeTokens(t, false, fmt), parse) == Ok(Parse(PlaceRoot(a, t), Some(a.next)))
  {
    var s := Parse(a, None);
    OpenRootAdopts(a);
    var c := NewNodeSpec(a).next;
    var a1 := Adopt(NewNodeSpec(a), a.next);
    var s1 := Parse(a1, Some(c));
    assert Sound(s1) && Step(s, "(", parse) == Ok(s1);
    ChainReads(a1, a.next, c, t.kids, fmt, parse);
    ChainShape(a1, a.next, c, t.kids);
    var r := PlaceChain(a1, a.next, c, t.kids);
    var ms := r.chain;
    assert [c] + ms[1..] == ms;
    assert Linked(r.arena) && a.next in r.arena.nodes && r.arena.kids[a.next] == ms;
    assert Run(s1, JoinedTokens(t.kids, fmt), parse) == Ok(Parse(r.arena, Some(Last(ms))));
    Enclosed(s, s1, r.arena, a.next, t, false, ms, fmt, parse);
  }

  /** PlaceRoot builds the new root after t, the nodes below it taking
      Ids from a.next + 1 up. */
  lemma RootBuilt(a: Arena, t: Tree)
    requires Bounded(a) && t.kids != []
    ensures var b := PlaceRoot(a, t); Built(b, a.next, t, false, a.next + 1, b.next)
  {
    var c := NewNodeSpec(a).next;
    var a1 := Adopt(NewNodeSpec(a), a.next);
    var r := PlaceChain(a1, a.next, c, t.kids);
    var b := PlaceRoot(a, t);
    ChainBuilt(a1, a.next, c, t.kids);
    ChainShape(a1, a.next, c, t.kids);
    assert [c] + r.chain[1..] == r.chain;
    forall k | c <= k ensures Keeps(r.arena, b, k) {
    }
    BuiltOver(r.arena, b, a.next, t, false, r.chain, c, r.arena.next, c, b.next);
  }

  /** RootReads over the whole of Newick(t): the loop stops at `;`. */
  lemma RootNewick(a: Arena, t: Tree, fmt: real -> string, parse: string -> Option<real>)
    requires Linked(a) && t.kids != [] && NameReadable(t.name)
    requires forall i :: 0 <= i < |t.kids| ==> Readable(t.kids[i], fmt, parse)
    ensures Run(Parse(a, None), NewickTokens(t, fmt), parse) == Ok(Parse(PlaceRoot(a, t), Some(a.next)))
  {
    var s := Parse(a, None);
    var s2 := Parse(PlaceRoot(a, t), Some(a.next));
    RootReads(a, t, fmt, parse);
    SubtreeNoStop(t, false, fmt, parse);
    RunConcat(s, SubtreeTokens(t, false, fmt), [";"], parse);
    assert Run(s2, [";"], parse) == Ok(s2);
  }

  /** The tree under PlaceRoot's root is written as t is. */
  lemma RootWritten(a: Arena, t: Tree, fmt: real -> string)
    requires Bounded(a) && t.kids != [] && Linked(PlaceRoot(a, t))
    ensures WriteTree(ToTree(PlaceRoot(a, t), a.next), fmt) == WriteTree(t, fmt)
  {
    var b := PlaceRoot(a, t);
    var c := a.next + 1;
    RootBuilt(a, t);
    SubtreeOfBuilt(b, a.next, t, false, c, b.next, fmt);
    WriteTreeIsNewick(t, fmt);
    WriteTreeIsNewick(ToTree(b, a.next), fmt);
  }

  /** The round trip of Scanner.Tree and writeTree: run from a nil cursor
      over the tokens of a tree with children whose labels and lengths
      read back, the builder's loop stops at `;` with the cursor on a new
      root, leaves every earlier node as it was, and the tree under the
      cursor is written exactly as the input tree. */
  lemma BuildReadsWriteTree(a: Arena, t: Tree, fmt: real -> string, parse: string -> Option<real>)
    requires Linked(a) && t.kids != [] && NameReadable(t.name)
    requires forall i :: 0 <= i < |t.kids| ==> Readable(t.kids[i], fmt, parse)
    ensures var r := Run(Parse(a, None), NewickTokens(t, fmt), parse);
      r.Ok? && r.value.cursor == Some(a.next) && a.next in r.value.arena.nodes
      && r.value.arena.nodes[a.next].parent == None
      && (forall k :: k != a.next ==> Same(a, r.value.arena, k))
      && WriteTree(ToTree(r.value.arena, a.next), fmt) == WriteTree(t, fmt)
  {
    RootNewick(a, t, fmt, parse);
    var b := PlaceRoot(a, t);
    assert Linked(b);
    RootShape(a, t);
    RootWritten(a, t, fmt);
  }

  /** A tree without children does not read back: its label comes before
      any `(`, with the cursor still nil, and an unlabelled one gives no
      node at all. */
  lemma LoneRootUnread(a: Arena, t: Tree, fmt: real -> string, parse: string -> Option<real>)
    requires Linked(a) && t.kids == [] && NameReadable(t.name)
    ensures Run(Parse(a, None), NewickTokens(t, fmt), parse)
         == if t.name == [] then Ok(Parse(a, None)) else Err(NilCursor)
  {
    var toks := NewickTokens(t, fmt);
    assert t.name != [] ==> toks[0] == t.name && t.name[0] in t.name;
    assert t.name == [] ==> toks == [";"];
  }

  // ---------------------------------------------------------------------
  // label on the heap and on the tree view
  // ---------------------------------------------------------------------

  /** Below a root v, UniformLabels on the heap and the relabelling of the
      tree view agree: the subtree at any descendant k of v, read from the
      relabelled heap, is the relabelled subtree read from the old one. */
  lemma {:induction false} RelabelView(a: Arena, v: int, pre: string, k: int)
    requires Linked(a) && v in a.nodes && a.nodes[v].parent == None
    requires k in a.nodes && v in a.anc[k]
    ensures Linked(RelabelSpec(a, v, pre))
    ensures ToTree(RelabelSpec(a, v, pre), k) == RelabelChain([ToTree(a, k)], pre)[0]
    decreases |a.nodes| - |a.anc[k]|
  {
    var b := RelabelSpec(a, v, pre);
    RelabelEffect(a, v, pre);
    DepthBound(a, k);
    assert Later(a, v) == [v];
    var t := ToTree(a, k);
    var ks := a.kids[k];
    assert b.kids == a.kids && b.anc == a.anc;
    var kids := if t.kids != [] then RelabelChain(t.kids, pre) else [];
    assert |kids| == |ks|;
    forall i | 0 <= i < |ks|
      ensures ChildTree(b, k, i) == kids[i]
    {
      assert MemberOk(a, k, i);
      var c := ks[i];
      assert NodeOk(a, c);
      assert v in a.anc[c];
      DepthBound(a, c);
      RelabelView(a, v, pre, c);
      assert t.kids[i] == ChildTree(a, k, i) == ToTree(a, c);
      RelabelChainAt(t.kids, pre, i);
    }
    assert ToTree(b, k).kids == kids;
  }

  /** UniformLabels(pre) on a root: the tree view of the relabelled heap is
      the relabelled tree view. */
  lemma UniformLabelsView(a: Arena, v: int, pre: string)
    requires Linked(a) && v in a.nodes && a.nodes[v].parent == None
    ensures Linked(RelabelSpec(a, v, pre))
    ensures ToTree(RelabelSpec(a, v, pre), v) == RelabelChain([ToTree(a, v)], pre)[0]
  {
    assert NodeOk(a, v);
    RelabelView(a, v, pre, v);
  }
}
