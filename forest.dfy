/** The Go heap of Nodes as an object: `nodes` holds every Node under its Id
    and `next` is the package counter nodeId. The methods follow the pointer
    walks of nwk.go step by step and are proved to reach exactly the states
    the pure definitions of arena.dfy describe. The ghost fields `kids` and
    `anc` record each node's child chain and ancestor path; they are never
    read by the walks themselves. */
module Forests {
  import opened Wrappers
  import opened Text
  import opened Arenas

  class Forest {
    var nodes: map<int, Rec>
    var next: int
    ghost var kids: map<int, seq<int>>
    ghost var anc: map<int, seq<int>>

    ghost function Snapshot(): Arena
      reads this
    {
      Arena(nodes, kids, anc, next)
    }

    ghost predicate Valid()
      reads this
    {
      Linked(Snapshot())
    }

    /** No nodes yet; the first Id handed out is 1, as `var nodeId = 1`. */
    constructor ()
      ensures Valid() && nodes == map[] && next == 1
    {
      nodes := map[];
      next := 1;
      kids := map[];
      anc := map[];
    }

    /** NewNode (nwk.go:232-238): a blank node under the current counter,
        which then advances. */
    method NewNode() returns (id: int)
      requires Valid()
      modifies this
      ensures Valid() && Snapshot() == NewNodeSpec(old(Snapshot()))
      ensures id == old(next) && id !in old(nodes) && id in nodes
    {
      NewNodeLinked(Snapshot());
      id := next;
      nodes := nodes[id := Blank];
      kids := kids[id := []];
      anc := anc[id := [id]];
      next := next + 1;
    }

    /** n.AddChild(v) (nwk.go:35-47): set v's Parent, then either make v
        n's Child or walk the Sib links to the end of the chain and hang v
        there. */
    method AddChild(n: int, v: int)
      requires Valid() && CanAdopt(Snapshot(), n, v)
      modifies this
      ensures Valid() && Snapshot() == AddChildSpec(old(Snapshot()), n, v)
    {
      ghost var a := Snapshot();
      ghost var ks := a.kids[n];
      AdoptFacts(a, n, v);
      AddChildLinked(a, n, v);
      assert NodeOk(a, n);
      nodes := nodes[v := nodes[v].(parent := Some(n))];
      if nodes[n].child == None {
        nodes := nodes[n := nodes[n].(child := Some(v))];
      } else {
        var w := nodes[n].child.value;
        ghost var j := 0;
        assert MemberOk(a, n, 0);
        while nodes[w].sib != None
          invariant 0 <= j < |ks| && w == ks[j] && MemberOk(a, n, j)
          invariant nodes == a.nodes[v := a.nodes[v].(parent := Some(n))]
          decreases |ks| - j
        {
          w := nodes[w].sib.value;
          j := j + 1;
          assert MemberOk(a, n, j);
        }
        nodes := nodes[w := nodes[w].(sib := Some(v))];
      }
      kids := kids[n := kids[n] + [v]];
      anc := map k | k in anc :: if v in anc[k] then anc[k] + anc[n] else anc[k];
    }

    /** v.RemoveChild(c) (nwk.go:49-74): "no children" when v has no Child;
        otherwise look for c's Id at the Child and then along the Sib links,
        splice the match out and clear its Sib and Parent, or report "child
        not found". */
    method RemoveChild(v: int, c: int) returns (res: Outcome)
      requires Valid() && v in nodes
      modifies this
      ensures Valid() && (res, Snapshot()) == RemoveChildSpec(old(Snapshot()), v, c)
    {
      ghost var a := Snapshot();
      ghost var ks := a.kids[v];
      RemoveChildLinked(a, v, c);
      assert NodeOk(a, v);
      if nodes[v].child == None {
        return Fail(NoChildren);
      }
      var h := nodes[v].child.value;
      assert MemberOk(a, v, 0);
      if h == c {
        nodes := nodes[v := nodes[v].(child := nodes[h].sib)];
        nodes := nodes[h := nodes[h].(sib := None, parent := None)];
        kids := kids[v := ks[1..]];
        anc := CutAnc(anc, c);
        DetachFirst(a, v, c);
        return Pass;
      }
      var w := h;
      ghost var j := 0;
      while nodes[w].sib != None && nodes[w].sib.value != c
        invariant 0 <= j < |ks| && w == ks[j] && MemberOk(a, v, j) && c !in ks[..j + 1]
        invariant nodes == a.nodes
        decreases |ks| - j
      {
        w := nodes[w].sib.value;
        j := j + 1;
        assert MemberOk(a, v, j);
        assert ks[..j + 1] == ks[..j] + [ks[j]];
      }
      if nodes[w].sib == None {
        assert ks[..j + 1] == ks;
        return Fail(ChildNotFound);
      }
      var x := nodes[w].sib.value;
      assert MemberOk(a, v, j + 1);
      nodes := nodes[w := nodes[w].(sib := nodes[x].sib)];
      nodes := nodes[x := nodes[x].(sib := None, parent := None)];
      kids := kids[v := ks[..j + 1] + ks[j + 2..]];
      anc := CutAnc(anc, c);
      DetachLater(a, v, c, j + 1);
      return Pass;
    }

    /** clearPath(v) when b is false, markPath(v) when b is true
        (nwk.go:239-250): walk the Parent links from v to the root and set
        every node's mark to b. */
    method MarkUp(v: int, b: bool)
      requires Valid() && v in nodes
      modifies this
      ensures Valid() && Snapshot() == old(Snapshot()).(nodes := MarkPath(old(nodes), old(anc)[v], b))
    {
      ghost var a := Snapshot();
      ghost var p := a.anc[v];
      AncDistinct(a, v);
      MarkPathLinks(a, p, b);
      var x := Some(v);
      ghost var j := 0;
      while x != None
        invariant 0 <= j <= |p| && x == (if j < |p| then Some(p[j]) else None)
        invariant nodes == MarkPath(a.nodes, p[..j], b)
        invariant kids == a.kids && anc == a.anc && next == a.next
        decreases |p| - j
      {
        AncStep(a, v, j);
        var y := x.value;
        MarkPathStep(a.nodes, p, j, b);
        nodes := nodes[y := nodes[y].(marked := b)];
        x := nodes[y].parent;
        j := j + 1;
      }
      assert p[..j] == p;
    }

    /** v.LCA(w) (nwk.go:76-85): clear both paths, mark v's path, then walk
        up from w to the first marked node; nil when there is none. */
    method LCA(v: int, w: int) returns (r: Option<int>)
      requires Valid() && v in nodes && w in nodes
      modifies this
      ensures Valid() && r == LcaSpec(old(Snapshot()), v, w)
      ensures Snapshot() == old(Snapshot()).(nodes := LcaMarks(old(Snapshot()), v, w))
    {
      ghost var a := Snapshot();
      MarkUp(v, false);
      MarkUp(w, false);
      MarkUp(v, true);
      assert nodes == LcaMarks(a, v, w);
      r := FirstMarked(w);
      LcaFound(a, v, w);
    }

    /** The walk of LCA after the marking (nwk.go:80-83): follow Parent from
        w while the node is not marked. */
    method FirstMarked(w: int) returns (r: Option<int>)
      requires Valid() && w in nodes
      ensures r == MarkedOn(nodes, anc[w])
    {
      ghost var a := Snapshot();
      ghost var q := a.anc[w];
      AncInArena(a, w);
      r := Some(w);
      ghost var j := 0;
      AncDistinct(a, w);
      while r != None && !nodes[r.value].marked
        invariant 0 <= j <= |q| && r == (if j < |q| then Some(q[j]) else None)
        invariant AllIn(a, q)
        invariant MarkedOn(nodes, q) == MarkedOn(nodes, q[j..])
        decreases |q| - j
      {
        AncStep(a, w, j);
        assert q[j..][1..] == q[j + 1..];
        r := nodes[r.value].parent;
        j := j + 1;
      }
    }

    /** v.UpDistance(w) (nwk.go:87-99): add up the lengths met walking up
        from v until a node with w's Id; the walk falling off the root is
        the process exit, here an error. */
    method UpDistance(v: int, w: int) returns (r: Result<real>)
      requires Valid() && v in nodes
      ensures r == UpDistanceSpec(Snapshot(), v, w)
    {
      ghost var a := Snapshot();
      ghost var p := a.anc[v];
      AncDistinct(a, v);
      AncInArena(a, v);
      var s := 0.0;
      var x := Some(v);
      ghost var j := 0;
      while x != None && x.value != w
        invariant 0 <= j <= |p| && x == (if j < |p| then Some(p[j]) else None)
        invariant w !in p[..j] && AllIn(a, p[..j])
        invariant s == PathLength(a, p[..j])
        decreases |p| - j
      {
        AncStep(a, v, j);
        var y := x.value;
        PathLengthConcat(a, p[..j], [y]);
        assert p[..j + 1] == p[..j] + [y];
        s := s + nodes[y].length;
        x := nodes[y].parent;
        j := j + 1;
      }
      if x == None {
        assert p[..j] == p;
        return Err(NotAncestor);
      }
      IndexAt(p, w, j);
      return Ok(s);
    }

    /** v.UniformLabels(pre) (nwk.go:101-104): label(v, pre). */
    method UniformLabels(v: int, pre: string)
      requires Valid() && v in nodes
      modifies this
      ensures Valid() && Snapshot() == RelabelSpec(old(Snapshot()), v, pre)
    {
      ghost var a := Snapshot();
      Label(v, pre);
      RelabelledIsSpec(a, Snapshot(), v, pre);
      RelabelledLinked(a, Snapshot(), Reach(a, v), pre);
    }

    /** label(v, pre) (nwk.go:251-258): label v's Child, then v's Sib, then
        name v pre followed by its Id. The nil test of the Go code is made
        by the caller. */
    method Label(k: int, pre: string)
      requires Valid() && k in nodes
      modifies this
      ensures Relabelled(old(Snapshot()), Snapshot(), Reach(old(Snapshot()), k), pre)
      decreases |nodes| - |anc[k]|, Rank(Snapshot(), k)
    {
      ghost var a := Arena(nodes, kids, anc, next);
      ghost var below := ChildPart(a, k);
      ghost var after := SibPart(a, k);
      DepthBound(a, k);
      var c := nodes[k].child;
      var s := nodes[k].sib;
      if c.Some? {
        ChildStep(a, k);
        assert below == Reach(a, c.value);
        Label(c.value, pre);
      } else {
        RelabelledNothing(a, pre);
      }
      ghost var b := Arena(nodes, kids, anc, next);
      assert Relabelled(a, b, below, pre);
      RelabelledLinked(a, b, below, pre);
      if s.Some? {
        SibStep(a, k);
        ReachSameLinks(a, b, s.value);
        assert after == Reach(b, s.value);
        Label(s.value, pre);
      } else {
        RelabelledNothing(b, pre);
      }
      ghost var d := Arena(nodes, kids, anc, next);
      assert Relabelled(b, d, after, pre);
      assert k in d.nodes;
      nodes := nodes[k := nodes[k].(name := pre + Itoa(k))];
      LabelAssemble(a, b, d, Arena(nodes, kids, anc, next), k, below, after, pre);
    }
  }
}
