/** The tree builder at the end of Scanner.Tree (nwk.go:187-224): a single
    cursor moved over the token sequence, creating nodes with NewNode and
    writing their links, labels and lengths. `Run` states what the loop
    computes, token by token, on the value of the heap; `Build` is the loop
    itself over a Forest and is proved to reach exactly that state. The
    conversion of length text to a number (strconv.ParseFloat) is the
    parameter `parse`. */
module Builder {
  import opened Wrappers
  import opened Arenas
  import opened Forests

  /** The heap and the cursor v of the loop. */
  datatype Parse = Parse(arena: Arena, cursor: Option<int>)

  /** A well-linked heap and a cursor that is nil or one of its nodes. */
  predicate Sound(s: Parse) {
    Linked(s.arena) && (s.cursor.Some? ==> s.cursor.value in s.arena.nodes)
  }

  /** The next Id is never on the path of an existing node. */
  lemma FreshOffPath(a: Arena, k: int)
    requires Linked(a) && k in a.nodes
    ensures a.next !in a.anc[k]
  {
    if a.next in a.anc[k] {
      AncSuffix(a, k, a.next);
      assert false;
    }
  }

  /** A node with a parent and no sibling is the last of its parent's
      chain. */
  lemma LastOfChain(a: Arena, v: int, p: int)
    requires Linked(a) && v in a.nodes && a.nodes[v].parent == Some(p) && a.nodes[v].sib == None
    ensures p in a.nodes && a.kids[p] != [] && a.kids[p][|a.kids[p]| - 1] == v
  {
    assert NodeOk(a, v);
    var ks := a.kids[p];
    var i :| 0 <= i < |ks| && ks[i] == v;
    assert MemberOk(a, p, i);
  }

  /** `(`: make a root when the cursor is nil, hang a new node under the
      cursor, and move the cursor to the cursor's first child. */
  function Open(s: Parse): (r: Parse)
    requires Sound(s)
    ensures Sound(r) && r.cursor.Some?
  {
    var a := s.arena;
    NewNodeLinked(a);
    var a1 := if s.cursor == None then NewNodeSpec(a) else a;
    var root := if s.cursor == None then a.next else s.cursor.value;
    NewNodeLinked(a1);
    var c := a1.next;
    var a2 := NewNodeSpec(a1);
    FreshOffPath(a1, root);
    AddChildLinked(a2, root, c);
    AddChildHead(a2, root, c, root);
    AddChildRec(a2, root, c, root);
    var a3 := AddChildSpec(a2, root, c);
    assert MemberOk(a3, root, 0);
    Parse(a3, a3.nodes[root].child)
  }

  /** `)`: move the cursor to its parent. */
  function Close(s: Parse): (r: Parse)
    requires Sound(s) && s.cursor.Some?
    ensures Sound(r)
  {
    assert NodeOk(s.arena, s.cursor.value);
    Parse(s.arena, s.arena.nodes[s.cursor.value].parent)
  }

  /** `,`: a new node becomes the cursor's Sib, with the cursor's Parent,
      and the cursor moves to it. Over a cursor that is the last child of
      its parent this is n.AddChild of the new node; the two other cases
      are errors here (see SibOverwrite and TopLevelComma). */
  function Comma(s: Parse): (r: Result<Parse>)
    requires Sound(s)
    ensures r.Ok? ==> Sound(r.value)
  {
    if s.cursor == None then Err(NilCursor)
    else
      var a, v := s.arena, s.cursor.value;
      if a.nodes[v].sib != None then Err(SibOverwrite)
      else if a.nodes[v].parent == None then Err(TopLevelComma)
      else
        var p := a.nodes[v].parent.value;
        assert NodeOk(a, v);
        NewNodeLinked(a);
        FreshOffPath(a, p);
        var a1 := NewNodeSpec(a);
        AddChildLinked(a1, p, a.next);
        AddChildKeys(a1, p, a.next);
        Ok(Parse(AddChildSpec(a1, p, a.next), Some(a.next)))
  }

  /** Writing a node's label, length or mark keeps the heap well linked. */
  lemma SetPayloadLinked(a: Arena, v: int, r: Rec)
    requires Linked(a) && v in a.nodes
    requires r.child == a.nodes[v].child && r.sib == a.nodes[v].sib && r.parent == a.nodes[v].parent
    ensures Linked(a.(nodes := a.nodes[v := r]))
  {
    SameLinksLinked(a, a.(nodes := a.nodes[v := r]));
  }

  /** A `:`-token: parse the rest of the token and store it as the
      cursor's Length, setting HasLength. The parse failure comes first. */
  function SetLength(s: Parse, text: string, parse: string -> Option<real>): (r: Result<Parse>)
    requires Sound(s)
    ensures r.Ok? ==> Sound(r.value)
  {
    var l := parse(text);
    if l == None then Err(BadLength)
    else if s.cursor == None then Err(NilCursor)
    else
      var a, v := s.arena, s.cursor.value;
      var rec := a.nodes[v].(length := l.value, hasLength := true);
      SetPayloadLinked(a, v, rec);
      Ok(Parse(a.(nodes := a.nodes[v := rec]), s.cursor))
  }

  /** Any other token becomes the cursor's Label. */
  function SetLabel(s: Parse, t: string): (r: Parse)
    requires Sound(s) && s.cursor.Some?
    ensures Sound(r)
  {
    var a, v := s.arena, s.cursor.value;
    var rec := a.nodes[v].(name := t);
    SetPayloadLinked(a, v, rec);
    Parse(a.(nodes := a.nodes[v := rec]), s.cursor)
  }

  /** The characters that keep a token from being a label. */
  const Structural := ")(,:;"

  /** One pass of the loop body for a token other than `;`. */
  function Step(s: Parse, t: string, parse: string -> Option<real>): (r: Result<Parse>)
    requires Sound(s)
    ensures r.Ok? ==> Sound(r.value)
  {
    if t == "(" then Ok(Open(s))
    else if t == ")" then (if s.cursor == None then Err(NilCursor) else Ok(Close(s)))
    else if t == "," then Comma(s)
    else if t == [] then Err(EmptyToken)
    else if t[0] == ':' then SetLength(s, t[1..], parse)
    else if t[0] in Structural then Ok(s)
    else if s.cursor == None then Err(NilCursor)
    else Ok(SetLabel(s, t))
  }

  /** The loop over the tokens: stop at the end or at `;`, otherwise take
      one step. The tree returned is the final cursor. */
  function Run(s: Parse, tokens: seq<string>, parse: string -> Option<real>): (r: Result<Parse>)
    requires Sound(s)
    ensures r.Ok? ==> Sound(r.value)
    decreases |tokens|
  {
    if tokens == [] || tokens[0] == ";" then Ok(s)
    else match Step(s, tokens[0], parse)
      case Err(e) => Err(e)
      case Ok(s1) => Run(s1, tokens[1..], parse)
  }

  /** The comma's pointer writes on a last child are n.AddChild of the new
      node. */
  lemma CommaIsAdoption(a: Arena, v: int, p: int)
    requires Linked(a) && v in a.nodes && a.nodes[v].parent == Some(p) && a.nodes[v].sib == None
    ensures p in a.nodes && CanAdopt(NewNodeSpec(a), p, a.next)
    ensures var a1 := NewNodeSpec(a); var s := a.next;
      AddChildSpec(a1, p, s)
      == Arena(a1.nodes[s := a1.nodes[s].(parent := Some(p))][v := a1.nodes[v].(sib := Some(s))],
               a1.kids[p := a1.kids[p] + [s]],
               map k | k in a1.anc :: if s in a1.anc[k] then a1.anc[k] + a1.anc[p] else a1.anc[k],
               a1.next)
  {
    LastOfChain(a, v, p);
    NewNodeLinked(a);
    FreshOffPath(a, p);
  }

  /** Scanner.Tree's builder loop (nwk.go:187-224) over the Forest `f`,
      starting from a nil cursor. */
  method Build(f: Forest, tokens: seq<string>, parse: string -> Option<real>) returns (res: Result<Option<int>>)
    requires f.Valid()
    modifies f
    ensures f.Valid()
    ensures match Run(Parse(old(f.Snapshot()), None), tokens, parse)
      case Ok(s) => res == Ok(s.cursor) && f.Snapshot() == s.arena
      case Err(e) => res == Err(e)
  {
    ghost var s0 := Parse(f.Snapshot(), None);
    var v: Option<int> := None;
    var i := 0;
    while i < |tokens|
      invariant 0 <= i <= |tokens| && f.Valid() && Sound(Parse(f.Snapshot(), v))
      invariant Run(s0, tokens, parse) == Run(Parse(f.Snapshot(), v), tokens[i..], parse)
      decreases |tokens| - i
    {
      var t := tokens[i];
      ghost var s := Parse(f.Snapshot(), v);
      assert tokens[i..][0] == t && tokens[i..][1..] == tokens[i + 1..];
      if t == "(" {
        v := OpenAt(f, v);
      }
      if t == ")" {
        if v == None {
          return Err(NilCursor);
        }
        assert NodeOk(f.Snapshot(), v.value);
        v := f.nodes[v.value].parent;
      }
      if t == "," {
        var r := CommaAt(f, v);
        if r.Err? {
          return Err(r.error);
        }
        v := r.value;
      }
      if t == [] {
        return Err(EmptyToken);
      }
      if t[0] == ':' {
        var l := parse(t[1..]);
        if l == None {
          return Err(BadLength);
        }
        if v == None {
          return Err(NilCursor);
        }
        SetPayloadLinked(f.Snapshot(), v.value, f.nodes[v.value].(length := l.value, hasLength := true));
        f.nodes := f.nodes[v.value := f.nodes[v.value].(length := l.value, hasLength := true)];
      }
      if t == ";" {
        break;
      }
      if t[0] !in Structural {
        if v == None {
          return Err(NilCursor);
        }
        SetPayloadLinked(f.Snapshot(), v.value, f.nodes[v.value].(name := t));
        f.nodes := f.nodes[v.value := f.nodes[v.value].(name := t)];
      }
      assert Step(s, t, parse) == Ok(Parse(f.Snapshot(), v));
      i := i + 1;
    }
    if i == |tokens| {
      assert tokens[i..] == [];
    }
    return Ok(v);
  }

  /** The `(` branch of the loop body: NewNode for the root when the
      cursor is nil, v.AddChild(NewNode()), then v = v.Child. */
  method OpenAt(f: Forest, v: Option<int>) returns (w: Option<int>)
    requires f.Valid() && Sound(Parse(f.Snapshot(), v))
    modifies f
    ensures f.Valid() && Parse(f.Snapshot(), w) == Open(Parse(old(f.Snapshot()), v))
  {
    ghost var a := f.Snapshot();
    NewNodeLinked(a);
    var u := v;
    if u == None {
      var root := f.NewNode();
      u := Some(root);
    }
    ghost var a1 := f.Snapshot();
    FreshOffPath(a1, u.value);
    NewNodeLinked(a1);
    var c := f.NewNode();
    f.AddChild(u.value, c);
    w := f.nodes[u.value].child;
  }

  /** The `,` branch of the loop body: s := NewNode(); s.Parent = v.Parent;
      v.Sib = s; v = s, refused where it would corrupt the tree. */
  method CommaAt(f: Forest, v: Option<int>) returns (r: Result<Option<int>>)
    requires f.Valid() && Sound(Parse(f.Snapshot(), v))
    modifies f
    ensures f.Valid()
    ensures match Comma(Parse(old(f.Snapshot()), v))
      case Ok(s) => r == Ok(s.cursor) && f.Snapshot() == s.arena
      case Err(e) => r == Err(e) && f.Snapshot() == old(f.Snapshot())
  {
    if v == None {
      return Err(NilCursor);
    }
    if f.nodes[v.value].sib != None {
      return Err(SibOverwrite);
    }
    if f.nodes[v.value].parent == None {
      return Err(TopLevelComma);
    }
    ghost var a := f.Snapshot();
    CommaIsAdoption(a, v.value, f.nodes[v.value].parent.value);
    AddChildLinked(NewNodeSpec(a), f.nodes[v.value].parent.value, a.next);
    var n := f.NewNode();
    var p := f.nodes[v.value].parent;
    f.nodes := f.nodes[n := f.nodes[n].(parent := p)];
    f.nodes := f.nodes[v.value := f.nodes[v.value].(sib := Some(n))];
    f.kids := f.kids[p.value := f.kids[p.value] + [n]];
    f.anc := map k | k in f.anc :: if n in f.anc[k] then f.anc[k] + f.anc[p.value] else f.anc[k];
    return Ok(Some(n));
  }
}
