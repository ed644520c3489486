/** The value of a Newick subtree and the read-only traversals of nwk.go
    (writeTree/printLabel, show/printNode, collectLabels/Key, label) written
    over it. Each traversal walks a sibling chain `ts` (ts[0] is the node
    the Go function was called on, ts[1..] its later siblings) exactly as the
    Go recursion follows `Child` and `Sib`; each is paired with an
    independent reference definition and a lemma connecting the two. */
module NewickTree {
  import opened Text

  /** A node and everything below it: the Go Node's Id, Label (here `name`), Length and
      HasLength, and its children in sibling-chain order. */
  datatype Tree = Node(id: int, name: string, length: real, hasLength: bool, kids: seq<Tree>)

  function Size(t: Tree): nat
    decreases t, 1
  {
    1 + ForestSize(t.kids)
  }

  function ForestSize(ts: seq<Tree>): nat
    decreases ts, 0
  {
    if ts == [] then 0 else Size(ts[0]) + ForestSize(ts[1..])
  }

  /** The node and its later siblings are each smaller than the chain. */
  lemma ChainSmaller(ts: seq<Tree>)
    requires ts != []
    ensures ForestSize(ts[0].kids) < Size(ts[0]) <= ForestSize(ts)
    ensures ForestSize(ts[1..]) < ForestSize(ts)
  {
  }

  /** Number of nodes that have at least one child. */
  function Internal(t: Tree): nat
    decreases Size(t), 1
  {
    (if t.kids == [] then 0 else 1) + ForestInternal(t.kids)
  }

  function ForestInternal(ts: seq<Tree>): nat
    decreases ForestSize(ts), 2
  {
    if ts == [] then 0 else ChainSmaller(ts); Internal(ts[0]) + ForestInternal(ts[1..])
  }

  // ---------------------------------------------------------------------
  // Serializer: printLabel and writeTree (nwk.go:259-291)
  // ---------------------------------------------------------------------

  /** The name as printLabel writes it: quoted, with every apostrophe
      doubled, when it contains a parenthesis or a comma; otherwise with
      every blank written as an underscore. */
  function LabelText(name: string): string {
    if ContainsAny(name, "(),") then "'" + ReplaceAll(name, "'", "''") + "'"
    else ReplaceAll(name, " ", "_")
  }

  /** printLabel: the name, then `:` and the length when the node has a
      length and a parent. `fmt` is the `%.3g` rendering of a float64. */
  function PrintLabel(v: Tree, hasParent: bool, fmt: real -> string): string {
    LabelText(v.name) + (if v.hasLength && hasParent then ":" + fmt(v.length) else "")
  }

  /** writeTree(v): `ts` is the chain from v along Sib, `first` says whether
      v is its parent's first child and `hasParent` whether v has a parent.
      In order: a comma unless v is a first child (roots get none), `(` and
      the chain of v's children when it has any, v's label, the chain of v's
      later siblings, and then `)` after the last sibling or `;` after a
      root. */
  function WriteChain(ts: seq<Tree>, first: bool, hasParent: bool, fmt: real -> string): string
    requires ts != []
    decreases ForestSize(ts), 4
  {
    ChainSmaller(ts);
    var self := NodeText(ts[0], hasParent, fmt);
    var after :=
      if |ts| > 1 then
        (if hasParent then WriteChain(ts[1..], false, hasParent, fmt)
         else WriteChain(ts[1..], false, hasParent, fmt) + ";")
      else if hasParent then ")" else ";";
    if hasParent && !first then "," + self + after else self + after
  }

  /** What writeTree emits for a node between its leading comma and its
      later siblings: `(` and its children's chain when it has children,
      then its label. */
  function NodeText(v: Tree, hasParent: bool, fmt: real -> string): string
    decreases Size(v), 3
  {
    if v.kids == [] then PrintLabel(v, hasParent, fmt)
    else ChainSmaller([v]); "(" + WriteChain(v.kids, true, true, fmt) + PrintLabel(v, hasParent, fmt)
  }

  /** String() on a root: the chain holding the root alone. */
  function WriteTree(t: Tree, fmt: real -> string): string {
    WriteChain([t], true, false, fmt)
  }

  /** Reference rendering: a node is its parenthesized, comma-separated
      children (if any) followed by its name. */
  function Subtree(t: Tree, hasParent: bool, fmt: real -> string): string
    decreases Size(t), 1
  {
    (if t.kids == [] then "" else "(" + Joined(t.kids, fmt) + ")") + PrintLabel(t, hasParent, fmt)
  }

  function Joined(ts: seq<Tree>, fmt: real -> string): string
    decreases ForestSize(ts), 2
  {
    if ts == [] then ""
    else if |ts| == 1 then ChainSmaller(ts); Subtree(ts[0], true, fmt)
    else ChainSmaller(ts); Subtree(ts[0], true, fmt) + "," + Joined(ts[1..], fmt)
  }

  /** The Newick text of a whole tree: the root's rendering and `;`. */
  function Newick(t: Tree, fmt: real -> string): string {
    Subtree(t, false, fmt) + ";"
  }

  /** A child chain written by writeTree is the comma-separated list of its
      subtrees, preceded by a comma unless it starts at a first child, and
      closed by the `)` that the last sibling emits. */
  lemma {:induction false} WriteChainJoined(ts: seq<Tree>, first: bool, fmt: real -> string)
    requires ts != []
    ensures WriteChain(ts, first, true, fmt) == (if first then "" else ",") + Joined(ts, fmt) + ")"
    decreases ForestSize(ts)
  {
    ChainSmaller(ts);
    if ts[0].kids != [] {
      WriteChainJoined(ts[0].kids, true, fmt);
    }
    if |ts| > 1 {
      WriteChainJoined(ts[1..], false, fmt);
    }
    NodeWrittenAsSubtree(ts[0], true, fmt);
    ChainStep(ts, first, fmt);
  }

  lemma NodeWrittenAsSubtree(v: Tree, hasParent: bool, fmt: real -> string)
    requires v.kids != [] ==> WriteChain(v.kids, true, true, fmt) == "" + Joined(v.kids, fmt) + ")"
    ensures NodeText(v, hasParent, fmt) == Subtree(v, hasParent, fmt)
  {
    var lab := PrintLabel(v, hasParent, fmt);
    if v.kids != [] {
      var jk := Joined(v.kids, fmt);
      assert "" + jk == jk;
      Regroup("(", jk, ")", lab);
    }
  }

  lemma ChainStep(ts: seq<Tree>, first: bool, fmt: real -> string)
    requires ts != []
    requires NodeText(ts[0], true, fmt) == Subtree(ts[0], true, fmt)
    requires |ts| > 1 ==> WriteChain(ts[1..], false, true, fmt) == "," + Joined(ts[1..], fmt) + ")"
    ensures WriteChain(ts, first, true, fmt) == (if first then "" else ",") + Joined(ts, fmt) + ")"
  {
    var self := Subtree(ts[0], true, fmt);
    var lead := if first then "" else ",";
    WriteChainUnfold(ts, first, fmt);
    if |ts| > 1 {
      var j := Joined(ts[1..], fmt);
      assert Joined(ts, fmt) == self + "," + j;
      Regroup5(lead, self, ",", j, ")");
    } else {
      assert Joined(ts, fmt) == self;
    }
  }

  /** One step of writeTree along a chain of siblings below a parent. */
  lemma WriteChainUnfold(ts: seq<Tree>, first: bool, fmt: real -> string)
    requires ts != []
    ensures WriteChain(ts, first, true, fmt) ==
      (if first then "" else ",") + NodeText(ts[0], true, fmt)
      + (if |ts| > 1 then WriteChain(ts[1..], false, true, fmt) else ")")
  {
    var self := NodeText(ts[0], true, fmt);
    var after := if |ts| > 1 then WriteChain(ts[1..], false, true, fmt) else ")";
    if first {
      assert WriteChain(ts, first, true, fmt) == self + after;
      assert "" + self == self;
    } else {
      assert WriteChain(ts, first, true, fmt) == "," + self + after;
    }
  }

  lemma Regroup5(a: string, b: string, c: string, d: string, e: string)
    ensures a + b + (c + d + e) == a + (b + c + d) + e
  {
  }

  lemma Regroup3(a: string, b: string, c: string)
    ensures a + b + c == a + (b + c)
  {
  }

  lemma Regroup(a: string, b: string, c: string, d: string)
    ensures a + b + c + d == a + (b + c + d) == (a + b) + (c + d)
  {
  }

  /** writeTree on a root produces the reference Newick text. */
  lemma WriteTreeIsNewick(t: Tree, fmt: real -> string)
    ensures WriteTree(t, fmt) == Newick(t, fmt)
  {
    if t.kids != [] {
      WriteChainJoined(t.kids, true, fmt);
    }
    NodeWrittenAsSubtree(t, false, fmt);
    assert WriteTree(t, fmt) == NodeText(t, false, fmt) + ";";
  }

  /** The serialization of a root never shows the root's own length. */
  lemma RootLengthNotWritten(t: Tree, len: real, has: bool, fmt: real -> string)
    ensures WriteTree(t.(length := len, hasLength := has), fmt) == WriteTree(t, fmt)
  {
    WriteTreeIsNewick(t, fmt);
    WriteTreeIsNewick(t.(length := len, hasLength := has), fmt);
  }

  /** No name and no rendered length contains the character `c`. */
  predicate NoCharInLabels(t: Tree, c: char)
    decreases t
  {
    c !in t.name && forall k :: k in t.kids ==> NoCharInLabels(k, c)
  }

  lemma LabelTextNoChar(name: string, c: char)
    requires c == '(' || c == ')'
    requires c !in name
    ensures c !in LabelText(name)
  {
    ReplaceAllNoNewChar(name, "'", "''", c);
    ReplaceAllNoNewChar(name, " ", "_", c);
  }

  /** When labels and rendered lengths hold no parentheses, the Newick text
      of a tree has exactly one `(` and one `)` per node with children. */
  lemma {:induction false} ParensPerInternalNode(t: Tree, hasParent: bool, fmt: real -> string, c: char)
    requires c == '(' || c == ')'
    requires NoCharInLabels(t, c)
    requires forall x :: c !in fmt(x)
    ensures Count(c, Subtree(t, hasParent, fmt)) == Internal(t)
    decreases Size(t), 1
  {
    var lab := PrintLabel(t, hasParent, fmt);
    PrintLabelNoParen(t, hasParent, fmt, c);
    if t.kids == [] {
      assert Subtree(t, hasParent, fmt) == lab;
    } else {
      ParensInJoined(t.kids, fmt, c);
      var j := Joined(t.kids, fmt);
      assert Subtree(t, hasParent, fmt) == "(" + j + ")" + lab;
      assert Count(c, "(") + Count(c, ")") == 1;
      CountConcat(c, "(" + j + ")", lab);
      CountConcat(c, "(" + j, ")");
      CountConcat(c, "(", j);
    }
  }

  lemma PrintLabelNoParen(t: Tree, hasParent: bool, fmt: real -> string, c: char)
    requires c == '(' || c == ')'
    requires c !in t.name
    requires forall x :: c !in fmt(x)
    ensures Count(c, PrintLabel(t, hasParent, fmt)) == 0
  {
    LabelTextNoChar(t.name, c);
    if t.hasLength && hasParent {
      CountConcat(c, LabelText(t.name), ":" + fmt(t.length));
      CountConcat(c, ":", fmt(t.length));
    }
  }

  lemma {:induction false} ParensInJoined(ts: seq<Tree>, fmt: real -> string, c: char)
    requires c == '(' || c == ')'
    requires forall k :: k in ts ==> NoCharInLabels(k, c)
    requires forall x :: c !in fmt(x)
    ensures Count(c, Joined(ts, fmt)) == ForestInternal(ts)
    decreases ForestSize(ts), 2
  {
    if ts != [] {
      ChainSmaller(ts);
      ParensPerInternalNode(ts[0], true, fmt, c);
      if |ts| > 1 {
        ParensInJoined(ts[1..], fmt, c);
        var a := Subtree(ts[0], true, fmt);
        var b := Joined(ts[1..], fmt);
        CountConcat(c, a + ",", b);
        CountConcat(c, a, ",");
      } else {
        assert ForestInternal(ts[1..]) == 0;
      }
    }
  }

  /** The serialization of a root ends with `;` and, when labels and lengths
      hold no parentheses, has one `(` and one `)` per node with children. */
  lemma WriteTreeShape(t: Tree, fmt: real -> string)
    requires NoCharInLabels(t, '(') && NoCharInLabels(t, ')')
    requires forall x :: '(' !in fmt(x) && ')' !in fmt(x)
    ensures var w := WriteTree(t, fmt);
      w != [] && w[|w| - 1] == ';' && Count('(', w) == Internal(t) && Count(')', w) == Internal(t)
  {
    WriteTreeIsNewick(t, fmt);
    var s := Subtree(t, false, fmt);
    ParensPerInternalNode(t, false, fmt, '(');
    ParensPerInternalNode(t, false, fmt, ')');
    CountConcat('(', s, ";");
    CountConcat(')', s, ";");
  }

  // ---------------------------------------------------------------------
  // Indented printer: show and printNode (nwk.go:292-308)
  // ---------------------------------------------------------------------

  /** h levels of three blanks each. */
  function Indent(h: nat): (r: string)
    ensures |r| == 3 * h && forall i :: 0 <= i < |r| ==> r[i] == ' '
  {
    if h == 0 then "" else "   " + Indent(h - 1)
  }

  /** printNode: the indentation, the name (or `*` when it is empty) and a
      line break. */
  function Line(name: string, h: nat): string {
    Indent(h) + (if name == "" then "*" else name) + "\n"
  }

  /** show(v, h): first the later siblings, then v itself, then v's
      children one level deeper. */
  function ShowChain(ts: seq<Tree>, h: nat): string
    requires ts != []
    decreases ForestSize(ts)
  {
    ChainSmaller(ts);
    (if |ts| > 1 then ShowChain(ts[1..], h) else "")
    + Line(ts[0].name, h)
    + (if ts[0].kids != [] then ShowChain(ts[0].kids, h + 1) else "")
  }

  /** Reference outline: a tree is its own line followed by the outlines of
      its children, last child first. */
  function Outline(t: Tree, h: nat): string
    decreases Size(t), 1
  {
    Line(t.name, h) + OutlineBackwards(t.kids, h + 1)
  }

  function OutlineBackwards(ts: seq<Tree>, h: nat): string
    decreases ForestSize(ts), 2
  {
    if ts == [] then "" else ChainSmaller(ts); OutlineBackwards(ts[1..], h) + Outline(ts[0], h)
  }

  /** show lists the siblings of a chain in reverse order, each with its
      subtree directly below it. */
  lemma {:induction false} ShowChainIsOutline(ts: seq<Tree>, h: nat)
    requires ts != []
    ensures ShowChain(ts, h) == OutlineBackwards(ts, h)
    decreases ForestSize(ts)
  {
    ChainSmaller(ts);
    if ts[0].kids != [] {
      ShowChainIsOutline(ts[0].kids, h + 1);
    }
    if |ts| > 1 {
      ShowChainIsOutline(ts[1..], h);
    }
    OutlineStep(ts, h);
  }

  /** One unfolding of show against the reference outline. */
  lemma OutlineStep(ts: seq<Tree>, h: nat)
    requires ts != []
    requires ts[0].kids != [] ==> ShowChain(ts[0].kids, h + 1) == OutlineBackwards(ts[0].kids, h + 1)
    requires |ts| > 1 ==> ShowChain(ts[1..], h) == OutlineBackwards(ts[1..], h)
    ensures ShowChain(ts, h) == OutlineBackwards(ts, h)
  {
    var rest := OutlineBackwards(ts[1..], h);
    var line := Line(ts[0].name, h);
    var kidsText := OutlineBackwards(ts[0].kids, h + 1);
    assert ShowChain(ts, h) == rest + line + kidsText;
    assert OutlineBackwards(ts, h) == rest + (line + kidsText);
    Regroup3(rest, line, kidsText);
  }

  /** No name contains the character `c`. */
  predicate NoCharInForest(ts: seq<Tree>, c: char) {
    forall k :: k in ts ==> NoCharInLabels(k, c)
  }

  /** When no name contains a line break, Print emits one line per node. */
  lemma {:induction false} OutlineLines(t: Tree, h: nat)
    requires NoCharInLabels(t, '\n')
    ensures Count('\n', Outline(t, h)) == Size(t)
    decreases Size(t), 1
  {
    LineHasOneBreak(t.name, h);
    OutlineBackwardsLines(t.kids, h + 1);
    CountConcat('\n', Line(t.name, h), OutlineBackwards(t.kids, h + 1));
  }

  lemma LineHasOneBreak(name: string, h: nat)
    requires '\n' !in name
    ensures Count('\n', Line(name, h)) == 1
  {
    var lab := if name == "" then "*" else name;
    var ind := Indent(h);
    assert Count('\n', "\n") == 1;
    CountConcat('\n', ind, lab);
    CountConcat('\n', ind + lab, "\n");
  }

  lemma {:induction false} OutlineBackwardsLines(ts: seq<Tree>, h: nat)
    requires NoCharInForest(ts, '\n')
    ensures Count('\n', OutlineBackwards(ts, h)) == ForestSize(ts)
    decreases ForestSize(ts), 2
  {
    if ts != [] {
      ChainSmaller(ts);
      OutlineBackwardsLines(ts[1..], h);
      OutlineLines(ts[0], h);
      CountConcat('\n', OutlineBackwards(ts[1..], h), Outline(ts[0], h));
    }
  }

  /** Print() on a root. */
  function PrintTree(t: Tree): string {
    ShowChain([t], 0)
  }

  lemma PrintTreeLines(t: Tree)
    requires NoCharInLabels(t, '\n')
    ensures PrintTree(t) == Outline(t, 0)
    ensures Count('\n', PrintTree(t)) == Size(t)
  {
    ShowChainIsOutline([t], 0);
    assert OutlineBackwards([t], 0) == OutlineBackwards([], 0) + Outline(t, 0);
    OutlineLines(t, 0);
  }

  // ---------------------------------------------------------------------
  // Label fingerprint: collectLabels and Key (nwk.go:122-136, 309-318)
  // ---------------------------------------------------------------------

  function NonEmpty(name: string): set<string> {
    if name == "" then {} else {name}
  }

  /** collectLabels(v): the non-empty labels of v's chain and all their
      descendants. */
  function CollectChain(ts: seq<Tree>): set<string>
    requires ts != []
    decreases ForestSize(ts)
  {
    ChainSmaller(ts);
    NonEmpty(ts[0].name)
    + (if ts[0].kids != [] then CollectChain(ts[0].kids) else {})
    + (if |ts| > 1 then CollectChain(ts[1..]) else {})
  }

  /** Key(sep): the distinct non-empty labels of the receiver and all its
      descendants, in ascending order, joined by `sep`. */
  function Key(t: Tree, sep: string): string {
    var labels := NonEmpty(t.name) + (if t.kids != [] then CollectChain(t.kids) else {});
    Join(SortedMembers(labels), sep)
  }

  /** Reference: the non-empty labels occurring in a tree. */
  function Labels(t: Tree): set<string>
    decreases Size(t), 1
  {
    NonEmpty(t.name) + ForestLabels(t.kids)
  }

  function ForestLabels(ts: seq<Tree>): set<string>
    decreases ForestSize(ts), 2
  {
    if ts == [] then {} else ChainSmaller(ts); Labels(ts[0]) + ForestLabels(ts[1..])
  }

  /** A label occurs in a list of trees when it occurs in one of them. */
  lemma {:induction false} ForestLabelsMember(ts: seq<Tree>, l: string)
    ensures l in ForestLabels(ts) <==> exists k :: k in ts && l in Labels(k)
    decreases |ts|
  {
    if ts != [] {
      ForestLabelsMember(ts[1..], l);
      assert ts[0] in ts;
      forall k | k in ts && l in Labels(k) ensures l in ForestLabels(ts) {
        if k != ts[0] {
          assert k in ts[1..];
        }
      }
      if l in ForestLabels(ts[1..]) {
        var k :| k in ts[1..] && l in Labels(k);
        assert k in ts;
      }
    }
  }

  lemma {:induction false} CollectChainIsLabels(ts: seq<Tree>)
    requires ts != []
    ensures CollectChain(ts) == ForestLabels(ts)
    decreases ForestSize(ts)
  {
    ChainSmaller(ts);
    if ts[0].kids != [] {
      CollectChainIsLabels(ts[0].kids);
    } else {
      assert ForestLabels(ts[0].kids) == {};
    }
    if |ts| > 1 {
      CollectChainIsLabels(ts[1..]);
    } else {
      assert ForestLabels(ts[1..]) == {};
    }
    assert ForestLabels(ts) == Labels(ts[0]) + ForestLabels(ts[1..]);
  }

  /** Key is the sorted, joined set of labels of the subtree. */
  lemma KeyIsSortedLabels(t: Tree, sep: string)
    ensures Key(t, sep) == Join(SortedMembers(Labels(t)), sep)
  {
    if t.kids != [] {
      CollectChainIsLabels(t.kids);
    }
  }

  /** The key does not depend on the order of the children. */
  lemma KeyIgnoresChildOrder(t: Tree, kids: seq<Tree>, sep: string)
    requires multiset(kids) == multiset(t.kids)
    ensures Key(t.(kids := kids), sep) == Key(t, sep)
  {
    KeyIsSortedLabels(t, sep);
    KeyIsSortedLabels(t.(kids := kids), sep);
    forall k ensures k in kids <==> k in t.kids {
      assert k in kids <==> k in multiset(kids);
      assert k in t.kids <==> k in multiset(t.kids);
    }
    forall l ensures l in ForestLabels(kids) <==> l in ForestLabels(t.kids) {
      ForestLabelsMember(kids, l);
      ForestLabelsMember(t.kids, l);
    }
    assert Labels(t.(kids := kids)) == Labels(t);
  }


  // ---------------------------------------------------------------------
  // Uniform labels: label (nwk.go:101-104, 251-258)
  // ---------------------------------------------------------------------

  /** label(v, pre): relabels v's chain and every descendant with the prefix
      followed by the node's Id. */
  function RelabelChain(ts: seq<Tree>, pre: string): (r: seq<Tree>)
    ensures |r| == |ts|
    decreases ForestSize(ts)
  {
    if ts == [] then []
    else
      ChainSmaller(ts);
      var v := ts[0];
      var kids := if v.kids != [] then RelabelChain(v.kids, pre) else [];
      [v.(name := pre + Itoa(v.id), kids := kids)] + RelabelChain(ts[1..], pre)
  }

  /** The tree with every name erased: shape, ids and lengths only. */
  function Unlabelled(t: Tree): Tree
    decreases t
  {
    Node(t.id, "", t.length, t.hasLength, seq(|t.kids|, i requires 0 <= i < |t.kids| => Unlabelled(t.kids[i])))
  }

  /** Every node of the tree carries the label prefix + Id. */
  predicate Uniform(t: Tree, pre: string)
    decreases t
  {
    t.name == pre + Itoa(t.id) && forall k :: k in t.kids ==> Uniform(k, pre)
  }

  /** Relabelling changes labels only, and afterwards every node of the
      chain and below carries prefix + Id. */
  lemma {:induction false} RelabelChainSpec(ts: seq<Tree>, pre: string)
    ensures forall i :: 0 <= i < |ts| ==>
      Unlabelled(RelabelChain(ts, pre)[i]) == Unlabelled(ts[i]) && Uniform(RelabelChain(ts, pre)[i], pre)
    decreases ForestSize(ts)
  {
    if ts != [] {
      ChainSmaller(ts);
      var v := ts[0];
      var r := RelabelChain(ts, pre);
      RelabelChainSpec(ts[1..], pre);
      var kids := if v.kids != [] then RelabelChain(v.kids, pre) else [];
      if v.kids != [] {
        RelabelChainSpec(v.kids, pre);
      }
      assert |kids| == |v.kids|;
      assert Unlabelled(r[0]).kids == Unlabelled(v).kids;
      forall k | k in r[0].kids ensures Uniform(k, pre) {
        var i :| 0 <= i < |kids| && kids[i] == k;
      }
      forall i | 1 <= i < |ts|
        ensures Unlabelled(r[i]) == Unlabelled(ts[i]) && Uniform(r[i], pre)
      {
        assert r[i] == RelabelChain(ts[1..], pre)[i - 1];
      }
    }
  }

  /** Relabelling is idempotent. */
  lemma {:induction false} RelabelChainIdempotent(ts: seq<Tree>, pre: string)
    ensures RelabelChain(RelabelChain(ts, pre), pre) == RelabelChain(ts, pre)
    decreases ForestSize(ts)
  {
    if ts != [] {
      ChainSmaller(ts);
      var v := ts[0];
      var r := RelabelChain(ts, pre);
      RelabelChainIdempotent(ts[1..], pre);
      if v.kids != [] {
        RelabelChainIdempotent(v.kids, pre);
      }
      assert r[1..] == RelabelChain(ts[1..], pre);
    }
  }

  /** A chain is relabelled tree by tree: member i of the relabelled chain
      is the relabelling of member i alone. */
  lemma {:induction false} RelabelChainAt(ts: seq<Tree>, pre: string, i: int)
    requires 0 <= i < |ts|
    ensures RelabelChain(ts, pre)[i] == RelabelChain([ts[i]], pre)[0]
    decreases |ts|
  {
    if i > 0 {
      RelabelChainAt(ts[1..], pre, i - 1);
      assert RelabelChain(ts, pre)[i] == RelabelChain(ts[1..], pre)[i - 1];
      assert ts[1..][i - 1] == ts[i];
    }
  }
}
