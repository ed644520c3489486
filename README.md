# nwk in Dafny

A model of the Go package `nwk` (file `nwk.go`), which reads, edits and
writes phylogenies in Newick format. A tree is a graph of `Node`s linked by
first-child (`Child`), next-sibling (`Sib`) and `Parent` pointers, with a
package-wide Id counter. The model covers four parts of the package.

- **Tree surgery** (`arena.dfy`, `forest.dfy`). The class `Forests.Forest`
  holds every node under its Id (`nodes`) and the counter (`next`). Its
  methods `NewNode`, `AddChild`, `RemoveChild`, `LCA` (with
  `clearPath`/`markPath` as `MarkUp`), `UpDistance`, `UniformLabels` and
  `label` follow the pointer walks of the Go code loop by loop. Each is
  proved to reach exactly the state that a pure function of
  `Arenas` gives (`AddChildSpec`, `RemoveChildSpec`, `LcaSpec`, ...). The
  invariant `Linked` says that the ghost child chains and ancestor paths
  agree with the Child/Sib/Parent links, that paths are acyclic and that
  every Id is below the counter. Lemmas about the pure functions state
  what the package promises.
- **Read-only traversals** (`tree.dfy`). These are `writeTree`/`printLabel`
  (`String`), `show`/`printNode` (`Print`) and `collectLabels` (`Key`).
  Each is a function over the tree value `NewickTree.Tree`, following
  the Go recursion along the sibling chain. Each is proved equal to an
  independent reference definition (a node is its children's list and its
  label; one line per node; the set of labels).
- **The record normalizer** (`normalize.dfy`). These are the four string
  replacements and the `isNum` scan that wraps branch lengths in double
  quotes, plus the underscore rule for unquoted tokens.
- **The tree builder** (`builder.dfy`, `reading.dfy`). This is the
  single-cursor loop of `Scanner.Tree` over a token sequence. `Run` states
  the loop token by token. `Builder.Build` is the loop itself on a
  `Forest`, proved to reach `Run`'s state. `Reading.BuildReadsWriteTree`
  proves that the builder, run on the tokens of any written tree whose
  root has children and whose labels and lengths read back, builds a root
  whose tree `writeTree` renders exactly as the input tree.

Text helpers (`strings.ReplaceAll`, `strconv.Itoa`, `sort.Strings`,
`strings.Join`) are in `text.dfy`. `Option`, `Result` and the error kinds
are in `wrappers.dfy`. Floating-point parsing and `%.3g` printing are
parameters (`parse`, `fmt`) throughout.

## Model

| member | source | states |
|---|---|---|
| Forests.Forest.constructor | nwk.go:33 | an empty heap whose first Id handed out is 1 |
| Forests.Forest.NewNode | nwk.go:232-238 | returns the old counter as a fresh Id, adds a blank node under it, advances the counter, keeps the heap well linked |
| Arenas.NewNodeLinked | nwk.go:232-238 | a new node keeps the heap well linked and changes no existing node, chain or path |
| Forests.Forest.AddChild | nwk.go:35-47 | the Sib walk reaches the end of n's chain; the new state is AddChildSpec (v's Parent is n, v hangs after the last child or becomes Child) and stays well linked |
| Arenas.AddChildRec | nwk.go:35-47 | per node: v gains Parent n, n gains Child v only when it had none, the old last child gains Sib v, every other node is unchanged; only n's chain grows, by v |
| Arenas.AdoptedLast | nwk.go:35-47 | after AddChild, n's chain is the old chain followed by v, so v is last |
| Arenas.AddChildLinked | nwk.go:35-47 | AddChild of a parentless node that is not an ancestor of n keeps the heap well linked |
| Forests.Forest.RemoveChild | nwk.go:49-74 | the scan and splice reach exactly RemoveChildSpec: the error results leave the heap unchanged, success detaches c |
| Arenas.RemoveChildErrors | nwk.go:50-66 | "no children" exactly when v has no child, "child not found" exactly when c is not in v's chain, and nothing changes on either error |
| Arenas.RemoveChildChain | nwk.go:54-72 | on success v's chain keeps every member except c and is one shorter |
| Arenas.RemoveChildRoot | nwk.go:57-58 | the removed node has nil Sib and Parent and is a root of its own |
| Arenas.RemoveChildOthers | nwk.go:49-74 | every node other than v, c and c's predecessor in the chain is unchanged |
| Arenas.DetachRec | nwk.go:54-72 | per node: the link that pointed at c now points at c's Sib, c loses Sib and Parent, nothing else changes |
| Arenas.RemoveChildLinked | nwk.go:49-74 | RemoveChild keeps the heap well linked in every outcome |
| Arenas.RemoveAfterAdd | nwk.go:35-74 | AddChild(v) followed by RemoveChild(v) succeeds and restores the heap exactly |
| Forests.Forest.MarkUp | nwk.go:239-250 | clearPath/markPath set the mark of exactly the nodes on v's path to the root and change nothing else |
| Forests.Forest.LCA | nwk.go:76-85 | returns LcaSpec, the first node of w's path that is on v's path, or nil; the marks are left as LcaMarks |
| Forests.Forest.FirstMarked | nwk.go:81-84 | the walk up from w stops at the first marked node of w's path, or nil |
| Arenas.FirstCommon | nwk.go:81-84 | the result is on both paths and is preceded on the first by no common node; nil only when the paths are disjoint |
| Arenas.LcaFound | nwk.go:78-84 | after clearing both paths and marking v's, the first marked node on w's path is LcaSpec(v, w) |
| Arenas.LcaMarksMeaning | nwk.go:239-250 | after the three walks a node is marked iff it is on v's path, or unchanged when on neither path; no other field changes |
| Arenas.MarkedOnIsFirstCommon | nwk.go:81-84 | when the marks are exactly membership in t, the first marked node of s is the first node of s in t |
| Arenas.LcaIsLowest | nwk.go:76-85 | the LCA is a common ancestor below every common ancestor; nil means no common ancestor |
| Arenas.LcaSymmetric | nwk.go:76-85 | v.LCA(w) and w.LCA(v) agree |
| Arenas.LcaSelf | nwk.go:76-85 | v.LCA(v) is v |
| Forests.Forest.UpDistance | nwk.go:87-99 | the accumulator loop returns UpDistanceSpec: the sum of lengths from v up to but excluding the first node with w's Id, or the not-an-ancestor error |
| Arenas.UpDistanceSelf | nwk.go:87-99 | the distance from v to itself is 0 |
| Arenas.UpDistanceParent | nwk.go:87-99 | the distance to the parent is v's own length |
| Arenas.UpDistanceAdd | nwk.go:87-99 | distances add along a path: v to u is v to w plus w to u |
| Arenas.PathLengthConcat | nwk.go:91-94 | the sum of lengths over two consecutive stretches of a path is the sum of the two |
| Forests.Forest.UniformLabels | nwk.go:101-104 | the new state is RelabelSpec: every node reached by label gets pre followed by its Id |
| Forests.Forest.Label | nwk.go:251-258 | the recursion renames exactly the nodes of Reach(k), with pre followed by their Id, and changes nothing else |
| Arenas.ReachMeaning | nwk.go:251-258 | label reaches exactly the descendants of v and of its later siblings |
| Arenas.RelabelEffect | nwk.go:251-258 | relabelling changes only names, and names exactly the nodes below v or its later siblings |
| Arenas.RelabelIdempotent | nwk.go:251-258 | relabelling twice with the same prefix equals relabelling once |
| Arenas.AncDistinct | nwk.go:18-25 | in a well-linked heap every path to the root starts at the node and repeats no node |
| Arenas.KidsDistinct | nwk.go:18-25 | no child chain repeats a node |
| Arenas.AncSuffix | nwk.go:18-25 | an ancestor's path is a suffix of its descendant's path |
| NewickTree.WriteTreeIsNewick | nwk.go:259-278 | writeTree on a root equals the reference rendering: the parenthesised comma-separated children, the label, then ";" |
| NewickTree.WriteChainJoined | nwk.go:263-273 | a child chain is written as its subtrees joined by commas, preceded by a comma unless it starts at a first child, closed by ")" |
| NewickTree.WriteTreeShape | nwk.go:259-291 | the text of a root ends with ";" and has one "(" and one ")" per node with children, when no label or length contains a parenthesis |
| NewickTree.ParensPerInternalNode | nwk.go:266-273 | each node with children contributes exactly one "(" and one ")" |
| NewickTree.RootLengthNotWritten | nwk.go:288 | the root's length never appears in the output |
| NewickTree.PrintLabelNoParen | nwk.go:279-291 | printLabel adds no parenthesis of its own |
| NewickTree.ShowChainIsOutline | nwk.go:292-299 | show (sibling first, then the node, then its children one level deeper) equals the outline of the chain from its last member back |
| NewickTree.PrintTreeLines | nwk.go:292-308 | Print on a root is the outline and has one line per node |
| NewickTree.Indent | nwk.go:301-303 | the indentation of level h is 3h blanks |
| NewickTree.LineHasOneBreak | nwk.go:300-308 | printNode writes one line |
| NewickTree.CollectChainIsLabels | nwk.go:309-318 | collectLabels over a chain gathers exactly the non-empty labels of the chain and all their descendants |
| NewickTree.ForestLabelsMember | nwk.go:309-318 | a label is collected iff some tree of the chain carries it |
| NewickTree.KeyIsSortedLabels | nwk.go:122-136 | Key is the strictly sorted list of the subtree's distinct non-empty labels, joined by sep |
| NewickTree.KeyIgnoresChildOrder | nwk.go:122-136 | Key does not depend on the order of the root's children |
| NewickTree.RelabelChainSpec | nwk.go:251-258 | on the tree view, label changes names only and gives every node of the chain and below pre followed by its Id |
| NewickTree.RelabelChainIdempotent | nwk.go:251-258 | on the tree view, relabelling twice equals relabelling once |
| NewickTree.RelabelChainAt | nwk.go:251-258 | on the tree view, each member of a chain is relabelled on its own, independent of its siblings |
| Reading.RelabelView | nwk.go:251-258 | below a root, the subtree read from the heap after label is the tree-view relabelling of the subtree read before |
| Reading.UniformLabelsView | nwk.go:101-104 | UniformLabels on a root, seen as a Tree, is the tree-view relabelling of that root's tree, so the heap and tree models of label agree |
| Text.ReplaceCharAt | nwk.go:155 | replacing one character by another keeps the length and changes exactly the matching positions |
| Text.CharSwapRoundTrip | nwk.go:183 | blanks written as underscores read back as blanks when the text had no underscore |
| Text.ReplaceAllAbsent | nwk.go:153-156 | a replacement whose pattern does not occur changes nothing |
| Text.DecimalValue | nwk.go:257 | the decimal digits of n denote n |
| Text.ItoaInjective | nwk.go:257 | different Ids give different decimal texts, so uniform labels are distinct |
| Text.SortedMembers | nwk.go:129-133 | the sorted list of a set holds each member once, in strictly ascending order |
| Text.SortedMembersUnique | nwk.go:129-133 | there is only one such list |
| Text.AtMostTotal | nwk.go:133 | the string order is total |
| Text.AtMostTransitive | nwk.go:133 | the string order is transitive |
| Text.AtMostAntisymmetric | nwk.go:133 | the string order is antisymmetric |
| Normalizer.RewriteRemovesBrackets | nwk.go:153-156 | no "[" or "]" survives the four replacements |
| Normalizer.RewritePlain | nwk.go:153-156 | text without brackets and quotes passes unchanged |
| Normalizer.QuotedLabelRewrite | nwk.go:153-156 | a label printLabel quotes comes back as its Go string literal, when it contains no double quote or bracket and does not begin with an apostrophe |
| Normalizer.LeadingApostropheBreaks | nwk.go:153-156 | the label `'(` is written as `'''('` and rewritten to `'"("`, not to its literal `"'("` |
| Normalizer.QuotedLabelRewriteFixed | nwk.go:153-156 | with Newick quotes read left to right, every label printLabel quotes that contains no double quote or bracket comes back as its Go string literal, whatever its first character |
| Normalizer.RewriteFixedPlain | nwk.go:153-156 | the corrected rewrite, like the rewrite of nwk.go, leaves text without brackets or apostrophes alone |
| Normalizer.QuoteNumbers | nwk.go:157-171 | the isNum loop appending to c2 computes Quote(c1, false) |
| Normalizer.QuoteOnlyInserts | nwk.go:157-171 | the scan only inserts double quotes: removing them gives back the input without its own |
| Normalizer.QuoteNoColon | nwk.go:157-171 | text without ":" is not changed by the scan |
| Normalizer.QuoteLength | nwk.go:161-168 | at the head of the text, a length ":num" followed by ",", ";", blank or ")" is wrapped as `":num"` and the rest is scanned afresh |
| Normalizer.QuoteConcat | nwk.go:157-171 | the scan splits at any point: the second part is scanned from the flag the first part leaves |
| Normalizer.QuoteLengthAfter | nwk.go:161-168 | after any prefix that does not end inside a length, ":num" followed by ",", ";", blank or ")" is wrapped as `":num"` |
| Normalizer.Normalize | nwk.go:153-171 | the whole normalizer is the scan applied to the rewritten text |
| Normalizer.NormalizedQuotedLabel | nwk.go:153-171 | a label printLabel quotes leaves the normalizer as its Go string literal, when it contains no colon, double quote or bracket and does not begin with an apostrophe |
| Normalizer.UnquotedToken | nwk.go:183 | an unquoted token contains no underscore after the rewrite |
| Normalizer.PlainLabelRoundTrip | nwk.go:183 | on a label printLabel does not quote, the underscore-to-blank rule undoes printLabel's blank-to-underscore exactly when the label has no underscore |
| Normalizer.NormalizedPlainLabel | nwk.go:153-183 | a label printLabel does not quote, with no apostrophe, double quote, bracket or colon, passes the normalizer unchanged, and the underscore rule then gives it back exactly when it has no underscore |
| Builder.Open | nwk.go:191-197 | "(" keeps the heap well linked and leaves the cursor on a node |
| Builder.Close | nwk.go:198-200 | ")" keeps the heap well linked |
| Builder.Comma | nwk.go:201-206 | "," keeps the heap well linked whenever it succeeds |
| Builder.SetLength | nwk.go:207-214 | a ":" token keeps the heap well linked whenever it succeeds |
| Builder.SetLabel | nwk.go:218-220 | a label token keeps the heap well linked |
| Builder.Step | nwk.go:190-220 | every successful loop body keeps the heap well linked and the cursor on a node or nil |
| Builder.Run | nwk.go:187-224 | every successful run keeps the heap well linked |
| Builder.CommaIsAdoption | nwk.go:201-206 | on a cursor that is its parent's last child, the comma's three pointer writes are AddChild of the new node to the parent |
| Builder.Build | nwk.go:187-224 | the loop over a Forest returns Run's final cursor and leaves Run's heap, or stops with Run's error |
| Builder.OpenAt | nwk.go:191-197 | the "(" branch on a Forest reaches Open's state |
| Builder.CommaAt | nwk.go:201-206 | the "," branch on a Forest reaches Comma's state, and leaves the heap unchanged on error |
| Reading.ToTree | nwk.go:18-25 | the tree view of node k has k's Id and label and one subtree per member of k's chain |
| Reading.RunConcat | nwk.go:189-222 | without ";" in the first part, running two token sequences in a row is running their concatenation |
| Reading.SubtreeNoStop | nwk.go:215-217 | the tokens of a tree whose names read back contain no ";", so the loop runs to the end |
| Reading.OpenAdopts | nwk.go:191-197 | "(" on a childless cursor hangs one new node under it and moves to it |
| Reading.OpenRootAdopts | nwk.go:191-197 | "(" on a nil cursor makes a root, hangs a new node under it and moves to it |
| Reading.CommaSprouts | nwk.go:201-206 | "," on a last child appends a new sibling under the same parent and moves to it |
| Reading.LabelRun | nwk.go:207-220 | the label and length tokens of a tree write exactly its name and, below the root, its length into the cursor |
| Reading.TreeReads | nwk.go:187-224 | the tokens of a readable tree, read at a childless cursor, build PlaceTree and return the cursor to that node |
| Reading.ChainReads | nwk.go:187-224 | the tokens of a comma-separated list of trees build PlaceChain and leave the cursor on the last of them |
| Reading.TreeShape | nwk.go:187-224 | reading a subtree changes only the node it starts at and nodes with new Ids |
| Reading.ChainShape | nwk.go:187-224 | reading a list of subtrees appends their roots to the parent's chain and changes no older node |
| Reading.TreeBuilt | nwk.go:187-224 | the node a subtree is read into carries that subtree's names, lengths and chains, all built from new Ids |
| Reading.ChainBuilt | nwk.go:187-224 | each tree of a list is built at the corresponding member of the new chain |
| Reading.SubtreeOfBuilt | nwk.go:259-291 | a node built after a tree is written exactly as that tree |
| Reading.RootShape | nwk.go:191-197 | the root read from a nil cursor has no parent, and no earlier node changes |
| Reading.RootNewick | nwk.go:187-224 | the whole token sequence of a written tree is read to ";" and leaves the cursor on the new root |
| Reading.RootWritten | nwk.go:259-291 | the new root is written exactly as the input tree |
| Reading.BuildReadsWriteTree | nwk.go:187-224 | reading the tokens of a written tree with children succeeds, returns a new parentless root, changes no earlier node, and the root is written back exactly as the input tree |
| Reading.LoneRootUnread | nwk.go:187-224 | a tree without children is not read back: an unnamed one gives a nil tree, a named one fails on a nil cursor |

## Left out

- Stream reading: `Scanner.Scan`, `NewScanner`, `Text` and the `bufio.Reader` (nwk.go:139-146, 228-230, 321-325) are I/O.
- Tokenization by `text/scanner` (nwk.go:172-186) is a foreign library. The builder takes the token sequence as input. Only the underscore rule for unquoted tokens (nwk.go:183) is modelled.
- `strconv.Unquote` (nwk.go:178) is Go's string-escape grammar from a foreign library. A failing unquote is a process exit and is not modelled.
- `strconv.ParseFloat` (nwk.go:208) and `%.3g` (nwk.go:289) are the parameters `parse` and `fmt`. Lengths are reals, so `UpDistance` adds without rounding.
- Process exits become error results: `log.Fatal` in UpDistance is `NotAncestor` and the failed ParseFloat is `BadLength`. The nil dereferences of the builder (`)`, `,`, `:` or a label on a nil cursor) are `NilCursor`. Indexing an empty token is `EmptyToken`.
- Forests.Forest.AddChild: requires v to have no Parent and not to be n or an ancestor of n (`Arenas.CanAdopt`). With such a v the Go code still runs. A v with a Parent is relinked to n but left in its old parent's Child/Sib chain, so its later siblings join n's chain along with it. n itself or an ancestor of n closes a cycle. Every caller passes a fresh `NewNode()` (nwk.go:195, and the surgery example of nwk_test.go), which meets the requirement.
- Builder.Comma: a comma on a node that already has a Sib, or on a node without a Parent, is refused with `SibOverwrite` or `TopLevelComma`. The Go code overwrites the Sib (detaching the old siblings) or makes a parentless sibling of the root. Such states are not trees, so the model does not follow them.
- Nodes are identified by Id: `RemoveChild` and `UpDistance` compare Ids, and the heap holds one node per Id. Two distinct nodes sharing an Id cannot be expressed.
- The package counter `nodeId` is the field `Forest.next`. Concurrent use of it is not modelled.
- `writeTree`, `show` and `collectLabels` are modelled on the tree view (`Reading.ToTree`), not on the heap. writeTree's test `v.Parent.Child.Id != v.Id` is the `first` flag of `WriteChain`.
- UniformLabels follows the code and not its doc comment (nwk.go:101), which promises to label the nodes of the subtree. `label` also recurses into v's Sib (nwk.go:256), so on a node that is not a root it renames v's later siblings and their subtrees too (`Arenas.ReachMeaning`). On a root, the case every caller uses, the two agree (`Reading.UniformLabelsView`). This is recorded here rather than as a finding, because the comment may just assume a root.
- A childless named root, written `A;`, makes the builder set a label through a nil cursor (nwk.go:218-219), a run-time panic in Go (`Reading.LoneRootUnread`). It is recorded here rather than as a finding, because a corrected builder is not modelled.
- Reading.BuildReadsWriteTree: it covers trees whose root has children and whose labels do not begin with `)`, `(`, `,`, `:` or `;`, and whose lengths parse back. `Reading.LoneRootUnread` shows what happens to a childless root.
- Reading.BuildReadsWriteTree: it does not state that Ids are drawn in creation order, because the shape, names and lengths are compared but not the Ids.
- The round trip is proved on tokens. Text to tokens goes through the tokenizer, which is left out. `Normalizer.NormalizedQuotedLabel` covers single quoted labels that contain no colon, double quote or bracket and do not begin with an apostrophe. `Normalizer.NormalizedPlainLabel` covers unquoted labels with no apostrophe, double quote, bracket or colon: they pass the normalizer unchanged and come back exactly when they have no underscore. Whether such a label is one token (`a-b` is three Go tokens and the builder keeps only the last; `a;b` stops the tree at `;`) is a question for the tokenizer, so it is not covered.
- The literal strings of nwk_test.go (the re-serialised test tree, its uniform labels, its outline) are not restated as lemmas. Evaluating them costs more than the solver budget. The generic lemmas above state the same behaviour for every tree.
- Key: `sort.Strings` orders by bytes and `Text.AtMost` by characters. For UTF-8 text both give the same order.

## Findings

| source | as written | input that shows it | evidently intended | confidence | as-written member | corrected member |
|---|---|---|---|---|---|---|
| nwk.go:155-156 | every `'` becomes `"`, then every `""` (left to right) becomes `'` | the label `'(`, written by printLabel as `'''('`, is rewritten to `'"("` | a quoted label reads back as its Go string literal `"'("` | not executed | Normalizer.LeadingApostropheBreaks | Normalizer.QuotedLabelRewriteFixed |
