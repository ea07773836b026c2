# DiffDetective core in Dafny

This project models the core of DiffDetective, a library that analyses edits
to C-preprocessor annotated source code. A *difftree* (variation diff) holds
one node per annotation and per artifact. Each node has a diff type (ADD,
REM, NON), a node type (ROOT, IF, ELIF, ELSE, ARTIFACT), an optional
formula, and a parent before and after the edit. The model covers:

- the difftree's node operations: construction, parent and child edits,
  queries, ids, feature mappings, presence conditions, consistency;
- the SAT facade on formulas;
- the proposed elementary edit patterns and the refactoring edit class;
- the partial-configuration (view) analysis;
- Boolean abstraction of macro conditions;
- the line-graph node and edge formats, and the node label formats;
- the AddIfdefElif and AddIfdefElse semantic patterns;
- the duplicate filter, the formal tree graph, and metadata merging and printing.

A difftree is modelled as a map from node ids to node records (`DiffGraph.Graph`).
Java object references are the ids; `null` is `None`. `DiffEdits` defines every
mutating `DiffNode` operation as a function from a graph to an outcome: a
result, an exception and a new graph. The `DiffEditor.NodeHeap` class holds the
graph as a mutable field. Each of its methods mirrors one mutator and
`ensures` that the heap ends as that function says. The lemmas in `DiffEdits`
prove that the mutators keep the two-way parent/child links consistent, which
is the invariant documented on `DiffNode`.

Java exceptions are `Wrappers.Exception` values inside `Result`. Java `int`
arithmetic is written out as 32-bit wrap-around wherever the source depends
on it (ids, bit vectors, `1 << n`).

The SAT solver, CNF conversion and Tseytin transformation are foreign code.
They are parameters (`Sat.Logic`), and every property that depends on them
assumes only that they are sound.

## Model

| member | source | states |
|---|---|---|
| DiffTypes.DiffTypeOfOrdinal | src/main/java/org/variantsync/diffdetective/mining/formats/ReleaseMiningDiffNodeFormat.java:58-60 | `DiffType.values()[i]` is the constant whose ordinal is `i`, for each of the three ordinals |
| DiffTypes.OrdinalRoundTrip | src/main/java/org/variantsync/diffdetective/mining/formats/ReleaseMiningDiffNodeFormat.java:15-19 | the diff-type ordinal written into a label is decoded back to the same diff type (REM = 2 as documented) |
| DiffTypes.NodeTypeOfOrdinal | src/main/java/org/variantsync/diffdetective/mining/formats/ReleaseMiningDiffNodeFormat.java:61-63 | `NodeType.values()[i]` is the constant whose ordinal is `i`, for each of the five ordinals |
| DiffTypes.NodeTypeOrdinalRoundTrip | src/main/java/org/variantsync/diffdetective/mining/formats/ReleaseMiningDiffNodeFormat.java:15-19 | the node-type ordinal written into a label is decoded back to the same node type (ELSE = 3 as documented) |
| DiffTypes.ThatExistsOnlyAt | src/main/java/org/variantsync/diffdetective/diff/difftree/DiffNode.java:777-782 | the diff type of a node with a parent at only one time: it exists at that time and not at the other |
| DiffGraph.CreateRoot | src/main/java/org/variantsync/diffdetective/diff/difftree/DiffNode.java:105-113 | the root is an unchanged IF node with formula true, no parents and no children |
| DiffGraph.CreateArtifact | src/main/java/org/variantsync/diffdetective/diff/difftree/DiffNode.java:121-131 | an artifact has the given diff type, line range and label, no formula, no parents and no children |
| DiffGraph.Node.WithParent | src/main/java/org/variantsync/diffdetective/diff/difftree/DiffNode.java:261-264 | setting the parent at one time leaves the parent at the other time, the child order and the types unchanged |
| DiffGraph.HeightFuelIndependent | src/main/java/org/variantsync/diffdetective/diff/difftree/DiffNode.java:201-207 | the length of a parent chain does not depend on the bound used to prove it finite |
| DiffGraph.ParentHeight | src/main/java/org/variantsync/diffdetective/diff/difftree/DiffNode.java:201-207 | the parent at `t` is a node of the diff and one step closer to the top of the chain |
| DiffGraph.Path | src/main/java/org/variantsync/diffdetective/diff/difftree/DiffNode.java:213-224 | the chain of parents at `t` starts at the node, links each node to its parent, and ends at a node without parent |
| DiffGraph.Top | src/main/java/org/variantsync/diffdetective/diff/difftree/DiffNode.java:185-207 | the top of a parent chain is a node of the diff without parent at `t` |
| DiffGraph.TopOfParent | src/main/java/org/variantsync/diffdetective/diff/difftree/DiffNode.java:185-207 | the chain of a node and that of its parent end at the same node |
| DiffGraph.PathSuffix | src/main/java/org/variantsync/diffdetective/diff/difftree/DiffNode.java:213-224 | dropping the first `i` nodes of a chain gives the chain of the `i`-th node |
| DiffGraph.PrefixAll | src/main/java/org/variantsync/diffdetective/diff/difftree/DiffNode.java:814-820 | each line gets the prefix, and the number of lines is unchanged |
| DiffGraph.JoinPrefixed | src/main/java/org/variantsync/diffdetective/diff/difftree/DiffNode.java:814-820 | prefixing the first line and every separator equals joining the prefixed lines |
| DiffGraph.TextDiffLineSplits | src/main/java/org/variantsync/diffdetective/diff/difftree/DiffNode.java:814-820 | `toTextDiffLine` splits back at line breaks into the lines, each prefixed with the diff symbol; no lines give the bare symbol |
| DiffQueries.IfNode | src/main/java/org/variantsync/diffdetective/diff/difftree/DiffNode.java:170-178 | `getIfNode` finds the first IF on the chain upwards; none when the chain reaches the root without one; NullPointer when it ends at a parentless non-root |
| DiffQueries.IfNodeStep | src/main/java/org/variantsync/diffdetective/diff/difftree/DiffNode.java:170-178 | the IF found from a non-IF node is the IF found from its parent |
| DiffQueries.Depth | src/main/java/org/variantsync/diffdetective/diff/difftree/DiffNode.java:201-207 | `getDepth` is the number of parent steps to the root, and NullPointer where the chain ends elsewhere |
| DiffQueries.AnnotationDepth | src/main/java/org/variantsync/diffdetective/diff/difftree/DiffNode.java:185-195 | `getAnnotationDepth` counts the IF nodes on the chain, excluding the top, and fails exactly where `getDepth` fails |
| DiffQueries.AnnotationDepthAtMostDepth | src/main/java/org/variantsync/diffdetective/diff/difftree/DiffNode.java:185-207 | the annotation depth succeeds iff the depth does and never exceeds it |
| DiffQueries.BeforePathEqualsAfterPath | src/main/java/org/variantsync/diffdetective/diff/difftree/DiffNode.java:213-224 | true iff the parent chain before the edit is the same chain of nodes as after it |
| DiffQueries.DifferentParentsDifferentPaths | src/main/java/org/variantsync/diffdetective/diff/difftree/DiffNode.java:213-224 | a node whose two parents differ never has equal paths |
| DiffQueries.CountChangedSuffix | src/main/java/org/variantsync/diffdetective/diff/difftree/DiffNode.java:237-255 | a suffix of a chain has no more changed annotations than the chain |
| DiffQueries.AboveGoverningIf | src/main/java/org/variantsync/diffdetective/diff/difftree/DiffNode.java:237-255 | above the governing IF of a node there are no more changed annotations than above the node |
| DiffQueries.ChainAbove | src/main/java/org/variantsync/diffdetective/diff/difftree/DiffNode.java:237-255 | the chain above the `k`-th node of a chain is the rest of the chain |
| DiffQueries.ChangeAmount | src/main/java/org/variantsync/diffdetective/diff/difftree/DiffNode.java:237-255 | `getChangeAmount` never exceeds the number of changed annotations on the chain; its only error is NullPointer; its exact value is stated by `DiffQueries.ChangeAmountCollapses` |
| DiffQueries.FirstIf | src/main/java/org/variantsync/diffdetective/diff/difftree/DiffNode.java:170-178 | the index of the first IF node in a chain, none iff the chain has no IF |
| DiffQueries.IfNodeIsFirstIf | src/main/java/org/variantsync/diffdetective/diff/difftree/DiffNode.java:170-178 | `getIfNode` finds a node iff the chain has an IF, and then it is the chain's first IF |
| DiffQueries.ChangeAmountCollapses | src/main/java/org/variantsync/diffdetective/diff/difftree/DiffNode.java:233-255 | `getChangeAmount` equals the count read off the parent chain: a changed IF counts one; a changed ELIF/ELSE counts one and counting resumes above the first IF further up; 0 at a root; NullPointer exactly where that IF, its parent or a root is missing |
| DiffQueries.CollapsedCountsAll | src/main/java/org/variantsync/diffdetective/diff/difftree/DiffNode.java:233-255 | on a chain ending at a root with no changed ELIF/ELSE, the chain count is the number of annotations below the root that exist only at the time |
| DiffQueries.ChangeAmountCountsChanged | src/main/java/org/variantsync/diffdetective/diff/difftree/DiffNode.java:233-255 | on such a chain `getChangeAmount` succeeds and is exactly the number of annotations below the root that exist only at the time |
| NodeIds.Wrap32 | src/main/java/org/variantsync/diffdetective/diff/difftree/DiffNode.java:718-738 | Java `int` arithmetic: the result is a 32-bit value congruent to the exact one, and equal to it when it fits |
| NodeIds.IdLineCheckRange | src/main/java/org/variantsync/diffdetective/diff/difftree/DiffNode.java:718-738 | the shift-left-and-back check accepts exactly the 26-bit signed line numbers |
| NodeIds.GetID | src/main/java/org/variantsync/diffdetective/diff/difftree/DiffNode.java:718-738 | `getID` packs line number + 1, diff-type ordinal and node-type ordinal into three-bit fields; the assertion fails exactly when the line number does not fit into 26 bits |
| NodeIds.FromID | src/main/java/org/variantsync/diffdetective/diff/difftree/DiffNode.java:740-756 | `fromID` fails on ordinals out of range; otherwise it rebuilds the node types, the line number and a True formula exactly for conditional annotations |
| NodeIds.IdRoundTrip | src/main/java/org/variantsync/diffdetective/diff/difftree/DiffNode.java:718-756 | `fromID(getID(n))` recovers the node type, the diff type and the line number in the diff |
| NodeIds.IdInjective | src/main/java/org/variantsync/diffdetective/diff/difftree/DiffNode.java:718-738 | nodes with equal ids agree on the three packed attributes |
| DiffEdits.RemoveFirst | src/main/java/org/variantsync/diffdetective/diff/difftree/DiffNode.java:416-420 | `List.remove(Object)` removes one occurrence of the node; the other members stay |
| DiffEdits.RemoveFirstNoDuplicates | src/main/java/org/variantsync/diffdetective/diff/difftree/DiffNode.java:416-420 | removing from a duplicate-free list leaves no occurrence and no duplicates |
| DiffEdits.SetParent | src/main/java/org/variantsync/diffdetective/diff/difftree/DiffNode.java:261-264 | `setParent` fails its assertion iff the slot is taken; otherwise it changes exactly that slot |
| DiffEdits.AddChild | src/main/java/org/variantsync/diffdetective/diff/difftree/DiffNode.java:331-344 | false and no change if the child does not exist at `t`; IllegalArgument and no change if it has a parent at `t`; a true answer makes it a child at `t` |
| DiffEdits.InsertChild | src/main/java/org/variantsync/diffdetective/diff/difftree/DiffNode.java:316-325 | like `addChild` without the parent check; IndexOutOfBounds iff the index is outside the list, with no change; an AssertionFailure iff the slot was taken |
| DiffEdits.AttachedKeepsLinks | src/main/java/org/variantsync/diffdetective/diff/difftree/DiffNode.java:49-66 | attaching a parentless node keeps the two-way links consistent when the child order changes exactly as needed |
| DiffEdits.AppendNoDuplicates | src/main/java/org/variantsync/diffdetective/diff/difftree/DiffNode.java:331-344 | appending a non-member keeps the list duplicate-free |
| DiffEdits.InsertNoDuplicates | src/main/java/org/variantsync/diffdetective/diff/difftree/DiffNode.java:316-325 | inserting a non-member keeps the list duplicate-free |
| DiffEdits.AddChildAttaches | src/main/java/org/variantsync/diffdetective/diff/difftree/DiffNode.java:331-344 | a successful `addChild` sets the parent and appends the child iff it was no child yet; a failing one changes nothing |
| DiffEdits.AddChildKeepsLinks | src/main/java/org/variantsync/diffdetective/diff/difftree/DiffNode.java:49-66 | `addChild` keeps the links consistent and parents only at times of existence (also lines 331-344) |
| DiffEdits.InsertChildKeepsLinks | src/main/java/org/variantsync/diffdetective/diff/difftree/DiffNode.java:316-325 | a successful `insertChild` of a new child puts it at the index and keeps the links consistent |
| DiffEdits.RemoveChild | src/main/java/org/variantsync/diffdetective/diff/difftree/DiffNode.java:364-371 | `removeChild` answers whether the node is the parent at `t`; if so that slot is emptied, otherwise nothing changes; every other parent slot is unchanged (also lines 300-303, 416-420) |
| DiffEdits.DetachedKeepsLinks | src/main/java/org/variantsync/diffdetective/diff/difftree/DiffNode.java:49-66 | detaching a child keeps the links consistent when the order changes exactly as needed |
| DiffEdits.DetachedShrinks | src/main/java/org/variantsync/diffdetective/diff/difftree/DiffNode.java:364-371 | detaching never creates a parent link and removes the detached one |
| DiffEdits.RemoveChildDetaches | src/main/java/org/variantsync/diffdetective/diff/difftree/DiffNode.java:364-371 | what a successful `removeChild` changes: the slot at `t`, and the order iff no link at the other time (also lines 416-420) |
| DiffEdits.RemoveChildKeepsLinks | src/main/java/org/variantsync/diffdetective/diff/difftree/DiffNode.java:364-371 | after `removeChild` the slot is empty, the child stays listed iff still a child at the other time, and the links stay consistent (also lines 416-420) |
| DiffEdits.RemoveFirstEqual | src/main/java/org/variantsync/diffdetective/diff/difftree/DiffNode.java:416-420 | `List.remove` by `equals` drops one entry with the same attributes, which need not be the node itself (also lines 870-885) |
| DiffEdits.RemoveChildAsWritten | src/main/java/org/variantsync/diffdetective/diff/difftree/DiffNode.java:364-371 | the as-written `removeChild` answers and empties the slot like `RemoveChild`, but edits the order by `equals` (also lines 416-420) |
| DiffEdits.TwinSiblings | src/main/java/org/variantsync/diffdetective/diff/difftree/DiffNode.java:870-885 | a root with two children that `equals` cannot tell apart |
| DiffEdits.TwinSiblingsLinked | src/main/java/org/variantsync/diffdetective/diff/difftree/DiffNode.java:49-66 | the example diff is consistent |
| DiffEdits.RemoveChildAsWrittenLosesSibling | src/main/java/org/variantsync/diffdetective/diff/difftree/DiffNode.java:416-420 | as written, removing the second twin takes the first out of the order and breaks the links; `RemoveChild` keeps them |
| DiffEdits.ChildrenAt | src/main/java/org/variantsync/diffdetective/diff/difftree/DiffNode.java:391-407 | the members of the list whose parent at `t` is the node, in list order, duplicate-free |
| DiffEdits.ChildrenAtFrame | src/main/java/org/variantsync/diffdetective/diff/difftree/DiffNode.java:391-407 | `ChildrenAt` depends only on the parent slots at `t` of the listed nodes |
| DiffEdits.RemoveChildrenFold | src/main/java/org/variantsync/diffdetective/diff/difftree/DiffNode.java:391-407 | the `removeIf` pass keeps the node set and collects only nodes of the diff |
| DiffEdits.RemoveChildrenFoldStep | src/main/java/org/variantsync/diffdetective/diff/difftree/DiffNode.java:391-407 | one step of the `removeIf` pass handles the head, then the rest on the updated graph |
| DiffEdits.RemoveChildrenFoldSpec | src/main/java/org/variantsync/diffdetective/diff/difftree/DiffNode.java:391-407 | over distinct children the pass collects exactly the children at `t`, keeps exactly those at the other time, and clears exactly their slots at `t` |
| DiffEdits.RemoveChildren | src/main/java/org/variantsync/diffdetective/diff/difftree/DiffNode.java:391-407 | `removeChildren(t)` never throws and returns nodes of the diff |
| DiffEdits.ClearedKeepsLinks | src/main/java/org/variantsync/diffdetective/diff/difftree/DiffNode.java:49-66 | clearing all children at `t` and keeping those at the other time keeps the links consistent (also lines 391-407) |
| DiffEdits.RemoveChildrenClears | src/main/java/org/variantsync/diffdetective/diff/difftree/DiffNode.java:391-407 | `removeChildren(t)` returns the children at `t` and clears exactly their slots |
| DiffEdits.FoldCleared | src/main/java/org/variantsync/diffdetective/diff/difftree/DiffNode.java:391-407 | the pass followed by the order update is exactly the clearing step |
| DiffEdits.RemoveChildrenReturnsChildren | src/main/java/org/variantsync/diffdetective/diff/difftree/DiffNode.java:391-407 | `removeChildren(t)` returns exactly the former children at `t`, in child order, each once |
| DiffEdits.RemoveChildrenKeepsLinks | src/main/java/org/variantsync/diffdetective/diff/difftree/DiffNode.java:391-407 | afterwards no node has the parent at `t`, the order keeps exactly the children at the other time, and the links stay consistent |
| DiffEdits.AddChildren | src/main/java/org/variantsync/diffdetective/diff/difftree/DiffNode.java:351-355 | `addChildren` is `addChild` for each in turn; the only possible exception is IllegalArgument |
| DiffEdits.Appended | src/main/java/org/variantsync/diffdetective/diff/difftree/DiffNode.java:351-355 | the nodes appended are exactly those that exist at `t` and were no child yet |
| DiffEdits.AppendedFrame | src/main/java/org/variantsync/diffdetective/diff/difftree/DiffNode.java:351-355 | `Appended` depends only on the parent slots of the given nodes |
| DiffEdits.AttachedAllStep | src/main/java/org/variantsync/diffdetective/diff/difftree/DiffNode.java:351-355 | one `addChild` followed by the rest of the loop attaches the whole list |
| DiffEdits.AttachedAllStepOrder | src/main/java/org/variantsync/diffdetective/diff/difftree/DiffNode.java:351-355 | the child order after the loop is the old one plus `Appended` |
| DiffEdits.AddChildrenSpec | src/main/java/org/variantsync/diffdetective/diff/difftree/DiffNode.java:351-355 | adding distinct parentless nodes never throws, attaches each one existing at `t`, and keeps the links consistent |
| DiffEdits.StealChildrenOf | src/main/java/org/variantsync/diffdetective/diff/difftree/DiffNode.java:428-431 | `stealChildrenOf` keeps the node set |
| DiffEdits.NoChildrenNoOrder | src/main/java/org/variantsync/diffdetective/diff/difftree/DiffNode.java:49-66 | a node that is nobody's parent has an empty order in a consistent diff |
| DiffEdits.FirstInOrderIsChild | src/main/java/org/variantsync/diffdetective/diff/difftree/DiffNode.java:49-66 | the first listed node of a consistent diff is a child |
| DiffEdits.StealChildrenOfSpec | src/main/java/org/variantsync/diffdetective/diff/difftree/DiffNode.java:428-431 | stealing from another node never throws; the other node ends childless; each former child at a time is a child of the thief at that time; nothing else changes |
| DiffEdits.StealHalf | src/main/java/org/variantsync/diffdetective/diff/difftree/DiffNode.java:428-431 | one half of `stealChildrenOf` removes the children at `t` and adds exactly them to the thief without exception |
| DiffEdits.StealStep | src/main/java/org/variantsync/diffdetective/diff/difftree/DiffNode.java:428-431 | each parent slot after the four stages: the thief where the node was a child of the victim, unchanged otherwise |
| DiffEdits.RemoveGivenChildren | src/main/java/org/variantsync/diffdetective/diff/difftree/DiffNode.java:378-383 | `removeChildren(cs)` keeps the node set |
| DiffEdits.RemoveGivenChildrenSpec | src/main/java/org/variantsync/diffdetective/diff/difftree/DiffNode.java:378-383 | none of the given nodes is a child at either time afterwards, no link is created, and the links stay consistent |
| DiffEdits.Drop | src/main/java/org/variantsync/diffdetective/diff/difftree/DiffNode.java:288-295 | `drop` keeps the node set |
| DiffEdits.DropSpec | src/main/java/org/variantsync/diffdetective/diff/difftree/DiffNode.java:288-295 | after `drop` the node is a root in no child order; every other slot is unchanged; the links stay consistent |
| DiffEdits.RemoveChildSameAttrs | src/main/java/org/variantsync/diffdetective/diff/difftree/DiffNode.java:364-371 | `removeChild` keeps every node's attributes |
| DiffEdits.AddBelow | src/main/java/org/variantsync/diffdetective/diff/difftree/DiffNode.java:273-282 | `addBelow` answers whether the node exists at a time for which a parent is given; only IllegalArgument can be thrown; the node set stays |
| DiffEdits.AddChildToOrphan | src/main/java/org/variantsync/diffdetective/diff/difftree/DiffNode.java:331-344 | `addChild` of a parentless node existing at `t` answers true and changes only its slot at `t` |
| DiffEdits.AddBelowSpec | src/main/java/org/variantsync/diffdetective/diff/difftree/DiffNode.java:273-282 | `addBelow` on a root attaches it below the given parents and keeps the links consistent |
| DiffEdits.DropThenAddBelow | src/main/java/org/variantsync/diffdetective/diff/difftree/DiffNode.java:273-295 | `drop` followed by `addBelow` with the former parents restores every parent slot and the contents of every child order |
| DiffEdits.SameParentsSameOrders | src/main/java/org/variantsync/diffdetective/diff/difftree/DiffNode.java:49-66 | in consistent diffs the parent slots determine the contents of every child order |
| DiffEdits.AddBelowThenDrop | src/main/java/org/variantsync/diffdetective/diff/difftree/DiffNode.java:273-295 | `addBelow` on a root followed by `drop` restores every parent slot |
| DiffEditor.NodeHeap.constructor | src/main/java/org/variantsync/diffdetective/diff/difftree/DiffNode.java:49-66 | the heap holds the given diff |
| DiffEditor.NodeHeap.SetParent | src/main/java/org/variantsync/diffdetective/diff/difftree/DiffNode.java:261-264 | updates the heap to the graph `DiffEdits.SetParent` yields, or leaves it unchanged on AssertionFailure |
| DiffEditor.NodeHeap.AddChild | src/main/java/org/variantsync/diffdetective/diff/difftree/DiffNode.java:331-344 | the answer and the new heap are those of `DiffEdits.AddChild`; consistency is preserved |
| DiffEditor.NodeHeap.InsertChild | src/main/java/org/variantsync/diffdetective/diff/difftree/DiffNode.java:316-325 | the answer and the new heap are those of `DiffEdits.InsertChild` |
| DiffEditor.NodeHeap.RemoveChild | src/main/java/org/variantsync/diffdetective/diff/difftree/DiffNode.java:364-371 | the answer and the new heap are those of `DiffEdits.RemoveChild`; consistency is preserved (also lines 416-420) |
| DiffEditor.NodeHeap.ClearChildrenAt | src/main/java/org/variantsync/diffdetective/diff/difftree/DiffNode.java:391-407 | the in-place `removeIf` pass leaves the heap and the lists of `DiffEdits.RemoveChildrenFold` |
| DiffEditor.NodeHeap.RemoveChildren | src/main/java/org/variantsync/diffdetective/diff/difftree/DiffNode.java:391-407 | the orphans and the new heap are those of `DiffEdits.RemoveChildren`; no child at `t` remains |
| DiffEditor.NodeHeap.AddChildren | src/main/java/org/variantsync/diffdetective/diff/difftree/DiffNode.java:351-355 | the loop leaves the outcome of `DiffEdits.AddChildren` |
| DiffEditor.NodeHeap.RemoveGivenChildren | src/main/java/org/variantsync/diffdetective/diff/difftree/DiffNode.java:378-383 | the loop leaves `DiffEdits.RemoveGivenChildren`; none of the nodes is a child afterwards |
| DiffEditor.NodeHeap.StealChildrenOf | src/main/java/org/variantsync/diffdetective/diff/difftree/DiffNode.java:428-431 | the outcome of `DiffEdits.StealChildrenOf`; stealing on a consistent heap from another node succeeds, keeps the links and leaves that node childless |
| DiffEditor.NodeHeap.Drop | src/main/java/org/variantsync/diffdetective/diff/difftree/DiffNode.java:288-295 | the heap becomes `DiffEdits.Drop`; the node is a root afterwards |
| DiffEditor.NodeHeap.AddBelow | src/main/java/org/variantsync/diffdetective/diff/difftree/DiffNode.java:273-282 | the outcome of `DiffEdits.AddBelow` |
| Consistency.ChildrenInGraph | src/main/java/org/variantsync/diffdetective/diff/difftree/DiffNode.java:765-805 | each listed child of a closed diff is a node of the diff |
| Consistency.AssertConsistency | src/main/java/org/variantsync/diffdetective/diff/difftree/DiffNode.java:765-805 | `assertConsistency` succeeds iff every as-written check holds; failure is an AssertionFailure |
| Consistency.ChildCheckAsWrittenIsChild | src/main/java/org/variantsync/diffdetective/diff/difftree/DiffNode.java:765-805 | the as-written parent checks in the loop reduce to `isChild` |
| Consistency.LinkedChecksAgree | src/main/java/org/variantsync/diffdetective/diff/difftree/DiffNode.java:49-66 | on consistent links the as-written and the corrected checks agree (also lines 765-805) |
| Consistency.WellFormedConsistent | src/main/java/org/variantsync/diffdetective/diff/difftree/DiffNode.java:49-66 | on a well-formed diff every node passes both checks (also lines 765-805) |
| Consistency.ConsistentEverywhereLinked | src/main/java/org/variantsync/diffdetective/diff/difftree/DiffNode.java:49-66 | conversely, corrected checks everywhere, duplicate-free orders and listed non-roots imply consistent links (also lines 765-805) |
| Consistency.UnlistedBeforeChild | src/main/java/org/variantsync/diffdetective/diff/difftree/DiffNode.java:765-805 | a closed diff in which node 2 names node 0 as before-parent but only node 1 lists it |
| Consistency.AsWrittenMissesUnlistedChild | src/main/java/org/variantsync/diffdetective/diff/difftree/DiffNode.java:765-805 | the as-written check accepts that broken diff at node 1; the corrected one rejects it |
| FeatureMapping.ChainNegations | src/main/java/org/variantsync/diffdetective/diff/difftree/DiffNode.java:514-544 | where it succeeds, one negation per node of the parent chain, ELIFs first and the governing IF last, each the negated formula of its node |
| FeatureMapping.ChainStep | src/main/java/org/variantsync/diffdetective/diff/difftree/DiffNode.java:514-544 | an ELIF's negation prefixes the negations of the chain above it |
| FeatureMapping.FeatureMappingClauses | src/main/java/org/variantsync/diffdetective/diff/difftree/DiffNode.java:514-544 | an IF or the root gives its own formula; the other kinds give at least one clause |
| FeatureMapping.FeatureMapping | src/main/java/org/variantsync/diffdetective/diff/difftree/DiffNode.java:548-554 | `getFeatureMapping` succeeds iff its clauses do and has the models of their conjunction |
| FeatureMapping.BranchesExclude | src/main/java/org/variantsync/diffdetective/diff/difftree/DiffNode.java:514-544 | a model of an ELIF/ELSE mapping falsifies every formula above it in the chain and satisfies the ELIF's own |
| FeatureMapping.ChainClauses | src/main/java/org/variantsync/diffdetective/diff/difftree/DiffNode.java:514-544 | an ELIF's clauses are its formula then the chain's negations; an ELSE's are only the negations |
| FeatureMapping.NegationFalsifies | src/main/java/org/variantsync/diffdetective/diff/difftree/DiffNode.java:514-544 | a satisfied negation falsifies the formula of its chain node |
| FeatureMapping.GoverningIf | src/main/java/org/variantsync/diffdetective/diff/difftree/DiffNode.java:563-595 | the governing IF is an IF node of the diff on or above the given node |
| FeatureMapping.GoverningIfEndsChain | src/main/java/org/variantsync/diffdetective/diff/difftree/DiffNode.java:514-595 | where the negations succeed, the governing IF is the chain node of the last negation |
| FeatureMapping.PresenceConditionClauses | src/main/java/org/variantsync/diffdetective/diff/difftree/DiffNode.java:563-595 | presence-condition clauses are never empty |
| FeatureMapping.PresenceCondition | src/main/java/org/variantsync/diffdetective/diff/difftree/DiffNode.java:603-609 | WrongTime iff the node does not exist at `t`; otherwise the conjunction of the clauses, which succeeds where they do |
| FeatureMapping.PresenceConditionClausesNeverWrongTime | src/main/java/org/variantsync/diffdetective/diff/difftree/DiffNode.java:563-595 | the clauses never fail with WrongTime |
| FeatureMapping.ChainNegationsNeverWrongTime | src/main/java/org/variantsync/diffdetective/diff/difftree/DiffNode.java:514-544 | the chain negations never fail with WrongTime |
| FeatureMapping.FeatureMappingClausesNeverWrongTime | src/main/java/org/variantsync/diffdetective/diff/difftree/DiffNode.java:514-544 | the feature-mapping clauses never fail with WrongTime |
| FeatureMapping.PresenceConditionImpliesFeatureMapping | src/main/java/org/variantsync/diffdetective/diff/difftree/DiffNode.java:563-595 | every model of the presence condition satisfies the feature mapping |
| FeatureMapping.IfRefinesParent | src/main/java/org/variantsync/diffdetective/diff/difftree/DiffNode.java:563-595 | a model of an IF's presence condition satisfies its parent's |
| FeatureMapping.PrependStep | src/main/java/org/variantsync/diffdetective/diff/difftree/DiffNode.java:514-544 | prepending two clause lists one after the other is prepending their concatenation |
| FeatureMapping.GetFeatureMappingClauses | src/main/java/org/variantsync/diffdetective/diff/difftree/DiffNode.java:514-544 | the loop over the ancestors computes exactly `FeatureMappingClauses` |
| FeatureMapping.GetPresenceConditionClauses | src/main/java/org/variantsync/diffdetective/diff/difftree/DiffNode.java:563-595 | the loop searching the governing IF computes exactly `PresenceConditionClauses` |
| Formulas.Negate | src/main/java/org/variantsync/diffdetective/diff/difftree/DiffNode.java:514-544 | `negate` gives a formula with the opposite truth value under every assignment |
| Formulas.EvalAnd | src/main/java/org/variantsync/diffdetective/diff/difftree/DiffNode.java:548-554 | a conjunction holds iff each clause holds |
| Formulas.EvalAndAppend | src/main/java/org/variantsync/diffdetective/diff/difftree/DiffNode.java:563-595 | conjoining concatenated clause lists is conjoining their conjunctions |
| Sat.TrueIsSatisfiable | src/main/java/analysis/SAT.java:51-61 | the constant true formula is satisfiable |
| Sat.EliminationPreservesSatisfiability | src/main/java/analysis/SAT.java:51-61 | true/false elimination preserves satisfiability; a constant true result means satisfiable and false unsatisfiable |
| Sat.IsSatisfiableNoTseytin | src/main/java/analysis/SAT.java:20-32 | with a sound solver the answer is satisfiability of the original formula |
| Sat.IsSatisfiableAlwaysTseytin | src/main/java/analysis/SAT.java:34-49 | with a sound solver the answer is satisfiability of the original formula |
| Sat.IsSatisfiable | src/main/java/analysis/SAT.java:51-68 | with a sound solver the answer is satisfiability of the original formula |
| Sat.IsTautology | src/main/java/analysis/SAT.java:70-72 | true iff every assignment satisfies the formula |
| Sat.Implies | src/main/java/analysis/SAT.java:74-76 | true iff every model of the left formula is a model of the right one |
| Sat.Equivalent | src/main/java/analysis/SAT.java:78-80 | true iff both formulas have the same models |
| Sat.VariantsAgree | src/main/java/analysis/SAT.java:20-68 | the three satisfiability variants give the same answer with a sound solver |
| Sat.VariantsDifferOnlyInTseytin | src/main/java/analysis/SAT.java:20-68 | whatever the solver, `isSatisfiable` equals the always-Tseytin variant above 50 literals and the no-Tseytin variant otherwise |
| Sat.ConstantsNeedNoSolver | src/main/java/analysis/SAT.java:51-61 | when elimination gives a constant the answer does not depend on the solver |
| Sat.EquivalentIffMutualImplication | src/main/java/analysis/SAT.java:74-80 | equivalence is implication in both directions |
| EditPatterns.AllEnumerates | src/main/java/org/variantsync/diffdetective/pattern/elementary/proposed/ProposedElementaryPatterns.java:31-35 | every pattern is in `All`, exactly once |
| EditPatterns.NamesInjective | src/main/java/org/variantsync/diffdetective/pattern/elementary/proposed/ProposedElementaryPatterns.java:31-35 | no two patterns share a name |
| EditPatterns.OfTypeSnoc | src/main/java/org/variantsync/diffdetective/pattern/elementary/proposed/ProposedElementaryPatterns.java:47-52 | appending a pattern extends only its own type's group |
| EditPatterns.OfTypeMembers | src/main/java/org/variantsync/diffdetective/pattern/elementary/proposed/ProposedElementaryPatterns.java:47-52 | a group holds exactly the patterns of its type |
| EditPatterns.PatternsByType | src/main/java/org/variantsync/diffdetective/pattern/elementary/proposed/ProposedElementaryPatterns.java:47-52 | the map built in one pass has a key iff its group is non-empty, and each group in `All`'s order |
| EditPatterns.PatternsByTypeGroups | src/main/java/org/variantsync/diffdetective/pattern/elementary/proposed/ProposedElementaryPatterns.java:31-35 | the groups are ADD: AddToPC, AddWithMapping; REM: RemFromPC, RemWithMapping; NON: the other five in order (also lines 47-52) |
| EditPatterns.FromName | src/main/java/org/variantsync/diffdetective/pattern/elementary/proposed/ProposedElementaryPatterns.java:139-146 | the search returns the pattern with the name, and empty iff no pattern has it |
| EditPatterns.ClassifyUnchanged | src/main/java/org/variantsync/diffdetective/pattern/elementary/proposed/ProposedElementaryPatterns.java:113-131 | the last steps of `match` always give a NON pattern |
| EditPatterns.Match | src/main/java/org/variantsync/diffdetective/pattern/elementary/proposed/ProposedElementaryPatterns.java:67-133 | IllegalArgument for a non-artifact; the result's type is the node's diff type; added/removed artifacts need the parent at the time they exist |
| EditPatterns.MatchAdded | src/main/java/org/variantsync/diffdetective/pattern/elementary/proposed/ProposedElementaryPatterns.java:78-83 | an added artifact gets AddWithMapping iff its after-parent is added, else AddToPC |
| EditPatterns.MatchRemoved | src/main/java/org/variantsync/diffdetective/pattern/elementary/proposed/ProposedElementaryPatterns.java:84-89 | a removed artifact gets RemWithMapping iff its before-parent is removed, else RemFromPC |
| EditPatterns.MatchUnchanged | src/main/java/org/variantsync/diffdetective/pattern/elementary/proposed/ProposedElementaryPatterns.java:93-131 | with a sound oracle an unchanged artifact gets Untouched/Refactoring when the PCs are equivalent (by path equality), else Generalization, Specialization or Reconfiguration by the two implications |
| EditPatterns.EqualConditionsNeedNoOracle | src/main/java/org/variantsync/diffdetective/pattern/elementary/proposed/ProposedElementaryPatterns.java:93-106 | syntactically equal PCs are classified without the oracle, as Untouched or Refactoring |
| EditPatterns.RefactoringMatches | src/main/java/org/variantsync/diffdetective/editclass/proposed/Refactoring.java:17-26 | WrongTime for added nodes and an error for removed ones; never true when the paths coincide; with a sound oracle true iff the PCs are equivalent and the paths differ |
| EditPatterns.RefactoringAgreesWithMatch | src/main/java/org/variantsync/diffdetective/editclass/proposed/Refactoring.java:22-26 | with a sound oracle the Refactoring class agrees with `match` on every unchanged artifact |
| Bits.Pow2 | src/main/java/org/variantsync/diffdetective/experiments/views/ViewAnalysis.java:91-93 | two to a power is positive |
| Bits.ShrPositive | src/main/java/org/variantsync/diffdetective/experiments/views/ViewAnalysis.java:95-104 | a non-zero shifted value means a set bit at or above the shift |
| Bits.PopCountZero | src/main/java/org/variantsync/diffdetective/experiments/views/ViewAnalysis.java:95-104 | only zero has no set bits |
| Bits.LowestOneBitPositive | src/main/java/org/variantsync/diffdetective/experiments/views/ViewAnalysis.java:109-114 | the lowest set bit of a positive number is positive |
| Bits.AddBelowLowestKeepsBits | src/main/java/org/variantsync/diffdetective/experiments/views/ViewAnalysis.java:109-114 | adding less than the lowest set bit keeps every set bit |
| Bits.Pow2ThirtyOne | src/main/java/org/variantsync/diffdetective/experiments/views/ViewAnalysis.java:91-93 | `1 << 31` before wrapping is 2^31 |
| Bits.ShrBelowPow2 | src/main/java/org/variantsync/diffdetective/experiments/views/ViewAnalysis.java:91-104 | a number below 2^n has no bit at n or above |
| Sorting.Insert | src/main/java/org/variantsync/diffdetective/experiments/views/ViewAnalysis.java:21-39 | insertion into a sorted list is sorted and adds exactly the element (also lines 84-87) |
| Sorting.SortBy | src/main/java/org/variantsync/diffdetective/experiments/views/ViewAnalysis.java:21-39 | the sorted list is ordered by the comparator and a permutation of the input (also lines 84-87) |
| ViewAnalysis.LiteralLeqTotalPreorder | src/main/java/org/variantsync/diffdetective/experiments/views/ViewAnalysis.java:21-39 | the literal comparator is total and transitive |
| ViewAnalysis.ClauseLeqTotalPreorder | src/main/java/org/variantsync/diffdetective/experiments/views/ViewAnalysis.java:21-39 | the clause comparator is total and transitive |
| ViewAnalysis.SortClause | src/main/java/org/variantsync/diffdetective/experiments/views/ViewAnalysis.java:21-39 | a sorted clause is a regular clause with the same literals, sorted by variable |
| ViewAnalysis.EvalMembers | src/main/java/org/variantsync/diffdetective/experiments/views/ViewAnalysis.java:21-39 | a conjunction holds iff all members hold, a disjunction iff one does |
| ViewAnalysis.EvalPermutation | src/main/java/org/variantsync/diffdetective/experiments/views/ViewAnalysis.java:21-39 | reordering members keeps the models of conjunctions and disjunctions |
| ViewAnalysis.SortedClauses | src/main/java/org/variantsync/diffdetective/experiments/views/ViewAnalysis.java:21-39 | the clauses sorted one by one, one per clause |
| ViewAnalysis.SortedCNFEquivalent | src/main/java/org/variantsync/diffdetective/experiments/views/ViewAnalysis.java:21-39 | sorting literals and clauses keeps the models of the CNF |
| ViewAnalysis.SortCNF | src/main/java/org/variantsync/diffdetective/experiments/views/ViewAnalysis.java:21-39 | the sorted CNF is regular, has sorted clauses and literals, and is equivalent to the input |
| ViewAnalysis.SortRegularCNF | src/main/java/org/variantsync/diffdetective/experiments/views/ViewAnalysis.java:21-39 | AssertionFailure for a non-conjunction; ClassCast for a non-regular CNF; otherwise sorted literals, sorted clauses and an equivalent formula |
| ViewAnalysis.NumberOfLiteralsInRegularCNF | src/main/java/org/variantsync/diffdetective/experiments/views/ViewAnalysis.java:41-46 | AssertionFailure iff not a conjunction; on a regular CNF the number of literals |
| ViewAnalysis.RegularCNFLiterals | src/main/java/org/variantsync/diffdetective/experiments/views/ViewAnalysis.java:41-46 | on a regular CNF the clause lengths add up to the literal count |
| ViewAnalysis.AddToSet | src/main/java/org/variantsync/diffdetective/experiments/views/ViewAnalysis.java:59-77 | `LinkedHashSet.add` appends only new formulas and keeps the list duplicate-free |
| ViewAnalysis.DeselectedPC | src/main/java/org/variantsync/diffdetective/experiments/views/ViewAnalysis.java:64-74 | the PC error passes through; the result is a regular CNF equivalent to the negated presence condition |
| ViewAnalysis.CollectedContributing | src/main/java/org/variantsync/diffdetective/experiments/views/ViewAnalysis.java:59-77 | a non-Untouched artifact adds its two deselected PCs |
| ViewAnalysis.CollectedSkipped | src/main/java/org/variantsync/diffdetective/experiments/views/ViewAnalysis.java:59-77 | any other node adds nothing |
| ViewAnalysis.CollectDeselectedPCs | src/main/java/org/variantsync/diffdetective/experiments/views/ViewAnalysis.java:59-77 | the traversal loop yields the distinct deselected PCs of the contributing artifacts, all regular CNFs; errors come from a PC |
| ViewAnalysis.PCLeqTotalPreorder | src/main/java/org/variantsync/diffdetective/experiments/views/ViewAnalysis.java:84-87 | the comparator for the collected list is total and transitive |
| ViewAnalysis.SubsetFromMembers | src/main/java/org/variantsync/diffdetective/experiments/views/ViewAnalysis.java:95-104 | an entry is selected iff some index holding it has its bit set |
| ViewAnalysis.SubsetFromEmpty | src/main/java/org/variantsync/diffdetective/experiments/views/ViewAnalysis.java:95-104 | no bits left select nothing |
| ViewAnalysis.SubsetOf | src/main/java/org/variantsync/diffdetective/experiments/views/ViewAnalysis.java:95-104 | the inner loop yields the entries at the set bits, in index order, and `bitCount(b)` of them |
| ViewAnalysis.ViewSatisfiable | src/main/java/org/variantsync/diffdetective/experiments/views/ViewAnalysis.java:106-108 | a sound solver accepts a candidate iff its subset is jointly satisfiable, and the candidate is equivalent to the conjunction |
| ViewAnalysis.Skip | src/main/java/org/variantsync/diffdetective/experiments/views/ViewAnalysis.java:109-114 | the corrected skip stays below the lowest set bit |
| ViewAnalysis.EnumerateSound | src/main/java/org/variantsync/diffdetective/experiments/views/ViewAnalysis.java:91-114 | every enumerated view is an accepted candidate of some bit vector |
| ViewAnalysis.SubsetGrows | src/main/java/org/variantsync/diffdetective/experiments/views/ViewAnalysis.java:109-114 | adding less than the lowest set bit selects a superset |
| ViewAnalysis.SatisfiableSubconjunction | src/main/java/org/variantsync/diffdetective/experiments/views/ViewAnalysis.java:106-114 | a model of a conjunction is a model of fewer members |
| ViewAnalysis.SkippedUnsatisfiable | src/main/java/org/variantsync/diffdetective/experiments/views/ViewAnalysis.java:109-114 | the candidates the corrected skip passes over are unsatisfiable |
| ViewAnalysis.EnumerateComplete | src/main/java/org/variantsync/diffdetective/experiments/views/ViewAnalysis.java:91-114 | every satisfiable candidate is enumerated |
| ViewAnalysis.MaskFromBits | src/main/java/org/variantsync/diffdetective/experiments/views/ViewAnalysis.java:95-104 | the mask has bit `k` iff entry `i + k` is in the list |
| ViewAnalysis.MaskFromBound | src/main/java/org/variantsync/diffdetective/experiments/views/ViewAnalysis.java:91-104 | the mask is below 2^size |
| ViewAnalysis.SubsetOfMask | src/main/java/org/variantsync/diffdetective/experiments/views/ViewAnalysis.java:91-104 | every list of entries is, as a set, the subset of some bit vector in range |
| ViewAnalysis.SameMembersEquivalent | src/main/java/org/variantsync/diffdetective/experiments/views/ViewAnalysis.java:95-108 | conjunctions of the same members are equivalent |
| ViewAnalysis.EnumerateViews | src/main/java/org/variantsync/diffdetective/experiments/views/ViewAnalysis.java:91-114 | the powerset loop with the corrected skip yields `Enumerate` over all 2^size bit vectors |
| ViewAnalysis.SkipLosesView | src/main/java/org/variantsync/diffdetective/experiments/views/ViewAnalysis.java:109-114 | as written the loop misses bit vector 2 of the example, whose view is satisfiable and new; the corrected loop finds it |
| ViewAnalysis.SkipExampleViewsDiffer | src/main/java/org/variantsync/diffdetective/experiments/views/ViewAnalysis.java:109-114 | the views of bit vectors 0 and 2 of the example differ |
| ViewAnalysis.SkipExampleAsWritten | src/main/java/org/variantsync/diffdetective/experiments/views/ViewAnalysis.java:80-114 | the as-written loop over the example yields only the view of bit vector 0 |
| ViewAnalysis.SkipExampleSubsets | src/main/java/org/variantsync/diffdetective/experiments/views/ViewAnalysis.java:95-104 | the subsets of bit vectors 0, 1 and 2 of the example |
| ViewAnalysis.SkipExampleModels | src/main/java/org/variantsync/diffdetective/experiments/views/ViewAnalysis.java:106-108 | the first example entry is unsatisfiable and the second is not |
| ViewAnalysis.PowersetSizeOverflows | src/main/java/org/variantsync/diffdetective/experiments/views/ViewAnalysis.java:80 | 31 entries pass the assertion but the as-written loop throws IllegalArgument; the corrected enumeration still has the empty view (also lines 91-93) |
| ViewAnalysis.FindLaterEquivalent | src/main/java/org/variantsync/diffdetective/experiments/views/ViewAnalysis.java:117-132 | the inner search finds an equivalent later entry iff one exists below `len` |
| ViewAnalysis.Swap | src/main/java/org/variantsync/diffdetective/experiments/views/ViewAnalysis.java:117-132 | `Collections.swap` exchanges two entries and keeps the multiset |
| ViewAnalysis.DropKeepsCovered | src/main/java/org/variantsync/diffdetective/experiments/views/ViewAnalysis.java:117-132 | dropping an entry with a later equivalent keeps every dropped entry covered |
| ViewAnalysis.RemoveDuplicates | src/main/java/org/variantsync/diffdetective/experiments/views/ViewAnalysis.java:117-132 | the result is a sub-multiset with no two oracle-equivalent entries, and every input has an equivalent kept entry |
| ViewAnalysis.UniqueViewsSound | src/main/java/org/variantsync/diffdetective/experiments/views/ViewAnalysis.java:58-135 | every kept view is satisfiable and equivalent to a conjunction of deselected PCs |
| ViewAnalysis.UniqueViewsComplete | src/main/java/org/variantsync/diffdetective/experiments/views/ViewAnalysis.java:58-135 | every satisfiable conjunction of deselected PCs is equivalent to a kept view |
| ViewAnalysis.GetUniquePartialConfigs | src/main/java/org/variantsync/diffdetective/experiments/views/ViewAnalysis.java:58-135 | errors come only from a presence condition or from 32 or more distinct PCs (AssertionFailure); no two results are oracle-equivalent; with a sound oracle each result is a satisfiable conjunction of deselected PCs and each such conjunction has an equivalent result |
| BooleanAbstraction.Source | src/main/java/org/variantsync/diffdetective/feature/BooleanAbstraction.java:121-145 | a pattern's source text starts with `\Q` or the look-behind bracket |
| BooleanAbstraction.DropSpaces | src/main/java/org/variantsync/diffdetective/feature/BooleanAbstraction.java:199 | the leading whitespace removed, and only that |
| BooleanAbstraction.QuoteValue | src/main/java/org/variantsync/diffdetective/feature/BooleanAbstraction.java:124 | `quoteReplacement` leaves every abstraction value unchanged (also lines 143) |
| BooleanAbstraction.ArithmeticValues | src/main/java/org/variantsync/diffdetective/feature/BooleanAbstraction.java:14-98 | the operator values are non-empty and made of upper-case letters and `_` |
| BooleanAbstraction.LogicalValues | src/main/java/org/variantsync/diffdetective/feature/BooleanAbstraction.java:14-98 | likewise the logical, bracket and `__has_*` values |
| BooleanAbstraction.AssignmentValues | src/main/java/org/variantsync/diffdetective/feature/BooleanAbstraction.java:14-98 | likewise the `defined`, assignment, whitespace and backslash values |
| BooleanAbstraction.EntryGood | src/main/java/org/variantsync/diffdetective/feature/BooleanAbstraction.java:158-201 | each table entry has a non-empty pattern and value |
| BooleanAbstraction.TableFacts | src/main/java/org/variantsync/diffdetective/feature/BooleanAbstraction.java:155-202 | the table has 44 good entries, each stored unchanged by `quoteReplacement` |
| BooleanAbstraction.ReplaceLiteralChars | src/main/java/org/variantsync/diffdetective/feature/BooleanAbstraction.java:121-126 | a literal replacement only produces characters of the input or the value (also lines 150-152) |
| BooleanAbstraction.ReplaceLiteralRemoves | src/main/java/org/variantsync/diffdetective/feature/BooleanAbstraction.java:121-126 | replacing one character by a text without it leaves none (also lines 150-152) |
| BooleanAbstraction.ReplaceLiteralNoMatch | src/main/java/org/variantsync/diffdetective/feature/BooleanAbstraction.java:121-126 | a text absent from the input changes nothing (also lines 150-152) |
| BooleanAbstraction.ReplaceLiteralKeepsNoPair | src/main/java/org/variantsync/diffdetective/feature/BooleanAbstraction.java:121-126 | a literal replacement by a text without `a` creates no `aa` (also lines 150-152) |
| BooleanAbstraction.ReplaceLiteralRemovesPair | src/main/java/org/variantsync/diffdetective/feature/BooleanAbstraction.java:175-176 | replacing `aa` by a text without `a` leaves no `aa` |
| BooleanAbstraction.ReplaceSpacesChars | src/main/java/org/variantsync/diffdetective/feature/BooleanAbstraction.java:199 | the whitespace replacement only produces input or value characters |
| BooleanAbstraction.ReplaceSpacesRemoves | src/main/java/org/variantsync/diffdetective/feature/BooleanAbstraction.java:199 | replacing whitespace runs by a text without whitespace leaves none |
| BooleanAbstraction.ReplaceSpacesKeepsNoPair | src/main/java/org/variantsync/diffdetective/feature/BooleanAbstraction.java:199 | the whitespace replacement creates no `aa` |
| BooleanAbstraction.ReplaceFullWordChars | src/main/java/org/variantsync/diffdetective/feature/BooleanAbstraction.java:140-145 | a full-word replacement only produces input or value characters |
| BooleanAbstraction.ReplaceFullWordKeepsNoPair | src/main/java/org/variantsync/diffdetective/feature/BooleanAbstraction.java:140-145 | a full-word replacement creates no `aa` |
| BooleanAbstraction.ApplyToChars | src/main/java/org/variantsync/diffdetective/feature/BooleanAbstraction.java:150-152 | `applyTo` only produces input or value characters |
| BooleanAbstraction.ApplyToKeepsNoPair | src/main/java/org/variantsync/diffdetective/feature/BooleanAbstraction.java:150-152 | `applyTo` with a value without `a` creates no `aa` |
| BooleanAbstraction.AbstractedChars | src/main/java/org/variantsync/diffdetective/feature/BooleanAbstraction.java:209-214 | after any prefix of the table every character is from the input or a value character |
| BooleanAbstraction.StaysAbsent | src/main/java/org/variantsync/diffdetective/feature/BooleanAbstraction.java:209-214 | a removed non-value character never comes back |
| BooleanAbstraction.StaysPairFree | src/main/java/org/variantsync/diffdetective/feature/BooleanAbstraction.java:209-214 | a removed pair of a non-value character never comes back |
| BooleanAbstraction.Eliminator | src/main/java/org/variantsync/diffdetective/feature/BooleanAbstraction.java:164-198 | each operator character has an entry that replaces it alone |
| BooleanAbstraction.OperatorRemoved | src/main/java/org/variantsync/diffdetective/feature/BooleanAbstraction.java:158-201 | no `< > + - * / % ^ ~ ? : . " ( ) =` or backslash survives the table |
| BooleanAbstraction.SpacesRemoved | src/main/java/org/variantsync/diffdetective/feature/BooleanAbstraction.java:199 | no whitespace survives the table |
| BooleanAbstraction.PairsRemoved | src/main/java/org/variantsync/diffdetective/feature/BooleanAbstraction.java:175-176 | no doubled `&` and no doubled bar survives the table (also lines 200-201) |
| BooleanAbstraction.AbstractedSound | src/main/java/org/variantsync/diffdetective/feature/BooleanAbstraction.java:155-214 | the table abstracts every formula fully, adding only value characters |
| BooleanAbstraction.CompoundAssignmentsInert | src/main/java/org/variantsync/diffdetective/feature/BooleanAbstraction.java:187-197 | the compound-assignment entries never change anything |
| BooleanAbstraction.EqualsGone | src/main/java/org/variantsync/diffdetective/feature/BooleanAbstraction.java:187 | from the `=` entry on no `=` is left |
| BooleanAbstraction.CompoundAssignmentEntry | src/main/java/org/variantsync/diffdetective/feature/BooleanAbstraction.java:188-197 | entries 30 to 39 are literals ending in `=` |
| BooleanAbstraction.AbstractAll | src/main/java/org/variantsync/diffdetective/feature/BooleanAbstraction.java:209-214 | the loop applies all 44 entries in order, and the result is fully abstracted |
| BooleanAbstraction.FullWordAndExamples | src/main/java/org/variantsync/diffdetective/feature/BooleanAbstraction.java:200 | a single `&` between words is replaced; `&&` and a leading `&` are not |
| BooleanAbstraction.LiteralDefinedExample | src/main/java/org/variantsync/diffdetective/feature/BooleanAbstraction.java:186 | `defined` is replaced even inside `undefined` |
| BooleanAbstraction.FindSource | src/main/java/org/variantsync/diffdetective/feature/BooleanAbstraction.java:224-228 | the search finds the first entry whose pattern source is the formula, or none |
| BooleanAbstraction.AbstractFirstOrAll | src/main/java/org/variantsync/diffdetective/feature/BooleanAbstraction.java:223-230 | the value of the first entry whose source equals the formula, else `abstractAll`; a formula not starting with `\` or `(` is always abstracted fully |
| MiningFormats.IndexFrom | src/main/java/org/variantsync/diffdetective/mining/formats/ReleaseMiningDiffNodeFormat.java:25-33 | the search finds the first index holding the pattern, or IllegalArgument |
| MiningFormats.ToId | src/main/java/org/variantsync/diffdetective/mining/formats/ReleaseMiningDiffNodeFormat.java:25-33 | `toId` never throws and returns the pattern's index in `All` |
| MiningFormats.FromId | src/main/java/org/variantsync/diffdetective/mining/formats/ReleaseMiningDiffNodeFormat.java:35-37 | `fromId` fails with IndexOutOfBounds iff the index is out of range |
| MiningFormats.IdRoundTrip | src/main/java/org/variantsync/diffdetective/mining/formats/ReleaseMiningDiffNodeFormat.java:25-37 | `fromId(toId(p)) == p`, and `toId` inverts `fromId` on valid indices |
| MiningFormats.ToLabel | src/main/java/org/variantsync/diffdetective/mining/formats/ReleaseMiningDiffNodeFormat.java:40-47 | an artifact gets `c` and its pattern index (failing where `match` fails); any other node gets `m` and two ordinals, three characters |
| MiningFormats.FromEncodedTypes | src/main/java/org/variantsync/diffdetective/mining/formats/ReleaseMiningDiffNodeFormat.java:50-69 | `c` labels decode to ARTIFACT; `m` labels decode from two digits, never to ROOT; other labels fail the assertion |
| MiningFormats.ParseDigit | src/main/java/org/variantsync/diffdetective/mining/formats/ReleaseMiningDiffNodeFormat.java:58-63 | a one-digit ordinal prints and parses back |
| MiningFormats.DecodeCodeLabel | src/main/java/org/variantsync/diffdetective/mining/formats/ReleaseMiningDiffNodeFormat.java:51-53 | `c` + k decodes to the diff type of pattern k and ARTIFACT |
| MiningFormats.MacroLabelIgnoresRest | src/main/java/org/variantsync/diffdetective/mining/formats/ReleaseMiningDiffNodeFormat.java:56-63 | an `m` label is decoded from indices 1 and 2 only |
| MiningFormats.MacroRoundTrip | src/main/java/org/variantsync/diffdetective/mining/formats/ReleaseMiningDiffNodeFormat.java:40-69 | decoding the label of a non-artifact gives its diff type and node type, IF for a root; a non-root ROOT is refused |
| MiningFormats.CodeRoundTrip | src/main/java/org/variantsync/diffdetective/mining/formats/ReleaseMiningDiffNodeFormat.java:40-53 | decoding the label of a classified artifact gives its diff type and ARTIFACT |
| MiningFormats.LabelExamples | src/main/java/org/variantsync/diffdetective/mining/formats/ReleaseMiningDiffNodeFormat.java:17-19 | AddWithMapping gives `c1`; a removed ELSE gives `m23` |
| MiningFormats.FromLabelAndId | src/main/java/org/variantsync/diffdetective/mining/formats/MiningNodeFormat.java:16-31 | the types come from the label alone; all line coordinates are the id; no label lines; artifacts have no formula, others True |
| MiningFormats.LineGraphRoundTrip | src/main/java/org/variantsync/diffdetective/mining/formats/MiningNodeFormat.java:16-31 | writing a non-artifact and reading it back keeps its diff type and node type |
| NodeFormats.Label | src/main/java/org/variantsync/diffdetective/diff/difftree/DiffNode.java:152-154 | a node with no lines has the empty label; one line is the label itself |
| NodeFormats.MultilineLabel | src/main/java/org/variantsync/diffdetective/variation/diff/serialize/nodeformat/FullNodeFormat.java:26-37 | diff type, node type, from, to and formula (empty if absent), then every label line; 5 + lines in all |
| NodeFormats.FullLabelSplitsBack | src/main/java/org/variantsync/diffdetective/variation/diff/serialize/nodeformat/FullNodeFormat.java:40-44 | with no semicolon in any line, splitting the one-line label at `;` gives the multi-line label back |
| NodeFormats.CompositeLabel | src/main/java/org/variantsync/diffdetective/mining/RWCompositePatternNodeFormat.java:10-21 | an artifact gets its edit class, `<br>` and label; any other node starts with its diff type and `_` |
| NodeFormats.AnnotationText | src/main/java/org/variantsync/diffdetective/mining/RWCompositePatternNodeFormat.java:14-19 | IF gives `mapping<br> ` and label, ELIF `elif<br>` and label, ELSE just `else`, others the type, `<br>` and label |
| NodeFormats.DiffTypeNameLength | src/main/java/org/variantsync/diffdetective/mining/RWCompositePatternNodeFormat.java:14 | each diff type name has three letters |
| NodeFormats.AnnotationTextMarks | src/main/java/org/variantsync/diffdetective/mining/RWCompositePatternNodeFormat.java:14-19 | the first and third characters of the text tell the node type |
| NodeFormats.AnnotationTextInjective | src/main/java/org/variantsync/diffdetective/mining/RWCompositePatternNodeFormat.java:14-19 | the text determines the node type and, except for ELSE, the label |
| NodeFormats.CompositeLabelDeterminesTypes | src/main/java/org/variantsync/diffdetective/mining/RWCompositePatternNodeFormat.java:10-21 | equal labels of two annotations mean equal diff type, node type and (except ELSE) label |
| NodeFormats.CompositeLabelOfAddedElse | src/main/java/org/variantsync/diffdetective/mining/RWCompositePatternNodeFormat.java:16 | an added ELSE is written `ADD_else` |
| EdgeLabelFormat.KindOf | src/main/java/diff/difftree/serialize/edgeformat/EdgeLabelFormat.java:16-30 | IllegalArgument iff the label starts with none of the three edge-type prefixes |
| EdgeLabelFormat.KindOfPrefixes | src/main/java/diff/difftree/serialize/edgeformat/EdgeLabelFormat.java:16-30 | BEFORE_AND_AFTER_PARENT is always read back as itself; BEFORE_PARENT is read back iff BEFORE_AND_AFTER_PARENT is no prefix of it; AFTER_PARENT iff neither earlier prefix is a prefix of it (also lines 69-94) |
| EdgeLabelFormat.BeforeAndAfterFirst | src/main/java/diff/difftree/serialize/edgeformat/EdgeLabelFormat.java:17 | a label starting with BEFORE_AND_AFTER_PARENT is read as that link whatever follows, because it is tested first |
| EdgeLabelFormat.Unit | src/main/java/diff/difftree/serialize/edgeformat/EdgeLabelFormat.java:16-30 | dropping `addChild`'s answer keeps its exception and graph |
| EdgeLabelFormat.LabelEditAsWritten | src/main/java/diff/difftree/serialize/edgeformat/EdgeLabelFormat.java:16-30 | the as-written connection never adds or removes nodes |
| EdgeLabelFormat.LabelEdit | src/main/java/diff/difftree/serialize/edgeformat/EdgeLabelFormat.java:16-30 | the corrected connection refuses an unknown label with IllegalArgument and no change |
| EdgeLabelFormat.SelfParentNotRooted | src/main/java/diff/difftree/serialize/edgeformat/EdgeLabelFormat.java:17-20 | a node that is its own parent has no finite chain |
| EdgeLabelFormat.BeforeAndAfterSelfLink | src/main/java/diff/difftree/serialize/edgeformat/EdgeLabelFormat.java:17-20 | as written a BEFORE_AND_AFTER edge makes the child its own after-parent, so the after chains are no longer finite |
| EdgeLabelFormat.BeforeAndAfterLinksBoth | src/main/java/diff/difftree/serialize/edgeformat/EdgeLabelFormat.java:17-20 | corrected, the same edge makes the parent the child's parent at both times |
| EdgeLabelFormat.LabelEditLinks | src/main/java/diff/difftree/serialize/edgeformat/EdgeLabelFormat.java:17-26 | BEFORE links only before, AFTER only after, BEFORE_AND_AFTER both; other slots stay; links stay consistent |
| EdgeLabelFormat.LineEdit | src/main/java/diff/difftree/serialize/edgeformat/EdgeLabelFormat.java:40-60 | a line without the edge prefix is refused with IllegalArgument and no change; the node set stays |
| EdgeLabelFormat.LineEditFields | src/main/java/diff/difftree/serialize/edgeformat/EdgeLabelFormat.java:43-59 | a well-formed line connects the nodes with the written ids by the written label; unknown ids are refused |
| EdgeLabelFormat.ParentEdges | src/main/java/diff/difftree/serialize/edgeformat/EdgeLabelFormat.java:69-94 | at most two written edges, and none exactly for a root |
| EdgeLabelFormat.GetParentEdgeLines | src/main/java/diff/difftree/serialize/edgeformat/EdgeLabelFormat.java:69-94 | empty iff the node is a root |
| EdgeLabelFormat.EdgeLines | src/main/java/diff/difftree/serialize/edgeformat/EdgeLabelFormat.java:69-94 | empty iff no edges |
| EdgeLabelFormat.ReadEdges | src/main/java/diff/difftree/serialize/edgeformat/EdgeLabelFormat.java:16-30 | reading edges keeps the node set |
| EdgeLabelFormat.EdgesRoundTrip | src/main/java/diff/difftree/serialize/edgeformat/EdgeLabelFormat.java:16-30 | when no label prefix starts with one tested before it, writing a node's parent edges and reading them into a graph where it is a root restores both parent slots (also lines 69-94) |
| EdgeLabelFormat.ConnectAccordingToLabel | src/main/java/diff/difftree/serialize/edgeformat/EdgeLabelFormat.java:16-30 | the heap ends as `LabelEdit` describes |
| EdgeLabelFormat.Connect | src/main/java/diff/difftree/serialize/edgeformat/EdgeLabelFormat.java:40-60 | the heap ends as `LineEdit` describes |
| SemanticPatterns.LastAdded | src/main/java/pattern/semantic/AddIfdefElifSemanticPattern.java:37-44 | the last added child of the given kinds, none iff no child is one |
| SemanticPatterns.ScanChildren | src/main/java/pattern/semantic/AddIfdefElifSemanticPattern.java:37-44 | the child loop sets `addedCode` iff an added artifact exists and keeps the last added node of the kinds |
| SemanticPatterns.AddedChildHeight | src/main/java/pattern/semantic/AddIfdefElifSemanticPattern.java:62-80 | an added child has the node as after-parent and is one step deeper |
| SemanticPatterns.HeightFuelBound | src/main/java/pattern/semantic/AddIfdefElifSemanticPattern.java:62-80 | a chain rooted within `k` steps has at most `k` steps |
| AddIfdefElif.Next | src/main/java/pattern/semantic/AddIfdefElifSemanticPattern.java:66-73 | the next node is a listed, added ELIF or ELSE child |
| AddIfdefElif.Chain | src/main/java/pattern/semantic/AddIfdefElifSemanticPattern.java:62-80 | the visited annotations start at the node, each next one follows, and the last lacks code or a next node |
| AddIfdefElif.ValidElifFails | src/main/java/pattern/semantic/AddIfdefElifSemanticPattern.java:62-80 | `isValidElif` succeeds iff every chain node except the last has an AFTER feature mapping |
| AddIfdefElif.ValidElifAnswer | src/main/java/pattern/semantic/AddIfdefElifSemanticPattern.java:62-80 | where it succeeds it answers whether every chain node has added code |
| AddIfdefElif.MappingsAreCons | src/main/java/pattern/semantic/AddIfdefElifSemanticPattern.java:74-76 | a node's mapping prefixes the mappings of the rest |
| AddIfdefElif.ValidElifMappings | src/main/java/pattern/semantic/AddIfdefElifSemanticPattern.java:74-79 | where it succeeds it appends the mappings of all chain nodes but the last, in order |
| AddIfdefElif.Matches | src/main/java/pattern/semantic/AddIfdefElifSemanticPattern.java:30-60 | at most one match; nothing unless the node is an added IF |
| AddIfdefElif.MatchesChain | src/main/java/pattern/semantic/AddIfdefElifSemanticPattern.java:30-80 | for an added IF with a feature mapping and an added ELIF child whose chain is mapped: it matches iff it has added code and every chain node has code; the match spans the IF and records its mapping, then those of the chain |
| AddIfdefElif.IsValidElif | src/main/java/pattern/semantic/AddIfdefElifSemanticPattern.java:62-80 | the recursive method computes `ValidElif` |
| AddIfdefElif.GetMatches | src/main/java/pattern/semantic/AddIfdefElifSemanticPattern.java:30-60 | the method with its child loop computes `Matches` |
| AddIfdefElif.GetFeatureContexts | src/main/java/pattern/semantic/AddIfdefElifSemanticPattern.java:83-89 | one context per mapping, in order |
| AddIfdefElse.Match | src/main/java/org/variantsync/diffdetective/preliminary/pattern/semantic/AddIfdefElse.java:27-65 | a match is an added IF; errors only from the IF's feature mapping |
| AddIfdefElse.MatchSound | src/main/java/org/variantsync/diffdetective/preliminary/pattern/semantic/AddIfdefElse.java:27-65 | a match has no ELIF, added code, a last added ELSE with code, and spans IF to ELSE with the IF's mapping |
| AddIfdefElse.MatchComplete | src/main/java/org/variantsync/diffdetective/preliminary/pattern/semantic/AddIfdefElse.java:27-65 | conversely such an IF with a feature mapping matches |
| AddIfdefElse.ScanIfChildren | src/main/java/org/variantsync/diffdetective/preliminary/pattern/semantic/AddIfdefElse.java:31-41 | the loop stops at any ELIF; otherwise it notes added code and the last added ELSE |
| AddIfdefElse.MatchNode | src/main/java/org/variantsync/diffdetective/preliminary/pattern/semantic/AddIfdefElse.java:27-65 | the method with its two loops computes `Match` |
| AddIfdefElse.FeatureContexts | src/main/java/org/variantsync/diffdetective/preliminary/pattern/semantic/AddIfdefElse.java:68-73 | exactly the mapping and its negation; IndexOutOfBounds without a mapping |
| AddIfdefElse.ContextsOfMatchSplit | src/main/java/org/variantsync/diffdetective/preliminary/pattern/semantic/AddIfdefElse.java:58-73 | the two contexts of a match disagree under every assignment, and the first is the IF's mapping |
| DuplicateFilter.Filtered | src/main/java/diff/difftree/filter/DuplicateDiffTreeFilter.java:24-34 | never longer than the input; empty iff the input is |
| DuplicateFilter.EmptySubsequence | src/main/java/diff/difftree/filter/DuplicateDiffTreeFilter.java:24-34 | the empty list is a subsequence of any list |
| DuplicateFilter.FilteredSubsequence | src/main/java/diff/difftree/filter/DuplicateDiffTreeFilter.java:24-34 | the result is a subsequence of the input, in input order |
| DuplicateFilter.FilteredPrefix | src/main/java/diff/difftree/filter/DuplicateDiffTreeFilter.java:27-31 | the result for a prefix is a prefix of the result |
| DuplicateFilter.FilteredDistinct | src/main/java/diff/difftree/filter/DuplicateDiffTreeFilter.java:27-31 | no kept tree equals one kept before it |
| DuplicateFilter.FilteredKeeps | src/main/java/diff/difftree/filter/DuplicateDiffTreeFilter.java:27-31 | a tree is kept iff no earlier kept tree equals it; a dropped tree equals a kept one |
| DuplicateFilter.FilteredKeepsFirst | src/main/java/diff/difftree/filter/DuplicateDiffTreeFilter.java:25-33 | the first tree of a non-empty input is kept, at the front |
| DuplicateFilter.NoneMatches | src/main/java/diff/difftree/filter/DuplicateDiffTreeFilter.java:28 | the stream check is true iff no kept tree equals the candidate |
| DuplicateFilter.FilterDuplicates | src/main/java/diff/difftree/filter/DuplicateDiffTreeFilter.java:24-34 | the loop computes `Filtered` |
| FormalTreeGraph.Preorder | src/main/java/org/variantsync/diffdetective/variation/tree/graph/FormalTreeGraph.java:36-48 | the preorder visits start with the node and its parent |
| FormalTreeGraph.VisitedAppend | src/main/java/org/variantsync/diffdetective/variation/tree/graph/FormalTreeGraph.java:40-45 | visited nodes and edges of two visit lists are the unions |
| FormalTreeGraph.PreorderVisits | src/main/java/org/variantsync/diffdetective/variation/tree/graph/FormalTreeGraph.java:40-45 | a preorder traversal visits exactly the tree's nodes and records exactly its edges plus the root's parent edge |
| FormalTreeGraph.PreorderAllVisits | src/main/java/org/variantsync/diffdetective/variation/tree/graph/FormalTreeGraph.java:40-45 | likewise for a list of subtrees |
| FormalTreeGraph.FromTree | src/main/java/org/variantsync/diffdetective/variation/tree/graph/FormalTreeGraph.java:36-48 | `fromTree` yields exactly the nodes and the child-to-parent edges of the tree |
| FormalTreeGraph.EdgesWithinNodes | src/main/java/org/variantsync/diffdetective/variation/tree/graph/FormalTreeGraph.java:40-45 | both ends of every edge are nodes |
| FormalTreeGraph.EdgesAllWithinNodes | src/main/java/org/variantsync/diffdetective/variation/tree/graph/FormalTreeGraph.java:40-45 | likewise for a list of subtrees |
| FormalTreeGraph.RootHasNoEdge | src/main/java/org/variantsync/diffdetective/variation/tree/graph/FormalTreeGraph.java:42-44 | where no id repeats the root is the child of no edge |
| FormalTreeGraph.EqualsOfTrees | src/main/java/org/variantsync/diffdetective/variation/tree/graph/FormalTreeGraph.java:50-56 | `equals` holds iff the node sets and the edge sets are equal |
| FormalTreeGraph.SwapChildren | src/main/java/org/variantsync/diffdetective/variation/tree/graph/FormalTreeGraph.java:50-56 | swapping two subtrees gives an equal graph |
| Metadata.MergeEqual | src/main/java/org/variantsync/diffdetective/metadata/Metadata.java:59-69 | null is neutral; two present values must be equal, else AssertionFailure; the merge is the present value |
| Metadata.ThenMergeEqual | src/main/java/org/variantsync/diffdetective/metadata/Metadata.java:59-69 | merging after a failure keeps the failure |
| Metadata.MergeEqualCommutes | src/main/java/org/variantsync/diffdetective/metadata/Metadata.java:59-69 | `mergeEqual` is commutative and idempotent |
| Metadata.MergeEqualAssociates | src/main/java/org/variantsync/diffdetective/metadata/Metadata.java:59-69 | merging three values gives the same outcome in either grouping |
| Metadata.MergeIfEqualElse | src/main/java/org/variantsync/diffdetective/metadata/Metadata.java:86-100 | null is neutral on both sides; equal values merge to the first; `ifUnequal` applies only to unequal ones |
| Metadata.MergeIfEqualElseExtends | src/main/java/org/variantsync/diffdetective/metadata/Metadata.java:59-100 | where `mergeEqual` succeeds, `mergeIfEqualElse` agrees whatever the operator |
| Metadata.MergeIfEqualElseCommutes | src/main/java/org/variantsync/diffdetective/metadata/Metadata.java:86-100 | with a commutative operator the merge commutes |
| Metadata.Show | src/main/java/org/variantsync/diffdetective/metadata/Metadata.java:123-125 | name, then `: `, then the value, then a line break |
| Metadata.ShowEntriesAppend | src/main/java/org/variantsync/diffdetective/metadata/Metadata.java:108-114 | the text of two entry lists is the two texts concatenated |
| Metadata.ShowAll | src/main/java/org/variantsync/diffdetective/metadata/Metadata.java:108-114 | the loop yields the lines of all entries in iteration order |
| Metadata.Lines | src/main/java/org/variantsync/diffdetective/metadata/Metadata.java:108-125 | one `name: value` line per entry, in order |
| Metadata.ShowEntriesIsLines | src/main/java/org/variantsync/diffdetective/metadata/Metadata.java:108-125 | the text is the lines, each ended by a line break |
| Metadata.LinesHaveNoBreak | src/main/java/org/variantsync/diffdetective/metadata/Metadata.java:123-125 | no line holds a break when no name and no value does |
| Metadata.ShowEntriesSplitsBack | src/main/java/org/variantsync/diffdetective/metadata/Metadata.java:108-125 | splitting the text at breaks gives the lines back, then an empty piece |
| DiffTypes.Time.Other | src/main/java/org/variantsync/diffdetective/diff/difftree/DiffNode.java:403 | `time.other()` is the other of the two times |
| DiffTypes.DiffType.Ordinal | src/main/java/org/variantsync/diffdetective/diff/difftree/DiffNode.java:726 | the diff-type ordinal packed into an id is one of three values |
| DiffTypes.NodeType.Ordinal | src/main/java/org/variantsync/diffdetective/diff/difftree/DiffNode.java:728 | the node-type ordinal packed into an id is one of five values |
| DiffGraph.ParentStep | src/main/java/org/variantsync/diffdetective/diff/difftree/DiffNode.java:201-207 | on a finite chain the parent at `t` is a node of the diff one step closer to the top |
| DiffQueries.CountIfs | src/main/java/org/variantsync/diffdetective/diff/difftree/DiffNode.java:185-195 | the number of IF nodes on a chain never exceeds its length |
| Strings.JavaSplitJoin | src/main/java/diff/difftree/serialize/edgeformat/EdgeLabelFormat.java:43-46 | `String.split` with a plain one-character separator undoes joining at least two separator-free pieces whose last is non-empty |
| Strings.DropTrailingEmpty | src/main/java/diff/difftree/serialize/edgeformat/EdgeLabelFormat.java:43 | `split` keeps a prefix of the pieces without the trailing empty ones |
| Strings.ParseInt | src/main/java/diff/difftree/serialize/edgeformat/EdgeLabelFormat.java:49-50 | `Integer.parseInt` succeeds only on values in the 32-bit range |
| Strings.ParseIntOfNatToString | src/main/java/diff/difftree/serialize/edgeformat/EdgeLabelFormat.java:49-50 | printing a non-negative int and parsing it back gives the same value |
| Strings.NatToString | src/main/java/org/variantsync/diffdetective/mining/formats/ReleaseMiningDiffNodeFormat.java:41-45 | `Integer.toString` of a non-negative int is a non-empty run of decimal digits |
| Strings.LexLeqTotal | src/main/java/org/variantsync/diffdetective/experiments/views/ViewAnalysis.java:30 | `String.compareTo` orders any two strings |
| Strings.LexLeqTrans | src/main/java/org/variantsync/diffdetective/experiments/views/ViewAnalysis.java:30 | `String.compareTo` order is transitive |

## Left out

- The SAT solver, `toCNF`, `toRegularCNF`, the Tseytin transformation and `FixTrueFalse.EliminateTrueAndFalse` are foreign code. They are the parameters of `Sat.Logic`, and a ghost predicate states what soundness means for them.
- The `Time`, `DiffType` and `NodeType` enums are not part of this model. Their ordinals are taken as ADD=0, NON=1, REM=2 and ROOT=0, IF=1, ELIF=2, ELSE=3, ARTIFACT=4, which agrees with the label examples in the mining format's documentation.
- `DiffLineNumber`, its `as` conversion and formula printing are not part of this model. Line numbers are integers, and printers (`toString` of a formula or line number) are parameters.
- The `LineGraphConstants` values are parameters. Only `EdgeLabelFormat.EdgesRoundTrip` assumes anything of them: that no label prefix starts with one tested before it in `connectAccordingToLabel` (`EdgeLabelFormat.Ordered`), which `EdgeLabelFormat.KindOfPrefixes` shows is exactly when each written prefix is read back as its own link.
- `edgeToLineGraph` is abstract in the source and is a parameter here.
- The clause comparator of `sortRegularCNF` compares `Arrays.toString` texts. That printer is a `show` parameter.
- `Sorting.SortBy`: `Arrays.sort` and `List.sort` are stable merge sorts. They are modelled by an insertion sort, proved sorted and a permutation. `Sorting.Insert` places an element before the elements equal to it, so the sort is stable by construction, but no lemma states stability.
- Java regular expressions are modelled as far as the abstraction table uses them: literal (`\Q…\E`) patterns, the `\s+` pattern and the full-word look-arounds of `onlyFullWord`. The model leaves out Unicode digit and word classes and `$` group references in values; no table value contains one.
- `FullNodeFormat.toMultilineLabel` builds a list step by step. It is modelled as a function, because its only loop is a `forEach` over the label lines.
- `FeatureMapping.FeatureMappingClauses`: where Java keeps a missing direct formula of an IF or ELIF (`and.add(getDirectFeatureMapping())`, `negate(…)` of it, DiffNode.java:521, 528 and 535), the model returns `Err(NullFormula)` rather than a clause list holding `null`. `negate` is not part of this model, so whether it throws on `null` is not captured.
- `FeatureMapping.PresenceConditionClauses`: likewise, a ROOT- or IF-typed node without a formula makes `clauses.add(featureMapping)` (DiffNode.java:593) add `null` to the list in Java, while the model returns `Err(NullFormula)`. A well-formed diff, where every IF and ELIF carries a formula, never takes this path.
- `ViewAnalysis.Contributes`: `ProposedEditClasses` is not part of this model, so `Untouched.matches(a)` (ViewAnalysis.java:63) is taken to be `EditPatterns.Match(a) == Ok(Untouched)`. Where `Match` fails (for example a presence condition that cannot be computed), the node counts as contributing, and the collection then meets the same failure when it asks for the node's presence conditions.
- `Strings.ParseInt` accepts ASCII digits only, while `Integer.parseInt` also accepts other Unicode decimal digits. The edge lines this model reads are written with ASCII digits.
- `Metadata.Show`: the value printer is a total parameter, so the `NullPointerException` that `show(name, null)` raises in Java is not modelled.
- `DuplicateFilter.FilterDuplicates`: the difftree type and its equality test are type and function parameters.
- `EditPatterns.Match`: `ProposedEditClasses` is not part of this model. The refactoring class is related to `match` through its `Untouched` and `Refactoring` outcomes.
- `FormalTreeGraph`: tree nodes are identified by integers in place of object identity. `RootHasNoEdge` therefore needs the ids to be unique. `hashCode` is left out.
- `Metadata.exportTo` writes a file and calls `System.exit`, and `snapshot`, `append` and the semigroup instances belong to subclasses. All are left out. Java `equals` is Dafny equality, and the map's iteration order is given as a sequence of entries.
- `ViewAnalysis.GetUniquePartialConfigs` enumerates with the corrected skip (see the findings) and bit vectors below 2^size, never with the overflowing `1 << 31`. The analysis hooks, the logger, the file output and the timing are left out. A node whose presence condition cannot be computed makes the analysis return that error.
- `HashSet` and `LinkedHashSet` iteration orders are given as sequences. The difftree traversal order is a parameter of the view collection.
- Rendering, git access, the tree parsers, result tables, tests and the thin wrappers that only delegate are outside this model. The thin wrappers are `View`, `ExampleCriterions`, `FeatureContextOfAddToPC`, `MappingsDiffNodeFormat`, `Exporter` and `LinegraphFormat`.

## Findings

| source | as written | input that shows it | evidently intended | confidence | as-written member | corrected member |
|---|---|---|---|---|---|---|
| src/main/java/org/variantsync/diffdetective/experiments/views/ViewAnalysis.java:113 | after an unsatisfiable candidate the loop adds `1 << Integer.lowestOneBit(v)`: the shift distance is the lowest bit's value, not its index | two deselected PCs, the first unsatisfiable: bit vector 1 fails, the loop continues at 4 and never tries bit vector 2, whose view is satisfiable | skip only supersets of the failing set, i.e. add less than the lowest set bit | not executed | ViewAnalysis.SkipLosesView | ViewAnalysis.EnumerateComplete |
| src/main/java/org/variantsync/diffdetective/experiments/views/ViewAnalysis.java:80-93 | `size() < Integer.SIZE` admits 31 PCs, but `1 << 31` is negative, so `new ArrayList<>(powsetSize)` throws | 31 distinct deselected PCs | a bound that keeps `1 << size` positive (at most 30), or a wider type | not executed | ViewAnalysis.PowersetSizeOverflows | ViewAnalysis.EnumerateViews |
| src/main/java/diff/difftree/serialize/edgeformat/EdgeLabelFormat.java:17-20 | a BEFORE_AND_AFTER edge calls `child.addAfterChild(child)`: the child becomes its own after-parent | an edge line `… c p` with the BEFORE_AND_AFTER label | `parent.addAfterChild(child)`, linking the child to the parent at both times | not executed | EdgeLabelFormat.BeforeAndAfterSelfLink | EdgeLabelFormat.BeforeAndAfterLinksBoth |
| src/main/java/org/variantsync/diffdetective/diff/difftree/DiffNode.java:416-420 | `removeFromCache` uses `List.remove(Object)`, which removes the first child that `equals` the node, not the node itself | a root with two listed children equal in diff type, node type, lines and label; removing the second | remove by identity | not executed | DiffEdits.RemoveChildAsWrittenLosesSibling | DiffEdits.RemoveChildKeepsLinks |
| src/main/java/org/variantsync/diffdetective/diff/difftree/DiffNode.java:769-774 | the checks `c.getParent(t).isChild(c, t)` hold for every `c` with a parent at `t`, so they check nothing the first assertion does not | node 2 names node 0 as before-parent, but only node 1 lists it; node 1 passes as written | check that `this` is the parent, or that the parent lists `c` | not executed | Consistency.AsWrittenMissesUnlistedChild | Consistency.ConsistentEverywhereLinked |
