# LiveFragment in Dafny

LiveFragment (livefragment.js) is a "live" DocumentFragment. It stands for a
run of consecutive children of one parent node in a document. Every edit made
through the fragment is made to the parent, and the fragment keeps its
bookkeeping in step. That bookkeeping is three fields:

- `_childNodes`: the members, in document order;
- `_previousSibling`: the child just before the run (null at the parent's start);
- `_nextSibling`: the child just after the run (null at the parent's end).

The model has five modules:

- `Dom` is the host document. A `Tree` maps each parent to the ordered list of
  its children, and nodes are plain identities. A node in no list is detached.
  `Document` is a class whose `kids` field the host mutators change in place:
  `removeChild`, `insertBefore` (of a node or of a DocumentFragment's
  children) and `replaceChild`, as in the mutation algorithms of the WHATWG
  DOM Standard (section 4.2.3). `WellFormed` says that no list repeats a node,
  no node sits under two parents and no node is its own child.
- `Exceptions` holds the errors a fragment throws:
  - DOMException code 8 (NotFoundError);
  - DOMException code 9 (NotSupportedError);
  - the TypeError the runtime raises when the constructor reads a property of
    a null parent.
- `Ranges` holds the bookkeeping as a value, `Range(members, prev, next)`.
  - `Spans` is the range invariant: some index `i` has
    `children[i..i+|members|] == members`, with the anchors the children on
    either side of that slice, or null.
  - `extend` and `shrink` are the functions `Extended` and `Shrunk`.
  - The anchors that `before` and `after` set are modelled both as written and
    as corrected.
- `RunEdits` holds lemmas about the parent's list cut in three, `head + members + tail`.
- `LiveFragments` holds the constructor and the `LiveFragment` class.
  - The constructor's three argument shapes are a tagged union `Shape`. Its
    walk and its sibling check are methods, proved equal to the functions
    `ConstructBetween` and `ConstructList`.
  - `LiveFragment` is a class with the source's three fields, plus two ghost
    fields `head` and `tail`. Its invariant `Valid()` says:
    - the parent's children are `head + childNodes + tail`;
    - `previousSibling` is the last node of `head`;
    - `nextSibling` is the first node of `tail`.
  - Every public method keeps `Valid()`. A few internal steps keep only the
    first clause, for example `Empty`, and `PutAfterRun` midway through `after`.
    Each method also states the new member list, the new anchors and the new
    tree exactly, in terms of the old ones.
  - A live fragment given to `appendChild` or `insertBefore` is proved to end
    valid and empty, over its old anchors. This holds even when it shares this
    fragment's parent: its members were kept apart from this fragment's members
    and anchors, so the nodes never go into its gap.

## Model

| member | source | states |
|---|---|---|
| `Exceptions.ExceptionFor` | livefragment.js:10-13 | exactly codes 8 and 9 are known; 8 is NotFoundError and 9 is NotSupportedError, and each maps back to its code |
| `Dom.IndexOf` | livefragment.js:158 | `indexOf`: -1 exactly when the node is absent, otherwise the position of its first occurrence |
| `Dom.Document.ParentNode` | livefragment.js:52 | `parentNode` is the parent whose list holds the node, and null for a detached node |
| `Dom.Document.NextSibling` | livefragment.js:58 | `nextSibling` is the next child of the node's parent, null at the end or when detached |
| `Dom.Document.PreviousSibling` | livefragment.js:69 | `previousSibling` is the previous child of the node's parent, null at the start or when detached |
| `Dom.Document.RemoveChild` | livefragment.js:178 | the child leaves its parent's list and no other list changes; the tree stays well formed |
| `Dom.Document.Remove` | livefragment.js:113-115 | `if (node.parentNode) node.parentNode.removeChild(node)`: the node ends up detached, and a detached node changes nothing |
| `Dom.Document.InsertBefore` | livefragment.js:164 | the node, or the DocumentFragment's children in order, leave their places and go in before ref (at the end when ref is null); ref is still a child afterwards |
| `Dom.Document.AppendChild` | livefragment.js:122 | `appendChild` is `insertBefore` with a null ref |
| `Dom.Document.ReplaceChild` | livefragment.js:205 | the new node leaves its place and takes the old child's index; the old child is detached |
| `LiveFragments.Walk` | livefragment.js:54-63 | the `while` walk from prev's nextSibling (the first child when prev is null) collects exactly the children strictly between prev and next; it fails when next is never reached |
| `LiveFragments.WalkBetween` | livefragment.js:47-64 | `new LiveFragment(prev, next)` yields `ConstructBetween`: code 9 for two nulls or a next that is not reached, and a TypeError for a null parent (:54, :95) |
| `LiveFragments.CheckList` | livefragment.js:66-78 | the `for` check of `new LiveFragment([nodes])` yields `ConstructList`: code 9 for an empty list or at the first node that is not its predecessor's nextSibling |
| `LiveFragments.ListByChain` | livefragment.js:66-78 | the list constructor in its code's terms: code 9 exactly when the sibling chain breaks; TypeError for one detached node; otherwise the nodes with the first node's previousSibling and the last node's nextSibling as anchors |
| `LiveFragments.ChainedRun` | livefragment.js:71-77 | for nodes under one parent, passing the sibling check is equivalent to forming a run of that parent's children |
| `LiveFragments.ChainedPrefix` | livefragment.js:71-75 | by induction on the check's loop: the first i nodes pass the check exactly when they lie consecutively from the first node on |
| `LiveFragments.ChainStep` | livefragment.js:72 | one step of the check accepts a node exactly when it is the next child |
| `LiveFragments.DetachedChained` | livefragment.js:68-75 | a detached first node passes the check only when it is alone |
| `LiveFragments.RunOfAnchors` | livefragment.js:69-77 | a run found in the children has the first node's previousSibling and the last node's nextSibling as anchors |
| `LiveFragments.PreviousLinksBack` | livefragment.js:69-72 | `previousSibling.nextSibling` is the node itself |
| `LiveFragments.RunBetweenSplit` | livefragment.js:53-63 | the walked run cuts the children into head + run + tail, with prev the last of head and next the first of tail |
| `LiveFragments.RunOfSplit` | livefragment.js:66-78 | the same cut for a checked list |
| `LiveFragments.BetweenOk` | livefragment.js:51-63 | a successful two-anchor construction found its run among the children of prev's parent (or of next's) |
| `LiveFragments.BetweenSplit` | livefragment.js:47-64 | the two-anchor construction cuts its parent's children around the run |
| `LiveFragments.ListSplit` | livefragment.js:66-78 | the list construction cuts its parent's children around the run |
| `LiveFragments.ConstructSplit` | livefragment.js:47-89 | every successful construction cuts the children around the members, with the anchors at the cuts |
| `LiveFragments.ConstructSpans` | livefragment.js:91-94 | every successful construction satisfies the range invariant |
| `LiveFragments.LiveFragment.New` | livefragment.js:42-97 | the constructor throws exactly what `Construct` says; otherwise it gives a fresh valid fragment with that parent, members and anchors |
| `LiveFragments.LiveFragment.Init` | livefragment.js:91-94 | the fields are set from the constructed range, and the invariant holds |
| `LiveFragments.LiveFragment.FirstChild` | livefragment.js:350-352 | null exactly when there are no members, otherwise the first member |
| `LiveFragments.LiveFragment.LastChild` | livefragment.js:354-356 | null exactly when there are no members, otherwise the last member |
| `LiveFragments.LiveFragment.HasChildNodes` | livefragment.js:269-271 | true exactly when there are members |
| `LiveFragments.LiveFragment.RangeInvariant` | tests/spec/tests.js:48-80 | a valid fragment shows, through the host's own parentNode/nextSibling/previousSibling, what the test helper checks: the members are consecutive children of parentNode; `previousSibling.nextSibling` is firstChild (nextSibling when empty); `nextSibling.previousSibling` is lastChild (previousSibling when empty) |
| `Ranges.SiblingsOfSpan` | livefragment.js:56-62 | a range in a list without duplicates is linked as siblings: prev, then the members in order, then next |
| `LiveFragments.LiveFragment.Extend` | livefragment.js:221-237 | extend takes the next anchor (tested first) or the previous anchor, and the new anchor is that node's far sibling; anything else is NotFoundError with nothing changed; the tree is never touched |
| `Ranges.ExtendedSpans` | livefragment.js:221-237 | extend succeeds exactly on an anchor, keeps the range invariant, and fails on null and on any member |
| `LiveFragments.LiveFragment.Shrink` | livefragment.js:240-256 | shrink gives up firstChild (tested first) or lastChild, which becomes the anchor on that side; anything else is NotFoundError with nothing changed |
| `Ranges.ShrunkSpans` | livefragment.js:240-256 | shrink succeeds exactly on the first or the last member and keeps the range invariant |
| `Ranges.ShrinkUndoesExtend` | livefragment.js:221-256 | `extend(x)` then `shrink(x)` gives the range back exactly when the range was not empty or x was the previous anchor |
| `LiveFragments.LiveFragment.RemoveChildNoFail` | livefragment.js:184-195 | a member leaves the parent and the list at its index; a non-member changes nothing |
| `LiveFragments.LiveFragment.DropAt` | livefragment.js:178-179 | the member at index i leaves the tree and is spliced out of the list; the anchors stay |
| `LiveFragments.LiveFragment.RemoveChild` | livefragment.js:171-182 | a non-member is NotFoundError with nothing changed; a member is detached, spliced out at its index and returned |
| `LiveFragments.LiveFragment.ReplaceChild` | livefragment.js:198-209 | a non-member oldNode is NotFoundError with nothing changed; otherwise newNode takes oldNode's index in the tree and in the list, and oldNode is detached and returned |
| `LiveFragments.LiveFragment.SwapAt` | livefragment.js:205-206 | newNode takes the place of the member at index i in the tree and in the list |
| `LiveFragments.LiveFragment.Empty` | livefragment.js:212-218 | the loop detaches every member and clears the list; the anchors stay |
| `LiveFragments.LiveFragment.Remove` | livefragment.js:328-330 | `remove()` is `empty()` |
| `LiveFragments.LiveFragment.GetDocumentFragment` | livefragment.js:262-267 | the loop moves the members, in order, into the returned DocumentFragment, out of the tree; the list is cleared and the anchors stay |
| `LiveFragments.LiveFragment.Reattach` | livefragment.js:258-261 | `getDocumentFragment()` followed by `appendChild` of its result gives back the same tree, members and anchors |
| `RunEdits.RoundTrip` | livefragment.js:258-261 | as values: taking the run out of the tree and inserting it again before the next anchor gives back the tree |
| `LiveFragments.LiveFragment.Unparent` | livefragment.js:112-117 | the node leaves its old parent, and `_removeChildNoFail` then leaves the non-member alone |
| `LiveFragments.LiveFragment.AppendNode` | livefragment.js:112-127 | the node is detached, then goes in before the next anchor (at the end when it is null) and is pushed as the last member |
| `LiveFragments.LiveFragment.PushLoose` | livefragment.js:119-125 | a detached node goes in before nextSibling, or by parent appendChild when that is null, and is pushed |
| `LiveFragments.LiveFragment.AppendLoose` | livefragment.js:108 | one step of the `forEach`: the next child of the DocumentFragment follows those already appended |
| `LiveFragments.LiveFragment.AppendNodes` | livefragment.js:107-110 | a DocumentFragment's children are appended in order: the members become old + children, and they sit before the next anchor |
| `LiveFragments.LiveFragment.TakeLive` | livefragment.js:103-105 | a live fragment argument is emptied into a DocumentFragment whose children are its members, now detached; it stays valid and keeps its anchors (getDocumentFragment, :262-267) |
| `LiveFragments.LiveFragment.AppendLive` | livefragment.js:103-108 | appendChild of a live fragment: its members leave their places and follow the old members, in order, before the old next anchor; the argument fragment ends empty and valid, over the same two anchors |
| `RunEdits.GapSurvives` | livefragment.js:103-108 | the emptied argument fragment's anchors are still neighbours after its members go into this fragment, both under another parent and under the same one |
| `RunEdits.GapsApart` | livefragment.js:103-108 | two disjoint runs of one list, where one holds neither neighbour of the other: no insertion point within the second run is the gap the first one leaves |
| `RunEdits.ShiftedGap` | livefragment.js:108 | inserting at a position other than a gap keeps the two sides of the gap next to each other |
| `LiveFragments.LiveFragment.AppendChild` | livefragment.js:102-128 | for a node, a DocumentFragment or a live fragment: the nodes leave their places and follow the old members, in order, before the old next anchor; the node itself is returned, a fragment gives undefined; a live fragment argument ends empty and valid, over its old anchors |
| `LiveFragments.LiveFragment.Append` | livefragment.js:279-281 | `append` is `appendChild`, including what happens to a live fragment argument |
| `LiveFragments.LiveFragment.InsertNode` | livefragment.js:151-167 | the node leaves its old parent first; then a non-member ref is NotFoundError, with that removal already done; otherwise the node goes in before ref, at ref's index in the list |
| `LiveFragments.LiveFragment.PushLooseAt` | livefragment.js:164-165 | a detached node goes in before the i-th member, in the tree and at index i of the list |
| `LiveFragments.LiveFragment.InsertLoose` | livefragment.js:145-147 | one step of the `forEach`: before a member ref the next child follows those already inserted; with a non-member ref the first child throws and nothing has changed |
| `LiveFragments.LiveFragment.InsertNodes` | livefragment.js:144-148 | a DocumentFragment's children go in before a member ref, in order; with a non-member ref NotFoundError and no change; an empty DocumentFragment changes nothing |
| `LiveFragments.LiveFragment.InsertRest` | livefragment.js:145-147 | once the first children are in before ref, the later ones follow and none throws |
| `LiveFragments.LiveFragment.InsertBefore` | livefragment.js:133-168 | a null ref is `appendChild`; a member ref gets the nodes in before it and at its index; a non-member ref is NotFoundError, except for an empty DocumentFragment, and the nodes have still left their old places; a live fragment argument ends empty and valid, over its old anchors |
| `LiveFragments.LiveFragment.InsertLive` | livefragment.js:140-148 | insertBefore of a live fragment: it is emptied first; a member ref gets its former members in before it and at its index; a non-member ref is NotFoundError with those members already detached; the argument ends empty and valid, over its old anchors |
| `LiveFragments.LiveFragment.Prepend` | livefragment.js:274-276 | `prepend` puts the nodes in front of the old members, before the first member (before the next anchor when there is none); a live fragment argument ends empty and valid, over its old anchors |
| `LiveFragments.LiveFragment.Before` | livefragment.js:284-295 | the nodes go in before firstChild (or nextSibling when empty), and the last of them becomes the previous anchor; the members stay |
| `LiveFragments.LiveFragment.PutBeforeRun` | livefragment.js:293 | the nodes go in right before the run, after what is left of the children in front of it |
| `Ranges.BeforeSpans` | livefragment.js:284-295 | with the corrected anchor, the range invariant holds after `before` |
| `Ranges.BeforeAsWrittenBreaksSpan` | livefragment.js:287-294 | with the anchor as written, `before` of an empty DocumentFragment breaks the range invariant |
| `LiveFragments.LiveFragment.After` | livefragment.js:298-309 | the nodes go in before nextSibling, and the first of them becomes the next anchor; the members stay |
| `LiveFragments.LiveFragment.PutAfterRun` | livefragment.js:307 | the nodes go in right after the run, in front of the old next anchor |
| `Ranges.AfterSpans` | livefragment.js:298-309 | with the corrected anchor, the range invariant holds after `after` |
| `Ranges.AfterAsWrittenBreaksSpan` | livefragment.js:301-308 | with the anchor as written, `after` of an empty DocumentFragment breaks the range invariant |
| `LiveFragments.LiveFragment.Replace` | livefragment.js:312-325 | the nodes go in before nextSibling, the old members are detached by `empty()`, and the new nodes become the members; both anchors stay |
| `LiveFragments.LiveFragment.Adopt` | livefragment.js:324 | the nodes just inserted after the emptied run become its members |

## Left out

- `contains` (livefragment.js:333-347) calls the host's own `Node.contains`. The tree model has no ancestor relation, so this call is not modelled.
- The UMD export, `noConflict` and the `__defineGetter__` plumbing (livefragment.js:350-386) have no behaviour to state.
- The getters `parentNode`, `previousSibling`, `nextSibling` and `childNodes` are the fields themselves.
- The exception objects (livefragment.js:14-21) are left out. An error is a value that carries its code and its name.
- `ownerDocument`, `nodeType` and `createDocumentFragment` (livefragment.js:95-96, :263) are left out. A DocumentFragment is the sequence of its children.
- The DocumentFragment's own child list is not tracked. Its children count as detached, since they are not in the document.
- `childNodes` hands out the internal array, so a caller could alias it; the model does not capture that.
- HierarchyRequestError and cycles are not modelled. Inserting a node into its own descendant is outside the model, because the tree has no ancestor relation.
- LiveFragments.LiveFragment.AppendChild: requires `Accepts`, because the source does not handle these hazards:
  - a node that is already a member: :114 removes it from the parent, then `_removeChildNoFail` (:191) calls `removeChild` again and the host throws;
  - an anchor: `_previousSibling` or `_nextSibling` would be left pointing at a moved node;
  - the parent itself.
- LiveFragments.LiveFragment.AppendChild: `Accepts` also excludes the fragment itself. The source handles `appendChild(this)`: it empties the fragment (:104) and puts every former member back before the unchanged next anchor (:108, :119-125). The model states that round trip as `Reattach` (getDocumentFragment, then appendChild of the result), not as a case of AppendChild.
- LiveFragments.LiveFragment.InsertBefore: requires `Accepts`, for the same hazards. `insertBefore(this, ref)` is also excluded, and here it is a real hazard: the fragment is emptied (:140-142), so ref is no longer a member, and NotFoundError follows (:158-162) with every member detached.
- LiveFragments.LiveFragment.Prepend and LiveFragments.LiveFragment.Append: require `Accepts`, for the same reasons.
- LiveFragments.LiveFragment.ReplaceChild: requires the new node to be neither an anchor nor a member. A member other than oldNode is a hazard: it would appear twice in the list (:205-206). `replaceChild(x, x)` is harmless in the source, since the host keeps x in place and the splice puts x back at its own index; the precondition excludes it too, and the model does not state that no-op.
- LiveFragments.LiveFragment.Before: requires `Outside`, that is, the nodes are neither members nor the next anchor.
- LiveFragments.LiveFragment.After: requires `Outside`, and also that no node is the previous anchor. The source would leave a stale anchor there.
- LiveFragments.LiveFragment.Replace: the same precondition as `After`.
- LiveFragments.LiveFragment.Before, LiveFragments.LiveFragment.After and LiveFragments.LiveFragment.Replace take a node or a DocumentFragment. A live fragment given to them reaches the host's `insertBefore`, which rejects it; that path is not modelled.
- A constructor argument the model has no shape for is not modelled. A single null throws a TypeError at :66. A non-empty Text node has a `length`, so it takes the list branch (:67-68).
- A live fragment given as the container argument of the constructor (it has a `nodeType`, so :79 accepts it) is not modelled; `Shape` has no such case.
- Extending the parent behind the fragment's back is not modelled; nothing in the source detects it.
- `Array.prototype.forEach` over a copy of the DocumentFragment's children (:108, :145) is a loop over the sequence.
- In InsertNodes the loop's first step is taken before the loop and the rest in InsertRest. This is the same sequence of calls the `forEach` makes.

Where the code and its own design notes differ, the model follows the code:

- Appending a node that is already a member does not move it in place. The code removes it from the parent twice (:114, :191), so the model requires that the node is not a member.
- `insertBefore` with a ref that is not a member is not free of side effects. The new node has already left its old parent (:152-154), and a live fragment argument has already been emptied (:140-142), when NotFoundError is thrown.
- The constructor throws NotSupportedError (code 9) for non-adjacent nodes and for an empty node list, which :66 does not accept. A TypeError arises when the parent is null (:54, :95).

## Findings

| source | as written | input that shows it | evidently intended | confidence | as-written member | corrected member |
|---|---|---|---|---|---|---|
| livefragment.js:287-294 | `before(fragment)` sets `_previousSibling` to `node.lastChild`, which is null for an empty DocumentFragment | parent children `[1, 2]`, fragment over `[2]` with previousSibling 1; `before(empty DocumentFragment)` inserts nothing but sets previousSibling to null | keep the old previous anchor when nothing was inserted | high; not executed | `Ranges.BeforeAsWrittenBreaksSpan` | `Ranges.BeforeSpans` |
| livefragment.js:301-308 | `after(fragment)` sets `_nextSibling` to `node.firstChild`, which is null for an empty DocumentFragment | parent children `[1, 2]`, fragment over `[1]` with nextSibling 2; `after(empty DocumentFragment)` sets nextSibling to null | keep the old next anchor when nothing was inserted | high; not executed | `Ranges.AfterAsWrittenBreaksSpan` | `Ranges.AfterSpans` |

The as-written anchors are `Ranges.NewPreviousAsWritten` and
`Ranges.NewNextAsWritten`. The corrected ones are `Ranges.NewPrevious` and
`Ranges.NewNext`, and `LiveFragment.Before` and `LiveFragment.After` use the
corrected ones.
