# wretched-react core, modelled in Dafny

wretched-react connects a virtual-DOM diffing engine (React through
`react-reconciler`, or Preact through a fake `document`) to the widget tree
of the `wretched` terminal UI library. This project models the part of it
that has behaviour of its own:

- **Text-run consolidation** (`TextReact.ts`). A `TextContainer` keeps a
  logical list of `TextLiteral`s and other views. It renders each maximal
  run of consecutive literals as one `Text` block holding their
  concatenated text. Views pass through in order. `invalidateText` is a
  fast path that rewrites the existing blocks in place and falls back to a
  full rebuild. The formatting of a block comes from the nearest
  `TextProvider` ancestor, over fixed defaults.
- **Host adapter routing** (`reconciler.ts` and its copy in
  `lib/preact.tsx`):
  - Node creation by tag, with `children` and `child` stripped from props.
  - Routing of text-like children into the parent's trailing
    `TextContainer`.
  - Positional insertion of the other children.
  - Removal with pruning of emptied containers.
  - The prop-bag diff of `prepareUpdate`, and the commit hooks.
- **The shadow DOM that Preact drives** (`RendererElement` in
  `lib/preact.tsx`, with the near-identical copy in the top-level
  `preact.tsx`):
  - Sibling links kept in an arena map.
  - Attribute writes batched behind a snapshot and flushed once per burst.
  - The `dom` renderer that forwards to the adapter.
- **`childToText`**: the conversion of child values to text.

Modules, one per concern:

| module | file | models |
|---|---|---|
| `Base` | base.dfy | JavaScript values, `props[key]`, `??`, `String(v)`, `indexOf`, `splice` |
| `ChildText` | child_to_text.dfy | `lib/childToText.ts` |
| `TextFormat` | text_format.dfy | `TextProvider`'s fields, `textProps` and the defaults |
| `TextRun` | text_run.dfy | `#resolveNodes` on the logical list, as a pure grouping |
| `TextRefresh` | text_refresh.dfy | the in-place walk of `invalidateText` |
| `RetainedTree` | retained_tree.dfy | the widget arena and `TextContainer`'s operations |
| `HostAdapter` | adapter.dfy | the reconciler host config and `lib/preact.tsx`'s `createView`/`appendChild`/`removeChild` |
| `SiblingLinks` | sibling_links.dfy | `RendererElement`'s five link fields |
| `ShadowDom` | shadow_dom.dfy | `RendererElement`, `createRendererDom` and the `dom` renderer, both copies |

The widget tree is an arena `Tree(nodes, parent, next)`:

- `nodes` maps identities to nodes: `Literal`, `TextContainer`,
  `TextProvider`, `TextStyle`, a non-container `Leaf` or a container
  `Widget`.
- `parent` holds the `parent` back-references that `Container.add` sets.
- `next` is the next fresh identity.

A literal's `parentTextContainer` is the `owner` field of its node. A
TextContainer node holds both its logical list (`nodes`) and its rendered
children (`rendered`, a sequence of generated text blocks and references to
views). The central invariant is `Resolved(t, c, fmt)`: the rendered
children are `Resolve` of the logical list's items, in the format
`FormatFor(t, c)` that the provider walk yields.

The two copies of `RendererElement` differ in five ways:

- The library copy's text node has the tag `text`; the top-level copy's
  has the tag `Text`.
- The library copy's root element has the tag `wr-window`; the top-level
  copy's has the tag `Window`.
- The library copy writes a text node's content under `text`; the
  top-level copy writes it under `data`.
- The library copy's renderer creates views through `createView` and routes
  through `appendChild`/`removeChild`. The top-level renderer knows only
  `Text`, `Box` and `Window`, and calls `Container.add`/`removeChild`
  directly.
- The library renderer ignores a parent that is not a container. The
  top-level one calls into it and throws.

`ShadowDom.Flavor` (`Library` or `RootCopy`) selects the copy.

## Model

| member | source | states |
|---|---|---|
| `Base.SpliceInsertCounts` | lib/components/TextReact.ts:120 | `splice(at ?? length, 0, child)` adds exactly one occurrence of the child and loses nothing, whatever `at` is (negative and out-of-range starts are clamped as JavaScript does) |
| `Base.RemoveFirstCounts` | lib/components/TextReact.ts:134-138 | removing by `indexOf` drops exactly one occurrence when the view is present, none otherwise |
| `ChildText.ChildToText` | lib/childToText.ts:1-19 | null, undefined and false give the empty string; true and numbers give `String(child)`; strings give themselves; a `br`/`wr-br` element gives a newline; a function component gives the text of what it renders |
| `ChildText.ChildrenToText` | lib/childToText.ts:21-27 | an empty array gives the empty string; a non-array is converted as a single child |
| `ChildText.JoinAppend` | lib/childToText.ts:22-24 | the text of two arrays joined is the text of the first followed by the text of the second |
| `ChildText.JoinIsConcatenation` | lib/childToText.ts:23 | splitting the array anywhere splits its text at the same place |
| `ChildText.ArrayOfOne` | lib/childToText.ts:21-27 | a one-element array reads the same as that element passed alone |
| `ChildText.FalsyChildrenVanish` | lib/childToText.ts:2-3 | a null, undefined or false child anywhere in an array contributes nothing |
| `TextFormat.ProviderUpdate` | lib/components/TextReact.ts:323-328 | style and font are exactly what the props hold, an omitted one becoming undefined; alignment and wrap keep a given non-null value and otherwise default to `'left'` and `false`, so they are never left undefined |
| `TextFormat.TextProps` | lib/components/TextReact.ts:300-316 | the getter exposes exactly the fields that are not undefined, each with the field's value, and only the four formatting keys |
| `TextFormat.ResolveFormat` | lib/components/TextReact.ts:230-237 | without a provider the format is the defaults; with one, the provider's defined fields win and every other default survives |
| `TextFormat.ProvidedFormat` | lib/components/TextReact.ts:217-243 | the format a provider built from `props` gives: alignment `props.alignment ?? 'left'`, wrap `props.wrap ?? false`, font the given one or `'default'`, and a style key iff a style was given, holding that style |
| `TextFormat.CenterOnly` | lib/components/TextReact.ts:323-328 | a provider given only `alignment: 'center'` formats blocks as default font, centred, not wrapped |
| `TextRun.ConsolidateIsResolve` | lib/components/TextReact.ts:195-212 | the text-buffer loop (buffer on literals, flush before a view and at the end) produces exactly the run grouping `Resolve` |
| `TextRun.ResolveNodes` | lib/components/TextReact.ts:185-215 | the imperative rebuild computes `Resolve` of the logical list |
| `TextRun.ResolveRefsAreViews` | lib/components/TextReact.ts:208-210 | every view reference in the rendering is a view of the logical list |
| `TextRun.ResolveKeepsViews` | lib/components/TextReact.ts:197-211 | the views of the rendering are exactly the views of the list, in their original order |
| `TextRun.ResolveKeepsText` | lib/components/TextReact.ts:197-206 | the blocks' texts, read in order, are the literals' texts concatenated in order |
| `TextRun.ResolveHead` | lib/components/TextReact.ts:195-211 | the rendering is empty iff the list is, and starts with a block iff the list starts with a literal |
| `TextRun.ResolveNoAdjacentBlocks` | lib/components/TextReact.ts:197-206 | two generated text blocks are never adjacent |
| `TextRun.ResolveCount` | lib/components/TextReact.ts:195-211 | the rendered count is the number of views plus the number of maximal literal runs |
| `TextRun.ResolveEmpty` | lib/components/TextReact.ts:195-212 | nothing is rendered iff the logical list is empty |
| `TextRun.AllLiteralsOneBlock` | lib/components/TextReact.ts:197-206 | a non-empty list of literals renders as one block with their concatenation, even when every text is empty |
| `TextRun.InterleavedExample` | lib/components/TextReact.ts:27-37 | text, view, text renders as block, view, block: a view splits a run |
| `TextRefresh.WalkLiterals` | lib/components/TextReact.ts:162-164 | the walk appends each literal of a run to the buffer without moving to the next rendered child |
| `TextRefresh.WalkGivesUpAtView` | lib/components/TextReact.ts:166-170 | a pending run whose rendered slot is not a text block makes the walk give up |
| `TextRefresh.WalkRun` | lib/components/TextReact.ts:159-164 | a run is read whole into a fresh buffer before anything is compared |
| `TextRefresh.WalkGivesUpAfterRun` | lib/components/TextReact.ts:166-175 | the text buffer is never reset, so when a view follows a run the walk next expects a block in that view's slot and falls back to a full rebuild |
| `TextRefresh.WalkSoundRun` | lib/components/TextReact.ts:155-178 | when a walk that starts at a run completes in place, its result is the rendering of the new texts |
| `TextRefresh.WalkSound` | lib/components/TextReact.ts:155-178 | whenever the in-place walk completes, it yields exactly the rendering of the new texts, given a list of the same shape as the one last rendered |
| `TextRefresh.InvalidateMatchesResolve` | lib/components/TextReact.ts:155-178 | after literal texts change, `invalidateText` (fast path or fallback) leaves the rendering equal to a full rebuild |
| `TextRefresh.AllLiteralsRewriteInPlace` | lib/components/TextReact.ts:159-177 | for a container holding only literals, the fast path rewrites its one block to the concatenation |
| `RetainedTree.Ancestors` | lib/components/TextReact.ts:219-223 | the walk starts at the container's parent and is bounded |
| `RetainedTree.AncestorsFollowParents` | lib/components/TextReact.ts:219-223 | each node on the walk is the parent of the one before it |
| `RetainedTree.FirstProviderIndex` | lib/components/TextReact.ts:224-227 | the walk stops at the first TextProvider and no earlier node is one; none is found iff there is no provider on the chain |
| `RetainedTree.FormatFrame` | lib/components/TextReact.ts:217-237 | a block's format depends only on the parent links and the providers' fields |
| `RetainedTree.Refresh` | lib/components/TextReact.ts:180-215 | after a rebuild the rendering is `Resolve` of the list in the provider format, every rendered view has the container as parent, and no other node changes |
| `RetainedTree.ContainerAdd` | lib/components/TextReact.ts:115-122 | the child is spliced into the logical list at `at` (at the end without it) and a literal's back-link points to this container |
| `RetainedTree.ContainerAddResolves` | lib/components/TextReact.ts:115-122 | after `add` the rendering is the resolution of the new list |
| `RetainedTree.Remaining` | lib/components/TextReact.ts:129-139 | an index in range or a member view is removed once; an out-of-range index or an absent view leaves the list unchanged |
| `RetainedTree.ContainerRemove` | lib/components/TextReact.ts:124-142 | the list loses the removed entry; a literal removed by identity loses its back-link, while one removed by index keeps it; nothing else changes |
| `RetainedTree.ContainerRemoveResolves` | lib/components/TextReact.ts:124-142 | after `removeChild` the rendering is the resolution of the new list |
| `RetainedTree.ClearOwners` | lib/components/TextReact.ts:145-149 | every literal of the list loses its back-link and no other node changes |
| `RetainedTree.ContainerRemoveAll` | lib/components/TextReact.ts:144-153 | the list and the rendering are empty and every former literal's back-link is cleared |
| `RetainedTree.InvalidateText` | lib/components/TextReact.ts:155-178 | the list is kept and the rendering is what the in-place walk (or its fallback) computes |
| `RetainedTree.SetText` | lib/components/TextReact.ts:83-87 | the literal stores `String(value)` and keeps its container |
| `RetainedTree.SetTextKeepsResolved` | lib/components/TextReact.ts:83-91 | after a literal's text changes and its container is notified, the container's rendering is again the resolution of its list |
| `RetainedTree.Add` | lib/components/TextReact.ts:115-122 | a TextContainer splices into its logical list, any other container into its children and becomes the child's parent; a node with no `add` throws a `TypeError`, and only such a node does |
| `RetainedTree.RemoveChild` | lib/components/TextReact.ts:124-142 | removes the first occurrence from the list or the children; a node with no `removeChild` throws a `TypeError`, and only such a node does |
| `RetainedTree.RemoveAllChildren` | lib/components/TextReact.ts:144-153 | the list or the children become empty and no former child keeps this parent; a node with no `removeAllChildren` throws a `TypeError` |
| `RetainedTree.Update` | lib/components/TextReact.ts:318-321 | a provider takes its new fields from the props; other views take the props; a literal keeps its text; the node keeps its children and every other node is unchanged |
| `HostAdapter.StripChildren` | lib/reconciler.ts:149-157 | the bag loses exactly `children` and `child` |
| `HostAdapter.NodeFor` | lib/reconciler.ts:159-204 | a line break is the literal `"\n"`, a provider reads its fields from the props, every other kind keeps its tag and props and starts with no children |
| `HostAdapter.CreateInstance` | lib/reconciler.ts:138-208 | succeeds iff the tag is known, else fails with `unknown component "<type>"`; the new node is fresh, `br`/`wr-br` give `"\n"`, and the node never sees `children` or `child` |
| `HostAdapter.CreateTextInstance` | lib/reconciler.ts:209-215 | a fresh literal with exactly the given text and no container |
| `HostAdapter.CreateView` | lib/preact.tsx:116-172 | succeeds iff the tag is known, else fails with `Unknown type <type>`; `text` gives `String(props.text)`, `wr-literal` gives `props.text ?? ''` |
| `HostAdapter.TextViewNeverFallsBack` | lib/preact.tsx:118-119 | a `text` element with no text shows `"undefined"`: the `?? ''` fallback is dead |
| `HostAdapter.CreatorsAgree` | lib/preact.tsx:116-172 | on every tag the reconciler knows, the two creators build the same node |
| `HostAdapter.PreactKnowsMore` | lib/preact.tsx:125-168 | `wr-collapsible-text`, `wr-drawer`, `wr-window`, `text` and `wr-literal` are known only to the Preact creator |
| `HostAdapter.IndexBefore` | lib/reconciler.ts:103-108 | the first position of `before` among the children, or append when `before` is absent or not a child |
| `HostAdapter.AppendChild` | lib/reconciler.ts:78-115 | a text-like child under a non-TextStyle parent ends the trailing TextContainer (a new one is appended when the last child is not one) and `before` is ignored; any other child is spliced in before `before` and gets the parent; the call throws a `TypeError` iff the parent is not a container |
| `HostAdapter.JoinTextRun` | lib/reconciler.ts:84-100 | the text branch leaves the child at the end of the parent's trailing TextContainer |
| `HostAdapter.ReuseTextContainer` | lib/reconciler.ts:86-89 | an existing trailing TextContainer gets the child appended and the parent's children stay as they were |
| `HostAdapter.OpenTextContainer` | lib/reconciler.ts:90-93 | a fresh, empty TextContainer becomes the parent's last child |
| `HostAdapter.NewTextContainer` | lib/reconciler.ts:90-99 | the new trailing TextContainer holds exactly the child |
| `HostAdapter.TextRunsShareContainer` | lib/reconciler.ts:84-100 | two consecutive text children go into the same TextContainer: the first ends it, and the second is appended right after it |
| `HostAdapter.ViewEndsTextRun` | lib/reconciler.ts:103-114 | after a view is appended the parent no longer ends with a TextContainer |
| `HostAdapter.ViewSplitsTextRuns` | lib/reconciler.ts:84-114 | text after a view opens a new TextContainer after that view |
| `HostAdapter.InsertBefore` | lib/reconciler.ts:223-227 | as written: the child is added at the index of `beforeChild` and then passed to `appendChild`, which adds it again; it throws iff the parent is not a container |
| `HostAdapter.InsertBeforeAddsTwice` | lib/reconciler.ts:223-227 | inserting a new view before a sibling leaves it twice in the parent's children |
| `HostAdapter.InsertBeforeIntended` | lib/reconciler.ts:223-227 | the corrected hook adds a view exactly once |
| `HostAdapter.InsertBeforeIntendedPlaces` | lib/reconciler.ts:103-114 | the corrected hook puts the view immediately before `beforeChild` and keeps the children before it |
| `HostAdapter.FirstMatch` | lib/reconciler.ts:55-56 | the search finds a TextContainer among the children that passes the test, and finds none iff no child passes it |
| `HostAdapter.FirstMatchIsFirst` | lib/reconciler.ts:55-61 | the search returns the first child that passes: the loop returns at the first match, so no earlier child passes |
| `HostAdapter.PruneIfEmpty` | lib/reconciler.ts:58-60 | the container is dropped from the parent iff nothing is rendered in it |
| `HostAdapter.RemoveAndPrune` | lib/reconciler.ts:57-61 | the child leaves the TextContainer's list, a literal loses its back-link, and an emptied container leaves the parent |
| `HostAdapter.RemoveFromTextContainer` | lib/reconciler.ts:49-64 | as written: only a TextContainer whose rendered children include the child is touched, and it leaves the parent when emptied; nothing changes when there is none |
| `HostAdapter.RemoveFromTextContainerFixed` | lib/reconciler.ts:49-64 | the corrected search looks in the logical lists, removes exactly one entry and clears a literal's back-link, and an emptied container leaves the parent |
| `HostAdapter.RemoveChildHook` | lib/reconciler.ts:66-76 | a direct child is removed from the container, which throws when it has no `removeChild`; a text-like view that is not a direct child goes to `removeFromTextContainer`; any other view is left alone |
| `HostAdapter.RemoveChildHookFixed` | lib/reconciler.ts:66-76 | the same routing, with a text-like view going to the corrected search |
| `HostAdapter.ResolvedRendersNoLiteral` | lib/components/TextReact.ts:197-211 | a resolved TextContainer never renders a literal as a child |
| `HostAdapter.LiteralRemovalIsNoOp` | lib/reconciler.ts:56 | removing a literal through the reconciler changes nothing at all when every container is resolved |
| `HostAdapter.LiteralRemovalExample` | lib/reconciler.ts:71-75 | on a box showing the literal "hi", removing the literal keeps "hi" on screen |
| `HostAdapter.LiteralRemovalFixedExample` | lib/reconciler.ts:55-62 | with the corrected search the container empties, leaves the box, and the literal loses its back-link |
| `HostAdapter.AppendThenRemove` | lib/reconciler.ts:71-72 | appending a new view and removing it restores the parent's children |
| `HostAdapter.PrepareUpdate` | lib/reconciler.ts:292-324 | reports a difference iff `isSame` fails for some own key of either bag, a missing key read as undefined |
| `HostAdapter.SamePropsReflexive` | lib/reconciler.ts:300-323 | with a reflexive `isSame`, a bag never differs from itself |
| `HostAdapter.SamePropsSymmetric` | lib/reconciler.ts:300-323 | with a symmetric `isSame`, the answer does not depend on which bag is old |
| `HostAdapter.SamePropsUnderEquality` | lib/reconciler.ts:300-323 | with equality as `isSame`, two bags are the same iff they read alike at every key |
| `HostAdapter.CommitUpdate` | lib/reconciler.ts:325-339 | the node's bag becomes exactly the new props without `children`; a literal keeps its text; the node keeps its children and every other node is unchanged |
| `HostAdapter.CommitTextUpdate` | lib/reconciler.ts:273-283 | the literal shows the new text, keeps its container, and that container stays resolved |
| `HostAdapter.ResetTextContent` | lib/reconciler.ts:285-287 | the literal's text becomes empty, it keeps its container, and that container stays a resolution of its list |
| `HostAdapter.ClearContainer` | lib/reconciler.ts:134-136 | the root has no children left and none of them keeps it as parent; a root with no `removeAllChildren` throws |
| `SiblingLinks.Link` | lib/preact.tsx:548-567 | the child's parent becomes this element and its next sibling becomes `before` |
| `SiblingLinks.LinkKeepsList` | lib/preact.tsx:548-567 | on a well-linked child list, linking a new child before a member (or at the end) gives the well-linked list with the child in that place |
| `SiblingLinks.LinkBeforeFacts` | lib/preact.tsx:548-557 | with `before`, the child sits between `before` and its old previous sibling and becomes first child iff `before` was |
| `SiblingLinks.LinkAppendFacts` | lib/preact.tsx:558-564 | without `before`, the child becomes last child, follows the old last child, and is first child iff the list was empty |
| `SiblingLinks.Unlink` | lib/preact.tsx:578-581 | as written: the endpoints move past the child and its three links are cleared, while every other element, its neighbours included, keeps its links |
| `SiblingLinks.UnlinkLeavesStaleLink` | lib/preact.tsx:578-581 | after removing a non-first child, its previous sibling still points at it, so the list is no longer well linked |
| `SiblingLinks.UnlinkLeavesStaleBackLink` | lib/preact.tsx:578-581 | after removing a non-last child, its next sibling still points back at it |
| `SiblingLinks.UnlinkOnlyChild` | lib/preact.tsx:578-581 | removing an only child leaves a well-linked empty list |
| `SiblingLinks.UnlinkFixed` | lib/preact.tsx:578-581 | the corrected removal clears the child's links |
| `SiblingLinks.UnlinkFixedKeepsList` | lib/preact.tsx:578-581 | the corrected removal keeps the list well linked, without the child |
| `ShadowDom.CreateElement` | lib/preact.tsx:589-591 | a fresh, unlinked, unattached element with empty props; nothing else changes |
| `ShadowDom.CreateTextNode` | lib/preact.tsx:597-601 | a fresh text element whose props hold `String(text)` under the copy's key, unattached and with no commit scheduled |
| `ShadowDom.CreateRoot` | lib/preact.tsx:603-605 | a fresh window element (`wr-window` or `Window`) |
| `ShadowDom.RootCreate` | preact.tsx:147-158 | as written: `Text`, `Box` and `Window` are known and anything else throws; a `Text` node reads `props.text ?? ''` |
| `ShadowDom.RootCreateFixed` | preact.tsx:147-158 | the corrected creator reads a text node's content from `data`, where the element stores it |
| `ShadowDom.Create` | lib/preact.tsx:611-613 | each copy creates through its own creator; creation succeeds iff the tag is one the copy knows (in the top-level copy `Text`, `Box` or `Window`, and only `Text` makes a non-container), allocates exactly one fresh node and leaves every existing node as it was |
| `ShadowDom.Insert` | lib/preact.tsx:614-619 | a non-container parent is ignored by the library copy and throws in the top-level copy; otherwise the library copy routes through `appendChild` and the top-level copy splices at `indexOf(before)` |
| `ShadowDom.Remove` | lib/preact.tsx:620-625 | a non-container parent is ignored by the library copy and throws in the top-level copy; a direct child leaves the parent's children |
| `ShadowDom.Attach` | lib/preact.tsx:535-537 | an attached element returns its widget unchanged; otherwise a widget is created from its tag and props and recorded; attaching succeeds iff the element already has a widget or its tag is known, and in the top-level copy the widget is a container iff the element's widget is one or its tag is not `Text` |
| `ShadowDom.Instantiate` | preact.tsx:72-77 | the first attach succeeds iff the renderer can create the tag, and records the new widget on the element only |
| `ShadowDom.AttachIdempotent` | preact.tsx:72-77 | a second attach returns the first one's widget and changes nothing |
| `ShadowDom.SetAttribute` | lib/preact.tsx:525-531 | the prop is written; a snapshot of the old props is taken and one commit queued iff the element is attached and has no pending snapshot |
| `ShadowDom.RemoveAttribute` | lib/preact.tsx:532-534 | the key is deleted and nothing is scheduled |
| `ShadowDom.SetData` | lib/preact.tsx:518-520 | writing `data` stores `String(value)` under the copy's text key |
| `ShadowDom.Commit` | lib/preact.tsx:538-544 | a no-op unless a snapshot is pending; then the snapshot is cleared and the widget is updated once with the current props |
| `ShadowDom.Flush` | lib/preact.tsx:525-544 | running the queued commits empties the queue, leaves no snapshot pending, and keeps every element's props and widget |
| `ShadowDom.WritesScheduleOnce` | preact.tsx:62-68 | a burst of writes to an attached element queues it at most once, with the snapshot taken before the first write |
| `ShadowDom.WritesThenFlush` | preact.tsx:62-84 | a burst of writes followed by the flush updates the widget exactly once, with all the written props |
| `ShadowDom.DetachedWritesStayLocal` | lib/preact.tsx:525-531 | writes to an unattached element change only its props and schedule nothing |
| `ShadowDom.RemoveElement` | preact.tsx:118-125 | the links are unlinked as written; when both elements are attached the widget tree is exactly what `renderer.remove` makes of it, and otherwise it is untouched |
| `ShadowDom.Mount` | lib/preact.tsx:569-573 | attaches parent, child and `before`, and the widget tree is exactly what the renderer's `insert` makes of the attached tree with those three widgets; the links are left to the caller; it succeeds iff all three can be attached and, in the top-level copy, the parent's widget is a container |
| `ShadowDom.InsertElement` | preact.tsx:85-114 | a child already under this element is unlinked first, so the links are `Link` of the unlinked ones; otherwise they are `Link` of the old ones; the child's parent is this element, its next sibling is `before`, and both are attached; it succeeds iff the mount does: parent, child and `before` can be attached and, in the top-level copy, the parent's widget is a container |
| `ShadowDom.MountAttached` | lib/preact.tsx:569-573 | when parent, child and `before` already have widgets, mounting changes the document exactly as `renderer.insert` changes the tree |
| `ShadowDom.MoveElementAttached` | lib/preact.tsx:545-574 | moving an element that is already a child succeeds iff `renderer.remove` and then `renderer.insert` on its result succeed, and the widget tree is exactly that remove followed by that insert |
| `ShadowDom.RootMoveKeepsOneCopy` | preact.tsx:159-168 | in the top-level copy, moving an attached child within its attached parent keeps the parent widget's children the same multiset: the child's widget appears as often as before |
| `ShadowDom.InsertElementAttached` | preact.tsx:85-114 | inserting an attached element that is not yet a child of an attached parent links it in and applies `renderer.insert` to the widget tree |
| `ShadowDom.RootAppendPlacesWidget` | preact.tsx:159-165 | in the top-level copy, appending an attached element puts its widget last among the parent widget's children |
| `ShadowDom.RootRemoveDropsWidget` | preact.tsx:166-168 | in the top-level copy, removing an attached element takes its widget out of the parent widget's children |
| `ShadowDom.InsertKeepsChildList` | preact.tsx:85-107 | inserting a new child keeps a well-linked child list well linked, with the child before `before` or at the end |
| `ShadowDom.RemoveLeavesStaleLink` | preact.tsx:118-125 | removing a non-first child leaves its previous sibling pointing at it |
| `ShadowDom.LibraryTextNodeShowsText` | lib/preact.tsx:597-601 | in the library copy, a text node attaches as a literal showing `String(text)` |
| `ShadowDom.RootTextNodeIsEmpty` | preact.tsx:133-150 | in the top-level copy, a text node attaches as an empty literal, whatever its text |
| `ShadowDom.RootTextNodeFixedShowsText` | preact.tsx:133-150 | with the corrected creator the literal shows `String(text)` |
| `ShadowDom.RootIsWindow` | lib/preact.tsx:603-605 | in both copies the root attaches as an empty window |
| `ShadowDom.DataChangeKeepsLiteralText` | lib/preact.tsx:518-544 | changing a text node's `data` and flushing does not change the text its literal shows |

## Left out

- `lib/components.tsx`, the wrapper components and their JSX type declarations, the demos, and the `render`/`run` entry points: they are host applications and terminal I/O.
- `TextContainer.naturalSize` and `render`: layout and painting over the library's geometry types.
- The `react-reconciler` machinery, the host-config stubs that throw "not implemented", the host contexts, `rerender`/`resetAfterCommit` and the debug logging.
- `RendererElement.addEventListener`: it only logs.
- `createElementNS`: it is `createElement` with an ignored namespace.
- The Promise-based `defer`: the microtask queue is the explicit `queue` of a `Doc`, and `ShadowDom.Flush` runs it. A commit therefore happens at the flush, not at an unspecified later time.
- `isSame` is not part of this model. It is a parameter of `HostAdapter.PrepareUpdate`, and the lemmas about it state what they assume of it.
- The `wretched` library is not part of this model:
  - Widget constructors become node kinds carrying their props.
  - `Container.add` becomes a splice insert that sets `parent`.
  - `Container.removeChild` becomes the removal of the first occurrence.
  - `Container.removeAllChildren` becomes emptying the children.
  - `View.update` becomes replacing the props.
  - Nothing the widgets do internally with those props is modelled.
- `TextStyle` is not defined in the files modelled here. It is a container node kind with no behaviour of its own.
- JavaScript number formatting is modelled for integers only. Fractions, exponents, `NaN` and infinities are floating point. Objects stored in props are opaque identities that print as `[object Object]`.
- An exception discards every change the source made before the throw. The model returns `Err` and keeps nothing of the failed call. The source keeps those earlier changes. `insertBefore` has already relinked the elements, and may have attached the parent, when `child._attach()` throws on an unknown tag. The top-level copy's `removeChild` has already cleared the links when `parent.removeChild` throws.
- Exceptions are `Err` results carrying the message. A `TypeError` from calling a method a non-container lacks is the `Base.TypeError` string.
- `HostAdapter.RemoveFromTextContainer`: on a parent that is not a container the search sees no children and the call returns. This assumes that `View.children` is an empty array, and `View` is not part of this model.
- `RetainedTree.Ancestors`: the walk is bounded by one more than the number of parent links. This is exact for the acyclic trees the library builds. A cyclic parent chain, which the source would walk forever, is cut off.
- `RetainedTree.Update`: `View.update` is modelled as replacing the node's props and nothing else. A literal keeps its text because `TextLiteral` does not override `update`. What `View.update` does with the props inside the library is not visible.
- `ShadowDom.RemoveElement` and `ShadowDom.InsertElement` require the parent and child to be different elements. The source lets an element be inserted into itself, which makes a cycle that no caller produces.
- `ShadowDom.SetAttributes`: it states only that the document stays valid. What a burst of writes does is stated by `ShadowDom.WritesScheduleOnce` and `ShadowDom.DetachedWritesStayLocal`.
- `SiblingLinks.Link`: it states only the child's own links. The effect on the whole list is stated by `SiblingLinks.LinkKeepsList`, `SiblingLinks.LinkBeforeFacts` and `SiblingLinks.LinkAppendFacts`.
- `SiblingLinks.UnlinkFixed`: it states only the child's own links. The effect on the list is stated by `SiblingLinks.UnlinkFixedKeepsList`.
- `HostAdapter.InsertBefore`: its own contract states only that no node is lost. The double insertion is stated by `HostAdapter.InsertBeforeAddsTwice`.
- The text-like children under a `TextStyle` parent take the positional branch of `appendChild`. The model follows the code here.

## Findings

| source | as written | input that shows it | evidently intended | confidence | as-written member | corrected member |
|---|---|---|---|---|---|---|
| lib/reconciler.ts:223-227 | `insertBefore` adds the child at the index of `beforeChild` and then calls `appendChild`, which adds it a second time | a box with children `[b]`; insert a new view `w` before `b`: the box's children hold `w` twice | add the child once, before `beforeChild`, through `appendChild` alone | not executed | `HostAdapter.InsertBeforeAddsTwice` | `HostAdapter.InsertBeforeIntendedPlaces` |
| lib/reconciler.ts:56 | `removeFromTextContainer` looks for the child among a TextContainer's rendered children, but literals live only in its logical list | a box holding a TextContainer whose list is the literal "hi"; remove the literal: nothing changes and "hi" stays on screen | look the child up in the logical list, remove it there, and prune the emptied container | not executed | `HostAdapter.LiteralRemovalIsNoOp` | `HostAdapter.LiteralRemovalFixedExample` |
| lib/preact.tsx:578-581 | `removeChild` moves the parent's endpoints and clears the child's links but leaves the neighbours pointing at the removed child | children `[a, b]`; remove `b`: `a.nextSibling` is still `b` | join the previous and next siblings to each other before clearing the child | not executed | `SiblingLinks.UnlinkLeavesStaleLink` | `SiblingLinks.UnlinkFixedKeepsList` |
| preact.tsx:133-150 | `createTextNode` stores the text under `data`, but `create('Text')` reads `props.text ?? ''` | `createTextNode("hi")`, then attach it: the literal shows the empty string | read the text from `data` | not executed | `ShadowDom.RootTextNodeIsEmpty` | `ShadowDom.RootTextNodeFixedShowsText` |
