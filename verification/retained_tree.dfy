/** The retained widget tree as an arena: nodes by identity, plus the
    non-owning `parent` back-references. The node kinds are the ones the text
    machinery tells apart; every other widget is a `Leaf` or a `Widget` with
    its kind tag, depending on whether it can hold children.
    The generic container operations (`add`, `removeChild`,
    `removeAllChildren`, `update`) dispatch to the TextContainer overrides. */
module RetainedTree {
  import opened Base
  import opened TextFormat
  import opened TextRun
  import opened TextRefresh

  datatype Node =
    /** A TextLiteral: its text and its `parentTextContainer` back-link. */
    | Literal(text: string, owner: Option<Id>, props: Props)
    /** A TextContainer: the logical list `#nodes` and the rendered children. */
    | TextContainer(nodes: seq<Id>, rendered: seq<Slot>)
    /** A TextProvider: its private formatting fields and its children. */
    | TextProvider(provider: ProviderState, props: Props, children: seq<Id>)
    /** A TextStyle (an inline style span; a container). */
    | TextStyle(props: Props, children: seq<Id>)
    /** A widget of the library that is not a container, by kind. */
    | Leaf(leaf: LeafKind, props: Props)
    /** A container widget of the library, by kind. */
    | Widget(kind: WidgetKind, props: Props, children: seq<Id>)

  /** The widget classes that are plain views. */
  datatype LeafKind = Checkbox | ConsoleLog | Digits | Input | Separator | Slider | Space | CollapsibleText

  /** The widget classes that are containers. */
  datatype WidgetKind =
    | Box | Button | Collapsible | Stack | Scrollable | Tabs | TabsSection
    | Accordion | AccordionSection | Drawer | Window

  /** A node that has `add`, `removeChild` and `removeAllChildren`. */
  predicate IsContainer(n: Node) {
    n.TextContainer? || n.TextProvider? || n.TextStyle? || n.Widget?
  }

  /** A container whose children live in a plain `children` list. */
  predicate HasChildList(n: Node) {
    n.TextProvider? || n.TextStyle? || n.Widget?
  }

  /** What kind of node an identity holds. No operation changes it. */
  datatype Shape = LiteralShape | ContainerShape | ProviderShape | StyleShape | LeafShape(leaf: LeafKind) | WidgetShape(kind: WidgetKind)

  function ShapeOf(n: Node): Shape {
    match n
    case Literal(_, _, _) => LiteralShape
    case TextContainer(_, _) => ContainerShape
    case TextProvider(_, _, _) => ProviderShape
    case TextStyle(_, _) => StyleShape
    case Leaf(k, _) => LeafShape(k)
    case Widget(k, _, _) => WidgetShape(k)
  }

  datatype Tree = Tree(nodes: map<Id, Node>, parent: map<Id, Id>, next: Id)

  /** Every allocated identity is below `next`, so allocation is fresh. */
  predicate Allocated(t: Tree) {
    forall id :: id in t.nodes ==> id < t.next
  }

  /** Allocates a new node (`new …`). */
  function Alloc(t: Tree, n: Node): (r: (Tree, Id))
    ensures r.1 == t.next && r.0.nodes == t.nodes[t.next := n]
    ensures r.0.parent == t.parent
    ensures Allocated(t) ==> Allocated(r.0) && r.1 !in t.nodes && KeepsShapes(t, r.0)
  {
    (t.(nodes := t.nodes[t.next := n], next := t.next + 1), t.next)
  }

  /** Every node of `t` is still there in `r`, of the same kind. */
  ghost predicate KeepsShapes(t: Tree, r: Tree) {
    forall x :: x in t.nodes ==> x in r.nodes && ShapeOf(r.nodes[x]) == ShapeOf(t.nodes[x])
  }

  lemma KeepsShapesTrans(a: Tree, b: Tree, c: Tree)
    requires KeepsShapes(a, b) && KeepsShapes(b, c)
    ensures KeepsShapes(a, c)
  {
  }

  /** What a kept shape tells about a node. */
  lemma ShapeFacts(t: Tree, r: Tree, x: Id)
    requires KeepsShapes(t, r) && x in t.nodes
    ensures x in r.nodes
    ensures IsLiteral(t, x) <==> IsLiteral(r, x)
    ensures IsTextLike(t, x) <==> IsTextLike(r, x)
    ensures IsTextContainer(t, x) <==> IsTextContainer(r, x)
    ensures HasChildList(t.nodes[x]) <==> HasChildList(r.nodes[x])
    ensures IsContainer(t.nodes[x]) <==> IsContainer(r.nodes[x])
    ensures t.nodes[x].TextStyle? <==> r.nodes[x].TextStyle?
  {
    assert ShapeOf(r.nodes[x]) == ShapeOf(t.nodes[x]);
  }

  function Parent(t: Tree, id: Id): Option<Id> {
    if id in t.parent then Some(t.parent[id]) else None
  }

  predicate IsLiteral(t: Tree, id: Id) {
    id in t.nodes && t.nodes[id].Literal?
  }

  predicate IsTextContainer(t: Tree, id: Id) {
    id in t.nodes && t.nodes[id].TextContainer?
  }

  /** A text-like child: a TextLiteral or a TextStyle. */
  predicate IsTextLike(t: Tree, id: Id) {
    id in t.nodes && (t.nodes[id].Literal? || t.nodes[id].TextStyle?)
  }

  function RefsOf(ids: seq<Id>): (r: seq<Slot>)
    ensures |r| == |ids|
    ensures forall i :: 0 <= i < |ids| ==> r[i] == Ref(ids[i])
  {
    seq(|ids|, i requires 0 <= i < |ids| => Ref(ids[i]))
  }

  /** A node's `children` as the library reports them. */
  function SlotsOf(n: Node): seq<Slot> {
    match n
    case TextContainer(_, rendered) => rendered
    case TextProvider(_, _, cs) => RefsOf(cs)
    case TextStyle(_, cs) => RefsOf(cs)
    case Widget(_, _, cs) => RefsOf(cs)
    case Literal(_, _, _) => []
    case Leaf(_, _) => []
  }

  function ChildSlots(t: Tree, p: Id): seq<Slot> {
    if p in t.nodes then SlotsOf(t.nodes[p]) else []
  }

  /** How a TextContainer sees its logical list. */
  function Items(t: Tree, ids: seq<Id>): (r: seq<Item>)
    ensures |r| == |ids|
    ensures forall i :: 0 <= i < |ids| ==>
      r[i] == if IsLiteral(t, ids[i]) then Lit(t.nodes[ids[i]].text) else View(ids[i])
  {
    seq(|ids|, i requires 0 <= i < |ids| =>
      if IsLiteral(t, ids[i]) then Lit(t.nodes[ids[i]].text) else View(ids[i]))
  }

  /** The ancestor chain starting at `cur`, following `parent` links, at most
      `fuel` long. */
  function Ancestors(parent: map<Id, Id>, cur: Option<Id>, fuel: nat): (r: seq<Id>)
    ensures |r| <= fuel
    ensures cur.Some? && fuel > 0 ==> |r| > 0 && r[0] == cur.value
    decreases fuel
  {
    if fuel == 0 || cur.None? then []
    else
      var up := if cur.value in parent then Some(parent[cur.value]) else None;
      [cur.value] + Ancestors(parent, up, fuel - 1)
  }

  /** Each node on the chain is the parent of the one before it. */
  lemma {:induction false} AncestorsFollowParents(parent: map<Id, Id>, cur: Option<Id>, fuel: nat, i: nat)
    requires i + 1 < |Ancestors(parent, cur, fuel)|
    ensures var r := Ancestors(parent, cur, fuel);
      r[i] in parent && parent[r[i]] == r[i + 1]
    decreases fuel
  {
    var up := if cur.value in parent then Some(parent[cur.value]) else None;
    var rest := Ancestors(parent, up, fuel - 1);
    assert Ancestors(parent, cur, fuel) == [cur.value] + rest;
    if i > 0 {
      AncestorsFollowParents(parent, up, fuel - 1, i - 1);
    }
  }

  predicate IsProvider(t: Tree, id: Id) {
    id in t.nodes && t.nodes[id].TextProvider?
  }

  /** Position of the first TextProvider on a chain, if any. */
  function FirstProviderIndex(t: Tree, chain: seq<Id>): (r: Option<nat>)
    ensures r.None? <==> forall i :: 0 <= i < |chain| ==> !IsProvider(t, chain[i])
    ensures r.Some? ==> r.value < |chain| && IsProvider(t, chain[r.value])
    ensures r.Some? ==> forall j :: 0 <= j < r.value ==> !IsProvider(t, chain[j])
  {
    if |chain| == 0 then None
    else if IsProvider(t, chain[0]) then Some(0)
    else match FirstProviderIndex(t, chain[1..])
      case None => None
      case Some(i) => Some(i + 1)
  }

  /** The formatting fields of the first TextProvider on a chain, if any. */
  function FirstProvider(t: Tree, chain: seq<Id>): Option<ProviderState> {
    match FirstProviderIndex(t, chain)
    case None => None
    case Some(i) => Some(t.nodes[chain[i]].provider)
  }

  /** The ancestor walk of `#createTextNode`, from the container's parent.
      An acyclic chain has at most one more node than there are parent links. */
  function ProviderChain(t: Tree, c: Id): seq<Id> {
    Ancestors(t.parent, Parent(t, c), |t.parent.Keys| + 1)
  }

  /** The formatting of the blocks a TextContainer generates. */
  function FormatFor(t: Tree, c: Id): Format {
    ResolveFormat(FirstProvider(t, ProviderChain(t, c)))
  }

  /** Trees that agree on which nodes are providers and on their fields. */
  ghost predicate SameProviders(t: Tree, u: Tree) {
    && (forall id :: IsProvider(t, id) <==> IsProvider(u, id))
    && (forall id :: IsProvider(t, id) ==> IsProvider(u, id) && t.nodes[id].provider == u.nodes[id].provider)
  }

  lemma FirstProviderFrame(t: Tree, u: Tree, chain: seq<Id>)
    requires SameProviders(t, u)
    ensures FirstProviderIndex(t, chain) == FirstProviderIndex(u, chain)
    ensures FirstProvider(t, chain) == FirstProvider(u, chain)
  {
  }

  /** Formatting depends only on the parent links and the providers. */
  lemma FormatFrame(t: Tree, u: Tree, c: Id)
    requires t.parent == u.parent && SameProviders(t, u)
    ensures FormatFor(t, c) == FormatFor(u, c)
  {
    FirstProviderFrame(t, u, ProviderChain(t, c));
  }

  /** Parent links after a container's rendered children were replaced: the
      old children are detached, the new ones attached to `c`. */
  function Reparent(parent: map<Id, Id>, before: set<Id>, after: set<Id>, c: Id): (r: map<Id, Id>)
    ensures forall v :: v in after ==> v in r && r[v] == c
    ensures forall v :: v !in after && v in before ==> v !in r
    ensures forall v :: v !in after && v !in before ==> (v in r <==> v in parent) && (v in r ==> r[v] == parent[v])
  {
    map v | v in (parent.Keys - before) + after :: if v in after then c else parent[v]
  }

  /** The rendered children of a TextContainer are the resolution of its
      logical list in the given format. */
  predicate Resolved(t: Tree, c: Id, fmt: Format) {
    IsTextContainer(t, c) && t.nodes[c].rendered == Resolve(Items(t, t.nodes[c].nodes), fmt)
  }

  /** Trees that agree on every literal's text (and on which nodes are
      literals) give every logical list the same items. */
  ghost predicate SameLiterals(t: Tree, u: Tree) {
    && (forall id :: IsLiteral(t, id) <==> IsLiteral(u, id))
    && (forall id :: IsLiteral(t, id) ==> IsLiteral(u, id) && t.nodes[id].text == u.nodes[id].text)
  }

  lemma ItemsFrame(t: Tree, u: Tree, ids: seq<Id>)
    requires SameLiterals(t, u)
    ensures Items(t, ids) == Items(u, ids)
  {
  }

  /** Replacing one TextContainer node by another TextContainer changes no
      literal and no provider. */
  lemma ReplaceContainerFrame(t: Tree, c: Id, n: Node)
    requires IsTextContainer(t, c) && n.TextContainer?
    ensures SameLiterals(t, t.(nodes := t.nodes[c := n]))
    ensures SameProviders(t, t.(nodes := t.nodes[c := n]))
  {
  }

  /** `#invalidateNodes` / `#resolveNodes`: rebuild the rendered children from
      the logical list. */
  function Refresh(t: Tree, c: Id): (r: Tree)
    requires IsTextContainer(t, c)
    ensures KeepsShapes(t, r)
    ensures IsTextContainer(r, c) && r.nodes[c].nodes == t.nodes[c].nodes
    ensures r.nodes.Keys == t.nodes.Keys && r.next == t.next
    ensures forall id :: id in t.nodes && id != c ==> r.nodes[id] == t.nodes[id]
    ensures SameLiterals(t, r) && SameProviders(t, r)
    ensures Resolved(r, c, FormatFor(t, c))
    ensures forall v :: v in SlotViews(r.nodes[c].rendered) ==> Parent(r, v) == Some(c)
  {
    var n := t.nodes[c];
    var slots := Resolve(Items(t, n.nodes), FormatFor(t, c));
    var before := set v | v in SlotViews(n.rendered);
    var after := set v | v in SlotViews(slots);
    ReplaceContainerFrame(t, c, n.(rendered := slots));
    var r := t.(nodes := t.nodes[c := n.(rendered := slots)], parent := Reparent(t.parent, before, after, c));
    ItemsFrame(t, r, n.nodes);
    r
  }

  /** Replaces the logical list of a TextContainer, without re-resolving. */
  function WithNodes(t: Tree, c: Id, ids: seq<Id>): (r: Tree)
    requires IsTextContainer(t, c)
    ensures KeepsShapes(t, r)
    ensures IsTextContainer(r, c) && r.nodes[c].nodes == ids
    ensures r.nodes.Keys == t.nodes.Keys && r.parent == t.parent && r.next == t.next
    ensures forall id :: id in t.nodes && id != c ==> r.nodes[id] == t.nodes[id]
    ensures SameLiterals(t, r) && SameProviders(t, r)
  {
    ReplaceContainerFrame(t, c, t.nodes[c].(nodes := ids));
    t.(nodes := t.nodes[c := t.nodes[c].(nodes := ids)])
  }

  /** Sets a literal's `parentTextContainer`; anything else is left alone. */
  function SetOwner(t: Tree, id: Id, owner: Option<Id>): (r: Tree)
    ensures KeepsShapes(t, r)
    ensures r.nodes.Keys == t.nodes.Keys && r.parent == t.parent && r.next == t.next
    ensures SameLiterals(t, r) && SameProviders(t, r)
    ensures IsLiteral(t, id) ==> IsLiteral(r, id) && r.nodes[id].owner == owner
    ensures forall x :: x in t.nodes && x != id ==> r.nodes[x] == t.nodes[x]
    ensures forall x :: x in t.nodes && !IsLiteral(t, x) ==> r.nodes[x] == t.nodes[x]
  {
    if IsLiteral(t, id) then t.(nodes := t.nodes[id := t.nodes[id].(owner := owner)]) else t
  }

  /** `TextContainer.add(child, at)`: a literal child gets its back-link, the
      child is spliced into the logical list (appended when `at` is absent),
      and the container re-resolves. */
  function ContainerAdd(t: Tree, c: Id, child: Id, at: Option<int>): (r: Tree)
    requires IsTextContainer(t, c)
    ensures KeepsShapes(t, r)
    ensures IsTextContainer(r, c)
    ensures r.nodes[c].nodes == SpliceInsert(t.nodes[c].nodes, at, child)
    ensures IsLiteral(t, child) ==> IsLiteral(r, child) && r.nodes[child].owner == Some(c)
    ensures r.nodes.Keys == t.nodes.Keys && r.next == t.next
    ensures forall x :: x in t.nodes && x != c && !(x == child && IsLiteral(t, x)) ==> r.nodes[x] == t.nodes[x]
  {
    var t1 := SetOwner(t, child, Some(c));
    var t2 := WithNodes(t1, c, SpliceInsert(t.nodes[c].nodes, at, child));
    Refresh(t2, c)
  }

  /** After `add` the container shows the resolution of its new logical list,
      in the format its ancestors give it. */
  lemma ContainerAddResolves(t: Tree, c: Id, child: Id, at: Option<int>)
    requires IsTextContainer(t, c)
    ensures Resolved(ContainerAdd(t, c, child, at), c, FormatFor(t, c))
  {
    var t1 := SetOwner(t, child, Some(c));
    var t2 := WithNodes(t1, c, SpliceInsert(t.nodes[c].nodes, at, child));
    FormatFrame(t, t2, c);
  }

  /** What `TextContainer.removeChild` is asked to remove. */
  datatype Removal = AtIndex(index: int) | Member(view: Id)

  /** The logical list after `removeChild`. */
  function Remaining(ids: seq<Id>, what: Removal): (r: seq<Id>)
    ensures what.AtIndex? && 0 <= what.index < |ids| ==> r == RemoveAt(ids, what.index)
    ensures what.AtIndex? && !(0 <= what.index < |ids|) ==> r == ids
    ensures what.Member? && what.view !in ids ==> r == ids
    ensures what.Member? && what.view in ids ==> |r| == |ids| - 1
    ensures what.Member? ==> r == RemoveFirst(ids, what.view)
  {
    match what
    case AtIndex(i) => if 0 <= i < |ids| then RemoveAt(ids, i) else ids
    case Member(v) => RemoveFirst(ids, v)
  }

  /** `TextContainer.removeChild`: a literal passed by identity loses its
      back-link first, whether or not it is in this container; an index out of
      range, or a view not in the logical list, removes nothing. */
  function ContainerRemove(t: Tree, c: Id, what: Removal): (r: Tree)
    requires IsTextContainer(t, c)
    ensures KeepsShapes(t, r)
    ensures IsTextContainer(r, c)
    ensures r.nodes[c].nodes == Remaining(t.nodes[c].nodes, what)
    ensures what.Member? && IsLiteral(t, what.view) ==> IsLiteral(r, what.view) && r.nodes[what.view].owner == None
    ensures r.nodes.Keys == t.nodes.Keys && r.next == t.next
    ensures forall x :: x in t.nodes && x != c && !(what.Member? && x == what.view && IsLiteral(t, x)) ==> r.nodes[x] == t.nodes[x]
  {
    var t1 := if what.Member? then SetOwner(t, what.view, None) else t;
    var t2 := WithNodes(t1, c, Remaining(t.nodes[c].nodes, what));
    Refresh(t2, c)
  }

  /** After `removeChild` the container shows the resolution of what is left
      of its logical list. */
  lemma ContainerRemoveResolves(t: Tree, c: Id, what: Removal)
    requires IsTextContainer(t, c)
    ensures Resolved(ContainerRemove(t, c, what), c, FormatFor(t, c))
  {
    var t1 := if what.Member? then SetOwner(t, what.view, None) else t;
    var t2 := WithNodes(t1, c, Remaining(t.nodes[c].nodes, what));
    FormatFrame(t, t2, c);
  }

  /** Clears the back-link of every literal among `ids`. */
  function ClearOwners(t: Tree, ids: seq<Id>): (r: Tree)
    ensures KeepsShapes(t, r)
    ensures r.nodes.Keys == t.nodes.Keys && r.parent == t.parent && r.next == t.next
    ensures SameLiterals(t, r) && SameProviders(t, r)
    ensures forall x :: x in ids && IsLiteral(t, x) ==> IsLiteral(r, x) && r.nodes[x].owner == None
    ensures forall x :: x in t.nodes && !IsLiteral(t, x) ==> r.nodes[x] == t.nodes[x]
    ensures forall x :: x in t.nodes && x !in ids ==> r.nodes[x] == t.nodes[x]
    decreases |ids|
  {
    if |ids| == 0 then t
    else ClearOwners(SetOwner(t, ids[0], None), ids[1..])
  }

  /** `TextContainer.removeAllChildren`: every literal loses its back-link and
      the logical list, hence the rendering, becomes empty. */
  function ContainerRemoveAll(t: Tree, c: Id): (r: Tree)
    requires IsTextContainer(t, c)
    ensures KeepsShapes(t, r)
    ensures IsTextContainer(r, c)
    ensures r.nodes[c].nodes == [] && r.nodes[c].rendered == []
    ensures forall x :: x in t.nodes[c].nodes && IsLiteral(t, x) ==> IsLiteral(r, x) && r.nodes[x].owner == None
  {
    var t1 := ClearOwners(t, t.nodes[c].nodes);
    var t2 := WithNodes(t1, c, []);
    assert Items(t2, []) == [];
    Refresh(t2, c)
  }

  /** `TextContainer.invalidateText`: the in-place rewrite of the rendered
      blocks, or a full re-resolution when the walk gives up. */
  function InvalidateText(t: Tree, c: Id): (r: Tree)
    requires IsTextContainer(t, c)
    ensures KeepsShapes(t, r)
    ensures IsTextContainer(r, c) && r.nodes[c].nodes == t.nodes[c].nodes
    ensures SameLiterals(t, r)
    ensures r.nodes[c].rendered == InvalidateSlots(Items(t, t.nodes[c].nodes), t.nodes[c].rendered, FormatFor(t, c))
  {
    var n := t.nodes[c];
    match Walk(Items(t, n.nodes), None, 0, n.rendered)
    case Some(slots) =>
      ReplaceContainerFrame(t, c, n.(rendered := slots));
      t.(nodes := t.nodes[c := n.(rendered := slots)])
    case None => Refresh(t, c)
  }

  /** The `text` setter of a TextLiteral: stores `String(value)` and notifies
      the owning container, if any. */
  function SetText(t: Tree, id: Id, value: JsValue): (r: Tree)
    requires IsLiteral(t, id)
    ensures KeepsShapes(t, r)
    ensures IsLiteral(r, id) && r.nodes[id].text == ToJsString(value)
    ensures r.nodes[id].owner == t.nodes[id].owner
  {
    var n := t.nodes[id];
    var t1 := t.(nodes := t.nodes[id := n.(text := ToJsString(value))]);
    match n.owner
    case Some(c) =>
      if IsTextContainer(t1, c) then InvalidateText(t1, c) else t1
    case None => t1
  }

  /** Changing a literal's text keeps its owning container resolved: the fast
      path and the fallback both leave the rendering a full re-resolution of
      the logical list with the new text. */
  lemma SetTextKeepsResolved(t: Tree, id: Id, value: JsValue)
    requires IsLiteral(t, id) && t.nodes[id].owner.Some?
    requires Resolved(t, t.nodes[id].owner.value, FormatFor(t, t.nodes[id].owner.value))
    ensures var c := t.nodes[id].owner.value;
      Resolved(SetText(t, id, value), c, FormatFor(t, c))
  {
    var c := t.nodes[id].owner.value;
    var n := t.nodes[id];
    var t1 := t.(nodes := t.nodes[id := n.(text := ToJsString(value))]);
    var ids := t.nodes[c].nodes;
    assert IsTextContainer(t1, c) && t1.nodes[c] == t.nodes[c];
    assert SameShape(Items(t1, ids), Items(t, ids));
    assert SameProviders(t, t1);
    FormatFrame(t, t1, c);
    InvalidateMatchesResolve(Items(t1, ids), Items(t, ids), FormatFor(t, c));
    var r := InvalidateText(t1, c);
    assert SetText(t, id, value) == r;
    ItemsFrame(t1, r, ids);
  }

  /** `Container.add(child, at)`, dispatched on the receiving node. A node
      with no child list (a literal, a leaf widget) has no `add`, so the
      call throws. */
  function Add(t: Tree, p: Id, child: Id, at: Option<int>): (r: Result<Tree, string>)
    ensures r.Ok? <==> p in t.nodes && IsContainer(t.nodes[p])
    ensures r.Err? ==> r.error == TypeError
    ensures r.Ok? ==> KeepsShapes(t, r.value) && r.value.nodes.Keys == t.nodes.Keys && r.value.next == t.next
    ensures IsTextContainer(t, p) ==>
      IsTextContainer(r.value, p) && r.value.nodes[p].nodes == SpliceInsert(t.nodes[p].nodes, at, child)
    ensures p in t.nodes && HasChildList(t.nodes[p]) ==>
      p in r.value.nodes && HasChildList(r.value.nodes[p])
      && r.value.nodes[p].children == SpliceInsert(t.nodes[p].children, at, child)
      && Parent(r.value, child) == Some(p)
    ensures r.Ok? ==>
      forall x :: x in t.nodes && x != p && !(x == child && IsLiteral(t, x)) ==> r.value.nodes[x] == t.nodes[x]
  {
    if !(p in t.nodes && IsContainer(t.nodes[p])) then Err(TypeError)
    else if t.nodes[p].TextContainer? then Ok(ContainerAdd(t, p, child, at))
    else
      var n := t.nodes[p];
      Ok(t.(nodes := t.nodes[p := n.(children := SpliceInsert(n.children, at, child))],
            parent := t.parent[child := p]))
  }

  /** `Container.removeChild(child)`, dispatched on the receiving node; it
      throws on a node with no child list. */
  function RemoveChild(t: Tree, p: Id, child: Id): (r: Result<Tree, string>)
    ensures r.Ok? <==> p in t.nodes && IsContainer(t.nodes[p])
    ensures r.Err? ==> r.error == TypeError
    ensures r.Ok? ==> KeepsShapes(t, r.value) && r.value.nodes.Keys == t.nodes.Keys && r.value.next == t.next
    ensures IsTextContainer(t, p) ==>
      IsTextContainer(r.value, p) && r.value.nodes[p].nodes == RemoveFirst(t.nodes[p].nodes, child)
    ensures p in t.nodes && HasChildList(t.nodes[p]) ==>
      p in r.value.nodes && HasChildList(r.value.nodes[p])
      && r.value.nodes[p].children == RemoveFirst(t.nodes[p].children, child)
    ensures r.Ok? ==>
      forall x :: x in t.nodes && x != p && !(x == child && IsLiteral(t, x)) ==> r.value.nodes[x] == t.nodes[x]
  {
    if !(p in t.nodes && IsContainer(t.nodes[p])) then Err(TypeError)
    else if t.nodes[p].TextContainer? then Ok(ContainerRemove(t, p, Member(child)))
    else
      var n := t.nodes[p];
      var detached := if Parent(t, child) == Some(p) then t.parent - {child} else t.parent;
      Ok(t.(nodes := t.nodes[p := n.(children := RemoveFirst(n.children, child))], parent := detached))
  }

  /** `Container.removeAllChildren()`, dispatched on the receiving node; it
      throws on a node with no child list. */
  function RemoveAllChildren(t: Tree, p: Id): (r: Result<Tree, string>)
    ensures r.Ok? <==> p in t.nodes && IsContainer(t.nodes[p])
    ensures r.Err? ==> r.error == TypeError
    ensures r.Ok? ==> KeepsShapes(t, r.value)
    ensures IsTextContainer(t, p) ==> IsTextContainer(r.value, p) && r.value.nodes[p].nodes == []
    ensures p in t.nodes && HasChildList(t.nodes[p]) ==>
      p in r.value.nodes && HasChildList(r.value.nodes[p]) && r.value.nodes[p].children == []
    ensures p in t.nodes && HasChildList(t.nodes[p]) ==>
      forall v :: v in t.nodes[p].children ==> Parent(r.value, v) != Some(p)
  {
    if !(p in t.nodes && IsContainer(t.nodes[p])) then Err(TypeError)
    else if t.nodes[p].TextContainer? then Ok(ContainerRemoveAll(t, p))
    else
      var n := t.nodes[p];
      var kids := set v | v in n.children;
      Ok(t.(nodes := t.nodes[p := n.(children := [])],
            parent := map v | v in t.parent && !(v in kids && t.parent[v] == p) :: t.parent[v]))
  }

  /** `node.update(props)`: a TextProvider re-derives its formatting fields;
      every node kind with a property bag stores the new bag. A TextLiteral
      has no override, so its text is untouched. */
  function Update(t: Tree, id: Id, props: Props): (r: Tree)
    ensures KeepsShapes(t, r)
    ensures r.parent == t.parent && r.nodes.Keys == t.nodes.Keys && r.next == t.next
    ensures IsProvider(t, id) ==> IsProvider(r, id) && r.nodes[id].provider == ProviderUpdate(props)
    ensures id in t.nodes && !t.nodes[id].TextContainer? ==> !r.nodes[id].TextContainer? && r.nodes[id].props == props
    ensures IsLiteral(t, id) ==>
      (IsLiteral(r, id) && r.nodes[id].text == t.nodes[id].text && r.nodes[id].owner == t.nodes[id].owner)
    ensures forall x :: x in t.nodes && x != id ==> r.nodes[x] == t.nodes[x]
    ensures id in t.nodes && HasChildList(t.nodes[id]) ==>
      HasChildList(r.nodes[id]) && r.nodes[id].children == t.nodes[id].children
  {
    if id !in t.nodes then t
    else match t.nodes[id]
      case TextProvider(_, _, cs) => t.(nodes := t.nodes[id := TextProvider(ProviderUpdate(props), props, cs)])
      case TextContainer(_, _) => t
      case Literal(text, owner, _) => t.(nodes := t.nodes[id := Literal(text, owner, props)])
      case TextStyle(_, cs) => t.(nodes := t.nodes[id := TextStyle(props, cs)])
      case Leaf(k, _) => t.(nodes := t.nodes[id := Leaf(k, props)])
      case Widget(k, _, cs) => t.(nodes := t.nodes[id := Widget(k, props, cs)])
  }
}
