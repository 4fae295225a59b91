/** The shadow DOM that Preact renders into: `RendererElement`s with DOM-like
    links, a props bag, and a lazily created widget (`node`). Property writes
    to an attached element are batched: the first write snapshots the props
    and schedules one commit on the microtask queue, which later hands the
    final props to the widget's `update`.
    Two copies exist: the library's (lib/preact.tsx), whose renderer builds
    every widget through `createView`, and an earlier one at the repository
    root (preact.tsx), whose renderer knows only `Text`, `Box` and `Window`.
    They differ in the renderer and in the names of the text element and its
    property; the element class is otherwise the same. */
module ShadowDom {
  import opened Base
  import opened TextRun
  import opened RetainedTree
  import opened HostAdapter
  import opened SiblingLinks

  /** Which copy of the renderer. */
  datatype Flavor = Library | RootCopy

  /** A `RendererElement` apart from its links: its tag, its props, the
      snapshot taken by the first batched write, and its widget once attached. */
  datatype Elem = Elem(localName: string, props: Props, prevProps: Option<Props>, node: Option<Id>)

  /** The elements, their links, the widget tree they render into, and the
      commits waiting on the microtask queue. */
  datatype Doc = Doc(
    flavor: Flavor,
    elems: map<ElemId, Elem>,
    links: LinkMap,
    nextElem: ElemId,
    tree: Tree,
    queue: seq<ElemId>)

  /** Every element has links and a fresh-identity bound, every widget an
      element holds is in the tree, and only an attached element carries a
      snapshot. */
  predicate Valid(d: Doc) {
    && Allocated(d.tree)
    && d.links.Keys == d.elems.Keys
    && (forall e :: e in d.elems ==> e < d.nextElem)
    && (forall e :: e in d.elems && d.elems[e].node.Some? ==> d.elems[e].node.value in d.tree.nodes)
    && (forall e :: e in d.elems && d.elems[e].prevProps.Some? ==> d.elems[e].node.Some?)
  }

  /** Every pending snapshot has its commit on the queue. */
  predicate Scheduled(d: Doc) {
    forall e :: e in d.elems && d.elems[e].prevProps.Some? ==> e in d.queue
  }

  /** The document with no elements over an empty tree. */
  function EmptyDoc(f: Flavor): (d: Doc)
    ensures Valid(d) && Scheduled(d) && d.elems == map[] && d.queue == []
  {
    Doc(f, map[], map[], 0, Tree(map[], map[], 0), [])
  }

  // ---------------------------------------------------------------------
  // createRendererDom

  /** `createElement(type)` (and `createElementNS(_, type)`): a fresh element
      with no props, no widget and no links. */
  function CreateElement(d: Doc, ty: string): (r: (Doc, ElemId))
    requires Valid(d)
    ensures Valid(r.0) && (Scheduled(d) ==> Scheduled(r.0))
    ensures r.1 !in d.elems && r.0.elems.Keys == d.elems.Keys + {r.1}
    ensures r.0.elems[r.1] == Elem(ty, map[], None, None) && r.0.links[r.1] == Unlinked
    ensures forall x :: x in d.elems ==> r.0.elems[x] == d.elems[x] && r.0.links[x] == d.links[x]
    ensures r.0.tree == d.tree && r.0.queue == d.queue && r.0.flavor == d.flavor
  {
    var id := d.nextElem;
    (d.(elems := d.elems[id := Elem(ty, map[], None, None)], links := d.links[id := Unlinked], nextElem := id + 1), id)
  }

  /** The tag of text elements and the property their text goes in: `text`
      and `text` in the library, `Text` and `data` in the root copy. */
  function TextTag(f: Flavor): string {
    match f
    case Library => "text"
    case RootCopy => "Text"
  }

  function DataKey(f: Flavor): string {
    match f
    case Library => "text"
    case RootCopy => "data"
  }

  /** `createTextNode(text)`: a text element whose text property holds
      `String(text)`, written directly (the element is not attached, so
      nothing is scheduled). */
  function CreateTextNode(d: Doc, text: JsValue): (r: (Doc, ElemId))
    requires Valid(d)
    ensures Valid(r.0) && (Scheduled(d) ==> Scheduled(r.0))
    ensures r.1 !in d.elems && r.0.elems.Keys == d.elems.Keys + {r.1}
    ensures r.0.elems[r.1].localName == TextTag(d.flavor)
    ensures r.0.elems[r.1].props == map[DataKey(d.flavor) := Str(ToJsString(text))]
    ensures r.0.elems[r.1].node.None? && r.0.elems[r.1].prevProps.None? && r.0.links[r.1] == Unlinked
    ensures forall x :: x in d.elems ==> r.0.elems[x] == d.elems[x] && r.0.links[x] == d.links[x]
    ensures r.0.tree == d.tree && r.0.queue == d.queue
  {
    var (d1, id) := CreateElement(d, TextTag(d.flavor));
    var el := d1.elems[id];
    (d1.(elems := d1.elems[id := el.(props := el.props[DataKey(d.flavor) := Str(ToJsString(text))])]), id)
  }

  /** `createRoot()`: a window element. */
  function CreateRoot(d: Doc): (r: (Doc, ElemId))
    requires Valid(d)
    ensures Valid(r.0) && (Scheduled(d) ==> Scheduled(r.0))
    ensures r.1 !in d.elems && r.0.elems.Keys == d.elems.Keys + {r.1}
    ensures r.0.elems[r.1] == Elem(if d.flavor.Library? then "wr-window" else "Window", map[], None, None)
    ensures r.0.tree == d.tree && r.0.queue == d.queue
  {
    CreateElement(d, if d.flavor.Library? then "wr-window" else "Window")
  }

  // ---------------------------------------------------------------------
  // The renderers

  /** The root copy's `create`: a `Text` element becomes a literal of
      `props.text ?? ''`, `Box` and `Window` become those widgets with the
      props as given, and anything else throws. */
  function RootCreate(t: Tree, ty: string, props: Props): (r: Result<(Tree, Id), string>)
    ensures r.Ok? <==> ty == "Text" || ty == "Box" || ty == "Window"
    ensures r.Err? ==> r.error == "Unknown type " + ty
    ensures r.Ok? ==> r.value.1 == t.next && r.value.0.nodes.Keys == t.nodes.Keys + {t.next}
    ensures r.Ok? ==> r.value.0.next == t.next + 1 && r.value.0.parent == t.parent
    ensures r.Ok? && Allocated(t) ==> forall x :: x in t.nodes ==> r.value.0.nodes[x] == t.nodes[x]
    ensures r.Ok? && ty == "Text" ==>
      IsLiteral(r.value.0, r.value.1) && r.value.0.nodes[r.value.1].owner == None
      && (Get(props, "text").Undefined? || Get(props, "text").Null? ==> r.value.0.nodes[r.value.1].text == "")
      && (Get(props, "text").Str? ==> r.value.0.nodes[r.value.1].text == Get(props, "text").s)
    ensures r.Ok? && ty != "Text" ==>
      r.value.0.nodes[r.value.1] == Widget(if ty == "Box" then Box else Window, props, [])
  {
    if ty == "Text" then Ok(Alloc(t, Literal(ToJsString(Coalesce(Get(props, "text"), Str(""))), None, map[])))
    else if ty == "Box" then Ok(Alloc(t, Widget(Box, props, [])))
    else if ty == "Window" then Ok(Alloc(t, Widget(Window, props, [])))
    else Err("Unknown type " + ty)
  }

  /** The root copy's `create` as evidently intended: a `Text` element reads
      the property that `createTextNode` and `data` write. */
  function RootCreateFixed(t: Tree, ty: string, props: Props): (r: Result<(Tree, Id), string>)
    ensures r.Ok? <==> ty == "Text" || ty == "Box" || ty == "Window"
    ensures r.Ok? ==> r.value.1 == t.next && r.value.0.nodes.Keys == t.nodes.Keys + {t.next}
    ensures r.Ok? && ty == "Text" ==>
      IsLiteral(r.value.0, r.value.1)
      && (Get(props, "data").Str? ==> r.value.0.nodes[r.value.1].text == Get(props, "data").s)
    ensures ty != "Text" ==> r == RootCreate(t, ty, props)
  {
    if ty == "Text" then Ok(Alloc(t, Literal(ToJsString(Coalesce(Get(props, "data"), Str(""))), None, map[])))
    else RootCreate(t, ty, props)
  }

  /** The tags a copy's `create` accepts. */
  predicate KnownTag(f: Flavor, ty: string) {
    match f
    case Library => ty == "text" || ty == "wr-literal" || PreactElement(ty).Some?
    case RootCopy => ty == "Text" || ty == "Box" || ty == "Window"
  }

  /** `renderer.create(type, props)`. */
  function Create(f: Flavor, t: Tree, ty: string, props: Props): (r: Result<(Tree, Id), string>)
    requires Allocated(t)
    ensures r.Ok? <==> KnownTag(f, ty)
    ensures r.Ok? ==> Allocated(r.value.0) && r.value.1 == t.next && r.value.1 in r.value.0.nodes
    ensures r.Ok? ==> r.value.0.nodes.Keys == t.nodes.Keys + {t.next}
    ensures r.Ok? ==> forall x :: x in t.nodes ==> r.value.0.nodes[x] == t.nodes[x]
    ensures r.Ok? && f.RootCopy? ==> (IsContainer(r.value.0.nodes[r.value.1]) <==> ty != "Text")
    ensures f.Library? ==> r == CreateView(t, ty, props)
    ensures f.RootCopy? ==> r == RootCreate(t, ty, props)
  {
    match f
    case Library => CreateView(t, ty, props)
    case RootCopy => RootCreate(t, ty, props)
  }

  /** `renderer.insert(parent, node, before)`. The library's renderer ignores
      a parent that is not a `Container` and otherwise uses the shared
      `appendChild`; the root copy adds the node at the index of `before`
      among the parent's children (at the end when absent or not found) and
      throws when the parent has no `add`. */
  function Insert(f: Flavor, t: Tree, p: Id, c: Id, before: Option<Id>): (r: Result<Tree, string>)
    requires Allocated(t) && p in t.nodes && c in t.nodes
    ensures r.Err? <==> f.RootCopy? && !IsContainer(t.nodes[p])
    ensures r.Err? ==> r.error == TypeError
    ensures r.Ok? ==> Allocated(r.value) && KeepsShapes(t, r.value)
    ensures f.Library? && !IsContainer(t.nodes[p]) ==> r == Ok(t)
    ensures f.RootCopy? && HasChildList(t.nodes[p]) ==>
      && HasChildList(r.value.nodes[p])
      && r.value.nodes[p].children == SpliceInsert(t.nodes[p].children, IndexBefore(t, p, before), c)
      && Parent(r.value, c) == Some(p)
    ensures f.Library? && HasChildList(t.nodes[p]) && !JoinsTextRun(t, p, c) ==>
      && HasChildList(r.value.nodes[p])
      && r.value.nodes[p].children == SpliceInsert(t.nodes[p].children, IndexBefore(t, p, before), c)
      && Parent(r.value, c) == Some(p)
    ensures f.Library? && HasChildList(t.nodes[p]) && JoinsTextRun(t, p, c) ==> EndsTextRun(r.value, p, c)
  {
    if f.Library? then
      (if !IsContainer(t.nodes[p]) then Ok(t) else AppendChild(t, p, c, before))
    else Add(t, p, c, IndexBefore(t, p, before))
  }

  /** `renderer.remove(parent, node)`: the library's renderer ignores a
      parent that is not a `Container` and otherwise uses the shared
      `removeChild`; the root copy calls the parent's `removeChild`, which
      throws when it has none. */
  function Remove(f: Flavor, t: Tree, p: Id, c: Id): (r: Result<Tree, string>)
    requires p in t.nodes
    ensures r.Err? <==> f.RootCopy? && !IsContainer(t.nodes[p])
    ensures r.Ok? ==> r.value.nodes.Keys == t.nodes.Keys && r.value.next == t.next
    ensures r.Ok? && f.RootCopy? ==> KeepsShapes(t, r.value)
    ensures f.Library? && !IsContainer(t.nodes[p]) ==> r == Ok(t)
    ensures f.RootCopy? && HasChildList(t.nodes[p]) ==>
      HasChildList(r.value.nodes[p]) && r.value.nodes[p].children == RemoveFirst(t.nodes[p].children, c)
    ensures f.Library? && HasChildList(t.nodes[p]) && Parent(t, c) == Some(p) ==>
      HasChildList(r.value.nodes[p]) && r.value.nodes[p].children == RemoveFirst(t.nodes[p].children, c)
  {
    if f.Library? then
      (if !IsContainer(t.nodes[p]) then Ok(t) else RemoveChildHook(t, p, c))
    else RemoveChild(t, p, c)
  }

  // ---------------------------------------------------------------------
  // Attributes and the batched commit

  /** `_attach()`: the element's widget, created from its tag and current
      props on first use and kept from then on. */
  function Attach(d: Doc, e: ElemId): (r: Result<(Doc, Id), string>)
    requires Valid(d) && e in d.elems
    ensures d.elems[e].node.Some? ==> r == Ok((d, d.elems[e].node.value))
    ensures d.elems[e].node.None? ==> r == Instantiate(d, e)
    ensures r.Ok? ==> Attached(d, e, r.value.0, r.value.1)
    ensures r.Ok? <==> Attachable(d, e)
    ensures r.Ok? && d.flavor.RootCopy? ==> (IsContainer(r.value.0.tree.nodes[r.value.1]) <==> RootAccepts(d, e))
  {
    var el := d.elems[e];
    if el.node.Some? then Ok((d, el.node.value)) else Instantiate(d, e)
  }

  /** `r` is `d` with element `e` attached to widget `n`: nothing else about
      the elements changed and the tree only grew. */
  predicate Attached(d: Doc, e: ElemId, r: Doc, n: Id)
    requires e in d.elems
  {
    && Valid(r) && r.elems.Keys == d.elems.Keys
    && r.elems[e] == d.elems[e].(node := Some(n))
    && (forall x :: x in d.elems && x != e ==> r.elems[x] == d.elems[x])
    && r.links == d.links && r.queue == d.queue
    && r.flavor == d.flavor && r.nextElem == d.nextElem
    && d.tree.nodes.Keys <= r.tree.nodes.Keys
    && (forall x :: x in d.tree.nodes ==> r.tree.nodes[x] == d.tree.nodes[x])
  }

  /** `_attach()` does not throw: the element has its widget already, or
      `create` knows its tag. */
  predicate Attachable(d: Doc, e: ElemId)
    requires e in d.elems
  {
    d.elems[e].node.Some? || KnownTag(d.flavor, d.elems[e].localName)
  }

  /** In the root copy, the widget the element has, or gets when attached,
      has an `add`: only a `Text` element's literal lacks one. */
  predicate RootAccepts(d: Doc, e: ElemId)
    requires Valid(d) && e in d.elems
  {
    match d.elems[e].node
    case Some(n) => IsContainer(d.tree.nodes[n])
    case None => d.elems[e].localName != "Text"
  }

  /** Every `_attach()` of `insertBefore` succeeds. */
  predicate AllAttachable(d: Doc, p: ElemId, c: ElemId, before: Option<ElemId>)
    requires p in d.elems && c in d.elems && (before.Some? ==> before.value in d.elems)
  {
    Attachable(d, p) && Attachable(d, c) && (before.Some? ==> Attachable(d, before.value))
  }

  /** `insertBefore` reaches its end without throwing: every element can be
      attached, and in the root copy the parent's widget has an `add`. */
  predicate MountSucceeds(d: Doc, p: ElemId, c: ElemId, before: Option<ElemId>)
    requires Valid(d) && p in d.elems && c in d.elems && (before.Some? ==> before.value in d.elems)
  {
    AllAttachable(d, p, c, before) && (d.flavor.RootCopy? ==> RootAccepts(d, p))
  }

  /** The first `_attach()` of an element: `renderer.create` with its tag
      and props, which may throw. */
  function Instantiate(d: Doc, e: ElemId): (r: Result<(Doc, Id), string>)
    requires Valid(d) && e in d.elems && d.elems[e].node.None?
    ensures r.Ok? <==> Create(d.flavor, d.tree, d.elems[e].localName, d.elems[e].props).Ok?
    ensures r.Ok? ==> r.value.1 == d.tree.next && Attached(d, e, r.value.0, r.value.1)
    ensures r.Ok? ==> r.value.0.tree == Create(d.flavor, d.tree, d.elems[e].localName, d.elems[e].props).value.0
  {
    var el := d.elems[e];
    var created :- Create(d.flavor, d.tree, el.localName, el.props);
    AllocFrame(d.tree, created.0);
    Ok((d.(tree := created.0, elems := d.elems[e := el.(node := Some(created.1))]), created.1))
  }

  /** A second `_attach()` returns the widget of the first and changes
      nothing: the widget is created at most once. */
  lemma AttachIdempotent(d: Doc, e: ElemId)
    requires Valid(d) && e in d.elems
    ensures var r := Attach(d, e);
      r.Ok? ==> Valid(r.value.0) && e in r.value.0.elems && Attach(r.value.0, e) == r
  {
  }

  /** A fresh node leaves every existing node as it was. */
  lemma AllocFrame(t: Tree, r: Tree)
    requires r.nodes.Keys == t.nodes.Keys + {t.next} && Allocated(t)
    ensures t.nodes.Keys <= r.nodes.Keys
  {
  }

  /** `setAttribute(name, value)`: the first write to an attached element
      with no pending snapshot copies the props and schedules the commit;
      the write itself always goes into the props. */
  function SetAttribute(d: Doc, e: ElemId, name: string, value: JsValue): (r: Doc)
    requires Valid(d) && e in d.elems
    ensures Valid(r) && (Scheduled(d) ==> Scheduled(r))
    ensures r.elems.Keys == d.elems.Keys && r.elems[e].props == d.elems[e].props[name := value]
    ensures r.elems[e].node == d.elems[e].node && r.elems[e].localName == d.elems[e].localName
    ensures d.elems[e].node.Some? && d.elems[e].prevProps.None? ==>
      r.queue == d.queue + [e] && r.elems[e].prevProps == Some(d.elems[e].props)
    ensures !(d.elems[e].node.Some? && d.elems[e].prevProps.None?) ==>
      r.queue == d.queue && r.elems[e].prevProps == d.elems[e].prevProps
    ensures forall x :: x in d.elems && x != e ==> r.elems[x] == d.elems[x]
    ensures r.tree == d.tree && r.links == d.links && r.flavor == d.flavor && r.nextElem == d.nextElem
  {
    var el := d.elems[e];
    var (snap, queue) :=
      if el.node.Some? && el.prevProps.None? then (Some(el.props), d.queue + [e]) else (el.prevProps, d.queue);
    d.(elems := d.elems[e := el.(props := el.props[name := value], prevProps := snap)], queue := queue)
  }

  /** `removeAttribute(name)`: deletes the property and schedules nothing,
      so on its own the removal never reaches the widget. */
  function RemoveAttribute(d: Doc, e: ElemId, name: string): (r: Doc)
    requires Valid(d) && e in d.elems
    ensures Valid(r) && (Scheduled(d) ==> Scheduled(r))
    ensures r.elems.Keys == d.elems.Keys && r.elems[e].props == d.elems[e].props - {name}
    ensures r.elems[e].prevProps == d.elems[e].prevProps && r.elems[e].node == d.elems[e].node
    ensures forall x :: x in d.elems && x != e ==> r.elems[x] == d.elems[x]
    ensures r.tree == d.tree && r.queue == d.queue && r.links == d.links
  {
    var el := d.elems[e];
    d.(elems := d.elems[e := el.(props := el.props - {name})])
  }

  /** The `data` setter: `setAttribute` of the text property with
      `String(value)`. */
  function SetData(d: Doc, e: ElemId, value: JsValue): (r: Doc)
    requires Valid(d) && e in d.elems
    ensures Valid(r) && (Scheduled(d) ==> Scheduled(r)) && r.elems.Keys == d.elems.Keys
    ensures r.elems[e].props == d.elems[e].props[DataKey(d.flavor) := Str(ToJsString(value))]
    ensures r.tree == d.tree
  {
    SetAttribute(d, e, DataKey(d.flavor), Str(ToJsString(value)))
  }

  /** `_commit()`: nothing unless the element is attached and has a pending
      snapshot; then the snapshot is dropped and the widget is updated with
      the props as they are now. */
  function Commit(d: Doc, e: ElemId): (r: Doc)
    requires Valid(d)
    ensures Valid(r)
    ensures r.elems.Keys == d.elems.Keys && r.links == d.links && r.queue == d.queue
    ensures r.flavor == d.flavor && r.nextElem == d.nextElem
    ensures e in d.elems ==>
      r.elems[e].prevProps.None? && r.elems[e].props == d.elems[e].props && r.elems[e].node == d.elems[e].node
    ensures forall x :: x in d.elems && x != e ==> r.elems[x] == d.elems[x]
    ensures e in d.elems && d.elems[e].prevProps.Some? ==>
      r.tree == Update(d.tree, d.elems[e].node.value, d.elems[e].props)
    ensures !(e in d.elems && d.elems[e].prevProps.Some?) ==> r == d
  {
    if e !in d.elems then d
    else
      var el := d.elems[e];
      if el.node.None? || el.prevProps.None? then d
      else d.(elems := d.elems[e := el.(prevProps := None)], tree := Update(d.tree, el.node.value, el.props))
  }

  /** Runs the queued commits in order, emptying the queue. */
  function Flush(d: Doc): (r: Doc)
    requires Valid(d)
    ensures Valid(r) && r.queue == []
    ensures r.elems.Keys == d.elems.Keys && r.links == d.links && r.flavor == d.flavor
    ensures Scheduled(d) ==> forall e :: e in r.elems ==> r.elems[e].prevProps.None?
    ensures forall e :: e in d.elems ==> r.elems[e].props == d.elems[e].props && r.elems[e].node == d.elems[e].node
    ensures forall e :: e in d.elems && e !in d.queue ==> r.elems[e] == d.elems[e]
    decreases |d.queue|
  {
    if |d.queue| == 0 then d else Flush(Step(d))
  }

  /** One microtask: the first queued commit leaves the queue and runs. */
  function Step(d: Doc): (r: Doc)
    requires Valid(d) && |d.queue| > 0
    ensures Valid(r) && r.queue == d.queue[1..]
    ensures r.elems.Keys == d.elems.Keys && r.links == d.links && r.flavor == d.flavor
    ensures Scheduled(d) ==> Scheduled(r)
    ensures forall e :: e in d.elems ==> r.elems[e].props == d.elems[e].props && r.elems[e].node == d.elems[e].node
    ensures forall e :: e in d.elems && e != d.queue[0] ==> r.elems[e] == d.elems[e]
  {
    var r := Commit(d.(queue := d.queue[1..]), d.queue[0]);
    assert Scheduled(d) ==> Scheduled(r) by {
      if Scheduled(d) {
        forall e | e in r.elems && r.elems[e].prevProps.Some?
          ensures e in r.queue
        {
          assert e != d.queue[0] && e in d.queue;
        }
      }
    }
    r
  }

  /** Property writes applied in order to a bag. */
  function ApplyWrites(props: Props, writes: seq<(string, JsValue)>): Props
    decreases |writes|
  {
    if |writes| == 0 then props
    else ApplyWrites(props[writes[0].0 := writes[0].1], writes[1..])
  }

  /** A run of `setAttribute` calls on one element. */
  function SetAttributes(d: Doc, e: ElemId, writes: seq<(string, JsValue)>): (r: Doc)
    requires Valid(d) && e in d.elems
    ensures Valid(r) && r.elems.Keys == d.elems.Keys
    decreases |writes|
  {
    if |writes| == 0 then d
    else SetAttributes(SetAttribute(d, e, writes[0].0, writes[0].1), e, writes[1..])
  }

  /** Any number of writes to an attached element schedule its commit at
      most once: the first write snapshots the props and queues the element,
      the later ones only change the props. */
  lemma {:induction false} WritesScheduleOnce(d: Doc, e: ElemId, writes: seq<(string, JsValue)>)
    requires Valid(d) && e in d.elems && d.elems[e].node.Some?
    ensures var r := SetAttributes(d, e, writes);
      && r.elems[e].props == ApplyWrites(d.elems[e].props, writes)
      && r.elems[e].node == d.elems[e].node
      && r.tree == d.tree && r.links == d.links
      && (forall x :: x in d.elems && x != e ==> r.elems[x] == d.elems[x])
      && (d.elems[e].prevProps.Some? || |writes| == 0 ==> r.queue == d.queue && r.elems[e].prevProps == d.elems[e].prevProps)
      && (d.elems[e].prevProps.None? && |writes| > 0 ==>
            r.queue == d.queue + [e] && r.elems[e].prevProps == Some(d.elems[e].props))
    decreases |writes|
  {
    if |writes| > 0 {
      var d1 := SetAttribute(d, e, writes[0].0, writes[0].1);
      WritesScheduleOnce(d1, e, writes[1..]);
    }
  }

  /** A burst of writes to an attached element with nothing else pending
      reaches the widget as exactly one `update`, with the final props. */
  lemma WritesThenFlush(d: Doc, e: ElemId, writes: seq<(string, JsValue)>)
    requires Valid(d) && e in d.elems && d.elems[e].node.Some?
    requires d.queue == [] && d.elems[e].prevProps.None? && |writes| > 0
    ensures Flush(SetAttributes(d, e, writes)).tree ==
      Update(d.tree, d.elems[e].node.value, ApplyWrites(d.elems[e].props, writes))
  {
    WritesScheduleOnce(d, e, writes);
    var r := SetAttributes(d, e, writes);
    assert r.queue == [e];
    assert Flush(r) == Flush(Step(r));
  }

  /** Writes to an element that is not attached change only its props: no
      commit is scheduled and the tree is untouched. */
  lemma {:induction false} DetachedWritesStayLocal(d: Doc, e: ElemId, writes: seq<(string, JsValue)>)
    requires Valid(d) && e in d.elems && d.elems[e].node.None?
    ensures var r := SetAttributes(d, e, writes);
      && r.queue == d.queue && r.tree == d.tree
      && r.elems[e] == d.elems[e].(props := ApplyWrites(d.elems[e].props, writes))
    decreases |writes|
  {
    if |writes| > 0 {
      DetachedWritesStayLocal(SetAttribute(d, e, writes[0].0, writes[0].1), e, writes[1..]);
    }
  }

  // ---------------------------------------------------------------------
  // Structure

  /** `removeChild(child)`: the links as written (the neighbours keep their
      links to the child), then `renderer.remove` when both are attached. */
  function RemoveElement(d: Doc, p: ElemId, c: ElemId): (r: Result<Doc, string>)
    requires Valid(d) && p in d.elems && c in d.elems && p != c
    ensures r.Ok? ==> Valid(r.value) && r.value.elems == d.elems && r.value.queue == d.queue
    ensures r.Ok? ==> r.value.links == Unlink(d.links, p, c) && r.value.flavor == d.flavor
    ensures r.Ok? ==> r.value.nextElem == d.nextElem
    ensures d.elems[p].node.None? || d.elems[c].node.None? ==> r == Ok(d.(links := Unlink(d.links, p, c)))
    ensures d.elems[p].node.Some? && d.elems[c].node.Some? ==>
      var removed := Remove(d.flavor, d.tree, d.elems[p].node.value, d.elems[c].node.value);
      (r.Ok? <==> removed.Ok?) && (r.Ok? ==> r.value.tree == removed.value)
    ensures r.Err? <==>
      d.flavor.RootCopy? && d.elems[p].node.Some? && d.elems[c].node.Some?
      && !IsContainer(d.tree.nodes[d.elems[p].node.value])
  {
    var d1 := d.(links := Unlink(d.links, p, c));
    var pe := d.elems[p];
    var ce := d.elems[c];
    if pe.node.Some? && ce.node.Some? then
      var t :- Remove(d.flavor, d.tree, pe.node.value, ce.node.value);
      Ok(d1.(tree := t))
    else Ok(d1)
  }

  /** `before && before._attach()`. */
  function AttachBefore(d: Doc, before: Option<ElemId>): (r: Result<(Doc, Option<Id>), string>)
    requires Valid(d) && (before.Some? ==> before.value in d.elems)
    ensures r.Ok? ==>
      && Valid(r.value.0) && r.value.0.elems.Keys == d.elems.Keys
      && r.value.0.links == d.links && r.value.0.queue == d.queue
      && r.value.0.flavor == d.flavor && r.value.0.nextElem == d.nextElem
      && d.tree.nodes.Keys <= r.value.0.tree.nodes.Keys
      && (forall x :: x in d.elems && Some(x) != before ==> r.value.0.elems[x] == d.elems[x])
      && (r.value.1.Some? <==> before.Some?)
      && (before.Some? ==> r.value.0.elems[before.value].node == r.value.1)
    ensures r.Ok? <==> (before.Some? ==> Attachable(d, before.value))
    ensures r.Ok? ==> forall x :: x in d.tree.nodes ==> r.value.0.tree.nodes[x] == d.tree.nodes[x]
  {
    match before
    case None => Ok((d, None))
    case Some(b) =>
      var attached :- Attach(d, b);
      Ok((attached.0, Some(attached.1)))
  }

  /** `insertBefore(child, before)`: detaches the child if it is already
      under this element, links it in, then mounts the widgets.
      `appendChild(child)` is the case without `before`. */
  function InsertElement(d: Doc, p: ElemId, c: ElemId, before: Option<ElemId>): (r: Result<Doc, string>)
    requires Valid(d) && p in d.elems && c in d.elems && p != c
    requires before.Some? ==> before.value in d.elems
    ensures r.Ok? ==> Valid(r.value) && r.value.elems.Keys == d.elems.Keys
    ensures r.Ok? ==> r.value.elems[p].node.Some? && r.value.elems[c].node.Some?
    ensures r.Ok? ==> r.value.links[c].parentNode == Some(p) && r.value.links[c].nextSibling == before
    ensures r.Ok? && d.links[c].parentNode != Some(p) ==> r.value.links == Link(d.links, p, c, before)
    ensures r.Ok? && d.links[c].parentNode == Some(p) ==> r.value.links == Link(Unlink(d.links, p, c), p, c, before)
    ensures r.Ok? ==> r.value.queue == d.queue && r.value.flavor == d.flavor
    ensures r.Ok? <==> MountSucceeds(d, p, c, before)
  {
    if d.links[c].parentNode == Some(p) then
      match RemoveElement(d, p, c)
      case Err(e) => Err(e)
      case Ok(d1) =>
        DetachKeepsMountable(d, p, c, before);
        LinkAndMount(d1, p, c, before)
    else LinkAndMount(d, p, c, before)
  }

  /** The part of `insertBefore` after the detach: the links, then the
      widgets. */
  function LinkAndMount(d: Doc, p: ElemId, c: ElemId, before: Option<ElemId>): (r: Result<Doc, string>)
    requires Valid(d) && p in d.elems && c in d.elems && p != c
    requires before.Some? ==> before.value in d.elems
    ensures r.Ok? ==> Valid(r.value) && r.value.elems.Keys == d.elems.Keys
    ensures r.Ok? ==> r.value.elems[p].node.Some? && r.value.elems[c].node.Some?
    ensures r.Ok? ==> r.value.links == Link(d.links, p, c, before)
    ensures r.Ok? ==> r.value.links[c].parentNode == Some(p) && r.value.links[c].nextSibling == before
    ensures r.Ok? ==> r.value.queue == d.queue && r.value.flavor == d.flavor
    ensures r.Ok? <==> MountSucceeds(d, p, c, before)
  {
    var d1 := d.(links := Link(d.links, p, c, before));
    assert MountSucceeds(d1, p, c, before) == MountSucceeds(d, p, c, before);
    Mount(d1, p, c, before)
  }

  /** Detaching the child first does not change whether the mount
      succeeds: in the root copy a successful removal keeps the parent's
      widget a container. */
  lemma DetachKeepsMountable(d: Doc, p: ElemId, c: ElemId, before: Option<ElemId>)
    requires Valid(d) && p in d.elems && c in d.elems && p != c
    requires before.Some? ==> before.value in d.elems
    requires RemoveElement(d, p, c).Ok?
    ensures var d1 := RemoveElement(d, p, c).value;
      MountSucceeds(d1, p, c, before) <==> MountSucceeds(d, p, c, before)
  {
    var d1 := RemoveElement(d, p, c).value;
    assert d1.elems == d.elems && d1.flavor == d.flavor;
    assert AllAttachable(d1, p, c, before) == AllAttachable(d, p, c, before);
    if d.flavor.RootCopy? {
      match d.elems[p].node
      case None =>
      case Some(n) =>
        if d.elems[c].node.Some? {
          ShapeFacts(d.tree, d1.tree, n);
        }
        assert IsContainer(d1.tree.nodes[n]) == IsContainer(d.tree.nodes[n]);
    }
  }

  /** The rest of `insertBefore`: the three widgets go to `renderer.insert`.
      The links are not touched. */
  function Mount(d: Doc, p: ElemId, c: ElemId, before: Option<ElemId>): (r: Result<Doc, string>)
    requires Valid(d) && p in d.elems && c in d.elems && p != c
    requires before.Some? ==> before.value in d.elems
    ensures r.Ok? ==> Valid(r.value) && r.value.elems.Keys == d.elems.Keys
    ensures r.Ok? ==> r.value.elems[p].node.Some? && r.value.elems[c].node.Some?
    ensures r.Ok? ==> r.value.links == d.links && r.value.queue == d.queue && r.value.flavor == d.flavor
    ensures r.Ok? ==>
      && AttachAll(d, p, c, before).Ok?
      && var a := AttachAll(d, p, c, before).value;
      && r.value.elems == a.0.elems
      && Insert(d.flavor, a.0.tree, r.value.elems[p].node.value, r.value.elems[c].node.value,
                if before.Some? then r.value.elems[before.value].node else None) == Ok(r.value.tree)
    ensures r.Ok? <==> MountSucceeds(d, p, c, before)
  {
    var a :- AttachAll(d, p, c, before);
    var t :- Insert(d.flavor, a.0.tree, a.1, a.2, a.3);
    Ok(a.0.(tree := t))
  }

  /** `this._attach()`, `child._attach()`, `before && before._attach()`, in
      that order; the first that throws ends the call. */
  function AttachAll(d: Doc, p: ElemId, c: ElemId, before: Option<ElemId>): (r: Result<(Doc, Id, Id, Option<Id>), string>)
    requires Valid(d) && p in d.elems && c in d.elems && p != c
    requires before.Some? ==> before.value in d.elems
    ensures r.Ok? ==>
      && Valid(r.value.0) && r.value.0.elems.Keys == d.elems.Keys
      && r.value.0.elems[p].node == Some(r.value.1) && r.value.0.elems[c].node == Some(r.value.2)
      && r.value.1 in r.value.0.tree.nodes && r.value.2 in r.value.0.tree.nodes
      && r.value.0.links == d.links && r.value.0.queue == d.queue && r.value.0.flavor == d.flavor
      && (before.Some? ==> before.value in r.value.0.elems && r.value.0.elems[before.value].node == r.value.3)
      && (before.None? ==> r.value.3.None?)
    ensures r.Ok? <==> AllAttachable(d, p, c, before)
    ensures r.Ok? && d.flavor.RootCopy? ==> (IsContainer(r.value.0.tree.nodes[r.value.1]) <==> RootAccepts(d, p))
  {
    match Attach(d, p)
    case Err(e) => Err(e)
    case Ok(ap) =>
      AttachKeepsAttachable(d, p, ap.0, ap.1, c);
      match Attach(ap.0, c)
      case Err(e) => Err(e)
      case Ok(ac) =>
        if before.Some? then
          AttachKeepsAttachable(d, p, ap.0, ap.1, before.value);
          AttachKeepsAttachable(ap.0, c, ac.0, ac.1, before.value);
          AttachAllLast(d, p, c, before, ap, ac)
        else
          AttachAllLast(d, p, c, before, ap, ac)
  }

  /** The last step of `AttachAll`, once the parent and the child have
      their widgets. */
  function AttachAllLast(d: Doc, p: ElemId, c: ElemId, before: Option<ElemId>, ap: (Doc, Id), ac: (Doc, Id))
    : (r: Result<(Doc, Id, Id, Option<Id>), string>)
    requires Valid(d) && p in d.elems && c in d.elems && p != c
    requires before.Some? ==> before.value in d.elems
    requires Attached(d, p, ap.0, ap.1) && Attached(ap.0, c, ac.0, ac.1)
    ensures r.Ok? <==> (before.Some? ==> Attachable(ac.0, before.value))
    ensures r.Ok? ==>
      && Valid(r.value.0) && r.value.0.elems.Keys == d.elems.Keys
      && r.value.0.elems[p].node == Some(r.value.1) && r.value.0.elems[c].node == Some(r.value.2)
      && r.value.1 in r.value.0.tree.nodes && r.value.2 in r.value.0.tree.nodes
      && r.value.0.links == d.links && r.value.0.queue == d.queue && r.value.0.flavor == d.flavor
      && (before.Some? ==> before.value in r.value.0.elems && r.value.0.elems[before.value].node == r.value.3)
      && (before.None? ==> r.value.3.None?)
      && r.value.1 == ap.1 && r.value.0.tree.nodes[ap.1] == ap.0.tree.nodes[ap.1]
  {
    var ab :- AttachBefore(ac.0, before);
    Ok((ab.0, ap.1, ac.1, ab.1))
  }

  /** Attaching one element leaves every other element exactly as
      attachable as it was. */
  lemma AttachKeepsAttachable(d: Doc, e: ElemId, r: Doc, n: Id, x: ElemId)
    requires e in d.elems && x in d.elems && Attached(d, e, r, n) && Attachable(d, e)
    ensures x in r.elems && (Attachable(r, x) <==> Attachable(d, x))
  {
  }

  /** When the three elements already have widgets, mounting is exactly
      `renderer.insert` on those widgets. */
  lemma MountAttached(d: Doc, p: ElemId, c: ElemId, before: Option<ElemId>)
    requires Valid(d) && p in d.elems && c in d.elems && p != c
    requires before.Some? ==> before.value in d.elems && d.elems[before.value].node.Some?
    requires d.elems[p].node.Some? && d.elems[c].node.Some?
    ensures var nb := if before.Some? then d.elems[before.value].node else None;
      var i := Insert(d.flavor, d.tree, d.elems[p].node.value, d.elems[c].node.value, nb);
      var r := Mount(d, p, c, before);
      (r.Ok? <==> i.Ok?) && (r.Ok? ==> r.value == d.(tree := i.value))
  {
  }

  /** Inserting an element that is not under `p`, all three elements having
      widgets: the links gain the child and the widget tree is what
      `renderer.insert` makes of it. */
  lemma InsertElementAttached(d: Doc, p: ElemId, c: ElemId, before: Option<ElemId>)
    requires Valid(d) && p in d.elems && c in d.elems && p != c
    requires before.Some? ==> before.value in d.elems && d.elems[before.value].node.Some?
    requires d.elems[p].node.Some? && d.elems[c].node.Some? && d.links[c].parentNode != Some(p)
    ensures var nb := if before.Some? then d.elems[before.value].node else None;
      var i := Insert(d.flavor, d.tree, d.elems[p].node.value, d.elems[c].node.value, nb);
      var r := InsertElement(d, p, c, before);
      (r.Ok? <==> i.Ok?) && (r.Ok? ==> r.value == d.(links := Link(d.links, p, c, before), tree := i.value))
  {
    MountAttached(d.(links := Link(d.links, p, c, before)), p, c, before);
  }

  /** Moving a child that is already under `p`, all three elements having
      widgets: `renderer.remove` takes the child's widget out, and
      `renderer.insert` puts it back at its new place. */
  lemma MoveElementAttached(d: Doc, p: ElemId, c: ElemId, before: Option<ElemId>)
    requires Valid(d) && p in d.elems && c in d.elems && p != c
    requires before.Some? ==> before.value in d.elems && d.elems[before.value].node.Some?
    requires d.elems[p].node.Some? && d.elems[c].node.Some? && d.links[c].parentNode == Some(p)
    ensures var np := d.elems[p].node.value;
      var nc := d.elems[c].node.value;
      var nb := if before.Some? then d.elems[before.value].node else None;
      var removed := Remove(d.flavor, d.tree, np, nc);
      var r := InsertElement(d, p, c, before);
      && (r.Ok? <==> removed.Ok? && Insert(d.flavor, removed.value, np, nc, nb).Ok?)
      && (r.Ok? ==> r.value.tree == Insert(d.flavor, removed.value, np, nc, nb).value)
  {
    var removed := RemoveElement(d, p, c);
    if removed.Ok? {
      var d1 := removed.value;
      MountAttached(d1.(links := Link(d1.links, p, c, before)), p, c, before);
    }
  }

  /** In the root copy, moving an attached child within an attached parent
      with a child list leaves the parent widget's children a permutation
      of what they were: the child is moved, not duplicated. */
  lemma RootMoveKeepsOneCopy(d: Doc, p: ElemId, c: ElemId, before: Option<ElemId>)
    requires Valid(d) && d.flavor.RootCopy? && p in d.elems && c in d.elems && p != c
    requires before.Some? ==> before.value in d.elems && d.elems[before.value].node.Some?
    requires d.elems[p].node.Some? && d.elems[c].node.Some? && d.links[c].parentNode == Some(p)
    requires HasChildList(d.tree.nodes[d.elems[p].node.value])
    requires d.elems[c].node.value in d.tree.nodes[d.elems[p].node.value].children
    ensures var r := InsertElement(d, p, c, before);
      var np := d.elems[p].node.value;
      var nc := d.elems[c].node.value;
      r.Ok? && HasChildList(r.value.tree.nodes[np])
      && multiset(r.value.tree.nodes[np].children) == multiset(d.tree.nodes[np].children)
  {
    var np := d.elems[p].node.value;
    var nc := d.elems[c].node.value;
    var nb := if before.Some? then d.elems[before.value].node else None;
    MoveElementAttached(d, p, c, before);
    var removed := Remove(d.flavor, d.tree, np, nc).value;
    assert HasChildList(removed.nodes[np]) && removed.nodes[np].children == RemoveFirst(d.tree.nodes[np].children, nc);
    var ins := Insert(d.flavor, removed, np, nc, nb);
    assert ins.Ok? && ins.value.nodes[np].children
      == SpliceInsert(removed.nodes[np].children, IndexBefore(removed, np, nb), nc);
    MoveKeepsMultiset(d.tree.nodes[np].children, IndexBefore(removed, np, nb), nc);
  }

  /** In the root copy, appending an attached element to an attached
      element with a child list puts the child's widget last among the
      parent widget's children. */
  lemma RootAppendPlacesWidget(d: Doc, p: ElemId, c: ElemId)
    requires Valid(d) && d.flavor.RootCopy? && p in d.elems && c in d.elems && p != c
    requires d.elems[p].node.Some? && d.elems[c].node.Some? && d.links[c].parentNode != Some(p)
    requires HasChildList(d.tree.nodes[d.elems[p].node.value])
    ensures var r := InsertElement(d, p, c, None);
      var np := d.elems[p].node.value;
      r.Ok? && HasChildList(r.value.tree.nodes[np])
      && r.value.tree.nodes[np].children == d.tree.nodes[np].children + [d.elems[c].node.value]
  {
    InsertElementAttached(d, p, c, None);
  }

  /** In the root copy, removing an attached child element from an attached
      element with a child list takes the child's widget out of the parent
      widget's children. */
  lemma RootRemoveDropsWidget(d: Doc, p: ElemId, c: ElemId)
    requires Valid(d) && d.flavor.RootCopy? && p in d.elems && c in d.elems && p != c
    requires d.elems[p].node.Some? && d.elems[c].node.Some?
    requires HasChildList(d.tree.nodes[d.elems[p].node.value])
    ensures var r := RemoveElement(d, p, c);
      var np := d.elems[p].node.value;
      r.Ok? && HasChildList(r.value.tree.nodes[np])
      && r.value.tree.nodes[np].children == RemoveFirst(d.tree.nodes[np].children, d.elems[c].node.value)
  {
  }

  // ---------------------------------------------------------------------
  // Properties of the element model

  /** Inserting an element that is not under `p` keeps `p`'s links a
      well-formed child list, with the element at the position of `before`
      (or last). */
  lemma InsertKeepsChildList(d: Doc, p: ElemId, c: ElemId, before: Option<ElemId>, xs: seq<ElemId>)
    requires Valid(d) && p in d.elems && c in d.elems && p != c
    requires ChildList(d.links, p, xs) && c !in xs && d.links[c].parentNode != Some(p)
    requires before.Some? ==> before.value in xs
    ensures var r := InsertElement(d, p, c, before);
      var k := if before.Some? then IndexOfElem(xs, before.value) else |xs|;
      r.Ok? ==> ChildList(r.value.links, p, xs[..k] + [c] + xs[k..])
  {
    LinkKeepsList(d.links, p, xs, c, before);
  }

  /** Removing an element that has a previous sibling leaves that sibling's
      `nextSibling` on the removed element, so the links stop describing the
      remaining children. */
  lemma RemoveLeavesStaleLink(d: Doc, p: ElemId, xs: seq<ElemId>, i: nat)
    requires Valid(d) && ChildList(d.links, p, xs) && 0 < i < |xs|
    ensures xs[i] in d.elems && p in d.elems && p != xs[i]
    ensures var r := RemoveElement(d, p, xs[i]);
      r.Ok? ==> (r.value.links[xs[i - 1]].nextSibling == Some(xs[i])
                 && !ChildList(r.value.links, p, RemoveAt(xs, i)))
  {
    UnlinkLeavesStaleLink(d.links, p, xs, i);
  }

  /** In the library a text node shows its text once attached. */
  lemma LibraryTextNodeShowsText(d: Doc, text: JsValue)
    requires Valid(d) && d.flavor.Library?
    ensures var (d1, e) := CreateTextNode(d, text);
      var r := Attach(d1, e);
      r.Ok? && IsLiteral(r.value.0.tree, r.value.1)
      && r.value.0.tree.nodes[r.value.1].text == ToJsString(text)
  {
    var (d1, e) := CreateTextNode(d, text);
    assert Get(d1.elems[e].props, "text") == Str(ToJsString(text));
  }

  /** In the root copy a text node always shows the empty string: its text
      is stored under `data`, but `create` reads `text`. */
  lemma RootTextNodeIsEmpty(d: Doc, text: JsValue)
    requires Valid(d) && d.flavor.RootCopy?
    ensures var (d1, e) := CreateTextNode(d, text);
      var r := Attach(d1, e);
      r.Ok? && IsLiteral(r.value.0.tree, r.value.1) && r.value.0.tree.nodes[r.value.1].text == ""
  {
    var (d1, e) := CreateTextNode(d, text);
    assert Get(d1.elems[e].props, "text") == Undefined;
  }

  /** With the corrected `create`, a root-copy text node shows its text. */
  lemma RootTextNodeFixedShowsText(d: Doc, text: JsValue)
    requires Valid(d) && d.flavor.RootCopy?
    ensures var (d1, e) := CreateTextNode(d, text);
      var r := RootCreateFixed(d1.tree, d1.elems[e].localName, d1.elems[e].props);
      r.Ok? && IsLiteral(r.value.0, r.value.1) && r.value.0.nodes[r.value.1].text == ToJsString(text)
  {
    var (d1, e) := CreateTextNode(d, text);
    assert Get(d1.elems[e].props, "data") == Str(ToJsString(text));
  }

  /** The root element becomes an empty window in both copies. */
  lemma RootIsWindow(d: Doc)
    requires Valid(d)
    ensures var (d1, e) := CreateRoot(d);
      var r := Attach(d1, e);
      r.Ok? && r.value.0.tree.nodes[r.value.1] == Widget(Window, map[], [])
  {
    var (d1, e) := CreateRoot(d);
    if d.flavor.Library? {
      assert PreactElement("wr-window") == Some(WidgetOf(Window));
    }
  }

  /** Changing the `data` of an attached text node reaches its widget only as
      an `update` of the props bag: the literal keeps showing its old text. */
  lemma DataChangeKeepsLiteralText(d: Doc, e: ElemId, value: JsValue)
    requires Valid(d) && e in d.elems && d.elems[e].node.Some? && IsLiteral(d.tree, d.elems[e].node.value)
    requires d.queue == [] && d.elems[e].prevProps.None?
    ensures var n := d.elems[e].node.value;
      var r := Flush(SetData(d, e, value));
      IsLiteral(r.tree, n) && r.tree.nodes[n].text == d.tree.nodes[n].text
  {
    WritesThenFlush(d, e, [(DataKey(d.flavor), Str(ToJsString(value)))]);
    assert SetAttributes(d, e, [(DataKey(d.flavor), Str(ToJsString(value)))]) == SetData(d, e, value) by {
      var w := [(DataKey(d.flavor), Str(ToJsString(value)))];
      assert SetAttributes(d, e, w) == SetAttributes(SetData(d, e, value), e, w[1..]);
    }
  }
}
