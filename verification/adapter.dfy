/** The host side of both renderers: creating widget instances from element
    types, routing children into TextContainers, removing them again, and
    deciding whether new props differ from the old ones. The routing helpers
    (`appendChild`, `removeChild`, `removeFromTextContainer`) exist twice in
    the library, once for the React reconciler and once for the Preact
    renderer, with the same behaviour; they are modelled once. */
module HostAdapter {
  import opened Base
  import opened TextFormat
  import opened TextRun
  import opened RetainedTree

  /** What an element type stands for: a line break (a literal newline), an
      inline style span, a text provider, or a widget of the library. */
  datatype Element = LineBreak | StyleSpan | Provider | LeafOf(leaf: LeafKind) | WidgetOf(kind: WidgetKind)

  /** The element types the reconciler's `createInstance` knows. */
  function ReconcilerElement(ty: string): Option<Element> {
    match ty
    case "br" => Some(LineBreak)
    case "wr-br" => Some(LineBreak)
    case "wr-checkbox" => Some(LeafOf(Checkbox))
    case "wr-console" => Some(LeafOf(ConsoleLog))
    case "wr-digits" => Some(LeafOf(Digits))
    case "wr-input" => Some(LeafOf(Input))
    case "wr-separator" => Some(LeafOf(Separator))
    case "wr-slider" => Some(LeafOf(Slider))
    case "wr-space" => Some(LeafOf(Space))
    case "wr-box" => Some(WidgetOf(Box))
    case "wr-button" => Some(WidgetOf(Button))
    case "wr-collapsible" => Some(WidgetOf(Collapsible))
    case "wr-stack" => Some(WidgetOf(Stack))
    case "wr-scrollable" => Some(WidgetOf(Scrollable))
    case "wr-style" => Some(StyleSpan)
    case "wr-text" => Some(Provider)
    case "wr-tabs" => Some(WidgetOf(Tabs))
    case "wr-tabs-section" => Some(WidgetOf(TabsSection))
    case "wr-accordion" => Some(WidgetOf(Accordion))
    case "wr-accordion-section" => Some(WidgetOf(AccordionSection))
    case _ => None
  }

  /** The element types the Preact renderer's `createView` knows besides its
      two literal types: the reconciler's, plus three more widgets. */
  function PreactElement(ty: string): Option<Element> {
    match ty
    case "wr-collapsible-text" => Some(LeafOf(CollapsibleText))
    case "wr-drawer" => Some(WidgetOf(Drawer))
    case "wr-window" => Some(WidgetOf(Window))
    case _ => ReconcilerElement(ty)
  }

  /** The fresh node for an element: a line break is a literal newline with
      an empty bag; the others keep the props they are given, and a provider
      derives its formatting fields from them. */
  function NodeFor(e: Element, props: Props): (n: Node)
    ensures n.Literal? <==> e.LineBreak?
    ensures n.Literal? ==> n.text == "\n" && n.owner == None
    ensures n.TextProvider? <==> e.Provider?
    ensures n.TextProvider? ==> n.provider == ProviderUpdate(props)
    ensures n.Leaf? <==> e.LeafOf?
    ensures n.Leaf? ==> n.leaf == e.leaf
    ensures n.Widget? <==> e.WidgetOf?
    ensures n.Widget? ==> n.kind == e.kind
    ensures !n.Literal? ==> !n.TextContainer? && n.props == props
    ensures HasChildList(n) ==> n.children == []
    ensures IsContainer(n) <==> !e.LineBreak? && !e.LeafOf?
  {
    match e
    case LineBreak => Literal("\n", None, map[])
    case StyleSpan => TextStyle(props, [])
    case Provider => TextProvider(ProviderUpdate(props), props, [])
    case LeafOf(k) => Leaf(k, props)
    case WidgetOf(k) => Widget(k, props, [])
  }

  /** `const {children, ...remainder} = props`, then the same for `child`. */
  function StripChildren(props: Props): (r: Props)
    ensures "children" !in r && "child" !in r
    ensures forall k :: k in props && k != "children" && k != "child" ==> k in r && r[k] == props[k]
    ensures r.Keys <= props.Keys
  {
    props - {"children", "child"}
  }

  /** The reconciler's `createInstance`: drops `children` and `child` from the
      props, then builds the node for the type; an unknown type throws. */
  function CreateInstance(t: Tree, ty: string, props: Props): (r: Result<(Tree, Id), string>)
    ensures r.Ok? <==> ReconcilerElement(ty).Some?
    ensures r.Err? ==> r.error == "unknown component \"" + ty + "\""
    ensures r.Ok? ==> r.value.1 == t.next && r.value.1 in r.value.0.nodes && r.value.0.parent == t.parent
    ensures r.Ok? && Allocated(t) ==>
      Allocated(r.value.0) && r.value.1 !in t.nodes
      && forall x :: x in t.nodes ==> x in r.value.0.nodes && r.value.0.nodes[x] == t.nodes[x]
    ensures r.Ok? ==>
      var n := r.value.0.nodes[r.value.1];
      && (n.Literal? <==> ty == "br" || ty == "wr-br")
      && (n.Literal? ==> n.text == "\n")
      && (!n.Literal? ==> !n.TextContainer? && "children" !in n.props && "child" !in n.props && (HasChildList(n) ==> n.children == []))
      && (n.TextProvider? ==> n.provider == ProviderUpdate(StripChildren(props)))
  {
    match ReconcilerElement(ty)
    case Some(e) => Ok(Alloc(t, NodeFor(e, StripChildren(props))))
    case None => Err("unknown component \"" + ty + "\"")
  }

  /** `createTextInstance`: a fresh literal carrying the text as given. */
  function CreateTextInstance(t: Tree, text: string): (r: (Tree, Id))
    ensures IsLiteral(r.0, r.1) && r.0.nodes[r.1].text == text && r.0.nodes[r.1].owner == None
    ensures Allocated(t) ==>
      Allocated(r.0) && r.1 !in t.nodes
      && forall x :: x in t.nodes ==> x in r.0.nodes && r.0.nodes[x] == t.nodes[x]
  {
    Alloc(t, Literal(text, None, map[]))
  }

  /** The Preact renderer's `createView`. The props are used as given. A
      `text` element reads `String(props.text) ?? ''`, whose fallback can never
      apply because `String` never returns a nullish value; a `wr-literal`
      element reads `props.text ?? ''`. An unknown type throws. */
  function CreateView(t: Tree, ty: string, props: Props): (r: Result<(Tree, Id), string>)
    ensures r.Ok? <==> ty == "text" || ty == "wr-literal" || PreactElement(ty).Some?
    ensures r.Err? ==> r.error == "Unknown type " + ty
    ensures r.Ok? ==> r.value.1 == t.next && r.value.1 in r.value.0.nodes && r.value.0.parent == t.parent
    ensures r.Ok? && Allocated(t) ==> Allocated(r.value.0) && r.value.1 !in t.nodes
    ensures r.Ok? ==> r.value.0.nodes.Keys == t.nodes.Keys + {r.value.1} && r.value.0.next == t.next + 1
    ensures r.Ok? && Allocated(t) ==> forall x :: x in t.nodes ==> r.value.0.nodes[x] == t.nodes[x]
    ensures r.Ok? && ty == "text" ==>
      IsLiteral(r.value.0, r.value.1) && r.value.0.nodes[r.value.1].text == ToJsString(Get(props, "text"))
    ensures r.Ok? && ty == "wr-literal" ==>
      IsLiteral(r.value.0, r.value.1)
      && (Get(props, "text").Undefined? || Get(props, "text").Null? ==> r.value.0.nodes[r.value.1].text == "")
      && (Get(props, "text").Str? ==> r.value.0.nodes[r.value.1].text == Get(props, "text").s)
  {
    if ty == "text" then
      Ok(Alloc(t, Literal(ToJsString(Get(props, "text")), None, map[])))
    else if ty == "wr-literal" then
      Ok(Alloc(t, Literal(ToJsString(Coalesce(Get(props, "text"), Str(""))), None, map[])))
    else match PreactElement(ty)
      case Some(e) => Ok(Alloc(t, NodeFor(e, props)))
      case None => Err("Unknown type " + ty)
  }

  /** A `text` element without a `text` prop shows the word "undefined": the
      `?? ''` fallback is dead code. */
  lemma TextViewNeverFallsBack(t: Tree)
    ensures var r := CreateView(t, "text", map[]);
      r.Ok? && IsLiteral(r.value.0, r.value.1) && r.value.0.nodes[r.value.1].text == "undefined"
  {
  }

  /** The two creators agree on every type the reconciler knows, once the
      `children` and `child` props are gone. */
  lemma CreatorsAgree(t: Tree, ty: string, props: Props)
    requires "children" !in props && "child" !in props
    ensures CreateInstance(t, ty, props).Ok? ==> CreateView(t, ty, props) == CreateInstance(t, ty, props)
  {
    if ReconcilerElement(ty).Some? {
      assert ty != "text" && ty != "wr-literal";
      assert PreactElement(ty) == ReconcilerElement(ty);
      assert StripChildren(props) == props;
    }
  }

  /** The Preact renderer knows element types the reconciler rejects: the
      three extra widgets and its own two literal types. */
  lemma PreactKnowsMore(t: Tree, ty: string, props: Props)
    requires ty == "wr-collapsible-text" || ty == "wr-drawer" || ty == "wr-window" || ty == "text" || ty == "wr-literal"
    ensures CreateView(t, ty, props).Ok?
    ensures CreateInstance(t, ty, props).Err?
  {
    assert ReconcilerElement(ty).None?;
  }

  /** The last of a node's `children`, when it is a view. */
  function LastRef(n: Node): (r: Option<Id>)
    ensures r.Some? ==> |SlotsOf(n)| > 0 && SlotsOf(n)[|SlotsOf(n)| - 1] == Ref(r.value)
  {
    var s := SlotsOf(n);
    if |s| > 0 && s[|s| - 1].Ref? then Some(s[|s| - 1].id) else None
  }

  /** `parent.children.at(-1)`, when it is a view. */
  function LastChild(t: Tree, p: Id): Option<Id> {
    if p in t.nodes then LastRef(t.nodes[p]) else None
  }

  /** `before ? children.indexOf(before) : -1`, where -1 means "append". */
  function IndexBefore(t: Tree, p: Id, before: Option<Id>): (r: Option<int>)
    ensures r.None? <==> before.None? || Ref(before.value) !in ChildSlots(t, p)
    ensures r.Some? ==>
      0 <= r.value < |ChildSlots(t, p)| && ChildSlots(t, p)[r.value] == Ref(before.value)
      && forall j :: 0 <= j < r.value ==> ChildSlots(t, p)[j] != Ref(before.value)
  {
    match before
    case None => None
    case Some(b) =>
      match IndexOf(ChildSlots(t, p), Ref(b))
      case None => None
      case Some(i) => Some(i)
  }

  lemma RefsOfIndex(cs: seq<Id>, b: Id, i: nat)
    requires i < |cs| && cs[i] == b && forall j :: 0 <= j < i ==> cs[j] != b
    ensures IndexOf(RefsOf(cs), Ref(b)) == Some(i)
  {
  }

  /** Whether `appendChild` routes the child into a TextContainer: a literal
      or style span, unless the parent is itself a TextStyle. */
  predicate JoinsTextRun(t: Tree, p: Id, child: Id) {
    IsTextLike(t, child) && p in t.nodes && !t.nodes[p].TextStyle?
  }

  /** The shared `appendChild(parent, child, before)`. A child that joins a
      text run goes into the TextContainer that is the parent's last child,
      or into a new TextContainer appended to the parent, and `before` is
      ignored; every other child is added at the position of `before`, or at
      the end when `before` is absent or not a child. A parent that is not a
      container has no `add`, and either branch throws. */
  function AppendChild(t: Tree, p: Id, child: Id, before: Option<Id>): (r: Result<Tree, string>)
    requires Allocated(t) && p in t.nodes && child in t.nodes
    ensures r.Ok? <==> IsContainer(t.nodes[p])
    ensures r.Err? ==> r.error == TypeError
    ensures r.Ok? ==> Allocated(r.value) && KeepsShapes(t, r.value)
    ensures JoinsTextRun(t, p, child) && HasChildList(t.nodes[p]) ==>
      && EndsTextRun(r.value, p, child) && HasChildList(r.value.nodes[p])
      && r.value.nodes[p].children
         == if TrailingTextContainer(t, p) then t.nodes[p].children else t.nodes[p].children + [t.next]
    ensures JoinsTextRun(t, p, child) && IsContainer(t.nodes[p]) && !TrailingTextContainer(t, p) ==>
      IsTextContainer(r.value, t.next) && r.value.nodes[t.next].nodes == [child]
    ensures !JoinsTextRun(t, p, child) && HasChildList(t.nodes[p]) ==>
      && HasChildList(r.value.nodes[p])
      && r.value.nodes[p].children == SpliceInsert(t.nodes[p].children, IndexBefore(t, p, before), child)
      && Parent(r.value, child) == Some(p)
  {
    if !IsContainer(t.nodes[p]) then Err(TypeError)
    else if JoinsTextRun(t, p, child) then Ok(JoinTextRun(t, p, child))
    else Add(t, p, child, IndexBefore(t, p, before))
  }

  /** The parent's last child is a TextContainer. */
  predicate TrailingTextContainer(t: Tree, p: Id) {
    LastChild(t, p).Some? && IsTextContainer(t, LastChild(t, p).value)
  }

  /** The parent's last child is a TextContainer whose logical list ends with
      `child`. */
  predicate EndsTextRun(t: Tree, p: Id, child: Id) {
    && LastChild(t, p).Some? && IsTextContainer(t, LastChild(t, p).value)
    && var ids := t.nodes[LastChild(t, p).value].nodes;
    |ids| > 0 && ids[|ids| - 1] == child
  }

  /** A child list's last entry is the node's last view. */
  lemma LastChildOfList(t: Tree, p: Id, x: Id)
    requires p in t.nodes && HasChildList(t.nodes[p])
    requires |t.nodes[p].children| > 0 && t.nodes[p].children[|t.nodes[p].children| - 1] == x
    ensures LastChild(t, p) == Some(x)
  {
    var cs := t.nodes[p].children;
    assert SlotsOf(t.nodes[p]) == RefsOf(cs);
    assert RefsOf(cs)[|cs| - 1] == Ref(x);
  }

  /** The text branch of `appendChild`: reuse the parent's trailing
      TextContainer, or open a new one. */
  function JoinTextRun(t: Tree, p: Id, child: Id): (r: Tree)
    requires Allocated(t) && JoinsTextRun(t, p, child) && IsContainer(t.nodes[p])
    ensures Allocated(r) && KeepsShapes(t, r)
    ensures HasChildList(t.nodes[p]) ==>
      && EndsTextRun(r, p, child) && HasChildList(r.nodes[p])
      && r.nodes[p].children == if TrailingTextContainer(t, p) then t.nodes[p].children else t.nodes[p].children + [t.next]
    ensures !TrailingTextContainer(t, p) ==> IsTextContainer(r, t.next) && r.nodes[t.next].nodes == [child]
  {
    if TrailingTextContainer(t, p) then ReuseTextContainer(t, p, LastChild(t, p).value, child)
    else NewTextContainer(t, p, child)
  }

  /** The branch of `appendChild` that reuses the trailing TextContainer. */
  function ReuseTextContainer(t: Tree, p: Id, c: Id, child: Id): (r: Tree)
    requires Allocated(t) && JoinsTextRun(t, p, child)
    requires LastChild(t, p) == Some(c) && IsTextContainer(t, c)
    ensures Allocated(r) && KeepsShapes(t, r)
    ensures IsTextContainer(r, c) && r.nodes[c].nodes == t.nodes[c].nodes + [child]
    ensures IsLiteral(t, child) ==> r.nodes[child].owner == Some(c)
    ensures HasChildList(t.nodes[p]) ==> r.nodes[p] == t.nodes[p] && EndsTextRun(r, p, child)
  {
    var r := ContainerAdd(t, c, child, None);
    assert HasChildList(t.nodes[p]) ==> LastChild(r, p) == LastChild(t, p);
    r
  }

  /** Allocates an empty TextContainer and adds it to the end of the parent. */
  function OpenTextContainer(t: Tree, p: Id): (r: Tree)
    requires Allocated(t) && p in t.nodes && IsContainer(t.nodes[p])
    ensures Allocated(r) && KeepsShapes(t, r) && r.next == t.next + 1
    ensures IsTextContainer(r, t.next) && r.nodes[t.next].nodes == []
    ensures forall x :: x in t.nodes && x != p ==> r.nodes[x] == t.nodes[x]
    ensures HasChildList(t.nodes[p]) ==>
      HasChildList(r.nodes[p]) && r.nodes[p].children == t.nodes[p].children + [t.next] && LastChild(r, p) == Some(t.next)
  {
    var (t1, c) := Alloc(t, TextContainer([], []));
    var r := Add(t1, p, c, None).value;
    KeepsShapesTrans(t, t1, r);
    if HasChildList(t.nodes[p]) then
      LastChildOfList(r, p, c);
      r
    else r
  }

  /** The branch of `appendChild` that opens a new TextContainer. */
  function NewTextContainer(t: Tree, p: Id, child: Id): (r: Tree)
    requires Allocated(t) && JoinsTextRun(t, p, child) && IsContainer(t.nodes[p])
    ensures Allocated(r) && KeepsShapes(t, r) && r.next == t.next + 1
    ensures IsTextContainer(r, t.next) && r.nodes[t.next].nodes == [child]
    ensures IsLiteral(t, child) ==> r.nodes[child].owner == Some(t.next)
    ensures HasChildList(t.nodes[p]) ==>
      HasChildList(r.nodes[p]) && r.nodes[p].children == t.nodes[p].children + [t.next] && EndsTextRun(r, p, child)
  {
    var t1 := OpenTextContainer(t, p);
    var r := ContainerAdd(t1, t.next, child, None);
    KeepsShapesTrans(t, t1, r);
    assert HasChildList(t.nodes[p]) ==> r.nodes[p] == t1.nodes[p];
    r
  }

  /** The reconciler's `insertBefore` hook, as written: it adds the child at
      the position of `beforeChild` itself and then calls `appendChild`,
      which adds it a second time. */
  function InsertBefore(t: Tree, p: Id, child: Id, before: Id): (r: Result<Tree, string>)
    requires Allocated(t) && p in t.nodes && child in t.nodes
    ensures r.Ok? <==> IsContainer(t.nodes[p])
    ensures r.Ok? ==> Allocated(r.value) && t.nodes.Keys <= r.value.nodes.Keys
  {
    var t1 :- Add(t, p, child, IndexBefore(t, p, Some(before)));
    ShapeFacts(t, t1, p);
    AppendChild(t1, p, child, Some(before))
  }

  /** `insertBefore` as evidently intended: `appendChild` alone. */
  function InsertBeforeIntended(t: Tree, p: Id, child: Id, before: Id): (r: Result<Tree, string>)
    requires Allocated(t) && p in t.nodes && child in t.nodes
    ensures r.Ok? <==> IsContainer(t.nodes[p])
    ensures r.Ok? ==> Allocated(r.value) && t.nodes.Keys <= r.value.nodes.Keys
    ensures !IsTextLike(t, child) && HasChildList(t.nodes[p]) ==>
      HasChildList(r.value.nodes[p])
      && multiset(r.value.nodes[p].children) == multiset(t.nodes[p].children) + multiset{child}
  {
    var r := AppendChild(t, p, child, Some(before));
    if !IsTextLike(t, child) && HasChildList(t.nodes[p]) then
      SpliceInsertCounts(t.nodes[p].children, IndexBefore(t, p, Some(before)), child);
      r
    else r
  }

  /** Inserting a widget before one of its future siblings puts it twice into
      the parent's children. */
  lemma InsertBeforeAddsTwice(t: Tree, p: Id, child: Id, before: Id)
    requires Allocated(t) && p in t.nodes && child in t.nodes
    requires HasChildList(t.nodes[p]) && !IsTextLike(t, child)
    requires before in t.nodes[p].children && child !in t.nodes[p].children
    ensures multiset(InsertBefore(t, p, child, before).value.nodes[p].children)[child] == 2
  {
    var t1 := Add(t, p, child, IndexBefore(t, p, Some(before))).value;
    assert HasChildList(t1.nodes[p]) && !IsTextLike(t1, child);
    SpliceInsertCounts(t.nodes[p].children, IndexBefore(t, p, Some(before)), child);
    var r := AppendChild(t1, p, child, Some(before)).value;
    SpliceInsertCounts(t1.nodes[p].children, IndexBefore(t1, p, Some(before)), child);
  }

  /** The intended insertion places a widget immediately before `before`. */
  lemma InsertBeforeIntendedPlaces(t: Tree, p: Id, child: Id, before: Id, k: nat)
    requires Allocated(t) && p in t.nodes && child in t.nodes
    requires HasChildList(t.nodes[p]) && !IsTextLike(t, child)
    requires k < |t.nodes[p].children| && t.nodes[p].children[k] == before
    requires forall j :: 0 <= j < k ==> t.nodes[p].children[j] != before
    ensures var cs := InsertBeforeIntended(t, p, child, before).value.nodes[p].children;
      |cs| == |t.nodes[p].children| + 1 && cs[k] == child && cs[k + 1] == before
      && cs[..k] == t.nodes[p].children[..k]
  {
    RefsOfIndex(t.nodes[p].children, before, k);
    assert IndexBefore(t, p, Some(before)) == Some(k);
  }

  /** Consecutive text children share one TextContainer: the second joins
      the container the first one went to, right after it. */
  lemma TextRunsShareContainer(t: Tree, p: Id, a: Id, b: Id)
    requires Allocated(t) && p in t.nodes && a in t.nodes && b in t.nodes
    requires HasChildList(t.nodes[p]) && !t.nodes[p].TextStyle?
    requires IsTextLike(t, a) && IsTextLike(t, b)
    ensures var r1 := AppendChild(t, p, a, None).value;
      var r2 := AppendChild(r1, p, b, None).value;
      LastChild(r2, p) == LastChild(r1, p) && LastChild(r2, p).Some?
      && var c := LastChild(r2, p).value;
      IsTextContainer(r2, c) && r2.nodes[c].nodes == r1.nodes[c].nodes + [b]
      && r1.nodes[c].nodes[|r1.nodes[c].nodes| - 1] == a
  {
    var r1 := AppendChild(t, p, a, None).value;
    assert EndsTextRun(r1, p, a);
    var c := LastChild(r1, p).value;
    ShapeFacts(t, r1, p);
    ShapeFacts(t, r1, b);
    assert JoinsTextRun(r1, p, b);
    var r2 := ReuseTextContainer(r1, p, c, b);
    assert AppendChild(r1, p, b, None) == Ok(r2);
    assert r2.nodes[p] == r1.nodes[p];
  }

  /** After a widget is appended, the parent no longer ends with a
      TextContainer, so the next text cannot join the previous run. */
  lemma ViewEndsTextRun(t: Tree, p: Id, w: Id, b: Id)
    requires Allocated(t) && p in t.nodes && w in t.nodes && b in t.nodes
    requires HasChildList(t.nodes[p]) && !t.nodes[p].TextStyle?
    requires !IsTextLike(t, w) && !IsTextContainer(t, w) && IsTextLike(t, b)
    ensures var r1 := AppendChild(t, p, w, None).value;
      && Allocated(r1) && b in r1.nodes && p in r1.nodes && HasChildList(r1.nodes[p])
      && r1.nodes[p].children == t.nodes[p].children + [w]
      && JoinsTextRun(r1, p, b) && !TrailingTextContainer(r1, p)
  {
    var r1 := AppendChild(t, p, w, None).value;
    LastChildOfList(r1, p, w);
    ShapeFacts(t, r1, w);
    ShapeFacts(t, r1, p);
    ShapeFacts(t, r1, b);
  }

  /** A widget appended between two texts splits them: the later text opens
      a new TextContainer after the widget. */
  lemma ViewSplitsTextRuns(t: Tree, p: Id, w: Id, b: Id)
    requires Allocated(t) && p in t.nodes && w in t.nodes && b in t.nodes
    requires HasChildList(t.nodes[p]) && !t.nodes[p].TextStyle?
    requires !IsTextLike(t, w) && !IsTextContainer(t, w) && IsTextLike(t, b)
    ensures var r1 := AppendChild(t, p, w, None).value;
      var r2 := AppendChild(r1, p, b, None).value;
      r1.next !in r1.nodes && IsTextContainer(r2, r1.next) && r2.nodes[r1.next].nodes == [b]
      && r2.nodes[p].children == t.nodes[p].children + [w] + [r1.next]
  {
    ViewEndsTextRun(t, p, w, b);
    var r1 := AppendChild(t, p, w, None).value;
    var r2 := AppendChild(r1, p, b, None).value;
    assert r2.nodes[p].children == r1.nodes[p].children + [r1.next];
  }

  /** The test `removeFromTextContainer` applies to a child of the container:
      a TextContainer whose rendered `children` include the view. */
  predicate RendersChild(t: Tree, c: Id, child: Id) {
    IsTextContainer(t, c) && Ref(child) in t.nodes[c].rendered
  }

  /** The test a removal evidently needs: a TextContainer whose logical list
      holds the view. */
  predicate HoldsChild(t: Tree, c: Id, child: Id) {
    IsTextContainer(t, c) && child in t.nodes[c].nodes
  }

  /** The test of the search, applied to one slot (`byList` picks the
      logical-list test, otherwise the rendered-children test). */
  predicate Matches(t: Tree, s: Slot, child: Id, byList: bool) {
    s.Ref? && if byList then HoldsChild(t, s.id, child) else RendersChild(t, s.id, child)
  }

  /** The first child among `slots` that passes the test. */
  function FirstMatch(t: Tree, slots: seq<Slot>, child: Id, byList: bool): (r: Option<Id>)
    ensures r.None? <==> forall i :: 0 <= i < |slots| ==> !Matches(t, slots[i], child, byList)
    ensures r.Some? ==> Ref(r.value) in slots && IsTextContainer(t, r.value)
    ensures r.Some? ==> Matches(t, Ref(r.value), child, byList)
  {
    if |slots| == 0 then None
    else if Matches(t, slots[0], child, byList) then Some(slots[0].id)
    else FirstMatch(t, slots[1..], child, byList)
  }

  /** The search stops at the first slot that passes: every slot before it
      fails the test. */
  lemma {:induction false} FirstMatchIsFirst(t: Tree, slots: seq<Slot>, child: Id, byList: bool, k: nat)
    requires k < |slots| && Matches(t, slots[k], child, byList)
    requires forall i :: 0 <= i < k ==> !Matches(t, slots[i], child, byList)
    ensures FirstMatch(t, slots, child, byList) == Some(slots[k].id)
    decreases k
  {
    if k > 0 {
      assert !Matches(t, slots[0], child, byList);
      forall i | 0 <= i < k - 1
        ensures !Matches(t, slots[1..][i], child, byList)
      {
        assert slots[1..][i] == slots[i + 1];
      }
      FirstMatchIsFirst(t, slots[1..], child, byList, k - 1);
    }
  }

  /** Only a container has slots to search. */
  lemma SlotOwnerIsContainer(t: Tree, p: Id, c: Id)
    requires Ref(c) in ChildSlots(t, p)
    ensures p in t.nodes && IsContainer(t.nodes[p])
  {
  }

  /** Drops the TextContainer `c` from the parent `p` when nothing is
      rendered in it any more; `p` is the container whose children the
      search went through. */
  function PruneIfEmpty(t: Tree, p: Id, c: Id): (r: Tree)
    requires IsTextContainer(t, c) && p in t.nodes && IsContainer(t.nodes[p])
    ensures r.nodes.Keys == t.nodes.Keys && r.next == t.next
    ensures forall x :: x in t.nodes && x != p ==> r.nodes[x] == t.nodes[x]
    ensures HasChildList(t.nodes[p]) ==>
      HasChildList(r.nodes[p])
      && r.nodes[p].children == if t.nodes[c].rendered == [] then RemoveFirst(t.nodes[p].children, c) else t.nodes[p].children
  {
    if t.nodes[c].rendered == [] then RemoveChild(t, p, c).value else t
  }

  /** Removes the child from the TextContainer `c`, then drops `c` from the
      parent when nothing is left rendered in it. */
  function RemoveAndPrune(t: Tree, p: Id, c: Id, child: Id): (r: Tree)
    requires IsTextContainer(t, c) && p in t.nodes && IsContainer(t.nodes[p])
    ensures IsTextContainer(r, c) && r.nodes[c].nodes == RemoveFirst(t.nodes[c].nodes, child)
    ensures IsLiteral(t, child) ==> IsLiteral(r, child) && r.nodes[child].owner == None
    ensures r.nodes.Keys == t.nodes.Keys && r.next == t.next
    ensures HasChildList(t.nodes[p]) ==>
      HasChildList(r.nodes[p])
      && r.nodes[p].children == if r.nodes[c].rendered == [] then RemoveFirst(t.nodes[p].children, c) else t.nodes[p].children
  {
    var t1 := ContainerRemove(t, c, Member(child));
    assert IsContainer(t1.nodes[p]) by {
      ShapeFacts(t, t1, p);
    }
    assert HasChildList(t.nodes[p]) ==> p != c && t1.nodes[p] == t.nodes[p];
    var r := PruneIfEmpty(t1, p, c);
    assert p != c ==> r.nodes[c] == t1.nodes[c];
    r
  }

  /** `removeFromTextContainer` as written: it looks for the child among the
      rendered children of the container's TextContainers. */
  function RemoveFromTextContainer(t: Tree, p: Id, child: Id): (r: Tree)
    ensures FirstMatch(t, ChildSlots(t, p), child, false).None? ==> r == t
    ensures r.nodes.Keys == t.nodes.Keys && r.next == t.next
    ensures FirstMatch(t, ChildSlots(t, p), child, false).Some? ==>
      var c := FirstMatch(t, ChildSlots(t, p), child, false).value;
      IsTextContainer(r, c) && r.nodes[c].nodes == RemoveFirst(t.nodes[c].nodes, child)
      && (p in t.nodes && HasChildList(t.nodes[p]) ==>
            HasChildList(r.nodes[p])
            && r.nodes[p].children
               == if r.nodes[c].rendered == [] then RemoveFirst(t.nodes[p].children, c) else t.nodes[p].children)
  {
    match FirstMatch(t, ChildSlots(t, p), child, false)
    case None => t
    case Some(c) =>
      SlotOwnerIsContainer(t, p, c);
      RemoveAndPrune(t, p, c, child)
  }

  /** `removeFromTextContainer` as evidently intended: it looks for the child
      in the logical lists, where literals live. */
  function RemoveFromTextContainerFixed(t: Tree, p: Id, child: Id): (r: Tree)
    ensures FirstMatch(t, ChildSlots(t, p), child, true).None? ==> r == t
    ensures r.nodes.Keys == t.nodes.Keys && r.next == t.next
    ensures FirstMatch(t, ChildSlots(t, p), child, true).Some? ==>
      var c := FirstMatch(t, ChildSlots(t, p), child, true).value;
      IsTextContainer(r, c) && r.nodes[c].nodes == RemoveFirst(t.nodes[c].nodes, child)
      && |r.nodes[c].nodes| == |t.nodes[c].nodes| - 1
      && (IsLiteral(t, child) ==> IsLiteral(r, child) && r.nodes[child].owner == None)
      && (p in t.nodes && HasChildList(t.nodes[p]) ==>
            HasChildList(r.nodes[p])
            && r.nodes[p].children
               == if r.nodes[c].rendered == [] then RemoveFirst(t.nodes[p].children, c) else t.nodes[p].children)
  {
    match FirstMatch(t, ChildSlots(t, p), child, true)
    case None => t
    case Some(c) =>
      SlotOwnerIsContainer(t, p, c);
      RemoveAndPrune(t, p, c, child)
  }

  /** The shared `removeChild(container, child)`: a direct child is removed
      from the container (which throws when the container has no
      `removeChild`); a literal or style span is looked for in the
      container's TextContainers; anything else is left alone. */
  function RemoveChildHook(t: Tree, p: Id, child: Id): (r: Result<Tree, string>)
    ensures Parent(t, child) == Some(p) ==> r == RemoveChild(t, p, child)
    ensures Parent(t, child) != Some(p) && IsTextLike(t, child) ==> r == Ok(RemoveFromTextContainer(t, p, child))
    ensures Parent(t, child) != Some(p) && !IsTextLike(t, child) ==> r == Ok(t)
    ensures r.Ok? ==> r.value.nodes.Keys == t.nodes.Keys && r.value.next == t.next
  {
    if Parent(t, child) == Some(p) then RemoveChild(t, p, child)
    else if IsTextLike(t, child) then Ok(RemoveFromTextContainer(t, p, child))
    else Ok(t)
  }

  /** `removeChild` with the intended `removeFromTextContainer`. */
  function RemoveChildHookFixed(t: Tree, p: Id, child: Id): (r: Result<Tree, string>)
    ensures Parent(t, child) == Some(p) ==> r == RemoveChild(t, p, child)
    ensures Parent(t, child) != Some(p) && IsTextLike(t, child) ==> r == Ok(RemoveFromTextContainerFixed(t, p, child))
    ensures Parent(t, child) != Some(p) && !IsTextLike(t, child) ==> r == Ok(t)
    ensures r.Ok? ==> r.value.nodes.Keys == t.nodes.Keys && r.value.next == t.next
  {
    if Parent(t, child) == Some(p) then RemoveChild(t, p, child)
    else if IsTextLike(t, child) then Ok(RemoveFromTextContainerFixed(t, p, child))
    else Ok(t)
  }

  /** Every TextContainer's rendering is the resolution of its logical list,
      in some format. */
  ghost predicate AllResolved(t: Tree) {
    forall c :: IsTextContainer(t, c) ==> exists fmt :: Resolved(t, c, fmt)
  }

  /** A resolved TextContainer never renders a literal as a child. */
  lemma ResolvedRendersNoLiteral(t: Tree, c: Id, fmt: Format, v: Id)
    requires Resolved(t, c, fmt) && IsLiteral(t, v)
    ensures !RendersChild(t, c, v)
  {
    ResolveRefsAreViews(Items(t, t.nodes[c].nodes), fmt);
  }

  /** Removing a text literal through the reconciler does nothing at all when
      the literal is not a direct child: no rendered child is ever the
      literal, so the search finds no container and the text stays. */
  lemma LiteralRemovalIsNoOp(t: Tree, p: Id, child: Id)
    requires AllResolved(t) && IsLiteral(t, child) && Parent(t, child) != Some(p)
    ensures RemoveChildHook(t, p, child) == Ok(t)
  {
    var slots := ChildSlots(t, p);
    forall i | 0 <= i < |slots|
      ensures !Matches(t, slots[i], child, false)
    {
      if slots[i].Ref? && IsTextContainer(t, slots[i].id) {
        var fmt :| Resolved(t, slots[i].id, fmt);
        ResolvedRendersNoLiteral(t, slots[i].id, fmt, child);
      }
    }
  }

  /** A concrete tree: a box (0) holding a TextContainer (1) whose logical
      list is the literal "hi" (2). */
  function BoxWithText(): Tree {
    Tree(map[0 := Widget(Box, map[], [1]),
             1 := TextContainer([2], [Block("hi", Defaults)]),
             2 := Literal("hi", Some(1), map[])],
         map[1 := 0], 3)
  }

  /** On that tree the written removal keeps "hi" on screen. */
  lemma LiteralRemovalExample()
    ensures RemoveChildHook(BoxWithText(), 0, 2) == Ok(BoxWithText())
  {
    var t := BoxWithText();
    assert ChildSlots(t, 0) == [Ref(1)];
    assert !RendersChild(t, 1, 2);
    assert FirstMatch(t, [Ref(1)], 2, false) == None;
  }

  /** On the same tree the intended removal empties the container, drops it
      from the box and clears the literal's back-link. */
  lemma LiteralRemovalFixedExample()
    ensures var r := RemoveChildHookFixed(BoxWithText(), 0, 2).value;
      && IsTextContainer(r, 1) && r.nodes[1].nodes == []
      && 0 in r.nodes && HasChildList(r.nodes[0]) && r.nodes[0].children == []
      && IsLiteral(r, 2) && r.nodes[2].owner == None
  {
    var t := BoxWithText();
    assert ChildSlots(t, 0) == [Ref(1)];
    assert HoldsChild(t, 1, 2);
    assert FirstMatch(t, [Ref(1)], 2, true) == Some(1);
    var t1 := ContainerRemove(t, 1, Member(2));
    assert t1.nodes[1].nodes == [];
    assert Items(t1, []) == [];
    assert t1.nodes[1].rendered == [];
  }

  /** A widget appended to a container and removed again leaves the
      container's children as they were. */
  lemma AppendThenRemove(t: Tree, p: Id, w: Id)
    requires Allocated(t) && p in t.nodes && w in t.nodes
    requires HasChildList(t.nodes[p]) && !IsTextLike(t, w) && w !in t.nodes[p].children
    ensures RemoveChildHook(AppendChild(t, p, w, None).value, p, w).value.nodes[p].children == t.nodes[p].children
  {
    var r1 := AppendChild(t, p, w, None).value;
    assert r1.nodes[p].children == t.nodes[p].children + [w];
    assert IndexOf(r1.nodes[p].children, w) == Some(|t.nodes[p].children|) by {
      var cs := t.nodes[p].children;
      IndexOfAppend(cs, w);
    }
  }

  lemma {:induction false} IndexOfAppend(cs: seq<Id>, w: Id)
    requires w !in cs
    ensures IndexOf(cs + [w], w) == Some(|cs|)
    decreases |cs|
  {
    if |cs| > 0 {
      assert (cs + [w])[1..] == cs[1..] + [w];
      IndexOfAppend(cs[1..], w);
    }
  }

  /** Whether the props differ (`true` stands for the non-null payload
      `[]`): old keys are compared first, then the keys only the new bag
      owns, each with `isSame`. */
  predicate SameProps(prior: Props, next: Props, same: (JsValue, JsValue) -> bool) {
    && (forall k :: k in prior ==> same(prior[k], Get(next, k)))
    && (forall k :: k in next && k !in prior ==> same(Get(prior, k), next[k]))
  }

  /** The reconciler's `prepareUpdate`. */
  method PrepareUpdate(prior: Props, next: Props, same: (JsValue, JsValue) -> bool) returns (changed: bool)
    ensures changed <==> !SameProps(prior, next, same)
  {
    var keys := prior.Keys;
    while keys != {}
      invariant keys <= prior.Keys
      invariant forall k :: k in prior && k !in keys ==> same(prior[k], Get(next, k))
      decreases keys
    {
      var k :| k in keys;
      if !same(prior[k], Get(next, k)) {
        return true;
      }
      keys := keys - {k};
    }
    keys := next.Keys;
    while keys != {}
      invariant keys <= next.Keys
      invariant forall k :: k in next && k !in prior && k !in keys ==> same(Get(prior, k), next[k])
      decreases keys
    {
      var k :| k in keys;
      if k !in prior && !same(Get(prior, k), next[k]) {
        return true;
      }
      keys := keys - {k};
    }
    return false;
  }

  /** With a reflexive comparison, a bag never differs from itself. */
  lemma SamePropsReflexive(p: Props, same: (JsValue, JsValue) -> bool)
    requires forall a :: same(a, a)
    ensures SameProps(p, p, same)
  {
  }

  /** With a symmetric comparison, the answer does not depend on which bag
      is the old one. */
  lemma SamePropsSymmetric(a: Props, b: Props, same: (JsValue, JsValue) -> bool)
    requires forall x, y :: same(x, y) == same(y, x)
    requires SameProps(a, b, same)
    ensures SameProps(b, a, same)
  {
    forall k | k in b
      ensures same(b[k], Get(a, k))
    {
      if k in a {
        assert same(a[k], Get(b, k));
      } else {
        assert same(Get(a, k), b[k]);
      }
    }
    forall k | k in a && k !in b
      ensures same(Get(b, k), a[k])
    {
      assert same(a[k], Get(b, k));
    }
  }

  /** With strict equality as the comparison, two bags are the same exactly
      when they read alike at every key, an absent key reading `undefined`. */
  lemma SamePropsUnderEquality(a: Props, b: Props)
    ensures SameProps(a, b, (x, y) => x == y) <==> forall k :: Get(a, k) == Get(b, k)
  {
    if SameProps(a, b, (x, y) => x == y) {
      forall k
        ensures Get(a, k) == Get(b, k)
      {
        if k in a {
          assert a[k] == Get(b, k);
        } else if k in b {
          assert Get(a, k) == b[k];
        }
      }
    }
  }

  /** The reconciler's `commitUpdate`: every prop but `children` goes to the
      node's `update`. */
  function CommitUpdate(t: Tree, id: Id, props: Props): (r: Tree)
    ensures r.parent == t.parent && r.nodes.Keys == t.nodes.Keys
    ensures id in t.nodes && !t.nodes[id].TextContainer? ==>
      !r.nodes[id].TextContainer? && "children" !in r.nodes[id].props
      && forall k :: k in props && k != "children" ==> k in r.nodes[id].props && r.nodes[id].props[k] == props[k]
    ensures IsProvider(t, id) ==> IsProvider(r, id) && r.nodes[id].provider == ProviderUpdate(props)
    ensures IsLiteral(t, id) ==> IsLiteral(r, id) && r.nodes[id].text == t.nodes[id].text
    ensures id in t.nodes && !t.nodes[id].TextContainer? ==> r.nodes[id].props == props - {"children"}
    ensures forall x :: x in t.nodes && x != id ==> r.nodes[x] == t.nodes[x]
    ensures id in t.nodes && HasChildList(t.nodes[id]) ==>
      HasChildList(r.nodes[id]) && r.nodes[id].children == t.nodes[id].children
  {
    var updates := props - {"children"};
    assert forall k :: k != "children" ==> Get(updates, k) == Get(props, k);
    Update(t, id, updates)
  }

  /** The reconciler's `commitTextUpdate`: the literal's text becomes the new
      text, and its container stays a resolution of its logical list. */
  function CommitTextUpdate(t: Tree, id: Id, newText: string): (r: Tree)
    requires IsLiteral(t, id)
    ensures IsLiteral(r, id) && r.nodes[id].text == newText
    ensures r.nodes[id].owner == t.nodes[id].owner
    ensures var c := t.nodes[id].owner;
      c.Some? && Resolved(t, c.value, FormatFor(t, c.value)) ==> Resolved(r, c.value, FormatFor(t, c.value))
  {
    var c := t.nodes[id].owner;
    if c.Some? && Resolved(t, c.value, FormatFor(t, c.value)) then
      SetTextKeepsResolved(t, id, Str(newText));
      SetText(t, id, Str(newText))
    else
      SetText(t, id, Str(newText))
  }

  /** The reconciler's `resetTextContent`: the literal's text becomes empty,
      and its container stays a resolution of its logical list. */
  function ResetTextContent(t: Tree, id: Id): (r: Tree)
    requires IsLiteral(t, id)
    ensures IsLiteral(r, id) && r.nodes[id].text == ""
    ensures r.nodes[id].owner == t.nodes[id].owner
    ensures var c := t.nodes[id].owner;
      c.Some? && Resolved(t, c.value, FormatFor(t, c.value)) ==> Resolved(r, c.value, FormatFor(t, c.value))
  {
    var c := t.nodes[id].owner;
    if c.Some? && Resolved(t, c.value, FormatFor(t, c.value)) then
      SetTextKeepsResolved(t, id, Str(""));
      SetText(t, id, Str(""))
    else
      SetText(t, id, Str(""))
  }

  /** The reconciler's `clearContainer`: the root window loses every child;
      a root with no child list throws. */
  function ClearContainer(t: Tree, root: Id): (r: Result<Tree, string>)
    ensures r.Ok? <==> root in t.nodes && IsContainer(t.nodes[root])
    ensures root in t.nodes && HasChildList(t.nodes[root]) ==>
      root in r.value.nodes && HasChildList(r.value.nodes[root]) && r.value.nodes[root].children == []
      && forall v :: v in t.nodes[root].children ==> Parent(r.value, v) != Some(root)
  {
    RemoveAllChildren(t, root)
  }
}
