/** The DOM-like sibling links of the renderer's shadow elements: each element
    knows its parent, its two neighbours and its first and last child. The
    links of all elements live in one map so that the shape of a child list
    can be stated over it. */
module SiblingLinks {
  import opened Base

  type ElemId = nat

  datatype Links = Links(
    parentNode: Option<ElemId>,
    nextSibling: Option<ElemId>,
    previousSibling: Option<ElemId>,
    firstChild: Option<ElemId>,
    lastChild: Option<ElemId>)

  /** A freshly created element is linked to nothing. */
  const Unlinked: Links := Links(None, None, None, None, None)

  type LinkMap = map<ElemId, Links>

  function SetPrevious(m: LinkMap, id: ElemId, v: Option<ElemId>): LinkMap {
    if id in m then m[id := m[id].(previousSibling := v)] else m
  }

  function SetNext(m: LinkMap, id: ElemId, v: Option<ElemId>): LinkMap {
    if id in m then m[id := m[id].(nextSibling := v)] else m
  }

  function SetFirst(m: LinkMap, id: ElemId, v: Option<ElemId>): LinkMap {
    if id in m then m[id := m[id].(firstChild := v)] else m
  }

  function SetLast(m: LinkMap, id: ElemId, v: Option<ElemId>): LinkMap {
    if id in m then m[id := m[id].(lastChild := v)] else m
  }

  function SetParent(m: LinkMap, id: ElemId, v: Option<ElemId>): LinkMap {
    if id in m then m[id := m[id].(parentNode := v)] else m
  }

  function Head(xs: seq<ElemId>): Option<ElemId> {
    if |xs| == 0 then None else Some(xs[0])
  }

  function Last(xs: seq<ElemId>): Option<ElemId> {
    if |xs| == 0 then None else Some(xs[|xs| - 1])
  }

  /** The neighbours of position `i` in a list. */
  function PrevOf(xs: seq<ElemId>, i: nat): Option<ElemId>
    requires i < |xs|
  {
    if i == 0 then None else Some(xs[i - 1])
  }

  function NextOf(xs: seq<ElemId>, i: nat): Option<ElemId>
    requires i < |xs|
  {
    if i == |xs| - 1 then None else Some(xs[i + 1])
  }

  /** `xs` is exactly the child list of `p`, read through the links: the
      endpoints, both neighbour links of every child, and every child's
      `parentNode`. */
  predicate ChildList(m: LinkMap, p: ElemId, xs: seq<ElemId>) {
    && p in m && p !in xs
    && (forall i :: 0 <= i < |xs| ==> xs[i] in m)
    && (forall i, j :: 0 <= i < j < |xs| ==> xs[i] != xs[j])
    && m[p].firstChild == Head(xs)
    && m[p].lastChild == Last(xs)
    && (forall i :: 0 <= i < |xs| ==> m[xs[i]].parentNode == Some(p))
    && (forall i :: 0 <= i < |xs| ==> m[xs[i]].previousSibling == PrevOf(xs, i))
    && (forall i :: 0 <= i < |xs| ==> m[xs[i]].nextSibling == NextOf(xs, i))
  }

  /** The link updates of `insertBefore(child, before)`, after the child has
      been detached from this element if it was under it. With `before`, the
      child goes between `before` and its previous sibling, and becomes the
      first child if `before` was; without it, the child becomes the last
      child, and the first one too if there was none. */
  function Link(m: LinkMap, p: ElemId, c: ElemId, before: Option<ElemId>): (r: LinkMap)
    ensures r.Keys == m.Keys
    ensures c in m ==> r[c].parentNode == Some(p) && r[c].nextSibling == before
  {
    var linked :=
      if before.Some? then
        var b := before.value;
        var prev := if b in m then m[b].previousSibling else None;
        var m1 := SetPrevious(m, c, prev);
        var m2 := SetPrevious(m1, b, Some(c));
        var m3 := if prev.Some? then SetNext(m2, prev.value, Some(c)) else m2;
        if p in m3 && m3[p].firstChild == Some(b) then SetFirst(m3, p, Some(c)) else m3
      else
        var last := if p in m then m[p].lastChild else None;
        var m1 := SetPrevious(m, c, last);
        var m2 := SetLast(m1, p, Some(c));
        var m3 := if last.Some? then SetNext(m2, last.value, Some(c)) else m2;
        if p in m3 && m3[p].firstChild.None? then SetFirst(m3, p, Some(c)) else m3;
    SetNext(SetParent(linked, c, Some(p)), c, before)
  }

  /** The link updates of `removeChild(child)` as written: the endpoints of
      this element move past the child and the child's own three links are
      cleared, but its neighbours keep pointing at it. */
  function Unlink(m: LinkMap, p: ElemId, c: ElemId): (r: LinkMap)
    requires p in m && c in m && p != c
    ensures r.Keys == m.Keys
    ensures r[c].parentNode.None? && r[c].nextSibling.None? && r[c].previousSibling.None?
    ensures r[c].firstChild == m[c].firstChild && r[c].lastChild == m[c].lastChild
    ensures r[p].firstChild == if m[p].firstChild == Some(c) then m[c].nextSibling else m[p].firstChild
    ensures r[p].lastChild == if m[p].lastChild == Some(c) then m[c].previousSibling else m[p].lastChild
    ensures r[p].parentNode == m[p].parentNode && r[p].nextSibling == m[p].nextSibling
    ensures r[p].previousSibling == m[p].previousSibling
    ensures forall x :: x in m && x != p && x != c ==> r[x] == m[x]
  {
    var m1 := if m[p].firstChild == Some(c) then SetFirst(m, p, m[c].nextSibling) else m;
    var m2 := if m1[p].lastChild == Some(c) then SetLast(m1, p, m1[c].previousSibling) else m1;
    SetPrevious(SetNext(SetParent(m2, c, None), c, None), c, None)
  }

  /** `removeChild` as evidently intended: the neighbours are joined to each
      other before the child's links are cleared. */
  function UnlinkFixed(m: LinkMap, p: ElemId, c: ElemId): (r: LinkMap)
    requires p in m && c in m && p != c
    ensures r.Keys == m.Keys
    ensures r[c].parentNode.None? && r[c].nextSibling.None? && r[c].previousSibling.None?
  {
    var prev := m[c].previousSibling;
    var next := m[c].nextSibling;
    var m1 := if prev.Some? then SetNext(m, prev.value, next) else m;
    var m2 := if next.Some? then SetPrevious(m1, next.value, prev) else m1;
    Unlink(m2, p, c)
  }

  /** The child list after placing `c` at position `k`. */
  lemma InsertAtShape(xs: seq<ElemId>, c: ElemId, k: nat, i: nat)
    requires k <= |xs| && i < |xs| + 1
    ensures var ys := xs[..k] + [c] + xs[k..];
      |ys| == |xs| + 1 && ys[i] == if i < k then xs[i] else if i == k then c else xs[i - 1]
  {
  }

  /** Inserting a child that is not yet under `p`, before one of `p`'s
      children or at the end, keeps the links a well-formed child list, with
      the child in the position `before` had (or at the end). */
  lemma LinkKeepsList(m: LinkMap, p: ElemId, xs: seq<ElemId>, c: ElemId, before: Option<ElemId>)
    requires ChildList(m, p, xs) && c in m && c != p && c !in xs
    requires before.Some? ==> before.value in xs
    ensures var k := if before.Some? then IndexOfElem(xs, before.value) else |xs|;
      ChildList(Link(m, p, c, before), p, xs[..k] + [c] + xs[k..])
  {
    if before.Some? {
      var k := IndexOfElem(xs, before.value);
      LinkBeforeFacts(m, p, xs, c, k);
      LinkedListAt(m, Link(m, p, c, before), p, xs, c, k);
    } else {
      LinkAppendFacts(m, p, xs, c);
      LinkedListAt(m, Link(m, p, c, before), p, xs, c, |xs|);
    }
  }

  /** `r` is `m` after `c` went in at position `k` of the child list `xs` of
      `p`: only the neighbours of the new position and the endpoints of `p`
      changed. */
  predicate LinkedAround(m: LinkMap, r: LinkMap, p: ElemId, xs: seq<ElemId>, c: ElemId, k: nat) {
    && ChildList(m, p, xs) && c in m && c != p && c !in xs && k <= |xs|
    && r.Keys == m.Keys
    && r[c].parentNode == Some(p) && r[c].nextSibling == (if k == |xs| then None else Some(xs[k]))
    && r[c].previousSibling == (if k == 0 then None else Some(xs[k - 1]))
    && (k < |xs| ==> r[xs[k]].previousSibling == Some(c))
    && (k > 0 ==> r[xs[k - 1]].nextSibling == Some(c))
    && r[p].firstChild == (if k == 0 then Some(c) else Head(xs))
    && r[p].lastChild == (if k == |xs| then Some(c) else Last(xs))
    && (forall i :: 0 <= i < |xs| && i != k ==> r[xs[i]].previousSibling == m[xs[i]].previousSibling)
    && (forall i :: 0 <= i < |xs| && i != k - 1 ==> r[xs[i]].nextSibling == m[xs[i]].nextSibling)
    && (forall i :: 0 <= i < |xs| ==> r[xs[i]].parentNode == m[xs[i]].parentNode)
  }

  /** The links of `xs[..k] + [c] + xs[k..]`, given `LinkedAround`. */
  lemma LinkedListAt(m: LinkMap, r: LinkMap, p: ElemId, xs: seq<ElemId>, c: ElemId, k: nat)
    requires LinkedAround(m, r, p, xs, c, k)
    ensures ChildList(r, p, xs[..k] + [c] + xs[k..])
  {
    var ys := xs[..k] + [c] + xs[k..];
    forall i | 0 <= i < |ys|
      ensures ys[i] in r && r[ys[i]].parentNode == Some(p)
      ensures r[ys[i]].previousSibling == PrevOf(ys, i)
      ensures r[ys[i]].nextSibling == NextOf(ys, i)
    {
      LinkedIndex(m, r, p, xs, c, k, i);
    }
    InsertKeepsDistinct(xs, c, k);
    InsertAtShape(xs, c, k, 0);
    InsertAtShape(xs, c, k, |ys| - 1);
    assert p !in ys;
    assert r[p].firstChild == Head(ys);
    assert r[p].lastChild == Last(ys);
  }

  lemma LinkedIndex(m: LinkMap, r: LinkMap, p: ElemId, xs: seq<ElemId>, c: ElemId, k: nat, i: nat)
    requires LinkedAround(m, r, p, xs, c, k) && i <= |xs|
    ensures var ys := xs[..k] + [c] + xs[k..];
      && ys[i] in r && r[ys[i]].parentNode == Some(p)
      && r[ys[i]].previousSibling == PrevOf(ys, i)
      && r[ys[i]].nextSibling == NextOf(ys, i)
  {
    var ys := xs[..k] + [c] + xs[k..];
    InsertAtShape(xs, c, k, i);
    if i > 0 {
      InsertAtShape(xs, c, k, i - 1);
    }
    if i < |ys| - 1 {
      InsertAtShape(xs, c, k, i + 1);
    }
    if i < k {
      assert m[xs[i]].previousSibling == PrevOf(xs, i) && m[xs[i]].nextSibling == NextOf(xs, i);
    } else if i > k {
      assert m[xs[i - 1]].previousSibling == PrevOf(xs, i - 1) && m[xs[i - 1]].nextSibling == NextOf(xs, i - 1);
    }
  }

  /** Placing a new element into a list without repeats gives one. */
  lemma InsertKeepsDistinct(xs: seq<ElemId>, c: ElemId, k: nat)
    requires k <= |xs| && c !in xs
    requires forall i, j :: 0 <= i < j < |xs| ==> xs[i] != xs[j]
    ensures var ys := xs[..k] + [c] + xs[k..];
      forall i, j :: 0 <= i < j < |ys| ==> ys[i] != ys[j]
  {
    var ys := xs[..k] + [c] + xs[k..];
    forall i, j | 0 <= i < j < |ys|
      ensures ys[i] != ys[j]
    {
      InsertAtShape(xs, c, k, i);
      InsertAtShape(xs, c, k, j);
    }
  }

  /** Position of an element in a list it occurs in. */
  function IndexOfElem(xs: seq<ElemId>, x: ElemId): (k: nat)
    requires x in xs
    ensures k < |xs| && xs[k] == x
    ensures forall j :: 0 <= j < k ==> xs[j] != x
  {
    if xs[0] == x then 0 else 1 + IndexOfElem(xs[1..], x)
  }

  /** What `Link` does to each node when the child goes before `xs[k]`. */
  lemma LinkBeforeFacts(m: LinkMap, p: ElemId, xs: seq<ElemId>, c: ElemId, k: nat)
    requires ChildList(m, p, xs) && c in m && c != p && c !in xs && k < |xs|
    ensures var r := Link(m, p, c, Some(xs[k]));
      && r.Keys == m.Keys
      && r[c].parentNode == Some(p) && r[c].nextSibling == Some(xs[k])
      && r[c].previousSibling == (if k == 0 then None else Some(xs[k - 1]))
      && r[xs[k]].previousSibling == Some(c)
      && (k > 0 ==> r[xs[k - 1]].nextSibling == Some(c))
      && r[p].firstChild == (if k == 0 then Some(c) else Head(xs))
      && r[p].lastChild == Last(xs)
      && (forall i :: 0 <= i < |xs| && i != k ==> r[xs[i]].previousSibling == m[xs[i]].previousSibling)
      && (forall i :: 0 <= i < |xs| && i != k - 1 ==> r[xs[i]].nextSibling == m[xs[i]].nextSibling)
      && (forall i :: 0 <= i < |xs| ==> r[xs[i]].parentNode == m[xs[i]].parentNode)
  {
    assert m[xs[k]].previousSibling == PrevOf(xs, k);
    forall i | 0 <= i < |xs|
      ensures LinkedAt(m, p, c, Some(xs[k]), xs[i])
    {
      LinkOther(m, p, c, Some(xs[k]), xs[i]);
      assert i != k ==> xs[i] != xs[k];
      assert k > 0 && i != k - 1 ==> xs[i] != xs[k - 1];
    }
  }

  /** The neighbour that `Link` points at the new child. */
  function LinkedPrev(m: LinkMap, p: ElemId, before: Option<ElemId>): Option<ElemId> {
    if before.Some? then (if before.value in m then m[before.value].previousSibling else None)
    else if p in m then m[p].lastChild else None
  }

  /** How `Link` changes an element other than the parent and the child. */
  predicate LinkedAt(m: LinkMap, p: ElemId, c: ElemId, before: Option<ElemId>, x: ElemId)
    requires x in m
  {
    var r := Link(m, p, c, before);
    && r[x].parentNode == m[x].parentNode
    && r[x].previousSibling == (if before == Some(x) then Some(c) else m[x].previousSibling)
    && r[x].nextSibling == (if LinkedPrev(m, p, before) == Some(x) then Some(c) else m[x].nextSibling)
  }

  lemma LinkOther(m: LinkMap, p: ElemId, c: ElemId, before: Option<ElemId>, x: ElemId)
    requires x in m && x != c && x != p
    ensures LinkedAt(m, p, c, before, x)
  {
  }

  /** What `Link` does to each node when the child goes at the end. */
  lemma LinkAppendFacts(m: LinkMap, p: ElemId, xs: seq<ElemId>, c: ElemId)
    requires ChildList(m, p, xs) && c in m && c != p && c !in xs
    ensures var r := Link(m, p, c, None);
      && r.Keys == m.Keys
      && r[c].parentNode == Some(p) && r[c].nextSibling == None
      && r[c].previousSibling == Last(xs)
      && (|xs| > 0 ==> r[xs[|xs| - 1]].nextSibling == Some(c))
      && r[p].firstChild == (if |xs| == 0 then Some(c) else Head(xs))
      && r[p].lastChild == Some(c)
      && (forall i :: 0 <= i < |xs| ==> r[xs[i]].previousSibling == m[xs[i]].previousSibling)
      && (forall i :: 0 <= i < |xs| - 1 ==> r[xs[i]].nextSibling == m[xs[i]].nextSibling)
      && (forall i :: 0 <= i < |xs| ==> r[xs[i]].parentNode == m[xs[i]].parentNode)
  {
  }

  /** How `UnlinkFixed` changes an element other than the parent and the
      child: the child's neighbours now point at each other. */
  lemma UnlinkFixedOther(m: LinkMap, p: ElemId, c: ElemId, x: ElemId)
    requires p in m && c in m && p != c && x in m && x != p && x != c
    ensures var r := UnlinkFixed(m, p, c);
      && r[x].parentNode == m[x].parentNode
      && r[x].previousSibling == (if m[c].nextSibling == Some(x) then m[c].previousSibling else m[x].previousSibling)
      && r[x].nextSibling == (if m[c].previousSibling == Some(x) then m[c].nextSibling else m[x].nextSibling)
  {
  }

  /** The parent's endpoints after `UnlinkFixed` of its `i`-th child. */
  lemma UnlinkFixedEnds(m: LinkMap, p: ElemId, xs: seq<ElemId>, i: nat)
    requires ChildList(m, p, xs) && i < |xs|
    ensures var r := UnlinkFixed(m, p, xs[i]);
      r[p].firstChild == Head(RemoveAt(xs, i)) && r[p].lastChild == Last(RemoveAt(xs, i))
  {
    var c := xs[i];
    assert m[c].previousSibling == PrevOf(xs, i) && m[c].nextSibling == NextOf(xs, i);
    assert i > 0 ==> xs[i - 1] != c;
    assert i < |xs| - 1 ==> xs[i + 1] != c;
  }

  lemma UnlinkFixedIndex(m: LinkMap, p: ElemId, xs: seq<ElemId>, i: nat, j: nat)
    requires ChildList(m, p, xs) && i < |xs| && j < |xs| - 1
    ensures var r := UnlinkFixed(m, p, xs[i]); var ys := RemoveAt(xs, i);
      && ys[j] in r && r[ys[j]].parentNode == Some(p)
      && r[ys[j]].previousSibling == PrevOf(ys, j)
      && r[ys[j]].nextSibling == NextOf(ys, j)
  {
    var c := xs[i];
    var ys := RemoveAt(xs, i);
    var x := if j < i then xs[j] else xs[j + 1];
    assert ys[j] == x;
    assert m[c].previousSibling == PrevOf(xs, i) && m[c].nextSibling == NextOf(xs, i);
    var jx := if j < i then j else j + 1;
    assert xs[jx] == x && jx != i;
    assert m[x].previousSibling == PrevOf(xs, jx) && m[x].nextSibling == NextOf(xs, jx);
    UnlinkFixedOther(m, p, c, x);
    if j > 0 {
      assert ys[j - 1] == if j - 1 < i then xs[j - 1] else xs[j];
    }
    if j < |ys| - 1 {
      assert ys[j + 1] == if j + 1 < i then xs[j + 1] else xs[j + 2];
    }
    assert i > 0 ==> xs[i - 1] != x || jx == i - 1;
    assert i < |xs| - 1 ==> xs[i + 1] != x || jx == i + 1;
  }

  /** Removal as evidently intended keeps the links a well-formed child list,
      with the child taken out of it and no longer pointing anywhere. */
  lemma UnlinkFixedKeepsList(m: LinkMap, p: ElemId, xs: seq<ElemId>, i: nat)
    requires ChildList(m, p, xs) && i < |xs|
    ensures ChildList(UnlinkFixed(m, p, xs[i]), p, RemoveAt(xs, i))
    ensures var r := UnlinkFixed(m, p, xs[i]);
      r[xs[i]].parentNode.None? && r[xs[i]].previousSibling.None? && r[xs[i]].nextSibling.None?
  {
    var r := UnlinkFixed(m, p, xs[i]);
    var ys := RemoveAt(xs, i);
    forall j | 0 <= j < |ys|
      ensures ys[j] in r && r[ys[j]].parentNode == Some(p)
      ensures r[ys[j]].previousSibling == PrevOf(ys, j)
      ensures r[ys[j]].nextSibling == NextOf(ys, j)
    {
      UnlinkFixedIndex(m, p, xs, i, j);
    }
    UnlinkFixedEnds(m, p, xs, i);
    RemoveAtKeepsDistinct(xs, i);
    assert p !in ys;
  }

  /** Taking an element out of a list without repeats gives one. */
  lemma RemoveAtKeepsDistinct(xs: seq<ElemId>, i: nat)
    requires i < |xs|
    requires forall a, b :: 0 <= a < b < |xs| ==> xs[a] != xs[b]
    ensures var ys := RemoveAt(xs, i);
      forall a, b :: 0 <= a < b < |ys| ==> ys[a] != ys[b]
  {
    var ys := RemoveAt(xs, i);
    forall a, b | 0 <= a < b < |ys|
      ensures ys[a] != ys[b]
    {
      var xa := if a < i then a else a + 1;
      var xb := if b < i then b else b + 1;
      assert ys[a] == xs[xa] && ys[b] == xs[xb] && xa < xb;
    }
  }

  /** Removal as written leaves the previous neighbour of the removed child
      pointing at it, so the links no longer describe the remaining children
      whenever the child had a previous sibling. */
  lemma UnlinkLeavesStaleLink(m: LinkMap, p: ElemId, xs: seq<ElemId>, i: nat)
    requires ChildList(m, p, xs) && 0 < i < |xs|
    ensures Unlink(m, p, xs[i])[xs[i - 1]].nextSibling == Some(xs[i])
    ensures !ChildList(Unlink(m, p, xs[i]), p, RemoveAt(xs, i))
  {
    var r := Unlink(m, p, xs[i]);
    var ys := RemoveAt(xs, i);
    assert xs[i - 1] != xs[i];
    assert m[xs[i - 1]].nextSibling == NextOf(xs, i - 1);
    assert ys[i - 1] == xs[i - 1];
    assert NextOf(ys, i - 1) != Some(xs[i]) by {
      if i - 1 < |ys| - 1 {
        assert ys[i] == xs[i + 1];
        assert xs[i + 1] != xs[i];
      }
    }
    assert r[ys[i - 1]].nextSibling != NextOf(ys, i - 1);
  }

  /** The same holds for the next neighbour. */
  lemma UnlinkLeavesStaleBackLink(m: LinkMap, p: ElemId, xs: seq<ElemId>, i: nat)
    requires ChildList(m, p, xs) && i + 1 < |xs|
    ensures Unlink(m, p, xs[i])[xs[i + 1]].previousSibling == Some(xs[i])
  {
    assert xs[i + 1] != xs[i];
    assert m[xs[i + 1]].previousSibling == PrevOf(xs, i + 1);
  }

  /** Removing the only child is handled correctly as written. */
  lemma UnlinkOnlyChild(m: LinkMap, p: ElemId, c: ElemId)
    requires ChildList(m, p, [c])
    ensures ChildList(Unlink(m, p, c), p, [])
  {
    assert m[c].previousSibling == PrevOf([c], 0) && m[c].nextSibling == NextOf([c], 0);
  }
}
