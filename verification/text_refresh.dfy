/** The `invalidateText` fast path of a TextContainer: after a literal's text
    changed, it walks the logical list again and rewrites already rendered
    blocks in place, falling back to a full re-resolution as soon as the
    rendered child it expects to be a block is something else. */
module TextRefresh {
  import opened Base
  import opened TextFormat
  import opened TextRun

  /** The walk over `[...#nodes, STOP]`. `idx` is `childIndex`, which advances
      once per non-literal entry; the buffer is never reset once started.
      None means the walk gave up and a full re-resolution follows. */
  function Walk(items: seq<Item>, buf: Option<string>, idx: nat, slots: seq<Slot>): Option<seq<Slot>>
    decreases |items|
  {
    if |items| == 0 then
      if buf.None? then Some(slots)
      else if idx < |slots| && slots[idx].Block? then Some(slots[idx := slots[idx].(text := buf.value)])
      else None
    else if items[0].Lit? then
      Walk(items[1..], Some(buf.GetOr("") + items[0].text), idx, slots)
    else if buf.None? then
      Walk(items[1..], None, idx + 1, slots)
    else if idx < |slots| && slots[idx].Block? then
      Walk(items[1..], buf, idx + 1, slots[idx := slots[idx].(text := buf.value)])
    else
      None
  }

  /** The rendered children after `invalidateText`. */
  function InvalidateSlots(items: seq<Item>, slots: seq<Slot>, fmt: Format): seq<Slot>
  {
    match Walk(items, None, 0, slots)
    case Some(s) => s
    case None => Resolve(items, fmt)
  }

  /** Two logical lists that differ at most in the literals' texts. */
  predicate SameShape(a: seq<Item>, b: seq<Item>)
  {
    && |a| == |b|
    && (forall i :: 0 <= i < |a| ==> a[i].Lit? == b[i].Lit?)
    && (forall i :: 0 <= i < |a| ==> a[i].View? ==> a[i] == b[i])
  }

  lemma SameShapeSuffix(a: seq<Item>, b: seq<Item>, k: nat)
    requires SameShape(a, b) && k <= |a|
    ensures SameShape(a[k..], b[k..])
  {
  }

  lemma {:induction false} SameShapeRun(a: seq<Item>, b: seq<Item>)
    requires SameShape(a, b)
    ensures LeadingRun(a) == LeadingRun(b)
    decreases |a|
  {
    if |a| > 0 && a[0].Lit? {
      SameShapeSuffix(a, b, 1);
      SameShapeRun(a[1..], b[1..]);
    }
  }

  /** Literals only extend the buffer. */
  lemma {:induction false} WalkLiterals(items: seq<Item>, b: string, idx: nat, slots: seq<Slot>, k: nat)
    requires k <= LeadingRun(items)
    ensures Walk(items, Some(b), idx, slots) == Walk(items[k..], Some(b + Texts(items[..k])), idx, slots)
    decreases k
  {
    if k == 0 {
      assert items[..0] == [];
      assert b + Texts(items[..0]) == b;
    } else {
      var t := items[0].text;
      WalkLiterals(items[1..], b + t, idx, slots, k - 1);
      assert items[1..][k - 1..] == items[k..];
      TextsOfPrefix(b, items, k);
    }
  }

  /** Once a buffer is pending, meeting a passed-through view where a block is
      expected makes the walk give up, whatever follows. */
  lemma {:induction false} WalkGivesUpAtView(items: seq<Item>, b: string, idx: nat, slots: seq<Slot>)
    requires idx < |slots| && slots[idx].Ref?
    ensures Walk(items, Some(b), idx, slots) == None
    decreases |items|
  {
    if |items| > 0 && items[0].Lit? {
      WalkGivesUpAtView(items[1..], b + items[0].text, idx, slots);
    }
  }

  /** A leading literal run starts the buffer and fills it with the run's text. */
  lemma WalkRun(items: seq<Item>, idx: nat, slots: seq<Slot>)
    requires |items| > 0 && items[0].Lit?
    ensures var k := LeadingRun(items);
      Walk(items, None, idx, slots) == Walk(items[k..], Some(Texts(items[..k])), idx, slots)
  {
    var k := LeadingRun(items);
    assert "" + items[0].text == items[0].text;
    assert Walk(items, None, idx, slots) == Walk(items[1..], Some(items[0].text), idx, slots);
    WalkLiterals(items[1..], items[0].text, idx, slots, k - 1);
    assert items[1..][k - 1..] == items[k..];
    assert items[..k] == [items[0]] + items[1..][..k - 1];
    TextsAppend([items[0]], items[1..][..k - 1]);
    assert Texts([items[0]]) == items[0].text + Texts([]);
  }

  /** A literal run followed by a view: the run's block was rendered where
      the walk expects it, but the view's slot that follows is a passed-through
      view, so the walk gives up. */
  lemma WalkGivesUpAfterRun(items: seq<Item>, prior: seq<Item>, pre: seq<Slot>, fmt: Format)
    requires SameShape(items, prior)
    requires |items| > 0 && items[0].Lit? && LeadingRun(items) < |items|
    ensures Walk(items, None, |pre|, pre + Resolve(prior, fmt)) == None
  {
    var k := LeadingRun(items);
    SameShapeRun(items, prior);
    SameShapeSuffix(items, prior, k);
    var slots := pre + Resolve(prior, fmt);
    var idx := |pre|;
    var rest := Resolve(prior[k..], fmt);
    assert slots == pre + [Block(Texts(prior[..k]), fmt)] + rest;
    var t := Texts(items[..k]);
    WalkRun(items, idx, slots);
    var updated := slots[idx := Block(t, fmt)];
    assert items[k].View? && prior[k] == items[k];
    assert rest == [Ref(items[k].id)] + Resolve(prior[k..][1..], fmt);
    assert updated[idx + 1] == Ref(items[k].id);
    assert Walk(items[k..], Some(t), idx, slots) == Walk(items[k..][1..], Some(t), idx + 1, updated);
    WalkGivesUpAtView(items[k..][1..], t, idx + 1, updated);
  }

  /** The step of `WalkSound` for a list that starts with a literal run. */
  lemma WalkSoundRun(items: seq<Item>, prior: seq<Item>, pre: seq<Slot>, fmt: Format)
    requires SameShape(items, prior)
    requires |items| > 0 && items[0].Lit?
    ensures var w := Walk(items, None, |pre|, pre + Resolve(prior, fmt));
      w.Some? ==> w.value == pre + Resolve(items, fmt)
  {
    var k := LeadingRun(items);
    if k < |items| {
      WalkGivesUpAfterRun(items, prior, pre, fmt);
    } else {
      SameShapeRun(items, prior);
      SameShapeSuffix(items, prior, k);
      var slots := pre + Resolve(prior, fmt);
      assert prior[k..] == [] && items[k..] == [];
      assert Resolve(prior, fmt) == [Block(Texts(prior[..k]), fmt)] + Resolve(prior[k..], fmt);
      assert slots == pre + [Block(Texts(prior[..k]), fmt)];
      var t := Texts(items[..k]);
      WalkRun(items, |pre|, slots);
      assert Resolve(items, fmt) == [Block(t, fmt)];
      assert slots[|pre| := Block(t, fmt)] == pre + [Block(t, fmt)];
    }
  }

  /** Whenever the walk does finish on its own, what it produced is exactly
      the resolution of the new list behind the already processed prefix. */
  lemma {:induction false} WalkSound(items: seq<Item>, prior: seq<Item>, pre: seq<Slot>, fmt: Format)
    requires SameShape(items, prior)
    ensures var w := Walk(items, None, |pre|, pre + Resolve(prior, fmt));
      w.Some? ==> w.value == pre + Resolve(items, fmt)
    decreases |items|
  {
    if |items| == 0 {
      assert pre + [] == pre;
    } else if items[0].View? {
      var v := items[0].id;
      assert prior[0] == items[0];
      SameShapeSuffix(items, prior, 1);
      WalkSound(items[1..], prior[1..], pre + [Ref(v)], fmt);
      assert pre + Resolve(prior, fmt) == (pre + [Ref(v)]) + Resolve(prior[1..], fmt);
      assert pre + Resolve(items, fmt) == (pre + [Ref(v)]) + Resolve(items[1..], fmt);
    } else {
      WalkSoundRun(items, prior, pre, fmt);
    }
  }

  /** `invalidateText` leaves the container exactly as a full re-resolution
      would, provided its rendered children were the resolution of a list of
      the same shape in the same format. */
  lemma InvalidateMatchesResolve(items: seq<Item>, prior: seq<Item>, fmt: Format)
    requires SameShape(items, prior)
    ensures InvalidateSlots(items, Resolve(prior, fmt), fmt) == Resolve(items, fmt)
  {
    WalkSound(items, prior, [], fmt);
    assert [] + Resolve(prior, fmt) == Resolve(prior, fmt);
    assert [] + Resolve(items, fmt) == Resolve(items, fmt);
  }

  /** For an all-literal container the fast path just rewrites its single
      block's text to the concatenation, keeping that block's format. */
  lemma AllLiteralsRewriteInPlace(items: seq<Item>, text: string, f: Format)
    requires |items| > 0
    requires forall i :: 0 <= i < |items| ==> items[i].Lit?
    ensures Walk(items, None, 0, [Block(text, f)]) == Some([Block(Texts(items), f)])
  {
    var k := LeadingRun(items);
    assert k == |items|;
    WalkRun(items, 0, [Block(text, f)]);
    assert items[..k] == items;
    assert items[k..] == [];
    var slots := [Block(text, f)];
    assert Walk([], Some(Texts(items)), 0, slots) == Some(slots[0 := slots[0].(text := Texts(items))]);
    assert slots[0 := slots[0].(text := Texts(items))] == [Block(Texts(items), f)];
  }
}
