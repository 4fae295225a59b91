/** Text-run consolidation: how a TextContainer turns its logical list of
    literals and other views into rendered children. Every maximal run of
    consecutive literals becomes one generated Text block carrying the run's
    concatenated text; every other view passes through in order. */
module TextRun {
  import opened Base
  import opened TextFormat

  /** Identity of a retained node. */
  type Id = nat

  /** One entry of a TextContainer's logical list (`#nodes`), seen by its
      contribution: a TextLiteral's current text, or any other view. */
  datatype Item = Lit(text: string) | View(id: Id)

  /** One rendered child of a TextContainer: a generated Text block, or a view
      passed through from the logical list. */
  datatype Slot = Block(text: string, format: Format) | Ref(id: Id)

  /** Length of the literal run the list starts with. */
  function LeadingRun(items: seq<Item>): (k: nat)
    ensures k <= |items|
    ensures forall i :: 0 <= i < k ==> items[i].Lit?
    ensures k < |items| ==> items[k].View?
  {
    if |items| == 0 || items[0].View? then 0 else 1 + LeadingRun(items[1..])
  }

  /** In-order concatenation of the literals' texts; views contribute nothing. */
  function Texts(items: seq<Item>): string
  {
    if |items| == 0 then ""
    else (if items[0].Lit? then items[0].text else "") + Texts(items[1..])
  }

  /** The rendered children for a logical list: each maximal literal run
      becomes one block, each view stands for itself. */
  function Resolve(items: seq<Item>, fmt: Format): seq<Slot>
    decreases |items|
  {
    if |items| == 0 then []
    else if items[0].View? then [Ref(items[0].id)] + Resolve(items[1..], fmt)
    else
      var k := LeadingRun(items);
      [Block(Texts(items[..k]), fmt)] + Resolve(items[k..], fmt)
  }

  /** Emits the pending text buffer, if there is one, as a block. */
  function Flush(buf: Option<string>, fmt: Format): seq<Slot>
  {
    match buf
    case None => []
    case Some(t) => [Block(t, fmt)]
  }

  /** The left-to-right buffer machine `#resolveNodes` runs: a literal extends
      the buffer (starting it at `""` if unset), anything else first flushes
      the buffer, and the end of the list flushes it once more. */
  function Consolidate(items: seq<Item>, buf: Option<string>, fmt: Format): seq<Slot>
    decreases |items|
  {
    if |items| == 0 then Flush(buf, fmt)
    else if items[0].Lit? then Consolidate(items[1..], Some(buf.GetOr("") + items[0].text), fmt)
    else Flush(buf, fmt) + [Ref(items[0].id)] + Consolidate(items[1..], None, fmt)
  }

  lemma {:induction false} TextsAppend(a: seq<Item>, b: seq<Item>)
    ensures Texts(a + b) == Texts(a) + Texts(b)
    decreases |a|
  {
    if |a| == 0 {
      assert a + b == b;
    } else {
      assert (a + b)[1..] == a[1..] + b;
      TextsAppend(a[1..], b);
    }
  }

  /** A buffer extended by a leading literal and then by the rest of a
      prefix holds the buffer followed by the prefix's text. */
  lemma TextsOfPrefix(b: string, items: seq<Item>, k: nat)
    requires 1 <= k <= |items| && items[0].Lit?
    ensures b + items[0].text + Texts(items[1..][..k - 1]) == b + Texts(items[..k])
  {
    assert items[1..][..k - 1] == items[1..k];
    assert items[..k] == [items[0]] + items[1..k];
    TextsAppend([items[0]], items[1..k]);
    assert Texts([items[0]]) == items[0].text + Texts([]);
  }

  /** The buffer machine and the run grouping agree: with an empty buffer the
      machine yields exactly the run grouping, and with a pending buffer it
      prepends the buffer to the first run. */
  lemma {:induction false} ConsolidateIsResolve(items: seq<Item>, buf: Option<string>, fmt: Format)
    ensures buf.None? ==> Consolidate(items, buf, fmt) == Resolve(items, fmt)
    ensures buf.Some? ==>
      var k := LeadingRun(items);
      Consolidate(items, buf, fmt) == [Block(buf.value + Texts(items[..k]), fmt)] + Resolve(items[k..], fmt)
    decreases |items|
  {
    if |items| == 0 {
      assert items[..0] == [];
      assert buf.Some? ==> buf.value + Texts(items[..0]) == buf.value;
    } else if items[0].View? {
      ConsolidateIsResolve(items[1..], None, fmt);
      assert items[..0] == [] && items[0..] == items;
      if buf.Some? {
        assert buf.value + Texts(items[..0]) == buf.value;
      }
    } else {
      var t := items[0].text;
      var b := buf.GetOr("");
      var k := LeadingRun(items);
      ConsolidateIsResolve(items[1..], Some(b + t), fmt);
      assert items[1..][k - 1..] == items[k..];
      TextsOfPrefix(b, items, k);
      assert Consolidate(items, buf, fmt) == Consolidate(items[1..], Some(b + t), fmt);
      if buf.None? {
        assert b + Texts(items[..k]) == Texts(items[..k]);
        assert Resolve(items, fmt) == [Block(Texts(items[..k]), fmt)] + Resolve(items[k..], fmt);
      }
    }
  }

  /** `#resolveNodes`: one pass over the logical list followed by the `STOP`
      sentinel, keeping a text buffer that is `undefined` between runs. */
  method ResolveNodes(items: seq<Item>, fmt: Format) returns (slots: seq<Slot>)
    ensures slots == Resolve(items, fmt)
  {
    slots := [];
    var buf: Option<string> := None;
    var i := 0;
    while i <= |items|
      invariant 0 <= i <= |items| + 1
      invariant i <= |items| ==> slots + Consolidate(items[i..], buf, fmt) == Consolidate(items, None, fmt)
      invariant i == |items| + 1 ==> slots == Consolidate(items, None, fmt)
    {
      if i < |items| && items[i].Lit? {
        buf := Some(buf.GetOr("") + items[i].text);
      } else {
        if buf.Some? {
          slots := slots + [Block(buf.value, fmt)];
          buf := None;
        }
        if i < |items| {
          slots := slots + [Ref(items[i].id)];
        }
      }
      i := i + 1;
    }
    ConsolidateIsResolve(items, None, fmt);
  }

  /** The views of the logical list, in order. */
  function ViewIds(items: seq<Item>): seq<Id>
  {
    if |items| == 0 then []
    else (if items[0].View? then [items[0].id] else []) + ViewIds(items[1..])
  }

  /** The passed-through views among rendered children, in order. */
  function SlotViews(slots: seq<Slot>): seq<Id>
  {
    if |slots| == 0 then []
    else (if slots[0].Ref? then [slots[0].id] else []) + SlotViews(slots[1..])
  }

  /** In-order concatenation of the generated blocks' texts. */
  function BlockTexts(slots: seq<Slot>): string
  {
    if |slots| == 0 then ""
    else (if slots[0].Block? then slots[0].text else "") + BlockTexts(slots[1..])
  }

  /** No two generated blocks sit next to each other. */
  predicate NoAdjacentBlocks(slots: seq<Slot>)
  {
    forall i :: 0 <= i < |slots| - 1 ==> !(slots[i].Block? && slots[i + 1].Block?)
  }

  /** Number of maximal literal runs, counted independently of the grouping:
      a literal starts a run when the entry before it is not a literal. */
  function CountRuns(items: seq<Item>, afterLiteral: bool): nat
  {
    if |items| == 0 then 0
    else (if items[0].Lit? && !afterLiteral then 1 else 0) + CountRuns(items[1..], items[0].Lit?)
  }

  /** Every view a resolution passes through comes from the logical list;
      in particular no literal is ever rendered as a child of its own. */
  lemma {:induction false} ResolveRefsAreViews(items: seq<Item>, fmt: Format)
    ensures forall i :: 0 <= i < |Resolve(items, fmt)| && Resolve(items, fmt)[i].Ref? ==>
      View(Resolve(items, fmt)[i].id) in items
    decreases |items|
  {
    if |items| > 0 {
      var r := Resolve(items, fmt);
      var k := if items[0].View? then 1 else LeadingRun(items);
      ResolveRefsAreViews(items[k..], fmt);
      assert r == r[..1] + Resolve(items[k..], fmt);
      forall i | 0 <= i < |r| && r[i].Ref?
        ensures View(r[i].id) in items
      {
        if i == 0 {
          assert items[0] == View(r[0].id);
        } else {
          assert r[i] == Resolve(items[k..], fmt)[i - 1];
          assert View(r[i].id) in items[k..];
        }
      }
    }
  }

  /** Skipping a literal-only prefix loses no views. */
  lemma {:induction false} ViewIdsSkipLiterals(items: seq<Item>, k: nat)
    requires k <= |items|
    requires forall i :: 0 <= i < k ==> items[i].Lit?
    ensures ViewIds(items) == ViewIds(items[k..])
    decreases k
  {
    if k > 0 {
      ViewIdsSkipLiterals(items[1..], k - 1);
      assert items[1..][k - 1..] == items[k..];
    }
  }

  /** Inside a literal run the count does not grow, and a view resets it. */
  lemma {:induction false} CountRunsSkipLiterals(items: seq<Item>, k: nat)
    requires 1 <= k <= |items|
    requires forall i :: 0 <= i < k ==> items[i].Lit?
    ensures CountRuns(items, true) == CountRuns(items[k..], true)
    decreases k
  {
    if k > 1 {
      CountRunsSkipLiterals(items[1..], k - 1);
      assert items[1..][k - 1..] == items[k..];
    }
  }

  lemma CountRunsAtView(items: seq<Item>)
    requires |items| == 0 || items[0].View?
    ensures CountRuns(items, true) == CountRuns(items, false)
  {
  }

  /** Every view of the logical list is rendered, in its original relative
      order, and nothing else is passed through. */
  lemma {:induction false} ResolveKeepsViews(items: seq<Item>, fmt: Format)
    ensures SlotViews(Resolve(items, fmt)) == ViewIds(items)
    decreases |items|
  {
    if |items| > 0 {
      var r := Resolve(items, fmt);
      if items[0].View? {
        ResolveKeepsViews(items[1..], fmt);
        assert r[1..] == Resolve(items[1..], fmt);
      } else {
        var k := LeadingRun(items);
        ResolveKeepsViews(items[k..], fmt);
        ViewIdsSkipLiterals(items, k);
        assert r[1..] == Resolve(items[k..], fmt);
      }
    }
  }

  /** The blocks together carry exactly the literals' text, in order. */
  lemma {:induction false} ResolveKeepsText(items: seq<Item>, fmt: Format)
    ensures BlockTexts(Resolve(items, fmt)) == Texts(items)
    decreases |items|
  {
    if |items| > 0 {
      var r := Resolve(items, fmt);
      if items[0].View? {
        ResolveKeepsText(items[1..], fmt);
        assert r[1..] == Resolve(items[1..], fmt);
      } else {
        var k := LeadingRun(items);
        ResolveKeepsText(items[k..], fmt);
        assert r[1..] == Resolve(items[k..], fmt);
        assert items == items[..k] + items[k..];
        TextsAppend(items[..k], items[k..]);
      }
    }
  }

  /** A resolution never starts with a block unless the list starts with a
      literal. */
  lemma ResolveHead(items: seq<Item>, fmt: Format)
    ensures |Resolve(items, fmt)| > 0 <==> |items| > 0
    ensures |items| > 0 ==> (Resolve(items, fmt)[0].Block? <==> items[0].Lit?)
  {
  }

  /** Two generated blocks are never adjacent: runs are maximal. */
  lemma {:induction false} ResolveNoAdjacentBlocks(items: seq<Item>, fmt: Format)
    ensures NoAdjacentBlocks(Resolve(items, fmt))
    decreases |items|
  {
    if |items| > 0 {
      var r := Resolve(items, fmt);
      if items[0].View? {
        ResolveNoAdjacentBlocks(items[1..], fmt);
        assert r == [Ref(items[0].id)] + Resolve(items[1..], fmt);
      } else {
        var k := LeadingRun(items);
        var rest := Resolve(items[k..], fmt);
        ResolveNoAdjacentBlocks(items[k..], fmt);
        ResolveHead(items[k..], fmt);
        assert r == [Block(Texts(items[..k]), fmt)] + rest;
        assert |rest| > 0 ==> rest[0].Ref?;
        forall i | 0 <= i < |r| - 1
          ensures !(r[i].Block? && r[i + 1].Block?)
        {
          if i > 0 {
            assert r[i] == rest[i - 1] && r[i + 1] == rest[i];
          }
        }
      }
    }
  }

  /** One rendered child per view plus one per maximal literal run. */
  lemma {:induction false} ResolveCount(items: seq<Item>, fmt: Format)
    ensures |Resolve(items, fmt)| == |ViewIds(items)| + CountRuns(items, false)
    decreases |items|
  {
    if |items| > 0 {
      if items[0].View? {
        ResolveCount(items[1..], fmt);
      } else {
        var k := LeadingRun(items);
        ResolveCount(items[k..], fmt);
        ViewIdsSkipLiterals(items, k);
        CountRunsSkipLiterals(items, k);
        CountRunsAtView(items[k..]);
        assert CountRuns(items, false) == 1 + CountRuns(items[1..], true);
        if k > 1 {
          CountRunsSkipLiterals(items[1..], k - 1);
          assert items[1..][k - 1..] == items[k..];
        } else {
          assert items[1..] == items[k..];
        }
      }
    }
  }

  /** A container renders nothing exactly when its logical list is empty: a run
      of empty literals still yields one (empty) block. */
  lemma ResolveEmpty(items: seq<Item>, fmt: Format)
    ensures Resolve(items, fmt) == [] <==> items == []
  {
    ResolveHead(items, fmt);
  }

  /** A non-empty all-literal list renders as a single block with the whole
      concatenated text. */
  lemma AllLiteralsOneBlock(items: seq<Item>, fmt: Format)
    requires |items| > 0
    requires forall i :: 0 <= i < |items| ==> items[i].Lit?
    ensures Resolve(items, fmt) == [Block(Texts(items), fmt)]
  {
    var k := LeadingRun(items);
    assert k == |items|;
    assert items[..k] == items;
    assert items[k..] == [];
  }

  /** The worked example from the component's documentation: `"a"`, a view
      `x`, then `"b"` render as two separate blocks around `x`. */
  lemma InterleavedExample(x: Id, fmt: Format)
    ensures Resolve([Lit("a"), View(x), Lit("b")], fmt) == [Block("a", fmt), Ref(x), Block("b", fmt)]
  {
    var items := [Lit("a"), View(x), Lit("b")];
    var tail := [Lit("b")];
    assert Texts(tail) == "b" by {
      assert Texts(tail) == "b" + Texts(tail[1..]);
      assert tail[1..] == [];
    }
    AllLiteralsOneBlock(tail, fmt);
    assert items[1..] == [View(x)] + tail;
    assert items[1..][1..] == tail;
    assert Resolve(items[1..], fmt) == [Ref(x), Block("b", fmt)];
    assert LeadingRun(items) == 1;
    assert items[..1] == [Lit("a")];
    assert Texts(items[..1]) == "a" by {
      assert Texts([Lit("a")]) == "a" + Texts([Lit("a")][1..]);
      assert [Lit("a")][1..] == [];
    }
    assert Resolve(items, fmt) == [Block(Texts(items[..1]), fmt)] + Resolve(items[1..], fmt);
  }
}
