/** Inherited text formatting: what a TextProvider stores, what it exposes to
    descendant text blocks, and how a generated text block merges that with the
    fixed defaults. */
module TextFormat {
  import opened Base

  /** The four private fields of a TextProvider; `Undefined` is an unset field. */
  datatype ProviderState = ProviderState(style: JsValue, alignment: JsValue, wrap: JsValue, font: JsValue)

  /** The formatting props a generated text block is built with (its `text`
      prop aside). */
  type Format = map<string, JsValue>

  const FormatKeys: set<string> := {"style", "alignment", "wrap", "font"}

  /** The formatting a text block gets when no provider says otherwise. */
  const Defaults: Format := map["font" := Str("default"), "alignment" := Str("left"), "wrap" := Bool(false)]

  /** `#update`, run by the constructor and by `update`: alignment and wrap
      fall back to `'left'` and `false`, while font and style are overwritten
      with whatever the new props hold, an omitted one included. */
  function ProviderUpdate(props: Props): (s: ProviderState)
    ensures s.alignment != Undefined && s.alignment != Null
    ensures s.wrap != Undefined && s.wrap != Null
    ensures "alignment" !in props ==> s.alignment == Str("left")
    ensures "wrap" !in props ==> s.wrap == Bool(false)
    ensures "font" !in props ==> s.font == Undefined
    ensures "style" !in props ==> s.style == Undefined
    ensures s.style == Get(props, "style") && s.font == Get(props, "font")
    ensures Get(props, "alignment") !in {Undefined, Null} ==> s.alignment == props["alignment"]
    ensures Get(props, "wrap") !in {Undefined, Null} ==> s.wrap == props["wrap"]
  {
    ProviderState(
      Get(props, "style"),
      Coalesce(Get(props, "alignment"), Str("left")),
      Coalesce(Get(props, "wrap"), Bool(false)),
      Get(props, "font"))
  }

  /** The `textProps` getter: exactly the fields that are not `undefined`. */
  function TextProps(s: ProviderState): (m: Format)
    ensures m.Keys <= FormatKeys
    ensures "style" in m <==> s.style != Undefined
    ensures "alignment" in m <==> s.alignment != Undefined
    ensures "wrap" in m <==> s.wrap != Undefined
    ensures "font" in m <==> s.font != Undefined
    ensures forall k :: k in m ==> m[k] != Undefined
    ensures "style" in m ==> m["style"] == s.style
    ensures "alignment" in m ==> m["alignment"] == s.alignment
    ensures "wrap" in m ==> m["wrap"] == s.wrap
    ensures "font" in m ==> m["font"] == s.font
  {
    var m0: Format := map[];
    var m1 := if s.style != Undefined then m0["style" := s.style] else m0;
    var m2 := if s.alignment != Undefined then m1["alignment" := s.alignment] else m1;
    var m3 := if s.wrap != Undefined then m2["wrap" := s.wrap] else m2;
    if s.font != Undefined then m3["font" := s.font] else m3
  }

  /** The formatting part of `#createTextNode`: the defaults, overridden by
      whatever the nearest provider (if any) defines. */
  function ResolveFormat(provider: Option<ProviderState>): (f: Format)
    ensures provider.None? ==> f == Defaults
    ensures Defaults.Keys <= f.Keys <= FormatKeys
    ensures provider.Some? ==> forall k :: k in TextProps(provider.value) ==> k in f && f[k] == TextProps(provider.value)[k]
    ensures provider.Some? ==> forall k :: k in Defaults && k !in TextProps(provider.value) ==> f[k] == Defaults[k]
  {
    match provider
    case None => Defaults
    case Some(p) => Defaults + TextProps(p)
  }

  /** A block under a provider built (or last updated) with `props`: alignment
      and wrap are whatever the props say, defaulted; font falls back to
      `'default'` only when omitted; style is present only when given. */
  lemma ProvidedFormat(props: Props)
    ensures ResolveFormat(Some(ProviderUpdate(props)))["alignment"] == Coalesce(Get(props, "alignment"), Str("left"))
    ensures ResolveFormat(Some(ProviderUpdate(props)))["wrap"] == Coalesce(Get(props, "wrap"), Bool(false))
    ensures ResolveFormat(Some(ProviderUpdate(props)))["font"]
      == if Get(props, "font") == Undefined then Str("default") else Get(props, "font")
    ensures "style" in ResolveFormat(Some(ProviderUpdate(props))) <==> Get(props, "style") != Undefined
    ensures "style" in ResolveFormat(Some(ProviderUpdate(props)))
      ==> ResolveFormat(Some(ProviderUpdate(props)))["style"] == Get(props, "style")
  {
    var s := ProviderUpdate(props);
    var f := ResolveFormat(Some(s));
    assert "alignment" in TextProps(s);
    assert "wrap" in TextProps(s);
  }

  /** A provider that sets only `alignment = "center"` yields centred,
      unwrapped text in the default font with no style. */
  lemma CenterOnly()
    ensures ResolveFormat(Some(ProviderUpdate(map["alignment" := Str("center")])))
      == map["font" := Str("default"), "alignment" := Str("center"), "wrap" := Bool(false)]
  {
    var f := ResolveFormat(Some(ProviderUpdate(map["alignment" := Str("center")])));
    ProvidedFormat(map["alignment" := Str("center")]);
    assert f.Keys == {"font", "alignment", "wrap"};
  }
}
