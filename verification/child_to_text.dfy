/** Conversion of virtual-tree children to the plain text they would show,
    used when a subtree has to be flattened into one string. */
module ChildText {
  import opened Base

  /** The values a virtual-tree child can be. */
  datatype Child =
    | NullChild
    | UndefinedChild
    | BoolChild(b: bool)
    | NumberChild(n: int)
    | SymbolChild(description: string)
    | StringChild(s: string)
    | Element(elementType: ElementType)

  /** What an element's `type` field holds: a tag name, a function component
      (represented by the child it returns when called with empty props), or
      nothing at all (any other object, which has no `type`). */
  datatype ElementType =
    | Tag(name: string)
    | Component(rendered: Child)
    | Untyped

  predicate IsFalsyChild(c: Child) {
    c.NullChild? || c.UndefinedChild? || c == BoolChild(false)
  }

  predicate IsLineBreak(c: Child) {
    c.Element? && c.elementType.Tag? && c.elementType.name in {"br", "wr-br"}
  }

  /** `childToText`. */
  function ChildToText(c: Child): (r: string)
    ensures IsFalsyChild(c) ==> r == ""
    ensures c.StringChild? ==> r == c.s
    ensures c == BoolChild(true) ==> r == "true"
    ensures c.NumberChild? ==> r == ToJsString(Num(c.n))
    ensures IsLineBreak(c) ==> r == "\n"
    ensures c.SymbolChild? ==> r == "Symbol(" + c.description + ")"
    ensures c.Element? && c.elementType.Tag? && !IsLineBreak(c) ==> r == "<" + c.elementType.name + " />"
    ensures c.Element? && c.elementType.Untyped? ==> r == "<undefined />"
    ensures c.Element? && c.elementType.Component? ==> r == ChildToText(c.elementType.rendered)
  {
    match c
    case NullChild => ""
    case UndefinedChild => ""
    case BoolChild(b) => if b then "true" else ""
    case NumberChild(n) => ToJsString(Num(n))
    case SymbolChild(d) => "Symbol(" + d + ")"
    case StringChild(s) => s
    case Element(t) =>
      match t
      case Tag(name) => if name == "br" || name == "wr-br" then "\n" else "<" + name + " />"
      case Component(rendered) => ChildToText(rendered)
      case Untyped => "<undefined />"
  }

  /** The argument of `childrenToText`: an array of children or one child. */
  datatype Children = ChildArray(items: seq<Child>) | Single(child: Child)

  /** `children.map(childToText).join('')`. */
  function JoinTexts(items: seq<Child>): string
  {
    if |items| == 0 then "" else ChildToText(items[0]) + JoinTexts(items[1..])
  }

  /** `childrenToText`. */
  function ChildrenToText(children: Children): (r: string)
    ensures children.ChildArray? && |children.items| == 0 ==> r == ""
    ensures children.Single? ==> r == ChildToText(children.child)
  {
    match children
    case ChildArray(items) => JoinTexts(items)
    case Single(c) => ChildToText(c)
  }

  /** Joining distributes over array concatenation. */
  lemma {:induction false} JoinAppend(a: seq<Child>, b: seq<Child>)
    ensures JoinTexts(a + b) == JoinTexts(a) + JoinTexts(b)
    decreases |a|
  {
    if |a| == 0 {
      assert a + b == b;
    } else {
      assert (a + b)[1..] == a[1..] + b;
      JoinAppend(a[1..], b);
    }
  }

  /** An array holding one child reads exactly like that child on its own. */
  lemma ArrayOfOne(c: Child)
    ensures ChildrenToText(ChildArray([c])) == ChildrenToText(Single(c))
  {
    assert [c][1..] == [];
    assert JoinTexts([c]) == ChildToText(c) + JoinTexts([]);
  }

  /** Empty children (`null`, `undefined`, `false`) contribute nothing anywhere
      in an array. */
  lemma {:induction false} FalsyChildrenVanish(a: seq<Child>, c: Child, b: seq<Child>)
    requires IsFalsyChild(c)
    ensures ChildrenToText(ChildArray(a + [c] + b)) == ChildrenToText(ChildArray(a + b))
  {
    JoinAppend(a + [c], b);
    JoinAppend(a, [c]);
    JoinAppend(a, b);
    assert [c][1..] == [];
  }

  /** The text of an array is the in-order concatenation of each element's text. */
  lemma {:induction false} JoinIsConcatenation(items: seq<Child>, i: nat)
    requires i <= |items|
    ensures JoinTexts(items) == JoinTexts(items[..i]) + JoinTexts(items[i..])
  {
    assert items == items[..i] + items[i..];
    JoinAppend(items[..i], items[i..]);
  }
}
