/** Shared vocabulary: optional values, fallible results, the JavaScript values
    that flow through property bags, and the array helpers (`indexOf`,
    `splice`) the adapter is written in terms of. */
module Base {

  datatype Option<+T> = None | Some(value: T) {
    function GetOr(default: T): T {
      match this
      case Some(v) => v
      case None => default
    }
  }

  /** The outcome of an operation that can throw; `:-` propagates the error. */
  datatype Result<+R, +E> = Ok(value: R) | Err(error: E) {
    predicate IsFailure() {
      Err?
    }

    function PropagateFailure<U>(): Result<U, E>
      requires Err?
    {
      Err(error)
    }

    function Extract(): R
      requires Ok?
    {
      value
    }
  }

  /** The JavaScript error a call on a missing method raises. */
  const TypeError: string := "TypeError"

  /** The JavaScript values a property bag can hold. Objects, functions and
      symbols stored in props are opaque to this core and carry only an
      identity. */
  datatype JsValue =
    | Undefined
    | Null
    | Bool(b: bool)
    | Num(n: int)
    | Str(s: string)
    | Obj(ref: nat)

  /** A property bag: its keys are the bag's own keys. */
  type Props = map<string, JsValue>

  /** `props[key]`: a key the bag does not own reads as `undefined`. */
  function Get(p: Props, key: string): (v: JsValue)
    ensures key !in p ==> v == Undefined
    ensures key in p ==> v == p[key]
  {
    if key in p then p[key] else Undefined
  }

  /** JavaScript `a ?? b`: falls back only on `null` and `undefined`. */
  function Coalesce(a: JsValue, b: JsValue): (r: JsValue)
    ensures a.Undefined? || a.Null? ==> r == b
    ensures !(a.Undefined? || a.Null?) ==> r == a
  {
    if a.Undefined? || a.Null? then b else a
  }

  function DigitChar(d: nat): (c: char)
    requires d < 10
    ensures '0' <= c <= '9'
  {
    "0123456789"[d]
  }

  /** Decimal notation of a natural number, most significant digit first. */
  function NatToString(n: nat): (s: string)
    ensures |s| > 0
    ensures forall i :: 0 <= i < |s| ==> '0' <= s[i] <= '9'
    ensures n < 10 <==> |s| == 1
  {
    if n < 10 then [DigitChar(n)] else NatToString(n / 10) + [DigitChar(n % 10)]
  }

  /** JavaScript `String(v)` for the values this core stores. Integral numbers
      print in decimal; a plain object prints as `[object Object]`. */
  function ToJsString(v: JsValue): (s: string)
    ensures v.Str? ==> s == v.s
    ensures v.Undefined? ==> s == "undefined"
  {
    match v
    case Undefined => "undefined"
    case Null => "null"
    case Bool(b) => if b then "true" else "false"
    case Num(n) => if n < 0 then "-" + NatToString(-n) else NatToString(n)
    case Str(s) => s
    case Obj(_) => "[object Object]"
  }

  /** `xs.indexOf(x)`, with JavaScript's -1 read as None. */
  function IndexOf<T(==)>(xs: seq<T>, x: T): (r: Option<nat>)
    ensures r.None? <==> x !in xs
    ensures r.Some? ==> r.value < |xs| && xs[r.value] == x
    ensures r.Some? ==> forall j :: 0 <= j < r.value ==> xs[j] != x
  {
    if |xs| == 0 then None
    else if xs[0] == x then Some(0)
    else match IndexOf(xs[1..], x)
      case None => None
      case Some(i) => Some(i + 1)
  }

  /** The position `Array.prototype.splice(start, …)` actually uses: a
      negative start counts from the end, and both ends are clamped. */
  function SpliceStart(len: nat, start: int): (k: nat)
    ensures k <= len
    ensures 0 <= start <= len ==> k == start
    ensures start > len ==> k == len
    ensures start < 0 ==> k == if len + start < 0 then 0 else len + start
  {
    if start < 0 then (if len + start < 0 then 0 else len + start)
    else if start > len then len
    else start
  }

  /** `xs.splice(at ?? xs.length, 0, x)`. */
  function SpliceInsert<T>(xs: seq<T>, at: Option<int>, x: T): (r: seq<T>)
    ensures |r| == |xs| + 1
    ensures at.None? ==> r == xs + [x]
    ensures exists k :: 0 <= k <= |xs| && r == xs[..k] + [x] + xs[k..]
    ensures at.Some? && 0 <= at.value <= |xs| ==> r[at.value] == x
    ensures at.Some? && 0 <= at.value <= |xs| ==> r[..at.value] == xs[..at.value] && r[at.value + 1..] == xs[at.value..]
  {
    var k := SpliceStart(|xs|, at.GetOr(|xs|));
    assert xs == xs[..k] + xs[k..];
    xs[..k] + [x] + xs[k..]
  }

  /** The sequence without its element at position `i`. */
  function RemoveAt<T>(xs: seq<T>, i: nat): (r: seq<T>)
    requires i < |xs|
    ensures |r| == |xs| - 1
    ensures forall j :: 0 <= j < i ==> r[j] == xs[j]
    ensures forall j :: i <= j < |r| ==> r[j] == xs[j + 1]
  {
    xs[..i] + xs[i + 1..]
  }

  /** The sequence without the first occurrence of `x` (unchanged when absent). */
  function RemoveFirst<T(==)>(xs: seq<T>, x: T): (r: seq<T>)
    ensures x !in xs ==> r == xs
    ensures x in xs ==> |r| == |xs| - 1
    ensures x in xs ==> exists k :: 0 <= k < |xs| && xs[k] == x && r == xs[..k] + xs[k + 1..]
  {
    match IndexOf(xs, x)
    case None => xs
    case Some(i) => RemoveAt(xs, i)
  }

  /** `splice` inserts exactly one more `x` and loses nothing. */
  lemma SpliceInsertCounts<T>(xs: seq<T>, at: Option<int>, x: T)
    ensures multiset(SpliceInsert(xs, at, x)) == multiset(xs) + multiset{x}
  {
    var k :| 0 <= k <= |xs| && SpliceInsert(xs, at, x) == xs[..k] + [x] + xs[k..];
    assert xs == xs[..k] + xs[k..];
  }

  /** Removing the first occurrence drops exactly one `x` when there is one. */
  lemma RemoveFirstCounts<T>(xs: seq<T>, x: T)
    ensures multiset(RemoveFirst(xs, x)) == multiset(xs) - multiset{x}
  {
    if x in xs {
      var k :| 0 <= k < |xs| && xs[k] == x && RemoveFirst(xs, x) == xs[..k] + xs[k + 1..];
      assert xs == xs[..k] + [x] + xs[k + 1..];
    }
  }

  /** Taking an element out and splicing it back in permutes the list. */
  lemma MoveKeepsMultiset<T>(xs: seq<T>, at: Option<int>, x: T)
    requires x in xs
    ensures multiset(SpliceInsert(RemoveFirst(xs, x), at, x)) == multiset(xs)
  {
    RemoveFirstCounts(xs, x);
    SpliceInsertCounts(RemoveFirst(xs, x), at, x);
  }
}
