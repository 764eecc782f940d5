/** Values of the JavaScript world that the renderer handles: element
    descriptors, their props objects, and the abstract handles of render-target
    (DOM) nodes.  A props object is an ordered list of entries, in the order
    `Object.keys` enumerates them, because the order of the DOM operations
    issued by `updateDom` follows it.  For keys that are not integer-like
    (`"0"`, `"1"`, ...) that order is insertion order. */
module Values {

  datatype Option<+T> = None | Some(value: T)

  /** Abstract handle of a DOM node. */
  type NodeId = nat

  /** The `type` of an element: a tag name (`"TEXT_ELEMENT"` for text), or a
      function component, identified by the identity of its function. */
  datatype ElemType = Tag(name: string) | Component(id: nat)

  /** A prop value.  Event handlers are function values compared by identity;
      `Kids` is the array stored under the `children` key. */
  datatype Value =
    | Str(s: string)
    | Num(n: int)
    | Bool(b: bool)
    | Handler(id: nat)
    | Kids(elements: seq<Element>)

  datatype Prop = Prop(key: string, value: Value)

  type Props = seq<Prop>

  /** A JSX element descriptor `{ key, type, props }`. */
  datatype Element = Element(key: string, ty: ElemType, props: Props)

  const CHILDREN: string := "children"
  const TEXT_ELEMENT: string := "TEXT_ELEMENT"

  /** `props[k]`: the value of the first entry with key `k`, or None when the
      key is absent (JavaScript's `undefined`). */
  function Lookup(p: Props, k: string): Option<Value>
  {
    if p == [] then None
    else if p[0].key == k then Some(p[0].value)
    else Lookup(p[1..], k)
  }

  /** `Object.keys(props)`, in enumeration order. */
  function Keys(p: Props): (ks: seq<string>)
    ensures |ks| == |p|
    ensures forall i :: 0 <= i < |p| ==> ks[i] == p[i].key
  {
    seq(|p|, i requires 0 <= i < |p| => p[i].key)
  }

  /** `k in props`: a key is present exactly when some entry carries it. */
  lemma {:induction false} LookupPresent(p: Props, k: string)
    ensures Lookup(p, k).Some? <==> k in Keys(p)
  {
    if p != [] {
      LookupPresent(p[1..], k);
      assert Keys(p) == [p[0].key] + Keys(p[1..]);
    }
  }

  /** The value Lookup returns is the value of an entry with that key. */
  lemma {:induction false} LookupFindsEntry(p: Props, k: string)
    requires Lookup(p, k).Some?
    ensures exists i :: 0 <= i < |p| && p[i] == Prop(k, Lookup(p, k).value)
  {
    if p[0].key != k {
      LookupFindsEntry(p[1..], k);
      var i :| 0 <= i < |p[1..]| && p[1..][i] == Prop(k, Lookup(p[1..], k).value);
      assert p[i + 1] == p[1..][i];
    } else {
      assert p[0] == Prop(k, Lookup(p, k).value);
    }
  }

  /** `props.children` when it holds an array of elements. */
  function ChildList(p: Props): Option<seq<Element>>
  {
    match Lookup(p, CHILDREN)
    case Some(Kids(es)) => Some(es)
    case _ => None
  }

  /** An element is well formed when its props carry a `children` array and
      every element in a `children` entry is well formed in turn; this is what
      `reconcileChildren` relies on when it reads `fiber.props.children`. */
  predicate WFElement(e: Element)
    decreases e
  {
    && ChildList(e.props).Some?
    && forall i, j ::
         0 <= i < |e.props| && e.props[i].key == CHILDREN && e.props[i].value.Kids?
         && 0 <= j < |e.props[i].value.elements|
         ==> WFElement(e.props[i].value.elements[j])
  }

  /** The elements a component can return: built by `createElement`, so
      carrying a `children` list. */
  type WellFormedElement = e: Element | WFElement(e)
    witness Element("", Tag("div"), [Prop(CHILDREN, Kids([]))])

  /** Well-formed props: the same condition on a props object alone. */
  predicate WFProps(p: Props)
  {
    && ChildList(p).Some?
    && forall i, j ::
         0 <= i < |p| && p[i].key == CHILDREN && p[i].value.Kids?
         && 0 <= j < |p[i].value.elements|
         ==> WFElement(p[i].value.elements[j])
  }

  /** The children of well-formed props are well-formed elements. */
  lemma ChildrenWellFormed(p: Props)
    requires WFProps(p)
    ensures forall j :: 0 <= j < |ChildList(p).value| ==> WFElement(ChildList(p).value[j])
  {
    LookupFindsEntry(p, CHILDREN);
  }
}
