/** The element builders and the props diff of `createElement.tsx`.  The DOM is
    abstract: `updateDom` and `createDom` are described by the list of DOM
    calls they issue, in order. */
module Elements {
  import opened Values
  import opened Utils

  /** One call into the DOM.  `RemoveChild(receiver, arg)` is
      `receiver.removeChild(arg)`; its argument may be `null`. */
  datatype DomOp =
    | CreateElementNode(node: NodeId, tag: string)
    | CreateTextNode(node: NodeId)
    | AppendChild(parent: NodeId, child: NodeId)
    | RemoveChild(receiver: NodeId, arg: Option<NodeId>)
    | AddEventListener(node: NodeId, event: string, handler: Value)
    | RemoveEventListener(node: NodeId, event: string, handler: Value)
    | SetProperty(node: NodeId, key: string, value: Value)

  /** A DOM call that touches only the given node and does not link it to
      any other node. */
  predicate TouchesOnly(op: DomOp, node: NodeId)
  {
    !op.AppendChild? && !op.RemoveChild? && op.node == node
  }

  /* ---------------- element builders ---------------- */

  /** A child argument of `createElement`: an element (an object), or a
      primitive value that is wrapped into a text element. */
  datatype Child = ElementChild(element: Element) | TextChild(text: Value)

  /** No child argument is an array: an array is an object and would be kept
      as it is, which the `Child` type cannot express. */
  predicate NoArrayChildren(children: seq<Child>)
  {
    forall i :: 0 <= i < |children| && children[i].TextChild? ==> !children[i].text.Kids?
  }

  predicate UniqueKeys(p: Props)
  {
    forall i, j :: 0 <= i < j < |p| ==> p[i].key != p[j].key
  }

  /** `createTextElement(text)`. */
  function CreateTextElement(text: Value): (e: Element)
    ensures e.key == "" && e.ty == Tag(TEXT_ELEMENT)
    ensures Lookup(e.props, "nodeValue") == Some(text)
    ensures ChildList(e.props) == Some([])
    ensures WFElement(e)
  {
    var props := [Prop("nodeValue", text), Prop(CHILDREN, Kids([]))];
    assert "nodeValue"[0] != CHILDREN[0];
    assert props[1..] == [Prop(CHILDREN, Kids([]))];
    assert Lookup(props[1..], CHILDREN) == Some(Kids([]));
    assert Lookup(props, CHILDREN) == Some(Kids([]));
    Element("", Tag(TEXT_ELEMENT), props)
  }

  /** What `createElement` stores for one child argument. */
  function WrapChild(c: Child): Element
  {
    match c
    case ElementChild(e) => e
    case TextChild(t) => CreateTextElement(t)
  }

  /** `{ ...props, k: v }`: an existing entry keeps its position and takes the
      new value; otherwise the entry is added at the end. */
  function SetProp(p: Props, k: string, v: Value): (r: Props)
    ensures Lookup(r, k) == Some(v)
    ensures forall j :: j != k ==> Lookup(r, j) == Lookup(p, j)
    ensures Keys(r) == if k in Keys(p) then Keys(p) else Keys(p) + [k]
    ensures UniqueKeys(p) ==> UniqueKeys(r)
  {
    if p == [] then [Prop(k, v)]
    else if p[0].key == k then
      SetPropHere(p, k, v);
      [Prop(k, v)] + p[1..]
    else
      var rest := SetProp(p[1..], k, v);
      SetPropLater(p, k, v, rest);
      [p[0]] + rest
  }

  /** The keys of a non-empty props object: its first key, then the rest's. */
  lemma KeysCons(p: Props)
    requires p != []
    ensures Keys(p) == [p[0].key] + Keys(p[1..])
  {
    var a := Keys(p);
    var b := [p[0].key] + Keys(p[1..]);
    assert |a| == |b|;
    forall i | 0 <= i < |a| ensures a[i] == b[i] {
      if i > 0 {
        assert b[i] == Keys(p[1..])[i - 1] == p[1..][i - 1].key;
      }
    }
  }

  /** A non-empty props object has unique keys exactly when its rest does
      and its first key is not among the rest's. */
  lemma UniqueKeysCons(p: Props)
    requires p != []
    ensures UniqueKeys(p) <==> UniqueKeys(p[1..]) && p[0].key !in Keys(p[1..])
  {
    var q := p[1..];
    if UniqueKeys(p) {
      forall i, j | 0 <= i < j < |q| ensures q[i].key != q[j].key {
        assert q[i] == p[i + 1] && q[j] == p[j + 1];
      }
      forall t | 0 <= t < |q| ensures Keys(q)[t] != p[0].key {
        assert q[t] == p[t + 1];
      }
    }
    if UniqueKeys(q) && p[0].key !in Keys(q) {
      forall i, j | 0 <= i < j < |p| ensures p[i].key != p[j].key {
        assert p[j] == q[j - 1];
        if i == 0 {
          assert Keys(q)[j - 1] == p[j].key;
        } else {
          assert p[i] == q[i - 1];
        }
      }
    }
  }

  /** Setting the key of the first entry replaces that entry. */
  lemma SetPropHere(p: Props, k: string, v: Value)
    requires p != [] && p[0].key == k
    ensures var r := [Prop(k, v)] + p[1..];
            && Lookup(r, k) == Some(v)
            && (forall j :: j != k ==> Lookup(r, j) == Lookup(p, j))
            && Keys(r) == Keys(p) && k in Keys(p)
            && (UniqueKeys(p) ==> UniqueKeys(r))
  {
    var r := [Prop(k, v)] + p[1..];
    assert r[1..] == p[1..];
    assert Keys(r) == Keys(p) && k in Keys(p) by {
      KeysCons(p);
      KeysCons(r);
      assert Keys(p)[0] == k;
    }
    assert UniqueKeys(p) ==> UniqueKeys(r) by {
      UniqueKeysCons(p);
      UniqueKeysCons(r);
    }
  }

  /** Setting a key the first entry does not carry sets it in the rest. */
  lemma SetPropLater(p: Props, k: string, v: Value, rest: Props)
    requires p != [] && p[0].key != k
    requires Lookup(rest, k) == Some(v)
    requires forall j :: j != k ==> Lookup(rest, j) == Lookup(p[1..], j)
    requires Keys(rest) == if k in Keys(p[1..]) then Keys(p[1..]) else Keys(p[1..]) + [k]
    requires UniqueKeys(p[1..]) ==> UniqueKeys(rest)
    ensures var r := [p[0]] + rest;
            && Lookup(r, k) == Some(v)
            && (forall j :: j != k ==> Lookup(r, j) == Lookup(p, j))
            && Keys(r) == (if k in Keys(p) then Keys(p) else Keys(p) + [k])
            && (UniqueKeys(p) ==> UniqueKeys(r))
  {
    var r := [p[0]] + rest;
    assert r != [] && r[0] == p[0] && r[1..] == rest;
    assert Lookup(r, k) == Some(v) && forall j :: j != k ==> Lookup(r, j) == Lookup(p, j) by {
      assert Lookup(r, k) == Lookup(rest, k);
      forall j | j != k ensures Lookup(r, j) == Lookup(p, j) {
        if j != p[0].key {
          assert Lookup(r, j) == Lookup(rest, j);
          assert Lookup(p, j) == Lookup(p[1..], j);
        }
      }
    }
    assert Keys(r) == (if k in Keys(p) then Keys(p) else Keys(p) + [k])
        && (k in Keys(p) <==> k in Keys(p[1..])) by {
      SetPropLaterKeys(p, k, rest, r);
    }
    assert UniqueKeys(p) ==> UniqueKeys(r) by {
      UniqueKeysCons(p);
      UniqueKeysCons(r);
    }
  }

  lemma SetPropLaterKeys(p: Props, k: string, rest: Props, r: Props)
    requires p != [] && p[0].key != k && r != [] && r[0] == p[0] && r[1..] == rest
    requires Keys(rest) == if k in Keys(p[1..]) then Keys(p[1..]) else Keys(p[1..]) + [k]
    ensures Keys(r) == (if k in Keys(p) then Keys(p) else Keys(p) + [k])
    ensures k in Keys(p) <==> k in Keys(p[1..])
  {
    KeysCons(p);
    KeysCons(r);
    var x := [p[0].key];
    var q := Keys(p[1..]);
    assert k in Keys(p) <==> k in q;
    if k !in q {
      assert x + (q + [k]) == (x + q) + [k];
    }
  }

  /** `createElement(type, props, ...children)`. */
  function CreateElement(ty: ElemType, props: Props, children: seq<Child>): (e: Element)
    requires NoArrayChildren(children)
    ensures e.key == "" && e.ty == ty
    ensures ChildList(e.props).Some?
    ensures |ChildList(e.props).value| == |children|
    ensures forall i :: 0 <= i < |children| ==>
              ChildList(e.props).value[i]
              == (if children[i].ElementChild? then children[i].element
                  else CreateTextElement(children[i].text))
    ensures forall k :: k != CHILDREN ==> Lookup(e.props, k) == Lookup(props, k)
  {
    var kids := seq(|children|, i requires 0 <= i < |children| => WrapChild(children[i]));
    Element("", ty, SetProp(props, CHILDREN, Kids(kids)))
  }

  /** With distinct keys, Lookup returns the value of the one entry with
      that key. */
  lemma {:induction false} LookupUnique(p: Props, i: nat)
    requires UniqueKeys(p) && i < |p|
    ensures Lookup(p, p[i].key) == Some(p[i].value)
  {
    if i > 0 {
      assert p[0].key != p[i].key;
      assert p[1..][i - 1] == p[i];
      LookupUnique(p[1..], i - 1);
    }
  }

  /** `createElement` builds a well-formed element from well-formed element
      children and a props object (whose keys are distinct, as in any
      JavaScript object). */
  lemma CreateElementWellFormed(ty: ElemType, props: Props, children: seq<Child>)
    requires NoArrayChildren(children) && UniqueKeys(props)
    requires forall i :: 0 <= i < |children| && children[i].ElementChild? ==> WFElement(children[i].element)
    ensures WFElement(CreateElement(ty, props, children))
  {
    var e := CreateElement(ty, props, children);
    var cs := ChildList(e.props).value;
    assert UniqueKeys(e.props);
    forall i, j | 0 <= i < |e.props| && e.props[i].key == CHILDREN && e.props[i].value.Kids?
                  && 0 <= j < |e.props[i].value.elements|
      ensures WFElement(e.props[i].value.elements[j])
    {
      LookupUnique(e.props, i);
      assert e.props[i].value.elements == cs;
    }
  }

  /* ---------------- updateDom ---------------- */

  predicate IsUpper(c: char)
  {
    'A' <= c <= 'Z'
  }

  /** ASCII lower-casing, standing for `String.prototype.toLowerCase`: the
      result has no upper-case letter left, every other character is kept,
      and an upper-case letter becomes the lower-case letter at the same
      position of the alphabet. */
  function ToLower(s: string): (r: string)
    ensures |r| == |s|
    ensures forall i :: 0 <= i < |r| ==> !IsUpper(r[i])
    ensures forall i :: 0 <= i < |s| && !IsUpper(s[i]) ==> r[i] == s[i]
    ensures forall i :: 0 <= i < |s| && IsUpper(s[i]) ==>
              'a' <= r[i] <= 'z' && r[i] as int - 'a' as int == s[i] as int - 'A' as int
  {
    seq(|s|, i requires 0 <= i < |s| =>
      if IsUpper(s[i]) then (s[i] as int + 32) as char else s[i])
  }

  /** Lower-casing twice is lower-casing once. */
  lemma ToLowerIdempotent(s: string)
    ensures ToLower(ToLower(s)) == ToLower(s)
  {
  }

  /** Lower-casing works character by character, so it splits over a
      concatenation. */
  lemma ToLowerConcat(a: string, b: string)
    ensures ToLower(a + b) == ToLower(a) + ToLower(b)
  {
    assert forall i :: 0 <= i < |a + b| ==> ToLower(a + b)[i] == (ToLower(a) + ToLower(b))[i];
  }

  /** `key.toLowerCase().substring(2)`: the lower-cased key is the
      lower-cased first two characters followed by the event name, which for
      an `on*` key means `"on"` followed by it; a key shorter than two
      characters gives the empty name. */
  function EventName(key: string): (r: string)
    ensures |key| >= 2 ==> |r| == |key| - 2 && ToLower(key) == ToLower(key[..2]) + r
    ensures IsEvent(key) ==> ToLower(key) == "on" + r
    ensures |key| < 2 ==> r == ""
    ensures forall i :: 0 <= i < |r| ==> !IsUpper(r[i])
  {
    var low := ToLower(key);
    if |low| < 2 then "" else
      assert key == key[..2] + key[2..];
      ToLowerConcat(key[..2], key[2..]);
      assert ToLower(key[..2]) == low[..2];
      low[2..]
  }

  /** The four `Object.keys(...).filter(...).forEach(...)` passes of
      `updateDom`, in the order they run. */
  datatype Phase = RemoveEvents | ClearGone | AddEvents | SetProperties

  /** The `filter` conditions of each pass. */
  predicate Selected(ph: Phase, oldProps: Props, newProps: Props, key: string)
  {
    match ph
    case RemoveEvents => IsEvent(key) && (Lookup(newProps, key).None? || IsNew(oldProps, newProps, key))
    case ClearGone => IsProperty(key) && IsGone(key, oldProps)
    case AddEvents => IsEvent(key) && IsNew(oldProps, newProps, key)
    case SetProperties => IsProperty(key) && IsNew(oldProps, newProps, key)
  }

  /** The `forEach` body of each pass for one selected key.  The body of the
      "remove old prop" pass is a comparison `dom[key] == ""`, so it issues
      nothing.  The other passes read the key they were given from the object
      they enumerate, so the value is always present. */
  function Effect(ph: Phase, node: NodeId, oldProps: Props, newProps: Props, key: string): seq<DomOp>
  {
    match ph
    case RemoveEvents =>
      (match Lookup(oldProps, key)
       case Some(h) => [RemoveEventListener(node, EventName(key), h)]
       case None => [])
    case ClearGone => []
    case AddEvents =>
      (match Lookup(newProps, key)
       case Some(h) => [AddEventListener(node, EventName(key), h)]
       case None => [])
    case SetProperties =>
      (match Lookup(newProps, key)
       case Some(v) => [SetProperty(node, key, v)]
       case None => [])
  }

  function KeyOps(ph: Phase, node: NodeId, oldProps: Props, newProps: Props, key: string): seq<DomOp>
  {
    if Selected(ph, oldProps, newProps, key) then Effect(ph, node, oldProps, newProps, key) else []
  }

  /** One pass over the keys `ks`, in order. */
  function PhaseOps(ph: Phase, node: NodeId, oldProps: Props, newProps: Props, ks: seq<string>): seq<DomOp>
    decreases |ks|
  {
    if ks == [] then []
    else PhaseOps(ph, node, oldProps, newProps, ks[..|ks| - 1])
         + KeyOps(ph, node, oldProps, newProps, ks[|ks| - 1])
  }

  /** The keys a pass enumerates: the old props for the two removal passes,
      the new props for the two addition passes. */
  function PhaseKeys(ph: Phase, oldProps: Props, newProps: Props): seq<string>
  {
    if ph == RemoveEvents || ph == ClearGone then Keys(oldProps) else Keys(newProps)
  }

  function PassOps(ph: Phase, node: NodeId, oldProps: Props, newProps: Props): seq<DomOp>
  {
    PhaseOps(ph, node, oldProps, newProps, PhaseKeys(ph, oldProps, newProps))
  }

  /** `updateDom(dom, oldProps, newProps)`: the DOM calls it issues on `dom`. */
  function UpdateDomOps(node: NodeId, oldProps: Props, newProps: Props): seq<DomOp>
  {
    PassOps(RemoveEvents, node, oldProps, newProps)
    + PassOps(ClearGone, node, oldProps, newProps)
    + PassOps(AddEvents, node, oldProps, newProps)
    + PassOps(SetProperties, node, oldProps, newProps)
  }

  /** `createDom(fiber)` for a host fiber with tag `tag`: a fresh node, then
      `updateDom(dom, {}, fiber.props)` applied to it. */
  function CreateDomOps(node: NodeId, tag: string, props: Props): seq<DomOp>
  {
    [if tag == TEXT_ELEMENT then CreateTextNode(node) else CreateElementNode(node, tag)]
    + UpdateDomOps(node, [], props)
  }

  /** A call the render phase may make: it neither attaches nor detaches a
      node, and the node it works on was allocated at or after `lo`. */
  predicate OnFreshNode(op: DomOp, lo: NodeId)
  {
    !op.AppendChild? && !op.RemoveChild? && op.node >= lo
  }

  /* ---------------- properties of updateDom ---------------- */

  /** A pass issues an operation exactly when one of its keys does. */
  lemma {:induction false} PhaseOpsMember(ph: Phase, node: NodeId, oldProps: Props, newProps: Props,
                                          ks: seq<string>, op: DomOp)
    ensures op in PhaseOps(ph, node, oldProps, newProps, ks)
            <==> exists k :: k in ks && op in KeyOps(ph, node, oldProps, newProps, k)
    decreases |ks|
  {
    if ks != [] {
      var init, last := ks[..|ks| - 1], ks[|ks| - 1];
      PhaseOpsMember(ph, node, oldProps, newProps, init, op);
      assert ks == init + [last];
      if op in KeyOps(ph, node, oldProps, newProps, last) {
        assert last in ks;
      }
      if exists k :: k in init && op in KeyOps(ph, node, oldProps, newProps, k) {
        var k :| k in init && op in KeyOps(ph, node, oldProps, newProps, k);
        assert k in ks;
      }
    }
  }

  /** A pass whose keys select nothing issues nothing. */
  lemma {:induction false} PhaseOpsEmpty(ph: Phase, node: NodeId, oldProps: Props, newProps: Props,
                                         ks: seq<string>)
    requires forall k :: k in ks ==> !Selected(ph, oldProps, newProps, k) || ph == ClearGone
    ensures PhaseOps(ph, node, oldProps, newProps, ks) == []
    decreases |ks|
  {
    if ks != [] {
      assert ks[|ks| - 1] in ks;
      assert forall k :: k in ks[..|ks| - 1] ==> k in ks;
      PhaseOpsEmpty(ph, node, oldProps, newProps, ks[..|ks| - 1]);
    }
  }

  /** The "remove old prop" pass changes nothing: its filter keeps no key of
      `oldProps`, and its body would assign nothing anyway. */
  lemma ClearGonePassIssuesNothing(node: NodeId, oldProps: Props, newProps: Props)
    ensures forall k :: k in Keys(oldProps) ==> !Selected(ClearGone, oldProps, newProps, k)
    ensures PassOps(ClearGone, node, oldProps, newProps) == []
  {
    forall k | k in Keys(oldProps)
      ensures !Selected(ClearGone, oldProps, newProps, k)
    {
      IsGoneNeverOnOwnKeys(oldProps, k);
    }
    PhaseOpsEmpty(ClearGone, node, oldProps, newProps, Keys(oldProps));
  }

  /** Every operation of a pass is of the pass's own kind and targets `node`. */
  lemma {:induction false} PhaseOpsKinds(ph: Phase, node: NodeId, oldProps: Props, newProps: Props,
                                         ks: seq<string>)
    ensures forall op :: op in PhaseOps(ph, node, oldProps, newProps, ks) ==> PassKind(ph, node, op)
    decreases |ks|
  {
    if ks != [] {
      PhaseOpsKinds(ph, node, oldProps, newProps, ks[..|ks| - 1]);
    }
  }

  /** The kind of operation each pass issues. */
  predicate PassKind(ph: Phase, node: NodeId, op: DomOp)
  {
    && TouchesOnly(op, node)
    && match ph
       case RemoveEvents => op.RemoveEventListener?
       case ClearGone => false
       case AddEvents => op.AddEventListener?
       case SetProperties => op.SetProperty?
  }

  lemma PassKinds(node: NodeId, oldProps: Props, newProps: Props)
    ensures forall ph, op :: op in PassOps(ph, node, oldProps, newProps) ==> PassKind(ph, node, op)
  {
    forall ph ensures forall op :: op in PassOps(ph, node, oldProps, newProps) ==> PassKind(ph, node, op) {
      PhaseOpsKinds(ph, node, oldProps, newProps, PhaseKeys(ph, oldProps, newProps));
    }
  }

  /** An operation of `updateDom` comes from the pass of its kind. */
  lemma UpdateDomMember(node: NodeId, oldProps: Props, newProps: Props, op: DomOp)
    ensures op in UpdateDomOps(node, oldProps, newProps) <==>
            || (op.RemoveEventListener? && op in PassOps(RemoveEvents, node, oldProps, newProps))
            || (op.AddEventListener? && op in PassOps(AddEvents, node, oldProps, newProps))
            || (op.SetProperty? && op in PassOps(SetProperties, node, oldProps, newProps))
  {
    PassKinds(node, oldProps, newProps);
    assert op !in PassOps(ClearGone, node, oldProps, newProps);
  }

  /** Every call `updateDom` issues targets `dom` and none links nodes. */
  lemma UpdateDomTouchesOnlyNode(node: NodeId, oldProps: Props, newProps: Props)
    ensures forall op :: op in UpdateDomOps(node, oldProps, newProps) ==> TouchesOnly(op, node)
  {
    forall op | op in UpdateDomOps(node, oldProps, newProps) ensures TouchesOnly(op, node) {
      UpdateDomMember(node, oldProps, newProps, op);
      PassKinds(node, oldProps, newProps);
    }
  }

  /** A list made of removals followed by non-removals has every removal
      before every non-removal. */
  lemma RemovalsFirst(r: seq<DomOp>, rest: seq<DomOp>)
    requires forall op :: op in r ==> op.RemoveEventListener?
    requires forall op :: op in rest ==> !op.RemoveEventListener?
    ensures forall i, j :: 0 <= i < j < |r + rest| && (r + rest)[j].RemoveEventListener?
                           ==> (r + rest)[i].RemoveEventListener?
  {
    var ops := r + rest;
    forall j | |r| <= j < |ops| ensures !ops[j].RemoveEventListener? {
      assert ops[j] == rest[j - |r|];
      assert rest[j - |r|] in rest;
    }
    forall i | 0 <= i < |r| ensures ops[i].RemoveEventListener? {
      assert ops[i] == r[i];
      assert r[i] in r;
    }
  }

  /** All listener removals come before all additions. */
  lemma RemovalsBeforeAdditions(node: NodeId, oldProps: Props, newProps: Props)
    ensures var ops := UpdateDomOps(node, oldProps, newProps);
            forall i, j :: 0 <= i < j < |ops| && ops[j].RemoveEventListener? ==> ops[i].RemoveEventListener?
  {
    var r: seq<DomOp> := PassOps(RemoveEvents, node, oldProps, newProps);
    var rest: seq<DomOp> := PassOps(AddEvents, node, oldProps, newProps) + PassOps(SetProperties, node, oldProps, newProps);
    UpdateDomOpsSplit(node, oldProps, newProps);
    assert forall i: int, j: int :: 0 <= i < j < |r + rest| && (r + rest)[j].RemoveEventListener? ==> (r + rest)[i].RemoveEventListener? by {
      RemovalsOnly(node, oldProps, newProps);
      LastPassesKinds(node, oldProps, newProps);
      RemovalsFirst(r, rest);
    }
  }

  /** `updateDom`'s calls are the listener removals followed by the calls of
      the last two passes: the second pass issues none. */
  lemma UpdateDomOpsSplit(node: NodeId, oldProps: Props, newProps: Props)
    ensures UpdateDomOps(node, oldProps, newProps)
            == PassOps(RemoveEvents, node, oldProps, newProps)
               + (PassOps(AddEvents, node, oldProps, newProps) + PassOps(SetProperties, node, oldProps, newProps))
  {
    ClearGonePassIssuesNothing(node, oldProps, newProps);
  }

  /** The first pass issues only listener removals. */
  lemma RemovalsOnly(node: NodeId, oldProps: Props, newProps: Props)
    ensures forall op :: op in PassOps(RemoveEvents, node, oldProps, newProps) ==> op.RemoveEventListener?
  {
    PhaseOpsKinds(RemoveEvents, node, oldProps, newProps, PhaseKeys(RemoveEvents, oldProps, newProps));
    forall op | op in PassOps(RemoveEvents, node, oldProps, newProps) ensures op.RemoveEventListener? {
      assert PassKind(RemoveEvents, node, op);
    }
  }

  /** The last two passes only add listeners to, or set properties of,
      their node. */
  lemma LastPassesKinds(node: NodeId, oldProps: Props, newProps: Props)
    ensures var rest := PassOps(AddEvents, node, oldProps, newProps) + PassOps(SetProperties, node, oldProps, newProps);
            forall op: DomOp :: op in rest ==> TouchesOnly(op, node) && (op.AddEventListener? || op.SetProperty?)
  {
    var a := PassOps(AddEvents, node, oldProps, newProps);
    var sp := PassOps(SetProperties, node, oldProps, newProps);
    PhaseOpsKinds(AddEvents, node, oldProps, newProps, PhaseKeys(AddEvents, oldProps, newProps));
    PhaseOpsKinds(SetProperties, node, oldProps, newProps, PhaseKeys(SetProperties, oldProps, newProps));
    forall op: DomOp | op in a + sp ensures TouchesOnly(op, node) && (op.AddEventListener? || op.SetProperty?) {
      if op in a {
        assert PassKind(AddEvents, node, op);
      } else {
        assert PassKind(SetProperties, node, op);
      }
    }
  }

  /** With identical old and new props, `updateDom` issues no calls. */
  lemma SamePropsNoOps(node: NodeId, p: Props)
    ensures UpdateDomOps(node, p, p) == []
  {
    forall k | k in Keys(p) ensures Lookup(p, k).Some? {
      LookupPresent(p, k);
    }
    PhaseOpsEmpty(RemoveEvents, node, p, p, Keys(p));
    ClearGonePassIssuesNothing(node, p, p);
    PhaseOpsEmpty(AddEvents, node, p, p, Keys(p));
    PhaseOpsEmpty(SetProperties, node, p, p, Keys(p));
  }

  /** What one key contributes to each pass. */
  lemma KeyOpsMember(node: NodeId, oldProps: Props, newProps: Props, k: string, op: DomOp)
    ensures op in KeyOps(RemoveEvents, node, oldProps, newProps, k)
            <==> IsEvent(k) && Lookup(oldProps, k).Some?
                 && Lookup(newProps, k) != Lookup(oldProps, k)
                 && op == RemoveEventListener(node, EventName(k), Lookup(oldProps, k).value)
    ensures op in KeyOps(AddEvents, node, oldProps, newProps, k)
            <==> IsEvent(k) && Lookup(newProps, k).Some?
                 && Lookup(newProps, k) != Lookup(oldProps, k)
                 && op == AddEventListener(node, EventName(k), Lookup(newProps, k).value)
    ensures op in KeyOps(SetProperties, node, oldProps, newProps, k)
            <==> IsProperty(k) && Lookup(newProps, k).Some?
                 && Lookup(newProps, k) != Lookup(oldProps, k)
                 && op == SetProperty(node, k, Lookup(newProps, k).value)
  {
  }

  /** A listener is removed exactly for an old `on*` key whose handler is no
      longer the one in `newProps` (absent or different), under the key's
      event name. */
  lemma RemovesListenerIff(node: NodeId, oldProps: Props, newProps: Props, ev: string, h: Value)
    ensures RemoveEventListener(node, ev, h) in UpdateDomOps(node, oldProps, newProps)
            <==> exists k :: k in Keys(oldProps) && IsEvent(k) && EventName(k) == ev
                             && Lookup(oldProps, k) == Some(h) && Lookup(newProps, k) != Some(h)
  {
    var op := RemoveEventListener(node, ev, h);
    UpdateDomMember(node, oldProps, newProps, op);
    PhaseOpsMember(RemoveEvents, node, oldProps, newProps, Keys(oldProps), op);
    if op in UpdateDomOps(node, oldProps, newProps) {
      var k :| k in Keys(oldProps) && op in KeyOps(RemoveEvents, node, oldProps, newProps, k);
      KeyOpsMember(node, oldProps, newProps, k, op);
    }
    if exists k :: k in Keys(oldProps) && IsEvent(k) && EventName(k) == ev
                   && Lookup(oldProps, k) == Some(h) && Lookup(newProps, k) != Some(h) {
      var k :| k in Keys(oldProps) && IsEvent(k) && EventName(k) == ev
               && Lookup(oldProps, k) == Some(h) && Lookup(newProps, k) != Some(h);
      KeyOpsMember(node, oldProps, newProps, k, op);
      assert op in KeyOps(RemoveEvents, node, oldProps, newProps, k);
    }
  }

  /** A listener is added exactly for a new `on*` key whose handler differs
      from the one in `oldProps`, under the key's event name. */
  lemma AddsListenerIff(node: NodeId, oldProps: Props, newProps: Props, ev: string, h: Value)
    ensures AddEventListener(node, ev, h) in UpdateDomOps(node, oldProps, newProps)
            <==> exists k :: k in Keys(newProps) && IsEvent(k) && EventName(k) == ev
                             && Lookup(newProps, k) == Some(h) && Lookup(oldProps, k) != Some(h)
  {
    var op := AddEventListener(node, ev, h);
    UpdateDomMember(node, oldProps, newProps, op);
    PhaseOpsMember(AddEvents, node, oldProps, newProps, Keys(newProps), op);
    if op in UpdateDomOps(node, oldProps, newProps) {
      var k :| k in Keys(newProps) && op in KeyOps(AddEvents, node, oldProps, newProps, k);
      KeyOpsMember(node, oldProps, newProps, k, op);
    }
    if exists k :: k in Keys(newProps) && IsEvent(k) && EventName(k) == ev
                   && Lookup(newProps, k) == Some(h) && Lookup(oldProps, k) != Some(h) {
      var k :| k in Keys(newProps) && IsEvent(k) && EventName(k) == ev
               && Lookup(newProps, k) == Some(h) && Lookup(oldProps, k) != Some(h);
      KeyOpsMember(node, oldProps, newProps, k, op);
      assert op in KeyOps(AddEvents, node, oldProps, newProps, k);
    }
  }

  /** A property is assigned exactly for a new key that is neither `children`
      nor an event and whose value changed; it is assigned its new value. */
  lemma SetsPropertyIff(node: NodeId, oldProps: Props, newProps: Props, k: string, v: Value)
    ensures SetProperty(node, k, v) in UpdateDomOps(node, oldProps, newProps)
            <==> k in Keys(newProps) && IsProperty(k)
                 && Lookup(newProps, k) == Some(v) && Lookup(oldProps, k) != Some(v)
  {
    var op := SetProperty(node, k, v);
    UpdateDomMember(node, oldProps, newProps, op);
    PhaseOpsMember(SetProperties, node, oldProps, newProps, Keys(newProps), op);
    if op in UpdateDomOps(node, oldProps, newProps) {
      var k' :| k' in Keys(newProps) && op in KeyOps(SetProperties, node, oldProps, newProps, k');
      KeyOpsMember(node, oldProps, newProps, k', op);
    }
    if k in Keys(newProps) && IsProperty(k) && Lookup(newProps, k) == Some(v) && Lookup(oldProps, k) != Some(v) {
      KeyOpsMember(node, oldProps, newProps, k, op);
      assert op in KeyOps(SetProperties, node, oldProps, newProps, k);
    }
  }

  /** `children` is never assigned as a DOM property. */
  lemma ChildrenNeverAssigned(node: NodeId, oldProps: Props, newProps: Props, v: Value)
    ensures SetProperty(node, CHILDREN, v) !in UpdateDomOps(node, oldProps, newProps)
  {
    SetsPropertyIff(node, oldProps, newProps, CHILDREN, v);
  }

  /** `createDom` creates one node, of the element's tag (a text node for
      `TEXT_ELEMENT`), and then only attaches listeners to it and assigns
      properties of it: it removes no listener and touches no other node. */
  lemma CreateDomTouchesOnlyNode(node: NodeId, tag: string, props: Props)
    ensures var ops := CreateDomOps(node, tag, props);
            && |ops| >= 1
            && ops[0] == (if tag == TEXT_ELEMENT then CreateTextNode(node) else CreateElementNode(node, tag))
            && (forall op :: op in ops ==> TouchesOnly(op, node))
            && (forall op :: op in ops[1..] ==> op.AddEventListener? || op.SetProperty?)
  {
    var ops := CreateDomOps(node, tag, props);
    var rest := PassOps(AddEvents, node, [], props) + PassOps(SetProperties, node, [], props);
    CreateDomOpsSplit(node, tag, props);
    LastPassesKinds(node, [], props);
    assert ops[1..] == rest;
  }

  /** `createDom`'s calls: the node's creation, then the calls of the last
      two passes, as the first two find nothing in empty old props. */
  lemma CreateDomOpsSplit(node: NodeId, tag: string, props: Props)
    ensures CreateDomOps(node, tag, props)
            == [if tag == TEXT_ELEMENT then CreateTextNode(node) else CreateElementNode(node, tag)]
               + (PassOps(AddEvents, node, [], props) + PassOps(SetProperties, node, [], props))
  {
    UpdateDomOpsSplit(node, [], props);
    assert PassOps(RemoveEvents, node, [], props) == [] by {
      assert PhaseKeys(RemoveEvents, [], props) == [];
    }
  }

  /** `createDom` assigns every property of the props, with its value. */
  lemma CreateDomSetsProperties(node: NodeId, tag: string, props: Props, k: string, v: Value)
    ensures SetProperty(node, k, v) in CreateDomOps(node, tag, props)
            <==> k in Keys(props) && IsProperty(k) && Lookup(props, k) == Some(v)
  {
    SetsPropertyIff(node, [], props, k, v);
  }

  /** `createDom` attaches every handler of the props, under its event name. */
  lemma CreateDomAddsListeners(node: NodeId, tag: string, props: Props, ev: string, h: Value)
    ensures AddEventListener(node, ev, h) in CreateDomOps(node, tag, props)
            <==> exists k :: k in Keys(props) && IsEvent(k) && EventName(k) == ev && Lookup(props, k) == Some(h)
  {
    AddsListenerIff(node, [], props, ev, h);
  }
}
