/** The fiber records of `interface.ts` kept in an arena (a sequence indexed
    by fiber identity; `parent`, `child`, `sibling` and `alternate` are
    indices), and the pure definitions that specify what the engine of
    `wookLoop.tsx` computes over it: the depth-first successor, the parent-DOM
    search, the old-children chain, the hook-queue fold, the commit walk and
    the result of one `reconcileChildren` call. */
module Fibers {
  import opened Values
  import opened Elements

  type FiberId = nat

  datatype EffectTag = Placement | Update | Deletion

  /** A state updater `(state) => newState` handed to `setState`. */
  type Action = Value -> Value

  /** `Hooks`: a state cell and its queue of pending updaters (`quene`). */
  datatype Hook = Hook(state: Value, quene: seq<Action>)

  /** `Fiber`.  A root fiber has no `type` (None) and no parent. */
  datatype Fiber = Fiber(
    ty: Option<ElemType>,
    props: Props,
    dom: Option<NodeId>,
    parent: Option<FiberId>,
    child: Option<FiberId>,
    sibling: Option<FiberId>,
    alternate: Option<FiberId>,
    hooks: seq<Hook>,
    effectTag: Option<EffectTag>)

  /** The root fiber built by `render` and `setState`. */
  function RootFiber(dom: NodeId, props: Props, alternate: Option<FiberId>): Fiber
  {
    Fiber(None, props, Some(dom), None, None, None, alternate, [], None)
  }

  /** Every arena entry's links are in range; a parent and an alternate are
      older and a child or sibling younger than the fiber (so every walk
      terminates, and a fiber is never its own previous generation); fibers
      reached through `child` or `sibling` have a parent; a fiber without a
      parent is a root, which owns a DOM node; an `UPDATE` fiber has an
      alternate; and the props carry a well-formed `children` list. */
  predicate WellLinked(fs: seq<Fiber>)
  {
    && (forall i :: 0 <= i < |fs| ==>
      && (fs[i].parent.Some? ==> fs[i].parent.value < i)
      && (fs[i].child.Some? ==> i < fs[i].child.value < |fs|)
      && (fs[i].sibling.Some? ==> i < fs[i].sibling.value < |fs|)
      && (fs[i].alternate.Some? ==> fs[i].alternate.value < i)
      && (fs[i].parent.None? ==> fs[i].dom.Some?)
      && (fs[i].ty.None? ==> fs[i].parent.None?)
      && (fs[i].effectTag == Some(Update) ==> fs[i].alternate.Some?)
      && WFProps(fs[i].props))
    && (forall i :: 0 <= i < |fs| ==> LinksHaveParents(fs, i))
  }

  /** The fibers `i` reaches through `child` and `sibling` have a parent. */
  predicate LinksHaveParents(fs: seq<Fiber>, i: nat)
    requires i < |fs|
  {
    && (fs[i].child.Some? && fs[i].child.value < |fs| ==> fs[fs[i].child.value].parent.Some?)
    && (fs[i].sibling.Some? && fs[i].sibling.value < |fs| ==> fs[fs[i].sibling.value].parent.Some?)
  }

  /** A fiber is given by id when it is in range. */
  predicate Valid?(fs: seq<Fiber>, x: Option<FiberId>)
  {
    x.Some? ==> x.value < |fs|
  }

  /** A termination measure for walks along `child` and `sibling`. */
  function Rank(fs: seq<Fiber>, x: Option<FiberId>): nat
  {
    if x.Some? && x.value < |fs| then |fs| - x.value else 0
  }

  /* ---------------- performUnitOfWork: the next unit ---------------- */

  /** The `while (nextFiber)` loop: the sibling of the nearest
      ancestor-or-self that has one. */
  function Climb(fs: seq<Fiber>, x: FiberId): Option<FiberId>
    requires WellLinked(fs) && x < |fs|
    decreases x
  {
    if fs[x].sibling.Some? then fs[x].sibling
    else if fs[x].parent.Some? then Climb(fs, fs[x].parent.value)
    else None
  }

  /** The unit of work after `x`: its child, else what `Climb` finds. */
  function NextUnit(fs: seq<Fiber>, x: FiberId): Option<FiberId>
    requires WellLinked(fs) && x < |fs|
  {
    if fs[x].child.Some? then fs[x].child else Climb(fs, x)
  }

  /** `x`, its parent, its grandparent, ..., up to the root. */
  function Ancestors(fs: seq<Fiber>, x: FiberId): (path: seq<FiberId>)
    requires WellLinked(fs) && x < |fs|
    ensures |path| >= 1 && path[0] == x
    ensures forall k :: 0 <= k < |path| ==> path[k] < |fs|
    ensures forall k :: 0 <= k < |path| - 1 ==> fs[path[k]].parent == Some(path[k + 1])
    ensures fs[path[|path| - 1]].parent.None?
    decreases x
  {
    if fs[x].parent.Some? then [x] + Ancestors(fs, fs[x].parent.value) else [x]
  }

  /** No fiber among the first `n` on `path` has a sibling. */
  predicate NoSiblingBefore(fs: seq<Fiber>, path: seq<FiberId>, n: nat)
  {
    forall j :: 0 <= j < n && j < |path| && path[j] < |fs| ==> fs[path[j]].sibling.None?
  }

  /** The next unit is the child if there is one.  Otherwise it is the sibling
      of the first fiber on the ancestor path that has a sibling, and there is
      none exactly when no fiber on the path up to the root has a sibling. */
  lemma NextUnitIsPreorderSuccessor(fs: seq<Fiber>, x: FiberId, path: seq<FiberId>)
    requires WellLinked(fs) && x < |fs| && path == Ancestors(fs, x)
    ensures fs[x].child.Some? ==> NextUnit(fs, x) == fs[x].child
    ensures fs[x].child.None? ==> (NextUnit(fs, x).None? <==> NoSiblingBefore(fs, path, |path|))
    ensures fs[x].child.None? ==>
              forall k :: 0 <= k < |path| && fs[path[k]].sibling.Some? && NoSiblingBefore(fs, path, k)
                ==> NextUnit(fs, x) == fs[path[k]].sibling
  {
    ClimbFindsFirstSibling(fs, x, path);
  }

  lemma {:induction false} ClimbFindsFirstSibling(fs: seq<Fiber>, x: FiberId, path: seq<FiberId>)
    requires WellLinked(fs) && x < |fs| && path == Ancestors(fs, x)
    ensures Climb(fs, x).None? <==> NoSiblingBefore(fs, path, |path|)
    ensures forall k :: 0 <= k < |path| && fs[path[k]].sibling.Some? && NoSiblingBefore(fs, path, k)
              ==> Climb(fs, x) == fs[path[k]].sibling
    decreases x
  {
    if fs[x].sibling.Some? {
      assert path[0] == x;
      assert !NoSiblingBefore(fs, path, |path|);
      forall k | 0 <= k < |path| && fs[path[k]].sibling.Some? && NoSiblingBefore(fs, path, k)
        ensures Climb(fs, x) == fs[path[k]].sibling
      {
        assert k == 0;
      }
    } else if fs[x].parent.None? {
      assert path == [x];
    } else {
      var p := fs[x].parent.value;
      var up := Ancestors(fs, p);
      ClimbFindsFirstSibling(fs, p, up);
      assert path == [x] + up;
      assert Climb(fs, x) == Climb(fs, p);
      NoSiblingShift(fs, x, up, |up|);
      forall k | 0 <= k < |path| && fs[path[k]].sibling.Some? && NoSiblingBefore(fs, path, k)
        ensures Climb(fs, x) == fs[path[k]].sibling
      {
        assert k > 0 by { assert path[0] == x; }
        NoSiblingShift(fs, x, up, k - 1);
        assert path[k] == up[k - 1];
      }
    }
  }

  /** Putting a fiber without a sibling in front of a path adds one fiber
      without a sibling to each of its prefixes. */
  lemma NoSiblingShift(fs: seq<Fiber>, x: FiberId, up: seq<FiberId>, n: nat)
    requires x < |fs| && fs[x].sibling.None? && n <= |up|
    ensures NoSiblingBefore(fs, [x] + up, n + 1) <==> NoSiblingBefore(fs, up, n)
  {
    var path := [x] + up;
    if NoSiblingBefore(fs, up, n) {
      forall j | 0 <= j < n + 1 && j < |path| && path[j] < |fs| ensures fs[path[j]].sibling.None? {
        if j > 0 {
          assert path[j] == up[j - 1];
        }
      }
    }
    if NoSiblingBefore(fs, path, n + 1) {
      forall j | 0 <= j < n && j < |up| && up[j] < |fs| ensures fs[up[j]].sibling.None? {
        assert up[j] == path[j + 1];
      }
    }
  }

  /* ---------------- commitWork: the parent DOM node ---------------- */

  /** The `while (!parentFiber.dom)` search started at `p`: the DOM node of
      the nearest ancestor-or-self of `p` that owns one.  It ends because a
      fiber without a parent is a root, and a root owns a node. */
  function ParentDom(fs: seq<Fiber>, p: FiberId): NodeId
    requires WellLinked(fs) && p < |fs|
    decreases p
  {
    if fs[p].dom.Some? then fs[p].dom.value else ParentDom(fs, fs[p].parent.value)
  }

  /** No fiber among the first `n` on `path` owns a DOM node. */
  predicate NoDomBefore(fs: seq<Fiber>, path: seq<FiberId>, n: nat)
  {
    forall j :: 0 <= j < n && j < |path| && path[j] < |fs| ==> fs[path[j]].dom.None?
  }

  /** The parent node is the node of the first fiber on the ancestor path of
      `p` that owns one. */
  lemma {:induction false} ParentDomIsNearestOwner(fs: seq<Fiber>, p: FiberId, path: seq<FiberId>)
    requires WellLinked(fs) && p < |fs| && path == Ancestors(fs, p)
    ensures exists k :: 0 <= k < |path| && fs[path[k]].dom == Some(ParentDom(fs, p))
                        && NoDomBefore(fs, path, k)
    decreases p
  {
    if fs[p].dom.Some? {
      assert fs[path[0]].dom == Some(ParentDom(fs, p)) && NoDomBefore(fs, path, 0);
    } else {
      var q := fs[p].parent.value;
      var up := Ancestors(fs, q);
      ParentDomIsNearestOwner(fs, q, up);
      assert path == [p] + up;
      var k :| 0 <= k < |up| && fs[up[k]].dom == Some(ParentDom(fs, q)) && NoDomBefore(fs, up, k);
      assert path[k + 1] == up[k];
      assert fs[path[k + 1]].dom == Some(ParentDom(fs, p));
      forall j | 0 <= j < k + 1 && j < |path| && path[j] < |fs| ensures fs[path[j]].dom.None? {
        if j > 0 { assert path[j] == up[j - 1]; }
      }
      assert NoDomBefore(fs, path, k + 1);
    }
  }

  /* ---------------- reconcileChildren: the old children ---------------- */

  /** The chain `c, c.sibling, c.sibling.sibling, ...`. */
  function SiblingChain(fs: seq<Fiber>, c: Option<FiberId>): (chain: seq<FiberId>)
    requires WellLinked(fs) && Valid?(fs, c)
    ensures forall k :: 0 <= k < |chain| ==> chain[k] < |fs|
    ensures forall k {:trigger fs[chain[k]]} :: 0 <= k < |chain| - 1 ==> fs[chain[k]].sibling == Some(chain[k + 1])
    ensures c.Some? ==> |chain| > 0 && chain[0] == c.value && fs[chain[|chain| - 1]].sibling.None?
    ensures c.None? ==> chain == []
    decreases Rank(fs, c)
  {
    if c.None? then [] else [c.value] + SiblingChain(fs, fs[c.value].sibling)
  }

  /** Strictly increasing: no fiber occurs twice. */
  predicate Increasing(ids: seq<FiberId>)
  {
    forall j, k :: 0 <= j < k < |ids| ==> ids[j] < ids[k]
  }

  /** A sibling chain visits strictly increasing fibers, so none twice. */
  lemma {:induction false} SiblingChainIncreasing(fs: seq<Fiber>, c: Option<FiberId>)
    requires WellLinked(fs) && Valid?(fs, c)
    ensures Increasing(SiblingChain(fs, c))
    decreases Rank(fs, c)
  {
    if c.Some? {
      var rest := SiblingChain(fs, fs[c.value].sibling);
      SiblingChainIncreasing(fs, fs[c.value].sibling);
      var chain := SiblingChain(fs, c);
      assert chain == [c.value] + rest;
      forall j, k | 0 <= j < k < |chain| ensures chain[j] < chain[k] {
        if j == 0 {
          assert rest[0] == fs[c.value].sibling.value;
          assert chain[k] == rest[k - 1];
          if k > 1 { assert rest[0] < rest[k - 1]; }
        } else {
          assert chain[j] == rest[j - 1] && chain[k] == rest[k - 1];
        }
      }
    }
  }

  /** `fiber.alternate && fiber.alternate.child`. */
  function AlternateChild(fs: seq<Fiber>, f: FiberId): (c: Option<FiberId>)
    requires WellLinked(fs) && f < |fs|
    ensures Valid?(fs, c)
  {
    if fs[f].alternate.Some? then fs[fs[f].alternate.value].child else None
  }

  /** The previous generation of `f`'s children, in position order. */
  function OldChildren(fs: seq<Fiber>, f: FiberId): seq<FiberId>
    requires WellLinked(fs) && f < |fs|
  {
    SiblingChain(fs, AlternateChild(fs, f))
  }

  /** The loop meets the old children in order: the alternate's child first
      (none when there are no old children) ... */
  lemma OldChildrenFirst(fs: seq<Fiber>, f: FiberId)
    requires WellLinked(fs) && f < |fs|
    ensures forall k :: 0 <= k < |OldChildren(fs, f)| ==> OldChildren(fs, f)[k] < |fs|
    ensures AlternateChild(fs, f) == if 0 < |OldChildren(fs, f)| then Some(OldChildren(fs, f)[0]) else None
  {
  }

  /** ... and then each one's sibling, with nothing after the last. */
  lemma OldChildLink(fs: seq<Fiber>, f: FiberId, k: nat)
    requires WellLinked(fs) && f < |fs| && k < |OldChildren(fs, f)|
    ensures fs[OldChildren(fs, f)[k]].sibling
            == if k + 1 < |OldChildren(fs, f)| then Some(OldChildren(fs, f)[k + 1]) else None
  {
  }

  function Min(a: nat, b: nat): nat { if a < b then a else b }

  function Max(a: nat, b: nat): nat { if a < b then b else a }

  /** `element && oldFiber && element.type == oldFiber.type` at position `k`. */
  predicate SameTypeAt(fs: seq<Fiber>, olds: seq<FiberId>, children: seq<Element>, k: nat)
  {
    k < |children| && k < |olds| && olds[k] < |fs| && fs[olds[k]].ty == Some(children[k].ty)
  }

  /** The fiber created for `children[k]` under parent `f`, before it is
      linked to its sibling: an `UPDATE` fiber keeping the old fiber's type
      and DOM node when the types agree, a `PLACEMENT` fiber with no node
      otherwise. */
  function NewFiber(fs: seq<Fiber>, f: FiberId, olds: seq<FiberId>, children: seq<Element>, k: nat): Fiber
    requires k < |children|
  {
    if SameTypeAt(fs, olds, children, k) then
      Fiber(fs[olds[k]].ty, children[k].props, fs[olds[k]].dom, Some(f), None, None, Some(olds[k]), [], Some(Update))
    else
      Fiber(Some(children[k].ty), children[k].props, None, Some(f), None, None, None, [], Some(Placement))
  }

  /** The old fibers among the first `n` positions whose type does not match
      the new element there (or that have no new element), in position order. */
  function Deleted(fs: seq<Fiber>, olds: seq<FiberId>, children: seq<Element>, n: nat): seq<FiberId>
    requires n <= |olds|
  {
    if n == 0 then []
    else Deleted(fs, olds, children, n - 1)
         + (if SameTypeAt(fs, olds, children, n - 1) then [] else [olds[n - 1]])
  }

  /** The arena after the first `i` turns of the `reconcileChildren` loop for
      fiber `f` whose old children are `olds`: one new fiber per element so
      far appended at `|fs|, |fs|+1, ...`, each linked to the next; `f.child`
      set to the first of them (or cleared when there is none) once the loop
      has turned; and the old fibers passed so far without a match tagged
      `DELETION`. */
  function Arrange(fs: seq<Fiber>, f: FiberId, olds: seq<FiberId>, children: seq<Element>, i: nat): seq<Fiber>
    requires f < |fs|
  {
    seq(|fs| + Min(i, |children|), j requires 0 <= j < |fs| + Min(i, |children|) =>
      if j < |fs| then ArrangedOld(fs, f, olds, children, i, j)
      else ArrangedNew(fs, f, olds, children, i, j - |fs|))
  }

  /** Old entry `j` after `i` turns: `f` gets its new first child once the
      loop has turned, and mismatched old children are tagged. */
  function ArrangedOld(fs: seq<Fiber>, f: FiberId, olds: seq<FiberId>, children: seq<Element>, i: nat, j: nat): Fiber
    requires j < |fs|
  {
    var linked := if j == f && i > 0 then fs[j].(child := if |children| > 0 then Some(|fs|) else None)
                  else fs[j];
    if j in Deleted(fs, olds, children, Min(i, |olds|)) then linked.(effectTag := Some(Deletion)) else linked
  }

  /** The new fiber for position `k` after `i > k` turns, linked to the next
      one when that has been created. */
  function ArrangedNew(fs: seq<Fiber>, f: FiberId, olds: seq<FiberId>, children: seq<Element>, i: nat, k: nat): Fiber
    requires k < |children|
  {
    NewFiber(fs, f, olds, children, k).(sibling := if k + 1 < Min(i, |children|) then Some(|fs| + k + 1) else None)
  }

  /** The arena after the first `i` turns of `reconcileChildren(f, children)`. */
  function ReconcileUpTo(fs: seq<Fiber>, f: FiberId, children: seq<Element>, i: nat): seq<Fiber>
    requires WellLinked(fs) && f < |fs|
  {
    Arrange(fs, f, OldChildren(fs, f), children, i)
  }

  /** The number of turns the loop takes: one per position that has a new
      element or an old fiber. */
  function Turns(fs: seq<Fiber>, f: FiberId, children: seq<Element>): nat
    requires WellLinked(fs) && f < |fs|
  {
    Max(|children|, |OldChildren(fs, f)|)
  }

  /** The arena after `reconcileChildren(f, children)`. */
  function Reconciled(fs: seq<Fiber>, f: FiberId, children: seq<Element>): seq<Fiber>
    requires WellLinked(fs) && f < |fs|
  {
    ReconcileUpTo(fs, f, children, Turns(fs, f, children))
  }

  /** The fibers `reconcileChildren(f, children)` pushes onto `deletions`. */
  function Deletions(fs: seq<Fiber>, f: FiberId, children: seq<Element>): seq<FiberId>
    requires WellLinked(fs) && f < |fs|
  {
    var olds := OldChildren(fs, f);
    Deleted(fs, olds, children, |olds|)
  }

  /** Elements whose props carry a well-formed `children` list. */
  predicate AllWellFormed(children: seq<Element>)
  {
    forall k :: 0 <= k < |children| ==> WFElement(children[k])
  }

  /** A well-formed element's props are well-formed props. */
  lemma ElementPropsWellFormed(e: Element)
    requires WFElement(e)
    ensures WFProps(e.props)
  {
  }

  /** Reconciliation diffs by position: the fiber for each new element is an
      `UPDATE` of the old fiber at the same position exactly when their types
      agree, keeping that fiber's type and DOM node and pointing back at it,
      and a `PLACEMENT` with no DOM node and no alternate otherwise; either
      way it carries the element's props and has `f` as parent. */
  lemma ReconcileDiffsByPosition(fs: seq<Fiber>, f: FiberId, children: seq<Element>, k: nat)
    requires WellLinked(fs) && f < |fs| && k < |children|
    ensures var r := Reconciled(fs, f, children);
            var olds := OldChildren(fs, f);
            && |fs| + k < |r|
            && r[|fs| + k].parent == Some(f)
            && r[|fs| + k].props == children[k].props
            && (r[|fs| + k].effectTag == Some(Update) <==> SameTypeAt(fs, olds, children, k))
            && (SameTypeAt(fs, olds, children, k) ==>
                  && r[|fs| + k].alternate == Some(olds[k])
                  && r[|fs| + k].ty == fs[olds[k]].ty && r[|fs| + k].dom == fs[olds[k]].dom)
            && (!SameTypeAt(fs, olds, children, k) ==>
                  && r[|fs| + k].effectTag == Some(Placement)
                  && r[|fs| + k].ty == Some(children[k].ty)
                  && r[|fs| + k].dom.None? && r[|fs| + k].alternate.None?)
  {
    var olds := OldChildren(fs, f);
    ArrangedNewFiber(fs, f, olds, children, Turns(fs, f, children), k);
  }

  /** The new fiber at position `k` after `i > k` turns. */
  lemma ArrangedNewFiber(fs: seq<Fiber>, f: FiberId, olds: seq<FiberId>, children: seq<Element>, i: nat, k: nat)
    requires f < |fs| && k < |children| && k < i
    ensures var r := Arrange(fs, f, olds, children, i);
            |fs| + k < |r| && r[|fs| + k] == NewFiber(fs, f, olds, children, k).(sibling := r[|fs| + k].sibling)
  {
    var r := Arrange(fs, f, olds, children, i);
    assert r[|fs| + k] == ArrangedNew(fs, f, olds, children, i, k);
  }

  /** `Deleted` lists, in increasing order, exactly the old fibers at the
      first `n` positions whose type does not match. */
  lemma {:induction false} DeletedExactlyMismatches(fs: seq<Fiber>, olds: seq<FiberId>, children: seq<Element>, n: nat)
    requires n <= |olds| && Increasing(olds)
    ensures Increasing(Deleted(fs, olds, children, n))
    ensures forall x :: x in Deleted(fs, olds, children, n) ==> x in olds[..n]
    ensures forall k :: 0 <= k < n ==> (olds[k] in Deleted(fs, olds, children, n) <==> !SameTypeAt(fs, olds, children, k))
  {
    if n > 0 {
      DeletedExactlyMismatches(fs, olds, children, n - 1);
      var prev := Deleted(fs, olds, children, n - 1);
      var d := Deleted(fs, olds, children, n);
      assert olds[..n] == olds[..n - 1] + [olds[n - 1]];
      forall x | x in prev ensures x < olds[n - 1] {
        var k :| 0 <= k < n - 1 && olds[k] == x;
      }
      forall k | 0 <= k < n
        ensures olds[k] in d <==> !SameTypeAt(fs, olds, children, k)
      {
        if k < n - 1 {
          assert olds[k] < olds[n - 1];
        }
      }
      if !SameTypeAt(fs, olds, children, n - 1) {
        forall a, b | 0 <= a < b < |d| ensures d[a] < d[b] {
          if b == |d| - 1 {
            assert d[a] == prev[a] && prev[a] in prev;
          } else {
            assert d[a] == prev[a] && d[b] == prev[b];
          }
        }
      }
    }
  }

  /** Every old fiber without a match is pushed onto `deletions`, in position
      order, and no matched one is. */
  lemma DeletionsAreMismatches(fs: seq<Fiber>, f: FiberId, children: seq<Element>)
    requires WellLinked(fs) && f < |fs|
    ensures var olds := OldChildren(fs, f);
            var ds := Deletions(fs, f, children);
            && Increasing(ds)
            && (forall x :: x in ds ==> x in olds)
            && forall k :: 0 <= k < |olds| ==> (olds[k] in ds <==> !SameTypeAt(fs, olds, children, k))
  {
    var olds := OldChildren(fs, f);
    SiblingChainIncreasing(fs, AlternateChild(fs, f));
    DeletedExactlyMismatches(fs, olds, children, |olds|);
    assert olds[..|olds|] == olds;
  }

  /** The old fibers that get tagged: exactly the deletions, and nothing else
      of the old arena changes except `f.child`. */
  lemma ReconcileTagsDeletions(fs: seq<Fiber>, f: FiberId, children: seq<Element>, j: nat)
    requires WellLinked(fs) && f < |fs| && j < |fs|
    ensures var r := Reconciled(fs, f, children);
            && |r| == |fs| + |children|
            && r[j].effectTag == (if j in Deletions(fs, f, children) then Some(Deletion) else fs[j].effectTag)
            && (j != f ==> r[j].child == fs[j].child)
            && r[j].(child := fs[j].child, effectTag := fs[j].effectTag) == fs[j]
  {
    var olds := OldChildren(fs, f);
    assert Min(Turns(fs, f, children), |olds|) == |olds|;
  }

  /** A length shrink: every old fiber beyond the new element count is
      deleted. */
  lemma ShrinkDeletesTail(fs: seq<Fiber>, f: FiberId, children: seq<Element>)
    requires WellLinked(fs) && f < |fs|
    ensures var olds := OldChildren(fs, f);
            forall k :: |children| <= k < |olds| ==> olds[k] in Deletions(fs, f, children)
  {
    DeletionsAreMismatches(fs, f, children);
  }

  /** The conditions `WellLinked` puts on entry `j`. */
  predicate FiberOk(fs: seq<Fiber>, j: nat)
    requires j < |fs|
  {
    && (fs[j].parent.Some? ==> fs[j].parent.value < j)
    && (fs[j].child.Some? ==> j < fs[j].child.value < |fs|)
    && (fs[j].sibling.Some? ==> j < fs[j].sibling.value < |fs|)
    && (fs[j].alternate.Some? ==> fs[j].alternate.value < j)
    && (fs[j].parent.None? ==> fs[j].dom.Some?)
    && (fs[j].ty.None? ==> fs[j].parent.None?)
    && (fs[j].effectTag == Some(Update) ==> fs[j].alternate.Some?)
    && WFProps(fs[j].props)
    && LinksHaveParents(fs, j)
  }

  /** An arena whose every entry meets the link conditions is well linked. */
  lemma EntriesMakeWellLinked(fs: seq<Fiber>)
    requires forall j :: 0 <= j < |fs| ==> FiberOk(fs, j)
    ensures WellLinked(fs)
  {
    forall j | 0 <= j < |fs| ensures LinksHaveParents(fs, j) {
      assert FiberOk(fs, j);
    }
    forall j | 0 <= j < |fs|
      ensures && (fs[j].parent.Some? ==> fs[j].parent.value < j)
              && (fs[j].child.Some? ==> j < fs[j].child.value < |fs|)
              && (fs[j].sibling.Some? ==> j < fs[j].sibling.value < |fs|)
              && (fs[j].alternate.Some? ==> fs[j].alternate.value < j)
              && (fs[j].parent.None? ==> fs[j].dom.Some?)
              && (fs[j].ty.None? ==> fs[j].parent.None?)
              && (fs[j].effectTag == Some(Update) ==> fs[j].alternate.Some?)
              && WFProps(fs[j].props)
    {
      assert FiberOk(fs, j);
    }
  }

  /** An old entry of the arranged arena still meets the link conditions. */
  lemma ArrangedOldEntryOk(fs: seq<Fiber>, f: FiberId, olds: seq<FiberId>, children: seq<Element>, i: nat, j: nat)
    requires WellLinked(fs) && f < |fs| && j < |fs|
    ensures FiberOk(Arrange(fs, f, olds, children, i), j)
  {
    var r := Arrange(fs, f, olds, children, i);
    var e := r[j];
    assert LinksHaveParents(fs, j);
    ArrangedOldShape(fs, f, olds, children, i, j);
    if e.sibling.Some? {
      ArrangedParent(fs, f, olds, children, i, e.sibling.value);
    }
    if e.child.Some? {
      ArrangedParent(fs, f, olds, children, i, e.child.value);
    }
  }

  /** An old entry of the arranged arena differs from the old arena only in
      its tag and, for `f` once the loop has turned, its first child. */
  lemma ArrangedOldShape(fs: seq<Fiber>, f: FiberId, olds: seq<FiberId>, children: seq<Element>, i: nat, j: nat)
    requires f < |fs| && j < |fs|
    ensures var e := Arrange(fs, f, olds, children, i)[j];
            && e.(child := fs[j].child, effectTag := fs[j].effectTag) == fs[j]
            && (e.child == fs[j].child || (i > 0 && e.child == if |children| > 0 then Some(|fs|) else None))
            && (e.effectTag == fs[j].effectTag || e.effectTag == Some(Deletion))
  {
    assert Arrange(fs, f, olds, children, i)[j] == ArrangedOld(fs, f, olds, children, i, j);
  }

  /** The parents in the arranged arena: the old ones, and `f` for the new
      fibers. */
  lemma ArrangedParent(fs: seq<Fiber>, f: FiberId, olds: seq<FiberId>, children: seq<Element>, i: nat, s: nat)
    requires f < |fs| && s < |Arrange(fs, f, olds, children, i)|
    ensures Arrange(fs, f, olds, children, i)[s].parent == if s < |fs| then fs[s].parent else Some(f)
  {
    if s < |fs| {
      assert Arrange(fs, f, olds, children, i)[s] == ArrangedOld(fs, f, olds, children, i, s);
    } else {
      assert Arrange(fs, f, olds, children, i)[s] == ArrangedNew(fs, f, olds, children, i, s - |fs|);
    }
  }

  /** A new entry of the arranged arena meets the link conditions. */
  lemma ArrangedNewEntryOk(fs: seq<Fiber>, f: FiberId, olds: seq<FiberId>, children: seq<Element>, i: nat, j: nat)
    requires f < |fs| && AllWellFormed(children)
    requires |fs| <= j < |Arrange(fs, f, olds, children, i)|
    ensures FiberOk(Arrange(fs, f, olds, children, i), j)
  {
    var r := Arrange(fs, f, olds, children, i);
    var k := j - |fs|;
    assert r[j] == ArrangedNew(fs, f, olds, children, i, k);
    ElementPropsWellFormed(children[k]);
    if k + 1 < Min(i, |children|) {
      assert r[j + 1] == ArrangedNew(fs, f, olds, children, i, k + 1);
      assert r[j + 1].parent == Some(f);
    }
  }

  /** Reconciliation keeps the arena well linked. */
  lemma ReconcileKeepsLinks(fs: seq<Fiber>, f: FiberId, children: seq<Element>, i: nat)
    requires WellLinked(fs) && f < |fs| && AllWellFormed(children)
    ensures WellLinked(ReconcileUpTo(fs, f, children, i))
  {
    var olds := OldChildren(fs, f);
    var r := Arrange(fs, f, olds, children, i);
    forall j | 0 <= j < |r| ensures FiberOk(r, j) {
      if j < |fs| {
        ArrangedOldEntryOk(fs, f, olds, children, i, j);
      } else {
        ArrangedNewEntryOk(fs, f, olds, children, i, j);
      }
    }
    EntriesMakeWellLinked(r);
  }

  /** The new fiber for position `t`, if there is an element, appended to
      arena `p`. */
  function Placed(fs: seq<Fiber>, f: FiberId, olds: seq<FiberId>, children: seq<Element>, t: nat, p: seq<Fiber>): seq<Fiber>
  {
    if t < |children| then p + [NewFiber(fs, f, olds, children, t)] else p
  }

  /** The old fiber at position `t` tagged `DELETION` when it has no match. */
  function Tagged(fs: seq<Fiber>, olds: seq<FiberId>, children: seq<Element>, t: nat, a: seq<Fiber>): seq<Fiber>
    requires forall k :: 0 <= k < |olds| ==> olds[k] < |a|
  {
    if t < |olds| && !SameTypeAt(fs, olds, children, t) then a[olds[t] := a[olds[t]].(effectTag := Some(Deletion))] else a
  }

  /** The new fiber at `|fs| + t` (or nothing, past the last element) linked
      in as `f.child` on the first turn or as the previous new fiber's
      sibling on a later one. */
  function Linked(fs: seq<Fiber>, f: FiberId, children: seq<Element>, t: nat, a: seq<Fiber>): seq<Fiber>
    requires f < |a| && (0 < t < |children| ==> |fs| + t - 1 < |a|)
  {
    var made := if t < |children| then Some(|fs| + t) else None;
    if t == 0 then a[f := a[f].(child := made)]
    else if t < |children| then a[|fs| + t - 1 := a[|fs| + t - 1].(sibling := made)]
    else a
  }

  /** The arena after turn `t` of the loop: the arena after its placement
      and tag with the new fiber linked in. */
  function Turn(fs: seq<Fiber>, f: FiberId, olds: seq<FiberId>, children: seq<Element>, t: nat): (b: seq<Fiber>)
    requires f < |fs| && forall k :: 0 <= k < |olds| ==> olds[k] < |fs|
    ensures |b| == |fs| + Min(t + 1, |children|)
    decreases t, 2
  {
    Linked(fs, f, children, t, Marked(fs, f, olds, children, t))
  }

  /** The arena during turn `t`, after the turns before it: the new fiber
      placed and the unmatched old fiber tagged, not yet linked. */
  function Marked(fs: seq<Fiber>, f: FiberId, olds: seq<FiberId>, children: seq<Element>, t: nat): (b: seq<Fiber>)
    requires f < |fs| && forall k :: 0 <= k < |olds| ==> olds[k] < |fs|
    ensures |b| == |fs| + Min(t + 1, |children|)
    decreases t, 1
  {
    Tagged(fs, olds, children, t, Placed(fs, f, olds, children, t, Turned(fs, f, olds, children, t)))
  }

  /** The arena after the first `i` turns of the loop. */
  function Turned(fs: seq<Fiber>, f: FiberId, olds: seq<FiberId>, children: seq<Element>, i: nat): (a: seq<Fiber>)
    requires f < |fs| && forall k :: 0 <= k < |olds| ==> olds[k] < |fs|
    ensures |a| == |fs| + Min(i, |children|)
    decreases i, 0
  {
    if i == 0 then fs else Turn(fs, f, olds, children, i - 1)
  }

  /** Taking the turns one by one arrives at the arena `Arrange` describes. */
  lemma {:induction false} TurnedIsArrange(fs: seq<Fiber>, f: FiberId, olds: seq<FiberId>, children: seq<Element>, i: nat)
    requires f < |fs| && forall k :: 0 <= k < |olds| ==> olds[k] < |fs|
    ensures Turned(fs, f, olds, children, i) == Arrange(fs, f, olds, children, i)
    decreases i
  {
    if i == 0 {
      var a := Arrange(fs, f, olds, children, 0);
      assert |a| == |fs|;
      forall j | 0 <= j < |fs| ensures a[j] == fs[j] {
        assert a[j] == ArrangedOld(fs, f, olds, children, 0, j);
      }
    } else {
      TurnedIsArrange(fs, f, olds, children, i - 1);
      ArrangeStep(fs, f, olds, children, i - 1);
    }
  }

  /** The turns change an old fiber only in its `child` and `effectTag`. */
  lemma TurnedKeepsOld(fs: seq<Fiber>, f: FiberId, olds: seq<FiberId>, children: seq<Element>, i: nat, j: nat)
    requires f < |fs| && (forall k :: 0 <= k < |olds| ==> olds[k] < |fs|) && j < |fs|
    ensures Turned(fs, f, olds, children, i)[j].(child := fs[j].child, effectTag := fs[j].effectTag) == fs[j]
  {
    TurnedIsArrange(fs, f, olds, children, i);
    assert Arrange(fs, f, olds, children, i)[j] == ArrangedOld(fs, f, olds, children, i, j);
  }

  /** Turn `i` takes the arena arranged for `i` turns to the one arranged for
      `i + 1`. */
  lemma ArrangeStep(fs: seq<Fiber>, f: FiberId, olds: seq<FiberId>, children: seq<Element>, i: nat)
    requires f < |fs| && forall k :: 0 <= k < |olds| ==> olds[k] < |fs|
    requires Turned(fs, f, olds, children, i) == Arrange(fs, f, olds, children, i)
    ensures Turned(fs, f, olds, children, i + 1) == Arrange(fs, f, olds, children, i + 1)
  {
    var b := Arrange(fs, f, olds, children, i + 1);
    var t := Turned(fs, f, olds, children, i + 1);
    assert |b| == |t|;
    forall j | 0 <= j < |b| ensures b[j] == t[j] {
      if j < |fs| {
        ArrangeStepOld(fs, f, olds, children, i, j);
      } else {
        ArrangeStepNew(fs, f, olds, children, i, j);
      }
    }
  }

  /** One more turn appends the old fiber at position `i` to the deletions
      when it has no match. */
  lemma DeletedStepList(fs: seq<Fiber>, olds: seq<FiberId>, children: seq<Element>, i: nat)
    ensures Deleted(fs, olds, children, Min(i + 1, |olds|))
         == Deleted(fs, olds, children, Min(i, |olds|))
            + (if i < |olds| && !SameTypeAt(fs, olds, children, i) then [olds[i]] else [])
  {
    if i < |olds| {
      assert Min(i + 1, |olds|) == i + 1 && Min(i, |olds|) == i;
    } else {
      assert Min(i + 1, |olds|) == Min(i, |olds|);
    }
  }

  /** One more turn tags the old fiber at position `i` when it has no match. */
  lemma DeletedStep(fs: seq<Fiber>, olds: seq<FiberId>, children: seq<Element>, i: nat, x: FiberId)
    ensures x in Deleted(fs, olds, children, Min(i + 1, |olds|))
            <==> x in Deleted(fs, olds, children, Min(i, |olds|))
                 || (i < |olds| && !SameTypeAt(fs, olds, children, i) && x == olds[i])
  {
    if i < |olds| {
      assert Min(i + 1, |olds|) == i + 1 && Min(i, |olds|) == i;
    } else {
      assert Min(i + 1, |olds|) == Min(i, |olds|);
    }
  }

  lemma ArrangeStepOld(fs: seq<Fiber>, f: FiberId, olds: seq<FiberId>, children: seq<Element>, i: nat, j: nat)
    requires f < |fs| && (forall k :: 0 <= k < |olds| ==> olds[k] < |fs|) && j < |fs|
    requires Turned(fs, f, olds, children, i) == Arrange(fs, f, olds, children, i)
    ensures Arrange(fs, f, olds, children, i + 1)[j] == Turned(fs, f, olds, children, i + 1)[j]
  {
    var a := Arrange(fs, f, olds, children, i);
    assert a[j] == ArrangedOld(fs, f, olds, children, i, j);
    TurnAtOld(fs, f, olds, children, i, j, a);
    ArrangedOldStep(fs, f, olds, children, i, j);
    assert Arrange(fs, f, olds, children, i + 1)[j] == ArrangedOld(fs, f, olds, children, i + 1, j);
  }

  /** Turn `i` at an old entry: the tag, and on the first turn the link from
      `f`. */
  lemma TurnAtOld(fs: seq<Fiber>, f: FiberId, olds: seq<FiberId>, children: seq<Element>, i: nat, j: nat, a: seq<Fiber>)
    requires f < |fs| && (forall k :: 0 <= k < |olds| ==> olds[k] < |fs|) && j < |fs|
    requires a == Turned(fs, f, olds, children, i)
    ensures var tagged := i < |olds| && !SameTypeAt(fs, olds, children, i) && j == olds[i];
            var a2j := if tagged then a[j].(effectTag := Some(Deletion)) else a[j];
            Turned(fs, f, olds, children, i + 1)[j]
            == if i == 0 && j == f then a2j.(child := if i < |children| then Some(|fs| + i) else None) else a2j
  {
    var p := Placed(fs, f, olds, children, i, a);
    var g := Tagged(fs, olds, children, i, p);
    assert Turned(fs, f, olds, children, i + 1) == Linked(fs, f, children, i, g) by {
      assert Marked(fs, f, olds, children, i) == g;
    }
    assert |a| <= |p| && p[j] == a[j];
  }

  /** `ArrangedOld` one turn later: the tag of turn `i`, and on the first
      turn the link from `f`. */
  lemma ArrangedOldStep(fs: seq<Fiber>, f: FiberId, olds: seq<FiberId>, children: seq<Element>, i: nat, j: nat)
    requires j < |fs|
    ensures var tagged := i < |olds| && !SameTypeAt(fs, olds, children, i) && j == olds[i];
            var x := ArrangedOld(fs, f, olds, children, i, j);
            var a2j := if tagged then x.(effectTag := Some(Deletion)) else x;
            ArrangedOld(fs, f, olds, children, i + 1, j)
            == if i == 0 && j == f then a2j.(child := if i < |children| then Some(|fs| + i) else None) else a2j
  {
    DeletedStep(fs, olds, children, i, j);
    if i == 0 {
      assert Deleted(fs, olds, children, Min(i, |olds|)) == [];
    }
  }

  lemma ArrangeStepNew(fs: seq<Fiber>, f: FiberId, olds: seq<FiberId>, children: seq<Element>, i: nat, j: nat)
    requires f < |fs| && (forall k :: 0 <= k < |olds| ==> olds[k] < |fs|)
    requires |fs| <= j < |Arrange(fs, f, olds, children, i + 1)|
    requires Turned(fs, f, olds, children, i) == Arrange(fs, f, olds, children, i)
    ensures Arrange(fs, f, olds, children, i + 1)[j] == Turned(fs, f, olds, children, i + 1)[j]
  {
    var a := Arrange(fs, f, olds, children, i);
    var k := j - |fs|;
    TurnAtNew(fs, f, olds, children, i, j, a);
    assert Arrange(fs, f, olds, children, i + 1)[j] == ArrangedNew(fs, f, olds, children, i + 1, k);
    if j < |a| {
      assert a[j] == ArrangedNew(fs, f, olds, children, i, k);
    }
  }

  /** Turn `i` at a new entry: the previous new fiber gets the fiber made in
      this turn as its sibling, and that fiber is the one appended. */
  lemma TurnAtNew(fs: seq<Fiber>, f: FiberId, olds: seq<FiberId>, children: seq<Element>, i: nat, j: nat, a: seq<Fiber>)
    requires f < |fs| && (forall k :: 0 <= k < |olds| ==> olds[k] < |fs|)
    requires a == Turned(fs, f, olds, children, i)
    requires |fs| <= j < |fs| + Min(i + 1, |children|)
    ensures j < |a| ==> Turned(fs, f, olds, children, i + 1)[j]
                        == if 0 < i < |children| && j == |fs| + i - 1 then a[j].(sibling := Some(|fs| + i)) else a[j]
    ensures j >= |a| ==> i < |children| && j == |fs| + i
                         && Turned(fs, f, olds, children, i + 1)[j] == NewFiber(fs, f, olds, children, i)
  {
    var p := Placed(fs, f, olds, children, i, a);
    var g := Tagged(fs, olds, children, i, p);
    assert Turned(fs, f, olds, children, i + 1) == Linked(fs, f, children, i, g) by {
      assert Marked(fs, f, olds, children, i) == g;
    }
    assert g[j] == p[j];
  }

  /** The ids `lo, lo+1, ..., lo+n-1`. */
  function Span(lo: nat, n: nat): (ids: seq<FiberId>)
    ensures |ids| == n && forall t :: 0 <= t < n ==> ids[t] == lo + t
  {
    seq(n, t requires 0 <= t < n => lo + t)
  }

  /** A run of entries each linked to the next forms one sibling chain. */
  lemma {:induction false} LinkedRunIsChain(r: seq<Fiber>, lo: nat, n: nat, here: nat)
    requires WellLinked(r) && lo + n <= |r| && lo <= here < lo + n
    requires forall j :: lo <= j < lo + n ==> r[j].sibling == (if j + 1 < lo + n then Some(j + 1) else None)
    ensures SiblingChain(r, Some(here)) == Span(here, lo + n - here)
    decreases lo + n - here
  {
    SpanCons(here, lo + n - here);
    if here + 1 < lo + n {
      LinkedRunIsChain(r, lo, n, here + 1);
      assert r[here].sibling == Some(here + 1);
    } else {
      assert r[here].sibling == None;
      assert Span(here + 1, 0) == [];
    }
    assert SiblingChain(r, Some(here)) == [here] + SiblingChain(r, r[here].sibling);
  }

  /** A span of ids is its first id followed by the rest. */
  lemma SpanCons(lo: nat, n: nat)
    requires n > 0
    ensures Span(lo, n) == [lo] + Span(lo + 1, n - 1)
  {
    var a := Span(lo, n);
    var b := [lo] + Span(lo + 1, n - 1);
    assert |a| == |b|;
    forall t | 0 <= t < n ensures a[t] == b[t] {
      if t > 0 {
        assert b[t] == Span(lo + 1, n - 1)[t - 1];
      }
    }
  }

  /** When `f.child` is the first of `n` entries at the end of the arena
      that are linked one to the next, the chain from `f.child` is exactly
      those entries. */
  lemma NewRunIsChain(r: seq<Fiber>, f: FiberId, lo: nat, n: nat)
    requires WellLinked(r) && f < lo && lo + n == |r|
    requires r[f].child == if n > 0 then Some(lo) else None
    requires forall j :: lo <= j < lo + n ==> r[j].sibling == (if j + 1 < lo + n then Some(j + 1) else None)
    ensures Valid?(r, r[f].child) && SiblingChain(r, r[f].child) == Span(lo, n)
  {
    if n > 0 {
      LinkedRunIsChain(r, lo, n, lo);
    } else {
      assert Span(lo, n) == [];
    }
  }

  /** The new fibers `reconcileChildren(f, children)` appends have parent
      `f`, and each is linked to the next one. */
  lemma ReconciledNewFiber(fs: seq<Fiber>, f: FiberId, children: seq<Element>, j: nat)
    requires WellLinked(fs) && f < |fs| && |fs| <= j < |fs| + |children|
    ensures |Reconciled(fs, f, children)| == |fs| + |children|
    ensures Reconciled(fs, f, children)[j].parent == Some(f)
    ensures Reconciled(fs, f, children)[j].sibling == if j + 1 < |fs| + |children| then Some(j + 1) else None
  {
    var olds := OldChildren(fs, f);
    assert Min(Turns(fs, f, children), |children|) == |children|;
    assert Reconciled(fs, f, children)[j] == ArrangedNew(fs, f, olds, children, Turns(fs, f, children), j - |fs|);
  }

  /** Once the loop has turned, `f.child` is the first new fiber, or nothing
      when there are no elements. */
  lemma ReconciledFirstChild(fs: seq<Fiber>, f: FiberId, children: seq<Element>)
    requires WellLinked(fs) && f < |fs| && Turns(fs, f, children) > 0
    ensures Reconciled(fs, f, children)[f].child == if |children| > 0 then Some(|fs|) else None
  {
    assert Reconciled(fs, f, children)[f]
        == ArrangedOld(fs, f, OldChildren(fs, f), children, Turns(fs, f, children), f);
  }

  /** With no elements and no old children nothing changes. */
  lemma ReconciledNoTurn(fs: seq<Fiber>, f: FiberId, children: seq<Element>)
    requires WellLinked(fs) && f < |fs| && Turns(fs, f, children) == 0
    ensures Reconciled(fs, f, children) == fs
  {
    var r := Reconciled(fs, f, children);
    assert |r| == |fs|;
    forall j | 0 <= j < |fs| ensures r[j] == fs[j] {
      assert r[j] == ArrangedOld(fs, f, OldChildren(fs, f), children, 0, j);
    }
  }

  /** After `reconcileChildren(f, children)` (the arena `r`): the arena is
      still well linked; when the loop turned, `f.child` starts a sibling
      chain that is exactly the new fibers, one per element in element order,
      each with parent `f`; when it did not (no elements and no old
      children), nothing changed. */
  lemma ReconcileLinksChildren(fs: seq<Fiber>, f: FiberId, children: seq<Element>, r: seq<Fiber>)
    requires WellLinked(fs) && f < |fs| && AllWellFormed(children)
    requires r == Reconciled(fs, f, children)
    ensures WellLinked(r)
    ensures |r| == |fs| + |children|
    ensures Turns(fs, f, children) > 0 ==>
              Valid?(r, r[f].child) && SiblingChain(r, r[f].child) == Span(|fs|, |children|)
    ensures Turns(fs, f, children) == 0 ==> r == fs
    ensures forall j :: |fs| <= j < |r| ==> r[j].parent == Some(f)
  {
    ReconcileKeepsLinks(fs, f, children, Turns(fs, f, children));
    assert |r| == |fs| + Min(Turns(fs, f, children), |children|);
    assert Min(Turns(fs, f, children), |children|) == |children|;
    forall j | |fs| <= j < |r|
      ensures r[j].parent == Some(f)
      ensures r[j].sibling == (if j + 1 < |fs| + |children| then Some(j + 1) else None)
    {
      ReconciledNewFiber(fs, f, children, j);
    }
    if Turns(fs, f, children) > 0 {
      ReconciledFirstChild(fs, f, children);
      NewRunIsChain(r, f, |fs|, |children|);
    } else {
      ReconciledNoTurn(fs, f, children);
    }
  }

  /** Every old child has a parent, so `commitWork` can walk from it. */
  lemma {:induction false} ChainHasParents(fs: seq<Fiber>, c: Option<FiberId>)
    requires WellLinked(fs) && Committable(fs, c)
    ensures forall k :: 0 <= k < |SiblingChain(fs, c)| ==> Committable(fs, Some(SiblingChain(fs, c)[k]))
    decreases Rank(fs, c)
  {
    if c.Some? {
      assert LinksHaveParents(fs, c.value);
      ChainHasParents(fs, fs[c.value].sibling);
      var chain := SiblingChain(fs, c);
      var rest := SiblingChain(fs, fs[c.value].sibling);
      assert chain == [c.value] + rest;
      forall k | 0 < k < |chain| ensures Committable(fs, Some(chain[k])) {
        assert chain[k] == rest[k - 1];
      }
    }
  }

  lemma OldChildrenHaveParents(fs: seq<Fiber>, f: FiberId)
    requires WellLinked(fs) && f < |fs|
    ensures forall k :: 0 <= k < |OldChildren(fs, f)| ==> Committable(fs, Some(OldChildren(fs, f)[k]))
  {
    if fs[f].alternate.Some? {
      assert LinksHaveParents(fs, fs[f].alternate.value);
    }
    ChainHasParents(fs, AlternateChild(fs, f));
  }

  /* ---------------- useState: the queue fold ---------------- */

  /** `actions.forEach(action => { hook.state = action(hook.state) })`. */
  function Fold(q: seq<Action>, s: Value): Value
    decreases |q|
  {
    if q == [] then s else Fold(q[1..], q[0](s))
  }

  /** Folding two queues one after the other folds their concatenation: an
      update queued in a later render is applied after every earlier one. */
  lemma {:induction false} FoldAppend(a: seq<Action>, b: seq<Action>, s: Value)
    ensures Fold(a + b, s) == Fold(b, Fold(a, s))
    decreases |a|
  {
    if a != [] {
      assert a + b != [] && (a + b)[0] == a[0];
      assert (a + b)[1..] == a[1..] + b;
      FoldAppend(a[1..], b, a[0](s));
    } else {
      assert a + b == b;
    }
  }

  /** The state `useState` resolves: the old cell's queue folded over the old
      cell's state, or `initial` when the alternate has no cell there. */
  function Resolve(oldHook: Option<Hook>, initial: Value): Value
  {
    match oldHook
    case Some(h) => Fold(h.quene, h.state)
    case None => Fold([], initial)
  }

  /* ---------------- commit: the DOM calls ---------------- */

  /** The DOM calls a commit issues, and whether it ran to the end (false
      when it threw part-way). */
  datatype Trace = Trace(ops: seq<DomOp>, completed: bool)

  /** Run `a`, then `b` unless `a` threw. */
  function Then(a: Trace, b: Trace): Trace
  {
    if a.completed then Trace(a.ops + b.ops, b.completed) else a
  }

  /** `commitDeletion(fiber, dom)`: the removal call the first fiber of the
      `child` chain that owns a node issues, as written:
      `fiber.dom.removeChild(dom)` (the deleted node is the receiver and the
      parent node the argument), and the recursion passes `fiber.dom`, which
      is `null` there.  None when the chain ends first: reading `dom` of an
      absent child throws. */
  function DeletionOp(fs: seq<Fiber>, x: Option<FiberId>, d: Option<NodeId>): Option<DomOp>
    requires WellLinked(fs) && Valid?(fs, x)
    decreases Rank(fs, x)
  {
    match x
    case None => None
    case Some(y) =>
      if fs[y].dom.Some? then Some(RemoveChild(fs[y].dom.value, d))
      else DeletionOp(fs, fs[y].child, fs[y].dom)
  }

  /** The calls `commitWork` issues for fiber `x` itself. */
  function OwnCommit(fs: seq<Fiber>, x: FiberId): Trace
    requires WellLinked(fs) && x < |fs| && fs[x].parent.Some?
  {
    var f := fs[x];
    var domParent := ParentDom(fs, f.parent.value);
    if f.effectTag == Some(Placement) && f.dom.Some? then
      Trace([AppendChild(domParent, f.dom.value)], true)
    else if f.effectTag == Some(Deletion) then
      match DeletionOp(fs, Some(x), Some(domParent))
      case Some(op) => Trace([op], true)
      case None => Trace([], false)
    else if f.effectTag == Some(Update) && f.dom.Some? then
      Trace(UpdateDomOps(f.dom.value, fs[f.alternate.value].props, f.props), true)
    else
      Trace([], true)
  }

  /** Fibers whose `parent` is set: `commitWork` reads it first. */
  predicate Committable(fs: seq<Fiber>, x: Option<FiberId>)
  {
    Valid?(fs, x) && (x.Some? ==> fs[x.value].parent.Some?)
  }

  /** `commitWork(fiber)`: the fiber's own calls, then its child's walk, then
      its sibling's walk. */
  function CommitTrace(fs: seq<Fiber>, x: Option<FiberId>): Trace
    requires WellLinked(fs) && Committable(fs, x)
    decreases Rank(fs, x)
  {
    match x
    case None => Trace([], true)
    case Some(y) =>
      assert LinksHaveParents(fs, y);
      Then(Then(OwnCommit(fs, y), CommitTrace(fs, fs[y].child)), CommitTrace(fs, fs[y].sibling))
  }

  /** `deletions.forEach(commitWork)`. */
  function DeletionsTrace(fs: seq<Fiber>, ds: seq<FiberId>): Trace
    requires WellLinked(fs) && forall i :: 0 <= i < |ds| ==> Committable(fs, Some(ds[i]))
    decreases |ds|
  {
    if ds == [] then Trace([], true)
    else Then(DeletionsTrace(fs, ds[..|ds| - 1]), CommitTrace(fs, Some(ds[|ds| - 1])))
  }

  /* ---------------- commit: the walk ---------------- */

  /** `fiber, fiber.child, fiber.child.child, ...`: the fibers
      `commitDeletion` visits. */
  function ChildPath(fs: seq<Fiber>, x: Option<FiberId>): (path: seq<FiberId>)
    requires WellLinked(fs) && Valid?(fs, x)
    ensures forall k :: 0 <= k < |path| ==> path[k] < |fs|
    ensures x.Some? ==> |path| > 0 && path[0] == x.value
    decreases Rank(fs, x)
  {
    if x.None? then [] else [x.value] + ChildPath(fs, fs[x.value].child)
  }

  /** `commitDeletion(fiber, parent)` removes the node of the first fiber on
      the child path that owns one, calling `removeChild` on that node (not on
      the parent) with the parent as argument only when that fiber is the
      deleted fiber itself, and `null` otherwise; when no fiber on the path
      owns a node the call throws. */
  lemma {:induction false} DeletionTargetsFirstHost(fs: seq<Fiber>, x: Option<FiberId>, d: Option<NodeId>, path: seq<FiberId>)
    requires WellLinked(fs) && Valid?(fs, x) && path == ChildPath(fs, x)
    ensures DeletionOp(fs, x, d).None? <==> NoDomBefore(fs, path, |path|)
    ensures forall k :: 0 <= k < |path| && fs[path[k]].dom.Some? && NoDomBefore(fs, path, k)
              ==> DeletionOp(fs, x, d) == Some(RemoveChild(fs[path[k]].dom.value, if k == 0 then d else None))
    decreases Rank(fs, x)
  {
    if x.Some? {
      var y := x.value;
      if fs[y].dom.Some? {
        assert !NoDomBefore(fs, path, |path|) by { assert fs[path[0]].dom.Some?; }
        forall k | 0 <= k < |path| && fs[path[k]].dom.Some? && NoDomBefore(fs, path, k)
          ensures DeletionOp(fs, x, d) == Some(RemoveChild(fs[path[k]].dom.value, if k == 0 then d else None))
        {
          assert k == 0;
        }
      } else {
        var down := ChildPath(fs, fs[y].child);
        DeletionTargetsFirstHost(fs, fs[y].child, fs[y].dom, down);
        assert path == [y] + down;
        NoDomShift(fs, y, down, |down|);
        forall k | 0 <= k < |path| && fs[path[k]].dom.Some? && NoDomBefore(fs, path, k)
          ensures DeletionOp(fs, x, d) == Some(RemoveChild(fs[path[k]].dom.value, if k == 0 then d else None))
        {
          assert k > 0 by { assert path[0] == y; }
          NoDomShift(fs, y, down, k - 1);
          assert down[k - 1] == path[k];
        }
      }
    }
  }

  /** Putting a fiber without a node in front of a path adds one fiber
      without a node to each of its prefixes. */
  lemma NoDomShift(fs: seq<Fiber>, y: FiberId, down: seq<FiberId>, n: nat)
    requires y < |fs| && fs[y].dom.None? && n <= |down|
    ensures NoDomBefore(fs, [y] + down, n + 1) <==> NoDomBefore(fs, down, n)
  {
    var path := [y] + down;
    if NoDomBefore(fs, down, n) {
      forall j | 0 <= j < n + 1 && j < |path| && path[j] < |fs| ensures fs[path[j]].dom.None? {
        if j > 0 {
          assert path[j] == down[j - 1];
        }
      }
    }
    if NoDomBefore(fs, path, n + 1) {
      forall j | 0 <= j < n && j < |down| && down[j] < |fs| ensures fs[down[j]].dom.None? {
        assert down[j] == path[j + 1];
      }
    }
  }

  /** Deleting a host fiber calls `removeChild` on the deleted node itself,
      with its parent's node as the argument. */
  lemma HostDeletionSwapsReceiver(fs: seq<Fiber>, y: FiberId)
    requires WellLinked(fs) && y < |fs| && fs[y].parent.Some?
    requires fs[y].effectTag == Some(Deletion) && fs[y].dom.Some?
    ensures OwnCommit(fs, y) == Trace([RemoveChild(fs[y].dom.value, Some(ParentDom(fs, fs[y].parent.value)))], true)
  {
  }

  /** Deleting a function fiber whose child is a host fiber calls
      `removeChild(null)` on the child's node: the parent node is lost. */
  lemma ComponentDeletionPassesNull(fs: seq<Fiber>, y: FiberId)
    requires WellLinked(fs) && y < |fs| && fs[y].parent.Some?
    requires fs[y].effectTag == Some(Deletion) && fs[y].dom.None?
    requires fs[y].child.Some? && fs[fs[y].child.value].dom.Some?
    ensures OwnCommit(fs, y) == Trace([RemoveChild(fs[fs[y].child.value].dom.value, None)], true)
  {
    assert DeletionOp(fs, fs[y].child, None) == Some(RemoveChild(fs[fs[y].child.value].dom.value, None));
  }

  /** The order `commitWork` visits fibers in: the fiber, then its child's
      walk, then its sibling's walk. */
  function Walk(fs: seq<Fiber>, x: Option<FiberId>): (w: seq<FiberId>)
    requires WellLinked(fs) && Committable(fs, x)
    ensures forall k :: 0 <= k < |w| ==> Committable(fs, Some(w[k]))
    ensures x.Some? ==> |w| > 0 && w[0] == x.value
    decreases Rank(fs, x)
  {
    match x
    case None => []
    case Some(y) =>
      assert LinksHaveParents(fs, y);
      [y] + Walk(fs, fs[y].child) + Walk(fs, fs[y].sibling)
  }

  /** The own calls of the fibers `ws`, one after the other, stopping at the
      first that throws. */
  function OwnCommits(fs: seq<Fiber>, ws: seq<FiberId>): Trace
    requires WellLinked(fs) && forall k :: 0 <= k < |ws| ==> Committable(fs, Some(ws[k]))
    decreases |ws|
  {
    if ws == [] then Trace([], true)
    else
      assert Committable(fs, Some(ws[0]));
      Then(OwnCommit(fs, ws[0]), OwnCommits(fs, ws[1..]))
  }

  lemma ThenAssociative(a: Trace, b: Trace, c: Trace)
    ensures Then(Then(a, b), c) == Then(a, Then(b, c))
  {
  }

  /** `commitWork` on a fiber: its own calls, then both recursive walks. */
  lemma CommitTraceSplit(fs: seq<Fiber>, y: FiberId)
    requires WellLinked(fs) && Committable(fs, Some(y))
    ensures LinksHaveParents(fs, y)
    ensures CommitTrace(fs, Some(y))
         == Then(OwnCommit(fs, y), Then(CommitTrace(fs, fs[y].child), CommitTrace(fs, fs[y].sibling)))
  {
    assert LinksHaveParents(fs, y);
    ThenAssociative(OwnCommit(fs, y), CommitTrace(fs, fs[y].child), CommitTrace(fs, fs[y].sibling));
  }

  lemma {:induction false} OwnCommitsAppend(fs: seq<Fiber>, a: seq<FiberId>, b: seq<FiberId>)
    requires WellLinked(fs)
    requires forall k :: 0 <= k < |a| ==> Committable(fs, Some(a[k]))
    requires forall k :: 0 <= k < |b| ==> Committable(fs, Some(b[k]))
    ensures forall k :: 0 <= k < |a + b| ==> Committable(fs, Some((a + b)[k]))
    ensures OwnCommits(fs, a + b) == Then(OwnCommits(fs, a), OwnCommits(fs, b))
    decreases |a|
  {
    if a == [] {
      assert a + b == b;
    } else {
      assert (a + b)[0] == a[0] && (a + b)[1..] == a[1..] + b;
      OwnCommitsAppend(fs, a[1..], b);
      ThenAssociative(OwnCommit(fs, a[0]), OwnCommits(fs, a[1..]), OwnCommits(fs, b));
    }
  }

  /** `commitWork` is a pre-order, child-then-sibling walk: its calls are the
      own calls of the walked fibers in walk order. */
  lemma {:induction false} CommitFollowsWalk(fs: seq<Fiber>, x: Option<FiberId>)
    requires WellLinked(fs) && Committable(fs, x)
    ensures CommitTrace(fs, x) == OwnCommits(fs, Walk(fs, x))
    decreases Rank(fs, x)
  {
    if x.Some? {
      var y := x.value;
      assert LinksHaveParents(fs, y);
      var wc := Walk(fs, fs[y].child);
      var ws := Walk(fs, fs[y].sibling);
      CommitFollowsWalk(fs, fs[y].child);
      CommitFollowsWalk(fs, fs[y].sibling);
      OwnCommitsAppend(fs, [y], wc);
      OwnCommitsAppend(fs, [y] + wc, ws);
      assert OwnCommits(fs, [y]) == Then(OwnCommit(fs, y), Trace([], true));
      assert Walk(fs, x) == [y] + wc + ws;
    }
  }

  /** A run of own commits completes exactly when every one of them does. */
  lemma {:induction false} OwnCommitsCompleted(fs: seq<Fiber>, ws: seq<FiberId>)
    requires WellLinked(fs) && forall k :: 0 <= k < |ws| ==> Committable(fs, Some(ws[k]))
    ensures OwnCommits(fs, ws).completed <==> forall k :: 0 <= k < |ws| ==> OwnCommit(fs, ws[k]).completed
    decreases |ws|
  {
    if ws != [] {
      OwnCommitsCompleted(fs, ws[1..]);
      assert forall k :: 1 <= k < |ws| ==> ws[k] == ws[1..][k - 1];
    }
  }

  /** Every call a run of own commits issues is an own call of one of them. */
  lemma {:induction false} OwnCommitsIssuedBy(fs: seq<Fiber>, ws: seq<FiberId>, op: DomOp)
    requires WellLinked(fs) && forall k :: 0 <= k < |ws| ==> Committable(fs, Some(ws[k]))
    requires op in OwnCommits(fs, ws).ops
    ensures exists k :: 0 <= k < |ws| && op in OwnCommit(fs, ws[k]).ops
    decreases |ws|
  {
    assert Committable(fs, Some(ws[0]));
    if op !in OwnCommit(fs, ws[0]).ops {
      OwnCommitsIssuedBy(fs, ws[1..], op);
      var k :| 0 <= k < |ws[1..]| && op in OwnCommit(fs, ws[1..][k]).ops;
      assert op in OwnCommit(fs, ws[k + 1]).ops;
    }
  }

  /** A run that completes issues every own call of every fiber in it. */
  lemma {:induction false} OwnCommitsIssueAll(fs: seq<Fiber>, ws: seq<FiberId>, k: nat, op: DomOp)
    requires WellLinked(fs) && forall k :: 0 <= k < |ws| ==> Committable(fs, Some(ws[k]))
    requires OwnCommits(fs, ws).completed && k < |ws| && op in OwnCommit(fs, ws[k]).ops
    ensures op in OwnCommits(fs, ws).ops
    decreases |ws|
  {
    assert Committable(fs, Some(ws[0]));
    if k > 0 {
      assert ws[k] == ws[1..][k - 1];
      OwnCommitsIssueAll(fs, ws[1..], k - 1, op);
    }
  }

  /** `commitWork` on a fiber always goes on to its sibling, whatever the
      fiber's tag: a sibling that is a `PLACEMENT` with a node is appended to
      its parent node by that walk.  For a deleted fiber, committed from
      `deletions`, that sibling is a stale link of the old tree, so a fiber
      placed in an earlier commit is appended again. */
  lemma StaleSiblingRecommitted(fs: seq<Fiber>, y: FiberId)
    requires WellLinked(fs) && y < |fs| && fs[y].parent.Some?
    requires fs[y].sibling.Some? && CommitTrace(fs, Some(y)).completed
    requires var s := fs[y].sibling.value;
             fs[s].effectTag == Some(Placement) && fs[s].dom.Some? && fs[s].parent.Some?
    ensures var s := fs[y].sibling.value;
            AppendChild(ParentDom(fs, fs[s].parent.value), fs[s].dom.value) in CommitTrace(fs, Some(y)).ops
  {
    var s := fs[y].sibling.value;
    assert LinksHaveParents(fs, y);
    CommitFollowsWalk(fs, Some(y));
    var w := Walk(fs, Some(y));
    var ws := Walk(fs, fs[y].sibling);
    assert w == [y] + Walk(fs, fs[y].child) + ws;
    assert w[|w| - |ws|] == s;
    assert AppendChild(ParentDom(fs, fs[s].parent.value), fs[s].dom.value) in OwnCommit(fs, s).ops;
    OwnCommitsIssueAll(fs, w, |w| - |ws|, AppendChild(ParentDom(fs, fs[s].parent.value), fs[s].dom.value));
  }

  /** A `commitWork` walk that completes appends every `PLACEMENT` fiber it
      visits that owns a node to the nearest node above it, and issues every
      `updateDom` call of every `UPDATE` fiber it visits that owns a node,
      from the alternate's props to its own. */
  lemma CommitWalkIssues(fs: seq<Fiber>, x: Option<FiberId>, k: nat)
    requires WellLinked(fs) && Committable(fs, x) && CommitTrace(fs, x).completed
    requires k < |Walk(fs, x)|
    ensures var y := Walk(fs, x)[k];
            var ops := CommitTrace(fs, x).ops;
            && (fs[y].effectTag == Some(Placement) && fs[y].dom.Some? ==>
                  AppendChild(ParentDom(fs, fs[y].parent.value), fs[y].dom.value) in ops)
            && (fs[y].effectTag == Some(Update) && fs[y].dom.Some? ==>
                  forall op :: op in UpdateDomOps(fs[y].dom.value, fs[fs[y].alternate.value].props, fs[y].props)
                               ==> op in ops)
  {
    var w := Walk(fs, x);
    var y := w[k];
    CommitFollowsWalk(fs, x);
    if fs[y].effectTag == Some(Placement) && fs[y].dom.Some? {
      var op := AppendChild(ParentDom(fs, fs[y].parent.value), fs[y].dom.value);
      assert op in OwnCommit(fs, y).ops;
      OwnCommitsIssueAll(fs, w, k, op);
    }
    if fs[y].effectTag == Some(Update) && fs[y].dom.Some? {
      forall op | op in UpdateDomOps(fs[y].dom.value, fs[fs[y].alternate.value].props, fs[y].props)
        ensures op in CommitTrace(fs, x).ops
      {
        assert op in OwnCommit(fs, y).ops;
        OwnCommitsIssueAll(fs, w, k, op);
      }
    }
  }

  /** A fiber without a node that is not deleted (a function fiber) issues
      no call of its own: `commitWork` passes straight on to its child and
      then its sibling. */
  lemma NodelessFiberPassesThrough(fs: seq<Fiber>, y: FiberId)
    requires WellLinked(fs) && Committable(fs, Some(y))
    requires fs[y].dom.None? && fs[y].effectTag != Some(Deletion)
    ensures OwnCommit(fs, y) == Trace([], true)
    ensures LinksHaveParents(fs, y)
    ensures CommitTrace(fs, Some(y)) == Then(CommitTrace(fs, fs[y].child), CommitTrace(fs, fs[y].sibling))
  {
    CommitTraceSplit(fs, y);
    var rest := Then(CommitTrace(fs, fs[y].child), CommitTrace(fs, fs[y].sibling));
    assert [] + rest.ops == rest.ops;
  }

  /** The calls `commitRoot` issues: the deletions first, then the new tree
      below the root. */
  function CommitRootTrace(fs: seq<Fiber>, ds: seq<FiberId>, root: FiberId): Trace
    requires WellLinked(fs) && root < |fs|
    requires forall i :: 0 <= i < |ds| ==> Committable(fs, Some(ds[i]))
  {
    assert LinksHaveParents(fs, root);
    Then(DeletionsTrace(fs, ds), CommitTrace(fs, fs[root].child))
  }

  /** Once a deletion throws, the later ones are not committed. */
  lemma {:induction false} DeletionsTraceStops(fs: seq<Fiber>, ds: seq<FiberId>, n: nat)
    requires WellLinked(fs) && forall i :: 0 <= i < |ds| ==> Committable(fs, Some(ds[i]))
    requires n <= |ds| && !DeletionsTrace(fs, ds[..n]).completed
    ensures DeletionsTrace(fs, ds) == DeletionsTrace(fs, ds[..n])
    decreases |ds|
  {
    if n < |ds| {
      var front := ds[..|ds| - 1];
      assert front[..n] == ds[..n];
      DeletionsTraceStops(fs, front, n);
    } else {
      assert ds[..n] == ds;
    }
  }

  /* ---------------- arena updates the engine makes ---------------- */

  /** `x` is absent or a root fiber. */
  predicate IsRoot(fs: seq<Fiber>, x: Option<FiberId>)
  {
    x.Some? ==> x.value < |fs| && fs[x.value].parent.None?
  }

  /** Appending a new root fiber keeps the arena well linked. */
  lemma AppendRootKeepsLinks(fs: seq<Fiber>, dom: NodeId, props: Props, alternate: Option<FiberId>)
    requires WellLinked(fs) && WFProps(props) && Valid?(fs, alternate)
    ensures WellLinked(fs + [RootFiber(dom, props, alternate)])
  {
    var r := fs + [RootFiber(dom, props, alternate)];
    forall j | 0 <= j < |r| ensures FiberOk(r, j) {
      if j < |fs| {
        assert r[j] == fs[j] && LinksHaveParents(fs, j);
      }
    }
    EntriesMakeWellLinked(r);
  }

  /** Replacing a fiber by one with the same links, type and props keeps the
      arena well linked, provided a root keeps a DOM node and an `UPDATE`
      fiber an alternate. */
  lemma ReplaceKeepsLinks(fs: seq<Fiber>, j: nat, g: Fiber)
    requires WellLinked(fs) && j < |fs|
    requires g.(dom := fs[j].dom, hooks := fs[j].hooks, effectTag := fs[j].effectTag) == fs[j]
    requires g.parent.None? ==> g.dom.Some?
    requires g.effectTag == Some(Update) ==> g.alternate.Some?
    ensures WellLinked(fs[j := g])
  {
    var r := fs[j := g];
    forall i | 0 <= i < |r| ensures FiberOk(r, i) {
      assert LinksHaveParents(fs, i);
      if r[i].child.Some? { assert r[r[i].child.value].parent == fs[fs[i].child.value].parent; }
      if r[i].sibling.Some? { assert r[r[i].sibling.value].parent == fs[fs[i].sibling.value].parent; }
    }
    EntriesMakeWellLinked(r);
  }

  /** What the module's globals keep between calls: a well-linked arena,
      the next unit and the fiber being rendered inside it, the two roots
      fibers without a parent, and every queued deletion a fiber with a parent. */
  ghost predicate SessionOk(fs: seq<Fiber>, next: Option<FiberId>, wipRoot: Option<FiberId>, currentRoot: Option<FiberId>,
                            deletions: seq<FiberId>, wipFiber: Option<FiberId>)
  {
    && WellLinked(fs)
    && Valid?(fs, next)
    && IsRoot(fs, wipRoot)
    && IsRoot(fs, currentRoot)
    && (forall i :: 0 <= i < |deletions| ==> Committable(fs, Some(deletions[i])))
    && Valid?(fs, wipFiber)
  }

  /** Reconciliation keeps the globals' conditions, with its deletions
      queued after the earlier ones. */
  lemma ReconcileKeepsSession(fs: seq<Fiber>, f: FiberId, children: seq<Element>, next: Option<FiberId>,
                              wipRoot: Option<FiberId>, currentRoot: Option<FiberId>, ds: seq<FiberId>,
                              wipFiber: Option<FiberId>)
    requires SessionOk(fs, next, wipRoot, currentRoot, ds, wipFiber) && f < |fs| && AllWellFormed(children)
    ensures SessionOk(Reconciled(fs, f, children), next, wipRoot, currentRoot, ds + Deletions(fs, f, children), wipFiber)
  {
    ReconcileKeepsCommittable(fs, f, children, ds);
    if wipRoot.Some? {
      assert IsRoot(fs, Some(wipRoot.value));
    }
    if currentRoot.Some? {
      assert IsRoot(fs, Some(currentRoot.value));
    }
  }

  /** Replacing a fiber by one with the same links, type and props keeps
      the globals' conditions. */
  lemma ReplaceKeepsSession(fs: seq<Fiber>, j: nat, g: Fiber, next: Option<FiberId>, wipRoot: Option<FiberId>,
                            currentRoot: Option<FiberId>, deletions: seq<FiberId>, wipFiber: Option<FiberId>)
    requires SessionOk(fs, next, wipRoot, currentRoot, deletions, wipFiber) && j < |fs|
    requires g.(dom := fs[j].dom, hooks := fs[j].hooks, effectTag := fs[j].effectTag) == fs[j]
    requires g.parent.None? ==> g.dom.Some?
    requires g.effectTag == Some(Update) ==> g.alternate.Some?
    ensures SessionOk(fs[j := g], next, wipRoot, currentRoot, deletions, wipFiber)
  {
    ReplaceKeepsLinks(fs, j, g);
    var r := fs[j := g];
    forall i | 0 <= i < |deletions| ensures Committable(r, Some(deletions[i])) {
      assert Committable(fs, Some(deletions[i]));
    }
  }

  /** Reconciliation changes, in the old arena, only `child` and `effectTag`
      fields. */
  lemma ReconcileKeepsOld(fs: seq<Fiber>, f: FiberId, children: seq<Element>)
    requires WellLinked(fs) && f < |fs|
    ensures var r := Reconciled(fs, f, children);
            && |fs| <= |r|
            && forall j :: 0 <= j < |fs| ==> r[j].(child := fs[j].child, effectTag := fs[j].effectTag) == fs[j]
  {
    var r := Reconciled(fs, f, children);
    forall j | 0 <= j < |fs| ensures r[j].(child := fs[j].child, effectTag := fs[j].effectTag) == fs[j] {
      assert r[j] == ArrangedOld(fs, f, OldChildren(fs, f), children, Turns(fs, f, children), j);
    }
  }

  /** After reconciliation the arena is well linked and has grown, every
      fiber queued for deletion, the earlier ones and the new ones, still has
      a parent, and the roots stay roots. */
  lemma ReconcileKeepsCommittable(fs: seq<Fiber>, f: FiberId, children: seq<Element>, ds: seq<FiberId>)
    requires WellLinked(fs) && f < |fs| && AllWellFormed(children)
    requires forall k :: 0 <= k < |ds| ==> Committable(fs, Some(ds[k]))
    ensures WellLinked(Reconciled(fs, f, children)) && |fs| <= |Reconciled(fs, f, children)|
    ensures forall k :: 0 <= k < |ds + Deletions(fs, f, children)| ==>
              Committable(Reconciled(fs, f, children), Some((ds + Deletions(fs, f, children))[k]))
    ensures forall x: FiberId :: IsRoot(fs, Some(x)) ==> IsRoot(Reconciled(fs, f, children), Some(x))
  {
    var r := Reconciled(fs, f, children);
    var all := ds + Deletions(fs, f, children);
    ReconcileLinksChildren(fs, f, children, r);
    ReconcileKeepsOld(fs, f, children);
    DeletionsAreMismatches(fs, f, children);
    OldChildrenHaveParents(fs, f);
    var olds := OldChildren(fs, f);
    forall k | 0 <= k < |all| ensures Committable(r, Some(all[k])) {
      if k < |ds| {
        assert all[k] == ds[k];
      } else {
        var x := all[k];
        assert x in Deletions(fs, f, children);
        assert x in olds;
        var m :| 0 <= m < |olds| && olds[m] == x;
        assert Committable(fs, Some(olds[m]));
      }
      assert r[all[k]].parent == fs[all[k]].parent;
    }
    forall x: FiberId | IsRoot(fs, Some(x)) ensures IsRoot(r, Some(x)) {
      assert r[x].parent == fs[x].parent;
    }
  }

  /* ---------------- hooks ---------------- */

  /** The setter `useState` returns: it addresses the cell by its fiber and
      its position in that fiber's `hooks`. */
  datatype Handle = Handle(fiber: FiberId, index: nat)

  /** `hook.quene.push(action)` on the addressed cell. */
  function Enqueue(fs: seq<Fiber>, h: Handle, action: Action): (r: seq<Fiber>)
    requires h.fiber < |fs| && h.index < |fs[h.fiber].hooks|
    ensures |r| == |fs|
  {
    var cell := fs[h.fiber].hooks[h.index];
    fs[h.fiber := fs[h.fiber].(hooks := fs[h.fiber].hooks[h.index := cell.(quene := cell.quene + [action])])]
  }

  /** Queueing an action appends it to the cell's queue and leaves every other
      cell and every other field alone. */
  lemma EnqueueAppends(fs: seq<Fiber>, h: Handle, action: Action)
    requires h.fiber < |fs| && h.index < |fs[h.fiber].hooks|
    ensures var r := Enqueue(fs, h, action);
            && r[h.fiber].hooks[h.index].quene == fs[h.fiber].hooks[h.index].quene + [action]
            && r[h.fiber].hooks[h.index].state == fs[h.fiber].hooks[h.index].state
            && |r[h.fiber].hooks| == |fs[h.fiber].hooks|
            && (forall k :: 0 <= k < |fs[h.fiber].hooks| && k != h.index ==> r[h.fiber].hooks[k] == fs[h.fiber].hooks[k])
            && r[h.fiber].(hooks := fs[h.fiber].hooks) == fs[h.fiber]
            && forall j :: 0 <= j < |fs| && j != h.fiber ==> r[j] == fs[j]
  {
  }

  /** `wipFiber.alternate.hooks[hookIndex]`, when there is such a cell. */
  function OldHook(fs: seq<Fiber>, f: FiberId, index: nat): Option<Hook>
    requires f < |fs| && Valid?(fs, fs[f].alternate)
  {
    var alt := fs[f].alternate;
    if alt.Some? && index < |fs[alt.value].hooks| then Some(fs[alt.value].hooks[index]) else None
  }

  /** `fiber.type instanceof Function`. */
  predicate IsFunctionFiber(fs: seq<Fiber>, f: FiberId)
    requires f < |fs|
  {
    fs[f].ty.Some? && fs[f].ty.value.Component?
  }

  /** The states the `useState` calls of one render of fiber `f` resolve,
      given the initial values those calls pass, in call order: call `k`
      reads the alternate's cell `k`. */
  function RenderStates(fs: seq<Fiber>, f: FiberId, inits: seq<Value>): seq<Value>
    requires f < |fs| && Valid?(fs, fs[f].alternate)
  {
    seq(|inits|, k requires 0 <= k < |inits| => Resolve(OldHook(fs, f, k), inits[k]))
  }

  /** The cells a render leaves on its fiber: one per call, holding the
      resolved state and an empty queue. */
  function FreshHooks(states: seq<Value>): seq<Hook>
  {
    seq(|states|, k requires 0 <= k < |states| => Hook(states[k], []))
  }

  /** Each `useState` call appends its cell to those of the calls before. */
  lemma FreshHooksAppend(states: seq<Value>, s: Value)
    ensures FreshHooks(states + [s]) == FreshHooks(states) + [Hook(s, [])]
  {
    assert FreshHooks(states + [s])[|states|] == Hook(s, []);
  }

  /** Setting a fiber's cells twice keeps the second setting. */
  lemma SetHooksTwice(fs: seq<Fiber>, f: FiberId, h1: seq<Hook>, h2: seq<Hook>)
    requires f < |fs|
    ensures var a := fs[f := fs[f].(hooks := h1)];
            a[f := a[f].(hooks := h2)] == fs[f := fs[f].(hooks := h2)]
  {
  }

  /** One more `useState` call resolves one more state, from the alternate's
      cell at its own position. */
  lemma RenderStatesAppend(fs: seq<Fiber>, f: FiberId, inits: seq<Value>, i: nat)
    requires f < |fs| && Valid?(fs, fs[f].alternate) && i < |inits|
    ensures RenderStates(fs, f, inits[..i + 1])
            == RenderStates(fs, f, inits[..i]) + [Resolve(OldHook(fs, f, i), inits[i])]
  {
    assert RenderStates(fs, f, inits[..i + 1])[i] == Resolve(OldHook(fs, f, i), inits[i]);
  }

  /** `wipFiber.hooks = hs`, which keeps the arena well linked. */
  function WithHooks(fs: seq<Fiber>, f: FiberId, hs: seq<Hook>): (r: seq<Fiber>)
    requires WellLinked(fs) && f < |fs|
    ensures WellLinked(r) && |r| == |fs|
  {
    ReplaceKeepsLinks(fs, f, fs[f].(hooks := hs));
    fs[f := fs[f].(hooks := hs)]
  }

  /** `fiber.dom = node`, which keeps the arena well linked. */
  function WithDom(fs: seq<Fiber>, f: FiberId, node: NodeId): (r: seq<Fiber>)
    requires WellLinked(fs) && f < |fs|
    ensures WellLinked(r) && |r| == |fs|
  {
    ReplaceKeepsLinks(fs, f, fs[f].(dom := Some(node)));
    fs[f := fs[f].(dom := Some(node))]
  }

  /** A render whose fiber points back at the fiber a previous render left
      with cells `FreshHooks(states)` reads those states back unchanged, one
      per call, when nothing was queued in between. */
  lemma {:induction false} StatesCarryOver(fs: seq<Fiber>, g: FiberId, inits: seq<Value>, states: seq<Value>)
    requires g < |fs| && fs[g].alternate.Some? && fs[g].alternate.value < |fs|
    requires fs[fs[g].alternate.value].hooks == FreshHooks(states)
    ensures var r := RenderStates(fs, g, inits);
            forall k :: 0 <= k < |inits| ==> r[k] == if k < |states| then states[k] else inits[k]
  {
    var r := RenderStates(fs, g, inits);
    forall k | 0 <= k < |inits|
      ensures r[k] == if k < |states| then states[k] else inits[k]
    {
      if k < |states| {
        assert OldHook(fs, g, k) == Some(Hook(states[k], []));
      } else {
        assert OldHook(fs, g, k).None?;
      }
    }
  }

  /** Updates queued in an earlier render are all applied, in order, to the
      state of the cell: an update queued after others sees their result. */
  lemma QueuedUpdatesApplyInOrder(h: Hook, later: seq<Action>, initial: Value)
    ensures Resolve(Some(h.(quene := h.quene + later)), initial) == Fold(later, Resolve(Some(h), initial))
  {
    FoldAppend(h.quene, later, h.state);
  }

  /** Without a previous cell the initial value is used as is. */
  lemma FirstRenderUsesInitial(initial: Value)
    ensures Resolve(None, initial) == initial
  {
  }
}
