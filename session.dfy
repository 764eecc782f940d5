/** The engine of `wookLoop.tsx`: the module-level scheduler variables as the
    fields of one session object, the fibers as an arena it updates in place,
    and the DOM as an append-only log of calls with a counter that hands out
    fresh node handles (`document.createElement` / `createTextNode`). */
module Engine {
  import opened Values
  import opened Utils
  import opened Elements
  import opened Fibers

  /** A function component, seen from outside: the initial values of the
      `useState` calls it makes for the given props, in call order, and the
      element it returns given its props and the states those calls
      resolved. */
  datatype Component = Component(initials: Props -> seq<Value>, body: (Props, seq<Value>) -> WellFormedElement)

  /** A log extended by `a`'s calls and then, `a` having completed, by
      `b`'s, is extended by the calls of `Then(a, b)`. */
  lemma ThenLogs(l0: seq<DomOp>, l1: seq<DomOp>, l2: seq<DomOp>, a: Trace, b: Trace)
    requires a.completed && l1 == l0 + a.ops && l2 == l1 + b.ops
    ensures l2 == l0 + Then(a, b).ops && Then(a, b).completed == b.completed
  {
  }

  /** Appending is associative. */
  lemma AppendAssoc<T>(a: seq<T>, b: seq<T>, c: seq<T>)
    ensures (a + b) + c == a + (b + c)
  {
  }

  /** Four appends in a row append the concatenation. */
  lemma ConcatFour<T>(l0: seq<T>, l1: seq<T>, l2: seq<T>, l3: seq<T>, l4: seq<T>, a: seq<T>, b: seq<T>, c: seq<T>, d: seq<T>)
    requires l1 == l0 + a && l2 == l1 + b && l3 == l2 + c && l4 == l3 + d
    ensures l4 == l0 + (a + b + c + d)
  {
  }

  /** The DOM calls of `createDom` on fresh node `n0` only build and fill
      that node. */
  lemma CreateDomLogIsFresh(l0: seq<DomOp>, l1: seq<DomOp>, n0: NodeId, tag: string, props: Props)
    requires l1 == l0 + CreateDomOps(n0, tag, props)
    ensures FreshSince(l0, l1, n0)
  {
    CreateDomTouchesOnlyNode(n0, tag, props);
    forall i | |l0| <= i < |l1| ensures OnFreshNode(l1[i], n0) {
      assert l1[i] in CreateDomOps(n0, tag, props) by { assert l1[i] == CreateDomOps(n0, tag, props)[i - |l0|]; }
    }
  }

  /** `l` extends `l0` by calls that only build or fill nodes numbered from
      `n0` on: no `appendChild`, no `removeChild`. */
  predicate FreshSince(l0: seq<DomOp>, l: seq<DomOp>, n0: NodeId)
  {
    l0 <= l && forall i :: |l0| <= i < |l| ==> OnFreshNode(l[i], n0)
  }

  /** Two such extensions in a row, the second from a later node on, are
      one. */
  lemma FreshSinceTrans(l0: seq<DomOp>, l1: seq<DomOp>, l2: seq<DomOp>, n0: NodeId, n1: NodeId)
    requires FreshSince(l0, l1, n0) && FreshSince(l1, l2, n1) && n0 <= n1
    ensures FreshSince(l0, l2, n0)
  {
    forall i | |l0| <= i < |l2| ensures OnFreshNode(l2[i], n0) {
      if i < |l1| {
        assert l2[i] == l1[i];
      }
    }
  }

  /** After `p` units with readings `tr(0), ..., tr(p - 1)`, the loop went on
      after every reading but the last, and `shouldYield` is the last. */
  predicate Paced(tr: nat -> real, p: nat, shouldYield: bool)
  {
    && (forall k: nat :: k + 1 < p ==> tr(k) >= 1.0)
    && (0 < p ==> shouldYield == (tr(p - 1) < 1.0))
  }

  /** One more unit and one more reading keep the loop paced. */
  lemma PacedStep(tr: nat -> real, p: nat)
    requires Paced(tr, p, false)
    ensures Paced(tr, p + 1, tr(p) < 1.0)
  {
  }

  class Session {
    /** The function components, by the identity `ElemType.Component` carries. */
    const components: nat -> Component

    var fibers: seq<Fiber>
    var nextUnitOfWork: Option<FiberId>
    var wipRoot: Option<FiberId>
    var currentRoot: Option<FiberId>
    var deletions: seq<FiberId>
    var wipFiber: Option<FiberId>
    var hookIndex: nat

    /** The DOM calls issued so far, and the next fresh node handle. */
    var log: seq<DomOp>
    var nextNode: NodeId

    ghost predicate Valid()
      reads this
    {
      SessionOk(fibers, nextUnitOfWork, wipRoot, currentRoot, deletions, wipFiber)
    }

    /** The module's initial state; `firstNode` is the first handle the DOM
        will give out. */
    constructor (components: nat -> Component, firstNode: NodeId)
      ensures Valid()
      ensures this.components == components && fibers == [] && deletions == [] && log == []
      ensures nextUnitOfWork.None? && wipRoot.None? && currentRoot.None? && wipFiber.None?
      ensures hookIndex == 0 && nextNode == firstNode
    {
      this.components := components;
      fibers := [];
      nextUnitOfWork := None;
      wipRoot := None;
      currentRoot := None;
      deletions := [];
      wipFiber := None;
      hookIndex := 0;
      log := [];
      nextNode := firstNode;
    }

    /* ---------------- scheduling entry points ---------------- */

    /** `render(element, container)`: a new root owning `container`, whose
        only child is `element`, pointing back at the committed root. */
    method Render(element: WellFormedElement, container: NodeId)
      requires Valid()
      modifies this`fibers, this`wipRoot, this`deletions, this`nextUnitOfWork
      ensures Valid()
      ensures fibers == old(fibers) + [RootFiber(container, [Prop(CHILDREN, Kids([element]))], currentRoot)]
      ensures wipRoot == Some(|old(fibers)|) && nextUnitOfWork == wipRoot && deletions == []
    {
      var props := [Prop(CHILDREN, Kids([element]))];
      assert Lookup(props, CHILDREN) == Some(Kids([element]));
      AppendRootKeepsLinks(fibers, container, props, currentRoot);
      wipRoot := Some(|fibers|);
      fibers := fibers + [RootFiber(container, props, currentRoot)];
      deletions := [];
      nextUnitOfWork := wipRoot;
    }

    /** The `setState` closure for cell `h`: the action is queued on the
        cell, then a new root copying the committed root's node and props is
        scheduled.  With no committed root, reading `currentRoot.dom` throws
        after the action was queued; `scheduled` is false then. */
    method SetState(h: Handle, action: Action) returns (scheduled: bool)
      requires Valid() && h.fiber < |fibers| && h.index < |fibers[h.fiber].hooks|
      modifies this`fibers, this`wipRoot, this`deletions, this`nextUnitOfWork
      ensures Valid()
      ensures scheduled <==> currentRoot.Some?
      ensures var queued := Enqueue(old(fibers), h, action);
              && (scheduled ==>
                    && fibers == queued + [RootFiber(queued[currentRoot.value].dom.value, queued[currentRoot.value].props, currentRoot)]
                    && wipRoot == Some(|queued|) && nextUnitOfWork == wipRoot && deletions == [])
              && (!scheduled ==>
                    && fibers == queued
                    && wipRoot == old(wipRoot) && nextUnitOfWork == old(nextUnitOfWork) && deletions == old(deletions))
    {
      var cell := fibers[h.fiber].hooks[h.index];
      var g := fibers[h.fiber].(hooks := fibers[h.fiber].hooks[h.index := cell.(quene := cell.quene + [action])]);
      ReplaceKeepsSession(fibers, h.fiber, g, nextUnitOfWork, wipRoot, currentRoot, deletions, wipFiber);
      fibers := fibers[h.fiber := g];
      assert fibers == Enqueue(old(fibers), h, action);
      if currentRoot.None? {
        return false;
      }
      var root := fibers[currentRoot.value];
      AppendRootKeepsLinks(fibers, root.dom.value, root.props, currentRoot);
      wipRoot := Some(|fibers|);
      fibers := fibers + [RootFiber(root.dom.value, root.props, currentRoot)];
      deletions := [];
      nextUnitOfWork := wipRoot;
      return true;
    }

    /* ---------------- useState ---------------- */

    /** `useState(initial)` inside the component being rendered: the state is
        the old cell's queue folded over the old cell's state (or over
        `initial` when the alternate has no cell at `hookIndex`); a new cell
        holding it with an empty queue is appended to the fiber's `hooks`,
        and `hookIndex` moves on.  The old cell is not touched. */
    method UseState(initial: Value) returns (state: Value, handle: Handle)
      requires Valid() && wipFiber.Some?
      modifies this`fibers, this`hookIndex
      ensures Valid()
      ensures var f := old(wipFiber).value;
              && state == Resolve(OldHook(old(fibers), f, old(hookIndex)), initial)
              && fibers == old(fibers)[f := old(fibers)[f].(hooks := old(fibers)[f].hooks + [Hook(state, [])])]
              && handle == Handle(f, |old(fibers)[f].hooks|)
              && (old(fibers)[f].alternate.Some? ==>
                    fibers[old(fibers)[f].alternate.value] == old(fibers)[old(fibers)[f].alternate.value])
      ensures hookIndex == old(hookIndex) + 1
    {
      var f := wipFiber.value;
      var alt := fibers[f].alternate;
      var oldHook: Option<Hook> := None;
      if alt.Some? && hookIndex < |fibers[alt.value].hooks| {
        oldHook := Some(fibers[alt.value].hooks[hookIndex]);
      }
      state := if oldHook.Some? then oldHook.value.state else initial;
      var actions := if oldHook.Some? then oldHook.value.quene else [];
      state := ApplyQueue(actions, state);
      handle := Handle(f, |fibers[f].hooks|);
      var g := fibers[f].(hooks := fibers[f].hooks + [Hook(state, [])]);
      ReplaceKeepsSession(fibers, f, g, nextUnitOfWork, wipRoot, currentRoot, deletions, wipFiber);
      fibers := fibers[f := g];
      hookIndex := hookIndex + 1;
    }

    /** `actions.forEach(action => { hook.state = action(hook.state) })`. */
    method ApplyQueue(actions: seq<Action>, start: Value) returns (state: Value)
      ensures state == Fold(actions, start)
    {
      state := start;
      var i := 0;
      while i < |actions|
        invariant 0 <= i <= |actions|
        invariant Fold(actions[i..], state) == Fold(actions, start)
      {
        assert actions[i..][1..] == actions[i + 1..];
        state := actions[i](state);
        i := i + 1;
      }
      assert actions[i..] == [];
    }

    /* ---------------- the unit of work ---------------- */

    /** The arena and the globals after the render of function fiber `f`
        from arena `fs` and deletions `ds`: the fiber holds one fresh cell
        per `useState` call of the component, and the element the component
        returns, given the states those calls resolved, is reconciled as its
        only child. */
    ghost predicate FunctionRendered(fs: seq<Fiber>, ds: seq<FiberId>, f: FiberId)
      requires WellLinked(fs) && f < |fs| && IsFunctionFiber(fs, f)
      reads this
    {
      var c := components(fs[f].ty.value.id);
      var states := RenderStates(fs, f, c.initials(fs[f].props));
      var fs1 := WithHooks(fs, f, FreshHooks(states));
      var children := [c.body(fs[f].props, states)];
      && fibers == Reconciled(fs1, f, children)
      && deletions == ds + Deletions(fs1, f, children)
      && wipFiber == Some(f) && hookIndex == |states|
    }

    /** The arena and the DOM after the render of host fiber `f` from arena
        `fs`, deletions `ds`, log `l0` and next handle `n0`: a fiber without
        a node gets the fresh node `n0`, built by `createDom`; then its
        `props.children` are reconciled. */
    ghost predicate HostRendered(fs: seq<Fiber>, ds: seq<FiberId>, l0: seq<DomOp>, n0: NodeId, f: FiberId)
      requires WellLinked(fs) && f < |fs| && !IsFunctionFiber(fs, f)
      reads this
    {
      var children := ChildList(fs[f].props).value;
      if fs[f].dom.Some? then
        && fibers == Reconciled(fs, f, children)
        && deletions == ds + Deletions(fs, f, children)
        && log == l0 && nextNode == n0
      else
        var fs1 := WithDom(fs, f, n0);
        && fibers == Reconciled(fs1, f, children)
        && deletions == ds + Deletions(fs1, f, children)
        && log == l0 + CreateDomOps(n0, fs[f].ty.value.name, fs[f].props)
        && nextNode == n0 + 1
    }

    /** `updateFunctionComponent(fiber)`: the fiber becomes the one being
        rendered, with no cells; the component runs, making its `useState`
        calls in order; the element it returns is reconciled. */
    method UpdateFunctionComponent(f: FiberId)
      requires Valid() && f < |fibers| && IsFunctionFiber(fibers, f)
      modifies this`fibers, this`deletions, this`wipFiber, this`hookIndex
      ensures Valid() && |old(fibers)| <= |fibers|
      ensures FunctionRendered(old(fibers), old(deletions), f)
    {
      ghost var fs0 := fibers;
      assert fs0[f].alternate.Some? ==> fs0[f].alternate.value < f;
      wipFiber := Some(f);
      hookIndex := 0;
      var g := fibers[f].(hooks := []);
      ReplaceKeepsSession(fibers, f, g, nextUnitOfWork, wipRoot, currentRoot, deletions, wipFiber);
      fibers := fibers[f := g];
      var props := fibers[f].props;
      var c := components(fibers[f].ty.value.id);
      var states := CallHooks(fs0, f, c.initials(props));
      assert fibers == WithHooks(fs0, f, FreshHooks(states));
      ReconcileChildren(f, [c.body(props, states)]);
    }

    /** The `useState` calls the component makes while it runs, one per
        initial value and in order, on the fiber `f` whose cells were reset
        from arena `fs0`: the states they resolve, and one fresh cell per
        call. */
    method CallHooks(ghost fs0: seq<Fiber>, f: FiberId, inits: seq<Value>) returns (states: seq<Value>)
      requires Valid() && f < |fs0| && wipFiber == Some(f) && hookIndex == 0
      requires fs0[f].alternate.Some? ==> fs0[f].alternate.value < f
      requires fibers == fs0[f := fs0[f].(hooks := [])]
      modifies this`fibers, this`hookIndex
      ensures Valid() && hookIndex == |states| == |inits|
      ensures fibers == fs0[f := fs0[f].(hooks := FreshHooks(states))]
      ensures states == RenderStates(fs0, f, inits)
    {
      states := [];
      assert FreshHooks(states) == [] && inits[..0] == [];
      while |states| < |inits|
        invariant Valid() && wipFiber == Some(f) && hookIndex == |states| <= |inits|
        invariant fibers == fs0[f := fs0[f].(hooks := FreshHooks(states))]
        invariant states == RenderStates(fs0, f, inits[..|states|])
      {
        var i := |states|;
        ghost var hs := FreshHooks(states);
        assert OldHook(fibers, f, i) == OldHook(fs0, f, i);
        var s, _ := UseState(inits[i]);
        FreshHooksAppend(states, s);
        SetHooksTwice(fs0, f, hs, hs + [Hook(s, [])]);
        RenderStatesAppend(fs0, f, inits, i);
        states := states + [s];
      }
      assert inits[..|states|] == inits;
    }

    /** `updateHostComponet(fiber)`: a fiber without a DOM node gets one from
        `createDom`; then its `props.children` are reconciled. */
    method UpdateHostComponent(f: FiberId)
      requires Valid() && f < |fibers| && !IsFunctionFiber(fibers, f)
      modifies this`fibers, this`deletions, this`log, this`nextNode
      ensures Valid() && |old(fibers)| <= |fibers|
      ensures HostRendered(old(fibers), old(deletions), old(log), old(nextNode), f)
      ensures FreshSince(old(log), log, old(nextNode))
    {
      assert fibers[f].ty.None? ==> fibers[f].dom.Some?;
      ghost var fs1 := if fibers[f].dom.Some? then fibers else WithDom(fibers, f, nextNode);
      if fibers[f].dom.None? {
        var node := CreateDom(fibers[f].ty.value.name, fibers[f].props);
        var g := fibers[f].(dom := Some(node));
        ReplaceKeepsSession(fibers, f, g, nextUnitOfWork, wipRoot, currentRoot, deletions, wipFiber);
        fibers := fibers[f := g];
      }
      assert fibers == fs1 && fibers[f].props == old(fibers)[f].props;
      ChildrenWellFormed(fibers[f].props);
      ReconcileChildren(f, ChildList(fibers[f].props).value);
    }

    /** `performUnitOfWork(fiber)`: the fiber is rendered as a function or a
        host component, and the next unit is its first child, else the
        sibling of its nearest ancestor-or-self that has one.  Rendering
        calls the DOM only to build and fill a freshly allocated node. */
    method PerformUnitOfWork(x: FiberId) returns (next: Option<FiberId>)
      requires Valid() && x < |fibers|
      modifies this`fibers, this`deletions, this`wipFiber, this`hookIndex, this`log, this`nextNode
      ensures Valid() && x < |fibers| && Valid?(fibers, next)
      ensures IsFunctionFiber(old(fibers), x) ==>
                FunctionRendered(old(fibers), old(deletions), x) && log == old(log) && nextNode == old(nextNode)
      ensures !IsFunctionFiber(old(fibers), x) ==>
                && HostRendered(old(fibers), old(deletions), old(log), old(nextNode), x)
                && wipFiber == old(wipFiber) && hookIndex == old(hookIndex)
      ensures next == NextUnit(fibers, x)
      ensures FreshSince(old(log), log, old(nextNode)) && old(nextNode) <= nextNode
    {
      if IsFunctionFiber(fibers, x) {
        UpdateFunctionComponent(x);
      } else {
        UpdateHostComponent(x);
      }
      next := FindNext(x);
    }

    /** `nextUnitOfWork = performUnitOfWork(nextUnitOfWork)`: the unit is
        rendered as `performUnitOfWork` states, the loop moves on to the
        depth-first successor, and rendering only extends the DOM log with
        calls on fresh nodes. */
    method PerformNextUnit()
      requires Valid() && nextUnitOfWork.Some?
      modifies this`fibers, this`deletions, this`wipFiber, this`hookIndex, this`log, this`nextNode, this`nextUnitOfWork
      ensures Valid() && old(nextUnitOfWork).value < |fibers|
      ensures var x := old(nextUnitOfWork).value;
              && (IsFunctionFiber(old(fibers), x) ==>
                    FunctionRendered(old(fibers), old(deletions), x) && log == old(log) && nextNode == old(nextNode))
              && (!IsFunctionFiber(old(fibers), x) ==>
                    && HostRendered(old(fibers), old(deletions), old(log), old(nextNode), x)
                    && wipFiber == old(wipFiber) && hookIndex == old(hookIndex))
      ensures nextUnitOfWork == NextUnit(fibers, old(nextUnitOfWork).value)
      ensures FreshSince(old(log), log, old(nextNode)) && old(nextNode) <= nextNode
    {
      nextUnitOfWork := PerformUnitOfWork(nextUnitOfWork.value);
    }

    /** `workLoop(deadline)`: units of work are performed while there is one
        and the deadline has not passed; `timeRemaining(k)` is what
        `deadLine.timeRemaining()` reads after the `k`-th unit (from 0),
        and the deadline expires at some reading.  When no unit is left and a
        root is being rendered, that root is committed: `committed` is its
        outcome, and None when no commit ran. */
    method WorkLoop(timeRemaining: nat -> real) returns (performed: nat, committed: Option<bool>)
      requires Valid()
      requires exists n :: timeRemaining(n) < 1.0
      modifies this`fibers, this`deletions, this`wipFiber, this`hookIndex, this`log, this`nextNode,
               this`nextUnitOfWork, this`currentRoot, this`wipRoot
      ensures Valid()
      ensures performed == 0 <==> old(nextUnitOfWork).None?
      ensures forall k: nat :: k + 1 < performed ==> timeRemaining(k) >= 1.0
      ensures nextUnitOfWork.Some? ==> 0 < performed && timeRemaining(performed - 1) < 1.0
      ensures old(log) <= log && old(nextNode) <= nextNode
      ensures committed.None? ==> FreshSince(old(log), log, old(nextNode))
      ensures committed.Some? <==> nextUnitOfWork.None? && old(wipRoot).Some?
      ensures committed == Some(true) ==> currentRoot == old(wipRoot) && wipRoot.None?
      ensures committed != Some(true) ==> currentRoot == old(currentRoot) && wipRoot == old(wipRoot)
      ensures old(wipRoot).Some? ==> old(wipRoot).value < |fibers|
      ensures committed.Some? ==>
                var t := CommitRootTrace(fibers, deletions, old(wipRoot).value);
                && |t.ops| <= |log| && log[|log| - |t.ops|..] == t.ops && committed.value == t.completed
                && FreshSince(old(log), log[..|log| - |t.ops|], old(nextNode))
    {
      performed := RunUnits(timeRemaining);
      committed := None;
      if nextUnitOfWork.None? && wipRoot.Some? {
        ghost var rendered := log;
        var ok := CommitRoot();
        committed := Some(ok);
        assert log[..|log| - |CommitRootTrace(fibers, deletions, old(wipRoot).value).ops|] == rendered;
      }
    }

    /** The `while (nextUnitOfWork && !shouldYield)` loop of `workLoop`:
        units are performed until none is left or the reading after the last
        one says to yield, in which case work is left only after at least one
        unit.  Rendering only adds calls on fresh nodes to the log and does
        not touch the roots. */
    method RunUnits(timeRemaining: nat -> real) returns (performed: nat)
      requires Valid()
      requires exists n :: timeRemaining(n) < 1.0
      modifies this`fibers, this`deletions, this`wipFiber, this`hookIndex, this`log, this`nextNode,
               this`nextUnitOfWork
      ensures Valid() && wipRoot == old(wipRoot) && currentRoot == old(currentRoot)
      ensures performed == 0 <==> old(nextUnitOfWork).None?
      ensures forall k: nat :: k + 1 < performed ==> timeRemaining(k) >= 1.0
      ensures nextUnitOfWork.Some? ==> 0 < performed && timeRemaining(performed - 1) < 1.0
      ensures FreshSince(old(log), log, old(nextNode)) && old(nextNode) <= nextNode
    {
      ghost var n: nat :| timeRemaining(n) < 1.0;
      var shouldYield := false;
      performed := 0;
      while nextUnitOfWork.Some? && !shouldYield
        invariant Valid()
        invariant performed == 0 ==> nextUnitOfWork == old(nextUnitOfWork) && !shouldYield
        invariant old(nextUnitOfWork).None? ==> performed == 0
        invariant Paced(timeRemaining, performed, shouldYield)
        invariant performed <= n + 1 && (performed == n + 1 ==> shouldYield)
        invariant FreshSince(old(log), log, old(nextNode)) && old(nextNode) <= nextNode
        decreases n + 1 - performed
      {
        ghost var l1, n1 := log, nextNode;
        PerformNextUnit();
        FreshSinceTrans(old(log), l1, log, old(nextNode), n1);
        PacedStep(timeRemaining, performed);
        shouldYield := timeRemaining(performed) < 1.0;
        performed := performed + 1;
      }
    }

    /* ---------------- updateDom and createDom ---------------- */

    /** One `Object.keys(...).filter(...).forEach(...)` pass of `updateDom`. */
    method RunPass(ph: Phase, node: NodeId, oldProps: Props, newProps: Props)
      modifies this`log
      ensures log == old(log) + PassOps(ph, node, oldProps, newProps)
    {
      var ks := PhaseKeys(ph, oldProps, newProps);
      var i := 0;
      while i < |ks|
        invariant 0 <= i <= |ks|
        invariant log == old(log) + PhaseOps(ph, node, oldProps, newProps, ks[..i])
      {
        assert ks[..i + 1][..i] == ks[..i];
        if Selected(ph, oldProps, newProps, ks[i]) {
          log := log + Effect(ph, node, oldProps, newProps, ks[i]);
        }
        i := i + 1;
      }
      assert ks[..i] == ks;
    }

    /** `updateDom(dom, oldProps, newProps)`: the four passes in order. */
    method UpdateDom(node: NodeId, oldProps: Props, newProps: Props)
      modifies this`log
      ensures log == old(log) + UpdateDomOps(node, oldProps, newProps)
    {
      ghost var l0 := log;
      RunPass(RemoveEvents, node, oldProps, newProps);
      ghost var l1 := log;
      RunPass(ClearGone, node, oldProps, newProps);
      ghost var l2 := log;
      RunPass(AddEvents, node, oldProps, newProps);
      ghost var l3 := log;
      RunPass(SetProperties, node, oldProps, newProps);
      ConcatFour(l0, l1, l2, l3, log, PassOps(RemoveEvents, node, oldProps, newProps),
        PassOps(ClearGone, node, oldProps, newProps), PassOps(AddEvents, node, oldProps, newProps),
        PassOps(SetProperties, node, oldProps, newProps));
    }

    /** `createDom(fiber)` for a host fiber with tag `tag`: a fresh text or
        element node, then `updateDom(dom, {}, props)` on it. */
    method CreateDom(tag: string, props: Props) returns (node: NodeId)
      modifies this`log, this`nextNode
      ensures node == old(nextNode) && nextNode == old(nextNode) + 1
      ensures log == old(log) + CreateDomOps(node, tag, props)
      ensures FreshSince(old(log), log, node)
    {
      node := nextNode;
      nextNode := nextNode + 1;
      var created := if tag == TEXT_ELEMENT then CreateTextNode(node) else CreateElementNode(node, tag);
      log := log + [created];
      UpdateDom(node, [], props);
      AppendAssoc(old(log), [created], UpdateDomOps(node, [], props));
      CreateDomLogIsFresh(old(log), log, node, tag, props);
    }

    /* ---------------- reconcileChildren ---------------- */

    /** `reconcileChildren(fiber, children)`: one turn per position that has
        a new element or an old child, diffing the two by position. */
    method ReconcileChildren(f: FiberId, children: seq<Element>)
      requires Valid() && f < |fibers| && AllWellFormed(children)
      modifies this`fibers, this`deletions
      ensures Valid()
      ensures fibers == Reconciled(old(fibers), f, children) && |old(fibers)| <= |fibers|
      ensures deletions == old(deletions) + Deletions(old(fibers), f, children)
    {
      ghost var fs0 := fibers;
      ghost var olds := OldChildren(fs0, f);
      OldChildrenFirst(fs0, f);
      forall k | 0 <= k < |olds|
        ensures fs0[olds[k]].sibling == if k + 1 < |olds| then Some(olds[k + 1]) else None
      {
        OldChildLink(fs0, f, k);
      }
      var oldFiber: Option<FiberId> := None;
      if fibers[f].alternate.Some? {
        oldFiber := fibers[fibers[f].alternate.value].child;
      }
      ReconcileLoop(fs0, f, olds, children, oldFiber);
      TurnedIsArrange(fs0, f, olds, children, Max(|children|, |olds|));
      assert fibers == Reconciled(fs0, f, children);
      ReconcileKeepsSession(fs0, f, children, nextUnitOfWork, wipRoot, currentRoot, old(deletions), wipFiber);
    }

    /** The `while` loop of `reconcileChildren`, from its first turn, over
        the old children `olds` (met through `sibling` links from
        `oldFiber`). */
    method ReconcileLoop(ghost fs0: seq<Fiber>, f: FiberId, ghost olds: seq<FiberId>, children: seq<Element>,
                         oldFiber: Option<FiberId>)
      requires fibers == fs0 && f < |fs0|
      requires forall k :: 0 <= k < |olds| ==> olds[k] < |fs0|
      requires forall k {:trigger fs0[olds[k]]} :: 0 <= k < |olds| ==>
                 fs0[olds[k]].sibling == if k + 1 < |olds| then Some(olds[k + 1]) else None
      requires oldFiber == if 0 < |olds| then Some(olds[0]) else None
      modifies this`fibers, this`deletions
      ensures fibers == Turned(fs0, f, olds, children, Max(|children|, |olds|))
      ensures deletions == old(deletions) + Deleted(fs0, olds, children, |olds|)
    {
      var oldFiber := oldFiber;
      var preSibling: Option<FiberId> := None;
      var i: nat := 0;
      ghost var n := Max(|children|, |olds|);
      while i < |children| || oldFiber.Some?
        invariant i <= n
        invariant fibers == Turned(fs0, f, olds, children, i)
        invariant deletions == old(deletions) + Deleted(fs0, olds, children, Min(i, |olds|))
        invariant oldFiber == if i < |olds| then Some(olds[i]) else None
        invariant preSibling == if 0 < i <= |children| then Some(|fs0| + i - 1) else None
        decreases n - i
      {
        var newFiber;
        newFiber, oldFiber := ReconcileTurn(fs0, f, olds, children, old(deletions), i, oldFiber, preSibling);
        preSibling := newFiber;
        i := i + 1;
      }
      assert i == n && Min(i, |olds|) == |olds|;
    }

    /** One turn of that loop, at position `i`, on the arena after the
        turns before it. */
    method ReconcileTurn(ghost fs0: seq<Fiber>, f: FiberId, ghost olds: seq<FiberId>, children: seq<Element>,
                         ghost d0: seq<FiberId>, i: nat,
                         oldFiber: Option<FiberId>, preSibling: Option<FiberId>)
      returns (newFiber: Option<FiberId>, nextOld: Option<FiberId>)
      requires f < |fs0| && (forall k :: 0 <= k < |olds| ==> olds[k] < |fs0|)
      requires fibers == Turned(fs0, f, olds, children, i)
      requires deletions == d0 + Deleted(fs0, olds, children, Min(i, |olds|))
      requires oldFiber == if i < |olds| then Some(olds[i]) else None
      requires preSibling == if 0 < i <= |children| then Some(|fs0| + i - 1) else None
      requires i < |olds| ==> fs0[olds[i]].sibling == if i + 1 < |olds| then Some(olds[i + 1]) else None
      modifies this`fibers, this`deletions
      ensures fibers == Turned(fs0, f, olds, children, i + 1)
      ensures deletions == d0 + Deleted(fs0, olds, children, Min(i + 1, |olds|))
      ensures newFiber == if 0 < i + 1 <= |children| then Some(|fs0| + i) else None
      ensures nextOld == if i + 1 < |olds| then Some(olds[i + 1]) else None
    {
      if i < |olds| {
        TurnedKeepsOld(fs0, f, olds, children, i, olds[i]);
      }
      DeletedStepList(fs0, olds, children, i);
      AppendAssoc(d0, Deleted(fs0, olds, children, Min(i, |olds|)),
        if i < |olds| && !SameTypeAt(fs0, olds, children, i) then [olds[i]] else []);
      newFiber, nextOld := TurnArena(fs0, f, olds, children, i, oldFiber, preSibling);
      assert Marked(fs0, f, olds, children, i) == Tagged(fs0, olds, children, i, Placed(fs0, f, olds, children, i, old(fibers)));
      assert Turned(fs0, f, olds, children, i + 1) == Turn(fs0, f, olds, children, i);
    }

    /** The body of that loop at position `i`: the new fiber for
        `children[i]` (an `UPDATE` of the old fiber `oldFiber` when their
        types agree, a `PLACEMENT` otherwise), the `DELETION` tag on an old
        fiber without a match, and the link from `fiber.child` (first turn)
        or from the previous new fiber `preSibling`. */
    method TurnArena(ghost fs0: seq<Fiber>, f: FiberId, ghost olds: seq<FiberId>, children: seq<Element>, i: nat,
                     oldFiber: Option<FiberId>, preSibling: Option<FiberId>)
      returns (newFiber: Option<FiberId>, nextOld: Option<FiberId>)
      requires f < |fs0| <= |fibers| && (forall k :: 0 <= k < |olds| ==> olds[k] < |fs0|)
      requires |fibers| == |fs0| + Min(i, |children|)
      requires oldFiber == if i < |olds| then Some(olds[i]) else None
      requires preSibling == if 0 < i <= |children| then Some(|fs0| + i - 1) else None
      requires i < |olds| ==> fibers[olds[i]].ty == fs0[olds[i]].ty && fibers[olds[i]].dom == fs0[olds[i]].dom
      requires i < |olds| ==> fibers[olds[i]].sibling == if i + 1 < |olds| then Some(olds[i + 1]) else None
      modifies this`fibers, this`deletions
      ensures fibers == Linked(fs0, f, children, i, Tagged(fs0, olds, children, i, Placed(fs0, f, olds, children, i, old(fibers))))
      ensures deletions == old(deletions) + (if i < |olds| && !SameTypeAt(fs0, olds, children, i) then [olds[i]] else [])
      ensures newFiber == if 0 < i + 1 <= |children| then Some(|fs0| + i) else None
      ensures nextOld == if i + 1 < |olds| then Some(olds[i + 1]) else None
    {
      nextOld := oldFiber;
      var element: Option<Element> := if i < |children| then Some(children[i]) else None;
      var sameType := element.Some? && oldFiber.Some? && fibers[oldFiber.value].ty == Some(element.value.ty);
      assert sameType == SameTypeAt(fs0, olds, children, i);
      newFiber := None;
      if sameType {
        var o := fibers[oldFiber.value];
        fibers := fibers + [Fiber(o.ty, element.value.props, o.dom, Some(f), None, None, oldFiber, [], Some(Update))];
        newFiber := Some(|fibers| - 1);
      }
      if element.Some? && !sameType {
        fibers := fibers + [Fiber(Some(element.value.ty), element.value.props, None, Some(f), None, None, None, [], Some(Placement))];
        newFiber := Some(|fibers| - 1);
      }
      if oldFiber.Some? && !sameType {
        fibers := fibers[oldFiber.value := fibers[oldFiber.value].(effectTag := Some(Deletion))];
        deletions := deletions + [oldFiber.value];
      }
      if oldFiber.Some? {
        nextOld := fibers[oldFiber.value].sibling;
      }
      if i == 0 {
        fibers := fibers[f := fibers[f].(child := newFiber)];
      } else if element.Some? {
        fibers := fibers[preSibling.value := fibers[preSibling.value].(sibling := newFiber)];
      }
    }

    /* ---------------- the two searches ---------------- */

    /** The depth-first successor `performUnitOfWork` returns. */
    method FindNext(x: FiberId) returns (next: Option<FiberId>)
      requires WellLinked(fibers) && x < |fibers|
      ensures next == NextUnit(fibers, x) && Valid?(fibers, next)
    {
      if fibers[x].child.Some? {
        return fibers[x].child;
      }
      var nextFiber: Option<FiberId> := Some(x);
      while nextFiber.Some?
        invariant Valid?(fibers, nextFiber)
        invariant nextFiber.Some? ==> Climb(fibers, nextFiber.value) == Climb(fibers, x)
        invariant nextFiber.None? ==> Climb(fibers, x).None?
        decreases if nextFiber.Some? then nextFiber.value + 1 else 0
      {
        if fibers[nextFiber.value].sibling.Some? {
          return fibers[nextFiber.value].sibling;
        }
        nextFiber := fibers[nextFiber.value].parent;
      }
      return None;
    }

    /** The `while (!parentFiber.dom)` search of `commitWork`. */
    method FindParentDom(p: FiberId) returns (node: NodeId)
      requires WellLinked(fibers) && p < |fibers|
      ensures node == ParentDom(fibers, p)
    {
      var parentFiber: FiberId := p;
      while fibers[parentFiber].dom.None?
        invariant parentFiber < |fibers|
        invariant ParentDom(fibers, parentFiber) == ParentDom(fibers, p)
        decreases parentFiber
      {
        parentFiber := fibers[parentFiber].parent.value;
      }
      node := fibers[parentFiber].dom.value;
    }

    /* ---------------- commit ---------------- */

    /** `commitDeletion(fiber, dom)`; `ok` is false when it throws on an
        absent fiber. */
    method CommitDeletion(x: Option<FiberId>, d: Option<NodeId>) returns (ok: bool)
      requires WellLinked(fibers) && Valid?(fibers, x)
      modifies this`log
      ensures ok <==> DeletionOp(fibers, x, d).Some?
      ensures log == old(log) + (if ok then [DeletionOp(fibers, x, d).value] else [])
      decreases Rank(fibers, x)
    {
      if x.None? {
        return false;
      }
      var y := x.value;
      if fibers[y].dom.Some? {
        log := log + [RemoveChild(fibers[y].dom.value, d)];
        return true;
      }
      ok := CommitDeletion(fibers[y].child, fibers[y].dom);
    }

    /** `commitWork(fiber)`; `ok` is false when the walk throws. */
    method CommitWork(x: Option<FiberId>) returns (ok: bool)
      requires WellLinked(fibers) && Committable(fibers, x)
      modifies this`log
      ensures log == old(log) + CommitTrace(fibers, x).ops
      ensures ok == CommitTrace(fibers, x).completed
      decreases Rank(fibers, x)
    {
      if x.None? {
        return true;
      }
      var y := x.value;
      CommitTraceSplit(fibers, y);
      var domParent := FindParentDom(fibers[y].parent.value);
      var fiber := fibers[y];
      ghost var own := OwnCommit(fibers, y);
      ghost var kid := CommitTrace(fibers, fiber.child);
      ghost var sib := CommitTrace(fibers, fiber.sibling);
      ghost var l0 := log;
      ok := CommitOwn(y, domParent);
      if !ok {
        return false;
      }
      ghost var l1 := log;
      ok := CommitWork(fiber.child);
      if !ok {
        ThenLogs(l0, l1, log, own, kid);
        return false;
      }
      ghost var l2 := log;
      ok := CommitWork(fiber.sibling);
      ThenLogs(l1, l2, log, kid, sib);
      ThenLogs(l0, l1, log, own, Then(kid, sib));
    }

    /** The part of `commitWork(fiber)` that acts on the fiber itself, given
        the parent node the search found. */
    method CommitOwn(y: FiberId, domParent: NodeId) returns (ok: bool)
      requires WellLinked(fibers) && y < |fibers| && fibers[y].parent.Some?
      requires domParent == ParentDom(fibers, fibers[y].parent.value)
      modifies this`log
      ensures log == old(log) + OwnCommit(fibers, y).ops
      ensures ok == OwnCommit(fibers, y).completed
    {
      var fiber := fibers[y];
      if fiber.effectTag == Some(Placement) && fiber.dom.Some? {
        log := log + [AppendChild(domParent, fiber.dom.value)];
        ok := true;
      } else if fiber.effectTag == Some(Deletion) {
        ok := CommitDeletion(Some(y), Some(domParent));
      } else if fiber.effectTag == Some(Update) && fiber.dom.Some? {
        UpdateDom(fiber.dom.value, fibers[fiber.alternate.value].props, fiber.props);
        ok := true;
      } else {
        ok := true;
      }
    }

    /** `deletions.forEach(commitWork)`; a throw stops the loop. */
    method CommitDeletions() returns (ok: bool)
      requires WellLinked(fibers)
      requires forall i :: 0 <= i < |deletions| ==> Committable(fibers, Some(deletions[i]))
      modifies this`log
      ensures log == old(log) + DeletionsTrace(fibers, deletions).ops
      ensures ok == DeletionsTrace(fibers, deletions).completed
    {
      var i := 0;
      ok := true;
      while i < |deletions| && ok
        invariant 0 <= i <= |deletions|
        invariant log == old(log) + DeletionsTrace(fibers, deletions[..i]).ops
        invariant ok == DeletionsTrace(fibers, deletions[..i]).completed
      {
        ghost var before := DeletionsTrace(fibers, deletions[..i]);
        ghost var next := CommitTrace(fibers, Some(deletions[i]));
        assert deletions[..i + 1][..i] == deletions[..i];
        assert DeletionsTrace(fibers, deletions[..i + 1]) == Then(before, next);
        ghost var l1 := log;
        ok := CommitWork(Some(deletions[i]));
        ThenLogs(old(log), l1, log, before, next);
        i := i + 1;
      }
      if ok {
        assert deletions[..i] == deletions;
      } else {
        DeletionsTraceStops(fibers, deletions, i);
      }
    }

    /** `commitRoot()`: every deletion, then the new tree below the root;
        then the root becomes the committed one.  When a call throws, what
        follows it does not happen and the roots stay as they were. */
    method CommitRoot() returns (ok: bool)
      requires Valid() && wipRoot.Some?
      modifies this`log, this`currentRoot, this`wipRoot
      ensures Valid()
      ensures var t := CommitRootTrace(fibers, deletions, old(wipRoot).value);
              log == old(log) + t.ops && ok == t.completed
      ensures ok ==> currentRoot == old(wipRoot) && wipRoot.None?
      ensures !ok ==> currentRoot == old(currentRoot) && wipRoot == old(wipRoot)
    {
      var root := wipRoot.value;
      ghost var d := DeletionsTrace(fibers, deletions);
      assert LinksHaveParents(fibers, root);
      ghost var c := CommitTrace(fibers, fibers[root].child);
      assert CommitRootTrace(fibers, deletions, root) == Then(d, c);
      ok := CommitDeletions();
      if !ok {
        return false;
      }
      ghost var l1 := log;
      ok := CommitWork(fibers[root].child);
      ThenLogs(old(log), l1, log, d, c);
      if ok {
        currentRoot := wipRoot;
        wipRoot := None;
      }
    }
  }
}
