# mini-react fiber engine, modelled in Dafny

This project models the core of a small React-like renderer:

- the fiber engine of `package/wookLoop.tsx`;
- the element builders and the DOM prop diff of `package/createElement.tsx`;
- the key classifiers of `package/utils.ts`.

It proves what that code does: the depth-first unit order, the positional diff, the hook queues, and the calls the commit phase issues.

The model is organised as follows:

- **`values.dfy` (module `Values`).** JavaScript values the renderer handles.
  - An element descriptor is `{ key, type, props }`.
  - A props object is an ordered list of entries, in the order `Object.keys` gives them, because the order of the DOM calls depends on it. For keys that are not integer-like this is insertion order.
  - `Lookup` reads a key, giving `None` for `undefined`. `Keys` is `Object.keys`.
- **`utils.dfy` (module `Utils`).** `isEvent`, `isProperty`, `isNew` and `isGone`.
- **`elements.dfy` (module `Elements`).**
  - `createElement` and `createTextElement` are pure functions.
  - The DOM is an abstract handle per node plus a log of the calls made on it (`DomOp`).
  - `updateDom` is specified by the list of calls its four `filter`/`forEach` passes issue (`UpdateDomOps`).
  - `createDom` is specified by its node creation followed by `updateDom(dom, {}, props)` (`CreateDomOps`).
- **`fibers.dfy` (module `Fibers`).**
  - A fiber of `interface.ts` is a record in an arena `seq<Fiber>`. Its `parent`, `child`, `sibling` and `alternate` are indices, and `WellLinked` states the link invariants.
  - The module holds the pure specification of what the engine computes over the arena:
    - `NextUnit`, the depth-first successor;
    - `ParentDom`, the search for the nearest node above a fiber;
    - `OldChildren`;
    - `Reconciled` and `Deletions`, the result of one `reconcileChildren`;
    - `Fold` and `Resolve`, the hook queue;
    - `CommitTrace`, `DeletionOp` and `CommitRootTrace`, the calls of the commit phase, with a flag saying whether it ran to the end or threw.
- **`session.dfy` (module `Engine`).**
  - The module-level globals `nextUnitOfWork`, `wipRoot`, `currentRoot`, `deletions`, `wipFiber` and `hookIndex` are fields of one `Session` class. So are the fiber arena, the DOM call log and the next fresh node handle.
  - Every function of `wookLoop.tsx` is a method on it, and each loop of the source is a `while` loop with invariants.
  - Each method is proved against the specification functions of `Fibers` and `Elements`, and the properties are proved as lemmas about those functions.
  - A function component is a pair of function values in `Component`:
    - `initials(props)` gives the initial values of its `useState` calls, in order;
    - `body(props, states)` gives the element it returns.

  The `setState` closure of a cell is `Session.SetState` applied to the cell's `Handle`, which is the fiber and the position of the cell.

The quirks of the code are modelled as written and stated as lemmas:

- `commitDeletion` calls `removeChild` on the deleted node with the parent node as its argument.
- When `commitDeletion` recurses, it passes the deleted fiber's missing node (`null`).
- A deleted fiber goes through `commitWork`, which also walks its stale `child` and `sibling`.
- `commitDeletion` on a chain with no node throws (`fiber.child` undefined). The model records this as a commit that did not complete. This is the only throw the model tracks. The DOM calls themselves are taken to succeed (see "## Left out").
- The "remove old prop" pass of `updateDom` issues nothing.
- A `setState` with no committed root throws after queueing its action.

## Model

| member | source | states |
|---|---|---|
| Values.LookupPresent | package/utils.ts:1-3 | `key in props` (`Lookup` is defined) holds exactly when some entry of the object carries the key |
| Values.ChildrenWellFormed | package/wookLoop.tsx:162 | The `props.children` of well-formed props is a list of well-formed elements, so `reconcileChildren` can read their props |
| Utils.EventIsOnPrefix | package/utils.ts:7-9 | `isEvent(k)` holds exactly when `k` is `"on"` followed by something |
| Utils.ClassesDisjoint | package/utils.ts:11-13 | No key is both an event and a property, and `children` is neither |
| Utils.IsNewSymmetric | package/utils.ts:5 | `isNew` is symmetric in its two objects and false at a key where they agree |
| Utils.IsGoneNeverOnOwnKeys | package/utils.ts:1-3 | `isGone(key, oldProps)` is false for every key of `oldProps` |
| Elements.CreateTextElement | package/createElement.tsx:17-26 | A text element has key `""`, type `TEXT_ELEMENT`, `nodeValue` set to the text, an empty `children` list, and is well formed |
| Elements.SetProp | package/createElement.tsx:7-12 | The spread-then-override `{ ...props, k: v }` reads `v` at `k` and `props` everywhere else. An existing key keeps its position and a new one goes last. Distinct keys stay distinct |
| Elements.CreateElement | package/createElement.tsx:3-15 | Key `""` and the given type. `children` has one entry per argument, in order: object children as they are, primitives wrapped by `createTextElement`. Every other key reads as in the given props |
| Elements.CreateElementWellFormed | package/createElement.tsx:3-15 | From well-formed element children and a props object with distinct keys, `createElement` builds a well-formed element |
| Elements.ToLower | package/createElement.tsx:34 | Lower-casing keeps the length and leaves no upper-case letter. It keeps every other character and turns each upper-case letter into the lower-case letter at the same position in the alphabet |
| Elements.ToLowerIdempotent | package/createElement.tsx:34 | Lower-casing an already lower-cased key changes nothing |
| Elements.EventName | package/createElement.tsx:34 | The lower-cased key is its lower-cased first two characters followed by the event name, and for an `on*` key it is `"on"` followed by the event name. A key shorter than two characters gives the empty name, and the name has no upper-case letter |
| Elements.ClearGonePassIssuesNothing | package/createElement.tsx:39-42 | The filter of the "remove old prop" pass keeps no key of `oldProps`, and the pass issues no call |
| Elements.RemovalsOnly | package/createElement.tsx:30-36 | The first pass only removes listeners |
| Elements.LastPassesKinds | package/createElement.tsx:44-57 | The last two passes only add listeners to, or set properties of, the node they are given |
| Elements.UpdateDomOpsSplit | package/createElement.tsx:28-58 | `updateDom`'s calls are the listener removals followed by the calls of the last two passes |
| Elements.KeyOpsMember | package/createElement.tsx:30-57 | What one key contributes to each pass: a removal for an old changed event key, an addition for a new changed event key, an assignment for a new changed property key, with the key's event name and old or new value |
| Elements.UpdateDomMember | package/createElement.tsx:28-58 | A call of `updateDom` is a removal from the first pass, an addition from the third or an assignment from the fourth, and every such call is one of `updateDom`'s |
| Elements.RemovesListenerIff | package/createElement.tsx:30-36 | A listener `(ev, h)` is removed exactly when some old event key with event name `ev` holds `h` and the new props no longer hold `h` there (the key is absent or holds another value) |
| Elements.AddsListenerIff | package/createElement.tsx:45-51 | A listener `(ev, h)` is added exactly when some new event key with event name `ev` holds `h` and the old props did not hold `h` there |
| Elements.SetsPropertyIff | package/createElement.tsx:54-57 | Property `k` is assigned `v` exactly when `k` is a new key that is neither `children` nor an event and holds `v`, which differs from its old value |
| Elements.ChildrenNeverAssigned | package/createElement.tsx:54-57 | `children` is never assigned as a property |
| Elements.SamePropsNoOps | package/createElement.tsx:28-58 | With identical old and new props, `updateDom` issues no call |
| Elements.RemovalsBeforeAdditions | package/createElement.tsx:28-58 | Every listener removal comes before every other call |
| Elements.UpdateDomTouchesOnlyNode | package/createElement.tsx:28-58 | Every call of `updateDom` acts on its own node and none appends or removes a child |
| Elements.CreateDomOpsSplit | package/createElement.tsx:60-66 | `createDom`'s calls are the node's creation, then the listener additions and the property assignments for the props against empty old props |
| Elements.CreateDomTouchesOnlyNode | package/createElement.tsx:60-66 | `createDom` first creates a text node for `TEXT_ELEMENT` and an element of the tag otherwise. After that it only adds listeners and sets properties, all on that node |
| Elements.CreateDomSetsProperties | package/createElement.tsx:60-66 | `createDom` assigns exactly the property keys of the props, each its value |
| Elements.CreateDomAddsListeners | package/createElement.tsx:60-66 | `createDom` attaches exactly the handlers of the event keys of the props, under their event names |
| Fibers.Ancestors | package/wookLoop.tsx:27-33 | The path a fiber climbs through `parent`: it starts at the fiber, follows `parent` links and ends at a root |
| Fibers.ClimbFindsFirstSibling | package/wookLoop.tsx:27-33 | The `while (nextFiber)` loop gives the sibling of the first fiber on the ancestor path that has one, and nothing exactly when no fiber up to the root has a sibling |
| Fibers.NextUnitIsPreorderSuccessor | package/wookLoop.tsx:23-33 | The next unit is the child when there is one. Otherwise it is the sibling of the nearest ancestor-or-self that has a sibling, and nothing when none does |
| Fibers.ParentDomIsNearestOwner | package/wookLoop.tsx:119-123 | The parent-node search gives the node of the first fiber on the ancestor path that owns one |
| Fibers.SiblingChain | package/wookLoop.tsx:80-82 | The sibling chain from a fiber is in range, each entry links to the next, and the last has no sibling |
| Fibers.SiblingChainIncreasing | package/wookLoop.tsx:80-82 | A sibling chain visits strictly increasing fibers, so it revisits none |
| Fibers.AlternateChild | package/wookLoop.tsx:41 | `fiber.alternate && fiber.alternate.child` is absent or a fiber of the arena |
| Fibers.OldChildrenFirst | package/wookLoop.tsx:41 | The loop's first old fiber is the first old child, and absent exactly when there are no old children |
| Fibers.OldChildLink | package/wookLoop.tsx:80-82 | Advancing `oldFiber` through `sibling` meets the old children in order, with nothing after the last |
| Fibers.ReconcileDiffsByPosition | package/wookLoop.tsx:48-73 | The new fiber at position `k` has `f` as parent and the element's props. It is tagged UPDATE exactly when the old child at `k` has the element's type, and then keeps that fiber's type and node and has it as alternate. Otherwise it is a PLACEMENT of the element's type with no node and no alternate |
| Fibers.DeletedExactlyMismatches | package/wookLoop.tsx:74-78 | The fibers queued by the first `n` turns are increasing, drawn from those turns' old children, and are exactly the ones whose type does not match |
| Fibers.DeletionsAreMismatches | package/wookLoop.tsx:74-78 | `reconcileChildren` queues, in position order, exactly the old children without a same-type element at their position |
| Fibers.ReconcileTagsDeletions | package/wookLoop.tsx:74-78 | An old fiber is tagged DELETION exactly when it is queued for deletion. The tag and `f.child` are the only old fields that change |
| Fibers.ShrinkDeletesTail | package/wookLoop.tsx:44-78 | Every old child past the new element count is deleted |
| Fibers.TurnedIsArrange | package/wookLoop.tsx:44-93 | Taking the loop's turns one at a time gives the arena the position-wise description `Arrange` states |
| Fibers.ReconciledNewFiber | package/wookLoop.tsx:53-91 | The fibers `reconcileChildren` appends have parent `f` and are linked one to the next, the last to nothing |
| Fibers.ReconciledFirstChild | package/wookLoop.tsx:85-86 | Once the loop has turned, `f.child` is the first new fiber, or nothing when there are no elements |
| Fibers.ReconciledNoTurn | package/wookLoop.tsx:44 | With no elements and no old children the loop does not turn and nothing changes |
| Fibers.ReconcileLinksChildren | package/wookLoop.tsx:39-94 | After reconciliation the arena is well linked and grew by one fiber per element. When the loop turned, the sibling chain from `f.child` is exactly the new fibers in element order, each with parent `f`. When it did not turn, nothing changed |
| Fibers.ReconcileKeepsOld | package/wookLoop.tsx:39-94 | Reconciliation changes only the `child` and `effectTag` fields of the old arena |
| Fibers.ReconcileKeepsCommittable | package/wookLoop.tsx:74-78 | After reconciliation the arena stays well linked. Every queued deletion, earlier or new, has a parent for `commitWork` to read, and roots stay roots |
| Fibers.ReconcileKeepsSession | package/wookLoop.tsx:39-94 | Reconciliation keeps the globals' invariant, with its deletions queued after the earlier ones |
| Fibers.AppendRootKeepsLinks | package/wookLoop.tsx:96-106 | A new root fiber owning a node and pointing back at an older root keeps the arena well linked |
| Fibers.ReplaceKeepsLinks | package/wookLoop.tsx:158-160 | Setting a fiber's node, cells or tag keeps the arena well linked, provided a root keeps a node and an UPDATE fiber an alternate |
| Fibers.ReplaceKeepsSession | package/wookLoop.tsx:150-152 | Such an update also keeps the globals' invariant |
| Fibers.WithHooks | package/wookLoop.tsx:152 | Replacing `wipFiber.hooks` keeps the arena well linked and its size |
| Fibers.WithDom | package/wookLoop.tsx:158-160 | Setting `fiber.dom` keeps the arena well linked and its size |
| Fibers.FoldAppend | package/wookLoop.tsx:172-175 | Folding two queues one after the other folds their concatenation |
| Fibers.QueuedUpdatesApplyInOrder | package/wookLoop.tsx:172-178 | Actions queued on a cell after others are applied after them, to the state the earlier ones produced |
| Fibers.FirstRenderUsesInitial | package/wookLoop.tsx:166-168 | Without an old cell the state is the initial value |
| Fibers.StatesCarryOver | package/wookLoop.tsx:166-175 | A re-render whose alternate left fresh cells with states `s` reads those states back at their positions, and the initial value past them |
| Fibers.EnqueueAppends | package/wookLoop.tsx:178 | `hook.quene.push(action)` appends the action to that cell's queue and changes no other cell or fiber |
| Fibers.ChildPath | package/wookLoop.tsx:138-144 | The fibers `commitDeletion` visits start at the deleted fiber and are in range |
| Fibers.DeletionTargetsFirstHost | package/wookLoop.tsx:138-144 | `commitDeletion` removes the node of the first fiber on the child path that owns one. It calls `removeChild` on that node, with the parent node as argument only at the deleted fiber itself and `null` deeper down. It throws exactly when no fiber on the path owns a node |
| Fibers.HostDeletionSwapsReceiver | package/wookLoop.tsx:127-140 | Deleting a host fiber calls `removeChild` on the deleted node, with its parent's node as the argument |
| Fibers.ComponentDeletionPassesNull | package/wookLoop.tsx:138-143 | Deleting a function fiber whose child is a host fiber calls `removeChild(null)` on the child's node |
| Fibers.Walk | package/wookLoop.tsx:134-135 | The fibers `commitWork` visits start at the given fiber and all have a parent |
| Fibers.CommitFollowsWalk | package/wookLoop.tsx:115-136 | `commitWork` issues the own calls of the fibers in pre-order, child before sibling, stopping at the first throw |
| Fibers.OwnCommitsCompleted | package/wookLoop.tsx:115-136 | A walk completes exactly when every visited fiber's own calls complete |
| Fibers.OwnCommitsIssuedBy | package/wookLoop.tsx:115-136 | Every call of a walk is an own call of one of the visited fibers |
| Fibers.CommitWalkIssues | package/wookLoop.tsx:115-135 | A walk that completes appends every visited PLACEMENT fiber that owns a node to the nearest node above it. It issues every `updateDom(dom, alternate.props, props)` call of every visited UPDATE fiber that owns a node |
| Fibers.NodelessFiberPassesThrough | package/wookLoop.tsx:115-135 | A fiber without a node that is not deleted, such as a function fiber, issues nothing itself. `commitWork` goes on to its child, then its sibling |
| Fibers.StaleSiblingRecommitted | package/wookLoop.tsx:125-135 | `commitWork` on any fiber, whatever its tag, goes on to its sibling and appends it to its parent node when that sibling is a PLACEMENT with a node. For a deleted fiber this is a stale link of the old tree, so a fiber placed earlier is appended again |
| Fibers.DeletionsTraceStops | package/wookLoop.tsx:109 | Once a deletion throws, no later deletion is committed |
| Engine.CreateDomLogIsFresh | package/createElement.tsx:60-66 | The DOM calls of `createDom` on a fresh node only build and fill that node |
| Engine.Session.constructor | package/wookLoop.tsx:4-7 | The initial globals: no unit, no roots, no deletions, an empty arena and log |
| Engine.Session.Render | package/wookLoop.tsx:96-106 | `render` appends a root owning the container, with `children` `[element]` and the committed root as alternate. It becomes `wipRoot` and `nextUnitOfWork`, and `deletions` is emptied |
| Engine.Session.SetState | package/wookLoop.tsx:177-186 | `setState` queues the action on its cell. With a committed root it schedules a new root copying that root's node and props, with it as alternate, and empties `deletions`. Without one it throws after queueing |
| Engine.Session.UseState | package/wookLoop.tsx:165-191 | The state is the old cell's queue folded over the old cell's state, or over `initial`. A fresh cell holding it with an empty queue is appended to `wipFiber.hooks`, `hookIndex` grows by one, and the old cell is untouched |
| Engine.Session.ApplyQueue | package/wookLoop.tsx:172-175 | The `forEach` over the queue computes its fold |
| Engine.Session.CallHooks | package/wookLoop.tsx:153 | The component's `useState` calls resolve, in order, the states `RenderStates` gives, and leave one fresh cell per call |
| Engine.Session.UpdateFunctionComponent | package/wookLoop.tsx:149-155 | The fiber becomes `wipFiber` with only the fresh cells of this render. The element the component returns for the resolved states is reconciled as its only child |
| Engine.Session.UpdateHostComponent | package/wookLoop.tsx:157-163 | A fiber without a node gets the fresh node `createDom` builds, then its `props.children` are reconciled. The DOM calls only build and fill that node |
| Engine.Session.PerformUnitOfWork | package/wookLoop.tsx:15-34 | The fiber is rendered as a function or host component and the depth-first successor is returned. The only DOM calls build and fill fresh nodes |
| Engine.Session.PerformNextUnit | package/wookLoop.tsx:201 | The unit in `nextUnitOfWork` is rendered as a function or host component, with the same effect `PerformUnitOfWork` states. `nextUnitOfWork` moves on to the depth-first successor, and the log only gains calls on fresh nodes |
| Engine.Session.RunUnits | package/wookLoop.tsx:198-204 | Units are performed until none is left or the reading after the last one says to yield. Work is left only after at least one unit, and the loop went on after every reading but the last. Rendering only adds calls on fresh nodes to the log and leaves `wipRoot` and `currentRoot` as they were |
| Engine.Session.WorkLoop | package/wookLoop.tsx:197-208 | At least one unit is performed when there is work, and the loop goes on exactly while work is left and the deadline has not passed. Before the commit it issues no `appendChild` or `removeChild`. It commits exactly when no unit is left and `wipRoot` is set: deletions first, then `wipRoot.child`. On success `currentRoot` becomes `wipRoot` and `wipRoot` is cleared |
| Engine.Session.RunPass | package/createElement.tsx:30-57 | One `filter`/`forEach` pass appends its calls to the log |
| Engine.Session.UpdateDom | package/createElement.tsx:28-58 | `updateDom` appends the calls of its four passes, in order |
| Engine.Session.CreateDom | package/createElement.tsx:60-66 | `createDom` takes the next fresh node and appends its creation and `updateDom(dom, {}, props)`, all on that node |
| Engine.Session.ReconcileChildren | package/wookLoop.tsx:39-94 | The arena becomes `Reconciled(fibers, f, children)`, with `Deletions(...)` appended to `deletions`, and the globals' invariant is kept |
| Engine.Session.ReconcileLoop | package/wookLoop.tsx:44-93 | The loop takes `max(children.length, old chain length)` turns and queues each unmatched old fiber |
| Engine.Session.ReconcileTurn | package/wookLoop.tsx:45-92 | One turn takes the arena after `i` turns to the one after `i + 1`, and advances `oldFiber` and `preSibling` |
| Engine.Session.TurnArena | package/wookLoop.tsx:45-91 | The body of one turn: the new fiber, the DELETION tag on an unmatched old fiber, and the link from `fiber.child` or `preSibling` |
| Engine.Session.FindNext | package/wookLoop.tsx:23-33 | The child-then-climb search returns `NextUnit` |
| Engine.Session.FindParentDom | package/wookLoop.tsx:119-123 | The `while (!parentFiber.dom)` loop returns `ParentDom`, and terminates because every fiber's ancestors end at a root that owns a node |
| Engine.Session.CommitDeletion | package/wookLoop.tsx:138-144 | Appends the one removal `DeletionOp` gives, or throws when it gives none |
| Engine.Session.CommitOwn | package/wookLoop.tsx:123-132 | Appends the fiber's own calls (append, deletion or update) for the parent node found |
| Engine.Session.CommitWork | package/wookLoop.tsx:115-136 | Appends `CommitTrace` and reports whether it completed |
| Engine.Session.CommitDeletions | package/wookLoop.tsx:109 | `deletions.forEach(commitWork)` appends each deletion's walk in order, stopping at a throw |
| Engine.Session.CommitRoot | package/wookLoop.tsx:108-113 | Appends the deletions' calls, then the walk from `wipRoot.child`. When that completes `currentRoot` becomes `wipRoot` and `wipRoot` is cleared. After a throw the roots stay as they were |

## Left out

- `requestIdleCallback` and the idle deadline (`package/wookLoop.tsx:210-219`) are host scheduling.
  - `WorkLoop` models one callback. `timeRemaining(k)` is the reading after the `k`-th unit, as a real number.
  - The callback is assumed to have some reading below 1, so the loop ends. A real deadline expires.
  - The re-scheduling of the next callback is not modelled.
- The DOM itself is foreign I/O. Nodes are abstract handles, and calls are recorded in a log, not executed. `document.createElement` and `createTextNode` give out the next unused handle.
- Every DOM call is taken to succeed. A browser rejects the two removal calls `commitDeletion` makes:
  - `fiber.dom.removeChild(dom)` with the parent node as argument throws NotFoundError, because the parent is not a child of the deleted node (`package/wookLoop.tsx:140`);
  - `removeChild(null)` from the recursion throws TypeError (`package/wookLoop.tsx:142`).

  So in a browser every commit with a deletion stops at its first deletion. `currentRoot` then stays as it was and no later idle callback is requested. The model instead records the call and lets the commit go on, so `CommitRoot` and `WorkLoop` report such a commit as completed, with `currentRoot` set to `wipRoot`.
- Component functions are user code. Each is a pair of pure functions:
  - one gives its initial values, which depend only on its props;
  - the other gives the element it returns for the states its `useState` calls resolved.

  So the model leaves out the following, all of which user code could do:
  - a component whose number of `useState` calls depends on earlier states;
  - calls to `setState` during a render;
  - other side effects.
- The values JavaScript allows beyond strings, integers, booleans, handlers and element lists are not modelled: `null`/`undefined` entries in `children`, nested arrays as children, and floating-point numbers.
  - Elements returned by components and read from `props.children` are well formed. This rules out the `null` child that would break sibling linking.
  - `==`/`!=` on values is structural equality, and handlers compare by identity. JavaScript's loose-equality coercions are not modelled.
- `toLowerCase` is modelled for ASCII letters only. Unicode case mapping is not modelled.
- A props object read by `createElement` is assumed to have distinct keys, as every JavaScript object does. Those keys are kept in insertion order.
- Integer-like keys (`"0"`, `"1"`, ...) are not modelled. `Object.keys` and the spread in `createElement` list them first, in ascending numeric order, before the other keys. The model keeps every key in insertion order, so for such keys `Keys`, the order of `updateDom`'s calls and the position `SetProp` gives a key can differ from JavaScript's.
- Keyed reconciliation is not modelled: `key` is always `""` and the diff is positional in the code as well.
- `package/react.tsx` is not part of this model. It is a separate non-incremental renderer and a duplicate `createElement`.
- `src/index.tsx` is not part of this model. It is a demo bootstrap.
- `package/interface.ts` holds type declarations only. It is mirrored by `Fibers.Fiber` and `Fibers.Hook`.
- An exception thrown by `commitRoot` is modelled as the commit stopping there, with `ok` false. The model does not follow it out of `workLoop` into the browser.
- Engine.Session.WorkLoop: it states the pacing, the commit and its outcome, and that rendering issued no `appendChild` or `removeChild`. It does not give the arena after several units as one function of the arena before them. `PerformUnitOfWork` states the effect of each unit.
