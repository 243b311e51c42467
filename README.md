# lit: node-part primitives, the resize controller, the React controller host and hydration support

This project models four small pieces of the lit web-component library in Dafny and proves what each of them promises.

- **Node-part primitives** (`packages/lit-html/parts.js`). A node part is a run of sibling DOM nodes bracketed by two comment markers, `start` and `end`, in a parent's child list. The primitives:
  - detach a part's nodes into a fragment and restore them;
  - create a new part between two fresh markers;
  - set and read a part's value;
  - move a part's block of nodes before another part;
  - remove a part's nodes.

  The parent's child list is a `seq<Node>` field that the methods rewrite one node at a time, exactly as the source's sibling-walking loops do. The list surgery they perform is specified by functions of module `NodeLists` (`Region`, `Fill`, `MoveBlock`, `Without`), and the loops are proved against those functions.
- **`ResizeController` and its element directive** (`packages/labs/src/controllers/resize.ts`).
  - The directive binds an element and a controller once.
  - It is meant to keep a private `ResizeObserver` watching the element while it is connected. As written, it stops watching after a disconnect and reconnect (see "## Findings").
  - It forwards the observer's entries for that element to the controller.
  - The controller stores the latest entry and asks its host for an update.
- **`ReactControllerHost` and `useController`** (`packages/labs/react/src/use-controller.ts`). The host lets lit reactive controllers drive a React component.
  - It fans each lifecycle phase out to its controllers in order.
  - It coalesces update requests into at most one scheduled "kick" of React state.
  - It re-arms and resolves a completion promise in `updated`.
  - `useController` is the sequence of host calls a render makes.
- **LitElement hydration support** (`packages/lit-element/src/hydrate-support.ts`). This patch attaches to a server-rendered shadow root on the element's first update, instead of rendering the shadow root again. It also holds back updating while the element carries `defer-hydration`.

Each stateful object is a class whose methods update its fields. The resize directive, the React host and the patched element each also have a ghost `State()` value. Each of their methods is proved to move `State()` by a step function (`UpdateStep`, `RequestUpdateStep`, `ConnectedStep`, …), and lemmas about the step functions prove the invariants and the properties that hold across several calls.

Calls into code outside these files are recorded, not performed:
- the observer's `observe`/`unobserve`;
- the controllers' hooks;
- React's state setter;
- `enableUpdating`;
- the base LitElement methods;
- lit-html's `render` and `hydrate`;
- the hydration callbacks.

They become entries of a log field (`calls`, `kicks`, `trace`) or a counter (`updateRequests`).

Files:
- `wrappers.dfy`: `Option` and `Result`.
- `node_lists.dfy`: child-list surgery and its lemmas.
- `parts.dfy`: the `parts.js` primitives.
- `resize.dfy`, `use_controller.dfy` and `hydrate_support.dfy`: the other three sources.

## Model

| member | source | states |
|---|---|---|
| Parts.NodePart.CommitNode | packages/lit-html/parts.js:11 | the renderer's node commit `k` puts exactly the fragment's nodes, in order, between the markers, keeps the markers, and empties the fragment |
| Parts.DetachNodePart | packages/lit-html/parts.js:2-9 | the fresh fragment receives exactly the nodes strictly between the markers, in their order; the parent keeps everything else in place, with an empty region; the snapshot holds the prior value, and the part's value (as `getPartValue` reads it, line 32) becomes `nothing` |
| Parts.AppendNodes | packages/lit-html/parts.js:5-7 | the detach loop takes the run before `end` out of the parent and appends it, in order, to the fragment |
| Parts.AppendOneNode | packages/lit-html/parts.js:7 | one turn of the detach loop: the next sibling is read before the node moves, then the node leaves the parent and becomes the fragment's last child |
| Parts.RestoreNodePart | packages/lit-html/parts.js:10-12 | the region becomes the snapshot fragment's nodes, the markers stay, and `getPartValue` returns the snapshot's value |
| Parts.DetachThenRestore | packages/lit-html/parts.js:2-12 | detaching and then restoring the part's own snapshot restores both the parent's child list and the part's value |
| NodeLists.FillRoundTrip | packages/lit-html/parts.js:2-12 | emptying a region and then filling it with its old nodes gives back the original child list |
| NodeLists.RegionApart | packages/lit-html/parts.js:5-7 | a region's nodes are distinct and none of them stays in the emptied child list, so they can be committed back |
| Parts.CreateAndInsertPart | packages/lit-html/parts.js:14-20 | two fresh, distinct markers are inserted next to each other just before the reference part's start marker (the container's end marker when there is no reference part); the new part has an empty region, shares the container's options, and the old children keep their relative order |
| NodeLists.InsertPairSpec | packages/lit-html/parts.js:17-18 | inserting two fresh markers before a node brackets an empty region; the second marker's next sibling is that node; filtering the markers out gives back the old list |
| NodeLists.InsertPairKeeps | packages/lit-html/parts.js:17-18 | any part that was bracketed before the two markers are inserted is still bracketed afterwards |
| Parts.ArraySet | packages/lit-html/parts.js:27 | the JavaScript assignment `r[n] = v` on a copied array: only position `n` changes; a position past the end grows the array, with `undefined` filling the gap; a key that is not an array index changes no element |
| Parts.SetValueCommit | packages/lit-html/parts.js:21-30 | an attribute part without an index fails with the exact error message; with an index, the commit is a copy of the old array, with only position `n` replaced, passed with index 0, whose length is exactly what the assignment gives (the old length, or `n + 1` when `n` is a new position); on a node part the value is forwarded unchanged |
| Parts.SetPartValue | packages/lit-html/parts.js:21-31 | the method records exactly that one `_setValue` call and returns the same part; on the error path it commits nothing; it never mutates the part's old value array |
| Parts.RemoveNodes | packages/lit-html/parts.js:48-53 | the loop `f` removes exactly the run from `from` up to, but not including, `stop` (to the last child for `null`), and keeps the other children in order |
| Parts.RemovePart | packages/lit-html/parts.js:39-41 | exactly the nodes from the start marker through the end marker, inclusive, leave the parent; the others keep their order |
| NodeLists.CutSpec | packages/lit-html/parts.js:48-53 | cutting a run leaves exactly the other nodes in their order; the multiset of children loses exactly the run |
| Parts.MoveNodes | packages/lit-html/parts.js:42-47 | the loop `d` moves the run from `from` up to `stop`, one node at a time and in order, to just before `before`; the result is `MoveBlock` of the old list |
| Parts.TargetNode | packages/lit-html/parts.js:35 | the target of the move is the reference part's start marker when there is a reference part, and the container's end marker otherwise |
| Parts.InsertPartBefore | packages/lit-html/parts.js:33-38 | the part's block, start marker through end marker, moves as one run in order to just before the reference part's start marker (the container's end marker without one) |
| NodeLists.MoveRunStop | packages/lit-html/parts.js:36-37 | when the node after the block is already the target, `MoveBlock` is the identity, which is why skipping the move changes nothing |
| NodeLists.MoveBlockInPlace | packages/lit-html/parts.js:37 | moving a run before the node that already follows it leaves the list unchanged |
| NodeLists.MoveBlockPermutes | packages/lit-html/parts.js:33-47 | moving a block preserves the multiset of children |
| NodeLists.MoveBlockDistinct | packages/lit-html/parts.js:33-47 | moving a block keeps the child list free of duplicates |
| NodeLists.MoveBlockKeepsOthers | packages/lit-html/parts.js:33-47 | the nodes outside the moved run keep their relative order |
| NodeLists.MoveBlockPlaces | packages/lit-html/parts.js:42-47 | after the move, the run sits contiguous and in order, directly before the target node |
| NodeLists.MoveBlockKeepsBracket | packages/lit-html/parts.js:33-38 | a moved block that runs from a part's start marker through its end marker leaves the part with both markers, in order, around the same nodes |
| Resize.ResizeController.constructor | packages/labs/src/controllers/resize.ts:81-83 | keeps the host and holds no entry yet, so every getter reads undefined |
| Resize.ResizeController.BorderBoxSize | packages/labs/src/controllers/resize.ts:69-71 | undefined exactly until an entry has arrived, then the last entry's border-box size |
| Resize.ResizeController.ContentBoxSize | packages/labs/src/controllers/resize.ts:73-75 | undefined exactly until an entry has arrived, then the last entry's content-box size |
| Resize.ResizeController.ContentRect | packages/labs/src/controllers/resize.ts:77-79 | undefined exactly until an entry has arrived, then the last entry's content rectangle |
| Resize.ResizeController.Observe | packages/labs/src/controllers/resize.ts:85-87 | the directive call it returns is bound to this controller |
| Resize.ResizeController.OnResize | packages/labs/src/controllers/resize.ts:89-92 | stores the entry and asks the host for exactly one update |
| Resize.ResizeDirective.constructor | packages/labs/src/controllers/resize.ts:100-112 | a directive with its own fresh observer, which watches nothing; no target or controller is bound, and it is not observing |
| Resize.ResizeDirective.Render | packages/labs/src/controllers/resize.ts:114-116 | renders `noChange` |
| Resize.ResizeDirective.Update | packages/labs/src/controllers/resize.ts:118-126 | moves the directive by `UpdateStep` and returns `noChange` |
| Resize.UpdateBindsOnce | packages/labs/src/controllers/resize.ts:119-120 | the first `update` binds its element and controller; later ones keep the originals |
| Resize.UpdateIdempotent | packages/labs/src/controllers/resize.ts:118-126 | a second `update`, with any element and controller, changes nothing |
| Resize.UpdateObservesOnce | packages/labs/src/controllers/resize.ts:121-124 | `observe` is called, on the bound target, exactly when the directive was not already observing |
| Resize.InitialTracks | packages/labs/src/controllers/resize.ts:110-112 | a new directive's `_observing` flag agrees with its observer, which watches nothing |
| Resize.UpdateTracks | packages/labs/src/controllers/resize.ts:118-126 | `update` keeps `_observing` true exactly when the observer watches the bound target |
| Resize.ResizeDirective.Disconnected | packages/labs/src/controllers/resize.ts:128-133 | moves the directive by `DisconnectedStep` |
| Resize.DisconnectedIdempotent | packages/labs/src/controllers/resize.ts:128-133 | `disconnected` calls `unobserve` only when observing, clears the flag, never rebinds, and a second call is a no-op |
| Resize.DisconnectedTracks | packages/labs/src/controllers/resize.ts:128-133 | `disconnected` keeps the flag in step with the observer |
| Resize.ResizeDirective.Reconnected | packages/labs/src/controllers/resize.ts:135-140 | moves the directive by `ReconnectedStep`, which makes the source's `unobserve` call |
| Resize.ReconnectedLosesTarget | packages/labs/src/controllers/resize.ts:135-140 | as written, `reconnected` acts only when not observing and never rebinds, but it leaves the flag claiming an observation that the observer does not make |
| Resize.ReconnectedCounterexample | packages/labs/src/controllers/resize.ts:137 | update(7), disconnected, reconnected: the directive believes it observes element 7, and the observer watches nothing |
| Resize.ResizeDirective.ReconnectedObserving | packages/labs/src/controllers/resize.ts:135-140 | the intended `reconnected`, calling `observe` |
| Resize.ReconnectedObservingTracks | packages/labs/src/controllers/resize.ts:135-140 | with `observe` in its place, `reconnected` keeps the flag in step with the observer |
| Resize.DisconnectReconnectRestores | packages/labs/src/controllers/resize.ts:128-140 | with the intended call, disconnecting and then reconnecting restores the watched set and the flag |
| Resize.ResizeDirective.Deliver | packages/labs/src/controllers/resize.ts:100-108 | the observer callback leaves the bound controller holding the last forwarded entry and raises the host's update count by the number of forwarded entries |
| Resize.ForwardedExactly | packages/labs/src/controllers/resize.ts:101-103 | an entry is forwarded exactly when its target is the bound element |
| Resize.ForwardedConcat | packages/labs/src/controllers/resize.ts:101-107 | the filter keeps entry order: a batch is forwarded as the forwarded pieces, one after the other |
| ReactHost.ReactControllerHost.constructor | packages/labs/react/src/use-controller.ts:30-47 | stores the given `kickCount`; no controllers, an update pending, no kick scheduled, and the first promise not yet resolved |
| ReactHost.ReactControllerHost.AddController | packages/labs/react/src/use-controller.ts:49-51 | appends the controller at the end, with no deduplication |
| ReactHost.AddedLast | packages/labs/react/src/use-controller.ts:49-51 | a controller added last has its hooks called last, and one added twice is called twice |
| ReactHost.ReactControllerHost.RequestUpdate | packages/labs/react/src/use-controller.ts:53-59 | moves the host by `RequestUpdateStep` |
| ReactHost.RequestUpdateCoalesces | packages/labs/react/src/use-controller.ts:53-59 | a request while an update is pending does nothing; otherwise it schedules one kick carrying `kickCount + 1`; after any request an update is pending |
| ReactHost.RequestsScheduleOneKick | packages/labs/react/src/use-controller.ts:53-59 | any number of requests in a row schedule at most one kick |
| ReactHost.ReactControllerHost.UpdateComplete | packages/labs/react/src/use-controller.ts:61-63 | the current promise, of the current generation, which is not yet resolved |
| ReactHost.ReactControllerHost.Notify | packages/labs/react/src/use-controller.ts:65-79 | the phase `forEach` moves the host by `FanOut` over the controllers in order |
| ReactHost.FanOutSpec | packages/labs/react/src/use-controller.ts:65-79 | a phase calls the matching hook of each controller that has it, in list order; it schedules one kick exactly when some hook requests an update while none is pending |
| ReactHost.HookCallsExactly | packages/labs/react/src/use-controller.ts:65-79 | a hook call is logged exactly for the controllers that define that hook |
| ReactHost.HookCallsConcat | packages/labs/react/src/use-controller.ts:65-79 | fanning out over two lists of controllers calls the first list's hooks, then the second's |
| ReactHost.ReactControllerHost.Connected | packages/labs/react/src/use-controller.ts:65-67 | `FanOut` of the `connected` hook |
| ReactHost.ReactControllerHost.Disconnected | packages/labs/react/src/use-controller.ts:69-71 | `FanOut` of the `disconnected` hook |
| ReactHost.ReactControllerHost.WillUpdate | packages/labs/react/src/use-controller.ts:73-75 | `FanOut` of the `willUpdate` hook |
| ReactHost.ReactControllerHost.Update | packages/labs/react/src/use-controller.ts:77-79 | `FanOut` of the `update` hook |
| ReactHost.ReactControllerHost.Updated | packages/labs/react/src/use-controller.ts:81-90 | moves the host by `UpdatedStep` |
| ReactHost.UpdatedSpec | packages/labs/react/src/use-controller.ts:81-90 | `updated` clears pending before the hooks run, so a request from a hook schedules exactly one follow-up kick; it arms a new promise and resolves the previous one with whether an update was requested |
| ReactHost.StepsKeepSignals | packages/labs/react/src/use-controller.ts:81-90 | every step keeps exactly the earlier promises resolved; `updated` resolves the current one and leaves the new one pending |
| ReactHost.RenderSchedulesNothing | packages/labs/react/src/use-controller.ts:128-134 | a render marks an update pending, calls `willUpdate` then `update` on every controller, and schedules no kick, even from a hook that requests one |
| ReactHost.CreateSpec | packages/labs/react/src/use-controller.ts:120-126 | the new host has the one created controller, has run its `connected` hook once, starts pending, and has nothing scheduled |
| ReactHost.Component.UseController | packages/labs/react/src/use-controller.ts:105-137 | the host is created once, on the first render, with the current `kickCount`, and runs `connected`; every render then runs the render step; the same primary controller is returned each time |
| ReactHost.Component.Commit | packages/labs/react/src/use-controller.ts:131 | the dependency-free layout effect runs `updated` after every render |
| ReactHost.Component.Unmount | packages/labs/react/src/use-controller.ts:130 | the empty-dependency effect's cleanup runs `disconnected` on every controller |
| ReactHost.Component.ApplyKick | packages/labs/react/src/use-controller.ts:110 | React's state setter stores the kick and re-renders exactly when the value is new |
| ReactHost.StepsKeepKicks | packages/labs/react/src/use-controller.ts:40-57 | every scheduled kick carries the host's fixed `kickCount + 1` |
| ReactHost.FixedKickIgnored | packages/labs/react/src/use-controller.ts:110-121 | as written, the second update cycle's kick is 1 again, and React ignores it |
| ReactHost.RefreshedKickRerenders | packages/labs/react/src/use-controller.ts:110-121 | with `kickCount` refreshed from the state on each render, each cycle's one kick is state + 1, so React re-renders |
| ReactHost.Component.UseControllerRefreshing | packages/labs/react/src/use-controller.ts:105-137 | the intended `useController`, which also refreshes the host's `kickCount` from the current state |
| Hydration.ObservedAttributes | packages/lit-element/src/hydrate-support.ts:46-56 | the base attribute list, unchanged, followed by `defer-hydration` |
| Hydration.AttributeChangedEvent | packages/lit-element/src/hydrate-support.ts:59-71 | `enableUpdating` exactly when `defer-hydration` is removed; otherwise the base callback with the same arguments |
| Hydration.AttributeChangedSpec | packages/lit-element/src/hydrate-support.ts:59-71 | the callback logs exactly one of the two calls, and the hydration flag does not change |
| Hydration.PatchedElement.AttributeChangedCallback | packages/lit-element/src/hydrate-support.ts:59-71 | moves the element by `AttributeChangedStep` |
| Hydration.ConnectedSpec | packages/lit-element/src/hydrate-support.ts:75-86 | a shadow root marks hydration as needed, and the mark is never cleared here; `enableUpdating` is called exactly when `defer-hydration` is absent |
| Hydration.PatchedElement.ConnectedCallback | packages/lit-element/src/hydrate-support.ts:75-86 | moves the element by `ConnectedStep` |
| Hydration.CreateRenderRootSpec | packages/lit-element/src/hydrate-support.ts:90-97 | returns the existing shadow root exactly when hydration is needed; only otherwise calls the base |
| Hydration.PatchedElement.CreateRenderRoot | packages/lit-element/src/hydrate-support.ts:90-97 | moves the element by `CreateRenderRootStep` and returns its root |
| Hydration.UpdateSpec | packages/lit-element/src/hydrate-support.ts:100-120 | calls the element's `render`, then the base `update`; then, exactly when hydration is needed, it hydrates, clears the flag, runs the queued callbacks and drops the queue; otherwise it renders |
| Hydration.SecondUpdateRenders | packages/lit-element/src/hydrate-support.ts:109-119 | an update right after an update renders and runs no callback: hydration happens at most once |
| Hydration.CallbackEventsInOrder | packages/lit-element/src/hydrate-support.ts:113-115 | each queued callback runs exactly once, in queue order |
| Hydration.PatchedElement.Update | packages/lit-element/src/hydrate-support.ts:100-120 | moves the element by `UpdateStep` |
| Hydration.PatchedElement.FlushCallbacks | packages/lit-element/src/hydrate-support.ts:114 | the `forEach` logs the callbacks in order and changes nothing else |
| Hydration.ReconnectRehydrates | packages/lit-element/src/hydrate-support.ts:78-80 | as written, a client-rendered element that connects again is marked for hydration, and its next update hydrates its own shadow root |
| Hydration.PatchedElement.ConnectedCallbackIntended | packages/lit-element/src/hydrate-support.ts:75-86 | the intended `connectedCallback`, which also tests `hasUpdated` |
| Hydration.IntendedStepsKeepFresh | packages/lit-element/src/hydrate-support.ts:75-120 | with the intended `connectedCallback`, every step keeps this invariant: hydration is due only for a shadow root the element has not updated into |
| Hydration.UpdatedNeverHydrates | packages/lit-element/src/hydrate-support.ts:109-118 | once the element has updated, under that invariant, an update renders and never hydrates |
| Hydration.ReconnectIntendedRenders | packages/lit-element/src/hydrate-support.ts:78-80 | with the intended callback, the reconnected element's next update renders |

## Left out

- Real DOM objects are not modelled. A node is an object with only a child list. `createComment` and `createDocumentFragment` are `new Node()`. `nextSibling`, `append`, `insertBefore` and `remove` are the `NodeLists` functions on that list. A node's removal from its old parent, on `append`/`insertBefore` into another, is modelled only for the fragment and the part's parent.
- Parts.NodePart.CommitNode: the renderer's `k` is not part of this model. It is taken to put exactly the fragment's nodes into the region and to leave the fragment empty, as a fragment insertion does.
- Parts.SetPartValue: `_setValue` is not part of this model. The method records the call but does not model its effect on the part's stored value.
- Parts.GetPartValue is a plain read with no contract of its own. Its meaning is stated through the contracts of `DetachNodePart` and `RestoreNodePart`.
- Parts.NodePart.constructor and Parts.CreateAndInsertPart: the `NodePart` class lives in `lit-html.js`, which is not part of this model. A new node part is taken to store its markers and options and to start with the value `undefined` and no commits; `CreateAndInsertPart`'s `part.value == Undefined` rests on that assumption.
- Parts.InsertPartBefore and Parts.MoveNodes: the contract requires the move target to lie outside the moved block, and the model does not cover the other case. The source does not check it. With the target being the part's start marker or the node after it, the loop `d` ends but reorders the block, so the start marker can end up after the end marker, or a region node outside the part. With any later node of the block as the target, for example its own end marker, `d` never terminates. The contract states the result as `MoveBlock` of the old list; its properties (permutation, order of the other nodes, the part keeping its region, the no-op case) are the `NodeLists` lemmas in the table.
- Parts.InsertPartBefore and Parts.CreateAndInsertPart: the reference part must share the container's parent. Parts in different parents are not modelled.
- Parts.InsertPartBefore: `n ? n.D : t.E` is JavaScript truthiness. The model has only "a part" or "no part".
- Parts.MoveNodes and Parts.RemoveNodes take the parent explicitly, together with ghost positions of their argument nodes. The source reads the parent from `parentNode`. The `null` default of the stop node (`n` of `d`, `o` of `f`) is represented as `None`.
- Parts.NodePart.Valid: a part's end marker is always taken to be a node of the parent's child list. A part whose end `E` is `null`, running to the end of its parent, is not covered. This affects three operations: `createAndInsertPart`, where `insertBefore(_, null)` appends; `detachNodePart`, whose loop would walk to the last child; and `insertPartBefore`, which would pass `null` to `d`. Parts.MoveNodes: for the same reason its `before` is always a node, so `d`'s default `r = null`, under which `insertBefore(o, null)` appends each node at the end, is not covered.
- Parts.ArraySet: a non-integer or string index is not modelled; the index is an integer or absent.
- Resize.ResizeDirective.Reconnected and Resize.ResizeDirective.Disconnected require a bound target whenever they call the observer. The source leaves this case unchecked: TypeScript's `_target!` is erased at compile time, and the browser's `unobserve(undefined)` would throw a `TypeError`. The model excludes this case.
- `ResizeObserverEntry` measurements are floating-point objects in the browser. Here they are opaque numbers, and only the target is compared.
- The `ResizeObserver` is a set of watched elements and a log of calls; it delivers batches only when `Deliver` is called.
- Resize: the `directive()` wrapper and `DisconnectableDirective` are not part of this model. `Observe` returns the directive call's argument.
- Promises and microtasks are not modelled. A promise is a generation number, its resolution is an entry in `resolutions`, and a scheduled microtask that calls `kick` is an entry in `kicks`.
- ReactHost.Component.UseController: `createController` is foreign code. It is modelled by the controller it returns, which is registered through `addController`, as lit controllers register themselves.
- ReactHost: controllers added while a phase's `forEach` runs are not modelled. Hooks only log their call and may request an update.
- ReactHost: kick numbers are unbounded integers, not JavaScript doubles.
- ReactHost.KickRerenders: React's bail-out on an unchanged state value is modelled as "re-render exactly when the value differs"; the scheduler is not modelled.
- Hydration: `hydrate`, `render`, `enableUpdating`, the element's `render()`, the base LitElement methods and the hydration callbacks are foreign. They are trace events.
- Hydration: the base `createRenderRoot` is taken to attach a shadow root. The base update cycle is taken to set `hasUpdated` after `update` returns.
- Hydration: `changedProperties`, `renderRoot` and `_renderOptions` are passed through unchanged by the patch, so they are not modelled.

## Findings

| source | as written | input that shows it | evidently intended | confidence | as-written member | corrected member |
|---|---|---|---|---|---|---|
| packages/labs/src/controllers/resize.ts:137 | `reconnected` calls `unobserve` on the target and then sets `_observing` to true | `update` on element 7, then `disconnected`, then `reconnected`: `_observing` is true while the observer watches nothing, so resize entries never arrive again, and a later `update` does not re-observe | `observe(_target)`, which keeps `_observing` true exactly when the target is watched | high; not executed | Resize.ReconnectedCounterexample, Resize.ReconnectedLosesTarget, Resize.ResizeDirective.Reconnected | Resize.ReconnectedObservingTracks, Resize.DisconnectReconnectRestores, Resize.ResizeDirective.ReconnectedObserving |
| packages/labs/react/src/use-controller.ts:121 | the host captures `kickCount` once, at creation, so every kick scheduled at line 57 passes the same number (`kickCount + 1`) | state 0; render, `updated`, then a controller's `requestUpdate`: kick 1 re-renders. Render, `updated`, `requestUpdate` again: kick 1 equals the state, React bails out, and the requested update and its `updated` never happen | pass a value that differs from the current state, e.g. refresh `host.kickCount` from `useState` on each render | medium (depends on React's same-value bail-out); not executed | ReactHost.FixedKickIgnored, ReactHost.Component.UseController | ReactHost.RefreshedKickRerenders, ReactHost.Component.UseControllerRefreshing |
| packages/lit-element/src/hydrate-support.ts:78-80 | `connectedCallback` sets `_needsHydration` whenever a shadow root exists, even for an element that has already updated | a client-rendered element connects (no shadow root), renders (the base attaches one), then is moved in the document: its next update calls `hydrate` on the live shadow root | set `_needsHydration` only while `!hasUpdated` (the field is declared on the patched type at line 32 but never read) | medium; not executed | Hydration.ReconnectRehydrates, Hydration.PatchedElement.ConnectedCallback | Hydration.IntendedStepsKeepFresh, Hydration.UpdatedNeverHydrates, Hydration.ReconnectIntendedRenders, Hydration.PatchedElement.ConnectedCallbackIntended |
