/**
 * Lit's `ResizeController` and the element directive that feeds it. The
 * directive binds an element and a controller the first time it updates,
 * keeps a private `ResizeObserver` watching the element while it is connected,
 * and forwards the observer's entries for that element to the controller, which
 * stores the latest entry and asks its host for an update.
 *
 * Elements are identities; a `ResizeObserverEntry` is its target and three opaque
 * measurements. The browser's observer is a set of observed elements with a log of
 * the `observe`/`unobserve` calls made on it.
 */
module Resize {
  import opened Wrappers

  /** The identity of a DOM element. */
  type ElementId = nat

  /** A resize observation: the element it is about and its measurements, kept opaque. */
  datatype Entry = Entry(target: ElementId, borderBoxSize: nat, contentBoxSize: nat, contentRect: nat)

  /** A value a directive hands to lit: `noChange`, or anything else. */
  datatype DirectiveValue = NoChange | Rendered(id: nat)

  /** A call the directive makes on its observer. */
  datatype ObserverCall = ObserveCall(target: ElementId) | UnobserveCall(target: ElementId)

  /** A reactive controller host; only the number of `requestUpdate` calls matters here. */
  class Host {
    var updateRequests: nat

    constructor ()
      ensures updateRequests == 0
    {
      updateRequests := 0;
    }

    /** `requestUpdate()`. */
    method RequestUpdate()
      modifies this
      ensures updateRequests == old(updateRequests) + 1
    {
      updateRequests := updateRequests + 1;
    }
  }

  /** `ResizeController`: remembers the latest entry it was handed. */
  class ResizeController {
    const host: Host
    var entry: Option<Entry>

    constructor (host: Host)
      ensures this.host == host && entry == None
    {
      this.host := host;
      entry := None;
    }

    /** `borderBoxSize`, `contentBoxSize` and `contentRect` read the stored entry: they are
        `undefined` until an entry has arrived. */
    function BorderBoxSize(): (r: Option<nat>)
      reads this
      ensures r.Some? <==> entry.Some?
      ensures entry.Some? ==> r.value == entry.value.borderBoxSize
    {
      if entry.Some? then Some(entry.value.borderBoxSize) else None
    }

    function ContentBoxSize(): (r: Option<nat>)
      reads this
      ensures r.Some? <==> entry.Some?
      ensures entry.Some? ==> r.value == entry.value.contentBoxSize
    {
      if entry.Some? then Some(entry.value.contentBoxSize) else None
    }

    function ContentRect(): (r: Option<nat>)
      reads this
      ensures r.Some? <==> entry.Some?
      ensures entry.Some? ==> r.value == entry.value.contentRect
    {
      if entry.Some? then Some(entry.value.contentRect) else None
    }

    /** `observe()`: the element directive, invoked with this controller as its argument. */
    function Observe(): (d: DirectiveCall)
      ensures d.controller == this
    {
      DirectiveCall(this)
    }

    /** `onResize`: stores the entry and asks the host for one update. */
    method OnResize(e: Entry)
      modifies this, host
      ensures entry == Some(e)
      ensures host.updateRequests == old(host.updateRequests) + 1
    {
      entry := Some(e);
      host.RequestUpdate();
    }
  }

  /** A use of the resize directive in a template, with its argument. */
  datatype DirectiveCall = DirectiveCall(controller: ResizeController)

  /** The browser's `ResizeObserver`, as the set of elements it watches. */
  class Observer {
    var observed: set<ElementId>
    var calls: seq<ObserverCall>

    constructor ()
      ensures observed == {} && calls == []
    {
      observed := {};
      calls := [];
    }

    method Observe(t: ElementId)
      modifies this
      ensures observed == old(observed) + {t} && calls == old(calls) + [ObserveCall(t)]
    {
      observed := observed + {t};
      calls := calls + [ObserveCall(t)];
    }

    method Unobserve(t: ElementId)
      modifies this
      ensures observed == old(observed) - {t} && calls == old(calls) + [UnobserveCall(t)]
    {
      observed := observed - {t};
      calls := calls + [UnobserveCall(t)];
    }
  }

  // ---------------------------------------------------------------------------
  // The directive's state machine, on values
  // ---------------------------------------------------------------------------

  /** The directive's fields `_target`, `_controller` and `_observing`, with its observer's
      watched set and call log. */
  datatype DirectiveState = DirectiveState(
    target: Option<ElementId>, controller: Option<ResizeController>, observing: bool,
    observed: set<ElementId>, calls: seq<ObserverCall>)

  /** A freshly constructed directive. */
  const Initial := DirectiveState(None, None, false, {}, [])

  /** `update`: `_target ??= element; _controller ??= controller`, then observe the bound
      target unless already observing. */
  function UpdateStep(st: DirectiveState, element: ElementId, controller: ResizeController): DirectiveState {
    var t := if st.target.None? then Some(element) else st.target;
    var c := if st.controller.None? then Some(controller) else st.controller;
    if st.observing then st.(target := t, controller := c)
    else DirectiveState(t, c, true, st.observed + {t.value}, st.calls + [ObserveCall(t.value)])
  }

  /** `disconnected`: stop observing the target, if observing. */
  function DisconnectedStep(st: DirectiveState): DirectiveState
    requires st.observing ==> st.target.Some?
  {
    if st.observing then
      st.(observing := false, observed := st.observed - {st.target.value},
          calls := st.calls + [UnobserveCall(st.target.value)])
    else st
  }

  /** `reconnected` as written: when not observing, it calls `unobserve` on the target
      and then claims to be observing. */
  function ReconnectedStep(st: DirectiveState): DirectiveState
    requires !st.observing ==> st.target.Some?
  {
    if !st.observing then
      st.(observing := true, observed := st.observed - {st.target.value},
          calls := st.calls + [UnobserveCall(st.target.value)])
    else st
  }

  /** `reconnected` with the call the class promises: observe the target again. */
  function ReconnectedObservingStep(st: DirectiveState): DirectiveState
    requires !st.observing ==> st.target.Some?
  {
    if !st.observing then
      st.(observing := true, observed := st.observed + {st.target.value},
          calls := st.calls + [ObserveCall(st.target.value)])
    else st
  }

  /** `_observing` says whether the observer watches the bound target (and nothing else),
      and the target and controller are bound together. */
  predicate Tracks(st: DirectiveState) {
    && (st.target.Some? <==> st.controller.Some?)
    && (st.observing ==> st.target.Some? && st.observed == {st.target.value})
    && (!st.observing ==> st.observed == {})
  }

  lemma InitialTracks()
    ensures Tracks(Initial)
  {
  }

  /** The first `update` binds its element and controller; later ones never rebind. */
  lemma UpdateBindsOnce(st: DirectiveState, element: ElementId, controller: ResizeController)
    ensures var r := UpdateStep(st, element, controller);
      && r.target == (if st.target.Some? then st.target else Some(element))
      && r.controller == (if st.controller.Some? then st.controller else Some(controller))
      && r.observing
  {
  }

  /** A second `update`, with any element and controller, changes nothing: no new binding
      and no further `observe` call. */
  lemma UpdateIdempotent(st: DirectiveState, e1: ElementId, c1: ResizeController, e2: ElementId, c2: ResizeController)
    ensures UpdateStep(UpdateStep(st, e1, c1), e2, c2) == UpdateStep(st, e1, c1)
  {
  }

  /** `update` calls `observe` exactly when it was not observing, and only on the target. */
  lemma UpdateObservesOnce(st: DirectiveState, element: ElementId, controller: ResizeController)
    ensures var r := UpdateStep(st, element, controller);
      r.calls == st.calls + (if st.observing then [] else [ObserveCall(r.target.value)])
  {
  }

  lemma UpdateTracks(st: DirectiveState, element: ElementId, controller: ResizeController)
    requires Tracks(st)
    ensures Tracks(UpdateStep(st, element, controller))
  {
  }

  /** `disconnected` stops observing, calls `unobserve` only when it was observing, and a
      second call does nothing. */
  lemma DisconnectedIdempotent(st: DirectiveState)
    requires st.observing ==> st.target.Some?
    ensures var r := DisconnectedStep(st);
      && !r.observing && r.target == st.target && r.controller == st.controller
      && r.calls == st.calls + (if st.observing then [UnobserveCall(st.target.value)] else [])
      && DisconnectedStep(r) == r
  {
  }

  lemma DisconnectedTracks(st: DirectiveState)
    requires Tracks(st)
    ensures Tracks(DisconnectedStep(st))
  {
  }

  /** `reconnected` as written never rebinds and acts only when not observing, but leaves
      the directive claiming to observe a target its observer does not watch. */
  lemma ReconnectedLosesTarget(st: DirectiveState)
    requires Tracks(st) && !st.observing && st.target.Some?
    ensures var r := ReconnectedStep(st);
      && r.target == st.target && r.controller == st.controller
      && r.observing && st.target.value !in r.observed && !Tracks(r)
  {
  }

  /** Update, disconnect, reconnect: the directive believes it observes element 7, and no
      entry for it can arrive any more. */
  lemma ReconnectedCounterexample(c: ResizeController)
    ensures var st := DisconnectedStep(UpdateStep(Initial, 7, c));
      && Tracks(st) && !Tracks(ReconnectedStep(st))
      && ReconnectedStep(st).observing && ReconnectedStep(st).observed == {}
  {
    var st := DisconnectedStep(UpdateStep(Initial, 7, c));
    assert st.observed == {};
  }

  /** With `observe` in its place, `reconnected` keeps `_observing` truthful. */
  lemma ReconnectedObservingTracks(st: DirectiveState)
    requires Tracks(st) && (!st.observing ==> st.target.Some?)
    ensures Tracks(ReconnectedObservingStep(st))
    ensures ReconnectedObservingStep(st).target == st.target
    ensures !st.observing ==> ReconnectedObservingStep(st).calls == st.calls + [ObserveCall(st.target.value)]
  {
  }

  /** Disconnecting and reconnecting, with the intended `observe`, gives back the watched
      set and the flag. */
  lemma DisconnectReconnectRestores(st: DirectiveState)
    requires Tracks(st) && st.observing
    ensures var r := ReconnectedObservingStep(DisconnectedStep(st));
      r.observing == st.observing && r.observed == st.observed && r.target == st.target
  {
  }

  // ---------------------------------------------------------------------------
  // The observer callback's filter
  // ---------------------------------------------------------------------------

  /** The entries the observer callback hands on: those whose target is the bound one,
      in their order. */
  function Forwarded(entries: seq<Entry>, target: Option<ElementId>): seq<Entry> {
    if entries == [] then []
    else
      var last := entries[|entries| - 1];
      Forwarded(entries[..|entries| - 1], target) + (if Some(last.target) == target then [last] else [])
  }

  /** The entry the controller holds after being handed `f`, having held `prev`. */
  function LastEntry(prev: Option<Entry>, f: seq<Entry>): Option<Entry> {
    if f == [] then prev else Some(f[|f| - 1])
  }

  /** The callback forwards exactly the entries for the bound target: every forwarded entry
      is one of them, and every one of them is forwarded. */
  lemma {:induction false} ForwardedExactly(entries: seq<Entry>, target: Option<ElementId>)
    ensures forall e :: e in Forwarded(entries, target) <==> e in entries && Some(e.target) == target
  {
    if entries != [] {
      var init := entries[..|entries| - 1];
      ForwardedExactly(init, target);
      assert entries == init + [entries[|entries| - 1]];
    }
  }

  /** The filter keeps the order of the entries: a batch that arrives in two pieces is
      forwarded as the two forwarded pieces, one after the other. */
  lemma {:induction false} ForwardedConcat(a: seq<Entry>, b: seq<Entry>, target: Option<ElementId>)
    ensures Forwarded(a + b, target) == Forwarded(a, target) + Forwarded(b, target)
  {
    if b != [] {
      var init := b[..|b| - 1];
      ForwardedConcat(a, init, target);
      assert (a + b)[..|a + b| - 1] == a + init;
    } else {
      assert a + b == a;
    }
  }

  lemma ForwardedStep(entries: seq<Entry>, k: nat, target: Option<ElementId>)
    requires k < |entries|
    ensures Forwarded(entries[..k + 1], target) ==
      Forwarded(entries[..k], target) + (if Some(entries[k].target) == target then [entries[k]] else [])
  {
    assert entries[..k + 1][..k] == entries[..k];
  }

  /** `ResizeDirective`. */
  class ResizeDirective {
    const observer: Observer
    var controller: Option<ResizeController>
    var target: Option<ElementId>
    var observing: bool

    constructor ()
      ensures fresh(observer) && State() == Initial
    {
      observer := new Observer();
      controller := None;
      target := None;
      observing := false;
    }

    ghost function State(): DirectiveState
      reads this, observer
    {
      DirectiveState(target, controller, observing, observer.observed, observer.calls)
    }

    /** The objects the observer callback may change: the bound controller and its host. */
    function Receivers(): set<object>
      reads this
    {
      if controller.Some? then {controller.value, controller.value.host} else {}
    }

    /** `render`: the directive renders nothing itself. */
    function Render(controller: ResizeController): (r: DirectiveValue)
      ensures r == NoChange
    {
      NoChange
    }

    method Update(element: ElementId, call: DirectiveCall) returns (r: DirectiveValue)
      modifies this, observer
      ensures State() == UpdateStep(old(State()), element, call.controller)
      ensures r == NoChange
    {
      if target.None? {
        target := Some(element);
      }
      if controller.None? {
        controller := Some(call.controller);
      }
      if !observing {
        observer.Observe(target.value);
        observing := true;
      }
      r := NoChange;
    }

    method Disconnected()
      requires observing ==> target.Some?
      modifies this, observer
      ensures State() == DisconnectedStep(old(State()))
    {
      if observing {
        observer.Unobserve(target.value);
        observing := false;
      }
    }

    /** `reconnected` as written, with its `unobserve` call. */
    method Reconnected()
      requires !observing ==> target.Some?
      modifies this, observer
      ensures State() == ReconnectedStep(old(State()))
    {
      if !observing {
        observer.Unobserve(target.value);
        observing := true;
      }
    }

    /** `reconnected` as intended: observe the target again. */
    method ReconnectedObserving()
      requires !observing ==> target.Some?
      modifies this, observer
      ensures State() == ReconnectedObservingStep(old(State()))
    {
      if !observing {
        observer.Observe(target.value);
        observing := true;
      }
    }

    /** The observer's callback: hands each entry whose target is the bound element, in
        order, to the bound controller's `onResize`. */
    method Deliver(entries: seq<Entry>)
      modifies Receivers()
      ensures controller.Some? ==>
        var c, f := controller.value, Forwarded(entries, target);
        && c.entry == LastEntry(old(c.entry), f)
        && c.host.updateRequests == old(c.host.updateRequests) + |f|
    {
      for k := 0 to |entries|
        invariant controller.Some? ==>
          var c, f := controller.value, Forwarded(entries[..k], target);
          && c.entry == LastEntry(old(c.entry), f)
          && c.host.updateRequests == old(c.host.updateRequests) + |f|
      {
        ForwardedStep(entries, k, target);
        var entry := entries[k];
        if Some(entry.target) == target && controller.Some? {
          controller.value.OnResize(entry);
        }
      }
      assert entries[..|entries|] == entries;
    }
  }
}
