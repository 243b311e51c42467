/**
 * LitElement's hydration support: a patch of `LitElement` that lets an element
 * whose shadow root was rendered on the server adopt that DOM on its first update
 * instead of rendering it again, and that holds back the element's updates while
 * it carries the `defer-hydration` attribute.
 *
 * An element is its flags (`shadowRoot` present, `defer-hydration` present,
 * `_needsHydration`, `hasUpdated`) and its queue of hydration callbacks; what the
 * patch calls but does not define (`enableUpdating`, the base methods, lit-html's
 * `render` and `hydrate`, the element's `render()`, the queued callbacks) is
 * recorded as events in a trace.
 */
module Hydration {
  import opened Wrappers

  const DeferHydration := "defer-hydration"

  /** A call the patched methods make into code they do not define. */
  datatype Event =
    | EnableUpdating
    | BaseAttributeChanged(name: string, oldValue: Option<string>, value: Option<string>)
    | BaseCreateRenderRoot
    | ElementRender
    | BaseUpdate
    | Hydrate
    | RenderTemplate
    | HydrationCallback(id: nat)

  /** What `createRenderRoot` returns: the existing shadow root or the base's root. */
  datatype RenderRoot = ExistingShadowRoot | BaseRenderRoot

  /** The patched `observedAttributes`: the base list with `defer-hydration` after it. */
  function ObservedAttributes(base: seq<string>): (r: seq<string>)
    ensures |r| == |base| + 1 && r[..|base|] == base && r[|base|] == DeferHydration
  {
    base + [DeferHydration]
  }

  /** The call the patched `attributeChangedCallback` makes: `enableUpdating` when
      `defer-hydration` is removed, and the base callback for every other change. */
  function AttributeChangedEvent(name: string, oldValue: Option<string>, value: Option<string>): (e: Event)
    ensures e == EnableUpdating <==> name == DeferHydration && value.None?
    ensures e != EnableUpdating ==> e == BaseAttributeChanged(name, oldValue, value)
  {
    if name == DeferHydration && value.None? then EnableUpdating
    else BaseAttributeChanged(name, oldValue, value)
  }

  /** The events the queued hydration callbacks produce when run in turn. */
  function CallbackEvents(cbs: seq<nat>): seq<Event> {
    if cbs == [] then []
    else CallbackEvents(cbs[..|cbs| - 1]) + [HydrationCallback(cbs[|cbs| - 1])]
  }

  /** Each queued callback runs exactly once, in queue order. */
  lemma {:induction false} CallbackEventsInOrder(cbs: seq<nat>)
    ensures |CallbackEvents(cbs)| == |cbs|
    ensures forall k :: 0 <= k < |cbs| ==> CallbackEvents(cbs)[k] == HydrationCallback(cbs[k])
  {
    if cbs != [] {
      var init := cbs[..|cbs| - 1];
      CallbackEventsInOrder(init);
      forall k | 0 <= k < |cbs| ensures CallbackEvents(cbs)[k] == HydrationCallback(cbs[k]) {
        if k < |init| {
          assert cbs[k] == init[k];
        }
      }
    }
  }

  // ---------------------------------------------------------------------------
  // The patched element on values
  // ---------------------------------------------------------------------------

  /** The element's flags, its callback queue (`None` for `undefined`) and the trace. */
  datatype ElementState = ElementState(
    hasShadowRoot: bool, deferHydration: bool, needsHydration: bool, hasUpdated: bool,
    callbacks: Option<seq<nat>>, trace: seq<Event>)

  /** The patched `connectedCallback` as written: a shadow root means hydration is needed,
      and updating is enabled unless `defer-hydration` is present. */
  function ConnectedStep(st: ElementState): ElementState {
    st.(needsHydration := st.needsHydration || st.hasShadowRoot,
        trace := st.trace + (if st.deferHydration then [] else [EnableUpdating]))
  }

  /** `connectedCallback` as evidently intended: only a shadow root that the element has
      not yet updated into calls for hydration. */
  function ConnectedIntendedStep(st: ElementState): ElementState {
    st.(needsHydration := st.needsHydration || (st.hasShadowRoot && !st.hasUpdated),
        trace := st.trace + (if st.deferHydration then [] else [EnableUpdating]))
  }

  /** The patched `attributeChangedCallback`, with the attribute itself changed. */
  function AttributeChangedStep(st: ElementState, name: string, oldValue: Option<string>, value: Option<string>): ElementState {
    st.(deferHydration := if name == DeferHydration then value.Some? else st.deferHydration,
        trace := st.trace + [AttributeChangedEvent(name, oldValue, value)])
  }

  /** The patched `createRenderRoot`; the base one attaches a shadow root. */
  function CreateRenderRootStep(st: ElementState): (ElementState, RenderRoot) {
    if st.needsHydration then (st, ExistingShadowRoot)
    else (st.(hasShadowRoot := true, trace := st.trace + [BaseCreateRenderRoot]), BaseRenderRoot)
  }

  /** The patched `update`, followed by the base's marking of the element as updated. */
  function UpdateStep(st: ElementState): ElementState {
    var t := st.trace + [ElementRender, BaseUpdate];
    if st.needsHydration then
      var flushed := if st.callbacks.Some? then CallbackEvents(st.callbacks.value) else [];
      st.(needsHydration := false, hasUpdated := true, callbacks := None,
          trace := t + [Hydrate] + flushed)
    else st.(hasUpdated := true, trace := t + [RenderTemplate])
  }

  /** Hydration is due only for a shadow root the element has not updated into yet. */
  predicate Fresh(st: ElementState) {
    st.needsHydration ==> st.hasShadowRoot && !st.hasUpdated
  }

  /** `connectedCallback` marks hydration needed when there is a shadow root and never
      clears the mark, and calls `enableUpdating` exactly when `defer-hydration` is absent. */
  lemma ConnectedSpec(st: ElementState)
    ensures var r := ConnectedStep(st);
      && (st.hasShadowRoot ==> r.needsHydration)
      && (st.needsHydration ==> r.needsHydration)
      && (r.needsHydration ==> st.needsHydration || st.hasShadowRoot)
      && (EnableUpdating in r.trace[|st.trace|..] <==> !st.deferHydration)
      && r.trace[..|st.trace|] == st.trace
  {
    var r := ConnectedStep(st);
    assert r.trace[|st.trace|..] == (if st.deferHydration then [] else [EnableUpdating]);
  }

  /** `attributeChangedCallback` either enables updating or forwards to the base, never
      both. */
  lemma AttributeChangedSpec(st: ElementState, name: string, oldValue: Option<string>, value: Option<string>)
    ensures var r := AttributeChangedStep(st, name, oldValue, value);
      && r.trace == st.trace + [if name == DeferHydration && value.None? then EnableUpdating
                                else BaseAttributeChanged(name, oldValue, value)]
      && r.needsHydration == st.needsHydration
  {
  }

  /** `createRenderRoot` reuses the shadow root exactly when hydration is needed, and only
      otherwise calls the base. */
  lemma CreateRenderRootSpec(st: ElementState)
    ensures var (r, root) := CreateRenderRootStep(st);
      && (root == ExistingShadowRoot <==> st.needsHydration)
      && (BaseCreateRenderRoot in r.trace[|st.trace|..] <==> !st.needsHydration)
      && r.needsHydration == st.needsHydration
  {
    var (r, root) := CreateRenderRootStep(st);
    assert r.trace[|st.trace|..] == (if st.needsHydration then [] else [BaseCreateRenderRoot]);
  }

  /** An update calls the element's `render` and the base `update` first; it hydrates,
      then runs every queued callback once in order and drops the queue, exactly when
      hydration is needed; otherwise it renders. */
  lemma UpdateSpec(st: ElementState)
    ensures var r := UpdateStep(st);
      && !r.needsHydration && r.hasUpdated
      && (st.needsHydration ==>
            r.callbacks == None
            && r.trace == st.trace + [ElementRender, BaseUpdate, Hydrate]
                 + (if st.callbacks.Some? then CallbackEvents(st.callbacks.value) else []))
      && (!st.needsHydration ==>
            r.callbacks == st.callbacks && r.trace == st.trace + [ElementRender, BaseUpdate, RenderTemplate])
  {
  }

  /** Two updates in a row hydrate at most once: the second renders and runs no callback. */
  lemma SecondUpdateRenders(st: ElementState)
    ensures var r := UpdateStep(st);
      UpdateStep(r).trace == r.trace + [ElementRender, BaseUpdate, RenderTemplate]
  {
  }

  /** With the intended `connectedCallback`, every step keeps hydration fresh. */
  lemma IntendedStepsKeepFresh(st: ElementState, name: string, oldValue: Option<string>, value: Option<string>)
    requires Fresh(st)
    ensures Fresh(ConnectedIntendedStep(st)) && Fresh(UpdateStep(st))
    ensures Fresh(CreateRenderRootStep(st).0) && Fresh(AttributeChangedStep(st, name, oldValue, value))
  {
  }

  /** Hence an element that has updated once never hydrates again under the intended
      steps: an update from a fresh, already updated state renders. */
  lemma UpdatedNeverHydrates(st: ElementState)
    requires Fresh(st) && st.hasUpdated
    ensures Hydrate !in UpdateStep(st).trace[|st.trace|..]
  {
    assert UpdateStep(st).trace[|st.trace|..] == [ElementRender, BaseUpdate, RenderTemplate];
  }

  /** A client-rendered element: no shadow root at first connection, so it renders and
      the base attaches a shadow root; moved in the document, it connects again. */
  function Reconnected(st: ElementState): ElementState {
    var connected := ConnectedStep(st);
    var rooted := CreateRenderRootStep(connected).0;
    ConnectedStep(UpdateStep(rooted))
  }

  /** As written, the second connection marks hydration needed again, so the next update
      hydrates the shadow root the element rendered itself. */
  lemma ReconnectRehydrates()
    ensures var st := ElementState(false, false, false, false, None, []);
      var again := Reconnected(st);
      && again.needsHydration && !Fresh(again)
      && Hydrate !in again.trace && Hydrate in UpdateStep(again).trace
  {
    var st := ElementState(false, false, false, false, None, []);
    var again := Reconnected(st);
    assert again.trace == [EnableUpdating, BaseCreateRenderRoot, ElementRender, BaseUpdate, RenderTemplate, EnableUpdating];
    assert UpdateStep(again).trace[|again.trace| + 2] == Hydrate;
  }

  /** With the intended `connectedCallback` the same sequence needs no hydration. */
  lemma ReconnectIntendedRenders()
    ensures var st := ElementState(false, false, false, false, None, []);
      var connected := ConnectedIntendedStep(st);
      var rooted := CreateRenderRootStep(connected).0;
      var again := ConnectedIntendedStep(UpdateStep(rooted));
      && !again.needsHydration && Fresh(again)
      && UpdateStep(again).trace == again.trace + [ElementRender, BaseUpdate, RenderTemplate]
  {
  }

  // ---------------------------------------------------------------------------
  // The patched element
  // ---------------------------------------------------------------------------

  class PatchedElement {
    var hasShadowRoot: bool
    var deferHydration: bool
    var needsHydration: bool
    var hasUpdated: bool
    var callbacks: Option<seq<nat>>
    var trace: seq<Event>

    ghost function State(): ElementState
      reads this
    {
      ElementState(hasShadowRoot, deferHydration, needsHydration, hasUpdated, callbacks, trace)
    }

    /** An element as parsed: with or without a server-rendered shadow root and the
        `defer-hydration` attribute, and the callbacks its children queued. */
    constructor (shadowRoot: bool, defer: bool, queued: Option<seq<nat>>)
      ensures State() == ElementState(shadowRoot, defer, false, false, queued, [])
    {
      hasShadowRoot := shadowRoot;
      deferHydration := defer;
      needsHydration := false;
      hasUpdated := false;
      callbacks := queued;
      trace := [];
    }

    method AttributeChangedCallback(name: string, oldValue: Option<string>, value: Option<string>)
      modifies this
      ensures State() == AttributeChangedStep(old(State()), name, oldValue, value)
    {
      if name == DeferHydration {
        deferHydration := value.Some?;
      }
      if name == DeferHydration && value.None? {
        trace := trace + [EnableUpdating];
      } else {
        trace := trace + [BaseAttributeChanged(name, oldValue, value)];
      }
    }

    method ConnectedCallback()
      modifies this
      ensures State() == ConnectedStep(old(State()))
    {
      if hasShadowRoot {
        needsHydration := true;
      }
      if !deferHydration {
        trace := trace + [EnableUpdating];
      }
    }

    /** `connectedCallback` with the `hasUpdated` test it evidently meant to make. */
    method ConnectedCallbackIntended()
      modifies this
      ensures State() == ConnectedIntendedStep(old(State()))
    {
      if hasShadowRoot && !hasUpdated {
        needsHydration := true;
      }
      if !deferHydration {
        trace := trace + [EnableUpdating];
      }
    }

    method CreateRenderRoot() returns (root: RenderRoot)
      modifies this
      ensures (State(), root) == CreateRenderRootStep(old(State()))
    {
      if needsHydration {
        root := ExistingShadowRoot;
      } else {
        trace := trace + [BaseCreateRenderRoot];
        hasShadowRoot := true;
        root := BaseRenderRoot;
      }
    }

    method Update()
      modifies this
      ensures State() == UpdateStep(old(State()))
    {
      trace := trace + [ElementRender, BaseUpdate];
      if needsHydration {
        needsHydration := false;
        trace := trace + [Hydrate];
        if callbacks.Some? {
          FlushCallbacks(callbacks.value);
          callbacks := None;
        }
      } else {
        trace := trace + [RenderTemplate];
      }
      hasUpdated := true;
    }

    /** `forEach((cb) => cb())` over the hydration queue. */
    method FlushCallbacks(cbs: seq<nat>)
      modifies this
      ensures trace == old(trace) + CallbackEvents(cbs)
      ensures hasShadowRoot == old(hasShadowRoot) && deferHydration == old(deferHydration)
      ensures needsHydration == old(needsHydration) && hasUpdated == old(hasUpdated)
      ensures callbacks == old(callbacks)
    {
      for k := 0 to |cbs|
        invariant trace == old(trace) + CallbackEvents(cbs[..k])
        invariant hasShadowRoot == old(hasShadowRoot) && deferHydration == old(deferHydration)
        invariant needsHydration == old(needsHydration) && hasUpdated == old(hasUpdated)
        invariant callbacks == old(callbacks)
      {
        assert cbs[..k + 1][..k] == cbs[..k];
        trace := trace + [HydrationCallback(cbs[k])];
      }
      assert cbs[..|cbs|] == cbs;
    }
  }
}
