/**
 * The bridge that lets a lit reactive controller drive a React component:
 * `ReactControllerHost` keeps the controllers, fans the lifecycle phases out to
 * them, coalesces update requests into one scheduled "kick" of React state, and
 * hands out a completion signal that each `updated` phase resolves; `useController`
 * creates the host once and runs the phases on every render.
 *
 * A controller is an identity with the set of lifecycle hooks it defines and the
 * hooks in which it asks its host for an update. A completion promise is numbered
 * by its generation; `resolutions[g]` is the value promise `g` resolved with. A kick
 * is the number handed to React's state setter from a microtask; `kicks` lists the
 * kicks scheduled, oldest first.
 */
module ReactHost {
  import opened Wrappers

  datatype Hook = ConnectedHook | DisconnectedHook | WillUpdateHook | UpdateHook | UpdatedHook

  /** A reactive controller: the hooks it defines, and those of them that call the host's
      `requestUpdate`. */
  datatype Controller = Controller(id: nat, hooks: set<Hook>, requesting: set<Hook>)

  /** One hook invoked on one controller. */
  datatype HookCall = HookCall(controller: nat, hook: Hook)

  /** The host's fields: `_controllers`, `_updatePending`, `kickCount`, and the kicks,
      completion promises and hook calls so far. */
  datatype HostState = HostState(
    controllers: seq<Controller>, pending: bool, kickCount: int, kicks: seq<int>,
    generation: nat, resolutions: seq<bool>, calls: seq<HookCall>)

  /** A host just constructed with React's current `kickCount`. */
  function NewHost(kickCount: int): HostState {
    HostState([], true, kickCount, [], 0, [], [])
  }

  /** `requestUpdate`: only when no update is pending, mark one pending and schedule a
      kick with `kickCount + 1`. */
  function RequestUpdateStep(st: HostState): HostState {
    if st.pending then st
    else st.(pending := true, kicks := st.kicks + [st.kickCount + 1])
  }

  /** Hook `h` run on controller `c`, if `c` defines it, with its update request. */
  function CallHook(st: HostState, c: Controller, h: Hook): HostState {
    if h !in c.hooks then st
    else
      var st' := st.(calls := st.calls + [HookCall(c.id, h)]);
      if h in c.requesting then RequestUpdateStep(st') else st'
  }

  /** `cs.forEach((c) => c.h?.())`. */
  function FanOut(st: HostState, cs: seq<Controller>, h: Hook): HostState {
    if cs == [] then st
    else CallHook(FanOut(st, cs[..|cs| - 1], h), cs[|cs| - 1], h)
  }

  /** The hook calls a fan-out makes: each controller that defines `h`, in list order. */
  function HookCalls(cs: seq<Controller>, h: Hook): seq<HookCall> {
    if cs == [] then []
    else
      var c := cs[|cs| - 1];
      HookCalls(cs[..|cs| - 1], h) + (if h in c.hooks then [HookCall(c.id, h)] else [])
  }

  /** Some controller's hook `h` asks for an update. */
  predicate Requests(cs: seq<Controller>, h: Hook) {
    exists k :: 0 <= k < |cs| && h in cs[k].hooks && h in cs[k].requesting
  }

  /** `updated`: clear the pending flag, arm a fresh completion promise, run the `updated`
      hooks, then resolve the previous promise with the pending flag. */
  function UpdatedStep(st: HostState): HostState {
    var armed := st.(pending := false, generation := st.generation + 1);
    var hooked := FanOut(armed, armed.controllers, UpdatedHook);
    hooked.(resolutions := hooked.resolutions + [hooked.pending])
  }

  /** What `useController` does to the host on each render: mark an update pending, then
      run the `willUpdate` and `update` phases. */
  function RenderStep(st: HostState): HostState {
    var marked := st.(pending := true);
    var will := FanOut(marked, marked.controllers, WillUpdateHook);
    FanOut(will, will.controllers, UpdateHook)
  }

  /** The host `useController` creates on the first render: the created controller
      registered, then the `connected` phase. */
  function CreateStep(kickCount: int, c: Controller): HostState {
    var st := NewHost(kickCount).(controllers := [c]);
    FanOut(st, st.controllers, ConnectedHook)
  }

  /** Promise `g` has resolved, with this value. */
  function Resolution(st: HostState, g: nat): Option<bool> {
    if g < |st.resolutions| then Some(st.resolutions[g]) else None
  }

  /** Every promise before the current one has resolved, and the current one has not. */
  predicate Signals(st: HostState) {
    |st.resolutions| == st.generation
  }

  /** Every kick carries the `kickCount` the host holds, plus one. */
  predicate KicksCarry(st: HostState) {
    forall k :: 0 <= k < |st.kicks| ==> st.kicks[k] == st.kickCount + 1
  }

  // ---------------------------------------------------------------------------
  // Fan-out
  // ---------------------------------------------------------------------------

  /** A fan-out calls exactly the controllers that define the hook, in list order; it
      changes neither the controller list nor the promises; and it leaves an update
      pending, with one new kick, exactly when one was pending already or a hook asked. */
  lemma {:induction false} FanOutSpec(st: HostState, cs: seq<Controller>, h: Hook)
    ensures var r := FanOut(st, cs, h);
      && r.calls == st.calls + HookCalls(cs, h)
      && r.controllers == st.controllers && r.kickCount == st.kickCount
      && r.generation == st.generation && r.resolutions == st.resolutions
      && r.pending == (st.pending || Requests(cs, h))
      && r.kicks == st.kicks + (if !st.pending && Requests(cs, h) then [st.kickCount + 1] else [])
  {
    if cs != [] {
      var init, c := cs[..|cs| - 1], cs[|cs| - 1];
      FanOutSpec(st, init, h);
      RequestsSnoc(init, c, h);
    }
  }

  lemma RequestsSnoc(init: seq<Controller>, c: Controller, h: Hook)
    ensures Requests(init + [c], h) == (Requests(init, h) || (h in c.hooks && h in c.requesting))
  {
    var cs := init + [c];
    if Requests(init, h) {
      var k :| 0 <= k < |init| && h in init[k].hooks && h in init[k].requesting;
      assert cs[k] == init[k];
    }
    if Requests(cs, h) && !(h in c.hooks && h in c.requesting) {
      var k :| 0 <= k < |cs| && h in cs[k].hooks && h in cs[k].requesting;
      assert k < |init| && init[k] == cs[k];
    }
    assert cs[|init|] == c;
  }

  /** The calls of a fan-out over two lists, one after the other. */
  lemma {:induction false} HookCallsConcat(a: seq<Controller>, b: seq<Controller>, h: Hook)
    ensures HookCalls(a + b, h) == HookCalls(a, h) + HookCalls(b, h)
  {
    if b != [] {
      var init := b[..|b| - 1];
      HookCallsConcat(a, init, h);
      assert (a + b)[..|a + b| - 1] == a + init;
    } else {
      assert a + b == a;
    }
  }

  /** A fan-out calls hook `h` of controller `id` exactly when a controller with that id in
      the list defines `h`. */
  lemma {:induction false} HookCallsExactly(cs: seq<Controller>, h: Hook, id: nat, g: Hook)
    ensures HookCall(id, g) in HookCalls(cs, h) <==>
      g == h && exists k :: 0 <= k < |cs| && cs[k].id == id && h in cs[k].hooks
  {
    if cs != [] {
      var init, c := cs[..|cs| - 1], cs[|cs| - 1];
      HookCallsExactly(init, h, id, g);
      if HookCall(id, g) in HookCalls(init, h) {
        var k :| 0 <= k < |init| && init[k].id == id && h in init[k].hooks;
        assert cs[k] == init[k];
      }
      if g == h && exists k :: 0 <= k < |cs| && cs[k].id == id && h in cs[k].hooks {
        var k :| 0 <= k < |cs| && cs[k].id == id && h in cs[k].hooks;
        if k < |init| {
          assert init[k] == cs[k];
        }
      }
    }
  }

  /** `addController` appends without looking for duplicates: the newest controller is
      called last, and a controller added twice is called twice. */
  lemma AddedLast(cs: seq<Controller>, c: Controller, h: Hook)
    ensures HookCalls(cs + [c], h) == HookCalls(cs, h) + (if h in c.hooks then [HookCall(c.id, h)] else [])
    ensures h in c.hooks ==> HookCalls(cs + [c] + [c], h) == HookCalls(cs, h) + [HookCall(c.id, h), HookCall(c.id, h)]
  {
    assert (cs + [c])[..|cs + [c]| - 1] == cs;
    assert (cs + [c] + [c])[..|cs + [c] + [c]| - 1] == cs + [c];
  }

  // ---------------------------------------------------------------------------
  // Coalescing update requests
  // ---------------------------------------------------------------------------

  /** A request while an update is pending does nothing; otherwise it schedules one kick
      carrying `kickCount + 1`; and a second request right after the first does nothing. */
  lemma RequestUpdateCoalesces(st: HostState)
    ensures st.pending ==> RequestUpdateStep(st) == st
    ensures !st.pending ==> RequestUpdateStep(st).kicks == st.kicks + [st.kickCount + 1]
    ensures RequestUpdateStep(st).pending
    ensures RequestUpdateStep(RequestUpdateStep(st)) == RequestUpdateStep(st)
  {
  }

  /** `n` requests in a row.  */
  function Requested(st: HostState, n: nat): HostState {
    if n == 0 then st else RequestUpdateStep(Requested(st, n - 1))
  }

  /** Any number of requests before the next `updated` schedule at most one kick. */
  lemma {:induction false} RequestsScheduleOneKick(st: HostState, n: nat)
    ensures Requested(st, n).kicks == st.kicks + (if !st.pending && n > 0 then [st.kickCount + 1] else [])
    ensures n > 0 ==> Requested(st, n).pending
  {
    if n > 0 {
      RequestsScheduleOneKick(st, n - 1);
    }
  }

  /** A render leaves an update pending and schedules no kick, even when its hooks ask for
      updates: a request before `updated` is a no-op. */
  lemma RenderSchedulesNothing(st: HostState)
    ensures var r := RenderStep(st);
      && r.pending && r.kicks == st.kicks && r.controllers == st.controllers
      && r.kickCount == st.kickCount && r.generation == st.generation && r.resolutions == st.resolutions
      && r.calls == st.calls + HookCalls(st.controllers, WillUpdateHook) + HookCalls(st.controllers, UpdateHook)
  {
    var marked := st.(pending := true);
    FanOutSpec(marked, marked.controllers, WillUpdateHook);
    var will := FanOut(marked, marked.controllers, WillUpdateHook);
    FanOutSpec(will, will.controllers, UpdateHook);
  }

  /** `updated` arms a fresh promise and resolves the previous one with whether an update
      was requested during its hooks, in which case exactly one follow-up kick is
      scheduled. */
  lemma UpdatedSpec(st: HostState)
    ensures var r, asked := UpdatedStep(st), Requests(st.controllers, UpdatedHook);
      && r.generation == st.generation + 1 && r.resolutions == st.resolutions + [asked]
      && r.pending == asked
      && r.kicks == st.kicks + (if asked then [st.kickCount + 1] else [])
      && r.calls == st.calls + HookCalls(st.controllers, UpdatedHook)
      && r.controllers == st.controllers && r.kickCount == st.kickCount
  {
    var armed := st.(pending := false, generation := st.generation + 1);
    FanOutSpec(armed, armed.controllers, UpdatedHook);
  }

  /** Each step keeps exactly the earlier promises resolved. */
  lemma StepsKeepSignals(st: HostState, c: Controller, h: Hook)
    requires Signals(st)
    ensures Signals(RequestUpdateStep(st)) && Signals(FanOut(st, st.controllers, h))
    ensures Signals(UpdatedStep(st)) && Signals(RenderStep(st))
    ensures Signals(st.(controllers := st.controllers + [c]))
    ensures Resolution(UpdatedStep(st), st.generation) == Some(Requests(st.controllers, UpdatedHook))
    ensures Resolution(UpdatedStep(st), st.generation + 1) == None
  {
    FanOutSpec(st, st.controllers, h);
    UpdatedSpec(st);
    RenderSchedulesNothing(st);
  }

  /** A created host has run `connected` on its controller and has nothing scheduled. */
  lemma CreateSpec(kickCount: int, c: Controller)
    ensures var r := CreateStep(kickCount, c);
      && r.controllers == [c] && r.pending && r.kicks == [] && r.kickCount == kickCount
      && r.generation == 0 && r.resolutions == []
      && r.calls == (if ConnectedHook in c.hooks then [HookCall(c.id, ConnectedHook)] else [])
  {
    var st := NewHost(kickCount).(controllers := [c]);
    FanOutSpec(st, st.controllers, ConnectedHook);
    assert [c][..0] == [];
  }

  // ---------------------------------------------------------------------------
  // The kick React receives
  // ---------------------------------------------------------------------------

  /** React applies a kick as a state update and re-renders only when the new state differs
      from the current one. */
  function KickRerenders(state: int, kick: int): bool {
    kick != state
  }

  /** Every step keeps each scheduled kick at the host's `kickCount + 1`. */
  lemma StepsKeepKicks(st: HostState, h: Hook)
    requires KicksCarry(st)
    ensures KicksCarry(RequestUpdateStep(st)) && KicksCarry(FanOut(st, st.controllers, h))
    ensures KicksCarry(UpdatedStep(st)) && KicksCarry(RenderStep(st))
  {
    KicksGrow(st, RequestUpdateStep(st));
    FanOutSpec(st, st.controllers, h);
    KicksGrow(st, FanOut(st, st.controllers, h));
    UpdatedSpec(st);
    KicksGrow(st, UpdatedStep(st));
    RenderSchedulesNothing(st);
  }

  lemma KicksGrow(st: HostState, r: HostState)
    requires KicksCarry(st) && r.kickCount == st.kickCount
    requires r.kicks == st.kicks || r.kicks == st.kicks + [st.kickCount + 1]
    ensures KicksCarry(r)
  {
    forall k | 0 <= k < |r.kicks| ensures r.kicks[k] == r.kickCount + 1 {
      if k < |st.kicks| {
        assert r.kicks[k] == st.kicks[k];
      }
    }
  }

  /** As written, `kickCount` is the React state at the first render and never changes:
      after the first kick has moved the state from 0 to 1, the next render-update-request
      cycle schedules the kick 1 again, which React ignores. */
  lemma FixedKickIgnored(c: Controller)
    requires UpdatedHook !in c.hooks
    ensures var created := CreateStep(0, c);
      var first := RequestUpdateStep(UpdatedStep(RenderStep(created)));
      && first.kicks == [1] && KickRerenders(0, 1)
      && var second := RequestUpdateStep(UpdatedStep(RenderStep(first)));
      && second.kicks == [1, 1] && !KickRerenders(1, second.kicks[1])
  {
    CreateSpec(0, c);
    var created := CreateStep(0, c);
    RenderSchedulesNothing(created);
    UpdatedSpec(RenderStep(created));
    var first := RequestUpdateStep(UpdatedStep(RenderStep(created)));
    RenderSchedulesNothing(first);
    UpdatedSpec(RenderStep(first));
  }

  /** With `kickCount` refreshed from React's state on each render, the one kick that a
      cycle schedules carries that state plus one, so React always re-renders. */
  lemma RefreshedKickRerenders(st: HostState, state: int)
    ensures var r := RequestUpdateStep(UpdatedStep(RenderStep(st.(kickCount := state))));
      && r.kicks == st.kicks + [state + 1] && r.pending
      && KickRerenders(state, state + 1)
  {
    var s := st.(kickCount := state);
    RenderSchedulesNothing(s);
    UpdatedSpec(RenderStep(s));
  }

  // ---------------------------------------------------------------------------
  // The host object
  // ---------------------------------------------------------------------------

  /** A completion promise, by generation. */
  datatype Signal = Signal(generation: nat)

  /** `ReactControllerHost`. */
  class ReactControllerHost {
    var primary: Option<Controller>
    var controllers: seq<Controller>
    var pending: bool
    var kickCount: int
    var kicks: seq<int>
    var generation: nat
    var resolutions: seq<bool>
    var calls: seq<HookCall>

    ghost function State(): HostState
      reads this
    {
      HostState(controllers, pending, kickCount, kicks, generation, resolutions, calls)
    }

    constructor (kickCount: int)
      ensures State() == NewHost(kickCount) && primary == None
    {
      primary := None;
      controllers := [];
      pending := true;
      this.kickCount := kickCount;
      kicks := [];
      generation := 0;
      resolutions := [];
      calls := [];
    }

    method AddController(c: Controller)
      modifies this
      ensures State() == old(State()).(controllers := old(controllers) + [c])
      ensures primary == old(primary)
    {
      controllers := controllers + [c];
    }

    method RequestUpdate()
      modifies this
      ensures State() == RequestUpdateStep(old(State())) && primary == old(primary)
    {
      if !pending {
        pending := true;
        kicks := kicks + [kickCount + 1];
      }
    }

    /** `updateComplete`: the current promise, which has not resolved yet. */
    function UpdateComplete(): (p: Signal)
      reads this
      requires Signals(State())
      ensures p.generation == generation && Resolution(State(), p.generation) == None
    {
      Signal(generation)
    }

    /** The `forEach` over the controllers that each phase method performs. */
    method Notify(h: Hook)
      modifies this
      ensures State() == FanOut(old(State()), old(controllers), h) && primary == old(primary)
    {
      ghost var st0 := State();
      for k := 0 to |controllers|
        invariant controllers == st0.controllers && primary == old(primary)
        invariant State() == FanOut(st0, controllers[..k], h)
      {
        var c := controllers[k];
        assert controllers[..k + 1][..k] == controllers[..k];
        if h in c.hooks {
          calls := calls + [HookCall(c.id, h)];
          if h in c.requesting {
            RequestUpdate();
          }
        }
      }
      assert controllers[..|controllers|] == controllers;
    }

    method Connected()
      modifies this
      ensures State() == FanOut(old(State()), old(controllers), ConnectedHook) && primary == old(primary)
    {
      Notify(ConnectedHook);
    }

    method Disconnected()
      modifies this
      ensures State() == FanOut(old(State()), old(controllers), DisconnectedHook) && primary == old(primary)
    {
      Notify(DisconnectedHook);
    }

    method WillUpdate()
      modifies this
      ensures State() == FanOut(old(State()), old(controllers), WillUpdateHook) && primary == old(primary)
    {
      Notify(WillUpdateHook);
    }

    method Update()
      modifies this
      ensures State() == FanOut(old(State()), old(controllers), UpdateHook) && primary == old(primary)
    {
      Notify(UpdateHook);
    }

    method Updated()
      modifies this
      ensures State() == UpdatedStep(old(State())) && primary == old(primary)
    {
      pending := false;
      generation := generation + 1;
      Notify(UpdatedHook);
      resolutions := resolutions + [pending];
    }
  }

  // ---------------------------------------------------------------------------
  // useController
  // ---------------------------------------------------------------------------

  /** The React component that calls `useController`: its `kickCount` state and the host
      its other `useState` keeps. */
  class Component {
    var kickState: int
    var host: Option<ReactControllerHost>

    constructor ()
      ensures kickState == 0 && host == None
    {
      kickState := 0;
      host := None;
    }

    /** The objects a render may change. */
    function Hosts(): set<object>
      reads this
    {
      if host.Some? then {host.value} else {}
    }

    /** One render's call of `useController`. On the first render it creates the host with
        the current `kickCount` and the controller `created` (which registers itself with
        `addController`) and runs `connected`; on every render it marks an update pending
        and runs `willUpdate` and `update`; it returns the primary controller. */
    method UseController(created: Controller) returns (primary: Controller)
      requires host.Some? ==> host.value.primary.Some?
      modifies this, Hosts()
      ensures host.Some? && host.value.primary.Some? && primary == host.value.primary.value
      ensures kickState == old(kickState)
      ensures old(host).Some? ==> host == old(host) && primary == old(host.value.primary.value)
      ensures old(host).Some? ==> host.value.State() == RenderStep(old(host.value.State()))
      ensures old(host).None? ==> fresh(host.value) && primary == created
      ensures old(host).None? ==> host.value.State() == RenderStep(CreateStep(kickState, created))
    {
      if host.None? {
        var h := new ReactControllerHost(kickState);
        h.AddController(created);
        h.primary := Some(created);
        h.Connected();
        host := Some(h);
      }
      var h := host.value;
      h.pending := true;
      h.WillUpdate();
      h.Update();
      primary := h.primary.value;
    }

    /** The layout effect without dependencies: `updated` after every render. */
    method Commit()
      requires host.Some?
      modifies Hosts()
      ensures host.value.State() == UpdatedStep(old(host.value.State()))
    {
      host.value.Updated();
    }

    /** The layout effect with no dependencies' cleanup: `disconnected` on unmount. */
    method Unmount()
      requires host.Some?
      modifies Hosts()
      ensures host.value.State() == FanOut(old(host.value.State()), old(host.value.controllers), DisconnectedHook)
    {
      host.value.Disconnected();
    }

    /** React running a scheduled kick: the state setter, which re-renders only on a new
        value. */
    method ApplyKick(kick: int) returns (rerender: bool)
      modifies this
      ensures rerender == KickRerenders(old(kickState), kick)
      ensures kickState == kick && host == old(host)
    {
      rerender := kick != kickState;
      kickState := kick;
    }

    /** `useController` as intended: also refreshes the host's `kickCount` from the
        current state, so that the next kick moves the state. */
    method UseControllerRefreshing(created: Controller) returns (primary: Controller)
      requires host.Some? ==> host.value.primary.Some?
      modifies this, Hosts()
      ensures host.Some? && host.value.primary.Some? && primary == host.value.primary.value
      ensures kickState == old(kickState)
      ensures old(host).Some? ==>
        host == old(host) && host.value.State() == RenderStep(old(host.value.State()).(kickCount := kickState))
      ensures old(host).None? ==> fresh(host.value) && primary == created
      ensures old(host).None? ==> host.value.State() == RenderStep(CreateStep(kickState, created))
    {
      if host.None? {
        var h := new ReactControllerHost(kickState);
        h.AddController(created);
        h.primary := Some(created);
        h.Connected();
        host := Some(h);
      }
      var h := host.value;
      h.kickCount := kickState;
      h.pending := true;
      h.WillUpdate();
      h.Update();
      primary := h.primary.value;
    }
  }
}
