/** The double-buffered render loop of the web front end
    (web/src/utils.rs): `RenderState::render`, `Renderer::attach`, `render`
    and `schedule_render`, the `ActualHelper` that registers event callbacks
    during a pass, and the dispatch those callbacks perform.

    Raw memory is replaced by the arena tokens of `Arenas`; the differ by
    the log of calls it receives; the host (animation frames, DOM events)
    by the `HostEvent` steps at the end of the module. */
module Renderer {
  import opened Wrappers
  import opened Vdom
  import opened Arenas
  import opened Shared

  /** Recursion budget handed to the differ on every pass. */
  const DiffDepth: nat := 20

  /** The arenas `attach` creates: `bump` first, then `bump_spare`. */
  const FirstBump: ArenaId := 0
  const FirstSpare: ArenaId := 1

  /** Generations of both arenas right after they are created. */
  const InitialGens: Gens := map[FirstBump := 0, FirstSpare := 0]

  /** The element the renderer is attached to; `content` stands for what
      `load_element` reads out of it. */
  datatype Container = Container(id: nat, content: Node)

  datatype DiffCall = DiffCall(before: seq<Tree>, after: seq<Tree>, depth: nat)

  /** The `DomDiffer` bound to the container. Its algorithm is not part of
      this model: it is represented by the calls it receives. */
  datatype Differ = Differ(container: nat, calls: seq<DiffCall>)

  predicate LiveInEither(ts: seq<Tree>, a: Arena, b: Arena) {
    forall i :: 0 <= i < |ts| ==> LiveIn(ts[i].at, a) || LiveIn(ts[i].at, b)
  }

  /** `DomDiffer::update_child_nodes`: reads both trees, so both must still
      be backed by their arenas. */
  function UpdateChildNodes(d: Differ, before: seq<Tree>, after: seq<Tree>, depth: nat, a: Arena, b: Arena): (r: Differ)
    requires LiveInEither(before, a, b) && LiveInEither(after, a, b)
    ensures r.container == d.container
    ensures r.calls == d.calls + [DiffCall(before, after, depth)]
  {
    Differ(d.container, d.calls + [DiffCall(before, after, depth)])
  }

  /** A `CallbackRegistration`: the `CallbackReceiver` allocated for it and
      the handler it runs. Every receiver points back at the one renderer. */
  datatype Registration = Registration(receiver: Token, callback: Handler)

  /** `RenderState`. */
  datatype RenderState = RenderState(
    bumpSpare: Arena,
    bump: Arena,
    previous: seq<Tree>,
    differ: Differ,
    trace: seq<Event>)

  /** The state between passes, as the field comments promise: `previous` is
      one tree allocated in `bump`, and `bump_spare` is empty. */
  predicate AtRest(st: RenderState) {
    && st.bump.id != st.bumpSpare.id
    && |st.previous| == 1
    && LiveIn(st.previous[0].at, st.bump)
    && st.bumpSpare.Empty()
  }

  /** The current generation of each of the two arenas. */
  function GensOf(st: RenderState): Gens {
    map[st.bump.id := st.bump.generation, st.bumpSpare.id := st.bumpSpare.generation]
  }

  /** `ActualHelper`: the arena the pass builds in, the renderer's
      registration list, and the arena events the helper caused. */
  datatype ActualHelper = ActualHelper(bump: Arena, registrations: seq<Registration>, events: seq<Event>)

  /** `ActualHelper::event_binding`: allocates a receiver in the pass's
      arena, appends exactly one registration for it, and returns a
      one-element binding slice (also allocated there) carrying the given
      name and options. */
  function ActualEventBinding(h: ActualHelper, name: string, options: EventBindingOptions, callback: Handler): (r: (ActualHelper, seq<EventBinding>))
    ensures r.0.bump.id == h.bump.id && r.0.bump.generation == h.bump.generation
    ensures |r.0.registrations| == |h.registrations| + 1
    ensures r.0.registrations[..|h.registrations|] == h.registrations
    ensures r.0.registrations[|h.registrations|].callback == callback
    ensures LiveIn(r.0.registrations[|h.registrations|].receiver, r.0.bump)
    ensures r.1 == [EventBinding(name, options, |h.registrations|)]
    ensures |r.0.events| > |h.events| && r.0.events[..|h.events|] == h.events
    ensures forall i :: |h.events| <= i < |r.0.events| ==> r.0.events[i].Allocated? && LiveIn(r.0.events[i].at, r.0.bump)
  {
    var (bump1, receiver) := Alloc(h.bump);
    var (bump2, slice) := Alloc(bump1);
    var registration := Registration(receiver, callback);
    var helper := ActualHelper(bump2, h.registrations + [registration], h.events + [Allocated(receiver), Allocated(slice)]);
    (helper, [EventBinding(name, options, |h.registrations|)])
  }

  /** Every event is an allocation of a token live in `a`. */
  predicate AllocationsIn(events: seq<Event>, a: Arena) {
    forall i :: 0 <= i < |events| ==> events[i].Allocated? && LiveIn(events[i].at, a)
  }

  /** Allocations in a live arena leave the generations untouched. */
  lemma {:induction false} ReplayAllocations(g: Gens, events: seq<Event>, a: Arena)
    requires AllocationsIn(events, a)
    requires a.id in g && g[a.id] == a.generation
    ensures Replay(g, events) == Some(g)
    decreases |events|
  {
    if |events| > 0 {
      assert Permitted(g, events[0]);
      ReplayAllocations(g, events[1..], a);
    }
  }

  /** The order a pass follows, read off its events: every allocation is in
      the spare arena; there is a reset, and every reset is of the arena
      that held the old tree and comes after the differ read the old and new
      trees and after the new tree was stored. */
  predicate PassOrdered(events: seq<Event>, st: RenderState, built: Tree) {
    && (forall i :: 0 <= i < |events| && events[i].Allocated? ==> events[i].at.arena == st.bumpSpare.id)
    && ResetOnlyAfter(events, st.bump.id, Diffed(st.previous, [built]), Stored(built))
  }

  /** Runs the view with the actual helper in the spare arena and allocates
      the element it returns there: the new tree and the helper's final
      state. */
  function BuildView(spare: Arena, model: Model, registrations: seq<Registration>): (r: (Tree, ActualHelper))
    ensures r.1.bump.id == spare.id && r.1.bump.generation == spare.generation
    ensures LiveIn(r.0.at, r.1.bump)
    ensures r.0.node == HtmlElement("P", [], Text(Caption(model)), [EventBinding("click", DefaultOptions, |registrations|)])
    ensures AllocationsIn(r.1.events, r.1.bump)
    ensures |r.1.registrations| == |registrations| + 1 && r.1.registrations[..|registrations|] == registrations
    ensures r.1.registrations[|registrations|].callback == OnClickHandler
    ensures LiveIn(r.1.registrations[|registrations|].receiver, r.1.bump)
  {
    var (node, helper) := View(model, ActualHelper(spare, registrations, []), ActualEventBinding);
    var (bump, at) := Alloc(helper.bump);
    (Tree(at, node), helper.(bump := bump, events := helper.events + [Allocated(at)]))
  }

  /** The events of one pass: the building allocations, then the diff, the
      store of the new tree, the reset and the swap. */
  function PassEvents(st: RenderState, built: Tree, building: seq<Event>): seq<Event> {
    building + [Diffed(st.previous, [built]), Stored(built), ResetArena(st.bump.id), Swapped]
  }

  /** A pass replays from the generations at rest, and only the arena that
      held the old tree moves on a generation. */
  lemma PassEventsReplay(st: RenderState, spare: Arena, built: Tree, building: seq<Event>)
    requires AtRest(st)
    requires spare.id == st.bumpSpare.id && spare.generation == st.bumpSpare.generation
    requires AllocationsIn(building, spare) && LiveIn(built.at, spare)
    ensures Replay(GensOf(st), PassEvents(st, built, building)) == Some(GensOf(st)[st.bump.id := st.bump.generation + 1])
  {
    var g := GensOf(st);
    var g' := g[st.bump.id := st.bump.generation + 1];
    ReplayAllocations(g, building, spare);
    var t1 := [Swapped];
    var t2 := [ResetArena(st.bump.id)] + t1;
    var t3 := [Stored(built)] + t2;
    var t4 := [Diffed(st.previous, [built])] + t3;
    assert Replay(g', t1) == Some(g') by {
      assert t1[1..] == [];
    }
    assert g[st.bump.id] == st.bump.generation;
    assert Replay(g, t2) == Some(g') by {
      assert t2[1..] == t1;
    }
    assert Replay(g, t3) == Some(g') by {
      assert t3[1..] == t2;
    }
    assert Replay(g, t4) == Some(g') by {
      assert LiveUnder(g, st.previous[0].at);
      assert AllLiveUnder(g, st.previous);
      assert t4[1..] == t3;
    }
    ReplayAppend(g, building, t4);
    assert building + t4 == PassEvents(st, built, building);
  }

  lemma PassEventsOrdered(st: RenderState, spare: Arena, built: Tree, building: seq<Event>)
    requires AtRest(st)
    requires spare.id == st.bumpSpare.id && AllocationsIn(building, spare)
    ensures PassOrdered(PassEvents(st, built, building), st, built)
  {
    var events := PassEvents(st, built, building);
    var n := |building|;
    assert events[n + 2] == ResetArena(st.bump.id);
    assert events[..n + 2][n] == Diffed(st.previous, [built]);
    assert events[..n + 2][n + 1] == Stored(built);
  }

  /** Resetting the old tree's arena moves the generations at rest to those
      of the swapped arenas. */
  lemma GensAfterSwap(st: RenderState, spare: Arena, next: RenderState)
    requires AtRest(st)
    requires spare.id == st.bumpSpare.id && spare.generation == st.bumpSpare.generation
    requires next.bump == spare && next.bumpSpare == Reset(st.bump)
    ensures GensOf(st)[st.bump.id := st.bump.generation + 1] == GensOf(next)
  {
  }

  /** The result of one pass: the new render state, the registration list,
      and the arena events of the pass. */
  datatype Pass = Pass(state: RenderState, registrations: seq<Registration>, events: seq<Event>)

  /** `RenderState::render`: builds the new tree in `bump_spare`, hands the
      old and new trees to the differ, overwrites `previous`, resets `bump`
      and swaps the arenas. */
  function RenderPass(st: RenderState, model: Model, registrations: seq<Registration>): (r: Pass)
    requires AtRest(st)
    ensures AtRest(r.state)
    ensures r.state.bump.id == st.bumpSpare.id && r.state.bump.generation == st.bumpSpare.generation
    ensures r.state.bumpSpare.id == st.bump.id && r.state.bumpSpare.generation == st.bump.generation + 1
    ensures |r.state.previous| == 1 && r.state.previous[0].at.arena == st.bumpSpare.id
    ensures r.state.previous[0].node == HtmlElement("P", [], Text(Caption(model)), [EventBinding("click", DefaultOptions, |registrations|)])
    ensures r.state.differ == Differ(st.differ.container, st.differ.calls + [DiffCall(st.previous, r.state.previous, DiffDepth)])
    ensures r.state.trace == st.trace + r.events
    ensures Replay(GensOf(st), r.events) == Some(GensOf(r.state))
    ensures PassOrdered(r.events, st, r.state.previous[0])
    ensures |r.registrations| == |registrations| + 1 && r.registrations[..|registrations|] == registrations
    ensures r.registrations[|registrations|].callback == OnClickHandler
    ensures LiveIn(r.registrations[|registrations|].receiver, r.state.bump)
  {
    var (built, helper) := BuildView(st.bumpSpare, model, registrations);
    var differ := UpdateChildNodes(st.differ, st.previous, [built], DiffDepth, st.bump, helper.bump);
    var events := PassEvents(st, built, helper.events);
    var next := RenderState(Reset(st.bump), helper.bump, st.previous[0 := built], differ, st.trace + events);
    assert next.previous == [built];
    PassEventsReplay(st, helper.bump, built, helper.events);
    PassEventsOrdered(st, helper.bump, built, helper.events);
    GensAfterSwap(st, helper.bump, next);
    Pass(next, helper.registrations, events)
  }

  /** The animation-frame closure `schedule_render` creates; `serial` tells
      apart closures created by different calls. */
  datatype FrameCallback = FrameCallback(serial: nat)

  /** `Renderer`, with `requestedFrames` standing for the frames requested
      from the host and not yet run. */
  datatype Renderer = Renderer(
    state: RenderState,
    stateBorrowed: bool,
    renderScheduled: bool,
    renderCallback: Option<FrameCallback>,
    callbacksCreated: nat,
    model: Model,
    registrations: seq<Registration>,
    requestedFrames: seq<FrameCallback>)

  /** `Renderer::attach`: `previous` is exactly the container's content
      loaded into `bump`, `bump_spare` is a second, empty arena, nothing is
      scheduled, no frame callback exists and nothing is registered. */
  function Attach(model: Model, container: Container): (r: Renderer)
    ensures |r.state.previous| == 1 && r.state.previous[0].node == container.content
    ensures LiveIn(r.state.previous[0].at, r.state.bump)
    ensures r.state.bumpSpare.Empty() && r.state.bumpSpare.id != r.state.bump.id
    ensures r.state.differ == Differ(container.id, [])
    ensures !r.renderScheduled && !r.stateBorrowed
    ensures r.renderCallback == None && r.callbacksCreated == 0
    ensures r.registrations == [] && r.requestedFrames == []
    ensures r.model == model
  {
    var (bump, at) := Alloc(NewArena(FirstBump));
    var state := RenderState(NewArena(FirstSpare), bump, [Tree(at, container.content)], Differ(container.id, []), [Allocated(at)]);
    Renderer(state, false, false, None, 0, model, [], [])
  }

  /** Failure of `render`: the render state's `RefCell` is already borrowed
      by a pass that is still running. */
  datatype RenderError = AlreadyBorrowed

  /** `Renderer::render`: clears the scheduled flag, then runs one pass, or
      fails on the borrow when a pass is already running. */
  function Render(r: Renderer): (out: Result<Renderer, RenderError>)
    requires r.stateBorrowed || AtRest(r.state)
    ensures out.Failure? <==> r.stateBorrowed
    ensures out.Success? ==>
      var pass := RenderPass(r.state, r.model, r.registrations);
      && out.value.state == pass.state
      && out.value.registrations == pass.registrations
      && !out.value.renderScheduled
      && out.value.model == r.model
      && out.value.renderCallback == r.renderCallback
      && out.value.callbacksCreated == r.callbacksCreated
      && out.value.requestedFrames == r.requestedFrames
      && !out.value.stateBorrowed
  {
    var r1 := r.(renderScheduled := false);
    if r1.stateBorrowed then Failure(AlreadyBorrowed)
    else
      var pass := RenderPass(r1.state, r1.model, r1.registrations);
      Success(r1.(state := pass.state, registrations := pass.registrations))
  }

  /** `Renderer::schedule_render`: creates the frame callback on the first
      call only, and requests a frame whenever the scheduled flag is clear. */
  function ScheduleRender(r: Renderer): (r': Renderer)
    ensures r'.renderCallback.Some?
    ensures r.renderCallback.Some? ==> r'.renderCallback == r.renderCallback && r'.callbacksCreated == r.callbacksCreated
    ensures r.renderCallback.None? ==> r'.callbacksCreated == r.callbacksCreated + 1
    ensures r'.requestedFrames == r.requestedFrames + (if r.renderScheduled then [] else [r'.renderCallback.value])
    ensures r'.renderScheduled == r.renderScheduled
    ensures r'.state == r.state && r'.stateBorrowed == r.stateBorrowed
    ensures r'.model == r.model && r'.registrations == r.registrations
  {
    var r1 :=
      if r.renderCallback.None? then
        r.(renderCallback := Some(FrameCallback(r.callbacksCreated)), callbacksCreated := r.callbacksCreated + 1)
      else r;
    if !r1.renderScheduled then r1.(requestedFrames := r1.requestedFrames + [r1.renderCallback.value]) else r1
  }

  /** The dispatch closure of a registration: reads the renderer and the
      handler out of the registration's receiver, so the receiver must still
      be backed by `bump`; runs the handler on the renderer's model, then
      schedules a render. */
  function Dispatch(r: Renderer, i: nat): (r': Renderer)
    requires i < |r.registrations| && LiveIn(r.registrations[i].receiver, r.state.bump)
    requires r.model.counter < U32_MAX
    ensures r'.model == Apply(r.registrations[i].callback, r.model)
    ensures r'.model.counter == r.model.counter + 1 && r'.model.area == r.model.area
    ensures r'.state == r.state && r'.registrations == r.registrations
    ensures r'.renderScheduled == r.renderScheduled && r'.renderCallback.Some?
    ensures r'.requestedFrames == r.requestedFrames + (if r.renderScheduled then [] else [r'.renderCallback.value])
  {
    var handled := r.(model := Apply(r.registrations[i].callback, r.model));
    ScheduleRender(handled)
  }

  /** Every binding of the displayed tree names a registration whose
      receiver is still backed by `bump`. */
  predicate BindingsLive(r: Renderer)
    requires |r.state.previous| == 1
  {
    forall b :: b in Bindings(r.state.previous[0].node) ==>
      b.callback < |r.registrations| && LiveIn(r.registrations[b.callback].receiver, r.state.bump)
  }

  /** What holds between host events: the arena invariant, a trace that
      replays without touching reclaimed memory, at most one frame
      callback ever created, every requested frame running that callback,
      the flag never set, and live receivers behind the displayed bindings. */
  predicate Invariant(r: Renderer) {
    && AtRest(r.state)
    && !r.stateBorrowed
    && !r.renderScheduled
    && Replay(InitialGens, r.state.trace) == Some(GensOf(r.state))
    && (r.renderCallback.None? ==> r.callbacksCreated == 0)
    && (r.renderCallback.Some? ==> r.callbacksCreated == 1 && r.renderCallback.value == FrameCallback(0))
    && (forall i :: 0 <= i < |r.requestedFrames| ==> Some(r.requestedFrames[i]) == r.renderCallback)
    && BindingsLive(r)
  }

  /** `attach` establishes the invariant (the container, read from the live
      document, carries no bindings). */
  lemma AttachEstablishesInvariant(model: Model, container: Container)
    requires Bindings(container.content) == []
    ensures Invariant(Attach(model, container))
  {
    var r := Attach(model, container);
    assert r.state.trace == [Allocated(r.state.previous[0].at)];
    assert GensOf(r.state) == InitialGens;
    assert Replay(InitialGens, r.state.trace[1..]) == Some(InitialGens);
  }

  /** A render from a resting renderer succeeds and keeps the invariant:
      the whole history still replays without touching reclaimed memory. */
  lemma RenderPreservesInvariant(r: Renderer)
    requires Invariant(r)
    ensures Render(r).Success?
    ensures Invariant(Render(r).value)
  {
    var pass := RenderPass(r.state, r.model, r.registrations);
    var r' := Render(r).value;
    ReplayAppend(InitialGens, r.state.trace, pass.events);
    assert Bindings(r'.state.previous[0].node) == [EventBinding("click", DefaultOptions, |r.registrations|)];
  }

  lemma ScheduleRenderPreservesInvariant(r: Renderer)
    requires Invariant(r)
    ensures Invariant(ScheduleRender(r))
  {
  }

  /** With the flag never set, every `schedule_render` requests one more
      frame: calls between two frames are not coalesced. */
  lemma ScheduleRenderAlwaysRequests(r: Renderer)
    requires Invariant(r)
    ensures |ScheduleRender(r).requestedFrames| == |r.requestedFrames| + 1
  {
  }

  /** `n` consecutive `schedule_render` calls. */
  function ScheduleTimes(r: Renderer, n: nat): Renderer
    decreases n
  {
    if n == 0 then r else ScheduleTimes(ScheduleRender(r), n - 1)
  }

  /** `n` back-to-back `schedule_render` calls request `n` frames and create
      the frame callback at most once. */
  lemma {:induction false} ScheduleTimesRequestsEach(r: Renderer, n: nat)
    requires Invariant(r)
    ensures Invariant(ScheduleTimes(r, n))
    ensures |ScheduleTimes(r, n).requestedFrames| == |r.requestedFrames| + n
    ensures ScheduleTimes(r, n).callbacksCreated <= 1
    decreases n
  {
    if n > 0 {
      ScheduleRenderPreservesInvariant(r);
      ScheduleTimesRequestsEach(ScheduleRender(r), n - 1);
    }
  }

  lemma DispatchPreservesInvariant(r: Renderer, i: nat)
    requires Invariant(r)
    requires i < |r.registrations| && LiveIn(r.registrations[i].receiver, r.state.bump)
    requires r.model.counter < U32_MAX
    ensures Invariant(Dispatch(r, i))
  {
  }

  /** Registrations are never removed, but the receivers of a pass live in
      the arena the next pass resets: any registration whose receiver is in
      `bump` before a render is backed by neither arena after it. */
  lemma ReceiversReclaimedNextPass(r: Renderer, i: nat)
    requires Invariant(r)
    requires i < |r.registrations| && LiveIn(r.registrations[i].receiver, r.state.bump)
    ensures Render(r).Success?
    ensures var r' := Render(r).value;
      && i < |r'.registrations| && r'.registrations[i] == r.registrations[i]
      && !LiveIn(r.registrations[i].receiver, r'.state.bump)
      && !LiveIn(r.registrations[i].receiver, r'.state.bumpSpare)
  {
    var r' := Render(r).value;
    assert r'.registrations[..|r.registrations|] == r.registrations;
    assert r'.registrations[i] == r'.registrations[..|r.registrations|][i];
  }

  /** What can happen to a resting renderer: the host fires the listener of
      the `k`-th binding of the displayed tree or runs the oldest requested
      animation frame, or the application calls the public `render` or
      `schedule_render` itself. */
  datatype HostEvent = Fire(k: nat) | AnimationFrame | CallRender | CallScheduleRender

  /** Whether `e` is a click on a binding the displayed tree carries. */
  predicate DisplayedClick(r: Renderer, e: HostEvent)
    requires |r.state.previous| == 1
  {
    e.Fire? && e.k < |Bindings(r.state.previous[0].node)|
  }

  /** One event. Only a click can overflow the `u32` counter; frames and the
      application's calls leave the model alone. */
  function Step(r: Renderer, e: HostEvent): (r': Renderer)
    requires Invariant(r) && (e.Fire? ==> r.model.counter < U32_MAX)
    ensures Invariant(r')
    ensures r'.model == (if DisplayedClick(r, e) then OnClick(r.model) else r.model)
    ensures r.registrations <= r'.registrations
  {
    match e
    case Fire(k) =>
      var bs := Bindings(r.state.previous[0].node);
      if k < |bs| then
        assert bs[k] in bs;
        DispatchPreservesInvariant(r, bs[k].callback);
        Dispatch(r, bs[k].callback)
      else r
    case AnimationFrame =>
      if |r.requestedFrames| == 0 then r
      else
        var r1 := r.(requestedFrames := r.requestedFrames[1..]);
        RenderPreservesInvariant(r1);
        Render(r1).value
    case CallRender =>
      RenderPreservesInvariant(r);
      Render(r).value
    case CallScheduleRender =>
      ScheduleRenderPreservesInvariant(r);
      ScheduleRender(r)
  }

  /** The number of `Fire` events in a run. */
  function Clicks(events: seq<HostEvent>): (n: nat)
    ensures n <= |events|
  {
    if |events| == 0 then 0 else (if events[0].Fire? then 1 else 0) + Clicks(events[1..])
  }

  /** A run of host events from a resting renderer. Each click raises the
      counter by at most one; a run without clicks leaves the model as it
      was. */
  function Run(r: Renderer, events: seq<HostEvent>): (r': Renderer)
    requires Invariant(r) && r.model.counter + Clicks(events) <= U32_MAX
    ensures Invariant(r')
    ensures r'.model.area == r.model.area && r'.model.counter <= r.model.counter + Clicks(events)
    ensures Clicks(events) == 0 ==> r'.model == r.model
    ensures r.registrations <= r'.registrations
    decreases |events|
  {
    if |events| == 0 then r
    else
      var r1 := Step(r, events[0]);
      Run(r1, events[1..])
  }

  /** From `attach`, any run of host events keeps the invariant. */
  lemma AttachThenRun(model: Model, container: Container, events: seq<HostEvent>)
    requires Bindings(container.content) == []
    requires model.counter + Clicks(events) <= U32_MAX
    ensures Invariant(Run(Attach(model, container), events))
  {
    AttachEstablishesInvariant(model, container);
  }

  /** The application's first `render` after `attach` displays the view
      with one click binding; clicking it raises the counter and requests a
      frame, and running that frame displays the new caption. */
  lemma AttachRenderClickFrame(model: Model, container: Container)
    requires Bindings(container.content) == []
    requires model.counter < U32_MAX
    ensures Clicks([CallRender, Fire(0), AnimationFrame]) == 1
    ensures var r := Run(Attach(model, container), [CallRender, Fire(0), AnimationFrame]);
      && r.model == OnClick(model)
      && r.state.previous[0].node.content == Text(Caption(OnClick(model)))
      && |r.registrations| == 2
      && r.requestedFrames == []
      && r.renderCallback == Some(FrameCallback(0))
  {
    var r0 := Attach(model, container);
    AttachEstablishesInvariant(model, container);
    var r1 := Step(r0, CallRender);
    assert Bindings(r1.state.previous[0].node) == [EventBinding("click", DefaultOptions, 0)];
    var r2 := Step(r1, Fire(0));
    assert r2.requestedFrames == [FrameCallback(0)];
    var r3 := Step(r2, AnimationFrame);
    assert Run(r0, [CallRender, Fire(0), AnimationFrame]) == r3 by {
      var events := [CallRender, Fire(0), AnimationFrame];
      assert events[1..] == [Fire(0), AnimationFrame];
      assert events[1..][1..] == [AnimationFrame];
      assert Run(r2, [AnimationFrame]) == Run(r3, []);
    }
  }
}
