/** The older render closure of the web front end (web/src/lib.rs, in
    `start`): two leaked arenas `bump_a` and `bump_b`, an optional previous
    tree, and a container loaded on the first pass only. The view it calls
    has a signature the demo application no longer offers, so the tree it
    builds is a parameter of each pass. */
module LegacyRender {
  import opened Wrappers
  import opened Vdom
  import opened Arenas

  /** `bump_a` and `bump_b` as `start` creates them. */
  const ArenaA: ArenaId := 0
  const ArenaB: ArenaId := 1

  /** The document body; `children` stands for the content `load_element`
      reads out of it. */
  datatype Container = Container(children: seq<Node>)

  datatype DiffCall = DiffCall(before: seq<Tree>, after: seq<Tree>)

  /** The closure's captured state. `loads` counts the times the container
      was read through `load_element`; `lastPass` holds the arena events of
      the most recent pass. */
  datatype State = State(
    bumpA: Arena,
    bumpB: Arena,
    previous: Option<Tree>,
    container: Container,
    loads: nat,
    diffs: seq<DiffCall>,
    lastPass: seq<Event>)

  /** Why a pass panics: the container has no child to take as the first
      old tree (`content[0]` out of bounds). */
  datatype Panic = EmptyContainer

  /** The state `start` sets up before the first pass. */
  function Start(container: Container): (st: State)
    ensures st.previous == None && st.loads == 0
    ensures st.bumpA.Empty() && st.bumpB.Empty() && st.bumpA.id != st.bumpB.id
    ensures st.diffs == [] && st.container == container
  {
    State(NewArena(ArenaA), NewArena(ArenaB), None, container, 0, [], [])
  }

  function GensOf(st: State): Gens {
    map[st.bumpA.id := st.bumpA.generation, st.bumpB.id := st.bumpB.generation]
  }

  /** Between passes: `bump_b` is empty, the previous tree (once there is
      one) lives in `bump_a`, and the container was loaded exactly when
      there is a previous tree. */
  predicate AtRest(st: State) {
    && st.bumpA.id != st.bumpB.id
    && st.bumpB.Empty()
    && (st.previous.Some? ==> LiveIn(st.previous.value.at, st.bumpA))
    && (st.previous.None? <==> st.loads == 0)
    && st.loads <= 1
  }

  /** The old tree of a pass: the stored previous tree, or else the first
      child of the container, loaded into `bump_a`. */
  function OldTree(st: State): (r: (Arena, Tree, seq<Event>))
    requires AtRest(st)
    requires st.previous.Some? || |st.container.children| > 0
    ensures r.0.id == st.bumpA.id && r.0.generation == st.bumpA.generation
    ensures LiveIn(r.1.at, r.0)
    ensures st.previous.Some? ==> r.1 == st.previous.value && r.2 == []
    ensures st.previous.None? ==> r.1.node == st.container.children[0] && r.2 == [Allocated(r.1.at)]
  {
    if st.previous.Some? then (st.bumpA, st.previous.value, [])
    else
      var (a, at) := Alloc(st.bumpA);
      (a, Tree(at, st.container.children[0]), [Allocated(at)])
  }

  /** One run of the `render` closure: take the old tree, build the new one
      in `bump_b`, diff old against new, store the new one, reset `bump_a`
      and swap the two arenas. */
  function Render(st: State, view: Node): (r: Result<State, Panic>)
    requires AtRest(st)
    ensures r.Failure? <==> st.previous.None? && |st.container.children| == 0
    ensures r.Success? ==>
      var next := r.value;
      && AtRest(next)
      && next.previous.Some? && next.previous.value.node == view
      && next.previous.value.at.arena == st.bumpB.id
      && next.bumpA.id == st.bumpB.id && next.bumpA.generation == st.bumpB.generation
      && next.bumpB.id == st.bumpA.id && next.bumpB.generation > st.bumpA.generation
      && next.loads == st.loads + (if st.previous.None? then 1 else 0)
      && |next.diffs| == |st.diffs| + 1 && st.diffs <= next.diffs
      && next.diffs[|st.diffs|].after == [next.previous.value]
      && (st.previous.Some? ==> next.diffs[|st.diffs|].before == [st.previous.value])
      && (st.previous.None? ==>
            && |next.diffs[|st.diffs|].before| == 1
            && next.diffs[|st.diffs|].before[0].node == st.container.children[0]
            && next.diffs[|st.diffs|].before[0].at.arena == st.bumpA.id)
      && Replay(GensOf(st), next.lastPass) == Some(GensOf(next))
      && ResetOnlyAfter(next.lastPass, st.bumpA.id,
           Diffed(next.diffs[|st.diffs|].before, [next.previous.value]), Stored(next.previous.value))
  {
    if st.previous.None? && |st.container.children| == 0 then Failure(EmptyContainer)
    else
      var (bumpA, prior, loading) := OldTree(st);
      var (bumpB, at) := Alloc(st.bumpB);
      var vdom := Tree(at, view);
      var tail := [Allocated(at), Diffed([prior], [vdom]), Stored(vdom), ResetArena(st.bumpA.id), Swapped];
      var next := State(bumpB, Reset(bumpA), Some(vdom), st.container, st.loads + |loading|, st.diffs + [DiffCall([prior], [vdom])], loading + tail);
      LegacyPassReplay(st, bumpA, bumpB, prior, vdom, loading);
      LegacyPassOrdered(st.bumpA.id, prior, vdom, loading);
      Success(next)
  }

  /** The events of a pass replay from the generations at rest, and only
      `bump_a` moves on a generation. */
  lemma LegacyPassReplay(st: State, bumpA: Arena, bumpB: Arena, prior: Tree, vdom: Tree, loading: seq<Event>)
    requires AtRest(st)
    requires bumpA.id == st.bumpA.id && bumpA.generation == st.bumpA.generation && LiveIn(prior.at, bumpA)
    requires bumpB.id == st.bumpB.id && bumpB.generation == st.bumpB.generation && LiveIn(vdom.at, bumpB)
    requires loading == [] || loading == [Allocated(prior.at)]
    ensures Replay(GensOf(st), loading + [Allocated(vdom.at), Diffed([prior], [vdom]), Stored(vdom), ResetArena(st.bumpA.id), Swapped])
         == Some(map[bumpB.id := bumpB.generation, bumpA.id := bumpA.generation + 1])
  {
    var g := GensOf(st);
    var g' := g[st.bumpA.id := st.bumpA.generation + 1];
    assert g' == map[bumpB.id := bumpB.generation, bumpA.id := bumpA.generation + 1];
    var t1 := [Swapped];
    var t2 := [ResetArena(st.bumpA.id)] + t1;
    var t3 := [Stored(vdom)] + t2;
    var t4 := [Diffed([prior], [vdom])] + t3;
    var t5 := [Allocated(vdom.at)] + t4;
    assert Replay(g', t1) == Some(g') by {
      assert t1[1..] == [];
    }
    assert Replay(g, t2) == Some(g') by {
      assert t2[1..] == t1;
    }
    assert Replay(g, t3) == Some(g') by {
      assert t3[1..] == t2;
    }
    assert Replay(g, t4) == Some(g') by {
      assert AllLiveUnder(g, [prior]) && AllLiveUnder(g, [vdom]);
      assert t4[1..] == t3;
    }
    assert Replay(g, t5) == Some(g') by {
      assert t5[1..] == t4;
    }
    if loading != [] {
      assert Replay(g, loading) == Some(g) by {
        assert loading[1..] == [];
      }
      ReplayAppend(g, loading, t5);
    } else {
      assert loading + t5 == t5;
    }
    assert loading + t5 == loading + [Allocated(vdom.at), Diffed([prior], [vdom]), Stored(vdom), ResetArena(st.bumpA.id), Swapped];
  }

  lemma LegacyPassOrdered(a: ArenaId, prior: Tree, vdom: Tree, loading: seq<Event>)
    requires loading == [] || loading == [Allocated(prior.at)]
    ensures ResetOnlyAfter(loading + [Allocated(vdom.at), Diffed([prior], [vdom]), Stored(vdom), ResetArena(a), Swapped],
                           a, Diffed([prior], [vdom]), Stored(vdom))
  {
    var events := loading + [Allocated(vdom.at), Diffed([prior], [vdom]), Stored(vdom), ResetArena(a), Swapped];
    var n := |loading|;
    assert events[n + 3] == ResetArena(a);
    assert events[..n + 3][n + 1] == Diffed([prior], [vdom]);
    assert events[..n + 3][n + 2] == Stored(vdom);
  }

  /** Runs the closure once per view tree, stopping at the first panic. */
  function RenderAll(st: State, views: seq<Node>): (r: Result<State, Panic>)
    requires AtRest(st)
    ensures r.Success? ==> AtRest(r.value) && r.value.loads <= 1
    ensures r.Success? ==> r.value.loads == st.loads + (if st.previous.None? && |views| > 0 then 1 else 0)
    ensures r.Success? && |views| > 0 ==> r.value.previous.Some? && r.value.previous.value.node == views[|views| - 1]
    decreases |views|
  {
    if |views| == 0 then Success(st)
    else
      match Render(st, views[0])
      case Failure(e) => Failure(e)
      case Success(next) => RenderAll(next, views[1..])
  }

  /** The container is read once: once a previous tree exists, every later
      pass succeeds and none loads the container again. */
  lemma {:induction false} LoadedAtMostOnce(st: State, views: seq<Node>)
    requires AtRest(st) && st.previous.Some?
    ensures RenderAll(st, views).Success?
    ensures RenderAll(st, views).value.loads == st.loads
    decreases |views|
  {
    if |views| > 0 {
      LoadedAtMostOnce(Render(st, views[0]).value, views[1..]);
    }
  }

  /** `start`: set up, then run the closure once. On a body with at least
      one child the first pass diffs that child, loaded into `bump_a`,
      against the view's tree built in `bump_b`. */
  lemma StartRendersOnce(container: Container, view: Node)
    requires |container.children| > 0
    ensures Render(Start(container), view).Success?
    ensures var next := Render(Start(container), view).value;
      && next.diffs == [DiffCall([Tree(Token(ArenaA, 0), container.children[0])], [Tree(Token(ArenaB, 0), view)])]
      && next.previous == Some(Tree(Token(ArenaB, 0), view))
      && next.bumpA.id == ArenaB && next.bumpB.id == ArenaA && next.bumpB.generation == 1
  {
  }

  /** On an empty body the first pass panics. */
  lemma StartPanicsOnEmptyBody(view: Node)
    ensures Render(Start(Container([])), view) == Failure(EmptyContainer)
  {
  }
}
