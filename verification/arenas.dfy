/** Bump arenas as the render loop uses them, without memory: an arena is an
    identity plus a generation that `reset` advances, and everything
    allocated in it is a token remembering the arena and the generation it
    came from. A token stays readable while its arena is still in that
    generation.

    A render pass is also recorded as a trace of arena events, and `Replay`
    is an independent checker for traces: it follows the generations and
    fails as soon as an event touches a token whose arena has been reset
    since the token was allocated. */
module Arenas {
  import opened Wrappers
  import opened Vdom

  type ArenaId = nat

  /** `used` counts allocations since the last reset; zero means empty. */
  datatype Arena = Arena(id: ArenaId, generation: nat, used: nat)
  {
    predicate Empty() {
      used == 0
    }
  }

  /** Where a value was allocated. */
  datatype Token = Token(arena: ArenaId, generation: nat)

  /** A virtual tree together with the allocation that backs it. */
  datatype Tree = Tree(at: Token, node: Node)

  predicate LiveIn(t: Token, a: Arena) {
    t.arena == a.id && t.generation == a.generation
  }

  /** `Bump::new()`. */
  function NewArena(id: ArenaId): (a: Arena)
    ensures a.id == id && a.Empty()
  {
    Arena(id, 0, 0)
  }

  /** One allocation: a fresh token live in the arena, and everything that
      was live before still is. */
  function Alloc(a: Arena): (r: (Arena, Token))
    ensures r.0.id == a.id && r.0.generation == a.generation
    ensures r.0.used == a.used + 1
    ensures LiveIn(r.1, r.0)
    ensures forall t :: LiveIn(t, a) ==> LiveIn(t, r.0)
  {
    (a.(used := a.used + 1), Token(a.id, a.generation))
  }

  /** `Bump::reset`: the arena is empty again and nothing allocated before
      the reset is live any more. */
  function Reset(a: Arena): (r: Arena)
    ensures r.id == a.id && r.Empty()
    ensures forall t :: LiveIn(t, a) ==> !LiveIn(t, r)
  {
    Arena(a.id, a.generation + 1, 0)
  }

  /** What a render pass does to its arenas, in order. */
  datatype Event =
    | Allocated(at: Token)
    | Diffed(before: seq<Tree>, after: seq<Tree>)
    | Stored(tree: Tree)
    | ResetArena(arena: ArenaId)
    | Swapped

  /** The events reset `arena`, and reset nothing else; every reset comes
      after the differ's read `diff` and after the store `store`. */
  predicate ResetOnlyAfter(events: seq<Event>, arena: ArenaId, diff: Event, store: Event) {
    && ResetArena(arena) in events
    && (forall i :: 0 <= i < |events| && events[i].ResetArena? ==>
          && events[i].arena == arena
          && diff in events[..i]
          && store in events[..i])
  }

  /** The current generation of every arena in play. */
  type Gens = map<ArenaId, nat>

  predicate LiveUnder(g: Gens, t: Token) {
    t.arena in g && g[t.arena] == t.generation
  }

  predicate AllLiveUnder(g: Gens, ts: seq<Tree>) {
    forall i :: 0 <= i < |ts| ==> LiveUnder(g, ts[i].at)
  }

  /** Whether one event only touches live memory. */
  predicate Permitted(g: Gens, e: Event) {
    match e
    case Allocated(at) => LiveUnder(g, at)
    case Diffed(before, after) => AllLiveUnder(g, before) && AllLiveUnder(g, after)
    case Stored(t) => LiveUnder(g, t.at)
    case ResetArena(a) => a in g
    case Swapped => true
  }

  function Advance(g: Gens, e: Event): Gens
    requires Permitted(g, e)
  {
    if e.ResetArena? then g[e.arena := g[e.arena] + 1] else g
  }

  /** Follows the generations through a trace: `None` when some event reads,
      allocates in or stores a token its arena no longer holds. */
  function Replay(g: Gens, trace: seq<Event>): Option<Gens>
    decreases |trace|
  {
    if |trace| == 0 then Some(g)
    else if !Permitted(g, trace[0]) then None
    else Replay(Advance(g, trace[0]), trace[1..])
  }

  /** Replaying two traces one after the other is replaying their
      concatenation. */
  lemma {:induction false} ReplayAppend(g: Gens, t1: seq<Event>, t2: seq<Event>)
    ensures Replay(g, t1 + t2) == (match Replay(g, t1) case None => None case Some(g1) => Replay(g1, t2))
    decreases |t1|
  {
    if |t1| > 0 {
      assert (t1 + t2)[0] == t1[0];
      assert (t1 + t2)[1..] == t1[1..] + t2;
      if Permitted(g, t1[0]) {
        ReplayAppend(Advance(g, t1[0]), t1[1..], t2);
      }
    } else {
      assert t1 + t2 == t2;
    }
  }
}
