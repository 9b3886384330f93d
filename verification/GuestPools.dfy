/** The pool that hands wasm guests between a free queue, one scheduling slot and the pods in
    their binding cycle. Every operation runs under the pool's lock, so a run of the pool is a
    sequence of operations, interleaved in any way. */
module GuestPools {
  import opened Options

  type Guest = nat
  type PodUID = string

  datatype State = State(
    scheduledPodUID: PodUID, scheduled: Option<Guest>, binding: map<PodUID, Guest>, free: seq<Guest>)

  /** made is what newGuest returns if the operation calls it; None is an error. */
  datatype Op =
    | WithGuest(made: Option<Guest>)
    | Scheduling(pod: PodUID, made: Option<Guest>)
    | GetForBinding(pod: PodUID)
    | FreeFromBinding(pod: PodUID)

  /** The guest the caller's function runs on, if it runs. */
  datatype Effect = RanOn(guest: Guest) | Failed | Panicked | Done

  /** The state after newGuestPool, which creates the first guest eagerly. */
  function Initial(g: Guest): State {
    State("", None, map[], [g])
  }

  function Next(s: State, op: Op): (State, Effect) {
    match op
    case WithGuest(made) =>
      var t := s.(scheduledPodUID := "");
      if s.scheduled.Some? then
        (t.(scheduled := None, free := s.free + [s.scheduled.value]), RanOn(s.scheduled.value))
      else if s.free != [] then
        (t.(free := s.free[1..] + [s.free[0]]), RanOn(s.free[0]))
      else if made.Some? then
        (t.(free := [made.value]), RanOn(made.value))
      else
        (t, Failed)
    case Scheduling(pod, made) =>
      var t := s.(scheduledPodUID := pod);
      if s.scheduled.Some? then
        (t, RanOn(s.scheduled.value))
      else if s.free != [] then
        (t.(scheduled := Some(s.free[0]), free := s.free[1..]), RanOn(s.free[0]))
      else if made.Some? then
        (t.(scheduled := made), RanOn(made.value))
      else
        (t, Failed)
    case GetForBinding(pod) =>
      if pod in s.binding then
        (s, RanOn(s.binding[pod]))
      else if s.scheduled.Some? then
        (State("", None, s.binding[pod := s.scheduled.value], s.free), RanOn(s.scheduled.value))
      else
        (s, Panicked)
    case FreeFromBinding(pod) =>
      if pod in s.binding then
        (s.(binding := s.binding - {pod}, free := s.free + [s.binding[pod]]), Done)
      else
        (s, Done)
  }

  /** The operation calls newGuest. */
  predicate Creates(s: State, op: Op) {
    (op.WithGuest? || op.Scheduling?) && s.scheduled.None? && s.free == []
  }

  function Created(s: State, op: Op, created: set<Guest>): set<Guest> {
    if Creates(s, op) && op.made.Some? then created + {op.made.value} else created
  }

  // ----- conservation -----

  ghost predicate IsBound(binding: map<PodUID, Guest>, g: Guest) {
    exists p :: p in binding && binding[p] == g
  }

  /** Every guest ever created is in exactly one place: the slot, the queue or one binding. */
  ghost predicate Conserved(s: State, created: set<Guest>) {
    && (forall i, j | 0 <= i < j < |s.free| :: s.free[i] != s.free[j])
    && (forall p, q | p in s.binding && q in s.binding && p != q :: s.binding[p] != s.binding[q])
    && (forall g | g in s.free :: !IsBound(s.binding, g) && s.scheduled != Some(g))
    && (s.scheduled.Some? ==> !IsBound(s.binding, s.scheduled.value))
    && (forall g: Guest :: g in created <==> g in s.free || IsBound(s.binding, g) || s.scheduled == Some(g))
  }

  lemma InitialConserves(g: Guest)
    ensures Conserved(Initial(g), {g})
  {
  }

  lemma BindingConserves(s: State, pod: PodUID, created: set<Guest>)
    requires Conserved(s, created)
    ensures Conserved(Next(s, GetForBinding(pod)).0, created)
  {
    if pod !in s.binding && s.scheduled.Some? {
      var h := s.scheduled.value;
      var binding := s.binding[pod := h];
      forall g ensures IsBound(binding, g) <==> IsBound(s.binding, g) || g == h {
        if IsBound(s.binding, g) {
          var p :| p in s.binding && s.binding[p] == g;
          assert p in binding && binding[p] == g;
        }
        assert pod in binding && binding[pod] == h;
      }
    }
  }

  lemma FreeingConserves(s: State, pod: PodUID, created: set<Guest>)
    requires Conserved(s, created)
    ensures Conserved(Next(s, FreeFromBinding(pod)).0, created)
  {
    if pod in s.binding {
      var h := s.binding[pod];
      assert IsBound(s.binding, h);
      var binding := s.binding - {pod};
      forall g ensures IsBound(s.binding, g) <==> IsBound(binding, g) || g == h {
        if IsBound(s.binding, g) {
          var p :| p in s.binding && s.binding[p] == g;
          assert p == pod || (p in binding && binding[p] == g);
        }
      }
    }
  }

  /** Provided newGuest returns guests that did not exist before. */
  lemma NextConserves(s: State, op: Op, created: set<Guest>)
    requires Conserved(s, created)
    requires Creates(s, op) && op.made.Some? ==> op.made.value !in created
    ensures Conserved(Next(s, op).0, Created(s, op, created))
  {
    match op {
      case WithGuest(made) =>
      case Scheduling(pod, made) =>
        if s.free != [] { assert s.free == [s.free[0]] + s.free[1..]; }
      case GetForBinding(pod) => BindingConserves(s, pod, created);
      case FreeFromBinding(pod) => FreeingConserves(s, pod, created);
    }
  }

  // ----- runs -----

  /** The state after the first n operations of a run that starts with newGuestPool. */
  function StateAt(ops: seq<Op>, first: Guest, n: nat): State
    requires n <= |ops|
  {
    if n == 0 then Initial(first) else Next(StateAt(ops, first, n - 1), ops[n - 1]).0
  }

  function CreatedAt(ops: seq<Op>, first: Guest, n: nat): set<Guest>
    requires n <= |ops|
  {
    if n == 0 then {first} else Created(StateAt(ops, first, n - 1), ops[n - 1], CreatedAt(ops, first, n - 1))
  }

  function EffectAt(ops: seq<Op>, first: Guest, n: nat): Effect
    requires n < |ops|
  {
    Next(StateAt(ops, first, n), ops[n]).1
  }

  /** newGuest never returns a guest that exists already. */
  ghost predicate FreshGuests(ops: seq<Op>, first: Guest) {
    forall n | 0 <= n < |ops| && Creates(StateAt(ops, first, n), ops[n]) && ops[n].made.Some? ::
      ops[n].made.value !in CreatedAt(ops, first, n)
  }

  lemma {:induction false} RunConserves(ops: seq<Op>, first: Guest, n: nat)
    requires FreshGuests(ops, first) && n <= |ops|
    ensures Conserved(StateAt(ops, first, n), CreatedAt(ops, first, n))
  {
    hide Next, Created, Conserved;
    if n == 0 {
      InitialConserves(first);
    } else {
      RunConserves(ops, first, n - 1);
      NextConserves(StateAt(ops, first, n - 1), ops[n - 1], CreatedAt(ops, first, n - 1));
    }
  }

  /** A function never runs on a guest that serves a pod in its binding cycle, other than the
      binding calls of that pod; distinct pods have distinct guests. */
  lemma RunIsolatesBinding(ops: seq<Op>, first: Guest, n: nat, p: PodUID)
    requires FreshGuests(ops, first) && n < |ops|
    requires p in StateAt(ops, first, n).binding
    requires EffectAt(ops, first, n) == RanOn(StateAt(ops, first, n).binding[p])
    ensures ops[n] == GetForBinding(p)
  {
    RunConserves(ops, first, n);
    var s := StateAt(ops, first, n);
    assert IsBound(s.binding, s.binding[p]);
  }

  // ----- minimal allocation -----

  lemma CountBound(binding: map<PodUID, Guest>, created: set<Guest>)
    requires forall g :: g in created <==> IsBound(binding, g)
    ensures |created| <= |binding|
    decreases |binding|
  {
    if binding == map[] {
      assert created == {};
    } else {
      var p :| p in binding;
      var g, rest := binding[p], binding - {p};
      forall h | h in created - {g} ensures IsBound(rest, h) {
        var q :| q in binding && binding[q] == h;
        assert q in rest && rest[q] == h;
      }
      var c := set h | h in created && IsBound(rest, h);
      CountBound(rest, c);
      assert created - {g} <= c;
      CardinalityMonotone(created - {g}, c);
      assert |created| <= |created - {g}| + 1;
      assert rest.Keys == binding.Keys - {p};
    }
  }

  lemma CardinalityMonotone<T>(a: set<T>, b: set<T>)
    requires a <= b
    ensures |a| <= |b|
  {
    if a != {} {
      var x :| x in a;
      CardinalityMonotone(a - {x}, b - {x});
    }
  }

  /** A guest is created only when all existing guests are in the binding cycle. */
  lemma CreatesOnlyWhenAllBound(s: State, op: Op, created: set<Guest>)
    requires Conserved(s, created) && Creates(s, op)
    ensures forall g :: g in created <==> IsBound(s.binding, g)
    ensures |Created(s, op, created)| <= |s.binding| + 1
  {
    CountBound(s.binding, created);
  }

  /** If creation fails the guests stay where they are; only scheduledPodUID has changed. */
  lemma FailureKeepsGuests(s: State, op: Op)
    requires Next(s, op).1.Failed?
    ensures Next(s, op).0 == s.(scheduledPodUID := if op.WithGuest? then "" else op.pod)
    ensures Creates(s, op) && op.made.None?
  {
  }

  ghost function PeakBinding(ops: seq<Op>, first: Guest, n: nat): nat
    requires n <= |ops|
  {
    var now := |StateAt(ops, first, n).binding|;
    if n == 0 then now else
      var before := PeakBinding(ops, first, n - 1);
      if now > before then now else before
  }

  /** In every run the number of guests is at most one more than the largest number of pods
      that were in the binding cycle at the same time. */
  lemma {:induction false} RunAllocatesMinimally(ops: seq<Op>, first: Guest, n: nat)
    requires FreshGuests(ops, first) && n <= |ops|
    ensures |CreatedAt(ops, first, n)| <= 1 + PeakBinding(ops, first, n)
    ensures |StateAt(ops, first, n).binding| <= PeakBinding(ops, first, n)
  {
    hide Next, Conserved, Creates, StateAt, FreshGuests;
    if n > 0 {
      RunAllocatesMinimally(ops, first, n - 1);
      RunConserves(ops, first, n - 1);
      var s := StateAt(ops, first, n - 1);
      if Creates(s, ops[n - 1]) {
        CreatesOnlyWhenAllBound(s, ops[n - 1], CreatedAt(ops, first, n - 1));
      }
    }
  }

  // ----- affinity -----

  /** g serves pod p: it is in the scheduling slot until p is bound, and then in p's binding. */
  predicate Serves(s: State, p: PodUID, g: Guest) {
    if p in s.binding then s.binding[p] == g else s.scheduled == Some(g)
  }

  /** The operations that take p's guest away: before p is bound, an initialisation call or the first
      binding call of another pod; afterwards, the end of p's own binding cycle. */
  predicate Intrudes(s: State, p: PodUID, op: Op) {
    if p in s.binding then op == FreeFromBinding(p)
    else op.WithGuest? || (op.GetForBinding? && op.pod != p && op.pod !in s.binding)
  }

  /** A guest serves its pod until an intrusion and no longer: scheduling calls of other pods, their
      binding calls and the ends of their cycles leave it alone. */
  lemma ServesUntilIntrusion(s: State, p: PodUID, g: Guest, op: Op, created: set<Guest>)
    requires Conserved(s, created) && Serves(s, p, g)
    ensures Serves(Next(s, op).0, p, g) <==> !Intrudes(s, p, op)
  {
    assert p in s.binding ==> IsBound(s.binding, g);
  }

  /** A call that belongs to the cycle of p: any before p is bound, then the binding calls.
      A scheduling call while p is bound is the one of Unreserve. */
  predicate CallOf(s: State, p: PodUID, op: Op) {
    op == GetForBinding(p) || (op.Scheduling? && op.pod == p && p !in s.binding)
  }

  lemma FirstCallServes(s: State, p: PodUID, g: Guest, op: Op)
    requires op.Scheduling? && op.pod == p && p !in s.binding && Next(s, op).1 == RanOn(g)
    ensures Serves(Next(s, op).0, p, g)
  {
  }

  lemma ServedCallRuns(s: State, p: PodUID, g: Guest, op: Op)
    requires Serves(s, p, g) && CallOf(s, p, op)
    ensures Next(s, op).1 == RanOn(g)
  {
  }

  /** Once a scheduling call for an unbound pod p ran on g (operation m), every later call of p's cycle
      runs on g, whatever else happens, up to the first intrusion. */
  lemma {:induction false} CycleStaysOnOneGuest(ops: seq<Op>, first: Guest, m: nat, n: nat, p: PodUID, g: Guest)
    requires FreshGuests(ops, first) && m < n <= |ops|
    requires ops[m].Scheduling? && ops[m].pod == p && p !in StateAt(ops, first, m).binding
    requires EffectAt(ops, first, m) == RanOn(g)
    requires forall i | m < i < n :: !Intrudes(StateAt(ops, first, i), p, ops[i])
    ensures Serves(StateAt(ops, first, n), p, g)
    ensures n < |ops| && CallOf(StateAt(ops, first, n), p, ops[n]) ==> EffectAt(ops, first, n) == RanOn(g)
    decreases n
  {
    hide *;
    StateFollows(ops, first, n);
    StateFollows(ops, first, m + 1);
    if m + 1 < n {
      CycleStaysOnOneGuest(ops, first, m, n - 1, p, g);
      RunConserves(ops, first, n - 1);
      ServesUntilIntrusion(StateAt(ops, first, n - 1), p, g, ops[n - 1], CreatedAt(ops, first, n - 1));
    } else {
      FirstCallServes(StateAt(ops, first, m), p, g, ops[m]);
    }
    if n < |ops| && CallOf(StateAt(ops, first, n), p, ops[n]) {
      StateFollows(ops, first, n + 1);
      ServedCallRuns(StateAt(ops, first, n), p, g, ops[n]);
    }
  }

  lemma StateFollows(ops: seq<Op>, first: Guest, n: nat)
    requires 0 < n <= |ops|
    ensures (StateAt(ops, first, n), EffectAt(ops, first, n - 1)) == Next(StateAt(ops, first, n - 1), ops[n - 1])
  {
    hide Next;
  }

  /** After the first binding call of another pod q took p's guest, p's next scheduling call
      runs on another guest. */
  lemma IntruderTakesGuest(s: State, p: PodUID, q: PodUID, g: Guest, made: Option<Guest>, created: set<Guest>)
    requires Conserved(s, created) && Serves(s, p, g) && p !in s.binding
    requires p != q && q !in s.binding && (made.Some? ==> made.value !in created)
    ensures Next(Next(s, GetForBinding(q)).0, Scheduling(p, made)).1 != RanOn(g)
  {
  }

  /** The scheduling call of Unreserve for a bound pod does not reach the guest the pod is bound to. */
  lemma UnreserveMissesBoundGuest(s: State, p: PodUID, made: Option<Guest>, created: set<Guest>)
    requires Conserved(s, created) && p in s.binding && (made.Some? ==> made.value !in created)
    ensures Next(s, Scheduling(p, made)).1 != RanOn(s.binding[p])
  {
    assert IsBound(s.binding, s.binding[p]);
  }

  // ----- the order of the queue -----

  /** The guests that an operation puts into the queue: the one it ran on, or the one it unbinds. */
  function Enters(s: State, op: Op, effect: Effect): seq<Guest> {
    if op.WithGuest? && effect.RanOn? then [effect.guest]
    else if op.FreeFromBinding? && op.pod in s.binding then [s.binding[op.pod]]
    else []
  }

  /** The guest that it takes from the queue: the one it ran on, if the slot was empty and the queue not. */
  function Leaves(s: State, op: Op, effect: Effect): seq<Guest> {
    if (op.WithGuest? || op.Scheduling?) && s.scheduled.None? && s.free != [] && effect.RanOn? then [effect.guest] else []
  }

  function EnteredAt(ops: seq<Op>, first: Guest, n: nat): seq<Guest>
    requires n <= |ops|
  {
    if n == 0 then [first]
    else EnteredAt(ops, first, n - 1) + Enters(StateAt(ops, first, n - 1), ops[n - 1], EffectAt(ops, first, n - 1))
  }

  function LeftAt(ops: seq<Op>, first: Guest, n: nat): seq<Guest>
    requires n <= |ops|
  {
    if n == 0 then []
    else LeftAt(ops, first, n - 1) + Leaves(StateAt(ops, first, n - 1), ops[n - 1], EffectAt(ops, first, n - 1))
  }

  lemma NextKeepsOrder(s: State, op: Op)
    ensures var (t, effect) := Next(s, op); s.free + Enters(s, op, effect) == Leaves(s, op, effect) + t.free
  {
    var (t, effect) := Next(s, op);
    if s.free != [] { assert s.free == [s.free[0]] + s.free[1..]; }
    assert s.free + [] == s.free && [] + t.free == t.free;
    if effect.RanOn? { assert s.free == [] ==> s.free + [effect.guest] == [effect.guest]; }
  }

  /** Guests leave the queue in the order in which they entered it: those that entered are those that
      left, followed by those that are still there. */
  lemma {:induction false} QueueKeepsOrder(ops: seq<Op>, first: Guest, n: nat)
    requires n <= |ops|
    ensures EnteredAt(ops, first, n) == LeftAt(ops, first, n) + StateAt(ops, first, n).free
  {
    hide Next, Enters, Leaves;
    if n > 0 {
      QueueKeepsOrder(ops, first, n - 1);
      StateFollows(ops, first, n);
      var s, op, effect := StateAt(ops, first, n - 1), ops[n - 1], EffectAt(ops, first, n - 1);
      NextKeepsOrder(s, op);
      var left, free := LeftAt(ops, first, n - 1), StateAt(ops, first, n).free;
      assert left + s.free + Enters(s, op, effect) == left + (s.free + Enters(s, op, effect));
      assert left + (Leaves(s, op, effect) + free) == left + Leaves(s, op, effect) + free;
    }
  }

  // ----- calls outside the lock -----

  /** The function of a scheduling or initialisation call runs under the lock. A binding call only looks
      up its guest under the lock; its function then runs until CallEnds, in parallel with the rest. */
  datatype Event = Operation(op: Op) | CallEnds(pod: PodUID)

  datatype World = World(pool: State, running: map<PodUID, Guest>)

  function Advance(w: World, e: Event): World {
    match e
    case CallEnds(pod) => w.(running := w.running - {pod})
    case Operation(op) =>
      var (t, effect) := Next(w.pool, op);
      if op.GetForBinding? && effect.RanOn? then World(t, w.running[op.pod := effect.guest])
      else w.(pool := t)
  }

  /** The binding calls of one pod follow each other, and its cycle does not end during one of them. */
  predicate Sequential(w: World, e: Event) {
    e.Operation? && (e.op.GetForBinding? || e.op.FreeFromBinding?) ==> e.op.pod !in w.running
  }

  function WorldAt(es: seq<Event>, first: Guest, n: nat): World
    requires n <= |es|
  {
    if n == 0 then World(Initial(first), map[]) else Advance(WorldAt(es, first, n - 1), es[n - 1])
  }

  function GuestsAt(es: seq<Event>, first: Guest, n: nat): set<Guest>
    requires n <= |es|
  {
    if n == 0 then {first}
    else
      var before := GuestsAt(es, first, n - 1);
      if es[n - 1].CallEnds? then before else Created(WorldAt(es, first, n - 1).pool, es[n - 1].op, before)
  }

  /** The event may happen: binding calls are sequential per pod, and a created guest is new. */
  ghost predicate Allowed(w: World, e: Event, created: set<Guest>) {
    && Sequential(w, e)
    && (e.Operation? && Creates(w.pool, e.op) && e.op.made.Some? ==> e.op.made.value !in created)
  }

  ghost predicate Admissible(es: seq<Event>, first: Guest) {
    forall n | 0 <= n < |es| :: Allowed(WorldAt(es, first, n), es[n], GuestsAt(es, first, n))
  }

  /** A running binding call holds the guest its pod is bound to. */
  ghost predicate RunningIsBound(w: World) {
    forall p | p in w.running :: p in w.pool.binding && w.pool.binding[p] == w.running[p]
  }

  lemma AdvanceKeepsBound(w: World, e: Event)
    requires RunningIsBound(w) && Sequential(w, e)
    ensures RunningIsBound(Advance(w, e))
  {
  }

  lemma AdvanceConserves(w: World, e: Event, created: set<Guest>)
    requires Conserved(w.pool, created) && Allowed(w, e, created)
    ensures Conserved(Advance(w, e).pool, if e.CallEnds? then created else Created(w.pool, e.op, created))
  {
    hide Conserved, Creates, Created;
    if e.Operation? { NextConserves(w.pool, e.op, created); }
  }

  lemma {:induction false} WorldInvariant(es: seq<Event>, first: Guest, n: nat)
    requires Admissible(es, first) && n <= |es|
    ensures Conserved(WorldAt(es, first, n).pool, GuestsAt(es, first, n))
    ensures RunningIsBound(WorldAt(es, first, n))
  {
    hide Conserved, Allowed, RunningIsBound, Advance, Created;
    if n == 0 {
      InitialConserves(first);
      NothingRunning(Initial(first));
    } else {
      WorldInvariant(es, first, n - 1);
      var w := WorldAt(es, first, n - 1);
      AllowedSequential(w, es[n - 1], GuestsAt(es, first, n - 1));
      AdvanceKeepsBound(w, es[n - 1]);
      AdvanceConserves(w, es[n - 1], GuestsAt(es, first, n - 1));
    }
  }

  lemma NothingRunning(s: State)
    ensures RunningIsBound(World(s, map[]))
  {
  }

  lemma AllowedSequential(w: World, e: Event, created: set<Guest>)
    requires Allowed(w, e, created)
    ensures Sequential(w, e)
  {
  }

  /** In every run no function starts on a guest on which another one is still running. */
  lemma NoSharedGuest(es: seq<Event>, first: Guest, n: nat, p: PodUID)
    requires Admissible(es, first) && n < |es| && es[n].Operation?
    requires p in WorldAt(es, first, n).running
    ensures Next(WorldAt(es, first, n).pool, es[n].op).1 != RanOn(WorldAt(es, first, n).running[p])
  {
    WorldInvariant(es, first, n);
    var w, op := WorldAt(es, first, n), es[n].op;
    assert Allowed(w, es[n], GuestsAt(es, first, n));
    assert IsBound(w.pool.binding, w.running[p]);
  }

  // ----- the pool object -----

  class GuestPool {
    var scheduledPodUID: PodUID
    var scheduled: Option<Guest>
    var binding: map<PodUID, Guest>
    var free: seq<Guest>
    ghost var created: set<Guest>

    function View(): State
      reads this
    {
      State(scheduledPodUID, scheduled, binding, free)
    }

    ghost predicate Valid()
      reads this
    {
      Conserved(View(), created)
    }

    /** newGuestPool, once its first guest has been created. */
    constructor (g: Guest)
      ensures Valid() && View() == Initial(g) && created == {g}
    {
      scheduledPodUID, scheduled, binding, free, created := "", None, map[], [g], {g};
      new;
      InitialConserves(g);
    }

    /** newGuest is called at the point where made is used. */
    method DoWithGuest(made: Option<Guest>) returns (e: Effect)
      requires Valid()
      requires Creates(View(), WithGuest(made)) && made.Some? ==> made.value !in created
      modifies this
      ensures Valid() && created == Created(old(View()), WithGuest(made), old(created))
      ensures (View(), e) == Next(old(View()), WithGuest(made))
      ensures scheduledPodUID == "" && scheduled == None && binding == old(binding)
      ensures old(scheduled).Some? ==> e == RanOn(old(scheduled).value) && free == old(free) + [e.guest]
      ensures old(scheduled).None? && old(free) != [] ==> e == RanOn(old(free)[0]) && free == old(free)[1..] + [e.guest]
      ensures old(scheduled).None? && old(free) == [] ==>
        if made.Some? then e == RanOn(made.value) && free == [made.value] else e == Failed && free == []
    {
      NextConserves(View(), WithGuest(made), created);
      ghost var after := Created(View(), WithGuest(made), created);
      hide Conserved;
      scheduledPodUID := "";
      var g;
      if scheduled.Some? {
        g := scheduled.value;
        scheduled := None;
      } else if |free| > 0 {
        g := free[0];
        free := free[1..];
      } else if made.None? {
        return Failed;
      } else {
        g := made.value;
        assert free + [g] == [g];
      }
      created := after;
      Put(g);
      return RanOn(g);
    }

    method DoWithSchedulingGuest(pod: PodUID, made: Option<Guest>) returns (e: Effect)
      requires Valid()
      requires Creates(View(), Scheduling(pod, made)) && made.Some? ==> made.value !in created
      modifies this
      ensures Valid() && created == Created(old(View()), Scheduling(pod, made), old(created))
      ensures (View(), e) == Next(old(View()), Scheduling(pod, made))
      ensures scheduledPodUID == pod && binding == old(binding)
      ensures e.RanOn? ==> scheduled == Some(e.guest)
      ensures old(scheduled).Some? ==> e == RanOn(old(scheduled).value) && free == old(free)
      ensures old(scheduled).None? && old(free) != [] ==> e == RanOn(old(free)[0]) && free == old(free)[1..]
      ensures old(scheduled).None? && old(free) == [] ==>
        free == [] && if made.Some? then e == RanOn(made.value) else e == Failed && scheduled == None
    {
      NextConserves(View(), Scheduling(pod, made), created);
      ghost var after := Created(View(), Scheduling(pod, made), created);
      hide Conserved;
      scheduledPodUID := pod;
      if scheduled.Some? {
        return RanOn(scheduled.value);
      }
      if |free| > 0 {
        var g := free[0];
        free := free[1..];
        scheduled := Some(g);
        return RanOn(g);
      }
      if made.Some? {
        scheduled := made;
        created := after;
        return RanOn(made.value);
      }
      return Failed;
    }

    method GetForBindingCycle(pod: PodUID) returns (e: Effect)
      requires Valid()
      modifies this
      ensures Valid() && created == old(created)
      ensures (View(), e) == Next(old(View()), GetForBinding(pod))
      ensures free == old(free)
      ensures pod in old(binding) ==> e == RanOn(old(binding)[pod]) && View() == old(View())
      ensures pod !in old(binding) && old(scheduled).Some? ==>
        && e == RanOn(old(scheduled).value) && binding == old(binding)[pod := e.guest]
        && scheduled == None && scheduledPodUID == ""
      ensures pod !in old(binding) && old(scheduled).None? ==> e == Panicked && View() == old(View())
    {
      NextConserves(View(), GetForBinding(pod), created);
      hide Conserved;
      if pod in binding {
        return RanOn(binding[pod]);
      }
      if scheduled.Some? {
        var g := scheduled.value;
        scheduledPodUID := "";
        scheduled := None;
        binding := binding[pod := g];
        return RanOn(g);
      }
      return Panicked;
    }

    method FreeFromBindingCycle(pod: PodUID)
      requires Valid()
      modifies this
      ensures Valid() && created == old(created)
      ensures View() == Next(old(View()), FreeFromBinding(pod)).0
      ensures scheduledPodUID == old(scheduledPodUID) && scheduled == old(scheduled)
      ensures binding == old(binding) - {pod}
      ensures free == if pod in old(binding) then old(free) + [old(binding)[pod]] else old(free)
    {
      NextConserves(View(), FreeFromBinding(pod), created);
      hide Conserved;
      if pod in binding {
        var g := binding[pod];
        binding := binding - {pod};
        Put(g);
      }
    }

    /** Called under the lock, between states that are not observed. */
    method Put(g: Guest)
      modifies this`free
      ensures free == old(free) + [g]
    {
      free := free + [g];
    }
  }
}
