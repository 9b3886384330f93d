/** How the extension points of the plugin drive the guest pool, and what a pod's cycle sees of it when
    the scheduling framework calls them in its order. */
module WasmPlugins {
  import opened Options
  import opened GuestPools

  // ----- the framework's order of calls -----

  /** One pool operation of an extension point. The two halves of Permit, PostBind and Unreserve are
      separate steps: other goroutines may come between them. */
  datatype Step =
    | Initialise(made: Option<Guest>)                // EventsToRegister
    | Schedule(pod: PodUID, made: Option<Guest>)     // PreFilter to Reserve; the first half of Permit
    | Associate(pod: PodUID)                         // the second half of Permit
    | BindingCall(pod: PodUID)                       // PreBind, Bind, the first half of PostBind
    | UnreserveCall(pod: PodUID, made: Option<Guest>)
    | Release(pod: PodUID)                           // the deferred half of PostBind and Unreserve

  function OpOf(step: Step): Op {
    match step
    case Initialise(made) => WithGuest(made)
    case Schedule(pod, made) => Scheduling(pod, made)
    case Associate(pod) => GetForBinding(pod)
    case BindingCall(pod) => GetForBinding(pod)
    case UnreserveCall(pod, made) => Scheduling(pod, made)
    case Release(pod) => FreeFromBinding(pod)
  }

  /** What the framework knows: the pod in its scheduling cycle and the pods that have passed Permit. */
  datatype Framework = Framework(current: Option<PodUID>, bound: set<PodUID>)

  predicate InCycle(f: Framework, p: PodUID) {
    f.current == Some(p) || p in f.bound
  }

  /** A scheduling call may begin the cycle of another pod, which ends the current one; a pod passes
      Permit in its own scheduling cycle; binding calls are for pods that have passed it. */
  predicate InOrder(f: Framework, step: Step) {
    match step
    case Initialise(_) => true
    case Schedule(pod, _) => pod !in f.bound
    case Associate(pod) => f.current == Some(pod)
    case BindingCall(pod) => pod in f.bound
    case UnreserveCall(pod, _) => InCycle(f, pod)
    case Release(pod) => InCycle(f, pod)
  }

  function Proceed(f: Framework, step: Step, effect: Effect): Framework {
    match step
    case Initialise(_) => f.(current := None)
    case Schedule(pod, _) => f.(current := Some(pod))
    case Associate(pod) => if effect.RanOn? then Framework(None, f.bound + {pod}) else f
    case BindingCall(_) => f
    case UnreserveCall(_, _) => f
    case Release(pod) => Framework(if f.current == Some(pod) then None else f.current, f.bound - {pod})
  }

  function Ops(steps: seq<Step>): (ops: seq<Op>)
    ensures |ops| == |steps| && forall i | 0 <= i < |steps| :: ops[i] == OpOf(steps[i])
  {
    seq(|steps|, i requires 0 <= i < |steps| => OpOf(steps[i]))
  }

  function PoolAt(steps: seq<Step>, first: Guest, n: nat): State
    requires n <= |steps|
  {
    StateAt(Ops(steps), first, n)
  }

  function Ran(steps: seq<Step>, first: Guest, n: nat): Effect
    requires n < |steps|
  {
    EffectAt(Ops(steps), first, n)
  }

  function FrameworkAt(steps: seq<Step>, first: Guest, n: nat): Framework
    requires n <= |steps|
  {
    if n == 0 then Framework(None, {})
    else Proceed(FrameworkAt(steps, first, n - 1), steps[n - 1], Ran(steps, first, n - 1))
  }

  ghost predicate Orderly(steps: seq<Step>, first: Guest) {
    && FreshGuests(Ops(steps), first)
    && forall n | 0 <= n < |steps| :: InOrder(FrameworkAt(steps, first, n), steps[n])
  }

  /** The pods that the pool has bound are the ones that have passed Permit. */
  predicate Agree(f: Framework, s: State) {
    f.bound == s.binding.Keys && (f.current.Some? ==> f.current.value !in f.bound)
  }

  lemma ProceedAgrees(f: Framework, s: State, step: Step)
    requires Agree(f, s) && InOrder(f, step)
    ensures Agree(Proceed(f, step, Next(s, OpOf(step)).1), Next(s, OpOf(step)).0)
  {
    if step.Release? && step.pod in s.binding {
      assert (s.binding - {step.pod}).Keys == s.binding.Keys - {step.pod};
    }
  }

  lemma {:induction false} OrderlyRunAgrees(steps: seq<Step>, first: Guest, n: nat)
    requires Orderly(steps, first) && n <= |steps|
    ensures Agree(FrameworkAt(steps, first, n), PoolAt(steps, first, n))
  {
    hide Next, Agree, InOrder, Proceed, FreshGuests, OpOf, Ops;
    if n == 0 {
      StartAgrees(first);
    } else {
      OrderlyRunAgrees(steps, first, n - 1);
      ProceedAgrees(FrameworkAt(steps, first, n - 1), PoolAt(steps, first, n - 1), steps[n - 1]);
    }
  }

  lemma StartAgrees(first: Guest)
    ensures Agree(Framework(None, {}), Initial(first))
  {
  }

  /** A step of the framework that does not end p's cycle never takes p's guest away. */
  lemma OrderKeepsGuest(f: Framework, s: State, p: PodUID, step: Step)
    requires Agree(f, s) && InOrder(f, step)
    requires InCycle(f, p) && InCycle(Proceed(f, step, Next(s, OpOf(step)).1), p)
    ensures !Intrudes(s, p, OpOf(step))
  {
  }

  /** A call made for p in its own cycle, other than the one of Unreserve. */
  predicate CallFor(step: Step, p: PodUID) {
    (step.Schedule? || step.Associate? || step.BindingCall?) && step.pod == p
  }

  lemma CallForServes(f: Framework, s: State, p: PodUID, g: Guest, step: Step)
    requires Agree(f, s) && InOrder(f, step) && CallFor(step, p)
    ensures Serves(s, p, g) ==> Next(s, OpOf(step)).1 == RanOn(g)
    ensures Next(s, OpOf(step)).1 == RanOn(g) ==> Serves(Next(s, OpOf(step)).0, p, g)
  {
  }

  /** All calls for a pod from its first scheduling call through Permit, PreBind, Bind and PostBind run
      on one guest, whatever the framework does for other pods in between. */
  lemma CycleRunsOnOneGuest(steps: seq<Step>, first: Guest, i: nat, j: nat, p: PodUID, g: Guest)
    requires Orderly(steps, first) && i < j < |steps|
    requires CallFor(steps[i], p) && CallFor(steps[j], p)
    requires forall k | i < k <= j :: InCycle(FrameworkAt(steps, first, k), p)
    requires Ran(steps, first, i) == RanOn(g)
    ensures Ran(steps, first, j) == RanOn(g)
  {
    hide InOrder, Next, Agree, InCycle, CallFor, OpOf, Ops, Serves, FrameworkAt, FreshGuests;
    CycleServes(steps, first, i, j, p, g);
    OrderlyRunAgrees(steps, first, j);
    CallForServes(FrameworkAt(steps, first, j), PoolAt(steps, first, j), p, g, steps[j]);
  }

  lemma {:induction false} CycleServes(steps: seq<Step>, first: Guest, i: nat, j: nat, p: PodUID, g: Guest)
    requires Orderly(steps, first) && i < j <= |steps| && CallFor(steps[i], p)
    requires forall k | i < k <= j :: InCycle(FrameworkAt(steps, first, k), p)
    requires Ran(steps, first, i) == RanOn(g)
    ensures Serves(PoolAt(steps, first, j), p, g)
    decreases j
  {
    hide InOrder, Next, Agree, InCycle, CallFor, OpOf, Ops, Serves, Intrudes, Conserved, FreshGuests, Proceed;
    var f, s := FrameworkAt(steps, first, j - 1), PoolAt(steps, first, j - 1);
    assert InCycle(FrameworkAt(steps, first, j), p);
    OrderlyRunAgrees(steps, first, j - 1);
    if i + 1 == j {
      CallForServes(f, s, p, g, steps[i]);
    } else {
      CycleServes(steps, first, i, j - 1, p, g);
      RunConserves(Ops(steps), first, j - 1);
      OrderKeepsGuest(f, s, p, steps[j - 1]);
      ServesUntilIntrusion(s, p, g, OpOf(steps[j - 1]), CreatedAt(Ops(steps), first, j - 1));
    }
  }

  // ----- the plugin object -----

  /** The points that the plugin calls only if the guest exports them. */
  datatype Optional = EnqueueExtensions | PreFilterExtensions | PreFilterPlugin | PostFilterPlugin | PreScorePlugin
    | ScoreExtensions | PreBindPlugin | PostBindPlugin

  /** The extension points up to Reserve that run on the scheduling guest. */
  datatype SchedulingPoint = AddPod | RemovePod | PreFilter | Filter | PostFilter | PreScore | Score
    | NormalizeScore | Reserve

  /** What a guest must export for the point to be called; None if the plugin does not ask. */
  function Needs(point: SchedulingPoint): Option<Optional> {
    match point
    case AddPod | RemovePod => Some(PreFilterExtensions)
    case PreFilter => Some(PreFilterPlugin)
    case PostFilter => Some(PostFilterPlugin)
    case PreScore => Some(PreScorePlugin)
    case NormalizeScore => Some(ScoreExtensions)
    case Filter | Score | Reserve => None
  }

  /** newGuest yields a guest that does not exist yet, if the operation needs one. */
  ghost predicate NewIfCreated(pool: GuestPool, op: Op)
    reads pool
  {
    Creates(pool.View(), op) && op.made.Some? ==> op.made.value !in pool.created
  }

  /** Results: the effect of the guest's function, Done if the point is not called. */
  class WasmPlugin {
    const pool: GuestPool
    const guestInterfaces: set<Optional>

    constructor (pool: GuestPool, guestInterfaces: set<Optional>)
      ensures this.pool == pool && this.guestInterfaces == guestInterfaces
    {
      this.pool, this.guestInterfaces := pool, guestInterfaces;
    }

    method EventsToRegister(made: Option<Guest>) returns (e: Effect)
      requires pool.Valid() && NewIfCreated(pool, WithGuest(made))
      modifies pool
      ensures pool.Valid() && pool.binding == old(pool.binding)
      ensures e == Done <==> EnqueueExtensions !in guestInterfaces
      ensures e != Done && old(pool.scheduled).Some? ==>
        e == RanOn(old(pool.scheduled).value) && pool.free == old(pool.free) + [e.guest]
      ensures e != Done && old(pool.scheduled).None? && old(pool.free) != [] ==>
        e == RanOn(old(pool.free)[0]) && pool.free == old(pool.free)[1..] + [e.guest]
      ensures e != Done ==> pool.scheduled == None
      ensures if EnqueueExtensions in guestInterfaces then (pool.View(), e) == Next(old(pool.View()), WithGuest(made))
              else (pool.View(), e) == (old(pool.View()), Done)
    {
      if EnqueueExtensions !in guestInterfaces {
        return Done;
      }
      e := pool.DoWithGuest(made);
    }

    /** The points of the scheduling cycle leave the pod's guest in the slot. */
    method RunScheduling(point: SchedulingPoint, pod: PodUID, made: Option<Guest>) returns (e: Effect)
      requires pool.Valid() && NewIfCreated(pool, Scheduling(pod, made))
      modifies pool
      ensures pool.Valid() && pool.binding == old(pool.binding)
      ensures e.RanOn? ==> pool.scheduled == Some(e.guest)
      ensures e != Done <==> match point
        case Filter | Score | Reserve => true
        case PreFilter => PreFilterPlugin in guestInterfaces
        case AddPod | RemovePod => PreFilterExtensions in guestInterfaces
        case PostFilter => PostFilterPlugin in guestInterfaces
        case PreScore => PreScorePlugin in guestInterfaces
        case NormalizeScore => ScoreExtensions in guestInterfaces
      ensures e != Done && old(pool.scheduled).Some? ==> e == RanOn(old(pool.scheduled).value) && pool.free == old(pool.free)
      ensures e != Done && old(pool.scheduled).None? && old(pool.free) != [] ==>
        e == RanOn(old(pool.free)[0]) && pool.free == old(pool.free)[1..]
      ensures var need := Needs(point);
              if need.None? || need.value in guestInterfaces
              then (pool.View(), e) == Next(old(pool.View()), Scheduling(pod, made))
              else (pool.View(), e) == (old(pool.View()), Done)
    {
      var need := Needs(point);
      if need.Some? && need.value !in guestInterfaces {
        return Done;
      }
      e := pool.DoWithSchedulingGuest(pod, made);
    }

    /** Permit runs on the scheduling guest and then binds one: the same, unless the pod is bound already. */
    method Permit(pod: PodUID, made: Option<Guest>) returns (e: Effect, bound: Effect)
      requires pool.Valid() && NewIfCreated(pool, Scheduling(pod, made))
      modifies pool
      ensures pool.Valid() && bound != Done && bound != Failed
      ensures (pool.View(), bound) == Next(Next(old(pool.View()), Scheduling(pod, made)).0, GetForBinding(pod))
      ensures e == Next(old(pool.View()), Scheduling(pod, made)).1
      ensures bound.RanOn? ==> pod in pool.binding && pool.binding[pod] == bound.guest
      ensures pod !in old(pool.binding) ==> if e.RanOn? then bound == e && pool.scheduled == None else bound == Panicked
    {
      e := pool.DoWithSchedulingGuest(pod, made);
      bound := pool.GetForBindingCycle(pod);
    }

    method PreBind(pod: PodUID) returns (e: Effect)
      requires pool.Valid()
      modifies pool
      ensures pool.Valid()
      ensures pod in old(pool.binding) ==> pool.View() == old(pool.View())
      ensures if PreBindPlugin in guestInterfaces then (pool.View(), e) == Next(old(pool.View()), GetForBinding(pod))
              else (pool.View(), e) == (old(pool.View()), Done)
    {
      if PreBindPlugin !in guestInterfaces {
        return Done;
      }
      e := pool.GetForBindingCycle(pod);
    }

    method Bind(pod: PodUID) returns (e: Effect)
      requires pool.Valid()
      modifies pool
      ensures pool.Valid()
      ensures pod in old(pool.binding) ==> pool.View() == old(pool.View())
      ensures (pool.View(), e) == Next(old(pool.View()), GetForBinding(pod))
    {
      e := pool.GetForBindingCycle(pod);
    }

    /** A guest that does not export PostBind is never released here: a bound pod keeps it. */
    method PostBind(pod: PodUID) returns (e: Effect)
      requires pool.Valid()
      modifies pool
      ensures pool.Valid()
      ensures PostBindPlugin !in guestInterfaces ==> pool.View() == old(pool.View()) && e == Done
      ensures PostBindPlugin in guestInterfaces && pod in old(pool.binding) ==>
        && e == RanOn(old(pool.binding[pod]))
        && pool.binding == old(pool.binding) - {pod}
        && pool.free == old(pool.free) + [e.guest]
        && pool.scheduled == old(pool.scheduled) && pool.scheduledPodUID == old(pool.scheduledPodUID)
      ensures PostBindPlugin in guestInterfaces && pod !in old(pool.binding) && old(pool.scheduled).Some? ==>
        && e == RanOn(old(pool.scheduled).value)
        && pool.View() == State("", None, old(pool.binding), old(pool.free) + [e.guest])
      ensures PostBindPlugin in guestInterfaces && pod !in old(pool.binding) && old(pool.scheduled).None? ==>
        e == Panicked && pool.View() == old(pool.View())
    {
      if PostBindPlugin !in guestInterfaces {
        return Done;
      }
      e := pool.GetForBindingCycle(pod);
      pool.FreeFromBindingCycle(pod);
      assert pod !in old(pool.binding) ==> pool.binding == old(pool.binding);
    }

    /** Unreserve runs on the scheduling guest, also for a pod that is bound to another one. */
    method Unreserve(pod: PodUID, made: Option<Guest>) returns (e: Effect)
      requires pool.Valid() && NewIfCreated(pool, Scheduling(pod, made))
      modifies pool
      ensures pool.Valid() && pod !in pool.binding
      ensures pool.View() == Next(Next(old(pool.View()), Scheduling(pod, made)).0, FreeFromBinding(pod)).0
      ensures e == Next(old(pool.View()), Scheduling(pod, made)).1
      ensures pod in old(pool.binding) ==> e != RanOn(old(pool.binding[pod]))
    {
      ghost var s := pool.View();
      if pod in pool.binding { UnreserveMissesBoundGuest(s, pod, MadeIfCreated(s, pod, made), pool.created); }
      e := pool.DoWithSchedulingGuest(pod, made);
      pool.FreeFromBindingCycle(pod);
    }
  }

  /** made matters only if the operation creates a guest. */
  function MadeIfCreated(s: State, pod: PodUID, made: Option<Guest>): (m: Option<Guest>)
    ensures Next(s, Scheduling(pod, m)) == Next(s, Scheduling(pod, made))
  {
    if Creates(s, Scheduling(pod, made)) then made else None
  }
}
