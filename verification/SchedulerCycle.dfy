/**
 The scheduler's whole state and one selection cycle over all routes
 (engine.py, _set_planned_evaluations and _select_evaluation_window).
 */
module SchedulerCycle {
  import opened Collections
  import opened SchedulerTypes
  import opened SchedulerRoute
  import opened SchedulerAllocation
  import opened SchedulerInterleave

  // ---------- Grouping a plan by route ----------

  /** The routes of a plan in order of first appearance. */
  function RouteOrder(evs: seq<Evaluation>): (r: seq<Route>)
    ensures |r| <= |evs| && (evs != [] ==> r != [])
  {
    if evs == [] then []
    else
      var front := RouteOrder(evs[..|evs| - 1]);
      var route := evs[|evs| - 1].route;
      if route in front then front else front + [route]
  }

  /** The evaluations of one route, in plan order. */
  function RouteEvs(evs: seq<Evaluation>, route: Route): (r: seq<Evaluation>)
    ensures |r| <= |evs|
  {
    if evs == [] then []
    else
      var front := RouteEvs(evs[..|evs| - 1], route);
      if evs[|evs| - 1].route == route then front + [evs[|evs| - 1]] else front
  }

  lemma {:induction false} RouteEvsMembers(evs: seq<Evaluation>, route: Route, e: Evaluation)
    ensures e in RouteEvs(evs, route) <==> e in evs && e.route == route
  {
    if evs != [] {
      RouteEvsMembers(evs[..|evs| - 1], route, e);
      assert evs == evs[..|evs| - 1] + [evs[|evs| - 1]];
    }
  }

  lemma {:induction false} RouteOrderFacts(evs: seq<Evaluation>)
    ensures Distinct(RouteOrder(evs))
    ensures forall r :: r in RouteOrder(evs) <==> exists e <- evs :: e.route == r
    ensures forall r :: r in RouteOrder(evs) <==> RouteEvs(evs, r) != []
  {
    if evs != [] {
      RouteOrderFacts(evs[..|evs| - 1]);
      assert evs == evs[..|evs| - 1] + [evs[|evs| - 1]];
    }
  }

  /** Within each route the evaluations have pairwise different targets. */
  ghost predicate DistinctPlan(evs: seq<Evaluation>) {
    forall i, j :: 0 <= i < j < |evs| && evs[i].route == evs[j].route ==> evs[i].targets != evs[j].targets
  }

  lemma {:induction false} DistinctRouteEvs(evs: seq<Evaluation>, route: Route)
    requires DistinctPlan(evs)
    ensures DistinctKeys(RouteEvs(evs, route))
  {
    if evs != [] {
      var front, last := evs[..|evs| - 1], evs[|evs| - 1];
      DistinctRouteEvs(front, route);
      if last.route == route {
        forall e | e in RouteEvs(front, route)
          ensures e.targets != last.targets
        {
          RouteEvsMembers(front, route, e);
        }
      }
    }
  }

  // ---------- State ----------

  datatype Sched = Sched(
    cursors: map<Route, nat>,
    activeCursors: map<Route, nat>,
    routeCursor: nat,
    heldKeys: map<Route, seq<Key>>,
    held: map<Route, seq<Evaluation>>,
    deadlines: map<Route, real>,
    recent: RecentTable,
    planned: seq<Evaluation>)

  const INITIAL := Sched(map[], map[], 0, map[], map[], map[], map[], [])

  /** Assigns the entry, or pops it when there is nothing to assign. */
  function Store<V>(m: map<Route, V>, route: Route, value: Option<V>): map<Route, V> {
    match value
    case Some(v) => m[route := v]
    case None => m - {route}
  }

  function View(s: Sched, route: Route): RouteState {
    RouteState(Lookup(s.cursors, route), Lookup(s.activeCursors, route), Lookup(s.heldKeys, route),
               Lookup(s.held, route), Lookup(s.deadlines, route))
  }

  function Put(s: Sched, route: Route, rs: RouteState): Sched {
    s.(cursors := Store(s.cursors, route, rs.cursor),
       activeCursors := Store(s.activeCursors, route, rs.activeCursor),
       heldKeys := Store(s.heldKeys, route, rs.keys),
       held := Store(s.held, route, rs.held),
       deadlines := Store(s.deadlines, route, rs.deadline))
  }

  /** _set_planned_evaluations; `same` says the plan is the very object already installed. */
  function SetPlanned(s: Sched, evs: seq<Evaluation>, same: bool): Sched {
    if same then s.(planned := evs) else s.(planned := evs, held := map[])
  }

  /** _mark_recent_executable */
  function MarkRecent(s: Sched, route: Route, key: Key, netSpread: real, at: real): Sched {
    s.(recent := s.recent[(route, key) := Observation(at, netSpread)])
  }

  // ---------- One cycle ----------

  function Limits(cfg: Config, evs: seq<Evaluation>, routes: seq<Route>): (r: seq<nat>)
    ensures |r| == |routes|
  {
    seq(|routes|, i requires 0 <= i < |routes| => Min(|RouteEvs(evs, routes[i])|, cfg.CapFor(routes[i])))
  }

  function Weights(cfg: Config, routes: seq<Route>): (r: seq<nat>)
    ensures |r| == |routes|
  {
    seq(|routes|, i requires 0 <= i < |routes| => cfg.WeightFor(routes[i]))
  }

  function SlotMap(routes: seq<Route>, slots: seq<nat>): (m: map<Route, nat>)
    requires |slots| == |routes|
    ensures forall r :: r in m <==> r in routes
  {
    map r | r in routes :: slots[IndexOf(routes, r)]
  }

  function PlanKeys(evs: seq<Evaluation>): set<(Route, Key)> {
    set e | e in evs :: (e.route, e.targets)
  }

  predicate KeepObservation(cfg: Config, evs: seq<Evaluation>, now: real, key: (Route, Key), o: Observation) {
    && cfg.PriorityFor(key.0) > 0.0
    && key in PlanKeys(evs)
    && now - o.observedAt <= cfg.PriorityFor(key.0)
  }

  function KeepRoutes<V>(m: map<Route, V>, routes: set<Route>): map<Route, V> {
    m - (m.Keys - routes)
  }

  /** Forgets departed routes and expired or unplanned observations. */
  function Prune(cfg: Config, s: Sched, evs: seq<Evaluation>, routes: set<Route>, now: real): Sched {
    s.(cursors := KeepRoutes(s.cursors, routes),
       activeCursors := KeepRoutes(s.activeCursors, routes),
       heldKeys := KeepRoutes(s.heldKeys, routes),
       held := KeepRoutes(s.held, routes),
       deadlines := KeepRoutes(s.deadlines, routes),
       recent := map k | k in s.recent && KeepObservation(cfg, evs, now, k, s.recent[k]) :: s.recent[k])
  }

  datatype Stepped = Stepped(state: Sched, targets: map<Route, seq<Evaluation>>, actives: map<Route, seq<Evaluation>>)

  function StepRoutes(cfg: Config, s: Sched, evs: seq<Evaluation>, slots: map<Route, nat>, routes: seq<Route>,
                      now: real, reuse: bool): Stepped
    requires forall route <- routes :: route in slots
  {
    if routes == [] then Stepped(s, map[], map[])
    else
      var front := StepRoutes(cfg, s, evs, slots, routes[..|routes| - 1], now, reuse);
      var route := routes[|routes| - 1];
      var step := RouteStep(cfg, front.state.recent, route, RouteEvs(evs, route), slots[route], now, reuse,
                            View(front.state, route));
      Stepped(Put(front.state, route, step.state), front.targets[route := step.target],
              front.actives[route := step.active])
  }

  function ListsOf(lists: map<Route, seq<Evaluation>>, routes: seq<Route>): (r: seq<seq<Evaluation>>)
    ensures |r| == |routes|
  {
    seq(|routes|, i requires 0 <= i < |routes| => if routes[i] in lists then lists[routes[i]] else [])
  }

  function Budget(evs: seq<Evaluation>, limit: int): nat {
    Min(Max(1, limit), |evs|)
  }

  /** The routes in this cycle's visiting order. */
  function Ordered(s: Sched, evs: seq<Evaluation>): (r: seq<Route>)
    requires evs != []
  {
    Rotate(RouteOrder(evs), s.routeCursor % |RouteOrder(evs)|)
  }

  function CycleSlots(cfg: Config, s: Sched, evs: seq<Evaluation>, limit: int): (r: seq<nat>)
    requires evs != []
    ensures |r| == |Ordered(s, evs)|
  {
    Allocate(Limits(cfg, evs, Ordered(s, evs)), Weights(cfg, Ordered(s, evs)), Budget(evs, limit))
  }

  /** The state in which the route loop of a cycle starts. */
  function CycleStart(cfg: Config, s: Sched, evs: seq<Evaluation>, now: real): Sched
    requires evs != []
  {
    var routes := RouteOrder(evs);
    Prune(cfg, s.(routeCursor := (s.routeCursor % |routes| + 1) % |routes|), evs, (set r | r in routes), now)
  }

  lemma OrderedMembers(s: Sched, evs: seq<Evaluation>)
    requires evs != []
    ensures |Ordered(s, evs)| == |RouteOrder(evs)| && Distinct(Ordered(s, evs))
    ensures forall r :: r in Ordered(s, evs) <==> r in RouteOrder(evs)
  {
    RouteOrderFacts(evs);
    RotateDistinct(RouteOrder(evs), s.routeCursor % |RouteOrder(evs)|);
    forall r
      ensures r in Ordered(s, evs) <==> r in RouteOrder(evs)
    {
      assert r in Ordered(s, evs) <==> r in multiset(Ordered(s, evs));
      assert r in RouteOrder(evs) <==> r in multiset(RouteOrder(evs));
    }
  }

  function CycleSteps(cfg: Config, s: Sched, evs: seq<Evaluation>, reuse: bool, limit: int, now: real): Stepped
    requires evs != []
  {
    OrderedMembers(s, evs);
    StepRoutes(cfg, CycleStart(cfg, s, evs, now), evs, SlotMap(Ordered(s, evs), CycleSlots(cfg, s, evs, limit)),
               RouteOrder(evs), now, reuse)
  }

  datatype Selection = Selection(state: Sched, active: seq<Evaluation>, target: seq<Evaluation>)

  /** _select_evaluation_window; `reuse` says the argument is the installed plan itself. */
  function Select(cfg: Config, s: Sched, evs: seq<Evaluation>, reuse: bool, limit: int, now: real): Selection {
    if evs == [] then Selection(INITIAL.(planned := s.planned), [], [])
    else
      var steps := CycleSteps(cfg, s, evs, reuse, limit, now);
      var ordered := Ordered(s, evs);
      var targets := ListsOf(steps.targets, ordered);
      Selection(steps.state, Interleave(ListsOf(steps.actives, ordered)), Flatten(targets, |targets|))
  }

  // ---------- Projecting a cycle onto one route ----------

  lemma PutView(s: Sched, route: Route, rs: RouteState)
    ensures View(Put(s, route, rs), route) == rs
    ensures forall r :: r != route ==> View(Put(s, route, rs), r) == View(s, r)
  {
  }

  lemma StepRoutesLast(cfg: Config, s: Sched, evs: seq<Evaluation>, slots: map<Route, nat>, front: seq<Route>,
                       route: Route,
                       now: real, reuse: bool)
    requires route in slots && forall r <- front :: r in slots
    ensures forall r <- front + [route] :: r in slots
    ensures var before := StepRoutes(cfg, s, evs, slots, front, now, reuse);
            var out := StepRoutes(cfg, s, evs, slots, front + [route], now, reuse);
            var step := RouteStep(cfg, before.state.recent, route, RouteEvs(evs, route), slots[route], now, reuse,
                                  View(before.state, route));
            && out.state == Put(before.state, route, step.state)
            && out.targets == before.targets[route := step.target]
            && out.actives == before.actives[route := step.active]
  {
    assert (front + [route])[..|front + [route]| - 1] == front;
  }

  lemma {:induction false} StepRoutesProject(cfg: Config, s: Sched, evs: seq<Evaluation>, slots: map<Route, nat>,
                                             routes: seq<Route>, now: real, reuse: bool, r: Route)
    requires forall route <- routes :: route in slots
    requires Distinct(routes)
    ensures var out := StepRoutes(cfg, s, evs, slots, routes, now, reuse);
            && out.state.recent == s.recent && out.state.planned == s.planned && out.state.routeCursor == s.routeCursor
            && (r !in routes ==> View(out.state, r) == View(s, r))
            && (r in routes ==>
                  var step := RouteStep(cfg, s.recent, r, RouteEvs(evs, r), slots[r], now, reuse, View(s, r));
                  && View(out.state, r) == step.state
                  && r in out.targets && out.targets[r] == step.target
                  && r in out.actives && out.actives[r] == step.active)
  {
    if routes != [] {
      var front, route := routes[..|routes| - 1], routes[|routes| - 1];
      assert routes == front + [route];
      StepRoutesProject(cfg, s, evs, slots, front, now, reuse, r);
      StepRoutesLast(cfg, s, evs, slots, front, route, now, reuse);
      var before := StepRoutes(cfg, s, evs, slots, front, now, reuse);
      var step := RouteStep(cfg, before.state.recent, route, RouteEvs(evs, route), slots[route], now, reuse,
                            View(before.state, route));
      PutView(before.state, route, step.state);
    }
  }

  /** The state of route `r` when the route loop reaches it. */
  function Before(cfg: Config, s: Sched, evs: seq<Evaluation>, now: real, r: Route): RouteState
    requires evs != []
  {
    View(CycleStart(cfg, s, evs, now), r)
  }

  function SlotsOf(cfg: Config, s: Sched, evs: seq<Evaluation>, limit: int, r: Route): nat
    requires evs != [] && r in RouteOrder(evs)
  {
    OrderedMembers(s, evs);
    CycleSlots(cfg, s, evs, limit)[IndexOf(Ordered(s, evs), r)]
  }

  /** What a cycle does to one planned route is RouteStep on that route's own state. */
  function StepOf(cfg: Config, s: Sched, evs: seq<Evaluation>, reuse: bool, limit: int, now: real,
                  r: Route): RouteStepped
    requires evs != [] && r in RouteOrder(evs)
  {
    RouteStep(cfg, CycleStart(cfg, s, evs, now).recent, r, RouteEvs(evs, r), SlotsOf(cfg, s, evs, limit, r), now, reuse,
              View(s, r))
  }

  const GONE := RouteState(None, None, None, None, None)

  lemma PruneView(cfg: Config, s: Sched, evs: seq<Evaluation>, routes: set<Route>, now: real, r: Route)
    ensures View(Prune(cfg, s, evs, routes, now), r) == if r in routes then View(s, r) else GONE
  {
  }

  lemma PruneFrame(cfg: Config, s: Sched, evs: seq<Evaluation>, routes: set<Route>, now: real)
    ensures var p := Prune(cfg, s, evs, routes, now);
            p.planned == s.planned && p.routeCursor == s.routeCursor
  {
  }

  lemma CycleProject(cfg: Config, s: Sched, evs: seq<Evaluation>, reuse: bool, limit: int, now: real, r: Route)
    requires evs != []
    ensures var out := Select(cfg, s, evs, reuse, limit, now);
            var steps := CycleSteps(cfg, s, evs, reuse, limit, now);
            && out.state == steps.state
            && out.state.planned == s.planned
            && out.state.routeCursor == (s.routeCursor % |RouteOrder(evs)| + 1) % |RouteOrder(evs)|
            && (r !in RouteOrder(evs) ==> View(out.state, r) == GONE)
            && (r in RouteOrder(evs) ==>
                  var step := StepOf(cfg, s, evs, reuse, limit, now, r);
                  && View(out.state, r) == step.state
                  && r in steps.targets && steps.targets[r] == step.target
                  && r in steps.actives && steps.actives[r] == step.active)
  {
    hide RouteStep, StepRoutes, Interleave, Flatten, ListsOf, Allocate, Prune, Lookup;
    var routes, ordered := RouteOrder(evs), Ordered(s, evs);
    RouteOrderFacts(evs);
    OrderedMembers(s, evs);
    var start := CycleStart(cfg, s, evs, now);
    var rotated := s.(routeCursor := (s.routeCursor % |routes| + 1) % |routes|);
    PruneView(cfg, rotated, evs, (set x | x in routes), now, r);
    PruneFrame(cfg, rotated, evs, (set x | x in routes), now);
    var slots := SlotMap(ordered, CycleSlots(cfg, s, evs, limit));
    StepRoutesProject(cfg, start, evs, slots, routes, now, reuse, r);
    assert CycleSteps(cfg, s, evs, reuse, limit, now) == StepRoutes(cfg, start, evs, slots, routes, now, reuse);
    if r in routes {
      assert slots[r] == SlotsOf(cfg, s, evs, limit, r);
    }
  }

  lemma WeightsPositive(cfg: Config, routes: seq<Route>)
    requires cfg.Valid()
    ensures forall i :: 0 <= i < |routes| ==> Weights(cfg, routes)[i] >= 1
  {
  }

  lemma LimitsPositive(cfg: Config, evs: seq<Evaluation>, routes: seq<Route>)
    requires cfg.Valid() && forall r <- routes :: RouteEvs(evs, r) != []
    ensures forall i :: 0 <= i < |routes| ==> Limits(cfg, evs, routes)[i] >= 1
  {
    forall i | 0 <= i < |routes|
      ensures Limits(cfg, evs, routes)[i] >= 1
    {
      assert routes[i] in routes;
    }
  }

  lemma SlotBounds(cfg: Config, s: Sched, evs: seq<Evaluation>, limit: int, r: Route)
    requires cfg.Valid() && evs != [] && r in RouteOrder(evs)
    ensures SlotsOf(cfg, s, evs, limit, r) <= Min(|RouteEvs(evs, r)|, cfg.CapFor(r))
  {
    hide Allocate, RouteOrder;
    OrderedMembers(s, evs);
    var ordered := Ordered(s, evs);
    var limits, weights := Limits(cfg, evs, ordered), Weights(cfg, ordered);
    WeightsPositive(cfg, ordered);
    AllocateExact(limits, weights, Budget(evs, limit));
    var i := IndexOf(ordered, r);
    assert Allocate(limits, weights, Budget(evs, limit))[i] <= limits[i];
  }

  // ---------- The scheduler invariant ----------

  ghost predicate CacheCoherent(s: Sched) {
    forall r :: Coherent(View(s, r), RouteEvs(s.planned, r))
  }

  ghost predicate Inv(s: Sched) {
    DistinctPlan(s.planned) && CacheCoherent(s)
  }

  lemma RouteExact(cfg: Config, s: Sched, evs: seq<Evaluation>, reuse: bool, limit: int, now: real, r: Route)
    requires cfg.Valid() && evs != [] && DistinctPlan(evs) && r in RouteOrder(evs)
    requires reuse ==> evs == s.planned && CacheCoherent(s)
    ensures var step := StepOf(cfg, s, evs, reuse, limit, now, r);
            var slots := SlotsOf(cfg, s, evs, limit, r);
            && |step.active| == slots <= Min(|RouteEvs(evs, r)|, cfg.CapFor(r))
            && |step.target| == PrefetchCount(cfg, r, RouteEvs(evs, r), slots)
            && DistinctKeys(step.active) && DistinctKeys(step.target)
            && Within(step.active, step.target) && Within(step.target, RouteEvs(evs, r))
            && (reuse ==> Coherent(step.state, RouteEvs(evs, r)))
  {
    SlotBounds(cfg, s, evs, limit, r);
    DistinctRouteEvs(evs, r);
    RouteStepExact(cfg, CycleStart(cfg, s, evs, now).recent, r, RouteEvs(evs, r), SlotsOf(cfg, s, evs, limit, r), now,
                   reuse, View(s, r));
  }

  // ---------- Main result: exactly the budget, no repeats, caps, active within target ----------

  function Capacity(cfg: Config, evs: seq<Evaluation>): nat {
    Sum(Limits(cfg, evs, RouteOrder(evs)))
  }

  lemma LimitsRotate(cfg: Config, evs: seq<Evaluation>, routes: seq<Route>, k: nat)
    requires k <= |routes|
    ensures Limits(cfg, evs, Rotate(routes, k)) == Rotate(Limits(cfg, evs, routes), k)
  {
  }

  lemma SumOfCycleSlots(cfg: Config, s: Sched, evs: seq<Evaluation>, limit: int)
    requires cfg.Valid() && evs != []
    ensures Sum(CycleSlots(cfg, s, evs, limit)) == Min(Budget(evs, limit), Capacity(cfg, evs))
  {
    var routes, ordered := RouteOrder(evs), Ordered(s, evs);
    var k := s.routeCursor % |routes|;
    WeightsPositive(cfg, ordered);
    AllocateExact(Limits(cfg, evs, ordered), Weights(cfg, ordered), Budget(evs, limit));
    LimitsRotate(cfg, evs, routes, k);
    SumRotate(Limits(cfg, evs, routes), k);
  }

  lemma IndexOfDistinct<T>(xs: seq<T>, i: nat)
    requires Distinct(xs) && i < |xs|
    ensures IndexOf(xs, xs[i]) == i
  {
  }

  function ActiveLists(cfg: Config, s: Sched, evs: seq<Evaluation>, reuse: bool, limit: int,
                       now: real): (r: seq<seq<Evaluation>>)
    requires evs != []
    ensures |r| == |Ordered(s, evs)|
  {
    ListsOf(CycleSteps(cfg, s, evs, reuse, limit, now).actives, Ordered(s, evs))
  }

  function TargetLists(cfg: Config, s: Sched, evs: seq<Evaluation>, reuse: bool, limit: int,
                       now: real): (r: seq<seq<Evaluation>>)
    requires evs != []
    ensures |r| == |Ordered(s, evs)|
  {
    ListsOf(CycleSteps(cfg, s, evs, reuse, limit, now).targets, Ordered(s, evs))
  }

  lemma ListAt(cfg: Config, s: Sched, evs: seq<Evaluation>, reuse: bool, limit: int, now: real, i: nat)
    requires evs != [] && i < |Ordered(s, evs)|
    ensures Ordered(s, evs)[i] in RouteOrder(evs)
    ensures var step := StepOf(cfg, s, evs, reuse, limit, now, Ordered(s, evs)[i]);
            && ActiveLists(cfg, s, evs, reuse, limit, now)[i] == step.active
            && TargetLists(cfg, s, evs, reuse, limit, now)[i] == step.target
  {
    hide StepOf, CycleSteps, Select, RouteOrder;
    var ordered := Ordered(s, evs);
    OrderedMembers(s, evs);
    assert ordered[i] in ordered;
    CycleProject(cfg, s, evs, reuse, limit, now, ordered[i]);
  }

  lemma ActiveListFacts(cfg: Config, s: Sched, evs: seq<Evaluation>, reuse: bool, limit: int, now: real, i: nat)
    requires cfg.Valid() && evs != [] && DistinctPlan(evs)
    requires reuse ==> evs == s.planned && CacheCoherent(s)
    requires i < |Ordered(s, evs)|
    ensures var list := ActiveLists(cfg, s, evs, reuse, limit, now)[i];
            && |list| == CycleSlots(cfg, s, evs, limit)[i]
            && DistinctKeys(list) && OnRoute(list, Ordered(s, evs)[i])
  {
    var r := Ordered(s, evs)[i];
    ListAt(cfg, s, evs, reuse, limit, now, i);
    RouteExact(cfg, s, evs, reuse, limit, now, r);
    OrderedMembers(s, evs);
    IndexOfDistinct(Ordered(s, evs), i);
    forall e | e in StepOf(cfg, s, evs, reuse, limit, now, r).active
      ensures e.route == r
    {
      RouteEvsMembers(evs, r, e);
    }
  }

  ghost predicate OnRoute(evs: seq<Evaluation>, route: Route) {
    forall e <- evs :: e.route == route
  }

  lemma {:induction false} RoutesKeepFlattenDistinct(lists: seq<seq<Evaluation>>, routes: seq<Route>, n: nat)
    requires |lists| == |routes| && n <= |lists| && Distinct(routes)
    requires forall i :: 0 <= i < |lists| ==> DistinctKeys(lists[i]) && OnRoute(lists[i], routes[i])
    ensures Distinct(Flatten(lists, n))
  {
    if n > 0 {
      RoutesKeepFlattenDistinct(lists, routes, n - 1);
      var front, last := Flatten(lists, n - 1), lists[n - 1];
      forall e | e in front
        ensures e !in last
      {
        FlattenMember(lists, n - 1, e);
        var i :| 0 <= i < n - 1 && e in lists[i];
        assert OnRoute(lists[i], routes[i]) && OnRoute(last, routes[n - 1]);
      }
      assert Distinct(last);
      DistinctAppend(front, last);
    }
  }

  /**
   With distinct targets per route, a cycle from any coherent state returns exactly
   min(max(1, limit), plan size, total capacity) active evaluations, none twice.
   */
  lemma SelectExact(cfg: Config, s: Sched, evs: seq<Evaluation>, reuse: bool, limit: int, now: real)
    requires cfg.Valid() && DistinctPlan(evs)
    requires reuse ==> evs == s.planned && CacheCoherent(s)
    ensures var out := Select(cfg, s, evs, reuse, limit, now);
            && |out.active| == Min(Budget(evs, limit), Capacity(cfg, evs))
            && Distinct(out.active)
  {
    if evs == [] {
      assert Limits(cfg, evs, []) == [];
    } else {
      var ordered := Ordered(s, evs);
      var lists := ActiveLists(cfg, s, evs, reuse, limit, now);
      forall i | 0 <= i < |lists|
        ensures |lists[i]| == CycleSlots(cfg, s, evs, limit)[i] && DistinctKeys(lists[i])
                && OnRoute(lists[i], ordered[i])
      {
        ActiveListFacts(cfg, s, evs, reuse, limit, now, i);
      }
      assert Lengths(lists) == CycleSlots(cfg, s, evs, limit);
      SumOfCycleSlots(cfg, s, evs, limit);
      InterleaveLength(lists);
      OrderedMembers(s, evs);
      RoutesKeepFlattenDistinct(lists, ordered, |lists|);
      InterleaveDistinct(lists);
    }
  }

  /** What a route chose is in the cycle's lists. */
  lemma RouteListsIncluded(cfg: Config, s: Sched, evs: seq<Evaluation>, reuse: bool, limit: int, now: real, r: Route,
                           e: Evaluation)
    requires evs != [] && r in RouteOrder(evs)
    ensures var out := Select(cfg, s, evs, reuse, limit, now);
            var step := StepOf(cfg, s, evs, reuse, limit, now, r);
            (e in step.active ==> e in out.active) && (e in step.target ==> e in out.target)
  {
    OrderedMembers(s, evs);
    var i := IndexOf(Ordered(s, evs), r);
    ListAt(cfg, s, evs, reuse, limit, now, i);
    InterleaveMember(ActiveLists(cfg, s, evs, reuse, limit, now), e);
    var targets := TargetLists(cfg, s, evs, reuse, limit, now);
    FlattenMember(targets, |targets|, e);
  }

  /** What is in the cycle's active list was chosen by some route. */
  lemma ActiveFromRoute(cfg: Config, s: Sched, evs: seq<Evaluation>, reuse: bool, limit: int, now: real,
                        e: Evaluation) returns (r: Route)
    requires evs != [] && e in Select(cfg, s, evs, reuse, limit, now).active
    ensures r in RouteOrder(evs) && e in StepOf(cfg, s, evs, reuse, limit, now, r).active
  {
    var lists := ActiveLists(cfg, s, evs, reuse, limit, now);
    InterleaveMember(lists, e);
    var i :| 0 <= i < |lists| && e in lists[i];
    ListAt(cfg, s, evs, reuse, limit, now, i);
    r := Ordered(s, evs)[i];
  }

  lemma TargetFromRoute(cfg: Config, s: Sched, evs: seq<Evaluation>, reuse: bool, limit: int, now: real,
                        e: Evaluation) returns (r: Route)
    requires evs != [] && e in Select(cfg, s, evs, reuse, limit, now).target
    ensures r in RouteOrder(evs) && e in StepOf(cfg, s, evs, reuse, limit, now, r).target
  {
    var lists := TargetLists(cfg, s, evs, reuse, limit, now);
    FlattenMember(lists, |lists|, e);
    var i :| 0 <= i < |lists| && e in lists[i];
    ListAt(cfg, s, evs, reuse, limit, now, i);
    r := Ordered(s, evs)[i];
  }

  /** Every active evaluation is in the returned target window, and the window in the plan handed in. */
  lemma ActiveWithinTarget(cfg: Config, s: Sched, evs: seq<Evaluation>, reuse: bool, limit: int, now: real)
    requires cfg.Valid() && DistinctPlan(evs)
    requires reuse ==> evs == s.planned && CacheCoherent(s)
    ensures var out := Select(cfg, s, evs, reuse, limit, now);
            Within(out.active, out.target) && Within(out.target, evs)
  {
    var out := Select(cfg, s, evs, reuse, limit, now);
    forall e | e in out.active
      ensures e in out.target
    {
      var r := ActiveFromRoute(cfg, s, evs, reuse, limit, now, e);
      RouteExact(cfg, s, evs, reuse, limit, now, r);
      RouteListsIncluded(cfg, s, evs, reuse, limit, now, r, e);
    }
    forall e | e in out.target
      ensures e in evs
    {
      var r := TargetFromRoute(cfg, s, evs, reuse, limit, now, e);
      RouteExact(cfg, s, evs, reuse, limit, now, r);
      RouteEvsMembers(evs, r, e);
    }
  }

  /** The active evaluations of a route are exactly the ones its own step chose. */
  lemma ActiveOnRoute(cfg: Config, s: Sched, evs: seq<Evaluation>, reuse: bool, limit: int, now: real, r: Route,
                      e: Evaluation)
    requires cfg.Valid() && evs != [] && DistinctPlan(evs) && r in RouteOrder(evs)
    requires reuse ==> evs == s.planned && CacheCoherent(s)
    ensures e in Select(cfg, s, evs, reuse, limit, now).active && e.route == r
       <==> e in StepOf(cfg, s, evs, reuse, limit, now, r).active
  {
    RouteExact(cfg, s, evs, reuse, limit, now, r);
    if e in StepOf(cfg, s, evs, reuse, limit, now, r).active {
      RouteListsIncluded(cfg, s, evs, reuse, limit, now, r, e);
      RouteEvsMembers(evs, r, e);
    } else if e in Select(cfg, s, evs, reuse, limit, now).active {
      var r' := ActiveFromRoute(cfg, s, evs, reuse, limit, now, e);
      RouteExact(cfg, s, evs, reuse, limit, now, r');
      RouteEvsMembers(evs, r', e);
    }
  }

  /** A route's active evaluations are as many as its slots, within its cap and its plan. */
  lemma ActivePerRoute(cfg: Config, s: Sched, evs: seq<Evaluation>, reuse: bool, limit: int, now: real, r: Route)
    requires cfg.Valid() && evs != [] && DistinctPlan(evs) && r in RouteOrder(evs)
    requires reuse ==> evs == s.planned && CacheCoherent(s)
    ensures |MembersOn(Select(cfg, s, evs, reuse, limit, now).active, r)|
         == SlotsOf(cfg, s, evs, limit, r) <= Min(|RouteEvs(evs, r)|, cfg.CapFor(r))
  {
    var active, chosen := Select(cfg, s, evs, reuse, limit, now).active,
        StepOf(cfg, s, evs, reuse, limit, now, r).active;
    forall e
      ensures e in active && e.route == r <==> e in chosen
    {
      ActiveOnRoute(cfg, s, evs, reuse, limit, now, r, e);
    }
    SameMembersOn(active, chosen, r);
    RouteExact(cfg, s, evs, reuse, limit, now, r);
    MembersOfDistinct(chosen);
  }

  function MembersOn(evs: seq<Evaluation>, route: Route): set<Evaluation> {
    set e | e in evs && e.route == route
  }

  lemma SameMembersOn(active: seq<Evaluation>, chosen: seq<Evaluation>, r: Route)
    requires forall e :: e in active && e.route == r <==> e in chosen
    ensures MembersOn(active, r) == (set e | e in chosen)
  {
  }

  lemma {:induction false} MembersOfDistinct(evs: seq<Evaluation>)
    requires DistinctKeys(evs)
    ensures |(set e | e in evs)| == |evs|
  {
    if evs != [] {
      var front, last := evs[..|evs| - 1], evs[|evs| - 1];
      MembersOfDistinct(front);
      assert (set e | e in evs) == (set e | e in front) + {last};
    }
  }

  /** The installed plan's cycles keep the invariant. */
  lemma SelectKeepsInv(cfg: Config, s: Sched, limit: int, now: real)
    requires cfg.Valid() && Inv(s)
    ensures Inv(Select(cfg, s, s.planned, true, limit, now).state)
  {
    var out := Select(cfg, s, s.planned, true, limit, now);
    if s.planned != [] {
      forall r
        ensures Coherent(View(out.state, r), RouteEvs(s.planned, r))
      {
        CycleProject(cfg, s, s.planned, true, limit, now, r);
        if r in RouteOrder(s.planned) {
          RouteExact(cfg, s, s.planned, true, limit, now, r);
        }
      }
      CycleProject(cfg, s, s.planned, true, limit, now, "");
    }
  }
}
