/**
 One selection cycle in the fields of the plan, the configuration and the state: which routes
 take part and in which order, how many slots each gets, what is forgotten, and the order of
 what is returned (engine.py, _select_evaluation_window).
 */
module SchedulerPolicy {
  import opened Collections
  import opened Modular
  import opened SchedulerTypes
  import opened SchedulerRoute
  import opened SchedulerAllocation
  import opened SchedulerInterleave
  import opened SchedulerCycle

  // ---------- The plan by route ----------

  /** The routes of a plan, each once, in the order in which they first appear in it. */
  lemma {:induction false} RoutesByAppearance(evs: seq<Evaluation>)
    ensures var r := RouteOrder(evs);
            && (forall e <- evs :: e.route in r)
            && (forall x <- r :: exists e <- evs :: e.route == x)
            && (forall i, j :: 0 <= i < j < |r| ==>
                  exists k :: 0 <= k < |evs| && evs[k].route == r[i]
                              && forall m :: 0 <= m <= k ==> evs[m].route != r[j])
  {
    RouteOrderFacts(evs);
    var r := RouteOrder(evs);
    forall i, j | 0 <= i < j < |r|
      ensures exists k :: 0 <= k < |evs| && evs[k].route == r[i] && forall m :: 0 <= m <= k ==> evs[m].route != r[j]
    {
      var k := AppearsBefore(evs, i, j);
    }
  }

  lemma {:induction false} AppearsBefore(evs: seq<Evaluation>, i: nat, j: nat) returns (k: nat)
    requires i < j < |RouteOrder(evs)|
    ensures k < |evs| && evs[k].route == RouteOrder(evs)[i]
    ensures forall m :: 0 <= m <= k ==> evs[m].route != RouteOrder(evs)[j]
    decreases |evs|
  {
    var front := evs[..|evs| - 1];
    RouteOrderFacts(front);
    if j < |RouteOrder(front)| {
      k := AppearsBefore(front, i, j);
    } else {
      assert RouteOrder(evs)[i] in RouteOrder(front);
      k :| 0 <= k < |front| && front[k].route == RouteOrder(evs)[i];
      assert forall m :: 0 <= m <= k ==> front[m] in front;
    }
  }

  /** `r` is what stands at the ascending positions `at` of the plan: exactly those on the route. */
  ghost predicate OnRouteAt(evs: seq<Evaluation>, route: Route, r: seq<Evaluation>, at: seq<nat>) {
    && |at| == |r|
    && (forall i :: 0 <= i < |at| ==> at[i] < |evs| && r[i] == evs[at[i]])
    && (forall i, j :: 0 <= i < j < |at| ==> at[i] < at[j])
    && (forall k :: 0 <= k < |evs| ==> (evs[k].route == route <==> k in at))
  }

  lemma OnRouteStep(evs: seq<Evaluation>, route: Route, r: seq<Evaluation>, at: seq<nat>)
    requires evs != [] && OnRouteAt(evs[..|evs| - 1], route, r, at)
    ensures var last := |evs| - 1;
            if evs[last].route == route then OnRouteAt(evs, route, r + [evs[last]], at + [last])
            else OnRouteAt(evs, route, r, at)
  {
    var last := |evs| - 1;
    var front := evs[..last];
    forall k | 0 <= k < last
      ensures evs[k].route == route <==> k in at
      ensures k in at + [last] <==> k in at
    {
      assert front[k] == evs[k];
      assert (at + [last])[|at|] == last;
    }
    assert last in at + [last] && forall i :: 0 <= i < |at| ==> r[i] == front[at[i]] == evs[at[i]];
  }

  /** A route's evaluations are those of the plan that are on it, in plan order. */
  lemma {:induction false} RouteInPlanOrder(evs: seq<Evaluation>, route: Route) returns (at: seq<nat>)
    ensures var r := RouteEvs(evs, route);
            && |at| == |r|
            && (forall i :: 0 <= i < |at| ==> at[i] < |evs| && r[i] == evs[at[i]])
            && (forall i, j :: 0 <= i < j < |at| ==> at[i] < at[j])
            && (forall k :: 0 <= k < |evs| ==> (evs[k].route == route <==> k in at))
  {
    at := [];
    if evs != [] {
      var last := |evs| - 1;
      var before := RouteInPlanOrder(evs[..last], route);
      OnRouteStep(evs, route, RouteEvs(evs[..last], route), before);
      at := if evs[last].route == route then before + [last] else before;
      assert OnRouteAt(evs, route, RouteEvs(evs, route), at);
    }
  }

  // ---------- Slots ----------

  /**
   The budget is the limit, at least one and at most the plan. The routes are visited in order of appearance from
   the route cursor on, capped by their evaluations and their setting, weighted by theirs.
   */
  lemma SlotsAre(cfg: Config, s: Sched, evs: seq<Evaluation>, limit: int)
    returns (order: seq<Route>, caps: seq<nat>, weights: seq<nat>, budget: nat)
    requires evs != []
    ensures var routes := RouteOrder(evs);
            && |order| == |caps| == |weights| == |routes|
            && forall i :: 0 <= i < |order| ==>
                 && order[i] == routes[(s.routeCursor + i) % |routes|]
                 && order[i] in routes
                 && caps[i] == Min(|RouteEvs(evs, order[i])|,
                                   if order[i] in cfg.maxConcurrentByRoute then cfg.maxConcurrentByRoute[order[i]]
                                   else cfg.maxConcurrent)
                 && weights[i] == (if order[i] in cfg.weightByRoute then cfg.weightByRoute[order[i]] else 1)
                 && SlotsOf(cfg, s, evs, limit, order[i]) == Allocate(caps, weights, budget)[i]
    ensures budget == if limit < 1 then 1 else if limit <= |evs| then limit else |evs|
  {
    hide RouteOrder, RouteEvs, Allocate;
    var routes := RouteOrder(evs);
    var n := |routes|;
    order, budget := Ordered(s, evs), Budget(evs, limit);
    caps, weights := Limits(cfg, evs, order), Weights(cfg, order);
    OrderedMembers(s, evs);
    forall i | 0 <= i < |order|
      ensures order[i] == routes[(s.routeCursor + i) % n] && IndexOf(order, order[i]) == i && order[i] in routes
    {
      RotateAt(routes, s.routeCursor % n, i);
      ModShift(s.routeCursor, i, n);
      IndexOfDistinct(order, i);
    }
  }

  lemma {:induction false} DistinctOnRoute(evs: seq<Evaluation>, r: Route)
    requires DistinctPlan(evs)
    ensures |RouteEvs(evs, r)| == |set e | e in evs && e.route == r|
  {
    DistinctRouteEvs(evs, r);
    MembersOfDistinct(RouteEvs(evs, r));
    forall e
      ensures e in evs && e.route == r <==> e in RouteEvs(evs, r)
    {
      RouteEvsMembers(evs, r, e);
    }
    assert (set e | e in evs && e.route == r) == set e | e in RouteEvs(evs, r);
  }

  /**
   No route has more active evaluations than its setting and its plan allow, no more are active than the limit,
   at least one, and the plan allow, and if fewer are, then every route has all it may have.
   */
  lemma NothingWasted(cfg: Config, s: Sched, evs: seq<Evaluation>, reuse: bool, limit: int, now: real, r: Route)
    requires cfg.Valid() && evs != [] && DistinctPlan(evs) && (exists e <- evs :: e.route == r)
    requires reuse ==> evs == s.planned && CacheCoherent(s)
    ensures var active := Select(cfg, s, evs, reuse, limit, now).active;
            var budget := if limit < 1 then 1 else if limit <= |evs| then limit else |evs|;
            var planned, chosen := |set e | e in evs && e.route == r|, |set e | e in active && e.route == r|;
            var most := if r in cfg.maxConcurrentByRoute then cfg.maxConcurrentByRoute[r] else cfg.maxConcurrent;
            && |active| <= budget && chosen <= planned && chosen <= most
            && (|active| < budget ==> chosen == planned || chosen == most)
            && forall i, j :: 0 <= i < j < |active| ==> active[i] != active[j]
  {
    hide Select, RouteEvs, RouteOrder, Allocate, Ordered;
    RouteOrderFacts(evs);
    SelectExact(cfg, s, evs, reuse, limit, now);
    ActivePerRoute(cfg, s, evs, reuse, limit, now, r);
    DistinctOnRoute(evs, r);
    AllAtCap(cfg, s, evs, limit, r);
    var active := Select(cfg, s, evs, reuse, limit, now).active;
    assert MembersOn(active, r) == set e | e in active && e.route == r;
  }

  lemma AllAtCap(cfg: Config, s: Sched, evs: seq<Evaluation>, limit: int, r: Route)
    requires cfg.Valid() && evs != [] && r in RouteOrder(evs)
    ensures Capacity(cfg, evs) < Budget(evs, limit)
        ==> SlotsOf(cfg, s, evs, limit, r) == Min(|RouteEvs(evs, r)|, cfg.CapFor(r))
  {
    hide RouteEvs, RouteOrder, Allocate, Sum;
    var ordered := Ordered(s, evs);
    OrderedMembers(s, evs);
    WeightsPositive(cfg, ordered);
    var limits, weights := Limits(cfg, evs, ordered), Weights(cfg, ordered);
    AllocateExact(limits, weights, Budget(evs, limit));
    LimitsRotate(cfg, evs, RouteOrder(evs), s.routeCursor % |RouteOrder(evs)|);
    SumRotate(Limits(cfg, evs, RouteOrder(evs)), s.routeCursor % |RouteOrder(evs)|);
    SumMonotone(Allocate(limits, weights, Budget(evs, limit)), limits);
  }

  // ---------- State ----------

  lemma RecentsAfter(cfg: Config, s: Sched, evs: seq<Evaluation>, reuse: bool, limit: int, now: real)
    requires evs != []
    ensures Select(cfg, s, evs, reuse, limit, now).state.recent == CycleStart(cfg, s, evs, now).recent
  {
    hide StepRoutes, RouteOrder, SlotMap, CycleStart, Ordered, CycleSlots;
    RouteOrderFacts(evs);
    OrderedMembers(s, evs);
    StepRoutesProject(cfg, CycleStart(cfg, s, evs, now), evs, SlotMap(Ordered(s, evs), CycleSlots(cfg, s, evs, limit)),
                      RouteOrder(evs), now, reuse, "");
  }

  /** A cycle keeps exactly the observations of planned evaluations that are still recent enough to count. */
  lemma CycleRemembers(cfg: Config, s: Sched, evs: seq<Evaluation>, reuse: bool, limit: int, now: real, r: Route,
                       key: Key)
    requires evs != []
    ensures var allowed := if r in cfg.priorityByRoute then cfg.priorityByRoute[r]
                           else if cfg.prioritySeconds > 0.0 then cfg.prioritySeconds
                           else if r in cfg.holdByRoute then cfg.holdByRoute[r]
                           else cfg.holdSeconds;
            var after := Select(cfg, s, evs, reuse, limit, now).state.recent;
            && ((r, key) in after
                <==> && (r, key) in s.recent && allowed > 0.0 && now - s.recent[(r, key)].observedAt <= allowed
                     && exists e :: e in evs && e.route == r && e.targets == key)
            && ((r, key) in after ==> after[(r, key)] == s.recent[(r, key)])
  {
    hide Select, RouteOrder;
    RecentsAfter(cfg, s, evs, reuse, limit, now);
    assert (r, key) in PlanKeys(evs) <==> exists e :: e in evs && e.route == r && e.targets == key;
  }

  /** A cycle forgets everything but the observations about routes that are not in the plan. */
  lemma DepartedForgotten(cfg: Config, s: Sched, evs: seq<Evaluation>, reuse: bool, limit: int, now: real, r: Route)
    requires evs != [] && forall e <- evs :: e.route != r
    ensures var after := Select(cfg, s, evs, reuse, limit, now).state;
            && r !in after.cursors && r !in after.activeCursors && r !in after.heldKeys && r !in after.held
            && r !in after.deadlines
            && after.planned == s.planned
            && after.routeCursor == (s.routeCursor + 1) % |RouteOrder(evs)|
  {
    hide Select, RouteOrder, CycleSteps;
    RouteOrderFacts(evs);
    CycleProject(cfg, s, evs, reuse, limit, now, r);
    var n := |RouteOrder(evs)|;
    ModShift(s.routeCursor, 1, n);
    var after := Select(cfg, s, evs, reuse, limit, now).state;
    assert View(after, r) == GONE;
  }

  /** Without a plan a cycle selects nothing and forgets everything but which plan is installed. */
  lemma NothingToSelect(cfg: Config, s: Sched, reuse: bool, limit: int, now: real)
    ensures Select(cfg, s, [], reuse, limit, now)
         == Selection(Sched(map[], map[], 0, map[], map[], map[], map[], s.planned), [], [])
  {
  }

  /** What a cycle does to a planned route: one step from the route's own entries, with what is still remembered. */
  lemma CycleStepsRoute(cfg: Config, s: Sched, evs: seq<Evaluation>, reuse: bool, limit: int, now: real, r: Route)
    returns (step: RouteStepped)
    requires evs != [] && r in RouteOrder(evs)
    ensures var after := Select(cfg, s, evs, reuse, limit, now).state;
            var before := RouteState(Lookup(s.cursors, r), Lookup(s.activeCursors, r), Lookup(s.heldKeys, r),
                                     Lookup(s.held, r), Lookup(s.deadlines, r));
            && step == RouteStep(cfg, after.recent, r, RouteEvs(evs, r), SlotsOf(cfg, s, evs, limit, r), now, reuse,
                                 before)
            && step.state == RouteState(Lookup(after.cursors, r), Lookup(after.activeCursors, r),
                                        Lookup(after.heldKeys, r), Lookup(after.held, r), Lookup(after.deadlines, r))
  {
    hide Select, RouteOrder, CycleSteps, RouteStep, SlotsOf, RouteEvs, CycleStart;
    RecentsAfter(cfg, s, evs, reuse, limit, now);
    CycleProject(cfg, s, evs, reuse, limit, now, r);
    step := StepOf(cfg, s, evs, reuse, limit, now, r);
  }

  /** Installing a plan empties the window cache unless it is the plan already installed, and changes nothing else. */
  lemma InstallingForgetsCache(s: Sched, evs: seq<Evaluation>, same: bool)
    ensures var after := SetPlanned(s, evs, same);
            && after.planned == evs && (if same then after.held == s.held else after.held == map[])
            && after.heldKeys == s.heldKeys && after.deadlines == s.deadlines && after.recent == s.recent
            && after.cursors == s.cursors && after.activeCursors == s.activeCursors
            && after.routeCursor == s.routeCursor
  {
  }

  /** A mark records when and how well an evaluation was executable, and touches no other observation. */
  lemma MarkRecords(s: Sched, route: Route, key: Key, netSpread: real, at: real, r: Route, k: Key)
    ensures var after := MarkRecent(s, route, key, netSpread, at);
            && after == s.(recent := after.recent)
            && (r == route && k == key ==>
                  (r, k) in after.recent && after.recent[(r, k)].netSpread == netSpread
                  && after.recent[(r, k)].observedAt == at)
            && (r != route || k != key ==> Lookup(after.recent, (r, k)) == Lookup(s.recent, (r, k)))
  {
  }

  // ---------- Order ----------

  lemma ListsOfRoutes(cfg: Config, s: Sched, evs: seq<Evaluation>, reuse: bool, limit: int, now: real, i: nat)
    requires evs != [] && i < |RouteOrder(evs)|
    ensures var r := RouteOrder(evs)[(s.routeCursor + i) % |RouteOrder(evs)|];
            && |Ordered(s, evs)| == |RouteOrder(evs)| && r in RouteOrder(evs)
            && ActiveLists(cfg, s, evs, reuse, limit, now)[i] == StepOf(cfg, s, evs, reuse, limit, now, r).active
            && TargetLists(cfg, s, evs, reuse, limit, now)[i] == StepOf(cfg, s, evs, reuse, limit, now, r).target
  {
    hide Select, RouteOrder, StepOf, ActiveLists, TargetLists;
    var routes := RouteOrder(evs);
    var n := |routes|;
    OrderedMembers(s, evs);
    RotateAt(routes, s.routeCursor % n, i);
    ModShift(s.routeCursor, i, n);
    ListAt(cfg, s, evs, reuse, limit, now, i);
  }

  /**
   The active evaluations are dealt in turn: each route's first choice in visiting order, then each route's
   second, and so on.
   */
  lemma DealtInTurn(cfg: Config, s: Sched, evs: seq<Evaluation>, reuse: bool, limit: int, now: real)
    returns (lists: seq<seq<Evaluation>>, at: seq<Place>)
    requires evs != []
    ensures var active, routes := Select(cfg, s, evs, reuse, limit, now).active, RouteOrder(evs);
            && |lists| == |routes|
            && (forall i :: 0 <= i < |lists| ==>
                  var r := routes[(s.routeCursor + i) % |routes|];
                  r in routes && lists[i] == StepOf(cfg, s, evs, reuse, limit, now, r).active)
            && |at| == |active|
            && (forall p :: 0 <= p < |at| ==>
                  && at[p].list < |lists| && at[p].round < |lists[at[p].list]|
                  && active[p] == lists[at[p].list][at[p].round])
            && (forall p, q :: 0 <= p < q < |at| ==>
                  at[p].round < at[q].round || (at[p].round == at[q].round && at[p].list < at[q].list))
    ensures forall i, k :: 0 <= i < |lists| && 0 <= k < |lists[i]| ==> Place(k, i) in at
  {
    hide Select, RouteOrder, StepOf, Interleave, ActiveLists, TargetLists, Ordered;
    OrderedMembers(s, evs);
    lists := ActiveLists(cfg, s, evs, reuse, limit, now);
    ListsReturned(cfg, s, evs, reuse, limit, now);
    forall i | 0 <= i < |lists|
      ensures var r := RouteOrder(evs)[(s.routeCursor + i) % |RouteOrder(evs)|];
              r in RouteOrder(evs) && lists[i] == StepOf(cfg, s, evs, reuse, limit, now, r).active
    {
      ListsOfRoutes(cfg, s, evs, reuse, limit, now, i);
    }
    at := InterleaveOrder(lists);
  }

  /** The target window lists the routes' windows one after the other in visiting order. */
  lemma WindowsInTurn(cfg: Config, s: Sched, evs: seq<Evaluation>, reuse: bool, limit: int, now: real)
    returns (lists: seq<seq<Evaluation>>)
    requires evs != []
    ensures var target, routes := Select(cfg, s, evs, reuse, limit, now).target, RouteOrder(evs);
            && |lists| == |routes|
            && (forall i :: 0 <= i < |lists| ==>
                  var r := routes[(s.routeCursor + i) % |routes|];
                  r in routes && lists[i] == StepOf(cfg, s, evs, reuse, limit, now, r).target)
            && |target| == Sum(Lengths(lists))
            && forall i, k :: 0 <= i < |lists| && 0 <= k < |lists[i]| ==>
                 var before := Sum(Lengths(lists)[..i]);
                 before + k < |target| && target[before + k] == lists[i][k]
  {
    hide Select, RouteOrder, StepOf, Flatten, ActiveLists, TargetLists, Ordered, Sum;
    OrderedMembers(s, evs);
    lists := TargetLists(cfg, s, evs, reuse, limit, now);
    ListsReturned(cfg, s, evs, reuse, limit, now);
    forall i | 0 <= i < |lists|
      ensures var r := RouteOrder(evs)[(s.routeCursor + i) % |RouteOrder(evs)|];
              r in RouteOrder(evs) && lists[i] == StepOf(cfg, s, evs, reuse, limit, now, r).target
    {
      ListsOfRoutes(cfg, s, evs, reuse, limit, now, i);
    }
    FlattenLength(lists, |lists|);
    assert Lengths(lists)[..|lists|] == Lengths(lists);
    forall i, k | 0 <= i < |lists| && 0 <= k < |lists[i]|
      ensures var before := Sum(Lengths(lists)[..i]);
              before + k < |Flatten(lists, |lists|)| && Flatten(lists, |lists|)[before + k] == lists[i][k]
    {
      FlattenAt(lists, |lists|, i, k);
    }
  }

  lemma ListsReturned(cfg: Config, s: Sched, evs: seq<Evaluation>, reuse: bool, limit: int, now: real)
    requires evs != []
    ensures var out, targets := Select(cfg, s, evs, reuse, limit, now), TargetLists(cfg, s, evs, reuse, limit, now);
            && out.active == Interleave(ActiveLists(cfg, s, evs, reuse, limit, now))
            && out.target == Flatten(targets, |targets|)
  {
  }
}
