/**
 Whole runs of the scheduler: re-plans, cycles over the installed plan and recency marks in
 any order. The invariant, cache transparency, hold discipline, starvation freedom of the
 target windows and of the active choice, and the rotation of the first-served route.
 */
module SchedulerRuns {
  import opened Collections
  import opened Modular
  import opened SchedulerTypes
  import opened SchedulerRotation
  import opened SchedulerRoute
  import opened SchedulerCycle

  datatype Event =
    | Replan(evs: seq<Evaluation>, same: bool)
    | Cycle(limit: int, now: real)
    | Mark(route: Route, key: Key, netSpread: real, at: real)

  function Step(cfg: Config, s: Sched, ev: Event): Sched {
    match ev
    case Replan(evs, same) => SetPlanned(s, evs, same)
    case Cycle(limit, now) => Select(cfg, s, s.planned, true, limit, now).state
    case Mark(route, key, netSpread, at) => MarkRecent(s, route, key, netSpread, at)
  }

  /** A re-plan installs distinct targets per route; only the installed object itself counts as the same. */
  ghost predicate Legal(s: Sched, ev: Event) {
    ev.Replan? ==> DistinctPlan(ev.evs) && (ev.same ==> ev.evs == s.planned)
  }

  function Run(cfg: Config, s: Sched, events: seq<Event>): Sched
    decreases |events|
  {
    if events == [] then s else Run(cfg, Step(cfg, s, events[0]), events[1..])
  }

  ghost predicate LegalRun(cfg: Config, s: Sched, events: seq<Event>)
    decreases |events|
  {
    events == [] || (Legal(s, events[0]) && LegalRun(cfg, Step(cfg, s, events[0]), events[1..]))
  }

  lemma StepKeepsInv(cfg: Config, s: Sched, ev: Event)
    requires cfg.Valid() && Inv(s) && Legal(s, ev)
    ensures Inv(Step(cfg, s, ev))
  {
    hide Select, Rebind, RouteEvs, Coherent, DistinctPlan;
    match ev
    case Replan(evs, same) => ReplanKeepsCoherent(s, evs, same);
    case Cycle(limit, now) => SelectKeepsInv(cfg, s, limit, now);
    case Mark(route, key, netSpread, at) =>
      forall r
        ensures Coherent(View(Step(cfg, s, ev), r), RouteEvs(s.planned, r))
      {
        assert View(Step(cfg, s, ev), r) == View(s, r);
      }
  }

  lemma ReplanKeepsCoherent(s: Sched, evs: seq<Evaluation>, same: bool)
    requires CacheCoherent(s) && (same ==> evs == s.planned)
    ensures CacheCoherent(SetPlanned(s, evs, same))
  {
    hide Rebind, RouteEvs;
    if same {
      assert SetPlanned(s, evs, same) == s;
    }
  }

  /** Every reachable state has a coherent cache. */
  lemma {:induction false} RunKeepsInv(cfg: Config, s: Sched, events: seq<Event>)
    requires cfg.Valid() && Inv(s) && LegalRun(cfg, s, events)
    ensures Inv(Run(cfg, s, events))
    decreases |events|
  {
    if events != [] {
      StepKeepsInv(cfg, s, events[0]);
      RunKeepsInv(cfg, Step(cfg, s, events[0]), events[1..]);
    }
  }

  // ---------- Cache transparency ----------

  lemma SameViews(a: Sched, b: Sched)
    requires forall r :: View(a, r) == View(b, r)
    requires a.routeCursor == b.routeCursor && a.recent == b.recent && a.planned == b.planned
    ensures a == b
  {
    forall r
      ensures Lookup(a.cursors, r) == Lookup(b.cursors, r) && Lookup(a.activeCursors, r) == Lookup(b.activeCursors, r)
      ensures Lookup(a.heldKeys, r) == Lookup(b.heldKeys, r) && Lookup(a.held, r) == Lookup(b.held, r)
      ensures Lookup(a.deadlines, r) == Lookup(b.deadlines, r)
    {
      assert View(a, r) == View(b, r);
    }
    SameLookups(a.cursors, b.cursors);
    SameLookups(a.activeCursors, b.activeCursors);
    SameLookups(a.heldKeys, b.heldKeys);
    SameLookups(a.held, b.held);
    SameLookups(a.deadlines, b.deadlines);
  }

  lemma SameLookups<V>(a: map<Route, V>, b: map<Route, V>)
    requires forall r :: Lookup(a, r) == Lookup(b, r)
    ensures a == b
  {
    forall r
      ensures r in a <==> r in b
      ensures r in a ==> a[r] == b[r]
    {
      assert Lookup(a, r) == Lookup(b, r);
    }
  }

  lemma StepIgnoresCache(cfg: Config, s: Sched, limit: int, now: real, r: Route)
    requires cfg.Valid() && Inv(s) && s.planned != [] && r in RouteOrder(s.planned)
    ensures StepOf(cfg, s, s.planned, true, limit, now, r)
            == StepOf(cfg, s.(held := map[]), s.planned, true, limit, now, r)
  {
    var cold := s.(held := map[]);
    assert View(cold, r) == View(s, r).(held := None);
    assert CycleStart(cfg, s, s.planned, now).recent == CycleStart(cfg, cold, s.planned, now).recent;
    assert SlotsOf(cfg, s, s.planned, limit, r) == SlotsOf(cfg, cold, s.planned, limit, r);
    DistinctRouteEvs(s.planned, r);
    SlotBounds(cfg, s, s.planned, limit, r);
    RouteStepIgnoresCache(cfg, CycleStart(cfg, s, s.planned, now).recent, r, RouteEvs(s.planned, r),
                          SlotsOf(cfg, s, s.planned, limit, r), now, View(s, r));
  }

  lemma ListsIgnoreCache(cfg: Config, s: Sched, limit: int, now: real)
    requires cfg.Valid() && Inv(s) && s.planned != []
    ensures var cold := s.(held := map[]);
            && ActiveLists(cfg, s, s.planned, true, limit, now) == ActiveLists(cfg, cold, s.planned, true, limit, now)
            && TargetLists(cfg, s, s.planned, true, limit, now) == TargetLists(cfg, cold, s.planned, true, limit, now)
  {
    var cold := s.(held := map[]);
    assert Ordered(s, s.planned) == Ordered(cold, s.planned);
    forall i | 0 <= i < |Ordered(s, s.planned)|
      ensures ActiveLists(cfg, s, s.planned, true, limit, now)[i]
              == ActiveLists(cfg, cold, s.planned, true, limit, now)[i]
      ensures TargetLists(cfg, s, s.planned, true, limit, now)[i]
              == TargetLists(cfg, cold, s.planned, true, limit, now)[i]
    {
      ListAt(cfg, s, s.planned, true, limit, now, i);
      ListAt(cfg, cold, s.planned, true, limit, now, i);
      StepIgnoresCache(cfg, s, limit, now, Ordered(s, s.planned)[i]);
    }
  }

  /**
   Cache transparency: in every state satisfying the invariant, emptying the window cache
   changes neither what a cycle returns nor the state it leaves.
   */
  lemma CacheTransparency(cfg: Config, s: Sched, limit: int, now: real)
    requires cfg.Valid() && Inv(s)
    ensures Select(cfg, s, s.planned, true, limit, now) == Select(cfg, s.(held := map[]), s.planned, true, limit, now)
  {
    if s.planned != [] {
      var cold := s.(held := map[]);
      var a, b := Select(cfg, s, s.planned, true, limit, now), Select(cfg, cold, s.planned, true, limit, now);
      ListsIgnoreCache(cfg, s, limit, now);
      forall r
        ensures View(a.state, r) == View(b.state, r)
      {
        CycleProject(cfg, s, s.planned, true, limit, now, r);
        CycleProject(cfg, cold, s.planned, true, limit, now, r);
        if r in RouteOrder(s.planned) {
          StepIgnoresCache(cfg, s, limit, now, r);
        }
      }
      CycleFrame(cfg, s, limit, now);
      CycleFrame(cfg, cold, limit, now);
      SameViews(a.state, b.state);
    }
  }

  lemma CycleFrame(cfg: Config, s: Sched, limit: int, now: real)
    requires s.planned != []
    ensures var out := Select(cfg, s, s.planned, true, limit, now).state;
            var n := |RouteOrder(s.planned)|;
            && out.planned == s.planned
            && out.routeCursor == (s.routeCursor % n + 1) % n
            && out.recent == CycleStart(cfg, s, s.planned, now).recent
  {
    RouteOrderFacts(s.planned);
    CycleProject(cfg, s, s.planned, true, limit, now, "");
    var ordered := Ordered(s, s.planned);
    OrderedMembers(s, s.planned);
    StepRoutesProject(cfg, CycleStart(cfg, s, s.planned, now), s.planned,
                      SlotMap(ordered, CycleSlots(cfg, s, s.planned, limit)), RouteOrder(s.planned), now, true, "");
  }

  /** A re-plan takes effect at once: from then on only evaluations of the plan just installed are returned. */
  lemma OnlyCurrentPlanReturned(cfg: Config, s: Sched, evs: seq<Evaluation>, between: seq<Event>, limit: int, now: real)
    requires cfg.Valid() && Inv(s) && DistinctPlan(evs) && NoReplan(between)
    ensures var t := Run(cfg, SetPlanned(s, evs, false), between);
            var out := Select(cfg, t, t.planned, true, limit, now);
            t.planned == evs && Within(out.target, evs) && Within(out.active, evs)
  {
    var t0 := SetPlanned(s, evs, false);
    NoReplanIsLegal(cfg, t0, between);
    NoReplanKeepsPlan(cfg, t0, between);
    RunKeepsInv(cfg, t0, between);
    ActiveWithinTarget(cfg, Run(cfg, t0, between), evs, true, limit, now);
  }

  lemma {:induction false} NoReplanIsLegal(cfg: Config, s: Sched, events: seq<Event>)
    requires NoReplan(events)
    ensures LegalRun(cfg, s, events)
    decreases |events|
  {
    if events != [] {
      NoReplanIsLegal(cfg, Step(cfg, s, events[0]), events[1..]);
    }
  }

  predicate NoReplan(events: seq<Event>) {
    forall ev <- events :: !ev.Replan?
  }

  lemma {:induction false} NoReplanKeepsPlan(cfg: Config, s: Sched, events: seq<Event>)
    requires NoReplan(events)
    ensures Run(cfg, s, events).planned == s.planned
    decreases |events|
  {
    if events != [] {
      StepKeepsPlan(cfg, s, events[0]);
      NoReplanKeepsPlan(cfg, Step(cfg, s, events[0]), events[1..]);
    }
  }

  lemma StepKeepsPlan(cfg: Config, s: Sched, ev: Event)
    requires !ev.Replan?
    ensures Step(cfg, s, ev).planned == s.planned
  {
    if ev.Cycle? && s.planned != [] {
      CycleFrame(cfg, s, ev.limit, ev.now);
    }
  }

  // ---------- Hold discipline ----------

  lemma StepUsesWindow(cfg: Config, recent: RecentTable, route: Route, evs: seq<Evaluation>, slots: nat, now: real,
                       rs: RouteState)
    requires 0 < slots
    ensures var w := StepWindow(cfg, recent, route, evs, slots, now, true, rs);
            var step := RouteStep(cfg, recent, route, evs, slots, now, true, rs);
            && step.target == w.window.value && step.state.cursor == w.state.cursor
                && step.state.deadline == w.state.deadline
            && var active := Mix(cfg, recent, route, w.window.value, slots, now, w.state.activeCursor);
               step.active == active.window && step.state.activeCursor == active.cursor
  {
  }

  /** A surviving window is the held one, resized to the route's new budget. */
  lemma StepRestores(cfg: Config, recent: RecentTable, route: Route, evs: seq<Evaluation>, slots: nat, now: real,
                     rs: RouteState)
    requires cfg.Valid() && DistinctKeys(evs) && 0 < slots <= |evs| && Coherent(rs, evs) && Survives(evs, now, rs)
    ensures var expected := PrefetchCount(cfg, route, evs, slots);
            var w := StepWindow(cfg, recent, route, evs, slots, now, true, rs);
            var warm := Rebind(evs, rs.keys.value).value;
            var resized := Resize(evs, warm, expected, rs.cursor);
            && w.window.value == resized.window && w.state.cursor == resized.cursor
            && w.state.deadline == rs.deadline && w.state.activeCursor == rs.activeCursor
            && DistinctKeys(warm) && Within(warm, evs)
  {
    var expected := PrefetchCount(cfg, route, evs, slots);
    var warm := Rebind(evs, rs.keys.value).value;
    PrefetchBounds(cfg, route, evs, slots);
    RestoreIff(evs, expected, now, true, rs);
    RebindDistinct(evs, rs.keys.value);
    ResizeExact(evs, warm, expected, rs.cursor);
    assert |warm| == expected ==> warm[..expected] == warm;
  }

  /** Otherwise it is built afresh with a new deadline and a reset active cursor. */
  lemma StepRebuilds(cfg: Config, recent: RecentTable, route: Route, evs: seq<Evaluation>, slots: nat, now: real,
                     rs: RouteState)
    requires cfg.Valid() && DistinctKeys(evs) && 0 < slots <= |evs| && Coherent(rs, evs) && !Survives(evs, now, rs)
    ensures var expected := PrefetchCount(cfg, route, evs, slots);
            var w := StepWindow(cfg, recent, route, evs, slots, now, true, rs);
            var built := Mix(cfg, recent, route, evs, expected, now, rs.cursor);
            && w.window.value == built.window && w.state.cursor == built.cursor
            && w.state.deadline == Some(now + cfg.HoldFor(route)) && w.state.activeCursor == Some(0)
  {
    var expected := PrefetchCount(cfg, route, evs, slots);
    PrefetchBounds(cfg, route, evs, slots);
    RestoreIff(evs, expected, now, true, rs);
    assert Restore(evs, expected, now, true, rs).state.cursor == rs.cursor by {
      if rs.keys.GetOr([]) != [] && now < rs.deadline.GetOr(0.0) {
        assert WarmWindow(evs, true, rs) == Rebind(evs, rs.keys.GetOr([]));
      }
    }
  }

  /**
   While a window survives, its deadline stays and its first min(old, new) keys stay in
   order; a rebuild, and only a rebuild, starts a new deadline.
   */
  lemma HoldDiscipline(cfg: Config, recent: RecentTable, route: Route, evs: seq<Evaluation>, slots: nat, now: real,
                       rs: RouteState)
    requires cfg.Valid() && DistinctKeys(evs) && 0 < slots <= |evs| && Coherent(rs, evs)
    ensures var step := RouteStep(cfg, recent, route, evs, slots, now, true, rs);
            if Survives(evs, now, rs) then
              var keep := Min(|rs.keys.value|, |step.target|);
              step.state.deadline == rs.deadline && KeysOf(step.target)[..keep] == rs.keys.value[..keep]
            else
              step.state.deadline == Some(now + cfg.HoldFor(route))
  {
    StepUsesWindow(cfg, recent, route, evs, slots, now, rs);
    if Survives(evs, now, rs) {
      StepRestores(cfg, recent, route, evs, slots, now, rs);
      PrefetchBounds(cfg, route, evs, slots);
      var expected := PrefetchCount(cfg, route, evs, slots);
      var keys, warm := rs.keys.value, Rebind(evs, rs.keys.value).value;
      ResizeExact(evs, warm, expected, rs.cursor);
      var window := Resize(evs, warm, expected, rs.cursor).window;
      var keep := Min(|keys|, expected);
      SameKeysPrefix(window, warm, keep);
      assert KeysOf(warm) == keys;
    } else {
      StepRebuilds(cfg, recent, route, evs, slots, now, rs);
    }
  }

  lemma SameKeysPrefix(a: seq<Evaluation>, b: seq<Evaluation>, k: nat)
    requires k <= |a| && k <= |b| && a[..k] == b[..k]
    ensures KeysOf(a)[..k] == KeysOf(b)[..k]
  {
    forall i | 0 <= i < k
      ensures a[i] == b[i]
    {
      assert a[..k][i] == b[..k][i];
    }
  }

  // ---------- The hold over runs ----------

  /** A cycle leaves the route with the window it holds: it has slots and the window survives. */
  ghost predicate Undisturbed(cfg: Config, s: Sched, ev: Event, r: Route) {
    ev.Cycle? ==>
      && s.planned != [] && r in RouteOrder(s.planned)
      && SlotsOf(cfg, s, s.planned, ev.limit, r) > 0
      && Survives(RouteEvs(s.planned, r), ev.now, View(s, r))
  }

  lemma SteppedView(cfg: Config, s: Sched, limit: int, now: real, r: Route)
    requires cfg.Valid() && Inv(s) && s.planned != [] && r in RouteOrder(s.planned)
    ensures var evs, slots := RouteEvs(s.planned, r), SlotsOf(cfg, s, s.planned, limit, r);
            var step := RouteStep(cfg, CycleStart(cfg, s, s.planned, now).recent, r, evs, slots, now, true, View(s, r));
            && View(Select(cfg, s, s.planned, true, limit, now).state, r) == step.state
            && DistinctKeys(evs) && slots <= |evs| && Coherent(View(s, r), evs)
            && (slots > 0 ==> step.state.keys == Some(KeysOf(step.target)))
  {
    hide RouteStep, SlotsOf, CycleStart, Select, RouteEvs, RouteOrder, Coherent, DistinctKeys, View;
    RouteOrderFacts(s.planned);
    DistinctRouteEvs(s.planned, r);
    SlotBounds(cfg, s, s.planned, limit, r);
    CycleProject(cfg, s, s.planned, true, limit, now, r);
    RouteStepExact(cfg, CycleStart(cfg, s, s.planned, now).recent, r, RouteEvs(s.planned, r),
                   SlotsOf(cfg, s, s.planned, limit, r), now, true, View(s, r));
  }

  /** One step without disturbance: the deadline stays and so do the first min(old, new) keys. */
  lemma UndisturbedStep(cfg: Config, s: Sched, ev: Event, r: Route)
    requires cfg.Valid() && Inv(s) && Legal(s, ev) && View(s, r).keys.Some? && Undisturbed(cfg, s, ev, r)
    ensures var before, after := View(s, r), View(Step(cfg, s, ev), r);
            && after.deadline == before.deadline && after.keys.Some?
            && var keep := Min(|before.keys.value|, |after.keys.value|);
               after.keys.value[..keep] == before.keys.value[..keep]
  {
    hide RouteStep, Select, Survives, RouteEvs, RouteOrder, Coherent, DistinctKeys, CycleStart, SlotsOf, KeysOf, Inv;
    match ev
    case Replan(evs, same) =>
    case Mark(route, key, netSpread, at) => assert View(Step(cfg, s, ev), r) == View(s, r);
    case Cycle(limit, now) =>
      SteppedView(cfg, s, limit, now, r);
      HoldDiscipline(cfg, CycleStart(cfg, s, s.planned, now).recent, r, RouteEvs(s.planned, r),
                     SlotsOf(cfg, s, s.planned, limit, r), now, View(s, r));
  }

  /** Any other cycle starts a new deadline, or leaves the route without one. */
  lemma DisturbedStep(cfg: Config, s: Sched, ev: Event, r: Route)
    requires cfg.Valid() && Inv(s) && !Undisturbed(cfg, s, ev, r)
    ensures var after := View(Step(cfg, s, ev), r).deadline;
            if s.planned != [] && r in RouteOrder(s.planned) && SlotsOf(cfg, s, s.planned, ev.limit, r) > 0
            then after == Some(ev.now + cfg.HoldFor(r)) else after == None
  {
    hide Select, RouteStep, Survives, RouteEvs, RouteOrder, Coherent, DistinctKeys, CycleStart, SlotsOf, KeysOf, Inv,
         View;
    if s.planned == [] {
      NothingPlanned(cfg, s, ev.limit, ev.now, r);
    } else if r in RouteOrder(s.planned) {
      var recent, evs := CycleStart(cfg, s, s.planned, ev.now).recent, RouteEvs(s.planned, r);
      var slots := SlotsOf(cfg, s, s.planned, ev.limit, r);
      SteppedView(cfg, s, ev.limit, ev.now, r);
      if slots > 0 {
        HoldDiscipline(cfg, recent, r, evs, slots, ev.now, View(s, r));
      } else {
        NoSlots(cfg, recent, r, evs, ev.now, View(s, r));
      }
    } else {
      CycleProject(cfg, s, s.planned, true, ev.limit, ev.now, r);
    }
  }

  lemma NothingPlanned(cfg: Config, s: Sched, limit: int, now: real, r: Route)
    requires s.planned == []
    ensures View(Select(cfg, s, s.planned, true, limit, now).state, r) == GONE
  {
  }

  lemma NoSlots(cfg: Config, recent: RecentTable, route: Route, evs: seq<Evaluation>, now: real, rs: RouteState)
    ensures RouteStep(cfg, recent, route, evs, 0, now, true, rs).state.deadline == None
  {
  }

  /** No event of the run disturbs the route's window, and it never has fewer than k members. */
  ghost predicate HeldThroughout(cfg: Config, s: Sched, events: seq<Event>, r: Route, k: nat)
    decreases |events|
  {
    && View(s, r).keys.Some? && k <= |View(s, r).keys.value|
    && (events != [] ==>
          && Undisturbed(cfg, s, events[0], r)
          && HeldThroughout(cfg, Step(cfg, s, events[0]), events[1..], r, k))
  }

  /**
   Hold discipline over runs: from one rebuild of a route's window to the next, whatever re-plans, marks
   and cycles lie between, its deadline is the same, and so are the first k keys as long as the budget
   leaves the window k members.
   */
  lemma {:induction false} HoldOverRuns(cfg: Config, s: Sched, events: seq<Event>, r: Route, k: nat)
    requires cfg.Valid() && Inv(s) && LegalRun(cfg, s, events) && HeldThroughout(cfg, s, events, r, k)
    ensures var after := View(Run(cfg, s, events), r);
            && after.deadline == View(s, r).deadline
            && after.keys.Some? && k <= |after.keys.value| && after.keys.value[..k] == View(s, r).keys.value[..k]
    decreases |events|
  {
    hide Inv, Step, Undisturbed, View;
    if events != [] {
      var next := Step(cfg, s, events[0]);
      StepKeepsInv(cfg, s, events[0]);
      UndisturbedStep(cfg, s, events[0], r);
      HoldOverRuns(cfg, next, events[1..], r, k);
      var before, after := View(s, r).keys.value, View(next, r).keys.value;
      var keep := Min(|before|, |after|);
      assert k <= |after| && before[..k] == before[..keep][..k] && after[..k] == after[..keep][..k];
    }
  }

  // ---------- Coverage of one cycle ----------

  lemma KeyInSubset(evs: seq<Evaluation>, part: seq<Evaluation>, e: Evaluation)
    requires DistinctKeys(evs) && Within(part, evs) && e in evs && e.targets in KeySet(part)
    ensures e in part
  {
    var x :| x in part && x.targets == e.targets;
    SameKeySameElement(evs, x, e);
  }

  /** Whatever the cursor passes ends up in the list being built, be it by priority or by exploration. */
  lemma KeepAndExploreCovers(evs: seq<Evaluation>, kept: seq<Evaluation>, count: int, cursor: Option<nat>, d: nat)
    requires DistinctKeys(evs) && Within(kept, evs) && evs != []
    requires d < Advance(evs, KeySet(kept), count, cursor)
    ensures At(evs, cursor.GetOr(0), d) in kept + Explore(evs, KeySet(kept), count, cursor).selected
  {
    var e := At(evs, cursor.GetOr(0), d);
    ExploreCovers(evs, KeySet(kept), count, cursor, d);
    if e.targets in KeySet(kept) {
      KeyInSubset(evs, kept, e);
    }
  }

  function ResizeAdvance(evs: seq<Evaluation>, warm: seq<Evaluation>, expected: nat, cursor: Option<nat>): nat {
    var kept := warm[..Min(expected, |warm|)];
    Advance(evs, KeySet(kept), expected - |kept|, cursor)
  }

  function MixAdvance(cfg: Config, recent: RecentTable, route: Route, pool: seq<Evaluation>, count: int, now: real,
                      cursor: Option<nat>): nat
  {
    var priority := Priority(cfg, recent, route, pool, count, now);
    Advance(pool, KeySet(priority), count - |priority|, cursor)
  }

  /** The slots a mix leaves to exploration. */
  function ExplorationSlots(cfg: Config, recent: RecentTable, route: Route, pool: seq<Evaluation>, count: int,
                            now: real): nat {
    Max(0, count - |Priority(cfg, recent, route, pool, count, now)|)
  }

  lemma MixCovers(cfg: Config, recent: RecentTable, route: Route, pool: seq<Evaluation>, count: nat, now: real,
                  cursor: Option<nat>, d: nat)
    requires cfg.Valid() && DistinctKeys(pool) && 0 < count <= |pool|
    requires d < MixAdvance(cfg, recent, route, pool, count, now, cursor)
    ensures At(pool, cursor.GetOr(0), d) in Mix(cfg, recent, route, pool, count, now, cursor).window
  {
    hide Explore, Advance, At, KeySet, Priority, Within, DistinctKeys;
    var priority := Priority(cfg, recent, route, pool, count, now);
    PriorityFacts(cfg, recent, route, pool, count, now);
    KeepAndExploreCovers(pool, priority, count - |priority|, cursor, d);
  }

  lemma MixMoves(cfg: Config, recent: RecentTable, route: Route, pool: seq<Evaluation>, count: nat, now: real,
                 cursor: Option<nat>)
    requires pool != []
    ensures Congruent(Mix(cfg, recent, route, pool, count, now, cursor).cursor.GetOr(0),
                      cursor.GetOr(0) + MixAdvance(cfg, recent, route, pool, count, now, cursor), |pool|)
  {
    hide Congruent, Explore, Advance, KeySet, Priority;
    var priority := Priority(cfg, recent, route, pool, count, now);
    ExploreMoves(pool, KeySet(priority), count - |priority|, cursor);
  }

  lemma MixAdvances(cfg: Config, recent: RecentTable, route: Route, pool: seq<Evaluation>, count: nat, now: real,
                    cursor: Option<nat>)
    requires cfg.Valid() && DistinctKeys(pool) && 0 < count <= |pool|
    ensures ExplorationSlots(cfg, recent, route, pool, count, now) <= MixAdvance(cfg, recent, route, pool, count, now,
        cursor)
  {
    var priority := Priority(cfg, recent, route, pool, count, now);
    PriorityFacts(cfg, recent, route, pool, count, now);
    KeySetSize(priority);
    UnexcludedCount(pool, KeySet(priority));
    ExploreLength(pool, KeySet(priority), count - |priority|, cursor);
    ExploreMoves(pool, KeySet(priority), count - |priority|, cursor);
  }

  /** How far one cycle moves a route's exploration cursor. */
  function WindowAdvance(cfg: Config, recent: RecentTable, route: Route, evs: seq<Evaluation>, slots: nat, now: real,
                         rs: RouteState): nat {
    var expected := PrefetchCount(cfg, route, evs, slots);
    if slots == 0 then 0
    else if Survives(evs, now, rs) then ResizeAdvance(evs, Rebind(evs, rs.keys.GetOr([])).value, expected, rs.cursor)
    else MixAdvance(cfg, recent, route, evs, expected, now, rs.cursor)
  }

  /** The exploration slots a cycle's window build leaves after priority; none without a build. */
  function BuildSlots(cfg: Config, recent: RecentTable, route: Route, evs: seq<Evaluation>, slots: nat, now: real,
                      rs: RouteState): nat {
    if slots == 0 || Survives(evs, now, rs) then 0
    else ExplorationSlots(cfg, recent, route, evs, PrefetchCount(cfg, route, evs, slots), now)
  }

  lemma ResizeCovers(evs: seq<Evaluation>, warm: seq<Evaluation>, expected: nat, cursor: Option<nat>, d: nat)
    requires DistinctKeys(evs) && Within(warm, evs) && evs != []
    requires d < ResizeAdvance(evs, warm, expected, cursor)
    ensures At(evs, cursor.GetOr(0), d) in Resize(evs, warm, expected, cursor).window
  {
    var kept := warm[..Min(expected, |warm|)];
    KeepAndExploreCovers(evs, kept, expected - |kept|, cursor, d);
  }

  /** Everything the cursor passes in a cycle is in that cycle's target window. */
  lemma WindowCovers(cfg: Config, recent: RecentTable, route: Route, evs: seq<Evaluation>, slots: nat, now: real,
                     rs: RouteState, d: nat)
    requires cfg.Valid() && DistinctKeys(evs) && slots <= |evs| && evs != [] && Coherent(rs, evs)
    requires slots > 0 && d < WindowAdvance(cfg, recent, route, evs, slots, now, rs)
    ensures At(evs, rs.cursor.GetOr(0), d) in StepWindow(cfg, recent, route, evs, slots, now, true, rs).window.value
  {
    var expected := PrefetchCount(cfg, route, evs, slots);
    PrefetchBounds(cfg, route, evs, slots);
    if Survives(evs, now, rs) {
      StepRestores(cfg, recent, route, evs, slots, now, rs);
      ResizeCovers(evs, Rebind(evs, rs.keys.value).value, expected, rs.cursor, d);
    } else {
      StepRebuilds(cfg, recent, route, evs, slots, now, rs);
      MixCovers(cfg, recent, route, evs, expected, now, rs.cursor, d);
    }
  }

  lemma ResizeMoves(evs: seq<Evaluation>, warm: seq<Evaluation>, expected: nat, cursor: Option<nat>)
    requires evs != []
    ensures Congruent(Resize(evs, warm, expected, cursor).cursor.GetOr(0),
                      cursor.GetOr(0) + ResizeAdvance(evs, warm, expected, cursor), |evs|)
  {
    hide Congruent, Explore, Advance, KeySet;
    var kept := warm[..Min(expected, |warm|)];
    ExploreMoves(evs, KeySet(kept), expected - |kept|, cursor);
  }

  lemma IdleStepMoves(cfg: Config, recent: RecentTable, route: Route, evs: seq<Evaluation>, now: real, rs: RouteState)
    requires evs != []
    ensures Congruent(RouteStep(cfg, recent, route, evs, 0, now, true, rs).state.cursor.GetOr(0),
                      rs.cursor.GetOr(0) + WindowAdvance(cfg, recent, route, evs, 0, now, rs), |evs|)
  {
  }

  /** The cursor moves by WindowAdvance. */
  lemma WindowMoves(cfg: Config, recent: RecentTable, route: Route, evs: seq<Evaluation>, slots: nat, now: real,
                    rs: RouteState)
    requires cfg.Valid() && DistinctKeys(evs) && slots <= |evs| && evs != [] && Coherent(rs, evs)
    ensures Congruent(RouteStep(cfg, recent, route, evs, slots, now, true, rs).state.cursor.GetOr(0),
                      rs.cursor.GetOr(0) + WindowAdvance(cfg, recent, route, evs, slots, now, rs), |evs|)
  {
    hide Congruent, StepWindow, RouteStep, Resize, Mix, ResizeAdvance, MixAdvance, PrefetchCount;
    var expected := PrefetchCount(cfg, route, evs, slots);
    if slots == 0 {
      IdleStepMoves(cfg, recent, route, evs, now, rs);
    } else {
      StepUsesWindow(cfg, recent, route, evs, slots, now, rs);
      PrefetchBounds(cfg, route, evs, slots);
      if Survives(evs, now, rs) {
        StepRestores(cfg, recent, route, evs, slots, now, rs);
        ResizeMoves(evs, Rebind(evs, rs.keys.value).value, expected, rs.cursor);
      } else {
        StepRebuilds(cfg, recent, route, evs, slots, now, rs);
        MixMoves(cfg, recent, route, evs, expected, now, rs.cursor);
      }
    }
  }

  /** A build moves the cursor by at least its exploration slots. */
  lemma BuildAdvances(cfg: Config, recent: RecentTable, route: Route, evs: seq<Evaluation>, slots: nat, now: real,
                      rs: RouteState)
    requires cfg.Valid() && DistinctKeys(evs) && slots <= |evs| && evs != []
    ensures BuildSlots(cfg, recent, route, evs, slots, now, rs) <= WindowAdvance(cfg, recent, route, evs, slots, now,
        rs)
  {
    if slots > 0 && !Survives(evs, now, rs) {
      PrefetchBounds(cfg, route, evs, slots);
      MixAdvances(cfg, recent, route, evs, PrefetchCount(cfg, route, evs, slots), now, rs.cursor);
    }
  }
}
