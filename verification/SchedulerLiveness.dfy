/**
 Nothing is starved: over any run whose re-plans bring a route the same targets, all of them enter
 its target window; under a fixed plan every member of a held window becomes active, and every
 route is served.
 */
module SchedulerLiveness {
  import opened Collections
  import opened Modular
  import opened SchedulerTypes
  import opened SchedulerRotation
  import opened SchedulerRoute
  import opened SchedulerAllocation
  import opened SchedulerCycle
  import opened SchedulerRuns

  ghost predicate Planned(s: Sched, r: Route) {
    s.planned != [] && r in RouteOrder(s.planned)
  }

  // ---------- Target windows ----------

  /** The exploration slots of the window build in one cycle; 0 when the window survives. */
  function CycleBuildSlots(cfg: Config, s: Sched, limit: int, now: real, r: Route): nat
    requires s.planned != [] && r in RouteOrder(s.planned)
  {
    BuildSlots(cfg, CycleStart(cfg, s, s.planned, now).recent, r, RouteEvs(s.planned, r),
               SlotsOf(cfg, s, s.planned, limit, r), now, View(s, r))
  }

  function CycleAdvance(cfg: Config, s: Sched, limit: int, now: real, r: Route): nat
    requires s.planned != [] && r in RouteOrder(s.planned)
  {
    WindowAdvance(cfg, CycleStart(cfg, s, s.planned, now).recent, r, RouteEvs(s.planned, r),
                  SlotsOf(cfg, s, s.planned, limit, r), now, View(s, r))
  }

  function CursorOf(s: Sched, r: Route): nat {
    View(s, r).cursor.GetOr(0)
  }

  lemma PlannedRouteFacts(cfg: Config, s: Sched, limit: int, r: Route)
    requires cfg.Valid() && Inv(s) && Planned(s, r)
    ensures var evs := RouteEvs(s.planned, r);
            evs != [] && DistinctKeys(evs) && SlotsOf(cfg, s, s.planned, limit, r) <= |evs| && Coherent(View(s, r), evs)
  {
    RouteOrderFacts(s.planned);
    DistinctRouteEvs(s.planned, r);
    SlotBounds(cfg, s, s.planned, limit, r);
  }

  lemma CycleCovers(cfg: Config, s: Sched, limit: int, now: real, r: Route, d: nat)
    requires cfg.Valid() && Inv(s) && Planned(s, r)
    requires d < CycleAdvance(cfg, s, limit, now, r)
    ensures RouteEvs(s.planned, r) != []
    ensures At(RouteEvs(s.planned, r), CursorOf(s, r), d) in Select(cfg, s, s.planned, true, limit, now).target
  {
    var evs := RouteEvs(s.planned, r);
    var recent := CycleStart(cfg, s, s.planned, now).recent;
    var slots := SlotsOf(cfg, s, s.planned, limit, r);
    PlannedRouteFacts(cfg, s, limit, r);
    WindowCovers(cfg, recent, r, evs, slots, now, View(s, r), d);
    StepUsesWindow(cfg, recent, r, evs, slots, now, View(s, r));
    RouteListsIncluded(cfg, s, s.planned, true, limit, now, r, At(evs, CursorOf(s, r), d));
  }

  lemma CycleMoves(cfg: Config, s: Sched, limit: int, now: real, r: Route)
    requires cfg.Valid() && Inv(s) && Planned(s, r)
    ensures RouteEvs(s.planned, r) != []
    ensures Congruent(CursorOf(Select(cfg, s, s.planned, true, limit, now).state, r),
                      CursorOf(s, r) + CycleAdvance(cfg, s, limit, now, r), |RouteEvs(s.planned, r)|)
  {
    hide Congruent, RouteStep, WindowAdvance, SlotsOf, CycleStart, Select, View, RouteEvs, Inv, RouteOrder, Coherent,
         DistinctKeys;
    PlannedRouteFacts(cfg, s, limit, r);
    CycleProject(cfg, s, s.planned, true, limit, now, r);
    WindowMoves(cfg, CycleStart(cfg, s, s.planned, now).recent, r, RouteEvs(s.planned, r),
                SlotsOf(cfg, s, s.planned, limit, r), now, View(s, r));
  }

  lemma CycleBuilds(cfg: Config, s: Sched, limit: int, now: real, r: Route)
    requires cfg.Valid() && Inv(s) && Planned(s, r)
    ensures CycleBuildSlots(cfg, s, limit, now, r) <= CycleAdvance(cfg, s, limit, now, r)
  {
    PlannedRouteFacts(cfg, s, limit, r);
    BuildAdvances(cfg, CycleStart(cfg, s, s.planned, now).recent, r, RouteEvs(s.planned, r),
                  SlotsOf(cfg, s, s.planned, limit, r), now, View(s, r));
  }

  /** The exploration slots left by all window builds of a run. */
  function Explored(cfg: Config, s: Sched, events: seq<Event>, r: Route): nat
    decreases |events|
  {
    if events == [] then 0
    else
      (if events[0].Cycle? && s.planned != [] && r in RouteOrder(s.planned)
       then CycleBuildSlots(cfg, s, events[0].limit, events[0].now, r) else 0)
      + Explored(cfg, Step(cfg, s, events[0]), events[1..], r)
  }

  /** The number of window builds of a run that leave at least `e` exploration slots. */
  function BuildsLeaving(cfg: Config, s: Sched, events: seq<Event>, r: Route, e: nat): nat
    decreases |events|
  {
    if events == [] then 0
    else
      (if events[0].Cycle? && s.planned != [] && r in RouteOrder(s.planned)
          && CycleBuildSlots(cfg, s, events[0].limit, events[0].now, r) >= e then 1 else 0)
      + BuildsLeaving(cfg, Step(cfg, s, events[0]), events[1..], r, e)
  }

  /** Some cycle of the run has `x` in its target window. */
  predicate EverTargeted(cfg: Config, s: Sched, events: seq<Event>, x: Evaluation)
    decreases |events|
  {
    events != []
    && ((events[0].Cycle? && x in Select(cfg, s, s.planned, true, events[0].limit, events[0].now).target)
        || EverTargeted(cfg, Step(cfg, s, events[0]), events[1..], x))
  }

  /** Positions congruent modulo the length hold the same member. */
  lemma AtShift(evs: seq<Evaluation>, c: nat, adv: nat, c': nat, d: nat)
    requires evs != [] && Congruent(c', c + adv, |evs|)
    ensures At(evs, c', d) == At(evs, c, adv + d)
  {
    CongruentShift(c', c + adv, d, |evs|);
    assert c + adv + d == c + (adv + d);
    AtCongruent(evs, c', c, d, adv + d);
  }

  lemma AtCongruent(evs: seq<Evaluation>, a: nat, b: nat, d: nat, e: nat)
    requires evs != [] && Congruent(a + d, b + e, |evs|)
    ensures At(evs, a, d) == At(evs, b, e)
  {
  }

  /** Some cycle of the run has an evaluation of the route with these targets in its target window. */
  ghost predicate EverTargetsKey(cfg: Config, s: Sched, events: seq<Event>, r: Route, key: Key)
    decreases |events|
  {
    events != []
    && ((events[0].Cycle? && TargetsKey(Select(cfg, s, s.planned, true, events[0].limit, events[0].now).target, r, key))
        || EverTargetsKey(cfg, Step(cfg, s, events[0]), events[1..], r, key))
  }

  ghost predicate TargetsKey(target: seq<Evaluation>, r: Route, key: Key) {
    exists e :: e in target && e.route == r && e.targets == key
  }

  /**
   Every re-plan of the run brings the route the same targets in the same order, as a fresh snapshot
   of the same markets does.
   */
  ghost predicate KeepsKeys(cfg: Config, s: Sched, events: seq<Event>, r: Route)
    decreases |events|
  {
    events == []
    || (&& Legal(s, events[0])
        && (events[0].Replan? ==> KeysOf(RouteEvs(events[0].evs, r)) == KeysOf(RouteEvs(s.planned, r)))
        && KeepsKeys(cfg, Step(cfg, s, events[0]), events[1..], r))
  }

  lemma SameKeyAt(a: seq<Evaluation>, b: seq<Evaluation>, c: nat, d: nat)
    requires KeysOf(a) == KeysOf(b) && a != []
    ensures b != [] && At(a, c, d).targets == At(b, c, d).targets
  {
    assert |a| == |KeysOf(a)| == |KeysOf(b)| == |b|;
    var i := (c + d) % |a|;
    assert KeysOf(a)[i] == KeysOf(b)[i];
  }

  lemma ReplanKeepsRoute(s: Sched, evs: seq<Evaluation>, same: bool, r: Route)
    requires Planned(s, r) && KeysOf(RouteEvs(evs, r)) == KeysOf(RouteEvs(s.planned, r))
    ensures Planned(SetPlanned(s, evs, same), r) && CursorOf(SetPlanned(s, evs, same), r) == CursorOf(s, r)
  {
    RouteOrderFacts(s.planned);
    RouteOrderFacts(evs);
    assert |RouteEvs(evs, r)| == |KeysOf(RouteEvs(evs, r))| == |RouteEvs(s.planned, r)|;
  }

  lemma CycleCoversKey(cfg: Config, s: Sched, limit: int, now: real, r: Route, d: nat)
    requires cfg.Valid() && Inv(s) && Planned(s, r)
    requires d < CycleAdvance(cfg, s, limit, now, r)
    ensures RouteEvs(s.planned, r) != []
    ensures TargetsKey(Select(cfg, s, s.planned, true, limit, now).target, r,
                       At(RouteEvs(s.planned, r), CursorOf(s, r), d).targets)
  {
    hide CycleAdvance, Select, Inv, RouteEvs, RouteOrder, At;
    CycleCovers(cfg, s, limit, now, r, d);
    var x := At(RouteEvs(s.planned, r), CursorOf(s, r), d);
    AtMember(RouteEvs(s.planned, r), CursorOf(s, r), d);
    RouteEvsMembers(s.planned, r, x);
  }

  lemma AtMember(evs: seq<Evaluation>, c: nat, d: nat)
    requires evs != []
    ensures At(evs, c, d) in evs
  {
  }

  /** The walk over a run: every position closer than the total exploration is visited. */
  lemma {:induction false} RunCovers(cfg: Config, s: Sched, events: seq<Event>, r: Route, d: nat)
    requires cfg.Valid() && Inv(s) && Planned(s, r) && KeepsKeys(cfg, s, events, r)
    requires d < Explored(cfg, s, events, r)
    ensures RouteEvs(s.planned, r) != []
    ensures EverTargetsKey(cfg, s, events, r, At(RouteEvs(s.planned, r), CursorOf(s, r), d).targets)
    decreases |events|
  {
    hide Congruent, At, Select, CycleAdvance, CycleBuildSlots, Inv, RouteOrder, RouteEvs, TargetsKey, KeysOf,
         SetPlanned;
    var ev, evs := events[0], RouteEvs(s.planned, r);
    var t := Step(cfg, s, ev);
    StepKeepsInv(cfg, s, ev);
    RouteOrderFacts(s.planned);
    match ev
    case Cycle(limit, now) =>
      StepKeepsPlan(cfg, s, ev);
      var adv := CycleAdvance(cfg, s, limit, now, r);
      CycleBuilds(cfg, s, limit, now, r);
      if d < adv {
        CycleCoversKey(cfg, s, limit, now, r, d);
      } else {
        CycleMoves(cfg, s, limit, now, r);
        RunCovers(cfg, t, events[1..], r, d - adv);
        AtShift(evs, CursorOf(s, r), adv, CursorOf(t, r), d - adv);
      }
    case Replan(plan, same) =>
      ReplanKeepsRoute(s, plan, same, r);
      InstalledPlan(s, plan, same);
      RunCovers(cfg, t, events[1..], r, d);
      SameKeyAt(evs, RouteEvs(plan, r), CursorOf(s, r), d);
    case Mark(route, key, netSpread, at) =>
      StepKeepsPlan(cfg, s, ev);
      RunCovers(cfg, t, events[1..], r, d);
  }

  lemma InstalledPlan(s: Sched, evs: seq<Evaluation>, same: bool)
    ensures SetPlanned(s, evs, same).planned == evs
  {
  }

  /**
   Starvation freedom: over a run whose window builds for route r leave, in total, at least as many
   exploration slots as r has evaluations, all targets of r enter a target window, whatever was recent,
   resized or re-marked in between, and however often the plan was renewed with the same targets.
   */
  lemma TargetsNotStarved(cfg: Config, s: Sched, events: seq<Event>, r: Route, x: Evaluation)
    requires cfg.Valid() && Inv(s) && Planned(s, r) && KeepsKeys(cfg, s, events, r)
    requires x in RouteEvs(s.planned, r)
    requires Explored(cfg, s, events, r) >= |RouteEvs(s.planned, r)|
    ensures EverTargetsKey(cfg, s, events, r, x.targets)
    ensures NoReplan(events) ==> EverTargeted(cfg, s, events, x)
  {
    hide Inv, Explored, EverTargeted, EverTargetsKey, Planned, KeepsKeys;
    var evs := RouteEvs(s.planned, r);
    var j :| 0 <= j < |evs| && evs[j] == x;
    var d := ModReach(CursorOf(s, r), j, |evs|);
    RunCovers(cfg, s, events, r, d);
    if NoReplan(events) {
      KeyIsEvaluation(cfg, s, events, r, x);
    }
  }

  lemma TargetedIsPlanned(cfg: Config, s: Sched, limit: int, now: real, r: Route, x: Evaluation)
    requires cfg.Valid() && Inv(s) && x in RouteEvs(s.planned, r)
    requires TargetsKey(Select(cfg, s, s.planned, true, limit, now).target, r, x.targets)
    ensures x in Select(cfg, s, s.planned, true, limit, now).target
  {
    hide Select, CacheCoherent, RouteEvs;
    ActiveWithinTarget(cfg, s, s.planned, true, limit, now);
    var e :| e in Select(cfg, s, s.planned, true, limit, now).target && e.route == r && e.targets == x.targets;
    RouteEvsMembers(s.planned, r, e);
    DistinctRouteEvs(s.planned, r);
    SameKeySameElement(RouteEvs(s.planned, r), e, x);
  }

  /** Under a fixed plan the evaluation with these targets is the planned one. */
  lemma {:induction false} KeyIsEvaluation(cfg: Config, s: Sched, events: seq<Event>, r: Route, x: Evaluation)
    requires cfg.Valid() && Inv(s) && NoReplan(events) && x in RouteEvs(s.planned, r)
    requires EverTargetsKey(cfg, s, events, r, x.targets)
    ensures EverTargeted(cfg, s, events, x)
    decreases |events|
  {
    hide Select, Inv, TargetsKey, RouteEvs;
    var ev := events[0];
    if ev.Cycle? && TargetsKey(Select(cfg, s, s.planned, true, ev.limit, ev.now).target, r, x.targets) {
      TargetedIsPlanned(cfg, s, ev.limit, ev.now, r, x);
    } else {
      StepKeepsInv(cfg, s, ev);
      StepKeepsPlan(cfg, s, ev);
      KeyIsEvaluation(cfg, Step(cfg, s, ev), events[1..], r, x);
    }
  }

  lemma {:induction false} NoReplanKeepsKeys(cfg: Config, s: Sched, events: seq<Event>, r: Route)
    requires NoReplan(events)
    ensures KeepsKeys(cfg, s, events, r)
    decreases |events|
  {
    hide Step;
    if events != [] {
      NoReplanKeepsKeys(cfg, Step(cfg, s, events[0]), events[1..], r);
    }
  }

  lemma {:induction false} BuildsAddUp(cfg: Config, s: Sched, events: seq<Event>, r: Route, e: nat)
    ensures Explored(cfg, s, events, r) >= Times(BuildsLeaving(cfg, s, events, r, e), e)
    decreases |events|
  {
    hide CycleBuildSlots, Step;
    if events != [] {
      BuildsAddUp(cfg, Step(cfg, s, events[0]), events[1..], r, e);
    }
  }

  /** In particular ceil(n / e) window builds that each leave e exploration slots reach all n targets. */
  lemma CeilBuildsSuffice(cfg: Config, s: Sched, events: seq<Event>, r: Route, e: nat, x: Evaluation)
    requires cfg.Valid() && Inv(s) && Planned(s, r) && KeepsKeys(cfg, s, events, r) && e >= 1
    requires x in RouteEvs(s.planned, r)
    requires BuildsLeaving(cfg, s, events, r, e) >= (|RouteEvs(s.planned, r)| + e - 1) / e
    ensures EverTargetsKey(cfg, s, events, r, x.targets)
    ensures NoReplan(events) ==> EverTargeted(cfg, s, events, x)
  {
    hide Inv, Explored, EverTargeted, EverTargetsKey, KeepsKeys, Planned, BuildsLeaving;
    var b, n := BuildsLeaving(cfg, s, events, r, e), |RouteEvs(s.planned, r)|;
    BuildsAddUp(cfg, s, events, r, e);
    TimesIsProduct(b, e);
    CeilCovers(n, e, b);
    TargetsNotStarved(cfg, s, events, r, x);
  }

  lemma CeilCovers(n: nat, e: nat, b: nat)
    requires e >= 1 && b >= (n + e - 1) / e
    ensures b * e >= n
  {
    var q := (n + e - 1) / e;
    assert n + e - 1 == q * e + (n + e - 1) % e;
    ProductMonotone(q, b, e);
  }

  // ---------- The active choice within a fixed window ----------

  /** Throughout the run route r keeps its window, and the window is `h`. */
  ghost predicate Steady(cfg: Config, s: Sched, events: seq<Event>, r: Route, h: seq<Evaluation>)
    decreases |events|
  {
    events == []
    || ((events[0].Cycle? ==>
           && Planned(s, r)
           && SlotsOf(cfg, s, s.planned, events[0].limit, r) > 0
           && Survives(RouteEvs(s.planned, r), events[0].now, View(s, r))
           && StepOf(cfg, s, s.planned, true, events[0].limit, events[0].now, r).target == h)
        && Steady(cfg, Step(cfg, s, events[0]), events[1..], r, h))
  }

  function CycleActiveSlots(cfg: Config, s: Sched, limit: int, now: real, r: Route, h: seq<Evaluation>): nat
    requires s.planned != [] && r in RouteOrder(s.planned)
  {
    ExplorationSlots(cfg, CycleStart(cfg, s, s.planned, now).recent, r, h, SlotsOf(cfg, s, s.planned, limit, r), now)
  }

  function CycleActiveAdvance(cfg: Config, s: Sched, limit: int, now: real, r: Route, h: seq<Evaluation>): nat
    requires s.planned != [] && r in RouteOrder(s.planned)
  {
    MixAdvance(cfg, CycleStart(cfg, s, s.planned, now).recent, r, h, SlotsOf(cfg, s, s.planned, limit, r), now,
               View(s, r).activeCursor)
  }

  function ActiveCursorOf(s: Sched, r: Route): nat {
    View(s, r).activeCursor.GetOr(0)
  }

  /** The non-priority active slots that a steady run gives to rotation. */
  function ActiveExplored(cfg: Config, s: Sched, events: seq<Event>, r: Route, h: seq<Evaluation>): nat
    decreases |events|
  {
    if events == [] then 0
    else
      (if events[0].Cycle? && s.planned != [] && r in RouteOrder(s.planned)
       then CycleActiveSlots(cfg, s, events[0].limit, events[0].now, r, h) else 0)
      + ActiveExplored(cfg, Step(cfg, s, events[0]), events[1..], r, h)
  }

  predicate EverActive(cfg: Config, s: Sched, events: seq<Event>, x: Evaluation)
    decreases |events|
  {
    events != []
    && ((events[0].Cycle? && x in Select(cfg, s, s.planned, true, events[0].limit, events[0].now).active)
        || EverActive(cfg, Step(cfg, s, events[0]), events[1..], x))
  }

  /** In a steady cycle the active list is the mix of the fixed window at the active cursor. */
  lemma SteadyCycle(cfg: Config, s: Sched, limit: int, now: real, r: Route, h: seq<Evaluation>)
    requires cfg.Valid() && Inv(s) && Planned(s, r)
    requires SlotsOf(cfg, s, s.planned, limit, r) > 0 && Survives(RouteEvs(s.planned, r), now, View(s, r))
    requires StepOf(cfg, s, s.planned, true, limit, now, r).target == h
    ensures var slots := SlotsOf(cfg, s, s.planned, limit, r);
            var step := StepOf(cfg, s, s.planned, true, limit, now, r);
            var m := Mix(cfg, CycleStart(cfg, s, s.planned, now).recent, r, h, slots, now, View(s, r).activeCursor);
            && step.active == m.window && step.state.activeCursor == m.cursor
            && DistinctKeys(h) && slots <= |h|
  {
    var evs := RouteEvs(s.planned, r);
    var recent := CycleStart(cfg, s, s.planned, now).recent;
    var slots := SlotsOf(cfg, s, s.planned, limit, r);
    PlannedRouteFacts(cfg, s, limit, r);
    StepUsesWindow(cfg, recent, r, evs, slots, now, View(s, r));
    StepRestores(cfg, recent, r, evs, slots, now, View(s, r));
    RouteStepExact(cfg, recent, r, evs, slots, now, true, View(s, r));
    PrefetchBounds(cfg, r, evs, slots);
  }

  lemma SteadyCovers(cfg: Config, s: Sched, limit: int, now: real, r: Route, h: seq<Evaluation>, d: nat)
    requires cfg.Valid() && Inv(s) && Planned(s, r)
    requires SlotsOf(cfg, s, s.planned, limit, r) > 0 && Survives(RouteEvs(s.planned, r), now, View(s, r))
    requires StepOf(cfg, s, s.planned, true, limit, now, r).target == h
    requires d < CycleActiveAdvance(cfg, s, limit, now, r, h)
    ensures h != []
    ensures At(h, ActiveCursorOf(s, r), d) in Select(cfg, s, s.planned, true, limit, now).active
  {
    SteadyCycle(cfg, s, limit, now, r, h);
    MixCovers(cfg, CycleStart(cfg, s, s.planned, now).recent, r, h, SlotsOf(cfg, s, s.planned, limit, r), now,
              View(s, r).activeCursor, d);
    RouteListsIncluded(cfg, s, s.planned, true, limit, now, r, At(h, ActiveCursorOf(s, r), d));
  }

  lemma SteadyMoves(cfg: Config, s: Sched, limit: int, now: real, r: Route, h: seq<Evaluation>)
    requires cfg.Valid() && Inv(s) && Planned(s, r)
    requires SlotsOf(cfg, s, s.planned, limit, r) > 0 && Survives(RouteEvs(s.planned, r), now, View(s, r))
    requires StepOf(cfg, s, s.planned, true, limit, now, r).target == h
    ensures h != []
    ensures Congruent(ActiveCursorOf(Select(cfg, s, s.planned, true, limit, now).state, r),
                      ActiveCursorOf(s, r) + CycleActiveAdvance(cfg, s, limit, now, r, h), |h|)
    ensures CycleActiveSlots(cfg, s, limit, now, r, h) <= CycleActiveAdvance(cfg, s, limit, now, r, h)
  {
    hide Congruent, Select, StepOf, Mix, MixAdvance, ExplorationSlots, SlotsOf, CycleStart, View, Inv, Survives,
         RouteEvs,
         RouteOrder, DistinctKeys;
    var recent := CycleStart(cfg, s, s.planned, now).recent;
    var slots := SlotsOf(cfg, s, s.planned, limit, r);
    SteadyCycle(cfg, s, limit, now, r, h);
    CycleProject(cfg, s, s.planned, true, limit, now, r);
    MixMoves(cfg, recent, r, h, slots, now, View(s, r).activeCursor);
    MixAdvances(cfg, recent, r, h, slots, now, View(s, r).activeCursor);
  }

  lemma {:induction false} SteadyRunCovers(cfg: Config, s: Sched, events: seq<Event>, r: Route, h: seq<Evaluation>,
                                           d: nat)
    requires cfg.Valid() && Inv(s) && NoReplan(events) && h != []
    requires Steady(cfg, s, events, r, h)
    requires d < ActiveExplored(cfg, s, events, r, h)
    ensures EverActive(cfg, s, events, At(h, ActiveCursorOf(s, r), d))
    decreases |events|
  {
    hide Congruent, At, Select, CycleActiveAdvance, CycleActiveSlots, SlotsOf, StepOf, Inv, Survives, RouteEvs;
    var ev := events[0];
    var t := Step(cfg, s, ev);
    StepKeepsInv(cfg, s, ev);
    if ev.Cycle? {
      var adv := CycleActiveAdvance(cfg, s, ev.limit, ev.now, r, h);
      SteadyMoves(cfg, s, ev.limit, ev.now, r, h);
      if d < adv {
        SteadyCovers(cfg, s, ev.limit, ev.now, r, h, d);
      } else {
        SteadyRunCovers(cfg, t, events[1..], r, h, d - adv);
        AtShift(h, ActiveCursorOf(s, r), adv, ActiveCursorOf(t, r), d - adv);
      }
    } else {
      SteadyRunCovers(cfg, t, events[1..], r, h, d);
    }
  }

  /**
   Over a run in which a route keeps one window of size |h| and rotation gets at least |h|
   non-priority active slots in total, every member of the window is active at least once.
   */
  lemma WindowMembersActivated(cfg: Config, s: Sched, events: seq<Event>, r: Route, h: seq<Evaluation>, x: Evaluation)
    requires cfg.Valid() && Inv(s) && NoReplan(events) && Steady(cfg, s, events, r, h)
    requires x in h && ActiveExplored(cfg, s, events, r, h) >= |h|
    ensures EverActive(cfg, s, events, x)
  {
    var j :| 0 <= j < |h| && h[j] == x;
    var d := ModReach(ActiveCursorOf(s, r), j, |h|);
    SteadyRunCovers(cfg, s, events, r, h, d);
  }

  /** The number of cycles of a run that leave rotation at least `e` active slots in the window. */
  function SelectionsLeaving(cfg: Config, s: Sched, events: seq<Event>, r: Route, h: seq<Evaluation>, e: nat): nat
    decreases |events|
  {
    if events == [] then 0
    else
      (if events[0].Cycle? && s.planned != [] && r in RouteOrder(s.planned)
          && CycleActiveSlots(cfg, s, events[0].limit, events[0].now, r, h) >= e then 1 else 0)
      + SelectionsLeaving(cfg, Step(cfg, s, events[0]), events[1..], r, h, e)
  }

  lemma {:induction false} SelectionsAddUp(cfg: Config, s: Sched, events: seq<Event>, r: Route, h: seq<Evaluation>,
                                           e: nat)
    ensures ActiveExplored(cfg, s, events, r, h) >= Times(SelectionsLeaving(cfg, s, events, r, h, e), e)
    decreases |events|
  {
    hide CycleActiveSlots, Step;
    if events != [] {
      SelectionsAddUp(cfg, Step(cfg, s, events[0]), events[1..], r, h, e);
    }
  }

  /**
   In particular ceil(|h| / e) cycles that each leave e active slots to rotation activate all
   members of the window.
   */
  lemma CeilSelectionsSuffice(cfg: Config, s: Sched, events: seq<Event>, r: Route, h: seq<Evaluation>, e: nat,
                              x: Evaluation)
    requires cfg.Valid() && Inv(s) && NoReplan(events) && Steady(cfg, s, events, r, h) && e >= 1
    requires x in h && SelectionsLeaving(cfg, s, events, r, h, e) >= (|h| + e - 1) / e
    ensures EverActive(cfg, s, events, x)
  {
    hide Inv, Steady, ActiveExplored, EverActive, SelectionsLeaving;
    var b := SelectionsLeaving(cfg, s, events, r, h, e);
    SelectionsAddUp(cfg, s, events, r, h, e);
    TimesIsProduct(b, e);
    CeilCovers(|h|, e, b);
    WindowMembersActivated(cfg, s, events, r, h, x);
  }

  // ---------- Every route is served ----------

  function Cycles(events: seq<Event>): nat {
    if events == [] then 0 else (if events[0].Cycle? then 1 else 0) + Cycles(events[1..])
  }

  ghost predicate EverServed(cfg: Config, s: Sched, events: seq<Event>, r: Route)
    decreases |events|
  {
    events != []
    && ((events[0].Cycle? && Planned(s, r) && SlotsOf(cfg, s, s.planned, events[0].limit, r) >= 1)
        || EverServed(cfg, Step(cfg, s, events[0]), events[1..], r))
  }

  lemma FirstInOrderServed(cfg: Config, s: Sched, limit: int)
    requires cfg.Valid() && s.planned != []
    ensures var routes := RouteOrder(s.planned);
            var first := routes[s.routeCursor % |routes|];
            first in routes && SlotsOf(cfg, s, s.planned, limit, first) >= 1
  {
    hide Allocate, RouteOrder, RouteEvs, Ordered, Limits, Weights;
    var ordered := Ordered(s, s.planned);
    RouteOrderFacts(s.planned);
    OrderedMembers(s, s.planned);
    OrderedFirst(s, s.planned);
    WeightsPositive(cfg, ordered);
    LimitsPositive(cfg, s.planned, ordered);
    FirstRouteServed(Limits(cfg, s.planned, ordered), Weights(cfg, ordered), Budget(s.planned, limit));
    IndexOfDistinct(ordered, 0);
  }

  lemma OrderedFirst(s: Sched, evs: seq<Evaluation>)
    requires evs != []
    ensures var routes := RouteOrder(evs);
            Ordered(s, evs) != [] && Ordered(s, evs)[0] == routes[s.routeCursor % |routes|]
  {
    hide RouteOrder;
  }

  /** How many cycles until route `j` is first in order. */
  function Wait(k: nat, j: nat, n: nat): nat
    requires k < n && j < n
  {
    if k <= j then j - k else j + n - k
  }

  lemma {:induction false} ServedWithin(cfg: Config, s: Sched, events: seq<Event>, j: nat)
    requires cfg.Valid() && s.planned != [] && NoReplan(events)
    requires j < |RouteOrder(s.planned)|
    requires Cycles(events) > Wait(s.routeCursor % |RouteOrder(s.planned)|, j, |RouteOrder(s.planned)|)
    ensures EverServed(cfg, s, events, RouteOrder(s.planned)[j])
    decreases |events|
  {
    hide SlotsOf, Select, RouteOrder;
    var ev, routes := events[0], RouteOrder(s.planned);
    var n, k := |routes|, s.routeCursor % |routes|;
    StepKeepsPlan(cfg, s, ev);
    if ev.Cycle? {
      FirstInOrderServed(cfg, s, ev.limit);
      if k != j {
        CycleFrame(cfg, s, ev.limit, ev.now);
        NextTurn(k, n);
        ServedWithin(cfg, Step(cfg, s, ev), events[1..], j);
      }
    } else {
      ServedWithin(cfg, Step(cfg, s, ev), events[1..], j);
    }
  }

  /** With a fixed plan every route gets a slot in any |routes| consecutive cycles. */
  lemma EveryRouteServed(cfg: Config, s: Sched, events: seq<Event>, r: Route)
    requires cfg.Valid() && Planned(s, r) && NoReplan(events)
    requires Cycles(events) >= |RouteOrder(s.planned)|
    ensures EverServed(cfg, s, events, r)
  {
    ServedWithin(cfg, s, events, IndexOf(RouteOrder(s.planned), r));
  }

  /** Weighted fairness between the planned routes of one cycle. */
  lemma RoutesShareFairly(cfg: Config, s: Sched, limit: int, r: Route, o: Route)
    requires cfg.Valid() && Planned(s, r) && Planned(s, o)
    ensures var mine, theirs := SlotsOf(cfg, s, s.planned, limit, r), SlotsOf(cfg, s, s.planned, limit, o);
            mine < Min(|RouteEvs(s.planned, r)|, cfg.CapFor(r)) ==>
              theirs <= cfg.WeightFor(o) * (mine / cfg.WeightFor(r) + 1)
  {
    hide Allocate, Ordered, RouteOrder, RouteEvs, Limits, Weights;
    var ordered := Ordered(s, s.planned);
    OrderedMembers(s, s.planned);
    WeightsPositive(cfg, ordered);
    var i, j := IndexOf(ordered, r), IndexOf(ordered, o);
    LimitAt(cfg, s.planned, ordered, i);
    LimitAt(cfg, s.planned, ordered, j);
    AllocateFair(Limits(cfg, s.planned, ordered), Weights(cfg, ordered), Budget(s.planned, limit), i, j);
  }

  lemma LimitAt(cfg: Config, evs: seq<Evaluation>, routes: seq<Route>, i: nat)
    requires i < |routes|
    ensures Limits(cfg, evs, routes)[i] == Min(|RouteEvs(evs, routes[i])|, cfg.CapFor(routes[i]))
    ensures Weights(cfg, routes)[i] == cfg.WeightFor(routes[i])
  {
    hide RouteEvs;
  }
}
