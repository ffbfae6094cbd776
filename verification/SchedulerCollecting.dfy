/**
 When the collecting loop of a cycle ends, for any plan at all: with repeated targets a route's
 active list can fall short of its slots, and the loop has no exit of its own for that
 (engine.py, the last loop of _select_evaluation_window).
 */
module SchedulerCollecting {
  import opened Collections
  import opened SchedulerTypes
  import opened SchedulerRotation
  import opened SchedulerWindow
  import opened SchedulerRoute
  import opened SchedulerAllocation
  import opened SchedulerInterleave
  import opened SchedulerCycle

  // ---------- One mix ----------

  /**
   For any pool, duplicates or not: a mix delivers the requested count iff enough of its
   members carry keys that priority has not taken.
   */
  lemma MixDeliversIff(cfg: Config, recent: RecentTable, route: Route, pool: seq<Evaluation>, count: nat, now: real,
                       cursor: Option<nat>)
    ensures |Mix(cfg, recent, route, pool, count, now, cursor).window| == count
       <==> EnoughUntaken(pool, Priority(cfg, recent, route, pool, count, now), count)
  {
    hide Priority, Explore, Unexcluded, KeySet;
    var priority := Priority(cfg, recent, route, pool, count, now);
    PriorityAtMost(cfg, recent, route, pool, count, now);
    ExploreLength(pool, KeySet(priority), count - |priority|, cursor);
  }

  predicate EnoughUntaken(pool: seq<Evaluation>, priority: seq<Evaluation>, count: nat) {
    count - |priority| <= |Unexcluded(pool, KeySet(priority))|
  }

  lemma PriorityAtMost(cfg: Config, recent: RecentTable, route: Route, pool: seq<Evaluation>, count: nat, now: real)
    ensures |Priority(cfg, recent, route, pool, count, now)| <= count
  {
  }

  lemma MixAtMost(cfg: Config, recent: RecentTable, route: Route, pool: seq<Evaluation>, count: nat, now: real,
                  cursor: Option<nat>)
    ensures |Mix(cfg, recent, route, pool, count, now, cursor).window| <= count
  {
    hide Priority, Explore, Unexcluded, KeySet;
    var priority := Priority(cfg, recent, route, pool, count, now);
    PriorityAtMost(cfg, recent, route, pool, count, now);
    ExploreLength(pool, KeySet(priority), count - |priority|, cursor);
  }

  // ---------- One cycle ----------

  /** The target window that a cycle gives a route holds enough members for the route's slots. */
  predicate RouteDelivers(cfg: Config, s: Sched, evs: seq<Evaluation>, reuse: bool, limit: int, now: real, r: Route)
    requires evs != [] && r in RouteOrder(evs)
  {
    var slots := SlotsOf(cfg, s, evs, limit, r);
    var target := StepOf(cfg, s, evs, reuse, limit, now, r).target;
    slots > 0 ==> EnoughUntaken(target, Priority(cfg, CycleStart(cfg, s, evs, now).recent, r, target, slots, now),
                                slots)
  }

  lemma StepDeliversIff(cfg: Config, recent: RecentTable, route: Route, evs: seq<Evaluation>, slots: nat, now: real,
                        reuse: bool, rs: RouteState)
    ensures var step := RouteStep(cfg, recent, route, evs, slots, now, reuse, rs);
            && |step.active| <= slots
            && (|step.active| == slots <==>
                  (slots > 0 ==> EnoughUntaken(step.target, Priority(cfg, recent, route, step.target, slots, now),
                                               slots)))
  {
    hide Mix, Restore, Rebuild, Priority, EnoughUntaken;
    if slots > 0 {
      var w := StepWindow(cfg, recent, route, evs, slots, now, reuse, rs);
      MixAtMost(cfg, recent, route, w.window.value, slots, now, w.state.activeCursor);
      MixDeliversIff(cfg, recent, route, w.window.value, slots, now, w.state.activeCursor);
    }
  }

  lemma {:induction false} SumReachesIff(a: seq<nat>, b: seq<nat>)
    requires |a| == |b| && forall i :: 0 <= i < |a| ==> a[i] <= b[i]
    ensures Sum(a) >= Sum(b) <==> a == b
    ensures Sum(a) <= Sum(b)
  {
    if a != [] {
      var n := |a| - 1;
      SumReachesIff(a[..n], b[..n]);
      assert a == a[..n] + [a[n]] && b == b[..n] + [b[n]];
    }
  }

  /** The loop has collected as many evaluations as were allocated after some number of rounds. */
  ghost predicate CollectingEnds(cfg: Config, s: Sched, evs: seq<Evaluation>, reuse: bool, limit: int, now: real)
    requires evs != []
  {
    Reaches(ActiveLists(cfg, s, evs, reuse, limit, now), Sum(CycleSlots(cfg, s, evs, limit)))
  }

  lemma ListDeliversIff(cfg: Config, s: Sched, evs: seq<Evaluation>, reuse: bool, limit: int, now: real, i: nat)
    requires evs != [] && i < |Ordered(s, evs)|
    ensures Ordered(s, evs)[i] in RouteOrder(evs)
    ensures var list := ActiveLists(cfg, s, evs, reuse, limit, now)[i];
            && |list| <= CycleSlots(cfg, s, evs, limit)[i]
            && (|list| == CycleSlots(cfg, s, evs, limit)[i]
                <==> RouteDelivers(cfg, s, evs, reuse, limit, now, Ordered(s, evs)[i]))
  {
    hide ActiveLists, TargetLists, RouteStep, CycleStart, CycleSlots, RouteOrder, Ordered, EnoughUntaken, Priority,
         View;
    var r := Ordered(s, evs)[i];
    ListAt(cfg, s, evs, reuse, limit, now, i);
    OrderedMembers(s, evs);
    IndexOfDistinct(Ordered(s, evs), i);
    StepDeliversIff(cfg, CycleStart(cfg, s, evs, now).recent, r, RouteEvs(evs, r), SlotsOf(cfg, s, evs, limit, r), now,
                    reuse,
                    View(s, r));
  }

  /**
   Exactly when the collecting loop of a cycle ends, for any plan, duplicates or not: iff the target
   window of every route with slots has, besides the members that go first, enough members with
   other targets to fill the slots.
   */
  lemma CollectingEndsIff(cfg: Config, s: Sched, evs: seq<Evaluation>, reuse: bool, limit: int, now: real)
    requires evs != []
    ensures CollectingEnds(cfg, s, evs, reuse, limit, now)
       <==> forall r :: r in RouteOrder(evs) ==> RouteDelivers(cfg, s, evs, reuse, limit, now, r)
  {
    hide ActiveLists, CycleSlots, RouteOrder, Ordered, RouteDelivers, Reaches;
    var lists, slots, ordered := ActiveLists(cfg, s, evs, reuse, limit, now), CycleSlots(cfg, s, evs, limit),
        Ordered(s, evs);
    OrderedMembers(s, evs);
    LoopEndsIff(lists, Sum(slots));
    var lengths := Lengths(lists);
    forall i | 0 <= i < |ordered|
      ensures ordered[i] in RouteOrder(evs) && lengths[i] <= slots[i]
      ensures lengths[i] == slots[i] <==> RouteDelivers(cfg, s, evs, reuse, limit, now, ordered[i])
    {
      ListDeliversIff(cfg, s, evs, reuse, limit, now, i);
    }
    SumReachesIff(lengths, slots);
    if lengths == slots {
      forall r | r in RouteOrder(evs)
        ensures RouteDelivers(cfg, s, evs, reuse, limit, now, r)
      {
        var i :| 0 <= i < |ordered| && ordered[i] == r;
      }
    } else {
      var i :| 0 <= i < |ordered| && lengths[i] != slots[i];
      assert ordered[i] in RouteOrder(evs) && !RouteDelivers(cfg, s, evs, reuse, limit, now, ordered[i]);
    }
  }

  // ---------- Windows built in the cycle itself ----------

  predicate AllFresh(cfg: Config, recent: RecentTable, route: Route, evs: seq<Evaluation>, now: real) {
    |RecentCandidates(cfg, recent, route, evs, now)| == |evs|
  }

  /** The size of the window that a build gives. */
  function BuiltSize(cfg: Config, recent: RecentTable, route: Route, evs: seq<Evaluation>, expected: nat,
                     now: real): int {
    var top := Priority(cfg, recent, route, evs, expected, now);
    |top| + Max(0, Min(expected - |top|, |Unexcluded(evs, KeySet(top))|))
  }

  /**
   Whether a built window delivers, told by the plan, the configuration and the recency table. The
   cursor matters only in so far as it decides whether the window happens to hold fresh members alone.
   */
  predicate BuildDelivers(cfg: Config, recent: RecentTable, route: Route, evs: seq<Evaluation>, slots: nat, now: real,
                          windowFresh: bool) {
    var expected := PrefetchCount(cfg, route, evs, slots);
    var ranked := RecentCandidates(cfg, recent, route, evs, now);
    var room := BuiltSize(cfg, recent, route, evs, expected, now);
    if ranked == [] || |ranked| == |evs| then true
    else if windowFresh then slots <= room
    else
      var top := Priority(cfg, recent, route, evs, expected, now);
      var first := top[..Min(|top|, Max(0, slots - ExplorationCount(cfg, route, slots)))];
      slots - |first| <= |Unexcluded(top, KeySet(first))| + room - |top|
  }

  lemma CeilSteps(x: real, y: real, n: nat)
    requires x <= y <= x + n as real
    ensures Ceil(x) <= Ceil(y) <= Ceil(x) + n
  {
  }

  /** A larger budget never leaves fewer slots to the members that go first. */
  lemma PrioritySlotsGrow(cfg: Config, route: Route, c: nat, d: nat)
    requires cfg.Valid() && c <= d
    ensures Max(0, c - ExplorationCount(cfg, route, c)) <= Max(0, d - ExplorationCount(cfg, route, d))
  {
    hide ExplorationCount, Held, Max, Portion;
    var f := cfg.ExplorationFor(route);
    HeldIs(cfg, route, c);
    HeldIs(cfg, route, d);
    PortionsGrow(c as real, d as real, f);
    Grow(c, d, f >= 1.0, Portion(c as real, f), Portion(d as real, f));
  }

  lemma PortionsGrow(x: real, y: real, f: real)
    requires 0.0 <= x <= y && 0.0 < f <= 1.0
    ensures Portion(x, f) <= Portion(y, f) <= Portion(x, f) + (y - x)
    ensures Portion(x, f) <= x && Portion(y, f) <= y
    ensures f >= 1.0 ==> Portion(x, f) == x && Portion(y, f) == y
  {
    hide Portion;
    PortionWithin(x, f);
    PortionWithin(y, f);
    PortionWithin(y - x, f);
    PortionSum(x, y - x, f);
    assert x + (y - x) == y;
  }

  lemma PortionSum(x: real, y: real, f: real)
    ensures Portion(x + y, f) == Portion(x, f) + Portion(y, f)
  {
  }

  function Held(count: nat, whole: bool, share: real): int {
    Max(0, count - Min(if count > 1 && !whole then count - 1 else count, Max(1, Ceil(share))))
  }

  lemma HeldIs(cfg: Config, route: Route, count: nat)
    ensures var f := cfg.ExplorationFor(route);
            Max(0, count - ExplorationCount(cfg, route, count)) == Held(count, f >= 1.0, Portion(count as real, f))
  {
    hide Portion, Ceil;
  }

  lemma Grow(c: nat, d: nat, whole: bool, x: real, y: real)
    requires c <= d && x <= y <= x + (d - c) as real && x <= c as real && y <= d as real
    requires whole ==> x == c as real && y == d as real
    ensures Held(c, whole, x) <= Held(d, whole, y)
  {
    CeilSteps(x, y, d - c);
  }

  lemma {:induction false} FreshConcat(cfg: Config, recent: RecentTable, route: Route, a: seq<Evaluation>,
                                       b: seq<Evaluation>, now: real)
    ensures FreshOnly(cfg, recent, route, a + b, now)
         == FreshOnly(cfg, recent, route, a, now) + FreshOnly(cfg, recent, route, b, now)
  {
    hide Fresh;
    if a == [] {
      assert a + b == b;
    } else {
      assert (a + b)[1..] == a[1..] + b;
      FreshConcat(cfg, recent, route, a[1..], b, now);
    }
  }

  lemma {:induction false} AllFreshKept(cfg: Config, recent: RecentTable, route: Route, a: seq<Evaluation>, now: real)
    requires forall i :: 0 <= i < |a| ==> Fresh(cfg, recent, route, a[i], now)
    ensures FreshOnly(cfg, recent, route, a, now) == a
  {
    hide Fresh;
    if a != [] {
      forall i | 0 <= i < |a[1..]|
        ensures Fresh(cfg, recent, route, a[1..][i], now)
      {
        assert a[1..][i] == a[i + 1];
      }
      AllFreshKept(cfg, recent, route, a[1..], now);
      assert a == [a[0]] + a[1..];
    }
  }

  ghost predicate NoneAbove(recent: RecentTable, route: Route, top: seq<Evaluation>, rest: seq<Evaluation>)
    requires Observed(recent, route, top) && Observed(recent, route, rest)
  {
    forall t, r :: t in top && r in rest ==> !RankedAbove(recent[(route, r.targets)], recent[(route, t.targets)])
  }

  /** Members already ranked, with none of the rest above them, stay where they are. */
  lemma {:induction false} RankKeepsTop(recent: RecentTable, route: Route, top: seq<Evaluation>, rest: seq<Evaluation>)
    requires Observed(recent, route, top) && Observed(recent, route, rest) && Observed(recent, route, top + rest)
    requires Ranked(recent, route, top) && NoneAbove(recent, route, top, rest)
    ensures RankRecent(recent, route, top + rest) == top + RankRecent(recent, route, rest)
  {
    hide RankedAbove, Observed, RankRecent, InsertRanked, Ranked, NoneAbove;
    if top == [] {
      assert top + rest == rest;
      assert [] + RankRecent(recent, route, rest) == RankRecent(recent, route, rest);
    } else {
      var tail := top[1..];
      var sorted := RankRecent(recent, route, rest);
      RankCons(recent, route, top + rest);
      assert (top + rest)[1..] == tail + rest && (top + rest)[0] == top[0];
      TopStep(recent, route, top, rest);
      RankKeepsTop(recent, route, tail, rest);
      assert RankRecent(recent, route, top + rest) == InsertRanked(recent, route, top[0], tail + sorted);
      NoneAboveHead(recent, route, top, rest, tail + sorted);
      assert top + sorted == [top[0]] + (tail + sorted);
    }
  }

  lemma RankCons(recent: RecentTable, route: Route, list: seq<Evaluation>)
    requires list != [] && Observed(recent, route, list)
    ensures Observed(recent, route, list[1..]) && Observed(recent, route, [list[0]])
    ensures RankRecent(recent, route, list)
            == InsertRanked(recent, route, list[0], RankRecent(recent, route, list[1..]))
  {
    assert list[0] in list;
  }

  lemma TopStep(recent: RecentTable, route: Route, top: seq<Evaluation>, rest: seq<Evaluation>)
    requires top != []
    requires Observed(recent, route, top) && Observed(recent, route, rest) && Observed(recent, route, top + rest)
    requires Ranked(recent, route, top) && NoneAbove(recent, route, top, rest)
    ensures var tail := top[1..];
            && Observed(recent, route, tail) && Observed(recent, route, tail + rest)
                && Observed(recent, route, [top[0]])
            && Ranked(recent, route, tail) && NoneAbove(recent, route, tail, rest)
            && Observed(recent, route, tail + RankRecent(recent, route, rest))
  {
    hide RankedAbove, RankRecent;
    assert top[0] in top;
    forall e | e in top[1..]
      ensures e in top
    {
    }
    forall e | e in RankRecent(recent, route, rest)
      ensures (route, e.targets) in recent
    {
    }
  }

  lemma NoneAboveHead(recent: RecentTable, route: Route, top: seq<Evaluation>, rest: seq<Evaluation>,
                      list: seq<Evaluation>)
    requires top != [] && Observed(recent, route, top) && Observed(recent, route, rest)
    requires Ranked(recent, route, top) && NoneAbove(recent, route, top, rest)
    requires list == top[1..] + RankRecent(recent, route, rest) && Observed(recent, route, list)
            && Observed(recent, route, [top[0]])
    ensures InsertRanked(recent, route, top[0], list) == [top[0]] + list
  {
    hide RankedAbove, RankRecent;
    assert top[0] in top;
    if |top| > 1 {
      assert list[0] == top[1];
    } else if list != [] {
      assert list[0] in multiset(RankRecent(recent, route, rest));
      assert list[0] in rest;
    }
  }

  lemma {:induction false} UnexcludedNone(list: seq<Evaluation>, keys: set<Key>)
    requires KeySet(list) !! keys
    ensures Unexcluded(list, keys) == list
  {
    if list != [] {
      assert list[0].targets in KeySet(list) && KeySet(list[1..]) <= KeySet(list);
      UnexcludedNone(list[1..], keys);
      assert list == [list[0]] + list[1..];
    }
  }

  lemma {:induction false} UnexcludedAll(list: seq<Evaluation>, keys: set<Key>)
    requires KeySet(list) <= keys
    ensures Unexcluded(list, keys) == []
  {
    if list != [] {
      assert list[0].targets in KeySet(list) && KeySet(list[1..]) <= KeySet(list);
      UnexcludedAll(list[1..], keys);
    }
  }

  /** The ranking of a window that starts with the best of the pool starts with them too. */
  lemma RankedWindow(cfg: Config, recent: RecentTable, route: Route, evs: seq<Evaluation>, k: nat, x: seq<Evaluation>,
                     now: real)
    requires cfg.PriorityFor(route) > 0.0 && k <= |RecentCandidates(cfg, recent, route, evs, now)|
    requires Within(x, evs) && KeySet(x) !! KeySet(RecentCandidates(cfg, recent, route, evs, now)[..k])
    ensures var top := RecentCandidates(cfg, recent, route, evs, now)[..k];
            RecentCandidates(cfg, recent, route, top + x, now) == top + RecentCandidates(cfg, recent, route, x, now)
  {
    hide RankRecent, FreshOnly, RankedAbove, Fresh;
    var ranked := RecentCandidates(cfg, recent, route, evs, now);
    var top, rest := ranked[..k], FreshOnly(cfg, recent, route, x, now);
    RecentCandidatesAreRanked(cfg, recent, route, evs, now);
    forall i | 0 <= i < |top|
      ensures Fresh(cfg, recent, route, top[i], now)
    {
      assert ranked[i] in ranked;
    }
    FreshConcat(cfg, recent, route, top, x, now);
    AllFreshKept(cfg, recent, route, top, now);
    FreshIsObserved(cfg, recent, route, x, now);
    FreshIsObserved(cfg, recent, route, top, now);
    FreshIsObserved(cfg, recent, route, top + x, now);
    RestNotAbove(cfg, recent, route, evs, k, x, now);
    RankKeepsTop(recent, route, top, rest);
  }

  lemma FreshIsObserved(cfg: Config, recent: RecentTable, route: Route, evs: seq<Evaluation>, now: real)
    ensures Observed(recent, route, FreshOnly(cfg, recent, route, evs, now))
  {
    hide FreshOnly;
  }

  lemma RestNotAbove(cfg: Config, recent: RecentTable, route: Route, evs: seq<Evaluation>, k: nat, x: seq<Evaluation>,
                     now: real)
    requires cfg.PriorityFor(route) > 0.0 && k <= |RecentCandidates(cfg, recent, route, evs, now)|
    requires Within(x, evs) && KeySet(x) !! KeySet(RecentCandidates(cfg, recent, route, evs, now)[..k])
    ensures var top := RecentCandidates(cfg, recent, route, evs, now)[..k];
            var rest := FreshOnly(cfg, recent, route, x, now);
            && Observed(recent, route, top) && Observed(recent, route, rest)
            && NoneAbove(recent, route, top, rest) && Ranked(recent, route, top)
  {
    hide RankRecent, FreshOnly, RankedAbove, Fresh, RecentCandidates;
    var ranked := RecentCandidates(cfg, recent, route, evs, now);
    var top, rest := ranked[..k], FreshOnly(cfg, recent, route, x, now);
    RecentCandidatesAreRanked(cfg, recent, route, evs, now);
    FreshIsObserved(cfg, recent, route, x, now);
    forall t, r | t in top && r in rest
      ensures (route, t.targets) in recent && (route, r.targets) in recent
      ensures !RankedAbove(recent[(route, r.targets)], recent[(route, t.targets)])
    {
      var i :| 0 <= i < |top| && top[i] == t;
      assert r in evs && r in ranked;
      var j :| 0 <= j < |ranked| && ranked[j] == r;
      assert r.targets in KeySet(x);
      assert r !in top && forall i :: 0 <= i < k ==> top[i] in top;
      assert ranked[i] == t;
    }
  }

  /** What a build makes: the best of the pool, then members with other targets. */
  lemma BuiltParts(cfg: Config, recent: RecentTable, route: Route, evs: seq<Evaluation>, expected: nat, now: real,
                   cursor: Option<nat>)
    returns (top: seq<Evaluation>, x: seq<Evaluation>)
    ensures top == Priority(cfg, recent, route, evs, expected, now)
    ensures Mix(cfg, recent, route, evs, expected, now, cursor).window == top + x
    ensures Within(x, evs) && KeySet(x) !! KeySet(top) && |top| <= expected
    ensures |top + x| == BuiltSize(cfg, recent, route, evs, expected, now)
  {
    hide Priority, Explore, Unexcluded, KeySet;
    top := Priority(cfg, recent, route, evs, expected, now);
    PriorityAtMost(cfg, recent, route, evs, expected, now);
    x := Explore(evs, KeySet(top), expected - |top|, cursor).selected;
    ExploreLength(evs, KeySet(top), expected - |top|, cursor);
    ExploreSound(evs, KeySet(top), expected - |top|, cursor);
  }

  lemma NoneRanked(cfg: Config, recent: RecentTable, route: Route, evs: seq<Evaluation>, part: seq<Evaluation>,
                   now: real)
    requires RecentCandidates(cfg, recent, route, evs, now) == [] && Within(part, evs)
    ensures RecentCandidates(cfg, recent, route, part, now) == []
  {
    hide RecentCandidates, Fresh;
    RecentCandidatesAreRanked(cfg, recent, route, evs, now);
    RecentCandidatesAreRanked(cfg, recent, route, part, now);
    NoMembers(RecentCandidates(cfg, recent, route, part, now));
  }

  lemma NoMembers(list: seq<Evaluation>)
    requires forall e :: e !in list
    ensures list == []
  {
    assert |list| == |multiset(list)|;
    forall e
      ensures multiset(list)[e] == 0
    {
      assert e in multiset(list) <==> e in list;
    }
  }

  lemma BuiltWithoutRecents(cfg: Config, recent: RecentTable, route: Route, evs: seq<Evaluation>, slots: nat, now: real,
                            cursor: Option<nat>)
    requires cfg.Valid() && 0 < slots <= |evs| && RecentCandidates(cfg, recent, route, evs, now) == []
    ensures var w := Mix(cfg, recent, route, evs, PrefetchCount(cfg, route, evs, slots), now, cursor).window;
            EnoughUntaken(w, Priority(cfg, recent, route, w, slots, now), slots)
  {
    hide Mix, Unexcluded, PrefetchCount, RecentCandidates, ExplorationCount;
    var expected := PrefetchCount(cfg, route, evs, slots);
    PrefetchBounds(cfg, route, evs, slots);
    var top, x := BuiltParts(cfg, recent, route, evs, expected, now, cursor);
    assert top == [] && top + x == x && KeySet([]) == {};
    UnexcludedNone(evs, {});
    NoneRanked(cfg, recent, route, evs, x, now);
    UnexcludedNone(x, {});
  }

  lemma BuiltFromRecentsOnly(cfg: Config, recent: RecentTable, route: Route, evs: seq<Evaluation>, slots: nat,
                             now: real, cursor: Option<nat>)
    requires cfg.Valid() && 0 < slots <= |evs| && |RecentCandidates(cfg, recent, route, evs, now)| == |evs|
    ensures var w := Mix(cfg, recent, route, evs, PrefetchCount(cfg, route, evs, slots), now, cursor).window;
            EnoughUntaken(w, Priority(cfg, recent, route, w, slots, now), slots)
  {
    hide Mix, Unexcluded, PrefetchCount, ExplorationCount, RankRecent, FreshOnly;
    var expected := PrefetchCount(cfg, route, evs, slots);
    PrefetchBounds(cfg, route, evs, slots);
    var top, x := BuiltParts(cfg, recent, route, evs, expected, now, cursor);
    assert |top| == expected && x == [] && top + x == top;
    RankedWindow(cfg, recent, route, evs, expected, [], now);
    assert RecentCandidates(cfg, recent, route, [], now) == [] by {
      RecentCandidatesAreRanked(cfg, recent, route, [], now);
    }
    assert top + [] == top;
  }

  /**
   The members that go first in the choice from a built window are the first of those that went
   first in the build.
   */
  lemma FirstFromTop(cfg: Config, recent: RecentTable, route: Route, evs: seq<Evaluation>, slots: nat, now: real,
                     top: seq<Evaluation>, x: seq<Evaluation>)
    requires cfg.Valid() && 0 < slots <= |evs|
    requires 0 < |RecentCandidates(cfg, recent, route, evs, now)| < |evs|
    requires top == Priority(cfg, recent, route, evs, PrefetchCount(cfg, route, evs, slots), now)
    requires Within(x, evs) && KeySet(x) !! KeySet(top) && !AllFresh(cfg, recent, route, top + x, now)
    ensures Priority(cfg, recent, route, top + x, slots, now)
         == top[..Min(|top|, Max(0, slots - ExplorationCount(cfg, route, slots)))]
  {
    hide Unexcluded, PrefetchCount, ExplorationCount, RankRecent, FreshOnly, RecentCandidates, Fresh;
    var expected := PrefetchCount(cfg, route, evs, slots);
    var ranked := RecentCandidates(cfg, recent, route, evs, now);
    PrefetchBounds(cfg, route, evs, slots);
    PrioritySlotsGrow(cfg, route, slots, expected);
    RecentsNeedPriority(cfg, recent, route, evs, now);
    RankedWindow(cfg, recent, route, evs, |top|, x, now);
    var more := RecentCandidates(cfg, recent, route, x, now);
    RecentCandidatesAreRanked(cfg, recent, route, x, now);
    RecentCandidatesAreRanked(cfg, recent, route, top + x, now);
    RecentCandidatesAreRanked(cfg, recent, route, evs, now);
    if |top| == |ranked| {
      forall e | e in more
        ensures e.targets in KeySet(x) && e.targets in KeySet(top)
      {
        assert e in ranked && ranked == top;
      }
      NoMembers(more);
    }
  }

  lemma RecentsNeedPriority(cfg: Config, recent: RecentTable, route: Route, evs: seq<Evaluation>, now: real)
    requires RecentCandidates(cfg, recent, route, evs, now) != []
    ensures cfg.PriorityFor(route) > 0.0
  {
  }

  lemma BuiltFromMixed(cfg: Config, recent: RecentTable, route: Route, evs: seq<Evaluation>, slots: nat, now: real,
                       cursor: Option<nat>)
    requires cfg.Valid() && 0 < slots <= |evs| && 0 < |RecentCandidates(cfg, recent, route, evs, now)| < |evs|
    ensures var w := Mix(cfg, recent, route, evs, PrefetchCount(cfg, route, evs, slots), now, cursor).window;
            EnoughUntaken(w, Priority(cfg, recent, route, w, slots, now), slots)
            <==> BuildDelivers(cfg, recent, route, evs, slots, now, AllFresh(cfg, recent, route, w, now))
  {
    hide Mix, Unexcluded, PrefetchCount, ExplorationCount, RankRecent, FreshOnly, RecentCandidates, Fresh, BuiltSize;
    var expected := PrefetchCount(cfg, route, evs, slots);
    var top, x := BuiltParts(cfg, recent, route, evs, expected, now, cursor);
    var w := top + x;
    if AllFresh(cfg, recent, route, w, now) {
      AllFreshDelivers(cfg, recent, route, w, slots, now);
    } else {
      FirstFromTop(cfg, recent, route, evs, slots, now, top, x);
      var first := Priority(cfg, recent, route, w, slots, now);
      hide Priority;
      assert KeySet(first) <= KeySet(top);
      UnexcludedConcat(top, x, KeySet(first));
      UnexcludedNone(x, KeySet(first));
    }
  }

  /** A window of fresh members alone delivers iff it is large enough. */
  lemma AllFreshDelivers(cfg: Config, recent: RecentTable, route: Route, w: seq<Evaluation>, slots: nat, now: real)
    requires AllFresh(cfg, recent, route, w, now)
    ensures EnoughUntaken(w, Priority(cfg, recent, route, w, slots, now), slots) <==> slots <= |w|
  {
    hide RecentCandidates, Unexcluded, Fresh;
    var ranked := RecentCandidates(cfg, recent, route, w, now);
    RecentCandidatesAreRanked(cfg, recent, route, w, now);
    if slots > |w| {
      assert Priority(cfg, recent, route, w, slots, now) == ranked;
      AllMembersRanked(cfg, recent, route, w, now);
      UnexcludedAll(w, KeySet(ranked));
    }
  }

  lemma AllMembersRanked(cfg: Config, recent: RecentTable, route: Route, w: seq<Evaluation>, now: real)
    requires AllFresh(cfg, recent, route, w, now)
    ensures KeySet(w) <= KeySet(RecentCandidates(cfg, recent, route, w, now))
  {
    hide RankRecent, Fresh;
    if cfg.PriorityFor(route) > 0.0 {
      var live := FreshOnly(cfg, recent, route, w, now);
      FreshIsObserved(cfg, recent, route, w, now);
      assert |multiset(RankRecent(recent, route, live))| == |RankRecent(recent, route, live)|;
      FullLength(cfg, recent, route, w, now);
      SameElements(RankRecent(recent, route, live), live);
    }
  }

  lemma {:induction false} FullLength(cfg: Config, recent: RecentTable, route: Route, w: seq<Evaluation>, now: real)
    requires |FreshOnly(cfg, recent, route, w, now)| == |w|
    ensures FreshOnly(cfg, recent, route, w, now) == w
  {
    hide Fresh;
    if w != [] {
      FullLength(cfg, recent, route, w[1..], now);
      assert w == [w[0]] + w[1..];
    }
  }

  /**
   The condition for a window built in the cycle itself, told by the plan, the configuration and the
   recency table, whatever the cursors: repeated targets hurt exactly when they are among the best of
   the plan and the window has no room for leaving the repetitions out.
   */
  lemma BuiltWindowDeliversIff(cfg: Config, recent: RecentTable, route: Route, evs: seq<Evaluation>, slots: nat,
                               now: real,
                               cursor: Option<nat>)
    requires cfg.Valid() && 0 < slots <= |evs|
    ensures var w := Mix(cfg, recent, route, evs, PrefetchCount(cfg, route, evs, slots), now, cursor).window;
            EnoughUntaken(w, Priority(cfg, recent, route, w, slots, now), slots)
            <==> BuildDelivers(cfg, recent, route, evs, slots, now, AllFresh(cfg, recent, route, w, now))
  {
    hide Mix, Priority, PrefetchCount, EnoughUntaken, BuiltSize;
    RecentCandidatesAreRanked(cfg, recent, route, evs, now);
    if RecentCandidates(cfg, recent, route, evs, now) == [] {
      BuiltWithoutRecents(cfg, recent, route, evs, slots, now, cursor);
    } else if |RecentCandidates(cfg, recent, route, evs, now)| == |evs| {
      BuiltFromRecentsOnly(cfg, recent, route, evs, slots, now, cursor);
    } else {
      BuiltFromMixed(cfg, recent, route, evs, slots, now, cursor);
    }
  }


  /** No route of the plan holds a window when the cycle starts, as in a fresh scheduler or after an expiry. */
  ghost predicate NothingHeld(s: Sched, evs: seq<Evaluation>) {
    forall r :: r in RouteOrder(evs) ==> Lookup(s.heldKeys, r).GetOr([]) == []
  }

  lemma UnheldStep(cfg: Config, recent: RecentTable, route: Route, evs: seq<Evaluation>, slots: nat, now: real,
                   reuse: bool, rs: RouteState)
    requires slots > 0 && rs.keys.GetOr([]) == []
    ensures RouteStep(cfg, recent, route, evs, slots, now, reuse, rs).target
         == Mix(cfg, recent, route, evs, PrefetchCount(cfg, route, evs, slots), now, rs.cursor).window
  {
    hide Mix, PrefetchCount;
  }

  /** A built window delivers, in terms of plan, configuration and recency table. */
  predicate RouteBuildDelivers(cfg: Config, s: Sched, evs: seq<Evaluation>, reuse: bool, limit: int, now: real,
                               r: Route)
    requires evs != [] && r in RouteOrder(evs)
  {
    var recent, slots := CycleStart(cfg, s, evs, now).recent, SlotsOf(cfg, s, evs, limit, r);
    var target := StepOf(cfg, s, evs, reuse, limit, now, r).target;
    slots > 0 ==> BuildDelivers(cfg, recent, r, RouteEvs(evs, r), slots, now, AllFresh(cfg, recent, r, target, now))
  }

  lemma UnheldRouteDeliversIff(cfg: Config, s: Sched, evs: seq<Evaluation>, reuse: bool, limit: int, now: real,
                               r: Route)
    requires cfg.Valid() && evs != [] && r in RouteOrder(evs) && Lookup(s.heldKeys, r).GetOr([]) == []
    ensures RouteDelivers(cfg, s, evs, reuse, limit, now, r) <==> RouteBuildDelivers(cfg, s, evs, reuse, limit, now, r)
  {
    hide Mix, RouteStep, EnoughUntaken, BuildDelivers, AllFresh, SlotsOf, CycleStart, RouteOrder, Priority;
    var recent, slots := CycleStart(cfg, s, evs, now).recent, SlotsOf(cfg, s, evs, limit, r);
    if slots > 0 {
      SlotBounds(cfg, s, evs, limit, r);
      UnheldStep(cfg, recent, r, RouteEvs(evs, r), slots, now, reuse, View(s, r));
      BuiltWindowDeliversIff(cfg, recent, r, RouteEvs(evs, r), slots, now, View(s, r).cursor);
    }
  }

  /** The loop of a cycle that starts without held windows ends iff every route's build delivers. */
  lemma UnheldCollectingEndsIff(cfg: Config, s: Sched, evs: seq<Evaluation>, reuse: bool, limit: int, now: real)
    requires cfg.Valid() && evs != [] && NothingHeld(s, evs)
    ensures CollectingEnds(cfg, s, evs, reuse, limit, now)
       <==> forall r :: r in RouteOrder(evs) ==> RouteBuildDelivers(cfg, s, evs, reuse, limit, now, r)
  {
    hide RouteDelivers, RouteBuildDelivers, RouteOrder, CollectingEnds;
    CollectingEndsIff(cfg, s, evs, reuse, limit, now);
    forall r | r in RouteOrder(evs)
      ensures RouteDelivers(cfg, s, evs, reuse, limit, now, r)
              <==> RouteBuildDelivers(cfg, s, evs, reuse, limit, now, r)
    {
      UnheldRouteDeliversIff(cfg, s, evs, reuse, limit, now, r);
    }
  }

  // ---------- Configurations under which no plan can stall the loop ----------

  /** Nothing goes first: priority is off, or exploration takes every slot. */
  predicate NothingFirst(cfg: Config, route: Route, slots: nat) {
    cfg.PriorityFor(route) <= 0.0 || cfg.ExplorationFor(route) >= 1.0 || slots <= 1
  }

  lemma ExplorationTakesAll(cfg: Config, route: Route, count: nat)
    requires cfg.Valid() && count > 0 && (cfg.ExplorationFor(route) >= 1.0 || count == 1)
    ensures ExplorationCount(cfg, route, count) == count
  {
    hide Portion;
    var f := cfg.ExplorationFor(route);
    HeldIs(cfg, route, count);
    PortionsGrow(count as real, count as real, f);
  }

  lemma LargeWindowDelivers(cfg: Config, recent: RecentTable, route: Route, w: seq<Evaluation>, slots: nat, now: real)
    requires cfg.Valid() && NothingFirst(cfg, route, slots) && 0 < slots <= |w|
    ensures EnoughUntaken(w, Priority(cfg, recent, route, w, slots, now), slots)
  {
    hide Unexcluded, RankRecent, FreshOnly, ExplorationCount, Fresh;
    var first := Priority(cfg, recent, route, w, slots, now);
    RecentCandidatesAreRanked(cfg, recent, route, w, now);
    if AllFresh(cfg, recent, route, w, now) {
      AllFreshDelivers(cfg, recent, route, w, slots, now);
    } else {
      if cfg.PriorityFor(route) > 0.0 {
        ExplorationTakesAll(cfg, route, slots);
      }
      assert first == [] && KeySet([]) == {};
      UnexcludedNone(w, {});
    }
  }

  lemma BuildIsLarge(cfg: Config, recent: RecentTable, route: Route, evs: seq<Evaluation>, slots: nat, now: real,
                     cursor: Option<nat>)
    requires cfg.Valid() && NothingFirst(cfg, route, slots) && 0 < slots <= |evs|
    ensures |Mix(cfg, recent, route, evs, PrefetchCount(cfg, route, evs, slots), now, cursor).window| >= slots
  {
    hide Mix, PrefetchCount, Priority, Unexcluded, EnoughUntaken, KeySet;
    var expected := PrefetchCount(cfg, route, evs, slots);
    PrefetchBounds(cfg, route, evs, slots);
    if slots == 1 {
      BuildIsNonEmpty(cfg, recent, route, evs, expected, now, cursor);
    } else {
      LargeWindowDelivers(cfg, recent, route, evs, expected, now);
      MixDeliversIff(cfg, recent, route, evs, expected, now, cursor);
    }
  }

  lemma BuildIsNonEmpty(cfg: Config, recent: RecentTable, route: Route, evs: seq<Evaluation>, expected: nat, now: real,
                        cursor: Option<nat>)
    requires 0 < expected && evs != []
    ensures Mix(cfg, recent, route, evs, expected, now, cursor).window != []
  {
    hide Priority, Explore, Unexcluded;
    var top := Priority(cfg, recent, route, evs, expected, now);
    if top == [] {
      assert KeySet(top) == {};
      UnexcludedNone(evs, {});
      ExploreLength(evs, {}, expected, cursor);
    }
  }

  lemma RestoredSize(evs: seq<Evaluation>, expected: nat, now: real, reuse: bool, rs: RouteState)
    requires Restore(evs, expected, now, reuse, rs).window.Some?
    ensures |Restore(evs, expected, now, reuse, rs).window.value| == expected
  {
    hide Explore, Rebind;
  }

  lemma StepTargetIsLarge(cfg: Config, recent: RecentTable, route: Route, evs: seq<Evaluation>, slots: nat, now: real,
                          reuse: bool, rs: RouteState)
    requires cfg.Valid() && NothingFirst(cfg, route, slots) && 0 < slots <= |evs|
    ensures |RouteStep(cfg, recent, route, evs, slots, now, reuse, rs).target| >= slots
  {
    hide Mix, PrefetchCount, Restore, NothingFirst;
    var expected := PrefetchCount(cfg, route, evs, slots);
    PrefetchBounds(cfg, route, evs, slots);
    var restored := Restore(evs, expected, now, reuse, rs);
    if restored.window.Some? {
      RestoredSize(evs, expected, now, reuse, rs);
    } else {
      BuildIsLarge(cfg, recent, route, evs, slots, now, restored.state.cursor);
    }
  }

  /**
   By configuration alone: where nothing goes first on any route with more than one slot, the loop
   ends for every plan in every state, repeated targets or not.
   */
  lemma NothingFirstAlwaysEnds(cfg: Config, s: Sched, evs: seq<Evaluation>, reuse: bool, limit: int, now: real)
    requires cfg.Valid() && evs != []
    requires forall r :: r in RouteOrder(evs) ==> NothingFirst(cfg, r, SlotsOf(cfg, s, evs, limit, r))
    ensures CollectingEnds(cfg, s, evs, reuse, limit, now)
  {
    hide RouteStep, EnoughUntaken, SlotsOf, CycleStart, RouteOrder, Priority, NothingFirst, View, CollectingEnds;
    CollectingEndsIff(cfg, s, evs, reuse, limit, now);
    forall r | r in RouteOrder(evs)
      ensures RouteDelivers(cfg, s, evs, reuse, limit, now, r)
    {
      var slots := SlotsOf(cfg, s, evs, limit, r);
      if slots > 0 {
        var recent := CycleStart(cfg, s, evs, now).recent;
        SlotBounds(cfg, s, evs, limit, r);
        StepTargetIsLarge(cfg, recent, r, RouteEvs(evs, r), slots, now, reuse, View(s, r));
        LargeWindowDelivers(cfg, recent, r, StepOf(cfg, s, evs, reuse, limit, now, r).target, slots, now);
      }
    }
  }

  // ---------- A cycle whose loop does not end ----------

  const SAMPLE_TARGETS: Key := [("Polymarket", "1")]
  const OTHER_TARGETS: Key := [("Polymarket", "2")]

  function SampleEvaluation(market: nat, targets: Key): Evaluation {
    Evaluation("route", RunHandle(0, None, market), targets)
  }

  /** Three evaluations of one route, two of them with the same targets. */
  const SAMPLE_PLAN: seq<Evaluation> :=
    [SampleEvaluation(0, SAMPLE_TARGETS), SampleEvaluation(1, SAMPLE_TARGETS), SampleEvaluation(2, OTHER_TARGETS)]

  const SAMPLE_CONFIG: Config := Config(3, map[], map[], map[], 1.0, map[], 1.0, map[], 0.5, map[])

  /** The plan just installed, with the repeated targets just seen executable. */
  const SAMPLE_STATE: Sched :=
    INITIAL.(planned := SAMPLE_PLAN, recent := map[("route", SAMPLE_TARGETS) := Observation(0.0, 1.0)])

  lemma SampleRoute()
    ensures RouteOrder(SAMPLE_PLAN) == ["route"] && RouteEvs(SAMPLE_PLAN, "route") == SAMPLE_PLAN
    ensures SAMPLE_CONFIG.Valid()
  {
    var a, b, c := SAMPLE_PLAN[0], SAMPLE_PLAN[1], SAMPLE_PLAN[2];
    assert SAMPLE_PLAN[..2] == [a, b] && [a, b][..1] == [a] && [a][..0] == [];
    assert RouteOrder([]) == [] && RouteEvs([], "route") == [];
    assert RouteOrder([a]) == ["route"] && RouteEvs([a], "route") == [a];
    assert RouteOrder([a, b]) == ["route"] && RouteEvs([a, b], "route") == [a, b];
  }

  lemma SampleSlots()
    ensures "route" in RouteOrder(SAMPLE_PLAN)
    ensures SlotsOf(SAMPLE_CONFIG, SAMPLE_STATE, SAMPLE_PLAN, 3, "route") == 3
  {
    hide Allocate;
    SampleRoute();
    OrderedMembers(SAMPLE_STATE, SAMPLE_PLAN);
    SumOfCycleSlots(SAMPLE_CONFIG, SAMPLE_STATE, SAMPLE_PLAN, 3);
    var slots := CycleSlots(SAMPLE_CONFIG, SAMPLE_STATE, SAMPLE_PLAN, 3);
    assert slots == [] + [slots[0]];
    SumAppend([], slots[0]);
    var limits := Limits(SAMPLE_CONFIG, SAMPLE_PLAN, ["route"]);
    assert limits == [] + [3];
    SumAppend([], 3);
  }

  /** The first of the repeated targets goes first alone, and only one member of other targets is left. */
  lemma SampleTop()
    ensures RecentCandidates(SAMPLE_CONFIG, SAMPLE_STATE.recent, "route", SAMPLE_PLAN, 0.0) == SAMPLE_PLAN[..2]
    ensures ExplorationCount(SAMPLE_CONFIG, "route", 3) == 2
    ensures Priority(SAMPLE_CONFIG, SAMPLE_STATE.recent, "route", SAMPLE_PLAN, 3, 0.0) == SAMPLE_PLAN[..1]
  {
    var plan := SAMPLE_PLAN;
    DuplicatesAreBothRecent(SAMPLE_CONFIG, plan[0], plan[1], plan[2], Observation(0.0, 1.0));
    hide RecentCandidates;
    assert plan == [plan[0], plan[1], plan[2]] && plan[..2] == [plan[0], plan[1]];
    assert plan[..2][..1] == plan[..1];
  }

  lemma SampleRoom()
    ensures KeySet(SAMPLE_PLAN[..1]) == {SAMPLE_TARGETS}
    ensures |Unexcluded(SAMPLE_PLAN, {SAMPLE_TARGETS})| == 1 && |Unexcluded(SAMPLE_PLAN[..1], {SAMPLE_TARGETS})| == 0
  {
    var a, b, c := SAMPLE_PLAN[0], SAMPLE_PLAN[1], SAMPLE_PLAN[2];
    UnexcludedCons(a, [b, c], {SAMPLE_TARGETS});
    UnexcludedCons(b, [c], {SAMPLE_TARGETS});
    UnexcludedCons(c, [], {SAMPLE_TARGETS});
    UnexcludedCons(a, [], {SAMPLE_TARGETS});
    assert [a] + [b, c] == SAMPLE_PLAN && [b] + [c] == [b, c] && [c] + [] == [c] && [a] + [] == [a] == SAMPLE_PLAN[..1];
  }

  lemma SampleDoesNotDeliver(windowFresh: bool)
    ensures !BuildDelivers(SAMPLE_CONFIG, SAMPLE_STATE.recent, "route", SAMPLE_PLAN, 3, 0.0, windowFresh)
  {
    hide RecentCandidates, Priority, ExplorationCount, Unexcluded, KeySet;
    SampleTop();
    SampleRoom();
    assert PrefetchCount(SAMPLE_CONFIG, "route", SAMPLE_PLAN, 3) == 3;
    assert SAMPLE_PLAN[..1][..1] == SAMPLE_PLAN[..1];
  }

  lemma SamplePruned()
    ensures CycleStart(SAMPLE_CONFIG, SAMPLE_STATE, SAMPLE_PLAN, 0.0).recent == SAMPLE_STATE.recent
  {
    var key := ("route", SAMPLE_TARGETS);
    assert SAMPLE_PLAN[0] in SAMPLE_PLAN;
    assert (SAMPLE_PLAN[0].route, SAMPLE_PLAN[0].targets) in PlanKeys(SAMPLE_PLAN);
    assert KeepObservation(SAMPLE_CONFIG, SAMPLE_PLAN, 0.0, key, SAMPLE_STATE.recent[key]);
  }

  /**
   Repeated targets can stall a cycle: from this state, for this plan, limit and time, three slots
   are allocated and no number of rounds of the collecting loop collects three evaluations.
   */
  lemma RepeatedTargetsNeverEnd()
    ensures Sum(CycleSlots(SAMPLE_CONFIG, SAMPLE_STATE, SAMPLE_PLAN, 3)) == 3
    ensures forall k: nat :: |Interleaved(ActiveLists(SAMPLE_CONFIG, SAMPLE_STATE, SAMPLE_PLAN, true, 3, 0.0), k)| < 3
  {
    hide ActiveLists, CycleSlots, BuildDelivers, Interleaved, RouteOrder, RouteEvs, SlotsOf, CycleStart, Capacity,
         StepOf;
    SampleRoute();
    SampleSlots();
    SampleTotal();
    SamplePruned();
    UnheldCollectingEndsIff(SAMPLE_CONFIG, SAMPLE_STATE, SAMPLE_PLAN, true, 3, 0.0);
    SampleDoesNotDeliver(true);
    SampleDoesNotDeliver(false);
    assert !RouteBuildDelivers(SAMPLE_CONFIG, SAMPLE_STATE, SAMPLE_PLAN, true, 3, 0.0, "route");
  }

  lemma SampleTotal()
    ensures Sum(CycleSlots(SAMPLE_CONFIG, SAMPLE_STATE, SAMPLE_PLAN, 3)) == 3
  {
    hide Allocate, CycleSlots;
    SampleRoute();
    SumOfCycleSlots(SAMPLE_CONFIG, SAMPLE_STATE, SAMPLE_PLAN, 3);
    var limits := Limits(SAMPLE_CONFIG, SAMPLE_PLAN, ["route"]);
    assert limits == [] + [3];
    SumAppend([], 3);
  }

  lemma UnexcludedCons(e: Evaluation, rest: seq<Evaluation>, excluded: set<Key>)
    ensures Unexcluded([e] + rest, excluded) == (if e.targets in excluded then [] else [e]) + Unexcluded(rest, excluded)
  {
    assert ([e] + rest)[1..] == rest;
  }

  lemma FreshCons(cfg: Config, recent: RecentTable, route: Route, e: Evaluation, rest: seq<Evaluation>, now: real)
    ensures FreshOnly(cfg, recent, route, [e] + rest, now)
         == (if Fresh(cfg, recent, route, e, now) then [e] else []) + FreshOnly(cfg, recent, route, rest, now)
  {
    assert ([e] + rest)[1..] == rest;
  }

  lemma RankPair(recent: RecentTable, route: Route, a: Evaluation, b: Evaluation)
    requires (route, a.targets) in recent && a.targets == b.targets
    ensures RankRecent(recent, route, [a, b]) == [a, b]
  {
    assert [a, b][1..] == [b] && [b][1..] == [];
    assert Observed(recent, route, [a]) && Observed(recent, route, [b]) && Observed(recent, route, [a, b]);
    assert RankRecent(recent, route, []) == [];
    assert InsertRanked(recent, route, b, []) == [b] + [] == [b];
    assert InsertRanked(recent, route, a, [b]) == [a] + [b] == [a, b];
  }

  lemma DuplicatesAreBothRecent(cfg: Config, a: Evaluation, b: Evaluation, c: Evaluation, o: Observation)
    requires cfg.PriorityFor(a.route) > 0.0 && a.targets == b.targets && c.targets != a.targets
    ensures RecentCandidates(cfg, map[(a.route, a.targets) := o], a.route, [a, b, c], o.observedAt) == [a, b]
  {
    var recent, route, now := map[(a.route, a.targets) := o], a.route, o.observedAt;
    RankPair(recent, route, a, b);
    hide RankRecent, FreshOnly;
    FreshCons(cfg, recent, route, a, [b, c], now);
    FreshCons(cfg, recent, route, b, [c], now);
    FreshCons(cfg, recent, route, c, [], now);
    NoneFresh(cfg, recent, route, now);
    assert [a] + [b, c] == [a, b, c] && [b] + [c] == [b, c] && [c] + [] == [c];
    assert FreshOnly(cfg, recent, route, [a, b, c], now) == [a] + ([b] + []) == [a, b];
  }

  lemma NoneFresh(cfg: Config, recent: RecentTable, route: Route, now: real)
    ensures FreshOnly(cfg, recent, route, [], now) == []
  {
  }
}
