/**
 What one selection cycle does to one route: restore or rebuild the held target window,
 then choose the active evaluations from it (engine.py, the route loop of
 _select_evaluation_window with _restore_held_route_window and the two mixes).
 */
module SchedulerRoute {
  import opened Collections
  import opened SchedulerTypes
  import opened SchedulerRotation
  import opened SchedulerWindow

  // ---------- The priority / exploration mix ----------

  function Ceil(x: real): int {
    if x.Floor as real == x then x.Floor else x.Floor + 1
  }

  function Portion(count: real, fraction: real): real {
    count * fraction
  }

  /** _exploration_count */
  function ExplorationCount(cfg: Config, route: Route, count: int): int {
    var fraction := cfg.ExplorationFor(route);
    var limit := if count > 1 && fraction < 1.0 then count - 1 else count;
    Min(limit, Max(1, Ceil(Portion(count as real, fraction))))
  }

  /** The recently executable members that keep a slot ahead of exploration. */
  function Priority(cfg: Config, recent: RecentTable, route: Route, pool: seq<Evaluation>, count: int,
                    now: real): seq<Evaluation> {
    var ranked := RecentCandidates(cfg, recent, route, pool, now);
    var reserve := ranked != [] && |ranked| < |pool|;
    var exploration := if reserve then ExplorationCount(cfg, route, count) else 0;
    ranked[..Min(|ranked|, Max(0, count - exploration))]
  }

  datatype Mixed = Mixed(window: seq<Evaluation>, cursor: Option<nat>)

  /** Shared by _build_prioritized_route_window and _select_prioritized_active_evaluations. */
  function Mix(cfg: Config, recent: RecentTable, route: Route, pool: seq<Evaluation>, count: int, now: real,
               cursor: Option<nat>): Mixed
  {
    var priority := Priority(cfg, recent, route, pool, count, now);
    var x := Explore(pool, KeySet(priority), count - |priority|, cursor);
    Mixed(priority + x.selected, x.cursor)
  }

  // ---------- Rebinding held keys ----------

  predicate HasKey(evs: seq<Evaluation>, key: Key) {
    exists e <- evs :: e.targets == key
  }

  function FirstWith(evs: seq<Evaluation>, key: Key): (i: nat)
    requires HasKey(evs, key)
    ensures i < |evs| && evs[i].targets == key
    ensures forall k :: 0 <= k < i ==> evs[k].targets != key
  {
    if evs[0].targets == key then 0
    else
      assert HasKey(evs[1..], key) by {
        var e :| e in evs && e.targets == key;
        assert e in evs[1..];
      }
      1 + FirstWith(evs[1..], key)
  }

  function Without(evs: seq<Evaluation>, i: nat): (r: seq<Evaluation>)
    requires i < |evs|
    ensures |r| == |evs| - 1 && Within(r, evs)
    ensures forall e <- evs :: e == evs[i] || e in r
  {
    evs[..i] + evs[i + 1..]
  }

  /** Each key takes the first evaluation with those targets that no earlier key has taken. */
  function Rebind(evs: seq<Evaluation>, keys: seq<Key>): (r: Option<seq<Evaluation>>)
    ensures r.Some? ==> KeysOf(r.value) == keys && Within(r.value, evs)
    decreases |keys|
  {
    if keys == [] then Some([])
    else if !HasKey(evs, keys[0]) then None
    else
      var i := FirstWith(evs, keys[0]);
      var rest := Rebind(Without(evs, i), keys[1..]);
      if rest.None? then None
      else
        RebindCons(evs, i, keys, rest.value);
        Some([evs[i]] + rest.value)
  }

  lemma RebindCons(evs: seq<Evaluation>, i: nat, keys: seq<Key>, rest: seq<Evaluation>)
    requires i < |evs| && keys != [] && evs[i].targets == keys[0]
    requires KeysOf(rest) == keys[1..] && Within(rest, Without(evs, i))
    ensures KeysOf([evs[i]] + rest) == keys && Within([evs[i]] + rest, evs)
  {
    var r := [evs[i]] + rest;
    assert |keys| == |r|;
    assert KeysOf(r) == [keys[0]] + KeysOf(rest);
    forall e | e in r
      ensures e in evs
    {
      assert e == evs[i] || e in Without(evs, i);
    }
  }

  lemma WithoutDistinct(evs: seq<Evaluation>, i: nat)
    requires i < |evs| && DistinctKeys(evs)
    ensures DistinctKeys(Without(evs, i))
    ensures evs[i].targets !in KeySet(Without(evs, i))
  {
    var w := Without(evs, i);
    forall e | e in w
      ensures e.targets != evs[i].targets
    {
      var k :| 0 <= k < |w| && w[k] == e;
      assert e == if k < i then evs[k] else evs[k + 1];
    }
  }

  /** Under distinct keys a rebound window repeats nothing. */
  lemma {:induction false} RebindDistinct(evs: seq<Evaluation>, keys: seq<Key>)
    requires DistinctKeys(evs) && Rebind(evs, keys).Some?
    ensures DistinctKeys(Rebind(evs, keys).value)
    decreases |keys|
  {
    if keys != [] {
      var i := FirstWith(evs, keys[0]);
      var w := Without(evs, i);
      WithoutDistinct(evs, i);
      RebindDistinct(w, keys[1..]);
      var rest := Rebind(w, keys[1..]).value;
      assert forall e <- rest :: e.targets in KeySet(w);
      DistinctConcat([evs[i]], rest);
    }
  }

  lemma TailWithin(evs: seq<Evaluation>, h: seq<Evaluation>, i: nat)
    requires h != [] && DistinctKeys(h) && Within(h, evs) && i < |evs| && evs[i] == h[0]
    ensures Within(h[1..], Without(evs, i)) && DistinctKeys(h[1..])
  {
    hide Without;
    forall k | 0 <= k < |h[1..]|
      ensures h[1..][k] in Without(evs, i)
    {
      assert h[1..][k] == h[k + 1] && h[k + 1] in evs && h[k + 1].targets != h[0].targets;
    }
  }

  /** Rebinding the keys of a duplicate-free part of the plan gives that part back. */
  lemma {:induction false} RebindOwnKeys(evs: seq<Evaluation>, h: seq<Evaluation>)
    requires DistinctKeys(evs) && DistinctKeys(h) && Within(h, evs)
    ensures Rebind(evs, KeysOf(h)) == Some(h)
    decreases |h|
  {
    hide FirstWith, Without;
    if h != [] {
      var keys, tail := KeysOf(h), h[1..];
      assert keys[1..] == KeysOf(tail) && keys != [];
      assert h[0] in evs && HasKey(evs, keys[0]);
      var i := FirstWith(evs, keys[0]);
      SameKeySameElement(evs, evs[i], h[0]);
      WithoutDistinct(evs, i);
      TailWithin(evs, h, i);
      RebindOwnKeys(Without(evs, i), tail);
      assert h == [h[0]] + tail;
    }
  }

  // ---------- Restore or rebuild ----------

  datatype Restored = Restored(window: Option<seq<Evaluation>>, state: RouteState)

  /** The warm window before any resize: the cache when it may be used, else a rebinding. */
  function WarmWindow(evs: seq<Evaluation>, reuse: bool, rs: RouteState): Option<seq<Evaluation>> {
    if reuse && rs.held.Some? then rs.held else Rebind(evs, rs.keys.GetOr([]))
  }

  /** The first members stay; a larger budget is filled up by exploration. */
  function Resize(evs: seq<Evaluation>, warm: seq<Evaluation>, expected: nat, cursor: Option<nat>): Mixed {
    var kept := warm[..Min(expected, |warm|)];
    var x := Explore(evs, KeySet(kept), expected - |kept|, cursor);
    Mixed(kept + x.selected, x.cursor)
  }

  /** The tail of _restore_held_route_window: fits the warm window to the budget and records it. */
  function Refit(evs: seq<Evaluation>, warm: seq<Evaluation>, expected: nat, reuse: bool, rs: RouteState): Restored {
    if |warm| == expected then Restored(Some(warm), if reuse then rs.(held := Some(warm)) else rs)
    else
      var resized := Resize(evs, warm, expected, rs.cursor);
      var moved := rs.(cursor := resized.cursor);
      if |resized.window| != expected then Restored(None, moved)
      else
        var keyed := moved.(keys := Some(KeysOf(resized.window)));
        Restored(Some(resized.window), if reuse then keyed.(held := Some(resized.window)) else keyed)
  }

  /** _restore_held_route_window */
  function Restore(evs: seq<Evaluation>, expected: nat, now: real, reuse: bool, rs: RouteState): Restored {
    if rs.keys.GetOr([]) == [] || now >= rs.deadline.GetOr(0.0) then
      Restored(None, rs.(held := None))
    else if reuse && rs.held.Some? && |rs.held.value| == expected then
      Restored(rs.held, rs)
    else
      var warm := WarmWindow(evs, reuse, rs);
      if warm.None? then Restored(None, rs) else Refit(evs, warm.value, expected, reuse, rs)
  }

  /** A freshly built window, its keys, its deadline and a reset active cursor. */
  function Rebuild(cfg: Config, recent: RecentTable, route: Route, evs: seq<Evaluation>, expected: nat, now: real,
                   reuse: bool, rs: RouteState): Restored
  {
    var built := Mix(cfg, recent, route, evs, expected, now, rs.cursor);
    Restored(Some(built.window), RouteState(
      built.cursor,
      Some(0),
      Some(KeysOf(built.window)),
      if reuse then Some(built.window) else None,
      Some(now + cfg.HoldFor(route))))
  }

  datatype RouteStepped = RouteStepped(state: RouteState, target: seq<Evaluation>, active: seq<Evaluation>)

  function PrefetchCount(cfg: Config, route: Route, evs: seq<Evaluation>, slots: nat): nat {
    Min(|evs|, slots * cfg.PrefetchFor(route))
  }

  /** The route loop body of _select_evaluation_window. */
  function RouteStep(cfg: Config, recent: RecentTable, route: Route, evs: seq<Evaluation>, slots: nat, now: real,
                     reuse: bool, rs: RouteState): RouteStepped
  {
    if slots == 0 then
      RouteStepped(rs.(keys := None, held := None, deadline := None, activeCursor := None), [], [])
    else
      var expected := PrefetchCount(cfg, route, evs, slots);
      var restored := Restore(evs, expected, now, reuse, rs);
      var window := if restored.window.Some? then restored
                    else Rebuild(cfg, recent, route, evs, expected, now, reuse, restored.state);
      var active := Mix(cfg, recent, route, window.window.value, slots, now, window.state.activeCursor);
      RouteStepped(window.state.(activeCursor := active.cursor), window.window.value, active.window)
  }

  // ---------- Exact lengths and membership ----------

  lemma PriorityFacts(cfg: Config, recent: RecentTable, route: Route, pool: seq<Evaluation>, count: nat, now: real)
    requires cfg.Valid() && DistinctKeys(pool) && 0 < count <= |pool|
    ensures var p := Priority(cfg, recent, route, pool, count, now);
            && Within(p, pool) && DistinctKeys(p) && |p| <= count
            && KeySet(p) <= KeySet(pool)
  {
    RecentCandidatesAreRanked(cfg, recent, route, pool, now);
  }

  /**
   A mix over a pool with distinct keys delivers exactly the requested count, drawn from
   the pool without repetition.
   */
  lemma MixExact(cfg: Config, recent: RecentTable, route: Route, pool: seq<Evaluation>, count: nat, now: real,
                 cursor: Option<nat>)
    requires cfg.Valid() && DistinctKeys(pool) && 0 < count <= |pool|
    ensures var m := Mix(cfg, recent, route, pool, count, now, cursor);
            |m.window| == count && DistinctKeys(m.window) && Within(m.window, pool)
  {
    hide Priority, Explore, Unexcluded;
    var p := Priority(cfg, recent, route, pool, count, now);
    PriorityFacts(cfg, recent, route, pool, count, now);
    KeySetSize(p);
    UnexcludedCount(pool, KeySet(p));
    ExploreLength(pool, KeySet(p), count - |p|, cursor);
    ExploreSound(pool, KeySet(p), count - |p|, cursor);
    DistinctConcat(p, Explore(pool, KeySet(p), count - |p|, cursor).selected);
  }

  /**
   Exactly when a mix leaves exploration a slot: iff some member of the pool is not
   recently executable.
   */
  lemma ExplorationSlotIff(cfg: Config, recent: RecentTable, route: Route, pool: seq<Evaluation>, count: nat, now: real)
    requires cfg.Valid() && DistinctKeys(pool) && 0 < count <= |pool|
    ensures |Priority(cfg, recent, route, pool, count, now)| < count
       <==> exists e <- pool :: cfg.PriorityFor(route) <= 0.0 || !Fresh(cfg, recent, route, e, now)
  {
    hide RankRecent, FreshOnly, Fresh;
    var ranked := RecentCandidates(cfg, recent, route, pool, now);
    RecentCandidatesAreRanked(cfg, recent, route, pool, now);
    if forall e <- pool :: cfg.PriorityFor(route) > 0.0 && Fresh(cfg, recent, route, e, now) {
      KeySetSize(ranked);
      KeySetSize(pool);
      assert KeySet(ranked) == KeySet(pool);
    } else {
      FewerRanked(cfg, recent, route, pool, now);
      hide RecentCandidates;
      assert ExplorationCount(cfg, route, count) >= 1;
    }
  }

  lemma FewerRanked(cfg: Config, recent: RecentTable, route: Route, pool: seq<Evaluation>, now: real)
    requires DistinctKeys(pool)
    requires exists e <- pool :: cfg.PriorityFor(route) <= 0.0 || !Fresh(cfg, recent, route, e, now)
    ensures |RecentCandidates(cfg, recent, route, pool, now)| < |pool|
  {
    hide RecentCandidates, Fresh;
    var ranked := RecentCandidates(cfg, recent, route, pool, now);
    RecentCandidatesAreRanked(cfg, recent, route, pool, now);
    KeySetSize(ranked);
    KeySetSize(pool);
    var e :| e in pool && (cfg.PriorityFor(route) <= 0.0 || !Fresh(cfg, recent, route, e, now));
    assert e.targets !in KeySet(ranked) by {
      if x :| x in ranked && x.targets == e.targets {
        SameKeySameElement(pool, x, e);
      }
    }
    assert KeySet(ranked) < KeySet(pool) by {
      assert e.targets in KeySet(pool);
    }
    ProperSubsetSmaller(KeySet(ranked), KeySet(pool));
  }

  lemma ProperSubsetSmaller<T>(a: set<T>, b: set<T>)
    requires a < b
    ensures |a| < |b|
  {
    assert b == a + (b - a);
  }

  /** The cache agrees with rebinding the held keys against the current plan. */
  ghost predicate Coherent(rs: RouteState, evs: seq<Evaluation>) {
    rs.held.Some? ==> rs.keys.Some? && Rebind(evs, rs.keys.value) == rs.held
  }

  /** A warm window of distinct planned evaluations can always be resized to any size the plan allows. */
  lemma ResizeExact(evs: seq<Evaluation>, warm: seq<Evaluation>, expected: nat, cursor: Option<nat>)
    requires DistinctKeys(evs) && DistinctKeys(warm) && Within(warm, evs) && expected <= |evs|
    ensures var resized := Resize(evs, warm, expected, cursor);
            && |resized.window| == expected
            && DistinctKeys(resized.window) && Within(resized.window, evs)
            && resized.window[..Min(expected, |warm|)] == warm[..Min(expected, |warm|)]
            && (expected <= |warm| ==> resized == Mixed(warm[..expected], cursor))
  {
    var kept := warm[..Min(expected, |warm|)];
    assert DistinctKeys(kept);
    KeySetSize(kept);
    UnexcludedCount(evs, KeySet(kept));
    ExploreLength(evs, KeySet(kept), expected - |kept|, cursor);
    ExploreSound(evs, KeySet(kept), expected - |kept|, cursor);
    DistinctConcat(kept, Explore(evs, KeySet(kept), expected - |kept|, cursor).selected);
  }

  predicate Survives(evs: seq<Evaluation>, now: real, rs: RouteState) {
    rs.keys.GetOr([]) != [] && now < rs.deadline.GetOr(0.0) && Rebind(evs, rs.keys.GetOr([])).Some?
  }

  /**
   Exactly when the held window survives a cycle: iff there is one, it has not expired and
   every held key is still planned.
   */
  lemma RestoreIff(evs: seq<Evaluation>, expected: nat, now: real, reuse: bool, rs: RouteState)
    requires DistinctKeys(evs) && 0 < expected <= |evs|
    requires reuse ==> Coherent(rs, evs)
    ensures Restore(evs, expected, now, reuse, rs).window.Some?
       <==> Survives(evs, now, rs)
  {
    var keys := rs.keys.GetOr([]);
    if keys != [] && now < rs.deadline.GetOr(0.0) {
      var warm := WarmWindow(evs, reuse, rs);
      assert warm == Rebind(evs, keys);
      if warm.Some? {
        RebindDistinct(evs, keys);
        ResizeExact(evs, warm.value, expected, rs.cursor);
      }
    }
  }

  /**
   A surviving window has exactly the expected size, keeps the first min(old, new) held
   members in order, repeats nothing, and moves neither the deadline nor the active cursor.
   */
  lemma RestoreKeeps(evs: seq<Evaluation>, expected: nat, now: real, reuse: bool, rs: RouteState)
    requires DistinctKeys(evs) && 0 < expected <= |evs|
    requires reuse ==> Coherent(rs, evs)
    requires Restore(evs, expected, now, reuse, rs).window.Some?
    ensures var keys := rs.keys.GetOr([]);
            var r := Restore(evs, expected, now, reuse, rs);
            && |r.window.value| == expected
            && DistinctKeys(r.window.value) && Within(r.window.value, evs)
            && r.state.deadline == rs.deadline
            && r.state.activeCursor == rs.activeCursor
            && r.state.keys == Some(KeysOf(r.window.value))
            && (reuse ==> r.state.held == r.window)
            && Rebind(evs, keys).Some?
            && r.window.value[..Min(expected, |keys|)] == Rebind(evs, keys).value[..Min(expected, |keys|)]
  {
    var keys := rs.keys.GetOr([]);
    RestoreIff(evs, expected, now, reuse, rs);
    var warm := Rebind(evs, keys).value;
    RebindDistinct(evs, keys);
    ResizeExact(evs, warm, expected, rs.cursor);
    assert |warm| == |keys|;
  }

  /** The window a step works with, before the active choice is made from it. */
  function StepWindow(cfg: Config, recent: RecentTable, route: Route, evs: seq<Evaluation>, slots: nat, now: real,
                      reuse: bool, rs: RouteState): (w: Restored)
    requires 0 < slots
    ensures w.window.Some?
  {
    var expected := PrefetchCount(cfg, route, evs, slots);
    var restored := Restore(evs, expected, now, reuse, rs);
    if restored.window.Some? then restored
    else Rebuild(cfg, recent, route, evs, expected, now, reuse, restored.state)
  }

  lemma PrefetchBounds(cfg: Config, route: Route, evs: seq<Evaluation>, slots: nat)
    requires cfg.Valid() && slots <= |evs|
    ensures slots <= PrefetchCount(cfg, route, evs, slots) <= |evs|
  {
    var m := cfg.PrefetchFor(route);
    assert slots * m == slots + slots * (m - 1);
    assert slots * (m - 1) >= 0;
  }

  /**
   One route, one cycle: the target window has exactly the prefetch size, the active list
   exactly the slot count, nothing is repeated, active lies in target, target lies in the
   plan, and the cache stays coherent.
   */
  lemma RouteStepExact(cfg: Config, recent: RecentTable, route: Route, evs: seq<Evaluation>, slots: nat, now: real,
                       reuse: bool, rs: RouteState)
    requires cfg.Valid() && DistinctKeys(evs) && slots <= |evs|
    requires reuse ==> Coherent(rs, evs)
    ensures var r := RouteStep(cfg, recent, route, evs, slots, now, reuse, rs);
            && |r.target| == PrefetchCount(cfg, route, evs, slots)
            && |r.active| == slots
            && DistinctKeys(r.target) && DistinctKeys(r.active)
            && Within(r.active, r.target) && Within(r.target, evs)
            && (slots > 0 ==> r.state.keys == Some(KeysOf(r.target)) && r.target != [])
            && (reuse ==> r.state.held == (if slots == 0 then None else Some(r.target)) && Coherent(r.state, evs))
  {
    if slots > 0 {
      PrefetchBounds(cfg, route, evs, slots);
      var expected := PrefetchCount(cfg, route, evs, slots);
      var restored := Restore(evs, expected, now, reuse, rs);
      if restored.window.Some? {
        RestoreKeeps(evs, expected, now, reuse, rs);
      } else {
        MixExact(cfg, recent, route, evs, expected, now, restored.state.cursor);
      }
      var w := StepWindow(cfg, recent, route, evs, slots, now, reuse, rs);
      MixExact(cfg, recent, route, w.window.value, slots, now, w.state.activeCursor);
      RebindOwnKeys(evs, w.window.value);
    }
  }

  /** Cache transparency for one route: dropping the cache changes neither outputs nor state. */
  lemma RouteStepIgnoresCache(cfg: Config, recent: RecentTable, route: Route, evs: seq<Evaluation>, slots: nat,
                              now: real,
                              rs: RouteState)
    requires cfg.Valid() && DistinctKeys(evs) && slots <= |evs|
    requires Coherent(rs, evs)
    ensures RouteStep(cfg, recent, route, evs, slots, now, true, rs)
         == RouteStep(cfg, recent, route, evs, slots, now, true, rs.(held := None))
  {
    if slots > 0 && rs.held.Some? {
      var expected := PrefetchCount(cfg, route, evs, slots);
      var a := Restore(evs, expected, now, true, rs);
      var b := Restore(evs, expected, now, true, rs.(held := None));
      assert a.window == b.window;
      if a.window.Some? {
        assert a.state == b.state;
      } else {
        PrefetchBounds(cfg, route, evs, slots);
        RestoreIff(evs, expected, now, true, rs);
        RestoreIff(evs, expected, now, true, rs.(held := None));
        assert a.state.cursor == b.state.cursor;
      }
    }
  }

  // ---------- The mix in the configuration's and the observations' own fields ----------

  lemma PortionWithin(x: real, f: real)
    requires x >= 0.0 && 0.0 < f <= 1.0
    ensures 0.0 <= Portion(x, f) <= x && (f == 1.0 ==> Portion(x, f) == x)
  {
    assert x - Portion(x, f) == Portion(x, 1.0 - f);
  }

  /** The fraction of a count, rounded up, at least one, and below the count when the fraction is below one. */
  lemma ExplorationShare(cfg: Config, route: Route, count: nat)
    requires cfg.Valid() && count > 0
    ensures var f := if route in cfg.explorationByRoute then cfg.explorationByRoute[route] else cfg.explorationFraction;
            var x := ExplorationCount(cfg, route, count);
            && 1 <= x <= count
            && (count > 1 && f < 1.0 ==> x < count)
            && (x as real >= count as real * f || (f < 1.0 && x == count - 1))
            && (x == 1 || x as real - 1.0 < count as real * f)
  {
    PortionWithin(count as real, cfg.ExplorationFor(route));
  }

  /** Whoever is not among the first `k` candidates had no better net spread, nor the same and a later observation. */
  lemma LeadersAreBest(cfg: Config, recent: RecentTable, route: Route, pool: seq<Evaluation>, now: real, k: nat, i: nat,
                       e: Evaluation)
    requires var best := RecentCandidates(cfg, recent, route, pool, now);
             i < k <= |best| && e in best && e !in best[..k]
    ensures var leader := RecentCandidates(cfg, recent, route, pool, now)[i];
            && (route, e.targets) in recent && (route, leader.targets) in recent
            && var a, b := recent[(route, leader.targets)], recent[(route, e.targets)];
               a.netSpread > b.netSpread || (a.netSpread == b.netSpread && a.observedAt >= b.observedAt)
  {
    hide RecentCandidates;
    var best := RecentCandidates(cfg, recent, route, pool, now);
    assert best == best[..k] + best[k..];
    assert e in best[k..];
    var d :| 0 <= d < |best[k..]| && best[k..][d] == e;
    var j := k + d;
    BestSpreadFirst(cfg, recent, route, pool, now, i, j);
  }

  /**
   A mix of a pool leads with its candidates of the best net spreads, as many as fit beside the exploration
   share, and fills up by exploring past them. With every member or none a candidate, candidates take all they
   can; otherwise exploration gets at least its fraction, rounded up, of the count, and no more while candidates
   are left. One slot of several stays with a candidate unless the fraction is one.
   */
  lemma MixIs(cfg: Config, recent: RecentTable, route: Route, pool: seq<Evaluation>, count: nat, now: real,
              cursor: Option<nat>) returns (k: nat)
    requires cfg.Valid() && count > 0
    ensures var m := Mix(cfg, recent, route, pool, count, now, cursor);
            var best := RecentCandidates(cfg, recent, route, pool, now);
            var f := if route in cfg.explorationByRoute then cfg.explorationByRoute[route] else cfg.explorationFraction;
            && k <= count && k <= |best| && k <= |m.window| && m.window[..k] == best[..k]
            && k == |Priority(cfg, recent, route, pool, count, now)|
            && (forall i :: 0 <= i < k ==> forall e <- best :: e !in best[..k] ==>
                  && (route, e.targets) in recent && (route, best[i].targets) in recent
                  && var a, b := recent[(route, best[i].targets)], recent[(route, e.targets)];
                     a.netSpread > b.netSpread || (a.netSpread == b.netSpread && a.observedAt >= b.observedAt))
            && (|best| == 0 || |best| >= |pool| ==> k == |best| || k == count)
            && (0 < |best| < |pool| ==>
                  && k < count && (count > 1 && f < 1.0 ==> k > 0)
                  && ((count - k) as real >= count as real * f || (f < 1.0 && k == 1))
                  && (k < |best| ==> count - k == 1 || (count - k) as real - 1.0 < count as real * f))
            && var x := Explore(pool, set e | e in best[..k] :: e.targets, count - k, cursor);
               m.window[k..] == x.selected && m.cursor == x.cursor
  {
    hide Explore, RecentCandidates, ExplorationCount;
    var best := RecentCandidates(cfg, recent, route, pool, now);
    var priority := Priority(cfg, recent, route, pool, count, now);
    ExplorationShare(cfg, route, count);
    k := |priority|;
    assert KeySet(priority) == set e | e in best[..k] :: e.targets;
    forall i | 0 <= i < k
      ensures forall e <- best :: e !in best[..k] ==>
                && (route, e.targets) in recent && (route, best[i].targets) in recent
                && var a, b := recent[(route, best[i].targets)], recent[(route, e.targets)];
                   a.netSpread > b.netSpread || (a.netSpread == b.netSpread && a.observedAt >= b.observedAt)
    {
      forall e | e in best && e !in best[..k]
        ensures (route, e.targets) in recent && (route, best[i].targets) in recent
        ensures var a, b := recent[(route, best[i].targets)], recent[(route, e.targets)];
                a.netSpread > b.netSpread || (a.netSpread == b.netSpread && a.observedAt >= b.observedAt)
      {
        LeadersAreBest(cfg, recent, route, pool, now, k, i, e);
      }
    }
  }

  // ---------- The held window in the plan's own fields ----------

  lemma WithoutHasKey(evs: seq<Evaluation>, i: nat, key: Key)
    requires DistinctKeys(evs) && i < |evs|
    ensures HasKey(Without(evs, i), key) <==> key != evs[i].targets && HasKey(evs, key)
  {
    WithoutDistinct(evs, i);
    var w := Without(evs, i);
    if HasKey(w, key) {
      var e :| e in w && e.targets == key;
      assert e.targets in KeySet(w) && e in evs;
    }
    if key != evs[i].targets && HasKey(evs, key) {
      var e :| e in evs && e.targets == key;
      assert e in w;
    }
  }

  /** With distinct targets the held keys can be rebound iff each is planned and none is held twice. */
  lemma {:induction false} RebindIff(evs: seq<Evaluation>, keys: seq<Key>)
    requires DistinctKeys(evs)
    ensures Rebind(evs, keys).Some? <==> (forall k <- keys :: HasKey(evs, k)) && Distinct(keys)
    decreases |keys|
  {
    hide HasKey, Without, FirstWith;
    if keys != [] && HasKey(evs, keys[0]) {
      var i, tail := FirstWith(evs, keys[0]), keys[1..];
      var w := Without(evs, i);
      WithoutDistinct(evs, i);
      RebindIff(w, tail);
      forall k | k in tail
        ensures HasKey(w, k) <==> k != keys[0] && HasKey(evs, k)
      {
        WithoutHasKey(evs, i, k);
      }
      assert keys == [keys[0]] + tail;
      DistinctCons(keys[0], tail);
    }
  }

  lemma DistinctCons<T>(x: T, s: seq<T>)
    ensures Distinct([x] + s) <==> x !in s && Distinct(s)
  {
    var l := [x] + s;
    assert forall i :: 0 <= i < |s| ==> l[i + 1] == s[i];
    if x !in s && Distinct(s) {
      DistinctAppend([x], s);
    }
    if Distinct(l) {
      forall i, j | 0 <= i < j < |s|
        ensures s[i] != s[j]
      {
        assert l[i + 1] != l[j + 1];
      }
      assert l[0] == x;
    }
  }

  /** A held window survives iff there is one, its deadline has not come, and each key is planned and held once. */
  lemma SurvivesIff(evs: seq<Evaluation>, now: real, rs: RouteState)
    requires DistinctKeys(evs)
    ensures Survives(evs, now, rs)
       <==> && rs.keys.Some? && rs.keys.value != []
            && now < (if rs.deadline.Some? then rs.deadline.value else 0.0)
            && (forall k <- rs.keys.value :: exists e <- evs :: e.targets == k)
            && (forall i, j :: 0 <= i < j < |rs.keys.value| ==> rs.keys.value[i] != rs.keys.value[j])
  {
    RebindIff(evs, rs.keys.GetOr([]));
  }

  /** A route without slots loses its window, its deadline and its active cursor, and keeps its exploration cursor. */
  lemma IdleStepIs(cfg: Config, recent: RecentTable, route: Route, evs: seq<Evaluation>, now: real, reuse: bool,
                   rs: RouteState)
    ensures RouteStep(cfg, recent, route, evs, 0, now, reuse, rs)
         == RouteStepped(RouteState(rs.cursor, None, None, None, None), [], [])
  {
  }

  /**
   A surviving window gets the size wanted: the slots times the route's prefetch setting, at most the plan. Its
   first keys stay in order, exploration past them fills it up, the deadline stays, and the active evaluations are
   a mix of it that continues from the active cursor.
   */
  lemma KeptStepIs(cfg: Config, recent: RecentTable, route: Route, evs: seq<Evaluation>, slots: nat, now: real,
                   reuse: bool, rs: RouteState)
    requires cfg.Valid() && DistinctKeys(evs) && 0 < slots <= |evs|
    requires (reuse ==> Coherent(rs, evs)) && Survives(evs, now, rs)
    ensures var prefetch := if route in cfg.prefetchByRoute then cfg.prefetchByRoute[route] else 1;
            var size := if slots * prefetch <= |evs| then slots * prefetch else |evs|;
            var n := if |rs.keys.value| <= size then |rs.keys.value| else size;
            var step := RouteStep(cfg, recent, route, evs, slots, now, reuse, rs);
            var x := Explore(evs, (set k | k in rs.keys.value[..n]), size - n, rs.cursor);
            && |step.target| == size && step.state.deadline == rs.deadline
            && (forall i :: 0 <= i < n ==> step.target[i] in evs && step.target[i].targets == rs.keys.value[i])
            && step.target[n..] == x.selected && step.state.cursor == x.cursor
            && var active := Mix(cfg, recent, route, step.target, slots, now, rs.activeCursor);
               step.active == active.window && step.state.activeCursor == active.cursor
  {
    hide Mix, Explore, Rebind, Coherent, Survives;
    var size := PrefetchCount(cfg, route, evs, slots);
    PrefetchBounds(cfg, route, evs, slots);
    RestoreIff(evs, size, now, reuse, rs);
    RestoreExplores(evs, size, now, reuse, rs);
    RestoreKeeps(evs, size, now, reuse, rs);
  }

  /**
   Without a surviving window a mix of the plan becomes the window, of the size wanted, with the route's hold time
   until its deadline; the active evaluations are a mix of it that starts at its beginning.
   */
  lemma BuiltStepIs(cfg: Config, recent: RecentTable, route: Route, evs: seq<Evaluation>, slots: nat, now: real,
                    reuse: bool, rs: RouteState)
    requires cfg.Valid() && DistinctKeys(evs) && 0 < slots <= |evs|
    requires (reuse ==> Coherent(rs, evs)) && !Survives(evs, now, rs)
    ensures var prefetch := if route in cfg.prefetchByRoute then cfg.prefetchByRoute[route] else 1;
            var hold := if route in cfg.holdByRoute then cfg.holdByRoute[route] else cfg.holdSeconds;
            var size := if slots * prefetch <= |evs| then slots * prefetch else |evs|;
            var step := RouteStep(cfg, recent, route, evs, slots, now, reuse, rs);
            var built := Mix(cfg, recent, route, evs, size, now, rs.cursor);
            var active := Mix(cfg, recent, route, step.target, slots, now, Some(0));
            && step.target == built.window && step.state.cursor == built.cursor
            && step.state.deadline == Some(now + hold)
            && step.active == active.window && step.state.activeCursor == active.cursor
            && |step.target| == size
  {
    hide Mix, Explore, Rebind, Coherent, Survives;
    var size := PrefetchCount(cfg, route, evs, slots);
    PrefetchBounds(cfg, route, evs, slots);
    RestoreIff(evs, size, now, reuse, rs);
    NothingRestored(evs, size, now, reuse, rs);
    MixExact(cfg, recent, route, evs, size, now, rs.cursor);
  }

  /** A window that does not survive leaves the exploration cursor where it was. */
  lemma NothingRestored(evs: seq<Evaluation>, expected: nat, now: real, reuse: bool, rs: RouteState)
    requires DistinctKeys(evs) && 0 < expected <= |evs| && (reuse ==> Coherent(rs, evs))
    requires Restore(evs, expected, now, reuse, rs).window.None?
    ensures Restore(evs, expected, now, reuse, rs).state.cursor == rs.cursor
  {
    RestoreIff(evs, expected, now, reuse, rs);
    var keys := rs.keys.GetOr([]);
    if keys != [] && now < rs.deadline.GetOr(0.0) {
      assert WarmWindow(evs, reuse, rs) == Rebind(evs, keys);
    }
  }

  /** A window that survives keeps its first keys and explores for the rest. */
  lemma RestoreExplores(evs: seq<Evaluation>, expected: nat, now: real, reuse: bool, rs: RouteState)
    requires DistinctKeys(evs) && 0 < expected <= |evs| && (reuse ==> Coherent(rs, evs))
    requires Survives(evs, now, rs) && Restore(evs, expected, now, reuse, rs).window.Some?
    ensures var keys, r := rs.keys.value, Restore(evs, expected, now, reuse, rs);
            var n := if |keys| <= expected then |keys| else expected;
            var x := Explore(evs, (set k | k in keys[..n]), expected - n, rs.cursor);
            && |r.window.value| == expected
            && r.window.value[n..] == x.selected && r.state.cursor == x.cursor
            && forall i :: 0 <= i < n ==> r.window.value[i].targets == keys[i]
  {
    hide Explore, Rebind;
    var keys := rs.keys.value;
    var warm := Rebind(evs, keys).value;
    var n := Min(|keys|, expected);
    RestoreKeeps(evs, expected, now, reuse, rs);
    assert WarmWindow(evs, reuse, rs) == Some(warm);
    KeySetOfPrefix(warm, keys, n);
    if |warm| == expected {
      NothingToExplore(evs, (set k | k in keys[..n]), 0, rs.cursor);
    }
    PrefixKeys(Restore(evs, expected, now, reuse, rs).window.value, warm, keys, n);
  }

  lemma KeySetOfPrefix(warm: seq<Evaluation>, keys: seq<Key>, n: nat)
    requires KeysOf(warm) == keys && n <= |keys|
    ensures |warm| == |keys| && KeySet(warm[..n]) == set k | k in keys[..n]
  {
    assert forall i :: 0 <= i < n ==> warm[..n][i].targets == keys[..n][i];
  }

  lemma PrefixKeys(window: seq<Evaluation>, warm: seq<Evaluation>, keys: seq<Key>, n: nat)
    requires KeysOf(warm) == keys && n <= |keys| && n <= |window| && window[..n] == warm[..n]
    ensures forall i :: 0 <= i < n ==> window[i].targets == keys[i]
  {
    forall i | 0 <= i < n
      ensures window[i].targets == keys[i]
    {
      assert window[i] == window[..n][i] == warm[..n][i] && KeysOf(warm)[i] == warm[i].targets;
    }
  }
}
