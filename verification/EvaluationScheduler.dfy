/**
 The scheduler as the engine runs it: dictionaries updated in place by loops
 (engine.py:1090-1440). Every method is proved against the functions of SchedulerRoute and
 SchedulerCycle, over which the run properties are stated.
 */
module EvaluationScheduling {
  import opened Collections
  import opened SchedulerTypes
  import opened SchedulerRotation
  import opened SchedulerWindow
  import opened SchedulerRoute
  import opened SchedulerAllocation
  import opened SchedulerInterleave
  import opened SchedulerCycle

  // ---------- Loops over values ----------

  /** What a walk yields when `selected` has been picked from the first `examined` members already. */
  function Resumed(list: seq<Evaluation>, excluded: set<Key>, count: nat, selected: seq<Evaluation>,
                   examined: nat): Picked
    requires examined <= |list| && |selected| <= count
  {
    var rest := Pick(list[examined..], excluded, count - |selected|);
    Picked(selected + rest.selected, examined + rest.examined)
  }

  lemma ResumeStep(list: seq<Evaluation>, excluded: set<Key>, count: nat, selected: seq<Evaluation>, examined: nat)
    requires examined < |list| && |selected| < count
    ensures var e := list[examined];
            var more := if e.targets in excluded then selected else selected + [e];
            Resumed(list, excluded, count, selected, examined) == Resumed(list, excluded, count, more, examined + 1)
  {
    assert list[examined..][0] == list[examined] && list[examined..][1..] == list[examined + 1..];
    var rest := Pick(list[examined + 1..], excluded, count - |selected| - 1);
    assert selected + ([list[examined]] + rest.selected) == (selected + [list[examined]]) + rest.selected;
  }

  lemma ResumeEnds(list: seq<Evaluation>, excluded: set<Key>, count: nat, selected: seq<Evaluation>, examined: nat)
    requires examined <= |list| && |selected| <= count
    requires examined == |list| || |selected| == count
    ensures Resumed(list, excluded, count, selected, examined) == Picked(selected, examined)
  {
  }

  lemma ResumeStarts(list: seq<Evaluation>, excluded: set<Key>, count: nat)
    ensures Resumed(list, excluded, count, [], 0) == Pick(list, excluded, count)
  {
    assert list[0..] == list;
  }

  /** The cyclic walk: stops after one turn or once `count` members are selected. */
  method WalkFrom(evs: seq<Evaluation>, start: nat, excluded: set<Key>, count: nat)
    returns (selected: seq<Evaluation>, examined: nat)
    requires start < |evs|
    ensures Picked(selected, examined) == Pick(Rotate(evs, start), excluded, count)
  {
    hide Rotate, Resumed, At, Pick;
    ghost var rotated := Rotate(evs, start);
    selected, examined := [], 0;
    ResumeStarts(rotated, excluded, count);
    while examined < |evs| && |selected| < count
      invariant examined <= |evs| && |selected| <= count
      invariant Resumed(rotated, excluded, count, selected, examined) == Pick(rotated, excluded, count)
    {
      var evaluation := At(evs, start, examined);
      RotatedAt(evs, start, examined);
      ResumeStep(rotated, excluded, count, selected, examined);
      examined := examined + 1;
      if evaluation.targets !in excluded {
        selected := selected + [evaluation];
      }
    }
    ResumeEnds(rotated, excluded, count, selected, examined);
  }

  /** _select_rotating_exploration: walks from the route's cursor and stores where it stopped. */
  method SelectRotatingExploration(route: Route, evs: seq<Evaluation>, excluded: set<Key>, count: int,
                                   cursors: map<Route, nat>)
    returns (selected: seq<Evaluation>, moved: map<Route, nat>)
    ensures var x := Explore(evs, excluded, count, Lookup(cursors, route));
            selected == x.selected && moved == Store(cursors, route, x.cursor)
  {
    if count <= 0 || evs == [] {
      return [], cursors;
    }
    hide Pick, Rotate;
    var cursor := (if route in cursors then cursors[route] else 0) % |evs|;
    var examined;
    selected, examined := WalkFrom(evs, cursor, excluded, count);
    moved := cursors[route := (cursor + examined) % |evs|];
  }

  function WithKey(evs: seq<Evaluation>, key: Key): seq<Evaluation> {
    if evs == [] then []
    else if evs[0].targets == key then [evs[0]] + WithKey(evs[1..], key)
    else WithKey(evs[1..], key)
  }

  lemma {:induction false} WithKeyAppend(evs: seq<Evaluation>, e: Evaluation, key: Key)
    ensures WithKey(evs + [e], key) == WithKey(evs, key) + (if e.targets == key then [e] else [])
  {
    if evs == [] {
      assert evs + [e] == [e] && [e][1..] == [];
    } else {
      assert (evs + [e])[1..] == evs[1..] + [e];
      WithKeyAppend(evs[1..], e, key);
    }
  }

  lemma WithKeyCons(e: Evaluation, evs: seq<Evaluation>, key: Key)
    ensures WithKey([e] + evs, key) == (if e.targets == key then [e] else []) + WithKey(evs, key)
  {
    assert ([e] + evs)[1..] == evs;
  }

  lemma {:induction false} QueueNonEmpty(evs: seq<Evaluation>, key: Key)
    ensures HasKey(evs, key) <==> WithKey(evs, key) != []
    ensures HasKey(evs, key) ==> evs[FirstWith(evs, key)] == WithKey(evs, key)[0]
  {
    if evs != [] {
      QueueNonEmpty(evs[1..], key);
      assert evs == [evs[0]] + evs[1..];
    }
  }

  lemma WithoutInTail(evs: seq<Evaluation>, key: Key)
    requires evs != [] && evs[0].targets != key && HasKey(evs[1..], key) && HasKey(evs, key)
    ensures Without(evs, FirstWith(evs, key)) == [evs[0]] + Without(evs[1..], FirstWith(evs[1..], key))
  {
    hide Without;
    WithoutCons(evs[0], evs[1..], FirstWith(evs[1..], key));
    assert evs == [evs[0]] + evs[1..];
  }

  lemma WithoutCons(e: Evaluation, evs: seq<Evaluation>, i: nat)
    requires i < |evs|
    ensures Without([e] + evs, i + 1) == [e] + Without(evs, i)
  {
    assert ([e] + evs)[..i + 1] == [e] + evs[..i];
    assert ([e] + evs)[i + 2..] == evs[i + 1..];
  }

  /** Taking the first evaluation with a key out of the list pops that key's queue and no other. */
  lemma {:induction false} WithoutPopsHead(evs: seq<Evaluation>, key: Key, other: Key)
    requires HasKey(evs, key) && WithKey(evs, key) != []
    ensures WithKey(Without(evs, FirstWith(evs, key)), other)
         == if other == key then WithKey(evs, key)[1..] else WithKey(evs, other)
  {
    var tail := evs[1..];
    if evs[0].targets == key {
      assert Without(evs, 0) == tail;
    } else {
      hide Without, FirstWith;
      QueueNonEmpty(tail, key);
      WithoutPopsHead(tail, key, other);
      WithoutInTail(evs, key);
      WithKeyCons(evs[0], Without(tail, FirstWith(tail, key)), other);
    }
  }

  function Prefixed(held: seq<Evaluation>, rest: Option<seq<Evaluation>>): Option<seq<Evaluation>> {
    if rest.None? then None else Some(held + rest.value)
  }

  ghost predicate Queues(pool: map<Key, seq<Evaluation>>, evs: seq<Evaluation>) {
    forall key :: WithKey(evs, key) == if key in pool then pool[key] else []
  }

  method QueueByKey(evs: seq<Evaluation>) returns (pool: map<Key, seq<Evaluation>>)
    ensures Queues(pool, evs)
  {
    pool := map[];
    for i := 0 to |evs|
      invariant Queues(pool, evs[..i])
    {
      var e := evs[i];
      assert evs[..i + 1] == evs[..i] + [e];
      forall key
        ensures WithKey(evs[..i + 1], key) == WithKey(evs[..i], key) + (if e.targets == key then [e] else [])
      {
        WithKeyAppend(evs[..i], e, key);
      }
      pool := pool[e.targets := (if e.targets in pool then pool[e.targets] else []) + [e]];
    }
    assert evs[..|evs|] == evs;
  }

  lemma RebindStep(evs: seq<Evaluation>, keys: seq<Key>, i: nat, pool: map<Key, seq<Evaluation>>)
    requires i < |keys| && Queues(pool, evs)
    ensures (keys[i] !in pool || pool[keys[i]] == []) ==> Rebind(evs, keys[i..]) == None
    ensures keys[i] in pool && pool[keys[i]] != [] ==>
              && HasKey(evs, keys[i])
              && Queues(pool[keys[i] := pool[keys[i]][1..]], Without(evs, FirstWith(evs, keys[i])))
              && Rebind(evs, keys[i..])
                 == Prefixed([pool[keys[i]][0]], Rebind(Without(evs, FirstWith(evs, keys[i])), keys[i + 1..]))
  {
    var key := keys[i];
    assert keys[i..][0] == key && keys[i..][1..] == keys[i + 1..];
    QueueNonEmpty(evs, key);
    if key in pool && pool[key] != [] {
      forall other
        ensures WithKey(Without(evs, FirstWith(evs, key)), other)
             == if other == key then WithKey(evs, key)[1..] else WithKey(evs, other)
      {
        WithoutPopsHead(evs, key, other);
      }
    }
  }

  lemma PrefixedTwice(a: seq<Evaluation>, b: seq<Evaluation>, r: Option<seq<Evaluation>>)
    ensures Prefixed(a, Prefixed(b, r)) == Prefixed(a + b, r)
    ensures Prefixed([], r) == r
  {
    if r.Some? {
      assert a + (b + r.value) == a + b + r.value;
      assert [] + r.value == r.value;
    }
  }

  /** The rebinding part of _restore_held_route_window: a queue per key, one pop per held key. */
  method RebindKeys(evs: seq<Evaluation>, keys: seq<Key>) returns (rebound: Option<seq<Evaluation>>)
    ensures rebound == Rebind(evs, keys)
  {
    hide Rebind, Queues, Prefixed;
    var pool := QueueByKey(evs);
    var held: seq<Evaluation> := [];
    ghost var remaining := evs;
    assert keys[0..] == keys;
    PrefixedTwice([], [], Rebind(evs, keys));
    for i := 0 to |keys|
      invariant Queues(pool, remaining)
      invariant Rebind(evs, keys) == Prefixed(held, Rebind(remaining, keys[i..]))
    {
      RebindStep(remaining, keys, i, pool);
      if keys[i] !in pool || pool[keys[i]] == [] {
        NothingPrefixed(held);
        return None;
      }
      PrefixedTwice(held, [pool[keys[i]][0]], Rebind(Without(remaining, FirstWith(remaining, keys[i])), keys[i + 1..]));
      held := held + [pool[keys[i]][0]];
      remaining := Without(remaining, FirstWith(remaining, keys[i]));
      pool := pool[keys[i] := pool[keys[i]][1..]];
    }
    RebindNothing(remaining, keys, held);
    rebound := Some(held);
  }

  lemma NothingPrefixed(held: seq<Evaluation>)
    ensures Prefixed(held, None) == None
  {
  }

  lemma RebindNothing(evs: seq<Evaluation>, keys: seq<Key>, held: seq<Evaluation>)
    ensures Prefixed(held, Rebind(evs, keys[|keys|..])) == Some(held)
  {
    assert held + [] == held;
  }

  function PlanIndex(evs: seq<Evaluation>): map<Route, seq<Evaluation>> {
    map r | r in RouteOrder(evs) :: RouteEvs(evs, r)
  }

  /** Groups a plan by route, keeping the order of first appearance. */
  method GroupByRoute(evs: seq<Evaluation>) returns (routes: seq<Route>, grouped: map<Route, seq<Evaluation>>)
    ensures routes == RouteOrder(evs)
    ensures grouped == PlanIndex(evs)
  {
    NoRoutes();
    hide RouteOrder, RouteEvs;
    routes, grouped := [], map[];
    assert evs[..0] == [];
    for i := 0 to |evs|
      invariant routes == RouteOrder(evs[..i])
      invariant grouped.Keys == (set r | r in routes)
      invariant forall r :: RouteEvs(evs[..i], r) == if r in grouped then grouped[r] else []
    {
      var e := evs[i];
      RoutesStep(evs, i);
      if e.route !in grouped {
        routes := routes + [e.route];
        grouped := grouped[e.route := []];
      }
      grouped := grouped[e.route := grouped[e.route] + [e]];
    }
    assert evs[..|evs|] == evs;
  }

  lemma NoRoutes()
    ensures RouteOrder([]) == [] && forall r :: RouteEvs([], r) == []
  {
  }

  lemma RoutesStep(evs: seq<Evaluation>, i: nat)
    requires i < |evs|
    ensures RouteOrder(evs[..i + 1])
         == RouteOrder(evs[..i]) + if evs[i].route in RouteOrder(evs[..i]) then [] else [evs[i].route]
    ensures forall r :: RouteEvs(evs[..i + 1], r) == RouteEvs(evs[..i], r) + if evs[i].route == r then [evs[i]] else []
  {
    assert evs[..i + 1][..i] == evs[..i];
  }

  /** Drops the entries of routes outside `keep`, one pop at a time. */
  method PopRoutes<V>(m: map<Route, V>, keep: set<Route>) returns (kept: map<Route, V>)
    ensures kept == KeepRoutes(m, keep)
  {
    kept := m;
    var stale := m.Keys - keep;
    while stale != {}
      invariant stale <= m.Keys - keep
      invariant kept == m - ((m.Keys - keep) - stale)
    {
      var route :| route in stale;
      kept := kept - {route};
      stale := stale - {route};
    }
  }

  /** _targets_for_evaluations: per venue, the non-empty tokens named by the evaluations. */
  method TargetsForEvaluations(evs: seq<Evaluation>) returns (targets: map<string, set<string>>)
    ensures forall venue, token :: venue in targets && token in targets[venue]
              <==> token != "" && exists e <- evs :: (venue, token) in e.targets
    ensures forall venue <- targets :: targets[venue] != {}
  {
    targets := map[];
    for i := 0 to |evs|
      invariant forall venue, token :: venue in targets && token in targets[venue]
                  <==> token != "" && exists e <- evs[..i] :: (venue, token) in e.targets
      invariant forall venue <- targets :: targets[venue] != {}
    {
      ghost var before := targets;
      var named := evs[i].targets;
      for j := 0 to |named|
        invariant forall venue, token :: venue in targets && token in targets[venue]
                    <==> (venue in before && token in before[venue]) || (token != "" && (venue, token) in named[..j])
        invariant forall venue <- targets :: targets[venue] != {}
      {
        var (venue, token) := named[j];
        assert named[..j + 1] == named[..j] + [named[j]];
        if token != "" {
          targets := targets[venue := (if venue in targets then targets[venue] else {}) + {token}];
        }
      }
      assert named[..|named|] == named;
      assert evs[..i + 1] == evs[..i] + [evs[i]];
    }
    assert evs[..|evs|] == evs;
  }

  // ---------- The allocation loops ----------

  ghost predicate SlotsMatch(slots: map<Route, nat>, routes: seq<Route>, alloc: seq<nat>)
  {
    && |alloc| == |routes|
    && slots.Keys == (set r | r in routes)
    && forall i :: 0 <= i < |routes| ==> routes[i] in slots && slots[routes[i]] == alloc[i]
  }

  lemma SlotsMatchUpdate(slots: map<Route, nat>, routes: seq<Route>, alloc: seq<nat>, i: nat, n: nat)
    requires Distinct(routes) && SlotsMatch(slots, routes, alloc) && i < |routes|
    ensures routes[i] in slots && slots[routes[i]] == alloc[i]
    ensures SlotsMatch(slots[routes[i] := n], routes, alloc[i := n])
  {
    assert routes[i] in slots;
  }

  ghost predicate WithinLimits(alloc: seq<nat>, limits: seq<nat>) {
    |alloc| == |limits| && forall j :: 0 <= j < |alloc| ==> alloc[j] <= limits[j]
  }

  lemma VisitStep(limits: seq<nat>, weights: seq<nat>, count: nat, slots: seq<nat>, i: nat)
    requires |weights| == |slots| && i < |slots| && Sum(slots) < count && WithinLimits(slots, limits)
    ensures slots[i] <= limits[i]
    ensures var give := Grant(limits[i], weights[i], slots[i], count - Sum(slots));
            var next := slots[i := slots[i] + give];
            && Sum(next) == Sum(slots) + give <= count && WithinLimits(next, limits)
            && Visit(limits, weights, count, slots, i) == Visit(limits, weights, count, next, i + 1)
  {
    SumUpdate(slots, i, slots[i] + Grant(limits[i], weights[i], slots[i], count - Sum(slots)));
  }

  lemma VisitEnds(limits: seq<nat>, weights: seq<nat>, count: nat, slots: seq<nat>, i: nat)
    requires |limits| == |weights| == |slots| && i <= |slots|
    requires i == |slots| || Sum(slots) >= count
    ensures Visit(limits, weights, count, slots, i) == slots
  {
  }

  /** One visit: slot by slot, until the weight, the cap or the budget stops it. */
  method GrantSlots(route: Route, routeLimit: nat, weight: nat, count: nat, slots: map<Route, nat>, total: nat)
    returns (more: map<Route, nat>, sum: nat)
    requires route in slots && slots[route] <= routeLimit && total <= count
    ensures var give := Grant(routeLimit, weight, slots[route], count - total);
            more == slots[route := slots[route] + give] && sum == total + give
  {
    more, sum := slots, total;
    var given := 0;
    while given < weight && more[route] < routeLimit && sum < count
      invariant given <= Grant(routeLimit, weight, slots[route], count - total)
      invariant more == slots[route := slots[route] + given] && sum == total + given
    {
      more := more[route := more[route] + 1];
      sum := sum + 1;
      given := given + 1;
    }
  }

  ghost predicate LimitsMatch(cfg: Config, grouped: map<Route, seq<Evaluation>>, ordered: seq<Route>, limits: seq<nat>,
                              weights: seq<nat>)
  {
    && |limits| == |weights| == |ordered|
    && forall i :: 0 <= i < |ordered| ==>
         && ordered[i] in grouped
         && limits[i] == Min(|grouped[ordered[i]]|, cfg.CapFor(ordered[i]))
         && weights[i] == cfg.WeightFor(ordered[i])
  }

  /** One round: visits the routes in order until the budget is spent. */
  method AllocateRound(cfg: Config, grouped: map<Route, seq<Evaluation>>, ordered: seq<Route>, count: nat,
                       slots: map<Route, nat>, total: nat, ghost limits: seq<nat>, ghost weights: seq<nat>,
                           ghost alloc: seq<nat>)
    returns (more: map<Route, nat>, sum: nat, ghost next: seq<nat>)
    requires Distinct(ordered) && LimitsMatch(cfg, grouped, ordered, limits, weights)
    requires SlotsMatch(slots, ordered, alloc) && total == Sum(alloc) <= count && WithinLimits(alloc, limits)
    ensures next == Visit(limits, weights, count, alloc, 0)
    ensures SlotsMatch(more, ordered, next) && sum == Sum(next)
  {
    hide Visit, Distinct, Sum, WithinLimits;
    more, sum, next := slots, total, alloc;
    var i := 0;
    while i < |ordered| && sum < count
      invariant i <= |ordered| && |next| == |ordered|
      invariant SlotsMatch(more, ordered, next) && sum == Sum(next) <= count && WithinLimits(next, limits)
      invariant Visit(limits, weights, count, next, i) == Visit(limits, weights, count, alloc, 0)
    {
      hide SlotsMatch;
      var route := ordered[i];
      var routeLimit := Min(|grouped[route]|, cfg.CapFor(route));
      assert limits[i] == routeLimit && weights[i] == cfg.WeightFor(route);
      ghost var give := Grant(limits[i], weights[i], next[i], count - sum);
      VisitStep(limits, weights, count, next, i);
      SlotsMatchUpdate(more, ordered, next, i, next[i] + give);
      more, sum := GrantSlots(route, routeLimit, cfg.WeightFor(route), count, more, sum);
      next := next[i := next[i] + give];
      i := i + 1;
    }
    VisitEnds(limits, weights, count, next, i);
  }

  lemma RoundsStep(limits: seq<nat>, weights: seq<nat>, count: nat, slots: seq<nat>)
    requires |weights| == |slots| && Sum(slots) < count && WithinLimits(slots, limits)
    ensures var next := Visit(limits, weights, count, slots, 0);
            && Sum(slots) <= Sum(next) <= count && WithinLimits(next, limits)
            && Rounds(limits, weights, count, slots) == Rounds(limits, weights, count, next)
            && (Sum(next) == Sum(slots) ==> Rounds(limits, weights, count, slots) == next)
  {
    var next := Visit(limits, weights, count, slots, 0);
    VisitBounds(limits, weights, count, slots, 0);
    SumMonotone(slots, next);
  }

  /** Rounds until the budget is spent or a round makes no progress. */
  method AllocateSlots(cfg: Config, grouped: map<Route, seq<Evaluation>>, ordered: seq<Route>, count: nat,
                       ghost limits: seq<nat>, ghost weights: seq<nat>)
    returns (slots: map<Route, nat>, total: nat)
    requires Distinct(ordered) && LimitsMatch(cfg, grouped, ordered, limits, weights)
    ensures var alloc := Allocate(limits, weights, count);
            SlotsMatch(slots, ordered, alloc) && total == Sum(alloc)
  {
    ghost var alloc := Zeros(|ordered|);
    slots := map r | r in ordered :: 0;
    total := 0;
    while total < count
      invariant SlotsMatch(slots, ordered, alloc) && total == Sum(alloc) <= count && WithinLimits(alloc, limits)
      invariant Rounds(limits, weights, count, alloc) == Allocate(limits, weights, count)
      decreases count - total
    {
      hide Visit, Sum, LimitsMatch, SlotsMatch, Distinct;
      var reached := total;
      RoundsStep(limits, weights, count, alloc);
      slots, total, alloc := AllocateRound(cfg, grouped, ordered, count, slots, total, limits, weights, alloc);
      if total == reached {
        return;
      }
    }
  }

  // ---------- The collecting loop ----------

  ghost predicate Consumed(consumed: map<Route, nat>, ordered: seq<Route>, lists: seq<seq<Evaluation>>, k: nat, i: nat)
    requires |lists| == |ordered|
  {
    forall j :: 0 <= j < |ordered| ==>
      ordered[j] in consumed && consumed[ordered[j]] == Min(if j < i then k + 1 else k, |lists[j]|)
  }

  lemma ConsumedUpdate(consumed: map<Route, nat>, ordered: seq<Route>, lists: seq<seq<Evaluation>>, k: nat, i: nat)
    requires |lists| == |ordered| && i < |ordered| && Distinct(ordered)
    requires Consumed(consumed, ordered, lists, k, i) && consumed[ordered[i]] < |lists[i]|
    ensures consumed[ordered[i]] == k < |lists[i]|
    ensures Consumed(consumed[ordered[i] := consumed[ordered[i]] + 1], ordered, lists, k, i + 1)
  {
  }

  lemma ConsumedSkip(consumed: map<Route, nat>, ordered: seq<Route>, lists: seq<seq<Evaluation>>, k: nat, i: nat)
    requires |lists| == |ordered| && i < |ordered|
    requires Consumed(consumed, ordered, lists, k, i) && consumed[ordered[i]] >= |lists[i]|
    ensures |lists[i]| <= k
    ensures Consumed(consumed, ordered, lists, k, i + 1)
  {
  }

  /** One round of the collecting loop, left early once enough is collected. */
  method CollectRound(ordered: seq<Route>, activeByRoute: map<Route, seq<Evaluation>>, total: nat,
                      collected: seq<Evaluation>, taken: map<Route, nat>, ghost k: nat)
    returns (active: seq<Evaluation>, consumed: map<Route, nat>, ghost i: nat)
    requires Distinct(ordered) && forall r <- ordered :: r in activeByRoute
    requires |collected| < total == |Interleave(ListsOf(activeByRoute, ordered))|
    requires collected == Interleaved(ListsOf(activeByRoute, ordered), k)
    requires Consumed(taken, ordered, ListsOf(activeByRoute, ordered), k, 0)
    ensures i <= |ordered| && active == collected + RoundOf(ListsOf(activeByRoute, ordered), k, i)
    ensures Consumed(consumed, ordered, ListsOf(activeByRoute, ordered), k, i)
    ensures |active| < total ==> i == |ordered|
    ensures |active| <= total
  {
    hide Interleave, Interleaved, Distinct;
    ghost var lists := ListsOf(activeByRoute, ordered);
    active, consumed := collected, taken;
    var n := 0;
    while n < |ordered| && |active| < total
      invariant n <= |ordered| && |active| <= total
      invariant active == collected + RoundOf(lists, k, n)
      invariant Consumed(consumed, ordered, lists, k, n)
    {
      var route := ordered[n];
      assert route in ordered;
      var routeActive := activeByRoute[route];
      PartialIsPrefix(lists, k, n + 1);
      if consumed[route] < |routeActive| {
        active := active + [routeActive[consumed[route]]];
        ConsumedUpdate(consumed, ordered, lists, k, n);
        consumed := consumed[route := consumed[route] + 1];
      } else {
        ConsumedSkip(consumed, ordered, lists, k, n);
      }
      n := n + 1;
    }
    i := n;
  }

  /** Takes one active evaluation per route and round until `total` are collected. */
  method CollectActive(ordered: seq<Route>, activeByRoute: map<Route, seq<Evaluation>>, total: nat)
    returns (active: seq<Evaluation>)
    requires Distinct(ordered) && forall r <- ordered :: r in activeByRoute
    requires Sum(Lengths(ListsOf(activeByRoute, ordered))) == total
    ensures active == Interleave(ListsOf(activeByRoute, ordered))
  {
    ghost var lists := ListsOf(activeByRoute, ordered);
    InterleaveLength(lists);
    active := [];
    var consumed: map<Route, nat> := map r | r in ordered :: 0;
    ghost var k := 0;
    while |active| < total
      invariant |active| <= total && active <= Interleave(lists)
      invariant |active| < total ==> active == Interleaved(lists, k) && Consumed(consumed, ordered, lists, k, 0)
      decreases total - |active|
    {
      ghost var i;
      active, consumed, i := CollectRound(ordered, activeByRoute, total, active, consumed, k);
      PartialIsPrefix(lists, k, i);
      if RoundOf(lists, k, |lists|) == [] {
        StalledMeansDone(lists, k);
      }
      k := k + 1;
    }
  }

  /** Drops the observations that are unplanned, expired or on a route without priority. */
  method ForgetObservations(cfg: Config, recent: RecentTable, available: set<(Route, Key)>, now: real,
                            ghost evs: seq<Evaluation>)
    returns (kept: RecentTable)
    requires available == PlanKeys(evs)
    ensures kept == map k | k in recent && KeepObservation(cfg, evs, now, k, recent[k]) :: recent[k]
  {
    kept := recent;
    var pending := recent.Keys;
    while pending != {}
      invariant pending <= recent.Keys
      invariant kept == map k | k in recent
              && (k in pending || KeepObservation(cfg, evs, now, k, recent[k])) :: recent[k]
    {
      var key :| key in pending;
      var ttl := cfg.PriorityFor(key.0);
      if ttl <= 0.0 || key !in available || now - recent[key].observedAt > ttl {
        kept := kept - {key};
      }
      pending := pending - {key};
    }
  }

  // ---------- The scheduler object ----------

  class EvaluationScheduler {
    const cfg: Config
    var cursors: map<Route, nat>
    var activeCursors: map<Route, nat>
    var routeCursor: nat
    var heldKeys: map<Route, seq<Key>>
    var held: map<Route, seq<Evaluation>>
    var deadlines: map<Route, real>
    var recent: RecentTable
    var planned: seq<Evaluation>
    var plannedRoutes: seq<Route>
    var plannedByRoute: map<Route, seq<Evaluation>>
    var plannedKeys: set<(Route, Key)>

    ghost function State(): Sched
      reads this
    {
      Sched(cursors, activeCursors, routeCursor, heldKeys, held, deadlines, recent, planned)
    }

    /** The plan's index agrees with the plan, its targets are distinct and the cache is coherent. */
    ghost predicate Valid()
      reads this
    {
      && cfg.Valid()
      && plannedRoutes == RouteOrder(planned)
      && plannedByRoute == PlanIndex(planned)
      && plannedKeys == PlanKeys(planned)
      && Inv(State())
    }

    constructor (config: Config)
      requires config.Valid()
      ensures Valid() && State() == INITIAL && cfg == config
    {
      cfg := config;
      cursors, activeCursors, routeCursor := map[], map[], 0;
      heldKeys, held, deadlines, recent := map[], map[], map[], map[];
      planned, plannedRoutes, plannedByRoute, plannedKeys := [], [], map[], {};
    }

    method SetPlannedEvaluations(evs: seq<Evaluation>, same: bool)
      requires Valid() && DistinctPlan(evs) && (same ==> evs == planned)
      modifies this
      ensures Valid() && State() == SetPlanned(old(State()), evs, same)
    {
      hide PlanIndex, PlanKeys, Inv, RouteOrder;
      PlanKeepsInv(State(), evs, same);
      plannedRoutes, plannedByRoute := GroupByRoute(evs);
      plannedKeys := PlanKeys(evs);
      planned := evs;
      if !same {
        held := map[];
      }
    }

    method MarkRecentExecutable(route: Route, key: Key, netSpread: real, at: real)
      requires Valid()
      modifies this`recent
      ensures Valid() && State() == MarkRecent(old(State()), route, key, netSpread, at)
      ensures recent == old(recent)[(route, key) := Observation(observedAt := at, netSpread := netSpread)]
    {
      recent := recent[(route, key) := Observation(at, netSpread)];
      StepKeepsView(old(State()), State());
    }

    /** _build_prioritized_route_window */
    method BuildPrioritizedRouteWindow(route: Route, evs: seq<Evaluation>, count: nat,
                                       now: real) returns (window: seq<Evaluation>)
      modifies this`cursors
      ensures var m := Mix(cfg, recent, route, evs, count, now, Lookup(old(cursors), route));
              window == m.window && cursors == Store(old(cursors), route, m.cursor)
    {
      hide Explore, RecentCandidates, ExplorationCount, KeySet, Store, Lookup;
      var ranked := RecentCandidates(cfg, recent, route, evs, now);
      var reserve := ranked != [] && |ranked| < |evs|;
      var exploration := if reserve then ExplorationCount(cfg, route, count) else 0;
      var priority := ranked[..Min(|ranked|, Max(0, count - exploration))];
      var explored, moved := SelectRotatingExploration(route, evs, KeySet(priority), count - |priority|, cursors);
      cursors := moved;
      window := priority + explored;
    }

    /** _select_prioritized_active_evaluations: the same policy over the held window and the active cursor. */
    method SelectPrioritizedActive(route: Route, window: seq<Evaluation>, count: nat,
                                   now: real) returns (active: seq<Evaluation>)
      modifies this`activeCursors
      ensures var m := Mix(cfg, recent, route, window, count, now, Lookup(old(activeCursors), route));
              active == m.window && activeCursors == Store(old(activeCursors), route, m.cursor)
    {
      hide Explore, RecentCandidates, ExplorationCount, KeySet, Store, Lookup;
      var ranked := RecentCandidates(cfg, recent, route, window, now);
      var reserve := ranked != [] && |ranked| < |window|;
      var exploration := if reserve then ExplorationCount(cfg, route, count) else 0;
      var priority := ranked[..Min(|ranked|, Max(0, count - exploration))];
      var explored,
          moved := SelectRotatingExploration(route, window, KeySet(priority), count - |priority|, activeCursors);
      activeCursors := moved;
      active := priority + explored;
    }

    /** The tail of _restore_held_route_window: fits the warm window to the budget and records it. */
    method RefitWindow(route: Route, evs: seq<Evaluation>, warm: seq<Evaluation>, expected: nat, reuse: bool)
      returns (window: Option<seq<Evaluation>>)
      modifies this`cursors, this`heldKeys, this`held
      ensures var r := Refit(evs, warm, expected, reuse, View(old(State()), route));
              && window == r.window
              && cursors == Store(old(cursors), route, r.state.cursor)
              && heldKeys == Store(old(heldKeys), route, r.state.keys)
              && held == Store(old(held), route, r.state.held)
    {
      hide Explore, KeySet, KeysOf;
      var bound := warm;
      if |bound| != expected {
        var kept := bound[..Min(expected, |bound|)];
        var explored, moved := SelectRotatingExploration(route, evs, KeySet(kept), expected - |kept|, cursors);
        cursors := moved;
        bound := kept + explored;
        if |bound| != expected {
          return None;
        }
        heldKeys := heldKeys[route := KeysOf(bound)];
      }
      if reuse {
        held := held[route := bound];
      }
      window := Some(bound);
    }

    /** _restore_held_route_window */
    method RestoreHeldRouteWindow(route: Route, evs: seq<Evaluation>, expected: nat, now: real, reuse: bool)
      returns (window: Option<seq<Evaluation>>)
      modifies this`cursors, this`heldKeys, this`held
      ensures var r := Restore(evs, expected, now, reuse, View(old(State()), route));
              && window == r.window
              && cursors == Store(old(cursors), route, r.state.cursor)
              && heldKeys == Store(old(heldKeys), route, r.state.keys)
              && held == Store(old(held), route, r.state.held)
    {
      hide Refit, Rebind;
      var keys := if route in heldKeys then heldKeys[route] else [];
      if keys == [] || now >= (if route in deadlines then deadlines[route] else 0.0) {
        held := held - {route};
        return None;
      }
      if reuse && route in held && |held[route]| == expected {
        return Some(held[route]);
      }
      if reuse && route in held {
        window := RefitWindow(route, evs, held[route], expected, reuse);
        return;
      }
      var rebound := RebindKeys(evs, keys);
      if rebound.None? {
        return None;
      }
      window := RefitWindow(route, evs, rebound.value, expected, reuse);
    }

    /** Builds a fresh window and records its keys, its deadline and a reset active cursor. */
    method RebuildWindow(route: Route, evs: seq<Evaluation>, expected: nat, now: real,
                         reuse: bool) returns (window: seq<Evaluation>)
      modifies this`cursors, this`activeCursors, this`heldKeys, this`held, this`deadlines
      ensures var r := Rebuild(cfg, recent, route, evs, expected, now, reuse, View(old(State()), route));
              Some(window) == r.window && State() == Put(old(State()), route, r.state)
    {
      hide Mix, KeysOf;
      window := BuildPrioritizedRouteWindow(route, evs, expected, now);
      heldKeys := heldKeys[route := KeysOf(window)];
      if reuse {
        held := held[route := window];
      } else {
        held := held - {route};
      }
      deadlines := deadlines[route := now + cfg.HoldFor(route)];
      activeCursors := activeCursors[route := 0];
    }

    /** The body of the route loop: drop, restore or rebuild the window, then choose from it. */
    method StepRoute(route: Route, evs: seq<Evaluation>, slots: nat, now: real, reuse: bool)
      returns (target: seq<Evaluation>, active: seq<Evaluation>)
      modifies this`cursors, this`activeCursors, this`heldKeys, this`held, this`deadlines
      ensures var step := RouteStep(cfg, old(recent), route, evs, slots, now, reuse, View(old(State()), route));
              && target == step.target && active == step.active
              && State() == Put(old(State()), route, step.state)
    {
      hide Mix, Restore, Rebuild, KeysOf;
      ghost var s0 := State();
      ghost var rs := View(s0, route);
      PutSame(s0, route);
      if slots == 0 {
        heldKeys, held := heldKeys - {route}, held - {route};
        deadlines, activeCursors := deadlines - {route}, activeCursors - {route};
        return [], [];
      }
      var expected := Min(|evs|, slots * cfg.PrefetchFor(route));
      var restored := RestoreHeldRouteWindow(route, evs, expected, now, reuse);
      ghost var r1 := Restore(evs, expected, now, reuse, rs);
      RestoreFrame(evs, expected, now, reuse, rs);
      assert State() == Put(s0, route, r1.state);
      PutView(s0, route, r1.state);
      ghost var w := r1;
      if restored.Some? {
        target := restored.value;
      } else {
        target := RebuildWindow(route, evs, expected, now, reuse);
        w := Rebuild(cfg, recent, route, evs, expected, now, reuse, r1.state);
        PutTwice(s0, route, r1.state, w.state);
      }
      assert State() == Put(s0, route, w.state);
      PutView(s0, route, w.state);
      active := SelectPrioritizedActive(route, target, slots, now);
      PutActive(s0, route, w.state, Mix(cfg, recent, route, target, slots, now, w.state.activeCursor).cursor);
    }

    /** Forgets departed routes, entry by entry, and stale observations. */
    method PruneState(evs: seq<Evaluation>, routes: seq<Route>, available: set<(Route, Key)>, now: real)
      requires available == PlanKeys(evs)
      modifies this`cursors, this`activeCursors, this`heldKeys, this`held, this`deadlines, this`recent
      ensures State() == Prune(cfg, old(State()), evs, (set r | r in routes), now)
    {
      var activeRoutes := set r | r in routes;
      cursors := PopRoutes(cursors, activeRoutes);
      activeCursors := PopRoutes(activeCursors, activeRoutes);
      heldKeys := PopRoutes(heldKeys, activeRoutes);
      held := PopRoutes(held, activeRoutes);
      deadlines := PopRoutes(deadlines, activeRoutes);
      recent := ForgetObservations(cfg, recent, available, now, evs);
    }

    /** The route loop. */
    method StepAllRoutes(evs: seq<Evaluation>, routes: seq<Route>, grouped: map<Route, seq<Evaluation>>,
                         slots: map<Route, nat>,
                         now: real, reuse: bool)
      returns (targets: map<Route, seq<Evaluation>>, actives: map<Route, seq<Evaluation>>)
      requires forall r <- routes :: r in grouped && grouped[r] == RouteEvs(evs, r) && r in slots
      modifies this`cursors, this`activeCursors, this`heldKeys, this`held, this`deadlines
      ensures var out := StepRoutes(cfg, old(State()), evs, slots, routes, now, reuse);
              State() == out.state && targets == out.targets && actives == out.actives
    {
      hide RouteStep;
      targets, actives := map[], map[];
      ghost var s0 := State();
      for i := 0 to |routes|
        invariant recent == old(recent)
        invariant var out := StepRoutes(cfg, s0, evs, slots, routes[..i], now, reuse);
                  State() == out.state && targets == out.targets && actives == out.actives
      {
        var route := routes[i];
        assert routes[..i + 1] == routes[..i] + [route];
        StepRoutesLast(cfg, s0, evs, slots, routes[..i], route, now, reuse);
        var target, active := StepRoute(route, grouped[route], slots[route], now, reuse);
        targets := targets[route := target];
        actives := actives[route := active];
      }
      assert routes[..|routes|] == routes;
    }

    /** A cycle over a non-empty plan whose index is at hand. */
    method RunCycle(evs: seq<Evaluation>, routes: seq<Route>, grouped: map<Route, seq<Evaluation>>,
                    available: set<(Route, Key)>,
                    reuse: bool, limit: int, now: real)
      returns (active: seq<Evaluation>, target: seq<Evaluation>)
      requires cfg.Valid() && evs != [] && DistinctPlan(evs)
      requires routes == RouteOrder(evs) && grouped == PlanIndex(evs) && available == PlanKeys(evs)
      requires reuse ==> evs == planned && CacheCoherent(State())
      modifies this`cursors, this`activeCursors, this`routeCursor, this`heldKeys, this`held, this`deadlines, this`recent
      ensures var out := Select(cfg, old(State()), evs, reuse, limit, now);
              State() == out.state && active == out.active && target == out.target
    {
      hide RouteOrder, PlanKeys, DistinctPlan, CacheCoherent, StepRoutes, Allocate, Limits, Weights, Prune,
           Interleave, Flatten, Select, LimitsMatch, SlotMap;
      ghost var s0 := State();
      var start := routeCursor % |routes|;
      var ordered := Rotate(routes, start);
      OrderedMembers(s0, evs);
      GroupedLimits(cfg, evs, ordered);
      var slots, total := AllocateSlots(cfg, grouped, ordered, Min(Max(1, limit), |evs|),
                                        Limits(cfg, evs, ordered), Weights(cfg, ordered));
      SlotsAreSlotMap(slots, ordered, CycleSlots(cfg, s0, evs, limit));
      routeCursor := (start + 1) % |routes|;
      PruneState(evs, routes, available, now);
      assert State() == CycleStart(cfg, s0, evs, now);
      var targets, actives := StepAllRoutes(evs, routes, grouped, slots, now, reuse);
      CycleListsReady(cfg, s0, evs, reuse, limit, now);
      active := CollectActive(ordered, actives, total);
      target := ConcatTargets(ordered, targets);
      SelectParts(cfg, s0, evs, reuse, limit, now);
    }

    /** _select_evaluation_window; `reuse` says the argument is the installed plan itself. */
    method SelectEvaluationWindow(evs: seq<Evaluation>, reuse: bool, limit: int, now: real)
      returns (active: seq<Evaluation>, target: seq<Evaluation>)
      requires Valid() && DistinctPlan(evs) && (reuse ==> evs == planned)
      modifies this`cursors, this`activeCursors, this`routeCursor, this`heldKeys, this`held, this`deadlines, this`recent
      ensures var out := Select(cfg, old(State()), evs, reuse, limit, now);
              State() == out.state && active == out.active && target == out.target
      ensures reuse ==> Valid()
    {
      hide CacheCoherent, PlanIndex, RouteOrder, PlanKeys, Select;
      ghost var s0 := State();
      if reuse {
        SelectKeepsInv(cfg, s0, limit, now);
      }
      SelectNothing(cfg, s0, reuse, limit, now);
      if evs == [] {
        cursors, activeCursors, routeCursor := map[], map[], 0;
        heldKeys, held, deadlines, recent := map[], map[], map[], map[];
        return [], [];
      }
      if reuse {
        active, target := RunCycle(evs, plannedRoutes, plannedByRoute, plannedKeys, reuse, limit, now);
      } else {
        var routes, grouped := GroupByRoute(evs);
        active, target := RunCycle(evs, routes, grouped, PlanKeys(evs), reuse, limit, now);
      }
    }
  }

  /** The target windows one after the other, in visiting order. */
  method ConcatTargets(ordered: seq<Route>, targets: map<Route, seq<Evaluation>>) returns (target: seq<Evaluation>)
    ensures target == Flatten(ListsOf(targets, ordered), |ordered|)
  {
    target := [];
    for i := 0 to |ordered|
      invariant target == Flatten(ListsOf(targets, ordered), i)
    {
      target := target + (if ordered[i] in targets then targets[ordered[i]] else []);
    }
  }

  lemma SelectNothing(cfg: Config, s: Sched, reuse: bool, limit: int, now: real)
    ensures Select(cfg, s, [], reuse, limit, now) == Selection(INITIAL.(planned := s.planned), [], [])
  {
  }

  lemma SelectParts(cfg: Config, s: Sched, evs: seq<Evaluation>, reuse: bool, limit: int, now: real)
    requires evs != []
    ensures var out := Select(cfg, s, evs, reuse, limit, now);
            var steps := CycleSteps(cfg, s, evs, reuse, limit, now);
            && out.state == steps.state
            && out.active == Interleave(ListsOf(steps.actives, Ordered(s, evs)))
            && out.target == Flatten(ListsOf(steps.targets, Ordered(s, evs)), |Ordered(s, evs)|)
  {
  }

  lemma GroupedLimits(cfg: Config, evs: seq<Evaluation>, ordered: seq<Route>)
    requires forall r <- ordered :: r in RouteOrder(evs)
    ensures LimitsMatch(cfg, PlanIndex(evs), ordered, Limits(cfg, evs, ordered), Weights(cfg, ordered))
  {
    forall i | 0 <= i < |ordered|
      ensures ordered[i] in PlanIndex(evs) && PlanIndex(evs)[ordered[i]] == RouteEvs(evs, ordered[i])
    {
      assert ordered[i] in ordered;
    }
  }

  lemma SlotsAreSlotMap(slots: map<Route, nat>, ordered: seq<Route>, alloc: seq<nat>)
    requires Distinct(ordered) && SlotsMatch(slots, ordered, alloc)
    ensures slots == SlotMap(ordered, alloc)
  {
    forall r | r in ordered
      ensures slots[r] == SlotMap(ordered, alloc)[r]
    {
      assert slots[ordered[IndexOf(ordered, r)]] == alloc[IndexOf(ordered, r)];
    }
  }

  /** The per-route lists hold exactly as many evaluations as were allocated. */
  lemma CycleListsReady(cfg: Config, s: Sched, evs: seq<Evaluation>, reuse: bool, limit: int, now: real)
    requires cfg.Valid() && evs != [] && DistinctPlan(evs)
    requires reuse ==> evs == s.planned && CacheCoherent(s)
    ensures Sum(Lengths(ActiveLists(cfg, s, evs, reuse, limit, now))) == Sum(CycleSlots(cfg, s, evs, limit))
    ensures forall r <- Ordered(s, evs) :: r in CycleSteps(cfg, s, evs, reuse, limit, now).actives
    ensures CycleSteps(cfg, s, evs, reuse, limit, now).state.planned == s.planned
  {
    var ordered, lists := Ordered(s, evs), ActiveLists(cfg, s, evs, reuse, limit, now);
    forall i | 0 <= i < |lists|
      ensures |lists[i]| == CycleSlots(cfg, s, evs, limit)[i]
    {
      ActiveListFacts(cfg, s, evs, reuse, limit, now, i);
    }
    assert Lengths(lists) == CycleSlots(cfg, s, evs, limit);
    OrderedMembers(s, evs);
    forall r | r in ordered
      ensures r in CycleSteps(cfg, s, evs, reuse, limit, now).actives
    {
      CycleProject(cfg, s, evs, reuse, limit, now, r);
    }
    CycleProject(cfg, s, evs, reuse, limit, now, "");
  }

  lemma RestoreFrame(evs: seq<Evaluation>, expected: nat, now: real, reuse: bool, rs: RouteState)
    ensures var r := Restore(evs, expected, now, reuse, rs).state;
            r.deadline == rs.deadline && r.activeCursor == rs.activeCursor
  {
  }

  lemma PlanKeepsInv(s: Sched, evs: seq<Evaluation>, same: bool)
    requires Inv(s) && DistinctPlan(evs) && (same ==> evs == s.planned)
    ensures Inv(SetPlanned(s, evs, same))
  {
  }

  lemma PutSame(s: Sched, route: Route)
    ensures Put(s, route, View(s, route)) == s
  {
  }

  lemma StoreTwice<V>(m: map<Route, V>, route: Route, a: Option<V>, b: Option<V>)
    ensures Store(Store(m, route, a), route, b) == Store(m, route, b)
  {
  }

  lemma PutTwice(s: Sched, route: Route, a: RouteState, b: RouteState)
    ensures Put(Put(s, route, a), route, b) == Put(s, route, b)
  {
    hide Store;
    StoreTwice(s.cursors, route, a.cursor, b.cursor);
    StoreTwice(s.activeCursors, route, a.activeCursor, b.activeCursor);
    StoreTwice(s.heldKeys, route, a.keys, b.keys);
    StoreTwice(s.held, route, a.held, b.held);
    StoreTwice(s.deadlines, route, a.deadline, b.deadline);
  }

  lemma PutActive(s: Sched, route: Route, rs: RouteState, cursor: Option<nat>)
    ensures var p := Put(s, route, rs);
            p.(activeCursors := Store(p.activeCursors, route, cursor)) == Put(s, route, rs.(activeCursor := cursor))
  {
  }

  /** Only the recency table differs, so every route's view and the plan are the same. */
  lemma StepKeepsView(a: Sched, b: Sched)
    requires b == a.(recent := b.recent) && Inv(a)
    ensures Inv(b)
  {
    forall r
      ensures Coherent(View(b, r), RouteEvs(b.planned, r))
    {
      assert View(b, r) == View(a, r);
    }
  }
}
