/**
 One route's window: the recency ranking, the priority/exploration mix, rebinding held
 keys against the current plan, and the per-route step of a selection cycle.
 */
module SchedulerWindow {
  import opened Collections
  import opened SchedulerTypes

  // ---------- Recently executable candidates ----------

  predicate Fresh(cfg: Config, recent: RecentTable, route: Route, e: Evaluation, now: real) {
    (route, e.targets) in recent && now - recent[(route, e.targets)].observedAt <= cfg.PriorityFor(route)
  }

  function FreshOnly(cfg: Config, recent: RecentTable, route: Route, evs: seq<Evaluation>,
                     now: real): (r: seq<Evaluation>)
    ensures forall e <- r :: e in evs && Fresh(cfg, recent, route, e, now)
    ensures forall e <- evs :: Fresh(cfg, recent, route, e, now) ==> e in r
    ensures |r| <= |evs|
  {
    if evs == [] then []
    else
      var rest := FreshOnly(cfg, recent, route, evs[1..], now);
      if Fresh(cfg, recent, route, evs[0], now) then [evs[0]] + rest else rest
  }

  /** Descending by net spread, then by observation time. */
  predicate RankedAbove(a: Observation, b: Observation) {
    a.netSpread > b.netSpread || (a.netSpread == b.netSpread && a.observedAt > b.observedAt)
  }

  predicate Observed(recent: RecentTable, route: Route, evs: seq<Evaluation>) {
    forall e <- evs :: (route, e.targets) in recent
  }

  /** Inserts before the first member that does not outrank `e`, so equal ranks keep their order. */
  function InsertRanked(recent: RecentTable, route: Route, e: Evaluation, ranked: seq<Evaluation>): (r: seq<Evaluation>)
    requires Observed(recent, route, [e]) && Observed(recent, route, ranked)
    ensures multiset(r) == multiset{e} + multiset(ranked)
    ensures Observed(recent, route, r)
  {
    assert e in [e];
    if ranked == [] || !RankedAbove(recent[(route, ranked[0].targets)], recent[(route, e.targets)]) then
      assert multiset([e] + ranked) == multiset{e} + multiset(ranked);
      [e] + ranked
    else
      assert ranked == [ranked[0]] + ranked[1..];
      var rest := InsertRanked(recent, route, e, ranked[1..]);
      assert forall x <- [ranked[0]] + rest :: x == ranked[0] || x in multiset(rest);
      [ranked[0]] + rest
  }

  function RankRecent(recent: RecentTable, route: Route, evs: seq<Evaluation>): (r: seq<Evaluation>)
    requires Observed(recent, route, evs)
    ensures multiset(r) == multiset(evs)
    ensures Observed(recent, route, r)
  {
    if evs == [] then []
    else
      assert evs == [evs[0]] + evs[1..];
      InsertRanked(recent, route, evs[0], RankRecent(recent, route, evs[1..]))
  }

  /** _recent_executable_candidates: the fresh members, best spread first. */
  function RecentCandidates(cfg: Config, recent: RecentTable, route: Route, evs: seq<Evaluation>,
                            now: real): (r: seq<Evaluation>)
    ensures Observed(recent, route, r)
  {
    if cfg.PriorityFor(route) <= 0.0 then []
    else RankRecent(recent, route, FreshOnly(cfg, recent, route, evs, now))
  }

  ghost predicate Ranked(recent: RecentTable, route: Route, evs: seq<Evaluation>)
    requires Observed(recent, route, evs)
  {
    forall i, j :: 0 <= i < j < |evs| ==>
      !RankedAbove(recent[(route, evs[j].targets)], recent[(route, evs[i].targets)])
  }

  lemma {:induction false} InsertKeepsRank(recent: RecentTable, route: Route, e: Evaluation, ranked: seq<Evaluation>)
    requires Observed(recent, route, [e]) && Observed(recent, route, ranked)
    requires Ranked(recent, route, ranked)
    ensures Ranked(recent, route, InsertRanked(recent, route, e, ranked))
  {
    assert e in [e];
    if ranked != [] && RankedAbove(recent[(route, ranked[0].targets)], recent[(route, e.targets)]) {
      var rest := InsertRanked(recent, route, e, ranked[1..]);
      InsertKeepsRank(recent, route, e, ranked[1..]);
      forall j | 0 <= j < |rest|
        ensures !RankedAbove(recent[(route, rest[j].targets)], recent[(route, ranked[0].targets)])
      {
        assert rest[j] in multiset(rest);
        assert rest[j] == e || rest[j] in ranked[1..];
      }
    }
  }

  lemma {:induction false} RankRecentSorts(recent: RecentTable, route: Route, evs: seq<Evaluation>)
    requires Observed(recent, route, evs)
    ensures Ranked(recent, route, RankRecent(recent, route, evs))
  {
    if evs != [] {
      RankRecentSorts(recent, route, evs[1..]);
      InsertKeepsRank(recent, route, evs[0], RankRecent(recent, route, evs[1..]));
    }
  }

  /** The ranking lists exactly the fresh members, once each, best first. */
  lemma RecentCandidatesAreRanked(cfg: Config, recent: RecentTable, route: Route, evs: seq<Evaluation>, now: real)
    ensures var r := RecentCandidates(cfg, recent, route, evs, now);
            && Ranked(recent, route, r)
            && |r| <= |evs|
            && (forall e :: e in r <==> e in evs && Fresh(cfg, recent, route, e, now) && cfg.PriorityFor(route) > 0.0)
            && (DistinctKeys(evs) ==> DistinctKeys(r))
  {
    if cfg.PriorityFor(route) > 0.0 {
      var live := FreshOnly(cfg, recent, route, evs, now);
      var r := RankRecent(recent, route, live);
      RankRecentSorts(recent, route, live);
      SameElements(r, live);
      if DistinctKeys(evs) {
        FreshKeysDistinct(cfg, recent, route, evs, now);
        PermutedKeysStayDistinct(live, r);
      }
    }
  }

  lemma SameElements(a: seq<Evaluation>, b: seq<Evaluation>)
    requires multiset(a) == multiset(b)
    ensures |a| == |b|
    ensures forall e :: e in a <==> e in b
  {
    assert |a| == |multiset(a)| == |multiset(b)| == |b|;
    forall e
      ensures e in a <==> e in b
    {
      assert e in a <==> e in multiset(a);
      assert e in b <==> e in multiset(b);
    }
  }

  lemma {:induction false} FreshKeysDistinct(cfg: Config, recent: RecentTable, route: Route, evs: seq<Evaluation>,
                                             now: real)
    requires DistinctKeys(evs)
    ensures DistinctKeys(FreshOnly(cfg, recent, route, evs, now))
  {
    if evs != [] {
      FreshKeysDistinct(cfg, recent, route, evs[1..], now);
      var rest := FreshOnly(cfg, recent, route, evs[1..], now);
      forall e | e in rest
        ensures e.targets != evs[0].targets
      {
        assert e in evs[1..];
      }
    }
  }

  lemma PermutedKeysStayDistinct(a: seq<Evaluation>, b: seq<Evaluation>)
    requires multiset(a) == multiset(b) && DistinctKeys(a)
    ensures DistinctKeys(b)
  {
    forall x
      ensures multiset(b)[x] <= 1
    {
      assert Distinct(a);
      MultiplicityInDistinct(a, x);
    }
    DistinctByMultiplicity(b);
    SameElements(a, b);
    forall i, j | 0 <= i < j < |b|
      ensures b[i].targets != b[j].targets
    {
      assert b[i] in a && b[j] in a && b[i] != b[j];
    }
  }

  /** The members with one given observation, in list order. */
  function WithObservation(recent: RecentTable, route: Route, evs: seq<Evaluation>, o: Observation): seq<Evaluation>
    requires Observed(recent, route, evs)
  {
    if evs == [] then []
    else
      var rest := WithObservation(recent, route, evs[1..], o);
      if recent[(route, evs[0].targets)] == o then [evs[0]] + rest else rest
  }

  lemma {:induction false} InsertIsStable(recent: RecentTable, route: Route, e: Evaluation, ranked: seq<Evaluation>,
                                          o: Observation)
    requires Observed(recent, route, [e] + ranked) && Observed(recent, route, ranked) && Observed(recent, route, [e])
    requires Ranked(recent, route, ranked)
    ensures WithObservation(recent, route, InsertRanked(recent, route, e, ranked), o)
         == WithObservation(recent, route, [e] + ranked, o)
  {
    assert e in [e];
    assert ([e] + ranked)[1..] == ranked;
    if ranked != [] && RankedAbove(recent[(route, ranked[0].targets)], recent[(route, e.targets)]) {
      assert Observed(recent, route, [e] + ranked[1..]);
      InsertIsStable(recent, route, e, ranked[1..], o);
      var rest := InsertRanked(recent, route, e, ranked[1..]);
      assert ([ranked[0]] + rest)[1..] == rest;
      assert ([e] + ranked[1..])[1..] == ranked[1..];
    }
  }

  /** Ties keep plan order: with RankRecentSorts this fixes the ranking uniquely. */
  lemma {:induction false} RankRecentIsStable(recent: RecentTable, route: Route, evs: seq<Evaluation>, o: Observation)
    requires Observed(recent, route, evs)
    ensures WithObservation(recent, route, RankRecent(recent, route, evs), o) == WithObservation(recent, route, evs, o)
  {
    if evs != [] {
      var ranked := RankRecent(recent, route, evs[1..]);
      RankRecentIsStable(recent, route, evs[1..], o);
      RankRecentSorts(recent, route, evs[1..]);
      SameElements(ranked, evs[1..]);
      assert evs[0] in evs;
      assert Observed(recent, route, [evs[0]] + ranked);
      InsertIsStable(recent, route, evs[0], ranked, o);
      assert ([evs[0]] + ranked)[1..] == ranked;
    }
  }

  // ---------- The ranking in the observations' own fields ----------

  lemma InsertedLater<T>(list: seq<T>, e: T, k: nat)
    requires list != [] && k < |list|
    ensures [list[0]] + (list[1..][..k] + [e] + list[1..][k..]) == list[..k + 1] + [e] + list[k + 1..]
  {
    assert list[1..][k..] == list[k + 1..];
  }

  /** Insertion puts the new member behind exactly a prefix of members that outrank it. */
  lemma {:induction false} InsertedAt(recent: RecentTable, route: Route, e: Evaluation,
                                      ranked: seq<Evaluation>) returns (k: nat)
    requires Observed(recent, route, [e]) && Observed(recent, route, ranked)
    ensures k <= |ranked| && InsertRanked(recent, route, e, ranked) == ranked[..k] + [e] + ranked[k..]
    ensures e in [e]
    ensures forall m :: 0 <= m < k ==> RankedAbove(recent[(route, ranked[m].targets)], recent[(route, e.targets)])
  {
    hide RankedAbove;
    assert e in [e];
    k := 0;
    if ranked != [] && RankedAbove(recent[(route, ranked[0].targets)], recent[(route, e.targets)]) {
      var tail := ranked[1..];
      var rest := InsertedAt(recent, route, e, tail);
      k := rest + 1;
      InsertedLater(ranked, e, rest);
      forall m | 0 <= m < k
        ensures RankedAbove(recent[(route, ranked[m].targets)], recent[(route, e.targets)])
      {
        assert m == 0 || ranked[m] == tail[m - 1];
      }
    }
  }

  /** `a` comes before `b` somewhere in the list. */
  ghost predicate InOrder(evs: seq<Evaluation>, a: Evaluation, b: Evaluation) {
    exists p, q :: 0 <= p < q < |evs| && evs[p] == a && evs[q] == b
  }

  lemma InOrderLater(evs: seq<Evaluation>, a: Evaluation, b: Evaluation)
    requires evs != [] && (InOrder(evs[1..], a, b) || (a == evs[0] && b in evs[1..]))
    ensures InOrder(evs, a, b)
  {
    if InOrder(evs[1..], a, b) {
      var p, q :| 0 <= p < q < |evs[1..]| && evs[1..][p] == a && evs[1..][q] == b;
      assert evs[p + 1] == a && evs[q + 1] == b;
    } else {
      var q :| 0 <= q < |evs[1..]| && evs[1..][q] == b;
      assert evs[0] == a && evs[q + 1] == b;
    }
  }

  /** Members with one observation keep the order of the list. */
  lemma {:induction false} EqualRanksKeepOrder(recent: RecentTable, route: Route, evs: seq<Evaluation>, i: nat, j: nat)
    requires Observed(recent, route, evs) && i < j < |RankRecent(recent, route, evs)|
    requires var r := RankRecent(recent, route, evs);
             recent[(route, r[i].targets)] == recent[(route, r[j].targets)]
    ensures var r := RankRecent(recent, route, evs);
            InOrder(evs, r[i], r[j])
    decreases |evs|
  {
    hide InOrder, InsertRanked;
    assert evs[0] in evs;
    var e, ranked := evs[0], RankRecent(recent, route, evs[1..]);
    var k := InsertedAt(recent, route, e, ranked);
    var r := ranked[..k] + [e] + ranked[k..];
    assert RankRecent(recent, route, evs) == r;
    if i == k {
      SameElements(ranked, evs[1..]);
      assert r[j] == ranked[j - 1];
    } else if j != k {
      var i', j' := if i < k then i else i - 1, if j < k then j else j - 1;
      assert r[i] == ranked[i'] && r[j] == ranked[j'];
      EqualRanksKeepOrder(recent, route, evs[1..], i', j');
    }
    InOrderLater(evs, r[i], r[j]);
  }

  lemma {:induction false} FreshKeepsOrder(cfg: Config, recent: RecentTable, route: Route, evs: seq<Evaluation>,
                                           now: real, a: Evaluation, b: Evaluation)
    requires InOrder(FreshOnly(cfg, recent, route, evs, now), a, b)
    ensures InOrder(evs, a, b)
    decreases |evs|
  {
    hide Fresh;
    var r, rest := FreshOnly(cfg, recent, route, evs, now), FreshOnly(cfg, recent, route, evs[1..], now);
    var p, q :| 0 <= p < q < |r| && r[p] == a && r[q] == b;
    if r == rest {
      FreshKeepsOrder(cfg, recent, route, evs[1..], now, a, b);
    } else if p > 0 {
      assert rest[p - 1] == a && rest[q - 1] == b;
      FreshKeepsOrder(cfg, recent, route, evs[1..], now, a, b);
    } else {
      assert rest[q - 1] == b;
    }
    InOrderLater(evs, a, b);
  }

  /**
   The candidates come best net spread first, among equal spreads the latest observation first, and among
   equal observations in plan order.
   */
  lemma BestSpreadFirst(cfg: Config, recent: RecentTable, route: Route, evs: seq<Evaluation>, now: real, i: nat, j: nat)
    requires i < j < |RecentCandidates(cfg, recent, route, evs, now)|
    ensures var r := RecentCandidates(cfg, recent, route, evs, now);
            && (route, r[i].targets) in recent && (route, r[j].targets) in recent
            && var a, b := recent[(route, r[i].targets)], recent[(route, r[j].targets)];
               || a.netSpread > b.netSpread
               || (a.netSpread == b.netSpread && a.observedAt > b.observedAt)
               || (a.netSpread == b.netSpread && a.observedAt == b.observedAt
                   && exists p, q :: 0 <= p < q < |evs| && evs[p] == r[i] && evs[q] == r[j])
  {
    var live, r := FreshOnly(cfg, recent, route, evs, now), RecentCandidates(cfg, recent, route, evs, now);
    assert r[i] in r && r[j] in r;
    RankRecentSorts(recent, route, live);
    if recent[(route, r[i].targets)] == recent[(route, r[j].targets)] {
      EqualRanksKeepOrder(recent, route, live, i, j);
      FreshKeepsOrder(cfg, recent, route, evs, now, r[i], r[j]);
    }
  }

  lemma {:induction false} FreshMultiplicity(cfg: Config, recent: RecentTable, route: Route, evs: seq<Evaluation>,
                                             now: real, e: Evaluation)
    ensures multiset(FreshOnly(cfg, recent, route, evs, now))[e]
         == if Fresh(cfg, recent, route, e, now) then multiset(evs)[e] else 0
  {
    if evs != [] {
      FreshMultiplicity(cfg, recent, route, evs[1..], now, e);
      assert evs == [evs[0]] + evs[1..];
    }
  }

  /**
   A member is a candidate, as often as it is listed, iff it has been observed no longer ago than the
   route's priority time allows: its own setting, else the general one, else the route's hold time.
   */
  lemma CandidateIff(cfg: Config, recent: RecentTable, route: Route, evs: seq<Evaluation>, now: real, e: Evaluation)
    ensures var allowed := if route in cfg.priorityByRoute then cfg.priorityByRoute[route]
                           else if cfg.prioritySeconds > 0.0 then cfg.prioritySeconds
                           else if route in cfg.holdByRoute then cfg.holdByRoute[route]
                           else cfg.holdSeconds;
            multiset(RecentCandidates(cfg, recent, route, evs, now))[e] ==
            if && allowed > 0.0 && (route, e.targets) in recent
               && now - recent[(route, e.targets)].observedAt <= allowed then multiset(evs)[e]
            else 0
  {
    FreshMultiplicity(cfg, recent, route, evs, now, e);
  }
}
