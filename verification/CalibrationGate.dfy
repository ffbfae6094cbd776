/**
 The adverse-move release gate (scripts/shadow_calibration.py:71-88, 189-257;
 config.py:219-222): a p95 read off the difference of two histogram snapshots, and its
 comparison with the configured reserve.
 */
module CalibrationGate {
  import opened Collections

  datatype Bound = Finite(value: real) | Infinite

  /** One parsed metric line; labels other than the route and the bucket bound play no part. */
  datatype Sample = Sample(name: string, route: Option<string>, le: Option<Bound>, value: real)

  const COUNTER := "arbitrage_calibration_valid_evaluations_total"
  const BUCKET := "arbitrage_calibration_adverse_move_pct_bucket"
  const FLOOR: real := 0.0001

  type Buckets = map<Bound, real>

  function Get<K, V>(m: map<K, V>, key: K, default: V): V {
    if key in m then m[key] else default
  }

  // ---------- Reading the metrics ----------

  function LastCounter(samples: seq<Sample>, route: string): Option<real> {
    if samples == [] then None
    else
      var s := samples[|samples| - 1];
      if s.name == COUNTER && s.route == Some(route) then Some(s.value)
      else LastCounter(samples[..|samples| - 1], route)
  }

  function LastBucket(samples: seq<Sample>, route: string, bound: Bound): Option<real> {
    if samples == [] then None
    else
      var s := samples[|samples| - 1];
      if s.name == BUCKET && s.route == Some(route) && s.le == Some(bound) then Some(s.value)
      else LastBucket(samples[..|samples| - 1], route, bound)
  }

  /** _route_counters: a later sample of a route replaces an earlier one. */
  method RouteCounters(samples: seq<Sample>) returns (counters: map<string, real>)
    ensures forall route :: Lookup(counters, route) == LastCounter(samples, route)
  {
    counters := map[];
    for i := 0 to |samples|
      invariant forall route :: Lookup(counters, route) == LastCounter(samples[..i], route)
    {
      var s := samples[i];
      assert samples[..i + 1][..i] == samples[..i];
      if s.name == COUNTER && s.route.Some? {
        counters := counters[s.route.value := s.value];
      }
    }
    assert samples[..|samples|] == samples;
  }

  /** _route_buckets */
  method RouteBuckets(samples: seq<Sample>) returns (buckets: map<string, Buckets>)
    ensures forall route, bound :: Lookup(Get(buckets, route, map[]), bound) == LastBucket(samples, route, bound)
  {
    buckets := map[];
    for i := 0 to |samples|
      invariant forall route, bound :: Lookup(Get(buckets, route, map[]), bound) ==
                 LastBucket(samples[..i], route, bound)
    {
      var s := samples[i];
      assert samples[..i + 1][..i] == samples[..i];
      if s.name == BUCKET && s.route.Some? && s.le.Some? {
        buckets := buckets[s.route.value := Get(buckets, s.route.value, map[])[s.le.value := s.value]];
      }
    }
    assert samples[..|samples|] == samples;
  }

  /** A counter is the value of the route's last sample under the counter's name. */
  lemma {:induction false} CounterIs(samples: seq<Sample>, route: string)
    ensures var name, found := "arbitrage_calibration_valid_evaluations_total", LastCounter(samples, route);
            && (found.None? <==> forall k :: 0 <= k < |samples| ==>
                                   samples[k].name != name || samples[k].route != Some(route))
            && (found.Some? ==>
                  exists k :: 0 <= k < |samples| && samples[k].name == name && samples[k].route == Some(route)
                              && samples[k].value == found.value
                              && forall j :: k < j < |samples| ==>
                                   samples[j].name != name || samples[j].route != Some(route))
  {
    if samples != [] {
      var n := |samples| - 1;
      CounterIs(samples[..n], route);
      assert forall k :: 0 <= k < n ==> samples[..n][k] == samples[k];
    }
  }

  /** A bucket is the value of the route's last sample under the bucket's name with that bound. */
  lemma {:induction false} BucketIs(samples: seq<Sample>, route: string, bound: Bound)
    ensures var name, found := "arbitrage_calibration_adverse_move_pct_bucket", LastBucket(samples, route, bound);
            && (found.None? <==> forall k :: 0 <= k < |samples| ==>
                                   samples[k].name != name || samples[k].route != Some(route)
                                   || samples[k].le != Some(bound))
            && (found.Some? ==>
                  exists k :: 0 <= k < |samples| && samples[k].name == name && samples[k].route == Some(route)
                              && samples[k].le == Some(bound) && samples[k].value == found.value
                              && forall j :: k < j < |samples| ==>
                                   samples[j].name != name || samples[j].route != Some(route)
                                   || samples[j].le != Some(bound))
  {
    if samples != [] {
      var n := |samples| - 1;
      BucketIs(samples[..n], route, bound);
      assert forall k :: 0 <= k < n ==> samples[..n][k] == samples[k];
    }
  }

  // ---------- The p95 of one route ----------

  function Delta(start: Buckets, end: Buckets, bound: Bound): real
    requires bound in end
  {
    end[bound] - Get(start, bound, 0.0)
  }

  function Deltas(start: Buckets, end: Buckets): Buckets {
    map bound | bound in end :: Delta(start, end, bound)
  }

  predicate Covers(deltas: Buckets, bound: real, target: real) {
    Finite(bound) in deltas && deltas[Finite(bound)] >= target
  }

  /** The smallest finite bound whose cumulative count reaches the target, if any. */
  ghost predicate IsFirstCovering(deltas: Buckets, target: real, first: Option<real>) {
    match first
    case None => forall b :: !Covers(deltas, b, target)
    case Some(bound) => Covers(deltas, bound, target) && forall b :: Covers(deltas, b, target) ==> bound <= b
  }

  method Smallest(bounds: set<Bound>) returns (smallest: real)
    requires bounds != {} && forall b <- bounds :: b.Finite?
    ensures Finite(smallest) in bounds && forall b <- bounds :: smallest <= b.value
  {
    var first :| first in bounds;
    smallest := first.value;
    var pending := bounds - {first};
    while pending != {}
      invariant pending <= bounds && Finite(smallest) in bounds
      invariant forall b <- bounds :: b in pending || smallest <= b.value
    {
      var b :| b in pending;
      if b.value < smallest {
        smallest := b.value;
      }
      pending := pending - {b};
    }
  }

  /** Walks the bounds in ascending order and stops at the first finite one that reaches the target. */
  method FirstCovering(deltas: Buckets, target: real) returns (first: Option<real>)
    ensures IsFirstCovering(deltas, target, first)
  {
    var pending := set b | b in deltas && b.Finite?;
    while pending != {}
      invariant forall b <- pending :: b in deltas && b.Finite?
      invariant forall b :: Covers(deltas, b, target) ==> Finite(b) in pending
    {
      var bound := Smallest(pending);
      if deltas[Finite(bound)] >= target {
        return Some(bound);
      }
      pending := pending - {Finite(bound)};
    }
    first := None;
  }

  datatype Details = Details(
    validCount: int,
    observationCount: int,
    p95: Option<real>,
    blockers: seq<string>,
    configured: Option<real>,
    passed: bool)

  function ObservationCount(start: Buckets, end: Buckets): real {
    Get(Deltas(start, end), Infinite, 0.0)
  }

  function Share(observations: real): real {
    observations * 0.95
  }

  function AtLeastFloor(first: Option<real>): Option<real> {
    match first
    case None => None
    case Some(bound) => Some(MaxReal(FLOOR, bound))
  }

  /** The verdict on one route: enough evaluations, some observations, and a covering finite bound. */
  ghost predicate RouteClear(valid: real, observations: real, p95: Option<real>, minimum: int) {
    valid >= minimum as real && valid >= 0.0 && observations > 0.0 && p95.Some?
  }

  /** `p95` is what the gate reports for these snapshots. */
  ghost predicate ReportsP95(start: Buckets, end: Buckets, p95: Option<real>) {
    var observations := ObservationCount(start, end);
    if observations <= 0.0 then p95 == None
    else exists first :: IsFirstCovering(Deltas(start, end), Share(observations), first) && p95 == AtLeastFloor(first)
  }

  /** The report is a function of the two snapshots. */
  lemma P95Unique(start: Buckets, end: Buckets, a: Option<real>, b: Option<real>)
    requires ReportsP95(start, end, a) && ReportsP95(start, end, b)
    ensures a == b
  {
    var observations, deltas := ObservationCount(start, end), Deltas(start, end);
    if observations > 0.0 {
      var fa :| IsFirstCovering(deltas, Share(observations), fa) && a == AtLeastFloor(fa);
      var fb :| IsFirstCovering(deltas, Share(observations), fb) && b == AtLeastFloor(fb);
      assert fa == fb;
    }
  }

  /** A finite bucket covers the target iff it grew by at least 95% of what all observations grew by. */
  lemma CoversIff(start: Buckets, end: Buckets, total: real, bound: real)
    ensures Covers(Deltas(start, end), bound, Share(total)) <==>
              var b := Finite(bound);
              b in end && 20.0 * (end[b] - if b in start then start[b] else 0.0) >= 19.0 * total
  {
  }

  /**
   What is reported: with nothing observed in the window, or no finite bucket that grew by 95% of what the infinite
   one grew by, no p95; otherwise the least bound of such a bucket, but at least 0.0001.
   */
  lemma ReportsP95Iff(start: Buckets, end: Buckets, p95: Option<real>)
    ensures var total := if Infinite !in end then 0.0
                         else end[Infinite] - if Infinite in start then start[Infinite] else 0.0;
            ReportsP95(start, end, p95) <==>
              || (p95.None? && (total <= 0.0 || forall b :: !Covers(Deltas(start, end), b, Share(total))))
              || (p95.Some? && total > 0.0
                  && exists least :: Covers(Deltas(start, end), least, Share(total))
                                     && (forall b :: Covers(Deltas(start, end), b, Share(total)) ==> least <= b)
                                     && p95.value == if least <= 0.0001 then 0.0001 else least)
  {
    var total := ObservationCount(start, end);
    var deltas, target := Deltas(start, end), Share(total);
    assert total == if Infinite !in end then 0.0
                    else end[Infinite] - if Infinite in start then start[Infinite] else 0.0;
    hide Covers, Deltas, Share, ObservationCount;
    if ReportsP95(start, end, p95) && total > 0.0 {
      var first :| IsFirstCovering(deltas, target, first) && p95 == AtLeastFloor(first);
    }
    if total > 0.0 && p95.None? && forall b :: !Covers(deltas, b, target) {
      assert IsFirstCovering(deltas, target, None);
    }
    if p95.Some? && total > 0.0 {
      if least :| Covers(deltas, least, target) && (forall b :: Covers(deltas, b, target) ==> least <= b)
                  && p95.value == if least <= 0.0001 then 0.0001 else least {
        assert IsFirstCovering(deltas, target, Some(least));
      }
    }
  }

  /** Each blocker stands for its own reason, and the verdict is that there is none. */
  ghost predicate Explained(d: Details, valid: real, total: real, minimum: int) {
    && (d.passed <==> valid >= minimum as real && valid >= 0.0 && total > 0.0 && d.p95.Some?)
    && ("valid_evaluations_below_minimum" in d.blockers <==> valid < minimum as real)
    && ("no_latency_horizon_observations" in d.blockers <==> total <= 0.0)
    && ("p95_exceeds_calibration_histogram" in d.blockers <==> d.p95.None?)
    && ("runtime_metrics_reset_during_window" in d.blockers <==> valid < 0.0 || total < 0.0)
    && d.validCount == (if valid > 0.0 then valid.Floor else 0)
    && d.observationCount == (if total > 0.0 then total.Floor else 0)
  }

  method EvaluateRoute(start: Buckets, end: Buckets, startCount: real, endCount: real,
                       minimum: int) returns (d: Details)
    ensures ReportsP95(start, end, d.p95) && d.configured == None
    ensures d.passed == (d.blockers == [])
    ensures d.passed <==> RouteClear(endCount - startCount, ObservationCount(start, end), d.p95, minimum)
    ensures Explained(d, endCount - startCount,
                      if Infinite !in end then 0.0
                      else end[Infinite] - (if Infinite in start then start[Infinite] else 0.0),
                      minimum)
  {
    var valid := endCount - startCount;
    var deltas := Deltas(start, end);
    var observations := Get(deltas, Infinite, 0.0);
    var p95: Option<real> := None;
    if observations > 0.0 {
      var first := FirstCovering(deltas, Share(observations));
      p95 := AtLeastFloor(first);
    }
    var blockers: seq<string> := [];
    if valid < minimum as real {
      blockers := blockers + ["valid_evaluations_below_minimum"];
    }
    if observations <= 0.0 {
      blockers := blockers + ["no_latency_horizon_observations"];
    }
    if p95.None? {
      blockers := blockers + ["p95_exceeds_calibration_histogram"];
    }
    if valid < 0.0 || observations < 0.0 {
      blockers := blockers + ["runtime_metrics_reset_during_window"];
    }
    d := Details(MaxReal(0.0, valid).Floor, MaxReal(0.0, observations).Floor, p95, blockers, None, blockers == []);
  }

  // ---------- The report, mutated in place by the reserve check ----------

  datatype Snapshot = Snapshot(counters: map<string, real>, buckets: map<string, Buckets>)

  function StartOf(s: Snapshot, route: string): Buckets {
    Get(s.buckets, route, map[])
  }

  function ValidDelta(start: Snapshot, end: Snapshot, route: string): real {
    Get(end.counters, route, 0.0) - Get(start.counters, route, 0.0)
  }

  /** Calibration alone accepts a route. */
  ghost predicate Calibrated(start: Snapshot, end: Snapshot, minimum: int, route: string, p95: Option<real>) {
    && ReportsP95(StartOf(start, route), StartOf(end, route), p95)
    && RouteClear(ValidDelta(start, end, route), ObservationCount(StartOf(start, route), StartOf(end, route)), p95,
                  minimum)
  }

  /** Enough valid evaluations in the window, something observed in it, and a p95 reported for its two histograms. */
  lemma CalibratedIff(start: Snapshot, end: Snapshot, minimum: int, route: string, p95: Option<real>)
    ensures var before := if route in start.buckets then start.buckets[route] else map[];
            var after := if route in end.buckets then end.buckets[route] else map[];
            var valid := (if route in end.counters then end.counters[route] else 0.0)
                         - if route in start.counters then start.counters[route] else 0.0;
            Calibrated(start, end, minimum, route, p95) <==>
              && ReportsP95(before, after, p95) && p95.Some? && valid >= minimum as real && valid >= 0.0
              && Infinite in after && after[Infinite] > if Infinite in before then before[Infinite] else 0.0
  {
    hide ReportsP95;
  }

  /** What the report says about a route before any reserve check. */
  ghost predicate Judged(start: Snapshot, end: Snapshot, minimum: int, route: string, d: Details) {
    && d.passed == (d.blockers == []) && d.configured == None
    && ReportsP95(StartOf(start, route), StartOf(end, route), d.p95)
    && (d.passed <==> Calibrated(start, end, minimum, route, d.p95))
  }

  lemma JudgedAlike(start: Snapshot, end: Snapshot, minimum: int, route: string, a: Details, b: Details)
    requires Judged(start, end, minimum, route, a) && Judged(start, end, minimum, route, b)
    ensures a.passed == b.passed && a.p95 == b.p95
  {
    P95Unique(StartOf(start, route), StartOf(end, route), a.p95, b.p95);
  }

  predicate AllPassed(found: map<string, Details>) {
    forall r <- found :: found[r].passed
  }

  lemma AddPassed(found: map<string, Details>, r: string, d: Details)
    requires r in found ==> found[r].passed == d.passed
    ensures AllPassed(found[r := d]) == (AllPassed(found) && d.passed)
  {
    var more := found[r := d];
    if AllPassed(more) {
      assert more[r].passed;
      forall x | x in found
        ensures found[x].passed
      {
        assert more[x].passed;
      }
    }
  }

  class CalibrationReport {
    var passed: bool
    var routes: map<string, Details>

    ghost predicate Valid()
      reads this
    {
      && passed == AllPassed(routes)
      && forall route <- routes :: routes[route].passed == (routes[route].blockers == [])
    }

    /** calibration_result: passes iff every requested route is calibrated. */
    constructor (names: seq<string>, start: Snapshot, end: Snapshot, minimum: int)
      ensures Valid() && routes.Keys == (set r | r in names)
      ensures forall r <- names :: Judged(start, end, minimum, r, routes[r])
      ensures passed <==> forall r <- names :: Calibrated(start, end, minimum, r, routes[r].p95)
    {
      var all := true;
      var found: map<string, Details> := map[];
      for i := 0 to |names|
        invariant found.Keys == (set r | r in names[..i])
        invariant all == AllPassed(found)
        invariant forall r <- found :: Judged(start, end, minimum, r, found[r])
      {
        hide ReportsP95, RouteClear, Explained;
        var r := names[i];
        var d := EvaluateRoute(StartOf(start, r), StartOf(end, r), Get(start.counters, r, 0.0),
                               Get(end.counters, r, 0.0), minimum);
        assert names[..i + 1] == names[..i] + [r];
        assert Judged(start, end, minimum, r, d);
        if r in found {
          JudgedAlike(start, end, minimum, r, found[r], d);
        }
        AddPassed(found, r, d);
        found := found[r := d];
        all := all && d.passed;
      }
      assert names[..|names|] == names;
      passed, routes := all, found;
    }

    /**
     validate_configured_reserves: keeps the verdict only where a positive configured reserve
     is at least the observed p95.
     */
    method ValidateConfiguredReserves(configuredByRoute: map<string, real>)
      requires Valid()
      modifies this
      ensures Valid() && routes.Keys == old(routes).Keys
      ensures forall r <- routes :: Checked(configuredByRoute, r, old(routes)[r], routes[r])
      ensures passed <==> old(passed) && forall r <- routes :: Reserved(configuredByRoute, r, routes[r].p95)
      ensures passed <==> old(passed) && forall r <- routes ::
                            && r in configuredByRoute && configuredByRoute[r] > 0.0
                            && (routes[r].p95.Some? ==> configuredByRoute[r] >= routes[r].p95.value)
    {
      hide Reserved, AllPassed, Checked;
      ghost var before := routes;
      var all := passed;
      var pending := routes.Keys;
      while pending != {}
        invariant pending <= routes.Keys == before.Keys
        invariant forall r <- pending :: routes[r] == before[r]
        invariant forall r <- before :: r !in pending ==> Checked(configuredByRoute, r, before[r], routes[r])
        invariant all <==> old(passed) && forall r <- before :: r !in pending ==> routes[r].passed
      {
        var r :| r in pending;
        var d := CheckReserve(configuredByRoute, r, routes[r]);
        routes := routes[r := d];
        all := all && d.passed;
        pending := pending - {r};
      }
      AllChecked(configuredByRoute, before, routes, old(passed), all);
      forall r | r in routes
        ensures Reserved(configuredByRoute, r, routes[r].p95)
           <==> && r in configuredByRoute && configuredByRoute[r] > 0.0
                && (routes[r].p95.Some? ==> configuredByRoute[r] >= routes[r].p95.value)
      {
        ReservedIff(configuredByRoute, r, routes[r].p95);
      }
      passed := all;
    }
  }

  /** What the reserve check makes of one route's details. */
  ghost predicate Checked(configuredByRoute: map<string, real>, route: string, before: Details, after: Details) {
    && after.p95 == before.p95
    && after.configured == Some(Get(configuredByRoute, route, 0.0))
    && after.passed == (after.blockers == [])
    && (after.passed <==> before.passed && Reserved(configuredByRoute, route, before.p95))
  }

  lemma AllChecked(configuredByRoute: map<string, real>, before: map<string, Details>, after: map<string, Details>,
                   was: bool, all: bool)
    requires was == AllPassed(before) && after.Keys == before.Keys
    requires forall r <- before :: Checked(configuredByRoute, r, before[r], after[r])
    requires all <==> was && forall r <- before :: after[r].passed
    ensures all == AllPassed(after) && forall r <- after :: after[r].passed == (after[r].blockers == [])
    ensures all <==> was && forall r <- after :: Reserved(configuredByRoute, r, after[r].p95)
  {
    hide Reserved;
  }

  method CheckReserve(configuredByRoute: map<string, real>, route: string, details: Details) returns (d: Details)
    requires details.passed == (details.blockers == [])
    ensures Checked(configuredByRoute, route, details, d)
  {
    var configured := Get(configuredByRoute, route, 0.0);
    var blockers := details.blockers;
    if configured <= 0.0 {
      blockers := blockers + ["route_specific_adverse_move_reserve_missing"];
    } else if details.p95.Some? && configured < details.p95.value {
      blockers := blockers + ["configured_adverse_move_reserve_below_observed_p95"];
    }
    d := details.(blockers := blockers, configured := Some(configured), passed := blockers == []);
  }

  /** A positive reserve that is not below the observed p95, where there is one. */
  predicate Reserved(configuredByRoute: map<string, real>, route: string, p95: Option<real>) {
    var configured := Get(configuredByRoute, route, 0.0);
    configured > 0.0 && (p95.Some? ==> configured >= p95.value)
  }

  lemma ReservedIff(configuredByRoute: map<string, real>, route: string, p95: Option<real>)
    ensures Reserved(configuredByRoute, route, p95)
       <==> && route in configuredByRoute && configuredByRoute[route] > 0.0
            && (p95.Some? ==> configuredByRoute[route] >= p95.value)
  {
  }

  // ---------- What a pass means ----------

  datatype SpreadPolicy = SpreadPolicy(
    floors: map<string, real>,
    adverse: real,
    adverseByRoute: map<string, real>,
    safetyBuffer: real)
  {
    /** threshold_for */
    function ThresholdFor(route: string): real {
      MaxReal(Get(floors, route, 0.0), Get(adverseByRoute, route, adverse) + safetyBuffer)
    }
  }

  /** The threshold is the route's floor or its adverse-move reserve plus the buffer, whichever is higher. */
  lemma ThresholdIs(policy: SpreadPolicy, route: string)
    ensures var threshold := policy.ThresholdFor(route);
            var floor := if route in policy.floors then policy.floors[route] else 0.0;
            var reserve := if route in policy.adverseByRoute then policy.adverseByRoute[route] else policy.adverse;
            && threshold >= floor && threshold >= reserve + policy.safetyBuffer
            && (threshold == floor || threshold == reserve + policy.safetyBuffer)
  {
  }

  function CountAtMost(observations: seq<real>, bound: real): nat {
    if observations == [] then 0
    else
      var last := observations[|observations| - 1];
      CountAtMost(observations[..|observations| - 1], bound) + (if last <= bound then 1 else 0)
  }

  /** It counts positions. */
  lemma {:induction false} CountIs(observations: seq<real>, bound: real)
    ensures CountAtMost(observations, bound) == |set i | 0 <= i < |observations| && observations[i] <= bound|
  {
    if observations != [] {
      var n := |observations| - 1;
      var front := observations[..n];
      CountIs(front, bound);
      var before := set i | 0 <= i < n && front[i] <= bound;
      var all := set i | 0 <= i < |observations| && observations[i] <= bound;
      assert all == if observations[n] <= bound then before + {n} else before;
    }
  }

  lemma {:induction false} CountConcat(a: seq<real>, b: seq<real>, bound: real)
    ensures CountAtMost(a + b, bound) == CountAtMost(a, bound) + CountAtMost(b, bound)
  {
    if b == [] {
      assert a + b == a;
    } else {
      assert (a + b)[..|a + b| - 1] == a + b[..|b| - 1];
      CountConcat(a, b[..|b| - 1], bound);
    }
  }

  lemma {:induction false} CountMonotone(a: seq<real>, low: real, high: real)
    requires low <= high
    ensures CountAtMost(a, low) <= CountAtMost(a, high) <= |a|
  {
    if a != [] {
      CountMonotone(a[..|a| - 1], low, high);
    }
  }

  /** A cumulative histogram of a sequence of observations over the given finite bounds. */
  ghost predicate Histogram(buckets: Buckets, bounds: set<real>, observations: seq<real>) {
    && (forall b :: b in buckets <==> b.Infinite? || b.value in bounds)
    && buckets[Infinite] == |observations| as real
    && forall b <- bounds :: buckets[Finite(b)] == CountAtMost(observations, b) as real
  }

  /** A route the exporter has not seen yet has no buckets. */
  ghost predicate Exported(buckets: Buckets, bounds: set<real>, observations: seq<real>) {
    Histogram(buckets, bounds, observations) || (buckets == map[] && observations == [])
  }

  /** The bucket differences count the observations made in the window. */
  lemma DeltasCountWindow(start: Buckets, end: Buckets, bounds: set<real>, before: seq<real>, window: seq<real>)
    requires Exported(start, bounds, before) && Histogram(end, bounds, before + window)
    ensures ObservationCount(start, end) == |window| as real
    ensures forall b <- bounds :: Finite(b) in end && Deltas(start, end)[Finite(b)] == CountAtMost(window, b) as real
  {
    forall b | b in bounds
      ensures Finite(b) in end && Deltas(start, end)[Finite(b)] == CountAtMost(window, b) as real
    {
      CountConcat(before, window, b);
    }
  }

  /** At least 95 of 100 observations of the window are at most the bound. */
  predicate HoldsShare(window: seq<real>, bound: real) {
    20 * CountAtMost(window, bound) >= 19 * |window|
  }

  lemma ShareOfWindow(window: seq<real>, bound: real)
    ensures HoldsShare(window, bound) <==> CountAtMost(window, bound) as real >= Share(|window| as real)
  {
    hide CountAtMost;
    var count, all := CountAtMost(window, bound), |window|;
    assert (20 * count) as real == 20.0 * count as real && (19 * all) as real == 19.0 * all as real;
  }

  /**
   What the reported p95 means: at least 95% of the window's observations are at most p95, which is a bucket bound
   or the reporting floor. It is the least bucket bound with that property exactly when no bound below the floor
   has it.
   */
  lemma P95Meaning(start: Buckets, end: Buckets, bounds: set<real>, before: seq<real>, window: seq<real>, p95: real)
    requires Exported(start, bounds, before) && Histogram(end, bounds, before + window)
    requires ReportsP95(start, end, Some(p95))
    ensures window != [] && 20 * CountAtMost(window, p95) >= 19 * |window|
    ensures p95 >= 0.0001 && (p95 in bounds || p95 == 0.0001)
    ensures (forall b :: b in bounds && b < p95 ==> 20 * CountAtMost(window, b) < 19 * |window|)
       <==> (forall b :: b in bounds && b < 0.0001 ==> 20 * CountAtMost(window, b) < 19 * |window|)
  {
    hide Share;
    DeltasCountWindow(start, end, bounds, before, window);
    var deltas, target := Deltas(start, end), Share(|window| as real);
    var first :| IsFirstCovering(deltas, target, first) && Some(p95) == AtLeastFloor(first);
    var bound := first.value;
    assert bound in bounds;
    CountMonotone(window, bound, p95);
    ShareOfWindow(window, bound);
    forall b | b in bounds && b < p95 && 20 * CountAtMost(window, b) >= 19 * |window|
      ensures p95 == FLOOR
    {
      ShareOfWindow(window, b);
      assert Covers(deltas, b, target);
    }
  }

  /**
   With the exporter's eleven finite bounds the p95 is the least of them that holds 95% of the window iff fewer
   than 95% of the window saw no adverse move.
   */
  lemma ExportedP95IsLeastIff(start: Buckets, end: Buckets, bounds: set<real>, before: seq<real>, window: seq<real>,
                              p95: real)
    requires bounds == {0.0, 0.0001, 0.00025, 0.0005, 0.001, 0.0025, 0.005, 0.01, 0.02, 0.05, 0.1}
    requires Exported(start, bounds, before) && Histogram(end, bounds, before + window)
    requires ReportsP95(start, end, Some(p95))
    ensures p95 in bounds
    ensures (forall b :: b in bounds && b < p95 ==> 20 * CountAtMost(window, b) < 19 * |window|)
       <==> 20 * CountAtMost(window, 0.0) < 19 * |window|
  {
    hide CountAtMost, ReportsP95, Histogram, Exported;
    P95Meaning(start, end, bounds, before, window, p95);
    assert forall b :: b in bounds && b < 0.0001 <==> b == 0.0;
  }

  /** One observation of no move at all: the bound 0.0 holds it, the report is 0.0001. */
  lemma FloorExceedsLeastBound()
    ensures Exported(map[], {0.0, 0.0001}, []) && Histogram(FLOOR_BUCKETS, {0.0, 0.0001}, [] + [0.0])
    ensures ReportsP95(map[], FLOOR_BUCKETS, Some(0.0001))
    ensures 20 * CountAtMost([0.0], 0.0) >= 19 * |[0.0]|
  {
    assert [] + [0.0] == [0.0];
    FloorCounted();
    FloorReported();
    CountsZero(0.0);
  }

  const FLOOR_BUCKETS: Buckets := map[Finite(0.0) := 1.0, Finite(0.0001) := 1.0, Infinite := 1.0]

  lemma FloorCounted()
    ensures Histogram(FLOOR_BUCKETS, {0.0, 0.0001}, [0.0])
  {
    CountsZero(0.0);
    CountsZero(0.0001);
    hide CountAtMost;
    forall b: Bound
      ensures b in FLOOR_BUCKETS <==> b.Infinite? || b.value in {0.0, 0.0001}
    {
      if b.Finite? {
        assert b == Finite(b.value);
      }
    }
  }

  lemma FloorReported()
    ensures ReportsP95(map[], FLOOR_BUCKETS, Some(0.0001))
  {
    var end := FLOOR_BUCKETS;
    assert Deltas(map[], end) == end && ObservationCount(map[], end) == 1.0;
    assert Covers(end, 0.0, Share(1.0));
    forall b | Covers(end, b, Share(1.0))
      ensures 0.0 <= b
    {
      assert Finite(b) in end;
    }
    assert IsFirstCovering(Deltas(map[], end), Share(1.0), Some(0.0)) && AtLeastFloor(Some(0.0)) == Some(0.0001);
  }

  lemma CountsZero(bound: real)
    requires bound >= 0.0
    ensures CountAtMost([0.0], bound) == 1
  {
    assert [0.0][..0] == [];
    assert CountAtMost([], bound) == 0;
  }

  /**
   Exactly when the gate reports a p95 at all: iff the window has observations and some finite
   bucket holds 95% of them.
   */
  lemma P95Exists(start: Buckets, end: Buckets, bounds: set<real>, before: seq<real>, window: seq<real>,
                  p95: Option<real>)
    requires Exported(start, bounds, before) && Histogram(end, bounds, before + window)
    requires ReportsP95(start, end, p95)
    ensures p95.Some? <==> window != [] && exists b <- bounds :: 20 * CountAtMost(window, b) >= 19 * |window|
  {
    hide Share, CountAtMost;
    DeltasCountWindow(start, end, bounds, before, window);
    var deltas, target := Deltas(start, end), Share(|window| as real);
    forall b
      ensures 20 * CountAtMost(window, b) >= 19 * |window| <==> CountAtMost(window, b) as real >= target
    {
      ShareOfWindow(window, b);
    }
    if window != [] {
      var first :| IsFirstCovering(deltas, target, first) && p95 == AtLeastFloor(first);
      if b :| b in bounds && CountAtMost(window, b) as real >= target {
        assert Covers(deltas, b, target);
      } else {
        assert forall b :: Covers(deltas, b, target) ==> b in bounds;
      }
    }
  }

  /**
   End to end: a route that passes calibration and the reserve check has made enough evaluations, has a positive
   reserve of its own and an entry threshold of at least the reported p95 plus the safety buffer. At least 95% of
   the window's observations are at most that p95, and it is the least bucket bound with that property exactly when
   no bound below the reporting floor has it.
   */
  lemma PassedRouteIsBounded(start: Snapshot, end: Snapshot, minimum: int, route: string, p95: Option<real>,
                             policy: SpreadPolicy, bounds: set<real>, before: seq<real>, window: seq<real>)
    requires Exported(StartOf(start, route), bounds, before) && Histogram(StartOf(end, route), bounds, before + window)
    requires Calibrated(start, end, minimum, route, p95) && Reserved(policy.adverseByRoute, route, p95)
    ensures p95.Some? && window != [] && 20 * CountAtMost(window, p95.value) >= 19 * |window|
    ensures (if route in end.counters then end.counters[route] else 0.0)
            - (if route in start.counters then start.counters[route] else 0.0) >= minimum as real
    ensures route in policy.adverseByRoute && policy.adverseByRoute[route] > 0.0
    ensures policy.ThresholdFor(route) >= p95.value + policy.safetyBuffer
    ensures route in policy.floors ==> policy.ThresholdFor(route) >= policy.floors[route]
    ensures (forall b :: b in bounds && b < p95.value ==> 20 * CountAtMost(window, b) < 19 * |window|)
       <==> (forall b :: b in bounds && b < 0.0001 ==> 20 * CountAtMost(window, b) < 19 * |window|)
  {
    P95Meaning(StartOf(start, route), StartOf(end, route), bounds, before, window, p95.value);
  }
}
