/**
 The values the evaluation scheduler works on: planned evaluations, their target
 keys, the recency table, the per-route settings and the per-route part of its state.
 */
module SchedulerTypes {
  import opened Collections

  type Route = string
  type Target = (string, string)
  type Key = seq<Target>

  /** The coroutine factory of an evaluation: which snapshot and registry generation it was planned from. */
  datatype RunHandle = RunHandle(snapshot: nat, generation: Option<nat>, market: nat)

  datatype Evaluation = Evaluation(route: Route, run: RunHandle, targets: Key)

  datatype Observation = Observation(observedAt: real, netSpread: real)

  type RecentTable = map<(Route, Key), Observation>

  /** Seconds and fractions are exact rationals. */
  datatype Config = Config(
    maxConcurrent: nat,
    maxConcurrentByRoute: map<Route, nat>,
    weightByRoute: map<Route, nat>,
    prefetchByRoute: map<Route, nat>,
    holdSeconds: real,
    holdByRoute: map<Route, real>,
    prioritySeconds: real,
    priorityByRoute: map<Route, real>,
    explorationFraction: real,
    explorationByRoute: map<Route, real>)
  {
    function CapFor(route: Route): nat {
      if route in maxConcurrentByRoute then maxConcurrentByRoute[route] else maxConcurrent
    }

    function WeightFor(route: Route): nat {
      if route in weightByRoute then weightByRoute[route] else 1
    }

    function PrefetchFor(route: Route): nat {
      if route in prefetchByRoute then prefetchByRoute[route] else 1
    }

    function HoldFor(route: Route): real {
      if route in holdByRoute then holdByRoute[route] else holdSeconds
    }

    function PriorityFor(route: Route): real {
      if route in priorityByRoute then priorityByRoute[route]
      else if prioritySeconds > 0.0 then prioritySeconds
      else HoldFor(route)
    }

    function ExplorationFor(route: Route): real {
      if route in explorationByRoute then explorationByRoute[route] else explorationFraction
    }

    /** The numeric ranges that configuration validation enforces. */
    ghost predicate Valid() {
      && maxConcurrent >= 1
      && (forall r <- maxConcurrentByRoute :: 1 <= maxConcurrentByRoute[r] <= maxConcurrent)
      && (forall r <- weightByRoute :: 1 <= weightByRoute[r] <= 4)
      && (forall r <- prefetchByRoute :: 1 <= prefetchByRoute[r] <= 4)
      && holdSeconds >= 0.0
      && (forall r <- holdByRoute :: holdByRoute[r] >= 0.0)
      && prioritySeconds >= 0.0
      && (forall r <- priorityByRoute :: priorityByRoute[r] >= 0.0)
      && 0.0 < explorationFraction <= 1.0
      && (forall r <- explorationByRoute :: 0.0 < explorationByRoute[r] <= 1.0)
    }
  }

  function KeysOf(evs: seq<Evaluation>): (keys: seq<Key>)
    ensures |keys| == |evs|
  {
    seq(|evs|, i requires 0 <= i < |evs| => evs[i].targets)
  }

  function KeySet(evs: seq<Evaluation>): set<Key> {
    set e <- evs :: e.targets
  }

  /** No two evaluations of the list share their targets. */
  ghost predicate DistinctKeys(evs: seq<Evaluation>) {
    forall i, j :: 0 <= i < j < |evs| ==> evs[i].targets != evs[j].targets
  }

  ghost predicate Within(evs: seq<Evaluation>, pool: seq<Evaluation>) {
    forall e <- evs :: e in pool
  }

  /** One route's share of the scheduler's dictionaries. */
  datatype RouteState = RouteState(
    cursor: Option<nat>,
    activeCursor: Option<nat>,
    keys: Option<seq<Key>>,
    held: Option<seq<Evaluation>>,
    deadline: Option<real>)

  lemma {:induction false} KeySetSize(evs: seq<Evaluation>)
    requires DistinctKeys(evs)
    ensures |KeySet(evs)| == |evs|
  {
    if evs != [] {
      var front, last := evs[..|evs| - 1], evs[|evs| - 1];
      KeySetSize(front);
      assert evs == front + [last];
      assert KeySet(evs) == KeySet(front) + {last.targets};
      assert last.targets !in KeySet(front);
    }
  }

  lemma DistinctConcat(a: seq<Evaluation>, b: seq<Evaluation>)
    requires DistinctKeys(a) && DistinctKeys(b)
    requires KeySet(a) !! KeySet(b)
    ensures DistinctKeys(a + b)
  {
    forall i, j | 0 <= i < j < |a + b|
      ensures (a + b)[i].targets != (a + b)[j].targets
    {
      if i < |a| <= j {
        assert a[i].targets in KeySet(a);
        assert b[j - |a|].targets in KeySet(b);
      }
    }
  }

  /** In a list with distinct keys an element is determined by its key. */
  lemma SameKeySameElement(evs: seq<Evaluation>, a: Evaluation, b: Evaluation)
    requires DistinctKeys(evs) && a in evs && b in evs && a.targets == b.targets
    ensures a == b
  {
  }
}
