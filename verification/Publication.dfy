/**
 The publication protocol of one engine cycle (engine.py:537-548, 921-976, 1025-1046,
 1433-1440). The cycle is cut at its suspension points; between two of them nothing else of
 the engine runs. Readiness readers may look at every state in between.
 */
module Publication {
  import opened Collections
  import opened SchedulerTypes
  import opened SchedulerCycle
  import opened SchedulerRuns
  import opened EvaluationScheduling

  type Venue = string
  type Token = string
  type TargetMap = map<Venue, set<Token>>

  const VENUES: seq<Venue> := ["Polymarket", "Predict.fun", "SX Bet", "Myriad", "Opinion"]

  function At(m: TargetMap, venue: Venue): set<Token> {
    if venue in m then m[venue] else {}
  }

  /** The non-empty tokens of a venue that a list of evaluations names. */
  function TokensAt(evs: seq<Evaluation>, venue: Venue): set<Token> {
    set e, t | e in evs && t in e.targets && t.0 == venue && t.1 != "" :: t.1
  }

  function FundedOf(active: seq<Evaluation>, route: Route): set<Target> {
    set e, t | e in active && e.route == route && t in e.targets && t.1 != "" :: t
  }

  function FundedMap(active: seq<Evaluation>, funded: set<Route>): map<Route, set<Target>> {
    map r | r in funded :: FundedOf(active, r)
  }

  /** The tokens of a venue that are published as funded on some route. */
  function PublishedAt(published: map<Route, set<Target>>, venue: Venue): set<Token> {
    set r, t | r in published && t in published[r] && t.0 == venue && t.1 != "" :: t.1
  }

  // ---------- The loops of a cycle ----------

  lemma FundedOfAppend(active: seq<Evaluation>, e: Evaluation, r: Route)
    ensures FundedOf(active + [e], r)
            == FundedOf(active, r) + (if e.route == r then (set t | t in e.targets && t.1 != "") else {})
  {
  }

  lemma NothingFunded(r: Route)
    ensures FundedOf([], r) == {}
  {
  }

  /** Per funded route, the non-empty targets of the active evaluations. */
  method FundedTargets(active: seq<Evaluation>, funded: set<Route>) returns (targets: map<Route, set<Target>>)
    ensures targets == FundedMap(active, funded)
    ensures targets.Keys == funded
    ensures forall r, t :: r in funded ==>
              (t in targets[r] <==> t.1 != "" && exists e :: e in active && e.route == r && t in e.targets)
  {
    hide FundedOf;
    targets := map r | r in funded :: {};
    forall r
      ensures FundedOf([], r) == {}
    {
      NothingFunded(r);
    }
    assert active[..0] == [];
    for i := 0 to |active|
      invariant targets.Keys == funded
      invariant forall r <- funded :: targets[r] == FundedOf(active[..i], r)
    {
      var e := active[i];
      assert active[..i + 1] == active[..i] + [e];
      forall r
        ensures FundedOf(active[..i + 1], r)
             == FundedOf(active[..i], r) + (if e.route == r then (set t | t in e.targets && t.1 != "") else {})
      {
        FundedOfAppend(active[..i], e, r);
      }
      if e.route in targets {
        targets := targets[e.route := targets[e.route] + set t | t in e.targets && t.1 != ""];
      }
    }
    assert active[..|active|] == active;
    forall r, t | r in funded
      ensures t in targets[r] <==> t.1 != "" && exists e :: e in active && e.route == r && t in e.targets
    {
      FundedOfMember(active, r, t);
    }
  }

  lemma FundedOfMember(active: seq<Evaluation>, r: Route, t: Target)
    ensures t in FundedOf(active, r) <==> t.1 != "" && exists e :: e in active && e.route == r && t in e.targets
  {
  }

  /** The next window's targets together with everything still published. */
  method TransitionalTargets(next: TargetMap, published: map<Route, set<Target>>) returns (wanted: TargetMap)
    ensures forall venue :: At(wanted, venue) == At(next, venue) + PublishedAt(published, venue)
  {
    wanted := next;
    var routes := published.Keys;
    while routes != {}
      invariant routes <= published.Keys
      invariant forall venue, token :: token in At(wanted, venue)
                  <==> token in At(next, venue)
                       || (token != "" && exists r :: r in published && r !in routes && (venue, token) in published[r])
    {
      var route :| route in routes;
      wanted := AddTargets(wanted, published[route]);
      routes := routes - {route};
    }
  }

  method AddTargets(m: TargetMap, targets: set<Target>) returns (wanted: TargetMap)
    ensures forall venue, token :: token in At(wanted, venue)
              <==> token in At(m, venue) || (token != "" && (venue, token) in targets)
  {
    wanted := m;
    var pending := targets;
    while pending != {}
      invariant pending <= targets
      invariant forall venue, token :: token in At(wanted, venue)
                  <==> token in At(m, venue) || (token != "" && (venue, token) in targets - pending)
    {
      var target :| target in pending;
      if target.1 != "" {
        wanted := wanted[target.0 := At(wanted, target.0) + {target.1}];
      }
      pending := pending - {target};
    }
  }

  /** Active targets joined with those of open positions. */
  method WithOpenPositions(active: TargetMap, open: TargetMap) returns (wanted: TargetMap)
    ensures forall venue :: At(wanted, venue) == At(active, venue) + At(open, venue)
  {
    wanted := active;
    var pending := open.Keys;
    while pending != {}
      invariant pending <= open.Keys
      invariant forall venue :: At(wanted, venue)
                  == At(active, venue) + (if venue in pending then {} else At(open, venue))
    {
      var venue :| venue in pending;
      wanted := wanted[venue := At(wanted, venue) + open[venue]];
      pending := pending - {venue};
    }
  }

  // ---------- The engine object ----------

  /**
   What one synchronisation does when the clients of the first `reached` venues accept it and
   the next one raises (`reached == |VENUES|` when none does).
   */
  ghost predicate Synchronised(before: TargetMap, after: TargetMap, active: TargetMap, open: TargetMap, reached: nat) {
    && reached <= |VENUES|
    && (forall i :: 0 <= i < |VENUES| ==>
          At(after, VENUES[i])
          == if i < reached then At(active, VENUES[i]) + At(open, VENUES[i]) else At(before, VENUES[i]))
    && (forall venue :: venue !in VENUES ==> At(after, venue) == At(before, venue))
  }

  class ArbitrageEngine {
    const scheduler: EvaluationScheduler
    const fundedRoutes: set<Route>
    var plannedSnapshot: Option<nat>
    var plannedGeneration: Option<nat>
    var entryTargets: TargetMap
    var syncedTargets: TargetMap
    var published: map<Route, set<Target>>

    ghost function State(): Engine
      reads this, scheduler
    {
      Engine(scheduler.State(), plannedSnapshot, plannedGeneration, entryTargets, syncedTargets, published)
    }

    constructor (s: EvaluationScheduler, funded: set<Route>)
      requires s.Valid() && s.State() == INITIAL
      ensures scheduler == s && fundedRoutes == funded
      ensures scheduler.Valid() && Initial(State(), funded)
    {
      scheduler, fundedRoutes := s, funded;
      plannedSnapshot, plannedGeneration := None, None;
      entryTargets, syncedTargets := map[], map[];
      published := map r | r in funded :: {};
    }

    /** _sync_market_data_targets; `reached` is where a client raised. */
    method SyncMarketDataTargets(active: TargetMap, open: TargetMap, reached: nat)
      requires reached <= |VENUES|
      modifies this`syncedTargets
      ensures Synchronised(old(syncedTargets), syncedTargets, active, open, reached)
    {
      var wanted := WithOpenPositions(active, open);
      var i := 0;
      while i < reached
        invariant i <= reached
        invariant forall j :: 0 <= j < |VENUES| ==>
                    At(syncedTargets, VENUES[j])
                    == if j < i then At(wanted, VENUES[j]) else At(old(syncedTargets), VENUES[j])
        invariant forall venue :: venue !in VENUES ==> At(syncedTargets, venue) == At(old(syncedTargets), venue)
      {
        var venue := VENUES[i];
        if At(wanted, venue) != At(syncedTargets, venue) {
          syncedTargets := syncedTargets[venue := At(wanted, venue)];
        }
        i := i + 1;
      }
    }

    /** From the start of a cycle to its first suspension point. */
    method BeginCycle(open: TargetMap, reached: nat)
      requires scheduler.Valid() && reached <= |VENUES|
      modifies this`syncedTargets
      ensures scheduler.Valid() && Begins(old(State()), State(), open, reached)
    {
      SyncMarketDataTargets(entryTargets, open, reached);
    }

    /**
     From the reconciliation of positions to the priming of the books: plan, select, and
     widen the subscriptions before anything is published.
     */
    method PrepareCycle(snapshot: nat, generation: Option<nat>, rebuilt: seq<Evaluation>, limit: int, now: real,
                        open: TargetMap, reached: nat)
      returns (nextEntry: TargetMap, nextFunded: map<Route, set<Target>>)
      requires scheduler.Valid() && DistinctPlan(rebuilt) && reached <= |VENUES|
      modifies this`syncedTargets, this`plannedSnapshot, this`plannedGeneration, scheduler
      ensures scheduler.Valid()
      ensures Prepares(scheduler.cfg, old(State()), State(), fundedRoutes, snapshot, generation, rebuilt, limit, now,
                       open, reached,
                       nextEntry, nextFunded)
    {
      hide Select, Inv, FundedMap, TokensAt, PublishedAt, Synchronised, DistinctPlan;
      ghost var before := State();
      if !(plannedSnapshot == Some(snapshot) && plannedGeneration == generation) {
        plannedSnapshot, plannedGeneration := Some(snapshot), generation;
        scheduler.SetPlannedEvaluations(rebuilt, false);
      }
      ghost var replanned := Replanned(before, snapshot, generation, rebuilt);
      assert State() == replanned;
      ValidPlan(scheduler);
      var active, target := scheduler.SelectEvaluationWindow(scheduler.planned, true, limit, now);
      nextFunded := FundedTargets(active, fundedRoutes);
      nextEntry := TargetsForEvaluations(target);
      EntryMapIsTokens(nextEntry, target);
      var transitional := TransitionalTargets(nextEntry, published);
      SyncMarketDataTargets(transitional, open, reached);
    }

    /** Publication: two assignments and a final sync, with no suspension point in between. */
    method PublishWindow(nextEntry: TargetMap, nextFunded: map<Route, set<Target>>, open: TargetMap, reached: nat)
      requires scheduler.Valid() && reached <= |VENUES|
      modifies this`entryTargets, this`published, this`syncedTargets
      ensures scheduler.Valid() && Publishes(old(State()), State(), nextEntry, nextFunded, open, reached)
    {
      entryTargets := nextEntry;
      published := nextFunded;
      SyncMarketDataTargets(entryTargets, open, reached);
    }
  }

  lemma ValidPlan(scheduler: EvaluationScheduler)
    requires scheduler.Valid()
    ensures DistinctPlan(scheduler.planned)
  {
  }

  lemma EntryMapIsTokens(m: TargetMap, evs: seq<Evaluation>)
    requires forall venue, token :: venue in m && token in m[venue]
               <==> token != "" && exists e <- evs :: (venue, token) in e.targets
    ensures forall venue :: At(m, venue) == TokensAt(evs, venue)
  {
    forall venue, token
      ensures token in At(m, venue) <==> token in TokensAt(evs, venue)
    {
      if token in TokensAt(evs, venue) {
        var e, t :| e in evs && t in e.targets && t.0 == venue && t.1 != "" && t.1 == token;
        assert t == (venue, token);
      }
    }
  }

  // ---------- The steps as relations on the engine's state ----------

  datatype Engine = Engine(
    sched: Sched,
    plannedSnapshot: Option<nat>,
    plannedGeneration: Option<nat>,
    entry: TargetMap,
    synced: TargetMap,
    published: map<Route, set<Target>>)

  ghost predicate Initial(e: Engine, funded: set<Route>) {
    e == Engine(INITIAL, None, None, map[], map[], map r | r in funded :: {})
  }

  ghost predicate Begins(e: Engine, e': Engine, open: TargetMap, reached: nat) {
    e' == e.(synced := e'.synced) && Synchronised(e.synced, e'.synced, e.entry, open, reached)
  }

  function Replanned(e: Engine, snapshot: nat, generation: Option<nat>, evs: seq<Evaluation>): Engine {
    if e.plannedSnapshot == Some(snapshot) && e.plannedGeneration == generation then e
    else e.(plannedSnapshot := Some(snapshot), plannedGeneration := generation,
            sched := SetPlanned(e.sched, evs, false))
  }

  ghost predicate Prepares(cfg: Config, e: Engine, e': Engine, funded: set<Route>, snapshot: nat,
                           generation: Option<nat>,
                           evs: seq<Evaluation>, limit: int, now: real, open: TargetMap, reached: nat,
                           nextEntry: TargetMap, nextFunded: map<Route, set<Target>>)
  {
    var planned := Replanned(e, snapshot, generation, evs);
    var out := Select(cfg, planned.sched, planned.sched.planned, true, limit, now);
    && nextFunded == FundedMap(out.active, funded)
    && (forall venue :: At(nextEntry, venue) == TokensAt(out.target, venue))
    && e' == planned.(sched := out.state, synced := e'.synced)
    && exists transitional: TargetMap ::
         && (forall venue :: At(transitional, venue) == At(nextEntry, venue) + PublishedAt(e.published, venue))
         && Synchronised(e.synced, e'.synced, transitional, open, reached)
  }

  ghost predicate Publishes(e: Engine, e': Engine, nextEntry: TargetMap, nextFunded: map<Route, set<Target>>,
                            open: TargetMap,
                            reached: nat)
  {
    && e' == e.(entry := nextEntry, published := nextFunded, synced := e'.synced)
    && Synchronised(e.synced, e'.synced, nextEntry, open, reached)
  }

  // ---------- The steps in the fields of the tables ----------

  /** Synchronising sets each venue before the raising one to its active and open tokens and leaves all others. */
  lemma SyncMeans(before: TargetMap, after: TargetMap, active: TargetMap, open: TargetMap, reached: nat, venue: Venue,
                  token: Token)
    requires Synchronised(before, after, active, open, reached)
    ensures var names := ["Polymarket", "Predict.fun", "SX Bet", "Myriad", "Opinion"];
            && reached <= 5
            && ((venue in after && token in after[venue])
                <==> if venue in names[..reached]
                     then (venue in active && token in active[venue]) || (venue in open && token in open[venue])
                     else venue in before && token in before[venue])
  {
    var names := ["Polymarket", "Predict.fun", "SX Bet", "Myriad", "Opinion"];
    assert VENUES == names;
    if venue in names[..reached] {
      var i :| 0 <= i < |names[..reached]| && names[..reached][i] == venue;
      assert VENUES[i] == venue;
    } else if venue in names {
      var i :| 0 <= i < |names| && names[i] == venue;
      assert names[i] !in names[..reached] && i >= reached;
      assert VENUES[i] == venue;
    }
    assert token in At(after, venue) <==> venue in after && token in after[venue];
  }

  /** The scheduler of an engine once the plan is that of the snapshot and the generation on offer. */
  lemma ReplannedIs(e: Engine, snapshot: nat, generation: Option<nat>, evs: seq<Evaluation>)
    ensures var p := Replanned(e, snapshot, generation, evs);
            && p.plannedSnapshot == Some(snapshot) && p.plannedGeneration == generation
            && p.entry == e.entry && p.synced == e.synced && p.published == e.published
            && p.sched == if e.plannedSnapshot == Some(snapshot) && e.plannedGeneration == generation then e.sched
                          else e.sched.(planned := evs, held := map[])
  {
  }

  /**
   Preparation keeps what is published. It selects from the plan on offer, funds on each funded route exactly the
   non-empty targets of the active evaluations, and enters exactly the non-empty targets of the target window.
   */
  lemma PrepareMeans(cfg: Config, e: Engine, e': Engine, funded: set<Route>, snapshot: nat, generation: Option<nat>,
                     evs: seq<Evaluation>, limit: int, now: real, open: TargetMap, reached: nat,
                     nextEntry: TargetMap, nextFunded: map<Route, set<Target>>)
    requires Prepares(cfg, e, e', funded, snapshot, generation, evs, limit, now, open, reached, nextEntry, nextFunded)
    ensures var current := e.plannedSnapshot == Some(snapshot) && e.plannedGeneration == generation;
            var sched := if current then e.sched else e.sched.(planned := evs, held := map[]);
            var out := Select(cfg, sched, sched.planned, true, limit, now);
            && nextFunded.Keys == funded
            && (forall r, t :: r in funded ==>
                  (t in nextFunded[r] <==> t.1 != "" && exists x :: x in out.active && x.route == r && t in x.targets))
            && (forall venue, token :: venue in nextEntry && token in nextEntry[venue]
                  <==> token != "" && exists x :: x in out.target && (venue, token) in x.targets)
            && e'.sched == out.state && e'.plannedSnapshot == Some(snapshot) && e'.plannedGeneration == generation
            && e'.entry == e.entry && e'.published == e.published
  {
    hide Select, PublishedAt, Synchronised, SetPlanned;
    ReplannedIs(e, snapshot, generation, evs);
    var sched := Replanned(e, snapshot, generation, evs).sched;
    var out := Select(cfg, sched, sched.planned, true, limit, now);
    forall r, t | r in funded
      ensures t in nextFunded[r] <==> t.1 != "" && exists x :: x in out.active && x.route == r && t in x.targets
    {
      FundedOfMember(out.active, r, t);
    }
    forall venue, token
      ensures venue in nextEntry && token in nextEntry[venue]
         <==> token != "" && exists x :: x in out.target && (venue, token) in x.targets
    {
      assert token in At(nextEntry, venue) <==> token in TokensAt(out.target, venue);
      TokensAtMember(out.target, venue, token);
    }
  }

  lemma TokensAtMember(evs: seq<Evaluation>, venue: Venue, token: Token)
    ensures token in TokensAt(evs, venue) <==> token != "" && exists e :: e in evs && (venue, token) in e.targets
  {
    if token != "" && exists e :: e in evs && (venue, token) in e.targets {
      var e :| e in evs && (venue, token) in e.targets;
      var t := (venue, token);
      assert e in evs && t in e.targets && t.0 == venue && t.1 != "";
    }
  }

  /**
   Preparation subscribes each venue before the raising one to the next window's tokens, everything still published
   and the open positions, and leaves the others.
   */
  lemma PrepareWidens(cfg: Config, e: Engine, e': Engine, funded: set<Route>, snapshot: nat, generation: Option<nat>,
                      evs: seq<Evaluation>, limit: int, now: real, open: TargetMap, reached: nat,
                      nextEntry: TargetMap, nextFunded: map<Route, set<Target>>, venue: Venue, token: Token)
    requires Prepares(cfg, e, e', funded, snapshot, generation, evs, limit, now, open, reached, nextEntry, nextFunded)
    ensures var names := ["Polymarket", "Predict.fun", "SX Bet", "Myriad", "Opinion"];
            && reached <= 5
            && ((venue in e'.synced && token in e'.synced[venue])
                <==> if venue in names[..reached] then
                       || (venue in nextEntry && token in nextEntry[venue])
                       || (token != "" && exists r :: r in e.published && (venue, token) in e.published[r])
                       || (venue in open && token in open[venue])
                     else venue in e.synced && token in e.synced[venue])
  {
    hide Select, PublishedAt, Synchronised, FundedMap, TokensAt, Replanned;
    var wide: TargetMap :|
      && (forall v :: At(wide, v) == At(nextEntry, v) + PublishedAt(e.published, v))
      && Synchronised(e.synced, e'.synced, wide, open, reached);
    SyncMeans(e.synced, e'.synced, wide, open, reached, venue, token);
    assert token in At(wide, venue) <==> token in At(nextEntry, venue) || token in PublishedAt(e.published, venue);
    PublishedAtMember(e.published, venue, token);
  }

  lemma PublishedAtMember(published: map<Route, set<Target>>, venue: Venue, token: Token)
    ensures token in PublishedAt(published, venue)
       <==> token != "" && exists r :: r in published && (venue, token) in published[r]
  {
    if token != "" && exists r :: r in published && (venue, token) in published[r] {
      var r :| r in published && (venue, token) in published[r];
      var t := (venue, token);
      assert r in published && t in published[r] && t.0 == venue && t.1 != "";
    }
  }

  /** Publication installs both tables and subscribes each venue before the raising one to entry and open tokens. */
  lemma PublishMeans(e: Engine, e': Engine, nextEntry: TargetMap, nextFunded: map<Route, set<Target>>, open: TargetMap,
                     reached: nat, venue: Venue, token: Token)
    requires Publishes(e, e', nextEntry, nextFunded, open, reached)
    ensures var names := ["Polymarket", "Predict.fun", "SX Bet", "Myriad", "Opinion"];
            && e' == e.(entry := nextEntry, published := nextFunded, synced := e'.synced)
            && reached <= 5
            && ((venue in e'.synced && token in e'.synced[venue])
                <==> if venue in names[..reached]
                     then (venue in nextEntry && token in nextEntry[venue]) || (venue in open && token in open[venue])
                     else venue in e.synced && token in e.synced[venue])
  {
    hide Synchronised;
    SyncMeans(e.synced, e'.synced, nextEntry, open, reached, venue, token);
  }

  /** The start of a cycle subscribes each venue before the raising one to the current entry and open tokens. */
  lemma BeginMeans(e: Engine, e': Engine, open: TargetMap, reached: nat, venue: Venue, token: Token)
    requires Begins(e, e', open, reached)
    ensures var names := ["Polymarket", "Predict.fun", "SX Bet", "Myriad", "Opinion"];
            && e' == e.(synced := e'.synced)
            && reached <= 5
            && ((venue in e'.synced && token in e'.synced[venue])
                <==> if venue in names[..reached]
                     then (venue in e.entry && token in e.entry[venue]) || (venue in open && token in open[venue])
                     else venue in e.synced && token in e.synced[venue])
  {
    hide Synchronised;
    SyncMeans(e.synced, e'.synced, e.entry, open, reached, venue, token);
  }

  // ---------- Runs ----------

  datatype Phase = Idle | Begun | Prepared(entry: TargetMap, funded: map<Route, set<Target>>)

  /** The engine between two suspension points, and what the market registry currently offers. */
  datatype Moment = Moment(engine: Engine, phase: Phase, snapshot: nat, generation: Option<nat>)

  datatype Action =
    | Begin(open: TargetMap, reached: nat)
    | Prepare(evs: seq<Evaluation>, limit: int, now: real, open: TargetMap, reached: nat)
    | Publish(open: TargetMap, reached: nat)
    | Abort
    | Mark(route: Route, key: Key, netSpread: real, at: real)
    | Refresh(snapshot: nat, generation: Option<nat>)

  /** A plan built from what the registry offers carries its snapshot and generation. */
  ghost predicate PlannedFrom(evs: seq<Evaluation>, snapshot: nat, generation: Option<nat>) {
    forall e <- evs :: e.run.snapshot == snapshot && e.run.generation == generation
  }

  /**
   One atomic stretch of the engine, an exception or cancellation at a suspension point
   (Abort), a recency mark, or a registry change: a publication or a failure bumps the generation,
       staleness alone does not.
   */
  ghost predicate Next(cfg: Config, funded: set<Route>, m: Moment, m': Moment, action: Action) {
    match action
    case Begin(open, reached) =>
      && m.phase.Idle? && Begins(m.engine, m'.engine, open, reached)
      && m' == m.(engine := m'.engine, phase := if reached == |VENUES| then Begun else Idle)
    case Prepare(evs, limit, now, open, reached) =>
      && m.phase.Begun? && DistinctPlan(evs) && PlannedFrom(evs, m.snapshot, m.generation)
      && exists entry, nextFunded ::
           && Prepares(cfg, m.engine, m'.engine, funded, m.snapshot, m.generation, evs, limit, now, open, reached,
                       entry, nextFunded)
           && m' == m.(engine := m'.engine, phase := if reached == |VENUES| then Prepared(entry, nextFunded) else Idle)
    case Publish(open, reached) =>
      && m.phase.Prepared? && Publishes(m.engine, m'.engine, m.phase.entry, m.phase.funded, open, reached)
      && m' == m.(engine := m'.engine, phase := Idle)
    case Abort =>
      m' == m.(phase := Idle)
    case Mark(route, key, netSpread, at) =>
      m' == m.(engine := m.engine.(sched := MarkRecent(m.engine.sched, route, key, netSpread, at)))
    case Refresh(snapshot, generation) =>
      m' == m.(snapshot := snapshot, generation := generation)
  }

  ghost predicate Behaviour(cfg: Config, funded: set<Route>, moments: seq<Moment>, actions: seq<Action>) {
    && |moments| == |actions| + 1
    && Initial(moments[0].engine, funded) && moments[0].phase.Idle?
    && forall i :: 0 <= i < |actions| ==> Next(cfg, funded, moments[i], moments[i + 1], actions[i])
  }

  // ---------- Safety ----------

  /** What readers rely on: a published token is one its venue's client is subscribed to. */
  ghost predicate Safe(e: Engine) {
    forall venue <- VENUES :: PublishedAt(e.published, venue) <= At(e.synced, venue)
  }

  /** Nothing is ever subscribed under a label that is none of the five venues. */
  ghost predicate NoOtherLabels(synced: TargetMap) {
    forall venue :: venue !in VENUES ==> At(synced, venue) == {}
  }

  lemma SyncKeepsLabels(before: TargetMap, after: TargetMap, active: TargetMap, open: TargetMap, reached: nat)
    requires NoOtherLabels(before) && Synchronised(before, after, active, open, reached)
    ensures NoOtherLabels(after)
  {
  }

  ghost predicate MomentInv(m: Moment) {
    && Inv(m.engine.sched)
    && Safe(m.engine)
    && NoOtherLabels(m.engine.synced)
    && (forall venue <- VENUES :: PublishedAt(m.engine.published, venue) <= At(m.engine.entry, venue))
    && (m.phase.Prepared? ==> forall venue <- VENUES ::
          && PublishedAt(m.phase.funded, venue) <= At(m.phase.entry, venue)
          && At(m.phase.entry, venue) <= At(m.engine.synced, venue))
    && (m.engine.plannedSnapshot.Some? ==>
          PlannedFrom(m.engine.sched.planned, m.engine.plannedSnapshot.value, m.engine.plannedGeneration))
    && (m.engine.plannedSnapshot.None? ==> m.engine.sched.planned == [])
  }

  /** Funded tokens come from active evaluations, hence from the target window. */
  lemma FundedWithinEntry(active: seq<Evaluation>, target: seq<Evaluation>, funded: set<Route>, venue: Venue)
    requires Within(active, target)
    ensures PublishedAt(FundedMap(active, funded), venue) <= TokensAt(target, venue)
  {
    var published := FundedMap(active, funded);
    forall token | token in PublishedAt(published, venue)
      ensures token in TokensAt(target, venue)
    {
      var r: Route, t: Target :| r in published && t in published[r] && t.0 == venue && t.1 != "" && t.1 == token;
      var e :| e in active && e.route == r && t in e.targets;
      assert e in target;
    }
  }

  lemma BeginKeepsInv(m: Moment, m': Moment, open: TargetMap, reached: nat)
    requires MomentInv(m) && Begins(m.engine, m'.engine, open, reached)
    requires m' == m.(engine := m'.engine, phase := m'.phase) && !m'.phase.Prepared?
    ensures MomentInv(m')
  {
    forall venue | venue in VENUES
      ensures PublishedAt(m'.engine.published, venue) <= At(m'.engine.synced, venue)
    {
      var i :| 0 <= i < |VENUES| && VENUES[i] == venue;
    }
  }

  lemma ReplannedKeepsInv(e: Engine, snapshot: nat, generation: Option<nat>, evs: seq<Evaluation>)
    requires Inv(e.sched) && DistinctPlan(evs) && PlannedFrom(evs, snapshot, generation)
    requires e.plannedSnapshot.Some? ==> PlannedFrom(e.sched.planned, e.plannedSnapshot.value, e.plannedGeneration)
    ensures var p := Replanned(e, snapshot, generation, evs);
            Inv(p.sched) && PlannedFrom(p.sched.planned, snapshot, generation)
  {
    PlanKeepsInv(e.sched, evs, false);
  }

  /** What a cycle's selection guarantees for publication. */
  lemma SelectionFacts(cfg: Config, s: Sched, funded: set<Route>, limit: int, now: real)
    requires cfg.Valid() && Inv(s)
    ensures var out := Select(cfg, s, s.planned, true, limit, now);
            && Inv(out.state) && out.state.planned == s.planned
            && forall venue :: PublishedAt(FundedMap(out.active, funded), venue) <= TokensAt(out.target, venue)
  {
    hide Select, Inv;
    var out := Select(cfg, s, s.planned, true, limit, now);
    SelectKeepsInv(cfg, s, limit, now);
    SelectKeepsPlan(cfg, s, limit, now);
    InvMeans(s);
    ActiveWithinTarget(cfg, s, s.planned, true, limit, now);
    forall venue
      ensures PublishedAt(FundedMap(out.active, funded), venue) <= TokensAt(out.target, venue)
    {
      FundedWithinEntry(out.active, out.target, funded, venue);
    }
  }

  /** The widened subscription covers the published tokens, and the next window once it is complete. */
  lemma WidenedCovers(before: TargetMap, after: TargetMap, next: TargetMap, published: map<Route, set<Target>>,
                      wide: TargetMap, open: TargetMap, reached: nat, venue: Venue)
    requires venue in VENUES && PublishedAt(published, venue) <= At(before, venue)
    requires forall v :: At(wide, v) == At(next, v) + PublishedAt(published, v)
    requires Synchronised(before, after, wide, open, reached)
    ensures PublishedAt(published, venue) <= At(after, venue)
    ensures reached == |VENUES| ==> At(next, venue) <= At(after, venue)
  {
    var i :| 0 <= i < |VENUES| && VENUES[i] == venue;
  }

  lemma PrepareKeepsInv(cfg: Config, funded: set<Route>, m: Moment, m': Moment, evs: seq<Evaluation>, limit: int,
                        now: real,
                        open: TargetMap, reached: nat, entry: TargetMap, nextFunded: map<Route, set<Target>>)
    requires cfg.Valid() && MomentInv(m) && DistinctPlan(evs) && PlannedFrom(evs, m.snapshot, m.generation)
    requires Prepares(cfg, m.engine, m'.engine, funded, m.snapshot, m.generation, evs, limit, now, open, reached, entry,
                      nextFunded)
    requires m' == m.(engine := m'.engine, phase := if reached == |VENUES| then Prepared(entry, nextFunded) else Idle)
    ensures MomentInv(m')
  {
    hide Select, Inv, PublishedAt, TokensAt, FundedMap, Synchronised, DistinctPlan, NoOtherLabels;
    var p := Replanned(m.engine, m.snapshot, m.generation, evs);
    ReplannedKeepsInv(m.engine, m.snapshot, m.generation, evs);
    SelectionFacts(cfg, p.sched, funded, limit, now);
    var transitional: TargetMap :|
      && (forall venue :: At(transitional, venue) == At(entry, venue) + PublishedAt(m.engine.published, venue))
      && Synchronised(m.engine.synced, m'.engine.synced, transitional, open, reached);
    SyncKeepsLabels(m.engine.synced, m'.engine.synced, transitional, open, reached);
    forall venue | venue in VENUES
      ensures PublishedAt(m.engine.published, venue) <= At(m'.engine.synced, venue)
      ensures PublishedAt(nextFunded, venue) <= At(entry, venue)
      ensures reached == |VENUES| ==> At(entry, venue) <= At(m'.engine.synced, venue)
    {
      WidenedCovers(m.engine.synced, m'.engine.synced, entry, m.engine.published, transitional, open, reached, venue);
    }
  }

  lemma InvMeans(s: Sched)
    requires Inv(s)
    ensures DistinctPlan(s.planned) && CacheCoherent(s)
  {
  }

  lemma SelectKeepsPlan(cfg: Config, s: Sched, limit: int, now: real)
    ensures Select(cfg, s, s.planned, true, limit, now).state.planned == s.planned
  {
    StepKeepsPlan(cfg, s, Cycle(limit, now));
  }

  lemma PublishKeepsInv(m: Moment, m': Moment, open: TargetMap, reached: nat)
    requires MomentInv(m) && m.phase.Prepared?
    requires Publishes(m.engine, m'.engine, m.phase.entry, m.phase.funded, open, reached)
    requires m' == m.(engine := m'.engine, phase := Idle)
    ensures MomentInv(m')
  {
    forall venue | venue in VENUES
      ensures PublishedAt(m'.engine.published, venue) <= At(m'.engine.synced, venue)
    {
      var i :| 0 <= i < |VENUES| && VENUES[i] == venue;
    }
  }

  lemma NextKeepsInv(cfg: Config, funded: set<Route>, m: Moment, m': Moment, action: Action)
    requires cfg.Valid() && MomentInv(m) && Next(cfg, funded, m, m', action)
    ensures MomentInv(m')
  {
    hide Prepares, Synchronised, Inv;
    match action
    case Begin(open, reached) => BeginKeepsInv(m, m', open, reached);
    case Prepare(evs, limit, now, open, reached) =>
      var entry, nextFunded :|
        && Prepares(cfg, m.engine, m'.engine, funded, m.snapshot, m.generation, evs, limit, now, open, reached, entry,
                    nextFunded)
        && m' == m.(engine := m'.engine, phase := if reached == |VENUES| then Prepared(entry, nextFunded) else Idle);
      PrepareKeepsInv(cfg, funded, m, m', evs, limit, now, open, reached, entry, nextFunded);
    case Publish(open, reached) => PublishKeepsInv(m, m', open, reached);
    case Abort =>
    case Mark(route, key, netSpread, at) =>
      StepKeepsView(m.engine.sched, m'.engine.sched);
    case Refresh(snapshot, generation) =>
  }

  lemma InitialInv(m: Moment, funded: set<Route>)
    requires Initial(m.engine, funded) && m.phase.Idle?
    ensures MomentInv(m)
  {
    forall venue
      ensures PublishedAt(m.engine.published, venue) == {}
    {
    }
  }

  lemma BehaviourStarts(cfg: Config, funded: set<Route>, moments: seq<Moment>, actions: seq<Action>)
    requires Behaviour(cfg, funded, moments, actions)
    ensures moments != [] && Initial(moments[0].engine, funded) && moments[0].phase.Idle?
  {
    hide Next, Initial;
  }

  lemma BehaviourSteps(cfg: Config, funded: set<Route>, moments: seq<Moment>, actions: seq<Action>, i: nat)
    requires Behaviour(cfg, funded, moments, actions) && i + 1 < |moments|
    ensures i < |actions| && Next(cfg, funded, moments[i], moments[i + 1], actions[i])
  {
    hide Next, Initial;
  }

  lemma MomentMeans(m: Moment)
    requires MomentInv(m)
    ensures var e, names := m.engine, ["Polymarket", "Predict.fun", "SX Bet", "Myriad", "Opinion"];
            && (forall r, t :: r in e.published && t in e.published[r] && t.0 in names && t.1 != "" ==>
                  t.0 in e.synced && t.1 in e.synced[t.0])
            && (forall venue :: venue in e.synced && e.synced[venue] != {} ==> venue in names)
  {
    var e, names := m.engine, ["Polymarket", "Predict.fun", "SX Bet", "Myriad", "Opinion"];
    assert VENUES == names;
    forall r, t | r in e.published && t in e.published[r] && t.0 in names && t.1 != ""
      ensures t.0 in e.synced && t.1 in e.synced[t.0]
    {
      assert t.1 in PublishedAt(e.published, t.0) && t.1 in At(e.synced, t.0);
    }
    forall venue | venue in e.synced && e.synced[venue] != {}
      ensures venue in names
    {
      assert At(e.synced, venue) != {};
    }
  }

  /**
   Publication safety: at every suspension point of every behaviour, whatever raises or is
   cancelled, every published funded token of a venue is one its client is subscribed to, and nothing
   is subscribed under any other label.
   */
  lemma {:induction false} PublishedIsSynced(cfg: Config, funded: set<Route>, moments: seq<Moment>,
                                             actions: seq<Action>, i: nat)
    requires cfg.Valid() && Behaviour(cfg, funded, moments, actions) && i < |moments|
    ensures MomentInv(moments[i])
    ensures var e, names := moments[i].engine, ["Polymarket", "Predict.fun", "SX Bet", "Myriad", "Opinion"];
            && (forall r, t :: r in e.published && t in e.published[r] && t.0 in names && t.1 != "" ==>
                  t.0 in e.synced && t.1 in e.synced[t.0])
            && (forall venue :: venue in e.synced && e.synced[venue] != {} ==> venue in names)
  {
    hide Behaviour, MomentInv, Next, Initial;
    if i == 0 {
      BehaviourStarts(cfg, funded, moments, actions);
      InitialInv(moments[0], funded);
    } else {
      BehaviourSteps(cfg, funded, moments, actions, i - 1);
      PublishedIsSynced(cfg, funded, moments, actions, i - 1);
      NextKeepsInv(cfg, funded, moments[i - 1], moments[i], actions[i - 1]);
    }
    MomentMeans(moments[i]);
  }

  /**
   Freshness: whatever a cycle selects in any behaviour was planned from the snapshot and
   the registry generation on offer at that moment.
   */
  lemma SelectedIsCurrent(cfg: Config, funded: set<Route>, moments: seq<Moment>, actions: seq<Action>, i: nat)
    requires cfg.Valid() && Behaviour(cfg, funded, moments, actions) && i < |actions| && actions[i].Prepare?
    ensures var m, a := moments[i], actions[i];
            var current := m.engine.plannedSnapshot == Some(m.snapshot) && m.engine.plannedGeneration == m.generation;
            var s := if current then m.engine.sched else m.engine.sched.(planned := a.evs, held := map[]);
            var out := Select(cfg, s, s.planned, true, a.limit, a.now);
            && (forall e <- out.active :: e.run.snapshot == m.snapshot && e.run.generation == m.generation)
            && (forall e <- out.target :: e.run.snapshot == m.snapshot && e.run.generation == m.generation)
  {
    var m, a := moments[i], actions[i];
    PublishedIsSynced(cfg, funded, moments, actions, i);
    assert Next(cfg, funded, m, moments[i + 1], a);
    var p := Replanned(m.engine, m.snapshot, m.generation, a.evs);
    ReplannedKeepsInv(m.engine, m.snapshot, m.generation, a.evs);
    ReplannedIs(m.engine, m.snapshot, m.generation, a.evs);
    InvMeans(p.sched);
    ActiveWithinTarget(cfg, p.sched, p.sched.planned, true, a.limit, a.now);
  }
}
