/**
 The latency-calibration history (engine.py:245-293): observations are kept in a deque that
 is pruned from the front; the reference for an adverse move must be the one the unpruned
 history would give.
 */
module CalibrationHistory {
  import opened Collections

  type MarketKey = (string, string)

  /** Two book observations and two pool observations; absent parts are all-None. */
  datatype BookKey = BookKey(timestamp: Option<real>, sequence: Option<int>, checksum: Option<string>)
  datatype PoolKey = PoolKey(yesReserve: Option<real>, noReserve: Option<real>, feePct: Option<real>)
  datatype ObservationKey = ObservationKey(firstBook: BookKey, secondBook: BookKey, firstPool: PoolKey,
                                           secondPool: PoolKey)

  datatype Observed = Observed(at: real, spread: real)

  function Retention(horizon: real): real {
    MaxReal(30.0, horizon * 2.0)
  }

  /** Drops observations from the front while they are older than the cutoff. */
  function DropOld(history: seq<Observed>, cutoff: real): seq<Observed> {
    if history != [] && history[0].at < cutoff then DropOld(history[1..], cutoff) else history
  }

  /** The spread of the last observation not younger than the cutoff allows. */
  function LastBefore(history: seq<Observed>, cutoff: real): Option<real> {
    if history == [] then None
    else if history[|history| - 1].at <= cutoff then Some(history[|history| - 1].spread)
    else LastBefore(history[..|history| - 1], cutoff)
  }

  /** The specification: the latest recorded observation in [now - retention, now - horizon]. */
  function Reference(full: seq<Observed>, now: real, horizon: real): Option<real> {
    if full == [] then None
    else
      var o := full[|full| - 1];
      if now - Retention(horizon) <= o.at <= now - horizon then Some(o.spread)
      else Reference(full[..|full| - 1], now, horizon)
  }

  function AdverseMove(reference: Option<real>, spread: real): Option<real> {
    match reference
    case None => None
    case Some(r) => Some(MaxReal(0.0, r - spread))
  }

  /** An adverse move is how far the spread fell from the reference, never negative. */
  lemma AdverseMoveIs(reference: Option<real>, spread: real)
    ensures reference.None? ==> AdverseMove(reference, spread).None?
    ensures reference.Some? ==>
              && AdverseMove(reference, spread).Some?
              && (spread <= reference.value ==> spread + AdverseMove(reference, spread).value == reference.value)
              && (spread >= reference.value ==> AdverseMove(reference, spread).value == 0.0)
  {
  }

  ghost predicate Chronological(history: seq<Observed>) {
    forall i, j :: 0 <= i <= j < |history| ==> history[i].at <= history[j].at
  }

  ghost predicate NotAfter(history: seq<Observed>, now: real) {
    forall i :: 0 <= i < |history| ==> history[i].at <= now
  }

  /** `kept` is what remains of `full` after dropping observations older than `cutoff`. */
  ghost predicate PrunedFrom(kept: seq<Observed>, full: seq<Observed>, cutoff: real) {
    && |kept| <= |full|
    && kept == full[|full| - |kept|..]
    && forall i :: 0 <= i < |full| - |kept| ==> full[i].at < cutoff
  }

  lemma {:induction false} DropOldIsPruning(history: seq<Observed>, cutoff: real)
    ensures PrunedFrom(DropOld(history, cutoff), history, cutoff)
    ensures Chronological(history) ==> forall o <- DropOld(history, cutoff) :: cutoff <= o.at
  {
    if history != [] && history[0].at < cutoff {
      var tail := history[1..];
      DropOldIsPruning(tail, cutoff);
      var kept := DropOld(tail, cutoff);
      forall i | 0 <= i < |history| - |kept|
        ensures history[i].at < cutoff
      {
        if i > 0 {
          assert history[i] == tail[i - 1];
        }
      }
      assert Chronological(history) ==> Chronological(tail);
    }
  }

  lemma PruneAgain(kept: seq<Observed>, full: seq<Observed>, cutoff: real, later: real)
    requires PrunedFrom(kept, full, cutoff) && cutoff <= later
    ensures PrunedFrom(DropOld(kept, later), full, later)
  {
    DropOldIsPruning(kept, later);
    var again := DropOld(kept, later);
    var gone := |full| - |kept|;
    forall i | 0 <= i < |full| - |again|
      ensures full[i].at < later
    {
      if i >= gone {
        assert full[i] == kept[i - gone];
      }
    }
  }

  /** Observations outside the retention window never serve as reference. */
  lemma {:induction false} ReferenceSkipsOld(full: seq<Observed>, now: real, horizon: real)
    requires forall i :: 0 <= i < |full| ==> full[i].at < now - Retention(horizon)
    ensures Reference(full, now, horizon) == None
  {
    if full != [] {
      ReferenceSkipsOld(full[..|full| - 1], now, horizon);
    }
  }

  /**
   Pruning never changes the answer: searching the pruned deque backwards finds exactly the
   latest recorded observation of the full history within the window.
   */
  lemma {:induction false} PrunedReference(kept: seq<Observed>, full: seq<Observed>, now: real, horizon: real)
    requires Chronological(full)
    requires PrunedFrom(kept, full, now - Retention(horizon))
    requires forall o <- kept :: now - Retention(horizon) <= o.at
    ensures LastBefore(kept, now - horizon) == Reference(full, now, horizon)
    decreases |kept|
  {
    if kept == [] {
      ReferenceSkipsOld(full, now, horizon);
    } else {
      var front := full[..|full| - 1];
      assert kept[|kept| - 1] == full[|full| - 1];
      if full[|full| - 1].at > now - horizon {
        var shorter := kept[..|kept| - 1];
        assert shorter == front[|front| - |shorter|..];
        PrunedReference(shorter, front, now, horizon);
      } else {
        assert full[|full| - 1] in kept;
      }
    }
  }

  /** Observations are kept for twice the horizon, and for thirty seconds at least. */
  lemma RetentionIs(horizon: real)
    ensures Retention(horizon) == if horizon >= 15.0 then 2.0 * horizon else 30.0
  {
  }

  /**
   The reference is the spread of the latest observation that is at least the horizon and at most the retention
   time old: nothing recorded after it is.
   */
  lemma {:induction false} ReferenceIsLatest(full: seq<Observed>, now: real, horizon: real)
    ensures var oldest := now - if horizon >= 15.0 then 2.0 * horizon else 30.0;
            match Reference(full, now, horizon)
            case None => forall o <- full :: !(oldest <= o.at <= now - horizon)
            case Some(spread) =>
              exists i :: 0 <= i < |full| && full[i].spread == spread && oldest <= full[i].at <= now - horizon
                && forall j :: i < j < |full| ==> !(oldest <= full[j].at <= now - horizon)
  {
    RetentionIs(horizon);
    hide Retention;
    if full != [] {
      var front, last := full[..|full| - 1], full[|full| - 1];
      assert full == front + [last];
      if !(now - Retention(horizon) <= last.at <= now - horizon) {
        ReferenceIsLatest(front, now, horizon);
        if Reference(front, now, horizon).Some? {
          var i :| 0 <= i < |front| && front[i].spread == Reference(front, now, horizon).value
            && now - Retention(horizon) <= front[i].at <= now - horizon
            && forall j :: i < j < |front| ==> !(now - Retention(horizon) <= front[j].at <= now - horizon);
          assert full[i] == front[i];
          assert forall j :: i < j < |front| ==> full[j] == front[j];
        }
      } else {
        assert full[|full| - 1].spread == last.spread;
      }
    }
  }

  /** The pruning loop. */
  method PopOld(history: seq<Observed>, cutoff: real) returns (kept: seq<Observed>)
    ensures kept == DropOld(history, cutoff)
  {
    kept := history;
    while kept != [] && kept[0].at < cutoff
      invariant DropOld(kept, cutoff) == DropOld(history, cutoff)
      decreases |kept|
    {
      kept := kept[1..];
    }
  }

  /** The backward search. */
  method SearchBackwards(history: seq<Observed>, cutoff: real) returns (reference: Option<real>)
    ensures reference == LastBefore(history, cutoff)
  {
    var i := |history|;
    assert history[..i] == history;
    while i > 0
      invariant i <= |history|
      invariant LastBefore(history[..i], cutoff) == LastBefore(history, cutoff)
    {
      if history[i - 1].at <= cutoff {
        return Some(history[i - 1].spread);
      }
      assert history[..i][..i - 1] == history[..i - 1];
      i := i - 1;
    }
    reference := None;
  }

  /** What the deque of one key must be at time `clock`, given the full history. */
  ghost predicate Tracked(kept: seq<Observed>, full: seq<Observed>, clock: real, horizon: real) {
    && Chronological(full) && NotAfter(full, clock)
    && PrunedFrom(kept, full, clock - Retention(horizon))
  }

  lemma TrackedLater(kept: seq<Observed>, full: seq<Observed>, before: real, now: real, horizon: real)
    requires Tracked(kept, full, before, horizon) && before <= now
    ensures Tracked(kept, full, now, horizon)
  {
  }

  lemma SuffixChronological(kept: seq<Observed>, full: seq<Observed>, cutoff: real)
    requires Chronological(full) && PrunedFrom(kept, full, cutoff)
    ensures Chronological(kept)
  {
    var gone := |full| - |kept|;
    forall i, j | 0 <= i <= j < |kept|
      ensures kept[i].at <= kept[j].at
    {
      assert kept[i] == full[gone + i] && kept[j] == full[gone + j];
    }
  }

  lemma AppendTracked(kept: seq<Observed>, full: seq<Observed>, now: real, horizon: real, o: Observed)
    requires Tracked(kept, full, now, horizon) && o.at == now
    ensures Tracked(kept + [o], full + [o], now, horizon)
  {
    assert (full + [o])[|full| - |kept|..] == kept + [o];
  }

  lemma DroppedTracked(kept: seq<Observed>, full: seq<Observed>, now: real, horizon: real)
    requires Tracked(kept, full, now, horizon)
    ensures var again := DropOld(kept, now - Retention(horizon));
            Tracked(again, full, now, horizon) && forall o <- again :: now - Retention(horizon) <= o.at
  {
    hide Chronological, NotAfter, PrunedFrom, DropOld, Retention;
    var cutoff := now - Retention(horizon);
    SuffixChronological(kept, full, cutoff);
    PruneAgain(kept, full, cutoff, cutoff);
    DropOldIsPruning(kept, cutoff);
  }

  /** A recording judges by the full history and leaves the deque tracking it. */
  lemma RecordingTracks(kept: seq<Observed>, full: seq<Observed>, now: real, horizon: real, o: Observed)
    requires Tracked(kept, full, now, horizon) && o.at == now
    ensures var again := DropOld(kept, now - Retention(horizon));
            && LastBefore(again, now - horizon) == Reference(full, now, horizon)
            && Tracked(again + [o], full + [o], now, horizon)
  {
    hide Chronological, NotAfter, PrunedFrom, DropOld, Retention, LastBefore, Reference;
    DroppedTracked(kept, full, now, horizon);
    PrunedReference(DropOld(kept, now - Retention(horizon)), full, now, horizon);
    AppendTracked(DropOld(kept, now - Retention(horizon)), full, now, horizon, o);
  }

  /** The recorder; one fixed horizon per route, `recorded` is the history nothing was ever dropped from. */
  class CalibrationRecorder {
    const horizons: map<string, real>
    const defaultHorizon: real
    var history: map<MarketKey, seq<Observed>>
    var lastObservation: map<MarketKey, ObservationKey>
    var clock: real
    ghost var recorded: map<MarketKey, seq<Observed>>

    function HorizonFor(route: string): real {
      if route in horizons then horizons[route] else defaultHorizon
    }

    ghost predicate Valid()
      reads this
    {
      && (forall route :: HorizonFor(route) >= 0.001)
      && recorded.Keys == history.Keys
      && forall key <- history :: Tracked(history[key], recorded[key], clock, HorizonFor(key.0))
    }

    ghost function Full(key: MarketKey): seq<Observed>
      reads this
    {
      if key in recorded then recorded[key] else []
    }

    constructor (horizonByRoute: map<string, real>, fallback: real, start: real)
      requires fallback >= 0.001 && forall route <- horizonByRoute :: horizonByRoute[route] >= 0.001
      ensures Valid() && recorded == map[] && clock == start
    {
      horizons, defaultHorizon := horizonByRoute, fallback;
      history, lastObservation, clock := map[], map[], start;
      recorded := map[];
    }

    /**
     _record_route_calibration; the result is what the calibration observer is told. A repeated
     observation changes nothing; a new one is judged against the full history and recorded.
     */
    method Record(route: string, marketKey: string, spread: real, observation: ObservationKey, now: real)
      returns (adverse: Option<real>)
      requires Valid() && clock <= now
      modifies this`history, this`lastObservation, this`clock, this`recorded
      ensures Valid() && clock == now
      ensures var key := (route, marketKey);
              if key in old(lastObservation) && old(lastObservation)[key] == observation then
                adverse == None && recorded == old(recorded) && lastObservation == old(lastObservation)
              else
                && adverse == AdverseMove(Reference(old(Full(key)), now, if route in horizons then horizons[route]
                                                                         else defaultHorizon), spread)
                && recorded == old(recorded)[key := old(Full(key)) + [Observed(now, spread)]]
                && lastObservation == old(lastObservation)[key := observation]
    {
      hide Tracked, Reference, LastBefore, DropOld, Retention;
      var key := (route, marketKey);
      forall k | k in history
        ensures Tracked(history[k], recorded[k], now, HorizonFor(k.0))
      {
        TrackedLater(history[k], recorded[k], clock, now, HorizonFor(k.0));
      }
      clock := now;
      if key in lastObservation && lastObservation[key] == observation {
        return None;
      }
      lastObservation := lastObservation[key := observation];
      var horizon := HorizonFor(route);
      var kept := if key in history then history[key] else [];
      ghost var full := Full(key);
      NothingTracked(now, horizon);
      RecordingTracks(kept, full, now, horizon, Observed(now, spread));
      kept := PopOld(kept, now - Retention(horizon));
      var reference := SearchBackwards(kept, now - horizon);
      history := history[key := kept + [Observed(now, spread)]];
      recorded := recorded[key := full + [Observed(now, spread)]];
      adverse := AdverseMove(reference, spread);
    }
  }

  lemma NothingTracked(now: real, horizon: real)
    ensures Tracked([], [], now, horizon)
  {
  }
}
