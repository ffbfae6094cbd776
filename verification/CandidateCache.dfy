/**
 Exactly when the signature cache is transparent: for which candidates every run that skips cached
 signatures leaves the tables of the run that upserts everything, with runs that tell otherwise.
 */
module CandidateCache {
  import opened Collections
  import opened Text
  import opened MarketCandidates
  import opened MappingLifecycle

  // ---------- Small runs ----------

  lemma Extend(events: seq<Event>, e: Event)
    ensures Run(events + [e]) == Apply(Run(events), e)
    ensures PlainRun(events + [e]) == PlainApply(PlainRun(events), e)
  {
    hide Apply, PlainApply;
    assert (events + [e])[..|events|] == events;
  }

  lemma UpsertOne(t: Tables, c: Item, now: int)
    ensures UpsertAll(t, [c], false, now) == Upsert(t, c, false, now)
  {
    hide Upsert;
    assert [c][..0] == [];
  }

  lemma UpsertTwo(t: Tables, c: Item, d: Item, now: int)
    ensures UpsertAll(t, [c, d], false, now) == Upsert(Upsert(t, c, false, now), d, false, now)
  {
    hide Upsert;
    assert [c, d][..1] == [c];
    UpsertOne(t, c, now);
  }

  /** A batch of one candidate, cached or not. */
  lemma ApplyOne(st: State, c: Item, now: int)
    ensures Apply(st, Batch([c], false, now))
         == if Cached(st.cache, c) then st
            else State(Upsert(st.tables, c, false, now), st.cache[CacheKeyOf(c) := SignatureOf(c)])
  {
    hide Upsert, CacheKeyOf, SignatureOf, Cached;
    assert [c][..0] == [];
    assert Prepared(st.cache, [], false) == [] && Remember(st.cache, []) == st.cache
        && UpsertAll(st.tables, [], false, now) == st.tables;
    assert Prepared(st.cache, [c], false) == if Cached(st.cache, c) then [] else [c];
    UpsertOne(st.tables, c, now);
  }

  function One(c: Item): Event {
    Batch([c], false, 0)
  }

  lemma AfterOne(c: Item)
    ensures Run([One(c)]) == State(Upsert(START.tables, c, false, 0), map[CacheKeyOf(c) := SignatureOf(c)])
    ensures PlainRun([One(c)]) == Upsert(START.tables, c, false, 0)
  {
    hide Upsert, CacheKeyOf, SignatureOf;
    Extend([], One(c));
    assert [] + [One(c)] == [One(c)] && Run([]) == START && PlainRun([]) == START.tables;
    ApplyOne(START, c, 0);
    UpsertOne(START.tables, c, 0);
  }

  // ---------- Three runs that tell ----------

  function Repeated(c: Item, d: Item): seq<Event> {
    [One(c), One(d)]
  }

  /** Skipping a candidate after another of its cache key and signature is harmless iff that one may stand for it. */
  lemma SkipIsHarmlessIff(c: Item, d: Item)
    requires c.Valid() && d.Valid() && Alike(c, d)
    ensures Run(Repeated(c, d)).tables == PlainRun(Repeated(c, d)) <==> Replaces(c, d)
  {
    hide Upsert, CacheKeyOf, SignatureOf, Settled, Replaces, Apply, UpsertAll, Run, PlainRun;
    var t := Upsert(START.tables, c, false, 0);
    AfterOne(c);
    Extend([One(c)], One(d));
    assert [One(c)] + [One(d)] == Repeated(c, d);
    ApplyOne(Run([One(c)]), d, 0);
    UpsertOne(t, d, 0);
    NoChangeIff(t, d, 0);
    UpsertSettles(START.tables, c, false, 0);
    if Settled(t, d) {
      FirstWriteTells(c, d, 0);
    }
    if Replaces(c, d) {
      ReplacesSettles(t, c, d);
    }
  }

  lemma ThenSettledIff(c: Item, d: Item)
    requires c.Valid() && d.Valid()
    ensures Settled(Upsert(Upsert(START.tables, c, false, 0), d, false, 0), c) <==> Compatible(c, d)
  {
    hide Upsert, Settled, Compatible;
    var t := Upsert(START.tables, c, false, 0);
    UpsertSettles(START.tables, c, false, 0);
    UpsertSettles(t, d, false, 0);
    if Compatible(c, d) {
      CompatibleKeepsSettled(t, c, d, false, 0);
    }
    if Settled(Upsert(t, d, false, 0), c) {
      BothSettledAgree(Upsert(t, d, false, 0), c, d);
    }
  }

  function Returning(c: Item, d: Item): seq<Event> {
    [One(c), One(d), One(c)]
  }

  /** A candidate that returns after one of another cache key is rightly skipped iff the two agree on shared rows. */
  lemma ReturnIsHarmlessIff(c: Item, d: Item)
    requires c.Valid() && d.Valid() && CacheKeyOf(c) != CacheKeyOf(d)
    ensures Run(Returning(c, d)).tables == PlainRun(Returning(c, d)) <==> Compatible(c, d)
  {
    hide Upsert, CacheKeyOf, SignatureOf, Settled, Compatible, Apply, UpsertAll, Run, PlainRun;
    var t := Upsert(Upsert(START.tables, c, false, 0), d, false, 0);
    AfterOne(c);
    Extend([One(c)], One(d));
    Extend([One(c), One(d)], One(c));
    assert [One(c)] + [One(d)] == [One(c), One(d)] && [One(c), One(d)] + [One(c)] == Returning(c, d);
    ApplyOne(Run([One(c)]), d, 0);
    ApplyOne(Run([One(c), One(d)]), c, 0);
    UpsertOne(Upsert(START.tables, c, false, 0), d, 0);
    UpsertOne(t, c, 0);
    NoChangeIff(t, c, 0);
    ThenSettledIff(c, d);
  }

  function Reverting(c: Item, d: Item): seq<Event> {
    [One(c), Batch([d, c], false, 0)]
  }

  lemma PreparedPair(cache: map<CacheKey, Signature>, c: Item, d: Item)
    requires Cached(cache, c) && !Cached(cache, d)
    ensures Prepared(cache, [d, c], false) == [d]
  {
    hide CacheKeyOf, SignatureOf, Cached;
    assert [d, c][..1] == [d] && [d][..0] == [] && Prepared(cache, [], false) == [];
    assert Prepared(cache, [d], false) == [d];
  }

  /** A batch that lists a new signature and the cached one of a single key reverts the row, unless the two agree. */
  lemma RevertIsHarmlessIff(c: Item, d: Item)
    requires c.Valid() && d.Valid() && CacheKeyOf(c) == CacheKeyOf(d) && SignatureOf(c) != SignatureOf(d)
    ensures Run(Reverting(c, d)).tables == PlainRun(Reverting(c, d)) <==> Compatible(c, d)
  {
    hide Upsert, CacheKeyOf, SignatureOf, Settled, Compatible, UpsertAll, Run, PlainRun, Prepared, Remember;
    var first := Upsert(START.tables, c, false, 0);
    AfterOne(c);
    Extend([One(c)], Batch([d, c], false, 0));
    assert [One(c)] + [Batch([d, c], false, 0)] == Reverting(c, d);
    PreparedPair(Run([One(c)]).cache, c, d);
    UpsertOne(first, d, 0);
    UpsertTwo(first, d, c, 0);
    NoChangeIff(Upsert(first, d, false, 0), c, 0);
    ThenSettledIff(c, d);
  }

  function Overwritten(c: Item, d: Item): seq<Event> {
    [One(c), Elsewhere([d], false, 0), One(c)]
  }

  /**
   A candidate that returns after another process has upserted one is rightly skipped iff the two
   agree on shared rows.
   */
  lemma ElsewhereIsHarmlessIff(c: Item, d: Item)
    requires c.Valid() && d.Valid()
    ensures Run(Overwritten(c, d)).tables == PlainRun(Overwritten(c, d)) <==> Compatible(c, d)
  {
    hide Upsert, CacheKeyOf, SignatureOf, Settled, Compatible, UpsertAll, Run, PlainRun, Prepared, Remember;
    var first := Upsert(START.tables, c, false, 0);
    var t := Upsert(first, d, false, 0);
    AfterOne(c);
    Extend([One(c)], Elsewhere([d], false, 0));
    Extend([One(c), Elsewhere([d], false, 0)], One(c));
    assert [One(c)] + [Elsewhere([d], false, 0)] == [One(c), Elsewhere([d], false, 0)];
    assert [One(c), Elsewhere([d], false, 0)] + [One(c)] == Overwritten(c, d);
    ApplyOne(Run([One(c), Elsewhere([d], false, 0)]), c, 0);
    UpsertOne(first, d, 0);
    UpsertOne(t, c, 0);
    NoChangeIff(t, c, 0);
    ThenSettledIff(c, d);
  }

  // ---------- Exactly the transparent sets of candidates ----------

  ghost predicate AllValid(items: set<Item>) {
    forall c :: c in items ==> c.Valid()
  }

  lemma OnesAreFed(events: seq<Event>, items: set<Item>)
    requires forall i :: 0 <= i < |events| ==> events[i].Batch? && |events[i].items| == 1 && events[i].items[0] in items
    ensures WellFed(events, items)
  {
  }

  /** No run of consistent batches of these candidates can tell that cached signatures are skipped. */
  ghost predicate Transparent(items: set<Item>) {
    forall events :: WellFed(events, items) ==> Run(events).tables == PlainRun(events)
  }

  /**
   Skipping is transparent over all runs of consistent batches exactly for harmonious candidates:
   those under different cache keys agree on the rows they share, those of one key and signature may
   stand for each other.
   */
  lemma TransparentIff(items: set<Item>)
    requires AllValid(items)
    ensures Transparent(items) <==> Harmonious(items)
  {
    hide Run, PlainRun, WellFed, Compatible, Replaces, CacheKeyOf, SignatureOf;
    if Harmonious(items) {
      forall events | WellFed(events, items)
        ensures Run(events).tables == PlainRun(events)
      {
        SkippingIsTransparent(events, items);
      }
    }
    if Transparent(items) {
      forall c, d | c in items && d in items && CacheKeyOf(c) != CacheKeyOf(d)
        ensures Compatible(c, d)
      {
        OnesAreFed(Returning(c, d), items);
        ReturnIsHarmlessIff(c, d);
      }
      forall c, d | c in items && d in items && Alike(c, d)
        ensures Replaces(c, d)
      {
        OnesAreFed(Repeated(c, d), items);
        SkipIsHarmlessIff(c, d);
      }
    }
  }

  /** All batches, here and elsewhere, list only these candidates, in any combination. */
  ghost predicate Lists(events: seq<Event>, items: set<Item>) {
    forall i :: 0 <= i < |events| && (events[i].Batch? || events[i].Elsewhere?) ==> From(events[i].items, items)
  }

  ghost predicate AlwaysTransparent(items: set<Item>) {
    forall events :: Lists(events, items) ==> Run(events).tables == PlainRun(events)
  }

  /** All candidates but those of one key and signature agree on shared rows. */
  ghost predicate AllAgree(items: set<Item>) {
    forall c, d :: c in items && d in items && !Alike(c, d) ==> Compatible(c, d)
  }

  lemma AgreeingBatches(events: seq<Event>, items: set<Item>)
    requires AllAgree(items) && Lists(events, items)
    ensures WellFed(events, items)
  {
    hide Compatible, CacheKeyOf, SignatureOf;
    forall i | 0 <= i < |events| && events[i].Elsewhere?
      ensures Agreeable(events[i].items, items)
    {
      assert From(events[i].items, items);
    }
    forall i | 0 <= i < |events| && events[i].Batch?
      ensures Consistent(events[i].items)
    {
      var batch := events[i].items;
      forall j, k | 0 <= j < k < |batch| && CacheKeyOf(batch[j]) == CacheKeyOf(batch[k])
          && SignatureOf(batch[j]) != SignatureOf(batch[k])
        ensures Compatible(batch[j], batch[k])
      {
        assert batch[j] in items && batch[k] in items && !Alike(batch[j], batch[k]);
      }
    }
  }

  /** Over all runs whatever, exactly when candidates of one key under two signatures agree as well. */
  lemma AlwaysTransparentIff(items: set<Item>)
    requires AllValid(items)
    ensures AlwaysTransparent(items) <==> Harmonious(items) && AllAgree(items)
  {
    hide Run, PlainRun, Compatible, Replaces, CacheKeyOf, SignatureOf, Consistent;
    if Harmonious(items) && AllAgree(items) {
      forall events | Lists(events, items)
        ensures Run(events).tables == PlainRun(events)
      {
        AgreeingBatches(events, items);
        SkippingIsTransparent(events, items);
      }
    }
    if AlwaysTransparent(items) {
      FedIsListed(items);
      TransparentIff(items);
      forall c, d | c in items && d in items && !Alike(c, d)
        ensures Compatible(c, d)
      {
        assert Lists(Overwritten(c, d), items);
        ElsewhereIsHarmlessIff(c, d);
      }
    }
  }

  lemma FedIsListed(items: set<Item>)
    requires AlwaysTransparent(items)
    ensures Transparent(items)
  {
    hide Run, PlainRun, Consistent;
    forall events | WellFed(events, items)
      ensures Run(events).tables == PlainRun(events)
    {
      assert Lists(events, items);
    }
  }

  // ---------- Candidates the cache wrongly skips ----------

  /** How preparation derives the two digests: the fingerprint from the rules, the canonical id from the fingerprint. */
  datatype Preparation = Preparation(fingerprint: (string, string, int, string, string) -> string,
                                     canonicalId: string -> string)

  /**
   The candidate's digests are those that preparation derives from its title, source, cut-off,
   semantics and time zone.
   */
  predicate PreparedBy(p: Preparation, item: Item) {
    && item.fingerprint
       == p.fingerprint(item.title, OrElse(item.source, "unknown"), item.cutoff, OrElse(item.semantics, "unknown"),
                        item.timezone)
    && item.canonical == p.canonicalId(item.fingerprint)
  }

  function Sample(p: Preparation, category: Option<string>, legs: seq<Leg>, cutoff: int): (item: Item)
    ensures PreparedBy(p, item) && item.legs == legs && item.category == category && item.cutoff == cutoff
  {
    var fingerprint := p.fingerprint("title", "unknown", cutoff, "unknown", "UTC");
    Item("target", legs, p.canonicalId(fingerprint), "title", fingerprint, cutoff, category, None, None, "UTC", None)
  }

  /** An absent and an empty category share a signature, so the second write is skipped. */
  lemma EmptyCategoryIsSkipped(p: Preparation)
    ensures var leg := Leg("A", "1", "", "");
            var events := Repeated(Sample(p, None, [leg], 0), Sample(p, Some(""), [leg], 0));
            Run(events).tables != PlainRun(events)
  {
    hide Run, PlainRun;
    var leg := Leg("A", "1", "", "");
    var c, d := Sample(p, None, [leg], 0), Sample(p, Some(""), [leg], 0);
    assert Alike(c, d) && c.Valid() && d.Valid();
    SkipIsHarmlessIff(c, d);
  }

  /** Signatures sort the legs, mapping rows do not: listed the other way round, the second pair is never stored. */
  lemma SwappedLegsAreSkipped(p: Preparation)
    ensures var l, m := Leg("A", "1", "", ""), Leg("B", "2", "", "");
            var events := Repeated(Sample(p, None, [l, m], 0), Sample(p, None, [m, l], 0));
            Run(events).tables != PlainRun(events)
  {
    hide Run, PlainRun, Sample, Alike, PairsOf;
    var l, m := Leg("A", "1", "", ""), Leg("B", "2", "", "");
    var c, d := Sample(p, None, [l, m], 0), Sample(p, None, [m, l], 0);
    SwappedAlike(p, l, m);
    TwoLegPairs(c);
    TwoLegPairs(d);
    assert PairKey("B", "2", "A", "1") in PairsOf(d) && PairKey("B", "2", "A", "1") !in PairsOf(c);
    SkipIsHarmlessIff(c, d);
  }

  lemma SwappedAlike(p: Preparation, l: Leg, m: Leg)
    requires l.venue == "A" && m.venue == "B"
    ensures Alike(Sample(p, None, [l, m], 0), Sample(p, None, [m, l], 0))
  {
    hide SortBy;
    SwappedSort(l, m);
  }

  /** One key under two signatures in a batch: the cached one is skipped after the new one and its cut-off is lost. */
  lemma ReversionIsSkipped(p: Preparation)
    ensures var leg := Leg("A", "1", "", "");
            var events := Reverting(Sample(p, None, [leg], 0), Sample(p, None, [leg], 1));
            Run(events).tables != PlainRun(events)
  {
    hide Run, PlainRun;
    var leg := Leg("A", "1", "", "");
    var c, d := Sample(p, None, [leg], 0), Sample(p, None, [leg], 1);
    assert !LegsAgree(c, d, c.legs[0], d.legs[0]);
    RevertIsHarmlessIff(c, d);
  }

  lemma SwappedSort(l: Leg, m: Leg)
    requires l.venue == "A" && m.venue == "B"
    ensures SortBy(VenueOf, [l, m]) == SortBy(VenueOf, [m, l])
  {
    SortEqualIff(VenueOf, [l, m], [m, l]);
  }

  lemma TwoLegPairs(item: Item)
    requires |item.legs| == 2 && item.legs[0].marketId != "" && item.legs[1].marketId != ""
    ensures PairsOf(item)
            == [PairKey(item.legs[0].venue, item.legs[0].marketId, item.legs[1].venue, item.legs[1].marketId)]
  {
    assert PairsWith(item.legs, 1, 2) == [];
    assert PairsWith(item.legs, 0, 1) == [];
    assert Pairs(item.legs, 0) == [];
    assert Pairs(item.legs, 1) == PairsWith(item.legs, 0, 2);
  }
}
