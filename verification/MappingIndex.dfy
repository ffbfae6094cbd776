/**
 Joining discovered markets to verified mappings: an index by market-id pairs and by fingerprint
 stands for a scan over all mappings.
 */
module MappingIndex {
  import opened Collections
  import opened Text

  datatype Mapping = Mapping(left: string, leftId: string, right: string, rightId: string, canonical: string,
                             fingerprint: string)

  datatype Metadata = Metadata(source: string, semantics: string, category: string, cutoff: int)

  datatype Info = Info(fingerprint: string, metadata: Metadata)

  datatype Entry = Entry(route: string, info: Info)

  datatype IdPair = IdPair(first: string, second: string)

  datatype Market = Market(ids: seq<string>, routes: set<string>, verified: bool, fingerprint: Option<string>,
                           source: Option<string>, semantics: Option<string>, category: Option<string>,
                               cutoff: Option<int>)

  /**
   The verified mappings, the canonical rows' metadata, route naming, and the time that stands in
   for a missing row.
   */
  datatype Snapshot = Snapshot(mappings: seq<Mapping>, canonicals: map<string, Metadata>,
                               routeName: (string, string) -> string, now: int)

  function Missing(value: Option<string>): bool {
    value.None? || value.value == "" || Lower(Trim(value.value)) == "unknown"
  }

  function Known(value: string): Option<string> {
    if Missing(Some(value)) then None else Some(value)
  }

  // ---------- The plain scan ----------

  predicate Joins(m: Mapping, a: string, b: string) {
    (m.leftId == a && m.rightId == b) || (m.rightId == a && m.leftId == b)
  }

  function InfoOf(s: Snapshot, m: Mapping): Info {
    var missing := Metadata("unknown", "unknown", "unknown", s.now);
    Info(m.fingerprint, if m.canonical in s.canonicals then s.canonicals[m.canonical] else missing)
  }

  function RouteOf(s: Snapshot, m: Mapping): string {
    s.routeName(m.left, m.right)
  }

  /** A dictionary keeps a route's place and takes its latest value. */
  function Put(entries: seq<Entry>, entry: Entry): seq<Entry> {
    if entries == [] then [entry]
    else if entries[0].route == entry.route then [entry] + entries[1..]
    else [entries[0]] + Put(entries[1..], entry)
  }

  /** The routes that the first k mappings give a pair of ids. */
  function Scan(s: Snapshot, k: nat, a: string, b: string): seq<Entry>
    requires k <= |s.mappings|
  {
    if k == 0 then []
    else
      var before, m := Scan(s, k - 1, a, b), s.mappings[k - 1];
      if Joins(m, a, b) then Put(before, Entry(RouteOf(s, m), InfoOf(s, m))) else before
  }

  function ScanAll(s: Snapshot, a: string, b: string): seq<Entry> {
    Scan(s, |s.mappings|, a, b)
  }

  /** The first mapping with a fingerprint. */
  function FirstWith(s: Snapshot, k: nat, fingerprint: string): Option<Info>
    requires k <= |s.mappings|
  {
    if k == 0 then None
    else if FirstWith(s, k - 1, fingerprint).Some? then FirstWith(s, k - 1, fingerprint)
    else if s.mappings[k - 1].fingerprint == fingerprint then Some(InfoOf(s, s.mappings[k - 1])) else None
  }

  ghost predicate HasRoute(entries: seq<Entry>, route: string) {
    exists i :: 0 <= i < |entries| && entries[i].route == route
  }

  lemma HasRouteHead(entry: Entry, entries: seq<Entry>, route: string)
    ensures HasRoute([entry] + entries, route) <==> entry.route == route || HasRoute(entries, route)
  {
    var all := [entry] + entries;
    assert all[0] == entry;
    if i :| 0 <= i < |entries| && entries[i].route == route {
      assert all[i + 1].route == route;
    }
    if i :| 0 <= i < |all| && all[i].route == route {
      assert i > 0 ==> entries[i - 1].route == route;
    }
  }

  lemma {:induction false} PutRoutes(entries: seq<Entry>, entry: Entry, route: string)
    ensures HasRoute(Put(entries, entry), route) <==> route == entry.route || HasRoute(entries, route)
  {
    if entries == [] {
      HasRouteHead(entry, [], route);
    } else {
      assert entries == [entries[0]] + entries[1..];
      HasRouteHead(entries[0], entries[1..], route);
      HasRouteHead(entry, entries[1..], route);
      HasRouteHead(entries[0], Put(entries[1..], entry), route);
      PutRoutes(entries[1..], entry, route);
    }
  }

  /** One of the first k mappings joins the two ids and is of this route. */
  ghost predicate SomeJoins(s: Snapshot, k: nat, a: string, b: string, route: string)
    requires k <= |s.mappings|
  {
    exists m :: 0 <= m < k && Joins(s.mappings[m], a, b) && RouteOf(s, s.mappings[m]) == route
  }

  lemma SomeJoinsStep(s: Snapshot, k: nat, a: string, b: string, route: string)
    requires 0 < k <= |s.mappings|
    ensures SomeJoins(s, k, a, b, route) <==>
              SomeJoins(s, k - 1, a, b, route)
                  || (Joins(s.mappings[k - 1], a, b) && RouteOf(s, s.mappings[k - 1]) == route)
  {
    hide Joins, RouteOf;
  }

  /** The scan finds exactly the routes of the mappings that join the two ids. */
  lemma {:induction false} ScanRoutes(s: Snapshot, k: nat, a: string, b: string, route: string)
    requires k <= |s.mappings|
    ensures HasRoute(Scan(s, k, a, b), route) <==> SomeJoins(s, k, a, b, route)
  {
    hide Joins, RouteOf, InfoOf, Put, SomeJoins, HasRoute;
    if k == 0 {
      NoneJoins(s, a, b, route);
    } else {
      ScanRoutes(s, k - 1, a, b, route);
      SomeJoinsStep(s, k, a, b, route);
      PutRoutes(Scan(s, k - 1, a, b), Entry(RouteOf(s, s.mappings[k - 1]), InfoOf(s, s.mappings[k - 1])), route);
    }
  }

  lemma NoneJoins(s: Snapshot, a: string, b: string, route: string)
    ensures !HasRoute([], route) && !SomeJoins(s, 0, a, b, route)
  {
  }

  // ---------- One market ----------

  /** What the matched pairs of ids offer, in the order the pairs are visited. */
  function OffersWith(s: Snapshot, ids: seq<string>, i: nat, j: nat): seq<Info>
    requires i < j <= |ids|
  {
    if j == i + 1 then []
    else
      var found := ScanAll(s, ids[i], ids[j - 1]);
      OffersWith(s, ids, i, j - 1) + if found == [] then [] else [found[0].info]
  }

  function Offers(s: Snapshot, ids: seq<string>, i: nat): seq<Info>
    requires i <= |ids|
  {
    if i == 0 then [] else Offers(s, ids, i - 1) + OffersWith(s, ids, i - 1, |ids|)
  }

  function FilledFingerprint(market: Market, offers: seq<Info>): Option<string> {
    if market.fingerprint.Some? || offers == [] then market.fingerprint else Some(offers[0].fingerprint)
  }

  function Fallback(s: Snapshot, fingerprint: Option<string>): seq<Info> {
    if fingerprint.None? || fingerprint.value == "" || FirstWith(s, |s.mappings|, fingerprint.value).None? then []
    else [FirstWith(s, |s.mappings|, fingerprint.value).value]
  }

  /** Fills a missing text from a list of offers. */
  function Filled(value: Option<string>, offers: seq<Info>, text: Metadata -> string): Option<string> {
    if offers == [] then value
    else
      var before := Filled(value, offers[..|offers| - 1], text);
      if Missing(before) then Known(text(offers[|offers| - 1].metadata)) else before
  }

  function FilledCutoff(value: Option<int>, offers: seq<Info>): Option<int> {
    if value.Some? || offers == [] then value else Some(offers[0].metadata.cutoff)
  }

  /** Everything that is offered to a market: its matched pairs, then its fingerprint's first mapping. */
  function AllOffers(s: Snapshot, market: Market): seq<Info> {
    var offers := Offers(s, market.ids, |market.ids|);
    offers + Fallback(s, FilledFingerprint(market, offers))
  }

  function SourceOf(m: Metadata): string { m.source }
  function SemanticsOf(m: Metadata): string { m.semantics }
  function CategoryOf(m: Metadata): string { m.category }

  /** A route joins two of the market's ids, listed in either order by the mapping. */
  ghost predicate RouteJoins(s: Snapshot, ids: seq<string>, route: string) {
    exists i, j, m :: 0 <= i < j < |ids| && 0 <= m < |s.mappings| && Joins(s.mappings[m], ids[i], ids[j])
                      && RouteOf(s, s.mappings[m]) == route
  }

  /** The first offered text that is known. */
  function FirstKnown(offers: seq<Info>, text: Metadata -> string): (r: Option<string>)
    ensures r.Some? ==> !Missing(r)
  {
    if offers == [] then None
    else
      var before := FirstKnown(offers[..|offers| - 1], text);
      if before.Some? then before else Known(text(offers[|offers| - 1].metadata))
  }

  /** A text that is there is never overwritten; a missing one becomes the first known offer, or none. */
  lemma {:induction false} FilledIs(value: Option<string>, offers: seq<Info>, text: Metadata -> string)
    ensures Filled(value, offers, text) == if !Missing(value) || offers == [] then value else FirstKnown(offers, text)
  {
    hide Lower, Trim;
    if offers != [] {
      FilledIs(value, offers[..|offers| - 1], text);
    }
  }

  // ---------- _apply_verified_mapping_snapshot ----------

  function At(index: map<IdPair, seq<Entry>>, a: string, b: string): seq<Entry> {
    if IdPair(a, b) in index then index[IdPair(a, b)] else []
  }

  function Add(index: map<IdPair, seq<Entry>>, a: string, b: string, entry: Entry): map<IdPair, seq<Entry>> {
    index[IdPair(a, b) := Put(At(index, a, b), entry)]
  }

  lemma {:induction false} PutTwice(entries: seq<Entry>, entry: Entry)
    ensures Put(Put(entries, entry), entry) == Put(entries, entry)
  {
    if entries != [] && entries[0].route != entry.route {
      PutTwice(entries[1..], entry);
      assert ([entries[0]] + Put(entries[1..], entry))[1..] == Put(entries[1..], entry);
    }
  }

  /** Adding a mapping under both orders of its ids keeps the index equal to the scan. */
  lemma AddAgrees(index: map<IdPair, seq<Entry>>, m: Mapping, entry: Entry, a: string, b: string)
    ensures At(Add(Add(index, m.leftId, m.rightId, entry), m.rightId, m.leftId, entry), a, b)
            == if Joins(m, a, b) then Put(At(index, a, b), entry) else At(index, a, b)
  {
    hide Put;
    PutTwice(At(index, a, b), entry);
  }

  ghost predicate IndexAgrees(s: Snapshot, k: nat, index: map<IdPair, seq<Entry>>)
    requires k <= |s.mappings|
  {
    forall a, b :: At(index, a, b) == Scan(s, k, a, b)
  }

  ghost predicate FingerprintsAgree(s: Snapshot, k: nat, first: map<string, Info>)
    requires k <= |s.mappings|
  {
    forall fingerprint :: (if fingerprint in first then Some(first[fingerprint]) else None)
        == FirstWith(s, k, fingerprint)
  }

  /** The index answers every pair as the scan does, and every fingerprint with its first mapping. */
  method BuildIndex(s: Snapshot) returns (index: map<IdPair, seq<Entry>>, first: map<string, Info>)
    ensures IndexAgrees(s, |s.mappings|, index) && FingerprintsAgree(s, |s.mappings|, first)
  {
    hide Put, Joins, At, Add, InfoOf;
    index, first := map[], map[];
    assert IndexAgrees(s, 0, index) by {
      NothingIndexed();
    }
    var k := 0;
    while k < |s.mappings|
      invariant 0 <= k <= |s.mappings| && IndexAgrees(s, k, index) && FingerprintsAgree(s, k, first)
    {
      var m := s.mappings[k];
      var info := InfoOf(s, m);
      ghost var before := index;
      if m.fingerprint !in first {
        first := first[m.fingerprint := info];
      }
      index := Add(index, m.leftId, m.rightId, Entry(RouteOf(s, m), info));
      index := Add(index, m.rightId, m.leftId, Entry(RouteOf(s, m), info));
      forall a, b
        ensures At(index, a, b) == Scan(s, k + 1, a, b)
      {
        AddAgrees(before, m, Entry(RouteOf(s, m), info), a, b);
      }
      k := k + 1;
    }
  }

  lemma NothingIndexed()
    ensures forall a, b :: At(map[], a, b) == []
  {
  }

  predicate JoinsPair(s: Snapshot, ids: seq<string>, i: nat, j: nat, m: nat, route: string)
    requires i < |ids| && j < |ids| && m < |s.mappings|
  {
    Joins(s.mappings[m], ids[i], ids[j]) && RouteOf(s, s.mappings[m]) == route
  }

  /** Routes joined by a pair visited before (i, j). */
  ghost predicate Visited(s: Snapshot, ids: seq<string>, i: nat, j: nat, route: string)
    requires i < |ids| && j <= |ids|
  {
    exists p, q, m :: 0 <= p < q < |ids| && 0 <= m < |s.mappings| && (p < i || (p == i && q < j))
        && JoinsPair(s, ids, p, q, m, route)
  }

  lemma VisitedStep(s: Snapshot, ids: seq<string>, i: nat, j: nat, route: string)
    requires i < j < |ids|
    ensures Visited(s, ids, i, j + 1, route)
            <==> Visited(s, ids, i, j, route) || HasRoute(ScanAll(s, ids[i], ids[j]), route)
  {
    hide Joins, RouteOf, Scan, HasRoute;
    ScanRoutes(s, |s.mappings|, ids[i], ids[j], route);
    if SomeJoins(s, |s.mappings|, ids[i], ids[j], route) {
      var m :| 0 <= m < |s.mappings| && Joins(s.mappings[m], ids[i], ids[j]) && RouteOf(s, s.mappings[m]) == route;
      assert JoinsPair(s, ids, i, j, m, route);
    }
    if Visited(s, ids, i, j + 1, route) && !Visited(s, ids, i, j, route) {
      var p, q, m :| 0 <= p < q < |ids| && 0 <= m < |s.mappings| && (p < i || (p == i && q < j + 1))
          && JoinsPair(s, ids, p, q, m, route);
      assert p == i && q == j;
    }
  }

  lemma VisitedRow(s: Snapshot, ids: seq<string>, i: nat, route: string)
    requires i < |ids|
    ensures i + 1 < |ids| ==> (Visited(s, ids, i, |ids|, route) <==> Visited(s, ids, i + 1, i + 2, route))
    ensures i + 1 == |ids| ==> (Visited(s, ids, i, |ids|, route) <==> RouteJoins(s, ids, route))
    ensures !Visited(s, ids, 0, 1, route)
  {
    hide Joins, RouteOf;
    if i + 1 == |ids| {
      if p, q, m :| 0 <= p < q < |ids| && 0 <= m < |s.mappings| && Joins(s.mappings[m], ids[p], ids[q]) &&
                  RouteOf(s, s.mappings[m]) == route {
        assert JoinsPair(s, ids, p, q, m, route);
      }
    }
  }

  lemma FilledStep(value: Option<string>, offers: seq<Info>, info: Info, text: Metadata -> string)
    ensures Filled(value, offers + [info], text)
            == var before := Filled(value, offers, text);
               if Missing(before) then Known(text(info.metadata)) else before
  {
    assert (offers + [info])[..|offers|] == offers;
  }

  datatype Fields = Fields(fingerprint: Option<string>, source: Option<string>, semantics: Option<string>,
                           category: Option<string>, cutoff: Option<int>)

  /** The fields after a list of offers; the fingerprint is taken only from matched pairs. */
  function After(market: Market, offers: seq<Info>): Fields {
    Fields(FilledFingerprint(market, offers), Filled(market.source, offers, SourceOf),
           Filled(market.semantics, offers, SemanticsOf),
           Filled(market.category, offers, CategoryOf), FilledCutoff(market.cutoff, offers))
  }

  method Take(market: Market, fields: Fields, info: Info, fingerprintToo: bool,
              ghost offers: seq<Info>) returns (r: Fields)
    requires fingerprintToo ==> fields == After(market, offers)
    requires fields.(fingerprint := None) == After(market, offers).(fingerprint := None)
    ensures r.(fingerprint := None) == After(market, offers + [info]).(fingerprint := None)
    ensures fingerprintToo ==> r == After(market, offers + [info])
    ensures !fingerprintToo ==> r.fingerprint == fields.fingerprint
  {
    hide Missing, Filled;
    FilledStep(market.source, offers, info, SourceOf);
    FilledStep(market.semantics, offers, info, SemanticsOf);
    FilledStep(market.category, offers, info, CategoryOf);
    r := fields;
    if fingerprintToo && r.fingerprint.None? {
      r := r.(fingerprint := Some(info.fingerprint));
    }
    if Missing(r.source) {
      r := r.(source := Known(info.metadata.source));
    }
    if Missing(r.semantics) {
      r := r.(semantics := Known(info.metadata.semantics));
    }
    if Missing(r.category) {
      r := r.(category := Known(info.metadata.category));
    }
    if r.cutoff.None? {
      r := r.(cutoff := Some(info.metadata.cutoff));
    }
  }

  /** The routes and matched metadata of one market, pair by pair. */
  method MatchPairs(s: Snapshot, index: map<IdPair, seq<Entry>>, market: Market) returns (routes: set<string>,
      fields: Fields)
    requires IndexAgrees(s, |s.mappings|, index)
    ensures forall route :: route in routes <==> route in market.routes || RouteJoins(s, market.ids, route)
    ensures fields == After(market, Offers(s, market.ids, |market.ids|))
  {
    hide Scan, ScanAll, Put, Joins, JoinsPair, After, At, Visited, RouteJoins, Missing;
    var ids := market.ids;
    routes := market.routes;
    fields := Fields(market.fingerprint, market.source, market.semantics, market.category, market.cutoff);
    Unmatched(market);
    forall route
      ensures ids == [] ==> !RouteJoins(s, ids, route)
      ensures ids != [] ==> !Visited(s, ids, 0, 1, route)
    {
      NoneVisited(s, ids, route);
    }
    var i := 0;
    while i < |ids|
      invariant 0 <= i <= |ids| && fields == After(market, Offers(s, ids, i))
      invariant i < |ids| ==> forall route :: route in routes <==>
                               route in market.routes || Visited(s, ids, i, i + 1, route)
      invariant i == |ids| ==> forall route :: route in routes <==> route in market.routes || RouteJoins(s, ids, route)
    {
      var j := i + 1;
      ghost var offers := Offers(s, ids, i);
      assert offers + OffersWith(s, ids, i, j) == offers;
      while j < |ids|
        invariant i < j <= |ids| && fields == After(market, offers + OffersWith(s, ids, i, j))
        invariant forall route :: route in routes <==> route in market.routes || Visited(s, ids, i, j, route)
      {
        var matched := At(index, ids[i], ids[j]);
        assert matched == ScanAll(s, ids[i], ids[j]) by {
          IndexedPair(s, index, ids[i], ids[j]);
        }
        forall route
          ensures Visited(s, ids, i, j + 1, route) <==> Visited(s, ids, i, j, route) || HasRoute(matched, route)
        {
          VisitedStep(s, ids, i, j, route);
        }
        var found := set e | 0 <= e < |matched| :: matched[e].route;
        assert forall route :: route in found <==> HasRoute(matched, route);
        routes := routes + found;
        if matched != [] {
          fields := Take(market, fields, matched[0].info, true, offers + OffersWith(s, ids, i, j));
          assert offers + OffersWith(s, ids, i, j + 1) == (offers + OffersWith(s, ids, i, j)) + [matched[0].info];
        } else {
          assert offers + OffersWith(s, ids, i, j + 1) == offers + OffersWith(s, ids, i, j);
        }
        j := j + 1;
      }
      forall route
        ensures i + 1 < |ids| ==> (Visited(s, ids, i, |ids|, route) <==> Visited(s, ids, i + 1, i + 2, route))
        ensures i + 1 == |ids| ==> (Visited(s, ids, i, |ids|, route) <==> RouteJoins(s, ids, route))
      {
        VisitedRow(s, ids, i, route);
      }
      i := i + 1;
    }
  }

  lemma Unmatched(market: Market)
    ensures After(market, [])
            == Fields(market.fingerprint, market.source, market.semantics, market.category, market.cutoff)
  {
  }

  lemma NoneVisited(s: Snapshot, ids: seq<string>, route: string)
    ensures ids == [] ==> !RouteJoins(s, ids, route)
    ensures ids != [] ==> !Visited(s, ids, 0, 1, route)
  {
  }

  lemma IndexedPair(s: Snapshot, index: map<IdPair, seq<Entry>>, a: string, b: string)
    requires IndexAgrees(s, |s.mappings|, index)
    ensures At(index, a, b) == ScanAll(s, a, b)
  {
  }

  /** What a market becomes, told by the scan. */
  ghost predicate Joined(s: Snapshot, market: Market, result: Market) {
    && result.ids == market.ids
    && (forall route :: route in result.routes <==> route in market.routes || RouteJoins(s, market.ids, route))
    && (result.verified <==> market.verified || result.routes != {})
    && result.fingerprint == FilledFingerprint(market, Offers(s, market.ids, |market.ids|))
    && result.source == Filled(market.source, AllOffers(s, market), SourceOf)
    && result.semantics == Filled(market.semantics, AllOffers(s, market), SemanticsOf)
    && result.category == Filled(market.category, AllOffers(s, market), CategoryOf)
    && result.cutoff == FilledCutoff(market.cutoff, AllOffers(s, market))
  }

  method ApplyVerifiedMappingSnapshot(s: Snapshot, markets: seq<Market>) returns (result: seq<Market>)
    ensures |result| == |markets| && forall i :: 0 <= i < |markets| ==> Joined(s, markets[i], result[i])
  {
    hide Joined, IndexAgrees, FingerprintsAgree;
    var index, first := BuildIndex(s);
    result := [];
    while |result| < |markets|
      invariant |result| <= |markets| && forall i :: 0 <= i < |result| ==> Joined(s, markets[i], result[i])
    {
      var joined := JoinMarket(s, index, first, markets[|result|]);
      result := result + [joined];
    }
  }

  method JoinMarket(s: Snapshot, index: map<IdPair, seq<Entry>>, first: map<string, Info>,
                    market: Market) returns (result: Market)
    requires IndexAgrees(s, |s.mappings|, index) && FingerprintsAgree(s, |s.mappings|, first)
    ensures Joined(s, market, result)
  {
    hide IndexAgrees, RouteJoins, Missing, Filled, Offers, FirstWith;
    var routes, fields := MatchPairs(s, index, market);
    ghost var offers := Offers(s, market.ids, |market.ids|);
    assert offers + [] == offers;
    if fields.fingerprint.Some? && fields.fingerprint.value != "" && fields.fingerprint.value in first {
      fields := Take(market, fields, first[fields.fingerprint.value], false, offers);
      assert AllOffers(s, market) == offers + [first[fields.fingerprint.value]];
    }
    result := Market(market.ids, routes, routes != {}
                     || market.verified, fields.fingerprint, fields.source, fields.semantics,
                     fields.category, fields.cutoff);
  }

  /**
   What joining may and may not do: routes are only added, texts, fingerprints and cut-offs that are
   there stay, and a market matched by no mapping and no fingerprint is unchanged.
   */
  lemma JoiningOnlyAdds(s: Snapshot, market: Market, result: Market)
    requires Joined(s, market, result)
    ensures market.routes <= result.routes
    ensures market.fingerprint.Some? ==> result.fingerprint == market.fingerprint
    ensures market.cutoff.Some? ==> result.cutoff == market.cutoff
    ensures !Missing(market.source) ==> result.source == market.source
    ensures !Missing(market.semantics) ==> result.semantics == market.semantics
    ensures !Missing(market.category) ==> result.category == market.category
    ensures AllOffers(s, market) == [] ==>
              result.source == market.source && result.semantics == market.semantics
                  && result.category == market.category
              && result.cutoff == market.cutoff && result.fingerprint == market.fingerprint
  {
    hide Missing, Filled, Offers;
    var offers := AllOffers(s, market);
    FilledIs(market.source, offers, SourceOf);
    FilledIs(market.semantics, offers, SemanticsOf);
    FilledIs(market.category, offers, CategoryOf);
  }

  // ---------- What is joined, in the fields of mappings and markets ----------

  /** A route joins two of the market's ids iff some mapping of that route has them as its ids, in either order. */
  lemma RouteJoinsIff(s: Snapshot, ids: seq<string>, route: string)
    ensures RouteJoins(s, ids, route) <==>
              exists i, j, m :: 0 <= i < j < |ids| && 0 <= m < |s.mappings|
                                && s.routeName(s.mappings[m].left, s.mappings[m].right) == route
                                && ((s.mappings[m].leftId == ids[i] && s.mappings[m].rightId == ids[j])
                                    || (s.mappings[m].leftId == ids[j] && s.mappings[m].rightId == ids[i]))
  {
    if i, j, m :| 0 <= i < j < |ids| && 0 <= m < |s.mappings|
                  && s.routeName(s.mappings[m].left, s.mappings[m].right) == route
                  && ((s.mappings[m].leftId == ids[i] && s.mappings[m].rightId == ids[j])
                      || (s.mappings[m].leftId == ids[j] && s.mappings[m].rightId == ids[i])) {
      assert Joins(s.mappings[m], ids[i], ids[j]) && RouteOf(s, s.mappings[m]) == route;
    }
  }

  /** The routes added are those that join two of the market's ids, and a market with a route is verified. */
  lemma RoutesJoined(s: Snapshot, market: Market, result: Market, route: string)
    requires Joined(s, market, result)
    ensures route in result.routes <==>
              || route in market.routes
              || exists i, j, m :: 0 <= i < j < |market.ids| && 0 <= m < |s.mappings|
                                   && s.routeName(s.mappings[m].left, s.mappings[m].right) == route
                                   && ((s.mappings[m].leftId == market.ids[i] && s.mappings[m].rightId == market.ids[j])
                                       || (s.mappings[m].leftId == market.ids[j]
                                           && s.mappings[m].rightId == market.ids[i]))
    ensures result.verified <==> market.verified || exists r :: r in result.routes
  {
    hide Filled, Offers, FilledFingerprint, FilledCutoff, AllOffers, RouteJoins;
    RouteJoinsIff(s, market.ids, route);
  }

  /** What a mapping has to offer: its fingerprint and its canonical row's metadata, or unknown texts and the time. */
  lemma InfoIs(s: Snapshot, m: Mapping)
    ensures InfoOf(s, m).fingerprint == m.fingerprint
    ensures InfoOf(s, m).metadata == if m.canonical in s.canonicals then s.canonicals[m.canonical]
                                     else Metadata("unknown", "unknown", "unknown", s.now)
  {
  }

  /** A pair of ids offers nothing iff no mapping joins them in either order. */
  lemma {:induction false} NothingScannedIff(s: Snapshot, k: nat, a: string, b: string)
    requires k <= |s.mappings|
    ensures Scan(s, k, a, b) == [] <==>
              forall m :: 0 <= m < k ==>
                && (s.mappings[m].leftId != a || s.mappings[m].rightId != b)
                && (s.mappings[m].rightId != a || s.mappings[m].leftId != b)
  {
    if k > 0 {
      NothingScannedIff(s, k - 1, a, b);
    }
  }

  /**
   A pair of ids offers what the last mapping has that joins them on the same route as the first mapping that
   joins them.
   */
  lemma {:induction false} PairOffers(s: Snapshot, k: nat, a: string, b: string) returns (first: nat, last: nat)
    requires k <= |s.mappings| && Scan(s, k, a, b) != []
    ensures first <= last < k && Joins(s.mappings[first], a, b) && Joins(s.mappings[last], a, b)
    ensures forall m :: 0 <= m < first ==> !Joins(s.mappings[m], a, b)
    ensures RouteOf(s, s.mappings[last]) == RouteOf(s, s.mappings[first])
    ensures forall m :: last < m < k ==>
              !Joins(s.mappings[m], a, b) || RouteOf(s, s.mappings[m]) != RouteOf(s, s.mappings[first])
    ensures Scan(s, k, a, b)[0] == Entry(RouteOf(s, s.mappings[first]), InfoOf(s, s.mappings[last]))
  {
    hide Joins, RouteOf, InfoOf;
    var before, m := Scan(s, k - 1, a, b), s.mappings[k - 1];
    if before == [] {
      first, last := k - 1, k - 1;
      forall n | 0 <= n < k - 1
        ensures !Joins(s.mappings[n], a, b)
      {
        NothingScannedIff(s, k - 1, a, b);
        JoinsIff(s.mappings[n], a, b);
      }
    } else {
      first, last := PairOffers(s, k - 1, a, b);
      if Joins(m, a, b) && RouteOf(s, m) == RouteOf(s, s.mappings[first]) {
        last := k - 1;
      }
    }
  }

  lemma JoinsIff(m: Mapping, a: string, b: string)
    ensures Joins(m, a, b) <==> (m.leftId == a && m.rightId == b) || (m.rightId == a && m.leftId == b)
  {
  }

  /** The first mapping with a fingerprint is what the fingerprint offers. */
  lemma {:induction false} FingerprintOffers(s: Snapshot, k: nat, fingerprint: string)
    requires k <= |s.mappings|
    ensures var found := FirstWith(s, k, fingerprint);
            && (found.None? <==> forall m :: 0 <= m < k ==> s.mappings[m].fingerprint != fingerprint)
            && (found.Some? ==>
                  exists m :: 0 <= m < k && s.mappings[m].fingerprint == fingerprint
                              && found.value == InfoOf(s, s.mappings[m])
                              && forall n :: 0 <= n < m ==> s.mappings[n].fingerprint != fingerprint)
  {
    hide InfoOf;
    if k > 0 {
      FingerprintOffers(s, k - 1, fingerprint);
    }
  }

  /** Two positions of a market's ids, the first before the second. */
  datatype Positions = Positions(i: nat, j: nat)

  /** The pairs of positions whose ids some mapping joins, in the order in which they are visited. */
  function MatchedWith(s: Snapshot, ids: seq<string>, i: nat, j: nat): (at: seq<Positions>)
    requires i < j <= |ids|
    ensures forall p <- at :: p.i == i && i < p.j < j
    ensures forall p, q :: 0 <= p < q < |at| ==> at[p].j < at[q].j
  {
    if j == i + 1 then []
    else MatchedWith(s, ids, i, j - 1) + if ScanAll(s, ids[i], ids[j - 1]) == [] then [] else [Positions(i, j - 1)]
  }

  function Matched(s: Snapshot, ids: seq<string>, i: nat): (at: seq<Positions>)
    requires i <= |ids|
    ensures forall p <- at :: p.i < i && p.i < p.j < |ids|
  {
    if i == 0 then [] else Matched(s, ids, i - 1) + MatchedWith(s, ids, i - 1, |ids|)
  }

  ghost predicate InOrder(at: seq<Positions>) {
    forall p, q :: 0 <= p < q < |at| ==> at[p].i < at[q].i || (at[p].i == at[q].i && at[p].j < at[q].j)
  }

  lemma InOrderAppend(before: seq<Positions>, more: seq<Positions>, i: nat)
    requires InOrder(before) && forall p, q :: 0 <= p < q < |more| ==> more[p].j < more[q].j
    requires (forall p <- before :: p.i < i) && (forall p <- more :: p.i == i)
    ensures InOrder(before + more)
  {
    assert forall p :: 0 <= p < |before| ==> before[p] in before;
    assert forall p :: 0 <= p < |more| ==> more[p] in more;
  }

  lemma NothingInOrder()
    ensures InOrder([])
  {
  }

  lemma MatchedStep(s: Snapshot, ids: seq<string>, i: nat)
    requires 0 < i <= |ids| && InOrder(Matched(s, ids, i - 1))
    ensures InOrder(Matched(s, ids, i - 1) + MatchedWith(s, ids, i - 1, |ids|))
  {
    hide InOrder, Matched, MatchedWith;
    InOrderAppend(Matched(s, ids, i - 1), MatchedWith(s, ids, i - 1, |ids|), i - 1);
  }

  lemma {:induction false} MatchedOrder(s: Snapshot, ids: seq<string>, i: nat)
    requires i <= |ids|
    ensures InOrder(Matched(s, ids, i))
  {
    hide InOrder, MatchedWith, ScanAll;
    NothingInOrder();
    if i > 0 {
      MatchedOrder(s, ids, i - 1);
      MatchedStep(s, ids, i);
    }
  }

  lemma {:induction false} MatchedWithIff(s: Snapshot, ids: seq<string>, i: nat, j: nat, k: nat)
    requires i < k < j <= |ids|
    ensures Positions(i, k) in MatchedWith(s, ids, i, j) <==> ScanAll(s, ids[i], ids[k]) != []
  {
    hide ScanAll;
    if k < j - 1 {
      MatchedWithIff(s, ids, i, j - 1, k);
    } else {
      assert Positions(i, k) !in MatchedWith(s, ids, i, j - 1);
    }
  }

  lemma {:induction false} MatchedIff(s: Snapshot, ids: seq<string>, n: nat, i: nat, j: nat)
    requires i < n <= |ids| && i < j < |ids|
    ensures Positions(i, j) in Matched(s, ids, n) <==> ScanAll(s, ids[i], ids[j]) != []
  {
    hide ScanAll, MatchedWith;
    var before, more := Matched(s, ids, n - 1), MatchedWith(s, ids, n - 1, |ids|);
    assert Positions(i, j) in before + more <==> Positions(i, j) in before || Positions(i, j) in more;
    if i < n - 1 {
      MatchedIff(s, ids, n - 1, i, j);
    } else {
      MatchedWithIff(s, ids, i, |ids|, j);
    }
  }

  lemma {:induction false} OffersWithAt(s: Snapshot, ids: seq<string>, i: nat, j: nat)
    requires i < j <= |ids|
    ensures var offers, at := OffersWith(s, ids, i, j), MatchedWith(s, ids, i, j);
            |offers| == |at| && forall k :: 0 <= k < |at| ==>
              at[k] in at && ScanAll(s, ids[at[k].i], ids[at[k].j]) != []
              && offers[k] == ScanAll(s, ids[at[k].i], ids[at[k].j])[0].info
  {
    hide ScanAll;
    if j > i + 1 {
      OffersWithAt(s, ids, i, j - 1);
    }
  }

  lemma {:induction false} OffersAt(s: Snapshot, ids: seq<string>, i: nat)
    requires i <= |ids|
    ensures var offers, at := Offers(s, ids, i), Matched(s, ids, i);
            |offers| == |at| && forall k :: 0 <= k < |at| ==>
              at[k] in at && ScanAll(s, ids[at[k].i], ids[at[k].j]) != []
              && offers[k] == ScanAll(s, ids[at[k].i], ids[at[k].j])[0].info
  {
    hide ScanAll, MatchedWith, OffersWith;
    if i > 0 {
      OffersAt(s, ids, i - 1);
      OffersWithAt(s, ids, i - 1, |ids|);
    }
  }

  /**
   A market is offered, in this order, what each pair of its ids offers that some mapping joins, pair by pair with
   earlier ids first, and then what the first mapping has that carries the market's fingerprint, or without one the
   first pair's.
   */
  lemma OffersInOrder(s: Snapshot, market: Market) returns (at: seq<Positions>)
    ensures (forall p <- at :: p.i < p.j < |market.ids|) && |at| == |Offers(s, market.ids, |market.ids|)|
    ensures var offers, ids := AllOffers(s, market), market.ids;
            && |at| <= |offers| <= |at| + 1
            && (forall k :: 0 <= k < |at| ==>
                  && at[k] in at && ScanAll(s, ids[at[k].i], ids[at[k].j]) != []
                  && offers[k] == ScanAll(s, ids[at[k].i], ids[at[k].j])[0].info)
            && var sought := if market.fingerprint.Some? then market.fingerprint
                             else if at == [] then None else Some(offers[0].fingerprint);
               && (|offers| > |at| <==> && sought.Some? && sought.value != ""
                                        && FirstWith(s, |s.mappings|, sought.value).Some?)
               && (|offers| > |at| ==> FirstWith(s, |s.mappings|, sought.value) == Some(offers[|at|]))
    ensures forall p, q :: 0 <= p < q < |at| ==> at[p].i < at[q].i || (at[p].i == at[q].i && at[p].j < at[q].j)
    ensures forall i, j :: 0 <= i < j < |market.ids| ==>
              (Positions(i, j) in at <==> ScanAll(s, market.ids[i], market.ids[j]) != [])
  {
    hide ScanAll, Matched, Offers, FirstWith;
    var ids := market.ids;
    at := Matched(s, ids, |ids|);
    OffersAt(s, ids, |ids|);
    MatchedOrder(s, ids, |ids|);
    forall i, j | 0 <= i < j < |ids|
      ensures Positions(i, j) in at <==> ScanAll(s, ids[i], ids[j]) != []
    {
      MatchedIff(s, ids, |ids|, i, j);
    }
  }

  /** A text that is neither empty nor, however cased and spaced, the word "unknown". */
  predicate IsKnown(text: string) {
    text != "" && Lower(Trim(text)) != "unknown"
  }

  /** A known text stays; a missing one becomes the first known text offered, or none when all offers are unknown. */
  ghost predicate FilledFrom(value: Option<string>, texts: seq<string>, result: Option<string>) {
    if (value.Some? && IsKnown(value.value)) || texts == [] then result == value
    else if forall k :: 0 <= k < |texts| ==> !IsKnown(texts[k]) then result == None
    else exists k :: 0 <= k < |texts| && IsKnown(texts[k]) && result == Some(texts[k])
                     && forall m :: 0 <= m < k ==> !IsKnown(texts[m])
  }

  function Texts(offers: seq<Info>, text: Metadata -> string): (texts: seq<string>)
    ensures |texts| == |offers|
  {
    seq(|offers|, k requires 0 <= k < |offers| => text(offers[k].metadata))
  }

  lemma {:induction false} FirstKnownIs(offers: seq<Info>, text: Metadata -> string)
    ensures var texts, r := Texts(offers, text), FirstKnown(offers, text);
            && (r.None? <==> forall k :: 0 <= k < |texts| ==> !IsKnown(texts[k]))
            && (r.Some? ==> exists k :: 0 <= k < |texts| && IsKnown(texts[k]) && r == Some(texts[k])
                                        && forall m :: 0 <= m < k ==> !IsKnown(texts[m]))
  {
    hide Lower, Trim;
    if offers != [] {
      var n := |offers| - 1;
      FirstKnownIs(offers[..n], text);
      var texts, before := Texts(offers, text), Texts(offers[..n], text);
      assert forall k :: 0 <= k < n ==> texts[k] == before[k];
      assert texts[n] == text(offers[n].metadata);
      assert IsKnown(texts[n]) <==> Known(texts[n]).Some?;
      if forall k :: 0 <= k < |texts| ==> !IsKnown(texts[k]) {
        assert forall k :: 0 <= k < n ==> !IsKnown(before[k]);
      }
    }
  }

  lemma FilledFromOffers(value: Option<string>, offers: seq<Info>, text: Metadata -> string)
    ensures FilledFrom(value, Texts(offers, text), Filled(value, offers, text))
  {
    hide Lower, Trim, Filled, FirstKnown;
    FilledIs(value, offers, text);
    FirstKnownIs(offers, text);
  }

  /**
   A joined market's source, semantics and category are each filled from what is offered, and a missing cut-off is
   that of the first offer.
   */
  lemma TextsFilled(s: Snapshot, market: Market, result: Market)
    requires Joined(s, market, result)
    ensures var offers := AllOffers(s, market);
            && FilledFrom(market.source, Texts(offers, (m: Metadata) => m.source), result.source)
            && FilledFrom(market.semantics, Texts(offers, (m: Metadata) => m.semantics), result.semantics)
            && FilledFrom(market.category, Texts(offers, (m: Metadata) => m.category), result.category)
            && result.cutoff == (if market.cutoff.Some? || offers == [] then market.cutoff
                                 else Some(offers[0].metadata.cutoff))
  {
    hide Filled, FilledFrom, AllOffers, RouteJoins, Offers;
    var offers := AllOffers(s, market);
    FilledFromOffers(market.source, offers, SourceOf);
    FilledFromOffers(market.semantics, offers, SemanticsOf);
    FilledFromOffers(market.category, offers, CategoryOf);
    SameTexts(offers, SourceOf, (m: Metadata) => m.source);
    SameTexts(offers, SemanticsOf, (m: Metadata) => m.semantics);
    SameTexts(offers, CategoryOf, (m: Metadata) => m.category);
  }

  lemma SameTexts(offers: seq<Info>, f: Metadata -> string, g: Metadata -> string)
    requires forall m :: f(m) == g(m)
    ensures Texts(offers, f) == Texts(offers, g)
  {
    var a, b := Texts(offers, f), Texts(offers, g);
    forall k | 0 <= k < |offers|
      ensures a[k] == b[k]
    {
      assert f(offers[k].metadata) == g(offers[k].metadata);
    }
  }

  /** A fingerprint that is there stays; a missing one is that of the first offer of a pair, if any pair is matched. */
  lemma FingerprintFilled(s: Snapshot, market: Market, result: Market) returns (at: seq<Positions>)
    requires Joined(s, market, result)
    ensures market.fingerprint.Some? ==> result.fingerprint == market.fingerprint
    ensures market.fingerprint.None? && at == [] ==> result.fingerprint == None
    ensures market.fingerprint.None? && at != [] ==>
              AllOffers(s, market) != [] && result.fingerprint == Some(AllOffers(s, market)[0].fingerprint)
    ensures at == [] <==> forall i, j :: 0 <= i < j < |market.ids| ==> ScanAll(s, market.ids[i], market.ids[j]) == []
  {
    hide Filled, ScanAll, Offers, RouteJoins, FirstWith, FilledCutoff;
    at := OffersInOrder(s, market);
    if at != [] {
      var p := at[0];
      assert p in at && p.i < p.j < |market.ids|;
      assert ScanAll(s, market.ids[p.i], market.ids[p.j]) != [];
    } else {
      forall i, j | 0 <= i < j < |market.ids|
        ensures ScanAll(s, market.ids[i], market.ids[j]) == []
      {
        assert Positions(i, j) !in at;
      }
    }
  }

  /**
   Metadata reaches a market: if one mapping joins two of its ids and none joins any pair visited before, then texts
   that the market lacks and the mapping's canonical row knows become the row's, and so does a missing cut-off; a
   missing fingerprint becomes the mapping's.
   */
  lemma MetadataReaches(s: Snapshot, market: Market, result: Market, i: nat, j: nat, m: nat)
    requires Joined(s, market, result) && i < j < |market.ids| && m < |s.mappings|
    requires forall n :: 0 <= n < |s.mappings| ==> (Joins(s.mappings[n], market.ids[i], market.ids[j]) <==> n == m)
    requires forall p, q, n :: 0 <= p < q < |market.ids| && (p < i || (p == i && q < j)) && 0 <= n < |s.mappings| ==>
               !Joins(s.mappings[n], market.ids[p], market.ids[q])
    requires s.mappings[m].canonical in s.canonicals
    ensures var row := s.canonicals[s.mappings[m].canonical];
            && (market.source.None? && IsKnown(row.source) ==> result.source == Some(row.source))
            && (market.semantics.None? && IsKnown(row.semantics) ==> result.semantics == Some(row.semantics))
            && (market.category.None? && IsKnown(row.category) ==> result.category == Some(row.category))
            && (market.cutoff.None? ==> result.cutoff == Some(row.cutoff))
            && (market.fingerprint.None? ==> result.fingerprint == Some(s.mappings[m].fingerprint))
  {
    hide Joins, Joined, AllOffers, ScanAll, IsKnown, InfoOf;
    FirstPairOffers(s, market, i, j, m);
    TextsFilled(s, market, result);
    InfoIs(s, s.mappings[m]);
    var at := FingerprintFilled(s, market, result);
    var offers := AllOffers(s, market);
    assert Texts(offers, (d: Metadata) => d.source)[0] == offers[0].metadata.source;
    assert Texts(offers, (d: Metadata) => d.semantics)[0] == offers[0].metadata.semantics;
    assert Texts(offers, (d: Metadata) => d.category)[0] == offers[0].metadata.category;
    PairScanned(s, market.ids[i], market.ids[j], m);
  }

  lemma PairScanned(s: Snapshot, a: string, b: string, m: nat)
    requires m < |s.mappings|
    requires forall n :: 0 <= n < |s.mappings| ==> (Joins(s.mappings[n], a, b) <==> n == m)
    ensures ScanAll(s, a, b) != [] && ScanAll(s, a, b)[0].info == InfoOf(s, s.mappings[m])
  {
    hide InfoOf;
    NothingScannedIff(s, |s.mappings|, a, b);
    JoinsIff(s.mappings[m], a, b);
    assert Joins(s.mappings[m], a, b);
    var first, last := PairOffers(s, |s.mappings|, a, b);
  }

  lemma FirstPairOffers(s: Snapshot, market: Market, i: nat, j: nat, m: nat)
    requires i < j < |market.ids| && m < |s.mappings|
    requires forall n :: 0 <= n < |s.mappings| ==> (Joins(s.mappings[n], market.ids[i], market.ids[j]) <==> n == m)
    requires forall p, q, n :: 0 <= p < q < |market.ids| && (p < i || (p == i && q < j)) && 0 <= n < |s.mappings| ==>
               !Joins(s.mappings[n], market.ids[p], market.ids[q])
    ensures AllOffers(s, market) != [] && AllOffers(s, market)[0] == InfoOf(s, s.mappings[m])
  {
    hide InfoOf, AllOffers, ScanAll;
    var ids := market.ids;
    PairScanned(s, ids[i], ids[j], m);
    var at := OffersInOrder(s, market);
    var k :| 0 <= k < |at| && at[k] == Positions(i, j);
    if k > 0 {
      assert at[0] in at;
      var p, q := at[0].i, at[0].j;
      assert at[0].i < at[k].i || (at[0].i == at[k].i && at[0].j < at[k].j);
      NeverScanned(s, ids[p], ids[q]);
    }
  }

  lemma NeverScanned(s: Snapshot, a: string, b: string)
    requires forall n :: 0 <= n < |s.mappings| ==> !Joins(s.mappings[n], a, b)
    ensures ScanAll(s, a, b) == []
  {
    NothingScannedIff(s, |s.mappings|, a, b);
  }
}
