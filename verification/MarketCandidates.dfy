/**
 Market candidates and their rows: what one upsert does to the canonical, instrument and mapping
 tables, when it changes nothing, and when two candidates leave each other's rows alone.
 Digest identifiers are modelled by what they digest.
 */
module MarketCandidates {
  import opened Collections

  datatype Status = Candidate | Verified | Rejected | Stale

  datatype CanonicalRow = CanonicalRow(title: string, category: string, source: string, cutoff: int, timezone: string,
                                       semantics: string, fingerprint: string)

  datatype InstrumentKey = InstrumentKey(venue: string, marketId: string)

  datatype InstrumentRow = InstrumentRow(canonical: string, yes: string, no: string, closes: int,
                                         source: Option<string>,
                                         fingerprint: string, category: Option<string>, updated: int)

  datatype PairKey = PairKey(left: string, leftId: string, right: string, rightId: string)

  datatype MappingRow = MappingRow(canonical: string, status: Status, fingerprint: string, strategy: Option<string>,
                                   verifiedAt: Option<int>, verifiedBy: Option<string>, seen: Option<int>, created: int,
                                       updated: int)

  datatype Tables = Tables(canonicals: map<string, CanonicalRow>, instruments: map<InstrumentKey, InstrumentRow>,
                           mappings: map<PairKey, MappingRow>)

  /** A venue under which the market is listed, with its tokens there. */
  datatype Leg = Leg(venue: string, marketId: string, yes: string, no: string)

  /** A prepared candidate; its legs list each venue once, in the order the market names them. */
  datatype Item = Item(target: string, legs: seq<Leg>, canonical: string, title: string, fingerprint: string,
                       cutoff: int,
                       category: Option<string>, source: Option<string>, semantics: Option<string>, timezone: string,
                       strategy: Option<string>)
  {
    ghost predicate Valid() {
      forall i, j :: 0 <= i < j < |legs| ==> legs[i].venue != legs[j].venue
    }
  }

  const EXACT_ID: string := "exact_id"

  function OrElse(s: Option<string>, default: string): string {
    if s.Some? && s.value != "" then s.value else default
  }

  // ---------- One row ----------

  function NewCanonical(item: Item): CanonicalRow {
    CanonicalRow(item.title, OrElse(item.category, "unknown"), OrElse(item.source, "unknown"), item.cutoff,
                 item.timezone,
                 OrElse(item.semantics, "unknown"), item.fingerprint)
  }

  function KeyOf(leg: Leg): InstrumentKey {
    InstrumentKey(leg.venue, leg.marketId)
  }

  function UpdateInstrument(row: Option<InstrumentRow>, item: Item, leg: Leg, now: int): InstrumentRow {
    match row
    case None => InstrumentRow(item.canonical, leg.yes, leg.no, item.cutoff, item.source, item.fingerprint,
                               item.category, now)
    case Some(r) =>
      var yes := if leg.yes != "" then leg.yes else r.yes;
      var no := if leg.no != "" then leg.no else r.no;
      var written := InstrumentRow(item.canonical, yes, no, item.cutoff, item.source, item.fingerprint, item.category,
                                   r.updated);
      if written == r then r else written.(updated := now)
  }

  /** A new fingerprint makes the mapping stale. */
  function Refingerprinted(r: MappingRow, item: Item): MappingRow {
    if r.fingerprint == item.fingerprint then r
    else r.(canonical := item.canonical, fingerprint := item.fingerprint, status := Stale, verifiedAt := None,
            verifiedBy := None)
  }

  /** A new match strategy makes a verified mapping stale, unless it had none and gets the exact one. */
  function Restrategised(r: MappingRow, item: Item): MappingRow {
    if item.strategy.None? || r.strategy == item.strategy then r
    else if r.status == Verified && !(r.strategy.None? && item.strategy == Some(EXACT_ID)) then
      r.(status := Stale, verifiedAt := None, verifiedBy := None, strategy := item.strategy)
    else r.(strategy := item.strategy)
  }

  function UpdateMapping(row: Option<MappingRow>, item: Item, markSeen: bool, now: int): MappingRow {
    match row
    case None =>
      var seen := if markSeen then Some(now) else None;
      MappingRow(item.canonical, Candidate, item.fingerprint, item.strategy, None, None, seen, now, now)
    case Some(r) =>
      var changed := r.fingerprint != item.fingerprint || (item.strategy.Some? && r.strategy != item.strategy);
      var written := Restrategised(Refingerprinted(r, item), item);
      written.(seen := if markSeen then Some(now) else r.seen, updated := if changed then now else r.updated)
  }

  // ---------- One candidate ----------

  /** The pairs of leg i with the legs after it, up to j. */
  function PairsWith(legs: seq<Leg>, i: nat, j: nat): (keys: seq<PairKey>)
    requires i < j <= |legs|
  {
    if j == i + 1 then []
    else
      var l, r := legs[i], legs[j - 1];
      var before := PairsWith(legs, i, j - 1);
      if l.marketId != "" && r.marketId != "" then before + [PairKey(l.venue, l.marketId, r.venue, r.marketId)]
      else before
  }

  /** The pairs whose left leg is among the first i. */
  function Pairs(legs: seq<Leg>, i: nat): (keys: seq<PairKey>)
    requires i <= |legs|
  {
    if i == 0 then [] else Pairs(legs, i - 1) + PairsWith(legs, i - 1, |legs|)
  }

  function PairsOf(item: Item): seq<PairKey> {
    Pairs(item.legs, |item.legs|)
  }

  function AddCanonical(canonicals: map<string, CanonicalRow>, item: Item): map<string, CanonicalRow> {
    if item.canonical in canonicals then canonicals else canonicals[item.canonical := NewCanonical(item)]
  }

  function AddInstruments(rows: map<InstrumentKey, InstrumentRow>, item: Item, k: nat, now: int): map<InstrumentKey,
      InstrumentRow>
    requires k <= |item.legs|
  {
    if k == 0 then rows
    else
      var before, leg := AddInstruments(rows, item, k - 1, now), item.legs[k - 1];
      before[KeyOf(leg) := UpdateInstrument(Lookup(before, KeyOf(leg)), item, leg, now)]
  }

  function AddMappings(rows: map<PairKey, MappingRow>, item: Item, keys: seq<PairKey>, markSeen: bool,
                       now: int): map<PairKey, MappingRow> {
    if keys == [] then rows
    else
      var before, key := AddMappings(rows, item, keys[..|keys| - 1], markSeen, now), keys[|keys| - 1];
      before[key := UpdateMapping(Lookup(before, key), item, markSeen, now)]
  }

  function Upsert(t: Tables, item: Item, markSeen: bool, now: int): Tables {
    Tables(AddCanonical(t.canonicals, item), AddInstruments(t.instruments, item, |item.legs|, now),
           AddMappings(t.mappings, item, PairsOf(item), markSeen, now))
  }

  // ---------- Row by row ----------

  lemma {:induction false} InstrumentsAt(rows: map<InstrumentKey, InstrumentRow>, item: Item, k: nat, now: int)
    requires item.Valid() && k <= |item.legs|
    ensures var after := AddInstruments(rows, item, k, now);
            && (forall i :: 0 <= i < k ==> KeyOf(item.legs[i]) in after
                                           && after[KeyOf(item.legs[i])]
                                               == UpdateInstrument(Lookup(rows, KeyOf(item.legs[i])), item,
                                                                   item.legs[i], now))
            && (forall key :: (forall i :: 0 <= i < k ==> KeyOf(item.legs[i]) != key) ==>
                 Lookup(after, key) == Lookup(rows, key))
  {
    hide UpdateInstrument;
    if k > 0 {
      InstrumentsAt(rows, item, k - 1, now);
    }
  }

  lemma UpdateMappingIdempotent(row: Option<MappingRow>, item: Item, markSeen: bool, now: int)
    ensures UpdateMapping(Some(UpdateMapping(row, item, markSeen, now)), item, markSeen, now)
            == UpdateMapping(row, item, markSeen, now)
  {
  }

  lemma {:induction false} MappingsAt(rows: map<PairKey, MappingRow>, item: Item, keys: seq<PairKey>, markSeen: bool,
                                      now: int, key: PairKey)
    ensures Lookup(AddMappings(rows, item, keys, markSeen, now), key)
            == if key in keys then Some(UpdateMapping(Lookup(rows, key), item, markSeen, now)) else Lookup(rows, key)
  {
    hide UpdateMapping;
    if keys != [] {
      var front := keys[..|keys| - 1];
      MappingsAt(rows, item, front, markSeen, now, key);
      assert keys == front + [keys[|keys| - 1]];
      UpdateMappingIdempotent(Lookup(rows, key), item, markSeen, now);
    }
  }

  // ---------- Row by row, column by column ----------

  /** A candidate names a pair for each two of its legs that both have a market id, the earlier leg on the left. */
  lemma PairsIff(item: Item, key: PairKey)
    ensures key in PairsOf(item) <==>
              exists i, j :: 0 <= i < j < |item.legs| && item.legs[i].marketId != "" && item.legs[j].marketId != ""
                             && key.left == item.legs[i].venue && key.leftId == item.legs[i].marketId
                             && key.right == item.legs[j].venue && key.rightId == item.legs[j].marketId
  {
    PairsUpTo(item.legs, |item.legs|, key);
  }

  lemma {:induction false} PairsUpTo(legs: seq<Leg>, n: nat, key: PairKey)
    requires n <= |legs|
    ensures key in Pairs(legs, n) <==>
              exists i, j :: 0 <= i < n && i < j < |legs| && legs[i].marketId != "" && legs[j].marketId != ""
                             && key.left == legs[i].venue && key.leftId == legs[i].marketId
                             && key.right == legs[j].venue && key.rightId == legs[j].marketId
  {
    hide PairsWith;
    if n > 0 {
      PairsUpTo(legs, n - 1, key);
      PairsOfLeg(legs, n - 1, |legs|, key);
      assert key in Pairs(legs, n) <==> key in Pairs(legs, n - 1) || key in PairsWith(legs, n - 1, |legs|);
    }
  }

  lemma {:induction false} PairsOfLeg(legs: seq<Leg>, i: nat, n: nat, key: PairKey)
    requires i < n <= |legs|
    ensures key in PairsWith(legs, i, n) <==>
              exists j :: i < j < n && legs[i].marketId != "" && legs[j].marketId != ""
                          && key.left == legs[i].venue && key.leftId == legs[i].marketId
                          && key.right == legs[j].venue && key.rightId == legs[j].marketId
  {
    if n > i + 1 {
      PairsOfLeg(legs, i, n - 1, key);
    }
  }

  /** The first candidate of a canonical market fixes its row; empty and absent texts become "unknown". */
  lemma CanonicalRowIs(t: Tables, item: Item, markSeen: bool, now: int, id: string)
    ensures var next := Upsert(t, item, markSeen, now).canonicals;
            && (id in t.canonicals || id != item.canonical ==> Lookup(next, id) == Lookup(t.canonicals, id))
            && (id !in t.canonicals && id == item.canonical ==>
                  && id in next && next[id].title == item.title && next[id].cutoff == item.cutoff
                  && next[id].timezone == item.timezone && next[id].fingerprint == item.fingerprint
                  && next[id].category
                     == (if item.category.Some? && item.category.value != "" then item.category.value else "unknown")
                  && next[id].source
                     == (if item.source.Some? && item.source.value != "" then item.source.value else "unknown")
                  && next[id].semantics
                     == (if item.semantics.Some? && item.semantics.value != "" then item.semantics.value
                         else "unknown"))
  {
  }

  /**
   Each leg's instrument takes the candidate's canonical market, closing time, source, fingerprint and category and
   the leg's tokens, but keeps a token that the leg leaves empty; its time changes iff a column does.
   */
  lemma InstrumentRowIs(t: Tables, item: Item, markSeen: bool, now: int, i: nat)
    requires item.Valid() && i < |item.legs|
    ensures var leg := item.legs[i];
            var key := InstrumentKey(leg.venue, leg.marketId);
            && key in Upsert(t, item, markSeen, now).instruments
            && var row := Upsert(t, item, markSeen, now).instruments[key];
               && row.canonical == item.canonical && row.closes == item.cutoff && row.source == item.source
               && row.fingerprint == item.fingerprint && row.category == item.category
               && (key !in t.instruments ==> row.yes == leg.yes && row.no == leg.no && row.updated == now)
               && (key in t.instruments ==>
                     && row.yes == (if leg.yes != "" then leg.yes else t.instruments[key].yes)
                     && row.no == (if leg.no != "" then leg.no else t.instruments[key].no)
                     && row.updated == if row.(updated := 0) == t.instruments[key].(updated := 0)
                                       then t.instruments[key].updated else now)
  {
    InstrumentsAt(t.instruments, item, |item.legs|, now);
  }

  /** No other instrument changes. */
  lemma OtherInstruments(t: Tables, item: Item, markSeen: bool, now: int, key: InstrumentKey)
    requires item.Valid()
    requires forall i :: 0 <= i < |item.legs| ==>
               item.legs[i].venue != key.venue || item.legs[i].marketId != key.marketId
    ensures Lookup(Upsert(t, item, markSeen, now).instruments, key) == Lookup(t.instruments, key)
  {
    hide UpdateInstrument;
    InstrumentsAt(t.instruments, item, |item.legs|, now);
  }

  /** The first discovery of a pair is a candidate with the candidate's columns, verified by nobody. */
  lemma DiscoveredMappingIs(t: Tables, item: Item, markSeen: bool, now: int, key: PairKey)
    requires key in PairsOf(item) && key !in t.mappings
    ensures var next := Upsert(t, item, markSeen, now).mappings;
            && key in next
            && next[key].canonical == item.canonical && next[key].status == Candidate
            && next[key].fingerprint == item.fingerprint && next[key].strategy == item.strategy
            && next[key].verifiedAt == None && next[key].verifiedBy == None
            && next[key].seen == (if markSeen then Some(now) else None)
            && next[key].created == now && next[key].updated == now
  {
    MappingsAt(t.mappings, item, PairsOf(item), markSeen, now, key);
  }

  /**
   A known mapping goes stale, and loses its verification, iff its fingerprint changes, or it was verified and a
   strategy other than its own is named, unless it had none and "exact_id" is named. It follows the candidate to
   another canonical market only with the fingerprint.
   */
  lemma KnownMappingIs(t: Tables, item: Item, markSeen: bool, now: int, key: PairKey)
    requires key in PairsOf(item) && key in t.mappings
    ensures var next := Upsert(t, item, markSeen, now).mappings;
            var was := t.mappings[key];
            var rules := was.fingerprint != item.fingerprint;
            var strategy := item.strategy.Some? && item.strategy != was.strategy;
            var stale := rules || (strategy && was.status == Verified
                                   && !(was.strategy.None? && item.strategy == Some("exact_id")));
            && key in next && next[key].fingerprint == item.fingerprint && next[key].created == was.created
            && next[key].canonical == (if rules then item.canonical else was.canonical)
            && next[key].strategy == (if item.strategy.Some? then item.strategy else was.strategy)
            && next[key].status == (if stale then Stale else was.status)
            && next[key].verifiedAt == (if stale then None else was.verifiedAt)
            && next[key].verifiedBy == (if stale then None else was.verifiedBy)
            && next[key].seen == (if markSeen then Some(now) else was.seen)
            && next[key].updated == (if rules || strategy then now else was.updated)
  {
    hide PairsOf, AddMappings;
    MappingsAt(t.mappings, item, PairsOf(item), markSeen, now, key);
  }

  /** No other mapping changes. */
  lemma OtherMappings(t: Tables, item: Item, markSeen: bool, now: int, key: PairKey)
    requires key !in PairsOf(item)
    ensures Lookup(Upsert(t, item, markSeen, now).mappings, key) == Lookup(t.mappings, key)
  {
    MappingsAt(t.mappings, item, PairsOf(item), markSeen, now, key);
  }

  // ---------- When an upsert changes nothing ----------

  predicate InstrumentSettled(row: InstrumentRow, item: Item, leg: Leg) {
    && row.canonical == item.canonical && row.closes == item.cutoff && row.source == item.source
    && row.fingerprint == item.fingerprint && row.category == item.category
    && (leg.yes != "" ==> row.yes == leg.yes) && (leg.no != "" ==> row.no == leg.no)
  }

  predicate MappingSettled(row: MappingRow, item: Item) {
    row.fingerprint == item.fingerprint && (item.strategy.None? || row.strategy == item.strategy)
  }

  /** The tables already say what the candidate writes. */
  ghost predicate Settled(t: Tables, item: Item) {
    && item.canonical in t.canonicals
    && (forall i :: 0 <= i < |item.legs| ==> KeyOf(item.legs[i]) in t.instruments
                                             && InstrumentSettled(t.instruments[KeyOf(item.legs[i])], item,
                                                                  item.legs[i]))
    && (forall key :: key in PairsOf(item) ==> key in t.mappings && MappingSettled(t.mappings[key], item))
  }

  lemma SameMap<K, V>(m: map<K, V>, n: map<K, V>)
    requires forall k :: Lookup(m, k) == Lookup(n, k)
    ensures m == n
  {
    forall k
      ensures k in m <==> k in n
      ensures k in m ==> m[k] == n[k]
    {
      assert Lookup(m, k) == Lookup(n, k);
    }
  }

  lemma SettledIsNoop(t: Tables, item: Item, now: int)
    requires item.Valid() && Settled(t, item)
    ensures Upsert(t, item, false, now) == t
  {
    hide PairsOf;
    var next := Upsert(t, item, false, now);
    InstrumentsAt(t.instruments, item, |item.legs|, now);
    forall key
      ensures Lookup(next.instruments, key) == Lookup(t.instruments, key)
    {
      if i :| 0 <= i < |item.legs| && KeyOf(item.legs[i]) == key {
        assert UpdateInstrument(Lookup(t.instruments, key), item, item.legs[i], now) == t.instruments[key];
      }
    }
    SameMap(next.instruments, t.instruments);
    forall key
      ensures Lookup(next.mappings, key) == Lookup(t.mappings, key)
    {
      MappingsAt(t.mappings, item, PairsOf(item), false, now, key);
    }
    SameMap(next.mappings, t.mappings);
  }

  lemma WrittenIsSettled(row: Option<InstrumentRow>, item: Item, leg: Leg, now: int)
    ensures InstrumentSettled(UpdateInstrument(row, item, leg, now), item, leg)
  {
  }

  lemma MappedIsSettled(row: Option<MappingRow>, item: Item, markSeen: bool, now: int)
    ensures MappingSettled(UpdateMapping(row, item, markSeen, now), item)
  {
  }

  lemma UpsertSettles(t: Tables, item: Item, markSeen: bool, now: int)
    requires item.Valid()
    ensures Settled(Upsert(t, item, markSeen, now), item)
  {
    hide PairsOf, UpdateInstrument, UpdateMapping, InstrumentSettled, MappingSettled, AddInstruments, AddMappings;
    var next := Upsert(t, item, markSeen, now);
    InstrumentsAt(t.instruments, item, |item.legs|, now);
    forall i | 0 <= i < |item.legs|
      ensures KeyOf(item.legs[i]) in next.instruments
              && InstrumentSettled(next.instruments[KeyOf(item.legs[i])], item, item.legs[i])
    {
      WrittenIsSettled(Lookup(t.instruments, KeyOf(item.legs[i])), item, item.legs[i], now);
    }
    forall key | key in PairsOf(item)
      ensures key in next.mappings && MappingSettled(next.mappings[key], item)
    {
      MappingsAt(t.mappings, item, PairsOf(item), markSeen, now, key);
      MappedIsSettled(Lookup(t.mappings, key), item, markSeen, now);
    }
  }

  /** An upsert changes nothing exactly when the tables already say what the candidate writes. */
  lemma NoChangeIff(t: Tables, item: Item, now: int)
    requires item.Valid()
    ensures Upsert(t, item, false, now) == t <==> Settled(t, item)
  {
    hide Upsert, Settled;
    UpsertSettles(t, item, false, now);
    if Settled(t, item) {
      SettledIsNoop(t, item, now);
    }
  }

  /** Applying a candidate twice is applying it once, whenever the second time comes. */
  lemma UpsertTwiceIsOnce(t: Tables, item: Item, markSeen: bool, now: int, later: int)
    requires item.Valid()
    ensures Upsert(Upsert(t, item, markSeen, now), item, false, later) == Upsert(t, item, markSeen, now)
  {
    hide Upsert, Settled;
    UpsertSettles(t, item, markSeen, now);
    SettledIsNoop(Upsert(t, item, markSeen, now), item, later);
  }

  // ---------- Candidates that share rows ----------

  predicate LegsAgree(c: Item, d: Item, l: Leg, m: Leg) {
    KeyOf(l) == KeyOf(m) ==>
      && c.canonical == d.canonical && c.cutoff == d.cutoff && c.source == d.source && c.fingerprint == d.fingerprint
          && c.category == d.category
      && (l.yes == "" || m.yes == "" || l.yes == m.yes) && (l.no == "" || m.no == "" || l.no == m.no)
  }

  predicate StrategiesAgree(c: Item, d: Item) {
    c.fingerprint == d.fingerprint && (c.strategy.None? || d.strategy.None? || c.strategy == d.strategy)
  }

  /** The two candidates agree on what they write to every row they share. */
  ghost predicate Compatible(c: Item, d: Item) {
    && (forall i, j :: 0 <= i < |c.legs| && 0 <= j < |d.legs| ==> LegsAgree(c, d, c.legs[i], d.legs[j]))
    && (forall key :: key in PairsOf(c) && key in PairsOf(d) ==> StrategiesAgree(c, d))
  }

  lemma CompatibleKeepsSettled(t: Tables, c: Item, d: Item, markSeen: bool, now: int)
    requires c.Valid() && d.Valid() && Compatible(c, d) && Settled(t, c)
    ensures Settled(Upsert(t, d, markSeen, now), c)
  {
    hide PairsOf;
    var next := Upsert(t, d, markSeen, now);
    InstrumentsAt(t.instruments, d, |d.legs|, now);
    forall i | 0 <= i < |c.legs|
      ensures KeyOf(c.legs[i]) in next.instruments
              && InstrumentSettled(next.instruments[KeyOf(c.legs[i])], c, c.legs[i])
    {
      InstrumentStaysSettled(t, c, d, i, now);
    }
    forall key | key in PairsOf(c)
      ensures key in next.mappings && MappingSettled(next.mappings[key], c)
    {
      MappingsAt(t.mappings, d, PairsOf(d), markSeen, now, key);
    }
  }

  lemma InstrumentStaysSettled(t: Tables, c: Item, d: Item, i: nat, now: int)
    requires c.Valid() && d.Valid() && Compatible(c, d) && Settled(t, c) && i < |c.legs|
    ensures var next := AddInstruments(t.instruments, d, |d.legs|, now);
            KeyOf(c.legs[i]) in next && InstrumentSettled(next[KeyOf(c.legs[i])], c, c.legs[i])
  {
    hide PairsOf, AddInstruments;
    var key := KeyOf(c.legs[i]);
    InstrumentsAt(t.instruments, d, |d.legs|, now);
    if j :| 0 <= j < |d.legs| && KeyOf(d.legs[j]) == key {
      assert LegsAgree(c, d, c.legs[i], d.legs[j]);
    } else {
      assert Lookup(AddInstruments(t.instruments, d, |d.legs|, now), key) == Lookup(t.instruments, key);
    }
  }

  /** Agreement is exactly what it takes: upserting d never disturbs c, whatever the tables, iff they are compatible. */
  lemma UndisturbedIffCompatible(c: Item, d: Item, markSeen: bool, now: int)
    requires c.Valid() && d.Valid()
    ensures (forall t :: Settled(t, c) ==> Settled(Upsert(t, d, markSeen, now), c)) <==> Compatible(c, d)
  {
    hide Upsert, Settled, Compatible;
    if Compatible(c, d) {
      forall t | Settled(t, c)
        ensures Settled(Upsert(t, d, markSeen, now), c)
      {
        CompatibleKeepsSettled(t, c, d, markSeen, now);
      }
    } else {
      var t := Upsert(Tables(map[], map[], map[]), c, markSeen, now);
      UpsertSettles(Tables(map[], map[], map[]), c, markSeen, now);
      UpsertSettles(t, d, markSeen, now);
      if Settled(Upsert(t, d, markSeen, now), c) {
        BothSettledAgree(Upsert(t, d, markSeen, now), c, d);
      }
    }
  }

  lemma BothSettledAgree(t: Tables, c: Item, d: Item)
    requires Settled(t, c) && Settled(t, d)
    ensures Compatible(c, d)
  {
    hide PairsOf;
    forall i, j | 0 <= i < |c.legs| && 0 <= j < |d.legs|
      ensures LegsAgree(c, d, c.legs[i], d.legs[j])
    {
      assert InstrumentSettled(t.instruments[KeyOf(c.legs[i])], c, c.legs[i]);
      assert InstrumentSettled(t.instruments[KeyOf(d.legs[j])], d, d.legs[j]);
    }
  }
}
