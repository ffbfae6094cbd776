/**
 Runs of discovery batches and operator actions over the candidate tables: the history behind
 every verified mapping, and the signature cache that skips unchanged candidates.
 */
module MappingLifecycle {
  import opened Collections
  import opened Text
  import opened MarketCandidates

  // ---------- The signature cache ----------

  datatype CacheKey = CacheKey(target: string, legs: seq<Leg>)

  datatype Signature = Signature(canonical: string, title: string, fingerprint: string, cutoff: int, category: string,
                                 source: string,
                                 semantics: string, timezone: string, strategy: string, legs: seq<Leg>)

  function VenueOf(leg: Leg): string { leg.venue }

  function CacheKeyOf(item: Item): CacheKey {
    CacheKey(item.target, SortBy(VenueOf, item.legs))
  }

  function SignatureOf(item: Item): Signature {
    Signature(item.canonical, item.title, item.fingerprint, item.cutoff, OrElse(item.category, ""),
              OrElse(item.source, ""),
              OrElse(item.semantics, ""), item.timezone, OrElse(item.strategy, ""), SortBy(VenueOf, item.legs))
  }

  predicate Cached(cache: map<CacheKey, Signature>, item: Item) {
    CacheKeyOf(item) in cache && cache[CacheKeyOf(item)] == SignatureOf(item)
  }

  // ---------- Batches and events ----------

  function Prepared(cache: map<CacheKey, Signature>, items: seq<Item>, markSeen: bool): seq<Item> {
    if items == [] then []
    else
      var n := |items| - 1;
      Prepared(cache, items[..n], markSeen) + if markSeen || !Cached(cache, items[n]) then [items[n]] else []
  }

  function UpsertAll(t: Tables, items: seq<Item>, markSeen: bool, now: int): Tables {
    if items == [] then t
    else Upsert(UpsertAll(t, items[..|items| - 1], markSeen, now), items[|items| - 1], markSeen, now)
  }

  function Remember(cache: map<CacheKey, Signature>, items: seq<Item>): map<CacheKey, Signature> {
    if items == [] then cache
    else
      var item := items[|items| - 1];
      Remember(cache, items[..|items| - 1])[CacheKeyOf(item) := SignatureOf(item)]
  }

  function WithStatus(row: MappingRow, status: Status, operator: Option<string>, now: int): MappingRow {
    row.(status := status,
         verifiedAt := if status == Verified then Some(now) else None,
         verifiedBy := if status == Verified then operator else None,
         updated := now)
  }

  function SetStatus(t: Tables, key: PairKey, status: Status, operator: Option<string>, now: int): Tables {
    if key !in t.mappings then t
    else t.(mappings := t.mappings[key := WithStatus(t.mappings[key], status, operator, now)])
  }

  datatype State = State(tables: Tables, cache: map<CacheKey, Signature>)

  /**
   Discovery batches, operator actions, restarts that lose the cache, and upserts by other processes
   on the same tables.
   */
  datatype Event =
    | Batch(items: seq<Item>, markSeen: bool, now: int)
    | StatusChange(key: PairKey, status: Status, operator: Option<string>, now: int)
    | Restart
    | Elsewhere(items: seq<Item>, markSeen: bool, now: int)

  const START: State := State(Tables(map[], map[], map[]), map[])

  function Apply(st: State, e: Event): State {
    match e
    case Batch(items, markSeen, now) =>
      var prepared := Prepared(st.cache, items, markSeen);
      State(UpsertAll(st.tables, prepared, markSeen, now), Remember(st.cache, prepared))
    case StatusChange(key, status, operator, now) => st.(tables := SetStatus(st.tables, key, status, operator, now))
    case Restart => st.(cache := map[])
    case Elsewhere(items, markSeen, now) => st.(tables := UpsertAll(st.tables, items, markSeen, now))
  }

  function Run(events: seq<Event>): State {
    if events == [] then START else Apply(Run(events[..|events| - 1]), events[|events| - 1])
  }

  /** The same run without the cache: every batch upserts every candidate. */
  function PlainApply(t: Tables, e: Event): Tables {
    match e
    case Batch(items, markSeen, now) => UpsertAll(t, items, markSeen, now)
    case StatusChange(key, status, operator, now) => SetStatus(t, key, status, operator, now)
    case Restart => t
    case Elsewhere(items, markSeen, now) => UpsertAll(t, items, markSeen, now)
  }

  function PlainRun(events: seq<Event>): Tables {
    if events == [] then START.tables else PlainApply(PlainRun(events[..|events| - 1]), events[|events| - 1])
  }

  // ---------- Signatures, batches and status changes in fields ----------

  /**
   Two candidates have one cache key iff they name one target and the same legs in whatever order, and then one
   signature iff all else they say agrees, where an absent text counts as an empty one.
   */
  lemma SignatureTells(c: Item, d: Item)
    requires c.Valid() && d.Valid()
    ensures CacheKeyOf(c) == CacheKeyOf(d) <==> c.target == d.target && (forall leg :: leg in c.legs <==> leg in d.legs)
    ensures SignatureOf(c) == SignatureOf(d)
       <==> && c.canonical == d.canonical && c.title == d.title && c.fingerprint == d.fingerprint
            && c.cutoff == d.cutoff && c.timezone == d.timezone
            && ReadAlike(c.category, d.category) && ReadAlike(c.source, d.source) && ReadAlike(c.semantics, d.semantics)
            && ReadAlike(c.strategy, d.strategy) && (forall leg :: leg in c.legs <==> leg in d.legs)
  {
    hide SortBy, OrElse, ReadAlike;
    SortEqualIff(VenueOf, c.legs, d.legs);
    OrElseIff(c.category, d.category);
    OrElseIff(c.source, d.source);
    OrElseIff(c.semantics, d.semantics);
    OrElseIff(c.strategy, d.strategy);
  }

  lemma OrElseIff(a: Option<string>, b: Option<string>)
    ensures OrElse(a, "") == OrElse(b, "") <==> ReadAlike(a, b)
  {
  }

  predicate ReadAlike(a: Option<string>, b: Option<string>) {
    a == b || (a in {None, Some("")} && b in {None, Some("")})
  }

  /** Where in a batch the candidates stand that are upserted. */
  function PreparedAt(cache: map<CacheKey, Signature>, items: seq<Item>, markSeen: bool): (at: seq<nat>)
    ensures forall i :: 0 <= i < |at| ==> at[i] < |items|
    ensures forall i, j :: 0 <= i < j < |at| ==> at[i] < at[j]
  {
    if items == [] then []
    else
      var n := |items| - 1;
      PreparedAt(cache, items[..n], markSeen) + if markSeen || !Cached(cache, items[n]) then [n] else []
  }

  lemma {:induction false} PreparedInOrder(cache: map<CacheKey, Signature>, items: seq<Item>, markSeen: bool)
    ensures var r, at := Prepared(cache, items, markSeen), PreparedAt(cache, items, markSeen);
            |at| == |r| && forall i :: 0 <= i < |at| ==> r[i] == items[at[i]]
  {
    hide Cached;
    if items != [] {
      PreparedInOrder(cache, items[..|items| - 1], markSeen);
    }
  }

  lemma {:induction false} PreparedIff(cache: map<CacheKey, Signature>, items: seq<Item>, markSeen: bool, k: nat)
    requires k < |items|
    ensures k in PreparedAt(cache, items, markSeen)
       <==> markSeen || CacheKeyOf(items[k]) !in cache || cache[CacheKeyOf(items[k])] != SignatureOf(items[k])
  {
    hide CacheKeyOf, SignatureOf;
    var n := |items| - 1;
    var before := PreparedAt(cache, items[..n], markSeen);
    assert n !in before;
    if k < n {
      PreparedIff(cache, items[..n], markSeen, k);
    }
  }

  /**
   A batch upserts, in its own order, the candidates that the cache does not hold under their signature, and all
   of them to mark them seen.
   */
  lemma PreparedPositions(cache: map<CacheKey, Signature>, items: seq<Item>, markSeen: bool) returns (at: seq<nat>)
    ensures var r := Prepared(cache, items, markSeen);
            |at| == |r| && forall i :: 0 <= i < |at| ==> at[i] < |items| && r[i] == items[at[i]]
    ensures forall i, j :: 0 <= i < j < |at| ==> at[i] < at[j]
    ensures forall k :: 0 <= k < |items| ==>
              (k in at <==> markSeen || CacheKeyOf(items[k]) !in cache
                            || cache[CacheKeyOf(items[k])] != SignatureOf(items[k]))
  {
    hide CacheKeyOf, SignatureOf, Prepared, PreparedAt;
    at := PreparedAt(cache, items, markSeen);
    PreparedInOrder(cache, items, markSeen);
    forall k | 0 <= k < |items|
      ensures k in at <==> markSeen || CacheKeyOf(items[k]) !in cache
                           || cache[CacheKeyOf(items[k])] != SignatureOf(items[k])
    {
      PreparedIff(cache, items, markSeen, k);
    }
  }

  /** The cache remembers for each key the signature of its last upserted candidate. */
  lemma {:induction false} RememberedLast(cache: map<CacheKey, Signature>, items: seq<Item>, key: CacheKey)
    ensures var after := Remember(cache, items);
            || (Lookup(after, key) == Lookup(cache, key)
                && forall k :: 0 <= k < |items| ==> CacheKeyOf(items[k]) != key)
            || (exists k :: 0 <= k < |items| && CacheKeyOf(items[k]) == key
                            && Lookup(after, key) == Some(SignatureOf(items[k]))
                            && forall j :: k < j < |items| ==> CacheKeyOf(items[j]) != key)
  {
    hide CacheKeyOf, SignatureOf;
    if items != [] {
      var n := |items| - 1;
      RememberedLast(cache, items[..n], key);
      assert forall k :: 0 <= k < n ==> items[..n][k] == items[k];
    }
  }

  /** An operator's status change stamps a verification with time and operator and clears them for any other status. */
  lemma StatusRowIs(t: Tables, key: PairKey, status: Status, operator: Option<string>, now: int)
    ensures var next := SetStatus(t, key, status, operator, now);
            && next.canonicals == t.canonicals && next.instruments == t.instruments
            && (forall k :: k != key || key !in t.mappings ==> Lookup(next.mappings, k) == Lookup(t.mappings, k))
            && (key in t.mappings ==>
                  && key in next.mappings
                  && var was, row := t.mappings[key], next.mappings[key];
                     && row.status == status && row.updated == now && row.created == was.created
                     && row.seen == was.seen && row.canonical == was.canonical && row.fingerprint == was.fingerprint
                     && row.strategy == was.strategy
                     && (status == Verified ==> row.verifiedAt == Some(now) && row.verifiedBy == operator)
                     && (status != Verified ==> row.verifiedAt == None && row.verifiedBy == None))
  {
  }

  // ---------- The history of a mapping ----------

  predicate RowSound(row: MappingRow) {
    (row.verifiedAt.Some? <==> row.status == Verified) && (row.verifiedBy.Some? ==> row.status == Verified)
  }

  ghost predicate Sound(t: Tables) {
    forall key :: key in t.mappings ==> RowSound(t.mappings[key])
  }

  /** A verified row that is still the same verification. */
  predicate Kept(before: MappingRow, after: MappingRow) {
    && before.status == Verified && after.status == Verified
    && after.fingerprint == before.fingerprint && after.canonical == before.canonical
    && after.verifiedAt == before.verifiedAt && after.verifiedBy == before.verifiedBy
    && (after.strategy == before.strategy || (before.strategy.None? && after.strategy == Some(EXACT_ID)))
  }

  /** Exactly when a verified mapping survives discovery. */
  lemma StaysVerifiedIff(row: MappingRow, item: Item, markSeen: bool, now: int)
    requires row.status == Verified
    ensures UpdateMapping(Some(row), item, markSeen, now).status == Verified <==>
              row.fingerprint == item.fingerprint
              && (item.strategy.None? || item.strategy == row.strategy
                  || (row.strategy.None? && item.strategy == Some(EXACT_ID)))
    ensures UpdateMapping(Some(row), item, markSeen, now).status in {Verified, Stale}
  {
  }

  lemma UpdateKeepsRow(row: Option<MappingRow>, item: Item, markSeen: bool, now: int)
    requires row.Some? ==> RowSound(row.value)
    ensures var after := UpdateMapping(row, item, markSeen, now);
            RowSound(after) && (after.status == Verified ==> row.Some? && Kept(row.value, after))
  {
  }

  /** Verified rows of `after` were the same verification in `before`. */
  ghost predicate OnlyKept(before: Tables, after: Tables) {
    forall key :: key in after.mappings && after.mappings[key].status == Verified ==>
                    key in before.mappings && Kept(before.mappings[key], after.mappings[key])
  }

  lemma UpsertKeeps(t: Tables, item: Item, markSeen: bool, now: int)
    requires Sound(t)
    ensures Sound(Upsert(t, item, markSeen, now)) && OnlyKept(t, Upsert(t, item, markSeen, now))
  {
    hide UpdateMapping, PairsOf, AddMappings, AddInstruments, Kept, RowSound;
    var next := Upsert(t, item, markSeen, now);
    forall key | key in next.mappings
      ensures RowSound(next.mappings[key])
      ensures next.mappings[key].status == Verified ==> key in t.mappings && Kept(t.mappings[key], next.mappings[key])
    {
      MappingsAt(t.mappings, item, PairsOf(item), markSeen, now, key);
      UpdateKeepsRow(Lookup(t.mappings, key), item, markSeen, now);
      if key in t.mappings {
        KeptItself(t.mappings[key]);
      }
    }
  }

  lemma KeptItself(row: MappingRow)
    ensures row.status == Verified ==> Kept(row, row)
  {
  }

  lemma KeptTransitive(a: MappingRow, b: MappingRow, c: MappingRow)
    requires Kept(a, b) && Kept(b, c)
    ensures Kept(a, c)
  {
  }

  lemma OnlyKeptTransitive(s: Tables, t: Tables, u: Tables)
    requires OnlyKept(s, t) && OnlyKept(t, u)
    ensures OnlyKept(s, u)
  {
    forall key | key in u.mappings && u.mappings[key].status == Verified
      ensures key in s.mappings && Kept(s.mappings[key], u.mappings[key])
    {
      assert Kept(t.mappings[key], u.mappings[key]);
      KeptTransitive(s.mappings[key], t.mappings[key], u.mappings[key]);
    }
  }

  lemma {:induction false} UpsertAllKeeps(t: Tables, items: seq<Item>, markSeen: bool, now: int)
    requires Sound(t)
    ensures Sound(UpsertAll(t, items, markSeen, now)) && OnlyKept(t, UpsertAll(t, items, markSeen, now))
  {
    hide Upsert, Sound, Kept;
    if items == [] {
      forall key | key in t.mappings && t.mappings[key].status == Verified
        ensures Kept(t.mappings[key], t.mappings[key])
      {
        KeptItself(t.mappings[key]);
      }
    } else {
      var n := |items| - 1;
      var before := UpsertAll(t, items[..n], markSeen, now);
      UpsertAllKeeps(t, items[..n], markSeen, now);
      UpsertKeeps(before, items[n], markSeen, now);
      OnlyKeptTransitive(t, before, Upsert(before, items[n], markSeen, now));
    }
  }

  predicate Verifies(e: Event, key: PairKey, row: MappingRow) {
    e.StatusChange? && e.key == key && e.status == Verified && row.verifiedAt == Some(e.now)
        && row.verifiedBy == e.operator
  }

  /** The mapping has been verified, unchanged, in every state after event i. */
  ghost predicate VerifiedSince(events: seq<Event>, i: nat, key: PairKey)
    requires i < |events|
  {
    var rows := Run(events[..i + 1]).tables.mappings;
    && key in rows && Verifies(events[i], key, rows[key])
    && forall j :: i < j <= |events|
        ==> key in Run(events[..j]).tables.mappings && Kept(rows[key], Run(events[..j]).tables.mappings[key])
  }

  lemma {:induction false} ApplyKeeps(st: State, e: Event)
    requires Sound(st.tables)
    ensures Sound(Apply(st, e).tables)
    ensures var rows := Apply(st, e).tables.mappings;
            forall key :: key in rows && rows[key].status == Verified ==>
                            || Verifies(e, key, rows[key])
                            || (key in st.tables.mappings && Kept(st.tables.mappings[key], rows[key]))
  {
    hide UpsertAll, Prepared, Remember;
    match e
    case Batch(items, markSeen, now) =>
      UpsertAllKeeps(st.tables, Prepared(st.cache, items, markSeen), markSeen, now);
    case StatusChange(key, status, operator, now) => StatusKeeps(st.tables, key, status, operator, now);
    case Restart => AllKept(st.tables);
    case Elsewhere(items, markSeen, now) => UpsertAllKeeps(st.tables, items, markSeen, now);
  }

  lemma AllKept(t: Tables)
    ensures OnlyKept(t, t)
  {
  }

  lemma StatusKeeps(t: Tables, key: PairKey, status: Status, operator: Option<string>, now: int)
    requires Sound(t)
    ensures Sound(SetStatus(t, key, status, operator, now))
    ensures var rows := SetStatus(t, key, status, operator, now).mappings;
            forall k :: k in rows && rows[k].status == Verified ==>
                          || Verifies(StatusChange(key, status, operator, now), k, rows[k])
                          || (k in t.mappings && Kept(t.mappings[k], rows[k]))
  {
  }

  /** In every reachable state a mapping has a verification time iff it is verified, and an operator only then. */
  lemma {:induction false} AlwaysSound(events: seq<Event>)
    ensures Sound(Run(events).tables)
    ensures forall row <- Run(events).tables.mappings.Values ::
              && (row.verifiedAt.Some? <==> row.status == Verified)
              && (row.verifiedBy.Some? ==> row.status == Verified)
  {
    hide Apply;
    if events != [] {
      AlwaysSound(events[..|events| - 1]);
      ApplyKeeps(Run(events[..|events| - 1]), events[|events| - 1]);
    }
  }

  lemma PrefixOfPrefix(events: seq<Event>, n: nat, j: nat)
    requires j <= n <= |events|
    ensures events[..n][..j] == events[..j]
  {
  }

  lemma {:induction false} VerificationTraced(events: seq<Event>, key: PairKey)
    requires key in Run(events).tables.mappings && Run(events).tables.mappings[key].status == Verified
    ensures exists i :: 0 <= i < |events| && VerifiedSince(events, i, key)
  {
    hide Apply, Kept;
    var n := |events| - 1;
    var front := events[..n];
    var before, after := Run(front).tables.mappings, Run(events).tables.mappings;
    AlwaysSound(front);
    ApplyKeeps(Run(front), events[n]);
    assert events[..n + 1] == events;
    if Verifies(events[n], key, after[key]) {
      KeptItself(after[key]);
      assert VerifiedSince(events, n, key);
    } else {
      assert Kept(before[key], after[key]);
      WasVerified(before[key], after[key]);
      VerificationTraced(front, key);
      var i :| 0 <= i < |front| && VerifiedSince(front, i, key);
      PrefixOfPrefix(events, n, i + 1);
      var first := Run(events[..i + 1]).tables.mappings;
      assert front[..n] == front;
      KeptTransitive(first[key], before[key], after[key]);
      forall j | i < j <= |events|
        ensures key in Run(events[..j]).tables.mappings && Kept(first[key], Run(events[..j]).tables.mappings[key])
      {
        if j <= n {
          PrefixOfPrefix(events, n, j);
        }
      }
      assert VerifiedSince(events, i, key);
    }
  }

  /**
   Every verified mapping of every reachable state was verified by an operator's event, whose time
   and operator it carries, and in every state since then it has stayed verified with the same
   fingerprint and canonical market, its strategy the same or gone from none to the exact one.
   */
  lemma VerifiedHasHistory(events: seq<Event>, key: PairKey) returns (i: nat)
    requires key in Run(events).tables.mappings && Run(events).tables.mappings[key].status == Verified
    ensures var row := Run(events).tables.mappings[key];
            && i < |events| && events[i].StatusChange? && events[i].key == key && events[i].status == Verified
            && row.verifiedAt == Some(events[i].now) && row.verifiedBy == events[i].operator
            && forall j :: i < j <= |events| ==>
                 var rows := Run(events[..j]).tables.mappings;
                 && key in rows && rows[key].status == Verified
                 && rows[key].fingerprint == row.fingerprint && rows[key].canonical == row.canonical
                 && rows[key].verifiedAt == row.verifiedAt && rows[key].verifiedBy == row.verifiedBy
    ensures var first, row := Run(events[..i + 1]).tables.mappings, Run(events).tables.mappings[key];
            && key in first
            && (row.strategy == first[key].strategy
                || (first[key].strategy == None && row.strategy == Some("exact_id")))
  {
    hide Run;
    VerificationTraced(events, key);
    i :| 0 <= i < |events| && VerifiedSince(events, i, key);
    assert events[..|events|] == events;
    var first, row := Run(events[..i + 1]).tables.mappings[key], Run(events).tables.mappings[key];
    assert Kept(first, row);
    forall j | i < j <= |events|
      ensures key in Run(events[..j]).tables.mappings && Kept(first, Run(events[..j]).tables.mappings[key])
    {
    }
  }

  lemma WasVerified(before: MappingRow, after: MappingRow)
    requires Kept(before, after)
    ensures before.status == Verified
  {
  }

  // ---------- The cache skips nothing that matters ----------

  predicate Alike(c: Item, d: Item) {
    CacheKeyOf(c) == CacheKeyOf(d) && SignatureOf(c) == SignatureOf(d)
  }

  /** The two candidates write the same to the same rows. */
  ghost predicate SameWrites(c: Item, d: Item) {
    && c.canonical == d.canonical && c.cutoff == d.cutoff && c.fingerprint == d.fingerprint
    && c.source == d.source && c.category == d.category && c.strategy == d.strategy
    && (forall leg :: leg in c.legs <==> leg in d.legs) && (forall key :: key in PairsOf(c) <==> key in PairsOf(d))
  }

  /** Candidates under one cache key and signature write the same iff their optional texts and their pairs agree. */
  lemma AlikeWritesSameIff(c: Item, d: Item)
    requires Alike(c, d)
    ensures SameWrites(c, d) <==>
              && c.source == d.source && c.category == d.category && c.strategy == d.strategy
              && (forall key :: key in PairsOf(c) <==> key in PairsOf(d))
  {
    hide PairsOf, SortBy;
    SameMembers(SortBy(VenueOf, c.legs), c.legs);
    SameMembers(SortBy(VenueOf, d.legs), d.legs);
  }

  predicate NoEmptyText(c: Item) {
    c.source != Some("") && c.category != Some("") && c.strategy != Some("")
  }

  lemma SameText(a: Option<string>, b: Option<string>)
    requires OrElse(a, "") == OrElse(b, "") && a != Some("") && b != Some("")
    ensures a == b
  {
    assert a.Some? ==> a.value != "";
    assert b.Some? ==> b.value != "";
  }

  /** No optional text is present but empty, and legs are listed alike: then equal signatures mean equal writes. */
  lemma NormalAlikeWritesSame(c: Item, d: Item)
    requires Alike(c, d) && c.legs == d.legs && NoEmptyText(c) && NoEmptyText(d)
    ensures SameWrites(c, d) && Replaces(c, d) && Replaces(d, c)
  {
    hide SortBy;
    assert PairsOf(c) == PairsOf(d);
    AlikeWritesSameIff(c, d);
    SameText(c.source, d.source);
    SameText(c.category, d.category);
    SameText(c.strategy, d.strategy);
    SameWritesReplace(c, d);
  }

  /**
   The tables that already say what c writes also say what d writes: told by the candidates alone,
   given that they share cache key and signature.
   */
  ghost predicate Replaces(c: Item, d: Item) {
    && (c.legs != [] ==> c.source == d.source && c.category == d.category)
    && (forall key :: key in PairsOf(d) ==> key in PairsOf(c))
    && (PairsOf(d) != [] ==> d.strategy.None? || c.strategy == d.strategy)
  }

  lemma ReplacesSettles(t: Tables, c: Item, d: Item)
    requires Alike(c, d) && Replaces(c, d) && Settled(t, c)
    ensures Settled(t, d)
  {
    hide PairsOf, SortBy;
    SameMembers(SortBy(VenueOf, c.legs), c.legs);
    SameMembers(SortBy(VenueOf, d.legs), d.legs);
    forall j | 0 <= j < |d.legs|
      ensures KeyOf(d.legs[j]) in t.instruments && InstrumentSettled(t.instruments[KeyOf(d.legs[j])], d, d.legs[j])
    {
      assert d.legs[j] in d.legs && d.legs[j] in c.legs;
      var i :| 0 <= i < |c.legs| && c.legs[i] == d.legs[j];
    }
    forall key | key in PairsOf(d)
      ensures key in t.mappings && MappingSettled(t.mappings[key], d)
    {
      assert PairsOf(d) != [];
    }
  }

  lemma FirstWriteTells(c: Item, d: Item, now: int)
    requires c.Valid() && Alike(c, d) && Settled(Upsert(START.tables, c, false, now), d)
    ensures Replaces(c, d)
  {
    hide PairsOf, SortBy, AddInstruments, AddMappings;
    var t := Upsert(START.tables, c, false, now);
    UpsertSettles(START.tables, c, false, now);
    SameMembers(SortBy(VenueOf, c.legs), c.legs);
    SameMembers(SortBy(VenueOf, d.legs), d.legs);
    if c.legs != [] {
      assert c.legs[0] in c.legs && c.legs[0] in d.legs;
      var j :| 0 <= j < |d.legs| && d.legs[j] == c.legs[0];
      assert InstrumentSettled(t.instruments[KeyOf(c.legs[0])], c, c.legs[0]);
      assert InstrumentSettled(t.instruments[KeyOf(d.legs[j])], d, d.legs[j]);
    }
    forall key | key in PairsOf(d)
      ensures key in PairsOf(c) && (d.strategy.None? || c.strategy == d.strategy)
    {
      MappingsAt(map[], c, PairsOf(c), false, now, key);
    }
    if PairsOf(d) != [] {
      assert PairsOf(d)[0] in PairsOf(d);
    }
  }

  /** Exactly when one candidate may stand for another of its cache key and signature, whatever the tables. */
  lemma ReplacesIff(c: Item, d: Item)
    requires c.Valid() && Alike(c, d)
    ensures (forall t :: Settled(t, c) ==> Settled(t, d)) <==> Replaces(c, d)
  {
    hide Upsert, Settled, Replaces, Alike;
    if Replaces(c, d) {
      forall t | Settled(t, c)
        ensures Settled(t, d)
      {
        ReplacesSettles(t, c, d);
      }
    }
    if forall t :: Settled(t, c) ==> Settled(t, d) {
      UpsertSettles(START.tables, c, false, 0);
      FirstWriteTells(c, d, 0);
    }
  }

  lemma SameWritesReplace(c: Item, d: Item)
    requires SameWrites(c, d)
    ensures Replaces(c, d) && Replaces(d, c)
  {
    hide PairsOf;
  }

  /**
   What the candidates of a run must satisfy among themselves: under different cache keys they agree on
   the rows they share, under one key and signature they may stand for each other.
   */
  ghost predicate Harmonious(items: set<Item>) {
    && (forall c :: c in items ==> c.Valid())
    && (forall c, d :: c in items && d in items && CacheKeyOf(c) != CacheKeyOf(d) ==> Compatible(c, d))
    && (forall c, d :: c in items && d in items && Alike(c, d) ==> Replaces(c, d))
  }

  /** Where a batch lists one cache key under two signatures, the two agree on the rows they share. */
  ghost predicate Consistent(batch: seq<Item>) {
    forall i, j :: 0 <= i < j < |batch| && CacheKeyOf(batch[i]) == CacheKeyOf(batch[j]) ==>
                     SignatureOf(batch[i]) == SignatureOf(batch[j]) || Compatible(batch[i], batch[j])
  }

  ghost predicate From(batch: seq<Item>, items: set<Item>) {
    forall k :: 0 <= k < |batch| ==> batch[k] in items
  }

  /** What other processes write agrees with every candidate but those of the same key and signature. */
  ghost predicate Agreeable(batch: seq<Item>, items: set<Item>) {
    forall k, c :: 0 <= k < |batch| && c in items && !Alike(c, batch[k]) ==> Compatible(c, batch[k])
  }

  ghost predicate WellFed(events: seq<Event>, items: set<Item>) {
    && (forall i :: 0 <= i < |events| && events[i].Batch? ==>
         Consistent(events[i].items) && From(events[i].items, items))
    && (forall i :: 0 <= i < |events| && events[i].Elsewhere? ==>
                      Agreeable(events[i].items, items) && From(events[i].items, items))
  }

  /** Every candidate the cache would skip is already in the tables. */
  ghost predicate CacheSettled(t: Tables, cache: map<CacheKey, Signature>, items: set<Item>) {
    forall c :: c in items && Cached(cache, c) ==> Settled(t, c)
  }

  lemma UpsertKeepsSettled(t: Tables, items: set<Item>, c: Item, d: Item, markSeen: bool, now: int)
    requires Harmonious(items) && c in items && d in items && Settled(t, c)
    requires CacheKeyOf(c) == CacheKeyOf(d) ==> SignatureOf(c) == SignatureOf(d) || Compatible(c, d)
    ensures Settled(Upsert(t, d, markSeen, now), c)
  {
    hide Settled, Upsert, Compatible, Replaces, CacheKeyOf, SignatureOf;
    if CacheKeyOf(c) == CacheKeyOf(d) && SignatureOf(c) == SignatureOf(d) {
      assert Alike(c, d) && Alike(d, c);
      UpsertSettles(t, d, markSeen, now);
      ReplacesSettles(Upsert(t, d, markSeen, now), d, c);
    } else {
      CompatibleKeepsSettled(t, c, d, markSeen, now);
    }
  }

  /** Nothing of one's own cache key has been picked that disagrees on shared rows. */
  ghost predicate Unchallenged(picked: seq<Item>, c: Item) {
    forall i :: 0 <= i < |picked| ==> CacheKeyOf(picked[i]) != CacheKeyOf(c) || Compatible(c, picked[i])
  }

  /** Within a batch: what is picked is settled, and what was cached stays so while it is unchallenged. */
  ghost predicate BatchInv(t: Tables, cache: map<CacheKey, Signature>, items: set<Item>, picked: seq<Item>) {
    && (forall i :: 0 <= i < |picked| ==> picked[i] in items && Settled(t, picked[i]))
    && (forall c :: c in items && Cached(cache, c) && Unchallenged(picked, c) ==> Settled(t, c))
  }

  lemma {:induction false} PreparedAre(cache: map<CacheKey, Signature>, batch: seq<Item>, markSeen: bool)
    ensures forall i :: 0 <= i < |Prepared(cache, batch, markSeen)| ==>
                          Prepared(cache, batch, markSeen)[i] in batch
                          && (markSeen || !Cached(cache, Prepared(cache, batch, markSeen)[i]))
  {
    hide Cached;
    if batch != [] {
      PreparedAre(cache, batch[..|batch| - 1], markSeen);
      assert batch[|batch| - 1] in batch;
    }
  }

  lemma CompatibleSymmetric(c: Item, d: Item)
    requires Compatible(c, d)
    ensures Compatible(d, c)
  {
    hide PairsOf;
    forall j, i | 0 <= j < |d.legs| && 0 <= i < |c.legs|
      ensures LegsAgree(d, c, d.legs[j], c.legs[i])
    {
      assert LegsAgree(c, d, c.legs[i], d.legs[j]);
    }
  }

  lemma PickedMatches(cache: map<CacheKey, Signature>, batch: seq<Item>, markSeen: bool, n: nat, i: nat)
    requires Consistent(batch) && n < |batch| && i < |Prepared(cache, batch[..n], markSeen)|
    ensures var p := Prepared(cache, batch[..n], markSeen)[i];
            && (CacheKeyOf(p) == CacheKeyOf(batch[n])
                ==> SignatureOf(p) == SignatureOf(batch[n]) || Compatible(p, batch[n]))
            && (!markSeen && Cached(cache, batch[n])
                ==> CacheKeyOf(p) != CacheKeyOf(batch[n]) || Compatible(batch[n], p))
  {
    hide Prepared, CacheKeyOf, SignatureOf, Compatible;
    PreparedAre(cache, batch[..n], markSeen);
    var p := Prepared(cache, batch[..n], markSeen)[i];
    assert p in batch[..n];
    var k :| 0 <= k < n && batch[..n][k] == p;
    assert batch[k] == p;
    if Compatible(p, batch[n]) {
      CompatibleSymmetric(p, batch[n]);
    }
  }

  lemma BatchSkip(t: Tables, cache: map<CacheKey, Signature>, items: set<Item>, batch: seq<Item>, n: nat, now: int)
    requires Harmonious(items) && Consistent(batch) && n < |batch| && batch[n] in items && Cached(cache, batch[n])
    requires BatchInv(t, cache, items, Prepared(cache, batch[..n], false))
    ensures Upsert(t, batch[n], false, now) == t
  {
    hide Upsert, Settled, Prepared, CacheKeyOf, SignatureOf, Consistent, Compatible, Replaces;
    var picked := Prepared(cache, batch[..n], false);
    forall i | 0 <= i < |picked|
      ensures CacheKeyOf(picked[i]) != CacheKeyOf(batch[n]) || Compatible(batch[n], picked[i])
    {
      PickedMatches(cache, batch, false, n, i);
    }
    assert Unchallenged(picked, batch[n]);
    SettledIsNoop(t, batch[n], now);
  }

  lemma BatchPick(t: Tables, cache: map<CacheKey, Signature>, items: set<Item>, batch: seq<Item>, n: nat,
                  markSeen: bool, now: int)
    requires Harmonious(items) && Consistent(batch) && n < |batch| && batch[n] in items
    requires BatchInv(t, cache, items, Prepared(cache, batch[..n], markSeen))
    ensures BatchInv(Upsert(t, batch[n], markSeen, now), cache, items,
                     Prepared(cache, batch[..n], markSeen) + [batch[n]])
  {
    hide Upsert, Settled, Prepared, CacheKeyOf, SignatureOf, Consistent, Compatible, Replaces, Harmonious, Cached;
    var picked := Prepared(cache, batch[..n], markSeen);
    var d := batch[n];
    var next, more := Upsert(t, d, markSeen, now), picked + [d];
    forall i | 0 <= i < |more|
      ensures more[i] in items && Settled(next, more[i])
    {
      if i < |picked| {
        PickedMatches(cache, batch, markSeen, n, i);
        UpsertKeepsSettled(t, items, picked[i], d, markSeen, now);
      } else {
        HarmoniousValid(items, d);
        UpsertSettles(t, d, markSeen, now);
      }
    }
    forall c | c in items && Cached(cache, c) && Unchallenged(more, c)
      ensures Settled(next, c)
    {
      assert forall i :: 0 <= i < |picked| ==> picked[i] == more[i];
      assert more[|picked|] == d && Unchallenged(picked, c);
      UpsertKeepsSettled(t, items, c, d, markSeen, now);
    }
  }

  lemma HarmoniousValid(items: set<Item>, c: Item)
    requires Harmonious(items) && c in items
    ensures c.Valid()
  {
  }

  /** One batch: skipping the cached candidates leaves the same tables. */
  lemma {:induction false} BatchAgrees(t: Tables, cache: map<CacheKey, Signature>, items: set<Item>, batch: seq<Item>,
                                       n: nat, markSeen: bool, now: int)
    requires Harmonious(items) && Consistent(batch) && CacheSettled(t, cache, items) && n <= |batch|
    requires forall k :: 0 <= k < |batch| ==> batch[k] in items
    ensures var picked := Prepared(cache, batch[..n], markSeen);
            && UpsertAll(t, picked, markSeen, now) == UpsertAll(t, batch[..n], markSeen, now)
            && BatchInv(UpsertAll(t, picked, markSeen, now), cache, items, picked)
  {
    hide Upsert, Harmonious, Consistent, Cached, BatchInv, UpsertAll, Prepared, CacheSettled;
    EmptyBatch(t, cache, items, markSeen, now);
    if n == 0 {
      assert batch[..n] == [];
    } else {
      BatchAgrees(t, cache, items, batch, n - 1, markSeen, now);
      var d, picked := batch[n - 1], Prepared(cache, batch[..n - 1], markSeen);
      var here := UpsertAll(t, picked, markSeen, now);
      BatchGrows(t, cache, batch, n, markSeen, now);
      if markSeen || !Cached(cache, d) {
        BatchPick(here, cache, items, batch, n - 1, markSeen, now);
      } else {
        BatchSkip(here, cache, items, batch, n - 1, now);
      }
    }
  }

  lemma BatchGrows(t: Tables, cache: map<CacheKey, Signature>, batch: seq<Item>, n: nat, markSeen: bool, now: int)
    requires 0 < n <= |batch|
    ensures var d, picked := batch[n - 1], Prepared(cache, batch[..n - 1], markSeen);
            && Prepared(cache, batch[..n], markSeen) == (if markSeen || !Cached(cache, d) then picked + [d] else picked)
            && UpsertAll(t, batch[..n], markSeen, now)
                == Upsert(UpsertAll(t, batch[..n - 1], markSeen, now), d, markSeen, now)
            && UpsertAll(t, picked + [d], markSeen, now)
                == Upsert(UpsertAll(t, picked, markSeen, now), d, markSeen, now)
  {
    hide Upsert, Cached;
    assert batch[..n][..n - 1] == batch[..n - 1];
    var picked := Prepared(cache, batch[..n - 1], markSeen);
    assert (picked + [batch[n - 1]])[..|picked|] == picked;
  }

  lemma EmptyBatch(t: Tables, cache: map<CacheKey, Signature>, items: set<Item>, markSeen: bool, now: int)
    requires CacheSettled(t, cache, items)
    ensures Prepared(cache, [], markSeen) == [] && UpsertAll(t, [], markSeen, now) == t && BatchInv(t, cache, items, [])
  {
  }

  lemma {:induction false} Remembered(cache: map<CacheKey, Signature>, picked: seq<Item>, c: Item)
    requires Cached(Remember(cache, picked), c)
    ensures || (exists i :: 0 <= i < |picked| && Alike(picked[i], c))
            || (Cached(cache, c) && forall i :: 0 <= i < |picked| ==> CacheKeyOf(picked[i]) != CacheKeyOf(c))
  {
    hide CacheKeyOf, SignatureOf;
    if picked != [] {
      var n := |picked| - 1;
      if CacheKeyOf(picked[n]) == CacheKeyOf(c) {
        assert Alike(picked[n], c);
      } else {
        Remembered(cache, picked[..n], c);
        if i :| 0 <= i < n && Alike(picked[..n][i], c) {
          assert Alike(picked[i], c);
        }
      }
    }
  }

  lemma BatchSettlesCache(t: Tables, cache: map<CacheKey, Signature>, items: set<Item>, picked: seq<Item>)
    requires Harmonious(items) && BatchInv(t, cache, items, picked)
    ensures CacheSettled(t, Remember(cache, picked), items)
  {
    hide Settled, Compatible, Replaces, Remember, CacheKeyOf, SignatureOf, Cached;
    forall c | c in items && Cached(Remember(cache, picked), c)
      ensures Settled(t, c)
    {
      Remembered(cache, picked, c);
      if i :| 0 <= i < |picked| && Alike(picked[i], c) {
        ReplacesSettles(t, picked[i], c);
      }
    }
  }

  lemma StatusKeepsSettled(t: Tables, key: PairKey, status: Status, operator: Option<string>, now: int, c: Item)
    requires Settled(t, c)
    ensures Settled(SetStatus(t, key, status, operator, now), c)
  {
    hide PairsOf;
  }

  /**
   Cache transparency. When candidates under different cache keys agree on the rows they share and
   candidates of one key and signature may stand for each other, every run of consistent batches that
   skips cached candidates leaves exactly the tables of the run that upserts all of them, whatever
   operators do in between, however often the process restarts, and with agreeable upserts by others.
   */
  lemma {:induction false} SkippingIsTransparent(events: seq<Event>, items: set<Item>)
    requires Harmonious(items) && WellFed(events, items)
    ensures Run(events).tables == PlainRun(events)
    ensures CacheSettled(Run(events).tables, Run(events).cache, items)
  {
    hide Harmonious, Consistent, UpsertAll, Prepared, Remember, SetStatus, BatchInv, Cached;
    if events == [] {
      assert CacheSettled(START.tables, START.cache, items) by {
        NothingCached(items);
      }
    } else {
      var n := |events| - 1;
      var st := Run(events[..n]);
      assert WellFed(events[..n], items);
      SkippingIsTransparent(events[..n], items);
      match events[n]
      case Batch(batch, markSeen, now) =>
        BatchAgrees(st.tables, st.cache, items, batch, |batch|, markSeen, now);
        assert batch[..|batch|] == batch;
        var picked := Prepared(st.cache, batch, markSeen);
        BatchSettlesCache(UpsertAll(st.tables, picked, markSeen, now), st.cache, items, picked);
      case StatusChange(key, status, operator, now) =>
        forall c | c in items && Cached(st.cache, c)
          ensures Settled(SetStatus(st.tables, key, status, operator, now), c)
        {
          StatusKeepsSettled(st.tables, key, status, operator, now, c);
        }
      case Restart => NothingCachedAnew(st.tables, items);
      case Elsewhere(batch, markSeen, now) => ElsewhereKeepsSettled(st.tables, st.cache, items, batch, markSeen, now);
    }
  }

  lemma NothingCachedAnew(t: Tables, items: set<Item>)
    ensures CacheSettled(t, map[], items)
  {
  }

  /** Agreeable upserts by other processes leave what the cache would skip settled. */
  lemma {:induction false} ElsewhereKeepsSettled(t: Tables, cache: map<CacheKey, Signature>, items: set<Item>,
                                                 batch: seq<Item>, markSeen: bool, now: int)
    requires Harmonious(items) && CacheSettled(t, cache, items) && Agreeable(batch, items) && From(batch, items)
    ensures CacheSettled(UpsertAll(t, batch, markSeen, now), cache, items)
  {
    hide Harmonious, Settled, Upsert, Compatible, Cached, CacheKeyOf, SignatureOf;
    if batch != [] {
      var n := |batch| - 1;
      var before := UpsertAll(t, batch[..n], markSeen, now);
      ElsewhereKeepsSettled(t, cache, items, batch[..n], markSeen, now);
      forall c | c in items && Cached(cache, c)
        ensures Settled(Upsert(before, batch[n], markSeen, now), c)
      {
        assert Alike(c, batch[n]) || Compatible(c, batch[n]);
        UpsertKeepsSettled(before, items, c, batch[n], markSeen, now);
      }
    }
  }

  lemma NothingCached(items: set<Item>)
    ensures CacheSettled(START.tables, START.cache, items)
  {
  }
}
