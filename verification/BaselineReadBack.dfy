/**
 Reading stored baselines back: exactly which of them are intact, for any numeric column, over every
 run, and for the baselines the command line builds.
 */
module BaselineReadBack {
  import opened Collections
  import opened Text
  import opened DecimalText
  import opened DecimalColumn
  import opened ExternalBaseline
  import opened BaselineStore

  // ---------- The items of a baseline ----------

  lemma {:induction false} ItemsOfAppend(a: seq<Item>, b: seq<Item>, manifest: string)
    ensures ItemsOf(a + b, manifest) == ItemsOf(a, manifest) + ItemsOf(b, manifest)
  {
    if b == [] {
      assert a + b == a;
    } else {
      ItemsOfAppend(a, b[..|b| - 1], manifest);
      assert (a + b)[..|a + b| - 1] == a + b[..|b| - 1];
    }
  }

  lemma {:induction false} ItemsOfAll(items: seq<Item>, manifest: string)
    requires forall i :: 0 <= i < |items| ==> items[i].manifest == manifest
    ensures ItemsOf(items, manifest) == items
  {
    if items != [] {
      ItemsOfAll(items[..|items| - 1], manifest);
    }
  }

  lemma {:induction false} ItemsOfNone(items: seq<Item>, manifest: string)
    requires forall i :: 0 <= i < |items| ==> items[i].manifest != manifest
    ensures ItemsOf(items, manifest) == []
  {
    if items != [] {
      ItemsOfNone(items[..|items| - 1], manifest);
    }
  }

  lemma {:induction false} PositionsAppend(a: seq<Item>, b: seq<Item>)
    ensures PositionsIn(a + b) == PositionsIn(a) + PositionsIn(b)
  {
    if b == [] {
      assert a + b == a;
    } else {
      PositionsAppend(a, b[..|b| - 1]);
      assert (a + b)[..|a + b| - 1] == a + b[..|b| - 1];
    }
  }

  lemma {:induction false} FillRefsAppend(a: seq<Item>, b: seq<Item>)
    ensures FillRefsIn(a + b) == FillRefsIn(a) + FillRefsIn(b)
  {
    if b == [] {
      assert a + b == a;
    } else {
      FillRefsAppend(a, b[..|b| - 1]);
      assert (a + b)[..|a + b| - 1] == a + b[..|b| - 1];
    }
  }

  /** Positions as the numeric column keeps them. */
  function Columned(s: Settings, ps: seq<Position>): (r: seq<Position>)
    ensures |r| == |ps|
    ensures forall i :: 0 <= i < |ps| && ps[i].quantity.Finite? ==>
             r[i] == Position(ps[i].token, Finite(s.column(ps[i].quantity.value)))
  {
    seq(|ps|, i requires 0 <= i < |ps| =>
      if ps[i].quantity.Finite? then Position(ps[i].token, Finite(s.column(ps[i].quantity.value))) else ps[i])
  }

  lemma {:induction false} PositionItemsGive(s: Settings, manifest: string, ps: seq<Position>)
    requires forall i :: 0 <= i < |ps| ==> ps[i].quantity.Finite?
    ensures PositionsIn(PositionItems(s, manifest, ps)) == Columned(s, ps)
            && FillRefsIn(PositionItems(s, manifest, ps)) == []
  {
    if ps != [] {
      var n := |ps| - 1;
      PositionItemsGive(s, manifest, ps[..n]);
      assert PositionItems(s, manifest, ps)[..n] == PositionItems(s, manifest, ps[..n]);
      assert Columned(s, ps) == Columned(s, ps[..n]) + [Columned(s, ps)[n]];
    }
  }

  lemma {:induction false} FillRefItemsGive(manifest: string, refs: seq<string>)
    ensures PositionsIn(FillRefItems(manifest, refs)) == [] && FillRefsIn(FillRefItems(manifest, refs)) == refs
  {
    if refs != [] {
      var n := |refs| - 1;
      FillRefItemsGive(manifest, refs[..n]);
      assert FillRefItems(manifest, refs)[..n] == FillRefItems(manifest, refs[..n]);
      assert refs == refs[..n] + [refs[n]];
    }
  }

  lemma NewItemsGive(s: Settings, b: Baseline)
    requires forall i :: 0 <= i < |b.positions| ==> b.positions[i].quantity.Finite?
    ensures ItemsOf(NewItems(s, b), b.manifest) == NewItems(s, b) && ItemsValid(NewItems(s, b))
    ensures PositionsIn(NewItems(s, b)) == Columned(s, b.positions) && FillRefsIn(NewItems(s, b)) == b.fillRefs
  {
    hide PositionsIn, FillRefsIn, ItemsOf, Columned;
    ItemsOfAll(NewItems(s, b), b.manifest);
    PositionsAppend(PositionItems(s, b.manifest, b.positions), FillRefItems(b.manifest, b.fillRefs));
    FillRefsAppend(PositionItems(s, b.manifest, b.positions), FillRefItems(b.manifest, b.fillRefs));
    PositionItemsGive(s, b.manifest, b.positions);
    FillRefItemsGive(b.manifest, b.fillRefs);
  }

  lemma FreshItems(s: Settings, t: Tables, b: Baseline)
    requires ItemsOwned(t) && FindManifest(t.baselines, b.manifest).None?
    requires forall i :: 0 <= i < |b.positions| ==> b.positions[i].quantity.Finite?
    ensures ItemsOf(t.items + NewItems(s, b), b.manifest) == NewItems(s, b)
  {
    ItemsOfAppend(t.items, NewItems(s, b), b.manifest);
    ItemsOfNone(t.items, b.manifest);
    NewItemsGive(s, b);
  }

  lemma OtherItemsKept(s: Settings, t: Tables, b: Baseline, manifest: string)
    requires manifest != b.manifest
    ensures ItemsOf(t.items + NewItems(s, b), manifest) == ItemsOf(t.items, manifest)
  {
    ItemsOfAppend(t.items, NewItems(s, b), manifest);
    ItemsOfNone(NewItems(s, b), manifest);
  }

  // ---------- What the column keeps ----------

  /** What the column makes of contents. */
  function Stored(s: Settings, c: Contents): Contents {
    c.(positions := Columned(s, c.positions))
  }

  /** The digest tells the payloads of two contents apart, where both have one. */
  ghost predicate Distinguishes(s: Settings, c: Contents, d: Contents) {
    Canonical(c).Accepted? && Canonical(d).Accepted? && s.digest(Canonical(c).payload) == s.digest(Canonical(d).payload)
    ==> Canonical(c) == Canonical(d)
  }

  /** The payload of a baseline and that of what the column makes of it do not collide. */
  ghost predicate NoCollision(s: Settings, b: Baseline) {
    Distinguishes(s, ContentsOf(b), Stored(s, ContentsOf(b)))
  }

  /** Every quantity prints the same after the column has stored it. */
  ghost predicate Keeps(s: Settings, ps: seq<Position>) {
    forall i :: 0 <= i < |ps| && Positive(ps[i].quantity)
        ==> PrintsAlike(s.column(ps[i].quantity.value), ps[i].quantity.value)
  }

  lemma EntriesKept(s: Settings, ps: seq<Position>)
    requires PositionsValid(ps) && Keeps(s, ps)
    ensures PositionsValid(Columned(s, ps)) && Entries(Columned(s, ps)) == Entries(ps)
  {
    hide Trim, ValidKey, CanonicalDecimal;
    forall i | 0 <= i < |ps|
      ensures Positive(Columned(s, ps)[i].quantity) && EntryOf(Columned(s, ps)[i]) == EntryOf(ps[i])
    {
      assert PrintsAlike(s.column(ps[i].quantity.value), ps[i].quantity.value);
    }
  }

  lemma EntryTells(s: Settings, ps: seq<Position>, i: nat)
    requires PositionsValid(ps) && PositionsValid(Columned(s, ps)) && i < |ps|
    requires EntryOf(Columned(s, ps)[i]) in Entries(ps)
    ensures PrintsAlike(s.column(ps[i].quantity.value), ps[i].quantity.value)
  {
    hide Trim, ValidKey, CanonicalDecimal;
    EntriesAt(ps, EntryOf(Columned(s, ps)[i]));
    var j :| 0 <= j < |ps| && EntryOf(ps[j]) == EntryOf(Columned(s, ps)[i]);
    assert Trim(ps[j].token) == Trim(ps[i].token);
    assert j == i;
    assert Positive(Columned(s, ps)[i].quantity);
  }

  lemma SameEntries(c: Contents, d: Contents)
    requires Canonical(c).Accepted? && Canonical(d) == Canonical(c)
    ensures PositionsValid(c.positions) && PositionsValid(d.positions)
    ensures forall e :: e in Entries(c.positions) <==> e in Entries(d.positions)
  {
    hide Trim, Lower, SortBy, IdentityValid, PositionsValid, FillRefsValid, FirstPositionFault, FirstFillRefFault,
         Entries, DistinctBy;
    AcceptedIff(c);
    AcceptedIff(d);
    KeysDistinct(c);
    KeysDistinct(d);
    SortEqualIff(TokenOf, Entries(c.positions), Entries(d.positions));
  }

  lemma KeptAccepted(s: Settings, c: Contents)
    requires Canonical(c).Accepted? && Keeps(s, c.positions)
    ensures Canonical(c.(positions := Columned(s, c.positions))) == Canonical(c)
  {
    hide Trim, Lower, SortBy, IsHexDigest, PositionsValid, FillRefsValid, FirstPositionFault, FirstFillRefFault,
         Entries, Keeps, Columned;
    AcceptedIff(c);
    EntriesKept(s, c.positions);
    AcceptedIff(c.(positions := Columned(s, c.positions)));
  }

  /** What the column stores has the same canonical payload iff the column keeps every quantity. */
  lemma ColumnedPayloadIff(s: Settings, c: Contents)
    requires Canonical(c).Accepted?
    ensures Canonical(c.(positions := Columned(s, c.positions))) == Canonical(c) <==> Keeps(s, c.positions)
  {
    hide Canonical, PositionsValid, Columned, PrintsAlike, EntryOf;
    var stored := c.(positions := Columned(s, c.positions));
    if Keeps(s, c.positions) {
      KeptAccepted(s, c);
    }
    if Canonical(stored) == Canonical(c) {
      SameEntries(c, stored);
      forall i | 0 <= i < |c.positions| && Positive(c.positions[i].quantity)
        ensures PrintsAlike(s.column(c.positions[i].quantity.value), c.positions[i].quantity.value)
      {
        EntryListed(stored.positions, i);
        EntryTells(s, c.positions, i);
      }
    }
  }

  lemma EntryListed(ps: seq<Position>, i: nat)
    requires i < |ps|
    ensures EntryOf(ps[i]) in Entries(ps)
  {
    assert Entries(ps)[i] == EntryOf(ps[i]);
  }

  // ---------- Reading one row back ----------

  /** The k-th row and its items are what activating b first stored, whatever its status since. */
  ghost predicate StoredFrom(s: Settings, t: Tables, k: nat, b: Baseline)
    requires k < |t.baselines|
  {
    var row := t.baselines[k];
    && row.manifest == b.manifest && row.runtime == b.runtime && row.venue == b.venue && row.account == b.account
    && ItemsOf(t.items, b.manifest) == NewItems(s, b) && ContentsCheck(s, b).None?
  }

  /** The baseline that reading the row back gives when it is intact. */
  function Kept(s: Settings, row: BaselineRow, b: Baseline): Baseline {
    b.(positions := SortBy(RawToken, Columned(s, b.positions)), fillRefs := SortBy(Itself, b.fillRefs),
       captured := row.captured, operator := row.operator, revokedAt := row.revokedAt)
  }

  /**
   Exactly which rows read back intact, for any column: those under a lower-case manifest whose
   quantities the column keeps. Only if needs that the two payloads at hand do not collide.
   */
  lemma ReadsBackIff(s: Settings, t: Tables, k: nat, b: Baseline)
    requires s.Valid() && k < |t.baselines| && StoredFrom(s, t, k, b)
    ensures Lower(b.manifest) == b.manifest && Keeps(s, b.positions)
            ==> ReadRow(s, t, k) == Intact(Kept(s, t.baselines[k], b))
    ensures Lower(b.manifest) != b.manifest ==> !ReadRow(s, t, k).Intact?
    ensures NoCollision(s, b)
            ==> (ReadRow(s, t, k).Intact? <==> Lower(b.manifest) == b.manifest && Keeps(s, b.positions))
  {
    hide Lower, Trim, SortBy, Canonical, ItemsOf, Columned, PositionsIn, FillRefsIn, NewItems, ContentsCheck, Keeps,
         IsHexDigest;
    CheckedRuntime(s, b);
    AcceptedIff(ContentsOf(b));
    NewItemsGive(s, b);
    ColumnedPayloadIff(s, ContentsOf(b));
    var stored := ContentsOf(b).(positions := Columned(s, b.positions));
    assert StoredContents(t.baselines[k], NewItems(s, b)) == stored;
    if Canonical(stored).Accepted? {
      HexIsClean(s.digest(Canonical(stored).payload));
    }
    HexIsClean(s.digest(Canonical(ContentsOf(b)).payload));
  }

  /** A new activation stores its own row and items, and reads back as they do. */
  lemma ActivatedReadsBack(s: Settings, t: Tables, b: Baseline)
    requires s.Valid() && ItemsOwned(t)
    requires Activate(s, t, b).1.Changed? && FindManifest(t.baselines, b.manifest).None?
    ensures var next, k := Activate(s, t, b).0, |t.baselines|;
            && |next.baselines| == k + 1 && StoredFrom(s, next, k, b)
            && (Lower(b.manifest) == b.manifest && Keeps(s, b.positions) ==>
                  ReadRow(s, next, k) == Intact(Kept(s, NewRow(b), b)))
            && (NoCollision(s, b)
                ==> (ReadRow(s, next, k).Intact? <==> Lower(b.manifest) == b.manifest && Keeps(s, b.positions)))
  {
    hide Lower, Canonical, ItemsOf, NewItems, Keeps, ReadRow, ContentsCheck, NoCollision;
    CheckedContents(s, t, b);
    FreshItems(s, t, b);
    ReadsBackIff(s, Activate(s, t, b).0, |t.baselines|, b);
  }

  lemma CheckedContents(s: Settings, t: Tables, b: Baseline)
    requires Activate(s, t, b).1.Changed?
    ensures ContentsCheck(s, b).None?
    ensures forall i :: 0 <= i < |b.positions| ==> b.positions[i].quantity.Finite?
  {
    hide Trim, Lower, FindActive, FindManifest, NewItems, FirstPositionFault, FirstFillRefFault;
    AcceptedIff(ContentsOf(b));
  }

  /**
   A first activation appends one row with the baseline's own fields and one item per position, its quantity as the
   column stores it, then one per fill reference; a re-activation touches no items. Neither touches the runs.
   */
  lemma ActivationStores(s: Settings, t: Tables, b: Baseline)
    requires Activate(s, t, b).1.Changed?
    ensures var next, n, p := Activate(s, t, b).0, |t.items|, |b.positions|;
            && next.runs == t.runs
            && if forall k :: 0 <= k < |t.baselines| ==> t.baselines[k].manifest != b.manifest then
                 && next.baselines == t.baselines + [BaselineRow(b.manifest, b.runtime, b.venue, b.account, b.operator,
                                                                 b.captured, None, None)]
                 && |next.items| == n + p + |b.fillRefs| && next.items[..n] == t.items
                 && (forall i :: 0 <= i < p ==>
                       && b.positions[i].quantity.Finite?
                       && next.items[n + i] == Item(b.manifest, PositionKind, b.positions[i].token,
                                                    Some(s.column(b.positions[i].quantity.value))))
                 && (forall i :: 0 <= i < |b.fillRefs| ==>
                       next.items[n + p + i] == Item(b.manifest, FillRefKind, b.fillRefs[i], None))
               else next.items == t.items && |next.baselines| == |t.baselines|
  {
    hide ContentsCheck, FindActive;
    CheckedContents(s, t, b);
  }

  // ---------- Every row of every run ----------

  const EMPTY: Tables := Tables([], [], [])

  /** The k-th row goes back to an activation of the run. */
  ghost predicate Activated(s: Settings, t: Tables, k: nat, events: seq<Event>)
    requires k < |t.baselines|
  {
    exists i :: 0 <= i < |events| && events[i].ActivateEvent? && StoredFrom(s, t, k, events[i].baseline)
  }

  lemma ActivateKeepsStored(s: Settings, t: Tables, a: Baseline, k: nat, b: Baseline)
    requires k < |t.baselines| && StoredFrom(s, t, k, b)
    ensures var next := Activate(s, t, a).0; k < |next.baselines| && StoredFrom(s, next, k, b)
  {
    hide ContentsCheck, NewItems, ItemsOf, FindActive;
    if FindManifest(t.baselines, a.manifest).None? {
      OtherItemsKept(s, t, a, b.manifest);
    }
  }

  lemma RevokeKeepsStored(s: Settings, t: Tables, venue: string, operator: string, manifest: string, now: int, k: nat,
                          b: Baseline)
    requires k < |t.baselines| && StoredFrom(s, t, k, b)
    ensures var next := Revoke(s, t, venue, operator, manifest, now).0;
            k < |next.baselines| && StoredFrom(s, next, k, b)
  {
    hide ContentsCheck, NewItems, ItemsOf, FindActive, Trim, Lower;
  }

  lemma ApplyKeepsStored(s: Settings, t: Tables, e: Event, k: nat, b: Baseline)
    requires k < |t.baselines| && StoredFrom(s, t, k, b)
    ensures k < |Apply(s, t, e).baselines| && StoredFrom(s, Apply(s, t, e), k, b)
  {
    hide Activate, Revoke, ContentsCheck, NewItems, ItemsOf, StoredFrom;
    match e
    case ActivateEvent(a) => ActivateKeepsStored(s, t, a, k, b);
    case RevokeEvent(venue, operator, manifest, now) => RevokeKeepsStored(s, t, venue, operator, manifest, now, k, b);
    case RecordEvent(run) => RecordKeepsStored(s, t, run, k, b);
  }

  lemma RecordKeepsStored(s: Settings, t: Tables, run: RunRow, k: nat, b: Baseline)
    requires k < |t.baselines| && StoredFrom(s, t, k, b)
    ensures StoredFrom(s, Record(s, t, run), k, b)
  {
    hide ContentsCheck, NewItems, ItemsOf;
  }

  /** Only an activation adds a row, and it stores what it activates. */
  lemma NewRowIsStored(s: Settings, t: Tables, e: Event)
    requires s.Valid() && ItemsOwned(t)
    ensures var next := Apply(s, t, e);
            |t.baselines| <= |next.baselines|
            && (|next.baselines| > |t.baselines| ==>
                  |next.baselines| == |t.baselines| + 1 && e.ActivateEvent?
                      && StoredFrom(s, next, |t.baselines|, e.baseline))
  {
    hide ContentsCheck, NewItems, ItemsOf, FindActive, FindManifest, StoredFrom, Trim, Lower, Keeps, ReadRow;
    if e.ActivateEvent? && Activate(s, t, e.baseline).1.Changed?
        && FindManifest(t.baselines, e.baseline.manifest).None? {
      ActivatedReadsBack(s, t, e.baseline);
    }
  }

  lemma {:induction false} EveryRowWasActivated(s: Settings, events: seq<Event>, k: nat)
    requires s.Valid() && k < |ApplyAll(s, EMPTY, events).baselines|
    ensures Activated(s, ApplyAll(s, EMPTY, events), k, events)
  {
    hide Apply, StoredFrom;
    assert Inv(EMPTY);
    hide ItemsOwned;
    if events != [] {
      var n := |events| - 1;
      var before := ApplyAll(s, EMPTY, events[..n]);
      RunsKeepInv(s, EMPTY, events[..n]);
      NewRowIsStored(s, before, events[n]);
      if k < |before.baselines| {
        EveryRowWasActivated(s, events[..n], k);
        var i :| 0 <= i < n && events[..n][i].ActivateEvent? && StoredFrom(s, before, k, events[..n][i].baseline);
        ApplyKeepsStored(s, before, events[n], k, events[i].baseline);
      } else {
        assert StoredFrom(s, ApplyAll(s, EMPTY, events), k, events[n].baseline);
      }
    }
  }

  /**
   Over every run in which no activated payload collides with what the column makes of it: every
   stored baseline, however often revoked and re-activated, goes back to one activation of the run, and
   reads back intact iff that one had a lower-case manifest and only quantities the column keeps.
   */
  lemma EveryBaselineReadsBack(s: Settings, events: seq<Event>, k: nat) returns (b: Baseline)
    requires s.Valid() && k < |ApplyAll(s, EMPTY, events).baselines|
    requires forall i :: 0 <= i < |events| && events[i].ActivateEvent? ==> NoCollision(s, events[i].baseline)
    ensures var t := ApplyAll(s, EMPTY, events);
            && ActivateEvent(b) in events && StoredFrom(s, t, k, b)
            && (ReadRow(s, t, k).Intact? <==> Lower(b.manifest) == b.manifest && Keeps(s, b.positions))
  {
    hide Apply, StoredFrom, ReadRow, Keeps, Lower, NoCollision;
    EveryRowWasActivated(s, events, k);
    var i :| 0 <= i < |events| && events[i].ActivateEvent?
        && StoredFrom(s, ApplyAll(s, EMPTY, events), k, events[i].baseline);
    b := events[i].baseline;
    assert events[i] == ActivateEvent(b);
    ReadsBackIff(s, ApplyAll(s, EMPTY, events), k, b);
  }

  // ---------- The baseline an operator activates ----------

  /** The baseline that the command line builds from a captured payload. */
  function BaselineFromPayload(s: Settings, venue: string, payload: Payload, captured: int,
                               operator: string): Baseline {
    Baseline(s.digest(payload), s.runtime, venue, payload.account, ReadPositions(payload.positions), payload.fillRefs,
             captured, operator, None)
  }

  /** It always passes the runtime, contents and digest checks of activation. */
  lemma CapturedPassesChecks(s: Settings, venue: string, c: Contents, captured: int, operator: string)
    requires s.Valid() && c.runtime == s.runtime && c.venue == venue && Canonical(c).Accepted?
    ensures ContentsCheck(s, BaselineFromPayload(s, venue, Canonical(c).payload, captured, operator)).None?
  {
    hide SortBy, Entries, FirstPositionFault, FirstFillRefFault;
    var payload := Canonical(c).payload;
    var b := BaselineFromPayload(s, venue, payload, captured, operator);
    PayloadIsFixedPoint(c);
    AcceptedIff(c);
    TrimIdempotent(c.runtime);
    TrimIdempotent(c.venue);
    SameTrimmedIdentity(Listed(payload), ContentsOf(b));
    HexIsClean(b.manifest);
  }

  lemma SameTrimmedIdentity(a: Contents, b: Contents)
    requires Trim(a.runtime) == Trim(b.runtime) && Trim(a.venue) == Trim(b.venue)
    requires a.account == b.account && a.positions == b.positions && a.fillRefs == b.fillRefs
    ensures Canonical(a) == Canonical(b)
  {
  }

  /**
   The round trip of a new manifest: activating what was captured, when the scope is free, and reading
   it back gives the captured baseline, intact, iff the column keeps its quantities.
   */
  lemma CapturedRoundTrip(s: Settings, t: Tables, venue: string, c: Contents, captured: int, operator: string)
    requires s.Valid() && Inv(t) && c.runtime == s.runtime && c.venue == venue && Canonical(c).Accepted?
    requires FindActive(t.baselines, s.runtime, venue).None?
    requires FindManifest(t.baselines, s.digest(Canonical(c).payload)).None?
    ensures var b := BaselineFromPayload(s, venue, Canonical(c).payload, captured, operator);
            var next := Activate(s, t, b);
            && next.1 == Changed
            && |next.0.baselines| == |t.baselines| + 1
            && (Keeps(s, b.positions)
                ==> ReadRow(s, next.0, |t.baselines|) == Intact(b.(positions := Columned(s, b.positions))))
            && (NoCollision(s, b) && !Keeps(s, b.positions) ==> !ReadRow(s, next.0, |t.baselines|).Intact?)
  {
    hide Canonical, Lower, Trim, ContentsCheck, FromRows, NewItems, ItemsOf, Columned, ReadPositions, PositionsValid,
         SortBy, Ascending, Keeps, NoCollision, StoredFrom, FindActive, FindManifest;
    var payload := Canonical(c).payload;
    var b := BaselineFromPayload(s, venue, payload, captured, operator);
    CapturedPassesChecks(s, venue, c, captured, operator);
    HexIsClean(b.manifest);
    ActivatedReadsBack(s, t, b);
    CapturedIsSorted(s, c);
  }

  /** Sorting positions and fill references does not change the canonical payload. */
  lemma SortedAlike(c: Contents)
    requires Canonical(c).Accepted?
    ensures Canonical(c.(positions := SortBy(RawToken, c.positions), fillRefs := SortBy(Itself, c.fillRefs)))
            == Canonical(c)
  {
    hide Trim, Lower, SortBy, ValidKey, FirstPositionFault, FirstFillRefFault, IsHexDigest, DistinctBy, PositionsValid,
         FillRefsValid, Entries, Trimmed;
    var sorted := c.(positions := SortBy(RawToken, c.positions), fillRefs := SortBy(Itself, c.fillRefs));
    AcceptedIff(c);
    PermutedPositions(c.positions, sorted.positions);
    PermutedRefs(c.fillRefs, sorted.fillRefs);
    AcceptedIff(sorted);
    KeysDistinct(c);
    KeysDistinct(sorted);
    SortEqualIff(TokenOf, Entries(c.positions), Entries(sorted.positions));
    SortEqualIff(Itself, Trimmed(c.fillRefs), Trimmed(sorted.fillRefs));
  }

  lemma DistinctPermuted<T>(a: seq<T>, b: seq<T>)
    requires Distinct(a) && multiset(a) == multiset(b)
    ensures Distinct(b)
  {
    forall x
      ensures multiset(b)[x] <= 1
    {
      MultiplicityInDistinct(a, x);
    }
    DistinctByMultiplicity(b);
  }

  lemma PermutedPositions(a: seq<Position>, b: seq<Position>)
    requires PositionsValid(a) && multiset(a) == multiset(b)
    ensures PositionsValid(b) && forall e :: e in Entries(a) <==> e in Entries(b)
  {
    hide Trim, ValidKey, Positive, CanonicalDecimal, EntryOf;
    SameMembers(a, b);
    DistinctPermuted(a, b);
    forall i | 0 <= i < |b|
      ensures ValidKey(Trim(b[i].token)) && Positive(b[i].quantity)
    {
      assert b[i] in b && b[i] in a;
    }
    forall i, j | 0 <= i < j < |b|
      ensures Trim(b[i].token) != Trim(b[j].token)
    {
      assert b[i] in b && b[i] in a && b[j] in b && b[j] in a;
      var p :| 0 <= p < |a| && a[p] == b[i];
      var q :| 0 <= q < |a| && a[q] == b[j];
    }
    forall e
      ensures e in Entries(a) <==> e in Entries(b)
    {
      EntriesAt(a, e);
      EntriesAt(b, e);
      if i :| 0 <= i < |a| && EntryOf(a[i]) == e {
        assert a[i] in a && a[i] in b;
        var j :| 0 <= j < |b| && b[j] == a[i];
      }
      if j :| 0 <= j < |b| && EntryOf(b[j]) == e {
        assert b[j] in b && b[j] in a;
        var i :| 0 <= i < |a| && a[i] == b[j];
      }
    }
  }

  lemma PermutedRefs(a: seq<string>, b: seq<string>)
    requires FillRefsValid(a) && multiset(a) == multiset(b)
    ensures FillRefsValid(b) && forall x :: x in Trimmed(a) <==> x in Trimmed(b)
  {
    hide Trim, ValidKey;
    SameMembers(a, b);
    DistinctPermuted(a, b);
    forall i | 0 <= i < |b|
      ensures ValidKey(Trim(b[i]))
    {
      assert b[i] in b && b[i] in a;
    }
    forall i, j | 0 <= i < j < |b|
      ensures Trim(b[i]) != Trim(b[j])
    {
      assert b[i] in b && b[i] in a && b[j] in b && b[j] in a;
      var p :| 0 <= p < |a| && a[p] == b[i];
      var q :| 0 <= q < |a| && a[q] == b[j];
    }
    TrimmedWithin(a, b);
    TrimmedWithin(b, a);
  }

  lemma TrimmedWithin(a: seq<string>, b: seq<string>)
    requires forall x :: x in a <==> x in b
    ensures forall x :: x in Trimmed(a) ==> x in Trimmed(b)
  {
    hide Trim;
    forall x | x in Trimmed(a)
      ensures x in Trimmed(b)
    {
      var i :| 0 <= i < |Trimmed(a)| && Trimmed(a)[i] == x;
      assert a[i] in a && a[i] in b;
      var j :| 0 <= j < |b| && b[j] == a[i];
      assert Trimmed(b)[j] == x;
    }
  }

  /** An intact row lists contents with the payload that its manifest digests. */
  lemma IntactIsCanonical(s: Settings, row: BaselineRow, items: seq<Item>)
    requires FromRows(s, row, items).Intact?
    ensures var back := FromRows(s, row, items).baseline;
            Canonical(ContentsOf(back)).Accepted? && s.digest(Canonical(ContentsOf(back)).payload) == row.manifest
  {
    hide Canonical, SortBy, PositionsIn, FillRefsIn;
    var c := StoredContents(row, items);
    SortedAlike(c);
    assert ContentsOf(FromRows(s, row, items).baseline)
        == c.(positions := SortBy(RawToken, c.positions), fillRefs := SortBy(Itself, c.fillRefs));
  }

  /**
   The round trip of a manifest already on record and intact: capturing the account again and
   activating it succeeds iff the row is of the same runtime, venue and account. What reads back then
   carries the new capture time and operator and has the captured payload, so positions agree in value
   and fill references as a set.
   */
  lemma RecapturedRoundTrip(s: Settings, t: Tables, venue: string, c: Contents, captured: int, operator: string)
    requires s.Valid() && c.runtime == s.runtime && c.venue == venue && Canonical(c).Accepted?
    requires FindActive(t.baselines, s.runtime, venue).None?
    requires FindManifest(t.baselines, s.digest(Canonical(c).payload)).Some?
    requires var read := ReadRow(s, t, FindManifest(t.baselines, s.digest(Canonical(c).payload)).value);
             read.Intact? && Distinguishes(s, ContentsOf(read.baseline), c)
    ensures var b := BaselineFromPayload(s, venue, Canonical(c).payload, captured, operator);
            var k, next := FindManifest(t.baselines, b.manifest).value, Activate(s, t, b);
            && (next.1 == Changed <==> SameAccountScope(t.baselines[k], b))
            && (next.1 == Changed || next.1 == ActivationRefused(BoundElsewhere))
            && (next.1 == Changed ==>
                  && |next.0.baselines| == |t.baselines| && ReadRow(s, next.0, k).Intact?
                  && var back := ReadRow(s, next.0, k).baseline;
                     && Canonical(ContentsOf(back)) == Canonical(c)
                     && back.manifest == b.manifest && back.captured == captured && back.operator == operator
                     && back.revokedAt.None?)
  {
    hide Canonical, Lower, Trim, ContentsCheck, NewItems, ItemsOf, PositionsIn, FillRefsIn, ReadPositions, SortBy,
         FindActive, FindManifest;
    var b := BaselineFromPayload(s, venue, Canonical(c).payload, captured, operator);
    CapturedPassesChecks(s, venue, c, captured, operator);
    var k := FindManifest(t.baselines, b.manifest).value;
    var items := ItemsOf(t.items, b.manifest);
    if SameAccountScope(t.baselines[k], b) {
      var row := Reactivated(t.baselines[k], b);
      ReadIgnoresStatus(s, t.baselines[k], row, items);
      IntactIsCanonical(s, row, items);
      assert ContentsOf(FromRows(s, row, items).baseline) == ContentsOf(ReadRow(s, t, k).baseline);
    }
  }

  /** Whether a row reads back does not depend on its capture time, operator or revocation. */
  lemma ReadIgnoresStatus(s: Settings, row: BaselineRow, other: BaselineRow, items: seq<Item>)
    requires row.manifest == other.manifest && row.runtime == other.runtime && row.venue == other.venue
            && row.account == other.account
    ensures FromRows(s, row, items).Intact? <==> FromRows(s, other, items).Intact?
  {
    assert StoredContents(row, items) == StoredContents(other, items);
  }

  /** A captured payload is already in the order that reading back gives. */
  lemma CapturedIsSorted(s: Settings, c: Contents)
    requires Canonical(c).Accepted?
    ensures var payload := Canonical(c).payload; var read := ReadPositions(payload.positions);
            && SortBy(RawToken, Columned(s, read)) == Columned(s, read)
            && SortBy(Itself, payload.fillRefs) == payload.fillRefs
  {
    hide Trim, Lower, ParseDecimal, SortBy, FirstPositionFault, FirstFillRefFault, CanonicalDecimal;
    AcceptedIff(c);
    ReadPositionsBack(c.positions);
    ReadFillRefsBack(c.fillRefs);
    var payload := Canonical(c).payload;
    SortFixed(Itself, payload.fillRefs);
    var stored := Columned(s, ReadPositions(payload.positions));
    forall i, j | 0 <= i < j < |stored|
      ensures Before(RawToken(stored[i]), RawToken(stored[j]))
    {
      assert Before(TokenOf(payload.positions[i]), TokenOf(payload.positions[j]));
    }
    SortFixed(RawToken, stored);
  }

  // ---------- Numeric(38, 18) ----------

  /** The column rounds to 18 decimal places. */
  ghost predicate StoresEighteenPlaces(s: Settings) {
    forall d :: s.column(d) == ToPlaces(d)
  }

  lemma CapturedInContext(c: Contents, i: nat)
    requires Canonical(c).Accepted? && i < |Canonical(c).payload.positions|
    ensures var d := ParseDecimal(Canonical(c).payload.positions[i].quantity);
            d.coeff > 0 && DigitCount(StripZeros(d).coeff) <= PRECISION
  {
    hide Trim, Lower, SortBy, FirstPositionFault, FirstFillRefFault, ParseDecimal, CanonicalDecimal, StripZeros,
         DigitCount, Normalize;
    AcceptedIff(c);
    SortedEntry(c.positions, i);
    var k :| 0 <= k < |c.positions| && SortBy(TokenOf, Entries(c.positions))[i] == EntryOf(c.positions[k]);
    var quantity := c.positions[k].quantity.value;
    var d := ParseDecimal(CanonicalDecimal(quantity));
    ParseCanonical(quantity);
    NormalFitsContext(quantity);
    EqualValuesPrintAlike(d, Normalize(quantity));
    StrippedNormal(d, quantity);
  }

  lemma StrippedNormal(d: Dec, quantity: Dec)
    requires d.coeff > 0 && quantity.coeff > 0 && SameValue(d, Normalize(quantity))
    ensures DigitCount(StripZeros(d).coeff) <= PRECISION
  {
    hide DigitCount, SameValue;
    var n := Normalize(quantity);
    NormalFitsContext(quantity);
    StripKeepsValue(d);
    SameValueTransitive(StripZeros(d), d, n);
    StrippedUnique(StripZeros(d), n);
  }

  /**
   With a column that rounds to 18 places, a captured baseline is kept, and so reads back, iff no
   quantity needs a nineteenth.
   */
  lemma CapturedKeptIff(s: Settings, c: Contents)
    requires Canonical(c).Accepted? && StoresEighteenPlaces(s)
    ensures var read := ReadPositions(Canonical(c).payload.positions);
            Keeps(s, read) <==> forall i :: 0 <= i < |read| && Positive(read[i].quantity) ==>
                                 StripZeros(read[i].quantity.value).exp >= -PLACES
  {
    hide Canonical, ParseDecimal, StripZeros, PrintsAlike, DigitCount, ToPlaces;
    var read := ReadPositions(Canonical(c).payload.positions);
    forall i | 0 <= i < |read|
      ensures Positive(read[i].quantity)
      ensures PrintsAlike(s.column(read[i].quantity.value), read[i].quantity.value)
              <==> StripZeros(read[i].quantity.value).exp >= -PLACES
    {
      CapturedInContext(c, i);
      KeptIff(read[i].quantity.value);
    }
  }

  /** A quantity of nineteen places activates like any other, and never reads back. */
  lemma NineteenPlacesNeverReadBack(s: Settings, t: Tables, b: Baseline)
    requires s.Valid() && NoCollision(s, b) && ItemsOwned(t) && StoresEighteenPlaces(s)
    requires Activate(s, t, b).1.Changed? && FindManifest(t.baselines, b.manifest).None?
    requires exists i :: 0 <= i < |b.positions| && b.positions[i].quantity == Finite(Dec(11, -19))
    ensures !ReadRow(s, Activate(s, t, b).0, |t.baselines|).Intact?
  {
    hide Activate, ReadRow, StoredFrom, ToPlaces, PrintsAlike, NoCollision, Lower;
    NineteenPlacesLost();
    var i :| 0 <= i < |b.positions| && b.positions[i].quantity == Finite(Dec(11, -19));
    assert !PrintsAlike(s.column(b.positions[i].quantity.value), b.positions[i].quantity.value);
    ActivatedReadsBack(s, t, b);
  }

  // ---------- A baseline that is activated and never reads back ----------

  function Zeroes(n: nat): (z: string)
    ensures |z| == n && forall i :: 0 <= i < n ==> z[i] == '0'
  {
    if n == 0 then "" else Zeroes(n - 1) + "0"
  }

  const ZERO_DIGEST: string := Zeroes(64)

  const OTHER_DIGEST: string := "1" + Zeroes(63)

  lemma SampleDigests()
    ensures IsHexDigest(ZERO_DIGEST) && IsHexDigest(OTHER_DIGEST) && ZERO_DIGEST != OTHER_DIGEST
  {
    hide Zeroes;
    assert ZERO_DIGEST[0] == '0' && OTHER_DIGEST[0] == '1';
  }

  const LOST: Position := Position("a", Finite(Dec(11, -19)))

  const SAMPLE: Baseline := Baseline(ZERO_DIGEST, "runtime", "Venue", ZERO_DIGEST, [LOST], [], 0, "operator", None)

  /** A digest that tells the sample's positions from all others, and an 18-place column. */
  const SAMPLE_SETTINGS: Settings :=
    Settings("runtime", [], false, (p: Payload) => if p.positions == [EntryOf(LOST)] then ZERO_DIGEST else OTHER_DIGEST,
             ToPlaces)

  lemma SampleAccepted()
    ensures Canonical(ContentsOf(SAMPLE)).Accepted?
            && Canonical(ContentsOf(SAMPLE)).payload.positions == [EntryOf(LOST)]
  {
    hide IsHexDigest, CanonicalDecimal, Zeroes;
    SampleDigests();
    HexIsClean(ZERO_DIGEST);
    UnspacedTrim("runtime");
    UnspacedTrim("Venue");
    UnspacedTrim("a");
    hide Trim, Lower, IsSpace;
    AcceptedIff(ContentsOf(SAMPLE));
    SingleEntry(LOST);
  }

  lemma SingleEntry(p: Position)
    ensures SortBy(TokenOf, Entries([p])) == [EntryOf(p)]
  {
    hide EntryOf, SortBy;
    assert Entries([p]) == [EntryOf(p)];
    SortFixed(TokenOf, [EntryOf(p)]);
  }

  lemma SampleDistinguished()
    ensures NoCollision(SAMPLE_SETTINGS, SAMPLE)
  {
    hide CanonicalDecimal, ToPlaces, IsHexDigest, Trim, Lower, Zeroes, FirstPositionFault, FirstFillRefFault, SortBy;
    var stored := Stored(SAMPLE_SETTINGS, ContentsOf(SAMPLE));
    SampleDigests();
    SampleAccepted();
    NineteenPlacesLost();
    if Canonical(stored).Accepted? {
      AcceptedIff(stored);
      assert stored.positions == [stored.positions[0]];
      SingleEntry(stored.positions[0]);
      assert stored.positions[0] == Position("a", Finite(ToPlaces(Dec(11, -19))))
          && Positive(stored.positions[0].quantity);
      assert EntryOf(stored.positions[0]).quantity != EntryOf(LOST).quantity;
    }
  }

  /** All premises of the above are met at once: this baseline activates over empty tables and does not read back. */
  lemma SampleNeverReadsBack()
    ensures Activate(SAMPLE_SETTINGS, EMPTY, SAMPLE).1.Changed?
    ensures !ReadRow(SAMPLE_SETTINGS, Activate(SAMPLE_SETTINGS, EMPTY, SAMPLE).0, 0).Intact?
  {
    hide CanonicalDecimal, ToPlaces, IsHexDigest, Trim, Lower, Zeroes, Canonical, NoCollision, NewItems, ReadRow;
    SampleDigests();
    HexIsClean(ZERO_DIGEST);
    SampleAccepted();
    SampleDistinguished();
    assert ContentsCheck(SAMPLE_SETTINGS, SAMPLE).None?;
    assert SAMPLE.positions[0].quantity == Finite(Dec(11, -19));
    NineteenPlacesNeverReadBack(SAMPLE_SETTINGS, EMPTY, SAMPLE);
  }
}
