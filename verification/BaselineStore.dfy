/**
 External account baselines as stored: activation, revocation and read-back over the tables of
 baselines and their items, and what every run keeps of those tables.
 */
module BaselineStore {
  import opened Collections
  import opened Text
  import opened DecimalText
  import opened ExternalBaseline

  datatype BaselineRow = BaselineRow(manifest: string, runtime: string, venue: string, account: string,
                                     operator: string, captured: int, revokedAt: Option<int>, revokedBy: Option<string>)

  datatype Kind = PositionKind | FillRefKind | OtherKind

  datatype Item = Item(manifest: string, kind: Kind, key: string, quantity: Option<Dec>)

  datatype RunRow = RunRow(runtime: string, venue: string, completed: int, drift: int, success: bool,
                           error: Option<string>,
                           full: bool, account: Option<string>, manifest: Option<string>)

  datatype Tables = Tables(baselines: seq<BaselineRow>, items: seq<Item>, runs: seq<RunRow>)

  /** digest stands for SHA-256 over the payload's JSON text, column for storing a number as Numeric(38, 18). */
  datatype Settings = Settings(runtime: string, venues: seq<string>, scopeConfigured: bool,
                               digest: Payload -> string, column: Dec -> Dec)
  {
    ghost predicate Valid() {
      forall p :: IsHexDigest(digest(p))
    }
  }

  datatype Baseline = Baseline(manifest: string, runtime: string, venue: string, account: string,
                               positions: seq<Position>,
                               fillRefs: seq<string>, captured: int, operator: string, revokedAt: Option<int>)

  datatype ActivationRefusal =
    | RuntimeMismatch
    | ContentsRefused(reason: Refusal)
    | DigestMismatch
    | AnotherActive
    | BoundElsewhere

  datatype Activation = Changed | Unchanged | ActivationRefused(why: ActivationRefusal)

  datatype Revocation = Revoked | NothingActive | RevocationRefused

  datatype ReadBack = Intact(baseline: Baseline) | InvalidItem | ContentsInvalid(reason: Refusal) | DigestDiffers

  // ---------- Queries ----------

  predicate IsActive(row: BaselineRow, runtime: string, venue: string) {
    row.runtime == runtime && row.venue == venue && row.revokedAt.None?
  }

  /** The row that the active-baseline query finds. */
  function FindActive(rows: seq<BaselineRow>, runtime: string, venue: string): (k: Option<nat>)
    ensures k.Some? ==> k.value < |rows| && IsActive(rows[k.value], runtime, venue)
    ensures k.None? ==> forall i :: 0 <= i < |rows| ==> !IsActive(rows[i], runtime, venue)
  {
    if rows == [] then None
    else
      var n := |rows| - 1;
      if IsActive(rows[n], runtime, venue) then Some(n) else FindActive(rows[..n], runtime, venue)
  }

  function FindManifest(rows: seq<BaselineRow>, manifest: string): (k: Option<nat>)
    ensures k.Some? ==> k.value < |rows| && rows[k.value].manifest == manifest
    ensures k.None? ==> forall i :: 0 <= i < |rows| ==> rows[i].manifest != manifest
  {
    if rows == [] then None
    else
      var n := |rows| - 1;
      if rows[n].manifest == manifest then Some(n) else FindManifest(rows[..n], manifest)
  }

  function ItemsOf(items: seq<Item>, manifest: string): (r: seq<Item>)
    ensures forall i :: 0 <= i < |r| ==> r[i] in items && r[i].manifest == manifest
  {
    if items == [] then []
    else
      var n := |items| - 1;
      ItemsOf(items[..n], manifest) + if items[n].manifest == manifest then [items[n]] else []
  }

  // ---------- activate_external_account_baseline ----------

  function ContentsOf(b: Baseline): Contents {
    Contents(b.runtime, b.venue, b.account, b.positions, b.fillRefs)
  }

  function PositionItem(s: Settings, manifest: string, p: Position): Item {
    Item(manifest, PositionKind, p.token, if p.quantity.Finite? then Some(s.column(p.quantity.value)) else None)
  }

  function PositionItems(s: Settings, manifest: string, ps: seq<Position>): (r: seq<Item>)
    ensures |r| == |ps| && forall i :: 0 <= i < |ps| ==> r[i] == PositionItem(s, manifest, ps[i])
  {
    seq(|ps|, i requires 0 <= i < |ps| => PositionItem(s, manifest, ps[i]))
  }

  function FillRefItems(manifest: string, refs: seq<string>): (r: seq<Item>)
    ensures |r| == |refs| && forall i :: 0 <= i < |refs| ==> r[i] == Item(manifest, FillRefKind, refs[i], None)
  {
    seq(|refs|, i requires 0 <= i < |refs| => Item(manifest, FillRefKind, refs[i], None))
  }

  function NewItems(s: Settings, b: Baseline): seq<Item> {
    PositionItems(s, b.manifest, b.positions) + FillRefItems(b.manifest, b.fillRefs)
  }

  function NewRow(b: Baseline): BaselineRow {
    BaselineRow(b.manifest, b.runtime, b.venue, b.account, b.operator, b.captured, None, None)
  }

  /** What activation says before it looks at the tables. */
  function ContentsCheck(s: Settings, b: Baseline): Option<ActivationRefusal> {
    if b.runtime != s.runtime then Some(RuntimeMismatch)
    else
      match Canonical(ContentsOf(b))
      case Refused(reason) => Some(ContentsRefused(reason))
      case Accepted(payload) => if s.digest(payload) != Lower(b.manifest) then Some(DigestMismatch) else None
  }

  predicate SameAccountScope(row: BaselineRow, b: Baseline) {
    row.runtime == b.runtime && row.venue == b.venue && row.account == b.account
  }

  function Reactivated(row: BaselineRow, b: Baseline): BaselineRow {
    row.(revokedAt := None, revokedBy := None, captured := b.captured, operator := b.operator)
  }

  function Activate(s: Settings, t: Tables, b: Baseline): (Tables, Activation) {
    if ContentsCheck(s, b).Some? then (t, ActivationRefused(ContentsCheck(s, b).value))
    else
      var active := FindActive(t.baselines, s.runtime, b.venue);
      if active.Some? then
        (t, if t.baselines[active.value].manifest == b.manifest then Unchanged else ActivationRefused(AnotherActive))
      else
        var existing := FindManifest(t.baselines, b.manifest);
        if existing.None? then
          (t.(baselines := t.baselines + [NewRow(b)], items := t.items + NewItems(s, b)), Changed)
        else if !SameAccountScope(t.baselines[existing.value], b) then (t, ActivationRefused(BoundElsewhere))
        else
          (t.(baselines := t.baselines[existing.value := Reactivated(t.baselines[existing.value], b)]), Changed)
  }

  // ---------- revoke_external_account_baseline ----------

  function Revoke(s: Settings, t: Tables, venue: string, operator: string, manifest: string, now: int)
    : (Tables, Revocation)
  {
    var normalized := Lower(Trim(manifest));
    if Trim(operator) == "" || |normalized| != 64 then (t, RevocationRefused)
    else
      var active := FindActive(t.baselines, s.runtime, venue);
      if active.None? then (t, NothingActive)
      else if t.baselines[active.value].manifest != normalized then (t, RevocationRefused)
      else
        var row := t.baselines[active.value];
        (t.(baselines := t.baselines[active.value := row.(revokedAt := Some(now), revokedBy := Some(Trim(operator)))]),
         Revoked)
  }

  // ---------- record_reconciliation ----------

  function Record(s: Settings, t: Tables, run: RunRow): Tables {
    t.(runs := t.runs + [run.(runtime := s.runtime)])
  }

  // ---------- _external_baseline_from_rows ----------

  predicate ItemValid(item: Item) {
    (item.kind == PositionKind && item.quantity.Some?) || (item.kind == FillRefKind && item.quantity.None?)
  }

  predicate ItemsValid(items: seq<Item>) {
    forall i :: 0 <= i < |items| ==> ItemValid(items[i])
  }

  function PositionsIn(items: seq<Item>): seq<Position> {
    if items == [] then []
    else
      var n := |items| - 1;
      PositionsIn(items[..n])
      + if items[n].kind == PositionKind && items[n].quantity.Some?
        then [Position(items[n].key, Finite(items[n].quantity.value))] else []
  }

  function FillRefsIn(items: seq<Item>): seq<string> {
    if items == [] then []
    else
      var n := |items| - 1;
      FillRefsIn(items[..n]) + if items[n].kind == FillRefKind && items[n].quantity.None? then [items[n].key] else []
  }

  function RawToken(p: Position): string { p.token }

  function StoredContents(row: BaselineRow, items: seq<Item>): Contents {
    Contents(row.runtime, row.venue, row.account, PositionsIn(items), FillRefsIn(items))
  }

  function FromRows(s: Settings, row: BaselineRow, items: seq<Item>): ReadBack {
    if !ItemsValid(items) then InvalidItem
    else
      match Canonical(StoredContents(row, items))
      case Refused(reason) => ContentsInvalid(reason)
      case Accepted(payload) =>
        if s.digest(payload) != row.manifest then DigestDiffers
        else
          Intact(Baseline(row.manifest, row.runtime, row.venue, row.account, SortBy(RawToken, PositionsIn(items)),
                          SortBy(Itself, FillRefsIn(items)), row.captured, row.operator, row.revokedAt))
  }

  /** Reading the k-th stored baseline back from its item rows. */
  function ReadRow(s: Settings, t: Tables, k: nat): ReadBack
    requires k < |t.baselines|
  {
    FromRows(s, t.baselines[k], ItemsOf(t.items, t.baselines[k].manifest))
  }

  // ---------- Events and invariants ----------

  datatype Event =
    | ActivateEvent(baseline: Baseline)
    | RevokeEvent(venue: string, operator: string, manifest: string, now: int)
    | RecordEvent(run: RunRow)

  function Apply(s: Settings, t: Tables, e: Event): Tables {
    match e
    case ActivateEvent(b) => Activate(s, t, b).0
    case RevokeEvent(venue, operator, manifest, now) => Revoke(s, t, venue, operator, manifest, now).0
    case RecordEvent(run) => Record(s, t, run)
  }

  function ApplyAll(s: Settings, t: Tables, events: seq<Event>): Tables {
    if events == [] then t else Apply(s, ApplyAll(s, t, events[..|events| - 1]), events[|events| - 1])
  }

  ghost predicate ManifestsUnique(rows: seq<BaselineRow>) {
    forall i, j :: 0 <= i < j < |rows| ==> rows[i].manifest != rows[j].manifest
  }

  ghost predicate Owned(rows: seq<BaselineRow>, manifest: string) {
    exists k :: 0 <= k < |rows| && rows[k].manifest == manifest
  }

  ghost predicate ItemsOwned(t: Tables) {
    forall i :: 0 <= i < |t.items| ==> Owned(t.baselines, t.items[i].manifest)
  }

  /** At most one baseline is active for a runtime and venue. */
  ghost predicate OneActive(rows: seq<BaselineRow>) {
    forall i, j :: 0 <= i < j < |rows|
        ==> !(IsActive(rows[i], rows[j].runtime, rows[j].venue) && rows[j].revokedAt.None?)
  }

  ghost predicate Inv(t: Tables) {
    ManifestsUnique(t.baselines) && ItemsOwned(t) && OneActive(t.baselines)
  }

  lemma CheckedRuntime(s: Settings, b: Baseline)
    requires ContentsCheck(s, b).None?
    ensures b.runtime == s.runtime && Canonical(ContentsOf(b)).Accepted?
    ensures Lower(b.manifest) == s.digest(Canonical(ContentsOf(b)).payload)
  {
  }

  lemma AppendKeepsOwned(t: Tables, row: BaselineRow, more: seq<Item>)
    requires ItemsOwned(t) && forall i :: 0 <= i < |more| ==> more[i].manifest == row.manifest
    ensures ItemsOwned(t.(baselines := t.baselines + [row], items := t.items + more))
  {
    var rows := t.baselines + [row];
    assert rows[|t.baselines|].manifest == row.manifest;
    forall i | 0 <= i < |t.items + more|
      ensures Owned(rows, (t.items + more)[i].manifest)
    {
      if i < |t.items| {
        assert Owned(t.baselines, t.items[i].manifest);
        var k :| 0 <= k < |t.baselines| && t.baselines[k].manifest == t.items[i].manifest;
        assert rows[k].manifest == t.items[i].manifest;
      }
    }
  }

  lemma UpdateKeepsOwned(t: Tables, k: nat, row: BaselineRow)
    requires ItemsOwned(t) && k < |t.baselines| && row.manifest == t.baselines[k].manifest
    ensures ItemsOwned(t.(baselines := t.baselines[k := row]))
  {
    var rows := t.baselines[k := row];
    forall i | 0 <= i < |t.items|
      ensures Owned(rows, t.items[i].manifest)
    {
      assert Owned(t.baselines, t.items[i].manifest);
      var j :| 0 <= j < |t.baselines| && t.baselines[j].manifest == t.items[i].manifest;
      assert rows[j].manifest == t.items[i].manifest;
    }
  }

  lemma AppendKeepsRows(rows: seq<BaselineRow>, row: BaselineRow)
    requires ManifestsUnique(rows) && OneActive(rows)
    requires forall i :: 0 <= i < |rows| ==>
              rows[i].manifest != row.manifest && !IsActive(rows[i], row.runtime, row.venue)
    ensures ManifestsUnique(rows + [row]) && OneActive(rows + [row])
  {
    hide IsActive;
  }

  lemma UpdateKeepsRows(rows: seq<BaselineRow>, k: nat, row: BaselineRow)
    requires ManifestsUnique(rows) && OneActive(rows) && k < |rows| && row.manifest == rows[k].manifest
    requires row.revokedAt.None? ==> forall i :: 0 <= i < |rows| ==> !IsActive(rows[i], row.runtime, row.venue)
    ensures ManifestsUnique(rows[k := row]) && OneActive(rows[k := row])
  {
    var updated := rows[k := row];
    forall i, j | 0 <= i < j < |updated|
      ensures !(IsActive(updated[i], updated[j].runtime, updated[j].venue) && updated[j].revokedAt.None?)
    {
      assert row.revokedAt.None?
          ==> !IsActive(rows[j], row.runtime, row.venue) && !IsActive(rows[i], row.runtime, row.venue);
    }
  }

  lemma ActivateKeepsInv(s: Settings, t: Tables, b: Baseline)
    requires Inv(t)
    ensures Inv(Activate(s, t, b).0)
  {
    hide ContentsCheck, ItemsOwned, NewItems, FindActive, FindManifest, IsActive, ManifestsUnique, OneActive;
    if ContentsCheck(s, b).None? {
      CheckedRuntime(s, b);
      var existing := FindManifest(t.baselines, b.manifest);
      if FindActive(t.baselines, s.runtime, b.venue).None? {
        if existing.None? {
          NewItemsManifest(s, b);
          AppendKeepsRows(t.baselines, NewRow(b));
          AppendKeepsOwned(t, NewRow(b), NewItems(s, b));
        } else if SameAccountScope(t.baselines[existing.value], b) {
          var row := Reactivated(t.baselines[existing.value], b);
          UpdateKeepsRows(t.baselines, existing.value, row);
          UpdateKeepsOwned(t, existing.value, row);
        }
      }
    }
  }

  lemma NewItemsManifest(s: Settings, b: Baseline)
    ensures forall i :: 0 <= i < |NewItems(s, b)| ==> NewItems(s, b)[i].manifest == b.manifest
  {
  }

  lemma RevokeKeepsInv(s: Settings, t: Tables, venue: string, operator: string, manifest: string, now: int)
    requires Inv(t)
    ensures Inv(Revoke(s, t, venue, operator, manifest, now).0)
  {
    hide Trim, Lower, ItemsOwned;
    if Revoke(s, t, venue, operator, manifest, now).1.Revoked? {
      var k := FindActive(t.baselines, s.runtime, venue).value;
      UpdateKeepsOwned(t, k, t.baselines[k].(revokedAt := Some(now), revokedBy := Some(Trim(operator))));
    }
  }

  /** Every run keeps: manifests unique, every item owned by a baseline, one active baseline per scope. */
  lemma {:induction false} RunsKeepInv(s: Settings, t: Tables, events: seq<Event>)
    requires Inv(t)
    ensures Inv(ApplyAll(s, t, events))
  {
    hide Activate, Revoke;
    if events != [] {
      var before := ApplyAll(s, t, events[..|events| - 1]);
      RunsKeepInv(s, t, events[..|events| - 1]);
      match events[|events| - 1]
      case ActivateEvent(b) => ActivateKeepsInv(s, before, b);
      case RevokeEvent(venue, operator, manifest, now) => RevokeKeepsInv(s, before, venue, operator, manifest, now);
      case RecordEvent(run) => assert ItemsOwned(Record(s, before, run));
    }
  }

  // ---------- The outcomes in the columns of the tables ----------

  /** Activation is refused for another runtime, for refused contents, and for a manifest that is not their digest. */
  lemma ActivationRefusals(s: Settings, t: Tables, b: Baseline)
    ensures var (next, result) := Activate(s, t, b);
            var payload := Canonical(Contents(b.runtime, b.venue, b.account, b.positions, b.fillRefs));
            && (!result.Changed? ==> next == t)
            && (b.runtime != s.runtime ==> result == ActivationRefused(RuntimeMismatch))
            && (b.runtime == s.runtime && payload.Refused? ==>
                  result == ActivationRefused(ContentsRefused(payload.reason)))
            && (b.runtime == s.runtime && payload.Accepted? && s.digest(payload.payload) != Lower(b.manifest) ==>
                  result == ActivationRefused(DigestMismatch))
            && (ContentsCheck(s, b).None?
                <==> b.runtime == s.runtime && payload.Accepted? && s.digest(payload.payload) == Lower(b.manifest))
  {
    hide Canonical, Lower, NewItems, FindActive, FindManifest;
  }

  /** While a baseline is active in the scope, activating it again changes nothing and any other is refused. */
  lemma HeldActivation(s: Settings, t: Tables, b: Baseline, k: nat)
    requires OneActive(t.baselines) && ContentsCheck(s, b).None?
    requires k < |t.baselines| && t.baselines[k].runtime == s.runtime && t.baselines[k].venue == b.venue
    requires t.baselines[k].revokedAt.None?
    ensures Activate(s, t, b)
         == (t, if t.baselines[k].manifest == b.manifest then Unchanged else ActivationRefused(AnotherActive))
  {
    hide ContentsCheck, NewItems;
  }

  /** In a free scope a checked baseline is refused iff its manifest is on record under another account scope. */
  lemma FreeActivation(s: Settings, t: Tables, b: Baseline)
    requires ManifestsUnique(t.baselines) && ContentsCheck(s, b).None?
    requires forall k :: 0 <= k < |t.baselines| ==>
               t.baselines[k].runtime != s.runtime || t.baselines[k].venue != b.venue || t.baselines[k].revokedAt.Some?
    ensures Activate(s, t, b).1
         == if exists k :: 0 <= k < |t.baselines| && t.baselines[k].manifest == b.manifest
                           && (t.baselines[k].runtime != b.runtime || t.baselines[k].venue != b.venue
                               || t.baselines[k].account != b.account)
            then ActivationRefused(BoundElsewhere) else Changed
  {
    hide ContentsCheck, NewItems;
    var existing := FindManifest(t.baselines, b.manifest);
    if existing.Some? {
      var row := t.baselines[existing.value];
      assert SameAccountScope(row, b) <==> row.runtime == b.runtime && row.venue == b.venue && row.account == b.account;
      assert forall j :: 0 <= j < |t.baselines| && t.baselines[j].manifest == b.manifest ==> j == existing.value;
    }
  }

  /**
   Revocation is refused without an operator, for a manifest that is not of sixty-four characters, and for another
   manifest than the active one; without an active baseline there is nothing to revoke; otherwise exactly the active
   row is stamped with the time and the trimmed operator.
   */
  lemma RevocationOutcome(s: Settings, t: Tables, venue: string, operator: string, manifest: string, now: int, k: nat)
    requires OneActive(t.baselines)
    requires k < |t.baselines| && t.baselines[k].runtime == s.runtime && t.baselines[k].venue == venue
    requires t.baselines[k].revokedAt.None?
    ensures var (next, result) := Revoke(s, t, venue, operator, manifest, now);
            var normalized := Lower(Trim(manifest));
            if Trim(operator) != "" && |normalized| == 64 && t.baselines[k].manifest == normalized then
              && result == Revoked && next.items == t.items && next.runs == t.runs
              && next.baselines == t.baselines[k := t.baselines[k].(revokedAt := Some(now),
                                                                     revokedBy := Some(Trim(operator)))]
            else result == RevocationRefused && next == t
  {
    hide Lower, Trim;
  }

  lemma NothingToRevoke(s: Settings, t: Tables, venue: string, operator: string, manifest: string, now: int)
    requires forall k :: 0 <= k < |t.baselines| ==>
               t.baselines[k].runtime != s.runtime || t.baselines[k].venue != venue || t.baselines[k].revokedAt.Some?
    ensures var result := Revoke(s, t, venue, operator, manifest, now);
            && result.0 == t
            && result.1 == if Trim(operator) != "" && |Lower(Trim(manifest))| == 64 then NothingActive
                           else RevocationRefused
  {
    hide Lower, Trim;
  }

  /** Reading back fails on the first look iff an item is neither a position with a quantity nor a reference without. */
  lemma InvalidItemIff(s: Settings, row: BaselineRow, items: seq<Item>)
    ensures FromRows(s, row, items) == InvalidItem
       <==> exists i :: 0 <= i < |items|
                        && !(items[i].kind == PositionKind && items[i].quantity.Some?)
                        && !(items[i].kind == FillRefKind && items[i].quantity.None?)
  {
    hide Canonical, SortBy;
    if !ItemsValid(items) {
      var i :| 0 <= i < |items| && !ItemValid(items[i]);
    }
  }

  lemma {:induction false} ItemsSplit(items: seq<Item>)
    requires ItemsValid(items)
    ensures |PositionsIn(items)| + |FillRefsIn(items)| == |items|
    ensures forall i :: 0 <= i < |items| ==>
              if items[i].quantity.Some?
              then Position(items[i].key, Finite(items[i].quantity.value)) in PositionsIn(items)
              else items[i].key in FillRefsIn(items)
  {
    if items != [] {
      var n := |items| - 1;
      ItemsSplit(items[..n]);
      assert forall i :: 0 <= i < n ==> items[..n][i] == items[i];
    }
  }

  /**
   What reads back intact has the row's own columns, and for each item, one for one, its key with its quantity
   among the positions or its key among the references.
   */
  lemma IntactIs(s: Settings, row: BaselineRow, items: seq<Item>)
    requires FromRows(s, row, items).Intact?
    ensures var b := FromRows(s, row, items).baseline;
            && b.manifest == row.manifest && b.runtime == row.runtime && b.venue == row.venue
            && b.account == row.account && b.captured == row.captured && b.operator == row.operator
            && b.revokedAt == row.revokedAt
            && |b.positions| + |b.fillRefs| == |items|
            && (forall i :: 0 <= i < |items| ==>
                  if items[i].quantity.Some? then Position(items[i].key, Finite(items[i].quantity.value)) in b.positions
                  else items[i].key in b.fillRefs)
  {
    hide Canonical, SortBy, PositionsIn, FillRefsIn;
    ItemsSplit(items);
    SameMembers(SortBy(RawToken, PositionsIn(items)), PositionsIn(items));
    SameMembers(SortBy(Itself, FillRefsIn(items)), FillRefsIn(items));
  }

  /** What reads back intact is in the code-point order of its tokens and of its references. */
  lemma IntactIsSorted(s: Settings, row: BaselineRow, items: seq<Item>)
    requires FromRows(s, row, items).Intact?
    ensures var b := FromRows(s, row, items).baseline;
            && (forall i, j :: 0 <= i < j < |b.positions| ==> Before(b.positions[i].token, b.positions[j].token))
            && (forall i, j :: 0 <= i < j < |b.fillRefs| ==> Before(b.fillRefs[i], b.fillRefs[j]))
  {
    hide Canonical, SortBy, PositionsIn, FillRefsIn, Trim, Before, IdentityValid;
    AcceptedIff(StoredContents(row, items));
    var positions, refs := PositionsIn(items), FillRefsIn(items);
    assert forall i, j :: 0 <= i < j < |positions| ==> Trim(positions[i].token) != Trim(positions[j].token);
    SortAscends(RawToken, positions);
    SortAscends(Itself, refs);
    SortedByToken(SortBy(RawToken, positions), SortBy(Itself, refs));
  }

  lemma SortedByToken(positions: seq<Position>, refs: seq<string>)
    requires Ascending(RawToken, positions) && Ascending(Itself, refs)
    ensures forall i, j :: 0 <= i < j < |positions| ==> Before(positions[i].token, positions[j].token)
    ensures forall i, j :: 0 <= i < j < |refs| ==> Before(refs[i], refs[j])
  {
    hide Before;
    forall i, j | 0 <= i < j < |positions|
      ensures Before(positions[i].token, positions[j].token)
    {
      assert Before(RawToken(positions[i]), RawToken(positions[j]));
    }
    forall i, j | 0 <= i < j < |refs|
      ensures Before(refs[i], refs[j])
    {
      assert Before(Itself(refs[i]), Itself(refs[j]));
    }
  }

  /** A recorded run is appended under this runtime, whatever runtime it names. */
  lemma RecordedRun(s: Settings, t: Tables, run: RunRow)
    ensures var next := Record(s, t, run);
            && next.baselines == t.baselines && next.items == t.items && |next.runs| == |t.runs| + 1
            && next.runs[..|t.runs|] == t.runs
            && next.runs[|t.runs|].runtime == s.runtime && next.runs[|t.runs|].venue == run.venue
            && next.runs[|t.runs|] == run.(runtime := s.runtime)
  {
  }
}
