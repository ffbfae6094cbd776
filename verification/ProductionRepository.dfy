/** The repository's baseline and reconciliation operations over its tables. */
module ProductionRepository {
  import opened Collections
  import opened Text
  import opened ExternalBaseline
  import opened BaselineStore
  import opened ReconciliationGate

  // ---------- Queries ----------

  ghost predicate IsLatest(s: Settings, runs: seq<RunRow>, fullOnly: bool, i: nat)
    requires i < |runs|
  {
    InScope(s, runs[i].venue) && FindRun(s, runs, runs[i].venue, fullOnly) == Some(i)
  }

  /** The latest run of each venue in scope among the first k runs. */
  function LatestRows(s: Settings, runs: seq<RunRow>, fullOnly: bool, k: nat): (rows: seq<RunRow>)
    requires k <= |runs|
    ensures forall i :: 0 <= i < k && IsLatest(s, runs, fullOnly, i) ==> runs[i] in rows
    ensures forall row :: row in rows ==> exists i :: 0 <= i < k && IsLatest(s, runs, fullOnly, i) && runs[i] == row
  {
    if k == 0 then []
    else
      var rows := LatestRows(s, runs, fullOnly, k - 1);
      var run := runs[k - 1];
      if InScope(s, run.venue) && FindRun(s, runs, run.venue, fullOnly) == Some(k - 1) then rows + [run] else rows
  }

  /** The active baselines of this runtime in scope. */
  function ActiveRows(s: Settings, rows: seq<BaselineRow>): (active: seq<BaselineRow>)
    ensures forall row :: row in active <==> row in rows && IsActive(row, s.runtime, row.venue) && InScope(s, row.venue)
  {
    if rows == [] then []
    else
      var n := |rows| - 1;
      ActiveRows(s, rows[..n])
      + if IsActive(rows[n], s.runtime, rows[n].venue) && InScope(s, rows[n].venue) then [rows[n]] else []
  }

  // ---------- What each loop of the gate adds ----------

  function Note(venue: string, fault: Option<string>): Option<string> {
    if fault.Some? then Some(Message(venue, fault.value)) else None
  }

  function RunNote(row: RunRow): Option<string> {
    Note(row.venue, LatestRunFault(row))
  }

  function BaselineNote(s: Settings, t: Tables, row: BaselineRow): Option<string> {
    if RowIntact(s, t, row) then None else Some(Message(row.venue, BROKEN))
  }

  function EvidenceNote(s: Settings, t: Tables, now: int, row: RunRow): Option<string> {
    Note(row.venue, EvidenceFault(row, ActiveRow(s, t, row.venue), ActiveIntact(s, t, row.venue), now))
  }

  function MissingNote(s: Settings, t: Tables, fullOnly: bool, venue: string): Option<string> {
    if FindRun(s, t.runs, venue, fullOnly).Some? then None else Some(Message(venue, MissingText(s, fullOnly)))
  }

  function BaselineNotes(s: Settings, t: Tables): BaselineRow -> Option<string> {
    (row: BaselineRow) => BaselineNote(s, t, row)
  }

  function EvidenceNotes(s: Settings, t: Tables, now: int): RunRow -> Option<string> {
    (row: RunRow) => EvidenceNote(s, t, now, row)
  }

  function MissingNotes(s: Settings, t: Tables, fullOnly: bool): string -> Option<string> {
    (venue: string) => MissingNote(s, t, fullOnly, venue)
  }

  ghost predicate Adds<T>(before: seq<string>, after: seq<string>, rows: seq<T>, k: nat, note: T -> Option<string>)
    requires k <= |rows|
  {
    forall m :: m in after <==> m in before || exists i :: 0 <= i < k && note(rows[i]) == Some(m)
  }

  lemma AddsStep<T>(before: seq<string>, after: seq<string>, rows: seq<T>, k: nat, note: T -> Option<string>,
                    next: seq<string>)
    requires k < |rows| && Adds(before, after, rows, k, note)
    requires note(rows[k]).None? ==> next == after
    requires note(rows[k]).Some?
            ==> next == after + [note(rows[k]).value] || (note(rows[k]).value in after && next == after)
    ensures Adds(before, next, rows, k + 1, note)
  {
    forall m
      ensures m in next <==> m in before || exists i :: 0 <= i < k + 1 && note(rows[i]) == Some(m)
    {
      if note(rows[k]) == Some(m) {
        assert m in next;
      } else {
        assert m in next <==> m in after;
        assert (exists i :: 0 <= i < k + 1 && note(rows[i]) == Some(m))
            <==> (exists i :: 0 <= i < k && note(rows[i]) == Some(m));
      }
    }
  }

  lemma NothingAdded<T>(before: seq<string>, rows: seq<T>, note: T -> Option<string>)
    ensures Adds(before, before, rows, 0, note)
  {
  }

  /** The five loops together add exactly the messages the gate must report. */
  lemma NotesAreReported(s: Settings, t: Tables, now: int, any: seq<RunRow>, full: seq<RunRow>,
                         active: seq<BaselineRow>, m: string)
    requires OneActive(t.baselines)
    requires any == LatestRows(s, t.runs, false, |t.runs|) && full == LatestRows(s, t.runs, true, |t.runs|)
    requires active == ActiveRows(s, t.baselines)
    ensures Reported(s, t, now, m) <==>
              || (exists i :: 0 <= i < |any| && RunNote(any[i]) == Some(m))
              || (exists i :: 0 <= i < |active| && BaselineNote(s, t, active[i]) == Some(m))
              || (exists i :: 0 <= i < |full| && EvidenceNote(s, t, now, full[i]) == Some(m))
              || (exists i :: 0 <= i < |s.venues| && MissingNote(s, t, false, s.venues[i]) == Some(m))
              || (exists i :: 0 <= i < |s.venues| && MissingNote(s, t, true, s.venues[i]) == Some(m))
  {
    hide FromRows, ItemsOf, FindActive, FindRun, LatestRows, ActiveRows, Lower, Message, MissingText, EvidenceFault,
         LatestRunFault, IsActive;
    if Reported(s, t, now, m) {
      ReportedIsNoted(s, t, now, any, full, active, m);
    }
    if i :| 0 <= i < |any| && RunNote(any[i]) == Some(m) {
      assert any[i] in any;
      assert HasFault(s, t, now, any[i].venue, LatestRunFault(any[i]).value);
    }
    if i :| 0 <= i < |active| && BaselineNote(s, t, active[i]) == Some(m) {
      assert active[i] in active;
      ActiveRowFound(s, t, active[i]);
      assert HasFault(s, t, now, active[i].venue, BROKEN);
    }
    if i :| 0 <= i < |full| && EvidenceNote(s, t, now, full[i]) == Some(m) {
      assert full[i] in full;
      var venue := full[i].venue;
      assert HasFault(s, t, now, venue,
                      EvidenceFault(full[i], ActiveRow(s, t, venue), ActiveIntact(s, t, venue), now).value);
    }
    if i :| 0 <= i < |s.venues| && MissingNote(s, t, false, s.venues[i]) == Some(m) {
      assert HasFault(s, t, now, s.venues[i], MissingText(s, false));
    }
    if i :| 0 <= i < |s.venues| && MissingNote(s, t, true, s.venues[i]) == Some(m) {
      assert HasFault(s, t, now, s.venues[i], MissingText(s, true));
    }
  }

  lemma ChainIsReported(s: Settings, t: Tables, now: int, any: seq<RunRow>, full: seq<RunRow>, active: seq<BaselineRow>,
                        one: seq<string>, two: seq<string>, three: seq<string>, four: seq<string>, five: seq<string>)
    requires OneActive(t.baselines)
    requires any == LatestRows(s, t.runs, false, |t.runs|) && full == LatestRows(s, t.runs, true, |t.runs|)
    requires active == ActiveRows(s, t.baselines)
    requires Adds([], one, any, |any|, RunNote) && Adds(one, two, active, |active|, BaselineNotes(s, t))
    requires Adds(two, three, full, |full|, EvidenceNotes(s, t, now))
    requires Adds(three, four, s.venues, |s.venues|, MissingNotes(s, t, false))
    requires Adds(four, five, s.venues, |s.venues|, MissingNotes(s, t, true))
    ensures forall m :: m in five <==> Reported(s, t, now, m)
  {
    hide OneActive, LatestRows, ActiveRows, RunNote, BaselineNote, EvidenceNote, MissingNote, Reported;
    forall m
      ensures m in five <==> Reported(s, t, now, m)
    {
      NotesAreReported(s, t, now, any, full, active, m);
    }
  }

  lemma ActiveRowFound(s: Settings, t: Tables, row: BaselineRow)
    requires OneActive(t.baselines) && row in t.baselines && IsActive(row, s.runtime, row.venue)
    ensures ActiveRow(s, t, row.venue) == Some(row)
  {
    var k :| 0 <= k < |t.baselines| && t.baselines[k] == row;
    ActiveRowUnique(s, t, row.venue, k);
  }

  lemma ReportedIsNoted(s: Settings, t: Tables, now: int, any: seq<RunRow>, full: seq<RunRow>, active: seq<BaselineRow>,
                        m: string)
    requires any == LatestRows(s, t.runs, false, |t.runs|) && full == LatestRows(s, t.runs, true, |t.runs|)
    requires active == ActiveRows(s, t.baselines)
    requires Reported(s, t, now, m)
    ensures
      || (exists i :: 0 <= i < |any| && RunNote(any[i]) == Some(m))
      || (exists i :: 0 <= i < |active| && BaselineNote(s, t, active[i]) == Some(m))
      || (exists i :: 0 <= i < |full| && EvidenceNote(s, t, now, full[i]) == Some(m))
      || (exists i :: 0 <= i < |s.venues| && MissingNote(s, t, false, s.venues[i]) == Some(m))
      || (exists i :: 0 <= i < |s.venues| && MissingNote(s, t, true, s.venues[i]) == Some(m))
  {
    hide FromRows, ItemsOf, FindActive, FindRun, LatestRows, ActiveRows, Lower, Message, MissingText, EvidenceFault,
         LatestRunFault;
    var venue, text :| InScope(s, venue) && HasFault(s, t, now, venue, text) && m == Message(venue, text);
    var a, f := FindRun(s, t.runs, venue, false), FindRun(s, t.runs, venue, true);
    if a.Some? && LatestRunFault(t.runs[a.value]) == Some(text) {
      assert IsLatest(s, t.runs, false, a.value);
      var i :| 0 <= i < |any| && any[i] == t.runs[a.value];
      assert RunNote(any[i]) == Some(m);
    } else if !ActiveIntact(s, t, venue) && text == BROKEN {
      var i :| 0 <= i < |active| && active[i] == ActiveRow(s, t, venue).value;
      assert BaselineNote(s, t, active[i]) == Some(m);
    } else if f.Some?
        && EvidenceFault(t.runs[f.value], ActiveRow(s, t, venue), ActiveIntact(s, t, venue), now) == Some(text) {
      assert IsLatest(s, t.runs, true, f.value);
      var i :| 0 <= i < |full| && full[i] == t.runs[f.value];
      assert EvidenceNote(s, t, now, full[i]) == Some(m);
    } else {
      var i :| 0 <= i < |s.venues| && s.venues[i] == venue;
      assert MissingNote(s, t, !(a.None? && text == MissingText(s, false)), s.venues[i]) == Some(m);
    }
  }

  lemma DirtyRunsListed(s: Settings, t: Tables, now: int, failures: seq<string>)
    requires forall m :: m in failures <==> Reported(s, t, now, m)
    ensures forall k :: 0 <= k < |t.runs| && t.runs[k].runtime == s.runtime
                            && (!t.runs[k].success || t.runs[k].drift > 0)
                            && (s.venues != [] || s.scopeConfigured ==> t.runs[k].venue in s.venues)
                            && (forall i :: k < i < |t.runs| ==>
                                  t.runs[i].runtime != s.runtime || t.runs[i].venue != t.runs[k].venue) ==>
                (t.runs[k].venue + ": " + if t.runs[k].error.Some? && t.runs[k].error.value != ""
                                       then t.runs[k].error.value else "latest reconciliation drift") in failures
    ensures forall k :: 0 <= k < |t.runs| && t.runs[k].runtime == s.runtime
                            && (!t.runs[k].success || t.runs[k].drift > 0)
                            && (s.venues != [] || s.scopeConfigured ==> t.runs[k].venue in s.venues)
                            && t.runs[k].full
                            && (forall i :: k < i < |t.runs| ==>
                                  || t.runs[i].runtime != s.runtime || t.runs[i].venue != t.runs[k].venue
                                  || !t.runs[i].full) ==>
                (t.runs[k].venue + ": " + if t.runs[k].error.Some? && t.runs[k].error.value != ""
                                       then t.runs[k].error.value else "full reconciliation drift") in failures
  {
    hide Reported;
    forall k | 0 <= k < |t.runs| && t.runs[k].runtime == s.runtime && (!t.runs[k].success || t.runs[k].drift > 0)
               && (s.venues != [] || s.scopeConfigured ==> t.runs[k].venue in s.venues)
      ensures (forall i :: k < i < |t.runs| ==>
                 t.runs[i].runtime != s.runtime || t.runs[i].venue != t.runs[k].venue) ==>
                (t.runs[k].venue + ": " + if t.runs[k].error.Some? && t.runs[k].error.value != ""
                                          then t.runs[k].error.value else "latest reconciliation drift") in failures
      ensures (t.runs[k].full
               && forall i :: k < i < |t.runs| ==>
                    t.runs[i].runtime != s.runtime || t.runs[i].venue != t.runs[k].venue || !t.runs[i].full) ==>
                (t.runs[k].venue + ": " + if t.runs[k].error.Some? && t.runs[k].error.value != ""
                                          then t.runs[k].error.value else "full reconciliation drift") in failures
    {
      if forall i :: k < i < |t.runs| ==> t.runs[i].runtime != s.runtime || t.runs[i].venue != t.runs[k].venue {
        DirtyRunReported(s, t, now, k);
      }
      if t.runs[k].full && forall i :: k < i < |t.runs| ==>
           t.runs[i].runtime != s.runtime || t.runs[i].venue != t.runs[k].venue || !t.runs[i].full {
        DirtyFullRunReported(s, t, now, k);
      }
    }
  }

  // ---------- _external_baseline_from_rows ----------

  method ExternalBaselineFromRows(s: Settings, row: BaselineRow, items: seq<Item>) returns (result: ReadBack)
    ensures result == FromRows(s, row, items)
  {
    var positions, fillRefs := [], [];
    var i := 0;
    while i < |items|
      invariant 0 <= i <= |items| && ItemsValid(items[..i])
      invariant positions == PositionsIn(items[..i]) && fillRefs == FillRefsIn(items[..i])
    {
      var item := items[i];
      assert items[..i + 1][..i] == items[..i];
      if item.kind == PositionKind && item.quantity.Some? {
        positions := positions + [Position(item.key, Finite(item.quantity.value))];
      } else if item.kind == FillRefKind && item.quantity.None? {
        fillRefs := fillRefs + [item.key];
      } else {
        return InvalidItem;
      }
      i := i + 1;
    }
    assert items[..i] == items;
    var payload := CanonicalPayload(Contents(row.runtime, row.venue, row.account, positions, fillRefs));
    if payload.Refused? {
      return ContentsInvalid(payload.reason);
    }
    if s.digest(payload.payload) != row.manifest {
      return DigestDiffers;
    }
    return Intact(Baseline(row.manifest, row.runtime, row.venue, row.account, SortBy(RawToken, positions),
                           SortBy(Itself, fillRefs), row.captured, row.operator, row.revokedAt));
  }

  // ---------- The repository ----------

  class Repository {
    const settings: Settings
    var baselines: seq<BaselineRow>
    var items: seq<Item>
    var runs: seq<RunRow>

    constructor (settings: Settings)
      ensures this.settings == settings && View() == Tables([], [], []) && Inv(View())
    {
      this.settings := settings;
      baselines, items, runs := [], [], [];
    }

    ghost function View(): Tables
      reads this
    {
      Tables(baselines, items, runs)
    }

    method ActivateExternalAccountBaseline(b: Baseline) returns (result: Activation)
      modifies this
      ensures (View(), result) == Activate(settings, old(View()), b)
    {
      if b.runtime != settings.runtime {
        return ActivationRefused(RuntimeMismatch);
      }
      var payload := CanonicalPayload(Contents(b.runtime, b.venue, b.account, b.positions, b.fillRefs));
      if payload.Refused? {
        return ActivationRefused(ContentsRefused(payload.reason));
      }
      var expected := settings.digest(payload.payload);
      if expected != Lower(b.manifest) {
        return ActivationRefused(DigestMismatch);
      }
      var active := FindActive(baselines, settings.runtime, b.venue);
      if active.Some? {
        if baselines[active.value].manifest == b.manifest {
          return Unchanged;
        }
        return ActivationRefused(AnotherActive);
      }
      var existing := FindManifest(baselines, b.manifest);
      if existing.Some? {
        var row := baselines[existing.value];
        if row.runtime != b.runtime || row.venue != b.venue || row.account != b.account {
          return ActivationRefused(BoundElsewhere);
        }
        row := row.(revokedAt := None, revokedBy := None);
        row := row.(captured := b.captured, operator := b.operator);
        baselines := baselines[existing.value := row];
        return Changed;
      }
      baselines := baselines + [BaselineRow(b.manifest, b.runtime, b.venue, b.account, b.operator, b.captured, None,
                                            None)];
      items := items + (PositionItems(settings, b.manifest, b.positions) + FillRefItems(b.manifest, b.fillRefs));
      return Changed;
    }

    method RevokeExternalAccountBaseline(venue: string, operator: string, manifest: string,
                                         now: int) returns (result: Revocation)
      modifies this
      ensures (View(), result) == Revoke(settings, old(View()), venue, operator, manifest, now)
    {
      var revoker := Trim(operator);
      var normalized := Lower(Trim(manifest));
      if revoker == "" || |normalized| != 64 {
        return RevocationRefused;
      }
      var active := FindActive(baselines, settings.runtime, venue);
      if active.None? {
        return NothingActive;
      }
      var row := baselines[active.value];
      if row.manifest != normalized {
        return RevocationRefused;
      }
      baselines := baselines[active.value := row.(revokedAt := Some(now), revokedBy := Some(revoker))];
      return Revoked;
    }

    method RecordReconciliation(run: RunRow)
      modifies this
      ensures View() == Record(settings, old(View()), run)
    {
      runs := runs + [run.(runtime := settings.runtime)];
    }

    /** The active baseline of a venue, read back; None when there is none. */
    method ActiveExternalAccountBaseline(venue: string) returns (result: Option<ReadBack>)
      ensures result.None? <==> ActiveRow(settings, View(), venue).None?
      ensures result.Some? ==>
                var row := ActiveRow(settings, View(), venue).value;
                result.value == FromRows(settings, row, ItemsOf(items, row.manifest))
    {
      var active := FindActive(baselines, settings.runtime, venue);
      if active.None? {
        return None;
      }
      var row := baselines[active.value];
      var baseline := ExternalBaselineFromRows(settings, row, ItemsOf(items, row.manifest));
      return Some(baseline);
    }

    // ---------- latest_reconciliation_failures ----------

    method AddRunFaults(any: seq<RunRow>) returns (failures: seq<string>)
      ensures Adds([], failures, any, |any|, RunNote)
    {
      failures := [];
      var i := 0;
      while i < |any|
        invariant 0 <= i <= |any| && Adds([], failures, any, i, RunNote)
      {
        ghost var before := failures;
        if !any[i].success || any[i].drift > 0 {
          failures := failures + [Message(any[i].venue, OrDefault(any[i].error, "latest reconciliation drift"))];
        }
        AddsStep([], before, any, i, RunNote, failures);
        i := i + 1;
      }
    }

    method AddBrokenBaselines(failures: seq<string>, active: seq<BaselineRow>) returns (more: seq<string>,
        broken: set<string>)
      ensures var t, s := View(), settings; Adds(failures, more, active, |active|, BaselineNotes(s, t))
      ensures broken == (set i | 0 <= i < |active| && !RowIntact(settings, View(), active[i]) :: active[i].venue)
    {
      hide FromRows, ItemsOf, Message;
      ghost var t, s := View(), settings;
      ghost var note := BaselineNotes(s, t);
      more, broken := failures, {};
      var i := 0;
      while i < |active|
        invariant 0 <= i <= |active| && Adds(failures, more, active, i, note)
        invariant broken == (set j | 0 <= j < i && !RowIntact(settings, View(), active[j]) :: active[j].venue)
      {
        ghost var before := more;
        var result := ExternalBaselineFromRows(settings, active[i], ItemsOf(items, active[i].manifest));
        if !result.Intact? {
          more := more + [Message(active[i].venue, BROKEN)];
          broken := broken + {active[i].venue};
        }
        AddsStep(failures, before, active, i, note, more);
        i := i + 1;
      }
    }

    /** One latest full run against the baseline of its venue, as the gate's third loop does. */
    method CheckEvidence(run: RunRow, byVenue: map<string, BaselineRow>, broken: set<string>,
                         now: int) returns (fault: Option<string>)
      requires run.venue in broken ==> run.venue in byVenue
      ensures fault
              == EvidenceFault(run, if run.venue in byVenue then Some(byVenue[run.venue]) else None,
                               run.venue !in broken, now)
    {
      if !run.success || run.drift > 0 {
        return Some(OrDefault(run.error, "full reconciliation drift"));
      }
      if now - run.completed > MAX_AGE {
        return Some("latest full reconciliation evidence is stale");
      }
      if run.venue in broken {
        return None;
      }
      var expected := if run.venue in byVenue then Some(byVenue[run.venue].manifest) else None;
      if run.manifest != expected {
        return Some("reconciliation evidence predates external baseline state");
      }
      if run.venue in byVenue {
        if run.completed < byVenue[run.venue].captured || run.account.None? || run.account.value == "" {
          return Some("external baseline lacks fresh reconciliation evidence");
        }
        if Lower(run.account.value) != Lower(byVenue[run.venue].account) {
          return Some("reconciliation account identity does not match baseline");
        }
      }
      return None;
    }

    method AddEvidenceFaults(failures: seq<string>, full: seq<RunRow>, byVenue: map<string, BaselineRow>,
                             broken: set<string>, now: int)
      returns (more: seq<string>)
      requires forall i :: 0 <= i < |full| ==> AgreesWith(full[i].venue, byVenue, broken)
      ensures var t, s := View(), settings; Adds(failures, more, full, |full|, EvidenceNotes(s, t, now))
    {
      hide EvidenceFault, FromRows, ItemsOf, FindActive, Message;
      ghost var t, s := View(), settings;
      ghost var note := EvidenceNotes(s, t, now);
      more := failures;
      var i := 0;
      while i < |full|
        invariant 0 <= i <= |full| && Adds(failures, more, full, i, note)
      {
        ghost var before := more;
        assert AgreesWith(full[i].venue, byVenue, broken);
        var fault := CheckEvidence(full[i], byVenue, broken, now);
        if fault.Some? {
          var message := Message(full[i].venue, fault.value);
          if !(full[i].success && full[i].drift <= 0) {
            if message !in more {
              more := more + [message];
            }
          } else {
            more := more + [message];
          }
        }
        AddsStep(failures, before, full, i, note, more);
        i := i + 1;
      }
    }

    /** The dictionary and the set that the loops build say what the tables say about a venue. */
    ghost predicate AgreesWith(venue: string, byVenue: map<string, BaselineRow>, broken: set<string>)
      reads this
    {
      && ActiveRow(settings, View(), venue) == (if venue in byVenue then Some(byVenue[venue]) else None)
      && (venue in broken <==> !ActiveIntact(settings, View(), venue))
    }

    method AddMissing(failures: seq<string>, seen: set<string>, fullOnly: bool) returns (more: seq<string>)
      requires forall i :: 0 <= i < |settings.venues| ==>
                             (settings.venues[i] in seen
                              <==> FindRun(settings, runs, settings.venues[i], fullOnly).Some?)
      ensures var t, s := View(), settings;
              Adds(failures, more, s.venues, |s.venues|, MissingNotes(s, t, fullOnly))
    {
      hide Message, MissingText, FindRun;
      ghost var t, s := View(), settings;
      ghost var note := MissingNotes(s, t, fullOnly);
      more := failures;
      var i := 0;
      while i < |settings.venues|
        invariant 0 <= i <= |settings.venues| && Adds(failures, more, s.venues, i, note)
      {
        ghost var before := more;
        if settings.venues[i] !in seen {
          more := more + [Message(settings.venues[i], MissingText(settings, fullOnly))];
        }
        AddsStep(failures, before, s.venues, i, note, more);
        i := i + 1;
      }
    }

    method IndexByVenue(active: seq<BaselineRow>) returns (byVenue: map<string, BaselineRow>)
      ensures forall venue :: venue in byVenue ==> byVenue[venue] in active && byVenue[venue].venue == venue
      ensures forall i :: 0 <= i < |active| ==> active[i].venue in byVenue
    {
      byVenue := map[];
      var i := 0;
      while i < |active|
        invariant 0 <= i <= |active|
        invariant forall venue :: venue in byVenue ==> byVenue[venue] in active && byVenue[venue].venue == venue
        invariant forall j :: 0 <= j < i ==> active[j].venue in byVenue
      {
        byVenue := byVenue[active[i].venue := active[i]];
        i := i + 1;
      }
    }

    lemma LoopsAgree(active: seq<BaselineRow>, byVenue: map<string, BaselineRow>, broken: set<string>, venue: string)
      requires OneActive(baselines) && active == ActiveRows(settings, baselines) && InScope(settings, venue)
      requires forall v :: v in byVenue ==> byVenue[v] in active && byVenue[v].venue == v
      requires forall i :: 0 <= i < |active| ==> active[i].venue in byVenue
      requires broken == (set i | 0 <= i < |active| && !RowIntact(settings, View(), active[i]) :: active[i].venue)
      ensures AgreesWith(venue, byVenue, broken)
    {
      hide FromRows, ItemsOf, FindActive, ActiveRows;
      var row := ActiveRow(settings, View(), venue);
      if row.Some? {
        assert row.value in active;
        var i :| 0 <= i < |active| && active[i] == row.value;
        assert venue in byVenue;
      }
      if venue in byVenue {
        ActiveRowFound(settings, View(), byVenue[venue]);
      }
      if venue in broken {
        var i :| 0 <= i < |active| && !RowIntact(settings, View(), active[i]) && active[i].venue == venue;
        assert active[i] in active;
        ActiveRowFound(settings, View(), active[i]);
      }
    }

    lemma SeenIff(rows: seq<RunRow>, fullOnly: bool, venue: string)
      requires rows == LatestRows(settings, runs, fullOnly, |runs|) && InScope(settings, venue)
      ensures (exists i :: 0 <= i < |rows| && rows[i].venue == venue)
              <==> FindRun(settings, runs, venue, fullOnly).Some?
    {
      hide LatestRows;
      var k := FindRun(settings, runs, venue, fullOnly);
      if k.Some? {
        assert IsLatest(settings, runs, fullOnly, k.value);
        assert runs[k.value] in rows;
      }
      if i :| 0 <= i < |rows| && rows[i].venue == venue {
        assert rows[i] in rows;
        var j :| 0 <= j < |runs| && IsLatest(settings, runs, fullOnly, j) && runs[j] == rows[i];
      }
    }

    /** The five loops of latest_reconciliation_failures. */
    method CollectFailures(now: int) returns (failures: seq<string>)
      requires OneActive(baselines)
      ensures forall m :: m in failures <==> Reported(settings, View(), now, m)
    {
      hide FromRows, ItemsOf, FindActive, FindRun, LatestRows, ActiveRows, Reported, GateOpen, OneActive, AgreesWith,
           RowIntact,
           RunNote, BaselineNote, EvidenceNote, MissingNote, Adds;
      var any := LatestRows(settings, runs, false, |runs|);
      var full := LatestRows(settings, runs, true, |runs|);
      var active := ActiveRows(settings, baselines);
      var byVenue := IndexByVenue(active);
      failures := AddRunFaults(any);
      ghost var one := failures;
      var broken;
      failures, broken := AddBrokenBaselines(failures, active);
      ghost var two := failures;
      forall i | 0 <= i < |full|
        ensures AgreesWith(full[i].venue, byVenue, broken)
      {
        assert full[i] in full;
        LoopsAgree(active, byVenue, broken, full[i].venue);
      }
      failures := AddEvidenceFaults(failures, full, byVenue, broken, now);
      ghost var three, four := failures, failures;
      if settings.venues != [] {
        forall i | 0 <= i < |settings.venues|
          ensures (exists k :: 0 <= k < |any| && any[k].venue == settings.venues[i])
                  <==> FindRun(settings, runs, settings.venues[i], false).Some?
          ensures (exists k :: 0 <= k < |full| && full[k].venue == settings.venues[i])
                  <==> FindRun(settings, runs, settings.venues[i], true).Some?
        {
          SeenIff(any, false, settings.venues[i]);
          SeenIff(full, true, settings.venues[i]);
        }
        var seenAny := set i | 0 <= i < |any| :: any[i].venue;
        failures := AddMissing(failures, seenAny, false);
        four := failures;
        var seenFull := set i | 0 <= i < |full| :: full[i].venue;
        failures := AddMissing(failures, seenFull, true);
      }
      assert settings.venues == [] ==> Adds(three, three, settings.venues, 0, MissingNotes(settings, View(), false))
                                       && Adds(three, three, settings.venues, 0,
                                               MissingNotes(settings, View(), true)) by {
        NothingAdded(three, settings.venues, MissingNotes(settings, View(), false));
        NothingAdded(three, settings.venues, MissingNotes(settings, View(), true));
      }
      ChainIsReported(settings, View(), now, any, full, active, one, two, three, four, failures);
    }

    /** Exactly the required messages, and none of them iff the gate is open. */
    method LatestReconciliationFailures(now: int) returns (failures: seq<string>)
      requires OneActive(baselines)
      ensures forall m :: m in failures <==> Reported(settings, View(), now, m)
      ensures failures == [] <==> GateOpen(settings, View(), now)
      ensures forall k :: 0 <= k < |runs| && runs[k].runtime == settings.runtime
                            && (!runs[k].success || runs[k].drift > 0)
                            && (settings.venues != [] || settings.scopeConfigured ==> runs[k].venue in settings.venues)
                            && (forall i :: k < i < |runs| ==>
                                  runs[i].runtime != settings.runtime || runs[i].venue != runs[k].venue) ==>
                (runs[k].venue + ": " + if runs[k].error.Some? && runs[k].error.value != ""
                                       then runs[k].error.value else "latest reconciliation drift") in failures
      ensures forall k :: 0 <= k < |runs| && runs[k].runtime == settings.runtime
                            && (!runs[k].success || runs[k].drift > 0)
                            && (settings.venues != [] || settings.scopeConfigured ==> runs[k].venue in settings.venues)
                            && runs[k].full
                            && (forall i :: k < i < |runs| ==>
                                  || runs[i].runtime != settings.runtime || runs[i].venue != runs[k].venue
                                  || !runs[i].full) ==>
                (runs[k].venue + ": " + if runs[k].error.Some? && runs[k].error.value != ""
                                       then runs[k].error.value else "full reconciliation drift") in failures
    {
      hide Reported, GateOpen, OneActive;
      failures := CollectFailures(now);
      GateOpenIff(settings, View(), now);
      DirtyRunsListed(settings, View(), now, failures);
      assert failures != [] ==> failures[0] in failures;
    }
  }
}
