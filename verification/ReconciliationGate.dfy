/**
 The reconciliation gate: which failures the recorded runs and stored baselines amount to, exactly
 when there are none, and how activating a baseline closes the gate over later runs.
 */
module ReconciliationGate {
  import opened Collections
  import opened Text
  import opened ExternalBaseline
  import opened BaselineStore

  const MAX_AGE: int := 300

  // ---------- Scope and latest runs ----------

  predicate Scoped(s: Settings) {
    s.venues != [] || s.scopeConfigured
  }

  predicate InScope(s: Settings, venue: string) {
    Scoped(s) ==> venue in s.venues
  }

  predicate RunFor(s: Settings, run: RunRow, venue: string, fullOnly: bool) {
    run.runtime == s.runtime && run.venue == venue && (fullOnly ==> run.full)
  }

  function FindRun(s: Settings, runs: seq<RunRow>, venue: string, fullOnly: bool): (k: Option<nat>)
    ensures k.Some? ==> k.value < |runs| && RunFor(s, runs[k.value], venue, fullOnly)
                        && forall i :: k.value < i < |runs| ==> !RunFor(s, runs[i], venue, fullOnly)
    ensures k.None? ==> forall i :: 0 <= i < |runs| ==> !RunFor(s, runs[i], venue, fullOnly)
  {
    if runs == [] then None
    else
      var n := |runs| - 1;
      if RunFor(s, runs[n], venue, fullOnly) then Some(n) else FindRun(s, runs[..n], venue, fullOnly)
  }

  // ---------- What is wrong with one venue ----------

  function OrDefault(error: Option<string>, default: string): string {
    if error.Some? && error.value != "" then error.value else default
  }

  predicate Failed(run: RunRow) {
    !run.success || run.drift > 0
  }

  function LatestRunFault(run: RunRow): Option<string> {
    if Failed(run) then Some(OrDefault(run.error, "latest reconciliation drift")) else None
  }

  /** The gate's verdict on one full run, given the baseline active for its venue and whether it is intact. */
  function EvidenceFault(run: RunRow, active: Option<BaselineRow>, intact: bool, now: int): Option<string> {
    if Failed(run) then Some(OrDefault(run.error, "full reconciliation drift"))
    else if now - run.completed > MAX_AGE then Some("latest full reconciliation evidence is stale")
    else if active.Some? && !intact then None
    else if run.manifest != (if active.Some? then Some(active.value.manifest) else None) then
      Some("reconciliation evidence predates external baseline state")
    else if active.None? then None
    else if run.completed < active.value.captured || run.account.None? || run.account.value == "" then
      Some("external baseline lacks fresh reconciliation evidence")
    else if Lower(run.account.value) != Lower(active.value.account) then
      Some("reconciliation account identity does not match baseline")
    else None
  }

  function ActiveRow(s: Settings, t: Tables, venue: string): (row: Option<BaselineRow>)
    ensures row.Some? ==> row.value in t.baselines && IsActive(row.value, s.runtime, venue)
  {
    var k := FindActive(t.baselines, s.runtime, venue);
    if k.Some? then Some(t.baselines[k.value]) else None
  }

  predicate RowIntact(s: Settings, t: Tables, row: BaselineRow) {
    FromRows(s, row, ItemsOf(t.items, row.manifest)).Intact?
  }

  predicate ActiveIntact(s: Settings, t: Tables, venue: string) {
    var row := ActiveRow(s, t, venue);
    row.Some? ==> RowIntact(s, t, row.value)
  }

  function MissingText(s: Settings, fullOnly: bool): string {
    (if fullOnly then "fresh full reconciliation result missing for runtime "
     else "reconciliation result missing for runtime ") + s.runtime
  }

  const BROKEN: string := "active external baseline failed its integrity check"

  /** Every fault of one venue. */
  ghost predicate HasFault(s: Settings, t: Tables, now: int, venue: string, text: string) {
    var any, full := FindRun(s, t.runs, venue, false), FindRun(s, t.runs, venue, true);
    || (any.Some? && LatestRunFault(t.runs[any.value]) == Some(text))
    || (!ActiveIntact(s, t, venue) && text == BROKEN)
    || (full.Some?
        && EvidenceFault(t.runs[full.value], ActiveRow(s, t, venue), ActiveIntact(s, t, venue), now) == Some(text))
    || (venue in s.venues && any.None? && text == MissingText(s, false))
    || (venue in s.venues && full.None? && text == MissingText(s, true))
  }

  function Message(venue: string, text: string): string {
    venue + ": " + text
  }

  /** The messages the gate must return, whatever order the queries deliver rows in. */
  ghost predicate Reported(s: Settings, t: Tables, now: int, message: string) {
    exists venue, text :: InScope(s, venue) && HasFault(s, t, now, venue, text) && message == Message(venue, text)
  }

  // ---------- When the gate is open ----------

  /** A full run is evidence for the state of its venue: clean, fresh and bound to the active baseline or to none. */
  ghost predicate Evidence(s: Settings, t: Tables, now: int, venue: string, run: RunRow) {
    && !Failed(run) && now - run.completed <= MAX_AGE
    && match ActiveRow(s, t, venue)
       case None => run.manifest.None?
       case Some(active) =>
         && run.manifest == Some(active.manifest) && run.completed >= active.captured
         && run.account.Some? && run.account.value != "" && Lower(run.account.value) == Lower(active.account)
  }

  ghost predicate VenueClear(s: Settings, t: Tables, now: int, venue: string) {
    var any, full := FindRun(s, t.runs, venue, false), FindRun(s, t.runs, venue, true);
    && ActiveIntact(s, t, venue)
    && (any.Some? ==> !Failed(t.runs[any.value]))
    && (full.Some? ==> Evidence(s, t, now, venue, t.runs[full.value]))
    && (venue in s.venues ==> any.Some? && full.Some?)
  }

  ghost predicate GateOpen(s: Settings, t: Tables, now: int) {
    forall venue :: InScope(s, venue) ==> VenueClear(s, t, now, venue)
  }

  lemma VenueClearIff(s: Settings, t: Tables, now: int, venue: string)
    ensures VenueClear(s, t, now, venue) <==> forall text :: !HasFault(s, t, now, venue, text)
  {
    hide FromRows, ItemsOf, Lower, FindRun, FindActive;
    var any, full := FindRun(s, t.runs, venue, false), FindRun(s, t.runs, venue, true);
    if !VenueClear(s, t, now, venue) {
      if !ActiveIntact(s, t, venue) {
        assert HasFault(s, t, now, venue, BROKEN);
      } else if any.Some? && Failed(t.runs[any.value]) {
        assert HasFault(s, t, now, venue, LatestRunFault(t.runs[any.value]).value);
      } else if full.Some? && !Evidence(s, t, now, venue, t.runs[full.value]) {
        var fault := EvidenceFault(t.runs[full.value], ActiveRow(s, t, venue), true, now);
        assert HasFault(s, t, now, venue, fault.value);
      } else {
        assert HasFault(s, t, now, venue, MissingText(s, any.Some?));
      }
    }
  }

  /**
   The gate reports nothing exactly when every venue in scope has an intact baseline if any, a clean
   latest run, and a latest full run that is evidence for its state; a named venue must have both.
   */
  lemma GateOpenIff(s: Settings, t: Tables, now: int)
    ensures GateOpen(s, t, now) <==> forall message :: !Reported(s, t, now, message)
  {
    hide HasFault, VenueClear, Message;
    forall venue
      ensures VenueClear(s, t, now, venue) <==> forall text :: !HasFault(s, t, now, venue, text)
    {
      VenueClearIff(s, t, now, venue);
    }
    if !GateOpen(s, t, now) {
      var venue :| InScope(s, venue) && !VenueClear(s, t, now, venue);
      var text :| HasFault(s, t, now, venue, text);
      assert Reported(s, t, now, Message(venue, text));
    }
  }

  // ---------- The gate in the columns of the tables ----------

  lemma FoundIsLatest(s: Settings, runs: seq<RunRow>, venue: string, fullOnly: bool, k: nat)
    requires k < |runs| && runs[k].runtime == s.runtime && runs[k].venue == venue && (fullOnly ==> runs[k].full)
    requires forall i :: k < i < |runs| && runs[i].runtime == s.runtime && runs[i].venue == venue
               ==> fullOnly && !runs[i].full
    ensures FindRun(s, runs, venue, fullOnly) == Some(k)
  {
  }

  /** The rows that the gate takes for the latest run, the latest full run and the active baseline of a venue. */
  lemma RowsTaken(s: Settings, t: Tables, venue: string)
    requires OneActive(t.baselines)
    ensures var any, full := FindRun(s, t.runs, venue, false), FindRun(s, t.runs, venue, true);
            && (any.None? <==> forall i :: 0 <= i < |t.runs| ==>
                                 t.runs[i].runtime != s.runtime || t.runs[i].venue != venue)
            && (full.None? <==> forall i :: 0 <= i < |t.runs| ==>
                                  t.runs[i].runtime != s.runtime || t.runs[i].venue != venue || !t.runs[i].full)
            && (any.Some? ==>
                  && any.value < |t.runs| && t.runs[any.value].runtime == s.runtime && t.runs[any.value].venue == venue
                  && forall i :: any.value < i < |t.runs| ==>
                       t.runs[i].runtime != s.runtime || t.runs[i].venue != venue)
            && (full.Some? ==>
                  && full.value < |t.runs| && t.runs[full.value].full
                  && t.runs[full.value].runtime == s.runtime && t.runs[full.value].venue == venue
                  && forall i :: full.value < i < |t.runs| ==>
                       t.runs[i].runtime != s.runtime || t.runs[i].venue != venue || !t.runs[i].full)
    ensures var row := ActiveRow(s, t, venue);
            && (row.None? <==> forall j :: 0 <= j < |t.baselines| ==>
                                 || t.baselines[j].runtime != s.runtime || t.baselines[j].venue != venue
                                 || t.baselines[j].revokedAt.Some?)
            && (row.Some? ==>
                  exists j :: 0 <= j < |t.baselines| && t.baselines[j] == row.value
                              && row.value.runtime == s.runtime && row.value.venue == venue
                              && row.value.revokedAt.None?)
  {
  }

  /** The first loop blames a latest run iff it failed or drifted. */
  lemma LatestRunFaultIff(run: RunRow, text: string)
    ensures LatestRunFault(run) == Some(text)
       <==> && (!run.success || run.drift > 0)
            && text == if run.error.Some? && run.error.value != "" then run.error.value
                       else "latest reconciliation drift"
  {
  }

  /**
   The third loop blames a latest full run, in this order, for having failed or drifted, being older than five
   minutes, carrying another manifest than the active baseline or one where none is active, being older than the
   capture or naming no account, and naming another account; never for a baseline that does not read back.
   */
  lemma EvidenceFaultIs(run: RunRow, row: Option<BaselineRow>, intact: bool, now: int)
    ensures var fault := EvidenceFault(run, row, intact, now);
            if !run.success || run.drift > 0 then
              fault == Some(if run.error.Some? && run.error.value != "" then run.error.value
                            else "full reconciliation drift")
            else if now - run.completed > 300 then fault == Some("latest full reconciliation evidence is stale")
            else if row.Some? && !intact then fault == None
            else if row.None? then
              if run.manifest.None? then fault == None
              else fault == Some("reconciliation evidence predates external baseline state")
            else if run.manifest != Some(row.value.manifest) then
              fault == Some("reconciliation evidence predates external baseline state")
            else if run.completed < row.value.captured || run.account.None? || run.account.value == "" then
              fault == Some("external baseline lacks fresh reconciliation evidence")
            else if Lower(run.account.value) != Lower(row.value.account) then
              fault == Some("reconciliation account identity does not match baseline")
            else fault == None
  {
    hide Lower;
  }

  /**
   The faults of a venue: those of its latest run and of its latest full run, an active baseline that does not read
   back, and for a named venue having no run or no full run.
   */
  lemma FaultIff(s: Settings, t: Tables, now: int, venue: string, text: string)
    ensures var any, full := FindRun(s, t.runs, venue, false), FindRun(s, t.runs, venue, true);
            var row := ActiveRow(s, t, venue);
            var intact := row.Some? ==> FromRows(s, row.value, ItemsOf(t.items, row.value.manifest)).Intact?;
            HasFault(s, t, now, venue, text) <==>
            || (any.Some? && LatestRunFault(t.runs[any.value]) == Some(text))
            || (full.Some? && EvidenceFault(t.runs[full.value], row, intact, now) == Some(text))
            || (!intact && text == "active external baseline failed its integrity check")
            || (venue in s.venues && any.None? && text == "reconciliation result missing for runtime " + s.runtime)
            || (venue in s.venues && full.None?
                && text == "fresh full reconciliation result missing for runtime " + s.runtime)
  {
    hide FromRows, ItemsOf, Lower, FindRun, FindActive, ActiveRow, LatestRunFault, EvidenceFault;
  }

  /** The messages are the faults of the venues in scope, each behind its venue's name. */
  lemma ReportedIff(s: Settings, t: Tables, now: int, message: string)
    ensures Reported(s, t, now, message) <==>
              exists venue, text :: (s.venues != [] || s.scopeConfigured ==> venue in s.venues)
                                    && HasFault(s, t, now, venue, text) && message == venue + ": " + text
  {
    hide HasFault;
    if venue, text :| (s.venues != [] || s.scopeConfigured ==> venue in s.venues)
                      && HasFault(s, t, now, venue, text) && message == venue + ": " + text {
      assert InScope(s, venue) && message == Message(venue, text);
    }
    if Reported(s, t, now, message) {
      var venue, text :| InScope(s, venue) && HasFault(s, t, now, venue, text) && message == Message(venue, text);
      assert message == venue + ": " + text;
    }
  }

  /** A latest run that failed or drifted is reported under its own error or the default text. */
  lemma DirtyRunReported(s: Settings, t: Tables, now: int, k: nat)
    requires k < |t.runs| && t.runs[k].runtime == s.runtime && (!t.runs[k].success || t.runs[k].drift > 0)
    requires s.venues != [] || s.scopeConfigured ==> t.runs[k].venue in s.venues
    requires forall i :: k < i < |t.runs| ==> t.runs[i].runtime != s.runtime || t.runs[i].venue != t.runs[k].venue
    ensures var r := t.runs[k];
            Reported(s, t, now, r.venue + ": " + if r.error.Some? && r.error.value != "" then r.error.value
                                                 else "latest reconciliation drift")
  {
    hide ActiveIntact, ActiveRow, FindRun, Reported;
    var r := t.runs[k];
    FoundIsLatest(s, t.runs, r.venue, false, k);
    var text := if r.error.Some? && r.error.value != "" then r.error.value else "latest reconciliation drift";
    assert HasFault(s, t, now, r.venue, text);
    ReportedIff(s, t, now, r.venue + ": " + text);
  }

  /** So is a latest full run, under its own default text. */
  lemma DirtyFullRunReported(s: Settings, t: Tables, now: int, k: nat)
    requires k < |t.runs| && t.runs[k].runtime == s.runtime && (!t.runs[k].success || t.runs[k].drift > 0)
    requires s.venues != [] || s.scopeConfigured ==> t.runs[k].venue in s.venues
    requires t.runs[k].full
    requires forall i :: k < i < |t.runs| ==>
               t.runs[i].runtime != s.runtime || t.runs[i].venue != t.runs[k].venue || !t.runs[i].full
    ensures var r := t.runs[k];
            Reported(s, t, now, r.venue + ": " + if r.error.Some? && r.error.value != "" then r.error.value
                                                 else "full reconciliation drift")
  {
    hide ActiveIntact, ActiveRow, FindRun, Reported;
    var r := t.runs[k];
    FoundIsLatest(s, t.runs, r.venue, true, k);
    var text := if r.error.Some? && r.error.value != "" then r.error.value else "full reconciliation drift";
    assert HasFault(s, t, now, r.venue, text);
    ReportedIff(s, t, now, r.venue + ": " + text);
  }

  /** A full run is evidence iff it is clean, at most five minutes old and bound to the active baseline, if any. */
  lemma EvidenceIff(s: Settings, t: Tables, now: int, venue: string, run: RunRow)
    ensures Evidence(s, t, now, venue, run) <==>
              && run.success && run.drift <= 0 && now - run.completed <= 300
              && var row := ActiveRow(s, t, venue);
                 if row.None? then run.manifest.None?
                 else && run.manifest == Some(row.value.manifest) && run.completed >= row.value.captured
                      && run.account.Some? && run.account.value != ""
                      && Lower(run.account.value) == Lower(row.value.account)
  {
    hide Lower, ActiveRow;
  }

  lemma ActiveIsTaken(s: Settings, t: Tables, venue: string)
    requires OneActive(t.baselines)
    ensures forall j :: 0 <= j < |t.baselines| && t.baselines[j].runtime == s.runtime
                        && t.baselines[j].venue == venue && t.baselines[j].revokedAt.None?
              ==> ActiveRow(s, t, venue) == Some(t.baselines[j])
  {
  }

  lemma ActiveIntactIff(s: Settings, t: Tables, venue: string)
    requires OneActive(t.baselines)
    ensures ActiveIntact(s, t, venue) <==>
              forall j :: 0 <= j < |t.baselines| && t.baselines[j].runtime == s.runtime
                          && t.baselines[j].venue == venue && t.baselines[j].revokedAt.None?
                ==> ReadRow(s, t, j).Intact?
  {
    hide FromRows, ItemsOf, FindActive, ActiveRow;
    RowsTaken(s, t, venue);
    ActiveIsTaken(s, t, venue);
  }

  lemma LatestCleanIff(s: Settings, t: Tables, venue: string)
    ensures var any := FindRun(s, t.runs, venue, false);
            (any.Some? ==> t.runs[any.value].success && t.runs[any.value].drift <= 0) <==>
              forall k :: 0 <= k < |t.runs| && t.runs[k].runtime == s.runtime && t.runs[k].venue == venue
                          && (forall i :: k < i < |t.runs| ==>
                                t.runs[i].runtime != s.runtime || t.runs[i].venue != venue)
                ==> t.runs[k].success && t.runs[k].drift <= 0
  {
    hide FindRun;
  }

  lemma LatestFullIff(s: Settings, t: Tables, now: int, venue: string)
    ensures var full := FindRun(s, t.runs, venue, true);
            (full.Some? ==> Evidence(s, t, now, venue, t.runs[full.value])) <==>
              forall k :: 0 <= k < |t.runs| && t.runs[k].runtime == s.runtime && t.runs[k].venue == venue
                          && t.runs[k].full
                          && (forall i :: k < i < |t.runs| ==>
                                t.runs[i].runtime != s.runtime || t.runs[i].venue != venue || !t.runs[i].full)
                ==> Evidence(s, t, now, venue, t.runs[k])
  {
    hide FindRun, Evidence;
  }

  /**
   A venue is clear iff its active baseline, if any, reads back, its latest run, if any, is clean, its latest full
   run, if any, is evidence, and a named venue has a full run.
   */
  lemma VenueClearInColumns(s: Settings, t: Tables, now: int, venue: string)
    requires OneActive(t.baselines)
    ensures VenueClear(s, t, now, venue) <==>
              && (forall j :: 0 <= j < |t.baselines| && t.baselines[j].runtime == s.runtime
                              && t.baselines[j].venue == venue && t.baselines[j].revokedAt.None?
                    ==> ReadRow(s, t, j).Intact?)
              && (forall k :: 0 <= k < |t.runs| && t.runs[k].runtime == s.runtime && t.runs[k].venue == venue
                              && (forall i :: k < i < |t.runs| ==>
                                    t.runs[i].runtime != s.runtime || t.runs[i].venue != venue)
                    ==> t.runs[k].success && t.runs[k].drift <= 0)
              && (forall k :: 0 <= k < |t.runs| && t.runs[k].runtime == s.runtime && t.runs[k].venue == venue
                              && t.runs[k].full
                              && (forall i :: k < i < |t.runs| ==>
                                    t.runs[i].runtime != s.runtime || t.runs[i].venue != venue || !t.runs[i].full)
                    ==> Evidence(s, t, now, venue, t.runs[k]))
              && (venue in s.venues ==>
                    exists k :: 0 <= k < |t.runs| && t.runs[k].runtime == s.runtime && t.runs[k].venue == venue
                                && t.runs[k].full)
  {
    hide ReadRow, FindRun, FindActive, ActiveRow, Evidence, ActiveIntact;
    ActiveIntactIff(s, t, venue);
    LatestCleanIff(s, t, venue);
    LatestFullIff(s, t, now, venue);
    var full := FindRun(s, t.runs, venue, true);
    assert full.Some? ==> RunFor(s, t.runs[full.value], venue, true);
    assert full.Some? ==> FindRun(s, t.runs, venue, false).Some?;
    assert full.Some? <==> exists k :: 0 <= k < |t.runs| && t.runs[k].runtime == s.runtime && t.runs[k].venue == venue
                                       && t.runs[k].full;
  }

  /** The gate is open iff every venue in scope is clear; an unscoped gate has every venue in scope. */
  lemma OpenIffVenuesClear(s: Settings, t: Tables, now: int)
    ensures GateOpen(s, t, now) <==>
              forall venue :: (s.venues != [] || s.scopeConfigured ==> venue in s.venues) ==>
                VenueClear(s, t, now, venue)
  {
    hide VenueClear;
  }

  /** With a configured scope of no venues the gate checks nothing. */
  lemma EmptyScopeIsOpen(s: Settings, t: Tables, now: int)
    requires s.venues == [] && s.scopeConfigured
    ensures GateOpen(s, t, now)
  {
  }

  // ---------- The gate over runs ----------

  /** The gate demands a full run of this venue. */
  ghost predicate Demanded(s: Settings, t: Tables, venue: string) {
    InScope(s, venue) && (venue in s.venues || FindRun(s, t.runs, venue, true).Some?)
  }

  /** A full run of the venue that carries the manifest and completed no earlier than the capture. */
  predicate Rebinds(s: Settings, run: RunRow, venue: string, manifest: string, captured: int) {
    run.venue == venue && run.full && run.manifest == Some(manifest) && run.completed >= captured
  }

  ghost predicate Awaiting(s: Settings, t: Tables, venue: string, manifest: string, captured: int) {
    && Demanded(s, t, venue)
    && ActiveRow(s, t, venue).Some?
    && ActiveRow(s, t, venue).value.manifest == manifest
    && ActiveRow(s, t, venue).value.captured == captured
    && forall i :: 0 <= i < |t.runs| && t.runs[i].runtime == s.runtime
        ==> !Rebinds(s, t.runs[i], venue, manifest, captured)
  }

  lemma AwaitingCloses(s: Settings, t: Tables, venue: string, manifest: string, captured: int, now: int)
    requires Awaiting(s, t, venue, manifest, captured)
    ensures !VenueClear(s, t, now, venue) && !GateOpen(s, t, now)
  {
    hide FromRows, ItemsOf, Lower, FindActive;
    var full := FindRun(s, t.runs, venue, true);
    if full.Some? {
      assert !Rebinds(s, t.runs[full.value], venue, manifest, captured);
    }
  }

  /** Neither revoked nor answered by a full run that carries the manifest. */
  ghost predicate Unanswered(s: Settings, t: Tables, e: Event, venue: string, manifest: string, captured: int) {
    match e
    case ActivateEvent(b) => true
    case RevokeEvent(v, operator, m, now) => v == venue ==> !Revoke(s, t, v, operator, m, now).1.Revoked?
    case RecordEvent(run) => !Rebinds(s, run, venue, manifest, captured)
  }

  ghost predicate AllUnanswered(s: Settings, t: Tables, events: seq<Event>, venue: string, manifest: string,
                                captured: int) {
    forall i :: 0 <= i < |events| ==> Unanswered(s, ApplyAll(s, t, events[..i]), events[i], venue, manifest, captured)
  }

  lemma ActiveRowUnique(s: Settings, t: Tables, venue: string, k: nat)
    requires OneActive(t.baselines) && k < |t.baselines| && IsActive(t.baselines[k], s.runtime, venue)
    ensures ActiveRow(s, t, venue) == Some(t.baselines[k])
  {
  }

  lemma ActivateKeepsActive(s: Settings, t: Tables, b: Baseline, venue: string)
    requires Inv(t) && ActiveRow(s, t, venue).Some?
    ensures ActiveRow(s, Activate(s, t, b).0, venue) == ActiveRow(s, t, venue)
  {
    hide Activate, ItemsOwned, ManifestsUnique, OneActive;
    var k := FindActive(t.baselines, s.runtime, venue).value;
    ActivateKeepsRow(s, t, b, k);
    ActivateKeepsInv(s, t, b);
    ActiveRowUnique(s, Activate(s, t, b).0, venue, k);
  }

  /** Activation never touches a row that is active for this runtime. */
  lemma ActivateKeepsRow(s: Settings, t: Tables, b: Baseline, k: nat)
    requires k < |t.baselines| && IsActive(t.baselines[k], s.runtime, t.baselines[k].venue)
    ensures var next := Activate(s, t, b).0; k < |next.baselines| && next.baselines[k] == t.baselines[k]
  {
    hide ContentsCheck, NewItems, FindActive, FindManifest, IsActive;
    var active := FindActive(t.baselines, s.runtime, b.venue);
    if ContentsCheck(s, b).None? && active.None? {
      CheckedRuntime(s, b);
      var existing := FindManifest(t.baselines, b.manifest);
      if existing == Some(k) {
        assert !IsActive(t.baselines[k], s.runtime, b.venue);
        assert !SameAccountScope(t.baselines[k], b);
      }
    }
  }

  /** After a successful activation the active row of the venue is the one activated, column by column. */
  lemma ActivatedIsActive(s: Settings, t: Tables, b: Baseline)
    requires Inv(t) && Activate(s, t, b).1.Changed?
    ensures ActiveRow(s, Activate(s, t, b).0, b.venue)
         == Some(BaselineRow(b.manifest, b.runtime, b.venue, b.account, b.operator, b.captured, None, None))
  {
    hide ItemsOwned, ManifestsUnique, OneActive, ContentsCheck, NewItems;
    ActivateKeepsInv(s, t, b);
    CheckedRuntime(s, b);
    var existing := FindManifest(t.baselines, b.manifest);
    ActiveRowUnique(s, Activate(s, t, b).0, b.venue, if existing.Some? then existing.value else |t.baselines|);
  }

  lemma RevokeKeepsActive(s: Settings, t: Tables, venue: string, e: Event)
    requires Inv(t) && ActiveRow(s, t, venue).Some? && e.RevokeEvent?
    requires e.venue == venue ==> !Revoke(s, t, e.venue, e.operator, e.manifest, e.now).1.Revoked?
    ensures ActiveRow(s, Apply(s, t, e), venue) == ActiveRow(s, t, venue)
  {
    hide Lower, Trim, ItemsOwned;
    var k := FindActive(t.baselines, s.runtime, venue).value;
    RevokeKeepsInv(s, t, e.venue, e.operator, e.manifest, e.now);
    ActiveRowUnique(s, Apply(s, t, e), venue, k);
  }

  lemma FoundStays(s: Settings, runs: seq<RunRow>, run: RunRow, venue: string)
    requires FindRun(s, runs, venue, true).Some?
    ensures FindRun(s, runs + [run], venue, true).Some?
  {
    var k := FindRun(s, runs, venue, true).value;
    assert (runs + [run])[k] == runs[k];
  }

  lemma AwaitingStep(s: Settings, t: Tables, e: Event, venue: string, manifest: string, captured: int)
    requires Inv(t) && Awaiting(s, t, venue, manifest, captured) && Unanswered(s, t, e, venue, manifest, captured)
    ensures Awaiting(s, Apply(s, t, e), venue, manifest, captured)
  {
    hide Activate, Revoke, Inv, FindRun;
    match e
    case ActivateEvent(b) =>
      ActivateKeepsActive(s, t, b, venue);
      ActivateKeepsRuns(s, t, b);
    case RevokeEvent(v, operator, m, now) =>
      RevokeKeepsActive(s, t, venue, e);
      RevokeKeepsRuns(s, t, v, operator, m, now);
    case RecordEvent(run) =>
      if FindRun(s, t.runs, venue, true).Some? {
        FoundStays(s, t.runs, run.(runtime := s.runtime), venue);
      }
  }

  lemma ActivateKeepsRuns(s: Settings, t: Tables, b: Baseline)
    ensures Activate(s, t, b).0.runs == t.runs
  {
    hide ContentsCheck, NewItems;
  }

  lemma RevokeKeepsRuns(s: Settings, t: Tables, venue: string, operator: string, manifest: string, now: int)
    ensures Revoke(s, t, venue, operator, manifest, now).0.runs == t.runs
  {
    hide Lower, Trim;
  }

  lemma {:induction false} AwaitingRun(s: Settings, t: Tables, events: seq<Event>, venue: string, manifest: string,
                                       captured: int)
    requires Inv(t) && Awaiting(s, t, venue, manifest, captured)
            && AllUnanswered(s, t, events, venue, manifest, captured)
    ensures Awaiting(s, ApplyAll(s, t, events), venue, manifest, captured)
  {
    hide Awaiting, Inv, Apply, Unanswered;
    if events != [] {
      var n := |events| - 1;
      var front := events[..n];
      assert forall i :: 0 <= i < n ==> front[..i] == events[..i];
      AwaitingRun(s, t, front, venue, manifest, captured);
      RunsKeepInv(s, t, front);
      assert events[..n] == front;
      AwaitingStep(s, ApplyAll(s, t, front), events[n], venue, manifest, captured);
    }
  }

  /**
   Activation closes the gate. Once activation of a baseline succeeds for a venue the gate demands
   evidence for, with a capture time after every recorded run of that venue, no state of any later
   run has an open gate until the baseline is revoked or a full run completed since the capture
   carries its manifest. This includes re-activating a manifest that older runs carry.
   */
  lemma ActivationClosesGate(s: Settings, t: Tables, b: Baseline, events: seq<Event>, now: int)
    requires Inv(t) && Activate(s, t, b).1.Changed? && Demanded(s, t, b.venue)
    requires forall i :: 0 <= i < |t.runs| && t.runs[i].runtime == s.runtime && t.runs[i].venue == b.venue ==>
              t.runs[i].completed < b.captured
    requires AllUnanswered(s, Activate(s, t, b).0, events, b.venue, b.manifest, b.captured)
    ensures !GateOpen(s, ApplyAll(s, Activate(s, t, b).0, events), now)
  {
    hide Inv, Activate, ActiveRow, FindRun, ApplyAll, AllUnanswered, GateOpen;
    var next := Activate(s, t, b).0;
    ActivateKeepsInv(s, t, b);
    ActivateKeepsRuns(s, t, b);
    ActivatedIsActive(s, t, b);
    AwaitingRun(s, next, events, b.venue, b.manifest, b.captured);
    AwaitingCloses(s, ApplyAll(s, next, events), b.venue, b.manifest, b.captured, now);
  }

  /**
   Where the gate demands no evidence, activation does not close it: a venue in scope that is neither
   named nor has any full run is clear iff its new baseline is intact and its latest run, if any, clean.
   */
  lemma UndemandedClearIff(s: Settings, t: Tables, b: Baseline, now: int)
    requires Inv(t) && Activate(s, t, b).1.Changed? && InScope(s, b.venue) && !Demanded(s, t, b.venue)
    ensures var next, any := Activate(s, t, b).0, FindRun(s, t.runs, b.venue, false);
            VenueClear(s, next, now, b.venue) <==>
              ActiveIntact(s, next, b.venue) && (any.Some? ==> !Failed(t.runs[any.value]))
  {
    hide Inv, Activate, ActiveRow, FindRun, FromRows;
    ActivateKeepsRuns(s, t, b);
  }

  /** An unscoped gate over no runs stays open when an intact baseline is activated, with no evidence at all. */
  lemma UnscopedActivationLeavesOpen(s: Settings, b: Baseline, now: int)
    requires s.venues == [] && !s.scopeConfigured
    requires var t := Tables([], [], []); Activate(s, t, b).1.Changed? && ReadRow(s, Activate(s, t, b).0, 0).Intact?
    ensures GateOpen(s, Activate(s, Tables([], [], []), b).0, now)
  {
    hide FromRows, ItemsOf, NewItems, ContentsCheck;
    var t := Tables([], [], []);
    var next := Activate(s, t, b).0;
    ActivateKeepsRuns(s, t, b);
    forall venue
      ensures VenueClear(s, next, now, venue)
    {
      if ActiveRow(s, next, venue).Some? {
        assert ActiveRow(s, next, venue).value == next.baselines[0];
      }
    }
  }

  // ---------- Revocation ----------

  /** A successful revocation leaves its venue without an active baseline and touches no other active row. */
  lemma RevocationFreesScope(s: Settings, t: Tables, venue: string, operator: string, manifest: string, now: int)
    requires Inv(t) && Revoke(s, t, venue, operator, manifest, now).1.Revoked?
    ensures var next := Revoke(s, t, venue, operator, manifest, now).0;
            && ActiveRow(s, t, venue).Some? && ActiveRow(s, t, venue).value.manifest == Lower(Trim(manifest))
            && ActiveRow(s, t, venue).value.(revokedAt := Some(now), revokedBy := Some(Trim(operator)))
               in next.baselines
            && ActiveRow(s, next, venue).None?
            && forall other :: other != venue ==> ActiveRow(s, next, other) == ActiveRow(s, t, other)
  {
    hide Trim, Lower, ItemsOwned, ManifestsUnique, FindActive;
    var next := Revoke(s, t, venue, operator, manifest, now).0;
    var k := FindActive(t.baselines, s.runtime, venue).value;
    RevokeKeepsInv(s, t, venue, operator, manifest, now);
    assert next.baselines[k] in next.baselines;
    forall other | other != venue
      ensures ActiveRow(s, next, other) == ActiveRow(s, t, other)
    {
      var before := FindActive(t.baselines, s.runtime, other);
      if before.Some? {
        ActiveRowUnique(s, next, other, before.value);
      }
    }
  }

  lemma SameManifestSameRow(rows: seq<BaselineRow>, i: nat, k: nat)
    requires ManifestsUnique(rows) && i < |rows| && k < |rows| && rows[i] == rows[k]
    ensures i == k
  {
  }

  /** Where a successful activation leaves its row: as a new one, whether it was there before or not. */
  lemma ActivatedAt(s: Settings, t: Tables, b: Baseline) returns (k: nat)
    requires Activate(s, t, b).1.Changed?
    ensures k < |Activate(s, t, b).0.baselines| && Activate(s, t, b).0.baselines[k] == NewRow(b)
  {
    hide ContentsCheck, NewItems, FindActive, FindManifest;
    var existing := FindManifest(t.baselines, b.manifest);
    k := if existing.Some? then existing.value else |t.baselines|;
  }

  lemma TrimOfDigest(manifest: string)
    requires IsHexDigest(Lower(manifest))
    ensures Trim(manifest) == manifest && |manifest| == 64
  {
    hide Trim, IsSpace, LowerChar, Lower;
    assert |manifest| == 64;
    HexIsNoSpace(manifest[0]);
    HexIsNoSpace(manifest[63]);
    UnspacedTrim(manifest);
  }

  lemma ManifestUnique(rows: seq<BaselineRow>, k: nat)
    requires ManifestsUnique(rows) && k < |rows|
    ensures FindManifest(rows, rows[k].manifest) == Some(k)
  {
    hide FindManifest;
  }

  lemma Reactivates(s: Settings, t: Tables, b: Baseline, k: nat)
    requires ManifestsUnique(t.baselines) && k < |t.baselines| && ContentsCheck(s, b).None?
    requires FindActive(t.baselines, s.runtime, b.venue).None?
    requires t.baselines[k] == NewRow(b).(revokedAt := t.baselines[k].revokedAt, revokedBy := t.baselines[k].revokedBy)
    ensures Activate(s, t, b) == (t.(baselines := t.baselines[k := NewRow(b)]), Changed)
  {
    hide ContentsCheck, FindActive, FindManifest, NewItems;
    ManifestUnique(t.baselines, k);
  }

  /**
   Revocation undoes activation and activation undoes revocation: an activated baseline can be
   revoked under its own manifest iff that is lower-case, and activating it again then succeeds and
   restores exactly the tables from before the revocation.
   */
  lemma ActivateRevokeActivate(s: Settings, t: Tables, b: Baseline, operator: string, now: int)
    requires s.Valid() && Inv(t) && Activate(s, t, b).1.Changed? && Trim(operator) != ""
    ensures var active := Activate(s, t, b).0;
            var revoked := Revoke(s, active, b.venue, operator, b.manifest, now);
            && (revoked.1.Revoked? <==> Lower(b.manifest) == b.manifest)
            && (revoked.1.Revoked? ==> Activate(s, revoked.0, b) == (active, Changed))
  {
    hide Inv, Activate, Canonical, NewItems, Trim, Lower, FindManifest, FindActive, IsHexDigest;
    var active := Activate(s, t, b).0;
    var k := ActivatedAt(s, t, b);
    ActivateKeepsInv(s, t, b);
    ActivatedChecks(s, t, b);
    TrimOfDigest(b.manifest);
    InvParts(active);
    ActiveRowUnique(s, active, b.venue, k);
    var revoked := Revoke(s, active, b.venue, operator, b.manifest, now);
    if revoked.1.Revoked? {
      RevokeKeepsInv(s, active, b.venue, operator, b.manifest, now);
      InvParts(revoked.0);
      RevocationFreesScope(s, active, b.venue, operator, b.manifest, now);
      var found := FindActive(active.baselines, s.runtime, b.venue).value;
      SameManifestSameRow(active.baselines, found, k);
      Reactivates(s, revoked.0, b, k);
      assert active.baselines[k := active.baselines[k].(revokedAt := Some(now),
                                                        revokedBy := Some(Trim(operator)))][k := NewRow(b)]
                                                            == active.baselines;
    }
  }

  lemma ActivatedChecks(s: Settings, t: Tables, b: Baseline)
    requires s.Valid() && Activate(s, t, b).1.Changed?
    ensures ContentsCheck(s, b).None? && b.runtime == s.runtime && IsHexDigest(Lower(b.manifest))
  {
    hide ContentsCheck, FindActive, FindManifest, NewItems;
    CheckedRuntime(s, b);
  }

  lemma InvParts(t: Tables)
    requires Inv(t)
    ensures ManifestsUnique(t.baselines) && OneActive(t.baselines)
  {
  }

  // ---------- A manifest that is not lower-case ----------

  /** Whatever passes activation's checks also passes them under any other casing of its manifest, and activates. */
  lemma MixedCaseActivates(s: Settings, t: Tables, b: Baseline, manifest: string)
    requires Inv(t) && ContentsCheck(s, b).None? && Lower(manifest) == Lower(b.manifest)
    requires FindActive(t.baselines, s.runtime, b.venue).None? && FindManifest(t.baselines, manifest).None?
    ensures var cased := b.(manifest := manifest);
            && Activate(s, t, cased).1.Changed?
            && ActiveRow(s, Activate(s, t, cased).0, b.venue).Some?
            && ActiveRow(s, Activate(s, t, cased).0, b.venue).value.manifest == manifest
  {
    hide Canonical, Lower, NewItems, FindActive, FindManifest, Inv, ActiveRow;
    var cased := b.(manifest := manifest);
    assert ContentsOf(cased) == ContentsOf(b);
    ActivatedIsActive(s, t, cased);
  }

  lemma MixedCaseNotIntact(s: Settings, t: Tables, row: BaselineRow)
    requires s.Valid() && Lower(row.manifest) != row.manifest
    ensures !RowIntact(s, t, row)
  {
    hide ItemsOf, PositionsIn, FillRefsIn, Canonical, Lower;
    var contents := StoredContents(row, ItemsOf(t.items, row.manifest));
    if Canonical(contents).Accepted? {
      HexIsClean(s.digest(Canonical(contents).payload));
    }
  }

  /**
   Activation compares manifests without regard to case, everything after compares them exactly. An
   active baseline whose manifest is not lower-case closes the gate for its venue in every later
   state: it never reads back, no revocation matches it and no other baseline can replace it.
   */
  lemma {:induction false} MixedCaseManifestLocksVenue(s: Settings, t: Tables, events: seq<Event>, venue: string,
                                                       now: int)
    requires s.Valid() && Inv(t) && InScope(s, venue)
    requires ActiveRow(s, t, venue).Some?
            && Lower(ActiveRow(s, t, venue).value.manifest) != ActiveRow(s, t, venue).value.manifest
    ensures ActiveRow(s, ApplyAll(s, t, events), venue) == ActiveRow(s, t, venue)
    ensures !GateOpen(s, ApplyAll(s, t, events), now)
  {
    hide Activate, Lower, Inv, FromRows, FindRun, FindActive;
    if events != [] {
      var n := |events| - 1;
      var before := ApplyAll(s, t, events[..n]);
      MixedCaseManifestLocksVenue(s, t, events[..n], venue, now);
      RunsKeepInv(s, t, events[..n]);
      match events[n]
      case ActivateEvent(b) => ActivateKeepsActive(s, before, b, venue);
      case RevokeEvent(v, operator, m, at) =>
        LowerIdempotent(Trim(m));
        RevokeKeepsActive(s, before, venue, events[n]);
      case RecordEvent(run) =>
    }
    MixedCaseNotIntact(s, ApplyAll(s, t, events), ActiveRow(s, t, venue).value);
    assert !VenueClear(s, ApplyAll(s, t, events), now, venue);
  }
}
