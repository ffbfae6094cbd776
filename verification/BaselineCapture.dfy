/**
 Capturing an external account baseline: which positions exceed what the bot expects, which fills
 the bot does not know, and what the captured payload says about both.
 */
module BaselineCapture {
  import opened Collections
  import opened Text
  import opened DecimalText
  import opened DecimalValue
  import opened ExternalBaseline

  const TOLERANCE: real := Unit(-8)

  datatype Fill = Fill(fillId: string, venueOrder: string, client: string)

  /** What the venue answers. */
  datatype Account = Account(fingerprint: Option<string>, openOrders: nat, positions: map<string, Dec>,
                             fills: seq<Fill>)

  /** What the bot has on record for the venue. */
  datatype Ledger = Ledger(runtime: string, expected: map<string, Dec>, orderTokens: set<string>,
                           venueOrders: set<string>, clientOrders: set<string>)

  datatype CaptureRefusal =
    | NoAccountIdentity
    | OpenOrders
    | NegativeExpected(token: string)
    | OverlapsHistory(token: string)
    | NegativeResiduals(tokens: set<string>)
    | FillWithoutReference(fill: Fill)
    | PayloadRefused(reason: Refusal)

  datatype Capture = Captured(payload: Payload, digest: string) | CaptureRefused(why: CaptureRefusal)

  // ---------- Positions ----------

  function At(m: map<string, Dec>, token: string): Dec {
    if token in m then m[token] else Dec(0, 0)
  }

  /** actual - expected, rounded as decimal subtraction rounds. */
  function Residual(a: Account, l: Ledger, token: string): Dec {
    Subtract(At(a.positions, token), At(l.expected, token))
  }

  predicate Over(a: Account, l: Ledger, token: string) {
    Value(Residual(a, l, token)) > TOLERANCE
  }

  predicate Short(a: Account, l: Ledger, token: string) {
    Value(Residual(a, l, token)) < -TOLERANCE
  }

  predicate ExpectedNegative(l: Ledger, token: string) {
    Value(At(l.expected, token)) < -TOLERANCE
  }

  function Tokens(a: Account, l: Ledger): set<string> {
    a.positions.Keys + l.expected.Keys
  }

  ghost predicate TokensFine(a: Account, l: Ledger) {
    forall t :: t in Tokens(a, l)
        ==> !ExpectedNegative(l, t) && !Short(a, l, t) && (Over(a, l, t) ==> t !in l.orderTokens)
  }

  /** The listed positions are the tokens among `done` whose residual is over the tolerance. */
  ghost predicate ListsResiduals(external: seq<Position>, a: Account, l: Ledger, done: set<string>) {
    && (forall i :: 0 <= i < |external| ==>
                      external[i].token in done && Over(a, l, external[i].token)
                      && external[i].quantity == Finite(Residual(a, l, external[i].token)))
    && (forall i, j :: 0 <= i < j < |external| ==> external[i].token != external[j].token)
    && (forall t :: t in done && Over(a, l, t) ==> exists i :: 0 <= i < |external| && external[i].token == t)
  }

  lemma ListsStep(external: seq<Position>, a: Account, l: Ledger, done: set<string>, token: string)
    requires ListsResiduals(external, a, l, done) && token !in done
    ensures Over(a, l, token) ==>
              ListsResiduals(external + [Position(token, Finite(Residual(a, l, token)))], a, l, done + {token})
    ensures !Over(a, l, token) ==> ListsResiduals(external, a, l, done + {token})
  {
    hide Over, Residual;
    var more := external + [Position(token, Finite(Residual(a, l, token)))];
    forall t | t in done && Over(a, l, t)
      ensures exists i :: 0 <= i < |more| && more[i].token == t
    {
      var i :| 0 <= i < |external| && external[i].token == t;
      assert more[i].token == t;
    }
    assert more[|external|].token == token;
  }

  /** What the loop has found after the tokens in `done`. */
  ghost predicate Scanned(external: seq<Position>, short: set<string>, a: Account, l: Ledger, done: set<string>) {
    && ListsResiduals(external, a, l, done)
    && (forall t :: t in short <==> t in done && Short(a, l, t))
    && (forall t :: t in done ==> !ExpectedNegative(l, t) && (Over(a, l, t) ==> t !in l.orderTokens))
  }

  lemma NotBoth(a: Account, l: Ledger, token: string)
    ensures !(Short(a, l, token) && Over(a, l, token))
  {
    hide Residual, Unit, Value;
    UnitPositive(-8);
  }

  lemma ScanStep(external: seq<Position>, short: set<string>, a: Account, l: Ledger, done: set<string>, token: string)
    requires Scanned(external, short, a, l, done) && token !in done && !ExpectedNegative(l, token)
    ensures Short(a, l, token) ==> Scanned(external, short + {token}, a, l, done + {token})
    ensures !Short(a, l, token) && Over(a, l, token) && token !in l.orderTokens ==>
              Scanned(external + [Position(token, Finite(Residual(a, l, token)))], short, a, l, done + {token})
    ensures !Short(a, l, token) && !Over(a, l, token) ==> Scanned(external, short, a, l, done + {token})
  {
    hide ListsResiduals, Short, Over, Residual, ExpectedNegative;
    ListsStep(external, a, l, done, token);
    NotBoth(a, l, token);
  }

  lemma SetStep(todo: set<string>, done: set<string>, all: set<string>, token: string)
    requires token in todo && todo !! done && todo + done == all
    ensures |todo - {token}| < |todo| && todo - {token} !! done + {token} && (todo - {token}) + (done + {token}) == all
  {
  }

  method CollectResiduals(a: Account, l: Ledger) returns (external: seq<Position>, short: set<string>,
                                                          fault: Option<CaptureRefusal>)
    ensures fault.None? ==> Scanned(external, short, a, l, Tokens(a, l))
    ensures fault.Some? ==>
              match fault.value
              case NegativeExpected(t) => t in Tokens(a, l) && ExpectedNegative(l, t)
              case OverlapsHistory(t) => t in Tokens(a, l) && Over(a, l, t) && t in l.orderTokens
              case _ => false
  {
    hide Value, Residual, At, Scanned, Tokens;
    external, short := [], {};
    var todo, done := Tokens(a, l), {};
    NothingScanned(a, l);
    while todo != {}
      invariant todo !! done && todo + done == Tokens(a, l)
      invariant Scanned(external, short, a, l, done)
      decreases |todo|
    {
      var token :| token in todo;
      SetStep(todo, done, Tokens(a, l), token);
      if Value(At(l.expected, token)) < -TOLERANCE {
        return [], {}, Some(NegativeExpected(token));
      }
      var residual := Residual(a, l, token);
      ScanStep(external, short, a, l, done, token);
      if Value(residual) < -TOLERANCE {
        short := short + {token};
      } else if Value(residual) > TOLERANCE {
        if token in l.orderTokens {
          return [], {}, Some(OverlapsHistory(token));
        }
        external := external + [Position(token, Finite(residual))];
      }
      todo, done := todo - {token}, done + {token};
    }
    assert done == Tokens(a, l);
    return external, short, None;
  }

  lemma NothingScanned(a: Account, l: Ledger)
    ensures Scanned([], {}, a, l, {})
  {
  }

  // ---------- Fills ----------

  function RequestedOrders(fills: seq<Fill>): set<string> {
    set f | f in fills && Trim(f.venueOrder) != "" :: Trim(f.venueOrder)
  }

  function RequestedClients(fills: seq<Fill>): set<string> {
    set f | f in fills && Trim(f.client) != "" :: Trim(f.client)
  }

  function Reference(f: Fill): string {
    Trim(if f.fillId != "" then f.fillId else f.venueOrder)
  }

  /** An identifier without surrounding space that is on record. */
  predicate OnRecord(id: string, known: set<string>) {
    id != "" && Trim(id) == id && id in known
  }

  /** The bot knows the fill by its venue order or by its client order. */
  predicate Recognised(f: Fill, l: Ledger) {
    OnRecord(f.venueOrder, l.venueOrders) || OnRecord(f.client, l.clientOrders)
  }

  /** What the two queries answer decides exactly whether the bot knows the fill. */
  lemma QueriesRecognise(a: Account, l: Ledger, f: Fill)
    requires f in a.fills
    ensures f.venueOrder in RequestedOrders(a.fills) * l.venueOrders
            || f.client in RequestedClients(a.fills) * l.clientOrders
            <==> Recognised(f, l)
  {
    hide Trim;
    if f.venueOrder in RequestedOrders(a.fills) {
      var g :| g in a.fills && Trim(g.venueOrder) != "" && Trim(g.venueOrder) == f.venueOrder;
      TrimIdempotent(g.venueOrder);
    }
    if f.client in RequestedClients(a.fills) {
      var g :| g in a.fills && Trim(g.client) != "" && Trim(g.client) == f.client;
      TrimIdempotent(g.client);
    }
  }

  ghost predicate RefsOf(refs: set<string>, fills: seq<Fill>, l: Ledger, k: nat)
    requires k <= |fills|
  {
    forall r :: r in refs <==> exists i :: 0 <= i < k && !Recognised(fills[i], l) && Reference(fills[i]) == r
  }

  ghost predicate FillsFine(fills: seq<Fill>, l: Ledger) {
    forall i :: 0 <= i < |fills| && !Recognised(fills[i], l) ==> Reference(fills[i]) != ""
  }

  method CollectUntracked(a: Account, l: Ledger) returns (refs: set<string>, fault: Option<CaptureRefusal>)
    ensures fault.None? ==> RefsOf(refs, a.fills, l, |a.fills|) && FillsFine(a.fills, l)
    ensures fault.None? ==>
              && (forall f :: f in a.fills && !Recognised(f, l) ==>
                    if f.fillId != "" then Trim(f.fillId) != "" && Trim(f.fillId) in refs
                    else Trim(f.venueOrder) != "" && Trim(f.venueOrder) in refs)
              && (forall r :: r in refs ==>
                    exists f :: f in a.fills && !Recognised(f, l)
                                && (if f.fillId != "" then r == Trim(f.fillId) else r == Trim(f.venueOrder)))
    ensures fault.Some? ==>
              && fault.value.FillWithoutReference? && fault.value.fill in a.fills && !Recognised(fault.value.fill, l)
              && var f := fault.value.fill;
                 if f.fillId != "" then Trim(f.fillId) == "" else Trim(f.venueOrder) == ""
  {
    hide Trim, Recognised;
    var knownOrders := RequestedOrders(a.fills) * l.venueOrders;
    var knownClients := RequestedClients(a.fills) * l.clientOrders;
    refs := {};
    var i := 0;
    while i < |a.fills|
      invariant 0 <= i <= |a.fills| && RefsOf(refs, a.fills, l, i)
      invariant forall j :: 0 <= j < i && !Recognised(a.fills[j], l) ==> Reference(a.fills[j]) != ""
    {
      var fill := a.fills[i];
      QueriesRecognise(a, l, fill);
      if fill.venueOrder !in knownOrders && fill.client !in knownClients {
        var ref := Reference(fill);
        if ref == "" {
          return {}, Some(FillWithoutReference(fill));
        }
        refs := refs + {ref};
      }
      i := i + 1;
    }
    RefsAre(refs, a.fills, l);
    return refs, None;
  }

  lemma RefsAre(refs: set<string>, fills: seq<Fill>, l: Ledger)
    requires RefsOf(refs, fills, l, |fills|) && FillsFine(fills, l)
    ensures forall f :: f in fills && !Recognised(f, l) ==>
              if f.fillId != "" then Trim(f.fillId) != "" && Trim(f.fillId) in refs
              else Trim(f.venueOrder) != "" && Trim(f.venueOrder) in refs
    ensures forall r :: r in refs ==>
              exists f :: f in fills && !Recognised(f, l)
                          && (if f.fillId != "" then r == Trim(f.fillId) else r == Trim(f.venueOrder))
  {
    hide Trim, Recognised;
    forall f | f in fills && !Recognised(f, l)
      ensures if f.fillId != "" then Trim(f.fillId) != "" && Trim(f.fillId) in refs
              else Trim(f.venueOrder) != "" && Trim(f.venueOrder) in refs
    {
      var i :| 0 <= i < |fills| && fills[i] == f;
      assert Reference(f) in refs;
    }
    forall r | r in refs
      ensures exists f :: f in fills && !Recognised(f, l)
                          && (if f.fillId != "" then r == Trim(f.fillId) else r == Trim(f.venueOrder))
    {
      var i :| 0 <= i < |fills| && !Recognised(fills[i], l) && Reference(fills[i]) == r;
    }
  }

  lemma NoReference(fills: seq<Fill>, l: Ledger, f: Fill)
    requires f in fills && !Recognised(f, l)
    requires if f.fillId != "" then Trim(f.fillId) == "" else Trim(f.venueOrder) == ""
    ensures !FillsFine(fills, l)
  {
    hide Recognised, Trim;
    var i :| 0 <= i < |fills| && fills[i] == f;
    assert Reference(fills[i]) == "";
  }

  method Listing(refs: set<string>) returns (list: seq<string>)
    ensures forall r :: r in refs <==> r in list
    ensures Distinct(list)
  {
    list := [];
    var todo := refs;
    while todo != {}
      invariant forall r :: r in refs <==> r in todo || r in list
      invariant forall r :: r in todo ==> r !in list
      invariant Distinct(list)
      decreases |todo|
    {
      var r :| r in todo;
      todo := todo - {r};
      list := list + [r];
    }
  }

  // ---------- What a capture says ----------

  function EntryFor(a: Account, l: Ledger, t: string): Entry {
    EntryOf(Position(t, Finite(Residual(a, l, t))))
  }

  /** The payload lists exactly the residuals over tolerance and the references of unknown fills. */
  ghost predicate Describes(payload: Payload, a: Account, l: Ledger, venue: string) {
    && payload.runtime == Trim(l.runtime) && payload.venue == Trim(venue)
    && a.fingerprint.Some? && payload.account == Lower(Trim(a.fingerprint.value))
    && (forall e :: e in payload.positions <==>
         exists t :: t in Tokens(a, l) && Over(a, l, t) && e == EntryFor(a, l, t))
    && (forall r :: r in payload.fillRefs <==> exists f :: f in a.fills && !Recognised(f, l) && Reference(f) == r)
    && Ascending(TokenOf, payload.positions) && Ascending(Itself, payload.fillRefs)
  }

  /** Exactly when a capture succeeds. */
  ghost predicate Capturable(a: Account, l: Ledger, venue: string) {
    && a.fingerprint.Some? && a.openOrders == 0 && TokensFine(a, l) && FillsFine(a.fills, l)
    && Trim(l.runtime) != "" && Trim(venue) != "" && IsHexDigest(Lower(Trim(a.fingerprint.value)))
    && (forall t :: t in Tokens(a, l) && Over(a, l, t) ==> ValidKey(Trim(t)))
    && (forall t, u :: t in Tokens(a, l) && Over(a, l, t) && u in Tokens(a, l) && Over(a, l, u) && t != u ==>
         Trim(t) != Trim(u))
    && (forall f :: f in a.fills && !Recognised(f, l) ==> |Reference(f)| <= MAX_KEY)
  }

  lemma ResidualsValidIff(external: seq<Position>, a: Account, l: Ledger)
    requires ListsResiduals(external, a, l, Tokens(a, l))
    ensures PositionsValid(external) <==>
              && (forall t :: t in Tokens(a, l) && Over(a, l, t) ==> ValidKey(Trim(t)))
              && (forall t, u :: t in Tokens(a, l) && Over(a, l, t) && u in Tokens(a, l) && Over(a, l, u) && t != u ==>
                   Trim(t) != Trim(u))
  {
    hide Trim, ValidKey, Tokens, Residual, Value, TOLERANCE;
    forall i | 0 <= i < |external|
      ensures Positive(external[i].quantity)
    {
      OverIsPositive(a, l, external[i].token);
    }
    if PositionsValid(external) {
      forall t, u | t in Tokens(a, l) && Over(a, l, t) && u in Tokens(a, l) && Over(a, l, u) && t != u
        ensures ValidKey(Trim(t)) && Trim(t) != Trim(u)
      {
        var i :| 0 <= i < |external| && external[i].token == t;
        var j :| 0 <= j < |external| && external[j].token == u;
      }
      forall t | t in Tokens(a, l) && Over(a, l, t)
        ensures ValidKey(Trim(t))
      {
        var i :| 0 <= i < |external| && external[i].token == t;
      }
    }
  }

  lemma OverIsPositive(a: Account, l: Ledger, t: string)
    requires Over(a, l, t)
    ensures Positive(Finite(Residual(a, l, t)))
  {
    hide Residual, Value, Unit;
    UnitPositive(-8);
    PositiveIff(Residual(a, l, t));
  }

  lemma ResidualEntries(external: seq<Position>, a: Account, l: Ledger, e: Entry)
    requires ListsResiduals(external, a, l, Tokens(a, l))
    ensures e in Entries(external) <==> exists t :: t in Tokens(a, l) && Over(a, l, t) && e == EntryFor(a, l, t)
  {
    hide Tokens, Over, Residual, EntryOf;
    if e in Entries(external) {
      var i :| 0 <= i < |external| && Entries(external)[i] == e;
      assert external[i] == Position(external[i].token, external[i].quantity);
      assert e == EntryFor(a, l, external[i].token);
    }
    if t :| t in Tokens(a, l) && Over(a, l, t) && e == EntryFor(a, l, t) {
      var i :| 0 <= i < |external| && external[i].token == t;
      assert external[i] == Position(external[i].token, external[i].quantity);
      assert Entries(external)[i] == e;
    }
  }

  /** References are already trimmed, so trimming them again changes nothing. */
  lemma RefsClean(list: seq<string>, a: Account, l: Ledger, refs: set<string>)
    requires RefsOf(refs, a.fills, l, |a.fills|) && FillsFine(a.fills, l)
    requires (forall r :: r in refs <==> r in list) && Distinct(list)
    ensures Trimmed(list) == list
    ensures forall r :: r in list <==> exists f :: f in a.fills && !Recognised(f, l) && Reference(f) == r
    ensures FillRefsValid(list) <==> forall f :: f in a.fills && !Recognised(f, l) ==> |Reference(f)| <= MAX_KEY
  {
    hide Trim, Recognised;
    forall r
      ensures r in list <==> exists f :: f in a.fills && !Recognised(f, l) && Reference(f) == r
    {
      if r in list {
        var i :| 0 <= i < |a.fills| && !Recognised(a.fills[i], l) && Reference(a.fills[i]) == r;
      }
      if f :| f in a.fills && !Recognised(f, l) && Reference(f) == r {
        var i :| 0 <= i < |a.fills| && a.fills[i] == f;
        assert r in refs;
      }
    }
    forall i | 0 <= i < |list|
      ensures Trim(list[i]) == list[i] && list[i] != ""
    {
      assert list[i] in list;
      var k :| 0 <= k < |a.fills| && !Recognised(a.fills[k], l) && Reference(a.fills[k]) == list[i];
      TrimIdempotent(if a.fills[k].fillId != "" then a.fills[k].fillId else a.fills[k].venueOrder);
    }
    if FillRefsValid(list) {
      forall f | f in a.fills && !Recognised(f, l)
        ensures |Reference(f)| <= MAX_KEY
      {
        assert Reference(f) in list;
        var i :| 0 <= i < |list| && list[i] == Reference(f);
      }
    }
    forall i | 0 <= i < |list|
      ensures exists f :: f in a.fills && !Recognised(f, l) && Reference(f) == list[i]
    {
      assert list[i] in list;
    }
  }

  lemma AcceptedIffCapturable(external: seq<Position>, list: seq<string>, refs: set<string>, a: Account, l: Ledger,
                              venue: string)
    requires a.fingerprint.Some? && a.openOrders == 0 && TokensFine(a, l) && FillsFine(a.fills, l)
    requires ListsResiduals(external, a, l, Tokens(a, l)) && RefsOf(refs, a.fills, l, |a.fills|)
    requires (forall r :: r in refs <==> r in list) && Distinct(list)
    ensures Canonical(Contents(l.runtime, venue, a.fingerprint.value, external, list)).Accepted?
            <==> Capturable(a, l, venue)
  {
    hide Trim, Lower, IsHexDigest, ValidKey, ListsResiduals, RefsOf, FillsFine, TokensFine, Tokens, Over, Recognised,
         Reference, PositionsValid, FillRefsValid, Canonical, Distinct;
    AcceptedIff(Contents(l.runtime, venue, a.fingerprint.value, external, list));
    ResidualsValidIff(external, a, l);
    RefsClean(list, a, l, refs);
  }

  lemma AcceptedDescribes(external: seq<Position>, list: seq<string>, refs: set<string>, a: Account, l: Ledger,
                          venue: string)
    requires a.fingerprint.Some? && FillsFine(a.fills, l)
    requires ListsResiduals(external, a, l, Tokens(a, l)) && RefsOf(refs, a.fills, l, |a.fills|)
    requires (forall r :: r in refs <==> r in list) && Distinct(list)
    requires Canonical(Contents(l.runtime, venue, a.fingerprint.value, external, list)).Accepted?
    ensures Describes(Canonical(Contents(l.runtime, venue, a.fingerprint.value, external, list)).payload, a, l, venue)
  {
    hide Trim, Lower, IsHexDigest, ValidKey, SortBy, ListsResiduals, RefsOf, FillsFine, Tokens, Over, Recognised,
         Reference,
         PositionsValid, FillRefsValid, IdentityValid, Ascending, DistinctBy, Entries, Trimmed, FirstPositionFault,
         FirstFillRefFault, Distinct, EntryFor;
    var c := Contents(l.runtime, venue, a.fingerprint.value, external, list);
    AcceptedIff(c);
    RefsClean(list, a, l, refs);
    KeysDistinct(c);
    SortAscends(TokenOf, Entries(external));
    SortAscends(Itself, Trimmed(list));
    SameMembers(SortBy(TokenOf, Entries(external)), Entries(external));
    SameMembers(SortBy(Itself, Trimmed(list)), Trimmed(list));
    forall e
      ensures e in Entries(external) <==> exists t :: t in Tokens(a, l) && Over(a, l, t) && e == EntryFor(a, l, t)
    {
      ResidualEntries(external, a, l, e);
    }
  }

  // ---------- What a capture says, in the fields of fills and holdings ----------

  lemma ToleranceIs()
    ensures TOLERANCE == 0.00000001
  {
    assert Pow10(8) == 100_000_000;
  }

  /** The bot knows a fill by a venue order or a client order that is on record exactly as the venue reports it. */
  lemma RecognisedIff(f: Fill, l: Ledger)
    ensures Recognised(f, l)
       <==> || (f.venueOrder != "" && Trim(f.venueOrder) == f.venueOrder && f.venueOrder in l.venueOrders)
            || (f.client != "" && Trim(f.client) == f.client && f.client in l.clientOrders)
  {
    hide Trim;
  }

  /**
   A payload lists a reference iff some fill that the bot does not know has it: its fill identifier, or its venue
   order where there is no fill identifier, without surrounding space.
   */
  lemma FillsListed(payload: Payload, a: Account, l: Ledger, venue: string)
    requires Describes(payload, a, l, venue)
    ensures forall f :: f in a.fills && !Recognised(f, l) && f.fillId != "" ==> Trim(f.fillId) in payload.fillRefs
    ensures forall f :: f in a.fills && !Recognised(f, l) && f.fillId == "" ==> Trim(f.venueOrder) in payload.fillRefs
    ensures forall r :: r in payload.fillRefs ==>
              exists f :: f in a.fills && !Recognised(f, l)
                          && (if f.fillId != "" then r == Trim(f.fillId) else r == Trim(f.venueOrder))
  {
    hide Recognised, Trim, EntryFor, Over;
    forall f | f in a.fills && !Recognised(f, l)
      ensures f.fillId != "" ==> Trim(f.fillId) in payload.fillRefs
      ensures f.fillId == "" ==> Trim(f.venueOrder) in payload.fillRefs
    {
      assert Reference(f) in payload.fillRefs;
    }
    forall r | r in payload.fillRefs
      ensures exists f :: f in a.fills && !Recognised(f, l)
                          && (if f.fillId != "" then r == Trim(f.fillId) else r == Trim(f.venueOrder))
    {
      var f :| f in a.fills && !Recognised(f, l) && Reference(f) == r;
    }
  }

  /** What a token is held at, zero where it is not listed. */
  lemma ResidualIs(a: Account, l: Ledger, t: string)
    ensures var actual := if t in a.positions then a.positions[t] else Dec(0, 0);
            var expected := if t in l.expected then l.expected[t] else Dec(0, 0);
            && Residual(a, l, t) == Subtract(actual, expected)
            && Excess(a, l, t) == Value(actual) - Value(expected)
            && (Over(a, l, t) <==> Value(Subtract(actual, expected)) > 0.00000001)
            && (Short(a, l, t) <==> Value(Subtract(actual, expected)) < -0.00000001)
            && (ExpectedNegative(l, t) <==> Value(expected) < -0.00000001)
            && (t in Tokens(a, l) <==> t in a.positions || t in l.expected)
  {
    ToleranceIs();
    hide Subtract, Value, TOLERANCE;
  }

  /**
   A capture succeeds iff there is an account identity in hexadecimal and no open order, runtime and venue are named,
   no token held or expected is expected or left negative, the tokens held in excess are outside the order history
   and told apart by keys of at most 256 characters, and so long is the reference of every unknown fill.
   */
  lemma CapturableIff(a: Account, l: Ledger, venue: string)
    ensures Capturable(a, l, venue) <==>
              && a.fingerprint.Some? && IsHexDigest(Lower(Trim(a.fingerprint.value))) && a.openOrders == 0
              && Trim(l.runtime) != "" && Trim(venue) != ""
              && (forall t :: t in a.positions.Keys + l.expected.Keys ==>
                    && !ExpectedNegative(l, t) && !Short(a, l, t)
                    && (Over(a, l, t) ==> t !in l.orderTokens && 0 < |Trim(t)| <= 256))
              && (forall t, u :: t in a.positions.Keys + l.expected.Keys && u in a.positions.Keys + l.expected.Keys ==>
                    (Over(a, l, t) && Over(a, l, u) && t != u ==> Trim(t) != Trim(u)))
              && (forall f :: f in a.fills && !Recognised(f, l) ==>
                    0 < |Trim(if f.fillId != "" then f.fillId else f.venueOrder)| <= 256)
  {
    hide Trim, Lower, IsHexDigest, Recognised, Over, Short, ExpectedNegative;
    assert Tokens(a, l) == a.positions.Keys + l.expected.Keys;
    FillsFineIff(a.fills, l);
  }

  lemma FillsFineIff(fills: seq<Fill>, l: Ledger)
    ensures FillsFine(fills, l) <==> forall f :: f in fills && !Recognised(f, l) ==> Reference(f) != ""
  {
    hide Recognised, Reference;
    if FillsFine(fills, l) {
      forall f | f in fills && !Recognised(f, l)
        ensures Reference(f) != ""
      {
        var i :| 0 <= i < |fills| && fills[i] == f;
      }
    }
  }

  /**
   The positions listed are exactly the tokens whose residual is over the tolerance, each under its trimmed name and
   with the residual's value.
   */
  lemma HoldingsListed(payload: Payload, a: Account, l: Ledger, venue: string)
    requires Describes(payload, a, l, venue)
    ensures forall t :: t in Tokens(a, l) && Over(a, l, t) ==>
              exists e :: e in payload.positions && e.token == Trim(t)
                          && Value(ParseDecimal(e.quantity)) == Value(Residual(a, l, t))
    ensures forall e :: e in payload.positions ==>
              exists t :: t in Tokens(a, l) && Over(a, l, t) && e.token == Trim(t)
                          && Value(ParseDecimal(e.quantity)) == Value(Residual(a, l, t))
  {
    hide Value, Trim, ParseDecimal, CanonicalDecimal, Recognised, Residual, Over, Tokens;
    forall t | t in Tokens(a, l) && Over(a, l, t)
      ensures exists e :: e in payload.positions && e.token == Trim(t)
                          && Value(ParseDecimal(e.quantity)) == Value(Residual(a, l, t))
    {
      EntryValue(a, l, t);
      assert EntryFor(a, l, t) in payload.positions && EntryFor(a, l, t).token == Trim(t);
    }
    forall e | e in payload.positions
      ensures exists t :: t in Tokens(a, l) && Over(a, l, t) && e.token == Trim(t)
                          && Value(ParseDecimal(e.quantity)) == Value(Residual(a, l, t))
    {
      var t :| t in Tokens(a, l) && Over(a, l, t) && e == EntryFor(a, l, t);
      EntryValue(a, l, t);
    }
  }

  // ---------- _capture_external_account_baseline ----------

  method CaptureExternalAccountBaseline(a: Account, l: Ledger, venue: string,
                                        digest: Payload -> string) returns (result: Capture)
    ensures result.Captured? <==> Capturable(a, l, venue)
    ensures result.Captured? ==> Describes(result.payload, a, l, venue) && result.digest == digest(result.payload)
    ensures result.Captured? ==>
              exists c: Contents :: c.runtime == l.runtime && c.venue == venue
                  && Canonical(c) == Accepted(result.payload)
    ensures result.Captured? ==>
              && (forall f :: f in a.fills && !Recognised(f, l) ==>
                    if f.fillId != "" then Trim(f.fillId) in result.payload.fillRefs
                    else Trim(f.venueOrder) in result.payload.fillRefs)
              && (forall r :: r in result.payload.fillRefs ==>
                    exists f :: f in a.fills && !Recognised(f, l)
                                && (if f.fillId != "" then r == Trim(f.fillId) else r == Trim(f.venueOrder)))
    ensures result.CaptureRefused? ==>
              match result.why
              case NoAccountIdentity => a.fingerprint.None?
              case OpenOrders => a.openOrders > 0
              case NegativeExpected(t) => t in Tokens(a, l) && ExpectedNegative(l, t)
              case OverlapsHistory(t) => Over(a, l, t) && t in l.orderTokens
              case NegativeResiduals(tokens) => tokens != {} && forall t :: t in tokens <==>
                                                                 t in Tokens(a, l) && Short(a, l, t)
              case FillWithoutReference(f) =>
                && f in a.fills && !Recognised(f, l)
                && (if f.fillId != "" then Trim(f.fillId) == "" else Trim(f.venueOrder) == "")
              case PayloadRefused(_) => TokensFine(a, l) && FillsFine(a.fills, l)
  {
    hide Canonical, Describes, Recognised, Reference, Value, Residual, ListsResiduals, RefsOf, ValidKey, Trim;
    if a.fingerprint.None? {
      return CaptureRefused(NoAccountIdentity);
    }
    if a.openOrders > 0 {
      return CaptureRefused(OpenOrders);
    }
    var external, short, positionFault := CollectResiduals(a, l);
    if positionFault.Some? {
      return CaptureRefused(positionFault.value);
    }
    if short != {} {
      assert exists t :: t in short;
      return CaptureRefused(NegativeResiduals(short));
    }
    var refs, fillFault := CollectUntracked(a, l);
    if fillFault.Some? {
      NoReference(a.fills, l, fillFault.value.fill);
      return CaptureRefused(fillFault.value);
    }
    var list := Listing(refs);
    var contents := Contents(l.runtime, venue, a.fingerprint.value, external, list);
    var payload := CanonicalPayload(contents);
    AcceptedIffCapturable(external, list, refs, a, l, venue);
    if payload.Refused? {
      return CaptureRefused(PayloadRefused(payload.reason));
    }
    AcceptedDescribes(external, list, refs, a, l, venue);
    FillsListed(payload.payload, a, l, venue);
    return Captured(payload.payload, digest(payload.payload));
  }

  // ---------- Conservation ----------

  /** What the payload baselines for a token; zero when it does not list it. */
  ghost function Baselined(payload: Payload, token: string): real {
    if exists e :: e in payload.positions && e.token == token then
      var e :| e in payload.positions && e.token == token; Value(ParseDecimal(e.quantity))
    else 0.0
  }

  /** actual - expected, exactly. */
  function Excess(a: Account, l: Ledger, token: string): real {
    Value(At(a.positions, token)) - Value(At(l.expected, token))
  }

  function Abs(x: real): (r: real)
    ensures r >= 0.0 && r >= x && r >= -x && (r == x || r == -x)
  {
    if x >= 0.0 then x else -x
  }

  /** The baseline accounts for the token's excess up to the tolerance. */
  ghost predicate Conserved(payload: Payload, a: Account, l: Ledger, token: string) {
    Abs(Excess(a, l, token) - Baselined(payload, token)) <= TOLERANCE
  }

  /**
   What conservation takes, told by the venue's and the bot's positions alone: an excess above the
   threshold belongs to a token without surrounding space and survives rounding, any other is within
   the tolerance.
   */
  predicate Conservable(a: Account, l: Ledger, token: string) {
    if Excess(a, l, token) > Threshold() then
      Trim(token) == token && Abs(Excess(a, l, token) - Value(Residual(a, l, token))) <= TOLERANCE
    else Abs(Excess(a, l, token)) <= TOLERANCE
  }

  /** Rounding takes a residual over the tolerance iff the exact excess is above the threshold. */
  lemma OverIff(a: Account, l: Ledger, token: string)
    ensures Over(a, l, token) <==> Excess(a, l, token) > Threshold()
    ensures Short(a, l, token) <==> Excess(a, l, token) < -Threshold()
  {
    hide Subtract, Value, Unit, Threshold;
    SubtractAboveIff(At(a.positions, token), At(l.expected, token));
  }

  lemma EntryValue(a: Account, l: Ledger, t: string)
    requires Over(a, l, t)
    ensures Value(ParseDecimal(EntryFor(a, l, t).quantity)) == Value(Residual(a, l, t))
  {
    hide Value, ParseDecimal, CanonicalDecimal, Subtract;
    OverIsPositive(a, l, t);
    SubtractPrints(At(a.positions, t), At(l.expected, t));
  }

  /** Every listed position is over the tolerance and belongs to a token outside the bot's order history. */
  lemma ListedIsOver(payload: Payload, a: Account, l: Ledger, venue: string, e: Entry) returns (t: string)
    requires Capturable(a, l, venue) && Describes(payload, a, l, venue) && e in payload.positions
    ensures t in Tokens(a, l) && Over(a, l, t) && e == EntryFor(a, l, t) && t !in l.orderTokens
    ensures Value(ParseDecimal(e.quantity)) == Value(Residual(a, l, t)) > TOLERANCE
  {
    hide Value, Trim, ParseDecimal, CanonicalDecimal, ValidKey, Recognised, Reference, Residual, IsHexDigest;
    t :| t in Tokens(a, l) && Over(a, l, t) && e == EntryFor(a, l, t);
    EntryValue(a, l, t);
  }

  /** Every fill is known to the bot or covered by a recorded reference. */
  lemma FillsAreCovered(payload: Payload, a: Account, l: Ledger, venue: string, f: Fill)
    requires Describes(payload, a, l, venue) && f in a.fills
    ensures Recognised(f, l) || Reference(f) in payload.fillRefs
  {
    hide Recognised, Reference, Residual, Value, Trim;
  }

  /** What is baselined for a token that the payload lists under its own name, and for one it does not. */
  lemma BaselinedIs(payload: Payload, a: Account, l: Ledger, venue: string, token: string)
    requires Capturable(a, l, venue) && Describes(payload, a, l, venue)
    ensures token in Tokens(a, l) && Over(a, l, token) && Trim(token) == token ==>
              Baselined(payload, token) == Value(Residual(a, l, token))
    ensures (forall t :: t in Tokens(a, l) && Over(a, l, t) ==> Trim(t) != token) ==> Baselined(payload, token) == 0.0
  {
    hide Value, Trim, ParseDecimal, CanonicalDecimal, ValidKey, Recognised, Reference, Residual, IsHexDigest, Over;
    assert token in Tokens(a, l) && Over(a, l, token) ==>
        EntryFor(a, l, token) in payload.positions && EntryFor(a, l, token).token == Trim(token);
    if exists e :: e in payload.positions && e.token == token {
      var e :| e in payload.positions && e.token == token
          && Baselined(payload, token) == Value(ParseDecimal(e.quantity));
      var t := ListedIsOver(payload, a, l, venue, e);
      assert Trim(t) == token;
    }
  }

  lemma UnheldTokens(a: Account, l: Ledger, token: string)
    ensures token !in Tokens(a, l) ==> Excess(a, l, token) == 0.0
  {
    if token !in Tokens(a, l) {
      assert At(a.positions, token) == Dec(0, 0) == At(l.expected, token);
    }
  }

  lemma ListedTokenConserved(payload: Payload, a: Account, l: Ledger, venue: string, token: string)
    requires Capturable(a, l, venue) && Describes(payload, a, l, venue) && token in Tokens(a, l)
    requires forall t :: t in Tokens(a, l) && Over(a, l, t) ==> Trim(t) == t
    ensures Conserved(payload, a, l, token) <==> Conservable(a, l, token)
  {
    hide Value, Trim, Residual, Unit, Threshold, Capturable, Describes, Over, Excess;
    OverIff(a, l, token);
    BaselinedIs(payload, a, l, venue, token);
  }

  /** A token with surrounding space that is over the tolerance is baselined under its trimmed name only. */
  lemma UntrimmedIsLost(payload: Payload, a: Account, l: Ledger, venue: string, token: string)
    requires Capturable(a, l, venue) && Describes(payload, a, l, venue)
    requires token in Tokens(a, l) && Over(a, l, token) && Trim(token) != token
    ensures !Conserved(payload, a, l, token)
  {
    hide Value, Trim, Residual, Unit, Threshold, Capturable, Describes, Over, Excess;
    forall t | t in Tokens(a, l) && Over(a, l, t)
      ensures Trim(t) != token
    {
      TrimIdempotent(t);
    }
    BaselinedIs(payload, a, l, venue, token);
    OverIff(a, l, token);
    ThresholdAboveTolerance();
  }

  lemma ThresholdAboveTolerance()
    ensures Threshold() > TOLERANCE > 0.0
  {
    ThresholdBetween();
    UnitPositive(-8);
    hide Unit;
  }

  /**
   Conservation, exactly: after a capture, actual less expected less baselined is within the tolerance
   for every token iff every token held is conservable.
   */
  lemma CaptureConservesIff(payload: Payload, a: Account, l: Ledger, venue: string)
    requires Capturable(a, l, venue) && Describes(payload, a, l, venue)
    ensures (forall token :: Conserved(payload, a, l, token)) <==> forall token :: token in Tokens(a, l) ==>
                                                                    Conservable(a, l, token)
  {
    hide Value, Trim, Residual, Unit, Threshold, Capturable, Describes, Over, Excess, Tokens, Conserved, Conservable;
    if forall token :: Conserved(payload, a, l, token) {
      forall t | t in Tokens(a, l) && Over(a, l, t)
        ensures Trim(t) == t
      {
        if Trim(t) != t {
          UntrimmedIsLost(payload, a, l, venue, t);
        }
      }
      forall token | token in Tokens(a, l)
        ensures Conservable(a, l, token)
      {
        ListedTokenConserved(payload, a, l, venue, token);
      }
    }
    if forall token :: token in Tokens(a, l) ==> Conservable(a, l, token) {
      forall t | t in Tokens(a, l) && Over(a, l, t)
        ensures Trim(t) == t
      {
        OverIsTrimmed(a, l, t);
      }
      forall token
        ensures Conserved(payload, a, l, token)
      {
        if token in Tokens(a, l) {
          ListedTokenConserved(payload, a, l, venue, token);
        } else {
          OtherTokenConserved(payload, a, l, venue, token);
        }
      }
    }
  }

  lemma OverIsTrimmed(a: Account, l: Ledger, t: string)
    requires Over(a, l, t) && Conservable(a, l, t)
    ensures Trim(t) == t
  {
    hide Value, Trim, Residual, Unit, Threshold, Over, Excess;
    OverIff(a, l, t);
  }

  lemma OtherTokenConserved(payload: Payload, a: Account, l: Ledger, venue: string, token: string)
    requires Capturable(a, l, venue) && Describes(payload, a, l, venue) && token !in Tokens(a, l)
    requires forall t :: t in Tokens(a, l) && Over(a, l, t) ==> Trim(t) == t
    ensures Conserved(payload, a, l, token)
  {
    hide Value, Trim, Residual, Unit, Threshold, Capturable, Describes, Over, Excess;
    UnheldTokens(a, l, token);
    BaselinedIs(payload, a, l, venue, token);
    ThresholdAboveTolerance();
  }

  /**
   For any excess below 10^20, of however many digits, rounding does no harm: what is listed is off by
   at most half the tolerance. What is left is surrounding space, and an excess above the tolerance
   by no more than half a unit of the 28th digit, which rounds down to it.
   */
  lemma ConservableIff(a: Account, l: Ledger, token: string)
    requires -Unit(20) < Excess(a, l, token) < Unit(20) && !Short(a, l, token)
    ensures Conservable(a, l, token) <==>
              if Excess(a, l, token) > Threshold() then Trim(token) == token
              else Abs(Excess(a, l, token)) <= TOLERANCE
    ensures Excess(a, l, token) > Threshold() ==>
              2.0 * Abs(Excess(a, l, token) - Value(Residual(a, l, token))) <= TOLERANCE
  {
    hide Value, Trim, Unit, Threshold, Subtract;
    SubtractError(At(a.positions, token), At(l.expected, token));
    UnitPositive(-8);
  }

  // ---------- Captures that do not conserve ----------

  /** An account that holds one token, and a bot that has traded none. */
  function Holding(fingerprint: string, token: string, quantity: Dec): Account {
    Account(Some(fingerprint), 0, map[token := quantity], [])
  }

  const NO_TRADES: Ledger := Ledger("runtime", map[], {}, {}, {})

  lemma HoldingExcess(fingerprint: string, token: string, quantity: Dec)
    ensures var a := Holding(fingerprint, token, quantity);
            && Tokens(a, NO_TRADES) == {token} && Excess(a, NO_TRADES, token) == Value(quantity)
            && Value(Residual(a, NO_TRADES, token)) == Value(RoundSigned(Difference(quantity, Dec(0, 0))))
  {
    hide RoundSigned, Difference, Unit;
    UnheldTokens(Holding(fingerprint, token, quantity), NO_TRADES, "");
    assert Value(Dec(0, 0)) == 0.0;
  }

  lemma HoldingCapturable(fingerprint: string, token: string, quantity: Dec)
    requires IsHexDigest(fingerprint) && ValidKey(Trim(token)) && quantity.coeff > 0
    ensures Capturable(Holding(fingerprint, token, quantity), NO_TRADES, "Venue")
  {
    hide Value, Trim, Unit, Threshold, Subtract, IsHexDigest, ValidKey, Lower, Over, Excess, Residual;
    var a := Holding(fingerprint, token, quantity);
    HexIsClean(fingerprint);
    assert Trim("runtime") != "" && Trim("Venue") != "" by {
      NoSpaceInside();
    }
    HoldingExcess(fingerprint, token, quantity);
    PositiveIff(quantity);
    OverIff(a, NO_TRADES, token);
    ThresholdAboveTolerance();
    NothingExpected(token);
  }

  lemma NothingExpected(token: string)
    ensures !ExpectedNegative(NO_TRADES, token)
  {
    hide Unit;
    UnitPositive(-8);
    assert Value(Dec(0, 0)) == 0.0;
  }

  lemma NoSpaceInside()
    ensures Trim("runtime") == "runtime" && Trim("Venue") == "Venue"
  {
    hide Trim;
    UnspacedTrim("runtime");
    UnspacedTrim("Venue");
  }

  /** One unit of a token named "a " is baselined for "a": nothing accounts for "a ". */
  lemma SpacedTokenIsLost(payload: Payload, fingerprint: string)
    requires IsHexDigest(fingerprint) && Describes(payload, Holding(fingerprint, "a ", Dec(1, 0)), NO_TRADES, "Venue")
    ensures Capturable(Holding(fingerprint, "a ", Dec(1, 0)), NO_TRADES, "Venue")
    ensures !Conserved(payload, Holding(fingerprint, "a ", Dec(1, 0)), NO_TRADES, "a ")
  {
    hide Value, Describes, Conserved, Capturable, Over, Threshold, IsHexDigest, Excess;
    var a := Holding(fingerprint, "a ", Dec(1, 0));
    SpacedTrim();
    hide Trim;
    HoldingCapturable(fingerprint, "a ", Dec(1, 0));
    HoldingExcess(fingerprint, "a ", Dec(1, 0));
    OverIff(a, NO_TRADES, "a ");
    OneIsOver();
    UntrimmedIsLost(payload, a, NO_TRADES, "Venue", "a ");
  }

  lemma SpacedTrim()
    ensures Trim("a ") == "a" && ValidKey("a")
  {
    assert TrimLeft("a ") == "a ";
    assert "a "[..1] == "a";
    assert TrimRight("a ") == TrimRight("a") == "a";
  }

  lemma OneIsOver()
    ensures Value(Dec(1, 0)) > Threshold()
  {
    hide Unit, Threshold;
    ThresholdBetween();
    UnitMonotone(-7, 0);
    ValueIs(Dec(1, 0));
  }

  /** A coefficient of 29 digits whose last is all that rounding drops. */
  function Long(last: nat, exp: int): Dec {
    Dec(10_000_000_000_000_000_000_000_000_000 + last, exp)
  }

  lemma LongDigits(last: nat)
    requires 0 < last < 10
    ensures var c := 10_000_000_000_000_000_000_000_000_000 + last;
            && DigitCount(c) == 29 && (last < 5 ==> RoundBy(c, 1) == 1_000_000_000_000_000_000_000_000_000)
  {
    var c: nat := 10_000_000_000_000_000_000_000_000_000 + last;
    assert Pow10(1) == 10;
    PowersAround();
    CountIs(c, 29);
  }

  lemma PowersAround()
    ensures Pow10(27) == 1_000_000_000_000_000_000_000_000_000
    ensures Pow10(28) == 10_000_000_000_000_000_000_000_000_000 && Pow10(29) == 10 * Pow10(28)
  {
    assert Pow10(9) == 1_000_000_000;
    Pow10Add(9, 9);
    Pow10Add(18, 9);
    assert Pow10(27) == 1_000_000_000_000_000_000_000_000_000;
    assert Pow10(28) == 10 * Pow10(27);
  }

  lemma CountIs(c: nat, n: nat)
    requires n >= 1 && Pow10(n - 1) <= c < Pow10(n)
    ensures DigitCount(c) == n
  {
    hide Pow10, DigitCount;
    DigitCountBounds(c);
    var d := DigitCount(c);
    if d < n {
      Pow10Monotone(d, n - 1);
    }
    if d > n {
      Pow10Monotone(n, d - 1);
    }
  }

  lemma RoundedLong(last: nat, exp: int)
    requires 0 < last < 5
    ensures RoundSigned(Long(last, exp)) == Dec(1_000_000_000_000_000_000_000_000_000, exp + 1)
  {
    hide DigitCount, RoundBy, RoundToContext;
    LongDigits(last);
    RoundedIs(Long(last, exp));
  }

  lemma DifferenceOfNothing(d: Dec)
    requires d.exp <= 0
    ensures Difference(d, Dec(0, 0)) == d
  {
    assert Pow10(0) == 1;
    assert 0 * Pow10(-d.exp) == 0;
  }

  lemma LongValue(last: nat, exp: int)
    ensures Value(Long(last, exp)) == Unit(exp + 28) + last as real * Unit(exp)
    ensures Value(Dec(1_000_000_000_000_000_000_000_000_000, exp + 1)) == Unit(exp + 28)
  {
    hide Unit, Pow10;
    PowersAround();
    UnitUp(exp, 28);
    UnitUp(exp + 1, 27);
    assert exp + 1 + 27 == exp + 28;
    AddScaled(Pow10(28) as real, last as real, Unit(exp));
  }

  lemma LongHolding(fingerprint: string, last: nat, exp: int)
    requires 0 < last < 5 && exp <= 0
    ensures var a := Holding(fingerprint, "a", Long(last, exp));
            && Excess(a, NO_TRADES, "a") == Unit(exp + 28) + last as real * Unit(exp)
            && Value(Residual(a, NO_TRADES, "a")) == Unit(exp + 28)
  {
    hide Unit, RoundSigned, Value, Excess, Residual, Difference, Long;
    HoldingExcess(fingerprint, "a", Long(last, exp));
    assert Long(last, exp).exp == exp by {
      LongExponent(last, exp);
    }
    DifferenceOfNothing(Long(last, exp));
    RoundedLong(last, exp);
    LongValue(last, exp);
  }

  lemma LongExponent(last: nat, exp: int)
    ensures Long(last, exp).exp == exp && Long(last, exp).coeff > 0
  {
  }

  lemma CleanToken()
    ensures Trim("a") == "a" && ValidKey("a")
  {
    UnspacedTrim("a");
  }

  lemma LongHoldingConservedIff(payload: Payload, fingerprint: string, last: nat, exp: int)
    requires IsHexDigest(fingerprint) && 0 < last < 5 && exp <= 0
    requires Describes(payload, Holding(fingerprint, "a", Long(last, exp)), NO_TRADES, "Venue")
    ensures Capturable(Holding(fingerprint, "a", Long(last, exp)), NO_TRADES, "Venue")
    ensures var a := Holding(fingerprint, "a", Long(last, exp));
            Conserved(payload, a, NO_TRADES, "a") <==> Conservable(a, NO_TRADES, "a")
  {
    hide Value, Describes, Conserved, Capturable, Over, IsHexDigest, Excess, Residual, Conservable, Long;
    CleanToken();
    hide Trim;
    LongExponent(last, exp);
    HoldingCapturable(fingerprint, "a", Long(last, exp));
    HoldingExcess(fingerprint, "a", Long(last, exp));
    ListedTokenConserved(payload, Holding(fingerprint, "a", Long(last, exp)), NO_TRADES, "Venue", "a");
  }

  /** 10^20 and three units of 10^-8 are baselined as 10^20: more than the tolerance is lost. */
  lemma LargeHoldingIsLost(payload: Payload, fingerprint: string)
    requires IsHexDigest(fingerprint)
    requires Describes(payload, Holding(fingerprint, "a", Long(3, -8)), NO_TRADES, "Venue")
    ensures Capturable(Holding(fingerprint, "a", Long(3, -8)), NO_TRADES, "Venue")
    ensures !Conserved(payload, Holding(fingerprint, "a", Long(3, -8)), NO_TRADES, "a")
  {
    hide Value, Describes, Conserved, Capturable, Over, Threshold, IsHexDigest, Excess, Residual, Unit, Long, Trim;
    LongHoldingConservedIff(payload, fingerprint, 3, -8);
    LongHolding(fingerprint, 3, -8);
    UnitPositive(-8);
    UnitMonotone(-7, 20);
    ThresholdBetween();
  }

  /** A tenth of a unit of the 28th digit above the tolerance rounds down to it and is not baselined. */
  lemma MarginalHoldingIsLost(payload: Payload, fingerprint: string)
    requires IsHexDigest(fingerprint)
    requires Describes(payload, Holding(fingerprint, "a", Long(1, -36)), NO_TRADES, "Venue")
    ensures Capturable(Holding(fingerprint, "a", Long(1, -36)), NO_TRADES, "Venue")
    ensures !Conserved(payload, Holding(fingerprint, "a", Long(1, -36)), NO_TRADES, "a")
  {
    hide Value, Describes, Conserved, Capturable, Over, IsHexDigest, Excess, Residual, Unit, Long, Trim;
    LongHoldingConservedIff(payload, fingerprint, 1, -36);
    LongHolding(fingerprint, 1, -36);
    UnitPositive(-36);
    UnitPositive(-8);
    UnitStep(-36);
  }
}
