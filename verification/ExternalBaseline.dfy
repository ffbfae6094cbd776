/**
 The canonical payload of an external account baseline: identity, positions and fill references
 trimmed, checked and sorted, with every quantity printed in canonical decimal form.
 */
module ExternalBaseline {
  import opened Collections
  import opened Text
  import opened DecimalText

  datatype Quantity = Finite(value: Dec) | NotFinite

  datatype Position = Position(token: string, quantity: Quantity)

  datatype Contents = Contents(runtime: string, venue: string, account: string, positions: seq<Position>,
                               fillRefs: seq<string>)

  datatype Entry = Entry(token: string, quantity: string)

  datatype Payload = Payload(runtime: string, venue: string, account: string, positions: seq<Entry>,
                             fillRefs: seq<string>)

  datatype Refusal =
    | IdentityMissing
    | AccountNotADigest
    | TokenInvalid
    | TokenRepeated(token: string)
    | QuantityNotPositive(token: string)
    | FillRefInvalid
    | FillRefRepeated(fillRef: string)

  datatype Canonicalised = Accepted(payload: Payload) | Refused(reason: Refusal)

  const MAX_KEY: nat := 256

  predicate ValidKey(key: string) {
    key != "" && |key| <= MAX_KEY
  }

  predicate Positive(q: Quantity) {
    q.Finite? && q.value.coeff > 0
  }

  // ---------- What is accepted ----------

  predicate IdentityValid(c: Contents) {
    Trim(c.runtime) != "" && Trim(c.venue) != "" && IsHexDigest(Lower(Trim(c.account)))
  }

  ghost predicate PositionsValid(ps: seq<Position>) {
    && (forall i :: 0 <= i < |ps| ==> ValidKey(Trim(ps[i].token)) && Positive(ps[i].quantity))
    && (forall i, j :: 0 <= i < j < |ps| ==> Trim(ps[i].token) != Trim(ps[j].token))
  }

  ghost predicate FillRefsValid(refs: seq<string>) {
    && (forall i :: 0 <= i < |refs| ==> ValidKey(Trim(refs[i])))
    && (forall i, j :: 0 <= i < j < |refs| ==> Trim(refs[i]) != Trim(refs[j]))
  }

  ghost predicate Valid(c: Contents) {
    IdentityValid(c) && PositionsValid(c.positions) && FillRefsValid(c.fillRefs)
  }

  // ---------- The payload ----------

  function TokenOf(e: Entry): string { e.token }

  function Itself(s: string): string { s }

  function EntryOf(p: Position): Entry {
    Entry(Trim(p.token), if Positive(p.quantity) then CanonicalDecimal(p.quantity.value) else "")
  }

  function Entries(ps: seq<Position>): (r: seq<Entry>)
    ensures |r| == |ps| && forall i :: 0 <= i < |ps| ==> r[i] == EntryOf(ps[i])
  {
    seq(|ps|, i requires 0 <= i < |ps| => EntryOf(ps[i]))
  }

  function Trimmed(refs: seq<string>): (r: seq<string>)
    ensures |r| == |refs| && forall i :: 0 <= i < |refs| ==> r[i] == Trim(refs[i])
  {
    seq(|refs|, i requires 0 <= i < |refs| => Trim(refs[i]))
  }

  function PayloadOf(c: Contents): Payload {
    Payload(Trim(c.runtime), Trim(c.venue), Lower(Trim(c.account)),
            SortBy(TokenOf, Entries(c.positions)), SortBy(Itself, Trimmed(c.fillRefs)))
  }

  // ---------- Which refusal comes first ----------

  function PositionFault(ps: seq<Position>, k: nat): Option<Refusal>
    requires k < |ps|
  {
    var token := Trim(ps[k].token);
    if !ValidKey(token) then Some(TokenInvalid)
    else if exists i :: 0 <= i < k && Trim(ps[i].token) == token then Some(TokenRepeated(token))
    else if !Positive(ps[k].quantity) then Some(QuantityNotPositive(token))
    else None
  }

  function FillRefFault(refs: seq<string>, k: nat): Option<Refusal>
    requires k < |refs|
  {
    var ref := Trim(refs[k]);
    if !ValidKey(ref) then Some(FillRefInvalid)
    else if exists i :: 0 <= i < k && Trim(refs[i]) == ref then Some(FillRefRepeated(ref))
    else None
  }

  function FirstPositionFault(ps: seq<Position>, k: nat): Option<Refusal>
    requires k <= |ps|
    decreases |ps| - k
  {
    if k == |ps| then None
    else if PositionFault(ps, k).Some? then PositionFault(ps, k)
    else FirstPositionFault(ps, k + 1)
  }

  function FirstFillRefFault(refs: seq<string>, k: nat): Option<Refusal>
    requires k <= |refs|
    decreases |refs| - k
  {
    if k == |refs| then None
    else if FillRefFault(refs, k).Some? then FillRefFault(refs, k)
    else FirstFillRefFault(refs, k + 1)
  }

  function Canonical(c: Contents): Canonicalised {
    if Trim(c.runtime) == "" || Trim(c.venue) == "" then Refused(IdentityMissing)
    else if !IsHexDigest(Lower(Trim(c.account))) then Refused(AccountNotADigest)
    else if FirstPositionFault(c.positions, 0).Some? then Refused(FirstPositionFault(c.positions, 0).value)
    else if FirstFillRefFault(c.fillRefs, 0).Some? then Refused(FirstFillRefFault(c.fillRefs, 0).value)
    else Accepted(PayloadOf(c))
  }

  lemma {:induction false} NoPositionFaultIff(ps: seq<Position>, k: nat)
    requires k <= |ps|
    ensures FirstPositionFault(ps, k).None? <==>
              forall j :: k <= j < |ps| ==>
                            && ValidKey(Trim(ps[j].token)) && Positive(ps[j].quantity)
                            && (forall i :: 0 <= i < j ==> Trim(ps[i].token) != Trim(ps[j].token))
    decreases |ps| - k
  {
    if k < |ps| {
      NoPositionFaultIff(ps, k + 1);
    }
  }

  lemma {:induction false} NoFillRefFaultIff(refs: seq<string>, k: nat)
    requires k <= |refs|
    ensures FirstFillRefFault(refs, k).None? <==>
              forall j :: k <= j < |refs| ==>
                            ValidKey(Trim(refs[j])) && (forall i :: 0 <= i < j ==> Trim(refs[i]) != Trim(refs[j]))
    decreases |refs| - k
  {
    if k < |refs| {
      NoFillRefFaultIff(refs, k + 1);
    }
  }

  /** Contents are accepted iff every identity part, position and fill reference is valid and none repeats. */
  lemma AcceptedIff(c: Contents)
    ensures Canonical(c).Accepted? <==> Valid(c)
  {
    hide Trim, Lower, IsHexDigest, ValidKey, Positive, PayloadOf, FirstPositionFault, FirstFillRefFault;
    NoPositionFaultIff(c.positions, 0);
    NoFillRefFaultIff(c.fillRefs, 0);
  }

  // ---------- Acceptance and payload in the fields of the contents ----------

  /**
   Contents are accepted iff runtime and venue are named, the account is a digest of 64 hexadecimal digits, every
   token and reference has 1 to 256 characters, every quantity is a positive number, and no token and no reference
   repeats; all of this without surrounding space and, for the account, in any casing.
   */
  lemma AcceptedInFields(c: Contents)
    ensures Canonical(c).Accepted? <==>
              && Trim(c.runtime) != "" && Trim(c.venue) != "" && |Trim(c.account)| == 64
              && (forall d <- Lower(Trim(c.account)) :: d in "0123456789abcdef")
              && (forall i :: 0 <= i < |c.positions| ==>
                    && 1 <= |Trim(c.positions[i].token)| <= 256
                    && c.positions[i].quantity.Finite? && c.positions[i].quantity.value.coeff >= 1)
              && (forall i, j :: 0 <= i < j < |c.positions| ==>
                    Trim(c.positions[i].token) != Trim(c.positions[j].token))
              && (forall i :: 0 <= i < |c.fillRefs| ==> 1 <= |Trim(c.fillRefs[i])| <= 256)
              && (forall i, j :: 0 <= i < j < |c.fillRefs| ==> Trim(c.fillRefs[i]) != Trim(c.fillRefs[j]))
  {
    hide Trim, Lower, Canonical, IsHexDigest;
    AcceptedIff(c);
    HexIff(Lower(Trim(c.account)));
  }

  lemma HexIff(s: string)
    ensures IsHexDigest(s) <==> |s| == 64 && forall d <- s :: d in "0123456789abcdef"
  {
    forall d: char
      ensures '0' <= d <= '9' || 'a' <= d <= 'f' <==> d in "0123456789abcdef"
    {
      HexDigitIff(d);
    }
    if |s| == 64 && forall d <- s :: d in "0123456789abcdef" {
      assert forall i :: 0 <= i < 64 ==> s[i] in s;
    }
  }

  lemma HexDigitIff(d: char)
    ensures '0' <= d <= '9' || 'a' <= d <= 'f' <==> d in "0123456789abcdef"
  {
    var all := "0123456789abcdef";
    if '0' <= d <= '9' {
      assert all[d as int - 48] == d;
    } else if 'a' <= d <= 'f' {
      assert all[d as int - 87] == d;
    }
  }

  /**
   The payload lists each position once, under its trimmed token with its quantity in canonical text, and each
   trimmed reference once, both in code-point order, under the trimmed identity with the account in lower case.
   */
  lemma PayloadIs(c: Contents)
    requires Canonical(c).Accepted?
    ensures var p := Canonical(c).payload;
            && p.runtime == Trim(c.runtime) && p.venue == Trim(c.venue) && p.account == Lower(Trim(c.account))
            && |p.positions| == |c.positions| && |p.fillRefs| == |c.fillRefs|
            && (forall e <- p.positions ::
                  exists i :: 0 <= i < |c.positions| && e.token == Trim(c.positions[i].token)
                              && c.positions[i].quantity.Finite? && c.positions[i].quantity.value.coeff > 0
                              && e.quantity == CanonicalDecimal(c.positions[i].quantity.value))
            && (forall r <- p.fillRefs :: exists i :: 0 <= i < |c.fillRefs| && r == Trim(c.fillRefs[i]))
            && (forall i, j :: 0 <= i < j < |p.positions| ==> Before(p.positions[i].token, p.positions[j].token))
            && (forall i, j :: 0 <= i < j < |p.fillRefs| ==> Before(p.fillRefs[i], p.fillRefs[j]))
  {
    hide Trim, Lower, Canonical, SortBy, Before, CanonicalDecimal, IsHexDigest, ValidKey;
    AcceptedIff(c);
    KeysDistinct(c);
    var entries, refs := Entries(c.positions), Trimmed(c.fillRefs);
    SortAscends(TokenOf, entries);
    SortAscends(Itself, refs);
    SameMembers(SortBy(TokenOf, entries), entries);
    SameMembers(SortBy(Itself, refs), refs);
    forall e | e in SortBy(TokenOf, entries)
      ensures exists i :: 0 <= i < |c.positions| && e.token == Trim(c.positions[i].token)
                          && c.positions[i].quantity.Finite? && c.positions[i].quantity.value.coeff > 0
                          && e.quantity == CanonicalDecimal(c.positions[i].quantity.value)
    {
      EntriesAt(c.positions, e);
      var i :| 0 <= i < |c.positions| && EntryOf(c.positions[i]) == e;
      AllPositive(c.positions, i);
    }
    forall r | r in SortBy(Itself, refs)
      ensures exists i :: 0 <= i < |c.fillRefs| && r == Trim(c.fillRefs[i])
    {
      var i :| 0 <= i < |refs| && refs[i] == r;
    }
    Ordered(c, entries, refs);
  }

  lemma Ordered(c: Contents, entries: seq<Entry>, refs: seq<string>)
    requires Canonical(c) == Accepted(PayloadOf(c)) && entries == Entries(c.positions) && refs == Trimmed(c.fillRefs)
    requires Ascending(TokenOf, SortBy(TokenOf, entries)) && Ascending(Itself, SortBy(Itself, refs))
    ensures var p := Canonical(c).payload;
            && (forall i, j :: 0 <= i < j < |p.positions| ==> Before(p.positions[i].token, p.positions[j].token))
            && (forall i, j :: 0 <= i < j < |p.fillRefs| ==> Before(p.fillRefs[i], p.fillRefs[j]))
  {
    hide Trim, Lower, Canonical, SortBy, Before, CanonicalDecimal;
    var p := Canonical(c).payload;
    forall i, j | 0 <= i < j < |p.positions|
      ensures Before(p.positions[i].token, p.positions[j].token)
    {
      assert Before(TokenOf(p.positions[i]), TokenOf(p.positions[j]));
    }
    forall i, j | 0 <= i < j < |p.fillRefs|
      ensures Before(p.fillRefs[i], p.fillRefs[j])
    {
      assert Before(Itself(p.fillRefs[i]), Itself(p.fillRefs[j]));
    }
  }

  /** What is wrong with one position. */
  lemma PositionFaultIs(ps: seq<Position>, k: nat)
    requires k < |ps|
    ensures var token, fault := Trim(ps[k].token), PositionFault(ps, k);
            var repeats := exists i :: 0 <= i < k && Trim(ps[i].token) == token;
            && (fault == Some(TokenInvalid) <==> token == "" || |token| > 256)
            && (fault == Some(TokenRepeated(token)) <==> 1 <= |token| <= 256 && repeats)
            && (fault == Some(QuantityNotPositive(token)) <==>
                  1 <= |token| <= 256 && !repeats && (ps[k].quantity.NotFinite? || ps[k].quantity.value.coeff <= 0))
            && (fault.Some? ==> fault.value in {TokenInvalid, TokenRepeated(token), QuantityNotPositive(token)})
  {
    hide Trim;
  }

  /** What is wrong with one reference. */
  lemma FillRefFaultIs(refs: seq<string>, k: nat)
    requires k < |refs|
    ensures var ref, fault := Trim(refs[k]), FillRefFault(refs, k);
            var repeats := exists i :: 0 <= i < k && Trim(refs[i]) == ref;
            && (fault == Some(FillRefInvalid) <==> ref == "" || |ref| > 256)
            && (fault == Some(FillRefRepeated(ref)) <==> 1 <= |ref| <= 256 && repeats)
            && (fault.Some? ==> fault.value in {FillRefInvalid, FillRefRepeated(ref)})
  {
    hide Trim;
  }

  /** The order of the checks: identity, account, positions in order, references in order. */
  lemma RefusalIs(c: Contents)
    ensures var named := Trim(c.runtime) != "" && Trim(c.venue) != "";
            var digest := |Trim(c.account)| == 64 && forall d <- Lower(Trim(c.account)) :: d in "0123456789abcdef";
            && (Canonical(c) == Refused(IdentityMissing) <==> !named)
            && (Canonical(c) == Refused(AccountNotADigest) <==> named && !digest)
            && (named && digest ==>
                  && (forall k :: 0 <= k < |c.positions| && PositionFault(c.positions, k).Some?
                                  && (forall j :: 0 <= j < k ==> PositionFault(c.positions, j).None?) ==>
                        Canonical(c) == Refused(PositionFault(c.positions, k).value))
                  && (forall k :: 0 <= k < |c.fillRefs| && FillRefFault(c.fillRefs, k).Some?
                                  && (forall j :: 0 <= j < k ==> FillRefFault(c.fillRefs, j).None?)
                                  && (forall j :: 0 <= j < |c.positions| ==> PositionFault(c.positions, j).None?) ==>
                        Canonical(c) == Refused(FillRefFault(c.fillRefs, k).value)))
  {
    hide Trim, Lower, IsHexDigest, PayloadOf, PositionFault, FillRefFault;
    HexIff(Lower(Trim(c.account)));
    OwnFaults(c.positions, 0, c.fillRefs, 0);
    if forall j :: 0 <= j < |c.positions| ==> PositionFault(c.positions, j).None? {
      NoFirstPosition(c.positions, 0);
    }
    forall k | 0 <= k < |c.positions| && PositionFault(c.positions, k).Some?
               && (forall j :: 0 <= j < k ==> PositionFault(c.positions, j).None?)
      ensures FirstPositionFault(c.positions, 0) == PositionFault(c.positions, k)
    {
      FirstPositionAt(c.positions, 0, k);
    }
    forall k | 0 <= k < |c.fillRefs| && FillRefFault(c.fillRefs, k).Some?
               && (forall j :: 0 <= j < k ==> FillRefFault(c.fillRefs, j).None?)
      ensures FirstFillRefFault(c.fillRefs, 0) == FillRefFault(c.fillRefs, k)
    {
      FirstFillRefAt(c.fillRefs, 0, k);
    }
  }

  /** Positions and references are never blamed for the identity. */
  lemma OwnFaults(ps: seq<Position>, k: nat, refs: seq<string>, m: nat)
    requires k <= |ps| && m <= |refs|
    ensures FirstPositionFault(ps, k) !in {Some(IdentityMissing), Some(AccountNotADigest)}
    ensures FirstFillRefFault(refs, m) !in {Some(IdentityMissing), Some(AccountNotADigest)}
    decreases |ps| - k + |refs| - m
  {
    hide Trim;
    if k < |ps| {
      OwnFaults(ps, k + 1, refs, m);
    } else if m < |refs| {
      OwnFaults(ps, k, refs, m + 1);
    }
  }

  lemma {:induction false} NoFirstPosition(ps: seq<Position>, n: nat)
    requires n <= |ps| && forall j :: n <= j < |ps| ==> PositionFault(ps, j).None?
    ensures FirstPositionFault(ps, n).None?
    decreases |ps| - n
  {
    if n < |ps| {
      NoFirstPosition(ps, n + 1);
    }
  }

  lemma {:induction false} FirstPositionAt(ps: seq<Position>, n: nat, k: nat)
    requires n <= k < |ps| && PositionFault(ps, k).Some? && forall j :: n <= j < k ==> PositionFault(ps, j).None?
    ensures FirstPositionFault(ps, n) == PositionFault(ps, k)
    decreases k - n
  {
    hide PositionFault;
    if n < k {
      FirstPositionAt(ps, n + 1, k);
    }
  }

  lemma {:induction false} FirstFillRefAt(refs: seq<string>, n: nat, k: nat)
    requires n <= k < |refs| && FillRefFault(refs, k).Some? && forall j :: n <= j < k ==> FillRefFault(refs, j).None?
    ensures FirstFillRefFault(refs, n) == FillRefFault(refs, k)
    decreases k - n
  {
    hide FillRefFault;
    if n < k {
      FirstFillRefAt(refs, n + 1, k);
    }
  }

  // ---------- canonical_external_baseline_payload ----------

  method CollectPositions(ps: seq<Position>) returns (entries: seq<Entry>, fault: Option<Refusal>)
    ensures fault == FirstPositionFault(ps, 0)
    ensures fault.None? ==> entries == Entries(ps)
  {
    hide Trim, CanonicalDecimal, ValidKey;
    entries := [];
    var seen := {};
    var k := 0;
    while k < |ps|
      invariant 0 <= k <= |ps|
      invariant FirstPositionFault(ps, 0) == FirstPositionFault(ps, k)
      invariant forall t :: t in seen <==> exists i :: 0 <= i < k && Trim(ps[i].token) == t
      invariant |entries| == k && forall i :: 0 <= i < k ==> entries[i] == EntryOf(ps[i])
    {
      var token := Trim(ps[k].token);
      if !ValidKey(token) {
        return [], Some(TokenInvalid);
      }
      if token in seen {
        return [], Some(TokenRepeated(token));
      }
      if !Positive(ps[k].quantity) {
        return [], Some(QuantityNotPositive(token));
      }
      seen := seen + {token};
      entries := entries + [Entry(token, CanonicalDecimal(ps[k].quantity.value))];
      k := k + 1;
    }
    return entries, None;
  }

  method CollectFillRefs(refs: seq<string>) returns (trimmed: seq<string>, fault: Option<Refusal>)
    ensures fault == FirstFillRefFault(refs, 0)
    ensures fault.None? ==> trimmed == Trimmed(refs)
  {
    hide Trim, ValidKey;
    trimmed := [];
    var seen := {};
    var k := 0;
    while k < |refs|
      invariant 0 <= k <= |refs|
      invariant FirstFillRefFault(refs, 0) == FirstFillRefFault(refs, k)
      invariant forall t :: t in seen <==> exists i :: 0 <= i < k && Trim(refs[i]) == t
      invariant |trimmed| == k && forall i :: 0 <= i < k ==> trimmed[i] == Trim(refs[i])
    {
      var ref := Trim(refs[k]);
      if !ValidKey(ref) {
        return [], Some(FillRefInvalid);
      }
      if ref in seen {
        return [], Some(FillRefRepeated(ref));
      }
      seen := seen + {ref};
      trimmed := trimmed + [ref];
      k := k + 1;
    }
    return trimmed, None;
  }

  method CanonicalPayload(c: Contents) returns (result: Canonicalised)
    ensures result == Canonical(c)
  {
    var runtime, venue, account := Trim(c.runtime), Trim(c.venue), Lower(Trim(c.account));
    if runtime == "" || venue == "" {
      return Refused(IdentityMissing);
    }
    if !IsHexDigest(account) {
      return Refused(AccountNotADigest);
    }
    var entries, positionFault := CollectPositions(c.positions);
    if positionFault.Some? {
      return Refused(positionFault.value);
    }
    var refs, refFault := CollectFillRefs(c.fillRefs);
    if refFault.Some? {
      return Refused(refFault.value);
    }
    return Accepted(Payload(runtime, venue, account, SortBy(TokenOf, entries), SortBy(Itself, refs)));
  }

  // ---------- The payload is a normal form ----------

  /** What the positions say: each trimmed token with its quantity in decimal normal form. */
  ghost function Holdings(ps: seq<Position>): map<string, Dec>
    requires PositionsValid(ps)
  {
    if ps == [] then map[]
    else
      var last := ps[|ps| - 1];
      Holdings(ps[..|ps| - 1])[Trim(last.token) := Normalize(last.quantity.value)]
  }

  ghost function FillRefSet(refs: seq<string>): set<string> {
    set i | 0 <= i < |refs| :: Trim(refs[i])
  }

  predicate Reports(p: Position, token: string, quantity: Dec) {
    Positive(p.quantity) && Trim(p.token) == token && Normalize(p.quantity.value) == quantity
  }

  lemma {:induction false} HoldingsAt(ps: seq<Position>, token: string, quantity: Dec)
    requires PositionsValid(ps)
    ensures token in Holdings(ps) && Holdings(ps)[token] == quantity
            <==> exists i :: 0 <= i < |ps| && Reports(ps[i], token, quantity)
  {
    hide Trim, Normalize;
    if ps != [] {
      var front, last := ps[..|ps| - 1], ps[|ps| - 1];
      HoldingsAt(front, token, quantity);
      if Trim(last.token) == token {
        assert Reports(ps[|ps| - 1], token, quantity) <==> Normalize(last.quantity.value) == quantity;
      } else {
        if i :| 0 <= i < |ps| && Reports(ps[i], token, quantity) {
          assert Reports(front[i], token, quantity);
        }
        if i :| 0 <= i < |front| && Reports(front[i], token, quantity) {
          assert Reports(ps[i], token, quantity);
        }
      }
    }
  }

  /** Positions list an entry iff they report its token with a quantity that prints so. */
  lemma EntriesAt(ps: seq<Position>, e: Entry)
    requires PositionsValid(ps)
    ensures e in Entries(ps) <==>
              exists i :: 0 <= i < |ps| && EntryOf(ps[i]) == e
  {
    if e in Entries(ps) {
      var i :| 0 <= i < |Entries(ps)| && Entries(ps)[i] == e;
      assert EntryOf(ps[i]) == e;
    }
    if i :| 0 <= i < |ps| && EntryOf(ps[i]) == e {
      assert Entries(ps)[i] == e;
    }
  }

  lemma EntryAlikeIff(p: Position, q: Position)
    requires Positive(p.quantity) && Positive(q.quantity)
    ensures EntryOf(p) == EntryOf(q)
            <==> Trim(p.token) == Trim(q.token) && Normalize(p.quantity.value) == Normalize(q.quantity.value)
  {
    PrintAlikeIff(p.quantity.value, q.quantity.value);
  }

  lemma EntriesWithin(a: seq<Position>, b: seq<Position>)
    requires PositionsValid(a) && PositionsValid(b)
    requires forall e :: e in Entries(a) <==> e in Entries(b)
    ensures Holdings(a).Items <= Holdings(b).Items
  {
    hide Trim, Normalize, CanonicalDecimal, Holdings, PositionsValid;
    forall pair | pair in Holdings(a).Items
      ensures pair in Holdings(b).Items
    {
      var (token, quantity) := pair;
      HoldingsAt(a, token, quantity);
      var i :| 0 <= i < |a| && Reports(a[i], token, quantity);
      EntriesAt(a, EntryOf(a[i]));
      EntriesAt(b, EntryOf(a[i]));
      var j :| 0 <= j < |b| && EntryOf(b[j]) == EntryOf(a[i]);
      AllPositive(b, j);
      EntryAlikeIff(a[i], b[j]);
      assert Reports(b[j], token, quantity);
      HoldingsAt(b, token, quantity);
    }
  }

  lemma AllPositive(ps: seq<Position>, i: nat)
    requires PositionsValid(ps) && i < |ps|
    ensures Positive(ps[i].quantity)
  {
  }

  lemma HoldingsGiveEntry(a: seq<Position>, b: seq<Position>, e: Entry)
    requires PositionsValid(a) && PositionsValid(b) && Holdings(a) == Holdings(b) && e in Entries(a)
    ensures e in Entries(b)
  {
    hide Trim, Normalize, CanonicalDecimal, Holdings, PositionsValid;
    EntriesAt(a, e);
    var i :| 0 <= i < |a| && EntryOf(a[i]) == e;
    AllPositive(a, i);
    var token, quantity := Trim(a[i].token), Normalize(a[i].quantity.value);
    assert Reports(a[i], token, quantity);
    HoldingsAt(a, token, quantity);
    HoldingsAt(b, token, quantity);
    var j :| 0 <= j < |b| && Reports(b[j], token, quantity);
    EntryAlikeIff(a[i], b[j]);
    EntriesAt(b, e);
  }

  lemma SameEntriesIff(a: seq<Position>, b: seq<Position>)
    requires PositionsValid(a) && PositionsValid(b)
    ensures (forall e :: e in Entries(a) <==> e in Entries(b)) <==> Holdings(a) == Holdings(b)
  {
    hide Holdings, PositionsValid;
    if forall e :: e in Entries(a) <==> e in Entries(b) {
      EntriesWithin(a, b);
      EntriesWithin(b, a);
      SameItems(Holdings(a), Holdings(b));
    }
    if Holdings(a) == Holdings(b) {
      forall e
        ensures e in Entries(a) <==> e in Entries(b)
      {
        if e in Entries(a) {
          HoldingsGiveEntry(a, b, e);
        }
        if e in Entries(b) {
          HoldingsGiveEntry(b, a, e);
        }
      }
    }
  }

  lemma SameItems<K, V>(m: map<K, V>, n: map<K, V>)
    requires m.Items == n.Items
    ensures m == n
  {
    forall k
      ensures k in m <==> k in n
      ensures k in m ==> k in n && m[k] == n[k]
    {
      if k in m {
        assert (k, m[k]) in n.Items;
      }
      if k in n {
        assert (k, n[k]) in m.Items;
      }
    }
  }

  lemma SameRefsIff(a: seq<string>, b: seq<string>)
    ensures (forall x :: x in Trimmed(a) <==> x in Trimmed(b)) <==> FillRefSet(a) == FillRefSet(b)
  {
    RefsAre(a);
    RefsAre(b);
  }

  lemma RefsAre(a: seq<string>)
    ensures forall x :: x in Trimmed(a) <==> x in FillRefSet(a)
  {
    forall x
      ensures x in Trimmed(a) <==> x in FillRefSet(a)
    {
      if x in Trimmed(a) {
        var i :| 0 <= i < |Trimmed(a)| && Trimmed(a)[i] == x;
        assert Trim(a[i]) == x;
      }
      if x in FillRefSet(a) {
        var i :| 0 <= i < |a| && Trim(a[i]) == x;
        assert Trimmed(a)[i] == x;
      }
    }
  }

  lemma KeysDistinct(c: Contents)
    requires Valid(c)
    ensures Canonical(c) == Accepted(PayloadOf(c))
    ensures DistinctBy(TokenOf, Entries(c.positions)) && DistinctBy(Itself, Trimmed(c.fillRefs))
  {
    AcceptedIff(c);
    hide Trim, Lower, IsHexDigest, ValidKey, Positive, PayloadOf, FirstPositionFault, FirstFillRefFault;
  }

  ghost predicate SameIdentity(a: Contents, b: Contents) {
    Trim(a.runtime) == Trim(b.runtime) && Trim(a.venue) == Trim(b.venue)
        && Lower(Trim(a.account)) == Lower(Trim(b.account))
  }

  /**
   The payload is a normal form: accepted contents, listed in whatever order, give equal payloads
   iff identity, holdings and the set of fill references agree.
   */
  lemma NormalForm(a: Contents, b: Contents)
    requires Valid(a) && Valid(b)
    ensures Canonical(a).Accepted? && Canonical(b).Accepted?
    ensures Canonical(a) == Canonical(b) <==>
              && SameIdentity(a, b)
              && Holdings(a.positions) == Holdings(b.positions)
              && FillRefSet(a.fillRefs) == FillRefSet(b.fillRefs)
  {
    hide PositionsValid, FillRefsValid, IdentityValid, Holdings, Trim, Lower, SortBy, DistinctBy, FirstPositionFault,
         FirstFillRefFault;
    AcceptedIff(a);
    AcceptedIff(b);
    KeysDistinct(a);
    KeysDistinct(b);
    SortEqualIff(TokenOf, Entries(a.positions), Entries(b.positions));
    SortEqualIff(Itself, Trimmed(a.fillRefs), Trimmed(b.fillRefs));
    SameEntriesIff(a.positions, b.positions);
    SameRefsIff(a.fillRefs, b.fillRefs);
  }

  /** The same token with the same value, however either is written. */
  predicate Matches(p: Position, q: Position) {
    Positive(p.quantity) && Positive(q.quantity) && Trim(p.token) == Trim(q.token)
        && SameValue(p.quantity.value, q.quantity.value)
  }

  ghost predicate Covered(a: seq<Position>, b: seq<Position>) {
    forall i :: 0 <= i < |a| ==> exists j :: 0 <= j < |b| && Matches(a[i], b[j])
  }

  /** Every quantity needs at most 28 significant digits. */
  ghost predicate InContext(ps: seq<Position>) {
    forall i :: 0 <= i < |ps| && Positive(ps[i].quantity)
        ==> DigitCount(StripZeros(ps[i].quantity.value).coeff) <= PRECISION
  }

  lemma MatchesIff(p: Position, q: Position)
    requires Positive(p.quantity) && Positive(q.quantity)
    requires DigitCount(StripZeros(p.quantity.value).coeff) <= PRECISION
            && DigitCount(StripZeros(q.quantity.value).coeff) <= PRECISION
    ensures EntryOf(p) == EntryOf(q) <==> Matches(p, q)
  {
    hide Trim, SameValue, CanonicalDecimal, StripZeros, DigitCount;
    WithinContextPrintAlikeIff(p.quantity.value, q.quantity.value);
  }

  lemma CoveredIff(a: seq<Position>, b: seq<Position>)
    requires PositionsValid(a) && PositionsValid(b) && InContext(a) && InContext(b)
    ensures Covered(a, b) <==> forall e :: e in Entries(a) ==> e in Entries(b)
  {
    hide Trim, SameValue, CanonicalDecimal, StripZeros, DigitCount, Matches, EntryOf, ValidKey;
    if Covered(a, b) {
      forall e | e in Entries(a)
        ensures e in Entries(b)
      {
        EntriesAt(a, e);
        var i :| 0 <= i < |a| && EntryOf(a[i]) == e;
        var j :| 0 <= j < |b| && Matches(a[i], b[j]);
        MatchesIff(a[i], b[j]);
        EntriesAt(b, e);
      }
    }
    if forall e :: e in Entries(a) ==> e in Entries(b) {
      forall i | 0 <= i < |a|
        ensures exists j :: 0 <= j < |b| && Matches(a[i], b[j])
      {
        EntriesAt(a, EntryOf(a[i]));
        EntriesAt(b, EntryOf(a[i]));
        var j :| 0 <= j < |b| && EntryOf(b[j]) == EntryOf(a[i]);
        MatchesIff(a[i], b[j]);
      }
    }
  }

  /**
   The same in terms of values: with quantities of at most 28 significant digits, accepted contents
   give equal payloads iff they pair up tokens with equal values, whatever the order or the
   exponents, under the same identity and with the same fill references.
   */
  lemma NormalFormByValue(a: Contents, b: Contents)
    requires Valid(a) && Valid(b) && InContext(a.positions) && InContext(b.positions)
    ensures Canonical(a) == Canonical(b) <==>
              && SameIdentity(a, b)
              && Covered(a.positions, b.positions) && Covered(b.positions, a.positions)
              && FillRefSet(a.fillRefs) == FillRefSet(b.fillRefs)
  {
    hide Canonical, PositionsValid, FillRefsValid, IdentityValid, Holdings, SameIdentity, Covered, InContext,
         FillRefSet, Entries;
    NormalForm(a, b);
    SameEntriesIff(a.positions, b.positions);
    CoveredIff(a.positions, b.positions);
    CoveredIff(b.positions, a.positions);
  }

  // ---------- Reading a payload back ----------

  function PositionOf(e: Entry): Position {
    Position(e.token, Finite(ParseDecimal(e.quantity)))
  }

  function ReadPositions(entries: seq<Entry>): (r: seq<Position>)
    ensures |r| == |entries| && forall i :: 0 <= i < |r| ==> r[i] == PositionOf(entries[i])
  {
    seq(|entries|, i requires 0 <= i < |entries| => PositionOf(entries[i]))
  }

  /** The contents that a payload itself lists. */
  function Listed(p: Payload): Contents {
    Contents(p.runtime, p.venue, p.account, ReadPositions(p.positions), p.fillRefs)
  }

  lemma ReadEntry(p: Position)
    requires Positive(p.quantity) && ValidKey(Trim(p.token))
    ensures var q := PositionOf(EntryOf(p));
            Positive(q.quantity) && Trim(q.token) == q.token == Trim(p.token) && EntryOf(q) == EntryOf(p)
  {
    CanonicalIdempotent(p.quantity.value);
    TrimIdempotent(p.token);
  }

  /** A list whose keys ascend is what sorting it gives. */
  lemma SortFixed<T>(key: T -> string, s: seq<T>)
    requires Ascending(key, s)
    ensures SortBy(key, s) == s
  {
    forall i, j | 0 <= i < j < |s|
      ensures key(s[i]) != key(s[j])
    {
      BeforeTotal(key(s[i]), key(s[j]));
    }
    SortAscends(key, s);
    SameMembers(SortBy(key, s), s);
    AscendingUnique(key, SortBy(key, s), s);
  }

  lemma SortedEntry(ps: seq<Position>, i: nat)
    requires PositionsValid(ps) && i < |SortBy(TokenOf, Entries(ps))|
    ensures exists k :: 0 <= k < |ps| && SortBy(TokenOf, Entries(ps))[i] == EntryOf(ps[k])
  {
    var sorted := SortBy(TokenOf, Entries(ps));
    SameMember(sorted, Entries(ps), sorted[i]);
    EntriesAt(ps, sorted[i]);
  }

  lemma ReadPositionsBack(ps: seq<Position>)
    requires PositionsValid(ps)
    ensures var entries := SortBy(TokenOf, Entries(ps));
            PositionsValid(ReadPositions(entries)) && Entries(ReadPositions(entries)) == entries
                                                   && Ascending(TokenOf, entries)
  {
    hide Trim, CanonicalDecimal, ParseDecimal, SortBy, Before;
    var entries := SortBy(TokenOf, Entries(ps));
    var read := ReadPositions(entries);
    assert DistinctBy(TokenOf, Entries(ps));
    SortAscends(TokenOf, Entries(ps));
    forall i | 0 <= i < |entries|
      ensures ValidKey(Trim(read[i].token)) && Positive(read[i].quantity) && EntryOf(read[i]) == entries[i]
      ensures Trim(read[i].token) == entries[i].token
    {
      SortedEntry(ps, i);
      var k :| 0 <= k < |ps| && entries[i] == EntryOf(ps[k]);
      ReadEntry(ps[k]);
    }
    forall i, j | 0 <= i < j < |read|
      ensures Trim(read[i].token) != Trim(read[j].token)
    {
      BeforeTotal(TokenOf(entries[i]), TokenOf(entries[j]));
    }
  }

  lemma ReadFillRefsBack(refs: seq<string>)
    requires FillRefsValid(refs)
    ensures var sorted := SortBy(Itself, Trimmed(refs));
            FillRefsValid(sorted) && Trimmed(sorted) == sorted && Ascending(Itself, sorted)
  {
    hide Trim, SortBy, Before;
    var sorted := SortBy(Itself, Trimmed(refs));
    assert DistinctBy(Itself, Trimmed(refs));
    SortAscends(Itself, Trimmed(refs));
    forall i | 0 <= i < |sorted|
      ensures Trim(sorted[i]) == sorted[i] && ValidKey(sorted[i])
    {
      SameMember(sorted, Trimmed(refs), sorted[i]);
      var k :| 0 <= k < |Trimmed(refs)| && Trimmed(refs)[k] == sorted[i];
      TrimIdempotent(refs[k]);
    }
    forall i, j | 0 <= i < j < |sorted|
      ensures Trim(sorted[i]) != Trim(sorted[j])
    {
      BeforeTotal(Itself(sorted[i]), Itself(sorted[j]));
    }
  }

  /** A canonical payload is a fixed point: the contents it lists are accepted and give the same payload again. */
  lemma PayloadIsFixedPoint(c: Contents)
    requires Canonical(c).Accepted?
    ensures Canonical(Listed(Canonical(c).payload)) == Canonical(c)
  {
    AcceptedIff(c);
    var p := PayloadOf(c);
    ReadPositionsBack(c.positions);
    ReadFillRefsBack(c.fillRefs);
    TrimIdempotent(c.runtime);
    TrimIdempotent(c.venue);
    HexIsClean(p.account);
    SortFixed(TokenOf, p.positions);
    SortFixed(Itself, p.fillRefs);
    AcceptedIff(Listed(p));
  }
}
