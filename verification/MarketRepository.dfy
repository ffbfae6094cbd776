/** The repository's candidate tables and signature cache, updated in place. */
module MarketRepository {
  import opened Collections
  import opened MarketCandidates
  import opened MappingLifecycle

  class Repository {
    var canonicals: map<string, CanonicalRow>
    var instruments: map<InstrumentKey, InstrumentRow>
    var mappings: map<PairKey, MappingRow>
    var signatures: map<CacheKey, Signature>

    constructor ()
      ensures View() == START
    {
      canonicals, instruments, mappings, signatures := map[], map[], map[], map[];
    }

    ghost function Rows(): Tables
      reads this
    {
      Tables(canonicals, instruments, mappings)
    }

    ghost function View(): State
      reads this
    {
      State(Rows(), signatures)
    }

    method UpsertInstrument(item: Item, leg: Leg, now: int)
      modifies this`instruments
      ensures instruments
              == old(instruments)[KeyOf(leg) := UpdateInstrument(Lookup(old(instruments), KeyOf(leg)), item, leg, now)]
    {
      var key := KeyOf(leg);
      if key !in instruments {
        instruments := instruments[key := InstrumentRow(item.canonical, leg.yes, leg.no, item.cutoff, item.source,
                                                        item.fingerprint, item.category, now)];
      } else {
        var row := instruments[key];
        var updated := row.(canonical := item.canonical, closes := item.cutoff, source := item.source,
                            fingerprint := item.fingerprint, category := item.category);
        if leg.yes != "" {
          updated := updated.(yes := leg.yes);
        }
        if leg.no != "" {
          updated := updated.(no := leg.no);
        }
        if updated != row {
          updated := updated.(updated := now);
        }
        instruments := instruments[key := updated];
      }
    }

    method UpsertMapping(item: Item, key: PairKey, markSeen: bool, now: int)
      modifies this`mappings
      ensures mappings == old(mappings)[key := UpdateMapping(Lookup(old(mappings), key), item, markSeen, now)]
    {
      if key !in mappings {
        mappings := mappings[key := MappingRow(item.canonical, Candidate, item.fingerprint, item.strategy, None, None,
                                               if markSeen then Some(now) else None, now, now)];
        return;
      }
      var row := mappings[key];
      var changed := false;
      if row.fingerprint != item.fingerprint {
        row := row.(canonical := item.canonical, fingerprint := item.fingerprint);
        row := row.(status := Stale, verifiedAt := None, verifiedBy := None);
        changed := true;
      }
      if item.strategy.Some? && row.strategy != item.strategy {
        if row.status == Verified
           && ((row.strategy.None? && item.strategy != Some(EXACT_ID))
               || (row.strategy.Some? && row.strategy != item.strategy)) {
          row := row.(status := Stale, verifiedAt := None, verifiedBy := None);
        }
        row := row.(strategy := item.strategy);
        changed := true;
      }
      if markSeen {
        row := row.(seen := Some(now));
      }
      if changed {
        row := row.(updated := now);
      }
      mappings := mappings[key := row];
    }

    /** Every pair of the candidate's venues, left before right. */
    method UpsertMappings(item: Item, markSeen: bool, now: int)
      modifies this`mappings
      ensures mappings == AddMappings(old(mappings), item, PairsOf(item), markSeen, now)
    {
      hide UpdateMapping, AddMappings, PairsWith;
      ghost var before := mappings;
      var i := 0;
      NoKeys(before, item, markSeen, now);
      while i < |item.legs|
        invariant 0 <= i <= |item.legs|
        invariant mappings == AddMappings(before, item, Pairs(item.legs, i), markSeen, now)
      {
        var left := item.legs[i];
        ghost var done := Pairs(item.legs, i);
        PairStarts(item.legs, i);
        if left.marketId != "" {
          var j := i + 1;
          assert done + [] == done;
          while j < |item.legs|
            invariant i < j <= |item.legs|
            invariant mappings == AddMappings(before, item, done + PairsWith(item.legs, i, j), markSeen, now)
          {
            var right := item.legs[j];
            ghost var keys := done + PairsWith(item.legs, i, j);
            PairStep(item.legs, i, j, done);
            if right.marketId != "" {
              var key := PairKey(left.venue, left.marketId, right.venue, right.marketId);
              UpsertMapping(item, key, markSeen, now);
              OneMoreKey(before, item, keys, key, markSeen, now);
            }
            j := j + 1;
          }
        } else {
          NoPairsWith(item.legs, i, |item.legs|);
          assert done + [] == done;
        }
        i := i + 1;
      }
    }

    lemma NoKeys(rows: map<PairKey, MappingRow>, item: Item, markSeen: bool, now: int)
      ensures AddMappings(rows, item, Pairs(item.legs, 0), markSeen, now) == rows
    {
    }

    lemma OneMoreKey(rows: map<PairKey, MappingRow>, item: Item, keys: seq<PairKey>, key: PairKey, markSeen: bool,
                     now: int)
      ensures AddMappings(rows, item, keys + [key], markSeen, now)
           == (var before := AddMappings(rows, item, keys, markSeen, now);
               before[key := UpdateMapping(Lookup(before, key), item, markSeen, now)])
    {
      hide UpdateMapping;
      assert (keys + [key])[..|keys|] == keys;
    }

    lemma PairStarts(legs: seq<Leg>, i: nat)
      requires i < |legs|
      ensures PairsWith(legs, i, i + 1) == []
    {
    }

    lemma PairStep(legs: seq<Leg>, i: nat, j: nat, done: seq<PairKey>)
      requires i < j < |legs|
      ensures var l, r := legs[i], legs[j];
              done + PairsWith(legs, i, j + 1)
              == if l.marketId != "" && r.marketId != ""
                 then (done + PairsWith(legs, i, j)) + [PairKey(l.venue, l.marketId, r.venue, r.marketId)]
                 else done + PairsWith(legs, i, j)
    {
    }

    lemma {:induction false} NoPairsWith(legs: seq<Leg>, i: nat, j: nat)
      requires i < j <= |legs| && legs[i].marketId == ""
      ensures PairsWith(legs, i, j) == []
    {
      if j > i + 1 {
        NoPairsWith(legs, i, j - 1);
      }
    }

    method UpsertCandidate(item: Item, markSeen: bool, now: int)
      modifies this`canonicals, this`instruments, this`mappings
      ensures Rows() == Upsert(old(Rows()), item, markSeen, now)
    {
      hide UpdateInstrument, PairsOf, AddMappings;
      if item.canonical !in canonicals {
        canonicals := canonicals[item.canonical := NewCanonical(item)];
      }
      ghost var before := instruments;
      var i := 0;
      while i < |item.legs|
        invariant 0 <= i <= |item.legs| && instruments == AddInstruments(before, item, i, now)
        invariant canonicals == AddCanonical(old(canonicals), item) && mappings == old(mappings)
      {
        UpsertInstrument(item, item.legs[i], now);
        i := i + 1;
      }
      UpsertMappings(item, markSeen, now);
    }

    /** upsert_market_candidates on one chunk. */
    method UpsertMarketCandidates(items: seq<Item>, markSeen: bool, now: int)
      modifies this
      ensures View() == Apply(old(View()), Batch(items, markSeen, now))
    {
      hide Upsert, CacheKeyOf, SignatureOf;
      var prepared := [];
      var k := 0;
      while k < |items|
        invariant 0 <= k <= |items| && prepared == Prepared(signatures, items[..k], markSeen)
        invariant View() == old(View())
      {
        assert items[..k + 1][..k] == items[..k];
        if markSeen || !(CacheKeyOf(items[k]) in signatures
                         && signatures[CacheKeyOf(items[k])] == SignatureOf(items[k])) {
          prepared := prepared + [items[k]];
        }
        k := k + 1;
      }
      assert items[..k] == items;
      if prepared == [] {
        return;
      }
      k := 0;
      while k < |prepared|
        invariant 0 <= k <= |prepared| && signatures == old(signatures)
        invariant Rows() == UpsertAll(old(Rows()), prepared[..k], markSeen, now)
      {
        assert prepared[..k + 1][..k] == prepared[..k];
        UpsertCandidate(prepared[k], markSeen, now);
        k := k + 1;
      }
      assert prepared[..k] == prepared;
      ghost var rows := Rows();
      k := 0;
      while k < |prepared|
        invariant 0 <= k <= |prepared| && Rows() == rows
        invariant signatures == Remember(old(signatures), prepared[..k])
      {
        assert prepared[..k + 1][..k] == prepared[..k];
        signatures := signatures[CacheKeyOf(prepared[k]) := SignatureOf(prepared[k])];
        k := k + 1;
      }
      assert prepared[..k] == prepared;
    }

    /** set_mapping_status; false stands for the KeyError on an unknown mapping. */
    method SetMappingStatus(key: PairKey, status: Status, operator: Option<string>, now: int) returns (known: bool)
      modifies this`mappings
      ensures View() == Apply(old(View()), StatusChange(key, status, operator, now))
      ensures known <==> key in old(mappings)
    {
      if key !in mappings {
        return false;
      }
      var row := mappings[key].(status := status);
      row := row.(verifiedAt := if status == Verified then Some(now) else None);
      row := row.(verifiedBy := if status == Verified then operator else None, updated := now);
      mappings := mappings[key := row];
      return true;
    }
  }
}
