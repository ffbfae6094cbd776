/**
 The round-robin interleaving of the per-route active lists (engine.py, the last loops of
 _select_evaluation_window): round k takes the k-th member of every list that has one.
 */
module SchedulerInterleave {
  import opened Collections

  /** The members of round `k` from the first `n` lists. */
  function RoundOf<T>(lists: seq<seq<T>>, k: nat, n: nat): seq<T>
    requires n <= |lists|
  {
    if n == 0 then []
    else RoundOf(lists, k, n - 1) + (if k < |lists[n - 1]| then [lists[n - 1][k]] else [])
  }

  /** The first `n` lists one after the other. */
  function Flatten<T>(lists: seq<seq<T>>, n: nat): seq<T>
    requires n <= |lists|
  {
    if n == 0 then [] else Flatten(lists, n - 1) + lists[n - 1]
  }

  /** The first `k` members of each of the first `n` lists. */
  function Heads<T>(lists: seq<seq<T>>, k: nat, n: nat): seq<T>
    requires n <= |lists|
  {
    if n == 0 then [] else Heads(lists, k, n - 1) + lists[n - 1][..Min(k, |lists[n - 1]|)]
  }

  /** The first `k` rounds. */
  function Interleaved<T>(lists: seq<seq<T>>, k: nat): seq<T> {
    if k == 0 then [] else Interleaved(lists, k - 1) + RoundOf(lists, k - 1, |lists|)
  }

  function Lengths<T>(lists: seq<seq<T>>): (r: seq<nat>)
    ensures |r| == |lists|
  {
    seq(|lists|, i requires 0 <= i < |lists| => |lists[i]|)
  }

  function Longest<T>(lists: seq<seq<T>>, n: nat): (m: nat)
    requires n <= |lists|
    ensures forall i :: 0 <= i < n ==> |lists[i]| <= m
  {
    if n == 0 then 0 else Max(Longest(lists, n - 1), |lists[n - 1]|)
  }

  /** The complete interleaving. */
  function Interleave<T>(lists: seq<seq<T>>): seq<T> {
    Interleaved(lists, Longest(lists, |lists|))
  }

  lemma MultisetOfConcat<T>(a: seq<T>, b: seq<T>)
    ensures multiset(a + b) == multiset(a) + multiset(b)
  {
  }

  lemma AppendBoth<T>(a: seq<T>, b: seq<T>, r: seq<T>, before: seq<T>, one: seq<T>)
    requires multiset(a) == multiset(b) + multiset(r)
    ensures multiset(a + (before + one)) == multiset(b + before) + multiset(r + one)
  {
  }

  lemma RoundStep<T>(a: seq<T>, b: seq<T>, r: seq<T>, l: seq<T>, k: nat, more: seq<T>, heads: seq<T>, round: seq<T>)
    requires multiset(a) == multiset(b) + multiset(r)
    requires more == a + l[..Min(k + 1, |l|)] && heads == b + l[..Min(k, |l|)]
    requires round == r + (if k < |l| then [l[k]] else [])
    ensures multiset(more) == multiset(heads) + multiset(round)
  {
    if k < |l| {
      assert l[..k + 1] == l[..k] + [l[k]];
      AppendBoth(a, b, r, l[..k], [l[k]]);
    } else {
      assert l[..|l|] + [] == l[..|l|];
      AppendBoth(a, b, r, l[..|l|], []);
    }
  }

  lemma LastList<T>(lists: seq<seq<T>>, k: nat, n: nat)
    requires 0 < n <= |lists|
    ensures Heads(lists, k, n) == Heads(lists, k, n - 1) + lists[n - 1][..Min(k, |lists[n - 1]|)]
    ensures RoundOf(lists, k, n) == RoundOf(lists, k, n - 1) + (if k < |lists[n - 1]| then [lists[n - 1][k]] else [])
  {
  }

  lemma NoLists<T>(lists: seq<seq<T>>, k: nat)
    ensures Heads(lists, k, 0) == Heads(lists, k + 1, 0) == RoundOf(lists, k, 0) == []
  {
  }

  lemma {:induction false} RoundExtends<T>(lists: seq<seq<T>>, k: nat, n: nat)
    requires n <= |lists|
    ensures multiset(Heads(lists, k + 1, n)) == multiset(Heads(lists, k, n)) + multiset(RoundOf(lists, k, n))
  {
    NoLists(lists, k);
    hide Heads, RoundOf;
    if n > 0 {
      RoundExtends(lists, k, n - 1);
      LastList(lists, k, n);
      LastList(lists, k + 1, n);
      RoundStep(Heads(lists, k + 1, n - 1), Heads(lists, k, n - 1), RoundOf(lists, k, n - 1), lists[n - 1], k,
                Heads(lists, k + 1, n), Heads(lists, k, n), RoundOf(lists, k, n));
    }
  }

  lemma {:induction false} NoHeads<T>(lists: seq<seq<T>>, n: nat)
    requires n <= |lists|
    ensures Heads(lists, 0, n) == []
  {
    if n > 0 {
      NoHeads(lists, n - 1);
    }
  }

  lemma {:induction false} AllHeads<T>(lists: seq<seq<T>>, k: nat, n: nat)
    requires n <= |lists| && forall i :: 0 <= i < n ==> |lists[i]| <= k
    ensures Heads(lists, k, n) == Flatten(lists, n)
  {
    if n > 0 {
      AllHeads(lists, k, n - 1);
    }
  }

  /** After k rounds the result holds exactly the first k members of every list. */
  lemma {:induction false} InterleavedHolds<T>(lists: seq<seq<T>>, k: nat)
    ensures multiset(Interleaved(lists, k)) == multiset(Heads(lists, k, |lists|))
  {
    hide RoundOf, Heads;
    if k == 0 {
      NoHeads(lists, |lists|);
    } else {
      InterleavedHolds(lists, k - 1);
      RoundExtends(lists, k - 1, |lists|);
      MultisetOfConcat(Interleaved(lists, k - 1), RoundOf(lists, k - 1, |lists|));
    }
  }

  /** Interleaving loses and invents nothing. */
  lemma InterleaveIsPermutation<T>(lists: seq<seq<T>>)
    ensures multiset(Interleave(lists)) == multiset(Flatten(lists, |lists|))
    ensures |Interleave(lists)| == |Flatten(lists, |lists|)|
  {
    var k := Longest(lists, |lists|);
    InterleavedHolds(lists, k);
    AllHeads(lists, k, |lists|);
    assert |multiset(Interleave(lists))| == |multiset(Flatten(lists, |lists|))|;
  }

  lemma {:induction false} FlattenLength<T>(lists: seq<seq<T>>, n: nat)
    requires n <= |lists|
    ensures |Flatten(lists, n)| == Sum(Lengths(lists)[..n])
  {
    if n > 0 {
      FlattenLength(lists, n - 1);
      assert Lengths(lists)[..n][..n - 1] == Lengths(lists)[..n - 1];
    }
  }

  lemma {:induction false} FlattenMember<T>(lists: seq<seq<T>>, n: nat, x: T)
    requires n <= |lists|
    ensures x in Flatten(lists, n) <==> exists i :: 0 <= i < n && x in lists[i]
  {
    if n > 0 {
      FlattenMember(lists, n - 1, x);
    }
  }

  lemma InterleaveMember<T>(lists: seq<seq<T>>, x: T)
    ensures x in Interleave(lists) <==> exists i :: 0 <= i < |lists| && x in lists[i]
  {
    InterleaveIsPermutation(lists);
    FlattenMember(lists, |lists|, x);
    assert x in Interleave(lists) <==> x in multiset(Interleave(lists));
    assert x in Flatten(lists, |lists|) <==> x in multiset(Flatten(lists, |lists|));
  }

  lemma InterleaveDistinct<T>(lists: seq<seq<T>>)
    requires Distinct(Flatten(lists, |lists|))
    ensures Distinct(Interleave(lists))
  {
    InterleaveIsPermutation(lists);
    forall x
      ensures multiset(Interleave(lists))[x] <= 1
    {
      MultiplicityInDistinct(Flatten(lists, |lists|), x);
    }
    DistinctByMultiplicity(Interleave(lists));
  }

  lemma InterleaveLength<T>(lists: seq<seq<T>>)
    ensures |Interleave(lists)| == Sum(Lengths(lists))
  {
    InterleaveIsPermutation(lists);
    FlattenLength(lists, |lists|);
    assert Lengths(lists)[..|lists|] == Lengths(lists);
  }

  lemma {:induction false} HeadsShorter<T>(lists: seq<seq<T>>, k: nat, n: nat)
    requires n <= |lists|
    ensures |Heads(lists, k, n)| <= |Flatten(lists, n)|
  {
    if n > 0 {
      HeadsShorter(lists, k, n - 1);
    }
  }

  /** Some number of rounds collects as many members as are wanted. */
  ghost predicate Reaches<T>(lists: seq<seq<T>>, wanted: nat) {
    exists k: nat :: |Interleaved(lists, k)| >= wanted
  }

  /**
   The collecting loop stops only once `wanted` members are out. It gets there iff the lists
   hold that many; otherwise its guard stays true after any number of rounds.
   */
  lemma LoopEndsIff<T>(lists: seq<seq<T>>, wanted: nat)
    ensures Reaches(lists, wanted) <==> Sum(Lengths(lists)) >= wanted
  {
    InterleaveLength(lists);
    assert |Interleave(lists)| == |Interleaved(lists, Longest(lists, |lists|))|;
    forall k: nat
      ensures |Interleaved(lists, k)| <= Sum(Lengths(lists))
    {
      InterleavedHolds(lists, k);
      HeadsShorter(lists, k, |lists|);
      InterleaveIsPermutation(lists);
      assert |multiset(Interleaved(lists, k))| == |multiset(Heads(lists, k, |lists|))|;
    }
  }

  // ---------- Facts for the collecting loop ----------

  lemma {:induction false} LaterRoundsExtend<T>(lists: seq<seq<T>>, k: nat, m: nat)
    requires k <= m
    ensures Interleaved(lists, k) <= Interleaved(lists, m)
  {
    if k < m {
      LaterRoundsExtend(lists, k, m - 1);
    }
  }

  lemma {:induction false} EmptyRound<T>(lists: seq<seq<T>>, k: nat, n: nat)
    requires n <= |lists|
    ensures RoundOf(lists, k, n) == [] <==> forall i :: 0 <= i < n ==> |lists[i]| <= k
  {
    if n > 0 {
      EmptyRound(lists, k, n - 1);
    }
  }

  lemma NothingBeyond<T>(lists: seq<seq<T>>, k: nat, m: nat)
    requires k <= m && forall i :: 0 <= i < |lists| ==> |lists[i]| <= k
    ensures RoundOf(lists, m, |lists|) == []
  {
    hide RoundOf;
    EmptyRound(lists, m, |lists|);
  }

  lemma LastRound<T>(lists: seq<seq<T>>, m: nat)
    requires m > 0
    ensures RoundOf(lists, m - 1, |lists|) == [] ==> Interleaved(lists, m) == Interleaved(lists, m - 1)
  {
    hide RoundOf;
  }

  lemma {:induction false} RoundsBeyondLongest<T>(lists: seq<seq<T>>, k: nat, m: nat)
    requires k <= m && forall i :: 0 <= i < |lists| ==> |lists[i]| <= k
    ensures Interleaved(lists, m) == Interleaved(lists, k)
  {
    hide RoundOf, Interleaved;
    if k < m {
      LastRound(lists, m);
      NothingBeyond(lists, k, m - 1);
      RoundsBeyondLongest(lists, k, m - 1);
    }
  }

  lemma {:induction false} LongestIsLeast<T>(lists: seq<seq<T>>, n: nat, k: nat)
    requires n <= |lists| && forall i :: 0 <= i < n ==> |lists[i]| <= k
    ensures Longest(lists, n) <= k
  {
    if n > 0 {
      LongestIsLeast(lists, n - 1, k);
    }
  }

  lemma {:induction false} PartialRound<T>(lists: seq<seq<T>>, k: nat, i: nat, n: nat)
    requires i <= n <= |lists|
    ensures RoundOf(lists, k, i) <= RoundOf(lists, k, n)
  {
    if i < n {
      PartialRound(lists, k, i, n - 1);
    }
  }

  lemma RoundsArePrefixes<T>(lists: seq<seq<T>>, k: nat)
    ensures Interleaved(lists, k) <= Interleave(lists)
  {
    var longest := Longest(lists, |lists|);
    if k <= longest {
      LaterRoundsExtend(lists, k, longest);
    } else {
      RoundsBeyondLongest(lists, longest, k);
    }
  }

  /** Whatever the loop has collected in the middle of a round is a prefix of the result. */
  lemma PartialIsPrefix<T>(lists: seq<seq<T>>, k: nat, i: nat)
    requires i <= |lists|
    ensures Interleaved(lists, k) + RoundOf(lists, k, i) <= Interleave(lists)
  {
    PartialRound(lists, k, i, |lists|);
    RoundsArePrefixes(lists, k + 1);
    var a, p, r := Interleaved(lists, k), RoundOf(lists, k, i), RoundOf(lists, k, |lists|);
    assert Interleaved(lists, k + 1) == a + r;
    assert a + p <= a + r;
  }

  /** A round that adds nothing comes only after everything has been collected. */
  lemma StalledMeansDone<T>(lists: seq<seq<T>>, k: nat)
    requires RoundOf(lists, k, |lists|) == []
    ensures Interleaved(lists, k) == Interleave(lists)
  {
    EmptyRound(lists, k, |lists|);
    LongestIsLeast(lists, |lists|, k);
    RoundsBeyondLongest(lists, Longest(lists, |lists|), k);
  }

  // ---------- The order of the interleaving ----------

  /** A place in lists: a round, which is a position in a list, and the number of the list. */
  datatype Place = Place(round: nat, list: nat)

  /** `r` holds the members of the lists that stand at the places `at`. */
  ghost predicate Holds<T>(lists: seq<seq<T>>, at: seq<Place>, r: seq<T>) {
    && |at| == |r|
    && forall p :: 0 <= p < |at| ==>
         at[p].list < |lists| && at[p].round < |lists[at[p].list]| && r[p] == lists[at[p].list][at[p].round]
  }

  /** The places of round `k` in the first `n` lists. */
  function RoundPlaces<T>(lists: seq<seq<T>>, k: nat, n: nat): (at: seq<Place>)
    requires n <= |lists|
    ensures forall p <- at :: p.round == k && p.list < n
  {
    if n == 0 then [] else RoundPlaces(lists, k, n - 1) + (if k < |lists[n - 1]| then [Place(k, n - 1)] else [])
  }

  /** The places of the first `k` rounds. */
  function Places<T>(lists: seq<seq<T>>, k: nat): (at: seq<Place>)
    ensures forall p <- at :: p.round < k
  {
    if k == 0 then [] else Places(lists, k - 1) + RoundPlaces(lists, k - 1, |lists|)
  }

  lemma {:induction false} RoundHolds<T>(lists: seq<seq<T>>, k: nat, n: nat)
    requires n <= |lists|
    ensures Holds(lists, RoundPlaces(lists, k, n), RoundOf(lists, k, n))
  {
    if n > 0 {
      RoundHolds(lists, k, n - 1);
    }
  }

  lemma {:induction false} PlacesHold<T>(lists: seq<seq<T>>, k: nat)
    ensures Holds(lists, Places(lists, k), Interleaved(lists, k))
  {
    if k > 0 {
      PlacesHold(lists, k - 1);
      RoundHolds(lists, k - 1, |lists|);
    }
  }

  ghost predicate ByRound(at: seq<Place>) {
    forall p, q :: 0 <= p < q < |at| ==>
      at[p].round < at[q].round || (at[p].round == at[q].round && at[p].list < at[q].list)
  }

  lemma ByRoundAppend(a: seq<Place>, b: seq<Place>, k: nat)
    requires ByRound(a) && ByRound(b)
    requires (forall p <- a :: p.round < k) && (forall p <- b :: p.round == k)
    ensures ByRound(a + b)
  {
    assert forall p :: 0 <= p < |a| ==> a[p] in a;
    assert forall q :: 0 <= q < |b| ==> b[q] in b;
  }

  lemma {:induction false} RoundByRound<T>(lists: seq<seq<T>>, k: nat, n: nat)
    requires n <= |lists|
    ensures ByRound(RoundPlaces(lists, k, n))
  {
    if n > 0 {
      RoundByRound(lists, k, n - 1);
      var before := RoundPlaces(lists, k, n - 1);
      assert forall p :: 0 <= p < |before| ==> before[p] in before;
    }
  }

  lemma {:induction false} PlacesByRound<T>(lists: seq<seq<T>>, k: nat)
    ensures ByRound(Places(lists, k))
  {
    if k > 0 {
      PlacesByRound(lists, k - 1);
      RoundByRound(lists, k - 1, |lists|);
      ByRoundAppend(Places(lists, k - 1), RoundPlaces(lists, k - 1, |lists|), k - 1);
    }
  }

  lemma {:induction false} RoundHasPlace<T>(lists: seq<seq<T>>, n: nat, place: Place)
    requires place.list < n <= |lists| && place.round < |lists[place.list]|
    ensures place in RoundPlaces(lists, place.round, n)
  {
    if place.list < n - 1 {
      RoundHasPlace(lists, n - 1, place);
    }
  }

  lemma {:induction false} HasPlace<T>(lists: seq<seq<T>>, k: nat, place: Place)
    requires place.list < |lists| && place.round < |lists[place.list]| && place.round < k
    ensures place in Places(lists, k)
  {
    hide RoundPlaces;
    var before, round := Places(lists, k - 1), RoundPlaces(lists, k - 1, |lists|);
    assert Places(lists, k) == before + round;
    if place.round < k - 1 {
      HasPlace(lists, k - 1, place);
      assert place in before;
    } else {
      RoundHasPlace(lists, |lists|, place);
      assert place in round;
    }
  }

  /** The interleaving lists every member once, ordered by its position in its list and then by its list. */
  lemma InterleaveOrder<T>(lists: seq<seq<T>>) returns (at: seq<Place>)
    ensures var r := Interleave(lists);
            && |at| == |r|
            && (forall p :: 0 <= p < |at| ==>
                  && at[p].list < |lists| && at[p].round < |lists[at[p].list]|
                  && r[p] == lists[at[p].list][at[p].round])
            && (forall p, q :: 0 <= p < q < |at| ==>
                  at[p].round < at[q].round || (at[p].round == at[q].round && at[p].list < at[q].list))
    ensures forall i, k :: 0 <= i < |lists| && 0 <= k < |lists[i]| ==> Place(k, i) in at
  {
    var longest := Longest(lists, |lists|);
    at := Places(lists, longest);
    PlacesHold(lists, longest);
    PlacesByRound(lists, longest);
    forall i, k | 0 <= i < |lists| && 0 <= k < |lists[i]|
      ensures Place(k, i) in at
    {
      HasPlace(lists, longest, Place(k, i));
    }
  }

  /** Lists one after the other: a member stands behind all earlier lists, at its position in its own. */
  lemma {:induction false} FlattenAt<T>(lists: seq<seq<T>>, n: nat, i: nat, k: nat)
    requires i < n <= |lists| && k < |lists[i]|
    ensures var r, before := Flatten(lists, n), Sum(Lengths(lists)[..i]);
            before + k < |r| && r[before + k] == lists[i][k]
  {
    FlattenLength(lists, n - 1);
    FlattenLength(lists, n);
    if i < n - 1 {
      FlattenAt(lists, n - 1, i, k);
    }
  }
}
