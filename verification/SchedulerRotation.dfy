/**
 The rotating exploration cursor (engine.py, _select_rotating_exploration).

 `Pick` walks a list once, skips excluded keys and stops at the requested count;
 `Explore` applies it to the evaluations read cyclically from the cursor and
 stores where the walk stopped.
 */
module SchedulerRotation {
  import opened Collections
  import opened Modular
  import opened SchedulerTypes

  datatype Picked = Picked(selected: seq<Evaluation>, examined: nat)

  function Pick(list: seq<Evaluation>, excluded: set<Key>, need: nat): (p: Picked)
    ensures p.examined <= |list| && |p.selected| <= need
  {
    if list == [] || need == 0 then Picked([], 0)
    else if list[0].targets in excluded then
      var p := Pick(list[1..], excluded, need);
      Picked(p.selected, p.examined + 1)
    else
      var p := Pick(list[1..], excluded, need - 1);
      Picked([list[0]] + p.selected, p.examined + 1)
  }

  datatype Exploration = Exploration(selected: seq<Evaluation>, cursor: Option<nat>)

  function Explore(evs: seq<Evaluation>, excluded: set<Key>, count: int, cursor: Option<nat>): Exploration {
    if count <= 0 || evs == [] then Exploration([], cursor)
    else
      var start := cursor.GetOr(0) % |evs|;
      var p := Pick(Rotate(evs, start), excluded, count);
      Exploration(p.selected, Some((start + p.examined) % |evs|))
  }

  /** How far one exploration moves its cursor. */
  function Advance(evs: seq<Evaluation>, excluded: set<Key>, count: int, cursor: Option<nat>): nat {
    if count <= 0 || evs == [] then 0
    else Pick(Rotate(evs, cursor.GetOr(0) % |evs|), excluded, count).examined
  }

  function Unexcluded(list: seq<Evaluation>, excluded: set<Key>): seq<Evaluation> {
    if list == [] then []
    else if list[0].targets in excluded then Unexcluded(list[1..], excluded)
    else [list[0]] + Unexcluded(list[1..], excluded)
  }

  /** The walk returns exactly the first `need` unexcluded members of the list. */
  lemma {:induction false} PickIsPrefix(list: seq<Evaluation>, excluded: set<Key>, need: nat)
    ensures var all := Unexcluded(list, excluded);
            Pick(list, excluded, need).selected == all[..Min(need, |all|)]
  {
    if list != [] && need > 0 {
      if list[0].targets in excluded {
        PickIsPrefix(list[1..], excluded, need);
      } else {
        PickIsPrefix(list[1..], excluded, need - 1);
      }
    }
  }

  /** Everything the walk passes is either excluded or selected, and it stops no earlier than it must. */
  lemma {:induction false} PickCovers(list: seq<Evaluation>, excluded: set<Key>, need: nat)
    ensures var p := Pick(list, excluded, need);
            && |p.selected| <= p.examined
            && (|p.selected| < need ==> p.examined == |list|)
            && forall i :: 0 <= i < p.examined ==> list[i].targets in excluded || list[i] in p.selected
  {
    if list != [] && need > 0 {
      var p := Pick(list, excluded, need);
      if list[0].targets in excluded {
        PickCovers(list[1..], excluded, need);
        forall i | 0 <= i < p.examined
          ensures list[i].targets in excluded || list[i] in p.selected
        {
          if i > 0 {
            assert list[i] == list[1..][i - 1];
          }
        }
      } else {
        PickCovers(list[1..], excluded, need - 1);
        forall i | 0 <= i < p.examined
          ensures list[i].targets in excluded || list[i] in p.selected
        {
          if i > 0 {
            assert list[i] == list[1..][i - 1];
          }
        }
      }
    }
  }

  lemma {:induction false} UnexcludedWithin(list: seq<Evaluation>, excluded: set<Key>)
    ensures var u := Unexcluded(list, excluded);
            && (forall e :: e in u <==> e in list && e.targets !in excluded)
            && (DistinctKeys(list) ==> DistinctKeys(u))
            && |u| <= |list|
  {
    if list != [] {
      var tail := list[1..];
      UnexcludedWithin(tail, excluded);
      assert list == [list[0]] + tail;
      if DistinctKeys(list) && list[0].targets !in excluded {
        assert DistinctKeys(tail);
        var u := Unexcluded(tail, excluded);
        assert list[0].targets !in KeySet(u);
        DistinctConcat([list[0]], u);
      }
    }
  }

  /** Rotating a list does not change how many of its members are unexcluded. */
  lemma {:induction false} UnexcludedConcat(a: seq<Evaluation>, b: seq<Evaluation>, excluded: set<Key>)
    ensures Unexcluded(a + b, excluded) == Unexcluded(a, excluded) + Unexcluded(b, excluded)
  {
    if a == [] {
      assert a + b == b;
    } else {
      assert (a + b)[1..] == a[1..] + b;
      UnexcludedConcat(a[1..], b, excluded);
    }
  }

  lemma UnexcludedRotate(evs: seq<Evaluation>, k: nat, excluded: set<Key>)
    requires k <= |evs|
    ensures |Unexcluded(Rotate(evs, k), excluded)| == |Unexcluded(evs, excluded)|
  {
    UnexcludedConcat(evs[k..], evs[..k], excluded);
    UnexcludedConcat(evs[..k], evs[k..], excluded);
    assert evs[..k] + evs[k..] == evs;
  }

  /** With distinct keys, excluding `k` of the list's own keys leaves all but `k` members. */
  lemma UnexcludedCount(evs: seq<Evaluation>, excluded: set<Key>)
    requires DistinctKeys(evs) && excluded <= KeySet(evs)
    ensures |Unexcluded(evs, excluded)| == |evs| - |excluded|
  {
    var u := Unexcluded(evs, excluded);
    UnexcludedWithin(evs, excluded);
    KeySetSize(evs);
    KeySetSize(u);
    assert KeySet(u) == KeySet(evs) - excluded;
  }

  lemma RotateDistinctKeys(evs: seq<Evaluation>, k: nat)
    requires k <= |evs| && DistinctKeys(evs)
    ensures DistinctKeys(Rotate(evs, k))
  {
  }

  lemma RotateMembers(evs: seq<Evaluation>, k: nat, e: Evaluation)
    requires k <= |evs|
    ensures e in Rotate(evs, k) <==> e in evs
  {
    assert e in Rotate(evs, k) <==> e in multiset(Rotate(evs, k));
    assert e in evs <==> e in multiset(evs);
  }

  /**
   Exactly when an exploration delivers what it was asked for: for any list, duplicates
   or not, iff enough of its members are unexcluded.
   */
  lemma ExploreLength(evs: seq<Evaluation>, excluded: set<Key>, count: int, cursor: Option<nat>)
    ensures var x := Explore(evs, excluded, count, cursor);
            && |x.selected| == Max(0, Min(count, |Unexcluded(evs, excluded)|))
            && (|x.selected| == Max(0, count) <==> count <= Max(0, |Unexcluded(evs, excluded)|))
  {
    if !(count <= 0 || evs == []) {
      var start := cursor.GetOr(0) % |evs|;
      PickIsPrefix(Rotate(evs, start), excluded, count);
      UnexcludedRotate(evs, start, excluded);
    }
  }

  /** What is selected comes from the list, avoids the excluded keys and repeats nothing. */
  lemma ExploreSound(evs: seq<Evaluation>, excluded: set<Key>, count: int, cursor: Option<nat>)
    ensures var x := Explore(evs, excluded, count, cursor).selected;
            && Within(x, evs)
            && KeySet(x) !! excluded
            && (DistinctKeys(evs) ==> DistinctKeys(x))
  {
    if !(count <= 0 || evs == []) {
      var start := cursor.GetOr(0) % |evs|;
      var rotated := Rotate(evs, start);
      PickIsPrefix(rotated, excluded, count);
      UnexcludedWithin(rotated, excluded);
      forall e | e in rotated
        ensures e in evs
      {
        RotateMembers(evs, start, e);
      }
      if DistinctKeys(evs) {
        RotateDistinctKeys(evs, start);
      }
    }
  }

  /** The member `d` places after cyclic position `c`. */
  function At(evs: seq<Evaluation>, c: nat, d: nat): Evaluation
    requires evs != []
  {
    evs[(c + d) % |evs|]
  }

  lemma RotatedAt(evs: seq<Evaluation>, start: nat, i: nat)
    requires start < |evs| && i < |evs|
    ensures Rotate(evs, start)[i] == At(evs, start, i)
  {
    RotateAt(evs, start, i);
  }

  /** The cursor moves by `Advance`, and by at least the number of members selected. */
  lemma ExploreMoves(evs: seq<Evaluation>, excluded: set<Key>, count: int, cursor: Option<nat>)
    requires evs != []
    ensures var x := Explore(evs, excluded, count, cursor);
            var adv := Advance(evs, excluded, count, cursor);
            && Congruent(x.cursor.GetOr(0), cursor.GetOr(0) + adv, |evs|)
            && |x.selected| <= adv
  {
    if count > 0 {
      var n, c := |evs|, cursor.GetOr(0);
      var p := Pick(Rotate(evs, c % n), excluded, count);
      PickCovers(Rotate(evs, c % n), excluded, count);
      ModShift(c, p.examined, n);
      ModIdempotent(c % n + p.examined, n);
    }
  }

  /** Every position the cursor passes holds a member that is excluded or selected. */
  lemma ExploreCovers(evs: seq<Evaluation>, excluded: set<Key>, count: int, cursor: Option<nat>, d: nat)
    requires evs != [] && d < Advance(evs, excluded, count, cursor)
    ensures var e := At(evs, cursor.GetOr(0), d);
            e.targets in excluded || e in Explore(evs, excluded, count, cursor).selected
  {
    var n, c := |evs|, cursor.GetOr(0);
    var start := c % n;
    PickCovers(Rotate(evs, start), excluded, count);
    RotateAt(evs, start, d);
    ModShift(c, d, n);
    assert At(evs, c, d) == Rotate(evs, start)[d];
  }

  // ---------- The walk in positions ----------

  /** The walk passed `p.examined` members and selected exactly the unexcluded ones, which stand at `at`. */
  ghost predicate Walked(list: seq<Evaluation>, excluded: set<Key>, p: Picked, at: seq<nat>) {
    && p.examined <= |list| && |at| == |p.selected|
    && (forall i :: 0 <= i < |at| ==> at[i] < p.examined && p.selected[i] == list[at[i]])
    && (forall i, j :: 0 <= i < j < |at| ==> at[i] < at[j])
    && (forall d :: 0 <= d < p.examined ==> (list[d].targets in excluded <==> d !in at))
  }

  lemma WalkSkips(list: seq<Evaluation>, excluded: set<Key>, p: Picked, at: seq<nat>)
    requires list != [] && list[0].targets in excluded && Walked(list[1..], excluded, p, at)
    ensures Walked(list, excluded, Picked(p.selected, p.examined + 1), Shifted(at))
  {
    forall d | 0 <= d < p.examined + 1
      ensures list[d].targets in excluded <==> d !in Shifted(at)
    {
      ShiftedMember(at, d);
      assert d > 0 ==> list[d] == list[1..][d - 1];
    }
  }

  lemma WalkTakes(list: seq<Evaluation>, excluded: set<Key>, p: Picked, at: seq<nat>)
    requires list != [] && list[0].targets !in excluded && Walked(list[1..], excluded, p, at)
    ensures Walked(list, excluded, Picked([list[0]] + p.selected, p.examined + 1), [0] + Shifted(at))
  {
    hide Shifted;
    var more := [0] + Shifted(at);
    forall d | 0 <= d < p.examined + 1
      ensures list[d].targets in excluded <==> d !in more
    {
      TakenMember(list, excluded, p, at, d);
    }
    forall i | 0 <= i < |more|
      ensures more[i] < p.examined + 1 && ([list[0]] + p.selected)[i] == list[more[i]]
      ensures forall j :: i < j < |more| ==> more[i] < more[j]
    {
      TakenPosition(list, excluded, p, at, i);
    }
  }

  lemma TakenMember(list: seq<Evaluation>, excluded: set<Key>, p: Picked, at: seq<nat>, d: nat)
    requires list != [] && list[0].targets !in excluded && Walked(list[1..], excluded, p, at)
    requires d < p.examined + 1
    ensures list[d].targets in excluded <==> d !in [0] + Shifted(at)
  {
    hide Shifted;
    ShiftedMember(at, d);
    assert d in [0] + Shifted(at) <==> d == 0 || d in Shifted(at);
    if d > 0 {
      assert list[d] == list[1..][d - 1];
    }
  }

  lemma TakenPosition(list: seq<Evaluation>, excluded: set<Key>, p: Picked, at: seq<nat>, i: nat)
    requires list != [] && list[0].targets !in excluded && Walked(list[1..], excluded, p, at)
    requires i < |at| + 1
    ensures var more := [0] + Shifted(at);
            && more[i] < p.examined + 1 && ([list[0]] + p.selected)[i] == list[more[i]]
            && forall j :: i < j < |more| ==> more[i] < more[j]
  {
    if i > 0 {
      assert p.selected[i - 1] == list[1..][at[i - 1]];
    }
  }

  lemma NothingWalked(list: seq<Evaluation>, excluded: set<Key>)
    ensures Walked(list, excluded, Picked([], 0), [])
  {
  }

  lemma WalkedAsMany(list: seq<Evaluation>, excluded: set<Key>, p: Picked, at: seq<nat>)
    requires Walked(list, excluded, p, at)
    ensures |at| == |p.selected|
  {
  }

  /** The walk stops behind the last member it needs, or at the end of the list. */
  lemma {:induction false} PickPositions(list: seq<Evaluation>, excluded: set<Key>, need: nat) returns (at: seq<nat>)
    ensures var p := Pick(list, excluded, need);
            && Walked(list, excluded, p, at)
            && (|at| < need ==> p.examined == |list|)
            && (|at| == need > 0 ==> p.examined == at[need - 1] + 1)
            && (need == 0 ==> p.examined == 0)
  {
    hide Walked;
    if list == [] || need == 0 {
      at := [];
      NothingWalked(list, excluded);
    } else if list[0].targets in excluded {
      var later := PickPositions(list[1..], excluded, need);
      WalkSkips(list, excluded, Pick(list[1..], excluded, need), later);
      at := Shifted(later);
    } else {
      var later := PickPositions(list[1..], excluded, need - 1);
      WalkTakes(list, excluded, Pick(list[1..], excluded, need - 1), later);
      at := [0] + Shifted(later);
    }
  }

  function Shifted(at: seq<nat>): (r: seq<nat>)
    ensures |r| == |at| && forall i :: 0 <= i < |at| ==> r[i] == at[i] + 1
  {
    seq(|at|, i requires 0 <= i < |at| => at[i] + 1)
  }

  lemma ShiftedMember(at: seq<nat>, d: nat)
    ensures d in Shifted(at) <==> d > 0 && d - 1 in at
  {
    if d > 0 && d - 1 in at {
      var i :| 0 <= i < |at| && at[i] == d - 1;
      assert Shifted(at)[i] == d;
    }
  }

  /**
   An exploration reads the list cyclically from its cursor: it selects, in that order, the members whose
   targets are not excluded, skips the others, stops behind the last one it needs or after a full turn,
   and leaves the cursor where it stopped.
   */
  lemma ExplorationWalk(evs: seq<Evaluation>, excluded: set<Key>, count: nat, cursor: Option<nat>)
    returns (at: seq<nat>, examined: nat)
    requires evs != [] && count > 0
    ensures var x, n := Explore(evs, excluded, count, cursor), |evs|;
            var c := if cursor.Some? then cursor.value else 0;
            && |at| == |x.selected| <= count && examined <= n
            && (forall i :: 0 <= i < |at| ==> at[i] < examined && x.selected[i] == evs[(c + at[i]) % n])
            && (forall i, j :: 0 <= i < j < |at| ==> at[i] < at[j])
            && (forall d :: 0 <= d < examined ==> (evs[(c + d) % n].targets in excluded <==> d !in at))
            && (|at| < count ==> examined == n)
            && (|at| == count ==> examined == at[count - 1] + 1)
            && x.cursor == Some((c + examined) % n)
  {
    hide Walked, Pick, Rotate;
    var n, c := |evs|, cursor.GetOr(0);
    var rotated := Rotate(evs, c % n);
    var p := Pick(rotated, excluded, count);
    at := PickPositions(rotated, excluded, count);
    examined := p.examined;
    WalkedCyclically(evs, c, excluded, p, at);
    ModShift(c, examined, n);
  }

  lemma WalkedCyclically(evs: seq<Evaluation>, c: nat, excluded: set<Key>, p: Picked, at: seq<nat>)
    requires evs != [] && Walked(Rotate(evs, c % |evs|), excluded, p, at)
    ensures var n := |evs|;
            && |at| == |p.selected| && p.examined <= n
            && (forall i :: 0 <= i < |at| ==> at[i] < p.examined && p.selected[i] == evs[(c + at[i]) % n])
            && (forall i, j :: 0 <= i < j < |at| ==> at[i] < at[j])
            && (forall d :: 0 <= d < p.examined ==> (evs[(c + d) % n].targets in excluded <==> d !in at))
  {
    hide Rotate;
    var n := |evs|;
    var rotated := Rotate(evs, c % n);
    forall d | 0 <= d < n
      ensures rotated[d] == evs[(c + d) % n]
    {
      RotateAt(evs, c % n, d);
      ModShift(c, d, n);
    }
  }

  lemma NothingToExplore(evs: seq<Evaluation>, excluded: set<Key>, count: int, cursor: Option<nat>)
    requires evs == [] || count <= 0
    ensures Explore(evs, excluded, count, cursor) == Exploration([], cursor)
  {
  }
}
