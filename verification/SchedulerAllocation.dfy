/**
 Weighted round-robin division of the cycle's budget (engine.py, the allocation loops of
 _select_evaluation_window). Position `i` of every sequence is the i-th visited route:
 `limits[i]` its cap, `weights[i]` its weight, `slots[i]` what it has been given.
 */
module SchedulerAllocation {
  import opened Collections

  /** What one visit gives a route: up to its weight, its cap and the remaining budget. */
  function Grant(limit: nat, weight: nat, slot: nat, left: nat): nat {
    Max(0, Min(weight, Min(limit - slot, left)))
  }

  /** One pass over the routes from position `i`, stopping as soon as the budget is spent. */
  function Visit(limits: seq<nat>, weights: seq<nat>, count: nat, slots: seq<nat>, i: nat): (r: seq<nat>)
    requires |limits| == |weights| == |slots| && i <= |slots|
    ensures |r| == |slots|
    decreases |slots| - i
  {
    if i == |slots| || Sum(slots) >= count then slots
    else
      var give := Grant(limits[i], weights[i], slots[i], count - Sum(slots));
      Visit(limits, weights, count, slots[i := slots[i] + give], i + 1)
  }

  /** A visit only adds slots, never past the budget or a cap. */
  lemma {:induction false} VisitBounds(limits: seq<nat>, weights: seq<nat>, count: nat, slots: seq<nat>, i: nat)
    requires |limits| == |weights| == |slots| && i <= |slots|
    requires Sum(slots) <= count
    requires forall j :: 0 <= j < |slots| ==> slots[j] <= limits[j]
    ensures var r := Visit(limits, weights, count, slots, i);
            && Sum(slots) <= Sum(r) <= count
            && forall j :: 0 <= j < |slots| ==> slots[j] <= r[j] <= limits[j]
    decreases |slots| - i
  {
    if i < |slots| && Sum(slots) < count {
      var give := Grant(limits[i], weights[i], slots[i], count - Sum(slots));
      SumUpdate(slots, i, slots[i] + give);
      VisitBounds(limits, weights, count, slots[i := slots[i] + give], i + 1);
    }
  }

  /** Passes until the budget is spent or a pass gives nothing. */
  function Rounds(limits: seq<nat>, weights: seq<nat>, count: nat, slots: seq<nat>): (r: seq<nat>)
    requires |limits| == |weights| == |slots|
    requires Sum(slots) <= count
    requires forall j :: 0 <= j < |slots| ==> slots[j] <= limits[j]
    ensures |r| == |slots|
    decreases count - Sum(slots)
  {
    VisitBounds(limits, weights, count, slots, 0);
    var next := Visit(limits, weights, count, slots, 0);
    if Sum(slots) >= count || Sum(next) == Sum(slots) then slots
    else Rounds(limits, weights, count, next)
  }

  function Zeros(n: nat): (z: seq<nat>)
    ensures |z| == n && Sum(z) == 0
    ensures forall i :: 0 <= i < n ==> z[i] == 0
  {
    if n == 0 then []
    else
      SumAppend(Zeros(n - 1), 0);
      Zeros(n - 1) + [0]
  }

  function Allocate(limits: seq<nat>, weights: seq<nat>, count: nat): (r: seq<nat>)
    requires |limits| == |weights|
    ensures |r| == |limits|
  {
    Rounds(limits, weights, count, Zeros(|limits|))
  }

  // ---------- The budget is spent exactly ----------

  /** A pass that gives nothing with budget left has found every route at its cap. */
  lemma {:induction false} StuckMeansFull(limits: seq<nat>, weights: seq<nat>, count: nat, slots: seq<nat>, i: nat)
    requires |limits| == |weights| == |slots| && i <= |slots|
    requires forall j :: 0 <= j < |slots| ==> slots[j] <= limits[j] && weights[j] >= 1
    requires Sum(slots) < count && Sum(Visit(limits, weights, count, slots, i)) == Sum(slots)
    ensures forall j :: i <= j < |slots| ==> slots[j] == limits[j]
    decreases |slots| - i
  {
    if i < |slots| {
      var give := Grant(limits[i], weights[i], slots[i], count - Sum(slots));
      var next := slots[i := slots[i] + give];
      SumUpdate(slots, i, slots[i] + give);
      VisitBounds(limits, weights, count, next, i + 1);
      assert give == 0 && next == slots;
      StuckMeansFull(limits, weights, count, slots, i + 1);
    }
  }

  lemma {:induction false} RoundsExact(limits: seq<nat>, weights: seq<nat>, count: nat, slots: seq<nat>)
    requires |limits| == |weights| == |slots|
    requires Sum(slots) <= count
    requires forall j :: 0 <= j < |slots| ==> slots[j] <= limits[j] && weights[j] >= 1
    ensures var r := Rounds(limits, weights, count, slots);
            && Sum(r) == Min(count, Sum(limits))
            && forall j :: 0 <= j < |slots| ==> slots[j] <= r[j] <= limits[j]
    decreases count - Sum(slots)
  {
    VisitBounds(limits, weights, count, slots, 0);
    var next := Visit(limits, weights, count, slots, 0);
    SumMonotone(slots, limits);
    if Sum(slots) < count {
      if Sum(next) == Sum(slots) {
        StuckMeansFull(limits, weights, count, slots, 0);
        assert slots == limits;
      } else {
        RoundsExact(limits, weights, count, next);
      }
    }
  }

  /** Work conservation: exactly min(budget, total capacity) slots, no route above its cap. */
  lemma AllocateExact(limits: seq<nat>, weights: seq<nat>, count: nat)
    requires |limits| == |weights|
    requires forall j :: 0 <= j < |weights| ==> weights[j] >= 1
    ensures var r := Allocate(limits, weights, count);
            Sum(r) == Min(count, Sum(limits)) && forall j :: 0 <= j < |r| ==> r[j] <= limits[j]
  {
    RoundsExact(limits, weights, count, Zeros(|limits|));
  }

  // ---------- The route visited first always gets a slot ----------

  lemma {:induction false} RoundsGrow(limits: seq<nat>, weights: seq<nat>, count: nat, slots: seq<nat>, j: nat)
    requires |limits| == |weights| == |slots| && j < |slots|
    requires Sum(slots) <= count
    requires forall j :: 0 <= j < |slots| ==> slots[j] <= limits[j]
    ensures slots[j] <= Rounds(limits, weights, count, slots)[j]
    decreases count - Sum(slots)
  {
    VisitBounds(limits, weights, count, slots, 0);
    var next := Visit(limits, weights, count, slots, 0);
    if Sum(slots) < count && Sum(next) != Sum(slots) {
      RoundsGrow(limits, weights, count, next, j);
    }
  }

  lemma FirstVisitServes(limits: seq<nat>, weights: seq<nat>, count: nat, slots: seq<nat>)
    requires |limits| == |weights| == |slots| && slots != []
    requires Sum(slots) < count && slots[0] < limits[0] && weights[0] >= 1
    requires forall j :: 0 <= j < |slots| ==> slots[j] <= limits[j]
    ensures var next := Visit(limits, weights, count, slots, 0);
            next[0] > slots[0] && Sum(slots) < Sum(next) <= count && forall j :: 0 <= j < |slots| ==>
                                                                      next[j] <= limits[j]
  {
    var give := Grant(limits[0], weights[0], slots[0], count - Sum(slots));
    SumUpdate(slots, 0, slots[0] + give);
    VisitBounds(limits, weights, count, slots[0 := slots[0] + give], 1);
  }

  lemma FirstRouteServed(limits: seq<nat>, weights: seq<nat>, count: nat)
    requires |limits| == |weights| && limits != []
    requires count >= 1 && limits[0] >= 1 && weights[0] >= 1
    ensures Allocate(limits, weights, count)[0] >= 1
  {
    var zeros := Zeros(|limits|);
    FirstVisitServes(limits, weights, count, zeros);
    RoundsGrow(limits, weights, count, Visit(limits, weights, count, zeros, 0), 0);
  }

  // ---------- Weighted fairness ----------

  /** `k` visits of weight `w`, added up one by one. */
  function Times(k: nat, w: nat): nat {
    if k == 0 then 0 else Times(k - 1, w) + w
  }

  lemma {:induction false} TimesIsProduct(k: nat, w: nat)
    ensures Times(k, w) == k * w
  {
    if k > 0 {
      TimesIsProduct(k - 1, w);
      assert k * w == (k - 1) * w + w;
    }
  }

  ghost predicate SlotFair(limit: nat, weight: nat, slot: nat, upper: nat, lower: nat) {
    slot <= Times(upper, weight) && (slot >= limit || slot >= Times(lower, weight))
  }

  /** Routes before position `i` have been visited k + 1 times, the others k times. */
  ghost predicate Balanced(limits: seq<nat>, weights: seq<nat>, slots: seq<nat>, k: nat, i: nat)
    requires |limits| == |weights| == |slots|
  {
    && (forall j :: 0 <= j < |slots| && j < i ==> SlotFair(limits[j], weights[j], slots[j], k + 1, k + 1))
    && (forall j :: i <= j < |slots| ==> SlotFair(limits[j], weights[j], slots[j], k, k))
  }

  /** The pass after `k` full ones was cut short by the budget at position `i`. */
  ghost predicate CutAt(limits: seq<nat>, weights: seq<nat>, slots: seq<nat>, k: nat, i: nat)
    requires |limits| == |weights| == |slots|
  {
    && (forall j :: 0 <= j < |slots| && j < i ==> SlotFair(limits[j], weights[j], slots[j], k + 1, k + 1))
    && (forall j :: i < j < |slots| ==> SlotFair(limits[j], weights[j], slots[j], k, k))
    && (i < |slots| ==> SlotFair(limits[i], weights[i], slots[i], k + 1, k))
  }

  lemma BalancedIsCut(limits: seq<nat>, weights: seq<nat>, slots: seq<nat>, k: nat, i: nat)
    requires |limits| == |weights| == |slots|
    requires Balanced(limits, weights, slots, k, i)
    ensures CutAt(limits, weights, slots, k, i)
  {
    if i < |slots| {
      assert Times(k + 1, weights[i]) == Times(k, weights[i]) + weights[i];
    }
  }

  /** Wherever it was cut, no route is more than one visit ahead of another that stays below its cap. */
  lemma CutBounds(limits: seq<nat>, weights: seq<nat>, slots: seq<nat>, k: nat, i: nat, j: nat)
    requires |limits| == |weights| == |slots| && j < |slots|
    requires CutAt(limits, weights, slots, k, i)
    ensures SlotFair(limits[j], weights[j], slots[j], k + 1, k)
  {
    assert Times(k + 1, weights[j]) == Times(k, weights[j]) + weights[j];
  }

  /** A visit that is not cut short brings its route to the next visit count. */
  lemma BalancedStep(limits: seq<nat>, weights: seq<nat>, slots: seq<nat>, k: nat, i: nat, left: nat)
    requires |limits| == |weights| == |slots| && i < |slots| && slots[i] <= limits[i]
    requires Balanced(limits, weights, slots, k, i)
    requires Grant(limits[i], weights[i], slots[i], left) < left
    ensures Balanced(limits, weights, slots[i := slots[i] + Grant(limits[i], weights[i], slots[i], left)], k, i + 1)
  {
    assert Times(k + 1, weights[i]) == Times(k, weights[i]) + weights[i];
    assert SlotFair(limits[i], weights[i], slots[i], k, k);
  }

  /** A visit cut short by the budget leaves the cut at its position. */
  lemma CutStep(limits: seq<nat>, weights: seq<nat>, slots: seq<nat>, k: nat, i: nat, left: nat)
    requires |limits| == |weights| == |slots| && i < |slots| && slots[i] <= limits[i]
    requires Balanced(limits, weights, slots, k, i)
    ensures CutAt(limits, weights, slots[i := slots[i] + Grant(limits[i], weights[i], slots[i], left)], k, i)
  {
    assert Times(k + 1, weights[i]) == Times(k, weights[i]) + weights[i];
    assert SlotFair(limits[i], weights[i], slots[i], k, k);
  }

  lemma FullRound(limits: seq<nat>, weights: seq<nat>, slots: seq<nat>, k: nat)
    requires |limits| == |weights| == |slots|
    requires Balanced(limits, weights, slots, k, |slots|)
    ensures Balanced(limits, weights, slots, k + 1, 0)
  {
  }

  lemma {:induction false} VisitCut(limits: seq<nat>, weights: seq<nat>, count: nat, slots: seq<nat>, k: nat,
                                    i: nat) returns (c: nat)
    requires |limits| == |weights| == |slots| && i <= |slots|
    requires Sum(slots) <= count
    requires Balanced(limits, weights, slots, k, i)
    requires forall j :: 0 <= j < |slots| ==> slots[j] <= limits[j]
    ensures var r := Visit(limits, weights, count, slots, i);
            CutAt(limits, weights, r, k, c) && (Sum(r) < count ==> Balanced(limits, weights, r, k + 1, 0))
    decreases |slots| - i
  {
    hide Balanced, CutAt;
    BalancedIsCut(limits, weights, slots, k, i);
    c := i;
    if i < |slots| && Sum(slots) < count {
      var left := count - Sum(slots);
      var give := Grant(limits[i], weights[i], slots[i], left);
      var next := slots[i := slots[i] + give];
      SumUpdate(slots, i, slots[i] + give);
      if give < left {
        BalancedStep(limits, weights, slots, k, i, left);
        c := VisitCut(limits, weights, count, next, k, i + 1);
      } else {
        CutStep(limits, weights, slots, k, i, left);
        assert Visit(limits, weights, count, next, i + 1) == next;
      }
    } else if i == |slots| {
      FullRound(limits, weights, slots, k);
    }
  }

  lemma {:induction false} RoundsCut(limits: seq<nat>, weights: seq<nat>, count: nat, slots: seq<nat>, k: nat,
                                     c: nat) returns (rounds: nat, cut: nat)
    requires |limits| == |weights| == |slots|
    requires Sum(slots) <= count
    requires forall j :: 0 <= j < |slots| ==> slots[j] <= limits[j]
    requires CutAt(limits, weights, slots, k, c) && (Sum(slots) < count ==> Balanced(limits, weights, slots, k, 0))
    ensures CutAt(limits, weights, Rounds(limits, weights, count, slots), rounds, cut)
    decreases count - Sum(slots)
  {
    VisitBounds(limits, weights, count, slots, 0);
    var next := Visit(limits, weights, count, slots, 0);
    if Sum(slots) >= count || Sum(next) == Sum(slots) {
      rounds, cut := k, c;
    } else {
      var d := VisitCut(limits, weights, count, slots, k, 0);
      if Sum(next) < count {
        BalancedIsCut(limits, weights, next, k + 1, 0);
        rounds, cut := RoundsCut(limits, weights, count, next, k + 1, 0);
      } else {
        assert Rounds(limits, weights, count, next) == next;
        rounds, cut := k, d;
      }
    }
  }

  lemma AllocateCut(limits: seq<nat>, weights: seq<nat>, count: nat) returns (k: nat, i: nat)
    requires |limits| == |weights|
    ensures CutAt(limits, weights, Allocate(limits, weights, count), k, i)
  {
    hide Rounds, Balanced, CutAt;
    var zeros := Zeros(|limits|);
    ZerosBalanced(limits, weights);
    BalancedIsCut(limits, weights, zeros, 0, 0);
    k, i := RoundsCut(limits, weights, count, zeros, 0, 0);
  }

  /**
   The allocation is exactly this: after k full passes a pass ends at route i. A route before i has k + 1 times
   its weight, a route behind i has k times its weight, each but for its cap, and route i is in between.
   */
  lemma AllocateIs(limits: seq<nat>, weights: seq<nat>, count: nat) returns (k: nat, i: nat)
    requires |limits| == |weights|
    requires forall j :: 0 <= j < |weights| ==> weights[j] >= 1
    ensures var r := Allocate(limits, weights, count);
            && (forall j :: 0 <= j < |r| && j < i ==> r[j] == Min(limits[j], (k + 1) * weights[j]))
            && (forall j :: i < j < |r| ==> r[j] == Min(limits[j], k * weights[j]))
            && (i < |r| ==> Min(limits[i], k * weights[i]) <= r[i] <= Min(limits[i], (k + 1) * weights[i]))
  {
    hide Allocate, CutAt;
    var r := Allocate(limits, weights, count);
    AllocateExact(limits, weights, count);
    k, i := AllocateCut(limits, weights, count);
    forall j | 0 <= j < |r|
      ensures j < i ==> r[j] == Min(limits[j], (k + 1) * weights[j])
      ensures j > i ==> r[j] == Min(limits[j], k * weights[j])
      ensures Min(limits[j], k * weights[j]) <= r[j] <= Min(limits[j], (k + 1) * weights[j])
    {
      CutSlot(limits, weights, r, k, i, j);
    }
  }

  lemma CutSlot(limits: seq<nat>, weights: seq<nat>, slots: seq<nat>, k: nat, i: nat, j: nat)
    requires |limits| == |weights| == |slots| && j < |slots| && slots[j] <= limits[j]
    requires CutAt(limits, weights, slots, k, i)
    ensures j < i ==> slots[j] == Min(limits[j], (k + 1) * weights[j])
    ensures j > i ==> slots[j] == Min(limits[j], k * weights[j])
    ensures Min(limits[j], k * weights[j]) <= slots[j] <= Min(limits[j], (k + 1) * weights[j])
  {
    CutBounds(limits, weights, slots, k, i, j);
    TimesIsProduct(k, weights[j]);
    TimesIsProduct(k + 1, weights[j]);
  }

  /**
   Weighted fairness: if route r stays below its own cap, every other route s gets at most
   weight(s) * (slots(r) / weight(r) + 1) slots.
   */
  lemma AllocateFair(limits: seq<nat>, weights: seq<nat>, count: nat, r: nat, s: nat)
    requires |limits| == |weights| && r < |limits| && s < |limits|
    requires forall j :: 0 <= j < |weights| ==> weights[j] >= 1
    ensures var slots := Allocate(limits, weights, count);
            slots[r] < limits[r] ==> slots[s] <= weights[s] * (slots[r] / weights[r] + 1)
  {
    hide Allocate, CutAt;
    var slots := Allocate(limits, weights, count);
    var k, i := AllocateCut(limits, weights, count);
    CutBounds(limits, weights, slots, k, i, r);
    CutBounds(limits, weights, slots, k, i, s);
    if slots[r] < limits[r] {
      FairBound(weights[r], slots[r], weights[s], slots[s], k);
    }
  }

  lemma ZerosBalanced(limits: seq<nat>, weights: seq<nat>)
    requires |limits| == |weights|
    ensures Balanced(limits, weights, Zeros(|limits|), 0, 0)
  {
  }

  lemma FairBound(w: nat, a: nat, v: nat, b: nat, k: nat)
    requires w >= 1 && a >= Times(k, w) && b <= Times(k + 1, v)
    ensures b <= v * (a / w + 1)
  {
    TimesIsProduct(k, w);
    TimesIsProduct(k + 1, v);
    QuotientAtLeast(a, w, k);
    ProductMonotone(k + 1, a / w + 1, v);
  }

  lemma ProductMonotone(a: nat, b: nat, w: nat)
    requires a <= b
    ensures a * w <= w * b
  {
    assert w * b == a * w + (b - a) * w;
  }

  lemma QuotientAtLeast(a: nat, w: nat, k: nat)
    requires w >= 1 && k * w <= a
    ensures k <= a / w
  {
    var q := a / w;
    assert a == q * w + a % w;
    assert (q + 1) * w == q * w + w;
    if q < k {
      ProductMonotone(q + 1, k, w);
    }
  }
}
