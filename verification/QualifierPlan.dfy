/** Splitting a qualification dwell over weighted segments. */
module QualifierPlan {
  import opened MachineInts

  function Sum(s: seq<nat>): nat
  {
    if s == [] then 0 else Sum(s[..|s| - 1]) + s[|s| - 1]
  }

  lemma SumSnoc(s: seq<nat>, x: nat)
    ensures Sum(s + [x]) == Sum(s) + x
  {
    assert (s + [x])[..|s|] == s;
  }

  lemma SumTo(s: seq<nat>, i: nat)
    requires i < |s|
    ensures Sum(s[..i + 1]) == Sum(s[..i]) + s[i]
  {
    assert s[..i + 1][..i] == s[..i];
  }

  lemma {:induction false} SumPrefix(s: seq<nat>, i: nat)
    requires i <= |s|
    ensures Sum(s[..i]) <= Sum(s)
    decreases |s| - i
  {
    if i < |s| {
      SumTo(s, i);
      SumPrefix(s, i + 1);
    } else {
      assert s[..i] == s;
    }
  }

  // Every segment but the last gets its floored share, computed with a saturating product.
  function Share(target: u64, weight: nat, total: nat): nat
    requires total > 0 && weight <= U64_MAX
  {
    SatMul64(target, weight) / total
  }

  lemma SharesInNumbers(target: u64, weights: seq<nat>, durations: seq<nat>, total: nat)
    requires total > 0 && |durations| <= |weights|
    requires forall i :: 0 <= i < |durations| ==>
               weights[i] <= U64_MAX && durations[i] == Share(target, weights[i], total)
    ensures forall i :: 0 <= i < |durations| ==>
              durations[i] == Min(target * weights[i], 0xffff_ffff_ffff_ffff) / total
  {
  }

  ghost predicate NoSaturation(target: u64, weights: seq<nat>)
  {
    forall i :: 0 <= i < |weights| ==> target * weights[i] <= U64_MAX
  }

  lemma ShareBounds(target: u64, weight: nat, total: nat)
    requires total > 0 && weight <= U64_MAX
    ensures 0 <= Share(target, weight, total) * total <= target * weight
    ensures target * weight <= U64_MAX ==> target * weight <= Share(target, weight, total) * total + total - 1
  {
    ProductBound(target, weight, target, weight);
    var p := SatMul64(target, weight);
    assert p == total * (p / total) + p % total;
  }

  // Time handed out so far, compared with the exact proportional time.
  ghost predicate OnSchedule(target: u64, weights: seq<nat>, durations: seq<nat>, total: nat)
    requires |durations| <= |weights|
  {
    && Sum(durations) * total <= target * Sum(weights[..|durations|])
    && (NoSaturation(target, weights)
        ==> target * Sum(weights[..|durations|]) <= Sum(durations) * total + |durations| * (total - 1))
  }

  lemma ScheduleStep(target: u64, weights: seq<nat>, durations: seq<nat>, total: nat)
    requires |durations| < |weights| && total > 0 && weights[|durations|] <= U64_MAX
    requires OnSchedule(target, weights, durations, total)
    ensures OnSchedule(target, weights, durations + [Share(target, weights[|durations|], total)], total)
  {
    var i := |durations|;
    var d, share := Sum(durations), Share(target, weights[i], total);
    ShareBounds(target, weights[i], total);
    SumTo(weights, i);
    SumSnoc(durations, share);
    Distribute(target, Sum(weights[..i]), weights[i]);
    Distribute(total, d, share);
    Distribute(total - 1, i, 1);
    if NoSaturation(target, weights) {
      assert target * weights[i] <= U64_MAX;
    }
  }

  lemma Distribute(k: int, a: int, b: int)
    ensures k * (a + b) == k * a + k * b
    ensures (a + b) * k == a * k + b * k
  {
  }

  method VfQualifierPlan(target: u64, weights: seq<nat>) returns (durations: seq<nat>)
    requires weights != [] && 0 < Sum(weights) <= U64_MAX
    ensures |durations| == |weights| && Sum(durations) == target
    ensures forall i :: 0 <= i < |weights| - 1 ==>
              0 <= weights[i] <= U64_MAX
              && durations[i] == Min(target * weights[i], 0xffff_ffff_ffff_ffff) / Sum(weights)
    ensures var n := |weights| - 1;
            && target * weights[n] <= durations[n] * Sum(weights)
            && (NoSaturation(target, weights) ==>
                  durations[n] * Sum(weights) <= target * weights[n] + n * (Sum(weights) - 1))
  {
    var total := Sum(weights);
    var n := |weights| - 1;
    var handedOut: u64 := 0;
    durations := [];
    assert weights[..0] == [];
    for i := 0 to n
      invariant |durations| == i && handedOut == Sum(durations) <= target
      invariant OnSchedule(target, weights, durations, total)
      invariant forall j :: 0 <= j < i ==>
                  0 <= weights[j] <= U64_MAX && durations[j] == Share(target, weights[j], total)
    {
      SumPrefix(weights, i + 1);
      SumTo(weights, i);
      ScheduleStep(target, weights, durations, total);
      var duration := SatMul64(target, weights[i]) / total;
      SumSnoc(durations, duration);
      durations := durations + [duration];
      NeverOverspent(target, weights, durations, total);
      handedOut := SatAdd64(handedOut, duration);
    }
    WholePlan(target, weights, durations, total);
    durations := durations + [SatSub(target, handedOut)];
  }

  // The last segment takes what the others left.
  lemma WholePlan(target: u64, weights: seq<nat>, durations: seq<nat>, total: nat)
    requires |durations| == |weights| - 1 && total == Sum(weights) > 0 && Sum(durations) <= target
    requires OnSchedule(target, weights, durations, total)
    requires forall i :: 0 <= i < |durations| ==>
               weights[i] <= U64_MAX && durations[i] == Share(target, weights[i], total)
    ensures var n, last := |weights| - 1, target - Sum(durations);
            && Sum(durations + [last]) == target
            && (forall i :: 0 <= i < n ==> durations[i] == Min(target * weights[i], 0xffff_ffff_ffff_ffff) / total)
            && target * weights[n] <= last * total
            && (NoSaturation(target, weights) ==> last * total <= target * weights[n] + n * (total - 1))
  {
    var n := |weights| - 1;
    SumTo(weights, n);
    assert weights[..n + 1] == weights;
    LastShare(target, Sum(weights[..n]), weights[n], Sum(durations), total, n);
    SumSnoc(durations, target - Sum(durations));
    SharesInNumbers(target, weights, durations, total);
  }

  lemma NeverOverspent(target: u64, weights: seq<nat>, durations: seq<nat>, total: nat)
    requires |durations| <= |weights| && total > 0 && total == Sum(weights)
    requires OnSchedule(target, weights, durations, total)
    ensures Sum(durations) <= target
  {
    SumPrefix(weights, |durations|);
    ProductBound(target, Sum(weights[..|durations|]), target, total);
    CancelGe(target, Sum(durations), total);
  }

  // What is left for the last segment, given what the others were handed.
  lemma LastShare(target: int, before: int, last: int, spent: int, total: int, n: int)
    requires total == before + last
    ensures spent * total <= target * before ==> target * last <= (target - spent) * total
    ensures target * before <= spent * total + n * (total - 1)
            ==> (target - spent) * total <= target * last + n * (total - 1)
  {
    Distribute(target, before, last);
    assert (target - spent) * total == target * total - spent * total;
  }
}
