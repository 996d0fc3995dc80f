/** Points of tuning space, their Chebyshev distance, and blacklisted regions. */
module TuningSpace {
  import opened MachineInts

  // Axis name -> setting; a missing axis is neutral.
  datatype TuningPoint = TuningPoint(axes: map<string, i64>)

  const STOCK: TuningPoint := TuningPoint(map[])

  function Axis(p: TuningPoint, k: string): i64 { if k in p.axes then p.axes[k] else 0 }

  // Over the integers, or as 64-bit arithmetic without overflow checks computes it.
  datatype Arithmetic = Exact | Wrapping

  function Gap(m: Arithmetic, p: TuningPoint, q: TuningPoint, k: string): (g: int)
    ensures m == Exact ==> g >= 0
  {
    match m
    case Exact => if Axis(p, k) >= Axis(q, k) then Axis(p, k) - Axis(q, k) else Axis(q, k) - Axis(p, k)
    case Wrapping => WrappedAbs(WrapI64(Axis(p, k) - Axis(q, k)))
  }

  // The absolute value of the smallest word is that word.
  function WrappedAbs(d: int): int { if d < 0 then WrapI64(0 - d) else d }

  lemma WrapFar(d: int)
    requires 0 - TWO_64 < d < TWO_64
    ensures WrapI64(d) == if d >= TWO_63 then d - TWO_64 else if d < 0 - TWO_63 then d + TWO_64 else d
  {
  }

  lemma AbsOfWord(x: int)
    requires -TWO_63 <= x < TWO_63
    ensures WrappedAbs(x) == if -TWO_63 < x < 0 then -x else x
  {
    WrapFar(-x);
  }

  lemma AbsOfWrapped(d: int)
    requires 0 - TWO_64 < d < TWO_64
    ensures 0 - TWO_63 < d < TWO_63 ==> WrappedAbs(WrapI64(d)) == if d < 0 then -d else d
    ensures !(0 - TWO_63 < d < TWO_63) ==> WrappedAbs(WrapI64(d)) < TWO_63
    ensures WrappedAbs(WrapI64(d)) == WrappedAbs(WrapI64(-d))
  {
    WrapFar(d);
    WrapFar(-d);
    AbsOfWord(WrapI64(d));
    AbsOfWord(WrapI64(-d));
  }

  // A computed gap never exceeds the true one, and differs from it exactly from 2^63 on.
  lemma GapExactIff(p: TuningPoint, q: TuningPoint, k: string)
    ensures Gap(Wrapping, p, q, k) <= Gap(Exact, p, q, k)
    ensures Gap(Wrapping, p, q, k) == Gap(Exact, p, q, k) <==> Gap(Exact, p, q, k) < TWO_63
    ensures Gap(Wrapping, p, q, k) == Gap(Wrapping, q, p, k)
  {
    AbsOfWrapped(Axis(p, k) - Axis(q, k));
  }

  ghost predicate IsLargestGap(m: Arithmetic, p: TuningPoint, q: TuningPoint, keys: set<string>, d: nat)
  {
    && (forall k :: k in keys ==> Gap(m, p, q, k) <= d)
    && (d == 0 || exists k :: k in keys && Gap(m, p, q, k) == d)
  }

  function Raised(m: Arithmetic, p: TuningPoint, q: TuningPoint, d: nat, k: string): nat
  {
    if Gap(m, p, q, k) > d then Gap(m, p, q, k) else d
  }

  ghost function LargestGap(m: Arithmetic, p: TuningPoint, q: TuningPoint, keys: set<string>): nat
  {
    if keys == {} then 0
    else
      var k :| k in keys;
      var d := LargestGap(m, p, q, keys - {k});
      Raised(m, p, q, d, k)
  }

  lemma OneMoreAxis(m: Arithmetic, p: TuningPoint, q: TuningPoint, keys: set<string>, k: string, d: nat)
    requires IsLargestGap(m, p, q, keys, d)
    ensures IsLargestGap(m, p, q, keys + {k}, Raised(m, p, q, d, k))
  {
    assert k in keys + {k};
  }

  lemma {:induction false} LargestGapIsLargest(m: Arithmetic, p: TuningPoint, q: TuningPoint, keys: set<string>)
    ensures IsLargestGap(m, p, q, keys, LargestGap(m, p, q, keys))
  {
    if keys != {} {
      var k :| k in keys && LargestGap(m, p, q, keys) == Raised(m, p, q, LargestGap(m, p, q, keys - {k}), k);
      LargestGapIsLargest(m, p, q, keys - {k});
      OneMoreAxis(m, p, q, keys - {k}, k, LargestGap(m, p, q, keys - {k}));
      assert keys - {k} + {k} == keys;
    }
  }

  // L-infinity distance over the axes either point mentions.
  ghost function Dist(m: Arithmetic, p: TuningPoint, q: TuningPoint): nat
  {
    LargestGap(m, p, q, p.axes.Keys + q.axes.Keys)
  }

  lemma GapWithinDist(m: Arithmetic, p: TuningPoint, q: TuningPoint, k: string)
    ensures Gap(m, p, q, k) <= Dist(m, p, q)
  {
    if k in p.axes.Keys + q.axes.Keys {
      LargestGapIsLargest(m, p, q, p.axes.Keys + q.axes.Keys);
    }
  }

  lemma DistAttained(m: Arithmetic, p: TuningPoint, q: TuningPoint) returns (k: string)
    ensures Dist(m, p, q) == Gap(m, p, q, k) || Dist(m, p, q) == 0
  {
    var d := Dist(m, p, q);
    LargestGapIsLargest(m, p, q, p.axes.Keys + q.axes.Keys);
    if d > 0 {
      k :| k in p.axes.Keys + q.axes.Keys && Gap(m, p, q, k) == d;
    } else {
      k := "";
    }
  }

  // The computed distance is the true one exactly when that fits 64 bits; it is never larger.
  lemma DistExactIff(p: TuningPoint, q: TuningPoint)
    ensures Dist(Wrapping, p, q) <= Dist(Exact, p, q) && Dist(Wrapping, p, q) < TWO_63
    ensures Dist(Wrapping, p, q) == Dist(Exact, p, q) <==> Dist(Exact, p, q) < TWO_63
  {
    var k := DistAttained(Exact, p, q);
    var k' := DistAttained(Wrapping, p, q);
    GapExactIff(p, q, k);
    GapExactIff(p, q, k');
    GapWithinDist(Exact, p, q, k');
    GapWithinDist(Wrapping, p, q, k);
  }

  method Chebyshev(p: TuningPoint, q: TuningPoint) returns (d: nat)
    ensures d == Dist(Wrapping, p, q)
    ensures d == Dist(Exact, p, q) <==> Dist(Exact, p, q) < TWO_63
  {
    d := 0;
    var todo := p.axes.Keys + q.axes.Keys;
    ghost var all, seen: set<string> := todo, {};
    while todo != {}
      invariant seen + todo == all && IsLargestGap(Wrapping, p, q, seen, d)
      decreases todo
    {
      var k :| k in todo;
      var gap := Gap(Wrapping, p, q, k);
      OneMoreAxis(Wrapping, p, q, seen, k, d);
      todo, seen := todo - {k}, seen + {k};
      d := Max(d, gap);
    }
    assert seen == all;
    LargestGapUnique(Wrapping, p, q, all, d);
    DistExactIff(p, q);
  }

  lemma LargestGapUnique(m: Arithmetic, p: TuningPoint, q: TuningPoint, keys: set<string>, d: nat)
    requires IsLargestGap(m, p, q, keys, d)
    ensures d == LargestGap(m, p, q, keys)
  {
    LargestGapIsLargest(m, p, q, keys);
  }

  lemma DistSymmetric(m: Arithmetic, p: TuningPoint, q: TuningPoint)
    ensures Dist(m, p, q) == Dist(m, q, p)
  {
    var k := DistAttained(m, p, q);
    var k' := DistAttained(m, q, p);
    GapExactIff(p, q, k);
    GapExactIff(p, q, k');
    GapWithinDist(m, q, p, k);
    GapWithinDist(m, p, q, k');
  }

  lemma DistTriangle(p: TuningPoint, q: TuningPoint, r: TuningPoint)
    ensures Dist(Exact, p, r) <= Dist(Exact, p, q) + Dist(Exact, q, r)
  {
    var k := DistAttained(Exact, p, r);
    GapWithinDist(Exact, p, q, k);
    GapWithinDist(Exact, q, r, k);
  }

  // Distance zero means: the same setting on every axis, a missing axis counting as zero.
  lemma DistZeroIff(p: TuningPoint, q: TuningPoint)
    ensures Dist(Exact, p, q) == 0 <==> forall k: string :: Axis(p, k) == Axis(q, k)
    ensures (forall k: string :: Axis(p, k) == Axis(q, k)) ==> Dist(Wrapping, p, q) == 0
  {
    if Dist(Exact, p, q) == 0 {
      forall k: string ensures Axis(p, k) == Axis(q, k) {
        GapWithinDist(Exact, p, q, k);
      }
      DistExactIff(p, q);
    } else {
      var k := DistAttained(Exact, p, q);
      assert Axis(p, k) != Axis(q, k);
    }
  }

  // What the distance measures, told on the settings themselves: on a shared axis their difference, on
  // an axis only one point names that setting's size; it is the largest of these, 0 if there is none.
  lemma DistInSettings(p: TuningPoint, q: TuningPoint)
    ensures var d := Dist(Exact, p, q);
            && (forall k :: k in p.axes && k in q.axes ==> q.axes[k] - d <= p.axes[k] <= q.axes[k] + d)
            && (forall k :: k in p.axes && k !in q.axes ==> 0 - d <= p.axes[k] <= d)
            && (forall k :: k in q.axes && k !in p.axes ==> 0 - d <= q.axes[k] <= d)
            && (d == 0
                || (exists k :: k in p.axes && k in q.axes && (p.axes[k] == q.axes[k] + d || q.axes[k] == p.axes[k] + d))
                || (exists k :: k in p.axes && k !in q.axes && (p.axes[k] == d || p.axes[k] == 0 - d))
                || (exists k :: k in q.axes && k !in p.axes && (q.axes[k] == d || q.axes[k] == 0 - d)))
  {
    var d := Dist(Exact, p, q);
    forall k | k in p.axes || k in q.axes
      ensures Axis(q, k) - d <= Axis(p, k) <= Axis(q, k) + d
    {
      GapWithinDist(Exact, p, q, k);
    }
    LargestGapIsLargest(Exact, p, q, p.axes.Keys + q.axes.Keys);
    if d > 0 {
      var k :| k in p.axes.Keys + q.axes.Keys && Gap(Exact, p, q, k) == d;
      assert k in p.axes || k in q.axes;
    }
  }

  // Past 64 bits the computed distance is no metric: two points 2^63 apart read as one.
  lemma FarPointsReadAsOne()
    ensures var p, q := TuningPoint(map["core" := -TWO_63]), TuningPoint(map["core" := 0]);
            Dist(Wrapping, p, q) == 0 && Dist(Exact, p, q) == TWO_63
  {
    var p, q := TuningPoint(map["core" := -TWO_63]), TuningPoint(map["core" := 0]);
    assert p.axes.Keys + q.axes.Keys == {"core"};
    LargestGapIsLargest(Wrapping, p, q, {"core"});
    LargestGapIsLargest(Exact, p, q, {"core"});
    assert Gap(Exact, p, q, "core") == TWO_63;
    WrapFar(-TWO_63);
    WrapFar(TWO_63);
    assert Gap(Wrapping, p, q, "core") == -TWO_63;
  }

  datatype Region = Region(center: TuningPoint, radius: i64)

  // As computed.
  ghost predicate Contains(region: Region, p: TuningPoint) { Dist(Wrapping, region.center, p) <= region.radius }

  ghost predicate InSome(regions: seq<Region>, p: TuningPoint)
  {
    exists i :: 0 <= i < |regions| && Contains(regions[i], p)
  }

  method IsInSome(regions: seq<Region>, p: TuningPoint) returns (found: bool)
    ensures found == InSome(regions, p)
  {
    for i := 0 to |regions|
      invariant forall j :: 0 <= j < i ==> !Contains(regions[j], p)
    {
      var d := Chebyshev(regions[i].center, p);
      if d <= regions[i].radius {
        return true;
      }
    }
    found := false;
  }
}
