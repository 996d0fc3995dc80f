/** The sort, running-maximum and windows loops that compute the floor in 64-bit arithmetic. */
module FloorComputation {
  import opened MachineInts
  import opened VoltageFloor
  import opened FloorGrowth

  ghost predicate Sorted(s: seq<Pair>)
  {
    forall i, j :: 0 <= i < j < |s| ==> s[i].clock <= s[j].clock
  }

  function InsertPair(p: Pair, s: seq<Pair>): (r: seq<Pair>)
    requires Sorted(s)
    ensures Sorted(r) && forall q :: q in r <==> q == p || q in s
  {
    if s == [] then [p]
    else if p.clock < s[0].clock || (p.clock == s[0].clock && p.mv <= s[0].mv) then [p] + s
    else
      var rest := InsertPair(p, s[1..]);
      assert forall i :: 0 <= i < |rest| ==> rest[i] in rest;
      [s[0]] + rest
  }

  // The standard library's sort by (clock, mv).
  function SortPairs(s: seq<Pair>): (r: seq<Pair>)
    ensures Sorted(r) && forall q :: q in r <==> q in s
  {
    if s == [] then [] else InsertPair(s[0], SortPairs(s[1..]))
  }

  // The numerator of the ceil division, before 64-bit wrap-around.
  function Numerator(s: Segment, x: int): int
  {
    (s.v1 - s.v0) * (x - s.c0) + (s.c1 - s.c0) - 1
  }

  // The reading as 64-bit arithmetic without overflow checks computes it.
  function WrappedRead(s: Segment, x: int): Option<int>
    requires Around(s, x)
  {
    if s.c0 < 0 then None
    else if s.c1 == NO_CLOCK then Some(s.v0)
    else
      var f := s.v0 + TruncDiv(WrapI64(Numerator(s, x)), s.c1 - s.c0);
      if 0 <= f < TWO_32 then Some(f) else None
  }

  function WrappedFloor(pairs: seq<Pair>, clock: u32): Option<int>
  {
    SegmentAround(pairs, clock);
    WrappedRead(SegmentAt(pairs, clock), clock)
  }

  // Fails only strictly between two condemned clocks, when the product overflows.
  predicate Fits(pairs: seq<Pair>, clock: u32)
  {
    var s := SegmentAt(pairs, clock);
    s.c0 >= 0 && s.c1 < NO_CLOCK ==> Numerator(s, clock) < TWO_63
  }

  // The 64-bit computation is right exactly when the numerator fits.
  lemma WrappedFloorExactIff(pairs: seq<Pair>, clock: u32)
    ensures WrappedFloor(pairs, clock) == Floor(pairs, clock) <==> Fits(pairs, clock)
  {
    SegmentAround(pairs, clock);
    var s := SegmentAt(pairs, clock);
    if s.c0 >= 0 && s.c1 < NO_CLOCK {
      WrappedReadBelow(s, clock);
    }
  }

  lemma WrappedReadExact(dv: int, dx: int, d: int)
    requires 0 <= dv < TWO_32 && 0 <= dx < d < TWO_32
    ensures var n := dv * dx + d - 1;
            && (n < TWO_63 ==> TruncDiv(WrapI64(n), d) == CeilDiv(dv * dx, d))
            && (n >= TWO_63 ==> TruncDiv(WrapI64(n), d) < 0 < CeilDiv(dv * dx, d))
  {
    var n := dv * dx + d - 1;
    ProductBound(dv, dx, TWO_32 - 1, TWO_32 - 2);
    if n < TWO_63 {
      assert WrapI64(n) == n;
    } else {
      assert WrapI64(n) == n - TWO_64;
      CeilDivMeaning(dv * dx, d);
      PositiveFactor(d, CeilDiv(dv * dx, d));
      NegativeQuotient(n - TWO_64, d);
    }
  }

  lemma PositiveFactor(d: int, q: int)
    requires d > 0 && d * q > 0
    ensures q > 0
  {
  }

  lemma NegativeQuotient(a: int, d: int)
    requires a <= -d < 0
    ensures TruncDiv(a, d) < 0
  {
  }

  lemma WrappedReadBelow(s: Segment, x: int)
    requires Around(s, x) && s.c0 >= 0 && s.c1 < NO_CLOCK
    ensures Read(s, x).Some? && 0 <= Read(s, x).value < TWO_32
    ensures Numerator(s, x) < TWO_63 ==> WrappedRead(s, x) == Read(s, x)
    ensures Numerator(s, x) >= TWO_63 ==> WrappedRead(s, x).None? || WrappedRead(s, x).value < s.v0 <= Read(s, x).value
  {
    ChordBetween(s.c0, s.v0, s.c1, s.v1, x);
    WrappedReadExact(s.v1 - s.v0, x - s.c0, s.c1 - s.c0);
  }

  // What is computed never lies above the floor, and an overflow pushes it below the running maximum.
  lemma ComputedNeverAbove(pairs: seq<Pair>, clock: u32)
    ensures WrappedFloor(pairs, clock).Some? ==>
              Floor(pairs, clock).Some? && WrappedFloor(pairs, clock).value <= Floor(pairs, clock).value
    ensures Floor(pairs, clock).Some? ==> 0 <= Floor(pairs, clock).value < TWO_32
    ensures !Fits(pairs, clock) ==>
              && Floor(pairs, clock).Some?
              && (WrappedFloor(pairs, clock).Some? ==>
                    WrappedFloor(pairs, clock).value < Worst(pairs, clock) <= Floor(pairs, clock).value)
  {
    SegmentAround(pairs, clock);
    var s := SegmentAt(pairs, clock);
    if s.c0 >= 0 && s.c1 < NO_CLOCK {
      WrappedReadBelow(s, clock);
    }
  }

  ghost predicate Covers(floor: Option<int>, pairs: seq<Pair>, clock: u32)
  {
    forall p :: p in pairs && p.clock <= clock ==> floor.Some? && p.mv <= floor.value
  }

  // The computed floor covers every pair condemned at or below the clock exactly when it is right.
  lemma ComputedCoversIff(pairs: seq<Pair>, clock: u32)
    ensures Covers(WrappedFloor(pairs, clock), pairs, clock) <==> Fits(pairs, clock)
  {
    if Fits(pairs, clock) {
      WrappedFloorExactIff(pairs, clock);
      forall p | p in pairs && p.clock <= clock
        ensures Floor(pairs, clock).Some? && p.mv <= Floor(pairs, clock).value
      {
        FloorCoversEvidence(pairs, p, clock);
      }
    } else {
      ComputedNeverAbove(pairs, clock);
      SegmentAround(pairs, clock);
      var p := WorstAttained(pairs, clock);
    }
  }

  // Voltages below 2^31 mV never overflow, whatever the clocks.
  ghost predicate Physical(pairs: seq<Pair>)
  {
    forall p :: p in pairs ==> p.mv < TWO_31
  }

  lemma PhysicalFits(pairs: seq<Pair>, clock: u32)
    requires Physical(pairs)
    ensures Fits(pairs, clock) && WrappedFloor(pairs, clock) == Floor(pairs, clock)
  {
    var s := SegmentAt(pairs, clock);
    SegmentAround(pairs, clock);
    if s.c0 >= 0 && s.c1 < NO_CLOCK {
      var q := WorstAttained(pairs, s.c1);
      ProductBound(s.v1 - s.v0, clock - s.c0, TWO_31 - 1, TWO_32 - 2);
    }
    WrappedFloorExactIff(pairs, clock);
  }

  // Full-range u32 inputs can overflow: the answer is lost.
  lemma FullRangeOverflows()
    ensures var pairs := [Pair(0, 0), Pair(0xffff_ffff, 0xffff_ffff)];
            !Fits(pairs, 0xffff_fffe) && WrappedFloor(pairs, 0xffff_fffe) != Floor(pairs, 0xffff_fffe)
  {
    var pairs := [Pair(0, 0), Pair(0xffff_ffff, 0xffff_ffff)];
    assert pairs[..1] == [Pair(0, 0)];
    assert SegmentAt(pairs, 0xffff_fffe) == Segment(0, 0, 0xffff_ffff, 0xffff_ffff);
    WrappedFloorExactIff(pairs, 0xffff_fffe);
  }

  ghost predicate HasClock(s: seq<Pair>, c: int)
  {
    exists i :: 0 <= i < |s| && s[i].clock == c
  }

  // `env` has one knot per distinct clock of `pts`, ascending, carrying the running maximum.
  ghost predicate IsEnvelope(env: seq<Pair>, pts: seq<Pair>)
  {
    && (forall c :: HasClock(env, c) <==> HasClock(pts, c))
    && (forall i, j :: 0 <= i < j < |env| ==> env[i].clock < env[j].clock)
    && (forall i :: 0 <= i < |env| ==> env[i].mv == Worst(pts, env[i].clock))
  }

  lemma KnotOf(env: seq<Pair>, pts: seq<Pair>, p: Pair) returns (k: nat)
    requires IsEnvelope(env, pts) && p in pts
    ensures k < |env| && env[k].clock == p.clock
  {
    var i :| 0 <= i < |pts| && pts[i] == p;
    assert HasClock(pts, p.clock);
    k :| k < |env| && env[k].clock == p.clock;
  }

  lemma PairAt(env: seq<Pair>, pts: seq<Pair>, k: nat) returns (p: Pair)
    requires IsEnvelope(env, pts) && k < |env|
    ensures p in pts && p.clock == env[k].clock
  {
    assert HasClock(env, env[k].clock);
    var i :| 0 <= i < |pts| && pts[i].clock == env[k].clock;
    p := pts[i];
  }

  // Reading off two adjacent knots (or the last one) of an envelope.
  lemma KnotsAround(env: seq<Pair>, pts: seq<Pair>, k: nat, clock: int)
    requires IsEnvelope(env, pts) && k < |env| && env[k].clock <= clock
    requires if k + 1 < |env| then clock < env[k + 1].clock else clock < NO_CLOCK
    ensures var c1 := if k + 1 < |env| then env[k + 1].clock else NO_CLOCK;
            SegmentAt(pts, clock) == Segment(env[k].clock, env[k].mv, c1, Worst(pts, c1))
  {
    var p := PairAt(env, pts, k);
    UpperBounds(pts, clock, p);
    var l := LeftAttained(pts, clock);
    var i := KnotOf(env, pts, l);
    if k + 1 < |env| {
      var q := PairAt(env, pts, k + 1);
      UpperBounds(pts, clock, q);
    }
    if Right(pts, clock) < NO_CLOCK {
      var r := RightAttained(pts, clock);
      var j := KnotOf(env, pts, r);
    }
    LeftCarriesWorst(pts, clock);
  }

  lemma NothingBelow(env: seq<Pair>, pts: seq<Pair>, clock: int)
    requires IsEnvelope(env, pts) && (env == [] || clock < env[0].clock)
    ensures Left(pts, clock) < 0
  {
    if Left(pts, clock) >= 0 {
      var p := LeftAttained(pts, clock);
      var i := KnotOf(env, pts, p);
    }
  }

  // The knot list after one more sorted point.
  function PushKnot(env: seq<Pair>, knot: Pair): seq<Pair>
  {
    if env != [] && env[|env| - 1].clock == knot.clock then env[..|env| - 1] + [knot] else env + [knot]
  }

  lemma PushKnotClocks(env: seq<Pair>, knot: Pair, c: int)
    ensures HasClock(PushKnot(env, knot), c) <==> c == knot.clock || HasClock(env, c)
  {
    var env' := PushKnot(env, knot);
    assert env'[|env'| - 1] == knot;
    if c != knot.clock && HasClock(env, c) {
      var i :| 0 <= i < |env| && env[i].clock == c;
      assert env'[i].clock == c;
    }
    if c != knot.clock && HasClock(env', c) {
      var i :| 0 <= i < |env'| && env'[i].clock == c;
      assert env[i].clock == c;
    }
  }

  lemma AppendClocks(pts: seq<Pair>, p: Pair, c: int)
    ensures HasClock(pts + [p], c) <==> c == p.clock || HasClock(pts, c)
  {
    assert (pts + [p])[|pts|] == p;
    if HasClock(pts, c) {
      var i :| 0 <= i < |pts| && pts[i].clock == c;
      assert (pts + [p])[i].clock == c;
    }
  }

  lemma PushKnotAscending(env: seq<Pair>, knot: Pair)
    requires forall i, j :: 0 <= i < j < |env| ==> env[i].clock < env[j].clock
    requires forall i :: 0 <= i < |env| ==> env[i].clock <= knot.clock
    ensures var env' := PushKnot(env, knot);
            forall i, j :: 0 <= i < j < |env'| ==> env'[i].clock < env'[j].clock
  {
  }

  lemma PushKnotWorst(env: seq<Pair>, pts: seq<Pair>, p: Pair, worst: u32)
    requires forall i :: 0 <= i < |env| ==> env[i].mv == Worst(pts, env[i].clock) && env[i].clock <= p.clock
    requires forall i, j :: 0 <= i < j < |env| ==> env[i].clock < env[j].clock
    requires worst == Max(p.mv, Worst(pts, p.clock))
    ensures var env' := PushKnot(env, Pair(p.clock, worst));
            forall i :: 0 <= i < |env'| ==> env'[i].mv == Worst(pts + [p], env'[i].clock)
  {
    var env' := PushKnot(env, Pair(p.clock, worst));
    forall i | 0 <= i < |env'| ensures env'[i].mv == Worst(pts + [p], env'[i].clock) {
      Snoc(pts, p, env'[i].clock);
    }
  }

  lemma EnvelopeStep(env: seq<Pair>, pts: seq<Pair>, p: Pair, worst: u32)
    requires IsEnvelope(env, pts) && (forall q :: q in pts ==> q.clock <= p.clock)
    requires worst == Max(p.mv, Worst(pts, p.clock))
    ensures IsEnvelope(PushKnot(env, Pair(p.clock, worst)), pts + [p])
  {
    var knot := Pair(p.clock, worst);
    forall i | 0 <= i < |env| ensures env[i].clock <= p.clock {
      var q := PairAt(env, pts, i);
    }
    PushKnotAscending(env, knot);
    PushKnotWorst(env, pts, p, worst);
    forall c ensures HasClock(PushKnot(env, knot), c) <==> HasClock(pts + [p], c) {
      PushKnotClocks(env, knot, c);
      AppendClocks(pts, p, c);
    }
  }

  // On sorted points the loop's single accumulator is the running maximum at the current clock.
  lemma SortedRunningMax(pts: seq<Pair>, i: nat)
    requires Sorted(pts) && i < |pts|
    ensures forall q :: q in pts[..i] ==> q.clock <= pts[i].clock
    ensures i > 0 ==> Worst(pts[..i], pts[i].clock) == Worst(pts[..i], pts[i - 1].clock) >= 0
    ensures i == 0 ==> Worst(pts[..i], pts[i].clock) == -1
    ensures Worst(pts[..i + 1], pts[i].clock) == Max(pts[i].mv, Worst(pts[..i], pts[i].clock))
    ensures pts[..i + 1] == pts[..i] + [pts[i]]
  {
    assert pts[..i + 1] == pts[..i] + [pts[i]];
    Snoc(pts[..i], pts[i], pts[i].clock);
    if i > 0 {
      forall q | q in pts[..i] ensures q.clock <= pts[i - 1].clock {}
      WorstConstant(pts[..i], pts[i - 1].clock, pts[i].clock);
      assert pts[..i][i - 1] == pts[i - 1];
      UpperBounds(pts[..i], pts[i - 1].clock, pts[i - 1]);
    }
  }

  lemma EnvelopeSameMembers(env: seq<Pair>, a: seq<Pair>, b: seq<Pair>)
    requires IsEnvelope(env, a) && forall p :: p in a <==> p in b
    ensures IsEnvelope(env, b)
  {
    forall c ensures HasClock(a, c) <==> HasClock(b, c) {
      ClockCarriesOver(a, b, c);
      ClockCarriesOver(b, a, c);
    }
    forall i | 0 <= i < |env| ensures Worst(a, env[i].clock) == Worst(b, env[i].clock) {
      AtMost(a, b, env[i].clock);
      AtMost(b, a, env[i].clock);
    }
  }

  lemma ClockCarriesOver(a: seq<Pair>, b: seq<Pair>, c: int)
    requires forall p :: p in a ==> p in b
    ensures HasClock(a, c) ==> HasClock(b, c)
  {
    if HasClock(a, c) {
      var i :| 0 <= i < |a| && a[i].clock == c;
      assert a[i] in b;
      var j :| 0 <= j < |b| && b[j] == a[i];
      assert b[j].clock == c;
    }
  }

  method BuildEnvelope(pairs: seq<Pair>) returns (env: seq<Pair>)
    ensures IsEnvelope(env, pairs)
  {
    var pts := SortPairs(pairs);
    env := [];
    var worst := I64_MIN;
    for i := 0 to |pts|
      invariant IsEnvelope(env, pts[..i])
      invariant i == 0 ==> worst == I64_MIN
      invariant i > 0 ==> worst == Worst(pts[..i], pts[i - 1].clock)
    {
      SortedRunningMax(pts, i);
      worst := Max(worst, pts[i].mv);
      EnvelopeStep(env, pts[..i], pts[i], worst);
      if env != [] && env[|env| - 1].clock == pts[i].clock {
        env := env[..|env| - 1] + [Pair(pts[i].clock, worst)];
      } else {
        env := env + [Pair(pts[i].clock, worst)];
      }
    }
    assert pts[..|pts|] == pts;
    EnvelopeSameMembers(env, pts, pairs);
  }

  method ReadEnvelope(env: seq<Pair>, clock: u32, ghost pairs: seq<Pair>) returns (r: Option<int>)
    requires IsEnvelope(env, pairs) && Around(SegmentAt(pairs, clock), clock)
    ensures r == WrappedRead(SegmentAt(pairs, clock), clock)
  {
    if env == [] || clock < env[0].clock {
      NothingBelow(env, pairs, clock);
      return None;
    }
    var floor: int := env[0].mv;
    var k := 0;
    while k + 1 < |env|
      invariant 0 <= k < |env| && floor == env[k].mv && env[k].clock <= clock
    {
      var c0, v0, c1, v1 := env[k].clock, env[k].mv, env[k + 1].clock, env[k + 1].mv;
      if clock >= c1 {
        floor := v1;
      } else {
        KnotsAround(env, pairs, k, clock);
        if clock > c0 {
          floor := Interpolate(c0, v0, c1, v1, clock);
          InterpolateStep(SegmentAt(pairs, clock), clock);
        } else {
          AtKnot(SegmentAt(pairs, clock));
        }
        break;
      }
      k := k + 1;
    }
    if k + 1 == |env| {
      KnotsAround(env, pairs, k, clock);
    }
    r := if 0 <= floor < TWO_32 then Some(floor) else None;
  }

  method VfFloorEnvelope(pairs: seq<Pair>, clock: u32) returns (r: Option<int>)
    ensures r == WrappedFloor(pairs, clock)
    ensures r == Floor(pairs, clock) <==> Fits(pairs, clock)
  {
    var env := BuildEnvelope(pairs);
    SegmentAround(pairs, clock);
    r := ReadEnvelope(env, clock, pairs);
    WrappedFloorExactIff(pairs, clock);
  }

  // Ceil interpolation with every operation wrapped to 64 bits.
  function Interpolate(c0: int, v0: int, c1: int, v1: int, clock: int): int
    requires c0 < c1
  {
    v0 + TruncDiv(WrapI64(WrapI64(WrapI64((v1 - v0) * (clock - c0)) + (c1 - c0)) - 1), c1 - c0)
  }

  // Wrapping after every operation is the same as wrapping once at the end.
  lemma WrapOnce(a: int, b: int, c: int)
    ensures WrapI64(WrapI64(WrapI64(a) + b) + c) == WrapI64(a + b + c)
  {
  }

  lemma InterpolateStep(s: Segment, x: int)
    requires s.c0 < s.c1
    ensures Interpolate(s.c0, s.v0, s.c1, s.v1, x) == s.v0 + TruncDiv(WrapI64(Numerator(s, x)), s.c1 - s.c0)
  {
    WrapOnce((s.v1 - s.v0) * (x - s.c0), s.c1 - s.c0, -1);
  }

  lemma SmallQuotient(n: int, d: int)
    requires 0 <= n < d
    ensures n / d == 0
  {
  }

  // At a knot the interpolation term vanishes.
  lemma AtKnot(s: Segment)
    requires 0 < s.c1 - s.c0 <= TWO_32
    ensures TruncDiv(WrapI64(Numerator(s, s.c0)), s.c1 - s.c0) == 0
  {
    var d := s.c1 - s.c0;
    assert Numerator(s, s.c0) == d - 1;
    assert WrapI64(d - 1) == d - 1;
    SmallQuotient(d - 1, d);
  }
}
