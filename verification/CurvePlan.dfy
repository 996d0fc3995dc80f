/** Fail-closed planners over a V/F curve: flatten ceilings and bounded positive offsets. */
module CurvePlan {
  import opened MachineInts

  // (point index, voltage, base clock), as read from the driver.
  datatype Bin = Bin(index: nat, mv: u32, mhz: u32)

  datatype BinClass = BelowCeiling | FlattenDown | FlattenUp | AlreadyAtTarget
  datatype WriteEntry = WriteEntry(index: nat, mv: u32, baseMhz: u32, offset: i32, inFlattenSet: bool, class_: BinClass)

  datatype PlanError =
    | EmptyCurve | InsaneCurve | NotARealBin | BelowHardwareFloor | OffsetNotPositive
    | OverAbsoluteCap | OverStepCap | OverClockCeiling | LowerBinAboveTarget | RaiseOutsideAnchor

  datatype Result<+T> = Ok(value: T) | Err(error: PlanError)

  // ---------------------------------------------------------------- flatten ceilings

  // Two's-complement difference of two casts, as the 32-bit code computes it.
  function OffsetTo(target: u32, base: u32): i32 { WrapI32(WrapI32(target) - WrapI32(base)) }

  function CeilingEntry(b: Bin, ceiling: u32, target: u32): WriteEntry
  {
    var inSet := b.mv >= ceiling;
    var offset := if inSet then OffsetTo(target, b.mhz) else 0;
    WriteEntry(b.index, b.mv, b.mhz, offset, inSet,
               if !inSet then BelowCeiling else if offset == 0 then AlreadyAtTarget
               else if offset < 0 then FlattenDown else FlattenUp)
  }

  function MonotoneEntry(b: Bin, ceiling: u32, target: u32): WriteEntry
  {
    var inSet := b.mv >= ceiling;
    if !inSet then WriteEntry(b.index, b.mv, b.mhz, 0, inSet, BelowCeiling)
    else if b.mhz > target then WriteEntry(b.index, b.mv, b.mhz, OffsetTo(target, b.mhz), inSet, FlattenDown)
    else WriteEntry(b.index, b.mv, b.mhz, 0, inSet, AlreadyAtTarget)
  }

  function PlanVfCeiling(curve: seq<Bin>, ceiling: u32, target: u32): seq<WriteEntry>
  {
    seq(|curve|, i requires 0 <= i < |curve| => CeilingEntry(curve[i], ceiling, target))
  }

  function PlanVfCeilingMonotone(curve: seq<Bin>, ceiling: u32, target: u32): seq<WriteEntry>
  {
    seq(|curve|, i requires 0 <= i < |curve| => MonotoneEntry(curve[i], ceiling, target))
  }

  lemma WrapNear(x: int)
    requires -TWO_32 < x < TWO_32
    ensures WrapI32(x) == if x >= TWO_31 then x - TWO_32 else if x < -TWO_31 then x + TWO_32 else x
  {
  }

  lemma OffsetToMeaning(target: u32, base: u32)
    ensures OffsetTo(target, base) == WrapI32(target - base)
    ensures OffsetTo(target, base) == target - base <==> -TWO_31 <= target - base < TWO_31
  {
    WrapNear(target);
    WrapNear(base);
    WrapNear(WrapI32(target) - WrapI32(base));
    WrapNear(target - base);
  }

  // The monotone planner keeps exactly the non-positive part of the flatten planner, as long as
  // clock and target are less than 2^31 apart; beyond that the casts change the sign.
  lemma MonotoneIsDownwardPartIff(curve: seq<Bin>, ceiling: u32, target: u32, i: nat)
    requires i < |curve|
    ensures PlanVfCeilingMonotone(curve, ceiling, target)[i].offset
            == Min(0, PlanVfCeiling(curve, ceiling, target)[i].offset)
       <==> curve[i].mv < ceiling || -TWO_31 <= target - curve[i].mhz < TWO_31
  {
    OffsetToMeaning(target, curve[i].mhz);
  }

  // Written offsets land every flattened bin on the target exactly while clock and target are less
  // than 2^31 apart; the monotone plan lands on the lower of the two, and never raises a bin,
  // exactly while the clock is at most 2^31 above the target.
  lemma CeilingsLandIff(curve: seq<Bin>, ceiling: u32, target: u32, i: nat)
    requires i < |curve|
    ensures var e := PlanVfCeiling(curve, ceiling, target)[i];
            (e.baseMhz + e.offset == if curve[i].mv >= ceiling then target else curve[i].mhz)
            <==> curve[i].mv < ceiling || -TWO_31 <= target - curve[i].mhz < TWO_31
    ensures var e := PlanVfCeilingMonotone(curve, ceiling, target)[i];
            && e.class_ != FlattenUp
            && (e.baseMhz + e.offset == (if curve[i].mv >= ceiling then Min(curve[i].mhz, target) else curve[i].mhz)
                <==> curve[i].mv < ceiling || curve[i].mhz - target <= TWO_31)
            && (e.offset <= 0 <==> curve[i].mv < ceiling || curve[i].mhz - target <= TWO_31)
  {
    OffsetToMeaning(target, curve[i].mhz);
    WrapNear(target - curve[i].mhz);
  }

  // Each entry addresses its own bin: same index, voltage and base clock, in curve order; its class
  // says where the bin lies.
  lemma CeilingEntriesAddressCurve(curve: seq<Bin>, ceiling: u32, target: u32, i: nat)
    requires i < |curve|
    ensures |PlanVfCeiling(curve, ceiling, target)| == |curve| == |PlanVfCeilingMonotone(curve, ceiling, target)|
    ensures var e, b := PlanVfCeiling(curve, ceiling, target)[i], curve[i];
            && e.index == b.index && e.mv == b.mv && e.baseMhz == b.mhz
            && (e.inFlattenSet <==> b.mv >= ceiling) && (b.mv < ceiling ==> e.offset == 0)
            && (e.class_ == BelowCeiling <==> b.mv < ceiling)
            && (e.class_ == AlreadyAtTarget <==> b.mv >= ceiling && b.mhz == target)
            && (-TWO_31 <= target - b.mhz < TWO_31 ==>
                  && (e.class_ == FlattenDown <==> b.mv >= ceiling && b.mhz > target)
                  && (e.class_ == FlattenUp <==> b.mv >= ceiling && b.mhz < target))
    ensures var e, b := PlanVfCeilingMonotone(curve, ceiling, target)[i], curve[i];
            && e.index == b.index && e.mv == b.mv && e.baseMhz == b.mhz
            && (e.inFlattenSet <==> b.mv >= ceiling) && (b.mv < ceiling || b.mhz <= target ==> e.offset == 0)
            && (e.class_ == BelowCeiling <==> b.mv < ceiling)
            && (e.class_ == FlattenDown <==> b.mv >= ceiling && b.mhz > target)
            && (e.class_ == AlreadyAtTarget <==> b.mv >= ceiling && b.mhz <= target)
  {
    OffsetToMeaning(target, curve[i].mhz);
    WrapNear(target - curve[i].mhz);
  }

  // ---------------------------------------------------------------- bounded positive offset

  const POS_OFFSET_MAX_MHZ: i32 := 30
  const POS_OFFSET_STEP_MAX_MHZ: i32 := 15
  const TARGET_SWEEP_HORIZON_MAX_MHZ: i32 := 210

  datatype Limits = Limits(absMax: i32, stepMax: i32, hwFloorMv: u32, clockCeilingMhz: u32)

  function Conservative(floor: u32, ceiling: u32): Limits
  {
    Limits(POS_OFFSET_MAX_MHZ, POS_OFFSET_STEP_MAX_MHZ, floor, ceiling)
  }

  function ManualPrior(floor: u32, ceiling: u32, maxOffset: i32): Limits
  {
    Limits(maxOffset, maxOffset, floor, ceiling)
  }

  function TargetSweepHorizon(floor: u32, ceiling: u32): Limits
  {
    Limits(TARGET_SWEEP_HORIZON_MAX_MHZ, POS_OFFSET_STEP_MAX_MHZ, floor, ceiling)
  }

  function HardwareFrontier(floor: u32, ceiling: u32, minBase: u32): Limits
  {
    var delta := WrapI32(Max(SatSub(ceiling, minBase), 1));
    Limits(delta, delta, floor, ceiling)
  }

  predicate IsSane(b: Bin) { 600 <= b.mv <= 1150 && 500 <= b.mhz <= 3500 }

  predicate IsSaneCurve(curve: seq<Bin>) { curve != [] && forall i | 0 <= i < |curve| :: IsSane(curve[i]) }

  // Position of the first bin with the given index.
  function FindBin(curve: seq<Bin>, index: nat): (r: Option<nat>)
    ensures r.Some? ==> r.value < |curve| && curve[r.value].index == index
    ensures r.Some? ==> forall i :: 0 <= i < r.value ==> curve[i].index != index
    ensures r.None? ==> forall i :: 0 <= i < |curve| ==> curve[i].index != index
  {
    if curve == [] then None
    else if curve[0].index == index then Some(0)
    else
      var r := FindBin(curve[1..], index);
      assert forall i :: 1 <= i < |curve| ==> curve[i] == curve[1..][i - 1];
      if r.None? then None else Some(r.value + 1)
  }

  datatype PositivePlan = PositivePlan(
    index: nat, mv: u32, baseMhz: u32, offset: i32, prevOffset: i32, stepDelta: i32, effectiveMhz: int)

  // The per-bin rules, in the order they are checked.
  function PlanBin(b: Bin, target: u32, prev: i32, limits: Limits): Result<PositivePlan>
  {
    var offset := OffsetTo(target, b.mhz);
    var step := WrapI32(offset - prev);
    var effective := WrapI32(WrapI32(b.mhz) + offset);
    if b.mv < limits.hwFloorMv then Err(BelowHardwareFloor)
    else if offset <= 0 then Err(OffsetNotPositive)
    else if offset > limits.absMax then Err(OverAbsoluteCap)
    else if step > limits.stepMax then Err(OverStepCap)
    else if effective <= 0 || effective > limits.clockCeilingMhz then Err(OverClockCeiling)
    else Ok(PositivePlan(b.index, b.mv, b.mhz, offset, prev, step, effective))
  }

  function PlanBoundedPositiveOffset(curve: seq<Bin>, index: nat, target: u32, prev: i32, limits: Limits): Result<PositivePlan>
  {
    if curve == [] then Err(EmptyCurve)
    else if !IsSaneCurve(curve) then Err(InsaneCurve)
    else
      var at := FindBin(curve, index);
      if at.None? then Err(NotARealBin) else PlanBin(curve[at.value], target, prev, limits)
  }

  // The conditions under which one bin may be raised, in plain integers.
  predicate MayRaise(b: Bin, target: u32, prev: i32, limits: Limits)
  {
    && b.mv >= limits.hwFloorMv
    && b.mhz < target < TWO_31 && target <= limits.clockCeilingMhz
    && target - b.mhz <= limits.absMax
    && WrapI32(target - b.mhz - prev) <= limits.stepMax
  }

  ghost predicate LandsOnTarget(p: PositivePlan, b: Bin, target: u32, prev: i32, limits: Limits)
  {
    && Bin(p.index, p.mv, p.baseMhz) == b
    && p.baseMhz + p.offset == target == p.effectiveMhz && 0 < p.offset <= limits.absMax && p.prevOffset == prev
    && (prev >= 0 ==> p.stepDelta == p.offset - prev <= limits.stepMax)
  }

  // The wrapped difference for a sane base: right below 2^31, and from there on the effective
  // clock comes out negative.
  lemma SaneOffset(target: u32, base: u32)
    requires 500 <= base <= 3500
    ensures target < TWO_31 ==> OffsetTo(target, base) == target - base
    ensures target < TWO_31 ==> WrapI32(WrapI32(base) + OffsetTo(target, base)) == target
    ensures target >= TWO_31 ==> WrapI32(WrapI32(base) + OffsetTo(target, base)) < 0
  {
    OffsetToMeaning(target, base);
    WrapNear(target - base);
    WrapNear(base);
    WrapNear(base + OffsetTo(target, base));
  }

  lemma BinAcceptedIff(b: Bin, target: u32, prev: i32, limits: Limits)
    requires IsSane(b)
    ensures PlanBin(b, target, prev, limits).Ok? <==> MayRaise(b, target, prev, limits)
    ensures PlanBin(b, target, prev, limits).Ok? ==>
              LandsOnTarget(PlanBin(b, target, prev, limits).value, b, target, prev, limits)
  {
    SaneOffset(target, b.mhz);
  }

  // A raise is accepted exactly when the curve is sane, the bin exists and may be raised; the
  // plan then lands on the target. Targets past the i32 range are rejected although the casts wrap.
  lemma SingleBinAcceptedIff(curve: seq<Bin>, index: nat, target: u32, prev: i32, limits: Limits)
    ensures PlanBoundedPositiveOffset(curve, index, target, prev, limits).Ok?
       <==> IsSaneCurve(curve) && FindBin(curve, index).Some?
            && MayRaise(curve[FindBin(curve, index).value], target, prev, limits)
    ensures PlanBoundedPositiveOffset(curve, index, target, prev, limits).Ok? ==>
              LandsOnTarget(PlanBoundedPositiveOffset(curve, index, target, prev, limits).value,
                            curve[FindBin(curve, index).value], target, prev, limits)
  {
    if IsSaneCurve(curve) && FindBin(curve, index).Some? {
      BinAcceptedIff(curve[FindBin(curve, index).value], target, prev, limits);
    }
  }

  // A bin of a graphics core: 600 to 1150 mV and 500 to 3500 MHz.
  ghost predicate CoreBin(b: Bin) { 600 <= b.mv <= 1150 && 500 <= b.mhz <= 3500 }

  // Which rule a raise breaks is the first one, in this order: an empty curve, a foreign bin, no such
  // bin.
  lemma CurveRefusals(curve: seq<Bin>, index: nat, target: u32, prev: i32, limits: Limits)
    ensures var r := PlanBoundedPositiveOffset(curve, index, target, prev, limits);
            && (r == Err(EmptyCurve) <==> |curve| == 0)
            && (r == Err(InsaneCurve) <==> |curve| > 0 && exists i :: 0 <= i < |curve| && !CoreBin(curve[i]))
            && (r == Err(NotARealBin) <==>
                  |curve| > 0 && (forall i :: 0 <= i < |curve| ==> CoreBin(curve[i]) && curve[i].index != index))
  {
    if forall i :: 0 <= i < |curve| ==> CoreBin(curve[i]) {
      assert forall i :: 0 <= i < |curve| ==> IsSane(curve[i]);
    } else {
      var i :| 0 <= i < |curve| && !CoreBin(curve[i]);
      assert !IsSane(curve[i]);
    }
  }

  // Then, for the bin itself: under the hardware floor; not a raise; above the absolute cap; above the
  // step cap; above the clock ceiling.
  lemma BinRefusals(b: Bin, target: u32, prev: i32, limits: Limits)
    requires CoreBin(b) && prev >= 0
    ensures var r, raise := PlanBin(b, target, prev, limits), target - b.mhz;
            && (r == Err(BelowHardwareFloor) <==> b.mv < limits.hwFloorMv)
            && (r == Err(OffsetNotPositive) <==> b.mv >= limits.hwFloorMv && !(0 < raise < TWO_31))
            && (r == Err(OverAbsoluteCap) <==> b.mv >= limits.hwFloorMv && limits.absMax < raise < TWO_31 && raise > 0)
            && (r == Err(OverStepCap) <==>
                  b.mv >= limits.hwFloorMv && 0 < raise <= limits.absMax && raise - prev > limits.stepMax)
            && (r == Err(OverClockCeiling) <==>
                  b.mv >= limits.hwFloorMv && 0 < raise <= limits.absMax && raise - prev <= limits.stepMax
                  && (target > limits.clockCeilingMhz || target >= TWO_31))
  {
    OffsetToMeaning(target, b.mhz);
    WrapNear(target - b.mhz);
    SaneOffset(target, b.mhz);
    WrapNear(OffsetTo(target, b.mhz) - prev);
  }

  // The two built-in envelopes in numbers: 30 MHz in all and 15 a step by default, 210 and 15 for the
  // chained sweep.
  lemma EnvelopesInNumbers(b: Bin, target: u32, prev: i32, floor: u32, ceiling: u32)
    requires CoreBin(b) && prev >= 0 && ceiling < TWO_31
    ensures PlanBin(b, target, prev, Conservative(floor, ceiling)).Ok?
       <==> b.mv >= floor && b.mhz < target <= ceiling && target - b.mhz <= 30 && target - b.mhz - prev <= 15
    ensures PlanBin(b, target, prev, TargetSweepHorizon(floor, ceiling)).Ok?
       <==> b.mv >= floor && b.mhz < target <= ceiling && target - b.mhz <= 210 && target - b.mhz - prev <= 15
  {
    if target < TWO_31 { WrapNear(target - b.mhz - prev); }
    BinAcceptedIff(b, target, prev, Conservative(floor, ceiling));
    BinAcceptedIff(b, target, prev, TargetSweepHorizon(floor, ceiling));
  }

  // The hardware-derived limits never bind on a real bin: what remains is floor, direction, ceiling.
  lemma HardwareFrontierNeverBinds(b: Bin, target: u32, prev: i32, floor: u32, ceiling: u32, minBase: u32)
    requires minBase <= b.mhz && ceiling < TWO_31 && prev >= 0 && IsSane(b)
    ensures PlanBin(b, target, prev, HardwareFrontier(floor, ceiling, minBase)).Ok?
       <==> b.mv >= floor && b.mhz < target <= ceiling
  {
    WrapNear(Max(SatSub(ceiling, minBase), 1));
    if target < TWO_31 { WrapNear(target - b.mhz - prev); }
    BinAcceptedIff(b, target, prev, HardwareFrontier(floor, ceiling, minBase));
  }

  // From stock, a manual prior is bounded by its own cap alone.
  lemma ManualPriorIsOneShot(b: Bin, target: u32, floor: u32, ceiling: u32, maxOffset: i32)
    requires ceiling < TWO_31 && IsSane(b)
    ensures PlanBin(b, target, 0, ManualPrior(floor, ceiling, maxOffset)).Ok?
       <==> b.mv >= floor && b.mhz < target <= ceiling && target - b.mhz <= maxOffset
  {
    BinAcceptedIff(b, target, 0, ManualPrior(floor, ceiling, maxOffset));
  }

  // Under the chained-sweep limits no accepted probe jumps: its offset is at most 15 MHz above the
  // previous one and never beyond 210 MHz.
  lemma ChainedStepsStaySmall(curve: seq<Bin>, index: nat, target: u32, prev: i32, floor: u32, ceiling: u32)
    requires prev >= 0
    requires PlanBoundedPositiveOffset(curve, index, target, prev, TargetSweepHorizon(floor, ceiling)).Ok?
    ensures var p := PlanBoundedPositiveOffset(curve, index, target, prev, TargetSweepHorizon(floor, ceiling)).value;
            0 < p.offset <= 210 && p.offset <= prev + 15 && p.effectiveMhz <= ceiling && p.mv >= floor
  {
    SingleBinAcceptedIff(curve, index, target, prev, TargetSweepHorizon(floor, ceiling));
  }

  // Probe i was accepted against the offset of the probe before it, the first one against stock.
  ghost predicate ProbeAccepted(curve: seq<Bin>, probes: seq<PositivePlan>, targets: seq<u32>, i: nat, floor: u32, ceiling: u32)
    requires i < |probes| == |targets|
  {
    var prev := if i == 0 then 0 else probes[i - 1].offset;
    PlanBoundedPositiveOffset(curve, probes[i].index, targets[i], prev, TargetSweepHorizon(floor, ceiling)) == Ok(probes[i])
  }

  // The horizon is only reachable step by step: over any descent of accepted probes, n of them
  // raise a bin by at most 15 * n MHz.
  lemma {:induction false} HorizonNeedsManySteps(
      curve: seq<Bin>, probes: seq<PositivePlan>, targets: seq<u32>, floor: u32, ceiling: u32, n: nat)
    requires n < |probes| == |targets|
    requires forall i :: 0 <= i < |probes| ==> ProbeAccepted(curve, probes, targets, i, floor, ceiling)
    ensures 0 < probes[n].offset <= Min(TARGET_SWEEP_HORIZON_MAX_MHZ, POS_OFFSET_STEP_MAX_MHZ * (n + 1))
    ensures probes[n].mv >= floor && probes[n].effectiveMhz <= ceiling
  {
    if n > 0 {
      HorizonNeedsManySteps(curve, probes, targets, floor, ceiling, n - 1);
    }
    assert ProbeAccepted(curve, probes, targets, n, floor, ceiling);
    ChainedStepsStaySmall(curve, probes[n].index, targets[n], if n == 0 then 0 else probes[n - 1].offset, floor, ceiling);
  }

  // ---------------------------------------------------------------- anchored plan

  datatype BinRole = Anchor | CappedAbove | ElasticBelow
  datatype AnchoredEntry = AnchoredEntry(index: nat, mv: u32, baseMhz: u32, offset: int, effectiveMhz: int, role: BinRole)

  datatype AnchoredPlan = AnchoredPlan(
    targetMhz: u32,
    anchor: PositivePlan,
    entries: seq<AnchoredEntry>,
    cappedAbove: nat,
    aboveAlreadyOk: nat,
    elasticBelow: nat,
    maxPositiveOffset: int,
    maxNegativeFlatten: int)

  // What each bin gets, once its plan is accepted.
  function EntryFor(b: Bin, a: PositivePlan, target: u32): AnchoredEntry
  {
    if b.index == a.index then AnchoredEntry(b.index, b.mv, b.mhz, a.offset, target, Anchor)
    else if b.mv > a.mv then
      var offset := if b.mhz > target then target - b.mhz else 0;
      AnchoredEntry(b.index, b.mv, b.mhz, offset, b.mhz + offset, CappedAbove)
    else AnchoredEntry(b.index, b.mv, b.mhz, 0, b.mhz, ElasticBelow)
  }

  predicate Obstructs(b: Bin, a: PositivePlan, target: u32)
  {
    b.index != a.index && b.mv <= a.mv && b.mhz > target
  }

  ghost predicate NoneObstructs(curve: seq<Bin>, a: PositivePlan, target: u32)
  {
    forall i :: 0 <= i < |curve| ==> !Obstructs(curve[i], a, target)
  }

  // Number of bins a test picks out.
  function Count(curve: seq<Bin>, test: Bin -> bool): (n: nat)
    ensures n <= |curve|
  {
    if curve == [] then 0
    else Count(curve[..|curve| - 1], test) + if test(curve[|curve| - 1]) then 1 else 0
  }

  // A bin at or below the anchor voltage, other than the anchor: it keeps its base clock.
  predicate Elastic(b: Bin, a: PositivePlan) { b.index != a.index && b.mv <= a.mv }

  function IsAnchorBin(a: PositivePlan): Bin -> bool { (b: Bin) => b.index == a.index }
  function IsCappedBin(a: PositivePlan, target: u32): Bin -> bool
  {
    (b: Bin) => b.index != a.index && b.mv > a.mv && b.mhz > target
  }
  function IsAboveOkBin(a: PositivePlan, target: u32): Bin -> bool
  {
    (b: Bin) => b.index != a.index && b.mv > a.mv && b.mhz <= target
  }
  function IsElasticBin(a: PositivePlan): Bin -> bool { (b: Bin) => Elastic(b, a) }

  // Largest down-cap over the bins above the anchor, 0 when none is capped.
  function LargestCap(curve: seq<Bin>, a: PositivePlan, target: u32): int
  {
    if curve == [] then 0
    else
      var b := curve[|curve| - 1];
      var rest := LargestCap(curve[..|curve| - 1], a, target);
      if IsCappedBin(a, target)(b) then Max(rest, b.mhz - target) else rest
  }

  // The accepted plan, spelled out.
  ghost predicate IsPlanFor(plan: AnchoredPlan, curve: seq<Bin>, a: PositivePlan, target: u32)
  {
    && plan.targetMhz == target && plan.anchor == a && |plan.entries| == |curve|
    && (forall i :: 0 <= i < |curve| ==> plan.entries[i] == EntryFor(curve[i], a, target))
    && plan.cappedAbove == Count(curve, IsCappedBin(a, target))
    && plan.aboveAlreadyOk == Count(curve, IsAboveOkBin(a, target))
    && plan.elasticBelow == Count(curve, IsElasticBin(a))
    && plan.maxPositiveOffset == a.offset
    && plan.maxNegativeFlatten == LargestCap(curve, a, target)
  }

  function PositiveCount(entries: seq<AnchoredEntry>): nat
  {
    if entries == [] then 0
    else PositiveCount(entries[..|entries| - 1]) + if entries[|entries| - 1].offset > 0 then 1 else 0
  }

  lemma {:induction false} PositivesAreAnchors(curve: seq<Bin>, entries: seq<AnchoredEntry>, a: PositivePlan, target: u32)
    requires |entries| == |curve| && a.offset > 0
    requires forall i :: 0 <= i < |curve| ==> entries[i] == EntryFor(curve[i], a, target)
    ensures PositiveCount(entries) == Count(curve, IsAnchorBin(a))
  {
    if curve != [] {
      var n := |curve| - 1;
      PositivesAreAnchors(curve[..n], entries[..n], a, target);
    }
  }

  lemma TakeOne(curve: seq<Bin>, i: nat, test: Bin -> bool)
    requires i < |curve|
    ensures Count(curve[..i + 1], test) == Count(curve[..i], test) + if test(curve[i]) then 1 else 0
  {
    assert curve[..i + 1][..i] == curve[..i];
  }

  lemma OneMoreBin(curve: seq<Bin>, i: nat, a: PositivePlan, target: u32)
    requires i < |curve|
    ensures var b := curve[i];
            && Count(curve[..i + 1], IsCappedBin(a, target))
               == Count(curve[..i], IsCappedBin(a, target)) + (if b.index != a.index && b.mv > a.mv && b.mhz > target then 1 else 0)
            && Count(curve[..i + 1], IsAboveOkBin(a, target))
               == Count(curve[..i], IsAboveOkBin(a, target)) + (if b.index != a.index && b.mv > a.mv && b.mhz <= target then 1 else 0)
            && Count(curve[..i + 1], IsElasticBin(a))
               == Count(curve[..i], IsElasticBin(a)) + (if b.index != a.index && b.mv <= a.mv then 1 else 0)
            && LargestCap(curve[..i + 1], a, target)
               == if b.index != a.index && b.mv > a.mv && b.mhz > target
                  then Max(LargestCap(curve[..i], a, target), b.mhz - target) else LargestCap(curve[..i], a, target)
  {
    TakeOne(curve, i, IsCappedBin(a, target));
    TakeOne(curve, i, IsAboveOkBin(a, target));
    TakeOne(curve, i, IsElasticBin(a));
    assert curve[..i + 1][..i] == curve[..i];
  }

  // Every failure of the anchored planner, and the whole plan when there is none.
  ghost predicate IsAnchoredAnswer(r: Result<AnchoredPlan>, single: Result<PositivePlan>, curve: seq<Bin>, target: u32)
  {
    match single
    case Err(e) => r == Err(e)
    case Ok(a) =>
      if !NoneObstructs(curve, a, target) then r == Err(LowerBinAboveTarget)
      else if Count(curve, IsAnchorBin(a)) != 1 then r == Err(RaiseOutsideAnchor)
      else r.Ok? && IsPlanFor(r.value, curve, a, target)
  }

  method PlanAnchored(curve: seq<Bin>, anchorIndex: nat, target: u32, prev: i32, limits: Limits)
      returns (r: Result<AnchoredPlan>)
    ensures IsAnchoredAnswer(r, PlanBoundedPositiveOffset(curve, anchorIndex, target, prev, limits), curve, target)
  {
    var single := PlanBoundedPositiveOffset(curve, anchorIndex, target, prev, limits);
    if single.Err? {
      return Err(single.error);
    }
    SingleBinAcceptedIff(curve, anchorIndex, target, prev, limits);
    r := AnchorOn(curve, single.value, target);
  }

  // The composition around a validated anchor: cap what is above, leave what is below.
  method AnchorOn(curve: seq<Bin>, a: PositivePlan, target: u32) returns (r: Result<AnchoredPlan>)
    requires IsSaneCurve(curve) && a.offset > 0 && target < TWO_31
    ensures IsAnchoredAnswer(r, Ok(a), curve, target)
  {
    var entries: seq<AnchoredEntry> := [];
    var capped, alreadyOk, elastic, maxFlatten := 0, 0, 0, 0;
    for i := 0 to |curve|
      invariant |entries| == i
      invariant forall j :: 0 <= j < i ==> entries[j] == EntryFor(curve[j], a, target) && !Obstructs(curve[j], a, target)
      invariant capped == Count(curve[..i], IsCappedBin(a, target))
      invariant alreadyOk == Count(curve[..i], IsAboveOkBin(a, target))
      invariant elastic == Count(curve[..i], IsElasticBin(a))
      invariant maxFlatten == LargestCap(curve[..i], a, target)
    {
      var b := curve[i];
      assert IsSane(b);
      OneMoreBin(curve, i, a, target);
      var baseI, targetI := WrapI32(b.mhz), WrapI32(target);
      assert baseI == b.mhz && targetI == target;
      if b.index == a.index {
        entries := entries + [AnchoredEntry(b.index, b.mv, b.mhz, a.offset, target, Anchor)];
      } else if b.mv > a.mv {
        var offset: int := if baseI > targetI then targetI - baseI else 0;
        var effective: int := baseI + offset;
        // The planner's two defensive rejections (a raise, or a result above the target) cannot fire.
        assert offset <= 0 && effective <= target;
        if offset < 0 {
          capped := capped + 1;
          maxFlatten := Max(maxFlatten, -offset);
        } else {
          alreadyOk := alreadyOk + 1;
        }
        entries := entries + [AnchoredEntry(b.index, b.mv, b.mhz, offset, Max(effective, 0), CappedAbove)];
      } else {
        if baseI > targetI {
          assert Obstructs(curve[i], a, target);
          return Err(LowerBinAboveTarget);
        }
        elastic := elastic + 1;
        entries := entries + [AnchoredEntry(b.index, b.mv, b.mhz, 0, b.mhz, ElasticBelow)];
      }
    }
    assert curve[..|curve|] == curve;
    PositivesAreAnchors(curve, entries, a, target);
    if PositiveCount(entries) != 1 {
      return Err(RaiseOutsideAnchor);
    }
    r := Ok(AnchoredPlan(target, a, entries, capped, alreadyOk, elastic, a.offset, maxFlatten));
  }

  // ---------------------------------------------------------------- what an accepted plan promises

  lemma {:induction false} AtLeastOne(curve: seq<Bin>, test: Bin -> bool, i: nat)
    requires i < |curve| && test(curve[i])
    ensures Count(curve, test) >= 1
    decreases |curve|
  {
    if i < |curve| - 1 { AtLeastOne(curve[..|curve| - 1], test, i); }
  }

  lemma {:induction false} OnlyOne(curve: seq<Bin>, test: Bin -> bool, i: nat, j: nat)
    requires i < j < |curve| && test(curve[i]) && test(curve[j])
    ensures Count(curve, test) >= 2
    decreases |curve|
  {
    var n := |curve| - 1;
    if j == n {
      AtLeastOne(curve[..n], test, i);
    } else {
      OnlyOne(curve[..n], test, i, j);
    }
  }

  ghost predicate Accepted(curve: seq<Bin>, a: PositivePlan, index: nat, target: u32, prev: i32, limits: Limits)
  {
    && PlanBoundedPositiveOffset(curve, index, target, prev, limits) == Ok(a)
    && NoneObstructs(curve, a, target) && Count(curve, IsAnchorBin(a)) == 1
  }

  // The anchor is the only raised bin, nothing ends above the target, and the target is reached.
  lemma OnlyAnchorRaised(curve: seq<Bin>, a: PositivePlan, index: nat, target: u32, prev: i32, limits: Limits, plan: AnchoredPlan)
    requires Accepted(curve, a, index, target, prev, limits) && IsPlanFor(plan, curve, a, target)
    ensures var k := FindBin(curve, index).value;
            && plan.entries[k].role == Anchor && plan.entries[k].baseMhz + plan.entries[k].offset == target
            && plan.entries[k].effectiveMhz == target && plan.entries[k].offset == plan.maxPositiveOffset
            && forall i :: 0 <= i < |curve| && i != k ==>
                 plan.entries[i].role != Anchor && plan.entries[i].offset <= 0
                 && plan.entries[i].effectiveMhz == plan.entries[i].baseMhz + plan.entries[i].offset <= target
  {
    SingleBinAcceptedIff(curve, index, target, prev, limits);
    var k := FindBin(curve, index).value;
    forall i | 0 <= i < |curve| && i != k ensures curve[i].index != a.index {
      if curve[i].index == a.index {
        OnlyOne(curve, IsAnchorBin(a), if i < k then i else k, if i < k then k else i);
      }
    }
    forall i | 0 <= i < |curve| && i != k
      ensures plan.entries[i].effectiveMhz <= target
    {
      assert !Obstructs(curve[i], a, target);
    }
  }

  ghost function Positions(curve: seq<Bin>, test: Bin -> bool): set<nat>
  {
    set i: nat | i < |curve| && test(curve[i])
  }

  lemma {:induction false} CountIsCardinality(curve: seq<Bin>, test: Bin -> bool)
    ensures Count(curve, test) == |Positions(curve, test)|
  {
    if curve == [] {
      assert Positions(curve, test) == {};
    } else {
      var n := |curve| - 1;
      var before := curve[..n];
      CountIsCardinality(before, test);
      OneMore(Positions(before, test), Positions(curve, test), n, test(curve[n]));
    }
  }

  // What one entry of an accepted plan says about its bin, told on the bin.
  ghost predicate EntryOfBin(e: AnchoredEntry, b: Bin, anchorIndex: nat, anchorMv: u32, target: u32)
  {
    && e.index == b.index && e.mv == b.mv && e.baseMhz == b.mhz && e.effectiveMhz == b.mhz + e.offset
    && (e.role == Anchor <==> b.index == anchorIndex)
    && (e.role == CappedAbove <==> b.index != anchorIndex && b.mv > anchorMv)
    && (e.role == ElasticBelow <==> b.index != anchorIndex && b.mv <= anchorMv)
    && e.offset == (match e.role
                    case Anchor => target - b.mhz
                    case CappedAbove => if b.mhz > target then target - b.mhz else 0
                    case ElasticBelow => 0)
  }

  // Every accepted plan, whoever computed it: one entry per bin in curve order, each addressing its
  // own bin; the anchor is the only bin of the given index.
  lemma AnchoredPlanAddressesCurve(
      r: Result<AnchoredPlan>, curve: seq<Bin>, anchorIndex: nat, target: u32, prev: i32, limits: Limits) returns (k: nat)
    requires IsAnchoredAnswer(r, PlanBoundedPositiveOffset(curve, anchorIndex, target, prev, limits), curve, target)
    requires r.Ok?
    ensures r.value.targetMhz == target && |r.value.entries| == |curve|
    ensures k < |curve| && forall i :: 0 <= i < |curve| ==> (curve[i].index == anchorIndex <==> i == k)
    ensures r.value.anchor.index == anchorIndex && r.value.anchor.mv == curve[k].mv
    ensures r.value.anchor.offset == r.value.maxPositiveOffset == target - curve[k].mhz > 0
    ensures forall i :: 0 <= i < |curve| ==> EntryOfBin(r.value.entries[i], curve[i], anchorIndex, curve[k].mv, target)
  {
    var a := r.value.anchor;
    assert Accepted(curve, a, anchorIndex, target, prev, limits);
    SingleBinAcceptedIff(curve, anchorIndex, target, prev, limits);
    k := FindBin(curve, anchorIndex).value;
    forall i | 0 <= i < |curve| && i != k ensures curve[i].index != anchorIndex {
      if curve[i].index == anchorIndex {
        OnlyOne(curve, IsAnchorBin(a), if i < k then i else k, if i < k then k else i);
      }
    }
  }

  // Its counts are those of the bins above the anchor voltage that start above the target, of those
  // that do not, and of the others; its largest flatten is the largest cap.
  lemma AnchoredPlanCounts(
      r: Result<AnchoredPlan>, curve: seq<Bin>, anchorIndex: nat, target: u32, prev: i32, limits: Limits, mv: u32)
    requires IsAnchoredAnswer(r, PlanBoundedPositiveOffset(curve, anchorIndex, target, prev, limits), curve, target)
    requires r.Ok? && mv == r.value.anchor.mv
    ensures r.value.cappedAbove
         == |set i: nat | i < |curve| && curve[i].index != anchorIndex && curve[i].mv > mv && curve[i].mhz > target|
    ensures r.value.aboveAlreadyOk
         == |set i: nat | i < |curve| && curve[i].index != anchorIndex && curve[i].mv > mv && curve[i].mhz <= target|
    ensures r.value.elasticBelow == |set i: nat | i < |curve| && curve[i].index != anchorIndex && curve[i].mv <= mv|
    ensures forall i :: 0 <= i < |curve| && curve[i].index != anchorIndex && curve[i].mv > mv ==>
              curve[i].mhz - target <= r.value.maxNegativeFlatten
    ensures r.value.maxNegativeFlatten == 0 ||
            exists i ::
              0 <= i < |curve| && curve[i].index != anchorIndex && curve[i].mv > mv
              && curve[i].mhz - target == r.value.maxNegativeFlatten > 0
  {
    var a := r.value.anchor;
    var k := AnchoredPlanAddressesCurve(r, curve, anchorIndex, target, prev, limits);
    CountIsCardinality(curve, IsCappedBin(a, target));
    CountIsCardinality(curve, IsAboveOkBin(a, target));
    CountIsCardinality(curve, IsElasticBin(a));
    assert Positions(curve, IsCappedBin(a, target))
        == (set i: nat | i < |curve| && curve[i].index != anchorIndex && curve[i].mv > mv && curve[i].mhz > target);
    assert Positions(curve, IsAboveOkBin(a, target))
        == (set i: nat | i < |curve| && curve[i].index != anchorIndex && curve[i].mv > mv && curve[i].mhz <= target);
    assert Positions(curve, IsElasticBin(a))
        == (set i: nat | i < |curve| && curve[i].index != anchorIndex && curve[i].mv <= mv);
    LargestCapIsLargest(curve, a, target);
  }

  lemma {:induction false} LargestCapIsLargest(curve: seq<Bin>, a: PositivePlan, target: u32)
    ensures var m := LargestCap(curve, a, target);
            && m >= 0
            && (forall i :: 0 <= i < |curve| && IsCappedBin(a, target)(curve[i]) ==> curve[i].mhz - target <= m)
            && (m == 0 || exists i :: 0 <= i < |curve| && IsCappedBin(a, target)(curve[i]) && curve[i].mhz - target == m)
  {
    if curve != [] {
      var n := |curve| - 1;
      LargestCapIsLargest(curve[..n], a, target);
      var m := LargestCap(curve[..n], a, target);
      if m > 0 {
        var i :| 0 <= i < n && IsCappedBin(a, target)(curve[..n][i]) && curve[..n][i].mhz - target == m;
        assert IsCappedBin(a, target)(curve[i]);
      }
      forall i | 0 <= i < n && IsCappedBin(a, target)(curve[i]) ensures curve[i].mhz - target <= m {
        assert IsCappedBin(a, target)(curve[..n][i]);
      }
    }
  }

  // Another bin at or below the anchor voltage that starts above the target.
  ghost predicate IsTooHigh(b: Bin, anchorIndex: nat, anchorMv: u32, target: u32)
  {
    b.index != anchorIndex && b.mv <= anchorMv && b.mhz > target
  }

  // Which rule an anchored request breaks: the anchor's own first; then a bin at or below the anchor
  // voltage that already exceeds the target; then a second bin under the anchor's index.
  lemma AnchoredRefusals(
      r: Result<AnchoredPlan>, curve: seq<Bin>, anchorIndex: nat, target: u32, prev: i32, limits: Limits)
    requires IsAnchoredAnswer(r, PlanBoundedPositiveOffset(curve, anchorIndex, target, prev, limits), curve, target)
    ensures var single := PlanBoundedPositiveOffset(curve, anchorIndex, target, prev, limits);
            && (single.Err? ==> r == Err(single.error))
            && (single.Ok? ==>
                  var mv := single.value.mv;
                  && (r == Err(LowerBinAboveTarget) <==>
                        exists i :: 0 <= i < |curve| && IsTooHigh(curve[i], anchorIndex, mv, target))
                  && (r == Err(RaiseOutsideAnchor) ==>
                        exists i, j :: 0 <= i < j < |curve| && curve[i].index == anchorIndex == curve[j].index)
                  && (r.Err? ==> r.error == LowerBinAboveTarget || r.error == RaiseOutsideAnchor))
  {
    var single := PlanBoundedPositiveOffset(curve, anchorIndex, target, prev, limits);
    if single.Ok? {
      var a := single.value;
      SingleBinAcceptedIff(curve, anchorIndex, target, prev, limits);
      forall i | 0 <= i < |curve|
        ensures Obstructs(curve[i], a, target) <==> IsTooHigh(curve[i], anchorIndex, a.mv, target)
      {
      }
      if NoneObstructs(curve, a, target) && Count(curve, IsAnchorBin(a)) != 1 {
        TwoAnchors(curve, a, FindBin(curve, anchorIndex).value);
      }
    }
  }

  lemma TwoAnchors(curve: seq<Bin>, a: PositivePlan, k: nat)
    requires k < |curve| && curve[k].index == a.index && Count(curve, IsAnchorBin(a)) != 1
    ensures exists i, j :: 0 <= i < j < |curve| && curve[i].index == a.index == curve[j].index
  {
    CountIsCardinality(curve, IsAnchorBin(a));
    if !exists i :: 0 <= i < |curve| && curve[i].index == a.index && i != k {
      OneMore({}, Positions(curve, IsAnchorBin(a)), k, true);
      assert false;
    }
  }

  // The four kinds of bin partition the curve.
  lemma {:induction false} CountsPartition(curve: seq<Bin>, a: PositivePlan, target: u32)
    ensures Count(curve, IsAnchorBin(a)) + Count(curve, IsCappedBin(a, target))
          + Count(curve, IsAboveOkBin(a, target)) + Count(curve, IsElasticBin(a)) == |curve|
  {
    if curve != [] { CountsPartition(curve[..|curve| - 1], a, target); }
  }

  // Every other bin gets exactly what the monotone ceiling at the anchor voltage would write.
  lemma AnchoredAgreesWithMonotone(curve: seq<Bin>, a: PositivePlan, index: nat, target: u32, prev: i32, limits: Limits, i: nat)
    requires Accepted(curve, a, index, target, prev, limits) && i < |curve| && curve[i].index != a.index
    ensures EntryFor(curve[i], a, target).offset == PlanVfCeilingMonotone(curve, a.mv, target)[i].offset
    ensures EntryFor(curve[i], a, target).offset == Min(0, PlanVfCeiling(curve, a.mv, target)[i].offset)
  {
    SingleBinAcceptedIff(curve, index, target, prev, limits);
    assert IsSane(curve[i]) && !Obstructs(curve[i], a, target);
    OffsetToMeaning(target, curve[i].mhz);
  }

  // ---- is the resulting curve still monotone in voltage?

  function Effective(b: Bin, a: PositivePlan, target: u32): int { EntryFor(b, a, target).effectiveMhz }

  ghost predicate BaseMonotone(curve: seq<Bin>)
  {
    forall i, j :: 0 <= i < |curve| && 0 <= j < |curve| && curve[i].mv < curve[j].mv ==> curve[i].mhz <= curve[j].mhz
  }

  ghost predicate EffectiveMonotone(curve: seq<Bin>, a: PositivePlan, target: u32)
  {
    forall i, j :: 0 <= i < |curve| && 0 <= j < |curve| && curve[i].mv < curve[j].mv ==>
      Effective(curve[i], a, target) <= Effective(curve[j], a, target)
  }

  ghost predicate BelowInOrder(curve: seq<Bin>, a: PositivePlan)
  {
    forall i, j :: 0 <= i < |curve| && 0 <= j < |curve| && Elastic(curve[i], a) && Elastic(curve[j], a) ==>
      curve[i].mv < curve[j].mv ==> curve[i].mhz <= curve[j].mhz
  }

  ghost predicate AboveReachesTarget(curve: seq<Bin>, a: PositivePlan, target: u32)
  {
    forall j :: 0 <= j < |curve| && curve[j].mv > a.mv ==> curve[j].mhz >= target
  }

  lemma AcceptedBins(curve: seq<Bin>, a: PositivePlan, index: nat, target: u32, prev: i32, limits: Limits) returns (k: nat)
    requires Accepted(curve, a, index, target, prev, limits)
    ensures k < |curve| && curve[k].index == a.index && curve[k].mv == a.mv
    ensures forall i :: 0 <= i < |curve| && i != k ==> curve[i].index != a.index
    ensures forall i :: 0 <= i < |curve| && i != k ==>
              Effective(curve[i], a, target) == if curve[i].mv > a.mv then Min(curve[i].mhz, target) else curve[i].mhz
    ensures Effective(curve[k], a, target) == target
    ensures forall i :: 0 <= i < |curve| && i != k && curve[i].mv <= a.mv ==> curve[i].mhz <= target
  {
    SingleBinAcceptedIff(curve, index, target, prev, limits);
    k := FindBin(curve, index).value;
    forall i | 0 <= i < |curve| && i != k ensures curve[i].index != a.index {
      if curve[i].index == a.index {
        OnlyOne(curve, IsAnchorBin(a), if i < k then i else k, if i < k then k else i);
      }
    }
    forall i | 0 <= i < |curve| && i != k && curve[i].mv <= a.mv ensures curve[i].mhz <= target {
      assert !Obstructs(curve[i], a, target);
    }
  }

  // Not always. Whatever the base curve, the anchored curve is monotone exactly when the untouched
  // bins up to the anchor voltage are, and no bin above it starts below the target.
  lemma AnchoredCurveMonotoneIff(curve: seq<Bin>, a: PositivePlan, index: nat, target: u32, prev: i32, limits: Limits)
    requires Accepted(curve, a, index, target, prev, limits)
    ensures EffectiveMonotone(curve, a, target) <==> BelowInOrder(curve, a) && AboveReachesTarget(curve, a, target)
  {
    var k := AcceptedBins(curve, a, index, target, prev, limits);
    if EffectiveMonotone(curve, a, target) {
      forall i, j | 0 <= i < |curve| && 0 <= j < |curve| && Elastic(curve[i], a) && Elastic(curve[j], a)
                    && curve[i].mv < curve[j].mv
        ensures curve[i].mhz <= curve[j].mhz
      {
        assert Effective(curve[i], a, target) <= Effective(curve[j], a, target);
      }
      forall j | 0 <= j < |curve| && curve[j].mv > a.mv ensures curve[j].mhz >= target {
        assert Effective(curve[k], a, target) <= Effective(curve[j], a, target);
      }
    }
    if BelowInOrder(curve, a) && AboveReachesTarget(curve, a, target) {
      forall i, j | 0 <= i < |curve| && 0 <= j < |curve| && curve[i].mv < curve[j].mv
        ensures Effective(curve[i], a, target) <= Effective(curve[j], a, target)
      {
      }
    }
  }

  // Two sane bins for which it fails: the upper one starts below the target.
  const DIPPING: seq<Bin> := [Bin(0, 800, 1780), Bin(1, 806, 1790)]
  const DIP_ANCHOR: PositivePlan := PositivePlan(0, 800, 1780, 20, 10, 10, 1800)

  lemma DippingAccepted()
    ensures Accepted(DIPPING, DIP_ANCHOR, 0, 1800, 10, Conservative(700, 2100))
  {
    var test := IsAnchorBin(DIP_ANCHOR);
    assert DIPPING[..1] == [DIPPING[0]] && [DIPPING[0]][..0] == [];
    assert Count([DIPPING[0]], test) == 1 && Count(DIPPING, test) == 1;
    assert IsSane(DIPPING[0]) && IsSane(DIPPING[1]) && FindBin(DIPPING, 0) == Some(0);
    OffsetToMeaning(1800, 1780);
    assert PlanBin(DIPPING[0], 1800, 10, Conservative(700, 2100)) == Ok(DIP_ANCHOR);
  }

  lemma AnchoredCurveCanDip()
    ensures BaseMonotone(DIPPING) && Accepted(DIPPING, DIP_ANCHOR, 0, 1800, 10, Conservative(700, 2100))
    ensures !EffectiveMonotone(DIPPING, DIP_ANCHOR, 1800)
  {
    DippingAccepted();
    assert Effective(DIPPING[0], DIP_ANCHOR, 1800) == 1800 && Effective(DIPPING[1], DIP_ANCHOR, 1800) == 1790;
  }
}
