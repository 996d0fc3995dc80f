/** The sweep step machine: one bisection per target frequency, then profile synthesis. */
module SweepEngine {
  import opened MachineInts
  import opened Bisection

  datatype VfPoint = VfPoint(freqMhz: u32, voltageMv: u32)
  datatype TradeoffPoint = TradeoffPoint(freqMhz: u32, vminMv: u32)
  datatype ProfileSet = ProfileSet(godforge: VfPoint, brokkrsBest: VfPoint, deepCalm: VfPoint)
  datatype SweepPhase = Idle | Baseline | VramDiagnostic | Bisecting | Synthesis | Done | Aborted
  datatype SweepCommand = ApplyAndTest(point: VfPoint) | Finished

  datatype SweepConfig = SweepConfig(
    targets: seq<u32>,
    stock: u32,
    floor: u32,
    descent: u32,
    minStep: u32,
    fixedMargin: u32,
    tempCoeff: u32,
    headroom: u32)

  // ---------------------------------------------------------------- margin and profiles

  function Margin(c: SweepConfig): nat { c.fixedMargin + c.tempCoeff * c.headroom }

  // Release-mode u32 arithmetic: the sum is taken modulo 2^32.
  function ApplySafetyMargin(cliff: u32, fixedMargin: u32, tempCoeff: u32, headroom: u32): u32
  {
    WrapU32(WrapU32(cliff + fixedMargin) + WrapU32(tempCoeff * headroom))
  }

  lemma WrappedSum(a: nat, b: nat)
    ensures WrapU32(WrapU32(a) + WrapU32(b)) == a + b <==> a + b < TWO_32
  {
  }

  lemma MarginIsAddedIff(cliff: u32, c: SweepConfig)
    ensures Margin(c) == c.fixedMargin + c.tempCoeff * c.headroom
    ensures ApplySafetyMargin(cliff, c.fixedMargin, c.tempCoeff, c.headroom) == cliff + Margin(c)
       <==> cliff + Margin(c) < TWO_32
  {
    ProductBound(c.tempCoeff, c.headroom, c.tempCoeff, c.headroom);
    WrappedSum(cliff + c.fixedMargin, c.tempCoeff * c.headroom);
  }

  // The element with the largest key, the last one among equals.
  function PickMax(points: seq<TradeoffPoint>, key: TradeoffPoint -> int): (best: TradeoffPoint)
    requires points != []
    ensures best in points && forall p :: p in points ==> key(p) <= key(best)
  {
    var n := |points| - 1;
    assert points == points[..n] + [points[n]];
    if n == 0 then points[0]
    else
      var b := PickMax(points[..n], key);
      if key(points[n]) >= key(b) then points[n] else b
  }

  // Ties go to the last point, as `max_by_key` resolves them.
  lemma {:induction false} PickMaxIsLast(points: seq<TradeoffPoint>, key: TradeoffPoint -> int) returns (i: nat)
    requires points != []
    ensures i < |points| && points[i] == PickMax(points, key)
    ensures forall j :: i < j < |points| ==> key(points[j]) < key(points[i])
  {
    var n := |points| - 1;
    if n == 0 || key(points[n]) >= key(PickMax(points[..n], key)) {
      i := n;
    } else {
      i := PickMaxIsLast(points[..n], key);
      assert forall j :: 0 <= j < n ==> points[..n][j] == points[j];
    }
  }

  // Lexicographic keys of two u32 fields as one integer.
  function GodforgeKey(p: TradeoffPoint): int { p.freqMhz * TWO_32 + (U32_MAX - p.vminMv) }
  function BrokkrKey(p: TradeoffPoint): int { p.freqMhz * 1000 / Max(p.vminMv, 1) }
  function CalmKey(p: TradeoffPoint): int { -(p.vminMv * TWO_32 + (U32_MAX - p.freqMhz)) }

  function Holding(points: seq<TradeoffPoint>, threshold: int): (r: seq<TradeoffPoint>)
    ensures forall p :: p in r <==> p in points && p.freqMhz >= threshold
  {
    if points == [] then []
    else
      var n := |points| - 1;
      assert points == points[..n] + [points[n]];
      Holding(points[..n], threshold) + if points[n].freqMhz >= threshold then [points[n]] else []
  }

  function PointOf(p: TradeoffPoint): VfPoint { VfPoint(p.freqMhz, p.vminMv) }

  function SynthesizeProfiles(baseline: u32, points: seq<TradeoffPoint>): Option<ProfileSet>
  {
    if points == [] then None
    else
      var godforge := PickMax(points, GodforgeKey);
      var brokkr := PickMax(points, BrokkrKey);
      var holding := Holding(points, baseline * 95 / 100);
      var calm := if holding == [] then godforge else PickMax(holding, CalmKey);
      Some(ProfileSet(PointOf(godforge), PointOf(brokkr), PointOf(calm)))
  }

  lemma KeysOrder(p: TradeoffPoint, q: TradeoffPoint)
    ensures GodforgeKey(p) <= GodforgeKey(q) <==> p.freqMhz < q.freqMhz || (p.freqMhz == q.freqMhz && p.vminMv >= q.vminMv)
    ensures CalmKey(p) <= CalmKey(q) <==> p.vminMv > q.vminMv || (p.vminMv == q.vminMv && p.freqMhz <= q.freqMhz)
  {
  }

  ghost predicate OfTable(v: VfPoint, points: seq<TradeoffPoint>)
  {
    exists q :: q in points && PointOf(q) == v
  }

  lemma ProfilesAreOfTable(baseline: u32, points: seq<TradeoffPoint>)
    requires points != []
    ensures var s := SynthesizeProfiles(baseline, points);
            s.Some? && OfTable(s.value.godforge, points) && OfTable(s.value.brokkrsBest, points)
            && OfTable(s.value.deepCalm, points)
  {
    var holding := Holding(points, baseline * 95 / 100);
    assert PickMax(points, GodforgeKey) in points && PickMax(points, BrokkrKey) in points;
    if holding != [] { assert PickMax(holding, CalmKey) in points; }
  }

  // Godforge: no point has a higher clock, none at that clock a lower voltage. Brokkr's Best: none
  // has more MHz per mV.
  lemma TopProfilesAreExtremal(baseline: u32, points: seq<TradeoffPoint>, p: TradeoffPoint)
    requires p in points
    ensures var s := SynthesizeProfiles(baseline, points).value;
            && (p.freqMhz < s.godforge.freqMhz || (p.freqMhz == s.godforge.freqMhz && p.vminMv >= s.godforge.voltageMv))
            && p.freqMhz * 1000 / Max(p.vminMv, 1) <= s.brokkrsBest.freqMhz * 1000 / Max(s.brokkrsBest.voltageMv, 1)
  {
    KeysOrder(p, PickMax(points, GodforgeKey));
    assert BrokkrKey(p) <= BrokkrKey(PickMax(points, BrokkrKey));
  }

  // Deep Calm: among the points that hold 95% of the baseline none has a lower voltage, nor the
  // same at a higher clock.
  lemma DeepCalmIsCalmest(baseline: u32, points: seq<TradeoffPoint>, p: TradeoffPoint)
    requires p in points
    ensures var s, threshold := SynthesizeProfiles(baseline, points).value, baseline * 95 / 100;
            && (s.deepCalm.freqMhz < threshold ==> s.deepCalm == s.godforge && p.freqMhz < threshold)
            && (p.freqMhz >= threshold ==> s.deepCalm.freqMhz >= threshold)
            && (p.freqMhz >= threshold ==>
                  s.deepCalm.voltageMv < p.vminMv || (s.deepCalm.voltageMv == p.vminMv && s.deepCalm.freqMhz >= p.freqMhz))
  {
    var threshold := baseline * 95 / 100;
    var holding := Holding(points, threshold);
    if holding != [] {
      var calm := PickMax(holding, CalmKey);
      assert calm in holding;
      if p.freqMhz >= threshold {
        assert p in holding;
        KeysOrder(p, calm);
      }
    } else {
      assert p !in holding;
    }
  }

  // What the three profiles promise, and how they relate to each other.
  lemma ProfilesAreExtremal(baseline: u32, points: seq<TradeoffPoint>, p: TradeoffPoint)
    requires p in points
    ensures SynthesizeProfiles(baseline, points).Some?
    ensures var s, threshold := SynthesizeProfiles(baseline, points).value, baseline * 95 / 100;
            && OfTable(s.godforge, points) && OfTable(s.brokkrsBest, points) && OfTable(s.deepCalm, points)
            && (p.freqMhz < s.godforge.freqMhz || (p.freqMhz == s.godforge.freqMhz && p.vminMv >= s.godforge.voltageMv))
            && p.freqMhz * 1000 / Max(p.vminMv, 1) <= s.brokkrsBest.freqMhz * 1000 / Max(s.brokkrsBest.voltageMv, 1)
            && (s.deepCalm.freqMhz < threshold ==> s.deepCalm == s.godforge && p.freqMhz < threshold)
            && (p.freqMhz >= threshold ==> s.deepCalm.freqMhz >= threshold)
            && (p.freqMhz >= threshold ==>
                  s.deepCalm.voltageMv < p.vminMv || (s.deepCalm.voltageMv == p.vminMv && s.deepCalm.freqMhz >= p.freqMhz))
            && s.deepCalm.voltageMv <= s.godforge.voltageMv && s.deepCalm.freqMhz <= s.godforge.freqMhz
  {
    var s := SynthesizeProfiles(baseline, points).value;
    ProfilesAreOfTable(baseline, points);
    TopProfilesAreExtremal(baseline, points, p);
    DeepCalmIsCalmest(baseline, points, p);
    var calm :| calm in points && PointOf(calm) == s.deepCalm;
    TopProfilesAreExtremal(baseline, points, calm);
    var godforge :| godforge in points && PointOf(godforge) == s.godforge;
    DeepCalmIsCalmest(baseline, points, godforge);
  }

  // ---------------------------------------------------------------- the engine, as a value

  datatype Engine = Engine(
    config: SweepConfig,
    baseline: u32,
    phase: SweepPhase,
    index: nat,
    search: Option<Search>,
    tradeoffs: seq<TradeoffPoint>,
    profiles: Option<ProfileSet>)

  function Fresh(config: SweepConfig, baseline: u32): Engine
  {
    Engine(config, baseline, Bisecting, 0, None, [], None)
  }

  function StartOf(c: SweepConfig, freq: u32): Search
  {
    Start(freq, c.stock, c.floor, c.descent, c.minStep)
  }

  function Tradeoff(c: SweepConfig, s: Search): TradeoffPoint
  {
    TradeoffPoint(s.freqMhz, ApplySafetyMargin(s.stable, c.fixedMargin, c.tempCoeff, c.headroom))
  }

  function Finish(e: Engine): Engine
  {
    e.(profiles := SynthesizeProfiles(e.baseline, e.tradeoffs), phase := Done)
  }

  // The search the engine works on: the one in progress, or a fresh one for the next target.
  function Working(e: Engine): Search
    requires e.search.Some? || e.index < |e.config.targets|
  {
    if e.search.Some? then e.search.value else StartOf(e.config, e.config.targets[e.index])
  }

  function Next(e: Engine): (Engine, SweepCommand)
    decreases SatSub(|e.config.targets|, e.index), if e.search.Some? then 1 else 0
  {
    if e.phase == Done || e.phase == Aborted then (e, Finished)
    else if e.search.None? && e.index >= |e.config.targets| then (Finish(e), Finished)
    else
      var s := Working(e);
      match Probe(s)
      case Some(mv) => (e.(search := Some(Asked(s))), ApplyAndTest(VfPoint(s.freqMhz, mv)))
      case None => Next(e.(search := None, index := e.index + 1, tradeoffs := e.tradeoffs + [Tradeoff(e.config, s)]))
  }

  function Feed(e: Engine, v: Verdict): Engine
  {
    if e.search.None? then e else e.(search := Some(Learn(e.search.value, v)))
  }

  function Abort(e: Engine): Engine { e.(phase := Aborted, search := None) }

  datatype Op = Ask | Answer(v: Verdict) | Stop

  function Do(e: Engine, op: Op): Engine
  {
    match op
    case Ask => Next(e).0
    case Answer(v) => Feed(e, v)
    case Stop => Abort(e)
  }

  function DoAll(e: Engine, ops: seq<Op>): Engine
    decreases |ops|
  {
    if ops == [] then e else DoAll(Do(e, ops[0]), ops[1..])
  }

  // ---------------------------------------------------------------- over every run

  // The search stands where some answers take a fresh one, apart from a question still open.
  ghost predicate Reached(c: SweepConfig, freq: u32, s: Search)
  {
    exists answers: seq<Verdict> :: s.(current := None) == Run(StartOf(c, freq), answers)
  }

  // A recorded row is where some answers end the search for its target, plus the margin.
  ghost predicate Recorded(c: SweepConfig, freq: u32, t: TradeoffPoint)
  {
    exists s: Search :: Searching(c, freq, s) && Converged(s) && t == Tradeoff(c, s)
  }

  ghost predicate Searching(c: SweepConfig, freq: u32, s: Search)
  {
    && Valid(s) && s.freqMhz == freq && Min(c.stock, c.floor) <= s.stable <= c.stock
    && s.floor == c.floor && s.descent == Max(c.descent, 1) && s.minStep == Max(c.minStep, 1)
    && Reached(c, freq, s)
  }

  // Every target has its row, and the profiles are those of the whole table.
  ghost predicate AllRecorded(e: Engine)
  {
    e.index == |e.config.targets| && e.profiles == SynthesizeProfiles(e.baseline, e.tradeoffs)
  }

  ghost predicate Inv(e: Engine)
  {
    && e.index <= |e.config.targets| && |e.tradeoffs| == e.index
    && (forall i :: 0 <= i < e.index ==> Recorded(e.config, e.config.targets[i], e.tradeoffs[i]))
    && (e.phase == Bisecting || e.phase == Done || e.phase == Aborted)
    && (e.search.Some? ==> e.phase == Bisecting && e.index < |e.config.targets|
                           && Searching(e.config, e.config.targets[e.index], e.search.value))
    && (e.phase == Bisecting ==> e.profiles == None)
    && (e.phase == Done ==> AllRecorded(e))
    && (e.phase == Aborted ==> e.profiles == None || AllRecorded(e))
  }

  lemma StartSearching(c: SweepConfig, freq: u32)
    ensures Searching(c, freq, StartOf(c, freq))
  {
    assert Run(StartOf(c, freq), []) == StartOf(c, freq);
  }

  lemma AnswerReaches(c: SweepConfig, freq: u32, s: Search, v: Verdict)
    requires Valid(s) && Reached(c, freq, s)
    ensures Reached(c, freq, Asked(s)) && Reached(c, freq, Learn(s, v))
  {
    var answers :| s.(current := None) == Run(StartOf(c, freq), answers);
    assert Asked(s).(current := None) == s.(current := None);
    if s.current.Some? {
      var rest := s.(current := None);
      assert Asked(rest) == s && !Converged(rest);
      RunAppend(StartOf(c, freq), answers, v);
      assert Learn(s, v).(current := None) == Run(StartOf(c, freq), answers + [v]);
    }
  }

  lemma SearchingSteps(c: SweepConfig, freq: u32, s: Search, v: Verdict)
    requires Searching(c, freq, s)
    ensures Searching(c, freq, Asked(s)) && Searching(c, freq, Learn(s, v))
  {
    EveryStepKeepsValid(s, v);
    AnswerReaches(c, freq, s, v);
    if Probe(s).Some? { ProbeInGap(s); }
  }

  function Advanced(e: Engine, s: Search): Engine
  {
    e.(search := None, index := e.index + 1, tradeoffs := e.tradeoffs + [Tradeoff(e.config, s)])
  }

  lemma AdvanceKeepsInv(e: Engine, s: Search)
    requires Inv(e) && e.phase == Bisecting && e.index < |e.config.targets|
    requires Searching(e.config, e.config.targets[e.index], s) && Converged(s)
    ensures Inv(Advanced(e, s))
  {
    assert Recorded(e.config, e.config.targets[e.index], Tradeoff(e.config, s));
  }

  // The command always names a point of the current target between the floor and stock.
  lemma {:induction false} NextKeepsInv(e: Engine)
    requires Inv(e)
    ensures Inv(Next(e).0) && Next(e).0.config == e.config && Next(e).0.index >= e.index
    ensures e.tradeoffs <= Next(e).0.tradeoffs
    ensures match Next(e).1
            case Finished => Next(e).0.phase == Done || Next(e).0.phase == Aborted
            case ApplyAndTest(p) =>
              && Next(e).0.phase == Bisecting && Next(e).0.search.Some?
              && Next(e).0.search.value.current == Some(p.voltageMv)
              && p.freqMhz == e.config.targets[Next(e).0.index]
              && e.config.floor <= p.voltageMv < e.config.stock
    decreases SatSub(|e.config.targets|, e.index), if e.search.Some? then 1 else 0
  {
    if e.phase == Bisecting && (e.search.Some? || e.index < |e.config.targets|) {
      var freq := e.config.targets[e.index];
      StartSearching(e.config, freq);
      var s := Working(e);
      SearchingSteps(e.config, freq, s, Stable);
      if Probe(s).Some? {
        ProbeInGap(s);
      } else {
        AdvanceKeepsInv(e, s);
        NextKeepsInv(Advanced(e, s));
      }
    }
  }

  lemma DoKeepsInv(e: Engine, op: Op)
    requires Inv(e)
    ensures Inv(Do(e, op)) && Do(e, op).config == e.config
  {
    match op
    case Ask => NextKeepsInv(e);
    case Answer(v) =>
      if e.search.Some? { SearchingSteps(e.config, e.config.targets[e.index], e.search.value, v); }
    case Stop =>
  }

  // Whatever is asked, answered or aborted, in any order, the engine keeps its invariant.
  lemma {:induction false} EveryRunKeepsInv(config: SweepConfig, baseline: u32, ops: seq<Op>, e: Engine)
    requires Inv(e) && e.config == config
    ensures Inv(DoAll(e, ops)) && DoAll(e, ops).config == config
    decreases |ops|
  {
    if ops != [] {
      DoKeepsInv(e, ops[0]);
      EveryRunKeepsInv(config, baseline, ops[1..], Do(e, ops[0]));
    }
  }

  lemma FreshInv(config: SweepConfig, baseline: u32, ops: seq<Op>)
    ensures Inv(DoAll(Fresh(config, baseline), ops))
  {
    EveryRunKeepsInv(config, baseline, ops, Fresh(config, baseline));
  }

  // Asking again before answering repeats the command and changes nothing.
  lemma {:induction false} AskingAgainRepeats(e: Engine)
    ensures Next(Next(e).0) == Next(e)
    decreases SatSub(|e.config.targets|, e.index), if e.search.Some? then 1 else 0
  {
    if !(e.phase == Done || e.phase == Aborted || (e.search.None? && e.index >= |e.config.targets|)) {
      var s := Working(e);
      if Probe(s).Some? {
        assert Probe(Asked(s)) == Probe(s) && Asked(Asked(s)) == Asked(s);
      } else {
        AskingAgainRepeats(Advanced(e, s));
      }
    }
  }

  // An answer nobody asked for is ignored: before any command, and after the answer was given.
  lemma StrayAnswerIgnored(e: Engine, v: Verdict, w: Verdict)
    ensures e.search.None? ==> Feed(e, v) == e
    ensures Feed(Feed(e, v), w) == Feed(e, v)
  {
  }

  // After an abort nothing moves: no operation changes the engine, every command is Finished.
  lemma {:induction false} AbortIsAbsorbing(e: Engine, ops: seq<Op>)
    ensures DoAll(Abort(e), ops) == Abort(e) && Next(DoAll(Abort(e), ops)).1 == Finished
    ensures Abort(e).phase == Aborted && Abort(e).search == None
    ensures Abort(e).tradeoffs == e.tradeoffs && Abort(e).profiles == e.profiles && Abort(e).index == e.index
    decreases |ops|
  {
    if ops != [] {
      assert Do(Abort(e), ops[0]) == Abort(e);
      AbortIsAbsorbing(e, ops[1..]);
    }
  }

  // ---------------------------------------------------------------- how long a sweep lasts

  function PerTarget(c: SweepConfig, k: nat): nat
  {
    if c.stock <= c.floor then 0 else Descents(c.stock - c.floor, Max(c.descent, 1)) + k
  }

  // n * each, by repeated addition.
  function Repeated(n: nat, each: nat): nat { if n == 0 then 0 else each + Repeated(n - 1, each) }

  lemma {:induction false} RepeatedIsProduct(n: nat, each: nat)
    ensures Repeated(n, each) == n * each
  {
    if n > 0 { RepeatedIsProduct(n - 1, each); }
  }

  // Tests a sweep can still need.
  ghost function Remaining(e: Engine, k: nat): nat
    requires Inv(e)
  {
    if e.phase != Bisecting then 0
    else if e.search.Some? then
      Budget(e.search.value, k) + Repeated(|e.config.targets| - e.index - 1, PerTarget(e.config, k))
    else Repeated(|e.config.targets| - e.index, PerTarget(e.config, k))
  }

  lemma AdvancingCostsNothing(e: Engine, k: nat)
    requires Inv(e) && e.phase == Bisecting && e.index < |e.config.targets| && Probe(Working(e)).None?
    ensures Inv(Advanced(e, Working(e))) && Remaining(Advanced(e, Working(e)), k) <= Remaining(e, k)
  {
    StartSearching(e.config, e.config.targets[e.index]);
    AdvanceKeepsInv(e, Working(e));
  }

  lemma ProbingCostsNothing(e: Engine, k: nat)
    requires Inv(e) && e.phase == Bisecting && e.index < |e.config.targets| && Probe(Working(e)).Some?
    ensures Inv(Next(e).0) && Remaining(Next(e).0, k) <= Remaining(e, k)
  {
    NextKeepsInv(e);
    AskedKeepsMeasures(Working(e), k);
  }

  lemma {:induction false} AskingCostsNothing(e: Engine, k: nat)
    requires Inv(e)
    ensures Inv(Next(e).0) && Remaining(Next(e).0, k) <= Remaining(e, k)
    decreases SatSub(|e.config.targets|, e.index), if e.search.Some? then 1 else 0
  {
    if e.phase == Bisecting && e.index < |e.config.targets| {
      StartSearching(e.config, e.config.targets[e.index]);
      if Probe(Working(e)).None? {
        AdvancingCostsNothing(e, k);
        AskingCostsNothing(Advanced(e, Working(e)), k);
      } else {
        ProbingCostsNothing(e, k);
      }
    } else {
      NextKeepsInv(e);
    }
  }

  // Whatever the verdict, an answered test uses up part of the remaining budget.
  lemma AnswerCounts(e: Engine, v: Verdict, k: nat)
    requires Inv(e) && e.search.Some? && e.search.value.current.Some?
    requires Max(e.config.descent, 1) <= Doubled(Max(e.config.minStep, 1), k)
    ensures Inv(Feed(e, v)) && Remaining(Feed(e, v), k) < Remaining(e, k)
  {
    var s := e.search.value;
    SearchingSteps(e.config, e.config.targets[e.index], s, v);
    assert Asked(s) == s;
    TestSpends(s, v, k);
  }

  // Answers that reach a test under way, over a sequence of operations.
  function Answered(e: Engine, ops: seq<Op>): nat
    decreases |ops|
  {
    if ops == [] then 0
    else
      var hit := ops[0].Answer? && e.search.Some? && e.search.value.current.Some?;
      (if hit then 1 else 0) + Answered(Do(e, ops[0]), ops[1..])
  }

  lemma {:induction false} AnsweredWithinRemaining(e: Engine, ops: seq<Op>, k: nat)
    requires Inv(e) && Max(e.config.descent, 1) <= Doubled(Max(e.config.minStep, 1), k)
    ensures Answered(e, ops) <= Remaining(e, k)
    decreases |ops|
  {
    if ops != [] {
      DoKeepsInv(e, ops[0]);
      AnsweredWithinRemaining(Do(e, ops[0]), ops[1..], k);
      match ops[0] {
        case Ask => AskingCostsNothing(e, k);
        case Answer(v) =>
          if e.search.Some? && e.search.value.current.Some? { AnswerCounts(e, v, k); }
        case Stop =>
      }
    }
  }

  // No run of any operations with any verdicts tests more than
  // |targets| * (ceil((stock - floor) / descent) + k) points.
  lemma EveryRunIsBounded(config: SweepConfig, baseline: u32, ops: seq<Op>, k: nat)
    requires Max(config.descent, 1) <= Doubled(Max(config.minStep, 1), k)
    ensures var perTarget := if config.stock <= config.floor then 0
                             else CeilDiv(config.stock - config.floor, Max(config.descent, 1)) + k;
            Answered(Fresh(config, baseline), ops) <= |config.targets| * perTarget
  {
    AnsweredWithinRemaining(Fresh(config, baseline), ops, k);
    RepeatedIsProduct(|config.targets|, PerTarget(config, k));
    DescentsIsCeiling(SatSub(config.stock, config.floor), Max(config.descent, 1));
  }

  // ---------------------------------------------------------------- against an oracle

  type Oracle = (u32, u32) -> Verdict

  function At(oracle: Oracle, freq: u32): u32 -> Verdict { (mv: u32) => oracle(freq, mv) }

  ghost function Row(c: SweepConfig, freq: u32, oracle: Oracle): TradeoffPoint
  {
    Tradeoff(c, Settle(StartOf(c, freq), At(oracle, freq)))
  }

  // The table the sweep will end with: one row per target from index i on.
  ghost function Table(c: SweepConfig, i: nat, oracle: Oracle): seq<TradeoffPoint>
    requires i <= |c.targets|
    decreases |c.targets| - i
  {
    if i == |c.targets| then [] else [Row(c, c.targets[i], oracle)] + Table(c, i + 1, oracle)
  }

  ghost function Outcome(e: Engine, oracle: Oracle): seq<TradeoffPoint>
    requires Inv(e)
  {
    if e.phase != Bisecting then e.tradeoffs
    else if e.search.Some? then
      e.tradeoffs + [Tradeoff(e.config, Settle(e.search.value, At(oracle, e.search.value.freqMhz)))]
                  + Table(e.config, e.index + 1, oracle)
    else e.tradeoffs + Table(e.config, e.index, oracle)
  }

  lemma WorkingSearch(e: Engine)
    requires Inv(e) && e.phase == Bisecting && e.index < |e.config.targets|
    ensures Searching(e.config, e.config.targets[e.index], Working(e))
  {
    StartSearching(e.config, e.config.targets[e.index]);
  }

  lemma OutcomeByRow(e: Engine, oracle: Oracle)
    requires Inv(e) && e.phase == Bisecting && e.index < |e.config.targets| && Valid(Working(e))
    ensures Outcome(e, oracle)
         == e.tradeoffs + [Tradeoff(e.config, Settle(Working(e), At(oracle, e.config.targets[e.index])))]
                        + Table(e.config, e.index + 1, oracle)
  {
  }

  lemma ProbingKeepsOutcome(e: Engine, oracle: Oracle)
    requires Inv(e) && e.phase == Bisecting && e.index < |e.config.targets| && Probe(Working(e)).Some?
    ensures var n := e.(search := Some(Asked(Working(e))));
            Next(e).0 == n && Inv(n) && Outcome(n, oracle) == Outcome(e, oracle)
  {
    var freq, s := e.config.targets[e.index], Working(e);
    var n := e.(search := Some(Asked(s)));
    WorkingSearch(e);
    SearchingSteps(e.config, freq, s, Stable);
    AskedSettles(s, At(oracle, freq));
    OutcomeByRow(e, oracle);
    OutcomeByRow(n, oracle);
  }

  lemma AdvancingKeepsOutcome(e: Engine, oracle: Oracle)
    requires Inv(e) && e.phase == Bisecting && e.index < |e.config.targets| && Probe(Working(e)).None?
    ensures var n := Advanced(e, Working(e));
            Next(e) == Next(n) && Inv(n) && Outcome(n, oracle) == Outcome(e, oracle)
  {
    WorkingSearch(e);
    AdvanceKeepsInv(e, Working(e));
    OutcomeByRow(e, oracle);
    assert Settle(Working(e), At(oracle, e.config.targets[e.index])) == Working(e);
  }

  lemma {:induction false} AskingKeepsOutcome(e: Engine, oracle: Oracle)
    requires Inv(e)
    ensures Inv(Next(e).0) && Outcome(Next(e).0, oracle) == Outcome(e, oracle)
    decreases SatSub(|e.config.targets|, e.index), if e.search.Some? then 1 else 0
  {
    NextKeepsInv(e);
    if e.phase == Bisecting && e.index < |e.config.targets| {
      if Probe(Working(e)).Some? {
        ProbingKeepsOutcome(e, oracle);
      } else {
        AdvancingKeepsOutcome(e, oracle);
        AskingKeepsOutcome(Advanced(e, Working(e)), oracle);
      }
    }
  }

  lemma AnswerKeepsOutcome(e: Engine, oracle: Oracle)
    requires Inv(e) && e.search.Some? && e.search.value.current.Some?
    ensures var s := e.search.value;
            var t := Feed(e, oracle(s.freqMhz, s.current.value));
            Inv(t) && Outcome(t, oracle) == Outcome(e, oracle)
  {
    var s := e.search.value;
    SearchingSteps(e.config, e.config.targets[e.index], s, oracle(s.freqMhz, s.current.value));
    TestKeepsEnd(s, At(oracle, s.freqMhz));
  }

  lemma {:induction false} TableRows(c: SweepConfig, i: nat, oracle: Oracle, j: nat)
    requires i <= j < |c.targets|
    ensures |Table(c, i, oracle)| == |c.targets| - i
    ensures Table(c, i, oracle)[j - i] == Row(c, c.targets[j], oracle)
    decreases j - i
  {
    if i < j {
      TableRows(c, i + 1, oracle, j);
    } else {
      TableLength(c, i, oracle);
    }
  }

  lemma {:induction false} TableLength(c: SweepConfig, i: nat, oracle: Oracle)
    requires i <= |c.targets|
    ensures |Table(c, i, oracle)| == |c.targets| - i
    decreases |c.targets| - i
  {
    if i < |c.targets| { TableLength(c, i + 1, oracle); }
  }

  // One row per target, in target order; each row is its own cliff plus the margin, never below
  // the device's threshold plus the margin, and at most minStep - 1 above it.
  lemma RowAccuracy(c: SweepConfig, j: nat, oracle: Oracle, t: u32)
    requires j < |c.targets| && Threshold(At(oracle, c.targets[j]), t) && t <= c.stock
    requires c.stock + Margin(c) < TWO_32
    ensures |Table(c, 0, oracle)| == |c.targets|
    ensures var row := Table(c, 0, oracle)[j];
            && row.freqMhz == c.targets[j]
            && t + Margin(c) <= row.vminMv <= c.stock + Margin(c)
            && (c.floor < t && c.floor < c.stock ==> row.vminMv <= t + Max(c.minStep, 1) - 1 + Margin(c))
            && (t <= c.floor < c.stock ==> row.vminMv == c.floor + Margin(c))
  {
    TableRows(c, 0, oracle, j);
    var s := StartOf(c, c.targets[j]);
    SettleEnds(s, At(oracle, c.targets[j]));
    CliffAccuracy(c.targets[j], c.stock, c.floor, c.descent, c.minStep, At(oracle, c.targets[j]), t);
    MarginIsAddedIff(Settle(s, At(oracle, c.targets[j])).stable, c);
  }

  ghost predicate MonotoneFrontier(oracle: Oracle)
  {
    forall f: u32, g: u32, mv: u32 :: f <= g && oracle(g, mv) == Stable ==> oracle(f, mv) == Stable
  }

  // Wherever a higher clock being stable implies the lower one is, the finished table is
  // monotone: a higher target never gets a lower voltage.
  lemma TableMonotone(c: SweepConfig, oracle: Oracle, i: nat, j: nat)
    requires i < |c.targets| && j < |c.targets| && c.targets[i] <= c.targets[j]
    requires MonotoneFrontier(oracle) && c.stock + Margin(c) < TWO_32
    ensures |Table(c, 0, oracle)| == |c.targets|
    ensures Table(c, 0, oracle)[i].vminMv <= Table(c, 0, oracle)[j].vminMv
  {
    var f, g := c.targets[i], c.targets[j];
    TableRows(c, 0, oracle, i);
    TableRows(c, 0, oracle, j);
    var s, s' := StartOf(c, f), StartOf(c, g);
    SettleEnds(s, At(oracle, f));
    SettleEnds(s', At(oracle, g));
    SettleIgnoresFrequency(s, s', At(oracle, g));
    MoreStableEndsLower(s, At(oracle, f), At(oracle, g));
    MarginIsAddedIff(Settle(s, At(oracle, f)).stable, c);
    MarginIsAddedIff(Settle(s', At(oracle, g)).stable, c);
  }

  lemma {:induction false} SettleIgnoresFrequency(s: Search, s': Search, oracle: u32 -> Verdict)
    requires Valid(s) && s' == s.(freqMhz := s'.freqMhz)
    ensures Valid(s') && Settle(s', oracle).stable == Settle(s, oracle).stable
    decreases Span(s)
  {
    if !Converged(s) {
      var v := oracle(Probe(s).value);
      TestNarrows(s, v);
      SettleIgnoresFrequency(Test(s, v), Test(s', v), oracle);
    }
  }

  // ---------------------------------------------------------------- the mutable engine

  class GpuSweepEngine {
    const config: SweepConfig
    const baselineMhz: u32
    var phase: SweepPhase
    var freqIndex: nat
    var bisection: VoltageBisection?
    var tradeoffs: seq<TradeoffPoint>
    var profiles: Option<ProfileSet>

    ghost function View(): Engine
      reads this, bisection
    {
      Engine(config, baselineMhz, phase, freqIndex,
             if bisection == null then None else Some(bisection.View()), tradeoffs, profiles)
    }

    constructor (config: SweepConfig, baseline: u32)
      ensures View() == Fresh(config, baseline) && bisection == null
    {
      this.config := config;
      baselineMhz := baseline;
      phase := Bisecting;
      freqIndex := 0;
      bisection := null;
      tradeoffs := [];
      profiles := None;
    }

    method NextCommand() returns (command: SweepCommand)
      modifies this, bisection
      ensures (View(), command) == Next(old(View()))
      ensures bisection == null || bisection == old(bisection) || fresh(bisection)
      decreases SatSub(|config.targets|, freqIndex), if bisection != null then 1 else 0
    {
      ghost var e := View();
      if phase == Done || phase == Aborted {
        return Finished;
      }
      if bisection == null {
        if freqIndex >= |config.targets| {
          phase := Synthesis;
          profiles := SynthesizeProfiles(baselineMhz, tradeoffs);
          phase := Done;
          return Finished;
        }
        bisection := new VoltageBisection(config.targets[freqIndex], config.stock, config.floor,
                                          config.descent, config.minStep);
      }
      ghost var s := bisection.View();
      var mv := bisection.NextTest();
      if mv.Some? {
        command := ApplyAndTest(VfPoint(bisection.freqMhz, mv.value));
      } else {
        var safe := ApplySafetyMargin(bisection.stableMv, config.fixedMargin, config.tempCoeff, config.headroom);
        tradeoffs := tradeoffs + [TradeoffPoint(bisection.freqMhz, safe)];
        bisection := null;
        freqIndex := freqIndex + 1;
        assert View() == Advanced(e, s);
        command := NextCommand();
      }
    }

    method Record(result: Verdict)
      modifies bisection
      ensures View() == Feed(old(View()), result)
    {
      if bisection != null {
        bisection.Record(result);
      }
    }

    method AbortSweep()
      modifies this
      ensures View() == Abort(old(View()))
    {
      phase := Aborted;
      bisection := null;
    }
  }

  // A sweep on its way: its command is on the table, and its outcome and budget are settled.
  ghost predicate OnTheTable(e: Engine, command: SweepCommand, table: seq<TradeoffPoint>, oracle: Oracle, tests: nat, limit: nat, k: nat)
  {
    && Inv(e) && Next(e) == (e, command) && e.phase != Aborted
    && Outcome(e, oracle) == table && tests + Remaining(e, k) <= limit
    && Max(e.config.descent, 1) <= Doubled(Max(e.config.minStep, 1), k)
  }

  lemma AskingPutsOnTable(e: Engine, oracle: Oracle, tests: nat, limit: nat, k: nat)
    requires Inv(e) && e.phase == Bisecting && tests + Remaining(e, k) <= limit
    requires Max(e.config.descent, 1) <= Doubled(Max(e.config.minStep, 1), k)
    ensures OnTheTable(Next(e).0, Next(e).1, Outcome(e, oracle), oracle, tests, limit, k)
    ensures Remaining(Next(e).0, k) <= Remaining(e, k)
  {
    NextKeepsInv(e);
    AskingAgainRepeats(e);
    AskingKeepsOutcome(e, oracle);
    AskingCostsNothing(e, k);
    NeverAborts(e);
  }

  lemma {:induction false} NeverAborts(e: Engine)
    requires e.phase != Aborted
    ensures Next(e).0.phase != Aborted
    decreases SatSub(|e.config.targets|, e.index), if e.search.Some? then 1 else 0
  {
    if !(e.phase == Done || (e.search.None? && e.index >= |e.config.targets|)) {
      var s := Working(e);
      if Probe(s).None? { NeverAborts(Advanced(e, s)); }
    }
  }

  lemma AnsweringKeepsOnTable(e: Engine, p: VfPoint, table: seq<TradeoffPoint>, oracle: Oracle, tests: nat, limit: nat, k: nat)
    requires OnTheTable(e, ApplyAndTest(p), table, oracle, tests, limit, k)
    ensures var t := Feed(e, oracle(p.freqMhz, p.voltageMv));
            && OnTheTable(Next(t).0, Next(t).1, table, oracle, tests + 1, limit, k)
            && Remaining(Next(t).0, k) < Remaining(e, k)
  {
    NextKeepsInv(e);
    var v := oracle(p.freqMhz, p.voltageMv);
    AnswerKeepsOutcome(e, oracle);
    AnswerCounts(e, v, k);
    AskingPutsOnTable(Feed(e, v), oracle, tests + 1, limit, k);
  }

  // Answering as the oracle does, n tests lead to the final engine.
  ghost predicate Leads(e: Engine, command: SweepCommand, oracle: Oracle, n: nat, final: Engine)
    decreases n
  {
    match command
    case Finished => n == 0 && final == e
    case ApplyAndTest(p) =>
      n > 0 && (var next := Next(Feed(e, oracle(p.freqMhz, p.voltageMv))); Leads(next.0, next.1, oracle, n - 1, final))
  }

  lemma {:induction false} SweepLeads(e: Engine, command: SweepCommand, table: seq<TradeoffPoint>, oracle: Oracle,
                                      tests: nat, limit: nat, k: nat) returns (n: nat, final: Engine)
    requires OnTheTable(e, command, table, oracle, tests, limit, k)
    ensures Leads(e, command, oracle, n, final) && tests + n <= limit
    ensures final.phase == Done && final.tradeoffs == table
    ensures final.profiles == SynthesizeProfiles(final.baseline, final.tradeoffs) && final.baseline == e.baseline
    decreases Remaining(e, k)
  {
    NextKeepsInv(e);
    match command
    case Finished => n, final := 0, e;
    case ApplyAndTest(p) =>
      AnsweringKeepsOnTable(e, p, table, oracle, tests, limit, k);
      var next := Next(Feed(e, oracle(p.freqMhz, p.voltageMv)));
      BaselineFixed(Feed(e, oracle(p.freqMhz, p.voltageMv)));
      n, final := SweepLeads(next.0, next.1, table, oracle, tests + 1, limit, k);
      n := n + 1;
  }

  lemma {:induction false} BaselineFixed(e: Engine)
    ensures Next(e).0.baseline == e.baseline
    decreases SatSub(|e.config.targets|, e.index), if e.search.Some? then 1 else 0
  {
    if !(e.phase == Done || e.phase == Aborted || (e.search.None? && e.index >= |e.config.targets|)) {
      var s := Working(e);
      if Probe(s).None? { BaselineFixed(Advanced(e, s)); }
    }
  }

  // From a fresh engine: the sweep ends with the whole table, within the budget.
  lemma FreshSweepLeads(config: SweepConfig, baseline: u32, oracle: Oracle, k: nat) returns (n: nat, final: Engine)
    requires Max(config.descent, 1) <= Doubled(Max(config.minStep, 1), k)
    ensures var first := Next(Fresh(config, baseline)); Leads(first.0, first.1, oracle, n, final)
    ensures n <= |config.targets| * PerTarget(config, k)
    ensures final.phase == Done && final.tradeoffs == Table(config, 0, oracle)
    ensures final.profiles == SynthesizeProfiles(baseline, final.tradeoffs)
  {
    var e, limit := Fresh(config, baseline), Repeated(|config.targets|, PerTarget(config, k));
    RepeatedIsProduct(|config.targets|, PerTarget(config, k));
    AskingPutsOnTable(e, oracle, 0, limit, k);
    BaselineFixed(e);
    n, final := SweepLeads(Next(e).0, Next(e).1, Table(config, 0, oracle), oracle, 0, limit, k);
  }

  // One round: report the verdict on the point just tested, ask for the next.
  method Exchange(engine: GpuSweepEngine, point: VfPoint, oracle: Oracle) returns (command: SweepCommand)
    modifies engine, engine.bisection
    ensures (engine.View(), command) == Next(Feed(old(engine.View()), oracle(point.freqMhz, point.voltageMv)))
    ensures engine.bisection == null || engine.bisection == old(engine.bisection) || fresh(engine.bisection)
  {
    engine.Record(oracle(point.freqMhz, point.voltageMv));
    command := engine.NextCommand();
  }

  // The loop the engine is driven by: apply what it asks for, test it, report, until it is finished.
  method AnswerUntilFinished(engine: GpuSweepEngine, first: SweepCommand, oracle: Oracle, ghost n: nat, ghost final: Engine)
      returns (tests: nat)
    requires Leads(engine.View(), first, oracle, n, final)
    modifies engine, engine.bisection
    ensures engine.View() == final && tests == n
  {
    tests := 0;
    ghost var left := n;
    var command := first;
    while command.ApplyAndTest?
      invariant tests + left == n && Leads(engine.View(), command, oracle, left, final)
      invariant engine.bisection == null || engine.bisection == old(engine.bisection) || fresh(engine.bisection)
      decreases left
    {
      command := Exchange(engine, command.point, oracle);
      tests, left := tests + 1, left - 1;
    }
  }

  // A whole sweep, from a fresh engine.
  method DriveSweep(engine: GpuSweepEngine, oracle: Oracle, ghost k: nat) returns (tests: nat)
    requires engine.View() == Fresh(engine.config, engine.baselineMhz) && engine.bisection == null
    requires Max(engine.config.descent, 1) <= Doubled(Max(engine.config.minStep, 1), k)
    modifies engine
    ensures engine.phase == Done
    ensures engine.tradeoffs == Table(engine.config, 0, oracle)
    ensures engine.profiles == SynthesizeProfiles(engine.baselineMhz, engine.tradeoffs)
    ensures tests <= |engine.config.targets| * PerTarget(engine.config, k)
  {
    ghost var n, final := FreshSweepLeads(engine.config, engine.baselineMhz, oracle, k);
    var first := engine.NextCommand();
    tests := AnswerUntilFinished(engine, first, oracle, n, final);
  }
}
