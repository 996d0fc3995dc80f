/** Search for the lowest stable voltage at one frequency: coarse descent, then bisection. */
module Bisection {
  import opened MachineInts

  datatype Verdict = Stable | SilentError | Crash | Unstable

  // ---------------------------------------------------------------- one search, as a value

  datatype Search = Search(
    freqMhz: u32,
    stable: u32,              // lowest voltage proven stable
    unstable: Option<u32>,    // highest voltage proven unstable
    floor: u32,
    descent: u32,
    minStep: u32,
    current: Option<u32>)     // the voltage under test

  function Start(freqMhz: u32, stock: u32, floor: u32, descent: u32, minStep: u32): Search
  {
    Search(freqMhz, stock, None, floor, Max(descent, 1), Max(minStep, 1), None)
  }

  predicate Converged(s: Search)
  {
    match s.unstable
    case None => s.stable <= s.floor
    case Some(u) => SatSub(s.stable, u) <= s.minStep
  }

  function Midpoint(a: u32, b: u32): u32
    requires a <= b
  {
    a + (b - a) / 2
  }

  // The next voltage to test, None once converged.
  function Probe(s: Search): Option<u32>
  {
    if Converged(s) then None
    else match s.unstable
      case None => Some(Max(SatSub(s.stable, s.descent), s.floor))
      case Some(u) => Some(Midpoint(u, s.stable))
  }

  function Learn(s: Search, v: Verdict): Search
  {
    match s.current
    case None => s
    case Some(tested) =>
      if v == Stable then s.(stable := Min(s.stable, tested), current := None)
      else s.(unstable := Some(if s.unstable.Some? then Max(s.unstable.value, tested) else tested), current := None)
  }

  function Asked(s: Search): Search { s.(current := Probe(s)) }

  // One full test: ask for the next voltage, then feed back its verdict.
  function Test(s: Search, v: Verdict): Search { Learn(Asked(s), v) }

  // ---------------------------------------------------------------- what every answer keeps

  ghost predicate Valid(s: Search)
  {
    && s.descent >= 1 && s.minStep >= 1
    && (s.unstable.Some? ==> s.floor <= s.unstable.value < s.stable)
    && (s.current.Some? ==> s.current == Probe(s))
  }

  // The probe in numbers: while nothing has failed, one descent step below the lowest stable voltage
  // but not under the floor; then the average of the two ends, rounded down; none once the search
  // stands at the floor or its gap is at most one minimum step.
  lemma ProbeInNumbers(s: Search)
    requires Valid(s)
    ensures s.unstable == None && s.stable > s.floor ==>
              Probe(s) == Some(if s.stable - s.descent >= s.floor then s.stable - s.descent else s.floor)
    ensures s.unstable.Some? && s.stable - s.unstable.value > s.minStep ==>
              Probe(s).Some? && 2 * Probe(s).value <= s.unstable.value + s.stable < 2 * Probe(s).value + 2
    ensures Probe(s) == None <==>
              if s.unstable == None then s.stable <= s.floor else s.stable - s.unstable.value <= s.minStep
  {
  }

  // Probes stay at or above the floor, strictly inside the unexplored gap.
  lemma ProbeInGap(s: Search)
    requires Valid(s) && Probe(s).Some?
    ensures s.floor <= Probe(s).value < s.stable
    ensures s.unstable.Some? ==> s.unstable.value < Probe(s).value
  {
  }

  lemma EveryStepKeepsValid(s: Search, v: Verdict)
    requires Valid(s)
    ensures Valid(Asked(s)) && Valid(Learn(s, v)) && Valid(Test(s, v))
    ensures Test(s, v).stable <= s.stable
    ensures s.unstable.Some? ==> Test(s, v).unstable.Some? && s.unstable.value <= Test(s, v).unstable.value
  {
    if Probe(s).Some? { ProbeInGap(s); }
  }

  // ---------------------------------------------------------------- how many tests

  // step * 2^k
  function Doubled(step: nat, k: nat): nat { if k == 0 then step else 2 * Doubled(step, k - 1) }

  // Tests a bisection of this gap takes in the worst case.
  function Halvings(gap: nat, minStep: nat): nat
    requires minStep >= 1
  {
    if gap <= minStep then 0 else 1 + Halvings(gap - gap / 2, minStep)
  }

  lemma {:induction false} HalvingsMonotone(g: nat, g': nat, minStep: nat)
    requires minStep >= 1 && g <= g'
    ensures Halvings(g, minStep) <= Halvings(g', minStep)
  {
    if g > minStep {
      HalvingsMonotone(g - g / 2, g' - g' / 2, minStep);
    }
  }

  lemma {:induction false} HalvingsLogarithmic(gap: nat, minStep: nat, k: nat)
    requires minStep >= 1 && gap <= Doubled(minStep, k)
    ensures Halvings(gap, minStep) <= k
  {
    if gap > minStep {
      HalvingsLogarithmic(gap - gap / 2, minStep, k - 1);
    }
  }

  // Tests a search can still need: descents to the floor, then k halvings of one descent step.
  function Budget(s: Search, k: nat): nat
    requires s.descent >= 1 && s.minStep >= 1
  {
    match s.unstable
    case None => if s.stable <= s.floor then 0 else Descents(s.stable - s.floor, s.descent) + k
    case Some(u) => Halvings(SatSub(s.stable, u), s.minStep)
  }

  // Coarse steps that cover a distance, the last one possibly short.
  function Descents(distance: nat, step: nat): nat
    requires step >= 1
  {
    if distance == 0 then 0 else 1 + Descents(SatSub(distance, step), step)
  }

  lemma OneStepMore(step: nat, n: int)
    ensures step * n == step * (n - 1) + step
  {
  }

  lemma {:induction false} DescentsCover(distance: nat, step: nat)
    requires step >= 1
    ensures step * (Descents(distance, step) - 1) < distance || distance == 0
    ensures distance <= step * Descents(distance, step)
  {
    if distance > 0 {
      var rest: int := Descents(SatSub(distance, step), step);
      DescentsCover(SatSub(distance, step), step);
      OneStepMore(step, rest + 1);
      OneStepMore(step, rest);
    }
  }

  lemma CeilDivUnique(a: int, d: int, q: int)
    requires d > 0 && d * (q - 1) < a <= d * q
    ensures CeilDiv(a, d) == q
  {
    CeilDivMeaning(a, d);
    CancelGt(q, CeilDiv(a, d) - 1, d);
    CancelGt(CeilDiv(a, d), q - 1, d);
  }

  lemma DescentsIsCeiling(distance: nat, step: nat)
    requires step >= 1
    ensures Descents(distance, step) == CeilDiv(distance, step)
  {
    DescentsCover(distance, step);
    OneStepMore(step, Descents(distance, step));
    CeilDivUnique(distance, step, Descents(distance, step));
  }

  // Whatever the answer, one test spends at least one unit of the budget.
  lemma TestSpends(s: Search, v: Verdict, k: nat)
    requires Valid(s) && Probe(s).Some? && s.descent <= Doubled(s.minStep, k)
    ensures Budget(Test(s, v), k) < Budget(s, k)
  {
    ProbeInGap(s);
    var p, t := Probe(s).value, Test(s, v);
    match s.unstable
    case None =>
      if v == Stable {
        if t.stable > s.floor {
          assert t.stable - s.floor == s.stable - s.floor - s.descent;
        }
      } else {
        HalvingsLogarithmic(s.stable - p, s.minStep, k);
      }
    case Some(u) =>
      var gap := s.stable - u;
      HalvingsMonotone(gap / 2, gap - gap / 2, s.minStep);
  }

  // A search fed one answer after another, until it converges or the answers run out.
  function Run(s: Search, answers: seq<Verdict>): Search
    decreases |answers|
  {
    if answers == [] || Converged(s) then s else Run(Test(s, answers[0]), answers[1..])
  }

  function TestsRun(s: Search, answers: seq<Verdict>): nat
    decreases |answers|
  {
    if answers == [] || Converged(s) then 0 else 1 + TestsRun(Test(s, answers[0]), answers[1..])
  }

  lemma {:induction false} RunAppend(s: Search, answers: seq<Verdict>, v: Verdict)
    ensures var r := Run(s, answers);
            Run(s, answers + [v]) == if Converged(r) then r else Test(r, v)
    decreases |answers|
  {
    if answers == [] {
      assert [] + [v] == [v] && [v][1..] == [];
      assert Run(Test(s, v), []) == Test(s, v);
    } else if !Converged(s) {
      assert (answers + [v])[1..] == answers[1..] + [v];
      RunAppend(Test(s, answers[0]), answers[1..], v);
    }
  }

  // For every answer sequence: the search stops within its budget, keeps its bracket, never
  // raises the stable voltage, and has converged once the budget's worth of answers is in.
  lemma {:induction false} RunStopsInBudget(s: Search, answers: seq<Verdict>, k: nat)
    requires Valid(s) && s.descent <= Doubled(s.minStep, k)
    ensures TestsRun(s, answers) <= Budget(s, k)
    ensures Valid(Run(s, answers)) && Run(s, answers).stable <= s.stable
    ensures |answers| >= Budget(s, k) ==> Converged(Run(s, answers))
    decreases |answers|
  {
    if !Converged(s) {
      if answers != [] {
        var t := Test(s, answers[0]);
        EveryStepKeepsValid(s, answers[0]);
        TestSpends(s, answers[0], k);
        RunStopsInBudget(t, answers[1..], k);
      } else {
        TestSpends(s, Stable, k);
      }
    }
  }

  // From a fresh search: at most ceil((stock - floor) / step) + k tests.
  lemma FreshSearchStops(freq: u32, stock: u32, floor: u32, descent: u32, minStep: u32, answers: seq<Verdict>, k: nat)
    requires Max(descent, 1) <= Doubled(Max(minStep, 1), k)
    ensures var s := Start(freq, stock, floor, descent, minStep);
            var bound := if stock <= floor then 0 else CeilDiv(stock - floor, Max(descent, 1)) + k;
            && TestsRun(s, answers) <= bound
            && (|answers| >= bound ==> Converged(Run(s, answers)))
  {
    RunStopsInBudget(Start(freq, stock, floor, descent, minStep), answers, k);
    DescentsIsCeiling(SatSub(stock, floor), Max(descent, 1));
  }

  // ---------------------------------------------------------------- against an oracle

  // Width of the unexplored gap, the loop's termination measure.
  function Span(s: Search): nat
  {
    var below := if s.unstable.Some? then s.unstable.value else s.floor - 1;
    if s.stable >= below then s.stable - below else 0
  }

  lemma TestNarrows(s: Search, v: Verdict)
    requires Valid(s) && !Converged(s)
    ensures Valid(Test(s, v)) && Span(Test(s, v)) < Span(s)
  {
    ProbeInGap(s);
    EveryStepKeepsValid(s, v);
  }

  // Where the search ends when the hardware answers as `oracle` does.
  function Settle(s: Search, oracle: u32 -> Verdict): Search
    requires Valid(s)
    decreases Span(s)
  {
    if Converged(s) then s
    else
      var v := oracle(Probe(s).value);
      TestNarrows(s, v);
      Settle(Test(s, v), oracle)
  }

  lemma {:induction false} SettleEnds(s: Search, oracle: u32 -> Verdict)
    requires Valid(s)
    ensures var r := Settle(s, oracle);
            && Valid(r) && Converged(r) && r.stable <= s.stable
            && (s.unstable.Some? ==> s.unstable.value < r.stable)
            && (s.stable >= s.floor ==> r.stable >= s.floor)
            && r.floor == s.floor && r.minStep == s.minStep && r.freqMhz == s.freqMhz
    decreases Span(s)
  {
    if !Converged(s) {
      var v := oracle(Probe(s).value);
      ProbeInGap(s);
      TestNarrows(s, v);
      SettleEnds(Test(s, v), oracle);
    }
  }

  // The bracket is honest: its ends carry real verdicts of the oracle.
  lemma {:induction false} SettleBracketsBoundary(s: Search, oracle: u32 -> Verdict, stock: u32)
    requires Valid(s)
    requires s.stable == stock || oracle(s.stable) == Stable
    requires s.unstable.Some? ==> oracle(s.unstable.value) != Stable
    ensures var r := Settle(s, oracle);
            && (r.stable == stock || oracle(r.stable) == Stable)
            && (r.unstable.Some? ==> oracle(r.unstable.value) != Stable)
    decreases Span(s)
  {
    if !Converged(s) {
      var v := oracle(Probe(s).value);
      ProbeInGap(s);
      TestNarrows(s, v);
      SettleBracketsBoundary(Test(s, v), oracle, stock);
    }
  }

  // For any oracle at all: the result is stock or passed a test, and unless it is at or below
  // the floor some voltage within one minimum step below it failed a test.
  lemma ResultIsABoundary(freq: u32, stock: u32, floor: u32, descent: u32, minStep: u32, oracle: u32 -> Verdict)
    ensures var r := Settle(Start(freq, stock, floor, descent, minStep), oracle).stable;
            && (r == stock || oracle(r) == Stable)
            && (r <= floor || exists u: u32 :: floor <= u < r <= u + Max(minStep, 1) && oracle(u) != Stable)
  {
    var s := Start(freq, stock, floor, descent, minStep);
    SettleEnds(s, oracle);
    SettleBracketsBoundary(s, oracle, stock);
    var r := Settle(s, oracle);
    if r.unstable.Some? {
      assert oracle(r.unstable.value) != Stable;
    }
  }

  ghost predicate Threshold(oracle: u32 -> Verdict, t: u32)
  {
    forall mv: u32 :: oracle(mv) == Stable <==> mv >= t
  }

  // Accuracy against a real cliff at t <= stock: never below it, at most minStep - 1 above it,
  // and exact when the cliff lies at or below the floor.
  lemma CliffAccuracy(freq: u32, stock: u32, floor: u32, descent: u32, minStep: u32, oracle: u32 -> Verdict, t: u32)
    requires Threshold(oracle, t) && t <= stock
    ensures var r := Settle(Start(freq, stock, floor, descent, minStep), oracle).stable;
            && t <= r <= stock
            && (stock <= floor ==> r == stock)
            && (t <= floor < stock ==> r == floor)
            && (floor < t && floor < stock ==> r <= t + Max(minStep, 1) - 1)
  {
    var s := Start(freq, stock, floor, descent, minStep);
    SettleEnds(s, oracle);
    SettleBracketsBoundary(s, oracle, stock);
  }

  // Two runs of the same search: a device that is stable wherever another one is never ends
  // higher. The runs agree up to the first probe that splits them, which separates the ends.
  lemma {:induction false} MoreStableEndsLower(s: Search, better: u32 -> Verdict, worse: u32 -> Verdict)
    requires Valid(s)
    requires forall mv: u32 :: worse(mv) == Stable ==> better(mv) == Stable
    ensures Settle(s, better).stable <= Settle(s, worse).stable
    decreases Span(s)
  {
    if !Converged(s) {
      var p := Probe(s).value;
      var b, w := Test(s, better(p)), Test(s, worse(p));
      ProbeInGap(s);
      TestNarrows(s, better(p));
      TestNarrows(s, worse(p));
      if (better(p) == Stable) == (worse(p) == Stable) {
        assert b == w;
        MoreStableEndsLower(b, better, worse);
      } else {
        SettleEnds(b, better);
        SettleEnds(w, worse);
      }
    }
  }

  // ---------------------------------------------------------------- the mutable search object

  class VoltageBisection {
    const freqMhz: u32
    var stableMv: u32
    var unstableMv: Option<u32>
    const floorMv: u32
    const descentStepMv: u32
    const minStepMv: u32
    var currentMv: Option<u32>

    ghost function View(): Search
      reads this
    {
      Search(freqMhz, stableMv, unstableMv, floorMv, descentStepMv, minStepMv, currentMv)
    }

    constructor (freq: u32, stock: u32, floor: u32, descent: u32, minStep: u32)
      ensures View() == Start(freq, stock, floor, descent, minStep) && Valid(View())
    {
      freqMhz := freq;
      stableMv := stock;
      unstableMv := None;
      floorMv := floor;
      descentStepMv := Max(descent, 1);
      minStepMv := Max(minStep, 1);
      currentMv := None;
    }

    method NextTest() returns (candidate: Option<u32>)
      modifies this`currentMv
      ensures View() == Asked(old(View())) && candidate == Probe(old(View()))
    {
      match unstableMv {
        case None =>
          if stableMv <= floorMv {
            candidate := None;
          } else {
            candidate := Some(Max(SatSub(stableMv, descentStepMv), floorMv));
          }
        case Some(unstable) =>
          if SatSub(stableMv, unstable) <= minStepMv {
            candidate := None;
          } else {
            candidate := Some(Midpoint(unstable, stableMv));
          }
      }
      currentMv := candidate;
    }

    method Record(result: Verdict)
      modifies this
      ensures View() == Learn(old(View()), result)
    {
      match currentMv
      case None => return;
      case Some(tested) =>
        if result == Stable {
          stableMv := Min(stableMv, tested);
        } else {
          unstableMv := Some(if unstableMv.Some? then Max(unstableMv.value, tested) else tested);
        }
        currentMv := None;
    }

    method IsConverged() returns (done: bool)
      ensures done == Converged(View())
      ensures done <==> Probe(View()).None?
    {
      match unstableMv
      case None => done := stableMv <= floorMv;
      case Some(unstable) => done := SatSub(stableMv, unstable) <= minStepMv;
    }
  }

  // Asking twice without an answer changes nothing.
  lemma AskedSettles(s: Search, oracle: u32 -> Verdict)
    requires Valid(s)
    ensures Valid(Asked(s)) && Settle(Asked(s), oracle) == Settle(s, oracle)
    ensures Probe(Asked(s)) == Probe(s)
  {
    if !Converged(s) {
      assert Test(Asked(s), oracle(Probe(s).value)) == Test(s, oracle(Probe(s).value));
    } else {
      assert Asked(s) == s;
    }
  }

  // A search on its way from s0: asked, heading for the same end, within its budget.
  ghost predicate OnTheWay(s: Search, s0: Search, oracle: u32 -> Verdict, k: nat, tests: nat)
    requires Valid(s0)
  {
    && Valid(s) && s.current == Probe(s) && s.descent <= Doubled(s.minStep, k)
    && Settle(s, oracle) == Settle(s0, oracle)
    && tests + Budget(s, k) <= Budget(s0, k)
  }

  lemma TestKeepsEnd(s: Search, oracle: u32 -> Verdict)
    requires Valid(s) && s.current.Some? && s.current == Probe(s)
    ensures var t := Learn(s, oracle(s.current.value));
            t == Test(s, oracle(s.current.value)) && Valid(t) && Settle(t, oracle) == Settle(s, oracle)
  {
    assert Asked(s) == s;
    TestNarrows(s, oracle(s.current.value));
  }

  lemma AskedKeepsMeasures(s: Search, k: nat)
    requires Valid(s)
    ensures Budget(Asked(s), k) == Budget(s, k) && Span(Asked(s)) == Span(s)
  {
  }

  lemma OnTheWayStep(s: Search, s0: Search, oracle: u32 -> Verdict, k: nat, tests: nat)
    requires Valid(s0) && OnTheWay(s, s0, oracle, k, tests) && s.current.Some?
    ensures var t := Asked(Learn(s, oracle(s.current.value)));
            OnTheWay(t, s0, oracle, k, tests + 1) && Span(t) < Span(s)
  {
    var v := oracle(s.current.value);
    var l := Learn(s, v);
    TestKeepsEnd(s, oracle);
    var t := Asked(l);
    assert Span(t) < Span(s) && Budget(t, k) < Budget(s, k) by {
      TestNarrows(s, v);
      TestSpends(s, v, k);
      AskedKeepsMeasures(l, k);
    }
    AskedSettles(l, oracle);
  }

  // The test loop: probe, judge, record, until no probe is left.
  method SearchToCliff(b: VoltageBisection, oracle: u32 -> Verdict, ghost k: nat) returns (tests: nat)
    requires Valid(b.View()) && b.descentStepMv <= Doubled(b.minStepMv, k)
    modifies b
    ensures b.View() == Settle(old(b.View()), oracle)
    ensures tests <= Budget(old(b.View()), k)
  {
    tests := 0;
    ghost var s0 := b.View();
    AskedSettles(s0, oracle);
    var mv := b.NextTest();
    while mv.Some?
      invariant OnTheWay(b.View(), s0, oracle, k, tests) && mv == b.currentMv
      decreases Span(b.View())
    {
      OnTheWayStep(b.View(), s0, oracle, k, tests);
      b.Record(oracle(mv.value));
      mv := b.NextTest();
      tests := tests + 1;
    }
  }
}
