/** Per-run Apply gates, computed in one pass over the observation log. */
module ApplyGate {
  import opened MachineInts
  import opened EvidenceLog
  import opened ModularArithmetic

  // The exact pair a gate is asked about, on one GPU; `run` restricts it to one run.
  datatype Query = Query(run: Option<string>, targetMhz: u32, anchorMv: u32, gpuKey: string)

  predicate IsApplyEvidence(o: Observation)
  {
    o.kind == ApplyQualification && o.qualificationContract == Some(QUALIFICATION_CONTRACT)
    && o.outcome == Validated && CleanAndReproducible(o) && PassedAtFullStrength(o)
  }

  predicate PositivePower(r: Option<Reading>)
  {
    r.Some? && r.value.Finite? && r.value.watts > 0.0
  }

  // Power readings under a thermal flag count only when the clock held the target.
  predicate Trustworthy(o: Observation, target: u32)
  {
    !o.thermalThrottled || (o.sustainedClock.Some? && o.sustainedClock.value >= target)
  }

  predicate AtPair(o: Observation, q: Query)
  {
    o.targetMhz == q.targetMhz && o.anchorMv == q.anchorMv && o.gpuKey == Some(q.gpuKey)
    && (q.run.None? || o.runId == q.run.value)
  }

  predicate Eligible(o: Observation, q: Query)
  {
    AtPair(o, q) && IsApplyEvidence(o) && o.resetOk && o.bootFlagCleared
    && Trustworthy(o, q.targetMhz) && PositivePower(o.powerP99)
  }

  function PatternOf(o: Observation): Pattern
    requires PassedAtFullStrength(o)
  {
    o.coverage.value.pattern.value
  }

  // Position of a pattern in the required list.
  function PatternIndex(required: seq<Pattern>, p: Pattern): (i: Option<nat>)
    ensures i.None? <==> p !in required
    ensures i.Some? ==> i.value < |required| && required[i.value] == p
  {
    if required == [] then None
    else if required[0] == p then Some(0)
    else
      var i := PatternIndex(required[1..], p);
      if i.None? then None else Some(i.value + 1)
  }

  function MaxPower(a: real, b: real): real { if a >= b then a else b }

  // What one pass remembers about one run.
  datatype RunEntry = RunEntry(seen: seq<bool>, endurance: bool, power: real)

  function Blank(required: seq<Pattern>): RunEntry
  {
    RunEntry(seq(|required|, i => false), false, 0.0)
  }

  predicate WellSized(e: RunEntry, required: seq<Pattern>) { |e.seen| == |required| }

  // The complete gate asks for every required pattern and Endurance; the older one for the
  // required patterns alone, and it ignores everything else.
  datatype Gate = Full | RequiredOnly

  predicate Complete(e: RunEntry, g: Gate)
  {
    (forall i | 0 <= i < |e.seen| :: e.seen[i]) && (g == Full ==> e.endurance)
  }

  predicate Takes(g: Gate, o: Observation, q: Query, required: seq<Pattern>)
  {
    Eligible(o, q) && (g == RequiredOnly ==> PatternOf(o) in required)
  }

  // One observation a gate takes; patterns it does not know leave the entry alone.
  function Absorb(e: RunEntry, o: Observation, required: seq<Pattern>): RunEntry
    requires WellSized(e, required) && PassedAtFullStrength(o) && PositivePower(o.powerP99)
  {
    var power := MaxPower(e.power, o.powerP99.value.watts);
    match PatternIndex(required, PatternOf(o))
    case Some(i) => e.(seen := e.seen[i := true], power := power)
    case None => if PatternOf(o) == Endurance then e.(endurance := true, power := power) else e
  }

  // ---------------------------------------------------------------- the gate, run by run

  // What a single run contributes, read off the whole log.
  ghost function EntryOf(obs: seq<Observation>, q: Query, run: string, required: seq<Pattern>, g: Gate): (e: RunEntry)
    ensures WellSized(e, required)
  {
    if obs == [] then Blank(required)
    else
      var e, o := EntryOf(obs[..|obs| - 1], q, run, required, g), obs[|obs| - 1];
      if Takes(g, o, q, required) && o.runId == run then Absorb(e, o, required) else e
  }

  ghost predicate IsGateValue(obs: seq<Observation>, q: Query, required: seq<Pattern>, g: Gate, r: Option<real>)
  {
    match r
    case None => forall run: string :: !Complete(EntryOf(obs, q, run, required, g), g)
    case Some(p) =>
      && (exists run: string :: Complete(EntryOf(obs, q, run, required, g), g) && EntryOf(obs, q, run, required, g).power == p)
      && (forall run: string :: Complete(EntryOf(obs, q, run, required, g), g) ==> EntryOf(obs, q, run, required, g).power <= p)
  }

  ghost predicate Tracks(runs: map<string, RunEntry>, obs: seq<Observation>, q: Query, required: seq<Pattern>, g: Gate)
  {
    && (forall run :: run in runs ==> runs[run] == EntryOf(obs, q, run, required, g))
    && (forall run: string :: run !in runs ==> EntryOf(obs, q, run, required, g) == Blank(required))
  }

  lemma EntryAppend(obs: seq<Observation>, i: nat, q: Query, run: string, required: seq<Pattern>, g: Gate)
    requires i < |obs|
    ensures EntryOf(obs[..i + 1], q, run, required, g)
         == (if Takes(g, obs[i], q, required) && obs[i].runId == run then Absorb(EntryOf(obs[..i], q, run, required, g), obs[i], required)
             else EntryOf(obs[..i], q, run, required, g))
  {
    assert obs[..i + 1][..i] == obs[..i];
  }

  // One pass over the log, one map entry per run, then the best complete run.
  method GateP99(obs: seq<Observation>, q: Query, required: seq<Pattern>, g: Gate) returns (r: Option<real>)
    requires g == Full || required != []
    ensures IsGateValue(obs, q, required, g, r)
  {
    var runs: map<string, RunEntry> := map[];
    for i := 0 to |obs|
      invariant Tracks(runs, obs[..i], q, required, g)
    {
      var o := obs[i];
      forall run: string {
        EntryAppend(obs, i, q, run, required, g);
      }
      if Takes(g, o, q, required) {
        var entry := if o.runId in runs then runs[o.runId] else Blank(required);
        runs := runs[o.runId := Absorb(entry, o, required)];
      }
    }
    assert obs[..|obs|] == obs;
    r := BestComplete(runs, g);
    BestIsGateValue(runs, obs, q, required, g, r);
  }

  ghost predicate IsBest(runs: map<string, RunEntry>, keys: set<string>, g: Gate, r: Option<real>)
    requires keys <= runs.Keys
  {
    match r
    case None => forall run :: run in keys ==> !Complete(runs[run], g)
    case Some(p) =>
      && (exists run :: run in keys && Complete(runs[run], g) && runs[run].power == p)
      && (forall run :: run in keys && Complete(runs[run], g) ==> runs[run].power <= p)
  }

  // The highest power among complete entries, visited in any order.
  method BestComplete(runs: map<string, RunEntry>, g: Gate) returns (best: Option<real>)
    ensures IsBest(runs, runs.Keys, g, best)
  {
    best := None;
    var todo := runs.Keys;
    while todo != {}
      invariant todo <= runs.Keys && IsBest(runs, runs.Keys - todo, g, best)
      decreases todo
    {
      var run :| run in todo;
      var e := runs[run];
      todo := todo - {run};
      if Complete(e, g) && (best.None? || e.power >= best.value) {
        best := Some(e.power);
        assert run in runs.Keys - todo;
      }
    }
    assert runs.Keys - todo == runs.Keys;
  }

  lemma BestIsGateValue(runs: map<string, RunEntry>, obs: seq<Observation>, q: Query, required: seq<Pattern>, g: Gate, r: Option<real>)
    requires Tracks(runs, obs, q, required, g) && IsBest(runs, runs.Keys, g, r)
    requires g == Full || required != []
    ensures IsGateValue(obs, q, required, g, r)
  {
    assert !Complete(Blank(required), g) by {
      if g != Full { assert !Blank(required).seen[0]; }
    }
    if r.Some? {
      var run :| run in runs.Keys && Complete(runs[run], g) && runs[run].power == r.value;
      assert EntryOf(obs, q, run, required, g).power == r.value;
    }
  }

  // ---------------------------------------------------------------- what a run's entry means

  ghost predicate HasPattern(obs: seq<Observation>, q: Query, run: string, p: Pattern)
  {
    exists o :: o in obs && Eligible(o, q) && o.runId == run && PatternOf(o) == p
  }

  // An observation whose p99 enters the run's power.
  ghost predicate Counted(o: Observation, q: Query, run: string, required: seq<Pattern>, g: Gate)
  {
    Eligible(o, q) && o.runId == run && (PatternOf(o) in required || (g == Full && PatternOf(o) == Endurance))
  }

  ghost predicate Distinct(s: seq<Pattern>) { forall i, j :: 0 <= i < j < |s| ==> s[i] != s[j] }

  lemma {:induction false} EntrySeen(obs: seq<Observation>, q: Query, run: string, required: seq<Pattern>, g: Gate, k: nat)
    requires Distinct(required) && k < |required|
    ensures EntryOf(obs, q, run, required, g).seen[k] <==> HasPattern(obs, q, run, required[k])
  {
    if obs != [] {
      var n := |obs| - 1;
      EntrySeen(obs[..n], q, run, required, g, k);
      assert obs == obs[..n] + [obs[n]];
      assert obs[n] in obs;
    }
  }

  lemma {:induction false} EntryEndurance(obs: seq<Observation>, q: Query, run: string, required: seq<Pattern>)
    requires Endurance !in required
    ensures EntryOf(obs, q, run, required, Full).endurance <==> HasPattern(obs, q, run, Endurance)
  {
    if obs != [] {
      var n := |obs| - 1;
      EntryEndurance(obs[..n], q, run, required);
      assert obs == obs[..n] + [obs[n]];
      assert obs[n] in obs;
    }
  }

  lemma {:induction false} EntryPower(obs: seq<Observation>, q: Query, run: string, required: seq<Pattern>, g: Gate)
    ensures var e := EntryOf(obs, q, run, required, g);
            && e.power >= 0.0
            && (forall o :: o in obs && Counted(o, q, run, required, g) ==> o.powerP99.value.watts <= e.power)
            && (e.power > 0.0 ==> exists o :: o in obs && Counted(o, q, run, required, g) && o.powerP99.value.watts == e.power)
  {
    if obs != [] {
      var n := |obs| - 1;
      EntryPower(obs[..n], q, run, required, g);
      assert obs == obs[..n] + [obs[n]];
      assert obs[n] in obs;
    }
  }

  // A run is complete exactly when it holds an eligible pass of every required pattern (and, for
  // the complete gate, of Endurance); its power is then the largest p99 among those passes.
  lemma CompleteRunMeaning(obs: seq<Observation>, q: Query, run: string, required: seq<Pattern>, g: Gate)
    requires Distinct(required) && Endurance !in required && (g == Full || required != [])
    ensures Complete(EntryOf(obs, q, run, required, g), g)
       <==> (g == Full ==> HasPattern(obs, q, run, Endurance)) && forall p :: p in required ==> HasPattern(obs, q, run, p)
    ensures Complete(EntryOf(obs, q, run, required, g), g) ==>
              var power := EntryOf(obs, q, run, required, g).power;
              && (exists o :: o in obs && Counted(o, q, run, required, g) && o.powerP99.value.watts == power)
              && (forall o :: o in obs && Counted(o, q, run, required, g) ==> o.powerP99.value.watts <= power)
  {
    var e := EntryOf(obs, q, run, required, g);
    EntryEndurance(obs, q, run, required);
    EntryPower(obs, q, run, required, g);
    forall k | 0 <= k < |required| ensures e.seen[k] <==> HasPattern(obs, q, run, required[k]) {
      EntrySeen(obs, q, run, required, g, k);
    }
    if Complete(e, g) {
      forall p | p in required ensures HasPattern(obs, q, run, p) {
        var k :| 0 <= k < |required| && required[k] == p;
        assert e.seen[k];
      }
      var present := if g == Full then Endurance else required[0];
      assert HasPattern(obs, q, run, present);
      var o :| o in obs && Eligible(o, q) && o.runId == run && PatternOf(o) == present;
      assert Counted(o, q, run, required, g);
    }
  }

  lemma GateValueUnique(obs: seq<Observation>, q: Query, required: seq<Pattern>, g: Gate, a: Option<real>, b: Option<real>)
    requires IsGateValue(obs, q, required, g, a) && IsGateValue(obs, q, required, g, b)
    ensures a == b
  {
  }

  // Two calls of the gate agree on logs holding the same observations, in any order and number.
  lemma GateIgnoresOrder(a: seq<Observation>, b: seq<Observation>, q: Query, required: seq<Pattern>, g: Gate,
                         r: Option<real>, s: Option<real>)
    requires Distinct(required) && Endurance !in required && (g == Full || required != [])
    requires forall o :: o in a <==> o in b
    requires IsGateValue(a, q, required, g, r) && IsGateValue(b, q, required, g, s)
    ensures r == s
  {
    forall run: string
      ensures Complete(EntryOf(a, q, run, required, g), g) <==> Complete(EntryOf(b, q, run, required, g), g)
      ensures Complete(EntryOf(a, q, run, required, g), g) ==>
                EntryOf(a, q, run, required, g).power == EntryOf(b, q, run, required, g).power
    {
      SameRunSameEntry(a, b, q, run, required, g);
    }
    assert IsGateValue(b, q, required, g, r);
    GateValueUnique(b, q, required, g, r, s);
  }

  lemma SameRunSameEntry(a: seq<Observation>, b: seq<Observation>, q: Query, run: string, required: seq<Pattern>, g: Gate)
    requires Distinct(required) && Endurance !in required && (g == Full || required != [])
    requires forall o :: o in a <==> o in b
    ensures Complete(EntryOf(a, q, run, required, g), g) <==> Complete(EntryOf(b, q, run, required, g), g)
    ensures Complete(EntryOf(a, q, run, required, g), g) ==>
              EntryOf(a, q, run, required, g).power == EntryOf(b, q, run, required, g).power
  {
    CompleteRunMeaning(a, q, run, required, g);
    CompleteRunMeaning(b, q, run, required, g);
    forall p ensures HasPattern(a, q, run, p) <==> HasPattern(b, q, run, p) {}
  }

  // ---------------------------------------------------------------- the gates, told on the observations

  // A validated, cleaned-up, reproducible full-strength Apply pass at this pair on this GPU.
  ghost predicate IsApplyPass(o: Observation, q: Query)
  {
    && o.targetMhz == q.targetMhz && o.anchorMv == q.anchorMv && o.gpuKey == Some(q.gpuKey)
    && (q.run == None || q.run == Some(o.runId))
    && o.kind == ApplyQualification && o.qualificationContract == Some(25) && o.outcome == Validated
    && o.resetOk && o.bootFlagCleared && o.reproducible
    && o.coverage.Some? && o.coverage.value.strength == Fsgl4 && o.coverage.value.verdict == Pass
    && o.coverage.value.pattern.Some?
  }

  // Such a pass of one pattern by one run, with a usable power reading: finite, positive, and taken
  // without a thermal flag or with the clock held at the target.
  ghost predicate Proves(o: Observation, q: Query, run: string, p: Pattern)
  {
    && IsApplyPass(o, q) && o.runId == run && o.coverage.value.pattern == Some(p)
    && o.powerP99.Some? && o.powerP99.value.Finite? && o.powerP99.value.watts > 0.0
    && (!o.thermalThrottled || (o.sustainedClock.Some? && o.sustainedClock.value >= q.targetMhz))
  }

  // The patterns a gate asks for.
  function Asked(required: seq<Pattern>, g: Gate): seq<Pattern>
  {
    if g == Full then required + [Endurance] else required
  }

  ghost predicate ProvesAll(obs: seq<Observation>, q: Query, run: string, patterns: seq<Pattern>)
  {
    forall p :: p in patterns ==> exists o :: o in obs && Proves(o, q, run, p)
  }

  // A reading of a proof the gate asks for.
  ghost predicate IsReading(obs: seq<Observation>, q: Query, run: string, patterns: seq<Pattern>, o: Observation)
  {
    o in obs && exists p :: p in patterns && Proves(o, q, run, p)
  }

  lemma EligibleProves(o: Observation, q: Query, run: string)
    ensures Eligible(o, q) && o.runId == run <==>
              o.coverage.Some? && o.coverage.value.pattern.Some? && Proves(o, q, run, o.coverage.value.pattern.value)
    ensures forall p :: Proves(o, q, run, p) ==> Eligible(o, q) && o.runId == run && PatternOf(o) == p
    ensures IsWorstCandidate(o, q) <==> IsApplyPass(o, q)
  {
  }

  lemma CountedIsReading(obs: seq<Observation>, q: Query, run: string, required: seq<Pattern>, g: Gate, o: Observation)
    requires o in obs
    ensures Counted(o, q, run, required, g) <==> IsReading(obs, q, run, Asked(required, g), o)
  {
    EligibleProves(o, q, run);
    if Counted(o, q, run, required, g) {
      assert PatternOf(o) in Asked(required, g) && Proves(o, q, run, PatternOf(o));
    }
  }

  lemma HasPatternProves(obs: seq<Observation>, q: Query, run: string, p: Pattern)
    ensures HasPattern(obs, q, run, p) <==> exists o :: o in obs && Proves(o, q, run, p)
  {
    if o :| o in obs && Eligible(o, q) && o.runId == run && PatternOf(o) == p {
      EligibleProves(o, q, run);
    }
    if o :| o in obs && Proves(o, q, run, p) {
      EligibleProves(o, q, run);
    }
  }

  // One run against the gate: it is complete exactly when it proves every pattern asked for, and its
  // power is then its largest reading.
  lemma RunInObservations(obs: seq<Observation>, q: Query, run: string, required: seq<Pattern>, g: Gate)
    requires Distinct(required) && Endurance !in required && (g == Full || required != [])
    ensures var e, patterns := EntryOf(obs, q, run, required, g), Asked(required, g);
            && (Complete(e, g) <==> ProvesAll(obs, q, run, patterns))
            && (Complete(e, g) ==>
                  && (exists o :: IsReading(obs, q, run, patterns, o) && o.powerP99.value.watts == e.power)
                  && (forall o :: IsReading(obs, q, run, patterns, o) ==> o.powerP99.value.watts <= e.power))
  {
    var e, patterns := EntryOf(obs, q, run, required, g), Asked(required, g);
    CompleteRunMeaning(obs, q, run, required, g);
    forall p ensures HasPattern(obs, q, run, p) <==> exists o :: o in obs && Proves(o, q, run, p) {
      HasPatternProves(obs, q, run, p);
    }
    forall o | o in obs ensures Counted(o, q, run, required, g) <==> IsReading(obs, q, run, patterns, o) {
      CountedIsReading(obs, q, run, required, g, o);
    }
    assert ProvesAll(obs, q, run, patterns) <==>
             (g == Full ==> HasPattern(obs, q, run, Endurance)) && forall p :: p in required ==> HasPattern(obs, q, run, p) by {
      assert forall p :: p in patterns <==> p in required || (g == Full && p == Endurance);
    }
    if Complete(e, g) {
      var o :| o in obs && Counted(o, q, run, required, g) && o.powerP99.value.watts == e.power;
      assert IsReading(obs, q, run, patterns, o);
    }
  }

  // A gate has a value exactly when one run proves everything it asks for; the value is the largest
  // reading among such runs.
  lemma GateInObservations(obs: seq<Observation>, q: Query, required: seq<Pattern>, g: Gate, r: Option<real>)
    requires Distinct(required) && Endurance !in required && (g == Full || required != [])
    requires IsGateValue(obs, q, required, g, r)
    ensures r.Some? <==> exists run: string :: ProvesAll(obs, q, run, Asked(required, g))
    ensures r.Some? ==> exists run: string, o: Observation ::
              && ProvesAll(obs, q, run, Asked(required, g)) && IsReading(obs, q, run, Asked(required, g), o)
              && o.powerP99.value.watts == r.value
    ensures r.Some? ==> forall run: string, o: Observation ::
              (ProvesAll(obs, q, run, Asked(required, g)) && IsReading(obs, q, run, Asked(required, g), o)) ==>
                o.powerP99.value.watts <= r.value
  {
    var patterns := Asked(required, g);
    forall run: string
      ensures Complete(EntryOf(obs, q, run, required, g), g) <==> ProvesAll(obs, q, run, patterns)
    {
      RunInObservations(obs, q, run, required, g);
    }
    if r.Some? {
      var best: string :| Complete(EntryOf(obs, q, best, required, g), g) && EntryOf(obs, q, best, required, g).power == r.value;
      RunInObservations(obs, q, best, required, g);
      var o :| IsReading(obs, q, best, patterns, o) && o.powerP99.value.watts == r.value;
      assert ProvesAll(obs, q, best, patterns);
      forall run: string, x: Observation | ProvesAll(obs, q, run, patterns) && IsReading(obs, q, run, patterns, x)
        ensures x.powerP99.value.watts <= r.value
      {
        RunInObservations(obs, q, run, required, g);
      }
    }
  }

  // ---------------------------------------------------------------- worst power and endurance

  // Distance between neighbouring 32-bit floats around n: 1 as long as n has at most 24 bits.
  function Ulp(n: nat): (u: nat)
    ensures u >= 1
  {
    if n < 0x100_0000 then 1 else 2 * Ulp(n / 2)
  }

  // The 32-bit float nearest to n, ties to the even neighbour; always a whole number.
  function ToF32(n: u32): nat
  {
    var u := Ulp(n);
    var down := n / u;
    if 2 * (n % u) < u || (2 * (n % u) == u && down % 2 == 0) then down * u else (down + 1) * u
  }

  lemma DivMod(n: nat, u: nat)
    requires u >= 1
    ensures n / u * u + n % u == n && (n / u + 1) * u == n / u * u + u
  {
  }

  // Within half a step of n; exact exactly on the float grid, in particular below 2^24.
  lemma ToF32Near(n: u32)
    ensures 2 * ToF32(n) <= 2 * n + Ulp(n) && 2 * n <= 2 * ToF32(n) + Ulp(n)
    ensures ToF32(n) == n <==> n % Ulp(n) == 0
    ensures n < 0x100_0000 ==> ToF32(n) == n
    ensures n > 0 ==> ToF32(n) > 0
  {
    DivMod(n, Ulp(n));
    if n >= 0x100_0000 { UlpBelow(n); }
  }

  lemma EvenOf(d: nat)
    ensures 2 * ((d + 1) / 2) == if d % 2 == 0 then d else d + 1
  {
  }

  // A tie goes to the neighbour with the even significand.
  lemma ToF32Ties(n: u32)
    requires 2 * (n % Ulp(n)) == Ulp(n)
    ensures ToF32(n) == (2 * ((n / Ulp(n) + 1) / 2)) * Ulp(n)
  {
    EvenOf(n / Ulp(n));
  }

  // The step is the power of two that leaves a significand of 24 bits.
  lemma {:induction false} UlpMeaning(n: nat) returns (k: nat)
    requires n >= 0x80_0000
    ensures Ulp(n) == Pow2(k) && 0x80_0000 * Ulp(n) <= n < 0x100_0000 * Ulp(n)
  {
    if n < 0x100_0000 {
      k := 0;
    } else {
      k := UlpMeaning(n / 2);
      k := k + 1;
    }
  }

  lemma {:induction false} UlpBelow(n: nat)
    requires n > 0
    ensures Ulp(n) <= n
  {
    if n >= 0x100_0000 { UlpBelow(n / 2); }
  }

  predicate IsWorstCandidate(o: Observation, q: Query) { AtPair(o, q) && IsApplyEvidence(o) }

  function Raise(w: Option<real>, p: real): Option<real>
  {
    if p > 0.0 && (w.None? || p >= w.value) then Some(p) else w
  }

  function RaiseReading(w: Option<real>, r: Option<Reading>): Option<real>
  {
    if r.Some? && r.value.Finite? then Raise(w, r.value.watts) else w
  }

  // Largest positive p99 or peak over the pair's Apply evidence.
  function WorstPower(obs: seq<Observation>, q: Query): Option<real>
  {
    if obs == [] then None
    else
      var w, o := WorstPower(obs[..|obs| - 1], q), obs[|obs| - 1];
      if !IsWorstCandidate(o, q) then w
      else
        var w' := RaiseReading(w, o.powerP99);
        if o.maxWatts.Some? then Raise(w', ToF32(o.maxWatts.value) as real) else w'
  }

  predicate HasEndurance(obs: seq<Observation>, q: Query)
  {
    exists i | 0 <= i < |obs| :: AtPair(obs[i], q) && IsApplyEvidence(obs[i]) && PatternOf(obs[i]) == Endurance
  }

  // No positive reading of the pair's Apply evidence exceeds the worst-case power, a peak taken as
  // the 32-bit float it is compared as.
  lemma {:induction false} WorstPowerCovers(obs: seq<Observation>, q: Query, o: Observation)
    requires o in obs && IsApplyPass(o, q)
    ensures o.powerP99.Some? && o.powerP99.value.Finite? && o.powerP99.value.watts > 0.0 ==>
              WorstPower(obs, q).Some? && WorstPower(obs, q).value >= o.powerP99.value.watts
    ensures o.maxWatts.Some? && o.maxWatts.value > 0 ==>
              WorstPower(obs, q).Some? && WorstPower(obs, q).value >= ToF32(o.maxWatts.value) as real
  {
    if o.maxWatts.Some? { ToF32Near(o.maxWatts.value); }
    var n := |obs| - 1;
    assert obs == obs[..n] + [obs[n]];
    if o in obs[..n] { WorstPowerCovers(obs[..n], q, o); }
  }

  // And it is one of those readings.
  lemma {:induction false} WorstPowerMeasured(obs: seq<Observation>, q: Query) returns (o: Observation)
    requires WorstPower(obs, q).Some?
    ensures o in obs && IsApplyPass(o, q) && WorstPower(obs, q).value > 0.0
    ensures o.powerP99 == Some(Finite(WorstPower(obs, q).value))
         || (o.maxWatts.Some? && ToF32(o.maxWatts.value) as real == WorstPower(obs, q).value)
  {
    var n := |obs| - 1;
    if WorstPower(obs[..n], q).Some? && WorstPower(obs[..n], q) == WorstPower(obs, q) {
      o := WorstPowerMeasured(obs[..n], q);
    } else {
      o := obs[n];
    }
  }

  // The Endurance proof of a pair: one Apply pass of that pattern, whatever its power readings.
  lemma EnduranceInObservations(obs: seq<Observation>, q: Query)
    ensures HasEndurance(obs, q)
       <==> exists o :: o in obs && IsApplyPass(o, q) && o.coverage.value.pattern == Some(Endurance)
  {
    if i :| 0 <= i < |obs| && AtPair(obs[i], q) && IsApplyEvidence(obs[i]) && PatternOf(obs[i]) == Endurance {
      assert obs[i] in obs && IsApplyPass(obs[i], q);
    }
    if o :| o in obs && IsApplyPass(o, q) && o.coverage.value.pattern == Some(Endurance) {
      var i :| 0 <= i < |obs| && obs[i] == o;
      assert PatternOf(obs[i]) == Endurance;
    }
  }

  // What the three passes over one run's evidence keep, prefix by prefix.
  lemma {:induction false} SeenAlongside(obs: seq<Observation>, q: Query, run: string, required: seq<Pattern>)
    ensures EntryOf(obs, q, run, required, RequiredOnly).seen == EntryOf(obs, q, run, required, Full).seen
  {
    if obs != [] { SeenAlongside(obs[..|obs| - 1], q, run, required); }
  }

  lemma {:induction false} PowerAlongside(obs: seq<Observation>, q: Query, run: string, required: seq<Pattern>)
    ensures 0.0 <= EntryOf(obs, q, run, required, RequiredOnly).power <= EntryOf(obs, q, run, required, Full).power
  {
    if obs != [] { PowerAlongside(obs[..|obs| - 1], q, run, required); }
  }

  lemma EligibleIsCandidate(o: Observation, q: Query)
    requires Eligible(o, q)
    ensures IsApplyPass(o, q) && PositivePower(o.powerP99)
  {
  }

  lemma PowerCovered(obs: seq<Observation>, q: Query, run: string, required: seq<Pattern>)
    ensures var full := EntryOf(obs, q, run, required, Full);
            full.power > 0.0 ==> WorstPower(obs, q).Some? && WorstPower(obs, q).value >= full.power
  {
    EntryPower(obs, q, run, required, Full);
    if EntryOf(obs, q, run, required, Full).power > 0.0 {
      var o :| o in obs && Counted(o, q, run, required, Full)
               && o.powerP99.value.watts == EntryOf(obs, q, run, required, Full).power;
      EligibleIsCandidate(o, q);
      WorstPowerCovers(obs, q, o);
    }
  }

  lemma EnduranceAlongside(obs: seq<Observation>, q: Query, run: string, required: seq<Pattern>)
    requires Endurance !in required
    ensures var full := EntryOf(obs, q, run, required, Full);
            full.endurance ==> full.power > 0.0 && HasEndurance(obs, q)
  {
    EntryEndurance(obs, q, run, required);
    EntryPower(obs, q, run, required, Full);
    if EntryOf(obs, q, run, required, Full).endurance {
      var o :| o in obs && Eligible(o, q) && o.runId == run && PatternOf(o) == Endurance;
      assert Counted(o, q, run, required, Full);
      EligibleIsCandidate(o, q);
      var i :| 0 <= i < |obs| && obs[i] == o;
      assert PatternOf(obs[i]) == Endurance;
    }
  }

  // A query naming a run sees nothing of any other run.
  lemma {:induction false} OtherRunsBlank(obs: seq<Observation>, q: Query, run: string, required: seq<Pattern>, g: Gate)
    requires q.run.Some? && run != q.run.value
    ensures EntryOf(obs, q, run, required, g) == Blank(required)
  {
    if obs != [] { OtherRunsBlank(obs[..|obs| - 1], q, run, required, g); }
  }

  // For one run, a complete-gate value p comes with a required-set value part <= p, a worst-case
  // power of at least p, and the Endurance proof.
  lemma CompleteGateImpliesOthers(obs: seq<Observation>, q: Query, required: seq<Pattern>, p: real, part: Option<real>)
    requires q.run.Some? && Endurance !in required && required != []
    requires IsGateValue(obs, q, required, Full, Some(p)) && IsGateValue(obs, q, required, RequiredOnly, part)
    ensures part.Some? && part.value <= p
    ensures WorstPower(obs, q).Some? && WorstPower(obs, q).value >= p > 0.0
    ensures HasEndurance(obs, q)
  {
    var own := q.run.value;
    var run: string :| Complete(EntryOf(obs, q, run, required, Full), Full) && EntryOf(obs, q, run, required, Full).power == p;
    if run != own { OtherRunsBlank(obs, q, run, required, Full); }
    SeenAlongside(obs, q, own, required);
    PowerAlongside(obs, q, own, required);
    PowerCovered(obs, q, own, required);
    EnduranceAlongside(obs, q, own, required);
    assert Complete(EntryOf(obs, q, own, required, RequiredOnly), RequiredOnly);
    var other: string :| Complete(EntryOf(obs, q, other, required, RequiredOnly), RequiredOnly)
                         && EntryOf(obs, q, other, required, RequiredOnly).power == part.value;
    if other != own {
      OtherRunsBlank(obs, q, other, required, RequiredOnly);
      assert !Blank(required).seen[0];
    }
  }

  // Under the contract in force this holds of every run without further conditions.
  lemma CurrentGateImpliesOthers(obs: seq<Observation>, q: Query, p: real, part: Option<real>)
    requires q.run.Some?
    requires IsGateValue(obs, q, REQUIRED_PATTERNS, Full, Some(p))
    requires IsGateValue(obs, q, REQUIRED_PATTERNS, RequiredOnly, part)
    ensures part.Some? && part.value <= p
    ensures WorstPower(obs, q).Some? && WorstPower(obs, q).value >= p > 0.0
    ensures HasEndurance(obs, q)
  {
    CompleteGateImpliesOthers(obs, q, REQUIRED_PATTERNS, p, part);
  }
}
