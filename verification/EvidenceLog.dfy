/** The append-only observation log: failures, frontiers and their response to new evidence. */
module EvidenceLog {
  import opened MachineInts

  datatype EvidenceKind = Legacy | Discovery | Qualification | ApplyQualification
  datatype Outcome =
    | Validated | RejectedByPlanner | VerifierFailed | SilentError | Unstable | DeviceLost
    | PowerBoundClockDrop | ClockDrop | PowerTelemetryInconclusive | QualificationInconclusive
    | ResetFailed | Blacklisted | CrashOrRecovery | AbortedBySafetyGate
  datatype Strength = Fsgl1 | Fsgl2 | Fsgl3 | Fsgl4
  datatype QualificationVerdict = Pass | Fail | Inconclusive
  datatype Pattern = A | B | HighFps | Texture | Transitions | Memory | Endurance | TransitionShock | Dx11Game
  datatype Coverage = Coverage(strength: Strength, pattern: Option<Pattern>, verdict: QualificationVerdict)
  // A 32-bit float reading: a finite number, or one of the non-finite values.
  datatype Reading = Finite(watts: real) | NotFinite

  datatype Observation = Observation(
    runId: string,
    gpuKey: Option<string>,
    kind: EvidenceKind,
    discoveryContract: Option<u32>,
    qualificationContract: Option<u32>,
    coverage: Option<Coverage>,
    reproducible: bool,          // provenance identifies build, workload and graphics stack
    targetMhz: u32,
    anchorMv: u32,
    sustainedClock: Option<u32>,
    maxWatts: Option<u32>,
    powerP99: Option<Reading>,
    powerConfirmed: bool,
    thermalThrottled: bool,
    deviceLost: bool,
    resetOk: bool,
    bootFlagCleared: bool,
    outcome: Outcome)

  const DISCOVERY_CONTRACT: u32 := 6
  const QUALIFICATION_CONTRACT: u32 := 25
  const CRASH_PROXIMITY_MIN_MV: u32 := 12
  const REQUIRED_PATTERNS: seq<Pattern> := [Texture]

  predicate IsBad(o: Outcome)
  {
    o == VerifierFailed || o == SilentError || o == Unstable || o == DeviceLost
    || o == ClockDrop || o == ResetFailed || o == Blacklisted || o == CrashOrRecovery
  }

  predicate CleanAndReproducible(o: Observation) { o.resetOk && o.bootFlagCleared && o.reproducible }

  predicate IsCurrentDiscovery(o: Observation)
  {
    o.kind == Discovery && o.discoveryContract == Some(DISCOVERY_CONTRACT)
    && o.powerConfirmed && CleanAndReproducible(o)
  }

  predicate PassedAtFullStrength(o: Observation)
  {
    o.coverage.Some? && o.coverage.value.strength == Fsgl4
    && o.coverage.value.pattern.Some? && o.coverage.value.verdict == Pass
  }

  predicate IsCurrentQualificationPass(o: Observation)
  {
    o.kind == Qualification && o.qualificationContract == Some(QUALIFICATION_CONTRACT)
    && o.outcome == Validated && CleanAndReproducible(o)
    && PassedAtFullStrength(o) && o.coverage.value.pattern.value in REQUIRED_PATTERNS
  }

  // ---------------------------------------------------------------- selecting observations

  function Where(obs: seq<Observation>, keep: Observation -> bool): (r: seq<Observation>)
    ensures forall o :: o in r <==> o in obs && keep(o)
  {
    if obs == [] then []
    else
      var n := |obs| - 1;
      assert obs == obs[..n] + [obs[n]];
      Where(obs[..n], keep) + if keep(obs[n]) then [obs[n]] else []
  }

  // The first observation with the lowest anchor.
  function Lowest(obs: seq<Observation>): (r: Option<Observation>)
    ensures r.None? <==> obs == []
    ensures r.Some? ==> r.value in obs && forall o :: o in obs ==> r.value.anchorMv <= o.anchorMv
  {
    if obs == [] then None
    else
      var n := |obs| - 1;
      assert obs == obs[..n] + [obs[n]];
      var b := Lowest(obs[..n]);
      if b.None? || obs[n].anchorMv < b.value.anchorMv then Some(obs[n]) else b
  }

  // The last observation with the highest anchor.
  function Highest(obs: seq<Observation>): (r: Option<Observation>)
    ensures r.None? <==> obs == []
    ensures r.Some? ==> r.value in obs && forall o :: o in obs ==> o.anchorMv <= r.value.anchorMv
  {
    if obs == [] then None
    else
      var n := |obs| - 1;
      assert obs == obs[..n] + [obs[n]];
      var b := Highest(obs[..n]);
      if b.None? || obs[n].anchorMv >= b.value.anchorMv then Some(obs[n]) else b
  }

  // ---------------------------------------------------------------- failures and brackets

  predicate CountsAgainst(o: Observation, target: u32)
  {
    o.targetMhz == target && o.kind != ApplyQualification && IsBad(o.outcome)
  }

  function FirstBad(obs: seq<Observation>, target: u32): Option<Observation>
  {
    Highest(Where(obs, (o: Observation) => CountsAgainst(o, target)))
  }

  predicate Above(bad: Option<Observation>, mv: u32) { bad.None? || mv > bad.value.anchorMv }

  function LastGood(obs: seq<Observation>, target: u32): Option<Observation>
  {
    var bad := FirstBad(obs, target);
    Lowest(Where(obs, (o: Observation) => o.targetMhz == target && o.outcome == Validated && Above(bad, o.anchorMv)))
  }

  datatype VoltageBracket = VoltageBracket(firstBadMv: u32, lastGoodMv: u32, widthMv: u32)

  function Bracket(obs: seq<Observation>, target: u32): Option<VoltageBracket>
  {
    var good, bad := LastGood(obs, target), FirstBad(obs, target);
    if good.None? || bad.None? then None
    else if good.value.anchorMv > bad.value.anchorMv then
      Some(VoltageBracket(bad.value.anchorMv, good.value.anchorMv, good.value.anchorMv - bad.value.anchorMv))
    else None
  }

  predicate KnownBad(obs: seq<Observation>, target: u32, mv: u32)
  {
    exists i | 0 <= i < |obs| :: CountsAgainst(obs[i], target) && obs[i].anchorMv >= mv
  }

  // FirstBad is the highest failure; no failure of the target lies above it.
  lemma FirstBadMeaning(obs: seq<Observation>, target: u32)
    ensures FirstBad(obs, target).Some? ==> FirstBad(obs, target).value in obs && CountsAgainst(FirstBad(obs, target).value, target)
    ensures forall o :: o in obs && CountsAgainst(o, target) ==>
              FirstBad(obs, target).Some? && o.anchorMv <= FirstBad(obs, target).value.anchorMv
  {
    var bad := Where(obs, (o: Observation) => CountsAgainst(o, target));
    forall o | o in obs && CountsAgainst(o, target) ensures o in bad {}
  }

  // A point is known bad exactly when the first failure lies at or above it.
  lemma KnownBadIff(obs: seq<Observation>, target: u32, mv: u32)
    ensures KnownBad(obs, target, mv)
       <==> FirstBad(obs, target).Some? && FirstBad(obs, target).value.anchorMv >= mv
  {
    FirstBadMeaning(obs, target);
    if FirstBad(obs, target).Some? {
      var bad := FirstBad(obs, target).value;
      var i :| 0 <= i < |obs| && obs[i] == bad;
      assert obs[i].anchorMv == bad.anchorMv;
    }
  }

  // The bracket exists exactly when both ends do (its inconsistent branch is dead); no failure
  // lies above it and no validated point inside it.
  lemma BracketMeaning(obs: seq<Observation>, target: u32)
    ensures Bracket(obs, target).Some? <==> LastGood(obs, target).Some? && FirstBad(obs, target).Some?
    ensures Bracket(obs, target).Some? ==>
              var b := Bracket(obs, target).value;
              && b.firstBadMv < b.lastGoodMv && b.widthMv == b.lastGoodMv - b.firstBadMv
              && KnownBad(obs, target, b.firstBadMv) && !KnownBad(obs, target, b.lastGoodMv)
              && forall o :: o in obs && o.targetMhz == target && o.outcome == Validated
                             ==> o.anchorMv <= b.firstBadMv || b.lastGoodMv <= o.anchorMv
  {
    var bad, good := FirstBad(obs, target), LastGood(obs, target);
    var clean := Where(obs, (o: Observation) => o.targetMhz == target && o.outcome == Validated && Above(bad, o.anchorMv));
    if bad.Some? {
      KnownBadIff(obs, target, bad.value.anchorMv);
      if good.Some? {
        assert good.value in clean;
        KnownBadIff(obs, target, good.value.anchorMv);
        forall o | o in obs && o.targetMhz == target && o.outcome == Validated
          ensures o.anchorMv <= bad.value.anchorMv || good.value.anchorMv <= o.anchorMv
        {
          if o.anchorMv > bad.value.anchorMv { assert o in clean; }
        }
      }
    }
  }

  // ---------------------------------------------------------------- frontiers

  predicate Crashed(o: Observation, target: u32)
  {
    o.targetMhz == target && (o.deviceLost || o.outcome == DeviceLost)
  }

  function CrashFloor(obs: seq<Observation>, target: u32): Option<u32>
  {
    var top := Highest(Where(obs, (o: Observation) => Crashed(o, target)));
    if top.None? then None else Some(top.value.anchorMv)
  }

  predicate ClearsCrash(floor: Option<u32>, mv: u32)
  {
    floor.None? || mv >= SatAdd32(floor.value, CRASH_PROXIMITY_MIN_MV)
  }

  predicate Supports(o: Observation, target: u32)
  {
    o.targetMhz == target && o.outcome == Validated && IsCurrentDiscovery(o)
  }

  function Candidates(obs: seq<Observation>, target: u32): seq<Observation>
  {
    var bad, crash := FirstBad(obs, target), CrashFloor(obs, target);
    Where(obs, (o: Observation) => Supports(o, target) && Above(bad, o.anchorMv) && ClearsCrash(crash, o.anchorMv))
  }

  predicate QualifiedBy(obs: seq<Observation>, target: u32, mv: u32, p: Pattern)
  {
    exists i | 0 <= i < |obs| ::
      obs[i].targetMhz == target && obs[i].anchorMv == mv && IsCurrentQualificationPass(obs[i])
      && obs[i].coverage.value.pattern == Some(p)
  }

  predicate FullyQualified(obs: seq<Observation>, target: u32, mv: u32)
  {
    forall p | p in REQUIRED_PATTERNS :: QualifiedBy(obs, target, mv, p)
  }

  function QualifiedCandidates(obs: seq<Observation>, target: u32): seq<Observation>
  {
    Where(Candidates(obs, target), (o: Observation) => FullyQualified(obs, target, o.anchorMv))
  }

  datatype FrontierEntry = FrontierEntry(
    targetMhz: u32,
    bestAnchorMv: u32,
    validationCount: nat,
    firstBadMv: Option<u32>,
    bracketWidthMv: Option<u32>,
    observationCount: nat)

  function CountQualified(obs: seq<Observation>, target: u32, mv: u32, patterns: seq<Pattern>): (n: nat)
    ensures n <= |patterns|
    ensures n == |patterns| <==> forall p :: p in patterns ==> QualifiedBy(obs, target, mv, p)
  {
    if patterns == [] then 0
    else
      var n := |patterns| - 1;
      assert patterns == patterns[..n] + [patterns[n]];
      CountQualified(obs, target, mv, patterns[..n]) + if QualifiedBy(obs, target, mv, patterns[n]) then 1 else 0
  }

  function EntryFromBest(obs: seq<Observation>, target: u32, best: Observation): FrontierEntry
  {
    var bad, bracket := FirstBad(obs, target), Bracket(obs, target);
    FrontierEntry(target, best.anchorMv,
                  CountQualified(obs, target, best.anchorMv, REQUIRED_PATTERNS),
                  if bad.None? then None else Some(bad.value.anchorMv),
                  if bracket.None? then None else Some(bracket.value.widthMv),
                  |Where(obs, (o: Observation) => o.targetMhz == target)|)
  }

  function FrontierFrom(obs: seq<Observation>, target: u32, candidates: seq<Observation>): Option<FrontierEntry>
  {
    var best := Lowest(candidates);
    if best.None? then None else Some(EntryFromBest(obs, target, best.value))
  }

  function PhysicalFrontier(obs: seq<Observation>, target: u32): Option<FrontierEntry>
  {
    FrontierFrom(obs, target, Candidates(obs, target))
  }

  function QualifiedFrontier(obs: seq<Observation>, target: u32): Option<FrontierEntry>
  {
    FrontierFrom(obs, target, QualifiedCandidates(obs, target))
  }

  // The voltage a frontier stands at.
  function AnchorOf(best: Option<Observation>): Option<u32>
  {
    if best.None? then None else Some(best.value.anchorMv)
  }

  function PhysicalAnchor(obs: seq<Observation>, target: u32): Option<u32>
  {
    AnchorOf(Lowest(Candidates(obs, target)))
  }

  function QualifiedAnchor(obs: seq<Observation>, target: u32): Option<u32>
  {
    AnchorOf(Lowest(QualifiedCandidates(obs, target)))
  }

  function BestAnchor(e: Option<FrontierEntry>): Option<u32>
  {
    if e.None? then None else Some(e.value.bestAnchorMv)
  }

  // Both entries stand at their anchors.
  lemma EntriesStandAtAnchors(obs: seq<Observation>, target: u32)
    ensures BestAnchor(PhysicalFrontier(obs, target)) == PhysicalAnchor(obs, target)
    ensures BestAnchor(QualifiedFrontier(obs, target)) == QualifiedAnchor(obs, target)
  {
  }

  // Membership in the candidate set, spelled out without the selection functions.
  ghost predicate Publishable(obs: seq<Observation>, target: u32, o: Observation)
  {
    && o in obs && Supports(o, target)
    && (forall x :: x in obs && CountsAgainst(x, target) ==> o.anchorMv > x.anchorMv)
    && (forall x :: x in obs && Crashed(x, target) ==>
          o.anchorMv >= SatAdd32(x.anchorMv, CRASH_PROXIMITY_MIN_MV))
  }

  lemma CrashFloorMeaning(obs: seq<Observation>, target: u32, mv: u32)
    ensures ClearsCrash(CrashFloor(obs, target), mv)
       <==> forall x :: x in obs && Crashed(x, target) ==> mv >= SatAdd32(x.anchorMv, CRASH_PROXIMITY_MIN_MV)
  {
    var crashed := Where(obs, (o: Observation) => Crashed(o, target));
    var top := Highest(crashed);
    if top.Some? { assert top.value in crashed; }
    forall x | x in obs && Crashed(x, target) ensures x in crashed {}
  }

  lemma CandidateIff(obs: seq<Observation>, target: u32, o: Observation)
    ensures o in Candidates(obs, target) <==> Publishable(obs, target, o)
  {
    FirstBadMeaning(obs, target);
    CrashFloorMeaning(obs, target, o.anchorMv);
  }

  // Both frontiers keep clear of every recorded failure and, by 12 mV, of every crash.
  lemma FrontierIsSafe(obs: seq<Observation>, target: u32, e: FrontierEntry)
    requires PhysicalFrontier(obs, target) == Some(e) || QualifiedFrontier(obs, target) == Some(e)
    ensures !KnownBad(obs, target, e.bestAnchorMv)
    ensures forall x :: x in obs && Crashed(x, target) ==>
              e.bestAnchorMv >= SatAdd32(x.anchorMv, CRASH_PROXIMITY_MIN_MV)
    ensures exists o :: o in obs && Supports(o, target) && o.anchorMv == e.bestAnchorMv
  {
    var all := Candidates(obs, target);
    var best := if PhysicalFrontier(obs, target) == Some(e) then Lowest(all) else Lowest(QualifiedCandidates(obs, target));
    assert best.value in all;
    CandidateIff(obs, target, best.value);
  }

  // The qualified anchor is never below the physical one, and they meet exactly when the
  // physical entry counts every required pattern.
  lemma QualifiedAbovePhysical(obs: seq<Observation>, target: u32)
    ensures var physical, qualified := PhysicalFrontier(obs, target), QualifiedFrontier(obs, target);
            && (qualified.Some? ==> physical.Some? && qualified.value.bestAnchorMv >= physical.value.bestAnchorMv
                                    && qualified.value.validationCount == |REQUIRED_PATTERNS|)
            && (physical.Some? ==> (physical.value.validationCount == |REQUIRED_PATTERNS|
                                    <==> QualifiedAnchor(obs, target) == PhysicalAnchor(obs, target)))
  {
    var all, good := Candidates(obs, target), QualifiedCandidates(obs, target);
    var p, q := Lowest(all), Lowest(good);
    if q.Some? {
      assert q.value in good && q.value in all;
      assert FullyQualified(obs, target, q.value.anchorMv);
    }
    if p.Some? && FullyQualified(obs, target, p.value.anchorMv) {
      assert p.value in good;
    }
  }

  ghost predicate NotLower(after: Option<u32>, before: Option<u32>)
  {
    after.Some? ==> before.Some? && after.value >= before.value
  }

  lemma MoreCandidatesLower(few: seq<Observation>, many: seq<Observation>)
    requires forall o :: o in few ==> o in many
    ensures NotLower(AnchorOf(Lowest(few)), AnchorOf(Lowest(many)))
  {
    if few != [] { assert few[0] in many; }
  }

  // Everything that supports a publication in `few` supports it in `many` too.
  ghost predicate SupportsLess(few: seq<Observation>, many: seq<Observation>, target: u32)
  {
    && (forall o :: Publishable(few, target, o) ==> Publishable(many, target, o))
    && (forall mv: u32 :: FullyQualified(few, target, mv) ==> FullyQualified(many, target, mv))
  }

  lemma LessSupportNotLower(few: seq<Observation>, many: seq<Observation>, target: u32)
    requires SupportsLess(few, many, target)
    ensures NotLower(PhysicalAnchor(few, target), PhysicalAnchor(many, target))
    ensures NotLower(QualifiedAnchor(few, target), QualifiedAnchor(many, target))
  {
    var f, m := Candidates(few, target), Candidates(many, target);
    forall o | o in f ensures o in m {
      CandidateIff(few, target, o);
      CandidateIff(many, target, o);
    }
    MoreCandidatesLower(f, m);
    MoreCandidatesLower(QualifiedCandidates(few, target), QualifiedCandidates(many, target));
  }

  lemma SameSupportSameAnchors(a: seq<Observation>, b: seq<Observation>, target: u32)
    requires SupportsLess(a, b, target) && SupportsLess(b, a, target)
    ensures PhysicalAnchor(a, target) == PhysicalAnchor(b, target)
    ensures QualifiedAnchor(a, target) == QualifiedAnchor(b, target)
  {
    LessSupportNotLower(a, b, target);
    LessSupportNotLower(b, a, target);
  }

  lemma QualifiedByMembers(a: seq<Observation>, b: seq<Observation>, target: u32, mv: u32, p: Pattern)
    requires forall o :: o in a && IsCurrentQualificationPass(o) ==> o in b
    ensures QualifiedBy(a, target, mv, p) ==> QualifiedBy(b, target, mv, p)
  {
    if QualifiedBy(a, target, mv, p) {
      var i :| 0 <= i < |a| && a[i].targetMhz == target && a[i].anchorMv == mv
               && IsCurrentQualificationPass(a[i]) && a[i].coverage.value.pattern == Some(p);
      assert a[i] in b;
      var j :| 0 <= j < |b| && b[j] == a[i];
      assert b[j].anchorMv == mv;
    }
  }

  lemma QualificationCarriesOver(a: seq<Observation>, b: seq<Observation>, target: u32, mv: u32)
    requires forall o :: o in a && IsCurrentQualificationPass(o) ==> o in b
    ensures FullyQualified(a, target, mv) ==> FullyQualified(b, target, mv)
  {
    if FullyQualified(a, target, mv) {
      forall p | p in REQUIRED_PATTERNS ensures QualifiedBy(b, target, mv, p) {
        QualifiedByMembers(a, b, target, mv, p);
      }
    }
  }

  lemma QualificationCarriesOverAll(a: seq<Observation>, b: seq<Observation>, target: u32)
    requires forall o :: o in a && IsCurrentQualificationPass(o) ==> o in b
    ensures forall mv: u32 :: FullyQualified(a, target, mv) ==> FullyQualified(b, target, mv)
  {
    forall mv: u32 | FullyQualified(a, target, mv) ensures FullyQualified(b, target, mv) {
      QualificationCarriesOver(a, b, target, mv);
    }
  }

  // The anchors depend only on which observations are in the log.
  lemma FrontierIgnoresOrder(a: seq<Observation>, b: seq<Observation>, target: u32)
    requires forall o :: o in a <==> o in b
    ensures PhysicalAnchor(a, target) == PhysicalAnchor(b, target)
    ensures QualifiedAnchor(a, target) == QualifiedAnchor(b, target)
  {
    QualificationCarriesOverAll(a, b, target);
    QualificationCarriesOverAll(b, a, target);
    SameSupportSameAnchors(a, b, target);
  }

  lemma AppendMembers(obs: seq<Observation>, o: Observation)
    ensures forall x :: x in obs + [o] <==> x in obs || x == o
  {
  }

  // New bad evidence never lowers a frontier.
  lemma BadEvidenceNeverLowers(obs: seq<Observation>, o: Observation, target: u32)
    requires IsBad(o.outcome)
    ensures NotLower(PhysicalAnchor(obs + [o], target), PhysicalAnchor(obs, target))
    ensures NotLower(QualifiedAnchor(obs + [o], target), QualifiedAnchor(obs, target))
  {
    AppendMembers(obs, o);
    QualificationCarriesOverAll(obs + [o], obs, target);
    LessSupportNotLower(obs + [o], obs, target);
  }

  // A device loss that comes too close to where a frontier stands.
  ghost predicate Retires(o: Observation, target: u32, anchor: Option<u32>)
  {
    Crashed(o, target) && anchor.Some? && anchor.value < SatAdd32(o.anchorMv, CRASH_PROXIMITY_MIN_MV)
  }

  lemma SurvivesAppend(obs: seq<Observation>, o: Observation, target: u32, best: Observation)
    requires !CountsAgainst(o, target) && best in Candidates(obs, target)
    requires !Retires(o, target, Some(best.anchorMv))
    ensures best in Candidates(obs + [o], target)
  {
    AppendMembers(obs, o);
    CandidateIff(obs, target, best);
    CandidateIff(obs + [o], target, best);
  }

  lemma RetiredAfterAppend(obs: seq<Observation>, o: Observation, target: u32, anchor: u32)
    requires Retires(o, target, Some(anchor))
    ensures forall x :: x in Candidates(obs + [o], target) ==> x.anchorMv > anchor
  {
    AppendMembers(obs, o);
    forall x | x in Candidates(obs + [o], target) ensures x.anchorMv > anchor {
      CandidateIff(obs + [o], target, x);
      assert o in obs + [o];
    }
  }

  lemma LowestKept(before: seq<Observation>, after: seq<Observation>)
    requires Lowest(before).Some? ==> Lowest(before).value in after
    ensures NotLower(AnchorOf(Lowest(before)), AnchorOf(Lowest(after)))
  {
  }

  lemma LowestGone(before: seq<Observation>, after: seq<Observation>)
    requires Lowest(before).Some? && forall x :: x in after ==> x.anchorMv > Lowest(before).value.anchorMv
    ensures !NotLower(AnchorOf(Lowest(before)), AnchorOf(Lowest(after)))
  {
  }

  // An observation that is no failure raises a frontier exactly when its device loss retires the
  // anchor the frontier stands at.
  lemma PhysicalRaisedIff(obs: seq<Observation>, o: Observation, target: u32)
    requires !CountsAgainst(o, target)
    ensures NotLower(PhysicalAnchor(obs, target), PhysicalAnchor(obs + [o], target))
       <==> !Retires(o, target, PhysicalAnchor(obs, target))
  {
    var before, after := Candidates(obs, target), Candidates(obs + [o], target);
    var best := Lowest(before);
    if best.Some? && Retires(o, target, Some(best.value.anchorMv)) {
      RetiredAfterAppend(obs, o, target, best.value.anchorMv);
      LowestGone(before, after);
    } else {
      if best.Some? { SurvivesAppend(obs, o, target, best.value); }
      LowestKept(before, after);
    }
  }

  lemma QualifiedSurvivesAppend(obs: seq<Observation>, o: Observation, target: u32, best: Observation)
    requires !CountsAgainst(o, target) && best in QualifiedCandidates(obs, target)
    requires !Retires(o, target, Some(best.anchorMv))
    ensures best in QualifiedCandidates(obs + [o], target)
  {
    SurvivesAppend(obs, o, target, best);
    AppendMembers(obs, o);
    QualificationCarriesOver(obs, obs + [o], target, best.anchorMv);
  }

  lemma QualifiedRaisedIff(obs: seq<Observation>, o: Observation, target: u32)
    requires !CountsAgainst(o, target)
    ensures NotLower(QualifiedAnchor(obs, target), QualifiedAnchor(obs + [o], target))
       <==> !Retires(o, target, QualifiedAnchor(obs, target))
  {
    var before, after := QualifiedCandidates(obs, target), QualifiedCandidates(obs + [o], target);
    var best := Lowest(before);
    if best.Some? && Retires(o, target, Some(best.value.anchorMv)) {
      RetiredAfterAppend(obs, o, target, best.value.anchorMv);
      LowestGone(before, after);
    } else {
      if best.Some? { QualifiedSurvivesAppend(obs, o, target, best.value); }
      LowestKept(before, after);
    }
  }

  // A new validated observation raises a frontier exactly when it also lost the device within
  // 12 mV of, or above, the anchor the frontier stands at.
  lemma GoodEvidenceRaisesIff(obs: seq<Observation>, o: Observation, target: u32)
    requires o.outcome == Validated
    ensures NotLower(PhysicalAnchor(obs, target), PhysicalAnchor(obs + [o], target))
       <==> !(o.deviceLost && o.targetMhz == target && PhysicalAnchor(obs, target).Some?
              && PhysicalAnchor(obs, target).value < SatAdd32(o.anchorMv, CRASH_PROXIMITY_MIN_MV))
    ensures NotLower(QualifiedAnchor(obs, target), QualifiedAnchor(obs + [o], target))
       <==> !(o.deviceLost && o.targetMhz == target && QualifiedAnchor(obs, target).Some?
              && QualifiedAnchor(obs, target).value < SatAdd32(o.anchorMv, CRASH_PROXIMITY_MIN_MV))
  {
    PhysicalRaisedIff(obs, o, target);
    QualifiedRaisedIff(obs, o, target);
  }

  // How the program itself writes a line: the device-loss mark is the device-loss outcome.
  predicate AsWritten(o: Observation) { o.deviceLost <==> o.outcome == DeviceLost }

  // So among lines the program wrote, good evidence never raises a frontier.
  lemma GoodEvidenceNeverRaises(obs: seq<Observation>, o: Observation, target: u32)
    requires o.outcome == Validated && AsWritten(o)
    ensures NotLower(PhysicalAnchor(obs, target), PhysicalAnchor(obs + [o], target))
    ensures NotLower(QualifiedAnchor(obs, target), QualifiedAnchor(obs + [o], target))
  {
    GoodEvidenceRaisesIff(obs, o, target);
  }

  // Exact-Apply evidence never lowers a frontier, and leaves it where it is unless a device loss
  // retires its anchor.
  lemma ApplyEvidenceMovesIff(obs: seq<Observation>, o: Observation, target: u32)
    requires o.kind == ApplyQualification
    ensures NotLower(PhysicalAnchor(obs + [o], target), PhysicalAnchor(obs, target))
    ensures NotLower(QualifiedAnchor(obs + [o], target), QualifiedAnchor(obs, target))
    ensures PhysicalAnchor(obs + [o], target) == PhysicalAnchor(obs, target)
       <==> !Retires(o, target, PhysicalAnchor(obs, target))
    ensures QualifiedAnchor(obs + [o], target) == QualifiedAnchor(obs, target)
       <==> !Retires(o, target, QualifiedAnchor(obs, target))
  {
    AppendMembers(obs, o);
    QualificationCarriesOverAll(obs + [o], obs, target);
    LessSupportNotLower(obs + [o], obs, target);
    PhysicalRaisedIff(obs, o, target);
    QualifiedRaisedIff(obs, o, target);
    SameWhenNeitherLower(PhysicalAnchor(obs, target), PhysicalAnchor(obs + [o], target));
    SameWhenNeitherLower(QualifiedAnchor(obs, target), QualifiedAnchor(obs + [o], target));
  }

  lemma SameWhenNeitherLower(a: Option<u32>, b: Option<u32>)
    requires NotLower(b, a)
    ensures a == b <==> NotLower(a, b)
  {
  }

  // The same, read off the published entries.
  lemma EntriesFollowEvidence(obs: seq<Observation>, o: Observation, target: u32)
    ensures var p, p' := BestAnchor(PhysicalFrontier(obs, target)), BestAnchor(PhysicalFrontier(obs + [o], target));
            var q, q' := BestAnchor(QualifiedFrontier(obs, target)), BestAnchor(QualifiedFrontier(obs + [o], target));
            && (IsBad(o.outcome) ==> NotLower(p', p) && NotLower(q', q))
            && (o.outcome == Validated && AsWritten(o) ==> NotLower(p, p') && NotLower(q, q'))
            && (o.kind == ApplyQualification && !Crashed(o, target) ==> p' == p && q' == q)
  {
    EntriesStandAtAnchors(obs, target);
    EntriesStandAtAnchors(obs + [o], target);
    if IsBad(o.outcome) { BadEvidenceNeverLowers(obs, o, target); }
    if o.outcome == Validated && AsWritten(o) { GoodEvidenceNeverRaises(obs, o, target); }
    if o.kind == ApplyQualification { ApplyEvidenceMovesIff(obs, o, target); }
  }

  // Two lines that put both frontiers of 1800 MHz at 900 mV.
  const PROBED: Observation :=
    Observation("run", Some("gpu"), Discovery, Some(DISCOVERY_CONTRACT), None, None, true, 1800, 900,
                None, None, None, true, false, false, true, true, Validated)
  const QUALIFIED: Observation :=
    PROBED.(kind := Qualification, discoveryContract := None, qualificationContract := Some(QUALIFICATION_CONTRACT),
            coverage := Some(Coverage(Fsgl4, Some(Texture), Pass)))

  lemma ProbedIsPublishable()
    ensures PROBED in Candidates([PROBED, QUALIFIED], 1800)
  {
    CandidateIff([PROBED, QUALIFIED], 1800, PROBED);
  }

  lemma ProbedIsQualified()
    ensures FullyQualified([PROBED, QUALIFIED], 1800, 900)
  {
    var obs := [PROBED, QUALIFIED];
    assert obs[1].coverage.value.pattern == Some(Texture);
    assert QualifiedBy(obs, 1800, 900, Texture);
  }

  lemma BothFrontiersAt900()
    ensures PhysicalAnchor([PROBED, QUALIFIED], 1800) == Some(900) == QualifiedAnchor([PROBED, QUALIFIED], 1800)
  {
    var obs := [PROBED, QUALIFIED];
    ProbedIsPublishable();
    ProbedIsQualified();
    var all, good := Candidates(obs, 1800), QualifiedCandidates(obs, 1800);
    assert PROBED in all && PROBED in good;
    forall o | o in all ensures o.anchorMv == 900 {
      CandidateIff(obs, 1800, o);
    }
  }

  // A device lost at 895 mV retires both: as the program writes it, on an Apply attempt, and on a
  // foreign line that claims to have validated as well.
  lemma LostDeviceRetiresFrontiers(lost: Observation)
    requires lost.targetMhz == 1800 && lost.anchorMv == 895
    requires (lost.kind == ApplyQualification && lost.outcome == DeviceLost) || (lost.outcome == Validated && lost.deviceLost)
    ensures PhysicalAnchor([PROBED, QUALIFIED, lost], 1800) == None == QualifiedAnchor([PROBED, QUALIFIED, lost], 1800)
  {
    var obs := [PROBED, QUALIFIED];
    assert obs + [lost] == [PROBED, QUALIFIED, lost];
    RetiredAfterAppend(obs, lost, 1800, 900);
    var best := Lowest(Candidates(obs + [lost], 1800));
    if best.Some? {
      CandidateIff(obs + [lost], 1800, best.value);
      assert false;
    }
  }

  // ---------------------------------------------------------------- whole entries

  lemma {:induction false} WhereMultiplicity(obs: seq<Observation>, keep: Observation -> bool, o: Observation)
    ensures multiset(Where(obs, keep))[o] == if keep(o) then multiset(obs)[o] else 0
  {
    if obs != [] {
      var n := |obs| - 1;
      WhereMultiplicity(obs[..n], keep, o);
      assert obs == obs[..n] + [obs[n]];
    }
  }

  lemma SameCount(a: seq<Observation>, b: seq<Observation>, keep: Observation -> bool)
    requires multiset(a) == multiset(b)
    ensures |Where(a, keep)| == |Where(b, keep)|
  {
    forall o ensures multiset(Where(a, keep))[o] == multiset(Where(b, keep))[o] {
      WhereMultiplicity(a, keep, o);
      WhereMultiplicity(b, keep, o);
    }
    assert multiset(Where(a, keep)) == multiset(Where(b, keep));
    assert |Where(a, keep)| == |multiset(Where(a, keep))|;
  }

  lemma SameFirstBad(a: seq<Observation>, b: seq<Observation>, target: u32)
    requires forall o :: o in a <==> o in b
    ensures AnchorOf(FirstBad(a, target)) == AnchorOf(FirstBad(b, target))
  {
    FirstBadMeaning(a, target);
    FirstBadMeaning(b, target);
  }

  lemma SameLastGood(a: seq<Observation>, b: seq<Observation>, target: u32)
    requires forall o :: o in a <==> o in b
    requires AnchorOf(FirstBad(a, target)) == AnchorOf(FirstBad(b, target))
    ensures AnchorOf(LastGood(a, target)) == AnchorOf(LastGood(b, target))
  {
    var badA, badB := FirstBad(a, target), FirstBad(b, target);
    var f := Where(a, (o: Observation) => o.targetMhz == target && o.outcome == Validated && Above(badA, o.anchorMv));
    var g := Where(b, (o: Observation) => o.targetMhz == target && o.outcome == Validated && Above(badB, o.anchorMv));
    MoreCandidatesLower(f, g);
    MoreCandidatesLower(g, f);
    SameWhenNeitherLower(AnchorOf(Lowest(f)), AnchorOf(Lowest(g)));
  }

  lemma {:induction false} SameQualifications(a: seq<Observation>, b: seq<Observation>, target: u32, mv: u32, patterns: seq<Pattern>)
    requires forall o :: o in a <==> o in b
    ensures CountQualified(a, target, mv, patterns) == CountQualified(b, target, mv, patterns)
  {
    if patterns != [] {
      var n := |patterns| - 1;
      SameQualifications(a, b, target, mv, patterns[..n]);
      QualifiedByMembers(a, b, target, mv, patterns[n]);
      QualifiedByMembers(b, a, target, mv, patterns[n]);
    }
  }

  function BracketBetween(good: Option<u32>, bad: Option<u32>): Option<VoltageBracket>
  {
    if good.None? || bad.None? || good.value <= bad.value then None
    else Some(VoltageBracket(bad.value, good.value, good.value - bad.value))
  }

  lemma BracketByAnchors(obs: seq<Observation>, target: u32)
    ensures Bracket(obs, target) == BracketBetween(AnchorOf(LastGood(obs, target)), AnchorOf(FirstBad(obs, target)))
  {
  }

  lemma SameEntry(a: seq<Observation>, b: seq<Observation>, target: u32, x: Observation, y: Observation)
    requires multiset(a) == multiset(b) && x.anchorMv == y.anchorMv
    requires forall o :: o in a <==> o in b
    ensures EntryFromBest(a, target, x) == EntryFromBest(b, target, y)
  {
    SameFirstBad(a, b, target);
    SameLastGood(a, b, target);
    BracketByAnchors(a, target);
    BracketByAnchors(b, target);
    SameQualifications(a, b, target, x.anchorMv, REQUIRED_PATTERNS);
    assert |Where(a, (o: Observation) => o.targetMhz == target)| == |Where(b, (o: Observation) => o.targetMhz == target)| by {
      SameCount(a, b, (o: Observation) => o.targetMhz == target);
    }
  }

  // Reordering the log changes nothing about either entry, counts included.
  lemma EntriesIgnoreOrder(a: seq<Observation>, b: seq<Observation>, target: u32)
    requires multiset(a) == multiset(b)
    ensures PhysicalFrontier(a, target) == PhysicalFrontier(b, target)
    ensures QualifiedFrontier(a, target) == QualifiedFrontier(b, target)
  {
    forall o ensures o in a <==> o in b {
      assert o in a <==> o in multiset(a);
      assert o in b <==> o in multiset(b);
    }
    FrontierIgnoresOrder(a, b, target);
    EntriesStandAtAnchors(a, target);
    EntriesStandAtAnchors(b, target);
    var p, p' := Lowest(Candidates(a, target)), Lowest(Candidates(b, target));
    if p.Some? { SameEntry(a, b, target, p.value, p'.value); }
    var q, q' := Lowest(QualifiedCandidates(a, target)), Lowest(QualifiedCandidates(b, target));
    if q.Some? { SameEntry(a, b, target, q.value, q'.value); }
  }

  // ---------------------------------------------------------------- told on the observations

  // A failure of the target: one of eight outcomes, on anything but an Apply attempt.
  ghost predicate Failed(o: Observation, target: u32)
  {
    && o.targetMhz == target
    && (o.kind == Legacy || o.kind == Discovery || o.kind == Qualification)
    && o.outcome in {VerifierFailed, SilentError, Unstable, DeviceLost, ClockDrop, ResetFailed, Blacklisted, CrashOrRecovery}
  }

  // A validated discovery pass under the current contract, confirmed, cleaned up and reproducible.
  ghost predicate Discovered(o: Observation, target: u32)
  {
    && o.targetMhz == target && o.outcome == Validated && o.kind == Discovery && o.discoveryContract == Some(6)
    && o.powerConfirmed && o.resetOk && o.bootFlagCleared && o.reproducible
  }

  // A full-strength texture pass under the current qualification contract.
  ghost predicate Qualified(o: Observation, target: u32, mv: u32)
  {
    && o.targetMhz == target && o.anchorMv == mv && o.outcome == Validated && o.kind == Qualification
    && o.qualificationContract == Some(25) && o.resetOk && o.bootFlagCleared && o.reproducible
    && o.coverage == Some(Coverage(Fsgl4, Some(Texture), Pass))
  }

  lemma FailedIsCounted(o: Observation, target: u32)
    ensures Failed(o, target) <==> CountsAgainst(o, target)
    ensures Discovered(o, target) <==> Supports(o, target)
  {
  }

  // A point is known bad exactly when the log holds a failure of its target at or above its voltage.
  lemma KnownBadInObservations(obs: seq<Observation>, target: u32, mv: u32)
    ensures KnownBad(obs, target, mv) <==> exists o :: o in obs && Failed(o, target) && o.anchorMv >= mv
  {
    if i :| 0 <= i < |obs| && CountsAgainst(obs[i], target) && obs[i].anchorMv >= mv {
      FailedIsCounted(obs[i], target);
      assert obs[i] in obs && Failed(obs[i], target);
    }
    if o :| o in obs && Failed(o, target) && o.anchorMv >= mv {
      FailedIsCounted(o, target);
      var i :| 0 <= i < |obs| && obs[i] == o;
    }
  }

  // A discovery pass above every failure and 12 mV clear of every device loss of the target.
  ghost predicate FrontierPoint(obs: seq<Observation>, target: u32, o: Observation)
  {
    && o in obs && Discovered(o, target)
    && (forall x :: x in obs && Failed(x, target) ==> o.anchorMv > x.anchorMv)
    && (forall x :: x in obs && x.targetMhz == target && (x.deviceLost || x.outcome == DeviceLost) ==>
          o.anchorMv >= Min(x.anchorMv + 12, 0xffff_ffff))
  }

  lemma CandidateIsFrontierPoint(obs: seq<Observation>, target: u32, o: Observation)
    ensures o in Candidates(obs, target) <==> FrontierPoint(obs, target, o)
  {
    CandidateIff(obs, target, o);
    FailedIsCounted(o, target);
    forall x ensures Failed(x, target) <==> CountsAgainst(x, target) { FailedIsCounted(x, target); }
  }

  lemma QualifiedIsFull(obs: seq<Observation>, target: u32, mv: u32)
    ensures FullyQualified(obs, target, mv) <==> exists x :: x in obs && Qualified(x, target, mv)
    ensures CountQualified(obs, target, mv, REQUIRED_PATTERNS) == if FullyQualified(obs, target, mv) then 1 else 0
  {
    assert REQUIRED_PATTERNS == [] + [Texture] && Texture in REQUIRED_PATTERNS;
    if QualifiedBy(obs, target, mv, Texture) {
      var i :| 0 <= i < |obs| && obs[i].targetMhz == target && obs[i].anchorMv == mv
               && IsCurrentQualificationPass(obs[i]) && obs[i].coverage.value.pattern == Some(Texture);
      assert obs[i] in obs && Qualified(obs[i], target, mv);
    }
    if x :| x in obs && Qualified(x, target, mv) {
      var i :| 0 <= i < |obs| && obs[i] == x;
      assert IsCurrentQualificationPass(obs[i]) && obs[i].coverage.value.pattern == Some(Texture);
      assert QualifiedBy(obs, target, mv, Texture);
    }
  }

  ghost predicate IsLowestOf(points: iset<Observation>, mv: u32)
  {
    (exists o :: o in points && o.anchorMv == mv) && forall o :: o in points ==> mv <= o.anchorMv
  }

  ghost function FrontierPoints(obs: seq<Observation>, target: u32): iset<Observation>
  {
    iset o | FrontierPoint(obs, target, o)
  }

  ghost function QualifiedPoints(obs: seq<Observation>, target: u32): iset<Observation>
  {
    iset o | FrontierPoint(obs, target, o) && exists x :: x in obs && Qualified(x, target, o.anchorMv)
  }

  // The physical frontier exists exactly when some point supports it, and stands at the lowest one.
  lemma PhysicalInObservations(obs: seq<Observation>, target: u32)
    ensures PhysicalFrontier(obs, target).None? <==> FrontierPoints(obs, target) == iset{}
    ensures PhysicalFrontier(obs, target).Some? ==>
              IsLowestOf(FrontierPoints(obs, target), PhysicalFrontier(obs, target).value.bestAnchorMv)
  {
    var all := Candidates(obs, target);
    forall o ensures o in all <==> o in FrontierPoints(obs, target) { CandidateIsFrontierPoint(obs, target, o); }
    LowestOfMembers(all, FrontierPoints(obs, target));
  }

  // The qualified one likewise, among the points whose voltage also holds a qualification pass.
  lemma QualifiedInObservations(obs: seq<Observation>, target: u32)
    ensures QualifiedFrontier(obs, target).None? <==> QualifiedPoints(obs, target) == iset{}
    ensures QualifiedFrontier(obs, target).Some? ==>
              IsLowestOf(QualifiedPoints(obs, target), QualifiedFrontier(obs, target).value.bestAnchorMv)
  {
    var good := QualifiedCandidates(obs, target);
    forall o ensures o in good <==> o in QualifiedPoints(obs, target) {
      CandidateIsFrontierPoint(obs, target, o);
      QualifiedIsFull(obs, target, o.anchorMv);
    }
    LowestOfMembers(good, QualifiedPoints(obs, target));
  }

  lemma LowestOfMembers(candidates: seq<Observation>, points: iset<Observation>)
    requires forall o :: o in candidates <==> o in points
    ensures Lowest(candidates).None? <==> points == iset{}
    ensures Lowest(candidates).Some? ==> IsLowestOf(points, Lowest(candidates).value.anchorMv)
  {
    if candidates != [] { assert candidates[0] in points; }
  }

  ghost predicate HighestFailure(obs: seq<Observation>, target: u32, mv: u32)
  {
    && (exists o :: o in obs && Failed(o, target) && o.anchorMv == mv)
    && (forall o :: o in obs && Failed(o, target) ==> o.anchorMv <= mv)
  }

  // The lowest validated voltage above a failure.
  ghost predicate LowestPassAbove(obs: seq<Observation>, target: u32, bad: u32, mv: u32)
  {
    && (exists o :: o in obs && o.targetMhz == target && o.outcome == Validated && o.anchorMv == mv > bad)
    && (forall o :: o in obs && o.targetMhz == target && o.outcome == Validated && o.anchorMv > bad ==> mv <= o.anchorMv)
  }

  lemma FirstBadInObservations(obs: seq<Observation>, target: u32)
    ensures var bad := AnchorOf(FirstBad(obs, target));
            && (bad.None? <==> forall o :: o in obs ==> !Failed(o, target))
            && (bad.Some? ==> HighestFailure(obs, target, bad.value))
  {
    FirstBadMeaning(obs, target);
    forall o ensures Failed(o, target) <==> CountsAgainst(o, target) { FailedIsCounted(o, target); }
  }

  // The ends a bracket claims, told on the log.
  ghost predicate BracketSpans(obs: seq<Observation>, target: u32, b: Option<VoltageBracket>)
  {
    match b
    case None => forall bad: u32, good: u32 :: !(HighestFailure(obs, target, bad) && LowestPassAbove(obs, target, bad, good))
    case Some(v) =>
      && HighestFailure(obs, target, v.firstBadMv) && LowestPassAbove(obs, target, v.firstBadMv, v.lastGoodMv)
      && v.widthMv == v.lastGoodMv - v.firstBadMv
  }

  // The bracket runs from the highest failure to the lowest validated voltage above it, and exists
  // exactly when there are such ends.
  lemma BracketInObservations(obs: seq<Observation>, target: u32)
    ensures BracketSpans(obs, target, Bracket(obs, target))
  {
    FirstBadInObservations(obs, target);
    if FirstBad(obs, target).Some? { LastGoodInObservations(obs, target); }
    BracketByAnchors(obs, target);
  }

  lemma LastGoodInObservations(obs: seq<Observation>, target: u32)
    requires FirstBad(obs, target).Some?
    ensures var bad, good := FirstBad(obs, target).value.anchorMv, AnchorOf(LastGood(obs, target));
            && (good.None? <==> forall o :: o in obs && o.targetMhz == target && o.outcome == Validated ==> o.anchorMv <= bad)
            && (good.Some? ==> LowestPassAbove(obs, target, bad, good.value))
  {
    var bad := FirstBad(obs, target);
    var clean := Where(obs, (o: Observation) => o.targetMhz == target && o.outcome == Validated && Above(bad, o.anchorMv));
    forall o | o in obs && o.targetMhz == target && o.outcome == Validated && o.anchorMv > bad.value.anchorMv
      ensures o in clean
    {
    }
  }

  ghost function Positions(obs: seq<Observation>, keep: Observation -> bool): set<nat>
  {
    set i: nat | i < |obs| && keep(obs[i])
  }

  lemma PositionsAppend(obs: seq<Observation>, o: Observation, keep: Observation -> bool)
    ensures |Positions(obs + [o], keep)| == |Positions(obs, keep)| + if keep(o) then 1 else 0
  {
    var all := obs + [o];
    forall i: nat ensures i in Positions(all, keep) <==> i in Positions(obs, keep) || (keep(o) && i == |obs|) {
      if i < |obs| { assert all[i] == obs[i]; }
    }
    OneMore(Positions(obs, keep), Positions(all, keep), |obs|, keep(o));
  }

  lemma {:induction false} WhereCount(obs: seq<Observation>, keep: Observation -> bool)
    ensures |Where(obs, keep)| == |Positions(obs, keep)|
  {
    if obs == [] {
      assert Positions(obs, keep) == {};
    } else {
      var n := |obs| - 1;
      WhereCount(obs[..n], keep);
      assert obs == obs[..n] + [obs[n]];
      PositionsAppend(obs[..n], obs[n], keep);
    }
  }

  lemma TargetCount(obs: seq<Observation>, target: u32)
    ensures |Where(obs, (o: Observation) => o.targetMhz == target)| == |set i: nat | i < |obs| && obs[i].targetMhz == target|
  {
    var keep := (o: Observation) => o.targetMhz == target;
    WhereCount(obs, keep);
    assert Positions(obs, keep) == (set i: nat | i < |obs| && obs[i].targetMhz == target);
  }

  // The bracket two observers find is the same.
  lemma BracketUnique(obs: seq<Observation>, target: u32, bad: u32, good: u32, bad': u32, good': u32)
    requires HighestFailure(obs, target, bad) && LowestPassAbove(obs, target, bad, good)
    requires HighestFailure(obs, target, bad') && LowestPassAbove(obs, target, bad', good')
    ensures bad == bad' && good == good'
  {
  }

  lemma EntryFields(obs: seq<Observation>, target: u32, e: FrontierEntry)
    requires PhysicalFrontier(obs, target) == Some(e) || QualifiedFrontier(obs, target) == Some(e)
    ensures e.targetMhz == target
    ensures e.validationCount == CountQualified(obs, target, e.bestAnchorMv, REQUIRED_PATTERNS)
    ensures e.firstBadMv == AnchorOf(FirstBad(obs, target))
    ensures e.bracketWidthMv == if Bracket(obs, target).None? then None else Some(Bracket(obs, target).value.widthMv)
    ensures e.observationCount == |Where(obs, (o: Observation) => o.targetMhz == target)|
  {
  }

  // What an entry reports beside its anchor: its target, one count for the required pattern when a
  // pass at the anchor holds it, the highest failure, and how many lines the log holds for the target.
  lemma EntryInObservations(obs: seq<Observation>, target: u32, e: FrontierEntry)
    requires PhysicalFrontier(obs, target) == Some(e) || QualifiedFrontier(obs, target) == Some(e)
    ensures e.targetMhz == target
    ensures e.validationCount == if exists x :: x in obs && Qualified(x, target, e.bestAnchorMv) then 1 else 0
    ensures e.firstBadMv.None? <==> forall o :: o in obs ==> !Failed(o, target)
    ensures e.firstBadMv.Some? ==> HighestFailure(obs, target, e.firstBadMv.value)
    ensures e.observationCount == |set i: nat | i < |obs| && obs[i].targetMhz == target|
  {
    EntryFields(obs, target, e);
    QualifiedIsFull(obs, target, e.bestAnchorMv);
    FirstBadInObservations(obs, target);
    TargetCount(obs, target);
  }

  // And the width of the bracket, none when the log lacks one of its ends.
  lemma EntryWidth(obs: seq<Observation>, target: u32, e: FrontierEntry) returns (b: Option<VoltageBracket>)
    requires PhysicalFrontier(obs, target) == Some(e) || QualifiedFrontier(obs, target) == Some(e)
    ensures BracketSpans(obs, target, b) && e.bracketWidthMv == if b.None? then None else Some(b.value.widthMv)
  {
    b := Bracket(obs, target);
    EntryFields(obs, target, e);
    BracketInObservations(obs, target);
  }

  // That width is determined by the log: whoever finds a highest failure and the lowest pass above it
  // finds the same two voltages.
  lemma WidthInObservations(obs: seq<Observation>, target: u32, b: Option<VoltageBracket>)
    requires BracketSpans(obs, target, b)
    ensures forall bad: u32, good: u32 :: HighestFailure(obs, target, bad) && LowestPassAbove(obs, target, bad, good) ==>
              b.Some? && b.value.widthMv == good - bad
    ensures b.Some? ==> exists bad: u32, good: u32 ::
              HighestFailure(obs, target, bad) && LowestPassAbove(obs, target, bad, good)
  {
    forall bad: u32, good: u32 | HighestFailure(obs, target, bad) && LowestPassAbove(obs, target, bad, good)
      ensures b.Some? && b.value.widthMv == good - bad
    {
      BracketUnique(obs, target, bad, good, b.value.firstBadMv, b.value.lastGoodMv);
    }
  }
}
