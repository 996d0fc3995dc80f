/** The reboot-surviving recovery record and everything that may happen to it. */
module SafeLoop {
  import opened MachineInts
  import opened TuningSpace

  const SAFE_MODE_CRASH_THRESHOLD: u32 := 3
  const BLACKLIST_RADIUS: i64 := 1
  const CRASH_LOG_CAP: nat := 32
  const INCIDENT_CAP: nat := 64
  const SUPERVISED_F2_FORGE_PHASE: string := "f2_undervolt_probe"

  datatype LoopState = Idle | Probing | Applying | Dwell | Validated | Unstable | SafeMode
  datatype LoopEvent = StartProbe | Applied | EnterDwell | DwellPassed | SoftFail | HardCrash | TripSafeMode | Reset
  datatype CrashClass = OcInstability | Unrelated | Unknown
  datatype IncidentKind = CandidateCrash | UnaccountedRestart | OperatorFieldFailure | RuntimeFailure

  datatype Incident = Incident(
    id: string,
    kind: IncidentKind,
    runId: Option<string>,
    gpuKey: Option<string>,
    targetMhz: Option<u32>,
    anchorMv: Option<u32>,
    acknowledged: bool)

  datatype Record = Record(
    state: LoopState,
    crashes: u32,
    lastValidated: Option<TuningPoint>,
    blacklist: seq<Region>,
    safeMode: bool,
    crashLog: seq<CrashClass>,
    pending: Option<Incident>,
    incidents: seq<Incident>)

  const DEFAULT: Record := Record(Idle, 0, None, [], false, [], None, [])

  datatype BootFlag = BootFlag(intent: TuningPoint, phase: string)

  datatype Action =
    | StayIdle
    | ApplyLastValidated(point: TuningPoint)
    | AwaitAcknowledgement(incident: Incident)
    | BlacklistAndRecede(crashed: TuningPoint, recedeTo: TuningPoint, class_: CrashClass, counts: bool)
    | EnterSafeMode
    | RemainSafeMode

  // ---------------------------------------------------------------- single operations

  function LastOf<T>(s: seq<T>, n: nat): seq<T> { if |s| <= n then s else s[|s| - n..] }

  function PushCapped<T>(s: seq<T>, x: T, cap: nat): seq<T> { LastOf(s + [x], cap) }

  function MarkValidated(r: Record, p: TuningPoint): Record
  {
    r.(lastValidated := Some(p), crashes := 0, state := Validated)
  }

  function ClearLatch(r: Record): Record
  {
    r.(safeMode := false, crashes := 0, state := if r.pending.Some? then Unstable else Idle)
  }

  predicate SameIncident(a: Incident, b: Incident)
  {
    a.id == b.id || (a.runId.Some? && a.runId == b.runId)
  }

  predicate IsDuplicate(r: Record, i: Incident)
  {
    exists k | 0 <= k < |r.incidents| :: SameIncident(r.incidents[k], i)
  }

  function RecordIncident(r: Record, i: Incident): Record
  {
    if IsDuplicate(r, i) then r
    else r.(pending := Some(i), incidents := PushCapped(r.incidents, i, INCIDENT_CAP),
            state := if r.safeMode then r.state else Unstable)
  }

  function AcknowledgeStored(incidents: seq<Incident>, id: string): seq<Incident>
  {
    if incidents == [] then []
    else if incidents[0].id == id then [incidents[0].(acknowledged := true)] + incidents[1..]
    else [incidents[0]] + AcknowledgeStored(incidents[1..], id)
  }

  function Acknowledge(r: Record): Record
  {
    if r.pending.None? then r
    else r.(pending := None, incidents := AcknowledgeStored(r.incidents, r.pending.value.id),
            state := if r.safeMode then r.state else Idle)
  }

  // A crash counts toward Safe Mode unless it is an expected one of the supervised search.
  predicate CountsTowardSafeMode(flag: BootFlag, bugcheck: CrashClass)
  {
    !(flag.phase == SUPERVISED_F2_FORGE_PHASE && bugcheck != Unrelated)
  }

  function RecoveryTarget(r: Record): TuningPoint
  {
    if r.lastValidated.Some? then r.lastValidated.value else STOCK
  }

  function DecideRecovery(flag: Option<BootFlag>, bugcheck: CrashClass, r: Record): Action
  {
    match flag
    case Some(f) =>
      var counts := CountsTowardSafeMode(f, bugcheck);
      var crashes := SatAdd32(r.crashes, if counts then 1 else 0);
      if counts && crashes >= SAFE_MODE_CRASH_THRESHOLD then EnterSafeMode
      else BlacklistAndRecede(f.intent, RecoveryTarget(r), bugcheck, counts)
    case None =>
      if r.safeMode then RemainSafeMode
      else if r.pending.Some? then AwaitAcknowledgement(r.pending.value)
      else if r.lastValidated.Some? then ApplyLastValidated(r.lastValidated.value)
      else StayIdle
  }

  // The record and the point for the hardware once a decision is carried out.
  ghost function ApplyRecovery(r: Record, a: Action): (Record, TuningPoint)
  {
    match a
    case StayIdle => (r.(state := Idle), STOCK)
    case ApplyLastValidated(p) => (r.(state := Validated), p)
    case AwaitAcknowledgement(_) => (r.(state := Unstable), STOCK)
    case BlacklistAndRecede(crashed, recedeTo, class_, counts) =>
      (r.(crashes := if counts then SatAdd32(r.crashes, 1) else r.crashes,
          blacklist := if InSome(r.blacklist, crashed) then r.blacklist
                       else r.blacklist + [Region(crashed, BLACKLIST_RADIUS)],
          crashLog := PushCapped(r.crashLog, class_, CRASH_LOG_CAP),
          state := Unstable), recedeTo)
    case EnterSafeMode => (r.(crashes := SatAdd32(r.crashes, 1), safeMode := true, state := SafeMode), STOCK)
    case RemainSafeMode => (r.(safeMode := true, state := SafeMode), STOCK)
  }

  // ---------------------------------------------------------------- runs

  datatype Op =
    | Boot(flag: Option<BootFlag>, bugcheck: CrashClass)
    | Validate(point: TuningPoint)
    | ClearRecoveryLatch
    | Report(incident: Incident)
    | OperatorAcknowledges

  ghost function Booted(r: Record, flag: Option<BootFlag>, bugcheck: CrashClass): (Record, TuningPoint)
  {
    ApplyRecovery(r, DecideRecovery(flag, bugcheck, r))
  }

  ghost function After(r: Record, op: Op): Record
  {
    match op
    case Boot(flag, bugcheck) => Booted(r, flag, bugcheck).0
    case Validate(p) => MarkValidated(r, p)
    case ClearRecoveryLatch => ClearLatch(r)
    case Report(i) => RecordIncident(r, i)
    case OperatorAcknowledges => Acknowledge(r)
  }

  // The record after a whole history, starting from the default one.
  ghost function Run(ops: seq<Op>): Record
  {
    if ops == [] then DEFAULT else After(Run(ops[..|ops| - 1]), ops[|ops| - 1])
  }

  predicate CountedCrash(op: Op)
  {
    op.Boot? && op.flag.Some? && CountsTowardSafeMode(op.flag.value, op.bugcheck)
  }

  // ---- what the history alone says

  // Counted crash boots since the last validation or latch clear.
  function Streak(ops: seq<Op>): nat
  {
    if ops == [] then 0
    else
      var op, before := ops[|ops| - 1], Streak(ops[..|ops| - 1]);
      if op.Validate? || op.ClearRecoveryLatch? then 0
      else if CountedCrash(op) then before + 1
      else before
  }

  // Some counted crash reached the threshold and no latch clear came after it.
  predicate Latched(ops: seq<Op>)
  {
    if ops == [] then false
    else
      var op := ops[|ops| - 1];
      if op.ClearRecoveryLatch? then false
      else Latched(ops[..|ops| - 1]) || (CountedCrash(op) && Streak(ops) >= SAFE_MODE_CRASH_THRESHOLD)
  }

  function LastPoint(ops: seq<Op>): Option<TuningPoint>
  {
    if ops == [] then None
    else if ops[|ops| - 1].Validate? then Some(ops[|ops| - 1].point)
    else LastPoint(ops[..|ops| - 1])
  }

  // Classes of all crashes that led to a retreat, oldest first.
  function Retreats(ops: seq<Op>): seq<CrashClass>
  {
    if ops == [] then []
    else
      var op, before := ops[|ops| - 1], Retreats(ops[..|ops| - 1]);
      if op.Boot? && op.flag.Some? && !(CountedCrash(op) && Streak(ops) >= SAFE_MODE_CRASH_THRESHOLD)
      then before + [op.bugcheck] else before
  }

  lemma PushCappedIsSuffix<T>(all: seq<T>, x: T, cap: nat)
    ensures PushCapped(LastOf(all, cap), x, cap) == LastOf(all + [x], cap)
  {
    if |all| > cap {
      var s := LastOf(all, cap) + [x];
      assert s[1..] == (all + [x])[|all| + 1 - cap..] || cap == 0;
    }
  }

  predicate Trips(op: Op, streak: nat) { CountedCrash(op) && streak + 1 >= SAFE_MODE_CRASH_THRESHOLD }

  // Safe Mode is shown only when latched, Idle only with nothing latched or waiting.
  predicate StateFits(r: Record)
  {
    (r.state == SafeMode ==> r.safeMode) && (r.state == Idle ==> !r.safeMode && r.pending.None?)
  }

  // One operation, given the streak so far.
  lemma StepSummary(r: Record, op: Op, streak: nat)
    requires r.crashes == Min(streak, U32_MAX) && StateFits(r)
    ensures var r' := After(r, op);
            && r'.crashes == Min(if op.Validate? || op.ClearRecoveryLatch? then 0
                                 else if CountedCrash(op) then streak + 1 else streak, U32_MAX)
            && r'.safeMode == (op != ClearRecoveryLatch && (r.safeMode || Trips(op, streak)))
            && r'.lastValidated == (if op.Validate? then Some(op.point) else r.lastValidated)
            && r'.crashLog == (if op.Boot? && op.flag.Some? && !Trips(op, streak)
                               then PushCapped(r.crashLog, op.bugcheck, CRASH_LOG_CAP) else r.crashLog)
            && StateFits(r')
  {
  }

  // The record is a faithful summary of the whole history.
  lemma {:induction false} RunSummarisesHistory(ops: seq<Op>)
    ensures var r := Run(ops);
            && r.crashes == Min(Streak(ops), U32_MAX)
            && r.safeMode == Latched(ops)
            && r.lastValidated == LastPoint(ops)
            && r.crashLog == LastOf(Retreats(ops), CRASH_LOG_CAP)
            && StateFits(r)
  {
    if ops != [] {
      var before, op := ops[..|ops| - 1], ops[|ops| - 1];
      RunSummarisesHistory(before);
      StepSummary(Run(before), op, Streak(before));
      PushCappedIsSuffix(Retreats(before), if op.Boot? then op.bugcheck else Unknown, CRASH_LOG_CAP);
    }
  }

  // A boot trips Safe Mode exactly when it is a counted crash and the third (or later) in a row.
  lemma SafeModeTripsIff(ops: seq<Op>, flag: Option<BootFlag>, bugcheck: CrashClass)
    ensures DecideRecovery(flag, bugcheck, Run(ops)) == EnterSafeMode
       <==> CountedCrash(Boot(flag, bugcheck)) && Streak(ops) + 1 >= SAFE_MODE_CRASH_THRESHOLD
  {
    RunSummarisesHistory(ops);
  }

  // The latch: only a tripping boot sets it, only a latch clear releases it.
  lemma LatchChangesOnlyBy(ops: seq<Op>, op: Op)
    ensures Run(ops).safeMode && !Run(ops + [op]).safeMode ==> op == ClearRecoveryLatch
    ensures !Run(ops).safeMode && Run(ops + [op]).safeMode ==>
              CountedCrash(op) && Streak(ops) + 1 >= SAFE_MODE_CRASH_THRESHOLD
  {
    var all := ops + [op];
    assert all[..|all| - 1] == ops;
    RunSummarisesHistory(ops);
    RunSummarisesHistory(all);
  }

  // What the hardware gets on a boot with no flag armed: the last validated point only when
  // neither latched nor waiting for the operator, stock otherwise.
  lemma CleanBootRestores(ops: seq<Op>, bugcheck: CrashClass)
    ensures Booted(Run(ops), None, bugcheck).1
         == (if Latched(ops) || Run(ops).pending.Some? || LastPoint(ops).None? then STOCK
             else LastPoint(ops).value)
    ensures Run(ops + [Boot(None, bugcheck)]).crashes == Run(ops).crashes
  {
    RunSummarisesHistory(ops);
    assert (ops + [Boot(None, bugcheck)])[..|ops|] == ops;
  }

  lemma HistoryAppend(ops: seq<Op>, op: Op)
    ensures Run(ops + [op]) == After(Run(ops), op)
    ensures Streak(ops + [op]) == if op.Validate? || op.ClearRecoveryLatch? then 0
                                  else if CountedCrash(op) then Streak(ops) + 1 else Streak(ops)
    ensures Latched(ops + [op])
       <==> op != ClearRecoveryLatch
            && (Latched(ops) || (CountedCrash(op) && Streak(ops) + 1 >= SAFE_MODE_CRASH_THRESHOLD))
    ensures LastPoint(ops + [op]) == if op.Validate? then Some(op.point) else LastPoint(ops)
  {
    assert (ops + [op])[..|ops|] == ops;
  }

  // A latched boot is not always hands-off: any crash boot that does not trip again recedes to the
  // last validated point, latch or no latch. A supervised crash never trips; an ordinary one does
  // not while a validation has restarted the streak. The latch survives either way.
  lemma LatchedBootIsStockIff(ops: seq<Op>, flag: Option<BootFlag>, bugcheck: CrashClass)
    requires Latched(ops)
    ensures Booted(Run(ops), flag, bugcheck).1 == STOCK
       <==> flag.None?
            || (CountsTowardSafeMode(flag.value, bugcheck) && Streak(ops) + 1 >= SAFE_MODE_CRASH_THRESHOLD)
            || LastPoint(ops).None? || LastPoint(ops) == Some(STOCK)
    ensures Latched(ops + [Boot(flag, bugcheck)])
  {
    RunSummarisesHistory(ops);
    HistoryAppend(ops, Boot(flag, bugcheck));
  }

  // Three counted crashes latch; a validation does not unlatch but restarts the streak.
  function LatchThenValidate(crash: Op, p: TuningPoint): seq<Op> { [] + [crash] + [crash] + [crash] + [Validate(p)] }

  lemma LatchedBootCanRecede(crash: Op, p: TuningPoint, flag: BootFlag, bugcheck: CrashClass)
    requires CountedCrash(crash)
    ensures var ops := LatchThenValidate(crash, p);
            Run(ops).safeMode && Booted(Run(ops), Some(flag), bugcheck).1 == p
  {
    var one := [] + [crash];
    var two := one + [crash];
    var three := two + [crash];
    HistoryAppend([], crash);
    HistoryAppend(one, crash);
    HistoryAppend(two, crash);
    HistoryAppend(three, Validate(p));
    RunSummarisesHistory(LatchThenValidate(crash, p));
  }

  // ---- told on boots, phases and counts

  // A crash boot that is neither an expected crash of the supervised search nor unrelated to it.
  predicate IsOrdinaryCrash(op: Op)
  {
    op.Boot? && op.flag.Some? && (op.flag.value.phase != "f2_undervolt_probe" || op.bugcheck == Unrelated)
  }

  // What any retreat does: recede to the last validated point, or stock; remember the crash, newest
  // last among at most 32; blacklist a region of radius 1 around the point unless it is covered.
  ghost predicate Retreated(r: Record, b: (Record, TuningPoint), f: BootFlag, bugcheck: CrashClass)
  {
    && b.1 == (match r.lastValidated case Some(p) => p case None => TuningPoint(map[]))
    && b.0.state == Unstable && b.0.safeMode == r.safeMode && b.0.lastValidated == r.lastValidated
    && b.0.pending == r.pending && b.0.incidents == r.incidents
    && b.0.blacklist == (if InSome(r.blacklist, f.intent) then r.blacklist else r.blacklist + [Region(f.intent, 1)])
    && b.0.crashLog == (if |r.crashLog| < 32 then r.crashLog + [bugcheck]
                        else r.crashLog[|r.crashLog| - 31..] + [bugcheck])
  }

  // A crash of the supervised search, unless its bugcheck is unrelated, costs nothing: on any record
  // the boot retreats, and leaves the streak and the latch as they were.
  lemma SupervisedCrashIsFree(r: Record, f: BootFlag, bugcheck: CrashClass)
    requires f.phase == "f2_undervolt_probe" && bugcheck != Unrelated
    ensures var b := Booted(r, Some(f), bugcheck);
            Retreated(r, b, f, bugcheck) && b.0.crashes == r.crashes && b.0.safeMode == r.safeMode
  {
    LastOfAppend(r.crashLog, bugcheck, 32);
  }

  // Every other crash boot adds one to the streak (saturating), and from the third in a row on trips
  // Safe Mode at stock, forgetting nothing; before that it retreats.
  lemma OrdinaryCrashCounts(r: Record, f: BootFlag, bugcheck: CrashClass)
    requires f.phase != "f2_undervolt_probe" || bugcheck == Unrelated
    ensures var b := Booted(r, Some(f), bugcheck);
            && b.0.crashes == Min(r.crashes + 1, 0xffff_ffff)
            && (r.crashes + 1 >= 3 ==>
                  b == (r.(crashes := b.0.crashes, safeMode := true, state := SafeMode), TuningPoint(map[])))
            && (r.crashes + 1 < 3 ==> Retreated(r, b, f, bugcheck))
  {
    LastOfAppend(r.crashLog, bugcheck, 32);
  }

  lemma LastOfAppend<T>(s: seq<T>, x: T, cap: nat)
    requires cap >= 1
    ensures PushCapped(s, x, cap) == if |s| < cap then s + [x] else s[|s| - (cap - 1)..] + [x]
  {
  }

  // Positions of the ordinary crashes with no validation and no latch clear after them.
  ghost function StreakPositions(ops: seq<Op>): set<nat>
  {
    set i: nat | i < |ops| && IsOrdinaryCrash(ops[i])
                 && forall j :: i < j < |ops| ==> !ops[j].Validate? && !ops[j].ClearRecoveryLatch?
  }

  lemma StreakPositionsAppend(ops: seq<Op>, op: Op)
    ensures var before, after := StreakPositions(ops), StreakPositions(ops + [op]);
            after == if op.Validate? || op.ClearRecoveryLatch? then {}
                     else if IsOrdinaryCrash(op) then before + {|ops|} else before
  {
    var all := ops + [op];
    var resets := op.Validate? || op.ClearRecoveryLatch?;
    assert all[|ops|] == op;
    forall i: nat
      ensures i in StreakPositions(all) <==>
                (i in StreakPositions(ops) && !resets) || (i == |ops| && IsOrdinaryCrash(op))
    {
      if i < |ops| {
        assert all[i] == ops[i];
        if i in StreakPositions(ops) && !resets {
          forall j | i < j < |all| ensures !all[j].Validate? && !all[j].ClearRecoveryLatch? {
            if j < |ops| { assert all[j] == ops[j]; }
          }
        }
        if i in StreakPositions(all) {
          forall j | i < j < |ops| ensures !ops[j].Validate? && !ops[j].ClearRecoveryLatch? {
            assert all[j] == ops[j];
          }
        }
      }
    }
  }

  // The streak is the number of ordinary crashes since the last validation or latch clear.
  lemma {:induction false} StreakCounts(ops: seq<Op>)
    ensures Streak(ops) == |StreakPositions(ops)|
  {
    if ops == [] {
      assert StreakPositions(ops) == {};
    } else {
      var before, op := ops[..|ops| - 1], ops[|ops| - 1];
      assert ops == before + [op];
      StreakCounts(before);
      StreakPositionsAppend(before, op);
    }
  }

  // Over any run the record counts just those crashes, and a boot trips Safe Mode exactly when it is
  // an ordinary crash and at least the third of them.
  lemma CrashesCountedIff(ops: seq<Op>, op: Op)
    requires op.Boot?
    ensures Run(ops).crashes == Min(|StreakPositions(ops)|, 0xffff_ffff)
    ensures Run(ops + [op]).state == SafeMode && op.flag.Some?
       <==> IsOrdinaryCrash(op) && |StreakPositions(ops)| + 1 >= 3
  {
    StreakCounts(ops);
    RunSummarisesHistory(ops);
    HistoryAppend(ops, op);
    if op.flag.Some? {
      if IsOrdinaryCrash(op) {
        OrdinaryCrashCounts(Run(ops), op.flag.value, op.bugcheck);
      } else {
        SupervisedCrashIsFree(Run(ops), op.flag.value, op.bugcheck);
      }
    }
  }

  // The i-th operation was the third or later ordinary crash in its streak.
  ghost predicate TrippedBy(ops: seq<Op>, i: nat)
  {
    i < |ops| && IsOrdinaryCrash(ops[i]) && |StreakPositions(ops[..i])| + 1 >= 3
    && forall j :: i < j < |ops| ==> !ops[j].ClearRecoveryLatch?
  }

  // Over any run the record is latched exactly when such a crash came and no latch clear followed it.
  lemma {:induction false} LatchedSinceTrip(ops: seq<Op>)
    ensures Run(ops).safeMode <==> exists i: nat :: TrippedBy(ops, i)
  {
    RunSummarisesHistory(ops);
    if ops != [] {
      var n := |ops| - 1;
      var before, op := ops[..n], ops[n];
      LatchedSinceTrip(before);
      RunSummarisesHistory(before);
      StreakCounts(before);
      assert ops == before + [op];
      HistoryAppend(before, op);
      if i: nat :| TrippedBy(before, i) && op != ClearRecoveryLatch {
        assert ops[..i] == before[..i];
        assert TrippedBy(ops, i);
      }
      if i: nat :| TrippedBy(ops, i) && i < n {
        assert ops[..i] == before[..i];
        assert TrippedBy(before, i);
      }
      if IsOrdinaryCrash(op) && |StreakPositions(before)| + 1 >= 3 {
        assert TrippedBy(ops, n);
      }
    }
  }

  // The phase the record shows after each operation of a run.
  lemma PhaseShown(ops: seq<Op>, op: Op)
    ensures var r, s := Run(ops), Run(ops + [op]).state;
            match op
            case Validate(_) => s == Validated
            case ClearRecoveryLatch => s == if r.pending.Some? then Unstable else Idle
            case Report(i) =>
              if exists k :: 0 <= k < |r.incidents| && SameIncident(r.incidents[k], i) then s == r.state
              else s == if r.safeMode then r.state else Unstable
            case OperatorAcknowledges => s == if r.pending.None? || r.safeMode then r.state else Idle
            case Boot(Some(_), _) =>
              s == if IsOrdinaryCrash(op) && |StreakPositions(ops)| + 1 >= 3 then SafeMode else Unstable
            case Boot(None, _) =>
              s == if r.safeMode then SafeMode else if r.pending.Some? then Unstable
                   else if LastPoint(ops).Some? then Validated else Idle
  {
    HistoryAppend(ops, op);
    RunSummarisesHistory(ops);
    if op.Boot? {
      CrashesCountedIff(ops, op);
      if op.flag.Some? {
        if IsOrdinaryCrash(op) {
          OrdinaryCrashCounts(Run(ops), op.flag.value, op.bugcheck);
        } else {
          SupervisedCrashIsFree(Run(ops), op.flag.value, op.bugcheck);
        }
      }
    }
  }

  // What an operation leaves alone: a validation keeps the latch and everything learnt; a latch clear
  // keeps everything learnt and the waiting incident; a boot without a flag changes no more than the
  // phase; an acknowledgement touches incidents and phase only.
  lemma NothingElseChanges(r: Record, op: Op)
    ensures var r' := After(r, op);
            match op
            case Validate(p) => r' == r.(lastValidated := Some(p), crashes := 0, state := r'.state)
            case ClearRecoveryLatch => r' == r.(safeMode := false, crashes := 0, state := r'.state)
            case OperatorAcknowledges => r' == r.(pending := None, incidents := r'.incidents, state := r'.state)
            case Boot(None, _) => r' == r.(state := r'.state)
            case Boot(Some(_), _) => r'.lastValidated == r.lastValidated && r'.pending == r.pending && r'.incidents == r.incidents
            case Report(_) => r' == r.(pending := r'.pending, incidents := r'.incidents, state := r'.state)
  {
  }

  // Two points one and two steps away from a blacklisted one, on one axis.
  lemma UnitRegion()
    ensures Contains(Region(AtCore(100), 1), AtCore(101)) && !Contains(Region(AtCore(100), 1), AtCore(102))
  {
    CoreDistance(100, 102);
    var k := DistAttained(Wrapping, AtCore(100), AtCore(101));
    GapExactIff(AtCore(100), AtCore(101), k);
  }

  // ---- the blacklist

  ghost predicate Separated(regions: seq<Region>)
  {
    && (forall i :: 0 <= i < |regions| ==> regions[i].radius == BLACKLIST_RADIUS)
    && (forall i, j :: 0 <= i < j < |regions| ==> Dist(Exact, regions[i].center, regions[j].center) > BLACKLIST_RADIUS)
  }

  lemma InPrefix(few: seq<Region>, many: seq<Region>, p: TuningPoint)
    requires few <= many && InSome(few, p)
    ensures InSome(many, p)
  {
    var i :| 0 <= i < |few| && Contains(few[i], p);
    assert Contains(many[i], p);
  }

  lemma RecedeBlacklists(r: Record, crashed: TuningPoint, recedeTo: TuningPoint, class_: CrashClass, counts: bool)
    ensures var r' := ApplyRecovery(r, BlacklistAndRecede(crashed, recedeTo, class_, counts)).0;
            && r.blacklist <= r'.blacklist && InSome(r'.blacklist, crashed)
            && (Separated(r.blacklist) ==> Separated(r'.blacklist))
  {
    var r' := ApplyRecovery(r, BlacklistAndRecede(crashed, recedeTo, class_, counts)).0;
    if !InSome(r.blacklist, crashed) {
      var n := |r.blacklist|;
      DistZeroIff(crashed, crashed);
      assert Contains(r'.blacklist[n], crashed);
      forall i | 0 <= i < n && Separated(r.blacklist)
        ensures Dist(Exact, r'.blacklist[i].center, crashed) > BLACKLIST_RADIUS
      {
        DistExactIff(r.blacklist[i].center, crashed);
        assert !Contains(r.blacklist[i], crashed);
      }
    }
  }

  lemma BlacklistStep(r: Record, op: Op)
    ensures r.blacklist <= After(r, op).blacklist
    ensures Separated(r.blacklist) ==> Separated(After(r, op).blacklist)
  {
    if op.Boot? {
      match DecideRecovery(op.flag, op.bugcheck, r) {
        case BlacklistAndRecede(crashed, recedeTo, class_, counts) =>
          RecedeBlacklists(r, crashed, recedeTo, class_, counts);
        case _ =>
      }
    }
  }

  lemma {:induction false} RunSeparated(ops: seq<Op>)
    ensures Separated(Run(ops).blacklist)
  {
    if ops != [] {
      RunSeparated(ops[..|ops| - 1]);
      BlacklistStep(Run(ops[..|ops| - 1]), ops[|ops| - 1]);
    }
  }

  lemma {:induction false} BlacklistIsPrefix(ops: seq<Op>, k: nat)
    requires k <= |ops|
    ensures Run(ops[..k]).blacklist <= Run(ops).blacklist
    decreases |ops|
  {
    if k == |ops| {
      assert ops[..k] == ops;
    } else {
      var before, op := ops[..|ops| - 1], ops[|ops| - 1];
      BlacklistIsPrefix(before, k);
      assert before[..k] == ops[..k];
      BlacklistStep(Run(before), op);
    }
  }

  // Over any run the blacklist only grows, and its centers are pairwise further apart than
  // the radius.
  lemma BlacklistGrows(ops: seq<Op>, k: nat)
    requires k <= |ops|
    ensures Run(ops[..k]).blacklist <= Run(ops).blacklist && Separated(Run(ops).blacklist)
  {
    BlacklistIsPrefix(ops, k);
    RunSeparated(ops);
  }

  lemma BootBlacklists(r: Record, op: Op)
    requires op.Boot? && op.flag.Some? && DecideRecovery(op.flag, op.bugcheck, r) != EnterSafeMode
    ensures InSome(After(r, op).blacklist, op.flag.value.intent)
  {
    var a := DecideRecovery(op.flag, op.bugcheck, r);
    RecedeBlacklists(r, a.crashed, a.recedeTo, a.class_, a.counts);
  }

  lemma BlacklistedForever(ops: seq<Op>, k: nat, p: TuningPoint)
    requires k <= |ops| && InSome(Run(ops[..k]).blacklist, p)
    ensures InSome(Run(ops).blacklist, p)
  {
    BlacklistGrows(ops, k);
    InPrefix(Run(ops[..k]).blacklist, Run(ops).blacklist, p);
  }

  lemma RecededFromIsBlacklisted(before: seq<Op>, op: Op)
    requires op.Boot? && op.flag.Some? && DecideRecovery(op.flag, op.bugcheck, Run(before)) != EnterSafeMode
    ensures InSome(Run(before + [op]).blacklist, op.flag.value.intent)
  {
    BootBlacklists(Run(before), op);
    HistoryAppend(before, op);
  }

  // Every point a boot receded from is blacklisted then and ever after.
  lemma RecededFromStaysBlacklisted(before: seq<Op>, op: Op, later: seq<Op>)
    requires op.Boot? && op.flag.Some? && DecideRecovery(op.flag, op.bugcheck, Run(before)) != EnterSafeMode
    ensures InSome(Run(before + [op] + later).blacklist, op.flag.value.intent)
  {
    var now := before + [op];
    RecededFromIsBlacklisted(before, op);
    assert (now + later)[..|now|] == now;
    BlacklistedForever(now + later, |now|, op.flag.value.intent);
  }

  // The point that trips Safe Mode is the exception: it is blacklisted afterwards exactly when
  // it already was.
  lemma CrashPointBlacklistedIff(r: Record, f: BootFlag, bugcheck: CrashClass)
    ensures InSome(Booted(r, Some(f), bugcheck).0.blacklist, f.intent)
       <==> DecideRecovery(Some(f), bugcheck, r) != EnterSafeMode || InSome(r.blacklist, f.intent)
  {
    var a := DecideRecovery(Some(f), bugcheck, r);
    if a.BlacklistAndRecede? {
      RecedeBlacklists(r, a.crashed, a.recedeTo, a.class_, a.counts);
    }
  }

  // A point of one axis.
  function AtCore(mhz: i64): TuningPoint { TuningPoint(map["core" := mhz]) }

  function CrashAt(p: TuningPoint): Op { Boot(Some(BootFlag(p, "manual")), Unknown) }

  lemma CoreDistance(a: i64, b: i64)
    requires -1000 <= a <= 1000 && -1000 <= b <= 1000
    ensures Dist(Wrapping, AtCore(a), AtCore(b)) >= if a < b then b - a else a - b
  {
    GapWithinDist(Exact, AtCore(a), AtCore(b), "core");
    GapWithinDist(Wrapping, AtCore(a), AtCore(b), "core");
    GapExactIff(AtCore(a), AtCore(b), "core");
  }

  // Only points a boot crashed at are ever blacklisted.
  lemma {:induction false} CentersAreCrashes(ops: seq<Op>, i: nat) returns (k: nat)
    requires i < |Run(ops).blacklist|
    ensures k < |ops| && ops[k].Boot? && ops[k].flag.Some?
    ensures ops[k].flag.value.intent == Run(ops).blacklist[i].center
  {
    var n := |ops| - 1;
    var before := Run(ops[..n]);
    BlacklistStep(before, ops[n]);
    if i < |before.blacklist| {
      k := CentersAreCrashes(ops[..n], i);
    } else {
      k := n;
    }
  }

  ghost predicate FarFromCrashes(ops: seq<Op>, p: TuningPoint)
  {
    forall k :: 0 <= k < |ops| && ops[k].Boot? && ops[k].flag.Some? ==>
      Dist(Wrapping, ops[k].flag.value.intent, p) > BLACKLIST_RADIUS
  }

  lemma NothingNearby(ops: seq<Op>, p: TuningPoint)
    requires FarFromCrashes(ops, p)
    ensures !InSome(Run(ops).blacklist, p)
  {
    RunSeparated(ops);
    forall i | 0 <= i < |Run(ops).blacklist| ensures !Contains(Run(ops).blacklist[i], p) {
      var k := CentersAreCrashes(ops, i);
    }
  }

  // A crash away from all earlier ones that trips Safe Mode leaves its point open.
  lemma TrippingPointStaysOpen(ops: seq<Op>, op: Op)
    requires CountedCrash(op) && Streak(ops) + 1 >= SAFE_MODE_CRASH_THRESHOLD
    requires FarFromCrashes(ops, op.flag.value.intent)
    ensures Run(ops + [op]).safeMode && !InSome(Run(ops + [op]).blacklist, op.flag.value.intent)
  {
    HistoryAppend(ops, op);
    SafeModeTripsIff(ops, op.flag, op.bugcheck);
    NothingNearby(ops, op.flag.value.intent);
  }

  // Such a history: three crashes 100 MHz apart.
  lemma ThreeCrashesTrip()
    ensures var two, third := [CrashAt(AtCore(100)), CrashAt(AtCore(200))], CrashAt(AtCore(300));
            && CountedCrash(third) && Streak(two) + 1 >= SAFE_MODE_CRASH_THRESHOLD
            && FarFromCrashes(two, third.flag.value.intent)
  {
    var a, b := CrashAt(AtCore(100)), CrashAt(AtCore(200));
    HistoryAppend([], a);
    HistoryAppend([a], b);
    assert [] + [a] == [a] && [a] + [b] == [a, b];
    CoreDistance(100, 300);
    CoreDistance(200, 300);
  }

  // Recovery does not check where it recedes to: the target is blacklisted afterwards exactly
  // when it already was, or when the new region around the crash reaches it.
  lemma RecedesIntoBlacklistIff(r: Record, f: BootFlag, bugcheck: CrashClass)
    requires DecideRecovery(Some(f), bugcheck, r) != EnterSafeMode
    ensures var b := Booted(r, Some(f), bugcheck);
            b.1 == RecoveryTarget(r)
            && (InSome(b.0.blacklist, b.1)
                <==> InSome(r.blacklist, b.1) || (!InSome(r.blacklist, f.intent) && Dist(Wrapping, f.intent, b.1) <= BLACKLIST_RADIUS))
  {
    var b := Booted(r, Some(f), bugcheck);
    if InSome(r.blacklist, b.1) {
      InPrefix(r.blacklist, b.0.blacklist, b.1);
    }
    if !InSome(r.blacklist, f.intent) {
      var n := |r.blacklist|;
      assert b.0.blacklist[n] == Region(f.intent, BLACKLIST_RADIUS);
      if InSome(b.0.blacklist, b.1) && !Contains(b.0.blacklist[n], b.1) {
        var i :| 0 <= i < n + 1 && Contains(b.0.blacklist[i], b.1);
        assert Contains(r.blacklist[i], b.1);
      }
    }
  }

  // The shortest history that does it: the validated point itself is the one that crashes.
  lemma RecedesToCrashedPoint(p: TuningPoint, phase: string, bugcheck: CrashClass)
    ensures var b := Booted(Run([Validate(p)]), Some(BootFlag(p, phase)), bugcheck);
            b.1 == p && InSome(b.0.blacklist, p)
  {
    HistoryAppend([], Validate(p));
    assert [] + [Validate(p)] == [Validate(p)];
    BootBlacklists(Run([Validate(p)]), Boot(Some(BootFlag(p, phase)), bugcheck));
  }

  // ---- incidents

  // No two remembered incidents share an id or a run; a pending one is the newest remembered.
  ghost predicate IncidentsValid(r: Record)
  {
    && |r.incidents| <= INCIDENT_CAP
    && (forall i, j :: 0 <= i < j < |r.incidents| ==> !SameIncident(r.incidents[i], r.incidents[j]))
    && (r.pending.Some? ==> r.incidents != [] && r.incidents[|r.incidents| - 1] == r.pending.value)
  }

  lemma {:induction false} AcknowledgeTouchesLast(incidents: seq<Incident>, id: string)
    requires incidents != [] && incidents[|incidents| - 1].id == id
    requires forall i :: 0 <= i < |incidents| - 1 ==> incidents[i].id != id
    ensures var n := |incidents| - 1;
            AcknowledgeStored(incidents, id) == incidents[..n] + [incidents[n].(acknowledged := true)]
  {
    if |incidents| > 1 {
      AcknowledgeTouchesLast(incidents[1..], id);
      var n := |incidents| - 1;
      assert incidents[..n] == [incidents[0]] + incidents[1..][..n - 1];
    }
  }

  // Acknowledging marks exactly the newest remembered incident and releases the latch.
  lemma AcknowledgeMarksPending(r: Record)
    requires IncidentsValid(r) && r.pending.Some?
    ensures var r', n := Acknowledge(r), |r.incidents| - 1;
            && r'.pending.None? && IncidentsValid(r')
            && r'.incidents == r.incidents[..n] + [r.pending.value.(acknowledged := true)]
  {
    var n := |r.incidents| - 1;
    forall i | 0 <= i < n ensures r.incidents[i].id != r.pending.value.id {
      assert !SameIncident(r.incidents[i], r.incidents[n]);
    }
    AcknowledgeTouchesLast(r.incidents, r.pending.value.id);
    var marked := r.incidents[n].(acknowledged := true);
    forall i, j | 0 <= i < j < n + 1 ensures !SameIncident((r.incidents[..n] + [marked])[i], (r.incidents[..n] + [marked])[j]) {
      assert !SameIncident(r.incidents[i], r.incidents[j]);
    }
  }

  // An incident is recorded once: not when its id is remembered, nor when it names a run that is;
  // otherwise it becomes the pending one and the newest of at most 64, and nothing else changes.
  lemma ReportedOnce(r: Record, i: Incident)
    ensures var r' := RecordIncident(r, i);
            if exists k :: 0 <= k < |r.incidents|
                           && (r.incidents[k].id == i.id || (r.incidents[k].runId.Some? && r.incidents[k].runId == i.runId))
            then r' == r
            else && r'.pending == Some(i)
                 && r'.incidents == (if |r.incidents| < 64 then r.incidents + [i] else r.incidents[|r.incidents| - 63..] + [i])
                 && r' == r.(pending := Some(i), incidents := r'.incidents, state := if r.safeMode then r.state else Unstable)
  {
    LastOfAppend(r.incidents, i, 64);
    if k :| 0 <= k < |r.incidents| && (r.incidents[k].id == i.id || (r.incidents[k].runId.Some? && r.incidents[k].runId == i.runId)) {
      assert SameIncident(r.incidents[k], i);
    }
  }

  lemma ReportKeepsValid(r: Record, i: Incident)
    requires IncidentsValid(r)
    ensures IncidentsValid(RecordIncident(r, i))
    ensures !IsDuplicate(r, i) ==> RecordIncident(r, i).pending == Some(i)
    ensures IsDuplicate(r, i) ==> RecordIncident(r, i) == r
  {
    if !IsDuplicate(r, i) {
      var long := r.incidents + [i];
      forall a, b | 0 <= a < b < |long| ensures !SameIncident(long[a], long[b]) {
        if b == |r.incidents| { assert !SameIncident(r.incidents[a], i); }
      }
      var kept := LastOf(long, INCIDENT_CAP);
      var d := |long| - |kept|;
      forall a, b | 0 <= a < b < |kept| ensures !SameIncident(kept[a], kept[b]) {
        assert kept[a] == long[a + d] && kept[b] == long[b + d];
      }
    }
  }

  // Over any run.
  lemma {:induction false} RunKeepsIncidentsValid(ops: seq<Op>)
    ensures IncidentsValid(Run(ops))
  {
    if ops != [] {
      var before, op := Run(ops[..|ops| - 1]), ops[|ops| - 1];
      RunKeepsIncidentsValid(ops[..|ops| - 1]);
      match op {
        case Report(i) => ReportKeepsValid(before, i);
        case OperatorAcknowledges => if before.pending.Some? { AcknowledgeMarksPending(before); }
        case _ =>
      }
    }
  }

  // ---------------------------------------------------------------- the mutable record

  class SafeLoopRecord {
    var state: LoopState
    var consecutiveCrashes: u32
    var lastValidated: Option<TuningPoint>
    var blacklist: seq<Region>
    var safeMode: bool
    var crashLog: seq<CrashClass>
    var pendingForgeIncident: Option<Incident>
    var forgeIncidents: seq<Incident>

    function View(): Record
      reads this
    {
      Record(state, consecutiveCrashes, lastValidated, blacklist, safeMode, crashLog,
             pendingForgeIncident, forgeIncidents)
    }

    constructor ()
      ensures View() == DEFAULT && View() == Run([])
      ensures state == Idle && consecutiveCrashes == 0 && lastValidated == None && blacklist == [] && !safeMode
      ensures crashLog == [] && pendingForgeIncident == None && forgeIncidents == []
    {
      state := Idle;
      consecutiveCrashes := 0;
      lastValidated := None;
      blacklist := [];
      safeMode := false;
      crashLog := [];
      pendingForgeIncident := None;
      forgeIncidents := [];
    }

    method IsBlacklisted(p: TuningPoint) returns (found: bool)
      ensures found == InSome(View().blacklist, p)
    {
      found := IsInSome(blacklist, p);
    }

    method MarkPointValidated(p: TuningPoint)
      modifies this
      ensures View() == After(old(View()), Validate(p))
    {
      lastValidated := Some(p);
      consecutiveCrashes := 0;
      state := Validated;
    }

    method ClearLatchState()
      modifies this
      ensures View() == After(old(View()), ClearRecoveryLatch)
    {
      safeMode := false;
      consecutiveCrashes := 0;
      state := if pendingForgeIncident.Some? then Unstable else Idle;
    }

    method RecordForgeIncident(incident: Incident) returns (recorded: bool)
      modifies this
      ensures View() == After(old(View()), Report(incident))
      ensures recorded == !IsDuplicate(old(View()), incident)
    {
      var duplicate := exists k | 0 <= k < |forgeIncidents| :: SameIncident(forgeIncidents[k], incident);
      if duplicate {
        return false;
      }
      pendingForgeIncident := Some(incident);
      forgeIncidents := PushCapped(forgeIncidents, incident, INCIDENT_CAP);
      if !safeMode {
        state := Unstable;
      }
      recorded := true;
    }

    method AcknowledgeForgeIncident() returns (acknowledged: Option<Incident>)
      modifies this
      ensures View() == After(old(View()), OperatorAcknowledges)
      ensures acknowledged == if old(View()).pending.None? then None
                              else Some(old(View()).pending.value.(acknowledged := true))
    {
      if pendingForgeIncident.None? {
        return None;
      }
      var incident := pendingForgeIncident.value.(acknowledged := true);
      pendingForgeIncident := None;
      forgeIncidents := AcknowledgeStored(forgeIncidents, incident.id);
      if !safeMode {
        state := Idle;
      }
      acknowledged := Some(incident);
    }

    // decide_recovery followed by apply_recovery, as the service does on every boot.
    method RecoverAtBoot(flag: Option<BootFlag>, bugcheck: CrashClass) returns (target: TuningPoint)
      modifies this
      ensures View() == After(old(View()), Boot(flag, bugcheck))
      ensures target == Booted(old(View()), flag, bugcheck).1
    {
      var action := DecideRecovery(flag, bugcheck, View());
      match action {
        case StayIdle =>
          state := Idle;
          target := STOCK;
        case ApplyLastValidated(point) =>
          state := Validated;
          target := point;
        case AwaitAcknowledgement(_) =>
          state := Unstable;
          target := STOCK;
        case BlacklistAndRecede(crashed, recedeTo, class_, counts) =>
          if counts {
            consecutiveCrashes := SatAdd32(consecutiveCrashes, 1);
          }
          var known := IsBlacklisted(crashed);
          if !known {
            blacklist := blacklist + [Region(crashed, BLACKLIST_RADIUS)];
          }
          crashLog := PushCapped(crashLog, class_, CRASH_LOG_CAP);
          state := Unstable;
          target := recedeTo;
        case EnterSafeMode =>
          consecutiveCrashes := SatAdd32(consecutiveCrashes, 1);
          safeMode := true;
          state := SafeMode;
          target := STOCK;
        case RemainSafeMode =>
          safeMode := true;
          state := SafeMode;
          target := STOCK;
      }
    }
  }

  // ---------------------------------------------------------------- the live phase

  function Transition(s: LoopState, e: LoopEvent): LoopState
  {
    match (s, e)
    case (_, TripSafeMode) => SafeMode
    case (_, Reset) => Idle
    case (_, HardCrash) => Unstable
    case (Idle, StartProbe) => Probing
    case (Probing, Applied) => Applying
    case (Applying, EnterDwell) => Dwell
    case (Dwell, DwellPassed) => Validated
    case (Dwell, SoftFail) => Unstable
    case (Validated, StartProbe) => Probing
    case (Unstable, StartProbe) => Probing
    case (other, _) => other
  }

  function Phase(events: seq<LoopEvent>): LoopState
  {
    if events == [] then Idle
    else Transition(Phase(events[..|events| - 1]), events[|events| - 1])
  }

  ghost predicate StaysFrom(events: seq<LoopEvent>, i: nat, j: nat, s: LoopState)
    requires j <= |events|
  {
    forall m :: i <= m <= j ==> Phase(events[..m]) == s
  }

  // The event that last brought the loop into its present phase.
  lemma {:induction false} LastArrival(events: seq<LoopEvent>, n: nat, s: LoopState) returns (i: nat)
    requires n <= |events| && Phase(events[..n]) == s && s != Idle
    ensures i < n && Phase(events[..i]) != s && Transition(Phase(events[..i]), events[i]) == s
    ensures StaysFrom(events, i + 1, n, s)
    decreases n
  {
    var last := events[..n];
    assert last[..n - 1] == events[..n - 1];
    if Phase(events[..n - 1]) == s {
      i := LastArrival(events, n - 1, s);
    } else {
      i := n - 1;
    }
  }

  // Validated is only ever reached through a probe, an apply and a dwell, in that order, with
  // the phase undisturbed in between: no crash, reset or trip since the probe began.
  lemma ValidatedNeedsFullCycle(events: seq<LoopEvent>) returns (a: nat, b: nat, c: nat, d: nat)
    requires Phase(events) == Validated
    ensures a < b < c < d < |events|
    ensures events[a] == StartProbe && events[b] == Applied && events[c] == EnterDwell && events[d] == DwellPassed
    ensures StaysFrom(events, a + 1, b, Probing) && StaysFrom(events, b + 1, c, Applying)
    ensures StaysFrom(events, c + 1, d, Dwell) && StaysFrom(events, d + 1, |events|, Validated)
    ensures forall m :: c < m < d ==> events[m] !in {SoftFail, HardCrash, Reset, TripSafeMode}
  {
    assert events[..|events|] == events;
    d := LastArrival(events, |events|, Validated);
    c := LastArrival(events, d, Dwell);
    b := LastArrival(events, c, Applying);
    a := LastArrival(events, b, Probing);
    forall m | c < m < d ensures events[m] !in {SoftFail, HardCrash, Reset, TripSafeMode} {
      assert Phase(events[..m]) == Dwell && Phase(events[..m + 1]) == Dwell;
      assert events[..m + 1][..m] == events[..m];
    }
  }

  // A trip at i that no reset and no hard crash has followed.
  ghost predicate TrippedAt(events: seq<LoopEvent>, i: nat)
  {
    i < |events| && events[i] == TripSafeMode
    && forall j :: i < j < |events| ==> events[j] != Reset && events[j] != HardCrash
  }

  // The loop is in Safe Mode exactly when it was tripped and neither reset nor crashed since:
  // no probe, apply or dwell event ever leads out, but a hard crash does, like a reset.
  lemma {:induction false} SafeModePhaseIff(events: seq<LoopEvent>)
    ensures Phase(events) == SafeMode <==> exists i: nat :: TrippedAt(events, i)
  {
    if events != [] {
      var n := |events| - 1;
      var before, e := events[..n], events[n];
      SafeModePhaseIff(before);
      if e == TripSafeMode {
        assert TrippedAt(events, n);
      }
      if i: nat :| TrippedAt(before, i) && e != Reset && e != HardCrash {
        assert TrippedAt(events, i);
      }
      if i: nat :| i < n && TrippedAt(events, i) {
        assert TrippedAt(before, i);
      }
    }
  }

  // Probing can start from rest, from a result and from a failure, and an undisturbed cycle validates.
  lemma FullCycleValidates(events: seq<LoopEvent>)
    requires Phase(events) in {Idle, Validated, Unstable}
    ensures Phase(events + [StartProbe]) == Probing
    ensures Phase(events + [StartProbe] + [Applied]) == Applying
    ensures Phase(events + [StartProbe] + [Applied] + [EnterDwell]) == Dwell
    ensures Phase(events + [StartProbe] + [Applied] + [EnterDwell] + [DwellPassed]) == Validated
    ensures Phase(events + [StartProbe] + [Applied] + [EnterDwell] + [SoftFail]) == Unstable
  {
    PhaseAppend(events, StartProbe);
    PhaseAppend(events + [StartProbe], Applied);
    PhaseAppend(events + [StartProbe] + [Applied], EnterDwell);
    PhaseAppend(events + [StartProbe] + [Applied] + [EnterDwell], DwellPassed);
    PhaseAppend(events + [StartProbe] + [Applied] + [EnterDwell], SoftFail);
  }

  lemma PhaseAppend(events: seq<LoopEvent>, e: LoopEvent)
    ensures Phase(events + [e]) == Transition(Phase(events), e)
  {
    assert (events + [e])[..|events|] == events;
  }

  // A stray event changes nothing: a step of the cycle acts only in the phase it belongs to.
  lemma StrayEventIgnored(events: seq<LoopEvent>, e: LoopEvent)
    requires e in {StartProbe, Applied, EnterDwell, DwellPassed, SoftFail}
    ensures Phase(events + [e]) != Phase(events) <==>
              || (e == StartProbe && Phase(events) in {Idle, Validated, Unstable})
              || (e == Applied && Phase(events) == Probing) || (e == EnterDwell && Phase(events) == Applying)
              || ((e == DwellPassed || e == SoftFail) && Phase(events) == Dwell)
  {
    PhaseAppend(events, e);
  }

  // A hard crash, or a soft failure of a dwell, that no probe, reset or trip has followed.
  ghost predicate FailedAt(events: seq<LoopEvent>, i: nat)
  {
    i < |events| && (events[i] == HardCrash || (events[i] == SoftFail && Phase(events[..i]) == Dwell))
    && forall j :: i < j < |events| ==> events[j] !in {StartProbe, Reset, TripSafeMode}
  }

  // The loop is Unstable exactly when something failed and nothing has started over since.
  lemma {:induction false} UnstablePhaseIff(events: seq<LoopEvent>)
    ensures Phase(events) == Unstable <==> exists i: nat :: FailedAt(events, i)
  {
    if events != [] {
      var n := |events| - 1;
      var before, e := events[..n], events[n];
      UnstablePhaseIff(before);
      if e == HardCrash || (e == SoftFail && Phase(before) == Dwell) {
        assert FailedAt(events, n);
      }
      if i: nat :| FailedAt(before, i) && e !in {StartProbe, Reset, TripSafeMode} {
        assert events[..i] == before[..i];
        assert FailedAt(events, i);
      }
      if i: nat :| i < n && FailedAt(events, i) {
        assert events[..i] == before[..i];
        assert FailedAt(before, i);
      }
    }
  }

  // The loop is Idle exactly when nothing started, crashed or tripped since the last reset, or ever.
  ghost predicate QuietFrom(events: seq<LoopEvent>, i: nat)
  {
    i <= |events| && (i == 0 || events[i - 1] == Reset)
    && forall j :: i <= j < |events| ==> events[j] !in {StartProbe, HardCrash, TripSafeMode}
  }

  lemma {:induction false} IdlePhaseIff(events: seq<LoopEvent>)
    ensures Phase(events) == Idle <==> exists i: nat :: QuietFrom(events, i)
  {
    if events == [] {
      assert QuietFrom(events, 0);
    } else {
      var n := |events| - 1;
      var before, e := events[..n], events[n];
      IdlePhaseIff(before);
      if e == Reset {
        assert QuietFrom(events, n + 1);
      }
      if i: nat :| QuietFrom(before, i) && e !in {StartProbe, HardCrash, TripSafeMode} {
        assert QuietFrom(events, i);
      }
      if i: nat :| i <= n && QuietFrom(events, i) {
        assert QuietFrom(before, i);
      }
    }
  }
}
