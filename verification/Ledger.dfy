/** The append-only condemnation ledger: which pairs are in force, and what they refuse. */
module Ledger {
  import opened MachineInts
  import opened VoltageFloor
  import opened FloorGrowth
  import opened FloorComputation

  datatype Severity = Rigid | Quarantine

  // One ledger line. Timestamps and free-text notes carry no decision and are not modelled.
  datatype Event = Event(
    gpuKey: Option<string>,
    severity: Severity,
    kind: string,
    targetMhz: u32,
    vfBinMv: u32,
    runId: Option<string>,
    contract: Option<u32>,
    rehabilitated: bool)

  datatype Contracted = Contracted(clock: u32, mv: u32, contract: Option<u32>)

  datatype CondemnedPairs = CondemnedPairs(rigid: seq<Pair>, quarantine: seq<Pair>, contracts: seq<Contracted>)

  // An event without a key conservatively concerns every GPU.
  predicate Applies(e: Event, gpu: string)
  {
    e.gpuKey.None? || e.gpuKey.value == gpu
  }

  predicate SamePair(a: Event, b: Event)
  {
    a.targetMhz == b.targetMhz && a.vfBinMv == b.vfBinMv
  }

  predicate Cancels(r: Event, e: Event, gpu: string)
  {
    r.rehabilitated && SamePair(r, e) && Applies(r, gpu)
  }

  // ---------------------------------------------------------------- left-to-right replay

  function Without(live: seq<Event>, r: Event): seq<Event>
  {
    if live == [] then []
    else
      var rest, e := Without(live[..|live| - 1], r), live[|live| - 1];
      if SamePair(r, e) then rest else rest + [e]
  }

  // Live events after reading the ledger once, oldest first: a condemnation is added, a
  // rehabilitation removes whatever is live at its exact pair.
  function Replay(events: seq<Event>, gpu: string): seq<Event>
  {
    if events == [] then []
    else
      var live, e := Replay(events[..|events| - 1], gpu), events[|events| - 1];
      if !Applies(e, gpu) then live
      else if e.rehabilitated then Without(live, e)
      else live + [e]
  }

  function PairsOf(live: seq<Event>, severity: Severity): seq<Pair>
  {
    if live == [] then []
    else
      var rest, e := PairsOf(live[..|live| - 1], severity), live[|live| - 1];
      if e.severity == severity then rest + [Pair(e.targetMhz, e.vfBinMv)] else rest
  }

  function ContractsOf(live: seq<Event>): seq<Contracted>
  {
    if live == [] then []
    else
      var rest, e := ContractsOf(live[..|live| - 1]), live[|live| - 1];
      if e.severity == Quarantine then rest + [Contracted(e.targetMhz, e.vfBinMv, e.contract)] else rest
  }

  function Split(live: seq<Event>): CondemnedPairs
  {
    CondemnedPairs(PairsOf(live, Rigid), PairsOf(live, Quarantine), ContractsOf(live))
  }

  // What the ledger condemns for one GPU.
  function Condemned(events: seq<Event>, gpu: string): CondemnedPairs
  {
    Split(Replay(events, gpu))
  }

  // ---------------------------------------------------------------- backward-looking scan

  ghost predicate CancelledLater(events: seq<Event>, i: nat, gpu: string)
    requires i < |events|
  {
    exists j :: i < j < |events| && Cancels(events[j], events[i], gpu)
  }

  ghost predicate Enforced(events: seq<Event>, i: nat, gpu: string)
    requires i < |events|
  {
    Applies(events[i], gpu) && !events[i].rehabilitated && !CancelledLater(events, i, gpu)
  }

  // The first n events that no later rehabilitation cancels.
  ghost function Kept(events: seq<Event>, n: nat, gpu: string): seq<Event>
    requires n <= |events|
  {
    if n == 0 then []
    else if Enforced(events, n - 1, gpu) then Kept(events, n - 1, gpu) + [events[n - 1]]
    else Kept(events, n - 1, gpu)
  }

  lemma EnforcedAfterAppend(events: seq<Event>, e: Event, i: nat, gpu: string)
    requires i < |events|
    ensures Enforced(events + [e], i, gpu) <==> Enforced(events, i, gpu) && !Cancels(e, events[i], gpu)
  {
    var all := events + [e];
    assert all[|events|] == e && all[i] == events[i];
    if CancelledLater(events, i, gpu) {
      var j :| i < j < |events| && Cancels(events[j], events[i], gpu);
      assert Cancels(all[j], all[i], gpu);
    }
    if CancelledLater(all, i, gpu) {
      var j :| i < j < |all| && Cancels(all[j], all[i], gpu);
      assert j < |events| ==> Cancels(events[j], events[i], gpu);
    }
  }

  lemma WithoutAppend(live: seq<Event>, e: Event, r: Event)
    ensures Without(live + [e], r) == if SamePair(r, e) then Without(live, r) else Without(live, r) + [e]
  {
    assert (live + [e])[..|live|] == live;
  }

  lemma {:induction false} KeptAfterAppend(events: seq<Event>, e: Event, n: nat, gpu: string)
    requires n <= |events|
    ensures Kept(events + [e], n, gpu)
         == if e.rehabilitated && Applies(e, gpu) then Without(Kept(events, n, gpu), e) else Kept(events, n, gpu)
  {
    if n > 0 {
      var all := events + [e];
      KeptAfterAppend(events, e, n - 1, gpu);
      EnforcedAfterAppend(events, e, n - 1, gpu);
      assert all[n - 1] == events[n - 1];
      WithoutAppend(Kept(events, n - 1, gpu), events[n - 1], e);
    }
  }

  // Looking ahead for a cancelling rehabilitation keeps exactly what replaying the log keeps.
  lemma {:induction false} KeptIsReplay(events: seq<Event>, gpu: string)
    ensures Kept(events, |events|, gpu) == Replay(events, gpu)
  {
    if events != [] {
      var n := |events| - 1;
      var prior, e := events[..n], events[n];
      assert events == prior + [e];
      KeptIsReplay(prior, gpu);
      KeptAfterAppend(prior, e, n, gpu);
      assert !CancelledLater(events, n, gpu);
    }
  }

  lemma SplitAppend(live: seq<Event>, e: Event)
    ensures var c, p := Split(live), Pair(e.targetMhz, e.vfBinMv);
            Split(live + [e]) == match e.severity
              case Rigid => c.(rigid := c.rigid + [p])
              case Quarantine => c.(quarantine := c.quarantine + [p],
                                    contracts := c.contracts + [Contracted(e.targetMhz, e.vfBinMv, e.contract)])
  {
    assert (live + [e])[..|live|] == live;
  }

  method BuildCondemnedPairs(events: seq<Event>, gpu: string) returns (out: CondemnedPairs)
    ensures out == Condemned(events, gpu)
  {
    out := CondemnedPairs([], [], []);
    for i := 0 to |events|
      invariant out == Split(Kept(events, i, gpu))
    {
      var e := events[i];
      if !Applies(e, gpu) || e.rehabilitated {
        continue;
      }
      var cancelled := exists j | i < j < |events| :: Cancels(events[j], e, gpu);
      if cancelled {
        continue;
      }
      SplitAppend(Kept(events, i, gpu), e);
      var pair := Pair(e.targetMhz, e.vfBinMv);
      match e.severity
      case Rigid => out := out.(rigid := out.rigid + [pair]);
      case Quarantine =>
        out := out.(quarantine := out.quarantine + [pair],
                    contracts := out.contracts + [Contracted(e.targetMhz, e.vfBinMv, e.contract)]);
    }
    KeptIsReplay(events, gpu);
  }

  // ---- which lines count, told on the lines themselves

  // A ledger without lines condemns nothing; a line under another GPU's key changes nothing,
  // whether it condemns or rehabilitates.
  lemma ForeignLineIgnored(events: seq<Event>, e: Event, gpu: string, other: string)
    requires e.gpuKey == Some(other) && other != gpu
    ensures Condemned([], gpu) == CondemnedPairs([], [], [])
    ensures Condemned(events + [e], gpu) == Condemned(events, gpu)
  {
    assert (events + [e])[..|events|] == events;
  }

  // A condemnation without a key or under this GPU's key adds its pair to the list of its severity.
  lemma OwnCondemnationAdded(events: seq<Event>, e: Event, gpu: string)
    requires (e.gpuKey == None || e.gpuKey == Some(gpu)) && !e.rehabilitated
    ensures var c, c' := Condemned(events, gpu), Condemned(events + [e], gpu);
            match e.severity
            case Rigid =>
              && c'.rigid == c.rigid + [Pair(e.targetMhz, e.vfBinMv)]
              && c'.quarantine == c.quarantine && c'.contracts == c.contracts
            case Quarantine =>
              && c'.quarantine == c.quarantine + [Pair(e.targetMhz, e.vfBinMv)]
              && c'.contracts == c.contracts + [Contracted(e.targetMhz, e.vfBinMv, e.contract)]
              && c'.rigid == c.rigid
  {
    assert (events + [e])[..|events|] == events;
    SplitAppend(Replay(events, gpu), e);
  }

  // The pairs other than one, in order; and the contracted pairs of other clock or voltage.
  function Except(pairs: seq<Pair>, clock: u32, mv: u32): seq<Pair>
  {
    if pairs == [] then []
    else
      var rest, p := Except(pairs[..|pairs| - 1], clock, mv), pairs[|pairs| - 1];
      if p.clock == clock && p.mv == mv then rest else rest + [p]
  }

  function ExceptContracts(contracts: seq<Contracted>, clock: u32, mv: u32): seq<Contracted>
  {
    if contracts == [] then []
    else
      var rest, t := ExceptContracts(contracts[..|contracts| - 1], clock, mv), contracts[|contracts| - 1];
      if t.clock == clock && t.mv == mv then rest else rest + [t]
  }

  lemma ExceptAppend(pairs: seq<Pair>, p: Pair, clock: u32, mv: u32)
    ensures Except(pairs + [p], clock, mv)
         == if p.clock == clock && p.mv == mv then Except(pairs, clock, mv) else Except(pairs, clock, mv) + [p]
  {
    assert (pairs + [p])[..|pairs|] == pairs;
  }

  lemma ExceptContractsAppend(contracts: seq<Contracted>, t: Contracted, clock: u32, mv: u32)
    ensures ExceptContracts(contracts + [t], clock, mv)
         == if t.clock == clock && t.mv == mv then ExceptContracts(contracts, clock, mv)
            else ExceptContracts(contracts, clock, mv) + [t]
  {
    assert (contracts + [t])[..|contracts|] == contracts;
  }

  lemma {:induction false} SplitWithout(live: seq<Event>, r: Event)
    ensures var c, c' := Split(live), Split(Without(live, r));
            && c'.rigid == Except(c.rigid, r.targetMhz, r.vfBinMv)
            && c'.quarantine == Except(c.quarantine, r.targetMhz, r.vfBinMv)
            && c'.contracts == ExceptContracts(c.contracts, r.targetMhz, r.vfBinMv)
  {
    if live != [] {
      var rest, e := live[..|live| - 1], live[|live| - 1];
      assert live == rest + [e];
      SplitWithout(rest, r);
      SplitAppend(rest, e);
      SplitAppend(Without(rest, r), e);
      var c := Split(rest);
      ExceptAppend(c.rigid, Pair(e.targetMhz, e.vfBinMv), r.targetMhz, r.vfBinMv);
      ExceptAppend(c.quarantine, Pair(e.targetMhz, e.vfBinMv), r.targetMhz, r.vfBinMv);
      ExceptContractsAppend(c.contracts, Contracted(e.targetMhz, e.vfBinMv, e.contract), r.targetMhz, r.vfBinMv);
    }
  }

  // A rehabilitation without a key or under this GPU's key lifts exactly the pairs equal to its own
  // in clock and voltage, whatever their severity, and nothing else.
  lemma OwnRehabilitationLifts(events: seq<Event>, e: Event, gpu: string)
    requires (e.gpuKey == None || e.gpuKey == Some(gpu)) && e.rehabilitated
    ensures var c, c' := Condemned(events, gpu), Condemned(events + [e], gpu);
            && c'.rigid == Except(c.rigid, e.targetMhz, e.vfBinMv)
            && c'.quarantine == Except(c.quarantine, e.targetMhz, e.vfBinMv)
            && c'.contracts == ExceptContracts(c.contracts, e.targetMhz, e.vfBinMv)
  {
    assert (events + [e])[..|events|] == events;
    SplitWithout(Replay(events, gpu), e);
  }

  // The contract list names the quarantined pairs, entry by entry.
  lemma {:induction false} ContractsParallel(live: seq<Event>)
    ensures |ContractsOf(live)| == |PairsOf(live, Quarantine)|
    ensures forall i :: 0 <= i < |ContractsOf(live)| ==>
              PairsOf(live, Quarantine)[i] == Pair(ContractsOf(live)[i].clock, ContractsOf(live)[i].mv)
  {
    if live != [] {
      ContractsParallel(live[..|live| - 1]);
    }
  }

  // ---------------------------------------------------------------- audit view

  // A later rehabilitation of the pair was written under the event's own key.
  ghost predicate LiftedUnderOwnKey(events: seq<Event>, i: nat)
    requires i < |events|
  {
    exists k :: i < k < |events| && events[k].rehabilitated && SamePair(events[k], events[i])
                && events[k].gpuKey == events[i].gpuKey
  }

  ghost predicate Visible(events: seq<Event>, i: nat)
    requires i < |events|
  {
    !events[i].rehabilitated && !LiftedUnderOwnKey(events, i)
  }

  ghost function EffectiveEvents(events: seq<Event>, n: nat): seq<Event>
    requires n <= |events|
  {
    if n == 0 then []
    else if Visible(events, n - 1) then EffectiveEvents(events, n - 1) + [events[n - 1]]
    else EffectiveEvents(events, n - 1)
  }

  lemma EnforcedIsVisible(events: seq<Event>, i: nat, gpu: string)
    requires i < |events|
    ensures Enforced(events, i, gpu) ==> Visible(events, i)
  {
  }

  // The audit view never hides an enforced condemnation, not even one of several equal entries.
  lemma {:induction false} AuditShowsEnforced(events: seq<Event>, n: nat, gpu: string)
    requires n <= |events|
    ensures multiset(Kept(events, n, gpu)) <= multiset(EffectiveEvents(events, n))
    ensures n == |events| ==> multiset(Replay(events, gpu)) <= multiset(EffectiveEvents(events, n))
  {
    if n > 0 {
      AuditShowsEnforced(events, n - 1, gpu);
      EnforcedIsVisible(events, n - 1, gpu);
    }
    KeptIsReplay(events, gpu);
  }

  // The events a rehabilitation leaves in the audit view: those of another clock, voltage or key.
  function NotLiftedBy(shown: seq<Event>, r: Event): seq<Event>
  {
    if shown == [] then []
    else
      var rest, e := NotLiftedBy(shown[..|shown| - 1], r), shown[|shown| - 1];
      if e.targetMhz == r.targetMhz && e.vfBinMv == r.vfBinMv && e.gpuKey == r.gpuKey then rest else rest + [e]
  }

  lemma NotLiftedAppend(shown: seq<Event>, e: Event, r: Event)
    ensures NotLiftedBy(shown + [e], r)
         == if e.targetMhz == r.targetMhz && e.vfBinMv == r.vfBinMv && e.gpuKey == r.gpuKey
            then NotLiftedBy(shown, r) else NotLiftedBy(shown, r) + [e]
  {
    assert (shown + [e])[..|shown|] == shown;
  }

  lemma VisibleAfterAppend(events: seq<Event>, e: Event, i: nat)
    requires i < |events|
    ensures Visible(events + [e], i)
       <==> Visible(events, i) && !(e.rehabilitated && events[i].targetMhz == e.targetMhz
                                    && events[i].vfBinMv == e.vfBinMv && events[i].gpuKey == e.gpuKey)
  {
    var all := events + [e];
    assert all[|events|] == e && all[i] == events[i];
    if LiftedUnderOwnKey(events, i) {
      var k :| i < k < |events| && events[k].rehabilitated && SamePair(events[k], events[i])
               && events[k].gpuKey == events[i].gpuKey;
      assert all[k] == events[k];
    }
    if LiftedUnderOwnKey(all, i) {
      var k :| i < k < |all| && all[k].rehabilitated && SamePair(all[k], all[i]) && all[k].gpuKey == all[i].gpuKey;
      assert k < |events| ==> all[k] == events[k];
    }
  }

  lemma {:induction false} ViewAfterAppend(events: seq<Event>, e: Event, n: nat)
    requires n <= |events|
    ensures EffectiveEvents(events + [e], n)
         == if e.rehabilitated then NotLiftedBy(EffectiveEvents(events, n), e) else EffectiveEvents(events, n)
  {
    if n > 0 {
      var seen, last := EffectiveEvents(events, n - 1), events[n - 1];
      assert (events + [e])[n - 1] == last;
      ViewAfterAppend(events, e, n - 1);
      VisibleAfterAppend(events, e, n - 1);
      NotLiftedAppend(seen, last, e);
    }
  }

  // The audit view line by line: a condemnation shows at the end, a rehabilitation never shows and
  // hides exactly what has its clock, its voltage and its key.
  lemma AuditViewAppend(events: seq<Event>, e: Event)
    ensures EffectiveEvents(events + [e], |events| + 1)
         == if e.rehabilitated then NotLiftedBy(EffectiveEvents(events, |events|), e)
            else EffectiveEvents(events, |events|) + [e]
  {
    var all, n := events + [e], |events|;
    ViewAfterAppend(events, e, n);
    assert all[n] == e && (Visible(all, n) <==> !e.rehabilitated);
  }

  // What the audit view shows of one GPU.
  function OfGpu(live: seq<Event>, gpu: string): seq<Event>
  {
    if live == [] then []
    else
      var rest, e := OfGpu(live[..|live| - 1], gpu), live[|live| - 1];
      if Applies(e, gpu) then rest + [e] else rest
  }

  // A condemnation of this GPU that is no longer in force.
  ghost predicate Lifted(events: seq<Event>, i: nat, gpu: string)
    requires i < |events|
  {
    Applies(events[i], gpu) && !events[i].rehabilitated && CancelledLater(events, i, gpu)
  }

  // Whatever was lifted for this GPU was lifted under the key it was condemned under.
  ghost predicate KeysAgree(events: seq<Event>, gpu: string)
  {
    forall i :: 0 <= i < |events| && Lifted(events, i, gpu) ==> LiftedUnderOwnKey(events, i)
  }

  lemma OfGpuAppend(live: seq<Event>, e: Event, gpu: string)
    ensures OfGpu(live + [e], gpu) == if Applies(e, gpu) then OfGpu(live, gpu) + [e] else OfGpu(live, gpu)
  {
    assert (live + [e])[..|live|] == live;
  }

  ghost predicate ShowsOnlyEnforced(events: seq<Event>, n: nat, gpu: string)
    requires n <= |events|
  {
    forall i :: 0 <= i < n && Applies(events[i], gpu) && Visible(events, i) ==> Enforced(events, i, gpu)
  }

  lemma {:induction false} ViewAgainstKept(events: seq<Event>, n: nat, gpu: string)
    requires n <= |events|
    ensures var view, kept := OfGpu(EffectiveEvents(events, n), gpu), Kept(events, n, gpu);
            && |view| >= |kept| && (view == kept <==> |view| == |kept|)
            && (view == kept <==> ShowsOnlyEnforced(events, n, gpu))
  {
    if n > 0 {
      var e, seen, kept := events[n - 1], EffectiveEvents(events, n - 1), Kept(events, n - 1, gpu);
      ViewAgainstKept(events, n - 1, gpu);
      EnforcedIsVisible(events, n - 1, gpu);
      OfGpuAppend(seen, e, gpu);
      assert ShowsOnlyEnforced(events, n, gpu)
        <==> ShowsOnlyEnforced(events, n - 1, gpu)
             && (Applies(e, gpu) && Visible(events, n - 1) ==> Enforced(events, n - 1, gpu));
    }
  }

  // For one GPU the audit view is exactly what is enforced if and only if the keys agree.
  lemma AuditExactIff(events: seq<Event>, gpu: string)
    ensures OfGpu(EffectiveEvents(events, |events|), gpu) == Replay(events, gpu) <==> KeysAgree(events, gpu)
  {
    ViewAgainstKept(events, |events|, gpu);
    KeptIsReplay(events, gpu);
    if KeysAgree(events, gpu) {
      forall i | 0 <= i < |events| && Applies(events[i], gpu) && Visible(events, i)
        ensures Enforced(events, i, gpu)
      {
        assert !LiftedUnderOwnKey(events, i);
      }
    }
    if ShowsOnlyEnforced(events, |events|, gpu) {
      forall i | 0 <= i < |events| && Lifted(events, i, gpu)
        ensures LiftedUnderOwnKey(events, i)
      {
        assert !Enforced(events, i, gpu);
      }
    }
  }

  // A rehabilitation of this GPU that would lift a live condemnation made under another key.
  ghost predicate LiftsUnderOtherKey(events: seq<Event>, e: Event, gpu: string)
  {
    e.rehabilitated && Applies(e, gpu)
    && exists i :: 0 <= i < |events| && Enforced(events, i, gpu) && SamePair(e, events[i]) && events[i].gpuKey != e.gpuKey
  }

  // What a writer has to check: an exact audit view stays exact after one more line unless that
  // line lifts something under another key.
  lemma AppendKeepsAuditExactIff(events: seq<Event>, e: Event, gpu: string)
    requires KeysAgree(events, gpu)
    ensures KeysAgree(events + [e], gpu) <==> !LiftsUnderOtherKey(events, e, gpu)
  {
    var all := events + [e];
    if LiftsUnderOtherKey(events, e, gpu) {
      var i :| 0 <= i < |events| && Enforced(events, i, gpu) && SamePair(e, events[i]) && events[i].gpuKey != e.gpuKey;
      assert all[i] == events[i] && Cancels(all[|events|], all[i], gpu);
      assert Lifted(all, i, gpu);
      EnforcedIsVisible(events, i, gpu);
      assert !LiftedUnderOwnKey(all, i);
    } else {
      forall i | 0 <= i < |all| && Lifted(all, i, gpu)
        ensures LiftedUnderOwnKey(all, i)
      {
        OwnKeyCarriesOver(events, e, i, gpu);
      }
    }
  }

  lemma OwnKeyCarriesOver(events: seq<Event>, e: Event, i: nat, gpu: string)
    requires KeysAgree(events, gpu) && !LiftsUnderOtherKey(events, e, gpu) && i < |events + [e]|
    requires Lifted(events + [e], i, gpu)
    ensures LiftedUnderOwnKey(events + [e], i)
  {
    var all := events + [e];
    assert all[|events|] == e && i < |events|;
    EnforcedAfterAppend(events, e, i, gpu);
    if CancelledLater(events, i, gpu) {
      assert Lifted(events, i, gpu);
      var k :| i < k < |events| && events[k].rehabilitated && SamePair(events[k], events[i])
               && events[k].gpuKey == events[i].gpuKey;
      assert all[k] == events[k];
    } else {
      assert Enforced(events, i, gpu) && Cancels(e, events[i], gpu);
      assert all[|events|].gpuKey == all[i].gpuKey;
    }
  }

  // It can fail: a keyless rehabilitation lifts a keyed condemnation for that GPU but leaves it
  // in the audit view.
  lemma AuditCanShowLifted(e: Event, r: Event, gpu: string)
    requires !e.rehabilitated && r.rehabilitated && SamePair(r, e)
    requires e.gpuKey == Some(gpu) && r.gpuKey == None
    ensures Replay([e, r], gpu) == [] && EffectiveEvents([e, r], 2) == [e]
  {
    var log := [e, r];
    assert log[..1] == [e] && [e][..0] == [];
    assert Replay([e], gpu) == [e];
    assert Without([e], r) == [];
    assert Visible(log, 0) && !Visible(log, 1);
    assert EffectiveEvents(log, 0) == [];
    assert EffectiveEvents(log, 1) == [e];
  }

  // ---------------------------------------------------------------- refusal

  predicate Refuses(c: CondemnedPairs, clock: u32, mv: u32)
  {
    var rigid, quarantine := WrappedFloor(c.rigid, clock), WrappedFloor(c.quarantine, clock);
    (rigid.Some? && mv <= rigid.value) || (quarantine.Some? && mv < quarantine.value)
  }

  method CheckRefusal(c: CondemnedPairs, clock: u32, mv: u32) returns (refused: bool)
    ensures refused == Refuses(c, clock, mv)
  {
    var rigid := VfFloorEnvelope(c.rigid, clock);
    if rigid.Some? && mv <= rigid.value {
      return true;
    }
    var quarantine := VfFloorEnvelope(c.quarantine, clock);
    refused := quarantine.Some? && mv < quarantine.value;
  }

  // The same rule over the floors in unbounded integers.
  predicate RefusesExactly(c: CondemnedPairs, clock: u32, mv: u32)
  {
    var rigid, quarantine := Floor(c.rigid, clock), Floor(c.quarantine, clock);
    (rigid.Some? && mv <= rigid.value) || (quarantine.Some? && mv < quarantine.value)
  }

  // Highest voltage a floor refuses, -1 for none.
  function RigidTop(floor: Option<int>): int { if floor.None? then -1 else floor.value }
  function QuarantineTop(floor: Option<int>): int { if floor.None? then -1 else floor.value - 1 }

  // A floor that decides the refusals at this clock is computed without overflow.
  predicate DecidingFloorFits(c: CondemnedPairs, clock: u32)
  {
    var rigid, quarantine := RigidTop(Floor(c.rigid, clock)), QuarantineTop(Floor(c.quarantine, clock));
    (rigid >= quarantine && Fits(c.rigid, clock)) || (quarantine >= rigid && Fits(c.quarantine, clock))
  }

  lemma RefusalByTop(c: CondemnedPairs, clock: u32, mv: u32)
    ensures Refuses(c, clock, mv)
       <==> mv <= RigidTop(WrappedFloor(c.rigid, clock)) || mv <= QuarantineTop(WrappedFloor(c.quarantine, clock))
    ensures RefusesExactly(c, clock, mv)
       <==> mv <= RigidTop(Floor(c.rigid, clock)) || mv <= QuarantineTop(Floor(c.quarantine, clock))
  {
  }

  lemma ComputedTop(pairs: seq<Pair>, clock: u32)
    ensures var computed, exact := WrappedFloor(pairs, clock), Floor(pairs, clock);
            && RigidTop(computed) <= RigidTop(exact) < TWO_32 && QuarantineTop(computed) <= QuarantineTop(exact)
            && (Fits(pairs, clock) ==> computed == exact)
            && (!Fits(pairs, clock) ==> 0 <= RigidTop(exact) && RigidTop(computed) < RigidTop(exact)
                                        && (QuarantineTop(exact) >= 0 ==> QuarantineTop(computed) < QuarantineTop(exact)))
  {
    ComputedNeverAbove(pairs, clock);
    WrappedFloorExactIff(pairs, clock);
  }

  // What is computed refuses nothing the rule does not, and everything it does while a deciding
  // floor fits 64 bits.
  lemma ComputedRefusal(c: CondemnedPairs, clock: u32, mv: u32)
    ensures Refuses(c, clock, mv) ==> RefusesExactly(c, clock, mv)
    ensures DecidingFloorFits(c, clock) ==> (Refuses(c, clock, mv) <==> RefusesExactly(c, clock, mv))
  {
    ComputedTop(c.rigid, clock);
    ComputedTop(c.quarantine, clock);
    RefusalByTop(c, clock, mv);
  }

  // And only then.
  lemma RefusalExactIff(c: CondemnedPairs, clock: u32)
    ensures (forall mv: u32 :: Refuses(c, clock, mv) <==> RefusesExactly(c, clock, mv))
       <==> DecidingFloorFits(c, clock)
  {
    if DecidingFloorFits(c, clock) {
      forall mv: u32 ensures Refuses(c, clock, mv) <==> RefusesExactly(c, clock, mv) {
        ComputedRefusal(c, clock, mv);
      }
    } else {
      ComputedTop(c.rigid, clock);
      ComputedTop(c.quarantine, clock);
      var top: u32 := Max(RigidTop(Floor(c.rigid, clock)), QuarantineTop(Floor(c.quarantine, clock)));
      RefusalByTop(c, clock, top);
      assert !(Refuses(c, clock, top) <==> RefusesExactly(c, clock, top));
    }
  }

  // A condemned pair in force is itself refused when rigid, and everything below it at its
  // clock or any higher clock is refused whatever its severity.
  lemma CondemnedIsRefused(c: CondemnedPairs, p: Pair, clock: u32, mv: u32)
    requires DecidingFloorFits(c, clock) && p.clock <= clock
    requires (p in c.rigid && mv <= p.mv) || (p in c.quarantine && mv < p.mv)
    ensures Refuses(c, clock, mv)
  {
    ComputedRefusal(c, clock, mv);
    if p in c.rigid && mv <= p.mv {
      FloorCoversEvidence(c.rigid, p, clock);
    } else {
      FloorCoversEvidence(c.quarantine, p, clock);
    }
  }

  lemma CeilCompare(f: int, line: real, mv: int)
    requires (f - 1) as real < line <= f as real
    ensures mv <= f <==> mv as real - 1.0 < line
    ensures mv < f <==> (mv as real) < line
  {
  }

  // Refusal against the interpolated boundary itself: a rigid boundary refuses everything below the
  // next whole millivolt above it, a quarantine boundary only what lies strictly below it.
  lemma RefusedIffBelowBoundary(c: CondemnedPairs, clock: u32, mv: u32)
    requires DecidingFloorFits(c, clock)
    ensures Refuses(c, clock, mv)
       <==> ((exists p :: p in c.rigid && p.clock <= clock) && mv as real - 1.0 < Interpolation(c.rigid, clock))
            || ((exists p :: p in c.quarantine && p.clock <= clock) && (mv as real) < Interpolation(c.quarantine, clock))
  {
    ComputedRefusal(c, clock, mv);
    FloorExistsIff(c.rigid, clock);
    FloorExistsIff(c.quarantine, clock);
    if Floor(c.rigid, clock).Some? {
      FloorIsLeastIntegerAbove(c.rigid, clock);
      CeilCompare(Floor(c.rigid, clock).value, Interpolation(c.rigid, clock), mv);
    }
    if Floor(c.quarantine, clock).Some? {
      FloorIsLeastIntegerAbove(c.quarantine, clock);
      CeilCompare(Floor(c.quarantine, clock).value, Interpolation(c.quarantine, clock), mv);
    }
  }

  // Past 64 bits a condemned pair can be let through: two rigid pairs, the lower one unrefused.
  lemma OverflowLetsThrough()
    ensures var c := CondemnedPairs([Pair(0, 0), Pair(0xffff_ffff, 0xffff_ffff)], [], []);
            RefusesExactly(c, 0xffff_fffe, 0) && !Refuses(c, 0xffff_fffe, 0)
  {
    var pairs := [Pair(0, 0), Pair(0xffff_ffff, 0xffff_ffff)];
    var c := CondemnedPairs(pairs, [], []);
    FullRangeOverflows();
    ComputedTop(pairs, 0xffff_fffe);
    ComputedNeverAbove(pairs, 0xffff_fffe);
    assert pairs[..1] == [Pair(0, 0)];
    assert Worst(pairs, 0xffff_fffe) == 0;
    RefusalByTop(c, 0xffff_fffe, 0);
  }

  // A refused point stays refused at lower voltage and at higher clock.
  lemma RefusalIsMonotone(c: CondemnedPairs, clock: u32, mv: u32, clock': u32, mv': u32)
    requires DecidingFloorFits(c, clock')
    requires Refuses(c, clock, mv) && clock <= clock' && mv' <= mv
    ensures Refuses(c, clock', mv')
  {
    ComputedRefusal(c, clock, mv);
    ComputedRefusal(c, clock', mv');
    if Floor(c.rigid, clock).Some? { FloorMonotone(c.rigid, clock, clock'); }
    if Floor(c.quarantine, clock).Some? { FloorMonotone(c.quarantine, clock, clock'); }
  }

  // ---------------------------------------------------------------- growing ledgers

  // The event's pair is harmless to the floor of its own severity.
  predicate HarmlessEvent(c: CondemnedPairs, e: Event)
  {
    Harmless(if e.severity == Rigid then c.rigid else c.quarantine, Pair(e.targetMhz, e.vfBinMv))
  }

  // Every line of this GPU from j to k condemns a point that is harmless when appended.
  ghost predicate HarmlessRun(events: seq<Event>, gpu: string, j: nat, k: nat)
    requires k <= |events|
  {
    forall i :: j <= i < k && Applies(events[i], gpu) ==>
      !events[i].rehabilitated && HarmlessEvent(Condemned(events[..i], gpu), events[i])
  }

  // Every line of this GPU from j to k condemns a point the ledger had not refused when it was
  // appended, its floor there computed without overflow.
  ghost predicate AdmittedRun(events: seq<Event>, gpu: string, j: nat, k: nat)
    requires k <= |events|
  {
    forall i :: j <= i < k && Applies(events[i], gpu) ==>
      && !events[i].rehabilitated
      && !Refuses(Condemned(events[..i], gpu), events[i].targetMhz, events[i].vfBinMv)
      && DecidingFloorFits(Condemned(events[..i], gpu), events[i].targetMhz)
  }

  lemma AdmittedIsHarmless(c: CondemnedPairs, e: Event)
    requires !Refuses(c, e.targetMhz, e.vfBinMv) && DecidingFloorFits(c, e.targetMhz)
    ensures HarmlessEvent(c, e)
  {
    ComputedRefusal(c, e.targetMhz, e.vfBinMv);
  }

  ghost predicate PhysicalLog(events: seq<Event>)
  {
    forall e :: e in events ==> e.vfBinMv < TWO_31
  }

  lemma {:induction false} ReplayMembers(events: seq<Event>, gpu: string)
    ensures forall e :: e in Replay(events, gpu) ==> e in events
  {
    if events != [] {
      var n := |events| - 1;
      ReplayMembers(events[..n], gpu);
      WithoutMembers(Replay(events[..n], gpu), events[n]);
    }
  }

  lemma {:induction false} WithoutMembers(live: seq<Event>, r: Event)
    ensures forall e :: e in Without(live, r) <==> e in live && !SamePair(r, e)
  {
    if live != [] {
      assert live == live[..|live| - 1] + [live[|live| - 1]];
      WithoutMembers(live[..|live| - 1], r);
    }
  }

  lemma {:induction false} PairsPhysical(live: seq<Event>, severity: Severity)
    requires PhysicalLog(live)
    ensures Physical(PairsOf(live, severity))
  {
    if live != [] {
      assert live[|live| - 1] in live;
      PairsPhysical(live[..|live| - 1], severity);
    }
  }

  lemma CondemnedPhysical(events: seq<Event>, gpu: string)
    requires PhysicalLog(events)
    ensures Physical(Condemned(events, gpu).rigid) && Physical(Condemned(events, gpu).quarantine)
  {
    ReplayMembers(events, gpu);
    PairsPhysical(Replay(events, gpu), Rigid);
    PairsPhysical(Replay(events, gpu), Quarantine);
  }

  lemma CondemnedAppend(events: seq<Event>, e: Event, gpu: string)
    requires !e.rehabilitated && Applies(e, gpu)
    ensures var c, c', p := Condemned(events, gpu), Condemned(events + [e], gpu), Pair(e.targetMhz, e.vfBinMv);
            && c'.rigid == (if e.severity == Rigid then c.rigid + [p] else c.rigid)
            && c'.quarantine == (if e.severity == Quarantine then c.quarantine + [p] else c.quarantine)
  {
    assert (events + [e])[..|events|] == events;
    SplitAppend(Replay(events, gpu), e);
  }

  // With voltages below 2^31 mV every floor of the ledger fits, at every clock.
  lemma PhysicalLogFits(events: seq<Event>, gpu: string, clock: u32)
    requires PhysicalLog(events)
    ensures DecidingFloorFits(Condemned(events, gpu), clock)
  {
    CondemnedPhysical(events, gpu);
    PhysicalFits(Condemned(events, gpu).rigid, clock);
    PhysicalFits(Condemned(events, gpu).quarantine, clock);
  }

  // Appending one harmless condemnation keeps every refusal.
  lemma HarmlessStep(events: seq<Event>, e: Event, gpu: string, clock: u32, mv: u32)
    requires !e.rehabilitated && Applies(e, gpu) && HarmlessEvent(Condemned(events, gpu), e)
    requires RefusesExactly(Condemned(events, gpu), clock, mv)
    ensures RefusesExactly(Condemned(events + [e], gpu), clock, mv)
  {
    var c, p := Condemned(events, gpu), Pair(e.targetMhz, e.vfBinMv);
    CondemnedAppend(events, e, gpu);
    if e.severity == Rigid && Floor(c.rigid, clock).Some? {
      HarmlessAt(c.rigid, p, clock);
    }
    if e.severity == Quarantine && Floor(c.quarantine, clock).Some? {
      HarmlessAt(c.quarantine, p, clock);
    }
  }

  lemma {:induction false} HarmlessRunKeepsRefusals(events: seq<Event>, gpu: string, j: nat, k: nat, clock: u32, mv: u32)
    requires j <= k <= |events| && HarmlessRun(events, gpu, j, k)
    requires RefusesExactly(Condemned(events[..j], gpu), clock, mv)
    ensures RefusesExactly(Condemned(events[..k], gpu), clock, mv)
    decreases k - j
  {
    if j < k {
      var prior, e := events[..k - 1], events[k - 1];
      HarmlessRunKeepsRefusals(events, gpu, j, k - 1, clock, mv);
      assert events[..k] == prior + [e];
      if Applies(e, gpu) {
        HarmlessStep(prior, e, gpu, clock, mv);
      } else {
        assert (prior + [e])[..k - 1] == prior;
      }
    }
  }

  // From any ledger state on, over lines that condemn only points the ledger had admitted, the
  // refused region only grows.
  lemma RefusalsOnlyGrow(events: seq<Event>, gpu: string, j: nat, k: nat, clock: u32, mv: u32)
    requires j <= k <= |events| && AdmittedRun(events, gpu, j, k)
    requires DecidingFloorFits(Condemned(events[..k], gpu), clock)
    requires Refuses(Condemned(events[..j], gpu), clock, mv)
    ensures Refuses(Condemned(events[..k], gpu), clock, mv)
  {
    forall i | j <= i < k && Applies(events[i], gpu)
      ensures HarmlessEvent(Condemned(events[..i], gpu), events[i])
    {
      AdmittedIsHarmless(Condemned(events[..i], gpu), events[i]);
    }
    ComputedRefusal(Condemned(events[..j], gpu), clock, mv);
    HarmlessRunKeepsRefusals(events, gpu, j, k, clock, mv);
    ComputedRefusal(Condemned(events[..k], gpu), clock, mv);
  }

  lemma RigidLog(e: Event, clock: u32, mv: u32, prior: seq<Event>, gpu: string)
    requires e.gpuKey == None && !e.rehabilitated && e.severity == Rigid
    ensures var c, c' := Condemned(prior, gpu), Condemned(prior + [e.(targetMhz := clock, vfBinMv := mv)], gpu);
            c'.rigid == c.rigid + [Pair(clock, mv)] && c'.quarantine == c.quarantine
  {
    CondemnedAppend(prior, e.(targetMhz := clock, vfBinMv := mv), gpu);
  }

  // Without the admission guard it fails: three rigid failures un-refuse a point.
  lemma UnadmittedRunCanShrink(e: Event)
    requires e.gpuKey == None && !e.rehabilitated && e.severity == Rigid
    ensures var before := [] + [e.(targetMhz := 1815, vfBinMv := 862)] + [e.(targetMhz := 1875, vfBinMv := 887)];
            && Refuses(Condemned(before, "gpu"), 1845, 875)
            && !Refuses(Condemned(before + [e.(targetMhz := 1845, vfBinMv := 850)], "gpu"), 1845, 875)
  {
    var one := [] + [e.(targetMhz := 1815, vfBinMv := 862)];
    var two := one + [e.(targetMhz := 1875, vfBinMv := 887)];
    RigidLog(e, 1815, 862, [], "gpu");
    RigidLog(e, 1875, 887, one, "gpu");
    RigidLog(e, 1845, 850, two, "gpu");
    var c, c' := Condemned(two, "gpu"), Condemned(two + [e.(targetMhz := 1845, vfBinMv := 850)], "gpu");
    assert c.rigid == [Pair(1815, 862), Pair(1875, 887)];
    RefusesByRigid(c, 1845, 875);
    RefusesByRigid(c', 1845, 875);
    EvidenceCanLowerFloor();
  }

  lemma RefusesByRigid(c: CondemnedPairs, clock: u32, mv: u32)
    requires Physical(c.rigid) && c.quarantine == []
    ensures Refuses(c, clock, mv) <==> Floor(c.rigid, clock).Some? && mv <= Floor(c.rigid, clock).value
  {
    PhysicalFits(c.rigid, clock);
  }

  // ---------------------------------------------------------------- re-proof

  function RequiredApplyPasses(c: CondemnedPairs, clock: u32, mv: u32, contract: u32): u32
  {
    if exists i | 0 <= i < |c.contracts| ::
        c.contracts[i].clock == clock && c.contracts[i].mv == mv
        && (c.contracts[i].contract.None? || c.contracts[i].contract.value >= contract)
    then 2 else 1
  }

  lemma {:induction false} ContractsCome(live: seq<Event>, t: Contracted)
    ensures t in ContractsOf(live)
       <==> exists e :: e in live && e.severity == Quarantine && t == Contracted(e.targetMhz, e.vfBinMv, e.contract)
  {
    if live != [] {
      var rest, e := live[..|live| - 1], live[|live| - 1];
      assert live == rest + [e];
      ContractsCome(rest, t);
      if t in ContractsOf(rest) {
        var x :| x in rest && x.severity == Quarantine && t == Contracted(x.targetMhz, x.vfBinMv, x.contract);
        assert x in live;
      }
    }
  }

  ghost predicate CondemnsUnder(e: Event, clock: u32, mv: u32, contract: u32)
  {
    e.severity == Quarantine && e.targetMhz == clock && e.vfBinMv == mv
    && (e.contract.None? || e.contract.value >= contract)
  }

  // Double proof is asked for exactly when a live quarantine of this pair was made under the
  // current or a stronger (or an unknown) contract; otherwise one pass is enough.
  lemma DoubleProofIff(events: seq<Event>, gpu: string, clock: u32, mv: u32, contract: u32)
    ensures RequiredApplyPasses(Condemned(events, gpu), clock, mv, contract) == 2
       <==> exists e :: e in Replay(events, gpu) && CondemnsUnder(e, clock, mv, contract)
    ensures RequiredApplyPasses(Condemned(events, gpu), clock, mv, contract) == 1
       <==> forall e :: e in Replay(events, gpu) && e.severity == Quarantine && e.targetMhz == clock && e.vfBinMv == mv
                        ==> e.contract.Some? && e.contract.value < contract
  {
    var live := Replay(events, gpu);
    var contracts := ContractsOf(live);
    if e :| e in live && CondemnsUnder(e, clock, mv, contract) {
      var t := Contracted(e.targetMhz, e.vfBinMv, e.contract);
      ContractsCome(live, t);
      var i :| 0 <= i < |contracts| && contracts[i] == t;
      assert contracts[i].clock == clock;
    }
    if i :| 0 <= i < |contracts| && contracts[i].clock == clock && contracts[i].mv == mv
            && (contracts[i].contract.None? || contracts[i].contract.value >= contract) {
      ContractsCome(live, contracts[i]);
      var e :| e in live && e.severity == Quarantine
               && contracts[i] == Contracted(e.targetMhz, e.vfBinMv, e.contract);
      assert CondemnsUnder(e, clock, mv, contract);
    }
  }
}
