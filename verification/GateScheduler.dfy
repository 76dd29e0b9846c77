/**
 The bounded gate scheduler (docker/support/scripts/run-gates.ts).

 A run is a log of events.  `Enabled` is the scheduler's policy in a state; which running
 gate settles next is the adversary's choice.  `Reference` is a sequential scheduler with
 no concurrency at all; every complete lawful log ends with exactly its results.
 */
module GateScheduler {
  import opened Wrappers
  import opened Digraph
  import opened Sequences
  import opened Numbers
  import opened GateGraph

  datatype Status = Passed | Failed | Skipped

  datatype GateState = Pending | Running | Settled(status: Status)

  datatype GateResult = GateResult(gate: Gate, status: Status, error: Option<string>)

  datatype Scheduler = Scheduler(
    states: map<string, GateState>, results: map<string, GateResult>, running: seq<Gate>)

  datatype Event = Start(gate: Gate) | Settle(slot: nat) | Skip(gate: Gate)

  predicate GatePassed(states: map<string, GateState>, id: string) {
    id in states && states[id].Settled? && states[id].status.Passed?
  }

  predicate GateSettled(states: map<string, GateState>, id: string) {
    id in states && states[id].Settled?
  }

  predicate GateFailed(states: map<string, GateState>, id: string) {
    id in states && states[id].Settled? && (states[id].status.Failed? || states[id].status.Skipped?)
  }

  predicate PredecessorsReady(g: Gate, states: map<string, GateState>) {
    && (forall id :: id in g.needs ==> GatePassed(states, id))
    && (forall id :: id in g.after ==> GateSettled(states, id))
  }

  predicate IsPending(g: Gate, states: map<string, GateState>) {
    g.id in states && states[g.id].Pending?
  }

  predicate Ready(g: Gate, states: map<string, GateState>) {
    IsPending(g, states) && PredecessorsReady(g, states)
  }

  predicate Blocked(g: Gate, states: map<string, GateState>) {
    IsPending(g, states) && exists id :: id in g.needs && GateFailed(states, id)
  }

  /** The first ready gate in list order. */
  function FindReady(gates: seq<Gate>, states: map<string, GateState>): (r: Option<Gate>)
    ensures r.Some? ==> r.value in gates && Ready(r.value, states)
    ensures r.Some? ==>
              exists i :: 0 <= i < |gates| && gates[i] == r.value && forall h :: h in gates[..i] ==> !Ready(h, states)
    ensures r.None? ==> forall g {:trigger Ready(g, states)} :: g in gates ==> !Ready(g, states)
  {
    if gates == [] then None
    else if Ready(gates[0], states) then Some(gates[0])
    else FindReady(gates[1..], states)
  }

  /** The first pending gate in list order with a failed or skipped need. */
  function FindBlocked(gates: seq<Gate>, states: map<string, GateState>): (r: Option<Gate>)
    ensures r.Some? ==> r.value in gates && Blocked(r.value, states)
    ensures r.Some? ==>
              exists i :: 0 <= i < |gates| && gates[i] == r.value && forall h :: h in gates[..i] ==> !Blocked(h, states)
    ensures r.None? ==> forall g {:trigger Blocked(g, states)} :: g in gates ==> !Blocked(g, states)
  {
    if gates == [] then None
    else if Blocked(gates[0], states) then Some(gates[0])
    else FindBlocked(gates[1..], states)
  }

  function FailedDependencies(needs: seq<string>, states: map<string, GateState>): seq<string> {
    if needs == [] then []
    else (if GateFailed(states, needs[0]) then [needs[0]] else []) + FailedDependencies(needs[1..], states)
  }

  function JoinNames(names: seq<string>): string {
    if names == [] then ""
    else if |names| == 1 then names[0]
    else names[0] + ", " + JoinNames(names[1..])
  }

  function SkippedResult(g: Gate, states: map<string, GateState>): GateResult {
    GateResult(g, Skipped, Some("dependency failed or skipped: " + JoinNames(FailedDependencies(g.needs, states))))
  }

  // ---------------------------------------------------------------- transition system

  function Initial(gates: seq<Gate>): Scheduler {
    Scheduler(map id | id in Ids(gates) :: Pending, map[], [])
  }

  predicate Enabled(gates: seq<Gate>, maxActive: int, s: Scheduler, e: Event) {
    match e
    case Start(g) => |s.running| < maxActive && FindReady(gates, s.states) == Some(g)
    case Settle(k) => k < |s.running| && (|s.running| >= maxActive || FindReady(gates, s.states).None?)
    case Skip(g) => s.running == [] && FindReady(gates, s.states).None? && FindBlocked(gates, s.states) == Some(g)
  }

  function Apply(execute: Gate -> GateResult, s: Scheduler, e: Event): Scheduler {
    match e
    case Start(g) => s.(states := s.states[g.id := Running], running := s.running + [g])
    case Settle(k) =>
      if k < |s.running| then
        var g := s.running[k];
        Scheduler(s.states[g.id := Settled(execute(g).status)], s.results[g.id := execute(g)],
                  s.running[..k] + s.running[k + 1..])
      else s
    case Skip(g) =>
      s.(states := s.states[g.id := Settled(Skipped)], results := s.results[g.id := SkippedResult(g, s.states)])
  }

  function After(gates: seq<Gate>, execute: Gate -> GateResult, log: seq<Event>): Scheduler {
    if log == [] then Initial(gates)
    else Apply(execute, After(gates, execute, log[..|log| - 1]), log[|log| - 1])
  }

  predicate Lawful(gates: seq<Gate>, maxActive: int, execute: Gate -> GateResult, log: seq<Event>) {
    log == []
    || (&& Lawful(gates, maxActive, execute, log[..|log| - 1])
        && Enabled(gates, maxActive, After(gates, execute, log[..|log| - 1]), log[|log| - 1]))
  }

  ghost predicate Complete(gates: seq<Gate>, s: Scheduler) {
    s.running == [] && forall g :: g in gates ==> !IsPending(g, s.states)
  }

  // ---------------------------------------------------------------- what every step keeps

  /** The gates in flight are pairwise distinct and are exactly the ones marked running. */
  ghost predicate RunningMatches(gates: seq<Gate>, states: map<string, GateState>, running: seq<Gate>) {
    && states.Keys == Ids(gates)
    && Distinct(running)
    && (forall g :: g in running ==> g in gates && g.id in states && states[g.id].Running?)
    && (forall g :: g in gates && g.id in states && states[g.id].Running? ==> g in running)
  }

  /** Every gate in flight had all its needs passed and everything it waits for settled. */
  ghost predicate AllReady(running: seq<Gate>, states: map<string, GateState>) {
    forall g :: g in running ==> PredecessorsReady(g, states)
  }

  ghost predicate ResultsMatch(states: map<string, GateState>, results: map<string, GateResult>) {
    && (forall id :: id in results <==> GateSettled(states, id))
    && (forall id :: id in results ==> states[id] == Settled(results[id].status))
  }

  ghost predicate Invariant(gates: seq<Gate>, maxActive: int, s: Scheduler) {
    && |s.running| <= maxActive
    && RunningMatches(gates, s.states, s.running)
    && AllReady(s.running, s.states)
    && ResultsMatch(s.states, s.results)
  }

  /** Changing the state of a gate that has not settled never takes readiness away. */
  lemma ReadinessIsMonotone(g: Gate, states: map<string, GateState>, id: string, state: GateState)
    requires PredecessorsReady(g, states) && !GateSettled(states, id)
    ensures PredecessorsReady(g, states[id := state])
  {
  }

  lemma AllReadyIsMonotone(running: seq<Gate>, states: map<string, GateState>, id: string, state: GateState)
    requires AllReady(running, states) && !GateSettled(states, id)
    ensures AllReady(running, states[id := state])
  {
    forall g | g in running ensures PredecessorsReady(g, states[id := state]) {
      ReadinessIsMonotone(g, states, id, state);
    }
  }

  lemma OneMoreReady(running: seq<Gate>, states: map<string, GateState>, g: Gate)
    requires AllReady(running, states) && PredecessorsReady(g, states)
    ensures AllReady(running + [g], states)
  {
  }

  lemma StartKeepsRunning(gates: seq<Gate>, states: map<string, GateState>, running: seq<Gate>, g: Gate)
    requires UniqueIds(gates) && RunningMatches(gates, states, running) && g in gates && IsPending(g, states)
    ensures RunningMatches(gates, states[g.id := Running], running + [g])
  {
    assert g !in running;
    forall h | h in gates && h.id == g.id ensures h == g {
      SameId(gates, g, h);
    }
  }

  lemma SettleKeepsRunning(gates: seq<Gate>, states: map<string, GateState>, running: seq<Gate>, k: nat, r: Status)
    requires UniqueIds(gates) && RunningMatches(gates, states, running) && k < |running|
    ensures RunningMatches(gates, states[running[k].id := Settled(r)], running[..k] + running[k + 1..])
  {
    assert running[k] in running;
    forall h | h in gates && h.id == running[k].id ensures h == running[k] {
      SameId(gates, running[k], h);
    }
  }

  lemma SkipKeepsRunning(gates: seq<Gate>, states: map<string, GateState>, running: seq<Gate>, g: Gate)
    requires RunningMatches(gates, states, running) && g in gates && IsPending(g, states)
    ensures RunningMatches(gates, states[g.id := Settled(Skipped)], running)
  {
  }

  lemma SettlingKeepsResults(
      states: map<string, GateState>, results: map<string, GateResult>, id: string, r: GateResult)
    requires ResultsMatch(states, results) && !GateSettled(states, id)
    ensures ResultsMatch(states[id := Settled(r.status)], results[id := r])
    ensures ResultsMatch(states[id := Running], results)
  {
  }

  lemma StepKeepsInvariant(gates: seq<Gate>, maxActive: int, execute: Gate -> GateResult, s: Scheduler, e: Event)
    requires UniqueIds(gates) && Invariant(gates, maxActive, s) && Enabled(gates, maxActive, s, e)
    ensures Invariant(gates, maxActive, Apply(execute, s, e))
  {
    hide RunningMatches, AllReady, ResultsMatch;
    match e
    case Start(g) =>
      StartKeepsRunning(gates, s.states, s.running, g);
      OneMoreReady(s.running, s.states, g);
      AllReadyIsMonotone(s.running + [g], s.states, g.id, Running);
      SettlingKeepsResults(s.states, s.results, g.id, SkippedResult(g, s.states));
    case Settle(k) =>
      var g := s.running[k];
      InFlight(gates, maxActive, s, k);
      SettleKeepsRunning(gates, s.states, s.running, k, execute(g).status);
      AllReadyIsMonotone(s.running[..k] + s.running[k + 1..], s.states, g.id, Settled(execute(g).status));
      SettlingKeepsResults(s.states, s.results, g.id, execute(g));
    case Skip(g) =>
      SkipKeepsRunning(gates, s.states, s.running, g);
      AllReadyIsMonotone(s.running, s.states, g.id, Settled(Skipped));
      SettlingKeepsResults(s.states, s.results, g.id, SkippedResult(g, s.states));
  }

  lemma InFlight(gates: seq<Gate>, maxActive: int, s: Scheduler, k: nat)
    requires Invariant(gates, maxActive, s) && k < |s.running|
    ensures s.running[k] in gates && s.running[k].id in s.states && s.states[s.running[k].id].Running?
    ensures AllReady(s.running[..k] + s.running[k + 1..], s.states)
  {
    assert s.running[k] in s.running;
  }

  lemma NothingRunning(gates: seq<Gate>, maxActive: int, s: Scheduler)
    requires Invariant(gates, maxActive, s) && s.running == []
    ensures forall id :: id in s.states ==> !s.states[id].Running?
  {
    forall id | id in s.states ensures !s.states[id].Running? {
      var g :| g in gates && g.id == id;
      assert g !in s.running;
    }
  }

  function PendingIds(states: map<string, GateState>): set<string> {
    set id | id in states && states[id].Pending?
  }

  /** Twice the gates not yet started plus the gates in flight: a bound on the events still to come. */
  function Remaining(s: Scheduler): nat {
    2 * |PendingIds(s.states)| + |s.running|
  }

  lemma StepConsumes(gates: seq<Gate>, maxActive: int, execute: Gate -> GateResult, s: Scheduler, e: Event)
    requires Invariant(gates, maxActive, s) && Enabled(gates, maxActive, s, e)
    ensures Remaining(Apply(execute, s, e)) < Remaining(s)
  {
    hide RunningMatches, AllReady, ResultsMatch;
    match e
    case Start(g) => LeavingPending(s.states, g, Running);
    case Settle(k) =>
      InFlight(gates, maxActive, s, k);
      StayingUnpending(s.states, s.running[k], Settled(execute(s.running[k]).status));
    case Skip(g) => LeavingPending(s.states, g, Settled(Skipped));
  }

  lemma LeavingPending(states: map<string, GateState>, g: Gate, state: GateState)
    requires IsPending(g, states) && !state.Pending?
    ensures |PendingIds(states[g.id := state])| == |PendingIds(states)| - 1
  {
    assert PendingIds(states[g.id := state]) == PendingIds(states) - {g.id};
  }

  lemma StayingUnpending(states: map<string, GateState>, g: Gate, state: GateState)
    requires g.id in states && !states[g.id].Pending? && !state.Pending?
    ensures PendingIds(states[g.id := state]) == PendingIds(states)
  {
  }

  /** Safety over whole runs, and the bound that makes every run finite. */
  lemma {:induction false} LawfulRunsAreSafe(
      gates: seq<Gate>, maxActive: int, execute: Gate -> GateResult, log: seq<Event>)
    requires UniqueIds(gates) && maxActive >= 1 && Lawful(gates, maxActive, execute, log)
    ensures Invariant(gates, maxActive, After(gates, execute, log))
    ensures |log| + Remaining(After(gates, execute, log)) <= 2 * |Ids(gates)|
  {
    if log == [] {
      assert PendingIds(Initial(gates).states) == Ids(gates);
    } else {
      var before := log[..|log| - 1];
      LawfulRunsAreSafe(gates, maxActive, execute, before);
      StepKeepsInvariant(gates, maxActive, execute, After(gates, execute, before), log[|log| - 1]);
      StepConsumes(gates, maxActive, execute, After(gates, execute, before), log[|log| - 1]);
    }
  }

  lemma SettledPredecessorsDecide(g: Gate, states: map<string, GateState>)
    requires IsPending(g, states) && forall d {:trigger WaitsFor(g, d)} :: WaitsFor(g, d) ==> GateSettled(states, d)
    ensures Ready(g, states) || Blocked(g, states)
  {
    if !PredecessorsReady(g, states) {
      forall d | d in g.needs || d in g.after ensures GateSettled(states, d) {
        assert WaitsFor(g, d);
      }
      var d :| d in g.needs && !GatePassed(states, d);
      assert GateFailed(states, d);
    }
  }

  /** A pending gate of an acyclic aggregate is never stuck: some gate is ready, or some gate is blocked. */
  lemma NeverStalls(gates: seq<Gate>, states: map<string, GateState>)
    requires Executable(gates) && states.Keys == Ids(gates)
    requires forall id :: id in states ==> !states[id].Running?
    requires exists g :: g in gates && IsPending(g, states)
    ensures FindReady(gates, states).Some? || FindBlocked(gates, states).Some?
  {
    var pending := PendingIds(states);
    var w :| w in gates && IsPending(w, states);
    assert w.id in pending;
    var g := UnobstructedGate(gates, pending);
    SettledPredecessorsDecide(g, states);
    assert Ready(g, states) || Blocked(g, states);
  }

  /** Progress: from every reachable incomplete state some event is enabled. */
  lemma EveryIncompleteRunCanContinue(
      gates: seq<Gate>, maxActive: int, execute: Gate -> GateResult, log: seq<Event>) returns (e: Event)
    requires Executable(gates) && maxActive >= 1 && Lawful(gates, maxActive, execute, log)
    requires !Complete(gates, After(gates, execute, log))
    ensures Lawful(gates, maxActive, execute, log + [e])
  {
    assert UniqueIds(gates);
    hide Executable, Complete, Invariant, Enabled;
    LawfulRunsAreSafe(gates, maxActive, execute, log);
    e := SomeEvent(gates, maxActive, After(gates, execute, log));
    assert (log + [e])[..|log|] == log;
  }

  lemma SomeEvent(gates: seq<Gate>, maxActive: int, s: Scheduler) returns (e: Event)
    requires Executable(gates) && maxActive >= 1 && Invariant(gates, maxActive, s) && !Complete(gates, s)
    ensures Enabled(gates, maxActive, s, e)
  {
    if |s.running| < maxActive && FindReady(gates, s.states).Some? {
      e := Start(FindReady(gates, s.states).value);
    } else if s.running != [] {
      e := Settle(0);
    } else {
      NothingRunning(gates, maxActive, s);
      NeverStalls(gates, s.states);
      e := Skip(FindBlocked(gates, s.states).value);
    }
  }

  // ---------------------------------------------------------------- sequential reference

  function StatesOf(gates: seq<Gate>, settled: map<string, GateResult>): map<string, GateState> {
    map id | id in Ids(gates) :: if id in settled then Settled(settled[id].status) else Pending
  }

  /** Run gates one at a time: the first ready one, or else skip the first blocked one. */
  function Reference(gates: seq<Gate>, execute: Gate -> GateResult, settled: map<string, GateResult>)
    : map<string, GateResult>
    decreases |Ids(gates) - settled.Keys|
  {
    var states := StatesOf(gates, settled);
    match FindReady(gates, states)
    case Some(g) =>
      Shrinks(gates, settled, g, execute(g));
      Reference(gates, execute, settled[g.id := execute(g)])
    case None =>
      match FindBlocked(gates, states)
      case Some(g) =>
        Shrinks(gates, settled, g, SkippedResult(g, states));
        Reference(gates, execute, settled[g.id := SkippedResult(g, states)])
      case None => settled
  }

  lemma Shrinks(gates: seq<Gate>, settled: map<string, GateResult>, g: Gate, r: GateResult)
    requires g in gates && IsPending(g, StatesOf(gates, settled))
    ensures |Ids(gates) - settled[g.id := r].Keys| < |Ids(gates) - settled.Keys|
  {
    assert Ids(gates) - settled[g.id := r].Keys == Ids(gates) - settled.Keys - {g.id};
  }

  lemma FirstReadyRuns(gates: seq<Gate>, execute: Gate -> GateResult, settled: map<string, GateResult>, f: Gate)
    requires FindReady(gates, StatesOf(gates, settled)) == Some(f)
    ensures Reference(gates, execute, settled) == Reference(gates, execute, settled[f.id := execute(f)])
  {
  }

  lemma FirstBlockedIsSkipped(
      gates: seq<Gate>, execute: Gate -> GateResult, settled: map<string, GateResult>, g: Gate)
    requires FindReady(gates, StatesOf(gates, settled)).None?
    requires FindBlocked(gates, StatesOf(gates, settled)) == Some(g)
    ensures Reference(gates, execute, settled)
            == Reference(gates, execute, settled[g.id := SkippedResult(g, StatesOf(gates, settled))])
  {
  }

  lemma StaysReady(gates: seq<Gate>, settled: map<string, GateResult>, g: Gate, h: Gate, r: GateResult)
    requires Ready(g, StatesOf(gates, settled)) && IsPending(h, StatesOf(gates, settled)) && h.id != g.id
    ensures Ready(g, StatesOf(gates, settled[h.id := r]))
  {
    var states := StatesOf(gates, settled);
    assert StatesOf(gates, settled[h.id := r]) == states[h.id := Settled(r.status)];
    ReadinessIsMonotone(g, states, h.id, Settled(r.status));
  }

  lemma UpdatesCommute<K, V>(m: map<K, V>, a: K, x: V, b: K, y: V)
    requires a != b
    ensures m[a := x][b := y] == m[b := y][a := x]
  {
  }

  /** Diamond: executing any ready gate first, whichever it is, leads to the same results. */
  lemma {:induction false} ReadyGatesCommute(
      gates: seq<Gate>, execute: Gate -> GateResult, settled: map<string, GateResult>, g: Gate)
    requires UniqueIds(gates) && g in gates && Ready(g, StatesOf(gates, settled))
    ensures Reference(gates, execute, settled) == Reference(gates, execute, settled[g.id := execute(g)])
    decreases |Ids(gates) - settled.Keys|
  {
    hide Reference, StatesOf, FindReady;
    var f := FindReady(gates, StatesOf(gates, settled)).value;
    FirstReadyRuns(gates, execute, settled, f);
    if f.id == g.id {
      SameId(gates, f, g);
    } else {
      var first, other := settled[f.id := execute(f)], settled[g.id := execute(g)];
      Shrinks(gates, settled, f, execute(f));
      Shrinks(gates, settled, g, execute(g));
      StaysReady(gates, settled, g, f, execute(f));
      StaysReady(gates, settled, f, g, execute(g));
      ReadyGatesCommute(gates, execute, first, g);
      ReadyGatesCommute(gates, execute, other, f);
      UpdatesCommute(settled, f.id, execute(f), g.id, execute(g));
    }
  }

  lemma SettleFollowsReference(gates: seq<Gate>, maxActive: int, execute: Gate -> GateResult, s: Scheduler, k: nat)
    requires UniqueIds(gates) && Invariant(gates, maxActive, s) && k < |s.running|
    ensures Reference(gates, execute, Apply(execute, s, Settle(k)).results) == Reference(gates, execute, s.results)
  {
    hide Reference;
    var g := s.running[k];
    assert g in s.running && g.id in Ids(gates);
    ReadyGatesCommute(gates, execute, s.results, g);
  }

  lemma SkipFollowsReference(gates: seq<Gate>, maxActive: int, execute: Gate -> GateResult, s: Scheduler, g: Gate)
    requires UniqueIds(gates) && Invariant(gates, maxActive, s) && Enabled(gates, maxActive, s, Skip(g))
    ensures Reference(gates, execute, Apply(execute, s, Skip(g)).results) == Reference(gates, execute, s.results)
  {
    hide Reference;
    NothingRunning(gates, maxActive, s);
    assert StatesOf(gates, s.results) == s.states;
    FirstBlockedIsSkipped(gates, execute, s.results, g);
  }

  /** At every point of every run, what the sequential scheduler would still compute is unchanged. */
  lemma {:induction false} RunsFollowReference(
      gates: seq<Gate>, maxActive: int, execute: Gate -> GateResult, log: seq<Event>)
    requires UniqueIds(gates) && maxActive >= 1 && Lawful(gates, maxActive, execute, log)
    ensures Reference(gates, execute, After(gates, execute, log).results) == Reference(gates, execute, map[])
  {
    hide Reference;
    if log != [] {
      var before := log[..|log| - 1];
      RunsFollowReference(gates, maxActive, execute, before);
      LawfulRunsAreSafe(gates, maxActive, execute, before);
      match log[|log| - 1]
      case Start(g) =>
      case Settle(k) => SettleFollowsReference(gates, maxActive, execute, After(gates, execute, before), k);
      case Skip(g) => SkipFollowsReference(gates, maxActive, execute, After(gates, execute, before), g);
    }
  }

  lemma EverythingSettled(gates: seq<Gate>, maxActive: int, s: Scheduler)
    requires Invariant(gates, maxActive, s) && Complete(gates, s)
    ensures s.results.Keys == Ids(gates)
    ensures FindReady(gates, StatesOf(gates, s.results)).None? && FindBlocked(gates, StatesOf(gates, s.results)).None?
  {
    NothingRunning(gates, maxActive, s);
    forall id | id in Ids(gates) ensures id in s.results {
      var g :| g in gates && g.id == id;
      assert !IsPending(g, s.states);
    }
  }

  /** A complete run ends with exactly the sequential scheduler's results. */
  lemma CompleteRunsMeetReference(
      gates: seq<Gate>, maxActive: int, execute: Gate -> GateResult, log: seq<Event>)
    requires UniqueIds(gates) && maxActive >= 1 && Lawful(gates, maxActive, execute, log)
    requires Complete(gates, After(gates, execute, log))
    ensures After(gates, execute, log).results == Reference(gates, execute, map[])
    ensures After(gates, execute, log).results.Keys == Ids(gates)
  {
    hide Reference, StatesOf, Lawful;
    RunsFollowReference(gates, maxActive, execute, log);
    LawfulRunsAreSafe(gates, maxActive, execute, log);
    EverythingSettled(gates, maxActive, After(gates, execute, log));
    ReferenceStops(gates, execute, After(gates, execute, log).results);
  }

  /** Schedule independence: concurrency limit and completion order never change a result, not even its text. */
  lemma ScheduleIndependence(
      gates: seq<Gate>, execute: Gate -> GateResult, max1: int, log1: seq<Event>, max2: int, log2: seq<Event>)
    requires UniqueIds(gates) && max1 >= 1 && max2 >= 1
    requires Lawful(gates, max1, execute, log1) && Complete(gates, After(gates, execute, log1))
    requires Lawful(gates, max2, execute, log2) && Complete(gates, After(gates, execute, log2))
    ensures After(gates, execute, log1).results == After(gates, execute, log2).results
  {
    CompleteRunsMeetReference(gates, max1, execute, log1);
    CompleteRunsMeetReference(gates, max2, execute, log2);
  }

  // ---------------------------------------------------------------- meaning of the results

  predicate Failing(results: map<string, GateResult>, id: string) {
    id in results && !results[id].status.Passed?
  }

  predicate HasFailingNeed(g: Gate, results: map<string, GateResult>) {
    exists d :: d in g.needs && Failing(results, d)
  }

  /** Skipped exactly behind a failed or skipped need; otherwise the executor's own result. */
  ghost predicate Coherent(gates: seq<Gate>, execute: Gate -> GateResult, results: map<string, GateResult>) {
    && results.Keys == Ids(gates)
    && forall g :: g in gates ==>
         if HasFailingNeed(g, results) then results[g.id].status.Skipped? && results[g.id].error.Some?
         else results[g.id] == execute(g)
  }

  ghost predicate CoherentSoFar(gates: seq<Gate>, execute: Gate -> GateResult, settled: map<string, GateResult>) {
    && settled.Keys <= Ids(gates)
    && forall g :: g in gates && g.id in settled ==>
         || (HasFailingNeed(g, settled) && settled[g.id].status.Skipped? && settled[g.id].error.Some?)
         || ((forall d :: d in g.needs ==> d in settled && settled[d].status.Passed?) && settled[g.id] == execute(g))
  }

  lemma ExtendCoherence(
      gates: seq<Gate>, execute: Gate -> GateResult, settled: map<string, GateResult>, g: Gate, r: GateResult)
    requires UniqueIds(gates) && g in gates && CoherentSoFar(gates, execute, settled) && g.id !in settled
    requires || (HasFailingNeed(g, settled) && r.status.Skipped? && r.error.Some?)
             || ((forall d :: d in g.needs ==> d in settled && settled[d].status.Passed?) && r == execute(g))
    ensures CoherentSoFar(gates, execute, settled[g.id := r])
  {
    var more := settled[g.id := r];
    forall id | Failing(settled, id) ensures Failing(more, id) {
    }
    forall h | h in gates && h.id in more
      ensures || (HasFailingNeed(h, more) && more[h.id].status.Skipped? && more[h.id].error.Some?)
              || ((forall d :: d in h.needs ==> d in more && more[d].status.Passed?) && more[h.id] == execute(h))
    {
      if h.id == g.id {
        SameId(gates, g, h);
      }
      if HasFailingNeed(h, settled) {
        var d :| d in h.needs && Failing(settled, d);
        assert Failing(more, d);
      }
    }
  }

  lemma PassedNeeds(gates: seq<Gate>, settled: map<string, GateResult>, g: Gate)
    requires Ready(g, StatesOf(gates, settled))
    ensures g.id !in settled && forall d :: d in g.needs ==> d in settled && settled[d].status.Passed?
  {
    forall d | d in g.needs ensures d in settled && settled[d].status.Passed? {
      assert GatePassed(StatesOf(gates, settled), d);
    }
  }

  lemma FailedNeed(gates: seq<Gate>, settled: map<string, GateResult>, g: Gate)
    requires Blocked(g, StatesOf(gates, settled))
    ensures g.id !in settled && HasFailingNeed(g, settled)
  {
    var d :| d in g.needs && GateFailed(StatesOf(gates, settled), d);
    assert Failing(settled, d);
  }

  lemma NothingLeft(gates: seq<Gate>, settled: map<string, GateResult>)
    requires Executable(gates)
    requires FindReady(gates, StatesOf(gates, settled)).None? && FindBlocked(gates, StatesOf(gates, settled)).None?
    ensures Ids(gates) <= settled.Keys
  {
    forall id | id in Ids(gates) ensures id in settled {
      if id !in settled {
        var g :| g in gates && g.id == id;
        assert IsPending(g, StatesOf(gates, settled));
        NeverStalls(gates, StatesOf(gates, settled));
      }
    }
  }

  lemma {:induction false} ReferenceIsCoherent(
      gates: seq<Gate>, execute: Gate -> GateResult, settled: map<string, GateResult>)
    requires Executable(gates) && CoherentSoFar(gates, execute, settled)
    ensures CoherentSoFar(gates, execute, Reference(gates, execute, settled))
    ensures Reference(gates, execute, settled).Keys == Ids(gates)
    decreases |Ids(gates) - settled.Keys|
  {
    hide Reference, StatesOf, FindReady, FindBlocked, CoherentSoFar, PredecessorsReady;
    var states := StatesOf(gates, settled);
    if FindReady(gates, states).Some? {
      var g := FindReady(gates, states).value;
      FirstReadyRuns(gates, execute, settled, g);
      Shrinks(gates, settled, g, execute(g));
      PassedNeeds(gates, settled, g);
      ExtendCoherence(gates, execute, settled, g, execute(g));
      ReferenceIsCoherent(gates, execute, settled[g.id := execute(g)]);
    } else if FindBlocked(gates, states).Some? {
      var g := FindBlocked(gates, states).value;
      var skipped := SkippedResult(g, states);
      FirstBlockedIsSkipped(gates, execute, settled, g);
      Shrinks(gates, settled, g, skipped);
      FailedNeed(gates, settled, g);
      ExtendCoherence(gates, execute, settled, g, skipped);
      ReferenceIsCoherent(gates, execute, settled[g.id := skipped]);
    } else {
      NothingLeft(gates, settled);
      ReferenceStops(gates, execute, settled);
      SettledAreKnown(gates, execute, settled);
    }
  }

  lemma ReferenceStops(gates: seq<Gate>, execute: Gate -> GateResult, settled: map<string, GateResult>)
    requires FindReady(gates, StatesOf(gates, settled)).None? && FindBlocked(gates, StatesOf(gates, settled)).None?
    ensures Reference(gates, execute, settled) == settled
  {
  }

  lemma SettledAreKnown(gates: seq<Gate>, execute: Gate -> GateResult, settled: map<string, GateResult>)
    requires CoherentSoFar(gates, execute, settled)
    ensures settled.Keys <= Ids(gates)
  {
  }

  /** What a complete run of a validated aggregate means, whatever its schedule. */
  lemma CompleteRunsAreCoherent(
      gates: seq<Gate>, maxActive: int, execute: Gate -> GateResult, log: seq<Event>)
    requires Executable(gates) && maxActive >= 1 && Lawful(gates, maxActive, execute, log)
    requires Complete(gates, After(gates, execute, log))
    ensures Coherent(gates, execute, After(gates, execute, log).results)
  {
    CompleteRunsMeetReference(gates, maxActive, execute, log);
    ReferenceIsCoherent(gates, execute, map[]);
  }

  /** The status half of coherence, in which `after` edges and error texts do not occur. */
  ghost predicate Decided(gates: seq<Gate>, execute: Gate -> GateResult, results: map<string, GateResult>) {
    && Ids(gates) <= results.Keys
    && forall g :: g in gates ==>
         g.id in results && results[g.id].status == if HasFailingNeed(g, results) then Skipped else execute(g).status
  }

  /** The meaning is unique: at most one status map skips and runs the gates as described. */
  lemma DecidedStatusesAreUnique(
      gates: seq<Gate>, execute: Gate -> GateResult, r1: map<string, GateResult>, r2: map<string, GateResult>)
    requires Executable(gates) && Decided(gates, execute, r1) && Decided(gates, execute, r2)
    ensures forall id :: id in Ids(gates) ==> r1[id].status == r2[id].status
  {
    var differ := set id | id in Ids(gates) && r1[id].status != r2[id].status;
    if differ != {} {
      var g := UnobstructedGate(gates, differ);
      forall d | d in g.needs ensures Failing(r1, d) <==> Failing(r2, d) {
        assert WaitsFor(g, d);
      }
      assert false;
    }
    forall id | id in Ids(gates) ensures r1[id].status == r2[id].status {
      assert id !in differ;
    }
  }

  function WithoutAfter(gates: seq<Gate>): seq<Gate> {
    seq(|gates|, i requires 0 <= i < |gates| => gates[i].(after := []))
  }

  lemma WithoutAfterIsExecutable(gates: seq<Gate>)
    requires Executable(gates)
    ensures Executable(WithoutAfter(gates)) && Ids(WithoutAfter(gates)) == Ids(gates)
    ensures forall g :: g in gates ==> g.(after := []) in WithoutAfter(gates)
  {
    var bare := WithoutAfter(gates);
    forall g | g in gates ensures g.(after := []) in bare {
      var i :| 0 <= i < |gates| && gates[i] == g;
      assert bare[i] == g.(after := []);
    }
    forall h | h in bare ensures Original(gates, h) in gates && h == Original(gates, h).(after := []) {
      var i :| 0 <= i < |bare| && bare[i] == h;
      assert gates[i] in gates;
    }
    forall id ensures id in Ids(bare) <==> id in Ids(gates) {
      if id in Ids(gates) {
        var g :| g in gates && g.id == id;
        assert g.(after := []) in bare;
      }
    }
    forall g, d | g in bare && WaitsFor(g, d) ensures d in Ids(bare) {
      assert WaitsFor(Original(gates, g), d);
    }
    var graph, bareGraph := Predecessors(ById(gates)), Predecessors(ById(bare));
    forall a, b | Edge(bareGraph, a, b) ensures Edge(graph, a, b) {
      SameId(gates, LastNamed(gates, a), Original(gates, LastNamed(bare, a)));
    }
    forall p ensures !ClosedWalk(bareGraph, p) {
      if ClosedWalk(bareGraph, p) {
        assert ClosedWalk(graph, p);
      }
    }
  }

  ghost function Original(gates: seq<Gate>, h: Gate): (g: Gate)
    requires h in WithoutAfter(gates)
    ensures g in gates && h == g.(after := [])
  {
    var bare := WithoutAfter(gates);
    var i :| 0 <= i < |bare| && bare[i] == h;
    assert gates[i] in gates;
    gates[i]
  }

  lemma BareRunsDecide(gates: seq<Gate>, execute: Gate -> GateResult, results: map<string, GateResult>)
    requires Executable(gates) && Coherent(WithoutAfter(gates), execute, results)
    requires forall g :: g in gates ==> execute(g.(after := [])).status == execute(g).status
    ensures Decided(gates, execute, results)
  {
    WithoutAfterIsExecutable(gates);
    forall g | g in gates
      ensures g.id in results
      ensures results[g.id].status == if HasFailingNeed(g, results) then Skipped else execute(g).status
    {
      assert g.(after := []) in WithoutAfter(gates);
      assert HasFailingNeed(g, results) <==> HasFailingNeed(g.(after := []), results);
    }
  }

  /** `after` edges only delay: removing all of them leaves every final status as it was. */
  lemma AfterEdgesOnlyDelay(
      gates: seq<Gate>, execute: Gate -> GateResult, max1: int, log1: seq<Event>, max2: int, log2: seq<Event>)
    requires Executable(gates) && max1 >= 1 && max2 >= 1
    requires forall g :: g in gates ==> execute(g.(after := [])).status == execute(g).status
    requires Lawful(gates, max1, execute, log1) && Complete(gates, After(gates, execute, log1))
    requires Lawful(WithoutAfter(gates), max2, execute, log2)
    requires Complete(WithoutAfter(gates), After(WithoutAfter(gates), execute, log2))
    ensures After(gates, execute, log1).results.Keys == After(WithoutAfter(gates), execute, log2).results.Keys
    ensures forall id :: id in After(gates, execute, log1).results ==>
              After(gates, execute, log1).results[id].status
                  == After(WithoutAfter(gates), execute, log2).results[id].status
  {
    hide Lawful, Complete, After;
    WithoutAfterIsExecutable(gates);
    CompleteRunsAreCoherent(gates, max1, execute, log1);
    CompleteRunsAreCoherent(WithoutAfter(gates), max2, execute, log2);
    var r1, r2 := After(gates, execute, log1).results, After(WithoutAfter(gates), execute, log2).results;
    BareRunsDecide(gates, execute, r2);
    DecidedStatusesAreUnique(gates, execute, r1, r2);
  }

  // ---------------------------------------------------------------- events in terms of results

  /** The gate has not begun, every gate it needs has passed and every gate it waits for has a result. */
  ghost predicate MayStart(s: Scheduler, g: Gate) {
    && g.id !in s.results && g !in s.running
    && (forall d :: d in g.needs ==> d in s.results && s.results[d].status == Passed)
    && (forall d :: d in g.after ==> d in s.results)
  }

  /** The gate has not begun and some gate it needs failed or was skipped. */
  ghost predicate CannotStart(s: Scheduler, g: Gate) {
    && g.id !in s.results && g !in s.running
    && exists d :: d in g.needs && d in s.results && s.results[d].status != Passed
  }

  ghost predicate FirstOf(gates: seq<Gate>, g: Gate, p: Gate -> bool) {
    exists i :: 0 <= i < |gates| && gates[i] == g && p(g) && forall h :: h in gates[..i] ==> !p(h)
  }

  lemma ReadyMeansMayStart(gates: seq<Gate>, maxActive: int, s: Scheduler, g: Gate)
    requires Invariant(gates, maxActive, s) && g in gates
    ensures Ready(g, s.states) <==> MayStart(s, g)
    ensures Blocked(g, s.states) <==> CannotStart(s, g)
  {
    assert g.id in s.states;
    assert IsPending(g, s.states) <==> g.id !in s.results && g !in s.running;
  }

  /**
   What may happen in a run, told from the results alone: the first gate in list order that may
   start does so, while there is room; a running gate is waited for only when there is no room or
   nothing may start; and with nothing running the first gate that cannot start any more is skipped.
   */
  ghost predicate Permitted(gates: seq<Gate>, maxActive: int, s: Scheduler, e: Event) {
    match e
    case Start(g) => |s.running| < maxActive && FirstOf(gates, g, h => MayStart(s, h))
    case Settle(k) => k < |s.running| && (|s.running| == maxActive || forall g :: g in gates ==> !MayStart(s, g))
    case Skip(g) =>
      && s.running == [] && (forall h :: h in gates ==> !MayStart(s, h))
      && FirstOf(gates, g, h => CannotStart(s, h))
  }

  lemma EnabledIsPermitted(gates: seq<Gate>, maxActive: int, s: Scheduler, e: Event)
    requires Invariant(gates, maxActive, s) && Enabled(gates, maxActive, s, e)
    ensures Permitted(gates, maxActive, s, e)
  {
    forall g | g in gates
      ensures Ready(g, s.states) <==> MayStart(s, g)
      ensures Blocked(g, s.states) <==> CannotStart(s, g)
    {
      ReadyMeansMayStart(gates, maxActive, s, g);
    }
    assert |s.running| <= maxActive;
    hide Ready, Blocked, MayStart, CannotStart, Invariant;
  }

  lemma {:induction false} LawfulPrefix(
      gates: seq<Gate>, maxActive: int, execute: Gate -> GateResult, log: seq<Event>, i: nat)
    requires Lawful(gates, maxActive, execute, log) && i < |log|
    ensures Lawful(gates, maxActive, execute, log[..i])
    ensures Enabled(gates, maxActive, After(gates, execute, log[..i]), log[i])
    decreases |log|
  {
    hide Enabled, After;
    if i < |log| - 1 {
      LawfulPrefix(gates, maxActive, execute, log[..|log| - 1], i);
      assert log[..|log| - 1][..i] == log[..i];
    }
  }

  /** Every event of every run is permitted where it happens. */
  lemma RunsDoOnlyThis(gates: seq<Gate>, maxActive: int, execute: Gate -> GateResult, log: seq<Event>, i: nat)
    requires UniqueIds(gates) && maxActive >= 1 && Lawful(gates, maxActive, execute, log) && i < |log|
    ensures Permitted(gates, maxActive, After(gates, execute, log[..i]), log[i])
  {
    LawfulPrefix(gates, maxActive, execute, log, i);
    LawfulRunsAreSafe(gates, maxActive, execute, log[..i]);
    EnabledIsPermitted(gates, maxActive, After(gates, execute, log[..i]), log[i]);
  }

  lemma {:induction false} FailedDependenciesAreTheFailing(needs: seq<string>, states: map<string, GateState>)
    ensures FailedDependencies(needs, states) == Filter(needs, (d: string) => GateFailed(states, d))
  {
    if needs != [] {
      FailedDependenciesAreTheFailing(needs[1..], states);
    }
  }

  /** Names are separated by a comma and a blank. */
  lemma {:induction false} JoinNamesSeparates(names: seq<string>, last: string)
    ensures JoinNames(names + [last]) == if names == [] then last else JoinNames(names) + ", " + last
  {
    if names != [] {
      assert (names + [last])[1..] == names[1..] + [last];
      JoinNamesSeparates(names[1..], last);
    }
  }

  /** A skipped gate's reason names, in the order of its needs, exactly those failed or skipped by then. */
  lemma SkipNamesTheFailing(gates: seq<Gate>, maxActive: int, execute: Gate -> GateResult, s: Scheduler, g: Gate)
    requires Invariant(gates, maxActive, s) && Enabled(gates, maxActive, s, Skip(g))
    ensures var named := Filter(g.needs, (d: string) => d in s.results && s.results[d].status != Passed);
            && named != []
            && Apply(execute, s, Skip(g)).results
               == s.results[g.id := GateResult(g, Skipped, Some("dependency failed or skipped: " + JoinNames(named)))]
  {
    FailedDependenciesAreTheFailing(g.needs, s.states);
    FilterAgree(g.needs, (d: string) => GateFailed(s.states, d),
                (d: string) => d in s.results && s.results[d].status != Passed);
    var d :| d in g.needs && GateFailed(s.states, d);
    assert d in Filter(g.needs, (x: string) => GateFailed(s.states, x));
  }

  // ---------------------------------------------------------------- the scheduler itself

  datatype RunError =
    | InvalidGraph(error: GraphError)
    | InvalidConcurrency(maxActive: int)
    | Stalled
    | MissingResult(id: string)

  /** One more enabled event: the log stays lawful and its state is the stepped state. */
  lemma ExtendRun(
      gates: seq<Gate>, maxActive: int, execute: Gate -> GateResult, log: seq<Event>, s: Scheduler, e: Event)
    requires UniqueIds(gates) && maxActive >= 1
    requires Lawful(gates, maxActive, execute, log) && After(gates, execute, log) == s
    requires Enabled(gates, maxActive, s, e)
    ensures Lawful(gates, maxActive, execute, log + [e]) && After(gates, execute, log + [e]) == Apply(execute, s, e)
    ensures Invariant(gates, maxActive, Apply(execute, s, e))
    ensures |log| + 1 + Remaining(Apply(execute, s, e)) <= 2 * |Ids(gates)|
  {
    assert (log + [e])[..|log|] == log;
    LawfulRunsAreSafe(gates, maxActive, execute, log + [e]);
  }

  lemma QuiescentRun(gates: seq<Gate>, maxActive: int, s: Scheduler)
    requires Executable(gates) && Invariant(gates, maxActive, s) && s.running == []
    requires FindReady(gates, s.states).None?
    ensures FindBlocked(gates, s.states).None? <==> Complete(gates, s)
  {
    NothingRunning(gates, maxActive, s);
    if !Complete(gates, s) {
      NeverStalls(gates, s.states);
    }
  }

  method CollectResults(gates: seq<Gate>, results: map<string, GateResult>)
    returns (r: Result<seq<GateResult>, RunError>)
    ensures r.Success? <==> Ids(gates) <= results.Keys
    ensures r.Success? ==> |r.value| == |gates|
    ensures r.Success? ==>
              forall i :: 0 <= i < |gates| ==> gates[i].id in results && r.value[i] == results[gates[i].id]
  {
    var ordered: seq<GateResult> := [];
    for i := 0 to |gates|
      invariant |ordered| == i
      invariant forall j :: 0 <= j < i ==> gates[j].id in results && ordered[j] == results[gates[j].id]
    {
      if gates[i].id !in results {
        assert gates[i].id in Ids(gates);
        return Failure(MissingResult(gates[i].id));
      }
      ordered := ordered + [results[gates[i].id]];
    }
    return Success(ordered);
  }

  /**
   Every run of the scheduler, for every order in which running gates settle: it ends, its
   log is lawful and complete, and it returns one result per gate in list order.  The two
   internal errors (a stall, a missing result) never occur.
   */
  method RunGates(gates: seq<Gate>, maxActive: int, execute: Gate -> GateResult)
    returns (r: Result<seq<GateResult>, RunError>, log: seq<Event>)
    ensures r.Success? <==> Executable(gates) && 1 <= maxActive <= 9007199254740991
    ensures r.Failure? ==> log == []
    ensures r.Failure? ==>
              || (r.error.InvalidGraph? && Describes(gates, r.error.error))
              || (r.error == InvalidConcurrency(maxActive) && Executable(gates))
    ensures r.Success? ==>
              && Lawful(gates, maxActive, execute, log) && Complete(gates, After(gates, execute, log))
              && |r.value| == |gates|
              && forall i :: 0 <= i < |gates| ==>
                   && gates[i].id in Reference(gates, execute, map[])
                   && r.value[i] == Reference(gates, execute, map[])[gates[i].id]
  {
    hide Lawful, After, Reference, Complete, Invariant, Remaining;
    log := [];
    var valid := ValidateGateGraph(gates);
    if valid.Failure? {
      return Failure(InvalidGraph(valid.error)), [];
    }
    if maxActive < 1 || maxActive > MAX_SAFE_INTEGER {
      return Failure(InvalidConcurrency(maxActive)), [];
    }
    var states: map<string, GateState> := map id | id in Ids(gates) :: Pending;
    var results: map<string, GateResult> := map[];
    var running: seq<Gate> := [];
    EmptyRun(gates, maxActive, execute);
    while true
      invariant Lawful(gates, maxActive, execute, log)
      invariant After(gates, execute, log) == Scheduler(states, results, running)
      invariant Invariant(gates, maxActive, Scheduler(states, results, running))
      invariant |log| <= 2 * |Ids(gates)|
      decreases 2 * |Ids(gates)| - |log|
    {
      ghost var before := log;
      var madeProgress := false;
      while |running| < maxActive
        invariant Lawful(gates, maxActive, execute, log)
        invariant After(gates, execute, log) == Scheduler(states, results, running)
        invariant Invariant(gates, maxActive, Scheduler(states, results, running))
        invariant |before| <= |log| <= 2 * |Ids(gates)| && (madeProgress <==> |log| > |before|)
        invariant madeProgress ==> running != []
        decreases 2 * |Ids(gates)| - |log|
      {
        var ready := FindReady(gates, states);
        if ready.None? {
          break;
        }
        ExtendRun(gates, maxActive, execute, log, Scheduler(states, results, running), Start(ready.value));
        states := states[ready.value.id := Running];
        running := running + [ready.value];
        log := log + [Start(ready.value)];
        madeProgress := true;
      }
      if |running| == 0 {
        QuiescentRun(gates, maxActive, Scheduler(states, results, running));
        var pending := FindPending(gates, states);
        if pending.None? {
          break;
        }
        var gate := FindBlocked(gates, states);
        if gate.None? {
          SomethingPending(gates, Scheduler(states, results, running));
          assert false;
          return Failure(Stalled), [];
        }
        ExtendRun(gates, maxActive, execute, log, Scheduler(states, results, running), Skip(gate.value));
        results := results[gate.value.id := SkippedResult(gate.value, states)];
        states := states[gate.value.id := Settled(Skipped)];
        log := log + [Skip(gate.value)];
        continue;
      }
      if !madeProgress {
        var k: nat :| k < |running|;  // any running gate may be the next to settle
        var settled := running[k];
        ExtendRun(gates, maxActive, execute, log, Scheduler(states, results, running), Settle(k));
        running := running[..k] + running[k + 1..];
        states := states[settled.id := Settled(execute(settled).status)];
        results := results[settled.id := execute(settled)];
        log := log + [Settle(k)];
      }
    }
    CompleteRunsMeetReference(gates, maxActive, execute, log);
    r := CollectResults(gates, results);
  }

  function FindPending(gates: seq<Gate>, states: map<string, GateState>): (r: Option<Gate>)
    ensures r.Some? ==> r.value in gates && IsPending(r.value, states)
    ensures r.None? ==> forall g {:trigger IsPending(g, states)} :: g in gates ==> !IsPending(g, states)
  {
    if gates == [] then None
    else if IsPending(gates[0], states) then Some(gates[0])
    else FindPending(gates[1..], states)
  }

  lemma EmptyRun(gates: seq<Gate>, maxActive: int, execute: Gate -> GateResult)
    requires maxActive >= 1
    ensures Lawful(gates, maxActive, execute, []) && After(gates, execute, []) == Initial(gates)
    ensures Invariant(gates, maxActive, Initial(gates))
  {
  }

  lemma SomethingPending(gates: seq<Gate>, s: Scheduler)
    requires FindPending(gates, s.states).Some?
    ensures !Complete(gates, s)
  {
  }
}
