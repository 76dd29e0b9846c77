/**
 The process shutdown controller (apps/cli/src/process-shutdown.ts).

 `Controller` holds the closure's variables and reacts to one event at a time.  `Step` is the
 same controller as a table over what has been observed so far: it knows nothing of timers and
 flags.  Every interleaving is a sequence of events, each possible where it stands.
 */
module ProcessShutdown {

  datatype Event =
    | Shutdown(code: int)
    | Interrupt(code: int)
    | TimerFires
    | DisposeBegins
    | DisposeResolves
    | DisposeRejects

  datatype Effect = Dispose | Complete(code: int) | ForceExit(code: int)

  datatype Disposal = Queued | Underway | Settled

  /** What the outside has seen: the first call, how far disposal got, and the effects in order. */
  datatype State =
    | Idle
    | Started(code: int, interrupted: bool, disposal: Disposal, effects: seq<Effect>)

  predicate Completed(effects: seq<Effect>) {
    exists i :: 0 <= i < |effects| && effects[i].Complete?
  }

  predicate Forced(effects: seq<Effect>) {
    exists i :: 0 <= i < |effects| && effects[i].ForceExit?
  }

  function Effects(s: State): seq<Effect> {
    if s.Idle? then [] else s.effects
  }

  predicate Decided(s: State) {
    Completed(Effects(s)) || Forced(Effects(s))
  }

  // ---------------------------------------------------------------- the table

  function Emit(s: State, effect: Effect): State
    requires s.Started?
  {
    s.(effects := s.effects + [effect])
  }

  /** A forced exit happens once, and nothing prevents the first. */
  function Exit(s: State, code: int): State
    requires s.Started?
  {
    if Forced(s.effects) then s else Emit(s, ForceExit(code))
  }

  /** Which events can happen next: calls always, the rest when their source is live. */
  predicate Possible(s: State, e: Event) {
    match e
    case Shutdown(_) => true
    case Interrupt(_) => true
    case TimerFires => s.Started? && !Decided(s)
    case DisposeBegins => s.Started? && s.disposal == Queued
    case DisposeResolves => s.Started? && s.disposal == Underway
    case DisposeRejects => s.Started? && s.disposal == Underway
  }

  function Step(s: State, e: Event): State
    requires Possible(s, e)
  {
    match e
    case Shutdown(code) => if s.Idle? then Started(code, false, Queued, []) else s
    case Interrupt(code) => if s.Idle? then Started(code, true, Queued, []) else Exit(s, code)
    case TimerFires => Exit(s, s.code)
    case DisposeBegins => Emit(s.(disposal := Underway), Dispose)
    case DisposeResolves =>
      var settled := s.(disposal := Settled);
      if s.interrupted then Exit(settled, s.code)
      else if Decided(s) then settled
      else Emit(settled, Complete(s.code))
    case DisposeRejects => Exit(s.(disposal := Settled), s.code)
  }

  // ---------------------------------------------------------------- the controller

  datatype Timer = Unarmed | Armed(code: int) | Fired | Cleared

  class Controller {
    var pending: bool
    var forceAfterDispose: bool
    var code: int
    var timer: Timer
    var completed: bool
    var forceExited: bool
    var disposal: Disposal
    var effects: seq<Effect>

    ghost function View(): State
      reads this
    {
      if pending then Started(code, forceAfterDispose, disposal, effects) else Idle
    }

    ghost predicate Valid()
      reads this
    {
      && (pending <==> timer != Unarmed)
      && (timer.Armed? ==> timer.code == code)
      && (timer.Armed? <==> pending && !completed && !forceExited)
      && (completed <==> Completed(effects))
      && (forceExited <==> Forced(effects))
      && (completed ==> disposal == Settled)
      && (!pending ==> effects == [])
    }

    constructor ()
      ensures Valid() && View() == Idle
    {
      pending, forceAfterDispose, code, timer := false, false, 0, Unarmed;
      completed, forceExited, disposal, effects := false, false, Queued, [];
    }

    method ClearExitTimeout()
      modifies this`timer
      ensures timer == if old(timer).Armed? then Cleared else old(timer)
    {
      if timer.Armed? {
        timer := Cleared;
      }
    }

    method ForceExitOnce(exitCode: int)
      requires pending && timer != Unarmed
      requires (completed <==> Completed(effects)) && (forceExited <==> Forced(effects))
      modifies this`forceExited, this`timer, this`effects
      ensures forceExited && Forced(effects) && (completed <==> Completed(effects))
      ensures View() == Exit(old(View()), exitCode)
      ensures timer == if old(timer).Armed? && !old(forceExited) then Cleared else old(timer)
    {
      if forceExited {
        return;
      }
      forceExited := true;
      ClearExitTimeout();
      Emits(effects, ForceExit(exitCode));
      effects := effects + [ForceExit(exitCode)];
    }

    method CompleteOnce(exitCode: int)
      requires pending && timer != Unarmed && disposal == Settled
      requires (completed <==> Completed(effects)) && (forceExited <==> Forced(effects))
      modifies this`completed, this`timer, this`effects
      ensures completed || forceExited
      ensures (completed <==> Completed(effects)) && (forceExited <==> Forced(effects))
      ensures View() == if Decided(old(View())) then old(View()) else Emit(old(View()), Complete(exitCode))
      ensures timer == if old(timer).Armed? && !old(completed) && !forceExited then Cleared else old(timer)
    {
      if completed || forceExited {
        return;
      }
      completed := true;
      ClearExitTimeout();
      Emits(effects, Complete(exitCode));
      effects := effects + [Complete(exitCode)];
    }

    method Start(exitCode: int, force: bool)
      requires Valid()
      modifies this
      ensures Valid()
      ensures View() == if old(pending) then old(View()) else Started(exitCode, force, Queued, [])
    {
      if pending {
        return;
      }
      code, forceAfterDispose := exitCode, force;
      timer := Armed(exitCode);
      pending, disposal := true, Queued;
    }

    method CallShutdown(exitCode: int)
      requires Valid()
      modifies this
      ensures Valid() && View() == Step(old(View()), Shutdown(exitCode))
    {
      Start(exitCode, false);
    }

    method CallInterrupt(exitCode: int)
      requires Valid()
      modifies this
      ensures Valid() && View() == Step(old(View()), Interrupt(exitCode))
    {
      if pending {
        ForceExitOnce(exitCode);
        return;
      }
      Start(exitCode, true);
    }

    /** The armed timer runs its callback. */
    method OnTimer()
      requires Valid() && timer.Armed?
      modifies this
      ensures Valid() && Possible(old(View()), TimerFires) && View() == Step(old(View()), TimerFires)
    {
      var exitCode := timer.code;
      timer := Fired;
      ForceExitOnce(exitCode);
    }

    /** The first microtask of the promise chain calls the disposer. */
    method OnDisposeBegins()
      requires Valid() && pending && disposal == Queued
      modifies this
      ensures Valid() && View() == Step(old(View()), DisposeBegins)
    {
      disposal := Underway;
      Emits(effects, Dispose);
      effects := effects + [Dispose];
    }

    method OnDisposeResolves()
      requires Valid() && pending && disposal == Underway
      modifies this
      ensures Valid() && View() == Step(old(View()), DisposeResolves)
    {
      disposal := Settled;
      if forceAfterDispose {
        ForceExitOnce(code);
      } else {
        CompleteOnce(code);
      }
    }

    method OnDisposeRejects()
      requires Valid() && pending && disposal == Underway
      modifies this
      ensures Valid() && View() == Step(old(View()), DisposeRejects)
    {
      disposal := Settled;
      ForceExitOnce(code);
    }

    /** Any interleaving, replayed: the calls and the timer decide what can happen, and the table predicts it. */
    method EventLoop(events: seq<Event>)
      requires Valid() && View() == Idle && Lawful(events)
      modifies this
      ensures Valid() && View() == After(events)
      ensures pending && !timer.Armed? ==> Decided(View())
    {
      for i := 0 to |events|
        invariant Valid() && Lawful(events[..i]) && View() == After(events[..i])
      {
        LawfulStep(events, i);
        match events[i]
        case Shutdown(exitCode) => CallShutdown(exitCode);
        case Interrupt(exitCode) => CallInterrupt(exitCode);
        case TimerFires => OnTimer();
        case DisposeBegins => OnDisposeBegins();
        case DisposeResolves => OnDisposeResolves();
        case DisposeRejects => OnDisposeRejects();
      }
      assert events[..|events|] == events;
    }
  }

  lemma Emits(effects: seq<Effect>, effect: Effect)
    ensures Completed(effects + [effect]) <==> Completed(effects) || effect.Complete?
    ensures Forced(effects + [effect]) <==> Forced(effects) || effect.ForceExit?
  {
    var longer := effects + [effect];
    assert longer[|effects|] == effect;
    assert forall i :: 0 <= i < |effects| ==> longer[i] == effects[i];
  }

  // ---------------------------------------------------------------- every interleaving

  predicate Lawful(events: seq<Event>)
    decreases |events|, 0
  {
    if events == [] then true
    else
      var before := events[..|events| - 1];
      Lawful(before) && Possible(After(before), events[|events| - 1])
  }

  function After(events: seq<Event>): State
    requires Lawful(events)
    decreases |events|, 1
  {
    if events == [] then Idle
    else
      var before := events[..|events| - 1];
      Step(After(before), events[|events| - 1])
  }

  lemma {:induction false} LawfulStep(events: seq<Event>, i: nat)
    requires Lawful(events) && i < |events|
    ensures Lawful(events[..i]) && Possible(After(events[..i]), events[i])
    ensures Lawful(events[..i + 1]) && After(events[..i + 1]) == Step(After(events[..i]), events[i])
    decreases |events|
  {
    assert events[..|events|] == events;
    if i == |events| - 1 {
    } else {
      var before := events[..|events| - 1];
      LawfulStep(before, i);
      assert before[..i] == events[..i] && before[..i + 1] == events[..i + 1];
    }
  }

  /** The only effect logs there are, for first code c. */
  predicate Allowed(effects: seq<Effect>, code: int) {
    || effects == [] || effects == [Dispose]
    || (|effects| == 1 && effects[0].ForceExit?)
    || (|effects| == 2 && effects[0] == Dispose && (effects[1] == Complete(code) || effects[1].ForceExit?))
    || (|effects| == 2 && effects[0].ForceExit? && effects[1] == Dispose)
    || (|effects| == 3 && effects[0] == Dispose && effects[1] == Complete(code) && effects[2].ForceExit?)
  }

  ghost predicate Sound(s: State) {
    s.Started? ==>
      && Allowed(s.effects, s.code)
      && (s.disposal == Queued <==> Dispose !in s.effects)
      && (Completed(s.effects) ==> s.disposal == Settled && !s.interrupted)
      && (s.disposal == Settled ==> Decided(s))
  }

  lemma StepKeepsSound(s: State, e: Event)
    requires Sound(s) && Possible(s, e)
    ensures Sound(Step(s, e))
  {
    var s' := Step(s, e);
    if s.Started? {
      forall effect | s' == Emit(s, effect) || (s'.Started? && s'.effects == s.effects + [effect])
        ensures Completed(s'.effects) <==> Completed(s.effects) || effect.Complete?
        ensures Forced(s'.effects) <==> Forced(s.effects) || effect.ForceExit?
      {
        Emits(s.effects, effect);
      }
    }
  }

  lemma {:induction false} EveryInterleavingIsSound(events: seq<Event>)
    requires Lawful(events)
    ensures Sound(After(events))
  {
    if events != [] {
      EveryInterleavingIsSound(events[..|events| - 1]);
      StepKeepsSound(After(events[..|events| - 1]), events[|events| - 1]);
    }
  }

  // ---------------------------------------------------------------- exactly these logs

  ghost predicate Shows(events: seq<Event>, code: int, effects: seq<Effect>) {
    Lawful(events) && After(events).Started? && After(events).code == code && After(events).effects == effects
  }

  ghost predicate Observable(code: int, effects: seq<Effect>) {
    exists events :: Shows(events, code, effects)
  }

  lemma Extend(events: seq<Event>, e: Event)
    requires Lawful(events) && Possible(After(events), e)
    ensures Lawful(events + [e]) && After(events + [e]) == Step(After(events), e)
  {
    assert (events + [e])[..|events|] == events;
  }

  /** Seven shapes, every one of them seen, with every code; nothing else is ever seen. */
  lemma ObservableIffAllowed(code: int, effects: seq<Effect>)
    ensures Observable(code, effects) <==> Allowed(effects, code)
  {
    if Observable(code, effects) {
      var events :| Shows(events, code, effects);
      EveryInterleavingIsSound(events);
    }
    if Allowed(effects, code) {
      AllowedIsObservable(code, effects);
    }
  }

  lemma AllowedIsObservable(code: int, effects: seq<Effect>)
    requires Allowed(effects, code)
    ensures Observable(code, effects)
  {
    var started := [Shutdown(code)];
    Extend([], Shutdown(code));
    assert [] + started == started;
    if effects == [] {
      assert Shows(started, code, effects);
    } else if effects[0].ForceExit? {
      var escalated := started + [Interrupt(effects[0].code)];
      Extend(started, Interrupt(effects[0].code));
      Emits([], effects[0]);
      Extend(escalated, DisposeBegins);
      assert Shows(if |effects| == 1 then escalated else escalated + [DisposeBegins], code, effects);
    } else {
      Extend(started, DisposeBegins);
      DisposedIsObservable(code, effects, started + [DisposeBegins]);
    }
  }

  lemma DisposedIsObservable(code: int, effects: seq<Effect>, disposing: seq<Event>)
    requires Allowed(effects, code) && |effects| > 0 && effects[0] == Dispose
    requires Lawful(disposing) && After(disposing) == Started(code, false, Underway, [Dispose])
    ensures Observable(code, effects)
  {
    if |effects| == 1 {
      assert Shows(disposing, code, effects);
    } else if effects[1].ForceExit? {
      EscalationIsObservable(disposing, effects[1].code);
      assert effects == [Dispose] + [effects[1]];
    } else {
      Extend(disposing, DisposeResolves);
      var completed := disposing + [DisposeResolves];
      assert After(completed) == Started(code, false, Settled, [Dispose, Complete(code)]);
      if |effects| == 2 {
        assert Shows(completed, code, effects);
      } else {
        EscalationIsObservable(completed, effects[2].code);
        assert effects == [Dispose, Complete(code)] + [effects[2]];
      }
    }
  }

  /** As long as no exit was forced, an interrupt can force one with any code. */
  lemma EscalationIsObservable(events: seq<Event>, code: int)
    requires Lawful(events) && After(events).Started? && !Forced(After(events).effects)
    ensures Observable(After(events).code, After(events).effects + [ForceExit(code)])
  {
    var escalated := events + [Interrupt(code)];
    Extend(events, Interrupt(code));
    assert Shows(escalated, After(events).code, After(events).effects + [ForceExit(code)]);
  }

  // ---------------------------------------------------------------- whose code, and when

  predicate Call(e: Event) {
    e.Shutdown? || e.Interrupt?
  }

  function FirstCall(events: seq<Event>): (i: nat)
    ensures i <= |events|
    ensures i < |events| ==> Call(events[i])
    ensures forall j :: 0 <= j < i ==> !Call(events[j])
  {
    if events == [] then 0
    else
      var before := events[..|events| - 1];
      var i := FirstCall(before);
      if i < |before| || Call(events[|events| - 1]) then i else |events|
  }

  /** The controller is started by the first call, and remembers its code and its kind. */
  lemma {:induction false} FirstCallStarts(events: seq<Event>)
    requires Lawful(events)
    ensures After(events).Started? <==> FirstCall(events) < |events|
    ensures After(events).Started? ==>
              var first := events[FirstCall(events)];
              After(events).code == first.code && After(events).interrupted == first.Interrupt?
  {
    if events != [] {
      FirstCallStarts(events[..|events| - 1]);
    }
  }

  /** Events that end the wait: everything after the first call but further shutdowns and the start of disposal. */
  predicate Decisive(e: Event) {
    !e.Shutdown? && !e.DisposeBegins?
  }

  ghost predicate SomethingDecisive(events: seq<Event>) {
    exists i :: FirstCall(events) < i < |events| && Decisive(events[i])
  }

  /** An outcome is recorded exactly when a decisive event has followed the first call. */
  lemma {:induction false} DecidedIff(events: seq<Event>)
    requires Lawful(events)
    ensures Decided(After(events)) <==> SomethingDecisive(events)
  {
    if events != [] {
      var last := |events| - 1;
      var before, e := events[..last], events[last];
      DecidedIff(before);
      FirstCallStarts(before);
      EveryInterleavingIsSound(before);
      StepDecides(After(before), e);
      assert FirstCall(before) < last ==> FirstCall(events) == FirstCall(before);
      if SomethingDecisive(before) {
        var i :| FirstCall(before) < i < |before| && Decisive(before[i]);
        assert events[i] == before[i];
      }
      if After(before).Started? && Decisive(e) {
        assert FirstCall(events) < last && Decisive(events[last]);
      }
      if SomethingDecisive(events) {
        var i :| FirstCall(events) < i < |events| && Decisive(events[i]);
        assert i < last ==> before[i] == events[i];
      }
    }
  }

  lemma StepDecides(s: State, e: Event)
    requires Sound(s) && Possible(s, e)
    ensures Decided(Step(s, e)) <==> Decided(s) || (s.Started? && Decisive(e))
  {
    if s.Started? {
      Emits(s.effects, Dispose);
      Emits(s.effects, Complete(s.code));
      Emits(s.effects, ForceExit(s.code));
      if e.Interrupt? {
        Emits(s.effects, ForceExit(e.code));
      }
    }
  }

  /** The first event after the first call that ends the wait, or the number of events when none has. */
  function FirstDecisive(events: seq<Event>): (i: nat)
    ensures i <= |events|
    ensures i < |events| ==> FirstCall(events) < i && Decisive(events[i])
    ensures forall j :: FirstCall(events) < j < i ==> !Decisive(events[j])
  {
    if events == [] then 0
    else
      var before := events[..|events| - 1];
      var i := FirstDecisive(before);
      if i < |before| then i
      else if FirstCall(events) < |events| - 1 && Decisive(events[|events| - 1]) then |events| - 1
      else |events|
  }

  /** What that event records, given the first call: only a disposal that resolves after a shutdown completes. */
  function Outcome(first: Event, decisive: Event): Effect
    requires Call(first)
  {
    match decisive
    case DisposeResolves => if first.Shutdown? then Complete(first.code) else ForceExit(first.code)
    case DisposeRejects => ForceExit(first.code)
    case TimerFires => ForceExit(first.code)
    case Interrupt(code) => ForceExit(code)
    case _ => Dispose
  }

  /** The effects other than the start of disposal. */
  function Outcomes(effects: seq<Effect>): seq<Effect> {
    if effects == [] then []
    else
      Outcomes(effects[..|effects| - 1])
      + if effects[|effects| - 1] == Dispose then [] else [effects[|effects| - 1]]
  }

  lemma OneMoreOutcome(effects: seq<Effect>, effect: Effect)
    ensures Outcomes(effects + [effect]) == Outcomes(effects) + if effect == Dispose then [] else [effect]
  {
    assert (effects + [effect])[..|effects|] == effects;
  }

  lemma {:induction false} OutcomesDecide(effects: seq<Effect>)
    ensures Outcomes(effects) != [] <==> Completed(effects) || Forced(effects)
    ensures Completed(effects) <==> exists i :: 0 <= i < |Outcomes(effects)| && Outcomes(effects)[i].Complete?
  {
    if effects != [] {
      var before, last := effects[..|effects| - 1], effects[|effects| - 1];
      assert effects == before + [last];
      OutcomesDecide(before);
      Emits(before, last);
      OneMoreOutcome(before, last);
      InLonger(Outcomes(before), last);
    }
  }

  lemma InLonger(outcomes: seq<Effect>, last: Effect)
    ensures var more := outcomes + if last == Dispose then [] else [last];
            (exists i :: 0 <= i < |more| && more[i].Complete?)
            <==> (exists i :: 0 <= i < |outcomes| && outcomes[i].Complete?) || last.Complete?
  {
    var more := outcomes + if last == Dispose then [] else [last];
    if i :| 0 <= i < |outcomes| && outcomes[i].Complete? {
      assert more[i].Complete?;
    }
    if last.Complete? {
      assert more[|outcomes|].Complete?;
    }
  }

  /** The first outcome a run records is the one its first decisive event stands for. */
  lemma {:induction false} FirstOutcomeIs(events: seq<Event>)
    requires Lawful(events)
    ensures var outcomes, i := Outcomes(Effects(After(events))), FirstDecisive(events);
            if i < |events| then outcomes != [] && outcomes[0] == Outcome(events[FirstCall(events)], events[i])
            else outcomes == []
  {
    if events != [] {
      var before, e := events[..|events| - 1], events[|events| - 1];
      FirstOutcomeIs(before);
      FirstCallStarts(before);
      FirstCallStarts(events);
      EveryInterleavingIsSound(before);
      OutcomesDecide(Effects(After(before)));
      StepOutcome(After(before), e);
      assert FirstCall(before) < |before| ==> FirstCall(events) == FirstCall(before);
    }
  }

  /** One step adds at most one outcome, and the first is the one its event stands for. */
  lemma StepOutcome(s: State, e: Event)
    requires Sound(s) && Possible(s, e)
    ensures var was, now := Outcomes(Effects(s)), Outcomes(Effects(Step(s, e)));
            && (was != [] ==> now != [] && now[0] == was[0])
            && (s.Idle? ==> now == [])
            && (s.Started? && was == [] ==>
                  now == if Decisive(e)
                         then [Outcome(if s.interrupted then Interrupt(s.code) else Shutdown(s.code), e)]
                         else [])
  {
    hide Completed, Forced;
    if s.Started? {
      OutcomesDecide(s.effects);
      StepAppends(s, e);
      var now := Step(s, e).effects;
      if now != s.effects {
        OneMoreOutcome(s.effects, now[|s.effects|]);
        assert now == s.effects + [now[|s.effects|]];
      }
    }
  }

  /** A step of a started controller records nothing or one effect, and which one. */
  lemma StepAppends(s: State, e: Event)
    requires Sound(s) && Possible(s, e) && s.Started?
    ensures var now := Step(s, e).effects;
            || now == s.effects
            || (|now| == |s.effects| + 1 && now == s.effects + [now[|s.effects|]])
    ensures !Decided(s) ==>
              Step(s, e).effects ==
              s.effects + if e.DisposeBegins? then [Dispose]
                          else if Decisive(e)
                          then [Outcome(if s.interrupted then Interrupt(s.code) else Shutdown(s.code), e)]
                          else []
  {
  }

  /** Completion is recorded exactly when the first call is a shutdown and the first decisive event its disposal. */
  lemma CompletedIff(events: seq<Event>)
    requires Lawful(events)
    ensures Completed(Effects(After(events))) <==>
              && FirstDecisive(events) < |events| && events[FirstDecisive(events)] == DisposeResolves
              && events[FirstCall(events)].Shutdown?
  {
    FirstOutcomeIs(events);
    EveryInterleavingIsSound(events);
    OutcomesDecide(Effects(After(events)));
    CompletionComesFirst(events);
  }

  lemma CompletionComesFirst(events: seq<Event>)
    requires Lawful(events)
    ensures Completed(Effects(After(events))) <==>
              Outcomes(Effects(After(events))) != [] && Outcomes(Effects(After(events)))[0].Complete?
  {
    EveryInterleavingIsSound(events);
    var effects := Effects(After(events));
    OutcomesDecide(effects);
    forall i | 0 <= i < |effects| ensures effects[..i + 1] == effects[..i] + [effects[i]] {
    }
    assert effects[..|effects|] == effects && effects[..0] == [];
    if |effects| > 0 {
      OneMoreOutcome([], effects[0]);
      assert [] + [effects[0]] == [effects[0]] == effects[..1];
    }
    if |effects| > 1 {
      OneMoreOutcome(effects[..1], effects[1]);
    }
    if |effects| > 2 {
      OneMoreOutcome(effects[..2], effects[2]);
    }
  }

  /** A disposal that rejects before anything else decides forces the exit with the first call's code. */
  lemma RejectionForcesExit(events: seq<Event>)
    requires Lawful(events) && FirstCall(events) < |events| && !SomethingDecisive(events)
    requires Possible(After(events), DisposeRejects)
    ensures Lawful(events + [DisposeRejects])
    ensures Effects(After(events + [DisposeRejects]))
        == Effects(After(events)) + [ForceExit(events[FirstCall(events)].code)]
  {
    FirstCallStarts(events);
    DecidedIff(events);
    Extend(events, DisposeRejects);
  }

  /** A forced exit carries the first call's code, or that of an interrupt that found the controller started. */
  lemma {:induction false} ExitCodeIsAsked(events: seq<Event>, code: int)
    requires Lawful(events) && ForceExit(code) in Effects(After(events))
    ensures FirstCall(events) < |events|
    ensures events[FirstCall(events)].code == code
            || exists i :: FirstCall(events) < i < |events| && events[i] == Interrupt(code)
  {
    FirstCallStarts(events);
    var last := |events| - 1;
    var before := events[..last];
    FirstCallStarts(before);
    if ForceExit(code) in Effects(After(before)) {
      ExitCodeIsAsked(before, code);
      if i :| FirstCall(before) < i < |before| && before[i] == Interrupt(code) {
        assert events[i] == Interrupt(code);
      }
    } else {
      assert events[last] == Interrupt(code) || After(before).code == code;
    }
  }

  /** Once natural completion is recorded, the one thing that can still happen is an interrupt forcing its own code. */
  lemma OnlyInterruptsFollowCompletion(events: seq<Event>, i: nat)
    requires Lawful(events) && i < |events|
    ensures Lawful(events[..i]) && Lawful(events[..i + 1])
    ensures var was, now := Effects(After(events[..i])), Effects(After(events[..i + 1]));
            Completed(was) && now != was ==>
              events[i].Interrupt? && !Forced(was) && now == was + [ForceExit(events[i].code)]
  {
    LawfulStep(events, i);
    EveryInterleavingIsSound(events[..i]);
  }

  /** Nothing is waited for without a bound: while no outcome is recorded the timer can fire, and firing records one. */
  lemma TimerBoundsTheWait(events: seq<Event>)
    requires Lawful(events) && FirstCall(events) < |events| && !SomethingDecisive(events)
    ensures Lawful(events + [TimerFires])
    ensures Effects(After(events + [TimerFires]))
        == Effects(After(events)) + [ForceExit(events[FirstCall(events)].code)]
  {
    FirstCallStarts(events);
    DecidedIff(events);
    Extend(events, TimerFires);
  }
}
