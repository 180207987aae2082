/** The scheduler's calls as the steps they really are: `Stop` and `UpdateConfig` release the
    lock before they close the done channel, and `UpdateConfig` swaps the channel, resets the
    once and starts again without it, so any number of calls interleave. */
module CompactorSteps {
  import opened CompactorSpec

  /** How far a call has come; `Finished` once it has returned. */
  datatype Call =
    | Finished
    | Stopping
    | Closing(wasRunning: bool, enabled: bool)
    | Swapping
    | Resetting
    | Restarting

  /** `closes` counts the closes of every done channel made so far, the current one last. */
  datatype Machine = Machine(config: Config, running: bool, fired: bool, closes: seq<nat>, calls: seq<Call>)

  datatype Event =
    | CallStart
    | CallStop
    | CallUpdate(config: Config)
    | Continue(i: nat)

  function Fresh(config: Config): Machine {
    Machine(config, false, false, [0], [])
  }

  function CountIn(closes: seq<nat>, k: nat): nat {
    if k < |closes| then closes[k] else 0
  }

  /** The number of the current channel. */
  function Current(m: Machine): nat {
    if m.closes == [] then 0 else |m.closes| - 1
  }

  /** `stopOnce.Do(close)`. */
  function Fired(m: Machine): Machine {
    if m.fired || m.closes == [] then m else
      m.(fired := true, closes := m.closes[Current(m) := m.closes[Current(m)] + 1])
  }

  function Begun(m: Machine): Machine {
    if m.running || !m.config.enabled then m else m.(running := true)
  }

  function Next(m: Machine, e: Event): Machine {
    match e
    case CallStart => Begun(m)
    case CallStop =>
      if !m.running then m else m.(running := false, calls := m.calls + [Stopping])
    case CallUpdate(config) =>
      m.(running := false, config := config, calls := m.calls + [Closing(m.running, config.enabled)])
    case Continue(i) =>
      if i >= |m.calls| then m else
        match m.calls[i]
        case Finished => m
        case Stopping => Fired(m.(calls := m.calls[i := Finished]))
        case Closing(wasRunning, enabled) =>
          var m' := m.(calls := m.calls[i := if enabled then Swapping else Finished]);
          if wasRunning then Fired(m') else m'
        case Swapping => m.(closes := m.closes + [0], calls := m.calls[i := Resetting])
        case Resetting => m.(fired := false, calls := m.calls[i := Restarting])
        case Restarting => Begun(m.(calls := m.calls[i := Finished]))
  }

  function Run(m: Machine, events: seq<Event>): Machine
    decreases |events|
  {
    if events == [] then m else Run(Next(m, events[0]), events[1..])
  }

  /** The event closes the current channel. */
  predicate Closes(m: Machine, e: Event) {
    && !m.fired && m.closes != [] && e.Continue? && e.i < |m.calls|
    && (m.calls[e.i].Stopping? || (m.calls[e.i].Closing? && m.calls[e.i].wasRunning))
  }

  /** Some update has swapped the channel and not yet reset the once. */
  predicate ResetDue(m: Machine) {
    exists i :: 0 <= i < |m.calls| && m.calls[i].Resetting?
  }

  // ---------- No channel is closed twice ----------

  /** No channel is closed while a reset is due. */
  predicate Separate(m: Machine, events: seq<Event>)
    decreases |events|
  {
    events == [] || (!(Closes(m, events[0]) && ResetDue(m)) && Separate(Next(m, events[0]), events[1..]))
  }

  predicate Kept(m: Machine) {
    && m.closes != []
    && (forall k :: 0 <= k < |m.closes| ==> m.closes[k] <= 1)
    && m.closes[Current(m)] == (if m.fired && !ResetDue(m) then 1 else 0)
    && (m.running ==> m.config.enabled)
  }

  lemma OthersStayDue(m: Machine, i: nat, call: Call, j: nat)
    requires i < |m.calls| && j < |m.calls| && j != i && m.calls[j].Resetting?
    ensures ResetDue(m.(calls := m.calls[i := call]))
  {
    assert m.calls[i := call][j].Resetting?;
  }

  lemma NewCallsAreNotDue(m: Machine, call: Call)
    requires !call.Resetting?
    ensures ResetDue(m.(calls := m.calls + [call])) <==> ResetDue(m)
  {
    forall i | 0 <= i < |m.calls| && m.calls[i].Resetting? ensures ResetDue(m.(calls := m.calls + [call])) {
      assert (m.calls + [call])[i].Resetting?;
    }
  }

  /** A call that neither stands before its reset nor comes to stand there. */
  lemma OtherCallsAreNotDue(m: Machine, i: nat, call: Call)
    requires i < |m.calls| && !m.calls[i].Resetting? && !call.Resetting?
    ensures ResetDue(m.(calls := m.calls[i := call])) <==> ResetDue(m)
  {
    forall j: nat | j < |m.calls| && m.calls[j].Resetting? ensures ResetDue(m.(calls := m.calls[i := call])) {
      OthersStayDue(m, i, call, j);
    }
  }

  lemma StepIsKept(m: Machine, e: Event)
    requires Kept(m) && !(Closes(m, e) && ResetDue(m))
    ensures Kept(Next(m, e))
  {
    match e
    case CallStart =>
    case CallStop => NewCallsAreNotDue(m, Stopping);
    case CallUpdate(config) => NewCallsAreNotDue(m, Closing(m.running, config.enabled));
    case Continue(i) =>
      if i < |m.calls| {
        match m.calls[i]
        case Finished =>
        case Stopping => OtherCallsAreNotDue(m, i, Finished);
        case Closing(_, enabled) => OtherCallsAreNotDue(m, i, if enabled then Swapping else Finished);
        case Swapping => assert Next(m, e).calls[i].Resetting?;
        case Resetting =>
        case Restarting => OtherCallsAreNotDue(m, i, Finished);
      }
  }

  /** Over every interleaving of starts, stops and updates in which no close falls between an
      update's swap and its reset: no channel is closed twice, and running means enabled. */
  lemma {:induction false} NoChannelIsClosedTwice(m: Machine, events: seq<Event>)
    requires Kept(m) && Separate(m, events)
    ensures Kept(Run(m, events))
    decreases |events|
  {
    if events != [] {
      StepIsKept(m, events[0]);
      NoChannelIsClosedTwice(Next(m, events[0]), events[1..]);
    }
  }

  // ---------- Exactly when a closed channel can be closed again ----------

  /** Channel `k` is closed, and is not the current one unless the once guards it. */
  predicate Shut(m: Machine, k: nat) {
    && CountIn(m.closes, k) == 1
    && (Current(m) == k ==> m.fired && !ResetDue(m))
  }

  lemma StepStaysShut(m: Machine, k: nat, e: Event)
    requires Shut(m, k)
    ensures Shut(Next(m, e), k)
  {
    match e
    case CallStart =>
    case CallStop => NewCallsAreNotDue(m, Stopping);
    case CallUpdate(config) => NewCallsAreNotDue(m, Closing(m.running, config.enabled));
    case Continue(i) =>
      if i < |m.calls| {
        match m.calls[i]
        case Finished =>
        case Stopping => OtherCallsAreNotDue(m, i, Finished);
        case Closing(_, enabled) => OtherCallsAreNotDue(m, i, if enabled then Swapping else Finished);
        case Swapping =>
        case Resetting =>
        case Restarting => OtherCallsAreNotDue(m, i, Finished);
      }
  }

  lemma {:induction false} RunStaysShut(m: Machine, k: nat, events: seq<Event>)
    requires Shut(m, k)
    ensures Shut(Run(m, events), k)
    decreases |events|
  {
    if events != [] {
      StepStaysShut(m, k, events[0]);
      RunStaysShut(Next(m, events[0]), k, events[1..]);
    }
  }

  /** The reset, a start and a stop: these close a channel whatever its state. */
  function Again(m: Machine, i: nat, config: Config): seq<Event> {
    [Continue(i), CallUpdate(config), CallStart, CallStop, Continue(|m.calls| + 1)]
  }

  lemma RunOfCons(m: Machine, e: Event, events: seq<Event>)
    ensures Run(m, [e] + events) == Run(Next(m, e), events)
  {
    assert ([e] + events)[1..] == events;
  }

  lemma RunOfTwo(m: Machine, a: Event, b: Event)
    ensures Run(m, [a, b]) == Next(Next(m, a), b)
  {
    assert [a, b] == [a] + [b] && [b] == [b] + [];
    RunOfCons(m, a, [b]);
    RunOfCons(Next(m, a), b, []);
  }

  lemma RunOfFive(m: Machine, a: Event, b: Event, c: Event, d: Event, e: Event)
    ensures Run(m, [a, b, c, d, e]) == Next(Next(Next(Next(Next(m, a), b), c), d), e)
  {
    assert [a, b, c, d, e] == [a] + [b, c, d, e] && [b, c, d, e] == [b] + [c, d, e] && [c, d, e] == [c] + [d, e];
    RunOfCons(m, a, [b, c, d, e]);
    RunOfCons(Next(m, a), b, [c, d, e]);
    RunOfCons(Next(Next(m, a), b), c, [d, e]);
    RunOfTwo(Next(Next(Next(m, a), b), c), d, e);
  }

  lemma AgainCloses(m: Machine, i: nat, config: Config)
    requires m.closes != [] && i < |m.calls| && m.calls[i].Resetting? && config.enabled
    ensures CountIn(Run(m, Again(m, i, config)).closes, Current(m)) == m.closes[Current(m)] + 1
  {
    var calls := m.calls[i := Restarting];
    var m1 := m.(fired := false, calls := calls);
    var m2 := m1.(running := false, config := config, calls := calls + [Closing(m.running, true)]);
    var m3 := m2.(running := true);
    var m4 := m2.(calls := m2.calls + [Stopping]);
    assert Next(m, Continue(i)) == m1;
    assert Next(m1, CallUpdate(config)) == m2;
    assert Next(m2, CallStart) == m3;
    assert Next(m3, CallStop) == m4;
    RunOfFive(m, Continue(i), CallUpdate(config), CallStart, CallStop, Continue(|m.calls| + 1));
  }

  /** A channel closed now can be closed again by some continuation, which panics, exactly
      when it is closed while the reset of some update is due. */
  lemma ClosableAgainExactlyWhen(m: Machine, e: Event)
    requires m.closes != [] && m.closes[Current(m)] == 0 && Closes(m, e)
    ensures (exists events :: CountIn(Run(Next(m, e), events).closes, Current(m)) > 1) <==> ResetDue(m)
  {
    var k, m' := Current(m), Next(m, e);
    OtherCallsAreNotDue(m, e.i, m'.calls[e.i]);
    if ResetDue(m) {
      var i :| 0 <= i < |m'.calls| && m'.calls[i].Resetting?;
      var enabled := Config(true, 60, 0, 100000);
      var events := Again(m', i, enabled);
      AgainCloses(m', i, enabled);
      assert CountIn(Run(m', events).closes, k) > 1;
    } else {
      forall events ensures CountIn(Run(m', events).closes, k) == 1 {
        RunStaysShut(m', k, events);
      }
    }
  }

  /** A stop that races an update: it leaves the lock, the update swaps the channel, the stop
      closes the new one, the update resets the once and starts; the next stop closes the
      same channel again. */
  lemma StopDuringUpdateClosesTwice(config: Config)
    requires config.enabled
    ensures var m4 := Machine(config, false, false, [0, 0], [Stopping, Resetting]);
      var m6 := Machine(config, false, false, [0, 1], [Finished, Restarting]);
      && Run(Fresh(config), [CallStart, CallStop, CallUpdate(config), Continue(1), Continue(1)]) == m4
      && Next(Next(m4, Continue(0)), Continue(1)) == m6
      && Next(Next(Next(m6, Continue(1)), CallStop), Continue(2)).closes == [0, 2]
  {
    var m0 := Fresh(config);
    RunOfFive(m0, CallStart, CallStop, CallUpdate(config), Continue(1), Continue(1));
    var m2 := Machine(config, false, false, [0], [Stopping]);
    var m3 := Machine(config, false, false, [0], [Stopping, Closing(false, true)]);
    var m4 := Machine(config, false, false, [0, 0], [Stopping, Resetting]);
    var m6 := Machine(config, false, false, [0, 1], [Finished, Restarting]);
    assert Next(Next(m0, CallStart), CallStop) == m2;
    assert Next(m2, CallUpdate(config)) == m3;
    assert Next(m3, Continue(1)) == m3.(calls := [Stopping, Swapping]);
    assert Next(m4, Continue(0)) == Machine(config, false, true, [0, 1], [Finished, Resetting]);
    assert Next(Next(m6, Continue(1)), CallStop) ==
           Machine(config, false, false, [0, 1], [Finished, Finished, Stopping]);
  }

  // ---------- Undisturbed calls ----------

  function View(m: Machine): Scheduler {
    Scheduler(m.config, m.running, m.fired, CountIn(m.closes, Current(m)))
  }

  /** The steps of one call with nothing in between. */
  function StepsOf(a: Action, i: nat): seq<Event> {
    match a
    case Start => [CallStart]
    case Stop => [CallStop, Continue(i)]
    case Update(config) => [CallUpdate(config), Continue(i), Continue(i), Continue(i), Continue(i)]
  }

  lemma UndisturbedStop(m: Machine)
    requires m.closes != []
    ensures View(Run(m, StepsOf(Stop, |m.calls|))) == Act(View(m), Stop)
  {
    RunOfTwo(m, CallStop, Continue(|m.calls|));
  }

  /** The state of an update, made in state `m`, once it has closed the old channel. */
  function Closed(m: Machine, config: Config, call: Call): Machine {
    var m' := m.(running := false, config := config, calls := m.calls + [call]);
    if m.running then Fired(m') else m'
  }

  lemma UpdateCloses(m: Machine, config: Config)
    ensures Next(Next(m, CallUpdate(config)), Continue(|m.calls|)) ==
            Closed(m, config, if config.enabled then Swapping else Finished)
  {
    var calls, closing := m.calls, Closing(m.running, config.enabled);
    assert (calls + [closing])[|calls|] == closing;
    forall call: Call ensures (calls + [closing])[|calls| := call] == calls + [call] {
    }
  }

  lemma UpdateRestarts(m: Machine, calls: seq<Call>)
    requires m.calls == calls + [Swapping] && m.config.enabled && !m.running
    ensures var i := |calls|;
      Next(Next(Next(m, Continue(i)), Continue(i)), Continue(i)) ==
      Machine(m.config, true, false, m.closes + [0], calls + [Finished])
  {
    var i := |calls|;
    var m1 := m.(closes := m.closes + [0], calls := calls + [Resetting]);
    var m2 := m1.(fired := false, calls := calls + [Restarting]);
    assert m.calls[i := Resetting] == calls + [Resetting];
    assert m1.calls[i := Restarting] == calls + [Restarting];
    assert m2.calls[i := Finished] == calls + [Finished];
    assert Next(m, Continue(i)) == m1;
    assert Next(m1, Continue(i)) == m2;
  }

  lemma UndisturbedUpdate(m: Machine, config: Config)
    requires m.closes != []
    ensures View(Run(m, StepsOf(Update(config), |m.calls|))) == Act(View(m), Update(config))
  {
    var i := |m.calls|;
    RunOfFive(m, CallUpdate(config), Continue(i), Continue(i), Continue(i), Continue(i));
    UpdateCloses(m, config);
    if config.enabled {
      UpdateRestarts(Closed(m, config, Swapping), m.calls);
    } else {
      var last := Closed(m, config, Finished);
      assert last.calls[i] == Finished;
      assert Next(last, Continue(i)) == last;
    }
  }

  /** Left alone, each call does what the atomic one does. */
  lemma UndisturbedCallsAreAtomic(m: Machine, a: Action)
    requires m.closes != []
    ensures View(Run(m, StepsOf(a, |m.calls|))) == Act(View(m), a)
  {
    match a
    case Start => RunOfCons(m, CallStart, []);
    case Stop => UndisturbedStop(m);
    case Update(config) => UndisturbedUpdate(m, config);
  }
}
