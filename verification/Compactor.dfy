/** mq/internal/compactor.go: what one scheduler pass guarantees, and the life cycle of the
    scheduler around its stop-once flag and done channel. */
module CompactorSpec {
  import opened Types
  import PartitionSpec
  import TopicSpec
  import opened QueueSpec
  import Refinement

  type Topic = TopicSpec.Topic

  datatype Config = Config(enabled: bool, interval: int, thresholdBytes: int, thresholdMessages: int)

  // ---------- One pass ----------

  /** Go's `t / 2`, which truncates toward zero. */
  function Half(t: int): int {
    if t < 0 then -((-t) / 2) else t / 2
  }

  ghost predicate Exceeds(part: PartitionSpec.State, threshold: int) {
    || 0 < threshold < |part.live|
    || Half(threshold) < PartitionSpec.Watermark(part.offsets)
  }

  ghost predicate Triggered(t: Topic, threshold: int) {
    exists i :: 0 <= i < |t.parts| && Exceeds(t.parts[i], threshold)
  }

  ghost function PassTopic(t: Topic, threshold: int): Topic {
    if Triggered(t, threshold) then Compacted(t) else t
  }

  ghost function Pass(q: Queue, threshold: int): Queue {
    map n | n in q :: PassTopic(q[n], threshold)
  }

  /** The pass after its first `k` topics, whose names are distinct. */
  ghost function PassUpTo(q: Queue, names: seq<Bytes>, k: nat, threshold: int): Queue
    requires k <= |names|
  {
    map n | n in q :: if n in names[..k] then PassTopic(q[n], threshold) else q[n]
  }

  lemma PassNext(q: Queue, names: seq<Bytes>, k: nat, threshold: int)
    requires k < |names| && names[k] in q && names[k] !in names[..k]
    ensures var now := PassUpTo(q, names, k, threshold);
      && names[k] in now && now[names[k]] == q[names[k]]
      && PassUpTo(q, names, k + 1, threshold) ==
           if Triggered(q[names[k]], threshold) then CompactTopic(now, names[k]) else now
  {
    assert names[..k + 1] == names[..k] + [names[k]];
  }

  lemma PassBegins(q: Queue, names: seq<Bytes>, threshold: int)
    ensures PassUpTo(q, names, 0, threshold) == q
  {
  }

  lemma PassIsComplete(q: Queue, names: seq<Bytes>, threshold: int)
    requires forall n :: n in q ==> n in names
    ensures PassUpTo(q, names, |names|, threshold) == Pass(q, threshold)
  {
    assert names[..|names|] == names;
  }

  /** What a partition is like after a pass: the watermark is at most half the threshold, and
      a partition still over the threshold holds nothing removable. */
  ghost predicate Settled(part: PartitionSpec.State, threshold: int) {
    && PartitionSpec.InBounds(part)
    && 0 <= PartitionSpec.Watermark(part.offsets)
    && PartitionSpec.Watermark(part.offsets) <= (if threshold < 0 then 0 else threshold / 2)
    && (0 < threshold < |part.live| ==>
          PartitionSpec.Watermark(part.offsets) == 0 && PartitionSpec.Compact(part) == (part, 0))
  }

  lemma CompactedIsSettled(part: PartitionSpec.State, threshold: int)
    requires PartitionSpec.InBounds(part)
    ensures Settled(PartitionSpec.Compact(part).0, threshold)
  {
    Refinement.CompactionExact(part);
  }

  /** One pass settles every partition of every topic, whatever the threshold's sign. */
  lemma PassSettles(q: Queue, threshold: int, n: Bytes, i: nat)
    requires InBounds(q) && n in q && i < |q[n].parts|
    ensures n in Pass(q, threshold) && |Pass(q, threshold)[n].parts| == |q[n].parts|
    ensures Settled(Pass(q, threshold)[n].parts[i], threshold)
  {
    if Triggered(q[n], threshold) {
      CompactedIsSettled(q[n].parts[i], threshold);
    } else {
      assert !Exceeds(q[n].parts[i], threshold);
    }
  }

  /** A pass moves no committed group and forgets no message of the history. */
  lemma PassKeepsPositions(q: Queue, threshold: int, n: Bytes, i: nat, g: Bytes)
    requires InBounds(q) && n in q && i < |q[n].parts| && g in q[n].parts[i].offsets
    ensures var before, after := q[n].parts[i], Pass(q, threshold)[n].parts[i];
      && after.log == before.log
      && g in after.offsets
      && PartitionSpec.Position(after, g) == PartitionSpec.Position(before, g)
  {
    Refinement.CompactionExact(q[n].parts[i]);
  }

  /** A topic none of whose partitions exceeds the message threshold is compacted all the same
      exactly when some watermark exceeds half of it, and then that partition loses exactly
      its watermark. */
  lemma CompactsBelowThresholdExactly(t: Topic, threshold: int, i: nat)
    requires TopicSpec.InBounds(t) && i < |t.parts|
    requires forall j :: 0 <= j < |t.parts| ==> !(0 < threshold < |t.parts[j].live|)
    ensures Triggered(t, threshold) <==>
      exists j :: 0 <= j < |t.parts| && Half(threshold) < PartitionSpec.Watermark(t.parts[j].offsets)
    ensures Half(threshold) < PartitionSpec.Watermark(t.parts[i].offsets) ==>
      var before, after := t.parts[i], PassTopic(t, threshold).parts[i];
      && |before.live| - |after.live| == PartitionSpec.Watermark(before.offsets)
      && (0 <= threshold ==> |after.live| < |before.live|)
  {
    if Half(threshold) < PartitionSpec.Watermark(t.parts[i].offsets) {
      assert Exceeds(t.parts[i], threshold);
    }
    if j :| 0 <= j < |t.parts| && Half(threshold) < PartitionSpec.Watermark(t.parts[j].offsets) {
      assert Exceeds(t.parts[j], threshold);
    }
  }

  /** Threshold 4, three messages, all consumed: the pass removes the three. */
  lemma CompactsThreeBelowFour(name: Bytes, m: Message, g: Bytes)
    ensures var part := PartitionSpec.State([m, m, m], 0, map[g := 3], [m, m, m], 0);
      var t := TopicSpec.Topic(name, [part], TopicSpec.Modulo);
      |part.live| <= 4 && PassTopic(t, 4).parts[0].live == []
  {
    var part := PartitionSpec.State([m, m, m], 0, map[g := 3], [m, m, m], 0);
    PartitionSpec.WatermarkOfOne(g, 3);
    var t := TopicSpec.Topic(name, [part], TopicSpec.Modulo);
    assert Exceeds(t.parts[0], 4);
  }

  /** The pass in plain arithmetic: a partition loses exactly its watermark, and exactly when that
      is positive and the threshold is negative, or some partition of the topic is longer than
      a positive threshold or has a watermark that exceeds half of it. */
  lemma PassRemovesExactly(q: Queue, threshold: int, n: Bytes, i: nat)
    requires InBounds(q) && n in q && i < |q[n].parts|
    ensures var parts := q[n].parts;
      var before, w := parts[i], PartitionSpec.Watermark(parts[i].offsets);
      var due := w > 0 && (threshold < 0 || exists j :: 0 <= j < |parts| && Overdue(parts[j], threshold));
      && Pass(q, threshold).Keys == q.Keys
      && |Pass(q, threshold)[n].parts| == |parts|
      && 0 <= w <= |before.live|
      && Pass(q, threshold)[n].parts[i].live == (if due then before.live[w..] else before.live)
      && Pass(q, threshold)[n].parts[i].base == (if due then before.base + w else before.base)
      && (!due ==> Pass(q, threshold)[n].parts[i] == before)
  {
    var t, part := q[n], q[n].parts[i];
    if PartitionSpec.Watermark(part.offsets) == 0 {
      NothingToCut(part);
    }
    if threshold < 0 && PartitionSpec.Watermark(part.offsets) > 0 {
      assert Exceeds(part, threshold);
    }
    if threshold >= 0 {
      OverdueTriggers(t, threshold);
    }
  }

  /** Longer than a positive threshold, or a watermark over half of it. */
  ghost predicate Overdue(part: PartitionSpec.State, threshold: int) {
    0 < threshold < |part.live| || threshold < 2 * PartitionSpec.Watermark(part.offsets)
  }

  lemma OverdueTriggers(t: Topic, threshold: int)
    requires 0 <= threshold
    ensures Triggered(t, threshold) <==> exists j :: 0 <= j < |t.parts| && Overdue(t.parts[j], threshold)
  {
    forall j | 0 <= j < |t.parts| ensures Exceeds(t.parts[j], threshold) <==> Overdue(t.parts[j], threshold) {
    }
  }

  lemma NothingToCut(part: PartitionSpec.State)
    requires PartitionSpec.InBounds(part) && PartitionSpec.Watermark(part.offsets) == 0
    ensures PartitionSpec.Compact(part).0 == part
  {
    assert (map g | g in part.offsets :: part.offsets[g] - 0) == part.offsets;
  }

  lemma CompactingTwice(t: Topic)
    requires TopicSpec.InBounds(t)
    ensures TopicSpec.InBounds(Compacted(t)) && Compacted(Compacted(t)) == Compacted(t)
  {
    var u := Compacted(t);
    forall i | 0 <= i < |t.parts|
      ensures PartitionSpec.InBounds(u.parts[i]) && PartitionSpec.Compact(u.parts[i]).0 == u.parts[i]
    {
      Refinement.CompactionExact(t.parts[i]);
    }
    assert Compacted(u).parts == u.parts;
  }

  /** With nothing appended or committed in between, a second pass changes nothing. */
  lemma PassIsIdempotent(q: Queue, threshold: int)
    requires InBounds(q)
    ensures Pass(Pass(q, threshold), threshold) == Pass(q, threshold)
  {
    var p := Pass(q, threshold);
    forall n | n in q ensures PassTopic(p[n], threshold) == p[n] {
      CompactingTwice(q[n]);
    }
  }

  // ---------- Life cycle ----------

  /** `closes` counts the closes of the current done channel; Go panics on a second one. */
  datatype Scheduler = Scheduler(config: Config, running: bool, stopFired: bool, closes: nat)

  datatype Action =
    | Start
    | Stop
    | Update(config: Config)

  function New(config: Config): Scheduler {
    Scheduler(config, false, false, 0)
  }

  function StopOnce(s: Scheduler): Scheduler {
    if s.stopFired then s else s.(stopFired := true, closes := s.closes + 1)
  }

  function Started(s: Scheduler): Scheduler {
    if s.running || !s.config.enabled then s else s.(running := true)
  }

  function Act(s: Scheduler, a: Action): Scheduler {
    match a
    case Start => Started(s)
    case Stop => if !s.running then s else StopOnce(s.(running := false))
    case Update(config) =>
      var stopped := s.(running := false, config := config);
      var closed := if s.running then StopOnce(stopped) else stopped;
      if config.enabled then Started(closed.(stopFired := false, closes := 0)) else closed
  }

  function Live(s: Scheduler, actions: seq<Action>): Scheduler
    decreases |actions|
  {
    if actions == [] then s else Live(Act(s, actions[0]), actions[1..])
  }

  /** The tick branch of the loop. */
  ghost function Ticked(s: Scheduler, q: Queue): Queue {
    if s.running && s.config.enabled then Pass(q, s.config.thresholdMessages) else q
  }

  ghost predicate WellKept(s: Scheduler) {
    && s.closes == (if s.stopFired then 1 else 0)
    && (s.running ==> s.config.enabled)
  }

  /** Over any life: no done channel is closed twice, the flag has fired exactly when the
      current one is closed, and `running` alone already means that the configuration is enabled. */
  lemma {:induction false} LifeIsWellKept(s: Scheduler, actions: seq<Action>)
    requires WellKept(s)
    ensures WellKept(Live(s, actions))
    decreases |actions|
  {
    if actions != [] {
      LifeIsWellKept(Act(s, actions[0]), actions[1..]);
    }
  }

  /** The last action that put the done channel in its present state: a `Stop` of a running
      scheduler, or an update. */
  predicate StoppedSinceUpdate(s: Scheduler, actions: seq<Action>)
    decreases |actions|
  {
    if actions == [] then s.stopFired else
      var front, last := actions[..|actions| - 1], actions[|actions| - 1];
      match last
      case Start => StoppedSinceUpdate(s, front)
      case Stop => Live(s, front).running || StoppedSinceUpdate(s, front)
      case Update(config) => !config.enabled && (Live(s, front).running || StoppedSinceUpdate(s, front))
  }

  lemma {:induction false} LiveOfLast(s: Scheduler, actions: seq<Action>)
    requires actions != []
    ensures Live(s, actions) == Act(Live(s, actions[..|actions| - 1]), actions[|actions| - 1])
    decreases |actions|
  {
    if |actions| > 1 {
      assert actions[1..][..|actions| - 2] == actions[..|actions| - 1][1..];
      LiveOfLast(Act(s, actions[0]), actions[1..]);
    }
  }

  /** A scheduler that says it runs has an open done channel, so that its loop goes on,
      exactly when no stop took effect since it was made or last updated to enabled. */
  lemma {:induction false} RunsOnOpenChannel(config: Config, actions: seq<Action>)
    ensures Live(New(config), actions).closes == 0 <==> !StoppedSinceUpdate(New(config), actions)
    decreases |actions|
  {
    if actions != [] {
      var front := actions[..|actions| - 1];
      LiveOfLast(New(config), actions);
      RunsOnOpenChannel(config, front);
      LifeIsWellKept(New(config), front);
    }
  }

  /** What becomes of a loop that is entered in this state: it makes its ticker, which panics
      unless the interval is positive, and then selects on the done channel. */
  datatype Loop = Panics | Returns | Waits

  function Entered(s: Scheduler): Loop {
    if s.config.interval <= 0 then Panics else if s.closes > 0 then Returns else Waits
  }

  function LastConfig(config: Config, actions: seq<Action>): Config
    decreases |actions|
  {
    if actions == [] then config else
      var last := actions[|actions| - 1];
      if last.Update? then last.config else LastConfig(config, actions[..|actions| - 1])
  }

  lemma {:induction false} ConfigIsTheLast(s: Scheduler, actions: seq<Action>)
    ensures Live(s, actions).config == LastConfig(s.config, actions)
    decreases |actions|
  {
    if actions != [] {
      LiveOfLast(s, actions);
      ConfigIsTheLast(s, actions[..|actions| - 1]);
    }
  }

  /** After any life, the scheduler runs exactly when the last call was not a stop, there was
      one, and the last configuration is enabled: a start or an update has taken effect since
      the last stop. */
  lemma {:induction false} RunningExactlyWhen(config: Config, actions: seq<Action>)
    ensures Live(New(config), actions).running <==>
      actions != [] && !actions[|actions| - 1].Stop? && LastConfig(config, actions).enabled
    decreases |actions|
  {
    if actions != [] {
      var front := actions[..|actions| - 1];
      LiveOfLast(New(config), actions);
      LifeIsWellKept(New(config), front);
      ConfigIsTheLast(New(config), front);
    }
  }

  /** So a tick makes the pass, with the last threshold, exactly then, and else changes nothing. */
  lemma TickPassesExactlyWhen(config: Config, actions: seq<Action>, q: Queue)
    ensures var running := actions != [] && !actions[|actions| - 1].Stop? && LastConfig(config, actions).enabled;
      Ticked(Live(New(config), actions), q) ==
      if running then Pass(q, LastConfig(config, actions).thresholdMessages) else q
  {
    RunningExactlyWhen(config, actions);
    ConfigIsTheLast(New(config), actions);
  }

  /** After any life, a loop entered then stays alive exactly when the last interval set is
      positive and no stop took effect since the last enabling update. */
  lemma LoopIsAliveExactlyWhen(config: Config, actions: seq<Action>)
    ensures Entered(Live(New(config), actions)) == Waits <==>
      0 < LastConfig(config, actions).interval && !StoppedSinceUpdate(New(config), actions)
  {
    ConfigIsTheLast(New(config), actions);
    RunsOnOpenChannel(config, actions);
  }

  /** A scheduler made with interval 0 and started says that it runs, and its loop panics. */
  lemma ZeroIntervalPanics(threshold: int)
    ensures var s := Live(New(Config(true, 0, 0, threshold)), [Start]);
      s.running && Entered(s) == Panics
  {
    assert [Start][1..] == [];
  }

  /** So `Start` after `Stop` reports a running scheduler whose done channel is closed. */
  lemma RestartRunsOnClosedChannel(config: Config)
    requires config.enabled
    ensures var s := Live(New(config), [Start, Stop, Start]);
      s.running && s.closes == 1 && Entered(s) != Waits
  {
    var s0 := New(config);
    assert [Start, Stop, Start][1..] == [Stop, Start];
    assert [Stop, Start][1..] == [Start];
    assert [Start][1..] == [];
    assert Live(Act(Act(s0, Start), Stop), [Start]) == Act(Act(Act(s0, Start), Stop), Start);
  }
}

module Compactors {
  import opened Types
  import PartitionSpec
  import QueueSpec
  import opened Queues
  import Spec = CompactorSpec

  /** A Go channel used only to be closed; a second close panics. */
  class Channel {
    var closes: nat

    constructor ()
      ensures closes == 0
    {
      closes := 0;
    }

    method Close()
      requires closes == 0
      modifies this
      ensures closes == 1
    {
      closes := 1;
    }
  }

  class Compactor {
    const queue: Queue
    var config: Spec.Config
    var done: Channel
    var running: bool
    /** Whether the `sync.Once` has fired. */
    var stopOnce: bool

    ghost function View(): Spec.Scheduler
      reads this, done
    {
      Spec.Scheduler(config, running, stopOnce, done.closes)
    }

    ghost predicate Valid()
      reads this, done
    {
      Spec.WellKept(View())
    }

    constructor (queue: Queue, config: Spec.Config)
      ensures Valid() && View() == Spec.New(config) && this.queue == queue && fresh(done)
    {
      this.queue, this.config, running, stopOnce := queue, config, false, false;
      done := new Channel();
    }

    method Start()
      requires Valid()
      modifies this`running
      ensures Valid() && View() == Spec.Act(old(View()), Spec.Start)
    {
      if running {
        return;
      }
      if !config.enabled {
        return;
      }
      running := true;
    }

    method Stop()
      requires Valid()
      modifies this, done
      ensures Valid() && done == old(done) && View() == Spec.Act(old(View()), Spec.Stop)
    {
      if !running {
        return;
      }
      running := false;
      if !stopOnce {
        stopOnce := true;
        done.Close();
      }
    }

    method UpdateConfig(cfg: Spec.Config)
      requires Valid()
      modifies this, done
      ensures Valid() && View() == Spec.Act(old(View()), Spec.Update(cfg))
      ensures if cfg.enabled then fresh(done) else done == old(done)
    {
      var wasRunning := running;
      running := false;
      config := cfg;
      if wasRunning {
        if !stopOnce {
          stopOnce := true;
          done.Close();
        }
      }
      if cfg.enabled {
        done := new Channel();
        stopOnce := false;
        Start();
      }
    }

    /** The ticker branch of `compactionLoop`. */
    method Tick()
      requires Valid() && queue.Valid()
      modifies queue.Repr()
      ensures Valid() && queue.Valid()
      ensures queue.View() == Spec.Ticked(View(), old(queue.View()))
      ensures !running || !config.enabled ==> queue.View() == old(queue.View())
    {
      var shouldCompact := running && config.enabled;
      if shouldCompact {
        CheckAndCompact();
      }
    }

    method CheckAndCompact()
      requires queue.Valid()
      modifies queue.Repr()
      ensures queue.Valid() && queue.Repr() == old(queue.Repr())
      ensures queue.View() == Spec.Pass(old(queue.View()), config.thresholdMessages)
    {
      var names := queue.ListTopics();
      if |names| == 0 {
        assert queue.View() == map[];
        return;
      }
      CheckTopics(names, queue.View());
    }

    /** The loop over topics, from the queue `q`. */
    method CheckTopics(names: seq<Bytes>, ghost q: QueueSpec.Queue)
      requires queue.Valid() && queue.View() == q
      requires forall n :: n in q <==> n in names
      requires forall i, j :: 0 <= i < j < |names| ==> names[i] != names[j]
      modifies queue.Repr()
      ensures queue.Valid() && queue.Repr() == old(queue.Repr())
      ensures queue.View() == Spec.Pass(q, config.thresholdMessages)
    {
      Spec.PassBegins(q, names, config.thresholdMessages);
      for k := 0 to |names|
        invariant queue.Valid() && queue.Repr() == old(queue.Repr())
        invariant queue.View() == Spec.PassUpTo(q, names, k, config.thresholdMessages)
      {
        Spec.PassNext(q, names, k, config.thresholdMessages);
        CheckTopic(names[k], Spec.PassUpTo(q, names, k, config.thresholdMessages));
      }
      Spec.PassIsComplete(q, names, config.thresholdMessages);
    }

    /** One turn of it. */
    method CheckTopic(topicName: Bytes, ghost q: QueueSpec.Queue)
      requires queue.Valid() && queue.View() == q && topicName in q
      modifies queue.Repr()
      ensures queue.Valid() && queue.Repr() == old(queue.Repr())
      ensures queue.View() ==
              if Spec.Triggered(q[topicName], config.thresholdMessages) then QueueSpec.CompactTopic(q, topicName) else q
    {
      var trigger := CheckTopicTriggers(topicName);
      assert trigger <==> Spec.Triggered(q[topicName], config.thresholdMessages);
      if trigger {
        var results := queue.CompactTopic(topicName);
      }
    }

    method CheckTopicTriggers(topicName: Bytes) returns (trigger: bool)
      requires queue.Valid()
      ensures trigger <==> topicName in queue.View() && Spec.Triggered(queue.View()[topicName], config.thresholdMessages)
    {
      if topicName !in queue.topics {
        return false;
      }
      var topic := queue.topics[topicName];
      var threshold := config.thresholdMessages;
      for i := 0 to |topic.partitions|
        invariant forall j :: 0 <= j < i ==> !Spec.Exceeds(topic.View().parts[j], threshold)
      {
        var stats := queue.GetPartitionStats(topicName, i);
        if threshold > 0 {
          if stats.value.messageCount > threshold {
            assert Spec.Exceeds(topic.View().parts[i], threshold);
            return true;
          }
        }
        if stats.value.compactableCount > Spec.Half(threshold) {
          assert Spec.Exceeds(topic.View().parts[i], threshold);
          return true;
        }
      }
      return false;
    }
  }
}
