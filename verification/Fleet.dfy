/** All partitions of a topic drained into one table. Producers use a record's gpu_id as the
    message key, so the rows of different partitions never meet, and the run of the whole
    fleet projects onto one protocol run for each partition. */
module Fleet {
  import opened Types
  import opened Telemetry
  import opened Delivery
  import PartitionSpec
  import QueueRuns
  import TopicSpec

  datatype State = State(lanes: seq<Lane>, table: Table)

  datatype Event = Event(p: nat, e: Delivery.Event)

  type Routing = Bytes -> nat

  /** A message that lies in the partition its record's gpu_id routes to. */
  ghost predicate Homed(codec: Codec, route: Routing, m: Message, p: nat) {
    forall key :: Carries(codec, m, key) ==> route(key.gpuId) == p
  }

  /** The rows whose gpu_id routes to partition `p`. */
  function Only(route: Routing, table: Table, p: nat): Table {
    map key | key in table && route(key.gpuId) == p :: table[key]
  }

  lemma StoreTouchesOnlyItsPartition(codec: Codec, route: Routing, table: Table, m: Message, p: nat, q: nat)
    requires Homed(codec, route, m, p)
    ensures Only(route, Store(codec, table, m), q) ==
            if q == p then Store(codec, Only(route, table, p), m) else Only(route, table, q)
  {
    match codec.unmarshal(m.payload)
    case None =>
    case Some(rec) =>
      if ValidRecord(codec, rec) {
        assert Carries(codec, m, KeyOf(codec, rec));
      }
  }

  /** One partition as the single-partition protocol sees it. */
  ghost function Project(route: Routing, s: State, p: nat): World
    requires p < |s.lanes|
  {
    World(s.lanes[p], Only(route, s.table, p))
  }

  ghost function Next(codec: Codec, g: Bytes, s: State, event: Event): (s': State)
    requires event.p < |s.lanes|
    ensures |s'.lanes| == |s.lanes|
  {
    var w := Delivery.Next(codec, g, World(s.lanes[event.p], s.table), event.e);
    State(s.lanes[event.p := w.lane], w.table)
  }

  ghost function Run(codec: Codec, g: Bytes, s: State, events: seq<Event>): (s': State)
    requires forall event :: event in events ==> event.p < |s.lanes|
    ensures |s'.lanes| == |s.lanes|
    decreases |events|
  {
    if events == [] then s else Run(codec, g, Next(codec, g, s, events[0]), events[1..])
  }

  predicate InRange(s: State, events: seq<Event>) {
    forall event :: event in events ==> event.p < |s.lanes|
  }

  ghost predicate LegalStep(codec: Codec, route: Routing, g: Bytes, s: State, event: Event) {
    && event.p < |s.lanes|
    && Delivery.LegalStep(codec, g, World(s.lanes[event.p], s.table), event.e)
    && (event.e.Arrive? ==> Homed(codec, route, event.e.m, event.p))
  }

  ghost predicate Legal(codec: Codec, route: Routing, g: Bytes, s: State, events: seq<Event>)
    decreases |events|
  {
    events == [] ||
    (LegalStep(codec, route, g, s, events[0]) &&
     Legal(codec, route, g, Next(codec, g, s, events[0]), events[1..]))
  }

  lemma {:induction false} LegalEventsAreInRange(codec: Codec, route: Routing, g: Bytes, s: State, events: seq<Event>)
    requires Legal(codec, route, g, s, events)
    ensures forall event :: event in events ==> event.p < |s.lanes|
    decreases |events|
  {
    if events != [] {
      LegalEventsAreInRange(codec, route, g, Next(codec, g, s, events[0]), events[1..]);
    }
  }

  lemma {:induction false} RunOfConcat(
      codec: Codec, route: Routing, g: Bytes, s: State, xs: seq<Event>, ys: seq<Event>)
    requires InRange(s, xs) && InRange(s, ys)
    requires Legal(codec, route, g, s, xs) && Legal(codec, route, g, Run(codec, g, s, xs), ys)
    ensures InRange(s, xs + ys) && Legal(codec, route, g, s, xs + ys)
    ensures Run(codec, g, s, xs + ys) == Run(codec, g, Run(codec, g, s, xs), ys)
    decreases |xs|
  {
    if xs == [] {
      assert xs + ys == ys;
    } else {
      assert (xs + ys)[1..] == xs[1..] + ys;
      RunOfConcat(codec, route, g, Next(codec, g, s, xs[0]), xs[1..], ys);
    }
  }

  // ---------- Projection ----------

  ghost predicate AllHomed(codec: Codec, route: Routing, log: seq<Message>, p: nat) {
    forall i :: 0 <= i < |log| ==> Homed(codec, route, log[i], p)
  }

  /** Each partition, beside its own rows, satisfies the invariant of the protocol. */
  ghost predicate Inv(codec: Codec, route: Routing, g: Bytes, c0: seq<nat>, t0: Table, s: State) {
    && |c0| == |s.lanes|
    && forall p :: 0 <= p < |s.lanes| ==>
         && AllHomed(codec, route, s.lanes[p].part.log, p)
         && Delivery.Inv(codec, g, c0[p], Only(route, t0, p), Project(route, s, p))
  }

  lemma LaneIgnoresTable(codec: Codec, g: Bytes, l: Lane, t: Table, u: Table, e: Delivery.Event)
    ensures Delivery.Next(codec, g, World(l, t), e).lane == Delivery.Next(codec, g, World(l, u), e).lane
  {
  }

  lemma InsertProjects(
      codec: Codec, route: Routing, g: Bytes, c0: nat, l: Lane, table: Table,
      p: nat, c: int, accepted: bool, q: nat)
    requires Delivery.Sound(l, g, c0) && AllHomed(codec, route, l.part.log, p)
    ensures Only(route, Delivery.Next(codec, g, World(l, table), InsertNext(c, accepted)).table, q) ==
            if q == p then Delivery.Next(codec, g, World(l, Only(route, table, p)), InsertNext(c, accepted)).table
            else Only(route, table, q)
  {
    if Inserting(l, c) {
      var f := l.flights[c];
      assert Airborne(l, c0, f);
      assert f.batch[f.done] == l.part.log[f.start + f.done];
      StoreTouchesOnlyItsPartition(codec, route, table, f.batch[f.done], p, q);
    }
  }

  /** A step of partition `p` is a step of its projection and no step of any other. */
  lemma StepProjects(codec: Codec, route: Routing, g: Bytes, c0: nat, s: State, event: Event, q: nat)
    requires event.p < |s.lanes| && q < |s.lanes|
    requires Delivery.Sound(s.lanes[event.p], g, c0)
    requires AllHomed(codec, route, s.lanes[event.p].part.log, event.p)
    ensures Project(route, Next(codec, g, s, event), q) ==
            if q == event.p then Delivery.Next(codec, g, Project(route, s, q), event.e)
            else Project(route, s, q)
  {
    var l := s.lanes[event.p];
    LaneIgnoresTable(codec, g, l, s.table, Only(route, s.table, q), event.e);
    if event.e.InsertNext? {
      InsertProjects(codec, route, g, c0, l, s.table, event.p, event.e.c, event.e.accepted, q);
    } else {
      OthersKeepTheFold(codec, g, World(l, s.table), event.e);
      OthersKeepTheFold(codec, g, World(l, Only(route, s.table, q)), event.e);
    }
  }

  lemma StepKeepsInv(codec: Codec, route: Routing, g: Bytes, c0: seq<nat>, t0: Table, s: State, event: Event)
    requires Inv(codec, route, g, c0, t0, s)
    requires LegalStep(codec, route, g, s, event)
    ensures Inv(codec, route, g, c0, t0, Next(codec, g, s, event))
  {
    var s' := Next(codec, g, s, event);
    forall q | 0 <= q < |s.lanes|
      ensures AllHomed(codec, route, s'.lanes[q].part.log, q)
      ensures Delivery.Inv(codec, g, c0[q], Only(route, t0, q), Project(route, s', q))
    {
      StepProjects(codec, route, g, c0[event.p], s, event, q);
      if q == event.p {
        LogStaysHomed(codec, route, g, s, event);
        Delivery.StepKeepsInv(codec, g, c0[q], Only(route, t0, q), Project(route, s, q), event.e);
      }
    }
  }

  lemma LogStaysHomed(codec: Codec, route: Routing, g: Bytes, s: State, event: Event)
    requires LegalStep(codec, route, g, s, event)
    requires AllHomed(codec, route, s.lanes[event.p].part.log, event.p)
    ensures AllHomed(codec, route, Next(codec, g, s, event).lanes[event.p].part.log, event.p)
  {
  }

  lemma {:induction false} RunKeepsInv(
      codec: Codec, route: Routing, g: Bytes, c0: seq<nat>, t0: Table, s: State, events: seq<Event>)
    requires Inv(codec, route, g, c0, t0, s)
    requires Legal(codec, route, g, s, events)
    requires forall event :: event in events ==> event.p < |s.lanes|
    ensures Inv(codec, route, g, c0, t0, Run(codec, g, s, events))
    decreases |events|
  {
    if events != [] {
      StepKeepsInv(codec, route, g, c0, t0, s, events[0]);
      RunKeepsInv(codec, route, g, c0, t0, Next(codec, g, s, events[0]), events[1..]);
    }
  }

  /** Any number of collectors over all partitions: every row belongs to one partition, and
      the rows of each are the first-wins fold of that partition's processed prefix. So the
      table depends on the logs and on how far each has been processed, on nothing else. */
  lemma FleetTableIsFoldOfEachPartition(codec: Codec, route: Routing, g: Bytes, s0: State, events: seq<Event>, p: nat)
    requires Legal(codec, route, g, s0, events) && p < |s0.lanes|
    requires forall q :: 0 <= q < |s0.lanes| ==>
      Start(World(s0.lanes[q], s0.table), g) && AllHomed(codec, route, s0.lanes[q].part.log, q)
    ensures forall event :: event in events ==> event.p < |s0.lanes|
    ensures s0.lanes[p].hi == PartitionSpec.Position(s0.lanes[p].part, g)
    ensures Accounted(codec, g, s0.lanes[p].hi, Only(route, s0.table, p), Project(route, Run(codec, g, s0, events), p))
  {
    var c0: seq<nat> := seq(|s0.lanes|, q requires 0 <= q < |s0.lanes| => s0.lanes[q].hi);
    LegalEventsAreInRange(codec, route, g, s0, events);
    forall q | 0 <= q < |s0.lanes|
      ensures Delivery.Inv(codec, g, c0[q], Only(route, s0.table, q), Project(route, s0, q))
    {
      assert s0.lanes[q].part.log[c0[q]..c0[q]] == [];
      assert Start(World(s0.lanes[q], s0.table), g);
    }
    RunKeepsInv(codec, route, g, c0, s0.table, s0, events);
    assert Start(World(s0.lanes[p], s0.table), g);
  }

  // ---------- Where the hypothesis comes from ----------

  /** The streamer keys each message by its record's gpu_id. */
  ghost predicate KeyedByGpu(codec: Codec, m: Message) {
    forall key :: Carries(codec, m, key) ==> key.gpuId == m.key
  }

  /** Then every partition log the queue can reach is homed under the topic's own routing. */
  lemma QueueLogsAreHomed(codec: Codec, t: TopicSpec.Topic, accepted: seq<Message>, p: nat)
    requires QueueRuns.Faithful(t, accepted) && p < |t.parts|
    requires forall m :: m in accepted ==> KeyedByGpu(codec, m)
    ensures AllHomed(codec, QueueRuns.RoutingOf(t), t.parts[p].log, p)
  {
    RoutedMessages(QueueRuns.RoutingOf(t), accepted, p);
    forall i | 0 <= i < |t.parts[p].log| ensures Homed(codec, QueueRuns.RoutingOf(t), t.parts[p].log[i], p) {
      assert t.parts[p].log[i] in accepted;
    }
  }

  lemma {:induction false} RoutedMessages(route: Routing, ms: seq<Message>, p: nat)
    ensures forall m :: m in QueueRuns.Routed(route, ms, p) ==> m in ms && route(m.key) == p
    decreases |ms|
  {
    if ms != [] {
      RoutedMessages(route, ms[..|ms| - 1], p);
    }
  }
}
