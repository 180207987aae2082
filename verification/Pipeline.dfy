/** The queue and its collectors in one run: producers publish to any topic, topics are
    created, the compactor and other groups act on the queue, and the collectors of group `g`
    drain one topic into the table. Every action on the queue is a stretch of legal steps of
    the fleet, so the table answers to the list of accepted publishes. */
module Pipeline {
  import opened Types
  import PartitionSpec
  import TopicSpec
  import QueueSpec
  import QueueRuns
  import opened Telemetry
  import Delivery
  import Fleet
  import opened CollectorRuns

  /** The queue beside its accepted publishes, and the collectors beside their table. */
  datatype System = System(world: QueueRuns.World, fleet: Fleet.State)

  datatype Action =
    | Request(op: QueueRuns.Op)
    | Work(p: nat, e: Delivery.Event)

  /** What is drained, and by whom. */
  datatype Setting = Setting(topic: Bytes, group: Bytes, defaultCapacity: int)

  /** The lanes with the partitions as the queue has them. */
  function Refreshed(lanes: seq<Delivery.Lane>, parts: seq<PartitionSpec.State>): seq<Delivery.Lane> {
    seq(|lanes|, i requires 0 <= i < |lanes| => if i < |parts| then lanes[i].(part := parts[i]) else lanes[i])
  }

  /** A request changes the queue and no collector. A collector changes the queue by its ack
      alone. */
  ghost function Act(codec: Codec, c: Setting, sys: System, action: Action): System {
    match action
    case Request(op) =>
      var world := QueueRuns.Step(sys.world, c.defaultCapacity, op);
      if c.topic !in world.queue then sys.(world := world) else
        System(world, sys.fleet.(lanes := Refreshed(sys.fleet.lanes, world.queue[c.topic].parts)))
    case Work(p, e) =>
      if p >= |sys.fleet.lanes| then sys else
        System(Acknowledged(c, sys, p, e), Fleet.Next(codec, c.group, sys.fleet, Fleet.Event(p, e)))
  }

  ghost function Acknowledged(c: Setting, sys: System, p: nat, e: Delivery.Event): QueueRuns.World
    requires p < |sys.fleet.lanes|
  {
    var l := sys.fleet.lanes[p];
    if e.SendAck? && e.c in l.flights && l.flights[e.c].next.Some? && !Delivery.Inserting(l, e.c) then
      QueueRuns.Step(sys.world, c.defaultCapacity,
        QueueRuns.Acknowledge(c.topic, c.group, p, l.flights[e.c].next.value))
    else sys.world
  }

  ghost function ActAll(codec: Codec, c: Setting, sys: System, actions: seq<Action>): System
    decreases |actions|
  {
    if actions == [] then sys else ActAll(codec, c, Act(codec, c, sys, actions[0]), actions[1..])
  }

  predicate ByCollector(e: Delivery.Event) {
    !e.Arrive? && !e.Sweep? && !e.OtherAck?
  }

  /** Publishes to the topic are keyed by gpu_id, only its collectors ack for the group, and
      the timing is what the protocol of one partition asks for. */
  ghost predicate Permitted(codec: Codec, c: Setting, sys: System, action: Action) {
    match action
    case Request(Create(_, _, _)) => true
    case Request(Send(topic, m)) => topic == c.topic ==> Fleet.KeyedByGpu(codec, m)
    case Request(Acknowledge(topic, group, _, _)) => topic != c.topic || group != c.group
    case Request(Shrink(topic)) => topic == c.topic ==> MaySweep(codec, c.group, sys.fleet)
    case Work(p, e) =>
      p < |sys.fleet.lanes| && ByCollector(e) &&
      Delivery.LegalStep(codec, c.group, Delivery.World(sys.fleet.lanes[p], sys.fleet.table), e)
  }

  ghost predicate MaySweep(codec: Codec, g: Bytes, s: Fleet.State) {
    forall p :: 0 <= p < |s.lanes| ==> Delivery.LegalStep(codec, g, Delivery.World(s.lanes[p], s.table), Delivery.Sweep)
  }

  ghost predicate AllPermitted(codec: Codec, c: Setting, sys: System, actions: seq<Action>)
    decreases |actions|
  {
    actions == [] ||
    (Permitted(codec, c, sys, actions[0]) && AllPermitted(codec, c, Act(codec, c, sys, actions[0]), actions[1..]))
  }

  // ---------- The fleet sees the queue ----------

  ghost predicate SamePartitions(lanes: seq<Delivery.Lane>, parts: seq<PartitionSpec.State>) {
    |lanes| == |parts| && forall p :: 0 <= p < |lanes| ==> lanes[p].part == parts[p]
  }

  /** The queue is what its accepted publishes make it, the topic is routed by `router`, and
      the fleet drains its partitions. */
  ghost predicate Coupled(codec: Codec, c: Setting, router: TopicSpec.Router, sys: System) {
    && QueueRuns.Inv(sys.world)
    && c.topic in sys.world.queue
    && sys.world.queue[c.topic].router == router
    && SamePartitions(sys.fleet.lanes, sys.world.queue[c.topic].parts)
    && forall m :: m in sys.world.accepted[c.topic] ==> Fleet.KeyedByGpu(codec, m)
  }

  ghost function RouteOf(router: TopicSpec.Router, s: Fleet.State): Fleet.Routing {
    TopicSpec.RoutingOf(router, |s.lanes|)
  }

  lemma RefreshedSame(lanes: seq<Delivery.Lane>, parts: seq<PartitionSpec.State>)
    requires SamePartitions(lanes, parts)
    ensures Refreshed(lanes, parts) == lanes
  {
  }

  lemma RefreshedAtOne(lanes: seq<Delivery.Lane>, parts: seq<PartitionSpec.State>, p: nat, part: PartitionSpec.State)
    requires SamePartitions(lanes, parts) && p < |lanes|
    ensures Refreshed(lanes, parts[p := part]) == lanes[p := lanes[p].(part := part)]
  {
  }

  /** A publish to the topic arrives at the partition its key routes to. */
  lemma SendReaches(codec: Codec, c: Setting, router: TopicSpec.Router, sys: System, m: Message)
    requires Coupled(codec, c, router, sys) && Fleet.KeyedByGpu(codec, m)
    ensures var sys' := Act(codec, c, sys, Request(QueueRuns.Send(c.topic, m)));
      Coupled(codec, c, router, sys') && Reaches(codec, RouteOf(router, sys.fleet), c.group, sys.fleet, sys'.fleet)
  {
    var route, t := RouteOf(router, sys.fleet), sys.world.queue[c.topic];
    var p := TopicSpec.PartitionOf(t, m.key);
    QueueRuns.StepKeepsInv(sys.world, c.defaultCapacity, QueueRuns.Send(c.topic, m));
    RefreshedSame(sys.fleet.lanes, t.parts);
    if m.key == [] {
      ReachesInNone(codec, route, c.group, sys.fleet);
    } else {
      RefreshedAtOne(sys.fleet.lanes, t.parts, p, PartitionSpec.Append(t.parts[p], m).0);
      ReachesInOne(codec, route, c.group, sys.fleet, Fleet.Event(p, Delivery.Arrive(m)));
    }
  }

  lemma AckReaches(codec: Codec, c: Setting, router: TopicSpec.Router, sys: System, h: Bytes, p: int, offset: int)
    requires Coupled(codec, c, router, sys) && h != c.group
    ensures var sys' := Act(codec, c, sys, Request(QueueRuns.Acknowledge(c.topic, h, p, offset)));
      Coupled(codec, c, router, sys') && Reaches(codec, RouteOf(router, sys.fleet), c.group, sys.fleet, sys'.fleet)
  {
    var route, t := RouteOf(router, sys.fleet), sys.world.queue[c.topic];
    QueueRuns.StepKeepsInv(sys.world, c.defaultCapacity, QueueRuns.Acknowledge(c.topic, h, p, offset));
    RefreshedSame(sys.fleet.lanes, t.parts);
    if 0 <= p < |t.parts| {
      RefreshedAtOne(sys.fleet.lanes, t.parts, p, PartitionSpec.Commit(t.parts[p], h, offset).0);
      ReachesInOne(codec, route, c.group, sys.fleet, Fleet.Event(p, Delivery.OtherAck(h, offset)));
    } else {
      ReachesInNone(codec, route, c.group, sys.fleet);
    }
  }

  /** The fleet with the first `n` lanes swept. */
  ghost function SweptUpTo(s: Fleet.State, n: nat): Fleet.State {
    s.(lanes := seq(|s.lanes|, i requires 0 <= i < |s.lanes| =>
      if i < n then s.lanes[i].(part := PartitionSpec.Compact(s.lanes[i].part).0) else s.lanes[i]))
  }

  lemma {:induction false} SweepsReach(codec: Codec, route: Fleet.Routing, g: Bytes, s: Fleet.State, n: nat)
    requires MaySweep(codec, g, s) && n <= |s.lanes|
    ensures Reaches(codec, route, g, s, SweptUpTo(s, n))
    decreases n
  {
    if n == 0 {
      assert SweptUpTo(s, 0).lanes == s.lanes;
      ReachesInNone(codec, route, g, s);
    } else {
      var before, sweep := SweptUpTo(s, n - 1), Fleet.Event(n - 1, Delivery.Sweep);
      SweepsReach(codec, route, g, s, n - 1);
      assert before.lanes[n - 1] == s.lanes[n - 1];
      ReachesInOne(codec, route, g, before, sweep);
      assert Fleet.Next(codec, g, before, sweep).lanes == SweptUpTo(s, n).lanes;
      ReachesInTwo(codec, route, g, s, before, SweptUpTo(s, n));
    }
  }

  /** A compaction of the topic is a sweep of each partition. */
  lemma ShrinkReaches(codec: Codec, c: Setting, router: TopicSpec.Router, sys: System)
    requires Coupled(codec, c, router, sys) && MaySweep(codec, c.group, sys.fleet)
    ensures var sys' := Act(codec, c, sys, Request(QueueRuns.Shrink(c.topic)));
      Coupled(codec, c, router, sys') && Reaches(codec, RouteOf(router, sys.fleet), c.group, sys.fleet, sys'.fleet)
  {
    var n, t := |sys.fleet.lanes|, sys.world.queue[c.topic];
    QueueRuns.StepKeepsInv(sys.world, c.defaultCapacity, QueueRuns.Shrink(c.topic));
    assert Refreshed(sys.fleet.lanes, QueueSpec.Compacted(t).parts) == SweptUpTo(sys.fleet, n).lanes;
    SweepsReach(codec, RouteOf(router, sys.fleet), c.group, sys.fleet, n);
  }

  /** Everything else a request can do leaves the topic alone. */
  lemma ElsewhereReaches(codec: Codec, c: Setting, router: TopicSpec.Router, sys: System, op: QueueRuns.Op)
    requires Coupled(codec, c, router, sys) && (op.Create? || op.topic != c.topic)
    ensures var sys' := Act(codec, c, sys, Request(op));
      Coupled(codec, c, router, sys') && Reaches(codec, RouteOf(router, sys.fleet), c.group, sys.fleet, sys'.fleet)
  {
    QueueRuns.StepKeepsInv(sys.world, c.defaultCapacity, op);
    RefreshedSame(sys.fleet.lanes, sys.world.queue[c.topic].parts);
    ReachesInNone(codec, RouteOf(router, sys.fleet), c.group, sys.fleet);
  }

  /** A collector's ack is the queue's ack, and its other steps leave the queue alone. */
  lemma WorkReaches(codec: Codec, c: Setting, router: TopicSpec.Router, sys: System, p: nat, e: Delivery.Event)
    requires Coupled(codec, c, router, sys) && Permitted(codec, c, sys, Work(p, e))
    ensures var sys' := Act(codec, c, sys, Work(p, e));
      Coupled(codec, c, router, sys') && Reaches(codec, RouteOf(router, sys.fleet), c.group, sys.fleet, sys'.fleet)
  {
    var l := sys.fleet.lanes[p];
    if e.SendAck? && e.c in l.flights && l.flights[e.c].next.Some? {
      QueueRuns.StepKeepsInv(sys.world, c.defaultCapacity,
        QueueRuns.Acknowledge(c.topic, c.group, p, l.flights[e.c].next.value));
    }
    ReachesInOne(codec, RouteOf(router, sys.fleet), c.group, sys.fleet, Fleet.Event(p, e));
  }

  lemma ActReaches(codec: Codec, c: Setting, router: TopicSpec.Router, sys: System, action: Action)
    requires Coupled(codec, c, router, sys) && Permitted(codec, c, sys, action)
    ensures var sys' := Act(codec, c, sys, action);
      Coupled(codec, c, router, sys') && Reaches(codec, RouteOf(router, sys.fleet), c.group, sys.fleet, sys'.fleet)
  {
    match action
    case Work(p, e) => WorkReaches(codec, c, router, sys, p, e);
    case Request(op) =>
      if op.Create? || op.topic != c.topic {
        ElsewhereReaches(codec, c, router, sys, op);
      } else {
        match op
        case Send(_, m) => SendReaches(codec, c, router, sys, m);
        case Acknowledge(_, h, p, offset) => AckReaches(codec, c, router, sys, h, p, offset);
        case Shrink(_) => ShrinkReaches(codec, c, router, sys);
      }
  }

  /** Every permitted run of the system, seen from the fleet, is a legal run of the fleet. */
  lemma {:induction false} SystemRunIsFleetRun(
      codec: Codec, c: Setting, router: TopicSpec.Router, sys: System, actions: seq<Action>)
    requires Coupled(codec, c, router, sys) && AllPermitted(codec, c, sys, actions)
    ensures var sys' := ActAll(codec, c, sys, actions);
      Coupled(codec, c, router, sys') && Reaches(codec, RouteOf(router, sys.fleet), c.group, sys.fleet, sys'.fleet)
    decreases |actions|
  {
    if actions == [] {
      ReachesInNone(codec, RouteOf(router, sys.fleet), c.group, sys.fleet);
    } else {
      var next := Act(codec, c, sys, actions[0]);
      ActReaches(codec, c, router, sys, actions[0]);
      ReachesSameWidth(codec, RouteOf(router, sys.fleet), c.group, sys.fleet, next.fleet);
      SystemRunIsFleetRun(codec, c, router, next, actions[1..]);
      ReachesInTwo(codec, RouteOf(router, sys.fleet), c.group, sys.fleet, next.fleet,
                   ActAll(codec, c, next, actions[1..]).fleet);
    }
  }

  lemma ReachesSameWidth(codec: Codec, route: Fleet.Routing, g: Bytes, s: Fleet.State, s': Fleet.State)
    requires Reaches(codec, route, g, s, s')
    ensures |s'.lanes| == |s.lanes|
  {
  }

  // ---------- The table and the publishes ----------

  /** The rows of one partition are the fold of the publishes routed to it. */
  lemma {:induction false} OnlyOfStoreAll(codec: Codec, route: Fleet.Routing, ms: seq<Message>, p: nat)
    requires forall m :: m in ms ==> Fleet.KeyedByGpu(codec, m)
    ensures Fleet.Only(route, StoreAll(codec, map[], ms), p) == StoreAll(codec, map[], QueueRuns.Routed(route, ms, p))
    decreases |ms|
  {
    if ms == [] {
      assert Fleet.Only(route, map[], p) == map[];
    } else {
      var front, m := ms[..|ms| - 1], ms[|ms| - 1];
      OnlyOfStoreAll(codec, route, front, p);
      assert Fleet.KeyedByGpu(codec, m) by { assert m in ms; }
      assert Fleet.Homed(codec, route, m, route(m.key));
      Fleet.StoreTouchesOnlyItsPartition(codec, route, StoreAll(codec, map[], front), m, route(m.key), p);
      var routed := QueueRuns.Routed(route, front, p);
      if route(m.key) == p {
        assert QueueRuns.Routed(route, ms, p) == routed + [m];
        assert (routed + [m])[..|routed|] == routed;
      } else {
        assert QueueRuns.Routed(route, ms, p) == routed;
      }
    }
  }

  /** Tables that agree partition by partition are the same. */
  lemma TablesAgree(route: Fleet.Routing, n: nat, t: Table, u: Table)
    requires forall key :: route(key) < n
    requires forall p: nat :: p < n ==> Fleet.Only(route, t, p) == Fleet.Only(route, u, p)
    ensures t == u
  {
    forall key: Key ensures (key in t <==> key in u) && (key in t && key in u ==> t[key] == u[key]) {
      var p := route(key.gpuId);
      assert key in t <==> key in Fleet.Only(route, t, p);
      assert key in u <==> key in Fleet.Only(route, u, p);
    }
  }

  /** The system as it starts: nothing in flight, no rows, nothing yet accepted for the topic. */
  function Initial(world: QueueRuns.World, topic: Bytes): System
    requires topic in world.queue
  {
    var parts := world.queue[topic].parts;
    var lanes := seq(|parts|, i requires 0 <= i < |parts| => Delivery.Lane(parts[i], map[], {}, 0));
    System(world, Fleet.State(lanes, map[]))
  }

  lemma InitialIsFresh(codec: Codec, c: Setting, world: QueueRuns.World)
    requires QueueRuns.Inv(world) && c.topic in world.queue && world.accepted[c.topic] == []
    ensures var sys := Initial(world, c.topic);
      var router := world.queue[c.topic].router;
      Coupled(codec, c, router, sys) && Fresh(codec, RouteOf(router, sys.fleet), c.group, sys.fleet)
  {
    var sys := Initial(world, c.topic);
    forall p | 0 <= p < |sys.fleet.lanes|
      ensures sys.fleet.lanes[p].part.log == []
      ensures Delivery.Start(Delivery.World(sys.fleet.lanes[p], sys.fleet.table), c.group)
    {
      assert sys.fleet.lanes[p].part.log == QueueRuns.Routed(QueueRuns.RoutingOf(world.queue[c.topic]), [], p);
    }
  }

  ghost predicate Drained(q: QueueSpec.Queue, topic: Bytes, g: Bytes)
    requires topic in q
  {
    forall p :: 0 <= p < |q[topic].parts| ==>
      PartitionSpec.Position(q[topic].parts[p], g) == |q[topic].parts[p].log|
  }

  lemma DrainedRows(codec: Codec, route: Fleet.Routing, g: Bytes, s: Fleet.State, s': Fleet.State, p: nat)
    requires Fresh(codec, route, g, s) && Reaches(codec, route, g, s, s') && p < |s.lanes|
    requires s.lanes[p].hi == 0 && s.table == map[]
    ensures |s'.lanes| == |s.lanes|
    ensures PartitionSpec.Position(s'.lanes[p].part, g) == |s'.lanes[p].part.log| ==>
      Fleet.Only(route, s'.table, p) == StoreAll(codec, map[], s'.lanes[p].part.log)
  {
    ReachedIsAccounted(codec, route, g, s, s', p);
    var part := s'.lanes[p].part;
    assert part.log[0..|part.log|] == part.log;
    assert Fleet.Only(route, map[], p) == map[];
  }

  /** End to end. From an empty queue, after any requests that create the topic and before its
      first accepted publish, the collectors start with an empty table. Then come any
      publishes to any topics, compactions, acks of other groups and any interleaving of any
      number of collectors. Whenever every partition of the topic is drained, the table is
      the first-wins fold of the accepted publishes, in the order they were accepted: it does
      not show partitions, collectors or compactions at all. */
  lemma DrainedTableIsFoldOfPublishes(
      codec: Codec, c: Setting, before: seq<QueueRuns.Op>, world: QueueRuns.World, actions: seq<Action>)
    requires world == QueueRuns.Run(QueueRuns.World(map[], map[]), c.defaultCapacity, before)
    requires c.topic in world.queue && c.topic in world.accepted && world.accepted[c.topic] == []
    requires AllPermitted(codec, c, Initial(world, c.topic), actions)
    ensures var sys := ActAll(codec, c, Initial(world, c.topic), actions);
      && c.topic in sys.world.queue && c.topic in sys.world.accepted
      && (Drained(sys.world.queue, c.topic, c.group) ==>
            sys.fleet.table == StoreAll(codec, map[], sys.world.accepted[c.topic]))
  {
    QueueRuns.RunKeepsInv(QueueRuns.World(map[], map[]), c.defaultCapacity, before);
    var start, router := Initial(world, c.topic), world.queue[c.topic].router;
    InitialIsFresh(codec, c, world);
    SystemRunIsFleetRun(codec, c, router, start, actions);
    var sys := ActAll(codec, c, start, actions);
    if Drained(sys.world.queue, c.topic, c.group) {
      DrainedFold(codec, c, router, start, sys);
    }
  }

  lemma DrainedFold(codec: Codec, c: Setting, router: TopicSpec.Router, start: System, sys: System)
    requires Fresh(codec, RouteOf(router, start.fleet), c.group, start.fleet) && start.fleet.table == map[]
    requires forall p :: 0 <= p < |start.fleet.lanes| ==> start.fleet.lanes[p].hi == 0
    requires Coupled(codec, c, router, sys) && Drained(sys.world.queue, c.topic, c.group)
    requires Reaches(codec, RouteOf(router, start.fleet), c.group, start.fleet, sys.fleet)
    ensures sys.fleet.table == StoreAll(codec, map[], sys.world.accepted[c.topic])
  {
    var route, n := RouteOf(router, start.fleet), |start.fleet.lanes|;
    var ms, t := sys.world.accepted[c.topic], sys.world.queue[c.topic];
    ReachesSameWidth(codec, route, c.group, start.fleet, sys.fleet);
    forall p: nat | p < n
      ensures Fleet.Only(route, sys.fleet.table, p) == Fleet.Only(route, StoreAll(codec, map[], ms), p)
    {
      DrainedRows(codec, route, c.group, start.fleet, sys.fleet, p);
      OnlyOfStoreAll(codec, route, ms, p);
      assert t.parts[p].log == QueueRuns.Routed(QueueRuns.RoutingOf(t), ms, p);
    }
    TablesAgree(route, n, sys.fleet.table, StoreAll(codec, map[], ms));
  }

  predicate IsFirstCarrier(codec: Codec, ms: seq<Message>, i: int, key: Key) {
    0 <= i < |ms| && Carries(codec, ms[i], key) && forall j :: 0 <= j < i ==> !Carries(codec, ms[j], key)
  }

  /** Row by row: a (gpu, instant) has a row exactly when an accepted publish carries it, and
      then it is the row of the first one accepted. */
  lemma DrainedRowIsFirstPublish(
      codec: Codec, c: Setting, before: seq<QueueRuns.Op>, world: QueueRuns.World, actions: seq<Action>, key: Key)
    requires world == QueueRuns.Run(QueueRuns.World(map[], map[]), c.defaultCapacity, before)
    requires c.topic in world.queue && c.topic in world.accepted && world.accepted[c.topic] == []
    requires AllPermitted(codec, c, Initial(world, c.topic), actions)
    ensures var sys := ActAll(codec, c, Initial(world, c.topic), actions);
      && c.topic in sys.world.queue && c.topic in sys.world.accepted
      && var ms := sys.world.accepted[c.topic];
         Drained(sys.world.queue, c.topic, c.group) ==>
           && (key in sys.fleet.table <==> exists i :: 0 <= i < |ms| && Carries(codec, ms[i], key))
           && forall i :: IsFirstCarrier(codec, ms, i, key) ==>
                key in sys.fleet.table && sys.fleet.table[key] == DataOf(codec, ms[i])
  {
    DrainedTableIsFoldOfPublishes(codec, c, before, world, actions);
    var sys := ActAll(codec, c, Initial(world, c.topic), actions);
    StoreAllIsFirstWins(codec, map[], sys.world.accepted[c.topic], key);
  }
}
