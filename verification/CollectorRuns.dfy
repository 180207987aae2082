/** The poll loop end to end. Every visit of a collector is a legal stretch of a run of the
    fleet, also while other collectors, producers and the compactor act between its visits, so
    the table is accounted for after any number of polls. */
module CollectorRuns {
  import opened Types
  import PartitionSpec
  import TopicSpec
  import QueueSpec
  import opened Telemetry
  import Delivery
  import Fleet
  import opened CollectorSpec

  /** The fleet state shows this queue and this table, and collector `c` has nothing in flight. */
  ghost predicate Shows(s: Fleet.State, q: QueueSpec.Queue, topic: Bytes, table: Table, c: int) {
    && topic in q && |s.lanes| == |q[topic].parts| && s.table == table
    && forall p :: 0 <= p < |s.lanes| ==> s.lanes[p].part == q[topic].parts[p] && c !in s.lanes[p].flights
  }

  function Tag(p: nat, events: seq<Delivery.Event>): seq<Fleet.Event> {
    seq(|events|, i requires 0 <= i < |events| => Fleet.Event(p, events[i]))
  }

  // ---------- Legality and composition ----------

  lemma {:induction false} LegalOfConcat(
      codec: Codec, g: Bytes, w: Delivery.World, xs: seq<Delivery.Event>, ys: seq<Delivery.Event>)
    requires Delivery.Legal(codec, g, w, xs) && Delivery.Legal(codec, g, Delivery.Run(codec, g, w, xs), ys)
    ensures Delivery.Legal(codec, g, w, xs + ys)
    decreases |xs|
  {
    if xs == [] {
      assert xs + ys == ys;
    } else {
      assert (xs + ys)[1..] == xs[1..] + ys;
      LegalOfConcat(codec, g, Delivery.Next(codec, g, w, xs[0]), xs[1..], ys);
    }
  }

  lemma LegalOfOne(codec: Codec, g: Bytes, w: Delivery.World, e: Delivery.Event)
    requires Delivery.LegalStep(codec, g, w, e)
    ensures Delivery.Legal(codec, g, w, [e])
  {
    assert [e][1..] == [];
  }

  lemma {:induction false} LegalInserts(codec: Codec, g: Bytes, w: Delivery.World, c: int, k: nat, refused: nat -> bool)
    requires c in w.lane.flights && w.lane.flights[c].done == 0 && w.lane.flights[c].next.Some?
    requires k <= |w.lane.flights[c].batch| && Harmless(codec, w.table, w.lane.flights[c].batch, refused)
    ensures Delivery.Legal(codec, g, w, Inserts(c, k, refused))
    decreases k
  {
    if k > 0 {
      var last := Delivery.InsertNext(c, !refused(k - 1));
      LegalInserts(codec, g, w, c, k - 1, refused);
      InsertsStoreTheBatch(codec, g, w, c, k - 1, refused);
      LegalOfOne(codec, g, Delivery.Run(codec, g, w, Inserts(c, k - 1, refused)), last);
      LegalOfConcat(codec, g, w, Inserts(c, k - 1, refused), [last]);
      assert Inserts(c, k, refused) == Inserts(c, k - 1, refused) + [last];
    }
  }

  /** Nothing comes between the two reads of a visit's consume. */
  lemma LegalVisit(codec: Codec, g: Bytes, w: Delivery.World, c: int, batch: int, refused: nat -> bool, losesAck: bool)
    requires c !in w.lane.flights && Delivery.Fetched(w.lane.part, g, batch).Some?
    requires Harmless(codec, w.table, Delivery.Fetched(w.lane.part, g, batch).value.batch, refused)
    ensures var k := |Delivery.Fetched(w.lane.part, g, batch).value.batch|;
      Delivery.Legal(codec, g, w, VisitEvents(c, batch, k, refused, losesAck))
  {
    var k := |Delivery.Fetched(w.lane.part, g, batch).value.batch|;
    var inserts, last := Inserts(c, k, refused), LastEvent(c, losesAck);
    var w1 := Delivery.Next(codec, g, w, Delivery.ReadBatch(c, batch));
    var w2 := Delivery.Next(codec, g, w1, Delivery.Answer(c));
    LegalInserts(codec, g, w2, c, k, refused);
    LegalOfOne(codec, g, Delivery.Run(codec, g, w2, inserts), last);
    LegalOfConcat(codec, g, w2, inserts, [last]);
    assert ([Delivery.Answer(c)] + (inserts + [last]))[1..] == inserts + [last];
    assert Delivery.Legal(codec, g, w1, [Delivery.Answer(c)] + (inserts + [last]));
    assert VisitEvents(c, batch, k, refused, losesAck)[1..] == [Delivery.Answer(c)] + (inserts + [last]);
  }

  /** Events of one partition move that lane and the table, and nothing else. */
  lemma {:induction false} TagRun(
      codec: Codec, route: Fleet.Routing, g: Bytes, s: Fleet.State, p: nat, events: seq<Delivery.Event>)
    requires p < |s.lanes| && forall e :: e in events ==> !e.Arrive?
    requires Delivery.Legal(codec, g, Delivery.World(s.lanes[p], s.table), events)
    ensures Fleet.Legal(codec, route, g, s, Tag(p, events))
    ensures var w := Delivery.Run(codec, g, Delivery.World(s.lanes[p], s.table), events);
      Fleet.Run(codec, g, s, Tag(p, events)) == Fleet.State(s.lanes[p := w.lane], w.table)
    decreases |events|
  {
    if events == [] {
      assert s.lanes[p := s.lanes[p]] == s.lanes;
    } else {
      var s1 := Fleet.Next(codec, g, s, Fleet.Event(p, events[0]));
      assert Tag(p, events)[1..] == Tag(p, events[1..]);
      assert events[0] in events;
      TagRun(codec, route, g, s1, p, events[1..]);
    }
  }

  // ---------- Reachability ----------

  /** `s'` is reached from `s` by some legal fleet run. */
  ghost predicate Reaches(codec: Codec, route: Fleet.Routing, g: Bytes, s: Fleet.State, s': Fleet.State) {
    exists events ::
      Fleet.Legal(codec, route, g, s, events) && Fleet.InRange(s, events) && Fleet.Run(codec, g, s, events) == s'
  }

  lemma ReachesInTwo(codec: Codec, route: Fleet.Routing, g: Bytes, s: Fleet.State, s1: Fleet.State, s2: Fleet.State)
    requires Reaches(codec, route, g, s, s1) && Reaches(codec, route, g, s1, s2)
    ensures Reaches(codec, route, g, s, s2)
  {
    var xs :| Fleet.Legal(codec, route, g, s, xs) && Fleet.InRange(s, xs) && Fleet.Run(codec, g, s, xs) == s1;
    var ys :| Fleet.Legal(codec, route, g, s1, ys) && Fleet.InRange(s1, ys) && Fleet.Run(codec, g, s1, ys) == s2;
    Fleet.RunOfConcat(codec, route, g, s, xs, ys);
  }

  lemma ReachesInNone(codec: Codec, route: Fleet.Routing, g: Bytes, s: Fleet.State)
    ensures Reaches(codec, route, g, s, s)
  {
    assert Fleet.Legal(codec, route, g, s, []) && Fleet.InRange(s, []) && Fleet.Run(codec, g, s, []) == s;
  }

  lemma ReachesInOne(codec: Codec, route: Fleet.Routing, g: Bytes, s: Fleet.State, event: Fleet.Event)
    requires Fleet.LegalStep(codec, route, g, s, event)
    ensures Reaches(codec, route, g, s, Fleet.Next(codec, g, s, event))
  {
    assert [event][1..] == [];
    assert Fleet.InRange(s, [event]);
    assert Fleet.Legal(codec, route, g, s, [event]);
    assert Fleet.Run(codec, g, s, [event]) == Fleet.Next(codec, g, s, event);
  }

  // ---------- A visit among other steps ----------

  /** What the visit reads, if anything. */
  function VisitReads(cfg: Config, net: Network, poll: nat, p: nat, q: QueueSpec.Queue): Option<Delivery.Flight> {
    if !QueueSpec.Addressed(q, cfg.topic, p) || cfg.group == [] || net.losesConsume(poll, p) then None
    else Delivery.Fetched(q[cfg.topic].parts[p], cfg.group, cfg.batchSize)
  }

  /** The database refuses nothing in this visit but what is redundant. */
  predicate VisitIsHarmless(codec: Codec, cfg: Config, net: Network, poll: nat, p: nat, q: QueueSpec.Queue, table: Table) {
    VisitReads(cfg, net, poll, p, q).Some? ==>
      Harmless(codec, table, VisitReads(cfg, net, poll, p, q).value.batch, Refusals(net, poll, p))
  }

  /** The fleet after the visit of collector `c`. */
  ghost function VisitedFleet(codec: Codec, cfg: Config, net: Network, poll: nat, p: nat,
                              q: QueueSpec.Queue, s: Fleet.State, c: int): Fleet.State
  {
    var got := VisitReads(cfg, net, poll, p, q);
    if got.None? || |s.lanes| <= p then s else
      var events := VisitEvents(c, cfg.batchSize, |got.value.batch|, Refusals(net, poll, p), net.losesAck(poll, p));
      var w := Delivery.Run(codec, cfg.group, Delivery.World(s.lanes[p], s.table), events);
      Fleet.State(s.lanes[p := w.lane], w.table)
  }

  lemma VisitReaches(codec: Codec, route: Fleet.Routing, cfg: Config, net: Network, poll: nat, p: nat,
                     q: QueueSpec.Queue, s: Fleet.State, c: int)
    requires Shows(s, q, cfg.topic, s.table, c) && VisitIsHarmless(codec, cfg, net, poll, p, q, s.table)
    ensures var (q', table') := Visit(codec, cfg, net, poll, p, q, s.table);
      var s' := VisitedFleet(codec, cfg, net, poll, p, q, s, c);
      Shows(s', q', cfg.topic, table', c) && Reaches(codec, route, cfg.group, s, s')
  {
    var g, got := cfg.group, VisitReads(cfg, net, poll, p, q);
    if got.None? {
      IdleVisit(codec, cfg, net, poll, p, q, s.table);
      ReachesInNone(codec, route, g, s);
    } else {
      var w := Delivery.World(s.lanes[p], s.table);
      var events := VisitEvents(c, cfg.batchSize, |got.value.batch|, Refusals(net, poll, p), net.losesAck(poll, p));
      LegalVisit(codec, g, w, c, cfg.batchSize, Refusals(net, poll, p), net.losesAck(poll, p));
      VisitIsAProtocolRun(codec, cfg, net, poll, p, q, w, c);
      TagRun(codec, route, g, s, p, events);
      assert Fleet.InRange(s, Tag(p, events));
    }
  }

  /** A turn of this collector, or any step of anybody else: a message arriving, another
      collector at work, a compaction, an ack of another group. */
  datatype Turn =
    | Mine(poll: nat, p: nat)
    | Theirs(event: Fleet.Event)

  predicate Involves(e: Delivery.Event, c: int) {
    (e.ReadBatch? || e.Answer? || e.InsertNext? || e.SendAck? || e.Abandon?) && e.c == c
  }

  /** The queue with the partitions of the fleet. */
  function QueueOf(q: QueueSpec.Queue, topic: Bytes, s: Fleet.State): QueueSpec.Queue
    requires topic in q
  {
    q[topic := q[topic].(parts := seq(|s.lanes|, p requires 0 <= p < |s.lanes| => s.lanes[p].part))]
  }

  /** The loop's own visits work on the queue and the table; what others do reaches it there. */
  ghost function Play(codec: Codec, cfg: Config, net: Network, c: int, q: QueueSpec.Queue, s: Fleet.State, turn: Turn):
    (QueueSpec.Queue, Fleet.State)
  {
    match turn
    case Mine(poll, p) =>
      (Visit(codec, cfg, net, poll, p, q, s.table).0, VisitedFleet(codec, cfg, net, poll, p, q, s, c))
    case Theirs(event) =>
      if event.p < |s.lanes| && cfg.topic in q then
        var s' := Fleet.Next(codec, cfg.group, s, event);
        (QueueOf(q, cfg.topic, s'), s')
      else (q, s)
  }

  ghost predicate Permitted(codec: Codec, route: Fleet.Routing, cfg: Config, net: Network, c: int,
                            q: QueueSpec.Queue, s: Fleet.State, turn: Turn)
  {
    match turn
    case Mine(poll, p) => VisitIsHarmless(codec, cfg, net, poll, p, q, s.table)
    case Theirs(event) => Fleet.LegalStep(codec, route, cfg.group, s, event) && !Involves(event.e, c)
  }

  ghost function PlayAll(codec: Codec, cfg: Config, net: Network, c: int,
                         q: QueueSpec.Queue, s: Fleet.State, turns: seq<Turn>): (QueueSpec.Queue, Fleet.State)
    decreases |turns|
  {
    if turns == [] then (q, s) else
      var (q', s') := Play(codec, cfg, net, c, q, s, turns[0]);
      PlayAll(codec, cfg, net, c, q', s', turns[1..])
  }

  ghost predicate AllPermitted(codec: Codec, route: Fleet.Routing, cfg: Config, net: Network, c: int,
                               q: QueueSpec.Queue, s: Fleet.State, turns: seq<Turn>)
    decreases |turns|
  {
    turns == [] ||
    (Permitted(codec, route, cfg, net, c, q, s, turns[0]) &&
     var (q', s') := Play(codec, cfg, net, c, q, s, turns[0]);
     AllPermitted(codec, route, cfg, net, c, q', s', turns[1..]))
  }

  lemma OthersLeaveMyFlights(codec: Codec, g: Bytes, w: Delivery.World, e: Delivery.Event, c: int)
    requires c !in w.lane.flights && !Involves(e, c)
    ensures c !in Delivery.Next(codec, g, w, e).lane.flights
  {
  }

  lemma TurnReaches(codec: Codec, route: Fleet.Routing, cfg: Config, net: Network, c: int,
                    q: QueueSpec.Queue, s: Fleet.State, turn: Turn)
    requires Shows(s, q, cfg.topic, s.table, c) && Permitted(codec, route, cfg, net, c, q, s, turn)
    ensures var (q', s') := Play(codec, cfg, net, c, q, s, turn);
      Shows(s', q', cfg.topic, s'.table, c) && Reaches(codec, route, cfg.group, s, s')
  {
    match turn
    case Mine(poll, p) =>
      VisitReaches(codec, route, cfg, net, poll, p, q, s, c);
    case Theirs(event) =>
      OthersLeaveMyFlights(codec, cfg.group, Delivery.World(s.lanes[event.p], s.table), event.e, c);
      ReachesInOne(codec, route, cfg.group, s, event);
  }

  lemma {:induction false} TurnsReach(codec: Codec, route: Fleet.Routing, cfg: Config, net: Network, c: int,
                                      q: QueueSpec.Queue, s: Fleet.State, turns: seq<Turn>)
    requires Shows(s, q, cfg.topic, s.table, c) && AllPermitted(codec, route, cfg, net, c, q, s, turns)
    ensures var (q', s') := PlayAll(codec, cfg, net, c, q, s, turns);
      Shows(s', q', cfg.topic, s'.table, c) && Reaches(codec, route, cfg.group, s, s')
    decreases |turns|
  {
    if turns == [] {
      ReachesInNone(codec, route, cfg.group, s);
    } else {
      var (q1, s1) := Play(codec, cfg, net, c, q, s, turns[0]);
      TurnReaches(codec, route, cfg, net, c, q, s, turns[0]);
      TurnsReach(codec, route, cfg, net, c, q1, s1, turns[1..]);
      ReachesInTwo(codec, route, cfg.group, s, s1, PlayAll(codec, cfg, net, c, q1, s1, turns[1..]).1);
    }
  }

  // ---------- The results ----------

  /** The rows of one partition are the first-wins fold of some prefix of its log, starting
      where the group stood and reaching at least to where it stands. */
  ghost predicate RowsAccounted(codec: Codec, part: PartitionSpec.State, g: Bytes, c0: nat, rows0: Table, rows: Table) {
    exists hi: nat :: c0 <= PartitionSpec.Position(part, g) <= hi <= |part.log| &&
      rows == StoreAll(codec, rows0, part.log[c0..hi])
  }

  /** Nothing is in flight and each lane has been processed up to its group. */
  ghost predicate Fresh(codec: Codec, route: Fleet.Routing, g: Bytes, s: Fleet.State) {
    forall p :: 0 <= p < |s.lanes| ==>
      Delivery.Start(Delivery.World(s.lanes[p], s.table), g) && Fleet.AllHomed(codec, route, s.lanes[p].part.log, p)
  }

  lemma ReachedIsAccounted(codec: Codec, route: Fleet.Routing, g: Bytes, s: Fleet.State, s': Fleet.State, p: nat)
    requires Fresh(codec, route, g, s) && Reaches(codec, route, g, s, s') && p < |s.lanes|
    ensures |s'.lanes| == |s.lanes|
    ensures RowsAccounted(codec, s'.lanes[p].part, g, s.lanes[p].hi,
                          Fleet.Only(route, s.table, p), Fleet.Only(route, s'.table, p))
  {
    var events :|
      Fleet.Legal(codec, route, g, s, events) && Fleet.InRange(s, events) && Fleet.Run(codec, g, s, events) == s';
    Fleet.FleetTableIsFoldOfEachPartition(codec, route, g, s, events, p);
  }

  /** The visits of one collector, with any permitted steps of others between them. */
  lemma InterleavedVisitsAreAccounted(
      codec: Codec, route: Fleet.Routing, cfg: Config, net: Network, c: int,
      q: QueueSpec.Queue, s: Fleet.State, turns: seq<Turn>, p: nat)
    requires Shows(s, q, cfg.topic, s.table, c) && Fresh(codec, route, cfg.group, s) && p < |s.lanes|
    requires AllPermitted(codec, route, cfg, net, c, q, s, turns)
    ensures var (q', s') := PlayAll(codec, cfg, net, c, q, s, turns);
      && QueueSpec.Addressed(q', cfg.topic, p)
      && RowsAccounted(codec, q'[cfg.topic].parts[p], cfg.group, s.lanes[p].hi,
                       Fleet.Only(route, s.table, p), Fleet.Only(route, s'.table, p))
  {
    TurnsReach(codec, route, cfg, net, c, q, s, turns);
    ReachedIsAccounted(codec, route, cfg.group, s, PlayAll(codec, cfg, net, c, q, s, turns).1, p);
  }

  // ---------- The loop itself ----------

  /** The database refuses nothing in the first `n` visits of a poll but what is redundant. */
  predicate PollIsHarmless(codec: Codec, cfg: Config, net: Network, poll: nat, n: nat, q: QueueSpec.Queue, table: Table) {
    n == 0 ||
    (PollIsHarmless(codec, cfg, net, poll, n - 1, q, table) &&
     var (q1, table1) := Poll(codec, cfg, net, poll, n - 1, q, table);
     VisitIsHarmless(codec, cfg, net, poll, n - 1, q1, table1))
  }

  predicate PollsAreHarmless(codec: Codec, cfg: Config, net: Network, k: nat, q: QueueSpec.Queue, table: Table) {
    k == 0 ||
    (PollsAreHarmless(codec, cfg, net, k - 1, q, table) &&
     var (q1, table1) := Polls(codec, cfg, net, k - 1, q, table);
     PollIsHarmless(codec, cfg, net, k - 1, Width(cfg), q1, table1))
  }

  lemma {:induction false} PollReaches(
      codec: Codec, route: Fleet.Routing, cfg: Config, net: Network, poll: nat, n: nat,
      q: QueueSpec.Queue, s: Fleet.State) returns (s': Fleet.State)
    requires Shows(s, q, cfg.topic, s.table, 0) && PollIsHarmless(codec, cfg, net, poll, n, q, s.table)
    ensures var (q', table') := Poll(codec, cfg, net, poll, n, q, s.table);
      Shows(s', q', cfg.topic, table', 0) && Reaches(codec, route, cfg.group, s, s')
    decreases n
  {
    if n == 0 {
      ReachesInNone(codec, route, cfg.group, s);
      s' := s;
    } else {
      var s1 := PollReaches(codec, route, cfg, net, poll, n - 1, q, s);
      var (q1, table1) := Poll(codec, cfg, net, poll, n - 1, q, s.table);
      VisitReaches(codec, route, cfg, net, poll, n - 1, q1, s1, 0);
      s' := VisitedFleet(codec, cfg, net, poll, n - 1, q1, s1, 0);
      ReachesInTwo(codec, route, cfg.group, s, s1, s');
    }
  }

  lemma {:induction false} PollsReach(
      codec: Codec, route: Fleet.Routing, cfg: Config, net: Network, k: nat,
      q: QueueSpec.Queue, s: Fleet.State) returns (s': Fleet.State)
    requires Shows(s, q, cfg.topic, s.table, 0) && PollsAreHarmless(codec, cfg, net, k, q, s.table)
    ensures var (q', table') := Polls(codec, cfg, net, k, q, s.table);
      Shows(s', q', cfg.topic, table', 0) && Reaches(codec, route, cfg.group, s, s')
    decreases k
  {
    if k == 0 {
      ReachesInNone(codec, route, cfg.group, s);
      s' := s;
    } else {
      var s1 := PollsReach(codec, route, cfg, net, k - 1, q, s);
      var (q1, table1) := Polls(codec, cfg, net, k - 1, q, s.table);
      s' := PollReaches(codec, route, cfg, net, k - 1, Width(cfg), q1, s1);
      ReachesInTwo(codec, route, cfg.group, s, s1, s');
    }
  }

  /** After any number of polls of a loop left to itself, whatever requests the network loses
      and whatever redundant messages the database refuses. */
  lemma PollsAreAccounted(
      codec: Codec, route: Fleet.Routing, cfg: Config, net: Network, k: nat,
      q: QueueSpec.Queue, table: Table, p: nat, c0: nat)
    requires cfg.topic in q && p < |q[cfg.topic].parts|
    requires PollsAreHarmless(codec, cfg, net, k, q, table)
    requires forall i :: 0 <= i < |q[cfg.topic].parts| ==>
      && PartitionSpec.InBounds(q[cfg.topic].parts[i])
      && Fleet.AllHomed(codec, route, q[cfg.topic].parts[i].log, i)
    requires c0 == PartitionSpec.Position(q[cfg.topic].parts[p], cfg.group)
    ensures var (q', table') := Polls(codec, cfg, net, k, q, table);
      && QueueSpec.Addressed(q', cfg.topic, p)
      && RowsAccounted(codec, q'[cfg.topic].parts[p], cfg.group, c0,
                       Fleet.Only(route, table, p), Fleet.Only(route, table', p))
  {
    var g, parts := cfg.group, q[cfg.topic].parts;
    var s := Fleet.State(seq(|parts|, i requires 0 <= i < |parts| && 0 <= PartitionSpec.Position(parts[i], g) =>
      Delivery.Lane(parts[i], map[], {}, PartitionSpec.Position(parts[i], g))), table);
    var s' := PollsReach(codec, route, cfg, net, k, q, s);
    assert Fresh(codec, route, g, s);
    ReachedIsAccounted(codec, route, g, s, s', p);
  }
}
