/** The poll loop makes progress: what each poll does to each partition, and when the loop has
    drained them all. */
module Progress {
  import opened Types
  import opened PartitionSpec
  import TopicSpec
  import QueueSpec
  import opened Telemetry
  import Delivery
  import Fleet
  import Drain
  import opened CollectorSpec
  import CollectorRuns
  import Pipeline
  import QueueRuns

  /** The visit's consume is answered and its ack arrives. */
  predicate Heard(net: Network, poll: nat, p: nat) {
    !net.losesConsume(poll, p) && !net.losesAck(poll, p)
  }

  /** The partition once the group has committed the end of the batch it had waiting, if any. */
  function Served(s: State, g: Bytes, batch: nat): State {
    var waiting := |s.live| - Offset(s, g);
    if waiting <= 0 then s else s.(offsets := s.offsets[g := Offset(s, g) + Drain.Min(batch, waiting)])
  }

  /** The loop can work on this partition. */
  ghost predicate Workable(s: State, batch: int) {
    InBounds(s) && |s.log| + batch <= MAX_INT
  }

  ghost predicate AllWorkable(q: QueueSpec.Queue, cfg: Config) {
    && cfg.topic in q && cfg.group != [] && 0 < cfg.batchSize
    && forall i :: 0 <= i < |q[cfg.topic].parts| ==> Workable(q[cfg.topic].parts[i], cfg.batchSize)
  }

  /** The queue with the topic's partitions `parts`. */
  function WithParts(q: QueueSpec.Queue, topic: Bytes, parts: seq<State>): QueueSpec.Queue
    requires topic in q
  {
    q[topic := q[topic].(parts := parts)]
  }

  lemma WithPartsTwice(q: QueueSpec.Queue, topic: Bytes, parts: seq<State>, later: seq<State>)
    requires topic in q
    ensures topic in WithParts(q, topic, parts) && WithParts(q, topic, parts)[topic].parts == parts
    ensures WithParts(WithParts(q, topic, parts), topic, later) == WithParts(q, topic, later)
    ensures WithParts(q, topic, q[topic].parts) == q
  {
  }

  lemma ReadHandsOutTheBatch(s: State, g: Bytes, batch: nat)
    requires Workable(s, batch) && 0 < batch
    ensures var r := ReadFrom(s, Offset(s, g), batch);
      r.Ok? && |r.value| == Drain.Min(batch, |s.live| - Offset(s, g))
  {
    ReadOfLog(s, Offset(s, g), batch);
  }

  lemma VisitServes(codec: Codec, cfg: Config, net: Network, poll: nat, p: nat, q: QueueSpec.Queue, table: Table)
    requires AllWorkable(q, cfg) && p < |q[cfg.topic].parts|
    ensures var parts := q[cfg.topic].parts;
      Visit(codec, cfg, net, poll, p, q, table).0 ==
      if Heard(net, poll, p) then WithParts(q, cfg.topic, parts[p := Served(parts[p], cfg.group, cfg.batchSize)]) else q
  {
    var parts := q[cfg.topic].parts;
    ReadHandsOutTheBatch(parts[p], cfg.group, cfg.batchSize);
    assert parts[p := parts[p]] == parts;
    assert WithParts(q, cfg.topic, parts) == q;
  }

  lemma VisitElsewhere(codec: Codec, cfg: Config, net: Network, poll: nat, p: nat, q: QueueSpec.Queue, table: Table)
    requires AllWorkable(q, cfg) && |q[cfg.topic].parts| <= p
    ensures Visit(codec, cfg, net, poll, p, q, table).0 == q
  {
  }

  /** The partitions after the first `n` visits of a poll. */
  function ServedUpTo(parts: seq<State>, cfg: Config, net: Network, poll: nat, n: nat): seq<State> {
    seq(|parts|, i requires 0 <= i < |parts| =>
      if i < n && Heard(net, poll, i) && 0 < cfg.batchSize then Served(parts[i], cfg.group, cfg.batchSize) else parts[i])
  }

  lemma ServedStaysWorkable(s: State, g: Bytes, batch: nat)
    requires Workable(s, batch)
    ensures Workable(Served(s, g, batch), batch)
    ensures Served(s, g, batch).log == s.log
    ensures Position(Served(s, g, batch), g) == Drain.Min(Position(s, g) + batch, |s.log|)
  {
  }

  lemma PartsStayWorkable(q: QueueSpec.Queue, cfg: Config, net: Network, poll: nat, n: nat)
    requires AllWorkable(q, cfg)
    ensures AllWorkable(WithParts(q, cfg.topic, ServedUpTo(q[cfg.topic].parts, cfg, net, poll, n)), cfg)
  {
    var parts := q[cfg.topic].parts;
    forall i | 0 <= i < |parts| ensures Workable(ServedUpTo(parts, cfg, net, poll, n)[i], cfg.batchSize) {
      ServedStaysWorkable(parts[i], cfg.group, cfg.batchSize);
    }
  }

  lemma ServedNext(parts: seq<State>, cfg: Config, net: Network, poll: nat, n: nat)
    requires 0 < cfg.batchSize
    ensures var before := ServedUpTo(parts, cfg, net, poll, n);
      && |before| == |parts|
      && ServedUpTo(parts, cfg, net, poll, n + 1) ==
           if n < |parts| && Heard(net, poll, n) then before[n := Served(before[n], cfg.group, cfg.batchSize)] else before
  {
  }

  /** Visit `n` of a poll, after the ones before it. */
  lemma NextVisitServes(
      codec: Codec, cfg: Config, net: Network, poll: nat, n: nat, q: QueueSpec.Queue, before: seq<State>, table: Table)
    requires cfg.topic in q && AllWorkable(WithParts(q, cfg.topic, before), cfg)
    ensures Visit(codec, cfg, net, poll, n, WithParts(q, cfg.topic, before), table).0 ==
            WithParts(q, cfg.topic,
              if n < |before| && Heard(net, poll, n) then before[n := Served(before[n], cfg.group, cfg.batchSize)]
              else before)
  {
    var q1 := WithParts(q, cfg.topic, before);
    if n < |before| {
      VisitServes(codec, cfg, net, poll, n, q1, table);
      WithPartsTwice(q, cfg.topic, before, before[n := Served(before[n], cfg.group, cfg.batchSize)]);
    } else {
      VisitElsewhere(codec, cfg, net, poll, n, q1, table);
    }
  }

  /** One poll commits, in each partition whose requests arrive, exactly the end of the batch
      the group had waiting there, and changes nothing else in the queue. */
  lemma {:induction false} PollServes(
      codec: Codec, cfg: Config, net: Network, poll: nat, n: nat, q: QueueSpec.Queue, table: Table)
    requires AllWorkable(q, cfg)
    ensures Poll(codec, cfg, net, poll, n, q, table).0 ==
            WithParts(q, cfg.topic, ServedUpTo(q[cfg.topic].parts, cfg, net, poll, n))
    decreases n
  {
    var parts := q[cfg.topic].parts;
    if n == 0 {
      assert ServedUpTo(parts, cfg, net, poll, 0) == parts;
      WithPartsTwice(q, cfg.topic, parts, parts);
    } else {
      var (q1, table1) := Poll(codec, cfg, net, poll, n - 1, q, table);
      PollServes(codec, cfg, net, poll, n - 1, q, table);
      PartsStayWorkable(q, cfg, net, poll, n - 1);
      ServedNext(parts, cfg, net, poll, n - 1);
      NextVisitServes(codec, cfg, net, poll, n - 1, q, ServedUpTo(parts, cfg, net, poll, n - 1), table1);
    }
  }

  /** How many of the first `k` polls were heard at partition `i`. */
  function HeardPolls(net: Network, i: nat, k: nat): nat {
    if k == 0 then 0 else HeardPolls(net, i, k - 1) + if Heard(net, k - 1, i) then 1 else 0
  }

  lemma PollAdvances(codec: Codec, cfg: Config, net: Network, poll: nat, q: QueueSpec.Queue, table: Table, i: nat)
    requires AllWorkable(q, cfg) && i < |q[cfg.topic].parts|
    ensures var q' := Poll(codec, cfg, net, poll, Width(cfg), q, table).0;
      && AllWorkable(q', cfg) && |q'[cfg.topic].parts| == |q[cfg.topic].parts|
      && var before, after := q[cfg.topic].parts[i], q'[cfg.topic].parts[i];
         var step := if i < cfg.partitions && Heard(net, poll, i) then cfg.batchSize else 0;
         && after.log == before.log
         && Position(after, cfg.group) == Drain.Min(Position(before, cfg.group) + step, |before.log|)
  {
    PollServes(codec, cfg, net, poll, Width(cfg), q, table);
    PartsStayWorkable(q, cfg, net, poll, Width(cfg));
    ServedStaysWorkable(q[cfg.topic].parts[i], cfg.group, cfg.batchSize);
  }

  /** Over any polls, whatever is lost: a group moves by one batch for each poll heard at the
      partition, or to the tail; partitions the collector is not told of stay. */
  lemma {:induction false} PollsAdvance(
      codec: Codec, cfg: Config, net: Network, k: nat, q: QueueSpec.Queue, table: Table, i: nat)
    requires AllWorkable(q, cfg) && i < |q[cfg.topic].parts|
    ensures var q' := Polls(codec, cfg, net, k, q, table).0;
      && AllWorkable(q', cfg) && |q'[cfg.topic].parts| == |q[cfg.topic].parts|
      && var before, after := q[cfg.topic].parts[i], q'[cfg.topic].parts[i];
         var rounds := if i < cfg.partitions then HeardPolls(net, i, k) else 0;
         && after.log == before.log
         && Position(after, cfg.group) == Drain.Min(Position(before, cfg.group) + rounds * cfg.batchSize, |before.log|)
    decreases k
  {
    if k != 0 {
      var (q1, table1) := Polls(codec, cfg, net, k - 1, q, table);
      PollsAdvance(codec, cfg, net, k - 1, q, table, i);
      PollAdvances(codec, cfg, net, k - 1, q1, table1, i);
      OneMoreBatch(Position(q[cfg.topic].parts[i], cfg.group), HeardPolls(net, i, k - 1), cfg.batchSize,
                   |q[cfg.topic].parts[i].log|);
    }
  }

  lemma OneMoreBatch(p: int, rounds: nat, batch: nat, n: int)
    ensures Drain.Min(Drain.Min(p + rounds * batch, n) + batch, n) == Drain.Min(p + (rounds + 1) * batch, n)
  {
    assert (rounds + 1) * batch == rounds * batch + batch;
  }

  /** A partition is drained exactly when the polls heard there are at least the quotient of
      the messages that waited by the batch size, rounded up. */
  lemma PollsDrainExactlyWhen(
      codec: Codec, cfg: Config, net: Network, k: nat, q: QueueSpec.Queue, table: Table, i: nat)
    requires AllWorkable(q, cfg) && i < |q[cfg.topic].parts| && i < cfg.partitions
    ensures var part := q[cfg.topic].parts[i];
      var waiting := |part.log| - Position(part, cfg.group);
      var q' := Polls(codec, cfg, net, k, q, table).0;
      && QueueSpec.Addressed(q', cfg.topic, i)
      && (Position(q'[cfg.topic].parts[i], cfg.group) == |q'[cfg.topic].parts[i].log| <==>
          (waiting + cfg.batchSize - 1) / cfg.batchSize <= HeardPolls(net, i, k))
  {
    var part := q[cfg.topic].parts[i];
    PollsAdvance(codec, cfg, net, k, q, table, i);
    Drain.CeilingOfQuotient(|part.log| - Position(part, cfg.group), cfg.batchSize, HeardPolls(net, i, k));
  }

  lemma {:induction false} NothingLost(net: Network, i: nat, k: nat)
    requires forall poll, p :: Heard(net, poll, p)
    ensures HeardPolls(net, i, k) == k
    decreases k
  {
    if k != 0 {
      NothingLost(net, i, k - 1);
    }
  }

  lemma LoopIsAccounted(
      codec: Codec, route: Fleet.Routing, cfg: Config, net: Network, k: nat, q: QueueSpec.Queue, table: Table, i: nat)
    requires AllWorkable(q, cfg) && i < |q[cfg.topic].parts|
    requires CollectorRuns.PollsAreHarmless(codec, cfg, net, k, q, table)
    requires AllHomed(codec, route, q[cfg.topic].parts)
    ensures var (q', table') := Polls(codec, cfg, net, k, q, table);
      var c0 := Position(q[cfg.topic].parts[i], cfg.group);
      && 0 <= c0 && QueueSpec.Addressed(q', cfg.topic, i)
      && CollectorRuns.RowsAccounted(codec, q'[cfg.topic].parts[i], cfg.group, c0,
                                     Fleet.Only(route, table, i), Fleet.Only(route, table', i))
  {
    var parts := q[cfg.topic].parts;
    assert forall j :: 0 <= j < |parts| ==> Workable(parts[j], cfg.batchSize);
    CollectorRuns.PollsAreAccounted(codec, route, cfg, net, k, q, table, i, Position(parts[i], cfg.group));
  }

  /** And once drained, unless the database refused what was not redundant, the rows of the
      partition are the first-wins fold of all that lies in it from the group's start. */
  lemma PollsStoreEverything(
      codec: Codec, route: Fleet.Routing, cfg: Config, net: Network, k: nat, q: QueueSpec.Queue, table: Table, i: nat)
    requires AllWorkable(q, cfg) && i < |q[cfg.topic].parts| && i < cfg.partitions
    requires CollectorRuns.PollsAreHarmless(codec, cfg, net, k, q, table)
    requires AllHomed(codec, route, q[cfg.topic].parts)
    requires var part := q[cfg.topic].parts[i];
      (|part.log| - Position(part, cfg.group) + cfg.batchSize - 1) / cfg.batchSize <= HeardPolls(net, i, k)
    ensures var part := q[cfg.topic].parts[i];
      && 0 <= Position(part, cfg.group) <= |part.log|
      && Fleet.Only(route, Polls(codec, cfg, net, k, q, table).1, i) ==
         StoreAll(codec, Fleet.Only(route, table, i), part.log[Position(part, cfg.group)..])
  {
    var part := q[cfg.topic].parts[i];
    assert Workable(part, cfg.batchSize);
    PollsDrainExactlyWhen(codec, cfg, net, k, q, table, i);
    PollsAdvance(codec, cfg, net, k, q, table, i);
    LoopIsAccounted(codec, route, cfg, net, k, q, table, i);
    assert part.log[Position(part, cfg.group)..|part.log|] == part.log[Position(part, cfg.group)..];
  }

  /** The end of the batch that waits for the group, in the uncut log. */
  function BatchEnd(part: State, cfg: Config): int {
    Drain.Min(Position(part, cfg.group) + cfg.batchSize, |part.log|)
  }

  lemma ReadIsTheStretch(part: State, cfg: Config)
    requires Workable(part, cfg.batchSize) && 0 < cfg.batchSize
    ensures var from, to := Position(part, cfg.group), BatchEnd(part, cfg);
      0 <= from <= to <= |part.log| && ReadFrom(part, Offset(part, cfg.group), cfg.batchSize) == Ok(part.log[from..to])
  {
    ReadOfLog(part, Offset(part, cfg.group), cfg.batchSize);
    assert part.log[Position(part, cfg.group)..] == part.log[Position(part, cfg.group)..|part.log|];
  }

  lemma VisitStores(codec: Codec, cfg: Config, net: Network, poll: nat, p: nat, q: QueueSpec.Queue, table: Table)
    requires AllWorkable(q, cfg) && p < |q[cfg.topic].parts|
    ensures var part := q[cfg.topic].parts[p];
      var from, to := Position(part, cfg.group), BatchEnd(part, cfg);
      && 0 <= from <= to <= |part.log|
      && Visit(codec, cfg, net, poll, p, q, table).1 ==
         if net.losesConsume(poll, p) then table
         else StoreAccepted(codec, table, part.log[from..to], Refusals(net, poll, p))
  {
    ReadIsTheStretch(q[cfg.topic].parts[p], cfg);
  }

  /** Some message of the stretch carries the key and the database does not refuse its insert. */
  predicate SomeKept(codec: Codec, log: seq<Message>, from: nat, to: nat, net: Network, poll: nat, p: nat, key: Key)
    requires from <= to <= |log|
  {
    exists i: nat :: i < to - from && !net.refusesInsert(poll, p, i) && Carries(codec, log[from + i], key)
  }

  lemma StretchRows(
      codec: Codec, table: Table, log: seq<Message>, from: nat, to: nat, net: Network, poll: nat, p: nat, key: Key)
    requires from <= to <= |log|
    ensures key in StoreAccepted(codec, table, log[from..to], Refusals(net, poll, p)) <==>
      key in table || SomeKept(codec, log, from, to, net, poll, p, key)
  {
    var ms, refused := log[from..to], Refusals(net, poll, p);
    StoreAcceptedRows(codec, table, ms, refused, key);
    forall i: nat | i < |ms|
      ensures (!refused(i) && Carries(codec, ms[i], key)) ==
              (!net.refusesInsert(poll, p, i) && Carries(codec, log[from + i], key))
    {
    }
    if i: nat :| i < |ms| && !refused(i) && Carries(codec, ms[i], key) {
      assert SomeKept(codec, log, from, to, net, poll, p, key);
    }
    if SomeKept(codec, log, from, to, net, poll, p, key) {
      var i: nat :| i < to - from && !net.refusesInsert(poll, p, i) && Carries(codec, log[from + i], key);
      assert !refused(i) && Carries(codec, ms[i], key);
    }
  }

  /** What one visit does to the rows: a key has one afterwards exactly when it had one or the
      visit read a message that carries it and whose insert the database did not refuse. */
  lemma VisitRows(
      codec: Codec, cfg: Config, net: Network, poll: nat, p: nat, q: QueueSpec.Queue, table: Table, key: Key)
    requires AllWorkable(q, cfg) && p < |q[cfg.topic].parts|
    ensures var part := q[cfg.topic].parts[p];
      var from, to := Position(part, cfg.group), BatchEnd(part, cfg);
      && 0 <= from <= to <= |part.log|
      && (key in Visit(codec, cfg, net, poll, p, q, table).1 <==>
          key in table || (!net.losesConsume(poll, p) && SomeKept(codec, part.log, from, to, net, poll, p, key)))
  {
    var part := q[cfg.topic].parts[p];
    VisitStores(codec, cfg, net, poll, p, q, table);
    StretchRows(codec, table, part.log, Position(part, cfg.group), BatchEnd(part, cfg), net, poll, p, key);
  }

  ghost predicate AllHomed(codec: Codec, route: Fleet.Routing, parts: seq<State>) {
    forall j :: 0 <= j < |parts| ==> Fleet.AllHomed(codec, route, parts[j].log, j)
  }

  lemma AcceptedAreHomed(codec: Codec, t: TopicSpec.Topic, ms: seq<Message>)
    requires QueueRuns.Faithful(t, ms) && forall m :: m in ms ==> Fleet.KeyedByGpu(codec, m)
    ensures AllHomed(codec, QueueRuns.RoutingOf(t), t.parts)
  {
    forall j | 0 <= j < |t.parts| ensures Fleet.AllHomed(codec, QueueRuns.RoutingOf(t), t.parts[j].log, j) {
      Fleet.QueueLogsAreHomed(codec, t, ms, j);
    }
  }

  /** Nothing was consumed of the partition, and it is heard often enough. */
  ghost predicate Fresh(cfg: Config, net: Network, k: nat, part: State, i: nat) {
    && 0 < cfg.batchSize && Position(part, cfg.group) == 0
    && (|part.log| + cfg.batchSize - 1) / cfg.batchSize <= HeardPolls(net, i, k)
  }

  lemma FreshPartitionIsStored(
      codec: Codec, route: Fleet.Routing, cfg: Config, net: Network, k: nat, q: QueueSpec.Queue, i: nat)
    requires AllWorkable(q, cfg) && i < |q[cfg.topic].parts| && i < cfg.partitions
    requires CollectorRuns.PollsAreHarmless(codec, cfg, net, k, q, map[])
    requires AllHomed(codec, route, q[cfg.topic].parts) && Fresh(cfg, net, k, q[cfg.topic].parts[i], i)
    ensures Fleet.Only(route, Polls(codec, cfg, net, k, q, map[]).1, i) ==
            StoreAll(codec, map[], q[cfg.topic].parts[i].log)
  {
    PollsStoreEverything(codec, route, cfg, net, k, q, map[], i);
    assert Fleet.Only(route, map[], i) == map[];
    assert q[cfg.topic].parts[i].log[0..] == q[cfg.topic].parts[i].log;
  }

  /** End to end, one collector alone: of a topic nothing of which was consumed or removed yet,
      polled until each partition has been heard often enough, the table holds exactly the
      first-wins fold of the accepted publishes. */
  lemma LoneCollectorStoresAllPublishes(codec: Codec, cfg: Config, net: Network, k: nat, w: QueueRuns.World)
    requires QueueRuns.Inv(w) && AllWorkable(w.queue, cfg) && cfg.topic in w.accepted
    requires forall m :: m in w.accepted[cfg.topic] ==> Fleet.KeyedByGpu(codec, m)
    requires CollectorRuns.PollsAreHarmless(codec, cfg, net, k, w.queue, map[])
    requires |w.queue[cfg.topic].parts| <= cfg.partitions
    requires forall i :: 0 <= i < |w.queue[cfg.topic].parts| ==> Fresh(cfg, net, k, w.queue[cfg.topic].parts[i], i)
    ensures Polls(codec, cfg, net, k, w.queue, map[]).1 == StoreAll(codec, map[], w.accepted[cfg.topic])
  {
    var t, ms := w.queue[cfg.topic], w.accepted[cfg.topic];
    var route := QueueRuns.RoutingOf(t);
    var table := Polls(codec, cfg, net, k, w.queue, map[]).1;
    AcceptedAreHomed(codec, t, ms);
    forall i: nat | i < |t.parts|
      ensures Fleet.Only(route, table, i) == Fleet.Only(route, StoreAll(codec, map[], ms), i)
    {
      FreshPartitionIsStored(codec, route, cfg, net, k, w.queue, i);
      Pipeline.OnlyOfStoreAll(codec, route, ms, i);
    }
    Pipeline.TablesAgree(route, |t.parts|, table, StoreAll(codec, map[], ms));
  }
}
