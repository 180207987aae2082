/** collector/internal/collector.go and the object of store.go: the poll loop on real queue
    and store objects, and its place in the step protocol. */
module CollectorSpec {
  import opened Types
  import PartitionSpec
  import QueueSpec
  import Handler
  import opened Telemetry
  import Delivery

  datatype Config = Config(topic: Bytes, group: Bytes, partitions: int, batchSize: int)

  /** What goes wrong outside, by poll and partition: a consume never answered, an ack never
      delivered, an insert the database refuses (by place in the batch as well). */
  datatype Network = Network(
    losesConsume: (nat, nat) -> bool,
    losesAck: (nat, nat) -> bool,
    refusesInsert: (nat, nat, nat) -> bool)

  function Refusals(net: Network, poll: nat, p: nat): nat -> bool {
    (i: nat) => net.refusesInsert(poll, p, i)
  }

  /** One partition of one poll. Everything received is acked, stored or not. */
  function Visit(codec: Codec, cfg: Config, net: Network, poll: nat, p: nat, q: QueueSpec.Queue, table: Table):
    (QueueSpec.Queue, Table)
  {
    if net.losesConsume(poll, p) then (q, table) else
      match QueueSpec.Consume(q, cfg.topic, cfg.group, p, cfg.batchSize)
      case Err(_) => (q, table)
      case Ok(msgs) =>
        if msgs == [] then (q, table) else
          var next := Handler.Consumed(q, cfg.topic, cfg.group, p, cfg.batchSize).value.nextOffset;
          (if net.losesAck(poll, p) then q else QueueSpec.Ack(q, cfg.topic, cfg.group, p, next).0,
           StoreAccepted(codec, table, msgs, Refusals(net, poll, p)))
  }

  /** The first `n` partitions of one poll, in order. */
  function Poll(codec: Codec, cfg: Config, net: Network, poll: nat, n: nat, q: QueueSpec.Queue, table: Table):
    (QueueSpec.Queue, Table)
  {
    if n == 0 then (q, table) else
      var (q', table') := Poll(codec, cfg, net, poll, n - 1, q, table);
      Visit(codec, cfg, net, poll, n - 1, q', table')
  }

  function Width(cfg: Config): nat {
    if cfg.partitions < 0 then 0 else cfg.partitions
  }

  function Polls(codec: Codec, cfg: Config, net: Network, k: nat, q: QueueSpec.Queue, table: Table):
    (QueueSpec.Queue, Table)
  {
    if k == 0 then (q, table) else
      var (q', table') := Polls(codec, cfg, net, k - 1, q, table);
      Poll(codec, cfg, net, k - 1, Width(cfg), q', table')
  }

  // ---------- A visit is a run of the protocol ----------

  function Inserts(c: int, k: nat, refused: nat -> bool): seq<Delivery.Event> {
    seq(k, i requires 0 <= i => Delivery.InsertNext(c, !refused(i)))
  }

  /** The events of a visit that reads `k` messages. */
  function VisitEvents(c: int, batch: int, k: nat, refused: nat -> bool, losesAck: bool): seq<Delivery.Event> {
    [Delivery.ReadBatch(c, batch)] + ([Delivery.Answer(c)] + (Inserts(c, k, refused) + [LastEvent(c, losesAck)]))
  }

  function LastEvent(c: int, losesAck: bool): Delivery.Event {
    if losesAck then Delivery.Abandon(c) else Delivery.SendAck(c)
  }

  /** Inserting a whole flight stores its batch in order, but for what is refused. */
  lemma {:induction false} InsertsStoreTheBatch(
      codec: Codec, g: Bytes, w: Delivery.World, c: int, k: nat, refused: nat -> bool)
    requires c in w.lane.flights && w.lane.flights[c].done == 0 && w.lane.flights[c].next.Some?
    requires k <= |w.lane.flights[c].batch|
    ensures var f := w.lane.flights[c];
      var w' := Delivery.Run(codec, g, w, Inserts(c, k, refused));
      && w'.lane.part == w.lane.part
      && w'.lane.flights == w.lane.flights[c := f.(done := k)]
      && w'.table == StoreAccepted(codec, w.table, f.batch[..k], refused)
    decreases k
  {
    var f := w.lane.flights[c];
    if k == 0 {
      assert w.lane.flights[c := f.(done := 0)] == w.lane.flights;
    } else {
      var last := Delivery.InsertNext(c, !refused(k - 1));
      InsertsStoreTheBatch(codec, g, w, c, k - 1, refused);
      Delivery.RunOfConcat(codec, g, w, Inserts(c, k - 1, refused), [last]);
      assert Inserts(c, k, refused) == Inserts(c, k - 1, refused) + [last];
      assert f.batch[..k][..k - 1] == f.batch[..k - 1];
      Delivery.RunOfOne(codec, g, Delivery.Run(codec, g, w, Inserts(c, k - 1, refused)), last);
    }
  }

  lemma RunOfParts(codec: Codec, g: Bytes, w: Delivery.World, d: Delivery.Event, e: Delivery.Event,
                   xs: seq<Delivery.Event>, last: Delivery.Event)
    ensures var w2 := Delivery.Next(codec, g, Delivery.Next(codec, g, w, d), e);
      Delivery.Run(codec, g, w, [d] + ([e] + (xs + [last]))) ==
      Delivery.Next(codec, g, Delivery.Run(codec, g, w2, xs), last)
  {
    var w2 := Delivery.Next(codec, g, Delivery.Next(codec, g, w, d), e);
    Delivery.RunOfCons(codec, g, w, d, [e] + (xs + [last]));
    Delivery.RunOfCons(codec, g, Delivery.Next(codec, g, w, d), e, xs + [last]);
    Delivery.RunOfConcat(codec, g, w2, xs, [last]);
    Delivery.RunOfOne(codec, g, Delivery.Run(codec, g, w2, xs), last);
  }

  /** The last event ends the flight and, if the ack arrives, commits its end. */
  lemma LastEventEffect(codec: Codec, g: Bytes, w: Delivery.World, c: int, losesAck: bool)
    requires c in w.lane.flights && w.lane.flights[c].next.Some? && !Delivery.Inserting(w.lane, c)
    ensures var w' := Delivery.Next(codec, g, w, LastEvent(c, losesAck));
      && w'.lane.part == (if losesAck then w.lane.part
                          else PartitionSpec.Commit(w.lane.part, g, w.lane.flights[c].next.value).0)
      && w'.lane.flights == w.lane.flights - {c}
      && w'.table == w.table
  {
  }

  /** The events of a visit, as one transformation of the partition and the table. */
  lemma VisitEventsEffect(
      codec: Codec, g: Bytes, w: Delivery.World, c: int, batch: int, refused: nat -> bool, losesAck: bool)
    requires c !in w.lane.flights
    requires Delivery.Fetched(w.lane.part, g, batch).Some?
    ensures var f := Delivery.Answered(w.lane.part, g, Delivery.Fetched(w.lane.part, g, batch).value);
      var w' := Delivery.Run(codec, g, w, VisitEvents(c, batch, |f.batch|, refused, losesAck));
      && w'.lane.part == (if losesAck then w.lane.part else PartitionSpec.Commit(w.lane.part, g, f.next.value).0)
      && w'.lane.flights == w.lane.flights
      && w'.table == StoreAccepted(codec, w.table, f.batch, refused)
  {
    var unanswered := Delivery.Fetched(w.lane.part, g, batch).value;
    var f := Delivery.Answered(w.lane.part, g, unanswered);
    var w1 := Delivery.Next(codec, g, w, Delivery.ReadBatch(c, batch));
    var w2 := Delivery.Next(codec, g, w1, Delivery.Answer(c));
    assert w2.lane.flights == w.lane.flights[c := f];
    InsertsStoreTheBatch(codec, g, w2, c, |f.batch|, refused);
    RunOfParts(codec, g, w, Delivery.ReadBatch(c, batch), Delivery.Answer(c),
               Inserts(c, |f.batch|, refused), LastEvent(c, losesAck));
    LastEventEffect(codec, g, Delivery.Run(codec, g, w2, Inserts(c, |f.batch|, refused)), c, losesAck);
    assert f.batch[..|f.batch|] == f.batch;
    assert w.lane.flights[c := f][c := f.(done := |f.batch|)] - {c} == w.lane.flights;
  }

  /** What the poll loop does to one partition and the table is what the protocol does for
      the events read, answer, insert each, ack. So its theorems speak about the loop. */
  lemma VisitIsAProtocolRun(
      codec: Codec, cfg: Config, net: Network, poll: nat, p: nat, q: QueueSpec.Queue,
      w: Delivery.World, c: int)
    requires QueueSpec.Addressed(q, cfg.topic, p) && cfg.group != [] && 0 < cfg.batchSize
    requires w.lane.part == q[cfg.topic].parts[p] && c !in w.lane.flights
    requires Delivery.Fetched(w.lane.part, cfg.group, cfg.batchSize).Some? && !net.losesConsume(poll, p)
    ensures var k := |Delivery.Fetched(w.lane.part, cfg.group, cfg.batchSize).value.batch|;
      var events := VisitEvents(c, cfg.batchSize, k, Refusals(net, poll, p), net.losesAck(poll, p));
      var w' := Delivery.Run(codec, cfg.group, w, events);
      var (q', table') := Visit(codec, cfg, net, poll, p, q, w.table);
      && QueueSpec.Addressed(q', cfg.topic, p)
      && w'.lane.part == q'[cfg.topic].parts[p]
      && w'.table == table'
      && w'.lane.flights == w.lane.flights
  {
    VisitEventsEffect(codec, cfg.group, w, c, cfg.batchSize, Refusals(net, poll, p), net.losesAck(poll, p));
  }

  /** When nothing is read, a visit changes nothing. */
  lemma IdleVisit(codec: Codec, cfg: Config, net: Network, poll: nat, p: nat, q: QueueSpec.Queue, table: Table)
    requires !QueueSpec.Addressed(q, cfg.topic, p) || cfg.group == [] || cfg.batchSize <= 0 ||
      net.losesConsume(poll, p) ||
      Delivery.Fetched(q[cfg.topic].parts[p], cfg.group, cfg.batchSize).None?
    ensures Visit(codec, cfg, net, poll, p, q, table) == (q, table)
  {
  }
}

module Collectors {
  import opened Types
  import opened Queues
  import opened Telemetry
  import QueueSpec
  import Handler
  import Spec = CollectorSpec

  /** The store: the table with its unique index, reached through `InsertFunc`. */
  class Store {
    const codec: Codec
    var table: Table

    constructor (codec: Codec)
      ensures this.codec == codec && table == map[]
    {
      this.codec := codec;
      table := map[];
    }

    /** `refused` is the database's own answer to a valid row. */
    method Insert(record: Record, refused: bool) returns (r: Result<()>)
      modifies this
      ensures table == if refused then old(table) else InsertRecord(codec, old(table), record)
      ensures r.Err? <==>
        record.gpuId == [] || record.timestamp == [] || codec.instant(record.timestamp).None? || refused
      ensures r.Err? ==> table == old(table)
      ensures r.Ok? ==>
        var key := Key(record.gpuId, codec.instant(record.timestamp).value);
        table == if key in old(table) then old(table) else old(table)[key := record.data]
    {
      if record.gpuId == [] || record.timestamp == [] {
        return Err(InvalidArg);
      }
      if codec.instant(record.timestamp).None? {
        return Err(InvalidArg);
      }
      if refused {
        return Err(Refused);
      }
      var key := KeyOf(codec, record);
      if key !in table {
        table := table[key := record.data];
      }
      return Ok(());
    }
  }

  class Collector {
    const cfg: Spec.Config
    const queue: Queue
    const store: Store

    constructor (cfg: Spec.Config, queue: Queue, store: Store)
      ensures this.cfg == cfg && this.queue == queue && this.store == store
    {
      this.cfg, this.queue, this.store := cfg, queue, store;
    }

    /** The message loop: what does not parse, does not validate or is refused is skipped. */
    method Process(messages: seq<Handler.MessageResponse>, refused: nat -> bool, ghost msgs: seq<Message>)
      requires |messages| == |msgs|
      requires forall i :: 0 <= i < |msgs| ==> messages[i].payload == msgs[i].payload
      modifies store
      ensures store.table == StoreAccepted(store.codec, old(store.table), msgs, refused)
    {
      for i := 0 to |messages|
        invariant store.table == StoreAccepted(store.codec, old(store.table), msgs[..i], refused)
      {
        assert msgs[..i + 1][..i] == msgs[..i];
        match store.codec.unmarshal(messages[i].payload)
        case None =>
        case Some(rec) =>
          var r := store.Insert(rec, refused(i));
      }
      assert msgs[..|messages|] == msgs;
    }

    /** The rest of the partition loop's turn, once `msgs` have been consumed from queue `q`. */
    method ProcessAndAck(net: Spec.Network, poll: nat, p: nat, res: Handler.ConsumeResponse,
                         ghost q: QueueSpec.Queue, ghost msgs: seq<Message>)
      requires queue.Valid() && queue.View() == q
      requires |res.messages| == |msgs|
      requires forall i :: 0 <= i < |msgs| ==> res.messages[i].payload == msgs[i].payload
      requires cfg.group != []
      modifies queue.Repr(), store
      ensures queue.Valid() && queue.Repr() == old(queue.Repr())
      ensures store.table == StoreAccepted(store.codec, old(store.table), msgs, Spec.Refusals(net, poll, p))
      ensures queue.View() ==
              if net.losesAck(poll, p) then q else QueueSpec.Ack(q, cfg.topic, cfg.group, p, res.nextOffset).0
    {
      Process(res.messages, Spec.Refusals(net, poll, p), msgs);
      SendAck(p, res.nextOffset, net.losesAck(poll, p), q);
    }

    method SendAck(p: nat, offset: int, lost: bool, ghost q: QueueSpec.Queue)
      requires queue.Valid() && queue.View() == q
      requires cfg.group != []
      modifies queue.Repr()
      ensures queue.Valid() && queue.Repr() == old(queue.Repr())
      ensures queue.View() == if lost then q else QueueSpec.Ack(q, cfg.topic, cfg.group, p, offset).0
    {
      if !lost {
        var ack := Handler.HandleAck(queue, cfg.topic, cfg.group, p, offset);
      }
    }

    /** One turn of the partition loop. */
    method Visit(net: Spec.Network, poll: nat, p: nat)
      requires queue.Valid()
      modifies queue.Repr(), store
      ensures queue.Valid() && queue.Repr() == old(queue.Repr())
      ensures (queue.View(), store.table) ==
              Spec.Visit(store.codec, cfg, net, poll, p, old(queue.View()), old(store.table))
    {
      ghost var q := queue.View();
      if net.losesConsume(poll, p) {
        return;
      }
      var res := Handler.HandleConsume(queue, cfg.topic, cfg.group, p, cfg.batchSize);
      if res.Err? || |res.value.messages| == 0 {
        return;
      }
      ProcessAndAck(net, poll, p, res.value, q,
                    QueueSpec.Consume(q, cfg.topic, cfg.group, p, cfg.batchSize).value);
    }

    /** `Run`, cancelled after a number of polls. */
    method Run(net: Spec.Network, polls: nat)
      requires queue.Valid()
      modifies queue.Repr(), store
      ensures queue.Valid() && queue.Repr() == old(queue.Repr())
      ensures (queue.View(), store.table) ==
              Spec.Polls(store.codec, cfg, net, polls, old(queue.View()), old(store.table))
    {
      for poll := 0 to polls
        invariant queue.Valid() && queue.Repr() == old(queue.Repr())
        invariant (queue.View(), store.table) ==
                  Spec.Polls(store.codec, cfg, net, poll, old(queue.View()), old(store.table))
      {
        ghost var q0, t0 := queue.View(), store.table;
        var p := 0;
        while p < cfg.partitions
          invariant 0 <= p && (p <= cfg.partitions || p == 0)
          invariant queue.Valid() && queue.Repr() == old(queue.Repr())
          invariant (queue.View(), store.table) == Spec.Poll(store.codec, cfg, net, poll, p, q0, t0)
        {
          Visit(net, poll, p);
          p := p + 1;
        }
      }
    }
  }
}
