/** Whole runs of the queue: per-key order and conservation across topics, partitions and
    compactions, against the plain list of accepted publishes. */
module QueueRuns {
  import opened Types
  import PartitionSpec
  import TopicSpec
  import opened QueueSpec

  type Topic = TopicSpec.Topic

  datatype Op =
    | Create(name: Bytes, partitions: int, capacity: int)
    | Send(topic: Bytes, m: Message)
    | Acknowledge(topic: Bytes, group: Bytes, partition: int, offset: int)
    | Shrink(topic: Bytes)

  /** The queue beside what the producers know: the publishes each topic accepted. */
  datatype World = World(queue: Queue, accepted: map<Bytes, seq<Message>>)

  ghost function Step(w: World, defaultCapacity: int, op: Op): World {
    match op
    case Create(name, partitions, capacity) =>
      var (q, r) := CreateTopic(w.queue, defaultCapacity, name, partitions, capacity);
      World(q, if r.Ok? then w.accepted[name := []] else w.accepted)
    case Send(topic, m) =>
      var (q, r) := Publish(w.queue, topic, m);
      World(q, if r.Ok? && topic in w.accepted then w.accepted[topic := w.accepted[topic] + [m]] else w.accepted)
    case Acknowledge(topic, group, partition, offset) =>
      w.(queue := Ack(w.queue, topic, group, partition, offset).0)
    case Shrink(topic) =>
      w.(queue := CompactTopic(w.queue, topic))
  }

  ghost function Run(w: World, defaultCapacity: int, ops: seq<Op>): World
    decreases |ops|
  {
    if ops == [] then w else
      Run(Step(w, defaultCapacity, ops[0]), defaultCapacity, ops[1..])
  }

  type Routing = Bytes -> nat

  ghost function RoutingOf(t: Topic): Routing {
    TopicSpec.RoutingOf(t.router, |t.parts|)
  }

  /** The messages whose key is routed to partition `i`, in order. */
  function Routed(route: Routing, ms: seq<Message>, i: nat): seq<Message>
    decreases |ms|
  {
    if ms == [] then [] else
      var last := ms[|ms| - 1];
      Routed(route, ms[..|ms| - 1], i) + if route(last.key) == i then [last] else []
  }

  /** Every partition's log is what was accepted for it, in the order of acceptance. */
  ghost predicate Faithful(t: Topic, accepted: seq<Message>) {
    && TopicSpec.InBounds(t)
    && forall i :: 0 <= i < |t.parts| ==> t.parts[i].log == Routed(RoutingOf(t), accepted, i)
  }

  ghost predicate Inv(w: World) {
    && w.accepted.Keys == w.queue.Keys
    && forall n :: n in w.queue ==> w.queue[n].name == n && Faithful(w.queue[n], w.accepted[n])
  }

  lemma SameLogsStayFaithful(t: Topic, u: Topic, accepted: seq<Message>)
    requires Faithful(t, accepted) && TopicSpec.InBounds(u)
    requires t.router == u.router && |t.parts| == |u.parts|
    requires forall i :: 0 <= i < |t.parts| ==> t.parts[i].log == u.parts[i].log
    ensures Faithful(u, accepted)
  {
  }

  lemma ProduceStaysFaithful(t: Topic, accepted: seq<Message>, m: Message)
    requires Faithful(t, accepted)
    ensures var (u, r) := TopicSpec.Produce(t, m);
      Faithful(u, if r.Ok? then accepted + [m] else accepted)
  {
    var (u, r) := TopicSpec.Produce(t, m);
    assert TopicSpec.InBounds(u);
    if r.Err? {
      SameLogsStayFaithful(t, u, accepted);
    } else {
      assert (accepted + [m])[..|accepted|] == accepted;
      assert RoutingOf(t) == RoutingOf(u) && RoutingOf(t)(m.key) == TopicSpec.PartitionOf(t, m.key);
    }
  }

  lemma SendKeepsInv(w: World, defaultCapacity: int, topic: Bytes, m: Message)
    requires Inv(w)
    ensures Inv(Step(w, defaultCapacity, Send(topic, m)))
  {
    if topic in w.queue {
      ProduceStaysFaithful(w.queue[topic], w.accepted[topic], m);
    }
  }

  lemma AckKeepsInv(w: World, topic: Bytes, group: Bytes, partition: int, offset: int)
    requires Inv(w)
    ensures Inv(w.(queue := Ack(w.queue, topic, group, partition, offset).0))
  {
    if Addressed(w.queue, topic, partition) {
      var u := Ack(w.queue, topic, group, partition, offset).0[topic];
      SameLogsStayFaithful(w.queue[topic], u, w.accepted[topic]);
    }
  }

  lemma ShrinkKeepsInv(w: World, topic: Bytes)
    requires Inv(w)
    ensures Inv(w.(queue := CompactTopic(w.queue, topic)))
  {
    if topic in w.queue {
      SameLogsStayFaithful(w.queue[topic], Compacted(w.queue[topic]), w.accepted[topic]);
    }
  }

  lemma StepKeepsInv(w: World, defaultCapacity: int, op: Op)
    requires Inv(w)
    ensures Inv(Step(w, defaultCapacity, op))
  {
    match op
    case Create(name, partitions, capacity) =>
    case Send(topic, m) => SendKeepsInv(w, defaultCapacity, topic, m);
    case Acknowledge(topic, group, partition, offset) => AckKeepsInv(w, topic, group, partition, offset);
    case Shrink(topic) => ShrinkKeepsInv(w, topic);
  }

  lemma {:induction false} RunKeepsInv(w: World, defaultCapacity: int, ops: seq<Op>)
    requires Inv(w)
    ensures Inv(Run(w, defaultCapacity, ops)) && InBounds(Run(w, defaultCapacity, ops).queue)
    decreases |ops|
  {
    if ops != [] {
      StepKeepsInv(w, defaultCapacity, ops[0]);
      RunKeepsInv(Step(w, defaultCapacity, ops[0]), defaultCapacity, ops[1..]);
    }
  }

  // ---------- Per-key order ----------

  function WithKey(ms: seq<Message>, key: Bytes): seq<Message>
    decreases |ms|
  {
    if ms == [] then [] else
      var last := ms[|ms| - 1];
      WithKey(ms[..|ms| - 1], key) + if last.key == key then [last] else []
  }

  lemma {:induction false} KeyOfRouted(route: Routing, ms: seq<Message>, i: nat, key: Bytes)
    ensures WithKey(Routed(route, ms, i), key) ==
            if route(key) == i then WithKey(ms, key) else []
    decreases |ms|
  {
    if ms != [] {
      var front, last := ms[..|ms| - 1], ms[|ms| - 1];
      KeyOfRouted(route, front, i, key);
      if route(last.key) == i {
        var routed := Routed(route, ms, i);
        assert routed == Routed(route, front, i) + [last];
        assert routed[..|routed| - 1] == Routed(route, front, i);
      } else {
        assert Routed(route, ms, i) == Routed(route, front, i);
      }
    }
  }

  /** From an empty queue, after any run: the log of the partition a key routes to holds the
      accepted publishes of that key in order, and no other partition holds any. */
  lemma KeyOrder(defaultCapacity: int, ops: seq<Op>, topic: Bytes, i: nat, key: Bytes)
    requires topic in Run(World(map[], map[]), defaultCapacity, ops).queue
    requires i < |Run(World(map[], map[]), defaultCapacity, ops).queue[topic].parts|
    ensures var w := Run(World(map[], map[]), defaultCapacity, ops);
      && topic in w.accepted && TopicSpec.Valid(w.queue[topic])
      && WithKey(w.queue[topic].parts[i].log, key) ==
           if TopicSpec.PartitionOf(w.queue[topic], key) == i then WithKey(w.accepted[topic], key) else []
  {
    RunKeepsInv(World(map[], map[]), defaultCapacity, ops);
    var w := Run(World(map[], map[]), defaultCapacity, ops);
    KeyOfRouted(RoutingOf(w.queue[topic]), w.accepted[topic], i, key);
  }

  // ---------- Conservation ----------

  /** A partition's removed messages and its live ones. */
  function Kept(s: PartitionSpec.State): multiset<Message> {
    multiset(if s.base <= |s.log| then s.log[..s.base] else []) + multiset(s.live)
  }

  /** Everything removed from or live in the first `n` partitions. */
  function Held(t: Topic, n: nat): multiset<Message>
    requires n <= |t.parts|
  {
    if n == 0 then multiset{} else Held(t, n - 1) + Kept(t.parts[n - 1])
  }

  /** What the first `n` partitions were given. */
  function Given(route: Routing, ms: seq<Message>, n: nat): multiset<Message> {
    if n == 0 then multiset{} else Given(route, ms, n - 1) + multiset(Routed(route, ms, n - 1))
  }

  lemma KeptIsRouted(t: Topic, ms: seq<Message>, i: nat)
    requires Faithful(t, ms) && i < |t.parts|
    ensures Kept(t.parts[i]) == multiset(Routed(RoutingOf(t), ms, i))
  {
    var part := t.parts[i];
    assert part.log == part.log[..part.base] + part.live;
  }

  lemma {:induction false} HeldIsGiven(t: Topic, route: Routing, ms: seq<Message>, n: nat)
    requires n <= |t.parts|
    requires forall i :: 0 <= i < n ==> Kept(t.parts[i]) == multiset(Routed(route, ms, i))
    ensures Held(t, n) == Given(route, ms, n)
    decreases n
  {
    if n != 0 {
      HeldIsGiven(t, route, ms, n - 1);
    }
  }

  lemma RoutedOfNext(route: Routing, ms: seq<Message>, m: Message, i: nat)
    ensures multiset(Routed(route, ms + [m], i)) ==
            multiset(Routed(route, ms, i)) + OneIf(m, route(m.key) == i)
  {
    assert (ms + [m])[..|ms|] == ms;
  }

  lemma GivenOfOneMore(
      given: multiset<Message>, before: multiset<Message>, after: multiset<Message>, m: Message, p: nat, n: nat)
    requires given == before + OneIf(m, p < n)
    ensures given + (after + OneIf(m, p == n)) == before + after + OneIf(m, p < n + 1)
  {
    AddedOnce(before, after, m, p < n, p == n);
  }

  lemma {:induction false} GivenOfNext(route: Routing, ms: seq<Message>, m: Message, n: nat)
    ensures Given(route, ms + [m], n) ==
            Given(route, ms, n) + OneIf(m, route(m.key) < n)
    decreases n
  {
    if n != 0 {
      var i := n - 1;
      GivenOfNext(route, ms, m, i);
      RoutedOfNext(route, ms, m, i);
      GivenOfOneMore(Given(route, ms + [m], i), Given(route, ms, i), multiset(Routed(route, ms, i)), m, route(m.key), i);
    }
  }

  function OneIf(m: Message, present: bool): multiset<Message> {
    if present then multiset{m} else multiset{}
  }

  lemma AddedOnce(a: multiset<Message>, b: multiset<Message>, m: Message, left: bool, right: bool)
    requires !(left && right)
    ensures (a + OneIf(m, left)) + (b + OneIf(m, right)) == a + b + OneIf(m, left || right)
  {
  }

  /** If every key is routed below `n`, the first `n` partitions were given everything. */
  lemma {:induction false} GivenIsAll(route: Routing, ms: seq<Message>, n: nat)
    requires forall key :: route(key) < n
    ensures Given(route, ms, n) == multiset(ms)
    decreases |ms|
  {
    if ms == [] {
      GivenNothing(route, n);
    } else {
      var front := ms[..|ms| - 1];
      assert ms == front + [ms[|ms| - 1]];
      GivenOfNext(route, front, ms[|ms| - 1], n);
      GivenIsAll(route, front, n);
    }
  }

  lemma {:induction false} GivenNothing(route: Routing, n: nat)
    ensures Given(route, [], n) == multiset{}
  {
    if n != 0 {
      GivenNothing(route, n - 1);
    }
  }

  /** From an empty queue, after any run with any compactions: the removed and the live
      messages of a topic's partitions together are exactly its accepted publishes. */
  lemma NothingLostOrInvented(defaultCapacity: int, ops: seq<Op>, topic: Bytes)
    requires topic in Run(World(map[], map[]), defaultCapacity, ops).queue
    ensures var w := Run(World(map[], map[]), defaultCapacity, ops);
      && topic in w.accepted && TopicSpec.Valid(w.queue[topic])
      && Held(w.queue[topic], |w.queue[topic].parts|) == multiset(w.accepted[topic])
  {
    RunKeepsInv(World(map[], map[]), defaultCapacity, ops);
    var w := Run(World(map[], map[]), defaultCapacity, ops);
    HeldIsAll(w.queue[topic], w.accepted[topic]);
  }

  lemma HeldIsAll(t: Topic, ms: seq<Message>)
    requires Faithful(t, ms)
    ensures Held(t, |t.parts|) == multiset(ms)
  {
    forall i | 0 <= i < |t.parts| ensures Kept(t.parts[i]) == multiset(Routed(RoutingOf(t), ms, i)) {
      KeptIsRouted(t, ms, i);
    }
    HeldIsGiven(t, RoutingOf(t), ms, |t.parts|);
    GivenIsAll(RoutingOf(t), ms, |t.parts|);
  }

  /** An accepted publish is readable at the partition and offset it reports. */
  lemma PublishIsReadable(q: Queue, topic: Bytes, m: Message)
    requires Valid(q)
    ensures var (q', r) := Publish(q, topic, m);
      && (r.Err? ==> q' == q)
      && (r.Ok? ==>
            && Addressed(q', topic, r.value.0)
            && r.value.0 == TopicSpec.PartitionOf(q[topic], m.key)
            && 0 <= r.value.1 < |q'[topic].parts[r.value.0].live|
            && q'[topic].parts[r.value.0].live[r.value.1] == m)
  {
    if topic in q {
      var parts, p := q[topic].parts, TopicSpec.PartitionOf(q[topic], m.key);
      assert parts[p := parts[p]] == parts;
    }
  }
}
