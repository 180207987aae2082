/** mq/internal/queue.go: the queue as a map of topics, and the object that holds them. */
module QueueSpec {
  import opened Types
  import PartitionSpec
  import opened TopicSpec

  type Queue = map<Bytes, Topic>

  ghost predicate Valid(q: Queue) {
    forall n :: n in q ==> TopicSpec.Valid(q[n]) && q[n].name == n
  }

  ghost predicate InBounds(q: Queue) {
    && Valid(q)
    && forall n :: n in q ==> TopicSpec.InBounds(q[n])
  }

  function CreateTopic(q: Queue, defaultCapacity: int, name: Bytes, partitions: int, capacity: int): (Queue, Result<()>) {
    if name == [] || partitions <= 0 then (q, Err(InvalidArg))
    else if name in q then (q, Err(TopicExists))
    else
      var cap := if capacity == 0 then defaultCapacity else capacity;
      (q[name := Topic(name, seq(partitions, _ => PartitionSpec.Empty(cap)), Modulo)], Ok(()))
  }

  ghost function Publish(q: Queue, topic: Bytes, m: Message): (Queue, Result<(int, int)>) {
    if m.key == [] then (q, Err(InvalidArg))
    else if topic !in q then (q, Err(TopicNotFound))
    else
      var (t, r) := Produce(q[topic], m);
      (q[topic := t], r)
  }

  predicate Addressed(q: Queue, topic: Bytes, partition: int) {
    topic in q && 0 <= partition < |q[topic].parts|
  }

  function AddressError(q: Queue, topic: Bytes): Error {
    if topic !in q then TopicNotFound else PartitionRange
  }

  function Consume(q: Queue, topic: Bytes, group: Bytes, partition: int, batch: int): Result<seq<Message>> {
    if group == [] || batch <= 0 then Err(InvalidArg)
    else if !Addressed(q, topic, partition) then Err(AddressError(q, topic))
    else
      var part := q[topic].parts[partition];
      PartitionSpec.ReadFrom(part, PartitionSpec.Offset(part, group), batch)
  }

  function Ack(q: Queue, topic: Bytes, group: Bytes, partition: int, offset: int): (Queue, Result<()>) {
    if !Addressed(q, topic, partition) then (q, Err(AddressError(q, topic))) else
      var t := q[topic];
      var (part, r) := PartitionSpec.Commit(t.parts[partition], group, offset);
      (q[topic := t.(parts := t.parts[partition := part])], r)
  }

  /** The topic with its first `n` partitions compacted. */
  ghost function CompactedUpTo(t: Topic, n: nat): Topic
    requires n <= |t.parts|
  {
    t.(parts := seq(|t.parts|, i requires 0 <= i < |t.parts| =>
      if i < n then PartitionSpec.Compact(t.parts[i]).0 else t.parts[i]))
  }

  lemma CompactNext(t: Topic, n: nat)
    requires n < |t.parts|
    ensures var u := CompactedUpTo(t, n);
      && CountOf(t, n) == CountOf(u, n)
      && CompactedUpTo(t, n + 1) == u.(parts := u.parts[n := PartitionSpec.Compact(u.parts[n]).0])
  {
    var u := CompactedUpTo(t, n);
    assert u.parts[n] == t.parts[n];
    assert CompactedUpTo(t, n + 1).parts == u.parts[n := PartitionSpec.Compact(t.parts[n]).0];
  }

  ghost function Compacted(t: Topic): Topic {
    CompactedUpTo(t, |t.parts|)
  }

  ghost function CountOf(t: Topic, i: nat): int
    requires i < |t.parts|
  {
    PartitionSpec.Compact(t.parts[i]).1
  }

  ghost function IdsUpTo(name: Bytes, n: nat): set<Bytes> {
    set i | 0 <= i < n :: PartitionId(name, i)
  }

  /** What the first `n` partitions report: one count under each partition id. */
  ghost predicate ReportsUpTo(t: Topic, n: nat, results: map<Bytes, int>)
    requires n <= |t.parts|
  {
    && results.Keys == IdsUpTo(t.name, n)
    && forall i: nat :: i < n ==>
         PartitionId(t.name, i) in results && results[PartitionId(t.name, i)] == CountOf(t, i)
  }

  lemma IdIsNew(name: Bytes, n: nat)
    ensures PartitionId(name, n) !in IdsUpTo(name, n)
    ensures IdsUpTo(name, n + 1) == IdsUpTo(name, n) + {PartitionId(name, n)}
  {
    forall i | 0 <= i < n ensures PartitionId(name, i) != PartitionId(name, n) {
      if PartitionId(name, i) == PartitionId(name, n) {
        PartitionIdsAreDistinct(name, i, n);
      }
    }
  }

  lemma ReportNext(t: Topic, n: nat, results: map<Bytes, int>)
    requires n < |t.parts| && ReportsUpTo(t, n, results)
    ensures ReportsUpTo(t, n + 1, results[PartitionId(t.name, n) := CountOf(t, n)])
  {
    IdIsNew(t.name, n);
    assert forall i: nat :: i < n ==> PartitionId(t.name, i) in IdsUpTo(t.name, n);
  }

  lemma CompactBegins(t: Topic)
    ensures CompactedUpTo(t, 0) == t && ReportsUpTo(t, 0, map[])
  {
    assert CompactedUpTo(t, 0).parts == t.parts;
    assert IdsUpTo(t.name, 0) == {};
  }

  /** One turn of the loop over partitions. */
  lemma CompactStep(t: Topic, n: nat, results: map<Bytes, int>)
    requires n < |t.parts| && ReportsUpTo(t, n, results)
    ensures var u := CompactedUpTo(t, n);
      && CompactedUpTo(t, n + 1) == u.(parts := u.parts[n := PartitionSpec.Compact(u.parts[n]).0])
      && ReportsUpTo(t, n + 1, results[PartitionId(t.name, n) := PartitionSpec.Compact(u.parts[n]).1])
  {
    CompactNext(t, n);
    ReportNext(t, n, results);
  }

  ghost function CompactTopic(q: Queue, topic: Bytes): Queue {
    if topic !in q then q else q[topic := Compacted(q[topic])]
  }

  datatype Stats = Stats(id: Bytes, messageCount: int, tailOffset: int, minConsumerOffset: int, compactableCount: int)

  ghost function StatsOf(q: Queue, topic: Bytes, partition: int): Result<Stats> {
    if !Addressed(q, topic, partition) then Err(AddressError(q, topic)) else
      var part := q[topic].parts[partition];
      var w := PartitionSpec.Watermark(part.offsets);
      Ok(Stats(PartitionId(q[topic].name, partition), |part.live|, |part.live|, w, w))
  }
}

module Queues {
  import opened Types
  import PartitionSpec
  import TopicSpec
  import opened Partitions
  import opened Topics
  import Spec = QueueSpec

  class Queue {
    var topics: map<Bytes, Topic>
    const defaultPartitionCapacity: int

    /** Every partition of every topic. */
    ghost function Repr(): set<Partition>
      reads this
    {
      set n, i | n in topics && 0 <= i < |topics[n].partitions| :: topics[n].partitions[i]
    }

    ghost function View(): Spec.Queue
      reads this, Repr()
    {
      map n | n in topics :: topics[n].View()
    }

    /** Valid topics under their own names; being placed, their partitions are distinct. */
    ghost predicate Valid()
      reads this, Repr()
    {
      forall n :: n in topics ==> topics[n].Valid() && topics[n].name == n
    }

    /** A call that touches one topic's partitions leaves the other topics as they were. */
    twostate lemma OnlyTopicChanged(topic: Bytes)
      requires old(Valid()) && topics == old(topics) && topic in topics
      requires topics[topic].Valid()
      requires forall p :: p in Repr() && p.home != topic ==> unchanged(p)
      ensures Valid() && Repr() == old(Repr())
      ensures View() == old(View())[topic := topics[topic].View()]
    {
      forall n | n in topics && n != topic
        ensures topics[n].Valid() && topics[n].View() == old(topics[n].View())
      {
        assert forall i :: 0 <= i < |topics[n].partitions| ==>
          topics[n].partitions[i] in Repr() && topics[n].partitions[i].home == n;
      }
    }

    twostate lemma TopicUnchanged(t: Topic)
      requires forall i :: 0 <= i < |t.partitions| ==> unchanged(t.partitions[i])
      ensures t.Valid() == old(t.Valid()) && t.View() == old(t.View())
    {
    }

    twostate lemma TopicsUnchanged(name: Bytes)
      requires old(Valid()) && name !in old(topics)
      requires forall n :: n in old(topics) ==> n in topics && topics[n] == old(topics[n])
      requires forall n, i :: n in old(topics) && 0 <= i < |topics[n].partitions| ==>
        unchanged(topics[n].partitions[i])
      ensures forall n :: n in old(topics) ==>
        topics[n].Valid() && topics[n].name == n && topics[n].View() == old(View())[n]
    {
      forall n | n in old(topics)
        ensures topics[n].Valid() && topics[n].View() == old(topics[n].View())
      {
        TopicUnchanged(topics[n]);
      }
    }

    /** A topic made of new partitions leaves the topics that were there as they were. */
    twostate lemma TopicAdded(name: Bytes)
      requires old(Valid()) && name !in old(topics) && name in topics
      requires topics == old(topics)[name := topics[name]]
      requires topics[name].Valid() && topics[name].name == name
      requires forall n, i :: n in old(topics) && 0 <= i < |topics[n].partitions| ==>
        unchanged(topics[n].partitions[i])
      ensures Valid() && View() == old(View())[name := topics[name].View()]
    {
      TopicsUnchanged(name);
      assert View().Keys == old(View()).Keys + {name};
    }

    constructor (defaultPartitionCapacity: int)
      ensures Valid() && View() == map[] && this.defaultPartitionCapacity == defaultPartitionCapacity
    {
      topics := map[];
      this.defaultPartitionCapacity := defaultPartitionCapacity;
    }

    method CreateTopic(name: Bytes, partitions: int, partitionCapacity: int) returns (r: Result<()>)
      requires Valid()
      modifies this
      ensures Valid() && fresh(Repr() - old(Repr()))
      ensures (View(), r) == Spec.CreateTopic(old(View()), defaultPartitionCapacity, name, partitions, partitionCapacity)
    {
      if name == [] || partitions <= 0 {
        return Err(InvalidArg);
      }
      if name in topics {
        return Err(TopicExists);
      }
      var cap := partitionCapacity;
      if cap == 0 {
        cap := defaultPartitionCapacity;
      }
      var t := new Topic.WithModulo(name, partitions, cap);
      topics := topics[name := t];
      TopicAdded(name);
      return Ok(());
    }

    method Publish(topic: Bytes, msg: Message) returns (r: Result<(int, int)>)
      requires Valid()
      modifies Repr()
      ensures Valid() && Repr() == old(Repr())
      ensures (View(), r) == Spec.Publish(old(View()), topic, msg)
    {
      if msg.key == [] {
        return Err(InvalidArg);
      }
      if topic !in topics {
        return Err(TopicNotFound);
      }
      r := topics[topic].Produce(msg);
      OnlyTopicChanged(topic);
    }

    method Consume(topic: Bytes, group: Bytes, partition: int, batch: int) returns (r: Result<seq<Message>>)
      requires Valid()
      ensures r == Spec.Consume(View(), topic, group, partition, batch)
    {
      if group == [] {
        return Err(InvalidArg);
      }
      if batch <= 0 {
        return Err(InvalidArg);
      }
      if topic !in topics {
        return Err(TopicNotFound);
      }
      var t := topics[topic];
      if partition < 0 || partition >= |t.partitions| {
        return Err(PartitionRange);
      }
      var part := t.partitions[partition];
      var start := part.Offset(group);
      r := part.ReadFrom(start, batch);
    }

    method Ack(topic: Bytes, group: Bytes, partition: int, offset: int) returns (r: Result<()>)
      requires Valid()
      modifies Repr()
      ensures Valid() && Repr() == old(Repr())
      ensures (View(), r) == Spec.Ack(old(View()), topic, group, partition, offset)
    {
      if topic !in topics {
        return Err(TopicNotFound);
      }
      var t := topics[topic];
      if partition < 0 || partition >= |t.partitions| {
        return Err(PartitionRange);
      }
      var part := t.partitions[partition];
      r := part.Commit(group, offset);
      assert t.View().parts == old(t.View()).parts[partition := part.View()];
      OnlyTopicChanged(topic);
    }

    /** The names in some order: Go's map iteration promises none. */
    method ListTopics() returns (names: seq<Bytes>)
      ensures forall n :: n in names <==> n in View()
      ensures forall i, j :: 0 <= i < j < |names| ==> names[i] != names[j]
    {
      names := [];
      var rest := topics.Keys;
      while rest != {}
        invariant rest <= topics.Keys
        invariant forall n :: n in names <==> n in topics && n !in rest
        invariant forall i, j :: 0 <= i < j < |names| ==> names[i] != names[j]
        decreases rest
      {
        var n :| n in rest;
        names := names + [n];
        rest := rest - {n};
      }
    }

    method CompactTopic(topic: Bytes) returns (r: Result<map<Bytes, int>>)
      requires Valid()
      modifies Repr()
      ensures Valid() && Repr() == old(Repr())
      ensures View() == Spec.CompactTopic(old(View()), topic)
      ensures topic !in old(View()) ==> r == Err(TopicNotFound)
      ensures topic in old(View()) ==> r.Ok? && Spec.ReportsUpTo(old(View())[topic], |old(View())[topic].parts|, r.value)
    {
      if topic !in topics {
        return Err(TopicNotFound);
      }
      var t := topics[topic];
      var results := CompactPartitions(t);
      OnlyTopicChanged(topic);
      return Ok(results);
    }

    method GetPartitionStats(topic: Bytes, partition: int) returns (r: Result<Spec.Stats>)
      requires Valid()
      ensures r == Spec.StatsOf(View(), topic, partition)
    {
      if topic !in topics {
        return Err(TopicNotFound);
      }
      var t := topics[topic];
      if partition < 0 || partition >= |t.partitions| {
        return Err(PartitionRange);
      }
      var part := t.partitions[partition];
      var tail := part.TailOffset();
      var least := part.GetMinConsumerOffset();
      return Ok(Spec.Stats(part.id, |part.messages|, tail, least, least));
    }
  }

  /** The loop of `CompactTopic`. */
  method CompactPartitions(t: Topic) returns (results: map<Bytes, int>)
    requires t.Valid()
    modifies t.partitions
    ensures t.Valid()
    ensures t.View() == Spec.Compacted(old(t.View()))
    ensures Spec.ReportsUpTo(old(t.View()), |t.partitions|, results)
  {
    results := map[];
    ghost var before := t.View();
    Spec.CompactBegins(before);
    for i := 0 to |t.partitions|
      invariant t.Valid()
      invariant t.View() == Spec.CompactedUpTo(before, i)
      invariant Spec.ReportsUpTo(before, i, results)
    {
      Spec.CompactStep(before, i, results);
      var compacted := t.CompactPartition(i);
      results := results[t.partitions[i].id := compacted];
    }
  }
}
