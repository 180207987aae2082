/** What a caller of the queue can count on, call by call, in terms of the partition the call
    addresses: when a publish is accepted, what each read and ack answers, what the statistics
    foretell, and which error each refusal is. */
module QueueLaws {
  import opened Types
  import PartitionSpec
  import TopicSpec
  import opened QueueSpec
  import QueueRuns
  import Handler
  import Fnv

  // ---------- Publish ----------

  /** The topic is there and the partition the key routes to has room. */
  ghost predicate HasRoom(q: Queue, topic: Bytes, m: Message) {
    && m.key != [] && topic in q
    && var t := q[topic];
       var p := TopicSpec.Route(t.router, |t.parts|, m.key);
       p < |t.parts| && (t.parts[p].capacity <= 0 || |t.parts[p].live| < t.parts[p].capacity)
  }

  /** A publish is accepted exactly when there is room: then its partition has one message
      more, at the offset reported. Nothing else changes, and a refusal names its reason. */
  lemma PublishIsAcceptedExactlyWhen(q: Queue, topic: Bytes, m: Message)
    requires Valid(q)
    ensures var (q', r) := Publish(q, topic, m);
      && (r.Ok? <==> HasRoom(q, topic, m))
      && (r.Err? ==>
            q' == q &&
            r.error == if m.key == [] then InvalidArg else if topic !in q then TopicNotFound else PartitionFull)
      && (r.Ok? ==>
            var t := q[topic];
            var p := TopicSpec.Route(t.router, |t.parts|, m.key);
            var part := t.parts[p];
            && r.value == (p, |part.live|)
            && q' == q[topic := t.(parts := t.parts[p := part.(live := part.live + [m], log := part.log + [m])])])
  {
    if m.key != [] && topic in q {
      var t := q[topic];
      var p := TopicSpec.Route(t.router, |t.parts|, m.key);
      assert t.parts[p := t.parts[p]] == t.parts;
      assert q[topic := t] == q;
    }
  }

  ghost function AdmittedBy(w: QueueRuns.World, op: QueueRuns.Op, topic: Bytes): seq<Message> {
    if op.Send? && op.topic == topic && HasRoom(w.queue, topic, op.m) then [op.m] else []
  }

  /** The sends to a topic that found room when their turn came, in order. */
  ghost function Admitted(w: QueueRuns.World, defaultCapacity: int, ops: seq<QueueRuns.Op>, topic: Bytes): seq<Message>
    decreases |ops|
  {
    if ops == [] then [] else
      AdmittedBy(w, ops[0], topic) +
      Admitted(QueueRuns.Step(w, defaultCapacity, ops[0]), defaultCapacity, ops[1..], topic)
  }

  function AcceptedSoFar(w: QueueRuns.World, topic: Bytes): seq<Message> {
    if topic in w.accepted then w.accepted[topic] else []
  }

  /** Over any run: what a topic has accepted is exactly the sends that found room. */
  lemma {:induction false} AcceptedAreTheAdmitted(
      w: QueueRuns.World, defaultCapacity: int, ops: seq<QueueRuns.Op>, topic: Bytes)
    requires QueueRuns.Inv(w)
    ensures AcceptedSoFar(QueueRuns.Run(w, defaultCapacity, ops), topic) ==
            AcceptedSoFar(w, topic) + Admitted(w, defaultCapacity, ops, topic)
    decreases |ops|
  {
    if ops != [] {
      var w1 := QueueRuns.Step(w, defaultCapacity, ops[0]);
      QueueRuns.StepKeepsInv(w, defaultCapacity, ops[0]);
      StepAdmits(w, defaultCapacity, ops[0], topic);
      AcceptedAreTheAdmitted(w1, defaultCapacity, ops[1..], topic);
      Regrouped(AcceptedSoFar(w, topic), AdmittedBy(w, ops[0], topic), Admitted(w1, defaultCapacity, ops[1..], topic));
    }
  }

  lemma Regrouped(a: seq<Message>, b: seq<Message>, c: seq<Message>)
    ensures (a + b) + c == a + (b + c)
  {
  }

  lemma StepAdmits(w: QueueRuns.World, defaultCapacity: int, op: QueueRuns.Op, topic: Bytes)
    requires QueueRuns.Inv(w)
    ensures AcceptedSoFar(QueueRuns.Step(w, defaultCapacity, op), topic) ==
            AcceptedSoFar(w, topic) + AdmittedBy(w, op, topic)
  {
    if op.Send? {
      PublishIsAcceptedExactlyWhen(w.queue, op.topic, op.m);
    }
  }

  // ---------- Creating a topic ----------

  /** A topic is made exactly for a new name and a positive count: that many empty partitions of
      the capacity asked for, the default if that is 0. No other topic changes. */
  lemma CreateTopicMakes(
      q: Queue, defaultCapacity: int, name: Bytes, partitions: int, capacity: int, n: Bytes, i: nat)
    requires i < partitions
    ensures var (q', r) := CreateTopic(q, defaultCapacity, name, partitions, capacity);
      && (r.Ok? <==> name != [] && name !in q)
      && (r.Err? ==> q' == q && r.error == if name == [] then InvalidArg else TopicExists)
      && (r.Ok? ==>
            && q'.Keys == q.Keys + {name} && q'[name].name == name && |q'[name].parts| == partitions
            && var part := q'[name].parts[i];
               && part.live == [] && part.log == [] && part.offsets == map[]
               && part.capacity == if capacity != 0 then capacity else defaultCapacity)
      && (n in q ==> n in q' && q'[n] == q[n])
  {
  }

  lemma NoTopicWithoutPartitions(q: Queue, defaultCapacity: int, name: Bytes, partitions: int, capacity: int)
    requires partitions <= 0
    ensures CreateTopic(q, defaultCapacity, name, partitions, capacity) == (q, Err(InvalidArg))
  {
  }

  /** It routes each key to the one partition congruent to the key's hash. */
  lemma CreatedTopicRoutesByHash(
      q: Queue, defaultCapacity: int, name: Bytes, partitions: int, capacity: int, key: Bytes, p: nat)
    requires name != [] && name !in q && 0 < partitions && key != []
    ensures var q' := CreateTopic(q, defaultCapacity, name, partitions, capacity).0;
      name in q' &&
      (TopicSpec.PartitionOf(q'[name], key) == p <==> p < partitions && (Fnv.Hash(key) - p) % partitions == 0)
  {
    TopicSpec.ModuloRouteIsTheRemainder(partitions, key, p);
  }

  // ---------- Consume and its response ----------

  /** A consume hands out the window of the uncut log from where the group stands, and which
      refusal is made when. */
  lemma ConsumeReadsFromThePosition(q: Queue, topic: Bytes, g: Bytes, partition: int, batch: int)
    requires InBounds(q) && batch <= MAX_INT
    requires Addressed(q, topic, partition) ==> |q[topic].parts[partition].live| <= MAX_INT
    ensures var r := Consume(q, topic, g, partition, batch);
      if g == [] || batch <= 0 then r == Err(InvalidArg)
      else if topic !in q then r == Err(TopicNotFound)
      else if partition < 0 || |q[topic].parts| <= partition then r == Err(PartitionRange)
      else
        var part := q[topic].parts[partition];
        var offset := if g in part.offsets then part.offsets[g] else 0;
        && 0 <= part.base + offset <= |part.log|
        && r == if offset == |part.live| || offset + batch <= MAX_INT
                then Ok(PartitionSpec.Window(part.log, part.base + offset, batch)) else Err(Panicked)
  {
    if g != [] && 0 < batch && Addressed(q, topic, partition) {
      var part := q[topic].parts[partition];
      var offset := PartitionSpec.Offset(part, g);
      PartitionSpec.ReadIsWindow(part, offset, batch);
      if offset == |part.live| {
        assert PartitionSpec.Window(part.live, offset, batch) == [];
        assert PartitionSpec.Window(part.log, part.base + offset, batch) == [];
      } else if offset + batch <= MAX_INT {
        PartitionSpec.ReadOfLog(part, offset, batch);
      }
    }
  }

  /** Message `i` of a response is the live message at the offset it carries, and the next
      offset is one past the last of them. */
  lemma ResponseNamesOffsets(q: Queue, topic: Bytes, g: Bytes, partition: int, batch: int)
    requires InBounds(q) && Handler.Consumed(q, topic, g, partition, batch).Ok?
    ensures Addressed(q, topic, partition)
    ensures var part, r := q[topic].parts[partition], Handler.Consumed(q, topic, g, partition, batch).value;
      && r.nextOffset == PartitionSpec.Offset(part, g) + |r.messages|
      && forall i :: 0 <= i < |r.messages| ==>
           var message := r.messages[i];
           && message.offset == PartitionSpec.Offset(part, g) + i
           && 0 <= message.offset < |part.live|
           && message.key == part.live[message.offset].key
           && message.payload == part.live[message.offset].payload
  {
  }

  // ---------- Ack ----------

  /** An ack is accepted exactly for a named group and an offset within the tail. It moves that
      group in that partition and nothing else anywhere. */
  lemma AckMovesOneGroup(q: Queue, topic: Bytes, g: Bytes, partition: int, offset: int, n: Bytes, i: nat, h: Bytes)
    requires n in q && i < |q[n].parts|
    ensures var (q', r) := Ack(q, topic, g, partition, offset);
      && (if topic !in q then r == Err(TopicNotFound)
          else if partition < 0 || |q[topic].parts| <= partition then r == Err(PartitionRange)
          else if g == [] then r == Err(EmptyGroup)
          else if offset < 0 || |q[topic].parts[partition].live| < offset then r == Err(CommitTooLarge)
          else r == Ok(()))
      && q'.Keys == q.Keys && |q'[n].parts| == |q[n].parts| && q'[n].router == q[n].router
      && var before, after := q[n].parts[i], q'[n].parts[i];
         var moved := r.Ok? && n == topic && i == partition && h == g;
         && after == before.(offsets := after.offsets)
         && (h in after.offsets <==> h in before.offsets || moved)
         && (h in after.offsets ==> after.offsets[h] == if moved then offset else before.offsets[h])
  {
  }

  // ---------- Compaction of a topic ----------

  /** Every partition of the topic loses exactly its watermark, every group keeps its place if
      it had one, and no other topic changes. */
  lemma CompactTopicCutsEachPartition(q: Queue, topic: Bytes, n: Bytes, i: nat, g: Bytes)
    requires InBounds(q) && n in q && i < |q[n].parts|
    ensures var q' := CompactTopic(q, topic);
      && q'.Keys == q.Keys && q'[n].name == n && q'[n].router == q[n].router && |q'[n].parts| == |q[n].parts|
      && var before, after := q[n].parts[i], q'[n].parts[i];
         var w := PartitionSpec.Watermark(before.offsets);
         && 0 <= w <= |before.live|
         && (n != topic ==> after == before)
         && (n == topic ==>
               && after.live == before.live[w..] && after.log == before.log && after.base == before.base + w
               && (g in after.offsets <==> g in before.offsets)
               && (g in after.offsets ==> after.offsets[g] == before.offsets[g] - w))
  {
  }

  // ---------- Statistics ----------

  /** The statistics foretell: the offset the next append gets, and what a compaction removes.
      The least committed offset is that of some group and no group's is below it. */
  lemma StatsForetell(q: Queue, topic: Bytes, partition: int, m: Message)
    requires InBounds(q)
    ensures var r := StatsOf(q, topic, partition);
      if topic !in q then r == Err(TopicNotFound)
      else if partition < 0 || |q[topic].parts| <= partition then r == Err(PartitionRange)
      else
        var part := q[topic].parts[partition];
        && r.Ok? && r.value.id == TopicSpec.PartitionId(topic, partition)
        && r.value.messageCount == |part.log| - part.base
        && (PartitionSpec.Append(part, m).1.Ok? ==> PartitionSpec.Append(part, m).1.value == r.value.tailOffset)
        && r.value.compactableCount == PartitionSpec.Compact(part).1
        && (if part.offsets == map[] then r.value.minConsumerOffset == 0
            else PartitionSpec.IsLeast(part.offsets, r.value.minConsumerOffset))
  {
    if Addressed(q, topic, partition) {
      var part := q[topic].parts[partition];
      assert PartitionSpec.InBounds(part);
      assert 0 <= PartitionSpec.Watermark(part.offsets) <= |part.live|;
    }
  }
}
