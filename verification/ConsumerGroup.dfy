/** mq/internal/consumer_group.go: a consumer group that keeps its own offsets, beside the
    offsets the partitions keep for the same group. */
module GroupSpec {
  import opened Types
  import PartitionSpec
  import TopicSpec
  import QueueSpec
  import Handler
  import Refinement

  /** The offsets a group holds, by partition. */
  type Tracker = map<int, int>

  function Tracked(offsets: Tracker, p: int): int {
    if p in offsets then offsets[p] else 0
  }

  /** Reading registers the partition at 0 and returns the batch with the next offset. */
  function Consume(t: TopicSpec.Topic, offsets: Tracker, p: int, batch: int): (Tracker, Result<(seq<Message>, int)>) {
    if batch <= 0 then (offsets, Err(InvalidArg))
    else if p < 0 || |t.parts| <= p then (offsets, Err(PartitionRange))
    else
      var registered := offsets[p := Tracked(offsets, p)];
      match PartitionSpec.ReadFrom(t.parts[p], registered[p], batch)
      case Err(error) => (registered, Err(error))
      case Ok(msgs) => (registered, Ok((msgs, registered[p] + |msgs|)))
  }

  /** Only the partition is checked, never the offset. */
  function Commit(t: TopicSpec.Topic, offsets: Tracker, p: int, offset: int): (Tracker, Result<()>) {
    if p < 0 || |t.parts| <= p then (offsets, Err(PartitionRange))
    else (offsets[p := offset], Ok(()))
  }

  /** A commit takes any offset, and moves this partition alone. The next read there is refused
      exactly when that offset is below 0 or above the tail, and else starts from it. */
  lemma StrayCommitBlocksReading(t: TopicSpec.Topic, offsets: Tracker, p: int, offset: int, batch: int, i: int)
    requires 0 < batch && (0 <= p < |t.parts| ==> |t.parts[p].live| + batch <= MAX_INT)
    ensures var (after, r) := Commit(t, offsets, p, offset);
      if p < 0 || |t.parts| <= p then
        r == Err(PartitionRange) && after == offsets && Consume(t, offsets, p, batch) == (offsets, Err(PartitionRange))
      else
        var read := Consume(t, after, p, batch).1;
        && r == Ok(()) && Tracked(after, p) == offset
        && (i != p ==> Tracked(after, i) == Tracked(offsets, i))
        && (if offset < 0 || |t.parts[p].live| < offset then read == Err(OffsetOutOfRange)
            else read.Ok? && read.value.0 == PartitionSpec.Window(t.parts[p].live, offset, batch)
                 && read.value.1 == offset + |read.value.0|)
  {
    if 0 <= p < |t.parts| && 0 <= offset <= |t.parts[p].live| {
      PartitionSpec.ReadIsWindow(t.parts[p], offset, batch);
    }
  }

  // ---------- The two trackers side by side ----------

  /** One topic of a queue, a consumer group on it, the next offsets handed out so far, and
      the batches and next offsets each side has received. */
  datatype World = World(
    queue: QueueSpec.Queue,
    tracker: Tracker,
    issued: seq<(int, int)>,
    viaQueue: seq<(seq<Message>, int)>,
    viaGroup: seq<(seq<Message>, int)>)

  datatype Op =
    | Send(m: Message)
    | Fetch(p: int, batch: int)
    | CommitIssued(i: nat)

  ghost function Step(w: World, topic: Bytes, g: Bytes, op: Op): World
    requires topic in w.queue
  {
    match op
    case Send(m) =>
      w.(queue := QueueSpec.Publish(w.queue, topic, m).0)
    case Fetch(p, batch) =>
      var q := Handler.Consumed(w.queue, topic, g, p, batch);
      var read := QueueSpec.Consume(w.queue, topic, g, p, batch);
      var (tracker, r) := Consume(w.queue[topic], w.tracker, p, batch);
      World(w.queue, tracker,
            if q.Ok? then w.issued + [(p, q.value.nextOffset)] else w.issued,
            if q.Ok? && read.Ok? then w.viaQueue + [(read.value, q.value.nextOffset)] else w.viaQueue,
            if r.Ok? then w.viaGroup + [r.value] else w.viaGroup)
    case CommitIssued(i) =>
      if i >= |w.issued| then w else
        var (p, next) := w.issued[i];
        w.(queue := QueueSpec.Ack(w.queue, topic, g, p, next).0,
           tracker := Commit(w.queue[topic], w.tracker, p, next).0)
  }

  ghost predicate Agree(w: World, topic: Bytes, g: Bytes) {
    && QueueSpec.InBounds(w.queue) && topic in w.queue && g != []
    && (forall p :: 0 <= p < |w.queue[topic].parts| ==>
          Tracked(w.tracker, p) == PartitionSpec.Offset(w.queue[topic].parts[p], g))
    && (forall i :: 0 <= i < |w.issued| ==>
          0 <= w.issued[i].0 < |w.queue[topic].parts| &&
          0 <= w.issued[i].1 <= |w.queue[topic].parts[w.issued[i].0].live|)
    && w.viaQueue == w.viaGroup
  }

  lemma BothReadAlike(w: World, topic: Bytes, g: Bytes, p: int, batch: int)
    requires Agree(w, topic, g)
    ensures var q := Handler.Consumed(w.queue, topic, g, p, batch);
      var read := QueueSpec.Consume(w.queue, topic, g, p, batch);
      var (tracker, r) := Consume(w.queue[topic], w.tracker, p, batch);
      && (q.Ok? <==> read.Ok?) && (q.Ok? <==> r.Ok?)
      && (q.Ok? ==>
            && r.value == (read.value, q.value.nextOffset)
            && 0 <= p < |w.queue[topic].parts|
            && 0 <= q.value.nextOffset <= |w.queue[topic].parts[p].live|)
      && (forall i :: 0 <= i < |w.queue[topic].parts| ==> Tracked(tracker, i) == Tracked(w.tracker, i))
  {
  }

  lemma FetchAgrees(w: World, topic: Bytes, g: Bytes, p: int, batch: int)
    requires Agree(w, topic, g)
    ensures Agree(Step(w, topic, g, Fetch(p, batch)), topic, g)
  {
    BothReadAlike(w, topic, g, p, batch);
  }

  lemma SendAgrees(w: World, topic: Bytes, g: Bytes, m: Message)
    requires Agree(w, topic, g)
    ensures Agree(Step(w, topic, g, Send(m)), topic, g)
  {
  }

  lemma CommitAgrees(w: World, topic: Bytes, g: Bytes, i: nat)
    requires Agree(w, topic, g)
    ensures Agree(Step(w, topic, g, CommitIssued(i)), topic, g)
  {
  }

  lemma StepAgrees(w: World, topic: Bytes, g: Bytes, op: Op)
    requires Agree(w, topic, g)
    ensures Agree(Step(w, topic, g, op), topic, g)
  {
    match op
    case Send(m) => SendAgrees(w, topic, g, m);
    case Fetch(p, batch) => FetchAgrees(w, topic, g, p, batch);
    case CommitIssued(i) => CommitAgrees(w, topic, g, i);
  }

  ghost predicate RunsTo(w: World, topic: Bytes, g: Bytes, ops: seq<Op>, end: World)
    decreases |ops|
  {
    if ops == [] then end == w else
      topic in w.queue &&
      RunsTo(Step(w, topic, g, ops[0]), topic, g, ops[1..], end)
  }

  /** On every trace without compaction, of appends, reads and commits of returned offsets in
      any order, both trackers deliver the same batches and hold the same offsets. */
  lemma {:induction false} TrackersAgree(w: World, topic: Bytes, g: Bytes, ops: seq<Op>, end: World)
    requires Agree(w, topic, g) && RunsTo(w, topic, g, ops, end)
    ensures Agree(end, topic, g)
    decreases |ops|
  {
    if ops != [] {
      StepAgrees(w, topic, g, ops[0]);
      TrackersAgree(Step(w, topic, g, ops[0]), topic, g, ops[1..], end);
    }
  }

  /** So from the start: a new tracker beside a group that has not committed yet. */
  lemma TrackersAgreeFromTheStart(q: QueueSpec.Queue, topic: Bytes, g: Bytes, ops: seq<Op>, end: World)
    requires QueueSpec.InBounds(q) && topic in q && g != []
    requires forall p :: 0 <= p < |q[topic].parts| ==> g !in q[topic].parts[p].offsets
    requires RunsTo(World(q, map[], [], [], []), topic, g, ops, end)
    ensures topic in end.queue && end.viaQueue == end.viaGroup
    ensures forall p :: 0 <= p < |end.queue[topic].parts| ==>
      Tracked(end.tracker, p) == PartitionSpec.Offset(end.queue[topic].parts[p], g)
  {
    TrackersAgree(World(q, map[], [], [], []), topic, g, ops, end);
  }

  /** A compaction renumbers one tracker only: where they agreed, they then differ by what it
      removed, so they still agree exactly when it removed nothing. */
  lemma CompactionSeparatesTrackers(s: PartitionSpec.State, g: Bytes, offset: int)
    requires PartitionSpec.InBounds(s) && g in s.offsets && offset == PartitionSpec.Offset(s, g)
    ensures var (t, k) := PartitionSpec.Compact(s);
      && offset - PartitionSpec.Offset(t, g) == k
      && (offset == PartitionSpec.Offset(t, g) <==> k == 0)
      && (offset > |t.live| <==> |s.live| - offset < k)
  {
    Refinement.CompactionExact(s);
  }
}

module Groups {
  import opened Types
  import opened Topics
  import TopicSpec
  import Spec = GroupSpec

  class ConsumerGroup {
    const name: Bytes
    const topic: Topic
    var offsets: Spec.Tracker

    constructor (name: Bytes, topic: Topic)
      ensures this.name == name && this.topic == topic && offsets == map[]
    {
      this.name, this.topic, offsets := name, topic, map[];
    }

    method Consume(partition: int, batch: int) returns (r: Result<(seq<Message>, int)>)
      requires topic.Valid()
      modifies this
      ensures (offsets, r) == Spec.Consume(topic.View(), old(offsets), partition, batch)
    {
      if batch <= 0 {
        return Err(InvalidArg);
      }
      if partition < 0 || partition >= |topic.partitions| {
        return Err(PartitionRange);
      }
      if partition !in offsets {
        offsets := offsets[partition := 0];
      }
      var start := offsets[partition];
      var read := topic.partitions[partition].ReadFrom(start, batch);
      assert offsets == old(offsets)[partition := start];
      if read.Err? {
        return Err(read.error);
      }
      return Ok((read.value, start + |read.value|));
    }

    method Commit(partition: int, offset: int) returns (r: Result<()>)
      modifies this
      ensures (offsets, r) == Spec.Commit(topic.View(), old(offsets), partition, offset)
    {
      if partition < 0 || partition >= |topic.partitions| {
        return Err(PartitionRange);
      }
      offsets := offsets[partition := offset];
      return Ok(());
    }

    method Offset(partition: int) returns (offset: int)
      ensures offset == Spec.Tracked(offsets, partition)
    {
      if partition in offsets {
        return offsets[partition];
      }
      return 0;
    }
  }
}
