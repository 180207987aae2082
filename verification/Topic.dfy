/** mq/internal/topic.go: a topic routes each key to one of its partitions. Topics made by
    `NewTopic`/`NewTopicWithReplicas` route over the hash ring, those made by
    `Queue.CreateTopic` by the hash modulo the partition count. */
module TopicSpec {
  import opened Types
  import Fnv
  import Ring
  import PartitionSpec

  datatype Router =
    | Modulo
    | HashRing(name: Bytes, replicas: nat)

  datatype Topic = Topic(name: Bytes, parts: seq<PartitionSpec.State>, router: Router)

  /** `fmt.Sprintf("%s-%d", name, i)`. */
  function PartitionId(name: Bytes, i: nat): Bytes {
    name + [Fnv.DASH] + Fnv.Decimal(i)
  }

  /** The id is the topic's name, a dash, and digits that denote the index. */
  lemma PartitionIdNamesTheIndex(name: Bytes, i: nat)
    ensures var id, n := PartitionId(name, i), |name|;
      n + 1 < |id| && id[..n] == name && id[n] == 45 && Fnv.ValueOf(id[n + 1..]) == i
  {
    Fnv.DecimalDenotes(i);
    assert PartitionId(name, i)[|name| + 1..] == Fnv.Decimal(i);
  }

  /** Replica `r` of partition `p` sits at the hash of the partition's id, a dash and `r`. */
  lemma RingPointsHashTheReplicas(name: Bytes, p: nat, r: nat)
    ensures Ring.PointsOf(name)(p, r) == Fnv.Hash(PartitionId(name, p) + [45] + Fnv.Decimal(r))
  {
    assert PartitionId(name, p) + [45] + Fnv.Decimal(r) == Fnv.ReplicaKey(name, p, r);
  }

  lemma PartitionIdsAreDistinct(name: Bytes, i: nat, j: nat)
    requires PartitionId(name, i) == PartitionId(name, j)
    ensures i == j
  {
    var n := |name| + 1;
    assert PartitionId(name, i)[n..] == Fnv.Decimal(i);
    assert PartitionId(name, j)[n..] == Fnv.Decimal(j);
    Fnv.DecimalIsInjective(i, j);
  }

  ghost predicate Valid(t: Topic) {
    && Routable(t.router, |t.parts|)
    && forall i :: 0 <= i < |t.parts| ==> PartitionSpec.Consistent(t.parts[i])
  }

  ghost predicate InBounds(t: Topic) {
    && Valid(t)
    && forall i :: 0 <= i < |t.parts| ==> PartitionSpec.InBounds(t.parts[i])
  }

  /** What both routers need: a partition, and for a ring at least one replica of each. */
  predicate Routable(router: Router, n: nat) {
    0 < n && (router.HashRing? ==> router.replicas > 0)
  }

  /** The partitioner: a fixed partition below `n` for every key. */
  ghost function Route(router: Router, n: nat, key: Bytes): (p: nat)
    ensures Routable(router, n) ==> p < n
    ensures Routable(router, n) && key != [] && router.HashRing? ==>
      Ring.IsOwner(Ring.PointsOf(router.name), n, router.replicas, Fnv.Hash(key), p)
  {
    if key == [] || !Routable(router, n) then 0 else
      match router
      case Modulo => Fnv.Hash(key) % n
      case HashRing(name, replicas) =>
        Ring.OwnerExists(Ring.PointsOf(name), n, replicas, Fnv.Hash(key));
        var p :| Ring.IsOwner(Ring.PointsOf(name), n, replicas, Fnv.Hash(key), p); p
  }

  ghost function PartitionOf(t: Topic, key: Bytes): nat {
    Route(t.router, |t.parts|, key)
  }

  /** The topic's partitioner as a function value. */
  ghost function RoutingOf(router: Router, n: nat): Bytes -> nat {
    key => Route(router, n, key)
  }

  ghost function Produce(t: Topic, m: Message): (Topic, Result<(int, int)>) {
    var p := PartitionOf(t, m.key);
    if m.key == [] then (t, Err(InvalidArg))
    else if p >= |t.parts| then (t, Err(PartitionRange))
    else
      var (part, r) := PartitionSpec.Append(t.parts[p], m);
      (t.(parts := t.parts[p := part]), if r.Ok? then Ok((p, r.value)) else Err(r.error))
  }

  /** The law of the ring at the level of topics: the same name and replicas with more
      partitions keep every key where it was or give it to a new partition. */
  lemma RingGrowth(name: Bytes, replicas: nat, small: nat, large: nat, key: Bytes)
    requires 0 < small <= large && 0 < replicas
    ensures var before := Route(HashRing(name, replicas), small, key);
      var after := Route(HashRing(name, replicas), large, key);
      after == before || small <= after < large
  {
    if key != [] {
      Ring.GrowthMovesKeysOnlyToNewPartitions(Ring.PointsOf(name), small, large, replicas,
        Fnv.Hash(key), Route(HashRing(name, replicas), small, key),
        Route(HashRing(name, replicas), large, key));
    }
  }

  /** The modulo router: the one partition below `n` that is congruent to the hash. */
  lemma ModuloRouteIsTheRemainder(n: nat, key: Bytes, p: nat)
    requires 0 < n && key != []
    ensures Route(Modulo, n, key) == p <==> p < n && (Fnv.Hash(key) - p) % n == 0
  {
    Ring.RemainderIsCongruent(Fnv.Hash(key), n, p);
  }

  lemma EmptyKeysGoToZero(router: Router, n: nat)
    ensures Route(router, n, []) == 0
  {
  }

  /** Growing a modulo topic keeps a key or moves it to a new partition as its hash says, and
      every key if the old count divides the new. */
  lemma ModuloGrowth(small: nat, large: nat, key: Bytes)
    requires 0 < small <= large && key != []
    ensures var h := Fnv.Hash(key);
      var before, after := Route(Modulo, small, key), Route(Modulo, large, key);
      && (after == before || small <= after < large <==> (h - after) % small == 0 || small <= after)
      && (large % small == 0 ==> after == before || small <= after < large)
  {
    var after := Route(Modulo, large, key);
    ModuloRouteIsTheRemainder(large, key, after);
    if after < small {
      ModuloRouteIsTheRemainder(small, key, after);
    }
    if large % small == 0 {
      Ring.RemainderOfMultiple(Fnv.Hash(key), small, large);
    }
  }

  /** The modulo router does not keep that law: growing from two partitions to three sends
      the key "a" from partition 0 to partition 1. */
  lemma ModuloGrowthMovesOldKeys()
    ensures Route(Modulo, 2, [97]) == 0 && Route(Modulo, 3, [97]) == 1
  {
    Fnv.HashOfA([97]);
  }
}

module Topics {
  import opened Types
  import Fnv
  import Ring
  import PartitionSpec
  import opened Partitions
  import Spec = TopicSpec

  class Topic {
    const name: Bytes
    const partitions: seq<Partition>
    const replicas: int
    const ring: Ring.Stored
    const router: Spec.Router

    ghost function View(): Spec.Topic
      reads partitions
    {
      Spec.Topic(name, seq(|partitions|, i requires 0 <= i < |partitions| reads partitions => partitions[i].View()), router)
    }

    /** Valid partitions made for their places and, for a ring topic, the ring built for them. */
    ghost predicate Valid()
      reads partitions
    {
      && partitions != []
      && (forall i :: 0 <= i < |partitions| ==> Placed(partitions[i], name, i))
      && (forall i :: 0 <= i < |partitions| ==> partitions[i].Valid())
      && (router.HashRing? ==>
            && router.replicas > 0
            && ring.hashes != []
            && Ring.Represents(ring, Ring.PointsOf(router.name), |partitions|, router.replicas))
    }

    /** `NewTopicWithReplicas`. */
    constructor WithReplicas(name: Bytes, numPartitions: int, partitionCapacity: int, replicas: int)
      ensures Valid() && fresh(partitions)
      ensures var n := if numPartitions <= 0 then 1 else numPartitions;
        var r := if replicas <= 0 then 3 else replicas;
        && View() == Spec.Topic(name, seq(n, _ => PartitionSpec.Empty(partitionCapacity)), Spec.HashRing(name, r))
        && this.replicas == r
    {
      var n := if numPartitions <= 0 then 1 else numPartitions;
      var r := if replicas <= 0 then 3 else replicas;
      var parts := NewPartitions(name, n, partitionCapacity);
      var built := Ring.Build(name, n, r);
      this.name := name;
      this.replicas := r;
      partitions := parts;
      ring := built;
      router := Spec.HashRing(name, r);
      new;
      assert View().parts == seq(n, _ => PartitionSpec.Empty(partitionCapacity));
    }

    /** The topic `Queue.CreateTopic` builds: no ring, the modulo partitioner. */
    constructor WithModulo(name: Bytes, numPartitions: int, partitionCapacity: int)
      requires 0 < numPartitions
      ensures Valid() && fresh(partitions)
      ensures View() == Spec.Topic(name, seq(numPartitions, _ => PartitionSpec.Empty(partitionCapacity)), Spec.Modulo)
    {
      var parts := NewPartitions(name, numPartitions, partitionCapacity);
      this.name := name;
      replicas := 0;
      partitions := parts;
      ring := Ring.Stored([], map[]);
      router := Spec.Modulo;
      new;
      assert View().parts == seq(numPartitions, _ => PartitionSpec.Empty(partitionCapacity));
    }

    method Partitioner(key: Bytes) returns (p: int)
      requires Valid()
      ensures p == Spec.PartitionOf(View(), key)
    {
      if key == [] {
        return 0;
      }
      var keyHash := Fnv.Fnv32(key);
      match router
      case Modulo =>
        return keyHash % |partitions|;
      case HashRing(n, r) =>
        p := Ring.Lookup(ring, keyHash, Ring.PointsOf(n), |partitions|, r);
        Ring.OwnerIsUnique(Ring.PointsOf(n), |partitions|, r, keyHash, p, Spec.PartitionOf(View(), key));
    }

    method Produce(msg: Message) returns (r: Result<(int, int)>)
      requires Valid()
      modifies partitions
      ensures Valid()
      ensures (View(), r) == Spec.Produce(old(View()), msg)
    {
      if msg.key == [] {
        return Err(InvalidArg);
      }
      var idx := Partitioner(msg.key);
      if idx < 0 || idx >= |partitions| {
        return Err(PartitionRange);
      }
      var appended := partitions[idx].Append(msg);
      assert View().parts == old(View()).parts[idx := partitions[idx].View()];
      match appended
      case Err(error) =>
        return Err(error);
      case Ok(off) =>
        return Ok((idx, off));
    }

    /** One turn of the loop of `Queue.CompactTopic`. */
    method CompactPartition(i: nat) returns (compacted: int)
      requires Valid() && i < |partitions|
      modifies partitions[i]
      ensures Valid()
      ensures View() == old(View()).(parts := old(View()).parts[i := PartitionSpec.Compact(old(View()).parts[i]).0])
      ensures compacted == PartitionSpec.Compact(old(View()).parts[i]).1
    {
      compacted := partitions[i].Compact();
      assert View().parts == old(View()).parts[i := partitions[i].View()];
    }
  }

  ghost predicate Placed(p: Partition, name: Bytes, i: nat) {
    p.home == name && p.index == i && p.id == Spec.PartitionId(name, i)
  }

  method NewPartitions(name: Bytes, n: nat, capacity: int) returns (parts: seq<Partition>)
    ensures |parts| == n && fresh(parts)
    ensures forall i :: 0 <= i < n ==> Placed(parts[i], name, i)
    ensures forall i :: 0 <= i < n ==> parts[i].Valid() && parts[i].View() == PartitionSpec.Empty(capacity)
  {
    parts := [];
    for i := 0 to n
      invariant |parts| == i && fresh(parts)
      invariant forall j :: 0 <= j < i ==> Placed(parts[j], name, j)
      invariant forall j :: 0 <= j < i ==>
        parts[j].Valid() && parts[j].View() == PartitionSpec.Empty(capacity)
    {
      var part := new Partition(Spec.PartitionId(name, i), capacity, name, i);
      parts := parts + [part];
    }
  }
}
