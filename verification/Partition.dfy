/** mq/internal/partition.go: the partition object, every method proved against
    PartitionSpec. Each method is one atomic step; Interleaving.dfy splits them. */
module Partitions {
  import opened Types
  import Spec = PartitionSpec

  class Partition {
    var messages: seq<Message>
    const maxMessage: int
    var offsets: map<Bytes, int>
    const id: Bytes

    ghost var log: seq<Message>
    ghost var base: nat

    /** The topic and index this object was made for, so that distinct places are
        distinct objects. */
    ghost const home: Bytes
    ghost const index: nat

    ghost function View(): Spec.State
      reads this
    {
      Spec.State(messages, maxMessage, offsets, log, base)
    }

    ghost predicate Valid()
      reads this
    {
      Spec.Consistent(View())
    }

    constructor (id: Bytes, capacity: int, ghost home: Bytes, ghost index: nat)
      ensures Valid() && View() == Spec.Empty(capacity) && this.id == id
      ensures this.home == home && this.index == index
    {
      this.id, this.home, this.index := id, home, index;
      messages, maxMessage, offsets := [], capacity, map[];
      log, base := [], 0;
    }

    method Append(msg: Message) returns (r: Result<int>)
      requires Valid()
      modifies this
      ensures Valid()
      ensures (View(), r) == Spec.Append(old(View()), msg)
    {
      if maxMessage > 0 && |messages| >= maxMessage {
        return Err(PartitionFull);
      }
      var offset := |messages|;
      messages := messages + [msg];
      log := log + [msg];
      return Ok(offset);
    }

    method TailOffset() returns (tail: int)
      ensures tail == |View().live|
    {
      tail := |messages|;
    }

    method Get(offset: int) returns (r: Result<Message>)
      ensures 0 <= offset < |View().live| ==> r == Ok(View().live[offset])
      ensures !(0 <= offset < |View().live|) ==> r == Err(OffsetOutOfRange)
    {
      if offset < 0 || offset >= |messages| {
        return Err(OffsetOutOfRange);
      }
      return Ok(messages[offset]);
    }

    method ReadFrom(offset: int, max: int) returns (r: Result<seq<Message>>)
      ensures r == Spec.ReadFrom(View(), offset, max)
    {
      var tail := |messages|;
      if offset < 0 {
        return Err(OffsetOutOfRange);
      }
      if offset > tail {
        return Err(OffsetOutOfRange);
      }
      if offset == tail {
        return Ok([]);
      }
      var start := offset;
      var end := |messages|;
      if max > 0 {
        var candidate := Wrap64(start + max);
        if candidate < end {
          end := candidate;
        }
      }
      if end < start {
        // the copy's length wraps back to max, which `make` refuses
        return Err(Panicked);
      }
      return Ok(messages[start..end]);
    }

    method Commit(consumer: Bytes, offset: int) returns (r: Result<()>)
      requires Valid()
      modifies this
      ensures Valid()
      ensures (View(), r) == Spec.Commit(old(View()), consumer, offset)
    {
      if consumer == [] {
        return Err(EmptyGroup);
      }
      var tail := |messages|;
      if offset < 0 {
        return Err(CommitTooLarge);
      }
      if offset > tail {
        return Err(CommitTooLarge);
      }
      offsets := offsets[consumer := offset];
      return Ok(());
    }

    method Offset(consumer: Bytes) returns (offset: int)
      ensures offset == Spec.Offset(View(), consumer)
    {
      if consumer in offsets {
        return offsets[consumer];
      }
      return 0;
    }

    /** The scan shared by `GetMinConsumerOffset` and `Compact`: -1 when no group exists. */
    method ScanOffsets() returns (minOffset: int)
      requires Valid()
      ensures minOffset == if offsets == map[] then -1 else Spec.Watermark(offsets)
    {
      minOffset := -1;
      var seen := {};
      var rest := offsets.Keys;
      while rest != {}
        invariant seen + rest == offsets.Keys && seen !! rest
        invariant seen == {} ==> minOffset == -1
        invariant seen != {} ==> exists g :: g in seen && offsets[g] == minOffset
        invariant forall g :: g in seen ==> minOffset <= offsets[g]
        decreases rest
      {
        var key :| key in rest;
        var offset := offsets[key];
        if minOffset == -1 || offset < minOffset {
          minOffset := offset;
        }
        seen, rest := seen + {key}, rest - {key};
      }
      assert seen == offsets.Keys;
      assert offsets != map[] ==> Spec.IsLeast(offsets, minOffset);
    }

    method GetMinConsumerOffset() returns (minOffset: int)
      requires Valid()
      ensures minOffset == Spec.Watermark(offsets)
    {
      minOffset := ScanOffsets();
      if minOffset == -1 {
        return 0;
      }
    }

    method Compact() returns (compacted: int)
      requires Valid()
      modifies this
      ensures Valid()
      ensures (View(), compacted) == Spec.Compact(old(View()))
    {
      ghost var before := View();
      if |messages| == 0 {
        assert (View(), 0) == Spec.Compact(before) by { ZeroCut(before); }
        return 0;
      }
      var minOffset := ScanOffsets();
      if minOffset == -1 || minOffset <= 0 {
        assert (View(), 0) == Spec.Compact(before) by { ZeroCut(before); }
        return 0;
      }
      if minOffset > |messages| {
        minOffset := |messages|;
      }
      if minOffset == 0 {
        return 0;
      }
      messages := messages[minOffset..];
      base := base + minOffset;
      AdjustOffsets(minOffset);
      assert offsets == Spec.Compact(before).0.offsets;
      return minOffset;
    }

    /** The second `Range` of `Compact`: every counter moves down by the cut, not below 0. */
    method AdjustOffsets(cut: int)
      modifies this`offsets
      ensures offsets.Keys == old(offsets).Keys
      ensures forall g :: g in offsets ==>
        offsets[g] == if old(offsets)[g] < cut then 0 else old(offsets)[g] - cut
    {
      var rest := offsets.Keys;
      while rest != {}
        invariant rest <= offsets.Keys == old(offsets).Keys
        invariant forall g :: g in rest ==> offsets[g] == old(offsets)[g]
        invariant forall g :: g in offsets && g !in rest ==>
          offsets[g] == if old(offsets)[g] < cut then 0 else old(offsets)[g] - cut
        decreases rest
      {
        var key :| key in rest;
        var newOffset := offsets[key] - cut;
        if newOffset < 0 {
          newOffset := 0;
        }
        offsets := offsets[key := newOffset];
        rest := rest - {key};
      }
    }
  }

  lemma ZeroCut(s: Spec.State)
    requires Spec.Consistent(s) && Spec.Cut(s) == 0
    ensures Spec.Compact(s) == (s, 0)
  {
    assert s.live[0..] == s.live;
    assert (map g | g in s.offsets :: s.offsets[g] - 0) == s.offsets;
  }
}
