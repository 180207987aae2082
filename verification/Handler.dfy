/** mq/api/handler.go: the offset arithmetic of `HandleConsume`, whose two reads of the queue are
    two steps, and the checks of `HandleAck`. */
module Handler {
  import opened Types
  import PartitionSpec
  import QueueSpec
  import opened Queues

  datatype MessageResponse = MessageResponse(offset: int, key: Bytes, payload: Bytes)

  datatype ConsumeResponse = ConsumeResponse(messages: seq<MessageResponse>, nextOffset: int)

  /** The response for messages read at `start`: consecutive offsets, then the one to ack. */
  function Respond(start: int, msgs: seq<Message>): ConsumeResponse {
    ConsumeResponse(
      seq(|msgs|, i requires 0 <= i < |msgs| => MessageResponse(start + i, msgs[i].key, msgs[i].payload)),
      start + |msgs|)
  }

  function Consumed(q: QueueSpec.Queue, topic: Bytes, group: Bytes, partition: int, batch: int): Result<ConsumeResponse> {
    match QueueSpec.Consume(q, topic, group, partition, batch)
    case Err(error) => Err(error)
    case Ok(msgs) => Ok(Respond(PartitionSpec.Offset(q[topic].parts[partition], group), msgs))
  }

  /** The second half of `HandleConsume`, on the queue as it is by then: the response for
      `msgs` starts at the offset the group has now, not at the one they were read from. */
  method Answer(q: Queue, topic: Bytes, group: Bytes, partition: int, msgs: seq<Message>) returns (r: ConsumeResponse)
    requires q.Valid() && QueueSpec.Addressed(q.View(), topic, partition)
    ensures r == Respond(PartitionSpec.Offset(q.View()[topic].parts[partition], group), msgs)
  {
    var startOffset := q.topics[topic].partitions[partition].Offset(group);
    var msgResp := [];
    for i := 0 to |msgs|
      invariant msgResp == Respond(startOffset, msgs).messages[..i]
    {
      msgResp := msgResp + [MessageResponse(startOffset + i, msgs[i].key, msgs[i].payload)];
    }
    assert msgResp == Respond(startOffset, msgs).messages;
    return ConsumeResponse(msgResp, startOffset + |msgs|);
  }

  /** Both halves with nothing in between. */
  method HandleConsume(q: Queue, topic: Bytes, group: Bytes, partition: int, batch: int)
    returns (r: Result<ConsumeResponse>)
    requires q.Valid()
    ensures r == Consumed(q.View(), topic, group, partition, batch)
  {
    if group == [] || batch <= 0 {
      return Err(InvalidArg);
    }
    var consumed := q.Consume(topic, group, partition, batch);
    if consumed.Err? {
      return Err(consumed.error);
    }
    var answer := Answer(q, topic, group, partition, consumed.value);
    return Ok(answer);
  }

  method HandleAck(q: Queue, topic: Bytes, group: Bytes, partition: int, offset: int) returns (r: Result<()>)
    requires q.Valid()
    modifies q.Repr()
    ensures q.Valid() && q.Repr() == old(q.Repr())
    ensures group == [] ==> r == Err(InvalidArg) && q.View() == old(q.View())
    ensures group != [] ==> (q.View(), r) == QueueSpec.Ack(old(q.View()), topic, group, partition, offset)
  {
    if group == [] {
      return Err(InvalidArg);
    }
    r := q.Ack(topic, group, partition, offset);
  }
}
