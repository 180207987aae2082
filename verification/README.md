# Message queue and collector: a verified model

This project models the in-memory message queue of the GPU telemetry pipeline and the collector
that drains it, and proves what the two are meant to guarantee: a partition log that renumbers
itself when it is compacted, consumer groups that read and acknowledge it without leases, routing
of keys to partitions, the compaction scheduler, and the collector's table with its first-wins
unique index. `dafny verify dfyconfig.toml` checks everything.

| file | part |
|---|---|
| Types.dfy | Go strings, messages, errors, 64-bit wrap-around |
| PartitionSpec.dfy, Partition.dfy | one partition as a value, and the object with its loops |
| Refinement.dfy | runs of one partition: refinement of the uncut log, conservation, drift, capacity |
| Interleaving.dfy | the steps between the locks of `Commit` and `Compact` |
| Fnv.dfy, Ring.dfy, Topic.dfy | FNV-1a, the hash ring, the modulo router, the topic object |
| Queue.dfy, QueueRuns.dfy, QueueLaws.dfy | the queue object; whole runs of it: per-key order, conservation; what each call answers and when it is accepted |
| Handler.dfy | the offset arithmetic of consume, in its two reads, and ack |
| Telemetry.dfy, Delivery.dfy, Fleet.dfy | the table, and the protocol of many collectors on one and on all partitions |
| Rows.dfy, AckSteps.dfy | the rows when any insert may be refused; acks whose check and store are two steps |
| Drain.dfy, Collector.dfy, CollectorRuns.dfy | one collector: progress, the poll loop, and its visits among the steps of others as a run of the protocol |
| Progress.dfy | the poll loop's progress: what each poll commits, when all is drained and stored |
| Pipeline.dfy | queue and collectors in one run: the table against the accepted publishes |
| Compactor.dfy, CompactorSteps.dfy | one scheduler pass, the scheduler's life cycle, and the steps of its calls outside the lock |
| ConsumerGroup.dfy | the second offset tracker and its agreement with the first |

Objects that the Go code updates in place are classes whose methods are proved equal to functions
on values (`View()`); the laws are lemmas about those functions and their runs. Every partition
value carries two history variables that no operation reads: `log`, all messages ever appended, and
`base`, how many of them compaction has removed. A group's absolute position is `base + offset`.

## Where the code falls short of its documentation

Each property below fails somewhere. Beside it stand the lemma that says exactly when it holds and
the lemma with an input on which it does not.

| expected | holds exactly when | fails on |
|---|---|---|
| messages are removed only once every consumer group has consumed them | the group has committed or nothing is cut (`CompactionMovesExactly`, over runs `UncommittedGroupStartsAtBase`) | `LateGroupMissesMessages` |
| a committed offset stays within the tail | no more is cut between a commit's check and its store than its slack plus the appends meanwhile (`StoreExceedsTailExactlyWhen`; for stores inside a compaction `DisturbedCompaction`) | `OffsetCanExceedTail` |
| compaction keeps every committed group in place | the group's counter was moved, and the further of the offset read for it and the cut is the last offset put there (`DisturbedCompaction`; if its stores land before the read, when that is not below the cut, `CommitsBeforeTheRead`) | `BackwardCommitIsCarriedForward`, `CommitIsOverwritten` |
| at least once: an ack names the end of its batch | nothing was removed between read and ack (`LateAckDrift`) | `LateAckSkipsMessages` |
| at least once: an answer names the end of its batch | between the two reads of a consume the group's last commit put it back where it stood or, without one, it had committed before or nothing was cut (`AnswerNamesTheEndExactlyWhen`) | `LateAnswerSkipsMessages` |
| at least once: what is acked has a row | the key had one at the start, or not every insert that carried it was refused (`CommittedRowIsMissingExactlyWhen`) | `RefusedRecordIsLost` |
| the table is the first-wins fold of what was processed | each refused insert is of a redundant message (`RefusedInsertKeepsFoldExactly`) | `RefusedRecordIsLost` |
| compactions do not show to clients | no publish finds the partition full, no ack falls below the base, and no group polls or commits for the first time after a cut, unless both refuse (`SweepsAreInvisible`) | `BackwardAckShowsTheSweep`, `LatePollShowsTheSweep` |
| adding partitions moves keys only to new ones | ring topics always (`RingGrowth`); modulo topics, which the queue creates, when the old count divides the new (`ModuloGrowsLikeARingOnlyByMultiples`) | `ModuloGrowthMovesOldKeys` |
| a running scheduler's loop is alive | the interval is positive and no stop took effect since the last enabling update (`LoopIsAliveExactlyWhen`) | `RestartRunsOnClosedChannel`, `ZeroIntervalPanics` |
| stopping twice is safe | the channel is not closed between an update's swap and its reset (`ClosableAgainExactlyWhen`) | `StopDuringUpdateClosesTwice` |
| a read never fails inside the slice | offset plus batch fits in 64 bits, or nothing is left (`ReadIsWindow`) | `LargestBatchPanics` |
| the scheduler compacts only above the message threshold | no watermark exceeds half of it (`CompactsBelowThresholdExactly`) | `CompactsThreeBelowFour` |

## Model

| member | source | states |
|---|---|---|
| PartitionSpec.ReadIsWindow | mq/internal/partition.go:106-149 | a read returns up to `max` messages from the offset exactly when `offset + max` fits in 64 bits or nothing is left, and panics otherwise |
| PartitionSpec.ReadIsRefusedOutside | mq/internal/partition.go:116-124 | a read is refused as out of range exactly below 0 and above the tail |
| PartitionSpec.LargestBatchPanics | mq/internal/partition.go:131-148 | reading the second of two messages with the largest batch panics |
| PartitionSpec.ReadOfLog | mq/internal/partition.go:109-149 | a read at a relative offset is a window of the uncut log at base + offset |
| PartitionSpec.Watermark | mq/internal/partition.go:204-224 | the least committed offset, 0 without groups |
| Partitions.Partition.Append | mq/internal/partition.go:67-80 | refused exactly when a positive capacity is reached, else the message goes to the end at the reported offset |
| Partitions.Partition.Get | mq/internal/partition.go:97-104 | the message at an offset inside the live slice, an error elsewhere |
| Partitions.Partition.ReadFrom | mq/internal/partition.go:109-149 | the branches of the read, with the 64-bit end computation |
| Partitions.Partition.Commit | mq/internal/partition.go:154-194 | accepted exactly for a named group and an offset from 0 to the tail; changes that group only |
| Partitions.Partition.Offset | mq/internal/partition.go:197-202 | the committed offset, 0 if there is none |
| Partitions.Partition.ScanOffsets | mq/internal/partition.go:240-248 | the scan, in any order, ends with the least offset or -1 |
| Partitions.Partition.GetMinConsumerOffset | mq/internal/partition.go:207-224 | the watermark |
| Partitions.Partition.AdjustOffsets | mq/internal/partition.go:274-283 | every counter moves down by the cut and not below 0, whatever the order |
| Partitions.Partition.Compact | mq/internal/partition.go:230-289 | cuts the watermark's prefix, moves every offset by the cut and reports it |
| Refinement.RunKeeps | mq/internal/partition.go:67-289 | over any run offsets stay within the tail, the log only grows, the base never decreases, no group is forgotten |
| Refinement.RunConserves | mq/internal/partition.go:67-289 | over any run the log is extended by exactly the accepted appends, and the base by the sum of reported removals |
| Refinement.AppendedIsRemovedPlusLive | mq/internal/partition.go:230-289 | appended = removed + live, and the live messages are the last accepted ones in order |
| Refinement.CompactionExact | mq/internal/partition.go:226-289 | compaction moves no committed group, leaves the slowest group's lag live, sets the watermark to 0, and a second one does nothing |
| Refinement.RemovedWasConsumed | mq/internal/partition.go:226-289 | in any run each removed message went in a compaction before which every committed group stood above it |
| Refinement.NeverBelowBase | mq/internal/partition.go:230-289 | in any run no committed group stands below the removed prefix or above the log |
| Refinement.CompactionMovesExactly | mq/internal/partition.go:226-289 | a compaction moves a group exactly when the group has not committed and something is cut, and then past exactly what is cut |
| Refinement.UncommittedGroupStartsAtBase | mq/internal/partition.go:242-253 | over any run, a group that has not committed by its end has been moved, past exactly the removed messages, if and only if some compaction cut something; it reads from the base |
| Refinement.LateGroupMissesMessages | mq/internal/partition.go:226-289 | append, commit by one group, compact: another group is handed nothing of the one message |
| Refinement.PlaceOfGroup | mq/internal/partition.go:154-289 | any run leaves a group where its last accepted commit put it; without one it stands still if it had committed, else it is moved past what was removed |
| Refinement.GroupStandsExactlyWhen | mq/internal/partition.go:154-289 | exactly which commits and cuts of a run move a group |
| Refinement.MirrorStepRefines | mq/internal/partition.go:67-289 | each step keeps the relation to a log that is cut less |
| Refinement.MirrorRefines | mq/internal/partition.go:67-289 | so does each run |
| Refinement.RefinesAnswers | mq/internal/partition.go:109-194 | related logs give the same reads and the same answers to commits of one absolute position; below the base the cut log refuses |
| Refinement.CompactedLogRefinesUncutLog | mq/internal/partition.go:67-289 | for every run of appends, commits and compactions and every committed group, the compacting partition answers as one that never compacts |
| Refinement.SweepsAreInvisible | mq/internal/partition.go:67-289 | for publishes, polls and acks in either direction by any groups, first commits included, on a partition of any capacity: deleting all compactions and lifting the capacity changes no answer, positions included, exactly when every call is answerable by then (`Answerable`); batch sizes that could overflow are excluded |
| Refinement.BackwardAckShowsTheSweep | mq/internal/partition.go:154-283 | an ack one message back is accepted before a compaction and refused after it |
| Refinement.LatePollShowsTheSweep | mq/internal/partition.go:197-289 | a poll by a group that has not committed is answered differently after a compaction |
| Refinement.ForwardCallsAreAnswerable | mq/internal/partition.go:67-289 | on an unbounded partition (`capacity <= 0`) every call is answerable if only committed groups poll and ack, and only forward |
| Refinement.StaysWithinCapacity | mq/internal/partition.go:67-80 | no reachable state exceeds a positive capacity |
| Refinement.AppendsFillTheRoom | mq/internal/partition.go:67-80 | appends are accepted exactly up to the free room |
| Refinement.CompactionRegainsRoom | mq/internal/partition.go:226-289 | compacting a full partition that removes k messages frees exactly k appends |
| Refinement.LateAckDrift | mq/internal/partition.go:154-283 | an ack overtaken by compactions removing k is refused above the tail and else lands k past the batch: right exactly when k = 0 |
| Refinement.LateAckSkipsMessages | mq/internal/partition.go:154-283 | an accepted ack of 2 after one message was removed lands past a third message that was never handed out |
| Interleaving.StepIsSafe | mq/internal/partition.go:161-283 | each small step keeps offsets non-negative and makes valid cuts |
| Interleaving.RunIsSafe | mq/internal/partition.go:161-283 | over every interleaving of commits with the inside of a compaction, no offset is negative and every cut is a valid slice bound |
| Interleaving.TailBoundsOffsets | mq/internal/partition.go:161-191 | a sufficient condition over runs: no cut while a checked commit waits |
| Interleaving.LengthIsConserved | mq/internal/partition.go:67-289 | over every interleaving, slice plus base grows by exactly the appends |
| Interleaving.StoreExceedsTailExactlyWhen | mq/internal/partition.go:161-191 | a commit stored after any other steps exceeds the tail exactly when more was cut meanwhile than its slack plus the appends, and means its old place exactly when nothing was cut |
| Interleaving.DisturbedCompaction | mq/internal/partition.go:230-289 | a compaction with stores landing anywhere in it, first commits included: where each group ends, exactly when that is where it was last put, exactly when it is above the tail |
| Interleaving.UndisturbedGroupKeepsPlace | mq/internal/partition.go:230-289 | a group none of whose stores lands during a compaction keeps its place whatever the others do |
| Interleaving.CommitsBeforeTheRead | mq/internal/partition.go:274-283 | if its stores land before its counter is read, a group ends at the last one or at the cut, whichever is further |
| Interleaving.BackwardCommitIsCarriedForward | mq/internal/partition.go:240-283 | a backward commit landing after the scan is carried forward over two messages |
| Interleaving.CommitIsOverwritten | mq/internal/partition.go:274-283 | an accepted commit landing between load and store of its counter is lost |
| Interleaving.OffsetCanExceedTail | mq/internal/partition.go:161-191 | a run in which a stored offset exceeds the tail |
| Interleaving.ScanReachesWatermark | mq/internal/partition.go:240-248 | the undisturbed scan, in any order, ends with the watermark |
| Interleaving.UndisturbedStepsAreCompact | mq/internal/partition.go:230-289 | undisturbed, the small steps of a compaction that cuts end where the atomic one does, whatever the two orders |
| Interleaving.UndisturbedIdleCompaction | mq/internal/partition.go:230-258 | with nothing to cut, they end from the scan and neither changes anything |
| Interleaving.UndisturbedCommitIsAtomic | mq/internal/partition.go:154-194 | the check admits exactly what the atomic commit accepts, and check and store undisturbed do what it does |
| Fnv.Fnv32 | mq/internal/queue.go:232-239 | the loop computes the FNV-1a fold |
| Fnv.HashOfA | mq/internal/queue.go:232-239 | the published FNV-1a value of "a" |
| Fnv.XorUndoesItself | mq/internal/queue.go:235 | xor with the same byte twice is the identity |
| Fnv.RoundIsBijective | mq/internal/queue.go:235-236 | for each byte a round is a bijection on 32-bit states, with its inverse |
| Fnv.RoundSeparatesBytes | mq/internal/queue.go:235-236 | for each state distinct bytes give distinct states |
| Fnv.FoldIsInjective | mq/internal/queue.go:232-239 | a common tail never merges two states |
| Fnv.OneByteNeverCollides | mq/internal/queue.go:232-239 | equally long keys that differ in one byte have different hashes |
| Fnv.ReplicasAreDistinct | mq/internal/topic.go:46-54 | replicas of a partition whose numbers differ in the last digit, so all of up to ten, have different ring points |
| Fnv.DecimalDenotes | mq/internal/topic.go:40-50 | the digits in ring keys and partition ids are decimal, denote the number and have no leading zero |
| Fnv.ReplicaKeyIsSpelled | mq/internal/topic.go:46-54 | replica 12 of partition 3 of topic "t" has the key "t-3-12" |
| Ring.OwnerIsUnique | mq/internal/topic.go:64-77 | the linear specification has one owner for each key |
| Ring.OwnerExists | mq/internal/topic.go:64-77 | and at least one |
| Ring.SuccessorIsLeastAtOrAbove | mq/internal/topic.go:69-76 | the point a key finds is the least at or above its hash, and the least of all if there is none |
| Ring.SharedPointGoesToTheLast | mq/internal/topic.go:46-54 | a key on a ring point belongs to the last partition that produced the point |
| Ring.Build | mq/internal/topic.go:43-58 | the nested loops and the sort store exactly the ring points, each owned by the highest partition that produced it |
| Ring.Sort | mq/internal/topic.go:56-58 | a sorted permutation |
| Ring.Search | mq/internal/topic.go:70-72 | binary search finds the first hash at or above the key's |
| Ring.Lookup | mq/internal/topic.go:64-77 | the lookup returns the holder of the first ring point clockwise from the key, wrapping around |
| Ring.GrowthMovesKeysOnlyToNewPartitions | mq/internal/topic.go:43-77 | for any hash, with collisions and wrap-around, more partitions leave a key in place or move it to a new one |
| Ring.ModuloGrowsLikeARingOnlyByMultiples | mq/internal/queue.go:56-62 | the modulo router does that for all hashes exactly when the old count divides the new |
| TopicSpec.RingGrowth | mq/internal/topic.go:9-77 | the growth law for keys of ring topics |
| TopicSpec.ModuloRouteIsTheRemainder | mq/internal/queue.go:56-62 | the modulo router gives the one partition below the count that is congruent to the key's hash |
| TopicSpec.ModuloGrowth | mq/internal/queue.go:56-62 | exactly which keys of a modulo topic stay or move to a new partition when it grows, and all of them if the old count divides the new |
| TopicSpec.EmptyKeysGoToZero | mq/internal/queue.go:56-59 | either router sends the empty key to partition 0 |
| TopicSpec.ModuloGrowthMovesOldKeys | mq/internal/queue.go:56-62 | the key "a" moves from partition 0 to old partition 1 when two become three |
| TopicSpec.PartitionIdNamesTheIndex | mq/internal/topic.go:40 | an id is the topic's name, a dash and digits that denote the index |
| TopicSpec.RingPointsHashTheReplicas | mq/internal/topic.go:46-54 | replica r of a partition sits at the hash of the partition's id, a dash and r |
| TopicSpec.PartitionIdsAreDistinct | mq/internal/topic.go:40 | partition ids of one topic are distinct |
| Topics.Topic.WithReplicas | mq/internal/topic.go:23-80 | defaults for non-positive arguments, empty partitions, and the ring for exactly these partitions |
| Topics.Topic.WithModulo | mq/internal/queue.go:47-62 | empty partitions of the given capacity and the modulo router |
| Topics.Topic.Partitioner | mq/internal/topic.go:64-77 | both routers compute the specified owner; empty keys go to 0 |
| Topics.Topic.Produce | mq/internal/topic.go:93-106 | appends to the key's partition and to no other; the error cases change nothing |
| Queues.Queue.CreateTopic | mq/internal/queue.go:35-67 | adds a fresh modulo topic with the default capacity for 0, or refuses and changes nothing |
| Queues.Queue.Publish | mq/internal/queue.go:80-101 | one append in the named topic, every other topic as it was |
| Queues.Queue.Consume | mq/internal/queue.go:104-138 | the order of the checks and the read at the group's offset |
| Queues.Queue.Ack | mq/internal/queue.go:141-165 | one commit in the addressed partition, everything else as it was |
| Queues.Queue.ListTopics | mq/internal/queue.go:168-174 | each topic name once, in some order |
| Queues.Queue.CompactTopic | mq/internal/queue.go:179-200 | every partition of the topic compacted, one count under each partition id |
| Queues.Queue.GetPartitionStats | mq/internal/queue.go:204-229 | counts, tail and watermark of the addressed partition |
| Queues.CompactPartitions | mq/internal/queue.go:187-198 | the loop over partitions and its report |
| QueueRuns.RunKeepsInv | mq/internal/queue.go:35-200 | in every run each partition's log is what its topic accepted for it, in order, and every offset is within its tail |
| QueueRuns.KeyOrder | mq/internal/queue.go:80-101 | after any run, the routed partition holds a key's accepted publishes in order and no other partition holds any |
| QueueRuns.NothingLostOrInvented | mq/internal/queue.go:80-200 | after any run with any compactions, removed and live messages together are exactly the accepted publishes |
| QueueRuns.PublishIsReadable | mq/internal/queue.go:80-101 | an accepted publish is live at the partition and offset it reports; a refused one changes nothing |
| QueueLaws.PublishIsAcceptedExactlyWhen | mq/internal/topic.go:93-106 | a publish is accepted exactly when its key is not empty, the topic exists and the partition the key routes to is unbounded or below its capacity; then that partition alone grows by it, else the error names the reason |
| QueueLaws.AcceptedAreTheAdmitted | mq/internal/queue.go:80-101 | over any run, what a topic has accepted is exactly the sends that found room when their turn came |
| QueueLaws.CreateTopicMakes | mq/internal/queue.go:35-67 | when a topic is made; its partitions are as many as asked for, empty, with the capacity asked for or the default for 0; no other topic changes |
| QueueLaws.NoTopicWithoutPartitions | mq/internal/queue.go:36-41 | a count of 0 or less is refused |
| QueueLaws.CreatedTopicRoutesByHash | mq/internal/queue.go:56-62 | a created topic routes each key to the partition congruent to its hash |
| QueueLaws.ConsumeReadsFromThePosition | mq/internal/queue.go:104-138 | a consume hands out the window of the uncut log from the group's position; which refusal comes when |
| QueueLaws.AckMovesOneGroup | mq/internal/queue.go:141-165 | when an ack is accepted, which refusal comes when, and that it moves one group in one partition and nothing else anywhere |
| QueueLaws.CompactTopicCutsEachPartition | mq/internal/queue.go:179-200 | every partition of the topic loses exactly its watermark and its committed groups keep their places; no other topic changes |
| QueueLaws.StatsForetell | mq/internal/queue.go:204-229 | the statistics are the offset of the next append, the messages not removed, the least committed offset, and what a compaction removes |
| QueueLaws.ResponseNamesOffsets | mq/api/handler.go:223-242 | message i of a response is the live message at the offset it carries, and next is one past the last |
| Handler.Answer | mq/api/handler.go:223-252 | the second half of a consume, on the queue as it is by then: offsets and next counted from the group's offset now |
| Handler.HandleConsume | mq/api/handler.go:174-253 | both halves with nothing in between: consecutive offsets from the group's offset, and next = start + length |
| Handler.HandleAck | mq/api/handler.go:279-299 | refuses an empty group, otherwise the queue's ack |
| Telemetry.StoreAllIsFirstWins | collector/internal/store.go:89-114 | a key has a row exactly when it had one or some valid record carries it, and the row is the first one's |
| Telemetry.SamplesShareARowExactlyWhen | collector/internal/store.go:89-140 | two valid records get one row between them exactly when GPU and instant both agree, and then the first one's data |
| Telemetry.StoreIsIdempotent | collector/internal/store.go:108-109 | storing a message of the fold again changes nothing |
| Telemetry.StoreAcceptedRows | collector/internal/collector.go:70-83 | with any inserts refused, a key has a row exactly when it had one or some message not refused carries it |
| Telemetry.StoreChangesNothingExactly | collector/internal/store.go:89-114 | storing leaves the table alone exactly when the message carries no valid record or its key has a row |
| Telemetry.HarmlessRefusalsDoNotShow | collector/internal/collector.go:79-83 | refusals of redundant messages leave the fold of the whole batch |
| Delivery.StoringExtendsTheFold | collector/internal/collector.go:70-83 | an insert repeats the processed prefix or extends it by its next message |
| Delivery.StepKeepsSound | mq/internal/queue.go:104-165 | every permitted step keeps flights, acks and the processed prefix consistent |
| Delivery.TableIsFoldOfProcessedPrefix | collector/internal/collector.go:57-90 | however many collectors interleave, fail or ack backward, the table is the first-wins fold of a prefix reaching to the committed position, and every message below it was handed out |
| Delivery.CommittedRecordsAreStored | collector/internal/collector.go:57-90 | every valid record below the committed position has a row |
| Delivery.DrainedTableIsDetermined | collector/internal/collector.go:57-90 | at the tail the table is the fold of the whole log, for any interleaving |
| Delivery.AnswerDrift | mq/api/handler.go:223-242 | an answer names the end of its batch shifted by the group's move between the two reads: right exactly when it did not move |
| Delivery.AnswerNamesTheEndExactlyWhen | mq/api/handler.go:223-242 | over any appends, commits and compactions between the two reads, exactly when the answer still names the end of its batch |
| Delivery.RefusedInsertKeepsFoldExactly | collector/internal/collector.go:79-83 | a refused insert keeps the table the fold of the processed prefix exactly when the message is redundant |
| Delivery.AckPassesRefusedInsert | collector/internal/collector.go:79-88 | for the last message of a batch, refused and acked at once: the group has passed it, and its record has a row exactly when the message was redundant |
| Rows.RowsAreWhatLanded | collector/internal/collector.go:70-88 | for any state and any events, whatever is refused: a key has a row exactly when it had one or an accepted insert carried it, and the row is the first one's |
| Rows.EveryProcessedMessageWasTried | collector/internal/collector.go:70-88 | an insert was tried of every message in the processed prefix |
| Rows.CommittedRowIsMissingExactlyWhen | collector/internal/collector.go:57-90 | whatever is refused: each record the group has passed was tried, and lacks a row exactly when its key had none at the start and every insert carrying it was refused |
| Delivery.RefusedRecordIsLost | collector/internal/collector.go:70-88 | a run of one collector after which the group has passed a message whose record has no row |
| Delivery.LateAnswerSkipsMessages | mq/api/handler.go:223-242 | a run of two collectors in which the group passes a message never handed out, and a record only it carries has no row |
| AckSteps.SplitAcksAreAtomic | mq/internal/partition.go:154-194 | with the tail check and the store of each ack as two steps, every legal run is one with whole acks at the moment of their stores, lost stores as acks never sent |
| AckSteps.SplitAcksAreAccounted | collector/internal/collector.go:57-90 | so the table is accounted for with split acks too |
| Fleet.StoreTouchesOnlyItsPartition | collector/internal/store.go:89-114 | storing a message touches only rows routed to its partition |
| Fleet.StepProjects | collector/internal/collector.go:57-90 | a step of one partition is a protocol step of its projection and none of any other |
| Fleet.FleetTableIsFoldOfEachPartition | collector/internal/collector.go:57-90 | over all partitions, the rows of each are the fold of that partition's processed prefix |
| Fleet.QueueLogsAreHomed | streamer/internal/streamer.go:110-119 | with gpu_id as the message key, every log the queue reaches satisfies that result's hypothesis |
| Pipeline.SystemRunIsFleetRun | mq/internal/queue.go:35-200 | every permitted run of publishes to any topic, topic creations, compactions, acks of other groups and collector steps is, seen from the collectors, a legal run of the fleet on the queue's own partitions |
| Pipeline.OnlyOfStoreAll | collector/internal/store.go:89-114 | the rows of a partition in the fold of all publishes are the fold of the publishes routed to it |
| Pipeline.DrainedTableIsFoldOfPublishes | streamer/internal/streamer.go:110-119 | end to end from an empty queue: once every partition is drained, the table is the first-wins fold of the accepted publishes in the order of acceptance, whatever the partition count, the collectors, their interleaving and the permitted compactions |
| Pipeline.DrainedRowIsFirstPublish | collector/internal/store.go:89-114 | then a (gpu, instant) has a row exactly when an accepted publish carries it, and it is the first one's |
| Drain.ReceivesEachMessageOnceInOrder | collector/internal/collector.go:57-90 | one collector with appends anywhere and compactions between rounds receives exactly the log from start to committed position |
| Drain.RoundsAdvance | mq/internal/queue.go:104-165 | k rounds of b advance by k * b or to the tail |
| Drain.DrainsInCeilingManyRounds | mq/internal/queue.go:104-165 | n messages are drained after k rounds exactly when k is at least n / b rounded up |
| Collectors.Store.Insert | collector/internal/store.go:89-114 | an error exactly for an empty GPU, an empty or unparseable timestamp, or a refusal by the database; else a row under GPU and instant unless there is one |
| Collectors.Collector.Process | collector/internal/collector.go:70-83 | the message loop stores the batch in order and skips what does not parse, does not validate or is refused |
| Collectors.Collector.Visit | collector/internal/collector.go:58-90 | one partition of one poll on the queue and store objects, with lost requests and refused inserts |
| Collectors.Collector.Run | collector/internal/collector.go:47-95 | any number of polls over all partitions |
| CollectorSpec.InsertsStoreTheBatch | collector/internal/collector.go:70-83 | inserting a flight message by message stores its batch but for what is refused |
| CollectorSpec.VisitIsAProtocolRun | collector/internal/collector.go:57-90 | what the loop does to a partition is the protocol run read, answer, insert each, ack, lost acks and refusals included |
| CollectorRuns.InterleavedVisitsAreAccounted | collector/internal/collector.go:47-95 | one collector's visits with any permitted steps of producers, compactor, other groups and other collectors between them: the rows of each partition are the first-wins fold of a prefix of its log reaching to the committed position |
| CollectorRuns.PollsAreAccounted | collector/internal/collector.go:47-95 | the same after any number of polls of a loop left to itself, whatever requests are lost and redundant inserts refused |
| Progress.PollServes | collector/internal/collector.go:57-90 | one poll commits in each partition whose requests arrive exactly the end of the batch that waited there, and changes nothing else in the queue |
| Progress.VisitRows | collector/internal/collector.go:58-83 | after one visit a key has a row exactly when it had one or the visit read a message carrying it whose insert was not refused |
| Progress.PollsAdvance | collector/internal/collector.go:47-95 | over any polls, whatever is lost, a group advances by one batch for each poll heard at the partition, or to the tail |
| Progress.PollsDrainExactlyWhen | collector/internal/collector.go:47-95 | a partition is drained exactly when the polls heard there are at least the waiting messages over the batch size, rounded up |
| Progress.NothingLost | collector/internal/collector.go:47-95 | with nothing lost that is the number of polls |
| Progress.PollsStoreEverything | collector/internal/collector.go:47-95 | and once drained the rows of each partition are the first-wins fold of all that lay in it, redundant refusals aside |
| Progress.LoneCollectorStoresAllPublishes | collector/internal/collector.go:47-95 | from a queue reached by any run, enough polls of one collector leave in the table exactly the first-wins fold of the accepted publishes |
| CompactorSpec.PassSettles | mq/internal/compactor.go:154-218 | after a pass every watermark is at most half the threshold, and a partition still over it holds nothing removable |
| CompactorSpec.PassKeepsPositions | mq/internal/compactor.go:154-175 | a pass moves no committed group |
| CompactorSpec.PassIsIdempotent | mq/internal/compactor.go:154-218 | a second pass changes nothing |
| CompactorSpec.PassRemovesExactly | mq/internal/compactor.go:154-218 | the pass in plain arithmetic: each partition loses exactly its watermark or nothing, and exactly when it loses it |
| CompactorSpec.CompactsBelowThresholdExactly | mq/internal/compactor.go:178-218 | for any threshold, negative included: a topic with no partition above it is compacted exactly when some watermark exceeds half of it, and such a partition loses its watermark |
| CompactorSpec.CompactsThreeBelowFour | mq/internal/compactor.go:178-218 | threshold 4, three consumed messages: all three go |
| CompactorSpec.LifeIsWellKept | mq/internal/compactor.go:58-121 | over any life no done channel is closed twice, the flag has fired exactly when the current one is closed, and running implies enabled |
| CompactorSpec.RunningExactlyWhen | mq/internal/compactor.go:58-121 | after any life the scheduler runs exactly when the last call was not a stop, there was one, and the last configuration is enabled |
| CompactorSpec.TickPassesExactlyWhen | mq/internal/compactor.go:140-147 | a tick makes the pass with the last threshold exactly then, and else changes nothing |
| CompactorSpec.RunsOnOpenChannel | mq/internal/compactor.go:58-121 | the done channel is open exactly when no stop took effect since creation or the last enabling update |
| CompactorSpec.LoopIsAliveExactlyWhen | mq/internal/compactor.go:132-151 | after any life a loop entered then goes on exactly when the last interval set is positive and no stop took effect since the last enabling update |
| CompactorSpec.ZeroIntervalPanics | mq/internal/compactor.go:58-74 | a scheduler started with interval 0 says that it runs and its loop panics |
| CompactorSpec.RestartRunsOnClosedChannel | mq/internal/compactor.go:58-90 | start, stop, start leaves a running scheduler with a closed channel |
| CompactorSteps.NoChannelIsClosedTwice | mq/internal/compactor.go:58-121 | over every interleaving of starts, stops and updates in which no close falls between an update's swap and its reset, no channel is closed twice and running implies enabled |
| CompactorSteps.ClosableAgainExactlyWhen | mq/internal/compactor.go:77-121 | a channel just closed can be closed again by some continuation exactly when it was closed while a reset was due |
| CompactorSteps.StopDuringUpdateClosesTwice | mq/internal/compactor.go:77-121 | a run in which a stop races an update and the next stop closes the same channel again |
| CompactorSteps.UndisturbedCallsAreAtomic | mq/internal/compactor.go:58-121 | left alone, the steps of each call do what the atomic call does |
| Compactors.Compactor.Start | mq/internal/compactor.go:58-74 | runs only if enabled |
| Compactors.Compactor.Stop | mq/internal/compactor.go:77-90 | closes the channel at most once |
| Compactors.Compactor.UpdateConfig | mq/internal/compactor.go:100-121 | stops, replaces the configuration and restarts on a fresh channel if enabled |
| Compactors.Compactor.Tick | mq/internal/compactor.go:140-147 | the tick of the specification; not running or disabled, the queue stays as it was |
| Compactors.Compactor.CheckAndCompact | mq/internal/compactor.go:154-175 | the loop over the topics, in any order, is one pass |
| Compactors.Compactor.CheckTopicTriggers | mq/internal/compactor.go:178-218 | true exactly when some partition exceeds a threshold |
| GroupSpec.BothReadAlike | mq/internal/consumer_group.go:39-66 | agreeing trackers read the same batch and name the same next offset |
| GroupSpec.StrayCommitBlocksReading | mq/internal/consumer_group.go:39-87 | a commit takes any offset for a partition in range, and the next read is refused exactly when that lies outside the live messages |
| GroupSpec.TrackersAgree | mq/internal/consumer_group.go:39-97 | on every trace without compaction both trackers deliver the same batches and hold the same offsets |
| GroupSpec.TrackersAgreeFromTheStart | mq/internal/consumer_group.go:25-97 | a new tracker beside a group that has not committed: the same batches and offsets on every such trace |
| GroupSpec.CompactionSeparatesTrackers | mq/internal/partition.go:273-283 | a compaction separates them by what it removed |
| Groups.ConsumerGroup.Consume | mq/internal/consumer_group.go:39-66 | registers at 0 and reads from the group's own offset |
| Groups.ConsumerGroup.Commit | mq/internal/consumer_group.go:69-87 | checks the partition only and stores the offset |
| Groups.ConsumerGroup.Offset | mq/internal/consumer_group.go:90-97 | the stored offset, 0 if there is none |

## Left out

- HTTP, JSON and base64 on the wire, the client, routes, the API gateway, the streamer's CSV reader: plumbing or easy members.
- GORM, Postgres and migration: the table is a map; JSON decoding and RFC 3339 parsing are given functions.
- Interleaving.TailBoundsOffsets: a sufficient condition over runs; the exact conditions are those of StoreExceedsTailExactlyWhen and DisturbedCompaction.
- Delivery.AckPassesRefusedInsert: one refusal, the last of its batch; Rows.dfy has any refusals anywhere.
- Collectors.Collector.Visit: one step of the object; its parts among the steps of others are the events of Delivery.dfy.
- CollectorRuns.PollsAreAccounted: nobody else acts, and refused inserts that are not redundant are left to Rows.dfy.
- Collectors.Collector.Run: cancellation is a number of polls, and sleeping between polls is not modelled. Nobody acts inside its visits; between them others may (`InterleavedVisitsAreAccounted`), and inside a consume, a batch or an ack the steps are those of Delivery.dfy and Fleet.dfy.
- Handler.HandleConsume: the two halves with nothing in between; what happens between them is in Delivery.dfy. The default batch of 1 and the parsing of numbers are left out.
- Classes model atomic calls; the steps between locks are in Interleaving.dfy for one partition, where a store or an adjustment to a counter replaced by a concurrent first commit is lost.
- Compactors.Compactor.Stop: atomic in the class; its steps outside the lock are in CompactorSteps.dfy.
- Compactors.Compactor.UpdateConfig: atomic in the class; its steps outside the lock are in CompactorSteps.dfy, each unsynchronised access as one step and the once as one step.
- Tickers, goroutines and the number of live compaction loops, since two can be alive. `ThresholdBytes` is never read.
- Ring.Sort: `sort.Slice` is library code; any sorted permutation gives the same lookups.
- Queues.Queue.CreateTopic: 2^32 partitions or more, which the router's 32-bit conversion would truncate.
- `SetPartitioner`, a test hook; the partitioner closure is a `Router` value.
- The numbers returned beside an error (-1 or the partition index), log lines, and message headers.
- How evenly keys spread over partitions, which is statistical.
