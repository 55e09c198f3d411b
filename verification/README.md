# A verified model of the GPU telemetry queue

The GPU telemetry pipeline replays telemetry rows into a replicated, partitioned queue and
drains it with processors into a database. This project models the queue's protocols and
storage, and the two machines that feed and drain it, and proves what they guarantee.

- `Bytes`, `Codec`: the message codec with its exact read behaviour (`io.ReadFull` for
  lengths, a single short-read-tolerant `Read` for values).
- `SegmentLog`, `SegmentStore`: what a segment file means, and the file object with its
  append, search and recovery loops.
- `StoreModel`, `PartitionStore`: the partition store as a value and as an object.
- `PublishProtocol`: replicated publishing as a step machine over every interleaving;
  `Publishing`: one publish on its own; `ReplicationCoordinator`: fan-out and quorum.
- `CrashReplication`: the same machine with syncs and with crashes of any node;
  `CrashAvailability`: when it still accepts a publish, and which quorums are safe;
  `DurableLog`: one partition file over writes, syncs and cuts at any unsynced byte;
  `DurableReplication`: the protocol run on such files, which refines `CrashReplication`;
  `DurableAvailability`: what that machine can do, from every run of the protocol to the
  confirmation of a publish.
- `Consumers`, `ConsumerMachine`: consumer cursors as an object, and under any interleaving
  of pollers, ackers and publishers.
- `Processor`: consume, insert, acknowledge, alone and composed with the queue.
- `Placement`: replica assignment, leader lookup, forwarding and follower lists.
- `Replay`: the streamer's shards, sequence numbers, message IDs and backoff.
- `Arithmetic`: division with a variable divisor.

Runs are sequences of steps folded over a total step function; a step that is not enabled
changes nothing, so every statement over all step sequences covers every interleaving.
Critical sections under a lock are one step.

Results a reader of the code would not expect:

- Publishing to one partition concurrently is safe exactly for majority quorums
  (`ReplicationExactlyForMajorities`). With the deployed two followers and one required
  acknowledgement (deploy/helm/queue/values.yaml:20-22) two overlapping publishes can both
  succeed although no follower has the second record at the leader's offset, and one has it
  where the leader has the first (`MinorityMisplaces`); there only serialised publishing is
  safe (`SerialReplication`). Of a single run, the replication holds exactly when no publish
  appended after the leader's log had grown since it read its offset
  (`ReplicatedExactlyWithoutLateAppends`).
- Nothing resends a replicate request. A follower that stored a record whose publish failed
  is ahead until the leader passes it through other followers; then it is level again, with
  its differing entry, and counts towards quorums (`FailedFollowerRejoins`). One that refused
  or never got a request lags until another request for that offset, if one is under way,
  arrives. A partition goes on accepting publishes exactly while enough followers can still
  come level with the leader (`AcceptsExactlyWhileJoinable`); with crashes, which can cut what
  is not synced, exactly while enough can reach some length the leader can come up with
  (`AcceptsExactlyWhileAgreeable`). One failed publish can end that (`OneFailureCanWedge`), and
  so can one lost request and one failed publish (`LaggingCanWedge`), although
  docs/design.md:126 promises writes after a single follower failure.
- Recovery does not sync what it keeps, so a record that survives a crash unsynced may still
  go in the next one. Even so, and for every quorum and interleaving, a publish confirmed to
  its client stays in the leader's file at the offset its append returned
  (`DurableReplication.ConfirmedSurvives`). That it is also on the required followers there
  needs a majority quorum or serialised publishes (`ConfirmedIsDurable`), as without crashes
  (`SafeExactlyForMajorities`).
- A record with an empty payload is accepted by the store but ends the recoverable part of
  the file: it and everything after it is gone at the next restart (`AppendSurvives`). The
  publish handler lets no empty payload through (internal/queue/publish_handler.go:72).
- Acknowledgement is by message ID alone, so two groups that hold the same message at once
  leave one slot that can never be acknowledged; that subscription stops on that partition
  (`TwoGroupsOrphan`, `OrphanStuck`). For the same reason messages can be lost, exactly when
  two different ones share an ID (`NothingLostExactlyWithUniqueIDs`); two streamers make such
  a pair when clock readings and sequence numbers agree (`StreamIDsDistinct`).
- Overlapping polls of one group and partition can deliver any message twice
  (`OverlapCanRedeliver`). Delivery is in order and exactly once over a run if and only if no
  stale poller moves the cursor back over a message or delivers one from before it
  (`InOrderExactlyWithoutRewinds`). Even then no message is skipped (`NothingSkipped`).
- A record that cannot be read stops every subscription on its partition for good, whatever
  its topic: no cursor ever passes it (`UnreadableStops`).
- A zero byte inside a topic or group makes two subscriptions share a cursor, and then
  messages are skipped; nothing is skipped exactly for the others (`NothingSkippedExactly`).
- The backoff doubling overflows exactly when the configured cap exceeds half the int64
  range, which configuration validation allows (`NoOverflowExactly`); some sleep is then not
  even positive (`RetrySchedule`).

Assumptions: live writes and syncs do not fail (a crash may cut a file at any byte, or at any
unsynced byte where syncs are modelled); logs stay below 2^64 records and encoded messages
below 2^32 bytes where a lemma says so; all queue nodes work from one node list.

## Model

| member | source | states |
|---|---|---|
| Bytes.BigEndian32 | internal/queue/codec.go:66-72 | byte i of a written 32-bit length has weight 256^(3-i) |
| Codec.DecodeEncode | internal/queue/codec.go:9-102 | decoding an encoded message, whatever bytes follow, returns that message unless both payload and trailing bytes are empty, in which case it fails |
| Codec.DecodeTorn | internal/queue/codec.go:88-102 | an encoding cut at any byte decodes exactly when at least one payload byte is left, with the lost bytes as zeros: torn records are not rejected by the codec |
| Codec.EncodeInjective | internal/queue/codec.go:9-29 | distinct messages have distinct encodings |
| Codec.WireFormat | internal/queue/codec.go:9-29 | an encoding is ID, topic, routing key and payload in this order, each after its 32-bit length, and is refused exactly when one of them is too long |
| Codec.Buffer.WriteBytes | internal/queue/codec.go:66-77 | appends length and value, or refuses a value whose length does not fit 32 bits and writes nothing |
| Codec.Reader.ReadBytes | internal/queue/codec.go:88-102 | reads one field and advances past it, accepting a short value and failing at end of data even for an empty one |
| Codec.EncodeMessage | internal/queue/codec.go:9-29 | the buffer ends up with the four encoded fields, or encoding fails exactly when a field is too long |
| Codec.DecodeMessage | internal/queue/codec.go:31-60 | four successive reads, failing at the first that fails, in the wire order ID, topic, routing key, payload |
| SegmentLog.FrameLayout | internal/queue/segment_store.go:38-47 | a frame is the 32-bit length, the 64-bit offset and the encoded message, at bytes 0, 4 and 12 |
| SegmentLog.FrameFirst | internal/queue/segment_store.go:74-150 | bytes that begin with any frame: recovery keeps it and goes on exactly when it decodes; a read passes over it, decodable or not, unless it has the wanted offset |
| SegmentLog.NoFrameFirst | internal/queue/segment_store.go:75-89 | bytes that begin with no complete frame: recovery keeps nothing, a read ends with not-found at the end of the file and with an error otherwise |
| SegmentLog.CrashRecovery | internal/queue/segment_store.go:109-162 | for every list of appended records and a cut at any byte, recovery keeps exactly the longest run of records wholly on disk and with a payload, byte for byte |
| SegmentLog.AppendSurvives | internal/queue/segment_store.go:29-51 | an appended record is found again after recovery, with everything valid that follows, exactly when its payload is non-empty; otherwise it and all that follows is dropped |
| SegmentLog.RecoverIdempotent | internal/queue/segment_store.go:124-161 | for arbitrary bytes a recovered file is valid to its end, holds the same records, and is unchanged by a second recovery |
| SegmentLog.ReadAfterRecover | internal/queue/segment_store.go:64-107 | on a recovered file every read returns the first record with that offset or not-found, never a frame or decode error |
| SegmentLog.CutKeepsPrefix | internal/queue/segment_store.go:124-155 | for arbitrary bytes a cut only drops records from the end, and none when it is past the valid part |
| SegmentLog.NextAfterIsPastLargest | internal/queue/segment_store.go:148-150 | the recovered next offset is one past the largest offset kept, or 0 if none is kept; a record with offset 2^64-1 starts the count again from 0 |
| SegmentStores.SegmentStore.Append | internal/queue/segment_store.go:29-51 | the frame, with its length truncated to 32 bits, is added at the end of the file; an unencodable message changes nothing |
| SegmentStores.SegmentStore.Read | internal/queue/segment_store.go:64-107 | the scan loop computes the linear search over frames without changing the file |
| SegmentStores.SegmentStore.Recover | internal/queue/segment_store.go:109-162 | the scan loop leaves exactly the recovered bytes and returns the next offset of the kept records, with the 64-bit wrap-around |
| StoreModel.StepRefines | internal/queue/partition_store.go:50-280 | opening, appending, replicated appending, closing and crashing act on the store as the same operations on a map from partition to message sequence; refused messages change nothing, an accepted empty payload and what follows it add nothing that survives, a crash cuts logs back to prefixes |
| StoreModel.RunGood | internal/queue/partition_store.go:50-280 | after any run with any number of closes, crashes and reopens, files hold consecutively numbered records; an open file is intact with the log length as next offset, or dead since an empty payload |
| StoreModel.StoreIsLogMap | internal/queue/partition_store.go:84-162 | after any run an append returns the old length and extends that log only, a replicated append is accepted exactly at the next offset, a read returns the indexed message or not-found; unencodable messages are refused without effect |
| StoreModel.AppendOutcome | internal/queue/partition_store.go:84-119 | for any store an append is accepted exactly when it is not cancelled, the partition is open and the message encodes; it then takes the next offset and adds one frame to that file; otherwise the error says why and nothing changes |
| StoreModel.AppendRecordOutcome | internal/queue/partition_store.go:232-280 | for any store a replicated append is accepted exactly when it is not cancelled, the partition is open, the record carries its next offset and the message encodes; otherwise the error says why and nothing changes |
| StoreModel.AcceptedIsFound | internal/queue/partition_store.go:84-280 | after any run an accepted record with a payload, on an intact file, is found at its offset, by whichever append it came |
| StoreModel.OpenOutcome | internal/queue/partition_store.go:50-82 | opening keeps the valid part of the file of a partition that is not open and recovers its next offset, and changes nothing else |
| StoreModel.AppendIsAtomic | internal/queue/segment_store.go:38-48 | a crash in the middle of an append leaves the old log until the last byte of the frame is on disk, and the extended log from then on |
| PartitionStores.PartitionStore.OpenPartition | internal/queue/partition_store.go:50-82 | opening recovers the file and its next offset and does nothing to an open partition or to others |
| PartitionStores.PartitionStore.Append | internal/queue/partition_store.go:84-119 | the new store and the outcome, including the cancelled, not-open and unencodable cases, are those of the value-level append; the segment index stays in bounds |
| PartitionStores.PartitionStore.AppendRecord | internal/queue/partition_store.go:232-280 | as for the value-level replicated append, including refusal of an unexpected offset |
| PartitionStores.PartitionStore.Read | internal/queue/partition_store.go:121-162 | the search result of the partition's file, with cancelled, not-open and not-found told apart; nothing changes |
| PartitionStores.PartitionStore.Close | internal/queue/partition_store.go:193-215 | all partitions are closed and every file keeps its bytes |
| PublishProtocol.MajorityReplication | internal/queue/runtime.go:107-147 | if twice the required acknowledgements exceed the followers, then in every interleaving, with late and repeated deliveries, each leader entry sits at the offset it was replicated at and is held there identically by the required number of followers |
| PublishProtocol.HandledOnce | internal/queue/http_replication_transport.go:65-68 | once a request has been stored, refused or lost, no continuation handles it again |
| PublishProtocol.LandingExactlyForMajorities | internal/queue/replication_coordinator.go:45-86 | leader entries land at the offset read for them in all runs if and only if the quorum is a majority of the followers |
| PublishProtocol.ReplicationExactlyForMajorities | internal/queue/replication_coordinator.go:28-86 | in all runs every leader entry is held by the required followers at its offset, if and only if nothing is required or the quorum is a majority |
| PublishProtocol.ReplicatedExactlyWithoutLateAppends | internal/queue/runtime.go:122-143 | for every positive quorum and every run: each leader entry is held by the required followers at its offset if and only if no publish of the run appended after the log had grown past the offset it read |
| PublishProtocol.MinorityMisplaces | internal/queue/runtime.go:122-143 | for every positive quorum that is no majority and any two messages, a run in which both are published, no follower holds the second at the leader's offset, and one holds it where the leader has the first |
| PublishProtocol.SerialReplication | internal/queue/runtime.go:122-147 | with serialised publishes and any quorum, every run, with failures and stragglers, keeps each leader entry on the required number of followers at its offset |
| PublishProtocol.FollowerAgreement | internal/queue/partition_store.go:249-277 | with serialised publishes a follower log reaches at most one past the leader's, and an entry differs from the leader's exactly when its attempt failed |
| PublishProtocol.FollowersArePrefixes | internal/queue/partition_store.go:249-277 | with serialised publishes all follower logs are prefixes of the leader's plus at most the record being replicated, if and only if no record of a failed attempt has reached a follower |
| PublishProtocol.FailedFollowerRejoins | internal/queue/partition_store.go:249-257 | in the deployed configuration a serialised run after which a follower with a failed record is level with the leader, its acknowledgement alone having carried the last publish |
| PublishProtocol.WedgedForever | internal/queue/partition_store.go:249-257 | once the followers not ahead of an idle leader cannot form a quorum, no continuation ever extends the leader's log |
| PublishProtocol.OneFailureCanWedge | internal/queue/replication_coordinator.go:69-86 | one serialised publish that is stored by both followers and then fails brings the deployed configuration into that state |
| PublishProtocol.InStepCanPublish | internal/queue/runtime.go:122-147 | from any state in which a quorum of followers is as long as the leader, a run completes a new publish, whatever the other followers do |
| PublishProtocol.AcceptsExactlyWhileJoinable | docs/design.md:126 | for every configuration and run: an idle partition can still accept a publish if and only if the followers that can come level with the leader, because a request for every entry they lack is under way, are enough for the quorum |
| PublishProtocol.LaggingCanWedge | internal/queue/http_replication_transport.go:65-68 | in the deployed configuration one lost request and one failed publish, serialised, leave one follower ahead and one behind, and no continuation extends the leader's log |
| CrashReplication.CrashesLoseNothing | internal/queue/partition_store.go:104-118 | over any number of crashes of leader and followers, with a majority quorum or serialised publishes, each leader entry is synced on the required followers at its offset, and confirmed publishes are where they were replicated |
| CrashReplication.ConfirmedSurvives | internal/queue/runtime.go:133-146 | for every quorum and every interleaving, over any number of crashes, a confirmed publish is synced at the leader at the position its append returned |
| CrashAvailability.SafeExactlyForMajorities | internal/queue/replication_coordinator.go:28-86 | over all runs with crashes every leader entry is synced on the required followers at its offset, if and only if nothing is required or the quorum is a majority |
| CrashAvailability.AcceptsExactlyWhileAgreeable | internal/queue/partition_store.go:249-257 | for every configuration and run with crashes: an idle partition can still accept a publish if and only if there is a length, from what the leader has synced to what it has, that enough followers can reach, by losing what they have not synced or by requests under way |
| CrashAvailability.PublishIsConfirmed | internal/queue/runtime.go:122-147 | after any run with crashes in which enough followers are as long as the leader, some continuation appends a new publish at the leader's length, syncs it and confirms it there |
| DurableLog.StepRefines | internal/queue/segment_store.go:29-62 | on a partition file a write extends the log, unless the payload is or was empty, a sync covers it, and a crash with recovery keeps a prefix that includes all that was synced |
| DurableLog.RunGood | internal/queue/segment_store.go:109-162 | over any run of writes, syncs and crashes the file is consecutively numbered, and intact with the length of its log as next offset unless an empty payload was written since the last restart |
| DurableLog.SyncedForever | internal/queue/partition_store.go:112-116 | a record synced once is at its offset after any further writes, also of empty payloads, syncs and crashes |
| DurableReplication.RunRefines | internal/queue/partition_store.go:232-280 | every run of the protocol on files, with crashes that cut them at any unsynced byte, stands for a run on logs |
| DurableReplication.ConfirmedSurvives | internal/queue/partition_store.go:104-118 | over every such run, for every quorum and interleaving, a confirmed publish is in the synced part of the leader's file at the offset its append returned |
| DurableReplication.ConfirmedIsDurable | internal/queue/runtime.go:122-147 | over every such run, with a majority quorum or serialised publishes, each record in the leader's file is in the synced part of the required number of follower files at the same offset, and confirmed publishes are at the offset they were replicated at |
| DurableAvailability.EveryRunOnFiles | internal/queue/partition_store.go:232-280 | the other direction of the refinement: every run of the protocol, with late, lost and refused requests, failures and any interleaving, happens on files with the same logs, offsets and acknowledgements |
| DurableAvailability.PublishIsConfirmed | internal/queue/partition_store.go:104-118 | after any run on files in which enough followers have as many records as the leader, some continuation appends a new message to the leader's file, syncs it and confirms it at the old length of the log |
| DurableAvailability.CrashAtAnyByte | internal/queue/segment_store.go:109-162 | any node can crash at any unsynced byte and comes up with what recovery keeps; other nodes and confirmed publishes are as they were, and a crashed leader has no publish under way |
| Publishing.Publish | internal/queue/runtime.go:70-148 | a lone publish succeeds exactly when routed to a led partition with the quorum met or not needed and the message appendable; each failure has its own error and leaves the store unchanged; the followers are sent, and the leader's log gains, the message under the publish's topic, at the same offset |
| ReplicationCoordinator.Coordinator.Replicate | internal/queue/replication_coordinator.go:23-87 | success exactly when nothing is required, or enough followers exist and enough succeed, in whatever order; it stops at the deciding result; each failure counts one quorum failure |
| ReplicationCoordinator.FanOutSafety | internal/queue/replication_coordinator.go:39-86 | in every order of events no sender blocks on the channel, Attempts = Successes + Failures + running replicators, and quorum failures count exactly the errors returned |
| ReplicationCoordinator.OutcomeIsCount | internal/queue/replication_coordinator.go:69-86 | once all results are sent the collector can proceed and its outcome is decided by the number of successes alone |
| ReplicationCoordinator.EveryOutcome | internal/queue/replication_coordinator.go:45-86 | for every vector of follower results a run sends all of them, the collector returns, with success exactly when enough are true, and the metrics count them |
| ReplicationCoordinator.NobodyContacted | internal/queue/replication_coordinator.go:28-37 | without a positive quorum that can be met nobody is contacted in any run, and the call succeeds exactly when nothing is required |
| Consumers.SplitKeyJoin | internal/queue/runtime.go:562-570 | a consumer key splits back into its topic and group exactly when the topic has no zero byte |
| Consumers.ConsumerKeyInjective | internal/queue/runtime.go:376-378 | without zero bytes in topics keys are equal only for equal subscriptions, and a pair that collides otherwise |
| Consumers.AloneExactly | internal/queue/runtime.go:376-378 | a subscription has its key to itself if and only if its topic has no zero byte after the first and its group none before the last |
| Consumers.ConsumerState.ReadNextOffset | internal/queue/runtime.go:408-418 | the cursor of the cell, or in-flight, creating a missing cell at 0 |
| Consumers.ConsumerState.SkipTo | internal/queue/runtime.go:420-430 | moves the cursor unless a delivery is in flight |
| Consumers.ConsumerState.MarkInflight | internal/queue/runtime.go:432-457 | fills an empty slot and the ID's map entry, or reports a filled slot, changing no other cell |
| Consumers.ConsumerState.AckMessage | internal/queue/runtime.go:459-479 | clears the slot the ID's entry names and moves its cursor past it; an unknown ID or a stale entry is refused |
| Consumers.AckOutcome | internal/queue/runtime.go:459-479 | an acknowledgement succeeds exactly when the entry of its ID names a slot that holds this ID; an unknown ID changes nothing, a stale entry is dropped |
| Consumers.StatusMeans | internal/queue/runtime.go:317-350 | a poll is blocked, fails or delivers according to the first message from the cursor on that cannot be read or is of the topic, and leaves the cursor there |
| Consumers.Runtime.PollPartition | internal/queue/runtime.go:311-358 | terminates and delivers the first matching message at or past the cursor, marking its cell and map entry, or nothing when blocked, or an error; the cursor ends where the search stopped and other cells keep their state |
| Consumers.Runtime.Poll | internal/queue/runtime.go:229-257 | returns nothing exactly when every led partition is in flight or has no matching message left; otherwise the first such message of the lowest-numbered partition that is not blocked, or its error; the polled cells are left as their polls leave them, all others unchanged |
| Consumers.Runtime.Acknowledge | internal/queue/runtime.go:259-272 | acknowledges the delivery the ID names and counts it; a cancelled call changes nothing |
| ConsumerMachine.NothingSkipped | internal/queue/runtime.go:317-357 | in every interleaving every matching message below the cursor of a subscription with its own key has been delivered and acknowledged, whatever other subscriptions do |
| ConsumerMachine.NothingSkippedExactly | internal/queue/runtime.go:376-378 | for every non-empty topic and group, nothing is skipped in any run if and only if the subscription has its key to itself |
| ConsumerMachine.OneOutstanding | internal/queue/runtime.go:432-479 | in every interleaving deliveries and acknowledgements of one (group, partition) alternate, so at most one is outstanding |
| ConsumerMachine.UnreadableStops | internal/queue/runtime.go:323-330 | in every run no cursor passes a message that cannot be read, and neither it nor anything after it is in flight |
| ConsumerMachine.CallsFinish | internal/queue/runtime.go:311-358 | from every reachable state all calls under way can finish, and the counters are then the numbers of deliveries and acknowledgements |
| ConsumerMachine.PublishedIsDelivered | internal/queue/runtime.go:311-358 | a published message is delivered to a new group after the messages of its topic before it |
| ConsumerMachine.InOrderExactlyWithoutRewinds | internal/queue/runtime.go:317-357 | for a subscription with its own key, the deliveries are the matching messages up to the position, in order and once each, after every step of a run if and only if no poller with an empty slot skips back over a matching message or marks one from before the cursor |
| ConsumerMachine.InOrderExactlyWithoutStraying | internal/queue/runtime.go:317-357 | the same for every key and topic, shared or not: if and only if no poller passes the cursor over a message of the topic, in either direction, or marks another than the next |
| ConsumerMachine.InOrderExactlyOnce | internal/queue/runtime.go:311-358 | when polls of one (group, partition) do not overlap, its deliveries are exactly the matching messages below the cursor in order, plus the one in flight at the cursor |
| ConsumerMachine.OverlapCanRedeliver | internal/queue/runtime.go:317-357 | for every message of every readable log and every group, a run with two overlapping polls that delivers it twice |
| ConsumerMachine.MatchingIsFilter | internal/queue/runtime.go:332-335 | the matching offsets are listed once each and in increasing order |
| ConsumerMachine.NoStaleEntries | internal/queue/runtime.go:459-479 | in every reachable state each in-flight entry names a slot holding that delivery, no two name the same slot, and acknowledging a listed ID always succeeds |
| ConsumerMachine.Conservation | internal/queue/runtime.go:259-278 | with no call midway Delivered = Acked + filled slots, and this is Acked + in-flight count if and only if no delivery was marked while another of its ID was in flight |
| ConsumerMachine.NamedExactlyWithoutCollisions | internal/queue/runtime.go:432-457 | in every run, all filled slots have their map entry if and only if no delivery was marked while another of its ID was in flight |
| ConsumerMachine.OrphanStuck | internal/queue/runtime.go:459-479 | a filled slot without a map entry keeps its cursor and delivery in every continuation of every run |
| ConsumerMachine.TwoGroupsOrphan | internal/queue/runtime.go:432-457 | for any two groups and readable message, a run after which one group's slot is filled without an entry, in every continuation |
| Processor.Runner.RunOnce | internal/processor/runner.go:43-110 | it fails exactly when consuming, decoding, inserting or acknowledging does; an acknowledgement is sent for exactly the inserted messages in order; consumed + failed consumes = processed + errors |
| Processor.WorkerTransitions | internal/processor/runner.go:43-110 | a worker may fail before or after storing its message and sends the acknowledgement only after storing it |
| Processor.NothingLost | internal/processor/runner.go:43-110 | over any interleaving of processors, pollers and publishers with arbitrary failures, when messages sharing an ID are the same message, every matching message below the cursor of a group with its own key has been inserted |
| Processor.SharedIDsLoseMessages | internal/queue/runtime.go:432-479 | for any readable logs in which two different messages share an ID, a run in which a cursor passes a message of its topic that was not inserted |
| Processor.NothingLostExactlyWithUniqueIDs | internal/processor/runner.go:43-110 | on readable logs no run of pollers and processors loses a message if and only if messages that share an ID are the same message |
| Placement.AssignPartitions | internal/queue/assignment.go:3-42 | replica i of partition p is on node (p + i) mod N, the first as leader, with no more replicas than nodes; empty for degenerate arguments |
| Placement.ReplicasDistinct | internal/queue/assignment.go:18-38 | every partition has min(factor, nodes) replicas on distinct nodes, the first and only the first a leader |
| Placement.Balanced | internal/queue/assignment.go:18-38 | each node holds between rf*floor(P/N) and rf*ceil(P/N) replicas and leads between floor(P/N) and ceil(P/N) partitions |
| Placement.LeadersEven | internal/queue/assignment.go:22-27 | the leader counts of two nodes differ by at most one |
| Placement.OneLeader | internal/queue/partition_manager.go:33-64 | exactly the node at p mod N sees itself as leader of p, and every lookup names that node |
| Placement.ForwardedAtMostOnce | internal/queue/runtime.go:150-187 | every node resolves a publish to the one leader, where it is local and accepted, so it is forwarded at most once |
| Placement.PartitionLeaderMeans | internal/queue/runtime.go:150-187 | for any tables a publish is local exactly when this node sees itself as leader, otherwise goes to the first listed node with the leader's ID, and fails without partitions or such a node |
| Placement.IsLeaderMeans | internal/queue/partition_manager.go:33-64 | for any table a node leads a partition exactly when the first entry for it lists the node first as leader |
| Placement.LedIDsIncrease | internal/queue/runtime.go:360-374 | the partitions a node polls are exactly those it leads, in increasing order |
| Placement.ForPartition | internal/queue/replicator_factory.go:15-47 | the loops yield the known nodes of the follower replicas in replica order |
| Placement.FollowerNodesMeans | internal/queue/replicator_factory.go:15-47 | for any table exactly the followers with a known node, in replica order, each with the last listed node of its ID |
| Placement.FactoryYieldsFollowers | internal/config/load.go:55-70 | there are min(factor, nodes) - 1 replicators; with a validated configuration the too-few-followers branch is taken exactly when there are no more nodes than required acknowledgements |
| Replay.RecordsForShard | internal/telemetry/replay.go:84-111 | the loop selects the rows of the shard's residue class; bad arguments and an empty shard are errors, a single shard is the whole input |
| Replay.ShardRow | internal/telemetry/replay.go:96-100 | row q of shard i is input row q*k + i, for exactly the rows the input has |
| Replay.ShardsInterleave | internal/telemetry/replay.go:96-100 | input row r is row r / k of shard r mod k |
| Replay.ShardsDisjoint | internal/telemetry/replay.go:96-100 | different shard positions are different input rows |
| Replay.ShardSize | internal/telemetry/replay.go:94-100 | shard i of k has ceil((rows - i) / k) rows, and none when i is past the input |
| Replay.ReplayShard | internal/telemetry/replay.go:56-82 | the nested loops publish as j-th item the j-th item of the cyclic replay of the shard |
| Replay.Stream | internal/telemetry/replay.go:46-82 | there is something to publish exactly when the shard index is valid and within the input; the j-th publish then carries input row (j mod n)*k + i, for the n rows of shard i of k, and number j modulo 2^64; otherwise it is an error and nothing is published |
| Replay.ItemIsCyclic | internal/telemetry/replay.go:71-80 | that item is row j mod n with sequence number j modulo 2^64 |
| Replay.MessageIDsDistinct | internal/telemetry/record.go:44-46 | message IDs are equal exactly when clock reading and sequence number are |
| Replay.DecimalIsValue | internal/telemetry/record.go:44-46 | the numbers in an ID are written in decimal digits, most significant first, without leading zeros |
| Replay.StreamIDsDistinct | internal/telemetry/replay.go:71-80 | the publishes of one stream have distinct IDs below 2^64 whatever the clock says; those of two streams share one exactly when their numbers and clock readings agree |
| Replay.PublishWithRetry | internal/telemetry/replay.go:113-165 | retries until published, cancelled or the message cannot be built, sleeping once per failed attempt for the scheduled backoff |
| Replay.BackoffStep | internal/telemetry/replay.go:118-163 | the next delay is the doubled one as a signed 64-bit number, or the cap when that is larger |
| Replay.RetrySchedule | internal/telemetry/replay.go:118-163 | over all validated settings every n-th sleep is min(initial*2^n, cap) and positive if and only if the cap is at most half the int64 range; with a larger cap some sleep is not positive |
| Replay.NoOverflowExactly | internal/config/load.go:78-83 | over all validated settings the doubling never overflows if and only if the cap is at most half the int64 range |

## Left out

- HTTP handlers, transports and clients, JSON and URL handling: a replicate request is a message that reaches the follower once at any time, or is lost; a 2xx answer means the follower appended.
- Cluster discovery, configuration parsing and the environment: the node list and the settings are inputs.
- The database and the query API: an insert succeeds, fails, or succeeds and is reported as failed.
- The FNV hash: routing takes the hash as an arbitrary number.
- Write or sync failures of a live process that leave a torn frame in mid-file.
- Consumer cursors across a process restart: they are in memory only, so delivery claims are per process lifetime.
- Segment rolling: the code only ever uses segment 0 and never consults the segment size.
- The `Consume` channel wrapper, statistics, logging and metrics output: no further properties.
- StoreModel.StepRefines: as in `StoreModel.RunGood` and `StoreModel.StoreIsLogMap`, encodings of 2^32 bytes and more, whose frame length is truncated, and logs that use up the 64-bit offsets are excluded.
- StoreModel.RunGood: see `StoreModel.StepRefines`.
- StoreModel.StoreIsLogMap: see `StoreModel.StepRefines`.
- PartitionStores.PartitionStore.Append: the sync after the write is not a separate step of the object; `DurableLog` and `DurableReplication` separate them.
- DurableReplication.RunRefines: published messages have a payload, which the publish handler guarantees (internal/queue/publish_handler.go:72), and an encoding below 2^32 bytes, and runs have fewer than 2^64 steps; the store lock around write and sync is left out, which only allows more runs.
- DurableReplication.ConfirmedSurvives: see `DurableReplication.RunRefines`.
- DurableReplication.ConfirmedIsDurable: see `DurableReplication.RunRefines`.
- DurableAvailability.EveryRunOnFiles: see `DurableReplication.RunRefines`.
- DurableAvailability.PublishIsConfirmed: see `DurableReplication.RunRefines`.
- DurableLog.StepRefines: as in `DurableLog.RunGood` and `DurableLog.SyncedForever`, encodings of 2^32 bytes and more are excluded.
- DurableLog.RunGood: see `DurableLog.StepRefines`.
- DurableLog.SyncedForever: see `DurableLog.StepRefines`.
- Replay.Stream: as in `Replay.ReplayShard`, the endless loop is cut off after a given number of publishes, which stands for the context ending.
- Consumers.Runtime.Poll: the log is fixed during the call; concurrent publishes, polls and acknowledgements are covered by `ConsumerMachine`.
