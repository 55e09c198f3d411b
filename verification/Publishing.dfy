/** One publish at a queue node, from routing to the local append, with no other publish in
    between. The interleaved case is the step machine of `PublishProtocol`. */
module Publishing {
  import opened Bytes
  import opened Codec
  import opened SegmentLog
  import opened PartitionStores
  import opened ReplicationCoordinator
  import opened Placement
  import Model = StoreModel

  datatype PublishResult = Published | NoPartitions | NotPartitionLeader | ReplicationQuorum | AppendFailed

  /** The routing hash of the message is given, and `results` are the replies of the
      followers in order of arrival; a partition without a coordinator is not replicated.
      `sent` is the record the followers are asked to store, if any is contacted. A publish
      succeeds exactly when the message is routed to a partition this node leads, the quorum
      is reached or not needed, and the message can be appended; otherwise the error says
      which of these failed, and the local store is unchanged. The followers are sent, and
      this node stores, the message under the topic of the publish, at the same offset. */
  method Publish(parts: seq<Partition>, self: string, hash: nat, coordinators: map<int, Coordinator>,
                 store: PartitionStore, results: seq<bool>, cancelled: bool, topic: bytes, message: Message)
    returns (r: PublishResult, sent: Option<Record>)
    requires store.Valid()
    modifies store, store.Repr, coordinators.Values
    ensures store.Valid()
    ensures r.NoPartitions? <==> parts == []
    ensures parts == [] ==> sent == None
    ensures parts != [] ==>
      var p, m := parts[hash % |parts|].id, Message(topic, message.id, message.routingKey, message.payload);
      var replicated := p in coordinators;
      var quorum := replicated && coordinators[p].required > 0 ==>
        coordinators[p].required <= |results| && CountTrue(results) >= coordinators[p].required;
      var appendable := !cancelled && p in old(store.store).next && Encode(m).Some?;
      && (r == NotPartitionLeader <==> !IsLeader(parts, self, p))
      && (r == ReplicationQuorum <==> IsLeader(parts, self, p) && !quorum)
      && (r == AppendFailed <==> IsLeader(parts, self, p) && quorum && !appendable)
      && sent == (if IsLeader(parts, self, p) && replicated && 1 <= coordinators[p].required <= |results|
                  then Some(Record(if p in old(store.store).next then old(store.store).next[p] else 0, m)) else None)
      && (r == Published ==>
            && Model.OneMore(old(store.store), store.store, p, m)
            && (Model.Good(old(store.store)) && Model.Sized(old(store.store), p, m) &&
                m.payload != [] && Model.Intact(old(store.store).files[p]) ==>
                  Model.Logs(store.store) ==
                    Model.Logs(old(store.store))[p := Model.Log(old(store.store).files[p]) + [m]]))
    ensures r != Published ==> store.store == old(store.store)
  {
    hide Encode, IsLeader, CountTrue, PartitionStore.Valid, Model.Append, Model.Good, Model.Sized, Model.Intact,
      Model.Logs, Model.Log, Model.OneMore;
    sent := None;
    if |parts| == 0 {
      return PublishResult.NoPartitions, None;
    }
    var m := message.(topic := topic);
    var p := parts[hash % |parts|].id;
    if !IsLeader(parts, self, p) {
      return NotPartitionLeader, None;
    }
    var quorum: bool;
    quorum, sent := ReplicateFirst(coordinators, store, results, p, m);
    if !quorum {
      return ReplicationQuorum, sent;
    }
    ghost var before := store.store;
    var outcome := store.Append(cancelled, p, m);
    Model.AppendOutcome(before, cancelled, p, m);
    if outcome.Appended? {
      AppendExtendsLog(before, store.store, p, m);
    }
    r := if outcome.Appended? then Published else AppendFailed;
  }

  /** Sends the record for the next offset to the followers of a replicated partition. */
  method ReplicateFirst(coordinators: map<int, Coordinator>, store: PartitionStore, results: seq<bool>, p: int, m: Message)
    returns (ok: bool, sent: Option<Record>)
    requires store.Valid()
    modifies coordinators.Values
    ensures ok <==>
      (p in coordinators && coordinators[p].required > 0 ==>
         coordinators[p].required <= |results| && CountTrue(results) >= coordinators[p].required)
    ensures sent == if p in coordinators && 1 <= coordinators[p].required <= |results|
                    then Some(Record(if p in store.store.next then store.store.next[p] else 0, m)) else None
  {
    if p !in coordinators {
      return true, None;
    }
    var coordinator := coordinators[p];
    var offset := CurrentOffset(store, p);
    sent := if 1 <= coordinator.required <= |results| then Some(Record(offset, m)) else None;
    var received: nat;
    ok, received := coordinator.Replicate(results);
  }

  /** On an intact file a stored message with a payload is the next of the log. */
  lemma AppendExtendsLog(s: Model.Store, s': Model.Store, p: int, m: Message)
    requires p in s.next && Encode(m).Some? && Model.OneMore(s, s', p, m)
    ensures p in s'.files
    ensures Model.Good(s) && Model.Sized(s, p, m) && m.payload != [] && p in s.files && Model.Intact(s.files[p]) ==>
      Model.Logs(s') == Model.Logs(s)[p := Model.Log(s.files[p]) + [m]]
    ensures Model.Good(s) ==> p in s.files
  {
    hide Encode, Model.Logs, Model.Log, Model.Intact, Frame, Scan, ValidLength;
    if Model.Good(s) && Model.Sized(s, p, m) {
      Model.WriteGood(s, p, m);
    }
  }

  /** The next offset of a partition, or 0 when it is not open. */
  method CurrentOffset(store: PartitionStore, p: int) returns (offset: Offset)
    requires store.Valid()
    ensures offset == if p in store.store.next then store.store.next[p] else 0
  {
    if p in store.states {
      assert store.OpenAs(p);
      return store.states[p].nextOffset;
    }
    offset := 0;
  }
}
