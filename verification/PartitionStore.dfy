/** The partition store object: one open segment per partition, its next offset, and the
    data directory that outlives them. */
module PartitionStores {
  import opened Bytes
  import opened Codec
  import opened SegmentLog
  import opened SegmentStores
  import Model = StoreModel

  datatype PartitionState = PartitionState(currentSegmentID: nat, nextOffset: Offset)

  datatype ReadOutcome = Ok(message: Message) | NotFound | Cancelled | NotOpen | Failed

  /** The segment is in order and its file has these bytes. */
  ghost predicate Holds(segment: SegmentStore, file: bytes)
    reads segment
  {
    segment.Valid() && segment.content == file
  }

  class PartitionStore {
    /** Segment files of partitions that are not open. */
    var disk: map<int, bytes>
    var segments: map<int, seq<SegmentStore>>
    var states: map<int, PartitionState>

    /** The store as a value, and the segment objects in use. */
    ghost var store: Model.Store
    ghost var Repr: set<SegmentStore>

    /** The fields agree with the value: one segment per open partition, belonging to no
        other, and a segment index that is in bounds. */
    ghost predicate Valid()
      reads this, Repr
    {
      && segments.Keys == states.Keys == store.next.Keys
      && store.files.Keys == disk.Keys + segments.Keys
      && (forall p :: p in segments ==> OpenAs(p))
      && (forall p :: p in disk && p !in segments ==> disk[p] == store.files[p])
    }

    ghost predicate OpenAs(p: int)
      requires p in segments && p in states && p in store.next && p in store.files
      reads this, Repr
    {
      && |segments[p]| == 1 && segments[p][0] in Repr && segments[p][0].partition == p
      && Holds(segments[p][0], store.files[p])
      && states[p].currentSegmentID < |segments[p]| && states[p].nextOffset == store.next[p]
    }

    constructor (disk: map<int, bytes>)
      ensures Valid() && fresh(Repr)
      ensures store == Model.Store(disk, map[])
    {
      this.disk := disk;
      segments := map[];
      states := map[];
      store := Model.Store(disk, map[]);
      Repr := {};
    }

    method OpenPartition(p: int)
      requires Valid()
      modifies this
      ensures Valid() && fresh(Repr - old(Repr))
      ensures store == Model.Open(old(store), p)
    {
      hide SegmentLog.Scan, SegmentLog.Recovered, SegmentLog.NextAfter;
      if p in states {
        return;
      }
      var segment := new SegmentStore(p, if p in disk then disk[p] else []);
      var nextOffset := segment.Recover();
      Install(p, segment, nextOffset);
    }

    /** Records a recovered segment as the only one of a partition. */
    method Install(p: int, segment: SegmentStore, nextOffset: Offset)
      requires Valid() && p !in states
      requires segment.partition == p && segment.Valid()
      modifies this
      ensures Valid() && Repr == old(Repr) + {segment}
      ensures store == Model.Store(old(store.files)[p := segment.content], old(store.next)[p := nextOffset])
    {
      segments := segments[p := [segment]];
      states := states[p := PartitionState(0, nextOffset)];
      Repr := Repr + {segment};
      store := Model.Store(store.files[p := segment.content], store.next[p := nextOffset]);
      assert forall q :: q in segments && q != p ==> old(OpenAs(q)) && OpenAs(q);
    }

    /** Writes, syncs and counts one record of an open partition. */
    method WriteRecord(p: int, m: Message) returns (r: Model.Outcome)
      requires Valid() && p in states
      modifies this, Repr
      ensures Valid() && Repr == old(Repr)
      ensures (store, r) == Model.Write(old(store), p, m)
    {
      hide Codec.Encode;
      var state := states[p];
      assert OpenAs(p);
      var segment := segments[p][state.currentSegmentID];
      var offset := state.nextOffset;
      var ok := segment.Append(Record(offset, m));
      if !ok {
        return Model.NotEncodable;
      }
      states := states[p := state.(nextOffset := (offset + 1) % TWO64)];
      store := Model.Write(store, p, m).0;
      assert OpenAs(p);
      assert forall q :: q in segments && q != p ==> OpenAs(q);
      r := Model.Appended(offset);
    }

    method Append(cancelled: bool, p: int, m: Message) returns (r: Model.Outcome)
      requires Valid()
      modifies this, Repr
      ensures Valid() && Repr == old(Repr)
      ensures (store, r) == Model.Append(old(store), cancelled, p, m)
    {
      hide Model.Write;
      if cancelled {
        return Model.Cancelled;
      }
      if p !in states {
        return Model.NotOpen;
      }
      r := WriteRecord(p, m);
    }

    method AppendRecord(cancelled: bool, p: int, record: Record) returns (r: Model.Outcome)
      requires Valid()
      modifies this, Repr
      ensures Valid() && Repr == old(Repr)
      ensures (store, r) == Model.AppendRecord(old(store), cancelled, p, record)
    {
      hide Model.Write;
      if cancelled {
        return Model.Cancelled;
      }
      if p !in states {
        return Model.NotOpen;
      }
      assert OpenAs(p);
      if record.offset != states[p].nextOffset {
        return Model.UnexpectedOffset;
      }
      r := WriteRecord(p, record.message);
    }

    method Read(cancelled: bool, p: int, offset: Offset) returns (r: ReadOutcome)
      requires Valid()
      modifies Repr
      ensures Valid()
      ensures r == if cancelled then Cancelled
                   else if p !in store.next then NotOpen
                   else match Find(store.files[p], offset)
                     case Found(record) => Ok(record.message)
                     case OffsetNotFound => NotFound
                     case _ => Failed
    {
      hide SegmentLog.Find;
      if cancelled {
        return Cancelled;
      }
      if p !in segments {
        return NotOpen;
      }
      assert OpenAs(p);
      var i := 0;
      while i < |segments[p]|
        invariant 0 <= i <= 1 && Valid()
        invariant i == 1 ==> Find(store.files[p], offset) == OffsetNotFound
      {
        assert OpenAs(p);
        var found := segments[p][i].Read(offset);
        assert forall q :: q in segments ==> OpenAs(q);
        match found {
          case Found(record) => return Ok(record.message);
          case OffsetNotFound => i := i + 1;
          case _ => return Failed;
        }
      }
      r := NotFound;
    }

    /** Closes every segment; the files stay in the data directory. */
    method Close()
      requires Valid()
      modifies this
      ensures Valid() && Repr == {}
      ensures store == Model.Close(old(store))
    {
      assert forall p :: p in segments ==> OpenAs(p);
      disk := map p | p in disk.Keys + segments.Keys :: if p in segments then segments[p][0].content else disk[p];
      segments := map[];
      states := map[];
      store := Model.Close(store);
      Repr := {};
    }
  }
}
