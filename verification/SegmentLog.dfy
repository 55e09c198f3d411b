/** What a segment file means: whole frames at its front, read in order. A frame is a
    32-bit length, a 64-bit offset and an encoded message. */
module SegmentLog {
  import opened Bytes
  import opened Codec

  const HEADER: nat := 12

  datatype Record = Record(offset: Offset, message: Message)

  /** The bytes written for one record; the length is truncated to 32 bits. */
  function Frame(payload: bytes, offset: Offset): bytes {
    U32(|payload| % TWO32) + U64(offset) + payload
  }

  // ------------------------------------------------- the frame at the front of some bytes

  function Size(data: bytes): (n: nat)
    requires |data| >= HEADER
  {
    FromU32(data[..4])
  }

  function FrameOffset(data: bytes): Offset
    requires |data| >= HEADER
  {
    FromU64(data[4..12])
  }

  predicate HasFrame(data: bytes) {
    |data| >= HEADER && |data| >= HEADER + Size(data)
  }

  function Payload(data: bytes): bytes
    requires HasFrame(data)
  {
    data[HEADER..HEADER + Size(data)]
  }

  function Rest(data: bytes): bytes
    requires HasFrame(data)
  {
    data[HEADER + Size(data)..]
  }

  /** A frame that recovery keeps: complete, and its payload decodes. */
  predicate Whole(data: bytes) {
    HasFrame(data) && Decode(Payload(data)).Some?
  }

  // ------------------------------------------------- the log in a file

  /** The records recovery keeps, in file order. */
  function Scan(data: bytes): seq<Record> {
    if Whole(data) then [Record(FrameOffset(data), Decode(Payload(data)).value)] + Scan(Rest(data))
    else []
  }

  /** How many bytes they occupy. */
  function ValidLength(data: bytes): (n: nat)
    ensures n <= |data|
  {
    if Whole(data) then HEADER + Size(data) + ValidLength(Rest(data)) else 0
  }

  function Recovered(data: bytes): bytes {
    data[..ValidLength(data)]
  }

  /** One step of the next-offset computation, with the 64-bit wrap-around. */
  function Bump(next: Offset, offset: Offset): Offset {
    if offset >= next then (offset + 1) % TWO64 else next
  }

  function NextAfter(records: seq<Record>, next: Offset): Offset {
    if records == [] then next else NextAfter(records[1..], Bump(next, records[0].offset))
  }

  datatype ReadResult = Found(record: Record) | OffsetNotFound | BadFrame | BadPayload

  /** A linear search: frames before the wanted one need not decode. */
  function Find(data: bytes, offset: Offset): ReadResult {
    if data == [] then OffsetNotFound
    else if !HasFrame(data) then BadFrame
    else if FrameOffset(data) != offset then Find(Rest(data), offset)
    else match Decode(Payload(data))
      case None => BadPayload
      case Some(m) => Found(Record(offset, m))
  }

  // ------------------------------------------------- what is in a file

  /** The frame layout: a 32-bit length, a 64-bit offset, the encoded message. */
  lemma FrameLayout(e: bytes, offset: Offset)
    ensures var f := Frame(e, offset);
      |f| == 12 + |e| && f[..4] == U32(|e| % TWO32) && f[4..12] == U64(offset) && f[12..] == e
  {
    var f := Frame(e, offset);
    var a, b := U32(|e| % TWO32), U64(offset);
    hide U32, U64;
    assert f == a + b + e;
  }

  /** Bytes that begin with a frame: recovery keeps it, and goes on, exactly when it decodes;
      a search passes over it, decodable or not, unless it has the wanted offset. */
  lemma FrameFirst(e: bytes, offset: Offset, more: bytes, wanted: Offset)
    requires |e| < TWO32
    ensures var data := Frame(e, offset) + more;
      && Scan(data) == (if Decode(e).Some? then [Record(offset, Decode(e).value)] + Scan(more) else [])
      && ValidLength(data) == (if Decode(e).Some? then |Frame(e, offset)| + ValidLength(more) else 0)
      && Find(data, wanted) ==
           (if offset != wanted then Find(more, wanted)
            else if Decode(e).Some? then Found(Record(offset, Decode(e).value)) else BadPayload)
  {
    hide Codec.Decode;
    FrontFrameBytes(e, offset, more);
    FrameLayout(e, offset);
  }

  /** Bytes that do not begin with a frame. */
  lemma NoFrameFirst(data: bytes, wanted: Offset)
    requires forall e, offset, more :: |e| < TWO32 ==> data != Frame(e, offset) + more
    ensures Scan(data) == [] && ValidLength(data) == 0
    ensures Find(data, wanted) == if data == [] then OffsetNotFound else BadFrame
  {
    hide Codec.Decode;
    if HasFrame(data) {
      FrameAgain(data);
      assert false;
    }
  }

  lemma FrameAgain(data: bytes)
    requires HasFrame(data)
    ensures |Payload(data)| < TWO32 && data == Frame(Payload(data), FrameOffset(data)) + Rest(data)
  {
    var e := Payload(data);
    assert |e| == Size(data);
    U32Again(data[..4]);
    U64Again(data[4..12]);
    assert data == data[..4] + data[4..12] + e + Rest(data);
  }

  // ------------------------------------------------- properties for arbitrary bytes

  /** Only whole frames count, so bytes added after an incomplete or undecodable tail are
      not seen and bytes added after a fully valid file are. */
  lemma {:induction false} ScanAppend(data: bytes, more: bytes)
    requires ValidLength(data) == |data|
    ensures Scan(data + more) == Scan(data) + Scan(more)
    ensures ValidLength(data + more) == |data| + ValidLength(more)
  {
    if Whole(data) {
      FrontFrameAppend(data, more);
      ScanAppend(Rest(data), more);
    } else {
      assert data + more == more;
    }
  }

  lemma FrontFrameAppend(data: bytes, more: bytes)
    requires HasFrame(data)
    ensures HasFrame(data + more)
    ensures FrameOffset(data + more) == FrameOffset(data)
    ensures Payload(data + more) == Payload(data)
    ensures Rest(data + more) == Rest(data) + more
  {
    assert (data + more)[..4] == data[..4];
    assert (data + more)[4..12] == data[4..12];
  }

  lemma EmptyFile()
    ensures Scan([]) == [] && ValidLength([]) == 0
  {
  }

  /** Recovery is idempotent: a recovered file is valid to its last byte and holds the
      same records. */
  lemma {:induction false} RecoverIdempotent(data: bytes)
    ensures ValidLength(Recovered(data)) == |Recovered(data)|
    ensures Scan(Recovered(data)) == Scan(data)
    ensures Recovered(Recovered(data)) == Recovered(data)
  {
    hide Codec.Decode;
    if Whole(data) {
      RecoverIdempotent(Rest(data));
      var front := data[..HEADER + Size(data)];
      SingleFrame(data);
      ScanAppend(front, Recovered(Rest(data)));
      assert Recovered(data) == front + Recovered(Rest(data));
      var kept := Recovered(data);
      assert kept[..ValidLength(kept)] == kept;
    }
  }

  /** The front frame on its own. */
  lemma SingleFrame(data: bytes)
    requires Whole(data)
    ensures var front := data[..HEADER + Size(data)];
      && ValidLength(front) == |front|
      && Scan(front) == [Record(FrameOffset(data), Decode(Payload(data)).value)]
  {
    var front := data[..HEADER + Size(data)];
    assert front + Rest(data) == data;
    assert front[..4] == data[..4] && front[4..12] == data[4..12];
    assert Payload(front) == Payload(data);
    assert Rest(front) == [];
    assert Scan(Rest(front)) == [] && ValidLength(Rest(front)) == 0;
  }

  /** Cutting a file at any byte can only drop records from the end, and drops none when
      the cut is past the valid part. */
  lemma {:induction false} CutKeepsPrefix(data: bytes, cut: nat)
    requires cut <= |data|
    ensures Scan(data[..cut]) <= Scan(data)
    ensures cut >= ValidLength(data) ==> Scan(data[..cut]) == Scan(data)
  {
    hide Codec.Decode;
    var torn := data[..cut];
    if Whole(data) && cut >= HEADER + Size(data) {
      CutWholeFrame(data, cut);
    }
    if Whole(torn) {
      assert torn + data[cut..] == data;
      FrontFrameAppend(torn, data[cut..]);
      CutKeepsPrefix(Rest(data), |Rest(torn)|);
      assert Rest(data)[..|Rest(torn)|] == Rest(torn);
    }
  }

  lemma CutWholeFrame(data: bytes, cut: nat)
    requires Whole(data) && HEADER + Size(data) <= cut <= |data|
    ensures Whole(data[..cut])
  {
    assert data[..cut][..4] == data[..4];
    assert Payload(data[..cut]) == Payload(data);
  }

  /** The first record with a given offset. */
  function FirstAt(records: seq<Record>, offset: Offset): ReadResult {
    if records == [] then OffsetNotFound
    else if records[0].offset == offset then Found(records[0])
    else FirstAt(records[1..], offset)
  }

  /** After recovery a read finds a record or reports the offset as absent; it never
      fails on a frame or a payload. */
  lemma {:induction false} ReadAfterRecover(data: bytes, offset: Offset)
    requires ValidLength(data) == |data|
    ensures Find(data, offset) == FirstAt(Scan(data), offset)
    ensures Find(data, offset).Found? || Find(data, offset).OffsetNotFound?
  {
    if Whole(data) && FrameOffset(data) != offset {
      ReadAfterRecover(Rest(data), offset);
    }
  }

  /** The records after the last one with the largest possible offset: that one wraps the
      next offset around to 0. */
  function AfterWrap(records: seq<Record>): (rest: seq<Record>)
    ensures |rest| <= |records|
    ensures (forall r :: r in records ==> r.offset + 1 < TWO64) ==> rest == records
    ensures forall r :: r in rest ==> r.offset + 1 < TWO64
  {
    if records == [] then []
    else
      var rest := AfterWrap(records[1..]);
      if |rest| < |records| - 1 || records[0].offset == TWO64 - 1 then rest else records
  }

  /** They are a suffix, cut off right after such a record. */
  lemma {:induction false} AfterWrapIsSuffix(records: seq<Record>)
    ensures var rest := AfterWrap(records);
      && rest == records[|records| - |rest|..]
      && (|rest| < |records| ==> records[|records| - |rest| - 1].offset == TWO64 - 1)
  {
    if records != [] { AfterWrapIsSuffix(records[1..]); }
  }

  /** The recovered next offset is one past the largest offset among the records after the
      last wrap-around, or, if there are none, 0 or the starting value. */
  lemma {:induction false} NextAfterIsPastLargest(records: seq<Record>, next: Offset)
    ensures var n, rest := NextAfter(records, next), AfterWrap(records);
      var base := if |rest| == |records| then next else 0;
      && base <= n
      && (forall r :: r in rest ==> r.offset < n)
      && (n == base || exists r :: r in rest && r.offset + 1 == n)
  {
    if records != [] {
      NextAfterIsPastLargest(records[1..], Bump(next, records[0].offset));
      assert records == [records[0]] + records[1..];
    }
  }

  /** After the valid part comes a complete frame that does not decode, so nothing appended
      later can be recovered. */
  predicate Dead(data: bytes) {
    HasFrame(data[ValidLength(data)..])
  }

  lemma {:induction false} DeadStays(data: bytes, more: bytes)
    requires Dead(data)
    ensures Dead(data + more)
    ensures Scan(data + more) == Scan(data) && ValidLength(data + more) == ValidLength(data) < |data|
  {
    hide Codec.Decode;
    if Whole(data) {
      FrontFrameAppend(data, more);
      assert Rest(data)[ValidLength(Rest(data))..] == data[ValidLength(data)..];
      DeadStays(Rest(data), more);
      assert Rest(data + more)[ValidLength(Rest(data + more))..] == (data + more)[ValidLength(data + more)..];
    } else {
      assert data[0..] == data;
      FrontFrameAppend(data, more);
      assert (data + more)[0..] == data + more;
    }
  }

  /** Reads of the records before such a frame still work. */
  lemma {:induction false} FindInValidPart(data: bytes, offset: Offset)
    requires FirstAt(Scan(data), offset).Found?
    ensures Find(data, offset) == FirstAt(Scan(data), offset)
  {
    hide Codec.Decode;
    if Whole(data) && FrameOffset(data) != offset {
      FindInValidPart(Rest(data), offset);
    }
  }

  // ------------------------------------------------- files written by appending records

  /** A record whose frame length is not truncated. */
  predicate Framable(r: Record) {
    Encode(r.message).Some? && |Encode(r.message).value| < TWO32
  }

  function FrameOf(r: Record): bytes
    requires Framable(r)
  {
    Frame(Encode(r.message).value, r.offset)
  }

  predicate AllFramable(records: seq<Record>) {
    forall i :: 0 <= i < |records| ==> Framable(records[i])
  }

  function FileOf(records: seq<Record>): bytes
    requires AllFramable(records)
  {
    if records == [] then []
    else FrameOf(records[0]) + FileOf(records[1..])
  }

  lemma FrontFrame(r: Record, more: bytes)
    requires Framable(r)
    ensures var data := FrameOf(r) + more;
      && HasFrame(data) && HEADER + Size(data) == |FrameOf(r)|
      && FrameOffset(data) == r.offset && Payload(data) == Encode(r.message).value && Rest(data) == more
  {
    hide Encode;
    FrontFrameBytes(Encode(r.message).value, r.offset, more);
  }

  lemma FrontFrameBytes(e: bytes, offset: Offset, more: bytes)
    requires |e| < TWO32
    ensures var data := Frame(e, offset) + more;
      && HasFrame(data) && Size(data) == |e|
      && FrameOffset(data) == offset && Payload(data) == e && Rest(data) == more
  {
    FrameHeader(e, offset, more);
    FourParts(U32(|e|), U64(offset), e, more);
    hide Size, FrameOffset, U32, U64;
  }

  lemma FrameHeader(e: bytes, offset: Offset, more: bytes)
    requires |e| < TWO32
    ensures var data := Frame(e, offset) + more;
      && data == U32(|e|) + U64(offset) + e + more
      && |data| == HEADER + |e| + |more| && Size(data) == |e| && FrameOffset(data) == offset
  {
    assert |e| % TWO32 == |e|;
    FourParts(U32(|e|), U64(offset), e, more);
    U32RoundTrip(|e|);
    U64RoundTrip(offset);
    hide U32, U64, FromU32, FromU64;
  }

  lemma FourParts(a: bytes, b: bytes, e: bytes, more: bytes)
    requires |a| == 4 && |b| == 8
    ensures var data := a + b + e + more;
      && data[..4] == a && data[4..12] == b
      && data[12..12 + |e|] == e && data[12 + |e|..] == more
  {
  }

  /** A written frame followed by anything: kept, with what follows, exactly when the
      payload is non-empty. */
  lemma FrameThen(r: Record, more: bytes)
    requires Framable(r)
    ensures var data := FrameOf(r) + more;
      if r.message.payload == [] then Scan(data) == [] && ValidLength(data) == 0 && Recovered(data) == []
      else && Scan(data) == [r] + Scan(more)
           && ValidLength(data) == |FrameOf(r)| + ValidLength(more)
           && Recovered(data) == FrameOf(r) + Recovered(more)
  {
    hide Codec.Decode;
    FrontFrame(r, more);
    DecodeEncode(r.message, []);
    assert Encode(r.message).value + [] == Encode(r.message).value;
  }

  /** An appended record survives recovery exactly when its payload is non-empty. If it is
      empty, neither it nor anything appended after it is kept. */
  lemma AppendSurvives(data: bytes, r: Record, more: bytes)
    requires ValidLength(data) == |data| && Framable(r)
    ensures Scan(data + FrameOf(r) + more) ==
      if r.message.payload == [] then Scan(data) else Scan(data) + [r] + Scan(more)
    ensures r.message.payload != [] && ValidLength(more) == |more| ==>
      ValidLength(data + FrameOf(r) + more) == |data + FrameOf(r) + more|
  {
    hide Scan, ValidLength, FrameOf;
    FrameThen(r, more);
    ScanAppend(data, FrameOf(r) + more);
    assert data + FrameOf(r) + more == data + (FrameOf(r) + more);
    assert Scan(data) + ([r] + Scan(more)) == Scan(data) + [r] + Scan(more);
  }

  /** Appending an empty payload makes a file dead. */
  lemma EmptyPayloadKills(data: bytes, r: Record)
    requires ValidLength(data) == |data| && Framable(r) && r.message.payload == []
    ensures Dead(data + FrameOf(r)) && Scan(data + FrameOf(r)) == Scan(data)
  {
    hide Scan, ValidLength, FrameOf, HasFrame;
    FrameThen(r, []);
    FrontFrame(r, []);
    assert FrameOf(r) + [] == FrameOf(r);
    ScanAppend(data, FrameOf(r));
    assert (data + FrameOf(r))[|data|..] == FrameOf(r);
    assert Scan(data) + [] == Scan(data);
  }

  /** The bytes `torn`, cut from the file of `records`, hold exactly the longest run of
      records that are completely on disk and have a payload. */
  ghost predicate LongestRun(records: seq<Record>, torn: bytes, cut: int)
    requires AllFramable(records)
  {
    var k := |Scan(torn)|;
    && k <= |records|
    && Scan(torn) == records[..k]
    && Recovered(torn) == FileOf(records[..k])
    && (forall i :: 0 <= i < k ==> records[i].message.payload != [])
    && (k < |records| ==> records[k].message.payload == [] || |FileOf(records[..k + 1])| > cut)
  }

  /** A crash that cuts a file of appended records at any byte: recovery keeps exactly the
      longest run of records that are completely on disk and have a payload. */
  lemma {:induction false} CrashRecovery(records: seq<Record>, cut: nat)
    requires AllFramable(records)
    requires cut <= |FileOf(records)|
    ensures LongestRun(records, FileOf(records)[..cut], cut)
  {
    hide Codec.Decode, Codec.Encode;
    if records == [] {
      assert FileOf(records)[..cut] == [];
    } else {
      var r, rest := records[0], records[1..];
      var frame := FrameOf(r);
      if cut < |frame| {
        TornFrame(r, FileOf(records)[..cut], FileOf(rest));
        assert FileOf(records[..1]) == frame + FileOf([]);
      } else {
        var tail := FileOf(rest)[..cut - |frame|];
        assert FileOf(records)[..cut] == frame + tail;
        CrashRecovery(rest, cut - |frame|);
        LongestRunCons(records, tail, cut);
      }
    }
  }

  lemma LongestRunCons(records: seq<Record>, tail: bytes, cut: int)
    requires records != [] && AllFramable(records)
    requires LongestRun(records[1..], tail, cut - |FrameOf(records[0])|)
    ensures LongestRun(records, FrameOf(records[0]) + tail, cut)
  {
    hide Scan, ValidLength, Recovered, FrameOf;
    var r, rest := records[0], records[1..];
    FrameThen(r, tail);
    if r.message.payload != [] {
      var k := |Scan(tail)|;
      FileOfCons(records, k);
      if k < |rest| { FileOfCons(records, k + 1); }
    }
  }

  lemma FileOfCons(records: seq<Record>, k: nat)
    requires AllFramable(records) && k < |records|
    ensures records[..k + 1] == [records[0]] + records[1..][..k]
    ensures FileOf(records[..k + 1]) == FrameOf(records[0]) + FileOf(records[1..][..k])
  {
    assert records[..k + 1][1..] == records[1..][..k];
  }

  /** A frame cut short is not a frame. */
  lemma TornFrame(r: Record, torn: bytes, more: bytes)
    requires Framable(r)
    requires |torn| < |FrameOf(r)| && torn <= FrameOf(r) + more
    ensures !HasFrame(torn)
  {
    hide Codec.Decode;
    if |torn| >= HEADER {
      FrontFrame(r, more);
      var data := FrameOf(r) + more;
      assert torn[..4] == data[..4];
    }
  }

}
