/** The segment file as the program drives it: a byte string, a read cursor, appends that
    always go to the end, and the two scan loops. */
module SegmentStores {
  import opened Bytes
  import opened Codec
  import opened SegmentLog

  datatype Chunk = EndOfFile | ShortRead | Full(data: bytes)

  datatype FrameRead = NoMore | Torn | Got(offset: Offset, payload: bytes)

  /** An open segment file. Writes go to the end whatever the cursor says, as the file is
      opened for appending. */
  class SegmentStore {
    /** The partition the file's path names. */
    const partition: int
    var content: bytes
    var cursor: nat

    ghost predicate Valid()
      reads this
    {
      cursor <= |content|
    }

    constructor (partition: int, content: bytes)
      ensures Valid() && this.partition == partition && this.content == content
    {
      this.partition := partition;
      this.content := content;
      cursor := 0;
    }

    method Write(data: bytes)
      modifies this
      ensures Valid() && content == old(content) + data
    {
      content := content + data;
      cursor := |content|;
    }

    /** Reads exactly `n` bytes, or says why it could not. */
    method ReadFull(n: nat) returns (r: Chunk)
      requires Valid()
      modifies this`cursor
      ensures Valid()
      ensures r.Full? <==> old(cursor) + n <= |content|
      ensures r.Full? ==> r.data == content[old(cursor)..old(cursor) + n] && cursor == old(cursor) + n
      ensures r.EndOfFile? <==> n > 0 && old(cursor) == |content|
    {
      if cursor + n <= |content| {
        r := Full(content[cursor..cursor + n]);
        cursor := cursor + n;
      } else if cursor == |content| {
        r := EndOfFile;
      } else {
        r := ShortRead;
        cursor := |content|;
      }
    }

    /** Appends the frame of a record, or refuses a message that does not encode. */
    method Append(record: Record) returns (ok: bool)
      requires Valid()
      modifies this
      ensures Valid()
      ensures ok == Encode(record.message).Some?
      ensures content == if ok then old(content) + Frame(Encode(record.message).value, record.offset)
                         else old(content)
    {
      hide Codec.Encode;
      var payload := EncodeMessage(record.message);
      if payload.None? {
        return false;
      }
      Write(U32(|payload.value| % TWO32) + U64(record.offset));
      Write(payload.value);
      ok := true;
    }

    ghost function Unread(): bytes
      requires Valid()
      reads this
    {
      content[cursor..]
    }

    /** Reads a header and the payload it announces. */
    method ReadFrame() returns (r: FrameRead)
      requires Valid()
      modifies this`cursor
      ensures Valid()
      ensures r.NoMore? <==> old(Unread()) == []
      ensures r.Torn? <==> old(Unread()) != [] && !HasFrame(old(Unread()))
      ensures r.Got? ==> HasFrame(old(Unread()))
      ensures r.Got? ==> r.offset == FrameOffset(old(Unread())) && r.payload == Payload(old(Unread()))
      ensures r.Got? ==> Unread() == Rest(old(Unread())) && cursor == old(cursor) + HEADER + |r.payload|
    {
      var header := ReadFull(HEADER);
      if header.EndOfFile? {
        return NoMore;
      }
      if !header.Full? {
        return Torn;
      }
      HeaderAt(content, cursor - HEADER);
      var size := FromU32(header.data[0..4]);
      var recordOffset := FromU64(header.data[4..12]);
      var payload := ReadFull(size);
      if !payload.Full? {
        return Torn;
      }
      PayloadAt(content, cursor - HEADER - size);
      r := Got(recordOffset, payload.data);
    }

    method Read(offset: Offset) returns (r: ReadResult)
      requires Valid()
      modifies this`cursor
      ensures Valid()
      ensures r == Find(content, offset)
    {
      hide Codec.Decode;
      cursor := 0;
      ghost var rest := content;
      while true
        invariant Valid() && rest == Unread()
        invariant Find(content, offset) == Find(rest, offset)
        decreases |rest|
      {
        var frame := ReadFrame();
        if frame.NoMore? {
          return OffsetNotFound;
        }
        if frame.Torn? {
          return BadFrame;
        }
        if frame.offset != offset {
          rest := Rest(rest);
          continue;
        }
        var message := DecodeMessage(frame.payload);
        if message.None? {
          return BadPayload;
        }
        return Found(Record(frame.offset, message.value));
      }
    }

    /** Keeps the longest run of whole, decodable frames and returns the next offset. */
    method Recover() returns (nextOffset: Offset)
      requires Valid()
      modifies this
      ensures Valid()
      ensures content == Recovered(old(content))
      ensures nextOffset == NextAfter(Scan(old(content)), 0)
    {
      hide Codec.Decode;
      cursor := 0;
      nextOffset := 0;
      var validBytes := 0;
      ghost var rest := content;
      while true
        invariant Valid() && content == old(content) && cursor == validBytes && rest == Unread()
        invariant validBytes + ValidLength(rest) == ValidLength(content)
        invariant NextAfter(Scan(rest), nextOffset) == NextAfter(Scan(content), 0)
        decreases |rest|
      {
        var frame := ReadFrame();
        if !frame.Got? {
          break;
        }
        var message := DecodeMessage(frame.payload);
        if message.None? {
          break;
        }
        ScanStep(rest, nextOffset);
        validBytes := validBytes + HEADER + |frame.payload|;
        if frame.offset >= nextOffset {
          nextOffset := (frame.offset + 1) % TWO64;
        }
        rest := Rest(rest);
      }
      content := content[..validBytes];
      cursor := |content|;
    }
  }

  lemma ScanStep(data: bytes, next: Offset)
    requires Whole(data)
    ensures NextAfter(Scan(data), next) == NextAfter(Scan(Rest(data)), Bump(next, FrameOffset(data)))
    ensures ValidLength(data) == HEADER + Size(data) + ValidLength(Rest(data))
  {
    hide Codec.Decode;
    assert Scan(data)[1..] == Scan(Rest(data));
  }

  lemma HeaderAt(content: bytes, at: nat)
    requires at + HEADER <= |content|
    ensures |content[at..]| >= HEADER
    ensures Size(content[at..]) == FromU32(content[at..at + HEADER][0..4])
    ensures FrameOffset(content[at..]) == FromU64(content[at..at + HEADER][4..12])
  {
    assert content[at..][..4] == content[at..at + 4] == content[at..at + HEADER][0..4];
    assert content[at..][4..12] == content[at + 4..at + 12];
    assert content[at..at + HEADER][4..12] == content[at + 4..at + 12];
  }

  lemma PayloadAt(content: bytes, at: nat)
    requires at + HEADER <= |content| && at + HEADER + Size(content[at..]) <= |content|
    ensures HasFrame(content[at..])
    ensures Payload(content[at..]) == content[at + HEADER..at + HEADER + Size(content[at..])]
    ensures Rest(content[at..]) == content[at + HEADER + Size(content[at..])..]
  {
  }
}
