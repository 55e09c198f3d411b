/** The message codec: four length-prefixed fields, written to a buffer and read back
    from a byte reader. The functions are the specification; `Buffer` and `Reader` are
    the stateful forms the program uses. */
module Codec {
  import opened Bytes

  datatype Message = Message(topic: bytes, id: bytes, routingKey: bytes, payload: bytes)

  /** The fields of a message in wire order. */
  function Fields(m: Message): seq<bytes> {
    [m.id, m.topic, m.routingKey, m.payload]
  }

  // ---------------------------------------------------------------- encoding

  /** A field is refused when its length does not fit 32 bits. */
  predicate Fits(vs: seq<bytes>) {
    forall i :: 0 <= i < |vs| ==> |vs[i]| < TWO32
  }

  function EncodeFields(vs: seq<bytes>): bytes
    requires Fits(vs)
  {
    if vs == [] then [] else U32(|vs[0]|) + vs[0] + EncodeFields(vs[1..])
  }

  function Encode(m: Message): Option<bytes> {
    if Fits(Fields(m)) then Some(EncodeFields(Fields(m))) else None
  }

  // ---------------------------------------------------------------- decoding

  /** One field from the unread bytes, with what is left after it. The length needs
      four bytes. The value is read with a single `Read`, which reports end-of-file
      when nothing is left, even for an empty value, and which accepts a short read:
      the missing bytes stay zero. */
  function ReadField(data: bytes): Option<(bytes, bytes)> {
    if |data| <= 4 then None
    else
      var size := FromU32(data[..4]);
      var n := if size <= |data| - 4 then size else |data| - 4;
      Some((data[4..4 + n] + Zeros(size - n), data[4 + n..]))
  }

  function ReadFields(data: bytes, n: nat): (r: Option<seq<bytes>>)
    ensures r.Some? ==> |r.value| == n
  {
    if n == 0 then Some([])
    else match ReadField(data)
      case None => None
      case Some((v, rest)) =>
        Prepend([v], ReadFields(rest, n - 1))
  }

  function Prepend(vs: seq<bytes>, r: Option<seq<bytes>>): Option<seq<bytes>> {
    match r
    case None => None
    case Some(ws) => Some(vs + ws)
  }

  function Decode(data: bytes): Option<Message> {
    var (id, data) :- ReadField(data);
    var (topic, data) :- ReadField(data);
    var (routingKey, data) :- ReadField(data);
    var (payload, _) :- ReadField(data);
    Some(Message(topic, id, routingKey, payload))
  }

  // ---------------------------------------------------------------- properties

  /** A field followed by something unread is read back exactly. */
  lemma ReadFieldWhole(v: bytes, rest: bytes)
    requires |v| < TWO32
    requires v + rest != []
    ensures ReadField(U32(|v|) + v + rest) == Some((v, rest))
  {
    U32RoundTrip(|v|);
    var data := U32(|v|) + v + rest;
    assert data[..4] == U32(|v|);
    assert data[4..4 + |v|] + Zeros(0) == v;
    assert data[4 + |v|..] == rest;
  }

  /** A field cut short: fewer than five bytes do not read; otherwise the value is padded
      with zeros and nothing is left. */
  lemma ReadFieldTorn(v: bytes, cut: nat)
    requires |v| < TWO32
    requires cut <= 4 + |v|
    ensures cut <= 4 ==> ReadField((U32(|v|) + v)[..cut]) == None
    ensures cut > 4 ==> ReadField((U32(|v|) + v)[..cut]) == Some((v[..cut - 4] + Zeros(4 + |v| - cut), []))
  {
    if cut > 4 {
      U32RoundTrip(|v|);
      var data := U32(|v|) + v[..cut - 4];
      assert (U32(|v|) + v)[..cut] == data;
      assert data[..4] == U32(|v|);
      assert data[4..cut] == v[..cut - 4];
      assert data[cut..] == [];
    }
  }

  /** Everything after the first field of an encoding. */
  lemma EncodeFieldsSplit(vs: seq<bytes>)
    requires vs != [] && Fits(vs)
    ensures Fits(vs[1..])
    ensures EncodeFields(vs) == U32(|vs[0]|) + vs[0] + EncodeFields(vs[1..])
    ensures |EncodeFields(vs)| == 4 + |vs[0]| + |EncodeFields(vs[1..])|
    ensures |vs| > 1 ==> |EncodeFields(vs[1..])| >= 4 + |vs[|vs| - 1]|
    ensures |EncodeFields(vs)| >= 4 + |vs[|vs| - 1]|
  {
    if |vs| > 1 { EncodeFieldsSplit(vs[1..]); }
  }

  /** Fields followed by trailing bytes read back exactly, unless the last one is empty
      and nothing follows. */
  lemma {:induction false} ReadFieldsWhole(vs: seq<bytes>, t: bytes)
    requires vs != [] && Fits(vs)
    requires vs[|vs| - 1] + t != []
    ensures ReadFields(EncodeFields(vs) + t, |vs|) == Some(vs)
  {
    EncodeFieldsSplit(vs);
    var rest := EncodeFields(vs[1..]) + t;
    assert EncodeFields(vs) + t == U32(|vs[0]|) + vs[0] + rest;
    ReadFieldWhole(vs[0], rest);
    if |vs| > 1 {
      ReadFieldsWhole(vs[1..], t);
    } else {
      assert ReadFields(rest, 0) == Some([]);
    }
    assert [vs[0]] + vs[1..] == vs;
  }

  /** What an encoding cut at any byte reads back as: nothing, unless at least one byte
      of the last value is present; the rest of that value then comes back as zeros. */
  ghost function TornFields(vs: seq<bytes>, cut: nat): Option<seq<bytes>>
    requires vs != [] && Fits(vs) && cut <= |EncodeFields(vs)|
  {
    EncodeFieldsSplit(vs);
    var last := vs[|vs| - 1];
    var fixed := |EncodeFields(vs)| - |last|;
    if cut <= fixed then None
    else Some(vs[..|vs| - 1] + [last[..cut - fixed] + Zeros(|EncodeFields(vs)| - cut)])
  }

  lemma {:induction false} ReadFieldsTorn(vs: seq<bytes>, cut: nat)
    requires vs != [] && Fits(vs) && cut <= |EncodeFields(vs)|
    ensures ReadFields(EncodeFields(vs)[..cut], |vs|) == TornFields(vs, cut)
  {
    EncodeFieldsSplit(vs);
    var v := vs[0];
    if |vs| == 1 {
      TornLastField(v, cut);
      assert vs == [v];
    } else if cut <= 4 + |v| {
      TornEarlyField(vs, cut);
    } else {
      var tail := EncodeFields(vs[1..])[..cut - 4 - |v|];
      assert EncodeFields(vs)[..cut] == U32(|v|) + v + tail;
      ReadFieldWhole(v, tail);
      ReadFieldsCons(EncodeFields(vs)[..cut], v, tail, |vs| - 1);
      ReadFieldsTorn(vs[1..], cut - 4 - |v|);
      TornFieldsCons(vs, cut);
    }
  }

  lemma TornLastField(v: bytes, cut: nat)
    requires Fits([v]) && cut <= |EncodeFields([v])|
    ensures ReadFields(EncodeFields([v])[..cut], 1) == TornFields([v], cut)
  {
    assert EncodeFields([v]) == U32(|v|) + v;
    ReadFieldTorn(v, cut);
    if cut > 4 {
      var torn := v[..cut - 4] + Zeros(4 + |v| - cut);
      ReadFieldsCons(EncodeFields([v])[..cut], torn, [], 0);
      assert [torn] + [] == [v][..0] + [torn];
    }
  }

  lemma TornEarlyField(vs: seq<bytes>, cut: nat)
    requires |vs| > 1 && Fits(vs) && cut <= 4 + |vs[0]| && cut <= |EncodeFields(vs)|
    ensures ReadFields(EncodeFields(vs)[..cut], |vs|) == None == TornFields(vs, cut)
  {
    EncodeFieldsSplit(vs);
    assert EncodeFields(vs)[..cut] == (U32(|vs[0]|) + vs[0])[..cut];
    ReadFieldTorn(vs[0], cut);
    assert ReadFields([], |vs| - 1) == None;
  }

  lemma TornFieldsCons(vs: seq<bytes>, cut: nat)
    requires |vs| > 1 && Fits(vs) && 4 + |vs[0]| < cut <= |EncodeFields(vs)|
    ensures cut - 4 - |vs[0]| <= |EncodeFields(vs[1..])|
    ensures TornFields(vs, cut) == Prepend([vs[0]], TornFields(vs[1..], cut - 4 - |vs[0]|))
  {
    EncodeFieldsSplit(vs);
    var init := vs[1..][..|vs| - 2];
    assert [vs[0]] + init == vs[..|vs| - 1];
    assert forall x: bytes :: [vs[0]] + (init + [x]) == vs[..|vs| - 1] + [x];
  }

  lemma ReadFieldsCons(data: bytes, v: bytes, rest: bytes, n: nat)
    requires ReadField(data) == Some((v, rest))
    ensures ReadFields(data, n + 1) ==
      Prepend([v], ReadFields(rest, n))
  {
  }

  /** The four fields of a message, read one after the other. */
  lemma DecodeFourFields(data: bytes)
    ensures Decode(data) == match ReadFields(data, 4)
      case None => None
      case Some(vs) => Some(Message(vs[1], vs[0], vs[2], vs[3]))
  {
    var r1 := ReadField(data);
    if r1.Some? {
      ReadFieldsCons(data, r1.value.0, r1.value.1, 3);
      var r2 := ReadField(r1.value.1);
      if r2.Some? {
        ReadFieldsCons(r1.value.1, r2.value.0, r2.value.1, 2);
        var r3 := ReadField(r2.value.1);
        if r3.Some? {
          ReadFieldsCons(r2.value.1, r3.value.0, r3.value.1, 1);
          var r4 := ReadField(r3.value.1);
          if r4.Some? {
            ReadFieldsCons(r3.value.1, r4.value.0, r4.value.1, 0);
          }
        }
      }
    }
  }

  lemma EncodeFieldsSnoc(vs: seq<bytes>, v: bytes)
    requires Fits(vs) && |v| < TWO32
    ensures EncodeFields(vs + [v]) == EncodeFields(vs) + U32(|v|) + v
  {
    if vs == [] {
      assert EncodeFields([v]) == U32(|v|) + v + EncodeFields([]);
    } else {
      EncodeFieldsSnoc(vs[1..], v);
      assert (vs + [v])[1..] == vs[1..] + [v];
    }
  }

  /** Appending the next field to what is already in a buffer. */
  lemma EncodeNextField(vs: seq<bytes>, i: nat)
    requires i < |vs| && Fits(vs[..i]) && |vs[i]| < TWO32
    ensures Fits(vs[..i + 1])
    ensures EncodeFields(vs[..i + 1]) == EncodeFields(vs[..i]) + U32(|vs[i]|) + vs[i]
  {
    EncodeFieldsSnoc(vs[..i], vs[i]);
    assert vs[..i] + [vs[i]] == vs[..i + 1];
  }

  /** Decoding undoes encoding, whatever follows, exactly when the payload or the
      trailing bytes are non-empty. An empty payload in last position does not decode. */
  lemma DecodeEncode(m: Message, t: bytes)
    requires Encode(m).Some?
    ensures Decode(Encode(m).value + t) == if m.payload == [] && t == [] then None else Some(m)
  {
    var vs := Fields(m);
    DecodeFourFields(Encode(m).value + t);
    if m.payload == [] && t == [] {
      assert Encode(m).value + t == Encode(m).value[..|Encode(m).value|];
      ReadFieldsTorn(vs, |EncodeFields(vs)|);
    } else {
      ReadFieldsWhole(vs, t);
    }
  }

  /** A truncated encoding still decodes as soon as one payload byte is left, with the
      lost bytes read as zeros: the codec alone does not reject torn records. */
  lemma DecodeTorn(m: Message, cut: nat)
    requires Encode(m).Some? && cut <= |Encode(m).value|
    ensures
      var fixed := |Encode(m).value| - |m.payload|;
      0 <= fixed &&
      Decode(Encode(m).value[..cut]) ==
        if cut <= fixed then None
        else Some(m.(payload := m.payload[..cut - fixed] + Zeros(|Encode(m).value| - cut)))
  {
    DecodeFourFields(Encode(m).value[..cut]);
    EncodeFieldsSplit(Fields(m));
    ReadFieldsTorn(Fields(m), cut);
  }

  /** The wire format: ID, topic, routing key and payload, each after its 32-bit length; a
      message is refused exactly when one of them is too long. */
  lemma WireFormat(m: Message)
    ensures Encode(m).Some? <==>
      |m.id| < TWO32 && |m.topic| < TWO32 && |m.routingKey| < TWO32 && |m.payload| < TWO32
    ensures Encode(m).Some? ==>
      Encode(m).value ==
        U32(|m.id|) + m.id + U32(|m.topic|) + m.topic +
        U32(|m.routingKey|) + m.routingKey + U32(|m.payload|) + m.payload
  {
    var vs := Fields(m);
    assert vs[0] == m.id && vs[1] == m.topic && vs[2] == m.routingKey && vs[3] == m.payload;
    if Fits(vs) {
      hide U32;
      var v1: seq<bytes> := vs[1..];
      var v2: seq<bytes> := v1[1..];
      var v3: seq<bytes> := v2[1..];
      EncodeFieldsSplit(vs);
      EncodeFieldsSplit(v1);
      EncodeFieldsSplit(v2);
      EncodeFieldsSplit(v3);
      assert |v3[1..]| == 0;
    }
  }

  /** Distinct messages have distinct encodings. */
  lemma EncodeInjective(m1: Message, m2: Message)
    requires Encode(m1).Some? && Encode(m1) == Encode(m2)
    ensures m1 == m2
  {
    DecodeEncode(m1, [0]);
    DecodeEncode(m2, [0]);
  }

  // ---------------------------------------------------------------- stateful forms

  /** A growing output buffer. */
  class Buffer {
    var content: bytes

    constructor ()
      ensures content == []
    {
      content := [];
    }

    method WriteBytes(value: bytes) returns (ok: bool)
      modifies this
      ensures ok == (|value| < TWO32)
      ensures content == if ok then old(content) + U32(|value|) + value else old(content)
    {
      if |value| > TWO32 - 1 {
        return false;
      }
      content := content + U32(|value|);
      content := content + value;
      ok := true;
    }
  }

  lemma SliceOfSuffix(data: bytes, pos: nat, n: nat)
    requires pos + 4 + n <= |data|
    ensures data[pos..][4..4 + n] == data[pos + 4..pos + 4 + n]
    ensures data[pos..][4 + n..] == data[pos + 4 + n..]
  {
  }

  /** A read position in a fixed byte string. */
  class Reader {
    const data: bytes
    var pos: nat

    ghost predicate Valid()
      reads this
    {
      pos <= |data|
    }

    ghost function Unread(): bytes
      requires Valid()
      reads this
    {
      data[pos..]
    }

    constructor (data: bytes)
      ensures Valid() && this.data == data && Unread() == data
    {
      this.data := data;
      pos := 0;
    }

    method ReadBytes() returns (r: Option<bytes>)
      requires Valid()
      modifies this
      ensures Valid()
      ensures r.None? <==> ReadField(old(Unread())) == None
      ensures r.Some? ==> ReadField(old(Unread())) == Some((r.value, Unread()))
    {
      if |data| - pos < 4 {
        pos := |data|;
        return None;
      }
      assert data[pos..pos + 4] == data[pos..][..4];
      var size := FromU32(data[pos..pos + 4]);
      pos := pos + 4;
      if pos >= |data| {
        return None;
      }
      var n := if size <= |data| - pos then size else |data| - pos;
      SliceOfSuffix(data, pos - 4, n);
      r := Some(data[pos..pos + n] + Zeros(size - n));
      pos := pos + n;
    }
  }

  /** Writes the next of the fields `vs` to a buffer holding those before it. */
  method WriteField(buf: Buffer, ghost vs: seq<bytes>, ghost i: nat, value: bytes) returns (ok: bool)
    requires i < |vs| && value == vs[i]
    requires Fits(vs[..i]) && buf.content == EncodeFields(vs[..i])
    modifies buf
    ensures ok ==> Fits(vs[..i + 1]) && buf.content == EncodeFields(vs[..i + 1])
    ensures !ok ==> !Fits(vs)
  {
    ok := buf.WriteBytes(value);
    if ok { EncodeNextField(vs, i); }
  }

  method EncodeMessage(m: Message) returns (r: Option<bytes>)
    ensures r == Encode(m)
  {
    ghost var vs := Fields(m);
    var buf := new Buffer();
    var ok := WriteField(buf, vs, 0, m.id);
    if !ok { return None; }
    ok := WriteField(buf, vs, 1, m.topic);
    if !ok { return None; }
    ok := WriteField(buf, vs, 2, m.routingKey);
    if !ok { return None; }
    ok := WriteField(buf, vs, 3, m.payload);
    if !ok { return None; }
    assert vs[..4] == vs;
    r := Some(buf.content);
  }

  method DecodeMessage(data: bytes) returns (r: Option<Message>)
    ensures r == Decode(data)
  {
    var reader := new Reader(data);
    var id := reader.ReadBytes();
    if id.None? { return None; }
    var topic := reader.ReadBytes();
    if topic.None? { return None; }
    var routingKey := reader.ReadBytes();
    if routingKey.None? { return None; }
    var payload := reader.ReadBytes();
    if payload.None? { return None; }
    r := Some(Message(topic.value, id.value, routingKey.value, payload.value));
  }
}
