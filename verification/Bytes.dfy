/** Byte strings, big-endian integers and the option type the other modules share. */
module Bytes {

  datatype Option<+T> = None | Some(value: T) {
    predicate IsFailure() { None? }
    function PropagateFailure<U>(): Option<U>
      requires None?
    {
      None
    }
    function Extract(): T
      requires Some?
    {
      value
    }
  }

  type byte = x: int | 0 <= x < 0x100
  type bytes = seq<byte>

  const TWO32: int := 0x1_0000_0000
  const TWO64: int := 0x1_0000_0000_0000_0000

  /** An unsigned 64-bit log offset. */
  type Offset = x: int | 0 <= x < TWO64

  function Zeros(n: nat): (r: bytes)
    ensures |r| == n && forall i :: 0 <= i < n ==> r[i] == 0
  {
    seq(n, i => 0)
  }

  function U32(n: nat): (r: bytes)
    requires n < TWO32
    ensures |r| == 4
  {
    [n / 0x100_0000, n / 0x1_0000 % 0x100, n / 0x100 % 0x100, n % 0x100]
  }

  function FromU32(b: bytes): (n: nat)
    requires |b| == 4
    ensures n < TWO32
  {
    (b[0] as int) * 0x100_0000 + (b[1] as int) * 0x1_0000 + (b[2] as int) * 0x100 + b[3]
  }

  function U64(n: Offset): (r: bytes)
    ensures |r| == 8
  {
    U32(n / TWO32) + U32(n % TWO32)
  }

  function FromU64(b: bytes): (n: Offset)
    requires |b| == 8
  {
    FromU32(b[..4]) * TWO32 + FromU32(b[4..])
  }

  lemma U32RoundTrip(n: nat)
    requires n < TWO32
    ensures FromU32(U32(n)) == n
  {
    assert n / 0x1_0000 == n / 0x100_0000 * 0x100 + n / 0x1_0000 % 0x100;
    assert n / 0x100 == n / 0x1_0000 * 0x100 + n / 0x100 % 0x100;
  }

  /** Byte i of a 32-bit integer has weight 256^(3-i). */
  lemma BigEndian32(n: nat)
    requires n < TWO32
    ensures var b := U32(n);
      (b[0] as int) * 0x100_0000 + (b[1] as int) * 0x1_0000 + (b[2] as int) * 0x100 + (b[3] as int) == n
  {
    U32RoundTrip(n);
  }

  lemma FromBigEndian32(b: bytes)
    requires |b| == 4
    ensures FromU32(b) ==
      (b[0] as int) * 0x100_0000 + (b[1] as int) * 0x1_0000 + (b[2] as int) * 0x100 + (b[3] as int)
  {
  }

  /** A 64-bit integer is its high half followed by its low half. */
  lemma BigEndian64(n: Offset)
    ensures U64(n)[..4] == U32(n / TWO32) && U64(n)[4..] == U32(n % TWO32)
  {
    hide U32;
  }

  lemma FromBigEndian64(b: bytes)
    requires |b| == 8
    ensures FromU64(b) == FromU32(b[..4]) * TWO32 + FromU32(b[4..])
  {
  }

  lemma LowByte(high: nat, low: nat)
    requires low < 0x100
    ensures (high * 0x100 + low) / 0x100 == high && (high * 0x100 + low) % 0x100 == low
  {
  }

  lemma U32Again(b: bytes)
    requires |b| == 4
    ensures U32(FromU32(b)) == b
  {
    var b0, b1, b2, b3 := b[0] as int, b[1] as int, b[2] as int, b[3] as int;
    var n := FromU32(b);
    var n2, n1 := b0 * 0x1_0000 + b1 * 0x100 + b2, b0 * 0x100 + b1;
    assert n == n2 * 0x100 + b3 && n2 == n1 * 0x100 + b2;
    LowByte(n2, b3);
    LowByte(n1, b2);
    LowByte(b0, b1);
    assert n / 0x1_0000 == n / 0x100 / 0x100 && n / 0x100_0000 == n / 0x1_0000 / 0x100;
    assert U32(n) == [b0, b1, b2, b3];
  }

  lemma U64Again(b: bytes)
    requires |b| == 8
    ensures U64(FromU64(b)) == b
  {
    var high, low := FromU32(b[..4]), FromU32(b[4..]);
    U32Again(b[..4]);
    U32Again(b[4..]);
    hide U32, FromU32;
    assert (high * TWO32 + low) / TWO32 == high && (high * TWO32 + low) % TWO32 == low;
    assert b[..4] + b[4..] == b;
  }

  lemma U64RoundTrip(n: Offset)
    ensures FromU64(U64(n)) == n
  {
    U32RoundTrip(n / TWO32);
    U32RoundTrip(n % TWO32);
    assert U64(n)[..4] == U32(n / TWO32);
    assert U64(n)[4..] == U32(n % TWO32);
  }
}
