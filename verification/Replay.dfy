/** The streamer: sharding of the input rows, endless replay with a sequence number, and
    retries with exponential backoff. */
module Replay {
  import opened Arithmetic
  import opened Bytes

  // ---------------------------------------------------------------- sharding

  /** The rows whose index is `i` modulo `k`. */
  function Shard<T>(records: seq<T>, i: int, k: int): seq<T>
    requires k > 0
  {
    if records == [] then []
    else
      var n := |records| - 1;
      Shard(records[..n], i, k) + if n % k == i then [records[n]] else []
  }

  method RecordsForShard<T>(records: seq<T>, shardIndex: int, shardCount: int) returns (r: Option<seq<T>>)
    ensures shardCount <= 0 || !(0 <= shardIndex < shardCount) ==> r == None
    ensures shardCount == 1 && shardIndex == 0 ==> r == Some(records)
    ensures shardCount > 1 && 0 <= shardIndex < shardCount ==>
      r == if Shard(records, shardIndex, shardCount) == [] then None else Some(Shard(records, shardIndex, shardCount))
  {
    if shardCount <= 0 {
      return None;
    }
    if shardIndex < 0 || shardIndex >= shardCount {
      return None;
    }
    if shardCount == 1 {
      return Some(records);
    }
    var shard := [];
    for index := 0 to |records|
      invariant shard == Shard(records[..index], shardIndex, shardCount)
    {
      assert records[..index + 1][..index] == records[..index];
      if index % shardCount == shardIndex {
        shard := shard + [records[index]];
      }
    }
    assert records[..|records|] == records;
    if |shard| == 0 {
      return None;
    }
    r := Some(shard);
  }

  /** Row q of shard i is row q*k + i of the input, for every row the input has. */
  lemma {:induction false} ShardRow<T>(records: seq<T>, i: int, k: int, q: nat)
    requires 0 <= i < k
    ensures q < |Shard(records, i, k)| <==> q * k + i < |records|
    ensures q < |Shard(records, i, k)| ==> 0 <= q * k + i && Shard(records, i, k)[q] == records[q * k + i]
    decreases |records|, 1
  {
    MultipleIsLarge(q, k);
    if records != [] {
      var n := |records| - 1;
      var before := Shard(records[..n], i, k);
      ShardRow(records[..n], i, k, q);
      if n % k == i {
        ShardNextRow(records[..n], i, k);
        SameRow(n, i, k, |before|, q);
      } else if q * k + i == n {
        ModUnique(n, k, q, i);
        assert false;
      }
    }
  }

  /** The next row of the residue class goes to the next free position of its shard. */
  lemma ShardNextRow<T>(records: seq<T>, i: int, k: int)
    requires 0 <= i < k && |records| % k == i
    ensures |Shard(records, i, k)| * k + i == |records|
    decreases |records|, 2
  {
    var n, c := |records|, |Shard(records, i, k)|;
    ShardRow(records, i, k, c);
    if c > 0 {
      ShardRow(records, i, k, c - 1);
      Distribute(c, 1, k);
    }
    NextInClass(n, k, i, c);
  }

  lemma SameRow(n: int, i: int, k: int, c: nat, q: nat)
    requires 0 <= i < k && c * k + i == n
    ensures q * k + i == n <==> q == c
  {
    Distribute(q, c, k);
    MultipleIsLarge(q - c, k);
  }

  /** The shards interleave back to the input: row r is row r / k of shard r mod k. */
  lemma ShardsInterleave<T>(records: seq<T>, k: int, r: nat)
    requires k > 0 && r < |records|
    ensures 0 <= r / k < |Shard(records, r % k, k)| && Shard(records, r % k, k)[r / k] == records[r]
  {
    DivMod(r, k);
    ShardRow(records, r % k, k, r / k);
  }

  /** No row is in two places: distinct (shard, position) pairs are distinct rows. */
  lemma ShardsDisjoint(k: int, i1: int, q1: nat, i2: int, q2: nat)
    requires 0 <= i1 < k && 0 <= i2 < k && q1 * k + i1 == q2 * k + i2
    ensures i1 == i2 && q1 == q2
  {
    ModUnique(q1 * k + i1, k, q1, i1);
    ModUnique(q1 * k + i1, k, q2, i2);
    SameRow(q1 * k + i1, i1, k, q1, q2);
  }

  // ---------------------------------------------------------------- replay

  /** j modulo n, by repeated subtraction. */
  function Row(j: nat, n: nat): (r: nat)
    requires n > 0
    ensures r < n
  {
    if j < n then j else Row(j - n, n)
  }

  lemma {:induction false} RowIsMod(j: nat, n: nat)
    requires n > 0
    ensures Row(j, n) == j % n
  {
    if j < n {
      ModUnique(j, n, 0, j);
    } else {
      RowIsMod(j - n, n);
      DivMod(j - n, n);
      Distribute((j - n) / n, 1, n);
      ModUnique(j, n, (j - n) / n + 1, (j - n) % n);
    }
  }

  lemma {:induction false} RowNext(j: nat, n: nat)
    requires n > 0
    ensures Row(j + 1, n) == if Row(j, n) + 1 == n then 0 else Row(j, n) + 1
  {
    if j >= n { RowNext(j - n, n); }
  }

  /** What the j-th publish carries: a row of the shard and a 64-bit sequence number. */
  function Item<T>(shard: seq<T>, j: nat): (T, Offset)
    requires shard != []
  {
    (shard[Row(j, |shard|)], j % TWO64)
  }

  /** It is row j mod n, with sequence number j until that wraps. */
  lemma ItemIsCyclic<T>(shard: seq<T>, j: nat)
    requires shard != []
    ensures 0 <= j % |shard| < |shard|
    ensures Item(shard, j) == (shard[j % |shard|], j % TWO64)
    ensures j < TWO64 ==> Item(shard, j).1 == j
  {
    RowIsMod(j, |shard|);
  }

  /** Replays the shard round after round; the context ends after `budget` publishes. */
  method ReplayShard<T>(shard: seq<T>, budget: nat) returns (published: seq<(T, Offset)>)
    requires shard != []
    ensures |published| == budget
    ensures forall j :: 0 <= j < budget ==> published[j] == Item(shard, j)
  {
    hide Row, Item;
    published := [];
    var sequence := 0;
    FirstRow(|shard|);
    while |published| < budget
      invariant |published| <= budget && sequence == |published| % TWO64
      invariant |published| < budget ==> Row(|published|, |shard|) == 0
      invariant forall j :: 0 <= j < |published| ==> published[j] == Item(shard, j)
      decreases budget - |published|
    {
      var row := 0;
      ghost var start := |published|;
      while row < |shard| && |published| < budget
        invariant 0 <= row <= |shard| && |published| <= budget && sequence == |published| % TWO64
        invariant |published| == start + row
        invariant Row(|published|, |shard|) == if row == |shard| then 0 else row
        invariant forall j :: 0 <= j < |published| ==> published[j] == Item(shard, j)
      {
        RowNext(|published|, |shard|);
        ItemAt(shard, |published|, row);
        published := published + [(shard[row], sequence)];
        sequence := (sequence + 1) % TWO64;
        row := row + 1;
      }
    }
  }

  /** A shard has the rows i, i + k, i + 2k, ... that the input has. */
  lemma ShardSize<T>(records: seq<T>, i: int, k: int)
    requires 0 <= i < k
    ensures |Shard(records, i, k)| == if i < |records| then (|records| - i + k - 1) / k else 0
  {
    var c, n := |Shard(records, i, k)|, |records|;
    ShardRow(records, i, k, 0);
    ShardRow(records, i, k, c);
    if c > 0 {
      ShardRow(records, i, k, c - 1);
      Distribute(c, 1, k);
      DivUnique(n - i + k - 1, k, c, n - i + k - 1 - c * k);
    }
  }

  lemma WholeInput<T>(records: seq<T>)
    ensures Shard(records, 0, 1) == records
  {
    forall q | 0 <= q < |records|
      ensures q < |Shard(records, 0, 1)| && Shard(records, 0, 1)[q] == records[q]
    {
      ShardRow(records, 0, 1, q);
    }
    ShardRow(records, 0, 1, |records|);
  }

  /** Streams until the context ends after `budget` publishes. A streamer has something to
      publish exactly when its shard is within the input; its j-th publish then carries row
      (j mod n) * k + i of the input, for the n rows of its shard, and the number j. Without
      input rows or without a shard nothing is published. */
  method Stream<T>(records: seq<T>, shardIndex: int, shardCount: int, budget: nat)
    returns (ok: bool, published: seq<(T, Offset)>)
    ensures ok <==> 0 <= shardIndex < shardCount && shardIndex < |records|
    ensures !ok ==> published == []
    ensures ok ==>
      var n := (|records| - shardIndex + shardCount - 1) / shardCount;
      && n > 0 && |published| == budget
      && forall j :: 0 <= j < budget ==>
           && 0 <= (j % n) * shardCount + shardIndex < |records|
           && published[j] == (records[(j % n) * shardCount + shardIndex], j % TWO64)
  {
    hide Item, Row, Shard, Streamed;
    if |records| == 0 {
      return false, [];
    }
    var shard := RecordsForShard(records, shardIndex, shardCount);
    if 0 <= shardIndex < shardCount {
      WholeInput(records);
      ShardIsSome(records, shardIndex, shardCount);
    }
    if shard.None? {
      return false, [];
    }
    published := ReplayShard(shard.value, budget);
    ok := true;
    ShardIsStreamed(records, shardIndex, shardCount, published);
    StreamedIs(records, shardIndex, shardCount, published);
  }

  lemma ShardIsSome<T>(records: seq<T>, i: int, k: int)
    requires 0 <= i < k
    ensures Shard(records, i, k) != [] <==> i < |records|
  {
    ShardRow(records, i, k, 0);
  }

  /** The j-th publish carries row j mod n of the shard, as a row of the input. */
  ghost predicate Streamed<T>(records: seq<T>, i: int, k: int, published: seq<(T, Offset)>)
    requires 0 <= i < k && i < |records|
  {
    var n := (|records| - i + k - 1) / k;
    && n > 0
    && forall j :: 0 <= j < |published| ==>
         && 0 <= (j % n) * k + i < |records|
         && published[j] == (records[(j % n) * k + i], j % TWO64)
  }

  lemma ShardIsStreamed<T>(records: seq<T>, i: int, k: int, published: seq<(T, Offset)>)
    requires 0 <= i < k && i < |records| && Shard(records, i, k) != []
    requires forall j :: 0 <= j < |published| ==> published[j] == Item(Shard(records, i, k), j)
    ensures Streamed(records, i, k, published)
  {
    var shard := Shard(records, i, k);
    ShardSize(records, i, k);
    hide Item, Shard;
    forall j | 0 <= j < |published|
      ensures 0 <= (j % |shard|) * k + i < |records|
      ensures published[j] == (records[(j % |shard|) * k + i], j % TWO64)
    {
      ItemIsCyclic(shard, j);
      ShardRow(records, i, k, j % |shard|);
    }
  }

  lemma StreamedIs<T>(records: seq<T>, i: int, k: int, published: seq<(T, Offset)>)
    requires 0 <= i < k && i < |records| && Streamed(records, i, k, published)
    ensures var n := (|records| - i + k - 1) / k;
      && n > 0
      && forall j :: 0 <= j < |published| ==>
           && 0 <= (j % n) * k + i < |records|
           && published[j] == (records[(j % n) * k + i], j % TWO64)
  {
  }

  lemma ItemAt<T>(shard: seq<T>, j: nat, row: nat)
    requires row < |shard| && Row(j, |shard|) == row
    ensures Item(shard, j) == (shard[row], j % TWO64)
    ensures (j % TWO64 + 1) % TWO64 == (j + 1) % TWO64
  {
  }

  lemma FirstRow(n: nat)
    requires n > 0
    ensures Row(0, n) == 0
  {
  }

  // ---------------------------------------------------------------- message IDs

  function Digit(d: int): char
    requires 0 <= d < 10
  {
    "0123456789"[d]
  }

  function Decimal(n: nat): string {
    if n < 10 then [Digit(n)] else Decimal(n / 10) + [Digit(n % 10)]
  }

  function SignedDecimal(n: int): string {
    if n < 0 then "-" + Decimal(-n) else Decimal(n)
  }

  /** Clock reading and sequence number, separated by a dash. */
  function MessageID(nanos: int, sequence: Offset): string {
    SignedDecimal(nanos) + "-" + Decimal(sequence)
  }

  /** The number a string of decimal digits stands for. */
  function Value(s: string): int {
    if s == [] then 0 else 10 * Value(s[..|s| - 1]) + (s[|s| - 1] as int - '0' as int)
  }

  /** Decimal digits, most significant first, without leading zeros. */
  lemma {:induction false} DecimalIsValue(n: nat)
    ensures Value(Decimal(n)) == n
    ensures forall i :: 0 <= i < |Decimal(n)| ==> '0' <= Decimal(n)[i] <= '9'
    ensures n > 0 ==> Decimal(n)[0] != '0'
  {
    assert Decimal(n)[..|Decimal(n)| - 1] == if n < 10 then [] else Decimal(n / 10);
    if n >= 10 { DecimalIsValue(n / 10); }
  }

  /** An ID is the clock reading, with its sign, then a dash and the sequence number. */
  lemma MessageIDFormat(nanos: int, sequence: Offset)
    ensures MessageID(nanos, sequence) ==
      (if nanos < 0 then "-" + Decimal(-nanos) else Decimal(nanos)) + "-" + Decimal(sequence)
  {
  }

  lemma DigitInjective(a: int, b: int)
    requires 0 <= a < 10 && 0 <= b < 10 && Digit(a) == Digit(b)
    ensures a == b
  {
  }

  lemma {:induction false} DecimalInjective(m: nat, n: nat)
    requires Decimal(m) == Decimal(n)
    ensures m == n
  {
    var a, b := Decimal(m), Decimal(n);
    assert a[|a| - 1] == Digit(m % 10) && b[|b| - 1] == Digit(n % 10);
    DigitInjective(m % 10, n % 10);
    DecimalLength(m);
    DecimalLength(n);
    if m >= 10 && n >= 10 {
      assert a[..|a| - 1] == Decimal(m / 10) && b[..|b| - 1] == Decimal(n / 10);
      DecimalInjective(m / 10, n / 10);
    }
  }

  lemma {:induction false} DecimalLength(n: nat)
    ensures |Decimal(n)| >= 1 && (|Decimal(n)| == 1 <==> n < 10)
    ensures '-' !in Decimal(n)
  {
    if n >= 10 { DecimalLength(n / 10); }
  }

  /** What comes before and after the last dash is determined by the string. */
  lemma LastDash(a: string, x: string, b: string, y: string)
    requires a + "-" + x == b + "-" + y && '-' !in x && '-' !in y
    ensures a == b && x == y
  {
    var s := a + "-" + x;
    assert s[|a|] == '-' && s[|b|] == '-';
    assert s[|a| + 1..] == x && s[|b| + 1..] == y;
    assert forall k :: |a| < k < |s| ==> s[k] == x[k - |a| - 1] && s[k] in x;
    assert forall k :: |b| < k < |s| ==> s[k] == y[k - |b| - 1] && s[k] in y;
    assert s[..|a|] == a && s[..|b|] == b;
  }

  lemma SignedDecimalInjective(m: int, n: int)
    requires SignedDecimal(m) == SignedDecimal(n)
    ensures m == n
  {
    hide Decimal;
    var x, y := if m < 0 then -m else m, if n < 0 then -n else n;
    DecimalLength(x);
    DecimalLength(y);
    assert m < 0 ==> SignedDecimal(m)[0] == '-' && SignedDecimal(m)[1..] == Decimal(x);
    assert n < 0 ==> SignedDecimal(n)[0] == '-' && SignedDecimal(n)[1..] == Decimal(y);
    assert m >= 0 ==> SignedDecimal(m)[0] in Decimal(x);
    assert n >= 0 ==> SignedDecimal(n)[0] in Decimal(y);
    assert Decimal(x) == Decimal(y);
    DecimalInjective(x, y);
  }

  /** Message IDs are equal exactly when both the clock reading and the sequence number
      are. */
  lemma MessageIDsDistinct(nanos1: int, seq1: Offset, nanos2: int, seq2: Offset)
    ensures MessageID(nanos1, seq1) == MessageID(nanos2, seq2) <==> nanos1 == nanos2 && seq1 == seq2
  {
    hide Decimal, SignedDecimal;
    if MessageID(nanos1, seq1) == MessageID(nanos2, seq2) {
      DecimalLength(seq1);
      DecimalLength(seq2);
      LastDash(SignedDecimal(nanos1), Decimal(seq1), SignedDecimal(nanos2), Decimal(seq2));
      DecimalInjective(seq1, seq2);
      SignedDecimalInjective(nanos1, nanos2);
    }
  }

  /** The ID of the j-th publish of a stream, at a clock reading. */
  function StreamID<T>(shard: seq<T>, j: nat, nanos: int): string
    requires shard != []
  {
    MessageID(nanos, Item(shard, j).1)
  }

  /** The publishes of one stream have pairwise distinct IDs until the sequence number
      wraps, whatever the clock says. Publishes of two streams share an ID exactly when
      their numbers in their streams and their clock readings agree. */
  lemma StreamIDsDistinct<T>(shard: seq<T>, other: seq<T>, j: nat, k: nat, nanos1: int, nanos2: int)
    requires shard != [] && other != [] && j < TWO64 && k < TWO64
    ensures j != k ==> StreamID(shard, j, nanos1) != StreamID(shard, k, nanos2)
    ensures StreamID(shard, j, nanos1) == StreamID(other, k, nanos2) <==> j == k && nanos1 == nanos2
  {
    hide MessageID, Row, Item;
    ItemIsCyclic(shard, j);
    ItemIsCyclic(shard, k);
    ItemIsCyclic(other, k);
    MessageIDsDistinct(nanos1, j, nanos2, k);
  }

  // ---------------------------------------------------------------- retries

  const MAX64: int := 0x7FFF_FFFF_FFFF_FFFF

  /** Two's-complement wrap-around of a 64-bit duration. */
  function Wrap(x: int): int {
    (x + MAX64 + 1) % TWO64 - MAX64 - 1
  }

  function NextBackoff(backoff: int, retryMax: int): int {
    if Wrap(backoff * 2) > retryMax then retryMax else Wrap(backoff * 2)
  }

  function Backoff(initial: int, retryMax: int, n: nat): int {
    if n == 0 then initial else NextBackoff(Backoff(initial, retryMax, n - 1), retryMax)
  }

  /** The next delay is the doubled one as a signed 64-bit number, unless that exceeds the
      cap. */
  lemma BackoffStep(initial: int, retryMax: int, n: nat) returns (k: int)
    ensures Backoff(initial, retryMax, 0) == initial
    ensures var x := 2 * Backoff(initial, retryMax, n) + k * TWO64;
      && -MAX64 - 1 <= x <= MAX64
      && Backoff(initial, retryMax, n + 1) == if x > retryMax then retryMax else x
  {
    var y := Backoff(initial, retryMax, n) * 2;
    k := -((y + MAX64 + 1) / TWO64);
    assert Wrap(y) == y + k * TWO64;
  }

  datatype Attempt = Published | Failed | Cancelled | Unbuildable

  datatype RetryResult = Sent | ContextEnded | NotBuilt

  /** Tries to publish until it succeeds, the message cannot be built, or the context ends;
      the outcomes of the attempts are given, and the context ends where they do. Every
      failed attempt is followed by one sleep. */
  method PublishWithRetry(outcomes: seq<Attempt>, initial: int, retryMax: int) returns (r: RetryResult, sleeps: seq<int>)
    ensures r == Sent <==> |sleeps| < |outcomes| && outcomes[|sleeps|] == Published
    ensures r == NotBuilt <==> |sleeps| < |outcomes| && outcomes[|sleeps|] == Unbuildable
    ensures |sleeps| <= |outcomes| && forall i :: 0 <= i < |sleeps| ==> outcomes[i] == Failed
    ensures |sleeps| < |outcomes| ==> outcomes[|sleeps|] != Failed
    ensures forall i :: 0 <= i < |sleeps| ==> sleeps[i] == Backoff(initial, retryMax, i)
  {
    hide Wrap;
    var backoff := initial;
    sleeps := [];
    while |sleeps| < |outcomes|
      invariant |sleeps| <= |outcomes| && backoff == Backoff(initial, retryMax, |sleeps|)
      invariant forall i :: 0 <= i < |sleeps| ==> outcomes[i] == Failed && sleeps[i] == Backoff(initial, retryMax, i)
      decreases |outcomes| - |sleeps|
    {
      match outcomes[|sleeps|] {
        case Cancelled => return ContextEnded, sleeps;
        case Unbuildable => return NotBuilt, sleeps;
        case Published => return Sent, sleeps;
        case Failed =>
      }
      sleeps := sleeps + [backoff];
      backoff := Wrap(backoff * 2);
      if backoff > retryMax {
        backoff := retryMax;
      }
    }
    r := ContextEnded;
  }

  function Pow2(n: nat): nat {
    if n == 0 then 1 else 2 * Pow2(n - 1)
  }

  function Doubled(initial: int, n: nat): int {
    if n == 0 then initial else 2 * Doubled(initial, n - 1)
  }

  lemma {:induction false} DoubledIsPower(initial: int, n: nat)
    ensures Doubled(initial, n) == initial * Pow2(n)
    ensures initial > 0 ==> Doubled(initial, n) > n
  {
    if n > 0 {
      DoubledIsPower(initial, n - 1);
      TwiceProduct(initial, Pow2(n - 1));
    }
  }

  lemma TwiceProduct(a: int, b: int)
    ensures a * (2 * b) == 2 * (a * b)
  {
  }

  lemma WrapInRange(x: int)
    requires -MAX64 - 1 <= x <= MAX64
    ensures Wrap(x) == x
  {
  }

  lemma WrapsNegative(x: int)
    requires MAX64 < x <= 2 * MAX64
    ensures Wrap(x) < 0
  {
  }

  function Capped(initial: int, retryMax: int, n: nat): int {
    if Doubled(initial, n) <= retryMax then Doubled(initial, n) else retryMax
  }

  /** No doubling before the n-th sleep leaves the 64-bit range. */
  ghost predicate NoOverflow(initial: int, retryMax: int, n: nat) {
    forall m :: 0 <= m < n ==> Backoff(initial, retryMax, m) * 2 <= MAX64
  }

  /** Without overflow the n-th sleep is the initial delay doubled n times, capped. */
  lemma {:induction false} BackoffDoubles(initial: int, retryMax: int, n: nat)
    requires 0 < initial <= retryMax <= MAX64 && NoOverflow(initial, retryMax, n)
    ensures 0 < Backoff(initial, retryMax, n) == Capped(initial, retryMax, n)
  {
    hide Wrap;
    if n > 0 {
      BackoffDoubles(initial, retryMax, n - 1);
      WrapInRange(Backoff(initial, retryMax, n - 1) * 2);
    }
  }

  /** The doubling never overflows exactly when the cap itself can be doubled. */
  lemma NoOverflowExactly(initial: int, retryMax: int)
    requires 0 < initial <= retryMax <= MAX64
    ensures (forall n: nat :: NoOverflow(initial, retryMax, n)) <==> retryMax <= MAX64 / 2
  {
    hide Backoff;
    if retryMax <= MAX64 / 2 {
      forall n: nat
        ensures NoOverflow(initial, retryMax, n)
      {
        BoundedBackoff(initial, retryMax, n);
      }
    } else if forall n: nat :: NoOverflow(initial, retryMax, n) {
      var n := retryMax;
      assert NoOverflow(initial, retryMax, n) && NoOverflow(initial, retryMax, n + 1);
      DoubledIsPower(initial, n);
      BackoffDoubles(initial, retryMax, n);
      assert false;
    }
  }

  lemma {:induction false} BoundedBackoff(initial: int, retryMax: int, n: nat)
    requires 0 < initial <= retryMax <= MAX64 / 2
    ensures NoOverflow(initial, retryMax, n)
  {
    hide Backoff;
    if n > 0 {
      BoundedBackoff(initial, retryMax, n - 1);
      BackoffDoubles(initial, retryMax, n - 1);
    }
  }

  /** The n-th sleep is min(initial * 2^n, cap), and positive. */
  ghost predicate Scheduled(initial: int, retryMax: int, n: nat) {
    var b, x := Backoff(initial, retryMax, n), initial * Pow2(n);
    0 < b && b == if x <= retryMax then x else retryMax
  }

  /** Over all validated settings every sleep is as scheduled if and only if the cap can be
      doubled; with any larger cap some sleep is not positive. */
  lemma RetrySchedule(initial: int, retryMax: int)
    requires 0 < initial <= retryMax <= MAX64
    ensures (forall n: nat :: Scheduled(initial, retryMax, n)) <==> retryMax <= MAX64 / 2
    ensures retryMax > MAX64 / 2 ==> exists n: nat :: Backoff(initial, retryMax, n) <= 0
  {
    hide Backoff;
    if retryMax <= MAX64 / 2 {
      forall n: nat
        ensures Scheduled(initial, retryMax, n)
      {
        BoundedBackoff(initial, retryMax, n);
        BackoffDoubles(initial, retryMax, n);
        DoubledIsPower(initial, n);
      }
    } else {
      var n := FirstOverflow(initial, retryMax, 0);
      assert !Scheduled(initial, retryMax, n);
    }
  }

  /** The first doubling that overflows makes the next sleep negative. */
  lemma {:induction false} FirstOverflow(initial: int, retryMax: int, n: nat) returns (k: nat)
    requires 0 < initial <= retryMax <= MAX64 && retryMax > MAX64 / 2
    requires n <= retryMax && NoOverflow(initial, retryMax, n)
    ensures Backoff(initial, retryMax, k) <= 0
    decreases retryMax - n
  {
    BackoffDoubles(initial, retryMax, n);
    DoubledIsPower(initial, n);
    if Backoff(initial, retryMax, n) * 2 > MAX64 {
      WrapsNegative(Backoff(initial, retryMax, n) * 2);
      hide Wrap;
      k := n + 1;
    } else {
      hide Backoff, Wrap;
      k := FirstOverflow(initial, retryMax, n + 1);
    }
  }
}
