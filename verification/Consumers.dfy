/** Consumer progress: per (consumer key, partition) a cursor and at most one delivery in
    flight, and a map from message ID to delivery. The functions are the critical sections
    of the consumer state; the class is that state with its nested maps. */
module Consumers {
  import opened Bytes
  import opened Codec

  // ---------------------------------------------------------------- consumer keys

  function ConsumerKey(topic: bytes, group: bytes): bytes {
    topic + [0] + group
  }

  /** Splits at the first zero byte. */
  function SplitKey(key: bytes): (bytes, bytes) {
    if key == [] then ([], [])
    else if key[0] == 0 then ([], key[1..])
    else var (topic, group) := SplitKey(key[1..]); ([key[0]] + topic, group)
  }

  /** A key gives back its topic and group exactly when the topic has no zero byte. */
  lemma {:induction false} SplitKeyJoin(topic: bytes, group: bytes)
    ensures SplitKey(ConsumerKey(topic, group)) == (topic, group) <==> 0 !in topic
  {
    var key := ConsumerKey(topic, group);
    if topic == [] {
      assert key[1..] == group;
    } else {
      assert key[1..] == ConsumerKey(topic[1..], group);
      assert key[0] == topic[0];
      assert [topic[0]] + topic[1..] == topic;
      if topic[0] != 0 {
        SplitKeyJoin(topic[1..], group);
        assert 0 in topic <==> 0 in topic[1..];
        var (t, g) := SplitKey(key[1..]);
        assert ([key[0]] + t)[1..] == t;
      }
    }
  }

  /** Without zero bytes in topics, different subscriptions never share a key; with them
      they can. */
  lemma ConsumerKeyInjective(t1: bytes, g1: bytes, t2: bytes, g2: bytes)
    requires 0 !in t1 && 0 !in t2
    ensures ConsumerKey(t1, g1) == ConsumerKey(t2, g2) <==> t1 == t2 && g1 == g2
    ensures ConsumerKey([1, 0, 2], [3]) == ConsumerKey([1], [2, 0, 3])
  {
    SplitKeyJoin(t1, g1);
    SplitKeyJoin(t2, g2);
    assert ConsumerKey([1, 0, 2], [3]) == [1, 0, 2, 0, 3];
    assert ConsumerKey([1], [2, 0, 3]) == [1, 0, 2, 0, 3];
  }

  /** No other subscription shares the key of this one: its parts have no zero byte where
      the key could be split again. Topic and group are never empty. */
  predicate Alone(topic: bytes, group: bytes) {
    topic != [] && group != [] && 0 !in topic[1..] && 0 !in group[..|group| - 1]
  }

  /** The key of a subscription that shares it with no other, and its topic. */
  predicate Sole(key: bytes) {
    key != [] &&
    var group := SplitKey(key[1..]).1;
    group != [] && 0 !in group[..|group| - 1]
  }

  function Topic(key: bytes): bytes {
    if key == [] then [] else [key[0]] + SplitKey(key[1..]).0
  }

  lemma {:induction false} SplitShape(key: bytes)
    requires 0 in key
    ensures var (topic, group) := SplitKey(key); key == topic + [0] + group && 0 !in topic
  {
    if key[0] != 0 {
      SplitShape(key[1..]);
      var (topic, group) := SplitKey(key[1..]);
      assert key == [key[0]] + topic + [0] + group;
    } else {
      assert key == [] + [0] + key[1..];
    }
  }

  lemma SoleKey(topic: bytes, group: bytes)
    requires topic != [] && group != []
    ensures var key := ConsumerKey(topic, group);
      (Sole(key) <==> Alone(topic, group)) && (Sole(key) ==> Topic(key) == topic)
  {
    var key := ConsumerKey(topic, group);
    assert key[1..] == ConsumerKey(topic[1..], group) && key[0] == topic[0];
    SplitKeyJoin(topic[1..], group);
    if 0 !in topic[1..] {
      assert [topic[0]] + topic[1..] == topic;
    } else {
      SplitShape(key[1..]);
      var (a, b) := SplitKey(key[1..]);
      var z :| 0 <= z < |topic| - 1 && topic[1..][z] == 0;
      SecondZero(topic[1..], group, a, b, z);
    }
  }

  lemma SecondZero(t: bytes, g: bytes, a: bytes, b: bytes, z: nat)
    requires t + [0] + g == a + [0] + b && 0 !in a && g != [] && z < |t| && t[z] == 0
    ensures b != [] && 0 in b[..|b| - 1]
  {
    var s := t + [0] + g;
    assert s[z] == 0 && s[|t|] == 0;
    assert |a| <= z by {
      assert forall i :: 0 <= i < |a| ==> s[i] == a[i] && a[i] in a;
    }
    assert b[|t| - |a| - 1] == s[|t|];
    assert b[..|b| - 1][|t| - |a| - 1] == 0;
  }

  /** Another split of the key of a subscription that is not alone. */
  lemma SharedWith(topic: bytes, group: bytes) returns (t: bytes, g: bytes)
    requires topic != [] && group != [] && !Alone(topic, group)
    ensures t != [] && g != [] && t != topic && ConsumerKey(t, g) == ConsumerKey(topic, group)
  {
    if 0 in topic[1..] {
      var z :| 0 <= z < |topic| - 1 && topic[1..][z] == 0;
      t, g := topic[..z + 1], topic[z + 2..] + [0] + group;
      assert topic == t + [0] + topic[z + 2..];
    } else {
      var z :| 0 <= z < |group| - 1 && group[..|group| - 1][z] == 0;
      t, g := topic + [0] + group[..z], group[z + 1..];
      assert group == group[..z] + [0] + g;
    }
  }

  /** Exactly the subscriptions that are alone have their key to themselves. */
  lemma AloneExactly(topic: bytes, group: bytes)
    requires topic != [] && group != []
    ensures Alone(topic, group) <==>
      forall t, g :: t != [] && g != [] && ConsumerKey(t, g) == ConsumerKey(topic, group) ==> t == topic && g == group
  {
    if Alone(topic, group) {
      forall t, g | t != [] && g != [] && ConsumerKey(t, g) == ConsumerKey(topic, group)
        ensures t == topic && g == group
      {
        SoleKey(topic, group);
        SoleKey(t, g);
        assert ConsumerKey(t, g)[|t| + 1..] == g && ConsumerKey(topic, group)[|topic| + 1..] == group;
      }
    } else {
      var t, g := SharedWith(topic, group);
    }
  }

  // ---------------------------------------------------------------- the state as a value

  datatype Delivery = Delivery(messageID: bytes, groupKey: bytes, partition: int, offset: nat)

  datatype Cell = Cell(next: nat, slot: Option<Delivery>)

  datatype State = State(cells: map<(bytes, int), Cell>, inflight: map<bytes, Delivery>)

  function CellAt(s: State, key: bytes, p: int): Cell {
    if (key, p) in s.cells then s.cells[(key, p)] else Cell(0, None)
  }

  function WithCell(s: State, key: bytes, p: int, cell: Cell): State {
    s.(cells := s.cells[(key, p) := cell])
  }

  /** A missing cell is created on first use. */
  function Ensure(s: State, key: bytes, p: int): State {
    WithCell(s, key, p, CellAt(s, key, p))
  }

  /** The cursor, or nothing while a delivery is in flight. */
  function NextOffset(s: State, key: bytes, p: int): Option<nat> {
    if CellAt(s, key, p).slot.Some? then None else Some(CellAt(s, key, p).next)
  }

  function Skip(s: State, key: bytes, p: int, next: nat): State {
    var cell := CellAt(s, key, p);
    WithCell(s, key, p, if cell.slot.Some? then cell else cell.(next := next))
  }

  function Mark(s: State, key: bytes, p: int, offset: nat, id: bytes): (State, bool) {
    var cell := CellAt(s, key, p);
    if cell.slot.Some? then (Ensure(s, key, p), false)
    else
      var d := Delivery(id, key, p, offset);
      (State(s.cells[(key, p) := cell.(slot := Some(d))], s.inflight[id := d]), true)
  }

  /** Acknowledges by message ID alone. An entry whose slot holds something else is
      dropped and reported as not in flight. */
  function Ack(s: State, id: bytes): (State, Option<Delivery>) {
    if id !in s.inflight then (s, None)
    else
      var d := s.inflight[id];
      var cell := CellAt(s, d.groupKey, d.partition);
      if cell.slot.None? || cell.slot.value.messageID != id then
        (Ensure(s, d.groupKey, d.partition).(inflight := s.inflight - {id}), None)
      else
        (State(s.cells[(d.groupKey, d.partition) := Cell(d.offset + 1, None)], s.inflight - {id}), Some(d))
  }

  /** The critical sections of a poll, on one cell: a missing cell is at offset 0 and free; a
      delivery in flight hides the cursor and stops skips and marks; a mark fills the slot and
      the map entry of its message ID and leaves the cursor. */
  lemma CriticalSections(s: State, key: bytes, p: int, n: nat, id: bytes)
    ensures var cell := if (key, p) in s.cells then s.cells[(key, p)] else Cell(0, None);
      var free, d := cell.slot.None?, Delivery(id, key, p, n);
      && NextOffset(s, key, p) == (if free then Some(cell.next) else None)
      && Ensure(s, key, p) == State(s.cells[(key, p) := cell], s.inflight)
      && Skip(s, key, p, n) == State(s.cells[(key, p) := if free then Cell(n, None) else cell], s.inflight)
      && Mark(s, key, p, n, id) ==
           (if free then (State(s.cells[(key, p) := Cell(cell.next, Some(d))], s.inflight[id := d]), true)
            else (State(s.cells[(key, p) := cell], s.inflight), false))
  {
  }

  /** An acknowledgement succeeds exactly when the ID's entry names a slot that holds this ID;
      the cursor then goes one past that delivery. An unknown ID changes nothing, a stale
      entry is dropped. */
  lemma AckOutcome(s: State, id: bytes)
    ensures id !in s.inflight ==> Ack(s, id) == (s, None)
    ensures id in s.inflight ==>
      var d := s.inflight[id]; var q := (d.groupKey, d.partition);
      var cell := if q in s.cells then s.cells[q] else Cell(0, None);
      var holds := cell.slot.Some? && cell.slot.value.messageID == id;
      && Ack(s, id).1 == (if holds then Some(d) else None)
      && Ack(s, id).0 == State(s.cells[q := if holds then Cell(d.offset + 1, None) else cell], s.inflight - {id})
  {
  }

  // ---------------------------------------------------------------- the state object

  class ConsumerState {
    var subscriptions: map<bytes, map<int, Cell>>
    var inflight: map<bytes, Delivery>

    /** The same state with the nested maps flattened. */
    ghost var state: State

    ghost predicate Valid()
      reads this
    {
      && state.inflight == inflight
      && (forall k, p :: (k, p) in state.cells <==> k in subscriptions && p in subscriptions[k])
      && (forall k, p :: k in subscriptions && p in subscriptions[k] ==>
            state.cells[(k, p)] == subscriptions[k][p])
    }

    constructor ()
      ensures Valid() && state == State(map[], map[])
    {
      subscriptions := map[];
      inflight := map[];
      state := State(map[], map[]);
    }

    method SetCell(key: bytes, p: int, cell: Cell)
      requires Valid()
      modifies this
      ensures Valid() && state == WithCell(old(state), key, p, cell)
    {
      var partitions := if key in subscriptions then subscriptions[key] else map[];
      subscriptions := subscriptions[key := partitions[p := cell]];
      state := WithCell(state, key, p, cell);
    }

    method EnsurePartition(key: bytes, p: int) returns (cell: Cell)
      requires Valid()
      modifies this
      ensures Valid() && state == Ensure(old(state), key, p)
      ensures cell == CellAt(state, key, p)
    {
      cell := if key in subscriptions && p in subscriptions[key] then subscriptions[key][p] else Cell(0, None);
      SetCell(key, p, cell);
    }

    method ReadNextOffset(key: bytes, p: int) returns (r: Option<nat>)
      requires Valid()
      modifies this
      ensures Valid() && state == Ensure(old(state), key, p)
      ensures r == NextOffset(old(state), key, p)
    {
      var cell := EnsurePartition(key, p);
      if cell.slot.Some? {
        return None;
      }
      r := Some(cell.next);
    }

    method SkipTo(key: bytes, p: int, next: nat)
      requires Valid()
      modifies this
      ensures Valid() && state == Skip(old(state), key, p, next)
    {
      var cell := EnsurePartition(key, p);
      if cell.slot.Some? {
        return;
      }
      SetCell(key, p, cell.(next := next));
      assert state.cells == Skip(old(state), key, p, next).cells;
    }

    method MarkInflight(key: bytes, p: int, offset: nat, id: bytes) returns (ok: bool)
      requires Valid()
      modifies this
      ensures Valid() && (state, ok) == Mark(old(state), key, p, offset, id)
    {
      var cell := EnsurePartition(key, p);
      if cell.slot.Some? {
        return false;
      }
      var delivery := Delivery(id, key, p, offset);
      SetCell(key, p, cell.(slot := Some(delivery)));
      inflight := inflight[id := delivery];
      state := state.(inflight := inflight);
      assert state.cells == Mark(old(state), key, p, offset, id).0.cells;
      ok := true;
    }

    method AckMessage(id: bytes) returns (ok: bool)
      requires Valid()
      modifies this
      ensures Valid() && state == Ack(old(state), id).0
      ensures ok == Ack(old(state), id).1.Some?
    {
      if id !in inflight {
        return false;
      }
      var delivery := inflight[id];
      var cell := EnsurePartition(delivery.groupKey, delivery.partition);
      if cell.slot.None? || cell.slot.value.messageID != id {
        inflight := inflight - {id};
        state := state.(inflight := inflight);
        return false;
      }
      SetCell(delivery.groupKey, delivery.partition, Cell(delivery.offset + 1, None));
      inflight := inflight - {id};
      state := state.(inflight := inflight);
      assert state.cells == Ack(old(state), id).0.cells;
      ok := true;
    }
  }

  // ---------------------------------------------------------------- polling

  datatype PollResult = Delivered(message: Message) | Nothing | Error

  /** The first offset at or past `from` where a poll for `topic` stops: a matching message,
      one that cannot be read, or the end of the log. */
  function Stop(log: seq<Message>, from: nat, topic: bytes): (k: nat)
    ensures k >= from
    ensures k > from ==> k <= |log|
    ensures forall j :: from <= j < k && j < |log| ==> log[j].topic != topic && log[j].payload != []
    ensures k < |log| ==> log[k].topic == topic || log[k].payload == []
    decreases |log| - from
  {
    if from >= |log| || log[from].payload == [] || log[from].topic == topic then from
    else Stop(log, from + 1, topic)
  }

  datatype Status = Blocked | Ready(offset: nat) | Broken

  /** What a poll of one partition can do: it is blocked by a delivery in flight or by
      having no matching message at or past the cursor; it is broken when the partition is
      not open or the next message cannot be read. */
  function StatusOf(s: State, logs: map<int, seq<Message>>, key: bytes, topic: bytes, p: int): Status {
    var cell := CellAt(s, key, p);
    if cell.slot.Some? then Blocked
    else if p !in logs then Broken
    else
      var k := Stop(logs[p], cell.next, topic);
      if k >= |logs[p]| then Blocked
      else if logs[p][k].payload == [] then Broken
      else Ready(k)
  }

  /** The cell after a poll that delivers nothing: a free cursor has moved to where the
      search stopped. */
  function Searched(cell: Cell, logs: map<int, seq<Message>>, topic: bytes, p: int): Cell {
    if cell.slot.Some? || p !in logs then cell else cell.(next := Stop(logs[p], cell.next, topic))
  }

  /** The cell after a poll. */
  function After(s: State, logs: map<int, seq<Message>>, key: bytes, topic: bytes, p: int): Cell
  {
    match StatusOf(s, logs, key, topic, p)
    case Ready(k) =>
      if p in logs && k < |logs[p]| then Cell(k, Some(Delivery(logs[p][k].id, key, p, k))) else CellAt(s, key, p)
    case _ => Searched(CellAt(s, key, p), logs, topic, p)
  }

  /** The map of deliveries after a poll. */
  function InflightAfter(s: State, logs: map<int, seq<Message>>, key: bytes, topic: bytes, p: int): map<bytes, Delivery> {
    match After(s, logs, key, topic, p).slot
    case Some(d) => if StatusOf(s, logs, key, topic, p).Ready? then s.inflight[d.messageID := d] else s.inflight
    case None => s.inflight
  }

  /** The status and what a poll leaves, in terms of the cell and the log: blocked by a
      delivery in flight or by having only readable messages of other topics from the cursor
      on; broken by a closed partition or by an unreadable message before any of the topic;
      otherwise ready with the first message of the topic. The cursor stops there. */
  lemma StatusMeans(s: State, logs: map<int, seq<Message>>, key: bytes, topic: bytes, p: int)
    ensures var cell, status := CellAt(s, key, p), StatusOf(s, logs, key, topic, p);
      && (cell.slot.Some? ==> status == Blocked && After(s, logs, key, topic, p) == cell)
      && (cell.slot.None? && p !in logs ==> status == Broken && After(s, logs, key, topic, p) == cell)
      && (cell.slot.None? && p in logs ==>
            var log, after := logs[p], After(s, logs, key, topic, p);
            && cell.next <= after.next && (after.next > cell.next ==> after.next <= |log|)
            && (forall j :: cell.next <= j < after.next && j < |log| ==> log[j].topic != topic && log[j].payload != [])
            && (after.next >= |log| <==> status == Blocked)
            && (after.next < |log| ==>
                  if log[after.next].payload == [] then status == Broken
                  else log[after.next].topic == topic && status == Ready(after.next))
            && after.slot == (if status.Ready? && after.next < |log|
                              then Some(Delivery(log[after.next].id, key, p, after.next)) else None))
      && InflightAfter(s, logs, key, topic, p) ==
           (if status.Ready? && After(s, logs, key, topic, p).slot.Some?
            then s.inflight[After(s, logs, key, topic, p).slot.value.messageID := After(s, logs, key, topic, p).slot.value]
            else s.inflight)
  {
  }

  lemma SameStatus(s: State, s': State, logs: map<int, seq<Message>>, key: bytes, topic: bytes, p: int)
    requires CellAt(s', key, p) == CellAt(s, key, p)
    ensures StatusOf(s', logs, key, topic, p) == StatusOf(s, logs, key, topic, p)
    ensures After(s', logs, key, topic, p) == After(s, logs, key, topic, p)
  {
  }

  /** The result of a poll and the state it leaves are those of the partition's status. */
  ghost predicate Answers(s: State, s': State, logs: map<int, seq<Message>>, key: bytes, topic: bytes, p: int, r: PollResult)
  {
    && CellAt(s', key, p) == After(s, logs, key, topic, p)
    && s'.inflight == InflightAfter(s, logs, key, topic, p)
    && match StatusOf(s, logs, key, topic, p)
       case Blocked => r == Nothing
       case Broken => r == Error
       case Ready(k) => r == Delivered(logs[p][k])
  }

  ghost predicate SameOutcome(s: State, t: State, logs: map<int, seq<Message>>, key: bytes, topic: bytes, p: int) {
    && t.inflight == s.inflight
    && StatusOf(t, logs, key, topic, p) == StatusOf(s, logs, key, topic, p)
    && After(t, logs, key, topic, p) == After(s, logs, key, topic, p)
  }

  lemma AnswersBoth(s: State, t: State, u: State, logs: map<int, seq<Message>>, key: bytes, topic: bytes, p: int, r: PollResult)
    requires SameOutcome(s, t, logs, key, topic, p) && Answers(t, u, logs, key, topic, p, r)
    ensures Answers(s, u, logs, key, topic, p, r)
  {
    hide StatusOf, After;
  }

  /** The cursor moves past a message of another topic, which changes nothing for the poll. */
  ghost predicate Skips(s: State, s': State, logs: map<int, seq<Message>>, key: bytes, topic: bytes, p: int) {
    && p in logs && CellAt(s, key, p).next < |logs[p]|
    && CellAt(s', key, p).next == CellAt(s, key, p).next + 1
    && SameOutcome(s, s', logs, key, topic, p)
  }

  /** What each end of a round amounts to. */
  lemma RoundEnds(s: State, logs: map<int, seq<Message>>, key: bytes, topic: bytes, p: int)
    ensures var t, cell := Ensure(s, key, p), CellAt(s, key, p);
      if cell.slot.Some? then Answers(s, t, logs, key, topic, p, Nothing)
      else if p !in logs then Answers(s, t, logs, key, topic, p, Error)
      else if cell.next >= |logs[p]| then Answers(s, t, logs, key, topic, p, Nothing)
      else
        var m := logs[p][cell.next];
        if m.payload == [] then Answers(s, t, logs, key, topic, p, Error)
        else if m.topic != topic then Skips(s, Skip(t, key, p, cell.next + 1), logs, key, topic, p)
        else var (u, ok) := Mark(t, key, p, cell.next, m.id);
          ok && Answers(s, u, logs, key, topic, p, Delivered(m))
  {
  }

  /** Only the cell of one subscription and partition may differ. */
  ghost predicate SameElsewhere(s: State, s': State, key: bytes, p: int) {
    forall q :: q != (key, p) ==>
      (q in s'.cells <==> q in s.cells) && (q in s'.cells ==> s'.cells[q] == s.cells[q])
  }

  lemma ElsewhereHolds(s: State, t: State, key: bytes, p: int)
    requires (key, p) in t.cells && t.cells == s.cells[(key, p) := t.cells[(key, p)]]
    ensures SameElsewhere(s, t, key, p)
  {
  }

  ghost predicate Increasing(ids: seq<int>) {
    forall i, j :: 0 <= i < j < |ids| ==> ids[i] < ids[j]
  }

  /** The consumer side of a queue node: its consumer state, the partitions it leads in
      increasing order, and the delivery counters. */
  class Runtime {
    const consumers: ConsumerState
    const led: seq<int>
    var delivered: nat
    var acked: nat

    ghost predicate Valid()
      reads this, consumers
    {
      consumers.Valid() && Increasing(led)
    }

    constructor (led: seq<int>)
      requires Increasing(led)
      ensures Valid() && fresh(consumers) && consumers.state == State(map[], map[])
      ensures this.led == led && delivered == acked == 0
    {
      consumers := new ConsumerState();
      this.led := led;
      delivered, acked := 0, 0;
    }

    /** One round of a poll; without a result, it has skipped a message of another topic. */
    method PollOnce(key: bytes, topic: bytes, p: int, logs: map<int, seq<Message>>) returns (r: Option<PollResult>)
      requires Valid()
      modifies this, consumers
      ensures Valid() && acked == old(acked)
      ensures SameElsewhere(old(consumers.state), consumers.state, key, p)
      ensures r.Some? ==> Answers(old(consumers.state), consumers.state, logs, key, topic, p, r.value)
      ensures r.None? ==> Skips(old(consumers.state), consumers.state, logs, key, topic, p)
      ensures delivered == old(delivered) + if r.Some? && r.value.Delivered? then 1 else 0
    {
      hide ConsumerState.Valid, Answers, Skips, SameElsewhere, Increasing;
      ghost var s := consumers.state;
      var offset := consumers.ReadNextOffset(key, p);
      RoundEnds(s, logs, key, topic, p);
      ElsewhereHolds(s, consumers.state, key, p);
      if offset.None? {
        return Some(Nothing);
      }
      if p !in logs {
        return Some(Error);
      }
      if offset.value >= |logs[p]| {
        return Some(Nothing);
      }
      var message := logs[p][offset.value];
      if message.payload == [] {
        return Some(Error);
      }
      if message.topic != topic {
        consumers.SkipTo(key, p, offset.value + 1);
        ElsewhereHolds(s, consumers.state, key, p);
        return None;
      }
      var ok := consumers.MarkInflight(key, p, offset.value, message.id);
      ElsewhereHolds(s, consumers.state, key, p);
      if !ok {
        return Some(Nothing);
      }
      delivered := delivered + 1;
      return Some(Delivered(message));
    }

    /** Polls one partition, moving the cursor over messages of other topics. The loop ends
        because the cursor only moves forward and the log is fixed. */
    method PollPartition(key: bytes, topic: bytes, p: int, logs: map<int, seq<Message>>) returns (r: PollResult)
      requires Valid()
      modifies this, consumers
      ensures Valid() && acked == old(acked)
      ensures SameElsewhere(old(consumers.state), consumers.state, key, p)
      ensures Answers(old(consumers.state), consumers.state, logs, key, topic, p, r)
      ensures delivered == old(delivered) + if r.Delivered? then 1 else 0
    {
      hide ConsumerState.Valid, Answers, StatusOf, After, Increasing;
      ghost var s := consumers.state;
      var done: Option<PollResult> := None;
      while done.None?
        invariant Valid() && acked == old(acked)
        invariant delivered == old(delivered) + if done.Some? && done.value.Delivered? then 1 else 0
        invariant SameElsewhere(s, consumers.state, key, p)
        invariant done.None? ==> SameOutcome(s, consumers.state, logs, key, topic, p)
        invariant done.Some? ==> Answers(s, consumers.state, logs, key, topic, p, done.value)
        decreases done.None?, (if p in logs then |logs[p]| else 0) - CellAt(consumers.state, key, p).next
      {
        ghost var before := consumers.state;
        done := PollOnce(key, topic, p, logs);
        if done.Some? { AnswersBoth(s, before, consumers.state, logs, key, topic, p, done.value); }
      }
      r := done.value;
    }

    /** Polls the led partitions in order. On a fixed log and without overlapping calls the
        result is decided by the first partition that is not blocked; nothing is returned
        exactly when every led partition is. The partitions polled are left as their polls
        leave them, all other cells as they were. */
    method Poll(topic: bytes, group: bytes, logs: map<int, seq<Message>>) returns (r: PollResult)
      requires Valid()
      modifies this, consumers
      ensures Valid() && acked == old(acked)
      ensures delivered == old(delivered) + if r.Delivered? then 1 else 0
      ensures topic == [] || group == [] ==> r == Error && consumers.state == old(consumers.state)
      ensures topic != [] && group != [] ==>
        (r.Nothing? <==> forall i :: 0 <= i < |led| ==>
          StatusOf(old(consumers.state), logs, ConsumerKey(topic, group), topic, led[i]).Blocked?)
      ensures topic != [] && group != [] && r.Nothing? ==>
        Polled(old(consumers.state), consumers.state, logs, ConsumerKey(topic, group), topic, led, |led|)
      ensures topic != [] && group != [] && !r.Nothing? ==>
        exists i :: 0 <= i < |led| &&
          Decides(old(consumers.state), logs, ConsumerKey(topic, group), topic, led, i, r) &&
          Polled(old(consumers.state), consumers.state, logs, ConsumerKey(topic, group), topic, led, i + 1) &&
          consumers.state.inflight ==
            InflightAfter(old(consumers.state), logs, ConsumerKey(topic, group), topic, led[i])
      ensures r.Nothing? ==> consumers.state.inflight == old(consumers.state.inflight)
    {
      hide ConsumerState.Valid, StatusOf, Polled, InflightAfter, Decides;
      if topic == [] || group == [] {
        return Error;
      }
      r := PollLed(ConsumerKey(topic, group), topic, logs);
    }

    method PollLed(key: bytes, topic: bytes, logs: map<int, seq<Message>>) returns (r: PollResult)
      requires Valid()
      modifies this, consumers
      ensures Valid() && acked == old(acked)
      ensures delivered == old(delivered) + if r.Delivered? then 1 else 0
      ensures r.Nothing? <==>
        forall i :: 0 <= i < |led| ==> StatusOf(old(consumers.state), logs, key, topic, led[i]).Blocked?
      ensures r.Nothing? ==> Polled(old(consumers.state), consumers.state, logs, key, topic, led, |led|)
      ensures !r.Nothing? ==>
        exists i :: 0 <= i < |led| &&
          Decides(old(consumers.state), logs, key, topic, led, i, r) &&
          Polled(old(consumers.state), consumers.state, logs, key, topic, led, i + 1) &&
          consumers.state.inflight == InflightAfter(old(consumers.state), logs, key, topic, led[i])
      ensures r.Nothing? ==> consumers.state.inflight == old(consumers.state.inflight)
    {
      hide ConsumerState.Valid, StatusOf, After, Increasing, Polled, SameElsewhere, InflightAfter;
      ghost var s := consumers.state;
      PolledNone(s, logs, key, topic, led);
      for i := 0 to |led|
        invariant Valid() && delivered == old(delivered) && acked == old(acked)
        invariant consumers.state.inflight == s.inflight
        invariant forall j :: 0 <= j < i ==> StatusOf(s, logs, key, topic, led[j]).Blocked?
        invariant Polled(s, consumers.state, logs, key, topic, led, i)
      {
        ghost var before := consumers.state;
        NotYetPolled(s, before, logs, key, topic, led, i);
        r := PollPartition(key, topic, led[i], logs);
        PolledNext(s, before, consumers.state, logs, key, topic, led, i);
        if !r.Nothing? {
          assert Decides(s, logs, key, topic, led, i, r);
          return;
        }
      }
      r := Nothing;
    }

    /** Acknowledges by message ID; only a success is counted. */
    method Acknowledge(cancelled: bool, id: bytes) returns (ok: bool)
      requires Valid()
      modifies this, consumers
      ensures Valid() && delivered == old(delivered)
      ensures ok <==> !cancelled && Ack(old(consumers.state), id).1.Some?
      ensures acked == old(acked) + if ok then 1 else 0
      ensures consumers.state == if cancelled then old(consumers.state) else Ack(old(consumers.state), id).0
    {
      hide ConsumerState.Valid, Increasing;
      if cancelled {
        return false;
      }
      ok := consumers.AckMessage(id);
      if ok {
        acked := acked + 1;
      }
    }
  }

  /** The first `n` led partitions are as their polls leave them; no other cell of this or
      another subscription has changed. */
  ghost predicate Polled(s: State, s': State, logs: map<int, seq<Message>>, key: bytes, topic: bytes,
                         led: seq<int>, n: nat)
  {
    && n <= |led|
    && (forall j :: 0 <= j < |led| ==>
          CellAt(s', key, led[j]) == if j < n then After(s, logs, key, topic, led[j]) else CellAt(s, key, led[j]))
    && (forall k, p :: k != key || p !in led ==> CellAt(s', k, p) == CellAt(s, k, p))
  }

  lemma PolledNone(s: State, logs: map<int, seq<Message>>, key: bytes, topic: bytes, led: seq<int>)
    ensures Polled(s, s, logs, key, topic, led, 0)
  {
  }

  /** A partition that has not been polled yet is as it was. */
  lemma NotYetPolled(s: State, t: State, logs: map<int, seq<Message>>, key: bytes, topic: bytes, led: seq<int>, i: nat)
    requires i < |led| && Polled(s, t, logs, key, topic, led, i) && t.inflight == s.inflight
    ensures StatusOf(t, logs, key, topic, led[i]) == StatusOf(s, logs, key, topic, led[i])
    ensures After(t, logs, key, topic, led[i]) == After(s, logs, key, topic, led[i])
    ensures InflightAfter(t, logs, key, topic, led[i]) == InflightAfter(s, logs, key, topic, led[i])
    ensures StatusOf(s, logs, key, topic, led[i]).Blocked? ==> InflightAfter(s, logs, key, topic, led[i]) == s.inflight
  {
    SameStatus(s, t, logs, key, topic, led[i]);
    hide StatusOf, After;
  }

  lemma PolledNext(s: State, t: State, t': State, logs: map<int, seq<Message>>, key: bytes, topic: bytes,
                   led: seq<int>, i: nat)
    requires i < |led| && Increasing(led) && Polled(s, t, logs, key, topic, led, i)
    requires SameElsewhere(t, t', key, led[i])
    requires CellAt(t', key, led[i]) == After(s, logs, key, topic, led[i])
    ensures Polled(s, t', logs, key, topic, led, i + 1)
  {
    hide After;
    assert forall k, p :: (k, p) != (key, led[i]) ==> CellAt(t', k, p) == CellAt(t, k, p);
  }

  /** The lowest-numbered led partition that is not blocked is number `i`, and the poll
      returned its next matching message, or its error. */
  ghost predicate Decides(s: State, logs: map<int, seq<Message>>, key: bytes, topic: bytes,
                          led: seq<int>, i: int, r: PollResult)
    requires 0 <= i < |led|
  {
    && (forall j :: 0 <= j < i ==> StatusOf(s, logs, key, topic, led[j]).Blocked?)
    && match StatusOf(s, logs, key, topic, led[i])
       case Blocked => false
       case Broken => r == Error
       case Ready(k) => r == Delivered(logs[led[i]][k])
  }
}
