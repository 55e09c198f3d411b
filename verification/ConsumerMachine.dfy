/** Any number of pollers, ackers and publishers at one queue node. A poll reads the cursor,
    reads storage, and skips or marks in three separate critical sections; the counters are
    bumped after the critical section they count. Calls interleave freely. */
module ConsumerMachine {
  import opened Bytes
  import opened Codec
  import C = Consumers

  /** Where a poll of one partition stands. */
  datatype Poller =
    | Started(topic: bytes, key: bytes, p: int)
    | HasOffset(topic: bytes, key: bytes, p: int, offset: nat)
    | HasMessage(topic: bytes, key: bytes, p: int, offset: nat, message: Message)
    | Marked(topic: bytes, key: bytes, p: int)

  datatype Event =
    | Delivered(key: bytes, p: int, offset: nat)
    | Acked(key: bytes, p: int, offset: nat)

  /** `history` records deliveries and acknowledgements in order; `orphans` the slots whose
      map entry was overwritten by another delivery of the same message ID. Neither
      influences a step. */
  datatype State = State(
    logs: map<int, seq<Message>>,
    consumers: C.State,
    pollers: map<nat, Poller>,
    uncountedAcks: nat,
    delivered: nat,
    acked: nat,
    history: seq<Event>,
    orphans: set<(bytes, int)>)

  datatype Step =
    | Publish(p: int, m: Message)
    | StartPoll(poller: nat, topic: bytes, group: bytes, p: int)
    | ReadCursor(poller: nat)
    | ReadStorage(poller: nat)
    | FailRead(poller: nat)
    | Decide(poller: nat)
    | CountDelivery(poller: nat)
    | AckMessage(id: bytes)
    | CountAck

  /** A node starts with recovered logs and no consumer state. */
  function Init(logs: map<int, seq<Message>>): State {
    State(logs, C.State(map[], map[]), map[], 0, 0, 0, [], {})
  }

  function LogAt(s: State, p: int): seq<Message> {
    if p in s.logs then s.logs[p] else []
  }

  function Drop(s: State, i: nat): State {
    s.(pollers := s.pollers - {i})
  }

  function ReadCursorStep(s: State, i: nat): State {
    if i in s.pollers && s.pollers[i].Started? then
      var w := s.pollers[i];
      var s' := s.(consumers := C.Ensure(s.consumers, w.key, w.p));
      match C.NextOffset(s.consumers, w.key, w.p)
      case None => Drop(s', i)
      case Some(o) => s'.(pollers := s.pollers[i := HasOffset(w.topic, w.key, w.p, o)])
    else s
  }

  function ReadStorageStep(s: State, i: nat): State {
    if i in s.pollers && s.pollers[i].HasOffset? then
      var w := s.pollers[i];
      if w.offset >= |LogAt(s, w.p)| || LogAt(s, w.p)[w.offset].payload == [] then Drop(s, i)
      else s.(pollers := s.pollers[i := HasMessage(w.topic, w.key, w.p, w.offset, LogAt(s, w.p)[w.offset])])
    else s
  }

  function SkipStep(s: State, i: nat, w: Poller): State
    requires w.HasMessage?
  {
    s.(consumers := C.Skip(s.consumers, w.key, w.p, w.offset + 1),
       pollers := s.pollers[i := Started(w.topic, w.key, w.p)])
  }

  function MarkStep(s: State, i: nat, w: Poller): State
    requires w.HasMessage?
  {
    var (c, ok) := C.Mark(s.consumers, w.key, w.p, w.offset, w.message.id);
    if !ok then Drop(s.(consumers := c), i)
    else s.(consumers := c,
            pollers := s.pollers[i := Marked(w.topic, w.key, w.p)],
            history := s.history + [Delivered(w.key, w.p, w.offset)],
            orphans := s.orphans + Overwritten(s.consumers, w.message.id))
  }

  /** The slot whose map entry a delivery of this ID replaces. */
  function Overwritten(c: C.State, id: bytes): set<(bytes, int)> {
    if id in c.inflight then {(c.inflight[id].groupKey, c.inflight[id].partition)} else {}
  }

  function AckStep(s: State, id: bytes): State {
    var (c, r) := C.Ack(s.consumers, id);
    match r
    case None => s.(consumers := c)
    case Some(d) =>
      s.(consumers := c,
         uncountedAcks := s.uncountedAcks + 1,
         history := s.history + [Acked(d.groupKey, d.partition, d.offset)])
  }

  /** One step; a step that is not enabled changes nothing. A read fails when the context of
      its poll has ended. */
  function Apply(s: State, step: Step): State {
    match step
    case Publish(p, m) =>
      if p in s.logs then s.(logs := s.logs[p := s.logs[p] + [m]]) else s
    case StartPoll(i, topic, group, p) =>
      if i !in s.pollers && topic != [] && group != [] then
        s.(pollers := s.pollers[i := Started(topic, C.ConsumerKey(topic, group), p)])
      else s
    case ReadCursor(i) => ReadCursorStep(s, i)
    case ReadStorage(i) => ReadStorageStep(s, i)
    case FailRead(i) => if i in s.pollers && s.pollers[i].HasOffset? then Drop(s, i) else s
    case Decide(i) =>
      if i in s.pollers && s.pollers[i].HasMessage? then
        if s.pollers[i].message.topic != s.pollers[i].topic then SkipStep(s, i, s.pollers[i])
        else MarkStep(s, i, s.pollers[i])
      else s
    case CountDelivery(i) =>
      if i in s.pollers && s.pollers[i].Marked? then Drop(s, i).(delivered := s.delivered + 1) else s
    case AckMessage(id) => AckStep(s, id)
    case CountAck =>
      if s.uncountedAcks > 0 then s.(acked := s.acked + 1, uncountedAcks := s.uncountedAcks - 1) else s
  }

  function RunFrom(s: State, steps: seq<Step>): State {
    if steps == [] then s else Apply(RunFrom(s, steps[..|steps| - 1]), steps[|steps| - 1])
  }

  function Run(logs: map<int, seq<Message>>, steps: seq<Step>): State {
    RunFrom(Init(logs), steps)
  }

  // ---------------------------------------------------------------- what histories say

  function DeliveredOffsets(h: seq<Event>, key: bytes, p: int): seq<nat> {
    if h == [] then []
    else
      var e := h[|h| - 1];
      DeliveredOffsets(h[..|h| - 1], key, p) +
      if e.Delivered? && e.key == key && e.p == p then [e.offset] else []
  }

  function AckedOffsets(h: seq<Event>, key: bytes, p: int): seq<nat> {
    if h == [] then []
    else
      var e := h[|h| - 1];
      AckedOffsets(h[..|h| - 1], key, p) +
      if e.Acked? && e.key == key && e.p == p then [e.offset] else []
  }

  function TotalDelivered(h: seq<Event>): nat {
    if h == [] then 0 else TotalDelivered(h[..|h| - 1]) + if h[|h| - 1].Delivered? then 1 else 0
  }

  function TotalAcked(h: seq<Event>): nat {
    if h == [] then 0 else TotalAcked(h[..|h| - 1]) + if h[|h| - 1].Acked? then 1 else 0
  }

  lemma HistorySnoc(h: seq<Event>, e: Event, key: bytes, p: int)
    ensures DeliveredOffsets(h + [e], key, p) ==
      DeliveredOffsets(h, key, p) + if e.Delivered? && e.key == key && e.p == p then [e.offset] else []
    ensures AckedOffsets(h + [e], key, p) ==
      AckedOffsets(h, key, p) + if e.Acked? && e.key == key && e.p == p then [e.offset] else []
    ensures TotalDelivered(h + [e]) == TotalDelivered(h) + if e.Delivered? then 1 else 0
    ensures TotalAcked(h + [e]) == TotalAcked(h) + if e.Acked? then 1 else 0
  {
    assert (h + [e])[..|h|] == h;
  }

  // ---------------------------------------------------------------- the invariant

  /** The message is for the one subscription that has this key. */
  ghost predicate Wants(key: bytes, m: Message) {
    C.Sole(key) && m.topic == C.Topic(key)
  }

  /** Below `n` every message for the key's subscription has been acknowledged. */
  ghost predicate Covered(s: State, key: bytes, p: int, n: nat) {
    && n <= |LogAt(s, p)|
    && forall o :: 0 <= o < n && Wants(key, LogAt(s, p)[o]) ==> o in AckedOffsets(s.history, key, p)
  }

  ghost predicate DeliveryOk(s: State, key: bytes, p: int, d: C.Delivery) {
    && d.groupKey == key && d.partition == p
    && Covered(s, key, p, d.offset)
    && d.offset < |LogAt(s, p)|
    && LogAt(s, p)[d.offset].id == d.messageID
  }

  function SlotOffsets(cell: C.Cell): seq<nat> {
    if cell.slot.Some? then [cell.slot.value.offset] else []
  }

  /** The cursor has skipped nothing, the delivery in flight is the right one, and
      deliveries and acknowledgements alternate. */
  ghost predicate CellOk(s: State, key: bytes, p: int) {
    var cell := C.CellAt(s.consumers, key, p);
    && Covered(s, key, p, cell.next)
    && (cell.slot.Some? ==> DeliveryOk(s, key, p, cell.slot.value))
    && DeliveredOffsets(s.history, key, p) == AckedOffsets(s.history, key, p) + SlotOffsets(cell)
  }

  /** A map entry names a slot that holds that very delivery. */
  ghost predicate EntryOk(c: C.State, id: bytes)
    requires id in c.inflight
  {
    var d := c.inflight[id];
    d.messageID == id && C.CellAt(c, d.groupKey, d.partition).slot == Some(d)
  }

  ghost predicate PollerOk(s: State, w: Poller) {
    && (C.Sole(w.key) ==> C.Topic(w.key) == w.topic)
    && (w.HasOffset? || w.HasMessage? ==> Covered(s, w.key, w.p, w.offset))
    && (w.HasMessage? ==> w.offset < |LogAt(s, w.p)| && LogAt(s, w.p)[w.offset] == w.message)
  }

  ghost predicate Inv(s: State) {
    && (forall key, p :: CellOk(s, key, p))
    && (forall id :: id in s.consumers.inflight ==> EntryOk(s.consumers, id))
    && (forall i :: i in s.pollers ==> PollerOk(s, s.pollers[i]))
  }

  lemma CoveredGrows(s: State, s': State, key: bytes, p: int, n: nat)
    requires Covered(s, key, p, n)
    requires LogAt(s, p) <= LogAt(s', p)
    requires forall o :: o in AckedOffsets(s.history, key, p) ==> o in AckedOffsets(s'.history, key, p)
    ensures Covered(s', key, p, n)
  {
    hide AckedOffsets, DeliveredOffsets, TotalDelivered, TotalAcked, C.Sole, C.Topic;
  }

  /** Steps that leave history and cells alone and only extend logs. */
  lemma QuietStep(s: State, s': State)
    requires Inv(s)
    requires s'.history == s.history && s'.consumers.inflight == s.consumers.inflight
    requires forall key, p :: C.CellAt(s'.consumers, key, p) == C.CellAt(s.consumers, key, p)
    requires forall p :: LogAt(s, p) <= LogAt(s', p)
    requires forall i :: i in s'.pollers ==>
      PollerOk(s', s'.pollers[i]) || (i in s.pollers && s'.pollers[i] == s.pollers[i])
    ensures Inv(s')
  {
    hide AckedOffsets, DeliveredOffsets, TotalDelivered, TotalAcked, C.Sole, C.Topic;
    forall key, p
      ensures CellOk(s', key, p)
    {
      assert CellOk(s, key, p);
    }
    forall i | i in s'.pollers
      ensures PollerOk(s', s'.pollers[i])
    {
      if i in s.pollers && s'.pollers[i] == s.pollers[i] { assert PollerOk(s, s.pollers[i]); }
    }
    forall id | id in s'.consumers.inflight
      ensures EntryOk(s'.consumers, id)
    {
      assert EntryOk(s.consumers, id);
    }
  }

  lemma SkipInv(s: State, i: nat, w: Poller)
    requires Inv(s) && i in s.pollers && s.pollers[i] == w && w.HasMessage? && w.message.topic != w.topic
    ensures Inv(SkipStep(s, i, w))
  {
    hide AckedOffsets, DeliveredOffsets, TotalDelivered, TotalAcked, C.Sole, C.Topic;
    var s' := SkipStep(s, i, w);
    assert PollerOk(s, w);
    assert Covered(s, w.key, w.p, w.offset + 1);
    forall key, p
      ensures CellOk(s', key, p)
    {
      assert CellOk(s, key, p);
    }
    forall id | id in s'.consumers.inflight
      ensures EntryOk(s'.consumers, id)
    {
      assert EntryOk(s.consumers, id);
    }
    forall j | j in s'.pollers
      ensures PollerOk(s', s'.pollers[j])
    {
      if j != i { assert PollerOk(s, s.pollers[j]); }
    }
  }

  lemma MarkCell(s: State, i: nat, w: Poller, key: bytes, p: int)
    requires Inv(s) && i in s.pollers && s.pollers[i] == w && w.HasMessage? && w.message.topic == w.topic
    requires C.CellAt(s.consumers, w.key, w.p).slot.None?
    ensures AckedOffsets(MarkStep(s, i, w).history, key, p) == AckedOffsets(s.history, key, p)
    ensures CellOk(MarkStep(s, i, w), key, p)
  {
    hide AckedOffsets, DeliveredOffsets, TotalDelivered, TotalAcked, C.Sole, C.Topic;
    assert PollerOk(s, w);
    assert CellOk(s, key, p);
    HistorySnoc(s.history, Delivered(w.key, w.p, w.offset), key, p);
  }

  lemma MarkInv(s: State, i: nat, w: Poller)
    requires Inv(s) && i in s.pollers && s.pollers[i] == w && w.HasMessage? && w.message.topic == w.topic
    requires C.CellAt(s.consumers, w.key, w.p).slot.None?
    ensures Inv(MarkStep(s, i, w))
  {
    hide AckedOffsets, DeliveredOffsets, TotalDelivered, TotalAcked, C.Sole, C.Topic;
    var s' := MarkStep(s, i, w);
    assert PollerOk(s, w);
    forall key, p
      ensures AckedOffsets(s'.history, key, p) == AckedOffsets(s.history, key, p)
      ensures CellOk(s', key, p)
    {
      MarkCell(s, i, w, key, p);
    }
    forall id | id in s'.consumers.inflight
      ensures EntryOk(s'.consumers, id)
    {
      if id != w.message.id { assert EntryOk(s.consumers, id); }
    }
    forall j | j in s'.pollers
      ensures PollerOk(s', s'.pollers[j])
    {
      if j != i { assert PollerOk(s, s.pollers[j]); }
    }
  }

  /** The entry an acknowledgement finds always matches its slot. */
  lemma AckFinds(c: C.State, id: bytes)
    requires id in c.inflight && EntryOk(c, id)
    ensures C.Ack(c, id).1 == Some(c.inflight[id])
  {
  }

  /** What a successful acknowledgement changes. */
  lemma AckEffect(s: State, id: bytes)
    requires Inv(s) && id in s.consumers.inflight
    ensures var s' := AckStep(s, id); var d := s.consumers.inflight[id];
      && d.messageID == id
      && s'.logs == s.logs && s'.pollers == s.pollers
      && s'.history == s.history + [Acked(d.groupKey, d.partition, d.offset)]
      && s'.consumers.inflight == s.consumers.inflight - {id}
      && C.CellAt(s.consumers, d.groupKey, d.partition).slot == Some(d)
      && C.CellAt(s'.consumers, d.groupKey, d.partition) == C.Cell(d.offset + 1, None)
      && forall key, p :: (key, p) != (d.groupKey, d.partition) ==>
           C.CellAt(s'.consumers, key, p) == C.CellAt(s.consumers, key, p)
  {
    hide AckedOffsets, DeliveredOffsets, TotalDelivered, TotalAcked, C.Sole, C.Topic;
    assert EntryOk(s.consumers, id);
    AckFinds(s.consumers, id);
  }

  lemma AckCell(s: State, id: bytes, key: bytes, p: int)
    requires Inv(s) && id in s.consumers.inflight
    ensures CellOk(AckStep(s, id), key, p)
  {
    hide AckedOffsets, DeliveredOffsets, TotalDelivered, TotalAcked, C.Sole, C.Topic, AckStep;
    var s', d := AckStep(s, id), s.consumers.inflight[id];
    AckEffect(s, id);
    assert CellOk(s, key, p);
    HistorySnoc(s.history, Acked(d.groupKey, d.partition, d.offset), key, p);
    var cell := C.CellAt(s.consumers, key, p);
    CoveredGrows(s, s', key, p, cell.next);
    if cell.slot.Some? { CoveredGrows(s, s', key, p, cell.slot.value.offset); }
  }

  lemma AckInv(s: State, id: bytes)
    requires Inv(s)
    ensures Inv(AckStep(s, id))
  {
    hide AckedOffsets, DeliveredOffsets, TotalDelivered, TotalAcked, C.Sole, C.Topic;
    if id in s.consumers.inflight {
      hide AckStep;
      var s', d := AckStep(s, id), s.consumers.inflight[id];
      AckEffect(s, id);
      forall key, p
        ensures CellOk(s', key, p)
      {
        AckCell(s, id, key, p);
      }
      forall id' | id' in s'.consumers.inflight
        ensures EntryOk(s'.consumers, id')
      {
        assert EntryOk(s.consumers, id');
      }
      forall j | j in s'.pollers
        ensures PollerOk(s', s'.pollers[j])
      {
        var w := s.pollers[j];
        assert PollerOk(s, w);
        HistorySnoc(s.history, Acked(d.groupKey, d.partition, d.offset), w.key, w.p);
        if w.HasOffset? || w.HasMessage? { CoveredGrows(s, s', w.key, w.p, w.offset); }
      }
    }
  }

  lemma ReadCursorInv(s: State, i: nat)
    requires Inv(s)
    ensures Inv(ReadCursorStep(s, i))
  {
    hide AckedOffsets, DeliveredOffsets, TotalDelivered, TotalAcked, C.Sole, C.Topic;
    if i in s.pollers && s.pollers[i].Started? {
      assert PollerOk(s, s.pollers[i]) && CellOk(s, s.pollers[i].key, s.pollers[i].p);
      QuietStep(s, ReadCursorStep(s, i));
    }
  }

  lemma ReadStorageInv(s: State, i: nat)
    requires Inv(s)
    ensures Inv(ReadStorageStep(s, i))
  {
    hide AckedOffsets, DeliveredOffsets, TotalDelivered, TotalAcked, C.Sole, C.Topic;
    if i in s.pollers && s.pollers[i].HasOffset? {
      assert PollerOk(s, s.pollers[i]);
      QuietStep(s, ReadStorageStep(s, i));
    }
  }

  lemma DecideInv(s: State, i: nat)
    requires Inv(s)
    ensures Inv(Apply(s, Decide(i)))
  {
    hide AckedOffsets, DeliveredOffsets, TotalDelivered, TotalAcked, C.Sole, C.Topic;
    if i in s.pollers && s.pollers[i].HasMessage? {
      var w := s.pollers[i];
      if w.message.topic != w.topic {
        SkipInv(s, i, w);
      } else if C.CellAt(s.consumers, w.key, w.p).slot.None? {
        MarkInv(s, i, w);
      } else {
        QuietStep(s, MarkStep(s, i, w));
      }
    }
  }

  lemma StartPollInv(s: State, step: Step)
    requires Inv(s) && step.StartPoll?
    ensures Inv(Apply(s, step))
  {
    if step.topic != [] && step.group != [] { C.SoleKey(step.topic, step.group); }
    hide C.Sole, C.Topic;
    QuietStep(s, Apply(s, step));
  }

  lemma StepInv(s: State, step: Step)
    requires Inv(s)
    ensures Inv(Apply(s, step))
  {
    hide AckedOffsets, DeliveredOffsets, TotalDelivered, TotalAcked, C.Sole, C.Topic;
    match step
    case ReadCursor(i) => ReadCursorInv(s, i);
    case ReadStorage(i) => ReadStorageInv(s, i);
    case Decide(i) => DecideInv(s, i);
    case AckMessage(id) => AckInv(s, id);
    case StartPoll(_, _, _, _) => StartPollInv(s, step);
    case _ => QuietStep(s, Apply(s, step));
  }

  lemma {:induction false} RunInv(logs: map<int, seq<Message>>, steps: seq<Step>)
    ensures Inv(Run(logs, steps))
  {
    if steps != [] {
      RunInv(logs, steps[..|steps| - 1]);
      StepInv(Run(logs, steps[..|steps| - 1]), steps[|steps| - 1]);
    }
  }

  // ---------------------------------------------------------------- nothing is skipped

  /** Every message of the topic below the cursor has been delivered and acknowledged to the
      group. */
  ghost predicate NoneSkipped(s: State, topic: bytes, group: bytes, p: int) {
    var key := C.ConsumerKey(topic, group);
    var cell := C.CellAt(s.consumers, key, p);
    && cell.next <= |LogAt(s, p)|
    && forall o :: 0 <= o < cell.next && LogAt(s, p)[o].topic == topic ==>
         o in AckedOffsets(s.history, key, p) && o in DeliveredOffsets(s.history, key, p)
  }

  /** In every interleaving nothing is skipped for a subscription that shares its key with no
      other, even though a stale poller may have moved the cursor back. */
  lemma NothingSkipped(logs: map<int, seq<Message>>, steps: seq<Step>, topic: bytes, group: bytes, p: int)
    requires C.Alone(topic, group)
    ensures NoneSkipped(Run(logs, steps), topic, group, p)
  {
    RunInv(logs, steps);
    C.SoleKey(topic, group);
    hide C.Sole, C.Topic, Run;
    assert CellOk(Run(logs, steps), C.ConsumerKey(topic, group), p);
    var s, key := Run(logs, steps), C.ConsumerKey(topic, group);
    assert forall o :: 0 <= o < |LogAt(s, p)| && LogAt(s, p)[o].topic == topic ==> Wants(key, LogAt(s, p)[o]);
  }

  /** Deliveries and acknowledgements of one (key, partition) alternate, so at most one is
      outstanding. */
  lemma OneOutstanding(logs: map<int, seq<Message>>, steps: seq<Step>, key: bytes, p: int)
    ensures var s := Run(logs, steps);
      DeliveredOffsets(s.history, key, p) ==
        AckedOffsets(s.history, key, p) + SlotOffsets(C.CellAt(s.consumers, key, p))
  {
    RunInv(logs, steps);
    hide Run;
    assert CellOk(Run(logs, steps), key, p);
  }

  /** Each in-flight entry names a slot holding that delivery and no two entries name the
      same slot, so an acknowledgement never meets a stale entry: it fails exactly when the
      message ID is not in the map. */
  lemma NoStaleEntries(logs: map<int, seq<Message>>, steps: seq<Step>, id1: bytes, id2: bytes)
    requires id1 in Run(logs, steps).consumers.inflight && id2 in Run(logs, steps).consumers.inflight
    ensures var c := Run(logs, steps).consumers; var d1, d2 := c.inflight[id1], c.inflight[id2];
      && d1.messageID == id1
      && C.CellAt(c, d1.groupKey, d1.partition).slot == Some(d1)
      && C.Ack(c, id1).1 == Some(d1)
      && ((d1.groupKey, d1.partition) == (d2.groupKey, d2.partition) ==> id1 == id2)
  {
    RunInv(logs, steps);
    var c := Run(logs, steps).consumers;
    assert EntryOk(c, id1) && EntryOk(c, id2);
    AckFinds(c, id1);
  }

  // ---------------------------------------------------------------- conservation

  ghost function Filled(c: C.State): set<(bytes, int)> {
    set q | q in c.cells && c.cells[q].slot.Some?
  }

  ghost function MarkedPollers(s: State): set<nat> {
    set i | i in s.pollers && s.pollers[i].Marked?
  }

  /** The counters lag the history by the calls that are midway. */
  ghost predicate Counters(s: State) {
    && s.delivered + |MarkedPollers(s)| == TotalDelivered(s.history)
    && s.acked + s.uncountedAcks == TotalAcked(s.history)
  }

  ghost predicate Named(c: C.State, q: (bytes, int))
    requires q in c.cells && c.cells[q].slot.Some?
  {
    var d := c.cells[q].slot.value;
    d.messageID in c.inflight && c.inflight[d.messageID] == d
  }

  /** Filled slots are those with a map entry and those that lost theirs. */
  ghost predicate Slots(s: State) {
    && TotalDelivered(s.history) == TotalAcked(s.history) + |Filled(s.consumers)|
    && |Filled(s.consumers)| == |s.consumers.inflight| + |s.orphans|
    && s.orphans <= Filled(s.consumers)
    && (forall q :: q in Filled(s.consumers) ==> (q in s.orphans <==> !Named(s.consumers, q)))
  }

  lemma CountersQuiet(s: State, s': State)
    requires Counters(s) && s'.history == s.history
    requires s'.delivered == s.delivered && s'.acked + s'.uncountedAcks == s.acked + s.uncountedAcks
    requires forall i :: i in s'.pollers && s'.pollers[i].Marked? <==> i in s.pollers && s.pollers[i].Marked?
    ensures Counters(s')
  {
    assert MarkedPollers(s') == MarkedPollers(s);
  }

  lemma CountersMark(s: State, i: nat, w: Poller)
    requires Counters(s) && i in s.pollers && s.pollers[i] == w && w.HasMessage?
    ensures Counters(MarkStep(s, i, w))
  {
    var s' := MarkStep(s, i, w);
    if C.CellAt(s.consumers, w.key, w.p).slot.None? {
      HistorySnoc(s.history, Delivered(w.key, w.p, w.offset), w.key, w.p);
      assert MarkedPollers(s') == MarkedPollers(s) + {i};
    } else {
      CountersQuiet(s, s');
    }
  }

  lemma CountersAck(s: State, id: bytes)
    requires Counters(s)
    ensures Counters(AckStep(s, id))
  {
    var d := C.Ack(s.consumers, id).1;
    if d.Some? {
      HistorySnoc(s.history, Acked(d.value.groupKey, d.value.partition, d.value.offset), [], 0);
    }
    assert MarkedPollers(AckStep(s, id)) == MarkedPollers(s);
  }

  lemma CountersDelivery(s: State, i: nat)
    requires Counters(s)
    ensures Counters(Apply(s, CountDelivery(i)))
  {
    if i in s.pollers && s.pollers[i].Marked? {
      assert MarkedPollers(Apply(s, CountDelivery(i))) == MarkedPollers(s) - {i};
    }
  }

  lemma CountersStep(s: State, step: Step)
    requires Counters(s)
    ensures Counters(Apply(s, step))
  {
    hide Counters, MarkStep, AckStep;
    match step
    case Decide(i) =>
      if i in s.pollers && s.pollers[i].HasMessage? {
        if s.pollers[i].message.topic == s.pollers[i].topic {
          CountersMark(s, i, s.pollers[i]);
        } else {
          CountersQuiet(s, Apply(s, step));
        }
      }
    case AckMessage(id) => CountersAck(s, id);
    case CountDelivery(i) => CountersDelivery(s, i);
    case _ => CountersQuiet(s, Apply(s, step));
  }

  lemma SlotsQuiet(s: State, s': State)
    requires Slots(s) && s'.history == s.history && s'.orphans == s.orphans
    requires s'.consumers.inflight == s.consumers.inflight
    requires forall key, p :: C.CellAt(s'.consumers, key, p).slot == C.CellAt(s.consumers, key, p).slot
    ensures Slots(s')
  {
    hide AckedOffsets, DeliveredOffsets, TotalDelivered, TotalAcked, C.Sole, C.Topic;
    forall q: (bytes, int)
      ensures q in Filled(s'.consumers) <==> q in Filled(s.consumers)
      ensures q in Filled(s'.consumers) && q in Filled(s.consumers) ==>
        s'.consumers.cells[q].slot == s.consumers.cells[q].slot
    {
      assert C.CellAt(s'.consumers, q.0, q.1).slot == C.CellAt(s.consumers, q.0, q.1).slot;
    }
    assert Filled(s'.consumers) == Filled(s.consumers);
  }

  /** What a successful mark changes. */
  lemma MarkEffect(s: State, i: nat, w: Poller)
    requires w.HasMessage? && C.CellAt(s.consumers, w.key, w.p).slot.None?
    ensures var s' := MarkStep(s, i, w); var d := C.Delivery(w.message.id, w.key, w.p, w.offset);
      && Filled(s'.consumers) == Filled(s.consumers) + {(w.key, w.p)}
      && (w.key, w.p) !in Filled(s.consumers)
      && s'.consumers.cells[(w.key, w.p)].slot == Some(d)
      && (forall q :: q in Filled(s.consumers) ==> s'.consumers.cells[q] == s.consumers.cells[q])
      && s'.consumers.inflight == s.consumers.inflight[d.messageID := d]
      && s'.orphans == s.orphans + Overwritten(s.consumers, d.messageID)
      && s'.history == s.history + [Delivered(w.key, w.p, w.offset)]
  {
  }

  lemma SlotsMark(s: State, i: nat, w: Poller)
    requires Inv(s) && Slots(s) && w.HasMessage? && C.CellAt(s.consumers, w.key, w.p).slot.None?
    ensures Slots(MarkStep(s, i, w))
  {
    hide AckedOffsets, DeliveredOffsets, TotalDelivered, TotalAcked, MarkStep, Inv, Named;
    MarkEffect(s, i, w);
    HistorySnoc(s.history, Delivered(w.key, w.p, w.offset), w.key, w.p);
    MarkInflightSize(s, i, w);
    forall r | r in Filled(MarkStep(s, i, w).consumers)
      ensures r in MarkStep(s, i, w).orphans <==> !Named(MarkStep(s, i, w).consumers, r)
    {
      NamedAfterMark(s, i, w, r);
    }
  }

  /** A mark adds one map entry or takes one over and orphans its slot. */
  lemma MarkInflightSize(s: State, i: nat, w: Poller)
    requires Inv(s) && Slots(s) && w.HasMessage? && C.CellAt(s.consumers, w.key, w.p).slot.None?
    ensures var s' := MarkStep(s, i, w);
      && |s'.consumers.inflight| + |s'.orphans| == |s.consumers.inflight| + |s.orphans| + 1
      && s'.orphans <= s.orphans + Filled(s.consumers)
  {
    hide Slots, Named, MarkStep, Inv;
    MarkEffect(s, i, w);
    var s', id := MarkStep(s, i, w), w.message.id;
    if id in s.consumers.inflight {
      OverwrittenSlot(s, id);
      assert s'.consumers.inflight.Keys == s.consumers.inflight.Keys;
    } else {
      assert s'.consumers.inflight.Keys == s.consumers.inflight.Keys + {id};
      assert s'.orphans == s.orphans;
    }
  }

  lemma NamedAfterMark(s: State, i: nat, w: Poller, r: (bytes, int))
    requires Inv(s) && Slots(s) && w.HasMessage? && C.CellAt(s.consumers, w.key, w.p).slot.None?
    requires r in Filled(MarkStep(s, i, w).consumers)
    ensures var s' := MarkStep(s, i, w); r in s'.orphans <==> !Named(s'.consumers, r)
  {
    hide AckedOffsets, DeliveredOffsets, TotalDelivered, TotalAcked, C.Sole, C.Topic, MarkStep, Inv;
    MarkEffect(s, i, w);
    if w.message.id in s.consumers.inflight {
      OverwrittenSlot(s, w.message.id);
    }
    if r in Filled(s.consumers) {
      NamedByOwnId(s, r);
      assert r in s.orphans <==> !Named(s.consumers, r);
    }
  }

  /** The slot that loses its entry was filled, and named by that entry. */
  lemma OverwrittenSlot(s: State, id: bytes)
    requires Inv(s) && Slots(s) && id in s.consumers.inflight
    ensures var d := s.consumers.inflight[id]; var q := (d.groupKey, d.partition);
      && d.messageID == id && Overwritten(s.consumers, id) == {q}
      && q in Filled(s.consumers) && s.consumers.cells[q].slot == Some(d) && q !in s.orphans
  {
    hide AckedOffsets, DeliveredOffsets, TotalDelivered, TotalAcked, C.Sole, C.Topic;
    assert EntryOk(s.consumers, id);
    var d := s.consumers.inflight[id];
    assert Named(s.consumers, (d.groupKey, d.partition));
  }

  /** A named slot is the one its entry points to. */
  lemma NamedByOwnId(s: State, r: (bytes, int))
    requires Inv(s) && r in Filled(s.consumers)
    ensures var d := s.consumers.cells[r].slot.value; (d.groupKey, d.partition) == r
  {
    hide AckedOffsets, DeliveredOffsets, TotalDelivered, TotalAcked, C.Sole, C.Topic;
    assert CellOk(s, r.0, r.1);
  }

  lemma SlotsAck(s: State, id: bytes)
    requires Inv(s) && Slots(s) && id in s.consumers.inflight
    ensures Slots(AckStep(s, id))
  {
    hide AckedOffsets, DeliveredOffsets, TotalDelivered, TotalAcked, C.Sole, C.Topic;
    var s', d := AckStep(s, id), s.consumers.inflight[id];
    var q := (d.groupKey, d.partition);
    AckEffect(s, id);
    HistorySnoc(s.history, Acked(d.groupKey, d.partition, d.offset), d.groupKey, d.partition);
    assert q in Filled(s.consumers) && Named(s.consumers, q);
    assert Filled(s'.consumers) == Filled(s.consumers) - {q};
    assert s'.consumers.inflight.Keys == s.consumers.inflight.Keys - {id};
    forall r | r in Filled(s'.consumers)
      ensures r in s'.orphans <==> !Named(s'.consumers, r)
    {
      NamedByOwnId(s, r);
    }
  }

  lemma SlotsDecide(s: State, i: nat)
    requires Inv(s) && Slots(s)
    ensures Slots(Apply(s, Decide(i)))
  {
    hide AckedOffsets, DeliveredOffsets, TotalDelivered, TotalAcked, C.Sole, C.Topic, Slots;
    if i in s.pollers && s.pollers[i].HasMessage? {
      var w := s.pollers[i];
      if w.message.topic == w.topic && C.CellAt(s.consumers, w.key, w.p).slot.None? {
        SlotsMark(s, i, w);
      } else {
        SlotsQuiet(s, Apply(s, Decide(i)));
      }
    }
  }

  lemma SlotsStep(s: State, step: Step)
    requires Inv(s) && Slots(s)
    ensures Slots(Apply(s, step))
  {
    hide AckedOffsets, DeliveredOffsets, TotalDelivered, TotalAcked, C.Sole, C.Topic, Inv, Slots;
    match step
    case Decide(i) => SlotsDecide(s, i);
    case AckMessage(id) =>
      if id in s.consumers.inflight { SlotsAck(s, id); }
    case _ => SlotsQuiet(s, Apply(s, step));
  }

  lemma {:induction false} RunCounts(logs: map<int, seq<Message>>, steps: seq<Step>)
    ensures Counters(Run(logs, steps)) && Slots(Run(logs, steps))
  {
    if steps == [] {
      assert MarkedPollers(Init(logs)) == {} && Filled(Init(logs).consumers) == {};
    } else {
      var before := steps[..|steps| - 1];
      RunCounts(logs, before);
      RunInv(logs, before);
      CountersStep(Run(logs, before), steps[|steps| - 1]);
      SlotsStep(Run(logs, before), steps[|steps| - 1]);
    }
  }

  /** A delivery is marked while another of the same message ID is in flight. */
  ghost predicate Collides(s: State, step: Step) {
    step.Decide? && step.poller in s.pollers && s.pollers[step.poller].HasMessage? &&
    var w := s.pollers[step.poller];
    w.message.topic == w.topic && C.CellAt(s.consumers, w.key, w.p).slot.None? &&
    w.message.id in s.consumers.inflight
  }

  ghost predicate CollisionFree(logs: map<int, seq<Message>>, steps: seq<Step>) {
    steps == [] ||
    (CollisionFree(logs, steps[..|steps| - 1]) &&
     !Collides(Run(logs, steps[..|steps| - 1]), steps[|steps| - 1]))
  }

  lemma {:induction false} OrphansFromCollisions(logs: map<int, seq<Message>>, steps: seq<Step>)
    ensures Run(logs, steps).orphans == {} <==> CollisionFree(logs, steps)
  {
    if steps != [] {
      OrphansFromCollisions(logs, steps[..|steps| - 1]);
      CollisionAddsOrphan(Run(logs, steps[..|steps| - 1]), steps[|steps| - 1]);
    }
  }

  /** Every filled slot has its map entry exactly when no marking has collided. */
  lemma NamedExactlyWithoutCollisions(logs: map<int, seq<Message>>, steps: seq<Step>)
    ensures var c := Run(logs, steps).consumers;
      (forall q :: q in Filled(c) ==> Named(c, q)) <==> CollisionFree(logs, steps)
  {
    OrphansFromCollisions(logs, steps);
    RunCounts(logs, steps);
    var s := Run(logs, steps);
    hide Run, Named;
    if s.orphans != {} {
      var q :| q in s.orphans;
      assert q in Filled(s.consumers) && !Named(s.consumers, q);
    }
  }

  /** Whenever no call is midway, Delivered = Acked + filled slots; and this is Acked + the
      in-flight count exactly when no marking has collided. */
  lemma Conservation(logs: map<int, seq<Message>>, steps: seq<Step>)
    requires var s := Run(logs, steps); s.pollers == map[] && s.uncountedAcks == 0
    ensures var s := Run(logs, steps);
      && s.delivered == s.acked + |Filled(s.consumers)|
      && s.delivered >= s.acked + |s.consumers.inflight|
      && (s.delivered == s.acked + |s.consumers.inflight| <==> CollisionFree(logs, steps))
  {
    OrphansFromCollisions(logs, steps);
    RunCounts(logs, steps);
    assert MarkedPollers(Run(logs, steps)) == {};
  }

  lemma CollisionAddsOrphan(s: State, step: Step)
    ensures Apply(s, step).orphans == {} <==> s.orphans == {} && !Collides(s, step)
  {
    hide AckedOffsets, DeliveredOffsets, TotalDelivered, TotalAcked, C.Sole, C.Topic;
  }

  /** A filled slot without a map entry can never be acknowledged: its subscription makes no
      further progress on that partition, whatever happens. */
  lemma OrphanStuck(logs: map<int, seq<Message>>, steps: seq<Step>, more: seq<Step>, q: (bytes, int))
    requires var c := Run(logs, steps).consumers; q in Filled(c) && !Named(c, q)
    ensures var c, c' := Run(logs, steps).consumers, RunFrom(Run(logs, steps), more).consumers;
      q in Filled(c') && !Named(c', q) && c'.cells[q] == c.cells[q]
  {
    RunInv(logs, steps);
    RunCounts(logs, steps);
    OrphanRun(Run(logs, steps), more, q);
  }

  lemma {:induction false} OrphanRun(s: State, steps: seq<Step>, q: (bytes, int))
    requires Inv(s) && Slots(s) && q in s.orphans
    ensures var s' := RunFrom(s, steps);
      Inv(s') && Slots(s') && q in s'.orphans && s'.consumers.cells[q] == s.consumers.cells[q]
  {
    if steps != [] {
      OrphanRun(s, steps[..|steps| - 1], q);
      OrphanStep(RunFrom(s, steps[..|steps| - 1]), steps[|steps| - 1], q);
    }
  }

  lemma OrphanStep(s: State, step: Step, q: (bytes, int))
    requires Inv(s) && Slots(s) && q in s.orphans
    ensures var s' := Apply(s, step);
      Inv(s') && Slots(s') && q in s'.orphans && s'.consumers.cells[q] == s.consumers.cells[q]
  {
    hide AckedOffsets, DeliveredOffsets, TotalDelivered, TotalAcked, C.Sole, C.Topic;
    StepInv(s, step);
    SlotsStep(s, step);
    if step.AckMessage? {
      if step.id in s.consumers.inflight {
        AckEffect(s, step.id);
        OverwrittenSlot(s, step.id);
        assert C.CellAt(Apply(s, step).consumers, q.0, q.1) == C.CellAt(s.consumers, q.0, q.1);
      }
    } else {
      FilledStays(s, step, q);
    }
  }

  /** Only an acknowledgement empties a slot, and nothing moves the cursor of a filled one. */
  lemma FilledStays(s: State, step: Step, q: (bytes, int))
    requires q in Filled(s.consumers) && !step.AckMessage?
    ensures var s' := Apply(s, step);
      q in s'.consumers.cells && s'.consumers.cells[q] == s.consumers.cells[q] && s.orphans <= s'.orphans
  {
    hide AckedOffsets, DeliveredOffsets, TotalDelivered, TotalAcked, C.Sole, C.Topic;
  }

  // ---------------------------------------------------------------- delivery in order

  /** The offsets below `n` of messages of a topic, in order. */
  function Matching(log: seq<Message>, topic: bytes, n: nat): seq<nat>
    requires n <= |log|
  {
    if n == 0 then []
    else Matching(log, topic, n - 1) + if log[n - 1].topic == topic then [n - 1] else []
  }

  /** It lists each such offset exactly once, in increasing order. */
  lemma {:induction false} MatchingIsFilter(log: seq<Message>, topic: bytes, n: nat)
    requires n <= |log|
    ensures var m := Matching(log, topic, n);
      && (forall o: nat :: o in m <==> o < n && log[o].topic == topic)
      && (forall i, j :: 0 <= i < j < |m| ==> m[i] < m[j])
  {
    if n > 0 {
      MatchingIsFilter(log, topic, n - 1);
      var m := Matching(log, topic, n - 1);
      assert forall i :: 0 <= i < |m| ==> m[i] in m;
    }
  }

  lemma {:induction false} MatchingGrows(log: seq<Message>, log': seq<Message>, topic: bytes, n: nat)
    requires n <= |log| && log <= log'
    ensures Matching(log', topic, n) == Matching(log, topic, n)
  {
    if n > 0 { MatchingGrows(log, log', topic, n - 1); }
  }

  /** The poller works on this subscription and partition. */
  predicate On(s: State, i: nat, key: bytes, p: int) {
    i in s.pollers && s.pollers[i].key == key && s.pollers[i].p == p
  }

  /** Where a cell stands: past the delivery in flight, or at the cursor. */
  function Position(cell: C.Cell): nat {
    if cell.slot.Some? then cell.slot.value.offset + 1 else cell.next
  }

  /** The deliveries so far are exactly the messages of the topic up to the position, each
      once and in order. */
  ghost predicate InOrder(s: State, key: bytes, topic: bytes, p: int) {
    var n := Position(C.CellAt(s.consumers, key, p));
    n <= |LogAt(s, p)| && DeliveredOffsets(s.history, key, p) == Matching(LogAt(s, p), topic, n)
  }

  /** A message of the topic at or past `lo` and before `hi`. */
  ghost predicate Between(log: seq<Message>, topic: bytes, lo: nat, hi: nat) {
    exists k :: lo <= k < hi && k < |log| && log[k].topic == topic
  }

  /** A poller with a free cell passes the cursor over a message of the topic, in either
      direction, or delivers one that is not the next. */
  ghost predicate Strays(s: State, step: Step, key: bytes, topic: bytes, p: int) {
    step.Decide? && On(s, step.poller, key, p) && s.pollers[step.poller].HasMessage? &&
    var w, cell := s.pollers[step.poller], C.CellAt(s.consumers, key, p);
    cell.slot.None? &&
    if w.message.topic != w.topic then
      Between(LogAt(s, p), topic, cell.next, w.offset + 1) || Between(LogAt(s, p), topic, w.offset + 1, cell.next)
    else
      w.offset < cell.next || w.message.topic != topic || Between(LogAt(s, p), topic, cell.next, w.offset)
  }

  /** A stale poller with a free cell moves the cursor back over a message of the topic, or
      delivers one from before the cursor. */
  ghost predicate Rewinds(s: State, step: Step, key: bytes, topic: bytes, p: int) {
    step.Decide? && On(s, step.poller, key, p) && s.pollers[step.poller].HasMessage? &&
    var w, cell := s.pollers[step.poller], C.CellAt(s.consumers, key, p);
    cell.slot.None? &&
    Between(LogAt(s, p), topic, if w.message.topic == w.topic then w.offset else w.offset + 1, cell.next)
  }

  /** Two positions list the same messages exactly when none lies between them. */
  lemma {:induction false} MatchingSame(log: seq<Message>, topic: bytes, lo: nat, hi: nat)
    requires lo <= hi <= |log|
    ensures Matching(log, topic, lo) == Matching(log, topic, hi) <==> !Between(log, topic, lo, hi)
    ensures |Matching(log, topic, lo)| <= |Matching(log, topic, hi)|
  {
    if lo < hi {
      MatchingSame(log, topic, lo, hi - 1);
      if log[hi - 1].topic != topic {
        assert Between(log, topic, lo, hi) ==> Between(log, topic, lo, hi - 1);
      } else {
        assert lo <= hi - 1 < hi;
      }
      assert Between(log, topic, lo, hi - 1) ==> Between(log, topic, lo, hi);
    }
  }

  /** Adding one offset gives the list up to it exactly when it is the next of the topic. */
  lemma MatchingNext(log: seq<Message>, topic: bytes, n: nat, o: nat)
    requires n <= |log| && o < |log|
    ensures Matching(log, topic, n) + [o] == Matching(log, topic, o + 1) <==>
      n <= o && log[o].topic == topic && !Between(log, topic, n, o)
  {
    var a, b := Matching(log, topic, n), Matching(log, topic, o + 1);
    if log[o].topic != topic {
      MatchingIsFilter(log, topic, o + 1);
      assert (a + [o])[|a|] == o;
    } else {
      var c := Matching(log, topic, o);
      assert b == c + [o];
      assert a + [o] == b <==> a == c by {
        if a + [o] == b { assert a == (a + [o])[..|a|] && c == (c + [o])[..|c|]; }
      }
      if n <= o {
        MatchingSame(log, topic, n, o);
      } else {
        MatchingSame(log, topic, o + 1, n);
      }
    }
  }

  lemma InOrderQuiet(s: State, s': State, key: bytes, topic: bytes, p: int)
    requires DeliveredOffsets(s'.history, key, p) == DeliveredOffsets(s.history, key, p)
    requires Position(C.CellAt(s'.consumers, key, p)) == Position(C.CellAt(s.consumers, key, p))
    requires LogAt(s, p) <= LogAt(s', p) && InOrder(s, key, topic, p)
    ensures InOrder(s', key, topic, p)
  {
    hide DeliveredOffsets;
    MatchingGrows(LogAt(s, p), LogAt(s', p), topic, Position(C.CellAt(s.consumers, key, p)));
  }

  /** A decision keeps the deliveries in order exactly when it does not stray. */
  lemma DecideOrder(s: State, i: nat, key: bytes, topic: bytes, p: int)
    requires Inv(s) && InOrder(s, key, topic, p)
    ensures InOrder(Apply(s, Decide(i)), key, topic, p) <==> !Strays(s, Decide(i), key, topic, p)
  {
    hide AckedOffsets, DeliveredOffsets, TotalDelivered, TotalAcked, C.Sole, C.Topic;
    var s' := Apply(s, Decide(i));
    if On(s, i, key, p) && s.pollers[i].HasMessage? && C.CellAt(s.consumers, key, p).slot.None? {
      var w, cell := s.pollers[i], C.CellAt(s.consumers, key, p);
      assert PollerOk(s, w);
      if w.message.topic != w.topic {
        SkipOrder(s, i, w, key, topic, p);
      } else {
        MarkOrder(s, i, w, key, topic, p);
      }
    } else {
      DecideElsewhere(s, i, key, p);
      InOrderQuiet(s, s', key, topic, p);
    }
  }

  lemma SkipOrder(s: State, i: nat, w: Poller, key: bytes, topic: bytes, p: int)
    requires InOrder(s, key, topic, p) && w.HasMessage? && w.key == key && w.p == p && w.offset < |LogAt(s, p)|
    requires C.CellAt(s.consumers, key, p).slot.None?
    ensures var n := C.CellAt(s.consumers, key, p).next;
      InOrder(SkipStep(s, i, w), key, topic, p) <==>
        !Between(LogAt(s, p), topic, n, w.offset + 1) && !Between(LogAt(s, p), topic, w.offset + 1, n)
  {
    hide DeliveredOffsets;
    var n := C.CellAt(s.consumers, key, p).next;
    if n <= w.offset + 1 {
      MatchingSame(LogAt(s, p), topic, n, w.offset + 1);
    } else {
      MatchingSame(LogAt(s, p), topic, w.offset + 1, n);
    }
  }

  lemma MarkOrder(s: State, i: nat, w: Poller, key: bytes, topic: bytes, p: int)
    requires InOrder(s, key, topic, p) && w.HasMessage? && w.key == key && w.p == p && w.offset < |LogAt(s, p)|
    requires C.CellAt(s.consumers, key, p).slot.None?
    ensures var n, log := C.CellAt(s.consumers, key, p).next, LogAt(s, p);
      InOrder(MarkStep(s, i, w), key, topic, p) <==>
        n <= w.offset && log[w.offset].topic == topic && !Between(log, topic, n, w.offset)
  {
    hide DeliveredOffsets;
    HistorySnoc(s.history, Delivered(key, p, w.offset), key, p);
    MatchingNext(LogAt(s, p), topic, C.CellAt(s.consumers, key, p).next, w.offset);
  }

  /** A decision of another poller, or on a filled cell, changes nothing here. */
  lemma DecideElsewhere(s: State, i: nat, key: bytes, p: int)
    requires !(On(s, i, key, p) && s.pollers[i].HasMessage? && C.CellAt(s.consumers, key, p).slot.None?)
    ensures var s' := Apply(s, Decide(i));
      && s'.logs == s.logs && C.CellAt(s'.consumers, key, p) == C.CellAt(s.consumers, key, p)
      && DeliveredOffsets(s'.history, key, p) == DeliveredOffsets(s.history, key, p)
  {
    hide DeliveredOffsets;
    if i in s.pollers && s.pollers[i].HasMessage? {
      var w := s.pollers[i];
      HistorySnoc(s.history, Delivered(w.key, w.p, w.offset), key, p);
    }
  }

  lemma AckOrder(s: State, id: bytes, key: bytes, topic: bytes, p: int)
    requires Inv(s) && InOrder(s, key, topic, p)
    ensures InOrder(AckStep(s, id), key, topic, p)
  {
    hide AckedOffsets, DeliveredOffsets, TotalDelivered, TotalAcked, C.Sole, C.Topic;
    if id in s.consumers.inflight {
      hide AckStep;
      var d := s.consumers.inflight[id];
      AckEffect(s, id);
      HistorySnoc(s.history, Acked(d.groupKey, d.partition, d.offset), key, p);
    }
    InOrderQuiet(s, AckStep(s, id), key, topic, p);
  }

  lemma StepOrder(s: State, step: Step, key: bytes, topic: bytes, p: int)
    requires Inv(s) && InOrder(s, key, topic, p)
    ensures InOrder(Apply(s, step), key, topic, p) <==> !Strays(s, step, key, topic, p)
  {
    hide AckedOffsets, DeliveredOffsets, TotalDelivered, TotalAcked, Inv;
    match step
    case Decide(i) => DecideOrder(s, i, key, topic, p);
    case AckMessage(id) => AckOrder(s, id, key, topic, p);
    case _ => InOrderQuiet(s, Apply(s, step), key, topic, p);
  }

  /** For every key, topic and partition: the deliveries are in order and without repeats or
      gaps after every step of a run if and only if no step of it strays. */
  lemma {:induction false} InOrderExactlyWithoutStraying(logs: map<int, seq<Message>>, steps: seq<Step>,
                                                         key: bytes, topic: bytes, p: int)
    ensures (forall n :: 0 <= n <= |steps| ==> InOrder(Run(logs, steps[..n]), key, topic, p)) <==>
            (forall n :: 0 <= n < |steps| ==> !Strays(Run(logs, steps[..n]), steps[n], key, topic, p))
  {
    hide InOrder, Strays, Apply;
    if steps == [] {
      InOrderInit(logs, key, topic, p);
      assert steps[..0] == [];
    } else {
      var last, before := |steps| - 1, steps[..|steps| - 1];
      InOrderExactlyWithoutStraying(logs, before, key, topic, p);
      assert forall n :: 0 <= n <= last ==> before[..n] == steps[..n];
      assert steps[..|steps|] == steps && steps[..last] == before;
      RunInv(logs, before);
      assert Run(logs, steps) == Apply(Run(logs, before), steps[last]);
      assert (forall n :: 0 <= n <= last ==> InOrder(Run(logs, steps[..n]), key, topic, p)) <==>
             (forall n :: 0 <= n <= last ==> InOrder(Run(logs, before[..n]), key, topic, p));
      assert (forall n :: 0 <= n < last ==> !Strays(Run(logs, steps[..n]), steps[n], key, topic, p)) <==>
             (forall n :: 0 <= n < last ==> !Strays(Run(logs, before[..n]), before[n], key, topic, p));
      if InOrder(Run(logs, before), key, topic, p) {
        StepOrder(Run(logs, before), steps[last], key, topic, p);
      }
    }
  }

  lemma InOrderInit(logs: map<int, seq<Message>>, key: bytes, topic: bytes, p: int)
    ensures InOrder(Run(logs, []), key, topic, p)
  {
  }

  /** For a subscription that shares its key with no other, only going back is straying. */
  lemma StraysIsRewinds(logs: map<int, seq<Message>>, steps: seq<Step>, step: Step, topic: bytes, group: bytes, p: int)
    requires C.Alone(topic, group)
    requires var s, key := Run(logs, steps), C.ConsumerKey(topic, group);
      InOrder(s, key, topic, p)
    ensures var s, key := Run(logs, steps), C.ConsumerKey(topic, group);
      Strays(s, step, key, topic, p) <==> Rewinds(s, step, key, topic, p)
  {
    var s, key := Run(logs, steps), C.ConsumerKey(topic, group);
    RunInv(logs, steps);
    C.SoleKey(topic, group);
    hide AckedOffsets, DeliveredOffsets, TotalDelivered, TotalAcked, C.Sole, C.Topic, Run;
    if step.Decide? && On(s, step.poller, key, p) && s.pollers[step.poller].HasMessage? &&
       C.CellAt(s.consumers, key, p).slot.None? {
      var w, n, log := s.pollers[step.poller], C.CellAt(s.consumers, key, p).next, LogAt(s, p);
      assert PollerOk(s, w) && CellOk(s, key, p);
      NoneAhead(s, key, topic, p, w.offset);
      if w.message.topic == topic && w.offset < n {
        assert Between(log, topic, w.offset, n);
      }
      assert Between(log, topic, n, w.offset + 1) ==>
        Between(log, topic, n, w.offset) || log[w.offset].topic == topic;
    }
  }

  /** What a poller has covered past the cursor holds no message of the topic. */
  lemma NoneAhead(s: State, key: bytes, topic: bytes, p: int, o: nat)
    requires InOrder(s, key, topic, p) && CellOk(s, key, p) && C.CellAt(s.consumers, key, p).slot.None?
    requires Covered(s, key, p, o) && C.Sole(key) && C.Topic(key) == topic
    ensures !Between(LogAt(s, p), topic, C.CellAt(s.consumers, key, p).next, o)
  {
    hide AckedOffsets, DeliveredOffsets, TotalDelivered, TotalAcked, C.Sole, C.Topic;
    var n, log := C.CellAt(s.consumers, key, p).next, LogAt(s, p);
    MatchingIsFilter(log, topic, n);
    assert forall k :: 0 <= k < |log| && log[k].topic == topic ==> Wants(key, log[k]);
  }

  /** For a subscription that shares its key with no other: delivery is in order and exactly
      once after every step of a run if and only if no stale poller rewinds. */
  lemma InOrderExactlyWithoutRewinds(logs: map<int, seq<Message>>, steps: seq<Step>, topic: bytes, group: bytes, p: int)
    requires C.Alone(topic, group)
    ensures var key := C.ConsumerKey(topic, group);
      (forall n :: 0 <= n <= |steps| ==> InOrder(Run(logs, steps[..n]), key, topic, p)) <==>
      (forall n :: 0 <= n < |steps| ==> !Rewinds(Run(logs, steps[..n]), steps[n], key, topic, p))
  {
    var key := C.ConsumerKey(topic, group);
    hide InOrder, Strays, Rewinds, Run;
    InOrderExactlyWithoutStraying(logs, steps, key, topic, p);
    if forall n :: 0 <= n <= |steps| ==> InOrder(Run(logs, steps[..n]), key, topic, p) {
      forall n | 0 <= n < |steps|
        ensures !Rewinds(Run(logs, steps[..n]), steps[n], key, topic, p)
      {
        StraysIsRewinds(logs, steps[..n], steps[n], topic, group, p);
      }
    } else if forall n :: 0 <= n < |steps| ==> !Rewinds(Run(logs, steps[..n]), steps[n], key, topic, p) {
      InOrderUpTo(logs, steps, topic, group, p, |steps|);
      assert false;
    }
  }

  lemma {:induction false} InOrderUpTo(logs: map<int, seq<Message>>, steps: seq<Step>, topic: bytes, group: bytes, p: int, m: nat)
    requires C.Alone(topic, group) && m <= |steps|
    requires var key := C.ConsumerKey(topic, group);
      forall n :: 0 <= n < m ==> !Rewinds(Run(logs, steps[..n]), steps[n], key, topic, p)
    ensures var key := C.ConsumerKey(topic, group);
      forall n :: 0 <= n <= m ==> InOrder(Run(logs, steps[..n]), key, topic, p)
  {
    hide InOrder, Rewinds, Strays, Apply, Inv;
    if m == 0 {
      InOrderInit(logs, C.ConsumerKey(topic, group), topic, p);
    } else {
      InOrderUpTo(logs, steps, topic, group, p, m - 1);
      StraysIsRewinds(logs, steps[..m - 1], steps[m - 1], topic, group, p);
      RunInv(logs, steps[..m - 1]);
      StepOrder(Run(logs, steps[..m - 1]), steps[m - 1], C.ConsumerKey(topic, group), topic, p);
      assert steps[..m][..m - 1] == steps[..m - 1];
    }
  }

  // ---------------------------------------------------------------- polls that do not overlap

  /** A poll of (key, p) starts only when none is under way. */
  ghost predicate NonOverlapping(logs: map<int, seq<Message>>, steps: seq<Step>, key: bytes, p: int) {
    forall n :: 0 <= n < |steps| ==> StartsAlone(Run(logs, steps[..n]), steps[n], key, p)
  }

  ghost predicate StartsAlone(s: State, step: Step, key: bytes, p: int) {
    step.StartPoll? && C.ConsumerKey(step.topic, step.group) == key && step.p == p ==>
      forall i :: !On(s, i, key, p)
  }

  /** At most one poller is under way, and what it holds is at the cursor of a free cell. */
  ghost predicate Aligned(s: State, key: bytes, p: int) {
    var cell := C.CellAt(s.consumers, key, p);
    && (cell.slot.Some? ==> cell.slot.value.offset == cell.next)
    && (forall i, j :: On(s, i, key, p) && On(s, j, key, p) ==> i == j)
    && (forall i :: On(s, i, key, p) && (s.pollers[i].HasOffset? || s.pollers[i].HasMessage?) ==>
          s.pollers[i].offset == cell.next && cell.slot.None?)
  }

  lemma AlignedQuiet(s: State, s': State, key: bytes, p: int)
    requires Aligned(s, key, p)
    requires C.CellAt(s'.consumers, key, p) == C.CellAt(s.consumers, key, p)
    requires forall i, j :: On(s', i, key, p) && On(s', j, key, p) ==> i == j
    requires forall i :: On(s', i, key, p) && (s'.pollers[i].HasOffset? || s'.pollers[i].HasMessage?) ==>
      (On(s, i, key, p) && (s.pollers[i].HasOffset? || s.pollers[i].HasMessage?) &&
       s'.pollers[i].offset == s.pollers[i].offset) ||
      C.NextOffset(s.consumers, key, p) == Some(s'.pollers[i].offset)
    ensures Aligned(s', key, p)
  {
  }

  /** A mark leaves the other pollers alone and ends its own. */
  lemma MarkPollers(s: State, i: nat, w: Poller)
    requires i in s.pollers && w.HasMessage?
    ensures var s' := MarkStep(s, i, w);
      && (forall j :: j in s'.pollers ==> j in s.pollers)
      && (forall j :: j in s'.pollers && j != i ==> s'.pollers[j] == s.pollers[j])
      && (i in s'.pollers ==> s'.pollers[i] == Marked(w.topic, w.key, w.p))
  {
  }

  lemma AlignedDecide(s: State, i: nat, key: bytes, p: int)
    requires Aligned(s, key, p)
    ensures Aligned(Apply(s, Decide(i)), key, p)
  {
    var s' := Apply(s, Decide(i));
    if i in s.pollers && s.pollers[i].HasMessage? {
      var w := s.pollers[i];
      MarkPollers(s, i, w);
      assert forall j :: On(s', j, key, p) ==> On(s, j, key, p);
      if (w.key, w.p) == (key, p) {
        assert On(s, i, key, p);
      } else {
        AlignedQuiet(s, s', key, p);
      }
    }
  }

  lemma AlignedAck(s: State, id: bytes, key: bytes, p: int)
    requires Inv(s) && Aligned(s, key, p)
    ensures Aligned(AckStep(s, id), key, p)
  {
    hide AckedOffsets, DeliveredOffsets, C.Sole, C.Topic;
    if id in s.consumers.inflight {
      hide AckStep;
      AckEffect(s, id);
      assert forall j :: On(AckStep(s, id), j, key, p) <==> On(s, j, key, p);
    }
  }

  lemma AlignedStart(s: State, step: Step, key: bytes, p: int)
    requires Aligned(s, key, p) && step.StartPoll? && StartsAlone(s, step, key, p)
    ensures Aligned(Apply(s, step), key, p)
  {
    var s' := Apply(s, step);
    assert forall j :: On(s', j, key, p) ==> On(s, j, key, p) || j == step.poller;
    AlignedQuiet(s, s', key, p);
  }

  lemma AlignedReadCursor(s: State, i: nat, key: bytes, p: int)
    requires Aligned(s, key, p)
    ensures Aligned(ReadCursorStep(s, i), key, p)
  {
    var s' := ReadCursorStep(s, i);
    assert forall j :: On(s', j, key, p) ==> On(s, j, key, p);
    AlignedQuiet(s, s', key, p);
  }

  lemma AlignedStep(s: State, step: Step, key: bytes, p: int)
    requires Inv(s) && Aligned(s, key, p) && StartsAlone(s, step, key, p)
    ensures Aligned(Apply(s, step), key, p)
  {
    hide AckedOffsets, DeliveredOffsets, TotalDelivered, TotalAcked, Inv;
    var s' := Apply(s, step);
    match step
    case Decide(i) => AlignedDecide(s, i, key, p);
    case AckMessage(id) => AlignedAck(s, id, key, p);
    case StartPoll(_, _, _, _) => AlignedStart(s, step, key, p);
    case ReadCursor(i) => AlignedReadCursor(s, i, key, p);
    case _ =>
      assert forall j :: On(s', j, key, p) ==> On(s, j, key, p);
      AlignedQuiet(s, s', key, p);
  }

  lemma {:induction false} RunAligned(logs: map<int, seq<Message>>, steps: seq<Step>, key: bytes, p: int)
    requires NonOverlapping(logs, steps, key, p)
    ensures Aligned(Run(logs, steps), key, p)
  {
    hide Apply, Inv, StartsAlone;
    if steps != [] {
      var before, n := steps[..|steps| - 1], |steps| - 1;
      OverlapPrefix(logs, steps, key, p, n);
      RunAligned(logs, before, key, p);
      RunInv(logs, before);
      assert StartsAlone(Run(logs, steps[..n]), steps[n], key, p);
      AlignedStep(Run(logs, before), steps[n], key, p);
    }
  }

  lemma OverlapPrefix(logs: map<int, seq<Message>>, steps: seq<Step>, key: bytes, p: int, n: nat)
    requires NonOverlapping(logs, steps, key, p) && n <= |steps|
    ensures NonOverlapping(logs, steps[..n], key, p)
  {
    hide StartsAlone, Run;
    forall m | 0 <= m < n
      ensures StartsAlone(Run(logs, steps[..n][..m]), steps[..n][m], key, p)
    {
      assert steps[..n][..m] == steps[..m] && steps[..n][m] == steps[m];
    }
  }

  lemma AlignedNeverRewinds(s: State, step: Step, key: bytes, topic: bytes, p: int)
    requires Aligned(s, key, p)
    ensures !Rewinds(s, step, key, topic, p)
  {
  }

  /** In particular, when the polls of one subscription and partition do not overlap, its
      deliveries are exactly the messages of the topic below the cursor, in order and without
      repeats, followed by the one in flight, which is the message at the cursor. */
  lemma InOrderExactlyOnce(logs: map<int, seq<Message>>, steps: seq<Step>, topic: bytes, group: bytes, p: int)
    requires C.Alone(topic, group) && NonOverlapping(logs, steps, C.ConsumerKey(topic, group), p)
    ensures var s := Run(logs, steps); var key := C.ConsumerKey(topic, group);
      var cell := C.CellAt(s.consumers, key, p);
      && cell.next <= |LogAt(s, p)|
      && DeliveredOffsets(s.history, key, p) == Matching(LogAt(s, p), topic, cell.next) + SlotOffsets(cell)
      && (cell.slot.Some? ==>
            cell.slot.value.offset == cell.next < |LogAt(s, p)| && LogAt(s, p)[cell.next].topic == topic)
  {
    var key := C.ConsumerKey(topic, group);
    forall n | 0 <= n < |steps|
      ensures !Rewinds(Run(logs, steps[..n]), steps[n], key, topic, p)
    {
      OverlapPrefix(logs, steps, key, p, n);
      RunAligned(logs, steps[..n], key, p);
      AlignedNeverRewinds(Run(logs, steps[..n]), steps[n], key, topic, p);
    }
    InOrderExactlyWithoutRewinds(logs, steps, topic, group, p);
    assert steps[..|steps|] == steps;
    RunAligned(logs, steps, key, p);
    RunInv(logs, steps);
    hide Run;
    LastInOrder(Run(logs, steps), key, topic, p);
  }

  lemma LastInOrder(s: State, key: bytes, topic: bytes, p: int)
    requires InOrder(s, key, topic, p) && Aligned(s, key, p) && Inv(s)
    ensures var cell := C.CellAt(s.consumers, key, p);
      && cell.next <= |LogAt(s, p)|
      && DeliveredOffsets(s.history, key, p) == Matching(LogAt(s, p), topic, cell.next) + SlotOffsets(cell)
      && (cell.slot.Some? ==>
            cell.slot.value.offset == cell.next < |LogAt(s, p)| && LogAt(s, p)[cell.next].topic == topic)
  {
    hide AckedOffsets, DeliveredOffsets, TotalDelivered, TotalAcked, C.Sole, C.Topic;
    assert CellOk(s, key, p);
    var cell, log := C.CellAt(s.consumers, key, p), LogAt(s, p);
    if cell.slot.Some? {
      var d := DeliveredOffsets(s.history, key, p);
      assert d[|d| - 1] == cell.next;
      MatchingIsFilter(log, topic, cell.next + 1);
      assert d[|d| - 1] in Matching(log, topic, cell.next + 1);
    }
  }

  // ---------------------------------------------------------------- polls that do overlap

  lemma RunSnoc(s: State, steps: seq<Step>, step: Step)
    ensures RunFrom(s, steps + [step]) == Apply(RunFrom(s, steps), step)
  {
    assert (steps + [step])[..|steps|] == steps;
  }

  lemma {:induction false} RunConcat(s: State, a: seq<Step>, b: seq<Step>)
    ensures RunFrom(s, a + b) == RunFrom(RunFrom(s, a), b)
  {
    hide Apply;
    if b == [] {
      assert a + b == a;
    } else {
      RunConcat(s, a, b[..|b| - 1]);
      assert (a + b)[..|a + b| - 1] == a + b[..|b| - 1];
    }
  }

  /** A poll whose cell is free at offset `n` of a log that can be read there. */
  ghost predicate Ready(s: State, i: nat, topic: bytes, group: bytes, p: int, n: nat) {
    && i !in s.pollers && topic != [] && group != []
    && C.CellAt(s.consumers, C.ConsumerKey(topic, group), p) == C.Cell(n, None)
    && p in s.logs && n < |s.logs[p]| && s.logs[p][n].payload != []
  }

  function Held(s: State, i: nat, topic: bytes, group: bytes, p: int, n: nat): State
    requires p in s.logs && n < |s.logs[p]|
  {
    var key := C.ConsumerKey(topic, group);
    s.(consumers := C.Ensure(s.consumers, key, p),
       pollers := s.pollers[i := HasMessage(topic, key, p, n, s.logs[p][n])])
  }

  /** The first three steps of an undisturbed poll of a free cell. */
  lemma HoldSteps(s: State, i: nat, topic: bytes, group: bytes, p: int, n: nat)
    requires Ready(s, i, topic, group, p, n)
    ensures Apply(Apply(Apply(s, StartPoll(i, topic, group, p)), ReadCursor(i)), ReadStorage(i)) ==
      Held(s, i, topic, group, p, n)
  {
    var key := C.ConsumerKey(topic, group);
    var s1 := s.(pollers := s.pollers[i := Started(topic, key, p)]);
    assert Apply(s, StartPoll(i, topic, group, p)) == s1;
    var s2 := s1.(consumers := C.Ensure(s.consumers, key, p), pollers := s1.pollers[i := HasOffset(topic, key, p, n)]);
    assert Apply(s1, ReadCursor(i)) == s2;
    assert Apply(s2, ReadStorage(i)).pollers == s.pollers[i := HasMessage(topic, key, p, n, s.logs[p][n])];
  }

  lemma Hold(s: State, i: nat, topic: bytes, group: bytes, p: int, n: nat) returns (steps: seq<Step>)
    requires Ready(s, i, topic, group, p, n)
    ensures RunFrom(s, steps) == Held(s, i, topic, group, p, n)
  {
    var a, b, e := StartPoll(i, topic, group, p), ReadCursor(i), ReadStorage(i);
    steps := [] + [a] + [b] + [e];
    assert RunFrom(s, []) == s;
    hide RunFrom, Apply;
    RunSnoc(s, [], a);
    RunSnoc(s, [] + [a], b);
    RunSnoc(s, [] + [a] + [b], e);
    HoldSteps(s, i, topic, group, p, n);
  }

  /** Marking a held message of a free cell. */
  lemma MarkHeld(s: State, i: nat, topic: bytes, key: bytes, p: int, n: nat, m: Message)
    requires i in s.pollers && s.pollers[i] == HasMessage(topic, key, p, n, m) && m.topic == topic
    requires C.CellAt(s.consumers, key, p).slot == None
    ensures var s', d := Apply(s, Decide(i)), C.Delivery(m.id, key, p, n);
      && s'.logs == s.logs && s'.pollers == s.pollers[i := Marked(topic, key, p)]
      && s'.consumers.cells ==
           s.consumers.cells[(key, p) := C.Cell(C.CellAt(s.consumers, key, p).next, Some(d))]
      && s'.consumers.inflight == s.consumers.inflight[m.id := d]
      && s'.history == s.history + [Delivered(key, p, n)]
  {
  }

  /** Skipping a held message of another topic. */
  lemma SkipHeld(s: State, i: nat, topic: bytes, key: bytes, p: int, n: nat, m: Message)
    requires i in s.pollers && s.pollers[i] == HasMessage(topic, key, p, n, m) && m.topic != topic
    requires C.CellAt(s.consumers, key, p) == C.Cell(n, None)
    ensures var s' := Apply(s, Decide(i));
      && s'.logs == s.logs && s'.pollers == s.pollers[i := Started(topic, key, p)]
      && s'.consumers.cells == s.consumers.cells[(key, p) := C.Cell(n + 1, None)]
      && s'.consumers.inflight == s.consumers.inflight && s'.history == s.history
  {
  }

  /** Nothing is in flight, and `key` has received the messages of the topic below `n`. */
  ghost predicate Walked(s: State, logs: map<int, seq<Message>>, b: nat, key: bytes, topic: bytes, p: int, n: nat) {
    && s.logs == logs && s.consumers.inflight == map[] && (forall i :: i in s.pollers ==> i < b)
    && C.CellAt(s.consumers, key, p) == C.Cell(n, None)
    && p in logs && n <= |logs[p]| && DeliveredOffsets(s.history, key, p) == Matching(logs[p], topic, n)
  }

  /** The cursor goes past one message: skipped, or delivered and acknowledged. */
  lemma WalkOne(s: State, logs: map<int, seq<Message>>, b: nat, topic: bytes, group: bytes, p: int, n: nat)
      returns (steps: seq<Step>)
    requires Walked(s, logs, b, C.ConsumerKey(topic, group), topic, p, n) && topic != [] && group != []
    requires n < |logs[p]| && logs[p][n].payload != []
    ensures Walked(RunFrom(s, steps), logs, b + 1, C.ConsumerKey(topic, group), topic, p, n + 1)
  {
    hide RunFrom, Apply, DeliveredOffsets;
    var key, m := C.ConsumerKey(topic, group), logs[p][n];
    var hold := Hold(s, b, topic, group, p, n);
    var s1 := RunFrom(s, hold);
    RunSnoc(s, hold, Decide(b));
    steps := hold + [Decide(b)];
    var s2 := RunFrom(s, steps);
    if m.topic != topic {
      SkipHeld(s1, b, topic, key, p, n, m);
    } else {
      MarkHeld(s1, b, topic, key, p, n, m);
      HistorySnoc(s.history, Delivered(key, p, n), key, p);
      RunSnoc(s, steps, AckMessage(m.id));
      steps := steps + [AckMessage(m.id)];
      AckHeld(s2, m.id, C.Delivery(m.id, key, p, n));
      HistorySnoc(s2.history, Acked(key, p, n), key, p);
      assert map[][m.id := C.Delivery(m.id, key, p, n)] - {m.id} == map[];
    }
    assert forall i :: i in RunFrom(s, steps).pollers ==> i in s.pollers || i == b;
  }

  lemma AckHeld(s: State, id: bytes, d: C.Delivery)
    requires id in s.consumers.inflight && s.consumers.inflight[id] == d && d.messageID == id
    requires C.CellAt(s.consumers, d.groupKey, d.partition).slot == Some(d)
    ensures var s' := Apply(s, AckMessage(id));
      && s'.logs == s.logs && s'.pollers == s.pollers
      && s'.history == s.history + [Acked(d.groupKey, d.partition, d.offset)]
      && s'.consumers == C.State(s.consumers.cells[(d.groupKey, d.partition) := C.Cell(d.offset + 1, None)],
                                 s.consumers.inflight - {id})
  {
  }

  lemma {:induction false} Walk(logs: map<int, seq<Message>>, topic: bytes, group: bytes, p: int, n: nat)
      returns (steps: seq<Step>)
    requires p in logs && n <= |logs[p]| && topic != [] && group != []
    requires forall i :: 0 <= i < n ==> logs[p][i].payload != []
    ensures Walked(Run(logs, steps), logs, n, C.ConsumerKey(topic, group), topic, p, n)
  {
    if n == 0 {
      steps := [];
    } else {
      hide RunFrom, Walked;
      var before := Walk(logs, topic, group, p, n - 1);
      var last := WalkOne(Run(logs, before), logs, n - 1, topic, group, p, n - 1);
      RunConcat(Init(logs), before, last);
      steps := before + last;
    }
  }

  /** Overlapping polls can deliver any message twice: one poller holds it while another
      delivers it and has it acknowledged, and then marks it again. */
  lemma OverlapCanRedeliver(logs: map<int, seq<Message>>, group: bytes, p: int, n: nat) returns (steps: seq<Step>)
    requires p in logs && n < |logs[p]| && logs[p][n].topic != [] && group != []
    requires forall i :: 0 <= i <= n ==> logs[p][i].payload != []
    ensures var topic := logs[p][n].topic;
      DeliveredOffsets(Run(logs, steps).history, C.ConsumerKey(topic, group), p) ==
        Matching(logs[p], topic, n) + [n] + [n]
  {
    hide RunFrom, Apply, DeliveredOffsets;
    var m := logs[p][n];
    var walk := Walk(logs, m.topic, group, p, n);
    var s := Run(logs, walk);
    var first := Hold(s, n, m.topic, group, p, n);
    var s1 := RunFrom(s, first);
    var second := Hold(s1, n + 1, m.topic, group, p, n);
    var s2 := RunFrom(s1, second);
    var last := TwoHolders(s2, C.ConsumerKey(m.topic, group), p, n, m, n, n + 1);
    RunConcat(Init(logs), walk, first);
    RunConcat(Init(logs), walk + first, second);
    RunConcat(Init(logs), walk + first + second, last);
    steps := walk + first + second + last;
  }

  /** Two pollers hold the message at the cursor, and it ends up delivered by both. */
  lemma TwoHolders(s: State, key: bytes, p: int, n: nat, m: Message, i: nat, j: nat) returns (steps: seq<Step>)
    requires i != j && s.consumers.inflight == map[] && C.CellAt(s.consumers, key, p) == C.Cell(n, None)
    requires i in s.pollers && s.pollers[i] == HasMessage(m.topic, key, p, n, m)
    requires j in s.pollers && s.pollers[j] == HasMessage(m.topic, key, p, n, m)
    ensures DeliveredOffsets(RunFrom(s, steps).history, key, p) == DeliveredOffsets(s.history, key, p) + [n] + [n]
  {
    assert RunFrom(s, []) == s;
    hide RunFrom, Apply, DeliveredOffsets;
    steps := [] + [Decide(j)] + [AckMessage(m.id)] + [Decide(i)];
    RunSnoc(s, [], Decide(j));
    RunSnoc(s, [] + [Decide(j)], AckMessage(m.id));
    RunSnoc(s, [] + [Decide(j)] + [AckMessage(m.id)], Decide(i));
    MarkHeld(s, j, m.topic, key, p, n, m);
    var s1 := Apply(s, Decide(j));
    AckHeld(s1, m.id, C.Delivery(m.id, key, p, n));
    var s2 := Apply(s1, AckMessage(m.id));
    MarkHeld(s2, i, m.topic, key, p, n, m);
    HistorySnoc(s.history, Delivered(key, p, n), key, p);
    HistorySnoc(s1.history, Acked(key, p, n), key, p);
    HistorySnoc(s2.history, Delivered(key, p, n), key, p);
  }

  // ---------------------------------------------------------------- shared keys and shared IDs

  /** A subscription with the same key and another topic passes the cursor over a message. */
  lemma SharedKeySkips(topic: bytes, group: bytes, m: Message) returns (steps: seq<Step>)
    requires topic != [] && group != [] && !C.Alone(topic, group) && m.topic == topic && m.payload != []
    ensures !NoneSkipped(Run(map[0 := [m]], steps), topic, group, 0)
  {
    var logs, key := map[0 := [m]], C.ConsumerKey(topic, group);
    var t, g := C.SharedWith(topic, group);
    hide RunFrom, Apply;
    var hold := Hold(Init(logs), 0, t, g, 0, 0);
    RunSnoc(Init(logs), hold, Decide(0));
    steps := hold + [Decide(0)];
    SkipHeld(Run(logs, hold), 0, t, key, 0, 0, m);
    var s := Run(logs, steps);
    assert C.CellAt(s.consumers, key, 0).next == 1 && LogAt(s, 0) == [m] && s.history == [];
    assert 0 !in AckedOffsets(s.history, key, 0);
  }

  /** Nothing is skipped for a subscription in any run if and only if it shares its key with
      no other. */
  lemma NothingSkippedExactly(topic: bytes, group: bytes)
    requires topic != [] && group != []
    ensures (forall logs, steps, p :: NoneSkipped(Run(logs, steps), topic, group, p)) <==> C.Alone(topic, group)
  {
    if C.Alone(topic, group) {
      forall logs, steps, p
        ensures NoneSkipped(Run(logs, steps), topic, group, p)
      {
        NothingSkipped(logs, steps, topic, group, p);
      }
    } else {
      var steps := SharedKeySkips(topic, group, Message(topic, [], [], [0]));
    }
  }

  /** Two groups that hold one message at once are enough: the first group's slot stays
      filled, without an entry, in every continuation. */
  lemma TwoGroupsOrphan(topic: bytes, g1: bytes, g2: bytes, m: Message) returns (steps: seq<Step>)
    requires topic != [] && g1 != [] && g2 != [] && g1 != g2
    requires m.topic == topic && m.payload != []
    ensures var s, q := Run(map[0 := [m]], steps), (C.ConsumerKey(topic, g1), 0);
      && q in Filled(s.consumers) && !Named(s.consumers, q)
      && forall more :: var c := RunFrom(s, more).consumers;
           q in Filled(c) && !Named(c, q) && c.cells[q] == s.consumers.cells[q]
  {
    var logs, k1, k2 := map[0 := [m]], C.ConsumerKey(topic, g1), C.ConsumerKey(topic, g2);
    assert k1[|topic| + 1..] == g1 && k2[|topic| + 1..] == g2;
    var s0 := Init(logs);
    hide RunFrom, Apply;
    var a := Hold(s0, 0, topic, g1, 0, 0);
    RunSnoc(s0, a, Decide(0));
    MarkHeld(RunFrom(s0, a), 0, topic, k1, 0, 0, m);
    var s1 := RunFrom(s0, a + [Decide(0)]);
    var b := Hold(s1, 1, topic, g2, 0, 0);
    RunSnoc(s1, b, Decide(1));
    MarkHeld(RunFrom(s1, b), 1, topic, k2, 0, 0, m);
    steps := a + [Decide(0)] + (b + [Decide(1)]);
    RunConcat(s0, a + [Decide(0)], b + [Decide(1)]);
    var s, q := Run(logs, steps), (k1, 0);
    forall more
      ensures var c := RunFrom(s, more).consumers;
        q in Filled(c) && !Named(c, q) && c.cells[q] == s.consumers.cells[q]
    {
      OrphanStuck(logs, steps, more, q);
    }
  }

  // ---------------------------------------------------------------- unreadable messages

  /** The first `n` messages can be read. */
  ghost predicate CanRead(s: State, p: int, n: nat) {
    n <= |LogAt(s, p)| && forall o :: 0 <= o < n ==> LogAt(s, p)[o].payload != []
  }

  ghost predicate CellRead(s: State, key: bytes, p: int) {
    var cell := C.CellAt(s.consumers, key, p);
    && CanRead(s, p, cell.next)
    && (cell.slot.Some? ==> CanRead(s, p, cell.slot.value.offset + 1))
  }

  ghost predicate PollerRead(s: State, w: Poller) {
    && (w.HasOffset? ==> CanRead(s, w.p, w.offset))
    && (w.HasMessage? ==> CanRead(s, w.p, w.offset + 1))
  }

  ghost predicate AllRead(s: State) {
    && (forall key, p :: CellRead(s, key, p))
    && (forall i :: i in s.pollers ==> PollerRead(s, s.pollers[i]))
  }

  lemma CellReadStep(s: State, step: Step, key: bytes, p: int)
    requires Inv(s) && AllRead(s)
    ensures CellRead(Apply(s, step), key, p)
  {
    hide AckedOffsets, DeliveredOffsets, TotalDelivered, TotalAcked, C.Sole, C.Topic;
    assert CellRead(s, key, p);
    match step
    case AckMessage(id) => CellReadAck(s, id, key, p);
    case Decide(i) => CellReadDecide(s, i, key, p);
    case _ =>
      hide Inv;
      assert C.CellAt(Apply(s, step).consumers, key, p) == C.CellAt(s.consumers, key, p);
  }

  lemma CellReadAck(s: State, id: bytes, key: bytes, p: int)
    requires Inv(s) && AllRead(s)
    ensures CellRead(AckStep(s, id), key, p)
  {
    hide AckedOffsets, DeliveredOffsets, TotalDelivered, TotalAcked, C.Sole, C.Topic;
    assert CellRead(s, key, p);
    if id in s.consumers.inflight {
      hide AckStep;
      AckEffect(s, id);
      assert CellRead(s, s.consumers.inflight[id].groupKey, s.consumers.inflight[id].partition);
    }
  }

  lemma CellReadDecide(s: State, i: nat, key: bytes, p: int)
    requires AllRead(s)
    ensures CellRead(Apply(s, Decide(i)), key, p)
  {
    assert CellRead(s, key, p);
    if i in s.pollers { assert PollerRead(s, s.pollers[i]); }
  }

  lemma PollerReadStep(s: State, step: Step, i: nat)
    requires AllRead(s) && i in Apply(s, step).pollers
    ensures PollerRead(Apply(s, step), Apply(s, step).pollers[i])
  {
    var s' := Apply(s, step);
    assert forall p :: LogAt(s, p) <= LogAt(s', p);
    if i in s.pollers {
      var w, w' := s.pollers[i], s'.pollers[i];
      assert PollerRead(s, w);
      assert CellRead(s, w.key, w.p);
      assert w' == w || w'.Started? || w'.Marked? ||
        (w'.HasOffset? && w'.p == w.p && w'.offset == C.CellAt(s.consumers, w.key, w.p).next) ||
        (w'.HasMessage? && w.HasOffset? && w'.p == w.p && w'.offset == w.offset < |LogAt(s, w.p)| &&
         LogAt(s, w.p)[w.offset].payload != []);
    }
  }

  lemma {:induction false} RunRead(logs: map<int, seq<Message>>, steps: seq<Step>)
    ensures AllRead(Run(logs, steps))
  {
    if steps != [] {
      var s, step := Run(logs, steps[..|steps| - 1]), steps[|steps| - 1];
      RunRead(logs, steps[..|steps| - 1]);
      RunInv(logs, steps[..|steps| - 1]);
      assert Run(logs, steps) == Apply(s, step);
      hide RunFrom, Apply, Inv, CellRead, PollerRead;
      forall key, p
        ensures CellRead(Apply(s, step), key, p)
      {
        CellReadStep(s, step, key, p);
      }
      forall i | i in Apply(s, step).pollers
        ensures PollerRead(Apply(s, step), Apply(s, step).pollers[i])
      {
        PollerReadStep(s, step, i);
      }
    }
  }

  /** In every run a message that cannot be read stops every subscription on its partition, of
      whatever topic: no cursor passes it, and neither it nor anything after it is ever in
      flight. */
  lemma UnreadableStops(logs: map<int, seq<Message>>, steps: seq<Step>, key: bytes, p: int, o: nat)
    requires var s := Run(logs, steps); o < |LogAt(s, p)| && LogAt(s, p)[o].payload == []
    ensures var cell := C.CellAt(Run(logs, steps).consumers, key, p);
      cell.next <= o && (cell.slot.Some? ==> cell.slot.value.offset < o)
  {
    RunRead(logs, steps);
    hide Run;
    assert CellRead(Run(logs, steps), key, p);
  }

  // ---------------------------------------------------------------- calls finish, publishes are delivered

  /** A poll can always finish, whatever the other calls are doing. */
  lemma FinishPoll(s: State, i: nat) returns (steps: seq<Step>)
    requires i in s.pollers
    ensures var s' := RunFrom(s, steps); s'.pollers == s.pollers - {i} && s'.uncountedAcks == s.uncountedAcks
  {
    match s.pollers[i]
    case HasMessage(_, _, _, _, _) =>
      var s1 := Apply(s, Decide(i));
      DecidePollers(s, i);
      One(s, Decide(i));
      if i !in s1.pollers {
        steps := [Decide(i)];
      } else {
        hide Apply, RunFrom;
        var rest := FinishStarted(s1, i);
        steps := [Decide(i)] + rest;
        RunConcat(s, [Decide(i)], rest);
        assert s1.pollers - {i} == s.pollers - {i};
      }
    case _ => steps := FinishStarted(s, i);
  }

  lemma DecidePollers(s: State, i: nat)
    requires i in s.pollers && s.pollers[i].HasMessage?
    ensures var s' := Apply(s, Decide(i));
      && s'.uncountedAcks == s.uncountedAcks && s'.pollers - {i} == s.pollers - {i}
      && (i in s'.pollers ==> s'.pollers[i].Started? || s'.pollers[i].Marked?)
      && (i !in s'.pollers ==> s'.pollers == s.pollers - {i})
  {
  }

  lemma One(s: State, step: Step)
    ensures RunFrom(s, [step]) == Apply(s, step)
  {
    hide Apply;
    assert [step][..0] == [];
  }

  lemma FinishStarted(s: State, i: nat) returns (steps: seq<Step>)
    requires i in s.pollers && !s.pollers[i].HasMessage?
    ensures var s' := RunFrom(s, steps); s'.pollers == s.pollers - {i} && s'.uncountedAcks == s.uncountedAcks
  {
    match s.pollers[i]
    case Started(_, key, p) =>
      var s1 := Apply(s, ReadCursor(i));
      One(s, ReadCursor(i));
      if i !in s1.pollers {
        steps := [ReadCursor(i)];
      } else {
        steps := [ReadCursor(i)] + [FailRead(i)];
        RunSnoc(s, [ReadCursor(i)], FailRead(i));
        hide RunFrom;
        assert s1.pollers == s.pollers[i := s1.pollers[i]] && s1.pollers[i].HasOffset?;
        assert s1.pollers - {i} == s.pollers - {i};
      }
    case HasOffset(_, _, _, _) =>
      steps := [FailRead(i)];
      One(s, FailRead(i));
    case Marked(_, _, _) =>
      steps := [CountDelivery(i)];
      One(s, CountDelivery(i));
  }

  lemma {:induction false} FinishPolls(s: State) returns (steps: seq<Step>)
    ensures var s' := RunFrom(s, steps); s'.pollers == map[] && s'.uncountedAcks == s.uncountedAcks
    decreases |s.pollers|
  {
    if s.pollers == map[] {
      steps := [];
    } else {
      hide Apply;
      var i :| i in s.pollers;
      var first := FinishPoll(s, i);
      hide RunFrom;
      assert s.pollers.Keys == (s.pollers - {i}).Keys + {i};
      var rest := FinishPolls(RunFrom(s, first));
      RunConcat(s, first, rest);
      steps := first + rest;
    }
  }

  lemma {:induction false} FinishAcks(s: State) returns (steps: seq<Step>)
    requires s.pollers == map[]
    ensures var s' := RunFrom(s, steps); s'.pollers == map[] && s'.uncountedAcks == 0
    decreases s.uncountedAcks
  {
    if s.uncountedAcks == 0 {
      steps := [];
    } else {
      One(s, CountAck);
      var rest := FinishAcks(Apply(s, CountAck));
      hide RunFrom, Apply;
      RunConcat(s, [CountAck], rest);
      steps := [CountAck] + rest;
    }
  }

  /** From every reachable state all calls under way can finish, and the counters then are the
      numbers of deliveries and acknowledgements that have happened. */
  lemma CallsFinish(logs: map<int, seq<Message>>, steps: seq<Step>) returns (more: seq<Step>)
    ensures var s := RunFrom(Run(logs, steps), more);
      && s.pollers == map[] && s.uncountedAcks == 0
      && s.delivered == TotalDelivered(s.history) && s.acked == TotalAcked(s.history)
  {
    hide Apply, RunFrom;
    var s := Run(logs, steps);
    var polls := FinishPolls(s);
    var acks := FinishAcks(RunFrom(s, polls));
    more := polls + acks;
    RunConcat(s, polls, acks);
    RunConcat(Init(logs), steps, more);
    RunCounts(logs, steps + more);
    assert MarkedPollers(Run(logs, steps + more)) == {};
  }

  /** A published message is delivered to a new group, after the messages of its topic that
      were there before it. */
  lemma PublishedIsDelivered(logs: map<int, seq<Message>>, group: bytes, p: int, m: Message) returns (steps: seq<Step>)
    requires p in logs && m.topic != [] && m.payload != [] && group != []
    requires forall i :: 0 <= i < |logs[p]| ==> logs[p][i].payload != []
    ensures steps != [] && steps[0] == Publish(p, m)
    ensures var s, n := Run(logs, steps), |logs[p]|;
      && LogAt(s, p) == logs[p] + [m]
      && DeliveredOffsets(s.history, C.ConsumerKey(m.topic, group), p) == Matching(logs[p], m.topic, n) + [n]
  {
    var n, logs' := |logs[p]|, logs[p := logs[p] + [m]];
    One(Init(logs), Publish(p, m));
    assert Apply(Init(logs), Publish(p, m)) == Init(logs');
    hide RunFrom, Apply, DeliveredOffsets;
    var rest := Walk(logs', m.topic, group, p, n + 1);
    steps := [Publish(p, m)] + rest;
    RunConcat(Init(logs), [Publish(p, m)], rest);
    MatchingGrows(logs[p], logs'[p], m.topic, n);
  }
}
