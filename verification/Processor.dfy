/** The telemetry processor: consume, decode, insert, acknowledge. First one runner on its
    own, then any number of them against a queue node. */
module Processor {
  import opened Bytes
  import opened Codec
  import C = Consumers
  import Q = ConsumerMachine

  // ---------------------------------------------------------------- one runner

  datatype Consumed = Got(message: Message) | Empty | ConsumeError

  /** One processor. `inserted` are the messages whose record the store accepted, `acks` the
      acknowledgements it sent, in order. `consumeErrors` of the errors were failures to
      consume. */
  class Runner {
    var inserted: seq<Message>
    var acks: seq<bytes>
    var consumed: nat
    var processed: nat
    var errors: nat
    ghost var consumeErrors: nat

    /** An acknowledgement is sent for exactly the messages that were inserted, in the same
        order; every consumed message ends either processed or as one error. */
    ghost predicate Valid()
      reads this
    {
      && |acks| == |inserted|
      && (forall i :: 0 <= i < |acks| ==> acks[i] == inserted[i].id)
      && processed <= |inserted| <= consumed && consumed + consumeErrors == processed + errors
    }

    constructor ()
      ensures Valid() && inserted == [] && acks == []
      ensures consumed == processed == errors == consumeErrors == 0
    {
      inserted, acks := [], [];
      consumed, processed, errors, consumeErrors := 0, 0, 0, 0;
    }

    /** The queue, the JSON decoder and the store answer as the parameters say. */
    method RunOnce(consume: Consumed, decodes: bool, insertOk: bool, ackOk: bool) returns (done: bool, failed: bool)
      requires Valid()
      modifies this
      ensures Valid()
      ensures done <==> consume.Got? && decodes && insertOk && ackOk
      ensures failed <==> consume.ConsumeError? || (consume.Got? && !(decodes && insertOk && ackOk))
      ensures inserted == old(inserted) + if consume.Got? && decodes && insertOk then [consume.message] else []
      ensures consumed == old(consumed) + if consume.Got? then 1 else 0
      ensures processed == old(processed) + if done then 1 else 0
      ensures errors == old(errors) + if failed then 1 else 0
      ensures consumeErrors == old(consumeErrors) + if consume.ConsumeError? then 1 else 0
      ensures acks == old(acks) + if consume.Got? && decodes && insertOk then [consume.message.id] else []
    {
      if consume.ConsumeError? {
        errors, consumeErrors := errors + 1, consumeErrors + 1;
        return false, true;
      }
      if consume.Empty? {
        return false, false;
      }
      consumed := consumed + 1;
      if !decodes {
        errors := errors + 1;
        return false, true;
      }
      if !insertOk {
        errors := errors + 1;
        return false, true;
      }
      inserted := inserted + [consume.message];
      acks := acks + [consume.message.id];
      if !ackOk {
        errors := errors + 1;
        return false, true;
      }
      processed := processed + 1;
      return true, false;
    }
  }

  // ---------------------------------------------------------------- many runners, one node

  datatype Worker = Idle | Holding(message: Message) | Stored(message: Message)

  /** `ackRequests` are acknowledgements under way to the queue; they may arrive late, more
      than once or never. */
  datatype State = State(queue: Q.State, workers: map<nat, Worker>, inserted: set<Message>, ackRequests: set<bytes>)

  datatype Step =
    | QueueStep(step: Q.Step)
    | Receive(worker: nat, key: bytes, p: int, offset: nat)
    | Fail(worker: nat)
    | Insert(worker: nat)
    | InsertButFail(worker: nat)
    | SendAck(worker: nat)
    | AckArrives(id: bytes)

  function WorkerAt(s: State, i: nat): Worker {
    if i in s.workers then s.workers[i] else Idle
  }

  function With(s: State, i: nat, w: Worker): State {
    s.(workers := s.workers[i := w])
  }

  function Init(logs: map<int, seq<Message>>): State {
    State(Q.Init(logs), map[], {}, {})
  }

  /** One step; a step that is not enabled changes nothing. The queue takes its own steps,
      but acknowledgements reach it only from workers. A worker receives a delivered
      message, perhaps late or never; it sends its acknowledgement only after the store
      accepted the record; at any point it may fail and start over. */
  function Apply(s: State, step: Step): State {
    match step
    case QueueStep(q) =>
      if q.AckMessage? then s else s.(queue := Q.Apply(s.queue, q))
    case Receive(i, key, p, o) =>
      if WorkerAt(s, i).Idle? && o < |Q.LogAt(s.queue, p)| && o in Q.DeliveredOffsets(s.queue.history, key, p)
      then With(s, i, Holding(Q.LogAt(s.queue, p)[o]))
      else s
    case Fail(i) => With(s, i, Idle)
    case Insert(i) =>
      if WorkerAt(s, i).Holding? then
        With(s.(inserted := s.inserted + {WorkerAt(s, i).message}), i, Stored(WorkerAt(s, i).message))
      else s
    case InsertButFail(i) =>
      if WorkerAt(s, i).Holding? then With(s.(inserted := s.inserted + {WorkerAt(s, i).message}), i, Idle)
      else s
    case SendAck(i) =>
      if WorkerAt(s, i).Stored? then
        With(s.(ackRequests := s.ackRequests + {WorkerAt(s, i).message.id}), i, Idle)
      else s
    case AckArrives(id) =>
      if id in s.ackRequests then s.(queue := Q.Apply(s.queue, Q.AckMessage(id))) else s
  }

  function RunFrom(s: State, steps: seq<Step>): State {
    if steps == [] then s else Apply(RunFrom(s, steps[..|steps| - 1]), steps[|steps| - 1])
  }

  function Run(logs: map<int, seq<Message>>, steps: seq<Step>): State {
    RunFrom(Init(logs), steps)
  }

  /** What a worker holding a message can do: store it, fail before or after storing it, and
      only after storing it send its acknowledgement, which reaches the queue later. */
  lemma WorkerTransitions(s: State, i: nat, m: Message)
    requires WorkerAt(s, i) == Holding(m)
    ensures var stored := Apply(s, Insert(i));
      && stored.inserted == s.inserted + {m} && WorkerAt(stored, i) == Stored(m)
      && stored.queue == s.queue && stored.ackRequests == s.ackRequests
      && var sent := Apply(stored, SendAck(i));
         && sent.ackRequests == s.ackRequests + {m.id} && WorkerAt(sent, i) == Idle
         && sent.queue == s.queue && sent.inserted == stored.inserted
         && Apply(sent, AckArrives(m.id)).queue == Q.Apply(s.queue, Q.AckMessage(m.id))
    ensures var failed := Apply(s, Fail(i));
      && WorkerAt(failed, i) == Idle
      && failed.queue == s.queue && failed.inserted == s.inserted && failed.ackRequests == s.ackRequests
    ensures var unsure := Apply(s, InsertButFail(i));
      && WorkerAt(unsure, i) == Idle && unsure.inserted == s.inserted + {m}
      && unsure.queue == s.queue && unsure.ackRequests == s.ackRequests
    ensures Apply(s, SendAck(i)) == s
    ensures m.id !in s.ackRequests ==> Apply(s, AckArrives(m.id)) == s
  {
    hide Q.Apply;
  }

  /** Messages that share an ID are the same message. */
  ghost predicate UniqueIDs(s: State) {
    forall p, q, i, j ::
      0 <= i < |Q.LogAt(s.queue, p)| && 0 <= j < |Q.LogAt(s.queue, q)| &&
      Q.LogAt(s.queue, p)[i].id == Q.LogAt(s.queue, q)[j].id ==>
        Q.LogAt(s.queue, p)[i] == Q.LogAt(s.queue, q)[j]
  }

  ghost predicate InSomeLog(s: State, m: Message) {
    exists p, i :: 0 <= i < |Q.LogAt(s.queue, p)| && Q.LogAt(s.queue, p)[i] == m
  }

  ghost predicate HasInserted(s: State, id: bytes) {
    exists m :: m in s.inserted && m.id == id && InSomeLog(s, m)
  }

  ghost predicate WorkerOk(s: State, w: Worker) {
    && (w.Holding? ==> InSomeLog(s, w.message))
    && (w.Stored? ==> InSomeLog(s, w.message) && w.message in s.inserted)
  }

  ghost predicate Inv(s: State) {
    && Q.Inv(s.queue)
    && (forall i :: WorkerOk(s, WorkerAt(s, i)))
    && (forall id :: id in s.ackRequests ==> HasInserted(s, id))
    && (forall key, p, o: nat :: o in Q.AckedOffsets(s.queue.history, key, p) ==>
          o < |Q.LogAt(s.queue, p)| && Q.LogAt(s.queue, p)[o] in s.inserted)
  }

  /** Logs, the store and the acknowledged offsets only grow, so old facts stay. */
  ghost predicate Grows(s: State, s': State) {
    && (forall p :: Q.LogAt(s.queue, p) <= Q.LogAt(s'.queue, p))
    && s.inserted <= s'.inserted
  }

  lemma StepGrows(s: State, step: Step)
    ensures Grows(s, Apply(s, step))
  {
    hide Q.DeliveredOffsets;
  }

  lemma GrowsKeeps(s: State, s': State, m: Message)
    requires Grows(s, s') && InSomeLog(s, m)
    ensures InSomeLog(s', m)
  {
    var p, i :| 0 <= i < |Q.LogAt(s.queue, p)| && Q.LogAt(s.queue, p)[i] == m;
    assert Q.LogAt(s'.queue, p)[i] == m;
  }

  lemma GrowsKeepsInserted(s: State, s': State, id: bytes)
    requires Grows(s, s') && HasInserted(s, id)
    ensures HasInserted(s', id)
  {
    var m :| m in s.inserted && m.id == id && InSomeLog(s, m);
    GrowsKeeps(s, s', m);
  }

  /** Workers and requests stay in order over any step. */
  lemma WorkersStep(s: State, step: Step)
    requires Inv(s)
    ensures var s' := Apply(s, step);
      && (forall i :: WorkerOk(s', WorkerAt(s', i)))
      && (forall id :: id in s'.ackRequests ==> HasInserted(s', id))
  {
    hide Q.DeliveredOffsets, Q.AckedOffsets, Q.Inv, Q.Apply;
    var s' := Apply(s, step);
    StepGrows(s, step);
    forall i
      ensures WorkerOk(s', WorkerAt(s', i))
    {
      var w, w' := WorkerAt(s, i), WorkerAt(s', i);
      assert WorkerOk(s, w);
      if !w.Idle? { GrowsKeeps(s, s', w.message); }
    }
    forall id | id in s'.ackRequests
      ensures HasInserted(s', id)
    {
      if id in s.ackRequests {
        GrowsKeepsInserted(s, s', id);
      } else {
        var w := WorkerAt(s, step.worker);
        assert WorkerOk(s, w);
        GrowsKeeps(s, s', w.message);
      }
    }
  }

  /** Only acknowledgements from workers reach the queue, and the message they acknowledge
      is one that was inserted. */
  lemma AckIsOfInserted(s: State, id: bytes, d: C.Delivery)
    requires Inv(s) && UniqueIDs(s) && id in s.ackRequests
    requires C.Ack(s.queue.consumers, id).1 == Some(d)
    ensures d.offset < |Q.LogAt(s.queue, d.partition)| && Q.LogAt(s.queue, d.partition)[d.offset] in s.inserted
  {
    hide Q.AckedOffsets, Q.DeliveredOffsets;
    assert d == s.queue.consumers.inflight[id];
    assert Q.EntryOk(s.queue.consumers, id);
    assert Q.CellOk(s.queue, d.groupKey, d.partition);
    var m :| m in s.inserted && m.id == id && InSomeLog(s, m);
    var p, i :| 0 <= i < |Q.LogAt(s.queue, p)| && Q.LogAt(s.queue, p)[i] == m;
  }

  /** Steps that acknowledge nothing. */
  lemma NoNewAcks(s: State, s': State, key: bytes, p: int, o: nat)
    requires Inv(s) && Grows(s, s')
    requires Q.AckedOffsets(s'.queue.history, key, p) == Q.AckedOffsets(s.queue.history, key, p)
    requires o in Q.AckedOffsets(s'.queue.history, key, p)
    ensures o < |Q.LogAt(s'.queue, p)| && Q.LogAt(s'.queue, p)[o] in s'.inserted
  {
    hide Q.AckedOffsets, Q.Inv;
  }

  lemma QueueStepKeepsAcks(s: Q.State, step: Q.Step, key: bytes, p: int)
    requires !step.AckMessage?
    ensures Q.AckedOffsets(Q.Apply(s, step).history, key, p) == Q.AckedOffsets(s.history, key, p)
  {
    hide Q.AckedOffsets;
    if step.Decide? && step.poller in s.pollers && s.pollers[step.poller].HasMessage? {
      var w := s.pollers[step.poller];
      Q.HistorySnoc(s.history, Q.Delivered(w.key, w.p, w.offset), key, p);
      assert Q.Apply(s, step).history == s.history ||
             Q.Apply(s, step).history == s.history + [Q.Delivered(w.key, w.p, w.offset)];
    } else {
      assert Q.Apply(s, step).history == s.history;
    }
  }

  lemma ArrivedAck(s: State, id: bytes, key: bytes, p: int, o: nat)
    requires Inv(s) && UniqueIDs(s) && id in s.ackRequests
    requires o in Q.AckedOffsets(Q.Apply(s.queue, Q.AckMessage(id)).history, key, p)
    ensures o < |Q.LogAt(s.queue, p)| && Q.LogAt(s.queue, p)[o] in s.inserted
    ensures Q.Apply(s.queue, Q.AckMessage(id)).logs == s.queue.logs
  {
    hide Q.AckedOffsets, Q.DeliveredOffsets, Q.Inv;
    var d := C.Ack(s.queue.consumers, id).1;
    if d.Some? {
      Q.HistorySnoc(s.queue.history, Q.Acked(d.value.groupKey, d.value.partition, d.value.offset), key, p);
      AckIsOfInserted(s, id, d.value);
    } else {
      NoNewAcks(s, s, key, p, o);
    }
  }

  lemma AckedAreInserted(s: State, step: Step, key: bytes, p: int, o: nat)
    requires Inv(s) && UniqueIDs(s)
    requires o in Q.AckedOffsets(Apply(s, step).queue.history, key, p)
    ensures var s' := Apply(s, step);
      o < |Q.LogAt(s'.queue, p)| && Q.LogAt(s'.queue, p)[o] in s'.inserted
  {
    hide Q.AckedOffsets, Q.DeliveredOffsets, Q.Inv, Q.Apply;
    var s' := Apply(s, step);
    StepGrows(s, step);
    if step.AckArrives? && step.id in s.ackRequests {
      ArrivedAck(s, step.id, key, p, o);
    } else if step.QueueStep? && !step.step.AckMessage? {
      QueueStepKeepsAcks(s.queue, step.step, key, p);
      NoNewAcks(s, s', key, p, o);
    } else {
      NoNewAcks(s, s', key, p, o);
    }
  }

  lemma StepInv(s: State, step: Step)
    requires Inv(s) && UniqueIDs(s)
    ensures Inv(Apply(s, step))
  {
    WorkersStep(s, step);
    match step {
      case QueueStep(q) => Q.StepInv(s.queue, q);
      case AckArrives(id) => Q.StepInv(s.queue, Q.AckMessage(id));
      case _ =>
    }
    hide Q.AckedOffsets, Q.Inv;
    forall key, p, o: nat | o in Q.AckedOffsets(Apply(s, step).queue.history, key, p)
      ensures o < |Q.LogAt(Apply(s, step).queue, p)| &&
        Q.LogAt(Apply(s, step).queue, p)[o] in Apply(s, step).inserted
    {
      AckedAreInserted(s, step, key, p, o);
    }
  }

  lemma {:induction false} RunInv(logs: map<int, seq<Message>>, steps: seq<Step>)
    requires UniqueIDs(Run(logs, steps))
    ensures Inv(Run(logs, steps))
  {
    if steps == [] {
      Q.RunInv(logs, []);
    } else {
      var s := Run(logs, steps[..|steps| - 1]);
      StepGrows(s, steps[|steps| - 1]);
      UniqueBefore(s, Run(logs, steps));
      RunInv(logs, steps[..|steps| - 1]);
      StepInv(s, steps[|steps| - 1]);
    }
  }

  lemma UniqueBefore(s: State, s': State)
    requires Grows(s, s') && UniqueIDs(s')
    ensures UniqueIDs(s)
  {
    forall p, q, i, j |
      0 <= i < |Q.LogAt(s.queue, p)| && 0 <= j < |Q.LogAt(s.queue, q)| &&
      Q.LogAt(s.queue, p)[i].id == Q.LogAt(s.queue, q)[j].id
      ensures Q.LogAt(s.queue, p)[i] == Q.LogAt(s.queue, q)[j]
    {
      assert Q.LogAt(s'.queue, p)[i] == Q.LogAt(s.queue, p)[i];
      assert Q.LogAt(s'.queue, q)[j] == Q.LogAt(s.queue, q)[j];
    }
  }

  /** End to end, over any interleaving of any number of processors, pollers and publishers,
      with arbitrary failures to decode, insert or acknowledge: every message of the topic
      below a group's cursor has been inserted into the store. */
  lemma NothingLost(logs: map<int, seq<Message>>, steps: seq<Step>, topic: bytes, group: bytes, p: int, o: nat)
    requires C.Alone(topic, group) && UniqueIDs(Run(logs, steps))
    requires var s := Run(logs, steps);
      o < C.CellAt(s.queue.consumers, C.ConsumerKey(topic, group), p).next
    ensures var s := Run(logs, steps);
      o < |Q.LogAt(s.queue, p)| &&
      (Q.LogAt(s.queue, p)[o].topic == topic ==> Q.LogAt(s.queue, p)[o] in s.inserted)
  {
    hide Q.AckedOffsets;
    RunInv(logs, steps);
    C.SoleKey(topic, group);
    assert Q.CellOk(Run(logs, steps).queue, C.ConsumerKey(topic, group), p);
  }

  // ---------------------------------------------------------------- why IDs must be unique

  lemma {:induction false} RunFromConcat(s: State, a: seq<Step>, b: seq<Step>)
    ensures RunFrom(s, a + b) == RunFrom(RunFrom(s, a), b)
  {
    hide Apply;
    if b == [] {
      assert a + b == a;
    } else {
      RunFromConcat(s, a, b[..|b| - 1]);
      assert (a + b)[..|a + b| - 1] == a + b[..|b| - 1];
    }
  }

  /** Short runs, step by step. */
  lemma RunShort(s: State, a: seq<Step>)
    requires 1 <= |a| <= 4
    ensures var s1 := Apply(s, a[0]);
      RunFrom(s, a) ==
        if |a| == 1 then s1
        else if |a| == 2 then Apply(s1, a[1])
        else if |a| == 3 then Apply(Apply(s1, a[1]), a[2])
        else Apply(Apply(Apply(s1, a[1]), a[2]), a[3])
  {
    hide Apply;
    assert RunFrom(s, a[..0]) == s;
    assert forall n :: 0 <= n < |a| ==> a[..n + 1][..n] == a[..n] && a[..n + 1][n] == a[n];
    assert RunFrom(s, a[..1]) == Apply(RunFrom(s, a[..0]), a[0]);
    assert |a| > 1 ==> RunFrom(s, a[..2]) == Apply(RunFrom(s, a[..1]), a[1]);
    assert |a| > 2 ==> RunFrom(s, a[..3]) == Apply(RunFrom(s, a[..2]), a[2]);
    assert |a| > 3 ==> RunFrom(s, a[..4]) == Apply(RunFrom(s, a[..3]), a[3]);
    assert a[..|a|] == a;
  }

  ghost predicate PublishFree(steps: seq<Step>) {
    forall i :: 0 <= i < |steps| ==> !(steps[i].QueueStep? && steps[i].step.Publish?)
  }

  function PollSteps(i: nat, topic: bytes, group: bytes, p: int): seq<Step> {
    [QueueStep(Q.StartPoll(i, topic, group, p)), QueueStep(Q.ReadCursor(i)),
     QueueStep(Q.ReadStorage(i)), QueueStep(Q.Decide(i))]
  }

  lemma Hold(s: State, i: nat, topic: bytes, group: bytes, p: int, n: nat)
    requires Q.Ready(s.queue, i, topic, group, p, n)
    ensures var a := PollSteps(i, topic, group, p);
      Apply(Apply(Apply(s, a[0]), a[1]), a[2]) == s.(queue := Q.Held(s.queue, i, topic, group, p, n))
  {
    Q.HoldSteps(s.queue, i, topic, group, p, n);
    hide Q.Apply;
  }

  /** An undisturbed poll delivers a matching message. */
  lemma PollDelivers(s: State, i: nat, topic: bytes, group: bytes, p: int, n: nat)
    requires Q.Ready(s.queue, i, topic, group, p, n) && s.queue.logs[p][n].topic == topic
    ensures var key := C.ConsumerKey(topic, group);
      var d := C.Delivery(s.queue.logs[p][n].id, key, p, n);
      var s' := RunFrom(s, PollSteps(i, topic, group, p));
      && s'.inserted == s.inserted && s'.ackRequests == s.ackRequests && s'.workers == s.workers
      && s'.queue.logs == s.queue.logs
      && s'.queue.history == s.queue.history + [Q.Delivered(key, p, n)]
      && s'.queue.consumers == C.State(s.queue.consumers.cells[(key, p) := C.Cell(n, Some(d))],
                                       s.queue.consumers.inflight[d.messageID := d])
      && s'.queue.pollers.Keys == s.queue.pollers.Keys + {i}
  {
    Hold(s, i, topic, group, p, n);
    RunShort(s, PollSteps(i, topic, group, p));
    hide RunFrom, Q.Apply;
    var key := C.ConsumerKey(topic, group);
    Q.MarkHeld(Q.Held(s.queue, i, topic, group, p, n), i, topic, key, p, n, s.queue.logs[p][n]);
  }

  /** An undisturbed poll skips a message of another topic. */
  lemma PollSkips(s: State, i: nat, topic: bytes, group: bytes, p: int, n: nat)
    requires Q.Ready(s.queue, i, topic, group, p, n) && s.queue.logs[p][n].topic != topic
    ensures var key, s' := C.ConsumerKey(topic, group), RunFrom(s, PollSteps(i, topic, group, p));
      && s'.inserted == s.inserted && s'.ackRequests == s.ackRequests && s'.workers == s.workers
      && s'.queue.logs == s.queue.logs
      && s'.queue.consumers == C.State(s.queue.consumers.cells[(key, p) := C.Cell(n + 1, None)],
                                       s.queue.consumers.inflight)
      && s'.queue.pollers.Keys == s.queue.pollers.Keys + {i}
  {
    Hold(s, i, topic, group, p, n);
    RunShort(s, PollSteps(i, topic, group, p));
    hide RunFrom, Q.Apply;
    var key := C.ConsumerKey(topic, group);
    Q.SkipHeld(Q.Held(s.queue, i, topic, group, p, n), i, topic, key, p, n, s.queue.logs[p][n]);
  }

  function WorkSteps(key: bytes, p: int, n: nat, id: bytes): seq<Step> {
    [Receive(0, key, p, n), Insert(0), SendAck(0), AckArrives(id)]
  }

  /** Worker 0 takes a delivered message, inserts it and asks for its acknowledgement. */
  lemma WorkerInserts(s: State, key: bytes, p: int, n: nat)
    requires WorkerAt(s, 0).Idle? && n < |Q.LogAt(s.queue, p)|
    requires n in Q.DeliveredOffsets(s.queue.history, key, p)
    ensures var m := Q.LogAt(s.queue, p)[n]; var a := WorkSteps(key, p, n, m.id);
      var s' := Apply(Apply(Apply(s, a[0]), a[1]), a[2]);
      && s'.queue == s.queue && s'.inserted == s.inserted + {m} && WorkerAt(s', 0).Idle?
      && s'.ackRequests == s.ackRequests + {m.id}
  {
    hide Q.DeliveredOffsets;
    var m := Q.LogAt(s.queue, p)[n];
    var s1 := Apply(s, Receive(0, key, p, n));
    assert WorkerAt(s1, 0) == Holding(m);
    var s2 := Apply(s1, Insert(0));
    assert WorkerAt(s2, 0) == Stored(m) && s2.queue == s.queue;
  }

  /** Nothing is in flight or being worked on; pollers have numbers below `b`. */
  ghost predicate AtRest(s: State, logs: map<int, seq<Message>>, b: nat) {
    && s.queue.logs == logs && s.queue.consumers.inflight == map[] && WorkerAt(s, 0).Idle?
    && (forall i :: i in s.queue.pollers ==> i < b)
    && (forall key, p :: C.CellAt(s.queue.consumers, key, p).slot.None?)
  }

  /** Only the cursor of one cell has moved. */
  ghost predicate Moved(s: State, s': State, key: bytes, p: int, n: nat) {
    && C.CellAt(s'.queue.consumers, key, p) == C.Cell(n, None)
    && forall k, q :: (k, q) != (key, p) ==>
         C.CellAt(s'.queue.consumers, k, q) == C.CellAt(s.queue.consumers, k, q)
  }

  ghost predicate Readable(log: seq<Message>) {
    forall i :: 0 <= i < |log| ==> log[i].payload != [] && log[i].topic != [] && 0 !in log[i].topic[1..]
  }

  ghost predicate Subscribes(topic: bytes, group: bytes) {
    topic != [] && group != []
  }

  /** The cursor goes past one message: skipped, or delivered, inserted and acknowledged. */
  lemma WalkOne(s: State, logs: map<int, seq<Message>>, b: nat, topic: bytes, group: bytes, p: int, n: nat)
      returns (steps: seq<Step>)
    requires AtRest(s, logs, b) && Subscribes(topic, group) && p in logs && Readable(logs[p]) && n < |logs[p]|
    requires C.CellAt(s.queue.consumers, C.ConsumerKey(topic, group), p).next == n
    ensures var s' := RunFrom(s, steps);
      && AtRest(s', logs, b + 1) && Moved(s, s', C.ConsumerKey(topic, group), p, n + 1)
      && s'.inserted <= s.inserted + {logs[p][n]} && PublishFree(steps)
  {
    hide RunFrom, Apply, AtRest, Moved;
    AtRestIs(s, logs, b, C.ConsumerKey(topic, group), p);
    var poll := PollSteps(b, topic, group, p);
    if logs[p][n].topic != topic {
      PollSkips(s, b, topic, group, p, n);
      steps := poll;
    } else {
      var key, m := C.ConsumerKey(topic, group), logs[p][n];
      PollDelivers(s, b, topic, group, p, n);
      var s1 := RunFrom(s, poll);
      Q.HistorySnoc(s.queue.history, Q.Delivered(key, p, n), key, p);
      var work := WorkSteps(key, p, n, m.id);
      steps := poll + work;
      RunFromConcat(s, poll, work);
      RunShort(s1, work);
      WorkerInserts(s1, key, p, n);
      AckClears(Apply(Apply(Apply(s1, work[0]), work[1]), work[2]), m.id, C.Delivery(m.id, key, p, n));
      assert map[][m.id := C.Delivery(m.id, key, p, n)] - {m.id} == map[];
    }
    RestAgain(s, RunFrom(s, steps), logs, b, C.ConsumerKey(topic, group), p, n + 1);
  }

  lemma AtRestIs(s: State, logs: map<int, seq<Message>>, b: nat, key: bytes, p: int)
    requires AtRest(s, logs, b)
    ensures s.queue.logs == logs && s.queue.consumers.inflight == map[] && WorkerAt(s, 0).Idle?
    ensures b !in s.queue.pollers && C.CellAt(s.queue.consumers, key, p).slot.None?
  {
  }

  lemma RestAgain(s: State, s': State, logs: map<int, seq<Message>>, b: nat, key: bytes, p: int, n: nat)
    requires AtRest(s, logs, b) && s'.queue.logs == logs && WorkerAt(s', 0).Idle?
    requires s'.queue.pollers.Keys == s.queue.pollers.Keys + {b}
    requires s'.queue.consumers == C.State(s.queue.consumers.cells[(key, p) := C.Cell(n, None)], map[])
    ensures AtRest(s', logs, b + 1) && Moved(s, s', key, p, n)
  {
    forall i | i in s'.queue.pollers
      ensures i < b + 1
    {
      assert i in s'.queue.pollers.Keys;
    }
    forall k, q
      ensures C.CellAt(s'.queue.consumers, k, q).slot.None?
    {
      assert C.CellAt(s.queue.consumers, k, q).slot.None?;
    }
  }

  /** The acknowledgement of the delivery an ID's entry names. */
  lemma AckClears(s: State, id: bytes, d: C.Delivery)
    requires id in s.ackRequests && id in s.queue.consumers.inflight
    requires s.queue.consumers.inflight[id] == d && d.messageID == id
    requires C.CellAt(s.queue.consumers, d.groupKey, d.partition).slot == Some(d)
    ensures var s' := Apply(s, AckArrives(id));
      && s'.queue.logs == s.queue.logs && s'.queue.pollers == s.queue.pollers
      && s'.inserted == s.inserted && s'.workers == s.workers
      && s'.queue.consumers == C.State(s.queue.consumers.cells[(d.groupKey, d.partition) := C.Cell(d.offset + 1, None)],
                                       s.queue.consumers.inflight - {id})
  {
  }

  lemma {:induction false} Walk(s: State, logs: map<int, seq<Message>>, b: nat, topic: bytes, group: bytes,
                                p: int, n: nat, target: nat)
      returns (steps: seq<Step>, b': nat)
    requires AtRest(s, logs, b) && Subscribes(topic, group) && p in logs && Readable(logs[p])
    requires n <= target <= |logs[p]| && C.CellAt(s.queue.consumers, C.ConsumerKey(topic, group), p).next == n
    ensures var s' := RunFrom(s, steps);
      && AtRest(s', logs, b') && Moved(s, s', C.ConsumerKey(topic, group), p, target) && PublishFree(steps)
      && (forall m :: m in s'.inserted ==> m in s.inserted || m in logs[p][..target])
    decreases target - n
  {
    if n == target {
      steps, b' := [], b;
    } else {
      hide RunFrom;
      var first := WalkOne(s, logs, b, topic, group, p, n);
      var s1 := RunFrom(s, first);
      assert logs[p][n] in logs[p][..target] by { assert logs[p][..target][n] == logs[p][n]; }
      var rest;
      rest, b' := Walk(s1, logs, b + 1, topic, group, p, n + 1, target);
      steps := first + rest;
      RunFromConcat(s, first, rest);
      MovedBoth(s, s1, RunFrom(s, steps), C.ConsumerKey(topic, group), p, n + 1, target);
    }
  }

  lemma MovedBoth(s: State, t: State, u: State, key: bytes, p: int, n: nat, target: nat)
    requires Moved(s, t, key, p, n) && Moved(t, u, key, p, target)
    ensures Moved(s, u, key, p, target)
  {
  }

  lemma GroupsDiffer(t: bytes, u: bytes)
    ensures C.ConsumerKey(t, [1]) != C.ConsumerKey(u, [2])
  {
    var a, b := C.ConsumerKey(t, [1]), C.ConsumerKey(u, [2]);
    assert a[|a| - 1] == 1 && b[|b| - 1] == 2;
  }

  /** Some message of a topic below a group's cursor has not been inserted. */
  ghost predicate LostAt(s: State, topic: bytes, group: bytes, p: int, o: nat) {
    && C.Alone(topic, group) && o < C.CellAt(s.queue.consumers, C.ConsumerKey(topic, group), p).next
    && o < |Q.LogAt(s.queue, p)| && Q.LogAt(s.queue, p)[o].topic == topic
    && Q.LogAt(s.queue, p)[o] !in s.inserted
  }

  ghost predicate SomethingLost(s: State) {
    exists topic, group, p, o: nat :: LostAt(s, topic, group, p, o)
  }

  /** Two different messages share an ID. One group is about to receive `x`, another `y`.
      `y` is delivered and inserted; before its acknowledgement arrives, `x` is delivered.
      The acknowledgement then moves the first group's cursor past `x`. */
  lemma StolenAck(s: State, logs: map<int, seq<Message>>, b: nat, q: int, j: nat, p: int, i: nat) returns (steps: seq<Step>)
    requires AtRest(s, logs, b) && p in logs && q in logs && i < |logs[p]| && j < |logs[q]|
    requires Readable(logs[p]) && Readable(logs[q])
    requires var x, y := logs[q][j], logs[p][i];
      && x.id == y.id && x != y && x !in s.inserted
      && C.CellAt(s.queue.consumers, C.ConsumerKey(x.topic, [1]), q).next == j
      && C.CellAt(s.queue.consumers, C.ConsumerKey(y.topic, [2]), p).next == i
    ensures PublishFree(steps) && LostAt(RunFrom(s, steps), logs[q][j].topic, [1], q, j)
  {
    var x, y := logs[q][j], logs[p][i];
    var k1, k2 := C.ConsumerKey(x.topic, [1]), C.ConsumerKey(y.topic, [2]);
    GroupsDiffer(x.topic, y.topic);
    hide RunFrom, Apply, AtRest, Q.DeliveredOffsets;
    AtRestIs(s, logs, b, k1, q);
    AtRestIs(s, logs, b, k2, p);
    var first := InsertUnacked(s, logs, b, y.topic, [2], p, i);
    var s1 := RunFrom(s, first);
    var poll := PollSteps(b + 1, x.topic, [1], q);
    PollDelivers(s1, b + 1, x.topic, [1], q, j);
    var s2 := RunFrom(s1, poll);
    AckClears(s2, x.id, C.Delivery(x.id, k1, q, j));
    RunShort(s2, [AckArrives(x.id)]);
    steps := first + poll + [AckArrives(x.id)];
    RunFromConcat(s, first, poll);
    RunFromConcat(s, first + poll, [AckArrives(x.id)]);
  }

  /** A message is delivered and inserted, and its acknowledgement is under way. */
  lemma InsertUnacked(s: State, logs: map<int, seq<Message>>, b: nat, topic: bytes, group: bytes, p: int, n: nat)
      returns (steps: seq<Step>)
    requires AtRest(s, logs, b) && Subscribes(topic, group) && p in logs && Readable(logs[p]) && n < |logs[p]|
    requires logs[p][n].topic == topic
    requires C.CellAt(s.queue.consumers, C.ConsumerKey(topic, group), p).next == n
    ensures var s', key, m := RunFrom(s, steps), C.ConsumerKey(topic, group), logs[p][n];
      && s'.queue.logs == logs && b + 1 !in s'.queue.pollers && PublishFree(steps)
      && s'.inserted == s.inserted + {m} && m.id in s'.ackRequests
      && s'.queue.consumers.cells ==
           s.queue.consumers.cells[(key, p) := C.Cell(n, Some(C.Delivery(m.id, key, p, n)))]
  {
    hide RunFrom, Apply, AtRest;
    var key, m := C.ConsumerKey(topic, group), logs[p][n];
    AtRestIs(s, logs, b, key, p);
    var poll := PollSteps(b, topic, group, p);
    PollDelivers(s, b, topic, group, p, n);
    var s1 := RunFrom(s, poll);
    Q.HistorySnoc(s.queue.history, Q.Delivered(key, p, n), key, p);
    var work := WorkSteps(key, p, n, m.id)[..3];
    WorkerInserts(s1, key, p, n);
    RunShort(s1, work);
    steps := poll + work;
    RunFromConcat(s, poll, work);
    NextIsFree(s, logs, b);
    assert b + 1 !in s1.queue.pollers.Keys;
  }

  lemma NextIsFree(s: State, logs: map<int, seq<Message>>, b: nat)
    requires AtRest(s, logs, b)
    ensures b + 1 !in s.queue.pollers.Keys
  {
  }

  /** Two groups walk to the two messages, neither inserting `x` on the way. */
  lemma LoseOne(logs: map<int, seq<Message>>, q: int, j: nat, p: int, i: nat) returns (steps: seq<Step>)
    requires p in logs && q in logs && i < |logs[p]| && j < |logs[q]| && Readable(logs[p]) && Readable(logs[q])
    requires var x, y := logs[q][j], logs[p][i];
      x.id == y.id && x != y && x !in logs[q][..j] && x !in logs[p][..i]
    ensures PublishFree(steps) && SomethingLost(Run(logs, steps))
  {
    var x, y, s := logs[q][j], logs[p][i], Init(logs);
    GroupsDiffer(x.topic, y.topic);
    hide RunFrom;
    var a, b := Walk(s, logs, 0, x.topic, [1], q, 0, j);
    var s1 := RunFrom(s, a);
    var a', b' := Walk(s1, logs, b, y.topic, [2], p, 0, i);
    RunFromConcat(s, a, a');
    var s2 := RunFrom(s1, a');
    var last := StolenAck(s2, logs, b', q, j, p, i);
    RunFromConcat(s, a + a', last);
    steps := a + a' + last;
    assert LostAt(Run(logs, steps), x.topic, [1], q, j);
  }

  lemma {:induction false} FirstAt(log: seq<Message>, m: Message) returns (k: nat)
    requires m in log
    ensures k < |log| && log[k] == m && m !in log[..k]
  {
    if m in log[..|log| - 1] {
      k := FirstAt(log[..|log| - 1], m);
      assert log[..|log| - 1][..k] == log[..k];
    } else {
      k := |log| - 1;
    }
  }

  ghost predicate UniqueIn(logs: map<int, seq<Message>>) {
    forall p, q, i, j ::
      p in logs && q in logs && 0 <= i < |logs[p]| && 0 <= j < |logs[q]| && logs[p][i].id == logs[q][j].id ==>
        logs[p][i] == logs[q][j]
  }

  /** Whenever two different messages share an ID, some run loses one. */
  lemma SharedIDsLoseMessages(logs: map<int, seq<Message>>) returns (steps: seq<Step>)
    requires (forall p :: p in logs ==> Readable(logs[p])) && !UniqueIn(logs)
    ensures PublishFree(steps) && SomethingLost(Run(logs, steps))
  {
    var p, q, i, j :| p in logs && q in logs && 0 <= i < |logs[p]| && 0 <= j < |logs[q]| &&
      logs[p][i].id == logs[q][j].id && logs[p][i] != logs[q][j];
    var y, x := logs[p][i], logs[q][j];
    hide SomethingLost, Run;
    var i0 := FirstAt(logs[p], y);
    if x in logs[p][..i0] {
      var k := FirstAt(logs[p], x);
      BeforeFirst(logs[p], x, k, i0);
      assert y !in logs[p][..k] by { assert logs[p][..k] == logs[p][..i0][..k]; }
      steps := LoseOne(logs, p, i0, p, k);
    } else {
      var j0 := FirstAt(logs[q], x);
      steps := LoseOne(logs, q, j0, p, i0);
    }
  }

  lemma BeforeFirst(log: seq<Message>, m: Message, k: nat, n: nat)
    requires n <= |log| && m in log[..n] && k < |log| && m !in log[..k]
    ensures k < n
  {
  }

  lemma {:induction false} LogsFixed(logs: map<int, seq<Message>>, steps: seq<Step>)
    requires PublishFree(steps)
    ensures Run(logs, steps).queue.logs == logs
  {
    hide Q.DeliveredOffsets, Q.AckedOffsets;
    if steps != [] {
      LogsFixed(logs, steps[..|steps| - 1]);
    }
  }

  /** The exact condition: of logs that can be read, whatever pollers and processors do,
      nothing is ever lost if and only if messages that share an ID are the same message. */
  lemma NothingLostExactlyWithUniqueIDs(logs: map<int, seq<Message>>)
    requires forall p :: p in logs ==> Readable(logs[p])
    ensures (forall steps :: PublishFree(steps) ==> !SomethingLost(Run(logs, steps))) <==> UniqueIn(logs)
  {
    if UniqueIn(logs) {
      forall steps | PublishFree(steps)
        ensures !SomethingLost(Run(logs, steps))
      {
        LogsFixed(logs, steps);
        NoneLost(logs, steps);
      }
    } else {
      var steps := SharedIDsLoseMessages(logs);
    }
  }

  lemma NoneLost(logs: map<int, seq<Message>>, steps: seq<Step>)
    requires UniqueIn(logs) && Run(logs, steps).queue.logs == logs
    ensures !SomethingLost(Run(logs, steps))
  {
    var s := Run(logs, steps);
    hide Run;
    assert UniqueIDs(s);
    forall topic, group, p, o: nat
      ensures !LostAt(s, topic, group, p, o)
    {
      if LostAt(s, topic, group, p, o) {
        NothingLost(logs, steps, topic, group, p, o);
      }
    }
  }
}
