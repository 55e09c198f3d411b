/** The partition store as values: the bytes of every partition's file and the next offset
    of every open partition. Each operation is a function on these; the lemmas show that
    together they implement a plain map from partition to message sequence. */
module StoreModel {
  import opened Bytes
  import opened Codec
  import opened SegmentLog

  datatype Store = Store(files: map<int, bytes>, next: map<int, Offset>)

  const Empty: Store := Store(map[], map[])

  function FileFor(s: Store, p: int): bytes {
    if p in s.files then s.files[p] else []
  }

  function Open(s: Store, p: int): Store {
    if p in s.next then s
    else Store(s.files[p := Recovered(FileFor(s, p))], s.next[p := NextAfter(Scan(FileFor(s, p)), 0)])
  }

  datatype Outcome = Appended(offset: Offset) | Cancelled | NotOpen | UnexpectedOffset | NotEncodable

  /** Writes one record with the next offset, if the message encodes. */
  function Write(s: Store, p: int, m: Message): (Store, Outcome)
    requires p in s.next
  {
    match Encode(m)
    case None => (s, NotEncodable)
    case Some(e) =>
      (Store(s.files[p := FileFor(s, p) + Frame(e, s.next[p])], s.next[p := (s.next[p] + 1) % TWO64]),
       Appended(s.next[p]))
  }

  /** The leader's append: the store chooses the offset. */
  function Append(s: Store, cancelled: bool, p: int, m: Message): (Store, Outcome) {
    if cancelled then (s, Cancelled)
    else if p !in s.next then (s, NotOpen)
    else Write(s, p, m)
  }

  /** The follower's append: the record must carry the next offset. */
  function AppendRecord(s: Store, cancelled: bool, p: int, r: Record): (Store, Outcome) {
    if cancelled then (s, Cancelled)
    else if p !in s.next then (s, NotOpen)
    else if r.offset != s.next[p] then (s, UnexpectedOffset)
    else Write(s, p, r.message)
  }

  function Close(s: Store): Store {
    s.(next := map[])
  }

  /** The process dies and some files lose a tail. */
  function Crash(s: Store, cuts: map<int, nat>): Store {
    Store(map p | p in s.files ::
            if p in cuts && cuts[p] <= |s.files[p]| then s.files[p][..cuts[p]] else s.files[p],
          map[])
  }

  datatype Op =
    | OpenOp(p: int)
    | AppendOp(cancelled: bool, p: int, m: Message)
    | AppendRecordOp(cancelled: bool, p: int, r: Record)
    | CloseOp
    | CrashOp(cuts: map<int, nat>)

  function Apply(s: Store, op: Op): Store {
    match op
    case OpenOp(p) => Open(s, p)
    case AppendOp(cancelled, p, m) => Append(s, cancelled, p, m).0
    case AppendRecordOp(cancelled, p, r) => AppendRecord(s, cancelled, p, r).0
    case CloseOp => Close(s)
    case CrashOp(cuts) => Crash(s, cuts)
  }

  function Run(ops: seq<Op>): Store {
    if ops == [] then Empty else Apply(Run(ops[..|ops| - 1]), ops[|ops| - 1])
  }

  // ---------------------------------------------------------------- the abstraction

  function Messages(records: seq<Record>): seq<Message> {
    seq(|records|, i requires 0 <= i < |records| => records[i].message)
  }

  /** The message sequence a file stands for. */
  function Log(file: bytes): seq<Message> {
    Messages(Scan(file))
  }

  function Logs(s: Store): map<int, seq<Message>> {
    map p | p in s.files :: Log(s.files[p])
  }

  /** The log as the replication protocol sees it: an append at a given offset succeeds
      exactly when the offset is the length. */
  function AppendAt<T>(log: seq<T>, offset: nat, x: T): (seq<T>, bool) {
    if offset == |log| then (log + [x], true) else (log, false)
  }

  ghost predicate Numbered(records: seq<Record>) {
    && |records| < TWO64
    && forall i :: 0 <= i < |records| ==> records[i].offset == i
  }

  /** Valid to the last byte. */
  predicate Intact(file: bytes) {
    ValidLength(file) == |file|
  }

  /** What every run keeps: files hold consecutively numbered records; an open partition's
      file is intact and its next offset is the length of its log, or an accepted empty
      payload has made it dead until the next restart. */
  ghost predicate Good(s: Store) {
    && s.next.Keys <= s.files.Keys
    && (forall p :: p in s.files ==> Numbered(Scan(s.files[p])))
    && (forall p :: p in s.next ==>
          Dead(s.files[p]) || (Intact(s.files[p]) && s.next[p] == |Scan(s.files[p])|))
  }

  /** An encoding, if there is one, whose length fits the frame, and a log that has not used
      up the 64-bit offsets. */
  ghost predicate Sized(s: Store, p: int, m: Message) {
    && (Encode(m).Some? ==> |Encode(m).value| < TWO32)
    && (p in s.next ==> s.next[p] + 1 < TWO64)
  }

  ghost predicate Admissible(s: Store, op: Op) {
    match op
    case AppendOp(_, p, m) => Sized(s, p, m)
    case AppendRecordOp(_, p, r) => Sized(s, p, r.message)
    case _ => true
  }

  /** A write that will survive a restart: the message encodes, has a payload, and no empty
      payload was written before it. */
  ghost predicate Survives(s: Store, p: int, m: Message) {
    Encode(m).Some? && m.payload != [] && p in s.files && Intact(s.files[p])
  }

  /** The same operations on plain logs. A crash may cut each log back to a prefix, and
      does not touch one whose file is not cut. */
  ghost predicate ModelStep(s: Store, op: Op, s': Store) {
    var logs, logs' := Logs(s), Logs(s');
    match op
    case OpenOp(p) => logs' == if p in logs then logs else logs[p := []]
    case AppendOp(cancelled, p, m) =>
      if cancelled || p !in s.next || !Survives(s, p, m) then logs' == logs
      else p in logs && logs' == logs[p := logs[p] + [m]]
    case AppendRecordOp(cancelled, p, r) =>
      if cancelled || p !in s.next || !Survives(s, p, r.message) then logs' == logs
      else p in logs && logs' == logs[p := AppendAt(logs[p], r.offset, r.message).0]
    case CloseOp => logs' == logs
    case CrashOp(cuts) =>
      && logs'.Keys == logs.Keys
      && forall p :: p in logs ==>
           logs'[p] <= logs[p] && (p !in cuts || cuts[p] >= |s.files[p]| ==> logs'[p] == logs[p])
  }

  // ---------------------------------------------------------------- proofs

  /** Reopening: recovery changes the bytes but not the log, and finds its length. */
  lemma OpenGood(s: Store, p: int)
    requires Good(s)
    ensures Good(Open(s, p))
    ensures ModelStep(s, OpenOp(p), Open(s, p))
  {
    hide Scan, ValidLength, Recovered, NextAfter;
    if p !in s.next {
      var file := FileFor(s, p);
      EmptyFile();
      RecoverIdempotent(file);
      NumberedNext(Scan(file));
      assert Log(Recovered(file)) == Log(file);
      assert p !in s.files ==> Log(file) == [];
    }
  }

  lemma NumberedNext(records: seq<Record>)
    requires Numbered(records)
    ensures NextAfter(records, 0) == |records|
  {
    NextAfterIsPastLargest(records, 0);
    var n := NextAfter(records, 0);
    if records != [] {
      assert records[|records| - 1] in records;
    }
  }

  /** Appending one storable record to a fully valid, numbered file. */
  lemma WriteFile(file: bytes, m: Message)
    requires ValidLength(file) == |file| && Numbered(Scan(file)) && |Scan(file)| + 1 < TWO64
    requires m.payload != [] && Encode(m).Some? && |Encode(m).value| < TWO32
    ensures var file' := file + Frame(Encode(m).value, |Scan(file)|);
      && ValidLength(file') == |file'|
      && Numbered(Scan(file')) && |Scan(file')| == |Scan(file)| + 1
      && Log(file') == Log(file) + [m]
  {
    hide Scan, ValidLength;
    var r := Record(|Scan(file)|, m);
    var file' := file + FrameOf(r);
    AppendSurvives(file, r, []);
    EmptyFile();
    assert file' + [] == file';
    assert Scan(file') == Scan(file) + [r];
    MessagesSnoc(Scan(file), r);
  }

  /** A crash in the middle of an append is atomic: the log is the old one until the last
      byte of the new frame is on disk. */
  lemma AppendIsAtomic(file: bytes, m: Message, cut: nat)
    requires ValidLength(file) == |file| && Numbered(Scan(file)) && |Scan(file)| + 1 < TWO64
    requires m.payload != [] && Encode(m).Some? && |Encode(m).value| < TWO32
    requires |file| <= cut <= |file + Frame(Encode(m).value, |Scan(file)|)|
    ensures var file' := file + Frame(Encode(m).value, |Scan(file)|);
      Log(file'[..cut]) == if cut == |file'| then Log(file) + [m] else Log(file)
  {
    hide Codec.Encode, Codec.Decode, Scan, ValidLength, Numbered;
    WriteFile(file, m);
    var r := Record(|Scan(file)|, m);
    var frame := FrameOf(r);
    if cut == |file + frame| {
      assert (file + frame)[..cut] == file + frame;
    } else {
      var torn := frame[..cut - |file|];
      assert (file + frame)[..cut] == file + torn;
      assert torn <= frame + [];
      TornFrame(r, torn, []);
      TornTail(file, torn);
    }
  }

  lemma TornTail(file: bytes, torn: bytes)
    requires ValidLength(file) == |file| && !HasFrame(torn)
    ensures Log(file + torn) == Log(file)
  {
    ScanAppend(file, torn);
    assert Scan(torn) == [];
    assert Scan(file) + [] == Scan(file);
  }

  lemma MessagesSnoc(records: seq<Record>, r: Record)
    ensures Messages(records + [r]) == Messages(records) + [r.message]
  {
  }

  lemma LogSize(file: bytes)
    ensures |Log(file)| == |Scan(file)|
  {
    hide SegmentLog.Scan;
  }

  /** A write to an open partition is accepted exactly when the message encodes, and extends
      the log exactly when it survives. */
  lemma WriteGood(s: Store, p: int, m: Message)
    requires Good(s) && p in s.next && Sized(s, p, m)
    ensures p in s.files
    ensures var (s', r) := Write(s, p, m);
      && Good(s')
      && r == (if Encode(m).Some? then Appended(s.next[p]) else NotEncodable)
      && (Intact(s.files[p]) ==> s.next[p] == |Log(s.files[p])|)
      && Logs(s') == (if Survives(s, p, m) then Logs(s)[p := Log(s.files[p]) + [m]] else Logs(s))
      && (forall q :: q in s.files && q != p ==> s'.files[q] == s.files[q])
  {
    hide Codec.Encode, SegmentLog.Scan, SegmentLog.ValidLength, SegmentLog.Frame, Log, Numbered, Dead, Intact;
    var file := s.files[p];
    LogSize(file);
    IntactNotDead(file);
    if Encode(m).Some? {
      if Dead(file) {
        WriteDead(file, Frame(Encode(m).value, s.next[p]));
      } else if m.payload == [] {
        WriteEmpty(file, m, s.next[p]);
      } else {
        WriteIntact(file, m);
      }
    }
  }

  lemma IntactNotDead(file: bytes)
    ensures !(Intact(file) && Dead(file))
  {
    hide SegmentLog.ValidLength;
  }

  lemma WriteIntact(file: bytes, m: Message)
    requires Intact(file) && Numbered(Scan(file)) && |Scan(file)| + 1 < TWO64
    requires m.payload != [] && Encode(m).Some? && |Encode(m).value| < TWO32
    ensures var file' := file + Frame(Encode(m).value, |Scan(file)|);
      Intact(file') && Numbered(Scan(file')) && |Scan(file')| == |Scan(file)| + 1 && Log(file') == Log(file) + [m]
  {
    hide Codec.Encode, SegmentLog.Scan, SegmentLog.ValidLength, SegmentLog.Frame, Log, Numbered;
    WriteFile(file, m);
  }

  lemma WriteDead(file: bytes, frame: bytes)
    requires Dead(file)
    ensures Dead(file + frame) && Scan(file + frame) == Scan(file) && Log(file + frame) == Log(file)
  {
    DeadStays(file, frame);
  }

  lemma WriteEmpty(file: bytes, m: Message, offset: Offset)
    requires Intact(file) && m.payload == [] && Encode(m).Some? && |Encode(m).value| < TWO32
    ensures var file' := file + Frame(Encode(m).value, offset);
      Dead(file') && Scan(file') == Scan(file) && Log(file') == Log(file)
  {
    hide SegmentLog.Scan, SegmentLog.ValidLength, Dead;
    EmptyPayloadKills(file, Record(offset, m));
  }

  lemma CrashGood(s: Store, cuts: map<int, nat>)
    requires Good(s)
    ensures Good(Crash(s, cuts))
    ensures ModelStep(s, CrashOp(cuts), Crash(s, cuts))
  {
    hide SegmentLog.Scan, SegmentLog.ValidLength;
    var s' := Crash(s, cuts);
    forall p | p in s.files
      ensures Scan(s'.files[p]) <= Scan(s.files[p])
      ensures p !in cuts || cuts[p] >= |s.files[p]| ==> s'.files[p] == s.files[p]
    {
      var file := s.files[p];
      if p in cuts && cuts[p] <= |file| {
        CutKeepsPrefix(file, cuts[p]);
        assert file[..|file|] == file;
      }
    }
    assert Logs(s').Keys == Logs(s).Keys;
    forall p | p in s.files
      ensures Log(s'.files[p]) <= Log(s.files[p])
    {
      MessagesPrefix(Scan(s'.files[p]), Scan(s.files[p]));
    }
  }

  lemma MessagesPrefix(a: seq<Record>, b: seq<Record>)
    requires a <= b
    ensures Messages(a) <= Messages(b)
  {
  }

  /** Every operation on a good store keeps it good and acts on the logs as the model says. */
  lemma StepRefines(s: Store, op: Op)
    requires Good(s) && Admissible(s, op)
    ensures Good(Apply(s, op))
    ensures ModelStep(s, op, Apply(s, op))
  {
    hide Codec.Decode, Codec.Encode;
    match op
    case OpenOp(p) => OpenGood(s, p);
    case AppendOp(cancelled, p, m) =>
      if !cancelled && p in s.next { WriteGood(s, p, m); }
    case AppendRecordOp(cancelled, p, r) =>
      if !cancelled && p in s.next {
        WriteGood(s, p, r.message);
        assert Logs(s)[p := Log(s.files[p])] == Logs(s);
      }
    case CloseOp =>
    case CrashOp(cuts) => CrashGood(s, cuts);
  }

  ghost predicate AdmissibleRun(ops: seq<Op>) {
    ops == [] ||
    (AdmissibleRun(ops[..|ops| - 1]) && Admissible(Run(ops[..|ops| - 1]), ops[|ops| - 1]))
  }

  /** Any run of opens, appends, replicated appends, closes and crashes keeps the store good. */
  lemma {:induction false} RunGood(ops: seq<Op>)
    requires AdmissibleRun(ops)
    ensures Good(Run(ops))
  {
    if ops == [] {
    } else {
      RunGood(ops[..|ops| - 1]);
      StepRefines(Run(ops[..|ops| - 1]), ops[|ops| - 1]);
    }
  }

  /** After any run: an append on an open partition returns the next offset, which is the
      length of the log, and extends it; a replicated append is accepted exactly at that
      offset; a read returns the indexed message or reports the offset as absent; other files
      are untouched. A message that does not encode changes nothing. After an empty payload
      only the log before it can be counted on. */
  lemma StoreIsLogMap(ops: seq<Op>, p: int, m: Message, offset: Offset)
    requires AdmissibleRun(ops) && p in Run(ops).next && Sized(Run(ops), p, m)
    ensures p in Run(ops).files && BehavesAsLog(Run(ops), p, m, offset)
  {
    RunGood(ops);
    GoodBehavesAsLog(Run(ops), p, m, offset);
  }

  ghost predicate BehavesAsLog(s: Store, p: int, m: Message, offset: Offset)
    requires p in s.files && p in s.next
  {
    var log, next := Log(s.files[p]), s.next[p];
    var appended := Append(s, false, p, m);
    var replicated := AppendRecord(s, false, p, Record(offset, m));
    && |log| < TWO64
    && (Intact(s.files[p]) ==> next == |log|)
    && appended.1 == (if Encode(m).Some? then Appended(next) else NotEncodable)
    && Logs(appended.0) == (if Survives(s, p, m) then Logs(s)[p := log + [m]] else Logs(s))
    && replicated.1 == (if offset != next then UnexpectedOffset
                        else if Encode(m).Some? then Appended(next) else NotEncodable)
    && Logs(replicated.0) == (if Survives(s, p, m) then Logs(s)[p := AppendAt(log, offset, m).0] else Logs(s))
    && (offset < |log| ==> Find(s.files[p], offset) == Found(Record(offset, log[offset])))
    && (offset >= |log| && Intact(s.files[p]) ==> Find(s.files[p], offset) == OffsetNotFound)
  }

  lemma GoodBehavesAsLog(s: Store, p: int, m: Message, offset: Offset)
    requires Good(s) && p in s.next && Sized(s, p, m)
    ensures p in s.files && BehavesAsLog(s, p, m, offset)
  {
    hide Codec.Encode, SegmentLog.Scan, SegmentLog.ValidLength, SegmentLog.Find, Dead;
    WriteGood(s, p, m);
    var file := s.files[p];
    FirstAtNumbered(Scan(file), 0, offset);
    if offset < |Log(file)| {
      FindInValidPart(file, offset);
    } else if Intact(file) {
      ReadAfterRecover(file, offset);
    }
    assert Logs(s)[p := Log(file)] == Logs(s);
  }

  lemma {:induction false} FirstAtNumbered(records: seq<Record>, base: nat, offset: Offset)
    requires forall i :: 0 <= i < |records| ==> records[i].offset == base + i
    ensures FirstAt(records, offset) ==
      if base <= offset < base + |records| then Found(records[offset - base]) else OffsetNotFound
  {
    if records != [] && records[0].offset != offset {
      FirstAtNumbered(records[1..], base + 1, offset);
    }
  }

  // ---------------------------------------------------------------- outcomes, for any store

  /** A leader append is accepted exactly when it is not cancelled, the partition is open and
      the message encodes. It then takes the next offset and adds one frame to that file;
      otherwise the error says why and nothing changes. */
  lemma AppendOutcome(s: Store, cancelled: bool, p: int, m: Message)
    ensures var (s', r) := Append(s, cancelled, p, m);
      && (r.Appended? <==> !cancelled && p in s.next && Encode(m).Some?)
      && (r == Cancelled <==> cancelled)
      && (r == NotOpen <==> !cancelled && p !in s.next)
      && (!r.Appended? ==> s' == s)
      && (r.Appended? ==> r.offset == s.next[p] && OneMore(s, s', p, m))
  {
    hide Codec.Encode, SegmentLog.Frame;
  }

  /** One frame more in the file of an open partition, with its next offset; nothing else. */
  ghost predicate OneMore(s: Store, s': Store, p: int, m: Message)
    requires p in s.next && Encode(m).Some?
  {
    var file := if p in s.files then s.files[p] else [];
    && s'.files == s.files[p := file + Frame(Encode(m).value, s.next[p])]
    && s'.next == s.next[p := (s.next[p] + 1) % TWO64]
  }

  /** A replicated append is accepted exactly when it is not cancelled, the partition is open,
      the record carries its next offset and the message encodes. */
  lemma AppendRecordOutcome(s: Store, cancelled: bool, p: int, record: Record)
    ensures var (s', r) := AppendRecord(s, cancelled, p, record);
      && (r.Appended? <==>
            !cancelled && p in s.next && record.offset == s.next[p] && Encode(record.message).Some?)
      && (r == Cancelled <==> cancelled)
      && (r == NotOpen <==> !cancelled && p !in s.next)
      && (r == UnexpectedOffset <==> !cancelled && p in s.next && record.offset != s.next[p])
      && (!r.Appended? ==> s' == s)
      && (r.Appended? ==> r.offset == record.offset && OneMore(s, s', p, record.message))
  {
    hide Codec.Encode, SegmentLog.Frame;
  }

  /** Opening recovers the file of a partition that is not open, and nothing else. */
  lemma OpenOutcome(s: Store, p: int)
    ensures var s' := Open(s, p); var file := if p in s.files then s.files[p] else [];
      && (p in s.next ==> s' == s)
      && (p !in s.next ==>
            && s'.files == s.files[p := file[..ValidLength(file)]]
            && s'.next == s.next[p := NextAfter(Scan(file), 0)])
  {
    hide SegmentLog.Scan, SegmentLog.ValidLength, NextAfter;
  }

  /** Closing keeps every byte; a crash keeps the bytes before each cut. */
  lemma CloseAndCrashOutcome(s: Store, cuts: map<int, nat>)
    ensures Close(s).files == s.files && Close(s).next == map[]
    ensures Crash(s, cuts).next == map[] && Crash(s, cuts).files.Keys == s.files.Keys
    ensures forall p :: p in s.files ==>
      Crash(s, cuts).files[p] ==
        if p in cuts && cuts[p] <= |s.files[p]| then s.files[p][..cuts[p]] else s.files[p]
  {
  }

  /** Over any run: an accepted record with a payload, on an intact file, is afterwards found
      at its offset, by whichever of the two appends it came. */
  lemma AcceptedIsFound(ops: seq<Op>, p: int, record: Record)
    requires AdmissibleRun(ops) && p in Run(ops).next && Sized(Run(ops), p, record.message)
    requires p in Run(ops).files && Intact(Run(ops).files[p])
    requires record.message.payload != [] && Encode(record.message).Some? && record.offset == Run(ops).next[p]
    ensures var s := Run(ops); var a, b := Append(s, false, p, record.message), AppendRecord(s, false, p, record);
      && a.1 == b.1 == Appended(record.offset) && a.0 == b.0 && p in a.0.files
      && Find(a.0.files[p], record.offset) == Found(record)
  {
    RunGood(ops);
    var s := Run(ops);
    hide Run;
    AppendOutcome(s, false, p, record.message);
    AppendRecordOutcome(s, false, p, record);
    WriteFound(s, p, record);
  }

  lemma WriteFound(s: Store, p: int, record: Record)
    requires Good(s) && p in s.next && Sized(s, p, record.message) && Intact(s.files[p])
    requires record.message.payload != [] && Encode(record.message).Some? && record.offset == s.next[p]
    ensures p in Write(s, p, record.message).0.files
    ensures Find(Write(s, p, record.message).0.files[p], record.offset) == Found(record)
  {
    hide Codec.Encode, SegmentLog.Scan, SegmentLog.ValidLength, SegmentLog.Frame, SegmentLog.Find, Dead;
    var file, m := s.files[p], record.message;
    IntactNotDead(file);
    var file' := file + Frame(Encode(m).value, s.next[p]);
    WriteIntact(file, m);
    LogSize(file);
    ReadAfterRecover(file', record.offset);
    FirstAtNumbered(Scan(file'), 0, record.offset);
    assert Log(file')[record.offset] == m;
  }
}
