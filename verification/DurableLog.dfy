/** One partition file of a node over writes, syncs and crashes. A crash leaves the file cut
    at any byte that is not yet synced; the restart recovers what is left. */
module DurableLog {
  import opened Bytes
  import opened Codec
  import opened SegmentLog
  import opened StoreModel

  /** `synced` bytes of the file are known to be on disk. */
  datatype Disk = Disk(file: bytes, synced: nat, next: Offset)

  datatype DiskOp = WriteOp(m: Message) | SyncOp | RestartOp(cut: nat)

  /** Recovery truncates the file and does not sync it. */
  function Restart(d: Disk, cut: nat): Disk
    requires cut <= |d.file|
  {
    var torn := d.file[..cut];
    var kept := Recovered(torn);
    Disk(kept, if d.synced <= |kept| then d.synced else |kept|, NextAfter(Scan(torn), 0))
  }

  function Apply(d: Disk, op: DiskOp): Disk {
    match op
    case WriteOp(m) =>
      if Encode(m).Some?
      then d.(file := d.file + Frame(Encode(m).value, d.next), next := (d.next + 1) % TWO64) else d
    case SyncOp => d.(synced := |d.file|)
    case RestartOp(cut) => if d.synced <= cut <= |d.file| then Restart(d, cut) else d
  }

  function RunFrom(d: Disk, ops: seq<DiskOp>): Disk {
    if ops == [] then d else Apply(RunFrom(d, ops[..|ops| - 1]), ops[|ops| - 1])
  }

  function Run(ops: seq<DiskOp>): Disk {
    RunFrom(Disk([], 0, 0), ops)
  }

  /** An encoding, if there is one, whose length fits the frame. */
  predicate Fitting(m: Message) {
    Encode(m).Some? ==> |Encode(m).value| < TWO32
  }

  /** A message that a restart recovers from an intact file. */
  predicate Writable(m: Message) {
    m.payload != [] && Encode(m).Some? && |Encode(m).value| < TWO32
  }

  // ---------------------------------------------------------------- the same on plain logs

  /** The number of records known to be on disk. */
  function SyncedLength(d: Disk): nat
    requires d.synced <= |d.file|
  {
    |Scan(d.file[..d.synced])|
  }

  /** The file is intact with the length of its log as next offset, or an accepted empty
      payload has made it dead until the next restart. */
  ghost predicate Good(d: Disk) {
    && Numbered(Scan(d.file)) && |Scan(d.file)| <= d.next && d.synced <= |d.file|
    && (Dead(d.file) || (Intact(d.file) && d.next == |Scan(d.file)|))
  }

  /** A write of a message with a payload extends the log of an intact file, and any other
      write adds nothing; a sync covers the whole log; a restart keeps a prefix that includes
      everything synced. */
  ghost predicate LogStep(d: Disk, op: DiskOp, d': Disk)
    requires Good(d) && Good(d')
  {
    var log, log' := Log(d.file), Log(d'.file);
    match op
    case WriteOp(m) =>
      && log' == (if Encode(m).Some? && m.payload != [] && Intact(d.file) then log + [m] else log)
      && SyncedLength(d') == SyncedLength(d)
      && (Intact(d'.file) <==> Intact(d.file) && (Encode(m).Some? ==> m.payload != []))
      && d'.next == (if Encode(m).Some? then d.next + 1 else d.next)
    case SyncOp => log' == log && SyncedLength(d') == |log| && d'.file == d.file && d'.next == d.next
    case RestartOp(cut) =>
      && log' <= log && SyncedLength(d') == SyncedLength(d) <= |log'|
      && (d.synced <= cut <= |d.file| || Intact(d.file) ==> Intact(d'.file)) && d'.next <= d.next
  }

  /** The bytes: a write adds one frame at the end, or nothing when the message does not
      encode; a sync changes no byte; a crash at any unsynced byte leaves what recovery keeps. */
  lemma DiskOutcome(d: Disk, m: Message, cut: nat)
    ensures Apply(d, WriteOp(m)) ==
      (if Encode(m).None? then d
       else Disk(d.file + Frame(Encode(m).value, d.next), d.synced, (d.next + 1) % TWO64))
    ensures Apply(d, SyncOp) == Disk(d.file, |d.file|, d.next)
    ensures d.synced <= cut <= |d.file| ==>
      var torn, d' := d.file[..cut], Apply(d, RestartOp(cut));
      && d'.file == torn[..ValidLength(torn)] && d'.next == NextAfter(Scan(torn), 0)
      && d'.synced == (if d.synced <= ValidLength(torn) then d.synced else ValidLength(torn))
  {
    hide Codec.Encode, Frame, Scan, ValidLength, NextAfter;
  }

  // ---------------------------------------------------------------- proofs

  lemma WriteStep(d: Disk, m: Message)
    requires Good(d) && Fitting(m) && d.next + 1 < TWO64
    ensures Good(Apply(d, WriteOp(m))) && LogStep(d, WriteOp(m), Apply(d, WriteOp(m)))
  {
    hide Codec.Encode, SegmentLog.Scan, SegmentLog.ValidLength, SegmentLog.Frame, Log, Numbered, Dead, Intact;
    var d' := Apply(d, WriteOp(m));
    IntactNotDead(d.file);
    IntactNotDead(d'.file);
    assert d'.file[..d.synced] == d.file[..d.synced];
    if Encode(m).Some? {
      if Dead(d.file) {
        WriteDead(d.file, Frame(Encode(m).value, d.next));
      } else if m.payload == [] {
        WriteEmpty(d.file, m, d.next);
      } else {
        WriteIntact(d.file, m);
      }
    }
  }

  lemma SyncStep(d: Disk)
    requires Good(d)
    ensures Good(Apply(d, SyncOp)) && LogStep(d, SyncOp, Apply(d, SyncOp))
  {
    hide SegmentLog.Scan, SegmentLog.ValidLength, Log, Numbered, Dead, Intact;
    assert d.file[..|d.file|] == d.file;
    LogSize(d.file);
  }

  /** Cutting a file after its synced part keeps every record of that part. */
  lemma CutKeepsSynced(file: bytes, synced: nat, cut: nat)
    requires synced <= cut <= |file|
    ensures var kept := Recovered(file[..cut]);
      && Scan(kept[..if synced <= |kept| then synced else |kept|]) == Scan(file[..synced])
      && Scan(file[..synced]) <= Scan(file[..cut]) <= Scan(file)
  {
    hide SegmentLog.Scan, SegmentLog.ValidLength;
    var torn, kept := file[..cut], Recovered(file[..cut]);
    assert torn[..synced] == file[..synced];
    CutKeepsPrefix(file, cut);
    CutKeepsPrefix(torn, synced);
    if synced <= |kept| {
      assert kept[..synced] == file[..synced];
    } else {
      RecoverIdempotent(torn);
      assert kept[..|kept|] == kept;
    }
  }

  lemma RestartStep(d: Disk, cut: nat)
    requires Good(d)
    ensures Good(Apply(d, RestartOp(cut))) && LogStep(d, RestartOp(cut), Apply(d, RestartOp(cut)))
  {
    hide SegmentLog.Scan, SegmentLog.ValidLength, Recovered, NextAfter, Dead;
    SyncedFits(d);
    if d.synced <= cut <= |d.file| {
      var torn, d' := d.file[..cut], Apply(d, RestartOp(cut));
      CutKeepsSynced(d.file, d.synced, cut);
      RecoverIdempotent(torn);
      NumberedNext(Scan(torn));
      MessagesPrefix(Scan(torn), Scan(d.file));
      assert Log(d'.file) == Log(torn);
    }
  }

  lemma StepRefines(d: Disk, op: DiskOp)
    requires Good(d) && (op.WriteOp? ==> Fitting(op.m) && d.next + 1 < TWO64)
    ensures Good(Apply(d, op)) && LogStep(d, op, Apply(d, op))
  {
    hide Apply, Good, LogStep, Fitting;
    match op
    case WriteOp(m) => WriteStep(d, m);
    case SyncOp => SyncStep(d);
    case RestartOp(cut) => RestartStep(d, cut);
  }

  /** Over any run of writes, syncs and crashes: the file holds the consecutively numbered
      records of the log, and, unless an empty payload was written since the last restart, is
      intact with the length of the log as next offset. */
  lemma {:induction false} RunGood(ops: seq<DiskOp>)
    requires |ops| < TWO64 && forall i :: 0 <= i < |ops| && ops[i].WriteOp? ==> Fitting(ops[i].m)
    ensures Good(Run(ops)) && Run(ops).next <= |ops|
  {
    if ops == [] {
      EmptyFile();
    } else {
      var d, op := Run(ops[..|ops| - 1]), ops[|ops| - 1];
      RunGood(ops[..|ops| - 1]);
      hide RunFrom, Apply, Good, Log, SyncedLength, Intact;
      StepRefines(d, op);
      assert Run(ops) == Apply(d, op) by { Last(Disk([], 0, 0), ops); }
    }
  }

  lemma Last(d: Disk, ops: seq<DiskOp>)
    requires ops != []
    ensures RunFrom(d, ops) == Apply(RunFrom(d, ops[..|ops| - 1]), ops[|ops| - 1])
  {
    hide Apply;
  }

  /** A record that was on disk after a sync is at its offset after any further writes, syncs
      and crashes. */
  lemma {:induction false} SyncedForever(d: Disk, ops: seq<DiskOp>, k: nat)
    requires Good(d) && d.next + |ops| < TWO64 && k < SyncedLength(d)
    requires forall i :: 0 <= i < |ops| && ops[i].WriteOp? ==> Fitting(ops[i].m)
    ensures var d' := RunFrom(d, ops);
      && Good(d') && d'.next <= d.next + |ops|
      && k < SyncedLength(d') && SyncedLength(d') <= |Log(d'.file)| && k < |Log(d.file)|
      && Log(d'.file)[k] == Log(d.file)[k]
  {
    if ops == [] {
      SyncedFits(d);
    } else {
      var before, op := RunFrom(d, ops[..|ops| - 1]), ops[|ops| - 1];
      SyncedForever(d, ops[..|ops| - 1], k);
      Last(d, ops);
      hide RunFrom, Apply, Good, Log, SyncedLength, Intact;
      StepRefines(before, op);
      SyncedFits(Apply(before, op));
    }
  }

  lemma SyncedFits(d: Disk)
    requires Good(d)
    ensures SyncedLength(d) <= |Log(d.file)|
  {
    hide SegmentLog.Scan, SegmentLog.ValidLength, Dead;
    CutKeepsPrefix(d.file, d.synced);
  }
}
