/** Replicated publishing on files. Every node has a partition file; records are frames in
    it, offsets come from the recovered or counted next offset, and a crash cuts the file at
    any byte that is not synced. The machine refines `CrashReplication`, whose logs the files
    stand for. */
module DurableReplication {
  import opened Bytes
  import opened Codec
  import opened SegmentLog
  import opened StoreModel
  import P = PublishProtocol
  import R = CrashReplication
  import D = DurableLog

  /** `returned` are the offsets that the leader's appends have returned to publishes of the
      running process, `confirmed` those of the publishes whose client was told of success. */
  datatype State = State(leader: D.Disk, followers: seq<D.Disk>, attempts: seq<P.Attempt>,
                         returned: map<nat, nat>, confirmed: map<nat, nat>)

  datatype Step =
    | Begin(message: Message)
    | Deliver(attempt: nat, follower: nat)
    | Lose(attempt: nat, follower: nat)
    | Reply(attempt: nat, follower: nat)
    | LeaderAppend(attempt: nat)
    | GiveUp(attempt: nat)
    | SyncLeader
    | SyncFollower(follower: nat)
    | Confirm(attempt: nat)
    | CrashLeader(cut: nat)
    | CrashFollower(follower: nat, cut: nat)

  const EmptyDisk: D.Disk := D.Disk([], 0, 0)

  function Init(c: P.Config): State {
    State(EmptyDisk, seq(c.followers, i => EmptyDisk), [], map[], map[])
  }

  predicate Active(s: State, a: int) {
    0 <= a < |s.attempts| && s.attempts[a].phase == P.Replicating
  }

  predicate UnderWay(s: State, a: int, f: nat) {
    0 <= a < |s.attempts| && f !in s.attempts[a].settled
  }

  function Synced(d: D.Disk): nat {
    if d.synced <= |d.file| then D.SyncedLength(d) else 0
  }

  function With(s: State, a: nat, t: P.Attempt): State
    requires a < |s.attempts|
  {
    s.(attempts := s.attempts[a := t])
  }

  /** The follower accepts the record exactly at its next offset. */
  function DeliverStep(s: State, a: nat, f: nat): State
    requires UnderWay(s, a, f) && f < |s.followers|
  {
    var t := s.attempts[a];
    if t.offset == s.followers[f].next then
      With(s, a, t.(settled := t.settled + {f}, stored := t.stored + {f}))
        .(followers := s.followers[f := D.Apply(s.followers[f], D.WriteOp(t.message))])
    else With(s, a, t.(settled := t.settled + {f}))
  }

  /** The restarted process has no publish under way. */
  function Ended(attempts: seq<P.Attempt>): seq<P.Attempt> {
    seq(|attempts|, a requires 0 <= a < |attempts| =>
      if attempts[a].phase == P.Replicating then attempts[a].(phase := P.Failed) else attempts[a])
  }

  /** The restarted follower answers no request of the process before. */
  function Unanswered(attempts: seq<P.Attempt>, f: nat): seq<P.Attempt> {
    seq(|attempts|, a requires 0 <= a < |attempts| => attempts[a].(stored := attempts[a].stored - {f}))
  }

  predicate Enabled(c: P.Config, s: State, step: Step) {
    match step
    case Begin(_) => true
    case Deliver(a, f) => P.FansOut(c) && UnderWay(s, a, f) && f < |s.followers|
    case Lose(a, f) => UnderWay(s, a, f)
    case Reply(a, f) =>
      Active(s, a) && f < |s.followers| && f in s.attempts[a].stored && s.attempts[a].offset < Synced(s.followers[f])
    case LeaderAppend(a) => Active(s, a) && P.QuorumMet(c, s.attempts[a])
    case GiveUp(a) => Active(s, a)
    case SyncLeader => true
    case SyncFollower(f) => f < |s.followers|
    case Confirm(a) => a in s.returned && s.returned[a] < Synced(s.leader)
    case CrashLeader(cut) => s.leader.synced <= cut <= |s.leader.file|
    case CrashFollower(f, cut) => f < |s.followers| && s.followers[f].synced <= cut <= |s.followers[f].file|
  }

  /** One enabled step. */
  function Act(c: P.Config, s: State, step: Step): State
    requires Enabled(c, s, step)
  {
    match step
    case Begin(m) => s.(attempts := s.attempts + [P.Fresh(m, s.leader.next)])
    case Deliver(a, f) => DeliverStep(s, a, f)
    case Lose(a, f) => With(s, a, s.attempts[a].(settled := s.attempts[a].settled + {f}))
    case Reply(a, f) => With(s, a, s.attempts[a].(acks := s.attempts[a].acks + {f}))
    case LeaderAppend(a) =>
      With(s, a, s.attempts[a].(phase := P.Appended))
        .(leader := D.Apply(s.leader, D.WriteOp(s.attempts[a].message)),
          returned := s.returned[a := s.leader.next])
    case GiveUp(a) => With(s, a, s.attempts[a].(phase := P.Failed))
    case SyncLeader => s.(leader := D.Apply(s.leader, D.SyncOp))
    case SyncFollower(f) => s.(followers := s.followers[f := D.Apply(s.followers[f], D.SyncOp)])
    case Confirm(a) => s.(confirmed := s.confirmed[a := s.returned[a]])
    case CrashLeader(cut) =>
      s.(leader := D.Apply(s.leader, D.RestartOp(cut)), attempts := Ended(s.attempts), returned := map[])
    case CrashFollower(f, cut) =>
      s.(followers := s.followers[f := D.Apply(s.followers[f], D.RestartOp(cut))],
         attempts := Unanswered(s.attempts, f))
  }

  /** A step that is not enabled changes nothing. */
  function Apply(c: P.Config, s: State, step: Step): State {
    if Enabled(c, s, step) then Act(c, s, step) else s
  }

  function RunFrom(c: P.Config, s: State, steps: seq<Step>): State {
    if steps == [] then s else Apply(c, RunFrom(c, s, steps[..|steps| - 1]), steps[|steps| - 1])
  }

  function Run(c: P.Config, steps: seq<Step>): State {
    RunFrom(c, Init(c), steps)
  }

  ghost predicate Idle(s: State) {
    forall a :: 0 <= a < |s.attempts| ==> s.attempts[a].phase != P.Replicating
  }

  ghost predicate Serial(c: P.Config, steps: seq<Step>) {
    forall i :: 0 <= i < |steps| && steps[i].Begin? ==> Idle(Run(c, steps[..i]))
  }

  /** Published messages have a payload and fit a frame. */
  ghost predicate AllWritable(steps: seq<Step>) {
    forall i :: 0 <= i < |steps| && steps[i].Begin? ==> D.Writable(steps[i].message)
  }

  // ---------------------------------------------------------------- what is claimed

  /** The followers whose file has `m` at offset `k`, and synced. */
  ghost function FileHolders(s: State, k: nat, m: Message): set<nat> {
    set f | 0 <= f < |s.followers| && k < Synced(s.followers[f]) &&
            k < |Log(s.followers[f].file)| && Log(s.followers[f].file)[k] == m
  }

  /** The record of the confirmed attempt `a` is synced in the leader's file, at the offset
      its append returned. */
  ghost predicate OnDisk(s: State, a: nat)
    requires a in s.confirmed
  {
    && a < |s.attempts| && s.confirmed[a] < Synced(s.leader) && s.confirmed[a] < |Log(s.leader.file)|
    && Log(s.leader.file)[s.confirmed[a]] == s.attempts[a].message
  }

  /** Every record in the leader's file is synced in enough follower files at its offset, and
      confirmed publishes are where they were replicated. */
  ghost predicate Durable(c: P.Config, s: State) {
    && (forall k :: 0 <= k < |Log(s.leader.file)| ==> |FileHolders(s, k, Log(s.leader.file)[k])| >= c.required)
    && (forall a :: a in s.confirmed ==> OnDisk(s, a) && s.confirmed[a] == s.attempts[a].offset)
  }

  // ---------------------------------------------------------------- the refinement

  /** The file stands for the log. */
  ghost predicate NodeRel(d: D.Disk, log: seq<P.Entry>, synced: nat, bound: nat) {
    && D.Good(d) && Intact(d.file) && D.SyncedLength(d) == synced && d.next == |log| <= bound
    && |Log(d.file)| == |log|
    && (forall k :: 0 <= k < |log| ==> Log(d.file)[k] == log[k].message)
  }

  ghost predicate AttemptRel(t: P.Attempt, u: P.Attempt) {
    && D.Writable(t.message)
    && t.message == u.message && t.offset == u.offset && t.settled == u.settled && t.acks == u.acks
    && t.stored <= u.stored && (t.phase == P.Replicating <==> u.phase == P.Replicating)
  }

  ghost predicate AttemptsRel(ts: seq<P.Attempt>, us: seq<P.Attempt>) {
    |ts| == |us| && forall a :: 0 <= a < |ts| ==> AttemptRel(ts[a], us[a])
  }

  ghost predicate Rel(s: State, t: R.State, bound: nat) {
    && NodeRel(s.leader, t.protocol.leader, t.leaderSynced, bound)
    && |s.followers| == |t.protocol.followers| == |t.synced|
    && (forall f :: 0 <= f < |s.followers| ==>
          NodeRel(s.followers[f], t.protocol.followers[f], t.synced[f], bound))
    && AttemptsRel(s.attempts, t.protocol.attempts)
    && (forall a :: a in s.returned ==>
          s.returned[a] < |t.protocol.leader| && t.protocol.leader[s.returned[a]].attempt == a)
    && s.confirmed == t.confirmed
  }

  /** The step on logs that an enabled step on files amounts to. A cut of a file keeps the
      records that are whole. */
  function Abstract(c: P.Config, s: State, step: Step): R.Step
    requires Enabled(c, s, step)
  {
    match step
    case Begin(m) => R.Protocol(P.Begin(m))
    case Deliver(a, f) => R.Protocol(P.Deliver(a, f))
    case Lose(a, f) => R.Protocol(P.Lose(a, f))
    case Reply(a, f) => R.Protocol(P.Reply(a, f))
    case LeaderAppend(a) => R.Protocol(P.LeaderAppend(a))
    case GiveUp(a) => R.Protocol(P.GiveUp(a))
    case SyncLeader => R.SyncLeader
    case SyncFollower(f) => R.SyncFollower(f)
    case Confirm(a) => R.Confirm(a, s.returned[a])
    case CrashLeader(cut) => R.CrashLeader(|Log(D.Apply(s.leader, D.RestartOp(cut)).file)|)
    case CrashFollower(f, cut) => R.CrashFollower(f, |Log(D.Apply(s.followers[f], D.RestartOp(cut)).file)|)
  }

  /** The run on logs; a step that is not enabled becomes one that is not enabled. */
  function AbstractRun(c: P.Config, steps: seq<Step>): seq<R.Step> {
    if steps == [] then []
    else
      var before, step := steps[..|steps| - 1], steps[|steps| - 1];
      var s := Run(c, before);
      AbstractRun(c, before) +
      [if Enabled(c, s, step) then Abstract(c, s, step) else R.Protocol(P.GiveUp(|s.attempts|))]
  }

  // ---------------------------------------------------------------- one node

  lemma NodeWrite(d: D.Disk, log: seq<P.Entry>, synced: nat, bound: nat, e: P.Entry)
    requires NodeRel(d, log, synced, bound) && D.Writable(e.message) && bound + 1 < TWO64
    ensures NodeRel(D.Apply(d, D.WriteOp(e.message)), log + [e], synced, bound + 1)
  {
    var m := e.message;
    assert m.payload != [] && Encode(m).Some? && D.Fitting(m);
    hide D.Apply, D.Good, D.Writable, D.Fitting, Encode, Log, D.SyncedLength, Intact;
    var d' := D.Apply(d, D.WriteOp(m));
    NodeNext(d);
    D.StepRefines(d, D.WriteOp(m));
    NodeNext(d');
  }

  lemma NodeNext(d: D.Disk)
    requires D.Good(d) && Intact(d.file)
    ensures d.next == |Log(d.file)|
  {
    hide SegmentLog.Scan, SegmentLog.ValidLength, Log, Dead, Intact;
    IntactNotDead(d.file);
    LogSize(d.file);
  }

  lemma NodeSync(d: D.Disk, log: seq<P.Entry>, synced: nat, bound: nat)
    requires NodeRel(d, log, synced, bound)
    ensures NodeRel(D.Apply(d, D.SyncOp), log, |log|, bound)
  {
    hide D.Apply, D.Good, Log, D.SyncedLength, Intact;
    D.StepRefines(d, D.SyncOp);
    NodeNext(D.Apply(d, D.SyncOp));
  }

  lemma NodeRestart(d: D.Disk, log: seq<P.Entry>, synced: nat, bound: nat, cut: nat)
    requires NodeRel(d, log, synced, bound)
    ensures var d' := D.Apply(d, D.RestartOp(cut)); var keep := |Log(d'.file)|;
      synced <= keep <= |log| && NodeRel(d', log[..keep], synced, bound)
  {
    hide D.Apply, D.Good, Log, D.SyncedLength, Intact;
    D.StepRefines(d, D.RestartOp(cut));
    NodeNext(D.Apply(d, D.RestartOp(cut)));
  }

  lemma NodeBound(d: D.Disk, log: seq<P.Entry>, synced: nat, bound: nat)
    requires NodeRel(d, log, synced, bound)
    ensures NodeRel(d, log, synced, bound + 1)
  {
  }

  // ---------------------------------------------------------------- one step

  /** Steps that change attempts only. */
  lemma AttemptsChange(s: State, t: R.State, attempts: seq<P.Attempt>, attempts': seq<P.Attempt>, bound: nat)
    requires Rel(s, t, bound) && AttemptsRel(attempts, attempts')
    ensures Rel(s.(attempts := attempts), t.(protocol := t.protocol.(attempts := attempts')), bound + 1)
  {
    hide NodeRel, AttemptRel;
    NodeBound(s.leader, t.protocol.leader, t.leaderSynced, bound);
    forall f | 0 <= f < |s.followers|
      ensures NodeRel(s.followers[f], t.protocol.followers[f], t.synced[f], bound + 1)
    {
      NodeBound(s.followers[f], t.protocol.followers[f], t.synced[f], bound);
    }
  }

  lemma RelBound(s: State, t: R.State, bound: nat)
    requires Rel(s, t, bound)
    ensures Rel(s, t, bound + 1)
  {
    AttemptsChange(s, t, s.attempts, t.protocol.attempts, bound);
  }

  /** Steps that change one follower and attempts. */
  lemma FollowerChange(s: State, t: R.State, f: nat, d: D.Disk, log: seq<P.Entry>, synced: nat,
                       attempts: seq<P.Attempt>, attempts': seq<P.Attempt>, bound: nat)
    requires Rel(s, t, bound) && f < |s.followers| && NodeRel(d, log, synced, bound + 1)
    requires AttemptsRel(attempts, attempts')
    ensures Rel(s.(followers := s.followers[f := d], attempts := attempts),
                t.(protocol := t.protocol.(followers := t.protocol.followers[f := log], attempts := attempts'),
                   synced := t.synced[f := synced]), bound + 1)
  {
    hide NodeRel, AttemptRel;
    AttemptsChange(s, t, attempts, attempts', bound);
  }

  /** Attempt `a` changes in the same way on both sides. */
  lemma AttemptChanges(s: State, t: R.State, a: nat, x: P.Attempt, y: P.Attempt, bound: nat)
    requires Rel(s, t, bound) && a < |s.attempts| && AttemptRel(x, y)
    ensures |s.attempts| == |t.protocol.attempts|
    ensures AttemptsRel(s.attempts[a := x], t.protocol.attempts[a := y])
  {
    hide NodeRel, AttemptRel;
  }

  lemma RelAt(s: State, t: R.State, a: nat, bound: nat)
    requires Rel(s, t, bound) && a < |s.attempts|
    ensures |s.attempts| == |t.protocol.attempts| && AttemptRel(s.attempts[a], t.protocol.attempts[a])
  {
    hide NodeRel, AttemptRel;
  }

  lemma RelFollower(s: State, t: R.State, f: nat, bound: nat)
    requires Rel(s, t, bound) && f < |s.followers|
    ensures |s.followers| == |t.protocol.followers| == |t.synced|
    ensures NodeRel(s.followers[f], t.protocol.followers[f], t.synced[f], bound)
    ensures s.followers[f].next == |t.protocol.followers[f]| && Synced(s.followers[f]) == t.synced[f]
  {
    hide AttemptRel, NodeRel;
    NodeLength(s.followers[f], t.protocol.followers[f], t.synced[f], bound);
  }

  lemma RelLeader(s: State, t: R.State, bound: nat)
    requires Rel(s, t, bound)
    ensures NodeRel(s.leader, t.protocol.leader, t.leaderSynced, bound)
    ensures s.leader.next == |t.protocol.leader|
    ensures Synced(s.leader) == t.leaderSynced <= |t.protocol.leader|
  {
    hide AttemptRel, NodeRel;
    NodeLength(s.leader, t.protocol.leader, t.leaderSynced, bound);
  }

  lemma RelDeliver(c: P.Config, s: State, t: R.State, a: nat, f: nat, bound: nat)
    requires Rel(s, t, bound) && bound + 1 < TWO64 && P.FansOut(c) && UnderWay(s, a, f) && f < |s.followers|
    ensures Rel(DeliverStep(s, a, f), R.Apply(c, t, R.Protocol(P.Deliver(a, f))), bound + 1)
  {
    hide D.Apply, D.Writable, NodeRel, Rel, Synced;
    var s', t' := DeliverStep(s, a, f), R.Apply(c, t, R.Protocol(P.Deliver(a, f)));
    RelAt(s, t, a, bound);
    RelFollower(s, t, f, bound);
    var e := P.Entry(a, s.attempts[a].message);
    var d, log := s.followers[f], t.protocol.followers[f];
    AttemptChanges(s, t, a, s'.attempts[a], t'.protocol.attempts[a], bound);
    if s.attempts[a].offset == d.next {
      NodeWrite(d, log, t.synced[f], bound, e);
      FollowerChange(s, t, f, D.Apply(d, D.WriteOp(e.message)), log + [e], t.synced[f],
                     s'.attempts, t'.protocol.attempts, bound);
      assert t.synced[f := t.synced[f]] == t.synced;
    } else {
      AttemptsChange(s, t, s'.attempts, t'.protocol.attempts, bound);
      assert t'.protocol.followers == t.protocol.followers;
    }
  }

  /** Steps that change the leader and attempts. */
  lemma LeaderChange(s: State, t: R.State, d: D.Disk, log: seq<P.Entry>, attempts: seq<P.Attempt>,
                     attempts': seq<P.Attempt>, returned: map<nat, nat>, bound: nat)
    requires Rel(s, t, bound) && NodeRel(d, log, t.leaderSynced, bound + 1)
    requires AttemptsRel(attempts, attempts')
    requires forall a :: a in returned ==> returned[a] < |log| && log[returned[a]].attempt == a
    ensures Rel(s.(leader := d, attempts := attempts, returned := returned),
                t.(protocol := t.protocol.(leader := log, attempts := attempts')), bound + 1)
  {
    hide NodeRel, AttemptRel;
    AttemptsChange(s, t, attempts, attempts', bound);
  }

  lemma RelReturned(s: State, t: R.State, a: nat, bound: nat)
    requires Rel(s, t, bound) && a in s.returned
    ensures s.returned[a] < |t.protocol.leader| && t.protocol.leader[s.returned[a]].attempt == a
  {
    hide NodeRel, AttemptRel;
  }

  lemma RelAppend(c: P.Config, s: State, t: R.State, a: nat, bound: nat)
    requires Rel(s, t, bound) && bound + 1 < TWO64 && Enabled(c, s, LeaderAppend(a))
    ensures Rel(Act(c, s, LeaderAppend(a)), R.Apply(c, t, R.Protocol(P.LeaderAppend(a))), bound + 1)
  {
    hide D.Apply, D.Writable, NodeRel, Rel, Synced;
    var s', t' := Act(c, s, LeaderAppend(a)), R.Apply(c, t, R.Protocol(P.LeaderAppend(a)));
    RelAt(s, t, a, bound);
    RelLeader(s, t, bound);
    var e := P.Entry(a, s.attempts[a].message);
    AttemptChanges(s, t, a, s'.attempts[a], t'.protocol.attempts[a], bound);
    NodeWrite(s.leader, t.protocol.leader, t.leaderSynced, bound, e);
    forall b | b in s'.returned
      ensures s'.returned[b] < |t'.protocol.leader| && t'.protocol.leader[s'.returned[b]].attempt == b
    {
      if b != a { RelReturned(s, t, b, bound); }
    }
    LeaderChange(s, t, s'.leader, t'.protocol.leader, s'.attempts, t'.protocol.attempts, s'.returned, bound);
  }

  lemma EndedAlike(s: State, t: R.State, keep: nat, bound: nat)
    requires Rel(s, t, bound) && keep <= |t.protocol.leader|
    ensures AttemptsRel(Ended(s.attempts), R.CutLeader(t.protocol, keep).attempts)
  {
    hide Rel, D.Writable;
    SizesAlike(s, t, bound);
    forall a | 0 <= a < |s.attempts|
      ensures AttemptRel(Ended(s.attempts)[a], R.CutLeader(t.protocol, keep).attempts[a])
    {
      RelAt(s, t, a, bound);
    }
  }

  lemma SizesAlike(s: State, t: R.State, bound: nat)
    requires Rel(s, t, bound)
    ensures |s.attempts| == |t.protocol.attempts|
  {
    hide NodeRel, AttemptRel;
  }

  lemma RelCrashLeader(c: P.Config, s: State, t: R.State, cut: nat, bound: nat)
    requires Rel(s, t, bound) && Enabled(c, s, CrashLeader(cut))
    ensures Rel(Act(c, s, CrashLeader(cut)), R.Apply(c, t, Abstract(c, s, CrashLeader(cut))), bound + 1)
  {
    hide D.Apply, Log, NodeRel, AttemptsRel, Rel, Synced, Ended;
    var d := D.Apply(s.leader, D.RestartOp(cut));
    var keep := |Log(d.file)|;
    RelLeader(s, t, bound);
    NodeRestart(s.leader, t.protocol.leader, t.leaderSynced, bound, cut);
    NodeBound(d, t.protocol.leader[..keep], t.leaderSynced, bound);
    EndedAlike(s, t, keep, bound);
    LeaderChange(s, t, d, t.protocol.leader[..keep], Ended(s.attempts),
                 R.CutLeader(t.protocol, keep).attempts, map[], bound);
  }

  lemma UnansweredAlike(s: State, t: R.State, f: nat, keep: nat, bound: nat)
    requires Rel(s, t, bound) && f < |t.protocol.followers| && keep <= |t.protocol.followers[f]|
    ensures AttemptsRel(Unanswered(s.attempts, f), R.CutFollower(t.protocol, f, keep).attempts)
  {
    hide Rel, D.Writable;
    SizesAlike(s, t, bound);
    forall a | 0 <= a < |s.attempts|
      ensures AttemptRel(Unanswered(s.attempts, f)[a], R.CutFollower(t.protocol, f, keep).attempts[a])
    {
      RelAt(s, t, a, bound);
    }
  }

  lemma RelCrashFollower(c: P.Config, s: State, t: R.State, f: nat, cut: nat, bound: nat)
    requires Rel(s, t, bound) && Enabled(c, s, CrashFollower(f, cut))
    ensures Rel(Act(c, s, CrashFollower(f, cut)), R.Apply(c, t, Abstract(c, s, CrashFollower(f, cut))), bound + 1)
  {
    hide D.Apply, Log, NodeRel, AttemptsRel, Rel, Synced, Unanswered;
    RelFollower(s, t, f, bound);
    var d := D.Apply(s.followers[f], D.RestartOp(cut));
    var keep, log := |Log(d.file)|, t.protocol.followers[f];
    NodeRestart(s.followers[f], log, t.synced[f], bound, cut);
    NodeBound(d, log[..keep], t.synced[f], bound);
    UnansweredAlike(s, t, f, keep, bound);
    FollowerChange(s, t, f, d, log[..keep], t.synced[f],
                   Unanswered(s.attempts, f), R.CutFollower(t.protocol, f, keep).attempts, bound);
    assert t.synced[f := t.synced[f]] == t.synced;
  }

  lemma RelSync(c: P.Config, s: State, t: R.State, step: Step, bound: nat)
    requires Rel(s, t, bound) && (step.SyncLeader? || step.SyncFollower?) && Enabled(c, s, step)
    ensures Rel(Act(c, s, step), R.Apply(c, t, Abstract(c, s, step)), bound + 1)
  {
    hide D.Apply, D.Good, D.Writable, Log, D.SyncedLength, NodeRel;
    RelBound(s, t, bound);
    match step
    case SyncLeader => NodeSync(s.leader, t.protocol.leader, t.leaderSynced, bound + 1);
    case SyncFollower(f) =>
      NodeSync(s.followers[f], t.protocol.followers[f], t.synced[f], bound + 1);
      var s', t' := Act(c, s, step), R.Apply(c, t, Abstract(c, s, step));
      FollowerChange(s, t, f, s'.followers[f], t.protocol.followers[f], |t.protocol.followers[f]|,
                     s.attempts, t.protocol.attempts, bound);
      assert t.protocol.followers[f := t.protocol.followers[f]] == t.protocol.followers;
    case _ =>
  }

  lemma RelBegin(c: P.Config, s: State, t: R.State, m: Message, bound: nat)
    requires Rel(s, t, bound) && D.Writable(m)
    ensures Rel(Act(c, s, Begin(m)), R.Apply(c, t, R.Protocol(P.Begin(m))), bound + 1)
  {
    hide D.Writable, NodeRel, Rel, Synced;
    var s', t' := Act(c, s, Begin(m)), R.Apply(c, t, R.Protocol(P.Begin(m)));
    RelLeader(s, t, bound);
    SizesAlike(s, t, bound);
    forall a | 0 <= a < |s'.attempts|
      ensures AttemptRel(s'.attempts[a], t'.protocol.attempts[a])
    {
      if a < |s.attempts| { RelAt(s, t, a, bound); }
    }
    AttemptsChange(s, t, s'.attempts, t'.protocol.attempts, bound);
  }

  /** Lost requests, replies and publishes that give up. */
  lemma RelAttempts(c: P.Config, s: State, t: R.State, step: Step, bound: nat)
    requires Rel(s, t, bound) && Enabled(c, s, step)
    requires step.Lose? || step.Reply? || step.GiveUp?
    ensures Rel(Act(c, s, step), R.Apply(c, t, Abstract(c, s, step)), bound + 1)
  {
    hide D.Writable, NodeRel, Rel, Synced;
    var s', t' := Act(c, s, step), R.Apply(c, t, Abstract(c, s, step));
    RelAt(s, t, step.attempt, bound);
    if step.Reply? { RelFollower(s, t, step.follower, bound); }
    AttemptChanges(s, t, step.attempt, s'.attempts[step.attempt], t'.protocol.attempts[step.attempt], bound);
    AttemptsChange(s, t, s'.attempts, t'.protocol.attempts, bound);
  }

  lemma NodeLength(d: D.Disk, log: seq<P.Entry>, synced: nat, bound: nat)
    requires NodeRel(d, log, synced, bound)
    ensures d.next == |log| && Synced(d) == synced <= |log| && |Log(d.file)| == |log|
  {
    hide SegmentLog.Scan, SegmentLog.ValidLength, Log;
    D.SyncedFits(d);
  }

  lemma RelConfirm(c: P.Config, s: State, t: R.State, a: nat, bound: nat)
    requires a in s.returned && Enabled(c, s, Confirm(a)) && Rel(s, t, bound)
    ensures Rel(Act(c, s, Confirm(a)), R.Apply(c, t, R.Confirm(a, s.returned[a])), bound + 1)
  {
    hide NodeRel, AttemptRel, Synced;
    RelLeader(s, t, bound);
    RelReturned(s, t, a, bound);
    RelBound(s, t, bound);
  }

  lemma RelStep(c: P.Config, s: State, t: R.State, step: Step, bound: nat)
    requires Rel(s, t, bound) && bound + 1 < TWO64 && Enabled(c, s, step)
    requires step.Begin? ==> D.Writable(step.message)
    ensures Rel(Act(c, s, step), R.Apply(c, t, Abstract(c, s, step)), bound + 1)
  {
    hide Rel, R.Apply, D.Writable;
    match step
    case Deliver(a, f) => RelDeliver(c, s, t, a, f, bound);
    case LeaderAppend(a) => RelAppend(c, s, t, a, bound);
    case CrashLeader(cut) => RelCrashLeader(c, s, t, cut, bound);
    case CrashFollower(f, cut) => RelCrashFollower(c, s, t, f, cut, bound);
    case Confirm(a) => RelConfirm(c, s, t, a, bound);
    case SyncLeader => RelSync(c, s, t, step, bound);
    case SyncFollower(f) => RelSync(c, s, t, step, bound);
    case Begin(m) => RelBegin(c, s, t, m, bound);
    case _ => RelAttempts(c, s, t, step, bound);
  }

  // ---------------------------------------------------------------- whole runs

  lemma RelInit(c: P.Config)
    ensures Rel(Init(c), R.Init(c), 0)
  {
    D.RunGood([]);
    assert D.Run([]) == EmptyDisk;
    EmptyFile();
    assert NodeRel(EmptyDisk, [], 0, 0);
  }

  /** Every run on files stands for a run on logs. */
  lemma {:induction false} RunRefines(c: P.Config, steps: seq<Step>)
    requires AllWritable(steps) && |steps| + 1 < TWO64
    ensures Rel(Run(c, steps), R.Run(c, AbstractRun(c, steps)), |steps|)
    ensures |AbstractRun(c, steps)| == |steps|
  {
    hide Rel, Act, R.Apply, Abstract, Enabled;
    if steps == [] {
      RelInit(c);
    } else {
      var before, step := steps[..|steps| - 1], steps[|steps| - 1];
      RunRefines(c, before);
      var s, u := Run(c, before), AbstractRun(c, before);
      var all := AbstractRun(c, steps);
      assert all[..|all| - 1] == u;
      if Enabled(c, s, step) {
        RelStep(c, s, R.Run(c, u), step, |before|);
      } else {
        RelBound(s, R.Run(c, u), |before|);
        GivesUpNothing(c, s, R.Run(c, u), |before|);
      }
    }
  }

  lemma GivesUpNothing(c: P.Config, s: State, t: R.State, bound: nat)
    requires Rel(s, t, bound)
    ensures R.Apply(c, t, R.Protocol(P.GiveUp(|s.attempts|))) == t
  {
    hide NodeRel, AttemptRel;
  }

  lemma {:induction false} AbstractPrefix(c: P.Config, steps: seq<Step>, i: nat)
    requires i <= |steps|
    ensures |AbstractRun(c, steps)| == |steps| && AbstractRun(c, steps)[..i] == AbstractRun(c, steps[..i])
  {
    hide Abstract, Enabled;
    if i == |steps| {
      assert steps[..i] == steps;
      if steps != [] { AbstractPrefix(c, steps[..|steps| - 1], i - 1); }
    } else {
      AbstractPrefix(c, steps[..|steps| - 1], i);
      assert steps[..|steps| - 1][..i] == steps[..i];
    }
  }

  /** Serialised publishes stay serialised. */
  lemma AbstractSerial(c: P.Config, steps: seq<Step>)
    requires AllWritable(steps) && |steps| + 1 < TWO64 && Serial(c, steps)
    ensures R.Serial(c, AbstractRun(c, steps))
  {
    var all := AbstractRun(c, steps);
    AbstractPrefix(c, steps, |steps|);
    forall i | 0 <= i < |all| && all[i].Protocol? && all[i].step.Begin?
      ensures P.Idle(R.Run(c, all[..i]).protocol)
    {
      AbstractPrefix(c, steps, i);
      AbstractPrefix(c, steps, i + 1);
      AbstractBegin(c, steps, i);
      RunRefines(c, steps[..i]);
      IdleAlike(Run(c, steps[..i]), R.Run(c, all[..i]), i);
    }
  }

  lemma AbstractBegin(c: P.Config, steps: seq<Step>, i: nat)
    requires i < |steps| && |AbstractRun(c, steps)| == |steps|
    requires AbstractRun(c, steps)[..i + 1] == AbstractRun(c, steps[..i + 1])
    requires AbstractRun(c, steps)[i].Protocol? && AbstractRun(c, steps)[i].step.Begin?
    ensures steps[i].Begin?
  {
    var front := steps[..i + 1];
    assert front[..|front| - 1] == steps[..i];
    assert AbstractRun(c, steps)[..i + 1][i] == AbstractRun(c, steps)[i];
    AbstractPrefix(c, front, i);
  }

  lemma IdleAlike(s: State, t: R.State, bound: nat)
    requires Rel(s, t, bound) && Idle(s)
    ensures P.Idle(t.protocol)
  {
    hide NodeRel;
    forall a | 0 <= a < |t.protocol.attempts|
      ensures t.protocol.attempts[a].phase != P.Replicating
    {
      assert AttemptRel(s.attempts[a], t.protocol.attempts[a]);
    }
  }

  lemma DurableFiles(c: P.Config, s: State, t: R.State, bound: nat)
    requires Rel(s, t, bound) && R.Durable(c, t)
    ensures Durable(c, s)
  {
    NodeLength(s.leader, t.protocol.leader, t.leaderSynced, bound);
    forall k | 0 <= k < |Log(s.leader.file)|
      ensures |FileHolders(s, k, Log(s.leader.file)[k])| >= c.required
    {
      forall f | f in R.SafeHolders(t, k)
        ensures f in FileHolders(s, k, Log(s.leader.file)[k])
      {
        assert NodeRel(s.followers[f], t.protocol.followers[f], t.synced[f], bound);
        NodeLength(s.followers[f], t.protocol.followers[f], t.synced[f], bound);
      }
      P.Subset(R.SafeHolders(t, k), FileHolders(s, k, Log(s.leader.file)[k]));
    }
    forall a | a in s.confirmed
      ensures OnDisk(s, a) && s.confirmed[a] == s.attempts[a].offset
    {
      assert R.OnDisk(t, a) && s.confirmed[a] == t.protocol.attempts[a].offset;
      OnDiskFile(s, t, a, bound);
      assert AttemptRel(s.attempts[a], t.protocol.attempts[a]);
    }
  }

  lemma OnDiskFile(s: State, t: R.State, a: nat, bound: nat)
    requires Rel(s, t, bound) && a in t.confirmed && R.OnDisk(t, a)
    ensures a in s.confirmed && OnDisk(s, a)
  {
    NodeLength(s.leader, t.protocol.leader, t.leaderSynced, bound);
    assert AttemptRel(s.attempts[a], t.protocol.attempts[a]);
  }

  /** Over every run on files, for every quorum and every interleaving, with any number of
      crashes of any node that cut a file at any byte not yet synced: a publish that was
      confirmed to its client is in the synced part of the leader's file, at the offset its
      append returned. */
  lemma ConfirmedSurvives(c: P.Config, steps: seq<Step>, a: nat)
    requires AllWritable(steps) && |steps| + 1 < TWO64 && a in Run(c, steps).confirmed
    ensures OnDisk(Run(c, steps), a)
  {
    RunRefines(c, steps);
    var s, t := Run(c, steps), R.Run(c, AbstractRun(c, steps));
    ConfirmedAlike(s, t, |steps|);
    hide Rel, OnDisk, Run, R.Run, R.OnDisk;
    R.ConfirmedSurvives(c, AbstractRun(c, steps), a);
    OnDiskFile(s, t, a, |steps|);
  }

  lemma ConfirmedAlike(s: State, t: R.State, bound: nat)
    requires Rel(s, t, bound)
    ensures t.confirmed == s.confirmed
  {
    hide NodeRel, AttemptsRel;
  }

  /** With a majority quorum or with serialised publishes, over the same runs: each record in
      the leader's file is in the synced part of the files of at least the required number of
      followers, at the same offset, and confirmed publishes are at the offset they were
      replicated at. */
  lemma ConfirmedIsDurable(c: P.Config, steps: seq<Step>)
    requires AllWritable(steps) && |steps| + 1 < TWO64
    requires 2 * c.required > c.followers || Serial(c, steps)
    ensures Durable(c, Run(c, steps))
  {
    hide Rel, Durable, R.Durable;
    RunRefines(c, steps);
    if 2 * c.required <= c.followers { AbstractSerial(c, steps); }
    R.CrashesLoseNothing(c, AbstractRun(c, steps));
    DurableFiles(c, Run(c, steps), R.Run(c, AbstractRun(c, steps)), |steps|);
  }
}
