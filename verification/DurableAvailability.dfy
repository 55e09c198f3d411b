/** What the protocol on files can do: every run of the protocol without crashes, a crash at
    any byte that is not synced, and the confirmation of a publish whenever enough followers
    are level with the leader. */
module DurableAvailability {
  import opened Bytes
  import opened Codec
  import opened SegmentLog
  import L = StoreModel
  import P = PublishProtocol
  import R = CrashReplication
  import A = CrashAvailability
  import D = DurableLog
  import opened DurableReplication

  // ---------------------------------------------------------------- runs of the protocol

  lemma RunFromSnoc(c: P.Config, s: State, steps: seq<Step>, step: Step)
    ensures RunFrom(c, s, steps + [step]) == Apply(c, RunFrom(c, s, steps), step)
  {
    assert (steps + [step])[..|steps|] == steps;
  }

  lemma {:induction false} RunFromConcat(c: P.Config, s: State, a: seq<Step>, b: seq<Step>)
    ensures RunFrom(c, s, a + b) == RunFrom(c, RunFrom(c, s, a), b)
  {
    hide Apply;
    if b == [] {
      assert a + b == a;
    } else {
      RunFromConcat(c, s, a, b[..|b| - 1]);
      assert (a + b)[..|a + b| - 1] == a + b[..|b| - 1];
    }
  }

  /** The step on files for a step of the protocol. */
  function OnFiles(step: P.Step): Step {
    match step
    case Begin(m) => Begin(m)
    case Deliver(a, f) => Deliver(a, f)
    case Lose(a, f) => Lose(a, f)
    case Reply(a, f) => Reply(a, f)
    case LeaderAppend(a) => LeaderAppend(a)
    case GiveUp(a) => GiveUp(a)
  }

  /** From attempt `base` on, the two sides agree on who has stored a record. */
  ghost predicate StoredAlike(s: State, t: R.State, base: nat) {
    forall a :: base <= a < |s.attempts| && a < |t.protocol.attempts| ==>
      s.attempts[a].stored == t.protocol.attempts[a].stored
  }

  lemma StoredStep(c: P.Config, s: State, t: R.State, step: P.Step, base: nat, bound: nat)
    requires Rel(s, t, bound) && StoredAlike(s, t, base) && Enabled(c, s, OnFiles(step))
    ensures StoredAlike(Apply(c, s, OnFiles(step)), R.Apply(c, t, R.Protocol(step)), base)
  {
    hide D.Apply, NodeRel, Rel, Synced, AttemptsRel;
    SizesAlike(s, t, bound);
    RelLeader(s, t, bound);
    if !step.Begin? { RelAt(s, t, step.attempt, bound); }
    if step.Deliver? || step.Reply? { RelFollower(s, t, step.follower, bound); }
  }

  /** A step that is not enabled on files is not enabled in the protocol. */
  lemma DisabledAlike(c: P.Config, s: State, t: R.State, step: P.Step, base: nat, bound: nat)
    requires Rel(s, t, bound) && R.Base(c, t) && StoredAlike(s, t, base) && !Enabled(c, s, OnFiles(step))
    requires step.Reply? ==> step.attempt >= base
    ensures R.Apply(c, t, R.Protocol(step)) == t
  {
    hide D.Apply, NodeRel, Rel, Synced, AttemptsRel, R.Base;
    SizesAlike(s, t, bound);
    FollowersAlike(s, t, bound);
    if step.Deliver? || step.Lose? || step.Reply? || step.LeaderAppend? || step.GiveUp? {
      if step.attempt < |s.attempts| { RelAt(s, t, step.attempt, bound); }
    }
    if step.Reply? && step.follower < |s.followers| { RelFollower(s, t, step.follower, bound); }
  }

  lemma FollowersAlike(s: State, t: R.State, bound: nat)
    requires Rel(s, t, bound)
    ensures |s.followers| == |t.protocol.followers| == |t.synced|
  {
    hide NodeRel, AttemptsRel;
  }

  lemma OneStep(c: P.Config, s: State, t: R.State, step: P.Step, base: nat, bound: nat)
    requires Rel(s, t, bound) && R.Base(c, t) && StoredAlike(s, t, base) && bound + 1 < TWO64
    requires step.Reply? ==> step.attempt >= base
    requires step.Begin? ==> D.Writable(step.message)
    ensures var s', t' := Apply(c, s, OnFiles(step)), R.Apply(c, t, R.Protocol(step));
      Rel(s', t', bound + 1) && R.Base(c, t') && StoredAlike(s', t', base)
  {
    R.StepBase(c, t, R.Protocol(step));
    if Enabled(c, s, OnFiles(step)) {
      AbstractOnFiles(c, s, step);
      hide Rel, R.Apply, Act, D.Writable, StoredAlike, R.Base;
      RelStep(c, s, t, OnFiles(step), bound);
      StoredStep(c, s, t, step, base, bound);
    } else {
      DisabledAlike(c, s, t, step, base, bound);
      hide Rel, R.Apply, StoredAlike, R.Base;
      RelBound(s, t, bound);
    }
  }

  lemma AbstractOnFiles(c: P.Config, s: State, step: P.Step)
    requires Enabled(c, s, OnFiles(step))
    ensures Abstract(c, s, OnFiles(step)) == R.Protocol(step)
  {
  }

  lemma OneSync(c: P.Config, s: State, t: R.State, f: nat, base: nat, bound: nat)
    requires Rel(s, t, bound) && R.Base(c, t) && StoredAlike(s, t, base)
    ensures var s', t' := Apply(c, s, SyncFollower(f)), R.Apply(c, t, R.SyncFollower(f));
      Rel(s', t', bound + 1) && R.Base(c, t') && StoredAlike(s', t', base)
  {
    hide Rel, R.Base, R.Apply, Act, StoredAlike;
    R.StepBase(c, t, R.SyncFollower(f));
    FollowersAlike(s, t, bound);
    SyncKeepsAttempts(c, s, t, f, base);
    if f < |s.followers| {
      RelSync(c, s, t, SyncFollower(f), bound);
    } else {
      RelBound(s, t, bound);
    }
  }

  lemma SyncKeepsAttempts(c: P.Config, s: State, t: R.State, f: nat, base: nat)
    requires StoredAlike(s, t, base) && |s.followers| == |t.protocol.followers| == |t.synced|
    ensures var s', t' := Apply(c, s, SyncFollower(f)), R.Apply(c, t, R.SyncFollower(f));
      StoredAlike(s', t', base) && (f >= |s.followers| ==> s' == s && t' == t)
  {
    hide D.Apply;
  }

  /** Steps of the protocol that publish writable messages and count replies of attempts from
      `base` on only. */
  ghost predicate Fresh(steps: seq<P.Step>, base: nat) {
    forall i :: 0 <= i < |steps| ==>
      && (steps[i].Begin? ==> D.Writable(steps[i].message))
      && (steps[i].Reply? ==> steps[i].attempt >= base)
  }

  /** One such step; a follower syncs before it replies. */
  lemma RealiseOne(c: P.Config, s: State, t: R.State, step: P.Step, base: nat, bound: nat)
      returns (files: seq<Step>, t': R.State)
    requires Rel(s, t, bound) && R.Base(c, t) && StoredAlike(s, t, base) && bound + 2 < TWO64
    requires step.Reply? ==> step.attempt >= base
    requires step.Begin? ==> D.Writable(step.message)
    ensures |files| <= 2
    ensures Rel(RunFrom(c, s, files), t', bound + |files|) && R.Base(c, t') && StoredAlike(RunFrom(c, s, files), t', base)
    ensures t'.protocol == P.Apply(c, t.protocol, step)
  {
    EmptyRun(c, s);
    hide RunFrom, Apply, Rel, R.Base, R.Apply, StoredAlike, D.Writable, P.Apply;
    if step.Reply? {
      var sync := SyncFollower(step.follower);
      OneSync(c, s, t, step.follower, base, bound);
      var u := R.Apply(c, t, R.SyncFollower(step.follower));
      OneStep(c, Apply(c, s, sync), u, step, base, bound + 1);
      A.LiftReply(c, t, step);
      files, t' := [] + [sync] + [OnFiles(step)], R.Apply(c, u, R.Protocol(step));
      RunFromSnoc(c, s, [], sync);
      RunFromSnoc(c, s, [] + [sync], OnFiles(step));
    } else {
      OneStep(c, s, t, step, base, bound);
      A.LiftOther(c, t, step);
      files, t' := [] + [OnFiles(step)], R.Apply(c, t, R.Protocol(step));
      RunFromSnoc(c, s, [], OnFiles(step));
    }
  }

  lemma EmptyRun(c: P.Config, s: State)
    ensures RunFrom(c, s, []) == s
  {
  }

  /** Any such steps can be taken on files. */
  lemma {:induction false} Realise(c: P.Config, s: State, t: R.State, steps: seq<P.Step>, base: nat, bound: nat)
      returns (files: seq<Step>, t': R.State)
    requires Rel(s, t, bound) && R.Base(c, t) && StoredAlike(s, t, base) && Fresh(steps, base)
    requires bound + 2 * |steps| + 1 < TWO64
    ensures |files| <= 2 * |steps|
    ensures Rel(RunFrom(c, s, files), t', bound + |files|) && R.Base(c, t') && StoredAlike(RunFrom(c, s, files), t', base)
    ensures t'.protocol == P.RunFrom(c, t.protocol, steps)
  {
    hide RunFrom, Rel, R.Base, StoredAlike, D.Writable, P.RunFrom, P.Apply;
    if steps == [] {
      files, t' := [], t;
      EmptyRun(c, s);
      P.EmptyRun(c, t.protocol);
    } else {
      var before, step := steps[..|steps| - 1], steps[|steps| - 1];
      assert Fresh(before, base);
      var files1, t1 := Realise(c, s, t, before, base, bound);
      var files2;
      files2, t' := RealiseOne(c, RunFrom(c, s, files1), t1, step, base, bound + |files1|);
      files := files1 + files2;
      RunFromConcat(c, s, files1, files2);
      P.RunFromSnoc(c, t.protocol, before, step);
      assert before + [step] == steps;
    }
  }

  /** The file shows the messages of the log, in order. */
  ghost predicate Shows(d: D.Disk, log: seq<P.Entry>) {
    |L.Log(d.file)| == |log| && forall k :: 0 <= k < |log| ==> L.Log(d.file)[k] == log[k].message
  }

  /** The other direction of the refinement: every run of the protocol, with whatever late,
      lost and refused requests, failures and interleaving, happens on files. */
  lemma EveryRunOnFiles(c: P.Config, steps: seq<P.Step>) returns (files: seq<Step>)
    requires Fresh(steps, 0) && 2 * |steps| + 1 < TWO64
    ensures var s, t := Run(c, files), P.Run(c, steps);
      && Shows(s.leader, t.leader) && |s.followers| == |t.followers| && |s.attempts| == |t.attempts|
      && (forall f :: 0 <= f < |s.followers| ==> Shows(s.followers[f], t.followers[f]))
      && (forall a :: 0 <= a < |s.attempts| ==>
            && s.attempts[a].message == t.attempts[a].message && s.attempts[a].offset == t.attempts[a].offset
            && s.attempts[a].settled == t.attempts[a].settled && s.attempts[a].stored == t.attempts[a].stored
            && s.attempts[a].acks == t.attempts[a].acks)
  {
    RelInit(c);
    R.RunBase(c, []);
    assert R.Run(c, []) == R.Init(c);
    hide RunFrom, P.RunFrom, Rel, R.Base;
    var t';
    files, t' := Realise(c, Init(c), R.Init(c), steps, 0, 0);
    Shown(Run(c, files), t', |files|);
  }

  lemma Shown(s: State, t: R.State, bound: nat)
    requires Rel(s, t, bound)
    ensures Shows(s.leader, t.protocol.leader) && |s.followers| == |t.protocol.followers|
    ensures |s.attempts| == |t.protocol.attempts|
    ensures forall f :: 0 <= f < |s.followers| ==> Shows(s.followers[f], t.protocol.followers[f])
    ensures forall a :: 0 <= a < |s.attempts| ==> AttemptRel(s.attempts[a], t.protocol.attempts[a])
  {
    hide D.Good, L.Intact, L.Log, D.SyncedLength, D.Writable;
    forall f | 0 <= f < |s.followers|
      ensures Shows(s.followers[f], t.protocol.followers[f])
    {
      assert NodeRel(s.followers[f], t.protocol.followers[f], t.synced[f], bound);
    }
  }

  // ---------------------------------------------------------------- crashes

  /** A node can crash at any byte that is not synced. It comes up with what recovery keeps of
      the file; the other nodes and the confirmed publishes are as they were; a crashed leader
      has no publish under way. */
  lemma CrashAtAnyByte(c: P.Config, s: State, f: nat, cut: nat)
    ensures s.leader.synced <= cut <= |s.leader.file| ==>
      var s', torn := Apply(c, s, CrashLeader(cut)), s.leader.file[..cut];
      && s'.leader.file == torn[..ValidLength(torn)] && s'.leader.next == NextAfter(Scan(torn), 0)
      && s'.followers == s.followers && s'.confirmed == s.confirmed && s'.returned == map[] && Idle(s')
      && |s'.attempts| == |s.attempts|
      && (forall a :: 0 <= a < |s.attempts| ==>
            s'.attempts[a] == if s.attempts[a].phase == P.Replicating then s.attempts[a].(phase := P.Failed)
                              else s.attempts[a])
    ensures f < |s.followers| && s.followers[f].synced <= cut <= |s.followers[f].file| ==>
      var s', torn := Apply(c, s, CrashFollower(f, cut)), s.followers[f].file[..cut];
      && |s'.followers| == |s.followers|
      && s'.followers[f].file == torn[..ValidLength(torn)] && s'.followers[f].next == NextAfter(Scan(torn), 0)
      && (forall g :: 0 <= g < |s.followers| && g != f ==> s'.followers[g] == s.followers[g])
      && s'.leader == s.leader && s'.confirmed == s.confirmed && s'.returned == s.returned
      && |s'.attempts| == |s.attempts|
      && (forall a :: 0 <= a < |s.attempts| ==>
            s'.attempts[a] == s.attempts[a].(stored := s.attempts[a].stored - {f}))
  {
    hide Scan, ValidLength, NextAfter;
  }

  // ---------------------------------------------------------------- publishes are confirmed

  /** After any run on files in which enough followers have as many records as the leader, a
      new publish can go all the way: its record is appended to the leader's file, synced, and
      confirmed at the offset that is the old length of the log. */
  lemma PublishIsConfirmed(c: P.Config, steps: seq<Step>, m: Message, fs: set<nat>) returns (more: seq<Step>)
    requires AllWritable(steps) && D.Writable(m) && |steps| + 4 * c.followers + 6 < TWO64
    requires |fs| >= c.required && forall f :: f in fs ==> f < c.followers
    requires var s := Run(c, steps);
      forall f :: f in fs ==> f < |s.followers| && |L.Log(s.followers[f].file)| == |L.Log(s.leader.file)|
    ensures var s, s' := Run(c, steps), RunFrom(c, Run(c, steps), more); var a, k := |s.attempts|, |L.Log(s.leader.file)|;
      && a in s'.confirmed && s'.confirmed[a] == k
      && |L.Log(s'.leader.file)| == k + 1 && L.Log(s'.leader.file)[k] == m
      && s'.leader.synced == |s'.leader.file|
  {
    var s, t := Run(c, steps), R.Run(c, AbstractRun(c, steps));
    hide RunFrom, R.RunFrom, Rel, R.Base, D.Writable;
    RunRefines(c, steps);
    R.RunBase(c, AbstractRun(c, steps));
    Shown(s, t, |steps|);
    FewerThan(fs, c.followers);
    more := ConfirmFrom(c, s, t, m, fs, |steps|);
  }

  lemma ConfirmFrom(c: P.Config, s: State, t: R.State, m: Message, fs: set<nat>, bound: nat) returns (more: seq<Step>)
    requires Rel(s, t, bound) && R.Base(c, t) && D.Writable(m) && bound + 4 * |fs| + 6 < TWO64
    requires |fs| >= c.required && |s.attempts| == |t.protocol.attempts|
    requires forall f :: f in fs ==>
      f < |t.protocol.followers| && |t.protocol.followers[f]| == |t.protocol.leader|
    ensures var s' := RunFrom(c, s, more); var a, k := |s.attempts|, |t.protocol.leader|;
      && a in s'.confirmed && s'.confirmed[a] == k
      && |L.Log(s'.leader.file)| == k + 1 && L.Log(s'.leader.file)[k] == m
      && s'.leader.synced == |s'.leader.file|
  {
    hide RunFrom, P.RunFrom, Rel, R.Base, D.Writable, L.Log;
    A.FollowerCount(c, t);
    var a := |s.attempts|;
    var gather := P.GatherQuorum(c, t.protocol, m, fs);
    GatherIsFresh(gather, m, a);
    var files, t1 := Realise(c, s, t, gather, a, bound);
    var s1 := RunFrom(c, s, files);
    AppendSyncConfirm(c, s1, t1, a, bound + |files|);
    var last := [LeaderAppend(a), SyncLeader, Confirm(a)];
    more := files + last;
    RunFromConcat(c, s, files, last);
  }

  lemma FewerThan(fs: set<nat>, n: nat)
    requires forall f :: f in fs ==> f < n
    ensures |fs| <= n
  {
    P.Subset(fs, P.Range(0, n));
  }

  lemma GatherIsFresh(steps: seq<P.Step>, m: Message, a: nat)
    requires |steps| >= 1 && steps[..1] == [P.Begin(m)] && P.OnlyAbout(steps[1..], a) && D.Writable(m)
    ensures Fresh(steps, a)
  {
    hide D.Writable;
    assert steps[0] == steps[..1][0];
    assert forall i :: 1 <= i < |steps| ==> steps[i] == steps[1..][i - 1];
  }

  /** An attempt with its quorum is appended at the end of the leader's file, synced and
      confirmed. */
  lemma AppendSyncConfirm(c: P.Config, s: State, t: R.State, a: nat, bound: nat)
    requires Rel(s, t, bound) && R.Base(c, t) && bound + 3 < TWO64
    requires P.Active(t.protocol, a) && P.QuorumMet(c, t.protocol.attempts[a])
    ensures var s' := RunFrom(c, s, [LeaderAppend(a), SyncLeader, Confirm(a)]);
      && a in s'.confirmed && s'.confirmed[a] == |t.protocol.leader|
      && |L.Log(s'.leader.file)| == |t.protocol.leader| + 1
      && L.Log(s'.leader.file)[|t.protocol.leader|] == t.protocol.attempts[a].message
      && s'.leader.synced == |s'.leader.file|
  {
    hide Rel, R.Base, L.Log, D.Apply, RunFrom;
    var k := |t.protocol.leader|;
    var s1, t1 := Apply(c, s, LeaderAppend(a)), R.Apply(c, t, R.Protocol(P.LeaderAppend(a)));
    Appends(c, s, t, a, bound);
    var s2, t2 := Apply(c, s1, SyncLeader), R.Apply(c, t1, R.SyncLeader);
    Syncs(c, s1, t1, bound + 1);
    ThreeSteps(c, s, LeaderAppend(a), SyncLeader, Confirm(a));
  }

  lemma Appends(c: P.Config, s: State, t: R.State, a: nat, bound: nat)
    requires Rel(s, t, bound) && bound + 1 < TWO64
    requires P.Active(t.protocol, a) && P.QuorumMet(c, t.protocol.attempts[a])
    ensures var s1, t1 := Apply(c, s, LeaderAppend(a)), R.Apply(c, t, R.Protocol(P.LeaderAppend(a)));
      && Rel(s1, t1, bound + 1) && a in s1.returned && s1.returned[a] == |t.protocol.leader|
      && t1.protocol.leader == t.protocol.leader + [P.Entry(a, t.protocol.attempts[a].message)]
  {
    hide Rel, L.Log, D.Apply, NodeRel, AttemptsRel;
    SizesAlike(s, t, bound);
    RelAt(s, t, a, bound);
    RelLeader(s, t, bound);
    RelAppend(c, s, t, a, bound);
  }

  lemma Syncs(c: P.Config, s: State, t: R.State, bound: nat)
    requires Rel(s, t, bound)
    ensures var s' := Apply(c, s, SyncLeader);
      && s'.returned == s.returned && Shows(s'.leader, t.protocol.leader)
      && Synced(s'.leader) == |t.protocol.leader| && s'.leader.synced == |s'.leader.file|
  {
    hide Rel, L.Log, NodeRel, AttemptsRel, Synced;
    var s', t' := Apply(c, s, SyncLeader), R.Apply(c, t, R.SyncLeader);
    RelSync(c, s, t, SyncLeader, bound);
    RelLeader(s', t', bound + 1);
    Shown(s', t', bound + 1);
    SyncedAll(s.leader);
  }

  lemma SyncedAll(d: D.Disk)
    ensures D.Apply(d, D.SyncOp).synced == |D.Apply(d, D.SyncOp).file|
  {
  }

  lemma ThreeSteps(c: P.Config, s: State, x: Step, y: Step, z: Step)
    ensures RunFrom(c, s, [x, y, z]) == Apply(c, Apply(c, Apply(c, s, x), y), z)
  {
    hide Apply;
    var all := [x, y, z];
    assert all[..0] == [] && RunFrom(c, s, []) == s;
    assert all[..1][..0] == all[..0] && all[..2][..1] == all[..1];
    assert RunFrom(c, s, all[..1]) == Apply(c, s, x);
    assert RunFrom(c, s, all[..2]) == Apply(c, RunFrom(c, s, all[..1]), y);
  }
}
