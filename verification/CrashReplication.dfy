/** Replicated publishing over crashes. A node writes a record, syncs its file, and only then
    answers: a follower its leader, the leader its client. A crash keeps at least what was
    synced, may keep more, and ends every publish of a crashed leader. A record that
    survived without a sync may still be lost in a later crash. */
module CrashReplication {
  import opened Codec
  import P = PublishProtocol

  /** `leaderSynced` and `synced` are the lengths known to be on disk, `confirmed` the
      attempts whose client was told of success, with the position their append returned. */
  datatype State = State(protocol: P.State, leaderSynced: nat, synced: seq<nat>, confirmed: map<nat, nat>)

  datatype Step =
    | Protocol(step: P.Step)
    | SyncLeader
    | SyncFollower(follower: nat)
    | Confirm(attempt: nat, position: nat)
    | CrashLeader(keep: nat)
    | CrashFollower(follower: nat, keep: nat)

  function Init(c: P.Config): State {
    State(P.Init(c), 0, seq(c.followers, i => 0), map[])
  }

  predicate InLog(log: seq<P.Entry>, a: nat) {
    exists k :: 0 <= k < |log| && log[k].attempt == a
  }

  /** A leader that comes up again with part of its log. All publishes under way are over,
      and those whose record is gone have failed. */
  function CutLeader(s: P.State, keep: nat): P.State
    requires keep <= |s.leader|
  {
    var kept := s.leader[..keep];
    s.(leader := kept,
       attempts := seq(|s.attempts|, a requires 0 <= a < |s.attempts| =>
         if s.attempts[a].phase == P.Appended && InLog(kept, a) then s.attempts[a]
         else s.attempts[a].(phase := P.Failed)))
  }

  function CutFollower(s: P.State, f: nat, keep: nat): P.State
    requires f < |s.followers| && keep <= |s.followers[f]|
  {
    s.(followers := s.followers[f := s.followers[f][..keep]],
       attempts := seq(|s.attempts|, a requires 0 <= a < |s.attempts| =>
         if s.attempts[a].offset < keep then s.attempts[a]
         else s.attempts[a].(stored := s.attempts[a].stored - {f})))
  }

  /** A follower answers for a record only after a sync that covers it. */
  predicate MayAnswer(s: State, a: nat, f: nat) {
    a < |s.protocol.attempts| && f < |s.synced| && s.protocol.attempts[a].offset < s.synced[f]
  }

  predicate CanCrash(s: State, f: nat, keep: nat) {
    f < |s.synced| && f < |s.protocol.followers| && s.synced[f] <= keep <= |s.protocol.followers[f]|
  }

  /** One step; a step that is not enabled changes nothing. */
  function Apply(c: P.Config, s: State, step: Step): State {
    match step
    case Protocol(st) =>
      if st.Reply? && !MayAnswer(s, st.attempt, st.follower) then s
      else s.(protocol := P.Apply(c, s.protocol, st))
    case SyncLeader => s.(leaderSynced := |s.protocol.leader|)
    case SyncFollower(f) =>
      if f < |s.synced| && f < |s.protocol.followers|
      then s.(synced := s.synced[f := |s.protocol.followers[f]|]) else s
    case Confirm(a, k) =>
      if k < s.leaderSynced <= |s.protocol.leader| && s.protocol.leader[k].attempt == a
      then s.(confirmed := s.confirmed[a := k]) else s
    case CrashLeader(keep) =>
      if s.leaderSynced <= keep <= |s.protocol.leader|
      then s.(protocol := CutLeader(s.protocol, keep)) else s
    case CrashFollower(f, keep) =>
      if CanCrash(s, f, keep) then s.(protocol := CutFollower(s.protocol, f, keep)) else s
  }

  function RunFrom(c: P.Config, s: State, steps: seq<Step>): State {
    if steps == [] then s else Apply(c, RunFrom(c, s, steps[..|steps| - 1]), steps[|steps| - 1])
  }

  function Run(c: P.Config, steps: seq<Step>): State {
    RunFrom(c, Init(c), steps)
  }

  /** A new attempt begins only when none is under way. */
  ghost predicate Serial(c: P.Config, steps: seq<Step>) {
    forall i :: 0 <= i < |steps| && steps[i].Protocol? && steps[i].step.Begin? ==>
      P.Idle(Run(c, steps[..i]).protocol)
  }

  // ---------------------------------------------------------------- what is claimed

  /** The followers that hold leader entry `k` at position `k`, safely on disk. */
  ghost function SafeHolders(s: State, k: nat): set<nat>
    requires k < |s.protocol.leader|
  {
    set f | 0 <= f < |s.protocol.followers| && f < |s.synced| && k < s.synced[f] &&
            k < |s.protocol.followers[f]| && s.protocol.followers[f][k] == s.protocol.leader[k]
  }

  /** The confirmed attempt `a` is on the leader's disk where its append put it. */
  ghost predicate OnDisk(s: State, a: nat)
    requires a in s.confirmed
  {
    && a < |s.protocol.attempts| && s.confirmed[a] < s.leaderSynced <= |s.protocol.leader|
    && s.protocol.leader[s.confirmed[a]] == P.Entry(a, s.protocol.attempts[a].message)
  }

  /** Every leader entry is safe on the required number of followers, and confirmed
      attempts are where they were replicated. */
  ghost predicate Durable(c: P.Config, s: State) {
    && (forall k :: 0 <= k < |s.protocol.leader| ==> |SafeHolders(s, k)| >= c.required)
    && (forall a :: a in s.confirmed ==>
          OnDisk(s, a) && s.confirmed[a] == s.protocol.attempts[a].offset)
  }

  // ---------------------------------------------------------------- every run

  ghost predicate AcksSafe(s: State, a: nat)
    requires a < |s.protocol.attempts|
  {
    forall f :: f in s.protocol.attempts[a].acks ==> MayAnswer(s, a, f)
  }

  /** What every run keeps, whatever the quorum and the interleaving. */
  ghost predicate Base(c: P.Config, s: State) {
    && P.Linked(c, s.protocol)
    && |s.synced| == |s.protocol.followers| && s.leaderSynced <= |s.protocol.leader|
    && (forall f :: 0 <= f < |s.synced| ==> s.synced[f] <= |s.protocol.followers[f]|)
    && (forall a :: 0 <= a < |s.protocol.attempts| ==> AcksSafe(s, a))
    && (forall a :: a in s.confirmed ==> OnDisk(s, a))
  }

  lemma CutLeaderBase(c: P.Config, s: State, keep: nat)
    requires Base(c, s) && s.leaderSynced <= keep <= |s.protocol.leader|
    ensures Base(c, s.(protocol := CutLeader(s.protocol, keep)))
  {
    var p, p' := s.protocol, CutLeader(s.protocol, keep);
    forall a | 0 <= a < |p'.attempts|
      ensures P.AttemptOk(c, p', a) && AcksSafe(s.(protocol := p'), a)
    {
      assert P.AttemptOk(c, p, a) && AcksSafe(s, a);
    }
    forall f, k | 0 <= f < |p'.followers| && 0 <= k < |p'.followers[f]|
      ensures P.FollowerEntryOk(p', f, k)
    {
      assert P.FollowerEntryOk(p, f, k);
    }
    forall k | 0 <= k < |p'.leader|
      ensures P.LeaderEntryOk(c, p', k)
    {
      assert P.LeaderEntryOk(c, p, k) && p'.leader[k] == p.leader[k];
      assert InLog(p'.leader, p'.leader[k].attempt);
    }
    forall a | a in s.confirmed
      ensures OnDisk(s.(protocol := p'), a)
    {
      assert OnDisk(s, a);
    }
  }

  lemma CutFollowerBase(c: P.Config, s: State, f: nat, keep: nat)
    requires Base(c, s) && CanCrash(s, f, keep)
    ensures Base(c, s.(protocol := CutFollower(s.protocol, f, keep)))
  {
    var p, p' := s.protocol, CutFollower(s.protocol, f, keep);
    forall a | 0 <= a < |p'.attempts|
      ensures P.AttemptOk(c, p', a) && AcksSafe(s.(protocol := p'), a)
    {
      assert P.AttemptOk(c, p, a) && AcksSafe(s, a);
    }
    forall g, k | 0 <= g < |p'.followers| && 0 <= k < |p'.followers[g]|
      ensures P.FollowerEntryOk(p', g, k)
    {
      assert P.FollowerEntryOk(p, g, k);
    }
    forall k | 0 <= k < |p'.leader|
      ensures P.LeaderEntryOk(c, p', k)
    {
      assert P.LeaderEntryOk(c, p, k);
    }
    forall a | a in s.confirmed
      ensures OnDisk(s.(protocol := p'), a)
    {
      assert OnDisk(s, a);
    }
  }

  /** Steps that keep what is acknowledged and what is on disk. */
  lemma BaseHolds(c: P.Config, s: State, s': State)
    requires Base(c, s) && P.Linked(c, s'.protocol)
    requires s.leaderSynced <= s'.leaderSynced <= |s'.protocol.leader| && s.protocol.leader <= s'.protocol.leader
    requires |s'.synced| == |s'.protocol.followers| == |s.synced|
    requires forall f :: 0 <= f < |s.synced| ==> s.synced[f] <= s'.synced[f] <= |s'.protocol.followers[f]|
    requires |s.protocol.attempts| <= |s'.protocol.attempts|
    requires forall a :: 0 <= a < |s.protocol.attempts| ==>
      s'.protocol.attempts[a].message == s.protocol.attempts[a].message &&
      s'.protocol.attempts[a].offset == s.protocol.attempts[a].offset
    requires forall a, f :: 0 <= a < |s'.protocol.attempts| && f in s'.protocol.attempts[a].acks ==>
      MayAnswer(s', a, f) || (a < |s.protocol.attempts| && f in s.protocol.attempts[a].acks)
    requires forall a :: a in s'.confirmed ==>
      OnDisk(s', a) || (a in s.confirmed && s'.confirmed[a] == s.confirmed[a])
    ensures Base(c, s')
  {
    hide P.Linked;
    forall a | 0 <= a < |s'.protocol.attempts|
      ensures AcksSafe(s', a)
    {
      if a < |s.protocol.attempts| { assert AcksSafe(s, a); }
    }
    forall a | a in s'.confirmed
      ensures OnDisk(s', a)
    {
      if a in s.confirmed && s'.confirmed[a] == s.confirmed[a] { assert OnDisk(s, a); }
    }
  }

  lemma ProtocolBase(c: P.Config, s: State, st: P.Step)
    requires Base(c, s)
    requires st.Reply? ==> MayAnswer(s, st.attempt, st.follower)
    ensures Base(c, s.(protocol := P.Apply(c, s.protocol, st)))
  {
    P.LinkedStep(c, s.protocol, st);
    hide P.Linked;
    BaseHolds(c, s, s.(protocol := P.Apply(c, s.protocol, st)));
  }

  lemma ConfirmBase(c: P.Config, s: State, a: nat, k: nat)
    requires Base(c, s) && k < s.leaderSynced && s.protocol.leader[k].attempt == a
    ensures Base(c, s.(confirmed := s.confirmed[a := k]))
  {
    assert P.LeaderEntryOk(c, s.protocol, k);
    assert OnDisk(s.(confirmed := s.confirmed[a := k]), a);
    BaseHolds(c, s, s.(confirmed := s.confirmed[a := k]));
  }

  lemma StepBase(c: P.Config, s: State, step: Step)
    requires Base(c, s)
    ensures Base(c, Apply(c, s, step))
  {
    hide P.Linked, CutLeader, CutFollower, P.Apply;
    match step
    case Protocol(st) =>
      if !(st.Reply? && !MayAnswer(s, st.attempt, st.follower)) { ProtocolBase(c, s, st); }
    case SyncLeader => BaseHolds(c, s, Apply(c, s, step));
    case SyncFollower(f) => BaseHolds(c, s, Apply(c, s, step));
    case Confirm(a, k) =>
      if k < s.leaderSynced && s.protocol.leader[k].attempt == a { ConfirmBase(c, s, a, k); }
    case CrashLeader(keep) =>
      if s.leaderSynced <= keep <= |s.protocol.leader| { CutLeaderBase(c, s, keep); }
    case CrashFollower(f, keep) =>
      if CanCrash(s, f, keep) { CutFollowerBase(c, s, f, keep); }
  }

  lemma {:induction false} RunBase(c: P.Config, steps: seq<Step>)
    ensures Base(c, Run(c, steps))
  {
    hide Apply;
    if steps == [] {
      P.RunLinked(c, []);
    } else {
      RunBase(c, steps[..|steps| - 1]);
      StepBase(c, Run(c, steps[..|steps| - 1]), steps[|steps| - 1]);
    }
  }

  /** For every quorum and every interleaving, over any number of crashes: a publish that was
      confirmed to its client is on the leader's disk, at the position its append returned. */
  lemma ConfirmedSurvives(c: P.Config, steps: seq<Step>, a: nat)
    requires a in Run(c, steps).confirmed
    ensures OnDisk(Run(c, steps), a)
  {
    hide Run;
    RunBase(c, steps);
  }

  // ---------------------------------------------------------------- safe quorums

  ghost predicate Inv(c: P.Config, s: State) {
    Base(c, s) && P.Landed(s.protocol) && P.OwnsOffset(s.protocol)
  }

  /** A publish that is appended goes to the offset it was replicated at. */
  ghost predicate AppendsInPlace(c: P.Config, s: State, step: Step) {
    step.Protocol? && step.step.LeaderAppend? && P.Active(s.protocol, step.step.attempt) &&
    P.QuorumMet(c, s.protocol.attempts[step.step.attempt]) ==>
      s.protocol.attempts[step.step.attempt].offset == |s.protocol.leader|
  }

  lemma StepInv(c: P.Config, s: State, step: Step)
    requires Inv(c, s) && AppendsInPlace(c, s, step)
    ensures Inv(c, Apply(c, s, step))
  {
    StepBase(c, s, step);
    if step.Protocol? { P.LandingStep(c, s.protocol, step.step); }
  }

  /** With majority quorums: the attempt already at that offset and this one would share a
      follower. */
  lemma MajorityAppends(c: P.Config, s: State, step: Step)
    requires Inv(c, s) && 2 * c.required > c.followers
    ensures AppendsInPlace(c, s, step)
  {
    if step.Protocol? && step.step.LeaderAppend? && P.Active(s.protocol, step.step.attempt) &&
       P.QuorumMet(c, s.protocol.attempts[step.step.attempt]) {
      var p, a := s.protocol, step.step.attempt;
      assert P.AttemptOk(c, p, a);
      var o := p.attempts[a].offset;
      if o < |p.leader| {
        assert P.LeaderEntryOk(c, p, o);
        P.QuorumsMeet(c, p, a, p.leader[o].attempt);
        assert false;
      }
    }
  }

  lemma {:induction false} MajorityInv(c: P.Config, steps: seq<Step>)
    requires 2 * c.required > c.followers
    ensures Inv(c, Run(c, steps))
  {
    hide Apply;
    if steps == [] {
      P.RunLinked(c, []);
    } else {
      MajorityInv(c, steps[..|steps| - 1]);
      MajorityAppends(c, Run(c, steps[..|steps| - 1]), steps[|steps| - 1]);
      StepInv(c, Run(c, steps[..|steps| - 1]), steps[|steps| - 1]);
    }
  }

  lemma SerialStep(c: P.Config, s: State, step: Step)
    requires P.OneAtATime(s.protocol)
    requires step.Protocol? && step.step.Begin? ==> P.Idle(s.protocol)
    ensures P.OneAtATime(Apply(c, s, step).protocol)
  {
    match step
    case Protocol(st) => P.SerialStep(c, s.protocol, st);
    case CrashFollower(f, keep) =>
      var p' := Apply(c, s, step).protocol;
      assert forall a :: P.Active(p', a) ==>
        P.Active(s.protocol, a) && p'.attempts[a].offset == s.protocol.attempts[a].offset;
    case CrashLeader(keep) =>
      if s.leaderSynced <= keep <= |s.protocol.leader| {
        var p' := Apply(c, s, step).protocol;
        assert forall a :: !P.Active(p', a);
      }
    case _ =>
  }

  lemma {:induction false} SerialInv(c: P.Config, steps: seq<Step>)
    requires Serial(c, steps)
    ensures Inv(c, Run(c, steps)) && P.OneAtATime(Run(c, steps).protocol)
  {
    hide Apply;
    if steps == [] {
      P.RunLinked(c, []);
    } else {
      var before, step := steps[..|steps| - 1], steps[|steps| - 1];
      forall i | 0 <= i < |before| && before[i].Protocol? && before[i].step.Begin?
        ensures P.Idle(Run(c, before[..i]).protocol)
      {
        assert before[..i] == steps[..i] && before[i] == steps[i];
      }
      SerialInv(c, before);
      SerialStep(c, Run(c, before), step);
      StepInv(c, Run(c, before), step);
    }
  }

  lemma InvIsDurable(c: P.Config, s: State)
    requires Inv(c, s)
    ensures Durable(c, s)
  {
    var p := s.protocol;
    assert forall a :: a in s.confirmed ==> OnDisk(s, a);
    forall k | 0 <= k < |p.leader|
      ensures |SafeHolders(s, k)| >= c.required
    {
      assert P.LeaderEntryOk(c, p, k);
      var a := p.leader[k].attempt;
      assert P.AttemptOk(c, p, a) && AcksSafe(s, a);
      P.Subset(p.attempts[a].acks, SafeHolders(s, k));
    }
  }

  /** With a majority quorum or with serialised publishes, over any number of crashes of the
      leader and of followers: each leader entry is safely on the disks of at least the
      required number of followers at its own offset, and confirmed publishes are where they
      were replicated. */
  lemma CrashesLoseNothing(c: P.Config, steps: seq<Step>)
    requires 2 * c.required > c.followers || Serial(c, steps)
    ensures Durable(c, Run(c, steps))
  {
    if 2 * c.required > c.followers {
      MajorityInv(c, steps);
    } else {
      SerialInv(c, steps);
    }
    InvIsDurable(c, Run(c, steps));
  }
}
