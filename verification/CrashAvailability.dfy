/** When a partition that crashes can undo still accepts a publish, and that the quorums
    that are safe without crashes are exactly the ones that are safe with them. */
module CrashAvailability {
  import opened Codec
  import P = PublishProtocol
  import opened CrashReplication

  // ---------------------------------------------------------------- runs without crashes

  lemma RunFromSnoc(c: P.Config, s: State, steps: seq<Step>, step: Step)
    ensures RunFrom(c, s, steps + [step]) == Apply(c, RunFrom(c, s, steps), step)
  {
    assert (steps + [step])[..|steps|] == steps;
  }

  lemma {:induction false} RunFromConcat(c: P.Config, s: State, a: seq<Step>, b: seq<Step>)
    ensures RunFrom(c, s, a + b) == RunFrom(c, RunFrom(c, s, a), b)
  {
    hide Apply;
    if b == [] {
      assert a + b == a;
    } else {
      RunFromConcat(c, s, a, b[..|b| - 1]);
      assert (a + b)[..|a + b| - 1] == a + b[..|b| - 1];
    }
  }

  /** Every run of the protocol is one of this machine: each follower syncs before its
      reply. */
  lemma {:induction false} Lift(c: P.Config, s: State, steps: seq<P.Step>) returns (lifted: seq<Step>)
    requires Base(c, s)
    ensures Base(c, RunFrom(c, s, lifted))
    ensures RunFrom(c, s, lifted).protocol == P.RunFrom(c, s.protocol, steps)
  {
    if steps == [] {
      lifted := [];
    } else {
      hide RunFrom, Apply, Base;
      var step := steps[|steps| - 1];
      var before := Lift(c, s, steps[..|steps| - 1]);
      var t := RunFrom(c, s, before);
      if step.Reply? {
        var sync := SyncFollower(step.follower);
        lifted := before + [sync] + [Protocol(step)];
        RunFromSnoc(c, s, before, sync);
        RunFromSnoc(c, s, before + [sync], Protocol(step));
        StepBase(c, t, sync);
        StepBase(c, Apply(c, t, sync), Protocol(step));
        LiftReply(c, t, step);
      } else {
        lifted := before + [Protocol(step)];
        RunFromSnoc(c, s, before, Protocol(step));
        StepBase(c, t, Protocol(step));
        LiftOther(c, t, step);
      }
    }
  }

  lemma LiftReply(c: P.Config, s: State, step: P.Step)
    requires Base(c, s) && step.Reply?
    ensures Apply(c, Apply(c, s, SyncFollower(step.follower)), Protocol(step)).protocol == P.Apply(c, s.protocol, step)
  {
    if P.Active(s.protocol, step.attempt) && step.follower in s.protocol.attempts[step.attempt].stored {
      assert P.AttemptOk(c, s.protocol, step.attempt);
    }
  }

  lemma LiftOther(c: P.Config, s: State, step: P.Step)
    requires !step.Reply?
    ensures Apply(c, s, Protocol(step)).protocol == P.Apply(c, s.protocol, step)
  {
  }

  /** Every leader entry is safe on its quorum over all runs with crashes exactly when
      nothing is required or the quorum is a majority. */
  lemma SafeExactlyForMajorities(c: P.Config)
    ensures (forall steps, k :: 0 <= k < |Run(c, steps).protocol.leader| ==>
               |SafeHolders(Run(c, steps), k)| >= c.required) <==>
            c.required <= 0 || 2 * c.required > c.followers
  {
    if 2 * c.required > c.followers {
      forall steps, k | 0 <= k < |Run(c, steps).protocol.leader|
        ensures |SafeHolders(Run(c, steps), k)| >= c.required
      {
        CrashesLoseNothing(c, steps);
      }
    } else if c.required >= 1 {
      var m := Message([], [], [], []);
      var steps := P.MinorityMisplaces(c, m, m);
      RunBase(c, []);
      assert Run(c, []) == Init(c);
      hide RunFrom, P.RunFrom, Base;
      var lifted := Lift(c, Init(c), steps);
      var s := Run(c, lifted);
      assert SafeHolders(s, 1) <= P.Holders(s.protocol, 1);
      assert |SafeHolders(s, 1)| == 0;
    }
  }

  // ---------------------------------------------------------------- when a publish is accepted

  /** Follower `f` can come to exactly `length` entries: a crash can cut what it has not
      synced, and for every entry it lacks some request with that offset is under way. */
  ghost predicate CanReach(s: State, f: nat, length: nat)
    requires f < |s.synced| && f < |s.protocol.followers|
  {
    && s.synced[f] <= length
    && forall k :: |s.protocol.followers[f]| <= k < length ==> !P.Unsupplied(s.protocol, f, k)
  }

  ghost function Reachers(s: State, length: nat): set<nat> {
    set f | 0 <= f < |s.protocol.followers| && f < |s.synced| && CanReach(s, f, length)
  }

  /** An attempt that is still to begin gets into the leader's log in some continuation. */
  ghost predicate Accepts(c: P.Config, s: State) {
    exists more :: HasNew(RunFrom(c, s, more).protocol.leader, |s.protocol.attempts|)
  }

  ghost predicate HasNew(log: seq<P.Entry>, n: nat) {
    exists k :: 0 <= k < |log| && log[k].attempt >= n
  }

  /** For some length the leader can come up with after a crash, enough followers can reach
      it. */
  ghost predicate Agreeable(c: P.Config, s: State) {
    exists length :: s.leaderSynced <= length <= |s.protocol.leader| && |Reachers(s, length)| >= c.required
  }

  // ---------------------------------------------------------------- reaching agreement

  /** Crashes that cut the followers `fs` to `length`. */
  ghost predicate CutTo(s: State, s': State, fs: set<nat>, length: nat) {
    && s'.protocol.leader == s.protocol.leader && s'.synced == s.synced
    && |s'.protocol.followers| == |s.protocol.followers| && |s'.protocol.attempts| == |s.protocol.attempts|
    && (forall a, f :: P.UnderWay(s'.protocol, a, f) <==> P.UnderWay(s.protocol, a, f))
    && (forall a :: 0 <= a < |s.protocol.attempts| ==>
          s'.protocol.attempts[a].offset == s.protocol.attempts[a].offset)
    && (forall f :: 0 <= f < |s.protocol.followers| ==>
          |s'.protocol.followers[f]| ==
            if f in fs && |s.protocol.followers[f]| > length then length else |s.protocol.followers[f]|)
  }

  lemma CutOne(c: P.Config, s: State, f: nat, length: nat)
    requires Base(c, s) && f in Reachers(s, length) && |s.protocol.followers[f]| > length
    ensures CutTo(s, Apply(c, s, CrashFollower(f, length)), {f}, length)
  {
    hide P.Linked;
    assert CanReach(s, f, length);
  }

  lemma {:induction false} CutAll(c: P.Config, s: State, fs: set<nat>, length: nat) returns (steps: seq<Step>)
    requires Base(c, s) && fs <= Reachers(s, length)
    ensures Base(c, RunFrom(c, s, steps)) && CutTo(s, RunFrom(c, s, steps), fs, length)
  {
    if fs == {} {
      steps := [];
    } else {
      hide RunFrom, Apply, Base;
      var f :| f in fs;
      steps := CutAll(c, s, fs - {f}, length);
      var t := RunFrom(c, s, steps);
      if |t.protocol.followers[f]| > length {
        StillReaches(s, t, fs - {f}, length, f);
        CutOne(c, t, f, length);
        RunFromSnoc(c, s, steps, CrashFollower(f, length));
        StepBase(c, t, CrashFollower(f, length));
        steps := steps + [CrashFollower(f, length)];
        CutBoth(s, t, RunFrom(c, s, steps), fs, f, length);
      }
    }
  }

  lemma CutBoth(s: State, t: State, u: State, fs: set<nat>, f: nat, length: nat)
    requires f in fs && CutTo(s, t, fs - {f}, length) && CutTo(t, u, {f}, length)
    ensures CutTo(s, u, fs, length)
  {
  }

  lemma StillReaches(s: State, t: State, fs: set<nat>, length: nat, f: nat)
    requires CutTo(s, t, fs, length) && f in Reachers(s, length) && f !in fs
    ensures f in Reachers(t, length)
  {
    assert CanReach(s, f, length);
    forall k | |t.protocol.followers[f]| <= k < length
      ensures !P.Unsupplied(t.protocol, f, k)
    {
      SuppliedAlike(s, t, fs, length, f, k);
    }
  }

  lemma SuppliedAlike(s: State, t: State, fs: set<nat>, length: nat, f: nat, k: nat)
    requires CutTo(s, t, fs, length) && !P.Unsupplied(s.protocol, f, k)
    ensures !P.Unsupplied(t.protocol, f, k)
  {
    var a :| P.UnderWay(s.protocol, a, f) && s.protocol.attempts[a].offset == k;
    assert P.UnderWay(t.protocol, a, f) && t.protocol.attempts[a].offset == k;
  }

  /** Once cut, the followers that can reach the leader's length can join it. */
  lemma ReachersJoin(s: State, t: State, fs: set<nat>)
    requires fs == Reachers(s, |s.protocol.leader|) && CutTo(s, t, fs, |s.protocol.leader|)
    ensures fs <= P.Joinable(t.protocol)
  {
    forall f | f in fs
      ensures f in P.Joinable(t.protocol)
    {
      assert CanReach(s, f, |s.protocol.leader|);
      forall k | |t.protocol.followers[f]| <= k < |t.protocol.leader|
        ensures !P.Unsupplied(t.protocol, f, k)
      {
        SuppliedAlike(s, t, fs, |s.protocol.leader|, f, k);
      }
    }
  }

  /** A leader crash leaves the followers' reach as it was. */
  lemma LeaderCutReach(c: P.Config, s: State, length: nat)
    requires Base(c, s) && s.leaderSynced <= length <= |s.protocol.leader|
    ensures var t := Apply(c, s, CrashLeader(length));
      && Base(c, t) && |t.protocol.leader| == length && |t.protocol.attempts| == |s.protocol.attempts|
      && Reachers(s, length) <= Reachers(t, length)
  {
    var t := Apply(c, s, CrashLeader(length));
    StepBase(c, s, CrashLeader(length));
    hide Base;
    forall f | f in Reachers(s, length)
      ensures f in Reachers(t, length)
    {
      assert CanReach(s, f, length);
      forall k | |t.protocol.followers[f]| <= k < length
        ensures !P.Unsupplied(t.protocol, f, k)
      {
        assert !P.Unsupplied(s.protocol, f, k);
        var a :| P.UnderWay(s.protocol, a, f) && s.protocol.attempts[a].offset == k;
        assert P.UnderWay(t.protocol, a, f) && t.protocol.attempts[a].offset == k;
      }
    }
  }

  lemma Agree(c: P.Config, s: State, length: nat) returns (steps: seq<Step>)
    requires Base(c, s) && s.leaderSynced <= length <= |s.protocol.leader| && |Reachers(s, length)| >= c.required
    ensures HasNew(RunFrom(c, s, steps).protocol.leader, |s.protocol.attempts|)
  {
    var crash := CrashLeader(length);
    var t := Apply(c, s, crash);
    LeaderCutReach(c, s, length);
    RunFromSnoc(c, s, [], crash);
    assert RunFrom(c, s, []) == s && [] + [crash] == [crash];
    FollowerCount(c, s);
    hide RunFrom, Apply, Base, P.RunFrom;
    var fs := Reachers(t, length);
    P.Subset(Reachers(s, length), fs);
    var cuts := CutAll(c, t, fs, length);
    var u := RunFrom(c, t, cuts);
    ReachersJoin(t, u, fs);
    P.Subset(fs, P.Joinable(u.protocol));
    FollowerCount(c, u);
    var joins := P.Joins(c, u.protocol, Message([], [], [], []));
    var lifted := Lift(c, u, joins);
    RunFromConcat(c, s, [crash], cuts);
    RunFromConcat(c, s, [crash] + cuts, lifted);
    steps := [crash] + cuts + lifted;
    var leader := RunFrom(c, s, steps).protocol.leader;
    assert leader[|leader| - 1].attempt == |s.protocol.attempts|;
  }

  lemma FollowerCount(c: P.Config, s: State)
    requires Base(c, s)
    ensures |s.protocol.followers| == c.followers
  {
  }

  // ---------------------------------------------------------------- and never reaching it

  /** No continuation of `start` up to `s` has accepted a publish, and no length can be
      agreed on that could not be agreed on at the start. */
  ghost predicate Stuck(c: P.Config, start: State, s: State) {
    && Base(c, s) && Base(c, start) && |s.synced| == |start.synced|
    && s.protocol.leader <= start.protocol.leader && start.leaderSynced <= s.leaderSynced
    && (forall f, length ::
          0 <= f < |s.synced| && s.leaderSynced <= length <= |s.protocol.leader| && CanReach(s, f, length) ==>
            CanReach(start, f, length))
    && (forall a :: P.Active(s.protocol, a) ==> OffersEnd(start, s, a))
  }

  /** An attempt under way is for the end of the leader's log, and those who stored it could
      reach that length from the start. */
  ghost predicate OffersEnd(start: State, s: State, a: nat)
    requires a < |s.protocol.attempts|
  {
    var t := s.protocol.attempts[a];
    t.offset == |s.protocol.leader| && t.stored <= Reachers(start, t.offset)
  }

  /** What a step that supplies nothing new below `length` means for reaching it. */
  lemma ReachBack(s: State, s': State, f: nat, length: nat)
    requires f < |s.synced| && f < |s'.synced| && f < |s.protocol.followers| && f < |s'.protocol.followers|
    requires CanReach(s', f, length) && s.synced[f] <= s'.synced[f]
    requires forall a :: P.UnderWay(s'.protocol, a, f) && s'.protocol.attempts[a].offset < length ==>
      P.UnderWay(s.protocol, a, f) && s.protocol.attempts[a].offset == s'.protocol.attempts[a].offset
    requires forall k :: |s.protocol.followers[f]| <= k < |s'.protocol.followers[f]| && k < length ==>
      !P.Unsupplied(s.protocol, f, k)
    ensures CanReach(s, f, length)
  {
    forall k | |s.protocol.followers[f]| <= k < length
      ensures !P.Unsupplied(s.protocol, f, k)
    {
      if k >= |s'.protocol.followers[f]| {
        assert !P.Unsupplied(s'.protocol, f, k);
        var a :| P.UnderWay(s'.protocol, a, f) && s'.protocol.attempts[a].offset == k;
        assert P.UnderWay(s.protocol, a, f);
      }
    }
  }

  lemma StepReach(c: P.Config, s: State, step: Step, f: nat, length: nat)
    requires Base(c, s) && Base(c, Apply(c, s, step)) && f < |s.synced| && f < |Apply(c, s, step).synced|
    requires length <= |s.protocol.leader| && CanReach(Apply(c, s, step), f, length)
    ensures CanReach(s, f, length)
  {
    var s' := Apply(c, s, step);
    if step.Protocol? && step.step.Deliver? && step.step.follower == f {
      DeliverReach(c, s, step.step.attempt, f, length);
    } else {
      KeepsRequests(c, s, step, f);
      ReachBack(s, s', f, length);
    }
  }

  lemma DeliverReach(c: P.Config, s: State, a: nat, f: nat, length: nat)
    requires Base(c, s) && f < |s.synced| && Base(c, Apply(c, s, Protocol(P.Deliver(a, f))))
    requires CanReach(Apply(c, s, Protocol(P.Deliver(a, f))), f, length)
    ensures CanReach(s, f, length)
  {
    hide P.Linked;
    var s' := Apply(c, s, Protocol(P.Deliver(a, f)));
    if |s'.protocol.followers[f]| > |s.protocol.followers[f]| {
      assert P.UnderWay(s.protocol, a, f) && s.protocol.attempts[a].offset == |s.protocol.followers[f]|;
    }
    ReachBack(s, s', f, length);
  }

  /** Apart from deliveries to it, no step lengthens a follower's log, lowers what it has
      synced, or puts a request under way to it below the leader's length. */
  lemma KeepsRequests(c: P.Config, s: State, step: Step, f: nat)
    requires Base(c, s) && f < |s.synced| && !(step.Protocol? && step.step.Deliver? && step.step.follower == f)
    ensures var s' := Apply(c, s, step);
      && f < |s'.synced| && f < |s'.protocol.followers|
      && s.synced[f] <= s'.synced[f] && |s'.protocol.followers[f]| <= |s.protocol.followers[f]|
      && (forall a :: P.UnderWay(s'.protocol, a, f) && s'.protocol.attempts[a].offset < |s.protocol.leader| ==>
            P.UnderWay(s.protocol, a, f) && s.protocol.attempts[a].offset == s'.protocol.attempts[a].offset)
  {
    hide P.Linked;
  }

  lemma StuckStep(c: P.Config, start: State, s: State, step: Step)
    requires Stuck(c, start, s) && !Agreeable(c, start)
    ensures Stuck(c, start, Apply(c, s, step))
  {
    var s' := Apply(c, s, step);
    StepBase(c, s, step);
    LeaderStays(c, start, s, step);
    forall f, length | 0 <= f < |s'.synced| && s'.leaderSynced <= length <= |s'.protocol.leader| && CanReach(s', f, length)
      ensures CanReach(start, f, length)
    {
      StepReach(c, s, step, f, length);
    }
    forall a | P.Active(s'.protocol, a)
      ensures OffersEnd(start, s', a)
    {
      OffersStep(c, start, s, step, a);
    }
  }

  /** Nobody gathers a quorum, so the leader's log can only be cut. */
  lemma LeaderStays(c: P.Config, start: State, s: State, step: Step)
    requires Stuck(c, start, s) && !Agreeable(c, start)
    ensures var s' := Apply(c, s, step);
      && |s'.synced| == |start.synced| && s.leaderSynced <= s'.leaderSynced
      && s'.protocol.leader <= s.protocol.leader
  {
    if step.Protocol? && step.step.LeaderAppend? && P.Active(s.protocol, step.step.attempt) {
      var a := step.step.attempt;
      var t := s.protocol.attempts[a];
      assert OffersEnd(start, s, a) && P.AttemptOk(c, s.protocol, a);
      P.Subset(t.acks, Reachers(start, t.offset));
      assert |Reachers(start, t.offset)| < c.required;
      assert !P.QuorumMet(c, t);
    }
  }

  lemma OffersStep(c: P.Config, start: State, s: State, step: Step, a: nat)
    requires Stuck(c, start, s) && !Agreeable(c, start) && P.Active(Apply(c, s, step).protocol, a)
    ensures OffersEnd(start, Apply(c, s, step), a)
  {
    LeaderStays(c, start, s, step);
    if a < |s.protocol.attempts| {
      assert P.Active(s.protocol, a) && OffersEnd(start, s, a);
      if step.Protocol? && step.step.Deliver? && step.step.attempt == a {
        StoresReach(c, start, s, a, step.step.follower);
      }
    }
  }

  /** A follower that stores the record of an attempt under way has the leader's length. */
  lemma StoresReach(c: P.Config, start: State, s: State, a: nat, f: nat)
    requires Stuck(c, start, s) && P.Active(s.protocol, a) && OffersEnd(start, s, a)
    ensures var s' := Apply(c, s, Protocol(P.Deliver(a, f)));
      a < |s'.protocol.attempts| && s'.protocol.attempts[a].stored <= Reachers(start, s.protocol.attempts[a].offset)
  {
    hide P.Linked;
    var o := s.protocol.attempts[a].offset;
    if f < |s.protocol.followers| && |s.protocol.followers[f]| == o {
      assert CanReach(s, f, o);
      assert CanReach(start, f, o);
    }
  }

  lemma {:induction false} StuckRun(c: P.Config, start: State, steps: seq<Step>)
    requires Stuck(c, start, start) && !Agreeable(c, start)
    ensures Stuck(c, start, RunFrom(c, start, steps))
  {
    hide Stuck, Apply, Agreeable;
    if steps != [] {
      StuckRun(c, start, steps[..|steps| - 1]);
      StuckStep(c, start, RunFrom(c, start, steps[..|steps| - 1]), steps[|steps| - 1]);
    }
  }

  lemma NothingNew(c: P.Config, start: State, s: State)
    requires Stuck(c, start, s)
    ensures !HasNew(s.protocol.leader, |start.protocol.attempts|)
  {
    forall k | 0 <= k < |s.protocol.leader|
      ensures s.protocol.leader[k].attempt < |start.protocol.attempts|
    {
      assert P.LeaderEntryOk(c, start.protocol, k);
    }
  }

  /** The exact condition over runs with crashes: an idle partition can still accept a
      publish if and only if there is a length the leader has or can be cut to which enough
      followers can reach. */
  lemma AcceptsExactlyWhileAgreeable(c: P.Config, steps: seq<Step>)
    requires P.Idle(Run(c, steps).protocol)
    ensures Accepts(c, Run(c, steps)) <==> Agreeable(c, Run(c, steps))
  {
    var s := Run(c, steps);
    RunBase(c, steps);
    hide Run, RunFrom;
    if Agreeable(c, s) {
      var length :| s.leaderSynced <= length <= |s.protocol.leader| && |Reachers(s, length)| >= c.required;
      var more := Agree(c, s, length);
    } else {
      forall more
        ensures !HasNew(RunFrom(c, s, more).protocol.leader, |s.protocol.attempts|)
      {
        assert Stuck(c, s, s);
        StuckRun(c, s, more);
        NothingNew(c, s, RunFrom(c, s, more));
      }
    }
  }

  // ---------------------------------------------------------------- publishes are confirmed

  /** After any run in which enough followers are as long as the leader, a new publish can go
      all the way: it is appended at the leader's length, synced and confirmed there. */
  lemma PublishIsConfirmed(c: P.Config, steps: seq<Step>, m: Message, fs: set<nat>) returns (more: seq<Step>)
    requires |fs| >= c.required
    requires var s := Run(c, steps).protocol;
      forall f :: f in fs ==> f < |s.followers| && |s.followers[f]| == |s.leader|
    ensures var s, s' := Run(c, steps), RunFrom(c, Run(c, steps), more); var a := |s.protocol.attempts|;
      && a in s'.confirmed && s'.confirmed[a] == |s.protocol.leader|
      && s'.protocol.leader == s.protocol.leader + [P.Entry(a, m)] && s'.leaderSynced == |s'.protocol.leader|
  {
    var s := Run(c, steps);
    RunBase(c, steps);
    FollowerCount(c, s);
    hide Run, RunFrom, P.RunFrom, Base;
    var gather := P.GatherQuorum(c, s.protocol, m, fs);
    var lifted := Lift(c, s, gather);
    var t, a := RunFrom(c, s, lifted), |s.protocol.attempts|;
    var last := [Protocol(P.LeaderAppend(a)), SyncLeader, Confirm(a, |s.protocol.leader|)];
    more := lifted + last;
    RunFromConcat(c, s, lifted, last);
    LastThree(c, t, last);
  }

  lemma LastThree(c: P.Config, s: State, all: seq<Step>)
    requires |all| == 3
    ensures RunFrom(c, s, all) == Apply(c, Apply(c, Apply(c, s, all[0]), all[1]), all[2])
  {
    hide Apply;
    assert all[..0] == [] && RunFrom(c, s, []) == s;
    assert all[..1][..0] == all[..0] && all[..2][..1] == all[..1];
    assert RunFrom(c, s, all[..1]) == Apply(c, s, all[0]);
    assert RunFrom(c, s, all[..2]) == Apply(c, RunFrom(c, s, all[..1]), all[1]);
  }

  /** What a crash leaves: any part of the log from what is synced on, no publish under way,
      and the other nodes as they were. */
  lemma CrashOutcome(c: P.Config, s: State, f: nat, keep: nat)
    ensures s.leaderSynced <= keep <= |s.protocol.leader| ==>
      var s' := Apply(c, s, CrashLeader(keep));
      && s'.protocol.leader == s.protocol.leader[..keep] && P.Idle(s'.protocol)
      && s'.protocol.followers == s.protocol.followers && s'.synced == s.synced
      && s'.leaderSynced == s.leaderSynced && s'.confirmed == s.confirmed
    ensures f < |s.synced| && f < |s.protocol.followers| && s.synced[f] <= keep <= |s.protocol.followers[f]| ==>
      var s' := Apply(c, s, CrashFollower(f, keep));
      && s'.protocol.followers == s.protocol.followers[f := s.protocol.followers[f][..keep]]
      && s'.protocol.leader == s.protocol.leader && s'.synced == s.synced
      && s'.leaderSynced == s.leaderSynced && s'.confirmed == s.confirmed
  {
  }
}
