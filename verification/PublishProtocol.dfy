/** Replicated publishing of one partition as a step machine. A publish attempt reads the
    leader's next offset, sends its record to every follower, counts the successful replies
    and, with enough of them, appends to the leader's own log. No lock spans these steps, so
    attempts interleave freely. Each request is sent once: it reaches the follower at any
    later time, also after its attempt has ended, and is then stored or refused, or it is
    lost; nothing sends it again. Attempts are numbered so that equal messages stay
    distinguishable. */
module PublishProtocol {
  import opened Codec
  import Log = StoreModel

  datatype Config = Config(followers: nat, required: int)

  /** Followers are contacted only with a positive quorum that can be met. */
  predicate FansOut(c: Config) {
    1 <= c.required <= c.followers
  }

  datatype Entry = Entry(attempt: nat, message: Message)

  datatype Phase = Replicating | Appended | Failed

  /** `settled` are the followers whose request has been handled or lost, `stored` those that
      appended the record, `acks` those whose success the leader has counted. */
  datatype Attempt = Attempt(message: Message, offset: nat, settled: set<nat>, stored: set<nat>,
                             acks: set<nat>, phase: Phase)

  datatype State = State(leader: seq<Entry>, followers: seq<seq<Entry>>, attempts: seq<Attempt>)

  datatype Step =
    | Begin(message: Message)
    | Deliver(attempt: nat, follower: nat)
    | Lose(attempt: nat, follower: nat)
    | Reply(attempt: nat, follower: nat)
    | LeaderAppend(attempt: nat)
    | GiveUp(attempt: nat)

  function Init(c: Config): State {
    State([], seq(c.followers, i => []), [])
  }

  /** What the coordinator's success means for the attempt. */
  predicate QuorumMet(c: Config, t: Attempt) {
    c.required <= 0 || (c.required <= c.followers && |t.acks| >= c.required)
  }

  /** The request of attempt `a` to follower `f` is still under way. */
  predicate UnderWay(s: State, a: int, f: nat) {
    0 <= a < |s.attempts| && f !in s.attempts[a].settled
  }

  predicate Active(s: State, a: int) {
    0 <= a < |s.attempts| && s.attempts[a].phase == Replicating
  }

  function Fresh(m: Message, offset: nat): Attempt {
    Attempt(m, offset, {}, {}, {}, Replicating)
  }

  /** One step; a step that is not enabled changes nothing. */
  function Apply(c: Config, s: State, step: Step): State {
    match step
    case Begin(m) =>
      s.(attempts := s.attempts + [Fresh(m, |s.leader|)])
    case Deliver(a, f) =>
      if FansOut(c) && UnderWay(s, a, f) && f < |s.followers| then
        var t := s.attempts[a];
        var (log, ok) := Log.AppendAt(s.followers[f], t.offset, Entry(a, t.message));
        s.(followers := s.followers[f := log],
           attempts := s.attempts[a := t.(settled := t.settled + {f},
                                          stored := if ok then t.stored + {f} else t.stored)])
      else s
    case Lose(a, f) =>
      if UnderWay(s, a, f) then
        s.(attempts := s.attempts[a := s.attempts[a].(settled := s.attempts[a].settled + {f})])
      else s
    case Reply(a, f) =>
      if Active(s, a) && f in s.attempts[a].stored then
        s.(attempts := s.attempts[a := s.attempts[a].(acks := s.attempts[a].acks + {f})])
      else s
    case LeaderAppend(a) =>
      if Active(s, a) && QuorumMet(c, s.attempts[a]) then
        s.(leader := s.leader + [Entry(a, s.attempts[a].message)],
           attempts := s.attempts[a := s.attempts[a].(phase := Appended)])
      else s
    case GiveUp(a) =>
      if Active(s, a) then s.(attempts := s.attempts[a := s.attempts[a].(phase := Failed)]) else s
  }

  function RunFrom(c: Config, s: State, steps: seq<Step>): State {
    if steps == [] then s else Apply(c, RunFrom(c, s, steps[..|steps| - 1]), steps[|steps| - 1])
  }

  function Run(c: Config, steps: seq<Step>): State {
    RunFrom(c, Init(c), steps)
  }

  lemma RunSnoc(c: Config, steps: seq<Step>, step: Step)
    ensures Run(c, steps + [step]) == Apply(c, Run(c, steps), step)
  {
    assert (steps + [step])[..|steps|] == steps;
  }

  /** A request that reaches a follower is handled there and then: stored exactly when the
      follower is at its offset, and in either case over. */
  lemma DeliverDecides(c: Config, s: State, a: nat, f: nat)
    requires FansOut(c) && a < |s.attempts| && f < |s.followers| && f !in s.attempts[a].settled
    ensures var s', t := Apply(c, s, Deliver(a, f)), s.attempts[a];
      && f in s'.attempts[a].settled
      && (|s.followers[f]| == t.offset ==>
            f in s'.attempts[a].stored && s'.followers[f] == s.followers[f] + [Entry(a, t.message)])
      && (|s.followers[f]| != t.offset ==> s'.attempts[a].stored == t.stored && s'.followers == s.followers)
    ensures var s' := Apply(c, s, Lose(a, f));
      f in s'.attempts[a].settled && s'.attempts[a].stored == s.attempts[a].stored && s'.followers == s.followers
  {
  }

  /** Once over, it is never handled again: whether the record was stored does not change in
      any continuation. */
  lemma {:induction false} HandledOnce(c: Config, s: State, a: nat, f: nat, more: seq<Step>)
    requires a < |s.attempts| && f in s.attempts[a].settled
    ensures var s' := RunFrom(c, s, more);
      && a < |s'.attempts| && f in s'.attempts[a].settled
      && (f in s'.attempts[a].stored <==> f in s.attempts[a].stored)
  {
    if more != [] { HandledOnce(c, s, a, f, more[..|more| - 1]); }
  }

  // ---------------------------------------------------------------- what is claimed

  /** Every leader entry sits at the offset its record was replicated at. */
  ghost predicate Landed(s: State) {
    forall k :: 0 <= k < |s.leader| ==>
      s.leader[k].attempt < |s.attempts| && s.attempts[s.leader[k].attempt].offset == k
  }

  /** The followers that hold leader entry `k` at position `k`. */
  ghost function Holders(s: State, k: nat): set<nat>
    requires k < |s.leader|
  {
    set f | 0 <= f < |s.followers| && k < |s.followers[f]| && s.followers[f][k] == s.leader[k]
  }

  ghost predicate Replicated(c: Config, s: State) {
    forall k :: 0 <= k < |s.leader| ==> |Holders(s, k)| >= c.required
  }

  // ---------------------------------------------------------------- every interleaving

  ghost predicate AttemptOk(c: Config, s: State, a: nat)
    requires a < |s.attempts|
  {
    var t := s.attempts[a];
    && (t.phase == Replicating ==> t.offset <= |s.leader|)
    && t.acks <= t.stored
    && (forall f :: f in t.stored ==>
          f < |s.followers| && t.offset < |s.followers[f]| && s.followers[f][t.offset] == Entry(a, t.message))
  }

  ghost predicate FollowerEntryOk(s: State, f: nat, k: nat)
    requires f < |s.followers| && k < |s.followers[f]|
  {
    var e := s.followers[f][k];
    e.attempt < |s.attempts| &&
    var t := s.attempts[e.attempt];
    t.offset == k && t.message == e.message && f in t.stored
  }

  ghost predicate LeaderEntryOk(c: Config, s: State, k: nat)
    requires k < |s.leader|
  {
    var e := s.leader[k];
    e.attempt < |s.attempts| &&
    var t := s.attempts[e.attempt];
    t.phase == Appended && t.message == e.message && QuorumMet(c, t)
  }

  /** What links logs and attempts in every run, whatever the quorum. */
  ghost predicate Linked(c: Config, s: State) {
    && |s.followers| == c.followers
    && (forall a :: 0 <= a < |s.attempts| ==> AttemptOk(c, s, a))
    && (forall f, k :: 0 <= f < |s.followers| && 0 <= k < |s.followers[f]| ==> FollowerEntryOk(s, f, k))
    && (forall k :: 0 <= k < |s.leader| ==> LeaderEntryOk(c, s, k))
  }

  lemma AttemptsStep(c: Config, s: State, step: Step, a: nat)
    requires Linked(c, s) && a < |Apply(c, s, step).attempts|
    ensures AttemptOk(c, Apply(c, s, step), a)
  {
    if a < |s.attempts| { assert AttemptOk(c, s, a); }
  }

  lemma FollowersStep(c: Config, s: State, step: Step, f: nat, k: nat)
    requires Linked(c, s)
    requires f < |Apply(c, s, step).followers| && k < |Apply(c, s, step).followers[f]|
    ensures FollowerEntryOk(Apply(c, s, step), f, k)
  {
    if k < |s.followers[f]| { assert FollowerEntryOk(s, f, k); }
  }

  lemma LeaderStep(c: Config, s: State, step: Step, k: nat)
    requires Linked(c, s) && k < |Apply(c, s, step).leader|
    ensures LeaderEntryOk(c, Apply(c, s, step), k)
  {
    if k < |s.leader| { assert LeaderEntryOk(c, s, k); }
  }

  lemma LinkedStep(c: Config, s: State, step: Step)
    requires Linked(c, s)
    ensures Linked(c, Apply(c, s, step))
  {
    var s' := Apply(c, s, step);
    assert |s'.followers| == |s.followers|;
    hide Apply, AttemptOk, FollowerEntryOk, LeaderEntryOk;
    forall a | 0 <= a < |s'.attempts|
      ensures AttemptOk(c, s', a)
    {
      AttemptsStep(c, s, step, a);
    }
    forall f, k | 0 <= f < |s'.followers| && 0 <= k < |s'.followers[f]|
      ensures FollowerEntryOk(s', f, k)
    {
      FollowersStep(c, s, step, f, k);
    }
    forall k | 0 <= k < |s'.leader|
      ensures LeaderEntryOk(c, s', k)
    {
      LeaderStep(c, s, step, k);
    }
  }

  /** No attempt was given an offset past the leader's end. */
  ghost predicate NoneBeyond(s: State) {
    forall a :: 0 <= a < |s.attempts| ==> s.attempts[a].offset <= |s.leader|
  }

  lemma {:induction false} RunLinked(c: Config, steps: seq<Step>)
    ensures Linked(c, Run(c, steps)) && NoneBeyond(Run(c, steps))
  {
    if steps != [] {
      RunLinked(c, steps[..|steps| - 1]);
      LinkedStep(c, Run(c, steps[..|steps| - 1]), steps[|steps| - 1]);
    }
  }

  /** An attempt that has been appended is the leader entry at its own offset. */
  ghost predicate OwnsOffset(s: State) {
    forall a :: 0 <= a < |s.attempts| && s.attempts[a].phase == Appended ==>
      s.attempts[a].offset < |s.leader| && s.leader[s.attempts[a].offset].attempt == a
  }

  /** With majority quorums two attempts cannot both gather one at the same offset: the
      follower they share stores only one record there. */
  lemma QuorumsMeet(c: Config, s: State, a: nat, b: nat)
    requires Linked(c, s) && 2 * c.required > c.followers
    requires a < |s.attempts| && b < |s.attempts| && s.attempts[a].offset == s.attempts[b].offset
    requires QuorumMet(c, s.attempts[a]) && QuorumMet(c, s.attempts[b])
    ensures a == b
  {
    var x, y := s.attempts[a], s.attempts[b];
    assert AttemptOk(c, s, a) && AttemptOk(c, s, b);
    var n := c.followers;
    assert x.acks <= Range(0, n) && y.acks <= Range(0, n);
    if x.acks !! y.acks {
      DisjointFit(x.acks, y.acks, n);
      assert false;
    }
    var f :| f in x.acks && f in y.acks;
    assert s.followers[f][x.offset] == Entry(a, x.message);
    assert s.followers[f][y.offset] == Entry(b, y.message);
  }

  /** The numbers lo, ..., lo + n - 1. */
  ghost function Range(lo: nat, n: nat): (r: set<nat>)
    ensures forall x :: x in r <==> lo <= x < lo + n
    ensures |r| == n
  {
    if n == 0 then {} else Range(lo, n - 1) + {lo + n - 1}
  }

  lemma RangeSnoc(lo: nat, n: nat)
    requires n > 0
    ensures Range(lo, n) == Range(lo, n - 1) + {lo + n - 1}
  {
  }

  lemma DisjointFit(a: set<nat>, b: set<nat>, n: nat)
    requires a <= Range(0, n) && b <= Range(0, n) && a !! b
    ensures |a| + |b| <= n
  {
    Subset(a + b, Range(0, n));
  }

  lemma {:induction false} Subset(a: set<nat>, b: set<nat>)
    requires a <= b
    ensures |a| <= |b|
  {
    if a != {} {
      var x :| x in a;
      Subset(a - {x}, b - {x});
    }
  }

  lemma LandingStep(c: Config, s: State, step: Step)
    requires Linked(c, s) && Landed(s) && OwnsOffset(s)
    requires step.LeaderAppend? && Active(s, step.attempt) && QuorumMet(c, s.attempts[step.attempt]) ==>
      s.attempts[step.attempt].offset == |s.leader|
    ensures Landed(Apply(c, s, step)) && OwnsOffset(Apply(c, s, step))
  {
    var s' := Apply(c, s, step);
    assert forall a :: 0 <= a < |s.attempts| ==> s'.attempts[a].offset == s.attempts[a].offset;
  }

  lemma {:induction false} MajorityLanding(c: Config, steps: seq<Step>)
    requires 2 * c.required > c.followers
    ensures Landed(Run(c, steps)) && OwnsOffset(Run(c, steps))
  {
    if steps != [] {
      var s, step := Run(c, steps[..|steps| - 1]), steps[|steps| - 1];
      MajorityLanding(c, steps[..|steps| - 1]);
      RunLinked(c, steps[..|steps| - 1]);
      if step.LeaderAppend? && Active(s, step.attempt) && QuorumMet(c, s.attempts[step.attempt]) {
        var o := s.attempts[step.attempt].offset;
        assert AttemptOk(c, s, step.attempt);
        if o < |s.leader| {
          assert LeaderEntryOk(c, s, o);
          QuorumsMeet(c, s, step.attempt, s.leader[o].attempt);
          assert false;
        }
      }
      LandingStep(c, s, step);
    }
  }

  /** Where an entry landed at its replication offset, its quorum holds it there. */
  lemma LandedIsReplicated(c: Config, s: State)
    requires Linked(c, s) && Landed(s)
    ensures Replicated(c, s)
  {
    forall k | 0 <= k < |s.leader|
      ensures |Holders(s, k)| >= c.required
    {
      assert LeaderEntryOk(c, s, k);
      var a := s.leader[k].attempt;
      assert AttemptOk(c, s, a);
      Subset(s.attempts[a].acks, Holders(s, k));
    }
  }

  /** Majority quorums are safe in every interleaving: each leader entry is held
      identically, at its own offset, by at least the required number of followers. */
  lemma MajorityReplication(c: Config, steps: seq<Step>)
    requires 2 * c.required > c.followers
    ensures Landed(Run(c, steps)) && Replicated(c, Run(c, steps))
  {
    MajorityLanding(c, steps);
    RunLinked(c, steps);
    LandedIsReplicated(c, Run(c, steps));
  }

  // ---------------------------------------------------------------- run by run

  /** A publish appends although the leader's log has grown since it read its offset. */
  ghost predicate AppendsLate(c: Config, s: State, step: Step) {
    step.LeaderAppend? && Active(s, step.attempt) && QuorumMet(c, s.attempts[step.attempt]) &&
    s.attempts[step.attempt].offset != |s.leader|
  }

  lemma LandedStep(c: Config, s: State, step: Step)
    requires Linked(c, s)
    ensures Landed(Apply(c, s, step)) <==> Landed(s) && !AppendsLate(c, s, step)
  {
    var s' := Apply(c, s, step);
    assert s.leader <= s'.leader;
    assert forall k :: 0 <= k < |s.leader| ==> LeaderEntryOk(c, s, k) && s'.leader[k] == s.leader[k];
    assert forall a :: 0 <= a < |s.attempts| ==> s'.attempts[a].offset == s.attempts[a].offset;
    if AppendsLate(c, s, step) {
      assert s'.leader[|s.leader|].attempt == step.attempt;
    }
  }

  lemma {:induction false} LandedExactly(c: Config, steps: seq<Step>)
    ensures Landed(Run(c, steps)) <==>
      forall n :: 0 <= n < |steps| ==> !AppendsLate(c, Run(c, steps[..n]), steps[n])
  {
    hide Apply, AppendsLate, Landed;
    if steps == [] {
      EmptyLanded(c);
    } else {
      var before, last := steps[..|steps| - 1], |steps| - 1;
      LandedExactly(c, before);
      RunLinked(c, before);
      LandedStep(c, Run(c, before), steps[last]);
      assert forall n :: 0 <= n < last ==> before[..n] == steps[..n] && before[n] == steps[n];
      assert (forall n :: 0 <= n < last ==> !AppendsLate(c, Run(c, before[..n]), before[n])) <==>
             (forall n :: 0 <= n < last ==> !AppendsLate(c, Run(c, steps[..n]), steps[n]));
    }
  }

  lemma EmptyLanded(c: Config)
    ensures Landed(Run(c, []))
  {
  }

  /** A follower holds an entry only at the offset it was replicated at. */
  lemma ReplicatedIsLanded(c: Config, s: State)
    requires Linked(c, s) && c.required >= 1 && Replicated(c, s)
    ensures Landed(s)
  {
    forall k | 0 <= k < |s.leader|
      ensures s.leader[k].attempt < |s.attempts| && s.attempts[s.leader[k].attempt].offset == k
    {
      assert |Holders(s, k)| >= 1;
      var f :| f in Holders(s, k);
      assert FollowerEntryOk(s, f, k);
    }
  }

  /** The exact condition on a run, for every positive quorum: each leader entry is held by
      the required number of followers at its offset if and only if no publish of the run
      appended late. */
  lemma ReplicatedExactlyWithoutLateAppends(c: Config, steps: seq<Step>)
    requires c.required >= 1
    ensures Replicated(c, Run(c, steps)) <==>
      forall n :: 0 <= n < |steps| ==> !AppendsLate(c, Run(c, steps[..n]), steps[n])
  {
    LandedExactly(c, steps);
    RunLinked(c, steps);
    hide Run, Linked, Landed, Replicated, AppendsLate;
    if Landed(Run(c, steps)) {
      LandedIsReplicated(c, Run(c, steps));
    } else if Replicated(c, Run(c, steps)) {
      ReplicatedIsLanded(c, Run(c, steps));
    }
  }

  // ---------------------------------------------------------------- and only majorities are

  /** Two overlapping attempts at offset 0, stored and acknowledged by followers 0..i and
      r..r+j. */
  ghost predicate Overlap(c: Config, s: State, m1: Message, m2: Message, i: nat, j: nat)
    requires c.required >= 0
  {
    && s.leader == [] && |s.attempts| == 2 && |s.followers| == c.followers
    && (forall a :: 0 <= a < 2 ==> s.attempts[a].offset == 0 && s.attempts[a].phase == Replicating)
    && s.attempts[0].message == m1 && s.attempts[1].message == m2
    && s.attempts[0].acks == s.attempts[0].settled == Range(0, i)
    && s.attempts[1].acks == s.attempts[1].settled == Range(c.required, j)
    && (forall f :: 0 <= f < c.followers ==>
          s.followers[f] == if f < i then [Entry(0, m1)]
                            else if c.required <= f < c.required + j then [Entry(1, m2)]
                            else [])
  }

  lemma ReachOverlap(c: Config, m1: Message, m2: Message, i: nat, j: nat) returns (steps: seq<Step>)
    requires 0 <= 2 * c.required <= c.followers
    requires i <= c.required && j <= c.required && (j > 0 ==> i == c.required)
    ensures Overlap(c, Run(c, steps), m1, m2, i, j)
    decreases i + j
  {
    hide Run, Apply, Overlap;
    if i == 0 && j == 0 {
      BeginTwice(c, m1, m2);
      steps := [] + [Begin(m1)] + [Begin(m2)];
    } else {
      var a, f := if j == 0 then 0 else 1, if j == 0 then i - 1 else c.required + j - 1;
      var before: seq<Step>;
      if j == 0 {
        before := ReachOverlap(c, m1, m2, i - 1, 0);
        FirstGrows(c, Run(c, before), m1, m2, i);
      } else {
        before := ReachOverlap(c, m1, m2, i, j - 1);
        SecondGrows(c, Run(c, before), m1, m2, j);
      }
      RunSnoc(c, before, Deliver(a, f));
      RunSnoc(c, before + [Deliver(a, f)], Reply(a, f));
      steps := before + [Deliver(a, f)] + [Reply(a, f)];
    }
  }

  lemma BeginTwice(c: Config, m1: Message, m2: Message)
    ensures Run(c, [] + [Begin(m1)] + [Begin(m2)]) == Init(c).(attempts := [Fresh(m1, 0), Fresh(m2, 0)])
    ensures c.required >= 0 ==> Overlap(c, Run(c, [] + [Begin(m1)] + [Begin(m2)]), m1, m2, 0, 0)
  {
    assert Run(c, []) == Init(c);
    RunSnoc(c, [], Begin(m1));
    RunSnoc(c, [] + [Begin(m1)], Begin(m2));
    hide Run;
    assert [Fresh(m1, 0), Fresh(m2, 0)] == [Fresh(m1, 0)] + [Fresh(m2, 0)];
  }

  /** An empty follower stores the record of an attempt at offset 0 and is acknowledged. */
  lemma StoreAndReply(c: Config, s: State, a: nat, f: nat)
    requires FansOut(c) && Active(s, a) && s.attempts[a].offset == 0 && UnderWay(s, a, f)
    requires f < |s.followers| && s.followers[f] == []
    ensures var t := s.attempts[a];
      Apply(c, Apply(c, s, Deliver(a, f)), Reply(a, f)) ==
        s.(followers := s.followers[f := [Entry(a, t.message)]],
           attempts := s.attempts[a := t.(settled := t.settled + {f}, stored := t.stored + {f}, acks := t.acks + {f})])
  {
    var t := s.attempts[a];
    var s1 := Apply(c, s, Deliver(a, f));
    assert [] + [Entry(a, t.message)] == [Entry(a, t.message)];
    assert s1.attempts[a] == t.(settled := t.settled + {f}, stored := t.stored + {f});
  }

  lemma FirstGrows(c: Config, s: State, m1: Message, m2: Message, i: nat)
    requires 0 <= 2 * c.required <= c.followers && 0 < i <= c.required
    requires Overlap(c, s, m1, m2, i - 1, 0)
    ensures Overlap(c, Apply(c, Apply(c, s, Deliver(0, i - 1)), Reply(0, i - 1)), m1, m2, i, 0)
  {
    hide Apply, Range;
    StoreAndReply(c, s, 0, i - 1);
    RangeSnoc(0, i);
  }

  lemma SecondGrows(c: Config, s: State, m1: Message, m2: Message, j: nat)
    requires 0 <= 2 * c.required <= c.followers && 0 < j <= c.required
    requires Overlap(c, s, m1, m2, c.required, j - 1)
    ensures var f := c.required + j - 1;
      Overlap(c, Apply(c, Apply(c, s, Deliver(1, f)), Reply(1, f)), m1, m2, c.required, j)
  {
    hide Apply, Range;
    StoreAndReply(c, s, 1, c.required + j - 1);
    RangeSnoc(c.required, j);
  }

  /** Without a majority, two overlapping publishes can both succeed at offset 0: the second
      record is appended at offset 1, where no follower holds it, and some follower holds it
      at offset 0, where the leader has the first. */
  lemma MinorityMisplaces(c: Config, m1: Message, m2: Message) returns (steps: seq<Step>)
    requires 1 <= c.required && 2 * c.required <= c.followers
    ensures var s := Run(c, steps);
      && s.leader == [Entry(0, m1), Entry(1, m2)]
      && Holders(s, 1) == {} && !Replicated(c, s) && !Landed(s)
      && exists f :: 0 <= f < |s.followers| && s.followers[f] == [Entry(1, m2)]
  {
    hide Run, Apply, Overlap, Landed, Replicated, Holders;
    var r := c.required;
    var before := ReachOverlap(c, m1, m2, r, r);
    RunSnoc(c, before, LeaderAppend(0));
    RunSnoc(c, before + [LeaderAppend(0)], LeaderAppend(1));
    steps := before + [LeaderAppend(0)] + [LeaderAppend(1)];
    var s := Run(c, before);
    OverlapEnds(c, s, m1, m2);
    AppendBoth(c, s);
    NoHolders(c, Run(c, steps));
  }

  lemma OverlapEnds(c: Config, s: State, m1: Message, m2: Message)
    requires 1 <= c.required && 2 * c.required <= c.followers && Overlap(c, s, m1, m2, c.required, c.required)
    ensures s.leader == [] && |s.attempts| == 2 && |s.followers| == c.followers
    ensures s.attempts[0].message == m1 && s.attempts[1].message == m2
    ensures forall a :: 0 <= a < 2 ==>
      s.attempts[a].offset == 0 && s.attempts[a].phase == Replicating && QuorumMet(c, s.attempts[a])
    ensures forall f :: 0 <= f < |s.followers| ==> |s.followers[f]| <= 1
    ensures s.followers[c.required] == [Entry(1, m2)]
  {
  }

  lemma NoHolders(c: Config, s: State)
    requires |s.leader| == 2 && c.required >= 1
    requires forall f :: 0 <= f < |s.followers| ==> |s.followers[f]| <= 1
    ensures Holders(s, 1) == {} && !Replicated(c, s)
  {
  }

  lemma AppendBoth(c: Config, s: State)
    requires s.leader == [] && |s.attempts| == 2
    requires forall a :: 0 <= a < 2 ==>
      s.attempts[a].offset == 0 && s.attempts[a].phase == Replicating && QuorumMet(c, s.attempts[a])
    ensures var s' := Apply(c, Apply(c, s, LeaderAppend(0)), LeaderAppend(1));
      && s'.leader == [Entry(0, s.attempts[0].message), Entry(1, s.attempts[1].message)]
      && s'.followers == s.followers && !Landed(s')
  {
    var s' := Apply(c, Apply(c, s, LeaderAppend(0)), LeaderAppend(1));
    assert s'.leader[1].attempt == 1 && s'.attempts[1].offset == 0;
  }

  /** Every leader entry is on its quorum in all runs exactly for majority quorums, or when
      nothing is required. */
  lemma ReplicationExactlyForMajorities(c: Config)
    ensures (forall steps :: Replicated(c, Run(c, steps))) <==> c.required <= 0 || 2 * c.required > c.followers
  {
    if 2 * c.required > c.followers {
      forall steps
        ensures Replicated(c, Run(c, steps))
      {
        MajorityReplication(c, steps);
      }
    } else if c.required >= 1 {
      var steps := MinorityMisplaces(c, Message([], [], [], []), Message([], [], [], [0]));
    }
  }

  /** Leader entries sit at the offset read for them in all runs exactly for majority
      quorums. */
  lemma LandingExactlyForMajorities(c: Config)
    ensures (forall steps :: Landed(Run(c, steps))) <==> 2 * c.required > c.followers
  {
    var m := Message([], [], [], []);
    if 2 * c.required > c.followers {
      forall steps
        ensures Landed(Run(c, steps))
      {
        MajorityLanding(c, steps);
      }
    } else if c.required >= 1 {
      var steps := MinorityMisplaces(c, m, m);
    } else {
      var before := [] + [Begin(m)] + [Begin(m)];
      BeginTwice(c, m, m);
      RunSnoc(c, before, LeaderAppend(0));
      RunSnoc(c, before + [LeaderAppend(0)], LeaderAppend(1));
      hide Run;
      AppendBoth(c, Run(c, before));
      assert !Landed(Run(c, before + [LeaderAppend(0)] + [LeaderAppend(1)]));
    }
  }

  // ---------------------------------------------------------------- serialised publishes

  /** A new attempt begins only when none is under way. Requests of ended attempts may
      still arrive. */
  ghost predicate Serial(c: Config, steps: seq<Step>) {
    forall i :: 0 <= i < |steps| && steps[i].Begin? ==> Idle(Run(c, steps[..i]))
  }

  ghost predicate Idle(s: State) {
    forall a :: 0 <= a < |s.attempts| ==> s.attempts[a].phase != Replicating
  }

  /** At most one attempt is under way and it targets the end of the leader's log. */
  ghost predicate OneAtATime(s: State) {
    && (forall a :: Active(s, a) ==> s.attempts[a].offset == |s.leader|)
    && (forall a, b :: Active(s, a) && Active(s, b) ==> a == b)
  }

  ghost predicate SerialInvariant(c: Config, s: State) {
    Linked(c, s) && NoneBeyond(s) && Landed(s) && OwnsOffset(s) && OneAtATime(s)
  }

  lemma {:induction false} SerialLanding(c: Config, steps: seq<Step>)
    requires Serial(c, steps)
    ensures SerialInvariant(c, Run(c, steps))
  {
    RunLinked(c, steps);
    if steps != [] {
      var before, step := steps[..|steps| - 1], steps[|steps| - 1];
      forall i | 0 <= i < |before| && before[i].Begin?
        ensures Idle(Run(c, before[..i]))
      {
        assert before[..i] == steps[..i] && steps[i].Begin?;
      }
      SerialLanding(c, before);
      RunLinked(c, before);
      LandingStep(c, Run(c, before), step);
      assert steps[..|steps| - 1] == before;
      SerialStep(c, Run(c, before), step);
    }
  }

  lemma SerialStep(c: Config, s: State, step: Step)
    requires OneAtATime(s) && (step.Begin? ==> Idle(s))
    ensures OneAtATime(Apply(c, s, step))
  {
    var s' := Apply(c, s, step);
    if !step.Begin? {
      assert forall a :: Active(s', a) ==> Active(s, a) && s'.attempts[a].offset == s.attempts[a].offset;
    }
  }

  /** With serialised publishes any quorum will do: every run, with quorum failures, failed
      leader appends and late requests, keeps each leader entry on the required number of
      followers at its own offset. */
  lemma SerialReplication(c: Config, steps: seq<Step>)
    requires Serial(c, steps)
    ensures Landed(Run(c, steps)) && Replicated(c, Run(c, steps))
  {
    SerialLanding(c, steps);
    LandedIsReplicated(c, Run(c, steps));
  }

  /** Where a follower's log stands against the leader's: it reaches at most one entry past
      the leader's end, and an entry differs from the leader's exactly when the attempt that
      put it there failed. */
  ghost predicate Agrees(s: State, f: nat, k: nat)
    requires f < |s.followers| && k < |s.followers[f]|
  {
    var e := s.followers[f][k];
    && e.attempt < |s.attempts|
    && f in s.attempts[e.attempt].stored
    && k <= |s.leader|
    && (k < |s.leader| ==> (e == s.leader[k] <==> s.attempts[e.attempt].phase != Failed))
    && (k == |s.leader| ==> s.attempts[e.attempt].phase != Appended)
  }

  lemma FollowerAgreement(c: Config, steps: seq<Step>)
    requires Serial(c, steps)
    ensures var s := Run(c, steps);
      forall f, k :: 0 <= f < |s.followers| && 0 <= k < |s.followers[f]| ==> Agrees(s, f, k)
  {
    var s := Run(c, steps);
    SerialLanding(c, steps);
    forall f, k | 0 <= f < |s.followers| && 0 <= k < |s.followers[f]|
      ensures Agrees(s, f, k)
    {
      EntryAgrees(c, s, f, k);
    }
  }

  lemma EntryAgrees(c: Config, s: State, f: nat, k: nat)
    requires SerialInvariant(c, s)
    requires f < |s.followers| && k < |s.followers[f]|
    ensures Agrees(s, f, k)
  {
    assert FollowerEntryOk(s, f, k);
    var a := s.followers[f][k].attempt;
    assert AttemptOk(c, s, a);
    if k < |s.leader| {
      assert LeaderEntryOk(c, s, k);
    }
    assert Active(s, a) <==> s.attempts[a].phase == Replicating;
  }

  /** No record of a failed attempt has reached a follower. */
  ghost predicate NoFailedRecords(s: State) {
    forall a :: 0 <= a < |s.attempts| && s.attempts[a].stored != {} ==> s.attempts[a].phase != Failed
  }

  /** A follower log is a prefix of the leader's, plus at most the record being replicated. */
  ghost predicate PrefixPlusOne(s: State, f: nat)
    requires f < |s.followers|
  {
    var log := s.followers[f];
    || log <= s.leader
    || (|log| == |s.leader| + 1 && s.leader <= log && Active(s, log[|s.leader|].attempt))
  }

  /** With serialised publishes all follower logs are such prefixes if and only if no record
      of a failed attempt has reached a follower. */
  lemma FollowersArePrefixes(c: Config, steps: seq<Step>)
    requires Serial(c, steps)
    ensures var s := Run(c, steps);
      (forall f :: 0 <= f < |s.followers| ==> PrefixPlusOne(s, f)) <==> NoFailedRecords(s)
  {
    var s := Run(c, steps);
    SerialLanding(c, steps);
    hide Run;
    if NoFailedRecords(s) {
      forall f | 0 <= f < |s.followers|
        ensures PrefixPlusOne(s, f)
      {
        PrefixOfLeader(c, s, f);
      }
    } else {
      var a :| 0 <= a < |s.attempts| && s.attempts[a].stored != {} && s.attempts[a].phase == Failed;
      var f :| f in s.attempts[a].stored;
      assert AttemptOk(c, s, a);
      EntryAgrees(c, s, f, s.attempts[a].offset);
      assert !PrefixPlusOne(s, f);
    }
  }

  lemma PrefixOfLeader(c: Config, s: State, f: nat)
    requires SerialInvariant(c, s) && f < |s.followers| && NoFailedRecords(s)
    ensures PrefixPlusOne(s, f)
  {
    var log := s.followers[f];
    forall k | 0 <= k < |log|
      ensures k <= |s.leader|
      ensures k < |s.leader| ==> log[k] == s.leader[k]
      ensures k == |s.leader| ==> Active(s, log[k].attempt)
    {
      EntryAgrees(c, s, f, k);
    }
    if |log| > |s.leader| {
      EntryAgrees(c, s, f, |log| - 1);
    }
  }

  // ---------------------------------------------------------------- when publishing stops for good

  /** Followers whose log is longer than the leader's. */
  ghost function Ahead(s: State): set<nat> {
    set f | 0 <= f < |s.followers| && |s.followers[f]| > |s.leader|
  }

  /** Follower `f` is out for good as long as the leader's length is `length`: it is longer,
      or lacks an entry that no request under way can supply. */
  ghost predicate Out(s: State, f: nat, length: nat)
    requires f < |s.followers|
  {
    || |s.followers[f]| > length
    || exists k :: |s.followers[f]| <= k < length && Unsupplied(s, f, k)
  }

  ghost predicate Unsupplied(s: State, f: nat, k: nat) {
    forall a :: UnderWay(s, a, f) ==> s.attempts[a].offset != k
  }

  /** The leader's length and the followers that are out cannot change any more. */
  ghost predicate Stuck(c: Config, s: State, length: nat, outs: set<nat>) {
    && Linked(c, s) && |s.leader| == length
    && (forall f :: f in outs ==> f < |s.followers| && Out(s, f, length))
    && forall a :: Active(s, a) ==> s.attempts[a].offset == length && s.attempts[a].stored !! outs
  }

  lemma OutStays(c: Config, s: State, step: Step, f: nat, length: nat)
    requires f < |s.followers| && |s.leader| == length && Out(s, f, length)
    ensures var s' := Apply(c, s, step); f < |s'.followers| && Out(s', f, length)
  {
    var s' := Apply(c, s, step);
    if |s.followers[f]| <= length {
      var k :| |s.followers[f]| <= k < length && Unsupplied(s, f, k);
      assert forall a :: UnderWay(s', a, f) && a < |s.attempts| ==>
        UnderWay(s, a, f) && s'.attempts[a].offset == s.attempts[a].offset;
      assert Unsupplied(s', f, k);
    }
  }

  lemma StuckStep(c: Config, s: State, step: Step, length: nat, outs: set<nat>)
    requires Stuck(c, s, length, outs)
    requires c.required >= 1 && |outs| > c.followers - c.required
    ensures Stuck(c, Apply(c, s, step), length, outs) && Apply(c, s, step).leader == s.leader
  {
    LinkedStep(c, s, step);
    var s' := Apply(c, s, step);
    if step.LeaderAppend? && Active(s, step.attempt) {
      var t := s.attempts[step.attempt];
      assert AttemptOk(c, s, step.attempt);
      assert t.acks !! outs;
      DisjointFit(t.acks, outs, c.followers);
      assert !QuorumMet(c, t);
    }
    forall f | f in outs
      ensures f < |s'.followers| && Out(s', f, length)
    {
      OutStays(c, s, step, f, length);
    }
    forall a | Active(s', a)
      ensures s'.attempts[a].offset == length && s'.attempts[a].stored !! outs
    {
      if a < |s.attempts| {
        assert Active(s, a);
        StoredStaysIn(c, s, step, a, length, outs);
      }
    }
  }

  /** A follower that is out stores no record at the leader's length. */
  lemma StoredStaysIn(c: Config, s: State, step: Step, a: nat, length: nat, outs: set<nat>)
    requires Stuck(c, s, length, outs) && Active(s, a)
    ensures var s' := Apply(c, s, step);
      a < |s'.attempts| && s'.attempts[a].offset == length && s'.attempts[a].stored !! outs
  {
    if step.Deliver? && step.attempt == a && step.follower in outs {
      assert Out(s, step.follower, length);
    }
  }

  lemma {:induction false} StuckRun(c: Config, s: State, steps: seq<Step>, length: nat, outs: set<nat>)
    requires Stuck(c, s, length, outs)
    requires c.required >= 1 && |outs| > c.followers - c.required
    ensures Stuck(c, RunFrom(c, s, steps), length, outs) && RunFrom(c, s, steps).leader == s.leader
  {
    hide Stuck, Apply;
    if steps != [] {
      StuckRun(c, s, steps[..|steps| - 1], length, outs);
      StuckStep(c, RunFrom(c, s, steps[..|steps| - 1]), steps[|steps| - 1], length, outs);
    }
  }

  /** A follower that is ahead accepts nothing while the leader's log stands still. Once so
      many are ahead that the others cannot form a quorum, it does for good. */
  lemma WedgedForever(c: Config, steps: seq<Step>, more: seq<Step>)
    requires c.required >= 1 && Idle(Run(c, steps))
    requires |Ahead(Run(c, steps))| > c.followers - c.required
    ensures RunFrom(c, Run(c, steps), more).leader == Run(c, steps).leader
  {
    var s := Run(c, steps);
    RunLinked(c, steps);
    StuckRun(c, s, more, |s.leader|, Ahead(s));
  }

  /** It takes one publish that is stored by the followers and then fails, as with the
      deployed two followers and one required acknowledgement. */
  lemma OneFailureCanWedge(m: Message) returns (steps: seq<Step>)
    ensures var c := Config(2, 1); var s := Run(c, steps);
      Serial(c, steps) && Idle(s) && |Ahead(s)| > c.followers - c.required
  {
    var c := Config(2, 1);
    var s1 := [Begin(m)];
    var s2 := s1 + [Deliver(0, 0)];
    var s3 := s2 + [Deliver(0, 1)];
    steps := s3 + [GiveUp(0)];
    assert [] + [Begin(m)] == s1;
    RunSnoc(c, [], Begin(m));
    RunSnoc(c, s1, Deliver(0, 0));
    RunSnoc(c, s2, Deliver(0, 1));
    RunSnoc(c, s3, GiveUp(0));
    assert steps[..0] == [];
    assert Ahead(Run(c, steps)) == {0, 1};
  }

  // ---------------------------------------------------------------- when publishing goes on

  lemma RunFromSnoc(c: Config, s: State, steps: seq<Step>, step: Step)
    ensures RunFrom(c, s, steps + [step]) == Apply(c, RunFrom(c, s, steps), step)
  {
    assert (steps + [step])[..|steps|] == steps;
  }

  /** Followers at the attempt's offset store its record and are counted. */
  ghost predicate Acknowledged(s: State, s': State, a: nat, fs: set<nat>)
    requires Active(s, a)
  {
    && s'.leader == s.leader && |s'.followers| == |s.followers|
    && Active(s', a) && s'.attempts[a].message == s.attempts[a].message && s'.attempts[a].offset == s.attempts[a].offset
    && fs <= s'.attempts[a].acks
    && forall g :: 0 <= g < |s.followers| && g !in fs ==>
         s'.followers[g] == s.followers[g] && (UnderWay(s, a, g) ==> UnderWay(s', a, g))
  }

  lemma ReplicateTo(c: Config, s: State, a: nat, fs: set<nat>) returns (steps: seq<Step>)
    requires FansOut(c) && Active(s, a)
    requires forall f :: f in fs ==>
      f < |s.followers| && |s.followers[f]| == s.attempts[a].offset && UnderWay(s, a, f)
    ensures Acknowledged(s, RunFrom(c, s, steps), a, fs)
    ensures |steps| == 2 * |fs| && OnlyAbout(steps, a)
  {
    hide RunFrom, Apply, Acknowledged, OnlyAbout;
    if fs == {} {
      steps := [];
      NoneAcknowledged(c, s, a);
    } else {
      var f :| f in fs;
      var before := ReplicateTo(c, s, a, fs - {f});
      var t := RunFrom(c, s, before);
      steps := before + [Deliver(a, f)] + [Reply(a, f)];
      NotYetAcknowledged(s, t, a, fs - {f}, f);
      DeliverAndReply(c, t, a, f);
      RunFromSnoc(c, s, before, Deliver(a, f));
      RunFromSnoc(c, s, before + [Deliver(a, f)], Reply(a, f));
      AcknowledgedBoth(s, t, RunFrom(c, s, steps), a, fs, f);
      TwoMore(before, a, f);
    }
  }

  lemma NoneAcknowledged(c: Config, s: State, a: nat)
    requires Active(s, a)
    ensures Acknowledged(s, RunFrom(c, s, []), a, {}) && OnlyAbout([], a)
  {
  }

  lemma TwoMore(steps: seq<Step>, a: nat, f: nat)
    requires OnlyAbout(steps, a)
    ensures OnlyAbout(steps + [Deliver(a, f)] + [Reply(a, f)], a)
  {
  }

  lemma NotYetAcknowledged(s: State, t: State, a: nat, fs: set<nat>, f: nat)
    requires Active(s, a) && Acknowledged(s, t, a, fs) && f !in fs && f < |s.followers| && UnderWay(s, a, f)
    ensures Active(t, a) && f < |t.followers| && t.followers[f] == s.followers[f] && UnderWay(t, a, f)
    ensures t.attempts[a].offset == s.attempts[a].offset
  {
  }

  /** The steps are deliveries and replies of one attempt. */
  ghost predicate OnlyAbout(steps: seq<Step>, a: nat) {
    forall i :: 0 <= i < |steps| ==> (steps[i].Deliver? || steps[i].Reply?) && steps[i].attempt == a
  }

  lemma AcknowledgedBoth(s: State, t: State, u: State, a: nat, fs: set<nat>, f: nat)
    requires Active(s, a) && Active(t, a) && f in fs
    requires Acknowledged(s, t, a, fs - {f}) && Acknowledged(t, u, a, {f}) && t.attempts[a].acks <= u.attempts[a].acks
    ensures Acknowledged(s, u, a, fs)
  {
  }

  lemma DeliverAndReply(c: Config, s: State, a: nat, f: nat)
    requires FansOut(c) && Active(s, a) && f < |s.followers| && |s.followers[f]| == s.attempts[a].offset
    requires UnderWay(s, a, f)
    ensures var s' := Apply(c, Apply(c, s, Deliver(a, f)), Reply(a, f));
      Acknowledged(s, s', a, {f}) && s.attempts[a].acks <= s'.attempts[a].acks
  {
  }

  /** The partner of `WedgedForever`: while enough followers are in step with the leader, a
      new publish can still be completed. */
  lemma InStepCanPublish(c: Config, s: State, m: Message, fs: set<nat>) returns (steps: seq<Step>)
    requires FansOut(c) && |fs| >= c.required
    requires forall f :: f in fs ==> f < |s.followers| && |s.followers[f]| == |s.leader|
    ensures RunFrom(c, s, steps).leader == s.leader + [Entry(|s.attempts|, m)]
  {
    var s1 := Apply(c, s, Begin(m));
    assert RunFrom(c, s, []) == s;
    RunFromSnoc(c, s, [], Begin(m));
    assert [] + [Begin(m)] == [Begin(m)];
    hide RunFrom;
    var rest := Complete(c, s1, |s.attempts|, fs);
    steps := [Begin(m)] + rest;
    RunFromConcat(c, s, [Begin(m)], rest);
  }

  /** Up to the quorum: a new attempt begins, and the followers `fs`, level with the leader,
      store its record and are counted. */
  lemma GatherQuorum(c: Config, s: State, m: Message, fs: set<nat>) returns (steps: seq<Step>)
    requires |s.followers| == c.followers && |fs| >= c.required
    requires forall f :: f in fs ==> f < |s.followers| && |s.followers[f]| == |s.leader|
    ensures var t, a := RunFrom(c, s, steps), |s.attempts|;
      && t.leader == s.leader && Active(t, a) && QuorumMet(c, t.attempts[a])
      && t.attempts[a].message == m && t.attempts[a].offset == |s.leader|
    ensures 1 <= |steps| <= 1 + 2 * |fs| && steps[..1] == [Begin(m)] && OnlyAbout(steps[1..], |s.attempts|)
  {
    var a, s1 := |s.attempts|, Apply(c, s, Begin(m));
    assert RunFrom(c, s, []) == s;
    RunFromSnoc(c, s, [], Begin(m));
    assert [] + [Begin(m)] == [Begin(m)];
    hide RunFrom;
    if c.required <= 0 {
      steps := [Begin(m)];
    } else {
      assert c.required <= c.followers by {
        Subset(fs, Range(0, c.followers));
      }
      var rest := ReplicateTo(c, s1, a, fs);
      steps := [Begin(m)] + rest;
      RunFromConcat(c, s, [Begin(m)], rest);
      Subset(fs, RunFrom(c, s, steps).attempts[a].acks);
    }
  }

  /** An attempt whose offset is the next one of the leader and of enough followers can be
      completed. */
  lemma Complete(c: Config, s: State, a: nat, fs: set<nat>) returns (steps: seq<Step>)
    requires FansOut(c) && Active(s, a) && s.attempts[a].offset == |s.leader| && |fs| >= c.required
    requires forall f :: f in fs ==> f < |s.followers| && |s.followers[f]| == |s.leader| && UnderWay(s, a, f)
    ensures RunFrom(c, s, steps).leader == s.leader + [Entry(a, s.attempts[a].message)]
  {
    var replicate := ReplicateTo(c, s, a, fs);
    RunFromSnoc(c, s, replicate, LeaderAppend(a));
    steps := replicate + [LeaderAppend(a)];
    hide RunFrom;
    Subset(fs, RunFrom(c, s, replicate).attempts[a].acks);
  }

  lemma {:induction false} RunFromConcat(c: Config, s: State, a: seq<Step>, b: seq<Step>)
    ensures RunFrom(c, s, a + b) == RunFrom(c, RunFrom(c, s, a), b)
  {
    hide Apply;
    if b == [] {
      assert a + b == a;
    } else {
      var before, last := b[..|b| - 1], b[|b| - 1];
      RunFromConcat(c, s, a, before);
      assert (a + b)[..|a + b| - 1] == a + before && (a + b)[|a + b| - 1] == last;
    }
  }

  /** Follower `f` can still come level with the leader: for every entry it lacks some
      request with that offset is under way to it. */
  ghost predicate CanJoin(s: State, f: nat)
    requires f < |s.followers|
  {
    |s.followers[f]| <= |s.leader| && forall k :: |s.followers[f]| <= k < |s.leader| ==> !Unsupplied(s, f, k)
  }

  ghost function Joinable(s: State): set<nat> {
    set f | 0 <= f < |s.followers| && CanJoin(s, f)
  }

  /** Deliveries that only bring the followers `fs` up to the leader's length. */
  ghost predicate CaughtUp(s: State, s': State, fs: set<nat>) {
    && s'.leader == s.leader && |s'.followers| == |s.followers| && |s'.attempts| == |s.attempts|
    && (forall a, f :: f !in fs ==> (UnderWay(s', a, f) <==> UnderWay(s, a, f)))
    && (forall a :: 0 <= a < |s.attempts| ==> s'.attempts[a].offset == s.attempts[a].offset)
    && (forall f :: 0 <= f < |s.followers| ==>
          if f in fs then |s'.followers[f]| == |s.leader| else s'.followers[f] == s.followers[f])
  }

  /** What a delivery at the follower's next offset leaves to be joined. */
  lemma JoinStep(c: Config, s: State, a: nat, f: nat)
    requires FansOut(c) && f < |s.followers| && CanJoin(s, f) && |s.followers[f]| < |s.leader|
    requires UnderWay(s, a, f) && s.attempts[a].offset == |s.followers[f]|
    ensures var s' := Apply(c, s, Deliver(a, f));
      && s'.leader == s.leader && |s'.followers| == |s.followers| && |s'.attempts| == |s.attempts|
      && |s'.followers[f]| == |s.followers[f]| + 1 && CanJoin(s', f)
  {
    var s' := Apply(c, s, Deliver(a, f));
    forall k | |s'.followers[f]| <= k < |s'.leader|
      ensures !Unsupplied(s', f, k)
    {
      assert !Unsupplied(s, f, k);
      var b :| UnderWay(s, b, f) && s.attempts[b].offset == k;
      assert UnderWay(s', b, f) && s'.attempts[b].offset == k;
    }
  }

  lemma {:induction false} CatchUp(c: Config, s: State, f: nat) returns (steps: seq<Step>)
    requires FansOut(c) && f < |s.followers| && CanJoin(s, f)
    ensures CaughtUp(s, RunFrom(c, s, steps), {f})
    decreases |s.leader| - |s.followers[f]|
  {
    var k := |s.followers[f]|;
    if k == |s.leader| {
      steps := [];
    } else {
      assert !Unsupplied(s, f, k);
      var a :| UnderWay(s, a, f) && s.attempts[a].offset == k;
      var step := Deliver(a, f);
      assert RunFrom(c, s, []) == s;
      RunFromSnoc(c, s, [], step);
      assert [] + [step] == [step];
      JoinStep(c, s, a, f);
      hide RunFrom, CanJoin, Unsupplied;
      var s1 := Apply(c, s, step);
      var rest := CatchUp(c, s1, f);
      steps := [step] + rest;
      RunFromConcat(c, s, [step], rest);
    }
  }

  lemma {:induction false} CatchUpAll(c: Config, s: State, fs: set<nat>) returns (steps: seq<Step>)
    requires FansOut(c) && fs <= Joinable(s)
    ensures CaughtUp(s, RunFrom(c, s, steps), fs)
  {
    if fs == {} {
      steps := [];
    } else {
      var f :| f in fs;
      var before := CatchUpAll(c, s, fs - {f});
      hide RunFrom;
      var t := RunFrom(c, s, before);
      StillJoins(s, t, fs - {f}, f);
      var last := CatchUp(c, t, f);
      RunFromConcat(c, s, before, last);
      steps := before + last;
      CaughtUpBoth(s, t, RunFrom(c, s, steps), fs, f);
    }
  }

  lemma CaughtUpBoth(s: State, t: State, u: State, fs: set<nat>, f: nat)
    requires f in fs && CaughtUp(s, t, fs - {f}) && CaughtUp(t, u, {f})
    ensures CaughtUp(s, u, fs)
  {
  }

  lemma StillJoins(s: State, t: State, fs: set<nat>, f: nat)
    requires CaughtUp(s, t, fs) && f !in fs && f in Joinable(s)
    ensures f < |t.followers| && CanJoin(t, f)
  {
    forall k | |t.followers[f]| <= k < |t.leader|
      ensures !Unsupplied(t, f, k)
    {
      assert !Unsupplied(s, f, k);
      var b :| UnderWay(s, b, f) && s.attempts[b].offset == k;
      assert UnderWay(t, b, f) && t.attempts[b].offset == k;
    }
  }

  /** The exact condition, for every configuration and every run: an idle partition can
      still accept a publish if and only if the followers that can come level with the
      leader are enough for the quorum. */
  lemma AcceptsExactlyWhileJoinable(c: Config, steps: seq<Step>)
    requires Idle(Run(c, steps))
    ensures var s := Run(c, steps);
      (exists more :: RunFrom(c, s, more).leader != s.leader) <==> |Joinable(s)| >= c.required
  {
    var s := Run(c, steps);
    RunLinked(c, steps);
    if |Joinable(s)| >= c.required {
      var more := Joins(c, s, Message([], [], [], []));
      assert RunFrom(c, s, more).leader != s.leader;
    } else {
      var outs := Range(0, c.followers) - Joinable(s);
      assert |outs| > c.followers - c.required by {
        assert Joinable(s) <= Range(0, c.followers);
      }
      OutsideIsStuck(c, s, outs);
      forall more
        ensures RunFrom(c, s, more).leader == s.leader
      {
        StuckRun(c, s, more, |s.leader|, outs);
      }
    }
  }

  lemma OutsideIsStuck(c: Config, s: State, outs: set<nat>)
    requires Linked(c, s) && Idle(s) && outs == Range(0, c.followers) - Joinable(s)
    ensures Stuck(c, s, |s.leader|, outs)
  {
    forall f | f in outs
      ensures f < |s.followers| && Out(s, f, |s.leader|)
    {
      assert f !in Joinable(s);
    }
  }

  lemma Joins(c: Config, s: State, m: Message) returns (steps: seq<Step>)
    requires |s.followers| == c.followers && |Joinable(s)| >= c.required
    ensures RunFrom(c, s, steps).leader == s.leader + [Entry(|s.attempts|, m)]
  {
    if c.required <= 0 {
      steps := PublishAlone(c, s, m);
    } else {
      assert c.required <= c.followers by {
        Subset(Joinable(s), Range(0, c.followers));
      }
      hide RunFrom;
      var catchUp := CatchUpAll(c, s, Joinable(s));
      var publish := InStepCanPublish(c, RunFrom(c, s, catchUp), m, Joinable(s));
      RunFromConcat(c, s, catchUp, publish);
      steps := catchUp + publish;
    }
  }

  lemma PublishAlone(c: Config, s: State, m: Message) returns (steps: seq<Step>)
    requires c.required <= 0
    ensures RunFrom(c, s, steps).leader == s.leader + [Entry(|s.attempts|, m)]
  {
    var a := |s.attempts|;
    steps := [] + [Begin(m)] + [LeaderAppend(a)];
    assert RunFrom(c, s, []) == s;
    RunFromSnoc(c, s, [], Begin(m));
    RunFromSnoc(c, s, [] + [Begin(m)], LeaderAppend(a));
  }

  /** Being ahead is not the only way to be out. One lost request and one publish that is
      stored and then fails are enough for the deployed two followers and one required
      acknowledgement: one follower is ahead, the other lags for good. */
  lemma LaggingCanWedge(m: Message) returns (steps: seq<Step>)
    ensures var c := Config(2, 1); var s := Run(c, steps);
      && Serial(c, steps) && Idle(s) && |Ahead(s)| == 1
      && |s.followers| == 2 && |s.followers[1]| < |s.leader|
      && forall more :: RunFrom(c, s, more).leader == s.leader
  {
    var c := Config(2, 1);
    steps := LaggingSteps(m);
    LaggingRun(m);
    RunLinked(c, steps);
    hide Run, Apply, Linked, NoneBeyond, RunFrom;
    var s := Run(c, steps);
    assert Ahead(s) == {0};
    assert Unsupplied(s, 1, 0);
    forall more
      ensures RunFrom(c, s, more).leader == s.leader
    {
      StuckRun(c, s, more, 1, {0, 1});
    }
  }

  function LaggingSteps(m: Message): seq<Step> {
    [Begin(m), Deliver(0, 0), Lose(0, 1), Reply(0, 0), LeaderAppend(0), Begin(m), Deliver(1, 0), GiveUp(1)]
  }

  lemma LaggingRun(m: Message)
    ensures var c, t := Config(2, 1), Attempt(m, 0, {0, 1}, {0}, {0}, Appended);
      && Run(c, LaggingSteps(m)[..0]) == Init(c)
      && Run(c, LaggingSteps(m)[..5]) == State([Entry(0, m)], [[Entry(0, m)], []], [t])
      && Run(c, LaggingSteps(m)) ==
           State([Entry(0, m)], [[Entry(0, m), Entry(1, m)], []], [t, Attempt(m, 1, {0}, {0}, {}, Failed)])
  {
    var c, all := Config(2, 1), LaggingSteps(m);
    assert all[..0] == [] && all[..8] == all;
    assert Run(c, []) == Init(c);
    hide Run, Apply;
    RunTake(c, all, 0);
    RunTake(c, all, 1);
    RunTake(c, all, 2);
    RunTake(c, all, 3);
    RunTake(c, all, 4);
    LaggingFirst(m);
    RunTake(c, all, 5);
    RunTake(c, all, 6);
    RunTake(c, all, 7);
    LaggingSecond(m);
  }

  lemma LaggingFirst(m: Message)
    ensures var c := Config(2, 1);
      var s1 := Apply(c, Init(c), Begin(m));
      var s3 := Apply(c, Apply(c, s1, Deliver(0, 0)), Lose(0, 1));
      && Apply(c, Apply(c, s3, Reply(0, 0)), LeaderAppend(0)) ==
           State([Entry(0, m)], [[Entry(0, m)], []], [Attempt(m, 0, {0, 1}, {0}, {0}, Appended)])
  {
    var c := Config(2, 1);
    var s1 := Apply(c, Init(c), Begin(m));
    assert s1 == State([], [[], []], [Fresh(m, 0)]);
    var s2 := Apply(c, s1, Deliver(0, 0));
    assert s2.attempts[0] == Attempt(m, 0, {0}, {0}, {}, Replicating);
    assert s2.followers == [[Entry(0, m)], []] by { assert [] + [Entry(0, m)] == [Entry(0, m)]; }
    var s3 := Apply(c, s2, Lose(0, 1));
    assert s3.attempts[0] == Attempt(m, 0, {0, 1}, {0}, {}, Replicating);
    var s4 := Apply(c, s3, Reply(0, 0));
    assert s4.attempts[0] == Attempt(m, 0, {0, 1}, {0}, {0}, Replicating);
    var s5 := Apply(c, s4, LeaderAppend(0));
    assert s5.attempts == [Attempt(m, 0, {0, 1}, {0}, {0}, Appended)];
  }

  lemma LaggingSecond(m: Message)
    ensures var c, t := Config(2, 1), Attempt(m, 0, {0, 1}, {0}, {0}, Appended);
      var s1 := Apply(c, State([Entry(0, m)], [[Entry(0, m)], []], [t]), Begin(m));
      && Apply(c, Apply(c, s1, Deliver(1, 0)), GiveUp(1)) ==
           State([Entry(0, m)], [[Entry(0, m), Entry(1, m)], []], [t, Attempt(m, 1, {0}, {0}, {}, Failed)])
  {
    var c, t := Config(2, 1), Attempt(m, 0, {0, 1}, {0}, {0}, Appended);
    var s1 := Apply(c, State([Entry(0, m)], [[Entry(0, m)], []], [t]), Begin(m));
    assert s1.attempts == [t, Fresh(m, 1)];
    var s2 := Apply(c, s1, Deliver(1, 0));
    assert s2.attempts[1] == Attempt(m, 1, {0}, {0}, {}, Replicating);
    assert s2.followers[0] == [Entry(0, m), Entry(1, m)];
    var s3 := Apply(c, s2, GiveUp(1));
    assert s3.attempts == [t, Attempt(m, 1, {0}, {0}, {}, Failed)];
  }

  lemma RunTake(c: Config, steps: seq<Step>, n: nat)
    requires n < |steps|
    ensures Run(c, steps[..n + 1]) == Apply(c, Run(c, steps[..n]), steps[n])
  {
    assert steps[..n + 1] == steps[..n] + [steps[n]];
    RunSnoc(c, steps[..n], steps[n]);
  }

  // ---------------------------------------------------------------- coming back into step

  function PublishSteps(a: nat, m: Message, f: nat): seq<Step> {
    [Begin(m), Deliver(a, f), Reply(a, f), LeaderAppend(a)]
  }

  function FailSteps(a: nat, m: Message, f: nat): seq<Step> {
    [Begin(m), Deliver(a, f), GiveUp(a)]
  }

  /** The state after a follower level with the leader has stored a new attempt's record. */
  function AfterStore(s: State, m: Message, f: nat): State
    requires f < |s.followers|
  {
    var e := Entry(|s.attempts|, m);
    s.(followers := s.followers[f := s.followers[f] + [e]],
       attempts := s.attempts + [Attempt(m, |s.leader|, {f}, {f}, {}, Replicating)])
  }

  lemma StoreVia(c: Config, s: State, m: Message, f: nat)
    requires FansOut(c) && f < |s.followers| && |s.followers[f]| == |s.leader|
    ensures Apply(c, Apply(c, s, Begin(m)), Deliver(|s.attempts|, f)) == AfterStore(s, m, f)
  {
    var s1 := Apply(c, Apply(c, s, Begin(m)), Deliver(|s.attempts|, f));
    assert s1.attempts[|s.attempts|] == Attempt(m, |s.leader|, {f}, {f}, {}, Replicating);
    assert s1.attempts == AfterStore(s, m, f).attempts;
  }

  /** A publish that one follower carries alone. */
  lemma PublishVia(c: Config, s: State, m: Message, f: nat)
    requires FansOut(c) && c.required == 1 && f < |s.followers| && |s.followers[f]| == |s.leader|
    ensures var a := |s.attempts|;
      RunFrom(c, s, PublishSteps(a, m, f)) ==
        AfterStore(s, m, f).(leader := s.leader + [Entry(a, m)],
                             attempts := s.attempts + [Attempt(m, |s.leader|, {f}, {f}, {f}, Appended)])
  {
    var a := |s.attempts|;
    StoreVia(c, s, m, f);
    FourSteps(c, s, PublishSteps(a, m, f));
    hide RunFrom;
    var s2 := Apply(c, AfterStore(s, m, f), Reply(a, f));
    assert s2.attempts[a] == Attempt(m, |s.leader|, {f}, {f}, {f}, Replicating);
    var s3 := Apply(c, s2, LeaderAppend(a));
    assert s3.attempts == s.attempts + [Attempt(m, |s.leader|, {f}, {f}, {f}, Appended)];
  }

  /** A publish that one follower stores and that then fails. */
  lemma FailVia(c: Config, s: State, m: Message, f: nat)
    requires FansOut(c) && f < |s.followers| && |s.followers[f]| == |s.leader|
    ensures var a := |s.attempts|;
      RunFrom(c, s, FailSteps(a, m, f)) ==
        AfterStore(s, m, f).(attempts := s.attempts + [Attempt(m, |s.leader|, {f}, {f}, {}, Failed)])
  {
    var a := |s.attempts|;
    StoreVia(c, s, m, f);
    var all := FailSteps(a, m, f);
    assert RunFrom(c, s, all[..0]) == s;
    RunFromTake(c, s, all, 0);
    RunFromTake(c, s, all, 1);
    RunFromTake(c, s, all, 2);
    assert all[..3] == all;
    hide RunFrom;
    var s2 := Apply(c, AfterStore(s, m, f), GiveUp(a));
    assert s2.attempts == s.attempts + [Attempt(m, |s.leader|, {f}, {f}, {}, Failed)];
  }

  lemma FourSteps(c: Config, s: State, all: seq<Step>)
    requires |all| == 4
    ensures RunFrom(c, s, all) == Apply(c, Apply(c, Apply(c, Apply(c, s, all[0]), all[1]), all[2]), all[3])
  {
    assert RunFrom(c, s, all[..0]) == s;
    RunFromTake(c, s, all, 0);
    RunFromTake(c, s, all, 1);
    RunFromTake(c, s, all, 2);
    RunFromTake(c, s, all, 3);
    assert all[..4] == all;
  }

  lemma RunFromTake(c: Config, s: State, steps: seq<Step>, n: nat)
    requires n < |steps|
    ensures RunFrom(c, s, steps[..n + 1]) == Apply(c, RunFrom(c, s, steps[..n]), steps[n])
  {
    hide Apply;
    assert steps[..n + 1][..n] == steps[..n];
  }

  /** A follower that stored a failed record is ahead only until the leader passes it through
      others. Then it is level again with its differing entry, and its acknowledgement alone
      carries the next publish. */
  lemma FailedFollowerRejoins(m: Message) returns (steps: seq<Step>)
    ensures var c := Config(2, 1); var s := Run(c, steps); var e0, e1, e2 := Entry(0, m), Entry(1, m), Entry(2, m);
      && Serial(c, steps) && Idle(s)
      && s.leader == [e1, e2] && s.followers == [[e0, e2], [e1]]
      && |s.attempts| == 3 && s.attempts[0].phase == Failed && s.attempts[2].acks == {0}
  {
    var c := Config(2, 1);
    var a, b, d := FailSteps(0, m, 0), PublishSteps(1, m, 1), PublishSteps(2, m, 0);
    OnlyFirstBegins(m);
    hide RunFrom, Apply, FailSteps, PublishSteps;
    steps := a + b + d;
    var s0 := Init(c);
    EmptyRun(c, s0);
    RejoinFirst(m);
    RejoinSecond(m);
    RejoinThird(m);
    RunFromConcat(c, s0, a, b);
    RunFromConcat(c, s0, a + b, d);
    assert steps[..0] == [] && steps[..|a|] == a && steps[..|a + b|] == a + b;
    forall i | 0 <= i < |steps| && steps[i].Begin?
      ensures Idle(Run(c, steps[..i]))
    {
      assert i == 0 || i == |a| || i == |a + b|;
    }
  }

  lemma OnlyFirstBegins(m: Message)
    ensures |FailSteps(0, m, 0)| == 3 && |PublishSteps(1, m, 1)| == |PublishSteps(2, m, 0)| == 4
    ensures forall i :: 0 < i < 3 ==> !FailSteps(0, m, 0)[i].Begin?
    ensures forall i :: 0 < i < 4 ==> !PublishSteps(1, m, 1)[i].Begin? && !PublishSteps(2, m, 0)[i].Begin?
  {
  }

  function Rejoining(m: Message, n: nat): State {
    var e0, e1, e2 := Entry(0, m), Entry(1, m), Entry(2, m);
    var t0 := Attempt(m, 0, {0}, {0}, {}, Failed);
    var t1, t2 := Attempt(m, 0, {1}, {1}, {1}, Appended), Attempt(m, 1, {0}, {0}, {0}, Appended);
    if n == 1 then State([], [[e0], []], [t0])
    else if n == 2 then State([e1], [[e0], [e1]], [t0, t1])
    else State([e1, e2], [[e0, e2], [e1]], [t0, t1, t2])
  }

  lemma RejoinFirst(m: Message)
    ensures var c := Config(2, 1); RunFrom(c, Init(c), FailSteps(0, m, 0)) == Rejoining(m, 1)
  {
    hide RunFrom, Apply, FailSteps;
    var c := Config(2, 1);
    FailVia(c, Init(c), m, 0);
    var s := RunFrom(c, Init(c), FailSteps(0, m, 0));
    assert s.followers[0] == [Entry(0, m)] && s.followers[1] == [];
  }

  lemma RejoinSecond(m: Message)
    ensures RunFrom(Config(2, 1), Rejoining(m, 1), PublishSteps(1, m, 1)) == Rejoining(m, 2)
  {
    hide RunFrom, Apply, PublishSteps;
    PublishVia(Config(2, 1), Rejoining(m, 1), m, 1);
    var s := RunFrom(Config(2, 1), Rejoining(m, 1), PublishSteps(1, m, 1));
    assert s.followers[0] == [Entry(0, m)] && s.followers[1] == [Entry(1, m)];
  }

  lemma RejoinThird(m: Message)
    ensures RunFrom(Config(2, 1), Rejoining(m, 2), PublishSteps(2, m, 0)) == Rejoining(m, 3)
  {
    hide RunFrom, Apply, PublishSteps;
    PublishVia(Config(2, 1), Rejoining(m, 2), m, 0);
    var s := RunFrom(Config(2, 1), Rejoining(m, 2), PublishSteps(2, m, 0));
    assert s.followers[0] == [Entry(0, m), Entry(2, m)] && s.followers[1] == [Entry(1, m)];
  }

  lemma EmptyRun(c: Config, s: State)
    ensures RunFrom(c, s, []) == s
  {
  }
}
