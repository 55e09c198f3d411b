/** Fan-out to the followers of a partition and the wait for a quorum: one goroutine per
    follower, a buffered result channel, and a collector that stops at the quorum. */
module ReplicationCoordinator {

  function CountTrue(results: seq<bool>): nat {
    if results == [] then 0 else CountTrue(results[..|results| - 1]) + if results[|results| - 1] then 1 else 0
  }

  /** It is the number of positions that hold true. */
  lemma {:induction false} CountTrueIsNumber(results: seq<bool>)
    ensures CountTrue(results) == |set i | 0 <= i < |results| && results[i]|
  {
    var all := set i | 0 <= i < |results| && results[i];
    if results != [] {
      var n := |results| - 1;
      var before := set i | 0 <= i < |results[..n]| && results[..n][i];
      CountTrueIsNumber(results[..n]);
      assert all == before + if results[n] then {n} else {};
    } else {
      assert all == {};
    }
  }

  lemma {:induction false} CountTrueSplit(results: seq<bool>, n: nat)
    requires n <= |results|
    ensures CountTrue(results) == CountTrue(results[..n]) + CountTrue(results[n..])
  {
    if n == |results| {
      assert results[..n] == results;
    } else {
      var before := results[..|results| - 1];
      CountTrueSplit(before, n);
      assert before[..n] == results[..n];
      assert results[n..][..|results[n..]| - 1] == before[n..];
    }
  }

  /** The collector, given the follower results in their order of arrival. */
  class Coordinator {
    const required: int
    var quorumFailures: nat

    constructor (required: int)
      ensures this.required == required && quorumFailures == 0
    {
      this.required := required;
      quorumFailures := 0;
    }

    /** Success does not depend on the arrival order: it is decided by how many followers
        succeed. Results past the deciding one are not looked at. */
    method Replicate(results: seq<bool>) returns (ok: bool, received: nat)
      modifies this
      ensures ok <==> required <= 0 || (required <= |results| && CountTrue(results) >= required)
      ensures quorumFailures == old(quorumFailures) + if ok then 0 else 1
      ensures required <= 0 || required > |results| ==> received == 0
      ensures received <= |results|
      ensures 1 <= required <= |results| && ok ==>
        CountTrue(results[..received]) == required && received > 0 && results[received - 1]
      ensures 1 <= required <= |results| && !ok ==> received == |results|
    {
      received := 0;
      if required <= 0 {
        return true, 0;
      }
      if required > |results| {
        quorumFailures := quorumFailures + 1;
        return false, 0;
      }
      var succeeded := 0;
      while received < |results|
        invariant 0 <= received <= |results|
        invariant succeeded == CountTrue(results[..received]) < required
        invariant quorumFailures == old(quorumFailures)
      {
        assert results[..received + 1][..received] == results[..received];
        received := received + 1;
        if !results[received - 1] {
          continue;
        }
        succeeded := succeeded + 1;
        if succeeded >= required {
          CountTrueSplit(results, received);
          return true, received;
        }
      }
      assert results[..received] == results;
      quorumFailures := quorumFailures + 1;
      ok := false;
    }
  }

  // ---------------------------------------------------------------- the goroutines

  datatype Worker = Waiting | Running | Finished(ok: bool) | Sent(ok: bool)

  datatype Collector = Collecting | Succeeded | QuorumError

  datatype State = State(
    workers: seq<Worker>, channel: seq<bool>, received: nat, succeeded: nat, collector: Collector,
    attempts: nat, successes: nat, failures: nat, quorumFailures: nat)

  datatype Step = Launch(i: nat) | Finish(i: nat, ok: bool) | Send(i: nat) | Receive

  /** Nobody is contacted when no acknowledgement is required or too few followers exist. */
  function Init(n: nat, required: int): State {
    var workers := seq(n, i => Waiting);
    if required <= 0 then State(workers, [], 0, 0, Succeeded, 0, 0, 0, 0)
    else if required > n then State(workers, [], 0, 0, QuorumError, 0, 0, 0, 1)
    else State(workers, [], 0, 0, Collecting, 0, 0, 0, 0)
  }

  /** One step; a step that is not enabled changes nothing. A send needs room in the channel,
      which is as large as the number of followers. */
  function Apply(n: nat, required: int, s: State, step: Step): State {
    match step
    case Launch(i) =>
      if 1 <= required <= n && i < |s.workers| && s.workers[i].Waiting? then
        s.(workers := s.workers[i := Running], attempts := s.attempts + 1)
      else s
    case Finish(i, ok) =>
      if i < |s.workers| && s.workers[i].Running? then
        s.(workers := s.workers[i := Finished(ok)],
           successes := s.successes + if ok then 1 else 0,
           failures := s.failures + if ok then 0 else 1)
      else s
    case Send(i) =>
      if i < |s.workers| && s.workers[i].Finished? && |s.channel| < n then
        s.(workers := s.workers[i := Sent(s.workers[i].ok)], channel := s.channel + [s.workers[i].ok])
      else s
    case Receive =>
      if s.collector.Collecting? && s.channel != [] then
        var succeeded := s.succeeded + if s.channel[0] then 1 else 0;
        var t := s.(channel := s.channel[1..], received := s.received + 1, succeeded := succeeded);
        if s.channel[0] && succeeded >= required then t.(collector := Succeeded)
        else if t.received == n then t.(collector := QuorumError, quorumFailures := s.quorumFailures + 1)
        else t
      else s
  }

  function Run(n: nat, required: int, steps: seq<Step>): State {
    if steps == [] then Init(n, required)
    else Apply(n, required, Run(n, required, steps[..|steps| - 1]), steps[|steps| - 1])
  }

  // ---------------------------------------------------------------- counting workers

  function Count(ws: seq<Worker>, f: Worker -> bool): nat {
    if ws == [] then 0 else Count(ws[..|ws| - 1], f) + if f(ws[|ws| - 1]) then 1 else 0
  }

  lemma {:induction false} CountUpdate(ws: seq<Worker>, f: Worker -> bool, i: nat, w: Worker)
    requires i < |ws|
    ensures Count(ws[i := w], f) + (if f(ws[i]) then 1 else 0) == Count(ws, f) + if f(w) then 1 else 0
  {
    var n := |ws| - 1;
    if i == n {
      assert ws[i := w][..n] == ws[..n];
    } else {
      CountUpdate(ws[..n], f, i, w);
      assert ws[i := w][..n] == ws[..n][i := w];
    }
  }

  lemma {:induction false} CountBound(ws: seq<Worker>, f: Worker -> bool)
    ensures Count(ws, f) <= |ws|
    ensures (exists i :: 0 <= i < |ws| && !f(ws[i])) ==> Count(ws, f) < |ws|
    ensures (forall i :: 0 <= i < |ws| ==> !f(ws[i])) ==> Count(ws, f) == 0
  {
    if ws != [] { CountBound(ws[..|ws| - 1], f); }
  }

  predicate IsRunning(w: Worker) { w.Running? }
  predicate IsLaunched(w: Worker) { !w.Waiting? }
  predicate IsSent(w: Worker) { w.Sent? }
  predicate Won(w: Worker) { (w.Finished? || w.Sent?) && w.ok }
  predicate Lost(w: Worker) { (w.Finished? || w.Sent?) && !w.ok }
  predicate SentOk(w: Worker) { w.Sent? && w.ok }

  // ---------------------------------------------------------------- the invariant

  ghost predicate Metrics(s: State) {
    && s.attempts == Count(s.workers, IsLaunched)
    && s.successes == Count(s.workers, Won)
    && s.failures == Count(s.workers, Lost)
    && s.attempts == s.successes + s.failures + Count(s.workers, IsRunning)
  }

  ghost predicate Channel(n: nat, s: State) {
    && |s.workers| == n
    && |s.channel| + s.received == Count(s.workers, IsSent)
    && CountTrue(s.channel) + s.succeeded == Count(s.workers, SentOk)
  }

  ghost predicate Decision(n: nat, required: int, s: State) {
    && (s.collector.Collecting? ==> s.received < n && s.succeeded < required <= n)
    && (s.collector.Succeeded? ==> required <= 0 || (required <= n && s.succeeded >= required))
    && (s.collector.QuorumError? ==> required > n || (required >= 1 && s.received == n && s.succeeded < required))
    && s.quorumFailures == if s.collector.QuorumError? then 1 else 0
  }

  lemma MetricsStep(n: nat, required: int, s: State, step: Step)
    requires Metrics(s)
    ensures Metrics(Apply(n, required, s, step))
  {
    var s' := Apply(n, required, s, step);
    if !step.Receive? && s' != s {
      hide Count;
      assert s'.workers == s.workers[step.i := s'.workers[step.i]];
      CountUpdate(s.workers, IsLaunched, step.i, s'.workers[step.i]);
      CountUpdate(s.workers, Won, step.i, s'.workers[step.i]);
      CountUpdate(s.workers, Lost, step.i, s'.workers[step.i]);
      CountUpdate(s.workers, IsRunning, step.i, s'.workers[step.i]);
    }
  }

  lemma ChannelStep(n: nat, required: int, s: State, step: Step)
    requires Channel(n, s)
    ensures Channel(n, Apply(n, required, s, step))
  {
    var s' := Apply(n, required, s, step);
    if s' != s {
      if step.Receive? {
        CountTrueSplit(s.channel, 1);
        assert CountTrue(s.channel[..1]) == if s.channel[0] then 1 else 0;
      } else {
        hide Count;
        assert s'.workers == s.workers[step.i := s'.workers[step.i]];
        CountUpdate(s.workers, IsSent, step.i, s'.workers[step.i]);
        CountUpdate(s.workers, SentOk, step.i, s'.workers[step.i]);
        if step.Send? {
          assert s'.channel[..|s.channel|] == s.channel;
        }
      }
    }
  }

  lemma DecisionStep(n: nat, required: int, s: State, step: Step)
    requires Decision(n, required, s)
    ensures Decision(n, required, Apply(n, required, s, step))
  {
  }

  lemma {:induction false} RunInv(n: nat, required: int, steps: seq<Step>)
    ensures var s := Run(n, required, steps); Metrics(s) && Channel(n, s) && Decision(n, required, s)
  {
    if steps == [] {
      var ws := Init(n, required).workers;
      CountBound(ws, IsLaunched);
      CountBound(ws, Won);
      CountBound(ws, Lost);
      CountBound(ws, IsRunning);
      CountBound(ws, IsSent);
      CountBound(ws, SentOk);
    } else {
      var s := Run(n, required, steps[..|steps| - 1]);
      RunInv(n, required, steps[..|steps| - 1]);
      MetricsStep(n, required, s, steps[|steps| - 1]);
      ChannelStep(n, required, s, steps[|steps| - 1]);
      DecisionStep(n, required, s, steps[|steps| - 1]);
    }
  }

  /** For every order of events: no goroutine ever blocks on the result channel; Attempts =
      Successes + Failures + replicators still running; quorum failures count exactly the
      quorum errors returned. */
  lemma FanOutSafety(n: nat, required: int, steps: seq<Step>, i: nat)
    ensures var s := Run(n, required, steps);
      && (i < |s.workers| && s.workers[i].Finished? ==> |s.channel| < n)
      && s.attempts == s.successes + s.failures + Count(s.workers, IsRunning)
      && s.quorumFailures == if s.collector.QuorumError? then 1 else 0
  {
    RunInv(n, required, steps);
    var s := Run(n, required, steps);
    if i < |s.workers| && s.workers[i].Finished? {
      CountBound(s.workers, IsSent);
    }
  }

  /** Once every goroutine has sent its result: the collector has returned or can receive,
      and what it returns is decided by the number of successes alone. */
  lemma OutcomeIsCount(n: nat, required: int, steps: seq<Step>)
    requires 1 <= required <= n
    requires forall i :: 0 <= i < n ==> i < |Run(n, required, steps).workers| && Run(n, required, steps).workers[i].Sent?
    ensures var s := Run(n, required, steps);
      && (s.collector.Collecting? ==> s.channel != [])
      && (s.collector.Succeeded? ==> Count(s.workers, SentOk) >= required)
      && (s.collector.QuorumError? ==> Count(s.workers, SentOk) < required)
  {
    RunInv(n, required, steps);
    AllCount(Run(n, required, steps).workers, IsSent);
  }

  lemma {:induction false} AllCount(ws: seq<Worker>, f: Worker -> bool)
    requires forall i :: 0 <= i < |ws| ==> f(ws[i])
    ensures Count(ws, f) == |ws|
  {
    if ws != [] { AllCount(ws[..|ws| - 1], f); }
  }

  // ---------------------------------------------------------------- every outcome happens

  lemma RunSnoc(n: nat, required: int, steps: seq<Step>, step: Step)
    ensures Run(n, required, steps + [step]) == Apply(n, required, Run(n, required, steps), step)
  {
    assert (steps + [step])[..|steps|] == steps;
  }

  /** The first `i` followers have answered as `results` says, and the collector has looked at
      what there was. */
  ghost predicate Answered(n: nat, s: State, results: seq<bool>, i: nat)
    requires |results| == n && i <= n
  {
    && |s.workers| == n
    && (forall j :: 0 <= j < i ==> s.workers[j] == Sent(results[j]))
    && (forall j :: i <= j < n ==> s.workers[j] == Waiting)
    && (s.collector.Collecting? ==> s.channel == [])
  }

  lemma {:induction false} Rounds(n: nat, required: int, results: seq<bool>, i: nat) returns (steps: seq<Step>)
    requires |results| == n && i <= n && 1 <= required <= n
    ensures Answered(n, Run(n, required, steps), results, i)
  {
    if i == 0 {
      steps := [];
    } else {
      var before := Rounds(n, required, results, i - 1);
      hide Run, Apply;
      var k := i - 1;
      var a, b, c := before + [Launch(k)], before + [Launch(k)] + [Finish(k, results[k])],
                     before + [Launch(k)] + [Finish(k, results[k])] + [Send(k)];
      RunSnoc(n, required, before, Launch(k));
      RunSnoc(n, required, a, Finish(k, results[k]));
      RunSnoc(n, required, b, Send(k));
      RunSnoc(n, required, c, Receive);
      LaunchFinish(n, required, Run(n, required, before), results, k);
      FanOutSafety(n, required, b, k);
      SendReceive(n, required, Run(n, required, b), results, k);
      steps := c + [Receive];
    }
  }

  lemma LaunchFinish(n: nat, required: int, s: State, results: seq<bool>, k: nat)
    requires |results| == n && k < n && 1 <= required <= n && Answered(n, s, results, k)
    ensures var s' := Apply(n, required, Apply(n, required, s, Launch(k)), Finish(k, results[k]));
      s'.workers == s.workers[k := Finished(results[k])] && s'.channel == s.channel && s'.collector == s.collector
  {
  }

  lemma SendReceive(n: nat, required: int, s: State, results: seq<bool>, k: nat)
    requires |results| == n && k < n && |s.workers| == n && |s.channel| < n
    requires s.workers[k] == Finished(results[k])
    requires forall j :: 0 <= j < k ==> s.workers[j] == Sent(results[j])
    requires forall j :: k < j < n ==> s.workers[j] == Waiting
    requires s.collector.Collecting? ==> s.channel == []
    ensures Answered(n, Apply(n, required, Apply(n, required, s, Send(k)), Receive), results, k + 1)
  {
  }

  /** For every vector of follower results some run sends all of them, the collector returns,
      with success exactly when enough are true, and the metrics count them. */
  lemma EveryOutcome(n: nat, required: int, results: seq<bool>) returns (steps: seq<Step>)
    requires |results| == n && 1 <= required <= n
    ensures var s := Run(n, required, steps);
      && |s.workers| == n && (forall j :: 0 <= j < n ==> s.workers[j] == Sent(results[j]))
      && s.collector == (if CountTrue(results) >= required then Succeeded else QuorumError)
      && s.attempts == n && s.successes == CountTrue(results) && s.failures == n - CountTrue(results)
  {
    steps := Rounds(n, required, results, n);
    RunInv(n, required, steps);
    var s := Run(n, required, steps);
    hide Run, Apply;
    AllCount(s.workers, IsSent);
    AllCount(s.workers, IsLaunched);
    CountBound(s.workers, IsRunning);
    SentCounts(s.workers, results);
    OutcomeIsCount(n, required, steps);
  }

  lemma {:induction false} SentCounts(ws: seq<Worker>, results: seq<bool>)
    requires |ws| == |results| && forall j :: 0 <= j < |ws| ==> ws[j] == Sent(results[j])
    ensures Count(ws, SentOk) == Count(ws, Won) == CountTrue(results)
    ensures Count(ws, IsRunning) == 0
  {
    if ws != [] { SentCounts(ws[..|ws| - 1], results[..|results| - 1]); }
  }

  /** Without a positive quorum that can be met nobody is contacted, in any run, and the call
      returns at once: with success when nothing is required, else with a quorum error. */
  lemma {:induction false} NobodyContacted(n: nat, required: int, steps: seq<Step>)
    requires required <= 0 || required > n
    ensures var s := Run(n, required, steps);
      && s.attempts == 0 && |s.workers| == n && (forall j :: 0 <= j < n ==> s.workers[j] == Waiting)
      && s.collector == (if required <= 0 then Succeeded else QuorumError)
  {
    if steps != [] { NobodyContacted(n, required, steps[..|steps| - 1]); }
  }
}
