/** The result queue between worker threads and the event loop
    (orchestrator/silifuzz_orchestrator.cc, orchestrator/silifuzz_orchestrator_main.cc and
    orchestrator/result_collector.cc).

    The queue is guarded by a mutex, so that a run is an interleaving of atomic actions of the
    workers, the main thread, the clock and the outside. */
module Orchestrator {
  import opened Basics

  // What a runner reports: `failure` says whether a failed snapshot was a runaway.
  datatype RunResult = RunResult(success: bool, failure: Option<bool>)

  datatype Summary = Summary(playCount: nat, numFailed: nat, numRunaway: nat)

  datatype Collector = Collector(summary: Summary, failAfter: int, reportRunaways: bool)

  predicate IsRunaway(r: RunResult) {
    !r.success && r.failure.Some? && r.failure.value
  }

  // A failure that counts towards the limit on errors.
  predicate IsError(reportRunaways: bool, r: RunResult) {
    !r.success && (IsRunaway(r) ==> reportRunaways)
  }

  function AsNat(b: bool): nat {
    if b then 1 else 0
  }

  // The collector after a result.
  function Collected(c: Collector, r: RunResult): Collector {
    var error := IsError(c.reportRunaways, r);
    c.(summary := Summary(c.summary.playCount + 1,
                          c.summary.numFailed + AsNat(error && r.failure.Some?),
                          c.summary.numRunaway + AsNat(IsRunaway(r))),
       failAfter := c.failAfter - AsNat(error))
  }

  // Whether the result stops the run.
  predicate Stops(c: Collector, r: RunResult) {
    IsError(c.reportRunaways, r) && c.failAfter - 1 <= 0
  }

  function CollectedAll(c: Collector, rs: seq<RunResult>): Collector {
    if rs == [] then c else Collected(CollectedAll(c, rs[..|rs| - 1]), rs[|rs| - 1])
  }

  function Errors(reportRunaways: bool, rs: seq<RunResult>): nat {
    if rs == [] then 0
    else Errors(reportRunaways, rs[..|rs| - 1]) + AsNat(IsError(reportRunaways, rs[|rs| - 1]))
  }

  // A failure of a snapshot, which the exit status reports.
  predicate IsFailedSnapshot(reportRunaways: bool, r: RunResult) {
    !r.success && r.failure.Some? && (r.failure.value ==> reportRunaways)
  }

  function FailedSnapshots(reportRunaways: bool, rs: seq<RunResult>): nat {
    if rs == [] then 0
    else FailedSnapshots(reportRunaways, rs[..|rs| - 1]) + AsNat(IsFailedSnapshot(reportRunaways, rs[|rs| - 1]))
  }

  function Runaways(rs: seq<RunResult>): nat {
    if rs == [] then 0 else Runaways(rs[..|rs| - 1]) + AsNat(IsRunaway(rs[|rs| - 1]))
  }

  lemma {:induction false} SomeFailed(reportRunaways: bool, rs: seq<RunResult>)
    ensures FailedSnapshots(reportRunaways, rs) > 0 <==>
            exists i :: 0 <= i < |rs| && IsFailedSnapshot(reportRunaways, rs[i])
    ensures FailedSnapshots(reportRunaways, rs) <= Errors(reportRunaways, rs)
  {
    if rs != [] {
      var init := rs[..|rs| - 1];
      SomeFailed(reportRunaways, init);
      assert forall i :: 0 <= i < |init| ==> init[i] == rs[i];
    }
  }

  // The counters are those of the whole sequence of results, and a result stops the run exactly
  // when it is an error and the limit on errors is reached by then.
  lemma {:induction false} CollectorCounts(c: Collector, rs: seq<RunResult>)
    ensures var now := CollectedAll(c, rs);
            && now.summary.playCount == c.summary.playCount + |rs|
            && now.summary.numFailed == c.summary.numFailed + FailedSnapshots(c.reportRunaways, rs)
            && now.summary.numRunaway == c.summary.numRunaway + Runaways(rs)
            && now.failAfter == c.failAfter - Errors(c.reportRunaways, rs)
            && now.reportRunaways == c.reportRunaways
    ensures forall r: RunResult :: Stops(CollectedAll(c, rs), r) <==>
              IsError(c.reportRunaways, r) && Errors(c.reportRunaways, rs + [r]) >= c.failAfter
  {
    if rs != [] {
      CollectorCounts(c, rs[..|rs| - 1]);
    }
    forall r: RunResult ensures Errors(c.reportRunaways, rs + [r]) ==
                               Errors(c.reportRunaways, rs) + AsNat(IsError(c.reportRunaways, r)) {
      assert (rs + [r])[..|rs|] == rs;
    }
  }

  lemma {:induction false} ErrorsAppend(reportRunaways: bool, xs: seq<RunResult>, ys: seq<RunResult>)
    ensures Errors(reportRunaways, xs + ys) == Errors(reportRunaways, xs) + Errors(reportRunaways, ys)
    decreases |ys|
  {
    if ys == [] {
      assert xs + ys == xs;
    } else {
      ErrorsAppend(reportRunaways, xs, ys[..|ys| - 1]);
      assert (xs + ys)[..|xs + ys| - 1] == xs + ys[..|ys| - 1];
    }
  }

  // Result `k` of a sequence is an error that reaches the limit on errors.
  predicate ReachesLimit(c: Collector, rs: seq<RunResult>, k: nat)
    requires k < |rs|
  {
    IsError(c.reportRunaways, rs[k]) && Errors(c.reportRunaways, rs[..k + 1]) >= c.failAfter
  }

  predicate SomeReachesLimit(c: Collector, rs: seq<RunResult>) {
    exists k: nat :: k < |rs| && ReachesLimit(c, rs, k)
  }

  // The limit counts over sequences of results that follow each other.
  lemma LimitAppend(c: Collector, xs: seq<RunResult>, ys: seq<RunResult>)
    ensures SomeReachesLimit(c, xs + ys) <==> SomeReachesLimit(c, xs) || SomeReachesLimit(CollectedAll(c, xs), ys)
  {
    var all, d := xs + ys, CollectedAll(c, xs);
    CollectorCounts(c, xs);
    forall k: nat | k < |xs| ensures ReachesLimit(c, all, k) <==> ReachesLimit(c, xs, k) {
      assert all[..k + 1] == xs[..k + 1];
    }
    forall k: nat | k < |ys| ensures ReachesLimit(c, all, |xs| + k) <==> ReachesLimit(d, ys, k) {
      assert all[..|xs| + k + 1] == xs + ys[..k + 1];
      ErrorsAppend(c.reportRunaways, xs, ys[..k + 1]);
    }
    if k: nat :| k < |all| && ReachesLimit(c, all, k) {
      if k >= |xs| {
        assert ReachesLimit(d, ys, k - |xs|);
      } else {
        assert ReachesLimit(c, xs, k);
      }
    }
  }

  // A single result stops the run exactly if it reaches the limit.
  lemma LimitOfOne(c: Collector, r: RunResult)
    ensures SomeReachesLimit(c, [r]) <==> Stops(c, r)
  {
    CollectorCounts(c, []);
    assert [r][..1] == [r] && [] + [r] == [r];
    if Stops(c, r) {
      assert ReachesLimit(c, [r], 0);
    }
  }

  class ResultCollector {
    var summary: Summary
    var failAfter: int
    const reportRunaways: bool

    function State(): Collector
      reads this
    {
      Collector(summary, failAfter, reportRunaways)
    }

    constructor (failAfter: int, reportRunaways: bool)
      ensures State() == Collector(Summary(0, 0, 0), failAfter, reportRunaways)
    {
      summary, this.failAfter, this.reportRunaways := Summary(0, 0, 0), failAfter, reportRunaways;
    }

    // Processes a result, and says whether the run should stop.
    method Process(r: RunResult) returns (stop: bool)
      modifies this
      ensures State() == Collected(old(State()), r) && stop == Stops(old(State()), r)
    {
      summary := summary.(playCount := summary.playCount + 1);
      stop := false;
      if !r.success {
        if r.failure.Some? {
          if r.failure.value {
            summary := summary.(numRunaway := summary.numRunaway + 1);
            if !reportRunaways {
              return false;
            }
          }
          summary := summary.(numFailed := summary.numFailed + 1);
        }
        failAfter := failAfter - 1;
        stop := failAfter <= 0;
      }
    }
  }

  // Where the main thread is: before the test of the event loop, waiting for results, with
  // results taken from the queue, waiting for the workers, after that, and finished.
  datatype Main = Head | Waiting | Processing(pending: seq<RunResult>) | Joining | Joined | Done

  // The system, and what happened so far: the results accepted and those given to the callback.
  datatype System = System(numThreads: nat, queue: seq<RunResult>, stop: bool, late: bool, running: set<nat>,
                           main: Main, collector: Collector, accepted: seq<RunResult>, processed: seq<RunResult>)
  {
    predicate ShouldStop() {
      stop || late
    }

    function Pending(): seq<RunResult> {
      if main.Processing? then main.pending else []
    }
  }

  datatype Action =
    // A worker offers a result, or a failure to get one; or it finishes.
    | Offer(worker: nat, result: Option<RunResult>)
    | Finish(worker: nat)
    // A signal, and the clock.
    | Signal
    | Deadline
    // The main thread.
    | Enter | Swap | Callback | Again | Leave | Join | ProcessQueue

  // Gives results to the callback, in order.
  function Process(s: System, rs: seq<RunResult>): System
    decreases |rs|
  {
    if rs == [] then s
    else
      var r := rs[0];
      Process(s.(collector := Collected(s.collector, r), stop := s.stop || Stops(s.collector, r),
                 processed := s.processed + [r]), rs[1..])
  }

  // The queue takes a result if it has a slot for every thread left.
  function Offered(s: System, r: RunResult): System {
    if |s.queue| >= s.numThreads then s else s.(queue := s.queue + [r], accepted := s.accepted + [r])
  }

  // The system after an action, or None if the action is not possible.
  function Step(s: System, a: Action): Option<System> {
    match a
    case Offer(worker, result) =>
      if worker !in s.running then None
      else if result.None? then Some(s)
      else Some(Offered(s, result.value))
    case Finish(worker) =>
      if worker in s.running then Some(s.(running := s.running - {worker}, stop := true)) else None
    case Signal => Some(s.(stop := true))
    case Deadline => Some(s.(late := true))
    case Enter => if s.main.Head? && !s.ShouldStop() then Some(s.(main := Waiting)) else None
    case Swap => if s.main.Waiting? then Some(s.(main := Processing(s.queue), queue := [])) else None
    case Callback =>
      if s.main.Processing? && s.main.pending != [] then
        Some(Process(s, [s.main.pending[0]]).(main := Processing(s.main.pending[1..])))
      else None
    case Again => if s.main == Processing([]) then Some(s.(main := Head)) else None
    case Leave => if s.main.Head? && s.ShouldStop() then Some(s.(main := Joining)) else None
    case Join => if s.main.Joining? && s.running == {} then Some(s.(main := Joined)) else None
    case ProcessQueue =>
      if s.main.Joined? then Some(Process(s, s.queue).(queue := [], main := Done)) else None
  }

  function Run(s: System, actions: seq<Action>): Option<System> {
    if actions == [] then Some(s)
    else
      var t :- Run(s, actions[..|actions| - 1]);
      Step(t, actions[|actions| - 1])
  }

  function Initial(numThreads: nat, running: set<nat>, failAfter: int, reportRunaways: bool): System {
    System(numThreads, [], false, false, running, Head, Collector(Summary(0, 0, 0), failAfter, reportRunaways), [], [])
  }

  // What was accepted is what was processed, then what the main thread holds, then the queue.
  ghost predicate Valid(s: System, start: Collector) {
    && |s.queue| <= s.numThreads
    && s.accepted == s.processed + s.Pending() + s.queue
    && s.collector == CollectedAll(start, s.processed)
    && (s.main.Joined? ==> s.running == {})
    && (s.main.Done? ==> s.running == {} && s.queue == [])
  }

  // Nothing that happened is undone, and a stop is final.
  ghost predicate Later(s: System, t: System) {
    && t.numThreads == s.numThreads && (s.stop ==> t.stop) && (s.late ==> t.late) && t.running <= s.running
    && s.accepted <= t.accepted && s.processed <= t.processed
  }

  lemma {:induction false} ProcessFacts(s: System, rs: seq<RunResult>, start: Collector)
    requires s.collector == CollectedAll(start, s.processed)
    ensures var t := Process(s, rs);
            && t == s.(collector := t.collector, stop := t.stop, processed := s.processed + rs)
            && t.collector == CollectedAll(start, t.processed) && (s.stop ==> t.stop)
    decreases |rs|
  {
    if rs != [] {
      var r := rs[0];
      assert (s.processed + [r])[..|s.processed|] == s.processed;
      assert s.processed + [r] + rs[1..] == s.processed + rs;
      ProcessFacts(s.(collector := Collected(s.collector, r), stop := s.stop || Stops(s.collector, r),
                      processed := s.processed + [r]), rs[1..], start);
    }
  }

  // Processing stops the run exactly if one of the results reaches the limit on errors.
  lemma {:induction false} ProcessStops(s: System, rs: seq<RunResult>)
    ensures Process(s, rs).stop <==> s.stop || SomeReachesLimit(s.collector, rs)
    ensures Process(s, rs).collector == CollectedAll(s.collector, rs)
    decreases |rs|
  {
    if rs != [] {
      var r := rs[0];
      var t := s.(collector := Collected(s.collector, r), stop := s.stop || Stops(s.collector, r),
                  processed := s.processed + [r]);
      ProcessStops(t, rs[1..]);
      assert CollectedAll(s.collector, [r]) == t.collector by {
        assert [r][..0] == [];
      }
      assert [r] + rs[1..] == rs;
      LimitAppend(s.collector, [r], rs[1..]);
      LimitOfOne(s.collector, r);
      CollectedAppend(s.collector, [r], rs[1..]);
    }
  }

  lemma {:induction false} CollectedAppend(c: Collector, xs: seq<RunResult>, ys: seq<RunResult>)
    ensures CollectedAll(c, xs + ys) == CollectedAll(CollectedAll(c, xs), ys)
    decreases |ys|
  {
    if ys == [] {
      assert xs + ys == xs;
    } else {
      CollectedAppend(c, xs, ys[..|ys| - 1]);
      assert (xs + ys)[..|xs + ys| - 1] == xs + ys[..|ys| - 1];
    }
  }

  // A worker that finishes, or a signal, asks to stop.
  predicate AsksToStop(a: Action) {
    a.Finish? || a.Signal?
  }

  lemma BatchStops(s: System, rs: seq<RunResult>, start: Collector)
    requires s.collector == CollectedAll(start, s.processed)
    requires SomeReachesLimit(start, s.processed) ==> s.stop
    ensures var t := Process(s, rs);
            && (t.stop <==> s.stop || SomeReachesLimit(start, t.processed))
            && t.late == s.late && t.running == s.running
  {
    ProcessFacts(s, rs, start);
    ProcessStops(s, rs);
    LimitAppend(start, s.processed, rs);
  }

  lemma StepStops(s: System, a: Action, start: Collector)
    requires Valid(s, start) && Step(s, a).Some?
    requires SomeReachesLimit(start, s.processed) ==> s.stop
    ensures var t := Step(s, a).value;
            && (t.stop <==> s.stop || AsksToStop(a) || SomeReachesLimit(start, t.processed))
            && (t.late <==> s.late || a.Deadline?)
            && t.running == if a.Finish? then s.running - {a.worker} else s.running
  {
    match a
    case Callback => BatchStops(s, [s.main.pending[0]], start);
    case ProcessQueue => BatchStops(s, s.queue, start);
    case _ =>
  }

  predicate AskedToStop(actions: seq<Action>) {
    exists i :: 0 <= i < |actions| && AsksToStop(actions[i])
  }

  // Why the system is stopped or late, and which workers run.
  ghost predicate Explained(t: System, running: set<nat>, start: Collector, actions: seq<Action>) {
    && (t.stop <==> AskedToStop(actions) || SomeReachesLimit(start, t.processed))
    && (t.late <==> Deadline in actions)
    && (forall w: nat :: w in t.running <==> w in running && Finish(w) !in actions)
  }

  lemma ExplainedStep(s: System, a: Action, running: set<nat>, start: Collector, actions: seq<Action>)
    requires Valid(s, start) && Step(s, a).Some? && Explained(s, running, start, actions)
    ensures Explained(Step(s, a).value, running, start, actions + [a])
  {
    var t := Step(s, a).value;
    StepStops(s, a, start);
    StepKeeps(s, a, start);
    if SomeReachesLimit(start, s.processed) {
      LimitStays(start, s.processed, t.processed);
    }
    var more := actions + [a];
    assert AskedToStop(more) <==> AskedToStop(actions) || AsksToStop(a) by {
      assert more[|actions|] == a;
      assert forall i :: 0 <= i < |actions| ==> more[i] == actions[i];
    }
  }

  lemma {:induction false} RunExplained(s: System, actions: seq<Action>)
    requires Valid(s, s.collector) && Run(s, actions).Some? && !s.stop && !s.late && s.processed == []
    ensures Explained(Run(s, actions).value, s.running, s.collector, actions)
    decreases |actions|
  {
    if actions == [] {
      assert !SomeReachesLimit(s.collector, s.processed);
    } else {
      var init, a := actions[..|actions| - 1], actions[|actions| - 1];
      RunExplained(s, init);
      RunKeeps(s, init, s.collector);
      ExplainedStep(Run(s, init).value, a, s.running, s.collector, init);
      assert actions == init + [a];
    }
  }

  // Over every run: it is stopped exactly if a worker finished, a signal came, or the results processed
  // so far reach the limit on errors; it is late exactly if the deadline passed; and a worker runs
  // exactly until it finishes.
  lemma RunStops(numThreads: nat, running: set<nat>, failAfter: int, reportRunaways: bool, actions: seq<Action>)
    requires Run(Initial(numThreads, running, failAfter, reportRunaways), actions).Some?
    ensures var t := Run(Initial(numThreads, running, failAfter, reportRunaways), actions).value;
            && (t.stop <==>
                  || (exists i :: 0 <= i < |actions| && (actions[i].Finish? || actions[i].Signal?))
                  || (exists k: nat :: k < |t.processed| && IsError(reportRunaways, t.processed[k]) &&
                                       Errors(reportRunaways, t.processed[..k + 1]) >= failAfter))
            && (t.late <==> Deadline in actions)
            && (forall w: nat :: w in t.running <==> w in running && Finish(w) !in actions)
  {
    var s := Initial(numThreads, running, failAfter, reportRunaways);
    RunExplained(s, actions);
    LimitUnfolded(s.collector, Run(s, actions).value.processed);
    assert AskedToStop(actions) <==>
           exists i :: 0 <= i < |actions| && (actions[i].Finish? || actions[i].Signal?) by {
      assert forall i :: 0 <= i < |actions| ==> (AsksToStop(actions[i]) <==> actions[i].Finish? || actions[i].Signal?);
    }
  }

  // At the head of its loop the main thread goes on exactly as long as the run is not stopped and not late.
  lemma HeadChoice(s: System)
    ensures Step(s, Enter).Some? <==> s.main == Head && !s.stop && !s.late
    ensures Step(s, Leave).Some? <==> s.main == Head && (s.stop || s.late)
  {
  }

  lemma {:induction false} LeftWhenAsked(s: System, actions: seq<Action>)
    requires Valid(s, s.collector) && Run(s, actions).Some? && s.main.Head?
    ensures var t := Run(s, actions).value;
            t.main.Joining? || t.main.Joined? || t.main.Done? ==> t.stop || t.late
    decreases |actions|
  {
    if actions != [] {
      var init, a := actions[..|actions| - 1], actions[|actions| - 1];
      LeftWhenAsked(s, init);
      RunKeeps(s, init, s.collector);
      StepKeeps(Run(s, init).value, a, s.collector);
    }
  }

  // Over every run: when the main thread is past its loop, the run was stopped or the deadline passed; when it
  // is past joining the workers, each of them has finished.
  lemma RunEnds(numThreads: nat, running: set<nat>, failAfter: int, reportRunaways: bool, actions: seq<Action>)
    requires Run(Initial(numThreads, running, failAfter, reportRunaways), actions).Some?
    ensures var t := Run(Initial(numThreads, running, failAfter, reportRunaways), actions).value;
            && (t.main.Joining? || t.main.Joined? || t.main.Done? ==> t.stop || Deadline in actions)
            && (t.main.Joined? || t.main.Done? ==> forall w: nat :: w in running ==> Finish(w) in actions)
  {
    var s := Initial(numThreads, running, failAfter, reportRunaways);
    LeftWhenAsked(s, actions);
    RunKeeps(s, actions, s.collector);
    RunStops(numThreads, running, failAfter, reportRunaways, actions);
  }

  lemma LimitUnfolded(c: Collector, rs: seq<RunResult>)
    ensures SomeReachesLimit(c, rs) <==>
            exists k: nat :: k < |rs| && IsError(c.reportRunaways, rs[k]) &&
                             Errors(c.reportRunaways, rs[..k + 1]) >= c.failAfter
  {
    if k: nat :| k < |rs| && IsError(c.reportRunaways, rs[k]) && Errors(c.reportRunaways, rs[..k + 1]) >= c.failAfter {
      assert ReachesLimit(c, rs, k);
    }
  }

  lemma LimitStays(c: Collector, rs: seq<RunResult>, more: seq<RunResult>)
    requires rs <= more && SomeReachesLimit(c, rs)
    ensures SomeReachesLimit(c, more)
  {
    assert more == rs + more[|rs|..];
    LimitAppend(c, rs, more[|rs|..]);
  }

  lemma CallbackKeeps(s: System, start: Collector)
    requires Valid(s, start) && Step(s, Callback).Some?
    ensures Valid(Step(s, Callback).value, start) && Later(s, Step(s, Callback).value)
  {
    var first, rest := s.main.pending[0], s.main.pending[1..];
    ProcessFacts(s, [first], start);
    assert s.main.pending == [first] + rest;
    assert s.processed + ([first] + rest) == s.processed + [first] + rest;
  }

  lemma ProcessQueueKeeps(s: System, start: Collector)
    requires Valid(s, start) && Step(s, ProcessQueue).Some?
    ensures Valid(Step(s, ProcessQueue).value, start) && Later(s, Step(s, ProcessQueue).value)
  {
    ProcessFacts(s, s.queue, start);
  }

  lemma OfferKeeps(s: System, r: RunResult, start: Collector)
    requires Valid(s, start) && s.running != {}
    ensures Valid(Offered(s, r), start) && Later(s, Offered(s, r))
  {
    assert s.processed + s.Pending() + s.queue + [r] == s.processed + s.Pending() + (s.queue + [r]);
  }

  lemma StepKeeps(s: System, a: Action, start: Collector)
    requires Valid(s, start) && Step(s, a).Some?
    ensures Valid(Step(s, a).value, start) && Later(s, Step(s, a).value)
  {
    match a
    case Callback => CallbackKeeps(s, start);
    case ProcessQueue => ProcessQueueKeeps(s, start);
    case Offer(worker, result) =>
      if result.Some? {
        OfferKeeps(s, result.value, start);
      }
    case _ =>
  }

  // A result is refused only when the queue is full.
  lemma RefusedOnlyWhenFull(s: System, worker: nat, r: RunResult)
    requires worker in s.running
    ensures Step(s, Offer(worker, Some(r))).value.accepted ==
            (if |s.queue| < s.numThreads then s.accepted + [r] else s.accepted)
  {
  }

  // Every interleaving keeps the invariant.
  lemma {:induction false} RunKeeps(s: System, actions: seq<Action>, start: Collector)
    requires Valid(s, start) && Run(s, actions).Some?
    ensures Valid(Run(s, actions).value, start) && Later(s, Run(s, actions).value)
    decreases |actions|
  {
    if actions != [] {
      var n := |actions| - 1;
      RunKeeps(s, actions[..n], start);
      StepKeeps(Run(s, actions[..n]).value, actions[n], start);
    }
  }

  // Whatever the interleaving, when the main thread is done every accepted result reached the
  // callback exactly once, in the order of acceptance.  The play count is their number, and the
  // exit status is a failure exactly if one of them is a failed snapshot.
  lemma AllResultsProcessed(numThreads: nat, running: set<nat>, failAfter: int, reportRunaways: bool,
                            actions: seq<Action>)
    requires Run(Initial(numThreads, running, failAfter, reportRunaways), actions).Some?
    requires Run(Initial(numThreads, running, failAfter, reportRunaways), actions).value.main.Done?
    ensures var t := Run(Initial(numThreads, running, failAfter, reportRunaways), actions).value;
            && t.processed == t.accepted && t.queue == []
            && t.collector.summary.playCount == |t.accepted|
            && t.collector.failAfter == failAfter - Errors(reportRunaways, t.accepted)
            && t.collector.summary.numRunaway == Runaways(t.accepted)
            && (t.collector.summary.numFailed > 0 <==>
                  exists i :: 0 <= i < |t.accepted| && IsFailedSnapshot(reportRunaways, t.accepted[i]))
  {
    var s := Initial(numThreads, running, failAfter, reportRunaways);
    RunKeeps(s, actions, s.collector);
    CollectorCounts(s.collector, Run(s, actions).value.processed);
    SomeFailed(reportRunaways, Run(s, actions).value.accepted);
  }

  // How far the main thread is from the end once it should stop.
  function Rank(s: System): nat {
    match s.main
    case Done => 0
    case Joined => 1
    case Joining => 2
    case Head => 3
    case Processing(pending) => 4 + |pending|
    case Waiting => 5 + |s.queue|
  }

  function NextOfMain(s: System): Action {
    match s.main
    case Head => if s.ShouldStop() then Leave else Enter
    case Waiting => Swap
    case Processing(pending) => if pending == [] then Again else Callback
    case Joining => Join
    case _ => ProcessQueue
  }

  // The system moved on towards the end.
  ghost predicate Advances(s: System, next: Option<System>) {
    next.Some? && Rank(next.value) < Rank(s) && next.value.ShouldStop() && next.value.running == {}
  }

  lemma CallbackAdvances(s: System, start: Collector)
    requires Valid(s, start) && s.ShouldStop() && s.running == {} && s.main.Processing? && s.main.pending != []
    ensures Advances(s, Step(s, Callback))
  {
    ProcessFacts(s, [s.main.pending[0]], start);
  }

  lemma ProcessQueueAdvances(s: System, start: Collector)
    requires Valid(s, start) && s.ShouldStop() && s.running == {} && s.main.Joined?
    ensures Advances(s, Step(s, ProcessQueue))
  {
    ProcessFacts(s, s.queue, start);
  }

  // Once the run should stop and all workers have finished, each action of the main thread is
  // possible and brings it closer to the end.
  lemma MainFinishes(s: System, start: Collector)
    requires Valid(s, start) && s.ShouldStop() && s.running == {} && !s.main.Done?
    ensures Advances(s, Step(s, NextOfMain(s)))
  {
    if s.main.Processing? && s.main.pending != [] {
      CallbackAdvances(s, start);
    } else if s.main.Joined? {
      ProcessQueueAdvances(s, start);
    }
  }

  // The object that the threads share.
  class ExecutionContext {
    const numThreads: nat
    const collector: ResultCollector
    var stop: bool
    var queue: seq<RunResult>

    constructor (numThreads: nat, collector: ResultCollector)
      ensures this.numThreads == numThreads && this.collector == collector && !stop && queue == []
    {
      this.numThreads, this.collector, stop, queue := numThreads, collector, false, [];
    }

    // The object has the part of the system that is shared.
    ghost predicate Is(s: System)
      reads this, collector
    {
      s.numThreads == numThreads && s.queue == queue && s.stop == stop && s.collector == collector.State()
    }

    // Posts a result unless the queue is full; the failure to get one is not posted.
    method OfferRunResult(result: Option<RunResult>, ghost s: System) returns (posted: bool)
      requires Is(s)
      modifies this
      ensures Is(if result.Some? then Offered(s, result.value) else s)
      ensures !posted <==> result.Some? && |old(queue)| >= numThreads
    {
      if result.None? {
        return true;
      }
      if |queue| >= numThreads {
        return false;
      }
      queue := queue + [result.value];
      return true;
    }

    // Takes all results from the queue.
    method TakeResults(ghost s: System) returns (results: seq<RunResult>)
      requires Is(s)
      modifies this
      ensures results == old(queue) && Is(s.(queue := []))
    {
      results, queue := queue, [];
    }

    // Gives results to the callback, and stops if it says so.
    method ProcessResultQueueImpl(results: seq<RunResult>, ghost s: System)
      requires Is(s)
      modifies this`stop, collector
      ensures Is(Process(s, results)) && queue == old(queue)
      ensures stop <==> old(stop) || SomeReachesLimit(old(collector.State()), results)
      ensures collector.State() == CollectedAll(old(collector.State()), results)
    {
      ProcessStops(s, results);
      ghost var t := s;
      for k := 0 to |results|
        invariant Is(t) && queue == old(queue) && Process(s, results) == Process(t, results[k..])
      {
        assert results[k..][0] == results[k] && results[k..][1..] == results[k + 1..];
        var shouldStop := collector.Process(results[k]);
        t := t.(collector := Collected(t.collector, results[k]), stop := t.stop || Stops(t.collector, results[k]),
                processed := t.processed + [results[k]]);
        if shouldStop {
          stop := true;
        }
      }
      assert results[|results|..] == [];
    }

    // Processes what arrived late, after all workers have been joined.
    method ProcessResultQueue(ghost s: System)
      requires Is(s)
      modifies this, collector
      ensures Is(Process(s, s.queue).(queue := []))
      ensures queue == [] && (stop <==> old(stop) || SomeReachesLimit(old(collector.State()), old(queue)))
    {
      ProcessResultQueueImpl(queue, s);
      queue := [];
    }
  }
}
