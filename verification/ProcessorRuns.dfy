/** What holds of the packet processor in every run: order, shutdown, flushing and flow affinity. */
module ProcessorRuns {
  import opened Common
  import opened Processor

  // ----- Exactly once, first in first out -----

  /** In every reachable interleaving each worker has accepted exactly what it handled, then at most one item in
      flight, then its queue, in that order; and every accepted item is counted or still uncounted. */
  lemma ExactlyOnceFifo(cfg: Config, steps: seq<Step>, s: State)
    requires Runs(cfg, Initial(cfg), steps, s)
    ensures forall i :: 0 <= i < |s.workers| ==>
              var w := s.workers[i];
              w.accepted == w.handled + InFlight(w) + w.queue && |InFlight(w)| <= 1
    ensures s.packetsProcessed + s.packetsDropped + Total(Uncounted, s.workers) == Total(AcceptedCount, s.workers)
  {
    ReachableInv(cfg, steps, s);
    assert forall i :: 0 <= i < |s.workers| ==> Fifo(s.workers[i]);
  }

  /** `start` never overwrites a thread that still has to be joined. */
  lemma StartFindsNoThread(cfg: Config, steps: seq<Step>, s: State)
    requires Runs(cfg, Initial(cfg), steps, s)
    requires Enabled(cfg, s, StartWorker)
    ensures s.workers[s.controller.next].thread.Absent?
  {
    ReachableInv(cfg, steps, s);
  }

  // ----- Shutdown -----

  predicate Stopped(s: State) {
    s.controller.Idle? && !s.started
  }

  predicate AllHandled(s: State) {
    forall i :: 0 <= i < |s.workers| ==> s.workers[i].handled == s.workers[i].accepted
  }

  /** After stop every accepted item was handled exactly once, in order, if and only if no item was pushed to a
      worker whose thread had already exited. */
  lemma StoppedHandlesAllIff(cfg: Config, steps: seq<Step>, s: State)
    requires Runs(cfg, Initial(cfg), steps, s) && Stopped(s)
    ensures AllHandled(s) <==> forall i :: 0 <= i < |s.workers| ==> s.workers[i].unattended == []
    ensures forall i :: 0 <= i < |s.workers| ==>
              s.workers[i].accepted == s.workers[i].handled + s.workers[i].unattended
  {
    ReachableInv(cfg, steps, s);
    hide Runs, Counted;
    forall i | 0 <= i < |s.workers|
      ensures s.workers[i].accepted == s.workers[i].handled + s.workers[i].unattended
      ensures s.workers[i].handled == s.workers[i].accepted <==> s.workers[i].unattended == []
    {
      UnattendedIsUnhandled(s.workers[i]);
    }
    hide Inv;
  }

  lemma UnattendedIsUnhandled(w: Worker)
    requires Fifo(w) && UnattendedIsQueue(w) && !Attended(w)
    ensures w.accepted == w.handled + w.unattended
    ensures w.handled == w.accepted <==> w.unattended == []
  {
    assert w.accepted == w.handled + w.queue;
    assert |w.accepted| == |w.handled| + |w.unattended|;
  }

  /** Not started, no call of submit under way, and unattended workers have nothing queued. */
  predicate Quiet(s: State) {
    && !s.started && s.submissions == map[]
    && forall i :: 0 <= i < |s.workers| ==> Attended(s.workers[i]) || s.workers[i].queue == []
  }

  lemma StepKeepsQuiet(cfg: Config, s: State, step: Step)
    requires Inv(s) && Quiet(s) && Enabled(cfg, s, step) && !step.StartBegin?
    ensures Quiet(Apply(cfg, s, step))
  {
    hide AllFifo, Counted;
  }

  lemma {:induction false} RunKeepsQuiet(cfg: Config, s: State, steps: seq<Step>, t: State)
    requires Inv(s) && Quiet(s) && Runs(cfg, s, steps, t)
    requires StartBegin !in steps
    ensures Inv(t) && Quiet(t)
  {
    hide Inv, Quiet;
    if steps != [] {
      var u := RunFrom(cfg, s, Init(steps)).value;
      RunKeepsQuiet(cfg, s, Init(steps), u);
      assert Last(steps) in steps;
      StepKeepsQuiet(cfg, u, Last(steps));
      StepKeepsInv(cfg, u, Last(steps));
    }
  }

  /** If no call of submit is between its check and its push when stop begins, then whatever interleaving follows,
      once stop has joined the workers every accepted item has been handled once, in order, and counted. */
  lemma QuiescentStopDrains(cfg: Config, before: seq<Step>, s: State, after: seq<Step>, t: State)
    requires Runs(cfg, Initial(cfg), before, s)
    requires s.started && s.submissions == map[] && Enabled(cfg, s, StopBegin)
    requires Runs(cfg, Apply(cfg, s, StopBegin), after, t) && StartBegin !in after
    requires Stopped(t)
    ensures AllHandled(t)
    ensures t.packetsProcessed + t.packetsDropped == Total(AcceptedCount, t.workers)
  {
    ReachableInv(cfg, before, s);
    StepKeepsInv(cfg, s, StopBegin);
    RunKeepsQuiet(cfg, Apply(cfg, s, StopBegin), after, t);
    forall i | 0 <= i < |t.workers|
      ensures t.workers[i].handled == t.workers[i].accepted && Uncounted(t.workers[i]) == 0
    {
      assert Fifo(t.workers[i]);
    }
    NothingTotalsZero(Uncounted, t.workers);
  }

  lemma {:induction false} NothingTotalsZero(amount: Worker -> nat, ws: seq<Worker>)
    requires forall i :: 0 <= i < |ws| ==> amount(ws[i]) == 0
    ensures Total(amount, ws) == 0
  {
    if ws != [] {
      assert Last(ws) == ws[|ws| - 1];
      NothingTotalsZero(amount, Init(ws));
    }
  }

  predicate BeingStopped(s: State) {
    s.controller.Stopping? || s.controller.Joining?
  }

  predicate IsSubmit(step: Step) {
    step.SubmitCheck? || step.SubmitAssign? || step.SubmitPush?
  }

  /** Steps a worker still has to take before its thread can exit. */
  function Work(w: Worker): nat {
    3 * |w.queue|
    + match w.thread
      case Decoding(_) => 3
      case Counting(_) => 2
      case Waiting => 1
      case _ => 0
  }

  /** Steps a submission under way still causes: its assignment, its push, and the work on its item. */
  function Pending(s: Submission): nat {
    if s.Checked? then 5 else 4
  }

  function Pendings(submissions: map<nat, Submission>): map<nat, nat> {
    map t | t in submissions :: Pending(submissions[t])
  }

  ghost function PendingWork(submissions: map<nat, Submission>): nat {
    Sum(Pendings(submissions))
  }

  lemma PendingPut(submissions: map<nat, Submission>, t: nat, s: Submission)
    requires t in submissions
    ensures PendingWork(submissions[t := s]) == PendingWork(submissions) - Pending(submissions[t]) + Pending(s)
  {
    assert Pendings(submissions[t := s]) == Pendings(submissions)[t := Pending(s)];
    SumPut(Pendings(submissions), t, Pending(s));
  }

  lemma PendingTakeOut(submissions: map<nat, Submission>, t: nat)
    requires t in submissions
    ensures PendingWork(submissions - {t}) == PendingWork(submissions) - Pending(submissions[t])
  {
    assert Pendings(submissions - {t}) == Pendings(submissions) - {t};
    SumTakeOut(Pendings(submissions), t);
  }

  function ControllerSteps(s: State): nat {
    var n := |s.workers|;
    match s.controller
    case Stopping(k) => if k <= n then 2 * n - k else 0
    case Joining(k) => if k <= n then n - k else 0
    case _ => 0
  }

  ghost function StopMeasure(s: State): nat {
    Total(Work, s.workers) + PendingWork(s.submissions) + ControllerSteps(s) + (if s.terminated then 0 else 1)
  }

  /** While stopping, every step of any thread brings the end nearer, except that calls of submit go on being refused
      without effect. */
  lemma StopStepDecreases(cfg: Config, s: State, step: Step)
    requires Inv(s) && BeingStopped(s) && Enabled(cfg, s, step)
    ensures step.SubmitCheck? ==> Apply(cfg, s, step) == s
    ensures !step.SubmitCheck? ==> StopMeasure(Apply(cfg, s, step)) < StopMeasure(s)
  {
    hide AllFifo, Counted, Total, Work, PendingWork, Pending;
    if step.SubmitAssign? {
      AssignDecreases(cfg, s, step);
    } else if step.SubmitPush? {
      PushDecreases(cfg, s, step);
    } else if !step.SubmitCheck? && !step.WorkerThrow? {
      var w := Touched(cfg, s, step).value;
      TotalUpdate(Work, s.workers, w, Apply(cfg, s, step).workers[w]);
      if step.StopWorker? || step.JoinWorker? {
        ControllerKeepsWork(s.workers[w]);
      } else {
        WorkerStepWorks(cfg, s, step, w);
      }
    }
  }

  lemma AssignDecreases(cfg: Config, s: State, step: Step)
    requires Enabled(cfg, s, step) && step.SubmitAssign?
    ensures StopMeasure(Apply(cfg, s, step)) < StopMeasure(s)
  {
    hide Total, PendingWork, PinnedWorker;
    PendingPut(s.submissions, step.thread, Apply(cfg, s, step).submissions[step.thread]);
  }

  lemma PushDecreases(cfg: Config, s: State, step: Step)
    requires Enabled(cfg, s, step) && step.SubmitPush?
    ensures StopMeasure(Apply(cfg, s, step)) < StopMeasure(s)
  {
    hide Total, PendingWork;
    var w, item := s.submissions[step.thread].worker, s.submissions[step.thread].item;
    PendingTakeOut(s.submissions, step.thread);
    TotalUpdate(Work, s.workers, w, Push(s.workers[w], item));
    assert Work(Push(s.workers[w], item)) == Work(s.workers[w]) + 3;
  }

  lemma ControllerKeepsWork(w: Worker)
    ensures Work(w.(running := false)) == Work(w)
    ensures w.thread.Exited? || w.thread.Absent? ==> Work(w.(thread := Absent)) == Work(w)
  {
  }

  lemma WorkerStepWorks(cfg: Config, s: State, step: Step, w: nat)
    requires Enabled(cfg, s, step) && w < |s.workers|
    requires step.WorkerTake? || step.WorkerHandle? || step.WorkerCount? || step.WorkerExit?
    requires w == step.worker
    ensures Work(Apply(cfg, s, step).workers[w]) < Work(s.workers[w])
    ensures Apply(cfg, s, step).controller == s.controller
  {
  }

  /** Decoding returns for everything that the worker has accepted and not handled yet, in its order. */
  predicate Drains(cfg: Config, w: Worker) {
    forall k :: |w.handled| <= k < |w.accepted| ==> cfg.decode(w.accepted[..k], w.accepted[k]).Returns?
  }

  predicate AllDrain(cfg: Config, s: State) {
    forall i :: 0 <= i < |s.workers| && Attended(s.workers[i]) ==> Drains(cfg, s.workers[i])
  }

  /** The item in flight is the next one in the order of acceptance. */
  lemma InFlightIsNext(w: Worker)
    requires Fifo(w) && w.thread.Decoding?
    ensures |w.handled| < |w.accepted|
    ensures w.accepted[..|w.handled|] == w.handled && w.accepted[|w.handled|] == w.thread.item
  {
  }

  /** As long as decoding returns for every item at a worker with a thread, stopping cannot get stuck: some step of a
      worker or of the controller is enabled. */
  lemma StopIsNeverStuck(cfg: Config, s: State)
    requires Inv(s) && BeingStopped(s) && !s.terminated && AllDrain(cfg, s)
    ensures exists step :: Enabled(cfg, s, step) && !IsSubmit(step)
  {
    if s.controller.Stopping? {
      assert Enabled(cfg, s, StopWorker);
    } else {
      var i := s.controller.next;
      match s.workers[i].thread
      case Waiting =>
        if s.workers[i].queue == [] {
          assert Enabled(cfg, s, WorkerExit(i));
        } else {
          assert Enabled(cfg, s, WorkerTake(i));
        }
      case Decoding(_) =>
        InFlightIsNext(s.workers[i]);
        assert Enabled(cfg, s, WorkerHandle(i));
      case Counting(_) => assert Enabled(cfg, s, WorkerCount(i));
      case Exited => assert Enabled(cfg, s, JoinWorker);
      case Absent =>
    }
  }

  /** Only a push can bring an item for which decoding does not return to a worker with a thread. */
  lemma StepKeepsDrain(cfg: Config, s: State, step: Step)
    requires Inv(s) && BeingStopped(s) && Enabled(cfg, s, step) && AllDrain(cfg, s) && !step.SubmitPush?
    ensures
      var t := Apply(cfg, s, step);
      AllDrain(cfg, t) && !t.terminated && (BeingStopped(t) || Stopped(t))
  {
    StepStaysInStop(cfg, s, step);
    DrainingWorkersDrain(cfg, s, step);
    if step.WorkerThrow? {
      InFlightIsNext(s.workers[step.worker]);
    }
    hide Inv, BeingStopped, Stopped, PinnedWorker;
  }

  lemma StepStaysInStop(cfg: Config, s: State, step: Step)
    requires Lifecycle(s) && BeingStopped(s) && Enabled(cfg, s, step)
    ensures BeingStopped(Apply(cfg, s, step)) || Stopped(Apply(cfg, s, step))
  {
    hide PinnedWorker;
  }

  lemma DrainingWorkersDrain(cfg: Config, s: State, step: Step)
    requires BeingStopped(s) && Enabled(cfg, s, step) && AllDrain(cfg, s) && !step.SubmitPush?
    ensures AllDrain(cfg, Apply(cfg, s, step))
  {
    hide PinnedWorker;
  }

  /** Every schedule without further pushes: until stop has returned, something can move, and the process goes on. */
  lemma {:induction false} StopGoesOn(cfg: Config, s: State, steps: seq<Step>, t: State)
    requires Inv(s) && BeingStopped(s) && !s.terminated && AllDrain(cfg, s) && Runs(cfg, s, steps, t)
    requires forall step :: step in steps ==> !step.SubmitPush?
    requires forall k :: 0 <= k < |steps| ==>
               RunFrom(cfg, s, steps[..k]).Some? && BeingStopped(RunFrom(cfg, s, steps[..k]).value)
    ensures AllDrain(cfg, t) && !t.terminated && (BeingStopped(t) || Stopped(t))
    ensures BeingStopped(t) ==> exists step :: Enabled(cfg, t, step) && !IsSubmit(step)
  {
    hide Inv, AllDrain, BeingStopped, Stopped;
    RunKeepsInv(cfg, s, steps);
    if steps != [] {
      var n := |steps| - 1;
      var u := RunFrom(cfg, s, Init(steps)).value;
      forall k | 0 <= k < n
        ensures RunFrom(cfg, s, Init(steps)[..k]).Some? && BeingStopped(RunFrom(cfg, s, Init(steps)[..k]).value)
      {
        assert Init(steps)[..k] == steps[..k];
      }
      RunKeepsInv(cfg, s, Init(steps));
      assert steps[..n] == Init(steps) && Last(steps) in steps;
      StopGoesOn(cfg, s, Init(steps), u);
      StepKeepsDrain(cfg, u, Last(steps));
    }
    if BeingStopped(t) {
      StopIsNeverStuck(cfg, t);
    }
  }

  lemma {:induction false} RunCons(cfg: Config, s: State, step: Step, steps: seq<Step>, t: State)
    requires Enabled(cfg, s, step) && Runs(cfg, Apply(cfg, s, step), steps, t)
    ensures Runs(cfg, s, [step] + steps, t)
    decreases |steps|
  {
    hide Apply, Enabled;
    if steps == [] {
      assert [step] + [] == [step] && Init([step]) == [] && Last([step]) == step;
      assert RunFrom(cfg, s, []) == Some(s);
    } else {
      var u := RunFrom(cfg, Apply(cfg, s, step), Init(steps)).value;
      RunCons(cfg, s, step, Init(steps), u);
      assert Init([step] + steps) == [step] + Init(steps) && Last([step] + steps) == Last(steps);
    }
  }

  /** Workers and controller alone bring stop to its end. */
  lemma {:induction false} StopCompletes(cfg: Config, s: State) returns (steps: seq<Step>, t: State)
    requires Inv(s) && BeingStopped(s) && !s.terminated && AllDrain(cfg, s)
    ensures Runs(cfg, s, steps, t) && Stopped(t)
    decreases StopMeasure(s)
  {
    hide Inv, AllDrain, BeingStopped, Stopped, StopMeasure, Enabled, Apply;
    StopIsNeverStuck(cfg, s);
    var step :| Enabled(cfg, s, step) && !IsSubmit(step);
    StepKeepsDrain(cfg, s, step);
    StepKeepsInv(cfg, s, step);
    StopStepDecreases(cfg, s, step);
    var u := Apply(cfg, s, step);
    if Stopped(u) {
      steps, t := [], u;
    } else {
      steps, t := StopCompletes(cfg, u);
    }
    RunCons(cfg, s, step, steps, t);
    steps := [step] + steps;
  }

  /** The worker has a thread, and decoding does not return for item `k` of those it accepted, still to be handled. */
  predicate Blocked(cfg: Config, w: Worker, k: nat) {
    Attended(w) && |w.handled| <= k < |w.accepted| && !cfg.decode(w.accepted[..k], w.accepted[k]).Returns?
  }

  lemma StepKeepsBlocked(cfg: Config, s: State, step: Step, i: nat, k: nat)
    requires Inv(s) && Enabled(cfg, s, step) && i < |s.workers| && Blocked(cfg, s.workers[i], k)
    ensures
      var t := Apply(cfg, s, step);
      |t.workers| == |s.workers| && Blocked(cfg, t.workers[i], k)
  {
    hide Inv, Blocked;
    if Touched(cfg, s, step) == Some(i) {
      TouchedKeepsBlocked(cfg, s, step, i, k);
    } else {
      hide PinnedWorker;
    }
  }

  lemma TouchedKeepsBlocked(cfg: Config, s: State, step: Step, i: nat, k: nat)
    requires Inv(s) && Enabled(cfg, s, step) && i < |s.workers| && Blocked(cfg, s.workers[i], k)
    requires Touched(cfg, s, step) == Some(i)
    ensures
      var t := Apply(cfg, s, step);
      |t.workers| == |s.workers| && Blocked(cfg, t.workers[i], k)
  {
    hide Counted, PinnedWorker;
    var w := s.workers[i];
    assert Fifo(w);
    if step.WorkerHandle? {
      InFlightIsNext(w);
    } else if step.SubmitPush? {
      PushKeepsBlocked(cfg, w, s.submissions[step.thread].item, k);
      hide Blocked;
    }
  }

  lemma PushKeepsBlocked(cfg: Config, w: Worker, item: WorkItem, k: nat)
    requires Blocked(cfg, w, k)
    ensures Blocked(cfg, Push(w, item), k)
  {
    assert Push(w, item).accepted[..k] == w.accepted[..k];
  }

  lemma {:induction false} RunKeepsBlocked(cfg: Config, s: State, steps: seq<Step>, t: State, i: nat, k: nat)
    requires Inv(s) && Runs(cfg, s, steps, t) && i < |s.workers| && Blocked(cfg, s.workers[i], k)
    ensures |t.workers| == |s.workers| && Blocked(cfg, t.workers[i], k) && Inv(t)
  {
    hide Inv, Blocked, Enabled, Apply;
    if steps != [] {
      var u := RunFrom(cfg, s, Init(steps)).value;
      RunKeepsBlocked(cfg, s, Init(steps), u, i, k);
      StepKeepsBlocked(cfg, u, Last(steps), i, k);
      StepKeepsInv(cfg, u, Last(steps));
    }
  }

  lemma BlockedIsNotStopped(cfg: Config, s: State, i: nat, k: nat)
    requires Inv(s) && i < |s.workers| && Blocked(cfg, s.workers[i], k)
    ensures !Stopped(s)
  {
    hide AllFifo, Counted;
  }

  /** A stop under way can complete if and only if decoding returns for every item in flight or queued at a worker with
      a thread. */
  lemma StopCanCompleteIff(cfg: Config, s: State)
    requires Inv(s) && BeingStopped(s) && !s.terminated
    ensures (exists steps: seq<Step>, t: State :: Runs(cfg, s, steps, t) && Stopped(t)) <==> AllDrain(cfg, s)
  {
    hide Inv, BeingStopped, Stopped, Runs;
    if AllDrain(cfg, s) {
      var steps, t := StopCompletes(cfg, s);
    } else {
      var i: nat :| i < |s.workers| && Attended(s.workers[i]) && !Drains(cfg, s.workers[i]);
      var w := s.workers[i];
      var k: nat :| |w.handled| <= k < |w.accepted| && !cfg.decode(w.accepted[..k], w.accepted[k]).Returns?;
      NeverStops(cfg, s, i, k);
    }
  }

  lemma NeverStops(cfg: Config, s: State, i: nat, k: nat)
    requires Inv(s) && i < |s.workers| && Blocked(cfg, s.workers[i], k)
    ensures forall steps: seq<Step>, t: State :: Runs(cfg, s, steps, t) ==> !Stopped(t)
  {
    hide Inv, Blocked, Stopped, Runs;
    forall steps: seq<Step>, t: State | Runs(cfg, s, steps, t)
      ensures !Stopped(t)
    {
      RunKeepsBlocked(cfg, s, steps, t, i, k);
      BlockedIsNotStopped(cfg, t, i, k);
    }
  }

  /** The steps of a run that are not refused calls of submit. */
  function Moves(steps: seq<Step>): nat {
    if steps == [] then 0 else Moves(Init(steps)) + (if Last(steps).SubmitCheck? then 0 else 1)
  }

  /** Whatever the schedule, and however many calls of submit are under way or begin meanwhile, only a number of steps
      that is fixed when stop is observed can be taken until it returns. */
  lemma {:induction false} StopIsBounded(cfg: Config, s: State, steps: seq<Step>, t: State)
    requires Inv(s) && Runs(cfg, s, steps, t)
    requires forall k :: 0 <= k < |steps| ==>
               RunFrom(cfg, s, steps[..k]).Some? && BeingStopped(RunFrom(cfg, s, steps[..k]).value)
    ensures Moves(steps) + StopMeasure(t) <= StopMeasure(s)
  {
    hide StopMeasure, Inv, BeingStopped;
    if steps != [] {
      var n := |steps| - 1;
      var u := RunFrom(cfg, s, Init(steps)).value;
      forall k | 0 <= k < n
        ensures RunFrom(cfg, s, Init(steps)[..k]).Some? && BeingStopped(RunFrom(cfg, s, Init(steps)[..k]).value)
      {
        assert Init(steps)[..k] == steps[..k];
      }
      StopIsBounded(cfg, s, Init(steps), u);
      RunKeepsInv(cfg, s, Init(steps));
      assert steps[..n] == Init(steps);
      StopStepDecreases(cfg, u, Last(steps));
    }
  }

  // ----- Flushing -----

  /** The queues that flush has passed are empty. */
  predicate FlushedSoFar(s: State) {
    s.controller.Flushing? ==> forall i :: 0 <= i < s.controller.next && i < |s.workers| ==> s.workers[i].queue == []
  }

  lemma StepKeepsFlushed(cfg: Config, s: State, step: Step)
    requires FlushedSoFar(s) && Enabled(cfg, s, step) && !step.SubmitPush?
    ensures FlushedSoFar(Apply(cfg, s, step))
  {
  }

  lemma {:induction false} RunKeepsFlushed(cfg: Config, s: State, steps: seq<Step>, t: State)
    requires FlushedSoFar(s) && Runs(cfg, s, steps, t)
    requires forall step :: step in steps ==> !step.SubmitPush?
    ensures FlushedSoFar(t)
  {
    hide FlushedSoFar;
    if steps != [] {
      var u := RunFrom(cfg, s, Init(steps)).value;
      RunKeepsFlushed(cfg, s, Init(steps), u);
      assert Last(steps) in steps;
      StepKeepsFlushed(cfg, u, Last(steps));
    }
  }

  /** With no push since flush began, flush returns only when all queues are empty, and then at most the one item in
      flight is unhandled at each worker. */
  lemma FlushDrainsQueues(cfg: Config, before: seq<Step>, s: State, during: seq<Step>, t: State)
    requires Runs(cfg, Initial(cfg), before, s) && Enabled(cfg, s, FlushBegin)
    requires Runs(cfg, Apply(cfg, s, FlushBegin), during, t)
    requires forall step :: step in during ==> !step.SubmitPush?
    requires Enabled(cfg, t, FlushWorker) && t.controller.next == |t.workers| - 1
    ensures
      var returned := Apply(cfg, t, FlushWorker);
      && returned.controller.Idle?
      && forall i :: 0 <= i < |returned.workers| ==>
           var w := returned.workers[i];
           w.queue == [] && w.accepted == w.handled + InFlight(w)
  {
    RunKeepsFlushed(cfg, Apply(cfg, s, FlushBegin), during, t);
    ReachableInv(cfg, before, s);
    StepKeepsInv(cfg, s, FlushBegin);
    RunKeepsInv(cfg, Apply(cfg, s, FlushBegin), during);
    hide Runs, Counted, Lifecycle;
    LastQueueFlushed(cfg, t);
  }

  lemma LastQueueFlushed(cfg: Config, t: State)
    requires AllFifo(t) && FlushedSoFar(t) && Enabled(cfg, t, FlushWorker) && t.controller.next == |t.workers| - 1
    ensures
      var returned := Apply(cfg, t, FlushWorker);
      && returned.controller.Idle?
      && forall i :: 0 <= i < |returned.workers| ==>
           var w := returned.workers[i];
           w.queue == [] && w.accepted == w.handled + InFlight(w)
  {
    forall i | 0 <= i < |t.workers|
      ensures t.workers[i].queue == [] && t.workers[i].accepted == t.workers[i].handled + InFlight(t.workers[i])
    {
      assert Fifo(t.workers[i]);
    }
  }

  // ----- Flow affinity -----

  /** The items whose hashed prefix is that of `data`. */
  function Select(items: seq<WorkItem>, data: seq<byte>): seq<WorkItem> {
    if items == [] then []
    else if Pinned(Last(items).data) == Pinned(data) then Select(Init(items), data) + [Last(items)]
    else Select(Init(items), data)
  }

  lemma {:induction false} SelectConcat(a: seq<WorkItem>, b: seq<WorkItem>, data: seq<byte>)
    ensures Select(a + b, data) == Select(a, data) + Select(b, data)
  {
    if b == [] {
      assert a + b == a;
    } else {
      assert Init(a + b) == a + Init(b) && Last(a + b) == Last(b);
      SelectConcat(a, Init(b), data);
      hide Pinned;
      ConcatAssociates(Select(a, data), Select(Init(b), data), [Last(b)]);
    }
  }

  lemma SelectOne(items: seq<WorkItem>, item: WorkItem, data: seq<byte>)
    ensures Select(items + [item], data)
            == if Pinned(item.data) == Pinned(data) then Select(items, data) + [item] else Select(items, data)
  {
    assert Init(items + [item]) == items;
  }

  /** Everything with the prefix of `data` is at one worker, and the logs agree with that worker's. */
  predicate PinnedLogs(s: State, data: seq<byte>) {
    && |s.workers| > 0
    && var w := PinnedWorker(|s.workers|, data);
    && (forall t :: t in s.submissions && s.submissions[t].Assigned?
                    && Pinned(s.submissions[t].item.data) == Pinned(data)
                    ==> s.submissions[t].worker == w)
    && (forall i :: 0 <= i < |s.workers| && i != w ==> Select(s.workers[i].accepted, data) == [])
    && Select(s.acceptLog, data) == Select(s.workers[w].accepted, data)
    && Select(s.handleLog, data) == Select(s.workers[w].handled, data)
  }

  lemma StepKeepsPinnedLogs(cfg: Config, s: State, step: Step, data: seq<byte>)
    requires cfg.strategy == FlowPinned && PinnedLogs(s, data) && AllFifo(s) && Enabled(cfg, s, step)
    ensures PinnedLogs(Apply(cfg, s, step), data)
  {
    hide PinnedLogs, Enabled, Apply;
    if step.SubmitPush? {
      PushKeepsPinnedLogs(cfg, s, step, data);
    } else if step.WorkerHandle? {
      HandleKeepsPinnedLogs(cfg, s, step, data);
    } else if step.SubmitAssign? {
      AssignKeepsPinnedLogs(cfg, s, step, data);
    } else {
      OtherStepKeepsPinnedLogs(cfg, s, step, data);
    }
  }

  lemma AssignKeepsPinnedLogs(cfg: Config, s: State, step: Step, data: seq<byte>)
    requires cfg.strategy == FlowPinned && PinnedLogs(s, data) && Enabled(cfg, s, step) && step.SubmitAssign?
    ensures PinnedLogs(Apply(cfg, s, step), data)
  {
    hide Hash, Select, Pinned;
  }

  lemma OtherStepKeepsPinnedLogs(cfg: Config, s: State, step: Step, data: seq<byte>)
    requires PinnedLogs(s, data) && Enabled(cfg, s, step)
    requires !step.SubmitPush? && !step.WorkerHandle? && !step.SubmitAssign?
    ensures PinnedLogs(Apply(cfg, s, step), data)
  {
    hide PinnedWorker, Pinned, Select;
  }

  lemma PushKeepsPinnedLogs(cfg: Config, s: State, step: Step, data: seq<byte>)
    requires PinnedLogs(s, data) && Enabled(cfg, s, step) && step.SubmitPush?
    ensures PinnedLogs(Apply(cfg, s, step), data)
  {
    hide PinnedWorker, Pinned, Select;
    var item, w := s.submissions[step.thread].item, s.submissions[step.thread].worker;
    SelectOne(s.acceptLog, item, data);
    SelectOne(s.workers[w].accepted, item, data);
  }

  lemma HandleKeepsPinnedLogs(cfg: Config, s: State, step: Step, data: seq<byte>)
    requires PinnedLogs(s, data) && AllFifo(s) && Enabled(cfg, s, step) && step.WorkerHandle?
    ensures PinnedLogs(Apply(cfg, s, step), data)
  {
    hide PinnedWorker, Pinned, Select, Fifo;
    var worker := s.workers[step.worker];
    SelectOne(s.handleLog, worker.thread.item, data);
    SelectOne(worker.handled, worker.thread.item, data);
    if step.worker != PinnedWorker(|s.workers|, data) {
      InFlightIsAccepted(worker, data);
    }
  }

  lemma InFlightIsAccepted(w: Worker, data: seq<byte>)
    requires Fifo(w) && w.thread.Decoding? && Select(w.accepted, data) == []
    ensures Pinned(w.thread.item.data) != Pinned(data)
  {
    SelectConcat(w.handled + [w.thread.item], w.queue, data);
    SelectOne(w.handled, w.thread.item, data);
  }

  lemma {:induction false} RunKeepsPinnedLogs(cfg: Config, steps: seq<Step>, s: State, data: seq<byte>)
    requires cfg.strategy == FlowPinned && Runs(cfg, Initial(cfg), steps, s)
    ensures PinnedLogs(s, data)
  {
    if steps != [] {
      var before := RunFrom(cfg, Initial(cfg), Init(steps)).value;
      RunKeepsPinnedLogs(cfg, Init(steps), before, data);
      ReachableInv(cfg, Init(steps), before);
      StepKeepsPinnedLogs(cfg, before, Last(steps), data);
    }
  }

  /** Packets with the same first 40 bytes go to one worker and are handled in the order in which they were accepted,
      whatever the other workers do: the handled ones are the accepted ones less those still at that worker. */
  lemma PinnedFlowsKeepOrder(cfg: Config, steps: seq<Step>, s: State, data: seq<byte>)
    requires cfg.strategy == FlowPinned && Runs(cfg, Initial(cfg), steps, s)
    ensures |s.workers| > 0
    ensures
      var w := s.workers[PinnedWorker(|s.workers|, data)];
      Select(s.acceptLog, data) == Select(s.handleLog, data) + Select(InFlight(w) + w.queue, data)
  {
    RunKeepsPinnedLogs(cfg, steps, s, data);
    ReachableInv(cfg, steps, s);
    SelectedFifo(s.workers[PinnedWorker(|s.workers|, data)], data);
    hide Runs, Inv, Select;
  }

  lemma SelectedFifo(w: Worker, data: seq<byte>)
    requires Fifo(w)
    ensures Select(w.accepted, data) == Select(w.handled, data) + Select(InFlight(w) + w.queue, data)
  {
    assert w.accepted == w.handled + (InFlight(w) + w.queue);
    SelectConcat(w.handled, InFlight(w) + w.queue, data);
  }

  // ----- What lies outside these conditions -----

  /** Whether adding a byte takes a reduced sum beyond 64 bits. */
  function Carry(sum: nat, b: byte): nat {
    if sum % TWO64 + b >= TWO64 then 1 else 0
  }

  function Wraps(prefix: seq<byte>, b: byte): nat {
    Carry(Hash(prefix) * 31, b)
  }

  /** Pinning knows bytes, not flows: packets that agree on their first 39 bytes go to the same one of `n` workers if
      and only if `n` divides the difference of their 40th bytes, less 2^64 where one of them wraps the hash around. */
  lemma OneByteUnpins(n: nat, prefix: seq<byte>, b: byte, c: byte, x: seq<byte>, y: seq<byte>)
    requires n > 0 && |prefix| == 39
    ensures
      var same := PinnedWorker(n, prefix + [b] + x) == PinnedWorker(n, prefix + [c] + y);
      && (same <==> (b - c - (Wraps(prefix, b) - Wraps(prefix, c)) * TWO64) % n == 0)
      && (Wraps(prefix, b) == Wraps(prefix, c) || TWO64 % n == 0 ==> (same <==> b % n == c % n))
  {
    hide Hash, Pinned;
    LastHashedByte(prefix, b, x);
    LastHashedByte(prefix, c, y);
    var k, wb, wc := Hash(prefix) * 31 % TWO64, Wraps(prefix, b), Wraps(prefix, c);
    hide Wraps;
    SameRemainder(k + b - wb * TWO64, k + c - wc * TWO64, n);
    SameRemainder(b, c, n);
    if TWO64 % n == 0 {
      MultipleIsIgnored(b - c, wc - wb, TWO64, n);
    }
  }

  /** The hash of one byte is its value, that of two the first times 31 plus the second; the remainder is the worker. */
  lemma HashOfShortData(n: nat, a: byte, b: byte)
    requires n > 0
    ensures Hash([a]) == a && Hash([a, b]) == 31 * a as int + b
    ensures PinnedWorker(n, [a]) == a % n && PinnedWorker(n, [a, b]) == (31 * a as int + b) % n
  {
    assert Init([a]) == [] && Init([a, b]) == [a];
  }

  lemma LastHashedByte(prefix: seq<byte>, b: byte, x: seq<byte>)
    requires |prefix| == 39
    ensures Hash(Pinned(prefix + [b] + x)) == Hash(prefix) * 31 % TWO64 + b - Wraps(prefix, b) * TWO64
  {
    hide Hash, Carry;
    assert Pinned(prefix + [b] + x) == prefix + [b];
    HashStep(prefix, b);
    AddedRemainder(Hash(prefix) * 31, b);
  }

  lemma HashStep(prefix: seq<byte>, b: byte)
    ensures Hash(prefix + [b]) == (Hash(prefix) * 31 + b) % TWO64
  {
    assert Init(prefix + [b]) == prefix;
  }

  lemma AddedRemainder(sum: nat, b: byte)
    ensures (sum + b) % TWO64 == sum % TWO64 + b - Carry(sum, b) * TWO64
  {
  }

  lemma SameRemainder(x: int, y: int, n: nat)
    requires n > 0
    ensures x % n == y % n <==> (x - y) % n == 0
  {
    var a, r, c, s := x / n, x % n, y / n, y % n;
    assert x == n * a + r && y == n * c + s;
    assert x - y == n * (a - c) + (r - s);
    RemainderOf(x - y, a - c, r - s, n);
    if r < s {
      assert x - y == n * (a - c - 1) + (r - s + n) by { assert n * (a - c - 1) == n * (a - c) - n; }
      RemainderOf(x - y, a - c - 1, r - s + n, n);
    }
  }

  lemma RemainderOf(x: int, q: int, r: int, n: nat)
    requires n > 0 && x == n * q + r
    ensures 0 <= r < n ==> x % n == r
  {
    if 0 <= r < n {
      assert n * (x / n - q) == r - x % n;
      MultipleGrows(n, x / n - q);
    }
  }

  lemma MultipleGrows(n: int, d: int)
    requires n > 0
    ensures d >= 1 ==> n * d >= n
    ensures d <= -1 ==> n * d <= -n
  {
  }

  lemma MultipleIsIgnored(x: int, k: int, m: nat, n: nat)
    requires n > 0 && m % n == 0
    ensures (x + k * m) % n == 0 <==> x % n == 0
  {
    var q := m / n;
    assert m == n * q;
    assert k * m == n * (k * q);
    var y := x + k * m;
    assert y == n * (k * q + x / n) + x % n by {
      assert n * (k * q + x / n) == n * (k * q) + n * (x / n);
    }
    RemainderOf(y, k * q + x / n, x % n, n);
  }

  lemma RunSnoc(cfg: Config, s: State, steps: seq<Step>, t: State, step: Step)
    requires Runs(cfg, s, steps, t) && Enabled(cfg, t, step)
    ensures Runs(cfg, s, steps + [step], Apply(cfg, t, step))
  {
    assert Init(steps + [step]) == steps;
  }

  function OneWorker(decode: (seq<WorkItem>, WorkItem) -> Decode): Config {
    Config(1, FlowPinned, decode)
  }

  /** A single worker, started, with a call of submit that has chosen the worker but not pushed yet. */
  lemma SubmitUnderWay(decode: (seq<WorkItem>, WorkItem) -> Decode, item: WorkItem)
    returns (steps: seq<Step>, s: State)
    ensures Runs(OneWorker(decode), Initial(OneWorker(decode)), steps, s)
    ensures s.started && s.controller.Idle? && !s.terminated && s.submissions == map[0 := Assigned(item, 0)]
    ensures s.workers == [NewWorker().(running := true, thread := Waiting)]
  {
    var cfg := OneWorker(decode);
    steps, s := [], Initial(cfg);
    assert s.workers == [NewWorker()];
    RunSnoc(cfg, Initial(cfg), steps, s, StartBegin);
    steps, s := steps + [StartBegin], Apply(cfg, s, StartBegin);
    RunSnoc(cfg, Initial(cfg), steps, s, StartWorker);
    steps, s := steps + [StartWorker], Apply(cfg, s, StartWorker);
    RunSnoc(cfg, Initial(cfg), steps, s, SubmitCheck(0, item));
    steps, s := steps + [SubmitCheck(0, item)], Apply(cfg, s, SubmitCheck(0, item));
    RunSnoc(cfg, Initial(cfg), steps, s, SubmitAssign(0));
    steps, s := steps + [SubmitAssign(0)], Apply(cfg, s, SubmitAssign(0));
  }

  /** The `started` check is made outside the worker's lock: an item pushed behind it can outlive its worker, and
      stop then returns with that item accepted and not handled. */
  lemma LatePushIsLost(decode: (seq<WorkItem>, WorkItem) -> Decode, item: WorkItem)
    returns (steps: seq<Step>, s: State)
    ensures Runs(OneWorker(decode), Initial(OneWorker(decode)), steps, s)
    ensures Stopped(s) && |s.workers| == 1 && s.workers[0].accepted == [item] && s.workers[0].handled == []
  {
    var cfg := OneWorker(decode);
    steps, s := SubmitUnderWay(decode, item);
    RunSnoc(cfg, Initial(cfg), steps, s, StopBegin);
    steps, s := steps + [StopBegin], Apply(cfg, s, StopBegin);
    RunSnoc(cfg, Initial(cfg), steps, s, StopWorker);
    steps, s := steps + [StopWorker], Apply(cfg, s, StopWorker);
    RunSnoc(cfg, Initial(cfg), steps, s, WorkerExit(0));
    steps, s := steps + [WorkerExit(0)], Apply(cfg, s, WorkerExit(0));
    RunSnoc(cfg, Initial(cfg), steps, s, SubmitPush(0));
    steps, s := steps + [SubmitPush(0)], Apply(cfg, s, SubmitPush(0));
    RunSnoc(cfg, Initial(cfg), steps, s, JoinWorker);
    steps, s := steps + [JoinWorker], Apply(cfg, s, JoinWorker);
  }

  /** A processor that is stopped and left alone. */
  predicate Halted(s: State) {
    && !s.started && (s.controller.Idle? || s.controller.Flushing?)
    && forall i :: 0 <= i < |s.workers| ==> s.workers[i].thread.Absent?
  }

  lemma StepKeepsHalted(cfg: Config, s: State, step: Step)
    requires Halted(s) && Enabled(cfg, s, step) && !step.StartBegin?
    ensures
      var s' := Apply(cfg, s, step);
      && Halted(s') && |s'.workers| == |s.workers|
      && forall i :: 0 <= i < |s.workers| ==> s'.workers[i].handled == s.workers[i].handled
  {
    hide PinnedWorker;
  }

  /** What stop left unhandled stays so unless the processor is started again. */
  lemma {:induction false} HaltedHandlesNothing(cfg: Config, s: State, steps: seq<Step>, t: State)
    requires Halted(s) && Runs(cfg, s, steps, t) && StartBegin !in steps
    ensures Halted(t) && |t.workers| == |s.workers|
    ensures forall i :: 0 <= i < |s.workers| ==> t.workers[i].handled == s.workers[i].handled
  {
    hide Halted;
    if steps != [] {
      var u := RunFrom(cfg, s, Init(steps)).value;
      HaltedHandlesNothing(cfg, s, Init(steps), u);
      assert Last(steps) in steps;
      StepKeepsHalted(cfg, u, Last(steps));
    }
  }

  lemma StoppedIsHalted(cfg: Config, steps: seq<Step>, s: State)
    requires Runs(cfg, Initial(cfg), steps, s) && Stopped(s)
    ensures Halted(s)
  {
    ReachableInv(cfg, steps, s);
    hide AllFifo, Counted;
  }

  /** After a restart the new thread handles it. */
  lemma RestartHandlesLatePush(decode: (seq<WorkItem>, WorkItem) -> Decode, item: WorkItem)
    returns (steps: seq<Step>, s: State)
    requires decode([], item).Returns?
    ensures Runs(OneWorker(decode), Initial(OneWorker(decode)), steps, s)
    ensures s.started && |s.workers| == 1 && s.workers[0].accepted == s.workers[0].handled == [item]
  {
    var cfg := OneWorker(decode);
    steps, s := LatePushIsLost(decode, item);
    ReachableInv(cfg, steps, s);
    hide Runs, RunFrom;
    OnlyItemQueued(s, item);
    RunSnoc(cfg, Initial(cfg), steps, s, StartBegin);
    steps, s := steps + [StartBegin], Apply(cfg, s, StartBegin);
    RunSnoc(cfg, Initial(cfg), steps, s, StartWorker);
    steps, s := steps + [StartWorker], Apply(cfg, s, StartWorker);
    RunSnoc(cfg, Initial(cfg), steps, s, WorkerTake(0));
    steps, s := steps + [WorkerTake(0)], Apply(cfg, s, WorkerTake(0));
    RunSnoc(cfg, Initial(cfg), steps, s, WorkerHandle(0));
    steps, s := steps + [WorkerHandle(0)], Apply(cfg, s, WorkerHandle(0));
  }

  lemma OnlyItemQueued(s: State, item: WorkItem)
    requires Inv(s) && Stopped(s) && |s.workers| == 1
    requires s.workers[0].accepted == [item] && s.workers[0].handled == []
    ensures s.workers[0].thread.Absent? && s.workers[0].queue == [item]
  {
    assert Fifo(s.workers[0]) && Down(s.workers[0]);
    assert s.workers[0].handled + InFlight(s.workers[0]) + s.workers[0].queue == s.workers[0].queue;
  }

  /** Flush looks at the queues only: it can return while the item it should wait for is still being decoded. */
  lemma FlushMissesItemInFlight(decode: (seq<WorkItem>, WorkItem) -> Decode, item: WorkItem)
    returns (steps: seq<Step>, s: State)
    ensures Runs(OneWorker(decode), Initial(OneWorker(decode)), steps, s)
    ensures s.controller.Idle? && steps != [] && Last(steps) == FlushWorker
    ensures |s.workers| == 1 && s.workers[0].accepted == [item] && s.workers[0].handled == []
  {
    var cfg := OneWorker(decode);
    steps, s := SubmitUnderWay(decode, item);
    RunSnoc(cfg, Initial(cfg), steps, s, SubmitPush(0));
    steps, s := steps + [SubmitPush(0)], Apply(cfg, s, SubmitPush(0));
    RunSnoc(cfg, Initial(cfg), steps, s, WorkerTake(0));
    steps, s := steps + [WorkerTake(0)], Apply(cfg, s, WorkerTake(0));
    RunSnoc(cfg, Initial(cfg), steps, s, FlushBegin);
    steps, s := steps + [FlushBegin], Apply(cfg, s, FlushBegin);
    RunSnoc(cfg, Initial(cfg), steps, s, FlushWorker);
    steps, s := steps + [FlushWorker], Apply(cfg, s, FlushWorker);
  }

  // ----- Items that do not decode -----

  /** The only worker is decoding the only item. */
  lemma ItemInFlight(decode: (seq<WorkItem>, WorkItem) -> Decode, item: WorkItem)
    returns (steps: seq<Step>, s: State)
    ensures Runs(OneWorker(decode), Initial(OneWorker(decode)), steps, s)
    ensures s.started && s.controller.Idle? && !s.terminated
    ensures s.workers == [Worker([], true, Decoding(item), [item], [], [])]
  {
    var cfg := OneWorker(decode);
    steps, s := SubmitUnderWay(decode, item);
    RunSnoc(cfg, Initial(cfg), steps, s, SubmitPush(0));
    steps, s := steps + [SubmitPush(0)], Apply(cfg, s, SubmitPush(0));
    RunSnoc(cfg, Initial(cfg), steps, s, WorkerTake(0));
    steps, s := steps + [WorkerTake(0)], Apply(cfg, s, WorkerTake(0));
    assert [] + [item] == [item] && [item][1..] == [];
    assert s.workers[0] == Worker([], true, Decoding(item), [item], [], []);
  }

  /** An item for which decoding hangs: stop begins and cannot return any more, whatever happens. */
  lemma HangingItemBlocksStop(decode: (seq<WorkItem>, WorkItem) -> Decode, item: WorkItem)
    returns (steps: seq<Step>, s: State)
    requires decode([], item).Hangs?
    ensures Runs(OneWorker(decode), Initial(OneWorker(decode)), steps, s)
    ensures BeingStopped(s) && forall more: seq<Step>, t: State :: Runs(OneWorker(decode), s, more, t) ==> !Stopped(t)
  {
    var cfg := OneWorker(decode);
    steps, s := ItemInFlight(decode, item);
    RunSnoc(cfg, Initial(cfg), steps, s, StopBegin);
    steps, s := steps + [StopBegin], Apply(cfg, s, StopBegin);
    ReachableInv(cfg, steps, s);
    assert s.workers[0].accepted[..0] == [];
    NeverStops(cfg, s, 0, 0);
  }

  /** An item for which decoding throws: the process ends with the item accepted and not handled, and nothing moves. */
  lemma ThrowingItemEndsProcess(decode: (seq<WorkItem>, WorkItem) -> Decode, item: WorkItem)
    returns (steps: seq<Step>, s: State)
    requires decode([], item).Throws?
    ensures Runs(OneWorker(decode), Initial(OneWorker(decode)), steps, s)
    ensures s.terminated && forall step :: !Enabled(OneWorker(decode), s, step)
    ensures |s.workers| == 1 && s.workers[0].accepted == [item] && s.workers[0].handled == []
  {
    var cfg := OneWorker(decode);
    steps, s := ItemInFlight(decode, item);
    RunSnoc(cfg, Initial(cfg), steps, s, WorkerThrow(0));
    steps, s := steps + [WorkerThrow(0)], Apply(cfg, s, WorkerThrow(0));
  }
}
