/** The packet processor's object: the sections between two points at which other threads can act. Each is one step. */
module ProcessorCode {
  import opened Common
  import opened Processor
  import opened ProcessorRuns

  class PacketProcessor {
    const cfg: Config
    var workers: seq<Worker>
    var started: bool
    var roundRobinCounter: nat
    var packetsProcessed: nat
    var packetsDropped: nat
    ghost var controller: Controller
    ghost var submissions: map<nat, Submission>
    ghost var acceptLog: seq<WorkItem>
    ghost var handleLog: seq<WorkItem>
    ghost var terminated: bool

    ghost function Current(): State
      reads this
    {
      State(workers, started, roundRobinCounter, packetsProcessed, packetsDropped, controller, submissions,
            acceptLog, handleLog, terminated)
    }

    constructor (cfg: Config)
      ensures this.cfg == cfg && Current() == Initial(cfg)
    {
      this.cfg := cfg;
      workers, started, roundRobinCounter, packetsProcessed, packetsDropped := [], false, 0, 0, 0;
      controller, submissions, acceptLog, handleLog, terminated := Idle, map[], [], [], false;
      new;
      var numThreads := if cfg.numThreads == 0 then 1 else cfg.numThreads;
      for i := 0 to numThreads
        invariant Current() == State(seq(i, _ => NewWorker()), false, 0, 0, 0, Idle, map[], [], [], false)
      {
        workers := workers + [NewWorker()];
      }
    }

    // ----- submit, called by thread `t` -----

    method SubmitBegins(t: nat, item: WorkItem) returns (goesOn: bool)
      requires !terminated && t !in submissions
      modifies this
      ensures Current() == Apply(cfg, old(Current()), SubmitCheck(t, item))
      ensures goesOn <==> t in submissions
    {
      if !started {
        return false;
      }
      submissions := submissions[t := Checked(item)];
      return true;
    }

    method ChooseWorker(t: nat, item: WorkItem) returns (workerIdx: nat)
      requires Enabled(cfg, Current(), SubmitAssign(t)) && submissions[t].item == item
      modifies this
      ensures Current() == Apply(cfg, old(Current()), SubmitAssign(t))
      ensures workerIdx < |workers| && submissions[t] == Assigned(item, workerIdx)
    {
      if cfg.strategy == RoundRobin {
        workerIdx := roundRobinCounter % |workers|;
        roundRobinCounter := (roundRobinCounter + 1) % TWO64;
      } else {
        var hash := HashPrefix(item.data);
        workerIdx := hash % |workers|;
      }
      submissions := submissions[t := Assigned(item, workerIdx)];
    }

    method PushItem(t: nat, item: WorkItem, workerIdx: nat)
      requires Enabled(cfg, Current(), SubmitPush(t)) && submissions[t] == Assigned(item, workerIdx)
      modifies this
      ensures Current() == Apply(cfg, old(Current()), SubmitPush(t))
    {
      workers := workers[workerIdx := Push(workers[workerIdx], item)];
      submissions, acceptLog := submissions - {t}, acceptLog + [item];
    }

    // ----- workerLoop of worker `w` -----

    /** The locked section, entered once the wait is over: the loop takes an item or ends, and it ends only when it is
        told to and has nothing left. */
    method WorkerSection(w: nat) returns (step: Step)
      requires !terminated && w < |workers| && workers[w].thread.Waiting?
      requires workers[w].queue != [] || !workers[w].running
      modifies this
      ensures Enabled(cfg, old(Current()), step) && Current() == Apply(cfg, old(Current()), step)
      ensures step == if old(workers)[w].queue != [] then WorkerTake(w) else WorkerExit(w)
    {
      var worker := workers[w];
      if !worker.running && worker.queue == [] {
        workers := workers[w := worker.(thread := Exited, unattended := [])];
        return WorkerExit(w);
      }
      var item := worker.queue[0];
      workers := workers[w := worker.(queue := worker.queue[1..], thread := Decoding(item))];
      return WorkerTake(w);
    }

    /** The handler's call and the counter that goes up. */
    method CountItem(w: nat, ok: bool) returns (ghost between: State)
      requires Enabled(cfg, Current(), WorkerHandle(w)) && Outcome(cfg, workers[w]) == Returns(ok)
      modifies this
      ensures between == Apply(cfg, old(Current()), WorkerHandle(w)) && Enabled(cfg, between, WorkerCount(w))
      ensures Current() == Apply(cfg, between, WorkerCount(w))
      ensures packetsProcessed == old(packetsProcessed) + (if ok then 1 else 0)
      ensures packetsDropped == old(packetsDropped) + (if ok then 0 else 1)
    {
      var worker := workers[w];
      workers := workers[w := worker.(thread := Counting(ok), handled := worker.handled + [worker.thread.item])];
      handleLog := handleLog + [worker.thread.item];
      between := Current();
      assert between == Apply(cfg, old(Current()), WorkerHandle(w));
      if ok {
        packetsProcessed := packetsProcessed + 1;
      } else {
        packetsDropped := packetsDropped + 1;
      }
      workers := workers[w := workers[w].(thread := Waiting)];
    }

    /** Decoding, the handler's call, and the counter that goes up: two steps, if decoding returns. A call that hangs
        has no effect that anyone sees; one that throws ends the process. */
    method FinishItem(w: nat) returns (outcome: Decode, ghost between: State)
      requires !terminated && w < |workers| && workers[w].thread.Decoding?
      modifies this
      ensures outcome == cfg.decode(old(workers)[w].handled, old(workers)[w].thread.item)
      ensures outcome.Returns? ==>
                && Enabled(cfg, old(Current()), WorkerHandle(w))
                && between == Apply(cfg, old(Current()), WorkerHandle(w))
                && Enabled(cfg, between, WorkerCount(w)) && Current() == Apply(cfg, between, WorkerCount(w))
                && packetsProcessed == old(packetsProcessed) + (if outcome.ok then 1 else 0)
                && packetsDropped == old(packetsDropped) + (if outcome.ok then 0 else 1)
      ensures outcome.Hangs? ==>
                && Current() == old(Current())
                && !Enabled(cfg, Current(), WorkerHandle(w)) && !Enabled(cfg, Current(), WorkerThrow(w))
      ensures outcome.Throws? ==>
                Enabled(cfg, old(Current()), WorkerThrow(w)) && Current() == Apply(cfg, old(Current()), WorkerThrow(w))
    {
      var worker := workers[w];
      outcome := cfg.decode(worker.handled, worker.thread.item);
      between := Current();
      match outcome {
        case Returns(ok) => between := CountItem(w, ok);
        case Throws => terminated := true;
        case Hangs =>
      }
    }

    // ----- start -----

    /** The loop body of `start`. */
    method StartThread(i: nat)
      requires Enabled(cfg, Current(), StartWorker) && controller == Starting(i)
      modifies this
      ensures Current() == Apply(cfg, old(Current()), StartWorker)
      ensures |workers| == |old(workers)| && started == old(started) && terminated == old(terminated)
      ensures controller == if i + 1 == |workers| then Idle else Starting(i + 1)
    {
      workers := workers[i := workers[i].(running := true, thread := Waiting)];
      controller := if i + 1 == |workers| then Idle else Starting(i + 1);
    }

    /** Without interference `start` is a run of the step system after which every worker is up. */
    method Start() returns (ghost steps: seq<Step>)
      requires Inv(Current()) && controller.Idle? && !terminated
      modifies this
      ensures Runs(cfg, old(Current()), steps, Current())
      ensures old(started) ==> Current() == old(Current())
      ensures started && controller.Idle? && forall i :: 0 <= i < |workers| ==> Up(workers[i])
    {
      hide Runs, Lifecycle, Up, Inv;
      ghost var before := Current();
      BeginStart(cfg, before);
      steps := [StartBegin];
      if started {
        return;
      }
      started := true;
      controller := Starting(0);
      assert Current() == Apply(cfg, before, StartBegin);
      hide Apply;
      for i := 0 to |workers|
        invariant |workers| == |before.workers|
        invariant Runs(cfg, before, steps, Current()) && Lifecycle(Current())
        invariant started && !terminated && controller == if i == |workers| then Idle else Starting(i)
      {
        ghost var s := Current();
        RunSnoc(cfg, before, steps, s, StartWorker);
        StepKeepsLifecycle(cfg, s, StartWorker);
        steps := steps + [StartWorker];
        StartThread(i);
      }
      AllWorkersUp(Current());
    }
  }

  lemma BeginStart(cfg: Config, s: State)
    requires Inv(s) && s.controller.Idle? && !s.terminated
    ensures Runs(cfg, s, [StartBegin], Apply(cfg, s, StartBegin)) && Lifecycle(Apply(cfg, s, StartBegin))
    ensures |s.workers| > 0 && (s.started ==> forall i :: 0 <= i < |s.workers| ==> Up(s.workers[i]))
  {
    hide Lifecycle, AllFifo, Counted;
    RunSnoc(cfg, s, [], s, StartBegin);
    assert [] + [StartBegin] == [StartBegin];
    StepKeepsLifecycle(cfg, s, StartBegin);
    AllWorkersUp(s);
  }

  lemma AllWorkersUp(s: State)
    requires Lifecycle(s)
    ensures s.started && s.controller.Idle? ==> forall i :: 0 <= i < |s.workers| ==> Up(s.workers[i])
  {
  }
}
