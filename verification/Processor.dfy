/** The multi-threaded packet processor as a system of atomic steps. */
module Processor {
  import opened Common

  datatype DistributionStrategy = FlowPinned | RoundRobin

  datatype WorkItem = WorkItem(data: seq<byte>, timestamp: int, dlt: nat)

  /** Where a worker's thread is. `Absent`: not created yet, or joined. */
  datatype Thread = Absent | Waiting | Decoding(item: WorkItem) | Counting(ok: bool) | Exited

  /** `accepted`, `handled` and `unattended` are histories: items pushed, items handed to the handler, and items
      pushed since the thread exited or before it was created. */
  datatype Worker = Worker(
    queue: seq<WorkItem>, running: bool, thread: Thread,
    accepted: seq<WorkItem>, handled: seq<WorkItem>, unattended: seq<WorkItem>)

  /** A call of `submit` between its `started` check and its push. */
  datatype Submission = Checked(item: WorkItem) | Assigned(item: WorkItem, worker: nat)

  /** The one thread that calls start, stop and flush, and the worker its loop has come to. */
  datatype Controller = Idle | Starting(next: nat) | Stopping(next: nat) | Joining(next: nat) | Flushing(next: nat)

  /** `terminated`: an exception left a worker's thread, which ends the process. */
  datatype State = State(
    workers: seq<Worker>, started: bool, roundRobinCounter: nat, packetsProcessed: nat, packetsDropped: nat,
    controller: Controller, submissions: map<nat, Submission>,
    acceptLog: seq<WorkItem>, handleLog: seq<WorkItem>, terminated: bool)

  datatype Step =
    | SubmitCheck(thread: nat, item: WorkItem)
    | SubmitAssign(thread: nat)
    | SubmitPush(thread: nat)
    | WorkerTake(worker: nat)
    | WorkerHandle(worker: nat)
    | WorkerThrow(worker: nat)
    | WorkerCount(worker: nat)
    | WorkerExit(worker: nat)
    | StartBegin
    | StartWorker
    | StopBegin
    | StopWorker
    | JoinWorker
    | FlushBegin
    | FlushWorker

  /** What decoding an item and calling the handler for it comes to: a packet or an error; or a call that never returns;
      or an exception, which nothing catches on the worker's thread. */
  datatype Decode = Returns(ok: bool) | Hangs | Throws

  /** Each worker has a decoder of its own, so what an item comes to depends on the items the worker handled before. */
  datatype Config = Config(
    numThreads: nat, strategy: DistributionStrategy, decode: (seq<WorkItem>, WorkItem) -> Decode)

  // ----- Choosing a worker -----

  const HASHED_BYTES := 40

  function Pinned(data: seq<byte>): seq<byte> {
    if |data| < HASHED_BYTES then data else data[..HASHED_BYTES]
  }

  /** size_t arithmetic: every step is reduced modulo 2^64. */
  function Hash(data: seq<byte>): nat {
    if data == [] then 0 else (Hash(Init(data)) * 31 + Last(data)) % TWO64
  }

  /** The hash loop of `submit`. */
  method HashPrefix(data: seq<byte>) returns (hash: nat)
    ensures hash == Hash(Pinned(data))
  {
    hash := 0;
    var n := if |data| < HASHED_BYTES then |data| else HASHED_BYTES;
    for i := 0 to n
      invariant hash == Hash(data[..i])
    {
      assert Init(data[..i + 1]) == data[..i];
      hash := (hash * 31 + data[i]) % TWO64;
    }
    assert data[..n] == Pinned(data);
  }

  /** The worker that pinning chooses; it depends on the first 40 bytes only. */
  function PinnedWorker(n: nat, data: seq<byte>): (w: nat)
    requires n > 0
    ensures w < n
  {
    Hash(Pinned(data)) % n
  }

  // ----- The steps -----

  function NewWorker(): Worker {
    Worker([], false, Absent, [], [], [])
  }

  /** A thread count of zero is replaced by one. */
  function Initial(cfg: Config): State {
    var n := if cfg.numThreads == 0 then 1 else cfg.numThreads;
    State(seq(n, _ => NewWorker()), false, 0, 0, 0, Idle, map[], [], [], false)
  }

  /** What the item in flight comes to. */
  function Outcome(cfg: Config, w: Worker): Decode
    requires w.thread.Decoding?
  {
    cfg.decode(w.handled, w.thread.item)
  }

  predicate Enabled(cfg: Config, s: State, step: Step) {
    var n := |s.workers|;
    !s.terminated &&
    match step
    case SubmitCheck(t, _) => t !in s.submissions
    case SubmitAssign(t) => t in s.submissions && s.submissions[t].Checked? && n > 0
    case SubmitPush(t) => t in s.submissions && s.submissions[t].Assigned? && s.submissions[t].worker < n
    case WorkerTake(w) => w < n && s.workers[w].thread.Waiting? && s.workers[w].queue != []
    case WorkerHandle(w) => w < n && s.workers[w].thread.Decoding? && Outcome(cfg, s.workers[w]).Returns?
    case WorkerThrow(w) => w < n && s.workers[w].thread.Decoding? && Outcome(cfg, s.workers[w]).Throws?
    case WorkerCount(w) => w < n && s.workers[w].thread.Counting?
    case WorkerExit(w) => w < n && s.workers[w].thread.Waiting? && !s.workers[w].running && s.workers[w].queue == []
    case StartBegin => s.controller.Idle?
    case StartWorker => s.controller.Starting? && s.controller.next < n
    case StopBegin => s.controller.Idle?
    case StopWorker => s.controller.Stopping? && s.controller.next < n
    case JoinWorker =>
      && s.controller.Joining? && s.controller.next < n
      && (s.workers[s.controller.next].thread.Exited? || s.workers[s.controller.next].thread.Absent?)
    case FlushBegin => s.controller.Idle?
    case FlushWorker => s.controller.Flushing? && s.controller.next < n && s.workers[s.controller.next].queue == []
  }

  function WithWorker(s: State, w: nat, worker: Worker): State
    requires w < |s.workers|
  {
    s.(workers := s.workers[w := worker])
  }

  predicate Attended(w: Worker) {
    w.thread.Waiting? || w.thread.Decoding? || w.thread.Counting?
  }

  function Push(w: Worker, item: WorkItem): Worker {
    w.(queue := w.queue + [item], accepted := w.accepted + [item],
       unattended := if Attended(w) then w.unattended else w.unattended + [item])
  }

  function Assign(cfg: Config, s: State, item: WorkItem): (State, nat)
    requires |s.workers| > 0
  {
    match cfg.strategy
    case RoundRobin =>
      (s.(roundRobinCounter := (s.roundRobinCounter + 1) % TWO64), s.roundRobinCounter % |s.workers|)
    case FlowPinned =>
      (s, PinnedWorker(|s.workers|, item.data))
  }

  function Apply(cfg: Config, s: State, step: Step): State
    requires Enabled(cfg, s, step)
  {
    var n := |s.workers|;
    match step
    case SubmitCheck(t, item) =>
      if s.started then s.(submissions := s.submissions[t := Checked(item)]) else s
    case SubmitAssign(t) =>
      var item := s.submissions[t].item;
      var (s', w) := Assign(cfg, s, item);
      s'.(submissions := s.submissions[t := Assigned(item, w)])
    case SubmitPush(t) =>
      var Assigned(item, w) := s.submissions[t];
      WithWorker(s, w, Push(s.workers[w], item))
      .(submissions := s.submissions - {t}, acceptLog := s.acceptLog + [item])
    case WorkerTake(w) =>
      var worker := s.workers[w];
      WithWorker(s, w, worker.(queue := worker.queue[1..], thread := Decoding(worker.queue[0])))
    case WorkerHandle(w) =>
      var worker := s.workers[w];
      var handled := worker.handled + [worker.thread.item];
      WithWorker(s, w, worker.(thread := Counting(Outcome(cfg, worker).ok), handled := handled))
      .(handleLog := s.handleLog + [worker.thread.item])
    case WorkerThrow(w) =>
      s.(terminated := true)
    case WorkerCount(w) =>
      var counted := WithWorker(s, w, s.workers[w].(thread := Waiting));
      if s.workers[w].thread.ok then counted.(packetsProcessed := s.packetsProcessed + 1)
      else counted.(packetsDropped := s.packetsDropped + 1)
    case WorkerExit(w) =>
      WithWorker(s, w, s.workers[w].(thread := Exited, unattended := []))
    case StartBegin =>
      if s.started then s else s.(started := true, controller := Starting(0))
    case StartWorker =>
      var i := s.controller.next;
      WithWorker(s, i, s.workers[i].(running := true, thread := Waiting))
      .(controller := if i + 1 == n then Idle else Starting(i + 1))
    case StopBegin =>
      if s.started then s.(started := false, controller := Stopping(0)) else s
    case StopWorker =>
      var i := s.controller.next;
      WithWorker(s, i, s.workers[i].(running := false))
      .(controller := if i + 1 == n then Joining(0) else Stopping(i + 1))
    case JoinWorker =>
      var i := s.controller.next;
      WithWorker(s, i, s.workers[i].(thread := Absent))
      .(controller := if i + 1 == n then Idle else Joining(i + 1))
    case FlushBegin =>
      s.(controller := Flushing(0))
    case FlushWorker =>
      var i := s.controller.next;
      s.(controller := if i + 1 == n then Idle else Flushing(i + 1))
  }

  /** The state after a run from `s`, if every step of it was enabled in its turn. */
  function RunFrom(cfg: Config, s: State, steps: seq<Step>): Option<State> {
    if steps == [] then Some(s)
    else
      match RunFrom(cfg, s, Init(steps))
      case None => None
      case Some(t) => if Enabled(cfg, t, Last(steps)) then Some(Apply(cfg, t, Last(steps))) else None
  }

  /** Some interleaving leads from `s` to `t`. */
  predicate Runs(cfg: Config, s: State, steps: seq<Step>, t: State) {
    RunFrom(cfg, s, steps) == Some(t)
  }

  // ----- What every step keeps -----

  function InFlight(w: Worker): seq<WorkItem> {
    if w.thread.Decoding? then [w.thread.item] else []
  }

  /** Items accepted but not yet counted as processed or dropped. */
  function Uncounted(w: Worker): nat {
    |w.queue| + (if w.thread.Decoding? || w.thread.Counting? then 1 else 0)
  }

  function AcceptedCount(w: Worker): nat {
    |w.accepted|
  }

  function Total(amount: Worker -> nat, ws: seq<Worker>): nat {
    if ws == [] then 0 else Total(amount, Init(ws)) + amount(Last(ws))
  }

  lemma {:induction false} TotalUpdate(amount: Worker -> nat, ws: seq<Worker>, i: nat, w: Worker)
    requires i < |ws|
    ensures Total(amount, ws[i := w]) == Total(amount, ws) - amount(ws[i]) + amount(w)
  {
    if i == |ws| - 1 {
      assert Init(ws[i := w]) == Init(ws);
    } else {
      assert Init(ws[i := w]) == Init(ws)[i := w];
      TotalUpdate(amount, Init(ws), i, w);
    }
  }

  lemma {:induction false} TotalOfNew(amount: Worker -> nat, n: nat)
    requires amount(NewWorker()) == 0
    ensures Total(amount, seq(n, _ => NewWorker())) == 0
  {
    if n > 0 {
      assert Init(seq(n, _ => NewWorker())) == seq(n - 1, _ => NewWorker());
      TotalOfNew(amount, n - 1);
    }
  }

  /** First in, first out, nothing lost and nothing twice. */
  predicate Fifo(w: Worker) {
    w.accepted == w.handled + InFlight(w) + w.queue
  }

  predicate AllFifo(s: State) {
    forall i :: 0 <= i < |s.workers| ==> Fifo(s.workers[i])
  }

  predicate Counted(s: State) {
    s.packetsProcessed + s.packetsDropped + Total(Uncounted, s.workers) == Total(AcceptedCount, s.workers)
  }

  /** A worker that no thread attends holds exactly what was pushed since it was last attended. */
  predicate UnattendedIsQueue(w: Worker) {
    !Attended(w) ==> w.queue == w.unattended
  }

  predicate Up(w: Worker) {
    w.running && Attended(w)
  }

  predicate GoingDown(w: Worker) {
    !w.running && !w.thread.Absent?
  }

  predicate Down(w: Worker) {
    !w.running && w.thread.Absent?
  }

  /** How the controller's progress, `started` and the workers' threads fit together. */
  predicate Lifecycle(s: State) {
    var ws := s.workers;
    match s.controller
    case Idle => forall i :: 0 <= i < |ws| ==> if s.started then Up(ws[i]) else Down(ws[i])
    case Flushing(k) => k < |ws| && forall i :: 0 <= i < |ws| ==> if s.started then Up(ws[i]) else Down(ws[i])
    case Starting(k) => k < |ws| && s.started && forall i :: 0 <= i < |ws| ==> if i < k then Up(ws[i]) else Down(ws[i])
    case Stopping(k) =>
      k < |ws| && !s.started && forall i :: 0 <= i < |ws| ==> if i < k then GoingDown(ws[i]) else Up(ws[i])
    case Joining(k) =>
      k < |ws| && !s.started && forall i :: 0 <= i < |ws| ==> if i < k then Down(ws[i]) else GoingDown(ws[i])
  }

  predicate AssignmentsInRange(s: State) {
    forall t :: t in s.submissions && s.submissions[t].Assigned? ==> s.submissions[t].worker < |s.workers|
  }

  predicate Inv(s: State) {
    && |s.workers| > 0
    && AllFifo(s) && Counted(s) && Lifecycle(s) && AssignmentsInRange(s)
    && (forall i :: 0 <= i < |s.workers| ==> UnattendedIsQueue(s.workers[i]))
  }

  lemma LifecycleOf(s: State)
    requires Inv(s)
    ensures Lifecycle(s)
  {
  }

  lemma InitialInv(cfg: Config)
    ensures Inv(Initial(cfg))
  {
    TotalOfNew(Uncounted, |Initial(cfg).workers|);
    TotalOfNew(AcceptedCount, |Initial(cfg).workers|);
  }

  lemma PushIsFifo(w: Worker, item: WorkItem)
    requires Fifo(w)
    ensures Fifo(Push(w, item))
  {
    assert (w.handled + InFlight(w) + w.queue) + [item] == w.handled + InFlight(w) + (w.queue + [item]);
  }

  lemma TakeIsFifo(w: Worker)
    requires Fifo(w) && w.thread.Waiting? && w.queue != []
    ensures Fifo(w.(queue := w.queue[1..], thread := Decoding(w.queue[0])))
  {
    assert w.handled + [] + w.queue == w.handled + [w.queue[0]] + w.queue[1..];
  }

  lemma HandleIsFifo(w: Worker, ok: bool)
    requires Fifo(w) && w.thread.Decoding?
    ensures Fifo(w.(thread := Counting(ok), handled := w.handled + [w.thread.item]))
  {
    assert w.handled + [w.thread.item] + w.queue == (w.handled + [w.thread.item]) + [] + w.queue;
  }

  /** The worker a step changes, if it changes one. */
  function Touched(cfg: Config, s: State, step: Step): Option<nat>
    requires Enabled(cfg, s, step)
  {
    match step
    case SubmitPush(t) => Some(s.submissions[t].worker)
    case WorkerTake(w) => Some(w)
    case WorkerHandle(w) => Some(w)
    case WorkerCount(w) => Some(w)
    case WorkerExit(w) => Some(w)
    case StartWorker => Some(s.controller.next)
    case StopWorker => Some(s.controller.next)
    case JoinWorker => Some(s.controller.next)
    case _ => None
  }

  lemma WithWorkerKeepsFifo(s: State, s': State, w: nat)
    requires AllFifo(s) && w < |s.workers| == |s'.workers| && s'.workers == s.workers[w := s'.workers[w]]
    requires Fifo(s'.workers[w])
    ensures AllFifo(s')
  {
    hide Fifo;
  }

  lemma StepKeepsFifo(cfg: Config, s: State, step: Step)
    requires AllFifo(s) && Lifecycle(s) && Enabled(cfg, s, step)
    ensures AllFifo(Apply(cfg, s, step))
  {
    hide AllFifo, Push, Fifo;
    if Touched(cfg, s, step).Some? {
      var w := Touched(cfg, s, step).value;
      TouchedIsFifo(cfg, s, step, w);
      WithWorkerKeepsFifo(s, Apply(cfg, s, step), w);
    } else {
      SameWorkersStayFifo(s, Apply(cfg, s, step));
    }
  }

  lemma SameWorkersStayFifo(s: State, s': State)
    requires AllFifo(s) && s'.workers == s.workers
    ensures AllFifo(s')
  {
  }

  lemma TouchedIsFifo(cfg: Config, s: State, step: Step, w: nat)
    requires AllFifo(s) && Lifecycle(s) && Enabled(cfg, s, step) && Touched(cfg, s, step) == Some(w)
    ensures w < |s.workers| && Fifo(Apply(cfg, s, step).workers[w])
  {
    hide Push;
    assert Fifo(s.workers[w]);
    match step
    case SubmitPush(t) => PushIsFifo(s.workers[w], s.submissions[t].item);
    case WorkerTake(_) => TakeIsFifo(s.workers[w]);
    case WorkerHandle(_) => HandleIsFifo(s.workers[w], Outcome(cfg, s.workers[w]).ok);
    case _ =>
  }

  lemma UpdateKeepsCount(s: State, s': State, w: nat)
    requires Counted(s) && w < |s.workers| == |s'.workers| && s'.workers == s.workers[w := s'.workers[w]]
    requires s'.packetsProcessed + s'.packetsDropped + Uncounted(s'.workers[w]) - |s'.workers[w].accepted|
             == s.packetsProcessed + s.packetsDropped + Uncounted(s.workers[w]) - |s.workers[w].accepted|
    ensures Counted(s')
  {
    TotalUpdate(Uncounted, s.workers, w, s'.workers[w]);
    TotalUpdate(AcceptedCount, s.workers, w, s'.workers[w]);
  }

  lemma StepKeepsCount(cfg: Config, s: State, step: Step)
    requires Counted(s) && Lifecycle(s) && Enabled(cfg, s, step)
    ensures Counted(Apply(cfg, s, step))
  {
    hide Counted;
    match Touched(cfg, s, step)
    case None => SameWorkersSameCount(cfg, s, step);
    case Some(w) => UpdateKeepsCount(s, Apply(cfg, s, step), w);
  }

  lemma SameWorkersSameCount(cfg: Config, s: State, step: Step)
    requires Counted(s) && Enabled(cfg, s, step) && Touched(cfg, s, step).None?
    ensures Counted(Apply(cfg, s, step))
  {
  }

  predicate IsWorkerStep(step: Step) {
    step.SubmitPush? || step.WorkerTake? || step.WorkerHandle? || step.WorkerCount? || step.WorkerExit?
  }

  lemma StepKeepsLifecycle(cfg: Config, s: State, step: Step)
    requires |s.workers| > 0 && Lifecycle(s) && Enabled(cfg, s, step)
    ensures |Apply(cfg, s, step).workers| == |s.workers|
    ensures Lifecycle(Apply(cfg, s, step))
  {
    hide Lifecycle;
    if IsWorkerStep(step) {
      var w := Touched(cfg, s, step).value;
      WorkerStepOnWorker(cfg, s, step, w);
      SameRoleKeepsLifecycle(s, Apply(cfg, s, step), w);
    } else {
      ControllerStepKeepsLifecycle(cfg, s, step);
    }
  }

  lemma ControllerStepKeepsLifecycle(cfg: Config, s: State, step: Step)
    requires |s.workers| > 0 && Lifecycle(s) && Enabled(cfg, s, step) && !IsWorkerStep(step)
    ensures |Apply(cfg, s, step).workers| == |s.workers|
    ensures Lifecycle(Apply(cfg, s, step))
  {
    hide PinnedWorker;
  }

  /** A worker step leaves the controller alone and changes one worker, whose part in the lifecycle stays the same. */
  lemma WorkerStepOnWorker(cfg: Config, s: State, step: Step, w: nat)
    requires Enabled(cfg, s, step) && IsWorkerStep(step) && Touched(cfg, s, step) == Some(w)
    ensures
      var s' := Apply(cfg, s, step);
      && w < |s.workers| == |s'.workers| && s'.controller == s.controller && s'.started == s.started
      && s'.workers == s.workers[w := s'.workers[w]] && SameRole(s.workers[w], s'.workers[w])
  {
  }

  predicate SameRole(before: Worker, after: Worker) {
    (Up(before) ==> Up(after)) && (GoingDown(before) ==> GoingDown(after)) && (Down(before) ==> Down(after))
  }

  lemma SameRoleKeepsLifecycle(s: State, s': State, w: nat)
    requires |s.workers| > 0 && Lifecycle(s) && w < |s.workers| == |s'.workers|
    requires s'.controller == s.controller && s'.started == s.started
    requires s'.workers == s.workers[w := s'.workers[w]] && SameRole(s.workers[w], s'.workers[w])
    ensures Lifecycle(s')
  {
    hide Up, GoingDown, Down;
  }

  lemma StepKeepsAssignments(cfg: Config, s: State, step: Step)
    requires |s.workers| > 0 && AssignmentsInRange(s) && Enabled(cfg, s, step)
    ensures AssignmentsInRange(Apply(cfg, s, step))
  {
    hide Hash;
  }

  lemma StepKeepsUnattended(cfg: Config, s: State, step: Step)
    requires Lifecycle(s) && Enabled(cfg, s, step)
    requires forall i :: 0 <= i < |s.workers| ==> UnattendedIsQueue(s.workers[i])
    ensures
      var s' := Apply(cfg, s, step);
      forall i :: 0 <= i < |s'.workers| ==> UnattendedIsQueue(s'.workers[i])
  {
  }

  lemma StepKeepsInv(cfg: Config, s: State, step: Step)
    requires Inv(s) && Enabled(cfg, s, step)
    ensures Inv(Apply(cfg, s, step))
  {
    StepKeepsFifo(cfg, s, step);
    StepKeepsCount(cfg, s, step);
    StepKeepsLifecycle(cfg, s, step);
    StepKeepsAssignments(cfg, s, step);
    StepKeepsUnattended(cfg, s, step);
  }

  lemma {:induction false} RunKeepsInv(cfg: Config, s: State, steps: seq<Step>)
    requires Inv(s) && RunFrom(cfg, s, steps).Some?
    ensures Inv(RunFrom(cfg, s, steps).value)
  {
    if steps != [] {
      RunKeepsInv(cfg, s, Init(steps));
      StepKeepsInv(cfg, RunFrom(cfg, s, Init(steps)).value, Last(steps));
    }
  }

  lemma ReachableInv(cfg: Config, steps: seq<Step>, s: State)
    requires Runs(cfg, Initial(cfg), steps, s)
    ensures Inv(s)
  {
    InitialInv(cfg);
    RunKeepsInv(cfg, Initial(cfg), steps);
  }
}
