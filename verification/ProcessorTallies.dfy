/** Which of its two counters the processor raises for an item. */
module ProcessorTallies {
  import opened Common
  import opened Processor
  import opened ProcessorRuns

  /** How many of the items, handled in this order by one worker, came to the given result. */
  function CameTo(cfg: Config, ok: bool, items: seq<WorkItem>): nat {
    if items == [] then 0
    else CameTo(cfg, ok, Init(items)) + (if cfg.decode(Init(items), Last(items)) == Returns(ok) then 1 else 0)
  }

  /** The positions of the items that did. */
  function Positions(cfg: Config, ok: bool, items: seq<WorkItem>): set<nat> {
    set k: nat | k < |items| && cfg.decode(items[..k], items[k]) == Returns(ok)
  }

  lemma PositionsSnoc(cfg: Config, ok: bool, before: seq<WorkItem>, item: WorkItem)
    ensures Positions(cfg, ok, before + [item])
            == Positions(cfg, ok, before) + (if cfg.decode(before, item) == Returns(ok) then {|before|} else {})
  {
    var items := before + [item];
    assert items[..|before|] == before;
    assert forall k :: 0 <= k < |before| ==> before[..k] == items[..k];
  }

  lemma {:induction false} CameToIsPositions(cfg: Config, ok: bool, items: seq<WorkItem>)
    ensures CameTo(cfg, ok, items) == |Positions(cfg, ok, items)|
  {
    if items == [] {
      assert Positions(cfg, ok, items) == {};
    } else {
      CameToIsPositions(cfg, ok, Init(items));
      PositionsSnoc(cfg, ok, Init(items), Last(items));
      assert items == Init(items) + [Last(items)];
      assert |items| - 1 !in Positions(cfg, ok, Init(items));
      hide Positions;
    }
  }

  /** The items that a worker has handled and counted: all but one whose count is still to come. */
  function Settled(w: Worker): seq<WorkItem> {
    if w.thread.Counting? && w.handled != [] then Init(w.handled) else w.handled
  }

  function SettledAs(cfg: Config, ok: bool): Worker -> nat {
    (w: Worker) => CameTo(cfg, ok, Settled(w))
  }

  /** An item about to be counted is the last one handled, and what it came to is known. */
  predicate CountFits(cfg: Config, w: Worker) {
    w.thread.Counting? ==> w.handled != [] && cfg.decode(Init(w.handled), Last(w.handled)) == Returns(w.thread.ok)
  }

  /** `packetsProcessed` counts the settled items that decoded, `packetsDropped` those that did not. */
  predicate Tallied(cfg: Config, s: State) {
    && (forall i :: 0 <= i < |s.workers| ==> CountFits(cfg, s.workers[i]))
    && s.packetsProcessed == Total(SettledAs(cfg, true), s.workers)
    && s.packetsDropped == Total(SettledAs(cfg, false), s.workers)
  }

  lemma InitialTallies(cfg: Config)
    ensures Tallied(cfg, Initial(cfg))
  {
    TotalOfNew(SettledAs(cfg, true), |Initial(cfg).workers|);
    TotalOfNew(SettledAs(cfg, false), |Initial(cfg).workers|);
  }

  /** What a step does to the settled items of the worker it changes. */
  lemma TouchedTally(cfg: Config, s: State, step: Step, w: nat, ok: bool)
    requires Lifecycle(s) && Enabled(cfg, s, step) && Touched(cfg, s, step) == Some(w)
    requires w < |s.workers| && CountFits(cfg, s.workers[w])
    ensures |Apply(cfg, s, step).workers| == |s.workers|
    ensures
      var t, counted := Apply(cfg, s, step), step.WorkerCount? && s.workers[w].thread.ok == ok;
      && CountFits(cfg, t.workers[w])
      && SettledAs(cfg, ok)(t.workers[w]) == SettledAs(cfg, ok)(s.workers[w]) + (if counted then 1 else 0)
  {
    hide PinnedWorker, Push;
    if step.WorkerHandle? {
      assert Init(s.workers[w].handled + [s.workers[w].thread.item]) == s.workers[w].handled;
    } else if step.SubmitPush? {
      PushKeepsTally(cfg, s.workers[w], s.submissions[step.thread].item);
    }
  }

  lemma PushKeepsTally(cfg: Config, w: Worker, item: WorkItem)
    ensures Settled(Push(w, item)) == Settled(w)
    ensures CountFits(cfg, w) ==> CountFits(cfg, Push(w, item))
  {
  }

  lemma TouchedIsAWorker(cfg: Config, s: State, step: Step)
    requires Lifecycle(s) && Enabled(cfg, s, step)
    ensures
      var t := Apply(cfg, s, step);
      match Touched(cfg, s, step)
      case None => t.workers == s.workers
      case Some(w) => w < |s.workers| == |t.workers| && t.workers == s.workers[w := t.workers[w]]
  {
    hide PinnedWorker, Push, Lifecycle;
  }

  /** Of the counters only one is raised, and only by the step that counts. */
  lemma CountersOfStep(cfg: Config, s: State, step: Step)
    requires Enabled(cfg, s, step)
    ensures
      var t := Apply(cfg, s, step);
      var processed := step.WorkerCount? && s.workers[step.worker].thread.ok;
      var dropped := step.WorkerCount? && !s.workers[step.worker].thread.ok;
      && t.packetsProcessed == s.packetsProcessed + (if processed then 1 else 0)
      && t.packetsDropped == s.packetsDropped + (if dropped then 1 else 0)
  {
    hide PinnedWorker, Push;
  }

  lemma TouchedWorkerTallies(cfg: Config, s: State, t: State, w: nat, processed: nat, dropped: nat)
    requires Tallied(cfg, s) && w < |s.workers| == |t.workers| && t.workers == s.workers[w := t.workers[w]]
    requires CountFits(cfg, t.workers[w])
    requires SettledAs(cfg, true)(t.workers[w]) == SettledAs(cfg, true)(s.workers[w]) + processed
    requires SettledAs(cfg, false)(t.workers[w]) == SettledAs(cfg, false)(s.workers[w]) + dropped
    requires t.packetsProcessed == s.packetsProcessed + processed && t.packetsDropped == s.packetsDropped + dropped
    ensures Tallied(cfg, t)
  {
    hide CountFits, SettledAs;
    TotalUpdate(SettledAs(cfg, true), s.workers, w, t.workers[w]);
    TotalUpdate(SettledAs(cfg, false), s.workers, w, t.workers[w]);
  }

  lemma FitsAt(cfg: Config, s: State, w: nat)
    requires Tallied(cfg, s) && w < |s.workers|
    ensures CountFits(cfg, s.workers[w])
  {
  }

  lemma SameWorkersTallied(cfg: Config, s: State, t: State)
    requires Tallied(cfg, s) && t.workers == s.workers
    requires t.packetsProcessed == s.packetsProcessed && t.packetsDropped == s.packetsDropped
    ensures Tallied(cfg, t)
  {
  }

  /** Every step keeps both tallies. */
  lemma StepKeepsTallies(cfg: Config, s: State, step: Step)
    requires Lifecycle(s) && Tallied(cfg, s) && Enabled(cfg, s, step)
    ensures Tallied(cfg, Apply(cfg, s, step))
  {
    hide Lifecycle, Tallied, CountFits, SettledAs, Apply, Enabled;
    TouchedIsAWorker(cfg, s, step);
    CountersOfStep(cfg, s, step);
    var t := Apply(cfg, s, step);
    if Touched(cfg, s, step).Some? {
      var w := Touched(cfg, s, step).value;
      FitsAt(cfg, s, w);
      TouchedTally(cfg, s, step, w, true);
      TouchedTally(cfg, s, step, w, false);
      var processed, dropped := t.packetsProcessed - s.packetsProcessed, t.packetsDropped - s.packetsDropped;
      TouchedWorkerTallies(cfg, s, t, w, processed, dropped);
    } else {
      SameWorkersTallied(cfg, s, t);
    }
  }

  /** In every reachable state the counters are exactly the items that decoded and those that did not, over all workers,
      an item whose count is still to come left out. */
  lemma {:induction false} ReachableTallies(cfg: Config, steps: seq<Step>, s: State)
    requires Runs(cfg, Initial(cfg), steps, s)
    ensures Tallied(cfg, s)
  {
    hide Tallied, Inv, Enabled, Apply;
    if steps == [] {
      InitialTallies(cfg);
    } else {
      var before := RunFrom(cfg, Initial(cfg), Init(steps)).value;
      ReachableTallies(cfg, Init(steps), before);
      ReachableInv(cfg, Init(steps), before);
      LifecycleOf(before);
      StepKeepsTallies(cfg, before, Last(steps));
    }
  }

  function AcceptedAs(cfg: Config, ok: bool): Worker -> nat {
    (w: Worker) => CameTo(cfg, ok, w.accepted)
  }

  lemma {:induction false} SameTotals(f: Worker -> nat, g: Worker -> nat, ws: seq<Worker>)
    requires forall i :: 0 <= i < |ws| ==> f(ws[i]) == g(ws[i])
    ensures Total(f, ws) == Total(g, ws)
  {
    if ws != [] {
      assert Last(ws) == ws[|ws| - 1];
      SameTotals(f, g, Init(ws));
    }
  }

  /** After a stop with no submission under way, of all accepted items exactly those that decoded are counted as
      processed and exactly the others as dropped. */
  lemma StoppedTallies(cfg: Config, before: seq<Step>, s: State, after: seq<Step>, t: State)
    requires Runs(cfg, Initial(cfg), before, s)
    requires s.started && s.submissions == map[] && Enabled(cfg, s, StopBegin)
    requires Runs(cfg, Apply(cfg, s, StopBegin), after, t) && StartBegin !in after
    requires Stopped(t)
    ensures t.packetsProcessed == Total(AcceptedAs(cfg, true), t.workers)
    ensures t.packetsDropped == Total(AcceptedAs(cfg, false), t.workers)
  {
    var steps := before + [StopBegin] + after;
    hide Inv, Enabled, Apply, Tallied;
    RunSnoc(cfg, Initial(cfg), before, s, StopBegin);
    RunConcat(cfg, Initial(cfg), before + [StopBegin], Apply(cfg, s, StopBegin), after, t);
    QuiescentStopDrains(cfg, before, s, after, t);
    ReachableTallies(cfg, steps, t);
    StoppedIsHalted(cfg, steps, t);
    TalliedWhenHalted(cfg, t);
  }

  lemma TalliedWhenHalted(cfg: Config, s: State)
    requires Tallied(cfg, s) && Halted(s) && AllHandled(s)
    ensures s.packetsProcessed == Total(AcceptedAs(cfg, true), s.workers)
    ensures s.packetsDropped == Total(AcceptedAs(cfg, false), s.workers)
  {
    SameTotals(SettledAs(cfg, true), AcceptedAs(cfg, true), s.workers);
    SameTotals(SettledAs(cfg, false), AcceptedAs(cfg, false), s.workers);
  }

  lemma {:induction false} RunConcat(cfg: Config, s: State, a: seq<Step>, t: State, b: seq<Step>, u: State)
    requires Runs(cfg, s, a, t) && Runs(cfg, t, b, u)
    ensures Runs(cfg, s, a + b, u)
    decreases |b|
  {
    hide Enabled, Apply;
    if b == [] {
      assert a + b == a;
    } else {
      var v := RunFrom(cfg, t, Init(b)).value;
      RunConcat(cfg, s, a, t, Init(b), v);
      assert Init(a + b) == a + Init(b) && Last(a + b) == Last(b);
    }
  }
}
