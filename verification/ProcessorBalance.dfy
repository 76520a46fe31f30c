/** Round robin deals the items out in turn. */
module ProcessorBalance {
  import opened Common
  import opened Processor
  import opened ProcessorRuns

  /** The tickets drawn in a run. */
  function Tickets(steps: seq<Step>): nat {
    if steps == [] then 0 else Tickets(Init(steps)) + (if Last(steps).SubmitAssign? then 1 else 0)
  }

  /** How many of a run's items were assigned to worker `w`, read off the submissions under way. */
  function TicketsOf(cfg: Config, steps: seq<Step>, w: nat): nat
    requires RunFrom(cfg, Initial(cfg), steps).Some?
  {
    if steps == [] then 0
    else
      var submissions := RunFrom(cfg, Initial(cfg), steps).value.submissions;
      TicketsOf(cfg, Init(steps), w)
      + (match Last(steps)
         case SubmitAssign(t) =>
           if t in submissions && submissions[t].Assigned? && submissions[t].worker == w then 1 else 0
         case _ => 0)
  }

  lemma WorkersStay(cfg: Config, s: State, step: Step)
    requires Lifecycle(s) && Enabled(cfg, s, step)
    ensures |Apply(cfg, s, step).workers| == |s.workers|
    ensures cfg.strategy.RoundRobin? ==>
              Apply(cfg, s, step).roundRobinCounter
              == if step.SubmitAssign? then (s.roundRobinCounter + 1) % TWO64 else s.roundRobinCounter
  {
    hide PinnedWorker, Push, Lifecycle;
  }

  /** The number of turns that have come to `w` after `t` tickets over `n` workers. */
  function Turns(t: nat, n: nat, w: nat): nat
    requires n > 0
  {
    t / n + (if w < t % n then 1 else 0)
  }

  lemma NextTurn(t: nat, n: nat, w: nat)
    requires w < n
    ensures Turns(t + 1, n, w) == Turns(t, n, w) + (if t % n == w then 1 else 0)
  {
    var q, r := t / n, t % n;
    assert t == n * q + r;
    if r + 1 < n {
      QuotientOf(t + 1, q, r + 1, n);
    } else {
      assert n * (q + 1) == n * q + n;
      QuotientOf(t + 1, q + 1, 0, n);
    }
  }

  lemma QuotientOf(x: nat, q: nat, r: nat, n: nat)
    requires n > 0 && x == n * q + r && r < n
    ensures x / n == q && x % n == r
  {
    RemainderOf(x, q, r, n);
    assert n * (x / n) == n * q;
    MultipleGrows(n, x / n - q);
    assert n * (x / n - q) == n * (x / n) - n * q;
  }

  lemma TicketIsTurn(cfg: Config, s: State, t: nat)
    requires Enabled(cfg, s, SubmitAssign(t)) && cfg.strategy.RoundRobin?
    ensures |s.workers| > 0 && t in s.submissions && s.submissions[t].Checked?
    ensures Apply(cfg, s, SubmitAssign(t)).submissions
            == s.submissions[t := Assigned(s.submissions[t].item, s.roundRobinCounter % |s.workers|)]
  {
  }

  /** Ticket `k` goes to worker `k % n`. */
  lemma TicketNumbered(cfg: Config, s: State, t: nat, k: nat)
    requires Enabled(cfg, s, SubmitAssign(t)) && cfg.strategy.RoundRobin?
    requires k < TWO64 && s.roundRobinCounter == k
    ensures
      var u := Apply(cfg, s, SubmitAssign(t));
      && |s.workers| > 0 && u.roundRobinCounter == (if k + 1 == TWO64 then 0 else k + 1)
      && t in u.submissions && u.submissions[t].Assigned? && u.submissions[t].worker == k % |s.workers|
  {
    TicketIsTurn(cfg, s, t);
    hide Enabled;
  }

  function WorkerCount(cfg: Config): nat {
    if cfg.numThreads == 0 then 1 else cfg.numThreads
  }

  lemma {:induction false} TicketsAreTurns(cfg: Config, steps: seq<Step>, s: State, w: nat)
    requires Runs(cfg, Initial(cfg), steps, s) && cfg.strategy.RoundRobin? && Tickets(steps) <= TWO64
    requires w < WorkerCount(cfg)
    ensures |s.workers| == WorkerCount(cfg)
    ensures s.roundRobinCounter == if Tickets(steps) == TWO64 then 0 else Tickets(steps)
    ensures TicketsOf(cfg, steps, w) == Turns(Tickets(steps), WorkerCount(cfg), w)
  {
    hide Inv, Lifecycle, Enabled, Apply, Turns;
    if steps == [] {
      NoTurns(WorkerCount(cfg), w);
    } else {
      var before := RunFrom(cfg, Initial(cfg), Init(steps)).value;
      TicketsAreTurns(cfg, Init(steps), before, w);
      ReachableInv(cfg, Init(steps), before);
      LifecycleOf(before);
      WorkersStay(cfg, before, Last(steps));
      if Last(steps).SubmitAssign? {
        TicketNumbered(cfg, before, Last(steps).thread, Tickets(Init(steps)));
        NextTurn(Tickets(Init(steps)), WorkerCount(cfg), w);
      }
    }
  }

  lemma NoTurns(n: nat, w: nat)
    requires w < n
    ensures Turns(0, n, w) == 0
  {
  }

  /** After any run with at most 2^64 tickets each worker was assigned its share, the first ones one more if the number
      of tickets is no multiple of theirs. */
  lemma RoundRobinIsBalanced(cfg: Config, steps: seq<Step>, s: State, w: nat)
    requires Runs(cfg, Initial(cfg), steps, s) && cfg.strategy.RoundRobin? && Tickets(steps) <= TWO64
    requires w < |s.workers|
    ensures |s.workers| == if cfg.numThreads == 0 then 1 else cfg.numThreads
    ensures TicketsOf(cfg, steps, w)
            == Tickets(steps) / |s.workers| + (if w < Tickets(steps) % |s.workers| then 1 else 0)
  {
    TicketsAreTurns(cfg, steps, s, 0);
    TicketsAreTurns(cfg, steps, s, w);
    hide TicketsOf, Tickets;
  }
}
