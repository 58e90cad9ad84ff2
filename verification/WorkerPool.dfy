/** The test runner's worker pool as a state machine: a main thread that dispatches jobs, sends one
    break token per worker, collects results and joins; workers that share a FIFO input queue and an
    output queue; and an interrupt that may come at any moment. Every interleaving is a run. */
module WorkerPool {
  import opened Options

  /** A job object. A token is a job with isBreak set; an interrupted job comes back with it set. */
  datatype Job = Job(id: nat, isBreak: bool, isSkip: bool, returncode: int)

  datatype Worker =
    | Getting
    | Got(job: Job)
    | Running(job: Job)
    | Putting(job: Job)
    | Returned

  datatype Main =
    | Dispatching(next: nat)
    | Breaking(sent: nat)
    | Collecting(received: nat)
    | Joining(joined: nat)
    | Finished

  datatype Tally = Tally(passed: nat, failed: nat, valgrind: nat, crashed: nat, skipped: nat)

  datatype State = State(
    input: seq<Job>, output: seq<Job>, workers: seq<Worker>, main: Main, threadExit: bool,
    jobs: nat, totalTests: nat, tally: Tally, collected: seq<Job>)

  /** The moves of the threads; Finish carries the return code of the job that ran. */
  datatype Step =
    | Interrupt
    | MainStep
    | Get(w: nat)
    | Check(w: nat)
    | Finish(w: nat, returncode: int)
    | Put(w: nat)

  const TOKEN := Job(0, true, false, 0)

  function Init(processors: nat): State {
    State([], [], seq(processors, _ => Getting), Dispatching(0), false, 0, 0, Tally(0, 0, 0, 0, 0), [])
  }

  /** plan[k] says whether job k is to be skipped. */
  predicate Enabled(plan: seq<bool>, s: State, step: Step) {
    match step
    case Interrupt => true
    case MainStep =>
      (match s.main
       case Dispatching(_) => true
       case Breaking(_) => true
       case Collecting(k) => k < s.jobs ==> s.output != []
       case Joining(k) => k < |s.workers| ==> s.workers[k].Returned?
       case Finished => false)
    case Get(w) => w < |s.workers| && s.workers[w].Getting? && s.input != []
    case Check(w) => w < |s.workers| && s.workers[w].Got?
    case Finish(w, _) => w < |s.workers| && s.workers[w].Running?
    case Put(w) => w < |s.workers| && s.workers[w].Putting?
  }

  function Count(t: Tally, job: Job): Tally {
    if job.isBreak then t
    else if job.isSkip then t.(skipped := t.skipped + 1)
    else if job.returncode == 0 then t.(passed := t.passed + 1)
    else if job.returncode == 1 then t.(failed := t.failed + 1)
    else if job.returncode == 2 then t.(valgrind := t.valgrind + 1)
    else t.(crashed := t.crashed + 1)
  }

  function MainMove(plan: seq<bool>, s: State): State
    requires Enabled(plan, s, MainStep)
  {
    match s.main
    case Dispatching(k) =>
      if k < |plan| then
        s.(input := s.input + [Job(k, false, plan[k], 0)], jobs := s.jobs + 1, totalTests := s.totalTests + 1,
           main := Dispatching(k + 1))
      else s.(main := Breaking(0))
    case Breaking(k) =>
      if k < |s.workers| then s.(input := s.input + [TOKEN], main := Breaking(k + 1))
      else s.(main := Collecting(0))
    case Collecting(k) =>
      if k < s.jobs then
        s.(output := s.output[1..], collected := s.collected + [s.output[0]],
           tally := Count(s.tally, s.output[0]), main := Collecting(k + 1))
      else s.(main := Joining(0))
    case Joining(k) =>
      if k < |s.workers| then s.(main := Joining(k + 1)) else s.(main := Finished)
  }

  /** What a worker does with a job it has taken. */
  function Checked(job: Job, threadExit: bool): Worker {
    if job.isBreak then Returned
    else if threadExit then Putting(job.(isBreak := true))
    else if job.isSkip then Putting(job)
    else Running(job)
  }

  function Apply(plan: seq<bool>, s: State, step: Step): State
    requires Enabled(plan, s, step)
  {
    match step
    case Interrupt => s.(threadExit := true)
    case MainStep => MainMove(plan, s)
    case Get(w) => s.(input := s.input[1..], workers := s.workers[w := Got(s.input[0])])
    case Check(w) => s.(workers := s.workers[w := Checked(s.workers[w].job, s.threadExit)])
    case Finish(w, rc) => s.(workers := s.workers[w := Putting(s.workers[w].job.(returncode := rc))])
    case Put(w) => s.(output := s.output + [s.workers[w].job], workers := s.workers[w := Getting])
  }

  /** The state after a run of the pool, or None if some step of it was not enabled. */
  function After(plan: seq<bool>, processors: nat, run: seq<Step>): Option<State>
    decreases |run|
  {
    if run == [] then Some(Init(processors))
    else
      match After(plan, processors, run[..|run| - 1])
      case None => None
      case Some(s) =>
        var step := run[|run| - 1];
        if Enabled(plan, s, step) then Some(Apply(plan, s, step)) else None
  }

  /** The runner's exit status. */
  function Result(s: State): int {
    if s.tally.passed + s.tally.skipped == s.totalTests then 0 else 1
  }

  // ----- where the jobs are

  /** How often the job object `id` occurs in a list. */
  ghost function Occurs(jobs: seq<Job>, id: nat): nat {
    if jobs == [] then 0 else (if jobs[0].id == id then 1 else 0) + Occurs(jobs[1..], id)
  }

  /** The same for the input queue, where tokens do not count. */
  ghost function Queued(jobs: seq<Job>, id: nat): nat {
    if jobs == [] then 0 else (if !jobs[0].isBreak && jobs[0].id == id then 1 else 0) + Queued(jobs[1..], id)
  }

  ghost function Tokens(jobs: seq<Job>): nat {
    if jobs == [] then 0 else (if jobs[0].isBreak then 1 else 0) + Tokens(jobs[1..])
  }

  /** The worker holds a real job, which an interrupt may have marked already. */
  ghost predicate Holding(w: Worker) {
    (w.Got? && !w.job.isBreak) || w.Running? || w.Putting?
  }

  /** The worker has taken its token. */
  ghost predicate Leaving(w: Worker) {
    w.Returned? || (w.Got? && w.job.isBreak)
  }

  ghost predicate Holds(w: Worker, id: nat) {
    Holding(w) && w.job.id == id
  }

  ghost function HoldsCount(ws: seq<Worker>, id: nat): nat {
    if ws == [] then 0 else (if Holds(ws[0], id) then 1 else 0) + HoldsCount(ws[1..], id)
  }

  ghost function HoldingCount(ws: seq<Worker>): nat {
    if ws == [] then 0 else (if Holding(ws[0]) then 1 else 0) + HoldingCount(ws[1..])
  }

  ghost function LeavingCount(ws: seq<Worker>): nat {
    if ws == [] then 0 else (if Leaving(ws[0]) then 1 else 0) + LeavingCount(ws[1..])
  }

  ghost function TallyOf(jobs: seq<Job>): Tally {
    if jobs == [] then Tally(0, 0, 0, 0, 0) else Count(TallyOf(jobs[..|jobs| - 1]), jobs[|jobs| - 1])
  }

  ghost function Dispatched(plan: seq<bool>, s: State): nat {
    if s.main.Dispatching? then s.main.next else |plan|
  }

  ghost function Sent(s: State): nat {
    match s.main
    case Dispatching(_) => 0
    case Breaking(k) => k
    case _ => |s.workers|
  }

  /** Every dispatched job is in exactly one place, once: the input queue, a worker, the output
      queue, or collected. Nothing else is anywhere. */
  ghost predicate Conserved(plan: seq<bool>, s: State) {
    && (forall id: nat ::
          Queued(s.input, id) + HoldsCount(s.workers, id) + Occurs(s.output, id) + Occurs(s.collected, id)
          == if id < Dispatched(plan, s) then 1 else 0)
    && |s.input| - Tokens(s.input) + HoldingCount(s.workers) + |s.output| + |s.collected| == Dispatched(plan, s)
  }

  /** Tokens are queued behind all real jobs, none is lost, and no worker takes one early. */
  ghost predicate TokensInOrder(s: State) {
    && Tokens(s.input) + LeavingCount(s.workers) == Sent(s)
    && (forall a, b :: 0 <= a < b < |s.input| && s.input[a].isBreak ==> s.input[b].isBreak)
    && (LeavingCount(s.workers) > 0 ==> Tokens(s.input) == |s.input|)
  }

  ghost predicate FromPlan(plan: seq<bool>, threadExit: bool, job: Job) {
    job.id < |plan| && job.isSkip == plan[job.id] && (job.isBreak ==> threadExit)
  }

  /** Jobs keep their skip flag, and only an interrupt marks a job as broken. */
  ghost predicate JobsGenuine(plan: seq<bool>, s: State) {
    && (forall k :: 0 <= k < |s.input| ==> s.input[k].isBreak || FromPlan(plan, s.threadExit, s.input[k]))
    && (forall k :: 0 <= k < |s.output| ==> FromPlan(plan, s.threadExit, s.output[k]))
    && (forall k :: 0 <= k < |s.collected| ==> FromPlan(plan, s.threadExit, s.collected[k]))
    && (forall k :: 0 <= k < |s.workers| ==>
          match s.workers[k]
          case Got(job) => job.isBreak || FromPlan(plan, s.threadExit, job)
          case Running(job) => !job.isBreak && !job.isSkip && FromPlan(plan, s.threadExit, job)
          case Putting(job) => FromPlan(plan, s.threadExit, job)
          case _ => true)
  }

  ghost predicate MainOk(plan: seq<bool>, s: State) {
    && Dispatched(plan, s) <= |plan| && Sent(s) <= |s.workers|
    && s.jobs == s.totalTests == Dispatched(plan, s)
    && s.tally == TallyOf(s.collected)
    && match s.main
       case Collecting(k) => |s.collected| == k <= s.jobs
       case Joining(k) =>
         |s.collected| == s.jobs && k <= |s.workers| && forall i :: 0 <= i < k ==> s.workers[i].Returned?
       case Finished => |s.collected| == s.jobs && forall i :: 0 <= i < |s.workers| ==> s.workers[i].Returned?
       case _ => s.collected == []
  }

  ghost predicate Inv(plan: seq<bool>, s: State) {
    Conserved(plan, s) && TokensInOrder(s) && JobsGenuine(plan, s) && MainOk(plan, s)
  }

  // ----- lemmas on the counts

  lemma {:induction false} WorkerUpdate(ws: seq<Worker>, i: nat, w: Worker)
    requires i < |ws|
    ensures forall id: nat :: HoldsCount(ws[i := w], id)
              == HoldsCount(ws, id) + (if Holds(w, id) then 1 else 0) - (if Holds(ws[i], id) then 1 else 0)
    ensures HoldingCount(ws[i := w])
            == HoldingCount(ws) + (if Holding(w) then 1 else 0) - (if Holding(ws[i]) then 1 else 0)
    ensures LeavingCount(ws[i := w])
            == LeavingCount(ws) + (if Leaving(w) then 1 else 0) - (if Leaving(ws[i]) then 1 else 0)
  {
    hide Holds, Holding, Leaving;
    if i == 0 {
      assert ws[i := w][1..] == ws[1..];
    } else {
      assert ws[i := w][1..] == ws[1..][i - 1 := w];
      WorkerUpdate(ws[1..], i - 1, w);
    }
  }

  lemma {:induction false} QueueAppend(jobs: seq<Job>, job: Job)
    ensures forall id: nat ::
              Queued(jobs + [job], id) == Queued(jobs, id) + if !job.isBreak && job.id == id then 1 else 0
    ensures forall id: nat :: Occurs(jobs + [job], id) == Occurs(jobs, id) + if job.id == id then 1 else 0
    ensures Tokens(jobs + [job]) == Tokens(jobs) + if job.isBreak then 1 else 0
  {
    if jobs == [] {
      assert (jobs + [job])[1..] == [];
    } else {
      assert (jobs + [job])[1..] == jobs[1..] + [job];
      QueueAppend(jobs[1..], job);
    }
  }

  lemma QueueTail(jobs: seq<Job>)
    requires jobs != []
    ensures forall id: nat ::
              Queued(jobs, id) == Queued(jobs[1..], id) + if !jobs[0].isBreak && jobs[0].id == id then 1 else 0
    ensures forall id: nat :: Occurs(jobs, id) == Occurs(jobs[1..], id) + if jobs[0].id == id then 1 else 0
    ensures Tokens(jobs) == Tokens(jobs[1..]) + if jobs[0].isBreak then 1 else 0
  {
  }

  lemma {:induction false} TokenBound(jobs: seq<Job>)
    ensures Tokens(jobs) <= |jobs|
    ensures Tokens(jobs) == 0 ==> forall k :: 0 <= k < |jobs| ==> !jobs[k].isBreak
  {
    if jobs != [] { TokenBound(jobs[1..]); }
  }

  /** Only tokens are queued once the front is one. */
  lemma {:induction false} TokenInFront(jobs: seq<Job>)
    requires forall a, b :: 0 <= a < b < |jobs| && jobs[a].isBreak ==> jobs[b].isBreak
    requires jobs != [] && jobs[0].isBreak
    ensures Tokens(jobs) == |jobs|
  {
    if |jobs| > 1 { TokenInFront(jobs[1..]); }
  }

  lemma {:induction false} LeavingBound(ws: seq<Worker>)
    ensures LeavingCount(ws) <= |ws|
    ensures forall i :: 0 <= i < |ws| && !Leaving(ws[i]) ==> LeavingCount(ws) < |ws|
    ensures forall i :: 0 <= i < |ws| && Leaving(ws[i]) ==> LeavingCount(ws) > 0
  {
    if ws != [] {
      LeavingBound(ws[1..]);
      forall i | 0 <= i < |ws|
        ensures !Leaving(ws[i]) ==> LeavingCount(ws) < |ws|
        ensures Leaving(ws[i]) ==> LeavingCount(ws) > 0
      {
        if i > 0 { assert ws[i] == ws[1..][i - 1]; }
      }
    }
  }

  lemma {:induction false} AllReturned(ws: seq<Worker>)
    requires forall i :: 0 <= i < |ws| ==> ws[i].Returned?
    ensures HoldingCount(ws) == 0 && LeavingCount(ws) == |ws|
    ensures forall id: nat :: HoldsCount(ws, id) == 0
  {
    if ws != [] { AllReturned(ws[1..]); }
  }

  lemma {:induction false} SomeHolder(ws: seq<Worker>) returns (i: nat)
    requires HoldingCount(ws) > 0
    ensures i < |ws| && Holding(ws[i])
  {
    if Holding(ws[0]) {
      i := 0;
    } else {
      i := SomeHolder(ws[1..]);
      i := i + 1;
    }
  }

  // ----- the invariant

  lemma InitInv(plan: seq<bool>, processors: nat)
    ensures Inv(plan, Init(processors))
  {
    AllGetting(Init(processors).workers);
  }

  lemma {:induction false} AllGetting(ws: seq<Worker>)
    requires forall i :: 0 <= i < |ws| ==> ws[i].Getting?
    ensures HoldingCount(ws) == 0 && LeavingCount(ws) == 0
    ensures forall id: nat :: HoldsCount(ws, id) == 0
  {
    if ws != [] { AllGetting(ws[1..]); }
  }

  lemma StepConserves(plan: seq<bool>, s: State, step: Step)
    requires Inv(plan, s) && Enabled(plan, s, step)
    ensures Conserved(plan, Apply(plan, s, step))
  {
    hide JobsGenuine, TokensInOrder, Occurs, Queued, HoldsCount, HoldingCount, Tokens, LeavingCount, Count, TallyOf;
    var s' := Apply(plan, s, step);
    match step
    case Interrupt =>
    case MainStep =>
      if s.main.Dispatching? && s.main.next < |plan| {
        QueueAppend(s.input, Job(s.main.next, false, plan[s.main.next], 0));
      } else if s.main.Breaking? {
        QueueAppend(s.input, TOKEN);
      } else if s.main.Collecting? && s.main.received < s.jobs {
        QueueTail(s.output);
        QueueAppend(s.collected, s.output[0]);
      }
    case Get(w) =>
      QueueTail(s.input);
      WorkerUpdate(s.workers, w, Got(s.input[0]));
    case Put(w) =>
      WorkerUpdate(s.workers, w, Getting);
      QueueAppend(s.output, s.workers[w].job);
    case Check(w) =>
      WorkerUpdate(s.workers, w, s'.workers[w]);
    case Finish(w, rc) =>
      WorkerUpdate(s.workers, w, s'.workers[w]);
  }

  lemma StepKeepsTokens(plan: seq<bool>, s: State, step: Step)
    requires Inv(plan, s) && Enabled(plan, s, step)
    ensures TokensInOrder(Apply(plan, s, step))
  {
    hide Conserved, Occurs, Queued, HoldsCount, HoldingCount, Tokens, LeavingCount, Count, TallyOf;
    var s' := Apply(plan, s, step);
    match step
    case Interrupt =>
    case MainStep =>
      if s.main.Dispatching? && s.main.next < |plan| {
        QueueAppend(s.input, Job(s.main.next, false, plan[s.main.next], 0));
        TokenBound(s.input);
      } else if s.main.Breaking? {
        QueueAppend(s.input, TOKEN);
      }
    case Get(w) =>
      QueueTail(s.input);
      WorkerUpdate(s.workers, w, Got(s.input[0]));
      if s.input[0].isBreak { TokenInFront(s.input); }
      TokenBound(s'.input);
    case Check(w) =>
      WorkerUpdate(s.workers, w, s'.workers[w]);
    case Finish(w, rc) =>
      WorkerUpdate(s.workers, w, s'.workers[w]);
    case Put(w) =>
      WorkerUpdate(s.workers, w, s'.workers[w]);
  }

  lemma StepKeepsGenuine(plan: seq<bool>, s: State, step: Step)
    requires Inv(plan, s) && Enabled(plan, s, step)
    ensures JobsGenuine(plan, Apply(plan, s, step))
  {
    hide Conserved, TokensInOrder, TallyOf, Count;
    var s' := Apply(plan, s, step);
    if step.Get? {
      assert forall k :: 0 <= k < |s'.input| ==> s'.input[k] == s.input[k + 1];
    }
    if step.MainStep? && s.main.Collecting? && s.main.received < s.jobs {
      assert forall k :: 0 <= k < |s'.output| ==> s'.output[k] == s.output[k + 1];
    }
  }

  lemma StepKeepsMain(plan: seq<bool>, s: State, step: Step)
    requires Inv(plan, s) && Enabled(plan, s, step)
    ensures MainOk(plan, Apply(plan, s, step))
  {
    hide Conserved, TokensInOrder, JobsGenuine, Count, TallyOf;
    if step.MainStep? && s.main.Collecting? && s.main.received < s.jobs {
      TallyAppend(s.collected, s.output[0]);
    }
  }

  lemma TallyAppend(jobs: seq<Job>, job: Job)
    ensures TallyOf(jobs + [job]) == Count(TallyOf(jobs), job)
  {
    assert (jobs + [job])[..|jobs|] == jobs;
  }

  /** Every step of every thread keeps the invariant. */
  lemma StepKeepsInv(plan: seq<bool>, s: State, step: Step)
    requires Inv(plan, s) && Enabled(plan, s, step)
    ensures Inv(plan, Apply(plan, s, step))
  {
    StepConserves(plan, s, step);
    StepKeepsTokens(plan, s, step);
    StepKeepsGenuine(plan, s, step);
    StepKeepsMain(plan, s, step);
  }

  lemma {:induction false} RunKeepsInv(plan: seq<bool>, processors: nat, run: seq<Step>)
    requires After(plan, processors, run).Some?
    ensures Inv(plan, After(plan, processors, run).value)
    ensures |After(plan, processors, run).value.workers| == processors
    decreases |run|
  {
    hide Inv, Enabled, Apply;
    if run == [] {
      InitInv(plan, processors);
    } else {
      RunKeepsInv(plan, processors, run[..|run| - 1]);
      var s, step := After(plan, processors, run[..|run| - 1]).value, run[|run| - 1];
      StepKeepsInv(plan, s, step);
      SameWorkers(plan, s, step);
    }
  }

  /** The exit flag is set exactly when the run was interrupted. */
  lemma {:induction false} ExitMeansInterrupted(plan: seq<bool>, processors: nat, run: seq<Step>)
    requires After(plan, processors, run).Some?
    ensures After(plan, processors, run).value.threadExit <==> Interrupt in run
    decreases |run|
  {
    if run != [] {
      var front, step := run[..|run| - 1], run[|run| - 1];
      assert run == front + [step];
      ExitMeansInterrupted(plan, processors, front);
      ExitStep(plan, After(plan, processors, front).value, step);
    }
  }

  lemma ExitStep(plan: seq<bool>, s: State, step: Step)
    requires Enabled(plan, s, step)
    ensures Apply(plan, s, step).threadExit <==> s.threadExit || step == Interrupt
  {
  }

  /** An interrupt may come at any moment. */
  lemma AnyRunCanBeInterrupted(plan: seq<bool>, processors: nat, run: seq<Step>)
    requires After(plan, processors, run).Some?
    ensures After(plan, processors, run + [Interrupt])
            == Some(After(plan, processors, run).value.(threadExit := true))
  {
    assert (run + [Interrupt])[..|run|] == run;
  }

  lemma SameWorkers(plan: seq<bool>, s: State, step: Step)
    requires Enabled(plan, s, step)
    ensures |Apply(plan, s, step).workers| == |s.workers|
  {
  }

  // ----- results over whole runs

  /** What is left to do; every step of a thread takes some of it away. */
  ghost function Work(plan: seq<bool>, s: State): nat {
    6 * |s.input| + WorkerWork(s.workers) + |s.output| + MainWork(|plan|, |s.workers|, s.main)
  }

  ghost function MainWork(n: nat, p: nat, main: Main): nat {
    match main
    case Dispatching(k) => if k <= n then 7 * (n - k) + 8 * p + n + 4 else 0
    case Breaking(k) => if k <= p then 7 * (p - k) + p + n + 3 else 0
    case Collecting(k) => if k <= n then n - k + p + 2 else 0
    case Joining(k) => if k <= p then p - k + 1 else 0
    case Finished => 0
  }

  ghost function WorkOf(w: Worker): nat {
    match w
    case Getting => 0
    case Got(_) => 5
    case Running(_) => 4
    case Putting(_) => 3
    case Returned => 0
  }

  ghost function WorkerWork(ws: seq<Worker>): nat {
    if ws == [] then 0 else WorkOf(ws[0]) + WorkerWork(ws[1..])
  }

  lemma {:induction false} WorkUpdate(ws: seq<Worker>, i: nat, w: Worker)
    requires i < |ws|
    ensures WorkerWork(ws[i := w]) == WorkerWork(ws) + WorkOf(w) - WorkOf(ws[i])
  {
    if i == 0 {
      assert ws[i := w][1..] == ws[1..];
    } else {
      assert ws[i := w][1..] == ws[1..][i - 1 := w];
      WorkUpdate(ws[1..], i - 1, w);
    }
  }

  lemma WorkerStepWorks(plan: seq<bool>, s: State, step: Step)
    requires Enabled(plan, s, step) && !step.MainStep? && !step.Interrupt?
    ensures var s' := Apply(plan, s, step);
            && |s'.workers| == |s.workers| && s'.main == s.main
            && 6 * |s'.input| + WorkerWork(s'.workers) + |s'.output|
                < 6 * |s.input| + WorkerWork(s.workers) + |s.output|
  {
    hide WorkerWork;
    WorkUpdate(s.workers, step.w, Apply(plan, s, step).workers[step.w]);
  }

  /** Every step but an interrupt makes progress. */
  lemma StepWorks(plan: seq<bool>, s: State, step: Step)
    requires Inv(plan, s) && Enabled(plan, s, step)
    ensures if step.Interrupt? then Work(plan, Apply(plan, s, step)) == Work(plan, s)
            else Work(plan, Apply(plan, s, step)) < Work(plan, s)
  {
    hide Inv, WorkerWork, Count;
    MainInRange(plan, s);
    if !step.MainStep? && !step.Interrupt? {
      hide Apply;
      WorkerStepWorks(plan, s, step);
    }
  }

  lemma MainInRange(plan: seq<bool>, s: State)
    requires Inv(plan, s)
    ensures match s.main
            case Dispatching(k) => k <= |plan|
            case Breaking(k) => k <= |s.workers|
            case Collecting(k) => s.jobs == |plan| && k <= |plan|
            case Joining(k) => k <= |s.workers|
            case Finished => true
  {
    hide Conserved, TokensInOrder, JobsGenuine;
  }

  ghost function ThreadSteps(run: seq<Step>): nat
    decreases |run|
  {
    if run == [] then 0 else ThreadSteps(run[..|run| - 1]) + if run[|run| - 1].Interrupt? then 0 else 1
  }

  /** No schedule runs for ever: the threads together take a bounded number of steps. */
  lemma {:induction false} RunsAreBounded(plan: seq<bool>, processors: nat, run: seq<Step>)
    requires After(plan, processors, run).Some?
    ensures ThreadSteps(run) + Work(plan, After(plan, processors, run).value) <= 8 * |plan| + 8 * processors + 4
    decreases |run|
  {
    hide Enabled, Apply, Inv, Work;
    if run == [] {
      NoWorkYet(plan, processors);
    } else {
      RunsAreBounded(plan, processors, run[..|run| - 1]);
      RunKeepsInv(plan, processors, run[..|run| - 1]);
      StepWorks(plan, After(plan, processors, run[..|run| - 1]).value, run[|run| - 1]);
    }
  }

  lemma NoWorkYet(plan: seq<bool>, processors: nat)
    ensures Work(plan, Init(processors)) == 8 * |plan| + 8 * processors + 4
  {
    IdleWork(Init(processors).workers);
  }

  lemma {:induction false} IdleWork(ws: seq<Worker>)
    requires forall i :: 0 <= i < |ws| ==> ws[i].Getting?
    ensures WorkerWork(ws) == 0
  {
    if ws != [] { IdleWork(ws[1..]); }
  }

  /** The step that a worker who is not blocked can take; jobs end with the given return codes. */
  ghost function WorkerStep(s: State, w: nat, codes: nat -> int): Step
    requires w < |s.workers|
  {
    match s.workers[w]
    case Getting => Get(w)
    case Got(_) => Check(w)
    case Running(job) => Finish(w, codes(job.id))
    case _ => Put(w)
  }

  /** A finishing job ends with its given return code. */
  ghost predicate FinishesWith(s: State, step: Step, codes: nat -> int) {
    step.Finish? && step.w < |s.workers| && s.workers[step.w].Running? ==>
      step.returncode == codes(s.workers[step.w].job.id)
  }

  /** No deadlock: until the end some thread can move, given at least one worker or nothing to do, and
      whatever the jobs return. */
  lemma SomeThreadCanMove(plan: seq<bool>, s: State, codes: nat -> int) returns (step: Step)
    requires Inv(plan, s) && !s.main.Finished?
    requires |s.workers| > 0 || plan == []
    ensures !step.Interrupt? && Enabled(plan, s, step) && FinishesWith(s, step, codes)
  {
    hide JobsGenuine, Occurs, Queued, HoldsCount, TallyOf;
    if Enabled(plan, s, MainStep) {
      return MainStep;
    }
    TokenBound(s.input);
    LeavingBound(s.workers);
    if s.main.Collecting? {
      if HoldingCount(s.workers) > 0 {
        var w := SomeHolder(s.workers);
        return WorkerStep(s, w, codes);
      }
      assert Tokens(s.input) < |s.input|;
      assert !Leaving(s.workers[0]);
      return WorkerStep(s, 0, codes);
    } else {
      return WorkerStep(s, s.main.joined, codes);
    }
  }

  /** From step n on, every job that finishes ends with its given return code. */
  ghost predicate FollowsCodes(plan: seq<bool>, processors: nat, run: seq<Step>, n: nat, codes: nat -> int) {
    forall k :: n <= k < |run| && After(plan, processors, run[..k]).Some? ==>
      FinishesWith(After(plan, processors, run[..k]).value, run[k], codes)
  }

  /** Every run can be brought to its end, by steps of the threads alone, within the bound on all runs,
      whatever the jobs return. */
  lemma {:induction false} EveryRunCanFinish(plan: seq<bool>, processors: nat, run: seq<Step>, codes: nat -> int)
    returns (whole: seq<Step>)
    requires After(plan, processors, run).Some? && (processors > 0 || plan == [])
    ensures run <= whole && (forall k :: |run| <= k < |whole| ==> !whole[k].Interrupt?)
    ensures FollowsCodes(plan, processors, whole, |run|, codes)
    ensures After(plan, processors, whole).Some? && After(plan, processors, whole).value.main.Finished?
    ensures ThreadSteps(whole) <= 8 * |plan| + 8 * processors + 4
    decreases Work(plan, After(plan, processors, run).value)
  {
    hide Enabled, Apply, Inv, Work, FinishesWith;
    var s := After(plan, processors, run).value;
    RunKeepsInv(plan, processors, run);
    whole := run;
    if s.main.Finished? {
      RunsAreBounded(plan, processors, run);
    } else {
      var step := SomeThreadCanMove(plan, s, codes);
      var longer := run + [step];
      assert longer[..|longer| - 1] == run;
      StepWorks(plan, s, step);
      whole := EveryRunCanFinish(plan, processors, longer, codes);
      assert forall k :: |run| <= k < |whole| && k < |longer| ==> whole[k] == longer[k];
      assert whole[..|run|] == run;
    }
  }

  /** How many tokens a worker took from the input queue during a run. */
  ghost function TokensTaken(plan: seq<bool>, processors: nat, run: seq<Step>, w: nat): nat
    decreases |run|
  {
    if run == [] then 0
    else
      var front := run[..|run| - 1];
      TokensTaken(plan, processors, front, w) +
      match After(plan, processors, front)
      case None => 0
      case Some(s) => if run[|run| - 1] == Get(w) && s.input != [] && s.input[0].isBreak then 1 else 0
  }

  lemma LeavingStep(plan: seq<bool>, s: State, step: Step, w: nat)
    requires Enabled(plan, s, step) && w < |s.workers|
    requires forall k :: 0 <= k < |s.workers| && s.workers[k].Running? ==> !s.workers[k].job.isBreak
    ensures w < |Apply(plan, s, step).workers|
    ensures Leaving(Apply(plan, s, step).workers[w])
            <==> Leaving(s.workers[w]) || (step == Get(w) && s.input[0].isBreak)
    ensures step == Get(w) ==> !Leaving(s.workers[w])
  {
    hide Count;
  }

  /** A worker that is leaving has taken one token; any other has taken none. */
  lemma {:induction false} OneTokenEach(plan: seq<bool>, processors: nat, run: seq<Step>, w: nat)
    requires After(plan, processors, run).Some? && w < processors
    ensures |After(plan, processors, run).value.workers| == processors
    ensures TokensTaken(plan, processors, run, w)
            == if Leaving(After(plan, processors, run).value.workers[w]) then 1 else 0
    decreases |run|
  {
    hide Apply, Inv, Leaving;
    RunKeepsInv(plan, processors, run);
    if run == [] {
      assert !Leaving(Getting) by { GettingStays(); }
    } else {
      var front := run[..|run| - 1];
      OneTokenEach(plan, processors, front, w);
      RunKeepsInv(plan, processors, front);
      var s := After(plan, processors, front).value;
      RunningJobsAreReal(plan, s);
      LeavingStep(plan, s, run[|run| - 1], w);
    }
  }

  lemma GettingStays()
    ensures !Leaving(Getting)
  {
  }

  lemma RunningJobsAreReal(plan: seq<bool>, s: State)
    requires Inv(plan, s)
    ensures forall k :: 0 <= k < |s.workers| && s.workers[k].Running? ==> !s.workers[k].job.isBreak
  {
    hide Conserved, TokensInOrder, MainOk;
  }

  ghost predicate NothingComesBack(s: State) {
    && s.workers == [] && s.output == [] && !s.main.Joining? && !s.main.Finished?
    && (s.main.Collecting? ==> s.main.received == 0)
  }

  /** The exact condition: without workers a non-empty plan is never finished. */
  lemma {:induction false} NoWorkersNoResults(plan: seq<bool>, run: seq<Step>)
    requires plan != [] && After(plan, 0, run).Some?
    ensures NothingComesBack(After(plan, 0, run).value)
    decreases |run|
  {
    hide Enabled, Apply, NothingComesBack, Inv;
    if run == [] {
      assert NothingComesBack(After(plan, 0, run).value) by { NothingYet(); }
    } else {
      NoWorkersNoResults(plan, run[..|run| - 1]);
      RunKeepsInv(plan, 0, run[..|run| - 1]);
      StillNothing(plan, After(plan, 0, run[..|run| - 1]).value, run[|run| - 1]);
    }
  }

  lemma NothingYet()
    ensures NothingComesBack(Init(0))
  {
  }

  lemma StillNothing(plan: seq<bool>, s: State, step: Step)
    requires Inv(plan, s) && Enabled(plan, s, step) && plan != [] && NothingComesBack(s)
    ensures NothingComesBack(Apply(plan, s, step))
  {
    MainInRange(plan, s);
    hide Inv;
  }

  /** The collected jobs that an interrupt turned away. */
  ghost function Interrupted(jobs: seq<Job>): nat {
    if jobs == [] then 0 else Interrupted(jobs[..|jobs| - 1]) + if jobs[|jobs| - 1].isBreak then 1 else 0
  }

  lemma {:induction false} TallyAddsUp(jobs: seq<Job>)
    ensures var t := TallyOf(jobs);
            t.passed + t.failed + t.valgrind + t.crashed + t.skipped + Interrupted(jobs) == |jobs|
    ensures TallyOf(jobs).passed + TallyOf(jobs).skipped == |jobs| <==>
            forall k :: 0 <= k < |jobs| ==> !jobs[k].isBreak && (jobs[k].isSkip || jobs[k].returncode == 0)
  {
    if jobs != [] {
      TallyAddsUp(jobs[..|jobs| - 1]);
    }
  }

  /** When the pool is done, every job has been collected exactly once, nothing is left anywhere, every
      worker has taken exactly one token and returned, and the counters and the status are those of the
      records collected. */
  lemma FinalRecords(plan: seq<bool>, processors: nat, run: seq<Step>)
    requires After(plan, processors, run).Some? && After(plan, processors, run).value.main.Finished?
    ensures var s := After(plan, processors, run).value;
            && s.input == [] && s.output == [] && (forall w :: 0 <= w < |s.workers| ==> s.workers[w].Returned?)
            && |s.collected| == s.jobs == s.totalTests == |plan|
            && (forall id: nat :: Occurs(s.collected, id) == if id < |plan| then 1 else 0)
            && (forall w: nat :: w < processors ==> TokensTaken(plan, processors, run, w) == 1)
            && (forall k :: 0 <= k < |s.collected| ==> FromPlan(plan, s.threadExit, s.collected[k]))
            && s.tally.passed + s.tally.failed + s.tally.valgrind + s.tally.crashed + s.tally.skipped
               + Interrupted(s.collected) == |plan|
            && (Result(s) == 0 <==> forall k :: 0 <= k < |s.collected| ==>
                  !s.collected[k].isBreak && (s.collected[k].isSkip || s.collected[k].returncode == 0))
  {
    RunKeepsInv(plan, processors, run);
    hide After, Enabled, Apply;
    var s := After(plan, processors, run).value;
    forall w: nat | w < processors ensures TokensTaken(plan, processors, run, w) == 1 {
      OneTokenEach(plan, processors, run, w);
    }
    AllReturned(s.workers);
    TokenBound(s.input);
    TallyAddsUp(s.collected);
    assert |s.input| == 0 && |s.output| == 0;
  }

  /** A worker that has returned leaves no real job behind in the input queue. */
  lemma NoEarlyExit(plan: seq<bool>, processors: nat, run: seq<Step>, w: nat)
    requires After(plan, processors, run).Some? && w < |After(plan, processors, run).value.workers|
    requires After(plan, processors, run).value.workers[w].Returned?
    ensures var s := After(plan, processors, run).value;
            Dispatched(plan, s) == |plan| && forall k :: 0 <= k < |s.input| ==> s.input[k].isBreak
  {
    RunKeepsInv(plan, processors, run);
    hide After, Enabled, Apply;
    var s := After(plan, processors, run).value;
    LeavingBound(s.workers);
    OnlyTokens(s.input);
  }

  lemma {:induction false} OnlyTokens(jobs: seq<Job>)
    ensures Tokens(jobs) <= |jobs|
    ensures Tokens(jobs) == |jobs| ==> forall k :: 0 <= k < |jobs| ==> jobs[k].isBreak
  {
    if jobs != [] { OnlyTokens(jobs[1..]); }
  }

  /** How many workers are running a job. */
  ghost function RunningCount(ws: seq<Worker>): nat {
    if ws == [] then 0 else (if ws[0].Running? then 1 else 0) + RunningCount(ws[1..])
  }

  lemma {:induction false} RunningUpdate(ws: seq<Worker>, i: nat, w: Worker)
    requires i < |ws|
    ensures RunningCount(ws[i := w]) == RunningCount(ws)
            + (if w.Running? then 1 else 0) - (if ws[i].Running? then 1 else 0)
  {
    if i == 0 {
      assert ws[i := w][1..] == ws[1..];
    } else {
      assert ws[i := w][1..] == ws[1..][i - 1 := w];
      RunningUpdate(ws[1..], i - 1, w);
    }
  }

  /** How many jobs finish running from step i of the run on. */
  ghost function FinishedSince(run: seq<Step>, i: nat): nat
    requires i <= |run|
    decreases |run|
  {
    if |run| == i then 0 else FinishedSince(run[..|run| - 1], i) + if run[|run| - 1].Finish? then 1 else 0
  }

  lemma InterruptedStep(plan: seq<bool>, s: State, step: Step)
    requires Enabled(plan, s, step) && s.threadExit
    ensures var s' := Apply(plan, s, step);
            s'.threadExit && (if step.Finish? then 1 else 0) + RunningCount(s'.workers) <= RunningCount(s.workers)
  {
    hide RunningCount, Count;
    match step
    case Interrupt =>
    case MainStep =>
    case Get(w) => RunningUpdate(s.workers, w, Apply(plan, s, step).workers[w]);
    case Check(w) => RunningUpdate(s.workers, w, Apply(plan, s, step).workers[w]);
    case Finish(w, rc) => RunningUpdate(s.workers, w, Apply(plan, s, step).workers[w]);
    case Put(w) => RunningUpdate(s.workers, w, Apply(plan, s, step).workers[w]);
  }

  /** After an interrupt no job is started any more: from then on at most the jobs that were running at
      that moment finish, however the run goes on. */
  lemma {:induction false} InterruptDrains(plan: seq<bool>, processors: nat, run: seq<Step>, i: nat)
    requires i <= |run| && After(plan, processors, run).Some? && After(plan, processors, run[..i]).Some?
    requires Interrupt in run[..i]
    ensures FinishedSince(run, i) + RunningCount(After(plan, processors, run).value.workers)
            <= RunningCount(After(plan, processors, run[..i]).value.workers)
    decreases |run|
  {
    hide Enabled, Apply, RunningCount;
    if |run| == i {
      assert run[..i] == run;
    } else {
      var before := run[..|run| - 1];
      assert before[..i] == run[..i];
      InterruptDrains(plan, processors, before, i);
      assert Interrupt in before;
      ExitMeansInterrupted(plan, processors, before);
      InterruptedStep(plan, After(plan, processors, before).value, run[|run| - 1]);
    }
  }

  datatype Outcome = Passed | Failed | ValgrindErrors | Crashed | Skipped

  predicate EndsAs(job: Job, outcome: Outcome) {
    !job.isBreak &&
    match outcome
    case Passed => !job.isSkip && job.returncode == 0
    case Failed => !job.isSkip && job.returncode == 1
    case ValgrindErrors => !job.isSkip && job.returncode == 2
    case Crashed => !job.isSkip && job.returncode !in {0, 1, 2}
    case Skipped => job.isSkip
  }

  /** The positions of the jobs with an outcome. */
  ghost function Having(jobs: seq<Job>, outcome: Outcome): set<nat> {
    set k: nat | k < |jobs| && EndsAs(jobs[k], outcome)
  }

  lemma HavingAppend(jobs: seq<Job>, job: Job, outcome: Outcome)
    ensures |Having(jobs + [job], outcome)| == |Having(jobs, outcome)| + if EndsAs(job, outcome) then 1 else 0
  {
    hide EndsAs;
    var all := jobs + [job];
    assert Having(all, outcome) == Having(jobs, outcome) + if EndsAs(job, outcome) then {|jobs|} else {};
  }

  /** Each counter is the number of jobs with its outcome. */
  lemma {:induction false} TallyCountsOutcomes(jobs: seq<Job>)
    ensures var t := TallyOf(jobs);
            && t.passed == |Having(jobs, Passed)| && t.failed == |Having(jobs, Failed)|
            && t.valgrind == |Having(jobs, ValgrindErrors)| && t.crashed == |Having(jobs, Crashed)|
            && t.skipped == |Having(jobs, Skipped)|
  {
    if jobs != [] {
      var front, last := jobs[..|jobs| - 1], jobs[|jobs| - 1];
      assert jobs == front + [last];
      TallyCountsOutcomes(front);
      hide Having;
      HavingAppend(front, last, Passed);
      HavingAppend(front, last, Failed);
      HavingAppend(front, last, ValgrindErrors);
      HavingAppend(front, last, Crashed);
      HavingAppend(front, last, Skipped);
    }
  }

  /** The collecting loop of the main thread, over the results in the order they arrive. */
  method CollectResults(results: seq<Job>, totalTests: nat) returns (tally: Tally, status: int)
    ensures tally == TallyOf(results)
    ensures status == 0 || status == 1
    ensures totalTests == |results| ==>
              (status == 0 <==> forall k :: 0 <= k < |results| ==>
                 !results[k].isBreak && (results[k].isSkip || results[k].returncode == 0))
  {
    var passed, failed, crashed, valgrind, skipped := 0, 0, 0, 0, 0;
    for i := 0 to |results|
      invariant TallyOf(results[..i]) == Tally(passed, failed, valgrind, crashed, skipped)
    {
      assert results[..i + 1][..i] == results[..i];
      var job := results[i];
      if job.isBreak {
        continue;
      }
      if job.isSkip {
        skipped := skipped + 1;
      } else if job.returncode == 0 {
        passed := passed + 1;
      } else if job.returncode == 1 {
        failed := failed + 1;
      } else if job.returncode == 2 {
        valgrind := valgrind + 1;
      } else {
        crashed := crashed + 1;
      }
    }
    assert results[..|results|] == results;
    TallyAddsUp(results);
    tally := Tally(passed, failed, valgrind, crashed, skipped);
    status := if passed + skipped == totalTests then 0 else 1;
  }
}
