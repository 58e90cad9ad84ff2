/** What happens to each job in a run of the pool, told by the steps of the threads and not by the records
    that come back, and the proof that counters and exit status report just that. */
module JobFates {
  import opened Options
  import opened WorkerPool

  /** A job is turned away after an interrupt, passed over because it is to be skipped, or run. */
  datatype Fate = TurnedAway | PassedOver | Ran(returncode: int)

  /** The job whose fate a step decides, and the fate. */
  function DecidedBy(s: State, step: Step): Option<(nat, Fate)> {
    match step
    case Check(w) =>
      if w < |s.workers| && s.workers[w].Got? && !s.workers[w].job.isBreak then
        if s.threadExit then Some((s.workers[w].job.id, TurnedAway))
        else if s.workers[w].job.isSkip then Some((s.workers[w].job.id, PassedOver))
        else None
      else None
    case Finish(w, rc) =>
      if w < |s.workers| && s.workers[w].Running? then Some((s.workers[w].job.id, Ran(rc))) else None
    case _ => None
  }

  function FateFor(s: State, step: Step, id: nat): seq<Fate> {
    match DecidedBy(s, step)
    case None => []
    case Some(d) => if d.0 == id then [d.1] else []
  }

  /** Everything that was decided about a job in the course of a run. */
  ghost function FatesOf(plan: seq<bool>, processors: nat, run: seq<Step>, id: nat): seq<Fate>
    decreases |run|
  {
    if run == [] then []
    else
      var front := run[..|run| - 1];
      FatesOf(plan, processors, front, id) +
      match After(plan, processors, front)
      case None => []
      case Some(s) => FateFor(s, run[|run| - 1], id)
  }

  ghost function Fates(plan: seq<bool>, processors: nat, run: seq<Step>): nat -> seq<Fate> {
    (id: nat) => FatesOf(plan, processors, run, id)
  }

  /** The fate that a record reports. */
  function Shown(job: Job): Fate {
    if job.isBreak then TurnedAway else if job.isSkip then PassedOver else Ran(job.returncode)
  }

  ghost predicate Undecided(f: nat -> seq<Fate>, job: Job) {
    f(job.id) == []
  }

  ghost predicate Reported(f: nat -> seq<Fate>, job: Job) {
    f(job.id) == [Shown(job)]
  }

  /** Nothing is decided about a job before it is checked or while it runs; after that exactly one thing is,
      and its record reports it. */
  ghost predicate FatesFit(plan: seq<bool>, s: State, f: nat -> seq<Fate>) {
    && (forall id: nat :: id >= Dispatched(plan, s) ==> f(id) == [])
    && (forall k :: 0 <= k < |s.input| ==> s.input[k].isBreak || Undecided(f, s.input[k]))
    && (forall k :: 0 <= k < |s.workers| ==>
          match s.workers[k]
          case Got(job) => job.isBreak || Undecided(f, job)
          case Running(job) => Undecided(f, job)
          case Putting(job) => Reported(f, job)
          case _ => true)
    && (forall k :: 0 <= k < |s.output| ==> Reported(f, s.output[k]))
    && (forall k :: 0 <= k < |s.collected| ==> Reported(f, s.collected[k]))
  }

  // ----- a job is in one place only

  lemma {:induction false} OccursAt(jobs: seq<Job>, k: nat)
    requires k < |jobs|
    ensures Occurs(jobs, jobs[k].id) > 0
    ensures !jobs[k].isBreak ==> WorkerPool.Queued(jobs, jobs[k].id) > 0
  {
    if k > 0 { OccursAt(jobs[1..], k - 1); }
  }

  lemma {:induction false} HoldsAt(ws: seq<Worker>, w: nat, id: nat)
    requires w < |ws| && Holds(ws[w], id)
    ensures HoldsCount(ws, id) > 0
    ensures forall v :: 0 <= v < |ws| && v != w && Holds(ws[v], id) ==> HoldsCount(ws, id) > 1
  {
    hide Holds;
    forall v | 0 <= v < |ws| && v != w && Holds(ws[v], id) ensures HoldsCount(ws, id) > 1 {
      if w > 0 && v > 0 {
        HoldsAt(ws[1..], w - 1, id);
        assert ws[1..][v - 1] == ws[v];
      } else {
        HoldsAt(ws[1..], if w > 0 then w - 1 else v - 1, id);
      }
    }
    if w > 0 { HoldsAt(ws[1..], w - 1, id); }
  }

  lemma {:induction false} OccursSomewhere(jobs: seq<Job>, id: nat) returns (k: nat)
    requires Occurs(jobs, id) > 0
    ensures k < |jobs| && jobs[k].id == id
  {
    if jobs[0].id == id {
      k := 0;
    } else {
      k := OccursSomewhere(jobs[1..], id);
      k := k + 1;
    }
  }

  lemma {:induction false} QueuedSomewhere(jobs: seq<Job>, id: nat) returns (k: nat)
    requires WorkerPool.Queued(jobs, id) > 0
    ensures k < |jobs| && !jobs[k].isBreak && jobs[k].id == id
  {
    if !jobs[0].isBreak && jobs[0].id == id {
      k := 0;
    } else {
      k := QueuedSomewhere(jobs[1..], id);
      k := k + 1;
    }
  }

  lemma {:induction false} HeldSomewhere(ws: seq<Worker>, id: nat) returns (w: nat)
    requires HoldsCount(ws, id) > 0
    ensures w < |ws| && Holds(ws[w], id)
  {
    hide Holds;
    if Holds(ws[0], id) {
      w := 0;
    } else {
      w := HeldSomewhere(ws[1..], id);
      w := w + 1;
    }
  }

  /** A job that a worker holds is dispatched and nowhere else. */
  lemma HeldOnlyThere(plan: seq<bool>, s: State, w: nat, id: nat)
    requires Conserved(plan, s) && w < |s.workers| && Holds(s.workers[w], id)
    ensures id < Dispatched(plan, s)
    ensures forall k :: 0 <= k < |s.input| ==> s.input[k].isBreak || s.input[k].id != id
    ensures forall k :: 0 <= k < |s.output| ==> s.output[k].id != id
    ensures forall k :: 0 <= k < |s.collected| ==> s.collected[k].id != id
    ensures forall v :: 0 <= v < |s.workers| && v != w ==> !Holds(s.workers[v], id)
  {
    hide Holds, HoldsCount, Occurs, WorkerPool.Queued, Tokens, HoldingCount;
    HoldsAt(s.workers, w, id);
    forall k | 0 <= k < |s.input| ensures s.input[k].isBreak || s.input[k].id != id {
      OccursAt(s.input, k);
    }
    forall k | 0 <= k < |s.output| ensures s.output[k].id != id {
      OccursAt(s.output, k);
    }
    forall k | 0 <= k < |s.collected| ensures s.collected[k].id != id {
      OccursAt(s.collected, k);
    }
  }

  // ----- every step

  lemma DecisionFits(plan: seq<bool>, s: State, step: Step, f: nat -> seq<Fate>, f': nat -> seq<Fate>)
    requires Inv(plan, s) && Enabled(plan, s, step) && FatesFit(plan, s, f)
    requires DecidedBy(s, step).Some? && forall id: nat :: f'(id) == f(id) + FateFor(s, step, id)
    ensures FatesFit(plan, Apply(plan, s, step), f')
  {
    hide Conserved, TokensInOrder, MainOk;
    var w, id := step.w, DecidedBy(s, step).value.0;
    assert Holds(s.workers[w], id);
    HeldOnlyThere(plan, s, w, id);
    assert forall other: nat :: other != id ==> f'(other) == f(other);
  }

  lemma MainMoveFits(plan: seq<bool>, s: State, f: nat -> seq<Fate>)
    requires MainOk(plan, s) && Enabled(plan, s, MainStep) && FatesFit(plan, s, f)
    ensures FatesFit(plan, Apply(plan, s, MainStep), f)
  {
    hide Count, TallyOf, Reported;
    var s' := Apply(plan, s, MainStep);
    if s.main.Collecting? && s.main.received < s.jobs {
      assert forall k :: 0 <= k < |s'.output| ==> s'.output[k] == s.output[k + 1];
    }
  }

  lemma WorkerMoveFits(plan: seq<bool>, s: State, step: Step, f: nat -> seq<Fate>)
    requires !step.MainStep? && Enabled(plan, s, step) && DecidedBy(s, step).None? && FatesFit(plan, s, f)
    ensures FatesFit(plan, Apply(plan, s, step), f)
  {
    hide Undecided, Reported;
    var s' := Apply(plan, s, step);
    if step.Get? {
      assert forall k :: 0 <= k < |s'.input| ==> s'.input[k] == s.input[k + 1];
    }
  }

  /** The other steps only carry jobs from one place to the next. */
  lemma MoveFits(plan: seq<bool>, s: State, step: Step, f: nat -> seq<Fate>, f': nat -> seq<Fate>)
    requires Inv(plan, s) && Enabled(plan, s, step) && FatesFit(plan, s, f)
    requires DecidedBy(s, step).None? && forall id: nat :: f'(id) == f(id)
    ensures FatesFit(plan, Apply(plan, s, step), f')
  {
    hide Conserved, TokensInOrder, JobsGenuine, MainOk, Enabled, Apply, FatesFit, DecidedBy;
    if step.MainStep? {
      MainMoveFits(plan, s, f);
    } else {
      WorkerMoveFits(plan, s, step, f);
    }
    SameFates(plan, Apply(plan, s, step), f, f');
  }

  lemma SameFates(plan: seq<bool>, s: State, f: nat -> seq<Fate>, f': nat -> seq<Fate>)
    requires FatesFit(plan, s, f) && forall id: nat :: f'(id) == f(id)
    ensures FatesFit(plan, s, f')
  {
  }

  lemma {:induction false} RunKeepsFates(plan: seq<bool>, processors: nat, run: seq<Step>)
    requires After(plan, processors, run).Some?
    ensures FatesFit(plan, After(plan, processors, run).value, Fates(plan, processors, run))
    decreases |run|
  {
    hide Enabled, Apply, Inv, FatesFit, FateFor, DecidedBy;
    if run == [] {
      NothingDecidedYet(plan, processors);
    } else {
      var front, step := run[..|run| - 1], run[|run| - 1];
      RunKeepsFates(plan, processors, front);
      RunKeepsInv(plan, processors, front);
      var s := After(plan, processors, front).value;
      var f, f' := Fates(plan, processors, front), Fates(plan, processors, run);
      assert forall id: nat :: f'(id) == f(id) + FateFor(s, step, id);
      if DecidedBy(s, step).Some? {
        DecisionFits(plan, s, step, f, f');
      } else {
        assert forall id: nat :: f'(id) == f(id) by { NothingDecided(s, step); }
        MoveFits(plan, s, step, f, f');
      }
    }
  }

  lemma NothingDecided(s: State, step: Step)
    requires DecidedBy(s, step).None?
    ensures forall id: nat :: FateFor(s, step, id) == []
  {
  }

  lemma NothingDecidedYet(plan: seq<bool>, processors: nat)
    ensures FatesFit(plan, Init(processors), Fates(plan, processors, []))
  {
  }

  /** In every run each job has at most one fate: it runs at most once, and not if it was turned away or
      passed over. */
  lemma OneFateAtMost(plan: seq<bool>, processors: nat, run: seq<Step>, id: nat)
    requires After(plan, processors, run).Some?
    ensures |FatesOf(plan, processors, run, id)| <= 1
  {
    RunKeepsInv(plan, processors, run);
    RunKeepsFates(plan, processors, run);
    hide After, FatesOf, FatesFit, Inv;
    JobHasPlace(plan, After(plan, processors, run).value, Fates(plan, processors, run), id);
  }

  lemma JobHasPlace(plan: seq<bool>, s: State, f: nat -> seq<Fate>, id: nat)
    requires Inv(plan, s) && FatesFit(plan, s, f)
    ensures |f(id)| <= 1
  {
    hide Occurs, WorkerPool.Queued, HoldsCount, Tokens, HoldingCount, TokensInOrder, JobsGenuine, MainOk;
    if id < Dispatched(plan, s) {
      if WorkerPool.Queued(s.input, id) > 0 {
        var k := QueuedSomewhere(s.input, id);
      } else if HoldsCount(s.workers, id) > 0 {
        var w := HeldSomewhere(s.workers, id);
      } else if Occurs(s.output, id) > 0 {
        var k := OccursSomewhere(s.output, id);
      } else {
        var k := OccursSomewhere(s.collected, id);
      }
    }
  }

  /** Every fate was decided by a step of its own, in the state the pool was in then: a job is turned away
      only when a worker checks it after an interrupt, and has run with a return code only when a worker
      that was running it finished with that code. */
  lemma {:induction false} FateIsDecided(plan: seq<bool>, processors: nat, run: seq<Step>, id: nat, i: nat)
    returns (k: nat)
    requires After(plan, processors, run).Some? && i < |FatesOf(plan, processors, run, id)|
    ensures k < |run| && After(plan, processors, run[..k]).Some?
    ensures DecidedBy(After(plan, processors, run[..k]).value, run[k])
            == Some((id, FatesOf(plan, processors, run, id)[i]))
    ensures FatesOf(plan, processors, run[..k], id) == FatesOf(plan, processors, run, id)[..i]
    ensures FatesOf(plan, processors, run, id)[i] == TurnedAway ==> Interrupt in run[..k]
    decreases |run|
  {
    hide Enabled, Apply, DecidedBy;
    k := |run| - 1;
    if i < |FatesOf(plan, processors, run[..k], id)| {
      var n := k;
      k := FateIsDecided(plan, processors, run[..n], id, i);
      assert run[..n][..k] == run[..k];
    } else {
      ExitMeansInterrupted(plan, processors, run[..k]);
      TurnedAwayAtExit(After(plan, processors, run[..k]).value, run[k]);
    }
  }

  lemma TurnedAwayAtExit(s: State, step: Step)
    ensures DecidedBy(s, step).Some? && DecidedBy(s, step).value.1 == TurnedAway ==> s.threadExit
    ensures DecidedBy(s, step).Some? && DecidedBy(s, step).value.1.Ran? ==>
              step.Finish? && step.w < |s.workers| && s.workers[step.w].Running?
              && s.workers[step.w].job.id == DecidedBy(s, step).value.0
              && step.returncode == DecidedBy(s, step).value.1.returncode
  {
  }

  // ----- results

  /** The fate that each counter counts. */
  predicate CountsAs(fate: Fate, outcome: Outcome) {
    match outcome
    case Passed => fate == Ran(0)
    case Failed => fate == Ran(1)
    case ValgrindErrors => fate == Ran(2)
    case Crashed => fate.Ran? && fate.returncode !in {0, 1, 2}
    case Skipped => fate == PassedOver
  }

  /** The jobs of the plan that ended in this way. */
  ghost function JobsEnding(plan: seq<bool>, processors: nat, run: seq<Step>, outcome: Outcome): set<nat> {
    set id: nat | id < |plan| && |FatesOf(plan, processors, run, id)| == 1
                  && CountsAs(FatesOf(plan, processors, run, id)[0], outcome)
  }

  /** The jobs whose records have this outcome. */
  ghost function IdsEnding(jobs: seq<Job>, outcome: Outcome): set<nat> {
    set k | 0 <= k < |jobs| && EndsAs(jobs[k], outcome) :: jobs[k].id
  }

  /** Where no job has two records, there are as many jobs as records. */
  lemma {:induction false} RecordsAreJobs(jobs: seq<Job>, outcome: Outcome)
    requires forall id: nat :: Occurs(jobs, id) <= 1
    ensures |IdsEnding(jobs, outcome)| == |Having(jobs, outcome)|
  {
    hide EndsAs, Occurs;
    if jobs != [] {
      var front, last := jobs[..|jobs| - 1], jobs[|jobs| - 1];
      assert jobs == front + [last];
      QueueAppend(front, last);
      RecordsAreJobs(front, outcome);
      HavingAppend(front, last, outcome);
      IdsAppend(front, last, outcome);
      if last.id in IdsEnding(front, outcome) {
        var k :| 0 <= k < |front| && front[k].id == last.id;
        OccursAt(front, k);
        assert false;
      }
    }
  }

  lemma IdsAppend(jobs: seq<Job>, job: Job, outcome: Outcome)
    ensures IdsEnding(jobs + [job], outcome) == IdsEnding(jobs, outcome) + if EndsAs(job, outcome) then {job.id} else {}
  {
    hide EndsAs;
    var all := jobs + [job];
    forall id | id in IdsEnding(jobs, outcome) ensures id in IdsEnding(all, outcome) {
      var k :| 0 <= k < |jobs| && EndsAs(jobs[k], outcome) && jobs[k].id == id;
      assert all[k] == jobs[k];
    }
    assert all[|jobs|] == job;
  }

  lemma ShownCountsAs(job: Job, outcome: Outcome)
    ensures EndsAs(job, outcome) <==> CountsAs(Shown(job), outcome)
  {
  }

  /** At the end every record reports the one fate of its job ... */
  lemma RecordsReport(plan: seq<bool>, processors: nat, run: seq<Step>)
    requires After(plan, processors, run).Some? && After(plan, processors, run).value.main.Finished?
    ensures var s := After(plan, processors, run).value;
            forall k :: 0 <= k < |s.collected| ==>
              && FromPlan(plan, s.threadExit, s.collected[k])
              && FatesOf(plan, processors, run, s.collected[k].id) == [Shown(s.collected[k])]
  {
    RunKeepsInv(plan, processors, run);
    RunKeepsFates(plan, processors, run);
    hide After, FatesOf, Shown, FromPlan, Conserved, TokensInOrder, MainOk;
    var s := After(plan, processors, run).value;
    forall k | 0 <= k < |s.collected|
      ensures FatesOf(plan, processors, run, s.collected[k].id) == [Shown(s.collected[k])]
    {
      assert Reported(Fates(plan, processors, run), s.collected[k]);
    }
  }

  /** ... and every job of the plan has one. */
  lemma RecordOf(plan: seq<bool>, processors: nat, run: seq<Step>, id: nat) returns (k: nat)
    requires After(plan, processors, run).Some? && After(plan, processors, run).value.main.Finished? && id < |plan|
    ensures var s := After(plan, processors, run).value; k < |s.collected| && s.collected[k].id == id
  {
    FinalRecords(plan, processors, run);
    hide After, Occurs, Interrupted, TokensTaken, Result, FromPlan;
    k := OccursSomewhere(After(plan, processors, run).value.collected, id);
  }

  lemma OneRecordEach(plan: seq<bool>, processors: nat, run: seq<Step>)
    requires After(plan, processors, run).Some? && After(plan, processors, run).value.main.Finished?
    ensures forall id: nat :: Occurs(After(plan, processors, run).value.collected, id) <= 1
  {
    FinalRecords(plan, processors, run);
    hide After, Occurs, Interrupted, TokensTaken, Result, FromPlan;
  }

  lemma CounterIsFates(plan: seq<bool>, processors: nat, run: seq<Step>, outcome: Outcome)
    requires After(plan, processors, run).Some? && After(plan, processors, run).value.main.Finished?
    ensures |Having(After(plan, processors, run).value.collected, outcome)|
            == |JobsEnding(plan, processors, run, outcome)|
  {
    OneRecordEach(plan, processors, run);
    RecordsReport(plan, processors, run);
    hide After, FatesOf, Occurs, EndsAs, CountsAs, Shown, Having;
    var s := After(plan, processors, run).value;
    RecordsAreJobs(s.collected, outcome);
    forall id: nat ensures id in IdsEnding(s.collected, outcome) <==> id in JobsEnding(plan, processors, run, outcome) {
      if id in IdsEnding(s.collected, outcome) {
        var k :| 0 <= k < |s.collected| && EndsAs(s.collected[k], outcome) && s.collected[k].id == id;
        ShownCountsAs(s.collected[k], outcome);
      }
      if id in JobsEnding(plan, processors, run, outcome) {
        var k := RecordOf(plan, processors, run, id);
        ShownCountsAs(s.collected[k], outcome);
      }
    }
    assert IdsEnding(s.collected, outcome) == JobsEnding(plan, processors, run, outcome);
  }

  /** What status 0 reports: every job to be skipped was passed over, and every other one ran, with return
      code 0. */
  ghost predicate AllWell(plan: seq<bool>, processors: nat, run: seq<Step>) {
    forall id: nat :: id < |plan| ==>
      FatesOf(plan, processors, run, id) == [if plan[id] then PassedOver else Ran(0)]
  }

  /** When the pool is done every job has exactly one fate, which fits the plan; each counter is the number
      of jobs with its fate; and the status is 0 exactly when all is well. */
  lemma FinishedRun(plan: seq<bool>, processors: nat, run: seq<Step>)
    requires After(plan, processors, run).Some? && After(plan, processors, run).value.main.Finished?
    ensures var s := After(plan, processors, run).value;
            && (forall id: nat :: id < |plan| ==>
                  exists fate :: FatesOf(plan, processors, run, id) == [fate] &&
                    match fate
                    case TurnedAway => Interrupt in run
                    case PassedOver => plan[id]
                    case Ran(_) => !plan[id])
            && s.tally.passed == |JobsEnding(plan, processors, run, Passed)|
            && s.tally.failed == |JobsEnding(plan, processors, run, Failed)|
            && s.tally.valgrind == |JobsEnding(plan, processors, run, ValgrindErrors)|
            && s.tally.crashed == |JobsEnding(plan, processors, run, Crashed)|
            && s.tally.skipped == |JobsEnding(plan, processors, run, Skipped)|
            && Result(s) == if AllWell(plan, processors, run) then 0 else 1
  {
    var s := After(plan, processors, run).value;
    FinalTally(plan, processors, run);
    StatusIsFates(plan, processors, run);
    RecordsReport(plan, processors, run);
    ExitMeansInterrupted(plan, processors, run);
    hide After, FatesOf, AllWell, Result, JobsEnding;
    forall id: nat | id < |plan|
      ensures exists fate :: FatesOf(plan, processors, run, id) == [fate] &&
                match fate
                case TurnedAway => Interrupt in run
                case PassedOver => plan[id]
                case Ran(_) => !plan[id]
    {
      var k := RecordOf(plan, processors, run, id);
      assert FatesOf(plan, processors, run, id) == [Shown(s.collected[k])];
    }
  }

  lemma FinalTally(plan: seq<bool>, processors: nat, run: seq<Step>)
    requires After(plan, processors, run).Some? && After(plan, processors, run).value.main.Finished?
    ensures var t := After(plan, processors, run).value.tally;
            && t.passed == |JobsEnding(plan, processors, run, Passed)|
            && t.failed == |JobsEnding(plan, processors, run, Failed)|
            && t.valgrind == |JobsEnding(plan, processors, run, ValgrindErrors)|
            && t.crashed == |JobsEnding(plan, processors, run, Crashed)|
            && t.skipped == |JobsEnding(plan, processors, run, Skipped)|
  {
    RunKeepsInv(plan, processors, run);
    hide After, FatesOf, JobsEnding, Having, TallyOf, Conserved, TokensInOrder, JobsGenuine;
    TallyCountsOutcomes(After(plan, processors, run).value.collected);
    CounterIsFates(plan, processors, run, Passed);
    CounterIsFates(plan, processors, run, Failed);
    CounterIsFates(plan, processors, run, ValgrindErrors);
    CounterIsFates(plan, processors, run, Crashed);
    CounterIsFates(plan, processors, run, Skipped);
  }

  lemma StatusIsFates(plan: seq<bool>, processors: nat, run: seq<Step>)
    requires After(plan, processors, run).Some? && After(plan, processors, run).value.main.Finished?
    ensures Result(After(plan, processors, run).value) == if AllWell(plan, processors, run) then 0 else 1
  {
    var s := After(plan, processors, run).value;
    StatusOfRecords(plan, processors, run);
    RecordsReport(plan, processors, run);
    assert Result(s) == 0 || Result(s) == 1;
    hide After, FatesOf, Result;
    if AllWell(plan, processors, run) {
      forall k | 0 <= k < |s.collected| ensures IsWell(s.collected[k]) {
        assert FatesOf(plan, processors, run, s.collected[k].id) == [Shown(s.collected[k])];
      }
    }
    if Result(s) == 0 {
      forall id: nat | id < |plan|
        ensures FatesOf(plan, processors, run, id) == [if plan[id] then PassedOver else Ran(0)]
      {
        var k := RecordOf(plan, processors, run, id);
        assert IsWell(s.collected[k]);
      }
    }
  }

  predicate IsWell(job: Job) {
    !job.isBreak && (job.isSkip || job.returncode == 0)
  }

  lemma StatusOfRecords(plan: seq<bool>, processors: nat, run: seq<Step>)
    requires After(plan, processors, run).Some? && After(plan, processors, run).value.main.Finished?
    ensures var s := After(plan, processors, run).value;
            Result(s) == 0 <==> forall k :: 0 <= k < |s.collected| ==> IsWell(s.collected[k])
  {
    FinalRecords(plan, processors, run);
    hide After, Occurs, Interrupted, TokensTaken, Result, FromPlan;
  }

  /** Every outcome is possible: whatever the jobs return, some run without an interrupt ends with each job
      passed over if it is to be skipped, and otherwise run with its return code. */
  lemma EveryOutcomeIsPossible(plan: seq<bool>, processors: nat, codes: nat -> int) returns (run: seq<Step>)
    requires processors > 0 || plan == []
    ensures After(plan, processors, run).Some? && After(plan, processors, run).value.main.Finished?
    ensures forall id: nat :: id < |plan| ==>
              FatesOf(plan, processors, run, id) == [if plan[id] then PassedOver else Ran(codes(id))]
  {
    hide FatesOf, FinishesWith, DecidedBy, Enabled, Apply;
    run := EveryRunCanFinish(plan, processors, [], codes);
    FinishedRun(plan, processors, run);
    forall id: nat | id < |plan|
      ensures FatesOf(plan, processors, run, id) == [if plan[id] then PassedOver else Ran(codes(id))]
    {
      var fate :| FatesOf(plan, processors, run, id) == [fate] &&
                    match fate
                    case TurnedAway => Interrupt in run
                    case PassedOver => plan[id]
                    case Ran(_) => !plan[id];
      var k := FateIsDecided(plan, processors, run, id, 0);
      TurnedAwayAtExit(After(plan, processors, run[..k]).value, run[k]);
      assert FinishesWith(After(plan, processors, run[..k]).value, run[k], codes);
      CodeOfFate(After(plan, processors, run[..k]).value, run[k], codes, fate);
    }
  }

  lemma CodeOfFate(s: State, step: Step, codes: nat -> int, fate: Fate)
    requires FinishesWith(s, step, codes) && DecidedBy(s, step).Some? && DecidedBy(s, step).value.1 == fate
    ensures fate.Ran? ==> fate.returncode == codes(DecidedBy(s, step).value.0)
  {
  }
}
