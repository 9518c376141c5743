/** The worker pool with the jobs of `Judge`: what the table holds once the workers have judged them. */
module JudgedPool {
  import opened Basics
  import opened JudgeTypes
  import opened Judge
  import opened JudgeProperties
  import opened WorkerPool

  /** A job together with what the world will answer when it is judged. */
  datatype Assignment = Assignment(job: Job, w: World)

  /** How judging a job looks to the pool. */
  function TaskOf(a: Assignment): (t: Task)
    requires Fits(a.job, a.w)
    ensures t.id == a.job.id
  {
    EveryExitIsTerminal(a.job, a.w);
    Ticket(a.job.id, a.w.tempDirError.None? && a.w.compilation.Compiled?, FirstCrash(a.w), Outcome(a.job, a.w).status)
  }

  /** How many rounds of the loop over the test cases a worker makes from case `k` on; the last one
      runs the case the sandbox fails on, or finds no case left. */
  function Rounds(t: Task, k: nat): nat
    decreases t.reach - k
  {
    if AfterTesting(t, k) == Ending then 1 else 1 + Rounds(t, k + 1)
  }

  lemma {:induction false} RoundsFromCase(t: Task, k: nat)
    requires k <= t.reach
    ensures Rounds(t, k) == t.reach - k + 1
    decreases t.reach - k
  {
    if k < t.reach {
      RoundsFromCase(t, k + 1);
    }
  }

  /** The steps of a worker run exactly the cases that the procedure `RunJob` runs, and write the status
      that it writes. */
  lemma PhasesRunSameCases(a: Assignment)
    requires Fits(a.job, a.w)
    ensures var t := TaskOf(a);
            && (AfterPreparing(t).Testing? || AfterPreparing(t).Ending?)
            && CasesRun(a.w) == (if AfterPreparing(t).Testing? then MinInt(Rounds(t, AfterPreparing(t).done), |a.job.cases|) else 0)
            && t.verdict == Outcome(a.job, a.w).status
  {
    RoundsFromCase(TaskOf(a), 0);
  }

  // ---- Every task comes from a request --------------------------------------------------------------

  /** `tasks` gives the task of each id. */
  predicate Comes(tasks: map<nat, Task>, t: Task) {
    t.id in tasks && tasks[t.id] == t
  }

  ghost predicate AllCome(s: State, tasks: map<nat, Task>) {
    && (forall id :: id in s.waiting ==> Comes(tasks, s.waiting[id]))
    && (forall i :: 0 <= i < |s.queue| ==> Comes(tasks, s.queue[i]))
    && (forall i :: 0 <= i < |s.workers| && s.workers[i].Judging? ==> Comes(tasks, s.workers[i].task))
    && (forall id :: id in s.done ==> Comes(tasks, s.done[id]))
  }

  lemma AllComeStep(s: State, tasks: map<nat, Task>, a: Step)
    requires AllCome(s, tasks) && Enabled(s, a) && (a.Insert? ==> Comes(tasks, a.task))
    ensures AllCome(Apply(s, a), tasks)
  {
  }

  lemma {:induction false} AllComeInRun(s: State, tasks: map<nat, Task>, steps: seq<Step>)
    requires AllCome(s, tasks) && Runs(s, steps) && forall a <- steps :: a.Insert? ==> Comes(tasks, a.task)
    ensures AllCome(After(s, steps), tasks)
    decreases |steps|
  {
    if steps != [] {
      assert steps[0] in steps;
      AllComeStep(s, tasks, steps[0]);
      AllComeInRun(Apply(s, steps[0]), tasks, steps[1..]);
    }
  }

  /** The tasks of a table of jobs. */
  function Tasks(jobs: map<nat, Assignment>): map<nat, Task>
    requires forall id :: id in jobs ==> jobs[id].job.id == id && Fits(jobs[id].job, jobs[id].w)
  {
    map id | id in jobs :: TaskOf(jobs[id])
  }

  /** From the start, with submissions arriving all along: whenever no worker can move, the row of every
      job ever sent holds the status that judging that job yields, or one of its writes failed. */
  lemma TableHoldsOutcomes(jobs: map<nat, Assignment>, rows: map<nat, JudgeStatus>, numWorkers: nat, steps: seq<Step>)
    requires forall id :: id in jobs ==> jobs[id].job.id == id && Fits(jobs[id].job, jobs[id].w)
    requires Runs(Start(rows, numWorkers), steps) && numWorkers > 0
    requires forall a <- steps :: a.Insert? ==> Comes(Tasks(jobs), a.task)
    ensures var s := After(Start(rows, numWorkers), steps);
            Quiet(s) ==> forall id :: id in s.sent ==>
              id in jobs && id in s.rows && (id in s.missed || s.rows[id] == Outcome(jobs[id].job, jobs[id].w).status)
  {
    var start := Start(rows, numWorkers);
    var s := After(start, steps);
    InvStart(rows, numWorkers);
    InvAlways(start, steps);
    EverySentJobIsJudged(start, steps);
    AllComeInRun(start, Tasks(jobs), steps);
    if Quiet(s) {
      forall id | id in s.sent
        ensures id in jobs && id in s.rows && (id in s.missed || s.rows[id] == Outcome(jobs[id].job, jobs[id].w).status)
      {
        assert id in s.done && s.done[id].id == id && Comes(Tasks(jobs), s.done[id]);
        PhasesRunSameCases(jobs[id]);
      }
    }
  }
}
