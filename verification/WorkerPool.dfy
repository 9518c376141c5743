/** The judge workers: request handlers, one bounded queue, and any number of workers. */
module WorkerPool {
  import opened Basics
  import opened JudgeTypes

  const CAPACITY: nat := 256

  /** A job as the pool sees it: whether its program gets as far as its test cases, after how many of
      them the loop ends (because they are all done or the sandbox fails), and the status `judge`
      stores last. */
  datatype Ticket = Ticket(id: nat, ready: bool, reach: nat, verdict: JudgeStatus)

  type Task = t: Ticket | IsTerminal(t.verdict)
    witness Ticket(0, false, 0, Accepted)

  /** Where a worker is inside `judge`; `done` cases have been run. */
  datatype Phase = Starting | Preparing | Testing(done: nat) | Ending

  datatype Worker = Idle | Receiving | Judging(task: Task, phase: Phase) | Exited

  /** `rows` is the status column. `waiting` holds jobs whose row is inserted but which are not yet
      sent. `sent`, `taken`, `done` and `missed` record the run so far: ids sent and taken in order,
      jobs judged to the end, and ids one of whose writes failed. */
  datatype State = State(
    rows: map<nat, JudgeStatus>,
    waiting: map<nat, Task>,
    queue: seq<Task>,
    closed: bool,
    lock: Option<nat>,
    workers: seq<Worker>,
    sent: seq<nat>,
    taken: seq<nat>,
    done: map<nat, Task>,
    missed: set<nat>)

  datatype Step =
    | Insert(task: Task)
    | Send(id: nat)
    | Abandon(id: nat)
    | CloseChannel
    | Lock(i: nat)
    | Receive(i: nat)
    | Shutdown(i: nat)
    | WriteRunning(i: nat, applied: bool)
    | Prepare(i: nat)
    | RunCase(i: nat)
    | WriteResult(i: nat, applied: bool)

  predicate IsWorkerStep(a: Step) {
    !a.Insert? && !a.Send? && !a.Abandon? && !a.CloseChannel?
  }

  function Start(rows: map<nat, JudgeStatus>, numWorkers: nat): State {
    State(rows, map[], [], false, None, seq(numWorkers, _ => Idle), [], [], map[], {})
  }

  predicate At(s: State, i: nat, phase: Phase) {
    i < |s.workers| && s.workers[i].Judging? && s.workers[i].phase == phase
  }

  predicate Enabled(s: State, a: Step) {
    match a
    // A second row with the same primary key is refused, and the handler stops there.
    case Insert(t) => !s.closed && t.id !in s.rows
    case Send(id) => !s.closed && id in s.waiting && |s.queue| < CAPACITY
    case Abandon(id) => id in s.waiting
    case CloseChannel => !s.closed && s.waiting == map[]
    case Lock(i) => i < |s.workers| && s.workers[i] == Idle && s.lock == None
    case Receive(i) => i < |s.workers| && s.workers[i] == Receiving && s.queue != []
    case Shutdown(i) => i < |s.workers| && s.workers[i] == Receiving && s.queue == [] && s.closed
    case WriteRunning(i, _) => At(s, i, Starting)
    case Prepare(i) => At(s, i, Preparing)
    case RunCase(i) => i < |s.workers| && s.workers[i].Judging? && s.workers[i].phase.Testing?
    case WriteResult(i, _) => At(s, i, Ending)
  }

  function AfterPreparing(t: Task): Phase {
    if t.ready then Testing(0) else Ending
  }

  function AfterTesting(t: Task, done: nat): Phase {
    if done >= t.reach then Ending else Testing(done + 1)
  }

  function Apply(s: State, a: Step): State
    requires Enabled(s, a)
  {
    match a
    case Insert(t) => s.(rows := s.rows[t.id := Pending], waiting := s.waiting[t.id := t])
    case Send(id) => s.(waiting := s.waiting - {id}, queue := s.queue + [s.waiting[id]], sent := s.sent + [id])
    case Abandon(id) => s.(waiting := s.waiting - {id})
    case CloseChannel => s.(closed := true)
    case Lock(i) => s.(lock := Some(i), workers := s.workers[i := Receiving])
    case Receive(i) =>
      s.(queue := s.queue[1..], lock := None, workers := s.workers[i := Judging(s.queue[0], Starting)],
         taken := s.taken + [s.queue[0].id])
    case Shutdown(i) => s.(lock := None, workers := s.workers[i := Exited])
    case WriteRunning(i, applied) =>
      Written(s, s.workers[i].task.id, Running, applied).(workers := s.workers[i := s.workers[i].(phase := Preparing)])
    case Prepare(i) =>
      s.(workers := s.workers[i := s.workers[i].(phase := AfterPreparing(s.workers[i].task))])
    case RunCase(i) =>
      s.(workers := s.workers[i := s.workers[i].(phase := AfterTesting(s.workers[i].task, s.workers[i].phase.done))])
    case WriteResult(i, applied) =>
      var t := s.workers[i].task;
      Written(s, t.id, t.verdict, applied).(workers := s.workers[i := Idle], done := s.done[t.id := t])
  }

  /** A write that may fail. */
  function Written(s: State, id: nat, status: JudgeStatus, applied: bool): State {
    if applied && id in s.rows then s.(rows := s.rows[id := status]) else s.(missed := s.missed + {id})
  }

  // ---- The invariant ------------------------------------------------------------------------------

  function Ids(q: seq<Task>): (r: seq<nat>)
    ensures |r| == |q| && forall i :: 0 <= i < |q| ==> r[i] == q[i].id
  {
    seq(|q|, i requires 0 <= i < |q| => q[i].id)
  }

  predicate Holds(s: State, i: nat, id: nat) {
    i < |s.workers| && s.workers[i].Judging? && s.workers[i].task.id == id
  }

  ghost predicate Distinct(ids: seq<nat>) {
    forall i, j :: 0 <= i < j < |ids| ==> ids[i] != ids[j]
  }

  /** Nothing sent is lost or duplicated: sent ids are distinct, the queue is what is sent but not
      taken, in order, and every taken job is held by exactly one worker or finished, never both. */
  ghost predicate Conserved(s: State) {
    && Distinct(s.sent)
    && s.sent == s.taken + Ids(s.queue)
    && (forall i, id :: Holds(s, i, id) ==> id in s.taken && id !in s.done)
    && (forall i, j, id :: Holds(s, i, id) && Holds(s, j, id) ==> i == j)
    && (forall id :: id in s.taken ==> id in s.done || exists i :: Holds(s, i, id))
    && (forall id :: id in s.done ==> id in s.taken && s.done[id].id == id)
  }

  /** Every job anyone still has to deal with has its row. */
  ghost predicate Recorded(s: State) {
    && (forall id :: id in s.sent ==> id in s.rows)
    && (forall id :: id in s.waiting ==> id in s.rows && id !in s.sent && s.waiting[id].id == id)
  }

  /** The lock, the capacity, and when workers may be gone. */
  ghost predicate Orderly(s: State) {
    && |s.queue| <= CAPACITY
    && (forall i: nat :: i < |s.workers| ==> (s.workers[i] == Receiving <==> s.lock == Some(i)))
    && (s.lock.Some? ==> s.lock.value < |s.workers|)
    && (forall i: nat :: i < |s.workers| && s.workers[i] == Exited ==> s.closed && s.queue == [])
    && (s.closed ==> s.waiting == map[])
  }

  /** What the status column says about a job, given how far it has come. */
  ghost predicate StatusFits(s: State) {
    forall id :: FitsFor(s, id)
  }

  ghost predicate FitsFor(s: State, id: nat) {
    && (id in s.waiting || (id in s.sent && id !in s.taken) ==> id in s.rows && s.rows[id] == Pending)
    && (forall i: nat :: Holds(s, i, id) ==> id in s.rows && HeldStatusFits(s, s.workers[i].phase, id))
    && (id in s.done ==> id in s.rows && DoneStatusFits(s, id))
  }

  predicate HeldStatusFits(s: State, phase: Phase, id: nat)
    requires id in s.rows
  {
    if phase == Starting then s.rows[id] == Pending
    else s.rows[id] == Running || (s.rows[id] == Pending && id in s.missed)
  }

  predicate DoneStatusFits(s: State, id: nat)
    requires id in s.rows && id in s.done
  {
    s.rows[id] == s.done[id].verdict || (id in s.missed && !IsTerminal(s.rows[id]))
  }

  ghost predicate Inv(s: State) {
    Conserved(s) && Recorded(s) && Orderly(s) && StatusFits(s)
  }

  lemma InvStart(rows: map<nat, JudgeStatus>, numWorkers: nat)
    ensures Inv(Start(rows, numWorkers))
  {
  }

  lemma OrderlyHandlerStep(s: State, a: Step)
    requires Recorded(s) && Orderly(s) && Enabled(s, a) && !IsWorkerStep(a)
    ensures Orderly(Apply(s, a))
  {
  }

  /** A worker going on with `judge`. */
  predicate IsJudgingStep(a: Step) {
    a.WriteRunning? || a.Prepare? || a.RunCase? || a.WriteResult?
  }

  /** A worker at the receiver. */
  predicate IsReceiverStep(a: Step) {
    a.Lock? || a.Receive? || a.Shutdown?
  }

  lemma OrderlyReceiverStep(s: State, a: Step)
    requires Orderly(s) && Enabled(s, a) && IsReceiverStep(a)
    ensures Orderly(Apply(s, a))
  {
  }

  /** Judging replaces one worker that is judging by one that is still judging or idle. */
  lemma JudgingStepFrame(s: State, a: Step)
    requires Enabled(s, a) && IsJudgingStep(a)
    ensures var (t, i) := (Apply(s, a), a.i);
            && i < |s.workers| && s.workers[i].Judging? && |t.workers| == |s.workers|
            && (t.workers[i].Judging? || t.workers[i].Idle?)
            && (forall j :: 0 <= j < |s.workers| && j != i ==> t.workers[j] == s.workers[j])
            && t.queue == s.queue && t.closed == s.closed && t.lock == s.lock
            && t.waiting == s.waiting && t.sent == s.sent && t.taken == s.taken
  {
  }

  lemma OrderlyJudgingStep(s: State, a: Step)
    requires Orderly(s) && Enabled(s, a) && IsJudgingStep(a)
    ensures Orderly(Apply(s, a))
  {
    JudgingStepFrame(s, a);
  }

  lemma OrderlyStep(s: State, a: Step)
    requires Inv(s) && Enabled(s, a)
    ensures Orderly(Apply(s, a))
  {
    if IsReceiverStep(a) {
      OrderlyReceiverStep(s, a);
    } else if IsJudgingStep(a) {
      OrderlyJudgingStep(s, a);
    } else {
      OrderlyHandlerStep(s, a);
    }
  }

  /** No row is ever deleted, and workers neither send nor take from the waiting handlers. */
  lemma RecordedWorkerStep(s: State, a: Step)
    requires Recorded(s) && Enabled(s, a) && IsWorkerStep(a)
    ensures Recorded(Apply(s, a))
  {
    WorkersLeaveHandlers(s, a);
    RowsStay(s, a);
  }

  lemma WorkersLeaveHandlers(s: State, a: Step)
    requires Enabled(s, a) && IsWorkerStep(a)
    ensures Apply(s, a).sent == s.sent && Apply(s, a).waiting == s.waiting
  {
  }

  lemma RowsStay(s: State, a: Step)
    requires Enabled(s, a)
    ensures forall id :: id in s.rows ==> id in Apply(s, a).rows
  {
  }

  lemma RecordedHandlerStep(s: State, a: Step)
    requires Recorded(s) && Enabled(s, a) && !IsWorkerStep(a)
    ensures Recorded(Apply(s, a))
  {
  }

  lemma RecordedStep(s: State, a: Step)
    requires Inv(s) && Enabled(s, a)
    ensures Recorded(Apply(s, a))
  {
    if IsWorkerStep(a) {
      RecordedWorkerStep(s, a);
    } else {
      RecordedHandlerStep(s, a);
    }
  }

  /** The head of the queue has never been taken. */
  lemma HeadIsNew(s: State)
    requires Conserved(s) && s.queue != []
    ensures s.queue[0].id !in s.taken
    ensures Ids(s.queue) == [s.queue[0].id] + Ids(s.queue[1..])
  {
    assert s.sent[|s.taken|] == Ids(s.queue)[0];
    assert forall i :: 0 <= i < |s.taken| ==> s.sent[i] == s.taken[i];
  }

  lemma ReceiveHolds(s: State, i: nat, j: nat, id: nat)
    requires Enabled(s, Receive(i))
    ensures Holds(Apply(s, Receive(i)), j, id) <==> (j == i && id == s.queue[0].id) || Holds(s, j, id)
  {
  }

  lemma ReceiveConserves(s: State, i: nat)
    requires Conserved(s) && Enabled(s, Receive(i))
    ensures Conserved(Apply(s, Receive(i)))
  {
    HeadIsNew(s);
    var (t, head) := (Apply(s, Receive(i)), s.queue[0].id);
    forall j, id ensures Holds(t, j, id) <==> (j == i && id == head) || Holds(s, j, id) {
      ReceiveHolds(s, i, j, id);
    }
    TakingConserves(s, t, i, head);
  }

  /** Moving the head of the queue into the hands of worker `i` conserves. */
  lemma TakingConserves(s: State, t: State, i: nat, head: nat)
    requires Conserved(s) && head !in s.taken && Ids(s.queue) == [head] + Ids(t.queue)
    requires t.sent == s.sent && t.taken == s.taken + [head] && t.done == s.done
    requires forall j, id :: Holds(t, j, id) <==> (j == i && id == head) || Holds(s, j, id)
    ensures Conserved(t)
  {
    assert t.taken + Ids(t.queue) == s.taken + Ids(s.queue);
    forall id | id in t.taken && id !in t.done ensures exists j :: Holds(t, j, id) {
      if id == head {
        assert Holds(t, i, id);
      } else {
        var j :| Holds(s, j, id);
        assert Holds(t, j, id);
      }
    }
  }

  lemma WriteResultConserves(s: State, i: nat, applied: bool)
    requires Inv(s) && Enabled(s, WriteResult(i, applied))
    ensures Conserved(Apply(s, WriteResult(i, applied)))
  {
    var (s', mine) := (Apply(s, WriteResult(i, applied)), s.workers[i].task.id);
    assert Holds(s, i, mine);
    assert forall j, id :: Holds(s', j, id) <==> j != i && Holds(s, j, id);
    forall id | id in s'.taken ensures id in s'.done || exists j :: Holds(s', j, id) {
      if id !in s'.done {
        var j :| Holds(s, j, id);
        assert Holds(s', j, id);
      }
    }
  }

  lemma SendConserves(s: State, id: nat)
    requires Inv(s) && Enabled(s, Send(id))
    ensures Conserved(Apply(s, Send(id)))
  {
    var s' := Apply(s, Send(id));
    assert Ids(s'.queue) == Ids(s.queue) + [id];
    assert forall j, k :: Holds(s', j, k) <==> Holds(s, j, k);
  }

  /** A step that leaves the records and everyone's job alone conserves. */
  lemma QuietConserves(s: State, t: State)
    requires Conserved(s)
    requires t.sent == s.sent && t.taken == s.taken && t.queue == s.queue && t.done == s.done
    requires forall i, id :: Holds(t, i, id) <==> Holds(s, i, id)
    ensures Conserved(t)
  {
  }

  /** Steps that neither send, take nor finish a job. */
  predicate MovesNoJob(a: Step) {
    !a.Send? && !a.Receive? && !a.WriteResult?
  }

  lemma HoldersStay(s: State, a: Step, i: nat, id: nat)
    requires Enabled(s, a) && MovesNoJob(a)
    ensures Holds(Apply(s, a), i, id) <==> Holds(s, i, id)
  {
  }

  lemma RecordsStay(s: State, a: Step)
    requires Enabled(s, a) && MovesNoJob(a)
    ensures var t := Apply(s, a);
            t.sent == s.sent && t.taken == s.taken && t.queue == s.queue && t.done == s.done
  {
  }

  lemma ConservedStep(s: State, a: Step)
    requires Inv(s) && Enabled(s, a)
    ensures Conserved(Apply(s, a))
  {
    match a
    case Send(id) => SendConserves(s, id);
    case Receive(i) => ReceiveConserves(s, i);
    case WriteResult(i, applied) => WriteResultConserves(s, i, applied);
    case _ =>
      forall i, id ensures Holds(Apply(s, a), i, id) <==> Holds(s, i, id) {
        HoldersStay(s, a, i, id);
      }
      RecordsStay(s, a);
      QuietConserves(s, Apply(s, a));
  }

  /** Seen from job `id`, worker `i` is as far on as it was. */
  predicate AsFar(s: State, t: State, i: nat, id: nat) {
    Holds(t, i, id) ==> Holds(s, i, id) && (t.workers[i].phase == Starting <==> s.workers[i].phase == Starting)
  }

  /** A step that does not concern job `id` keeps its status fitting. */
  lemma OthersFit(s: State, t: State, id: nat)
    requires FitsFor(s, id)
    requires id in s.rows ==> id in t.rows && t.rows[id] == s.rows[id]
    requires id in t.waiting || (id in t.sent && id !in t.taken) ==> id in s.waiting || (id in s.sent && id !in s.taken)
    requires id in t.done ==> id in s.done && t.done[id] == s.done[id]
    requires s.missed <= t.missed
    requires forall i :: AsFar(s, t, i, id)
    ensures FitsFor(t, id)
  {
    forall i: nat | Holds(t, i, id) ensures id in t.rows && HeldStatusFits(t, t.workers[i].phase, id) {
      assert AsFar(s, t, i, id);
    }
  }

  lemma WriteRunningFitsWriter(s: State, i: nat, applied: bool)
    requires Conserved(s) && Enabled(s, WriteRunning(i, applied))
    requires FitsFor(s, s.workers[i].task.id) && s.workers[i].task.id !in s.waiting
    ensures FitsFor(Apply(s, WriteRunning(i, applied)), s.workers[i].task.id)
  {
    var (t, mine) := (Apply(s, WriteRunning(i, applied)), s.workers[i].task.id);
    assert Holds(s, i, mine);
    assert forall j :: Holds(t, j, mine) ==> Holds(s, j, mine);
  }

  lemma WriteResultFitsWriter(s: State, i: nat, applied: bool)
    requires Conserved(s) && Enabled(s, WriteResult(i, applied))
    requires FitsFor(s, s.workers[i].task.id) && s.workers[i].task.id !in s.waiting
    ensures FitsFor(Apply(s, WriteResult(i, applied)), s.workers[i].task.id)
  {
    var (t, mine) := (Apply(s, WriteResult(i, applied)), s.workers[i].task.id);
    assert Holds(s, i, mine);
    assert forall j :: Holds(t, j, mine) ==> j != i && Holds(s, j, mine);
  }

  lemma WriteRunningFitsOthers(s: State, i: nat, applied: bool, id: nat)
    requires FitsFor(s, id) && Enabled(s, WriteRunning(i, applied)) && id != s.workers[i].task.id
    ensures FitsFor(Apply(s, WriteRunning(i, applied)), id)
  {
    var t := Apply(s, WriteRunning(i, applied));
    assert forall j :: AsFar(s, t, j, id);
    OthersFit(s, t, id);
  }

  lemma WriteResultFitsOthers(s: State, i: nat, applied: bool, id: nat)
    requires FitsFor(s, id) && Enabled(s, WriteResult(i, applied)) && id != s.workers[i].task.id
    ensures FitsFor(Apply(s, WriteResult(i, applied)), id)
  {
    var t := Apply(s, WriteResult(i, applied));
    assert forall j :: AsFar(s, t, j, id);
    OthersFit(s, t, id);
  }

  lemma ReceiveFitsTaker(s: State, i: nat)
    requires Conserved(s) && Enabled(s, Receive(i))
    requires FitsFor(s, s.queue[0].id)
    ensures FitsFor(Apply(s, Receive(i)), s.queue[0].id)
  {
    HeadIsNew(s);
    var (t, head) := (Apply(s, Receive(i)), s.queue[0].id);
    assert Ids(s.queue)[0] in s.sent;
    assert forall j :: Holds(t, j, head) && j != i ==> Holds(s, j, head);
  }

  lemma ReceiveFitsOthers(s: State, i: nat, id: nat)
    requires FitsFor(s, id) && Enabled(s, Receive(i)) && id != s.queue[0].id
    ensures FitsFor(Apply(s, Receive(i)), id)
  {
    OthersFit(s, Apply(s, Receive(i)), id);
  }

  lemma InsertFits(s: State, task: Task, id: nat)
    requires FitsFor(s, id) && Enabled(s, Insert(task)) && Recorded(s) && Conserved(s)
    ensures FitsFor(Apply(s, Insert(task)), id)
  {
    if id != task.id {
      OthersFit(s, Apply(s, Insert(task)), id);
    } else {
      assert forall j :: Holds(Apply(s, Insert(task)), j, id) ==> Holds(s, j, id);
    }
  }

  lemma StatusFitsStep(s: State, a: Step)
    requires Inv(s) && Enabled(s, a)
    ensures StatusFits(Apply(s, a))
  {
    forall id ensures FitsFor(Apply(s, a), id) {
      StatusFitsStepFor(s, a, id);
    }
  }

  lemma WriteFits(s: State, a: Step, id: nat)
    requires Inv(s) && Enabled(s, a) && (a.WriteRunning? || a.WriteResult?)
    ensures FitsFor(Apply(s, a), id)
  {
    var mine := s.workers[a.i].task.id;
    assert Holds(s, a.i, mine) && FitsFor(s, id);
    if a.WriteRunning? {
      if id == mine {
        WriteRunningFitsWriter(s, a.i, a.applied);
      } else {
        WriteRunningFitsOthers(s, a.i, a.applied, id);
      }
    } else {
      if id == mine {
        WriteResultFitsWriter(s, a.i, a.applied);
      } else {
        WriteResultFitsOthers(s, a.i, a.applied, id);
      }
    }
  }

  lemma StatusFitsStepFor(s: State, a: Step, id: nat)
    requires Inv(s) && Enabled(s, a)
    ensures FitsFor(Apply(s, a), id)
  {
    assert FitsFor(s, id);
    if a.WriteRunning? || a.WriteResult? {
      WriteFits(s, a, id);
    } else if a.Receive? {
      if id == s.queue[0].id {
        ReceiveFitsTaker(s, a.i);
      } else {
        ReceiveFitsOthers(s, a.i, id);
      }
    } else if a.Insert? {
      InsertFits(s, a.task, id);
    } else {
      QuietFits(s, a, id);
    }
  }

  /** Steps that neither write to the table nor take or add a job. */
  lemma QuietFits(s: State, a: Step, id: nat)
    requires FitsFor(s, id) && Enabled(s, a)
    requires !a.WriteRunning? && !a.WriteResult? && !a.Receive? && !a.Insert?
    ensures FitsFor(Apply(s, a), id)
  {
    forall i ensures AsFar(s, Apply(s, a), i, id) {
      QuietIsAsFar(s, a, i, id);
    }
    QuietFrame(s, a);
    OthersFit(s, Apply(s, a), id);
  }

  lemma QuietIsAsFar(s: State, a: Step, i: nat, id: nat)
    requires Enabled(s, a)
    requires !a.WriteRunning? && !a.WriteResult? && !a.Receive? && !a.Insert?
    ensures AsFar(s, Apply(s, a), i, id)
  {
  }

  lemma QuietFrame(s: State, a: Step)
    requires Enabled(s, a)
    requires !a.WriteRunning? && !a.WriteResult? && !a.Receive? && !a.Insert?
    ensures var t := Apply(s, a);
            && t.rows == s.rows && t.taken == s.taken && t.done == s.done && t.missed == s.missed
            && (forall id :: id in t.waiting || id in t.sent ==> id in s.waiting || id in s.sent)
            && (forall id :: id in t.waiting ==> id in s.waiting)
  {
  }

  lemma InvStep(s: State, a: Step)
    requires Inv(s) && Enabled(s, a)
    ensures Inv(Apply(s, a))
  {
    ConservedStep(s, a);
    RecordedStep(s, a);
    OrderlyStep(s, a);
    StatusFitsStep(s, a);
  }

  // ---- Whole runs -----------------------------------------------------------------------------------

  /** `steps` can be taken one after the other from `s`. */
  ghost predicate Runs(s: State, steps: seq<Step>)
    decreases |steps|
  {
    steps == [] || (Enabled(s, steps[0]) && Runs(Apply(s, steps[0]), steps[1..]))
  }

  ghost function After(s: State, steps: seq<Step>): State
    requires Runs(s, steps)
    decreases |steps|
  {
    if steps == [] then s else After(Apply(s, steps[0]), steps[1..])
  }

  /** Every state any run reaches satisfies the invariant. */
  lemma {:induction false} InvAlways(s: State, steps: seq<Step>)
    requires Inv(s) && Runs(s, steps)
    ensures Inv(After(s, steps))
    decreases |steps|
  {
    if steps != [] {
      InvStep(s, steps[0]);
      InvAlways(Apply(s, steps[0]), steps[1..]);
    }
  }

  /** From the start, whatever rows the table already had and however many workers there are: each
      sent job is in exactly one of the queue, one worker's hands, or the finished jobs; jobs are taken
      in the order they were sent; the queue stays within its capacity; every queued or held job has a
      row; and a worker has exited only if the channel is closed and empty. */
  lemma PoolIsSafe(rows: map<nat, JudgeStatus>, numWorkers: nat, steps: seq<Step>)
    requires Runs(Start(rows, numWorkers), steps)
    ensures var s := After(Start(rows, numWorkers), steps);
            && (forall id :: id in s.sent ==> InOnePlace(s, id))
            && s.taken <= s.sent && |s.queue| <= 256
            && (forall id :: id in Ids(s.queue) || (exists i :: Holds(s, i, id)) ==> id in s.rows)
            && (forall i: nat :: i < |s.workers| && s.workers[i] == Exited ==> s.closed && s.queue == [])
  {
    InvStart(rows, numWorkers);
    InvAlways(Start(rows, numWorkers), steps);
    var s := After(Start(rows, numWorkers), steps);
    forall id | id in s.sent ensures InOnePlace(s, id) {
      PlacesExclude(s, id);
    }
    forall id | id in Ids(s.queue) ensures id in s.rows {
      assert id in s.sent;
    }
  }

  /** Exactly one of: queued once, held by one worker, finished. */
  ghost predicate InOnePlace(s: State, id: nat) {
    var queued, held := id in Ids(s.queue), exists i :: Holds(s, i, id);
    && (queued || held || id in s.done)
    && !(queued && held) && !(queued && id in s.done) && !(held && id in s.done)
    && (forall i, j :: Holds(s, i, id) && Holds(s, j, id) ==> i == j)
    && (forall i, j :: 0 <= i < j < |s.queue| ==> s.queue[i].id != s.queue[j].id)
  }

  lemma PlacesExclude(s: State, id: nat)
    requires Conserved(s) && id in s.sent
    ensures InOnePlace(s, id)
  {
    SplitExcludes(s.sent, s.taken, Ids(s.queue));
    assert id in s.taken || id in Ids(s.queue);
  }

  /** The two parts of a list without duplicates are without duplicates and share nothing. */
  lemma SplitExcludes(all: seq<nat>, front: seq<nat>, back: seq<nat>)
    requires Distinct(all) && all == front + back
    ensures Distinct(back) && forall id :: id in back ==> id !in front
  {
    assert forall i :: 0 <= i < |back| ==> all[|front| + i] == back[i];
    assert forall i :: 0 <= i < |front| ==> all[i] == front[i];
  }

  /** A write that goes through changes the one row, to running or to the verdict; a write that fails
      changes none and is recorded as missed. */
  lemma WritesOneRow(s: State, a: Step)
    requires Inv(s) && Enabled(s, a) && (a.WriteRunning? || a.WriteResult?)
    ensures var (t, task) := (Apply(s, a), s.workers[a.i].task);
            && task.id in s.rows
            && (a.applied ==> t.rows == s.rows[task.id := if a.WriteRunning? then Running else task.verdict] && t.missed == s.missed)
            && (!a.applied ==> t.rows == s.rows && t.missed == s.missed + {task.id})
  {
    var id := s.workers[a.i].task.id;
    assert Holds(s, a.i, id) && FitsFor(s, id);
  }

  // ---- Status only moves forward ---------------------------------------------------------------------

  /** Unchanged, or further on: from pending to anything else, from running to a terminal status, and
      from a terminal status nowhere. */
  predicate IsForward(from: JudgeStatus, to: JudgeStatus) {
    to == from || (from == Pending && to != Pending) || (from == Running && to != Pending && to != Running)
  }

  /** Rows stay, and no status moves back. */
  ghost predicate Forward(s: State, t: State) {
    forall id :: id in s.rows ==> id in t.rows && IsForward(s.rows[id], t.rows[id])
  }

  lemma StepIsForward(s: State, a: Step)
    requires Inv(s) && Enabled(s, a)
    ensures Forward(s, Apply(s, a))
  {
    if a.WriteRunning? || a.WriteResult? {
      WriteIsForward(s, a);
    } else {
      KeepsStatuses(s, a);
    }
  }

  lemma WriteIsForward(s: State, a: Step)
    requires StatusFits(s) && Enabled(s, a) && (a.WriteRunning? || a.WriteResult?)
    ensures Forward(s, Apply(s, a))
  {
    var id := s.workers[a.i].task.id;
    assert Holds(s, a.i, id) && FitsFor(s, id);
  }

  lemma KeepsStatuses(s: State, a: Step)
    requires Enabled(s, a) && !a.WriteRunning? && !a.WriteResult?
    ensures forall id :: id in s.rows ==> id in Apply(s, a).rows && Apply(s, a).rows[id] == s.rows[id]
  {
  }

  /** Over any stretch of any run, even one in which writes fail, no status ever moves back. */
  lemma {:induction false} StatusMovesForward(s: State, steps: seq<Step>)
    requires Inv(s) && Runs(s, steps)
    ensures Forward(s, After(s, steps))
    ensures forall id :: id in s.rows ==>
      var (from, to) := (s.rows[id], After(s, steps).rows[id]);
      && (to == Pending ==> from == Pending)
      && (to == Running ==> from == Pending || from == Running)
      && (IsTerminal(from) ==> to == from)
    decreases |steps|
  {
    if steps != [] {
      StepIsForward(s, steps[0]);
      InvStep(s, steps[0]);
      StatusMovesForward(Apply(s, steps[0]), steps[1..]);
    }
  }

  // ---- Every sent job finishes ------------------------------------------------------------------------

  function Remaining(w: Worker): nat {
    match w
    case Exited => 0
    case Receiving => 1
    case Idle => 2
    case Judging(_, Ending) => 3
    case Judging(t, Testing(k)) => 4 + if k < t.reach then t.reach - k else 0
    case Judging(t, Preparing) => 5 + t.reach
    case Judging(t, Starting) => 6 + t.reach
  }

  function QueueWork(q: seq<Task>): nat {
    if q == [] then 0 else 6 + q[0].reach + QueueWork(q[1..])
  }

  function WorkersWork(ws: seq<Worker>): nat {
    if ws == [] then 0 else Remaining(ws[0]) + WorkersWork(ws[1..])
  }

  /** How much the workers have left to do. */
  function Work(s: State): nat {
    QueueWork(s.queue) + WorkersWork(s.workers)
  }

  lemma {:induction false} WorkersWorkUpdate(ws: seq<Worker>, i: nat, w: Worker)
    requires i < |ws|
    ensures WorkersWork(ws[i := w]) == WorkersWork(ws) - Remaining(ws[i]) + Remaining(w)
  {
    if i == 0 {
      assert ws[0 := w][1..] == ws[1..];
    } else {
      assert ws[i := w][1..] == ws[1..][i - 1 := w];
      WorkersWorkUpdate(ws[1..], i - 1, w);
    }
  }

  lemma WorkerStepsFinish(s: State, a: Step)
    requires Enabled(s, a) && IsWorkerStep(a)
    ensures Work(Apply(s, a)) < Work(s)
  {
    var t := Apply(s, a);
    if IsReceiverStep(a) {
      ReceiverStepMoves(s, a);
    } else {
      JudgingStepMoves(s, a);
    }
    WorkersWorkUpdate(s.workers, a.i, t.workers[a.i]);
  }

  lemma ReceiverStepMoves(s: State, a: Step)
    requires Enabled(s, a) && IsReceiverStep(a)
    ensures var (t, i) := (Apply(s, a), a.i);
            && i < |s.workers| == |t.workers| && t.workers == s.workers[i := t.workers[i]]
            && QueueWork(t.queue) + Remaining(t.workers[i]) < QueueWork(s.queue) + Remaining(s.workers[i])
  {
  }

  lemma JudgingStepMoves(s: State, a: Step)
    requires Enabled(s, a) && IsJudgingStep(a)
    ensures var (t, i) := (Apply(s, a), a.i);
            && i < |s.workers| == |t.workers| && t.workers == s.workers[i := t.workers[i]]
            && t.queue == s.queue && Remaining(t.workers[i]) < Remaining(s.workers[i])
  {
  }

  /** No worker can do anything. */
  ghost predicate Quiet(s: State) {
    forall a :: IsWorkerStep(a) ==> !Enabled(s, a)
  }

  /** When no worker can move, nothing is queued and nobody is judging. */
  lemma QuietMeansDone(s: State)
    requires Inv(s) && Quiet(s) && |s.workers| > 0
    ensures s.queue == [] && forall i: nat :: i < |s.workers| ==> !s.workers[i].Judging?
    ensures forall id :: id in s.sent ==> id in s.done
  {
    forall i: nat | i < |s.workers| ensures !s.workers[i].Judging? {
      if s.workers[i].Judging? {
        JudgingCanMove(s, i);
      }
    }
    QuietQueueIsEmpty(s);
    assert s.sent == s.taken;
  }

  lemma JudgingCanMove(s: State, i: nat)
    requires i < |s.workers| && s.workers[i].Judging?
    ensures exists a :: IsWorkerStep(a) && Enabled(s, a)
  {
    assert Enabled(s, WriteRunning(i, true)) || Enabled(s, Prepare(i)) || Enabled(s, RunCase(i)) || Enabled(s, WriteResult(i, true));
  }

  lemma QuietQueueIsEmpty(s: State)
    requires Orderly(s) && Quiet(s) && |s.workers| > 0
    requires forall i: nat :: i < |s.workers| ==> !s.workers[i].Judging?
    ensures s.queue == []
  {
    if s.lock == None {
      assert !Enabled(s, Lock(0));
      assert s.workers[0] == Exited;
    } else {
      assert !Enabled(s, Receive(s.lock.value));
    }
  }

  lemma {:induction false} QueueWorkAppend(q: seq<Task>, task: Task)
    ensures QueueWork(q + [task]) == QueueWork(q) + 6 + task.reach
  {
    if q == [] {
      assert (q + [task])[1..] == [];
    } else {
      assert (q + [task])[1..] == q[1..] + [task];
      QueueWorkAppend(q[1..], task);
    }
  }

  /** The work a step brings in: that of the job it sends. */
  function NewWork(s: State, a: Step): nat
    requires Enabled(s, a)
  {
    if a.Send? then 6 + s.waiting[a.id].reach else 0
  }

  ghost function WorkSent(s: State, steps: seq<Step>): nat
    requires Runs(s, steps)
    decreases |steps|
  {
    if steps == [] then 0 else NewWork(s, steps[0]) + WorkSent(Apply(s, steps[0]), steps[1..])
  }

  function WorkerSteps(steps: seq<Step>): nat {
    if steps == [] then 0 else (if IsWorkerStep(steps[0]) then 1 else 0) + WorkerSteps(steps[1..])
  }

  lemma HandlerStepWork(s: State, a: Step)
    requires Enabled(s, a) && !IsWorkerStep(a)
    ensures Work(Apply(s, a)) == Work(s) + NewWork(s, a)
  {
    if a.Send? {
      QueueWorkAppend(s.queue, s.waiting[a.id]);
    }
  }

  /** In any run, arrivals included: the workers' steps and the work still left add up to at most the
      work at the start and that of the jobs sent since. */
  lemma {:induction false} WorkBoundsSteps(s: State, steps: seq<Step>)
    requires Runs(s, steps)
    ensures WorkerSteps(steps) + Work(After(s, steps)) <= Work(s) + WorkSent(s, steps)
    decreases |steps|
  {
    if steps != [] {
      if IsWorkerStep(steps[0]) {
        WorkerStepsFinish(s, steps[0]);
      } else {
        HandlerStepWork(s, steps[0]);
      }
      WorkBoundsSteps(Apply(s, steps[0]), steps[1..]);
    }
  }

  /** Every sent job is judged, and its row holds the verdict that the job and the world determine,
      whichever exit `judge` took, unless one of its writes failed. */
  ghost predicate AllJudged(s: State) {
    forall id :: id in s.sent ==>
      id in s.done && id in s.rows && (id !in s.missed ==> s.rows[id] == s.done[id].verdict && IsTerminal(s.rows[id]))
  }

  /** Nobody is held up: whoever waits to send can. */
  ghost predicate NobodyBlocked(s: State) {
    forall id :: id in s.waiting ==> Enabled(s, Send(id))
  }

  lemma QuietMeansJudged(s: State)
    requires Inv(s) && Quiet(s) && |s.workers| > 0
    ensures AllJudged(s) && NobodyBlocked(s)
  {
    QuietMeansDone(s);
    forall id | id in s.sent
      ensures id in s.done && id in s.rows && (id !in s.missed ==> s.rows[id] == s.done[id].verdict && IsTerminal(s.rows[id]))
    {
      assert FitsFor(s, id);
    }
  }

  /** Over any run, with submissions arriving all along: the workers take a number of steps bounded by
      the work there is, and whenever none of them can move every sent job has been judged and every
      handler waiting to send can do so. */
  lemma EverySentJobIsJudged(s: State, steps: seq<Step>)
    requires Inv(s) && Runs(s, steps) && |s.workers| > 0
    ensures WorkerSteps(steps) <= Work(s) + WorkSent(s, steps)
    ensures Quiet(After(s, steps)) ==> AllJudged(After(s, steps)) && NobodyBlocked(After(s, steps))
  {
    WorkBoundsSteps(s, steps);
    InvAlways(s, steps);
    WorkersStay(s, steps);
    if Quiet(After(s, steps)) {
      QuietMeansJudged(After(s, steps));
    }
  }

  lemma {:induction false} WorkersStay(s: State, steps: seq<Step>)
    requires Runs(s, steps)
    ensures |After(s, steps).workers| == |s.workers|
    decreases |steps|
  {
    if steps != [] {
      WorkersStay(Apply(s, steps[0]), steps[1..]);
    }
  }

  lemma AppliedMissesNothing(s: State, a: Step)
    requires StatusFits(s) && Enabled(s, a) && (a.WriteRunning? || a.WriteResult? ==> a.applied)
    ensures Apply(s, a).missed == s.missed
  {
    if a.WriteRunning? || a.WriteResult? {
      var id := s.workers[a.i].task.id;
      assert Holds(s, a.i, id) && FitsFor(s, id);
    }
  }

  /** A run in which no write fails misses nothing. */
  lemma {:induction false} NothingMissed(s: State, steps: seq<Step>)
    requires Inv(s) && Runs(s, steps)
    requires forall a <- steps :: a.WriteRunning? || a.WriteResult? ==> a.applied
    ensures After(s, steps).missed == s.missed
    decreases |steps|
  {
    if steps != [] {
      var a := steps[0];
      assert a in steps;
      AppliedMissesNothing(s, a);
      InvStep(s, a);
      NothingMissed(Apply(s, a), steps[1..]);
    }
  }

  /** From the start, when no write fails: whenever no worker can move, every job ever sent has its
      verdict in the table. */
  lemma AllVerdictsStored(rows: map<nat, JudgeStatus>, numWorkers: nat, steps: seq<Step>)
    requires Runs(Start(rows, numWorkers), steps) && numWorkers > 0
    requires forall a <- steps :: a.WriteRunning? || a.WriteResult? ==> a.applied
    ensures var t := After(Start(rows, numWorkers), steps);
            Quiet(t) ==> forall id :: id in t.sent ==> id in t.done && id in t.rows && t.rows[id] == t.done[id].verdict
  {
    InvStart(rows, numWorkers);
    NothingMissed(Start(rows, numWorkers), steps);
    EverySentJobIsJudged(Start(rows, numWorkers), steps);
  }

  // ---- Submissions get through -------------------------------------------------------------------------

  lemma {:induction false} RunsAppend(s: State, a: seq<Step>, b: seq<Step>)
    requires Runs(s, a) && Runs(After(s, a), b)
    ensures Runs(s, a + b) && After(s, a + b) == After(After(s, a), b)
    decreases |a|
  {
    if a == [] {
      assert a + b == b;
    } else {
      assert (a + b)[1..] == a[1..] + b;
      RunsAppend(Apply(s, a[0]), a[1..], b);
    }
  }

  lemma RunsThen(s: State, a: seq<Step>, x: Step)
    requires Runs(s, a) && Enabled(After(s, a), x)
    ensures Runs(s, a + [x]) && After(s, a + [x]) == Apply(After(s, a), x)
  {
    var t := After(s, a);
    assert Runs(t, [x]) && After(t, [x]) == Apply(t, x) by {
      assert [x][1..] == [];
    }
    RunsAppend(s, a, [x]);
  }

  /** A worker can run the test cases to their end. */
  lemma {:induction false} TestingEnds(s: State, i: nat) returns (steps: seq<Step>)
    requires i < |s.workers| && s.workers[i].Judging? && s.workers[i].phase.Testing?
    ensures Runs(s, steps) && |steps| == 1 + MaxInt(s.workers[i].task.reach - s.workers[i].phase.done, 0)
    ensures After(s, steps) == s.(workers := s.workers[i := Judging(s.workers[i].task, Ending)])
    decreases s.workers[i].task.reach - s.workers[i].phase.done
  {
    var (task, done) := (s.workers[i].task, s.workers[i].phase.done);
    var t := Apply(s, RunCase(i));
    if done >= task.reach {
      steps := [RunCase(i)];
      assert steps[1..] == [];
    } else {
      var rest := TestingEnds(t, i);
      steps := [RunCase(i)] + rest;
      assert steps[1..] == rest;
    }
  }

  /** A worker that holds a job can judge it and store its verdict, whatever the others do not do. */
  lemma JudgingEnds(s: State, i: nat) returns (steps: seq<Step>)
    requires At(s, i, Starting) && s.workers[i].task.id in s.rows
    ensures Runs(s, steps)
    ensures var (t, task) := (After(s, steps), s.workers[i].task);
            && t.rows == s.rows[task.id := task.verdict] && t.done == s.done[task.id := task]
            && t.missed == s.missed && t.sent == s.sent && t.workers == s.workers[i := Idle]
  {
    var task := s.workers[i].task;
    var begun := [WriteRunning(i, true)];
    assert begun == [] + begun;
    RunsThen(s, [], WriteRunning(i, true));
    RunsThen(s, begun, Prepare(i));
    steps := begun + [Prepare(i)];
    if task.ready {
      var testing := TestingEnds(After(s, steps), i);
      RunsAppend(s, steps, testing);
      steps := steps + testing;
    }
    RunsThen(s, steps, WriteResult(i, true));
    steps := steps + [WriteResult(i, true)];
    var t := After(s, steps);
    assert t.rows == s.rows[task.id := task.verdict];
    assert t.workers == s.workers[i := Idle];
  }

  /** With at least one worker, a new submission can be inserted, sent, taken and judged: its row then
      holds its verdict. */
  lemma SubmissionGetsThrough(rows: map<nat, JudgeStatus>, numWorkers: nat, task: Task) returns (steps: seq<Step>)
    requires numWorkers > 0 && task.id !in rows
    ensures var start := Start(rows, numWorkers);
            Runs(start, steps) && After(start, steps).rows == rows[task.id := task.verdict] && After(start, steps).sent == [task.id]
  {
    var start := Start(rows, numWorkers);
    var a, b, c := [Insert(task)], [Insert(task), Send(task.id)], [Insert(task), Send(task.id), Lock(0)];
    assert a == [] + a && b == a + [Send(task.id)] && c == b + [Lock(0)];
    RunsThen(start, [], Insert(task));
    RunsThen(start, a, Send(task.id));
    RunsThen(start, b, Lock(0));
    RunsThen(start, c, Receive(0));
    steps := c + [Receive(0)];
    var s := After(start, steps);
    assert At(s, 0, Starting) && s.workers[0].task == task && task.id in s.rows;
    var judging := JudgingEnds(s, 0);
    RunsAppend(start, steps, judging);
    steps := steps + judging;
  }
}
