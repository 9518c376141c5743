/** Judging one submission: the worker's `judge` procedure and what it means. */
module Judge {
  import opened Basics
  import opened JudgeTypes

  datatype RunStatus = Ok | TimedOut | Failed | Killed

  datatype RunResult = RunResult(
    stdout: string,
    stderr: string,
    exitCode: Option<int>,
    wallNanos: nat,
    memoryBytes: nat,
    status: RunStatus)

  datatype ScorerResult = Score(value: Float) | ScorerFailed(message: string)

  /** What happens when a test case is run: the sandbox itself fails, or it gives a result, with
      what the scorer would say about its output. */
  datatype CaseRun = SandboxError(message: string) | Ran(result: RunResult, scorer: ScorerResult)

  datatype Compilation = CompilerError(message: string) | Rejected(message: string) | Compiled(warnings: string)

  datatype Case = Case(input: string, expected: Option<string>)

  datatype Job = Job(id: nat, heuristic: bool, memoryLimitKb: nat, cases: seq<Case>)

  /** Everything the outside world contributes to judging one job. */
  datatype World = World(tempDirError: Option<string>, compilation: Compilation, runs: seq<CaseRun>)

  predicate Fits(job: Job, w: World) {
    |w.runs| == |job.cases|
  }

  // ---- The submissions table ---------------------------------------------------------------------

  datatype Columns = Columns(
    status: string,
    timeMs: Option<nat>,
    memoryKb: Option<nat>,
    stdout: Option<string>,
    stderr: Option<string>,
    verdicts: Option<seq<TestcaseVerdict>>,
    score: Option<Float>)

  /** An UPDATE: of the status column only, or of every result column. */
  datatype Write =
    | StatusOnly(status: JudgeStatus)
    | FullResult(status: JudgeStatus, timeMs: Option<nat>, memoryKb: Option<nat>, stdout: Option<string>,
                 stderr: Option<string>, verdicts: Option<seq<TestcaseVerdict>>, score: Option<Float>)

  function Updated(rows: map<nat, Columns>, id: nat, w: Write): map<nat, Columns> {
    if id !in rows then rows
    else match w
      case StatusOnly(s) => rows[id := rows[id].(status := ToDb(s))]
      case FullResult(s, t, m, out, err, v, sc) => rows[id := Columns(ToDb(s), t, m, out, err, v, sc)]
  }

  /** An update keeps the rows there are and every row but one; it writes the columns it names. */
  lemma UpdatedRows(rows: map<nat, Columns>, id: nat, w: Write)
    ensures Updated(rows, id, w).Keys == rows.Keys
    ensures forall k :: k in rows && k != id ==> Updated(rows, id, w)[k] == rows[k]
    ensures id in rows ==>
      var (before, after) := (rows[id], Updated(rows, id, w)[id]);
      && after.status == ToDb(w.status)
      && (w.StatusOnly? ==>
            && after.timeMs == before.timeMs && after.memoryKb == before.memoryKb && after.stdout == before.stdout
            && after.stderr == before.stderr && after.verdicts == before.verdicts && after.score == before.score)
      && (w.FullResult? ==>
            && after.timeMs == w.timeMs && after.memoryKb == w.memoryKb && after.stdout == w.stdout
            && after.stderr == w.stderr && after.verdicts == w.verdicts && after.score == w.score)
  {
  }

  class Database {
    var rows: map<nat, Columns>

    /** A statement that may fail, leaving the table as it was. */
    method Execute(id: nat, w: Write) returns (ok: bool)
      modifies this
      ensures rows == if ok then Updated(old(rows), id, w) else old(rows)
    {
      ok := *;
      if ok {
        rows := Updated(rows, id, w);
      }
    }
  }

  // ---- The verdict of one case ----------------------------------------------------------------------

  /** The white space characters of Unicode. */
  predicate IsSpace(c: char) {
    '\t' <= c <= '\r' || c == ' ' || c == '\U{0085}' || c == '\U{00A0}' || c == '\U{1680}'
    || '\U{2000}' <= c <= '\U{200A}' || c == '\U{2028}' || c == '\U{2029}' || c == '\U{202F}'
    || c == '\U{205F}' || c == '\U{3000}'
  }

  function WhiteSpace(): seq<char> {
    ['\t', '\n', '\U{000B}', '\U{000C}', '\r', ' ', '\U{0085}', '\U{00A0}', '\U{1680}',
     '\U{2000}', '\U{2001}', '\U{2002}', '\U{2003}', '\U{2004}', '\U{2005}', '\U{2006}', '\U{2007}', '\U{2008}',
     '\U{2009}', '\U{200A}', '\U{2028}', '\U{2029}', '\U{202F}', '\U{205F}', '\U{3000}']
  }

  lemma IsSpaceIff(c: char)
    ensures IsSpace(c) <==> c in WhiteSpace()
  {
  }

  function Trim(s: string): string {
    if s != "" && IsSpace(s[0]) then Trim(s[1..])
    else if s != "" && IsSpace(s[|s| - 1]) then Trim(s[..|s| - 1])
    else s
  }

  predicate AllSpace(s: string) {
    forall i :: 0 <= i < |s| ==> IsSpace(s[i])
  }

  ghost predicate Pads(a: string, b: string, core: string, s: string) {
    AllSpace(a) && AllSpace(b) && s == a + core + b
  }

  ghost predicate IsPadded(core: string, s: string) {
    exists a, b :: Pads(a, b, core, s)
  }

  lemma {:induction false} TrimPads(s: string) returns (a: string, b: string)
    ensures Pads(a, b, Trim(s), s)
    decreases |s|
  {
    a, b := "", "";
    if s != "" && IsSpace(s[0]) {
      a, b := TrimPads(s[1..]);
      a := [s[0]] + a;
      assert s == [s[0]] + s[1..];
    } else if s != "" && IsSpace(s[|s| - 1]) {
      a, b := TrimPads(s[..|s| - 1]);
      b := b + [s[|s| - 1]];
    }
  }

  lemma {:induction false} PaddingIsTrimmed(a: string, core: string, b: string)
    requires AllSpace(a) && AllSpace(b)
    ensures Trim(a + core + b) == Trim(core)
    decreases |a| + |core| + |b|
  {
    var s := a + core + b;
    if a != "" {
      assert s[1..] == a[1..] + core + b;
      PaddingIsTrimmed(a[1..], core, b);
    } else if core != "" && IsSpace(core[0]) {
      assert s[1..] == "" + core[1..] + b;
      PaddingIsTrimmed("", core[1..], b);
    } else if b != "" && core == "" {
      assert s == b && s[1..] == "" + core + b[1..];
      PaddingIsTrimmed("", core, b[1..]);
    } else if b != "" {
      assert s[..|s| - 1] == "" + core + b[..|b| - 1];
      PaddingIsTrimmed("", core, b[..|b| - 1]);
    } else {
      assert s == core;
    }
  }

  /** Output matches what was expected exactly when the two differ only in white space around them. */
  lemma OutputMatchesIff(output: string, expected: string)
    ensures Trim(output) == Trim(expected) <==> exists core :: IsPadded(core, output) && IsPadded(core, expected)
  {
    var a, b := TrimPads(output);
    var c, d := TrimPads(expected);
    if Trim(output) == Trim(expected) {
      assert IsPadded(Trim(output), output) && IsPadded(Trim(output), expected);
    }
    if core :| IsPadded(core, output) && IsPadded(core, expected) {
      TrimOfPadded(core, output);
      TrimOfPadded(core, expected);
    }
  }

  lemma TrimOfPadded(core: string, s: string)
    requires IsPadded(core, s)
    ensures Trim(s) == Trim(core)
  {
    var a, b :| Pads(a, b, core, s);
    PaddingIsTrimmed(a, core, b);
  }

  function MemoryKb(r: RunResult): nat {
    r.memoryBytes / 1024
  }

  function TimeMs(r: RunResult): nat {
    r.wallNanos / 1_000_000
  }

  function CaseStatus(job: Job, c: Case, run: CaseRun): JudgeStatus
    requires run.Ran?
  {
    var r := run.result;
    match r.status
    case TimedOut => TimeLimitExceeded
    case Failed | Killed =>
      if MemoryKb(r) > job.memoryLimitKb then MemoryLimitExceeded
      else RuntimeError(if r.exitCode.Some? then r.exitCode.value else -1)
    case Ok =>
      if job.heuristic then
        if run.scorer.Score? then Scored else InternalError(run.scorer.message)
      else if Trim(r.stdout) == Trim(if c.expected.Some? then c.expected.value else "") then Accepted
      else WrongAnswer
  }

  function CaseScore(job: Job, run: CaseRun): Option<Float>
    requires run.Ran?
  {
    if job.heuristic && run.result.status == Ok && run.scorer.Score? then Some(run.scorer.value) else None
  }

  function VerdictText(s: JudgeStatus): string {
    match s
    case Accepted => "AC"
    case WrongAnswer => "WA"
    case TimeLimitExceeded => "TLE"
    case MemoryLimitExceeded => "MLE"
    case RuntimeError(_) => "RE"
    case Scored => "SCORED"
    case _ => "IE"
  }

  function ShownStderr(warnings: string, stderr: string): string {
    if warnings == "" then stderr
    else if stderr == "" then "[Compile warnings]\n" + warnings
    else "[Compile warnings]\n" + warnings + "\n[Runtime stderr]\n" + stderr
  }

  /** All that judging keeps of one run. */
  datatype CaseOutcome = CaseOutcome(
    status: JudgeStatus,
    timeMs: nat,
    memoryKb: nat,
    stdout: string,
    stderr: string,
    score: Option<Float>)
  {
    function Verdict(): TestcaseVerdict {
      TestcaseVerdict(VerdictText(status), Some(timeMs), Some(memoryKb), score)
    }
  }

  function OutcomeOf(job: Job, c: Case, run: CaseRun, warnings: string): CaseOutcome
    requires run.Ran?
  {
    CaseOutcome(CaseStatus(job, c, run), TimeMs(run.result), MemoryKb(run.result), run.result.stdout,
                ShownStderr(warnings, run.result.stderr), CaseScore(job, run))
  }

  /** What each verdict on a case means. Memory only decides between the two failures of a run that
      failed: a run that ended well, or ran out of time, is never charged for it. */
  lemma CaseStatusIff(job: Job, c: Case, run: CaseRun)
    requires run.Ran?
    ensures var (s, r) := (CaseStatus(job, c, run), run.result);
            var failed := r.status == Failed || r.status == Killed;
            && (s == TimeLimitExceeded <==> r.status == TimedOut)
            && (s == MemoryLimitExceeded <==> failed && r.memoryBytes >= 1024 * (job.memoryLimitKb + 1))
            && (s.RuntimeError? <==> failed && r.memoryBytes < 1024 * (job.memoryLimitKb + 1))
            && (s.RuntimeError? ==> s.exitCode == match r.exitCode case Some(code) => code case None => -1)
            && (s.InternalError? ==> run.scorer == ScorerFailed(s.message))
            && (s.InternalError? <==> r.status == Ok && job.heuristic && run.scorer.ScorerFailed?)
            && (s == Scored <==> r.status == Ok && job.heuristic && run.scorer.Score?)
            && (s == Scored <==> CaseScore(job, run).Some?)
            && (s == Accepted <==>
                 r.status == Ok && !job.heuristic && Trim(r.stdout) == Trim(if c.expected.Some? then c.expected.value else ""))
  {
  }

  /** The text stored for a case, by what happened to it. */
  lemma CaseTexts(job: Job, c: Case, run: CaseRun)
    requires run.Ran?
    ensures var (text, r) := (VerdictText(CaseStatus(job, c, run)), run.result);
            var failed := r.status == Failed || r.status == Killed;
            && (text == "TLE" <==> r.status == TimedOut)
            && (text == "MLE" <==> failed && r.memoryBytes >= 1024 * (job.memoryLimitKb + 1))
            && (text == "RE" <==> failed && r.memoryBytes < 1024 * (job.memoryLimitKb + 1))
            && (text == "IE" <==> r.status == Ok && job.heuristic && run.scorer.ScorerFailed?)
            && (text == "SCORED" <==> r.status == Ok && job.heuristic && run.scorer.Score?)
            && (text == "AC" <==> CaseStatus(job, c, run) == Accepted)
            && (text == "WA" <==> CaseStatus(job, c, run) == WrongAnswer)
  {
    DistinctTexts(CaseStatus(job, c, run));
  }

  /** Each verdict has a text of its own, except that all that cannot happen to a case share one. */
  lemma DistinctTexts(s: JudgeStatus)
    ensures VerdictText(s) == "TLE" <==> s == TimeLimitExceeded
    ensures VerdictText(s) == "MLE" <==> s == MemoryLimitExceeded
    ensures VerdictText(s) == "RE" <==> s.RuntimeError?
    ensures VerdictText(s) == "SCORED" <==> s == Scored
    ensures VerdictText(s) == "AC" <==> s == Accepted
    ensures VerdictText(s) == "WA" <==> s == WrongAnswer
    ensures VerdictText(s) == "IE" <==> s.InternalError? || s.CompileError? || s.Pending? || s.Running?
  {
    var t := VerdictText(s);
    assert |t| == 2 || |t| == 3 || |t| == 6;
    assert |t| == 2 ==> t[0] == 'A' || t[0] == 'W' || t[0] == 'R' || t[0] == 'I';
    assert |t| == 3 ==> t[0] == 'T' || t[0] == 'M';
  }

  /** The error text shown ends with the program's own and starts with the compiler's, each under a
      heading only if there are compile warnings. */
  lemma StderrShown(warnings: string, stderr: string)
    ensures warnings == "" ==> ShownStderr(warnings, stderr) == stderr
    ensures warnings != "" ==>
      var (shown, head) := (ShownStderr(warnings, stderr), "[Compile warnings]\n" + warnings);
      head <= shown && shown[|head|..] == if stderr == "" then "" else "\n[Runtime stderr]\n" + stderr
  {
  }

  // ---- The declarative reading of a whole job --------------------------------------------------------

  /** Index of the first element satisfying `p`, or the length. */
  function FirstIndex<T>(s: seq<T>, p: T -> bool): (k: nat)
    ensures k <= |s| && (k < |s| ==> p(s[k]))
    ensures forall j :: 0 <= j < k ==> !p(s[j])
  {
    if s == [] || p(s[0]) then 0
    else
      var k := FirstIndex(s[1..], p);
      assert forall j :: 0 < j < 1 + k ==> s[j] == s[1..][j - 1];
      1 + k
  }

  function FirstCrash(w: World): (k: nat)
    ensures k <= |w.runs| && (k < |w.runs| ==> w.runs[k].SandboxError?)
    ensures forall j :: 0 <= j < k ==> w.runs[j].Ran?
  {
    FirstIndex(w.runs, (r: CaseRun) => r.SandboxError?)
  }

  /** The outcomes of the cases run before the sandbox first fails, all of them if it never does. */
  function Outcomes(job: Job, w: World, warnings: string): (o: seq<CaseOutcome>)
    requires Fits(job, w)
    ensures |o| == FirstCrash(w)
  {
    seq(FirstCrash(w), i requires 0 <= i < FirstCrash(w) => OutcomeOf(job, job.cases[i], w.runs[i], warnings))
  }

  /** The lowest-index failing case among the first `n`, or `n`. */
  function FirstFailure(o: seq<CaseOutcome>, n: nat): (k: nat)
    requires n <= |o|
    ensures k <= n && (k < n ==> !IsSuccess(o[k].status))
    ensures forall j :: 0 <= j < k ==> IsSuccess(o[j].status)
  {
    if n == 0 then 0
    else
      var k := FirstFailure(o, n - 1);
      if k < n - 1 || !IsSuccess(o[n - 1].status) then k else n
  }

  function MaxTime(o: seq<CaseOutcome>, n: nat): (m: nat)
    requires n <= |o|
    ensures forall i :: 0 <= i < n ==> o[i].timeMs <= m
    ensures m == 0 || exists i :: 0 <= i < n && o[i].timeMs == m
  {
    if n == 0 then 0 else MaxInt(MaxTime(o, n - 1), o[n - 1].timeMs)
  }

  function MaxMemory(o: seq<CaseOutcome>, n: nat): (m: nat)
    requires n <= |o|
    ensures forall i :: 0 <= i < n ==> o[i].memoryKb <= m
    ensures m == 0 || exists i :: 0 <= i < n && o[i].memoryKb == m
  {
    if n == 0 then 0 else MaxInt(MaxMemory(o, n - 1), o[n - 1].memoryKb)
  }

  function TotalScore(o: seq<CaseOutcome>, n: nat): Float
    requires n <= |o|
  {
    if n == 0 then Finite(0.0)
    else if o[n - 1].score.Some? then TotalScore(o, n - 1).Plus(o[n - 1].score.value)
    else TotalScore(o, n - 1)
  }

  function Verdicts(o: seq<CaseOutcome>, n: nat): (v: seq<TestcaseVerdict>)
    requires n <= |o|
    ensures |v| == n
  {
    seq(n, i requires 0 <= i < n => o[i].Verdict())
  }

  function SomeIfPositive(n: nat): Option<nat> {
    if n > 0 then Some(n) else None
  }

  /** The last UPDATE that judging `job` issues. */
  function Outcome(job: Job, w: World): Write
    requires Fits(job, w)
  {
    if w.tempDirError.Some? then StatusOnly(InternalError(w.tempDirError.value))
    else match w.compilation
      case CompilerError(m) => StatusOnly(InternalError(m))
      case Rejected(m) => FullResult(CompileError(m), None, None, None, Some(m), None, None)
      case Compiled(warnings) =>
        var crash := FirstCrash(w);
        if crash < |w.runs| then StatusOnly(InternalError(w.runs[crash].message))
        else CompletedResult(job.heuristic, Outcomes(job, w, warnings))
  }

  function CompletedResult(heuristic: bool, o: seq<CaseOutcome>): Write {
    var n := |o|;
    var k := FirstFailure(o, n);
    FullResult(
      if k < n then o[k].status else if heuristic then Scored else Accepted,
      SomeIfPositive(MaxTime(o, n)),
      SomeIfPositive(MaxMemory(o, n)),
      Some(if k < n then o[k].stdout else ""),
      Some(if k < n then o[k].stderr else ""),
      Some(Verdicts(o, n)),
      if heuristic then Some(TotalScore(o, n)) else None)
  }

  /** How many test cases are run. */
  function CasesRun(w: World): nat {
    if w.tempDirError.Some? || !w.compilation.Compiled? then 0 else MinInt(FirstCrash(w) + 1, |w.runs|)
  }

  // ---- The procedure ----------------------------------------------------------------------------------

  function Attempt(rows: map<nat, Columns>, id: nat, w: Write, ok: bool): map<nat, Columns> {
    if ok then Updated(rows, id, w) else rows
  }

  /** What the loop over the test cases accumulates. */
  datatype Tally = Tally(
    finalStatus: JudgeStatus,
    maxTimeMs: nat,
    maxMemoryKb: nat,
    failStdout: string,
    failStderr: string,
    verdicts: seq<TestcaseVerdict>,
    totalScore: Float)

  ghost predicate Tallied(heuristic: bool, o: seq<CaseOutcome>, n: nat, t: Tally)
    requires n <= |o|
  {
    && t.maxTimeMs == MaxTime(o, n) && t.maxMemoryKb == MaxMemory(o, n)
    && t.verdicts == Verdicts(o, n) && t.totalScore == TotalScore(o, n)
    && var k := FirstFailure(o, n);
    if k < n then t.finalStatus == o[k].status && t.failStdout == o[k].stdout && t.failStderr == o[k].stderr
    else t.finalStatus == if heuristic then Scored else Accepted
  }

  function NewTally(heuristic: bool): Tally {
    Tally(if heuristic then Scored else Accepted, 0, 0, "", "", [], Finite(0.0))
  }

  /** The tally after the first `n` runs. */
  ghost predicate TalliedRuns(job: Job, w: World, warnings: string, n: nat, t: Tally)
    requires Fits(job, w) && n <= FirstCrash(w)
  {
    Tallied(job.heuristic, Outcomes(job, w, warnings), n, t)
  }

  lemma NothingTallied(job: Job, w: World, warnings: string)
    requires Fits(job, w)
    ensures TalliedRuns(job, w, warnings, 0, NewTally(job.heuristic))
  {
  }

  lemma CrashesHere(w: World, i: nat)
    requires i < |w.runs| && i <= FirstCrash(w)
    ensures w.runs[i].SandboxError? <==> FirstCrash(w) == i
  {
  }

  lemma OutcomeAt(job: Job, w: World, warnings: string, i: nat)
    requires Fits(job, w) && i < FirstCrash(w)
    ensures w.runs[i].Ran? && Outcomes(job, w, warnings)[i] == OutcomeOf(job, job.cases[i], w.runs[i], warnings)
  {
  }

  /** Run the test cases in order. All of them, unless the sandbox itself fails. */
  method RunCases(job: Job, w: World, warnings: string) returns (crash: Option<string>, t: Tally, casesRun: nat)
    requires Fits(job, w)
    ensures casesRun == MinInt(FirstCrash(w) + 1, |w.runs|)
    ensures crash == if FirstCrash(w) < |w.runs| then Some(w.runs[FirstCrash(w)].message) else None
    ensures crash.None? ==> TalliedRuns(job, w, warnings, |w.runs|, t)
  {
    casesRun := 0;
    crash := None;
    t := NewTally(job.heuristic);
    NothingTallied(job, w, warnings);
    for i := 0 to |job.cases|
      invariant casesRun == i <= FirstCrash(w)
      invariant TalliedRuns(job, w, warnings, i, t)
    {
      casesRun := i + 1;
      var run := w.runs[i];
      CrashesHere(w, i);
      if run.SandboxError? {
        crash := Some(run.message);
        return;
      }
      t := CountRun(job, w, warnings, i, t);
    }
  }

  /** What a run that gave a result adds to the tally. */
  method CountRun(job: Job, w: World, warnings: string, i: nat, t: Tally) returns (r: Tally)
    requires Fits(job, w) && i < FirstCrash(w) && TalliedRuns(job, w, warnings, i, t)
    ensures TalliedRuns(job, w, warnings, i + 1, r)
  {
    OutcomeAt(job, w, warnings, i);
    r := Count(t, OutcomeOf(job, job.cases[i], w.runs[i], warnings), Outcomes(job, w, warnings), i, job.heuristic);
  }

  /** One round of the loop: fold the outcome of a case into the tally. */
  method Count(t: Tally, c: CaseOutcome, ghost o: seq<CaseOutcome>, ghost i: nat, ghost heuristic: bool) returns (r: Tally)
    requires i < |o| && c == o[i] && Tallied(heuristic, o, i, t)
    ensures Tallied(heuristic, o, i + 1, r)
  {
    r := t.(verdicts := t.verdicts + [c.Verdict()]);
    if c.timeMs > r.maxTimeMs {
      r := r.(maxTimeMs := c.timeMs);
    }
    if c.memoryKb > r.maxMemoryKb {
      r := r.(maxMemoryKb := c.memoryKb);
    }
    if c.score.Some? {
      r := r.(totalScore := r.totalScore.Plus(c.score.value));
    }
    if IsSuccess(r.finalStatus) && !IsSuccess(c.status) {
      r := r.(finalStatus := c.status, failStdout := c.stdout, failStderr := c.stderr);
    }
  }

  /** The UPDATE made from the tally of a job all of whose cases were run. */
  function ResultOf(heuristic: bool, t: Tally): Write {
    var ok := IsSuccess(t.finalStatus);
    FullResult(t.finalStatus, SomeIfPositive(t.maxTimeMs), SomeIfPositive(t.maxMemoryKb),
               Some(if ok then "" else t.failStdout), Some(if ok then "" else t.failStderr),
               Some(t.verdicts), if heuristic then Some(t.totalScore) else None)
  }

  lemma TallyGivesResult(heuristic: bool, o: seq<CaseOutcome>, t: Tally)
    requires Tallied(heuristic, o, |o|, t)
    ensures ResultOf(heuristic, t) == CompletedResult(heuristic, o)
  {
  }

  /** Judge one job. Reports which of its two writes reached the table and how many cases were run. */
  method RunJob(db: Database, job: Job, w: World) returns (started: bool, finished: bool, casesRun: nat)
    requires Fits(job, w)
    modifies db
    ensures db.rows == Attempt(Attempt(old(db.rows), job.id, StatusOnly(Running), started), job.id, Outcome(job, w), finished)
    ensures casesRun == CasesRun(w)
  {
    casesRun := 0;
    started := db.Execute(job.id, StatusOnly(Running));

    if w.tempDirError.Some? {
      finished := db.Execute(job.id, StatusOnly(InternalError(w.tempDirError.value)));
      return;
    }
    if w.compilation.CompilerError? {
      finished := db.Execute(job.id, StatusOnly(InternalError(w.compilation.message)));
      return;
    }
    if w.compilation.Rejected? {
      var message := w.compilation.message;
      finished := db.Execute(job.id, FullResult(CompileError(message), None, None, None, Some(message), None, None));
      return;
    }

    finished, casesRun := JudgeCompiled(db, job, w);
  }

  lemma OutcomeOfCompiled(job: Job, w: World)
    requires Fits(job, w) && w.tempDirError.None? && w.compilation.Compiled?
    ensures Outcome(job, w) ==
      if FirstCrash(w) < |w.runs| then StatusOnly(InternalError(w.runs[FirstCrash(w)].message))
      else CompletedResult(job.heuristic, Outcomes(job, w, w.compilation.warnings))
    ensures CasesRun(w) == MinInt(FirstCrash(w) + 1, |w.runs|)
  {
  }

  /** Judge a job whose program is ready to run. */
  method JudgeCompiled(db: Database, job: Job, w: World) returns (finished: bool, casesRun: nat)
    requires Fits(job, w) && w.tempDirError.None? && w.compilation.Compiled?
    modifies db
    ensures db.rows == Attempt(old(db.rows), job.id, Outcome(job, w), finished)
    ensures casesRun == CasesRun(w)
  {
    var crash, t;
    crash, t, casesRun := RunCases(job, w, w.compilation.warnings);
    OutcomeOfCompiled(job, w);
    if crash.Some? {
      finished := db.Execute(job.id, StatusOnly(InternalError(crash.value)));
      return;
    }
    TallyGivesResult(job.heuristic, Outcomes(job, w, w.compilation.warnings), t);
    assert Outcome(job, w) == ResultOf(job.heuristic, t);
    finished := db.Execute(job.id, ResultOf(job.heuristic, t));
  }
}
