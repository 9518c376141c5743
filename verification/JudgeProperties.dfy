/** What the result of judging means, and that the stored list tells the same story. */
module JudgeProperties {
  import opened Basics
  import opened Decimal
  import opened JudgeTypes
  import opened Judge

  /** Every case could be run. */
  predicate Completes(job: Job, w: World)
    requires Fits(job, w)
  {
    w.tempDirError.None? && w.compilation.Compiled? && FirstCrash(w) == |w.runs|
  }

  predicate CaseOk(job: Job, w: World, i: nat)
    requires Fits(job, w) && i < |w.runs| && w.runs[i].Ran?
  {
    IsSuccess(CaseStatus(job, job.cases[i], w.runs[i]))
  }

  /** Whichever way judging ends, the last write is terminal; results are stored exactly when every
      case could be run, and then every case was. */
  lemma EveryExitIsTerminal(job: Job, w: World)
    requires Fits(job, w)
    ensures IsTerminal(Outcome(job, w).status)
    ensures Completes(job, w) <==> Outcome(job, w).FullResult? && Outcome(job, w).verdicts.Some?
    ensures Completes(job, w) ==> CasesRun(w) == |job.cases|
    ensures IsSuccess(Outcome(job, w).status) ==> Completes(job, w)
  {
    if Completes(job, w) {
      CompletedIsTerminal(job, w);
    }
  }

  lemma CompletedIsTerminal(job: Job, w: World)
    requires Fits(job, w) && Completes(job, w)
    ensures IsTerminal(CompletedResult(job.heuristic, Outcomes(job, w, w.compilation.warnings)).status)
  {
    var o := Outcomes(job, w, w.compilation.warnings);
    var k := FirstFailure(o, |o|);
    if k < |o| {
      CaseStatusIsTerminal(job, job.cases[k], w.runs[k]);
      assert o[k].status == CaseStatus(job, job.cases[k], w.runs[k]);
    }
  }

  lemma CaseStatusIsTerminal(job: Job, c: Case, run: CaseRun)
    requires run.Ran?
    ensures IsTerminal(CaseStatus(job, c, run))
  {
  }

  /** Which case decides: none if all succeed, else the first that failed. */
  lemma DecidingCase(job: Job, w: World) returns (o: seq<CaseOutcome>, k: nat)
    requires Fits(job, w) && Completes(job, w)
    ensures o == Outcomes(job, w, w.compilation.warnings) && Outcome(job, w) == CompletedResult(job.heuristic, o)
    ensures |o| == |w.runs| && k == FirstFailure(o, |o|)
    ensures forall i :: 0 <= i < k ==> CaseOk(job, w, i)
    ensures k < |o| ==> !CaseOk(job, w, k) && o[k].status == CaseStatus(job, job.cases[k], w.runs[k])
  {
    o := Outcomes(job, w, w.compilation.warnings);
    k := FirstFailure(o, |o|);
    OutcomeIsCompleted(job, w);
    forall i | 0 <= i < |o| ensures IsSuccess(o[i].status) == CaseOk(job, w, i) {
      StatusOfCase(job, w, i);
    }
    if k < |o| {
      StatusOfCase(job, w, k);
    }
  }

  lemma OutcomeIsCompleted(job: Job, w: World)
    requires Fits(job, w) && Completes(job, w)
    ensures Outcome(job, w) == CompletedResult(job.heuristic, Outcomes(job, w, w.compilation.warnings))
  {
  }

  lemma StatusOfCase(job: Job, w: World, i: nat)
    requires Fits(job, w) && Completes(job, w) && i < |w.runs|
    ensures Outcomes(job, w, w.compilation.warnings)[i].status == CaseStatus(job, job.cases[i], w.runs[i])
  {
  }

  /** A completed job succeeds exactly when all its cases do, and then shows no output. */
  lemma SuccessIff(job: Job, w: World)
    requires Fits(job, w) && Completes(job, w)
    ensures IsSuccess(Outcome(job, w).status) <==> forall i :: 0 <= i < |w.runs| ==> CaseOk(job, w, i)
    ensures var r := Outcome(job, w);
            IsSuccess(r.status) ==> r.status == (if job.heuristic then Scored else Accepted) && r.stdout == r.stderr == Some("")
  {
    var o, k := DecidingCase(job, w);
  }

  /** The status, output and error text of a failed job are those of the first case that failed. */
  lemma FirstFailureDecides(job: Job, w: World)
    requires Fits(job, w) && Completes(job, w)
    ensures !IsSuccess(Outcome(job, w).status) ==> exists k ::
              0 <= k < |w.runs| && !CaseOk(job, w, k) && (forall i :: 0 <= i < k ==> CaseOk(job, w, i))
              && Outcome(job, w).status == CaseStatus(job, job.cases[k], w.runs[k])
              && Outcome(job, w).stdout == Some(w.runs[k].result.stdout)
              && Outcome(job, w).stderr == Some(ShownStderr(w.compilation.warnings, w.runs[k].result.stderr))
  {
    var o, k := DecidingCase(job, w);
    assert k < |o| ==> !CaseOk(job, w, k);
  }

  /** The score the scorer gave a run, if it came to that. */
  function ScorerValue(heuristic: bool, run: CaseRun): Option<Float> {
    match run
    case Ran(r, Score(value)) => if heuristic && r.status == Ok then Some(value) else None
    case _ => None
  }

  /** The stored list has one entry per case, in order: its verdict, its time in milliseconds, its
      memory in kilobytes, and what the scorer said of it. */
  lemma StoredVerdicts(job: Job, w: World)
    requires Fits(job, w) && Completes(job, w)
    ensures var v := Outcome(job, w).verdicts.value;
            |v| == |w.runs| && forall i :: 0 <= i < |v| ==>
              var r := w.runs[i].result;
              && v[i].verdict == VerdictText(CaseStatus(job, job.cases[i], w.runs[i]))
              && v[i].timeMs == Some(r.wallNanos / 1_000_000) && v[i].memoryKb == Some(r.memoryBytes / 1024)
              && v[i].score == ScorerValue(job.heuristic, w.runs[i])
    ensures Outcome(job, w).score.Some? <==> job.heuristic
  {
    OutcomeIsCompleted(job, w);
    forall i | 0 <= i < |w.runs|
      ensures Tells(Outcomes(job, w, w.compilation.warnings)[i].Verdict(), job, job.cases[i], w.runs[i])
    {
      OutcomeTells(job, w, i);
    }
  }

  /** The entry tells what became of the run. */
  ghost predicate Tells(v: TestcaseVerdict, job: Job, c: Case, run: CaseRun) {
    && run.Ran?
    && v.verdict == VerdictText(CaseStatus(job, c, run))
    && v.timeMs == Some(run.result.wallNanos / 1_000_000) && v.memoryKb == Some(run.result.memoryBytes / 1024)
    && v.score == ScorerValue(job.heuristic, run)
  }

  lemma OutcomeTells(job: Job, w: World, i: nat)
    requires Fits(job, w) && Completes(job, w) && i < |w.runs|
    ensures Tells(Outcomes(job, w, w.compilation.warnings)[i].Verdict(), job, job.cases[i], w.runs[i])
  {
    OutcomeAt(job, w, w.compilation.warnings, i);
  }

  /** The scorer's values for the first `n` runs, added up in order. */
  function ScorerTotal(w: World, n: nat): Float
    requires n <= |w.runs|
  {
    if n == 0 then Finite(0.0)
    else match ScorerValue(true, w.runs[n - 1])
      case None => ScorerTotal(w, n - 1)
      case Some(value) => ScorerTotal(w, n - 1).Plus(value)
  }

  /** The stored score of a heuristic job is the sum of what the scorer said. */
  lemma ScoreIsScorerTotal(job: Job, w: World)
    requires Fits(job, w) && Completes(job, w) && job.heuristic
    ensures Outcome(job, w).score == Some(ScorerTotal(w, |w.runs|))
  {
    OutcomeIsCompleted(job, w);
    TotalFromRuns(job, w, |w.runs|);
  }

  lemma {:induction false} TotalFromRuns(job: Job, w: World, n: nat)
    requires Fits(job, w) && Completes(job, w) && job.heuristic && n <= |w.runs|
    ensures TotalScore(Outcomes(job, w, w.compilation.warnings), n) == ScorerTotal(w, n)
  {
    if n > 0 {
      TotalFromRuns(job, w, n - 1);
      assert Outcomes(job, w, w.compilation.warnings)[n - 1].score == ScorerValue(true, w.runs[n - 1]);
    }
  }

  /** The exits before and within the test cases: what is stored, in the words of the table. */
  lemma EarlyExits(job: Job, w: World, rows: map<nat, Columns>)
    requires Fits(job, w) && !Completes(job, w) && job.id in rows
    ensures var (before, after) := (rows[job.id], Updated(rows, job.id, Outcome(job, w))[job.id]);
            if w.tempDirError.None? && w.compilation.Rejected? then
              after == Columns("compile_error", None, None, None, Some(w.compilation.message), None, None)
            else after == before.(status := "internal_error")
  {
    EarlyWrite(job, w);
    if w.tempDirError.None? && w.compilation.Rejected? {
      RejectedRow(rows, job.id, w.compilation.message);
    } else {
      FailedRow(rows, job.id, Outcome(job, w));
    }
  }

  lemma RejectedRow(rows: map<nat, Columns>, id: nat, m: string)
    requires id in rows
    ensures Updated(rows, id, FullResult(CompileError(m), None, None, None, Some(m), None, None))[id] ==
            Columns("compile_error", None, None, None, Some(m), None, None)
  {
  }

  lemma FailedRow(rows: map<nat, Columns>, id: nat, w: Write)
    requires id in rows && w.StatusOnly? && w.status.InternalError?
    ensures Updated(rows, id, w)[id] == rows[id].(status := "internal_error")
  {
  }

  lemma EarlyWrite(job: Job, w: World)
    requires Fits(job, w) && !Completes(job, w)
    ensures if w.tempDirError.None? && w.compilation.Rejected? then
              var m := w.compilation.message;
              Outcome(job, w) == FullResult(CompileError(m), None, None, None, Some(m), None, None)
            else Outcome(job, w).StatusOnly? && Outcome(job, w).status.InternalError?
  {
  }

  /** Stored time and memory are the largest of any case, absent when all are zero. */
  lemma StoredMaxima(job: Job, w: World)
    requires Fits(job, w) && Completes(job, w)
    ensures IsMaximum(Outcome(job, w).timeMs, Times(w))
    ensures IsMaximum(Outcome(job, w).memoryKb, Memories(w))
  {
    var o := Outcomes(job, w, w.compilation.warnings);
    assert Outcome(job, w) == CompletedResult(job.heuristic, o);
    TimesOfOutcomes(job, w);
    LargestTime(o, Times(w));
    LargestMemory(o, Memories(w));
  }

  lemma TimesOfOutcomes(job: Job, w: World)
    requires Fits(job, w) && Completes(job, w)
    ensures var o := Outcomes(job, w, w.compilation.warnings);
            forall i :: 0 <= i < |o| ==> o[i].timeMs == Times(w)[i] && o[i].memoryKb == Memories(w)[i]
  {
  }

  lemma LargestTime(o: seq<CaseOutcome>, ts: seq<nat>)
    requires |ts| == |o| && forall i :: 0 <= i < |o| ==> o[i].timeMs == ts[i]
    ensures IsMaximum(SomeIfPositive(MaxTime(o, |o|)), ts)
  {
  }

  lemma LargestMemory(o: seq<CaseOutcome>, ms: seq<nat>)
    requires |ms| == |o| && forall i :: 0 <= i < |o| ==> o[i].memoryKb == ms[i]
    ensures IsMaximum(SomeIfPositive(MaxMemory(o, |o|)), ms)
  {
  }

  function Times(w: World): seq<nat>
    requires FirstCrash(w) == |w.runs|
  {
    seq(|w.runs|, i requires 0 <= i < |w.runs| => TimeMs(w.runs[i].result))
  }

  function Memories(w: World): seq<nat>
    requires FirstCrash(w) == |w.runs|
  {
    seq(|w.runs|, i requires 0 <= i < |w.runs| => MemoryKb(w.runs[i].result))
  }

  ghost predicate IsMaximum(m: Option<nat>, s: seq<nat>) {
    match m
    case None => forall i :: 0 <= i < |s| ==> s[i] == 0
    case Some(x) => x > 0 && x in s && forall i :: 0 <= i < |s| ==> s[i] <= x
  }

  /** The scores in a stored list, added up. */
  function SumOfScores(v: seq<TestcaseVerdict>): Float {
    if v == [] then Finite(0.0)
    else
      var (sum, last) := (SumOfScores(v[..|v| - 1]), v[|v| - 1].score);
      if last.Some? then sum.Plus(last.value) else sum
  }

  /** The stored score of a heuristic job is the sum of the scores in its stored list. */
  lemma ScoreIsSumOfList(job: Job, w: World)
    requires Fits(job, w) && Completes(job, w) && job.heuristic
    ensures Outcome(job, w).score == Some(SumOfScores(Outcome(job, w).verdicts.value))
  {
    var o := Outcomes(job, w, w.compilation.warnings);
    assert Outcome(job, w) == CompletedResult(true, o);
    TotalIsSum(o, |o|);
  }

  lemma {:induction false} TotalIsSum(o: seq<CaseOutcome>, n: nat)
    requires n <= |o|
    ensures TotalScore(o, n) == SumOfScores(Verdicts(o, n))
  {
    if n > 0 {
      TotalIsSum(o, n - 1);
      assert Verdicts(o, n)[..n - 1] == Verdicts(o, n - 1);
    }
  }

  /** The sum of the scores that are numbers, without any bound on its size. */
  function PlainTotal(o: seq<CaseOutcome>, n: nat): real
    requires n <= |o|
  {
    if n == 0 then 0.0
    else PlainTotal(o, n - 1) + if o[n - 1].score.Some? && o[n - 1].score.value.Finite? then o[n - 1].score.value.value else 0.0
  }

  /** Case `i` keeps the running total a number: it has no score, or a number that does not take the
      total out of range. */
  ghost predicate KeepsFinite(o: seq<CaseOutcome>, i: nat)
    requires i < |o|
  {
    o[i].score.Some? ==> o[i].score.value.Finite? && InRange(PlainTotal(o, i + 1))
  }

  /** The stored score is a number exactly when every score a case was given is and no running total
      leaves the range of an `f64`; then it is their sum. */
  lemma {:induction false} ScoreIsFiniteIff(o: seq<CaseOutcome>, n: nat)
    requires n <= |o|
    ensures TotalScore(o, n).Finite? <==> forall i: nat :: i < n ==> KeepsFinite(o, i)
    ensures TotalScore(o, n).Finite? ==> TotalScore(o, n) == Finite(PlainTotal(o, n))
  {
    if n > 0 {
      ScoreIsFiniteIff(o, n - 1);
      assert TotalScore(o, n).Finite? <==> TotalScore(o, n - 1).Finite? && KeepsFinite(o, n - 1);
    }
  }

  /** Two scores that are numbers can add up to one that is not: two to the power of 1023, twice. */
  lemma FiniteScoresCanOverflow(c: CaseOutcome)
    requires c.score == Some(Finite(Pow2(1023) as real))
    ensures TotalScore([c, c], 1).Finite? && TotalScore([c, c], 2) == NonFinite
  {
    OverflowIsNear();
    assert TotalScore([c, c], 1) == Finite(0.0).Plus(Finite(Pow2(1023) as real));
    assert TotalScore([c, c], 2) == TotalScore([c, c], 1).Plus(Finite(Pow2(1023) as real));
  }

  /** The ends themselves are out of range; powers are those of two. */
  lemma RangeEnds()
    ensures !InRange(Overflow()) && !InRange(-Overflow()) && InRange(0.0) && Pow2(10) == 1024
  {
    OverflowIsNear();
  }

  lemma OverflowIsNear()
    ensures Pow2(1023) as real < Overflow() <= 2.0 * Pow2(1023) as real
  {
    DifferenceIsNear(1023, 970);
  }

  lemma DifferenceIsNear(a: nat, b: nat)
    requires b < a
    ensures Pow2(a) as real < PowerDifference(a + 1, b) <= 2.0 * Pow2(a) as real
  {
    DoublePow2(a);
    Pow2Grows(b, a);
  }

  lemma DoublePow2(n: nat)
    ensures Pow2(n + 1) == 2 * Pow2(n)
  {
  }

  lemma {:induction false} Pow2Grows(a: nat, b: nat)
    requires a < b
    ensures Pow2(a) < Pow2(b)
  {
    if a < b - 1 {
      Pow2Grows(a, b - 1);
    }
  }

  // ---- The stored list, as JSON ---------------------------------------------------------------------

  datatype Json =
    | Null
    | Whole(int)
    | Fraction(real)
    | Text(text: string)
    | Array(items: seq<Json>)
    | Object(fields: map<string, Json>)

  function EncodeNat(n: Option<nat>): Json {
    if n.None? then Null else Whole(n.value)
  }

  /** JSON has no way to write a number that is not finite; it becomes null. */
  function EncodeVerdict(v: TestcaseVerdict): Json {
    var base := map["verdict" := Text(v.verdict), "time_ms" := EncodeNat(v.timeMs), "memory_kb" := EncodeNat(v.memoryKb)];
    match v.score
    case None => Object(base)
    case Some(NonFinite) => Object(base["score" := Null])
    case Some(Finite(x)) => Object(base["score" := Fraction(x)])
  }

  function Encode(vs: seq<TestcaseVerdict>): Json {
    Array(seq(|vs|, i requires 0 <= i < |vs| => EncodeVerdict(vs[i])))
  }

  function Field(o: Json, name: string): Json
    requires o.Object?
  {
    if name in o.fields then o.fields[name] else Null
  }

  /** A missing or null number is absent; anything but a natural number is an error. */
  function DecodeNat(j: Json): Option<Option<nat>> {
    match j
    case Null => Some(None)
    case Whole(n) => if n >= 0 then Some(Some(n)) else None
    case _ => None
  }

  /** Reading a printed fraction may miss the number by the last bit; `parse` says what comes back. */
  function DecodeFloat(j: Json, parse: real -> real): Option<Option<Float>> {
    match j
    case Null => Some(None)
    case Whole(n) => Some(Some(Finite(n as real)))
    case Fraction(x) => Some(Some(Finite(parse(x))))
    case _ => None
  }

  function DecodeVerdict(j: Json, parse: real -> real): Option<TestcaseVerdict> {
    if !j.Object? || !Field(j, "verdict").Text? then None
    else
      var (t, m, s) := (DecodeNat(Field(j, "time_ms")), DecodeNat(Field(j, "memory_kb")), DecodeFloat(Field(j, "score"), parse));
      if t.None? || m.None? || s.None? then None
      else Some(TestcaseVerdict(Field(j, "verdict").text, t.value, m.value, s.value))
  }

  /** Which values decode: an object with a text for the verdict, and for the others nothing, null or a
      number of the right kind. */
  lemma DecodesIff(j: Json, parse: real -> real)
    ensures DecodeVerdict(j, parse).Some? <==>
      && j.Object? && "verdict" in j.fields && j.fields["verdict"].Text?
      && ("time_ms" in j.fields ==> IsNullOrNat(j.fields["time_ms"]))
      && ("memory_kb" in j.fields ==> IsNullOrNat(j.fields["memory_kb"]))
      && ("score" in j.fields ==> j.fields["score"].Null? || j.fields["score"].Whole? || j.fields["score"].Fraction?)
  {
  }

  predicate IsNullOrNat(j: Json) {
    match j
    case Null => true
    case Whole(n) => 0 <= n
    case _ => false
  }

  /** Decode every item, or fail. */
  function DecodeAll<T>(items: seq<Json>, decode: Json -> Option<T>): (r: Option<seq<T>>)
    ensures r.Some? <==> forall i :: 0 <= i < |items| ==> decode(items[i]).Some?
    ensures r.Some? ==> |r.value| == |items| && forall i :: 0 <= i < |items| ==> decode(items[i]) == Some(r.value[i])
  {
    if items == [] then Some([])
    else
      var first, rest := decode(items[0]), DecodeAll(items[1..], decode);
      assert forall i :: 0 < i < |items| ==> items[i] == items[1..][i - 1];
      if first.None? || rest.None? then None else Some([first.value] + rest.value)
  }

  function DecodeVerdicts(items: seq<Json>, parse: real -> real): (r: Option<seq<TestcaseVerdict>>)
    ensures r.Some? <==> forall i :: 0 <= i < |items| ==> DecodeVerdict(items[i], parse).Some?
    ensures r.Some? ==> |r.value| == |items| && forall i :: 0 <= i < |items| ==> DecodeVerdict(items[i], parse) == Some(r.value[i])
  {
    DecodeAll(items, (j: Json) => DecodeVerdict(j, parse))
  }

  function DecodeText(j: Json): Option<string> {
    if j.Text? then Some(j.text) else None
  }

  function Upgrade(text: string): TestcaseVerdict {
    TestcaseVerdict(text, None, None, None)
  }

  /** `into_submission`: the current format, else the legacy list of strings. */
  function DecodeStored(j: Json, parse: real -> real): Option<seq<TestcaseVerdict>> {
    if !j.Array? then None
    else
      var current := DecodeVerdicts(j.items, parse);
      if current.Some? then current
      else
        var legacy := DecodeAll(j.items, DecodeText);
        if legacy.None? then None
        else Some(seq(|legacy.value|, i requires 0 <= i < |legacy.value| => Upgrade(legacy.value[i])))
  }

  predicate CountsAsPassed(verdict: string) {
    verdict == "AC" || verdict == "SCORED"
  }

  function Passed(texts: seq<string>): (n: nat)
    ensures n <= |texts|
    ensures n == |texts| <==> forall i :: 0 <= i < |texts| ==> CountsAsPassed(texts[i])
  {
    if texts == [] then 0
    else
      assert forall i :: 0 < i < |texts| ==> texts[i] == texts[1..][i - 1];
      Passed(texts[1..]) + if CountsAsPassed(texts[0]) then 1 else 0
  }

  /** Counting in two parts. */
  lemma {:induction false} PassedAppend(a: seq<string>, b: seq<string>)
    ensures Passed(a + b) == Passed(a) + Passed(b)
  {
    if a == [] {
      assert a + b == b;
    } else {
      assert (a + b)[1..] == a[1..] + b;
      PassedAppend(a[1..], b);
    }
  }

  /** The positions of the texts that count. */
  function PassedAt(texts: seq<string>, n: nat): set<nat>
    requires n <= |texts|
  {
    set i: nat | i < n && (texts[i] == "AC" || texts[i] == "SCORED")
  }

  lemma {:induction false} PassedUpTo(texts: seq<string>, n: nat)
    requires n <= |texts|
    ensures Passed(texts[..n]) == |PassedAt(texts, n)|
  {
    if n == 0 {
      assert PassedAt(texts, 0) == {};
    } else {
      PassedUpTo(texts, n - 1);
      assert texts[..n] == texts[..n - 1] + [texts[n - 1]];
      PassedAppend(texts[..n - 1], [texts[n - 1]]);
      PassedAtGrows(texts, n - 1);
    }
  }

  lemma PassedAtGrows(texts: seq<string>, n: nat)
    requires n < |texts|
    ensures |PassedAt(texts, n + 1)| == |PassedAt(texts, n)| + Passed([texts[n]])
  {
    if texts[n] == "AC" || texts[n] == "SCORED" {
      assert PassedAt(texts, n + 1) == PassedAt(texts, n) + {n};
    } else {
      assert PassedAt(texts, n + 1) == PassedAt(texts, n);
    }
  }

  /** What is counted is how many of the texts are `AC` or `SCORED`, wherever they stand. */
  lemma PassedCounts(texts: seq<string>)
    ensures Passed(texts) == |PassedAt(texts, |texts|)|
  {
    PassedUpTo(texts, |texts|);
    assert texts[..|texts|] == texts;
  }

  /** The verdict texts the list page counts. */
  function ListedVerdicts(j: Json, parse: real -> real): Option<seq<string>> {
    if !j.Array? then None
    else
      var current := DecodeVerdicts(j.items, parse);
      if current.Some? then Some(Texts(current.value)) else DecodeAll(j.items, DecodeText)
  }

  function Texts(vs: seq<TestcaseVerdict>): (r: seq<string>)
    ensures |r| == |vs|
  {
    seq(|vs|, i requires 0 <= i < |vs| => vs[i].verdict)
  }

  /** `k/n`: passed cases out of all cases. */
  function Summary(j: Json, parse: real -> real): Option<string> {
    var listed := ListedVerdicts(j, parse);
    if listed.None? then None else Some(Dec(Passed(listed.value)) + "/" + Dec(|listed.value|))
  }

  /** The verdict has no score, or one that is a number and that reading gives back. */
  predicate ReadsBack(v: TestcaseVerdict, parse: real -> real) {
    v.score.Some? ==> v.score.value.Finite? && parse(v.score.value.value) == v.score.value.value
  }

  /** One case survives storage exactly when its score does; its verdict always does. */
  lemma VerdictRoundTrip(v: TestcaseVerdict, parse: real -> real)
    ensures DecodeVerdict(EncodeVerdict(v), parse).Some? && DecodeVerdict(EncodeVerdict(v), parse).value.verdict == v.verdict
    ensures DecodeVerdict(EncodeVerdict(v), parse) == Some(v) <==> ReadsBack(v, parse)
    ensures EncodeVerdict(v).Object? && ("score" in EncodeVerdict(v).fields <==> v.score.Some?)
  {
    var j := EncodeVerdict(v);
    assert Field(j, "verdict") == Text(v.verdict);
    assert Field(j, "time_ms") == EncodeNat(v.timeMs) && Field(j, "memory_kb") == EncodeNat(v.memoryKb);
  }

  /** A stored list reads back unchanged exactly when every score in it does. */
  lemma StoredListRoundTripIff(vs: seq<TestcaseVerdict>, parse: real -> real)
    ensures DecodeStored(Encode(vs), parse) == Some(vs) <==> forall i :: 0 <= i < |vs| ==> ReadsBack(vs[i], parse)
    ensures ListedVerdicts(Encode(vs), parse) == Some(Texts(vs))
  {
    var items := Encode(vs).items;
    forall i | 0 <= i < |vs|
      ensures DecodeVerdict(items[i], parse).Some? && DecodeVerdict(items[i], parse).value.verdict == vs[i].verdict
      ensures DecodeVerdict(items[i], parse) == Some(vs[i]) <==> ReadsBack(vs[i], parse)
    {
      VerdictRoundTrip(vs[i], parse);
    }
    var d := DecodeVerdicts(items, parse);
    assert d.Some?;
    if d == Some(vs) {
      forall i | 0 <= i < |vs| ensures ReadsBack(vs[i], parse) {
        assert DecodeVerdict(items[i], parse) == Some(d.value[i]);
      }
    }
    if forall i :: 0 <= i < |vs| ==> ReadsBack(vs[i], parse) {
      assert d.value == vs;
    }
    assert Texts(d.value) == Texts(vs);
  }

  function Legacy(texts: seq<string>): Json {
    Array(seq(|texts|, i requires 0 <= i < |texts| => Text(texts[i])))
  }

  /** A legacy list of strings gives the summary its upgraded form would. */
  lemma LegacySummary(texts: seq<string>, parse: real -> real)
    ensures var upgraded := seq(|texts|, i requires 0 <= i < |texts| => TestcaseVerdict(texts[i], None, None, None));
            Summary(Legacy(texts), parse) == Summary(Encode(upgraded), parse) && DecodeStored(Legacy(texts), parse) == Some(upgraded)
  {
    var upgraded := seq(|texts|, i requires 0 <= i < |texts| => TestcaseVerdict(texts[i], None, None, None));
    StoredListRoundTripIff(upgraded, parse);
    assert Texts(upgraded) == texts;
    LegacyDecodes(texts, parse);
    if texts == [] {
      assert upgraded == [];
    } else {
      assert DecodeStored(Legacy(texts), parse).value == upgraded;
    }
  }

  lemma LegacyDecodes(texts: seq<string>, parse: real -> real)
    ensures DecodeAll(Legacy(texts).items, DecodeText) == Some(texts)
    ensures texts != [] ==> DecodeVerdicts(Legacy(texts).items, parse).None?
  {
    var items := Legacy(texts).items;
    assert forall i :: 0 <= i < |texts| ==> DecodeText(items[i]) == Some(texts[i]);
    assert DecodeAll(items, DecodeText).value == texts;
    if texts != [] {
      assert DecodeVerdict(items[0], parse).None?;
    }
  }

  /** The detail page and the list page read a stored value the same way. */
  lemma PagesAgree(j: Json, parse: real -> real)
    ensures ListedVerdicts(j, parse) == if DecodeStored(j, parse).None? then None else Some(Texts(DecodeStored(j, parse).value))
  {
    if j.Array? && DecodeVerdicts(j.items, parse).None? && DecodeAll(j.items, DecodeText).Some? {
      var texts := DecodeAll(j.items, DecodeText).value;
      assert Texts(DecodeStored(j, parse).value) == texts;
    }
  }

  lemma PassedVerdicts(job: Job, w: World, i: nat)
    requires Fits(job, w) && Completes(job, w) && i < |w.runs|
    ensures CountsAsPassed(Outcome(job, w).verdicts.value[i].verdict) <==> CaseOk(job, w, i)
  {
    StoredVerdicts(job, w);
    PassedTexts(CaseStatus(job, job.cases[i], w.runs[i]));
  }

  /** The cases that succeeded. */
  ghost function CasesOk(job: Job, w: World): set<nat>
    requires Fits(job, w) && Completes(job, w)
  {
    set i: nat | i < |w.runs| && CaseOk(job, w, i)
  }

  /** As many verdicts are listed for a stored result as there are cases, and as many of them count as
      passed as cases succeeded. */
  lemma ListedAgree(job: Job, w: World, parse: real -> real)
    requires Fits(job, w) && Completes(job, w)
    ensures var listed := ListedVerdicts(Encode(Outcome(job, w).verdicts.value), parse);
            listed.Some? && |listed.value| == |job.cases| && Passed(listed.value) == |CasesOk(job, w)|
  {
    var v := Outcome(job, w).verdicts.value;
    StoredListRoundTripIff(v, parse);
    assert |v| == |w.runs| by {
      StoredVerdicts(job, w);
    }
    forall i: nat | i < |v| ensures CountsAsPassed(Texts(v)[i]) <==> i in CasesOk(job, w) {
      PassedVerdicts(job, w, i);
    }
    PassedIsSize(Texts(v), CasesOk(job, w));
  }

  lemma PassedIsSize(texts: seq<string>, ok: set<nat>)
    requires forall i :: i in ok ==> i < |texts|
    requires forall i: nat :: i < |texts| ==> (CountsAsPassed(texts[i]) <==> i in ok)
    ensures Passed(texts) == |ok|
  {
    PassedCounts(texts);
    assert PassedAt(texts, |texts|) == ok;
  }

  lemma AllOkIff(job: Job, w: World)
    requires Fits(job, w) && Completes(job, w)
    ensures |CasesOk(job, w)| == |w.runs| <==> IsSuccess(Outcome(job, w).status)
  {
    SuccessIff(job, w);
    AllOkMeans(job, w, IsSuccess(Outcome(job, w).status));
  }

  lemma AllOkMeans(job: Job, w: World, success: bool)
    requires Fits(job, w) && Completes(job, w)
    requires success <==> forall i :: 0 <= i < |w.runs| ==> CaseOk(job, w, i)
    ensures |CasesOk(job, w)| == |w.runs| <==> success
  {
    IsFullIff(CasesOk(job, w), |w.runs|);
    assert forall i: nat :: i < |w.runs| ==> (i in CasesOk(job, w) <==> CaseOk(job, w, i));
  }

  lemma IsFullIff(ok: set<nat>, n: nat)
    requires forall i :: i in ok ==> i < n
    ensures |ok| == n <==> forall i: nat :: i < n ==> i in ok
  {
    assert ok <= Below(n) && Below(n) == ok + (Below(n) - ok);
    assert |Below(n)| == |ok| + |Below(n) - ok|;
  }

  lemma SummaryTexts(k: nat, n: nat)
    ensures Dec(k) + "/" + Dec(n) == Dec(n) + "/" + Dec(n) <==> k == n
  {
    var (x, y) := (Dec(k) + "/" + Dec(n), Dec(n) + "/" + Dec(n));
    if x == y {
      assert |Dec(k)| == |Dec(n)| && Dec(k) == x[..|Dec(k)|] && Dec(n) == y[..|Dec(n)|];
      DecInjective(k, n);
    }
  }

  /** The summary of a stored result is the number of cases that succeeded out of all cases, and shows
      the two alike exactly when the stored status is accepted or scored. */
  lemma SummaryAgreesWithStatus(job: Job, w: World, parse: real -> real)
    requires Fits(job, w) && Completes(job, w)
    ensures var r := Outcome(job, w);
            var (summary, k, n) := (Summary(Encode(r.verdicts.value), parse), Dec(|CasesOk(job, w)|), Dec(|job.cases|));
            summary == Some(k + "/" + n) && (summary == Some(n + "/" + n) <==> IsSuccess(FromDb(ToDb(r.status))))
  {
    ListedAgree(job, w, parse);
    AllOkIff(job, w);
    SummaryTexts(|CasesOk(job, w)|, |job.cases|);
    StatusRoundTrip(Outcome(job, w).status, Accepted);
  }

  lemma PassedTexts(s: JudgeStatus)
    ensures CountsAsPassed(VerdictText(s)) <==> IsSuccess(s)
  {
    assert VerdictText(s)[0] == 'A' || VerdictText(s)[0] == 'S' <==> IsSuccess(s);
  }
}
