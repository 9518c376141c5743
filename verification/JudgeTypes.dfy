/** Statuses of a submission and the text they are stored as. */
module JudgeTypes {
  import opened Basics

  datatype JudgeStatus =
    | Pending
    | Running
    | Accepted
    | WrongAnswer
    | TimeLimitExceeded
    | MemoryLimitExceeded
    | RuntimeError(exitCode: int)
    | CompileError(message: string)
    | InternalError(message: string)
    | Scored

  function Pow2(n: nat): (p: nat)
    ensures p > 0
  {
    if n == 0 then 1 else 2 * Pow2(n - 1)
  }

  /** A result of this size or more rounds to infinity; the largest `f64` is just below. */
  function Overflow(): real {
    PowerDifference(1024, 970)
  }

  function PowerDifference(a: nat, b: nat): real {
    Pow2(a) as real - Pow2(b) as real
  }

  predicate InRange(x: real) {
    -Overflow() < x < Overflow()
  }

  /** An `f64`: a number, or one of the values arithmetic and JSON treat specially. */
  datatype Float = Finite(value: real) | NonFinite {
    function Plus(other: Float): Float {
      if Finite? && other.Finite? && InRange(value + other.value) then Finite(value + other.value) else NonFinite
    }
  }

  datatype TestcaseVerdict = TestcaseVerdict(verdict: string, timeMs: Option<nat>, memoryKb: Option<nat>, score: Option<Float>)

  predicate IsSuccess(s: JudgeStatus) {
    s.Accepted? || s.Scored?
  }

  predicate IsTerminal(s: JudgeStatus) {
    !s.Pending? && !s.Running?
  }

  function ToDb(s: JudgeStatus): string {
    match s
    case Pending => "pending"
    case Running => "running"
    case Accepted => "accepted"
    case WrongAnswer => "wrong_answer"
    case TimeLimitExceeded => "time_limit_exceeded"
    case MemoryLimitExceeded => "memory_limit_exceeded"
    case RuntimeError(_) => "runtime_error"
    case CompileError(_) => "compile_error"
    case InternalError(_) => "internal_error"
    case Scored => "scored"
  }

  /** The words in the status column before judging, and those the standings queries look for. */
  lemma StatusWords(s: JudgeStatus)
    ensures ToDb(s) == "pending" <==> s == Pending
    ensures ToDb(s) == "running" <==> s == Running
    ensures ToDb(s) == "accepted" <==> s == Accepted
    ensures ToDb(s) == "scored" <==> s == Scored
  {
    ReadsBack(s);
  }

  function FromDb(s: string): JudgeStatus {
    if s == "running" then Running
    else if s == "accepted" then Accepted
    else if s == "wrong_answer" then WrongAnswer
    else if s == "time_limit_exceeded" then TimeLimitExceeded
    else if s == "memory_limit_exceeded" then MemoryLimitExceeded
    else if s == "runtime_error" then RuntimeError(-1)
    else if s == "compile_error" then CompileError("")
    else if s == "internal_error" then InternalError("")
    else if s == "scored" then Scored
    else Pending
  }

  /** A status without the detail the database does not keep. */
  function Erased(s: JudgeStatus): JudgeStatus {
    match s
    case RuntimeError(_) => RuntimeError(-1)
    case CompileError(_) => CompileError("")
    case InternalError(_) => InternalError("")
    case _ => s
  }

  /** Reading a stored status gives it back up to its detail, so the text identifies the kind. */
  lemma StatusRoundTrip(s: JudgeStatus, t: JudgeStatus)
    ensures FromDb(ToDb(s)) == Erased(s)
    ensures ToDb(s) == ToDb(t) <==> Erased(s) == Erased(t)
    ensures IsSuccess(FromDb(ToDb(s))) == IsSuccess(s) && IsTerminal(FromDb(ToDb(s))) == IsTerminal(s)
  {
    ReadsBack(s);
    ReadsBack(t);
    DetailIsNotStored(s);
    DetailIsNotStored(t);
  }

  lemma ReadsBack(s: JudgeStatus)
    ensures FromDb(ToDb(s)) == Erased(s)
  {
  }

  lemma DetailIsNotStored(s: JudgeStatus)
    ensures ToDb(Erased(s)) == ToDb(s)
    ensures IsSuccess(Erased(s)) == IsSuccess(s) && IsTerminal(Erased(s)) == IsTerminal(s)
  {
  }
}
