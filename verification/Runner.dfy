/** The parent of a sandboxed process: waiting for it against a deadline, and the verdict. */
module Runner {
  import opened Basics
  import opened Judge

  /** Durations and instants are nanoseconds. */
  const MILLI: nat := 1_000_000

  const SIGKILL: int := 9
  const SIGXCPU: int := 24

  datatype WaitStatus = Exited(code: int) | Signaled(signal: int) | StillAlive

  /** `parse_wait_status`: what the raw status word of `wait4` says. */
  function ParseWaitStatus(raw: int): WaitStatus {
    var low := raw % 128;
    if low == 0 then Exited(raw / 256 % 256)
    else if 1 <= low <= 126 then Signaled(if low <= 31 then low else SIGKILL)
    else StillAlive
  }

  /** The status words the kernel forms: exit code in the second byte, or the signal with a core bit. */
  lemma StatusWords(code: nat, signal: nat, core: bool, upper: int)
    requires code < 256 && 1 <= signal <= 126
    ensures ParseWaitStatus(256 * code + 65_536 * upper) == Exited(code)
    ensures ParseWaitStatus(signal + if core then 128 else 0) == Signaled(if signal <= 31 then signal else 9)
    ensures ParseWaitStatus(127 + 256 * code) == StillAlive
  {
    ExitWord(code, upper);
  }

  lemma ExitWord(code: nat, upper: int)
    requires code < 256
    ensures ParseWaitStatus(256 * code + 65_536 * upper) == Exited(code)
  {
    var high := code + 256 * upper;
    assert 256 * code + 65_536 * upper == 256 * high;
    WholeBytes(high);
    assert high % 256 == code;
  }

  lemma WholeBytes(high: int)
    ensures (256 * high) % 128 == 0 && (256 * high) / 256 == high
  {
    assert 256 * high == 128 * (2 * high);
  }

  /** `determine_status`: the exit code to report and the verdict. */
  function DetermineStatus(killed: bool, used: nat, limit: nat, final: Option<WaitStatus>): (Option<int>, RunStatus) {
    if killed || used > limit + 50 * MILLI then (None, TimedOut)
    else match final
      case Some(Exited(code)) => if code == 0 then (Some(code), Ok) else (Some(code), Failed)
      case Some(Signaled(signal)) => if signal == SIGXCPU then (None, TimedOut) else (None, RunStatus.Killed)
      case _ => (None, Failed)
  }

  // ---- The kernel, as far as the parent sees it -------------------------------------------------------

  datatype Child = Alive | Zombie(raw: int) | Reaped(status: int)

  datatype WaitResult = Got(raw: int) | NotYet | Error

  /** A clock and one child. Both move on between any two calls, as they like, except that the clock
      never goes back and a child exits at most once. `own` is the status word the child left by
      itself, `failed` says whether some `wait4` has failed, and `slept` is how long the parent has
      asked to sleep. */
  class Kernel {
    var now: nat
    var child: Child
    ghost var own: Option<int>
    ghost var failed: bool
    ghost var slept: nat

    /** A child that is gone left its status by itself, or was killed. */
    ghost predicate Valid()
      reads this
    {
      match child
      case Alive => own == None
      case Zombie(raw) => raw == if own.Some? then own.value else SIGKILL
      case Reaped(raw) => raw == if own.Some? then own.value else SIGKILL
    }

    /** Nobody has waited for the child or killed it. */
    ghost predicate Untouched()
      reads this
    {
      !child.Reaped? && (own.None? ==> child.Alive?)
    }

    twostate predicate Later()
      reads this
    {
      && old(now) <= now && failed == old(failed)
      && (!old(child).Alive? ==> child == old(child) && own == old(own))
      && (old(child).Alive? ==> !child.Reaped? && (child.Zombie? ==> own.Some?))
    }

    method PassTime(atLeast: nat)
      requires Valid()
      modifies this
      ensures Valid() && Later() && now >= old(now) + atLeast && slept == old(slept) + atLeast
    {
      var elapsed: nat :| elapsed >= atLeast;
      now := now + elapsed;
      slept := slept + atLeast;
      var exits: bool := *;
      if exits && child.Alive? {
        var raw: int := *;
        child := Zombie(raw);
        own := Some(raw);
      }
    }

    /** `wait4` without blocking; it can fail for reasons of its own. */
    method TryWait() returns (r: WaitResult)
      requires Valid()
      modifies this
      ensures Valid() && old(now) <= now && (old(own).Some? ==> own == old(own))
      ensures r.Got? ==> !old(child).Reaped? && child == Reaped(r.raw) && own.Some? == (old(own).Some? || old(child).Alive?)
      ensures !r.Got? ==> (child.Reaped? <==> old(child).Reaped?)
      ensures r.NotYet? ==> child.Alive?
      ensures failed == (old(failed) || r.Error?) && slept == old(slept)
    {
      PassTime(0);
      var fails: bool := *;
      if fails || child.Reaped? {
        failed := true;
        return Error;
      }
      if child.Alive? {
        return NotYet;
      }
      r := Got(child.raw);
      child := Reaped(child.raw);
    }

    /** Kill the child and block in `wait4`. A child that beat the signal keeps its own status. */
    method KillAndWait() returns (r: WaitResult)
      requires Valid()
      modifies this
      ensures Valid() && old(now) <= now && !r.NotYet? && (old(own).Some? ==> own == old(own))
      ensures r.Got? ==> !old(child).Reaped? && child == Reaped(r.raw)
      ensures !r.Got? ==> (child.Reaped? <==> old(child).Reaped?)
      ensures failed == (old(failed) || r.Error?) && slept == old(slept)
    {
      PassTime(0);
      if child.Alive? {
        child := Zombie(SIGKILL);
      }
      PassTime(0);
      var fails: bool := *;
      if fails || child.Reaped? {
        failed := true;
        return Error;
      }
      r := Got(child.raw);
      child := Reaped(child.raw);
    }

    method Clock() returns (t: nat)
      requires Valid()
      modifies this
      ensures Valid() && Later() && t == now && slept == old(slept)
    {
      PassTime(0);
      t := now;
    }
  }

  // ---- The polling loop ----------------------------------------------------------------------------------

  /** Wait for the child: poll every five milliseconds, kill it at the deadline. Unless a `wait4` fails
      the child is reaped, and only a child that did not exit by itself is killed. */
  method AwaitChild(k: Kernel, start: nat, limit: nat)
    returns (final: Option<WaitStatus>, killed: bool, used: nat, rounds: nat)
    requires start <= k.now && k.Untouched() && !k.failed && k.Valid()
    modifies k
    ensures final == if k.child.Reaped? then Some(ParseWaitStatus(k.child.status)) else None
    ensures used == k.now - start
    ensures killed ==> used >= limit + 100_000_000
    ensures 1 <= rounds <= (limit + 100_000_000) / 5_000_000 + 2
    ensures k.slept == old(k.slept) + (rounds - 1) * 5_000_000
    ensures k.Valid() && (!k.failed ==> k.child.Reaped?)
    ensures k.child.Reaped? && k.own.None? ==> killed
  {
    var deadline := start + limit + 100 * MILLI;
    final := None;
    killed := false;
    rounds := 0;
    while true
      invariant start <= k.now && !k.child.Reaped? && final == None && !killed && !k.failed && k.Valid()
      invariant k.own.None? ==> k.child.Alive?
      invariant start + rounds * (5 * MILLI) <= k.now && k.slept == old(k.slept) + rounds * (5 * MILLI)
      invariant rounds > 0 ==> (rounds - 1) * (5 * MILLI) < limit + 100 * MILLI
      decreases deadline - k.now
    {
      rounds := rounds + 1;
      var r := k.TryWait();
      if r.Got? {
        final := Some(ParseWaitStatus(r.raw));
        break;
      } else if r.NotYet? {
        var t := k.Clock();
        if t >= deadline {
          killed := true;
          var r2 := k.KillAndWait();
          if r2.Got? {
            final := Some(ParseWaitStatus(r2.raw));
          }
          break;
        }
        k.PassTime(5 * MILLI);
      } else {
        break;
      }
    }
    var end := k.Clock();
    used := end - start;
  }

  /** The part of `parent_collect` that yields the verdict. */
  method Collect(k: Kernel, start: nat, limit: nat) returns (exitCode: Option<int>, status: RunStatus, used: nat)
    requires start <= k.now && k.Untouched() && !k.failed && k.Valid()
    modifies k
    ensures used == k.now - start
    ensures k.child.Reaped? ==>
      var (end, inTime) := (ParseWaitStatus(k.child.status), used <= limit + 50_000_000);
      && (status == Ok <==> inTime && end == Exited(0))
      && (status == TimedOut <==> !inTime || end == Signaled(24))
      && (status == RunStatus.Killed <==> inTime && end.Signaled? && end.signal != 24)
      && (exitCode == if inTime && end.Exited? then Some(end.code) else None)
    ensures !k.child.Reaped? ==> exitCode == None && status == if used > limit + 50_000_000 then TimedOut else Failed
    ensures !k.failed ==> k.child.Reaped?
    ensures k.child.Reaped? ==> if k.own.Some? then k.child.status == k.own.value else used >= limit + 100_000_000
  {
    var final, killed, rounds;
    final, killed, used, rounds := AwaitChild(k, start, limit);
    KillFlagIsRedundant(killed, used, limit, final);
    var (code, verdict) := DetermineStatus(killed, used, limit, final);
    exitCode, status := code, verdict;
  }

  /** A process that was killed has overrun by the grace period already, so the verdict would be the
      same had nobody noted the kill. */
  lemma KillFlagIsRedundant(killed: bool, used: nat, limit: nat, final: Option<WaitStatus>)
    requires killed ==> used >= limit + 100_000_000
    ensures DetermineStatus(killed, used, limit, final) == DetermineStatus(false, used, limit, final)
  {
  }

  /** Once the deadline has passed it no longer matters whether the child exited by itself or the
      signal won the race. */
  lemma RaceIsHarmless(killed: bool, killed': bool, used: nat, used': nat, limit: nat, final: Option<WaitStatus>, final': Option<WaitStatus>)
    requires used >= limit + 100_000_000 && used' >= limit + 100_000_000
    ensures DetermineStatus(killed, used, limit, final) == DetermineStatus(killed', used', limit, final') == (None, TimedOut)
  {
  }
}
