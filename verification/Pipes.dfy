/** The three pipes between the parent and a sandboxed process, and the threads that serve them. */
module Pipes {
  import opened Basics

  type Byte = b: int | 0 <= b < 256

  function Prefix<T>(s: seq<T>, limit: nat): seq<T> {
    s[..MinInt(limit, |s|)]
  }

  // ---- The threads by themselves -----------------------------------------------------------------------

  const BUFFER: nat := 4096
  const STDERR_LIMIT: nat := 65_536

  /** The read end of a pipe: `incoming` is what will arrive before end of file or an error. */
  class ReadEnd {
    var incoming: seq<Byte>
    var open: bool

    /** Like `read(2)`: some bytes if any are left, however many it likes; else zero or an error. */
    method Read(buf: array<Byte>) returns (n: int)
      requires open && buf.Length > 0
      modifies this`incoming, buf
      ensures old(incoming) == [] ==> n <= 0 && incoming == []
      ensures old(incoming) != [] ==> 0 < n <= buf.Length && n <= |old(incoming)|
      ensures n > 0 ==> old(incoming) == buf[..n] + incoming
    {
      if incoming == [] {
        n :| n <= 0;
        return;
      }
      n :| 0 < n <= buf.Length && n <= |incoming|;
      for i := 0 to n
        modifies buf
        invariant forall j :: 0 <= j < i ==> buf[j] == incoming[j]
      {
        buf[i] := incoming[i];
      }
      assert buf[..n] == incoming[..n];
      incoming := incoming[n..];
    }
  }

  /** `drain_fd`: read to the end, keep the first `maxBytes` bytes, discard the rest, close. */
  method DrainFd(fd: ReadEnd, maxBytes: nat) returns (out: seq<Byte>)
    requires fd.open
    modifies fd
    ensures out <= old(fd.incoming) && |out| == MinInt(maxBytes, |old(fd.incoming)|)
    ensures fd.incoming == [] && !fd.open
  {
    var buf := new Byte[BUFFER];
    out := [];
    ghost var taken: seq<Byte> := [];
    while true
      invariant fd.open && old(fd.incoming) == taken + fd.incoming && out == Prefix(taken, maxBytes)
      decreases |fd.incoming|
    {
      var n := fd.Read(buf);
      if n <= 0 {
        break;
      }
      var remaining := MaxInt(maxBytes - |out|, 0);
      if remaining > 0 {
        out := out + buf[..MinInt(n, remaining)];
      }
      taken := taken + buf[..n];
    }
    assert taken + [] == taken;
    fd.open := false;
  }

  /** The write end of a pipe. */
  class WriteEnd {
    var accepted: seq<Byte>
    var open: bool
    ghost var broken: bool

    /** Like `write(2)`: accepts some of the bytes, or fails. `broken` says whether it ever has. */
    method Write(data: seq<Byte>) returns (n: int)
      requires open && data != []
      modifies this`accepted, this`broken
      ensures n <= |data| && accepted == old(accepted) + data[..MaxInt(n, 0)]
      ensures broken == (old(broken) || n <= 0)
    {
      n :| n <= |data|;
      if n <= 0 {
        broken := true;
      }
      accepted := accepted + data[..MaxInt(n, 0)];
    }
  }

  /** The stdin thread: write until everything is accepted or a write fails, then close. */
  method FeedStdin(fd: WriteEnd, data: seq<Byte>) returns (failed: bool)
    requires fd.open && fd.accepted == [] && !fd.broken
    modifies fd
    ensures failed == fd.broken
    ensures fd.accepted <= data && !fd.open
    ensures !failed <==> fd.accepted == data
  {
    var offset := 0;
    failed := false;
    while offset < |data|
      invariant !failed && !fd.broken
      invariant fd.open && 0 <= offset <= |data| && fd.accepted == data[..offset]
    {
      var n := fd.Write(data[offset..]);
      if n <= 0 {
        failed := true;
        break;
      }
      offset := offset + n;
    }
    fd.open := false;
  }

  // ---- All of them together, against an arbitrary child ----------------------------------------------------

  /** An output pipe and the thread draining it. `bytes` is in flight; `said` and `drained` record what
      the child wrote and the thread read; `captured` is what the thread keeps, up to `limit`. */
  datatype Channel = Channel(
    bytes: seq<Byte>,
    open: bool,
    said: seq<Byte>,
    drained: seq<Byte>,
    captured: seq<Byte>,
    limit: nat,
    done: bool)

  datatype Side = Out | Err

  /** What a thread of the child is doing: computing, or in a call. */
  datatype Thread = Busy | Reading(most: nat) | Writing(side: Side, payload: seq<Byte>)

  /** The child has any number of threads, and none once it is gone. `todo` is what the stdin thread
      still has to write; `fed` and `eaten` record what went into the stdin pipe and what the child read
      from it. */
  datatype State = State(
    input: seq<Byte>,
    todo: seq<Byte>,
    feeding: bool,
    stdin: seq<Byte>,
    stdinOpen: bool,
    fed: seq<Byte>,
    eaten: seq<Byte>,
    out: Channel,
    err: Channel,
    threads: seq<Thread>)

  datatype Step =
    | Feed(n: nat)
    | FeedFails
    | FeedEnds
    | Drain(side: Side, n: nat)
    | DrainEnds(side: Side)
    | Spawn
    | Call(i: nat, next: Thread)
    | CloseStdin
    | CloseOutput(side: Side)
    | Read(i: nat, n: nat)
    | ReadNothing(i: nat)
    | Write(i: nat, n: nat)
    | WriteFails(i: nat)
    | Exit

  predicate IsParentStep(a: Step) {
    a.Feed? || a.FeedFails? || a.FeedEnds? || a.Drain? || a.DrainEnds?
  }

  function At(s: State, side: Side): Channel {
    if side == Out then s.out else s.err
  }

  function With(s: State, side: Side, c: Channel): State {
    if side == Out then s.(out := c) else s.(err := c)
  }

  function Start(input: seq<Byte>, maxOutput: nat): State {
    State(input, input, true, [], true, [], [],
          Channel([], true, [], [], [], maxOutput, false), Channel([], true, [], [], [], STDERR_LIMIT, false), [Busy])
  }

  /** `cap` is the capacity of a pipe. A call of the child that cannot complete simply is not enabled. */
  predicate Enabled(s: State, cap: nat, a: Step) {
    match a
    case Feed(n) => s.feeding && s.stdinOpen && 0 < n <= |s.todo| && |s.stdin| + n <= cap
    case FeedFails => s.feeding && s.todo != [] && !s.stdinOpen
    case FeedEnds => s.feeding && s.todo == []
    case Drain(side, n) => !At(s, side).done && 0 < n <= BUFFER && n <= |At(s, side).bytes|
    case DrainEnds(side) => !At(s, side).done && At(s, side).bytes == [] && !At(s, side).open
    case Spawn => s.threads != []
    case Call(i, next) =>
      i < |s.threads| && s.threads[i] == Busy && (match next case Reading(most) => most > 0 case Writing(_, p) => p != [] case _ => false)
    case CloseStdin => s.threads != []
    case CloseOutput(side) => s.threads != []
    case Read(i, n) => i < |s.threads| && s.threads[i].Reading? && s.stdinOpen && 0 < n <= s.threads[i].most && n <= |s.stdin|
    case ReadNothing(i) => i < |s.threads| && s.threads[i].Reading? && (!s.stdinOpen || (s.stdin == [] && !s.feeding))
    case Write(i, n) =>
      i < |s.threads| && s.threads[i].Writing? && At(s, s.threads[i].side).open
      && 0 < n <= |s.threads[i].payload| && |At(s, s.threads[i].side).bytes| + n <= cap
    case WriteFails(i) => i < |s.threads| && s.threads[i].Writing? && !At(s, s.threads[i].side).open
    case Exit => s.threads != []
  }

  function Apply(s: State, cap: nat, a: Step): State
    requires Enabled(s, cap, a)
  {
    match a
    case Feed(n) => s.(todo := s.todo[n..], stdin := s.stdin + s.todo[..n], fed := s.fed + s.todo[..n])
    case FeedFails => s.(feeding := false)
    case FeedEnds => s.(feeding := false)
    case Drain(side, n) =>
      var c := At(s, side);
      var kept := Prefix(c.bytes[..n], MaxInt(c.limit - |c.captured|, 0));
      With(s, side, c.(bytes := c.bytes[n..], drained := c.drained + c.bytes[..n], captured := c.captured + kept))
    case DrainEnds(side) => With(s, side, At(s, side).(done := true))
    case Spawn => s.(threads := s.threads + [Busy])
    case Call(i, next) => Now(s, i, next)
    case CloseStdin => s.(stdinOpen := false)
    case CloseOutput(side) => With(s, side, At(s, side).(open := false))
    case Read(i, n) => Now(s.(stdin := s.stdin[n..], eaten := s.eaten + s.stdin[..n]), i, Busy)
    case ReadNothing(i) => Now(s, i, Busy)
    case Write(i, n) =>
      var (side, p) := (s.threads[i].side, s.threads[i].payload);
      var c := At(s, side);
      Now(With(s, side, c.(bytes := c.bytes + p[..n], said := c.said + p[..n])), i,
          if n == |p| then Busy else Writing(side, p[n..]))
    case WriteFails(i) => Now(s, i, Busy)
    case Exit => s.(threads := [], stdinOpen := false, out := s.out.(open := false), err := s.err.(open := false))
  }

  /** Thread `i` goes on to `next`. */
  function Now(s: State, i: nat, next: Thread): State
    requires i < |s.threads|
  {
    s.(threads := s.threads[i := next])
  }

  // ---- The invariant --------------------------------------------------------------------------------------

  /** Bytes written equal bytes read plus bytes in flight; what is kept is a prefix of what was read. */
  ghost predicate ChannelInv(c: Channel, cap: nat) {
    && c.said == c.drained + c.bytes && |c.bytes| <= cap
    && c.captured == Prefix(c.drained, c.limit)
    && (c.done ==> c.bytes == [] && !c.open)
  }

  /** No thread reads or writes nothing. */
  predicate CallIsValid(c: Thread) {
    (c.Reading? ==> c.most > 0) && (c.Writing? ==> c.payload != [])
  }

  ghost predicate Inv(s: State, cap: nat) {
    && s.fed + s.todo == s.input
    && s.fed == s.eaten + s.stdin && |s.stdin| <= cap
    && (!s.feeding ==> s.todo == [] || !s.stdinOpen)
    && ChannelInv(s.out, cap) && ChannelInv(s.err, cap)
    && (s.threads == [] ==> !s.stdinOpen && !s.out.open && !s.err.open)
    && (forall i :: 0 <= i < |s.threads| ==> CallIsValid(s.threads[i]))
  }

  lemma DrainKeeps(c: Channel, cap: nat, n: nat)
    requires ChannelInv(c, cap) && !c.done && n <= |c.bytes|
    ensures var kept := Prefix(c.bytes[..n], MaxInt(c.limit - |c.captured|, 0));
            ChannelInv(c.(bytes := c.bytes[n..], drained := c.drained + c.bytes[..n], captured := c.captured + kept), cap)
  {
    assert c.bytes == c.bytes[..n] + c.bytes[n..];
  }

  lemma DrainStepKeeps(s: State, cap: nat, side: Side, n: nat)
    requires Inv(s, cap) && Enabled(s, cap, Drain(side, n))
    ensures Inv(Apply(s, cap, Drain(side, n)), cap)
  {
    DrainKeeps(At(s, side), cap, n);
  }

  lemma FeedKeeps(s: State, cap: nat, n: nat)
    requires Inv(s, cap) && Enabled(s, cap, Feed(n))
    ensures Inv(Apply(s, cap, Feed(n)), cap)
  {
    assert s.todo == s.todo[..n] + s.todo[n..];
  }

  lemma ReadKeeps(s: State, cap: nat, i: nat, n: nat)
    requires Inv(s, cap) && Enabled(s, cap, Read(i, n))
    ensures Inv(Apply(s, cap, Read(i, n)), cap)
  {
    assert s.stdin == s.stdin[..n] + s.stdin[n..];
  }

  lemma WriteKeeps(s: State, cap: nat, i: nat, n: nat)
    requires Inv(s, cap) && Enabled(s, cap, Write(i, n))
    ensures Inv(Apply(s, cap, Write(i, n)), cap)
  {
    var c := At(s, s.threads[i].side);
    assert c.said + s.threads[i].payload[..n] == c.drained + (c.bytes + s.threads[i].payload[..n]);
  }

  /** The threads of the parent stop, or the child closes an end or is gone. */
  lemma ClosingKeeps(s: State, cap: nat, a: Step)
    requires Inv(s, cap) && Enabled(s, cap, a)
    requires a.FeedFails? || a.FeedEnds? || a.DrainEnds? || a.CloseStdin? || a.CloseOutput? || a.Exit?
    ensures Inv(Apply(s, cap, a), cap)
  {
  }

  /** A thread of the child starts, calls, or returns from a call with nothing done. */
  lemma CallingKeeps(s: State, cap: nat, a: Step)
    requires Inv(s, cap) && Enabled(s, cap, a)
    requires a.Spawn? || a.Call? || a.ReadNothing? || a.WriteFails?
    ensures Inv(Apply(s, cap, a), cap)
  {
  }

  lemma InvStep(s: State, cap: nat, a: Step)
    requires Inv(s, cap) && Enabled(s, cap, a)
    ensures Inv(Apply(s, cap, a), cap)
  {
    match a
    case Feed(n) => FeedKeeps(s, cap, n);
    case Drain(side, n) => DrainStepKeeps(s, cap, side, n);
    case Read(i, n) => ReadKeeps(s, cap, i, n);
    case Write(i, n) => WriteKeeps(s, cap, i, n);
    case Spawn => CallingKeeps(s, cap, a);
    case Call(_, _) => CallingKeeps(s, cap, a);
    case ReadNothing(_) => CallingKeeps(s, cap, a);
    case WriteFails(_) => CallingKeeps(s, cap, a);
    case _ => ClosingKeeps(s, cap, a);
  }

  lemma StepKeepsSetup(s: State, cap: nat, a: Step)
    requires Enabled(s, cap, a)
    ensures SameSetup(s, Apply(s, cap, a))
  {
  }

  predicate SameSetup(s: State, t: State) {
    t.input == s.input && t.out.limit == s.out.limit && t.err.limit == s.err.limit
  }

  // ---- Whole runs ------------------------------------------------------------------------------------------

  ghost predicate Runs(s: State, cap: nat, steps: seq<Step>)
    decreases |steps|
  {
    steps == [] || (Enabled(s, cap, steps[0]) && Runs(Apply(s, cap, steps[0]), cap, steps[1..]))
  }

  ghost function After(s: State, cap: nat, steps: seq<Step>): State
    requires Runs(s, cap, steps)
    decreases |steps|
  {
    if steps == [] then s else After(Apply(s, cap, steps[0]), cap, steps[1..])
  }

  lemma {:induction false} InvAlways(s: State, cap: nat, steps: seq<Step>)
    requires Inv(s, cap) && Runs(s, cap, steps)
    ensures Inv(After(s, cap, steps), cap)
    ensures SameSetup(s, After(s, cap, steps))
    decreases |steps|
  {
    if steps != [] {
      InvStep(s, cap, steps[0]);
      StepKeepsSetup(s, cap, steps[0]);
      InvAlways(Apply(s, cap, steps[0]), cap, steps[1..]);
    }
  }

  predicate ParentDone(s: State) {
    !s.feeding && s.out.done && s.err.done
  }

  /** The child is arbitrary: while it is there it may start threads, close its ends and go at any time,
      and a thread that is not in a call may make any. */
  lemma ChildIsFree(s: State, cap: nat, i: nat, call: Thread, side: Side)
    requires s.threads != []
    ensures Enabled(s, cap, Spawn) && Enabled(s, cap, CloseStdin) && Enabled(s, cap, CloseOutput(side)) && Enabled(s, cap, Exit)
    ensures i < |s.threads| && s.threads[i] == Busy && call != Busy && CallIsValid(call) ==> Enabled(s, cap, Call(i, call))
  {
  }

  /** What calls do: a read gets something or finds the end, a write gets rid of something or finds the
      other end closed, and a read or a write on the wrong side of a closed end moves nothing. */
  lemma CallsAreHonest(s: State, cap: nat, a: Step)
    requires Inv(s, cap) && Enabled(s, cap, a)
    ensures a.Read? ==> s.stdinOpen && s.stdin != [] && a.n > 0 && s.threads[a.i].Reading?
    ensures a.ReadNothing? ==> (s.stdinOpen ==> s.stdin == [] && !s.feeding) && s.threads[a.i].Reading?
    ensures a.Write? ==> a.n > 0 && s.threads[a.i].Writing? && At(s, s.threads[a.i].side).open
    ensures a.WriteFails? ==> s.threads[a.i].Writing? && !At(s, s.threads[a.i].side).open
    ensures a.Feed? ==> s.stdinOpen && a.n > 0
    ensures a.FeedFails? ==> !s.stdinOpen && s.todo != []
    ensures s.threads == [] ==> IsParentStep(a)
  {
  }

  /** What the calls of a thread move, and that they leave the other threads alone. */
  lemma CallsMoveBytes(s: State, cap: nat, a: Step)
    requires Inv(s, cap) && Enabled(s, cap, a)
    ensures var t := Apply(s, cap, a);
            && (a.Spawn? ==> t.threads == s.threads + [Busy])
            && (a.Read? ==>
                  t.stdin == s.stdin[a.n..] && t.eaten == s.eaten + s.stdin[..a.n] && t.threads == s.threads[a.i := Busy])
            && (a.Write? ==>
                  var (side, p) := (s.threads[a.i].side, s.threads[a.i].payload);
                  && At(t, side).said == At(s, side).said + p[..a.n]
                  && t.threads[a.i] == (if a.n < |p| then Writing(side, p[a.n..]) else Busy)
                  && forall j :: 0 <= j < |s.threads| && j != a.i ==> t.threads[j] == s.threads[j])
  {
  }

  /** Steps in which the call of thread `i` gets somewhere. */
  predicate Serves(a: Step, i: nat) {
    (a.Read? || a.ReadNothing? || a.Write? || a.WriteFails?) && a.i == i
  }

  /** Thread `i` of the child is in a call that cannot go on now. */
  ghost predicate Blocked(s: State, cap: nat, i: nat) {
    && i < |s.threads| && s.threads[i] != Busy
    && forall a :: Serves(a, i) ==> !Enabled(s, cap, a)
  }

  /** A thread of the child blocked writing finds its pipe full, and the thread draining that pipe can
      go on, however much it has captured already. One blocked reading finds its pipe empty, and the
      stdin thread can write more or is about to close. */
  lemma BlockedIsServed(s: State, cap: nat, i: nat)
    requires Inv(s, cap) && cap > 0 && Blocked(s, cap, i)
    ensures s.threads[i].Writing? ==>
      var side := s.threads[i].side;
      Enabled(s, cap, Drain(side, 1)) && forall n :: 0 < n <= MinInt(4096, |At(s, side).bytes|) ==> Enabled(s, cap, Drain(side, n))
    ensures s.threads[i].Reading? ==> Enabled(s, cap, Feed(1)) || Enabled(s, cap, FeedEnds)
  {
    assert CallIsValid(s.threads[i]);
    assert !Enabled(s, cap, Write(i, 1)) && !Enabled(s, cap, WriteFails(i));
    assert !Enabled(s, cap, Read(i, 1)) && !Enabled(s, cap, ReadNothing(i));
  }

  /** When the child is gone and a thread is not done, a thread can move. */
  lemma GoneIsCollected(s: State, cap: nat)
    requires Inv(s, cap) && s.threads == [] && !ParentDone(s)
    ensures exists a :: IsParentStep(a) && Enabled(s, cap, a)
  {
    if s.feeding {
      assert Enabled(s, cap, FeedFails) || Enabled(s, cap, FeedEnds);
    } else {
      var side := if s.out.done then Err else Out;
      assert Enabled(s, cap, Drain(side, 1)) || Enabled(s, cap, DrainEnds(side));
    }
  }

  /** What the threads can still do without the child. */
  function Work(s: State): nat {
    |s.todo| + |s.out.bytes| + |s.err.bytes|
    + (if s.feeding then 1 else 0) + (if s.out.done then 0 else 1) + (if s.err.done then 0 else 1)
  }

  lemma ParentStepsFinish(s: State, cap: nat, a: Step)
    requires Enabled(s, cap, a) && IsParentStep(a)
    ensures Work(Apply(s, cap, a)) < Work(s) && Apply(s, cap, a).threads == s.threads
  {
  }

  lemma {:induction false} ParentRunIsShort(s: State, cap: nat, steps: seq<Step>)
    requires Runs(s, cap, steps) && forall a <- steps :: IsParentStep(a)
    ensures |steps| + Work(After(s, cap, steps)) <= Work(s) && After(s, cap, steps).threads == s.threads
    decreases |steps|
  {
    if steps != [] {
      assert steps[0] in steps;
      ParentStepsFinish(s, cap, steps[0]);
      ParentRunIsShort(Apply(s, cap, steps[0]), cap, steps[1..]);
    }
  }

  /** No thread can move. */
  ghost predicate ParentIdle(s: State, cap: nat) {
    forall a :: IsParentStep(a) ==> !Enabled(s, cap, a)
  }

  lemma IdleMeansServed(s: State, cap: nat)
    requires Inv(s, cap) && cap > 0 && ParentIdle(s, cap)
    ensures (forall i :: !Blocked(s, cap, i)) && (s.threads == [] ==> ParentDone(s))
  {
    if i: nat :| Blocked(s, cap, i) {
      BlockedIsServed(s, cap, i);
    }
    if s.threads == [] && !ParentDone(s) {
      GoneIsCollected(s, cap);
    }
  }

  /** No deadlock, in any run against any child: the threads can make only a bounded number of moves
      while the child waits, and when none of them can move any more every call that a thread of the
      child is in can go on, and if the child is gone everything is collected. */
  lemma PipesCannotDeadlock(input: seq<Byte>, maxOutput: nat, cap: nat, steps: seq<Step>, wait: seq<Step>)
    requires cap > 0 && Runs(Start(input, maxOutput), cap, steps)
    requires Runs(After(Start(input, maxOutput), cap, steps), cap, wait) && forall a <- wait :: IsParentStep(a)
    ensures var s := After(Start(input, maxOutput), cap, steps);
            var t := After(s, cap, wait);
            && |wait| <= Work(s) && t.threads == s.threads
            && (ParentIdle(t, cap) ==> (forall i :: !Blocked(t, cap, i)) && (t.threads == [] ==> ParentDone(t)))
  {
    var s := After(Start(input, maxOutput), cap, steps);
    InvAlways(Start(input, maxOutput), cap, steps);
    InvAlways(s, cap, wait);
    ParentRunIsShort(s, cap, wait);
    if ParentIdle(After(s, cap, wait), cap) {
      IdleMeansServed(After(s, cap, wait), cap);
    }
  }

  /** What a finished run has captured: the first bytes of each output, up to its limit, no matter how
      reads, writes and the child's exit were interleaved. The child was given a prefix of the input,
      all of it unless it closed its end first. */
  lemma FinishedRunCapturesOutput(input: seq<Byte>, maxOutput: nat, cap: nat, steps: seq<Step>)
    requires Runs(Start(input, maxOutput), cap, steps)
    ensures var s := After(Start(input, maxOutput), cap, steps);
            ParentDone(s) ==>
              && s.out.captured <= s.out.said && |s.out.captured| == MinInt(maxOutput, |s.out.said|)
              && s.err.captured <= s.err.said && |s.err.captured| == MinInt(65_536, |s.err.said|)
              && s.eaten <= input && (s.stdinOpen ==> s.fed == input)
  {
    InvAlways(Start(input, maxOutput), cap, steps);
    var s := After(Start(input, maxOutput), cap, steps);
    if ParentDone(s) {
      assert s.out.drained + [] == s.out.drained && s.err.drained + [] == s.err.drained;
      assert s.input == s.eaten + (s.stdin + s.todo);
    }
  }

  /** At every moment: bytes written equal bytes read plus bytes in flight, for each pipe. */
  lemma BytesAreConserved(input: seq<Byte>, maxOutput: nat, cap: nat, steps: seq<Step>)
    requires Runs(Start(input, maxOutput), cap, steps)
    ensures var s := After(Start(input, maxOutput), cap, steps);
            && s.out.said == s.out.drained + s.out.bytes && s.err.said == s.err.drained + s.err.bytes
            && s.fed == s.eaten + s.stdin && input == s.fed + s.todo
            && |s.out.bytes| <= cap && |s.err.bytes| <= cap && |s.stdin| <= cap
  {
    InvAlways(Start(input, maxOutput), cap, steps);
  }

  /** A child that keeps its stdin open is told of the end only after it has read all of the input. */
  lemma EndOfInputMeansAllRead(s: State, cap: nat, i: nat)
    requires Inv(s, cap) && s.stdinOpen && Enabled(s, cap, ReadNothing(i))
    ensures s.eaten == s.input
  {
    assert s.eaten + [] == s.eaten && s.fed + [] == s.fed;
  }
}
