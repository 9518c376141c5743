/** The pause between two submissions of one session to contest problems. */
module Cooldown {
  import opened Arithmetic
  import opened Basics

  datatype Class = Normal | Heuristic

  /** Milliseconds between two submissions of a class. */
  function Pause(c: Class): nat {
    match c
    case Normal => 5_000
    case Heuristic => 300_000
  }

  /** Milliseconds still to wait, zero when the submission may go ahead. A session that has never
      recorded a submission counts as having submitted at time zero. */
  function Wait(times: map<Class, int>, c: Class, now: int): nat {
    var last := if c in times then times[c] else 0;
    if now - last < Pause(c) then Pause(c) - (now - last) else 0
  }

  /** One request, with the two clock readings the handler takes, whether reading the session works,
      whether everything between (loading the problem, inserting the row) goes well, and whether the
      session store accepts the new time. Failing to read or to store is ignored. */
  datatype Request = Request(kind: Class, checkedAt: int, readable: bool, inserts: bool, recordedAt: int, stores: bool)

  /** What the check sees of the session: nothing, if it cannot be read. */
  function Seen(times: map<Class, int>, readable: bool): map<Class, int> {
    if readable then times else map[]
  }

  predicate Accepted(times: map<Class, int>, r: Request) {
    Wait(Seen(times, r.readable), r.kind, r.checkedAt) == 0 && r.inserts
  }

  function Next(times: map<Class, int>, r: Request): map<Class, int> {
    if Accepted(times, r) && r.stores then times[r.kind := r.recordedAt] else times
  }

  class Session {
    var times: map<Class, int>

    method CheckCooldown(c: Class, now: int, readable: bool) returns (remaining: nat)
      ensures remaining == Wait(Seen(times, readable), c, now)
    {
      var last := 0;
      if readable && c in times {
        last := times[c];
      }
      var elapsed := now - last;
      if elapsed < Pause(c) {
        remaining := Pause(c) - elapsed;
      } else {
        remaining := 0;
      }
    }

    method RecordSubmitTime(c: Class, now: int, stores: bool)
      modifies this
      ensures times == if stores then old(times)[c := now] else old(times)
    {
      if stores {
        times := times[c := now];
      }
    }

    /** The handler: check, insert the row, then record the time. */
    method Submit(r: Request) returns (accepted: bool)
      modifies this
      ensures accepted == Accepted(old(times), r) && times == Next(old(times), r)
    {
      var remaining := CheckCooldown(r.kind, r.checkedAt, r.readable);
      if remaining > 0 {
        return false;
      }
      if !r.inserts {
        return false;
      }
      RecordSubmitTime(r.kind, r.recordedAt, r.stores);
      accepted := true;
    }
  }

  // ---- Over a whole session ----------------------------------------------------------------------

  /** Requests one after the other, on a clock that never goes back. */
  ghost predicate Sequential(rs: seq<Request>) {
    && (forall i :: 0 <= i < |rs| ==> rs[i].checkedAt <= rs[i].recordedAt)
    && (forall i, j :: 0 <= i < j < |rs| ==> rs[i].recordedAt <= rs[j].checkedAt)
  }

  function TimesBefore(times: map<Class, int>, rs: seq<Request>, n: nat): map<Class, int>
    requires n <= |rs|
  {
    if n == 0 then times else Next(TimesBefore(times, rs, n - 1), rs[n - 1])
  }

  predicate AcceptedAt(times: map<Class, int>, rs: seq<Request>, i: nat)
    requires i < |rs|
  {
    Accepted(TimesBefore(times, rs, i), rs[i])
  }

  /** The latest request of a class before the `n`-th that was accepted and stored, or -1. */
  function LastStored(times: map<Class, int>, rs: seq<Request>, c: Class, n: nat): (k: int)
    requires n <= |rs|
    ensures -1 <= k < n
    ensures k >= 0 ==> rs[k].kind == c && rs[k].stores && AcceptedAt(times, rs, k)
    ensures forall i :: k < i < n && rs[i].kind == c && rs[i].stores ==> !AcceptedAt(times, rs, i)
  {
    if n == 0 then -1
    else if rs[n - 1].kind == c && rs[n - 1].stores && AcceptedAt(times, rs, n - 1) then n - 1
    else LastStored(times, rs, c, n - 1)
  }

  lemma {:induction false} TimesAreLastStored(times: map<Class, int>, rs: seq<Request>, c: Class, n: nat)
    requires n <= |rs|
    ensures var (t, k) := (TimesBefore(times, rs, n), LastStored(times, rs, c, n));
            if k >= 0 then c in t && t[c] == rs[k].recordedAt
            else (c in t <==> c in times) && (c in t ==> t[c] == times[c])
  {
    if n > 0 {
      TimesAreLastStored(times, rs, c, n - 1);
    }
  }

  /** When the check of request `n` thinks its class was last used. */
  function LastSeen(times: map<Class, int>, rs: seq<Request>, n: nat): int
    requires n < |rs|
  {
    var (c, k) := (rs[n].kind, LastStored(times, rs, rs[n].kind, n));
    if !rs[n].readable then 0 else if k >= 0 then rs[k].recordedAt else if c in times then times[c] else 0
  }

  /** Exactly when a request is accepted: its own steps succeed and the pause has passed since the
      last accepted request of its class whose time was stored, or since time zero if the session
      cannot be read. */
  lemma AcceptedIff(times: map<Class, int>, rs: seq<Request>, n: nat)
    requires n < |rs|
    ensures AcceptedAt(times, rs, n) <==> rs[n].inserts && rs[n].checkedAt - LastSeen(times, rs, n) >= (if rs[n].kind == Normal then 5_000 else 300_000)
  {
    TimesAreLastStored(times, rs, rs[n].kind, n);
  }

  /** Two accepted submissions of a class are at least its pause apart, from the recording of the first
      to the check of the second, if the first was stored and the second could read the session. */
  lemma AcceptedAreSpaced(times: map<Class, int>, rs: seq<Request>, i: nat, j: nat)
    requires Sequential(rs) && i < j < |rs| && rs[i].kind == rs[j].kind && rs[i].stores && rs[j].readable
    requires AcceptedAt(times, rs, i) && AcceptedAt(times, rs, j)
    ensures rs[j].checkedAt >= rs[i].recordedAt + if rs[i].kind == Normal then 5_000 else 300_000
  {
    AcceptedIff(times, rs, j);
    var k := LastStored(times, rs, rs[j].kind, j);
    assert k >= i;
    assert k > i ==> rs[i].recordedAt <= rs[k].checkedAt <= rs[k].recordedAt;
  }

  ghost predicate BothAccepted(times: map<Class, int>, rs: seq<Request>, i: nat, j: nat, c: Class) {
    && Sequential(rs) && i < j < |rs| && rs[i].kind == rs[j].kind == c
    && AcceptedAt(times, rs, i) && AcceptedAt(times, rs, j)
  }

  /** Spacing is certain exactly when both session accesses between the two submissions work: neither
      a lost time nor a failed read alone is harmless, in either class. */
  lemma SpacingHoldsIff(c: Class, stores: bool, readable: bool)
    ensures stores && readable <==>
      forall times: map<Class, int>, rs: seq<Request>, i: nat, j: nat ::
        BothAccepted(times, rs, i, j, c) && rs[i].stores == stores && rs[j].readable == readable ==>
          rs[j].checkedAt >= rs[i].recordedAt + (if c == Normal then 5_000 else 300_000)
  {
    if stores && readable {
      forall times: map<Class, int>, rs: seq<Request>, i: nat, j: nat | BothAccepted(times, rs, i, j, c) && rs[i].stores && rs[j].readable
        ensures rs[j].checkedAt >= rs[i].recordedAt + (if c == Normal then 5_000 else 300_000)
      {
        AcceptedAreSpaced(times, rs, i, j);
      }
    } else {
      var first := Request(c, 1_000_000, true, true, 1_000_000, stores);
      var rs := [first, first.(readable := readable)];
      assert TimesBefore(map[], rs, 1) == Next(TimesBefore(map[], rs, 0), first);
      assert BothAccepted(map[], rs, 0, 1, c);
    }
  }

  lemma {:induction false} PrefixDecidesTimes(times: map<Class, int>, rs: seq<Request>, x: Request, n: nat)
    requires n <= |rs|
    ensures TimesBefore(times, rs + [x], n) == TimesBefore(times, rs, n)
  {
    if n > 0 {
      PrefixDecidesTimes(times, rs, x, n - 1);
    }
  }

  /** Whenever the store loses the time of an accepted submission, the next one of its class is
      accepted at the very instant the first was to be recorded, if it reads the session as the first
      did. */
  lemma LostTimeAllowsAnother(times: map<Class, int>, rs: seq<Request>, x: Request)
    requires Sequential(rs) && rs != []
    requires var last := rs[|rs| - 1];
             && AcceptedAt(times, rs, |rs| - 1) && !last.stores
             && x.kind == last.kind && x.readable == last.readable && x.inserts && last.recordedAt == x.checkedAt <= x.recordedAt
    ensures Sequential(rs + [x]) && AcceptedAt(times, rs + [x], |rs|)
  {
    PrefixDecidesTimes(times, rs, x, |rs|);
    var last := rs[|rs| - 1];
    forall i | 0 <= i < |rs| ensures rs[i].recordedAt <= x.checkedAt {
      assert i < |rs| - 1 ==> rs[i].recordedAt <= last.checkedAt;
    }
  }

  /** A request that cannot read the session is accepted whatever came before it. */
  lemma FailedReadAllowsAny(times: map<Class, int>, rs: seq<Request>, x: Request)
    requires !x.readable && x.inserts
    ensures AcceptedAt(times, rs + [x], |rs|) <==> x.checkedAt >= (if x.kind == Normal then 5_000 else 300_000)
  {
    AcceptedIff(times, rs + [x], |rs|);
  }

  /** The accepted requests of a class among `rs[lo..hi]`. */
  function CountAccepted(times: map<Class, int>, rs: seq<Request>, c: Class, lo: nat, hi: nat): nat
    requires lo <= hi <= |rs|
  {
    if lo == hi then 0
    else CountAccepted(times, rs, c, lo, hi - 1) + if rs[hi - 1].kind == c && AcceptedAt(times, rs, hi - 1) then 1 else 0
  }

  /** The accepted requests themselves. */
  function AcceptedIn(times: map<Class, int>, rs: seq<Request>, c: Class, lo: nat, hi: nat): set<nat>
    requires lo <= hi <= |rs|
  {
    set i: nat | lo <= i < hi && rs[i].kind == c && AcceptedAt(times, rs, i)
  }

  lemma {:induction false} CountIsSize(times: map<Class, int>, rs: seq<Request>, c: Class, lo: nat, hi: nat)
    requires lo <= hi <= |rs|
    ensures CountAccepted(times, rs, c, lo, hi) == |AcceptedIn(times, rs, c, lo, hi)|
    decreases hi
  {
    if lo == hi {
      assert AcceptedIn(times, rs, c, lo, hi) == {};
    } else {
      CountIsSize(times, rs, c, lo, hi - 1);
      AcceptedInGrows(times, rs, c, lo, hi - 1);
    }
  }

  lemma AcceptedInGrows(times: map<Class, int>, rs: seq<Request>, c: Class, lo: nat, hi: nat)
    requires lo <= hi < |rs|
    ensures |AcceptedIn(times, rs, c, lo, hi + 1)| ==
            |AcceptedIn(times, rs, c, lo, hi)| + if rs[hi].kind == c && AcceptedAt(times, rs, hi) then 1 else 0
  {
    OneMoreIn(AcceptedIn(times, rs, c, lo, hi), AcceptedIn(times, rs, c, lo, hi + 1), hi, rs[hi].kind == c && AcceptedAt(times, rs, hi));
  }

  lemma OneMoreIn(before: set<nat>, after: set<nat>, x: nat, added: bool)
    requires x !in before && forall i :: i in after <==> i in before || (i == x && added)
    ensures |after| == |before| + if added then 1 else 0
  {
    assert after == if added then before + {x} else before;
  }

  /** At most one more than the window divided by the pause fit in any window of check times. */
  lemma AtMostOnePerPause(times: map<Class, int>, rs: seq<Request>, c: Class, lo: nat, hi: nat, from: int, window: nat)
    requires Sequential(rs) && lo <= hi <= |rs|
    requires forall i :: lo <= i < hi ==> from <= rs[i].checkedAt <= from + window
    requires forall i :: lo <= i < hi && rs[i].kind == c ==> rs[i].stores && rs[i].readable
    ensures |AcceptedIn(times, rs, c, lo, hi)| <= window / (if c == Normal then 5_000 else 300_000) + 1
  {
    CountIsSize(times, rs, c, lo, hi);
    var n := CountAccepted(times, rs, c, lo, hi);
    SpanOfAccepted(times, rs, c, lo, hi, from);
    if n > 0 {
      var k := LastAccepted(times, rs, c, lo, hi);
      QuotientBounds(n - 1, window, Pause(c));
    }
  }

  function LastAccepted(times: map<Class, int>, rs: seq<Request>, c: Class, lo: nat, hi: nat): (k: nat)
    requires lo <= hi <= |rs| && CountAccepted(times, rs, c, lo, hi) > 0
    ensures lo <= k < hi && rs[k].kind == c && AcceptedAt(times, rs, k)
    ensures CountAccepted(times, rs, c, lo, hi) == CountAccepted(times, rs, c, lo, k) + 1
  {
    if rs[hi - 1].kind == c && AcceptedAt(times, rs, hi - 1) then hi - 1 else LastAccepted(times, rs, c, lo, hi - 1)
  }

  lemma {:induction false} SpanOfAccepted(times: map<Class, int>, rs: seq<Request>, c: Class, lo: nat, hi: nat, from: int)
    requires Sequential(rs) && lo <= hi <= |rs|
    requires forall i :: lo <= i < hi ==> from <= rs[i].checkedAt
    requires forall i :: lo <= i < hi && rs[i].kind == c ==> rs[i].stores && rs[i].readable
    ensures var n := CountAccepted(times, rs, c, lo, hi);
            n > 0 ==> rs[LastAccepted(times, rs, c, lo, hi)].checkedAt >= from + (n - 1) * Pause(c)
    decreases hi
  {
    var n := CountAccepted(times, rs, c, lo, hi);
    if n > 0 {
      var k := LastAccepted(times, rs, c, lo, hi);
      if n > 1 {
        SpanOfAccepted(times, rs, c, lo, k, from);
        AcceptedAreSpaced(times, rs, LastAccepted(times, rs, c, lo, k), k);
        OneMore(n - 2, Pause(c));
      }
    }
  }

  /** A refusal changes nothing, so it never lengthens the wait; waiting out exactly the reported
      remainder is enough, and anything less is not. */
  lemma RefusalsAreHarmless(times: map<Class, int>, r: Request, later: nat)
    requires Wait(Seen(times, r.readable), r.kind, r.checkedAt) > 0
    ensures Next(times, r) == times
    ensures Wait(Seen(Next(times, r), r.readable), r.kind, r.checkedAt + later) == 0 <==>
            later >= Wait(Seen(times, r.readable), r.kind, r.checkedAt)
  {
  }

  /** The two classes do not touch each other's waits. */
  lemma ClassesAreIndependent(times: map<Class, int>, r: Request, c: Class, now: int)
    requires c != r.kind
    ensures Wait(Next(times, r), c, now) == Wait(times, c, now)
  {
  }

  // ---- Requests that overlap ---------------------------------------------------------------------

  /** A save of the session record, in the order in which saves reach the store. A request works on the
      record as it was after `loaded` saves and writes back the whole of it: with the time of its
      submission, read from the clock in between, or with some other change. */
  datatype Save = Submitted(loaded: nat, kind: Class, at: int) | Other(loaded: nat)

  /** A record is loaded before it is saved, and clock readings follow what has been loaded. */
  ghost predicate Causal(ss: seq<Save>) {
    && (forall k :: 0 <= k < |ss| ==> ss[k].loaded <= k)
    && (forall k, j :: 0 <= k < j < |ss| && k < ss[j].loaded && ss[k].Submitted? && ss[j].Submitted? ==> ss[k].at <= ss[j].at)
  }

  /** The record after `n` saves. */
  function RecordAfter(times: map<Class, int>, ss: seq<Save>, n: nat): map<Class, int>
    requires Causal(ss) && n <= |ss|
    decreases n
  {
    if n == 0 then times
    else
      var (s, base) := (ss[n - 1], RecordAfter(times, ss, ss[n - 1].loaded));
      if s.Submitted? then base[s.kind := s.at] else base
  }

  /** The record after `n` saves descends from save `k`: no save in between was made on an older one. */
  ghost predicate Knows(ss: seq<Save>, k: nat, n: nat)
    requires Causal(ss) && n <= |ss|
    decreases n
  {
    k < n && (k == n - 1 || Knows(ss, k, ss[n - 1].loaded))
  }

  lemma {:induction false} KnownTimeStays(times: map<Class, int>, ss: seq<Save>, k: nat, n: nat)
    requires Causal(ss) && n <= |ss| && Knows(ss, k, n) && ss[k].Submitted?
    ensures ss[k].kind in RecordAfter(times, ss, n) && RecordAfter(times, ss, n)[ss[k].kind] >= ss[k].at
    decreases n
  {
    if k < n - 1 {
      KnownTimeStays(times, ss, k, ss[n - 1].loaded);
    }
  }

  /** However requests overlap: a check on a record that descends from a submission's save passes only
      when the pause since that submission is over. */
  lemma RecordedTimeHoldsBack(times: map<Class, int>, ss: seq<Save>, k: nat, n: nat, now: int)
    requires Causal(ss) && n <= |ss| && Knows(ss, k, n) && ss[k].Submitted?
    requires Wait(RecordAfter(times, ss, n), ss[k].kind, now) == 0
    ensures now >= ss[k].at + if ss[k].kind == Normal then 5_000 else 300_000
  {
    KnownTimeStays(times, ss, k, n);
  }

  /** Requests that load the same record before any of them saves go through together. */
  lemma OverlappingChecksPass(times: map<Class, int>, ss: seq<Save>, n: nat, c: Class, now: int, later: nat)
    requires Causal(ss) && n <= |ss| && Wait(RecordAfter(times, ss, n), c, now) == 0
    ensures Wait(RecordAfter(times, ss, n), c, now + later) == 0
  {
  }

  /** A save made on a record that does not descend from a submission's save takes its time away, even
      a save of the other class or of no submission at all. */
  lemma OverlappingSaveLosesTime(times: map<Class, int>, ss: seq<Save>, n: nat, c: Class, now: int)
    requires Causal(ss) && 0 < n <= |ss| && (ss[n - 1].Submitted? ==> ss[n - 1].kind != c)
    ensures Wait(RecordAfter(times, ss, n), c, now) == Wait(RecordAfter(times, ss, ss[n - 1].loaded), c, now)
  {
  }

  ghost predicate NothingForgotten(ss: seq<Save>)
    requires Causal(ss)
  {
    forall k: nat, n: nat :: k < n <= |ss| ==> Knows(ss, k, n)
  }

  ghost predicate InTurn(ss: seq<Save>) {
    forall k :: 0 <= k < |ss| ==> ss[k].loaded == k
  }

  /** No save is ever forgotten exactly when no two requests overlap: each loads the record that the
      save before it left. */
  lemma NothingForgottenIff(ss: seq<Save>)
    requires Causal(ss)
    ensures NothingForgotten(ss) <==> InTurn(ss)
  {
    if InTurn(ss) {
      forall k: nat, n: nat | k < n <= |ss| ensures Knows(ss, k, n) {
        InTurnKnows(ss, k, n);
      }
    }
    if NothingForgotten(ss) {
      forall k | 0 <= k < |ss| ensures ss[k].loaded == k {
        var base := ss[k].loaded;
        assert !Knows(ss, base, base);
        assert Knows(ss, base, k + 1) ==> base == k;
      }
    }
  }

  lemma {:induction false} InTurnKnows(ss: seq<Save>, k: nat, n: nat)
    requires Causal(ss) && k < n <= |ss| && InTurn(ss)
    ensures Knows(ss, k, n)
  {
    if k < n - 1 {
      InTurnKnows(ss, k, n - 1);
    }
  }
}
