/** The submissions table as a log, and the two grouping queries behind the standings. */
module SubmissionLog {
  import opened Basics
  import J = JudgeTypes

  /** One row of `submissions`; `status` is the text stored in the column. */
  datatype Entry = Entry(
    user: Option<nat>,
    contest: Option<string>,
    problem: string,
    status: string,
    createdAt: int,
    score: Option<real>)

  datatype GroupKey = GroupKey(user: nat, problem: string)

  datatype Sample<T> = Sample(key: GroupKey, value: T)

  // ---- WHERE -----------------------------------------------------------------------------

  /** An accepted submission to `contest` by a known user. */
  predicate IsAccepted(contest: string, users: map<nat, string>, e: Entry) {
    e.contest == Some(contest) && e.status == "accepted" && e.user.Some? && e.user.value in users
  }

  predicate IsScored(contest: string, users: map<nat, string>, e: Entry) {
    e.contest == Some(contest) && e.status == "scored" && e.user.Some? && e.user.value in users && e.score.Some?
  }

  lemma IsAcceptedIff(contest: string, users: map<nat, string>, e: Entry)
    ensures IsAccepted(contest, users, e) <==>
      e.contest == Some(contest) && e.status == J.ToDb(J.Accepted) && exists u :: e.user == Some(u) && u in users
  {
  }

  lemma IsScoredIff(contest: string, users: map<nat, string>, e: Entry)
    ensures IsScored(contest, users, e) <==>
      e.contest == Some(contest) && e.status == J.ToDb(J.Scored) && e.score.Some? && exists u :: e.user == Some(u) && u in users
  {
  }

  function Accepted(contest: string, users: map<nat, string>, log: seq<Entry>): (r: seq<Sample<int>>)
    ensures forall k, t :: Sample(k, t) in r <==>
      exists e <- log :: IsAccepted(contest, users, e) && k == GroupKey(e.user.value, e.problem) && t == e.createdAt
  {
    if log == [] then []
    else
      var e := log[0];
      assert log == [e] + log[1..];
      var rest := Accepted(contest, users, log[1..]);
      if IsAccepted(contest, users, e) then [Sample(GroupKey(e.user.value, e.problem), e.createdAt)] + rest else rest
  }

  function Scored(contest: string, users: map<nat, string>, log: seq<Entry>): (r: seq<Sample<real>>)
    ensures forall k, v :: Sample(k, v) in r <==>
      exists e <- log :: IsScored(contest, users, e) && k == GroupKey(e.user.value, e.problem) && v == e.score.value
  {
    if log == [] then []
    else
      var e := log[0];
      assert log == [e] + log[1..];
      var rest := Scored(contest, users, log[1..]);
      if IsScored(contest, users, e) then [Sample(GroupKey(e.user.value, e.problem), e.score.value)] + rest else rest
  }

  // ---- GROUP BY with MIN or MAX ------------------------------------------------------------

  ghost predicate LinearOrder<T(!new)>(leq: (T, T) -> bool) {
    && (forall a, b :: leq(a, b) || leq(b, a))
    && (forall a, b :: leq(a, b) && leq(b, a) ==> a == b)
    && (forall a, b, c :: leq(a, b) && leq(b, c) ==> leq(a, c))
  }

  /** For each key the value that comes first in the order `leq`. */
  function FirstBy<T>(samples: seq<Sample<T>>, leq: (T, T) -> bool): map<GroupKey, T> {
    if samples == [] then map[]
    else
      var m, x := FirstBy(samples[1..], leq), samples[0];
      if x.key in m && leq(m[x.key], x.value) then m else m[x.key := x.value]
  }

  /** `m` holds, for exactly the keys that have a sample, a sample value no other precedes. */
  ghost predicate IsFirstBy<T(!new)>(m: map<GroupKey, T>, samples: seq<Sample<T>>, leq: (T, T) -> bool) {
    && (forall x :: x in samples ==> x.key in m && leq(m[x.key], x.value))
    && (forall k :: k in m ==> Sample(k, m[k]) in samples)
  }

  lemma {:induction false} FirstByIsFirst<T(!new)>(samples: seq<Sample<T>>, leq: (T, T) -> bool)
    requires LinearOrder(leq)
    ensures IsFirstBy(FirstBy(samples, leq), samples, leq)
  {
    if samples != [] {
      assert samples == [samples[0]] + samples[1..];
      FirstByIsFirst(samples[1..], leq);
    }
  }

  lemma FirstByDetermined<T(!new)>(m: map<GroupKey, T>, m': map<GroupKey, T>, xs: seq<Sample<T>>, ys: seq<Sample<T>>, leq: (T, T) -> bool)
    requires LinearOrder(leq) && IsFirstBy(m, xs, leq) && IsFirstBy(m', ys, leq)
    requires forall x :: x in xs <==> x in ys
    ensures m == m'
  {
    forall k | k in m ensures k in m' && m'[k] == m[k] {
      assert Sample(k, m[k]) in ys;
      assert Sample(k, m'[k]) in xs;
    }
    forall k | k in m' ensures k in m {
      assert Sample(k, m'[k]) in xs;
    }
  }

  predicate Earlier(a: int, b: int) { a <= b }

  predicate Higher(a: real, b: real) { a >= b }

  /** `first_acs_for_contest`: when each user first solved each problem. */
  function FirstAcs(contest: string, users: map<nat, string>, log: seq<Entry>): map<GroupKey, int> {
    FirstBy(Accepted(contest, users, log), Earlier)
  }

  /** `best_scores_for_contest`: the best score of each user on each problem. */
  function BestScores(contest: string, users: map<nat, string>, log: seq<Entry>): map<GroupKey, real> {
    FirstBy(Scored(contest, users, log), Higher)
  }

  ghost predicate SameEntries(log: seq<Entry>, log': seq<Entry>) {
    forall e :: e in log <==> e in log'
  }

  /** The queries see the log as a set: its order does not matter. */
  lemma QueriesIgnoreOrder(contest: string, users: map<nat, string>, log: seq<Entry>, log': seq<Entry>)
    requires SameEntries(log, log')
    ensures FirstAcs(contest, users, log) == FirstAcs(contest, users, log')
    ensures BestScores(contest, users, log) == BestScores(contest, users, log')
  {
    var (a, a') := (Accepted(contest, users, log), Accepted(contest, users, log'));
    FirstByIsFirst(a, Earlier);
    FirstByIsFirst(a', Earlier);
    assert forall x :: x in a <==> Sample(x.key, x.value) in a;
    assert forall x :: x in a' <==> Sample(x.key, x.value) in a';
    FirstByDetermined(FirstBy(a, Earlier), FirstBy(a', Earlier), a, a', Earlier);
    var (b, b') := (Scored(contest, users, log), Scored(contest, users, log'));
    FirstByIsFirst(b, Higher);
    FirstByIsFirst(b', Higher);
    assert forall x :: x in b <==> Sample(x.key, x.value) in b;
    assert forall x :: x in b' <==> Sample(x.key, x.value) in b';
    FirstByDetermined(FirstBy(b, Higher), FirstBy(b', Higher), b, b', Higher);
  }

  // ---- What the queries mean ------------------------------------------------------------------

  /** The minimum really is the first accepted submission: of this user, to this problem, in this
      contest, by an account that exists. */
  lemma FirstAcsMeaning(contest: string, users: map<nat, string>, log: seq<Entry>, u: nat, p: string)
    ensures var (m, k) := (FirstAcs(contest, users, log), GroupKey(u, p));
            && (k in m ==> exists e <- log ::
                  e.contest == Some(contest) && e.status == J.ToDb(J.Accepted) && e.user == Some(u) && u in users
                  && e.problem == p && e.createdAt == m[k])
            && (forall e <- log | e.contest == Some(contest) && e.status == J.ToDb(J.Accepted)
                  && e.user == Some(u) && u in users && e.problem == p :: k in m && m[k] <= e.createdAt)
  {
    var a := Accepted(contest, users, log);
    FirstByIsFirst(a, Earlier);
    forall e <- log | IsAccepted(contest, users, e)
      ensures Sample(GroupKey(e.user.value, e.problem), e.createdAt) in a
    {
    }
  }

  /** The maximum really is the best scored submission. */
  lemma BestScoresMeaning(contest: string, users: map<nat, string>, log: seq<Entry>, u: nat, p: string)
    ensures var (m, k) := (BestScores(contest, users, log), GroupKey(u, p));
            && (k in m ==> exists e <- log ::
                  e.contest == Some(contest) && e.status == J.ToDb(J.Scored) && e.user == Some(u) && u in users
                  && e.problem == p && e.score == Some(m[k]))
            && (forall e <- log | e.contest == Some(contest) && e.status == J.ToDb(J.Scored)
                  && e.user == Some(u) && u in users && e.problem == p && e.score.Some? :: k in m && m[k] >= e.score.value)
  {
    var a := Scored(contest, users, log);
    FirstByIsFirst(a, Higher);
    forall e <- log | IsScored(contest, users, e)
      ensures Sample(GroupKey(e.user.value, e.problem), e.score.value) in a
    {
    }
  }

  /** An entry of another contest or of none, not accepted, or of no known user changes nothing. */
  lemma OthersAreNotAccepted(contest: string, users: map<nat, string>, log: seq<Entry>, e: Entry)
    requires e.contest != Some(contest) || e.status != J.ToDb(J.Accepted) || e.user.None? || e.user.value !in users
    ensures FirstAcs(contest, users, [e] + log) == FirstAcs(contest, users, log)
  {
    assert ([e] + log)[1..] == log;
  }

  /** An entry of another contest or of none, not scored, without a score, or of no known user changes
      nothing. */
  lemma OthersAreNotScored(contest: string, users: map<nat, string>, log: seq<Entry>, e: Entry)
    requires e.contest != Some(contest) || e.status != J.ToDb(J.Scored) || e.user.None? || e.user.value !in users || e.score.None?
    ensures BestScores(contest, users, [e] + log) == BestScores(contest, users, log)
  {
    assert ([e] + log)[1..] == log;
  }
}
