/** What the standings page says about the submission log, and what it does not depend on. */
module StandingsProperties {
  import opened Basics
  import J = JudgeTypes
  import opened Ranking
  import opened RankPass
  import opened SubmissionLog
  import opened Standings

  // ---- A row, read off the log directly ----------------------------------------------------------

  /** When user `u` first got problem `p` accepted in the contest. */
  function FirstSolve(c: Contest, log: seq<Entry>, u: nat, p: string): Option<int> {
    if log == [] then None
    else
      var e, rest := log[0], FirstSolve(c, log[1..], u, p);
      if e.contest == Some(c.id) && e.status == J.ToDb(J.Accepted) && e.user == Some(u) && u in c.users && e.problem == p then
        Some(if rest.None? then e.createdAt else MinInt(e.createdAt, rest.value))
      else rest
  }

  /** The best score of user `u` on problem `p`. */
  function BestScore(c: Contest, log: seq<Entry>, u: nat, p: string): Option<real> {
    if log == [] then None
    else
      var e, rest := log[0], BestScore(c, log[1..], u, p);
      if e.contest == Some(c.id) && e.status == J.ToDb(J.Scored) && e.user == Some(u) && u in c.users && e.problem == p && e.score.Some? then
        Some(if rest.Some? && rest.value >= e.score.value then rest.value else e.score.value)
      else rest
  }

  function Lookup<T>(m: map<GroupKey, T>, u: nat, p: string): Option<T> {
    if GroupKey(u, p) in m then Some(m[GroupKey(u, p)]) else None
  }

  lemma {:induction false} FirstAcsReadsLog(c: Contest, log: seq<Entry>, u: nat, p: string)
    ensures Lookup(FirstAcs(c.id, c.users, log), u, p) == FirstSolve(c, log, u, p)
  {
    if log != [] {
      FirstAcsReadsLog(c, log[1..], u, p);
      IsAcceptedIff(c.id, c.users, log[0]);
      var a := Accepted(c.id, c.users, log);
      assert IsAccepted(c.id, c.users, log[0]) ==> a[1..] == Accepted(c.id, c.users, log[1..]);
    }
  }

  lemma {:induction false} BestScoresReadsLog(c: Contest, log: seq<Entry>, u: nat, p: string)
    ensures Lookup(BestScores(c.id, c.users, log), u, p) == BestScore(c, log, u, p)
  {
    if log != [] {
      BestScoresReadsLog(c, log[1..], u, p);
      IsScoredIff(c.id, c.users, log[0]);
      var a := Scored(c.id, c.users, log);
      assert IsScored(c.id, c.users, log[0]) ==> a[1..] == Scored(c.id, c.users, log[1..]);
    }
  }

  /** Points of the contest problems the user has an accepted submission for. */
  function SolvedPoints(c: Contest, log: seq<Entry>, u: nat, n: nat): nat
    requires n <= |c.problems|
  {
    if n == 0 then 0
    else
      var p := c.problems[n - 1].id;
      SolvedPoints(c, log, u, n - 1) + if FirstSolve(c, log, u, p).Some? && p in c.points then c.points[p] else 0
  }

  /** Sum of the user's best scores on the contest problems. */
  function BestTotal(c: Contest, log: seq<Entry>, u: nat, n: nat): real
    requires n <= |c.problems|
  {
    if n == 0 then 0.0
    else
      var best := BestScore(c, log, u, c.problems[n - 1].id);
      BestTotal(c, log, u, n - 1) + if best.Some? then best.value else 0.0
  }

  /** `t` is the latest of the times at which the user first solved a contest problem. */
  ghost predicate IsLastSolve(c: Contest, log: seq<Entry>, u: nat, t: Option<int>) {
    && (t.None? ==> forall p <- c.problems :: FirstSolve(c, log, u, p.id).None?)
    && (t.Some? ==> exists p <- c.problems :: FirstSolve(c, log, u, p.id) == t)
    && (forall p <- c.problems :: FirstSolve(c, log, u, p.id).Some? ==> t.Some? && FirstSolve(c, log, u, p.id).value <= t.value)
  }

  lemma {:induction false} TotalPointsFromLog(c: Contest, log: seq<Entry>, u: nat, n: nat)
    requires n <= |c.problems|
    ensures TotalPoints(c, ValuesOf(FirstAcs(c.id, c.users, log), u), n) == SolvedPoints(c, log, u, n)
  {
    if n > 0 {
      TotalPointsFromLog(c, log, u, n - 1);
      FirstAcsReadsLog(c, log, u, c.problems[n - 1].id);
      InValuesOf(FirstAcs(c.id, c.users, log), u, c.problems[n - 1].id);
    }
  }

  lemma {:induction false} TotalBestFromLog(c: Contest, log: seq<Entry>, u: nat, n: nat)
    requires n <= |c.problems|
    ensures TotalBest(c, ValuesOf(BestScores(c.id, c.users, log), u), n) == BestTotal(c, log, u, n)
  {
    if n > 0 {
      TotalBestFromLog(c, log, u, n - 1);
      BestScoresReadsLog(c, log, u, c.problems[n - 1].id);
      InValuesOf(BestScores(c.id, c.users, log), u, c.problems[n - 1].id);
    }
  }

  lemma InValuesOf<T(!new)>(m: map<GroupKey, T>, u: nat, p: string)
    ensures p in ValuesOf(m, u) <==> GroupKey(u, p) in m
    ensures p in ValuesOf(m, u) ==> ValuesOf(m, u)[p] == m[GroupKey(u, p)]
  {
    assert GroupKey(u, p) in m ==> p in ValuesOf(m, u);
  }

  lemma SolvedFromLog(c: Contest, log: seq<Entry>, u: nat, p: string)
    ensures var solved := ValuesOf(FirstAcs(c.id, c.users, log), u);
            && (p in solved <==> FirstSolve(c, log, u, p).Some?)
            && (p in solved ==> FirstSolve(c, log, u, p) == Some(solved[p]))
  {
    FirstAcsReadsLog(c, log, u, p);
    InValuesOf(FirstAcs(c.id, c.users, log), u, p);
  }

  lemma LastSolveReadsLog(c: Contest, log: seq<Entry>, u: nat)
    ensures IsLastSolve(c, log, u, ExactRowFromLog(c, log, u).lastAc)
  {
    var solved := ValuesOf(FirstAcs(c.id, c.users, log), u);
    var t := LastSolve(c, solved, |c.problems|);
    LastSolveIsLatest(c, solved, |c.problems|);
    forall p: string
      ensures p in solved <==> FirstSolve(c, log, u, p).Some?
      ensures p in solved ==> FirstSolve(c, log, u, p) == Some(solved[p])
    {
      SolvedFromLog(c, log, u, p);
    }
    if t.Some? {
      var i :| 0 <= i < |c.problems| && c.problems[i].id in solved && solved[c.problems[i].id] == t.value;
      assert c.problems[i] in c.problems;
    }
  }

  /** A cell shows the first solve and, if there is one, the points. */
  predicate CellReadsLog(c: Contest, log: seq<Entry>, u: nat, p: Problem, cell: Cell) {
    var first := FirstSolve(c, log, u, p.id);
    cell == Cell(p.problemLabel, ShownTime(c.start, first),
                 if first.None? then Blank else if p.id in c.points then Points(c.points[p.id]) else Points(0), first.Some?)
  }

  /** Total, last solve and every cell of an exact row, in terms of the log alone. */
  lemma ExactRowMeaning(c: Contest, log: seq<Entry>, u: nat)
    ensures var r := ExactRowFromLog(c, log, u);
            && r.user == u && r.username == (if u in c.users then c.users[u] else "")
            && r.score == SolvedPoints(c, log, u, |c.problems|) as real
            && IsLastSolve(c, log, u, r.lastAc)
            && r.elapsed == ShownTime(c.start, r.lastAc)
            && |r.cells| == |c.problems|
            && forall i :: 0 <= i < |c.problems| ==> CellReadsLog(c, log, u, c.problems[i], r.cells[i])
  {
    var solved := ValuesOf(FirstAcs(c.id, c.users, log), u);
    TotalPointsFromLog(c, log, u, |c.problems|);
    LastSolveReadsLog(c, log, u);
    CellsInOrder(c, solved, |c.problems|);
    forall i | 0 <= i < |c.problems|
      ensures CellReadsLog(c, log, u, c.problems[i], ExactCell(c, solved, c.problems[i]))
    {
      SolvedFromLog(c, log, u, c.problems[i].id);
    }
  }

  lemma LastSolveIsUnique(c: Contest, log: seq<Entry>, u: nat, t: Option<int>, t': Option<int>)
    requires IsLastSolve(c, log, u, t) && IsLastSolve(c, log, u, t')
    ensures t == t'
  {
    if t.Some? {
      var p :| p in c.problems && FirstSolve(c, log, u, p.id) == t;
    }
    if t'.Some? {
      var p :| p in c.problems && FirstSolve(c, log, u, p.id) == t';
    }
  }

  /** The one instant that is the user's last solve. */
  ghost function LastSolveFromLog(c: Contest, log: seq<Entry>, u: nat): (t: Option<int>)
    ensures IsLastSolve(c, log, u, t)
  {
    ExactRowMeaning(c, log, u);
    ExactRowFromLog(c, log, u).lastAc
  }

  /** What an exact row is sorted by. */
  lemma ExactSortKey(c: Contest, log: seq<Entry>, u: nat)
    ensures var r := ExactRowFromLog(c, log, u);
            && r.score == SolvedPoints(c, log, u, |c.problems|) as real
            && r.lastAc == LastSolveFromLog(c, log, u) && r.username == NameOf(c, u)
  {
    TotalPointsFromLog(c, log, u, |c.problems|);
  }

  lemma HeuristicRowMeaning(c: Contest, log: seq<Entry>, u: nat)
    ensures var r := HeuristicRowFromLog(c, log, u);
            && r.user == u && r.username == (if u in c.users then c.users[u] else "")
            && r.score == BestTotal(c, log, u, |c.problems|) && r.lastAc == None && r.elapsed == None
            && |r.cells| == |c.problems|
            && forall i :: 0 <= i < |c.problems| ==>
                 var best := BestScore(c, log, u, c.problems[i].id);
                 r.cells[i] == Cell(c.problems[i].problemLabel, None,
                                    if best.Some? then Best(best.value) else Blank, best.Some?)
  {
    TotalBestFromLog(c, log, u, |c.problems|);
    var best := ValuesOf(BestScores(c.id, c.users, log), u);
    forall p: string
      ensures p in best <==> BestScore(c, log, u, p).Some?
      ensures p in best ==> BestScore(c, log, u, p) == Some(best[p])
    {
      BestScoresReadsLog(c, log, u, p);
      InValuesOf(BestScores(c.id, c.users, log), u, p);
    }
  }

  // ---- Exact ranks ----------------------------------------------------------------------------------

  lemma RowsAheadAreUsersAhead(s: seq<Row>, who: set<nat>, row: nat -> Row, heuristic: bool, start: int, k: Key)
    requires OneRowEach(s, who, row)
    ensures |AheadOf(Keys(s, heuristic, start), k)| == |UsersAhead(who, row, heuristic, start, k)|
  {
    var js := AheadOf(Keys(s, heuristic, start), k);
    ImageSize(s, js);
    var us := set j | j in js :: s[j].user;
    forall u | u in UsersAhead(who, row, heuristic, start, k) ensures u in us {
      var j :| 0 <= j < |s| && s[j].user == u;
      assert j in js;
    }
    assert us == UsersAhead(who, row, heuristic, start, k);
  }

  function UsersAhead(who: set<nat>, row: nat -> Row, heuristic: bool, start: int, k: Key): set<nat> {
    set u | u in who && Ahead(KeyOf(heuristic, start, row(u)), k)
  }

  lemma {:induction false} ImageSize(s: seq<Row>, js: set<nat>)
    requires forall j :: j in js ==> j < |s|
    requires forall i, j :: 0 <= i < j < |s| ==> s[i].user != s[j].user
    ensures |set j | j in js :: s[j].user| == |js|
    decreases js
  {
    if js != {} {
      var k :| k in js;
      ImageSize(s, js - {k});
      var smaller := set j | j in js - {k} :: s[j].user;
      assert (set j | j in js :: s[j].user) == smaller + {s[k].user};
      assert s[k].user !in smaller;
    }
  }

  lemma ExactScoresSeparated(c: Contest, log: seq<Entry>, s: seq<Row>, who: set<nat>)
    requires OneRowEach(s, who, ExactRows(c, log))
    ensures Separated(s) && ElapsedShown(s, c.start)
  {
    forall i, j | 0 <= i < |s| && 0 <= j < |s| ensures Apart(s[i].score, s[j].score) {
      ExactRowMeaning(c, log, s[i].user);
      ExactRowMeaning(c, log, s[j].user);
      IntegersApart(SolvedPoints(c, log, s[i].user, |c.problems|), SolvedPoints(c, log, s[j].user, |c.problems|));
    }
  }

  lemma IntegersApart(a: int, b: int)
    ensures Apart(a as real, b as real)
  {
    var d := a - b;
    assert a as real - b as real == d as real;
    assert d != 0 ==> Abs(d as real) >= 1.0;
    assert EPSILON < 1.0;
  }

  /** The rank the log gives user `u`: one more than the number of users strictly ahead. */
  ghost function RankFromLog(c: Contest, log: seq<Entry>, u: nat): nat {
    1 + |UsersAhead(Participants(FirstAcs(c.id, c.users, log)), ExactRows(c, log),
                    false, c.start, KeyOf(false, c.start, ExactRowFromLog(c, log, u)))|
  }

  lemma NumberedFromLog(c: Contest, log: seq<Entry>, s: seq<Row>, i: nat)
    requires OneRowEach(s, Participants(FirstAcs(c.id, c.users, log)), ExactRows(c, log)) && Sorted(s) && i < |s|
    ensures Ranked(s, false, i) == ExactRowFromLog(c, log, s[i].user).(rank := RankFromLog(c, log, s[i].user))
  {
    ExactScoresSeparated(c, log, s, Participants(FirstAcs(c.id, c.users, log)));
    RanksAreCompetitionRanks(s, false, c.start, i, i);
    RowsAheadAreUsersAhead(s, Participants(FirstAcs(c.id, c.users, log)), ExactRows(c, log), false, c.start, KeyOf(false, c.start, s[i]));
  }

  /** Who is listed: the users of whom the log holds an accepted submission to the contest. */
  lemma ExactListedIff(c: Contest, log: seq<Entry>, u: nat)
    ensures u in Participants(FirstAcs(c.id, c.users, log)) <==>
      u in c.users && exists e <- log :: e.contest == Some(c.id) && e.status == J.ToDb(J.Accepted) && e.user == Some(u)
  {
    var m := FirstAcs(c.id, c.users, log);
    if k :| k in m && k.user == u {
      FirstAcsMeaning(c.id, c.users, log, u, k.problem);
    }
    if e :| e in log && e.contest == Some(c.id) && e.status == J.ToDb(J.Accepted) && e.user == Some(u) && u in c.users {
      FirstAcsMeaning(c.id, c.users, log, u, e.problem);
      assert GroupKey(u, e.problem).user in Participants(m);
    }
  }

  /** Practice submissions, those to other contests, those not accepted and those of no known user
      leave the exact page as it is. */
  lemma OthersKeepExactPage(c: Contest, log: seq<Entry>, e: Entry, page: seq<Row>)
    requires e.contest != Some(c.id) || e.status != J.ToDb(J.Accepted) || e.user.None? || e.user.value !in c.users
    ensures ExactPage(c, [e] + log, page) <==> ExactPage(c, log, page)
  {
    OthersAreNotAccepted(c.id, c.users, log, e);
    var (row, row') := (ExactRows(c, log), ExactRows(c, [e] + log));
    assert forall u: nat :: row(u) == row'(u);
    if ExactPage(c, log, page) {
      SameRowsSamePage(page, false, Participants(FirstAcs(c.id, c.users, log)), row, row');
    }
    if ExactPage(c, [e] + log, page) {
      SameRowsSamePage(page, false, Participants(FirstAcs(c.id, c.users, log)), row', row);
    }
  }

  lemma HeuristicListedIff(c: Contest, log: seq<Entry>, u: nat)
    ensures u in Participants(BestScores(c.id, c.users, log)) <==>
      u in c.users && exists e <- log :: e.contest == Some(c.id) && e.status == J.ToDb(J.Scored) && e.user == Some(u) && e.score.Some?
  {
    var m := BestScores(c.id, c.users, log);
    if k :| k in m && k.user == u {
      BestScoresMeaning(c.id, c.users, log, u, k.problem);
    }
    if e :| e in log && e.contest == Some(c.id) && e.status == J.ToDb(J.Scored) && e.user == Some(u) && e.score.Some? && u in c.users {
      BestScoresMeaning(c.id, c.users, log, u, e.problem);
      assert GroupKey(u, e.problem).user in Participants(m);
    }
  }

  lemma OthersKeepHeuristicPage(c: Contest, log: seq<Entry>, e: Entry, page: seq<Row>)
    requires e.contest != Some(c.id) || e.status != J.ToDb(J.Scored) || e.user.None? || e.user.value !in c.users || e.score.None?
    ensures HeuristicPage(c, [e] + log, page) <==> HeuristicPage(c, log, page)
  {
    OthersAreNotScored(c.id, c.users, log, e);
    var (row, row') := (HeuristicRows(c, log), HeuristicRows(c, [e] + log));
    assert forall u: nat :: row(u) == row'(u);
    if HeuristicPage(c, log, page) {
      SameRowsSamePage(page, true, Participants(BestScores(c.id, c.users, log)), row, row');
    }
    if HeuristicPage(c, [e] + log, page) {
      SameRowsSamePage(page, true, Participants(BestScores(c.id, c.users, log)), row', row);
    }
  }

  lemma SameRowsSamePage(page: seq<Row>, heuristic: bool, who: set<nat>, row: nat -> Row, row': nat -> Row)
    requires forall u: nat :: row(u) == row'(u)
    requires IsPage(page, heuristic, who, row)
    ensures IsPage(page, heuristic, who, row')
  {
    var s: seq<Row> :| OneRowEach(s, who, row) && Sorted(s) && page == Numbered(s, heuristic);
    assert OneRowEach(s, who, row');
  }

  lemma AheadIsStrict(a: Key, b: Key, k: Key)
    ensures !Ahead(a, a)
    ensures Ahead(a, b) && Ahead(k, a) ==> Ahead(k, b)
    ensures a == b || Ahead(a, b) || Ahead(b, a) || (a.score == b.score && a.secs == b.secs)
  {
  }

  lemma StrictlyMoreAhead(who: set<nat>, row: nat -> Row, start: int, u: nat, v: nat)
    requires u in who && Ahead(KeyOf(false, start, row(u)), KeyOf(false, start, row(v)))
    ensures |UsersAhead(who, row, false, start, KeyOf(false, start, row(u)))| < |UsersAhead(who, row, false, start, KeyOf(false, start, row(v)))|
  {
    var (a, b) := (KeyOf(false, start, row(u)), KeyOf(false, start, row(v)));
    forall w ensures w in UsersAhead(who, row, false, start, a) ==> w in UsersAhead(who, row, false, start, b) {
      AheadIsStrict(a, b, KeyOf(false, start, row(w)));
    }
    AheadIsStrict(a, b, a);
    SmallerSet(UsersAhead(who, row, false, start, a), UsersAhead(who, row, false, start, b), u);
  }

  lemma SmallerSet(a: set<nat>, b: set<nat>, x: nat)
    requires a <= b && x in b && x !in a
    ensures |a| < |b|
  {
    var rest := b - a;
    assert x in rest;
    assert b == a + rest && |b| == |a| + |rest|;
  }

  /** Two users share a rank exactly when the log gives them the same total and the same whole second
      of the last solve. */
  lemma RanksAgreeIff(c: Contest, log: seq<Entry>, u: nat, v: nat)
    requires u in Participants(FirstAcs(c.id, c.users, log)) && v in Participants(FirstAcs(c.id, c.users, log))
    ensures RankFromLog(c, log, u) == RankFromLog(c, log, v) <==>
      SolvedPoints(c, log, u, |c.problems|) == SolvedPoints(c, log, v, |c.problems|)
      && Seconds(c.start, LastSolveFromLog(c, log, u)) == Seconds(c.start, LastSolveFromLog(c, log, v))
  {
    ExactSortKey(c, log, u);
    ExactSortKey(c, log, v);
    var (a, b) := (KeyOf(false, c.start, ExactRowFromLog(c, log, u)), KeyOf(false, c.start, ExactRowFromLog(c, log, v)));
    if Ahead(a, b) {
      StrictlyMoreAhead(Participants(FirstAcs(c.id, c.users, log)), ExactRows(c, log), c.start, u, v);
    } else if Ahead(b, a) {
      StrictlyMoreAhead(Participants(FirstAcs(c.id, c.users, log)), ExactRows(c, log), c.start, v, u);
    }
  }

  /** The exact standings refine the log: one row for each user with an accepted submission in the
      contest, holding that user's row and competition rank. */
  lemma ExactPageRefinesLog(c: Contest, log: seq<Entry>, page: seq<Row>)
    requires ExactPage(c, log, page)
    ensures forall u :: u in Participants(FirstAcs(c.id, c.users, log)) <==> exists i :: 0 <= i < |page| && page[i].user == u
    ensures forall i, j :: 0 <= i < j < |page| ==> page[i].user != page[j].user
    ensures forall i :: 0 <= i < |page| ==>
      page[i] == ExactRowFromLog(c, log, page[i].user).(rank := RankFromLog(c, log, page[i].user))
  {
    var who := Participants(FirstAcs(c.id, c.users, log));
    var s: seq<Row> :| OneRowEach(s, who, ExactRows(c, log)) && Sorted(s) && page == Numbered(s, false);
    forall i | 0 <= i < |page|
      ensures page[i].user == s[i].user
      ensures page[i] == ExactRowFromLog(c, log, s[i].user).(rank := RankFromLog(c, log, s[i].user))
    {
      NumberedFromLog(c, log, s, i);
    }
  }

  /** Neither the order of the log nor the order in which hash maps are walked changes what any
      user's row says. */
  lemma ExactRowsAreDetermined(c: Contest, log: seq<Entry>, log': seq<Entry>, page: seq<Row>, page': seq<Row>, i: nat, j: nat)
    requires SameEntries(log, log') && ExactPage(c, log, page) && ExactPage(c, log', page')
    requires i < |page| && j < |page'| && page[i].user == page'[j].user
    ensures page[i] == page'[j]
  {
    ExactPageRefinesLog(c, log, page);
    ExactPageRefinesLog(c, log', page');
    RankIgnoresOrder(c, log, log', page[i].user);
  }

  lemma RankIgnoresOrder(c: Contest, log: seq<Entry>, log': seq<Entry>, u: nat)
    requires SameEntries(log, log')
    ensures ExactRowFromLog(c, log, u) == ExactRowFromLog(c, log', u)
    ensures RankFromLog(c, log, u) == RankFromLog(c, log', u)
  {
    QueriesIgnoreOrder(c.id, c.users, log, log');
    var who := Participants(FirstAcs(c.id, c.users, log));
    var k := KeyOf(false, c.start, ExactRowFromLog(c, log, u));
    assert UsersAhead(who, ExactRows(c, log), false, c.start, k) == UsersAhead(who, ExactRows(c, log'), false, c.start, k);
  }

  // ---- The order of the page -----------------------------------------------------------------------

  /** Two listings of the same rows are permutations of each other. */
  lemma {:induction false} ListingsPermute(s: seq<Row>, t: seq<Row>, who: set<nat>, row: nat -> Row)
    requires OneRowEach(s, who, row) && OneRowEach(t, who, row)
    ensures multiset(s) == multiset(t)
    decreases |s|
  {
    if s != [] {
      var u := s[0].user;
      ListedIsMember(s, who, row);
      var s' := WithoutUser(s, u, who, row);
      var t' := WithoutUser(t, u, who, row);
      ListingsPermute(s', t', who - {u}, row);
    } else if t != [] {
      ListedIsMember(t, who, row);
      assert false;
    }
  }

  lemma ListedIsMember(s: seq<Row>, who: set<nat>, row: nat -> Row)
    requires OneRowEach(s, who, row) && s != []
    ensures s[0].user in who
  {
  }

  lemma WithoutUser(s: seq<Row>, u: nat, who: set<nat>, row: nat -> Row) returns (rest: seq<Row>)
    requires OneRowEach(s, who, row) && u in who
    ensures OneRowEach(rest, who - {u}, row) && |rest| == |s| - 1
    ensures multiset(s) == multiset(rest) + multiset{row(u)}
  {
    var k :| 0 <= k < |s| && s[k].user == u;
    rest := s[..k] + s[k + 1..];
    WithoutRowLists(s, k, rest, who, row);
    WithoutRowCounts(s, k);
    RowOf(s, k, who, row);
  }

  lemma RowOf(s: seq<Row>, k: nat, who: set<nat>, row: nat -> Row)
    requires OneRowEach(s, who, row) && k < |s|
    ensures s[k] == row(s[k].user)
  {
  }

  lemma WithoutRowCounts(s: seq<Row>, k: nat)
    requires k < |s|
    ensures multiset(s) == multiset(s[..k] + s[k + 1..]) + multiset{s[k]}
  {
    assert s == s[..k] + [s[k]] + s[k + 1..];
  }

  lemma WithoutRowLists(s: seq<Row>, k: nat, t: seq<Row>, who: set<nat>, row: nat -> Row)
    requires OneRowEach(s, who, row) && k < |s|
    requires |t| == |s| - 1 && forall i :: 0 <= i < |t| ==> t[i] == s[if i < k then i else i + 1]
    ensures OneRowEach(t, who - {s[k].user}, row)
  {
    forall u | u in who - {s[k].user} ensures exists i :: 0 <= i < |t| && t[i].user == u {
      var j :| 0 <= j < |s| && s[j].user == u;
      assert t[if j < k then j else j - 1].user == u;
    }
  }

  ghost predicate UsersTie(row: nat -> Row, u: nat, v: nat) {
    Compare(row(u), row(v)) == Equal
  }

  lemma NoTiesIff(s: seq<Row>, who: set<nat>, row: nat -> Row)
    requires OneRowEach(s, who, row)
    ensures NoTies(s) <==> forall u, v :: u in who && v in who && u != v ==> !UsersTie(row, u, v)
  {
    if NoTies(s) {
      forall u, v | u in who && v in who && u != v ensures !UsersTie(row, u, v) {
        var i :| 0 <= i < |s| && s[i].user == u;
        var j :| 0 <= j < |s| && s[j].user == v;
      }
    } else {
      var i, j :| 0 <= i < |s| && 0 <= j < |s| && s[i] != s[j] && Compare(s[i], s[j]) == Equal;
      assert UsersTie(row, s[i].user, s[j].user);
    }
  }

  /** No other page can come out. */
  ghost predicate OnlyPage(page: seq<Row>, heuristic: bool, who: set<nat>, row: nat -> Row) {
    forall other :: IsPage(other, heuristic, who, row) ==> other == page
  }

  lemma PageUniqueIff(page: seq<Row>, heuristic: bool, who: set<nat>, row: nat -> Row)
    requires IsPage(page, heuristic, who, row)
    ensures OnlyPage(page, heuristic, who, row) <==> (forall u, v :: u in who && v in who && u != v ==> !UsersTie(row, u, v))
  {
    var s: seq<Row> :| OneRowEach(s, who, row) && Sorted(s) && page == Numbered(s, heuristic);
    NoTiesIff(s, who, row);
    if NoTies(s) {
      forall other | IsPage(other, heuristic, who, row) ensures other == page {
        var t: seq<Row> :| OneRowEach(t, who, row) && Sorted(t) && other == Numbered(t, heuristic);
        ListingsPermute(s, t, who, row);
        SortedIsUnique(s, t);
      }
    } else {
      OrderIsUniqueIff(s);
      var t: seq<Row> :| Sorted(t) && multiset(t) == multiset(s) && t != s;
      SortKeepsRows(s, t, who, row);
      ListingDiffers(s, t, heuristic);
      assert IsPage(Numbered(t, heuristic), heuristic, who, row);
    }
  }

  lemma ListingDiffers(s: seq<Row>, t: seq<Row>, heuristic: bool)
    requires s != t && multiset(s) == multiset(t)
    requires forall x, y :: x in s && y in s && x.user == y.user ==> x == y
    ensures Numbered(s, heuristic) != Numbered(t, heuristic)
  {
    assert |multiset(s)| == |multiset(t)|;
    var i :| 0 <= i < |s| && s[i] != t[i];
    assert t[i] in multiset(s) && s[i] in multiset(s);
    assert Numbered(s, heuristic)[i].user == s[i].user && Numbered(t, heuristic)[i].user == t[i].user;
  }

  /** The log gives both users the same total and the same instant of the last solve; if neither solved
      any contest problem, they also go by the same name. */
  ghost predicate ShareStanding(c: Contest, log: seq<Entry>, u: nat, v: nat) {
    && SolvedPoints(c, log, u, |c.problems|) == SolvedPoints(c, log, v, |c.problems|)
    && LastSolveFromLog(c, log, u) == LastSolveFromLog(c, log, v)
    && (LastSolveFromLog(c, log, u).None? ==> NameOf(c, u) == NameOf(c, v))
  }

  lemma TieOfWholeScores(a: Row, b: Row, x: nat, y: nat)
    requires a.score == x as real && b.score == y as real
    ensures Compare(a, b) == Equal <==> x == y && a.lastAc == b.lastAc && (a.lastAc.None? ==> a.username == b.username)
  {
    TieIff(a, b);
  }

  lemma TieFromLog(c: Contest, log: seq<Entry>, u: nat, v: nat)
    ensures UsersTie(ExactRows(c, log), u, v) <==> ShareStanding(c, log, u, v)
  {
    ExactSortKey(c, log, u);
    ExactSortKey(c, log, v);
    TieOfWholeScores(ExactRowFromLog(c, log, u), ExactRowFromLog(c, log, v),
                     SolvedPoints(c, log, u, |c.problems|), SolvedPoints(c, log, v, |c.problems|));
  }

  /** The exact page is fixed by the log exactly when no two users share both the total and the
      instant of the last solve; otherwise tied users may swap places between two requests. */
  lemma ExactPageUniqueIff(c: Contest, log: seq<Entry>, page: seq<Row>)
    requires ExactPage(c, log, page)
    ensures OnlyPage(page, false, Participants(FirstAcs(c.id, c.users, log)), ExactRows(c, log)) <==>
      forall u, v :: u in Participants(FirstAcs(c.id, c.users, log)) && v in Participants(FirstAcs(c.id, c.users, log)) && u != v ==>
        !ShareStanding(c, log, u, v)
  {
    var who := Participants(FirstAcs(c.id, c.users, log));
    PageUniqueIff(page, false, who, ExactRows(c, log));
    forall u, v ensures UsersTie(ExactRows(c, log), u, v) <==> ShareStanding(c, log, u, v) {
      TieFromLog(c, log, u, v);
    }
  }

  ghost predicate UniqueNames(users: map<nat, string>) {
    forall u, v :: u in users && v in users && u != v ==> users[u] != users[v]
  }

  /** User names are unique, so the whole heuristic page is a function of the log's entries. */
  lemma HeuristicPageDetermined(c: Contest, log: seq<Entry>, log': seq<Entry>, page: seq<Row>, page': seq<Row>)
    requires UniqueNames(c.users) && SameEntries(log, log')
    requires HeuristicPage(c, log, page) && HeuristicPage(c, log', page')
    ensures page == page'
  {
    QueriesIgnoreOrder(c.id, c.users, log, log');
    var who := Participants(BestScores(c.id, c.users, log));
    var row := HeuristicRows(c, log);
    var s: seq<Row> :| OneRowEach(s, who, HeuristicRows(c, log')) && Sorted(s) && page' == Numbered(s, true);
    assert OneRowEach(s, who, row);
    assert IsPage(page', true, who, row);
    forall u, v | u in who && v in who && u != v ensures !UsersTie(row, u, v) {
      ScorersAreUsers(c, log, u);
      ScorersAreUsers(c, log, v);
      TieIff(row(u), row(v));
    }
    PageUniqueIff(page, true, who, row);
  }

  lemma ScorersAreUsers(c: Contest, log: seq<Entry>, u: nat)
    requires u in Participants(BestScores(c.id, c.users, log))
    ensures u in c.users
  {
    var k :| k in BestScores(c.id, c.users, log) && k.user == u;
    BestScoresMeaning(c.id, c.users, log, u, k.problem);
  }

  /** Groups of a heuristic page: every row is within the tolerance of the first row with its rank,
      and each group starts more than the tolerance below the start of the group before. */
  lemma HeuristicPageGroups(c: Contest, log: seq<Entry>, page: seq<Row>, i: nat)
    requires HeuristicPage(c, log, page) && i < |page|
    ensures GroupedAt(page, i)
  {
    var who := Participants(BestScores(c.id, c.users, log));
    var s: seq<Row> :| OneRowEach(s, who, HeuristicRows(c, log)) && Sorted(s) && page == Numbered(s, true);
    NumberedGroups(s, i);
  }

  ghost predicate GroupedAt(page: seq<Row>, i: nat)
    requires i < |page|
  {
    && 1 <= page[i].rank <= i + 1
    && var first := page[page[i].rank - 1];
    && first.rank == page[i].rank
    && Close(page[i].score, first.score)
    && (i > 0 && page[i].rank != i + 1 ==> page[i].rank == page[i - 1].rank)
    && (i > 0 && page[i].rank == i + 1 ==>
          1 <= page[i - 1].rank <= i && page[page[i - 1].rank - 1].score - page[i].score > EPSILON)
  }

  lemma RankedAt(s: seq<Row>, i: nat)
    requires i < |s|
    ensures Numbered(s, true)[i].rank == Leader(s, true, i) + 1 && Numbered(s, true)[i].score == s[i].score
  {
  }

  lemma NumberedGroups(s: seq<Row>, i: nat)
    requires Sorted(s) && i < |s|
    ensures GroupedAt(Numbered(s, true), i)
  {
    HeuristicGroups(s, i);
    LeaderLeads(s, true, i);
    GroupsShow(s, i);
  }

  /** What is known of groups by index, read off the page. */
  lemma GroupsShow(s: seq<Row>, i: nat)
    requires i < |s| && Leader(s, true, Leader(s, true, i)) == Leader(s, true, i)
    requires Close(s[i].score, s[Leader(s, true, i)].score)
    requires i > 0 && Leader(s, true, i) == i ==> s[Leader(s, true, i - 1)].score - s[i].score > EPSILON
    ensures GroupedAt(Numbered(s, true), i)
  {
    RankedAt(s, i);
    RankedAt(s, Leader(s, true, i));
    if i > 0 {
      RankedAt(s, i - 1);
      RankedAt(s, Leader(s, true, i - 1));
    }
  }

  // ---- Heuristic ranks ------------------------------------------------------------------------------

  /** The users whose best scores add up to more than `score`. */
  function UsersAbove(c: Contest, log: seq<Entry>, score: real): set<nat> {
    set u | u in Participants(BestScores(c.id, c.users, log)) && BestTotal(c, log, u, |c.problems|) > score
  }

  lemma AheadIsAbove(c: Contest, log: seq<Entry>, k: Key)
    requires k.secs == None
    ensures UsersAhead(Participants(BestScores(c.id, c.users, log)), HeuristicRows(c, log), true, c.start, k) == UsersAbove(c, log, k.score)
  {
    forall u ensures HeuristicRowFromLog(c, log, u).score == BestTotal(c, log, u, |c.problems|) {
      HeuristicRowMeaning(c, log, u);
    }
  }

  /** The heuristic standings refine the log: one row for each user with a scored submission in the
      contest, holding that user's row; its rank is one more than the number of users strictly above
      the first row of its group. */
  lemma HeuristicPageRefinesLog(c: Contest, log: seq<Entry>, page: seq<Row>)
    requires HeuristicPage(c, log, page)
    ensures forall u :: u in Participants(BestScores(c.id, c.users, log)) <==> exists i :: 0 <= i < |page| && page[i].user == u
    ensures forall i, j :: 0 <= i < j < |page| ==> page[i].user != page[j].user
    ensures forall i: nat :: i < |page| ==> ReadsFromLog(c, log, page, i)
  {
    var who := Participants(BestScores(c.id, c.users, log));
    var s: seq<Row> :| OneRowEach(s, who, HeuristicRows(c, log)) && Sorted(s) && page == Numbered(s, true);
    NumberedUsers(s, true, who, HeuristicRows(c, log));
    forall i: nat | i < |page| ensures ReadsFromLog(c, log, page, i) {
      NumberedReads(c, log, s, i);
    }
  }

  /** Numbering changes neither who is listed nor where. */
  lemma NumberedUsers(s: seq<Row>, heuristic: bool, who: set<nat>, row: nat -> Row)
    requires OneRowEach(s, who, row)
    ensures var page := Numbered(s, heuristic);
            && (forall u :: u in who <==> exists i :: 0 <= i < |page| && page[i].user == u)
            && (forall i, j :: 0 <= i < j < |page| ==> page[i].user != page[j].user)
  {
    var page := Numbered(s, heuristic);
    assert forall i :: 0 <= i < |s| ==> page[i].user == s[i].user;
    forall u | u in who ensures exists i :: 0 <= i < |page| && page[i].user == u {
      var i :| 0 <= i < |s| && s[i].user == u;
      assert page[i].user == u;
    }
  }

  /** Row `i` is its user's, and its rank one more than the users above the row the rank points at. */
  ghost predicate ReadsFromLog(c: Contest, log: seq<Entry>, page: seq<Row>, i: nat)
    requires i < |page|
  {
    && 1 <= page[i].rank <= i + 1
    && page[i] == HeuristicRowFromLog(c, log, page[i].user).(rank := page[i].rank)
    && page[i].rank == 1 + |UsersAbove(c, log, page[page[i].rank - 1].score)|
  }

  lemma NumberedIsRow(s: seq<Row>, heuristic: bool, who: set<nat>, row: nat -> Row, i: nat)
    requires OneRowEach(s, who, row) && i < |s|
    ensures var r := Numbered(s, heuristic)[i];
            r.user == s[i].user && r == row(s[i].user).(rank := r.rank)
  {
  }

  lemma NumberedReads(c: Contest, log: seq<Entry>, s: seq<Row>, i: nat)
    requires OneRowEach(s, Participants(BestScores(c.id, c.users, log)), HeuristicRows(c, log)) && Sorted(s) && i < |s|
    ensures ReadsFromLog(c, log, Numbered(s, true), i)
  {
    NumberedAbove(c, log, s, i);
    RankedAt(s, i);
    RankedAt(s, Leader(s, true, i));
    NumberedIsRow(s, true, Participants(BestScores(c.id, c.users, log)), HeuristicRows(c, log), i);
  }

  lemma NumberedAbove(c: Contest, log: seq<Entry>, s: seq<Row>, i: nat)
    requires OneRowEach(s, Participants(BestScores(c.id, c.users, log)), HeuristicRows(c, log)) && Sorted(s) && i < |s|
    ensures Leader(s, true, i) == |UsersAbove(c, log, s[Leader(s, true, i)].score)|
    ensures |AheadOf(Keys(s, true, c.start), KeyOf(true, c.start, s[i]))| == |UsersAbove(c, log, s[i].score)|
  {
    var who := Participants(BestScores(c.id, c.users, log));
    var first := s[Leader(s, true, i)];
    GroupRankCounts(s, c.start, i);
    RowsAheadAreUsersAhead(s, who, HeuristicRows(c, log), true, c.start, KeyOf(true, c.start, first));
    RowsAheadAreUsersAhead(s, who, HeuristicRows(c, log), true, c.start, KeyOf(true, c.start, s[i]));
    AheadIsAbove(c, log, KeyOf(true, c.start, first));
    AheadIsAbove(c, log, KeyOf(true, c.start, s[i]));
  }

  /** The rank shown is one more than the number of users strictly above. */
  predicate RankedAbove(c: Contest, log: seq<Entry>, r: Row) {
    r.rank == 1 + |UsersAbove(c, log, r.score)|
  }

  ghost predicate RankedByUsersAbove(c: Contest, log: seq<Entry>, page: seq<Row>) {
    forall i: nat :: i < |page| ==> RankedAbove(c, log, page[i])
  }

  /** No two users' totals are different but within the tolerance. */
  ghost predicate TotalsApart(c: Contest, log: seq<Entry>) {
    forall u, v :: u in Participants(BestScores(c.id, c.users, log)) && v in Participants(BestScores(c.id, c.users, log)) ==>
      Apart(BestTotal(c, log, u, |c.problems|), BestTotal(c, log, v, |c.problems|))
  }

  /** A heuristic page shows competition ranks exactly when no two users' totals are different but
      within the tolerance. */
  lemma HeuristicPageRankedIff(c: Contest, log: seq<Entry>, page: seq<Row>)
    requires HeuristicPage(c, log, page)
    ensures RankedByUsersAbove(c, log, page) <==> TotalsApart(c, log)
  {
    var who := Participants(BestScores(c.id, c.users, log));
    var s: seq<Row> :| OneRowEach(s, who, HeuristicRows(c, log)) && Sorted(s) && page == Numbered(s, true);
    HeuristicRanksAreCompetitionRanksIff(s, c.start);
    NumberedRankedIff(c, log, s);
    SeparatedIff(c, log, s);
  }

  lemma NumberedRankedIff(c: Contest, log: seq<Entry>, s: seq<Row>)
    requires OneRowEach(s, Participants(BestScores(c.id, c.users, log)), HeuristicRows(c, log)) && Sorted(s)
    ensures RankedByUsersAbove(c, log, Numbered(s, true)) <==> CompetitionRanked(s, true, c.start)
  {
    forall i: nat | i < |s|
      ensures RankedAbove(c, log, Numbered(s, true)[i]) <==> CompetitionAt(s, true, c.start, i)
    {
      NumberedAbove(c, log, s, i);
      RankedAt(s, i);
    }
  }

  lemma SeparatedIff(c: Contest, log: seq<Entry>, s: seq<Row>)
    requires OneRowEach(s, Participants(BestScores(c.id, c.users, log)), HeuristicRows(c, log))
    ensures Separated(s) <==> TotalsApart(c, log)
  {
    var who := Participants(BestScores(c.id, c.users, log));
    forall i | 0 <= i < |s| ensures s[i].score == BestTotal(c, log, s[i].user, |c.problems|) {
      HeuristicRowMeaning(c, log, s[i].user);
    }
    if Separated(s) {
      forall u, v | u in who && v in who
        ensures Apart(BestTotal(c, log, u, |c.problems|), BestTotal(c, log, v, |c.problems|))
      {
        var i :| 0 <= i < |s| && s[i].user == u;
        var j :| 0 <= j < |s| && s[j].user == v;
        assert Apart(s[i].score, s[j].score);
      }
    }
  }
}
