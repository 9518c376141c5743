/** The standings page: from the grouped queries to numbered rows. */
module Standings {
  import opened Basics
  import opened Ranking
  import opened RankPass
  import opened SubmissionLog

  datatype Problem = Problem(problemLabel: string, id: string)

  /** `points` holds the scores of the problems that could be loaded. */
  datatype Contest = Contest(
    id: string,
    start: int,
    problems: seq<Problem>,
    points: map<string, nat>,
    users: map<nat, string>)

  // ---- Collecting the query rows per user ---------------------------------------------------

  datatype Grouped<T> = Grouped(user: nat, username: string, problem: string, value: T)

  /** A query result lists every group once, in any order, joined with the user's name. */
  ghost predicate ListsGroups<T(!new)>(rows: seq<Grouped<T>>, m: map<GroupKey, T>, users: map<nat, string>) {
    && (forall i :: 0 <= i < |rows| ==>
          var k := GroupKey(rows[i].user, rows[i].problem);
          k in m && rows[i].value == m[k] && rows[i].user in users && rows[i].username == users[rows[i].user])
    && (forall k :: k in m ==> exists i :: 0 <= i < |rows| && GroupKey(rows[i].user, rows[i].problem) == k)
  }

  datatype UserData<T> = UserData(username: string, values: map<string, T>)

  function Participants<T>(m: map<GroupKey, T>): set<nat> {
    set k | k in m :: k.user
  }

  /** What one user has in each problem. */
  function ValuesOf<T>(m: map<GroupKey, T>, u: nat): map<string, T> {
    map p | p in ProblemsOf(m, u) :: m[GroupKey(u, p)]
  }

  function ProblemsOf<T>(m: map<GroupKey, T>, u: nat): (ps: set<string>)
    ensures forall p :: p in ps <==> GroupKey(u, p) in m
  {
    var ps := set k | k in m && k.user == u :: k.problem;
    assert forall p :: GroupKey(u, p) in m ==> GroupKey(u, p).problem in ps;
    ps
  }

  /** Every user with something in `m`, by name and problem. */
  ghost function PerUser<T(!new)>(m: map<GroupKey, T>, users: map<nat, string>): map<nat, UserData<T>>
    requires Participants(m) <= users.Keys
  {
    map u | u in Participants(m) :: UserData(users[u], ValuesOf(m, u))
  }

  lemma ValuesOfGrows<T(!new)>(m: map<GroupKey, T>, k: GroupKey, v: T)
    ensures Participants(m[k := v]) == Participants(m) + {k.user}
    ensures forall u :: ValuesOf(m[k := v], u) == if u == k.user then ValuesOf(m, u)[k.problem := v] else ValuesOf(m, u)
    ensures k.user !in Participants(m) ==> ValuesOf(m, k.user) == map[]
  {
    ParticipantsGrow(m, k, v);
    forall u ensures ValuesOf(m[k := v], u) == if u == k.user then ValuesOf(m, u)[k.problem := v] else ValuesOf(m, u) {
      ValueAdded(m, k, v, u);
    }
  }

  lemma ValueAdded<T(!new)>(m: map<GroupKey, T>, k: GroupKey, v: T, u: nat)
    ensures ValuesOf(m[k := v], u) == if u == k.user then ValuesOf(m, u)[k.problem := v] else ValuesOf(m, u)
  {
  }

  lemma ParticipantsGrow<T(!new)>(m: map<GroupKey, T>, k: GroupKey, v: T)
    ensures Participants(m[k := v]) == Participants(m) + {k.user}
  {
    assert k in m[k := v];
    forall u | u in Participants(m) ensures u in Participants(m[k := v]) {
      var k' :| k' in m && k'.user == u;
      assert k' in m[k := v];
    }
  }

  function AddRow<T>(userMap: map<nat, UserData<T>>, r: Grouped<T>): map<nat, UserData<T>> {
    var data := if r.user in userMap then userMap[r.user] else UserData(r.username, map[]);
    userMap[r.user := data.(values := data.values[r.problem := r.value])]
  }

  lemma AddRowKeepsPerUser<T(!new)>(m: map<GroupKey, T>, users: map<nat, string>, r: Grouped<T>)
    requires Participants(m) <= users.Keys && r.user in users && users[r.user] == r.username
    ensures var m' := m[GroupKey(r.user, r.problem) := r.value];
            Participants(m') <= users.Keys && PerUser(m', users) == AddRow(PerUser(m, users), r)
  {
    ValuesOfGrows(m, GroupKey(r.user, r.problem), r.value);
  }

  /** The groups among the first `n` query rows. */
  ghost function Seen<T(!new)>(rows: seq<Grouped<T>>, n: nat): map<GroupKey, T>
    requires n <= |rows|
  {
    if n == 0 then map[] else Seen(rows, n - 1)[GroupKey(rows[n - 1].user, rows[n - 1].problem) := rows[n - 1].value]
  }

  lemma {:induction false} SeenSoFar<T(!new)>(rows: seq<Grouped<T>>, n: nat, m: map<GroupKey, T>, users: map<nat, string>)
    requires ListsGroups(rows, m, users) && n <= |rows|
    ensures forall k :: k in Seen(rows, n) ==> k in m && Seen(rows, n)[k] == m[k]
    ensures forall j :: 0 <= j < n ==> GroupKey(rows[j].user, rows[j].problem) in Seen(rows, n)
    ensures Participants(Seen(rows, n)) <= users.Keys
  {
    if n > 0 {
      SeenSoFar(rows, n - 1, m, users);
    }
  }

  lemma SeenAll<T(!new)>(rows: seq<Grouped<T>>, m: map<GroupKey, T>, users: map<nat, string>)
    requires ListsGroups(rows, m, users)
    ensures Seen(rows, |rows|) == m
  {
    SeenSoFar(rows, |rows|, m, users);
  }

  method Collect<T(!new)>(rows: seq<Grouped<T>>, ghost m: map<GroupKey, T>, ghost users: map<nat, string>)
    returns (userMap: map<nat, UserData<T>>)
    requires ListsGroups(rows, m, users)
    ensures Participants(m) <= users.Keys && userMap == PerUser(m, users)
  {
    userMap := map[];
    for i := 0 to |rows|
      invariant Participants(Seen(rows, i)) <= users.Keys && userMap == PerUser(Seen(rows, i), users)
    {
      AddRowKeepsPerUser(Seen(rows, i), users, rows[i]);
      userMap := AddRow(userMap, rows[i]);
    }
    SeenAll(rows, m, users);
  }

  // ---- One row of an exact contest -----------------------------------------------------------

  function PointsOf(c: Contest, p: string): nat {
    if p in c.points then c.points[p] else 0
  }

  /** Sum of the points of the contest problems that have a solve. */
  function TotalPoints(c: Contest, solved: map<string, int>, n: nat): nat
    requires n <= |c.problems|
  {
    if n == 0 then 0
    else
      var p := c.problems[n - 1].id;
      TotalPoints(c, solved, n - 1) + if p in solved then PointsOf(c, p) else 0
  }

  /** Latest of the first solves of the contest problems. */
  function LastSolve(c: Contest, solved: map<string, int>, n: nat): (t: Option<int>)
    requires n <= |c.problems|
  {
    if n == 0 then None
    else
      var p, prev := c.problems[n - 1].id, LastSolve(c, solved, n - 1);
      if p !in solved then prev
      else if prev.None? then Some(solved[p])
      else Some(MaxInt(prev.value, solved[p]))
  }

  /** Absent exactly when nothing is solved; else attained, and never earlier than any of them. */
  lemma {:induction false} LastSolveIsLatest(c: Contest, solved: map<string, int>, n: nat)
    requires n <= |c.problems|
    ensures var t := LastSolve(c, solved, n);
            && (t.None? <==> forall i :: 0 <= i < n ==> c.problems[i].id !in solved)
            && (t.Some? ==> exists i :: 0 <= i < n && c.problems[i].id in solved && solved[c.problems[i].id] == t.value)
            && (forall i :: 0 <= i < n && c.problems[i].id in solved ==> t.Some? && solved[c.problems[i].id] <= t.value)
  {
    if n > 0 {
      LastSolveIsLatest(c, solved, n - 1);
      assert c.problems[n - 1].id in solved ==> LastSolve(c, solved, n).Some?;
    }
  }

  function ExactCell(c: Contest, solved: map<string, int>, p: Problem): Cell {
    if p.id in solved then
      Cell(p.problemLabel, Some(FmtElapsed(ElapsedSeconds(c.start, solved[p.id]))), Points(PointsOf(c, p.id)), true)
    else
      Cell(p.problemLabel, None, Blank, false)
  }

  function ExactRow(c: Contest, u: nat, username: string, solved: map<string, int>): Row {
    var last := LastSolve(c, solved, |c.problems|);
    Row(u, username, TotalPoints(c, solved, |c.problems|) as real, last, ShownTime(c.start, last),
        ExactCells(c, solved, |c.problems|), 0)
  }

  function ExactCells(c: Contest, solved: map<string, int>, n: nat): (cells: seq<Cell>)
    requires n <= |c.problems|
    ensures |cells| == n
  {
    if n == 0 then [] else ExactCells(c, solved, n - 1) + [ExactCell(c, solved, c.problems[n - 1])]
  }

  lemma {:induction false} CellsInOrder(c: Contest, solved: map<string, int>, n: nat)
    requires n <= |c.problems|
    ensures forall i :: 0 <= i < n ==> ExactCells(c, solved, n)[i] == ExactCell(c, solved, c.problems[i])
  {
    if n > 0 {
      CellsInOrder(c, solved, n - 1);
    }
  }

  method BuildExactRow(c: Contest, u: nat, data: UserData<int>) returns (row: Row)
    ensures row == ExactRow(c, u, data.username, data.values)
  {
    var solved := data.values;
    var total: nat := 0;
    var last: Option<int> := None;
    var cells: seq<Cell> := [];
    for i := 0 to |c.problems|
      invariant total == TotalPoints(c, solved, i)
      invariant last == LastSolve(c, solved, i)
      invariant cells == ExactCells(c, solved, i)
    {
      var p := c.problems[i];
      var score := PointsOf(c, p.id);
      if p.id in solved {
        total := total + score;
        last := Some(if last.None? then solved[p.id] else MaxInt(last.value, solved[p.id]));
        cells := cells + [Cell(p.problemLabel, Some(FmtElapsed(ElapsedSeconds(c.start, solved[p.id]))), Points(score), true)];
      } else {
        cells := cells + [Cell(p.problemLabel, None, Blank, false)];
      }
    }
    row := Row(u, data.username, total as real, last, ShownTime(c.start, last), cells, 0);
  }

  // ---- One row of a heuristic contest ----------------------------------------------------------

  /** Sum of the best scores over the contest problems that have one. */
  function TotalBest(c: Contest, scores: map<string, real>, n: nat): real
    requires n <= |c.problems|
  {
    if n == 0 then 0.0
    else
      var p := c.problems[n - 1].id;
      TotalBest(c, scores, n - 1) + if p in scores then scores[p] else 0.0
  }

  function HeuristicCell(scores: map<string, real>, p: Problem): Cell {
    if p.id in scores then Cell(p.problemLabel, None, Best(scores[p.id]), true)
    else Cell(p.problemLabel, None, Blank, false)
  }

  function HeuristicRow(c: Contest, u: nat, username: string, scores: map<string, real>): Row {
    Row(u, username, TotalBest(c, scores, |c.problems|), None, None,
        HeuristicCells(c, scores, |c.problems|), 0)
  }

  function HeuristicCells(c: Contest, scores: map<string, real>, n: nat): (cells: seq<Cell>)
    requires n <= |c.problems|
    ensures |cells| == n && forall i :: 0 <= i < n ==> cells[i] == HeuristicCell(scores, c.problems[i])
  {
    if n == 0 then [] else HeuristicCells(c, scores, n - 1) + [HeuristicCell(scores, c.problems[n - 1])]
  }

  method BuildHeuristicRow(c: Contest, u: nat, data: UserData<real>) returns (row: Row)
    ensures row == HeuristicRow(c, u, data.username, data.values)
  {
    var scores := data.values;
    var total := 0.0;
    var cells: seq<Cell> := [];
    for i := 0 to |c.problems|
      invariant total == TotalBest(c, scores, i)
      invariant cells == HeuristicCells(c, scores, i)
    {
      var p := c.problems[i];
      if p.id in scores {
        total := total + scores[p.id];
        cells := cells + [Cell(p.problemLabel, None, Best(scores[p.id]), true)];
      } else {
        cells := cells + [Cell(p.problemLabel, None, Blank, false)];
      }
    }
    row := Row(u, data.username, total, None, None, cells, 0);
  }

  // ---- The page ----------------------------------------------------------------------------------

  /** `s` has exactly one row for each user in `who`, the one `row` prescribes. */
  ghost predicate OneRowEach(s: seq<Row>, who: set<nat>, row: nat -> Row) {
    && (forall i :: 0 <= i < |s| ==> s[i].user in who && s[i] == row(s[i].user))
    && (forall i, j :: 0 <= i < j < |s| ==> s[i].user != s[j].user)
    && (forall u :: u in who ==> exists i :: 0 <= i < |s| && s[i].user == u)
  }

  function NameOf(c: Contest, u: nat): string {
    if u in c.users then c.users[u] else ""
  }

  /** The row of a user as the log determines it, before numbering. */
  function ExactRowFromLog(c: Contest, log: seq<Entry>, u: nat): Row {
    ExactRow(c, u, NameOf(c, u), ValuesOf(FirstAcs(c.id, c.users, log), u))
  }

  function HeuristicRowFromLog(c: Contest, log: seq<Entry>, u: nat): Row {
    HeuristicRow(c, u, NameOf(c, u), ValuesOf(BestScores(c.id, c.users, log), u))
  }

  /** A page some run of the handler can produce: its rows sorted and numbered. */
  ghost predicate IsPage(page: seq<Row>, heuristic: bool, who: set<nat>, row: nat -> Row) {
    exists s :: OneRowEach(s, who, row) && Sorted(s) && page == Numbered(s, heuristic)
  }

  ghost function ExactRows(c: Contest, log: seq<Entry>): nat -> Row {
    (u: nat) => ExactRowFromLog(c, log, u)
  }

  ghost function HeuristicRows(c: Contest, log: seq<Entry>): nat -> Row {
    (u: nat) => HeuristicRowFromLog(c, log, u)
  }

  ghost predicate ExactPage(c: Contest, log: seq<Entry>, page: seq<Row>) {
    IsPage(page, false, Participants(FirstAcs(c.id, c.users, log)), ExactRows(c, log))
  }

  ghost predicate HeuristicPage(c: Contest, log: seq<Entry>, page: seq<Row>) {
    IsPage(page, true, Participants(BestScores(c.id, c.users, log)), HeuristicRows(c, log))
  }

  /** Sort the collected rows and number them in place. */
  method SortAndNumber(rows: seq<Row>, heuristic: bool, ghost who: set<nat>, ghost row: nat -> Row)
    returns (page: seq<Row>)
    requires OneRowEach(rows, who, row)
    ensures IsPage(page, heuristic, who, row)
  {
    var s := Sort(rows);
    SortSorts(rows);
    SortKeepsRows(rows, s, who, row);
    var a := new Row[|s|](i requires 0 <= i < |s| => s[i]);
    assert a[..] == s;
    AssignRanks(a, heuristic);
    page := a[..];
  }

  lemma SortKeepsRows(s: seq<Row>, t: seq<Row>, who: set<nat>, row: nat -> Row)
    requires OneRowEach(s, who, row) && multiset(s) == multiset(t)
    ensures OneRowEach(t, who, row)
  {
    forall i | 0 <= i < |t| ensures t[i].user in who && t[i] == row(t[i].user) {
      assert t[i] in multiset(s);
    }
    forall i, j | 0 <= i < j < |t| ensures t[i].user != t[j].user {
      if t[i] == t[j] {
        TwiceInMultiset(t, i, j);
        OnceInMultiset(s, t[i]);
      }
    }
    forall u | u in who ensures exists i :: 0 <= i < |t| && t[i].user == u {
      var i :| 0 <= i < |s| && s[i].user == u;
      assert s[i] in multiset(t);
    }
  }

  lemma TwiceInMultiset(t: seq<Row>, i: nat, j: nat)
    requires i < j < |t| && t[i] == t[j]
    ensures multiset(t)[t[i]] >= 2
  {
    assert t == t[..i] + [t[i]] + t[i + 1..j] + [t[j]] + t[j + 1..];
  }

  lemma {:induction false} OnceInMultiset(s: seq<Row>, x: Row)
    requires forall i, j :: 0 <= i < j < |s| ==> s[i] != s[j]
    ensures multiset(s)[x] <= 1
  {
    if s != [] {
      assert s == [s[0]] + s[1..];
      OnceInMultiset(s[1..], x);
    }
  }

  lemma AppendRow(s: seq<Row>, who: set<nat>, row: nat -> Row, u: nat)
    requires OneRowEach(s, who, row) && u !in who && row(u).user == u
    ensures OneRowEach(s + [row(u)], who + {u}, row)
  {
    var t := s + [row(u)];
    forall v | v in who + {u} ensures exists i :: 0 <= i < |t| && t[i].user == v {
      if v in who {
        var i :| 0 <= i < |s| && s[i].user == v;
        assert t[i].user == v;
      } else {
        assert t[|s|].user == v;
      }
    }
  }

  /** One row per user, the users visited in an arbitrary order, as hash-map values are. */
  method BuildExactRows(c: Contest, userMap: map<nat, UserData<int>>, ghost row: nat -> Row) returns (rows: seq<Row>)
    requires forall u :: u in userMap ==> row(u) == ExactRow(c, u, userMap[u].username, userMap[u].values)
    ensures OneRowEach(rows, userMap.Keys, row)
  {
    rows := [];
    var left := userMap.Keys;
    while left != {}
      invariant left <= userMap.Keys
      invariant OneRowEach(rows, userMap.Keys - left, row)
    {
      var u :| u in left;
      var r := BuildExactRow(c, u, userMap[u]);
      AppendRow(rows, userMap.Keys - left, row, u);
      rows := rows + [r];
      assert userMap.Keys - left + {u} == userMap.Keys - (left - {u});
      left := left - {u};
    }
    assert userMap.Keys - left == userMap.Keys;
  }

  lemma ExactRowsFit(c: Contest, log: seq<Entry>)
    requires Participants(FirstAcs(c.id, c.users, log)) <= c.users.Keys
    ensures var (m, row) := (PerUser(FirstAcs(c.id, c.users, log), c.users), ExactRows(c, log));
            m.Keys == Participants(FirstAcs(c.id, c.users, log))
            && forall u :: u in m ==> row(u) == ExactRow(c, u, m[u].username, m[u].values)
  {
  }

  method ExactStandings(c: Contest, firstAcs: seq<Grouped<int>>, ghost log: seq<Entry>) returns (page: seq<Row>)
    requires ListsGroups(firstAcs, FirstAcs(c.id, c.users, log), c.users)
    ensures ExactPage(c, log, page)
  {
    ghost var m := FirstAcs(c.id, c.users, log);
    var userMap := Collect(firstAcs, m, c.users);
    ExactRowsFit(c, log);
    var rows := BuildExactRows(c, userMap, ExactRows(c, log));
    assert userMap.Keys == Participants(m);
    page := SortAndNumber(rows, false, Participants(m), ExactRows(c, log));
  }

  method BuildHeuristicRows(c: Contest, userMap: map<nat, UserData<real>>, ghost row: nat -> Row) returns (rows: seq<Row>)
    requires forall u :: u in userMap ==> row(u) == HeuristicRow(c, u, userMap[u].username, userMap[u].values)
    ensures OneRowEach(rows, userMap.Keys, row)
  {
    rows := [];
    var left := userMap.Keys;
    while left != {}
      invariant left <= userMap.Keys
      invariant OneRowEach(rows, userMap.Keys - left, row)
    {
      var u :| u in left;
      var r := BuildHeuristicRow(c, u, userMap[u]);
      AppendRow(rows, userMap.Keys - left, row, u);
      rows := rows + [r];
      assert userMap.Keys - left + {u} == userMap.Keys - (left - {u});
      left := left - {u};
    }
    assert userMap.Keys - left == userMap.Keys;
  }

  lemma HeuristicRowsFit(c: Contest, log: seq<Entry>)
    requires Participants(BestScores(c.id, c.users, log)) <= c.users.Keys
    ensures var (m, row) := (PerUser(BestScores(c.id, c.users, log), c.users), HeuristicRows(c, log));
            m.Keys == Participants(BestScores(c.id, c.users, log))
            && forall u :: u in m ==> row(u) == HeuristicRow(c, u, m[u].username, m[u].values)
  {
  }

  method HeuristicStandings(c: Contest, bestScores: seq<Grouped<real>>, ghost log: seq<Entry>) returns (page: seq<Row>)
    requires ListsGroups(bestScores, BestScores(c.id, c.users, log), c.users)
    ensures HeuristicPage(c, log, page)
  {
    ghost var m := BestScores(c.id, c.users, log);
    var userMap := Collect(bestScores, m, c.users);
    HeuristicRowsFit(c, log);
    var rows := BuildHeuristicRows(c, userMap, HeuristicRows(c, log));
    assert userMap.Keys == Participants(m);
    page := SortAndNumber(rows, true, Participants(m), HeuristicRows(c, log));
  }
}
