/** Logs on which ranks or the order of a page are not what one would expect, in every contest with one
    problem and at least two users. */
module StandingsExamples {
  import opened Basics
  import opened Ranking
  import opened RankPass
  import opened SubmissionLog
  import opened Standings
  import opened StandingsProperties

  predicate IsDuel(c: Contest, u: nat, v: nat) {
    |c.problems| == 1 && u in c.users && v in c.users && u != v
  }

  lemma TwoRows(r: Row, q: Row, who: set<nat>, row: nat -> Row)
    requires who == {r.user, q.user} && r.user != q.user && row(r.user) == r && row(q.user) == q
    ensures OneRowEach([r, q], who, row)
  {
    assert [r, q][0].user == r.user && [r, q][1].user == q.user;
  }

  lemma TwoRowPage(r: Row, q: Row, who: set<nat>, row: nat -> Row, heuristic: bool) returns (page: seq<Row>)
    requires who == {r.user, q.user} && r.user != q.user && row(r.user) == r && row(q.user) == q && Sorted([r, q])
    ensures IsPage(page, heuristic, who, row) && page == Numbered([r, q], heuristic)
    ensures page[0].user == r.user && page[1].user == q.user
  {
    TwoRows(r, q, who, row);
    page := Numbered([r, q], heuristic);
  }

  // ---- Two accepted at the same instant ----------------------------------------------------------------

  function AcceptedBy(c: Contest, u: nat, at: int): Entry
    requires |c.problems| == 1
  {
    Entry(Some(u), Some(c.id), c.problems[0].id, "accepted", at, None)
  }

  function PhotoFinish(c: Contest, u: nat, v: nat, at: int): seq<Entry>
    requires IsDuel(c, u, v)
  {
    [AcceptedBy(c, u, at), AcceptedBy(c, v, at)]
  }

  lemma LastEntrySolves(c: Contest, v: nat, at: int, u: nat)
    requires |c.problems| == 1 && v in c.users
    ensures FirstSolve(c, [AcceptedBy(c, v, at)], u, c.problems[0].id) == if u == v then Some(at) else None
  {
    assert FirstSolve(c, [AcceptedBy(c, v, at)][1..], u, c.problems[0].id) == None;
  }

  lemma PhotoSolves(c: Contest, u: nat, v: nat, at: int)
    requires IsDuel(c, u, v)
    ensures var (log, p) := (PhotoFinish(c, u, v, at), c.problems[0].id);
            FirstSolve(c, log, u, p) == Some(at) && FirstSolve(c, log, v, p) == Some(at)
  {
    var log := PhotoFinish(c, u, v, at);
    assert log[1..] == [AcceptedBy(c, v, at)];
    LastEntrySolves(c, v, at, u);
    LastEntrySolves(c, v, at, v);
  }

  lemma PhotoParticipants(c: Contest, u: nat, v: nat, at: int)
    requires IsDuel(c, u, v)
    ensures Participants(FirstAcs(c.id, c.users, PhotoFinish(c, u, v, at))) == {u, v}
  {
    var (log, p) := (PhotoFinish(c, u, v, at), c.problems[0].id);
    var m := FirstAcs(c.id, c.users, log);
    PhotoSolves(c, u, v, at);
    FirstAcsReadsLog(c, log, u, p);
    FirstAcsReadsLog(c, log, v, p);
    assert GroupKey(u, p) in m && GroupKey(v, p) in m;
    forall k | k in m ensures k.user in {u, v} {
      FirstAcsMeaning(c.id, c.users, log, k.user, k.problem);
    }
  }

  lemma PhotoTies(c: Contest, u: nat, v: nat, at: int)
    requires IsDuel(c, u, v)
    ensures ShareStanding(c, PhotoFinish(c, u, v, at), u, v)
  {
    var log := PhotoFinish(c, u, v, at);
    PhotoSolves(c, u, v, at);
    assert SolvedPoints(c, log, u, 0) == SolvedPoints(c, log, v, 0);
    assert c.problems == [c.problems[0]];
    LastSolveIsUnique(c, log, u, LastSolveFromLog(c, log, u), Some(at));
    LastSolveIsUnique(c, log, v, LastSolveFromLog(c, log, v), Some(at));
  }

  lemma TiedPair(r: Row, q: Row)
    requires Compare(r, q) == Equal
    ensures Sorted([r, q])
  {
  }

  lemma TiedPage(c: Contest, log: seq<Entry>, u: nat, v: nat) returns (page: seq<Row>)
    requires Participants(FirstAcs(c.id, c.users, log)) == {u, v} && u != v && ShareStanding(c, log, u, v)
    ensures ExactPage(c, log, page) && |page| == 2 && page[0].user == u && page[1].user == v
  {
    var (r, q) := (ExactRowFromLog(c, log, u), ExactRowFromLog(c, log, v));
    TieFromLog(c, log, u, v);
    TiedPair(r, q);
    page := TwoRowPage(r, q, {u, v}, ExactRows(c, log), false);
  }

  lemma TiedPages(c: Contest, log: seq<Entry>, u: nat, v: nat) returns (page: seq<Row>, other: seq<Row>)
    requires Participants(FirstAcs(c.id, c.users, log)) == {u, v} && u != v && ShareStanding(c, log, u, v)
    ensures ExactPage(c, log, page) && ExactPage(c, log, other)
    ensures |page| == |other| == 2 && page[0].user == other[1].user == u && page[1].user == other[0].user == v
  {
    assert {u, v} == {v, u} && ShareStanding(c, log, v, u);
    page := TiedPage(c, log, u, v);
    other := TiedPage(c, log, v, u);
  }

  /** Two users accepted at one instant: the page may list either of them first. */
  lemma SameInstantSwaps(c: Contest, u: nat, v: nat, at: int) returns (page: seq<Row>, other: seq<Row>)
    requires IsDuel(c, u, v)
    ensures ExactPage(c, PhotoFinish(c, u, v, at), page) && ExactPage(c, PhotoFinish(c, u, v, at), other)
    ensures |page| == |other| == 2 && page[0].user == other[1].user == u && page[1].user == other[0].user == v
  {
    PhotoParticipants(c, u, v, at);
    PhotoTies(c, u, v, at);
    page, other := TiedPages(c, PhotoFinish(c, u, v, at), u, v);
  }

  // ---- Two scores next to each other -------------------------------------------------------------------

  function ScoredBy(c: Contest, u: nat, score: real): Entry
    requires |c.problems| == 1
  {
    Entry(Some(u), Some(c.id), c.problems[0].id, "scored", 0, Some(score))
  }

  /** The score 1, and the next larger `f64`. */
  function Neighbours(c: Contest, u: nat, v: nat): seq<Entry>
    requires IsDuel(c, u, v)
  {
    [ScoredBy(c, u, 1.0), ScoredBy(c, v, 1.0 + EPSILON)]
  }

  lemma LastEntryScores(c: Contest, v: nat, score: real, u: nat)
    requires |c.problems| == 1 && v in c.users
    ensures BestScore(c, [ScoredBy(c, v, score)], u, c.problems[0].id) == if u == v then Some(score) else None
  {
    assert BestScore(c, [ScoredBy(c, v, score)][1..], u, c.problems[0].id) == None;
  }

  lemma NeighbourScores(c: Contest, u: nat, v: nat)
    requires IsDuel(c, u, v)
    ensures BestTotal(c, Neighbours(c, u, v), u, 1) == 1.0 && BestTotal(c, Neighbours(c, u, v), v, 1) == 1.0 + EPSILON
    ensures var (log, p) := (Neighbours(c, u, v), c.problems[0].id);
            BestScore(c, log, u, p).Some? && BestScore(c, log, v, p).Some?
  {
    var (log, p) := (Neighbours(c, u, v), c.problems[0].id);
    assert log[1..] == [ScoredBy(c, v, 1.0 + EPSILON)];
    LastEntryScores(c, v, 1.0 + EPSILON, u);
    LastEntryScores(c, v, 1.0 + EPSILON, v);
    assert BestScore(c, log, u, p) == Some(1.0) && BestScore(c, log, v, p) == Some(1.0 + EPSILON);
    assert BestTotal(c, log, u, 0) == 0.0 && BestTotal(c, log, v, 0) == 0.0;
  }

  lemma NeighbourParticipants(c: Contest, u: nat, v: nat)
    requires IsDuel(c, u, v)
    ensures Participants(BestScores(c.id, c.users, Neighbours(c, u, v))) == {u, v}
  {
    var (log, p) := (Neighbours(c, u, v), c.problems[0].id);
    var m := BestScores(c.id, c.users, log);
    NeighbourScores(c, u, v);
    BestScoresReadsLog(c, log, u, p);
    BestScoresReadsLog(c, log, v, p);
    assert GroupKey(u, p) in m && GroupKey(v, p) in m;
    forall k | k in m ensures k.user in {u, v} {
      BestScoresMeaning(c.id, c.users, log, k.user, k.problem);
    }
  }

  /** Two users whose scores are neighbouring numbers share rank 1: the page is not ranked by how many
      users are above. */
  lemma NeighboursShareRank(c: Contest, u: nat, v: nat) returns (page: seq<Row>)
    requires IsDuel(c, u, v)
    ensures HeuristicPage(c, Neighbours(c, u, v), page) && |page| == 2
    ensures page[0].user == v && page[0].score > page[1].score && page[0].rank == page[1].rank == 1
    ensures !RankedByUsersAbove(c, Neighbours(c, u, v), page)
  {
    var log := Neighbours(c, u, v);
    var (r, q) := (HeuristicRowFromLog(c, log, v), HeuristicRowFromLog(c, log, u));
    NeighbourScores(c, u, v);
    NeighbourParticipants(c, u, v);
    HeuristicRowMeaning(c, log, u);
    HeuristicRowMeaning(c, log, v);
    ClosePair(r, q);
    page := TwoRowPage(r, q, {u, v}, HeuristicRows(c, log), true);
    HeuristicPageRankedIff(c, log, page);
    assert !Apart(BestTotal(c, log, u, 1), BestTotal(c, log, v, 1));
  }

  lemma ClosePair(r: Row, q: Row)
    requires r.score > q.score && Close(q.score, r.score)
    ensures Sorted([r, q]) && Ranked([r, q], true, 0).rank == Ranked([r, q], true, 1).rank == 1
  {
    assert Leader([r, q], true, 0) == 0;
    assert Leader([r, q], true, 1) == 0;
  }
}
