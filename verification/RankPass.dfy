/** The single pass that numbers sorted rows, and the competition ranking it computes. */
module RankPass {
  import opened Basics
  import opened Decimal
  import opened Ranking

  /** `f64::EPSILON`, two to the power of minus 52. */
  const EPSILON: real := 1.0 / 4503599627370496.0

  function Abs(x: real): real {
    if x < 0.0 then -x else x
  }

  predicate Close(a: real, b: real) {
    Abs(a - b) <= EPSILON
  }

  /** Within two to the power of minus 52. */
  lemma CloseIff(a: real, b: real)
    ensures Close(a, b) <==> -1.0 <= (a - b) * 4503599627370496.0 <= 1.0
  {
  }

  /** Row `r` shares the rank of the group that `first` opened. */
  predicate Joins(heuristic: bool, first: Row, r: Row) {
    Close(r.score, first.score) && (heuristic || r.elapsed == first.elapsed)
  }

  /** Index of the row that opened the group row `i` belongs to. */
  function Leader(s: seq<Row>, heuristic: bool, i: nat): (k: nat)
    requires i < |s|
    ensures k <= i
  {
    if i == 0 then 0
    else
      var k := Leader(s, heuristic, i - 1);
      if Joins(heuristic, s[k], s[i]) then k else i
  }

  /** Row `i` with its rank filled in. */
  function Ranked(s: seq<Row>, heuristic: bool, i: nat): Row
    requires i < |s|
  {
    s[i].(rank := Leader(s, heuristic, i) + 1)
  }

  /** What the rank loop remembers before row `i`: the group that row `i - 1` belongs to. */
  ghost predicate Remembers(s: seq<Row>, heuristic: bool, i: nat, score: Option<real>, elapsed: Option<string>, rank: nat)
    requires i <= |s|
  {
    if i == 0 then score == None
    else
      var k := Leader(s, heuristic, i - 1);
      score == Some(s[k].score) && elapsed == s[k].elapsed && rank == k + 1
  }

  lemma OpensGroupIff(s: seq<Row>, heuristic: bool, i: nat, score: Option<real>, elapsed: Option<string>, rank: nat)
    requires i < |s| && Remembers(s, heuristic, i, score, elapsed, rank)
    ensures var sameScore := score.Some? && Close(s[i].score, score.value);
            if !sameScore || (!heuristic && s[i].elapsed != elapsed) then
              Leader(s, heuristic, i) == i && Remembers(s, heuristic, i + 1, Some(s[i].score), s[i].elapsed, i + 1)
            else Leader(s, heuristic, i) + 1 == rank && Remembers(s, heuristic, i + 1, score, elapsed, rank)
  {
  }

  /** The rows with all their ranks filled in. */
  function Numbered(s: seq<Row>, heuristic: bool): (r: seq<Row>)
    ensures |r| == |s|
  {
    seq(|s|, i requires 0 <= i < |s| => Ranked(s, heuristic, i))
  }

  /** The rows once the first `n` of them are numbered. */
  function RankedUpTo(s: seq<Row>, heuristic: bool, n: nat): (r: seq<Row>)
    requires n <= |s|
    ensures |r| == |s|
  {
    seq(|s|, i requires 0 <= i < |s| => if i < n then Ranked(s, heuristic, i) else s[i])
  }

  lemma RankOneMore(s: seq<Row>, heuristic: bool, n: nat)
    requires n < |s|
    ensures RankedUpTo(s, heuristic, n)[n] == s[n]
    ensures RankedUpTo(s, heuristic, n)[n := Ranked(s, heuristic, n)] == RankedUpTo(s, heuristic, n + 1)
  {
  }

  lemma RankedFromTo(s: seq<Row>, heuristic: bool)
    ensures RankedUpTo(s, heuristic, 0) == s && RankedUpTo(s, heuristic, |s|) == Numbered(s, heuristic)
  {
  }

  /** One round of the rank loop: whether row `r` opens a group, and the rank it gets. */
  method NextGroup(r: Row, i: nat, heuristic: bool, prevScore: Option<real>, prevElapsed: Option<string>, currentRank: nat, ghost s: seq<Row>)
    returns (score: Option<real>, elapsed: Option<string>, rank: nat)
    requires i < |s| && r == s[i] && Remembers(s, heuristic, i, prevScore, prevElapsed, currentRank)
    ensures Remembers(s, heuristic, i + 1, score, elapsed, rank) && r.(rank := rank) == Ranked(s, heuristic, i)
  {
    OpensGroupIff(s, heuristic, i, prevScore, prevElapsed, currentRank);
    score, elapsed, rank := prevScore, prevElapsed, currentRank;
    var sameScore := prevScore.Some? && Close(r.score, prevScore.value);
    if !sameScore || (!heuristic && r.elapsed != prevElapsed) {
      rank := i + 1;
      score := Some(r.score);
      elapsed := r.elapsed;
    }
  }

  /** The rank loop of the standings page, writing into the rows it walks over. */
  method AssignRanks(rows: array<Row>, heuristic: bool)
    modifies rows
    ensures rows[..] == Numbered(old(rows[..]), heuristic)
  {
    var prevScore: Option<real> := None;
    var prevElapsed: Option<string> := None;
    var currentRank: nat := 0;
    ghost var s := rows[..];
    RankedFromTo(s, heuristic);
    for i := 0 to rows.Length
      invariant rows[..] == RankedUpTo(s, heuristic, i)
      invariant Remembers(s, heuristic, i, prevScore, prevElapsed, currentRank)
    {
      RankOneMore(s, heuristic, i);
      var r := rows[i];
      ghost var before := rows[..];
      assert r == before[i] == s[i];
      prevScore, prevElapsed, currentRank := NextGroup(r, i, heuristic, prevScore, prevElapsed, currentRank, s);
      rows[i] := r.(rank := currentRank);
      assert rows[..] == before[i := Ranked(s, heuristic, i)];
    }
  }

  // ---- Competition ranking -----------------------------------------------------------------

  /** What rows are ranked by: points and, in an exact contest, the whole second of the last solve. */
  datatype Key = Key(score: real, secs: Option<nat>)

  function KeyOf(heuristic: bool, start: int, r: Row): Key {
    Key(r.score, if heuristic then None else Seconds(start, r.lastAc))
  }

  function Seconds(start: int, at: Option<int>): Option<nat> {
    if at.None? then None else Some(ElapsedSeconds(start, at.value))
  }

  /** More points, or the same points and an earlier second; no solve at all comes last. */
  predicate Ahead(a: Key, b: Key) {
    a.score > b.score || (a.score == b.score && a.secs.Some? && (b.secs.None? || a.secs.value < b.secs.value))
  }

  function Keys(s: seq<Row>, heuristic: bool, start: int): (ks: seq<Key>)
    ensures |ks| == |s|
  {
    seq(|s|, i requires 0 <= i < |s| => KeyOf(heuristic, start, s[i]))
  }

  /** No key is ahead of an earlier one. */
  ghost predicate Descending(ks: seq<Key>) {
    forall i, j :: 0 <= i < j < |ks| ==> !Ahead(ks[j], ks[i])
  }

  function AheadOf(ks: seq<Key>, k: Key): set<nat> {
    set j: nat | j < |ks| && Ahead(ks[j], k)
  }

  /** First index of the run of equal keys that ends at `i`. */
  function RunStart(ks: seq<Key>, i: nat): (k: nat)
    requires i < |ks|
    ensures k <= i && ks[k] == ks[i]
  {
    if i > 0 && ks[i - 1] == ks[i] then RunStart(ks, i - 1) else i
  }

  lemma {:induction false} RunStartSplits(ks: seq<Key>, i: nat, j: nat)
    requires Descending(ks) && i < |ks| && j < |ks|
    ensures Ahead(ks[j], ks[i]) <==> j < RunStart(ks, i)
  {
    if i > 0 && ks[i - 1] == ks[i] {
      RunStartSplits(ks, i - 1, j);
    } else if j < i {
      assert !Ahead(ks[i], ks[i - 1]);
      assert !Ahead(ks[i - 1], ks[j]) || j == i - 1;
    }
  }

  lemma RunStartCounts(ks: seq<Key>, i: nat)
    requires Descending(ks) && i < |ks|
    ensures RunStart(ks, i) == |AheadOf(ks, ks[i])|
  {
    forall j: nat | j < |ks| ensures Ahead(ks[j], ks[i]) <==> j < RunStart(ks, i) {
      RunStartSplits(ks, i, j);
    }
    assert AheadOf(ks, ks[i]) == Below(RunStart(ks, i));
  }

  // ---- The rank pass computes it -------------------------------------------------------------

  /** The displayed time is the last solve, formatted. */
  ghost predicate ElapsedShown(s: seq<Row>, start: int) {
    forall i :: 0 <= i < |s| ==> s[i].elapsed == ShownTime(start, s[i].lastAc)
  }

  function ShownTime(start: int, at: Option<int>): Option<string> {
    if at.None? then None else Some(FmtElapsed(ElapsedSeconds(start, at.value)))
  }

  /** What is shown reads as the whole seconds from the start to the last solve. */
  lemma ShownTimeReads(start: int, at: int) returns (text: string, h: string, m: string, s: string)
    ensures ShownTime(start, Some(at)) == Some(text) && IsClock(text, h, m, s) && ShownTime(start, None) == None
    ensures Parse(m) < 60 && Parse(s) < 60 && (h[0] == '0' ==> h == "0")
    ensures var secs := 3600 * Parse(h) + 60 * Parse(m) + Parse(s);
            if at < start then secs == 0 else secs * 1_000_000_000 <= at - start < (secs + 1) * 1_000_000_000
  {
    var secs := ElapsedSeconds(start, at);
    text := FmtElapsed(secs);
    h, m, s := FmtElapsedReads(secs);
    ElapsedCounts(start, at);
  }

  /** Two scores are equal or more than the tolerance apart. */
  ghost predicate Separated(s: seq<Row>) {
    forall i, j :: 0 <= i < |s| && 0 <= j < |s| ==> Apart(s[i].score, s[j].score)
  }

  predicate Apart(a: real, b: real) {
    a == b || !Close(a, b)
  }

  /** A row sorted before another is never strictly behind it: truncating instants to seconds
      keeps their order. */
  lemma SortedDescends(s: seq<Row>, heuristic: bool, start: int)
    requires Sorted(s)
    ensures Descending(Keys(s, heuristic, start))
  {
    forall i, j | 0 <= i < j < |s|
      ensures !Ahead(KeyOf(heuristic, start, s[j]), KeyOf(heuristic, start, s[i]))
    {
      assert InOrder(s[i], s[j]);
      if s[i].lastAc.Some? && s[j].lastAc.Some? && s[i].lastAc.value <= s[j].lastAc.value {
        ElapsedMonotone(start, s[i].lastAc.value, s[j].lastAc.value);
      }
    }
  }

  lemma ShownTimeInjective(start: int, a: Option<int>, b: Option<int>)
    ensures ShownTime(start, a) == ShownTime(start, b) <==> Seconds(start, a) == Seconds(start, b)
  {
    if a.Some? && b.Some? && ShownTime(start, a) == ShownTime(start, b) {
      FmtElapsedInjective(ElapsedSeconds(start, a.value), ElapsedSeconds(start, b.value));
    }
  }

  /** With separated scores, sharing a group is the same as having equal keys. */
  lemma JoinsIsSameKey(heuristic: bool, start: int, a: Row, b: Row)
    requires Apart(a.score, b.score)
    requires heuristic || (a.elapsed == ShownTime(start, a.lastAc) && b.elapsed == ShownTime(start, b.lastAc))
    ensures Joins(heuristic, a, b) <==> KeyOf(heuristic, start, a) == KeyOf(heuristic, start, b)
  {
    ShownTimeInjective(start, a.lastAc, b.lastAc);
  }

  lemma {:induction false} LeaderIsRunStart(s: seq<Row>, heuristic: bool, start: int, i: nat)
    requires Separated(s) && (heuristic || ElapsedShown(s, start)) && i < |s|
    ensures Leader(s, heuristic, i) == RunStart(Keys(s, heuristic, start), i)
  {
    if i > 0 {
      LeaderIsRunStart(s, heuristic, start, i - 1);
      var k := Leader(s, heuristic, i - 1);
      JoinsIsSameKey(heuristic, start, s[k], s[i]);
    }
  }

  /** Standard competition ranking: the rank of a row is one more than the number of rows
      strictly ahead of it, and two rows share a rank exactly when their keys agree. */
  lemma RanksAreCompetitionRanks(s: seq<Row>, heuristic: bool, start: int, i: nat, j: nat)
    requires Sorted(s) && Separated(s) && (heuristic || ElapsedShown(s, start))
    requires i < |s| && j < |s|
    ensures Leader(s, heuristic, i) == |AheadOf(Keys(s, heuristic, start), KeyOf(heuristic, start, s[i]))|
    ensures Leader(s, heuristic, i) == Leader(s, heuristic, j) <==>
            KeyOf(heuristic, start, s[i]) == KeyOf(heuristic, start, s[j])
  {
    var ks := Keys(s, heuristic, start);
    SortedDescends(s, heuristic, start);
    LeaderIsRunStart(s, heuristic, start, i);
    LeaderIsRunStart(s, heuristic, start, j);
    RunStartCounts(ks, i);
    RunStartCounts(ks, j);
    assert ks[RunStart(ks, i)] == ks[i] && ks[RunStart(ks, j)] == ks[j];
  }

  // ---- Heuristic contests: ties within the tolerance -------------------------------------------

  /** Every row is within the tolerance of the row that opened its group, and a row opens a new
      group only when it is further than that below the previous opener. */
  lemma {:induction false} HeuristicGroups(s: seq<Row>, i: nat)
    requires Sorted(s) && i < |s|
    ensures Close(s[i].score, s[Leader(s, true, i)].score)
    ensures i > 0 && Leader(s, true, i) == i ==> s[Leader(s, true, i - 1)].score - s[i].score > EPSILON
  {
    if i > 0 {
      assert InOrder(s[Leader(s, true, i - 1)], s[i]);
    }
  }

  lemma {:induction false} LeaderLeads(s: seq<Row>, heuristic: bool, i: nat)
    requires i < |s|
    ensures Leader(s, heuristic, Leader(s, heuristic, i)) == Leader(s, heuristic, i)
  {
    if i > 0 {
      LeaderLeads(s, heuristic, i - 1);
    }
  }

  /** Whatever the scores, the rank of a row is one more than the number of rows strictly ahead of the
      first row of its group. */
  lemma GroupRankCounts(s: seq<Row>, start: int, i: nat)
    requires Sorted(s) && i < |s|
    ensures Leader(s, true, i) == |AheadOf(Keys(s, true, start), KeyOf(true, start, s[Leader(s, true, i)]))|
  {
    var (ks, k) := (Keys(s, true, start), Leader(s, true, i));
    LeaderLeads(s, true, i);
    if k > 0 && ks[k - 1] == ks[k] {
      HeuristicGroups(s, k - 1);
      assert Joins(true, s[Leader(s, true, k - 1)], s[k]);
    }
    SortedDescends(s, true, start);
    RunStartCounts(ks, k);
  }

  /** The rank of row `i` is one more than the number of rows strictly ahead of it. */
  ghost predicate CompetitionAt(s: seq<Row>, heuristic: bool, start: int, i: nat)
    requires i < |s|
  {
    Leader(s, heuristic, i) == |AheadOf(Keys(s, heuristic, start), KeyOf(heuristic, start, s[i]))|
  }

  ghost predicate CompetitionRanked(s: seq<Row>, heuristic: bool, start: int) {
    forall i: nat :: i < |s| ==> CompetitionAt(s, heuristic, start, i)
  }

  /** The tolerance is harmless exactly when no two different scores are within it: then, and only
      then, the heuristic ranks are competition ranks. */
  lemma HeuristicRanksAreCompetitionRanksIff(s: seq<Row>, start: int)
    requires Sorted(s)
    ensures Separated(s) <==> CompetitionRanked(s, true, start)
  {
    if Separated(s) {
      forall i: nat | i < |s| ensures CompetitionAt(s, true, start, i) {
        RanksAreCompetitionRanks(s, true, start, i, i);
      }
    } else {
      var p := CloseDrop(s);
      CloseDropMisranks(s, start, p);
    }
  }

  lemma CloseDrop(s: seq<Row>) returns (p: nat)
    requires Sorted(s) && !Separated(s)
    ensures p + 1 < |s| && s[p].score > s[p + 1].score && Close(s[p + 1].score, s[p].score)
  {
    var i, j :| 0 <= i < |s| && 0 <= j < |s| && !Apart(s[i].score, s[j].score);
    ApartIsSymmetric(s[i].score, s[j].score);
    var (a, b) := if i < j then (i, j) else (j, i);
    assert a < b && InOrder(s[a], s[b]);
    InOrderScores(s[a], s[b]);
    p := Drop(s, a, b);
  }

  lemma InOrderScores(a: Row, b: Row)
    requires InOrder(a, b)
    ensures a.score >= b.score
  {
  }

  lemma ApartIsSymmetric(a: real, b: real)
    ensures Apart(a, b) == Apart(b, a) && Apart(a, a)
  {
  }

  lemma CloseDropMisranks(s: seq<Row>, start: int, p: nat)
    requires Sorted(s) && p + 1 < |s|
    requires s[p].score > s[p + 1].score && Close(s[p + 1].score, s[p].score)
    ensures !CompetitionRanked(s, true, start)
  {
    var ks := Keys(s, true, start);
    SortedDescends(s, true, start);
    RunStartCounts(ks, p);
    RunStartCounts(ks, p + 1);
    var k := Leader(s, true, p);
    if CompetitionAt(s, true, start, p) {
      assert ks[k] == ks[p];
      assert Joins(true, s[k], s[p + 1]);
      assert Leader(s, true, p + 1) == k;
      assert RunStart(ks, p + 1) == p + 1;
      assert !CompetitionAt(s, true, start, p + 1);
    }
  }

  /** Between two close scores there is a place where the score first drops, by a close amount. */
  ghost function Drop(s: seq<Row>, i: nat, j: nat): (p: nat)
    requires Sorted(s) && i < j < |s| && s[i].score > s[j].score && Close(s[i].score, s[j].score)
    ensures i <= p < j && s[p].score > s[p + 1].score && Close(s[p + 1].score, s[p].score)
    decreases j - i
  {
    assert InOrder(s[j - 1], s[j]) && (i == j - 1 || InOrder(s[i], s[j - 1]));
    if s[j - 1].score > s[j].score then j - 1 else Drop(s, i, j - 1)
  }

  // ---- When the order itself is determined ------------------------------------------------------

  /** Which rows the comparator cannot tell apart. */
  lemma TieIff(a: Row, b: Row)
    ensures Compare(a, b) == Equal <==>
            a.score == b.score && a.lastAc == b.lastAc && (a.lastAc.None? ==> a.username == b.username)
  {
    StringOrder(a.username, b.username, b.username);
  }

  ghost predicate NoTies(s: seq<Row>) {
    forall i, j :: 0 <= i < |s| && 0 <= j < |s| && s[i] != s[j] ==> Compare(s[i], s[j]) != Equal
  }

  lemma {:induction false} SortedIsUnique(s: seq<Row>, t: seq<Row>)
    requires Sorted(s) && Sorted(t) && NoTies(s) && multiset(s) == multiset(t)
    ensures s == t
  {
    assert |multiset(s)| == |s| && |multiset(t)| == |t|;
    if s != [] {
      FirstAgrees(s, t);
      TailsPermute(s, t);
      SortedIsUnique(s[1..], t[1..]);
      assert s == [s[0]] + s[1..] && t == [t[0]] + t[1..];
    }
  }

  lemma TailsPermute(s: seq<Row>, t: seq<Row>)
    requires s != [] && t != [] && s[0] == t[0] && multiset(s) == multiset(t)
    ensures multiset(s[1..]) == multiset(t[1..])
  {
    assert s == [s[0]] + s[1..] && t == [t[0]] + t[1..];
    assert multiset(s[1..]) == multiset(s) - multiset{s[0]} && multiset(t[1..]) == multiset(t) - multiset{t[0]};
  }

  lemma FirstAgrees(s: seq<Row>, t: seq<Row>)
    requires Sorted(s) && Sorted(t) && NoTies(s) && multiset(s) == multiset(t) && s != [] && t != []
    ensures s[0] == t[0]
  {
    assert s[0] in multiset(t) && t[0] in multiset(s);
    var i :| 0 <= i < |t| && t[i] == s[0];
    var j :| 0 <= j < |s| && s[j] == t[0];
    if s[0] != t[0] {
      assert InOrder(s[0], s[j]) && InOrder(t[0], t[i]);
      CompareIsTotalPreorder(s[0], t[0], s[0]);
    }
  }

  /** Exchanging two tied rows gives another sorted list of the same rows. */
  lemma TiedRowsSwap(s: seq<Row>, i: nat, j: nat)
    requires Sorted(s) && i < j < |s| && Compare(s[i], s[j]) == Equal
    ensures Sorted(s[i := s[j]][j := s[i]])
    ensures multiset(s[i := s[j]][j := s[i]]) == multiset(s)
  {
    var t := s[i := s[j]][j := s[i]];
    forall x, y | 0 <= x < y < |t| ensures InOrder(t[x], t[y]) {
      assert x < i ==> InOrder(s[x], s[i]) && InOrder(s[x], s[j]);
      assert y > j ==> InOrder(s[i], s[y]) && InOrder(s[j], s[y]);
      if i < y < j { TiedBetween(s, i, y, j); }
      if i < x < j { TiedBetween(s, i, x, j); }
      CompareIsTotalPreorder(s[i], s[j], s[i]);
    }
  }

  lemma TiedBetween(s: seq<Row>, i: nat, k: nat, j: nat)
    requires Sorted(s) && i < k < j < |s| && Compare(s[i], s[j]) == Equal
    ensures InOrder(s[j], s[k]) && InOrder(s[k], s[i])
  {
    assert InOrder(s[i], s[k]) && InOrder(s[k], s[j]);
    CompareIsTotalPreorder(s[i], s[j], s[k]);
    CompareIsTotalPreorder(s[j], s[i], s[k]);
    CompareIsTotalPreorder(s[k], s[j], s[i]);
  }

  /** The order of the page is a function of its rows exactly when no two different rows tie;
      otherwise it depends on the order in which the rows were enumerated. */
  lemma OrderIsUniqueIff(s: seq<Row>)
    requires Sorted(s)
    ensures NoTies(s) <==> forall t :: Sorted(t) && multiset(t) == multiset(s) ==> t == s
  {
    if NoTies(s) {
      forall t | Sorted(t) && multiset(t) == multiset(s) ensures t == s {
        SortedIsUnique(s, t);
      }
    } else {
      var i, j :| 0 <= i < |s| && 0 <= j < |s| && s[i] != s[j] && Compare(s[i], s[j]) == Equal;
      CompareIsTotalPreorder(s[i], s[j], s[i]);
      var (a, b) := if i < j then (i, j) else (j, i);
      TiedRowsSwap(s, a, b);
      assert s[a := s[b]][b := s[a]][a] != s[a];
    }
  }
}
