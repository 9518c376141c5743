/** The ordering of standings rows and the pass that numbers them. */
module Ranking {
  import opened Basics
  import opened Decimal

  /** A standings row together with the raw values it is sorted by. `lastAc` and all other
      instants are nanoseconds on one clock. `user` identifies the account the row belongs to. */
  datatype Row = Row(
    user: nat,
    username: string,
    score: real,
    lastAc: Option<int>,
    elapsed: Option<string>,
    cells: seq<Cell>,
    rank: nat)

  datatype Cell = Cell(problemLabel: string, acTime: Option<string>, score: CellScore, hasResult: bool)

  /** What a cell shows: nothing, the problem's points (exact) or the best score (heuristic). */
  datatype CellScore = Blank | Points(points: nat) | Best(best: real)

  // ---- Elapsed time -------------------------------------------------------------------

  const NANOS: int := 1_000_000_000

  /** `Duration::num_seconds`, which truncates toward zero. */
  function NumSeconds(nanos: int): int {
    if nanos >= 0 then nanos / NANOS else -(-nanos / NANOS)
  }

  /** Whole seconds since the contest started, never negative. */
  function ElapsedSeconds(start: int, at: int): nat {
    MaxInt(NumSeconds(at - start), 0)
  }

  /** `h:mm:ss` */
  function FmtElapsed(secs: nat): string {
    Dec(secs / 3600) + ":" + Fixed(secs % 3600 / 60, 2) + ":" + Fixed(secs % 60, 2)
  }

  /** The whole seconds that have passed, none before the start. */
  lemma ElapsedCounts(start: int, at: int)
    ensures var s := ElapsedSeconds(start, at);
            if at < start then s == 0 else s * 1_000_000_000 <= at - start < (s + 1) * 1_000_000_000
  {
  }

  lemma ElapsedMonotone(start: int, a: int, b: int)
    requires a <= b
    ensures ElapsedSeconds(start, a) <= ElapsedSeconds(start, b)
  {
  }

  /** `text` is three numbers with colons between them, the last two of two digits. */
  predicate IsClock(text: string, hours: string, minutes: string, seconds: string) {
    && text == hours + ":" + minutes + ":" + seconds && |minutes| == |seconds| == 2
    && AllDigits(hours) && AllDigits(minutes) && AllDigits(seconds)
  }

  /** A clock text splits in only one way. */
  lemma ClockSplitsOnce(text: string, h: string, m: string, s: string, h': string, m': string, s': string)
    requires IsClock(text, h, m, s) && IsClock(text, h', m', s')
    ensures h == h' && m == m' && s == s'
  {
    var n := |text| - 6;
    assert h == text[..n] && m == text[n + 1..n + 3] && s == text[n + 4..];
    assert h' == text[..n] && m' == text[n + 1..n + 3] && s' == text[n + 4..];
  }

  lemma TwoDigits(n: nat)
    requires n < 60
    ensures Parse(Fixed(n, 2)) == n
  {
    assert Pow10(2) == 10 * Pow10(1) == 100 * Pow10(0);
    ParseFixed(n, 2);
  }

  /** The text shows hours, minutes and seconds, the last two below sixty, that make up the time. */
  lemma FmtElapsedReads(secs: nat) returns (h: string, m: string, s: string)
    ensures IsClock(FmtElapsed(secs), h, m, s) && h != "" && (h[0] == '0' ==> h == "0")
    ensures Parse(m) < 60 && Parse(s) < 60 && secs == 3600 * Parse(h) + 60 * Parse(m) + Parse(s)
  {
    h, m, s := Dec(secs / 3600), Fixed(secs % 3600 / 60, 2), Fixed(secs % 60, 2);
    ParseDec(secs / 3600);
    DecIsCanonical(secs / 3600);
    TwoDigits(secs % 3600 / 60);
    TwoDigits(secs % 60);
  }

  lemma FmtElapsedInjective(a: nat, b: nat)
    requires FmtElapsed(a) == FmtElapsed(b)
    ensures a == b
  {
    var ha, ma, sa := FmtElapsedReads(a);
    var hb, mb, sb := FmtElapsedReads(b);
    ClockSplitsOnce(FmtElapsed(a), ha, ma, sa, hb, mb, sb);
  }

  // ---- The comparator -------------------------------------------------------------------

  datatype Ordering = Less | Equal | Greater {
    function Reverse(): Ordering {
      match this
      case Less => Greater
      case Equal => Equal
      case Greater => Less
    }

    function Then(next: Ordering): Ordering {
      if this == Equal then next else this
    }
  }

  function CompareInt(a: int, b: int): Ordering {
    if a < b then Less else if a == b then Equal else Greater
  }

  function CompareReal(a: real, b: real): Ordering {
    if a < b then Less else if a == b then Equal else Greater
  }

  /** Strings compare code point by code point, a proper prefix first. */
  function CompareString(a: string, b: string): Ordering {
    if a == "" && b == "" then Equal
    else if a == "" then Less
    else if b == "" then Greater
    else CompareInt(a[0] as int, b[0] as int).Then(CompareString(a[1..], b[1..]))
  }

  /** Score descending; then earliest last solve, rows without one last and by username. */
  function Compare(a: Row, b: Row): Ordering {
    CompareReal(b.score, a.score).Then(
      match (a.lastAc, b.lastAc)
      case (Some(at), Some(bt)) => CompareInt(at, bt)
      case (None, Some(_)) => Greater
      case (Some(_), None) => Less
      case (None, None) => CompareString(a.username, b.username))
  }

  predicate InOrder(a: Row, b: Row) {
    Compare(a, b) != Greater
  }

  /** At position `k`, the first where they differ, `a` has the smaller character. */
  predicate SmallerAt(a: string, b: string, k: nat) {
    k < |a| && k < |b| && a[k] < b[k] && a[..k] == b[..k]
  }

  /** The order of a dictionary: a proper prefix, or smaller at the first difference. */
  ghost predicate ComesBefore(a: string, b: string) {
    a < b || exists k: nat :: SmallerAt(a, b, k)
  }

  lemma {:induction false} StringLessIff(a: string, b: string)
    ensures CompareString(a, b) == Less <==> ComesBefore(a, b)
  {
    if a != "" && b != "" {
      if a[0] == b[0] {
        StringLessIff(a[1..], b[1..]);
        SameHead(a, b);
      } else if a[0] < b[0] {
        assert SmallerAt(a, b, 0);
      } else {
        assert forall k: nat :: SmallerAt(a, b, k) ==> k > 0 && a[..k][0] == b[..k][0];
      }
    }
  }

  lemma SameHead(a: string, b: string)
    requires a != "" && b != "" && a[0] == b[0]
    ensures ComesBefore(a, b) <==> ComesBefore(a[1..], b[1..])
  {
    assert a == [a[0]] + a[1..] && b == [b[0]] + b[1..];
    if k: nat :| SmallerAt(a, b, k) {
      assert a[..k][0] == a[0];
      assert a[1..][..k - 1] == a[..k][1..] && b[1..][..k - 1] == b[..k][1..];
      assert SmallerAt(a[1..], b[1..], k - 1);
    }
    if k: nat :| SmallerAt(a[1..], b[1..], k) {
      assert a[..k + 1] == [a[0]] + a[1..][..k] && b[..k + 1] == [b[0]] + b[1..][..k];
      assert SmallerAt(a, b, k + 1);
    }
  }

  lemma {:induction false} StringOrder(a: string, b: string, c: string)
    ensures CompareString(a, b) == Equal <==> a == b
    ensures CompareString(b, a) == CompareString(a, b).Reverse()
    ensures CompareString(a, b) != Greater && CompareString(b, c) != Greater ==> CompareString(a, c) != Greater
    decreases |a| + |b| + |c|
  {
    if a != "" && b != "" {
      assert a == [a[0]] + a[1..] && b == [b[0]] + b[1..];
      StringOrder(a[1..], b[1..], if c == "" then "" else c[1..]);
    }
  }

  /** The comparator handed to the sort is a total preorder on every set of rows. */
  lemma CompareIsTotalPreorder(a: Row, b: Row, c: Row)
    ensures InOrder(a, a)
    ensures Compare(b, a) == Compare(a, b).Reverse()
    ensures InOrder(a, b) && InOrder(b, c) ==> InOrder(a, c)
  {
    StringOrder(a.username, a.username, a.username);
    StringOrder(a.username, b.username, c.username);
  }

  /** Which of two different rows comes first. */
  lemma StrictlyBeforeIff(a: Row, b: Row)
    ensures Compare(a, b) == Less <==>
      || a.score > b.score
      || (a.score == b.score && a.lastAc.Some? && (b.lastAc.None? || a.lastAc.value < b.lastAc.value))
      || (a.score == b.score && a.lastAc.None? && b.lastAc.None? && ComesBefore(a.username, b.username))
  {
    StringLessIff(a.username, b.username);
  }

  // ---- Sorting ----------------------------------------------------------------------------

  ghost predicate Sorted(s: seq<Row>) {
    forall i, j :: 0 <= i < j < |s| ==> InOrder(s[i], s[j])
  }

  /** `sort_by`: a stable sort. */
  function Sort(s: seq<Row>): (r: seq<Row>) {
    if s == [] then [] else Insert(s[0], Sort(s[1..]))
  }

  /** Put `x` before the first element that is not strictly ahead of it. */
  function Insert(x: Row, s: seq<Row>): (r: seq<Row>) {
    if s == [] || InOrder(x, s[0]) then [x] + s else [s[0]] + Insert(x, s[1..])
  }

  lemma {:induction false} InsertSorts(x: Row, s: seq<Row>)
    requires Sorted(s)
    ensures Sorted(Insert(x, s))
    ensures multiset(Insert(x, s)) == multiset{x} + multiset(s)
  {
    if s != [] {
      assert s == [s[0]] + s[1..];
      if InOrder(x, s[0]) {
        forall j | 0 < j < |s| ensures InOrder(x, s[j]) {
          CompareIsTotalPreorder(x, s[0], s[j]);
        }
      } else {
        InsertSorts(x, s[1..]);
        CompareIsTotalPreorder(x, s[0], x);
        var r := Insert(x, s[1..]);
        forall j | 0 <= j < |r| ensures InOrder(s[0], r[j]) {
          assert r[j] in multiset(r);
          assert r[j] == x || r[j] in s[1..];
        }
      }
    }
  }

  lemma {:induction false} SortSorts(s: seq<Row>)
    ensures Sorted(Sort(s)) && multiset(Sort(s)) == multiset(s) && |Sort(s)| == |s|
  {
    if s != [] {
      assert s == [s[0]] + s[1..];
      SortSorts(s[1..]);
      InsertSorts(s[0], Sort(s[1..]));
    }
    assert |multiset(Sort(s))| == |multiset(s)|;
  }
}
