/** Page numbers under a list, and the slice of rows a page shows. */
module Pagination {
  import opened Basics

  /** The integers from `lo` up to but not including `hi`. */
  function Range(lo: int, hi: int): (r: seq<int>)
    ensures |r| == if lo < hi then hi - lo else 0
    ensures forall i :: 0 <= i < |r| ==> r[i] == lo + i
    decreases hi - lo
  {
    if lo >= hi then [] else Range(lo, hi - 1) + [hi - 1]
  }

  method AppendRange(items: seq<int>, lo: int, hi: int) returns (r: seq<int>)
    ensures r == items + Range(lo, hi)
  {
    r := items;
    var n := lo;
    while n < hi
      invariant lo <= n && (n <= hi || n == lo) && r == items + Range(lo, n)
    {
      r := r + [n];
      n := n + 1;
    }
  }

  method AppendEllipsis(items: seq<int>, shown: bool) returns (r: seq<int>)
    ensures r == items + Ellipsis(shown)
  {
    r := items;
    if shown {
      r := r + [0];
    }
  }

  /** Page numbers to show; 0 stands for an ellipsis. */
  method BuildPagination(current: int, total: int) returns (items: seq<int>)
    ensures items == Strip(current, total)
  {
    if total <= 7 {
      items := AppendRange([], 1, total + 1);
      assert items == Range(1, total + 1);
      return;
    }
    var left := MaxInt(current - 2, 2);
    var right := MinInt(current + 2, total - 1);
    items := AppendEllipsis([1], left > 2);
    items := AppendRange(items, left, right + 1);
    items := AppendEllipsis(items, right < total - 1);
    items := items + [total];
  }

  function Strip(current: int, total: int): seq<int> {
    if total <= 7 then Range(1, total + 1)
    else
      var left, right := MaxInt(current - 2, 2), MinInt(current + 2, total - 1);
      [1] + Tail(left, right, total)
  }

  /** Everything after page 1. */
  function Tail(left: int, right: int, total: int): seq<int> {
    Ellipsis(left > 2) + (Range(left, right + 1) + (Ellipsis(right < total - 1) + [total]))
  }

  function Ellipsis(shown: bool): seq<int> {
    if shown then [0] else []
  }

  /** Every ellipsis stands between two page numbers with at least one page between them. */
  ghost predicate WellPlaced(items: seq<int>) {
    forall i :: 0 <= i < |items| && items[i] == 0 ==>
      0 < i < |items| - 1 && items[i - 1] > 0 && items[i + 1] > items[i - 1] + 1
  }

  /** Replace every ellipsis by the pages it hides: those between the page before it, `prev` for the
      first item, and the page after it. */
  function Expand(prev: int, items: seq<int>): seq<int>
    decreases |items|
  {
    if items == [] then []
    else if items[0] != 0 || |items| == 1 then [items[0]] + Expand(items[0], items[1..])
    else Range(prev + 1, items[1]) + Expand(items[1] - 1, items[1..])
  }

  lemma RangeJoins(a: int, b: int, c: int)
    requires a <= b <= c
    ensures Range(a, b) + Range(b, c) == Range(a, c)
  {
  }

  lemma RangeHead(lo: int, hi: int, rest: seq<int>)
    requires lo < hi
    ensures Range(lo, hi) == [lo] + Range(lo + 1, hi)
    ensures Range(lo, hi) + rest == [lo] + (Range(lo + 1, hi) + rest)
  {
  }

  lemma {:induction false} ExpandRun(prev: int, lo: int, hi: int, rest: seq<int>)
    requires 0 < lo
    ensures Expand(prev, Range(lo, hi) + rest) == Range(lo, hi) + Expand(if lo < hi then hi - 1 else prev, rest)
    decreases hi - lo
  {
    if lo < hi {
      RangeHead(lo, hi, rest);
      ExpandRun(lo, lo + 1, hi, rest);
    } else {
      assert Range(lo, hi) + rest == rest;
    }
  }

  lemma ExpandGap(prev: int, next: int, rest: seq<int>)
    requires next != 0
    ensures Expand(prev, [0] + ([next] + rest)) == Range(prev + 1, next) + Expand(next - 1, [next] + rest)
  {
    assert ([0] + ([next] + rest))[1..] == [next] + rest;
  }

  lemma ExpandTail(prev: int, total: int)
    requires 1 <= prev < total
    ensures Expand(prev, Ellipsis(prev < total - 1) + [total]) == Range(prev + 1, total + 1)
  {
    assert Expand(total - 1, [total]) == [total];
    RangeJoins(prev + 1, total, total + 1);
    if prev < total - 1 {
      ExpandGap(prev, total, []);
      assert [total] + [] == [total];
    } else {
      assert Ellipsis(false) + [total] == [total];
    }
  }

  lemma ExpandHead(left: int, run: seq<int>)
    requires left >= 2 && run != [] && run[0] == left
    ensures Expand(1, Ellipsis(left > 2) + run) == Range(2, left) + Expand(left - 1, run)
  {
    if left > 2 {
      assert run == [left] + run[1..];
      ExpandGap(1, left, run[1..]);
    } else {
      assert Ellipsis(false) + run == run && Range(2, 2) + Expand(1, run) == Expand(1, run);
    }
  }

  /** A run of pages followed by items that expand to the pages after it. */
  lemma ExpandJoined(prev: int, lo: int, hi: int, tail: seq<int>, end: int)
    requires 0 < lo < hi <= end && Expand(hi - 1, tail) == Range(hi, end)
    ensures Expand(prev, Range(lo, hi) + tail) == Range(lo, end)
  {
    ExpandRun(prev, lo, hi, tail);
    RangeJoins(lo, hi, end);
  }

  lemma ExpandMiddle(left: int, right: int, total: int)
    requires 2 <= left <= right < total
    ensures Expand(left - 1, Range(left, right + 1) + (Ellipsis(right < total - 1) + [total])) == Range(left, total + 1)
  {
    ExpandTail(right, total);
    ExpandJoined(left - 1, left, right + 1, Ellipsis(right < total - 1) + [total], total + 1);
  }

  lemma ExpandPages(left: int, right: int, total: int)
    requires 2 <= left <= right < total
    ensures Expand(1, Tail(left, right, total)) == Range(2, total + 1)
  {
    var run := Range(left, right + 1) + (Ellipsis(right < total - 1) + [total]);
    ExpandMiddle(left, right, total);
    ExpandHead(left, run);
    RangeJoins(2, left, total + 1);
  }

  /** With no page between the ends, one ellipsis stands for all that is hidden. */
  lemma TailWithoutMiddle(left: int, right: int, total: int)
    requires right < left && (left > 2 <==> right >= total - 1)
    ensures Tail(left, right, total) == [0, total]
  {
  }

  /** Nothing is lost: filling in the ellipses of the strip gives every page, in order. This holds
      whatever the current page is, even one outside the list. */
  lemma StripHidesNothing(current: int, total: int)
    requires total >= 1
    ensures Expand(0, Strip(current, total)) == Range(1, total + 1)
  {
    if total <= 7 {
      ExpandRun(0, 1, total + 1, []);
      assert Range(1, total + 1) + [] == Range(1, total + 1);
    } else {
      var left, right := MaxInt(current - 2, 2), MinInt(current + 2, total - 1);
      if left <= right {
        ExpandPages(left, right, total);
      } else {
        TailWithoutMiddle(left, right, total);
        assert Ellipsis(true) + [total] == [0, total];
        ExpandTail(1, total);
      }
      StripExpands(Tail(left, right, total), total);
    }
  }

  lemma StripExpands(tail: seq<int>, total: int)
    requires total >= 1 && Expand(1, tail) == Range(2, total + 1)
    ensures Expand(0, [1] + tail) == Range(1, total + 1)
  {
    assert ([1] + tail)[1..] == tail;
    RangeJoins(1, 2, total + 1);
    assert Range(1, 2) == [1];
  }

  /** Every ellipsis of the strip hides at least one page. */
  lemma EllipsesHideSomething(current: int, total: int)
    requires total >= 1
    ensures WellPlaced(Strip(current, total))
  {
    if total > 7 {
      var left, right := MaxInt(current - 2, 2), MinInt(current + 2, total - 1);
      if left <= right {
        TailIsWellPlaced(left, right, total);
      } else {
        TailWithoutMiddle(left, right, total);
        assert Strip(current, total) == [1, 0, total];
      }
    }
  }

  lemma TailIsWellPlaced(left: int, right: int, total: int)
    requires 2 <= left <= right < total
    ensures WellPlaced([1] + Tail(left, right, total))
  {
    var (head, tail) := ([1] + Ellipsis(left > 2), Ellipsis(right < total - 1) + [total]);
    assert head == (if left > 2 then [1, 0] else [1]) && tail == (if right < total - 1 then [0, total] else [total]);
    EllipsesAroundRun(head, left, right, tail, total);
    TwoHalves([1], Ellipsis(left > 2), Range(left, right + 1), tail);
  }

  lemma TwoHalves(a: seq<int>, b: seq<int>, c: seq<int>, d: seq<int>)
    ensures a + b + c + d == a + (b + (c + d))
  {
  }

  lemma EllipsesAroundRun(head: seq<int>, left: int, right: int, tail: seq<int>, total: int)
    requires 2 <= left <= right < total
    requires head == (if left > 2 then [1, 0] else [1]) && tail == (if right < total - 1 then [0, total] else [total])
    ensures WellPlaced(head + Range(left, right + 1) + tail)
  {
    var run := Range(left, right + 1);
    var s := head + run + tail;
    assert forall k :: 0 <= k < |run| ==> s[|head| + k] == run[k];
    forall i | 0 <= i < |s| && s[i] == 0
      ensures 0 < i < |s| - 1 && s[i - 1] > 0 && s[i + 1] > s[i - 1] + 1
    {
      if i < |head| {
        assert s[i + 1] == run[0];
      } else {
        assert i == |head| + |run| && s[i - 1] == run[|run| - 1];
      }
    }
  }

  /** At most nine items; the current page is one of them; and, besides the first and last page,
      exactly the pages within two of the current one are shown. */
  lemma StripIsShort(current: int, total: int)
    requires 1 <= current <= total
    ensures |Strip(current, total)| <= 9
    ensures forall p :: 1 <= p <= total ==> (p in Strip(current, total) <==> IsShown(current, total, p))
  {
    forall p | 1 <= p <= total
      ensures p in Strip(current, total) <==> IsShown(current, total, p)
    {
      ShownPages(current, total, p);
    }
  }

  lemma ShownPages(current: int, total: int, p: int)
    requires 1 <= current <= total && 1 <= p <= total
    ensures p in Strip(current, total) <==> IsShown(current, total, p)
  {
    if total <= 7 {
      InRange(p, 1, total + 1);
    } else {
      var left, right := MaxInt(current - 2, 2), MinInt(current + 2, total - 1);
      InRange(p, left, right + 1);
      InTail(p, left, right, total);
    }
  }

  predicate IsShown(current: int, total: int, p: int) {
    total <= 7 || p == 1 || p == total || current - 2 <= p <= current + 2
  }

  lemma InTail(p: int, left: int, right: int, total: int)
    requires p > 0
    ensures p in [1] + Tail(left, right, total) <==> p == 1 || p in Range(left, right + 1) || p == total
  {
    var tail := Ellipsis(right < total - 1) + [total];
    assert p in tail <==> p == total;
    assert p in Range(left, right + 1) + tail <==> p in Range(left, right + 1) || p == total;
    assert p !in Ellipsis(left > 2);
  }

  lemma InRange(p: int, lo: int, hi: int)
    ensures p in Range(lo, hi) <==> lo <= p < hi
  {
    if lo <= p < hi {
      assert Range(lo, hi)[p - lo] == p;
    }
  }

  // ---- Slices -------------------------------------------------------------------------------------

  const PER_PAGE: int := 20

  function TotalPages(rows: nat): int {
    MaxInt((rows + PER_PAGE - 1) / PER_PAGE, 1)
  }

  /** The page to show for whatever number was asked for. */
  function Clamp(requested: Option<int>, totalPages: int): int {
    MinInt(MaxInt(if requested.Some? then requested.value else 1, 1), totalPages)
  }

  /** Page 1 when none is asked for or the number is below 1, the last page when it is above it. */
  lemma ClampIff(requested: Option<int>, totalPages: int)
    requires totalPages >= 1
    ensures Clamp(None, totalPages) == 1
    ensures requested.Some? ==>
      var page := Clamp(requested, totalPages);
      && (requested.value < 1 ==> page == 1)
      && (requested.value > totalPages ==> page == totalPages)
      && (1 <= requested.value <= totalPages ==> page == requested.value)
  {
  }

  /** Twenty rows a page; only the last has fewer, and it is empty only if there are no rows. */
  lemma PageSizes<T>(rows: seq<T>, page: int)
    requires 1 <= page <= TotalPages(|rows|)
    ensures page < TotalPages(|rows|) ==> |Slice(rows, page)| == 20
    ensures page == TotalPages(|rows|) ==> |Slice(rows, page)| == |rows| - 20 * (page - 1) <= 20
    ensures rows != [] ==> Slice(rows, page) != []
    ensures forall i :: 0 <= i < |Slice(rows, page)| ==> Slice(rows, page)[i] == rows[20 * (page - 1) + i]
  {
  }

  method ShowPage<T>(rows: seq<T>, requested: Option<int>) returns (page: int, shown: seq<T>, pagination: seq<int>)
    ensures 1 <= page <= TotalPages(|rows|)
    ensures requested.None? || requested.value < 1 ==> page == 1
    ensures requested.Some? && 1 <= requested.value <= TotalPages(|rows|) ==> page == requested.value
    ensures requested.Some? && requested.value > TotalPages(|rows|) ==> page == TotalPages(|rows|)
    ensures shown == Slice(rows, page) && pagination == Strip(page, TotalPages(|rows|))
  {
    page := Clamp(requested, TotalPages(|rows|));
    var start := (page - 1) * PER_PAGE;
    var end := MinInt(start + PER_PAGE, |rows|);
    StartInBounds(|rows|, page);
    shown := rows[start..end];
    pagination := BuildPagination(page, TotalPages(|rows|));
  }

  lemma StartInBounds(rows: nat, page: int)
    requires 1 <= page <= TotalPages(rows)
    ensures 0 <= (page - 1) * PER_PAGE <= rows
  {
  }

  function Slice<T>(rows: seq<T>, page: int): seq<T>
    requires 1 <= page <= TotalPages(|rows|)
  {
    StartInBounds(|rows|, page);
    rows[(page - 1) * PER_PAGE..MinInt(page * PER_PAGE, |rows|)]
  }

  function FirstPages<T>(rows: seq<T>, n: nat): seq<T>
    requires n <= TotalPages(|rows|)
  {
    if n == 0 then [] else FirstPages(rows, n - 1) + Slice(rows, n)
  }

  lemma {:induction false} FirstPagesArePrefix<T>(rows: seq<T>, n: nat)
    requires n <= TotalPages(|rows|)
    ensures FirstPages(rows, n) == rows[..MinInt(n * PER_PAGE, |rows|)]
  {
    if n > 0 {
      FirstPagesArePrefix(rows, n - 1);
      StartInBounds(|rows|, n);
    }
  }

  /** The pages, one after the other, are the rows. */
  lemma PagesCoverRows<T>(rows: seq<T>)
    ensures FirstPages(rows, TotalPages(|rows|)) == rows
  {
    FirstPagesArePrefix(rows, TotalPages(|rows|));
    assert MinInt(TotalPages(|rows|) * PER_PAGE, |rows|) == |rows|;
    assert rows[..|rows|] == rows;
  }
}
