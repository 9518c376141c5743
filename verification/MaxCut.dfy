/** The scorer of the max-cut problem: graph generation and the score of a colouring. */
module MaxCut {
  import opened Basics
  import opened XorShift
  import opened Arithmetic

  datatype Edge = Edge(a: nat, b: nat, w: nat)

  /** A value, or an exception that ends the scorer. */
  datatype Outcome<T> = Value(value: T) | Raised

  // ---- The graph ------------------------------------------------------------------------------------

  /** `seed & MASK` on a Python integer. */
  function SeedWord(seed: int): bv32 {
    (seed % 0x1_0000_0000) as bv32
  }

  /** The `k`-th draw as a number. */
  function Number(seed: int, k: nat): (x: nat)
  {
    Draw(SeedWord(seed), k) as int
  }

  /** Choose one of the `n - 1` vertices other than `a`. */
  function Skip(a: nat, b: nat): nat {
    if b >= a then b + 1 else b
  }

  function Unskip(a: nat, v: nat): nat
    requires v != a
  {
    if v > a then v - 1 else v
  }

  function EdgeAt(n: nat, seed: int, i: nat): Edge
    requires n >= 2
  {
    var a := Number(seed, 3 * i + 1) % n;
    Edge(a, Skip(a, Number(seed, 3 * i + 2) % (n - 1)), 1 + Number(seed, 3 * i + 3) % 1000)
  }

  function Edges(n: nat, seed: int, m: nat): (e: seq<Edge>)
    requires n >= 2
    ensures |e| == m
  {
    seq(m, i requires 0 <= i < m => EdgeAt(n, seed, i))
  }

  function TotalWeight(e: seq<Edge>): nat {
    if e == [] then 0 else TotalWeight(e[..|e| - 1]) + e[|e| - 1].w
  }

  lemma ThreeDraws(seed: int, i: nat)
    ensures Number(seed, 3 * i + 1) == Next(Draw(SeedWord(seed), 3 * i)) as int
    ensures Draw(SeedWord(seed), 3 * i + 2) == Next(Next(Draw(SeedWord(seed), 3 * i)))
    ensures Draw(SeedWord(seed), 3 * (i + 1)) == Next(Next(Next(Draw(SeedWord(seed), 3 * i))))
    ensures 3 * (i + 1) == 3 * i + 3
  {
    assert Draw(SeedWord(seed), 3 * i + 1) == Next(Draw(SeedWord(seed), 3 * i));
    assert Draw(SeedWord(seed), 3 * i + 2) == Next(Draw(SeedWord(seed), 3 * i + 1));
    assert Draw(SeedWord(seed), 3 * i + 3) == Next(Draw(SeedWord(seed), 3 * i + 2));
  }

  lemma EdgesGrow(n: nat, seed: int, i: nat)
    requires n >= 2
    ensures Edges(n, seed, i + 1) == Edges(n, seed, i) + [EdgeAt(n, seed, i)]
    ensures TotalWeight(Edges(n, seed, i + 1)) == TotalWeight(Edges(n, seed, i)) + EdgeAt(n, seed, i).w
  {
    assert Edges(n, seed, i + 1)[..i] == Edges(n, seed, i);
  }

  /** What has been generated after `i` edges. */
  ghost predicate Generated(n: nat, seed: int, i: nat, edges: seq<Edge>, total: nat) {
    if n >= 2 then edges == Edges(n, seed, i) && total == TotalWeight(edges) else edges == [] && total == 0
  }

  lemma OneMoreEdge(n: nat, seed: int, i: nat, edges: seq<Edge>, total: nat, e: Edge)
    requires n >= 2 && Generated(n, seed, i, edges, total) && e == EdgeAt(n, seed, i)
    ensures Generated(n, seed, i + 1, edges + [e], total + e.w)
  {
    EdgesGrow(n, seed, i);
  }

  /** With fewer than two vertices the first edge divides by zero. */
  method GenerateGraph(n: nat, m: int, seed: int) returns (r: Outcome<(seq<Edge>, nat)>)
    ensures r.Raised? <==> m > 0 && n < 2
    ensures r.Value? && m > 0 ==> r.value == (Edges(n, seed, m), TotalWeight(Edges(n, seed, m)))
    ensures r.Value? && m <= 0 ==> r.value == ([], 0)
  {
    var x := SeedWord(seed);
    var total: nat := 0;
    var edges: seq<Edge> := [];
    var i := 0;
    while i < m
      invariant 0 <= i && (i <= m || i == 0) && x == Draw(SeedWord(seed), 3 * i)
      invariant (i > 0 ==> n >= 2) && Generated(n, seed, i, edges, total)
    {
      ThreeDraws(seed, i);
      x := Next(x);
      if n == 0 {
        return Raised;
      }
      var a := (x as int) % n;
      x := Next(x);
      if n == 1 {
        return Raised;
      }
      var b := (x as int) % (n - 1);
      if b >= a {
        b := b + 1;
      }
      x := Next(x);
      var w := 1 + (x as int) % 1000;
      OneMoreEdge(n, seed, i, edges, total, Edge(a, b, w));
      edges := edges + [Edge(a, b, w)];
      total := total + w;
      i := i + 1;
    }
    r := Value((edges, total));
  }

  /** The shift past `a` is a bijection from the first `n - 1` numbers onto the vertices other than `a`. */
  lemma SkipIsBijective(n: nat, a: nat, b: nat, v: nat)
    requires a < n && b < n - 1 && v < n && v != a
    ensures Skip(a, b) < n && Skip(a, b) != a && Unskip(a, Skip(a, b)) == b
    ensures Unskip(a, v) < n - 1 && Skip(a, Unskip(a, v)) == v
  {
  }

  /** An edge is what its three draws say: the first end is the first draw modulo n, the second the
      second draw modulo n - 1 with the first end skipped, the weight one more than the third draw
      modulo 1000. With the ranges of `IsEdge` this fixes the edge. */
  lemma EdgeFromDraws(n: nat, seed: int, m: nat, i: nat)
    requires n >= 2 && i < m
    ensures var (e, word) := (Edges(n, seed, m)[i], (seed % 0x1_0000_0000) as bv32);
            && IsEdge(n, e)
            && (Draw(word, 3 * i + 1) as int - e.a) % n == 0
            && (Draw(word, 3 * i + 2) as int - (if e.b > e.a then e.b - 1 else e.b)) % (n - 1) == 0
            && (Draw(word, 3 * i + 3) as int + 1 - e.w) % 1000 == 0
  {
    EdgeFromNumbers(n, Number(seed, 3 * i + 1), Number(seed, 3 * i + 2), Number(seed, 3 * i + 3));
    assert Edges(n, seed, m)[i] == EdgeAt(n, seed, i);
  }

  lemma EdgeFromNumbers(n: nat, x: nat, y: nat, z: nat)
    requires n >= 2
    ensures var e := Edge(x % n, Skip(x % n, y % (n - 1)), 1 + z % 1000);
            && IsEdge(n, e) && (x - e.a) % n == 0 && (z + 1 - e.w) % 1000 == 0
            && (y - (if e.b > e.a then e.b - 1 else e.b)) % (n - 1) == 0
  {
    SkipIsBijective(n, x % n, y % (n - 1), if x % n == 0 then 1 else 0);
    RemainderCancels(x, n);
    RemainderCancels(y, n - 1);
    RemainderCancels(z, 1000);
  }

  lemma RemainderCancels(x: nat, den: nat)
    requires den > 0
    ensures (x - x % den) % den == 0
  {
    DivideIdentity(x, den);
    DivideUnique(x - x % den, den, x / den, 0);
  }

  lemma EdgeOf(n: nat, seed: int, i: nat, x: nat, y: nat, z: nat)
    requires n >= 2 && Number(seed, 3 * i + 1) == x && Number(seed, 3 * i + 2) == y && Number(seed, 3 * i + 3) == z
    ensures EdgeAt(n, seed, i) == Edge(x % n, Skip(x % n, y % (n - 1)), 1 + z % 1000)
  {
  }

  /** The two edges generated for two vertices and seed 1. */
  lemma KnownGraph(seed: int)
    requires seed % 0x1_0000_0000 == 1
    ensures Edges(2, seed, 2) == [Edge(1, 0, 462), Edge(1, 0, 505)]
  {
    FirstDraws();
    assert SeedWord(seed) == 1;
    EdgeOf(2, seed, 0, 270369, 67634689, 2647435461);
    EdgeOf(2, seed, 1, 307599695, 2398689233, 745495504);
  }

  /** Ends in range, no self-loop, weight between 1 and 1000. */
  predicate IsEdge(n: nat, e: Edge) {
    e.a < n && e.b < n && e.a != e.b && 1 <= e.w <= 1000
  }

  ghost predicate IsGraph(n: nat, e: seq<Edge>) {
    forall i :: 0 <= i < |e| ==> IsEdge(n, e[i])
  }

  lemma EdgesAreWellFormed(n: nat, seed: int, m: nat)
    requires n >= 2
    ensures IsGraph(n, Edges(n, seed, m))
    ensures forall e <- Edges(n, seed, m) :: e.a < n && e.b < n && e.a != e.b && 1 <= e.w <= 1000
    ensures m <= TotalWeight(Edges(n, seed, m)) <= 1000 * m
  {
    forall i | 0 <= i < m ensures IsEdge(n, EdgeAt(n, seed, i)) {
      var a := Number(seed, 3 * i + 1) % n;
      SkipIsBijective(n, a, Number(seed, 3 * i + 2) % (n - 1), if a == 0 then 1 else 0);
    }
    WeightBounds(n, Edges(n, seed, m));
  }

  lemma {:induction false} WeightBounds(n: nat, e: seq<Edge>)
    requires IsGraph(n, e)
    ensures |e| <= TotalWeight(e) <= 1000 * |e|
  {
    if e != [] {
      WeightBounds(n, e[..|e| - 1]);
      assert IsEdge(n, e[|e| - 1]);
    }
  }

  /** Seed zero, which the statement allows, generates the same edge over and over. */
  lemma SeedZeroRepeatsOneEdge(n: nat, seed: int, m: nat)
    requires n >= 2 && seed % 0x1_0000_0000 == 0
    ensures forall i :: 0 <= i < m ==> Edges(n, seed, m)[i] == Edge(0, 1, 1)
  {
    forall i | 0 <= i < m ensures EdgeAt(n, seed, i) == Edge(0, 1, 1) {
      SeedZeroDraws(seed, 3 * i + 1);
      SeedZeroDraws(seed, 3 * i + 2);
      SeedZeroDraws(seed, 3 * i + 3);
      EdgeOfZeros(n, seed, i);
    }
  }

  lemma SeedZeroDraws(seed: int, k: nat)
    requires seed % 0x1_0000_0000 == 0
    ensures Number(seed, k) == 0
  {
    DrawsAreInjective(SeedWord(seed), 0, k);
  }

  lemma EdgeOfZeros(n: nat, seed: int, i: nat)
    requires n >= 2 && Number(seed, 3 * i + 1) == Number(seed, 3 * i + 2) == Number(seed, 3 * i + 3) == 0
    ensures EdgeAt(n, seed, i) == Edge(0, 1, 1)
  {
  }

  // ---- Rounding ---------------------------------------------------------------------------------------

  /** The fraction `num / den` rounded to the nearest integer, halves to the even one. */
  function RoundHalfEven(num: nat, den: nat): nat
    requires den > 0
  {
    var q, r := num / den, num % den;
    if 2 * r < den || (2 * r == den && q % 2 == 0) then q else q + 1
  }

  /** No integer is nearer, and of two equally near the even one is taken. */
  lemma RoundIsNearest(num: nat, den: nat)
    requires den > 0
    ensures var off := num - RoundHalfEven(num, den) * den;
            0 <= den + 2 * off && 2 * off <= den
            && (2 * off == den || den + 2 * off == 0 ==> RoundHalfEven(num, den) % 2 == 0)
  {
    DivideIdentity(num, den);
    var q := num / den;
    assert (q + 1) * den == q * den + den;
  }

  /** `round` on a floating-point value. */
  function RoundReal(f: real): int {
    var q := f.Floor;
    var d := f - q as real;
    if d < 0.5 || (d == 0.5 && q % 2 == 0) then q else q + 1
  }

  lemma RoundNear(f: real, k: int)
    requires k as real - 0.5 < f < k as real + 0.5
    ensures RoundReal(f) == k
  {
  }

  const HALF_ULP: real := 1.0 / 9007199254740992.0

  /** `f` is a correctly rounded double for `num / den`: within a relative error of two to the power of
      minus 53, and exact when the quotient is a multiple of one half (those in range are doubles). */
  predicate IsQuotient(f: real, num: nat, den: nat)
    requires den > 0
  {
    && num as real - num as real * HALF_ULP <= f * den as real <= num as real + num as real * HALF_ULP
    && (2 * num % den == 0 ==> f * den as real == num as real)
  }

  /** Dividing in floating point and rounding gives the rounded exact fraction, for every cut within
      the limits of the problem statement: a quotient that is not a half stays on its side of one. */
  lemma FloatDivisionIsFaithful(cut: nat, total: nat, f: real)
    requires 0 < total <= 200_000_000 && cut <= total && IsQuotient(f, 1_000_000 * cut, total)
    ensures RoundReal(f) == RoundHalfEven(1_000_000 * cut, total)
  {
    QuotientRounds(1_000_000 * cut, total, f);
  }

  lemma QuotientRounds(num: nat, den: nat, f: real)
    requires den > 0 && num <= 200_000_000_000_000 && IsQuotient(f, num, den)
    ensures RoundReal(f) == RoundHalfEven(num, den)
  {
    var q, r := num / den, num % den;
    DivideIdentity(num, den);
    assert RoundHalfEven(num, den) == if 2 * r < den || (2 * r == den && q % 2 == 0) then q else q + 1;
    PartsRound(num, q, r, den, f);
  }

  lemma PartsRound(num: nat, q: nat, r: nat, den: nat, f: real)
    requires num <= 200_000_000_000_000 && r < den && num == q * den + r && IsQuotient(f, num, den)
    ensures RoundReal(f) == if 2 * r < den || (2 * r == den && q % 2 == 0) then q else q + 1
  {
    if 2 * r == den {
      HalfIsExact(q, r, den, f);
    } else {
      OffHalfRounds(num, q, r, den, f);
    }
  }

  lemma OffHalfRounds(num: nat, q: nat, r: nat, den: nat, f: real)
    requires num <= 200_000_000_000_000 && r < den && 2 * r != den && num == q * den + r
    requires num as real - num as real * HALF_ULP <= f * den as real <= num as real + num as real * HALF_ULP
    ensures RoundReal(f) == if 2 * r < den then q else q + 1
  {
    ErrorIsSmall(num as real);
    RealParts(num, den, q, r);
    var k := if 2 * r < den then q else q + 1;
    NotHalfStaysNear(q, r, den, f, k);
    RoundNear(f, k);
  }

  lemma RealParts(num: nat, den: nat, q: nat, r: nat)
    requires num == q * den + r
    ensures num as real == q as real * den as real + r as real
  {
  }

  lemma ErrorIsSmall(x: real)
    requires 0.0 <= x <= 200_000_000_000_000.0
    ensures x * HALF_ULP < 0.25
  {
  }

  lemma HalfIsExact(q: nat, r: nat, den: nat, f: real)
    requires den > 0 && 2 * r == den && IsQuotient(f, q * den + r, den)
    ensures RoundReal(f) == if q % 2 == 0 then q else q + 1
  {
    var num := q * den + r;
    assert 2 * num == (2 * q + 1) * den;
    DivideUnique(2 * num, den, 2 * q + 1, 0);
    assert f * den as real == num as real == q as real * den as real + 0.5 * den as real == (q as real + 0.5) * den as real;
    CancelFactor(f, q as real + 0.5, den as real);
  }

  /** `q * d + r` is off every half by at least half a unit, so an error below a quarter cannot reach one. */
  lemma NotHalfStaysNear(q: nat, r: nat, den: nat, f: real, k: nat)
    requires r < den && 2 * r != den && k == (if 2 * r < den then q else q + 1)
    requires q as real * den as real + r as real - 0.25 < f * den as real < q as real * den as real + r as real + 0.25
    ensures k as real - 0.5 < f < k as real + 0.5
  {
    var (d, n, x) := (den as real, q as real, r as real);
    Difference(f, n, d);
    if 2 * r < den {
      assert 2.0 * x + 1.0 <= d;
      OffsetWithinHalf(f - n, d, x);
    } else {
      assert 2.0 * x - 1.0 >= d;
      OffsetBeyondHalf(f - n, d, x);
    }
  }

  lemma OffsetWithinHalf(e: real, d: real, x: real)
    requires d > 0.0 && 0.0 <= x && 2.0 * x + 1.0 <= d && x - 0.25 < e * d < x + 0.25
    ensures -0.5 < e < 0.5
  {
    if e >= 0.5 {
      KeepsOrder(e, 0.5, d);
    } else if e <= -0.5 {
      KeepsOrder(-0.5, e, d);
    }
  }

  lemma OffsetBeyondHalf(e: real, d: real, x: real)
    requires d > 0.0 && 2.0 * x - 1.0 >= d && x <= d - 1.0 && x - 0.25 < e * d < x + 0.25
    ensures 0.5 < e < 1.5
  {
    if e >= 1.5 {
      KeepsOrder(e, 1.5, d);
    } else if e <= 0.5 {
      KeepsOrder(0.5, e, d);
    }
  }

  // ---- The score ------------------------------------------------------------------------------------------

  predicate IsColouring(n: int, colors: seq<int>) {
    |colors| == n && forall i :: 0 <= i < |colors| ==> colors[i] == 0 || colors[i] == 1
  }

  predicate Cuts(colors: seq<int>, e: Edge)
    requires e.a < |colors| && e.b < |colors|
  {
    colors[e.a] != colors[e.b]
  }

  function CutWeight(colors: seq<int>, e: seq<Edge>): nat
    requires IsGraph(|colors|, e)
  {
    if e == [] then 0
    else CutWeight(colors, e[..|e| - 1]) + if Cuts(colors, e[|e| - 1]) then e[|e| - 1].w else 0
  }

  /** The cut adds up over the edges, each cut edge with its weight. */
  lemma {:induction false} CutIsAdditive(colors: seq<int>, e: seq<Edge>, f: seq<Edge>)
    requires IsGraph(|colors|, e) && IsGraph(|colors|, f)
    ensures IsGraph(|colors|, e + f) && CutWeight(colors, e + f) == CutWeight(colors, e) + CutWeight(colors, f)
    ensures forall x :: f == [x] ==> CutWeight(colors, f) == if colors[x.a] != colors[x.b] then x.w else 0
    decreases |f|
  {
    if f == [] {
      assert e + f == e;
    } else {
      var (init, last) := (f[..|f| - 1], f[|f| - 1]);
      assert (e + f)[..|e + f| - 1] == e + init;
      CutIsAdditive(colors, e, init);
      assert IsEdge(|colors|, last);
    }
  }

  /** The score of a readable, valid colouring of a nonempty graph. */
  function ScoreOf(n: nat, m: nat, seed: int, colors: seq<int>): nat
    requires n >= 2 && m >= 1 && IsColouring(n, colors)
  {
    EdgesAreWellFormed(n, seed, m);
    RoundHalfEven(1_000_000 * CutWeight(colors, Edges(n, seed, m)), TotalWeight(Edges(n, seed, m)))
  }

  /** `score`; `output` is absent when the output cannot be read as integers. */
  method Score(n: int, m: int, seed: int, output: Option<seq<int>>) returns (r: Outcome<int>)
    ensures output.None? || !IsColouring(n, output.value) ==> r == Value(0)
    ensures output.Some? && IsColouring(n, output.value) ==>
      r == if n >= 2 && m >= 1 then Value(ScoreOf(n, m, seed, output.value)) else Raised
  {
    if output.None? {
      return Value(0);
    }
    var colors := output.value;
    if |colors| != n {
      return Value(0);
    }
    if exists i :: 0 <= i < |colors| && colors[i] != 0 && colors[i] != 1 {
      return Value(0);
    }
    var graph := GenerateGraph(n, m, seed);
    if graph.Raised? {
      return Raised;
    }
    var (edges, total) := graph.value;
    if n >= 2 && m >= 1 {
      EdgesAreWellFormed(n, seed, m);
    }
    var cut: nat := 0;
    for i := 0 to |edges|
      invariant IsGraph(|colors|, edges) && cut == CutWeight(colors, edges[..i])
    {
      assert edges[..i + 1][..i] == edges[..i];
      var e := edges[i];
      if colors[e.a] != colors[e.b] {
        cut := cut + e.w;
      }
    }
    assert edges[..|edges|] == edges;
    if total == 0 {
      return Raised;
    }
    r := Value(RoundHalfEven(1_000_000 * cut, total));
  }

  lemma {:induction false} CutAtMostTotal(colors: seq<int>, e: seq<Edge>)
    requires IsGraph(|colors|, e)
    ensures CutWeight(colors, e) <= TotalWeight(e)
    ensures CutWeight(colors, e) == TotalWeight(e) <==> forall i :: 0 <= i < |e| ==> Cuts(colors, e[i])
    ensures CutWeight(colors, e) == 0 <==> forall i :: 0 <= i < |e| ==> !Cuts(colors, e[i])
  {
    if e != [] {
      CutAtMostTotal(colors, e[..|e| - 1]);
      assert IsEdge(|colors|, e[|e| - 1]);
    }
  }

  lemma RoundingIsMonotone(x: nat, y: nat, den: nat)
    requires den > 0 && x <= y
    ensures RoundHalfEven(x, den) <= RoundHalfEven(y, den)
  {
    QuotientIsMonotone(x, y, den);
    DivideIdentity(x, den);
    DivideIdentity(y, den);
  }

  lemma RoundsWhole(k: nat, den: nat)
    requires den > 0
    ensures RoundHalfEven(k * den, den) == k
  {
    DivideUnique(k * den, den, k, 0);
  }

  /** The score is within half a point of a million times the ratio of the cut to the total. */
  lemma ScoreIsNearRatio(n: nat, m: nat, seed: int, colors: seq<int>)
    requires n >= 2 && m >= 1 && IsColouring(n, colors)
    ensures IsGraph(|colors|, Edges(n, seed, m))
    ensures var (cut, total) := (CutWeight(colors, Edges(n, seed, m)), TotalWeight(Edges(n, seed, m)));
            var off := 1_000_000 * cut - ScoreOf(n, m, seed, colors) * total;
            0 <= total + 2 * off && 2 * off <= total
  {
    EdgesAreWellFormed(n, seed, m);
    RoundIsNearest(1_000_000 * CutWeight(colors, Edges(n, seed, m)), TotalWeight(Edges(n, seed, m)));
  }

  /** Between nothing and a million, and never lower for a larger cut. */
  lemma ScoreIsBoundedAndMonotone(cut: nat, cut': nat, total: nat)
    requires 0 < total && cut <= cut' <= total
    ensures RoundHalfEven(1_000_000 * cut, total) <= RoundHalfEven(1_000_000 * cut', total) <= 1_000_000
  {
    RoundingIsMonotone(1_000_000 * cut, 1_000_000 * cut', total);
    RoundingIsMonotone(1_000_000 * cut', 1_000_000 * total, total);
    RoundsWhole(1_000_000, total);
  }

  /** The score of a colouring is at most a million, and a million if every edge is cut. */
  lemma ScoreBounds(n: nat, m: nat, seed: int, colors: seq<int>)
    requires n >= 2 && m >= 1 && IsColouring(n, colors)
    ensures ScoreOf(n, m, seed, colors) <= 1_000_000
    ensures (forall e <- Edges(n, seed, m) :: e.a < n && e.b < n && colors[e.a] != colors[e.b]) ==> ScoreOf(n, m, seed, colors) == 1_000_000
  {
    var e := Edges(n, seed, m);
    EdgesAreWellFormed(n, seed, m);
    CutAtMostTotal(colors, e);
    ScoreIsBoundedAndMonotone(CutWeight(colors, e), CutWeight(colors, e), TotalWeight(e));
    RoundsWhole(1_000_000, TotalWeight(e));
  }

  /** Rounding forgives what is left uncut exactly as long as it is at most half a millionth. */
  lemma RoundsToFullIff(cut: nat, total: nat)
    requires 0 < total && cut <= total
    ensures RoundHalfEven(1_000_000 * cut, total) == 1_000_000 <==> 2_000_000 * (total - cut) <= total
  {
    var short := 1_000_000 * (total - cut);
    var num := 1_000_000 * cut;
    if short == 0 {
      RoundsWhole(1_000_000, total);
    } else if short <= total {
      DivideUnique(num, total, 999_999, total - short);
    } else {
      RoundingIsMonotone(num, 999_999 * total, total);
      RoundsWhole(999_999, total);
    }
  }

  /** When a colouring of a generated graph gets full marks: what it leaves uncut weighs at most half a
      millionth of the total. Below a total of two million, so for fewer than 2000 edges, that means
      every edge is cut. */
  lemma FullMarksIff(n: nat, m: nat, seed: int, colors: seq<int>)
    requires n >= 2 && m >= 1 && IsColouring(n, colors)
    ensures IsGraph(|colors|, Edges(n, seed, m))
    ensures var (cut, total) := (CutWeight(colors, Edges(n, seed, m)), TotalWeight(Edges(n, seed, m)));
            ScoreOf(n, m, seed, colors) == 1_000_000 <==> 2_000_000 * total <= total + 2_000_000 * cut
    ensures TotalWeight(Edges(n, seed, m)) < 2_000_000 || m < 2000 ==>
            (ScoreOf(n, m, seed, colors) == 1_000_000 <==> forall i :: 0 <= i < m ==> Cuts(colors, Edges(n, seed, m)[i]))
  {
    var e := Edges(n, seed, m);
    EdgesAreWellFormed(n, seed, m);
    CutAtMostTotal(colors, e);
    RoundsToFullIff(CutWeight(colors, e), TotalWeight(e));
  }

  lemma {:induction false} SwapKeepsCut(colors: seq<int>, swapped: seq<int>, e: seq<Edge>)
    requires |swapped| == |colors| && forall i :: 0 <= i < |colors| ==> swapped[i] == 1 - colors[i]
    requires IsGraph(|colors|, e)
    ensures CutWeight(swapped, e) == CutWeight(colors, e)
  {
    if e != [] {
      SwapKeepsCut(colors, swapped, e[..|e| - 1]);
      assert IsEdge(|colors|, e[|e| - 1]);
    }
  }

  /** Exchanging the two groups changes nothing. */
  lemma SwapKeepsScore(n: nat, m: nat, seed: int, colors: seq<int>, swapped: seq<int>)
    requires n >= 2 && m >= 1 && IsColouring(n, colors)
    requires |swapped| == n && forall i :: 0 <= i < n ==> swapped[i] == 1 - colors[i]
    ensures IsColouring(n, swapped) && ScoreOf(n, m, seed, swapped) == ScoreOf(n, m, seed, colors)
  {
    EdgesAreWellFormed(n, seed, m);
    SwapKeepsCut(colors, swapped, Edges(n, seed, m));
  }

  /** `f` is what the scorer's division gives. */
  predicate IsComputedRatio(f: real, n: nat, m: nat, seed: int, colors: seq<int>)
    requires n >= 2 && m >= 1 && IsColouring(n, colors)
  {
    EdgesAreWellFormed(n, seed, m);
    IsQuotient(f, 1_000_000 * CutWeight(colors, Edges(n, seed, m)), TotalWeight(Edges(n, seed, m)))
  }

  /** What the scorer prints, computed in floating point, is the score, within the limits of the
      problem statement. */
  lemma ScoreAsComputed(n: nat, m: nat, seed: int, colors: seq<int>, f: real)
    requires n >= 2 && 1 <= m <= 200_000 && IsColouring(n, colors)
    requires IsComputedRatio(f, n, m, seed, colors)
    ensures RoundReal(f) == ScoreOf(n, m, seed, colors)
  {
    EdgesAreWellFormed(n, seed, m);
    CutAtMostTotal(colors, Edges(n, seed, m));
    FloatDivisionIsFaithful(CutWeight(colors, Edges(n, seed, m)), TotalWeight(Edges(n, seed, m)), f);
  }

  /** With seed zero only the first two vertices matter: full marks if they differ, else nothing. */
  lemma SeedZeroScore(n: nat, m: nat, seed: int, colors: seq<int>)
    requires n >= 2 && m >= 1 && IsColouring(n, colors) && seed % 0x1_0000_0000 == 0
    ensures ScoreOf(n, m, seed, colors) == if colors[0] != colors[1] then 1_000_000 else 0
  {
    var e := Edges(n, seed, m);
    EdgesAreWellFormed(n, seed, m);
    SeedZeroRepeatsOneEdge(n, seed, m);
    CutAtMostTotal(colors, e);
    assert Cuts(colors, e[0]) <==> colors[0] != colors[1];
    RoundsWhole(1_000_000, TotalWeight(e));
    RoundsWhole(0, TotalWeight(e));
  }
}
