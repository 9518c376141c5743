/** `format_score`: a score with six decimals, trailing zeros trimmed. */
module ScoreText {
  import opened Basics
  import opened Decimal

  const MILLION: nat := 1_000_000

  /** A score rounded to millionths, as `{:.6}` prints it; zero can carry a sign. */
  datatype Micros = Micros(negative: bool, amount: nat)

  function Sign(negative: bool): string {
    if negative then "-" else ""
  }

  /** `{:.6}` */
  function SixDecimals(v: Micros): string {
    Sign(v.negative) + Dec(v.amount / MILLION) + "." + Fixed(v.amount % MILLION, 6)
  }

  function TrimEnd(s: string, c: char): (r: string)
    ensures r <= s && (r != "" ==> r[|r| - 1] != c)
    ensures forall i :: |r| <= i < |s| ==> s[i] == c
  {
    if s != "" && s[|s| - 1] == c then TrimEnd(s[..|s| - 1], c) else s
  }

  function FormatScore(v: Micros): string {
    TrimEnd(TrimEnd(SixDecimals(v), '0'), '.')
  }

  // ---- What is printed ------------------------------------------------------------------------------

  /** The fraction digits that survive trimming. */
  function Fraction(v: Micros): string {
    TrimEnd(Fixed(v.amount % MILLION, 6), '0')
  }

  function WholePart(v: Micros): string {
    Sign(v.negative) + Dec(v.amount / MILLION)
  }

  /** The whole part is a minus sign if negative, and digits of which the first is a zero only if it is
      the only one. */
  lemma WholePartDigits(v: Micros)
    ensures var digits := if v.negative then WholePart(v)[1..] else WholePart(v);
            && (v.negative ==> WholePart(v)[0] == '-')
            && digits != "" && AllDigits(digits) && (digits[0] == '0' ==> digits == "0")
  {
    var digits := Dec(v.amount / MILLION);
    DecIsCanonical(v.amount / MILLION);
    assert WholePart(v) == if v.negative then ['-'] + digits else digits;
  }

  lemma {:induction false} TrimStopsAt(a: string, b: string, c: char)
    requires a != "" && a[|a| - 1] != c
    ensures TrimEnd(a + b, c) == a + TrimEnd(b, c)
    decreases |b|
  {
    if b == "" {
      assert a + b == a;
    } else if b[|b| - 1] == c {
      assert (a + b)[..|a + b| - 1] == a + b[..|b| - 1];
      TrimStopsAt(a, b[..|b| - 1], c);
    }
  }

  /** Trimming touches only the fraction: the sign and every digit of the whole part are printed, and
      a point only when fraction digits follow, the last of them not a zero. */
  lemma PrintedForm(v: Micros)
    ensures FormatScore(v) == if Fraction(v) == "" then WholePart(v) else WholePart(v) + "." + Fraction(v)
    ensures Fraction(v) != "" ==> Fraction(v)[|Fraction(v)| - 1] != '0'
  {
    var (w, d, f) := (WholePart(v), Fixed(v.amount % MILLION, 6), Fraction(v));
    TrimStopsAt(w + ".", d, '0');
    assert IsDigit(w[|w| - 1]);
    if f == "" {
      assert w + "." + f == w + ".";
      TrimStopsAt(w, ".", '.');
      assert TrimEnd(".", '.') == "";
    } else {
      assert IsDigit(f[|f| - 1]);
    }
  }

  lemma WholePartForm(v: Micros)
    ensures var w := WholePart(v);
            w != "" && IsDigit(w[|w| - 1]) && forall i :: 0 <= i < |w| ==> w[i] != '.'
  {
    var d := Dec(v.amount / MILLION);
    assert forall i :: 0 <= i < |d| ==> IsDigit(d[i]);
  }

  lemma FractionForm(v: Micros)
    ensures AllDigits(Fraction(v))
    ensures Fraction(v) != "" ==> Fraction(v)[|Fraction(v)| - 1] != '0'
  {
  }

  /** No output ends in a point, or in a zero after one. */
  lemma NoLooseEnd(v: Micros)
    ensures var s := FormatScore(v);
            && |s| > 0 && s[|s| - 1] != '.'
            && ((exists i :: 0 <= i < |s| && s[i] == '.') ==> s[|s| - 1] != '0')
  {
    PrintedForm(v);
    WholePartForm(v);
    FractionForm(v);
    var (s, f) := (FormatScore(v), Fraction(v));
    if f != "" {
      assert s[|s| - 1] == f[|f| - 1] && IsDigit(f[|f| - 1]);
    }
  }

  // ---- Reading it back --------------------------------------------------------------------------------

  function IndexOf(s: string, c: char): (k: nat)
    ensures k <= |s| && (k < |s| ==> s[k] == c)
    ensures forall i :: 0 <= i < k ==> s[i] != c
  {
    if s == "" || s[0] == c then 0
    else
      var k := IndexOf(s[1..], c);
      assert forall i :: 0 < i < k + 1 ==> s[i] == s[1..][i - 1];
      k + 1
  }

  /** Read an unsigned decimal with at most six fraction digits, as millionths. */
  function ParseBody(body: string): Option<nat> {
    var k := IndexOf(body, '.');
    ParseParts(body[..k], if k < |body| then body[k + 1..] else "")
  }

  function ParseParts(whole: string, frac: string): Option<nat> {
    if AllDigits(whole) && AllDigits(frac) && |frac| <= 6 then
      Some(Parse(whole) * MILLION + Parse(frac) * Pow10(6 - |frac|))
    else None
  }

  function ParseScore(s: string): Option<Micros> {
    var negative := s != "" && s[0] == '-';
    var amount := ParseBody(if negative then s[1..] else s);
    if amount.None? then None else Some(Micros(negative, amount.value))
  }

  /** The trimmed zeros are worth nothing. */
  lemma {:induction false} TrimmedZeros(s: string)
    requires AllDigits(s)
    ensures Parse(s) == Parse(TrimEnd(s, '0')) * Pow10(|s| - |TrimEnd(s, '0')|)
  {
    if s != "" && s[|s| - 1] == '0' {
      var t := s[..|s| - 1];
      TrimmedZeros(t);
      assert Value('0') == 0;
      ShiftOut(Parse(TrimEnd(t, '0')), |t| - |TrimEnd(t, '0')|);
    }
  }

  lemma ShiftOut(p: nat, n: nat)
    ensures p * Pow10(n + 1) == 10 * (p * Pow10(n))
  {
  }

  function Body(whole: string, frac: string): string {
    whole + if frac == "" then "" else "." + frac
  }

  lemma SplitBody(whole: string, frac: string)
    requires AllDigits(whole) && whole != ""
    ensures var (body, k) := (Body(whole, frac), IndexOf(Body(whole, frac), '.'));
            k == |whole| && body[..k] == whole && (k < |body| <==> frac != "") && (k < |body| ==> body[k + 1..] == frac)
            && IsDigit(body[0])
  {
    var body := Body(whole, frac);
    assert forall i :: 0 <= i < |whole| ==> body[i] == whole[i];
    assert frac != "" ==> body[|whole|] == '.';
  }

  lemma ParsePrinted(negative: bool, whole: string, frac: string)
    requires AllDigits(whole) && whole != "" && ParseParts(whole, frac).Some?
    ensures ParseScore(Sign(negative) + Body(whole, frac)) == Some(Micros(negative, ParseParts(whole, frac).value))
  {
    ParseBodyPrinted(whole, frac);
    SignIsFirst(negative, Body(whole, frac));
  }

  lemma SignIsFirst(negative: bool, body: string)
    requires body != "" && body[0] != '-'
    ensures var s := Sign(negative) + body;
            s != "" && (s[0] == '-' <==> negative) && (if negative then s[1..] else s) == body
  {
    assert Sign(false) + body == body;
  }

  lemma ParseBodyPrinted(whole: string, frac: string)
    requires AllDigits(whole) && whole != ""
    ensures ParseBody(Body(whole, frac)) == ParseParts(whole, frac)
    ensures Body(whole, frac) != "" && IsDigit(Body(whole, frac)[0])
  {
    SplitBody(whole, frac);
    var (body, k) := (Body(whole, frac), IndexOf(Body(whole, frac), '.'));
    assert body[..k] == whole;
    assert (if k < |body| then body[k + 1..] else "") == frac;
  }

  /** Reading a printed score gives the value back. */
  lemma ScoreRoundTrip(v: Micros)
    ensures ParseScore(FormatScore(v)) == Some(v)
  {
    PrintedBody(v);
    PartsValue(v);
    ParsePrinted(v.negative, Dec(v.amount / MILLION), Fraction(v));
  }

  lemma PrintedBody(v: Micros)
    ensures FormatScore(v) == Sign(v.negative) + Body(Dec(v.amount / MILLION), Fraction(v))
  {
    PrintedForm(v);
    SignThenBody(Sign(v.negative), Dec(v.amount / MILLION), Fraction(v));
  }

  lemma SignThenBody(sign: string, whole: string, frac: string)
    ensures sign + Body(whole, frac) == if frac == "" then sign + whole else sign + whole + "." + frac
  {
  }

  lemma PartsValue(v: Micros)
    ensures ParseParts(Dec(v.amount / MILLION), Fraction(v)) == Some(v.amount)
  {
    FractionValue(v);
    ParseDec(v.amount / MILLION);
  }

  lemma FractionValue(v: Micros)
    ensures AllDigits(Fraction(v)) && |Fraction(v)| <= 6
    ensures Parse(Fraction(v)) * Pow10(6 - |Fraction(v)|) == v.amount % MILLION
  {
    TrimmedZeros(Fixed(v.amount % MILLION, 6));
    assert Pow10(6) == 10 * Pow10(5) == 100 * Pow10(4) == 1000 * Pow10(3) == 10000 * Pow10(2) == 100000 * Pow10(1) == 1000000 * Pow10(0);
    ParseFixed(v.amount % MILLION, 6);
  }

  /** Two scores print alike exactly when they are the same millionth with the same sign. */
  lemma PrintsAlikeIff(a: Micros, b: Micros)
    ensures FormatScore(a) == FormatScore(b) <==> a == b
  {
    ScoreRoundTrip(a);
    ScoreRoundTrip(b);
  }
}
