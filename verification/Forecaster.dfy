/** The token forecast: exact integer arithmetic, its closed forms, and why its contract never rejects. */
module Forecaster {
  import opened Wrappers
  import opened BudgetContracts

  // ---------------------------------------------------------------- sums
  function Tokens(t: Turn): nat { t.prompt + t.completion }

  function Series(history: seq<Turn>): seq<nat> { seq(|history|, i requires 0 <= i < |history| => Tokens(history[i])) }

  function Sum(xs: seq<nat>): nat { if xs == [] then 0 else xs[0] + Sum(xs[1..]) }

  function SumSquares(xs: seq<nat>): nat { if xs == [] then 0 else xs[0] * xs[0] + SumSquares(xs[1..]) }

  function Completions(history: seq<Turn>): seq<nat> {
    seq(|history|, i requires 0 <= i < |history| => history[i].completion)
  }

  // ---------------------------------------------------------------- the forecast
  datatype ForecastError = MaxTurnsOutOfRange | HorizonOutOfRange | EmptyHistory | HistoryTooLong | TurnsNotContiguous | ContractRejected

  predicate Contiguous(history: seq<Turn>) { forall i :: 0 <= i < |history| ==> history[i].index == i }

  function MeanCompletion(history: seq<Turn>): int
    requires history != []
  {
    CeilDiv(Sum(Completions(history)), |history|)
  }

  function Growth(history: seq<Turn>): int
    requires history != []
  {
    var n := |history|;
    if n >= 2 then
      var rise := history[n - 1].prompt - history[0].prompt;
      CeilDiv(if rise > 0 then rise else 0, n - 1)
    else history[0].completion
  }

  function Horizon(history: seq<Turn>, maxTurns: int, horizonTurns: int): int {
    if horizonTurns < maxTurns - |history| then horizonTurns else maxTurns - |history|
  }

  function Additional(pLast: int, mean: int, growth: int, horizon: int): int {
    if horizon > 0 then horizon * (pLast + mean) + growth * horizon * (horizon + 1) / 2 else 0
  }

  function VarianceNumerator(xs: seq<nat>): int { |xs| * SumSquares(xs) - Sum(xs) * Sum(xs) }

  function Sigma(xs: seq<nat>): nat
    requires xs != []
  {
    var clamped := if VarianceNumerator(xs) > 0 then VarianceNumerator(xs) else 0;
    ClampedVarianceNonNegative(clamped, |xs|);
    CeilIsqrt(CeilDiv(clamped, |xs| * |xs|))
  }

  lemma ClampedVarianceNonNegative(v: int, n: nat)
    requires v >= 0 && n > 0
    ensures n * n > 0 && CeilDiv(v, n * n) >= 0
  {
    assert n * n > 0;
  }

  function Width(xs: seq<nat>, additional: int, horizon: nat): int
    requires xs != []
  {
    if |xs| >= 2 then (196 * Sigma(xs) * CeilIsqrt(horizon) + 99) / 100 else CeilDiv(additional, 2)
  }

  function Range(from: nat, n: nat): seq<nat> { seq(n, i requires 0 <= i < n => from + i) }

  function ForecastOf(history: seq<Turn>, maxTurns: int, horizonTurns: int): Forecast
    requires history != [] && |history| <= maxTurns && horizonTurns >= 1
  {
    var n := |history|;
    var total := Sum(Series(history));
    var h := Horizon(history, maxTurns, horizonTurns);
    var additional := Additional(history[n - 1].prompt, MeanCompletion(history), Growth(history), h);
    var predicted := total + additional;
    var width := Width(Series(history), additional, h);
    Forecast(Range(n, h), predicted, if total > predicted - width then total else predicted - width, predicted + width)
  }

  function Predict(history: seq<Turn>, maxTurns: int, horizonTurns: int): Result<Forecast, ForecastError> {
    if !(1 <= maxTurns <= MAX_TURNS_MAX) then Err(MaxTurnsOutOfRange)
    else if !(1 <= horizonTurns <= HORIZON_TURNS_MAX) then Err(HorizonOutOfRange)
    else if history == [] then Err(EmptyHistory)
    else if |history| > maxTurns then Err(HistoryTooLong)
    else if !Contiguous(history) then Err(TurnsNotContiguous)
    else
      var f := ForecastOf(history, maxTurns, horizonTurns);
      if IsForecast(f) then Ok(f) else Err(ContractRejected)
  }

  predicate ValidInput(history: seq<Turn>, maxTurns: int, horizonTurns: int) {
    && 1 <= maxTurns <= 1024 && 1 <= horizonTurns <= 64
    && 1 <= |history| <= maxTurns && Contiguous(history)
  }

  // ---------------------------------------------------------------- closed form of the growth
  /** Turn k of the horizon costs the last prompt, the mean completion and k steps of growth. */
  function TurnByTurn(pLast: int, mean: int, growth: int, horizon: nat): int {
    if horizon == 0 then 0 else TurnByTurn(pLast, mean, growth, horizon - 1) + (pLast + mean + growth * horizon)
  }

  lemma {:induction false} TwiceTurnByTurn(p: int, m: int, g: int, h: nat)
    ensures 2 * TurnByTurn(p, m, g, h) == 2 * (h * (p + m)) + g * h * (h + 1)
  {
    if h > 0 {
      TwiceTurnByTurn(p, m, g, h - 1);
      assert (h - 1) * (p + m) == h * (p + m) - (p + m);
      assert g * (h - 1) * h + 2 * (g * h) == g * h * (h + 1);
    }
  }

  /** The closed form is the sum over the turns of the horizon; its halving is exact. */
  lemma AdditionalIsTurnByTurn(p: int, m: int, g: int, h: nat)
    ensures Additional(p, m, g, h) == TurnByTurn(p, m, g, h)
  {
    TwiceTurnByTurn(p, m, g, h);
  }

  /** What was observed plus the turn-by-turn sum over the remaining horizon. */
  function Predicted(history: seq<Turn>, maxTurns: int, horizonTurns: int): int
    requires history != [] && |history| <= maxTurns && horizonTurns >= 1
  {
    Sum(Series(history)) + TurnByTurn(history[|history| - 1].prompt, MeanCompletion(history), Growth(history),
                                      Horizon(history, maxTurns, horizonTurns))
  }

  lemma PredictedIsObservedPlusTurns(history: seq<Turn>, maxTurns: int, horizonTurns: int)
    requires history != [] && |history| <= maxTurns && horizonTurns >= 1
    ensures ForecastOf(history, maxTurns, horizonTurns).predicted == Predicted(history, maxTurns, horizonTurns)
  {
    hide Width;
    AdditionalIsTurnByTurn(history[|history| - 1].prompt, MeanCompletion(history), Growth(history),
                           Horizon(history, maxTurns, horizonTurns));
  }

  // ---------------------------------------------------------------- variance
  function SquaredDifferences(x: nat, ys: seq<nat>): int {
    if ys == [] then 0 else (x - ys[0]) * (x - ys[0]) + SquaredDifferences(x, ys[1..])
  }

  /** The sum of (x_i - x_j)^2 over all pairs i < j. */
  function PairwiseSquares(xs: seq<nat>): int {
    if xs == [] then 0 else SquaredDifferences(xs[0], xs[1..]) + PairwiseSquares(xs[1..])
  }

  function Expanded(x: int, m: int, s: int, q: int): int { m * (x * x) - 2 * (x * s) + q }

  lemma ExpandStep(x: int, y: int, m: int, s: int, q: int)
    ensures (x - y) * (x - y) >= 0
    ensures (x - y) * (x - y) + Expanded(x, m, s, q) == Expanded(x, m + 1, y + s, y * y + q)
  {
    SquareOfDifference(x, y);
    SquareNonNegative(x - y);
    Distribute(x, y, s);
    Successor(m, x * x);
  }

  lemma SquareOfDifference(x: int, y: int)
    ensures (x - y) * (x - y) == x * x - 2 * (x * y) + y * y
  {}

  lemma SquareNonNegative(z: int)
    ensures z * z >= 0
  {}

  lemma Distribute(x: int, y: int, s: int)
    ensures x * (y + s) == x * y + x * s
  {}

  lemma Successor(m: int, a: int)
    ensures (m + 1) * a == m * a + a
  {}

  lemma VarianceStep(x: int, m: int, s: int, q: int)
    ensures (m + 1) * (x * x + q) - (x + s) * (x + s) == Expanded(x, m, s, q) + (m * q - s * s)
  {
    assert (m + 1) * (x * x + q) == m * (x * x) + x * x + m * q + q;
    assert (x + s) * (x + s) == x * x + 2 * (x * s) + s * s;
  }

  lemma {:induction false} ExpandDifferences(x: nat, ys: seq<nat>)
    ensures SquaredDifferences(x, ys) == Expanded(x, |ys|, Sum(ys), SumSquares(ys))
    ensures SquaredDifferences(x, ys) >= 0
  {
    if ys != [] {
      hide Expanded;
      ExpandDifferences(x, ys[1..]);
      ExpandStep(x, ys[0], |ys[1..]|, Sum(ys[1..]), SumSquares(ys[1..]));
    }
  }

  /** The variance numerator equals the sum of squared pairwise differences, so the clamp at zero never fires. */
  lemma {:induction false} VarianceIsPairwise(xs: seq<nat>)
    ensures VarianceNumerator(xs) == PairwiseSquares(xs)
    ensures VarianceNumerator(xs) >= 0
  {
    if xs != [] {
      var x, rest := xs[0], xs[1..];
      VarianceIsPairwise(rest);
      ExpandDifferences(x, rest);
      VarianceStep(x, |rest|, Sum(rest), SumSquares(rest));
    }
  }

  predicate AllEqual(xs: seq<nat>) { forall i, j :: 0 <= i < j < |xs| ==> xs[i] == xs[j] }

  lemma {:induction false} DifferencesZeroIff(x: nat, ys: seq<nat>)
    ensures SquaredDifferences(x, ys) == 0 <==> forall i :: 0 <= i < |ys| ==> ys[i] == x
  {
    if ys != [] {
      DifferencesZeroIff(x, ys[1..]);
      ExpandDifferences(x, ys[1..]);
      var d := x - ys[0];
      assert d * d >= 0 && (d * d == 0 <==> d == 0);
      assert forall i :: 0 < i < |ys| ==> ys[i] == ys[1..][i - 1];
    }
  }

  lemma {:induction false} PairwiseZeroIff(xs: seq<nat>)
    ensures PairwiseSquares(xs) == 0 <==> AllEqual(xs)
  {
    if xs != [] {
      var rest := xs[1..];
      PairwiseZeroIff(rest);
      DifferencesZeroIff(xs[0], rest);
      ExpandDifferences(xs[0], rest);
      VarianceIsPairwise(rest);
      if AllEqual(xs) {
        assert forall i :: 0 <= i < |rest| ==> rest[i] == xs[i + 1];
      }
      if AllEqual(rest) && (forall i :: 0 <= i < |rest| ==> rest[i] == xs[0]) {
        forall i, j | 0 <= i < j < |xs| ensures xs[i] == xs[j] {
          assert xs[j] == rest[j - 1];
          if i > 0 { assert xs[i] == rest[i - 1]; }
        }
      }
    }
  }

  /** sigma is the least integer whose square, times n squared, covers the pairwise differences. */
  lemma SigmaIsLeast(xs: seq<nat>, r: nat)
    requires xs != []
    ensures Sigma(xs) * Sigma(xs) * (|xs| * |xs|) >= PairwiseSquares(xs)
    ensures r * r * (|xs| * |xs|) >= PairwiseSquares(xs) ==> r >= Sigma(xs)
  {
    VarianceIsPairwise(xs);
    var n2, v := |xs| * |xs|, VarianceNumerator(xs);
    ClampedVarianceNonNegative(v, |xs|);
    var variance := CeilDiv(v, n2);
    LeastCover(v, n2, variance, CeilIsqrt(variance), r);
  }

  // The least root of the least quotient is the least root of the whole.
  lemma LeastCover(v: int, n2: int, variance: nat, s: nat, r: nat)
    requires n2 > 0 && variance == CeilDiv(v, n2) && s == CeilIsqrt(variance)
    ensures s * s * n2 >= v
    ensures r * r * n2 >= v ==> r >= s
  {
    hide CeilDiv;
    hide CeilIsqrt;
    CeilDivIsLeast(v, n2, r * r);
    CeilIsqrtIsLeast(variance, r);
    MulMonotone(variance, s * s, n2);
  }

  /** With two turns or more the interval is a point exactly when all turns are equal or no turn is left. */
  lemma WidthZeroIff(xs: seq<nat>, additional: int, horizon: nat)
    requires |xs| >= 2
    ensures Width(xs, additional, horizon) == 0 <==> AllEqual(xs) || horizon == 0
  {
    hide Sigma;
    hide CeilIsqrt;
    hide AllEqual;
    SigmaZeroIff(xs);
    CeilIsqrtIsLeast(horizon, 0);
    HalfWidthZeroIff(Sigma(xs), CeilIsqrt(horizon));
  }

  lemma SigmaZeroIff(xs: seq<nat>)
    requires xs != []
    ensures Sigma(xs) == 0 <==> AllEqual(xs)
  {
    hide Sigma;
    hide PairwiseSquares;
    hide VarianceNumerator;
    hide AllEqual;
    VarianceIsPairwise(xs);
    PairwiseZeroIff(xs);
    SigmaIsLeast(xs, 0);
    if Sigma(xs) == 0 { assert Sigma(xs) * Sigma(xs) * (|xs| * |xs|) == 0; }
  }

  lemma HalfWidthZeroIff(s: nat, c: nat)
    ensures (196 * s * c + 99) / 100 == 0 <==> s == 0 || c == 0
  {
    assert 196 * s * c == 196 * (s * c);
    if s > 0 && c > 0 { assert s * c >= 1; }
  }

  // ---------------------------------------------------------------- numeric bounds
  lemma {:induction false} SumBound(xs: seq<nat>, b: nat)
    requires forall i :: 0 <= i < |xs| ==> xs[i] <= b
    ensures Sum(xs) <= |xs| * b
    ensures SumSquares(xs) <= |xs| * (b * b)
  {
    if xs != [] {
      SumBound(xs[1..], b);
      SquareMonotone(xs[0], b);
      assert |xs| * b == |xs[1..]| * b + b;
      assert |xs| * (b * b) == |xs[1..]| * (b * b) + b * b;
    }
  }

  lemma CeilDivBound(n: int, d: int, q: int)
    requires d > 0 && 0 <= n <= q * d
    ensures 0 <= CeilDiv(n, d) <= q
  {
    CeilDivIsLeast(n, d, q);
  }

  lemma MeanBound(history: seq<Turn>)
    requires history != []
    ensures 0 <= MeanCompletion(history) <= TURN_TOKENS_MAX
  {
    SumBound(Completions(history), TURN_TOKENS_MAX);
    CeilDivBound(Sum(Completions(history)), |history|, TURN_TOKENS_MAX);
  }

  lemma GrowthBound(history: seq<Turn>)
    requires history != []
    ensures 0 <= Growth(history) <= TURN_TOKENS_MAX
  {
    var n := |history|;
    if n >= 2 {
      var rise := history[n - 1].prompt - history[0].prompt;
      var clamped := if rise > 0 then rise else 0;
      assert clamped <= TURN_TOKENS_MAX * (n - 1);
      CeilDivBound(clamped, n - 1, TURN_TOKENS_MAX);
    }
  }

  lemma AdditionalBound(p: int, m: int, g: int, h: nat)
    requires 0 <= p <= TURN_TOKENS_MAX && 0 <= m <= TURN_TOKENS_MAX && 0 <= g <= TURN_TOKENS_MAX && h <= 64
    ensures 0 <= Additional(p, m, g, h) <= 22080000000
  {
    assert 0 <= h * (p + m) <= 64 * 20000000;
    assert h * (h + 1) <= 64 * 65;
    assert 0 <= g * (h * (h + 1)) <= 10000000 * 4160;
    assert g * h * (h + 1) == g * (h * (h + 1));
  }

  lemma SigmaBound(xs: seq<nat>)
    requires xs != [] && forall i :: 0 <= i < |xs| ==> xs[i] <= 20000000
    ensures Sigma(xs) <= 20000000
  {
    var n, b := |xs|, 20000000;
    SumBound(xs, b);
    VarianceIsPairwise(xs);
    assert n * SumSquares(xs) <= n * (n * (b * b));
    assert n * (n * (b * b)) == b * b * (n * n);
    assert Sum(xs) * Sum(xs) >= 0;
    SigmaIsLeast(xs, b);
  }

  lemma WidthBound(xs: seq<nat>, additional: int, h: nat)
    requires xs != [] && (forall i :: 0 <= i < |xs| ==> xs[i] <= 20000000) && h <= 64
    requires 0 <= additional <= 22080000000
    ensures 0 <= Width(xs, additional, h) <= 11040000000
  {
    hide Sigma;
    hide CeilIsqrt;
    if |xs| >= 2 {
      SigmaBound(xs);
      CeilIsqrtIsLeast(h, 8);
      HalfWidthBound(Sigma(xs), CeilIsqrt(h));
    } else {
      CeilDivBound(additional, 2, 11040000000);
    }
  }

  lemma HalfWidthBound(s: nat, c: nat)
    requires s <= 20000000 && c <= 8
    ensures 0 <= (196 * s * c + 99) / 100 <= 11040000000
  {
    assert s * c <= 20000000 * 8;
    assert 196 * s * c == 196 * (s * c);
  }

  /** For every valid input the contract accepts the forecast, and the interval contains the point:
      so the prediction fails exactly on invalid input. */
  lemma PredictNeverRejects(history: seq<Turn>, maxTurns: int, horizonTurns: int)
    ensures Predict(history, maxTurns, horizonTurns).Ok? <==> ValidInput(history, maxTurns, horizonTurns)
    ensures ValidInput(history, maxTurns, horizonTurns) ==>
              var f := Predict(history, maxTurns, horizonTurns).value;
              && IsForecast(f) && f == ForecastOf(history, maxTurns, horizonTurns)
              && Sum(Series(history)) <= f.low
              && f.turns == Range(|history|, Horizon(history, maxTurns, horizonTurns))
  {
    if ValidInput(history, maxTurns, horizonTurns) {
      var n, xs := |history|, Series(history);
      var h := Horizon(history, maxTurns, horizonTurns);
      MeanBound(history);
      GrowthBound(history);
      SumBound(xs, 20000000);
      assert n * 20000000 <= 1024 * 20000000;
      AdditionalBound(history[n - 1].prompt, MeanCompletion(history), Growth(history), h);
      var additional := Additional(history[n - 1].prompt, MeanCompletion(history), Growth(history), h);
      WidthBound(xs, additional, h);
      var f := ForecastOf(history, maxTurns, horizonTurns);
      assert f.turns == Range(n, h);
      assert IsForecast(f);
    }
  }

  /** A longer horizon never predicts less. */
  lemma {:induction false} TurnByTurnMonotone(p: int, m: int, g: int, a: nat, b: nat)
    requires a <= b && p >= 0 && m >= 0 && g >= 0
    ensures TurnByTurn(p, m, g, a) <= TurnByTurn(p, m, g, b)
  {
    if a < b {
      TurnByTurnMonotone(p, m, g, a, b - 1);
      assert g * b >= 0;
    }
  }

  lemma PredictedMonotone(history: seq<Turn>, maxTurns1: int, horizon1: int, maxTurns2: int, horizon2: int)
    requires ValidInput(history, maxTurns1, horizon1) && ValidInput(history, maxTurns2, horizon2)
    requires Horizon(history, maxTurns1, horizon1) <= Horizon(history, maxTurns2, horizon2)
    ensures Sum(Series(history)) <= Predicted(history, maxTurns1, horizon1) <= Predicted(history, maxTurns2, horizon2)
  {
    hide MeanCompletion;
    hide Growth;
    MeanBound(history);
    GrowthBound(history);
    var p, m, g := history[|history| - 1].prompt, MeanCompletion(history), Growth(history);
    var a, b := Horizon(history, maxTurns1, horizon1), Horizon(history, maxTurns2, horizon2);
    assert TurnByTurn(p, m, g, 0) == 0;
    TurnByTurnMonotone(p, m, g, 0, a);
    TurnByTurnMonotone(p, m, g, a, b);
  }

  // ---------------------------------------------------------------- the numbers behind a forecast
  /** q is n / d rounded up. */
  predicate RoundsUp(q: int, n: int, d: int) { (q - 1) * d < n <= q * d }

  lemma CeilDivRoundsUp(n: int, d: int)
    requires d > 0
    ensures RoundsUp(CeilDiv(n, d), n, d)
  {
    CeilDivIsLeast(n, d, CeilDiv(n, d) - 1);
  }

  /** The completion tokens of the history. */
  function TotalCompletion(history: seq<Turn>): nat {
    if history == [] then 0 else TotalCompletion(history[..|history| - 1]) + history[|history| - 1].completion
  }

  function TotalTokens(history: seq<Turn>): nat {
    if history == [] then 0
    else TotalTokens(history[..|history| - 1]) + history[|history| - 1].prompt + history[|history| - 1].completion
  }

  lemma {:induction false} SumSnoc(xs: seq<nat>, x: nat)
    ensures Sum(xs + [x]) == Sum(xs) + x
  {
    if xs == [] {
      assert [] + [x] == [x];
    } else {
      assert (xs + [x])[1..] == xs[1..] + [x];
      SumSnoc(xs[1..], x);
    }
  }

  lemma {:induction false} TotalsAreSums(history: seq<Turn>)
    ensures Sum(Completions(history)) == TotalCompletion(history) && Sum(Series(history)) == TotalTokens(history)
  {
    if history == [] {
      assert Completions(history) == [] && Series(history) == [];
    } else {
      var n := |history| - 1;
      TotalsAreSums(history[..n]);
      assert Completions(history) == Completions(history[..n]) + [history[n].completion];
      assert Series(history) == Series(history[..n]) + [Tokens(history[n])];
      SumSnoc(Completions(history[..n]), history[n].completion);
      SumSnoc(Series(history[..n]), Tokens(history[n]));
    }
  }

  /** The mean is the completion tokens per turn, rounded up; the growth is the rise of the prompt per turn, rounded
      up, never negative, and the completion of the only turn when there is one. */
  lemma MeanAndGrowthAre(history: seq<Turn>)
    requires history != []
    ensures var n := |history|;
            && RoundsUp(MeanCompletion(history), TotalCompletion(history), n)
            && (n == 1 ==> Growth(history) == history[0].completion)
            && (n > 1 && history[n - 1].prompt <= history[0].prompt ==> Growth(history) == 0)
            && (n > 1 && history[n - 1].prompt > history[0].prompt ==>
                  RoundsUp(Growth(history), history[n - 1].prompt - history[0].prompt, n - 1))
  {
    hide RoundsUp;
    hide CeilDiv;
    TotalsAreSums(history);
    var n := |history|;
    CeilDivRoundsUp(Sum(Completions(history)), n);
    if n > 1 {
      CeilDivRoundsUp(history[n - 1].prompt - history[0].prompt, n - 1);
      ZeroQuotient(n - 1);
    }
  }

  lemma ZeroQuotient(d: int)
    requires d > 0
    ensures CeilDiv(0, d) == 0
  {
  }

  /** The interval of a forecast: one turn of history gives half of what is still to come, rounded up; more give
      1.96 sigma times the root of the horizon, rounded up; and it never falls below what was observed. */
  lemma IntervalIs(history: seq<Turn>, maxTurns: int, horizonTurns: int)
    requires ValidInput(history, maxTurns, horizonTurns)
    ensures var f := Predict(history, maxTurns, horizonTurns);
            && f.Ok?
            && (var n, total, width := |history|, TotalTokens(history), f.value.high - f.value.predicted;
                var h: nat := if horizonTurns < maxTurns - n then horizonTurns else maxTurns - n;
                && f.value.turns == Range(n, h)
                && (f.value.low == total || f.value.low == f.value.predicted - width)
                && f.value.low >= total && f.value.low >= f.value.predicted - width
                && (n == 1 ==> RoundsUp(width, f.value.predicted - total, 2))
                && (n > 1 ==> RoundsUp(width, 196 * Sigma(Series(history)) * CeilIsqrt(h), 100)))
  {
    hide Sigma;
    hide CeilIsqrt;
    hide MeanCompletion;
    hide Growth;
    hide Sum;
    PredictNeverRejects(history, maxTurns, horizonTurns);
    PredictedIsObservedPlusTurns(history, maxTurns, horizonTurns);
    TotalsAreSums(history);
    var n, h := |history|, Horizon(history, maxTurns, horizonTurns);
    var additional := Additional(history[n - 1].prompt, MeanCompletion(history), Growth(history), h);
    CeilDivRoundsUp(additional, 2);
  }
}
