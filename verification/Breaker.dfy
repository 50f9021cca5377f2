/** The circuit breaker: forecast, compare, decide; and the fail-closed wrapper that only ever halts on error. */
module Breaker {
  import opened Wrappers
  import opened BudgetContracts
  import opened DecimalCost
  import opened Forecaster

  datatype BreakerError = ForecastFailed(error: ForecastError) | RateOutOfRange

  function KindFor(b: Budget, history: seq<Turn>, predicted: int): DecisionKind {
    if Sum(Series(history)) > b.hard || predicted > b.hard || |history| >= b.maxTurns then EMERGENCY_HALT
    else if predicted > b.soft then FORCE_D3_PRUNING
    else CONTINUE
  }

  datatype Decided = Decided(decision: Decision, forecast: Forecast, trace: seq<BreakerState>)

  /** The decision the documented precedence asks for; anything invalid halts. */
  function KindOf(b: Budget, history: seq<Turn>, horizonTurns: int, usd: Rate): DecisionKind {
    if ValidInput(history, b.maxTurns, horizonTurns) && ValidRate(usd)
    then KindFor(b, history, Predicted(history, b.maxTurns, horizonTurns))
    else EMERGENCY_HALT
  }

  /** Halted exactly when the prediction passes the hard limit or no turn is left; free to go on exactly when it stays
      within the soft limit and a turn is left; an overrun is anything but going on. What was observed never decides
      on its own, because it is part of the prediction. */
  predicate FollowsLimits(b: Budget, history: seq<Turn>, predicted: int, d: Decision) {
    && (d.kind == EMERGENCY_HALT <==> predicted > b.hard || |history| >= b.maxTurns)
    && (d.kind == CONTINUE <==> predicted <= b.soft && |history| < b.maxTurns)
    && (d.overrun <==> d.kind != CONTINUE)
  }

  /** Walks the state machine step by step. It decides exactly on valid input and a valid rate: the contracts of
      forecast and decision never get in the way. */
  method Decide(b: Budget, history: seq<Turn>, horizonTurns: int, usd: Rate) returns (r: Result<Decided, BreakerError>)
    ensures r.Ok? <==> ValidInput(history, b.maxTurns, horizonTurns) && ValidRate(usd)
    ensures r.Ok? ==> IsDecision(r.value.decision) && r.value.decision.sessionId == b.sessionId
                      && r.value.decision.kind == KindOf(b, history, horizonTurns, usd)
                      && 0 <= r.value.forecast.predicted && ValidRate(usd)
                      && r.value.decision.costUnits == CostUnits(r.value.forecast.predicted, usd)
    ensures r.Ok? ==> Predict(history, b.maxTurns, horizonTurns) == Ok(r.value.forecast)
    ensures r.Ok? ==> FollowsLimits(b, history, r.value.forecast.predicted, r.value.decision)
    ensures r.Ok? ==> r.value.trace == [RECEIVED, INGESTED, FORECASTED, StateFor(r.value.decision.kind)]
    ensures r.Err? ==> (r.error.RateOutOfRange? <==> ValidInput(history, b.maxTurns, horizonTurns))
    ensures r.Err? && r.error.ForecastFailed? ==> Predict(history, b.maxTurns, horizonTurns) == Err(r.error.error)
  {
    hide ForecastOf;
    hide Predicted;
    hide CostUnits;
    hide Series;
    hide Sum;
    hide Contiguous;
    hide IsForecast;
    hide Range;
    hide Horizon;
    hide ValidRate;
    PredictNeverRejects(history, b.maxTurns, horizonTurns);
    var state := RECEIVED;
    var trace := [state];
    state := Transition(state, TELEMETRY_OK);
    trace := trace + [state];
    var f := Predict(history, b.maxTurns, horizonTurns);
    if f.Err? { return Err(ForecastFailed(f.error)); }
    PredictedIsObservedPlusTurns(history, b.maxTurns, horizonTurns);
    var forecast := f.value;
    state := Transition(state, FORECAST_OK);
    trace := trace + [state];
    var observed := Sum(Series(history));
    var predicted := forecast.predicted;
    var kind, event, overrun;
    if observed > b.hard || predicted > b.hard || |history| >= b.maxTurns {
      kind, event, overrun := EMERGENCY_HALT, HARD_CROSSED, true;
    } else if predicted > b.soft {
      kind, event, overrun := FORCE_D3_PRUNING, SOFT_CROSSED, true;
    } else {
      kind, event, overrun := CONTINUE, WITHIN_SOFT, false;
    }
    state := Transition(state, event);
    trace := trace + [state];
    if !ValidRate(usd) { return Err(RateOutOfRange); }
    CostIsLeastCoverIff(predicted, usd);
    var cost := CostUnits(predicted, usd);
    assert trace == [RECEIVED, INGESTED, FORECASTED, StateFor(kind)];
    return Ok(Decided(Decision(b.sessionId, kind, overrun, cost), forecast, trace));
  }

  // ---------------------------------------------------------------- fail closed
  const REJECTED_TRACE := [RECEIVED, REJECTED_INVALID]

  datatype Verdict = Verdict(decision: Decision, forecast: Option<Forecast>, trace: seq<BreakerState>)

  /** Never fails; whatever prevents a decision halts. */
  method DecideFailClosed(b: Budget, history: seq<Turn>, horizonTurns: int, usd: Rate) returns (v: Verdict)
    ensures v.decision.kind == KindOf(b, history, horizonTurns, usd)
    ensures IsDecision(v.decision) && v.decision.sessionId == b.sessionId
    ensures v.forecast.Some? <==> ValidInput(history, b.maxTurns, horizonTurns) && ValidRate(usd)
    ensures v.forecast.Some? ==> Predict(history, b.maxTurns, horizonTurns) == Ok(v.forecast.value)
                                 && 0 <= v.forecast.value.predicted && ValidRate(usd)
                                 && v.decision.costUnits == CostUnits(v.forecast.value.predicted, usd)
                                 && v.trace == [RECEIVED, INGESTED, FORECASTED, StateFor(v.decision.kind)]
                                 && FollowsLimits(b, history, v.forecast.value.predicted, v.decision)
    ensures v.forecast.None? ==> v.decision == Decision(b.sessionId, EMERGENCY_HALT, true, 0) && v.trace == REJECTED_TRACE
  {
    hide Predict;
    hide Predicted;
    hide CostUnits;
    hide ValidInput;
    var r := Decide(b, history, horizonTurns, usd);
    match r {
      case Ok(d) => return Verdict(d.decision, Some(d.forecast), d.trace);
      case Err(_) => return Verdict(Decision(b.sessionId, EMERGENCY_HALT, true, 0), None, REJECTED_TRACE);
    }
  }

  // ---------------------------------------------------------------- order of decisions
  /** CONTINUE certifies the whole chain: observed, predicted, soft, hard, and a turn still left. */
  lemma ContinueCertifies(b: Budget, history: seq<Turn>, horizonTurns: int, usd: Rate)
    requires KindOf(b, history, horizonTurns, usd) == CONTINUE
    ensures ValidInput(history, b.maxTurns, horizonTurns) && |history| < b.maxTurns
    ensures Sum(Series(history)) <= Predicted(history, b.maxTurns, horizonTurns) <= b.soft <= b.hard
  {
    PredictedMonotone(history, b.maxTurns, horizonTurns, b.maxTurns, horizonTurns);
  }

  /** Looking further ahead never softens the decision. */
  lemma LongerHorizonNeverSofter(b: Budget, history: seq<Turn>, h1: int, h2: int, usd: Rate)
    requires 1 <= h1 <= h2
    ensures Severity(KindOf(b, history, h1, usd)) <= Severity(KindOf(b, history, h2, usd))
  {
    hide Predicted;
    if ValidInput(history, b.maxTurns, h2) { PredictedMonotone(history, b.maxTurns, h1, b.maxTurns, h2); }
  }

  /** Raising a token limit never hardens the decision. */
  lemma HigherLimitNeverHarder(b1: Budget, b2: Budget, history: seq<Turn>, horizonTurns: int, usd: Rate)
    requires b1.soft <= b2.soft && b1.hard <= b2.hard && b1.maxTurns == b2.maxTurns
    ensures Severity(KindOf(b2, history, horizonTurns, usd)) <= Severity(KindOf(b1, history, horizonTurns, usd))
  {
    hide Predicted;
  }

  /** What the first further turn would cost, up to its growth. */
  function StepCost(history: seq<Turn>): int
    requires history != []
  {
    history[|history| - 1].prompt + MeanCompletion(history) + Growth(history)
  }

  ghost predicate NeverHarder(history: seq<Turn>, t1: nat, t2: nat, horizonTurns: int, usd: Rate)
    requires 1 <= t1 <= MAX_TURNS_MAX && 1 <= t2 <= MAX_TURNS_MAX
  {
    forall soft: nat, hard: nat :: 1 <= soft <= hard <= LIMIT_TOKENS_MAX ==>
      Severity(KindOf(RawBudget("SES-0000", soft, hard, t2), history, horizonTurns, usd))
      <= Severity(KindOf(RawBudget("SES-0000", soft, hard, t1), history, horizonTurns, usd))
  }

  lemma HarderForecast(history: seq<Turn>, t1: nat, t2: nat, horizonTurns: int)
    requires ValidInput(history, t1, horizonTurns) && |history| < t1 <= t2 <= MAX_TURNS_MAX
    ensures var p1, p2 := Predicted(history, t1, horizonTurns), Predicted(history, t2, horizonTurns);
            && Sum(Series(history)) <= p1 <= p2
            && (p1 == p2 <==> horizonTurns <= t1 - |history| || t1 == t2 || StepCost(history) == 0)
            && (StepCost(history) > 0 ==> p1 > 0)
  {
    hide Series;
    hide Sum;
    hide MeanCompletion;
    hide Growth;
    MeanBound(history);
    GrowthBound(history);
    var p, m, g := history[|history| - 1].prompt, MeanCompletion(history), Growth(history);
    TurnsStrict(p, m, g, Horizon(history, t1, horizonTurns), Horizon(history, t2, horizonTurns));
  }

  lemma {:induction false} TurnsStrict(p: int, m: int, g: int, a: nat, b: nat)
    requires 1 <= a <= b && p >= 0 && m >= 0 && g >= 0
    ensures 0 <= TurnByTurn(p, m, g, a) <= TurnByTurn(p, m, g, b)
    ensures TurnByTurn(p, m, g, a) == TurnByTurn(p, m, g, b) <==> a == b || p + m + g == 0
    ensures p + m + g > 0 ==> TurnByTurn(p, m, g, a) > 0
    decreases b
  {
    assert g * b >= 0 && (g > 0 ==> g * b > 0);
    if a < b {
      TurnsStrict(p, m, g, a, b - 1);
    } else if a > 1 {
      TurnsStrict(p, m, g, a - 1, a - 1);
    } else {
      assert TurnByTurn(p, m, g, 0) == 0;
    }
  }

  /** Raising the turn limit never hardens a decision, whatever the token limits, exactly when the old limit did not
      already cut the horizon, or every decision under it halts anyway, or nothing changes, or further turns are free. */
  lemma MoreTurnsNeverHarderIff(history: seq<Turn>, t1: nat, t2: nat, horizonTurns: int, usd: Rate)
    requires 1 <= t1 <= t2 <= MAX_TURNS_MAX
    ensures NeverHarder(history, t1, t2, horizonTurns, usd)
            <==> !ValidInput(history, t1, horizonTurns) || !ValidRate(usd) || |history| == t1
                 || horizonTurns <= t1 - |history| || t1 == t2 || StepCost(history) == 0
  {
    hide Predicted;
    hide Series;
    hide Sum;
    hide StepCost;
    if ValidInput(history, t1, horizonTurns) && ValidRate(usd) && |history| < t1 {
      HarderForecast(history, t1, t2, horizonTurns);
      var p1, p2 := Predicted(history, t1, horizonTurns), Predicted(history, t2, horizonTurns);
      if p1 < p2 {
        PredictNeverRejects(history, t1, horizonTurns);
        PredictedIsObservedPlusTurns(history, t1, horizonTurns);
        StepCostNonNegative(history);
        var limit: nat := p1;
        assert KindFor(RawBudget("SES-0000", limit, limit, t1), history, p1) == CONTINUE;
        assert KindFor(RawBudget("SES-0000", limit, limit, t2), history, p2) == EMERGENCY_HALT;
      }
    }
  }

  lemma OneTurn(history: seq<Turn>)
    requires history == [RawTurn(0, 0, 1)]
    ensures Sum(Series(history)) == 1 && MeanCompletion(history) == 1 && Growth(history) == 1
  {
    hide TurnByTurn;
    var one: seq<nat> := [1];
    assert Series(history) == one && Completions(history) == one;
    assert one[1..] == [] && Sum(one) == 1;
  }

  lemma SmallForecast(history: seq<Turn>)
    requires history == [RawTurn(0, 0, 1)]
    ensures Sum(Series(history)) == 1 && Predicted(history, 2, 2) == 3 && Predicted(history, 3, 2) == 6
  {
    hide Sum;
    hide Series;
    hide MeanCompletion;
    hide Growth;
    OneTurn(history);
    TwiceTurnByTurn(0, 1, 1, 1);
    TwiceTurnByTurn(0, 1, 1, 2);
  }

  /** A session that may continue with two turns and is halted with three. */
  lemma MoreTurnsCanHarden(usd: Rate)
    requires ValidRate(usd)
    ensures var history := [RawTurn(0, 0, 1)];
            && KindOf(RawBudget("SES-0000", 3, 3, 2), history, 2, usd) == CONTINUE
            && KindOf(RawBudget("SES-0000", 3, 3, 3), history, 2, usd) == EMERGENCY_HALT
  {
    hide Predicted;
    hide Series;
    hide Sum;
    hide ValidRate;
    SmallForecast([RawTurn(0, 0, 1)]);
  }

  lemma StepCostNonNegative(history: seq<Turn>)
    requires history != []
    ensures StepCost(history) >= 0
  {
    MeanBound(history);
    GrowthBound(history);
  }

  lemma {:induction false} SumPrefix(xs: seq<nat>, ys: seq<nat>)
    requires xs <= ys
    ensures Sum(xs) <= Sum(ys)
  {
    if xs != [] { SumPrefix(xs[1..], ys[1..]); }
  }

  /** Past the hard limit or out of turns, every extension of the history halts, valid or not. */
  lemma HaltIsForever(b: Budget, history: seq<Turn>, extended: seq<Turn>, horizonTurns: int, usd: Rate)
    requires history <= extended
    requires Sum(Series(history)) > b.hard || |history| >= b.maxTurns
    ensures KindOf(b, extended, horizonTurns, usd) == EMERGENCY_HALT
  {
    hide Predicted;
    assert Series(history) <= Series(extended);
    SumPrefix(Series(history), Series(extended));
  }
}
