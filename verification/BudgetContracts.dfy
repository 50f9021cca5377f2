/** Integer helpers, bounds, records and the state machine of the token-budget breaker. */
module BudgetContracts {

  const LIMIT_TOKENS_MAX := 100000000000
  const MAX_TURNS_MAX := 1024
  const TURN_INDEX_MAX := 1023
  const TURN_TOKENS_MAX := 10000000
  const HORIZON_TURNS_MAX := 64

  // ---------------------------------------------------------------- integer helpers
  /** Python's -((-n) // d): floor division of the negation, negated. */
  function CeilDiv(n: int, d: int): int
    requires d > 0
  {
    -((-n) / d)
  }

  /** The least integer whose product with d reaches n. */
  lemma CeilDivIsLeast(n: int, d: int, q: int)
    requires d > 0
    ensures CeilDiv(n, d) * d >= n
    ensures q * d >= n ==> q >= CeilDiv(n, d)
  {
    var c := CeilDiv(n, d);
    assert (-n) == ((-n) / d) * d + (-n) % d;
    assert c * d == -(((-n) / d) * d);
    assert (c - 1) * d == c * d - d;
    if q < c { MulMonotone(q, c - 1, d); }
  }

  lemma MulMonotone(a: int, b: int, d: int)
    requires a <= b && d >= 0
    ensures a * d <= b * d
  {
  }

  /** math.isqrt: the greatest integer whose square does not exceed v. */
  function Isqrt(v: nat): (r: nat)
    ensures r * r <= v < (r + 1) * (r + 1)
  {
    if v == 0 then 0
    else
      var r := Isqrt(v - 1);
      if (r + 1) * (r + 1) <= v then r + 1 else r
  }

  function CeilIsqrt(v: nat): nat {
    var root := Isqrt(v);
    if root * root == v then root else root + 1
  }

  lemma SquareMonotone(a: nat, b: nat)
    requires a <= b
    ensures a * a <= b * b
  {
    assert a * a <= a * b <= b * b;
  }

  /** The least integer whose square covers v. */
  lemma CeilIsqrtIsLeast(v: nat, q: nat)
    ensures CeilIsqrt(v) * CeilIsqrt(v) >= v
    ensures q * q >= v ==> q >= CeilIsqrt(v)
  {
    var root := Isqrt(v);
    if q < CeilIsqrt(v) {
      if root * root == v {
        SquareMonotone(q, root - 1);
        assert (root - 1) * (root - 1) == v - 2 * root + 1;
      } else {
        SquareMonotone(q, root);
      }
    }
  }

  // ---------------------------------------------------------------- records
  datatype RawTurn = RawTurn(index: nat, prompt: nat, completion: nat)

  /** One observed turn, within the closed intervals of its model. */
  type Turn = t: RawTurn | t.index <= TURN_INDEX_MAX && t.prompt <= TURN_TOKENS_MAX && t.completion <= TURN_TOKENS_MAX
    witness RawTurn(0, 0, 0)

  datatype RawBudget = RawBudget(sessionId: string, soft: nat, hard: nat, maxTurns: nat)

  type Budget = b: RawBudget |
      1 <= b.soft <= b.hard <= LIMIT_TOKENS_MAX && 1 <= b.maxTurns <= MAX_TURNS_MAX
    witness RawBudget("SES-0000", 1, 1, 1)

  datatype Forecast = Forecast(turns: seq<nat>, predicted: int, low: int, high: int)

  /** What the forecast contract accepts. */
  predicate IsForecast(f: Forecast) {
    && |f.turns| <= HORIZON_TURNS_MAX
    && (forall i :: 0 <= i < |f.turns| ==> f.turns[i] <= TURN_INDEX_MAX)
    && (forall i :: 0 < i < |f.turns| ==> f.turns[i] == f.turns[i - 1] + 1)
    && 0 <= f.low <= f.predicted <= f.high <= LIMIT_TOKENS_MAX
  }

  datatype DecisionKind = CONTINUE | FORCE_D3_PRUNING | EMERGENCY_HALT

  function Severity(k: DecisionKind): nat { match k case CONTINUE => 0 case FORCE_D3_PRUNING => 1 case EMERGENCY_HALT => 2 }

  /** costUnits counts ten-thousandths of a dollar: a decimal with exactly four places. */
  datatype Decision = Decision(sessionId: string, kind: DecisionKind, overrun: bool, costUnits: nat)

  predicate IsDecision(d: Decision) { d.overrun == (d.kind != CONTINUE) && d.costUnits < 1000000000000000000 }

  // ---------------------------------------------------------------- state machine
  datatype BreakerState =
    | RECEIVED | INGESTED | FORECASTED | DECIDED_CONTINUE | DECIDED_PRUNE | DECIDED_HALT | RECORDED | REJECTED_INVALID

  datatype BreakerEvent =
    | TELEMETRY_OK | VALIDATION_FAIL | FORECAST_OK | FORECAST_FAIL | WITHIN_SOFT | SOFT_CROSSED | HARD_CROSSED
    | WAL_COMMIT | WAL_RETRY_EXHAUSTED

  function Transition(s: BreakerState, e: BreakerEvent): BreakerState {
    if s == RECORDED || s == REJECTED_INVALID then s
    else match (s, e)
      case (RECEIVED, TELEMETRY_OK) => INGESTED
      case (INGESTED, FORECAST_OK) => FORECASTED
      case (FORECASTED, WITHIN_SOFT) => DECIDED_CONTINUE
      case (FORECASTED, SOFT_CROSSED) => DECIDED_PRUNE
      case (FORECASTED, HARD_CROSSED) => DECIDED_HALT
      case (DECIDED_CONTINUE, WAL_COMMIT) => RECORDED
      case (DECIDED_PRUNE, WAL_COMMIT) => RECORDED
      case (DECIDED_HALT, WAL_COMMIT) => RECORDED
      case (_, _) => REJECTED_INVALID
  }

  function StateFor(k: DecisionKind): BreakerState {
    match k case CONTINUE => DECIDED_CONTINUE case FORCE_D3_PRUNING => DECIDED_PRUNE case EMERGENCY_HALT => DECIDED_HALT
  }
}
