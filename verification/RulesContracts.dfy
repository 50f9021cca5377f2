/** Contracts of the rules compiler: guards, manifests, derived ids and the two-stage state machine. */
module RulesContracts {
  import opened Digits
  import opened Identifiers
  import opened PyText

  const MAX_DIRECTIVE_CHARS := 1024
  const MAX_TARGET_CHARS := 256
  const MAX_RULES_PER_FILE := 256
  const MAX_LINE_NUMBER := 65536

  datatype RuleIntent = PATH_DENY | COMMAND_DENY | AST_DENY | IMPORT_DENY

  datatype PatternType = PATH_PREFIX | COMMAND_PREFIX | AST_CALL | IMPORT_MODULE

  function PatternFor(i: RuleIntent): PatternType {
    match i
    case PATH_DENY => PATH_PREFIX
    case COMMAND_DENY => COMMAND_PREFIX
    case AST_DENY => AST_CALL
    case IMPORT_DENY => IMPORT_MODULE
  }

  // ---------------------------------------------------------------- derived ids
  function Short(h: Sha256, s: string): string { if |h(s)| <= 16 then h(s) else h(s)[..16] }

  function RuleText(path: string, line: nat, directive: string): string { path + ":" + Decimal(line) + ":" + directive }

  function RuleId(h: Sha256, path: string, line: nat, directive: string): string {
    "RULE-" + Short(h, RuleText(path, line, directive))
  }

  function GuardId(h: Sha256, ruleId: string): string { "GRD-" + Short(h, ruleId) }

  /** A line number and a directive are determined by the text a rule id is derived from. */
  lemma RuleTextInjective(path: string, l1: nat, d1: string, l2: nat, d2: string)
    requires RuleText(path, l1, d1) == RuleText(path, l2, d2)
    ensures l1 == l2 && d1 == d2
  {
    var s := RuleText(path, l1, d1);
    var n1, n2 := Decimal(l1), Decimal(l2);
    var k := |path| + 1;
    assert s[k..] == n1 + ":" + d1 && s[k..] == n2 + ":" + d2;
    var t := s[k..];
    assert t[|n1|] == ':' && t[|n2|] == ':';
    assert forall i :: 0 <= i < |n1| ==> t[i] == n1[i] && t[i] != ':';
    assert forall i :: 0 <= i < |n2| ==> t[i] == n2[i] && t[i] != ':';
    assert |n1| == |n2|;
    assert n1 == t[..|n1|] && n2 == t[..|n2|];
    assert d1 == t[|n1| + 1..] && d2 == t[|n2| + 1..];
    ParseDecimal(l1);
    ParseDecimal(l2);
  }

  /** Two different texts of the set with the same sixteen leading characters of their hash. */
  ghost predicate ShortCollision(h: Sha256, texts: set<string>) {
    exists x, y :: x in texts && y in texts && x != y && Short(h, x) == Short(h, y)
  }

  // ---------------------------------------------------------------- guards and rules
  datatype Guard = Guard(guardId: string, ruleId: string, pattern: PatternType, target: string)

  predicate IsControl(c: char) { c < ' ' || c == 127 as char }

  predicate IsWildcardOnly(s: string) { s != "" && forall i :: 0 <= i < |s| ==> s[i] in {'*', '/', '.', '\\'} }

  /** A target the guard model accepts (after stripping). */
  predicate IsTarget(p: PatternType, t: string) {
    && 1 <= |t| <= MAX_TARGET_CHARS && !IsWildcardOnly(t)
    && (forall i :: 0 <= i < |t| ==> !IsControl(t[i]))
    && (p == PATH_PREFIX ==> ".." !in SplitOn(ReplaceChar(t, '\\', '/'), '/'))
  }

  predicate IsGuard(g: Guard) {
    MatchesId("GRD-", g.guardId) && MatchesId("RULE-", g.ruleId) && IsTarget(g.pattern, g.target)
  }

  datatype Rule = Rule(ruleId: string, directive: string, intent: RuleIntent, line: nat)

  predicate IsRule(r: Rule) {
    MatchesId("RULE-", r.ruleId) && 1 <= |r.directive| <= MAX_DIRECTIVE_CHARS && 1 <= r.line <= MAX_LINE_NUMBER
  }

  datatype Manifest = Manifest(guards: seq<Guard>, unenforceable: seq<string>, compiledCount: nat)

  predicate DistinctIds(guards: seq<Guard>) {
    forall i, j :: 0 <= i < j < |guards| ==> guards[i].guardId != guards[j].guardId
  }

  /** What the manifest model refuses to be built without. */
  predicate IsManifest(m: Manifest) {
    && (forall g :: g in m.guards ==> IsGuard(g))
    && (forall id :: id in m.unenforceable ==> MatchesId("RULE-", id))
    && m.compiledCount == |m.guards|
    && DistinctIds(m.guards)
    && (forall g :: g in m.guards ==> g.ruleId !in m.unenforceable)
    && |m.guards| + |m.unenforceable| <= MAX_RULES_PER_FILE
  }

  // ---------------------------------------------------------------- state machine
  datatype CompilerState = RECEIVED | PARSED | EXTRACTED | COMPILED | COMPILED_PARTIAL | EMITTED | REJECTED_INVALID

  datatype CompilerEvent =
    | PARSE_OK | VALIDATION_FAIL | CLAUSES_FOUND | NO_CLAUSES | PARSE_FAIL | COMPILE_OK | COMPILE_PARTIAL | COMPILE_FAIL
    | EMIT_OK | WAL_RETRY_EXHAUSTED

  function Transition(s: CompilerState, e: CompilerEvent): CompilerState {
    match (s, e)
    case (RECEIVED, PARSE_OK) => PARSED
    case (PARSED, CLAUSES_FOUND) => EXTRACTED
    case (PARSED, NO_CLAUSES) => EMITTED
    case (EXTRACTED, COMPILE_OK) => COMPILED
    case (EXTRACTED, COMPILE_PARTIAL) => COMPILED_PARTIAL
    case (COMPILED, EMIT_OK) => EMITTED
    case (COMPILED_PARTIAL, EMIT_OK) => EMITTED
    case (_, _) => REJECTED_INVALID
  }
}
