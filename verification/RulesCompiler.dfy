/** Compilation of extracted clauses into deduplicated guards. */
module RulesCompiler {
  import opened Wrappers
  import opened Identifiers
  import opened PyText
  import opened RulesContracts
  import opened RulesEnforcer

  /** A normative clause and the line it was found on. */
  datatype Clause = Clause(line: nat, directive: string)

  /** The classifier and the fallback intent are functions of the directive alone. */
  datatype Config = Config(
    hash: Sha256,
    classify: string -> Option<(RuleIntent, string)>,
    tentative: string -> RuleIntent,
    path: string)

  datatype Outcome = Rejected | Raised | Emitted(manifest: Manifest, rules: seq<Rule>)

  function IdOf(k: Config, c: Clause): string { RuleId(k.hash, k.path, c.line, c.directive) }

  predicate Classified(k: Config, c: Clause) { k.classify(c.directive).Some? }

  /** What duplicates are recognised by: the pattern and the target before its outer space is stripped. */
  function KeyOf(k: Config, c: Clause): (PatternType, string)
    requires Classified(k, c)
  {
    var r := k.classify(c.directive).value;
    (PatternFor(r.0), r.1)
  }

  function GuardOf(k: Config, c: Clause): Guard
    requires Classified(k, c)
  {
    Guard(GuardId(k.hash, IdOf(k, c)), IdOf(k, c), KeyOf(k, c).0, Strip(KeyOf(k, c).1))
  }

  function RuleOf(k: Config, c: Clause): Rule {
    var r := k.classify(c.directive);
    Rule(IdOf(k, c), Strip(c.directive), if r.Some? then r.value.0 else k.tentative(c.directive), c.line)
  }

  // ---------------------------------------------------------------- reference results, clause by clause
  /** One guard for every classified clause, duplicates included. */
  function AllGuards(k: Config, cs: seq<Clause>): seq<Guard> {
    if cs == [] then []
    else AllGuards(k, cs[..|cs| - 1]) + (var c := cs[|cs| - 1]; if Classified(k, c) then [GuardOf(k, c)] else [])
  }

  predicate HasKey(k: Config, cs: seq<Clause>, key: (PatternType, string)) {
    exists c :: c in cs && Classified(k, c) && KeyOf(k, c) == key
  }

  /** Only the first clause of every key keeps its guard. */
  function Dedup(k: Config, cs: seq<Clause>): seq<Guard> {
    if cs == [] then []
    else
      var c := cs[|cs| - 1];
      Dedup(k, cs[..|cs| - 1])
      + if Classified(k, c) && !HasKey(k, cs[..|cs| - 1], KeyOf(k, c)) then [GuardOf(k, c)] else []
  }

  function Unenforceable(k: Config, cs: seq<Clause>): seq<string> {
    if cs == [] then []
    else Unenforceable(k, cs[..|cs| - 1]) + (var c := cs[|cs| - 1]; if Classified(k, c) then [] else [IdOf(k, c)])
  }

  function Rules(k: Config, cs: seq<Clause>): seq<Rule> {
    seq(|cs|, i requires 0 <= i < |cs| => RuleOf(k, cs[i]))
  }

  function ManifestOf(k: Config, cs: seq<Clause>): Manifest {
    Manifest(Dedup(k, cs), Unenforceable(k, cs), |Dedup(k, cs)|)
  }

  /** Every record the compiler builds passes its own validator. */
  predicate Compiles(k: Config, cs: seq<Clause>) {
    && (forall r :: r in Rules(k, cs) ==> IsRule(r))
    && IsManifest(ManifestOf(k, cs))
  }

  predicate PartsValid(rules: seq<Rule>, guards: seq<Guard>) {
    (forall r :: r in rules ==> IsRule(r)) && (forall g :: g in guards ==> IsGuard(g))
  }

  lemma HasKeySnoc(k: Config, cs: seq<Clause>, i: nat, key: (PatternType, string))
    requires i < |cs|
    ensures HasKey(k, cs[..i + 1], key) <==>
              HasKey(k, cs[..i], key) || (Classified(k, cs[i]) && KeyOf(k, cs[i]) == key)
  {
    assert cs[..i + 1] == cs[..i] + [cs[i]];
    assert forall x :: x in cs[..i + 1] <==> x in cs[..i] || x == cs[i];
  }

  /** The compiler's loop: it raises at the first rule or guard its model refuses. */
  method CompileClauses(k: Config, clauses: seq<Clause>)
    returns (ok: bool, rules: seq<Rule>, guards: seq<Guard>, unenforceable: seq<string>)
    ensures ok == PartsValid(Rules(k, clauses), Dedup(k, clauses))
    ensures ok ==> rules == Rules(k, clauses) && guards == Dedup(k, clauses) && unenforceable == Unenforceable(k, clauses)
  {
    hide IsGuard;
    hide IsRule;
    hide IdOf;
    hide KeyOf;
    hide GuardOf;
    hide RuleOf;
    rules, guards, unenforceable := [], [], [];
    var seen: set<(PatternType, string)> := {};
    for i := 0 to |clauses|
      invariant rules == Rules(k, clauses)[..i]
      invariant guards == Dedup(k, clauses[..i]) && PartsValid(rules, guards)
      invariant unenforceable == Unenforceable(k, clauses[..i])
      invariant forall key :: key in seen <==> HasKey(k, clauses[..i], key)
    {
      var c := clauses[i];
      assert clauses[..i + 1][..i] == clauses[..i] && clauses[..i + 1][i] == c;
      forall key { HasKeySnoc(k, clauses, i, key); }
      if k.classify(c.directive).None? {
        unenforceable := unenforceable + [IdOf(k, c)];
      } else {
        var key := KeyOf(k, c);
        if key !in seen {
          seen := seen + {key};
          var guard := GuardOf(k, c);
          if !IsGuard(guard) {
            GuardStays(k, clauses, i);
            return false, [], [], [];
          }
          guards := guards + [guard];
        }
      }
      var rule := RuleOf(k, c);
      assert Rules(k, clauses)[i] == rule;
      if !IsRule(rule) { return false, [], [], []; }
      rules := rules + [rule];
    }
    assert clauses[..|clauses|] == clauses && Rules(k, clauses)[..|clauses|] == Rules(k, clauses);
    ok := true;
  }

  lemma EmptyCompiles(k: Config)
    ensures Compiles(k, []) && Dedup(k, []) == [] && Unenforceable(k, []) == [] && Rules(k, []) == []
  {}

  /** The whole compilation. The final states tell whether anything stayed unenforceable. */
  method CompileText(k: Config, sourceOk: bool, extracted: Option<seq<Clause>>)
    returns (out: Outcome, trace: seq<CompilerState>)
    ensures extracted.None? ==> out == Rejected && trace == [RECEIVED, REJECTED_INVALID]
    ensures extracted.Some? ==>
              out == if sourceOk && Compiles(k, extracted.value)
                     then Emitted(ManifestOf(k, extracted.value), Rules(k, extracted.value)) else Raised
    ensures out.Emitted? ==>
              trace == if extracted.value == [] then [RECEIVED, PARSED, EMITTED]
                       else if forall c :: c in extracted.value ==> Classified(k, c)
                       then [RECEIVED, PARSED, EXTRACTED, COMPILED, EMITTED]
                       else [RECEIVED, PARSED, EXTRACTED, COMPILED_PARTIAL, EMITTED]
  {
    hide IsGuard;
    hide IsRule;
    hide MatchesId;
    hide Dedup;
    hide Unenforceable;
    hide Rules;
    hide DistinctIds;
    EmptyCompiles(k);
    var state := RECEIVED;
    trace := [state];
    if extracted.None? {
      state := Transition(state, VALIDATION_FAIL);
      trace := trace + [state];
      return Rejected, trace;
    }
    var clauses := extracted.value;
    state := Transition(state, PARSE_OK);
    trace := trace + [state];
    if !sourceOk { return Raised, trace; }
    if clauses == [] {
      state := Transition(state, NO_CLAUSES);
      trace := trace + [state];
      return Emitted(Manifest([], [], 0), []), trace;
    }
    state := Transition(state, CLAUSES_FOUND);
    trace := trace + [state];
    var ok, rules, guards, unenforceable := CompileClauses(k, clauses);
    if !ok { return Raised, trace; }
    AllEnforceable(k, clauses);
    FirstKeeps(k, clauses);
    state := Transition(state, if guards != [] && unenforceable == [] then COMPILE_OK else COMPILE_PARTIAL);
    trace := trace + [state];
    state := Transition(state, EMIT_OK);
    trace := trace + [state];
    var manifest := Manifest(guards, unenforceable, |guards|);
    if !IsManifest(manifest) { return Raised, trace; }
    return Emitted(manifest, rules), trace;
  }

  /** A guard added for clause i is in the final list. */
  lemma {:induction false} GuardStays(k: Config, cs: seq<Clause>, i: nat)
    requires i < |cs| && Classified(k, cs[i]) && !HasKey(k, cs[..i], KeyOf(k, cs[i]))
    ensures GuardOf(k, cs[i]) in Dedup(k, cs)
  {
    var n := |cs| - 1;
    if i < n {
      assert cs[..n][i] == cs[i] && cs[..n][..i] == cs[..i];
      GuardStays(k, cs[..n], i);
    }
  }

  lemma {:induction false} AllEnforceable(k: Config, cs: seq<Clause>)
    ensures Unenforceable(k, cs) == [] <==> forall c :: c in cs ==> Classified(k, c)
  {
    if cs != [] {
      var n := |cs| - 1;
      AllEnforceable(k, cs[..n]);
      assert forall c :: c in cs <==> c in cs[..n] || c == cs[n];
    }
  }

  lemma FirstKeeps(k: Config, cs: seq<Clause>)
    ensures cs != [] && Classified(k, cs[0]) ==> Dedup(k, cs) != []
  {
    if cs != [] && Classified(k, cs[0]) { GuardStays(k, cs, 0); }
  }

  // ---------------------------------------------------------------- deduplication preserves meaning
  ghost predicate Enforced(guards: seq<Guard>, p: PatternType, target: string) {
    exists g :: g in guards && g.pattern == p && g.target == target
  }

  lemma {:induction false} SamePairs(k: Config, cs: seq<Clause>, p: PatternType, t: string)
    ensures Enforced(Dedup(k, cs), p, t) <==> Enforced(AllGuards(k, cs), p, t)
  {
    if cs != [] {
      var n := |cs| - 1;
      var init, c := cs[..n], cs[n];
      SamePairs(k, init, p, t);
      EnforcedAppend(Dedup(k, init), Dedup(k, cs)[|Dedup(k, init)|..], p, t);
      EnforcedAppend(AllGuards(k, init), AllGuards(k, cs)[|AllGuards(k, init)|..], p, t);
      if Classified(k, c) && HasKey(k, init, KeyOf(k, c)) {
        var earlier :| earlier in init && Classified(k, earlier) && KeyOf(k, earlier) == KeyOf(k, c);
        GuardListed(k, init, earlier);
      }
    }
  }

  lemma EnforcedAppend(a: seq<Guard>, b: seq<Guard>, p: PatternType, t: string)
    ensures Enforced(a + b, p, t) <==> Enforced(a, p, t) || Enforced(b, p, t)
  {
    assert forall g :: g in a + b <==> g in a || g in b;
  }

  lemma {:induction false} GuardListed(k: Config, cs: seq<Clause>, c: Clause)
    requires c in cs && Classified(k, c)
    ensures GuardOf(k, c) in AllGuards(k, cs)
  {
    var n := |cs| - 1;
    if c != cs[n] { GuardListed(k, cs[..n], c); }
  }

  /** Enforcing the emitted guards blocks exactly the tool calls that one guard per classified clause blocks. */
  lemma DedupPreservesMeaning(k: Config, cs: seq<Clause>, call: ToolCall)
    ensures Blocks(Dedup(k, cs), call) <==> Blocks(AllGuards(k, cs), call)
  {
    forall p, t ensures Enforced(Dedup(k, cs), p, t) <==> Enforced(AllGuards(k, cs), p, t) { SamePairs(k, cs, p, t); }
    BlocksByPairs(Dedup(k, cs), call);
    BlocksByPairs(AllGuards(k, cs), call);
  }

  ghost predicate BlocksSome(guards: seq<Guard>, call: ToolCall) {
    || (Evasive(call) && exists t :: Enforced(guards, PATH_PREFIX, t))
    || exists p, t :: Enforced(guards, p, t) && Matches(p, t, call)
  }

  lemma BlocksByPairs(guards: seq<Guard>, call: ToolCall)
    ensures Blocks(guards, call) <==> BlocksSome(guards, call)
  {
    hide Matches;
    hide Evasive;
    if Blocks(guards, call) {
      if g :| g in guards && Matches(g.pattern, g.target, call) {
        assert Enforced(guards, g.pattern, g.target);
      } else {
        var g :| g in guards && g.pattern == PATH_PREFIX;
        assert Enforced(guards, PATH_PREFIX, g.target);
      }
    }
  }

  // ---------------------------------------------------------------- the manifest validator accepts
  /** Bounds on the clauses themselves, all of them visible before compiling. */
  predicate WithinBounds(k: Config, cs: seq<Clause>) {
    && |cs| <= MAX_RULES_PER_FILE
    && forall c :: c in cs ==>
      && 1 <= |Strip(c.directive)| <= MAX_DIRECTIVE_CHARS && 1 <= c.line <= MAX_LINE_NUMBER
      && (Classified(k, c) ==> IsTarget(KeyOf(k, c).0, Strip(KeyOf(k, c).1)))
  }

  function TextOf(k: Config, c: Clause): string { RuleText(k.path, c.line, c.directive) }

  /** Every text the compiler hashes to build an id. */
  function HashedTexts(k: Config, cs: seq<Clause>): set<string> {
    (set c | c in cs :: TextOf(k, c)) + set c | c in cs :: IdOf(k, c)
  }

  lemma DifferentDirectivesDifferentIds(k: Config, cs: seq<Clause>, a: Clause, b: Clause)
    requires a in cs && b in cs && a.directive != b.directive
    ensures (IdOf(k, a) != IdOf(k, b) && GuardId(k.hash, IdOf(k, a)) != GuardId(k.hash, IdOf(k, b)))
            || ShortCollision(k.hash, HashedTexts(k, cs))
  {
    var texts := HashedTexts(k, cs);
    var x, y := TextOf(k, a), TextOf(k, b);
    assert x in texts && y in texts && IdOf(k, a) in texts && IdOf(k, b) in texts;
    if x == y { RuleTextInjective(k.path, a.line, a.directive, b.line, b.directive); }
    DropSame("RULE-", Short(k.hash, x), Short(k.hash, y));
    DropSame("GRD-", Short(k.hash, IdOf(k, a)), Short(k.hash, IdOf(k, b)));
  }

  lemma DropSame(prefix: string, a: string, b: string)
    ensures prefix + a == prefix + b ==> a == b
  {
    assert (prefix + a)[|prefix|..] == a && (prefix + b)[|prefix|..] == b;
  }

  /** Where an emitted guard comes from. */
  lemma {:induction false} GuardSource(k: Config, cs: seq<Clause>, g: Guard) returns (c: Clause)
    requires g in Dedup(k, cs)
    ensures c in cs && Classified(k, c) && g == GuardOf(k, c)
  {
    var n := |cs| - 1;
    if g in Dedup(k, cs[..n]) { c := GuardSource(k, cs[..n], g); } else { c := cs[n]; }
  }

  lemma {:induction false} UnenforceableSource(k: Config, cs: seq<Clause>, id: string) returns (c: Clause)
    requires id in Unenforceable(k, cs)
    ensures c in cs && !Classified(k, c) && id == IdOf(k, c)
  {
    var n := |cs| - 1;
    if id in Unenforceable(k, cs[..n]) { c := UnenforceableSource(k, cs[..n], id); } else { c := cs[n]; }
  }

  lemma {:induction false} GuardIdsDistinct(k: Config, all: seq<Clause>, n: nat)
    requires n <= |all| && !ShortCollision(k.hash, HashedTexts(k, all))
    ensures DistinctIds(Dedup(k, all[..n]))
  {
    hide ShortCollision;
    hide HashedTexts;
    hide IdOf;
    hide GuardId;
    if n > 0 {
      GuardIdsDistinct(k, all, n - 1);
      var cs, c := all[..n], all[n - 1];
      assert cs[..n - 1] == all[..n - 1];
      var before := Dedup(k, all[..n - 1]);
      if Classified(k, c) && !HasKey(k, all[..n - 1], KeyOf(k, c)) {
        forall i | 0 <= i < |before| ensures before[i].guardId != GuardId(k.hash, IdOf(k, c)) {
          var source := GuardSource(k, all[..n - 1], before[i]);
          assert KeyOf(k, source) != KeyOf(k, c);
          DifferentDirectivesDifferentIds(k, all, source, c);
        }
      }
    }
  }

  lemma {:induction false} CountsFit(k: Config, cs: seq<Clause>)
    ensures |Dedup(k, cs)| + |Unenforceable(k, cs)| <= |cs|
  {
    if cs != [] { CountsFit(k, cs[..|cs| - 1]); }
  }

  lemma IdsWellFormed(k: Config, c: Clause)
    requires HexOutput(k.hash)
    ensures MatchesId("RULE-", IdOf(k, c)) && MatchesId("GRD-", GuardId(k.hash, IdOf(k, c)))
  {
    ShortIsId(k, "RULE-", TextOf(k, c));
    ShortIsId(k, "GRD-", IdOf(k, c));
  }

  lemma ShortIsId(k: Config, prefix: string, s: string)
    requires HexOutput(k.hash)
    ensures MatchesId(prefix, prefix + Short(k.hash, s))
  {
    assert IsDigest(k.hash(s)) && forall i :: 0 <= i < 64 ==> IsHexChar(k.hash(s)[i]);
  }

  lemma GuardAccepted(k: Config, cs: seq<Clause>, g: Guard)
    requires HexOutput(k.hash) && WithinBounds(k, cs) && g in Dedup(k, cs)
    ensures (IsGuard(g) && g.ruleId !in Unenforceable(k, cs)) || ShortCollision(k.hash, HashedTexts(k, cs))
  {
    hide IsTarget;
    hide MatchesId;
    var c := GuardSource(k, cs, g);
    IdsWellFormed(k, c);
    if g.ruleId in Unenforceable(k, cs) {
      var u := UnenforceableSource(k, cs, g.ruleId);
      DifferentDirectivesDifferentIds(k, cs, c, u);
    }
  }

  lemma RuleAccepted(k: Config, cs: seq<Clause>, c: Clause)
    requires HexOutput(k.hash) && WithinBounds(k, cs) && c in cs
    ensures IsRule(RuleOf(k, c))
  {
    hide IsTarget;
    hide MatchesId;
    IdsWellFormed(k, c);
  }

  /** Clauses within bounds always compile: guard ids differ, no rule is both enforced and unenforceable, and
      the manifest validator accepts, unless two of the hashed texts share their sixteen leading digits. */
  lemma CompilesWithinBounds(k: Config, cs: seq<Clause>)
    requires HexOutput(k.hash) && WithinBounds(k, cs)
    ensures Compiles(k, cs) || ShortCollision(k.hash, HashedTexts(k, cs))
  {
    hide IsGuard;
    hide IsRule;
    hide MatchesId;
    hide GuardId;
    hide RuleId;
    hide IsTarget;
    hide ShortCollision;
    if !ShortCollision(k.hash, HashedTexts(k, cs)) {
      var m := ManifestOf(k, cs);
      assert cs[..|cs|] == cs;
      GuardIdsDistinct(k, cs, |cs|);
      CountsFit(k, cs);
      forall g | g in m.guards ensures IsGuard(g) && g.ruleId !in m.unenforceable { GuardAccepted(k, cs, g); }
      forall id | id in m.unenforceable ensures MatchesId("RULE-", id) {
        var u := UnenforceableSource(k, cs, id);
        IdsWellFormed(k, u);
      }
      forall r | r in Rules(k, cs) ensures IsRule(r) {
        var i :| 0 <= i < |cs| && Rules(k, cs)[i] == r;
        RuleAccepted(k, cs, cs[i]);
      }
    }
  }
}
