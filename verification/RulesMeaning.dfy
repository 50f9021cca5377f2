/** What compiled rules do: from the clauses of a rules file to the tool calls that are blocked, and where every record
    of the compilation comes from. */
module RulesMeaning {
  import opened Wrappers
  import opened Digits
  import opened Identifiers
  import opened PyText
  import opened PathNormalizer
  import opened RulesContracts
  import opened RulesEnforcer
  import opened RulesCompiler
  import opened CallMatching

  // ---------------------------------------------------------------- from clauses to blocked calls
  /** A clause forbids the call: by its intent, on the classified target without outer white space. */
  ghost predicate Forbids(k: Config, c: Clause, call: ToolCall) {
    match k.classify(c.directive)
    case None => false
    case Some((PATH_DENY, target)) => exists t :: t in call.tokens && PathMatches(Strip(target), t)
    case Some((COMMAND_DENY, target)) => Embeds(Words(Lower(Strip(target))), LowerAll(call.tokens))
    case Some((AST_DENY, target)) => FindsWord(Lower(call.text), Lower(Strip(target)))
    case Some((IMPORT_DENY, target)) => FindsImport(Lower(call.text), Lower(Strip(target)))
  }

  predicate DeniesPaths(k: Config, c: Clause) { k.classify(c.directive).Some? && k.classify(c.directive).value.0 == PATH_DENY }

  lemma GuardForbids(k: Config, c: Clause, call: ToolCall)
    requires Classified(k, c)
    ensures Matches(GuardOf(k, c).pattern, GuardOf(k, c).target, call) <==> Forbids(k, c, call)
    ensures GuardOf(k, c).pattern == PATH_PREFIX <==> DeniesPaths(k, c)
  {
    hide PathMatches;
    hide Embeds;
    hide FindsWord;
    hide FindsImport;
    hide Words;
    hide Strip;
  }

  lemma {:induction false} AllGuardsSource(k: Config, cs: seq<Clause>, g: Guard)
    ensures g in AllGuards(k, cs) <==> exists c :: c in cs && Classified(k, c) && g == GuardOf(k, c)
  {
    hide GuardOf;
    if cs != [] {
      var n := |cs| - 1;
      AllGuardsSource(k, cs[..n], g);
      assert forall c :: c in cs <==> c in cs[..n] || c == cs[n];
    }
  }

  /** The emitted guards block a call exactly when some classified clause forbids it, or some clause denies paths and a
      word of the call has no normal form. */
  lemma CompiledBlocksIff(k: Config, cs: seq<Clause>, call: ToolCall)
    ensures Blocks(Dedup(k, cs), call) <==>
              || (exists c :: c in cs && Forbids(k, c, call))
              || ((exists c :: c in cs && DeniesPaths(k, c)) && exists t :: t in call.tokens && NormalizeSpec(t, 3).Err?)
  {
    DedupPreservesMeaning(k, cs, call);
    EvasiveIff(call);
    forall g ensures g in AllGuards(k, cs) <==> exists c :: c in cs && Classified(k, c) && g == GuardOf(k, c) {
      AllGuardsSource(k, cs, g);
    }
    hide Evasive;
    hide NormalizeSpec;
    hide Matches;
    hide Forbids;
    hide DeniesPaths;
    hide GuardOf;
    hide Dedup;
    hide AllGuards;
    forall c | Classified(k, c)
      ensures Matches(GuardOf(k, c).pattern, GuardOf(k, c).target, call) <==> Forbids(k, c, call)
      ensures GuardOf(k, c).pattern == PATH_PREFIX <==> DeniesPaths(k, c)
    {
      GuardForbids(k, c, call);
    }
    var all := AllGuards(k, cs);
    if c :| c in cs && Forbids(k, c, call) {
      ForbidsClassified(k, c, call);
      assert GuardOf(k, c) in all;
    }
    if c :| c in cs && DeniesPaths(k, c) {
      ForbidsClassified(k, c, call);
      assert GuardOf(k, c) in all;
    }
  }

  lemma ForbidsClassified(k: Config, c: Clause, call: ToolCall)
    ensures Forbids(k, c, call) || DeniesPaths(k, c) ==> Classified(k, c)
  {
  }

  // ---------------------------------------------------------------- where the records come from
  function ShortHash(h: Sha256, s: string): string { if |h(s)| < 16 then h(s) else h(s)[..16] }

  function ClauseId(k: Config, c: Clause): string {
    "RULE-" + ShortHash(k.hash, k.path + ":" + Decimal(c.line) + ":" + c.directive)
  }

  /** The guard a classified clause asks for. */
  predicate IsGuardFor(k: Config, c: Clause, g: Guard) {
    && k.classify(c.directive).Some?
    && g.ruleId == ClauseId(k, c) && g.guardId == "GRD-" + ShortHash(k.hash, ClauseId(k, c))
    && g.target == Strip(k.classify(c.directive).value.1)
    && match k.classify(c.directive).value.0
       case PATH_DENY => g.pattern == PATH_PREFIX
       case COMMAND_DENY => g.pattern == COMMAND_PREFIX
       case AST_DENY => g.pattern == AST_CALL
       case IMPORT_DENY => g.pattern == IMPORT_MODULE
  }

  lemma GuardIsFor(k: Config, c: Clause)
    requires Classified(k, c)
    ensures IsGuardFor(k, c, GuardOf(k, c))
  {
    hide Strip;
  }

  /** No earlier clause is classified alike. */
  predicate FirstOfKind(k: Config, cs: seq<Clause>, i: nat) {
    && i < |cs| && k.classify(cs[i].directive).Some?
    && forall j :: 0 <= j < i ==> k.classify(cs[j].directive) != k.classify(cs[i].directive)
  }

  lemma SameKeyIff(k: Config, a: Clause, b: Clause)
    requires Classified(k, a) && Classified(k, b)
    ensures KeyOf(k, a) == KeyOf(k, b) <==> k.classify(a.directive) == k.classify(b.directive)
  {
  }

  lemma FirstOfKindIff(k: Config, cs: seq<Clause>, i: nat)
    requires i < |cs|
    ensures FirstOfKind(k, cs, i) <==> Classified(k, cs[i]) && !HasKey(k, cs[..i], KeyOf(k, cs[i]))
  {
    hide KeyOf;
    if Classified(k, cs[i]) {
      if c :| c in cs[..i] && Classified(k, c) && KeyOf(k, c) == KeyOf(k, cs[i]) { SameKeyIff(k, c, cs[i]); }
      if j :| 0 <= j < i && k.classify(cs[j].directive) == k.classify(cs[i].directive) {
        SameKeyIff(k, cs[j], cs[i]);
        assert cs[j] in cs[..i];
      }
    }
  }

  /** The guards are those of the clauses at the positions at, in order. */
  ghost predicate GuardsFrom(k: Config, cs: seq<Clause>, guards: seq<Guard>, at: seq<nat>) {
    && |at| == |guards|
    && (forall j :: 0 <= j < |at| ==> at[j] < |cs| && IsGuardFor(k, cs[at[j]], guards[j]))
    && (forall i, j :: 0 <= i < j < |at| ==> at[i] < at[j])
  }

  lemma GuardsFromMore(k: Config, cs: seq<Clause>, n: nat, guards: seq<Guard>, at: seq<nat>)
    requires n < |cs| && GuardsFrom(k, cs[..n], guards, at)
    ensures GuardsFrom(k, cs[..n + 1], guards, at)
  {
    hide IsGuardFor;
    forall j | 0 <= j < |at| ensures at[j] < n + 1 && IsGuardFor(k, cs[..n + 1][at[j]], guards[j]) {
      assert cs[..n + 1][at[j]] == cs[..n][at[j]];
    }
  }

  /** The emitted guards are exactly those of the first clauses of every kind, in the order of the file. */
  lemma {:induction false} GuardsAre(k: Config, cs: seq<Clause>, n: nat) returns (at: seq<nat>)
    requires n <= |cs|
    ensures GuardsFrom(k, cs[..n], Dedup(k, cs[..n]), at)
    ensures forall i: nat :: i in at <==> i < n && FirstOfKind(k, cs, i)
  {
    hide IsGuardFor;
    hide FirstOfKind;
    if n == 0 {
      at := [];
    } else {
      var before := GuardsAre(k, cs, n - 1);
      assert cs[..n][..n - 1] == cs[..n - 1];
      FirstOfKindIff(k, cs, n - 1);
      hide HasKey;
      hide KeyOf;
      hide GuardOf;
      hide Classified;
      GuardsFromMore(k, cs, n - 1, Dedup(k, cs[..n - 1]), before);
      if FirstOfKind(k, cs, n - 1) {
        GuardIsFor(k, cs[n - 1]);
        at := before + [n - 1];
      } else {
        at := before;
      }
    }
  }

  /** Every clause gives one rule, in order: its id, its text without outer white space, its line, and the classified
      intent or else the tentative one. */
  lemma RulesAre(k: Config, cs: seq<Clause>, i: nat)
    requires i < |cs|
    ensures |Rules(k, cs)| == |cs|
    ensures var r, c := Rules(k, cs)[i], cs[i];
            && r.ruleId == ClauseId(k, c) && r.directive == Strip(c.directive) && r.line == c.line
            && r.intent == match k.classify(c.directive) case Some((intent, _)) => intent case None => k.tentative(c.directive)
  {
    hide Strip;
  }

  /** The unenforceable ids are those of the clauses the classifier gives nothing for, in order. */
  lemma UnenforceableAre(k: Config, cs: seq<Clause>, c: Clause)
    ensures Unenforceable(k, []) == []
    ensures Unenforceable(k, cs + [c]) == Unenforceable(k, cs) + if k.classify(c.directive).None? then [ClauseId(k, c)] else []
  {
    var all := cs + [c];
    assert all[..|all| - 1] == cs && all[|all| - 1] == c;
    assert IdOf(k, c) == ClauseId(k, c);
    assert Unenforceable(k, all) == Unenforceable(k, cs) + if Classified(k, c) then [] else [IdOf(k, c)];
  }

  // ---------------------------------------------------------------- what the record models accept
  /** Some character is no wildcard. */
  predicate HasPlainChar(t: string) {
    exists i | 0 <= i < |t| :: t[i] != '*' && t[i] != '/' && t[i] != '.' && t[i] != '\\'
  }

  /** A target is accepted with 1 to 256 characters, none of them a control character and not all of them wildcards, and
      for a path without a dot-dot segment, whichever slash separates it. */
  lemma TargetAcceptedIff(p: PatternType, t: string)
    ensures IsTarget(p, t) <==>
              && 1 <= |t| <= 256
              && (forall i :: 0 <= i < |t| ==> t[i] as int >= 32 && t[i] as int != 127)
              && HasPlainChar(t)
              && (p == PATH_PREFIX ==> ".." !in SplitOn(ReplaceChar(t, '\\', '/'), '/'))
  {
    hide SplitOn;
    if t != "" { WildcardOnlyIff(t); }
    hide IsWildcardOnly;
    hide HasPlainChar;
    assert forall i :: 0 <= i < |t| ==> (!IsControl(t[i]) <==> t[i] as int >= 32 && t[i] as int != 127);
  }

  lemma WildcardOnlyIff(t: string)
    requires t != ""
    ensures !IsWildcardOnly(t) <==> HasPlainChar(t)
  {
    if !IsWildcardOnly(t) {
      var i :| 0 <= i < |t| && t[i] !in {'*', '/', '.', '\\'};
      assert t[i] != '*' && t[i] != '/' && t[i] != '.' && t[i] != '\\';
    }
  }

  /** What compiled stays within the limits: at most 256 guards and unenforceable rules together, no guard id twice, no
      rule both enforced and unenforceable, and every line and text within its bounds. */
  lemma CompiledWithinLimits(k: Config, cs: seq<Clause>)
    requires Compiles(k, cs)
    ensures var m := ManifestOf(k, cs);
            && m.compiledCount == |m.guards| && |m.guards| + |m.unenforceable| <= 256
            && (forall i, j :: 0 <= i < j < |m.guards| ==> m.guards[i].guardId != m.guards[j].guardId)
            && (forall g :: g in m.guards ==> g.ruleId !in m.unenforceable && IsTarget(g.pattern, g.target))
    ensures forall c :: c in cs ==> 1 <= |Strip(c.directive)| <= 1024 && 1 <= c.line <= 65536
  {
    hide IsTarget;
    hide MatchesId;
    hide Strip;
    forall c | c in cs ensures 1 <= |Strip(c.directive)| <= 1024 && 1 <= c.line <= 65536 {
      var i :| 0 <= i < |cs| && cs[i] == c;
      assert Rules(k, cs)[i] in Rules(k, cs);
    }
  }
}
