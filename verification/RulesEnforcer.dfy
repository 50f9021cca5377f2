/** Evaluation of a tool call against the compiled guards. */
module RulesEnforcer {
  import opened Wrappers
  import opened Identifiers
  import opened PyText
  import opened PathNormalizer
  import opened RulesContracts

  /** A tool call: its text and the shell words it splits into. */
  datatype ToolCall = ToolCall(text: string, tokens: seq<string>)

  datatype EnforcementVerdict = ALLOW | BLOCKED

  // ---------------------------------------------------------------- subsequences
  /** An increasing choice of positions of full that spells sub. */
  ghost predicate IsEmbedding(sub: seq<string>, full: seq<string>, f: seq<nat>) {
    && |f| == |sub|
    && (forall i :: 0 <= i < |f| ==> f[i] < |full| && full[f[i]] == sub[i])
    && (forall i, j :: 0 <= i < j < |f| ==> f[i] < f[j])
  }

  ghost predicate Embeds(sub: seq<string>, full: seq<string>) { exists f :: IsEmbedding(sub, full, f) }

  function Greedy(sub: seq<string>, full: seq<string>): bool {
    if sub == [] then true
    else if full == [] then false
    else if full[0] == sub[0] then Greedy(sub[1..], full[1..])
    else Greedy(sub, full[1..])
  }

  /** Taking every token at its first chance succeeds exactly when some increasing embedding exists. */
  lemma {:induction false} GreedyIffEmbeds(sub: seq<string>, full: seq<string>)
    ensures Greedy(sub, full) <==> Embeds(sub, full)
    decreases |full|
  {
    if sub == [] {
      assert IsEmbedding(sub, full, []);
    } else if full == [] {
      forall f ensures !IsEmbedding(sub, full, f) { assert |f| > 0 ==> f[0] >= |full|; }
    } else {
      var tail := full[1..];
      if full[0] == sub[0] {
        GreedyIffEmbeds(sub[1..], tail);
        if f :| IsEmbedding(sub[1..], tail, f) { AddFirst(sub, full, f); }
        if f :| IsEmbedding(sub, full, f) { DropFirst(sub, full, f); }
      } else {
        GreedyIffEmbeds(sub, tail);
        if f :| IsEmbedding(sub, tail, f) { Later(sub, full, f); }
        if f :| IsEmbedding(sub, full, f) { Earlier(sub, full, f); }
      }
    }
  }

  function Up(f: seq<nat>): seq<nat> { seq(|f|, i requires 0 <= i < |f| => f[i] + 1) }

  lemma AddFirst(sub: seq<string>, full: seq<string>, f: seq<nat>)
    requires sub != [] && full != [] && full[0] == sub[0] && IsEmbedding(sub[1..], full[1..], f)
    ensures Embeds(sub, full)
  {
    var g := [0] + Up(f);
    forall i | 0 <= i < |g| ensures g[i] < |full| && full[g[i]] == sub[i] {
      if i > 0 { assert full[1..][f[i - 1]] == sub[1..][i - 1]; }
    }
    assert IsEmbedding(sub, full, g);
  }

  lemma DropFirst(sub: seq<string>, full: seq<string>, f: seq<nat>)
    requires sub != [] && full != [] && IsEmbedding(sub, full, f)
    ensures Embeds(sub[1..], full[1..])
  {
    assert forall i :: 0 < i < |f| ==> f[0] < f[i];
    var g: seq<nat> := seq(|f| - 1, i requires 0 <= i < |f| - 1 => f[i + 1] - 1);
    forall i | 0 <= i < |g| ensures g[i] < |full[1..]| && full[1..][g[i]] == sub[1..][i] {
      assert f[i + 1] > 0 && full[f[i + 1]] == sub[i + 1];
    }
    assert IsEmbedding(sub[1..], full[1..], g);
  }

  lemma Later(sub: seq<string>, full: seq<string>, f: seq<nat>)
    requires full != [] && IsEmbedding(sub, full[1..], f)
    ensures Embeds(sub, full)
  {
    assert IsEmbedding(sub, full, Up(f));
  }

  lemma Earlier(sub: seq<string>, full: seq<string>, f: seq<nat>)
    requires sub != [] && full != [] && full[0] != sub[0] && IsEmbedding(sub, full, f)
    ensures Embeds(sub, full[1..])
  {
    assert f[0] > 0 && forall i :: 0 < i < |f| ==> f[0] < f[i];
    var g: seq<nat> := seq(|f|, i requires 0 <= i < |f| => f[i] - 1);
    forall i | 0 <= i < |g| ensures g[i] < |full[1..]| && full[1..][g[i]] == sub[i] {
      assert f[i] > 0 && full[f[i]] == sub[i];
    }
    assert IsEmbedding(sub, full[1..], g);
  }

  /** One pass over full: each wanted token consumes the iterator up to its next occurrence. */
  method IsSubsequence(sub: seq<string>, full: seq<string>) returns (r: bool)
    ensures r == Embeds(sub, full)
  {
    GreedyIffEmbeds(sub, full);
    if sub == [] { return true; }
    var at := 0;
    assert sub[0..] == sub && full[0..] == full;
    for i := 0 to |sub|
      invariant 0 <= at <= |full|
      invariant Greedy(sub, full) == Greedy(sub[i..], full[at..])
    {
      var found := false;
      while at < |full| && !found
        invariant 0 <= at <= |full|
        invariant Greedy(sub, full) == if found then Greedy(sub[i + 1..], full[at..]) else Greedy(sub[i..], full[at..])
        decreases |full| - at, !found
      {
        assert full[at..][0] == full[at] && full[at..][1..] == full[at + 1..];
        assert sub[i..][0] == sub[i] && sub[i..][1..] == sub[i + 1..];
        found := full[at] == sub[i];
        at := at + 1;
      }
      if !found {
        assert full[at..] == [] && sub[i..] != [];
        return false;
      }
    }
    assert sub[|sub|..] == [];
    return true;
  }

  // ---------------------------------------------------------------- one guard
  function TakeWord(s: string): (w: string)
    ensures |w| <= |s| && (s != "" && !IsSpace(s[0]) ==> |w| > 0)
  {
    if s == "" || IsSpace(s[0]) then "" else [s[0]] + TakeWord(s[1..])
  }

  /** Python's s.split(): maximal runs of non-space characters. */
  function Words(s: string): seq<string>
    decreases |s|
  {
    if s == "" then []
    else if IsSpace(s[0]) then Words(s[1..])
    else [TakeWord(s)] + Words(s[|TakeWord(s)|..])
  }

  function CleanForMatch(p: string): string { RStripChar(DropDotSlash(ReplaceChar(Lower(p), '\\', '/')), '/') }

  predicate RunAt(part: seq<string>, whole: seq<string>, i: nat) {
    i + |part| <= |whole| && whole[i..i + |part|] == part
  }

  /** The parts of one path stand next to each other, whole and in order, among the parts of another. */
  ghost predicate IsRun(part: seq<string>, whole: seq<string>) { exists i: nat :: RunAt(part, whole, i) }

  /** The token has a normal form, and the target's segments are a run of its segments. */
  ghost predicate PathMatches(target: string, token: string) {
    match NormalizeSpec(token, 3)
    case Err(_) => false
    case Ok(t) => IsRun(SplitOn(CleanForMatch(target), '/'), SplitOn(t, '/'))
  }

  /** Between slashes, a text occurs in another exactly when its segments are a run of the other's. */
  lemma SlashedOccursIff(part: string, whole: string)
    ensures Contains("/" + whole + "/", "/" + part + "/") <==> IsRun(SplitOn(part, '/'), SplitOn(whole, '/'))
  {
    hide SplitOn;
    hide Join;
    if i :| 0 <= i <= |"/" + whole + "/"| && OccursAt("/" + whole + "/", "/" + part + "/", i) { OccurrenceIsRun(part, whole, i); }
    if i: nat :| RunAt(SplitOn(part, '/'), SplitOn(whole, '/'), i) { RunOccurs(part, whole, i); }
  }

  lemma OccurrenceIsRun(part: string, whole: string, i: nat)
    requires OccursAt("/" + whole + "/", "/" + part + "/", i)
    ensures IsRun(SplitOn(part, '/'), SplitOn(whole, '/'))
  {
    hide SplitOn;
    var s, p := "/" + whole + "/", "/" + part + "/";
    var x, y := s[..i], s[i + |p|..];
    var ps, ws, xs, ys := SplitOn(part, '/'), SplitOn(whole, '/'), SplitOn(x, '/'), SplitOn(y, '/');
    SurroundedSplit(whole);
    assert s == x + ['/'] + (part + ['/'] + y) by {
      assert s == x + s[i..i + |p|] + y;
    }
    SplitConcat(x, part + ['/'] + y, '/');
    SplitConcat(part, y, '/');
    assert [""] + ws + [""] == xs + (ps + ys);
    RunInside(ws, xs, ps, ys);
  }

  lemma SurroundedSplit(whole: string)
    ensures SplitOn("/" + whole + "/", '/') == [""] + SplitOn(whole, '/') + [""]
  {
    SplitConcat("", whole + "/", '/');
    SplitConcat(whole, "", '/');
    assert "/" + whole + "/" == "" + ['/'] + (whole + ['/'] + "");
    assert SplitOn("", '/') == [""];
  }

  lemma RunInside(ws: seq<string>, xs: seq<string>, ps: seq<string>, ys: seq<string>)
    requires xs != [] && ys != [] && [""] + ws + [""] == xs + (ps + ys)
    ensures IsRun(ps, ws)
  {
    var all, k := [""] + ws + [""], |xs| - 1;
    assert |all| == |xs| + |ps| + |ys| && k + |ps| <= |ws|;
    assert ws == all[1..|ws| + 1];
    assert ws[k..k + |ps|] == all[k + 1..k + 1 + |ps|] == ps;
    assert RunAt(ps, ws, k);
  }

  lemma RunOccurs(part: string, whole: string, i: nat)
    requires RunAt(SplitOn(part, '/'), SplitOn(whole, '/'), i)
    ensures Contains("/" + whole + "/", "/" + part + "/")
  {
    hide SplitOn;
    hide Join;
    var ps, ws := SplitOn(part, '/'), SplitOn(whole, '/');
    JoinSplit(part, '/');
    JoinSplit("/" + whole + "/", '/');
    SurroundedSplit(whole);
    var before, after := [""] + ws[..i], ws[i + |ps|..] + [""];
    assert [""] + ws + [""] == before + (ps + after);
    JoinConcat(before, ps + after, '/');
    JoinConcat(ps, after, '/');
    OccursBetween(Join(before, '/'), "/" + part + "/", Join(after, '/'), "/" + whole + "/");
  }

  lemma OccursBetween(x: string, p: string, y: string, s: string)
    requires s == x + p + y
    ensures Contains(s, p)
  {
    assert s[|x|..|x| + |p|] == p;
    assert OccursAt(s, p, |x|);
  }

  /** The three other tests are special cases. */
  lemma SpecialCasesOccur(part: string, whole: string)
    requires whole == part || StartsWith(whole, part + "/") || EndsWith(whole, "/" + part)
    ensures Contains("/" + whole + "/", "/" + part + "/")
  {
    var s, p := "/" + whole + "/", "/" + part + "/";
    if EndsWith(whole, "/" + part) {
      var k := |whole| - |part| - 1;
      assert whole == whole[..k] + ("/" + part);
      assert s[k + 1..k + 1 + |p|] == p;
      assert OccursAt(s, p, k + 1);
    } else {
      assert s[..|p|] == p by { if whole != part { assert whole[..|part| + 1] == part + "/"; } }
      assert OccursAt(s, p, 0);
    }
  }

  predicate IsWordChar(c: char) { IsIdChar(c) && c != '-' }

  predicate Boundary(s: string, i: nat) {
    (0 < i <= |s| && IsWordChar(s[i - 1])) != (i < |s| && IsWordChar(s[i]))
  }

  /** The target as a whole word. */
  predicate FindsWord(s: string, target: string) {
    exists i | 0 <= i <= |s| :: OccursAt(s, target, i) && Boundary(s, i) && Boundary(s, i + |target|)
  }

  /** `import` or `from` at i, white space, and the target as a whole word at j. */
  predicate ImportAt(s: string, target: string, i: nat, j: nat) {
    && i <= j <= |s| && Boundary(s, i) && OccursAt(s, target, j) && Boundary(s, j + |target|)
    && (IsImportGap(s[i..j], "import") || IsImportGap(s[i..j], "from"))
  }

  predicate ImportFrom(s: string, target: string, i: nat) { exists j | i <= j <= |s| :: ImportAt(s, target, i, j) }

  predicate FindsImport(s: string, target: string) {
    exists i | 0 <= i <= |s| :: ImportFrom(s, target, i)
  }

  predicate IsImportGap(s: string, keyword: string) { keyword < s && AllSpace(s[|keyword|..]) }

  ghost predicate Matches(pattern: PatternType, target: string, call: ToolCall) {
    match pattern
    case COMMAND_PREFIX => Embeds(Words(Lower(target)), LowerAll(call.tokens))
    case PATH_PREFIX => exists t :: t in call.tokens && PathMatches(target, t)
    case AST_CALL => FindsWord(Lower(call.text), Lower(target))
    case IMPORT_MODULE => FindsImport(Lower(call.text), Lower(target))
  }

  method MatchesPath(target: string, token: string) returns (r: bool)
    ensures r == PathMatches(target, token)
  {
    hide SplitOn;
    hide CleanForMatch;
    hide NormalizeSpec;
    var clean := CleanForMatch(target);
    var t := NormalizePath(token);
    if t.Err? { return false; }
    SlashedOccursIff(clean, t.value);
    if t.value == clean || StartsWith(t.value, clean + "/") || EndsWith(t.value, "/" + clean) {
      SpecialCasesOccur(clean, t.value);
    }
    if t.value == clean { return true; }
    if StartsWith(t.value, clean + "/") { return true; }
    if EndsWith(t.value, "/" + clean) { return true; }
    return Contains("/" + t.value + "/", "/" + clean + "/");
  }

  // ---------------------------------------------------------------- evaluation
  predicate LooksLikePath(t: string) { '/' in t || '\\' in t || '%' in t || Contains(t, "..") }

  /** A word that looks like a path and cannot be normalised. */
  ghost predicate Evasive(call: ToolCall) {
    exists t :: t in call.tokens && LooksLikePath(t) && NormalizeSpec(t, 3).Err?
  }

  predicate HasPathGuard(guards: seq<Guard>) { exists g :: g in guards && g.pattern == PATH_PREFIX }

  ghost predicate Blocks(guards: seq<Guard>, call: ToolCall) {
    || (HasPathGuard(guards) && Evasive(call))
    || exists g :: g in guards && Matches(g.pattern, g.target, call)
  }

  function PathGuardIds(guards: seq<Guard>): seq<string> {
    if guards == [] then []
    else (if guards[0].pattern == PATH_PREFIX then [guards[0].guardId] else []) + PathGuardIds(guards[1..])
  }

  ghost predicate IsMatchedId(guards: seq<Guard>, call: ToolCall, id: string) {
    exists g :: g in guards && Matches(g.pattern, g.target, call) && g.guardId == id
  }

  method MatchGuard(g: Guard, call: ToolCall) returns (r: bool)
    ensures r == Matches(g.pattern, g.target, call)
  {
    hide PathMatches;
    hide Embeds;
    hide FindsWord;
    hide FindsImport;
    hide Words;
    match g.pattern {
      case COMMAND_PREFIX => r := IsSubsequence(Words(Lower(g.target)), LowerAll(call.tokens));
      case PATH_PREFIX =>
        for i := 0 to |call.tokens|
          invariant forall j :: 0 <= j < i ==> !PathMatches(g.target, call.tokens[j])
        {
          var m := MatchesPath(g.target, call.tokens[i]);
          if m { return true; }
        }
        r := false;
      case AST_CALL => r := FindsWord(Lower(call.text), Lower(g.target));
      case IMPORT_MODULE => r := FindsImport(Lower(call.text), Lower(g.target));
    }
  }

  method FindEvasion(call: ToolCall) returns (r: bool)
    ensures r == Evasive(call)
  {
    hide NormalizeSpec;
    for i := 0 to |call.tokens|
      invariant forall j :: 0 <= j < i ==> !(LooksLikePath(call.tokens[j]) && NormalizeSpec(call.tokens[j], 3).Err?)
    {
      if LooksLikePath(call.tokens[i]) {
        var n := NormalizePath(call.tokens[i]);
        if n.Err? { return true; }
      }
    }
    return false;
  }

  /** Blocks exactly the calls that evade normalisation under a path guard or match some guard, and names,
      once each, the guards that matched. */
  method Evaluate(guards: seq<Guard>, call: ToolCall) returns (verdict: EnforcementVerdict, ids: seq<string>)
    ensures verdict == BLOCKED <==> Blocks(guards, call)
    ensures HasPathGuard(guards) && Evasive(call) ==> ids == PathGuardIds(guards)
    ensures !(HasPathGuard(guards) && Evasive(call)) ==>
              && (forall id :: id in ids <==> IsMatchedId(guards, call, id))
              && (forall i, j :: 0 <= i < j < |ids| ==> ids[i] != ids[j])
  {
    hide Matches;
    hide NormalizeSpec;
    hide PathNormalizer.HasEscape;
    if HasPathGuard(guards) {
      var evasive := FindEvasion(call);
      if evasive { return BLOCKED, PathGuardIds(guards); }
    }
    ids := [];
    for i := 0 to |guards|
      invariant forall id :: id in ids <==> IsMatchedId(guards[..i], call, id)
      invariant forall a, b :: 0 <= a < b < |ids| ==> ids[a] != ids[b]
    {
      var m := MatchGuard(guards[i], call);
      MatchedSnoc(guards, i, call);
      if m && guards[i].guardId !in ids { ids := ids + [guards[i].guardId]; }
    }
    assert guards[..|guards|] == guards;
    if ids != [] {
      assert ids[0] in ids;
      return BLOCKED, ids;
    }
    assert forall g :: g in guards && Matches(g.pattern, g.target, call) ==> IsMatchedId(guards, call, g.guardId);
    return ALLOW, [];
  }

  lemma MatchedSnoc(guards: seq<Guard>, i: nat, call: ToolCall)
    requires i < |guards|
    ensures forall id :: IsMatchedId(guards[..i + 1], call, id) <==>
              IsMatchedId(guards[..i], call, id)
              || (Matches(guards[i].pattern, guards[i].target, call) && guards[i].guardId == id)
  {
    hide Matches;
    var g := guards[i];
    assert guards[..i + 1] == guards[..i] + [g];
    forall id
      ensures IsMatchedId(guards[..i + 1], call, id) <==>
                IsMatchedId(guards[..i], call, id) || (Matches(g.pattern, g.target, call) && g.guardId == id)
    {
      assert forall x :: x in guards[..i + 1] <==> x in guards[..i] || x == g;
    }
  }
}
