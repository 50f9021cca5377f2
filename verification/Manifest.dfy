/** The ambient manifest: a symbol index of distant modules, kept inside four budgets at once. */
module Manifest {
  import opened Wrappers
  import opened PyText
  import opened SemanticCache
  import opened BuildContext

  datatype FileInfo = FileInfo(text: string, mtime: real)

  const PARSE_LIMIT := 20
  const TOKEN_CEILING := 1000
  const HEADER: seq<string> := [
    "### AMBIENT MANIFEST [D3] (Zero-Syntax Symbol Index)",
    "# Compact symbol index for 3-hop transitive dependencies. Bodies and signatures omitted."]

  // ---------------------------------------------------------------- which modules may be listed
  function Parts(path: string): seq<string> { SplitOn(path, '/') }

  /** The first directories of the modules in the bundle. */
  function AllowedSubsystems(entries: set<string>): set<string> {
    set m | m in entries && |Parts(m)| > 1 :: Parts(m)[0]
  }

  predicate Admitted(cfg: DepthConfig, entries: set<string>, m: string) {
    !cfg.clamping || AllowedSubsystems(entries) == {} || |Parts(m)| <= 1 || Parts(m)[0] in AllowedSubsystems(entries)
  }

  function Present(cfg: DepthConfig, entries: set<string>, files: map<string, FileInfo>, ms: seq<string>): seq<string> {
    if ms == [] then []
    else (if Admitted(cfg, entries, ms[0]) && ms[0] in files then [ms[0]] else []) + Present(cfg, entries, files, ms[1..])
  }

  lemma {:induction false} PresentSnoc(cfg: DepthConfig, entries: set<string>, files: map<string, FileInfo>, ms: seq<string>, m: string)
    ensures Present(cfg, entries, files, ms + [m])
            == Present(cfg, entries, files, ms) + (if Admitted(cfg, entries, m) && m in files then [m] else [])
  {
    if ms == [] {
      assert [] + [m] == [m] && [m][1..] == [];
    } else {
      assert (ms + [m])[1..] == ms[1..] + [m];
      PresentSnoc(cfg, entries, files, ms[1..], m);
    }
  }

  // ---------------------------------------------------------------- lines
  /** The dotted module name of a relative path. */
  function ModuleName(path: string): string {
    var p := ReplaceChar(path, '\\', '/');
    var q := if EndsWith(p, "/__init__.py") then p[..|p| - 12] else if EndsWith(p, ".py") then p[..|p| - 3] else p;
    ReplaceChar(q, '/', '.')
  }

  function CommaJoin(names: seq<string>): string {
    if names == [] then "" else if |names| == 1 then names[0] else names[0] + ", " + CommaJoin(names[1..])
  }

  /** One listed module and the symbols shown for it. */
  datatype Listed = Listed(path: string, symbols: seq<string>)

  function LineOf(l: Listed): string { ModuleName(l.path) + ": [" + CommaJoin(l.symbols) + "]" }

  function LinesOf(ls: seq<Listed>): seq<string> { seq(|ls|, i requires 0 <= i < |ls| => LineOf(ls[i])) }

  function Chars(lines: seq<string>): nat {
    if lines == [] then 0 else |lines[0]| + 1 + Chars(lines[1..])
  }

  function SymbolCount(ls: seq<Listed>): nat {
    if ls == [] then 0 else |ls[0].symbols| + SymbolCount(ls[1..])
  }

  lemma {:induction false} CharsSnoc(lines: seq<string>, line: string)
    ensures Chars(lines + [line]) == Chars(lines) + |line| + 1
  {
    if lines == [] {
      assert [] + [line] == [line];
    } else {
      assert (lines + [line])[1..] == lines[1..] + [line];
      CharsSnoc(lines[1..], line);
    }
  }

  lemma {:induction false} CountSnoc(ls: seq<Listed>, l: Listed)
    ensures SymbolCount(ls + [l]) == SymbolCount(ls) + |l.symbols|
  {
    if ls == [] {
      assert [] + [l] == [l];
    } else {
      assert (ls + [l])[1..] == ls[1..] + [l];
      CountSnoc(ls[1..], l);
    }
  }

  lemma {:induction false} JoinedLength(lines: seq<string>)
    requires lines != []
    ensures |Join(lines, '\n')| == Chars(lines) - 1
  {
    if |lines| > 1 { JoinedLength(lines[1..]); }
  }

  // ---------------------------------------------------------------- the loop
  type Extractor = string -> seq<string>

  predicate IsFresh(c: Symbols, mtime: real) { -0.0001 < c.mtime - mtime < 0.0001 }

  function Cut(symbols: seq<string>, room: nat): seq<string> { if |symbols| > room then symbols[..room] else symbols }

  /** The file of a module; only existing files are ever looked at. */
  function InfoOf(files: map<string, FileInfo>, m: string): FileInfo { if m in files then files[m] else FileInfo("", 0.0) }

  /** The cached symbols were taken from the file as it is now. */
  predicate Current(files: map<string, FileInfo>, cached: map<string, Symbols>, m: string) {
    m in cached && IsFresh(cached[m], InfoOf(files, m).mtime)
  }

  /** The files that have to be parsed, in order. */
  function ToParse(files: map<string, FileInfo>, cached: map<string, Symbols>, ms: seq<string>): seq<string> {
    if ms == [] then []
    else
      var init, m := ms[..|ms| - 1], ms[|ms| - 1];
      ToParse(files, cached, init) + if Current(files, cached, m) then [] else [m]
  }

  /** The symbols of a module when `parses` files before it had to be parsed: the cached ones if current, else those
      of its text while fewer than twenty parses were made, else the stale ones if allowed, else none. */
  function Choice(cfg: DepthConfig, files: map<string, FileInfo>, cached: map<string, Symbols>, x: Extractor,
                  m: string, parses: nat): Option<seq<string>> {
    if Current(files, cached, m) then Some(cached[m].names)
    else if parses < PARSE_LIMIT then Some(x(InfoOf(files, m).text))
    else if cfg.staleReads && m in cached then Some(cached[m].names)
    else None
  }

  function Paths(ls: seq<Listed>): seq<string> { seq(|ls|, i requires 0 <= i < |ls| => ls[i].path) }

  /** The line that may follow the listed ones, cut to the symbols still allowed; None where the manifest ends. */
  function NextLine(cfg: DepthConfig, files: map<string, FileInfo>, cached: map<string, Symbols>, x: Extractor,
                    m: string, parses: nat, ls: seq<Listed>): Option<Listed>
  {
    var symbols := Choice(cfg, files, cached, x, m, parses);
    if symbols.None? || SymbolCount(ls) >= cfg.distractorBudget then None
    else
      var l := Listed(m, Cut(symbols.value, cfg.distractorBudget - SymbolCount(ls)));
      if EstimateTokens(Chars(HEADER + LinesOf(ls)) + |LineOf(l)| + 1) > TOKEN_CEILING then None else Some(l)
  }

  predicate Follows(cfg: DepthConfig, files: map<string, FileInfo>, cached: map<string, Symbols>, x: Extractor,
                    ms: seq<string>, ls: seq<Listed>, i: nat)
    requires i < |ls| <= |ms|
  {
    NextLine(cfg, files, cached, x, ms[i], |ToParse(files, cached, ms[..i])|, ls[..i]) == Some(ls[i])
  }

  predicate Ends(cfg: DepthConfig, files: map<string, FileInfo>, cached: map<string, Symbols>, x: Extractor,
                 ms: seq<string>, ls: seq<Listed>)
    requires |ls| <= |ms|
  {
    |ls| < |ms| ==> NextLine(cfg, files, cached, x, ms[|ls|], |ToParse(files, cached, ms[..|ls|])|, ls).None?
  }

  /** The lines are those of the first modules, each the next line after the ones before it, and the module after
      them has none. */
  predicate Indexes(cfg: DepthConfig, files: map<string, FileInfo>, cached: map<string, Symbols>, x: Extractor,
                    ms: seq<string>, ls: seq<Listed>)
  {
    && |ls| <= |ms|
    && (forall i :: 0 <= i < |ls| ==> Follows(cfg, files, cached, x, ms, ls, i))
    && Ends(cfg, files, cached, x, ms, ls)
  }

  // ---------------------------------------------------------------- what an index is
  /** The index is determined by the modules, the files and the cache. */
  lemma {:induction false} IndexUnique(cfg: DepthConfig, files: map<string, FileInfo>, cached: map<string, Symbols>,
                                       x: Extractor, ms: seq<string>, a: seq<Listed>, b: seq<Listed>)
    requires Indexes(cfg, files, cached, x, ms, a) && Indexes(cfg, files, cached, x, ms, b)
    ensures a == b
  {
    hide NextLine;
    hide ToParse;
    var n := if |a| < |b| then |a| else |b|;
    SamePrefix(cfg, files, cached, x, ms, a, b, n);
    assert a == a[..|a|] && b == b[..|b|];
    forall i | 0 <= i < |a|
      ensures NextLine(cfg, files, cached, x, ms[i], |ToParse(files, cached, ms[..i])|, a[..i]).Some?
    {
      assert Follows(cfg, files, cached, x, ms, a, i);
    }
    forall i | 0 <= i < |b|
      ensures NextLine(cfg, files, cached, x, ms[i], |ToParse(files, cached, ms[..i])|, b[..i]).Some?
    {
      assert Follows(cfg, files, cached, x, ms, b, i);
    }
  }

  lemma {:induction false} SamePrefix(cfg: DepthConfig, files: map<string, FileInfo>, cached: map<string, Symbols>,
                                      x: Extractor, ms: seq<string>, a: seq<Listed>, b: seq<Listed>, n: nat)
    requires Indexes(cfg, files, cached, x, ms, a) && Indexes(cfg, files, cached, x, ms, b) && n <= |a| && n <= |b|
    ensures a[..n] == b[..n]
  {
    hide NextLine;
    hide ToParse;
    if n > 0 {
      SamePrefix(cfg, files, cached, x, ms, a, b, n - 1);
      assert Follows(cfg, files, cached, x, ms, a, n - 1) && Follows(cfg, files, cached, x, ms, b, n - 1);
      assert a[..n] == a[..n - 1] + [a[n - 1]] && b[..n] == b[..n - 1] + [b[n - 1]];
    }
  }

  /** An index ends before the last module only when the symbols are spent, or twenty files were parsed and the next
      one has neither current nor permitted stale symbols, or its line would pass a thousand tokens. */
  lemma WhyItEnds(cfg: DepthConfig, files: map<string, FileInfo>, cached: map<string, Symbols>, x: Extractor,
                  ms: seq<string>, ls: seq<Listed>)
    requires Indexes(cfg, files, cached, x, ms, ls) && |ls| < |ms|
    ensures var m, parses := ms[|ls|], |ToParse(files, cached, ms[..|ls|])|;
            || SymbolCount(ls) == cfg.distractorBudget
            || (parses >= 20 && !Current(files, cached, m) && !(cfg.staleReads && m in cached))
            || (Choice(cfg, files, cached, x, m, parses).Some? && SymbolCount(ls) < cfg.distractorBudget
                && EstimateTokens(Chars(HEADER + LinesOf(ls))
                                  + |LineOf(Listed(m, Cut(Choice(cfg, files, cached, x, m, parses).value,
                                                          cfg.distractorBudget - SymbolCount(ls))))| + 1) > 1000)
  {
    hide LineOf;
    hide LinesOf;
    hide Chars;
    hide SymbolCount;
    hide ToParse;
    hide Follows;
    hide EstimateTokens;
    hide Choice;
    hide Current;
    hide Cut;
    IndexWithinBudgets(cfg, files, cached, x, ms, ls);
    hide Indexes;
    assert Ends(cfg, files, cached, x, ms, ls) by { IndexEnds(cfg, files, cached, x, ms, ls); }
    NoChoice(cfg, files, cached, x, ms[|ls|], |ToParse(files, cached, ms[..|ls|])|);
  }

  lemma IndexEnds(cfg: DepthConfig, files: map<string, FileInfo>, cached: map<string, Symbols>, x: Extractor,
                  ms: seq<string>, ls: seq<Listed>)
    requires Indexes(cfg, files, cached, x, ms, ls)
    ensures |ls| <= |ms| && Ends(cfg, files, cached, x, ms, ls)
  {
  }

  lemma NoChoice(cfg: DepthConfig, files: map<string, FileInfo>, cached: map<string, Symbols>, x: Extractor, m: string,
                 parses: nat)
    ensures Choice(cfg, files, cached, x, m, parses).None? <==>
              parses >= 20 && !Current(files, cached, m) && !(cfg.staleReads && m in cached)
  {
  }

  /** Budgets, order and wholeness: only the last line can be cut, and only when the symbols are spent. */
  lemma IndexWithinBudgets(cfg: DepthConfig, files: map<string, FileInfo>, cached: map<string, Symbols>, x: Extractor,
                           ms: seq<string>, ls: seq<Listed>)
    requires Indexes(cfg, files, cached, x, ms, ls)
    ensures Paths(ls) == ms[..|ls|] && SymbolCount(ls) <= cfg.distractorBudget
    ensures ls != [] ==> EstimateTokens(Chars(HEADER + LinesOf(ls))) <= 1000
    ensures forall i :: 0 <= i < |ls| && (i < |ls| - 1 || SymbolCount(ls) < cfg.distractorBudget) ==>
              Choice(cfg, files, cached, x, ms[i], |ToParse(files, cached, ms[..i])|) == Some(ls[i].symbols)
  {
    hide Choice;
    hide ToParse;
    hide LineOf;
    forall i | 0 <= i < |ls| ensures ls[i].path == ms[i] { assert Follows(cfg, files, cached, x, ms, ls, i); }
    assert ls[..|ls|] == ls;
    if ls == [] { assert SymbolCount([]) == 0; } else { LineCounts(cfg, files, cached, x, ms, ls, |ls| - 1); }
    forall i | 0 <= i < |ls| && (i < |ls| - 1 || SymbolCount(ls) < cfg.distractorBudget)
      ensures Choice(cfg, files, cached, x, ms[i], |ToParse(files, cached, ms[..i])|) == Some(ls[i].symbols)
    {
      LineCounts(cfg, files, cached, x, ms, ls, i);
      if i < |ls| - 1 { assert Follows(cfg, files, cached, x, ms, ls, i + 1); }
    }
  }

  /** One line: it is whole unless it spends the symbols. */
  lemma LineCounts(cfg: DepthConfig, files: map<string, FileInfo>, cached: map<string, Symbols>, x: Extractor,
                   ms: seq<string>, ls: seq<Listed>, i: nat)
    requires i < |ls| <= |ms| && Follows(cfg, files, cached, x, ms, ls, i)
    ensures SymbolCount(ls[..i + 1]) <= cfg.distractorBudget
    ensures EstimateTokens(Chars(HEADER + LinesOf(ls[..i + 1]))) <= TOKEN_CEILING
    ensures SymbolCount(ls[..i + 1]) < cfg.distractorBudget ==>
              Choice(cfg, files, cached, x, ms[i], |ToParse(files, cached, ms[..i])|) == Some(ls[i].symbols)
  {
    hide Choice;
    hide ToParse;
    hide LineOf;
    var before := ls[..i];
    assert ls[..i + 1] == before + [ls[i]];
    ListEntry(cfg, files, cached, x, ms[i], |ToParse(files, cached, ms[..i])|, before, ls[i]);
  }

  lemma ListMore(ls: seq<Listed>, l: Listed)
    ensures LinesOf(ls + [l]) == LinesOf(ls) + [LineOf(l)]
  {
  }

  lemma HeaderChars()
    ensures Chars(HEADER) == |HEADER[0]| + 1 + |HEADER[1]| + 1
  {
    assert HEADER[1..] == [HEADER[1]] && HEADER[1..][1..] == [];
  }

  lemma {:induction false} PresentPrefix(cfg: DepthConfig, entries: set<string>, files: map<string, FileInfo>, ms: seq<string>, k: nat)
    requires k <= |ms|
    ensures Present(cfg, entries, files, ms[..k]) <= Present(cfg, entries, files, ms)
    decreases |ms| - k
  {
    if k < |ms| {
      assert ms[..k + 1] == ms[..k] + [ms[k]];
      PresentSnoc(cfg, entries, files, ms[..k], ms[k]);
      PresentPrefix(cfg, entries, files, ms, k + 1);
    } else {
      assert ms[..k] == ms;
    }
  }

  // ---------------------------------------------------------------- records for the cache
  /** A record carries the whole symbol list of the file it was parsed from. */
  function RecordOf(x: Extractor, sha: string -> string, files: map<string, FileInfo>, m: string): (string, Symbols) {
    var info := InfoOf(files, m);
    (m, Symbols(info.mtime, sha(info.text), x(info.text)))
  }

  /** The records of the first twenty files to parse. */
  function RecordsOf(x: Extractor, sha: string -> string, files: map<string, FileInfo>, ms: seq<string>): (r: seq<(string, Symbols)>)
    ensures |r| <= PARSE_LIMIT
  {
    seq(if |ms| < PARSE_LIMIT then |ms| else PARSE_LIMIT, i requires 0 <= i < |ms| => RecordOf(x, sha, files, ms[i]))
  }

  datatype Outcome = Outcome(manifest: Option<string>, listed: seq<Listed>, records: seq<(string, Symbols)>, parsed: nat)

  /** The symbols of one module: the cached ones when current, else parsed while the limit allows, else the stale
      ones when permitted, else none. Only a parse adds a record, and the record is whole. */
  method ResolveSymbols(cfg: DepthConfig, m: string, files: map<string, FileInfo>, cached: map<string, Symbols>,
                        extract: Extractor, sha: string -> string, before: seq<(string, Symbols)>)
    returns (found: Option<seq<string>>, records: seq<(string, Symbols)>)
    requires m in files
    ensures m in cached && files[m].mtime - 0.0001 < cached[m].mtime < files[m].mtime + 0.0001 ==> Current(files, cached, m)
    ensures Current(files, cached, m) ==> m in cached && files[m].mtime - 0.0001 < cached[m].mtime < files[m].mtime + 0.0001
    ensures Current(files, cached, m) ==> found == Some(cached[m].names) && records == before
    ensures !Current(files, cached, m) && |before| < 20 ==>
              && found == Some(extract(files[m].text)) && records == before + [RecordOf(extract, sha, files, m)]
              && RecordOf(extract, sha, files, m)
                 == (m, Symbols(files[m].mtime, sha(files[m].text), extract(files[m].text)))
    ensures !Current(files, cached, m) && |before| >= PARSE_LIMIT ==>
              records == before && found == if cfg.staleReads && m in cached then Some(cached[m].names) else None
  {
    records := before;
    var hit := m in cached && IsFresh(cached[m], files[m].mtime);
    if hit { return Some(cached[m].names), records; }
    if |records| >= PARSE_LIMIT {
      return if cfg.staleReads && m in cached then Some(cached[m].names) else None, records;
    }
    var symbols := extract(files[m].text);
    records := records + [(m, Symbols(files[m].mtime, sha(files[m].text), symbols))];
    return Some(symbols), records;
  }

  /** Everything the loop has done when it looked at the modules seen and ls are the lines so far. */
  ghost predicate Progress(cfg: DepthConfig, files: map<string, FileInfo>, cached: map<string, Symbols>, x: Extractor,
                           seen: seq<string>, ls: seq<Listed>)
  {
    |ls| == |seen| && forall i :: 0 <= i < |ls| ==> Follows(cfg, files, cached, x, seen, ls, i)
  }

  lemma ProgressSnoc(cfg: DepthConfig, files: map<string, FileInfo>, cached: map<string, Symbols>, x: Extractor,
                     seen: seq<string>, ls: seq<Listed>, m: string, l: Listed)
    requires Progress(cfg, files, cached, x, seen, ls)
    requires NextLine(cfg, files, cached, x, m, |ToParse(files, cached, seen)|, ls) == Some(l)
    ensures Progress(cfg, files, cached, x, seen + [m], ls + [l])
  {
    hide NextLine;
    hide ToParse;
    var more, lines := seen + [m], ls + [l];
    forall i | 0 <= i < |lines| ensures Follows(cfg, files, cached, x, more, lines, i) {
      assert more[..i] == seen[..i] && lines[..i] == ls[..i];
      if i < |ls| { assert Follows(cfg, files, cached, x, seen, ls, i); } else { assert seen[..i] == seen && ls[..i] == ls; }
    }
  }

  lemma ProgressIndexes(cfg: DepthConfig, files: map<string, FileInfo>, cached: map<string, Symbols>, x: Extractor,
                        seen: seq<string>, ls: seq<Listed>, ms: seq<string>)
    requires Progress(cfg, files, cached, x, seen, ls) && seen <= ms
    requires |seen| < |ms| ==> NextLine(cfg, files, cached, x, ms[|seen|], |ToParse(files, cached, seen)|, ls).None?
    ensures Indexes(cfg, files, cached, x, ms, ls)
  {
    hide NextLine;
    hide ToParse;
    forall i | 0 <= i < |ls| ensures Follows(cfg, files, cached, x, ms, ls, i) {
      assert Follows(cfg, files, cached, x, seen, ls, i) && seen[..i] == ms[..i];
    }
    assert ms[..|ls|] == seen;
  }

  /** The modules the loop looked at: the listed ones and the one it stopped at. */
  function Looked(ms: seq<string>, listed: nat): seq<string> { if listed < |ms| then ms[..listed + 1] else ms }

  lemma ResolveIsChoice(cfg: DepthConfig, files: map<string, FileInfo>, cached: map<string, Symbols>, x: Extractor,
                        sha: string -> string, seen: seq<string>, m: string, records: seq<(string, Symbols)>)
    requires records == RecordsOf(x, sha, files, ToParse(files, cached, seen))
    ensures var need := |ToParse(files, cached, seen)|;
            && (|records| < PARSE_LIMIT <==> need < PARSE_LIMIT)
            && RecordsOf(x, sha, files, ToParse(files, cached, seen + [m]))
               == if Current(files, cached, m) || need >= PARSE_LIMIT then records else records + [RecordOf(x, sha, files, m)]
  {
    assert (seen + [m])[..|seen|] == seen;
    var before, after := ToParse(files, cached, seen), ToParse(files, cached, seen + [m]);
    hide ToParse;
    hide RecordOf;
    assert after == before + if Current(files, cached, m) then [] else [m];
  }

  /** One turn of the loop for an admitted file: its symbols, cut to what is left, and the line if it fits. */
  method NextEntry(cfg: DepthConfig, m: string, files: map<string, FileInfo>, cached: map<string, Symbols>,
                   extract: Extractor, sha: string -> string, before: seq<(string, Symbols)>,
                   totalSymbols: nat, totalChars: nat, ghost parses: nat, ghost listed: seq<Listed>)
    returns (entry: Option<Listed>, records: seq<(string, Symbols)>)
    requires m in files && (|before| < PARSE_LIMIT <==> parses < PARSE_LIMIT)
    requires totalSymbols == SymbolCount(listed) && totalChars == Chars(HEADER + LinesOf(listed))
    ensures entry == NextLine(cfg, files, cached, extract, m, parses, listed)
    ensures records == if Current(files, cached, m) || parses >= PARSE_LIMIT then before
                       else before + [RecordOf(extract, sha, files, m)]
  {
    hide LineOf;
    hide Chars;
    hide SymbolCount;
    hide LinesOf;
    hide RecordOf;
    var found;
    found, records := ResolveSymbols(cfg, m, files, cached, extract, sha, before);
    if found.None? { return None, records; }
    var remaining := cfg.distractorBudget - totalSymbols;
    if remaining <= 0 { return None, records; }
    var shown := if |found.value| > remaining then found.value[..remaining] else found.value;
    var line := LineOf(Listed(m, shown));
    if EstimateTokens(totalChars + |line| + 1) > TOKEN_CEILING { return None, records; }
    return Some(Listed(m, shown)), records;
  }

  /** Builds the manifest: the index of the admitted files in candidate order, as far as the budgets reach, and the
      records of what had to be parsed, never truncated. */
  method BuildManifest(cfg: DepthConfig, entries: set<string>, candidates: seq<string>, files: map<string, FileInfo>,
                       cached: map<string, Symbols>, extract: Extractor, sha: string -> string)
    returns (o: Outcome)
    ensures var ms := Present(cfg, entries, files, candidates);
            && Indexes(cfg, files, cached, extract, ms, o.listed)
            && o.records == RecordsOf(extract, sha, files, ToParse(files, cached, Looked(ms, |o.listed|)))
    ensures o.parsed == |o.records| <= 20
    ensures SymbolCount(o.listed) <= cfg.distractorBudget
    ensures o.manifest.Some? <==> o.listed != []
    ensures o.manifest.Some? ==> o.manifest == Some(Join(HEADER + LinesOf(o.listed), '\n'))
                                 && |o.manifest.value| / 4 <= 1000
  {
    hide Admitted;
    hide LineOf;
    hide LinesOf;
    hide Present;
    hide Chars;
    hide SymbolCount;
    hide Join;
    hide ToParse;
    hide RecordsOf;
    hide Indexes;
    hide Progress;
    hide NextLine;
    hide RecordOf;
    hide Current;
    var lines := HEADER;
    var listed: seq<Listed> := [];
    var totalSymbols, parsed := 0, 0;
    var totalChars := |HEADER[0]| + 1 + |HEADER[1]| + 1;
    var records: seq<(string, Symbols)> := [];
    var k := 0;
    var stopped := false;
    ghost var ms := Present(cfg, entries, files, candidates);
    ghost var seen: seq<string> := [];
    HeaderChars();
    NothingYet(cfg, entries, files, cached, extract, sha);
    assert candidates[..0] == [] && HEADER + [] == HEADER;
    while k < |candidates| && !stopped
      invariant 0 <= k <= |candidates|
      invariant lines == HEADER + LinesOf(listed) && totalChars == Chars(lines)
      invariant totalSymbols == SymbolCount(listed) <= cfg.distractorBudget
      invariant seen <= ms && Progress(cfg, files, cached, extract, seen, listed) && |listed| == |seen|
      invariant !stopped ==> seen == Present(cfg, entries, files, candidates[..k])
      invariant !stopped ==> records == RecordsOf(extract, sha, files, ToParse(files, cached, seen))
      invariant stopped ==>
                  && |seen| < |ms|
                  && NextLine(cfg, files, cached, extract, ms[|seen|], |ToParse(files, cached, seen)|, listed).None?
                  && records == RecordsOf(extract, sha, files, ToParse(files, cached, ms[..|seen| + 1]))
      invariant parsed == |records|
      decreases |candidates| - k, !stopped
    {
      var m := candidates[k];
      assert candidates[..k + 1] == candidates[..k] + [m];
      PresentSnoc(cfg, entries, files, candidates[..k], m);
      PresentPrefix(cfg, entries, files, candidates, k + 1);
      if Admitted(cfg, entries, m) && m in files {
        ghost var more := seen + [m];
        assert more <= ms && more == ms[..|seen| + 1] && ms[|seen|] == m;
        ResolveIsChoice(cfg, files, cached, extract, sha, seen, m, records);
        var entry;
        entry, records := NextEntry(cfg, m, files, cached, extract, sha, records, totalSymbols, totalChars,
                                    |ToParse(files, cached, seen)|, listed);
        parsed := |records|;
        if entry.None? {
          stopped := true;
        } else {
          ListEntry(cfg, files, cached, extract, m, |ToParse(files, cached, seen)|, listed, entry.value);
          ProgressSnoc(cfg, files, cached, extract, seen, listed, m, entry.value);
          listed := listed + [entry.value];
          lines := lines + [LineOf(entry.value)];
          totalSymbols := totalSymbols + |entry.value.symbols|;
          totalChars := totalChars + |LineOf(entry.value)| + 1;
          seen := more;
        }
      }
      if !stopped { k := k + 1; }
    }
    if !stopped { assert candidates[..k] == candidates && seen == ms; }
    ProgressIndexes(cfg, files, cached, extract, seen, listed, ms);
    if listed != [] { IndexWithinBudgets(cfg, files, cached, extract, ms, listed); }
    assert |LinesOf(listed)| == |listed| by { LinesCount(listed); }
    if |lines| > 2 { JoinedLength(lines); }
    return Outcome(if |lines| > 2 then Some(Join(lines, '\n')) else None, listed, records, parsed);
  }

  /** Listing the next line: the totals move by its symbols and characters, and stay within the symbol budget. */
  lemma ListEntry(cfg: DepthConfig, files: map<string, FileInfo>, cached: map<string, Symbols>, x: Extractor,
                  m: string, parses: nat, ls: seq<Listed>, l: Listed)
    requires NextLine(cfg, files, cached, x, m, parses, ls) == Some(l)
    ensures SymbolCount(ls + [l]) == SymbolCount(ls) + |l.symbols| <= cfg.distractorBudget
    ensures HEADER + LinesOf(ls + [l]) == (HEADER + LinesOf(ls)) + [LineOf(l)]
    ensures Chars(HEADER + LinesOf(ls + [l])) == Chars(HEADER + LinesOf(ls)) + |LineOf(l)| + 1
  {
    hide Choice;
    hide LineOf;
    CountSnoc(ls, l);
    ListMore(ls, l);
    CharsSnoc(HEADER + LinesOf(ls), LineOf(l));
    assert (HEADER + LinesOf(ls)) + [LineOf(l)] == HEADER + (LinesOf(ls) + [LineOf(l)]);
  }

  lemma NothingYet(cfg: DepthConfig, entries: set<string>, files: map<string, FileInfo>, cached: map<string, Symbols>,
                   x: Extractor, sha: string -> string)
    ensures LinesOf([]) == [] && SymbolCount([]) == 0 && Present(cfg, entries, files, []) == []
    ensures Progress(cfg, files, cached, x, [], []) && ToParse(files, cached, []) == []
    ensures RecordsOf(x, sha, files, []) == []
  {
  }

  lemma LinesCount(ls: seq<Listed>)
    ensures |LinesOf(ls)| == |ls|
  {
  }

  /** Every listed module is a candidate, is a file, and when clamping applies lies in a subsystem of the bundle. */
  lemma {:induction false} ListedAreAdmitted(cfg: DepthConfig, entries: set<string>, files: map<string, FileInfo>,
                                             candidates: seq<string>, m: string)
    ensures m in Present(cfg, entries, files, candidates) <==>
              && m in candidates && m in files
              && (cfg.clamping && (exists e :: e in entries && |Parts(e)| > 1) && |Parts(m)| > 1 ==>
                    exists e :: e in entries && |Parts(e)| > 1 && Parts(e)[0] == Parts(m)[0])
  {
    hide SplitOn;
    if candidates != [] {
      ListedAreAdmitted(cfg, entries, files, candidates[1..], m);
      if e :| e in entries && |Parts(e)| > 1 { assert Parts(e)[0] in AllowedSubsystems(entries); }
      assert AllowedSubsystems(entries) == {} <==> !exists e :: e in entries && |Parts(e)| > 1 by {
        if s :| s in AllowedSubsystems(entries) {}
      }
    }
  }

  // ---------------------------------------------------------------- what a line says
  lemma {:induction false} DotsForSlashes(names: seq<string>)
    requires forall n :: n in names ==> '/' !in n
    ensures ReplaceChar(Join(names, '/'), '/', '.') == Join(names, '.')
  {
    if |names| == 0 {
    } else if |names| == 1 {
      assert names[0] in names;
      assert ReplaceChar(names[0], '/', '.') == names[0];
    } else {
      assert names[0] in names;
      DotsForSlashes(names[1..]);
      assert ReplaceChar(names[0], '/', '.') == names[0];
      assert ReplaceChar(names[0] + ['/'] + Join(names[1..], '/'), '/', '.')
             == ReplaceChar(names[0], '/', '.') + ['.'] + ReplaceChar(Join(names[1..], '/'), '/', '.');
    }
  }

  lemma EndsConcat(a: string, b: string)
    ensures EndsWith(a + b, b) && (a + b)[..|a + b| - |b|] == a
  {
  }

  /** The module name of a source file is its directories and its name between dots; a package goes by its directory;
      another file keeps its whole name. */
  lemma ModuleNameIs(names: seq<string>)
    requires forall n :: n in names ==> '/' !in n && '\\' !in n
    ensures var path := Join(names, '/');
            && ModuleName(path + "/__init__.py") == Join(names, '.')
            && (!EndsWith(path, "/__init__") ==> ModuleName(path + ".py") == Join(names, '.'))
            && (!EndsWith(path, ".py") ==> ModuleName(path) == Join(names, '.'))
  {
    var path := Join(names, '/');
    DotsForSlashes(names);
    NoBackslash(names);
    hide Join;
    assert ReplaceChar(path, '\\', '/') == path;
    assert ReplaceChar(path + "/__init__.py", '\\', '/') == path + "/__init__.py" by {
      assert forall i :: 0 <= i < 12 ==> "/__init__.py"[i] != '\\';
    }
    assert ReplaceChar(path + ".py", '\\', '/') == path + ".py";
    EndsConcat(path, "/__init__.py");
    EndsConcat(path, ".py");
    if EndsWith(path + ".py", "/__init__.py") { InitEnds(path); }
    if EndsWith(path, "/__init__.py") { PyEnds(path); }
  }

  lemma InitEnds(path: string)
    requires EndsWith(path + ".py", "/__init__.py")
    ensures EndsWith(path, "/__init__")
  {
    var t := path + ".py";
    assert t[|t| - 12..] == "/__init__.py" && "/__init__.py"[..9] == "/__init__";
    assert t[|t| - 12..][..9] == path[|path| - 9..];
  }

  lemma PyEnds(path: string)
    requires EndsWith(path, "/__init__.py")
    ensures EndsWith(path, ".py")
  {
    assert "/__init__.py"[9..] == ".py";
    assert path[|path| - 12..][9..] == path[|path| - 3..];
  }

  lemma {:induction false} NoBackslash(names: seq<string>)
    requires forall n :: n in names ==> '\\' !in n
    ensures '\\' !in Join(names, '/')
  {
    if |names| == 1 {
      assert names[0] in names;
    } else if |names| > 1 {
      assert names[0] in names;
      NoBackslash(names[1..]);
    }
  }

  /** A line reads back: the module name before the first colon, and the symbols between the brackets. */
  lemma LineShows(l: Listed)
    ensures var line, name := LineOf(l), ModuleName(l.path);
            && name + ": [" <= line && EndsWith(line, "]")
            && line[|name| + 3..|line| - 1] == CommaJoin(l.symbols)
    ensures CommaJoin([]) == "" && (forall x :: CommaJoin([x]) == x)
    ensures |l.symbols| > 1 ==> CommaJoin(l.symbols) == l.symbols[0] + ", " + CommaJoin(l.symbols[1..])
  {
    assert CommaJoin([]) == "" && (forall x :: CommaJoin([x]) == x);
    hide ModuleName;
    var name, inner := ModuleName(l.path), CommaJoin(l.symbols);
    assert LineOf(l) == name + ": [" + inner + "]";
  }
}
