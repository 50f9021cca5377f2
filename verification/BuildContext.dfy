/** The context engine: which depth each module gets, the cached build of the entries, and the ambient manifest. */
module BuildContext {
  import opened Wrappers
  import opened CoreContracts
  import opened Identifiers
  import opened PyText
  import opened SemanticCache

  datatype DepthLevel = PURE_PASSTHROUGH | DIRECT_INTERFACE | TRANSITIVE_NOMINAL | AMBIENT_CARTOGRAPHY

  datatype DepthConfig = DepthConfig(
    maxDepth: DepthLevel, ambientManifest: bool, distractorBudget: nat, clamping: bool, staleReads: bool)

  /** The configuration used when nothing is configured. */
  const CANONICAL_CONFIG := DepthConfig(TRANSITIVE_NOMINAL, false, 150, true, true)

  /** CLOSED, TRIPPED or absent; a HALTED breaker returns before any module is looked at. */
  datatype Breaker = Closed | Tripped

  datatype Placement = Ambient | Skipped | Entry(depth: PruningDepth, stripDocs: bool)

  /** The fate of a module by its distance from the target. */
  function Place(cfg: DepthConfig, breaker: Breaker, distance: nat): Placement {
    if breaker == Tripped && distance >= 2 then Ambient
    else if cfg.maxDepth == PURE_PASSTHROUGH && distance > 0 then Skipped
    else if cfg.maxDepth == DIRECT_INTERFACE && distance > 1 then Skipped
    else if cfg.maxDepth == AMBIENT_CARTOGRAPHY && distance == 3 then Ambient
    else if cfg.maxDepth == AMBIENT_CARTOGRAPHY && distance > 3 then Skipped
    else if cfg.maxDepth != AMBIENT_CARTOGRAPHY && cfg.ambientManifest && distance == 3 then Ambient
    else if distance == 0 then Entry(FULL, false)
    else if breaker == Tripped then Entry(NOMINAL, true)
    else if distance == 1 then Entry(INTERFACE, false)
    else Entry(NOMINAL, false)
  }

  /** The distances at which a module of an untripped build enters the bundle, the manifest, or nothing. */
  lemma PlacementExact(cfg: DepthConfig, distance: nat)
    ensures Place(cfg, Closed, distance).Entry? <==>
              match cfg.maxDepth
              case PURE_PASSTHROUGH => distance == 0
              case DIRECT_INTERFACE => distance <= 1
              case TRANSITIVE_NOMINAL => distance != 3 || !cfg.ambientManifest
              case AMBIENT_CARTOGRAPHY => distance <= 2
    ensures Place(cfg, Closed, distance).Ambient? <==>
              distance == 3 && (cfg.maxDepth == AMBIENT_CARTOGRAPHY || (cfg.maxDepth == TRANSITIVE_NOMINAL && cfg.ambientManifest))
    ensures Place(cfg, Closed, distance).Entry? ==>
              Place(cfg, Closed, distance) == Entry(if distance == 0 then FULL else if distance == 1 then INTERFACE else NOMINAL, false)
  {
  }

  /** The same for a tripped build: the active file, its direct imports in outline, and all others by name only. */
  lemma TrippedPlacementExact(cfg: DepthConfig, distance: nat)
    ensures Place(cfg, Tripped, distance).Ambient? <==> distance >= 2
    ensures Place(cfg, Tripped, distance).Skipped? <==> distance == 1 && cfg.maxDepth == PURE_PASSTHROUGH
    ensures Place(cfg, Tripped, 0) == Entry(FULL, false)
    ensures Place(cfg, Tripped, 1).Entry? ==> Place(cfg, Tripped, 1) == Entry(NOMINAL, true)
  {
  }

  function Hops(level: DepthLevel): nat {
    match level
    case PURE_PASSTHROUGH => 0
    case DIRECT_INTERFACE => 1
    case TRANSITIVE_NOMINAL => 2
    case AMBIENT_CARTOGRAPHY => 3
  }

  /** Nothing farther than the configured number of hops reaches the prompt. */
  ghost predicate KeepsCeiling(cfg: DepthConfig, breaker: Breaker, hops: nat) {
    forall d: nat :: d > hops ==> Place(cfg, breaker, d).Skipped?
  }

  /** The configured level is a ceiling exactly in an untripped build of a level other than TRANSITIVE_NOMINAL, and
      the absolute ceiling of three hops holds in exactly the same builds. */
  lemma CeilingIff(cfg: DepthConfig, breaker: Breaker)
    ensures KeepsCeiling(cfg, breaker, Hops(cfg.maxDepth)) <==> breaker == Closed && cfg.maxDepth != TRANSITIVE_NOMINAL
    ensures KeepsCeiling(cfg, breaker, 3) <==> breaker == Closed && cfg.maxDepth != TRANSITIVE_NOMINAL
    ensures breaker == Closed && cfg.maxDepth != TRANSITIVE_NOMINAL ==>
              forall hops: nat :: hops < Hops(cfg.maxDepth) ==> !KeepsCeiling(cfg, breaker, hops)
  {
    var own := Hops(cfg.maxDepth);
    if breaker == Closed && cfg.maxDepth != TRANSITIVE_NOMINAL { assert own > 0 ==> !Place(cfg, breaker, own).Skipped?; }
    if breaker == Tripped || cfg.maxDepth == TRANSITIVE_NOMINAL { assert !Place(cfg, breaker, 4).Skipped?; }
  }

  /** The canonical configuration has no ceiling: every module at distance 2 or more enters, pruned to names. */
  lemma CanonicalHasNoCeiling(distance: nat)
    requires distance >= 2
    ensures Place(CANONICAL_CONFIG, Closed, distance) == Entry(NOMINAL, false)
    ensures !KeepsCeiling(CANONICAL_CONFIG, Closed, distance)
  {
    assert !Place(CANONICAL_CONFIG, Closed, distance + 1).Skipped?;
  }

  /** How little of a module is shown: in full, in outline, names in the bundle, a manifest line, nothing. */
  function Loss(p: Placement): nat {
    match p
    case Entry(d, _) => Rank(d)
    case Ambient => 3
    case Skipped => 4
  }

  ghost predicate NearerNeverLess(cfg: DepthConfig, breaker: Breaker) {
    forall near: nat, far: nat :: near <= far ==> Loss(Place(cfg, breaker, near)) <= Loss(Place(cfg, breaker, far))
  }

  /** A nearer module is never shown less than a farther one, except in two configurations: the manifest switched on
      at level TRANSITIVE_NOMINAL, where distance 3 becomes a manifest line and distance 4 an entry, and a tripped
      breaker at PURE_PASSTHROUGH, where distance 1 is dropped and distance 2 becomes a manifest line. */
  lemma NearerNeverLessIff(cfg: DepthConfig, breaker: Breaker)
    ensures NearerNeverLess(cfg, breaker) <==>
              && !(breaker == Closed && cfg.maxDepth == TRANSITIVE_NOMINAL && cfg.ambientManifest)
              && !(breaker == Tripped && cfg.maxDepth == PURE_PASSTHROUGH)
  {
    if breaker == Closed && cfg.maxDepth == TRANSITIVE_NOMINAL && cfg.ambientManifest {
      assert Loss(Place(cfg, breaker, 3)) > Loss(Place(cfg, breaker, 4));
    }
    if breaker == Tripped && cfg.maxDepth == PURE_PASSTHROUGH {
      assert Loss(Place(cfg, breaker, 1)) > Loss(Place(cfg, breaker, 2));
    }
  }

  /** Among the modules that enter the bundle, a nearer one is never pruned harder than a farther one. */
  lemma PlacementOrder(cfg: DepthConfig, breaker: Breaker, near: nat, far: nat)
    requires near <= far
    ensures Place(cfg, breaker, 0) == Entry(FULL, false)
    ensures Place(cfg, breaker, near).Entry? && Place(cfg, breaker, far).Entry? ==>
              Rank(Place(cfg, breaker, near).depth) <= Rank(Place(cfg, breaker, far).depth)
    ensures breaker == Tripped && Place(cfg, breaker, far).Entry? ==> far <= 1
  {
  }

  /** FULL before INTERFACE before NOMINAL. */
  function Rank(d: PruningDepth): nat { match d case FULL => 0 case INTERFACE => 1 case NOMINAL => 2 }

  // ---------------------------------------------------------------- entries
  /** What the bundle must show for a module, computed without a cache. */
  function Expected(p: Pruner, passthrough: bool, code: string, place: Placement): Answer
    requires place.Entry?
  {
    if passthrough then Answer(code, |code|, |code|, 0, FULL)
    else Recomputed(p, Query(code, place.stripDocs, place.depth, "python"))
  }

  lemma CollisionPersists(h: Sha256, used: set<Query>, more: set<Query>, q: Query)
    requires KeyCollision(h, used, q) && used <= more
    ensures KeyCollision(h, more, q)
  {
  }

  datatype BuildResult = Built(entries: map<string, Answer>, ambient: seq<string>) | StoreFailed

  /** What the cache is asked for a module. */
  function Asked(code: string, place: Placement): Query
    requires place.Entry?
  {
    Query(code, place.stripDocs, place.depth, "python")
  }

  /** The entry shows the module's own text pruned as placed, or the key of its own query collides with the key of a
      stored query; in passthrough it is the raw text. */
  ghost predicate EntryKept(h: Sha256, used: set<Query>, p: Pruner, passthrough: bool, code: string, place: Placement,
                            a: Answer)
    requires place.Entry?
  {
    if passthrough then a == Answer(code, |code|, |code|, 0, FULL)
    else
      var q := Query(code, place.stripDocs, place.depth, "python");
      Shows(p, q, a) || KeyCollision(h, used, q)
  }

  /** The entries promised for the modules seen: exactly the placed files, each with its uncached answer unless the
      key of its own query collides. */
  ghost predicate EntriesKept(h: Sha256, used: set<Query>, p: Pruner, cfg: DepthConfig, breaker: Breaker,
                              passthrough: bool, modules: seq<(string, nat)>, files: map<string, string>,
                              entries: map<string, Answer>)
  {
    && (forall m :: m in entries ==> exists i :: 0 <= i < |modules| && modules[i].0 == m
                                                 && Place(cfg, breaker, modules[i].1).Entry? && m in files)
    && (forall i :: 0 <= i < |modules| && Place(cfg, breaker, modules[i].1).Entry? && modules[i].0 in files ==>
          && modules[i].0 in entries
          && EntryKept(h, used, p, passthrough, files[modules[i].0], Place(cfg, breaker, modules[i].1),
                       entries[modules[i].0]))
  }

  /** Exactly the placed files, each with its uncached answer. */
  ghost predicate EntriesFor(p: Pruner, cfg: DepthConfig, breaker: Breaker, passthrough: bool,
                             modules: seq<(string, nat)>, files: map<string, string>, entries: map<string, Answer>)
  {
    && (forall m :: m in entries ==> exists i :: 0 <= i < |modules| && modules[i].0 == m
                                                 && Place(cfg, breaker, modules[i].1).Entry? && m in files)
    && (forall i :: 0 <= i < |modules| && Place(cfg, breaker, modules[i].1).Entry? && modules[i].0 in files ==>
          && modules[i].0 in entries
          && entries[modules[i].0] == Expected(p, passthrough, files[modules[i].0], Place(cfg, breaker, modules[i].1)))
  }

  /** No query of the build has the key of another stored query. */
  ghost predicate NoCollision(h: Sha256, used: set<Query>, cfg: DepthConfig, breaker: Breaker, modules: seq<(string, nat)>,
                              files: map<string, string>)
  {
    forall i :: 0 <= i < |modules| && Place(cfg, breaker, modules[i].1).Entry? && modules[i].0 in files ==>
      !KeyCollision(h, used, Asked(files[modules[i].0], Place(cfg, breaker, modules[i].1)))
  }

  lemma KeptIsUncached(h: Sha256, used: set<Query>, p: Pruner, cfg: DepthConfig, breaker: Breaker, passthrough: bool,
                       modules: seq<(string, nat)>, files: map<string, string>, entries: map<string, Answer>)
    requires EntriesKept(h, used, p, cfg, breaker, passthrough, modules, files, entries)
    requires passthrough || NoCollision(h, used, cfg, breaker, modules, files)
    ensures EntriesFor(p, cfg, breaker, passthrough, modules, files, entries)
  {
    hide Place;
    hide KeyCollision;
    hide Shows;
    hide Recomputed;
    forall q, a ensures Shows(p, q, a) <==> a == Recomputed(p, q) { ShowsRecomputed(p, q, a); }
  }

  lemma KeptPersists(h: Sha256, used: set<Query>, more: set<Query>, p: Pruner, cfg: DepthConfig, breaker: Breaker,
                     passthrough: bool, modules: seq<(string, nat)>, files: map<string, string>, entries: map<string, Answer>)
    requires EntriesKept(h, used, p, cfg, breaker, passthrough, modules, files, entries) && used <= more
    ensures EntriesKept(h, more, p, cfg, breaker, passthrough, modules, files, entries)
  {
    hide Place;
    hide Shows;
    hide KeyCollision;
    forall q: Query | KeyCollision(h, used, q) ensures KeyCollision(h, more, q) { CollisionPersists(h, used, more, q); }
  }

  predicate Distinct(modules: seq<(string, nat)>) {
    forall i, j :: 0 <= i < j < |modules| ==> modules[i].0 != modules[j].0
  }

  function AmbientOf(cfg: DepthConfig, breaker: Breaker, modules: seq<(string, nat)>): seq<string> {
    if modules == [] then []
    else (if Place(cfg, breaker, modules[0].1).Ambient? then [modules[0].0] else []) + AmbientOf(cfg, breaker, modules[1..])
  }

  lemma {:induction false} AmbientSnoc(cfg: DepthConfig, breaker: Breaker, ms: seq<(string, nat)>, m: (string, nat))
    ensures AmbientOf(cfg, breaker, ms + [m])
            == AmbientOf(cfg, breaker, ms) + (if Place(cfg, breaker, m.1).Ambient? then [m.0] else [])
  {
    if ms == [] {
      assert [] + [m] == [m] && [m][1..] == [];
    } else {
      assert (ms + [m])[1..] == ms[1..] + [m];
      AmbientSnoc(cfg, breaker, ms[1..], m);
    }
  }

  /** The candidates of the manifest are the modules placed there, module by module. */
  lemma AmbientModules(cfg: DepthConfig, breaker: Breaker, ms: seq<(string, nat)>, m: string)
    requires Distinct(ms)
    ensures m in AmbientOf(cfg, breaker, ms) <==> exists i :: 0 <= i < |ms| && ms[i].0 == m && Place(cfg, breaker, ms[i].1).Ambient?
    decreases |ms|
  {
    hide Place;
    if ms != [] {
      AmbientModules(cfg, breaker, ms[1..], m);
      if i :| 0 <= i < |ms[1..]| && ms[1..][i].0 == m && Place(cfg, breaker, ms[1..][i].1).Ambient? { assert ms[i + 1] == ms[1..][i]; }
      if i :| 0 <= i < |ms| && ms[i].0 == m && Place(cfg, breaker, ms[i].1).Ambient? {
        if i > 0 { assert ms[1..][i - 1] == ms[i]; }
      }
    }
  }

  lemma EntriesSnoc(h: Sha256, used: set<Query>, p: Pruner, cfg: DepthConfig, breaker: Breaker, passthrough: bool,
                    modules: seq<(string, nat)>, k: nat, files: map<string, string>,
                    before: map<string, Answer>, after: map<string, Answer>)
    requires k < |modules| && Distinct(modules)
    requires EntriesKept(h, used, p, cfg, breaker, passthrough, modules[..k], files, before)
    requires var (m, d) := modules[k]; var place := Place(cfg, breaker, d);
             if place.Entry? && m in files
             then m in after && after == before[m := after[m]]
                  && EntryKept(h, used, p, passthrough, files[m], place, after[m])
             else after == before
    ensures EntriesKept(h, used, p, cfg, breaker, passthrough, modules[..k + 1], files, after)
  {
    hide Place;
    hide EntryKept;
    var seen, next := modules[..k], modules[..k + 1];
    assert next == seen + [modules[k]];
    forall m | m in after
      ensures exists i :: 0 <= i < |next| && next[i].0 == m && Place(cfg, breaker, next[i].1).Entry? && m in files
    {
      if m in before {
        var i :| 0 <= i < |seen| && seen[i].0 == m && Place(cfg, breaker, seen[i].1).Entry? && m in files;
        assert next[i] == seen[i];
      } else {
        assert next[k].0 == m;
      }
    }
    forall i | 0 <= i < |next| && Place(cfg, breaker, next[i].1).Entry? && next[i].0 in files
      ensures next[i].0 in after
              && EntryKept(h, used, p, passthrough, files[next[i].0], Place(cfg, breaker, next[i].1), after[next[i].0])
    {
      if i < k {
        assert next[i] == seen[i];
        assert modules[i].0 != modules[k].0;
      }
    }
  }

  // ---------------------------------------------------------------- which inserts a build makes
  /** One build: its modules in distance order, their files, and which inserts the database would accept. */
  datatype Plan = Plan(
    modules: seq<(string, nat)>, files: map<string, string>, cfg: DepthConfig, breaker: Breaker, passthrough: bool,
    accepts: nat -> bool)

  /** The cache is asked for module i. */
  predicate Asks(b: Plan, i: nat) {
    !b.passthrough && i < |b.modules| && Place(b.cfg, b.breaker, b.modules[i].1).Entry? && b.modules[i].0 in b.files
  }

  function Question(b: Plan, i: nat): Query
    requires Asks(b, i)
  {
    Asked(b.files[b.modules[i].0], Place(b.cfg, b.breaker, b.modules[i].1))
  }

  predicate IsBlank(q: Query) { Strip(q.source) == "" }

  /** A blank source is stored without a look at the cache, any other only when its key is not held. */
  predicate Misses(k: Keys, key: string, blank: bool) { blank || !Holds(k, key) }

  function AfterAsk(k: Keys, key: string, blank: bool, accepted: bool): Keys {
    if Misses(k, key, blank) then AfterWrite(k, key, accepted) else AfterRead(k, key)
  }

  /** The keys of the first n modules. */
  ghost function AskedKeys(h: Sha256, b: Plan, n: nat): set<string> {
    set i: nat | i < |b.modules| && i < n && Asks(b, i) :: KeyOf(h, Question(b, i))
  }

  /** Module i has to be stored: it is blank, or its key was neither held at the start nor asked for before it. */
  ghost predicate Stores(h: Sha256, b: Plan, start: Keys, i: nat) {
    && Asks(b, i)
    && (IsBlank(Question(b, i)) || (!Holds(start, KeyOf(h, Question(b, i))) && KeyOf(h, Question(b, i)) !in AskedKeys(h, b, i)))
  }

  ghost predicate Refused(h: Sha256, b: Plan, start: Keys, i: nat) { Stores(h, b, start, i) && !b.accepts(i) }

  /** The keys of the first n modules whose insert is needed and accepted. */
  ghost function StoredKeys(h: Sha256, b: Plan, start: Keys, n: nat): set<string> {
    set i: nat | i < |b.modules| && i < n && Stores(h, b, start, i) && b.accepts(i) :: KeyOf(h, Question(b, i))
  }

  /** The first module whose insert is needed and refused; the number of modules when there is none. */
  ghost function FirstRefusal(h: Sha256, b: Plan, start: Keys, i: nat := 0): (at: nat)
    requires i <= |b.modules|
    ensures i <= at <= |b.modules|
    ensures at < |b.modules| ==> Refused(h, b, start, at)
    ensures forall j :: i <= j < at ==> !Refused(h, b, start, j)
    decreases |b.modules| - i
  {
    if i == |b.modules| || Refused(h, b, start, i) then i else FirstRefusal(h, b, start, i + 1)
  }

  /** What both levels hold when the first n modules have been gone through. */
  ghost function KeysAfter(h: Sha256, b: Plan, start: Keys, n: nat): Keys {
    Keys(start.mem + AskedKeys(h, b, n), start.rows + StoredKeys(h, b, start, n))
  }

  /** What both levels hold after a build, which stops at the first refusal. */
  ghost function AfterBuild(h: Sha256, b: Plan, start: Keys): Keys {
    KeysAfter(h, b, start, FirstRefusal(h, b, start) + 1)
  }

  lemma StoresIsMisses(h: Sha256, b: Plan, start: Keys, n: nat)
    requires Asks(b, n)
    ensures Stores(h, b, start, n) <==>
              Misses(KeysAfter(h, b, start, n), KeyOf(h, Question(b, n)), IsBlank(Question(b, n)))
  {
    hide KeyOf;
    hide Asks;
    hide IsBlank;
  }

  lemma AskedSnoc(h: Sha256, b: Plan, n: nat)
    requires n < |b.modules|
    ensures AskedKeys(h, b, n + 1) == AskedKeys(h, b, n) + if Asks(b, n) then {KeyOf(h, Question(b, n))} else {}
  {
    hide KeyOf;
    hide Asks;
  }

  lemma StoredSnoc(h: Sha256, b: Plan, start: Keys, n: nat)
    requires n < |b.modules|
    ensures StoredKeys(h, b, start, n + 1)
            == StoredKeys(h, b, start, n)
               + if Stores(h, b, start, n) && b.accepts(n) then {KeyOf(h, Question(b, n))} else {}
    ensures Stores(h, b, start, n) ==> Asks(b, n)
  {
    hide KeyOf;
    hide Asks;
    hide IsBlank;
    hide AskedKeys;
  }

  /** Going through one more module is asking for it. */
  lemma KeysSnoc(h: Sha256, b: Plan, start: Keys, n: nat)
    requires n < |b.modules|
    ensures KeysAfter(h, b, start, n + 1) ==
              if Asks(b, n)
              then AfterAsk(KeysAfter(h, b, start, n), KeyOf(h, Question(b, n)), IsBlank(Question(b, n)), b.accepts(n))
              else KeysAfter(h, b, start, n)
    ensures Stores(h, b, start, n) ==> Asks(b, n)
  {
    hide KeyOf;
    hide Asks;
    hide IsBlank;
    hide Stores;
    hide AskedKeys;
    hide StoredKeys;
    AskedSnoc(h, b, n);
    StoredSnoc(h, b, start, n);
    if Asks(b, n) { StoresIsMisses(h, b, start, n); }
  }

  lemma KeysAtEnd(h: Sha256, b: Plan, start: Keys)
    ensures KeysAfter(h, b, start, 0) == start
    ensures KeysAfter(h, b, start, |b.modules| + 1) == KeysAfter(h, b, start, |b.modules|)
  {
    hide KeyOf;
    hide Asks;
    hide Stores;
    assert AskedKeys(h, b, |b.modules| + 1) == AskedKeys(h, b, |b.modules|);
    assert StoredKeys(h, b, start, |b.modules| + 1) == StoredKeys(h, b, start, |b.modules|);
    assert KeysAfter(h, b, start, 0) == start;
  }

  lemma {:induction false} FirstRefusalIs(h: Sha256, b: Plan, start: Keys, n: nat)
    requires n <= |b.modules| && forall j :: 0 <= j < n ==> !Refused(h, b, start, j)
    requires n == |b.modules| || Refused(h, b, start, n)
    ensures FirstRefusal(h, b, start) == n
  {
    hide Refused;
  }

  class ContextFirewallEngine {
    const cache: LocalSemanticCache

    constructor (c: LocalSemanticCache)
      ensures cache == c
    {
      cache := c;
    }

    /** One module: the cached answer if there is one, else the computed answer, stored on the way. A refused store
        raises, and leaves the process map ahead of the table unless the row already held the answer. */
    method ModuleAnswer(query: Query, project: Project, model: string, accepted: bool) returns (r: Option<Answer>)
      requires cache.Sound() && ValidQuery(query)
      modifies cache
      ensures cache.Sound() && old(cache.used) <= cache.used
      ensures r.None? <==> !accepted && Misses(old(cache.HeldKeys()), KeyOf(cache.h, query), IsBlank(query))
      ensures cache.HeldKeys() == AfterAsk(old(cache.HeldKeys()), KeyOf(cache.h, query), IsBlank(query), accepted)
      ensures old(cache.Agrees()) ==> (cache.Agrees() <==> r.Some? || cache.RowHolds(query))
      ensures r.Some? ==> Shows(cache.pruner, query, r.value) || KeyCollision(cache.h, cache.used, query)
    {
      hide Shows;
      hide Recomputed;
      hide Unattributed;
      hide Strip;
      ShowsRecomputed(cache.pruner, query, Recomputed(cache.pruner, query));
      hide KeyOf;
      hide ValidQuery;
      hide KeptProject;
      hide KeptModel;
      hide KeyCollision;
      hide LocalSemanticCache.Sound;
      hide LocalSemanticCache.Agrees;
      hide LocalSemanticCache.HeldKeys;
      var key := KeyOf(cache.h, query);
      if Strip(query.source) != "" {
        if cache.Lookup(key).Some? { cache.HitIsRecomputed(query); }
        var cached := cache.Get(key);
        if cached.Some? {
          cache.AttributeProject(key, Some(project), model, accepted);
          return Some(cached.value.answer);
        }
      }
      var expected := Recomputed(cache.pruner, query);
      cache.Set(query, key, expected, project, model, accepted);
      return if accepted then Some(expected) else None;
    }

    /** The loop over the modules in distance order. Every entry is the uncached one, or the key of its own query
        collides with the key of a stored one. The first refusal aborts the build; the process map then still agrees
        with the table exactly when the row of that very module already held its answer. */
    method BuildEntries(b: Plan, project: Project, model: string) returns (r: BuildResult)
      requires Distinct(b.modules) && cache.Sound()
      modifies cache
      ensures cache.Sound() && old(cache.used) <= cache.used
      ensures r.Built? ==> r.ambient == AmbientOf(b.cfg, b.breaker, b.modules)
      ensures r.Built? ==>
                EntriesKept(cache.h, cache.used, cache.pruner, b.cfg, b.breaker, b.passthrough, b.modules, b.files, r.entries)
      ensures r.StoreFailed? <==> FirstRefusal(cache.h, b, old(cache.HeldKeys())) < |b.modules|
      ensures cache.HeldKeys() == AfterBuild(cache.h, b, old(cache.HeldKeys()))
      ensures old(cache.Agrees()) ==>
                var at := FirstRefusal(cache.h, b, old(cache.HeldKeys()));
                cache.Agrees() <==> at == |b.modules| || cache.RowHolds(Question(b, at))
    {
      hide Shows;
      hide Place;
      hide KeyOf;
      hide IsBlank;
      hide KeyCollision;
      hide EntriesKept;
      hide KeysAfter;
      hide Stores;
      hide AmbientOf;
      hide LocalSemanticCache.Sound;
      hide LocalSemanticCache.Agrees;
      hide LocalSemanticCache.RowHolds;
      ghost var h, start := cache.h, cache.HeldKeys();
      var entries: map<string, Answer> := map[];
      var ambient: seq<string> := [];
      NothingYet(h, cache.used, cache.pruner, b.cfg, b.breaker, b.passthrough, b.files);
      KeysAtEnd(h, b, start);
      assert b.modules[..0] == [];
      for k := 0 to |b.modules|
        invariant cache.Sound() && old(cache.used) <= cache.used
        invariant ambient == AmbientOf(b.cfg, b.breaker, b.modules[..k])
        invariant EntriesKept(h, cache.used, cache.pruner, b.cfg, b.breaker, b.passthrough, b.modules[..k], b.files, entries)
        invariant cache.HeldKeys() == KeysAfter(h, b, start, k)
        invariant forall j :: 0 <= j < k ==> !Refused(h, b, start, j)
        invariant old(cache.Agrees()) ==> cache.Agrees()
      {
        var (m, distance) := b.modules[k];
        var place := Place(b.cfg, b.breaker, distance);
        ghost var before := entries;
        ghost var usedBefore := cache.used;
        assert b.modules[..k + 1] == b.modules[..k] + [b.modules[k]];
        AmbientSnoc(b.cfg, b.breaker, b.modules[..k], b.modules[k]);
        KeysSnoc(h, b, start, k);
        if place.Ambient? {
          ambient := ambient + [m];
        } else if place.Entry? && m in b.files {
          if b.passthrough {
            entries := entries[m := Answer(b.files[m], |b.files[m]|, |b.files[m]|, 0, FULL)];
          } else {
            StoresIsMisses(h, b, start, k);
            PythonIsValid(b.files[m], place);
            var a := ModuleAnswer(Asked(b.files[m], place), project, model, b.accepts(k));
            if a.None? {
              FirstRefusalIs(h, b, start, k);
              return StoreFailed;
            }
            entries := entries[m := a.value];
          }
        }
        KeptPersists(h, usedBefore, cache.used, cache.pruner, b.cfg, b.breaker, b.passthrough, b.modules[..k], b.files, before);
        EntriesSnoc(h, cache.used, cache.pruner, b.cfg, b.breaker, b.passthrough, b.modules, k, b.files, before, entries);
      }
      assert b.modules[..|b.modules|] == b.modules;
      FirstRefusalIs(h, b, start, |b.modules|);
      return Built(entries, ambient);
    }
  }

  lemma PythonIsValid(code: string, place: Placement)
    requires place.Entry?
    ensures ValidQuery(Asked(code, place))
  {
    assert Lower("python") == "python";
  }

  lemma NothingYet(h: Sha256, used: set<Query>, p: Pruner, cfg: DepthConfig, breaker: Breaker, passthrough: bool,
                  files: map<string, string>)
    ensures EntriesKept(h, used, p, cfg, breaker, passthrough, [], files, map[])
    ensures AmbientOf(cfg, breaker, []) == []
  {
  }

  /** Without a cache and with one, two builds of the same files give the same entries. */
  lemma EntriesUnique(p: Pruner, cfg: DepthConfig, breaker: Breaker, passthrough: bool, modules: seq<(string, nat)>,
                      files: map<string, string>, a: map<string, Answer>, b: map<string, Answer>)
    requires EntriesFor(p, cfg, breaker, passthrough, modules, files, a)
    requires EntriesFor(p, cfg, breaker, passthrough, modules, files, b)
    ensures a == b
  {
    hide Place;
    hide Expected;
    forall m | m in a ensures m in b && b[m] == a[m] {
      var i :| 0 <= i < |modules| && modules[i].0 == m && Place(cfg, breaker, modules[i].1).Entry? && m in files;
    }
    forall m | m in b ensures m in a {
      var i :| 0 <= i < |modules| && modules[i].0 == m && Place(cfg, breaker, modules[i].1).Entry? && m in files;
    }
  }

  /** The snippet compactor writes only answers that save something. */
  predicate Worth(p: Pruner, q: Query) { PruneRequest(p, q).Some? && PruneRequest(p, q).value.saved > 0 }

  /** Worth writing is what a reader is shown with a saving: a refused or blank snippet never is. */
  lemma WorthIff(p: Pruner, q: Query, a: Answer)
    requires Shows(p, q, a)
    ensures Worth(p, q) <==> a.saved > 0
  {
    hide Shows;
    ShowsRecomputed(p, q, a);
  }

  function AfterCompaction(h: Sha256, p: Pruner, k: Keys, q: Query, accepted: bool): Keys {
    if Holds(k, KeyOf(h, q)) then AfterRead(k, KeyOf(h, q))
    else if Worth(p, q) then AfterWrite(k, KeyOf(h, q), accepted)
    else k
  }

  /** The snippet compactor of the proxy, over the same cache: on any failure it answers the untouched code. The
      process map stays in agreement exactly when nothing had to be inserted or the insert was accepted. */
  method CompactSnippet(cache: LocalSemanticCache, q: Query, accepted: bool) returns (code: string, saved: nat)
    requires cache.Sound() && ValidQuery(q) && !q.stripDocs && q.depth != FULL
    modifies cache
    ensures cache.Sound() && old(cache.used) <= cache.used
    ensures || (exists a :: Shows(cache.pruner, q, a) && code == a.code && saved == a.saved)
            || (!accepted && code == q.source && saved == 0)
            || KeyCollision(cache.h, cache.used, q)
    ensures cache.HeldKeys() == AfterCompaction(cache.h, cache.pruner, old(cache.HeldKeys()), q, accepted)
    ensures old(cache.Agrees()) ==>
              (cache.Agrees() <==>
               accepted || Holds(old(cache.HeldKeys()), KeyOf(cache.h, q)) || !Worth(cache.pruner, q))
  {
    hide Payload;
    hide Shows;
    ShowsRecomputed(cache.pruner, q, Recomputed(cache.pruner, q));
    var key := KeyOf(cache.h, q);
    if cache.Lookup(key).Some? { cache.HitIsRecomputed(q); }
    var cached := cache.Get(key);
    if cached.Some? { return cached.value.answer.code, cached.value.answer.saved; }
    var answer := PruneRequest(cache.pruner, q);
    if answer.None? { return q.source, 0; }
    if answer.value.saved > 0 {
      cache.Set(q, key, answer.value, GLOBAL, "auto", accepted);
      if !accepted { return q.source, 0; }
    }
    return answer.value.code, answer.value.saved;
  }

  // ---------------------------------------------------------------- whole sessions
  datatype Operation =
    | Build(plan: Plan, project: Project)
    | Compact(query: Query, accepted: bool)
    | Fetch(key: string)
    | Attribute(key: string, owner: Option<Project>, accepted: bool)
    | Reopen

  predicate WellPosed(op: Operation) {
    match op
    case Build(plan, _) => Distinct(plan.modules)
    case Compact(q, _) => ValidQuery(q) && !q.stripDocs && q.depth != FULL
    case _ => true
  }

  /** What both levels hold after an operation. */
  ghost function StepKeys(h: Sha256, p: Pruner, op: Operation, k: Keys): Keys {
    match op
    case Build(plan, _) => AfterBuild(h, plan, k)
    case Compact(q, accepted) => AfterCompaction(h, p, k, q, accepted)
    case Fetch(key) => AfterRead(k, key)
    case Attribute(_, _, _) => k
    case Reopen => Keys({}, k.rows)
  }

  ghost function SessionKeys(h: Sha256, p: Pruner, ops: seq<Operation>, start: Keys): Keys {
    if |ops| == 0 then start
    else StepKeys(h, p, ops[|ops| - 1], SessionKeys(h, p, ops[..|ops| - 1], start))
  }

  /** The operation ends on a refused insert of the key. */
  ghost predicate RefusesKey(h: Sha256, p: Pruner, op: Operation, k: Keys, key: string) {
    match op
    case Build(plan, _) =>
      var at := FirstRefusal(h, plan, k); at < |plan.modules| && KeyOf(h, Question(plan, at)) == key
    case Compact(q, accepted) => !accepted && !Holds(k, key) && Worth(p, q) && KeyOf(h, q) == key
    case _ => false
  }

  ghost predicate RefusedAt(h: Sha256, p: Pruner, ops: seq<Operation>, start: Keys, key: string, i: nat) {
    i < |ops| && RefusesKey(h, p, ops[i], SessionKeys(h, p, ops[..i], start), key)
  }

  ghost predicate ReopenedFrom(ops: seq<Operation>, i: nat) { exists j :: i <= j < |ops| && ops[j].Reopen? }

  /** The process map is ahead on the key: it was so at the start, or an insert was refused, since the last reopening. */
  ghost predicate LeftAhead(h: Sha256, p: Pruner, ops: seq<Operation>, start: Keys, key: string) {
    || (key in start.mem && !ReopenedFrom(ops, 0))
    || exists i: nat :: RefusedAt(h, p, ops, start, key, i) && !ReopenedFrom(ops, i + 1)
  }

  lemma {:induction false} AskedIsStoredOrRefused(h: Sha256, b: Plan, k: Keys, i: nat)
    requires Asks(b, i) && i <= FirstRefusal(h, b, k)
    ensures var key := KeyOf(h, Question(b, i)); var end := AfterBuild(h, b, k);
            key in end.rows || key in k.mem
            || (FirstRefusal(h, b, k) < |b.modules| && KeyOf(h, Question(b, FirstRefusal(h, b, k))) == key)
    decreases i
  {
    hide KeyOf;
    hide IsBlank;
    var key := KeyOf(h, Question(b, i));
    if Stores(h, b, k, i) {
      assert !b.accepts(i) ==> Refused(h, b, k, i);
      if b.accepts(i) { assert key in StoredKeys(h, b, k, FirstRefusal(h, b, k) + 1); }
    } else if !Holds(k, key) {
      var j: nat :| j < |b.modules| && j < i && Asks(b, j) && KeyOf(h, Question(b, j)) == key;
      AskedIsStoredOrRefused(h, b, k, j);
    }
  }

  /** An operation other than a reopening leaves a key ahead that was ahead or is refused, unless the table gets it. */
  lemma AheadStep(h: Sha256, p: Pruner, op: Operation, k: Keys, key: string)
    requires !op.Reopen?
    ensures var end := StepKeys(h, p, op, k);
            key in end.mem - end.rows <==> key !in end.rows && (key in k.mem || RefusesKey(h, p, op, k, key))
    ensures k.rows <= StepKeys(h, p, op, k).rows
  {
    hide KeyOf;
    hide Worth;
    hide FirstRefusal;
    if op.Build? {
      var at := FirstRefusal(h, op.plan, k);
      var end := AfterBuild(h, op.plan, k);
      if key in AskedKeys(h, op.plan, at + 1) {
        var i: nat :| i < |op.plan.modules| && i < at + 1 && Asks(op.plan, i) && KeyOf(h, Question(op.plan, i)) == key;
        AskedIsStoredOrRefused(h, op.plan, k, i);
      }
      if at < |op.plan.modules| { assert KeyOf(h, Question(op.plan, at)) in AskedKeys(h, op.plan, at + 1); }
    }
  }

  lemma ReopenForgets(h: Sha256, p: Pruner, k: Keys, key: string)
    ensures StepKeys(h, p, Reopen, k).mem == {}
    ensures !RefusesKey(h, p, Reopen, k, key)
  {
  }

  lemma LeftAheadSnoc(h: Sha256, p: Pruner, ops: seq<Operation>, start: Keys, key: string, n: nat)
    requires n + 1 == |ops|
    ensures LeftAhead(h, p, ops, start, key) <==>
              !ops[n].Reopen?
              && (LeftAhead(h, p, ops[..n], start, key) || RefusesKey(h, p, ops[n], SessionKeys(h, p, ops[..n], start), key))
  {
    hide RefusesKey;
    hide SessionKeys;
    forall i: nat | i <= n ensures ReopenedFrom(ops, i) <==> ReopenedFrom(ops[..n], i) || ops[n].Reopen? {
      if j :| i <= j < n && ops[..n][j].Reopen? { assert ops[j].Reopen?; }
      if j :| i <= j < |ops| && ops[j].Reopen? { if j < n { assert ops[..n][j].Reopen?; } }
    }
    forall i: nat | i < n ensures RefusedAt(h, p, ops, start, key, i) <==> RefusedAt(h, p, ops[..n], start, key, i) {
      assert ops[..n][..i] == ops[..i];
    }
    if i: nat :| RefusedAt(h, p, ops[..n], start, key, i) && !ReopenedFrom(ops[..n], i + 1) {
      assert RefusedAt(h, p, ops, start, key, i);
    }
    if RefusesKey(h, p, ops[n], SessionKeys(h, p, ops[..n], start), key) {
      assert RefusedAt(h, p, ops, start, key, n);
      assert !ReopenedFrom(ops, n + 1);
    }
    if ops[n].Reopen? { ReopenForgets(h, p, SessionKeys(h, p, ops[..n], start), key); }
    if i: nat :| RefusedAt(h, p, ops, start, key, i) && !ReopenedFrom(ops, i + 1) {
      if i < n { assert RefusedAt(h, p, ops[..n], start, key, i); }
    }
  }

  /** After a session the process map has a key the table lacks exactly when the table never got it and the map held
      it at the start, or an insert of it was refused, with no reopening since. */
  lemma {:induction false} AheadIff(h: Sha256, p: Pruner, ops: seq<Operation>, start: Keys, key: string)
    ensures var end := SessionKeys(h, p, ops, start);
            key in end.mem - end.rows <==> key !in end.rows && LeftAhead(h, p, ops, start, key)
    decreases |ops|
  {
    hide StepKeys;
    hide RefusesKey;
    if |ops| == 0 {
      assert !ReopenedFrom(ops, 0);
    } else {
      var n := |ops| - 1;
      var k := SessionKeys(h, p, ops[..n], start);
      AheadIff(h, p, ops[..n], start, key);
      LeftAheadSnoc(h, p, ops, start, key, n);
      if ops[n].Reopen? {
        ReopenForgets(h, p, k, key);
      } else {
        AheadStep(h, p, ops[n], k, key);
      }
    }
  }

  /** Every key left ahead in the process map has reached the table. */
  ghost predicate CoveredAfter(h: Sha256, p: Pruner, ops: seq<Operation>, start: Keys) {
    forall key :: LeftAhead(h, p, ops, start, key) ==> key in SessionKeys(h, p, ops, start).rows
  }

  lemma CoveredIff(h: Sha256, p: Pruner, ops: seq<Operation>, start: Keys)
    ensures CoveredAfter(h, p, ops, start) <==> SessionKeys(h, p, ops, start).mem <= SessionKeys(h, p, ops, start).rows
  {
    hide LeftAhead;
    hide SessionKeys;
    forall key
      ensures key in SessionKeys(h, p, ops, start).mem - SessionKeys(h, p, ops, start).rows <==>
                key !in SessionKeys(h, p, ops, start).rows && LeftAhead(h, p, ops, start, key)
    {
      AheadIff(h, p, ops, start, key);
    }
  }

  /** What a build of the session owes: it fails exactly at a needed insert that is refused, and otherwise every entry
      is uncached, or its own key in collision with a stored one. */
  ghost predicate BuildKept(h: Sha256, used: set<Query>, p: Pruner, op: Operation, before: Keys, r: Option<BuildResult>) {
    op.Build? ==>
      && r.Some?
      && (r.value.Built? ==>
            && EntriesKept(h, used, p, op.plan.cfg, op.plan.breaker, op.plan.passthrough, op.plan.modules,
                           op.plan.files, r.value.entries)
            && r.value.ambient == AmbientOf(op.plan.cfg, op.plan.breaker, op.plan.modules))
      && (r.value.StoreFailed? <==> FirstRefusal(h, op.plan, before) < |op.plan.modules|)
  }

  /** No insert of the operation would be refused. */
  ghost predicate Accepts(op: Operation) {
    match op
    case Build(plan, _) => forall i :: plan.accepts(i)
    case Compact(_, accepted) => accepted
    case _ => true
  }

  /** Agreement is sure after a session: a reopening restores it, a refused insert may lose it. */
  ghost predicate AgreementSure(ops: seq<Operation>, initially: bool) {
    if |ops| == 0 then initially
    else
      var op := ops[|ops| - 1];
      op.Reopen? || (AgreementSure(ops[..|ops| - 1], initially) && Accepts(op))
  }

  /** Agreement survives a session, or returns with it, when no insert is refused after the last reopening. */
  lemma {:induction false} SureAfterReopening(ops: seq<Operation>, initially: bool, k: nat)
    requires k <= |ops| && if k == 0 then initially else ops[k - 1].Reopen?
    requires forall i :: k <= i < |ops| ==> Accepts(ops[i])
    ensures AgreementSure(ops, initially)
    decreases |ops|
  {
    hide Accepts;
    if |ops| > 0 && k < |ops| { SureAfterReopening(ops[..|ops| - 1], initially, k); }
  }

  method Perform(engine: ContextFirewallEngine, op: Operation) returns (r: Option<BuildResult>)
    requires engine.cache.Sound() && WellPosed(op)
    modifies engine.cache
    ensures engine.cache.Sound() && old(engine.cache.used) <= engine.cache.used
    ensures BuildKept(engine.cache.h, engine.cache.used, engine.cache.pruner, op, old(engine.cache.HeldKeys()), r)
    ensures engine.cache.HeldKeys() == StepKeys(engine.cache.h, engine.cache.pruner, op, old(engine.cache.HeldKeys()))
    ensures op.Reopen? || (old(engine.cache.Agrees()) && Accepts(op)) ==> engine.cache.Agrees()
  {
    hide EntriesKept;
    hide AmbientOf;
    hide KeyCollision;
    hide Recomputed;
    hide Payload;
    hide Worth;
    hide AfterBuild;
    r := None;
    match op {
      case Build(plan, project) =>
        var built := engine.BuildEntries(plan, project, "auto");
        r := Some(built);
      case Compact(q, accepted) => var _, _ := CompactSnippet(engine.cache, q, accepted);
      case Fetch(key) => var _ := engine.cache.Get(key);
      case Attribute(key, owner, accepted) => engine.cache.AttributeProject(key, owner, "auto", accepted);
      case Reopen => engine.cache.Reopen();
    }
  }

  /** Over any sequence of builds, compactions, reads, attributions and reopenings, every build is as uncached or
      fails exactly where it must, and the process map agrees with the table at the end exactly when the keys say so,
      unless two stored queries collide. */
  method RunSession(engine: ContextFirewallEngine, ops: seq<Operation>) returns (results: seq<Option<BuildResult>>)
    requires engine.cache.Sound() && forall i :: 0 <= i < |ops| ==> WellPosed(ops[i])
    modifies engine.cache
    ensures engine.cache.Sound() && |results| == |ops|
    ensures var c, start := engine.cache, old(engine.cache.HeldKeys());
            && (forall i :: 0 <= i < |ops| ==>
                 BuildKept(c.h, c.used, c.pruner, ops[i], SessionKeys(c.h, c.pruner, ops[..i], start), results[i]))
            && c.HeldKeys() == SessionKeys(c.h, c.pruner, ops, start)
            && ((c.Agrees() <==> CoveredAfter(c.h, c.pruner, ops, start)) || StoredCollision(c.h, c.used))
    ensures AgreementSure(ops, old(engine.cache.Agrees())) ==> engine.cache.Agrees()
  {
    hide BuildKept;
    hide LocalSemanticCache.Sound;
    hide LocalSemanticCache.Agrees;
    hide Recomputed;
    hide Payload;
    hide WellPosed;
    hide StepKeys;
    hide CoveredAfter;
    hide Accepts;
    hide KeyCollision;
    results := [];
    ghost var h, p, start := engine.cache.h, engine.cache.pruner, engine.cache.HeldKeys();
    for i := 0 to |ops|
      invariant engine.cache.Sound() && |results| == i
      invariant engine.cache.HeldKeys() == SessionKeys(h, p, ops[..i], start)
      invariant forall j :: 0 <= j < i ==>
                  BuildKept(h, engine.cache.used, p, ops[j], SessionKeys(h, p, ops[..j], start), results[j])
      invariant AgreementSure(ops[..i], old(engine.cache.Agrees())) ==> engine.cache.Agrees()
    {
      ghost var usedBefore := engine.cache.used;
      assert ops[..i + 1][..i] == ops[..i] && ops[..i + 1][i] == ops[i];
      var r := Perform(engine, ops[i]);
      forall j | 0 <= j < i
        ensures BuildKept(h, engine.cache.used, p, ops[j], SessionKeys(h, p, ops[..j], start), results[j])
      {
        BuildStaysKept(h, usedBefore, engine.cache.used, p, ops[j], SessionKeys(h, p, ops[..j], start), results[j]);
      }
      results := results + [r];
    }
    assert ops[..|ops|] == ops;
    engine.cache.AgreesIffCovered();
    CoveredIff(h, p, ops, start);
  }

  lemma BuildStaysKept(h: Sha256, used: set<Query>, more: set<Query>, p: Pruner, op: Operation, before: Keys,
                       r: Option<BuildResult>)
    requires BuildKept(h, used, p, op, before, r) && used <= more
    ensures BuildKept(h, more, p, op, before, r)
  {
    hide EntriesKept;
    if op.Build? && r.value.Built? {
      var b := op.plan;
      KeptPersists(h, used, more, p, b.cfg, b.breaker, b.passthrough, b.modules, b.files, r.value.entries);
    }
  }
}
