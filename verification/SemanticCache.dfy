/** The two-level cache: an in-process map over a persistent table, keyed by a hash of source and options. */
module SemanticCache {
  import opened Wrappers
  import opened CoreContracts
  import opened Identifiers
  import opened PyText

  function DepthText(d: PruningDepth): string { match d case FULL => "full" case INTERFACE => "interface" case NOMINAL => "nominal" }

  function BoolText(b: bool): string { if b then "True" else "False" }

  // ---------------------------------------------------------------- keys
  function KeyPayload(source: string, rules: string, stripDocs: bool, depth: string, lang: string): string {
    source + "|" + rules + "|" + BoolText(stripDocs) + "|" + depth + "|" + Lower(lang)
  }

  lemma {:induction false} LastSeparator(a: string, x: string, b: string, y: string)
    requires a + "|" + x == b + "|" + y && '|' !in x && '|' !in y
    ensures a == b && x == y
  {
    var s := a + "|" + x;
    assert s[|a|] == '|' && s[|b|] == '|';
    assert s[..|a|] == a && s[..|b|] == b;
    assert s[|a| + 1..] == x && s[|b| + 1..] == y;
  }

  lemma LowerKeepsNoBar(s: string)
    requires '|' !in s
    ensures '|' !in Lower(s)
  {
    forall c | c in Lower(s) ensures c != '|' {
      var i :| 0 <= i < |s| && Lower(s)[i] == c;
      assert s[i] in s;
    }
  }

  /** The payload determines the source and every option, although sources may contain the separator. */
  lemma KeyPayloadInjective(s1: string, r1: string, b1: bool, d1: string, l1: string,
                            s2: string, r2: string, b2: bool, d2: string, l2: string)
    requires '|' !in r1 && '|' !in d1 && '|' !in l1 && '|' !in r2 && '|' !in d2 && '|' !in l2
    requires KeyPayload(s1, r1, b1, d1, l1) == KeyPayload(s2, r2, b2, d2, l2)
    ensures s1 == s2 && r1 == r2 && b1 == b2 && d1 == d2 && Lower(l1) == Lower(l2)
  {
    LowerKeepsNoBar(l1);
    LowerKeepsNoBar(l2);
    LastSeparator(s1 + "|" + r1 + "|" + BoolText(b1) + "|" + d1, Lower(l1),
                  s2 + "|" + r2 + "|" + BoolText(b2) + "|" + d2, Lower(l2));
    LastSeparator(s1 + "|" + r1 + "|" + BoolText(b1), d1, s2 + "|" + r2 + "|" + BoolText(b2), d2);
    LastSeparator(s1 + "|" + r1, BoolText(b1), s2 + "|" + r2, BoolText(b2));
    LastSeparator(s1, r1, s2, r2);
    assert BoolText(true)[0] != BoolText(false)[0];
  }

  // ---------------------------------------------------------------- queries and answers
  const RULES_VERSION := "v2.0.0"

  /** What is asked of the pruner: the source and the options that enter the key. */
  datatype Query = Query(source: string, stripDocs: bool, depth: PruningDepth, lang: string)

  predicate ValidQuery(q: Query) { '|' !in q.lang && Lower(q.lang) == q.lang }

  function Payload(q: Query): string { KeyPayload(q.source, RULES_VERSION, q.stripDocs, DepthText(q.depth), q.lang) }

  function KeyOf(h: Sha256, q: Query): string { h(Payload(q)) }

  lemma PayloadInjective(q1: Query, q2: Query)
    requires ValidQuery(q1) && ValidQuery(q2) && Payload(q1) == Payload(q2)
    ensures q1 == q2
  {
    KeyPayloadInjective(q1.source, RULES_VERSION, q1.stripDocs, DepthText(q1.depth), q1.lang,
                        q2.source, RULES_VERSION, q2.stripDocs, DepthText(q2.depth), q2.lang);
    assert DepthText(FULL) != DepthText(INTERFACE) && DepthText(FULL) != DepthText(NOMINAL)
           && DepthText(INTERFACE) != DepthText(NOMINAL) by {
      assert |DepthText(FULL)| == 4 && |DepthText(INTERFACE)| == 9 && |DepthText(NOMINAL)| == 7;
    }
  }

  /** The fields a reader of the cache uses. */
  datatype Answer = Answer(code: string, originalChars: nat, prunedChars: nat, saved: nat, depth: PruningDepth)

  datatype Cached = Cached(answer: Answer, cacheHit: bool)

  datatype Project = Project(id: string, name: string)

  datatype Row = Row(answer: Answer, project: Project, model: string)

  function EstimateTokens(chars: nat): nat { if chars / 4 > 1 then chars / 4 else 1 }

  function TokensSaved(before: nat, after: nat): nat {
    var b, a := EstimateTokens(before), EstimateTokens(after);
    if b > a then b - a else 0
  }

  /** The pruner on a stripped source: the pruned code, or None when it raises. */
  type Pruner = (string, bool, PruningDepth, string) -> Option<string>

  /** One pruning request. The request model strips the source and refuses it when nothing is left. */
  function PruneRequest(p: Pruner, q: Query): Option<Answer> {
    var source := Strip(q.source);
    if source == "" then None
    else if q.depth == FULL then Some(Answer(source, |source|, |source|, 0, FULL))
    else
      match p(source, q.stripDocs, q.depth, q.lang)
      case None => None
      case Some(code) => Some(Answer(code, |source|, |code|, TokensSaved(|source|, |code|), q.depth))
  }

  /** What the engine shows for a module without any cache: the raw text when pruning is impossible. */
  function Recomputed(p: Pruner, q: Query): Answer {
    match PruneRequest(p, q)
    case Some(a) => a
    case None => Answer(q.source, |q.source|, |q.source|, 0, q.depth)
  }

  /** What a reader is shown for a query: the pruner's own code with both lengths, the depth, and the tokens saved at
      four characters each but at least one; the stripped text at FULL; the raw text when it is blank or the pruner
      refuses it. */
  ghost predicate Shows(p: Pruner, q: Query, a: Answer) {
    var text := Strip(q.source);
    var raw := Answer(q.source, |q.source|, |q.source|, 0, q.depth);
    if text == "" then a == raw
    else if q.depth == FULL then a == Answer(text, |text|, |text|, 0, FULL)
    else
      match p(text, q.stripDocs, q.depth, q.lang)
      case None => a == raw
      case Some(code) =>
        var before, after := if |text| < 4 then 1 else |text| / 4, if |code| < 4 then 1 else |code| / 4;
        a == Answer(code, |text|, |code|, if after < before then before - after else 0, q.depth)
  }

  lemma ShowsRecomputed(p: Pruner, q: Query, a: Answer)
    ensures Shows(p, q, a) <==> a == Recomputed(p, q)
  {
    hide Strip;
  }

  /** A FULL module comes back verbatim exactly when its text has no outer whitespace or is nothing but whitespace. */
  lemma FullIsVerbatimIff(p: Pruner, q: Query)
    requires q.depth == FULL
    ensures Recomputed(p, q).code == q.source <==> !HasOuterSpace(q.source) || Strip(q.source) == ""
  {
    StripIdentity(q.source);
  }

  // ---------------------------------------------------------------- the cache
  ghost predicate KeyCollision(h: Sha256, used: set<Query>, q: Query) {
    exists r :: r in used && Payload(r) != Payload(q) && h(Payload(r)) == h(Payload(q))
  }

  const GLOBAL := Project("REPO-0000000000000000", "global")

  predicate Unattributed(r: Row) { r.project.name == "global" || r.project.name == "" }

  function KeptProject(table: map<string, Row>, key: string, project: Project): Project {
    if project.name == "global" && key in table && table[key].project.name != "" && table[key].project.name != "global"
    then table[key].project else project
  }

  function KeptModel(table: map<string, Row>, key: string, project: Project, model: string): string {
    if project.name == "global" && key in table && table[key].project.name != "" && table[key].project.name != "global"
       && table[key].model != "" && table[key].model != "auto"
    then table[key].model else model
  }

  ghost predicate StoredCollision(h: Sha256, used: set<Query>) { exists q :: q in used && KeyCollision(h, used, q) }

  /** The keys each level holds: the process map and the table. */
  datatype Keys = Keys(mem: set<string>, rows: set<string>)

  predicate Holds(k: Keys, key: string) { key in k.mem || key in k.rows }

  /** A read copies a held key into the process map. */
  function AfterRead(k: Keys, key: string): Keys { if Holds(k, key) then k.(mem := k.mem + {key}) else k }

  /** A write always reaches the process map, and the table when the database accepts it. */
  function AfterWrite(k: Keys, key: string, accepted: bool): Keys {
    Keys(k.mem + {key}, if accepted then k.rows + {key} else k.rows)
  }

  class LocalSemanticCache {
    const h: Sha256
    const pruner: Pruner
    var l1: map<string, Cached>
    var table: map<string, Row>
    /** The queries whose answers were ever stored, by this process or an earlier one. */
    ghost var used: set<Query>

    constructor (hash: Sha256, p: Pruner)
      ensures h == hash && pruner == p && l1 == map[] && table == map[] && used == {}
      ensures Sound()
    {
      h, pruner := hash, p;
      l1, table, used := map[], map[], {};
    }

    /** A stored answer is the recomputed answer of a used query with that key. */
    ghost predicate Vouched(key: string, a: Answer)
      reads this
    {
      exists q :: q in used && KeyOf(h, q) == key && a == Recomputed(pruner, q)
    }

    ghost predicate Sound()
      reads this
    {
      && (forall q :: q in used ==> ValidQuery(q))
      && (forall k :: k in l1 ==> Vouched(k, l1[k].answer))
      && (forall k :: k in table ==> Vouched(k, table[k].answer))
    }

    /** The L1 map holds only what the table holds. */
    ghost predicate Agrees()
      reads this
    {
      forall k :: k in l1 ==> k in table && l1[k].answer == table[k].answer
    }

    /** The row of the query's key already holds its recomputed answer. */
    ghost predicate RowHolds(q: Query)
      reads this
    {
      KeyOf(h, q) in table && table[KeyOf(h, q)].answer == Recomputed(pruner, q)
    }

    function HeldKeys(): Keys
      reads this
    {
      Keys(l1.Keys, table.Keys)
    }

    function Lookup(key: string): Option<Answer>
      reads this
    {
      if key in l1 then Some(l1[key].answer) else if key in table then Some(table[key].answer) else None
    }

    method Get(key: string) returns (r: Option<Cached>)
      requires Sound()
      modifies `l1
      ensures Sound()
      ensures old(Agrees()) ==> Agrees()
      ensures r.Some? <==> old(Lookup(key)).Some?
      ensures r.Some? <==> Holds(old(HeldKeys()), key)
      ensures r.Some? ==> Some(r.value.answer) == old(Lookup(key))
      ensures forall k :: Lookup(k) == old(Lookup(k))
      ensures HeldKeys() == AfterRead(old(HeldKeys()), key)
    {
      hide Recomputed;
      hide KeyOf;
      hide ValidQuery;
      if key in l1 { return Some(l1[key]); }
      if key !in table { return None; }
      var dto := Cached(table[key].answer, true);
      l1 := l1[key := dto];
      return Some(dto);
    }

    /** The L1 entry is written first; the row only when the database accepts it. */
    method Set(q: Query, key: string, a: Answer, project: Project, model: string, accepted: bool)
      requires Sound() && ValidQuery(q) && key == KeyOf(h, q) && a == Recomputed(pruner, q)
      modifies this
      ensures Sound() && used == old(used) + {q}
      ensures l1 == old(l1)[key := Cached(a, true)]
      ensures table == if accepted
                       then old(table)[key := Row(a, KeptProject(old(table), key, project), KeptModel(old(table), key, project, model))]
                       else old(table)
      ensures accepted ==>
                if project.name == "global" && key in old(table) && !Unattributed(old(table)[key])
                then table[key].project == old(table)[key].project
                     && table[key].model == if old(table)[key].model in {"", "auto"} then model else old(table)[key].model
                else table[key] == Row(a, project, model)
      ensures HeldKeys() == AfterWrite(old(HeldKeys()), key, accepted)
      ensures old(Agrees()) ==>
                (Agrees() <==> accepted || (key in old(table) && old(table)[key].answer == a))
    {
      hide Recomputed;
      hide KeyOf;
      hide ValidQuery;
      used := used + {q};
      l1 := l1[key := Cached(a, true)];
      if accepted {
        table := table[key := Row(a, KeptProject(table, key, project), KeptModel(table, key, project, model))];
      }
      assert q in used;
      forall k | k in l1 ensures Vouched(k, l1[k].answer) {
        if k != key { assert old(Vouched(k, l1[k].answer)); }
      }
      forall k | k in table ensures Vouched(k, table[k].answer) {
        if k != key { assert old(Vouched(k, table[k].answer)); }
        if k == key && !accepted { assert old(Vouched(k, table[k].answer)); }
      }
    }

    /** An unattributed row gets the project and the model, unless the database refuses, which is ignored; every
        other row and every answer stays. */
    method AttributeProject(key: string, project: Option<Project>, model: string, accepted: bool)
      requires Sound()
      modifies `table
      ensures Sound()
      ensures old(Agrees()) ==> Agrees()
      ensures table.Keys == old(table.Keys) && HeldKeys() == old(HeldKeys())
      ensures forall k :: k in table && k != key ==> table[k] == old(table)[k]
      ensures key in table ==>
                table[key] == if accepted && Unattributed(old(table)[key]) && project.Some? && project.value.name != "global"
                              then Row(old(table)[key].answer, project.value, model)
                              else old(table)[key]
    {
      hide Recomputed;
      hide KeyOf;
      hide ValidQuery;
      if project.None? || project.value.name == "global" { return; }
      if accepted && key in table && Unattributed(table[key]) {
        table := table[key := table[key].(project := project.value, model := model)];
      }
      forall k | k in table ensures Vouched(k, table[k].answer) { assert old(Vouched(k, table[k].answer)); }
    }

    /** Closing and reopening forgets the process map and keeps the table. */
    method Reopen()
      requires Sound()
      modifies `l1
      ensures Sound() && Agrees() && l1 == map[]
    {
      l1 := map[];
    }

    /** A hit is the recomputed answer of the query itself, or its key collides with a stored one. */
    lemma HitIsRecomputed(q: Query)
      requires Sound() && ValidQuery(q) && Lookup(KeyOf(h, q)).Some?
      ensures Lookup(KeyOf(h, q)) == Some(Recomputed(pruner, q)) || KeyCollision(h, used, q)
    {
      var key := KeyOf(h, q);
      var a := Lookup(key).value;
      assert Vouched(key, a);
      var r :| r in used && KeyOf(h, r) == key && a == Recomputed(pruner, r);
      if Payload(r) == Payload(q) { PayloadInjective(r, q); }
    }

    /** The process map agrees with the table exactly when the table has all its keys, or two stored queries collide. */
    lemma AgreesIffCovered()
      requires Sound()
      ensures (Agrees() <==> HeldKeys().mem <= HeldKeys().rows) || StoredCollision(h, used)
    {
      hide Recomputed;
      hide Payload;
      hide ValidQuery;
      if l1.Keys <= table.Keys && !StoredCollision(h, used) {
        forall k | k in l1 ensures l1[k].answer == table[k].answer {
          assert Vouched(k, l1[k].answer) && Vouched(k, table[k].answer);
          var q :| q in used && KeyOf(h, q) == k && l1[k].answer == Recomputed(pruner, q);
          var r :| r in used && KeyOf(h, r) == k && table[k].answer == Recomputed(pruner, r);
          assert !KeyCollision(h, used, q);
          PayloadInjective(r, q);
        }
      }
    }
  }

  /** A refused insert leaves the process map ahead of the table. */
  method RefusedInsertLeavesL1Ahead(h: Sha256, p: Pruner, q: Query) returns (c: LocalSemanticCache)
    requires ValidQuery(q)
    ensures fresh(c) && c.Sound() && !c.Agrees()
  {
    c := new LocalSemanticCache(h, p);
    c.Set(q, KeyOf(h, q), Recomputed(p, q), GLOBAL, "auto", false);
    assert KeyOf(h, q) in c.l1 && KeyOf(h, q) !in c.table;
  }

  // ---------------------------------------------------------------- scoped symbol keys
  function ScopedKey(rel: string, project: Option<Project>): string {
    if project.None? || project.value.id == GLOBAL.id then rel else project.value.id + "::" + rel
  }

  /** The id in front of the keys of a project; the global project has none. */
  function Scope(project: Option<Project>): Option<string> {
    if project.None? || project.value.id == GLOBAL.id then None else Some(project.value.id)
  }

  /** Ids derived from a path have no colon. */
  predicate PlainId(project: Option<Project>) { project.Some? ==> ':' !in project.value.id }

  /** Two keys meet when scope and path are equal, or when a bare path of the global project spells out the key. */
  lemma ScopedKeysMeetIff(r1: string, p1: Option<Project>, r2: string, p2: Option<Project>)
    requires PlainId(p1) && PlainId(p2)
    ensures ScopedKey(r1, p1) == ScopedKey(r2, p2) <==>
              match (Scope(p1), Scope(p2))
              case (None, None) => r1 == r2
              case (Some(a), Some(b)) => a == b && r1 == r2
              case (None, Some(b)) => r1 == b + "::" + r2
              case (Some(a), None) => r2 == a + "::" + r1
  {
    if Scope(p1).Some? && Scope(p2).Some? && ScopedKey(r1, p1) == ScopedKey(r2, p2) {
      var a, b := p1.value.id, p2.value.id;
      var s := a + "::" + r1;
      assert s == b + "::" + r2;
      assert s[|a|] == ':' && s[|b|] == ':';
      assert s[..|a|] == a && s[..|b|] == b;
      assert s[|a| + 2..] == r1 && s[|b| + 2..] == r2;
    }
  }

  /** A bare path collides with some key of a repository exactly when it starts with its id and two colons. */
  lemma BarePathCollidesIff(bare: string, project: Project)
    requires ':' !in project.id && project.id != GLOBAL.id
    ensures (exists rel :: ScopedKey(bare, None) == ScopedKey(rel, Some(project))) <==> project.id + "::" <= bare
  {
    var start := project.id + "::";
    if start <= bare { assert bare == ScopedKey(bare[|start|..], Some(project)); }
  }

  datatype Symbols = Symbols(mtime: real, sha: string, names: seq<string>)

  class SymbolIndex {
    var l1: map<string, Symbols>
    var table: map<string, Symbols>

    constructor ()
      ensures Agrees() && table == map[]
    {
      l1, table := map[], map[];
    }

    /** Every entry of the process map is the row of the table. */
    ghost predicate Agrees()
      reads this
    {
      forall k :: k in l1 ==> k in table && table[k] == l1[k]
    }

    /** What a read answers: the process map first, then the table. */
    function Answered(key: string): Option<Symbols>
      reads this
    {
      if key in l1 then Some(l1[key]) else if key in table then Some(table[key]) else None
    }

    /** Exactly the answered paths, and no answer changes. */
    method GetBatch(paths: seq<string>, project: Option<Project>) returns (results: map<string, Symbols>)
      modifies `l1
      ensures old(Agrees()) ==> Agrees()
      ensures forall p :: p in results <==> p in paths && Answered(ScopedKey(p, project)).Some?
      ensures forall p :: p in results ==> Some(results[p]) == Answered(ScopedKey(p, project))
      ensures forall key :: Answered(key) == old(Answered(key))
    {
      results := map[];
      for i := 0 to |paths|
        invariant old(Agrees()) ==> Agrees()
        invariant forall key :: Answered(key) == old(Answered(key))
        invariant forall p :: p in results <==> p in paths[..i] && Answered(ScopedKey(p, project)).Some?
        invariant forall p :: p in results ==> Some(results[p]) == Answered(ScopedKey(p, project))
      {
        var key := ScopedKey(paths[i], project);
        if key in l1 {
          results := results[paths[i] := l1[key]];
        } else if key in table {
          results := results[paths[i] := table[key]];
          l1 := l1[key := table[key]];
        }
      }
    }

    /** The process map is filled record by record, then the rows are written in one transaction. A refused
        transaction leaves the map ahead of the table, unless it would have changed nothing. */
    method SetBatch(records: seq<(string, Symbols)>, project: Option<Project>, accepted: bool)
      modifies this
      ensures l1 == Stored(old(l1), records, project)
      ensures table == if accepted then Stored(old(table), records, project) else old(table)
      ensures old(Agrees()) ==> (Agrees() <==> accepted || Stored(old(table), records, project) == old(table))
    {
      ghost var map0, rows0 := l1, table;
      for i := 0 to |records|
        invariant table == rows0
        invariant Stored(l1, records[i..], project) == Stored(map0, records, project)
      {
        assert records[i..][0] == records[i] && records[i..][1..] == records[i + 1..];
        l1 := l1[ScopedKey(records[i].0, project) := records[i].1];
      }
      if accepted {
        for i := 0 to |records|
          invariant l1 == Stored(map0, records, project)
          invariant Stored(table, records[i..], project) == Stored(rows0, records, project)
        {
          assert records[i..][0] == records[i] && records[i..][1..] == records[i + 1..];
          table := table[ScopedKey(records[i].0, project) := records[i].1];
        }
      }
      StoredWrites(map0, records, project);
      StoredWrites(rows0, records, project);
    }
  }

  /** The value the last record of a key leaves; None for a key no record has. */
  function Written(records: seq<(string, Symbols)>, project: Option<Project>, key: string): Option<Symbols>
    decreases |records|
  {
    if records == [] then None
    else
      var later := Written(records[1..], project, key);
      if later.Some? then later else if ScopedKey(records[0].0, project) == key then Some(records[0].1) else None
  }

  lemma {:induction false} StoredWrites(table: map<string, Symbols>, records: seq<(string, Symbols)>, project: Option<Project>)
    ensures forall key :: key in Stored(table, records, project) <==> key in table || Written(records, project, key).Some?
    ensures forall key :: key in Stored(table, records, project) ==>
              Stored(table, records, project)[key]
              == if Written(records, project, key).Some? then Written(records, project, key).value else table[key]
    decreases |records|
  {
    if records != [] { StoredWrites(table[ScopedKey(records[0].0, project) := records[0].1], records[1..], project); }
  }

  function Stored(table: map<string, Symbols>, records: seq<(string, Symbols)>, project: Option<Project>): map<string, Symbols>
    decreases |records|
  {
    if records == [] then table
    else Stored(table[ScopedKey(records[0].0, project) := records[0].1], records[1..], project)
  }

  /** Some record of the batch has the key of another project's path: never between two repositories; with the global
      project on one side, only through a path that spells out the other's key. */
  ghost predicate BatchMeets(records: seq<(string, Symbols)>, project: Option<Project>, rel: string, other: Option<Project>) {
    match (Scope(project), Scope(other))
    case (None, Some(id)) => exists i :: 0 <= i < |records| && records[i].0 == id + "::" + rel
    case (Some(id), None) => exists i :: 0 <= i < |records| && rel == id + "::" + records[i].0
    case _ => false
  }

  lemma {:induction false} WrittenIff(records: seq<(string, Symbols)>, project: Option<Project>, key: string)
    ensures Written(records, project, key).Some? <==> exists i :: 0 <= i < |records| && ScopedKey(records[i].0, project) == key
    decreases |records|
  {
    hide ScopedKey;
    if records != [] {
      WrittenIff(records[1..], project, key);
      if i :| 0 <= i < |records[1..]| && ScopedKey(records[1..][i].0, project) == key { assert records[i + 1] == records[1..][i]; }
      if i :| 0 <= i < |records| && ScopedKey(records[i].0, project) == key {
        if i > 0 { assert records[1..][i - 1] == records[i]; }
      }
    }
  }

  /** A batch of one project writes over a symbol entry of another exactly when it meets its key; otherwise the entry
      is as before. */
  lemma BatchLeavesOthersIff(table: map<string, Symbols>, records: seq<(string, Symbols)>, project: Option<Project>,
                             rel: string, other: Option<Project>)
    requires PlainId(project) && PlainId(other) && Scope(project) != Scope(other)
    ensures var k, after := ScopedKey(rel, other), Stored(table, records, project);
            && (Written(records, project, k).Some? <==> BatchMeets(records, project, rel, other))
            && (BatchMeets(records, project, rel, other) ==> k in after && Some(after[k]) == Written(records, project, k))
            && (!BatchMeets(records, project, rel, other) ==> (k in after <==> k in table) && (k in table ==> after[k] == table[k]))
  {
    hide ScopedKey;
    hide Scope;
    var k := ScopedKey(rel, other);
    StoredWrites(table, records, project);
    WrittenIff(records, project, k);
    forall i | 0 <= i < |records|
      ensures ScopedKey(records[i].0, project) == k <==>
                match (Scope(project), Scope(other))
                case (None, Some(id)) => records[i].0 == id + "::" + rel
                case (Some(id), None) => rel == id + "::" + records[i].0
                case _ => false
    {
      ScopedKeysMeetIff(records[i].0, project, rel, other);
    }
  }
}
