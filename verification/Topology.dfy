/** Module distances over the import graph: breadth-first search with a memo table, and the fold over changed files. */
module Topology {
  import opened CoreContracts

  type Adjacency = map<string, set<string>>

  type Distances = map<string, nat>

  function Imports(adj: Adjacency, m: string): set<string> { if m in adj then adj[m] else {} }

  // ---------------------------------------------------------------- paths and distances
  ghost predicate IsPath(adj: Adjacency, p: seq<string>) {
    && |p| > 0
    && forall i :: 0 < i < |p| ==> p[i] in Imports(adj, p[i - 1])
  }

  /** p leads from s to v in n import steps. */
  ghost predicate Leads(adj: Adjacency, s: string, v: string, p: seq<string>, n: nat) {
    IsPath(adj, p) && p[0] == s && p[|p| - 1] == v && |p| == n + 1
  }

  ghost predicate Reachable(adj: Adjacency, s: string, v: string) { exists p, n :: Leads(adj, s, v, p, n) }

  /** Exactly the reachable modules, each with the length of a shortest path. */
  ghost predicate IsDistances(adj: Adjacency, s: string, d: Distances) {
    && (forall v :: v in d ==> exists p :: Leads(adj, s, v, p, d[v]))
    && (forall v, p, n :: Leads(adj, s, v, p, n) ==> v in d && d[v] <= n)
  }

  lemma DistancesUnique(adj: Adjacency, s: string, d: Distances, e: Distances)
    requires IsDistances(adj, s, d) && IsDistances(adj, s, e)
    ensures d == e
  {
    forall v | v in d ensures v in e && e[v] <= d[v] { var p :| Leads(adj, s, v, p, d[v]); }
    forall v | v in e ensures v in d && d[v] <= e[v] { var p :| Leads(adj, s, v, p, e[v]); }
  }

  /** The keys are the reachable modules and nothing else. */
  lemma KeysAreReachable(adj: Adjacency, s: string, d: Distances, v: string)
    requires IsDistances(adj, s, d)
    ensures v in d <==> Reachable(adj, s, v)
  {
    if v in d { var p :| Leads(adj, s, v, p, d[v]); }
  }

  /** A map closed under imports, growing by at most one per step, bounds every path from the start. */
  lemma {:induction false} ClosedBoundsPaths(adj: Adjacency, s: string, d: Distances, v: string, p: seq<string>, n: nat)
    requires s in d && d[s] == 0
    requires forall u, w :: u in d && w in Imports(adj, u) ==> w in d && d[w] <= d[u] + 1
    requires Leads(adj, s, v, p, n)
    ensures v in d && d[v] <= n
    decreases n
  {
    if n > 0 {
      var q := p[..n];
      assert Leads(adj, s, q[n - 1], q, n - 1);
      ClosedBoundsPaths(adj, s, d, q[n - 1], q, n - 1);
      assert p[n] in Imports(adj, p[n - 1]);
    }
  }

  lemma ExtendPath(adj: Adjacency, s: string, v: string, p: seq<string>, n: nat, w: string)
    requires Leads(adj, s, v, p, n) && w in Imports(adj, v)
    ensures Leads(adj, s, w, p + [w], n + 1)
  {
    var q := p + [w];
    forall i | 0 < i < |q| ensures q[i] in Imports(adj, q[i - 1]) {
      if i < |p| { assert q[i] == p[i] && q[i - 1] == p[i - 1]; }
    }
  }

  // ---------------------------------------------------------------- the frontier
  /** The queue holds known modules in non-decreasing distance; nothing known is beyond one step of its front. */
  ghost predicate Frontier(d: Distances, queue: seq<string>) {
    && (forall i :: 0 <= i < |queue| ==> queue[i] in d)
    && (forall i, j :: 0 <= i < j < |queue| ==> d[queue[i]] <= d[queue[j]])
    && (forall v :: v in d && queue != [] ==> d[v] <= d[queue[0]] + 1)
  }

  /** Modules already expanded have all their imports recorded, at most one step further. */
  ghost predicate Expanded(adj: Adjacency, d: Distances, open: set<string>) {
    forall u, w :: u in d && u !in open && w in Imports(adj, u) ==> w in d && d[w] <= d[u] + 1
  }

  ghost predicate Witnessed(adj: Adjacency, s: string, d: Distances) {
    forall v :: v in d ==> exists p :: Leads(adj, s, v, p, d[v])
  }

  function Modules(adj: Adjacency, s: string): set<string> {
    {s} + adj.Keys + set m, w | m in adj && w in adj[m] :: w
  }

  lemma ImportsAreModules(adj: Adjacency, s: string, u: string)
    ensures Imports(adj, u) <= Modules(adj, s)
  {
  }

  class ProjectDependencyGraph {
    const adjacency: Adjacency
    var distanceCache: map<string, Distances>

    constructor (adj: Adjacency)
      ensures adjacency == adj && Valid() && distanceCache == map[]
    {
      adjacency := adj;
      distanceCache := map[];
    }

    /** Every memoised table is what recomputing would give. */
    ghost predicate Valid()
      reads this
    {
      forall t :: t in distanceCache ==> IsDistances(adjacency, t, distanceCache[t])
    }

    /** Breadth-first search, memoised; it terminates on every graph, cycles included. */
    method GetDistances(target: string) returns (distances: Distances)
      requires Valid()
      modifies `distanceCache
      ensures Valid()
      ensures IsDistances(adjacency, target, distances)
      ensures target in distanceCache && distanceCache[target] == distances
      ensures forall t :: t in old(distanceCache) ==> t in distanceCache && distanceCache[t] == old(distanceCache[t])
    {
      if target in distanceCache { return distanceCache[target]; }
      distances := Search(target);
      distanceCache := distanceCache[target := distances];
    }

    method Search(target: string) returns (distances: Distances)
      ensures IsDistances(adjacency, target, distances)
    {
      hide Frontier;
      hide Expanded;
      hide Witnessed;
      hide IsDistances;
      hide Modules;
      distances := map[target := 0];
      var queue := [target];
      ghost var universe := Modules(adjacency, target);
      StartSearch(adjacency, target);
      while queue != []
        invariant target in distances && distances[target] == 0
        invariant distances.Keys <= universe
        invariant Frontier(distances, queue)
        invariant Expanded(adjacency, distances, set x | x in queue)
        invariant Witnessed(adjacency, target, distances)
        decreases |universe - distances.Keys|, |queue|
      {
        FrontInKeys(distances, queue);
        var current := queue[0];
        ghost var d0, q0 := distances, queue;
        queue := queue[1..];
        ImportsAreModules(adjacency, target, current);
        distances, queue := Expand(target, current, distances, queue);
        StepFrontier(adjacency, d0, q0, distances, queue);
        StepExpanded(adjacency, d0, q0, distances, queue);
        assert universe - distances.Keys <= universe - d0.Keys;
        if universe - distances.Keys != universe - d0.Keys {
          SmallerSubset(universe - distances.Keys, universe - d0.Keys);
        }
      }
      FinishSearch(adjacency, target, distances);
    }

    /** Records the unknown imports of one module, in any order, and queues exactly those. */
    method Expand(ghost target: string, current: string, known: Distances, rest: seq<string>)
      returns (distances: Distances, queue: seq<string>)
      requires current in known && Witnessed(adjacency, target, known)
      ensures StepOf(adjacency, known, current, rest, distances, queue)
      ensures Witnessed(adjacency, target, distances)
    {
      distances, queue := known, rest;
      var currentDistance := distances[current];
      var pending := Imports(adjacency, current);
      while pending != {}
        invariant pending <= Imports(adjacency, current)
        invariant distances.Keys == known.Keys + (Imports(adjacency, current) - pending)
        invariant forall v :: v in distances ==> distances[v] == if v in known then known[v] else currentDistance + 1
        invariant rest <= queue
        invariant forall v :: v in queue[|rest|..] ==> v in distances && v !in known
        invariant forall v :: v in distances && v !in known ==> v in queue
        invariant distances.Keys == known.Keys ==> queue == rest
        invariant Witnessed(adjacency, target, distances)
        decreases pending
      {
        var neighbor :| neighbor in pending;
        pending := pending - {neighbor};
        if neighbor !in distances {
          ghost var p :| Leads(adjacency, target, current, p, currentDistance);
          ExtendPath(adjacency, target, current, p, currentDistance, neighbor);
          distances := distances[neighbor := currentDistance + 1];
          assert (queue + [neighbor])[|rest|..] == queue[|rest|..] + [neighbor];
          queue := queue + [neighbor];
        }
      }
    }
  }

  /** One expansion: every unknown import recorded one step further and queued; nothing else changes. */
  ghost predicate StepOf(adj: Adjacency, known: Distances, current: string, rest: seq<string>,
                         d: Distances, q: seq<string>)
  {
    && current in known
    && d.Keys == known.Keys + Imports(adj, current)
    && (forall v :: v in d ==> d[v] == if v in known then known[v] else known[current] + 1)
    && rest <= q
    && (forall v :: v in q[|rest|..] ==> v in d && v !in known)
    && (forall v :: v in d && v !in known ==> v in q)
    && (d.Keys == known.Keys ==> q == rest)
  }

  lemma StartSearch(adj: Adjacency, s: string)
    ensures s in Modules(adj, s)
    ensures var d: Distances := map[s := 0];
            Frontier(d, [s]) && Expanded(adj, d, set x | x in [s]) && Witnessed(adj, s, d)
  {
    assert Leads(adj, s, s, [s], 0);
  }

  lemma FinishSearch(adj: Adjacency, s: string, d: Distances)
    requires s in d && d[s] == 0 && Expanded(adj, d, set x | x in []) && Witnessed(adj, s, d)
    ensures IsDistances(adj, s, d)
  {
    forall v, p, n | Leads(adj, s, v, p, n) ensures v in d && d[v] <= n { ClosedBoundsPaths(adj, s, d, v, p, n); }
  }

  lemma FrontInKeys(d: Distances, q: seq<string>)
    requires Frontier(d, q) && q != []
    ensures q[0] in d
  {
  }

  lemma SmallerSubset<T>(a: set<T>, b: set<T>)
    requires a < b
    ensures |a| < |b|
  {
    assert b == a + (b - a);
    assert b - a != {};
  }

  lemma StepFrontier(adj: Adjacency, d0: Distances, q0: seq<string>, d: Distances, q: seq<string>)
    requires q0 != [] && Frontier(d0, q0) && StepOf(adj, d0, q0[0], q0[1..], d, q)
    ensures Frontier(d, q)
  {
    var n, m := d0[q0[0]], |q0| - 1;
    forall i | 0 <= i < |q| ensures q[i] in d && d[q[i]] == if i < m then d0[q0[i + 1]] else n + 1 {
      if i < m { assert q[i] == q0[1..][i] == q0[i + 1]; } else { assert q[i] == q[m..][i - m]; }
    }
  }

  lemma StepExpanded(adj: Adjacency, d0: Distances, q0: seq<string>, d: Distances, q: seq<string>)
    requires q0 != [] && Frontier(d0, q0) && Expanded(adj, d0, set x | x in q0)
    requires StepOf(adj, d0, q0[0], q0[1..], d, q)
    ensures Expanded(adj, d, set x | x in q)
  {
    forall u, w | u in d && u !in (set x | x in q) && w in Imports(adj, u) ensures w in d && d[w] <= d[u] + 1 {
      if u == q0[0] {
      }
    }
  }

  // ---------------------------------------------------------------- the gatekeeper's fold
  /** Reachable from some changed file, with the least distance to any of them. */
  ghost predicate IsPerimeter(adj: Adjacency, changed: seq<string>, d: Distances) {
    && (forall v :: v in d ==> exists i, p :: 0 <= i < |changed| && Leads(adj, changed[i], v, p, d[v]))
    && (forall i, v, p, n :: 0 <= i < |changed| && Leads(adj, changed[i], v, p, n) ==> v in d && d[v] <= n)
  }

  lemma PerimeterUnique(adj: Adjacency, changed: seq<string>, d: Distances, e: Distances)
    requires IsPerimeter(adj, changed, d) && IsPerimeter(adj, changed, e)
    ensures d == e
  {
    forall v | v in d ensures v in e && e[v] <= d[v] {
      var i, p :| 0 <= i < |changed| && Leads(adj, changed[i], v, p, d[v]);
    }
    forall v | v in e ensures v in d && d[v] <= e[v] {
      var i, p :| 0 <= i < |changed| && Leads(adj, changed[i], v, p, e[v]);
    }
  }

  /** Distance 0 is exactly the changed files. */
  lemma ZeroIsChanged(adj: Adjacency, changed: seq<string>, d: Distances, v: string)
    requires IsPerimeter(adj, changed, d)
    ensures v in changed <==> v in d && d[v] == 0
  {
    if v in changed {
      var i :| 0 <= i < |changed| && changed[i] == v;
      assert Leads(adj, changed[i], v, [v], 0);
    }
    if v in d && d[v] == 0 {
      var i, p :| 0 <= i < |changed| && Leads(adj, changed[i], v, p, 0);
      assert p[0] == p[|p| - 1];
    }
  }

  /** The nested loops that lower the perimeter entries file by file. */
  method ClassifyPerimeter(graph: ProjectDependencyGraph, changed: seq<string>) returns (perimeter: Distances)
    requires graph.Valid()
    modifies graph`distanceCache
    ensures graph.Valid()
    ensures IsPerimeter(graph.adjacency, changed, perimeter)
  {
    perimeter := map[];
    for k := 0 to |changed|
      invariant graph.Valid()
      invariant IsPerimeter(graph.adjacency, changed[..k], perimeter)
    {
      var found := graph.GetDistances(changed[k]);
      ghost var before := perimeter;
      var pending := found.Keys;
      while pending != {}
        invariant pending <= found.Keys
        invariant perimeter.Keys == before.Keys + (found.Keys - pending)
        invariant forall v :: v in perimeter ==> Lowered(before, found, v, perimeter[v], v in pending)
        decreases pending
      {
        var m :| m in pending;
        pending := pending - {m};
        if m !in perimeter || found[m] < perimeter[m] { perimeter := perimeter[m := found[m]]; }
      }
      MergedPerimeter(graph.adjacency, changed, k, before, found, perimeter);
    }
    assert changed[..|changed|] == changed;
  }

  // The entry after the tables seen so far: the smaller of the old entry and, once visited, the new distance.
  ghost predicate Lowered(before: Distances, found: Distances, v: string, n: nat, isPending: bool) {
    if v in found && !isPending
    then (v in before ==> n <= before[v]) && n <= found[v] && (n == found[v] || (v in before && n == before[v]))
    else v in before && n == before[v]
  }

  lemma MergedPerimeter(adj: Adjacency, changed: seq<string>, k: nat, before: Distances, found: Distances, after: Distances)
    requires k < |changed| && IsPerimeter(adj, changed[..k], before) && IsDistances(adj, changed[k], found)
    requires after.Keys == before.Keys + found.Keys
    requires forall v :: v in after ==> Lowered(before, found, v, after[v], false)
    ensures IsPerimeter(adj, changed[..k + 1], after)
  {
    var next := changed[..k + 1];
    assert next[k] == changed[k];
    forall v | v in after ensures exists i, p :: 0 <= i < |next| && Leads(adj, next[i], v, p, after[v]) {
      assert Lowered(before, found, v, after[v], false);
      if v in found && after[v] == found[v] {
        var p :| Leads(adj, changed[k], v, p, found[v]);
        assert Leads(adj, next[k], v, p, after[v]);
      } else {
        var i, p :| 0 <= i < |changed[..k]| && Leads(adj, changed[..k][i], v, p, before[v]);
        assert next[i] == changed[..k][i];
      }
    }
    forall i, v, p, n | 0 <= i < |next| && Leads(adj, next[i], v, p, n) ensures v in after && after[v] <= n {
      if i < k {
        assert next[i] == changed[..k][i];
        assert v in before && before[v] <= n;
      }
      assert v in after && Lowered(before, found, v, after[v], false);
    }
  }

  /** The depth a perimeter module is shown at. */
  function DepthAt(distance: nat): PruningDepth {
    if distance == 0 then FULL else if distance == 1 then INTERFACE else NOMINAL
  }

  /** FULL is shown for changed files only; INTERFACE for what they import directly and did not change. */
  lemma DepthsOfPerimeter(adj: Adjacency, changed: seq<string>, d: Distances, v: string)
    requires IsPerimeter(adj, changed, d) && v in d
    ensures DepthAt(d[v]) == FULL <==> v in changed
    ensures DepthAt(d[v]) == INTERFACE <==> v !in changed && exists c :: c in changed && v in Imports(adj, c)
  {
    ZeroIsChanged(adj, changed, d, v);
    if d[v] == 1 {
      var i, p :| 0 <= i < |changed| && Leads(adj, changed[i], v, p, 1);
      assert p[1] in Imports(adj, p[0]);
    }
    if c :| c in changed && v in Imports(adj, c) {
      var i :| 0 <= i < |changed| && changed[i] == c;
      ExtendPath(adj, c, c, [c], 0, v);
      assert Leads(adj, changed[i], v, [c] + [v], 1);
    }
  }
}
