/** The Python pruner: function bodies become docstring, sanitised raises and `...`; NOMINAL also empties classes. */
module PythonPruner {
  import opened Wrappers
  import opened CoreContracts

  datatype Expr =
    | StrConst(text: string)
    | EllipsisConst
    | Call(func: Expr, args: seq<Expr>, keywords: seq<Expr>)
    | Name(id: string)
    | Attribute(value: Expr, attr: string)
    | OtherExpr(source: string)

  /** A statement, or a helper node that holds statements (an except handler, a match case, the module).
      A signature stands for everything of a function but its body; a header for a class likewise. */
  datatype Node =
    | FunctionDef(isAsync: bool, signature: string, body: seq<Node>)
    | ClassDef(header: string, body: seq<Node>)
    | ExprStmt(value: Expr)
    | Raise(exc: Option<Expr>, cause: Option<Expr>)
    | AnnAssign(source: string)
    | Other(header: string, children: seq<Node>)

  datatype Flags = Flags(stripDocs: bool, depth: PrunedDepth, sanitizeRaises: bool)

  /** ast.unparse on a raise statement: any function of the node. */
  type Unparse = Node -> string

  const STUB := ExprStmt(EllipsisConst)

  predicate IsDef(n: Node) { n.FunctionDef? || n.ClassDef? }

  predicate HasDoc(body: seq<Node>) { |body| > 0 && body[0].ExprStmt? && body[0].value.StrConst? }

  // ---------------------------------------------------------------- ast.walk
  function Children(n: Node): seq<Node> {
    match n
    case FunctionDef(_, _, body) => body
    case ClassDef(_, body) => body
    case Other(_, children) => children
    case _ => []
  }

  function Size(n: Node): (k: nat)
    ensures k > 0
  {
    match n
    case FunctionDef(_, _, body) => 1 + QueueSize(body)
    case ClassDef(_, body) => 1 + QueueSize(body)
    case Other(_, children) => 1 + QueueSize(children)
    case _ => 1
  }

  function QueueSize(queue: seq<Node>): nat {
    if queue == [] then 0 else Size(queue[0]) + QueueSize(queue[1..])
  }

  lemma {:induction false} QueueSizeConcat(a: seq<Node>, b: seq<Node>)
    ensures QueueSize(a + b) == QueueSize(a) + QueueSize(b)
  {
    if a == [] {
      assert a + b == b;
    } else {
      assert (a + b)[1..] == a[1..] + b;
      QueueSizeConcat(a[1..], b);
    }
  }

  lemma QueueShrinks(queue: seq<Node>)
    requires queue != []
    ensures QueueSize(queue[1..] + Children(queue[0])) < QueueSize(queue)
  {
    QueueSizeConcat(queue[1..], Children(queue[0]));
  }

  /** Breadth-first: take the front node, enqueue its children, yield it. */
  function WalkFrom(queue: seq<Node>): seq<Node>
    decreases QueueSize(queue)
  {
    if queue == [] then []
    else
      QueueShrinks(queue);
      [queue[0]] + WalkFrom(queue[1..] + Children(queue[0]))
  }

  function Walk(n: Node): seq<Node> { WalkFrom([n]) }

  // ---------------------------------------------------------------- raises
  function Sanitized(exc: Expr): Expr {
    match exc
    case Call(func, _, _) => Call(func, [StrConst("...")], [])
    case Name(_) => Call(exc, [StrConst("...")], [])
    case Attribute(_, _) => Call(exc, [StrConst("...")], [])
    case _ => Call(Name("Exception"), [StrConst("...")], [])
  }

  function CleanRaise(f: Flags, n: Node): Node
    requires n.Raise? && n.exc.Some?
  {
    if f.sanitizeRaises then Raise(Some(Sanitized(n.exc.value)), None) else n
  }

  predicate IsRaising(n: Node) { n.Raise? && n.exc.Some? }

  function CleanRaises(f: Flags, nodes: seq<Node>): seq<Node> {
    if nodes == [] then []
    else (if IsRaising(nodes[0]) then [CleanRaise(f, nodes[0])] else []) + CleanRaises(f, nodes[1..])
  }

  /** All cleaned raises of a body, in walk order, statement by statement; definitions among them are skipped. */
  function RaisesIn(f: Flags, body: seq<Node>): seq<Node> {
    if body == [] then []
    else (if IsDef(body[0]) then [] else CleanRaises(f, Walk(body[0]))) + RaisesIn(f, body[1..])
  }

  /** The elements whose text was not seen before, first occurrence kept. */
  function Dedup(u: Unparse, nodes: seq<Node>, seen: set<string>): seq<Node> {
    if nodes == [] then []
    else if u(nodes[0]) in seen then Dedup(u, nodes[1..], seen)
    else [nodes[0]] + Dedup(u, nodes[1..], seen + {u(nodes[0])})
  }

  function ExtractedRaises(f: Flags, u: Unparse, body: seq<Node>): seq<Node> { Dedup(u, RaisesIn(f, body), {}) }

  lemma {:induction false} CleanRaisesConcat(f: Flags, a: seq<Node>, b: seq<Node>)
    ensures CleanRaises(f, a + b) == CleanRaises(f, a) + CleanRaises(f, b)
  {
    if a == [] {
      assert a + b == b;
    } else {
      assert (a + b)[1..] == a[1..] + b;
      CleanRaisesConcat(f, a[1..], b);
    }
  }

  function Texts(u: Unparse, nodes: seq<Node>): set<string> { set n | n in nodes :: u(n) }

  lemma {:induction false} DedupConcat(u: Unparse, a: seq<Node>, b: seq<Node>, seen: set<string>)
    ensures Dedup(u, a + b, seen) == Dedup(u, a, seen) + Dedup(u, b, seen + Texts(u, a))
  {
    if a == [] {
      assert a + b == b;
      assert seen + Texts(u, a) == seen;
    } else {
      assert (a + b)[1..] == a[1..] + b;
      var seen1 := seen + {u(a[0])};
      DedupConcat(u, a[1..], b, seen1);
      assert a == [a[0]] + a[1..];
      assert seen1 + Texts(u, a[1..]) == seen + Texts(u, a);
      if u(a[0]) in seen { assert seen1 == seen; }
    }
  }

  /** Seeing one more raise: how found and seen move. */
  lemma DedupSnoc(u: Unparse, done: seq<Node>, r: Node)
    ensures Dedup(u, done + [r], {}) == Dedup(u, done, {}) + (if u(r) in Texts(u, done) then [] else [r])
    ensures Texts(u, done + [r]) == Texts(u, done) + {u(r)}
  {
    DedupConcat(u, done, [r], {});
    assert {} + Texts(u, done) == Texts(u, done);
    assert [r][1..] == [];
    assert r in done + [r];
  }

  lemma CleanRaisesSnoc(f: Flags, nodes: seq<Node>, j: nat)
    requires j < |nodes|
    ensures CleanRaises(f, nodes[..j + 1])
            == CleanRaises(f, nodes[..j]) + (if IsRaising(nodes[j]) then [CleanRaise(f, nodes[j])] else [])
  {
    assert nodes[..j + 1] == nodes[..j] + [nodes[j]];
    CleanRaisesConcat(f, nodes[..j], [nodes[j]]);
    assert [nodes[j]][1..] == [];
  }

  lemma RaisesInSnoc(f: Flags, body: seq<Node>, i: nat)
    requires i < |body|
    ensures RaisesIn(f, body[..i + 1])
            == RaisesIn(f, body[..i]) + (if IsDef(body[i]) then [] else CleanRaises(f, Walk(body[i])))
  {
    assert body[..i + 1] == body[..i] + [body[i]];
    RaisesInConcat(f, body[..i], [body[i]]);
    assert [body[i]][1..] == [];
  }

  /** The loops that fill found and seen. */
  method ExtractRaises(f: Flags, u: Unparse, body: seq<Node>) returns (found: seq<Node>)
    ensures found == ExtractedRaises(f, u, body)
  {
    hide Walk;
    hide Dedup;
    hide CleanRaises;
    hide CleanRaise;
    hide RaisesIn;
    hide Texts;
    found := [];
    var seen: set<string> := {};
    EmptyRaises(f, u);
    assert body[..0] == [];
    for i := 0 to |body|
      invariant found == Dedup(u, RaisesIn(f, body[..i]), {}) && seen == Texts(u, RaisesIn(f, body[..i]))
    {
      var stmt := body[i];
      RaisesInSnoc(f, body, i);
      if !IsDef(stmt) {
        var nodes := Walk(stmt);
        ghost var done := RaisesIn(f, body[..i]);
        assert nodes[..0] == [] && done + [] == done;
        for j := 0 to |nodes|
          invariant found == Dedup(u, done + CleanRaises(f, nodes[..j]), {})
          invariant seen == Texts(u, done + CleanRaises(f, nodes[..j]))
        {
          var child := nodes[j];
          CleanRaisesSnoc(f, nodes, j);
          if IsRaising(child) {
            var cleaned := CleanRaise(f, child);
            DedupSnoc(u, done + CleanRaises(f, nodes[..j]), cleaned);
            assert done + (CleanRaises(f, nodes[..j]) + [cleaned]) == (done + CleanRaises(f, nodes[..j])) + [cleaned];
            if u(cleaned) !in seen {
              seen := seen + {u(cleaned)};
              found := found + [cleaned];
            } else {
              assert seen == seen + {u(cleaned)} && found == found + [];
            }
          } else {
            assert CleanRaises(f, nodes[..j]) + [] == CleanRaises(f, nodes[..j]);
          }
        }
        assert nodes[..|nodes|] == nodes;
      } else {
        assert RaisesIn(f, body[..i]) + [] == RaisesIn(f, body[..i]);
      }
    }
    assert body[..|body|] == body;
  }

  lemma EmptyRaises(f: Flags, u: Unparse)
    ensures RaisesIn(f, []) == [] && CleanRaises(f, []) == [] && Dedup(u, [], {}) == [] && Texts(u, []) == {}
  {
  }

  // ---------------------------------------------------------------- the transformer
  function KeptDoc(f: Flags, body: seq<Node>): seq<Node> {
    if HasDoc(body) && !f.stripDocs then [body[0]] else []
  }

  function CleanedBody(f: Flags, u: Unparse, body: seq<Node>): seq<Node> {
    KeptDoc(f, body) + (if f.depth == INTERFACE then ExtractedRaises(f, u, body) else []) + [STUB]
  }

  function Annotations(body: seq<Node>): seq<Node> {
    if body == [] then [] else (if body[0].AnnAssign? then [body[0]] else []) + Annotations(body[1..])
  }

  function NominalBody(f: Flags, body: seq<Node>): seq<Node> {
    var kept := KeptDoc(f, body) + Annotations(body);
    if kept == [] then [STUB] else kept
  }

  function Visit(f: Flags, u: Unparse, n: Node): Node
    decreases n, 1
  {
    match n
    case FunctionDef(isAsync, signature, body) => FunctionDef(isAsync, signature, CleanedBody(f, u, VisitAll(f, u, body)))
    case ClassDef(header, body) =>
      var visited := VisitAll(f, u, body);
      ClassDef(header, if f.depth == NOMINAL then NominalBody(f, visited) else visited)
    case Other(header, children) => Other(header, VisitAll(f, u, children))
    case _ => n
  }

  function VisitAll(f: Flags, u: Unparse, ns: seq<Node>): (r: seq<Node>)
    ensures |r| == |ns|
    decreases ns, 0
  {
    if ns == [] then [] else [Visit(f, u, ns[0])] + VisitAll(f, u, ns[1..])
  }

  /** The body rebuilt statement by statement, as the visitor does it. */
  method CleanBody(f: Flags, u: Unparse, body: seq<Node>) returns (newBody: seq<Node>)
    ensures newBody == CleanedBody(f, u, body)
  {
    newBody := [];
    if HasDoc(body) && !f.stripDocs { newBody := newBody + [body[0]]; }
    if f.depth == INTERFACE {
      var raises := ExtractRaises(f, u, body);
      newBody := newBody + raises;
    }
    newBody := newBody + [STUB];
  }

  method NominalClassBody(f: Flags, body: seq<Node>) returns (nominal: seq<Node>)
    ensures nominal == NominalBody(f, body)
  {
    nominal := [];
    if HasDoc(body) && !f.stripDocs { nominal := nominal + [body[0]]; }
    assert body[0..] == body;
    for i := 0 to |body|
      invariant nominal + Annotations(body[i..]) == KeptDoc(f, body) + Annotations(body)
    {
      assert body[i..][0] == body[i] && body[i..][1..] == body[i + 1..];
      if body[i].AnnAssign? {
        assert nominal + ([body[i]] + Annotations(body[i + 1..])) == (nominal + [body[i]]) + Annotations(body[i + 1..]);
        nominal := nominal + [body[i]];
      }
    }
    if nominal == [] { nominal := nominal + [STUB]; }
  }

  // ---------------------------------------------------------------- facts about stubs
  predicate IsLeaf(n: Node) { !IsDef(n) && !n.Other? }

  lemma {:induction false} VisitLeaves(f: Flags, u: Unparse, ns: seq<Node>)
    requires forall n :: n in ns ==> IsLeaf(n)
    ensures VisitAll(f, u, ns) == ns
  {
    if ns != [] {
      assert ns[0] in ns;
      VisitLeaves(f, u, ns[1..]);
      assert ns == [ns[0]] + ns[1..];
    }
  }

  lemma {:induction false} VisitAllAt(f: Flags, u: Unparse, ns: seq<Node>, i: nat)
    requires i < |ns|
    ensures VisitAll(f, u, ns)[i] == Visit(f, u, ns[i])
  {
    if i > 0 { VisitAllAt(f, u, ns[1..], i - 1); }
  }

  // Visiting changes neither whether the first statement is a docstring nor the docstring.
  lemma DocVisited(f: Flags, u: Unparse, ns: seq<Node>)
    ensures HasDoc(VisitAll(f, u, ns)) <==> HasDoc(ns)
    ensures HasDoc(ns) ==> VisitAll(f, u, ns)[0] == ns[0]
  {
    if ns != [] { VisitAllAt(f, u, ns, 0); }
  }

  /** Raises that are already clean: what extraction produces. */
  ghost predicate AllClean(f: Flags, rs: seq<Node>) {
    forall r :: r in rs ==> IsRaising(r) && (f.sanitizeRaises ==> exists e :: r == Raise(Some(Sanitized(e)), None))
  }

  ghost predicate DistinctText(u: Unparse, rs: seq<Node>, seen: set<string>) {
    && (forall i :: 0 <= i < |rs| ==> u(rs[i]) !in seen)
    && (forall i, j :: 0 <= i < j < |rs| ==> u(rs[i]) != u(rs[j]))
  }

  lemma {:induction false} DedupDistinct(u: Unparse, rs: seq<Node>, seen: set<string>)
    ensures DistinctText(u, Dedup(u, rs, seen), seen)
    ensures forall r :: r in Dedup(u, rs, seen) ==> r in rs
  {
    if rs != [] {
      if u(rs[0]) in seen {
        DedupDistinct(u, rs[1..], seen);
      } else {
        var more := seen + {u(rs[0])};
        DedupDistinct(u, rs[1..], more);
        var d := Dedup(u, rs[1..], more);
        assert Dedup(u, rs, seen) == [rs[0]] + d;
        forall i, j | 0 <= i < j < |d| + 1 ensures u(([rs[0]] + d)[i]) != u(([rs[0]] + d)[j]) {
          assert ([rs[0]] + d)[j] == d[j - 1] && u(d[j - 1]) !in more;
        }
      }
    }
  }

  lemma {:induction false} DedupCovers(u: Unparse, rs: seq<Node>, seen: set<string>)
    ensures forall r :: r in rs ==> u(r) in seen || exists d :: d in Dedup(u, rs, seen) && u(d) == u(r)
  {
    if rs != [] {
      if u(rs[0]) in seen {
        DedupCovers(u, rs[1..], seen);
      } else {
        DedupCovers(u, rs[1..], seen + {u(rs[0])});
        var d := Dedup(u, rs[1..], seen + {u(rs[0])});
        assert Dedup(u, rs, seen) == [rs[0]] + d;
        forall r | r in rs ensures u(r) in seen || exists x :: x in [rs[0]] + d && u(x) == u(r) {
          if r != rs[0] { assert r in rs[1..]; }
          if u(r) == u(rs[0]) { assert rs[0] in [rs[0]] + d; }
        }
      }
    }
  }

  lemma {:induction false} DedupFixed(u: Unparse, rs: seq<Node>, seen: set<string>)
    requires DistinctText(u, rs, seen)
    ensures Dedup(u, rs, seen) == rs
  {
    if rs != [] {
      forall i | 0 <= i < |rs[1..]| ensures u(rs[1..][i]) !in seen + {u(rs[0])} { assert rs[1..][i] == rs[i + 1]; }
      DedupFixed(u, rs[1..], seen + {u(rs[0])});
      assert rs == [rs[0]] + rs[1..];
    }
  }

  lemma {:induction false} CleanRaisesClean(f: Flags, nodes: seq<Node>)
    ensures AllClean(f, CleanRaises(f, nodes))
  {
    if nodes != [] { CleanRaisesClean(f, nodes[1..]); }
  }

  lemma {:induction false} RaisesInClean(f: Flags, body: seq<Node>)
    ensures AllClean(f, RaisesIn(f, body))
  {
    if body != [] {
      RaisesInClean(f, body[1..]);
      CleanRaisesClean(f, Walk(body[0]));
    }
  }

  lemma ExtractedShape(f: Flags, u: Unparse, body: seq<Node>)
    ensures AllClean(f, ExtractedRaises(f, u, body)) && DistinctText(u, ExtractedRaises(f, u, body), {})
  {
    RaisesInClean(f, body);
    DedupDistinct(u, RaisesIn(f, body), {});
  }

  lemma {:induction false} WalkLeaf(n: Node)
    requires IsLeaf(n)
    ensures Walk(n) == [n]
  {
    assert [n][1..] + Children(n) == [];
    assert WalkFrom([n]) == [n] + WalkFrom([]);
  }

  lemma {:induction false} RaisesInConcat(f: Flags, a: seq<Node>, b: seq<Node>)
    ensures RaisesIn(f, a + b) == RaisesIn(f, a) + RaisesIn(f, b)
  {
    if a == [] {
      assert a + b == b;
    } else {
      assert (a + b)[1..] == a[1..] + b;
      RaisesInConcat(f, a[1..], b);
    }
  }

  lemma {:induction false} RaisesInCleanList(f: Flags, rs: seq<Node>)
    requires AllClean(f, rs)
    ensures RaisesIn(f, rs) == rs
  {
    if rs != [] {
      assert rs[0] in rs;
      WalkLeaf(rs[0]);
      assert CleanRaise(f, rs[0]) == rs[0];
      assert CleanRaises(f, [rs[0]]) == [rs[0]] by { assert [rs[0]][1..] == []; }
      RaisesInCleanList(f, rs[1..]);
      assert rs == [rs[0]] + rs[1..];
    }
  }

  lemma RaisesInQuiet(f: Flags, n: Node)
    requires n.ExprStmt?
    ensures RaisesIn(f, [n]) == []
  {
    WalkLeaf(n);
    assert [n][1..] == [];
    assert CleanRaises(f, [n]) == [];
  }

  /** A body made of an optional docstring, clean distinct raises and the ellipsis. */
  ghost predicate IsStub(f: Flags, u: Unparse, body: seq<Node>, doc: seq<Node>, rs: seq<Node>) {
    && body == doc + rs + [STUB]
    && (doc == [] || (|doc| == 1 && HasDoc(doc)))
    && AllClean(f, rs) && DistinctText(u, rs, {})
    && (f.stripDocs ==> doc == [])
    && (f.depth == NOMINAL ==> rs == [])
  }

  lemma CleanedBodyIsStub(f: Flags, u: Unparse, body: seq<Node>)
    ensures IsStub(f, u, CleanedBody(f, u, body), KeptDoc(f, body),
                   if f.depth == INTERFACE then ExtractedRaises(f, u, body) else [])
  {
    ExtractedShape(f, u, body);
  }

  lemma StubParts(f: Flags, u: Unparse, body: seq<Node>, doc: seq<Node>, rs: seq<Node>)
    requires IsStub(f, u, body, doc, rs)
    ensures HasDoc(body) <==> doc != []
    ensures doc != [] ==> body[0] == doc[0]
    ensures forall n :: n in body ==> IsLeaf(n)
    ensures ExtractedRaises(f, u, body) == rs
  {
    hide RaisesIn;
    hide Dedup;
    hide DistinctText;
    if doc == [] && rs != [] { assert body[0] == rs[0] && rs[0] in rs; }
    assert forall n :: n in body ==> n in doc || n in rs || n == STUB;
    StubRaises(f, u, body, doc, rs);
  }

  lemma StubRaises(f: Flags, u: Unparse, body: seq<Node>, doc: seq<Node>, rs: seq<Node>)
    requires IsStub(f, u, body, doc, rs)
    ensures ExtractedRaises(f, u, body) == rs
  {
    hide RaisesIn;
    hide Dedup;
    hide AllClean;
    hide DistinctText;
    RaisesInNothing(f);
    RaisesInConcat(f, doc + rs, [STUB]);
    RaisesInConcat(f, doc, rs);
    if doc != [] { assert doc == [doc[0]]; RaisesInQuiet(f, doc[0]); }
    RaisesInQuiet(f, STUB);
    RaisesInCleanList(f, rs);
    assert RaisesIn(f, body) == rs;
    DedupFixed(u, rs, {});
  }

  lemma RaisesInNothing(f: Flags)
    ensures RaisesIn(f, []) == []
  {}

  lemma {:induction false} AnnotationsFixed(body: seq<Node>)
    requires forall n :: n in body ==> n.AnnAssign?
    ensures Annotations(body) == body
  {
    if body != [] {
      AnnotationsFixed(body[1..]);
      assert body == [body[0]] + body[1..];
    }
  }

  lemma {:induction false} AnnotationsShape(body: seq<Node>)
    ensures forall n :: n in Annotations(body) ==> n.AnnAssign?
  {
    if body != [] { AnnotationsShape(body[1..]); }
  }

  lemma NominalBodyLeaves(f: Flags, body: seq<Node>)
    ensures forall n :: n in NominalBody(f, body) ==> IsLeaf(n)
  {
    AnnotationsShape(body);
    hide Annotations;
    assert forall n :: n in NominalBody(f, body) ==> n in KeptDoc(f, body) || n in Annotations(body) || n == STUB;
  }

  lemma NominalBodyFixed(f: Flags, body: seq<Node>)
    ensures NominalBody(f, NominalBody(f, body)) == NominalBody(f, body)
  {
    AnnotationsShape(body);
    var doc, anns := KeptDoc(f, body), Annotations(body);
    var b := NominalBody(f, body);
    if doc + anns == [] {
      assert [STUB][1..] == [];
    } else if doc == [] {
      assert b == anns;
      assert anns[0] in anns;
      AnnotationsFixed(anns);
    } else {
      assert b[1..] == anns;
      AnnotationsFixed(anns);
      assert Annotations(b) == anns;
      assert KeptDoc(f, b) == doc;
    }
  }

  // ---------------------------------------------------------------- idempotence and absorption
  function WithDepth(f: Flags, d: PrunedDepth): Flags { Flags(f.stripDocs, d, f.sanitizeRaises) }

  /** Pruning an interface-pruned tree again at a depth equals pruning the original tree at that depth. */
  lemma {:induction false} InterfaceThen(f: Flags, u: Unparse, n: Node)
    ensures Visit(f, u, Visit(WithDepth(f, INTERFACE), u, n)) == Visit(f, u, n)
    decreases n, 1
  {
    var g := WithDepth(f, INTERFACE);
    match n
    case FunctionDef(_, _, body) =>
      FunctionThen(f, g, u, body);
    case ClassDef(_, body) =>
      InterfaceThenAll(f, u, body);
    case Other(_, children) =>
      InterfaceThenAll(f, u, children);
    case _ =>
  }

  lemma {:induction false} InterfaceThenAll(f: Flags, u: Unparse, ns: seq<Node>)
    ensures VisitAll(f, u, VisitAll(WithDepth(f, INTERFACE), u, ns)) == VisitAll(f, u, ns)
    decreases ns, 0
  {
    if ns != [] {
      InterfaceThen(f, u, ns[0]);
      InterfaceThenAll(f, u, ns[1..]);
      var once := VisitAll(WithDepth(f, INTERFACE), u, ns);
      assert once[1..] == VisitAll(WithDepth(f, INTERFACE), u, ns[1..]);
    }
  }

  // A function body cleaned with flags g and cleaned again with flags f, where f asks for no more than g kept.
  lemma FunctionThen(f: Flags, g: Flags, u: Unparse, body: seq<Node>)
    requires f.stripDocs == g.stripDocs && f.sanitizeRaises == g.sanitizeRaises
    requires g.depth == INTERFACE || f.depth == g.depth
    ensures CleanedBody(f, u, VisitAll(f, u, CleanedBody(g, u, VisitAll(g, u, body)))) == CleanedBody(f, u, VisitAll(f, u, body))
  {
    hide ExtractedRaises;
    var vg, vf := VisitAll(g, u, body), VisitAll(f, u, body);
    var b := CleanedBody(g, u, vg);
    DocVisited(g, u, body);
    DocVisited(f, u, body);
    CleanedBodyIsStub(g, u, vg);
    var rs := if g.depth == INTERFACE then ExtractedRaises(g, u, vg) else [];
    StubParts(g, u, b, KeptDoc(g, vg), rs);
    VisitLeaves(f, u, b);
    ExtractedFlags(f, g, u, b);
    if f == g { assert vf == vg; }
  }

  // Only the sanitising flag matters to what is extracted.
  lemma ExtractedFlags(f: Flags, g: Flags, u: Unparse, body: seq<Node>)
    requires f.sanitizeRaises == g.sanitizeRaises
    ensures ExtractedRaises(f, u, body) == ExtractedRaises(g, u, body)
  {
    RaisesInFlags(f, g, body);
  }

  lemma {:induction false} RaisesInFlags(f: Flags, g: Flags, body: seq<Node>)
    requires f.sanitizeRaises == g.sanitizeRaises
    ensures RaisesIn(f, body) == RaisesIn(g, body)
  {
    if body != [] {
      CleanRaisesFlags(f, g, Walk(body[0]));
      RaisesInFlags(f, g, body[1..]);
    }
  }

  lemma {:induction false} CleanRaisesFlags(f: Flags, g: Flags, nodes: seq<Node>)
    requires f.sanitizeRaises == g.sanitizeRaises
    ensures CleanRaises(f, nodes) == CleanRaises(g, nodes)
  {
    if nodes != [] { CleanRaisesFlags(f, g, nodes[1..]); }
  }

  /** A nominal-pruned tree is a fixed point of pruning at either depth. */
  lemma {:induction false} AfterNominal(f: Flags, u: Unparse, n: Node)
    ensures Visit(f, u, Visit(WithDepth(f, NOMINAL), u, n)) == Visit(WithDepth(f, NOMINAL), u, n)
    decreases n, 1
  {
    var g := WithDepth(f, NOMINAL);
    match n
    case FunctionDef(_, _, body) =>
      NominalFunctionFixed(f, g, u, VisitAll(g, u, body));
    case ClassDef(_, body) =>
      NominalClassFixed(f, g, u, VisitAll(g, u, body));
    case Other(_, children) =>
      AfterNominalAll(f, u, children);
    case _ =>
  }

  lemma {:induction false} AfterNominalAll(f: Flags, u: Unparse, ns: seq<Node>)
    ensures VisitAll(f, u, VisitAll(WithDepth(f, NOMINAL), u, ns)) == VisitAll(WithDepth(f, NOMINAL), u, ns)
    decreases ns, 0
  {
    if ns != [] {
      AfterNominal(f, u, ns[0]);
      AfterNominalAll(f, u, ns[1..]);
      var once := VisitAll(WithDepth(f, NOMINAL), u, ns);
      assert once[1..] == VisitAll(WithDepth(f, NOMINAL), u, ns[1..]);
    }
  }

  lemma NominalFunctionFixed(f: Flags, g: Flags, u: Unparse, body: seq<Node>)
    requires g == WithDepth(f, NOMINAL)
    ensures CleanedBody(f, u, VisitAll(f, u, CleanedBody(g, u, body))) == CleanedBody(g, u, body)
  {
    var b := CleanedBody(g, u, body);
    CleanedBodyIsStub(g, u, body);
    StubParts(g, u, b, KeptDoc(g, body), []);
    VisitLeaves(f, u, b);
    ExtractedFlags(f, g, u, b);
  }

  lemma NominalClassFixed(f: Flags, g: Flags, u: Unparse, body: seq<Node>)
    requires g == WithDepth(f, NOMINAL)
    ensures VisitAll(f, u, NominalBody(g, body)) == NominalBody(g, body)
    ensures NominalBody(f, NominalBody(g, body)) == NominalBody(g, body)
  {
    NominalBodyLeaves(g, body);
    NominalBodyFixed(g, body);
    VisitLeaves(f, u, NominalBody(g, body));
    assert NominalBody(f, NominalBody(g, body)) == NominalBody(g, NominalBody(g, body));
  }

  /** Pruning is idempotent at either depth, and NOMINAL absorbs INTERFACE on both sides. */
  lemma PruningLaws(f: Flags, u: Unparse, n: Node)
    ensures Visit(f, u, Visit(f, u, n)) == Visit(f, u, n)
    ensures var interface, nominal := WithDepth(f, INTERFACE), WithDepth(f, NOMINAL);
            && Visit(nominal, u, Visit(interface, u, n)) == Visit(nominal, u, n)
            && Visit(interface, u, Visit(nominal, u, n)) == Visit(nominal, u, n)
  {
    if f.depth == INTERFACE {
      assert f == WithDepth(f, INTERFACE);
      InterfaceThen(f, u, n);
    } else {
      assert f == WithDepth(f, NOMINAL);
      AfterNominal(f, u, n);
    }
    InterfaceThen(WithDepth(f, NOMINAL), u, n);
    AfterNominal(WithDepth(f, INTERFACE), u, n);
  }

  // ---------------------------------------------------------------- what survives
  /** Every function of the tree, nested ones included, in source order. */
  function AllSignatures(n: Node): seq<string> {
    match n
    case FunctionDef(_, signature, body) => [signature] + AllSignaturesIn(body)
    case ClassDef(_, body) => AllSignaturesIn(body)
    case Other(_, children) => AllSignaturesIn(children)
    case _ => []
  }

  function AllSignaturesIn(ns: seq<Node>): seq<string> {
    if ns == [] then [] else AllSignatures(ns[0]) + AllSignaturesIn(ns[1..])
  }

  /** The functions not inside another function nor, at NOMINAL, inside a class body. */
  function OuterSignatures(d: PrunedDepth, n: Node): seq<string> {
    match n
    case FunctionDef(_, signature, body) => [signature]
    case ClassDef(_, body) => if d == NOMINAL then [] else OuterSignaturesIn(d, body)
    case Other(_, children) => OuterSignaturesIn(d, children)
    case _ => []
  }

  function OuterSignaturesIn(d: PrunedDepth, ns: seq<Node>): seq<string> {
    if ns == [] then [] else OuterSignatures(d, ns[0]) + OuterSignaturesIn(d, ns[1..])
  }

  lemma {:induction false} LeavesHaveNoSignatures(ns: seq<Node>)
    requires forall n :: n in ns ==> IsLeaf(n)
    ensures AllSignaturesIn(ns) == []
  {
    if ns != [] {
      assert ns[0] in ns;
      LeavesHaveNoSignatures(ns[1..]);
    }
  }

  /** The pruned tree holds exactly the outer signatures of the original, in order. */
  lemma {:induction false} SignaturesSurvive(f: Flags, u: Unparse, n: Node)
    ensures AllSignatures(Visit(f, u, n)) == OuterSignatures(f.depth, n)
    decreases n, 1
  {
    match n
    case FunctionDef(_, _, body) =>
      var v := VisitAll(f, u, body);
      CleanedBodyIsStub(f, u, v);
      StubParts(f, u, CleanedBody(f, u, v), KeptDoc(f, v), if f.depth == INTERFACE then ExtractedRaises(f, u, v) else []);
      LeavesHaveNoSignatures(CleanedBody(f, u, v));
    case ClassDef(_, body) =>
      if f.depth == NOMINAL {
        NominalBodyLeaves(f, VisitAll(f, u, body));
        LeavesHaveNoSignatures(NominalBody(f, VisitAll(f, u, body)));
      } else {
        SignaturesSurviveIn(f, u, body);
      }
    case Other(_, children) =>
      SignaturesSurviveIn(f, u, children);
    case _ =>
  }

  lemma {:induction false} SignaturesSurviveIn(f: Flags, u: Unparse, ns: seq<Node>)
    ensures AllSignaturesIn(VisitAll(f, u, ns)) == OuterSignaturesIn(f.depth, ns)
    decreases ns, 0
  {
    if ns != [] {
      SignaturesSurvive(f, u, ns[0]);
      SignaturesSurviveIn(f, u, ns[1..]);
      assert VisitAll(f, u, ns)[1..] == VisitAll(f, u, ns[1..]);
    }
  }

  /** Every function body in the tree is a stub. */
  ghost predicate AllStubs(f: Flags, u: Unparse, n: Node) {
    match n
    case FunctionDef(_, _, body) => exists doc, rs :: IsStub(f, u, body, doc, rs)
    case ClassDef(_, body) => AllStubsIn(f, u, body)
    case Other(_, children) => AllStubsIn(f, u, children)
    case _ => true
  }

  ghost predicate AllStubsIn(f: Flags, u: Unparse, ns: seq<Node>) {
    ns == [] || (AllStubs(f, u, ns[0]) && AllStubsIn(f, u, ns[1..]))
  }

  lemma {:induction false} LeavesAreStubs(f: Flags, u: Unparse, ns: seq<Node>)
    requires forall n :: n in ns ==> IsLeaf(n)
    ensures AllStubsIn(f, u, ns)
  {
    if ns != [] {
      assert ns[0] in ns;
      LeavesAreStubs(f, u, ns[1..]);
    }
  }

  /** After pruning every function body is only a docstring, distinct clean raises and the ellipsis. */
  lemma {:induction false} PrunedBodiesAreStubs(f: Flags, u: Unparse, n: Node)
    ensures AllStubs(f, u, Visit(f, u, n))
    decreases n, 1
  {
    match n
    case FunctionDef(_, _, body) =>
      CleanedBodyIsStub(f, u, VisitAll(f, u, body));
    case ClassDef(_, body) =>
      if f.depth == NOMINAL {
        NominalBodyLeaves(f, VisitAll(f, u, body));
        LeavesAreStubs(f, u, NominalBody(f, VisitAll(f, u, body)));
      } else {
        PrunedBodiesAreStubsIn(f, u, body);
      }
    case Other(_, children) =>
      PrunedBodiesAreStubsIn(f, u, children);
    case _ =>
  }

  lemma {:induction false} PrunedBodiesAreStubsIn(f: Flags, u: Unparse, ns: seq<Node>)
    ensures AllStubsIn(f, u, VisitAll(f, u, ns))
    decreases ns, 0
  {
    if ns != [] {
      PrunedBodiesAreStubs(f, u, ns[0]);
      PrunedBodiesAreStubsIn(f, u, ns[1..]);
      assert VisitAll(f, u, ns)[1..] == VisitAll(f, u, ns[1..]);
    }
  }

  /** The tree with every function body removed: all that INTERFACE pruning must not touch. */
  function Skeleton(n: Node): Node {
    match n
    case FunctionDef(isAsync, signature, _) => FunctionDef(isAsync, signature, [])
    case ClassDef(header, body) => ClassDef(header, Skeletons(body))
    case Other(header, children) => Other(header, Skeletons(children))
    case _ => n
  }

  function Skeletons(ns: seq<Node>): seq<Node> {
    if ns == [] then [] else [Skeleton(ns[0])] + Skeletons(ns[1..])
  }

  /** INTERFACE pruning changes nothing outside function bodies. */
  lemma {:induction false} InterfaceKeepsSkeleton(f: Flags, u: Unparse, n: Node)
    requires f.depth == INTERFACE
    ensures Skeleton(Visit(f, u, n)) == Skeleton(n)
    decreases n, 1
  {
    match n
    case ClassDef(_, body) => InterfaceKeepsSkeletons(f, u, body);
    case Other(_, children) => InterfaceKeepsSkeletons(f, u, children);
    case _ =>
  }

  lemma {:induction false} InterfaceKeepsSkeletons(f: Flags, u: Unparse, ns: seq<Node>)
    requires f.depth == INTERFACE
    ensures Skeletons(VisitAll(f, u, ns)) == Skeletons(ns)
    decreases ns, 0
  {
    if ns != [] {
      InterfaceKeepsSkeleton(f, u, ns[0]);
      InterfaceKeepsSkeletons(f, u, ns[1..]);
      assert VisitAll(f, u, ns)[1..] == VisitAll(f, u, ns[1..]);
    }
  }

  // ---------------------------------------------------------------- which raises are announced
  /** n is the node reached from m along the path of child positions. */
  predicate At(m: Node, path: seq<nat>, n: Node)
    decreases |path|
  {
    if path == [] then n == m else path[0] < |Children(m)| && At(Children(m)[path[0]], path[1..], n)
  }

  /** The same, with no definition on the way. */
  predicate AtOutsideDefs(m: Node, path: seq<nat>, n: Node)
    decreases |path|
  {
    !IsDef(m) && if path == [] then n == m else path[0] < |Children(m)| && AtOutsideDefs(Children(m)[path[0]], path[1..], n)
  }

  predicate InQueue(queue: seq<Node>, i: nat, path: seq<nat>, n: Node) { i < |queue| && At(queue[i], path, n) }

  /** Walking yields every node below, definitions and what is inside them included. */
  lemma {:induction false} WalkReaches(queue: seq<Node>, n: Node)
    ensures n in WalkFrom(queue) <==> exists i: nat, path: seq<nat> :: InQueue(queue, i, path, n)
    decreases QueueSize(queue)
  {
    if queue == [] {
      forall i: nat, path: seq<nat> ensures !InQueue(queue, i, path, n) {}
    } else {
      var m, next := queue[0], queue[1..] + Children(queue[0]);
      QueueShrinks(queue);
      WalkReaches(next, n);
      if i: nat, path: seq<nat> :| InQueue(queue, i, path, n) { StepInto(queue, i, path, n); }
      if n == m { assert InQueue(queue, 0, [], n); }
      if i: nat, path: seq<nat> :| InQueue(next, i, path, n) {
        if i < |queue| - 1 {
          assert InQueue(queue, i + 1, path, n);
        } else {
          var j := i - (|queue| - 1);
          assert next[i] == Children(m)[j];
          assert ([j] + path)[1..] == path;
          assert InQueue(queue, 0, [j] + path, n);
        }
      }
    }
  }

  lemma StepInto(queue: seq<Node>, i: nat, path: seq<nat>, n: Node)
    requires InQueue(queue, i, path, n)
    ensures n == queue[0] || exists j: nat, rest: seq<nat> :: InQueue(queue[1..] + Children(queue[0]), j, rest, n)
  {
    var next := queue[1..] + Children(queue[0]);
    if i > 0 {
      assert InQueue(next, i - 1, path, n);
    } else if path != [] {
      assert next[|queue| - 1 + path[0]] == Children(queue[0])[path[0]];
      assert InQueue(next, |queue| - 1 + path[0], path[1..], n);
    }
  }

  /** c is the cleaned form of a raise anywhere under a statement of the body that is not itself a definition. */
  predicate RaiseUnder(f: Flags, body: seq<Node>, i: nat, path: seq<nat>, n: Node, c: Node) {
    i < |body| && !IsDef(body[i]) && At(body[i], path, n) && IsRaising(n) && c == CleanRaise(f, n)
  }

  ghost predicate Announceable(f: Flags, body: seq<Node>, c: Node) {
    exists i: nat, path: seq<nat>, n :: RaiseUnder(f, body, i, path, n, c)
  }

  lemma {:induction false} CleanRaisesOf(f: Flags, nodes: seq<Node>, c: Node)
    ensures c in CleanRaises(f, nodes) <==> exists n :: n in nodes && IsRaising(n) && c == CleanRaise(f, n)
  {
    if nodes != [] {
      CleanRaisesOf(f, nodes[1..], c);
      assert forall n :: n in nodes <==> n == nodes[0] || n in nodes[1..];
    }
  }

  lemma {:induction false} RaisesInExactly(f: Flags, body: seq<Node>, c: Node)
    ensures c in RaisesIn(f, body) <==> Announceable(f, body, c)
  {
    hide Walk;
    hide CleanRaise;
    if body == [] {
      forall i: nat, path: seq<nat>, n ensures !RaiseUnder(f, body, i, path, n, c) {}
    } else {
      var rest := body[1..];
      RaisesInExactly(f, rest, c);
      if !IsDef(body[0]) { FirstRaises(f, body, c); }
      if i: nat, path: seq<nat>, n :| RaiseUnder(f, rest, i, path, n, c) { assert RaiseUnder(f, body, i + 1, path, n, c); }
      if i: nat, path: seq<nat>, n :| RaiseUnder(f, body, i, path, n, c) {
        if i > 0 { assert RaiseUnder(f, rest, i - 1, path, n, c); }
      }
    }
  }

  lemma FirstRaises(f: Flags, body: seq<Node>, c: Node)
    requires body != [] && !IsDef(body[0])
    ensures c in CleanRaises(f, Walk(body[0])) <==> exists path: seq<nat>, n :: RaiseUnder(f, body, 0, path, n, c)
  {
    hide CleanRaise;
    CleanRaisesOf(f, Walk(body[0]), c);
    if n :| n in Walk(body[0]) && IsRaising(n) && c == CleanRaise(f, n) {
      WalkReaches([body[0]], n);
      var i: nat, path: seq<nat> :| InQueue([body[0]], i, path, n);
      assert RaiseUnder(f, body, 0, path, n, c);
    }
    if path: seq<nat>, n :| RaiseUnder(f, body, 0, path, n, c) {
      WalkReaches([body[0]], n);
      assert InQueue([body[0]], 0, path, n);
    }
  }

  /** The extracted raises are exactly the cleaned raises under statements that are not themselves definitions, one
      of each text. */
  lemma ExtractedExactly(f: Flags, u: Unparse, body: seq<Node>)
    ensures forall c :: c in ExtractedRaises(f, u, body) ==> Announceable(f, body, c)
    ensures forall c :: Announceable(f, body, c) ==> exists d :: d in ExtractedRaises(f, u, body) && u(d) == u(c)
    ensures DistinctText(u, ExtractedRaises(f, u, body), {})
  {
    forall c ensures c in RaisesIn(f, body) <==> Announceable(f, body, c) { RaisesInExactly(f, body, c); }
    hide Announceable;
    DedupDistinct(u, RaisesIn(f, body), {});
    DedupCovers(u, RaisesIn(f, body), {});
  }

  /** A raise of a function defined inside a compound statement is extracted with those of the enclosing body. */
  lemma NestedRaiseExtracted(f: Flags, u: Unparse, header: string, signature: string, raised: Node)
    requires IsRaising(raised)
    ensures var body := [Other(header, [FunctionDef(false, signature, [raised])])];
            exists d :: d in ExtractedRaises(f, u, body) && u(d) == u(CleanRaise(f, raised))
  {
    var inner := FunctionDef(false, signature, [raised]);
    var body := [Other(header, [inner])];
    assert At(inner, [0], raised) by { assert [0][1..] == [] && At(raised, [], raised); }
    assert At(body[0], [0, 0], raised) by { assert [0, 0][1..] == [0]; }
    assert RaiseUnder(f, body, 0, [0, 0], raised, CleanRaise(f, raised));
    ExtractedExactly(f, u, body);
    assert Announceable(f, body, CleanRaise(f, raised));
  }

  lemma {:induction false} VisitKeepsRaise(f: Flags, u: Unparse, m: Node, path: seq<nat>, n: Node)
    requires AtOutsideDefs(m, path, n) && IsRaising(n)
    ensures At(Visit(f, u, m), path, n) && !IsDef(Visit(f, u, m))
    decreases |path|
  {
    if path != [] {
      VisitKeepsRaise(f, u, Children(m)[path[0]], path[1..], n);
      VisitAllAt(f, u, Children(m), path[0]);
    }
  }

  /** No exception is lost: every raise of the source body that is outside nested definitions is announced in the
      pruned body by a raise with its cleaned text. */
  lemma RaisesAnnounced(f: Flags, u: Unparse, body: seq<Node>, i: nat, path: seq<nat>, r: Node)
    requires f.depth == INTERFACE && i < |body| && AtOutsideDefs(body[i], path, r) && IsRaising(r)
    ensures exists d :: d in CleanedBody(f, u, VisitAll(f, u, body)) && d.Raise? && u(d) == u(CleanRaise(f, r))
  {
    var v, c := VisitAll(f, u, body), CleanRaise(f, r);
    VisitKeepsRaise(f, u, body[i], path, r);
    VisitAllAt(f, u, body, i);
    assert RaiseUnder(f, v, i, path, r, c);
    ExtractedExactly(f, u, v);
    ExtractedShape(f, u, v);
    assert Announceable(f, v, c);
    hide ExtractedRaises;
    hide Announceable;
    var d :| d in ExtractedRaises(f, u, v) && u(d) == u(c);
    assert d in CleanedBody(f, u, v);
  }

  // ---------------------------------------------------------------- what an announced raise says
  /** What a raised expression calls: the function of a call, a name or attribute itself, Exception for anything else. */
  function Callee(e: Expr): Expr {
    match e
    case Call(func, args, keywords) => func
    case Name(id) => Name(id)
    case Attribute(value, attr) => Attribute(value, attr)
    case StrConst(_) => Name("Exception")
    case EllipsisConst => Name("Exception")
    case OtherExpr(_) => Name("Exception")
  }

  /** d announces the raise r: the same callee with the one argument "..." and no cause, or r itself when raises are
      not sanitised. */
  predicate Announces(f: Flags, d: Node, r: Node) {
    IsRaising(r) && d == if f.sanitizeRaises then Raise(Some(Call(Callee(r.exc.value), [StrConst("...")], [])), None) else r
  }

  lemma CleanedAnnounces(f: Flags, r: Node, d: Node)
    requires IsRaising(r)
    ensures Announces(f, d, r) <==> d == CleanRaise(f, r)
    ensures Announces(f, d, r) ==> Announces(f, d, d)
  {
  }

  /** Texts tell raises apart. */
  ghost predicate InjectiveText(u: Unparse) { forall a, b :: u(a) == u(b) ==> a == b }

  /** No exception is lost: with texts that tell nodes apart, every raise of the source body outside nested definitions
      has its announcement in the pruned body. */
  lemma EveryRaiseAnnounced(f: Flags, u: Unparse, body: seq<Node>, i: nat, path: seq<nat>, r: Node)
    requires f.depth == INTERFACE && InjectiveText(u)
    requires i < |body| && AtOutsideDefs(body[i], path, r) && IsRaising(r)
    ensures exists d :: d in CleanedBody(f, u, VisitAll(f, u, body)) && Announces(f, d, r)
  {
    RaisesAnnounced(f, u, body, i, path, r);
    hide CleanedBody;
    var d :| d in CleanedBody(f, u, VisitAll(f, u, body)) && d.Raise? && u(d) == u(CleanRaise(f, r));
    CleanedAnnounces(f, r, d);
  }

  /** c is a raise somewhere below m, or the announcement of one. */
  predicate FromAt(f: Flags, m: Node, path: seq<nat>, r: Node, c: Node) {
    At(m, path, r) && IsRaising(r) && (c == r || Announces(f, c, r))
  }

  ghost predicate ComesFrom(f: Flags, m: Node, c: Node) { exists path, r :: FromAt(f, m, path, r, c) }

  lemma FromBelow(f: Flags, m: Node, i: nat, c: Node)
    requires i < |Children(m)| && ComesFrom(f, Children(m)[i], c)
    ensures ComesFrom(f, m, c)
  {
    var path, r :| FromAt(f, Children(m)[i], path, r, c);
    assert ([i] + path)[1..] == path;
    assert FromAt(f, m, [i] + path, r, c);
  }

  lemma AnnouncedTwice(f: Flags, m: Node, n: Node, c: Node)
    requires ComesFrom(f, m, n) && IsRaising(n) && c == CleanRaise(f, n)
    ensures exists path, r :: At(m, path, r) && IsRaising(r) && Announces(f, c, r)
  {
    var path, r :| FromAt(f, m, path, r, n);
    assert At(m, path, r) && Announces(f, c, r);
  }

  /** Every raise in a pruned tree is a raise of the source or the announcement of one. */
  lemma {:induction false} RaisesComeFromSource(f: Flags, u: Unparse, m: Node, path: seq<nat>, c: Node)
    requires At(Visit(f, u, m), path, c) && IsRaising(c)
    ensures ComesFrom(f, m, c)
    decreases m
  {
    if path == [] {
      assert m.Raise? && FromAt(f, m, [], c, c);
    } else if m.FunctionDef? {
      BodyRaises(f, u, m, CleanedBody(f, u, VisitAll(f, u, m.body))[path[0]], path[1..], c);
    } else if m.ClassDef? && f.depth == NOMINAL {
      NominalHasNoRaise(f, VisitAll(f, u, m.body), path[0], path[1..], c);
    } else {
      VisitAllAt(f, u, Children(m), path[0]);
      RaisesComeFromSource(f, u, Children(m)[path[0]], path[1..], c);
      FromBelow(f, m, path[0], c);
    }
  }

  lemma NominalHasNoRaise(f: Flags, body: seq<Node>, i: nat, path: seq<nat>, c: Node)
    requires i < |NominalBody(f, body)| && At(NominalBody(f, body)[i], path, c)
    ensures !IsRaising(c)
  {
    var n := NominalBody(f, body)[i];
    NominalBodyLeaves(f, body);
    AnnotationsShape(body);
    assert n in NominalBody(f, body);
    assert n in KeptDoc(f, body) || n in Annotations(body) || n == STUB;
    assert path == [];
  }

  // One element of a cleaned function body.
  lemma {:induction false} BodyRaises(f: Flags, u: Unparse, m: Node, n: Node, path: seq<nat>, c: Node)
    requires m.FunctionDef? && n in CleanedBody(f, u, VisitAll(f, u, m.body)) && At(n, path, c) && IsRaising(c)
    ensures ComesFrom(f, m, c)
    decreases m, 0
  {
    var v := VisitAll(f, u, m.body);
    ExtractedShape(f, u, v);
    ExtractedExactly(f, u, v);
    hide ExtractedRaises;
    hide DistinctText;
    assert n in KeptDoc(f, v) || n in ExtractedRaises(f, u, v) || n == STUB;
    assert n.Raise? && path == [] && c == n;
    assert Announceable(f, v, c);
    var i: nat, p: seq<nat>, r :| RaiseUnder(f, v, i, p, r, c);
    VisitAllAt(f, u, m.body, i);
    RaisesComeFromSource(f, u, m.body[i], p, r);
    FromBelow(f, m, i, r);
    AnnouncedTwice(f, m, r, c);
    var q, x :| At(m, q, x) && IsRaising(x) && Announces(f, c, x);
    assert FromAt(f, m, q, x, c);
  }

  lemma RaiseExtracted(f: Flags, u: Unparse, v: seq<Node>, d: Node)
    requires d in CleanedBody(f, u, v) && d.Raise?
    ensures Announceable(f, v, d)
  {
    ExtractedExactly(f, u, v);
    hide ExtractedRaises;
    hide DistinctText;
    hide Announceable;
    assert d in ExtractedRaises(f, u, v);
  }

  /** Nothing is invented: every raise of the pruned body announces a raise of the source, under a statement that is
      not itself a definition. */
  lemma NothingElseAnnounced(f: Flags, u: Unparse, body: seq<Node>, d: Node)
    requires d in CleanedBody(f, u, VisitAll(f, u, body)) && d.Raise?
    ensures exists i, path, r :: 0 <= i < |body| && !IsDef(body[i]) && At(body[i], path, r) && IsRaising(r) && Announces(f, d, r)
  {
    var v := VisitAll(f, u, body);
    RaiseExtracted(f, u, v, d);
    hide CleanedBody;
    hide Visit;
    hide Announces;
    var i: nat, p: seq<nat>, n :| RaiseUnder(f, v, i, p, n, d);
    VisitAllAt(f, u, body, i);
    RaisesComeFromSource(f, u, body[i], p, n);
    AnnouncedTwice(f, body[i], n, d);
  }

  // ---------------------------------------------------------------- order
  /** kept is what stands in xs at the increasing positions at. */
  ghost predicate IsSelection(xs: seq<Node>, kept: seq<Node>, at: seq<nat>) {
    && |at| == |kept|
    && (forall k :: 0 <= k < |at| ==> at[k] < |xs| && xs[at[k]] == kept[k])
    && (forall j, k :: 0 <= j < k < |at| ==> at[j] < at[k])
  }

  function Later(at: seq<nat>): seq<nat> { seq(|at|, k requires 0 <= k < |at| => at[k] + 1) }

  lemma SelectionLater(xs: seq<Node>, kept: seq<Node>, at: seq<nat>)
    requires xs != [] && IsSelection(xs[1..], kept, at)
    ensures IsSelection(xs, kept, Later(at))
  {
    forall k | 0 <= k < |at| ensures Later(at)[k] < |xs| && xs[Later(at)[k]] == kept[k] {
      assert xs[1..][at[k]] == kept[k];
    }
  }

  lemma SelectionFirst(xs: seq<Node>, kept: seq<Node>, at: seq<nat>)
    requires xs != [] && IsSelection(xs, kept, Later(at))
    ensures IsSelection(xs, [xs[0]] + kept, [0] + Later(at))
  {
    var up := Later(at);
    assert forall k :: 0 < k < |at| + 1 ==> ([0] + up)[k] == up[k - 1] && ([xs[0]] + kept)[k] == kept[k - 1];
  }

  lemma LaterPositions(at: seq<nat>)
    ensures forall i: nat :: i in Later(at) <==> i > 0 && (i - 1) in at
  {
    forall i: nat | i > 0 && (i - 1) in at ensures i in Later(at) {
      var k :| 0 <= k < |at| && at[k] == i - 1;
      assert Later(at)[k] == i;
    }
  }

  lemma SelectionCons(xs: seq<Node>, kept: seq<Node>, at: seq<nat>)
    requires xs != [] && IsSelection(xs[1..], kept, at)
    ensures IsSelection(xs, kept, Later(at)) && IsSelection(xs, [xs[0]] + kept, [0] + Later(at))
    ensures forall i: nat :: i in Later(at) <==> i > 0 && (i - 1) in at
    ensures forall i: nat :: i in [0] + Later(at) <==> i == 0 || (i - 1) in at
  {
    hide IsSelection;
    SelectionLater(xs, kept, at);
    SelectionFirst(xs, kept, at);
    LaterPositions(at);
  }

  /** The annotations are the annotated assignments of the body, each at its place, in order. */
  lemma {:induction false} AnnotationsSelected(body: seq<Node>) returns (at: seq<nat>)
    ensures IsSelection(body, Annotations(body), at)
    ensures forall i: nat :: i in at <==> i < |body| && body[i].AnnAssign?
  {
    if body == [] {
      at := [];
    } else {
      var rest := AnnotationsSelected(body[1..]);
      SelectionCons(body, Annotations(body[1..]), rest);
      at := (if body[0].AnnAssign? then [0] else []) + Later(rest);
      if !body[0].AnnAssign? { assert at == Later(rest); }
    }
  }

  /** No earlier raise has the same text. */
  predicate FirstOfText(u: Unparse, rs: seq<Node>, i: nat) { i < |rs| && forall j :: 0 <= j < i ==> u(rs[j]) != u(rs[i]) }

  /** Deduplication keeps the first raise of every text, in order. */
  lemma {:induction false} DedupSelects(u: Unparse, rs: seq<Node>, seen: set<string>) returns (at: seq<nat>)
    ensures IsSelection(rs, Dedup(u, rs, seen), at)
    ensures forall i: nat :: i in at <==> FirstOfText(u, rs, i) && u(rs[i]) !in seen
  {
    if rs == [] {
      at := [];
    } else {
      var rest, repeated := rs[1..], u(rs[0]) in seen;
      var tail := DedupSelects(u, rest, if repeated then seen else seen + {u(rs[0])});
      SelectionCons(rs, Dedup(u, rest, if repeated then seen else seen + {u(rs[0])}), tail);
      at := if repeated then Later(tail) else [0] + Later(tail);
      forall i: nat | i > 0 ensures FirstOfText(u, rs, i) <==> FirstOfText(u, rest, i - 1) && u(rs[i]) != u(rs[0]) {
        if FirstOfText(u, rs, i) {
          forall j | 0 <= j < i - 1 ensures u(rest[j]) != u(rest[i - 1]) { assert rest[j] == rs[j + 1]; }
        }
        if i - 1 < |rest| && FirstOfText(u, rest, i - 1) && u(rs[i]) != u(rs[0]) {
          forall j | 0 <= j < i ensures u(rs[j]) != u(rs[i]) { if j > 0 { assert rest[j - 1] == rs[j]; } }
        }
      }
      forall i: nat ensures i in at <==> FirstOfText(u, rs, i) && u(rs[i]) !in seen {
        if i > 0 { assert FirstOfText(u, rs, i) <==> FirstOfText(u, rest, i - 1) && u(rs[i]) != u(rs[0]); }
      }
    }
  }

  function Kids(ns: seq<Node>): seq<Node> { if ns == [] then [] else Children(ns[0]) + Kids(ns[1..]) }

  lemma WalkStep(x: Node, rest: seq<Node>)
    ensures WalkFrom([x] + rest) == [x] + WalkFrom(rest + Children(x))
  {
    assert ([x] + rest)[0] == x && ([x] + rest)[1..] == rest;
  }

  lemma {:induction false} WalkFront(a: seq<Node>, b: seq<Node>)
    ensures WalkFrom(a + b) == a + WalkFrom(b + Kids(a))
    decreases |a|
  {
    hide WalkFrom;
    hide Children;
    if a == [] {
      assert a + b == b && b + Kids(a) == b;
    } else {
      var x, t := a[0], a[1..];
      WalkStep(x, t + b);
      WalkFront(t, b + Children(x));
      assert a + b == [x] + (t + b);
      assert (t + b) + Children(x) == t + (b + Children(x));
      assert (b + Children(x)) + Kids(t) == b + Kids(a);
      assert [x] + (t + WalkFrom(b + Kids(a))) == a + WalkFrom(b + Kids(a));
    }
  }

  /** The walk goes generation by generation, each from left to right. */
  lemma WalkByGenerations(ns: seq<Node>)
    ensures WalkFrom(ns) == ns + WalkFrom(Kids(ns))
    ensures WalkFrom([]) == []
  {
    WalkFront(ns, []);
    assert ns + [] == ns && [] + Kids(ns) == Kids(ns);
  }

  // ---------------------------------------------------------------- pruned bodies, exactly
  /** The docstring a body starts with. */
  function Doc(body: seq<Node>): seq<Node> {
    if |body| > 0 then
      match body[0]
      case ExprStmt(StrConst(_)) => [body[0]]
      case _ => []
    else []
  }

  /** A pruned function: its head, the docstring unless stripped, at INTERFACE raises, and the ellipsis; nothing else. */
  lemma PrunedFunction(f: Flags, u: Unparse, n: Node) returns (raises: seq<Node>)
    requires n.FunctionDef?
    ensures Visit(f, u, n) == FunctionDef(n.isAsync, n.signature,
                                          (if f.stripDocs then [] else Doc(n.body)) + raises + [ExprStmt(EllipsisConst)])
    ensures (forall r :: r in raises ==> r.Raise?) && (f.depth == NOMINAL ==> raises == [])
  {
    var v := VisitAll(f, u, n.body);
    DocVisited(f, u, n.body);
    ExtractedShape(f, u, v);
    raises := if f.depth == INTERFACE then ExtractedRaises(f, u, v) else [];
    assert KeptDoc(f, v) == if f.stripDocs then [] else Doc(n.body);
  }

  /** A NOMINAL class: its head, the docstring unless stripped, and the annotated assignments in order; an ellipsis when
      that leaves nothing. */
  lemma PrunedClass(f: Flags, u: Unparse, n: Node) returns (kept: seq<Node>, at: seq<nat>)
    requires n.ClassDef? && f.depth == NOMINAL
    ensures IsSelection(n.body, kept, at) && forall i: nat :: i in at <==> i < |n.body| && n.body[i].AnnAssign?
    ensures var b := (if f.stripDocs then [] else Doc(n.body)) + kept;
            Visit(f, u, n) == ClassDef(n.header, if b == [] then [ExprStmt(EllipsisConst)] else b)
  {
    var v := VisitAll(f, u, n.body);
    DocVisited(f, u, n.body);
    kept := Annotations(v);
    at := AnnotationsSelected(v);
    forall i: nat | i < |v| ensures v[i].AnnAssign? <==> n.body[i].AnnAssign? { VisitAllAt(f, u, n.body, i); }
    forall k | 0 <= k < |at| ensures at[k] < |n.body| && n.body[at[k]] == kept[k] {
      assert at[k] in at;
      VisitAllAt(f, u, n.body, at[k]);
    }
    assert KeptDoc(f, v) == if f.stripDocs then [] else Doc(n.body);
  }

  /** The tree without the bodies of functions and classes. */
  function Outline(n: Node): Node {
    match n
    case FunctionDef(isAsync, signature, _) => FunctionDef(isAsync, signature, [])
    case ClassDef(header, _) => ClassDef(header, [])
    case Other(header, children) => Other(header, Outlines(children))
    case _ => n
  }

  function Outlines(ns: seq<Node>): seq<Node> { if ns == [] then [] else [Outline(ns[0])] + Outlines(ns[1..]) }

  /** At either depth nothing outside function and class bodies changes. */
  lemma {:induction false} KeepsOutline(f: Flags, u: Unparse, n: Node)
    ensures Outline(Visit(f, u, n)) == Outline(n)
    decreases n, 1
  {
    if n.Other? { KeepsOutlines(f, u, n.children); }
  }

  lemma {:induction false} KeepsOutlines(f: Flags, u: Unparse, ns: seq<Node>)
    ensures Outlines(VisitAll(f, u, ns)) == Outlines(ns)
    decreases ns, 0
  {
    if ns != [] {
      KeepsOutline(f, u, ns[0]);
      KeepsOutlines(f, u, ns[1..]);
      assert VisitAll(f, u, ns)[1..] == VisitAll(f, u, ns[1..]);
    }
  }
}
