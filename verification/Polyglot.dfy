/** Pruning of TypeScript, Go and Java sources: body spans collected from a syntax tree, then spliced out. */
module Polyglot {
  import opened Wrappers
  import opened Bytes
  import opened CoreContracts
  import opened Splice

  /** A concrete syntax node with its byte span. */
  datatype Node = Node(kind: string, start: nat, stop: nat, children: seq<Node>)

  /** Child spans are ordered, disjoint and inside the parent, at every level. */
  ghost predicate Nested(n: Node) {
    n.start <= n.stop && NestedList(n.children, n.start, n.stop)
  }

  ghost predicate NestedList(ns: seq<Node>, from: nat, to: nat) {
    if ns == [] then from <= to
    else from <= ns[0].start && Nested(ns[0]) && NestedList(ns[1..], ns[0].stop, to)
  }

  datatype Language = PYTHON | TYPESCRIPT | JAVASCRIPT | GO | JAVA

  /** Which nodes have a replaceable body, and which child kind is that body. */
  datatype Grammar = Grammar(targets: set<string>, bodies: set<string>)

  const TS_GRAMMAR := Grammar(
    {"function_declaration", "method_definition", "arrow_function", "function_expression",
     "generator_function_declaration"},
    {"statement_block"})
  const GO_GRAMMAR := Grammar({"function_declaration", "method_declaration"}, {"block"})
  const JAVA_GRAMMAR := Grammar({"method_declaration", "constructor_declaration"}, {"block", "constructor_body"})

  // ---------------------------------------------------------------- what is replaced
  /** The first child of a body kind. */
  function FirstBody(g: Grammar, ns: seq<Node>): Option<Node> {
    if ns == [] then None else if ns[0].kind in g.bodies then Some(ns[0]) else FirstBody(g, ns[1..])
  }

  predicate IsStubbed(g: Grammar, n: Node) { n.kind in g.targets && FirstBody(g, n.children).Some? }

  function Bodies(g: Grammar, n: Node): seq<Node> {
    if IsStubbed(g, n) then [FirstBody(g, n.children).value] else BodiesOf(g, n.children)
  }

  function BodiesOf(g: Grammar, ns: seq<Node>): seq<Node> {
    if ns == [] then [] else Bodies(g, ns[0]) + BodiesOf(g, ns[1..])
  }

  function EditsOf(bodies: seq<Node>, stub: seq<byte>): seq<Edit<byte>> {
    if bodies == [] then [] else [Edit(bodies[0].start, bodies[0].stop, stub)] + EditsOf(bodies[1..], stub)
  }

  ghost function NodeAt(n: Node, path: seq<nat>): Option<Node>
    decreases |path|
  {
    if path == [] then Some(n)
    else if path[0] < |n.children| then NodeAt(n.children[path[0]], path[1..])
    else None
  }

  ghost predicate StubbedAt(g: Grammar, n: Node, path: seq<nat>) {
    var m := NodeAt(n, path);
    m.Some? && IsStubbed(g, m.value)
  }

  /** b is the body of the node at path, and no node above it on the path is itself stubbed. */
  ghost predicate OutermostBody(g: Grammar, n: Node, path: seq<nat>, b: Node) {
    && StubbedAt(g, n, path)
    && FirstBody(g, NodeAt(n, path).value.children) == Some(b)
    && forall k :: 0 <= k < |path| ==> !StubbedAt(g, n, path[..k])
  }

  lemma OutermostStep(g: Grammar, n: Node, path: seq<nat>, b: Node)
    requires path != []
    ensures OutermostBody(g, n, path, b)
            <==> !IsStubbed(g, n) && path[0] < |n.children| && OutermostBody(g, n.children[path[0]], path[1..], b)
  {
    assert path[..0] == [] && NodeAt(n, []) == Some(n);
    if path[0] < |n.children| {
      var child, rest := n.children[path[0]], path[1..];
      forall k | 0 <= k < |rest| ensures StubbedAt(g, child, rest[..k]) <==> StubbedAt(g, n, path[..k + 1]) {
        assert path[..k + 1][0] == path[0] && path[..k + 1][1..] == rest[..k];
      }
      if OutermostBody(g, n, path, b) {
        assert !StubbedAt(g, n, path[..0]);
        forall k | 0 <= k < |rest| ensures !StubbedAt(g, child, rest[..k]) {
          assert !StubbedAt(g, n, path[..k + 1]);
        }
      }
      if !IsStubbed(g, n) && OutermostBody(g, child, rest, b) {
        forall k | 0 <= k < |path| ensures !StubbedAt(g, n, path[..k]) {
          if k > 0 { assert !StubbedAt(g, child, rest[..k - 1]); }
        }
      }
    }
  }

  /** The collected bodies are exactly those of the outermost functions: nested functions are not collected. */
  lemma {:induction false} BodiesAreOutermost(g: Grammar, n: Node, b: Node)
    ensures b in Bodies(g, n) <==> exists path :: OutermostBody(g, n, path, b)
    decreases n, 1
  {
    if IsStubbed(g, n) {
      if b in Bodies(g, n) { assert OutermostBody(g, n, [], b); }
      if path :| OutermostBody(g, n, path, b) {
        if path != [] { OutermostStep(g, n, path, b); }
      }
    } else {
      BodiesOfAreOutermost(g, n.children, b);
      if b in Bodies(g, n) {
        var i, path :| 0 <= i < |n.children| && OutermostBody(g, n.children[i], path, b);
        assert ([i] + path)[1..] == path;
        OutermostStep(g, n, [i] + path, b);
      }
      if path :| OutermostBody(g, n, path, b) {
        if path != [] { OutermostStep(g, n, path, b); }
      }
    }
  }

  lemma {:induction false} BodiesOfAreOutermost(g: Grammar, ns: seq<Node>, b: Node)
    ensures b in BodiesOf(g, ns) <==> exists i, path :: 0 <= i < |ns| && OutermostBody(g, ns[i], path, b)
    decreases ns, 0
  {
    hide OutermostBody;
    if ns != [] {
      BodiesAreOutermost(g, ns[0], b);
      BodiesOfAreOutermost(g, ns[1..], b);
      if b in BodiesOf(g, ns[1..]) {
        var i, path :| 0 <= i < |ns[1..]| && OutermostBody(g, ns[1..][i], path, b);
        assert ns[i + 1] == ns[1..][i];
      }
      if i, path :| 0 <= i < |ns| && OutermostBody(g, ns[i], path, b) {
        if i > 0 { assert ns[1..][i - 1] == ns[i]; }
      }
    }
  }

  // ---------------------------------------------------------------- the spans
  lemma {:induction false} NestedListBound(ns: seq<Node>, from: nat, to: nat)
    requires NestedList(ns, from, to)
    ensures from <= to
    ensures forall n :: n in ns ==> from <= n.start <= n.stop <= to
  {
    if ns != [] { NestedListBound(ns[1..], ns[0].stop, to); }
  }

  lemma {:induction false} FirstBodyIn(g: Grammar, ns: seq<Node>)
    ensures FirstBody(g, ns).Some? ==> FirstBody(g, ns).value in ns && FirstBody(g, ns).value.kind in g.bodies
  {
    if ns != [] { FirstBodyIn(g, ns[1..]); }
  }

  lemma {:induction false} FitConcat(a: seq<Edit<byte>>, b: seq<Edit<byte>>, from: nat, mid: nat, to: nat)
    requires Fit(a, from, mid) && Fit(b, mid, to)
    ensures Fit(a + b, from, to)
    decreases |a|
  {
    if a == [] {
      assert a + b == b;
      FitLower(b, mid, from, to);
    } else {
      FitBound(b, mid, to);
      assert (a + b)[1..] == a[1..] + b;
      FitConcat(a[1..], b, a[0].stop, mid, to);
    }
  }

  lemma FitLower(b: seq<Edit<byte>>, mid: nat, from: nat, to: nat)
    requires Fit(b, mid, to) && from <= mid
    ensures Fit(b, from, to)
  {
  }

  lemma {:induction false} FitBound(b: seq<Edit<byte>>, from: nat, to: nat)
    requires Fit(b, from, to)
    ensures from <= to
  {
    if b != [] { FitBound(b[1..], b[0].stop, to); }
  }

  lemma {:induction false} EditsConcat(a: seq<Node>, b: seq<Node>, stub: seq<byte>)
    ensures EditsOf(a + b, stub) == EditsOf(a, stub) + EditsOf(b, stub)
  {
    if a == [] {
      assert a + b == b;
    } else {
      assert (a + b)[1..] == a[1..] + b;
      EditsConcat(a[1..], b, stub);
    }
  }

  /** The spans collected from a well-nested tree are ordered, disjoint and inside the root. */
  lemma {:induction false} SpansFit(g: Grammar, n: Node, stub: seq<byte>)
    requires Nested(n)
    ensures Fit(EditsOf(Bodies(g, n), stub), n.start, n.stop)
    decreases n, 1
  {
    if IsStubbed(g, n) {
      var b := FirstBody(g, n.children).value;
      FirstBodyIn(g, n.children);
      NestedListBound(n.children, n.start, n.stop);
      assert EditsOf([b], stub) == [Edit(b.start, b.stop, stub)];
    } else {
      SpansOfFit(g, n.children, n.start, n.stop, stub);
    }
  }

  lemma {:induction false} SpansOfFit(g: Grammar, ns: seq<Node>, from: nat, to: nat, stub: seq<byte>)
    requires NestedList(ns, from, to)
    ensures Fit(EditsOf(BodiesOf(g, ns), stub), from, to)
    decreases ns, 0
  {
    if ns != [] {
      var a, b := Bodies(g, ns[0]), BodiesOf(g, ns[1..]);
      SpansFit(g, ns[0], stub);
      SpansOfFit(g, ns[1..], ns[0].stop, to, stub);
      EditsConcat(a, b, stub);
      FitLower(EditsOf(a, stub), ns[0].start, from, ns[0].stop);
      FitConcat(EditsOf(a, stub), EditsOf(b, stub), from, ns[0].stop, to);
    }
  }

  ghost predicate BodiesNonEmpty(bodies: seq<Node>) { forall b :: b in bodies ==> b.start < b.stop }

  lemma {:induction false} NonEmptyStartsDiffer(bodies: seq<Node>, stub: seq<byte>, from: nat, to: nat)
    requires Fit(EditsOf(bodies, stub), from, to) && BodiesNonEmpty(bodies)
    ensures DistinctStarts(EditsOf(bodies, stub))
  {
    var edits := EditsOf(bodies, stub);
    FitIsDisjoint(edits, from, to);
    forall i, j | 0 <= i < j < |edits| ensures edits[i].start < edits[j].start {
      EditAt(bodies, stub, i);
    }
  }

  lemma {:induction false} EditAt(bodies: seq<Node>, stub: seq<byte>, i: nat)
    requires i < |EditsOf(bodies, stub)|
    ensures i < |bodies| && EditsOf(bodies, stub)[i] == Edit(bodies[i].start, bodies[i].stop, stub)
  {
    if i > 0 { EditAt(bodies[1..], stub, i - 1); }
  }

  // ---------------------------------------------------------------- collection into the shared list
  class ReplacementList {
    var items: seq<Edit<byte>>
    constructor ()
      ensures items == []
    {
      items := [];
    }
  }

  /** Appends the spans of one subtree to the shared list, in document order. */
  method CollectReplacements(g: Grammar, n: Node, replacements: ReplacementList, stub: seq<byte>)
    modifies replacements
    ensures replacements.items == old(replacements.items) + EditsOf(Bodies(g, n), stub)
    decreases n
  {
    if n.kind in g.targets {
      for i := 0 to |n.children|
        invariant replacements.items == old(replacements.items)
        invariant FirstBody(g, n.children) == FirstBody(g, n.children[i..])
      {
        var child := n.children[i];
        assert n.children[i..][1..] == n.children[i + 1..];
        if child.kind in g.bodies {
          replacements.items := replacements.items + [Edit(child.start, child.stop, stub)];
          assert EditsOf([child], stub) == [Edit(child.start, child.stop, stub)];
          return;
        }
      }
    }
    assert EditsOf(BodiesOf(g, []), stub) == [];
    for i := 0 to |n.children|
      invariant old(replacements.items) + EditsOf(BodiesOf(g, n.children), stub)
                == replacements.items + EditsOf(BodiesOf(g, n.children[i..]), stub)
    {
      var rest := n.children[i..];
      assert rest[0] == n.children[i] && rest[1..] == n.children[i + 1..];
      EditsConcat(Bodies(g, rest[0]), BodiesOf(g, rest[1..]), stub);
      CollectReplacements(g, n.children[i], replacements, stub);
    }
  }

  // ---------------------------------------------------------------- pruning
  function StubFor(l: Language, depth: PruningDepth): seq<byte> {
    if depth == NOMINAL then Ascii("{}")
    else match l
      case GO => Ascii("{ panic(\"not implemented\") }")
      case JAVA => Ascii("{ throw new UnsupportedOperationException(); }")
      case _ => Ascii("{ /* ... */ }")
  }

  function GrammarFor(l: Language): Grammar {
    match l
    case GO => GO_GRAMMAR
    case JAVA => JAVA_GRAMMAR
    case _ => TS_GRAMMAR
  }

  datatype PruneError = UnsupportedLanguage

  lemma {:induction false} OneStub(bodies: seq<Node>, stub: seq<byte>)
    ensures OneText(EditsOf(bodies, stub)) && forall e :: e in EditsOf(bodies, stub) ==> e.text == stub
  {
    forall i | 0 <= i < |EditsOf(bodies, stub)| ensures EditsOf(bodies, stub)[i].text == stub { EditAt(bodies, stub, i); }
  }

  /** Prunes a source: every outermost body becomes the stub and every other byte survives in order, exactly when
      the stubs of empty bodies survive the body that starts with them; non-empty bodies always qualify. */
  method Prune(source: seq<byte>, tree: Node, l: Language, depth: PruningDepth) returns (r: Result<seq<byte>, PruneError>)
    requires Nested(tree) && tree.stop <= |source|
    ensures depth == FULL ==> r == Ok(source)
    ensures depth != FULL ==> (r.Err? <==> l == PYTHON)
    ensures depth != FULL && l != PYTHON ==>
              var edits := EditsOf(Bodies(GrammarFor(l), tree), StubFor(l, depth));
              && Fit(edits, 0, |source|)
              && r == Ok(AssignAll(source, SortedDesc(edits)))
              && (r == Ok(Substitute(source, edits, 0)) <==> Harmless(source, edits))
              && (BodiesNonEmpty(Bodies(GrammarFor(l), tree)) ==> r == Ok(Substitute(source, edits, 0)))
  {
    hide StubFor;
    hide GrammarFor;
    hide Bodies;
    hide Nested;
    hide Substitute;
    hide AssignAll;
    hide SortedDesc;
    hide BodiesNonEmpty;
    hide Harmless;
    hide OneText;
    if depth == FULL { return Ok(source); }
    if l == PYTHON { return Err(UnsupportedLanguage); }
    var g, stub := GrammarFor(l), StubFor(l, depth);
    var replacements := new ReplacementList();
    CollectReplacements(g, tree, replacements, stub);
    assert replacements.items == EditsOf(Bodies(g, tree), stub);
    EditsFitSource(g, tree, stub, |source|);
    OneStub(Bodies(g, tree), stub);
    if BodiesNonEmpty(Bodies(g, tree)) { NonEmptyStartsDiffer(Bodies(g, tree), stub, 0, |source|); }
    var buf := SpliceAll(source, replacements.items);
    return Ok(buf);
  }

  lemma {:induction false} FitRaise(b: seq<Edit<byte>>, from: nat, to: nat, higher: nat)
    requires Fit(b, from, to) && to <= higher
    ensures Fit(b, from, higher)
  {
    if b != [] { FitRaise(b[1..], b[0].stop, to, higher); }
  }

  /** The spans of a tree fit its source. */
  lemma EditsFitSource(g: Grammar, tree: Node, stub: seq<byte>, n: nat)
    requires Nested(tree) && tree.stop <= n
    ensures Fit(EditsOf(Bodies(g, tree), stub), 0, n)
  {
    hide Fit;
    hide Nested;
    SpansFit(g, tree, stub);
    FitLower(EditsOf(Bodies(g, tree), stub), tree.start, 0, tree.stop);
    FitRaise(EditsOf(Bodies(g, tree), stub), 0, tree.stop, n);
  }

  /** With non-empty bodies, a byte outside every replaced body is found in the output at its shifted offset. */
  lemma UntouchedByteSurvives(source: seq<byte>, tree: Node, l: Language, depth: PruningDepth, i: nat)
    requires Nested(tree) && tree.stop <= |source| && i < |source|
    requires forall b :: b in Bodies(GrammarFor(l), tree) ==> i < b.start || b.stop <= i
    ensures var edits := EditsOf(Bodies(GrammarFor(l), tree), StubFor(l, depth));
            && Fit(edits, 0, |source|)
            && (var out := Substitute(source, edits, 0);
                0 <= i + Shift(edits, i) < |out| && out[i + Shift(edits, i)] == source[i])
  {
    hide GrammarFor;
    hide StubFor;
    hide Bodies;
    hide EditsOf;
    hide Nested;
    hide Fit;
    hide Substitute;
    hide Shift;
    var g, stub := GrammarFor(l), StubFor(l, depth);
    var edits := EditsOf(Bodies(g, tree), stub);
    EditsFitSource(g, tree, stub, |source|);
    forall k | 0 <= k < |edits| ensures i < edits[k].start || edits[k].stop <= i {
      EditAt(Bodies(g, tree), stub, k);
      assert Bodies(g, tree)[k] in Bodies(g, tree);
    }
    OutsideSurvives(source, edits, 0, i);
  }

  /** Every source of the tree's length is pruned by substitution exactly when no empty outermost body shares its
      start with a non-empty one. */
  lemma PruneSubstitutesIff(tree: Node, l: Language, depth: PruningDepth, n: nat)
    requires Nested(tree) && tree.stop <= n
    ensures var edits := EditsOf(Bodies(GrammarFor(l), tree), StubFor(l, depth));
            && Fit(edits, 0, n)
            && ((forall source: seq<byte> :: |source| == n ==>
                   AssignAll(source, SortedDesc(edits)) == Substitute(source, edits, 0))
                <==> EmptiesApart(edits))
  {
    hide GrammarFor;
    hide Bodies;
    hide EditsOf;
    hide Nested;
    hide Harmless;
    hide EmptiesApart;
    hide Substitute;
    hide AssignAll;
    hide SortedDesc;
    var stub := StubFor(l, depth);
    assert stub != [] by { StubNotEmpty(l, depth); }
    hide StubFor;
    var edits := EditsOf(Bodies(GrammarFor(l), tree), stub);
    EditsFitSource(GrammarFor(l), tree, stub, n);
    OneStub(Bodies(GrammarFor(l), tree), stub);
    HarmlessForEverySourceIff(edits, n, 0 as byte, 1 as byte);
    forall source: seq<byte> | |source| == n
      ensures AssignAll(source, SortedDesc(edits)) == Substitute(source, edits, 0) <==> Harmless(source, edits)
    {
      SpliceIsSubstitutionIff(source, edits);
    }
  }

  lemma StubNotEmpty(l: Language, depth: PruningDepth)
    ensures StubFor(l, depth) != []
  {
    hide Ascii;
  }

  /** A nested tree it fails for: a function with an empty body, directly before one whose body is the source. */
  lemma EmptyBodyBreaksPrune(source: seq<byte>)
    requires |source| == 2 && source[1] != '}' as int
    ensures var first := Node("function_declaration", 0, 0, [Node("statement_block", 0, 0, [])]);
            var second := Node("function_declaration", 0, 2, [Node("statement_block", 0, 2, [])]);
            var tree := Node("program", 0, 2, [first, second]);
            var edits := EditsOf(Bodies(TS_GRAMMAR, tree), Ascii("{}"));
            && Nested(tree) && Fit(edits, 0, 2)
            && AssignAll(source, SortedDesc(edits)) != Substitute(source, edits, 0)
  {
    hide Bodies;
    hide EditsOf;
    hide Ascii;
    hide AssignAll;
    hide Substitute;
    hide SortedDesc;
    hide Nested;
    hide Fit;
    var empty, whole := Node("statement_block", 0, 0, []), Node("statement_block", 0, 2, []);
    var stub := Ascii("{}");
    Braces();
    SmallTree(empty, whole);
    TwoEdits(empty, whole, stub);
    StubEatsStub(source, stub);
  }

  lemma Braces()
    ensures Ascii("{}") == ['{' as int, '}' as int]
  {
    assert "{}"[1..] == "}" && "}"[1..] == "";
  }

  lemma TwoEdits(a: Node, b: Node, stub: seq<byte>)
    ensures EditsOf([a, b], stub) == [Edit(a.start, a.stop, stub), Edit(b.start, b.stop, stub)]
  {
    assert [a, b][1..] == [b] && [b][1..] == [];
    assert EditsOf([b], stub) == [Edit(b.start, b.stop, stub)];
  }

  /** Two bodies at one start, the first one empty: the second span eats half of the stub inserted for the first. */
  lemma StubEatsStub(source: seq<byte>, stub: seq<byte>)
    requires |source| == 2 && |stub| == 2 && source[1] != stub[1]
    ensures var edits := [Edit(0, 0, stub), Edit(0, 2, stub)];
            Fit(edits, 0, 2) && AssignAll(source, SortedDesc(edits)) != Substitute(source, edits, 0)
  {
    hide AssignAll;
    hide Substitute;
    hide SortedDesc;
    var edits := [Edit(0, 0, stub), Edit(0, 2, stub)];
    assert edits[1..] == [Edit(0, 2, stub)] && edits[1..][1..] == [];
    assert !HarmlessAt(source, edits, 1) by {
      assert EmptiesBefore(edits, 1) == 1 by { assert EmptiesBefore(edits, 0) == 0; }
      assert Copies(stub, 1) == stub by { assert Copies(stub, 0) == []; }
      assert Leftover(source, edits, 1)[1] == source[1];
    }
    SpliceIsSubstitutionIff(source, edits);
  }

  lemma SmallTree(empty: Node, whole: Node)
    requires empty == Node("statement_block", 0, 0, []) && whole == Node("statement_block", 0, 2, [])
    ensures var first, second := Node("function_declaration", 0, 0, [empty]), Node("function_declaration", 0, 2, [whole]);
            Nested(Node("program", 0, 2, [first, second]))
            && Bodies(TS_GRAMMAR, Node("program", 0, 2, [first, second])) == [empty, whole]
  {
    var first, second := Node("function_declaration", 0, 0, [empty]), Node("function_declaration", 0, 2, [whole]);
    assert [first, second][1..] == [second] && [second][1..] == [] && [empty][1..] == [] && [whole][1..] == [];
    assert Nested(first) && Nested(second);
    assert NestedList([second], 0, 2);
    assert Bodies(TS_GRAMMAR, first) == [empty] && Bodies(TS_GRAMMAR, second) == [whole];
    assert BodiesOf(TS_GRAMMAR, []) == [] && BodiesOf(TS_GRAMMAR, [second]) == [whole] + [];
    assert "program" !in TS_GRAMMAR.targets;
    assert BodiesOf(TS_GRAMMAR, [first, second]) == [empty] + [whole];
  }

  // ---------------------------------------------------------------- languages
  /** A node of the kind is a function of the language, and a child of the other kind is its body. */
  predicate HasBody(l: Language, kind: string, body: string) {
    match l
    case PYTHON => false
    case GO => kind in {"function_declaration", "method_declaration"} && body == "block"
    case JAVA =>
      kind in {"method_declaration", "constructor_declaration"} && body in {"block", "constructor_body"}
    case _ =>
      && kind in {"function_declaration", "method_definition", "arrow_function", "function_expression",
                  "generator_function_declaration"}
      && body == "statement_block"
  }

  /** A node whose body is emptied holds its first child of a body kind of its language; any other node is looked into. */
  lemma EmptiedNodes(l: Language, n: Node, head: seq<Node>, body: Node, tail: seq<Node>)
    requires l != PYTHON && n.children == head + [body] + tail
    requires forall x :: x in head ==> !HasBody(l, n.kind, x.kind)
    ensures HasBody(l, n.kind, body.kind) ==> Bodies(GrammarFor(l), n) == [body]
    ensures (forall x :: x in n.children ==> !HasBody(l, n.kind, x.kind)) ==>
              Bodies(GrammarFor(l), n) == BodiesOf(GrammarFor(l), n.children)
  {
    var g := GrammarFor(l);
    forall kind: string, b: string ensures kind in g.targets && b in g.bodies <==> HasBody(l, kind, b) {}
    if HasBody(l, n.kind, body.kind) {
      FirstBodyAfter(g, head, body, tail);
    } else if forall x :: x in n.children ==> !HasBody(l, n.kind, x.kind) {
      FirstBodyIn(g, n.children);
    }
  }

  lemma {:induction false} FirstBodyAfter(g: Grammar, head: seq<Node>, body: Node, tail: seq<Node>)
    requires body.kind in g.bodies && forall x :: x in head ==> x.kind !in g.bodies
    ensures FirstBody(g, head + [body] + tail) == Some(body)
  {
    if head == [] {
      assert head + [body] + tail == [body] + tail;
    } else {
      assert head[0] in head;
      assert (head + [body] + tail)[0] == head[0] && (head + [body] + tail)[1..] == head[1..] + [body] + tail;
      FirstBodyAfter(g, head[1..], body, tail);
    }
  }

  /** What stands for a body: braces alone at NOMINAL, else a body in the language that says it is left out. */
  function Placeholder(l: Language, names: bool): string {
    match (names, l)
    case (true, _) => "{}"
    case (false, GO) => "{ panic(\"not implemented\") }"
    case (false, JAVA) => "{ throw new UnsupportedOperationException(); }"
    case (false, _) => "{ /* ... */ }"
  }

  /** A source that is one function: its head and tail stay, and the placeholder stands between them. */
  lemma OneFunctionPruned(source: seq<byte>, l: Language, depth: PrunedDepth, n: Node, head: seq<Node>, body: Node,
                          tail: seq<Node>)
    requires l != PYTHON && n.children == head + [body] + tail && Nested(n) && n.stop <= |source|
    requires HasBody(l, n.kind, body.kind) && forall x :: x in head ==> !HasBody(l, n.kind, x.kind)
    ensures body.start <= body.stop <= |source|
    ensures var edits := EditsOf(Bodies(GrammarFor(l), n), StubFor(l, depth));
            AssignAll(source, SortedDesc(edits))
            == source[..body.start] + Ascii(Placeholder(l, depth == NOMINAL)) + source[body.stop..]
  {
    hide GrammarFor;
    hide StubFor;
    hide Bodies;
    hide Ascii;
    hide HasBody;
    hide AssignAll;
    hide SortedDesc;
    EmptiedNodes(l, n, head, body, tail);
    StubIsPlaceholder(l, depth);
    assert body in n.children;
    NestedListBound(n.children, n.start, n.stop);
    var stub := StubFor(l, depth);
    assert EditsOf([body], stub) == [Edit(body.start, body.stop, stub)];
    OneEdit(source, Edit(body.start, body.stop, stub));
  }

  lemma StubIsPlaceholder(l: Language, depth: PrunedDepth)
    requires l != PYTHON
    ensures StubFor(l, depth) == Ascii(Placeholder(l, depth == NOMINAL))
  {
    hide Ascii;
  }

  lemma OneEdit(source: seq<byte>, e: Edit<byte>)
    requires e.start <= e.stop <= |source|
    ensures AssignAll(source, SortedDesc([e])) == source[..e.start] + e.text + source[e.stop..]
  {
    assert [e][1..] == [] && SortedDesc([e]) == InsertDesc(e, []) == [e];
    assert AssignAll(source, [e]) == AssignAll(Assign(source, e), []);
  }
}
