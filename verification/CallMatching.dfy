/** What matching a tool call means, apart from how it is tested: evasion, whole words, import phrases, words and paths. */
module CallMatching {
  import opened Wrappers
  import opened PyText
  import opened PathNormalizer
  import opened PathMeaning
  import opened RulesContracts
  import opened RulesEnforcer

  // ---------------------------------------------------------------- evasion
  lemma DotDotOccurs(t: string, i: nat)
    requires i + 2 <= |t| && t[i] == '.' && t[i + 1] == '.'
    ensures Contains(t, "..")
  {
    assert t[i..i + 2] == "..";
    assert OccursAt(t, "..", i);
  }

  /** A word without slash, backslash, percent sign and double dot always has a normal form. */
  lemma PlainWordNormalizes(t: string, maxRounds: nat)
    requires !LooksLikePath(t)
    ensures NormalizeSpec(t, maxRounds).Ok?
  {
    UnquoteShortensOrStops(t);
    assert !HasEscape(t);
    RoundsStable(t, maxRounds);
    assert Cleaned(t, maxRounds) == t;
    WholeIsOneSegment(t);
    assert LeadingSlashes(t) == 0;
    if t == ".." { DotDotOccurs(t, 0); }
    assert !LeavesDir(t) by {
      forall dir ensures dir <= Go(dir, [t]) { GoOne(dir, t); }
    }
    RefusedIff(t, maxRounds);
    hide LeavesDir;
    hide NormalizeSpec;
    hide SplitOn;
    NeverBoth(NormalizeSpec(t, maxRounds));
  }

  lemma NeverBoth(r: Result<string, PathError>)
    requires r != Err(Unstable) && r != Err(EscapesRoot)
    ensures r.Ok?
  {
    if r.Err? {
      match r.error {
        case Unstable =>
        case EscapesRoot =>
      }
    }
  }

  lemma {:induction false} WholeIsOneSegment(t: string)
    requires '/' !in t
    ensures SplitOn(t, '/') == [t]
  {
    assert [t][1..] == [] && Join([t], '/') == t;
    SplitJoin([t], '/');
  }

  /** A call evades normalisation exactly when some word of it has no normal form: the look at its characters only
      saves work. */
  lemma EvasiveIff(call: ToolCall)
    ensures Evasive(call) <==> exists t :: t in call.tokens && NormalizeSpec(t, 3).Err?
  {
    hide NormalizeSpec;
    hide LooksLikePath;
    forall t | !LooksLikePath(t) ensures NormalizeSpec(t, 3).Ok? { PlainWordNormalizes(t, 3); }
  }

  /** The ids given for an evasion are those of the path guards, guard by guard. */
  lemma {:induction false} PathGuardIdsAre(guards: seq<Guard>, g: Guard)
    ensures PathGuardIds([]) == []
    ensures PathGuardIds(guards + [g]) == PathGuardIds(guards) + if g.pattern == PATH_PREFIX then [g.guardId] else []
  {
    if guards == [] {
      assert guards + [g] == [g] && [g][1..] == [];
    } else {
      assert (guards + [g])[0] == guards[0] && (guards + [g])[1..] == guards[1..] + [g];
      PathGuardIdsAre(guards[1..], g);
    }
  }

  // ---------------------------------------------------------------- whole words
  /** Letters, digits and the underscore make words; a hyphen ends one. */
  lemma WordCharIff(c: char)
    ensures IsWordChar(c) <==> 'a' <= LowerChar(c) <= 'z' || '0' <= c <= '9' || c == '_'
  {
  }

  /** The target begins and ends with characters of words, as symbols and module names do. */
  predicate IsSymbol(t: string) { t != "" && IsWordChar(t[0]) && IsWordChar(t[|t| - 1]) }

  predicate EndsWord(x: string) { x == "" || !IsWordChar(x[|x| - 1]) }

  predicate StartsNoWord(y: string) { y == "" || !IsWordChar(y[0]) }

  /** The target stands in the text with nothing of a word on either side. */
  predicate WordBetween(s: string, x: string, target: string, y: string) {
    s == x + target + y && EndsWord(x) && StartsNoWord(y)
  }

  ghost predicate StandsAlone(s: string, target: string) { exists x, y :: WordBetween(s, x, target, y) }

  lemma AloneAt(s: string, target: string, i: nat)
    requires IsSymbol(target) && OccursAt(s, target, i)
    ensures Boundary(s, i) && Boundary(s, i + |target|) <==> WordBetween(s, s[..i], target, s[i + |target|..])
  {
    var x, y := s[..i], s[i + |target|..];
    assert s == x + target + y;
    assert s[i] == target[0] && s[i + |target| - 1] == target[|target| - 1];
    assert i > 0 ==> s[i - 1] == x[|x| - 1];
    assert y != "" ==> s[i + |target|] == y[0];
  }

  /** A symbol is found exactly where it stands alone. */
  lemma FindsWordIff(s: string, target: string)
    requires IsSymbol(target)
    ensures FindsWord(s, target) <==> StandsAlone(s, target)
  {
    hide Boundary;
    hide EndsWord;
    hide StartsNoWord;
    if FindsWord(s, target) {
      var i :| 0 <= i <= |s| && OccursAt(s, target, i) && Boundary(s, i) && Boundary(s, i + |target|);
      AloneAt(s, target, i);
    }
    if x, y :| WordBetween(s, x, target, y) {
      var i := |x|;
      assert s[i..i + |target|] == target && s[..i] == x && s[i + |target|..] == y;
      assert OccursAt(s, target, i);
      AloneAt(s, target, i);
    }
  }

  /** One of the two keywords, white space and the target, with nothing of a word on either side. */
  predicate ImportBetween(s: string, x: string, keyword: string, gap: string, target: string, y: string) {
    && (keyword == "import" || keyword == "from") && gap != "" && AllSpace(gap)
    && s == x + keyword + gap + target + y && EndsWord(x) && StartsNoWord(y)
  }

  ghost predicate ImportStands(s: string, target: string) {
    exists x, keyword, gap, y :: ImportBetween(s, x, keyword, gap, target, y)
  }

  lemma KeywordBoundary(s: string, x: string, keyword: string, rest: string)
    requires s == x + keyword + rest && (keyword == "import" || keyword == "from")
    ensures Boundary(s, |x|) <==> EndsWord(x)
  {
    assert s[|x|] == keyword[0] && IsWordChar(keyword[0]);
    assert x != "" ==> s[|x| - 1] == x[|x| - 1];
  }

  lemma TargetBoundary(s: string, before: string, target: string, y: string)
    requires s == before + target + y && IsSymbol(target)
    ensures Boundary(s, |before| + |target|) <==> StartsNoWord(y)
  {
    assert s[|before| + |target| - 1] == target[|target| - 1];
    assert y != "" ==> s[|before| + |target|] == y[0];
  }

  /** An import phrase is found exactly where it stands. */
  lemma FindsImportIff(s: string, target: string)
    requires IsSymbol(target)
    ensures FindsImport(s, target) <==> ImportStands(s, target)
  {
    hide Boundary;
    hide EndsWord;
    hide StartsNoWord;
    hide IsSymbol;
    if FindsImport(s, target) { FoundStands(s, target); }
    if x, keyword, gap, y :| ImportBetween(s, x, keyword, gap, target, y) { StandsFound(s, x, keyword, gap, target, y); }
  }

  lemma FoundStands(s: string, target: string)
    requires IsSymbol(target) && FindsImport(s, target)
    ensures ImportStands(s, target)
  {
    hide ImportAt;
    var i :| 0 <= i <= |s| && ImportFrom(s, target, i);
    var j :| i <= j <= |s| && ImportAt(s, target, i, j);
    FoundAt(s, target, i, j);
  }

  lemma GapParts(s: string) returns (keyword: string, gap: string)
    requires IsImportGap(s, "import") || IsImportGap(s, "from")
    ensures s == keyword + gap && (keyword == "import" || keyword == "from") && gap != "" && AllSpace(gap)
  {
    keyword := if IsImportGap(s, "import") then "import" else "from";
    gap := s[|keyword|..];
  }

  lemma Cut(s: string, i: nat, j: nat, k: nat)
    requires i <= j <= k <= |s|
    ensures s == s[..i] + s[i..j] + s[j..k] + s[k..]
  {
  }

  lemma Regroup(x: string, keyword: string, gap: string, target: string, y: string)
    ensures x + (keyword + gap) + target + y == x + keyword + (gap + target + y)
    ensures x + (keyword + gap) + target + y == x + keyword + gap + target + y
  {
  }

  lemma ImportOfParts(s: string, x: string, keyword: string, gap: string, target: string, y: string)
    requires s == x + (keyword + gap) + target + y && (keyword == "import" || keyword == "from")
    requires gap != "" && AllSpace(gap) && IsSymbol(target)
    requires Boundary(s, |x|) && Boundary(s, |x + (keyword + gap)| + |target|)
    ensures ImportBetween(s, x, keyword, gap, target, y)
  {
    hide Boundary;
    hide EndsWord;
    hide StartsNoWord;
    hide IsSymbol;
    hide AllSpace;
    Regroup(x, keyword, gap, target, y);
    KeywordBoundary(s, x, keyword, gap + target + y);
    TargetBoundary(s, x + (keyword + gap), target, y);
  }

  lemma FoundAt(s: string, target: string, i: nat, j: nat)
    requires IsSymbol(target) && ImportAt(s, target, i, j)
    ensures ImportStands(s, target)
  {
    hide Boundary;
    hide IsSymbol;
    hide IsImportGap;
    hide AllSpace;
    var keyword, gap := GapParts(s[i..j]);
    var k := j + |target|;
    var x, y := s[..i], s[k..];
    Cut(s, i, j, k);
    ImportOfParts(s, x, keyword, gap, target, y);
    hide ImportBetween;
    assert ImportBetween(s, x, keyword, gap, target, y);
  }

  lemma StandsFound(s: string, x: string, keyword: string, gap: string, target: string, y: string)
    requires IsSymbol(target) && ImportBetween(s, x, keyword, gap, target, y)
    ensures FindsImport(s, target)
  {
    hide Boundary;
    hide EndsWord;
    hide StartsNoWord;
    hide IsSymbol;
    var i, j := |x|, |x| + |keyword| + |gap|;
    assert s == x + keyword + (gap + target + y);
    KeywordBoundary(s, x, keyword, gap + target + y);
    assert s == (x + keyword + gap) + target + y;
    TargetBoundary(s, x + keyword + gap, target, y);
    assert s[i..j] == keyword + gap;
    assert (keyword + gap)[|keyword|..] == gap && keyword < keyword + gap;
    assert s[j..j + |target|] == target;
    assert ImportAt(s, target, i, j);
    assert ImportFrom(s, target, i);
  }

  // ---------------------------------------------------------------- words
  predicate NoSpace(s: string) { forall i :: 0 <= i < |s| ==> !IsSpace(s[i]) }

  lemma {:induction false} TakeWordStops(w: string, rest: string)
    requires NoSpace(w) && (rest == "" || IsSpace(rest[0]))
    ensures TakeWord(w + rest) == w
  {
    if w == "" {
      assert w + rest == rest;
    } else {
      assert (w + rest)[0] == w[0] && (w + rest)[1..] == w[1..] + rest;
      TakeWordStops(w[1..], rest);
      assert w == [w[0]] + w[1..];
    }
  }

  /** Splitting into words: nothing for nothing, white space separates, and a text without white space is one word. */
  lemma WordLaws(w: string, c: char, rest: string)
    requires IsSpace(c) && NoSpace(w)
    ensures Words("") == [] && Words(w) == if w == "" then [] else [w]
    ensures Words(w + [c] + rest) == (if w == "" then [] else [w]) + Words(rest)
  {
    assert Words("") == [];
    var s := w + [c] + rest;
    if w == "" {
      assert s[0] == c && s[1..] == rest;
    } else {
      assert s == w + ([c] + rest) && s[0] == w[0];
      TakeWordStops(w, [c] + rest);
      assert s[|w|..] == [c] + rest;
      assert ([c] + rest)[1..] == rest;
      assert Words([c] + rest) == Words(rest);
      assert w + "" == w;
      TakeWordStops(w, "");
      assert w[|w|..] == "";
    }
  }

  // ---------------------------------------------------------------- the target of a path guard
  /** A target in the form paths are compared in. */
  predicate IsCleanTarget(p: string) {
    Lower(p) == p && '\\' !in p && !StartsWith(p, "./") && (p == "" || p[|p| - 1] != '/')
  }

  lemma {:induction false} TrailingSlashes(p: string, n: nat)
    requires p == "" || p[|p| - 1] != '/'
    ensures RStripChar(p + Slashes(n), '/') == p
  {
    if n == 0 {
      assert p + Slashes(0) == p;
    } else {
      SlashesEnd(n);
      assert p + Slashes(n) == (p + Slashes(n - 1)) + "/";
      assert (p + Slashes(n))[..|p + Slashes(n)| - 1] == p + Slashes(n - 1);
      TrailingSlashes(p, n - 1);
    }
  }

  lemma {:induction false} SlashesEnd(n: nat)
    requires n > 0
    ensures Slashes(n) == Slashes(n - 1) + "/"
  {
    if n > 1 {
      SlashesEnd(n - 1);
      assert "/" + (Slashes(n - 2) + "/") == ("/" + Slashes(n - 2)) + "/";
    } else {
      assert Slashes(0) == "" && Slashes(1) == "/" + "";
    }
  }

  function DotSlashes(n: nat): string { if n == 0 then "" else "./" + DotSlashes(n - 1) }

  lemma {:induction false} LeadingDotSlashes(n: nat, p: string)
    requires !StartsWith(p, "./")
    ensures DropDotSlash(DotSlashes(n) + p) == p
  {
    if n == 0 {
      assert DotSlashes(0) + p == p;
    } else {
      LeadingDotSlashes(n - 1, p);
      assert DotSlashes(n) + p == "./" + (DotSlashes(n - 1) + p);
      assert (DotSlashes(n) + p)[..2] == "./" && (DotSlashes(n) + p)[2..] == DotSlashes(n - 1) + p;
    }
  }

  /** A target is compared without its leading "./"s and trailing slashes, in lower case and with forward slashes: every
      spelling of a clean target is read as that target. */
  lemma TargetSpellings(spelled: string, p: string, dots: nat, slashes: nat)
    requires IsCleanTarget(p) && (p == "." ==> slashes == 0)
    requires ReplaceChar(Lower(spelled), '\\', '/') == DotSlashes(dots) + p + Slashes(slashes)
    ensures CleanForMatch(spelled) == p
  {
    var t := p + Slashes(slashes);
    assert DotSlashes(dots) + p + Slashes(slashes) == DotSlashes(dots) + t;
    assert !StartsWith(t, "./") by { NoDotSlash(p, slashes); }
    LeadingDotSlashes(dots, t);
    TrailingSlashes(p, slashes);
  }

  lemma NoDotSlash(p: string, slashes: nat)
    requires !StartsWith(p, "./") && (p == "." ==> slashes == 0)
    ensures !StartsWith(p + Slashes(slashes), "./")
  {
    var t := p + Slashes(slashes);
    if |p| >= 2 {
      assert t[..2] == p[..2];
    } else if |p| == 1 {
      assert t[0] == p[0];
      if p[0] == '.' { assert p == "." && t == p; }
    } else if slashes > 0 {
      assert t[0] == '/';
    } else {
      assert t == "";
    }
  }
}
