/** What normalising a path means: percent encoding is undone up to three layers deep, and the text returned spells the
    place the path leads to. */
module PathMeaning {
  import opened Wrappers
  import opened PyText
  import opened PathNormalizer

  // ---------------------------------------------------------------- percent encoding
  /** How a character is written: as it is, or as a percent sign and two hex digits of either case. */
  datatype Spelling = Plain | Escaped(upperHi: bool, upperLo: bool)

  const LOWER_HEX := "0123456789abcdef"
  const UPPER_HEX := "0123456789ABCDEF"

  function HexDigit(v: nat, upper: bool): char
    requires v < 16
  {
    if upper then UPPER_HEX[v] else LOWER_HEX[v]
  }

  function EncodeChar(c: char, how: Spelling): string
    requires c < 128 as char
  {
    match how
    case Plain => [c]
    case Escaped(hi, lo) => ['%', HexDigit(c as nat / 16, hi), HexDigit(c as nat % 16, lo)]
  }

  predicate IsAscii(s: string) { forall i :: 0 <= i < |s| ==> s[i] < 128 as char }

  /** Percent signs that stand for themselves are escaped. */
  predicate Encodable(s: string, how: seq<Spelling>) {
    |how| == |s| && IsAscii(s) && forall i :: 0 <= i < |s| && s[i] == '%' ==> how[i].Escaped?
  }

  function EncodeText(s: string, how: seq<Spelling>): string
    requires Encodable(s, how)
  {
    if s == "" then "" else EncodeChar(s[0], how[0]) + EncodeText(s[1..], how[1..])
  }

  lemma HexRoundTrip(v: nat, upper: bool)
    requires v < 16
    ensures IsHex(HexDigit(v, upper)) && HexValue(HexDigit(v, upper)) == v
  {
    assert v in {0, 1, 2, 3, 4, 5, 6, 7, 8, 9, 10, 11, 12, 13, 14, 15};
  }

  lemma EscapeDecodes(c: char, how: Spelling, rest: string)
    requires c < 128 as char && how.Escaped?
    ensures Unquote(EncodeChar(c, how) + rest) == [c] + Unquote(rest)
  {
    var t := EncodeChar(c, how) + rest;
    HexRoundTrip(c as nat / 16, how.upperHi);
    HexRoundTrip(c as nat % 16, how.upperLo);
    assert t[0] == '%' && t[1] == HexDigit(c as nat / 16, how.upperHi) && t[2] == HexDigit(c as nat % 16, how.upperLo);
    assert t[3..] == rest;
    assert DecodedChar(t[1], t[2]) == c;
  }

  /** One round of unquoting undoes one layer of encoding. */
  lemma {:induction false} UnquoteEncode(s: string, how: seq<Spelling>)
    requires Encodable(s, how)
    ensures Unquote(EncodeText(s, how)) == s
  {
    if s != "" {
      UnquoteEncode(s[1..], how[1..]);
      var rest := EncodeText(s[1..], how[1..]);
      if how[0].Plain? {
        assert ([s[0]] + rest)[1..] == rest;
      } else {
        EscapeDecodes(s[0], how[0], rest);
      }
      assert s == [s[0]] + s[1..];
    }
  }

  /** The layer hides something. */
  predicate Hides(how: seq<Spelling>) { exists i | 0 <= i < |how| :: how[i].Escaped? }

  /** The text under layers of encoding, the outermost first; None when some layer cannot be spelled that way. */
  function Layered(s: string, layers: seq<seq<Spelling>>): Option<string> {
    if layers == [] then Some(s)
    else
      match Layered(s, layers[1..])
      case None => None
      case Some(inner) => if Encodable(inner, layers[0]) then Some(EncodeText(inner, layers[0])) else None
  }

  lemma PeelOne(s: string, layers: seq<seq<Spelling>>)
    requires layers != [] && Layered(s, layers).Some?
    ensures Layered(s, layers[1..]) == Some(Unquote(Layered(s, layers).value))
  {
    UnquoteEncode(Layered(s, layers[1..]).value, layers[0]);
  }

  /** Each round of unquoting takes the outermost layer off. */
  lemma {:induction false} PeelLayers(s: string, layers: seq<seq<Spelling>>, k: nat)
    requires Layered(s, layers).Some? && k <= |layers|
    ensures Layered(s, layers[k..]) == Some(Rounds(Layered(s, layers).value, k))
    decreases k
  {
    hide Layered;
    hide Unquote;
    if k == 0 {
      assert layers[0..] == layers;
    } else {
      PeelOne(s, layers);
      PeelLayers(s, layers[1..], k - 1);
      assert layers[1..][k - 1..] == layers[k..];
    }
  }

  lemma {:induction false} RoundsAdd(s: string, a: nat, b: nat)
    ensures Rounds(s, a + b) == Rounds(Rounds(s, a), b)
    decreases a
  {
    if a > 0 { RoundsAdd(Unquote(s), a - 1, b); }
  }

  /** A path encoded no more often than there are rounds gets the answer of the plain path, however it was spelled. */
  lemma EncodedLikePlain(s: string, layers: seq<seq<Spelling>>, maxRounds: nat)
    requires '%' !in s && |layers| <= maxRounds && Layered(s, layers).Some?
    ensures NormalizeSpec(Layered(s, layers).value, maxRounds) == NormalizeSpec(s, maxRounds)
  {
    var text, n := Layered(s, layers).value, |layers|;
    PeelLayers(s, layers, n);
    assert layers[n..] == [];
    RoundsAdd(text, n, maxRounds - n);
    PlainStays(s, maxRounds - n);
    PlainStays(s, maxRounds);
    hide Rounds;
    hide HasEscape;
    hide Traverses;
    hide NormPath;
    assert Rounds(text, maxRounds) == s;
  }

  lemma PlainStays(s: string, n: nat)
    requires '%' !in s
    ensures Rounds(s, n) == s
  {
    UnquoteShortensOrStops(s);
    assert !HasEscape(s);
    RoundsStable(s, n);
  }

  lemma {:induction false} HiddenEscape(s: string, how: seq<Spelling>)
    requires Encodable(s, how) && Hides(how)
    ensures HasEscape(EncodeText(s, how))
  {
    var t := EncodeText(s, how);
    if how[0].Escaped? {
      HexRoundTrip(s[0] as nat / 16, how[0].upperHi);
      HexRoundTrip(s[0] as nat % 16, how[0].upperLo);
      assert EscapeAt(t, 0);
    } else {
      var i :| 0 <= i < |how| && how[i].Escaped?;
      assert how[1..][i - 1].Escaped?;
      HiddenEscape(s[1..], how[1..]);
      var k :| EscapeAt(EncodeText(s[1..], how[1..]), k);
      assert t[1..] == EncodeText(s[1..], how[1..]);
      assert EscapeAt(t, k + 1);
    }
  }

  /** A path encoded more often than there are rounds is refused, when every layer hides something. */
  lemma TooManyLayers(s: string, layers: seq<seq<Spelling>>, maxRounds: nat)
    requires |layers| > maxRounds && Layered(s, layers).Some? && forall how :: how in layers ==> Hides(how)
    ensures NormalizeSpec(Layered(s, layers).value, maxRounds) == Err(Unstable)
  {
    PeelLayers(s, layers, maxRounds);
    var rest := layers[maxRounds..];
    assert rest[0] in layers;
    HiddenEscape(Layered(s, rest[1..]).value, rest[0]);
  }

  // ---------------------------------------------------------------- where a path leads
  /** Following one component from a directory, given by the names that lead to it; above the root is the root. */
  function Follow(dir: seq<string>, c: string): seq<string> {
    if c == "" || c == "." then dir
    else if c == ".." then (if dir == [] then [] else dir[..|dir| - 1])
    else dir + [c]
  }

  function Go(dir: seq<string>, components: seq<string>): seq<string>
    decreases |components|
  {
    if components == [] then dir else Go(Follow(dir, components[0]), components[1..])
  }

  lemma {:induction false} GoConcat(dir: seq<string>, a: seq<string>, b: seq<string>)
    ensures Go(dir, a + b) == Go(Go(dir, a), b)
    decreases |a|
  {
    if a == [] {
      assert a + b == b;
    } else {
      assert (a + b)[1..] == a[1..] + b;
      GoConcat(Follow(dir, a[0]), a[1..], b);
    }
  }

  lemma GoOne(dir: seq<string>, c: string)
    ensures Go(dir, [c]) == Follow(dir, c)
  {
    assert [c][1..] == [];
    assert Go(Follow(dir, c), []) == Follow(dir, c);
  }

  // Resolving keeps where the path leads.
  lemma {:induction false} ResolveGoes(dir: seq<string>, components: seq<string>, rooted: bool, stack: seq<string>)
    requires Settled(stack, rooted) && (forall c :: c in components ==> '/' !in c) && (rooted ==> dir == [])
    ensures Go(dir, Resolve(components, rooted, stack)) == Go(Go(dir, stack), components)
    decreases |components|
  {
    if components != [] {
      var c, rest := components[0], components[1..];
      assert c in components;
      forall x | x in rest ensures x in components {}
      GoOne(dir, c);
      if c == "" || c == "." {
        ResolveGoes(dir, rest, rooted, stack);
      } else if c != ".." || (!rooted && stack == []) || (stack != [] && stack[|stack| - 1] == "..") {
        if stack != [] { assert stack[|stack| - 1] in stack; }
        assert Settled(stack + [c], rooted);
        ResolveGoes(dir, rest, rooted, stack + [c]);
        GoConcat(dir, stack, [c]);
        GoOne(Go(dir, stack), c);
      } else if stack != [] {
        var init, last := stack[..|stack| - 1], stack[|stack| - 1];
        PopSettled(stack, rooted);
        ResolveGoes(dir, rest, rooted, init);
        assert last in stack && stack == init + [last];
        GoConcat(dir, init, [last]);
        GoOne(Go(dir, init), last);
        assert Go(dir, stack) == Go(dir, init) + [last];
        assert Follow(Go(dir, stack), "..") == Go(dir, init);
      } else {
        ResolveGoes(dir, rest, rooted, stack);
      }
    }
  }

  /** Real names lead down. */
  lemma {:induction false} NamesGoDown(dir: seq<string>, names: seq<string>)
    requires forall c :: c in names ==> IsComponent(c) && c != ".."
    ensures Go(dir, names) == dir + names
    decreases |names|
  {
    if names == [] {
      assert dir + names == dir;
    } else {
      assert names[0] in names;
      NamesGoDown(dir + [names[0]], names[1..]);
      assert dir + names == (dir + [names[0]]) + names[1..];
    }
  }

  /** Where a path leads from the root. */
  function Place(path: string): seq<string> { Go([], SplitOn(path, '/')) }

  /** The text that spells a place: its names between slashes, after the leading slashes; "." for nowhere. */
  function Spell(slashes: nat, place: seq<string>): string {
    if slashes == 0 && place == [] then "."
    else (if slashes == 0 then "" else if slashes == 1 then "/" else "//") + Join(place, '/')
  }

  lemma SpellRenders(n: nat, names: seq<string>)
    requires n <= 2 && forall c :: c in names ==> IsComponent(c)
    ensures Render(n, names) == Spell(n, names)
  {
    assert Slashes(0) == "" && Slashes(1) == "/" && Slashes(2) == "//";
    if names != [] {
      JoinStarts(names);
      assert names[0] in names;
    }
  }

  /** One leading slash stands for itself, two as well, and more count as one. */
  lemma LeadingSlashesAre(k: nat, s: string)
    requires s == "" || s[0] != '/'
    ensures LeadingSlashes(Slashes(k) + s) == if k == 0 then 0 else if k == 2 then 2 else 1
  {
    if k <= 2 {
      SlashesLead(k, s);
    } else {
      var p := Slashes(k) + s;
      assert Slashes(k) == "/" + ("/" + ("/" + Slashes(k - 3))) by {
        assert Slashes(k) == "/" + Slashes(k - 1) && Slashes(k - 1) == "/" + Slashes(k - 2);
      }
      assert p[..3] == "///" && p[0] == '/';
    }
  }

  /** A returned path spells, in lower case, the place its decoded text leads to. */
  lemma NormalizedSpellsPlace(raw: string, maxRounds: nat)
    requires NormalizeSpec(raw, maxRounds).Ok?
    ensures var cleaned := Cleaned(raw, maxRounds);
            NormalizeSpec(raw, maxRounds).value == Lower(Spell(LeadingSlashes(cleaned), Place(cleaned)))
  {
    var cleaned := Cleaned(raw, maxRounds);
    var n := LeadingSlashes(cleaned);
    NormalizedNames(raw, maxRounds);
    NamesArePlace(cleaned);
    SpellRenders(n, Names(cleaned));
  }

  lemma NamesArePlace(cleaned: string)
    requires Settled(Names(cleaned), true)
    ensures Names(cleaned) == Place(cleaned)
  {
    hide Resolve;
    SplitNoSeparator(cleaned, '/');
    ResolveGoes([], SplitOn(cleaned, '/'), LeadingSlashes(cleaned) > 0, []);
    assert Go([], []) == [];
    NamesGoDown([], Names(cleaned));
    assert [] + Names(cleaned) == Names(cleaned);
  }

  // ---------------------------------------------------------------- which paths are refused
  /** From some directory the path leads outside of it. */
  ghost predicate LeavesDir(path: string) { exists dir :: !(dir <= Go(dir, SplitOn(path, '/'))) }

  /** The names of an unrooted path begin with dot-dot exactly when the path can lead out. */
  lemma ClimbsIffLeaves(path: string)
    requires LeadingSlashes(path) == 0
    ensures Names(path) != [] && Names(path)[0] == ".." <==> LeavesDir(path)
  {
    var segs, names := SplitOn(path, '/'), Names(path);
    SplitNoSeparator(path, '/');
    ResolveSettles(segs, false, []);
    hide SplitOn;
    hide Names;
    if names != [] && names[0] == ".." {
      var dir := [""];
      UnrootedGoes(dir, path);
      OnlyNames(["dir"], names);
      OutOfEmptyName(names);
    } else {
      forall dir ensures dir <= Go(dir, segs) {
        UnrootedGoes(dir, path);
        forall c | c in names ensures IsComponent(c) && c != ".." {
          var j :| 0 <= j < |names| && names[j] == c;
        }
        NamesGoDown(dir, names);
      }
    }
  }

  lemma UnrootedGoes(dir: seq<string>, path: string)
    requires LeadingSlashes(path) == 0
    ensures Go(dir, Names(path)) == Go(dir, SplitOn(path, '/'))
  {
    SplitNoSeparator(path, '/');
    ResolveGoes(dir, SplitOn(path, '/'), false, []);
    assert Go(dir, []) == dir;
  }

  // A path that begins with dot-dot leads out of a directory whose name is no component.
  lemma OutOfEmptyName(names: seq<string>)
    requires names != [] && names[0] == ".." && forall c :: c in names ==> IsComponent(c)
    ensures !([""] <= Go([""], names))
  {
    assert Follow([""], "..") == [];
    assert Go([""], names) == Go([], names[1..]);
    OnlyNames([], names[1..]);
    var place := Go([], names[1..]);
    forall c | c in place ensures IsComponent(c) { assert c in names; }
    if [""] <= place { assert place[0] in place; }
  }

  lemma {:induction false} OnlyNames(dir: seq<string>, components: seq<string>)
    ensures forall c :: c in Go(dir, components) ==> c in dir || c in components
    decreases |components|
  {
    if components != [] { OnlyNames(Follow(dir, components[0]), components[1..]); }
  }

  /** A path is refused as a traversal exactly when a segment that is neither the first nor the last is a dot-dot, or it
      is rooted and its first name begins with two dots. */
  lemma TraversesIff(s: string)
    ensures var segs := SplitOn(s, '/');
            Traverses(s) <==>
              || (|segs| > 1 && segs[0] == "" && ".." <= segs[1])
              || (exists k :: 0 < k < |segs| - 1 && segs[k] == "..")
  {
    DottedStart(s);
    InnerDotDot(s);
  }

  lemma DottedStart(s: string)
    ensures StartsWith(s, "/..") <==> var segs := SplitOn(s, '/'); |segs| > 1 && segs[0] == "" && ".." <= segs[1]
  {
    if s != "" {
      var t := s[1..];
      FirstSegmentPrefix(t);
      if s[0] == '/' {
        assert s == "/" + t && (StartsWith(s, "/..") <==> StartsWith(t, "..")) by {
          if StartsWith(s, "/..") { assert t[..2] == s[..3][1..]; }
          if StartsWith(t, "..") { assert s[..3] == "/" + t[..2]; }
        }
        if StartsWith(t, "..") { DotsStay(t); }
      } else {
        assert SplitOn(s, '/')[0] != "";
      }
    }
  }

  lemma DotsStay(t: string)
    requires StartsWith(t, "..")
    ensures ".." <= SplitOn(t, '/')[0]
  {
    var u := t[1..];
    assert t[0] == '.' && t[1] == '.' && u[0] == '.';
    assert SplitOn(u, '/')[0] == ['.'] + SplitOn(u[1..], '/')[0];
    assert SplitOn(t, '/')[0] == ['.'] + SplitOn(u, '/')[0];
  }

  lemma InnerDotDot(s: string)
    ensures Contains(s, "/../") <==> var segs := SplitOn(s, '/'); exists k :: 0 < k < |segs| - 1 && segs[k] == ".."
  {
    hide SplitOn;
    hide Join;
    var segs := SplitOn(s, '/');
    if i :| 0 <= i <= |s| && OccursAt(s, "/../", i) { BetweenSlashes(s, i); }
    if k :| 0 < k < |segs| - 1 && segs[k] == ".." {
      JoinSplit(s, '/');
      assert segs == segs[..k] + ([".."] + segs[k + 1..]);
      JoinConcat(segs[..k], [".."] + segs[k + 1..], '/');
      JoinConcat([".."], segs[k + 1..], '/');
      JoinOne("..");
      var x, y := Join(segs[..k], '/'), Join(segs[k + 1..], '/');
      assert s == x + "/../" + y;
      assert s[|x|..|x| + 4] == "/../";
      assert OccursAt(s, "/../", |x|);
    }
  }

  lemma JoinOne(s: string)
    ensures Join([s], '/') == s
  {
  }

  lemma BetweenSlashes(s: string, i: nat)
    requires OccursAt(s, "/../", i)
    ensures exists k :: 0 < k < |SplitOn(s, '/')| - 1 && SplitOn(s, '/')[k] == ".."
  {
    hide SplitOn;
    var x, y := s[..i], s[i + 4..];
    TraversalChars(s, i);
    assert s == x + ['/'] + (".." + ['/'] + y);
    SplitConcat(x, ".." + ['/'] + y, '/');
    SplitConcat("..", y, '/');
    DotDotAlone();
    var k := |SplitOn(x, '/')|;
    assert SplitOn(s, '/')[k] == "..";
  }

  lemma DotDotAlone()
    ensures SplitOn("..", '/') == [".."]
  {
    assert ".."[1..] == "." && "."[1..] == "";
    assert SplitOn("", '/') == [""];
    assert SplitOn(".", '/') == ["."] by { assert [""][1..] == [] && ['.'] + "" == "."; }
    assert ["."][1..] == [] && ['.'] + "." == "..";
  }

  /** Exactly when a path is refused: an escape is left after the rounds; or the decoded text has a dot-dot between two
      others, or begins a rooted path with two dots, or is unrooted and can lead out of the directory it starts from. */
  lemma RefusedIff(raw: string, maxRounds: nat)
    ensures NormalizeSpec(raw, maxRounds) == Err(Unstable) <==> HasEscape(Rounds(raw, maxRounds))
    ensures var cleaned := Cleaned(raw, maxRounds); var segs := SplitOn(cleaned, '/');
            NormalizeSpec(raw, maxRounds) == Err(EscapesRoot) <==>
              && !HasEscape(Rounds(raw, maxRounds))
              && (|| (|segs| > 1 && segs[0] == "" && ".." <= segs[1])
                  || (exists k :: 0 < k < |segs| - 1 && segs[k] == "..")
                  || (LeadingSlashes(cleaned) == 0 && LeavesDir(cleaned)))
  {
    var cleaned := Cleaned(raw, maxRounds);
    TraversesIff(cleaned);
    ClimbsOutIff(cleaned);
    if LeadingSlashes(cleaned) == 0 { ClimbsIffLeaves(cleaned); }
    hide Traverses;
    hide ClimbsOut;
    hide LeavesDir;
    hide SplitOn;
    hide Names;
    hide HasEscape;
    hide Rounds;
  }

  lemma ClimbsOutIff(cleaned: string)
    ensures ClimbsOut(DropDotSlash(NormPath(cleaned))) <==>
              LeadingSlashes(cleaned) == 0 && Names(cleaned) != [] && Names(cleaned)[0] == ".."
  {
    var n, names := LeadingSlashes(cleaned), Names(cleaned);
    SplitNoSeparator(cleaned, '/');
    ResolveSettles(SplitOn(cleaned, '/'), n > 0, []);
    NormPathRenders(cleaned);
    hide Resolve;
    hide SplitOn;
    hide NormPath;
    NoDotSlashLeft(n, names);
    SpellRenders(n, names);
    SpelledClimb(n, names);
  }

  lemma SpelledClimb(n: nat, names: seq<string>)
    requires n <= 2 && Settled(names, n > 0)
    ensures ClimbsOut(Spell(n, names)) <==> n == 0 && names != [] && names[0] == ".."
  {
    var path := Spell(n, names);
    if n > 0 {
      assert path[0] == '/';
      assert "../"[0] == '.' && ".."[0] == '.';
    } else if names != [] {
      JoinStarts(names);
      assert names[0] in names;
      hide Join;
      assert path == Join(names, '/');
      if StartsWith(path, "../") || path == ".." { FirstIsDotDot(names[0], path); }
    }
  }

  lemma FirstIsDotDot(c: string, path: string)
    requires IsComponent(c) && c <= path && (StartsWith(path, "../") || path == "..")
    requires |c| < |path| ==> c + "/" <= path
    ensures c == ".."
  {
    assert path[0] == '.' && path[1] == '.' && (|path| > 2 ==> path[2] == '/');
    assert c[0] == path[0];
    assert |c| < |path| ==> path[|c|] == (c + "/")[|c|];
    assert |c| == 2 ==> c == [c[0]] + [c[1]];
  }

  /** An encoded climb is refused, however it is spelled. */
  lemma EncodedClimbRefused(rest: string, layers: seq<seq<Spelling>>, maxRounds: nat)
    requires '%' !in rest && |layers| <= maxRounds && Layered("../" + rest, layers).Some?
    ensures NormalizeSpec(Layered("../" + rest, layers).value, maxRounds) == Err(EscapesRoot)
  {
    hide Layered;
    hide NormalizeSpec;
    EncodedLikePlain("../" + rest, layers, maxRounds);
    PlainClimbRefused(rest, maxRounds);
  }

  lemma PlainClimbRefused(rest: string, maxRounds: nat)
    requires '%' !in rest
    ensures NormalizeSpec("../" + rest, maxRounds) == Err(EscapesRoot)
  {
    var s := "../" + rest;
    UnquoteShortensOrStops(s);
    RoundsStable(s, maxRounds);
    RefusedIff(s, maxRounds);
    hide NormalizeSpec;
    hide LeavesDir;
    hide HasEscape;
    hide Rounds;
    var r := ReplaceChar(rest, '\\', '/');
    assert ReplaceChar(s, '\\', '/') == "../" + r;
    ClimbLeaves(r);
  }

  lemma ClimbLeaves(r: string)
    ensures LeadingSlashes("../" + r) == 0 && LeavesDir("../" + r)
  {
    var path := "../" + r;
    assert path == ".." + ['/'] + r && path[0] == '.';
    SplitConcat("..", r, '/');
    DotDotAlone();
    SplitNoSeparator(r, '/');
    hide SplitOn;
    var segs := SplitOn(path, '/');
    assert segs[0] == ".." && segs[1..] == SplitOn(r, '/');
    assert Follow(["/"], "..") == [];
    assert Go(["/"], segs) == Go([], segs[1..]);
    OnlyNames([], segs[1..]);
    var place := Go(["/"], segs);
    assert "/"[0] == '/' && '/' in "/";
    assert place != [] ==> place[0] in place;
  }
}
