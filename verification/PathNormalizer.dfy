/** Path normalisation: bounded percent decoding, slash conversion, dot resolution and the traversal check (ASCII). */
module PathNormalizer {
  import opened Wrappers
  import opened PyText

  // ---------------------------------------------------------------- percent decoding
  predicate IsHex(c: char) { '0' <= c <= '9' || 'a' <= c <= 'f' || 'A' <= c <= 'F' }

  function HexValue(c: char): (v: nat)
    requires IsHex(c)
    ensures v < 16
  {
    if c <= '9' then c as nat - '0' as nat else if c <= 'F' then c as nat - 'A' as nat + 10 else c as nat - 'a' as nat + 10
  }

  predicate EscapeAt(s: string, i: int) { 0 <= i && i + 2 < |s| && s[i] == '%' && IsHex(s[i + 1]) && IsHex(s[i + 2]) }

  ghost predicate HasEscape(s: string) { exists i :: EscapeAt(s, i) }

  /** A decoded byte; bytes outside ASCII become the replacement character. */
  function DecodedChar(hi: char, lo: char): char
    requires IsHex(hi) && IsHex(lo)
  {
    var v := 16 * HexValue(hi) + HexValue(lo);
    if v < 128 then v as char else '\U{FFFD}'
  }

  /** One round of unquoting; what a decoded escape yields is not looked at again. */
  function Unquote(s: string): string {
    if s == "" then ""
    else if EscapeAt(s, 0) then [DecodedChar(s[1], s[2])] + Unquote(s[3..])
    else [s[0]] + Unquote(s[1..])
  }

  /** A round strictly shortens the text, or there was no escape and nothing changes. */
  lemma {:induction false} UnquoteShortensOrStops(s: string)
    ensures |Unquote(s)| <= |s|
    ensures HasEscape(s) <==> |Unquote(s)| < |s|
    ensures HasEscape(s) <==> Unquote(s) != s
  {
    if s == "" {
    } else if EscapeAt(s, 0) {
      UnquoteShortensOrStops(s[3..]);
    } else {
      UnquoteShortensOrStops(s[1..]);
      if i :| EscapeAt(s, i) { assert EscapeAt(s[1..], i - 1); }
      if i :| EscapeAt(s[1..], i) { assert EscapeAt(s, i + 1); }
    }
  }

  function Rounds(s: string, n: nat): string
    decreases n
  {
    if n == 0 then s else Rounds(Unquote(s), n - 1)
  }

  lemma {:induction false} RoundsStable(s: string, n: nat)
    requires Unquote(s) == s
    ensures Rounds(s, n) == s
  {
    if n > 0 { RoundsStable(s, n - 1); }
  }

  lemma {:induction false} RoundsSnoc(s: string, n: nat)
    ensures Rounds(s, n + 1) == Unquote(Rounds(s, n))
    decreases n
  {
    if n > 0 { RoundsSnoc(Unquote(s), n - 1); }
  }

  /** The decoding loop: at most maxRounds rounds, each shortening the text, ending in a text without escapes or in None. */
  method DecodeRounds(raw: string, maxRounds: nat) returns (r: Option<string>, rounds: nat)
    ensures rounds <= maxRounds
    ensures r == (if HasEscape(Rounds(raw, maxRounds)) then None else Some(Rounds(raw, maxRounds)))
    ensures |Rounds(raw, maxRounds)| + rounds <= |raw|
  {
    var current := raw;
    rounds := 0;
    while rounds < maxRounds
      invariant rounds <= maxRounds && current == Rounds(raw, rounds)
      invariant |current| + rounds <= |raw|
    {
      var next := Unquote(current);
      UnquoteShortensOrStops(current);
      if next == current {
        StableFromHere(raw, rounds, maxRounds);
        return Some(current), rounds;
      }
      RoundsSnoc(raw, rounds);
      current := next;
      rounds := rounds + 1;
    }
    UnquoteShortensOrStops(current);
    return if Unquote(current) != current then None else Some(current), rounds;
  }

  lemma {:induction false} StableFromHere(s: string, k: nat, n: nat)
    requires k <= n && Unquote(Rounds(s, k)) == Rounds(s, k)
    ensures Rounds(s, n) == Rounds(s, k)
    decreases n
  {
    if k < n {
      StableFromHere(s, k, n - 1);
      RoundsSnoc(s, n - 1);
    }
  }

  // ---------------------------------------------------------------- posixpath.normpath
  function LeadingSlashes(p: string): nat {
    if p == "" || p[0] != '/' then 0 else if StartsWith(p, "//") && !StartsWith(p, "///") then 2 else 1
  }

  /** Resolves empty, dot and dot-dot components against the stack built so far. */
  function Resolve(components: seq<string>, rooted: bool, stack: seq<string>): seq<string>
    decreases |components|
  {
    if components == [] then stack
    else
      var c := components[0];
      if c == "" || c == "." then Resolve(components[1..], rooted, stack)
      else if c != ".." || (!rooted && stack == []) || (stack != [] && stack[|stack| - 1] == "..")
      then Resolve(components[1..], rooted, stack + [c])
      else if stack != [] then Resolve(components[1..], rooted, stack[..|stack| - 1])
      else Resolve(components[1..], rooted, stack)
  }

  function Slashes(n: nat): string { if n == 0 then "" else "/" + Slashes(n - 1) }

  function Render(slashes: nat, components: seq<string>): string {
    var path := Slashes(slashes) + Join(components, '/');
    if path == "" then "." else path
  }

  function NormPath(p: string): string {
    if p == "" then "." else Render(LeadingSlashes(p), Resolve(SplitOn(p, '/'), LeadingSlashes(p) > 0, []))
  }

  function DropDotSlash(p: string): string { if StartsWith(p, "./") then DropDotSlash(p[2..]) else p }

  // ---------------------------------------------------------------- normalize_path
  datatype PathError = Unstable | EscapesRoot

  predicate Traverses(cleaned: string) { StartsWith(cleaned, "/..") || Contains(cleaned, "/../") }

  function Cleaned(raw: string, maxRounds: nat): string { ReplaceChar(Rounds(raw, maxRounds), '\\', '/') }

  predicate ClimbsOut(norm: string) { norm == ".." || StartsWith(norm, "../") }

  ghost function NormalizeSpec(raw: string, maxRounds: nat): Result<string, PathError> {
    if HasEscape(Rounds(raw, maxRounds)) then Err(Unstable)
    else if Traverses(Cleaned(raw, maxRounds)) then Err(EscapesRoot)
    else
      var norm := DropDotSlash(NormPath(Cleaned(raw, maxRounds)));
      if ClimbsOut(norm) then Err(EscapesRoot) else Ok(Lower(norm))
  }

  method NormalizePath(raw: string, maxRounds: nat := 3) returns (r: Result<string, PathError>)
    ensures r == NormalizeSpec(raw, maxRounds)
  {
    var decoded, _ := DecodeRounds(raw, maxRounds);
    if decoded.None? { return Err(Unstable); }
    var cleaned := ReplaceChar(decoded.value, '\\', '/');
    if StartsWith(cleaned, "/..") || Contains(cleaned, "/../") || cleaned == "/.." { return Err(EscapesRoot); }
    var norm := DropDotSlash(NormPath(cleaned));
    if norm == ".." || StartsWith(norm, "../") { return Err(EscapesRoot); }
    return Ok(Lower(norm));
  }

  // ---------------------------------------------------------------- shape of resolved components
  /** A real name: not empty, not a dot, without separator. */
  predicate IsComponent(c: string) { c != "" && c != "." && '/' !in c }

  /** Dot-dots only in front, and none when rooted. */
  ghost predicate Settled(stack: seq<string>, rooted: bool) {
    && (forall c :: c in stack ==> IsComponent(c))
    && (forall i, j :: 0 <= i < j < |stack| && stack[j] == ".." ==> stack[i] == "..")
    && (rooted ==> forall c :: c in stack ==> c != "..")
  }

  lemma PopSettled(stack: seq<string>, rooted: bool)
    requires Settled(stack, rooted) && stack != []
    ensures Settled(stack[..|stack| - 1], rooted)
  {
    var t := stack[..|stack| - 1];
    forall c | c in t ensures c in stack {}
    forall i, j | 0 <= i < j < |t| && t[j] == ".." ensures t[i] == ".." { assert stack[j] == ".." ==> stack[i] == ".."; }
  }

  lemma {:induction false} ResolveSettles(components: seq<string>, rooted: bool, stack: seq<string>)
    requires Settled(stack, rooted) && forall c :: c in components ==> '/' !in c
    ensures Settled(Resolve(components, rooted, stack), rooted)
    ensures forall c :: c in Resolve(components, rooted, stack) ==> c in stack || c in components
    decreases |components|
  {
    if components != [] {
      var c := components[0];
      assert c in components;
      forall x | x in components[1..] ensures x in components {}
      if c == "" || c == "." {
        ResolveSettles(components[1..], rooted, stack);
      } else if c != ".." || (!rooted && stack == []) || (stack != [] && stack[|stack| - 1] == "..") {
        if stack != [] { assert stack[|stack| - 1] in stack; }
        assert Settled(stack + [c], rooted);
        ResolveSettles(components[1..], rooted, stack + [c]);
      } else if stack != [] {
        PopSettled(stack, rooted);
        forall x | x in stack[..|stack| - 1] ensures x in stack {}
        ResolveSettles(components[1..], rooted, stack[..|stack| - 1]);
      } else {
        ResolveSettles(components[1..], rooted, stack);
      }
    }
  }

  function Repeat(s: string, n: nat): seq<string> { if n == 0 then [] else [s] + Repeat(s, n - 1) }

  lemma {:induction false} SplitSlashes(n: nat, s: string)
    ensures SplitOn(Slashes(n) + s, '/') == Repeat("", n) + SplitOn(s, '/')
  {
    if n == 0 {
      assert "" + s == s;
    } else {
      SplitSlashes(n - 1, s);
      assert (Slashes(n) + s)[0] == '/';
      assert (Slashes(n) + s)[1..] == Slashes(n - 1) + s;
    }
  }

  lemma {:induction false} SplitLower(s: string)
    ensures |SplitOn(Lower(s), '/')| == |SplitOn(s, '/')|
    ensures forall i :: 0 <= i < |SplitOn(s, '/')| ==> SplitOn(Lower(s), '/')[i] == Lower(SplitOn(s, '/')[i])
  {
    if s != "" {
      SplitLower(s[1..]);
      assert Lower(s)[1..] == Lower(s[1..]);
      var rest, low := SplitOn(s[1..], '/'), SplitOn(Lower(s[1..]), '/');
      assert Lower([s[0]] + rest[0]) == [LowerChar(s[0])] + Lower(rest[0]);
      if s[0] == '/' {
        assert SplitOn(s, '/') == [""] + rest && SplitOn(Lower(s), '/') == [""] + low;
        hide SplitOn;
        assert forall i :: 0 < i <= |rest| ==> ([""] + rest)[i] == rest[i - 1] && ([""] + low)[i] == low[i - 1];
      } else {
        assert SplitOn(s, '/') == [[s[0]] + rest[0]] + rest[1..];
        assert SplitOn(Lower(s), '/') == [[LowerChar(s[0])] + low[0]] + low[1..];
        hide SplitOn;
        assert forall i :: 0 < i < |rest| ==> ([[s[0]] + rest[0]] + rest[1..])[i] == rest[i];
        assert forall i :: 0 < i < |rest| ==> ([[LowerChar(s[0])] + low[0]] + low[1..])[i] == low[i];
      }
    }
  }

  // What a rendered path splits into, besides the components themselves.
  lemma RenderedSegments(n: nat, components: seq<string>, seg: string)
    requires forall c :: c in components ==> IsComponent(c)
    requires seg in SplitOn(Render(n, components), '/')
    ensures seg in components || seg == "" || seg == "."
  {
    if Slashes(n) + Join(components, '/') == "" {
      assert SplitOn(".", '/') == ["."] by {
        assert "."[1..] == "" && SplitOn("", '/') == [""] && [""][1..] == [] && ['.'] + "" == ".";
      }
    } else {
      SplitSlashes(n, Join(components, '/'));
      if components != [] { SplitJoin(components, '/'); } else { assert SplitOn("", '/') == [""]; }
      RepeatOnly("", n);
    }
  }

  lemma {:induction false} RepeatOnly(s: string, n: nat)
    ensures forall x :: x in Repeat(s, n) ==> x == s
  {
    if n > 0 { RepeatOnly(s, n - 1); }
  }

  lemma JoinStarts(components: seq<string>)
    requires components != []
    ensures components[0] <= Join(components, '/')
    ensures |components| > 1 ==> components[0] + "/" <= Join(components, '/')
    ensures |components| == 1 ==> Join(components, '/') == components[0]
  {
    if |components| > 1 {
      assert Join(components, '/') == components[0] + ['/'] + Join(components[1..], '/');
      assert components[0] + "/" + Join(components[1..], '/') == Join(components, '/');
    }
  }

  /** Dropping "./" does nothing after resolution. */
  lemma NoDotSlashLeft(n: nat, components: seq<string>)
    requires forall c :: c in components ==> IsComponent(c)
    ensures DropDotSlash(Render(n, components)) == Render(n, components)
  {
    if components != [] {
      JoinStarts(components);
      assert components[0] in components;
      if n == 0 { NotDotSlash(components[0], Join(components, '/')); }
    }
    var path := Slashes(n) + Join(components, '/');
    if n == 0 {
      assert path == Join(components, '/');
    } else {
      assert path[0] == '/';
    }
  }

  lemma NotDotSlash(c: string, path: string)
    requires IsComponent(c) && c <= path
    ensures !StartsWith(path, "./")
  {
    if c[0] == '.' { assert |c| > 1 && c[1] in c && path[1] == c[1]; }
  }

  // ---------------------------------------------------------------- escapes stay out
  lemma {:induction false} EscapeInSegment(s: string, i: nat)
    requires EscapeAt(s, i)
    ensures exists seg :: seg in SplitOn(s, '/') && HasEscape(seg)
    decreases |s|
  {
    var rest := SplitOn(s[1..], '/');
    var parts := SplitOn(s, '/');
    if i == 0 {
      EscapeHead(s);
      assert parts[0] in parts;
    } else {
      assert EscapeAt(s[1..], i - 1);
      EscapeInSegment(s[1..], i - 1);
      var seg :| seg in rest && HasEscape(seg);
      if s[0] != '/' {
        if seg == rest[0] {
          var j :| EscapeAt(seg, j);
          assert EscapeAt([s[0]] + rest[0], j + 1);
          assert parts[0] in parts;
        } else {
          assert seg in rest[1..];
          assert seg in parts;
        }
      } else {
        assert seg in parts;
      }
    }
  }

  // An escape at the very front lies inside the first segment.
  lemma EscapeHead(s: string)
    requires EscapeAt(s, 0)
    ensures EscapeAt(SplitOn(s, '/')[0], 0)
  {
    var t := s[1..];
    var u := t[1..];
    var v := u[1..];
    assert s[0] != '/' && t[0] == s[1] && t[0] != '/' && u[0] == s[2] && u[0] != '/';
    assert SplitOn(u, '/')[0] == [u[0]] + SplitOn(v, '/')[0];
    assert SplitOn(t, '/')[0] == [t[0]] + SplitOn(u, '/')[0];
    assert SplitOn(s, '/')[0] == [s[0]] + SplitOn(t, '/')[0];
  }

  lemma {:induction false} SegmentEscapes(s: string, seg: string)
    requires seg in SplitOn(s, '/') && HasEscape(seg)
    ensures HasEscape(s)
  {
    if s != "" {
      var rest := SplitOn(s[1..], '/');
      var i :| EscapeAt(seg, i);
      if s[0] != '/' && seg == SplitOn(s, '/')[0] && seg !in rest {
        assert seg == [s[0]] + rest[0];
        if i > 0 {
          assert EscapeAt(rest[0], i - 1);
          assert rest[0] in rest;
          SegmentEscapes(s[1..], rest[0]);
          var j :| EscapeAt(s[1..], j);
          assert EscapeAt(s, j + 1);
        } else {
          FirstSegmentPrefix(s);
          assert EscapeAt(s, 0);
        }
      } else if seg in rest {
        SegmentEscapes(s[1..], seg);
        var j :| EscapeAt(s[1..], j);
        assert EscapeAt(s, j + 1);
      }
    }
  }

  lemma {:induction false} FirstSegmentPrefix(s: string)
    ensures SplitOn(s, '/')[0] <= s
  {
    if s != "" { FirstSegmentPrefix(s[1..]); }
  }

  lemma LowerKeepsEscapes(s: string)
    ensures HasEscape(Lower(s)) <==> HasEscape(s)
  {
    if i :| EscapeAt(s, i) { assert EscapeAt(Lower(s), i); }
    if i :| EscapeAt(Lower(s), i) { assert EscapeAt(s, i); }
  }

  lemma SlashKeepsEscapes(s: string)
    ensures HasEscape(ReplaceChar(s, '\\', '/')) <==> HasEscape(s)
  {
    if i :| EscapeAt(s, i) { assert EscapeAt(ReplaceChar(s, '\\', '/'), i); }
    if i :| EscapeAt(ReplaceChar(s, '\\', '/'), i) { assert EscapeAt(s, i); }
  }

  // ---------------------------------------------------------------- the result
  ghost predicate IsNormal(r: string) {
    && (forall seg :: seg in SplitOn(r, '/') ==> seg != "..")
    && '\\' !in r && !HasEscape(r) && Lower(r) == r
  }

  /** The names left of a path once dots and dot-dots are resolved. */
  function Names(cleaned: string): seq<string> { Resolve(SplitOn(cleaned, '/'), LeadingSlashes(cleaned) > 0, []) }

  // The pieces a successful normalisation is made of.
  lemma NormalizedNames(raw: string, maxRounds: nat)
    requires NormalizeSpec(raw, maxRounds).Ok?
    ensures var cleaned := Cleaned(raw, maxRounds); var n := LeadingSlashes(cleaned);
            && n <= 2 && Settled(Names(cleaned), true)
            && NormalizeSpec(raw, maxRounds).value == Lower(Render(n, Names(cleaned)))
            && forall c :: c in Names(cleaned) ==> c in SplitOn(cleaned, '/')
  {
    hide Rounds;
    hide Traverses;
    hide HasEscape;
    hide Resolve;
    hide SplitOn;
    hide Render;
    var cleaned := Cleaned(raw, maxRounds);
    var n := LeadingSlashes(cleaned);
    SplitNoSeparator(cleaned, '/');
    ResolveSettles(SplitOn(cleaned, '/'), n > 0, []);
    NormPathRenders(cleaned);
    NoDotSlashLeft(n, Names(cleaned));
    NoClimbNoDotDot(n, Names(cleaned));
  }

  lemma NormalizedParts(raw: string, maxRounds: nat) returns (n: nat, components: seq<string>)
    requires NormalizeSpec(raw, maxRounds).Ok?
    ensures n <= 2 && Settled(components, true)
    ensures NormalizeSpec(raw, maxRounds).value == Lower(Render(n, components))
    ensures forall c :: c in components ==> c in SplitOn(Cleaned(raw, maxRounds), '/')
  {
    hide Names;
    NormalizedNames(raw, maxRounds);
    n, components := LeadingSlashes(Cleaned(raw, maxRounds)), Names(Cleaned(raw, maxRounds));
  }

  lemma NormPathRenders(p: string)
    ensures var n := LeadingSlashes(p); NormPath(p) == Render(n, Resolve(SplitOn(p, '/'), n > 0, []))
  {
    if p == "" {
      assert SplitOn(p, '/') == [""] && [""][1..] == [];
      assert Resolve([""], false, []) == Resolve([], false, []) == [];
    }
  }

  // A settled, unrooted path that does not climb out has no dot-dot at all.
  lemma NoClimbNoDotDot(n: nat, components: seq<string>)
    requires Settled(components, n > 0) && !ClimbsOut(Render(n, components))
    ensures Settled(components, true)
  {
    if components != [] {
      JoinStarts(components);
    }
  }

  /** Every path returned has no dot-dot segment, no backslash and no percent escape left, and is in lower case. */
  lemma NormalizedIsNormal(raw: string, maxRounds: nat)
    requires NormalizeSpec(raw, maxRounds).Ok?
    ensures IsNormal(NormalizeSpec(raw, maxRounds).value)
  {
    hide SplitOn;
    hide Resolve;
    hide Render;
    hide HasEscape;
    hide Rounds;
    hide Traverses;
    hide Join;
    hide Slashes;
    var n, components := NormalizedParts(raw, maxRounds);
    var cleaned := Cleaned(raw, maxRounds);
    CleanedIsClean(raw, maxRounds);
    hide NormalizeSpec;
    hide Cleaned;
    NoDotDotRendered(n, components);
    NoEscapeRendered(cleaned, n, components);
    NoBackslashRendered(cleaned, n, components);
    LowerKeepsEscapes(Render(n, components));
  }

  lemma CleanedIsClean(raw: string, maxRounds: nat)
    requires NormalizeSpec(raw, maxRounds).Ok?
    ensures !HasEscape(Cleaned(raw, maxRounds)) && '\\' !in Cleaned(raw, maxRounds)
  {
    SlashKeepsEscapes(Rounds(raw, maxRounds));
  }

  lemma NoDotDotRendered(n: nat, components: seq<string>)
    requires Settled(components, true)
    ensures forall seg :: seg in SplitOn(Lower(Render(n, components)), '/') ==> seg != ".."
  {
    hide SplitOn;
    var path := Render(n, components);
    hide Render;
    var r := Lower(path);
    SplitLower(path);
    forall seg | seg in SplitOn(r, '/') ensures seg != ".." {
      var i :| 0 <= i < |SplitOn(r, '/')| && SplitOn(r, '/')[i] == seg;
      RenderedSegments(n, components, SplitOn(path, '/')[i]);
    }
  }

  lemma NoEscapeRendered(cleaned: string, n: nat, components: seq<string>)
    requires Settled(components, true) && !HasEscape(cleaned) && forall c :: c in components ==> c in SplitOn(cleaned, '/')
    ensures !HasEscape(Render(n, components))
  {
    hide SplitOn;
    var path := Render(n, components);
    hide Render;
    if i :| EscapeAt(path, i) {
      EscapeInSegment(path, i);
      var seg :| seg in SplitOn(path, '/') && HasEscape(seg);
      RenderedSegments(n, components, seg);
      SegmentEscapes(cleaned, seg);
      assert false;
    }
  }

  lemma NoBackslashRendered(cleaned: string, n: nat, components: seq<string>)
    requires Settled(components, true) && '\\' !in cleaned && forall c :: c in components ==> c in SplitOn(cleaned, '/')
    ensures '\\' !in Lower(Render(n, components))
  {
    SplitNoSeparator(cleaned, '/');
    hide SplitOn;
    var path := Render(n, components);
    hide Render;
    var r := Lower(path);
    if '\\' in r {
      var i :| 0 <= i < |r| && r[i] == '\\';
      assert path[i] == '\\';
      CharInSegment(path, '\\');
      var seg :| seg in SplitOn(path, '/') && '\\' in seg;
      RenderedSegments(n, components, seg);
      assert false;
    }
  }

  lemma {:induction false} CharInSegment(s: string, c: char)
    requires c in s && c != '/'
    ensures exists seg :: seg in SplitOn(s, '/') && c in seg
  {
    var rest, parts := SplitOn(s[1..], '/'), SplitOn(s, '/');
    if s[0] == c {
      assert parts[0] in parts && c in parts[0];
    } else {
      CharInSegment(s[1..], c);
      var seg :| seg in rest && c in seg;
      if s[0] != '/' && seg == rest[0] {
        assert parts[0] in parts && c in parts[0];
      } else {
        assert seg in parts;
      }
    }
  }

  // ---------------------------------------------------------------- normalising twice
  lemma {:induction false} ResolveKeeps(components: seq<string>, rooted: bool, stack: seq<string>)
    requires Settled(stack + components, true)
    ensures Resolve(components, rooted, stack) == stack + components
    decreases |components|
  {
    if components == [] {
      assert stack + components == stack;
    } else {
      assert components[0] in stack + components;
      if stack != [] { assert stack[|stack| - 1] in stack + components; }
      assert (stack + [components[0]]) + components[1..] == stack + components;
      ResolveKeeps(components[1..], rooted, stack + [components[0]]);
    }
  }

  lemma {:induction false} ResolveSkips(n: nat, components: seq<string>, rooted: bool)
    ensures Resolve(Repeat("", n) + components, rooted, []) == Resolve(components, rooted, [])
  {
    if n == 0 {
      assert Repeat("", n) + components == components;
    } else {
      assert (Repeat("", n) + components)[1..] == Repeat("", n - 1) + components;
      ResolveSkips(n - 1, components, rooted);
    }
  }

  /** A rendered path of settled names resolves to itself. */
  lemma NormPathFixed(n: nat, components: seq<string>)
    requires n <= 2 && Settled(components, true)
    ensures NormPath(Render(n, components)) == Render(n, components)
  {
    var path := Render(n, components);
    var join := Join(components, '/');
    if components != [] {
      JoinStarts(components);
      assert components[0] in components;
      SplitJoin(components, '/');
      assert join[0] != '/' by { assert components[0][0] in components[0]; }
      SlashesLead(n, join);
      SplitSlashes(n, join);
      ResolveSkips(n, components, n > 0);
      assert [] + components == components;
      ResolveKeeps(components, n > 0, []);
      assert path == Slashes(n) + join;
    } else if n == 0 {
      assert SplitOn(".", '/') == ["."] by {
        assert "."[1..] == "" && SplitOn("", '/') == [""] && [""][1..] == [] && ['.'] + "" == ".";
      }
      assert ["."][1..] == [];
    } else {
      assert path == Slashes(n) + "";
      SlashesLead(n, "");
      SplitSlashes(n, "");
      ResolveSkips(n, [""], true);
      assert SplitOn("", '/') == [""] && [""][1..] == [];
    }
  }

  lemma SlashesLead(n: nat, s: string)
    requires n <= 2 && (s == "" || s[0] != '/')
    ensures LeadingSlashes(Slashes(n) + s) == n
  {
    var p := Slashes(n) + s;
    assert Slashes(0) == "" && Slashes(1) == "/" && Slashes(2) == "//";
    if n == 0 {
      assert p == s;
    } else if n == 1 {
      assert p[0] == '/' && (s != "" ==> p[1] == s[0]);
      assert !StartsWith(p, "//");
    } else {
      assert p[..2] == "//" && p[0] == '/' && (s != "" ==> p[2] == s[0]);
      assert StartsWith(p, "//") && !StartsWith(p, "///");
    }
  }

  lemma {:induction false} LowerJoin(components: seq<string>)
    ensures Lower(Join(components, '/')) == Join(LowerAll(components), '/')
  {
    if |components| > 1 {
      LowerJoin(components[1..]);
      assert LowerAll(components)[1..] == LowerAll(components[1..]);
      assert Lower(components[0] + ['/'] + Join(components[1..], '/'))
             == Lower(components[0]) + ['/'] + Lower(Join(components[1..], '/'));
    }
  }

  function LowerAll(components: seq<string>): seq<string> {
    seq(|components|, i requires 0 <= i < |components| => Lower(components[i]))
  }

  lemma {:induction false} LowerSlashes(n: nat)
    ensures Lower(Slashes(n)) == Slashes(n)
  {
    if n > 0 { LowerSlashes(n - 1); }
  }

  lemma LowerRender(n: nat, components: seq<string>)
    requires Settled(components, true)
    ensures Lower(Render(n, components)) == Render(n, LowerAll(components))
    ensures Settled(LowerAll(components), true)
  {
    hide IsComponent;
    hide Join;
    hide Slashes;
    LowerJoin(components);
    LowerSlashes(n);
    assert Lower(Slashes(n) + Join(components, '/')) == Lower(Slashes(n)) + Lower(Join(components, '/'));
    forall c | c in LowerAll(components) ensures IsComponent(c) && c != ".." {
      var i :| 0 <= i < |components| && LowerAll(components)[i] == c;
      assert components[i] in components;
      LowerComponent(components[i]);
    }
  }

  lemma LowerComponent(d: string)
    requires IsComponent(d) && d != ".."
    ensures IsComponent(Lower(d)) && Lower(d) != ".."
  {
    var c := Lower(d);
    assert forall j :: 0 <= j < |c| ==> (c[j] == '/' <==> d[j] == '/');
  }

  /** One root slash, and a first name that begins with two dots. */
  predicate FirstNameDotted(cleaned: string) {
    LeadingSlashes(cleaned) == 1 && Names(cleaned) != [] && ".." <= Names(cleaned)[0]
  }

  lemma DottedRender(n: nat, components: seq<string>)
    requires n <= 2 && Settled(components, true)
    ensures StartsWith(Lower(Render(n, components)), "/..")
            <==> n == 1 && components != [] && ".." <= components[0]
  {
    var path := Render(n, components);
    var low := Lower(path);
    assert StartsWith(low, "/..") <==> StartsWith(path, "/..") by {
      assert |path| >= 3 ==> (path[0] == '/' <==> low[0] == '/') && (path[1] == '.' <==> low[1] == '.')
                             && (path[2] == '.' <==> low[2] == '.');
      assert StartsWith(path, "/..") <==> |path| >= 3 && path[0] == '/' && path[1] == '.' && path[2] == '.';
      assert StartsWith(low, "/..") <==> |low| >= 3 && low[0] == '/' && low[1] == '.' && low[2] == '.';
    }
    assert Slashes(0) == "" && Slashes(1) == "/" && Slashes(2) == "//";
    if components != [] {
      var c, j := components[0], Join(components, '/');
      assert c in components && IsComponent(c);
      JoinStarts(components);
      assert j[0] == c[0] && c[0] != '/' by { assert c[0] in c; }
      assert StartsWith(j, "..") <==> ".." <= c by {
        assert |c| == 1 && |components| > 1 ==> j[1] == '/' by {
          if |components| > 1 { assert (c + "/")[|c|] == '/' && j[|c|] == (c + "/")[|c|]; }
        }
        assert |c| == 1 ==> !StartsWith(j, "..");
        assert |c| >= 2 ==> j[1] == c[1];
      }
      assert StartsWith(j, "..") <==> |j| >= 2 && j[0] == '.' && j[1] == '.';
      hide Join;
      if n == 1 {
        assert path == "/" + j && path[1] == j[0] && (|j| >= 2 ==> path[2] == j[1]);
        assert StartsWith(path, "/..") <==> |path| >= 3 && path[0] == '/' && path[1] == '.' && path[2] == '.';
      } else if n == 2 { assert path == "//" + j && path[1] == '/'; } else { assert path == j; }
    } else {
      assert Join(components, '/') == "";
    }
  }

  /** A returned path normalises to itself unless its first name, directly after a single root slash, begins with
      two dots, which is then mistaken for a traversal; equivalently, unless it begins with "/..". */
  lemma NormalizeTwiceIff(raw: string, maxRounds: nat)
    requires NormalizeSpec(raw, maxRounds).Ok?
    ensures var r := NormalizeSpec(raw, maxRounds).value;
            NormalizeSpec(r, maxRounds) == Ok(r) <==> !FirstNameDotted(Cleaned(raw, maxRounds))
    ensures var r := NormalizeSpec(raw, maxRounds).value;
            StartsWith(r, "/..") <==> FirstNameDotted(Cleaned(raw, maxRounds))
  {
    var r := NormalizeSpec(raw, maxRounds).value;
    TwiceByResult(raw, maxRounds);
    hide Names;
    hide NormalizeSpec;
    hide Cleaned;
    hide Render;
    NormalizedNames(raw, maxRounds);
    DottedRender(LeadingSlashes(Cleaned(raw, maxRounds)), Names(Cleaned(raw, maxRounds)));
  }

  lemma TwiceByResult(raw: string, maxRounds: nat)
    requires NormalizeSpec(raw, maxRounds).Ok?
    ensures var r := NormalizeSpec(raw, maxRounds).value;
            NormalizeSpec(r, maxRounds) == Ok(r) <==> !StartsWith(r, "/..")
  {
    var r := NormalizeSpec(raw, maxRounds).value;
    NormalizedIsNormal(raw, maxRounds);
    var n, components := NormalizedParts(raw, maxRounds);
    LowerRender(n, components);
    var names := LowerAll(components);
    NormPathFixed(n, names);
    NoDotSlashLeft(n, names);
    UnquoteShortensOrStops(r);
    RoundsStable(r, maxRounds);
    assert Cleaned(r, maxRounds) == r;
    NoInnerTraversal(r);
    NoClimb(r);
  }

  /** An input it fails for: "/./..x" normalises to "/..x", which is then refused. */
  lemma NormalizeTwiceFails(maxRounds: nat)
    ensures NormalizeSpec("/./..x", maxRounds) == Ok("/..x")
    ensures NormalizeSpec("/..x", maxRounds) == Err(EscapesRoot)
  {
    var raw := "/./..x";
    PlainIsCleaned(raw, maxRounds);
    PlainIsCleaned("/..x", maxRounds);
    DottedRaw(raw);
    hide Rounds;
    hide Resolve;
    hide SplitOn;
    hide HasEscape;
    hide Cleaned;
    assert StartsWith("/..x", "/..") by { assert "/..x"[..3] == "/.."; }
    assert Lower("/..x") == "/..x";
    hide Traverses;
  }

  lemma TraversalChars(s: string, i: nat)
    requires OccursAt(s, "/../", i)
    ensures s[i] == '/' && s[i + 1] == '.' && s[i + 2] == '.' && s[i + 3] == '/'
  {
    var t := s[i..i + 4];
    assert t[0] == s[i] && t[1] == s[i + 1] && t[2] == s[i + 2] && t[3] == s[i + 3];
  }

  lemma DottedRaw(raw: string)
    requires raw == "/./..x"
    ensures !Traverses(raw) && DropDotSlash(NormPath(raw)) == "/..x" && !ClimbsOut("/..x")
  {
    hide Rounds;
    var parts := ["", ".", "..x"];
    assert parts[1..] == [".", "..x"] && parts[1..][1..] == ["..x"] && parts[1..][1..][1..] == [];
    assert SplitOn(raw, '/') == parts by {
      assert Join(parts, '/') == raw;
      SplitJoin(parts, '/');
    }
    assert !Traverses(raw) by {
      forall i | 0 <= i <= |raw| ensures !OccursAt(raw, "/../", i) {
        if OccursAt(raw, "/../", i) { TraversalChars(raw, i); }
      }
      assert raw[2] == '/';
    }
    assert "/..x"[0] == '/';
    hide SplitOn;
    assert Resolve(["..x"], true, []) == Resolve([], true, ["..x"]) == ["..x"];
    assert Resolve(parts, true, []) == Resolve([".", "..x"], true, []) == Resolve(["..x"], true, []);
    assert Slashes(1) == "/" + Slashes(0) && Slashes(0) == "";
    assert NormPath(raw) == "/..x";
  }

  // A text without percent signs and backslashes is left alone by decoding and cleaning.
  lemma PlainIsCleaned(s: string, maxRounds: nat)
    requires '%' !in s && '\\' !in s
    ensures !HasEscape(Rounds(s, maxRounds)) && Cleaned(s, maxRounds) == s
  {
    UnquoteShortensOrStops(s);
    RoundsStable(s, maxRounds);
  }

  lemma NoInnerTraversal(r: string)
    requires forall seg :: seg in SplitOn(r, '/') ==> seg != ".."
    ensures !Contains(r, "/../")
  {
    if i :| 0 <= i <= |r| && OccursAt(r, "/../", i) { DotDotBetween(r, i); }
  }

  lemma {:induction false} DotDotBetween(s: string, i: nat)
    requires i + 4 <= |s| && s[i..i + 4] == "/../"
    ensures ".." in SplitOn(s, '/')
    decreases |s|
  {
    var rest := SplitOn(s[1..], '/');
    if i > 0 {
      assert s[1..][i - 1..i + 3] == s[i..i + 4];
      DotDotBetween(s[1..], i - 1);
      var k :| 0 <= k < |rest| && rest[k] == "..";
      if s[0] != '/' && k == 0 {
        DotDotTail(s[1..], i - 1);
        assert rest[1..] == SplitOn(s, '/')[1..];
      } else if s[0] == '/' {
        assert SplitOn(s, '/')[k + 1] == "..";
      } else {
        assert SplitOn(s, '/')[k] == "..";
      }
    } else {
      assert "../" <= s[1..] by { assert s[i..i + 4][1..] == s[1..][..3]; }
      DotDotHead(s[1..]);
      assert rest[0] in rest;
      assert s[0] == '/';
    }
  }

  lemma DotDotHead(r: string)
    requires "../" <= r || r == ".."
    ensures SplitOn(r, '/')[0] == ".."
  {
    var t := r[1..];
    var u := t[1..];
    assert r[0] == '.' && t[0] == '.' && (u == "" || u[0] == '/');
    assert SplitOn(u, '/')[0] == "";
    assert SplitOn(t, '/')[0] == ".";
  }

  // The segment found sits after a slash, so it is not the first one.
  lemma {:induction false} DotDotTail(s: string, i: nat)
    requires i + 4 <= |s| && s[i..i + 4] == "/../"
    ensures ".." in SplitOn(s, '/')[1..]
    decreases |s|
  {
    var rest := SplitOn(s[1..], '/');
    if i > 0 {
      assert s[1..][i - 1..i + 3] == s[i..i + 4];
      DotDotTail(s[1..], i - 1);
      if s[0] == '/' { assert SplitOn(s, '/')[1..] == rest; assert forall x :: x in rest[1..] ==> x in rest; }
    } else {
      assert "../" <= s[1..] by { assert s[i..i + 4][1..] == s[1..][..3]; }
      DotDotHead(s[1..]);
      assert s[0] == '/';
      assert SplitOn(s, '/')[1..] == rest;
    }
  }

  lemma NoClimb(r: string)
    requires forall seg :: seg in SplitOn(r, '/') ==> seg != ".."
    ensures !ClimbsOut(r)
  {
    if StartsWith(r, "../") || r == ".." { DotDotHead(r); }
    assert SplitOn(r, '/')[0] in SplitOn(r, '/');
  }
}
