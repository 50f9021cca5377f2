/** Compaction of code blocks inside a prompt: matched blocks replaced from the last to the first. */
module ProxyCompaction {
  import opened Wrappers
  import opened CoreContracts
  import opened PyText
  import opened Splice

  /** A matched code block: its span, the optional file header, its language and code. */
  datatype Match = Match(start: nat, stop: nat, filename: string, depthTag: string, lang: string, code: string)

  /** The compactor of one snippet: the code to put back and the tokens saved. */
  type Compactor = (string, string, PrunedDepth) -> (string, int)

  predicate KeepsFull(m: Match) {
    var tag := Upper(Strip(m.depthTag));
    Contains(tag, "FULL") || Contains(tag, "D0")
  }

  function TargetDepth(m: Match): PrunedDepth {
    var tag := Upper(Strip(m.depthTag));
    if Contains(tag, "NOMINAL") || Contains(tag, "D2") then NOMINAL else INTERFACE
  }

  function LangOf(m: Match): string { if m.lang == "" then "python" else m.lang }

  /** What a match asks for: the replacement text and the saving, or nothing. */
  function TaggedPlan(c: Compactor, m: Match): Option<(string, nat)> {
    if KeepsFull(m) then None
    else
      var (code, saved) := c(m.code, LangOf(m), TargetDepth(m));
      if saved <= 0 then None
      else
        var tag := Upper(Strip(m.depthTag));
        var header := "### File: " + Strip(m.filename) + (if tag == "" then "" else " [" + tag + "]");
        Some((header + "\n```" + LangOf(m) + "\n" + code + "\n```", saved))
  }

  function GenericPlan(c: Compactor, m: Match): Option<(string, nat)> {
    var (code, saved) := c(m.code, m.lang, INTERFACE);
    if saved <= 0 then None else Some(("```" + m.lang + "\n" + code + "\n```", saved))
  }

  /** The edits asked for, in document order. */
  function Edits(plan: Match -> Option<(string, nat)>, ms: seq<Match>): seq<Edit<char>> {
    if ms == [] then []
    else
      var rest := Edits(plan, ms[1..]);
      match plan(ms[0])
      case None => rest
      case Some((text, _)) => [Edit(ms[0].start, ms[0].stop, text)] + rest
  }

  function Savings(plan: Match -> Option<(string, nat)>, ms: seq<Match>): nat {
    if ms == [] then 0
    else (match plan(ms[0]) case None => 0 case Some((_, saved)) => saved) + Savings(plan, ms[1..])
  }

  /** Matches of a scan: in order, not overlapping, inside the text. */
  ghost predicate Scanned(ms: seq<Match>, from: nat, n: nat) {
    if ms == [] then from <= n
    else from <= ms[0].start <= ms[0].stop <= n && Scanned(ms[1..], ms[0].stop, n)
  }

  lemma {:induction false} EditsFit(plan: Match -> Option<(string, nat)>, ms: seq<Match>, from: nat, n: nat)
    requires Scanned(ms, from, n)
    ensures Fit(Edits(plan, ms), from, n)
  {
    if ms != [] {
      EditsFit(plan, ms[1..], ms[0].stop, n);
      Lower(Edits(plan, ms[1..]), ms[0].stop, from, n);
    }
  }

  lemma Lower(es: seq<Edit<char>>, mid: nat, from: nat, n: nat)
    requires Fit(es, mid, n) && from <= mid <= n
    ensures Fit(es, from, n)
  {
  }

  lemma {:induction false} EditsSnoc(plan: Match -> Option<(string, nat)>, ms: seq<Match>, i: nat)
    requires i < |ms|
    ensures Edits(plan, ms[i..]) == (match plan(ms[i])
                                     case None => Edits(plan, ms[i + 1..])
                                     case Some((text, _)) =>
                                       [Edit(ms[i].start, ms[i].stop, text)] + Edits(plan, ms[i + 1..]))
    ensures Savings(plan, ms[i..]) == (match plan(ms[i]) case None => 0 case Some((_, saved)) => saved)
                                      + Savings(plan, ms[i + 1..])
  {
    assert ms[i..][0] == ms[i] && ms[i..][1..] == ms[i + 1..];
  }

  lemma {:induction false} ReversedCons(e: Edit<char>, es: seq<Edit<char>>, text: string)
    ensures AssignAll(text, Reversed([e] + es)) == Assign(AssignAll(text, Reversed(es)), e)
  {
    assert ([e] + es)[1..] == es;
    AssignAllAppend(text, Reversed(es), [e]);
    assert [e][1..] == [];
  }

  /** One phase: the loop over the reversed matches, carrying the text and the running total. */
  method CompactPhase(text: string, plan: Match -> Option<(string, nat)>, ms: seq<Match>)
    returns (modified: string, saved: nat)
    requires Scanned(ms, 0, |text|)
    ensures Fit(Edits(plan, ms), 0, |text|)
    ensures modified == Substitute(text, Edits(plan, ms), 0)
    ensures saved == Savings(plan, ms)
  {
    modified, saved := text, 0;
    var i := |ms|;
    while i > 0
      invariant 0 <= i <= |ms|
      invariant modified == AssignAll(text, Reversed(Edits(plan, ms[i..])))
      invariant saved == Savings(plan, ms[i..])
    {
      i := i - 1;
      EditsSnoc(plan, ms, i);
      match plan(ms[i]) {
        case None =>
        case Some((replacement, gain)) =>
          var e := Edit(ms[i].start, ms[i].stop, replacement);
          ReversedCons(e, Edits(plan, ms[i + 1..]), text);
          modified := Assign(modified, e);
          saved := saved + gain;
      }
    }
    assert ms[0..] == ms;
    EditsFit(plan, ms, 0, |text|);
    RightToLeftIsSubstitution(text, Edits(plan, ms));
  }

  function PlanFor(c: Compactor, tagged: seq<Match>): Match -> Option<(string, nat)> {
    if tagged != [] then (m: Match) => TaggedPlan(c, m) else (m: Match) => GenericPlan(c, m)
  }

  /** The compacted prompt is one simultaneous substitution, and the saving is the sum over the replaced blocks. */
  method CompactTextPayload(text: string, c: Compactor, tagged: seq<Match>, generic: seq<Match>)
    returns (modified: string, saved: nat)
    requires Scanned(tagged, 0, |text|) && Scanned(generic, 0, |text|)
    ensures !Contains(text, "```") ==> modified == text && saved == 0
    ensures forall m :: PlanFor(c, tagged)(m) == if tagged == [] then GenericPlan(c, m) else TaggedPlan(c, m)
    ensures Contains(text, "```") ==>
              var plan := PlanFor(c, tagged);
              var ms := if tagged != [] then tagged else generic;
              && Fit(Edits(plan, ms), 0, |text|)
              && modified == Substitute(text, Edits(plan, ms), 0) && saved == Savings(plan, ms)
  {
    if text == "" || !Contains(text, "```") { return text, 0; }
    if tagged != [] {
      modified, saved := CompactPhase(text, PlanFor(c, tagged), tagged);
    } else {
      modified, saved := CompactPhase(text, PlanFor(c, tagged), generic);
    }
  }

  predicate EditAsked(plan: Match -> Option<(string, nat)>, ms: seq<Match>, i: nat, e: Edit<char>) {
    i < |ms| && plan(ms[i]).Some? && e == Edit(ms[i].start, ms[i].stop, plan(ms[i]).value.0)
  }

  /** The edits are exactly those the matches ask for, each over the span of its match. */
  lemma {:induction false} EditsExactly(plan: Match -> Option<(string, nat)>, ms: seq<Match>, e: Edit<char>)
    ensures e in Edits(plan, ms) <==> exists i: nat :: EditAsked(plan, ms, i, e)
  {
    if ms == [] {
      forall i: nat ensures !EditAsked(plan, ms, i, e) {}
    } else {
      EditsExactly(plan, ms[1..], e);
      if i: nat :| EditAsked(plan, ms[1..], i, e) { assert EditAsked(plan, ms, i + 1, e); }
      if i: nat :| EditAsked(plan, ms, i, e) { if i > 0 { assert EditAsked(plan, ms[1..], i - 1, e); } }
      if plan(ms[0]).Some? && e == Edit(ms[0].start, ms[0].stop, plan(ms[0]).value.0) { assert EditAsked(plan, ms, 0, e); }
    }
  }

  /** A block tagged FULL or D0 asks for no edit, so its characters survive in order. */
  lemma {:induction false} FullBlocksUntouched(c: Compactor, ms: seq<Match>, from: nat, n: nat, k: nat, i: nat)
    requires Scanned(ms, from, n) && k < |ms| && KeepsFull(ms[k]) && ms[k].start <= i < ms[k].stop
    ensures Outside(Edits((m: Match) => TaggedPlan(c, m), ms), i)
  {
    var plan := (m: Match) => TaggedPlan(c, m);
    EditsFit(plan, ms[1..], ms[0].stop, n);
    FitIsDisjoint(Edits(plan, ms[1..]), ms[0].stop, n);
    var rest := Edits(plan, ms[1..]);
    if k == 0 {
      assert Edits(plan, ms) == rest;
    } else {
      FullBlocksUntouched(c, ms[1..], ms[0].stop, n, k - 1, i);
      MatchAfter(ms, from, n, k);
      var es := Edits(plan, ms);
      forall j | 0 <= j < |es| ensures i < es[j].start || es[j].stop <= i {
        if plan(ms[0]).Some? && j > 0 { assert es[j] == rest[j - 1]; }
      }
    }
  }

  lemma {:induction false} MatchAfter(ms: seq<Match>, from: nat, n: nat, k: nat)
    requires Scanned(ms, from, n) && 0 < k < |ms|
    ensures ms[0].stop <= ms[k].start
  {
    if k > 1 { MatchAfter(ms[1..], ms[0].stop, n, k - 1); }
  }

  /** Nothing is replaced at a loss: zero saving means the text comes back unchanged. */
  lemma {:induction false} NoSavingNoEdit(c: Compactor, tagged: seq<Match>, ms: seq<Match>)
    ensures Savings(PlanFor(c, tagged), ms) == 0 <==> Edits(PlanFor(c, tagged), ms) == []
  {
    if ms != [] { NoSavingNoEdit(c, tagged, ms[1..]); }
  }

  // ---------------------------------------------------------------- what one block is replaced with
  /** The word stands somewhere in the tag, in any letter case. */
  predicate HasWord(tag: string, word: string) { exists i | 0 <= i <= |tag| :: WordAt(tag, word, i) }

  predicate WordAt(tag: string, word: string, i: nat) { i + |word| <= |tag| && Upper(tag[i..i + |word|]) == word }

  lemma UpperSlice(s: string, i: nat, j: nat)
    requires i <= j <= |s|
    ensures Upper(s)[i..j] == Upper(s[i..j])
  {
  }

  /** Stripping the tag and raising its case does not change which words it has. */
  lemma TagWords(tag: string, word: string)
    requires word != "" && forall i :: 0 <= i < |word| ==> 'A' <= word[i] <= 'Z' || '0' <= word[i] <= '9'
    ensures Contains(Upper(Strip(tag)), word) <==> HasWord(tag, word)
  {
    var left, right := StripIs(tag);
    hide Strip;
    var t := Strip(tag);
    if i :| 0 <= i <= |Upper(t)| && OccursAt(Upper(t), word, i) {
      UpperSlice(t, i, i + |word|);
      Middle(tag, left, t, right, i, i + |word|);
      assert WordAt(tag, word, |left| + i);
    }
    if i :| 0 <= i <= |tag| && WordAt(tag, word, i) {
      WordInside(tag, left, t, right, word, i);
      var j := i - |left|;
      Middle(tag, left, t, right, j, j + |word|);
      UpperSlice(t, j, j + |word|);
      assert OccursAt(Upper(t), word, j);
    }
  }

  lemma Middle(s: string, left: string, t: string, right: string, i: nat, j: nat)
    requires s == left + t + right && i <= j <= |t|
    ensures s[|left| + i..|left| + j] == t[i..j]
  {
  }

  // A word has no white space, so it lies inside what stripping leaves.
  lemma WordInside(tag: string, left: string, t: string, right: string, word: string, i: nat)
    requires tag == left + t + right && AllSpace(left) && AllSpace(right) && WordAt(tag, word, i) && word != ""
    requires forall k :: 0 <= k < |word| ==> 'A' <= word[k] <= 'Z' || '0' <= word[k] <= '9'
    ensures |left| <= i && i + |word| <= |left| + |t|
  {
    var w, last := tag[i..i + |word|], i + |word| - 1;
    assert w[0] == tag[i] && w[|word| - 1] == tag[last];
    assert UpperChar(w[0]) == word[0] && UpperChar(w[|word| - 1]) == word[|word| - 1];
  }

  /** A block stays when its tag says FULL or D0; it is reduced to names when the tag says NOMINAL or D2, and to outlines
      otherwise; letter case and outer white space do not matter. */
  lemma TagDecides(m: Match)
    ensures KeepsFull(m) <==> HasWord(m.depthTag, "FULL") || HasWord(m.depthTag, "D0")
    ensures TargetDepth(m) == if HasWord(m.depthTag, "NOMINAL") || HasWord(m.depthTag, "D2") then NOMINAL else INTERFACE
  {
    TagWords(m.depthTag, "FULL");
    TagWords(m.depthTag, "D0");
    TagWords(m.depthTag, "NOMINAL");
    TagWords(m.depthTag, "D2");
  }

  lemma {:induction false} OneLine(s: string)
    requires '\n' !in s
    ensures SplitOn(s, '\n') == [s]
  {
    assert [s][1..] == [] && Join([s], '\n') == s;
    SplitJoin([s], '\n');
  }

  lemma FencedLines(open: string, code: string)
    requires '\n' !in open
    ensures SplitOn(open + "\n" + code + "\n```", '\n') == [open] + SplitOn(code, '\n') + ["```"]
  {
    hide SplitOn;
    var text := open + "\n" + code + "\n```";
    assert text == open + ['\n'] + (code + ['\n'] + "```");
    SplitConcat(open, code + ['\n'] + "```", '\n');
    SplitConcat(code, "```", '\n');
    OneLine(open);
    OneLine("```");
  }

  /** A generic block is replaced exactly when something is saved, by the same fence around the compacted lines. */
  lemma GenericEditIs(c: Compactor, m: Match)
    requires '\n' !in m.lang
    ensures var (code, saved) := c(m.code, m.lang, INTERFACE); var plan := GenericPlan(c, m);
            && (plan.Some? <==> saved > 0)
            && (plan.Some? ==> plan.value.1 == saved
                               && SplitOn(plan.value.0, '\n') == ["```" + m.lang] + SplitOn(code, '\n') + ["```"])
  {
    var (code, saved) := c(m.code, m.lang, INTERFACE);
    FencedLines("```" + m.lang, code);
  }

  lemma NoNewLine(m: Match)
    requires '\n' !in m.filename && '\n' !in m.depthTag
    ensures '\n' !in Strip(m.filename) && '\n' !in Upper(Strip(m.depthTag))
  {
    var a, b := StripIs(m.filename);
    var x, y := StripIs(m.depthTag);
    hide Strip;
    forall ch | ch in Strip(m.filename) ensures ch in m.filename {}
    forall ch | ch in Strip(m.depthTag) ensures ch in m.depthTag {}
  }

  /** A tagged block is replaced exactly when its tag does not keep it and something is saved: a heading with its file
      and tag, its fence, the lines compacted at the depth the tag asks for, and the end of the fence. */
  lemma TaggedEditIs(c: Compactor, m: Match)
    requires '\n' !in m.filename && '\n' !in m.depthTag && '\n' !in m.lang
    ensures var lang := if m.lang == "" then "python" else m.lang;
            var names := HasWord(m.depthTag, "NOMINAL") || HasWord(m.depthTag, "D2");
            var (code, saved) := c(m.code, lang, if names then NOMINAL else INTERFACE);
            var tag := Strip(m.depthTag);
            var heading := "### File: " + Strip(m.filename) + if tag == "" then "" else " [" + Upper(tag) + "]";
            var plan := TaggedPlan(c, m);
            && (plan.Some? <==> saved > 0 && !HasWord(m.depthTag, "FULL") && !HasWord(m.depthTag, "D0"))
            && (plan.Some? ==> plan.value.1 == saved
                               && SplitOn(plan.value.0, '\n')
                                  == [heading, "```" + lang] + SplitOn(code, '\n') + ["```"])
  {
    TagDecides(m);
    NoNewLine(m);
    hide HasWord;
    hide Strip;
    hide KeepsFull;
    hide TargetDepth;
    hide SplitOn;
    hide Upper;
    var (code, saved) := c(m.code, LangOf(m), TargetDepth(m));
    var tag := Upper(Strip(m.depthTag));
    assert tag == "" <==> Strip(m.depthTag) == "";
    HeadedLines("### File: " + Strip(m.filename) + (if tag == "" then "" else " [" + tag + "]"), LangOf(m), code);
  }

  lemma HeadedLines(heading: string, lang: string, code: string)
    requires '\n' !in heading && '\n' !in lang
    ensures SplitOn(heading + "\n```" + lang + "\n" + code + "\n```", '\n')
            == [heading, "```" + lang] + SplitOn(code, '\n') + ["```"]
  {
    hide SplitOn;
    var rest := "```" + lang + "\n" + code + "\n```";
    FencedLines("```" + lang, code);
    assert heading + "\n```" + lang + "\n" + code + "\n```" == heading + ['\n'] + rest;
    SplitConcat(heading, rest, '\n');
    OneLine(heading);
    assert [heading] + (["```" + lang] + SplitOn(code, '\n') + ["```"])
           == [heading, "```" + lang] + SplitOn(code, '\n') + ["```"];
  }
}
