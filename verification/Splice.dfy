/** Replacing spans of a buffer: the in-place edit from right to left against the simultaneous substitution. */
module Splice {

  /** Replace the elements start..stop of the original buffer by text. */
  datatype Edit<T> = Edit(start: nat, stop: nat, text: seq<T>)

  /** Spans in document order, none overlapping the one before, all between from and n. */
  predicate Fit<T>(edits: seq<Edit<T>>, from: nat, n: nat) {
    if edits == [] then from <= n
    else from <= edits[0].start <= edits[0].stop <= n && Fit(edits[1..], edits[0].stop, n)
  }

  /** The same, pairwise. */
  ghost predicate Disjoint<T>(edits: seq<Edit<T>>, from: nat, n: nat) {
    && from <= n
    && (forall i :: 0 <= i < |edits| ==> from <= edits[i].start <= edits[i].stop <= n)
    && (forall i, j :: 0 <= i < j < |edits| ==> edits[i].stop <= edits[j].start)
  }

  lemma {:induction false} FitIsDisjoint<T>(edits: seq<Edit<T>>, from: nat, n: nat)
    ensures Fit(edits, from, n) <==> Disjoint(edits, from, n)
    decreases |edits|
  {
    if edits != [] {
      var rest := edits[1..];
      FitIsDisjoint(rest, edits[0].stop, n);
      assert forall i :: 0 <= i < |rest| ==> rest[i] == edits[i + 1];
      if Disjoint(edits, from, n) {
        assert Disjoint(rest, edits[0].stop, n);
      }
      if Fit(edits, from, n) {
        forall i, j | 0 <= i < j < |edits| ensures edits[i].stop <= edits[j].start {
          assert edits[j] == rest[j - 1];
          if i > 0 { assert edits[i] == rest[i - 1]; }
        }
        forall i | 0 <= i < |edits| ensures from <= edits[i].start <= edits[i].stop <= n {
          if i > 0 { assert edits[i] == rest[i - 1]; }
        }
      }
    }
  }

  predicate DistinctStarts<T>(edits: seq<Edit<T>>) {
    forall i, j :: 0 <= i < j < |edits| ==> edits[i].start < edits[j].start
  }

  // ---------------------------------------------------------------- the specification
  /** All spans replaced at once, every offset read in the original buffer; from is where copying resumes. */
  function Substitute<T>(src: seq<T>, edits: seq<Edit<T>>, from: nat): seq<T>
    requires Fit(edits, from, |src|)
    decreases |edits|
  {
    if edits == [] then src[from..]
    else src[from..edits[0].start] + (edits[0].text + Substitute(src, edits[1..], edits[0].stop))
  }

  /** How far an original offset moves: growth of the edits that end at or before it. */
  function Shift<T>(edits: seq<Edit<T>>, i: int): int {
    if edits == [] then 0
    else (if edits[0].stop <= i then |edits[0].text| - (edits[0].stop - edits[0].start) else 0) + Shift(edits[1..], i)
  }

  predicate Outside<T>(edits: seq<Edit<T>>, i: int) {
    forall k :: 0 <= k < |edits| ==> i < edits[k].start || edits[k].stop <= i
  }

  lemma {:induction false} ShiftBefore<T>(edits: seq<Edit<T>>, i: int)
    requires forall k :: 0 <= k < |edits| ==> i < edits[k].stop
    ensures Shift(edits, i) == 0
  {
    if edits != [] { ShiftBefore(edits[1..], i); }
  }

  /** Every element outside the spans survives, at its original offset plus the shift. */
  lemma {:induction false} OutsideSurvives<T>(src: seq<T>, edits: seq<Edit<T>>, from: nat, i: nat)
    requires Fit(edits, from, |src|)
    requires from <= i < |src| && Outside(edits, i)
    ensures var out := Substitute(src, edits, from);
            0 <= i + Shift(edits, i) - from < |out| && out[i + Shift(edits, i) - from] == src[i]
    decreases |edits|
  {
    if edits != [] {
      var e := edits[0];
      var rest := Substitute(src, edits[1..], e.stop);
      var head := src[from..e.start];
      assert Substitute(src, edits, from) == head + (e.text + rest);
      if i < e.start {
        FitIsDisjoint(edits, from, |src|);
        ShiftBefore(edits, i);
        hide Substitute;
        hide Shift;
        hide Outside;
        hide Fit;
        assert (head + (e.text + rest))[i - from] == head[i - from] == src[i];
      } else {
        assert forall k :: 0 <= k < |edits| - 1 ==> edits[1..][k] == edits[k + 1];
        assert Shift(edits, i) == |e.text| - (e.stop - e.start) + Shift(edits[1..], i);
        OutsideSurvives(src, edits[1..], e.stop, i);
        hide Substitute;
        hide Shift;
        hide Outside;
        hide Fit;
        AfterBoth(head, e.text, rest, i + Shift(edits[1..], i) - e.stop);
      }
    }
  }

  lemma AfterBoth<T>(a: seq<T>, b: seq<T>, c: seq<T>, j: nat)
    requires j < |c|
    ensures |a| + |b| + j < |a + (b + c)| && (a + (b + c))[|a| + |b| + j] == c[j]
  {}

  /** The survivors keep their order. */
  lemma {:induction false} ShiftKeepsOrder<T>(edits: seq<Edit<T>>, from: nat, n: nat, i: nat, j: nat)
    requires Fit(edits, from, n) && i < j && Outside(edits, i) && Outside(edits, j)
    ensures i + Shift(edits, i) < j + Shift(edits, j)
  {
    if edits != [] {
      var e := edits[0];
      if i < e.start {
        FitIsDisjoint(edits, from, n);
        ShiftBefore(edits, i);
        if j < e.start { ShiftBefore(edits, j); } else { ShiftAtLeast(edits, e.start, n, j); }
      } else {
        ShiftKeepsOrder(edits[1..], e.stop, n, i, j);
      }
    }
  }

  lemma {:induction false} ShiftAtLeast<T>(edits: seq<Edit<T>>, from: nat, n: nat, j: nat)
    requires Fit(edits, from, n) && Outside(edits, j) && from <= j
    ensures from <= j + Shift(edits, j)
    decreases |edits|
  {
    if edits != [] {
      var e := edits[0];
      if j < e.start {
        FitIsDisjoint(edits, from, n);
        ShiftBefore(edits, j);
      } else {
        ShiftAtLeast(edits[1..], e.stop, n, j);
      }
    }
  }

  // Where the text of edit k lands in the output that starts at original offset from.
  function Landing<T>(edits: seq<Edit<T>>, from: nat, n: nat, k: nat): nat
    requires Fit(edits, from, n) && k < |edits|
    decreases k
  {
    var lead := edits[0].start - from;
    if k == 0 then lead else lead + |edits[0].text| + Landing(edits[1..], edits[0].stop, n, k - 1)
  }

  lemma {:induction false} LandingIsShifted<T>(edits: seq<Edit<T>>, from: nat, n: nat, k: nat)
    requires Fit(edits, from, n) && k < |edits|
    ensures Landing(edits, from, n, k) == edits[k].start + Shift(edits[..k], edits[k].start) - from
    decreases k
  {
    if k > 0 {
      FitIsDisjoint(edits, from, n);
      LandingIsShifted(edits[1..], edits[0].stop, n, k - 1);
      assert edits[..k][1..] == edits[1..][..k - 1];
    }
  }

  lemma {:induction false} TextLands<T>(src: seq<T>, edits: seq<Edit<T>>, from: nat, k: nat)
    requires Fit(edits, from, |src|) && k < |edits|
    ensures var out, at := Substitute(src, edits, from), Landing(edits, from, |src|, k);
            at + |edits[k].text| <= |out| && out[at..at + |edits[k].text|] == edits[k].text
    decreases k
  {
    var e := edits[0];
    if k > 0 {
      TextLands(src, edits[1..], e.stop, k - 1);
      var rest, inner := Substitute(src, edits[1..], e.stop), Landing(edits[1..], e.stop, |src|, k - 1);
      Assoc(src[from..e.start], e.text, rest);
      InTail(src[from..e.start] + e.text, rest, inner, inner + |edits[k].text|);
    }
  }

  /** Every replacement text stands where its span was, moved by the edits before it. */
  lemma TextPlaced<T>(src: seq<T>, edits: seq<Edit<T>>, k: nat)
    requires Fit(edits, 0, |src|) && k < |edits|
    ensures var out := Substitute(src, edits, 0);
            var at := edits[k].start + Shift(edits[..k], edits[k].start);
            0 <= at <= at + |edits[k].text| <= |out| && out[at..at + |edits[k].text|] == edits[k].text
  {
    TextLands(src, edits, 0, k);
    LandingIsShifted(edits, 0, |src|, k);
  }

  lemma {:induction false} SubstituteLength<T>(src: seq<T>, edits: seq<Edit<T>>, from: nat)
    requires Fit(edits, from, |src|)
    ensures |Substitute(src, edits, from)| == |src| - from + Shift(edits, |src|)
    decreases |edits|
  {
    if edits != [] {
      SubstituteLength(src, edits[1..], edits[0].stop);
    }
  }

  // ---------------------------------------------------------------- the in-place edit
  function Min(a: nat, b: nat): nat { if a < b then a else b }

  /** Python's buf[s:e] = text, with its clipping of out-of-range bounds. */
  function Assign<T>(buf: seq<T>, e: Edit<T>): seq<T> {
    var lo := Min(e.start, |buf|);
    var hi := Min(e.stop, |buf|);
    buf[..lo] + e.text + buf[if hi < lo then lo else hi..]
  }

  function AssignAll<T>(buf: seq<T>, edits: seq<Edit<T>>): seq<T>
    decreases |edits|
  {
    if edits == [] then buf else AssignAll(Assign(buf, edits[0]), edits[1..])
  }

  function Reversed<T>(s: seq<T>): seq<T> {
    if s == [] then [] else Reversed(s[1..]) + [s[0]]
  }

  lemma {:induction false} AssignAllAppend<T>(buf: seq<T>, a: seq<Edit<T>>, b: seq<Edit<T>>)
    ensures AssignAll(buf, a + b) == AssignAll(AssignAll(buf, a), b)
    decreases |a|
  {
    if a == [] {
      assert a + b == b;
    } else {
      assert (a + b)[1..] == a[1..] + b;
      AssignAllAppend(Assign(buf, a[0]), a[1..], b);
    }
  }

  lemma {:induction false} SubstituteResume<T>(src: seq<T>, edits: seq<Edit<T>>, from: nat)
    requires Fit(edits, from, |src|) && from <= |src|
    ensures Fit(edits, 0, |src|)
    ensures Substitute(src, edits, 0) == src[..from] + Substitute(src, edits, from)
  {
    if edits == [] {
      assert src[0..] == src[..from] + src[from..];
    } else {
      var e := edits[0];
      var tail := e.text + Substitute(src, edits[1..], e.stop);
      assert src[0..e.start] == src[..from] + src[from..e.start];
      Assoc(src[..from], src[from..e.start], tail);
    }
  }

  lemma Assoc<T>(a: seq<T>, b: seq<T>, c: seq<T>)
    ensures (a + b) + c == a + (b + c)
  {
  }

  lemma InTail<T>(lead: seq<T>, rest: seq<T>, i: nat, j: nat)
    requires i <= j <= |rest|
    ensures (lead + rest)[|lead| + i..|lead| + j] == rest[i..j]
  {
  }

  /** Editing in place from the last span to the first equals the simultaneous substitution. */
  lemma {:induction false} RightToLeftIsSubstitution<T>(src: seq<T>, edits: seq<Edit<T>>)
    requires Fit(edits, 0, |src|)
    ensures AssignAll(src, Reversed(edits)) == Substitute(src, edits, 0)
  {
    if edits != [] {
      var e, rest := edits[0], edits[1..];
      SubstituteResume(src, rest, e.stop);
      RightToLeftIsSubstitution(src, rest);
      AssignAllAppend(src, Reversed(rest), [e]);
      var buf := Substitute(src, rest, 0);
      SubstituteLength(src, rest, e.stop);
      assert buf[..e.start] == src[..e.start];
      assert buf[e.stop..] == Substitute(src, rest, e.stop);
      assert AssignAll(buf, [e]) == Assign(buf, e);
    }
  }

  // ---------------------------------------------------------------- the sort before the edit
  /** Python's sorted(edits, key=start, reverse=True): descending, equal keys in their original order. */
  function SortedDesc<T>(edits: seq<Edit<T>>): seq<Edit<T>> {
    if edits == [] then [] else InsertDesc(edits[0], SortedDesc(edits[1..]))
  }

  function InsertDesc<T>(e: Edit<T>, sorted: seq<Edit<T>>): seq<Edit<T>> {
    if sorted == [] || sorted[0].start <= e.start then [e] + sorted
    else [sorted[0]] + InsertDesc(e, sorted[1..])
  }

  predicate Descending<T>(edits: seq<Edit<T>>) {
    forall i, j :: 0 <= i < j < |edits| ==> edits[i].start >= edits[j].start
  }

  lemma {:induction false} InsertDescKeeps<T>(e: Edit<T>, sorted: seq<Edit<T>>)
    ensures multiset(InsertDesc(e, sorted)) == multiset(sorted) + multiset{e}
  {
    if sorted != [] {
      assert sorted == [sorted[0]] + sorted[1..];
      InsertDescKeeps(e, sorted[1..]);
    }
  }

  lemma {:induction false} DescendingCons<T>(x: Edit<T>, r: seq<Edit<T>>)
    requires Descending(r) && forall y :: y in r ==> y.start <= x.start
    ensures Descending([x] + r)
  {
    forall i, j | 0 <= i < j < |r| + 1 ensures ([x] + r)[i].start >= ([x] + r)[j].start {
      assert ([x] + r)[j] == r[j - 1] && r[j - 1] in r;
      if i > 0 { assert ([x] + r)[i] == r[i - 1]; }
    }
  }

  lemma {:induction false} InsertDescSorts<T>(e: Edit<T>, sorted: seq<Edit<T>>)
    requires Descending(sorted)
    ensures Descending(InsertDesc(e, sorted))
  {
    if sorted == [] || sorted[0].start <= e.start {
      assert sorted != [] ==> forall i :: 0 < i < |sorted| ==> sorted[0].start >= sorted[i].start;
      DescendingCons(e, sorted);
    } else {
      var r := InsertDesc(e, sorted[1..]);
      InsertDescSorts(e, sorted[1..]);
      InsertDescKeeps(e, sorted[1..]);
      forall y | y in r ensures y.start <= sorted[0].start {
        assert y in multiset(r);
        assert y == e || y in multiset(sorted[1..]);
      }
      DescendingCons(sorted[0], r);
    }
  }

  /** The result is a descending rearrangement of the input. */
  lemma {:induction false} SortedDescSorts<T>(edits: seq<Edit<T>>)
    ensures Descending(SortedDesc(edits)) && multiset(SortedDesc(edits)) == multiset(edits)
  {
    if edits != [] {
      SortedDescSorts(edits[1..]);
      InsertDescSorts(edits[0], SortedDesc(edits[1..]));
      InsertDescKeeps(edits[0], SortedDesc(edits[1..]));
      assert edits == [edits[0]] + edits[1..];
    }
  }

  lemma {:induction false} InsertBelow<T>(e: Edit<T>, sorted: seq<Edit<T>>)
    requires forall x :: x in sorted ==> e.start < x.start
    ensures InsertDesc(e, sorted) == sorted + [e]
  {
    if sorted != [] {
      assert sorted[0] in sorted;
      InsertBelow(e, sorted[1..]);
    }
  }

  lemma {:induction false} SortReverses<T>(edits: seq<Edit<T>>)
    requires DistinctStarts(edits)
    ensures SortedDesc(edits) == Reversed(edits)
  {
    if edits != [] {
      SortReverses(edits[1..]);
      SortedDescSorts(edits[1..]);
      forall x | x in SortedDesc(edits[1..]) ensures edits[0].start < x.start {
        assert x in multiset(edits[1..]);
      }
      InsertBelow(edits[0], SortedDesc(edits[1..]));
    }
  }

  // ---------------------------------------------------------------- equal starts
  /** How many edits directly before k share its start. When the edits fit, all of them are empty. */
  function EmptiesBefore<T>(edits: seq<Edit<T>>, k: nat): nat
    requires k < |edits|
  {
    if k == 0 || edits[k - 1].start != edits[k].start then 0 else 1 + EmptiesBefore(edits, k - 1)
  }

  function Copies<T>(text: seq<T>, n: nat): (r: seq<T>)
    ensures |r| == n * |text|
  {
    if n == 0 then [] else Copies(text, n - 1) + text
  }

  /** What is left of the copies already inserted before a span and of the span itself, once as many elements as
      the span is wide are dropped. */
  function Leftover<T>(src: seq<T>, edits: seq<Edit<T>>, k: nat): seq<T>
    requires k < |edits| && edits[k].start <= edits[k].stop <= |src|
  {
    var inserted := Copies(edits[k].text, EmptiesBefore(edits, k));
    (inserted + src[edits[k].start..edits[k].stop])[edits[k].stop - edits[k].start..]
  }

  predicate HarmlessAt<T(==)>(src: seq<T>, edits: seq<Edit<T>>, k: nat)
    requires k < |edits|
  {
    edits[k].start < edits[k].stop <= |src| ==>
      Leftover(src, edits, k) == Copies(edits[k].text, EmptiesBefore(edits, k))
  }

  /** Overwriting the copies inserted before each span gives the copies back. */
  predicate Harmless<T(==)>(src: seq<T>, edits: seq<Edit<T>>) {
    forall k :: 0 <= k < |edits| ==> HarmlessAt(src, edits, k)
  }

  predicate OneText<T(==)>(edits: seq<Edit<T>>) { forall i :: 0 <= i < |edits| ==> edits[i].text == edits[0].text }

  /** The length of the leading run of edits with one start. */
  function Run<T>(edits: seq<Edit<T>>): (g: nat)
    requires edits != []
    ensures 1 <= g <= |edits|
  {
    if |edits| > 1 && edits[1].start == edits[0].start then 1 + Run(edits[1..]) else 1
  }

  lemma {:induction false} RunShape<T>(edits: seq<Edit<T>>, from: nat, n: nat)
    requires edits != [] && Fit(edits, from, n)
    ensures var g := Run(edits);
            && (forall i :: 0 <= i < g ==> edits[i].start == edits[0].start)
            && (forall i :: 0 <= i < g - 1 ==> edits[i].stop == edits[i].start)
            && (forall i :: g <= i < |edits| ==> edits[i].start > edits[0].start)
            && Fit(edits[g..], edits[g - 1].stop, n)
    decreases |edits|
  {
    var rest := edits[1..];
    FitIsDisjoint(edits, from, n);
    if |edits| > 1 && edits[1].start == edits[0].start {
      RunShape(rest, edits[0].stop, n);
      assert rest[Run(rest)..] == edits[Run(edits)..];
      forall i | 0 < i < |edits| ensures edits[i] == rest[i - 1] {}
    } else {
      forall i | 1 <= i < |edits| ensures edits[i].start > edits[0].start {
        assert i > 1 ==> edits[1].stop <= edits[i].start;
      }
    }
  }

  lemma {:induction false} RunEmpties<T>(edits: seq<Edit<T>>, k: nat)
    requires k < |edits| && forall i :: 0 <= i <= k ==> edits[i].start == edits[0].start
    ensures EmptiesBefore(edits, k) == k
  {
    if k > 0 { RunEmpties(edits, k - 1); }
  }

  lemma {:induction false} RestEmpties<T>(edits: seq<Edit<T>>, g: nat, i: nat)
    requires 0 < g && g + i < |edits| && edits[g - 1].start != edits[g].start
    ensures EmptiesBefore(edits, g + i) == EmptiesBefore(edits[g..], i)
  {
    if i > 0 { RestEmpties(edits, g, i - 1); }
  }

  lemma SameHarm<T>(src: seq<T>, a: seq<Edit<T>>, i: nat, b: seq<Edit<T>>, k: nat)
    requires i < |a| && k < |b| && a[i] == b[k] && EmptiesBefore(a, i) == EmptiesBefore(b, k)
    ensures HarmlessAt(src, a, i) <==> HarmlessAt(src, b, k)
  {
    hide Copies;
    hide EmptiesBefore;
  }

  lemma RestHarm<T>(src: seq<T>, edits: seq<Edit<T>>, g: nat)
    requires 0 < g <= |edits| && (g < |edits| ==> edits[g - 1].start != edits[g].start)
    ensures Harmless(src, edits[g..]) <==> forall k :: g <= k < |edits| ==> HarmlessAt(src, edits, k)
  {
    hide HarmlessAt;
    var rest := edits[g..];
    forall i | 0 <= i < |rest| ensures HarmlessAt(src, rest, i) <==> HarmlessAt(src, edits, g + i) {
      RestEmpties(edits, g, i);
      SameHarm(src, rest, i, edits, g + i);
    }
    if Harmless(src, rest) {
      forall k | g <= k < |edits| ensures HarmlessAt(src, edits, k) { assert HarmlessAt(src, rest, k - g); }
    }
  }

  /** The condition splits into the leading run's last edit and the rest. */
  lemma HarmlessByRun<T>(src: seq<T>, edits: seq<Edit<T>>)
    requires edits != [] && Fit(edits, 0, |src|)
    ensures Harmless(src, edits) <==> HarmlessAt(src, edits, Run(edits) - 1) && Harmless(src, edits[Run(edits)..])
  {
    hide Fit;
    hide Run;
    hide Leftover;
    hide EmptiesBefore;
    hide Copies;
    var g := Run(edits);
    RunShape(edits, 0, |src|);
    RestHarm(src, edits, g);
    forall k | 0 <= k < g - 1 ensures HarmlessAt(src, edits, k) {}
    hide HarmlessAt;
    if Harmless(src, edits[g..]) && HarmlessAt(src, edits, g - 1) {
      forall k | 0 <= k < |edits| ensures HarmlessAt(src, edits, k) {}
    }
  }

  /** The stable sort moves the leading run, unchanged, behind everything that starts later. */
  lemma {:induction false} RunSortsLast<T>(edits: seq<Edit<T>>, from: nat, n: nat)
    requires edits != [] && Fit(edits, from, n)
    ensures SortedDesc(edits) == SortedDesc(edits[Run(edits)..]) + edits[..Run(edits)]
    decreases |edits|
  {
    var g, rest := Run(edits), edits[1..];
    RunShape(edits, from, n);
    if g == 1 {
      SortedAbove(rest, edits[0]);
      InsertBelow(edits[0], SortedDesc(rest));
      assert edits[..1] == [edits[0]];
    } else {
      RunSortsLast(rest, edits[0].stop, n);
      assert rest[g - 1..] == edits[g..] && edits[..g] == [edits[0]] + rest[..g - 1];
      SortedAbove(edits[g..], edits[0]);
      InsertBefore(edits[0], SortedDesc(edits[g..]), rest[..g - 1]);
    }
  }

  lemma SortedAbove<T>(rest: seq<Edit<T>>, e: Edit<T>)
    requires forall i :: 0 <= i < |rest| ==> rest[i].start > e.start
    ensures forall x :: x in SortedDesc(rest) ==> e.start < x.start
  {
    SortedDescSorts(rest);
    forall x | x in SortedDesc(rest) ensures e.start < x.start { assert x in multiset(rest); }
  }

  lemma {:induction false} InsertBefore<T>(e: Edit<T>, above: seq<Edit<T>>, equal: seq<Edit<T>>)
    requires (forall x :: x in above ==> e.start < x.start) && equal != [] && equal[0].start == e.start
    ensures InsertDesc(e, above + equal) == above + ([e] + equal)
    decreases |above|
  {
    if above == [] {
      assert above + equal == equal;
    } else {
      assert above[0] in above && (above + equal)[1..] == above[1..] + equal;
      InsertBefore(e, above[1..], equal);
    }
  }

  lemma {:induction false} AssignKeepsFront<T>(buf: seq<T>, edits: seq<Edit<T>>, q: nat)
    requires q <= |buf| && forall e :: e in edits ==> q <= e.start
    ensures q <= |AssignAll(buf, edits)| && AssignAll(buf, edits)[..q] == buf[..q]
    decreases |edits|
  {
    if edits != [] {
      assert edits[0] in edits;
      assert Assign(buf, edits[0])[..q] == buf[..q];
      AssignKeepsFront(Assign(buf, edits[0]), edits[1..], q);
    }
  }

  /** Empty edits at one start push copies of the text in front of what stood there. */
  lemma {:induction false} InsertCopies<T>(front: seq<T>, rest: seq<T>, edits: seq<Edit<T>>, text: seq<T>)
    requires forall i :: 0 <= i < |edits| ==> edits[i] == Edit(|front|, |front|, text)
    ensures AssignAll(front + rest, edits) == front + (Copies(text, |edits|) + rest)
    decreases |edits|
  {
    if edits == [] {
      assert Copies(text, 0) + rest == rest;
    } else {
      ReplaceSpan(front, [], rest, text);
      assert [] + rest == rest;
      InsertCopies(front, text + rest, edits[1..], text);
      Assoc(Copies(text, |edits| - 1), text, rest);
    }
  }

  lemma ReplaceSpan<T>(front: seq<T>, gone: seq<T>, rest: seq<T>, text: seq<T>)
    ensures Assign(front + (gone + rest), Edit(|front|, |front| + |gone|, text)) == front + (text + rest)
  {
    var buf := front + (gone + rest);
    assert buf[..|front|] == front && buf[|front| + |gone|..] == rest;
    Assoc(front, text, rest);
  }

  lemma {:induction false} CopiesCommute<T>(text: seq<T>, n: nat)
    ensures Copies(text, n) + text == text + Copies(text, n)
  {
    if n > 0 {
      CopiesCommute(text, n - 1);
      assert Copies(text, n) + text == (text + Copies(text, n - 1)) + text;
    }
  }

  lemma Overwrite<T>(front: seq<T>, inserted: seq<T>, span: seq<T>, back: seq<T>, text: seq<T>)
    ensures Assign(front + (inserted + (span + back)), Edit(|front|, |front| + |span|, text))
            == front + (text + (inserted + span)[|span|..]) + back
  {
    hide Assign;
    var all := inserted + span;
    var gone, left := all[..|span|], all[|span|..];
    assert all == gone + left;
    Assoc(inserted, span, back);
    Assoc(gone, left, back);
    ReplaceSpan(front, gone, left + back, text);
    Assoc(text, left, back);
    Assoc(front, text + left, back);
  }

  /** Edits with one start and one text, all but the last empty. */
  predicate IsRun<T(==)>(group: seq<Edit<T>>, text: seq<T>) {
    && group != []
    && (forall i :: 0 <= i < |group| ==> group[i].text == text && group[i].start == group[0].start)
    && (forall i :: 0 <= i < |group| - 1 ==> group[i].stop == group[i].start)
  }

  /** A whole run in place: its last span overwrites the copies inserted before it. */
  lemma RunInPlace<T>(front: seq<T>, span: seq<T>, back: seq<T>, group: seq<Edit<T>>, text: seq<T>)
    requires IsRun(group, text) && group[|group| - 1] == Edit(|front|, |front| + |span|, text)
    ensures AssignAll(front + (span + back), group)
            == front + (text + (Copies(text, |group| - 1) + span)[|span|..]) + back
  {
    hide Assign;
    hide Copies;
    var j, f := |group| - 1, group[|group| - 1];
    assert group == group[..j] + [f];
    AssignAllAppend(front + (span + back), group[..j], [f]);
    InsertCopies(front, span + back, group[..j], text);
    OneEdit(front + (Copies(text, j) + (span + back)), f);
    hide AssignAll;
    Overwrite(front, Copies(text, j), span, back, text);
  }

  lemma OneEdit<T>(buf: seq<T>, e: Edit<T>)
    ensures AssignAll(buf, [e]) == Assign(buf, e)
  {
    assert [e][1..] == [];
  }

  lemma {:induction false} RunSubstituted<T>(src: seq<T>, edits: seq<Edit<T>>, from: nat, text: seq<T>, g: nat)
    requires Fit(edits, from, |src|) && 1 <= g <= |edits| && Fit(edits[g..], edits[g - 1].stop, |src|)
    requires forall i :: 0 <= i < g ==> edits[i].text == text && edits[i].start == edits[0].start
    requires forall i :: 0 <= i < g - 1 ==> edits[i].stop == edits[i].start
    ensures Substitute(src, edits, from)
            == src[from..edits[0].start] + (Copies(text, g - 1) + text) + Substitute(src, edits[g..], edits[g - 1].stop)
    decreases g
  {
    var s := edits[0].start;
    if g == 1 {
      Assoc(src[from..s], text, Substitute(src, edits[1..], edits[0].stop));
      assert Copies(text, 0) + text == text;
    } else {
      var rest := edits[1..];
      assert rest[g - 1..] == edits[g..];
      RunSubstituted(src, rest, s, text, g - 1);
      CopiesCommute(text, g - 2);
      var tail := Substitute(src, edits[g..], edits[g - 1].stop);
      assert src[s..s] == [];
      assert Substitute(src, rest, s) == Copies(text, g - 1) + tail;
      CopiesCommute(text, g - 1);
      assert src[from..s] + (text + (Copies(text, g - 1) + tail)) == src[from..s] + (text + Copies(text, g - 1)) + tail;
    }
  }

  lemma FrontParts<T>(a: seq<T>, b: seq<T>, s: nat, e: nat)
    requires s <= e <= |a| && e <= |b| && a[..e] == b[..e]
    ensures |b[..s]| == s && |b[s..e]| == e - s && a == b[..s] + (b[s..e] + a[e..])
  {
    assert a == a[..e] + a[e..];
    assert b[..e] == b[..s] + b[s..e];
  }

  lemma RunLengths<T>(src: seq<T>, edits: seq<Edit<T>>, k: nat)
    requires k < |edits| && edits[k].start <= edits[k].stop <= |src| && EmptiesBefore(edits, k) == k
    ensures |Leftover(src, edits, k)| == |Copies(edits[k].text, k)|
  {
    hide EmptiesBefore;
  }

  lemma StepEquation<T>(src: seq<T>, buf: seq<T>, x: seq<T>, y: seq<T>, z: seq<T>, c: seq<T>, s: nat, e: nat,
                        text: seq<T>, left: seq<T>, inserted: seq<T>)
    requires s <= e <= |src| && e <= |buf| && buf[..e] == src[..e]
    requires x == src[..s] + (text + left) + buf[e..]
    requires y == src[..s] + (inserted + text) + c && z == src[..e] + c
    requires |left| == |inserted| && inserted + text == text + inserted
    ensures x == y <==> left == inserted && buf == z
  {
    RunEquation(src[..s], src[s..e], text, left, inserted, buf[e..], c);
    assert src[..e] == src[..s] + src[s..e];
    assert buf == src[..e] + buf[e..];
  }

  lemma RunEquation<T>(front: seq<T>, span: seq<T>, text: seq<T>, left: seq<T>, inserted: seq<T>, b: seq<T>, c: seq<T>)
    requires |left| == |inserted| && inserted + text == text + inserted
    ensures front + (text + left) + b == front + (inserted + text) + c
            <==> left == inserted && front + span + b == front + span + c
  {
    PiecesEqualIff(front, text + left, text + inserted, b, c);
    FrontEqualIff(text, left, inserted);
    FrontEqualIff(front + span, b, c);
  }

  lemma LastHarm<T>(src: seq<T>, edits: seq<Edit<T>>, k: nat)
    requires k < |edits| && edits[k].start <= edits[k].stop <= |src| && EmptiesBefore(edits, k) == k
    ensures HarmlessAt(src, edits, k) <==> Leftover(src, edits, k) == Copies(edits[k].text, k)
  {
    hide EmptiesBefore;
    var f, inserted := edits[k], Copies(edits[k].text, k);
    if f.start == f.stop { assert (inserted + src[f.start..f.stop])[0..] == inserted; }
  }

  lemma RunGroup<T>(src: seq<T>, edits: seq<Edit<T>>)
    requires edits != [] && Fit(edits, 0, |src|) && OneText(edits)
    ensures var g := Run(edits); var group := edits[..g];
            && EmptiesBefore(edits, g - 1) == g - 1
            && group[|group| - 1] == edits[g - 1] && IsRun(group, edits[g - 1].text)
  {
    hide Fit;
    hide Run;
    RunShape(edits, 0, |src|);
    RunEmpties(edits, Run(edits) - 1);
  }

  /** The leading run in place, on a buffer whose front is still the source. */
  lemma RunEdited<T>(src: seq<T>, edits: seq<Edit<T>>, buf: seq<T>)
    requires edits != [] && Fit(edits, 0, |src|) && OneText(edits)
    requires var f := edits[Run(edits) - 1]; f.start <= f.stop <= |src| && f.stop <= |buf| && buf[..f.stop] == src[..f.stop]
    ensures var g := Run(edits); var f := edits[g - 1];
            && EmptiesBefore(edits, g - 1) == g - 1
            && AssignAll(buf, edits[..g]) == src[..f.start] + (f.text + Leftover(src, edits, g - 1)) + buf[f.stop..]
  {
    hide EmptiesBefore;
    hide Fit;
    hide Run;
    hide AssignAll;
    hide Copies;
    var g := Run(edits);
    var f, group := edits[g - 1], edits[..g];
    RunGroup(src, edits);
    FrontParts(buf, src, f.start, f.stop);
    LeftoverIs(src, edits, g - 1);
    hide OneText;
    hide Leftover;
    hide IsRun;
    RunInPlace(src[..f.start], src[f.start..f.stop], buf[f.stop..], group, f.text);
  }

  lemma LeftoverIs<T>(src: seq<T>, edits: seq<Edit<T>>, k: nat)
    requires k < |edits| && edits[k].start <= edits[k].stop <= |src| && EmptiesBefore(edits, k) == k
    ensures var f := edits[k];
            Leftover(src, edits, k) == (Copies(f.text, k) + src[f.start..f.stop])[f.stop - f.start..]
  {
    hide Copies;
    hide EmptiesBefore;
  }

  lemma RunReplaced<T>(src: seq<T>, edits: seq<Edit<T>>)
    requires edits != [] && Fit(edits, 0, |src|) && OneText(edits)
    ensures var g := Run(edits); var f := edits[g - 1];
            && f.start <= f.stop <= |src| && Fit(edits[g..], f.stop, |src|) && Fit(edits[g..], 0, |src|)
            && Substitute(src, edits, 0) == src[..f.start] + (Copies(f.text, g - 1) + f.text) + Substitute(src, edits[g..], f.stop)
            && Substitute(src, edits[g..], 0) == src[..f.stop] + Substitute(src, edits[g..], f.stop)
  {
    var g := Run(edits);
    var f := edits[g - 1];
    RunShape(edits, 0, |src|);
    FitIsDisjoint(edits, 0, |src|);
    hide Run;
    RunSubstituted(src, edits, 0, f.text, g);
    SubstituteResume(src, edits[g..], f.stop);
    assert src[0..f.start] == src[..f.start];
  }

  /** One run on top of a buffer whose front is still the source. */
  lemma RunStep<T>(src: seq<T>, edits: seq<Edit<T>>, buf: seq<T>)
    requires edits != [] && Fit(edits, 0, |src|) && OneText(edits)
    requires var f := edits[Run(edits) - 1]; f.stop <= |src| && f.stop <= |buf| && buf[..f.stop] == src[..f.stop]
    ensures Fit(edits[Run(edits)..], 0, |src|)
    ensures AssignAll(buf, edits[..Run(edits)]) == Substitute(src, edits, 0)
            <==> HarmlessAt(src, edits, Run(edits) - 1) && buf == Substitute(src, edits[Run(edits)..], 0)
  {
    hide Fit;
    hide Run;
    hide Substitute;
    hide AssignAll;
    hide HarmlessAt;
    hide EmptiesBefore;
    hide OneText;
    hide Leftover;
    hide Copies;
    RunReplaced(src, edits);
    RunEdited(src, edits, buf);
    var g, f := Run(edits), edits[Run(edits) - 1];
    LastHarm(src, edits, g - 1);
    RunLengths(src, edits, g - 1);
    CopiesCommute(f.text, g - 1);
    StepEquation(src, buf, AssignAll(buf, edits[..g]), Substitute(src, edits, 0), Substitute(src, edits[g..], 0),
                 Substitute(src, edits[g..], f.stop), f.start, f.stop, f.text, Leftover(src, edits, g - 1),
                 Copies(f.text, g - 1));
  }

  /** With one replacement text, sorting and editing in place is the simultaneous substitution exactly when the
      copies inserted before a span survive being overwritten by it. */
  lemma {:induction false} SpliceIsSubstitutionIff<T>(src: seq<T>, edits: seq<Edit<T>>)
    requires Fit(edits, 0, |src|) && OneText(edits)
    ensures AssignAll(src, SortedDesc(edits)) == Substitute(src, edits, 0) <==> Harmless(src, edits)
    decreases |edits|
  {
    if edits != [] {
      var g := Run(edits);
      var rest := edits[g..];
      HarmlessByRun(src, edits);
      RunSortsLast(edits, 0, |src|);
      AssignAllAppend(src, SortedDesc(rest), edits[..g]);
      RestKeepsFront(src, edits);
      RunStep(src, edits, AssignAll(src, SortedDesc(rest)));
      forall i | 0 <= i < |rest| ensures rest[i].text == rest[0].text { assert rest[i] == edits[g + i]; }
      SpliceIsSubstitutionIff(src, rest);
    }
  }

  lemma RestKeepsFront<T>(src: seq<T>, edits: seq<Edit<T>>)
    requires edits != [] && Fit(edits, 0, |src|)
    ensures var f := edits[Run(edits) - 1]; var buf := AssignAll(src, SortedDesc(edits[Run(edits)..]));
            f.stop <= |src| && f.stop <= |buf| && buf[..f.stop] == src[..f.stop]
  {
    var g, rest := Run(edits), edits[Run(edits)..];
    RunShape(edits, 0, |src|);
    FitIsDisjoint(edits, 0, |src|);
    FitIsDisjoint(rest, edits[g - 1].stop, |src|);
    SortedDescSorts(rest);
    forall e | e in SortedDesc(rest) ensures edits[g - 1].stop <= e.start { assert e in multiset(rest); }
    AssignKeepsFront(src, SortedDesc(rest), edits[g - 1].stop);
  }

  lemma FrontEqualIff<T>(a: seq<T>, x: seq<T>, y: seq<T>)
    ensures a + x == a + y <==> x == y
  {
    assert (a + x)[|a|..] == x && (a + y)[|a|..] == y;
  }

  lemma PiecesEqualIff<T>(a: seq<T>, x: seq<T>, y: seq<T>, b: seq<T>, c: seq<T>)
    requires |x| == |y|
    ensures a + x + b == a + y + c <==> x == y && b == c
  {
    assert (a + x + b)[|a|..|a| + |x|] == x && (a + y + c)[|a|..|a| + |y|] == y;
    assert (a + x + b)[|a| + |x|..] == b && (a + y + c)[|a| + |y|..] == c;
  }

  /** No empty edit shares its start with a non-empty one. */
  predicate EmptiesApart<T>(edits: seq<Edit<T>>) {
    forall i, j :: 0 <= i < j < |edits| && edits[i].start == edits[j].start ==> edits[j].start == edits[j].stop
  }

  /** For every source of the length, and a text that is not empty, the condition is that no empty edit shares its
      start with a non-empty one. */
  lemma HarmlessForEverySourceIff<T>(edits: seq<Edit<T>>, n: nat, a: T, b: T)
    requires Fit(edits, 0, n) && OneText(edits) && a != b && forall e :: e in edits ==> e.text != []
    ensures (forall src: seq<T> :: |src| == n ==> Harmless(src, edits)) <==> EmptiesApart(edits)
  {
    FitIsDisjoint(edits, 0, n);
    if EmptiesApart(edits) {
      forall src: seq<T> | |src| == n ensures Harmless(src, edits) { ApartIsHarmless(src, edits); }
    } else {
      var i, j :| 0 <= i < j < |edits| && edits[i].start == edits[j].start && edits[j].start != edits[j].stop;
      var text := edits[j].text;
      assert edits[j] in edits;
      var c := if text[|text| - 1] == a then b else a;
      var src := seq(n, x => c);
      FilledIsHarmful(src, edits, i, j, c);
    }
  }

  lemma ApartIsHarmless<T>(src: seq<T>, edits: seq<Edit<T>>)
    requires EmptiesApart(edits)
    ensures Harmless(src, edits)
  {
    forall k | 0 <= k < |edits| ensures HarmlessAt(src, edits, k) {
      if edits[k].start < edits[k].stop <= |src| {
        assert EmptiesBefore(edits, k) == 0;
        assert Copies(edits[k].text, 0) == [];
      }
    }
  }

  lemma FilledIsHarmful<T>(src: seq<T>, edits: seq<Edit<T>>, i: nat, j: nat, c: T)
    requires Fit(edits, 0, |src|) && i < j < |edits| && edits[i].start == edits[j].start < edits[j].stop
    requires edits[j].text != [] && c != edits[j].text[|edits[j].text| - 1] && forall x :: x in src ==> x == c
    ensures !Harmless(src, edits)
  {
    FitIsDisjoint(edits, 0, |src|);
    var text, s, e := edits[j].text, edits[j].start, edits[j].stop;
    assert edits[j - 1].start == s by {
      if i < j - 1 { assert edits[i].stop <= edits[j - 1].start <= edits[j - 1].stop <= edits[j].start; }
    }
    var m := EmptiesBefore(edits, j);
    var inserted := Copies(text, m);
    assert m > 0 && inserted == Copies(text, m - 1) + text;
    assert |inserted| > 0 && inserted[|inserted| - 1] == text[|text| - 1];
    var left := Leftover(src, edits, j);
    assert left[|left| - 1] == src[e - 1];
    assert src[e - 1] in src;
    assert !HarmlessAt(src, edits, j);
  }

  /** The loop over the sorted replacements, editing one buffer. With one replacement text it is the substitution
      exactly under the condition above; with different starts it always is. */
  method SpliceAll<T(==)>(src: seq<T>, replacements: seq<Edit<T>>) returns (buf: seq<T>)
    ensures buf == AssignAll(src, SortedDesc(replacements))
    ensures Fit(replacements, 0, |src|) && OneText(replacements)
            ==> (buf == Substitute(src, replacements, 0) <==> Harmless(src, replacements))
    ensures Fit(replacements, 0, |src|) && DistinctStarts(replacements)
            ==> buf == Substitute(src, replacements, 0)
  {
    buf := src;
    var order := SortedDesc(replacements);
    for i := 0 to |order|
      invariant AssignAll(src, order) == AssignAll(buf, order[i..])
    {
      assert order[i..][1..] == order[i + 1..];
      buf := Assign(buf, order[i]);
    }
    if Fit(replacements, 0, |src|) && OneText(replacements) { SpliceIsSubstitutionIff(src, replacements); }
    if Fit(replacements, 0, |src|) && DistinctStarts(replacements) {
      SortReverses(replacements);
      RightToLeftIsSubstitution(src, replacements);
    }
  }
}
