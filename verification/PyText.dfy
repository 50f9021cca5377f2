/** The text operations of Python's str that the modelled code uses, over ASCII. */
module PyText {

  predicate IsSpace(c: char) {
    c == ' ' || '\t' <= c <= '\r' || 28 as char <= c <= 31 as char
  }

  function LStrip(s: string): string {
    if s != "" && IsSpace(s[0]) then LStrip(s[1..]) else s
  }

  function RStrip(s: string): string {
    if s != "" && IsSpace(s[|s| - 1]) then RStrip(s[..|s| - 1]) else s
  }

  function Strip(s: string): string { RStrip(LStrip(s)) }

  function RStripChar(s: string, c: char): string {
    if s != "" && s[|s| - 1] == c then RStripChar(s[..|s| - 1], c) else s
  }

  predicate HasOuterSpace(s: string) { s != "" && (IsSpace(s[0]) || IsSpace(s[|s| - 1])) }

  lemma StripIdentity(s: string)
    ensures Strip(s) == s <==> !HasOuterSpace(s)
    ensures |Strip(s)| <= |s|
  {
    LStripShape(s);
    RStripShape(LStrip(s));
  }

  lemma {:induction false} LStripShape(s: string)
    ensures |LStrip(s)| <= |s|
    ensures LStrip(s) == s <==> s == "" || !IsSpace(s[0])
    ensures LStrip(s) != "" ==> !IsSpace(LStrip(s)[0])
    ensures LStrip(s) == s[|s| - |LStrip(s)|..]
  {
    if s != "" && IsSpace(s[0]) { LStripShape(s[1..]); }
  }

  lemma {:induction false} RStripShape(s: string)
    ensures |RStrip(s)| <= |s|
    ensures RStrip(s) == s <==> s == "" || !IsSpace(s[|s| - 1])
    ensures RStrip(s) != "" ==> !IsSpace(RStrip(s)[|RStrip(s)| - 1])
    ensures RStrip(s) == s[..|RStrip(s)|]
  {
    if s != "" && IsSpace(s[|s| - 1]) { RStripShape(s[..|s| - 1]); }
  }

  predicate AllSpace(s: string) { forall i :: 0 <= i < |s| ==> IsSpace(s[i]) }

  lemma {:induction false} LeftIsSpace(s: string)
    ensures |LStrip(s)| <= |s| && forall i :: 0 <= i < |s| - |LStrip(s)| ==> IsSpace(s[i])
  {
    if s != "" && IsSpace(s[0]) {
      LeftIsSpace(s[1..]);
      forall i | 0 < i < |s| - |LStrip(s)| ensures IsSpace(s[i]) { assert s[1..][i - 1] == s[i]; }
    }
  }

  lemma {:induction false} RightIsSpace(s: string)
    ensures |RStrip(s)| <= |s| && forall i :: |RStrip(s)| <= i < |s| ==> IsSpace(s[i])
  {
    if s != "" && IsSpace(s[|s| - 1]) {
      var t := s[..|s| - 1];
      RightIsSpace(t);
      forall i | |RStrip(s)| <= i < |t| ensures IsSpace(s[i]) { assert t[i] == s[i]; }
    }
  }

  /** Stripping takes white space off both ends and nothing else. */
  lemma StripIs(s: string) returns (left: string, right: string)
    ensures s == left + Strip(s) + right && AllSpace(left) && AllSpace(right) && !HasOuterSpace(Strip(s))
  {
    var t := LStrip(s);
    LeftIsSpace(s);
    LStripShape(s);
    RightIsSpace(t);
    RStripShape(t);
    var r := RStrip(t);
    assert Strip(s) == r;
    hide LStrip;
    hide RStrip;
    hide IsSpace;
    left, right := s[..|s| - |t|], t[|r|..];
    Rejoin(s, left, t, r, right);
    if r != "" { assert r[0] == t[0]; }
  }

  lemma Rejoin(s: string, left: string, t: string, r: string, right: string)
    requires s == left + t && t == r + right
    ensures s == left + r + right
  {
  }

  /** ASCII letters move between the two cases, thirty-two apart; nothing else changes. */
  lemma CaseLaws(s: string)
    ensures forall i :: 0 <= i < |s| ==>
              && Lower(s)[i] as int == s[i] as int + (if 'A' <= s[i] <= 'Z' then 32 else 0)
              && Upper(s)[i] as int == s[i] as int - (if 'a' <= s[i] <= 'z' then 32 else 0)
    ensures Lower(Upper(s)) == Lower(s) && Upper(Lower(s)) == Upper(s)
  {
  }

  function LowerChar(c: char): char { if 'A' <= c <= 'Z' then c - 'A' + 'a' else c }

  function UpperChar(c: char): char { if 'a' <= c <= 'z' then c - 'a' + 'A' else c }

  function Lower(s: string): (r: string)
    ensures |r| == |s| && forall i :: 0 <= i < |s| ==> r[i] == LowerChar(s[i])
  {
    seq(|s|, i requires 0 <= i < |s| => LowerChar(s[i]))
  }

  function Upper(s: string): (r: string)
    ensures |r| == |s| && forall i :: 0 <= i < |s| ==> r[i] == UpperChar(s[i])
  {
    seq(|s|, i requires 0 <= i < |s| => UpperChar(s[i]))
  }

  function ReplaceChar(s: string, c: char, d: char): (r: string)
    ensures |r| == |s| && forall i :: 0 <= i < |s| ==> r[i] == if s[i] == c then d else s[i]
  {
    seq(|s|, i requires 0 <= i < |s| => if s[i] == c then d else s[i])
  }

  predicate OccursAt(s: string, sub: string, i: nat) { i + |sub| <= |s| && s[i..i + |sub|] == sub }

  /** Python's `sub in s`. */
  predicate Contains(s: string, sub: string) { exists i | 0 <= i <= |s| :: OccursAt(s, sub, i) }

  predicate StartsWith(s: string, p: string) { p <= s }

  predicate EndsWith(s: string, p: string) { |p| <= |s| && s[|s| - |p|..] == p }

  /** Python's s.split(c) for a one-character separator: always at least one part. */
  function SplitOn(s: string, c: char): (parts: seq<string>)
    ensures |parts| >= 1
  {
    if s == "" then [""]
    else
      var rest := SplitOn(s[1..], c);
      if s[0] == c then [""] + rest else [[s[0]] + rest[0]] + rest[1..]
  }

  /** Python's c.join(parts). */
  function Join(parts: seq<string>, c: char): string {
    if parts == [] then "" else if |parts| == 1 then parts[0] else parts[0] + [c] + Join(parts[1..], c)
  }

  lemma {:induction false} JoinSplit(s: string, c: char)
    ensures Join(SplitOn(s, c), c) == s
  {
    if s != "" {
      JoinSplit(s[1..], c);
      var rest := SplitOn(s[1..], c);
      var parts := SplitOn(s, c);
      if s[0] == c {
        assert parts[1..] == rest;
      } else {
        assert parts[1..] == rest[1..];
        if |parts| > 1 { assert Join(rest, c) == rest[0] + [c] + Join(rest[1..], c); }
      }
      assert s == [s[0]] + s[1..];
    }
  }

  lemma {:induction false} SplitNoSeparator(s: string, c: char)
    ensures forall p :: p in SplitOn(s, c) ==> c !in p
    ensures forall p :: p in SplitOn(s, c) ==> forall x :: x in p ==> x in s
  {
    if s != "" {
      SplitNoSeparator(s[1..], c);
      var rest := SplitOn(s[1..], c);
      assert rest[0] in rest;
      forall p | p in SplitOn(s, c) ensures c !in p && forall x :: x in p ==> x in s {
        if s[0] == c {
          assert p == "" || p in rest;
        } else {
          assert p == [s[0]] + rest[0] || p in rest[1..];
        }
      }
    }
  }

  lemma {:induction false} SplitJoin(parts: seq<string>, c: char)
    requires |parts| >= 1 && forall p :: p in parts ==> c !in p
    ensures SplitOn(Join(parts, c), c) == parts
    decreases |parts|, |parts[0]|
  {
    var s := Join(parts, c);
    assert parts[0] in parts;
    if parts[0] != "" {
      var shorter := [parts[0][1..]] + parts[1..];
      forall p | p in shorter ensures c !in p {
        if p == parts[0][1..] { assert forall x :: x in p ==> x in parts[0]; } else { assert p in parts; }
      }
      SplitJoin(shorter, c);
      assert shorter[1..] == parts[1..];
      assert s[0] == parts[0][0] && s[1..] == Join(shorter, c);
      assert c !in parts[0] && s[0] in parts[0];
      assert parts[0] == [s[0]] + shorter[0];
      assert parts == [[s[0]] + shorter[0]] + shorter[1..];
    } else if |parts| > 1 {
      forall p | p in parts[1..] ensures c !in p { assert p in parts; }
      SplitJoin(parts[1..], c);
      assert s == [c] + Join(parts[1..], c);
    }
  }

  lemma SplitCons(x: char, t: string, c: char)
    ensures SplitOn([x] + t, c)
            == if x == c then [""] + SplitOn(t, c) else [[x] + SplitOn(t, c)[0]] + SplitOn(t, c)[1..]
  {
    assert ([x] + t)[1..] == t;
  }

  lemma SplitCarry(x: char, ts: seq<string>, bs: seq<string>, c: char)
    requires ts != []
    ensures (if x == c then [""] + (ts + bs) else [[x] + (ts + bs)[0]] + (ts + bs)[1..])
            == (if x == c then [""] + ts else [[x] + ts[0]] + ts[1..]) + bs
  {
    assert (ts + bs)[0] == ts[0] && (ts + bs)[1..] == ts[1..] + bs;
  }

  /** A separator splits a text, and what is around it splits on its own. */
  lemma {:induction false} SplitConcat(a: string, b: string, c: char)
    ensures SplitOn(a + [c] + b, c) == SplitOn(a, c) + SplitOn(b, c)
  {
    if a == "" {
      assert SplitOn(a, c) == [""];
      hide SplitOn;
      SplitCons(c, b, c);
      assert a + [c] + b == [c] + b;
    } else {
      hide SplitOn;
      var x, t := a[0], a[1..];
      var rest := t + [c] + b;
      SplitConcat(t, b, c);
      SplitCons(x, t, c);
      SplitCons(x, rest, c);
      SplitCarry(x, SplitOn(t, c), SplitOn(b, c), c);
      assert a == [x] + t && a + [c] + b == [x] + rest;
    }
  }

  lemma {:induction false} JoinConcat(a: seq<string>, b: seq<string>, c: char)
    requires a != [] && b != []
    ensures Join(a + b, c) == Join(a, c) + [c] + Join(b, c)
  {
    assert (a + b)[1..] == a[1..] + b;
    if |a| > 1 {
      JoinConcat(a[1..], b, c);
      assert Join(a + b, c) == a[0] + [c] + (Join(a[1..], c) + [c] + Join(b, c));
    } else {
      assert a[1..] + b == b;
    }
  }
}
