/** Fixed-width decimal text and the lexicographic order SQLite uses on TEXT columns. */
module Digits {

  predicate IsDigit(c: char) { '0' <= c <= '9' }

  function Digit(n: nat): (c: char)
    requires n < 10
    ensures IsDigit(c)
  {
    '0' + n as char
  }

  function Value(c: char): (n: nat)
    requires IsDigit(c)
    ensures n < 10
  {
    c as nat - '0' as nat
  }

  function Pow10(w: nat): (p: nat)
    ensures p > 0
  {
    if w == 0 then 1 else 10 * Pow10(w - 1)
  }

  /** The decimal text of n in exactly w characters, zero padded on the left. */
  function Padded(n: nat, w: nat): (s: string)
    requires n < Pow10(w)
    ensures |s| == w
    ensures forall i :: 0 <= i < |s| ==> IsDigit(s[i])
  {
    if w == 0 then "" else Padded(n / 10, w - 1) + [Digit(n % 10)]
  }

  function ParseDigits(s: string): nat
    requires forall i :: 0 <= i < |s| ==> IsDigit(s[i])
  {
    if s == "" then 0 else 10 * ParseDigits(s[..|s| - 1]) + Value(s[|s| - 1])
  }

  /** Reading a padded number gives the number back. */
  lemma {:induction false} ParsePadded(n: nat, w: nat)
    requires n < Pow10(w)
    ensures ParseDigits(Padded(n, w)) == n
  {
    if w > 0 {
      ParsePadded(n / 10, w - 1);
      var s := Padded(n, w);
      assert s[..|s| - 1] == Padded(n / 10, w - 1);
    }
  }

  /** Digits of a width are the padded text of their number. */
  lemma {:induction false} PaddedParse(s: string)
    requires forall i :: 0 <= i < |s| ==> IsDigit(s[i])
    ensures ParseDigits(s) < Pow10(|s|) && Padded(ParseDigits(s), |s|) == s
  {
    if s != "" {
      var n := |s| - 1;
      PaddedParse(s[..n]);
      assert ParseDigits(s) / 10 == ParseDigits(s[..n]) && ParseDigits(s) % 10 == Value(s[n]);
      assert s == s[..n] + [s[n]];
    }
  }

  /** Decimal text without padding, as Python's str() writes a non-negative integer. */
  function Decimal(n: nat): (s: string)
    ensures |s| > 0
    ensures forall i :: 0 <= i < |s| ==> IsDigit(s[i])
  {
    if n < 10 then [Digit(n)] else Decimal(n / 10) + [Digit(n % 10)]
  }

  lemma {:induction false} ParseDecimal(n: nat)
    ensures ParseDigits(Decimal(n)) == n
  {
    var s := Decimal(n);
    if n < 10 {
      assert s[..|s| - 1] == "";
    } else {
      ParseDecimal(n / 10);
      assert s[..|s| - 1] == Decimal(n / 10);
    }
  }

  /** Strict lexicographic order on text, character by character. */
  predicate LexLess(a: string, b: string) {
    if b == "" then false
    else if a == "" then true
    else if a[0] != b[0] then a[0] < b[0]
    else LexLess(a[1..], b[1..])
  }

  lemma {:induction false} LexIrreflexive(a: string)
    ensures !LexLess(a, a)
  {
    if a != "" { LexIrreflexive(a[1..]); }
  }

  /** Equal-width heads decide first; tails only matter when the heads agree. */
  lemma {:induction false} LexConcat(a: string, b: string, x: string, y: string)
    requires |a| == |b|
    ensures LexLess(a + x, b + y) <==> LexLess(a, b) || (a == b && LexLess(x, y))
  {
    if a == "" {
      assert a + x == x && b + y == y;
    } else {
      assert (a + x)[1..] == a[1..] + x;
      assert (b + y)[1..] == b[1..] + y;
      assert a[0] == b[0] ==> (a == b <==> a[1..] == b[1..]) by {
        assert a == [a[0]] + a[1..] && b == [b[0]] + b[1..];
      }
      LexConcat(a[1..], b[1..], x, y);
    }
  }

  /** Numbers of one width compare as text exactly as they compare as numbers. */
  lemma {:induction false} PaddedOrder(n: nat, m: nat, w: nat)
    requires n < Pow10(w) && m < Pow10(w)
    ensures LexLess(Padded(n, w), Padded(m, w)) <==> n < m
    ensures Padded(n, w) == Padded(m, w) <==> n == m
  {
    ParsePadded(n, w);
    ParsePadded(m, w);
    if w > 0 {
      PaddedOrder(n / 10, m / 10, w - 1);
      LexConcat(Padded(n / 10, w - 1), Padded(m / 10, w - 1), [Digit(n % 10)], [Digit(m % 10)]);
      LastDigit(n % 10, m % 10);
    }
  }

  lemma LastDigit(x: nat, y: nat)
    requires x < 10 && y < 10
    ensures LexLess([Digit(x)], [Digit(y)]) <==> x < y
  {
    if x == y { LexIrreflexive([Digit(x)]); }
  }
}
