/** The arithmetic behind RSA signatures: powers undo each other modulo a product of two primes. */
module RsaMath {

  function Pow(b: int, e: nat): int { if e == 0 then 1 else b * Pow(b, e - 1) }

  /** Python's pow(b, e, n). */
  function PowMod(b: nat, e: nat, n: nat): (r: nat)
    requires n > 0
    ensures r < n
  {
    Pow(b, e) % n
  }

  lemma {:induction false} PowAdd(b: int, x: nat, y: nat)
    ensures Pow(b, x + y) == Pow(b, x) * Pow(b, y)
  {
    if x > 0 {
      PowAdd(b, x - 1, y);
      MulAssoc(b, Pow(b, x - 1), Pow(b, y));
    }
  }

  lemma {:induction false} PowOfPow(b: int, x: nat, y: nat)
    ensures Pow(Pow(b, x), y) == Pow(b, x * y)
  {
    if y == 0 {
      assert x * y == 0;
    } else {
      PowOfPow(b, x, y - 1);
      assert x * y == x + x * (y - 1);
      PowAdd(b, x, x * (y - 1));
    }
  }

  lemma MulAssoc(a: int, b: int, c: int)
    ensures (a * b) * c == a * (b * c)
  {}

  // ---------------------------------------------------------------- divisibility
  ghost predicate Divides(p: int, x: int) { exists k :: Multiple(p, k, x) }

  predicate Multiple(p: int, k: int, x: int) { x == p * k }

  lemma DividesAdd(p: int, x: int, y: int)
    requires Divides(p, x) && Divides(p, y)
    ensures Divides(p, x + y) && Divides(p, x - y)
  {
    var i :| Multiple(p, i, x);
    var j :| Multiple(p, j, y);
    assert p * (i + j) == p * i + p * j && p * (i - j) == p * i - p * j;
    assert Multiple(p, i + j, x + y) && Multiple(p, i - j, x - y);
  }

  lemma DividesMul(p: int, x: int, c: int)
    requires Divides(p, x)
    ensures Divides(p, c * x) && Divides(p, x * c)
  {
    var i :| Multiple(p, i, x);
    MulAssoc(p, i, c);
    assert Multiple(p, i * c, x * c);
  }

  lemma DividesSelf(p: int)
    ensures Divides(p, p) && Divides(p, 0)
  {
    assert Multiple(p, 1, p) && Multiple(p, 0, 0);
  }

  lemma SmallMultiple(p: int, x: int)
    requires p > 0 && Divides(p, x) && -p < x < p
    ensures x == 0
  {
    var k :| Multiple(p, k, x);
    assert p * -k == -(p * k);
    if k >= 1 { TimesAtLeast(p, k); } else if k <= -1 { TimesAtLeast(p, -k); }
  }

  lemma TimesAtLeast(p: int, k: int)
    requires p > 0 && k >= 1
    ensures p * k >= p
  {}

  /** Congruence modulo p, and what it is closed under. */
  ghost predicate Same(p: int, x: int, y: int) { Divides(p, x - y) }

  lemma SameTrans(p: int, x: int, y: int, z: int)
    requires Same(p, x, y) && Same(p, y, z)
    ensures Same(p, x, z)
  {
    DividesAdd(p, x - y, y - z);
    assert (x - y) + (y - z) == x - z;
  }

  lemma SameMul(p: int, c: int, x: int, y: int)
    requires Same(p, x, y)
    ensures Same(p, c * x, c * y)
  {
    DividesMul(p, x - y, c);
    assert c * (x - y) == c * x - c * y;
  }

  lemma Commute(x: int, y: int)
    ensures x * y == y * x
  {
  }

  lemma {:induction false} SamePow(p: int, x: int, y: int, e: nat)
    requires Same(p, x, y)
    ensures Same(p, Pow(x, e), Pow(y, e))
  {
    if e == 0 {
      DividesSelf(p);
      assert Pow(x, e) - Pow(y, e) == 0;
    } else {
      hide Divides;
      hide Same;
      SamePow(p, x, y, e - 1);
      SameMul(p, x, Pow(x, e - 1), Pow(y, e - 1));
      SameMul(p, Pow(y, e - 1), x, y);
      Commute(x, Pow(y, e - 1));
      Commute(y, Pow(y, e - 1));
      SameTrans(p, Pow(x, e), x * Pow(y, e - 1), Pow(y, e));
    }
  }

  lemma ModSame(x: int, n: int)
    requires n > 0
    ensures Same(n, x % n, x) && 0 <= x % n < n
  {
    assert x == n * (x / n) + x % n;
    assert n * -(x / n) == -(n * (x / n));
    assert Multiple(n, -(x / n), x % n - x);
  }

  // ---------------------------------------------------------------- primes
  ghost predicate Prime(p: int) { p >= 2 && forall k :: 2 <= k < p ==> !Divides(k, p) }

  /** A prime that divides a product and is larger than one factor divides the other. */
  lemma {:induction false} PrimeDividesFactor(p: int, k: nat, c: int)
    requires Prime(p) && 0 < k < p && Divides(p, k * c)
    ensures Divides(p, c)
    decreases k
  {
    if k > 1 {
      var q, r := p / k, p % k;
      assert p == k * q + r;
      if r == 0 { assert Multiple(k, q, p) && Divides(k, p); }
      DividesSelf(p);
      DividesMul(p, p, c);
      DividesMul(p, k * c, q);
      DividesAdd(p, c * p, q * (k * c));
      Remainder(p, k, q, r, c);
      PrimeDividesFactor(p, r, c);
    }
  }

  lemma Remainder(p: int, k: int, q: int, r: int, c: int)
    requires p == k * q + r
    ensures c * p - q * (k * c) == r * c
  {
    calc {
      c * p - q * (k * c);
      c * (k * q + r) - q * (k * c);
      c * (k * q) + c * r - q * (k * c);
      { assert c * (k * q) == (c * k) * q; assert q * (k * c) == (k * c) * q; }
      r * c;
    }
  }

  /** Two different primes that divide a number divide it together. */
  lemma PrimesDivideTogether(p: int, q: int, x: int)
    requires Prime(p) && Prime(q) && p != q && Divides(p, x) && Divides(q, x)
    ensures Divides(p * q, x)
  {
    var y :| Multiple(p, y, x);
    var r := p % q;
    assert p == q * (p / q) + r;
    if r == 0 {
      assert Multiple(q, p / q, p) && Divides(q, p);
      if p < q { SmallMultiple(q, p); }
    }
    DividesSelf(q);
    DividesMul(q, q, (p / q) * y);
    DividesAdd(q, x, ((p / q) * y) * q);
    assert x - ((p / q) * y) * q == r * y by {
      assert p * y == (q * (p / q) + r) * y == q * (p / q) * y + r * y;
      assert q * (p / q) * y == ((p / q) * y) * q;
    }
    PrimeDividesFactor(q, r, y);
    var z :| Multiple(q, z, y);
    MulAssoc(p, q, z);
    assert Multiple(p * q, z, x);
  }

  // ---------------------------------------------------------------- binomial coefficients
  function Choose(n: nat, k: nat): nat {
    if k == 0 then 1 else if n == 0 then 0 else Choose(n - 1, k) + Choose(n - 1, k - 1)
  }

  lemma {:induction false} ChooseEnds(n: nat, k: nat)
    requires k >= n
    ensures Choose(n, k) == if k == n then 1 else 0
  {
    if n > 0 {
      ChooseEnds(n - 1, k);
      ChooseEnds(n - 1, k - 1);
    }
  }

  lemma {:induction false} Absorption(n: nat, k: nat)
    requires n > 0 && k > 0
    ensures k * Choose(n, k) == n * Choose(n - 1, k - 1)
  {
    if n == 1 {
      ChooseEnds(1, k);
      ChooseEnds(0, k - 1);
    } else {
      Absorption(n - 1, k);
      if k > 1 {
        Absorption(n - 1, k - 1);
        AbsorptionStep(n, k, Choose(n - 1, k), Choose(n - 2, k - 1), Choose(n - 2, k - 2));
      }
    }
  }

  lemma AbsorptionStep(n: int, k: int, a: int, c: int, d: int)
    requires k * a == (n - 1) * c && (k - 1) * (c + d) == (n - 1) * d
    ensures k * (a + (c + d)) == n * (c + d)
  {
    calc {
      k * (a + (c + d));
      k * a + (k - 1) * (c + d) + (c + d);
      (n - 1) * c + (n - 1) * d + (c + d);
      n * (c + d);
    }
  }

  /** The first terms of the expansion of (a + 1)^n. */
  function Expansion(a: int, n: nat, k: nat): int {
    Choose(n, k) * Pow(a, k) + if k == 0 then 0 else Expansion(a, n, k - 1)
  }

  lemma {:induction false} ExpansionStep(a: int, n: nat, k: nat)
    ensures Expansion(a, n + 1, k) == Expansion(a, n, k) + if k == 0 then 0 else a * Expansion(a, n, k - 1)
  {
    if k > 0 {
      ExpansionStep(a, n, k - 1);
      ExpansionTerms(a, Choose(n, k), Choose(n, k - 1), Pow(a, k - 1), if k == 1 then 0 else Expansion(a, n, k - 2));
    }
  }

  lemma ExpansionTerms(a: int, c: int, d: int, t: int, u: int)
    ensures (c + d) * (a * t) + a * u == c * (a * t) + a * (d * t + u)
  {
    assert d * (a * t) == a * (d * t);
    assert (c + d) * (a * t) == c * (a * t) + d * (a * t);
    assert a * (d * t + u) == a * (d * t) + a * u;
  }

  lemma {:induction false} Binomial(a: int, n: nat)
    ensures Pow(a + 1, n) == Expansion(a, n, n)
  {
    if n > 0 {
      Binomial(a, n - 1);
      ExpansionStep(a, n - 1, n);
      ChooseEnds(n - 1, n);
      assert (a + 1) * Expansion(a, n - 1, n - 1) == a * Expansion(a, n - 1, n - 1) + Expansion(a, n - 1, n - 1);
    }
  }

  lemma {:induction false} InnerTermsVanish(p: int, a: int, k: nat)
    requires Prime(p) && k < p
    ensures Same(p, Expansion(a, p, k), 1)
  {
    DividesSelf(p);
    if k > 0 {
      InnerTermsVanish(p, a, k - 1);
      Absorption(p, k);
      DividesMul(p, p, Choose(p - 1, k - 1));
      PrimeDividesFactor(p, k, Choose(p, k));
      DividesMul(p, Choose(p, k), Pow(a, k));
      DividesAdd(p, Expansion(a, p, k - 1) - 1, Choose(p, k) * Pow(a, k));
      assert (Expansion(a, p, k - 1) - 1) + Choose(p, k) * Pow(a, k) == Expansion(a, p, k) - 1;
    } else {
      assert Expansion(a, p, 0) == 1;
    }
  }

  /** Fermat's little theorem. */
  lemma {:induction false} Fermat(p: int, a: nat)
    requires Prime(p)
    ensures Same(p, Pow(a, p), a)
  {
    DividesSelf(p);
    if a == 0 {
      assert Pow(0, p) == 0;
    } else {
      var b := a - 1;
      Fermat(p, b);
      Binomial(b, p);
      InnerTermsVanish(p, b, p - 1);
      ChooseEnds(p, p);
      assert Pow(a, p) == Pow(b, p) + Expansion(b, p, p - 1);
      DividesAdd(p, Pow(b, p) - b, Expansion(b, p, p - 1) - 1);
      assert (Pow(b, p) - b) + (Expansion(b, p, p - 1) - 1) == Pow(a, p) - a;
    }
  }

  lemma {:induction false} FermatCycles(p: int, m: nat, k: nat)
    requires Prime(p)
    ensures Same(p, Pow(m, 1 + k * (p - 1)), m)
  {
    if k == 0 {
      assert Pow(m, 1) == m * Pow(m, 0) == m;
      DividesSelf(p);
    } else {
      FermatCycles(p, m, k - 1);
      Fermat(p, m);
      var e := (k - 1) * (p - 1);
      assert 1 + k * (p - 1) == e + p by { assert k * (p - 1) == (k - 1) * (p - 1) + (p - 1); }
      PowAdd(m, e, p);
      PowAdd(m, e, 1);
      assert Pow(m, 1) == m * Pow(m, 0) == m;
      SameMul(p, Pow(m, e), Pow(m, p), m);
      SameTrans(p, Pow(m, e + p), Pow(m, 1 + e), m);
    }
  }

  // ---------------------------------------------------------------- key pairs
  /** An RSA key: two different primes, and exponents that are inverse to each other modulo p - 1 and q - 1. */
  datatype KeyPair = KeyPair(p: nat, q: nat, e: nat, d: nat) {
    function N(): nat { p * q }
  }

  ghost predicate ValidKeyPair(k: KeyPair) {
    && Prime(k.p) && Prime(k.q) && k.p != k.q && k.d > 0 && k.e > 0
    && Divides(k.p - 1, k.d * k.e - 1) && Divides(k.q - 1, k.d * k.e - 1)
  }

  lemma CycleFor(p: int, m: nat, f: nat)
    requires Prime(p) && f > 0 && Divides(p - 1, f - 1)
    ensures Same(p, Pow(m, f), m)
  {
    var k :| Multiple(p - 1, k, f - 1);
    assert (p - 1) * -k == -((p - 1) * k);
    if k < 0 { TimesAtLeast(p - 1, -k); }
    FermatCycles(p, m, k);
  }

  /** Signing and then verifying gives back every message below the modulus. */
  lemma ExponentiationsCancel(k: KeyPair, m: nat)
    requires ValidKeyPair(k) && m < k.N()
    ensures PowMod(PowMod(m, k.d, k.N()), k.e, k.N()) == m
  {
    var n, s := k.N(), Pow(m, k.d);
    assert n > 0;
    var f := k.d * k.e;
    assert f > 0;
    CycleFor(k.p, m, f);
    CycleFor(k.q, m, f);
    PrimesDivideTogether(k.p, k.q, Pow(m, f) - m);
    ModSame(s, n);
    SamePow(n, s % n, s, k.e);
    PowOfPow(m, k.d, k.e);
    SameTrans(n, Pow(s % n, k.e), Pow(m, f), m);
    ModSame(Pow(s % n, k.e), n);
    SameTrans(n, Pow(s % n, k.e) % n, Pow(s % n, k.e), m);
    PowNonNegative(m, k.d);
    SmallMultiple(n, Pow(s % n, k.e) % n - m);
  }

  lemma {:induction false} PowNonNegative(b: nat, e: nat)
    ensures Pow(b, e) >= 0
  {
    if e > 0 { PowNonNegative(b, e - 1); }
  }
}
