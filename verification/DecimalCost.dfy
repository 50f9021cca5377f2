/** The cost estimate: decimal arithmetic with forty significant digits, then rounded up to four places. */
module DecimalCost {
  import opened Digits
  import opened BudgetContracts

  const PRECISION := 40

  /** A decimal rate: coefficient / 10^places dollars per thousand tokens. */
  datatype Rate = NotFinite | Finite(coefficient: int, places: nat)

  predicate ValidRate(r: Rate) { r.Finite? && 0 <= r.coefficient <= 1000 * Pow10(r.places) }

  /** However many places it is written with, a whole rate is accepted from nothing to a thousand dollars. */
  lemma WholeRateAccepted(dollars: int, places: nat)
    ensures ValidRate(Finite(dollars * Pow10(places), places)) <==> 0 <= dollars <= 1000
  {
    var t := Pow10(places);
    hide Pow10;
    if 0 <= dollars { MulMonotone(0, dollars, t); } else { MulMonotone(dollars, -1, t); }
    if dollars <= 1000 { MulMonotone(dollars, 1000, t); } else { MulMonotone(1001, dollars, t); }
  }

  // ---------------------------------------------------------------- rounding to the context's precision
  /** How many digits of p do not fit. */
  function Excess(p: nat): nat { if p < Pow10(PRECISION) then 0 else 1 + Excess(p / 10) }

  /** The last place that is kept. */
  function Unit(p: nat): (u: nat)
    ensures u > 0
  {
    Pow10(Excess(p))
  }

  /** The nearest number with forty digits; ties go to the even one. */
  function Rounded(p: nat): int {
    var u := Unit(p);
    if 2 * (p % u) > u || (2 * (p % u) == u && p / u % 2 == 1) then (p / u + 1) * u else p / u * u
  }

  /** The product of tokens and rate, without its decimal point. */
  function Product(predicted: nat, r: Rate): nat
    requires ValidRate(r)
  {
    predicted * r.coefficient
  }

  /** Cost in ten-thousandths of a dollar: the product, rounded to forty digits, divided by a thousand, rounded up. */
  function CostUnits(predicted: nat, r: Rate): int
    requires ValidRate(r)
  {
    CeilDiv(10 * Rounded(Product(predicted, r)), Pow10(r.places))
  }

  /** The least number of ten-thousandths that covers the exact price. */
  function LeastCover(predicted: nat, r: Rate): int
    requires ValidRate(r)
  {
    CeilDiv(10 * Product(predicted, r), Pow10(r.places))
  }

  /** Rounding drops something and lands exactly on a whole number of ten-thousandths. */
  predicate RoundsDownOntoUnit(predicted: nat, r: Rate)
    requires ValidRate(r)
  {
    var p := Product(predicted, r);
    Rounded(p) < p && 10 * Rounded(p) % Pow10(r.places) == 0
  }

  /** A multiple of the last kept place, within half of it. */
  lemma RoundedNear(p: nat)
    ensures var u, x := Unit(p), Rounded(p);
            && x >= 0 && (exists m: nat :: x == m * u) && 2 * (p - x) <= u && 2 * (x - p) <= u
            && (u == 1 ==> x == p)
  {
    hide Excess;
    hide Pow10;
    var u := Unit(p);
    DivMod(p, u);
    NearestMultiple(p, u, p / u, p % u, Rounded(p));
  }

  lemma DivMod(p: nat, u: nat)
    requires u > 0
    ensures p == p / u * u + p % u && 0 <= p % u < u && p / u >= 0
  {
  }

  lemma NearestMultiple(p: nat, u: nat, q: nat, rem: nat, x: int)
    requires p == q * u + rem && rem < u
    requires x == if 2 * rem > u || (2 * rem == u && q % 2 == 1) then (q + 1) * u else q * u
    ensures x >= 0 && (exists m: nat :: x == m * u) && 2 * (p - x) <= u && 2 * (x - p) <= u && (u == 1 ==> x == p)
  {
    assert (q + 1) * u == q * u + u && q * u >= 0;
  }

  lemma UniqueMod(n: int, u: int, q: int, r: int)
    requires u > 0 && n == u * q + r && 0 <= r < u
    ensures n % u == r && n / u == q
  {
    var q2, r2 := n / u, n % u;
    assert n == u * q2 + r2;
    assert u * (q - q2) == u * q - u * q2 && u * (q2 - q) == u * q2 - u * q;
    if q > q2 { MulAtLeast(u, q - q2); } else if q < q2 { MulAtLeast(u, q2 - q); }
  }

  lemma MulAtLeast(u: int, k: int)
    requires u > 0 && k >= 1
    ensures u * k >= u
  {
  }

  lemma TimesTen(x: int, y: int)
    ensures x * (10 * y) == 10 * (x * y)
  {
  }

  lemma {:induction false} Pow10Split(a: nat, b: nat)
    requires a <= b
    ensures Pow10(b) == Pow10(b - a) * Pow10(a) && Pow10(a) <= Pow10(b)
  {
    if a > 0 {
      Pow10Split(a - 1, b - 1);
      assert b - 1 - (a - 1) == b - a;
      TimesTen(Pow10(b - a), Pow10(a - 1));
    }
  }

  /** A number with excess digits is at least ten to the number of its digits less one. */
  lemma {:induction false} ExcessLower(p: nat, w: nat)
    requires Excess(p) > 0 && w == PRECISION - 1
    ensures p >= Pow10(w + Excess(p))
    decreases p
  {
    assert Pow10(w + 1) == 10 * Pow10(w);
    if Excess(p / 10) > 0 {
      ExcessLower(p / 10, w);
      assert Pow10(w + Excess(p)) == 10 * Pow10(w + Excess(p / 10));
    }
  }

  /** Whatever was dropped is less than half a ten-thousandth, and the last kept place divides one. */
  lemma UnitDividesQuantum(predicted: nat, r: Rate)
    requires ValidRate(r) && predicted <= LIMIT_TOKENS_MAX
    ensures var u := Unit(Product(predicted, r));
            u == 1 || exists c: nat :: c > 0 && Pow10(r.places) == c * (10 * u)
  {
    var p := Product(predicted, r);
    var s, k, w := Excess(p), r.places, PRECISION - 1;
    if s > 0 {
      hide Excess;
      hide ValidRate;
      ExcessLower(p, w);
      ProductBound(predicted, r);
      if s + 1 > k {
        assert 14 + k < w + s;
        Pow10Less(14 + k, w + s);
      }
      Pow10Split(s + 1, k);
      assert Pow10(s + 1) == 10 * Pow10(s);
    }
  }

  lemma ProductBound(predicted: nat, r: Rate)
    requires ValidRate(r) && predicted <= LIMIT_TOKENS_MAX
    ensures Product(predicted, r) <= Pow10(14 + r.places)
  {
    var t := Pow10(r.places);
    assert predicted * r.coefficient <= LIMIT_TOKENS_MAX * r.coefficient;
    assert LIMIT_TOKENS_MAX * r.coefficient <= LIMIT_TOKENS_MAX * (1000 * t);
    Pow10Split(14, 14 + r.places);
    assert Pow10(14) == 100000000000000 by {
      assert Pow10(7) == 10000000;
      Pow10Split(7, 14);
    }
  }

  lemma Pow10Less(a: nat, b: nat)
    requires a < b
    ensures Pow10(a) < Pow10(b)
  {
    Pow10Split(a, b - 1);
    assert Pow10(b) == 10 * Pow10(b - 1);
  }

  /** The estimate is the least amount that covers the exact price, except that it is one ten-thousandth short exactly
      when rounding to forty digits drops something and lands on a whole number of ten-thousandths. */
  lemma CostIsLeastCoverIff(predicted: nat, r: Rate)
    requires ValidRate(r) && predicted <= LIMIT_TOKENS_MAX
    ensures CostUnits(predicted, r) == LeastCover(predicted, r) - if RoundsDownOntoUnit(predicted, r) then 1 else 0
    ensures 0 <= CostUnits(predicted, r) <= 1000000000000000
  {
    assert r.Finite?;
    hide Rounded;
    hide Unit;
    hide Pow10;
    hide Product;
    hide ValidRate;
    hide CeilDiv;
    var p := Product(predicted, r);
    RoundedNear(p);
    UnitDividesQuantum(predicted, r);
    ProductBound(predicted, r);
    TenfoldBound(r.places);
    CeilOfRounded(p, Rounded(p), Unit(p), Pow10(r.places));
  }

  lemma CeilOfRounded(p: nat, x: int, u: nat, t: nat)
    requires t > 0 && u > 0 && x >= 0 && 10 * p <= t * 1000000000000000
    requires (exists m: nat :: x == m * u) && 2 * (p - x) <= u && 2 * (x - p) <= u && (u == 1 ==> x == p)
    requires u == 1 || exists c: nat :: c > 0 && t == c * (10 * u)
    ensures CeilDiv(10 * x, t) == CeilDiv(10 * p, t) - if x < p && 10 * x % t == 0 then 1 else 0
    ensures 0 <= CeilDiv(10 * x, t) <= 1000000000000000
  {
    hide CeilDiv;
    CeilBound(10 * p, t, 1000000000000000);
    CeilBoundLow(10 * x, t);
    if u != 1 {
      var c: nat :| c > 0 && t == c * (10 * u);
      var m: nat :| x == m * u;
      assert 10 * x == m * (10 * u);
      RoundedCeil(10 * p, 10 * x, 10 * u, c, m, t);
    }
  }

  lemma TenfoldBound(k: nat)
    ensures 10 * Pow10(14 + k) == Pow10(k) * 1000000000000000
  {
    Pow10Split(15, 15 + k);
    assert Pow10(15) == 1000000000000000 by {
      assert Pow10(7) == 10000000 && Pow10(8) == 100000000;
      Pow10Split(7, 15);
    }
    assert Pow10(15 + k) == 10 * Pow10(14 + k);
  }

  lemma CeilBound(n: nat, t: nat, b: nat)
    requires t > 0 && n <= t * b
    ensures 0 <= CeilDiv(n, t) <= b
  {
    CeilDivIsLeast(n, t, b);
    CeilBoundLow(n, t);
  }

  lemma CeilBoundLow(n: nat, t: nat)
    requires t > 0
    ensures CeilDiv(n, t) >= 0
  {
    CeilDivIsLeast(n, t, 0);
    if CeilDiv(n, t) <= -1 { MulMonotone(CeilDiv(n, t), -1, t); }
  }

  lemma CeilUnique(n: int, t: int, g: int)
    requires t > 0 && (g - 1) * t < n <= g * t
    ensures CeilDiv(n, t) == g
  {
    CeilDivIsLeast(n, t, g);
    if CeilDiv(n, t) <= g - 1 { MulMonotone(CeilDiv(n, t), g - 1, t); }
  }

  lemma CeilBetween(n: int, t: int)
    requires t > 0
    ensures (CeilDiv(n, t) - 1) * t < n <= CeilDiv(n, t) * t
  {
    CeilDivIsLeast(n, t, CeilDiv(n, t) - 1);
  }

  /** n and its neighbour x, a multiple of v within half of it, lie below one multiple of t, itself a multiple of v,
      unless x is that multiple and n is above it. */
  lemma NeighbourBelow(n: int, x: int, v: int, c: int, m: int, t: int, g: int)
    requires v > 0 && c > 0 && t == c * v && x == m * v && 2 * (n - x) <= v && 2 * (x - n) <= v
    requires (g - 1) * t < x <= g * t
    ensures if x < n && x == g * t then g * t < n <= (g + 1) * t else (g - 1) * t < n <= g * t
  {
    assert g * t == (g * c) * v && (g - 1) * t == ((g - 1) * c) * v;
    GapOfMultiples(g * c, m, v);
    GapOfMultiples(m, (g - 1) * c, v);
    assert (g + 1) * t == g * t + t;
    MulMonotone(1, c, v);
  }

  lemma RoundedCeil(n: int, x: int, v: int, c: int, m: int, t: int)
    requires v > 0 && c > 0 && t > 0 && t == c * v && x == m * v && 2 * (n - x) <= v && 2 * (x - n) <= v
    ensures CeilDiv(x, t) == CeilDiv(n, t) - if x < n && x % t == 0 then 1 else 0
  {
    var g := CeilDiv(x, t);
    CeilBetween(x, t);
    hide CeilDiv;
    NeighbourBelow(n, x, v, c, m, t, g);
    WholeIff(x, t, g);
    CeilUnique(n, t, if x < n && x == g * t then g + 1 else g);
  }

  lemma WholeIff(x: int, t: int, g: int)
    requires t > 0 && (g - 1) * t < x <= g * t
    ensures x % t == 0 <==> x == g * t
  {
    if x == g * t { UniqueMod(x, t, g, 0); }
    if x % t == 0 {
      assert x == t * (x / t) && x / t * t == x;
      assert (g + 1) * t == g * t + t;
      if x / t <= g - 1 { MulMonotone(x / t, g - 1, t); }
      if x / t >= g + 1 { MulMonotone(g + 1, x / t, t); }
    }
  }

  /** Two multiples of v are equal or at least v apart. */
  lemma GapOfMultiples(a: int, b: int, v: int)
    requires v > 0 && a * v >= b * v
    ensures a * v == b * v || a * v >= b * v + v
  {
    if a > b {
      MulMonotone(b + 1, a, v);
      assert (b + 1) * v == b * v + v;
    } else {
      MulMonotone(a, b, v);
    }
  }

  /** A rate of at most twenty-eight digits is priced exactly: the estimate is the least cover. */
  lemma ShortRateIsLeastCover(predicted: nat, r: Rate)
    requires ValidRate(r) && predicted <= LIMIT_TOKENS_MAX && r.coefficient < Pow10(28)
    ensures CostUnits(predicted, r) == LeastCover(predicted, r)
  {
    var p := Product(predicted, r);
    ShortProduct(predicted, r);
    assert Unit(p) == 1 by { assert Pow10(0) == 1; }
    hide Pow10;
    hide Unit;
    hide Rounded;
    RoundedNear(p);
  }

  lemma ShortProduct(predicted: nat, r: Rate)
    requires ValidRate(r) && predicted <= LIMIT_TOKENS_MAX && r.coefficient < Pow10(28)
    ensures Product(predicted, r) < Pow10(PRECISION)
  {
    hide Pow10;
    Pow10Split(28, PRECISION);
    TwelveZeros();
    var t := Pow10(28);
    assert predicted * r.coefficient <= LIMIT_TOKENS_MAX * r.coefficient;
    assert LIMIT_TOKENS_MAX * r.coefficient <= LIMIT_TOKENS_MAX * t;
    assert LIMIT_TOKENS_MAX * t < 1000000000000 * t;
  }

  lemma TwelveZeros()
    ensures Pow10(12) == 1000000000000
  {
    assert Pow10(6) == 1000000;
    Pow10Split(6, 12);
  }

  /** A rate it fails for: with forty places after the point and a last digit that is dropped, one token is priced
      a ten-thousandth below the exact price. */
  lemma LongRateFallsShort(r: Rate)
    requires r == Finite(Pow10(PRECISION) + 1, PRECISION)
    ensures ValidRate(r) && RoundsDownOntoUnit(1, r)
  {
    var t := Pow10(PRECISION);
    assert Pow10(1) == 10 by { assert Pow10(0) == 1; }
    Pow10Split(1, PRECISION);
    var p := Product(1, r);
    assert p == t + 1;
    assert (t + 1) / 10 < t;
    assert Excess(p) == 1 + Excess(p / 10) && Excess(p / 10) == 0;
    assert Unit(p) == 10;
    var q := Pow10(PRECISION - 1);
    assert p == 10 * q + 1;
    UniqueMod(p, 10, q, 1);
    assert Rounded(p) == t;
    UniqueMod(10 * t, t, 10, 0);
  }
}
