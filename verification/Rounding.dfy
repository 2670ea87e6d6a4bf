/** Decimal arithmetic at a context precision: exact results rounded half-even to `p` significant
    digits. Numbers are whole counts of one decimal unit, so that every digit is visible. */
module Rounding {
  import opened Numerals

  /** A context precision; the interpreter's default is 28. */
  type Precision = p: nat | 1 <= p witness 28

  /** How many final digits of `c` a result of `p` digits drops. */
  function Dropped(p: Precision, c: nat): nat {
    PowPositive(10, p);
    if c < Pow(10, p) then 0 else 1 + Dropped(p, c / 10)
  }

  /** The weight of the last digit that is kept. */
  function Ulp(p: Precision, c: nat): (unit: nat)
    ensures 0 < unit
  {
    PowPositive(10, Dropped(p, c));
    Pow(10, Dropped(p, c))
  }

  function RoundNat(p: Precision, c: nat): nat {
    var unit := Ulp(p, c);
    var q, r := Quotient(c, unit), Remainder(c, unit);
    if 2 * r < unit || (2 * r == unit && q % 2 == 0) then q * unit else (q + 1) * unit
  }

  /** The result of an operation whose exact value is `c` units. */
  function Round(p: Precision, c: int): int {
    if c < 0 then -(RoundNat(p, -c) as int) else RoundNat(p, c)
  }

  /** `c` units have at most `p` significant digits. */
  predicate Fits(p: Precision, c: int) {
    Round(p, c) == c
  }

  /** (x + y) / Decimal(2), two roundings, in tenths of the unit. */
  function MeanTenths(p: Precision, x: int, y: int): int {
    Round(p, 5 * Round(p, x + y))
  }

  // ---- the digits a number keeps ----

  lemma {:induction false} DroppedBounds(p: Precision, c: nat)
    ensures c < Pow(10, p + Dropped(p, c))
    ensures Dropped(p, c) > 0 ==> Pow(10, p - 1 + Dropped(p, c)) <= c
  {
    PowPositive(10, p);
    if c >= Pow(10, p) {
      DroppedBounds(p, c / 10);
    }
  }

  lemma {:induction false} DroppedMonotone(p: Precision, c: nat, d: nat)
    requires c <= d
    ensures Dropped(p, c) <= Dropped(p, d)
    decreases c
  {
    PowPositive(10, p);
    if c >= Pow(10, p) {
      DroppedMonotone(p, c / 10, d / 10);
    }
  }

  lemma {:induction false} PowMonotone(j: nat, k: nat)
    requires j <= k
    ensures Pow(10, j) <= Pow(10, k)
    decreases k
  {
    if j < k {
      PowMonotone(j, k - 1);
    }
  }

  /** A number below 10^(p + k) drops at most k digits. */
  lemma DroppedAtMost(p: Precision, c: nat, k: nat)
    requires c < Pow(10, p + k)
    ensures Dropped(p, c) <= k
  {
    hide Pow;
    DroppedBounds(p, c);
    if k < Dropped(p, c) {
      PowMonotone(p + k, p - 1 + Dropped(p, c));
    }
  }

  /** And one of at least 10^(p - 1 + k) drops at least k. */
  lemma DroppedAtLeast(p: Precision, c: nat, k: nat)
    requires Pow(10, p - 1 + k) <= c
    ensures k <= Dropped(p, c)
  {
    hide Pow;
    DroppedBounds(p, c);
    if Dropped(p, c) < k {
      PowMonotone(p + Dropped(p, c), p - 1 + k);
    }
  }

  // ---- rounding to the nearest ----

  /** `c` is a whole number of `unit`s. */
  ghost predicate Multiple(c: int, unit: int) {
    exists q: int :: c == q * unit
  }

  lemma SmallerUnit(c: int, j: nat, k: nat)
    requires j <= k && Multiple(c, Pow(10, k))
    ensures Multiple(c, Pow(10, j))
  {
    var q: int :| c == q * Pow(10, k);
    PowAdd(10, k - j, j);
    MulAssoc(q, Pow(10, k - j), Pow(10, j));
    assert c == (q * Pow(10, k - j)) * Pow(10, j);
  }

  /** Two multiples of a unit less than a unit apart are one. */
  lemma MultiplesApart(c: int, d: int, unit: int)
    requires Multiple(c, unit) && Multiple(d, unit) && 0 < unit
    requires -unit < c - d < unit
    ensures c == d
  {
    var q: int :| c == q * unit;
    var r: int :| d == r * unit;
    assert c - d == (q - r) * unit;
    if q > r {
      MulMono(1, q - r, unit);
    } else if q < r {
      MulMono(1, r - q, unit);
    }
  }

  /** The result is a multiple of its unit, nearest to the exact value. */
  lemma RoundNear(p: Precision, c: nat)
    ensures var unit: int, t: int := Ulp(p, c), RoundNat(p, c);
      Multiple(t, unit) && -unit <= 2 * (t - c) <= unit
  {
    hide Ulp, Quotient, Remainder;
    var unit := Ulp(p, c);
    QuotientRemainder(c, unit);
    var q, r := Quotient(c, unit), Remainder(c, unit);
    assert (q + 1) * unit == q * unit + unit;
    assert RoundNat(p, c) == q * unit || RoundNat(p, c) == (q + 1) * unit;
  }

  /** Halfway between two multiples the even one is taken. */
  lemma TiesToEven(p: Precision, c: nat)
    requires var unit: int, t: int := Ulp(p, c), RoundNat(p, c); 2 * (t - c) == unit || 2 * (c - t) == unit
    ensures Multiple(RoundNat(p, c), 2 * Ulp(p, c))
  {
    hide Ulp, Quotient, Remainder;
    var unit := Ulp(p, c);
    QuotientRemainder(c, unit);
    var q, r := Quotient(c, unit), Remainder(c, unit);
    assert (q + 1) * unit == q * unit + unit;
    assert 2 * r == unit;
    var even := if q % 2 == 0 then q else q + 1;
    assert RoundNat(p, c) == even * unit;
    assert even == 2 * (even / 2);
    MulAssoc(even / 2, 2, unit);
  }

  /** A multiple of its own unit is not rounded at all. */
  lemma MultipleStays(p: Precision, c: nat)
    requires Multiple(c, Ulp(p, c))
    ensures RoundNat(p, c) == c
  {
    hide Ulp;
    RoundNear(p, c);
    MultiplesApart(RoundNat(p, c), c, Ulp(p, c));
  }

  /** At most `p` digits and then zeros, or a power of ten, is not rounded either. */
  lemma ShortStays(p: Precision, c: nat, k: nat)
    requires Multiple(c, Pow(10, k)) && c <= Pow(10, p + k)
    ensures RoundNat(p, c) == c
  {
    hide Pow, RoundNat;
    if c < Pow(10, p + k) {
      DroppedAtMost(p, c, k);
      SmallerUnit(c, Dropped(p, c), k);
    } else {
      PowMonotone(p + k, p + (k + 1));
      LongerPow(p + k);
      DroppedAtMost(p, c, k + 1);
      assert c == 1 * Pow(10, p + k);
      assert Multiple(c, Pow(10, p + k));
      SmallerUnit(c, Dropped(p, c), p + k);
    }
    MultipleStays(p, c);
  }

  lemma LongerPow(k: nat)
    ensures Pow(10, k) < Pow(10, k + 1) == 10 * Pow(10, k)
  {
    PowPositive(10, k);
  }

  /** What fits has at most `p` digits and then zeros. */
  lemma FittingIsShort(p: Precision, c: nat)
    requires Fits(p, c)
    ensures Multiple(c, Ulp(p, c)) && c < Pow(10, p + Dropped(p, c))
  {
    RoundNear(p, c);
    DroppedBounds(p, c);
  }

  /** Rounding keeps the order. */
  lemma RoundNatMonotone(p: Precision, c: nat, d: nat)
    requires c <= d
    ensures RoundNat(p, c) <= RoundNat(p, d)
  {
    hide Pow, RoundNat;
    RoundNear(p, c);
    RoundNear(p, d);
    if Dropped(p, c) == Dropped(p, d) {
      if RoundNat(p, d) < RoundNat(p, c) && c < d {
        MultiplesApart(RoundNat(p, c), RoundNat(p, d), Ulp(p, c));
      }
    } else {
      DroppedMonotone(p, c, d);
      DroppedBounds(p, c);
      DroppedBounds(p, d);
      AtMostTop(p, c);
      AtLeastBottom(p, d);
      PowMonotone(p + Dropped(p, c), p - 1 + Dropped(p, d));
    }
  }

  lemma PowMultiple(j: nat, k: nat)
    ensures Multiple(Pow(10, j + k), Pow(10, k))
  {
    PowAdd(10, j, k);
  }

  lemma AtMostTop(p: Precision, c: nat)
    ensures RoundNat(p, c) <= Pow(10, p + Dropped(p, c))
  {
    hide Pow, RoundNat;
    RoundNear(p, c);
    DroppedBounds(p, c);
    PowMultiple(p, Dropped(p, c));
    if RoundNat(p, c) > Pow(10, p + Dropped(p, c)) {
      MultiplesApart(RoundNat(p, c), Pow(10, p + Dropped(p, c)), Ulp(p, c));
    }
  }

  lemma AtLeastBottom(p: Precision, c: nat)
    requires Dropped(p, c) > 0
    ensures Pow(10, p - 1 + Dropped(p, c)) <= RoundNat(p, c)
  {
    hide Pow, RoundNat;
    RoundNear(p, c);
    DroppedBounds(p, c);
    PowMultiple(p - 1, Dropped(p, c));
    if RoundNat(p, c) < Pow(10, p - 1 + Dropped(p, c)) {
      MultiplesApart(RoundNat(p, c), Pow(10, p - 1 + Dropped(p, c)), Ulp(p, c));
    }
  }

  lemma RoundMonotone(p: Precision, c: int, d: int)
    requires c <= d
    ensures Round(p, c) <= Round(p, d)
  {
    hide RoundNat;
    if 0 <= c {
      RoundNatMonotone(p, c, d);
    } else if d < 0 {
      RoundNatMonotone(p, -d, -c);
    }
  }

  /** A result fits. */
  lemma ResultFits(p: Precision, c: nat)
    ensures RoundNat(p, RoundNat(p, c)) == RoundNat(p, c)
  {
    hide RoundNat;
    RoundNear(p, c);
    AtMostTop(p, c);
    ShortStays(p, RoundNat(p, c), Dropped(p, c));
  }

  lemma WholeUnits(c: int)
    ensures Multiple(c, Pow(10, 0))
  {
    assert c == c * Pow(10, 0);
  }

  lemma TenMore(c: int, k: nat)
    ensures Multiple(c, Pow(10, k)) <==> Multiple(10 * c, Pow(10, k + 1))
  {
    LongerPow(k);
    if Multiple(c, Pow(10, k)) {
      var q: int :| c == q * Pow(10, k);
      Tenfold(q, Pow(10, k));
      assert 10 * c == q * Pow(10, k + 1);
    }
    if Multiple(10 * c, Pow(10, k + 1)) {
      var q: int :| 10 * c == q * Pow(10, k + 1);
      Tenfold(q, Pow(10, k));
      assert c == q * Pow(10, k);
    }
  }

  lemma Tenfold(x: int, y: int)
    ensures x * (10 * y) == 10 * (x * y)
  {
  }

  /** Scaling by ten changes no digit. */
  lemma TenTimesFits(p: Precision, c: nat)
    ensures Fits(p, c) <==> Fits(p, 10 * c)
  {
    hide RoundNat, Pow, Multiple;
    if Fits(p, c) {
      FittingIsShort(p, c);
      TenMore(c, Dropped(p, c));
      LongerPow(p + Dropped(p, c));
      ShortStays(p, 10 * c, Dropped(p, c) + 1);
    }
    if Fits(p, 10 * c) {
      FittingIsShort(p, 10 * c);
      var k := Dropped(p, 10 * c);
      if k == 0 {
        WholeUnits(c);
        ShortStays(p, c, 0);
      } else {
        TenMore(c, k - 1);
        LongerPow(p + k - 1);
        ShortStays(p, c, k - 1);
      }
    }
  }

  // ---- when the mean stays between its arguments ----

  /** A rounded sum that is between twice the one and twice the other keeps the mean between. */
  lemma MeanInsideIf(p: Precision, x: int, y: int)
    requires x <= y && Fits(p, x) && Fits(p, y) && 2 * x <= Round(p, x + y) <= 2 * y
    ensures 10 * x <= MeanTenths(p, x, y) <= 10 * y
  {
    hide RoundNat;
    TenTimesFits(p, if x < 0 then -x else x);
    TenTimesFits(p, if y < 0 then -y else y);
    RoundMonotone(p, 10 * x, 5 * Round(p, x + y));
    RoundMonotone(p, 5 * Round(p, x + y), 10 * y);
  }

  /** Halving a rounded sum that has left that range is exact, so nothing brings it back. */
  lemma HalfExact(p: Precision, x: nat, y: nat)
    requires x <= y && Fits(p, x) && Fits(p, y)
    requires RoundNat(p, x + y) < 2 * x || 2 * y < RoundNat(p, x + y)
    ensures RoundNat(p, 5 * RoundNat(p, x + y)) == 5 * RoundNat(p, x + y)
  {
    hide RoundNat, Pow;
    var s, t, k := x + y, RoundNat(p, x + y), Dropped(p, x + y);
    RoundNear(p, s);
    if 5 * t <= Pow(10, p + k) {
      var q: int :| t == q * Pow(10, k);
      MulAssoc(5, q, Pow(10, k));
      assert 5 * t == (5 * q) * Pow(10, k);
      ShortStays(p, 5 * t, k);
    } else {
      var least := Pow(10, p - 1 + k);
      LongerPow(p - 1 + k);
      assert t > 2 * least;
      FarAbove(p, t, k);
      assert least <= x;
      BothMultiples(p, x, y, k);
      MultipleStays(p, s);
    }
  }

  lemma FarAbove(p: Precision, t: nat, k: nat)
    requires Multiple(t, Pow(10, k)) && t > 2 * Pow(10, p - 1 + k)
    ensures t >= 2 * Pow(10, p - 1 + k) + Pow(10, k)
  {
    hide Pow;
    PowMultiple(p - 1, k);
    PowPositive(10, k);
    var q: int :| Pow(10, p - 1 + k) == q * Pow(10, k);
    MulAssoc(2, q, Pow(10, k));
    assert 2 * Pow(10, p - 1 + k) == (2 * q) * Pow(10, k);
    if t < 2 * Pow(10, p - 1 + k) + Pow(10, k) {
      MultiplesApart(t, 2 * Pow(10, p - 1 + k), Pow(10, k));
    }
  }

  lemma BothMultiples(p: Precision, x: nat, y: nat, k: nat)
    requires Fits(p, x) && Fits(p, y) && Pow(10, p - 1 + k) <= x <= y
    ensures Multiple(x + y, Pow(10, k))
  {
    hide Pow, RoundNat;
    FittingIsShort(p, x);
    FittingIsShort(p, y);
    DroppedAtLeast(p, x, k);
    DroppedAtLeast(p, y, k);
    SmallerUnit(x, k, Dropped(p, x));
    SmallerUnit(y, k, Dropped(p, y));
    var q: int :| x == q * Pow(10, k);
    var r: int :| y == r * Pow(10, k);
    assert x + y == (q + r) * Pow(10, k);
  }

  /** The mean keeps the order, so it never leaves the means that the ends of a range have with
      themselves. */
  lemma MeanMonotone(p: Precision, x: int, y: int, x': int, y': int)
    requires x <= x' && y <= y'
    ensures MeanTenths(p, x, y) <= MeanTenths(p, x', y')
  {
    hide Round;
    RoundMonotone(p, x + y, x' + y');
    RoundMonotone(p, 5 * Round(p, x + y), 5 * Round(p, x' + y'));
  }

  /** A positive rate has a positive mean with itself. */
  lemma MeanPositive(p: Precision, x: int)
    requires 0 < x
    ensures 0 < MeanTenths(p, x, x)
  {
    hide Round, Pow;
    OneFits(p);
    RoundMonotone(p, 1, x + x);
    RoundMonotone(p, 1, 5 * Round(p, x + x));
  }

  lemma OneFits(p: Precision)
    ensures Round(p, 1) == 1
  {
    PowPositive(10, p - 1);
    assert Quotient(1, 1) == 1 && Remainder(1, 1) == 0;
  }

  /** Of two rates that fit, the mean stays between them exactly when their rounded sum stays
      between twice the one and twice the other. */
  lemma MeanInsideIff(p: Precision, x: int, y: int)
    requires x <= y && Fits(p, x) && Fits(p, y)
    ensures 10 * x <= MeanTenths(p, x, y) <= 10 * y <==> 2 * x <= Round(p, x + y) <= 2 * y
  {
    hide RoundNat;
    var t := Round(p, x + y);
    if 2 * x <= t <= 2 * y {
      MeanInsideIf(p, x, y);
    } else if 0 <= x {
      HalfExact(p, x, y);
    } else if y <= 0 {
      RoundMonotone(p, x + y, 0);
      HalfExact(p, -y, -x);
    } else {
      RoundMonotone(p, x, x + y);
      RoundMonotone(p, x + y, y);
    }
  }

  /** So two sources that agree on a rate have it as their mean exactly when the rate and its
      double fit the precision. */
  lemma SameRateKeptIff(p: Precision, x: nat)
    ensures MeanTenths(p, x, x) == 10 * x <==> Fits(p, x) && Fits(p, 2 * x)
  {
    hide RoundNat;
    if Fits(p, x) {
      MeanInsideIff(p, x, x);
    } else if MeanTenths(p, x, x) == 10 * x {
      ResultFits(p, 5 * Round(p, x + x));
      TenTimesFits(p, x);
    }
  }

  /** The sum of two rates below half of 10^p units is exact. */
  lemma SmallSumInside(p: Precision, x: nat, y: nat)
    requires x <= y && x + y < Pow(10, p)
    ensures Fits(p, x) && Fits(p, y) && 2 * x <= Round(p, x + y) <= 2 * y
    ensures 10 * x <= MeanTenths(p, x, y) <= 10 * y
  {
    hide RoundNat, Pow;
    forall c: nat | c < Pow(10, p)
      ensures RoundNat(p, c) == c
    {
      WholeUnits(c);
      ShortStays(p, c, 0);
    }
    MeanInsideIf(p, x, y);
  }

  /** `p` nines, whose mean with themselves is the next power of ten. */
  lemma NinesLeave(p: Precision)
    ensures var nines: int := Pow(10, p) - 1;
      Fits(p, nines) && MeanTenths(p, nines, nines) == 10 * Pow(10, p) > 10 * nines
  {
    hide RoundNat, Pow;
    var nines := Pow(10, p) - 1;
    PowPositive(10, p - 1);
    LongerPow(p - 1);
    LongerPow(p);
    SmallSumInside(p, 0, nines);
    DoubledNines(p);
    PowMultiple(p, 1);
    ShortStays(p, 10 * Pow(10, p), 1);
  }

  lemma DoubledNines(p: Precision)
    ensures Pow(10, p) > 0 && RoundNat(p, 2 * Pow(10, p) - 2) == 2 * Pow(10, p)
  {
    PowPositive(10, p - 1);
    LongerPow(p - 1);
    var c := 2 * Pow(10, p) - 2;
    assert c / 10 == 2 * Pow(10, p - 1) - 1;
    assert Dropped(p, c / 10) == 0;
    assert Pow(10, 1) == 10;
    assert Ulp(p, c) == 10;
  }
}
