/** Dollar quotes: the median of independent rates as Decimal computes it, and the exact ceiling
    in raw. */
module Pricing {
  import opened Text
  import opened Numerals
  import opened Rounding
  import opened Approvals
  import Amounts

  // ---- rates ----

  /** A Decimal rate. A finite one is a whole number of units, one unit being 10^-places dollars
      for as many places as the finite answers have. */
  datatype Rate = NaN | NegInf | Finite(units: int) | PosInf

  /** A rate that compares: comparing NaN raises. */
  type Number = r: Rate | r != NaN witness Finite(0)

  predicate Le(x: Number, y: Number) {
    x.NegInf? || y.PosInf? || (x.Finite? && y.Finite? && x.units <= y.units)
  }

  /** The same rate in tenths of a unit. */
  function Tenths(r: Rate): Rate {
    if r.Finite? then Finite(10 * r.units) else r
  }

  // ---- sorting ----

  function Insert(x: Number, s: seq<Number>): seq<Number> {
    if s == [] || Le(x, s[0]) then [x] + s else [s[0]] + Insert(x, s[1..])
  }

  function Sorted(s: seq<Number>): seq<Number> {
    if s == [] then [] else Insert(s[0], Sorted(s[1..]))
  }

  ghost predicate Ascending(s: seq<Number>) {
    forall i, j | 0 <= i < j < |s| :: Le(s[i], s[j])
  }

  lemma {:induction false} InsertAdds(x: Number, s: seq<Number>)
    ensures multiset(Insert(x, s)) == multiset(s) + multiset{x}
  {
    if s != [] && !Le(x, s[0]) {
      InsertAdds(x, s[1..]);
      assert s == [s[0]] + s[1..];
    }
  }

  lemma {:induction false} InsertLength(x: Number, s: seq<Number>)
    ensures |Insert(x, s)| == |s| + 1
  {
    if s != [] && !Le(x, s[0]) {
      InsertLength(x, s[1..]);
    }
  }

  lemma InsertMembers(x: Number, s: seq<Number>, y: Number)
    requires y in Insert(x, s)
    ensures y == x || y in s
  {
    InsertAdds(x, s);
    assert y in multiset(Insert(x, s));
  }

  lemma {:induction false} InsertAscends(x: Number, s: seq<Number>)
    requires Ascending(s)
    ensures Ascending(Insert(x, s))
  {
    if s != [] && !Le(x, s[0]) {
      InsertAscends(x, s[1..]);
      var r := Insert(x, s[1..]);
      forall j | 0 <= j < |r|
        ensures Le(s[0], r[j])
      {
        InsertMembers(x, s[1..], r[j]);
      }
    }
  }

  lemma {:induction false} SortedSorts(s: seq<Number>)
    ensures Ascending(Sorted(s)) && multiset(Sorted(s)) == multiset(s) && |Sorted(s)| == |s|
  {
    if s != [] {
      SortedSorts(s[1..]);
      InsertAscends(s[0], Sorted(s[1..]));
      InsertAdds(s[0], Sorted(s[1..]));
      InsertLength(s[0], Sorted(s[1..]));
      assert s == [s[0]] + s[1..];
    }
  }

  lemma LeastFirst(a: seq<Number>, b: seq<Number>)
    requires Ascending(a) && Ascending(b) && a != [] && b != [] && multiset(a) == multiset(b)
    ensures a[0] == b[0]
  {
    assert a[0] in multiset(b) && b[0] in multiset(a);
    var i :| 0 <= i < |b| && b[i] == a[0];
    var j :| 0 <= j < |a| && a[j] == b[0];
  }

  lemma TailMultiset(a: seq<Number>)
    requires a != []
    ensures multiset(a[1..]) == multiset(a) - multiset{a[0]}
  {
    assert a == [a[0]] + a[1..];
  }

  /** An ascending sequence is determined by its multiset. */
  lemma {:induction false} AscendingUnique(a: seq<Number>, b: seq<Number>)
    requires Ascending(a) && Ascending(b) && multiset(a) == multiset(b)
    ensures a == b
  {
    assert |multiset(a)| == |a| && |multiset(b)| == |b|;
    if a != [] {
      LeastFirst(a, b);
      TailMultiset(a);
      TailMultiset(b);
      AscendingUnique(a[1..], b[1..]);
      assert a == [a[0]] + a[1..] && b == [b[0]] + b[1..];
    }
  }

  // ---- the median ----

  /** (x + y) / Decimal(2), in tenths of a unit; None where it raises: opposite infinities have
      no sum. */
  function Mean(p: Precision, x: Number, y: Number): Option<Rate> {
    if x.Finite? && y.Finite? then Some(Finite(MeanTenths(p, x.units, y.units)))
    else if (x.NegInf? && y.PosInf?) || (x.PosInf? && y.NegInf?) then None
    else Some(if x.Finite? then y else x)
  }

  /** sorted(values), where nothing raises. */
  function Ordered(values: seq<Rate>): (s: seq<Number>)
    requires NaN !in values
    ensures |s| == |values| && Ascending(s)
  {
    var numbers: seq<Number> := values;
    SortedSorts(numbers);
    Sorted(numbers)
  }

  /** `median` in tenths of a unit; None where it raises. One value is returned as it is, there
      being nothing to compare it with; among more, a NaN raises. */
  function Median(p: Precision, values: seq<Rate>): Option<Rate> {
    if values == [] then None
    else if |values| == 1 then Some(Tenths(values[0]))
    else if NaN in values then None
    else
      var ordered, n := Ordered(values), |values|;
      if n % 2 == 1 then Some(Tenths(ordered[n / 2])) else Mean(p, ordered[n / 2 - 1], ordered[n / 2])
  }

  /** The order the sources answer in does not matter. */
  lemma MedianIgnoresOrder(p: Precision, a: seq<Rate>, b: seq<Rate>)
    requires multiset(a) == multiset(b)
    ensures Median(p, a) == Median(p, b)
  {
    hide Mean, Sorted;
    assert |multiset(a)| == |a| && |multiset(b)| == |b|;
    assert NaN in a <==> NaN in multiset(a);
    assert NaN in b <==> NaN in multiset(b);
    if |a| == 1 {
      assert a[0] in multiset(b);
    } else if NaN !in a && a != [] {
      var x: seq<Number>, y: seq<Number> := a, b;
      assert multiset(x) == multiset(y);
      SortedSorts(x);
      SortedSorts(y);
      AscendingUnique(Sorted(x), Sorted(y));
    }
  }

  predicate Inside(x: Rate, lo: Number, hi: Number) {
    x != NaN && Le(lo, x) && Le(x, hi)
  }

  /** How many rates lie outside [lo, hi], NaN being one of them. */
  function Outliers(s: seq<Rate>, lo: Number, hi: Number): (n: nat)
    ensures n <= |s|
  {
    if s == [] then 0 else (if Inside(s[0], lo, hi) then 0 else 1) + Outliers(s[1..], lo, hi)
  }

  lemma {:induction false} OutliersAppend(a: seq<Rate>, b: seq<Rate>, lo: Number, hi: Number)
    ensures Outliers(a + b, lo, hi) == Outliers(a, lo, hi) + Outliers(b, lo, hi)
  {
    if a == [] {
      assert a + b == b;
    } else {
      OutliersAppend(a[1..], b, lo, hi);
      assert (a + b)[1..] == a[1..] + b;
    }
  }

  lemma {:induction false} OutliersInsert(x: Number, s: seq<Number>, lo: Number, hi: Number)
    ensures Outliers(Insert(x, s), lo, hi) == Outliers([x] + s, lo, hi)
  {
    OutliersAppend([x], s, lo, hi);
    if s != [] && !Le(x, s[0]) {
      OutliersInsert(x, s[1..], lo, hi);
      OutliersAppend([s[0]], Insert(x, s[1..]), lo, hi);
      OutliersAppend([x], s[1..], lo, hi);
      OutliersAppend([s[0]], s[1..], lo, hi);
      assert [s[0]] + s[1..] == s;
    }
  }

  lemma {:induction false} OutliersSorted(s: seq<Number>, lo: Number, hi: Number)
    ensures Outliers(Sorted(s), lo, hi) == Outliers(s, lo, hi)
  {
    if s != [] {
      OutliersSorted(s[1..], lo, hi);
      OutliersInsert(s[0], Sorted(s[1..]), lo, hi);
      OutliersAppend([s[0]], Sorted(s[1..]), lo, hi);
      OutliersAppend([s[0]], s[1..], lo, hi);
      assert [s[0]] + s[1..] == s;
    }
  }

  lemma {:induction false} AllOutliers(s: seq<Rate>, lo: Number, hi: Number)
    requires forall i | 0 <= i < |s| :: !Inside(s[i], lo, hi)
    ensures Outliers(s, lo, hi) == |s|
  {
    if s != [] {
      AllOutliers(s[1..], lo, hi);
    }
  }

  lemma {:induction false} NoOutliers(s: seq<Rate>, lo: Number, hi: Number)
    requires forall i | 0 <= i < |s| :: Inside(s[i], lo, hi)
    ensures Outliers(s, lo, hi) == 0
  {
    if s != [] {
      NoOutliers(s[1..], lo, hi);
    }
  }

  /** In an ascending list an element above `hi` brings all that follow it out. */
  lemma OutlierAbove(s: seq<Number>, i: nat, lo: Number, hi: Number)
    requires Ascending(s) && i < |s| && !Le(s[i], hi)
    ensures Outliers(s, lo, hi) >= |s| - i
  {
    hide Outliers;
    var above := s[i..];
    forall k | 0 <= k < |above|
      ensures !Inside(above[k], lo, hi)
    {
      assert above[k] == s[i + k];
    }
    AllOutliers(above, lo, hi);
    OutliersAppend(s[..i], above, lo, hi);
    assert s == s[..i] + above;
  }

  /** And one below `lo` all that precede it. */
  lemma OutlierBelow(s: seq<Number>, i: nat, lo: Number, hi: Number)
    requires Ascending(s) && i < |s| && !Le(lo, s[i])
    ensures Outliers(s, lo, hi) >= i + 1
  {
    hide Outliers;
    var below := s[..i + 1];
    forall k | 0 <= k < |below|
      ensures !Inside(below[k], lo, hi)
    {
      assert below[k] == s[k];
    }
    AllOutliers(below, lo, hi);
    OutliersAppend(below, s[i + 1..], lo, hi);
    assert s == below + s[i + 1..];
  }

  /** The rate at a position with too few outliers on either side to reach it is inside. */
  lemma InsideAt(s: seq<Number>, i: nat, lo: Number, hi: Number)
    requires Ascending(s) && i < |s|
    requires Outliers(s, lo, hi) < |s| - i && Outliers(s, lo, hi) < i + 1
    ensures Inside(s[i], lo, hi)
  {
    if !Le(s[i], hi) {
      OutlierAbove(s, i, lo, hi);
    } else if !Le(lo, s[i]) {
      OutlierBelow(s, i, lo, hi);
    }
  }

  // ---- the middle of an even list ----

  /** The two rates an even list takes the mean of. */
  function MiddlePair(values: seq<Rate>): (m: (Number, Number))
    requires NaN !in values && |values| >= 2 && |values| % 2 == 0
    ensures Le(m.0, m.1)
  {
    var ordered, mid := Ordered(values), |values| / 2;
    (ordered[mid - 1], ordered[mid])
  }

  /** Not the two infinities, and two finite rates of at most `p` digits whose sum, rounded, stays
      between twice the one and twice the other. */
  predicate SafePair(p: Precision, x: Number, y: Number) {
    && !(x.NegInf? && y.PosInf?)
    && (x.Finite? && y.Finite? ==>
          Fits(p, x.units) && Fits(p, y.units) && 2 * x.units <= Round(p, x.units + y.units) <= 2 * y.units)
  }

  /** The rate, in tenths, lies in [lo, hi]. */
  predicate Within(r: Option<Rate>, lo: Number, hi: Number) {
    r.Some? && r.value != NaN && Le(Tenths(lo), r.value) && Le(r.value, Tenths(hi))
  }

  lemma SafeMeanWithin(p: Precision, x: Number, y: Number)
    requires Le(x, y) && SafePair(p, x, y)
    ensures Within(Mean(p, x, y), x, y)
  {
    hide Round;
    if x.Finite? && y.Finite? {
      MeanInsideIf(p, x.units, y.units);
    }
  }

  lemma WithinWider(r: Option<Rate>, x: Number, y: Number, lo: Number, hi: Number)
    requires Within(r, x, y) && Le(lo, x) && Le(y, hi)
    ensures Within(r, lo, hi)
  {
  }

  lemma OutliersOrdered(values: seq<Rate>, lo: Number, hi: Number)
    requires NaN !in values
    ensures Outliers(Ordered(values), lo, hi) == Outliers(values, lo, hi)
  {
    var numbers: seq<Number> := values;
    OutliersSorted(numbers, lo, hi);
  }

  /** Whether a list keeps its median where its rates are: an odd one always does, an even one if
      its middle pair does. */
  predicate KeepsMedian(p: Precision, values: seq<Rate>) {
    NaN !in values && |values| >= 2 && |values| % 2 == 0 ==>
      SafePair(p, MiddlePair(values).0, MiddlePair(values).1)
  }

  /** What the median of `count` rates may make of the end of a range, in tenths: itself, or its
      rounded mean with itself. */
  function End(p: Precision, count: nat, units: int): int {
    if count % 2 == 1 then 10 * units else MeanTenths(p, units, units)
  }

  /** As long as fewer than half of the rates lie outside [lo, hi] and none is NaN, the median is
      computed and lies between what it makes of lo and of hi, whatever the others are and however
      many digits any of them has. */
  lemma MedianRobust(p: Precision, values: seq<Rate>, lo: int, hi: int)
    requires 2 * Outliers(values, Finite(lo), Finite(hi)) < |values| && NaN !in values
    ensures Median(p, values).Some? && Median(p, values).value.Finite?
    ensures End(p, |values|, lo) <= Median(p, values).value.units <= End(p, |values|, hi)
  {
    hide Sorted, Outliers, Ascending, Ordered, Round;
    OutliersOrdered(values, Finite(lo), Finite(hi));
    var s := Ordered(values);
    var n := |s|;
    InsideAt(s, n / 2, Finite(lo), Finite(hi));
    if n == 1 {
      SingleOrdered(values);
    } else if n % 2 == 0 {
      InsideAt(s, n / 2 - 1, Finite(lo), Finite(hi));
      MeanMonotone(p, lo, lo, s[n / 2 - 1].units, s[n / 2].units);
      MeanMonotone(p, s[n / 2 - 1].units, s[n / 2].units, hi, hi);
    }
  }

  /** Exactly which ranges no list leaves: those whose ends the rounded mean does not move outward. */
  lemma RangeKeptIff(p: Precision, lo: int, hi: int)
    requires lo <= hi
    ensures (forall values: seq<Rate> | NaN !in values && 2 * Outliers(values, Finite(lo), Finite(hi)) < |values| ::
               Within(Median(p, values), Finite(lo), Finite(hi)))
            <==> 10 * lo <= End(p, 2, lo) && End(p, 2, hi) <= 10 * hi
  {
    hide Outliers, Median, Round;
    if 10 * lo <= End(p, 2, lo) && End(p, 2, hi) <= 10 * hi {
      forall values: seq<Rate> | NaN !in values && 2 * Outliers(values, Finite(lo), Finite(hi)) < |values|
        ensures Within(Median(p, values), Finite(lo), Finite(hi))
      {
        MedianRobust(p, values, lo, hi);
        assert End(p, |values|, lo) == End(p, |values| % 2 + 2, lo);
        assert End(p, |values|, hi) == End(p, |values| % 2 + 2, hi);
      }
    } else {
      var end := if 10 * lo <= End(p, 2, lo) then hi else lo;
      MedianOfTwins(p, end);
      NoOutliers([Finite(end), Finite(end)], Finite(lo), Finite(hi));
      assert !Within(Median(p, [Finite(end), Finite(end)]), Finite(lo), Finite(hi));
    }
  }

  lemma MedianOfTwins(p: Precision, units: int)
    ensures Median(p, [Finite(units), Finite(units)]) == Some(Finite(MeanTenths(p, units, units)))
  {
    hide MeanTenths;
    var numbers: seq<Number> := [Rate.Finite(units), Rate.Finite(units)];
    assert numbers[1..] == [Finite(units)] && numbers[1..][1..] == [];
    assert Sorted(numbers[1..]) == [Finite(units)];
  }

  /** And of an even list with a safe middle pair the median lies in [lo, hi] itself, as it does
      of an odd one. */
  lemma MedianInside(p: Precision, values: seq<Rate>, lo: Number, hi: Number)
    requires 2 * Outliers(values, lo, hi) < |values| && NaN !in values && KeepsMedian(p, values)
    ensures Within(Median(p, values), lo, hi)
  {
    hide Sorted, Outliers, Ascending, Ordered, SafePair, Mean;
    OutliersOrdered(values, lo, hi);
    var s := Ordered(values);
    var n := |s|;
    InsideAt(s, n / 2, lo, hi);
    if n == 1 {
      assert s[0] == values[0] by {
        SingleOrdered(values);
      }
    } else if n % 2 == 0 {
      InsideAt(s, n / 2 - 1, lo, hi);
      SafeMeanWithin(p, s[n / 2 - 1], s[n / 2]);
      WithinWider(Median(p, values), s[n / 2 - 1], s[n / 2], lo, hi);
    }
  }

  lemma SingleOrdered(values: seq<Rate>)
    requires |values| == 1 && NaN !in values
    ensures Ordered(values) == values
  {
    var numbers: seq<Number> := values;
    assert numbers[1..] == [];
    assert Sorted(numbers[1..]) == [];
  }

  lemma FewBelow(s: seq<Number>, i: nat)
    requires Ascending(s) && i < |s|
    ensures Outliers(s, s[i], PosInf) <= i && Outliers(s, NegInf, s[i]) <= |s| - i - 1
  {
    hide Outliers;
    var upper, lower := s[i..], s[..i + 1];
    forall k | 0 <= k < |upper|
      ensures Inside(upper[k], s[i], PosInf)
    {
      assert upper[k] == s[i + k];
    }
    NoOutliers(upper, s[i], PosInf);
    OutliersAppend(s[..i], upper, s[i], PosInf);
    assert s == s[..i] + upper;
    forall k | 0 <= k < |lower|
      ensures Inside(lower[k], NegInf, s[i])
    {
      assert lower[k] == s[k];
    }
    NoOutliers(lower, NegInf, s[i]);
    OutliersAppend(lower, s[i + 1..], NegInf, s[i]);
    assert s == lower + s[i + 1..];
  }

  /** Exactly when an even list may be trusted like that: with a middle pair of at most `p` digits,
      its median lies in every interval that holds more than half of the rates if and only if
      the pair is safe. */
  lemma MedianRobustIff(p: Precision, values: seq<Rate>)
    requires NaN !in values && |values| >= 2 && |values| % 2 == 0
    requires var (x, y) := MiddlePair(values); x.Finite? && y.Finite? ==> Fits(p, x.units) && Fits(p, y.units)
    ensures (forall lo: Number, hi: Number | 2 * Outliers(values, lo, hi) < |values| ::
               Within(Median(p, values), lo, hi))
            <==> SafePair(p, MiddlePair(values).0, MiddlePair(values).1)
  {
    hide Outliers, Ascending, Ordered, Round;
    var (x, y) := MiddlePair(values);
    if SafePair(p, x, y) {
      forall lo: Number, hi: Number | 2 * Outliers(values, lo, hi) < |values|
        ensures Within(Median(p, values), lo, hi)
      {
        MedianInside(p, values, lo, hi);
      }
    } else {
      var s, k := Ordered(values), |values| / 2;
      FewBelow(s, k - 1);
      FewBelow(s, k);
      OutliersOrdered(values, x, PosInf);
      OutliersOrdered(values, NegInf, y);
      if x.Finite? && y.Finite? {
        MeanInsideIff(p, x.units, y.units);
      }
      assert !Within(Median(p, values), x, PosInf) || !Within(Median(p, values), NegInf, y);
    }
  }

  /** The input that fails: two sources that agree on `p` nines get a median above both. At the
      default precision that is 9.999999999999999999999999999, 28 digits. */
  lemma TwoNinesLeave(p: Precision)
    ensures var nines := Rate.Finite(Pow(10, p) - 1);
      && Outliers([nines, nines], nines, nines) == 0
      && Median(p, [nines, nines]) == Some(Finite(10 * Pow(10, p)))
      && !Within(Median(p, [nines, nines]), nines, nines)
  {
    hide Round, Pow;
    var nines: Number := Rate.Finite(Pow(10, p) - 1);
    NinesLeave(p);
    NoOutliers([nines, nines], nines, nines);
    MedianOfTwins(p, Pow(10, p) - 1);
  }

  /** Ordinary rates are safe: non-negative ones that add up to less than 10^p units. */
  lemma OrdinaryPairSafe(p: Precision, x: nat, y: nat)
    requires x <= y && x + y < Pow(10, p)
    ensures SafePair(p, Finite(x), Finite(y))
  {
    hide Round;
    SmallSumInside(p, x, y);
  }

  // ---- fetching ----

  /** The rates of the sources that answered. */
  function Healthy(sources: seq<Option<Rate>>): seq<Rate> {
    if sources == [] then [] else
    var earlier, last := Healthy(sources[..|sources| - 1]), sources[|sources| - 1];
    if last.Some? then earlier + [last.value] else earlier
  }

  /** Each answer is there as often as it was given, and only the failures are missing. */
  lemma {:induction false} HealthyCounts(sources: seq<Option<Rate>>, rate: Rate)
    ensures multiset(Healthy(sources))[rate] == multiset(sources)[Some(rate)]
    ensures |Healthy(sources)| == |sources| - multiset(sources)[None]
  {
    if sources != [] {
      HealthyCounts(sources[..|sources| - 1], rate);
      assert sources == sources[..|sources| - 1] + [sources[|sources| - 1]];
    }
  }

  /** What `fetch_median_xno_usd` answers in tenths of a unit; None where it raises. */
  function Fetched(p: Precision, sources: seq<Option<Rate>>): Option<Rate> {
    if |Healthy(sources)| < 2 then None else Median(p, Healthy(sources))
  }

  /** `fetch_median_xno_usd`: a source that raises is skipped, and fewer than two answers are
      refused. */
  method FetchMedian(p: Precision, sources: seq<Option<Rate>>) returns (rate: Option<Rate>)
    ensures rate == Fetched(p, sources)
  {
    hide Median;
    var rates := [];
    for i := 0 to |sources|
      invariant rates == Healthy(sources[..i])
    {
      assert sources[..i + 1][..i] == sources[..i];
      if sources[i].Some? {
        rates := rates + [sources[i].value];
      }
    }
    assert sources[..|sources|] == sources;
    if |rates| < 2 {
      return None;
    }
    rate := Median(p, rates);
  }

  /** Exactly when there is a rate: two or more sources answered, none of them NaN, and an even
      number of them does not meet between the two infinities. */
  lemma FetchedIff(p: Precision, sources: seq<Option<Rate>>)
    ensures Fetched(p, sources).Some? <==>
      var rates := Healthy(sources);
      && multiset(sources)[None] + 2 <= |sources| && Some(NaN) !in sources
      && (|rates| % 2 == 0 && NaN !in rates && |rates| >= 2 ==> MiddlePair(rates) != (NegInf, PosInf))
  {
    hide Ordered, Round;
    HealthyCounts(sources, NaN);
    NoNaNAnswered(sources);
  }

  /** A failing source is tolerated, but one that answers NaN is not: with it the very quote that
      its failure would have left standing is refused. */
  lemma NaNSourceDenies(p: Precision, x: nat, y: nat)
    ensures Fetched(p, [Some(Finite(x)), Some(Finite(y)), None]).Some?
    ensures Fetched(p, [Some(Finite(x)), Some(Finite(y)), Some(NaN)]).None?
  {
    var two: seq<Option<Rate>> := [Some(Finite(x)), Some(Finite(y))];
    assert two[..1][..0] == [] && two[..1] == [Some(Rate.Finite(x))];
    assert Healthy(two[..1]) == [Finite(x)];
    assert Healthy(two) == [Finite(x), Finite(y)];
    var failing, nan := two + [None], two + [Some(NaN)];
    assert failing[..2] == two && nan[..2] == two;
    assert Healthy(failing) == [Finite(x), Finite(y)];
    assert Healthy(nan) == [Finite(x), Finite(y), NaN];
    assert failing == [Some(Finite(x)), Some(Finite(y)), None];
    assert nan == [Some(Finite(x)), Some(Finite(y)), Some(NaN)];
    var numbers: seq<Number> := [Finite(x), Finite(y)];
    assert numbers[1..] == [Finite(y)] && numbers[1..][1..] == [];
    assert Sorted(numbers[1..]) == [Finite(y)];
  }

  // ---- the conversion ----

  /** 10^30 raw to the nano. */
  const RAW_PER_XNO: real := 1_000_000_000_000_000_000_000_000_000_000.0

  /** A Decimal number of dollars that may be NaN or infinite. */
  datatype Amount = Exact(value: real) | NotFinite

  /** `usd_to_xno_raw`, -(-exact // 1) on an exact fraction; None where it raises ValueError. */
  function UsdToRaw(price: Amount, rate: Amount): Option<int> {
    if price.NotFinite? || rate.NotFinite? then None
    else if price.value <= 0.0 || rate.value <= 0.0 then None
    else Some(-(-(price.value * RAW_PER_XNO / rate.value)).Floor)
  }

  /** What it refuses: NaN, an infinity, and anything that is not positive, on either side. */
  lemma UsdRefusesIff(price: Amount, rate: Amount)
    ensures UsdToRaw(price, rate).Some? <==>
      price.Exact? && rate.Exact? && 0.0 < price.value && 0.0 < rate.value
  {
  }

  lemma QuotientAbove(x: real, y: real, z: real)
    requires y > 0.0 && x / y > z
    ensures x > z * y
  {
    var q := x / y;
    assert q * y == x;
    MulRealStrict(z, q, y);
  }

  lemma QuotientAtMost(x: real, y: real, z: real)
    requires y > 0.0 && x / y <= z
    ensures x <= z * y
  {
    var q := x / y;
    assert q * y == x;
    MulReal(q, z, y);
  }

  lemma DividedBy(x: real, y: real, z: real)
    requires y > 0.0
    ensures x / y <= z <==> x <= z * y
  {
    if x / y <= z {
      QuotientAtMost(x, y, z);
    } else {
      QuotientAbove(x, y, z);
    }
  }

  lemma MulRealStrict(x: real, y: real, z: real)
    requires x < y && z > 0.0
    ensures x * z < y * z
  {
    assert (y - x) * z > 0.0;
  }

  lemma MulReal(x: real, y: real, z: real)
    requires x <= y && z >= 0.0
    ensures x * z <= y * z
  {
    assert (y - x) * z >= 0.0;
  }

  /** `n` raw are worth at least the price at the rate. */
  ghost predicate Covers(n: int, price: real, rate: real) {
    n as real * rate >= price * RAW_PER_XNO
  }

  /** The quote is the least whole number of raw worth at least the price at the rate: the
      seller never under-receives, and no smaller quote would do. */
  lemma UsdToRawIsCeiling(price: real, rate: real)
    requires price > 0.0 && rate > 0.0
    ensures var raw := UsdToRaw(Exact(price), Exact(rate)).value;
      && raw > 0
      && Covers(raw, price, rate)
      && forall n :: Covers(n, price, rate) ==> raw <= n
  {
    var exact := price * RAW_PER_XNO / rate;
    var raw := UsdToRaw(Exact(price), Exact(rate)).value;
    assert exact <= raw as real < exact + 1.0;
    DividedBy(price * RAW_PER_XNO, rate, raw as real);
    forall n | Covers(n, price, rate)
      ensures raw <= n
    {
      DividedBy(price * RAW_PER_XNO, rate, n as real);
    }
    DividedBy(price * RAW_PER_XNO, rate, 0.0);
  }

  /** A higher price never quotes less, and a higher rate never quotes more. */
  lemma UsdToRawMonotone(price: real, price': real, rate: real, rate': real)
    requires 0.0 < price <= price' && 0.0 < rate' <= rate
    ensures UsdToRaw(Exact(price), Exact(rate)).value <= UsdToRaw(Exact(price'), Exact(rate')).value
  {
    hide Covers;
    UsdToRawIsCeiling(price, rate);
    UsdToRawIsCeiling(price', rate');
    CoversMore(UsdToRaw(Exact(price'), Exact(rate')).value, price, price', rate, rate');
  }

  lemma CoversMore(n: int, price: real, price': real, rate: real, rate': real)
    requires n > 0 && 0.0 < price <= price' && 0.0 < rate' <= rate && Covers(n, price', rate')
    ensures Covers(n, price, rate)
  {
    MulReal(rate', rate, n as real);
  }

  // ---- a quote from its sources ----

  /** A rate in tenths of a unit, in dollars. */
  function Dollars(places: nat, tenths: Rate): (d: Amount)
    ensures d.Exact? <==> tenths.Finite?
  {
    PowPositive(10, places + 1);
    if tenths.Finite? then Exact(tenths.units as real / Pow(10, places + 1) as real) else NotFinite
  }

  /** `exact_xno_amount` over live sources; None where it raises. */
  function ExactAmount(p: Precision, places: nat, price: Amount, sources: seq<Option<Rate>>): Option<int> {
    var rate := Fetched(p, sources);
    if rate.None? then None else UsdToRaw(price, Dollars(places, rate.value))
  }

  lemma DollarsMonotone(places: nat, x: int, y: int)
    requires 0 < x <= y
    ensures 0.0 < Dollars(places, Finite(x)).value <= Dollars(places, Finite(y)).value
  {
    PowPositive(10, places + 1);
    var unit := Pow(10, places + 1) as real;
    DividedBy(x as real, unit, y as real / unit);
    DividedBy(x as real, unit, 0.0);
  }

  /** The quote at a rate of this many tenths of a unit. */
  function QuoteAt(places: nat, price: real, tenths: int): (raw: int)
    requires price > 0.0 && 0 < tenths
    ensures UsdToRaw(Exact(price), Dollars(places, Finite(tenths))) == Some(raw)
  {
    DollarsMonotone(places, tenths, tenths);
    UsdToRaw(Exact(price), Dollars(places, Finite(tenths))).value
  }

  /** In whole units: the quote at `tenths` of 10^-places dollars to the nano is the least raw amount
      that is worth the price there. */
  lemma QuoteAtIsLeast(places: nat, price: real, tenths: int, n: int)
    requires price > 0.0 && 0 < tenths
    ensures QuoteAt(places, price, tenths) <= n <==>
            n as real * tenths as real >= price * (Pow(10, 30) as real) * (Pow(10, places + 1) as real)
  {
    hide Pow;
    Amounts.RawPerNano();
    assert RAW_PER_XNO == Pow(10, 30) as real;
    PowPositive(10, places + 1);
    var unit, rate := Pow(10, places + 1) as real, Dollars(places, Finite(tenths)).value;
    DollarsMonotone(places, tenths, tenths);
    UsdToRawIsCeiling(price, rate);
    var raw := QuoteAt(places, price, tenths);
    ScaledCovers(n as real, price * RAW_PER_XNO, tenths as real, unit);
    assert Covers(n, price, rate) <==> n as real * tenths as real >= price * RAW_PER_XNO * unit;
    if raw <= n {
      MulReal(raw as real, n as real, rate);
    }
  }

  lemma ScaledCovers(n: real, due: real, tenths: real, unit: real)
    requires unit > 0.0
    ensures n * (tenths / unit) >= due <==> n * tenths >= due * unit
  {
    var rate := tenths / unit;
    assert rate * unit == tenths;
    assert n * tenths == (n * rate) * unit;
    if n * rate >= due {
      MulReal(due, n * rate, unit);
    } else {
      MulRealStrict(n * rate, due, unit);
    }
  }

  lemma QuoteAntitone(places: nat, price: real, x: int, y: int)
    requires price > 0.0 && 0 < x <= y
    ensures QuoteAt(places, price, y) <= QuoteAt(places, price, x)
  {
    hide Dollars;
    DollarsMonotone(places, x, y);
    UsdToRawMonotone(price, price, Dollars(places, Finite(y)).value, Dollars(places, Finite(x)).value);
  }

  /** So bad sources cannot move a quote: if fewer than half of the answers lie outside [lo, hi] and
      none is NaN, there is a quote, between the quotes at what the median makes of hi and of lo. */
  lemma QuoteRobust(p: Precision, places: nat, sources: seq<Option<Rate>>, lo: int, hi: int, price: real)
    requires price > 0.0 && 0 < lo <= hi && |Healthy(sources)| >= 2 && Some(NaN) !in sources
    requires 2 * Outliers(Healthy(sources), Finite(lo), Finite(hi)) < |Healthy(sources)|
    ensures 0 < End(p, |Healthy(sources)|, lo) <= End(p, |Healthy(sources)|, hi)
    ensures var raw := ExactAmount(p, places, Exact(price), sources);
      && raw.Some?
      && QuoteAt(places, price, End(p, |Healthy(sources)|, hi)) <= raw.value
      && raw.value <= QuoteAt(places, price, End(p, |Healthy(sources)|, lo))
  {
    hide Outliers, Median, Dollars, UsdToRaw, MeanTenths;
    var rates := Healthy(sources);
    NoNaNAnswered(sources);
    MedianRobust(p, rates, lo, hi);
    MeanPositive(p, lo);
    var m := Median(p, rates).value.units;
    assert ExactAmount(p, places, Exact(price), sources) == Some(QuoteAt(places, price, m));
    QuoteAntitone(places, price, End(p, |rates|, lo), m);
    QuoteAntitone(places, price, m, End(p, |rates|, hi));
  }

  lemma NoNaNAnswered(sources: seq<Option<Rate>>)
    ensures Some(NaN) in sources <==> NaN in Healthy(sources)
  {
    HealthyCounts(sources, NaN);
    assert NaN in Healthy(sources) <==> NaN in multiset(Healthy(sources));
    assert Some(NaN) in sources <==> Some(NaN) in multiset(sources);
  }

  /** With an odd number of answers, or a safe middle pair, the quote lies between the quotes at hi
      and at lo themselves. */
  lemma QuoteInside(p: Precision, places: nat, sources: seq<Option<Rate>>, lo: int, hi: int, price: real)
    requires price > 0.0 && 0 < lo <= hi
    requires |Healthy(sources)| >= 2 && Some(NaN) !in sources && KeepsMedian(p, Healthy(sources))
    requires 2 * Outliers(Healthy(sources), Finite(lo), Finite(hi)) < |Healthy(sources)|
    ensures var raw := ExactAmount(p, places, Exact(price), sources);
      raw.Some? && QuoteAt(places, price, 10 * hi) <= raw.value <= QuoteAt(places, price, 10 * lo)
  {
    hide Outliers, Median, KeepsMedian, Dollars, UsdToRaw;
    var rates := Healthy(sources);
    NoNaNAnswered(sources);
    MedianInside(p, rates, Finite(lo), Finite(hi));
    var m := Median(p, rates).value.units;
    assert ExactAmount(p, places, Exact(price), sources) == Some(QuoteAt(places, price, m));
    QuoteAntitone(places, price, 10 * lo, m);
    QuoteAntitone(places, price, m, 10 * hi);
  }

  /** `quote_usd`: the expiry is recorded, then the price; None where the conversion raises. A
      quote is honoured for 30 seconds, and the stored floor covers its price from here on. */
  method QuoteUsd(store: ApprovalStore, price: Amount, rate: Amount, requestId: string, now: real)
    returns (raw: Option<int>)
    modifies store`expiry, store`price
    ensures raw == UsdToRaw(price, rate)
    ensures raw.None? ==> store.Contents() == old(store.Contents())
    ensures raw.Some? ==>
              && store.Contents() ==
                 RecordPrice(RecordExpiry(old(store.Contents()), requestId, now + 30.0), requestId, raw.value)
              && raw.value <= store.price[requestId] && store.expiry[requestId] == now + 30.0
    ensures forall k | k != requestId ::
              && Lookup(store.expiry, k) == old(Lookup(store.expiry, k))
              && Lookup(store.price, k) == old(Lookup(store.price, k))
  {
    raw := UsdToRaw(price, rate);
    if raw.Some? {
      store.RecordQuoteExpiry(requestId, now + 30.0);
      store.RecordQuotePrice(requestId, raw.value);
    }
  }
}
