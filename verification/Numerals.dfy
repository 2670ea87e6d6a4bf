/** Positional numerals: big-endian digit sequences in any base, used for decimal text, for
    Nano base32 and for big-endian byte strings. */
module Numerals {

  function Pow(b: nat, e: nat): nat {
    if e == 0 then 1 else b * Pow(b, e - 1)
  }

  ghost predicate Digits(ds: seq<nat>, b: nat) {
    forall i | 0 <= i < |ds| :: ds[i] < b
  }

  /** The number a big-endian digit sequence stands for. */
  function Value(ds: seq<nat>, b: nat): nat {
    if ds == [] then 0 else Value(ds[..|ds| - 1], b) * b + ds[|ds| - 1]
  }

  /** The low `n` digits of `v`. */
  function Fixed(v: nat, n: nat, b: nat): (ds: seq<nat>)
    requires 0 < b
    ensures |ds| == n
    decreases n
  {
    if n == 0 then [] else Fixed(Quotient(v, b), n - 1, b) + [Remainder(v, b)]
  }

  function Quotient(v: nat, b: nat): nat
    requires 0 < b
  {
    v / b
  }

  function Remainder(v: nat, b: nat): (r: nat)
    requires 0 < b
    ensures r < b
  {
    v % b
  }

  lemma {:induction false} FixedDigits(v: nat, n: nat, b: nat)
    requires 0 < b
    ensures Digits(Fixed(v, n, b), b)
    decreases n
  {
    if n > 0 {
      FixedDigits(Quotient(v, b), n - 1, b);
    }
  }

  lemma PowPositive(b: nat, e: nat)
    requires 0 < b
    ensures 0 < Pow(b, e)
  {
    if e > 0 {
      PowPositive(b, e - 1);
      MulPositive(b, Pow(b, e - 1));
    }
  }

  lemma MulPositive(x: nat, y: nat)
    requires 0 < x && 0 < y
    ensures 0 < x * y
  {
  }

  lemma {:induction false} PowAdd(b: nat, m: nat, n: nat)
    ensures Pow(b, m + n) == Pow(b, m) * Pow(b, n)
  {
    if m > 0 {
      PowAdd(b, m - 1, n);
      assert Pow(b, m + n) == b * (Pow(b, m - 1) * Pow(b, n));
      MulAssoc(b, Pow(b, m - 1), Pow(b, n));
    }
  }

  lemma {:induction false} PowPow(b: nat, m: nat, n: nat)
    ensures Pow(Pow(b, m), n) == Pow(b, m * n)
  {
    if n > 0 {
      PowPow(b, m, n - 1);
      PowAdd(b, m, m * (n - 1));
      assert m + m * (n - 1) == m * n;
    } else {
      assert m * n == 0;
    }
  }

  lemma MulAssoc(x: int, y: int, z: int)
    ensures x * (y * z) == (x * y) * z
  {
  }

  lemma MulMono(x: int, y: int, z: int)
    requires x <= y && 0 <= z
    ensures x * z <= y * z
  {
  }

  /** The quotient and the remainder are determined by the equation and the range. */
  lemma DivModUnique(v: int, b: int, q: int, r: int)
    requires 0 < b && v == q * b + r && 0 <= r < b
    ensures v / b == q && v % b == r
  {
    var q', r' := v / b, v % b;
    assert v == q' * b + r' && 0 <= r' < b;
    assert (q - q') * b == r' - r;
    if q > q' {
      MulMono(1, q - q', b);
    } else if q < q' {
      MulMono(1, q' - q, b);
    }
  }

  lemma OneMoreDigit(v: nat, p: nat, d: nat, b: nat)
    requires v < p && d < b
    ensures v * b + d < b * p
  {
    MulMono(v + 1, p, b);
  }

  lemma {:induction false} ValueBelowPow(ds: seq<nat>, b: nat)
    requires Digits(ds, b)
    ensures Value(ds, b) < Pow(b, |ds|)
  {
    if ds != [] {
      var init, last := ds[..|ds| - 1], ds[|ds| - 1];
      ValueBelowPow(init, b);
      OneMoreDigit(Value(init, b), Pow(b, |init|), last, b);
    }
  }

  lemma {:induction false} FixedOfValue(ds: seq<nat>, b: nat)
    requires 0 < b && Digits(ds, b)
    ensures Fixed(Value(ds, b), |ds|, b) == ds
  {
    if ds != [] {
      var init := ds[..|ds| - 1];
      FixedOfValue(init, b);
      DivModUnique(Value(ds, b), b, Value(init, b), ds[|ds| - 1]);
    }
  }

  lemma QuotientRemainder(v: nat, b: nat)
    requires 0 < b
    ensures v == Quotient(v, b) * b + Remainder(v, b)
  {
  }

  lemma QuotientBelow(v: nat, b: nat, p: nat)
    requires 0 < b && v < b * p
    ensures Quotient(v, b) < p
  {
    hide Quotient, Remainder;
    QuotientRemainder(v, b);
    if p <= Quotient(v, b) {
      MulMono(p, Quotient(v, b), b);
    }
  }

  lemma {:induction false} ValueOfFixed(v: nat, n: nat, b: nat)
    requires 0 < b && v < Pow(b, n)
    ensures Value(Fixed(v, n, b), b) == v
    decreases n
  {
    hide Quotient, Remainder;
    if n > 0 {
      var q := Quotient(v, b);
      QuotientBelow(v, b, Pow(b, n - 1));
      ValueOfFixed(q, n - 1, b);
      assert Fixed(v, n, b)[..n - 1] == Fixed(q, n - 1, b);
      QuotientRemainder(v, b);
    }
  }

  lemma Horner(x: nat, p: nat, y: nat, b: nat)
    ensures (x * p + y) * b == x * (b * p) + y * b
  {
    MulAssoc(x, p, b);
  }

  lemma {:induction false} ValueAppend(xs: seq<nat>, ys: seq<nat>, b: nat)
    ensures Value(xs + ys, b) == Value(xs, b) * Pow(b, |ys|) + Value(ys, b)
  {
    if ys == [] {
      assert xs + ys == xs;
    } else {
      var init, last := ys[..|ys| - 1], ys[|ys| - 1];
      assert (xs + ys)[..|xs + ys| - 1] == xs + init;
      ValueAppend(xs, init, b);
      Horner(Value(xs, b), Pow(b, |init|), Value(init, b), b);
    }
  }

  /** Digit `i` of a fixed-width numeral, read directly off the value by a shift and a mask. */
  lemma {:induction false} FixedDigit(v: nat, n: nat, b: nat, i: nat)
    requires 0 < b && i < n
    ensures 0 < Pow(b, n - 1 - i)
    ensures Fixed(v, n, b)[i] == Remainder(Quotient(v, Pow(b, n - 1 - i)), b)
    decreases n
  {
    PowPositive(b, n - 1 - i);
    if i < n - 1 {
      FixedDigit(Quotient(v, b), n - 1, b, i);
      DivDiv(v, b, Pow(b, n - 2 - i));
    }
  }

  lemma DivDiv(v: nat, b: nat, c: nat)
    requires 0 < b && 0 < c
    ensures 0 < b * c && Quotient(Quotient(v, b), c) == Quotient(v, b * c)
  {
    MulPositive(b, c);
    var q, r := Quotient(Quotient(v, b), c), Remainder(Quotient(v, b), c);
    assert v == (q * c + r) * b + Remainder(v, b);
    assert (q * c + r) * b == q * (b * c) + r * b by {
      MulAssoc(q, c, b);
    }
    MulMono(r + 1, c, b);
    DivModUnique(v, b * c, q, r * b + Remainder(v, b));
  }

  // ---- decimal text ----

  predicate DecimalDigit(c: char) {
    '0' <= c <= '9'
  }

  predicate AllDecimal(s: string) {
    forall i | 0 <= i < |s| :: DecimalDigit(s[i])
  }

  function DigitChar(d: nat): (c: char)
    requires d < 10
    ensures DecimalDigit(c) && c as int - '0' as int == d
  {
    ('0' as int + d) as char
  }

  /** The digits of a decimal text. */
  function DigitValues(s: string): (ds: seq<nat>)
    requires AllDecimal(s)
    ensures |ds| == |s| && Digits(ds, 10)
  {
    seq(|s|, i requires 0 <= i < |s| => s[i] as int - '0' as int)
  }

  /** int() of a non-empty run of ASCII digits. */
  function ReadDecimal(s: string): nat
    requires AllDecimal(s)
  {
    Value(DigitValues(s), 10)
  }

  /** str() of a natural number. */
  function DecimalText(n: nat): (s: string)
    ensures AllDecimal(s) && s != ""
  {
    if n < 10 then [DigitChar(n)] else DecimalText(n / 10) + [DigitChar(n % 10)]
  }

  lemma ReadDecimalAppend(s: string, t: string)
    requires AllDecimal(s) && AllDecimal(t)
    ensures AllDecimal(s + t) && ReadDecimal(s + t) == ReadDecimal(s) * Pow(10, |t|) + ReadDecimal(t)
  {
    var ds, dt := DigitValues(s), DigitValues(t);
    assert DigitValues(s + t) == ds + dt;
    ValueAppend(ds, dt, 10);
  }

  lemma ReadDecimalDigit(d: nat)
    requires d < 10
    ensures ReadDecimal([DigitChar(d)]) == d
  {
    assert DigitValues([DigitChar(d)]) == [d];
    assert Value([d], 10) == Value([], 10) * 10 + d;
  }

  /** Printing and reading back is the identity. */
  lemma {:induction false} ReadDecimalText(n: nat)
    ensures ReadDecimal(DecimalText(n)) == n
  {
    ReadDecimalDigit(n % 10);
    if n >= 10 {
      ReadDecimalText(n / 10);
      ReadDecimalAppend(DecimalText(n / 10), [DigitChar(n % 10)]);
      assert Pow(10, 1) == 10;
    }
  }

  lemma DecimalTextInjective(m: nat, n: nat)
    requires DecimalText(m) == DecimalText(n)
    ensures m == n
  {
    ReadDecimalText(m);
    ReadDecimalText(n);
  }

  /** A number has at most `k` digits exactly when it is below 10^k. */
  lemma {:induction false} DecimalTextLength(n: nat, k: nat)
    requires 0 < k
    ensures |DecimalText(n)| <= k <==> n < Pow(10, k)
    decreases k
  {
    PowPositive(10, k - 1);
    if n >= 10 {
      if k > 1 {
        DecimalTextLength(n / 10, k - 1);
      } else {
        assert Pow(10, 1) == 10;
      }
    }
  }

  lemma {:induction false} ReadZeros(n: nat)
    ensures AllDecimal(Zeros(n)) && ReadDecimal(Zeros(n)) == 0
  {
    if n > 0 {
      ReadZeros(n - 1);
      ReadDecimalAppend(Zeros(n - 1), "0");
      ReadDecimalDigit(0);
      assert Zeros(n) == Zeros(n - 1) + "0";
    }
  }

  function Zeros(n: nat): (z: string)
    ensures |z| == n && AllDecimal(z)
  {
    seq(n, i => '0')
  }
}
