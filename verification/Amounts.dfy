/** Amount text: `parse_raw`, the plain-spelling gate in front of it, and the SDK's exact
    conversions between raw and decimal nano. */
module Amounts {
  import opened Text
  import opened Numerals
  import opened Json

  const RAW_EXPONENT := 30
  const RAW_PER_NANO: nat := 1_000_000_000_000_000_000_000_000_000_000

  lemma RawPerNano()
    ensures Pow(10, RAW_EXPONENT) == RAW_PER_NANO
  {
    assert Pow(10, 10) == 10_000_000_000;
    PowAdd(10, 10, 10);
    PowAdd(10, 20, 10);
  }

  // ---- int() ----

  /** Digits with single underscores between them. */
  predicate Grouped(s: string) {
    && s != "" && DecimalDigit(s[0]) && DecimalDigit(s[|s| - 1])
    && (forall i | 0 <= i < |s| :: DecimalDigit(s[i]) || s[i] == '_')
    && (forall i | 0 <= i < |s| - 1 :: !(s[i] == '_' && s[i + 1] == '_'))
  }

  function Ungrouped(s: string): (digits: string)
    requires forall i | 0 <= i < |s| :: DecimalDigit(s[i]) || s[i] == '_'
    ensures AllDecimal(digits)
  {
    if s == "" then ""
    else if s[0] == '_' then Ungrouped(s[1..]) else [s[0]] + Ungrouped(s[1..])
  }

  /** int(text) over ASCII digits: white space, one sign and underscores are accepted, and a
      number of more digits than the interpreter's limit is refused (None: ValueError). */
  function PyInt(limit: DigitLimit, text: string): Option<int> {
    var clean := Strip(text);
    var signed := clean != "" && (clean[0] == '-' || clean[0] == '+');
    var body := if signed then clean[1..] else clean;
    if !Grouped(body) then None else
    var digits := Ungrouped(body);
    if |digits| > limit then None
    else
      var n: int := ReadDecimal(digits);
      Some(if signed && clean[0] == '-' then -n else n)
  }

  /** Runs of digits with one underscore between any two. */
  lemma GroupedIff(s: string)
    ensures Grouped(s) <==>
      || (s != "" && AllDecimal(s))
      || exists i | 0 < i < |s| :: AllDecimal(s[..i]) && s[i] == '_' && Grouped(s[i + 1..])
  {
    if Grouped(s) && !AllDecimal(s) {
      var i := FirstUnderscore(s);
      var rest := s[i + 1..];
      assert forall j | 0 <= j < |rest| :: rest[j] == s[i + 1 + j];
      assert rest[|rest| - 1] == s[|s| - 1];
    }
    if i :| 0 < i < |s| && AllDecimal(s[..i]) && s[i] == '_' && Grouped(s[i + 1..]) {
      var rest := s[i + 1..];
      assert forall j | 0 <= j < |rest| :: rest[j] == s[i + 1 + j];
      assert forall j | 0 <= j < i :: s[..i][j] == s[j];
      forall j | 0 <= j < |s|
        ensures DecimalDigit(s[j]) || s[j] == '_'
      {
        assert j > i ==> rest[j - i - 1] == s[j];
      }
      forall j | 0 <= j < |s| - 1
        ensures !(s[j] == '_' && s[j + 1] == '_')
      {
        assert j > i ==> rest[j - i - 1] == s[j] && rest[j - i] == s[j + 1];
      }
      assert s[|s| - 1] == rest[|rest| - 1];
    }
  }

  lemma {:induction false} FirstUnderscore(s: string) returns (i: nat)
    requires (forall j | 0 <= j < |s| :: DecimalDigit(s[j]) || s[j] == '_') && !AllDecimal(s)
    ensures i < |s| && s[i] == '_' && AllDecimal(s[..i])
  {
    if s[0] == '_' {
      i := 0;
    } else {
      assert forall j | 0 <= j < |s[1..]| :: s[1..][j] == s[j + 1];
      var k := FirstUnderscore(s[1..]);
      i := k + 1;
      assert s[..i] == [s[0]] + s[1..][..k];
    }
  }

  /** Digits, whatever underscores stand between them, between white space and after a sign. */
  lemma PyIntReads(limit: DigitLimit, before: string, sign: string, body: string, after: string)
    requires AllSpace(before) && AllSpace(after) && sign in ["", "+", "-"] && Grouped(body)
    ensures PyInt(limit, before + (sign + body) + after) ==
            if |Ungrouped(body)| > limit then None
            else Some(if sign == "-" then -(ReadDecimal(Ungrouped(body)) as int) else ReadDecimal(Ungrouped(body)))
  {
    hide ReadDecimal, Strip;
    var clean := sign + body;
    assert !IsSpace(body[0]) && !IsSpace(body[|body| - 1]);
    assert clean[|clean| - 1] == body[|body| - 1];
    StripOf(before, clean, after);
    assert sign != "" ==> clean[0] == sign[0] && clean[1..] == body;
    assert sign == "" ==> clean == body;
  }

  /** What str() prints of an integer reads back as it. */
  lemma PrintedIntReads(limit: DigitLimit, i: int)
    ensures IntText(limit, i).Some? ==> PyInt(limit, IntText(limit, i).value) == Some(i)
  {
    hide ReadDecimal, Strip;
    var digits := DecimalText(if i < 0 then -i else i);
    UngroupedDigits(digits);
    ReadDecimalText(if i < 0 then -i else i);
    var sign := if i < 0 then "-" else "";
    assert "" + (sign + digits) + "" == sign + digits;
    assert i >= 0 ==> sign + digits == digits;
    PyIntReads(limit, "", sign, digits, "");
  }

  /** And nothing else reads. */
  lemma PyIntReadsOnly(limit: DigitLimit, text: string)
    returns (before: string, sign: string, body: string, after: string)
    requires PyInt(limit, text).Some?
    ensures text == before + (sign + body) + after && AllSpace(before) && AllSpace(after)
    ensures sign in ["", "+", "-"] && Grouped(body) && |Ungrouped(body)| <= limit
  {
    hide ReadDecimal, Strip;
    before, after := StripSplits(text);
    var clean := Strip(text);
    if clean != "" && (clean[0] == '-' || clean[0] == '+') {
      sign, body := clean[..1], clean[1..];
      assert clean == sign + body;
      assert sign == "-" || sign == "+";
    } else {
      sign, body := "", clean;
      assert clean == sign + body;
    }
  }

  /** Leaving the underscores out of a joined text leaves them out of its parts. */
  lemma {:induction false} UngroupedJoins(s: string, t: string)
    requires forall i | 0 <= i < |s| :: DecimalDigit(s[i]) || s[i] == '_'
    requires forall i | 0 <= i < |t| :: DecimalDigit(t[i]) || t[i] == '_'
    ensures (forall i | 0 <= i < |s + t| :: DecimalDigit((s + t)[i]) || (s + t)[i] == '_')
    ensures Ungrouped(s + t) == Ungrouped(s) + Ungrouped(t) && Ungrouped("_") == ""
  {
    if s == "" {
      assert s + t == t;
    } else {
      UngroupedJoins(s[1..], t);
      assert (s + t)[1..] == s[1..] + t;
    }
  }

  /** The first "." of a text, or its length. */
  function DotAt(s: string): (i: nat)
    ensures i <= |s|
    ensures i < |s| ==> s[i] == '.'
    ensures forall j | 0 <= j < i :: s[j] != '.'
  {
    if s == "" || s[0] == '.' then 0 else 1 + DotAt(s[1..])
  }

  /** A fraction padded with zeros and cut to 30 digits. */
  function Padded(frac: string): (p: string)
    ensures |p| == RAW_EXPONENT
  {
    Take(frac + Zeros(RAW_EXPONENT), RAW_EXPONENT)
  }

  /** The dotted half of `parse_raw`. */
  function ParseNano(limit: DigitLimit, intPart: string, frac: string): Option<int> {
    var whole := PyInt(limit, if intPart == "" then "0" else intPart);
    var part := PyInt(limit, Padded(frac));
    if whole.None? || part.None? then None else Some(whole.value * RAW_PER_NANO + part.value)
  }

  /** `parse_raw`: raw digits, or decimal nano cut to 30 fraction digits. */
  function ParseRaw(limit: DigitLimit, amount: string): Option<int> {
    var clean := Strip(amount);
    if clean == "" then Some(0) else
    var dot := DotAt(clean);
    if dot == |clean| then PyInt(limit, clean) else ParseNano(limit, clean[..dot], clean[dot + 1..])
  }

  /** fullmatch of [0-9]+(\.[0-9]{1,30})?. */
  predicate IsAmountString(s: string) {
    var dot := DotAt(s);
    && 0 < dot && AllDecimal(s[..dot])
    && (dot == |s| || (1 <= |s| - dot - 1 <= RAW_EXPONENT && AllDecimal(s[dot + 1..])))
  }

  /** `amount_text`: the plain spelling of a requirement's amount, if it has one. */
  function AmountText(limit: DigitLimit, amount: Json): Option<string> {
    match amount
    case Int(i) =>
      var text := IntText(limit, i);
      if text.Some? && IsAmountString(text.value) then text else None
    case Str(s) => if IsAmountString(s) then Some(s) else None
    case _ => None
  }

  // ---- what the readers compute on plain text ----

  lemma {:induction false} UngroupedDigits(s: string)
    requires AllDecimal(s)
    ensures Ungrouped(s) == s
  {
    if s != "" {
      UngroupedDigits(s[1..]);
    }
  }

  lemma PyIntOfDigits(limit: DigitLimit, s: string)
    requires s != "" && AllDecimal(s)
    ensures PyInt(limit, s) == if |s| > limit then None else Some(ReadDecimal(s))
  {
    StripNothing(s);
    UngroupedDigits(s);
  }

  /** The fraction padded to 30 digits stands for the same number of raw. */
  lemma PaddedFraction(frac: string)
    requires AllDecimal(frac) && |frac| <= RAW_EXPONENT
    ensures AllDecimal(Padded(frac))
    ensures ReadDecimal(Padded(frac)) == ReadDecimal(frac) * Pow(10, RAW_EXPONENT - |frac|)
  {
    hide ReadDecimal;
    assert Padded(frac) == frac + Zeros(RAW_EXPONENT - |frac|);
    ReadDecimalAppend(frac, Zeros(RAW_EXPONENT - |frac|));
    ReadZeros(RAW_EXPONENT - |frac|);
  }

  /** The integer digits and the fraction digits of a plain amount. */
  function IntDigits(s: string): (i: string)
    requires IsAmountString(s)
    ensures AllDecimal(i) && i != ""
  {
    s[..DotAt(s)]
  }

  function FracDigits(s: string): (f: string)
    requires IsAmountString(s)
    ensures AllDecimal(f) && |f| <= RAW_EXPONENT
    ensures f == "" <==> DotAt(s) == |s|
  {
    if DotAt(s) == |s| then "" else s[DotAt(s) + 1..]
  }

  lemma PlainEnds(s: string)
    requires IsAmountString(s)
    ensures Strip(s) == s && s != ""
  {
    assert s[0] == IntDigits(s)[0];
    if DotAt(s) == |s| {
      assert s[|s| - 1] == IntDigits(s)[|s| - 1];
    } else {
      assert s[|s| - 1] == FracDigits(s)[|FracDigits(s)| - 1];
    }
    StripNothing(s);
  }

  /** What a plain amount with this integer part and fraction is worth in raw, read as nano. */
  function NanoValue(whole: string, frac: string): nat
    requires AllDecimal(whole) && AllDecimal(frac) && |frac| <= RAW_EXPONENT
  {
    ReadDecimal(whole) * RAW_PER_NANO + ReadDecimal(frac) * Pow(10, RAW_EXPONENT - |frac|)
  }

  lemma ParseNanoDigits(limit: DigitLimit, whole: string, frac: string)
    requires AllDecimal(whole) && whole != "" && AllDecimal(frac) && |frac| <= RAW_EXPONENT
    ensures ParseNano(limit, whole, frac) == if |whole| > limit then None else Some(NanoValue(whole, frac))
  {
    hide PyInt, Padded, ReadDecimal;
    PyIntOfDigits(limit, whole);
    PaddedFraction(frac);
    PyIntOfDigits(limit, Padded(frac));
  }

  /** A plain amount reads as its raw digits, or as nano with nothing lost off its fraction;
      only the integer part can be too long to read. */
  lemma ParsePlain(limit: DigitLimit, s: string)
    requires IsAmountString(s)
    ensures ParseRaw(limit, s) ==
            if |IntDigits(s)| > limit then None
            else if DotAt(s) == |s| then Some(ReadDecimal(s))
            else Some(NanoValue(IntDigits(s), FracDigits(s)))
  {
    hide PyInt, ParseNano, NanoValue, Strip;
    PlainEnds(s);
    if DotAt(s) == |s| {
      assert s[..DotAt(s)] == s;
      PyIntOfDigits(limit, s);
    } else {
      ParseNanoDigits(limit, IntDigits(s), FracDigits(s));
    }
  }

  /** A blank amount reads as zero, and a fraction without an integer part as that fraction. */
  lemma SparseReads(limit: DigitLimit, blank: string, frac: string)
    requires AllSpace(blank) && AllDecimal(frac) && 1 <= |frac| <= RAW_EXPONENT
    ensures ParseRaw(limit, blank) == Some(0)
    ensures ParseRaw(limit, "." + frac) == Some(ReadDecimal(frac) * Pow(10, RAW_EXPONENT - |frac|))
  {
    hide PyInt, Padded, ReadDecimal, Pow;
    SpaceStrips(blank);
    var text := "." + frac;
    assert text[|text| - 1] == frac[|frac| - 1];
    StripNothing(text);
    assert text[..0] == "" && text[1..] == frac;
    PyIntOfDigits(limit, "0");
    ReadDecimalDigit(0);
    PaddedFraction(frac);
    PyIntOfDigits(limit, Padded(frac));
  }

  lemma NoDot(s: string)
    requires AllDecimal(s)
    ensures DotAt(s) == |s|
  {
  }

  lemma NaturalIsPlain(n: nat)
    ensures IsAmountString(DecimalText(n)) && DotAt(DecimalText(n)) == |DecimalText(n)|
    ensures IntDigits(DecimalText(n)) == DecimalText(n)
  {
    var text := DecimalText(n);
    NoDot(text);
    assert text[..|text|] == text;
  }

  lemma NegativeIsNotPlain(digits: string)
    ensures !IsAmountString("-" + digits)
  {
    var text := "-" + digits;
    assert !DecimalDigit(text[0]);
    assert 0 < DotAt(text) ==> text[..DotAt(text)][0] == '-';
  }

  /** Every raw integer that has a spelling reads back as itself; a negative one or one past
      the digit limit has none. */
  lemma AmountTextRoundTrip(limit: DigitLimit, n: int)
    ensures AmountText(limit, Int(n)).Some? <==> 0 <= n && |DecimalText(n)| <= limit
    ensures AmountText(limit, Int(n)).Some? ==> ParseRaw(limit, AmountText(limit, Int(n)).value) == Some(n)
  {
    hide ParseRaw, IsAmountString, DotAt, ReadDecimal;
    if 0 <= n {
      NaturalIsPlain(n);
      ReadDecimalText(n);
      ParsePlain(limit, DecimalText(n));
    } else {
      NegativeIsNotPlain(DecimalText(-n));
    }
  }

  // ---- the SDK's exact decimals ----

  /** decimal.Decimal as its constructor builds it: a sign, a coefficient and an exponent. */
  datatype Decimal = Finite(negative: bool, coefficient: nat, exponent: int) | NotFinite

  /** `_rescale`. */
  function Rescale(d: Decimal, shift: int): Decimal
    requires d.Finite?
  {
    d.(exponent := d.exponent + shift)
  }

  /** `nano_to_raw`: None where it raises ValueError. */
  function NanoToRaw(d: Decimal): Option<nat> {
    if d.NotFinite? || (d.negative && d.coefficient != 0) then None else
    var scaled := Rescale(d, RAW_EXPONENT);
    if scaled.exponent >= 0 then Some(scaled.coefficient * Pow(10, scaled.exponent)) else
    PowPositive(10, -scaled.exponent);
    var raw := Quotient(scaled.coefficient, Pow(10, -scaled.exponent));
    if raw * Pow(10, -scaled.exponent) != scaled.coefficient then None else Some(raw)
  }

  /** Exactly what converts: a finite decimal that is not negative and, times 10^30, whole; and it
      converts to that whole number. */
  lemma NanoToRawIff(d: Decimal, raw: nat)
    ensures NanoToRaw(d) == Some(raw) <==>
      && d.Finite? && (d.negative ==> d.coefficient == 0)
      && d.coefficient * Pow(10, PosPart(d.exponent + RAW_EXPONENT))
         == raw * Pow(10, PosPart(-d.exponent - RAW_EXPONENT))
  {
    if d.Finite? {
      var e := d.exponent + RAW_EXPONENT;
      if e < 0 {
        PowPositive(10, -e);
        QuotientRemainder(d.coefficient, Pow(10, -e));
        if d.coefficient == raw * Pow(10, -e) {
          DivModUnique(d.coefficient, Pow(10, -e), raw, 0);
        }
      }
    }
  }

  function PosPart(n: int): nat {
    if n < 0 then 0 else n
  }

  /** Decimal(text) of a plain amount text. */
  function PlainDecimal(s: string): Decimal
    requires IsAmountString(s)
  {
    Finite(false, ReadDecimal(IntDigits(s) + FracDigits(s)), -|FracDigits(s)|)
  }

  /** format(raw_to_nano(raw), "f") of a non-negative raw amount. */
  function NanoFixedPoint(raw: nat): string {
    var digits := DecimalText(raw);
    if |digits| > RAW_EXPONENT
    then digits[..|digits| - RAW_EXPONENT] + "." + digits[|digits| - RAW_EXPONENT..]
    else "0." + Zeros(RAW_EXPONENT - |digits|) + digits
  }

  function RStrip(s: string, c: char): (t: string)
    ensures t <= s
    ensures forall i | |t| <= i < |s| :: s[i] == c
    ensures t == "" || t[|t| - 1] != c
  {
    if s != "" && s[|s| - 1] == c then RStrip(s[..|s| - 1], c) else s
  }

  /** `nano_str`. */
  function NanoStr(raw: nat): string {
    var text := NanoFixedPoint(raw);
    var trimmed := if DotAt(text) < |text| then RStrip(RStrip(text, '0'), '.') else text;
    if trimmed == "" then "0" else trimmed
  }

  /** A plain text read as nano by the SDK: the integer digits scaled by 10^30 plus the
      fraction digits scaled to raw. */
  lemma NanoOfPlain(s: string)
    requires IsAmountString(s)
    ensures NanoToRaw(PlainDecimal(s)) == Some(NanoValue(IntDigits(s), FracDigits(s)))
  {
    var i, f := IntDigits(s), FracDigits(s);
    ReadDecimalAppend(i, f);
    PowAdd(10, |f|, RAW_EXPONENT - |f|);
    RawPerNano();
    ScaledSum(ReadDecimal(i), ReadDecimal(f), Pow(10, |f|), Pow(10, RAW_EXPONENT - |f|));
  }

  lemma ScaledSum(a: nat, b: nat, p: nat, q: nat)
    ensures (a * p + b) * q == a * (p * q) + b * q
  {
    MulAssoc(a, p, q);
  }

  lemma NoFraction(whole: string)
    requires AllDecimal(whole)
    ensures NanoValue(whole, "") == ReadDecimal(whole) * RAW_PER_NANO
  {
    assert ReadDecimal("") == 0;
    assert 0 * Pow(10, RAW_EXPONENT - 0) == 0;
  }

  lemma Undotted(s: string)
    requires IsAmountString(s) && DotAt(s) == |s|
    ensures IntDigits(s) == s && FracDigits(s) == ""
  {
    assert s[..DotAt(s)] == s;
  }

  /** On a dotted plain amount the facilitator and the SDK read the same raw. */
  lemma DottedReadersAgree(limit: DigitLimit, s: string)
    requires IsAmountString(s) && DotAt(s) < |s| && |IntDigits(s)| <= limit
    ensures ParseRaw(limit, s) == NanoToRaw(PlainDecimal(s))
  {
    hide ParseRaw, NanoToRaw, PlainDecimal, ReadDecimal, NanoValue, DotAt, IsAmountString, IntDigits, FracDigits;
    ParsePlain(limit, s);
    NanoOfPlain(s);
  }

  /** Undotted, the facilitator reads raw where the SDK reads whole nano. */
  lemma UndottedReadersDiffer(limit: DigitLimit, s: string)
    requires IsAmountString(s) && DotAt(s) == |s| && |s| <= limit
    ensures exists n: nat ::
              ParseRaw(limit, s) == Some(n) && NanoToRaw(PlainDecimal(s)) == Some(n * RAW_PER_NANO)
  {
    hide ParseRaw, NanoToRaw, PlainDecimal, ReadDecimal, NanoValue, DotAt, IsAmountString, IntDigits, FracDigits;
    Undotted(s);
    ParsePlain(limit, s);
    NanoOfPlain(s);
    NoFraction(s);
    var n := ReadDecimal(s);
    assert ParseRaw(limit, s) == Some(n) && NanoToRaw(PlainDecimal(s)) == Some(n * RAW_PER_NANO);
  }

  /** The fixed-point text splits into integer and 30 fraction digits that stand for `raw`. */
  lemma FixedPointParts(raw: nat) returns (i: string, f: string)
    ensures AllDecimal(i) && i != "" && AllDecimal(f) && |f| == RAW_EXPONENT
    ensures NanoFixedPoint(raw) == i + "." + f
    ensures ReadDecimal(i) * RAW_PER_NANO + ReadDecimal(f) == raw
  {
    hide ReadDecimal, Pow;
    var digits := DecimalText(raw);
    ReadDecimalText(raw);
    if |digits| > RAW_EXPONENT {
      i, f := digits[..|digits| - RAW_EXPONENT], digits[|digits| - RAW_EXPONENT..];
      assert digits == i + f;
      ReadDecimalAppend(i, f);
      RawPerNano();
    } else {
      i, f := "0", Zeros(RAW_EXPONENT - |digits|) + digits;
      PaddedLeft(digits, RAW_EXPONENT - |digits|);
      ReadDecimalDigit(0);
    }
  }

  lemma PaddedLeft(digits: string, n: nat)
    requires AllDecimal(digits)
    ensures AllDecimal(Zeros(n) + digits) && ReadDecimal(Zeros(n) + digits) == ReadDecimal(digits)
  {
    ReadZeros(n);
    ReadDecimalAppend(Zeros(n), digits);
    assert 0 * Pow(10, |digits|) == 0;
  }

  /** Trailing zeros of a fraction carry no value once it is scaled to 30 digits. */
  lemma TrimmedFraction(f: string, kept: nat)
    requires AllDecimal(f) && |f| == RAW_EXPONENT && kept <= |f|
    requires forall k | kept <= k < |f| :: f[k] == '0'
    ensures AllDecimal(f[..kept])
    ensures ReadDecimal(f) == ReadDecimal(f[..kept]) * Pow(10, RAW_EXPONENT - kept)
  {
    assert f == f[..kept] + Zeros(|f| - kept);
    ReadDecimalAppend(f[..kept], Zeros(|f| - kept));
    ReadZeros(|f| - kept);
  }

  /** What trimming zeros leaves of a fixed-point text: its fraction up to `kept` digits. */
  lemma TrimmedZeros(i: string, f: string) returns (kept: nat)
    requires AllDecimal(i) && AllDecimal(f)
    ensures kept <= |f| && RStrip(i + "." + f, '0') == i + "." + f[..kept]
    ensures forall k | kept <= k < |f| :: f[k] == '0'
    ensures kept > 0 ==> f[kept - 1] != '0'
  {
    var text := i + "." + f;
    var stripped := RStrip(text, '0');
    assert text[|i|] == '.';
    assert |i| < |stripped|;
    kept := |stripped| - |i| - 1;
    assert stripped == text[..|stripped|];
    assert forall k | 0 <= k < |f| :: text[|i| + 1 + k] == f[k];
  }

  /** The text `nano_str` prints is a plain amount worth `raw`. */
  lemma NanoStrIsPlain(raw: nat)
    ensures IsAmountString(NanoStr(raw))
    ensures NanoValue(IntDigits(NanoStr(raw)), FracDigits(NanoStr(raw))) == raw
  {
    hide ReadDecimal, NanoFixedPoint, IsAmountString, DotAt, RStrip;
    var i, f := FixedPointParts(raw);
    SplitAtDot(i, f);
    var kept := TrimmedZeros(i, f);
    TrimmedFraction(f, kept);
    if kept == 0 {
      assert i + "." + f[..0] == i + ".";
      TrimsOneDot(i);
      SplitAtEnd(i);
      assert f[..0] == "";
    } else {
      KeepsDigit(i + "." + f[..kept]);
      SplitAtDot(i, f[..kept]);
    }
  }

  lemma KeepsDigit(s: string)
    requires s != "" && s[|s| - 1] != '.'
    ensures RStrip(s, '.') == s
  {
  }

  lemma SplitAtDot(i: string, f: string)
    requires AllDecimal(i) && i != "" && AllDecimal(f) && 1 <= |f| <= RAW_EXPONENT
    ensures var s := i + "." + f;
      DotAt(s) == |i| && IsAmountString(s) && IntDigits(s) == i && FracDigits(s) == f
  {
    var s := i + "." + f;
    assert s[|i|] == '.';
    assert forall j | 0 <= j < |i| :: s[j] == i[j];
    assert s[..|i|] == i && s[|i| + 1..] == f;
  }

  lemma SplitAtEnd(i: string)
    requires AllDecimal(i) && i != ""
    ensures DotAt(i) == |i| && IsAmountString(i) && IntDigits(i) == i && FracDigits(i) == ""
  {
    NoDot(i);
    assert i[..|i|] == i;
  }

  lemma TrimsOneDot(i: string)
    requires AllDecimal(i) && i != ""
    ensures RStrip(i + ".", '.') == i
  {
    var t := RStrip(i + ".", '.');
    assert (i + ".")[|i| - 1] == i[|i| - 1];
    assert t == (i + ".")[..|t|];
  }

  /** No zero and no dot is left to trim off a printed fraction. */
  lemma NanoStrTrimmed(raw: nat)
    ensures NanoStr(raw) != ""
    ensures DotAt(NanoStr(raw)) < |NanoStr(raw)| ==> NanoStr(raw)[|NanoStr(raw)| - 1] !in "0."
  {
    hide ReadDecimal, NanoFixedPoint, DotAt, RStrip, IsAmountString;
    var i, f := FixedPointParts(raw);
    SplitAtDot(i, f);
    var kept := TrimmedZeros(i, f);
    if kept == 0 {
      assert i + "." + f[..0] == i + ".";
      TrimsOneDot(i);
      SplitAtEnd(i);
    } else {
      KeepsDigit(i + "." + f[..kept]);
      SplitAtDot(i, f[..kept]);
      assert (i + "." + f[..kept])[|i| + kept] == f[kept - 1];
    }
  }

  /** Printing a raw amount in nano and reading it back is the identity. */
  lemma NanoStrRoundTrip(raw: nat)
    ensures IsAmountString(NanoStr(raw)) && NanoToRaw(PlainDecimal(NanoStr(raw))) == Some(raw)
  {
    NanoStrIsPlain(raw);
    NanoOfPlain(NanoStr(raw));
  }
}
