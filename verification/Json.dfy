/** JSON values as the program reads them, with Python's rules for truth, equality and str(). */
module Json {
  import opened Text
  import opened Numerals

  datatype Json =
    | Null
    | Bool(b: bool)
    | Int(i: int)
    | Float(r: real)
    | Str(s: string)
    | List(items: seq<Json>)
    | Obj(fields: map<string, Json>)

  /** The longest decimal text int() and str(int) convert; the interpreter allows 4300 digits
      unless told otherwise, and never less than 640. */
  type DigitLimit = n: nat | 640 <= n witness 4300

  /** The parts of the interpreter the model does not open up: the str() of floats, lists and
      objects (None when it raises), and json.loads (None when it raises). */
  datatype Runtime = Runtime(digitLimit: DigitLimit, repr: Json -> Option<string>, loads: string -> Option<Json>)

  /** `value.get(name)` on an object: an absent key reads as null. */
  function Get(value: Json, name: string): Json
    requires value.Obj?
  {
    if name in value.fields then value.fields[name] else Null
  }

  /** bool(value). */
  predicate Truthy(value: Json) {
    match value
    case Null => false
    case Bool(b) => b
    case Int(i) => i != 0
    case Float(r) => r != 0.0
    case Str(s) => s != ""
    case List(items) => items != []
    case Obj(fields) => fields != map[]
  }

  /** What Python takes for false. */
  lemma FalsyIff(value: Json)
    ensures !Truthy(value) <==>
      || value == Null || value == Bool(false) || value == Int(0) || value == Float(0.0)
      || value == Str("") || value == List([]) || value == Obj(map[])
  {
  }

  /** `value or other`. */
  function Or(value: Json, other: Json): Json {
    if Truthy(value) then value else other
  }

  predicate Numeric(value: Json) {
    value.Bool? || value.Int? || value.Float?
  }

  function Number(value: Json): real
    requires Numeric(value)
  {
    match value
    case Bool(b) => if b then 1.0 else 0.0
    case Int(i) => i as real
    case Float(r) => r
  }

  /** `x == y`: numbers compare by value across bool, int and float. */
  predicate PyEq(x: Json, y: Json)
    decreases x
  {
    if Numeric(x) && Numeric(y) then Number(x) == Number(y)
    else match (x, y)
      case (Null, Null) => true
      case (Str(s), Str(t)) => s == t
      case (List(xs), List(ys)) => |xs| == |ys| && forall i | 0 <= i < |xs| :: PyEq(xs[i], ys[i])
      case (Obj(xs), Obj(ys)) => xs.Keys == ys.Keys && forall k | k in xs :: k in ys && PyEq(xs[k], ys[k])
      case _ => false
  }

  /** Every value equals itself. */
  lemma {:induction false} EqualsItself(value: Json)
    ensures PyEq(value, value)
    decreases value
  {
    match value
    case List(items) =>
      forall i | 0 <= i < |items|
        ensures PyEq(items[i], items[i])
      {
        EqualsItself(items[i]);
      }
    case Obj(fields) =>
      forall k | k in fields
        ensures PyEq(fields[k], fields[k])
      {
        EqualsItself(fields[k]);
      }
    case _ =>
  }

  /** True is 1 and False is 0, floats compare by value, and a container equals one that has the
      same places with equal values in them, and nothing of another kind. */
  lemma EqualValues(x: Json, y: Json)
    requires PyEq(x, y)
    ensures x.Null? <==> y.Null?
    ensures x.Str? || y.Str? ==> x == y
    ensures x.List? <==> y.List?
    ensures x.List? ==> |x.items| == |y.items| && forall i | 0 <= i < |x.items| :: PyEq(x.items[i], y.items[i])
    ensures x.Obj? <==> y.Obj?
    ensures x.Obj? ==> x.fields.Keys == y.fields.Keys
                       && forall k | k in x.fields :: k in y.fields && PyEq(x.fields[k], y.fields[k])
    ensures x.Bool? && y.Bool? ==> x == y
    ensures x.Int? && y.Int? ==> x == y
    ensures x.Bool? && y.Int? ==> y.i == if x.b then 1 else 0
    ensures x.Int? && y.Float? ==> y.r == x.i as real
  {
  }

  lemma BoolsAreNumbers()
    ensures PyEq(Bool(true), Int(1)) && PyEq(Bool(false), Int(0)) && PyEq(Int(1), Bool(true))
    ensures PyEq(Bool(true), Float(1.0)) && !PyEq(Bool(true), Bool(false))
  {
  }

  lemma StringsEqual(value: Json, s: string)
    ensures PyEq(value, Str(s)) <==> value == Str(s)
  {
  }

  /** str(int): refused past the digit limit. */
  function IntText(limit: DigitLimit, i: int): Option<string> {
    var digits := DecimalText(if i < 0 then -i else i);
    if |digits| > limit then None else Some(if i < 0 then "-" + digits else digits)
  }

  /** A natural number prints exactly when it is below 10 to the digit limit. */
  lemma IntPrintsIff(limit: DigitLimit, n: nat)
    ensures IntText(limit, n).Some? <==> n < Pow(10, limit)
  {
    DecimalTextLength(n, limit);
  }

  /** str(value), or None when it raises. */
  function PyStr(rt: Runtime, value: Json): Option<string> {
    match value
    case Null => Some("None")
    case Bool(b) => Some(if b then "True" else "False")
    case Int(i) => IntText(rt.digitLimit, i)
    case Str(s) => Some(s)
    case _ => rt.repr(value)
  }

  lemma ConstantsPrint(rt: Runtime)
    ensures PyStr(rt, Null) == Some("None") && PyStr(rt, Bool(true)) == Some("True")
    ensures PyStr(rt, Bool(false)) == Some("False") && PyStr(rt, Str("")) == Some("")
  {
  }

  /** str(value or ""). */
  function StrOrEmpty(rt: Runtime, value: Json): Option<string> {
    PyStr(rt, Or(value, Str("")))
  }

  /** Characters str.strip() removes. */
  predicate IsSpace(c: char) {
    || '\t' <= c <= '\r' || '\U{1c}' <= c <= ' ' || c == '\U{85}' || c == '\U{a0}' || c == '\U{1680}'
    || '\U{2000}' <= c <= '\U{200a}' || c == '\U{2028}' || c == '\U{2029}' || c == '\U{202f}'
    || c == '\U{205f}' || c == '\U{3000}'
  }

  /** One by one. */
  lemma SpacesAre(c: char)
    ensures IsSpace(c) <==>
      c in "\t\n\U{b}\U{c}\r\U{1c}\U{1d}\U{1e}\U{1f} \U{85}\U{a0}\U{1680}"
         + "\U{2000}\U{2001}\U{2002}\U{2003}\U{2004}\U{2005}\U{2006}\U{2007}\U{2008}\U{2009}\U{200a}"
         + "\U{2028}\U{2029}\U{202f}\U{205f}\U{3000}"
  {
  }

  function StripLeft(s: string): string {
    if s != "" && IsSpace(s[0]) then StripLeft(s[1..]) else s
  }

  function StripRight(s: string): string {
    if s != "" && IsSpace(s[|s| - 1]) then StripRight(s[..|s| - 1]) else s
  }

  function Strip(s: string): string {
    StripRight(StripLeft(s))
  }

  predicate AllSpace(s: string) {
    forall i | 0 <= i < |s| :: IsSpace(s[i])
  }

  lemma {:induction false} StripLeftSplits(s: string) returns (before: string)
    ensures s == before + StripLeft(s) && AllSpace(before)
    ensures StripLeft(s) != "" ==> !IsSpace(StripLeft(s)[0])
  {
    if s != "" && IsSpace(s[0]) {
      var rest := StripLeftSplits(s[1..]);
      before := [s[0]] + rest;
      assert s == [s[0]] + s[1..];
    } else {
      before := "";
    }
  }

  lemma {:induction false} StripRightSplits(s: string) returns (after: string)
    ensures s == StripRight(s) + after && AllSpace(after)
    ensures StripRight(s) != "" ==> !IsSpace(StripRight(s)[|StripRight(s)| - 1])
  {
    if s != "" && IsSpace(s[|s| - 1]) {
      var rest := StripRightSplits(s[..|s| - 1]);
      after := rest + [s[|s| - 1]];
      assert s == s[..|s| - 1] + [s[|s| - 1]];
    } else {
      after := "";
    }
  }

  /** Stripping takes white space off both ends and nothing else. */
  lemma StripSplits(s: string) returns (before: string, after: string)
    ensures s == before + Strip(s) + after && AllSpace(before) && AllSpace(after)
  {
    before := StripLeftSplits(s);
    after := StripRightSplits(StripLeft(s));
  }

  lemma {:induction false} StripLeftOf(before: string, rest: string)
    requires AllSpace(before) && rest != "" && !IsSpace(rest[0])
    ensures StripLeft(before + rest) == rest
  {
    if before == "" {
      assert before + rest == rest;
    } else {
      StripLeftOf(before[1..], rest);
      assert (before + rest)[1..] == before[1..] + rest;
    }
  }

  lemma {:induction false} StripRightOf(rest: string, after: string)
    requires AllSpace(after) && rest != "" && !IsSpace(rest[|rest| - 1])
    ensures StripRight(rest + after) == rest
  {
    if after == "" {
      assert rest + after == rest;
    } else {
      StripRightOf(rest, after[..|after| - 1]);
      assert (rest + after)[..|rest + after| - 1] == rest + after[..|after| - 1];
    }
  }

  /** And it takes all of it: what is left of a text between white space is that text. */
  lemma StripOf(before: string, word: string, after: string)
    requires AllSpace(before) && AllSpace(after) && word != "" && !IsSpace(word[0]) && !IsSpace(word[|word| - 1])
    ensures Strip(before + word + after) == word
  {
    assert before + word + after == before + (word + after);
    StripLeftOf(before, word + after);
    StripRightOf(word, after);
  }

  lemma {:induction false} SpaceStrips(s: string)
    requires AllSpace(s)
    ensures StripLeft(s) == "" && Strip(s) == ""
  {
    if s != "" {
      SpaceStrips(s[1..]);
    }
  }

  /** A string with no white space at its ends is left alone. */
  lemma StripNothing(s: string)
    requires s == "" || (!IsSpace(s[0]) && !IsSpace(s[|s| - 1]))
    ensures Strip(s) == s
  {
  }

  function Lower(c: char): char {
    if 'A' <= c <= 'Z' then (c as int + 32) as char else c
  }

  /** Changing case twice is changing it once. */
  lemma CaseRoundTrip(c: char)
    ensures Lower(Upper(c)) == Lower(c) && Upper(Lower(c)) == Upper(c)
  {
  }

  function LowerAll(s: string): string {
    seq(|s|, i requires 0 <= i < |s| => Lower(s[i]))
  }

  /** Every integer inside the value is short enough to print: what json.loads, which refuses
      longer ones, guarantees of every value it returns. */
  ghost predicate Printable(limit: DigitLimit, value: Json)
    decreases value
  {
    match value
    case Int(i) => IntText(limit, i).Some?
    case List(items) => forall i | 0 <= i < |items| :: Printable(limit, items[i])
    case Obj(fields) => forall k | k in fields :: Printable(limit, fields[k])
    case _ => true
  }

  /** str() of a list or object only raises on an integer inside it that is too long. */
  ghost predicate Sound(rt: Runtime) {
    forall v: Json :: Printable(rt.digitLimit, v) ==> rt.repr(v).Some?
  }

  lemma PrintableStr(rt: Runtime, value: Json)
    requires Sound(rt) && Printable(rt.digitLimit, value)
    ensures StrOrEmpty(rt, value).Some? && PyStr(rt, value).Some?
  {
  }
}
