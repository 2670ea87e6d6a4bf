/** Nano addresses: fixed-width base32 of the public key and of its checksum. */
module Addresses {
  import opened Text
  import opened Numerals

  type byte = n: nat | n < 256

  const ALPHABET: string := "13456789abcdefghijkmnopqrstuwxyz"

  /** blake2b-40 of a key with its bytes reversed, as an unknown function of fixed width. */
  ghost predicate FiveBytes(checksum: seq<byte> -> seq<byte>) {
    forall key :: |checksum(key)| == 5
  }

  // ---- big-endian bytes ----

  /** int.from_bytes(bs, "big"). */
  function FromBytes(bs: seq<byte>): nat {
    Value(bs, 256)
  }

  /** v.to_bytes(n, "big"), which overflows unless v fits. */
  function ToBytes(v: nat, n: nat): (bs: seq<byte>)
    requires v < Pow(256, n)
    ensures |bs| == n
  {
    FixedDigits(v, n, 256);
    Fixed(v, n, 256)
  }

  lemma BytesRoundTrip(bs: seq<byte>)
    ensures FromBytes(bs) < Pow(256, |bs|) && ToBytes(FromBytes(bs), |bs|) == bs
  {
    ValueBelowPow(bs, 256);
    FixedOfValue(bs, 256);
  }

  lemma BytesOfValue(v: nat, n: nat)
    requires v < Pow(256, n)
    ensures FromBytes(ToBytes(v, n)) == v
  {
    ValueOfFixed(v, n, 256);
  }

  // ---- base32 ----

  function IndexFrom(c: char, i: nat): nat
    requires i <= 32
    decreases 32 - i
  {
    if i == 32 || ALPHABET[i] == c then i else IndexFrom(c, i + 1)
  }

  predicate InAlphabet(c: char) {
    IndexFrom(c, 0) < 32
  }

  /** `_ALPHABET_INDEX[c]`. */
  function IndexOf(c: char): (d: nat)
    requires InAlphabet(c)
    ensures d < 32
  {
    IndexFrom(c, 0)
  }

  /** The alphabet is in increasing order, so its characters are distinct. */
  lemma AlphabetIncreases(i: nat, j: nat)
    requires i < j < 32
    ensures ALPHABET[i] < ALPHABET[j]
    decreases j - i
  {
    assert forall k | 0 <= k < 31 :: ALPHABET[k] < ALPHABET[k + 1];
    if i + 1 < j {
      AlphabetIncreases(i + 1, j);
    }
  }

  /** Digits and lower-case letters other than 0, 2, l and v: with 32 of them in ascending order, all
      of those. */
  lemma AlphabetIs(i: nat)
    requires i < 32
    ensures |ALPHABET| == 32
    ensures '0' <= ALPHABET[i] <= '9' || 'a' <= ALPHABET[i] <= 'z'
    ensures ALPHABET[i] != '0' && ALPHABET[i] != '2' && ALPHABET[i] != 'l' && ALPHABET[i] != 'v'
  {
  }

  lemma {:induction false} IndexFromFinds(c: char, i: nat, d: nat)
    requires i <= d < 32 && ALPHABET[d] == c
    ensures IndexFrom(c, i) == d
    decreases d - i
  {
    if i < d {
      AlphabetIncreases(i, d);
      IndexFromFinds(c, i + 1, d);
    }
  }

  lemma {:induction false} IndexFromIsThere(c: char, i: nat)
    requires i <= 32 && IndexFrom(c, i) < 32
    ensures ALPHABET[IndexFrom(c, i)] == c
    decreases 32 - i
  {
    if i < 32 && ALPHABET[i] != c {
      IndexFromIsThere(c, i + 1);
    }
  }

  lemma DigitAndBack(d: nat)
    requires d < 32
    ensures InAlphabet(ALPHABET[d]) && IndexOf(ALPHABET[d]) == d
  {
    IndexFromFinds(ALPHABET[d], 0, d);
  }

  predicate AllInAlphabet(s: string) {
    forall i | 0 <= i < |s| :: InAlphabet(s[i])
  }

  /** `_b32_fixedwidth`: each character by a shift and a mask of five bits. */
  function B32Encode(value: nat, digits: nat): (s: string)
    ensures |s| == digits
  {
    seq(digits, i requires 0 <= i < digits =>
      PowPositive(32, digits - 1 - i);
      ALPHABET[Remainder(Quotient(value, Pow(32, digits - 1 - i)), 32)])
  }

  function Indices(s: string): (ds: seq<nat>)
    requires AllInAlphabet(s)
    ensures |ds| == |s| && Digits(ds, 32)
  {
    seq(|s|, i requires 0 <= i < |s| => IndexOf(s[i]))
  }

  function B32Value(s: string): nat
    requires AllInAlphabet(s)
  {
    Value(Indices(s), 32)
  }

  /** `_b32_decode`: shift in five bits per character. */
  method B32Decode(s: string) returns (n: nat)
    requires AllInAlphabet(s)
    ensures n == B32Value(s)
  {
    n := 0;
    for i := 0 to |s|
      invariant n == Value(Indices(s)[..i], 32)
    {
      assert Indices(s)[..i + 1][..i] == Indices(s)[..i];
      n := n * 32 + IndexOf(s[i]);
    }
    assert Indices(s)[..|s|] == Indices(s);
  }

  /** The encoder's characters are the digits of the value. */
  lemma EncodedIndices(value: nat, digits: nat)
    ensures AllInAlphabet(B32Encode(value, digits)) && Indices(B32Encode(value, digits)) == Fixed(value, digits, 32)
  {
    FixedDigits(value, digits, 32);
    forall i | 0 <= i < digits
      ensures InAlphabet(B32Encode(value, digits)[i])
      ensures IndexOf(B32Encode(value, digits)[i]) == Fixed(value, digits, 32)[i]
    {
      FixedDigit(value, digits, 32, i);
      DigitAndBack(Fixed(value, digits, 32)[i]);
    }
  }

  lemma B32RoundTrip(value: nat, digits: nat)
    requires value < Pow(32, digits)
    ensures AllInAlphabet(B32Encode(value, digits)) && B32Value(B32Encode(value, digits)) == value
  {
    EncodedIndices(value, digits);
    ValueOfFixed(value, digits, 32);
  }

  lemma B32Canonical(s: string)
    requires AllInAlphabet(s)
    ensures B32Value(s) < Pow(32, |s|) && B32Encode(B32Value(s), |s|) == s
  {
    ValueBelowPow(Indices(s), 32);
    FixedOfValue(Indices(s), 32);
    EncodedIndices(B32Value(s), |s|);
    var t := B32Encode(B32Value(s), |s|);
    forall i | 0 <= i < |s|
      ensures t[i] == s[i]
    {
      assert Indices(t)[i] == Indices(s)[i];
      IndexFromIsThere(t[i], 0);
      IndexFromIsThere(s[i], 0);
    }
  }

  // ---- widths ----

  lemma Widths()
    ensures Pow(256, 32) == 2 * Pow(32, 51)
    ensures Pow(256, 5) == Pow(32, 8)
    ensures Pow(256, 32) <= Pow(32, 52)
  {
    assert Pow(2, 8) == 256 && Pow(2, 5) == 32;
    PowPow(2, 8, 32);
    PowPow(2, 5, 51);
    PowAdd(2, 1, 255);
    assert Pow(2, 1) == 2;
    PowPow(2, 8, 5);
    PowPow(2, 5, 8);
    PowAdd(32, 1, 51);
    assert Pow(32, 1) == 32;
  }

  /** Dropping the most significant digit. */
  lemma LeadingDigit(ds: seq<nat>, b: nat)
    requires ds != [] && Digits(ds, b)
    ensures Value(ds, b) == ds[0] * Pow(b, |ds| - 1) + Value(ds[1..], b)
    ensures Value(ds[1..], b) < Pow(b, |ds| - 1)
  {
    assert ds == [ds[0]] + ds[1..];
    ValueAppend([ds[0]], ds[1..], b);
    assert Value([ds[0]], b) == Value([], b) * b + ds[0];
    ValueBelowPow(ds[1..], b);
  }

  /** A 52-character key field is below 2^256 exactly when it begins with '1' or '3'. */
  lemma FirstCharacterRule(field: string)
    requires |field| == 52 && AllInAlphabet(field)
    ensures B32Value(field) < Pow(256, 32) <==> field[0] == '1' || field[0] == '3'
  {
    hide Pow;
    var ds := Indices(field);
    LeadingDigit(ds, 32);
    Widths();
    var p := Pow(32, 51);
    if ds[0] >= 2 {
      MulMono(2, ds[0], p);
    } else {
      MulMono(ds[0], 1, p);
    }
    IndexFromIsThere(field[0], 0);
    DigitAndBack(0);
    DigitAndBack(1);
  }

  // ---- addresses ----

  /** `address_from_public_key`; None where it raises ValueError. */
  function AddressOf(checksum: seq<byte> -> seq<byte>, pub: seq<byte>): Option<string> {
    if |pub| != 32 then None
    else Some("nano_" + B32Encode(FromBytes(pub), 52) + B32Encode(FromBytes(checksum(pub)), 8))
  }

  /** What follows the separator, if the prefix is one of the two. */
  function Body(address: string): Option<string> {
    if "nano_" <= address then Some(address[5..])
    else if "xrb_" <= address then Some(address[4..]) else None
  }

  /** ADDRESS_RE. */
  predicate Matches(address: string) {
    var body := Body(address);
    && body.Some? && |body.value| == 60
    && (body.value[0] == '1' || body.value[0] == '3')
    && AllInAlphabet(body.value[1..])
  }

  lemma MatchedBody(address: string)
    requires Matches(address)
    ensures var body := Body(address).value;
      AllInAlphabet(body) && AllInAlphabet(body[..52]) && AllInAlphabet(body[52..]) && body == body[..52] + body[52..]
  {
    var body := Body(address).value;
    DigitAndBack(0);
    DigitAndBack(1);
    forall i | 0 <= i < 60
      ensures InAlphabet(body[i])
    {
      if i > 0 {
        assert body[i] == body[1..][i - 1];
      }
    }
  }

  /** `public_key_from_address`; None where it raises ValueError. The width check of the source
      is not repeated here: `ToBytes` may only be called because it cannot fire. */
  function KeyOf(checksum: seq<byte> -> seq<byte>, address: string): Option<seq<byte>> {
    if !Matches(address) then None else
    var body := Body(address).value;
    MatchedBody(address);
    FieldsFit(body);
    var pub := ToBytes(B32Value(body[..52]), 32);
    if ToBytes(B32Value(body[52..]), 5) != checksum(pub) then None else Some(pub)
  }

  /** Any string the pattern admits decodes below 2^256 and 2^40. */
  lemma FieldsFit(body: string)
    requires |body| == 60 && AllInAlphabet(body[..52]) && AllInAlphabet(body[52..])
    requires body[0] == '1' || body[0] == '3'
    ensures B32Value(body[..52]) < Pow(256, 32) && B32Value(body[52..]) < Pow(256, 5)
  {
    hide Pow;
    FirstCharacterRule(body[..52]);
    Widths();
    ValueBelowPow(Indices(body[52..]), 32);
  }

  predicate ValidAddress(checksum: seq<byte> -> seq<byte>, address: string) {
    KeyOf(checksum, address).Some?
  }

  /** Every 32-byte key encodes to an address the pattern admits, and decodes back to itself. */
  lemma KeyRoundTrip(checksum: seq<byte> -> seq<byte>, pub: seq<byte>)
    requires FiveBytes(checksum) && |pub| == 32
    ensures AddressOf(checksum, pub).Some? && Matches(AddressOf(checksum, pub).value)
    ensures KeyOf(checksum, AddressOf(checksum, pub).value) == Some(pub)
  {
    hide Pow, Value, B32Encode, InAlphabet;
    var address := AddressOf(checksum, pub).value;
    var field, tail := B32Encode(FromBytes(pub), 52), B32Encode(FromBytes(checksum(pub)), 8);
    Widths();
    BytesRoundTrip(pub);
    BytesRoundTrip(checksum(pub));
    B32RoundTrip(FromBytes(pub), 52);
    B32RoundTrip(FromBytes(checksum(pub)), 8);
    FirstCharacterRule(field);
    assert address[5..] == field + tail;
    assert (field + tail)[..52] == field && (field + tail)[52..] == tail;
  }

  /** Every valid `nano_` address is the one its key encodes to. */
  lemma AddressRoundTrip(checksum: seq<byte> -> seq<byte>, address: string)
    requires ValidAddress(checksum, address) && "nano_" <= address
    ensures AddressOf(checksum, KeyOf(checksum, address).value) == Some(address)
  {
    hide Pow, Value, B32Encode, InAlphabet;
    var body := Body(address).value;
    MatchedBody(address);
    FieldsFit(body);
    B32Canonical(body[..52]);
    B32Canonical(body[52..]);
    BytesOfValue(B32Value(body[..52]), 32);
    BytesOfValue(B32Value(body[52..]), 5);
    assert address == "nano_" + body[..52] + body[52..];
  }

  /** The legacy prefix changes nothing: both spellings of a body decode alike. */
  lemma LegacyPrefix(checksum: seq<byte> -> seq<byte>, body: string)
    ensures KeyOf(checksum, "xrb_" + body) == KeyOf(checksum, "nano_" + body)
  {
    assert ("xrb_" + body)[4..] == body && ("nano_" + body)[5..] == body;
    assert ("xrb_" + body)[0] == 'x';
  }

  /** Distinct keys have distinct addresses. */
  lemma AddressesDistinct(checksum: seq<byte> -> seq<byte>, p: seq<byte>, q: seq<byte>)
    requires FiveBytes(checksum) && |p| == 32 && |q| == 32
    requires AddressOf(checksum, p) == AddressOf(checksum, q)
    ensures p == q
  {
    hide AddressOf, KeyOf;
    KeyRoundTrip(checksum, p);
    KeyRoundTrip(checksum, q);
  }
}
