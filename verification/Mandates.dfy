/** The bytes an owner signs for a mandate, and what a verified signature over them settles. */
module Mandates {
  import opened Text
  import opened Numerals
  import opened Addresses

  /** A float time. A finite one is known by its rank among the finite floats, which compare as
      their ranks do. */
  datatype Time = NaN | NegInf | Finite(rank: int) | PosInf

  /** `a > b`: false whenever either is NaN. */
  predicate Later(a: Time, b: Time) {
    && !a.NaN? && !b.NaN? && a != b
    && (a.PosInf? || b.NegInf? || (a.Finite? && b.Finite? && a.rank > b.rank))
  }

  /** `a <= b`: false whenever either is NaN, too. */
  predicate NotLater(a: Time, b: Time) {
    !a.NaN? && !b.NaN? && !Later(a, b)
  }

  /** `Mandate`, without its signature. */
  datatype Mandate = Mandate(sessionId: string, address: string, capRaw: int, issuedAt: Time, expiresAt: Time,
                             nonce: seq<byte>, version: int)

  /** Two encodings of the interpreter: UTF-8, and repr() of a float as ASCII bytes. */
  datatype Encoding = Encoding(utf8: string -> seq<byte>, repr: Time -> seq<byte>)

  predicate NulFree(bs: seq<byte>) {
    forall i | 0 <= i < |bs| :: bs[i] != 0
  }

  /** Both tell different values apart, and repr() prints no NUL. */
  ghost predicate Faithful(enc: Encoding) {
    && (forall s, t :: enc.utf8(s) == enc.utf8(t) ==> s == t)
    && (forall x, y :: enc.repr(x) == enc.repr(y) ==> x == y)
    && (forall x :: NulFree(enc.repr(x)))
  }

  // ---- the parts ----

  predicate IsAscii(s: string) {
    forall i | 0 <= i < |s| :: s[i] as int < 128
  }

  /** encode("ascii"). */
  function Ascii(s: string): (bs: seq<byte>)
    requires IsAscii(s)
    ensures |bs| == |s|
  {
    seq(|s|, i requires 0 <= i < |s| => s[i] as int)
  }

  /** str(n).encode(). */
  function IntBytes(n: int): seq<byte> {
    var digits := DecimalText(if n < 0 then -n else n);
    Ascii(if n < 0 then "-" + digits else digits)
  }

  function HexChar(d: nat): (c: char)
    requires d < 16
    ensures HexDigit(c)
  {
    if d < 10 then ('0' as int + d) as char else ('a' as int + d - 10) as char
  }

  /** bytes.hex(). */
  function HexText(bs: seq<byte>): (s: string)
    ensures |s| == 2 * |bs| && AllHex(s)
  {
    if bs == [] then "" else HexText(bs[..|bs| - 1]) + [HexChar(bs[|bs| - 1] / 16), HexChar(bs[|bs| - 1] % 16)]
  }

  lemma AsciiInjective(s: string, t: string)
    requires IsAscii(s) && IsAscii(t) && Ascii(s) == Ascii(t)
    ensures s == t
  {
    forall i | 0 <= i < |s|
      ensures s[i] == t[i]
    {
      assert Ascii(s)[i] == Ascii(t)[i];
    }
  }

  lemma IntBytesFacts(n: int)
    ensures NulFree(IntBytes(n)) && IntBytes(n) != []
  {
  }

  lemma IntBytesInjective(m: int, n: int)
    requires IntBytes(m) == IntBytes(n)
    ensures m == n
  {
    var dm, dn := DecimalText(if m < 0 then -m else m), DecimalText(if n < 0 then -n else n);
    var sm, sn := if m < 0 then "-" + dm else dm, if n < 0 then "-" + dn else dn;
    AsciiInjective(sm, sn);
    assert sm[0] == sn[0];
    assert DecimalDigit(dm[0]) && DecimalDigit(dn[0]);
    assert m < 0 <==> n < 0;
    if m < 0 {
      assert sm[1..] == dm && sn[1..] == dn;
    }
    DecimalTextInjective(if m < 0 then -m else m, if n < 0 then -n else n);
  }

  lemma HexCharInjective(d: nat, e: nat)
    requires d < 16 && e < 16 && HexChar(d) == HexChar(e)
    ensures d == e
  {
  }

  lemma HexTextEnds(a: seq<byte>)
    requires a != []
    ensures var s, x := HexText(a), a[|a| - 1];
      s[|s| - 2] == HexChar(x / 16) && s[|s| - 1] == HexChar(x % 16) && s[..|s| - 2] == HexText(a[..|a| - 1])
  {
  }

  lemma {:induction false} HexTextInjective(a: seq<byte>, b: seq<byte>)
    requires HexText(a) == HexText(b)
    ensures a == b
  {
    hide HexText, HexChar;
    assert |a| == |b|;
    if a != [] {
      var x, y := a[|a| - 1], b[|b| - 1];
      HexTextEnds(a);
      HexTextEnds(b);
      HexCharInjective(x / 16, y / 16);
      HexCharInjective(x % 16, y % 16);
      HexTextInjective(a[..|a| - 1], b[..|b| - 1]);
      assert a == a[..|a| - 1] + [x] && b == b[..|b| - 1] + [y];
    }
  }

  /** A valid address is ASCII without NUL. */
  lemma AddressIsAscii(checksum: seq<byte> -> seq<byte>, address: string)
    requires ValidAddress(checksum, address)
    ensures IsAscii(address) && forall i | 0 <= i < |address| :: address[i] as int != 0
  {
    var body := Body(address).value;
    MatchedBody(address);
    var skip := |address| - 60;
    forall i | 0 <= i < |address|
      ensures 0 < address[i] as int < 128
    {
      if i < skip {
        assert "nano_" <= address || "xrb_" <= address;
        assert address[i] == (if "nano_" <= address then "nano_"[i] else "xrb_"[i]);
      } else {
        assert address[i] == body[i - skip];
        IndexFromIsThere(body[i - skip], 0);
        AlphabetIsAscii(IndexOf(body[i - skip]));
      }
    }
  }

  lemma AlphabetIsAscii(d: nat)
    requires d < 32
    ensures '1' <= ALPHABET[d] <= 'z'
  {
    if 0 < d {
      AlphabetIncreases(0, d);
    }
    if d < 31 {
      AlphabetIncreases(d, 31);
    }
  }

  // ---- joining on NUL ----

  /** b"\0".join(parts). */
  function Join(parts: seq<seq<byte>>): seq<byte>
    requires parts != []
  {
    if |parts| == 1 then parts[0] else parts[0] + [0] + Join(parts[1..])
  }

  /** The eight parts `Mandate.canonical` joins. */
  function Parts(enc: Encoding, m: Mandate): (p: seq<seq<byte>>)
    requires IsAscii(m.address)
    ensures |p| == 8
  {
    [Ascii("nano-mandate"), IntBytes(m.version), enc.utf8(m.sessionId), Ascii(m.address), IntBytes(m.capRaw),
     enc.repr(m.issuedAt), enc.repr(m.expiresAt), Ascii(HexText(m.nonce))]
  }

  /** `Mandate.canonical`. */
  function Canonical(enc: Encoding, m: Mandate): seq<byte>
    requires IsAscii(m.address)
  {
    Join(Parts(enc, m))
  }

  /** The layout of the signed bytes: a tag, then the fields in this order, a NUL between any two. */
  lemma CanonicalLayout(enc: Encoding, m: Mandate)
    requires IsAscii(m.address)
    ensures Canonical(enc, m) ==
            Ascii("nano-mandate") + [0] + (IntBytes(m.version) + [0] +
            (enc.utf8(m.sessionId) + [0] + Ascii(m.address) + [0] + IntBytes(m.capRaw) + [0] +
             enc.repr(m.issuedAt) + [0] + enc.repr(m.expiresAt) + [0] + Ascii(HexText(m.nonce))))
  {
    hide Join;
    JoinEight(Parts(enc, m));
  }

  lemma FirstNul(x: seq<byte>, r: seq<byte>)
    requires NulFree(x)
    ensures var s := x + [0] + r;
      s[|x|] == 0 && (forall i | 0 <= i < |x| :: s[i] != 0) && s[..|x|] == x && s[|x| + 1..] == r
  {
  }

  lemma LastNul(r: seq<byte>, x: seq<byte>)
    requires NulFree(x)
    ensures var s := r + [0] + x;
      s[|r|] == 0 && (forall i | |r| < i < |s| :: s[i] != 0) && s[..|r|] == r && s[|r| + 1..] == x
  {
  }

  /** The first NUL splits a byte string in one way only. */
  lemma SplitFirst(x: seq<byte>, r: seq<byte>, x': seq<byte>, r': seq<byte>)
    requires NulFree(x) && NulFree(x') && x + [0] + r == x' + [0] + r'
    ensures x == x' && r == r'
  {
    FirstNul(x, r);
    FirstNul(x', r');
    assert |x| == |x'|;
  }

  /** So does the last. */
  lemma SplitLast(r: seq<byte>, x: seq<byte>, r': seq<byte>, x': seq<byte>)
    requires NulFree(x) && NulFree(x') && r + [0] + x == r' + [0] + x'
    ensures x == x' && r == r'
  {
    LastNul(r, x);
    LastNul(r', x');
    assert |r| == |r'|;
  }

  /** The eight parts, regrouped so that NUL-free ones can be split off from both ends. */
  lemma JoinEight(p: seq<seq<byte>>)
    requires |p| == 8
    ensures Join(p) == p[0] + [0] + (p[1] + [0] +
                       (p[2] + [0] + p[3] + [0] + p[4] + [0] + p[5] + [0] + p[6] + [0] + p[7]))
  {
    JoinSix(p[2..]);
    assert p[1..][1..] == p[2..];
    assert Join(p[1..]) == p[1] + [0] + Join(p[2..]);
  }

  lemma JoinSix(p: seq<seq<byte>>)
    requires |p| == 6
    ensures Join(p) == p[0] + [0] + p[1] + [0] + p[2] + [0] + p[3] + [0] + p[4] + [0] + p[5]
  {
    JoinThree(p[3..]);
    assert p[1..][1..][1..] == p[3..];
    assert Join(p[1..][1..]) == p[2] + [0] + Join(p[3..]);
    assert Join(p[1..]) == p[1] + [0] + Join(p[1..][1..]);
  }

  lemma JoinThree(p: seq<seq<byte>>)
    requires |p| == 3
    ensures Join(p) == p[0] + [0] + p[1] + [0] + p[2]
  {
    assert p[1..][1..] == p[2..];
    assert Join(p[2..]) == p[2];
    assert Join(p[1..]) == p[1] + [0] + Join(p[2..]);
  }

  /** Joining one more part onto a left-nested join. */
  function Then(r: seq<byte>, x: seq<byte>): seq<byte> {
    r + [0] + x
  }

  /** Five NUL-free parts after a part that may hold anything read back in one way. */
  lemma TailReadable(p: seq<seq<byte>>, q: seq<seq<byte>>)
    requires |p| == |q| == 6 && (forall i | 1 <= i < 6 :: NulFree(p[i]) && NulFree(q[i]))
    requires Then(Then(Then(Then(Then(p[0], p[1]), p[2]), p[3]), p[4]), p[5])
             == Then(Then(Then(Then(Then(q[0], q[1]), q[2]), q[3]), q[4]), q[5])
    ensures p == q
  {
    hide Then;
    var p1, q1 := Then(p[0], p[1]), Then(q[0], q[1]);
    var p2, q2 := Then(p1, p[2]), Then(q1, q[2]);
    var p3, q3 := Then(p2, p[3]), Then(q2, q[3]);
    var p4, q4 := Then(p3, p[4]), Then(q3, q[4]);
    ThenInjective(p4, p[5], q4, q[5]);
    ThenInjective(p3, p[4], q3, q[4]);
    ThenInjective(p2, p[3], q2, q[3]);
    ThenInjective(p1, p[2], q1, q[2]);
    ThenInjective(p[0], p[1], q[0], q[1]);
  }

  lemma ThenInjective(r: seq<byte>, x: seq<byte>, r': seq<byte>, x': seq<byte>)
    requires NulFree(x) && NulFree(x') && Then(r, x) == Then(r', x')
    ensures x == x' && r == r'
  {
    SplitLast(r, x, r', x');
  }

  /** Two NUL-free parts before a part that may hold anything, five after: one reading only. */
  lemma UniquelyReadable(p: seq<seq<byte>>, q: seq<seq<byte>>)
    requires |p| == |q| == 8 && Join(p) == Join(q)
    requires forall i | 0 <= i < 8 && i != 2 :: NulFree(p[i]) && NulFree(q[i])
    ensures p == q
  {
    hide Join, NulFree;
    JoinEight(p);
    JoinEight(q);
    var p6 := Then(Then(Then(Then(Then(p[2], p[3]), p[4]), p[5]), p[6]), p[7]);
    var q6 := Then(Then(Then(Then(Then(q[2], q[3]), q[4]), q[5]), q[6]), q[7]);
    SplitFirst(p[0], p[1] + [0] + p6, q[0], q[1] + [0] + q6);
    SplitFirst(p[1], p6, q[1], q6);
    TailReadable(p[2..], q[2..]);
    assert p == [p[0], p[1]] + p[2..] && q == [q[0], q[1]] + q[2..];
  }

  lemma HexIsNulFree(s: string)
    requires AllHex(s)
    ensures IsAscii(s) && NulFree(Ascii(s))
  {
  }

  lemma PartsNulFree(checksum: seq<byte> -> seq<byte>, enc: Encoding, m: Mandate)
    requires Faithful(enc) && ValidAddress(checksum, m.address)
    ensures IsAscii(m.address)
    ensures forall i | 0 <= i < 8 && i != 2 :: NulFree(Parts(enc, m)[i])
  {
    hide ValidAddress, IntBytes, HexText;
    AddressIsAscii(checksum, m.address);
    HexIsNulFree(HexText(m.nonce));
    IntBytesFacts(m.version);
    IntBytesFacts(m.capRaw);
  }

  /** The signed bytes determine every field of a mandate bound to a valid address, even when
      its session id contains NULs. */
  lemma CanonicalDetermines(checksum: seq<byte> -> seq<byte>, enc: Encoding, m: Mandate, n: Mandate)
    requires Faithful(enc) && ValidAddress(checksum, m.address) && ValidAddress(checksum, n.address)
    requires IsAscii(m.address) && IsAscii(n.address) && Canonical(enc, m) == Canonical(enc, n)
    ensures m == n
  {
    hide ValidAddress, Join, IntBytes, HexText;
    PartsNulFree(checksum, enc, m);
    PartsNulFree(checksum, enc, n);
    var p, q := Parts(enc, m), Parts(enc, n);
    UniquelyReadable(p, q);
    IntBytesInjective(m.version, n.version);
    AsciiInjective(m.address, n.address);
    IntBytesInjective(m.capRaw, n.capRaw);
    AsciiInjective(HexText(m.nonce), HexText(n.nonce));
    HexTextInjective(m.nonce, n.nonce);
  }

  /** The address check is what makes it so: without it a NUL can move from the session id
      into the address and leave the signed bytes as they were. */
  lemma UncheckedAddressIsAmbiguous(enc: Encoding, m: Mandate, n: Mandate)
    requires m.address == "b\0c" && n == m.(sessionId := n.sessionId, address := "c")
    requires enc.utf8(m.sessionId) == Ascii("a") && enc.utf8(n.sessionId) == Ascii("a\0b")
    ensures m != n && Canonical(enc, m) == Canonical(enc, n)
  {
    JoinEight(Parts(enc, m));
    JoinEight(Parts(enc, n));
    assert Ascii("a") + [0] + Ascii("b\0c") == Ascii("a\0b") + [0] + Ascii("c");
  }

  // ---- issuing and verifying ----

  /** Ed25519 verification of a signature over a message under a key. */
  type Verifier = (seq<byte>, seq<byte>, seq<byte>) -> bool

  /** The signature scheme as unknown functions: the public key of a private key, signing, and
      verifying. */
  datatype Scheme = Scheme(publicKey: seq<byte> -> seq<byte>, sign: (seq<byte>, seq<byte>) -> seq<byte>,
                           valid: Verifier)

  /** What is signed under a private key verifies under its public key. */
  ghost predicate Correct(scheme: Scheme) {
    forall key, message | |key| == 32 ::
      && |scheme.publicKey(key)| == 32 && scheme.sign(key, message) != []
      && scheme.valid(scheme.publicKey(key), scheme.sign(key, message), message)
  }

  /** A mandate and its signature. */
  datatype Signed = Signed(mandate: Mandate, signature: seq<byte>)

  datatype Verdict = Authentic | BadKey | Unsigned | BadCap | BadAddress | BadSignature | Expired

  /** `verify_mandate`, its checks in order; with `valid` for the signature. */
  function VerifyMandate(checksum: seq<byte> -> seq<byte>, enc: Encoding, valid: Verifier,
                         s: Signed, owner: seq<byte>, now: Time): Verdict
  {
    var m := s.mandate;
    if |owner| != 32 then BadKey
    else if s.signature == [] then Unsigned
    else if m.capRaw <= 0 then BadCap
    else if !ValidAddress(checksum, m.address) then BadAddress
    else
      AddressIsAscii(checksum, m.address);
      if !valid(owner, s.signature, Canonical(enc, m)) then BadSignature
      else if Later(now, m.expiresAt) then Expired else Authentic
  }

  /** What an owner asks for, and the random bytes that stand in for an empty nonce. */
  datatype Terms = Terms(sessionId: string, address: string, capRaw: int, issued: Time, expires: Time,
                         nonce: seq<byte>, random: seq<byte>)

  /** `issue_mandate`; None where it raises ValueError. */
  function IssueMandate(checksum: seq<byte> -> seq<byte>, enc: Encoding, scheme: Scheme, ownerKey: seq<byte>,
                        t: Terms): Option<Signed>
  {
    if !ValidAddress(checksum, t.address) || t.capRaw <= 0 || |ownerKey| != 32 || NotLater(t.expires, t.issued)
    then None
    else
      AddressIsAscii(checksum, t.address);
      var nonce := if t.nonce == [] then t.random else t.nonce;
      var mandate := Mandate(t.sessionId, t.address, t.capRaw, t.issued, t.expires, nonce, 1);
      Some(Signed(mandate, scheme.sign(ownerKey, Canonical(enc, mandate))))
  }

  /** What each refusal of a mandate means. */
  lemma MandateRefusalIs(checksum: seq<byte> -> seq<byte>, enc: Encoding, valid: Verifier,
                         s: Signed, owner: seq<byte>, now: Time)
    ensures var v := VerifyMandate(checksum, enc, valid, s, owner, now);
      && (v == BadKey <==> |owner| != 32)
      && (v == Unsigned ==> s.signature == [])
      && (v == BadCap ==> s.mandate.capRaw <= 0)
      && (v == BadAddress ==> !ValidAddress(checksum, s.mandate.address))
      && (v == BadSignature ==>
            IsAscii(s.mandate.address) && !valid(owner, s.signature, Canonical(enc, s.mandate)))
      && (v == Expired ==> Later(now, s.mandate.expiresAt))
      && (v == Authentic ==> !Later(now, s.mandate.expiresAt))
  {
    hide ValidAddress, Canonical;
    if ValidAddress(checksum, s.mandate.address) {
      AddressIsAscii(checksum, s.mandate.address);
    }
  }

  /** What an owner gets: there is a mandate exactly when the address is valid, the cap positive, the
      key 32 bytes and the expiry not at or before the issue; and it says what was asked for. */
  lemma IssuedAsAsked(checksum: seq<byte> -> seq<byte>, enc: Encoding, scheme: Scheme, ownerKey: seq<byte>, t: Terms)
    ensures IssueMandate(checksum, enc, scheme, ownerKey, t).None? <==>
      || !ValidAddress(checksum, t.address) || t.capRaw <= 0 || |ownerKey| != 32
      || t.expires == t.issued != NaN || Later(t.issued, t.expires)
    ensures IssueMandate(checksum, enc, scheme, ownerKey, t).Some? ==>
              var m := IssueMandate(checksum, enc, scheme, ownerKey, t).value.mandate;
              && m.sessionId == t.sessionId && m.address == t.address && m.capRaw == t.capRaw
              && m.issuedAt == t.issued && m.expiresAt == t.expires && m.version == 1
              && m.nonce == if t.nonce != [] then t.nonce else t.random
  {
    hide ValidAddress, Canonical;
  }

  /** Finite times compare as their ranks, the infinities lie beyond them, NaN nowhere. */
  lemma LaterOrders(a: Time, b: Time)
    ensures a.Finite? && b.Finite? ==> (Later(a, b) <==> b.rank < a.rank)
    ensures a != NaN && b != NaN && a != b ==> (Later(a, b) <==> !Later(b, a))
    ensures a == NaN || b == NaN || a == b ==> !Later(a, b)
    ensures a == PosInf && b != NaN && b != PosInf ==> Later(a, b)
    ensures b == NegInf && a != NaN && a != NegInf ==> Later(a, b)
  {
  }

  /** Every mandate an owner issues verifies under the owner's public key until a clock reads
      later than its expiry. */
  lemma IssuedVerifies(checksum: seq<byte> -> seq<byte>, enc: Encoding, scheme: Scheme, ownerKey: seq<byte>,
                       t: Terms, now: Time)
    requires Correct(scheme) && IssueMandate(checksum, enc, scheme, ownerKey, t).Some?
    ensures var s := IssueMandate(checksum, enc, scheme, ownerKey, t).value;
      VerifyMandate(checksum, enc, scheme.valid, s, scheme.publicKey(ownerKey), now)
      == if Later(now, t.expires) then Expired else Authentic
  {
    hide ValidAddress, Canonical;
    AddressIsAscii(checksum, t.address);
  }

  /** When a mandate expires at all: an issued one verifies at every time if and only if its
      expiry is NaN or infinite. */
  lemma NeverExpiresIff(checksum: seq<byte> -> seq<byte>, enc: Encoding, scheme: Scheme, ownerKey: seq<byte>,
                        t: Terms)
    requires Correct(scheme) && IssueMandate(checksum, enc, scheme, ownerKey, t).Some?
    ensures var s := IssueMandate(checksum, enc, scheme, ownerKey, t).value;
      (forall now :: VerifyMandate(checksum, enc, scheme.valid, s, scheme.publicKey(ownerKey), now) == Authentic)
      <==> t.expires.NaN? || t.expires.PosInf?
  {
    hide VerifyMandate, IssueMandate, Correct;
    forall now
      ensures VerifyMandate(checksum, enc, scheme.valid, IssueMandate(checksum, enc, scheme, ownerKey, t).value,
                            scheme.publicKey(ownerKey), now)
              == if Later(now, t.expires) then Expired else Authentic
    {
      IssuedVerifies(checksum, enc, scheme, ownerKey, t, now);
    }
    assert t.expires.Finite? ==> Later(Finite(t.expires.rank + 1), t.expires);
    assert t.expires.NegInf? ==> Later(PosInf, t.expires);
  }

  /** The input behind the first case: asked for a NaN expiry, the owner's check that it lies
      after the issue lets it through, and the mandate verifies at every time. */
  lemma NaNExpiryIsIssued(checksum: seq<byte> -> seq<byte>, enc: Encoding, scheme: Scheme, ownerKey: seq<byte>,
                          t: Terms, now: Time)
    requires Correct(scheme) && ValidAddress(checksum, t.address) && t.capRaw > 0 && |ownerKey| == 32
    requires t.expires == NaN
    ensures var s := IssueMandate(checksum, enc, scheme, ownerKey, t);
      s.Some? && VerifyMandate(checksum, enc, scheme.valid, s.value, scheme.publicKey(ownerKey), now) == Authentic
  {
    IssuedVerifies(checksum, enc, scheme, ownerKey, t, now);
  }

  /** This signature verifies over no message but the one it was made for. */
  ghost predicate Binds(scheme: Scheme, key: seq<byte>, message: seq<byte>) {
    forall other :: scheme.valid(scheme.publicKey(key), scheme.sign(key, message), other) ==> other == message
  }

  /** Nothing in a grant can be edited: under the signature of an issued mandate the mandate itself
      verifies until it expires, and no other mandate does at any time. */
  lemma OnlyTheIssuedVerifies(checksum: seq<byte> -> seq<byte>, enc: Encoding, scheme: Scheme, ownerKey: seq<byte>,
                              t: Terms, m: Mandate, now: Time)
    requires Faithful(enc) && Correct(scheme) && IssueMandate(checksum, enc, scheme, ownerKey, t).Some?
    requires var s := IssueMandate(checksum, enc, scheme, ownerKey, t).value;
      IsAscii(s.mandate.address) && Binds(scheme, ownerKey, Canonical(enc, s.mandate))
    ensures var s := IssueMandate(checksum, enc, scheme, ownerKey, t).value;
      VerifyMandate(checksum, enc, scheme.valid, s.(mandate := m), scheme.publicKey(ownerKey), now) == Authentic <==>
        m == s.mandate && !Later(now, t.expires)
  {
    hide ValidAddress, Canonical, Correct, Faithful;
    IssuedVerifies(checksum, enc, scheme, ownerKey, t, now);
    var s := IssueMandate(checksum, enc, scheme, ownerKey, t).value;
    if VerifyMandate(checksum, enc, scheme.valid, s.(mandate := m), scheme.publicKey(ownerKey), now) == Authentic {
      AddressIsAscii(checksum, m.address);
      CanonicalDetermines(checksum, enc, m, s.mandate);
    }
  }

  /** If what verifies here was signed by the owner, the signed bytes are those of a mandate the
      owner issued. */
  ghost predicate Unforged(enc: Encoding, valid: Verifier, issued: set<Mandate>, s: Signed, owner: seq<byte>) {
    IsAscii(s.mandate.address) && valid(owner, s.signature, Canonical(enc, s.mandate)) ==>
      exists n | n in issued :: IsAscii(n.address) && Canonical(enc, s.mandate) == Canonical(enc, n)
  }

  /** A mandate that verifies is one the owner issued, unedited in every field, for a positive
      cap, and no clock reading later than its expiry. */
  lemma VerifiedWasIssued(checksum: seq<byte> -> seq<byte>, enc: Encoding, valid: Verifier,
                          issued: set<Mandate>, s: Signed, owner: seq<byte>, now: Time)
    requires Faithful(enc) && forall n | n in issued :: ValidAddress(checksum, n.address)
    requires Unforged(enc, valid, issued, s, owner)
    requires VerifyMandate(checksum, enc, valid, s, owner, now) == Authentic
    ensures s.mandate in issued && 0 < s.mandate.capRaw && !Later(now, s.mandate.expiresAt)
  {
    hide Canonical, ValidAddress;
    AddressIsAscii(checksum, s.mandate.address);
    var n :| n in issued && IsAscii(n.address) && Canonical(enc, s.mandate) == Canonical(enc, n);
    CanonicalDetermines(checksum, enc, s.mandate, n);
  }
}
