/** One-time payment addresses: HKDF from the master secret and the request id to a private
    key, then its public key, then its address. */
module OneShot {
  import opened Text
  import opened Addresses
  import opened Hkdf
  import opened Json
  import opened ClaimProtocol
  import opened ResourceServer

  /** The cryptography the derivation uses, as unknown functions of fixed result sizes. */
  datatype Crypto = Crypto(hmac: Hmac, publicKey: seq<byte> -> seq<byte>, checksum: seq<byte> -> seq<byte>,
                           utf8: string -> seq<byte>)

  ghost predicate Sized(c: Crypto) {
    HashSized(c.hmac) && FiveBytes(c.checksum) && forall key :: |c.publicKey(key)| == 32
  }

  /** The private key of a request id: HKDF-SHA256 with no salt, the request id as info, L = 32. */
  ghost function OneTimeKey(c: Crypto, master: seq<byte>, requestId: string): (key: seq<byte>)
    requires Sized(c)
    ensures |key| == 32
  {
    Okm(c.hmac, Extract(c.hmac, None, master), c.utf8(requestId), 32)
  }

  /** Which is one block: the request id, under the master secret, under 32 zero bytes. */
  lemma OneTimeKeyIs(c: Crypto, master: seq<byte>, requestId: string)
    requires Sized(c)
    ensures OneTimeKey(c, master, requestId) ==
            c.hmac(c.hmac(seq(32, i => 0), master), c.utf8(requestId) + [1])
  {
    assert ZeroSalt() == seq(32, i => 0);
    OneBlock(c.hmac, Extract(c.hmac, None, master), c.utf8(requestId), 32);
  }

  ghost function OneTimePublicKey(c: Crypto, master: seq<byte>, requestId: string): (pub: seq<byte>)
    requires Sized(c)
    ensures |pub| == 32
  {
    c.publicKey(OneTimeKey(c, master, requestId))
  }

  ghost function OneTimeAddress(c: Crypto, master: seq<byte>, requestId: string): string
    requires Sized(c)
  {
    AddressOf(c.checksum, OneTimePublicKey(c, master, requestId)).value
  }

  /** The key derivation gives these request ids different public keys. There are 32-byte keys
      for finitely many request ids only, so this is asked of the ids in use and not of all. */
  ghost predicate KeysDiffer(c: Crypto, master: seq<byte>, ids: set<string>)
    requires Sized(c)
  {
    forall a, b | a in ids && b in ids :: OneTimePublicKey(c, master, a) == OneTimePublicKey(c, master, b) ==> a == b
  }

  /** A resource server that derives the payees of these request ids this way. */
  ghost predicate DerivesPayees(c: Crypto, master: seq<byte>, app: App, ids: set<string>)
    requires Sized(c)
  {
    forall id | id in ids :: app.payTo(id) == OneTimeAddress(c, master, id)
  }

  /** Encoding loses nothing: each payee is a valid address, and the payees of different request
      ids differ exactly when the derived keys do. */
  lemma OneTimeAddressesDiffer(c: Crypto, master: seq<byte>, app: App, ids: set<string>)
    requires Sized(c) && DerivesPayees(c, master, app, ids)
    ensures forall id | id in ids :: ValidAddress(c.checksum, app.payTo(id))
    ensures PayeesDiffer(app, ids) <==> KeysDiffer(c, master, ids)
  {
    hide AddressOf, KeyOf, OneTimePublicKey;
    forall id | id in ids
      ensures KeyOf(c.checksum, app.payTo(id)) == Some(OneTimePublicKey(c, master, id))
      ensures AddressOf(c.checksum, OneTimePublicKey(c, master, id)) == Some(app.payTo(id))
    {
      assert app.payTo(id) == OneTimeAddress(c, master, id);
      KeyRoundTrip(c.checksum, OneTimePublicKey(c, master, id));
    }
    if PayeesDiffer(app, ids) {
      forall a, b | a in ids && b in ids && OneTimePublicKey(c, master, a) == OneTimePublicKey(c, master, b)
        ensures a == b
      {
        assert app.payTo(a) == app.payTo(b);
      }
    }
  }

  /** So on derived payees one confirmed block serves one call of complete, as long as the
      derivation gave the two request ids different keys. */
  lemma DerivedBlockServesOnce(c: Crypto, master: seq<byte>, app: App, rt: Runtime, made: map<nat, Completion>,
                               ws: seq<World>, es: seq<Event>, ledger: string -> string,
                               i: nat, k: nat, j: nat, l: nat)
    requires Run(ws, es) && i < |es| && j < |es|
    requires ClaimsAt(app, rt, made, ws[i], es[i], k) && VerdictAt(app, rt, made, ws[i], es[i], k).Served?
    requires ClaimsAt(app, rt, made, ws[j], es[j], l) && VerdictAt(app, rt, made, ws[j], es[j], l).Served?
    requires HonestlySettled(app, rt, made[k], ledger) && HonestlySettled(app, rt, made[l], ledger)
    requires UpperAll(PlanOf(app, rt, made[k]).proof) == UpperAll(PlanOf(app, rt, made[l]).proof)
    requires var ids := {PlanOf(app, rt, made[k]).requestId, PlanOf(app, rt, made[l]).requestId};
      Sized(c) && DerivesPayees(c, master, app, ids) && KeysDiffer(c, master, ids)
    ensures i == j && k == l
  {
    hide ReachesClaim, PlanOf, HonestlySettled, Run, Transaction, PayeesDiffer, KeysDiffer, DerivesPayees;
    OneTimeAddressesDiffer(c, master, app, {PlanOf(app, rt, made[k]).requestId, PlanOf(app, rt, made[l]).requestId});
    BlockServesOnce(app, rt, made, ws, es, ledger, i, k, j, l);
  }
}
