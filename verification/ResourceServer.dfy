/** The HTTP 402 resource server: it re-derives the requirements it would have issued, verifies
    and settles the presented payment against them, and serves only on settlement. */
module ResourceServer {
  import opened Text
  import opened Json
  import opened Numerals
  import opened Amounts
  import opened Endpoints
  import opened ClaimKeys
  import opened Claims
  import opened ClaimProtocol
  import opened Facilitator

  /** A resource and its price. `payTo` is the derivation of the one-time address of a request
      id from the server's master secret. */
  datatype App = App(amount: string, payTo: string -> string, maxTimeout: int)

  function DeriveRequirements(app: App, requestId: string): Json {
    Obj(map["scheme" := Str(SCHEME), "network" := Str(NETWORK), "asset" := Str(ASSET),
            "amount" := Str(app.amount), "payTo" := Str(app.payTo(requestId)),
            "maxTimeoutSeconds" := Int(app.maxTimeout),
            "extra" := Obj(map["requestId" := Str(requestId)])])
  }

  /** `_accepted_matches`. It reads `accepted.extra` unguarded, so its caller has to have made
      sure that is an object. */
  predicate AcceptedMatches(server: Json, accepted: Json)
    requires server.Obj? && Get(server, "extra").Obj?
    requires accepted.Obj? && ("extra" in accepted.fields ==> accepted.fields["extra"].Obj?)
  {
    && (forall key | key in ["scheme", "network", "asset", "amount", "payTo"] ::
          PyEq(Get(accepted, key), Get(server, key)))
    && PyEq(Get(if "extra" in accepted.fields then accepted.fields["extra"] else Obj(map[]), "requestId"),
            Get(Get(server, "extra"), "requestId"))
  }

  datatype Verdict =
    | Served(settlement: SettleVerdict)
    | NotServed(reason: string, invalid: bool)
    | CompleteRaises

  /** The request id a payload names; None when it names none the server can read. */
  datatype Named = NoRequest | Unprintable | RequestId(id: string)

  function RequestIdOf(rt: Runtime, payload: Json): (n: Named)
    requires payload.Obj?
    ensures n.RequestId? ==>
              var accepted := Get(payload, "accepted");
              n.id != "" && accepted.Obj? && Get(accepted, "extra").Obj?
  {
    var accepted := Or(Get(payload, "accepted"), Obj(map[]));
    if !accepted.Obj? then NoRequest else
    var extra := Or(Get(accepted, "extra"), Obj(map[]));
    if !extra.Obj? then NoRequest else
    var id := StrOrEmpty(rt, Get(extra, "requestId"));
    if id.None? then Unprintable
    else if id.value == "" then NoRequest else RequestId(id.value)
  }

  /** complete up to its claim. `first` and `second` are what the nodes answered verify and
      settle. */
  datatype Progress = Ended(verdict: Verdict) | Claims(plan: Plan)

  function CompletePlan(app: App, rt: Runtime, payload: Json, first: seq<Reply>, second: seq<Reply>): (p: Progress)
    requires payload.Obj?
    ensures p.Ended? ==> !p.verdict.Served?
    ensures p.Claims? ==> p.plan.ToClaim?
  {
    var named := RequestIdOf(rt, payload);
    if named.NoRequest? then Ended(NotServed("invalid", true))
    else if named.Unprintable? then Ended(CompleteRaises)
    else
      var server := DeriveRequirements(app, named.id);
      if !AcceptedMatches(server, Get(payload, "accepted")) then Ended(NotServed("invalid", true)) else
      var verify := Verify(rt, first, server, payload);
      match verify
      case VerifyRaises => Ended(CompleteRaises)
      case Invalid(reason) => Ended(NotServed(reason, true))
      case Valid(_, _, _, _) =>
        var plan := SettlePlan(rt, second, server, payload);
        if plan.ToClaim? then Claims(plan)
        else if plan.verdict.Unsettled? then Ended(NotServed(plan.verdict.reason, false))
        else Ended(CompleteRaises)
  }

  function AfterSettle(settlement: SettleVerdict): Verdict {
    match settlement
    case Settled(_, _, _) => Served(settlement)
    case Unsettled(reason, _) => NotServed(reason, false)
    case SettleRaises => CompleteRaises
  }

  /** complete on the built-in store: it serves exactly when both verifications passed and its
      own claim won, and then the claim is stored under both spellings. */
  method Complete(app: App, rt: Runtime, store: ClaimStore, payload: Json, first: seq<Reply>, second: seq<Reply>,
                  readFails: bool, writeFails: bool, fault: Fault, now: real) returns (verdict: Verdict)
    requires payload.Obj?
    modifies store`migrationPending, store.db
    ensures var p := CompletePlan(app, rt, payload, first, second);
      var (t, pending) := AfterRetry(old(store.db.claims), old(store.migrationPending), readFails, writeFails);
      match p
      case Ended(v) => verdict == v && store.db.claims == old(store.db.claims)
      case Claims(plan) =>
        var (outcome, t') := TransactFor(t, pending, SentKey(plan), true, fault, now);
        && verdict == AfterSettle(AfterClaim(plan, outcome))
        && store.db.claims == t' && store.migrationPending == pending
        && (verdict.Served? <==> outcome == Won)
        && (verdict.Served? ==> SentKey(plan) in t' && CanonicalKey(SentKey(plan)) in t')
  {
    hide Verify, SettlePlan, AcceptedMatches, TransactFor, MigrateAlone;
    var named := RequestIdOf(rt, payload);
    if named.NoRequest? {
      return NotServed("invalid", true);
    }
    if named.Unprintable? {
      return CompleteRaises;
    }
    var server := DeriveRequirements(app, named.id);
    if !AcceptedMatches(server, Get(payload, "accepted")) {
      return NotServed("invalid", true);
    }
    var verify := Verify(rt, first, server, payload);
    match verify
    case VerifyRaises => return CompleteRaises;
    case Invalid(reason) => return NotServed(reason, true);
    case Valid(_, _, _, _) =>
      var settlement := Settle(rt, store, second, server, payload, readFails, writeFails, fault, now);
      return AfterSettle(settlement);
  }

  // ---- what it refuses before any node is asked ----

  /** The payload accepts what this server issues for `id`, in every section a payment depends on. */
  predicate AcceptsIssued(app: App, payload: Json, id: string)
    requires payload.Obj?
  {
    var accepted := Get(payload, "accepted");
    && id != "" && accepted.Obj? && Get(accepted, "extra").Obj?
    && Get(accepted, "scheme") == Str("exact") && Get(accepted, "network") == Str("nano:live")
    && Get(accepted, "asset") == Str("XNO") && Get(accepted, "amount") == Str(app.amount)
    && Get(accepted, "payTo") == Str(app.payTo(id)) && Get(Get(accepted, "extra"), "requestId") == Str(id)
  }

  /** What the server issues has these sections and no others. */
  lemma IssuedFields(app: App, id: string)
    ensures var server := DeriveRequirements(app, id);
      && server.fields.Keys == {"scheme", "network", "asset", "amount", "payTo", "maxTimeoutSeconds", "extra"}
      && server.fields["maxTimeoutSeconds"] == Int(app.maxTimeout)
      && server.fields["extra"] == Obj(map["requestId" := Str(id)])
  {
  }

  lemma MatchesIff(app: App, accepted: Json, id: string)
    requires accepted.Obj? && Get(accepted, "extra").Obj?
    ensures AcceptedMatches(DeriveRequirements(app, id), accepted) <==>
      && Get(accepted, "scheme") == Str("exact") && Get(accepted, "network") == Str("nano:live")
      && Get(accepted, "asset") == Str("XNO") && Get(accepted, "amount") == Str(app.amount)
      && Get(accepted, "payTo") == Str(app.payTo(id)) && Get(Get(accepted, "extra"), "requestId") == Str(id)
  {
    hide PyEq;
    var server := DeriveRequirements(app, id);
    StringsEqual(Get(accepted, "scheme"), "exact");
    StringsEqual(Get(accepted, "network"), "nano:live");
    StringsEqual(Get(accepted, "asset"), "XNO");
    StringsEqual(Get(accepted, "amount"), app.amount);
    StringsEqual(Get(accepted, "payTo"), app.payTo(id));
    StringsEqual(Get(Get(accepted, "extra"), "requestId"), id);
    assert Get(server, "extra") == Obj(map["requestId" := Str(id)]);
  }

  /** Anything but an acceptance of what it issued is refused as invalid, and only an unprintable
      request id can raise instead; and what it issued gets a verdict from the facilitator. */
  lemma ForeignIsRefused(app: App, rt: Runtime, payload: Json, first: seq<Reply>, second: seq<Reply>)
    requires payload.Obj?
    ensures var p := CompletePlan(app, rt, payload, first, second);
      && ((forall id :: !AcceptsIssued(app, payload, id)) ==>
            || p == Ended(NotServed("invalid", true))
            || (p == Ended(CompleteRaises) && RequestIdOf(rt, payload).Unprintable?))
      && (forall id | AcceptsIssued(app, payload, id) ::
            && RequestIdOf(rt, payload) == RequestId(id)
            && (p.Ended? && p.verdict.NotServed? && p.verdict.invalid ==>
                  Verify(rt, first, DeriveRequirements(app, id), payload) == Invalid(p.verdict.reason)))
  {
    hide Verify, SettlePlan, AcceptedMatches, DeriveRequirements;
    var named := RequestIdOf(rt, payload);
    if named.RequestId? {
      MatchesIff(app, Get(payload, "accepted"), named.id);
    }
    forall id | AcceptsIssued(app, payload, id)
      ensures RequestIdOf(rt, payload) == RequestId(id)
    {
      var accepted := Get(payload, "accepted");
      assert "requestId" in Get(accepted, "extra").fields && "extra" in accepted.fields;
    }
  }

  // ---- one block, one serve ----

  /** A completion that reached its claim verified a 64-hex proof twice, on the nodes' first and on
      their second answers, as a payment of the resource's price to the one-time address of the
      request id it claims. */
  lemma ClaimedCompletion(app: App, rt: Runtime, payload: Json, first: seq<Reply>, second: seq<Reply>)
    requires payload.Obj? && CompletePlan(app, rt, payload, first, second).Claims?
    ensures var plan := CompletePlan(app, rt, payload, first, second).plan;
      && Hex64(plan.proof) && plan.requestId != ""
      && Verified(rt, first, plan.proof, Str(app.payTo(plan.requestId)), Str(app.amount)).ok
      && Verified(rt, second, plan.proof, Str(app.payTo(plan.requestId)), Str(app.amount)).ok
  {
    hide Verified, AcceptedMatches, CheckRequirements;
    var id := RequestIdOf(rt, payload).id;
    var server := DeriveRequirements(app, id);
    assert Truthy(Get(server, "extra")) by {
      assert "requestId" in Get(server, "extra").fields;
    }
    assert Get(Or(Get(server, "extra"), Obj(map[])), "requestId") == Str(id);
    assert SettlePlan(rt, second, server, payload).requestId == id;
  }

  /** At least one of the endpoints asked about `hash` tells the truth about who its block paid:
      `ledger` fixes one destination per block hash, whatever its hex case. */
  ghost predicate SomeNodeHonest(rt: Runtime, replies: seq<Reply>, hash: string, ledger: string -> string) {
    exists i | 0 <= i < |replies| :: ToldTruth(rt, replies[i], hash, ledger)
  }

  ghost predicate ToldTruth(rt: Runtime, reply: Reply, hash: string, ledger: string -> string) {
    reply.Answer? && reply.body.Obj? && PayeeNamed(rt, reply.body).Some? ==>
      PayeeNamed(rt, reply.body).value == ledger(UpperAll(hash))
  }

  /** One honest node is enough to pin the payee of a verified block. */
  lemma VerifiedPayee(rt: Runtime, replies: seq<Reply>, hash: string, payTo: string, amount: string,
                      ledger: string -> string)
    requires Verified(rt, replies, hash, Str(payTo), Str(amount)).ok && SomeNodeHonest(rt, replies, hash, ledger)
    ensures payTo == ledger(UpperAll(hash))
  {
    hide PayeeNamed, ExpectedRaw, Affirms;
    OkIff(rt, replies, hash, Str(payTo), Str(amount));
    var i :| 0 <= i < |replies| && ToldTruth(rt, replies[i], hash, ledger);
    assert ReportsPayment(rt, replies[i], Str(payTo), ExpectedRaw(rt, Str(amount)).value);
  }

  /** One call of complete: the payload presented, and what the nodes answered verify and settle. */
  datatype Completion = Completion(payload: Json, first: seq<Reply>, second: seq<Reply>)

  predicate ReachesClaim(app: App, rt: Runtime, c: Completion) {
    c.payload.Obj? && CompletePlan(app, rt, c.payload, c.first, c.second).Claims?
  }

  function PlanOf(app: App, rt: Runtime, c: Completion): (plan: Plan)
    requires ReachesClaim(app, rt, c)
    ensures plan.ToClaim?
  {
    CompletePlan(app, rt, c.payload, c.first, c.second).plan
  }

  /** Its settle heard from an honest node. */
  ghost predicate HonestlySettled(app: App, rt: Runtime, c: Completion, ledger: string -> string)
    requires ReachesClaim(app, rt, c)
  {
    SomeNodeHonest(rt, c.second, PlanOf(app, rt, c).proof, ledger)
  }

  /** The one-time addresses of these request ids are different. */
  ghost predicate PayeesDiffer(app: App, ids: set<string>) {
    forall a, b | a in ids && b in ids :: app.payTo(a) == app.payTo(b) ==> a == b
  }

  /** Two completions that present one block, in any hex case, claim one key: it takes that the
      payees of the two request ids they claim differ if the request ids do. */
  lemma SameBlockSameKey(app: App, rt: Runtime, ledger: string -> string, c: Completion, d: Completion)
    requires ReachesClaim(app, rt, c) && ReachesClaim(app, rt, d)
    requires PayeesDiffer(app, {PlanOf(app, rt, c).requestId, PlanOf(app, rt, d).requestId})
    requires HonestlySettled(app, rt, c, ledger) && HonestlySettled(app, rt, d, ledger)
    requires UpperAll(PlanOf(app, rt, c).proof) == UpperAll(PlanOf(app, rt, d).proof)
    ensures PlanOf(app, rt, c).requestId == PlanOf(app, rt, d).requestId
    ensures CanonicalKey(SentKey(PlanOf(app, rt, c))) == CanonicalKey(SentKey(PlanOf(app, rt, d)))
  {
    hide CompletePlan, Verified, SomeNodeHonest, CanonicalKey;
    var plan, plan' := PlanOf(app, rt, c), PlanOf(app, rt, d);
    ClaimedCompletion(app, rt, c.payload, c.first, c.second);
    ClaimedCompletion(app, rt, d.payload, d.first, d.second);
    VerifiedPayee(rt, c.second, plan.proof, app.payTo(plan.requestId), app.amount, ledger);
    VerifiedPayee(rt, d.second, plan'.proof, app.payTo(plan'.requestId), app.amount, ledger);
    assert app.payTo(plan.requestId) == app.payTo(plan'.requestId);
    KeysOfHash(plan.proof, plan.requestId);
    KeysOfHash(plan'.proof, plan'.requestId);
  }

  /** This step is the claim transaction of call number `k`, made for the completion `made[k]`. */
  ghost predicate ClaimsAt(app: App, rt: Runtime, made: map<nat, Completion>, w: World, e: Event, k: nat) {
    && e.Claim? && Possible(w, e)
    && k in made && ReachesClaim(app, rt, made[k])
    && w.handles[e.h].pc.req == ClaimOf(PlanOf(app, rt, made[k]), k)
  }

  /** What that completion answers. */
  ghost function VerdictAt(app: App, rt: Runtime, made: map<nat, Completion>, w: World, e: Event, k: nat): Verdict
    requires ClaimsAt(app, rt, made, w, e, k)
  {
    AfterSettle(AfterClaim(PlanOf(app, rt, made[k]), Transaction(w, e).0))
  }

  /** Undisturbed, that is the verdict `Complete` returns. */
  lemma UndisturbedVerdict(app: App, rt: Runtime, made: map<nat, Completion>, w: World, h: nat, k: nat,
                           readFails: bool, writeFails: bool, fault: Fault, now: real)
    requires k in made && ReachesClaim(app, rt, made[k])
    requires Possible(w, Call(h, ClaimOf(PlanOf(app, rt, made[k]), k)))
    ensures var plan := PlanOf(app, rt, made[k]);
      var w' := Undisturbed(w, h, ClaimOf(plan, k), readFails, writeFails);
      var (t, pending) := AfterRetry(w.claims, w.handles[h].pending, readFails, writeFails);
      && ClaimsAt(app, rt, made, w', Claim(h, fault, now), k)
      && VerdictAt(app, rt, made, w', Claim(h, fault, now), k)
         == AfterSettle(AfterClaim(plan, TransactFor(t, pending, SentKey(plan), true, fault, now).0))
  {
    hide CompletePlan, TransactFor, AfterRetry, Undisturbed;
    UninterruptedClaim(w, h, ClaimOf(PlanOf(app, rt, made[k]), k), readFails, writeFails, fault, now);
  }

  /** One confirmed block serves at most one call of complete, ever: over any run of the claim
      protocol, if two calls that serve present the same block in any spelling, they are one
      call and one step. It takes one honest node at each settle, and one-time addresses that
      differ for the request ids the two calls claim. */
  lemma BlockServesOnce(app: App, rt: Runtime, made: map<nat, Completion>, ws: seq<World>, es: seq<Event>,
                        ledger: string -> string, i: nat, k: nat, j: nat, l: nat)
    requires Run(ws, es) && i < |es| && j < |es|
    requires ClaimsAt(app, rt, made, ws[i], es[i], k) && VerdictAt(app, rt, made, ws[i], es[i], k).Served?
    requires ClaimsAt(app, rt, made, ws[j], es[j], l) && VerdictAt(app, rt, made, ws[j], es[j], l).Served?
    requires HonestlySettled(app, rt, made[k], ledger) && HonestlySettled(app, rt, made[l], ledger)
    requires UpperAll(PlanOf(app, rt, made[k]).proof) == UpperAll(PlanOf(app, rt, made[l]).proof)
    requires PayeesDiffer(app, {PlanOf(app, rt, made[k]).requestId, PlanOf(app, rt, made[l]).requestId})
    ensures i == j && k == l
  {
    hide ReachesClaim, PlanOf, HonestlySettled, Run, Transaction, CanonicalKey, PayeesDiffer;
    SameBlockSameKey(app, rt, ledger, made[k], made[l]);
    if i < j {
      WonAtMostOnce(ws, es, i, j);
    } else if j < i {
      WonAtMostOnce(ws, es, j, i);
    }
  }

  // ---- a payment made is a payment served ----

  /** The payload of a client that accepts what the server issued for `id` and names its block. */
  function PayloadFor(app: App, id: string, proof: string): Json {
    Obj(map["accepted" := DeriveRequirements(app, id), "payload" := Obj(map["paymentProof" := Str(proof)])])
  }

  /** Two or more nodes, all reporting the price paid to the address of `id`; the price a positive
      plain amount that prints. */
  ghost predicate PaidFor(app: App, rt: Runtime, id: string, replies: seq<Reply>) {
    && |replies| >= 2 && ExpectedRaw(rt, Str(app.amount)).Some?
    && ExpectedRaw(rt, Str(app.amount)).value < Pow(10, rt.digitLimit)
    && forall i | 0 <= i < |replies| ::
         ReportsPayment(rt, replies[i], Str(app.payTo(id)), ExpectedRaw(rt, Str(app.amount)).value)
  }

  /** A request the server can have issued: its id and its payee have some text. */
  predicate Payable(app: App, id: string) {
    id != "" && Strip(app.payTo(id)) != ""
  }

  lemma IssuedShape(app: App, id: string, proof: string)
    ensures CheckShape(DeriveRequirements(app, id), PayloadFor(app, id, proof)) == Pass
  {
    hide PyEq;
    var server, payload := DeriveRequirements(app, id), PayloadFor(app, id, proof);
    assert "scheme" in server.fields;
    assert Or(Get(payload, "accepted"), Obj(map[])) == server;
    forall text | text in [SCHEME, NETWORK, ASSET, app.amount, app.payTo(id)]
      ensures PyEq(Str(text), Str(text))
    {
      StringsEqual(Str(text), text);
    }
    assert app.amount in [SCHEME, NETWORK, ASSET, app.amount, app.payTo(id)];
    assert app.payTo(id) in [SCHEME, NETWORK, ASSET, app.amount, app.payTo(id)];
    assert "paymentProof" in Get(payload, "payload").fields;
  }

  lemma IssuedTexts(app: App, rt: Runtime, id: string)
    ensures var server := DeriveRequirements(app, id);
      && SectionText(rt, server, "scheme") == Some("exact") && SectionText(rt, server, "network") == Some("nano:live")
      && SectionText(rt, server, "asset") == Some("XNO") && SectionText(rt, server, "amount") == Some(Strip(app.amount))
      && SectionText(rt, server, "payTo") == Some(Strip(app.payTo(id)))
  {
    hide Strip, SectionText;
    var server := DeriveRequirements(app, id);
    StripNothing("exact");
    StripNothing("nano:live");
    StripNothing("XNO");
    StringSection(rt, server, "scheme", "exact");
    StringSection(rt, server, "network", "nano:live");
    StringSection(rt, server, "asset", "XNO");
    StringSection(rt, server, "amount", app.amount);
    StringSection(rt, server, "payTo", app.payTo(id));
  }

  lemma IssuedSections(app: App, rt: Runtime, id: string)
    requires Payable(app, id) && ExpectedRaw(rt, Str(app.amount)).Some?
    ensures CheckSections(rt, DeriveRequirements(app, id)) == Pass
  {
    hide Strip, IsAmountString, ParseRaw, SectionText;
    PlainEnds(app.amount);
    IssuedTexts(app, rt, id);
  }

  lemma IssuedIds(app: App, rt: Runtime, id: string, proof: string)
    requires id != "" && proof != ""
    ensures ProofFrom(rt, PayloadFor(app, id, proof)) == Some(proof)
    ensures RequestIdOf(rt, PayloadFor(app, id, proof)) == RequestId(id)
    ensures StrOrEmpty(rt, Get(Or(Get(DeriveRequirements(app, id), "extra"), Obj(map[])), "requestId")) == Some(id)
  {
    var server, payload := DeriveRequirements(app, id), PayloadFor(app, id, proof);
    assert "scheme" in server.fields;
    assert Or(Get(payload, "accepted"), Obj(map[])) == server;
    assert Get(payload, "payload") == Obj(map["paymentProof" := Str(proof)]);
    assert Get(server, "extra") == Obj(map["requestId" := Str(id)]);
    assert "requestId" in Get(server, "extra").fields;
  }

  /** The check of a request the server issued looks at its amount only. */
  lemma IssuedCheck(app: App, rt: Runtime, id: string, proof: string)
    requires Payable(app, id)
    ensures CheckRequirements(rt, DeriveRequirements(app, id), PayloadFor(app, id, proof)) ==
            if ExpectedRaw(rt, Str(app.amount)).Some? then Pass
            else Refused(if Strip(app.amount) == "" then "bad-requirements" else "bad-amount")
  {
    hide CheckShape, Strip, ExpectedRaw, ParseRaw;
    IssuedShape(app, id, proof);
    if ExpectedRaw(rt, Str(app.amount)).Some? {
      IssuedSections(app, rt, id);
    } else {
      IssuedTexts(app, rt, id);
    }
  }

  /** Both verdicts of the facilitator on a request the server issued: paid, or unconfirmed. */
  lemma IssuedVerdicts(app: App, rt: Runtime, id: string, proof: string, replies: seq<Reply>)
    requires Hex64(proof) && Payable(app, id) && ExpectedRaw(rt, Str(app.amount)).Some?
    ensures var verify := Verify(rt, replies, DeriveRequirements(app, id), PayloadFor(app, id, proof));
      if PaidFor(app, rt, id, replies) then verify.Valid? else verify == Invalid("unconfirmed")
    ensures var plan := SettlePlan(rt, replies, DeriveRequirements(app, id), PayloadFor(app, id, proof));
      if PaidFor(app, rt, id, replies) then plan.ToClaim? && plan.proof == proof && plan.requestId == id
      else plan == Stop(Unsettled("unconfirmed", proof))
  {
    hide Verified, CheckRequirements, ProofFrom, StrOrEmpty, Pow, ExpectedRaw, RequestIdOf, ReportsPayment;
    IssuedCheck(app, rt, id, proof);
    IssuedIds(app, rt, id, proof);
    OkIff(rt, replies, proof, Str(app.payTo(id)), Str(app.amount));
  }

  lemma PaidPlan(app: App, rt: Runtime, id: string, proof: string, replies: seq<Reply>)
    requires Hex64(proof) && Payable(app, id) && PaidFor(app, rt, id, replies)
    ensures var plan := SettlePlan(rt, replies, DeriveRequirements(app, id), PayloadFor(app, id, proof));
      plan.ToClaim? && plan.proof == proof && plan.requestId == id
  {
    hide Verify, SettlePlan, Pow, ExpectedRaw, ReportsPayment, DeriveRequirements, PayloadFor, Payable, Hex64;
    IssuedVerdicts(app, rt, id, proof, replies);
  }

  lemma IssuedMatches(app: App, id: string)
    ensures AcceptedMatches(DeriveRequirements(app, id), DeriveRequirements(app, id))
  {
    hide PyEq;
    var server := DeriveRequirements(app, id);
    forall text: string
      ensures PyEq(Str(text), Str(text))
    {
      StringsEqual(Str(text), text);
    }
    assert Get(server, "extra") == Obj(map["requestId" := Str(id)]);
  }

  /** What complete makes of a request the server issued, before its claim, on every pair of node
      answers: it claims exactly when both say paid, and otherwise says which half failed. */
  lemma IssuedReachesClaimIff(app: App, rt: Runtime, id: string, proof: string, first: seq<Reply>, second: seq<Reply>)
    requires Hex64(proof) && Payable(app, id)
    ensures var p := CompletePlan(app, rt, PayloadFor(app, id, proof), first, second);
      && (p.Claims? <==> PaidFor(app, rt, id, first) && PaidFor(app, rt, id, second))
      && (p.Claims? ==> p.plan.proof == proof && p.plan.requestId == id)
      && (ExpectedRaw(rt, Str(app.amount)).None? ==> p.Ended? && p.verdict.NotServed? && p.verdict.invalid)
      && (ExpectedRaw(rt, Str(app.amount)).Some? && !PaidFor(app, rt, id, first) ==>
            p == Ended(NotServed("unconfirmed", true)))
      && (PaidFor(app, rt, id, first) && !PaidFor(app, rt, id, second) ==>
            p == Ended(NotServed("unconfirmed", false)))
  {
    hide SettlePlan, RequestIdOf, AcceptedMatches, DeriveRequirements, CheckRequirements, Verified, ProofFrom, Pow;
    hide ExpectedRaw, ReportsPayment;
    IssuedIds(app, rt, id, proof);
    IssuedMatches(app, id);
    IssuedCheck(app, rt, id, proof);
    if ExpectedRaw(rt, Str(app.amount)).Some? {
      hide Verify;
      IssuedVerdicts(app, rt, id, proof, first);
      IssuedVerdicts(app, rt, id, proof, second);
    }
  }

  lemma PaidReachesClaim(app: App, rt: Runtime, id: string, proof: string, first: seq<Reply>, second: seq<Reply>)
    requires Hex64(proof) && Payable(app, id) && PaidFor(app, rt, id, first) && PaidFor(app, rt, id, second)
    ensures var c := Completion(PayloadFor(app, id, proof), first, second);
      ReachesClaim(app, rt, c) && PlanOf(app, rt, c).proof == proof && PlanOf(app, rt, c).requestId == id
  {
    hide CompletePlan, PaidFor, Payable, Hex64;
    IssuedReachesClaimIff(app, rt, id, proof, first, second);
  }

  /** The other half of one serve per payment: at any point of any run a request that every node
      reports as paid, before and at the settle, is served exactly when no stored row spells its
      payment and the database refuses no statement of its claim; it is told "duplicate" only of
      a stored payment, and raises only where a statement was refused. */
  lemma PaidIsServedIff(app: App, rt: Runtime, id: string, proof: string, first: seq<Reply>, second: seq<Reply>,
                        ws: seq<World>, es: seq<Event>, made: map<nat, Completion>, i: nat, k: nat)
    requires Hex64(proof) && Payable(app, id) && PaidFor(app, rt, id, first) && PaidFor(app, rt, id, second)
    requires Run(ws, es) && i < |es| && ClaimsAt(app, rt, made, ws[i], es[i], k)
    requires made[k] == Completion(PayloadFor(app, id, proof), first, second)
    ensures var key, verdict := ConsumptionKey(proof, id), VerdictAt(app, rt, made, ws[i], es[i], k);
      var reached := Reached(ws[i].handles[es[i].h].pending, key != KeyAsSent(proof, id), es[i].fault);
      && (verdict.Served? <==> !SpellingStored(ws[i].claims, key) && !reached)
      && (verdict == NotServed("duplicate", false) ==> SpellingStored(ws[i].claims, key))
      && (verdict.NotServed? ==> verdict == NotServed("duplicate", false))
      && (verdict.CompleteRaises? ==> reached)
  {
    hide ReachesClaim, PlanOf, Transaction, CanonicalKey, PaidFor, Payable, PayloadFor, SpellingStored, Reached;
    PaidReachesClaim(app, rt, id, proof, first, second);
    KeysOfHash(proof, id);
    WinIsUnspelt(ws, es, i);
    AnswersAreHonestThroughout(ws, es, i);
  }

  /** Every node telling of the payment in so many words is one way to have been paid. */
  lemma ToldIsPaid(app: App, rt: Runtime, id: string, replies: seq<Reply>)
    requires |replies| >= 2 && app.payTo(id) != "" && ExpectedRaw(rt, Str(app.amount)).Some?
    requires ExpectedRaw(rt, Str(app.amount)).value < Pow(10, rt.digitLimit)
    requires forall r | r in replies :: r == Answer(Told(app.payTo(id), app.amount, "true"))
    ensures PaidFor(app, rt, id, replies)
  {
    hide ParseRaw, Told, ReportsPayment, Pow, Affirms;
    TrueAffirms(rt);
    ToldReports(rt, app.payTo(id), app.amount, "true", app.payTo(id), ExpectedRaw(rt, Str(app.amount)).value);
    assert forall i | 0 <= i < |replies| :: replies[i] in replies;
  }

  /** A run in which a paid call is served, its nodes honest: what `BlockServesOnce` asks of its
      two calls does happen. */
  lemma PaidCallServes(app: App, rt: Runtime, id: string, proof: string, first: seq<Reply>, second: seq<Reply>,
                       k: nat, now: real)
    returns (ws: seq<World>, es: seq<Event>, made: map<nat, Completion>, ledger: string -> string)
    requires Hex64(proof) && Payable(app, id) && PaidFor(app, rt, id, first) && PaidFor(app, rt, id, second)
    ensures Run(ws, es) && |es| == 4 && made == map[k := Completion(PayloadFor(app, id, proof), first, second)]
    ensures ClaimsAt(app, rt, made, ws[3], es[3], k) && VerdictAt(app, rt, made, ws[3], es[3], k).Served?
    ensures HonestlySettled(app, rt, made[k], ledger)
  {
    hide ReachesClaim, PlanOf, Run, Transaction, CanonicalKey, Payable, PayloadFor;
    hide PayeeNamed, PayerNamed, SubtypeNamed, Affirms, Pow;
    PaidReachesClaim(app, rt, id, proof, first, second);
    made := map[k := Completion(PayloadFor(app, id, proof), first, second)];
    ws, es := SettledOnEmpty(proof, id, k, now);
    ledger := _ => app.payTo(id);
    assert ReportsPayment(rt, second[0], Str(app.payTo(id)), ExpectedRaw(rt, Str(app.amount)).value);
    assert ToldTruth(rt, second[0], proof, ledger);
  }

  /** And it does so on node answers written out: two nodes that tell of the payment. */
  lemma ToldCallServes(app: App, rt: Runtime, id: string, proof: string, k: nat, now: real)
    returns (ws: seq<World>, es: seq<Event>, made: map<nat, Completion>, ledger: string -> string)
    requires Hex64(proof) && Payable(app, id) && ExpectedRaw(rt, Str(app.amount)).Some?
    requires ExpectedRaw(rt, Str(app.amount)).value < Pow(10, rt.digitLimit)
    ensures Run(ws, es) && |es| == 4
    ensures ClaimsAt(app, rt, made, ws[3], es[3], k) && VerdictAt(app, rt, made, ws[3], es[3], k).Served?
    ensures HonestlySettled(app, rt, made[k], ledger)
    ensures made[k].first == made[k].second
            == [Answer(Told(app.payTo(id), app.amount, "true")), Answer(Told(app.payTo(id), app.amount, "true"))]
  {
    hide Run, ClaimsAt, VerdictAt, HonestlySettled, PaidFor, ExpectedRaw, Told, Pow, Strip;
    StripNothing("");
    var told := [Answer(Told(app.payTo(id), app.amount, "true")), Answer(Told(app.payTo(id), app.amount, "true"))];
    ToldIsPaid(app, rt, id, told);
    ws, es, made, ledger := PaidCallServes(app, rt, id, proof, told, told, k, now);
  }

  // ---- settle alone ----

  /** Two settles of one paid block one after the other, on a table that was empty, each under the
      request id its caller names. */
  function SettledTwice(app: App, rt: Runtime, proof: string, id: string, id': string, replies: seq<Reply>, now: real)
    : (SettleVerdict, SettleVerdict)
  {
    var (first, t, pending) :=
      SettleOn(rt, replies, DeriveRequirements(app, id), PayloadFor(app, id, proof), map[], false,
               false, false, NoFault, now);
    var (second, _, _) :=
      SettleOn(rt, replies, DeriveRequirements(app, id'), PayloadFor(app, id', proof), t, pending,
               false, false, NoFault, now);
    (first, second)
  }

  lemma OtherIdSettlesAgain(app: App, rt: Runtime, proof: string, id: string, id': string, replies: seq<Reply>,
                            now: real)
    requires Hex64(proof) && Payable(app, id) && Payable(app, id') && PaidFor(app, rt, id, replies)
    requires id != id' && app.payTo(id) == app.payTo(id')
    ensures var (first, second) := SettledTwice(app, rt, proof, id, id', replies, now);
      first.Settled? && second.Settled? && first.transaction == second.transaction == proof
  {
    hide SettlePlan, Verify, DeriveRequirements, PayloadFor, Payable, ReportsPayment, ExpectedRaw, Pow;
    hide TransactFor, KeyAsSent, Hex64;
    assert PaidFor(app, rt, id', replies);
    PaidPlan(app, rt, id, proof, replies);
    PaidPlan(app, rt, id', proof, replies);
    OtherKeyWins(proof, id, id', now);
  }

  lemma OtherKeyWins(proof: string, id: string, id': string, now: real)
    requires Hex64(proof) && id != id'
    ensures var (outcome, t) := TransactFor(map[], false, KeyAsSent(proof, id), true, NoFault, now);
      outcome == Won && TransactFor(t, false, KeyAsSent(proof, id'), true, NoFault, now).0 == Won
  {
    hide CanonicalKey;
    KeysOfHash(proof, id);
    KeysOfHash(proof, id');
    KeysApart(proof, id, proof, id');
    KeysApart(UpperAll(proof), id, UpperAll(proof), id');
    KeysApart(UpperAll(proof), id, proof, id');
    KeysApart(proof, id, UpperAll(proof), id');
  }

  lemma SameIdIsDuplicate(app: App, rt: Runtime, proof: string, id: string, replies: seq<Reply>, now: real)
    requires Hex64(proof) && Payable(app, id) && PaidFor(app, rt, id, replies)
    ensures var (first, second) := SettledTwice(app, rt, proof, id, id, replies, now);
      first.Settled? && first.transaction == proof && second == Unsettled("duplicate", proof)
  {
    hide CanonicalKey, SettlePlan, Verify, DeriveRequirements, PayloadFor, Payable, PaidFor;
    PaidPlan(app, rt, id, proof, replies);
    KeysOfHash(proof, id);
  }

  /** What settle alone promises of one block, exactly: its key carries a request id its caller
      chooses, so a second settle of the block on unchanged node answers succeeds if and only if
      it names another request id of the same payee, and is a duplicate if it names the same. */
  lemma BareSettleRepeats(app: App, rt: Runtime, proof: string, id: string, id': string, replies: seq<Reply>, now: real)
    requires Hex64(proof) && Payable(app, id) && Payable(app, id') && PaidFor(app, rt, id, replies)
    requires app.payTo(id) == app.payTo(id')
    ensures var (first, second) := SettledTwice(app, rt, proof, id, id', replies, now);
      && first.Settled? && first.transaction == proof
      && (second.Settled? <==> id != id')
      && (id == id' ==> second == Unsettled("duplicate", proof))
  {
    hide SettledTwice, Payable, PaidFor;
    if id == id' {
      SameIdIsDuplicate(app, rt, proof, id, replies, now);
    } else {
      OtherIdSettlesAgain(app, rt, proof, id, id', replies, now);
    }
  }

  lemma KeysApart(hash: string, id: string, hash': string, id': string)
    requires |hash| == |hash'| && id != id'
    ensures KeyAsSent(hash, id) != KeyAsSent(hash', id')
  {
    assert KeyAsSent(hash, id)[11 + |hash|..] == id;
    assert KeyAsSent(hash', id')[11 + |hash'|..] == id';
  }
}
