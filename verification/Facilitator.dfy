/** The facilitator's verdicts: checking the two JSON objects, verifying the proof on every
    endpoint, and settling it once. */
module Facilitator {
  import opened Text
  import opened Json
  import opened Amounts
  import opened Endpoints
  import opened ClaimKeys
  import opened Claims
  import opened ClaimProtocol

  const SCHEME := "exact"
  const NETWORK := "nano:live"
  const ASSET := "XNO"
  const REQUIRED_SECTIONS: seq<string> := ["scheme", "network", "amount", "asset", "payTo"]

  /** `value[name]`, which the program only writes where the key is present. */
  function Index(value: Json, name: string): Json
    requires value.Obj? && name in value.fields
  {
    value.fields[name]
  }

  // ---- `_check_requirements` ----

  datatype Checked = Pass | Refused(reason: string) | CheckRaises

  /** One required section: its text, stripped; None when str() raises. */
  function SectionText(rt: Runtime, requirements: Json, name: string): Option<string>
    requires requirements.Obj?
  {
    var text := StrOrEmpty(rt, Get(requirements, name));
    if text.None? then None else Some(Strip(text.value))
  }

  /** The comparisons made before any section is printed. */
  function CheckShape(requirements: Json, payload: Json): (c: Checked)
    ensures !c.CheckRaises?
    ensures c == Pass ==> requirements.Obj? && payload.Obj?
    ensures c == Pass ==> Get(requirements, "extra").Null? || Get(requirements, "extra").Obj?
  {
    if !requirements.Obj? || !payload.Obj? then Refused("bad-request") else
    var accepted := Or(Get(payload, "accepted"), Obj(map[]));
    if !accepted.Obj? then Refused("bad-request")
    else if !Or(Get(payload, "payload"), Obj(map[])).Obj? then Refused("bad-request")
    else if !PyEq(Get(requirements, "scheme"), Str(SCHEME)) then Refused("bad-scheme")
    else if !PyEq(Get(requirements, "network"), Str(NETWORK)) || !PyEq(Get(accepted, "network"), Str(NETWORK))
      then Refused("bad-network")
    else if !PyEq(Get(requirements, "asset"), Str(ASSET)) || !PyEq(Get(accepted, "asset"), Str(ASSET))
      then Refused("bad-asset")
    else if !PyEq(Get(requirements, "amount"), Get(accepted, "amount")) then Refused("bad-amount")
    else if !PyEq(Get(requirements, "payTo"), Get(accepted, "payTo")) then Refused("bad-payto")
    else
      var extra := Get(requirements, "extra");
      if !extra.Null? && !extra.Obj? then Refused("bad-requirements") else Pass
  }

  /** The sections that are present, and the amount in its one plain spelling. */
  function CheckSections(rt: Runtime, requirements: Json): Checked
    requires requirements.Obj?
  {
    if exists name | name in REQUIRED_SECTIONS :: SectionText(rt, requirements, name).None? then CheckRaises
    else if exists name | name in REQUIRED_SECTIONS :: SectionText(rt, requirements, name) == Some("")
      then Refused("bad-requirements")
    else
      SectionPresent(rt, requirements, "amount");
      if ExpectedRaw(rt, Index(requirements, "amount")).None? then Refused("bad-amount") else Pass
  }

  function CheckRequirements(rt: Runtime, requirements: Json, payload: Json): Checked {
    var shape := CheckShape(requirements, payload);
    if shape != Pass then shape else CheckSections(rt, requirements)
  }

  lemma SectionPresent(rt: Runtime, requirements: Json, name: string)
    requires requirements.Obj? && SectionText(rt, requirements, name) != Some("")
    ensures name in requirements.fields
  {
  }

  /** A field that may be absent, empty or an object, but nothing else. */
  predicate ObjectOrEmpty(value: Json) {
    value.Obj? || !Truthy(value)
  }

  /** Exactly what the shape check passes: two objects that name this scheme, network and asset, one
      amount and one payee, and nothing but objects where objects are read. */
  lemma ShapePassesIff(requirements: Json, payload: Json)
    ensures CheckShape(requirements, payload) == Pass <==>
      && requirements.Obj? && payload.Obj?
      && Get(payload, "accepted").Obj? && ObjectOrEmpty(Get(payload, "payload"))
      && Get(requirements, "scheme") == Str("exact")
      && Get(requirements, "network") == Get(Get(payload, "accepted"), "network") == Str("nano:live")
      && Get(requirements, "asset") == Get(Get(payload, "accepted"), "asset") == Str("XNO")
      && PyEq(Get(requirements, "amount"), Get(Get(payload, "accepted"), "amount"))
      && PyEq(Get(requirements, "payTo"), Get(Get(payload, "accepted"), "payTo"))
      && (Get(requirements, "extra").Null? || Get(requirements, "extra").Obj?)
  {
    hide PyEq;
    if requirements.Obj? && payload.Obj? {
      var accepted := Or(Get(payload, "accepted"), Obj(map[]));
      StringsEqual(Get(requirements, "scheme"), SCHEME);
      StringsEqual(Get(requirements, "network"), NETWORK);
      StringsEqual(Get(requirements, "asset"), ASSET);
      if accepted.Obj? {
        StringsEqual(Get(accepted, "network"), NETWORK);
        StringsEqual(Get(accepted, "asset"), ASSET);
      }
    }
  }

  /** And what each of its refusals means. */
  lemma ShapeRefusalIs(requirements: Json, payload: Json)
    requires CheckShape(requirements, payload).Refused?
    ensures var reason := CheckShape(requirements, payload).reason;
      && reason in ["bad-request", "bad-scheme", "bad-network", "bad-asset", "bad-amount", "bad-payto",
                    "bad-requirements"]
      && (reason == "bad-request" <==>
            || !requirements.Obj? || !payload.Obj?
            || !ObjectOrEmpty(Get(payload, "accepted")) || !ObjectOrEmpty(Get(payload, "payload")))
      && (reason == "bad-scheme" ==> Get(requirements, "scheme") != Str("exact"))
      && (reason == "bad-network" ==>
            Get(requirements, "network") != Str("nano:live")
            || Get(Or(Get(payload, "accepted"), Obj(map[])), "network") != Str("nano:live"))
      && (reason == "bad-asset" ==>
            Get(requirements, "asset") != Str("XNO")
            || Get(Or(Get(payload, "accepted"), Obj(map[])), "asset") != Str("XNO"))
      && (reason == "bad-amount" ==>
            !PyEq(Get(requirements, "amount"), Get(Or(Get(payload, "accepted"), Obj(map[])), "amount")))
      && (reason == "bad-payto" ==>
            !PyEq(Get(requirements, "payTo"), Get(Or(Get(payload, "accepted"), Obj(map[])), "payTo")))
      && (reason == "bad-requirements" ==>
            !Get(requirements, "extra").Null? && !Get(requirements, "extra").Obj?)
  {
    hide PyEq;
    if requirements.Obj? && payload.Obj? {
      var accepted := Or(Get(payload, "accepted"), Obj(map[]));
      StringsEqual(Get(requirements, "scheme"), SCHEME);
      StringsEqual(Get(requirements, "network"), NETWORK);
      StringsEqual(Get(requirements, "asset"), ASSET);
      if accepted.Obj? {
        StringsEqual(Get(accepted, "network"), NETWORK);
        StringsEqual(Get(accepted, "asset"), ASSET);
      }
    }
  }

  /** Past the shape, what each refusal means: a section that is missing or blank, or an amount that
      is no positive plain one. */
  lemma SectionRefusalIs(rt: Runtime, requirements: Json)
    requires requirements.Obj? && CheckSections(rt, requirements).Refused?
    ensures var reason := CheckSections(rt, requirements).reason;
      && reason in ["bad-requirements", "bad-amount"]
      && (reason == "bad-requirements" <==>
            exists name | name in ["scheme", "network", "amount", "asset", "payTo"] ::
              SectionText(rt, requirements, name) == Some(""))
      && (reason == "bad-amount" ==> ExpectedRaw(rt, Get(requirements, "amount")).None?)
  {
    hide ExpectedRaw, SectionText;
    assert REQUIRED_SECTIONS == ["scheme", "network", "amount", "asset", "payTo"];
    if CheckSections(rt, requirements).reason == "bad-amount" {
      assert "amount" in REQUIRED_SECTIONS;
      SectionPresent(rt, requirements, "amount");
    }
  }

  /** What a passed check promises the code that goes on to read the two objects. */
  lemma PassedCheck(rt: Runtime, requirements: Json, payload: Json)
    requires CheckRequirements(rt, requirements, payload) == Pass
    ensures requirements.Obj? && payload.Obj?
    ensures forall name | name in REQUIRED_SECTIONS :: name in requirements.fields
    ensures "amount" in requirements.fields && "payTo" in requirements.fields
    ensures ExpectedRaw(rt, Index(requirements, "amount")).Some?
    ensures Get(requirements, "extra").Null? || Get(requirements, "extra").Obj?
  {
    hide CheckShape, ExpectedRaw, SectionText;
    forall name | name in REQUIRED_SECTIONS
      ensures name in requirements.fields
    {
      SectionPresent(rt, requirements, name);
    }
    assert "amount" in REQUIRED_SECTIONS && "payTo" in REQUIRED_SECTIONS;
  }

  // ---- the proof ----

  /** `_proof_from`: payload.payload.paymentProof as sent, "" when either object is not one;
      None when printing it raises. */
  function ProofFrom(rt: Runtime, payload: Json): Option<string> {
    if !payload.Obj? || !Get(payload, "payload").Obj? then Some("")
    else StrOrEmpty(rt, Get(Get(payload, "payload"), "paymentProof"))
  }

  // ---- verify ----

  datatype VerifyVerdict =
    | Valid(payer: string, confirmedOn: nat, consulted: nat, amount: string)
    | Invalid(reason: string)
    | VerifyRaises

  function Verify(rt: Runtime, replies: seq<Reply>, requirements: Json, payload: Json): VerifyVerdict {
    var check := CheckRequirements(rt, requirements, payload);
    if check.CheckRaises? then VerifyRaises
    else if check.Refused? then Invalid(check.reason)
    else
      var proof := ProofFrom(rt, payload);
      if proof.None? then VerifyRaises
      else if !Hex64(proof.value) then Invalid("proof missing")
      else
        PassedCheck(rt, requirements, payload);
        var res := Verified(rt, replies, proof.value, Index(requirements, "payTo"), Index(requirements, "amount"));
        if !res.ok then Invalid("unconfirmed")
        else Valid(res.sends[0].payer, |res.sends|, res.consulted, res.sends[0].amount)
  }

  // ---- settle ----

  datatype SettleVerdict =
    | Settled(transaction: string, payer: string, amount: string)
    | Unsettled(reason: string, transaction: string)
    | SettleRaises

  /** settle up to its claim: a verdict that needs none, or the claim it makes. */
  datatype Plan = Stop(verdict: SettleVerdict) | ToClaim(proof: string, requestId: string, send: Send)

  function SettlePlan(rt: Runtime, replies: seq<Reply>, requirements: Json, payload: Json): (plan: Plan)
    ensures plan.Stop? ==> !plan.verdict.Settled?
    ensures plan.ToClaim? ==> Hex64(plan.proof)
  {
    var check := CheckRequirements(rt, requirements, payload);
    if check.CheckRaises? then Stop(SettleRaises) else
    var proof := ProofFrom(rt, payload);
    if proof.None? then Stop(SettleRaises)
    else if check.Refused? then Stop(Unsettled("invalid", proof.value))
    else if !Hex64(proof.value) then Stop(Unsettled("invalid", proof.value))
    else
      PassedCheck(rt, requirements, payload);
      var res := Verified(rt, replies, proof.value, Index(requirements, "payTo"), Index(requirements, "amount"));
      if !res.ok || res.sends == [] then Stop(Unsettled("unconfirmed", proof.value))
      else
        var requestId := StrOrEmpty(rt, Get(Or(Get(requirements, "extra"), Obj(map[])), "requestId"));
        if requestId.None? then Stop(SettleRaises)
        else ToClaim(proof.value, requestId.value, res.sends[0])
  }

  /** The key settle claims, as sent. */
  function SentKey(plan: Plan): string
    requires plan.ToClaim?
  {
    KeyAsSent(plan.proof, plan.requestId)
  }

  /** The claim a call of settle makes on the built-in store: canonical key, and the key as sent. */
  function ClaimOf(plan: Plan, call: nat): Request
    requires plan.ToClaim?
  {
    Request(call, SentKey(plan), true)
  }

  function AfterClaim(plan: Plan, outcome: Outcome): SettleVerdict
    requires plan.ToClaim?
  {
    match outcome
    case Won => Settled(plan.proof, plan.send.payer, plan.send.amount)
    case Spent => Unsettled("duplicate", plan.proof)
    case Raised => SettleRaises
  }

  /** settle, given what its claim would answer. */
  function SettleWith(rt: Runtime, replies: seq<Reply>, requirements: Json, payload: Json, outcome: Outcome)
    : SettleVerdict
  {
    var plan := SettlePlan(rt, replies, requirements, payload);
    if plan.Stop? then plan.verdict else AfterClaim(plan, outcome)
  }

  /** settle on the built-in store: its verdict, and the table and the pending flag after it. */
  function SettleOn(rt: Runtime, replies: seq<Reply>, requirements: Json, payload: Json, t: Table, pending: bool,
                    readFails: bool, writeFails: bool, fault: Fault, now: real): (SettleVerdict, Table, bool)
  {
    var plan := SettlePlan(rt, replies, requirements, payload);
    if plan.Stop? then (plan.verdict, t, pending) else
    var (t', pending') := AfterRetry(t, pending, readFails, writeFails);
    var (outcome, t'') := TransactFor(t', pending', SentKey(plan), true, fault, now);
    (AfterClaim(plan, outcome), t'', pending')
  }

  /** The program's settle. A verdict other than success leaves the table as the migration retry
      left it; a success leaves both spellings of its key in it. */
  method Settle(rt: Runtime, store: ClaimStore, replies: seq<Reply>, requirements: Json, payload: Json,
                readFails: bool, writeFails: bool, fault: Fault, now: real) returns (verdict: SettleVerdict)
    modifies store`migrationPending, store.db
    ensures (verdict, store.db.claims, store.migrationPending) ==
            SettleOn(rt, replies, requirements, payload, old(store.db.claims), old(store.migrationPending),
                     readFails, writeFails, fault, now)
    ensures verdict.Settled? ==>
              var plan := SettlePlan(rt, replies, requirements, payload);
              && plan.ToClaim? && verdict.transaction == plan.proof
              && KeyAsSent(plan.proof, plan.requestId) in store.db.claims
              && ConsumptionKey(plan.proof, plan.requestId) in store.db.claims
    ensures forall k | k in old(store.db.claims) :: k in store.db.claims
  {
    hide SettlePlan, CanonicalKey;
    var plan := SettlePlan(rt, replies, requirements, payload);
    if plan.Stop? {
      return plan.verdict;
    }
    ghost var (t, pending) := AfterRetry(store.db.claims, store.migrationPending, readFails, writeFails);
    var sent := KeyAsSent(plan.proof, plan.requestId);
    var key := ConsumptionKey(plan.proof, plan.requestId);
    var outcome := store.ClaimSpellings(key, Some(sent), readFails, writeFails, fault, now);
    MigratedKeys(old(store.db.claims));
    WinningClaimRecordsBoth(t, pending, sent, true, fault, now);
    LosingChangesNothing(t, pending, CanonicalKey(sent), Other(CanonicalKey(sent), Some(sent)), fault, now);
    return AfterClaim(plan, outcome);
  }

  // ---- what the verdicts promise ----

  /** On the same node answers settle repeats verify's verdict: it is "invalid" exactly when
      verify refuses for a reason other than "unconfirmed", "unconfirmed" exactly when verify
      is, and otherwise decided by the claim alone. */
  lemma SettleAgreesWithVerify(rt: Runtime, replies: seq<Reply>, requirements: Json, payload: Json, outcome: Outcome)
    requires ProofFrom(rt, payload).Some?
    requires SettlePlan(rt, replies, requirements, payload) != Stop(SettleRaises)
    ensures var v := Verify(rt, replies, requirements, payload);
      var s := SettleWith(rt, replies, requirements, payload, outcome);
      && !v.VerifyRaises?
      && ((s.Unsettled? && s.reason == "invalid") <==> (v.Invalid? && v.reason != "unconfirmed"))
      && ((s.Unsettled? && s.reason == "unconfirmed") <==> (v.Invalid? && v.reason == "unconfirmed"))
      && (v.Valid? <==> SettlePlan(rt, replies, requirements, payload).ToClaim?)
      && (v.Valid? ==> s == match outcome
                            case Won => Settled(ProofFrom(rt, payload).value, v.payer, v.amount)
                            case Spent => Unsettled("duplicate", ProofFrom(rt, payload).value)
                            case Raised => SettleRaises)
  {
    hide Verified, CheckSections, CheckShape;
    ReasonIsOwn(rt, requirements, payload);
  }

  lemma ReasonIsOwn(rt: Runtime, requirements: Json, payload: Json)
    ensures CheckRequirements(rt, requirements, payload) != Refused("unconfirmed")
  {
  }

  /** "duplicate" is only ever said of a payment that some stored row spells; a payment that no row
      spells is settled unless the database refuses a statement of its claim, and then settle
      raises. On a handle whose migration is done the table has to be closed. */
  lemma DuplicateMeansStored(rt: Runtime, replies: seq<Reply>, requirements: Json, payload: Json, t: Table,
                             pending: bool, readFails: bool, writeFails: bool, fault: Fault, now: real)
    requires SettlePlan(rt, replies, requirements, payload).ToClaim? && (!pending ==> Closed(t))
    ensures var plan := SettlePlan(rt, replies, requirements, payload);
      var key := ConsumptionKey(plan.proof, plan.requestId);
      var still := AfterRetry(t, pending, readFails, writeFails).1;
      var reached := Reached(still, key != SentKey(plan), fault);
      var verdict := SettleOn(rt, replies, requirements, payload, t, pending, readFails, writeFails, fault, now).0;
      && (verdict == Unsettled("duplicate", plan.proof) ==> SpellingStored(t, key))
      && (!SpellingStored(t, key) ==> verdict == if reached then SettleRaises
                                                 else Settled(plan.proof, plan.send.payer, plan.send.amount))
      && (SpellingStored(t, key) && !reached ==> verdict == Unsettled("duplicate", plan.proof))
  {
    hide SettlePlan, CanonicalKey, TransactFor, MigrateAlone, SpellingStored, Closed;
    var plan := SettlePlan(rt, replies, requirements, payload);
    var (t', still) := AfterRetry(t, pending, readFails, writeFails);
    RetryKeepsSpellings(t, pending, readFails, writeFails, ConsumptionKey(plan.proof, plan.requestId));
    KeysOfHash(plan.proof, plan.requestId);
    if ScanMistakable(SentKey(plan)) {
      MistakableIsNoKey(SentKey(plan));
    }
    AnswersAreHonest(t', still, SentKey(plan), true, fault, now);
  }

  /** The retry before a claim leaves a handle that may trust its table, and adds no payment. */
  lemma RetryKeepsSpellings(t: Table, pending: bool, readFails: bool, writeFails: bool, canonical: string)
    requires !pending ==> Closed(t)
    ensures var (t', still) := AfterRetry(t, pending, readFails, writeFails);
      (!still ==> Closed(t')) && (SpellingStored(t', canonical) <==> SpellingStored(t, canonical))
  {
    hide CanonicalKey, Migrated, NeedsMigration;
    NeedsMigrationIffNotClosed(t);
    MigratedIsClosed(t);
    MigratedKeys(t);
    forall k | k in t
      ensures CanonicalKey(CanonicalKey(k)) == CanonicalKey(k)
    {
      CanonicalIdempotent(k);
    }
  }

  /** What verify says of a request that passes the check. */
  lemma VerifyRefusalIs(rt: Runtime, replies: seq<Reply>, requirements: Json, payload: Json)
    requires CheckRequirements(rt, requirements, payload) == Pass && ProofFrom(rt, payload).Some?
    ensures var v, proof := Verify(rt, replies, requirements, payload), ProofFrom(rt, payload).value;
      && (v == Invalid("proof missing") <==> !Hex64(proof))
      && (v == Invalid("unconfirmed") <==>
            Hex64(proof)
            && !Verified(rt, replies, proof, Get(requirements, "payTo"), Get(requirements, "amount")).ok)
      && (v.Invalid? ==> v.reason in ["proof missing", "unconfirmed"])
  {
    hide Verified, CheckRequirements, ProofFrom, Hex64;
    PassedCheck(rt, requirements, payload);
  }

  /** The two objects agree on the terms of an `exact` payment on `nano`: each names this
      scheme, network and asset, one amount and one payee. */
  ghost predicate TermsAgree(rt: Runtime, requirements: Json, payload: Json) {
    && requirements.Obj? && payload.Obj? && Get(payload, "accepted").Obj? && Get(payload, "payload").Obj?
    && Get(requirements, "scheme") == Str(SCHEME)
    && Get(requirements, "network") == Get(Get(payload, "accepted"), "network") == Str(NETWORK)
    && Get(requirements, "asset") == Get(Get(payload, "accepted"), "asset") == Str(ASSET)
    && PyEq(Get(requirements, "amount"), Get(Get(payload, "accepted"), "amount"))
    && PyEq(Get(requirements, "payTo"), Get(Get(payload, "accepted"), "payTo"))
    && (Get(requirements, "extra").Null? || Get(requirements, "extra").Obj?)
  }

  /** A valid verdict means a payment: the terms agree, the proof is a 64-hex hash, and each of
      at least two endpoints reports a confirmed send of exactly the required raw amount to the
      required payee. */
  lemma ValidMeansPaid(rt: Runtime, replies: seq<Reply>, requirements: Json, payload: Json)
    requires Verify(rt, replies, requirements, payload).Valid?
    ensures TermsAgree(rt, requirements, payload)
    ensures ProofFrom(rt, payload).Some? && Hex64(ProofFrom(rt, payload).value)
    ensures |replies| >= 2 && ExpectedRaw(rt, Get(requirements, "amount")).Some?
    ensures var expected := ExpectedRaw(rt, Get(requirements, "amount")).value;
      forall i | 0 <= i < |replies| :: ReportsPayment(rt, replies[i], Get(requirements, "payTo"), expected)
    ensures var v := Verify(rt, replies, requirements, payload);
      && v.confirmedOn == v.consulted == |replies|
      && replies[0].Answer? && replies[0].body.Obj? && Some(v.payer) == PayerNamed(rt, replies[0].body)
      && Some(v.amount) == IntText(rt.digitLimit, ExpectedRaw(rt, Get(requirements, "amount")).value)
  {
    hide Confirmation, ExpectedRaw, StrOrEmpty, CheckSections, PyEq, ReportsPayment;
    PassedCheck(rt, requirements, payload);
    ShapeMeansTerms(rt, requirements, payload);
    var proof, payTo := ProofFrom(rt, payload).value, Index(requirements, "payTo");
    var amount := Index(requirements, "amount");
    OkIff(rt, replies, proof, payTo, amount);
    RecordsInOrder(rt, replies, proof, payTo, ExpectedRaw(rt, amount).value, 0);
    ConfirmsIffReported(rt, replies[0], proof, payTo, ExpectedRaw(rt, amount).value);
  }

  lemma ShapeMeansTerms(rt: Runtime, requirements: Json, payload: Json)
    requires CheckShape(requirements, payload) == Pass
    requires ProofFrom(rt, payload).Some? && ProofFrom(rt, payload).value != ""
    ensures TermsAgree(rt, requirements, payload)
  {
    var accepted := Or(Get(payload, "accepted"), Obj(map[]));
    StringsEqual(Get(requirements, "scheme"), SCHEME);
    StringsEqual(Get(requirements, "network"), NETWORK);
    StringsEqual(Get(accepted, "network"), NETWORK);
    StringsEqual(Get(requirements, "asset"), ASSET);
    StringsEqual(Get(accepted, "asset"), ASSET);
  }

  /** The values whose printing the code never guards: past the comparisons of the shape check
      the amount and the payee, and in a passed request the proof. verify raises for these
      exactly; every other pair of JSON values gets a verdict. */
  lemma VerifyRaisesIff(rt: Runtime, replies: seq<Reply>, requirements: Json, payload: Json)
    ensures Verify(rt, replies, requirements, payload).VerifyRaises? <==>
      && CheckShape(requirements, payload) == Pass
      && (|| StrOrEmpty(rt, Get(requirements, "amount")).None?
          || StrOrEmpty(rt, Get(requirements, "payTo")).None?
          || (CheckSections(rt, requirements) == Pass && ProofFrom(rt, payload).None?))
  {
    hide Verified;
    if CheckShape(requirements, payload) == Pass {
      SectionsRaiseIff(rt, requirements, payload);
    }
  }

  /** settle raises before its claim for the same values, for a proof it cannot print even in
      a request it refuses, and, once paid, for a request id it cannot print. */
  lemma SettleRaisesIff(rt: Runtime, replies: seq<Reply>, requirements: Json, payload: Json)
    ensures SettlePlan(rt, replies, requirements, payload) == Stop(SettleRaises) <==>
      || ProofFrom(rt, payload).None?
      || Verify(rt, replies, requirements, payload).VerifyRaises?
      || (Verify(rt, replies, requirements, payload).Valid?
          && StrOrEmpty(rt, Get(Or(Get(requirements, "extra"), Obj(map[])), "requestId")).None?)
  {
    hide Verified, CheckSections, CheckShape, StrOrEmpty, ProofFrom;
    if CheckRequirements(rt, requirements, payload) == Pass {
      PassedCheck(rt, requirements, payload);
    }
  }

  lemma SectionsRaiseIff(rt: Runtime, requirements: Json, payload: Json)
    requires CheckShape(requirements, payload) == Pass
    ensures CheckSections(rt, requirements).CheckRaises? <==>
              StrOrEmpty(rt, Get(requirements, "amount")).None? || StrOrEmpty(rt, Get(requirements, "payTo")).None?
  {
    hide ExpectedRaw, Strip;
    StringsEqual(Get(requirements, "scheme"), SCHEME);
    StringsEqual(Get(requirements, "network"), NETWORK);
    StringsEqual(Get(requirements, "asset"), ASSET);
    assert "amount" in REQUIRED_SECTIONS && "payTo" in REQUIRED_SECTIONS;
  }

  /** Values json.loads can return print, so no pair of them makes verify or settle raise
      before the claim. */
  lemma ParsedJsonGetsVerdict(rt: Runtime, replies: seq<Reply>, requirements: Json, payload: Json)
    requires Sound(rt) && Printable(rt.digitLimit, requirements) && Printable(rt.digitLimit, payload)
    ensures !Verify(rt, replies, requirements, payload).VerifyRaises?
    ensures SettlePlan(rt, replies, requirements, payload) != Stop(SettleRaises)
  {
    hide Verified, CheckSections, CheckShape, ProofFrom, StrOrEmpty, Printable, Sound;
    ProofPrints(rt, payload);
    if requirements.Obj? {
      SectionsPrint(rt, requirements);
    }
    if CheckRequirements(rt, requirements, payload) == Pass {
      PassedCheck(rt, requirements, payload);
      RequestIdPrints(rt, requirements);
    }
  }

  lemma ProofPrints(rt: Runtime, payload: Json)
    requires Sound(rt) && Printable(rt.digitLimit, payload)
    ensures ProofFrom(rt, payload).Some?
  {
    if payload.Obj? && Get(payload, "payload").Obj? {
      PrintableStr(rt, Get(Get(payload, "payload"), "paymentProof"));
    }
  }

  lemma RequestIdPrints(rt: Runtime, requirements: Json)
    requires Sound(rt) && Printable(rt.digitLimit, requirements)
    requires requirements.Obj? && (Get(requirements, "extra").Null? || Get(requirements, "extra").Obj?)
    ensures StrOrEmpty(rt, Get(Or(Get(requirements, "extra"), Obj(map[])), "requestId")).Some?
  {
    var extra := Get(requirements, "extra");
    if Truthy(extra) {
      PrintableStr(rt, Get(extra, "requestId"));
    }
  }

  lemma SectionsPrint(rt: Runtime, requirements: Json)
    requires Sound(rt) && Printable(rt.digitLimit, requirements) && requirements.Obj?
    ensures !CheckSections(rt, requirements).CheckRaises?
  {
    hide ExpectedRaw, Strip;
    forall name | name in REQUIRED_SECTIONS
      ensures SectionText(rt, requirements, name).Some?
    {
      PrintableStr(rt, Get(requirements, name));
    }
  }

  /** The guard on a huge integer amount comes too late: an integer with more digits than the
      limit makes verify raise on a request that is otherwise in order. */
  lemma HugeAmountRaises(rt: Runtime, replies: seq<Reply>, n: nat, payTo: string, proof: string)
    requires |Numerals.DecimalText(n)| > rt.digitLimit
    ensures Verify(rt, replies, Terms(n, payTo), Presented(n, payTo, proof)).VerifyRaises?
  {
    hide CheckSections, CheckShape;
    ShapeInOrder(n, payTo, proof);
    TooLongToPrint(rt, n);
    VerifyRaisesIff(rt, replies, Terms(n, payTo), Presented(n, payTo, proof));
  }

  /** A requirement may state its amount as an integer of raw: it verifies exactly when it is
      positive, the payee has some text, the proof is a 64-hex hash, and every one of at least two
      endpoints reports that many raw. */
  lemma IntegerAmountIff(rt: Runtime, replies: seq<Reply>, n: nat, payTo: string, proof: string)
    requires n < Numerals.Pow(10, rt.digitLimit)
    ensures Verify(rt, replies, Terms(n, payTo), Presented(n, payTo, proof)).Valid? <==>
      && 0 < n && Strip(payTo) != "" && Hex64(proof) && |replies| >= 2
      && forall i | 0 <= i < |replies| :: ReportsPayment(rt, replies[i], Str(payTo), n)
  {
    hide CheckShape, Verified, ReportsPayment, Strip, Hex64, ProofFrom, CheckSections;
    ShapeInOrder(n, payTo, proof);
    IntegerSections(rt, n, payTo);
    IntegerReads(rt, n);
    PresentedProof(rt, n, payTo, proof);
    if n > 0 {
      OkIff(rt, replies, proof, Str(payTo), Int(n));
    }
  }

  lemma IntegerReads(rt: Runtime, n: nat)
    requires n < Numerals.Pow(10, rt.digitLimit)
    ensures IntText(rt.digitLimit, n).Some?
    ensures ExpectedRaw(rt, Int(n)) == if n > 0 then Some(n as int) else None
  {
    hide ParseRaw, IsAmountString;
    IntPrintsIff(rt.digitLimit, n);
    AmountTextRoundTrip(rt.digitLimit, n);
  }

  lemma PresentedProof(rt: Runtime, n: nat, payTo: string, proof: string)
    ensures ProofFrom(rt, Presented(n, payTo, proof)) == Some(proof)
  {
    assert Get(Presented(n, payTo, proof), "payload") == Obj(map["paymentProof" := Str(proof)]);
  }

  lemma IntegerSections(rt: Runtime, n: nat, payTo: string)
    requires n < Numerals.Pow(10, rt.digitLimit)
    ensures CheckSections(rt, Terms(n, payTo)) == Pass <==> 0 < n && Strip(payTo) != ""
  {
    hide Strip, SectionText, ExpectedRaw, IntText;
    var terms := Terms(n, payTo);
    IntegerReads(rt, n);
    StripNothing("exact");
    StripNothing("nano:live");
    StripNothing("XNO");
    StringSection(rt, terms, "scheme", "exact");
    StringSection(rt, terms, "network", "nano:live");
    StringSection(rt, terms, "asset", "XNO");
    StringSection(rt, terms, "payTo", payTo);
    IntegerSection(rt, terms, n);
    assert "payTo" in REQUIRED_SECTIONS && "amount" in REQUIRED_SECTIONS;
  }

  lemma StringSection(rt: Runtime, requirements: Json, name: string, text: string)
    requires requirements.Obj? && Get(requirements, name) == Str(text)
    ensures SectionText(rt, requirements, name) == Some(Strip(text))
  {
    StripNothing("");
  }

  lemma IntegerSection(rt: Runtime, requirements: Json, n: nat)
    requires requirements.Obj? && Get(requirements, "amount") == Int(n) && IntText(rt.digitLimit, n).Some?
    ensures SectionText(rt, requirements, "amount") == Some(if n > 0 then IntText(rt.digitLimit, n).value else "")
    ensures n > 0 ==> IntText(rt.digitLimit, n).value != ""
  {
    StripNothing("");
    var text := IntText(rt.digitLimit, n).value;
    assert Numerals.DecimalDigit(text[0]) && Numerals.DecimalDigit(text[|text| - 1]);
    StripNothing(text);
  }

  lemma TooLongToPrint(rt: Runtime, n: nat)
    requires |Numerals.DecimalText(n)| > rt.digitLimit
    ensures StrOrEmpty(rt, Int(n)).None?
  {
    assert n < 10 ==> |Numerals.DecimalText(n)| == 1;
  }

  lemma ShapeInOrder(n: nat, payTo: string, proof: string)
    ensures CheckShape(Terms(n, payTo), Presented(n, payTo, proof)) == Pass
  {
    var terms, presented := Terms(n, payTo), Presented(n, payTo, proof);
    assert Or(Get(presented, "accepted"), Obj(map[])) == terms by {
      assert "scheme" in terms.fields;
    }
    assert Or(Get(presented, "payload"), Obj(map[])).Obj?;
    assert PyEq(Int(n), Int(n)) && PyEq(Str(payTo), Str(payTo));
    assert Get(terms, "amount") == Int(n) && Get(terms, "payTo") == Str(payTo);
    assert Get(terms, "extra") == Null;
  }

  function Terms(n: nat, payTo: string): Json {
    Obj(map["scheme" := Str(SCHEME), "network" := Str(NETWORK), "asset" := Str(ASSET),
            "amount" := Int(n), "payTo" := Str(payTo)])
  }

  function Presented(n: nat, payTo: string, proof: string): Json {
    Obj(map["accepted" := Terms(n, payTo), "payload" := Obj(map["paymentProof" := Str(proof)])])
  }
}
