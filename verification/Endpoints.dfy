/** Confirming a payment on every independent RPC endpoint, failing closed. */
module Endpoints {
  import opened Text
  import opened Json
  import opened Numerals
  import opened Amounts

  /** What asking one endpoint for a block gave: an exception, or a JSON answer. */
  datatype Reply = Failed | Answer(body: Json)

  /** `NormalizedBlock`. */
  datatype Block = Block(account: string, subtype: string, destination: string, amount: int, confirmed: bool)

  /** The block's contents as an object, whether the node sent an object or its text. */
  function ContentsOf(rt: Runtime, raw: Json): (contents: Json)
    requires raw.Obj?
    ensures contents.Obj?
  {
    var contents := Get(raw, "contents");
    if contents.Obj? then contents
    else if contents.Str? && Strip(contents.s) != "" then
      var parsed := rt.loads(contents.s);
      if parsed.Some? && parsed.value.Obj? then parsed.value else Obj(map[])
    else Obj(map[])
  }

  /** `is True or str(...).strip().lower() == "true"`; None when str() raises. */
  function ReadsTrue(rt: Runtime, flag: Json): Option<bool> {
    if flag == Bool(true) then Some(true) else
    var text := PyStr(rt, flag);
    if text.None? then None else Some(LowerAll(Strip(text.value)) == "true")
  }

  /** `normalize_block_info`; None where it raises. */
  function NormalizeBlockInfo(rt: Runtime, raw: Json): Option<Block> {
    if !raw.Obj? || Get(raw, "confirmed").Null? || Get(raw, "amount").Null? then None else
    var contents := ContentsOf(rt, raw);
    var confirmed := ReadsTrue(rt, Get(raw, "confirmed"));
    var account := StrOrEmpty(rt, Or(Get(raw, "block_account"), Get(raw, "account")));
    var subtype := StrOrEmpty(rt, Or(Or(Get(raw, "subtype"), Get(raw, "type")), Get(contents, "type")));
    var destination := StrOrEmpty(rt, Or(Or(Or(Get(contents, "link_as_account"), Get(contents, "destination")),
                                            Get(raw, "link_as_account")),
                                         Get(raw, "destination")));
    var amountText := PyStr(rt, Get(raw, "amount"));
    if confirmed.None? || account.None? || subtype.None? || destination.None? || amountText.None? then None else
    var amount := ParseRaw(rt.digitLimit, amountText.value);
    if amount.None? then None
    else Some(Block(account.value, subtype.value, destination.value, amount.value, confirmed.value))
  }

  datatype Send = Send(hash: string, payer: string, amount: string, receiver: string)

  /** The checks one endpoint's answer has to pass; None where the loop body raises. The amount
      is printed into the record, so an amount too long to print fails here as well. */
  function Confirmation(rt: Runtime, reply: Reply, hash: string, payTo: Json, expected: int): Option<Send> {
    if reply.Failed? then None else
    var block := NormalizeBlockInfo(rt, reply.body);
    if block.None? then None else
    var nb := block.value;
    if !nb.confirmed || nb.subtype !in ["send", "state", ""] || nb.amount != expected
       || nb.destination == "" || !PyEq(Str(nb.destination), payTo) then None else
    var text := IntText(rt.digitLimit, nb.amount);
    if text.None? then None else Some(Send(hash, nb.account, text.value, nb.destination))
  }

  /** The confirmations among the replies, in order. */
  function Confirmations(rt: Runtime, replies: seq<Reply>, hash: string, payTo: Json, expected: int): (sends: seq<Send>)
    ensures |sends| <= |replies|
  {
    if replies == [] then [] else
    var earlier := Confirmations(rt, replies[..|replies| - 1], hash, payTo, expected);
    var last := Confirmation(rt, replies[|replies| - 1], hash, payTo, expected);
    if last.Some? then earlier + [last.value] else earlier
  }

  /** The positive raw amount a requirement asks for, if its text is plain and readable. */
  function ExpectedRaw(rt: Runtime, amount: Json): Option<int> {
    var text := AmountText(rt.digitLimit, amount);
    if text.None? then None else
    var raw := ParseRaw(rt.digitLimit, text.value);
    if raw.Some? && raw.value > 0 then raw else None
  }

  /** `VerificationResult`, without its message. */
  datatype Verification = Verification(ok: bool, sends: seq<Send>, consulted: nat)

  function Verified(rt: Runtime, replies: seq<Reply>, hash: string, payTo: Json, amount: Json): (v: Verification)
    ensures v.ok ==> |v.sends| >= 2
  {
    if |replies| < 2 then Verification(false, [], |replies|)
    else if ExpectedRaw(rt, amount).None? then Verification(false, [], 0)
    else
      var sends := Confirmations(rt, replies, hash, payTo, ExpectedRaw(rt, amount).value);
      Verification(|sends| == |replies|, sends, |replies|)
  }

  /** `verify_block_on_independent_endpoints`: every endpoint is asked, each failure is
      counted, and one failure refuses. */
  method VerifyBlock(rt: Runtime, replies: seq<Reply>, hash: string, payTo: Json, amount: Json)
    returns (v: Verification, failures: nat)
    ensures v == Verified(rt, replies, hash, payTo, amount)
    ensures v.consulted > 0 && |replies| >= 2 ==> failures + |v.sends| == |replies| == v.consulted
  {
    hide Confirmation, ParseRaw, AmountText;
    failures := 0;
    var required := |replies|;
    if required < 2 {
      return Verification(false, [], required), failures;
    }
    var sends := [];
    var text := AmountText(rt.digitLimit, amount);
    if text.None? {
      return Verification(false, [], 0), failures;
    }
    var expected := ParseRaw(rt.digitLimit, text.value);
    if expected.None? || expected.value <= 0 {
      return Verification(false, [], 0), failures;
    }
    for i := 0 to required
      invariant sends == Confirmations(rt, replies[..i], hash, payTo, expected.value)
      invariant failures + |sends| == i
    {
      assert replies[..i + 1][..i] == replies[..i];
      var confirmation := Confirmation(rt, replies[i], hash, payTo, expected.value);
      if confirmation.Some? {
        sends := sends + [confirmation.value];
      } else {
        failures := failures + 1;
      }
    }
    assert replies[..required] == replies;
    return Verification(failures == 0, sends, required), failures;
  }

  lemma {:induction false} AllConfirm(rt: Runtime, replies: seq<Reply>, hash: string, payTo: Json, expected: int)
    ensures |Confirmations(rt, replies, hash, payTo, expected)| == |replies| <==>
              forall i | 0 <= i < |replies| :: Confirmation(rt, replies[i], hash, payTo, expected).Some?
  {
    hide Confirmation;
    if replies != [] {
      var init := replies[..|replies| - 1];
      AllConfirm(rt, init, hash, payTo, expected);
      assert forall i | 0 <= i < |init| :: replies[i] == init[i];
    }
  }

  /** When every endpoint confirms, the records are theirs, in order. */
  lemma {:induction false} RecordsInOrder(rt: Runtime, replies: seq<Reply>, hash: string, payTo: Json, expected: int,
                                          i: nat)
    requires |Confirmations(rt, replies, hash, payTo, expected)| == |replies| && i < |replies|
    ensures Confirmation(rt, replies[i], hash, payTo, expected) ==
            Some(Confirmations(rt, replies, hash, payTo, expected)[i])
    decreases |replies|
  {
    hide Confirmation;
    if i < |replies| - 1 {
      RecordsInOrder(rt, replies[..|replies| - 1], hash, payTo, expected, i);
    }
  }

  // ---- what an answer says, field by field ----

  /** The text of the first of these fields that is there and not empty, or "" if none is; None
      when it does not print. */
  function FirstNamed(rt: Runtime, values: seq<Json>): Option<string> {
    if values == [] then Some("")
    else if Truthy(values[0]) then PyStr(rt, values[0]) else FirstNamed(rt, values[1..])
  }

  lemma {:induction false} FirstNamedIs(rt: Runtime, values: seq<Json>, i: nat)
    requires i < |values| && Truthy(values[i]) && forall j | 0 <= j < i :: !Truthy(values[j])
    ensures FirstNamed(rt, values) == PyStr(rt, values[i])
  {
    if i > 0 {
      FirstNamedIs(rt, values[1..], i - 1);
    }
  }

  /** Who an answer says was paid: the state block's own fields come before the node's. */
  function PayeeNamed(rt: Runtime, raw: Json): Option<string>
    requires raw.Obj?
  {
    var contents := ContentsOf(rt, raw);
    FirstNamed(rt, [Get(contents, "link_as_account"), Get(contents, "destination"),
                    Get(raw, "link_as_account"), Get(raw, "destination")])
  }

  /** Who it says paid. */
  function PayerNamed(rt: Runtime, raw: Json): Option<string>
    requires raw.Obj?
  {
    FirstNamed(rt, [Get(raw, "block_account"), Get(raw, "account")])
  }

  function SubtypeNamed(rt: Runtime, raw: Json): Option<string>
    requires raw.Obj?
  {
    FirstNamed(rt, [Get(raw, "subtype"), Get(raw, "type"), Get(ContentsOf(rt, raw), "type")])
  }

  /** The word in some case. */
  predicate SpellsTrue(word: string) {
    |word| == 4 && word[0] in "tT" && word[1] in "rR" && word[2] in "uU" && word[3] in "eE"
  }

  /** The flag is a yes: the JSON value, or the word in any case between white space. */
  ghost predicate Affirms(rt: Runtime, flag: Json) {
    flag == Bool(true)
    || exists before, word, after | PyStr(rt, flag) == Some(before + word + after) ::
         AllSpace(before) && AllSpace(after) && SpellsTrue(word)
  }

  lemma LowerSpellsTrue(word: string)
    ensures LowerAll(word) == "true" <==> SpellsTrue(word)
  {
    if SpellsTrue(word) {
      assert LowerAll(word) == [Lower(word[0]), Lower(word[1]), Lower(word[2]), Lower(word[3])];
    }
    if LowerAll(word) == "true" {
      var l := LowerAll(word);
      assert |word| == 4 && l[0] == 't' && l[1] == 'r' && l[2] == 'u' && l[3] == 'e';
    }
  }

  lemma ReadsTrueIff(rt: Runtime, flag: Json)
    ensures ReadsTrue(rt, flag) == Some(true) <==> Affirms(rt, flag)
  {
    hide Strip, LowerAll;
    if flag != Bool(true) && PyStr(rt, flag).Some? {
      var text := PyStr(rt, flag).value;
      var before, after := StripSplits(text);
      LowerSpellsTrue(Strip(text));
      if Affirms(rt, flag) {
        var b, word, a :| PyStr(rt, flag) == Some(b + word + a) && AllSpace(b) && AllSpace(a) && SpellsTrue(word);
        StripOf(b, word, a);
      }
    }
  }

  /** An endpoint reports a confirmed send of exactly `expected` raw to `payTo`. */
  ghost predicate ReportsPayment(rt: Runtime, reply: Reply, payTo: Json, expected: int) {
    && reply.Answer? && reply.body.Obj?
    && var raw := reply.body;
    && Affirms(rt, Get(raw, "confirmed"))
    && SubtypeNamed(rt, raw) in [Some("send"), Some("state"), Some("")]
    && PayeeNamed(rt, raw).Some? && PayeeNamed(rt, raw) != Some("") && payTo == Str(PayeeNamed(rt, raw).value)
    && PayerNamed(rt, raw).Some?
    && PyStr(rt, Get(raw, "amount")).Some?
    && ParseRaw(rt.digitLimit, PyStr(rt, Get(raw, "amount")).value) == Some(expected)
  }

  lemma NoAmountInNone(limit: DigitLimit)
    ensures ParseRaw(limit, "None").None?
  {
    StripNothing("None");
  }

  /** What a node's answer normalises to is what it says, field by field. */
  lemma NormalizedSays(rt: Runtime, raw: Json)
    requires raw.Obj?
    ensures NormalizeBlockInfo(rt, raw).Some? ==>
              var nb := NormalizeBlockInfo(rt, raw).value;
              && Some(nb.account) == PayerNamed(rt, raw) && Some(nb.subtype) == SubtypeNamed(rt, raw)
              && Some(nb.destination) == PayeeNamed(rt, raw)
              && (nb.confirmed <==> Affirms(rt, Get(raw, "confirmed")))
              && PyStr(rt, Get(raw, "amount")).Some?
              && ParseRaw(rt.digitLimit, PyStr(rt, Get(raw, "amount")).value) == Some(nb.amount)
    ensures NormalizeBlockInfo(rt, raw).Some? <==>
      && !Get(raw, "confirmed").Null? && PyStr(rt, Get(raw, "confirmed")).Some?
      && PayerNamed(rt, raw).Some? && SubtypeNamed(rt, raw).Some? && PayeeNamed(rt, raw).Some?
      && PyStr(rt, Get(raw, "amount")).Some?
      && ParseRaw(rt.digitLimit, PyStr(rt, Get(raw, "amount")).value).Some?
  {
    hide PyStr, ParseRaw, ContentsOf, Affirms;
    ReadsTrueIff(rt, Get(raw, "confirmed"));
    NoAmountInNone(rt.digitLimit);
    ConstantsPrint(rt);
    var contents := ContentsOf(rt, raw);
    TwoNamed(rt, Get(raw, "block_account"), Get(raw, "account"));
    ThreeNamed(rt, Get(raw, "subtype"), Get(raw, "type"), Get(contents, "type"));
    FourNamed(rt, Get(contents, "link_as_account"), Get(contents, "destination"),
              Get(raw, "link_as_account"), Get(raw, "destination"));
  }

  lemma TwoNamed(rt: Runtime, a: Json, b: Json)
    ensures FirstNamed(rt, [a, b]) == StrOrEmpty(rt, Or(a, b))
  {
    hide PyStr;
    ConstantsPrint(rt);
    assert [a, b][1..] == [b] && [b][1..] == [];
    assert FirstNamed(rt, [b]) == if Truthy(b) then PyStr(rt, b) else Some("");
  }

  lemma ThreeNamed(rt: Runtime, a: Json, b: Json, c: Json)
    ensures FirstNamed(rt, [a, b, c]) == StrOrEmpty(rt, Or(Or(a, b), c))
  {
    hide PyStr;
    assert [a, b, c][1..] == [b, c];
    TwoNamed(rt, b, c);
  }

  lemma FourNamed(rt: Runtime, a: Json, b: Json, c: Json, d: Json)
    ensures FirstNamed(rt, [a, b, c, d]) == StrOrEmpty(rt, Or(Or(Or(a, b), c), d))
  {
    hide PyStr;
    assert [a, b, c, d][1..] == [b, c, d];
    ThreeNamed(rt, b, c, d);
  }

  /** The contents read alike whether the node sends the object or its JSON text, and as empty when
      it sends neither. */
  lemma ContentsEitherWay(rt: Runtime, fields: map<string, Json>, contents: Json, text: string)
    requires contents.Obj? && Strip(text) != "" && rt.loads(text) == Some(contents)
    ensures ContentsOf(rt, Obj(fields["contents" := contents])) == contents
    ensures ContentsOf(rt, Obj(fields["contents" := Str(text)])) == contents
  {
  }

  /** And as empty when what it sends is neither, or text that holds no object. */
  lemma ContentsElse(rt: Runtime, raw: Json)
    requires raw.Obj? && !Get(raw, "contents").Obj?
    requires Get(raw, "contents").Str? ==>
               rt.loads(Get(raw, "contents").s).None? || !rt.loads(Get(raw, "contents").s).value.Obj?
    ensures ContentsOf(rt, raw) == Obj(map[])
  {
  }

  lemma ConfirmsIffReported(rt: Runtime, reply: Reply, hash: string, payTo: Json, expected: int)
    ensures Confirmation(rt, reply, hash, payTo, expected).Some? <==>
              ReportsPayment(rt, reply, payTo, expected) && IntText(rt.digitLimit, expected).Some?
    ensures Confirmation(rt, reply, hash, payTo, expected).Some? ==>
              var send := Confirmation(rt, reply, hash, payTo, expected).value;
              && send.hash == hash && Str(send.receiver) == payTo
              && Some(send.amount) == IntText(rt.digitLimit, expected)
              && reply.Answer? && reply.body.Obj? && PayerNamed(rt, reply.body) == Some(send.payer)
  {
    hide NormalizeBlockInfo, IntText, Affirms, PyStr, ParseRaw, PayeeNamed, PayerNamed, SubtypeNamed;
    if reply.Answer? && reply.body.Obj? {
      NormalizedSays(rt, reply.body);
      if Affirms(rt, Get(reply.body, "confirmed")) {
        AffirmedPrints(rt, Get(reply.body, "confirmed"));
      }
      if NormalizeBlockInfo(rt, reply.body).Some? {
        var destination := NormalizeBlockInfo(rt, reply.body).value.destination;
        assert PyEq(Str(destination), payTo) <==> payTo == Str(destination);
      }
    } else {
      NonObjectsSayNothing(rt, reply);
    }
  }

  lemma AffirmedPrints(rt: Runtime, flag: Json)
    requires Affirms(rt, flag)
    ensures !flag.Null? && PyStr(rt, flag).Some?
  {
    if flag != Bool(true) {
      var before, word, after :| PyStr(rt, flag) == Some(before + word + after)
                                 && AllSpace(before) && AllSpace(after) && SpellsTrue(word);
      StripOf(before, word, after);
      StripNothing("None");
    }
  }

  lemma NonObjectsSayNothing(rt: Runtime, reply: Reply)
    requires reply.Answer? ==> !reply.body.Obj?
    ensures reply.Answer? ==> NormalizeBlockInfo(rt, reply.body).None?
  {
  }

  /** Fail-closed and complete: the block verifies exactly when at least two endpoints are
      configured, the amount is a positive plain one of fewer than 10^limit raw, so that it can be
      printed, and every endpoint reports a confirmed send of exactly that amount to the payee. */
  lemma OkIff(rt: Runtime, replies: seq<Reply>, hash: string, payTo: Json, amount: Json)
    ensures Verified(rt, replies, hash, payTo, amount).ok <==>
      && |replies| >= 2
      && ExpectedRaw(rt, amount).Some?
      && ExpectedRaw(rt, amount).value < Pow(10, rt.digitLimit)
      && forall i | 0 <= i < |replies| :: ReportsPayment(rt, replies[i], payTo, ExpectedRaw(rt, amount).value)
  {
    hide Pow, IntText;
    if |replies| >= 2 && ExpectedRaw(rt, amount).Some? {
      var expected := ExpectedRaw(rt, amount).value;
      IntPrintsIff(rt.digitLimit, expected);
      AllConfirm(rt, replies, hash, payTo, expected);
      forall i | 0 <= i < |replies|
        ensures Confirmation(rt, replies[i], hash, payTo, expected).Some? <==>
                  ReportsPayment(rt, replies[i], payTo, expected) && IntText(rt.digitLimit, expected).Some?
      {
        ConfirmsIffReported(rt, replies[i], hash, payTo, expected);
      }
      assert replies[0] in replies;
    }
  }

  /** What the verdict says it asked: every endpoint or, for an amount no send can match, none; and a
      refusal records no more sends than endpoints. */
  lemma ConsultedIs(rt: Runtime, replies: seq<Reply>, hash: string, payTo: Json, amount: Json)
    ensures var v := Verified(rt, replies, hash, payTo, amount);
      && v.consulted == (if |replies| < 2 || ExpectedRaw(rt, amount).Some? then |replies| else 0)
      && (|replies| < 2 || ExpectedRaw(rt, amount).None? ==> v.sends == [])
      && |v.sends| <= |replies|
  {
    hide ExpectedRaw, Confirmation;
  }

  /** Keeping any two or more of the endpoints, in any order, never turns ok into a refusal. */
  lemma FewerEndpointsStillOk(rt: Runtime, replies: seq<Reply>, kept: seq<Reply>, hash: string, payTo: Json,
                              amount: Json)
    requires Verified(rt, replies, hash, payTo, amount).ok
    requires |kept| >= 2 && forall r | r in kept :: r in replies
    ensures Verified(rt, kept, hash, payTo, amount).ok
  {
    OkIff(rt, replies, hash, payTo, amount);
    OkIff(rt, kept, hash, payTo, amount);
    forall i | 0 <= i < |kept|
      ensures ReportsPayment(rt, kept[i], payTo, ExpectedRaw(rt, amount).value)
    {
      assert kept[i] in replies;
    }
  }

  /** An answer of the shape real nodes give, about a send of `amount` to `payTo`. */
  function Told(payTo: string, amount: string, flag: string): Json {
    Obj(map["confirmed" := Str(flag), "amount" := Str(amount), "subtype" := Str("send"),
            "contents" := Obj(map["type" := Str("state"), "link_as_account" := Str(payTo)])])
  }

  /** It reports the payment exactly when its flag says so, whoever is named in it. */
  lemma ToldReports(rt: Runtime, payTo: string, amount: string, flag: string, payee: string, raw: int)
    requires payTo != "" && ParseRaw(rt.digitLimit, amount) == Some(raw)
    ensures ReportsPayment(rt, Answer(Told(payTo, amount, flag)), Str(payee), raw) <==>
              payee == payTo && Affirms(rt, Str(flag))
  {
    hide ParseRaw, Affirms;
    var told := Told(payTo, amount, flag);
    assert ContentsOf(rt, told) == Obj(map["type" := Str("state"), "link_as_account" := Str(payTo)]);
    assert Get(told, "block_account") == Get(told, "account") == Null;
    FirstNamedIs(rt, [Get(ContentsOf(rt, told), "link_as_account"), Get(ContentsOf(rt, told), "destination"),
                      Get(told, "link_as_account"), Get(told, "destination")], 0);
    FirstNamedIs(rt, [Get(told, "subtype"), Get(told, "type"), Get(ContentsOf(rt, told), "type")], 0);
    TwoNamed(rt, Null, Null);
  }

  /** "true" is a yes and "false" is none. */
  lemma TrueAffirms(rt: Runtime)
    ensures Affirms(rt, Str("true")) && !Affirms(rt, Str("false"))
  {
    StripNothing("true");
    StripNothing("false");
    ReadsTrueIff(rt, Str("true"));
    ReadsTrueIff(rt, Str("false"));
    LowerSpellsTrue("true");
    LowerSpellsTrue("false");
  }

  /** A plain amount of as many integer digits as int() reads, and one fraction digit. */
  function LongAmount(limit: DigitLimit): string {
    "1" + Zeros(limit - 1) + "." + "1"
  }

  lemma LongAmountReads(limit: DigitLimit)
    ensures IsAmountString(LongAmount(limit))
    ensures ParseRaw(limit, LongAmount(limit)).Some? && ParseRaw(limit, LongAmount(limit)).value >= Pow(10, limit)
  {
    hide ParseRaw, ReadDecimal, IsAmountString, Pow, DotAt;
    var whole := "1" + Zeros(limit - 1);
    SplitAtDot(whole, "1");
    ParsePlain(limit, LongAmount(limit));
    ReadDecimalAppend("1", Zeros(limit - 1));
    ReadDecimalDigit(1);
    ReadZeros(limit - 1);
    assert ReadDecimal(whole) == Pow(10, limit - 1) by {
      assert 1 * Pow(10, limit - 1) == Pow(10, limit - 1);
    }
    TenTimes(limit);
  }

  lemma TenTimes(limit: nat)
    requires 0 < limit
    ensures Pow(10, limit) <= Pow(10, limit - 1) * RAW_PER_NANO
  {
    PowPositive(10, limit - 1);
  }

  /** Matched by every node and still refused: an amount that can be read, but is worth more raw
      than an integer that prints, never verifies whatever the endpoints report. */
  lemma LongAmountNeverVerifies(rt: Runtime, replies: seq<Reply>, hash: string, payTo: string)
    requires |replies| >= 2 && payTo != ""
    requires forall r | r in replies :: r == Answer(Told(payTo, LongAmount(rt.digitLimit), "true"))
    ensures var amount := Str(LongAmount(rt.digitLimit));
      && ExpectedRaw(rt, amount).Some?
      && IntText(rt.digitLimit, ExpectedRaw(rt, amount).value).None?
      && (forall r | r in replies :: ReportsPayment(rt, r, Str(payTo), ExpectedRaw(rt, amount).value))
      && !Verified(rt, replies, hash, Str(payTo), amount).ok
  {
    hide ParseRaw, IsAmountString, Pow, LongAmount, Verified, Told, ReportsPayment, Affirms;
    var amount := LongAmount(rt.digitLimit);
    LongAmountReads(rt.digitLimit);
    PowPositive(10, rt.digitLimit);
    var raw := ParseRaw(rt.digitLimit, amount).value;
    IntPrintsIff(rt.digitLimit, raw);
    TrueAffirms(rt);
    ToldReports(rt, payTo, amount, "true", payTo, raw);
    OkIff(rt, replies, hash, Str(payTo), Str(amount));
  }
}
