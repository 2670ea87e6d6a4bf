# Exactly-once payments, verified

This project models nano-mcp-public, a payment-verification system for the Nano network, in Dafny and
proves what it promises about money: a payment is settled once, under any interleaving and any spelling;
a verdict of "paid" means every consulted node reported exactly that payment; spending guards hold over
whole runs; amounts, prices, addresses and signed bytes lose nothing on the way.

## How the model is laid out

| file | part of the system |
|---|---|
| `Text.dfy`, `Numerals.dfy`, `Json.dfy` | strings with Python's slices and SQLite's substr, numerals in any base, JSON values with Python's truth, equality and str() |
| `ClaimKeys.dfy`, `ClaimStore.dfy` | the claim key in Python and in SQL, the migration, the claim transaction, the store class |
| `ClaimProtocol.dfy` | many handles of two releases on one table, as interleaved steps |
| `Amounts.dfy`, `Endpoints.dfy`, `Facilitator.dfy`, `ResourceServer.dfy` | amount text, the fail-closed endpoint loop, verify and settle, the HTTP 402 resource server |
| `ApprovalStore.dfy`, `PaymentService.dfy` | the approval store, `verify_payment` calls as threads |
| `Spending.dfy`, `SessionSpending.dfy` | the wallet's and the mandated session wallet's caps over runs with a moving clock |
| `Addresses.dfy`, `Mandates.dfy`, `Hkdf.dfy`, `OneShot.dfy`, `Blocks.dfy` | base32 addresses, mandates signed and verified, both HKDF loops, one-time addresses, block bytes |
| `Rounding.dfy`, `Pricing.dfy` | decimal arithmetic at a context precision, the median of rates, dollar quotes |

Objects the program updates in place are classes (`ClaimStore`, `ApprovalStore`, `Wallet`, `SessionWallet`,
`Database`); each of their methods is proved equal to a function of the old state, and the state machines
step by those same functions. Loops of the program are loops here, with their invariants.

The claim protocol's steps are: opening and closing a handle, calling a claim, the read-only migration
check, the migration transaction, the claim transaction, and a write of the previous release, which is
enabled only while no handle is open. A failing database is a flag on a step. The key invariant is that a
handle that no longer migrates may rely on the table being closed under canonical spelling; from it follow
freshness of every win, at-most-once per payment key for this release, exactly which spellings the previous
release can still win after a rollback, and the one-serve theorem of the resource server.

What the model assumes of the world is written in the contracts that use it: hash and MAC functions have
fixed result sizes (`FiveBytes`, `HashSized`), one node at each settle reports the block's true payee
(`HonestlySettled`), an account's history lists that account's own blocks (`HistoriesOwn`), the request ids two
calls claim derive different keys if they differ (`KeysDiffer`, asked of those ids and not of all strings), UTF-8
and float repr() tell values apart (`Faithful`), what is signed verifies (`Correct`) and a signature does so over
its own message only (`Binds`), a signature presented was made over an issued mandate (`Unforged`), str() of a
list or object raises only on an integer too long to print (`Sound`), and whole-second clock readings do not go
back (`InOrder`, `SessionInOrder`).

## Where the code does not do what it says

- A huge integer amount is meant to be refused (`nano_mcp/facilitator.py:101-118`), but the
  required-sections check prints it first (`nano_mcp/facilitator.py:860-864`) and raises. `HugeAmountRaises`
  shows the input; `VerifyRaisesIff` and `SettleRaisesIff` say exactly which values make verify and settle
  raise before its claim; `ParsedJsonGetsVerdict` shows that no value json.loads returns is among them, strings
  with lone surrogates, which the model's strings cannot hold, aside.
- While a migration is pending, `is_claimed` can answer differently from a migrated handle for a key that
  is not in the claim format, because the scan tests neither hex nor length. `PendingAnswersAgreeIff` gives
  the exact set of such keys, and `SpentIsHonestIff` shows the same set can be told "spent" unclaimed; every
  well-formed key is outside it.
- `Wallet._record_send` reads the clock twice, so the cap holds by the day the guard passed and by the day the
  first reading fell on, but not by the day an amount is filed under: `RecordDayCanExceedCap` is a run that
  files twice the cap under one day. `RecordDayHoldsIff` says exactly when it does hold: as long as every
  accepted send read one day twice while it was recorded.
- `buyer._hkdf_sha256` cuts a request past 8160 bytes short where `oneshot.hkdf_sha256` raises.
- An amount can be readable and matched by every node and still not verify, because the record prints it:
  `LongAmountNeverVerifies` gives one, and `OkIff` the condition, fewer than 10^limit raw.
- "Each key is won once" (`nano_mcp/facilitator.py:477-479`) is this release's promise only. After a rollback
  the previous release wins a settled payment again under a spelling neither release wrote, as the upgrade
  notes say: `OtherCaseWinsAfterRollback` is such a run, `RollbackWinsIff` the exact set of spellings.
- Run beside this release the previous one can make a payment win twice (`MixedReleasesCanClaimTwice`); the upgrade
  notes forbid it. `MixedRunSafeIff` says exactly which of its writes do that: of a spelling whose canonical row
  is missing, while some open handle no longer migrates.
- A source that fails is tolerated, but one that answers NaN is not: the sort raises and there is no quote.
  `NaNSourceDenies` shows the input, `FetchedIff` says exactly when there is a rate.
- The mean of the two middle rates of an even list is rounded twice to the context precision and can leave both
  of them: two sources that agree on 9.999999999999999999999999999 get a median of 10 (`TwoNinesLeave`).
  `MedianRobust` bounds how far for rates of any length, `RangeKeptIff` says exactly which ranges are kept by every
  list, and `MeanInsideIff` and `MedianRobustIff` which pairs and lists of rates that fit the precision are.
- A mandate with a NaN expiry is issued, since NaN is not at or before the issue time, and never expires:
  `NaNExpiryIsIssued`, and `NeverExpiresIff` for exactly which expiries never pass.

## Model

| member | source | states |
|---|---|---|
| Json.FalsyIff | nano_mcp/facilitator.py:193-235 | what `or` passes over: null, false, zero, and the empty string, list and object |
| Json.EqualsItself | nano_mcp/facilitator.py:828-843 | every JSON value equals itself |
| Json.EqualValues | nano_mcp/facilitator.py:828-843 | equal values are of one kind, bool, int and float being one, and equal place by place |
| Json.BoolsAreNumbers | nano_mcp/facilitator.py:828-843 | true equals 1 and 1.0 and false 0 |
| Json.SpacesAre | nano_mcp/facilitator.py:76-77 | the characters strip() removes, one by one |
| Json.CaseRoundTrip | nano_mcp/facilitator.py:190 | lower-casing after upper-casing is lower-casing, and the other way round |
| ClaimKeys.CanonicalAgrees | nano_mcp/facilitator.py:424-426 | the SQL rewriting equals the Python canonical key on every well-formed key, and Python leaves all others unchanged |
| ClaimKeys.CanonicalIdempotent | nano_mcp/facilitator.py:631-646 | a canonical key is its own canonical form and stays well-formed |
| ClaimKeys.PendingRefinesCanonical | nano_mcp/facilitator.py:428-438 | a row is pending in SQL exactly when its Python canonical key differs from it and is not stored |
| ClaimKeys.ScanFindsSpellings | nano_mcp/facilitator.py:450-456 | for a well-formed canonical key the old-spelling scan matches exactly the rows that canonicalise to it, without hex or length test |
| Claims.Earliest | nano_mcp/facilitator.py:443 | the group's time is attained by a row and is no later than any |
| Claims.NeedsMigrationIffNotClosed | nano_mcp/facilitator.py:440 | the read-only check fires exactly when some stored key lacks its canonical spelling |
| Claims.MigratedKeys | nano_mcp/facilitator.py:441-447 | the migrated table holds exactly the old keys and their canonical forms |
| Claims.MigratedTimes | nano_mcp/facilitator.py:505-512 | old claim times are kept and each new canonical row has the earliest time of its spellings |
| Claims.MigratedIsClosed | nano_mcp/facilitator.py:524-543 | the result is closed and a second migration finds and changes nothing |
| Claims.ScanIsExact | nano_mcp/facilitator.py:545-546 | on a pending handle the scan answers whether any row spells the key |
| Claims.IsClaimedSameWhenPending | nano_mcp/facilitator.py:602-610 | a pending handle and a migrated one give the same answer for every well-formed key |
| Claims.PendingAnswersAgreeIff | nano_mcp/facilitator.py:450-456 | over all tables the two answers agree for exactly the keys that are not mistakable |
| Claims.ClaimWinsIffUnspelt | nano_mcp/facilitator.py:558-587 | a claim wins only if no row of any release spells the key, and for a well-formed key that is all it depends on |
| Claims.LosingChangesNothing | nano_mcp/facilitator.py:588-597 | a refused or raising claim leaves the table as it was |
| Claims.AnswersAreHonest | nano_mcp/facilitator.py:588-597 | under every fault: "spent" means a row spells the key, an exception that a statement was refused, and an unspelt key is won or, if a fault is reached, raises |
| Claims.SpentIsHonestIff | nano_mcp/facilitator.py:450-456 | "spent" is told of a payment nobody claimed for exactly the keys a pending scan can mistake |
| Claims.WinningClaimRecordsBoth | nano_mcp/facilitator.py:576-587 | a win adds the canonical key and, for a settle, the key as sent, keeps every older row and keeps a closed table closed |
| Claims.ClaimStore.constructor | nano_mcp/facilitator.py:481-495 | opening never fails on a migration that cannot run and remembers that it is pending |
| Claims.ClaimStore.MigrateLocked | nano_mcp/facilitator.py:524-543 | the table and the pending flag after a check or a migration that ran, was not needed or failed |
| Claims.ClaimStore.ClaimSpellings | nano_mcp/facilitator.py:548-597 | the retry, then the one transaction, with every failure rolled back |
| Claims.ClaimStore.Claim | nano_mcp/facilitator.py:599-600 | a plain claim records the canonical key only |
| Claims.ClaimStore.IsClaimedNow | nano_mcp/facilitator.py:602-610 | a lookup that writes nothing answers whether any row spells a well-formed key |
| ClaimProtocol.UninterruptedClaim | nano_mcp/facilitator.py:557-597 | the protocol's steps without interference are the store's own method |
| ClaimProtocol.InvHolds | nano_mcp/facilitator.py:514-519 | every step of every handle and release keeps: a handle that no longer migrates sees a closed table |
| ClaimProtocol.RowsStay | nano_mcp/facilitator.py:508-512 | no step removes a row or changes its time |
| ClaimProtocol.OthersStay | nano_mcp/facilitator.py:481-495 | a step moves its own handle only |
| ClaimProtocol.WinIsFresh | nano_mcp/facilitator.py:514-519 | in every reachable state a win means no stored row of either release spells the key |
| ClaimProtocol.RefusalIsJustified | nano_mcp/facilitator.py:548-556 | an undisturbed claim of a well-formed key wins exactly when no row spells it |
| ClaimProtocol.AnswersAreHonestThroughout | nano_mcp/facilitator.py:588-597 | the same at every step of every run, for well-formed keys |
| ClaimProtocol.WinIsStored | nano_mcp/facilitator.py:553-556 | after a win the canonical key and, for a settle, the key as sent are stored for good |
| ClaimProtocol.WonAtMostOnce | nano_mcp/facilitator.py:477-479 | over any run this release wins each payment key at most once in all spellings, and never after the previous release has won one |
| ClaimProtocol.SettledSpellings | README.md:220-224 | after a settle the rows that spell its payment are the key as sent, the canonical key and the spellings the previous release has won since |
| ClaimProtocol.RollbackWinsIff | README.md:239-242 | the previous release wins a spelling of a settled payment exactly if it is not the key as sent, not the canonical key and not one it has won already |
| ClaimProtocol.OtherCaseWinsAfterRollback | README.md:239-242 | a run of six steps in which a payment settled in one hex case is won by the previous release in another |
| ClaimProtocol.RollbackRefusesSettled | README.md:220-224 | after a rollback the previous release refuses a settled key as sent and in upper case |
| ClaimProtocol.OnlyWinsAndMigrationsWrite | nano_mcp/facilitator.py:548-597 | a step that is no win adds nothing but missing canonical rows |
| ClaimProtocol.HandlesAnswerAlike | README.md:210-219 | every open handle, pending or not, answers a well-formed key alike |
| ClaimProtocol.MixedReleasesCanClaimTwice | README.md:234-238 | a run of the two releases mixed that wins one payment twice |
| ClaimProtocol.InvKeptIff | README.md:234-238 | whatever the previous release writes beside open handles, the invariant survives the step exactly if it does not expose a migrated handle |
| ClaimProtocol.MixedRunSafeIff | README.md:234-238 | over any mixed run no open handle would ever win a stored payment exactly if no write exposes one |
| ClaimProtocol.KeysOfHash | nano_mcp/facilitator.py:649-652 | the claim key of a 64-hex hash is its upper-case spelling with the request id kept |
| Amounts.ParsePlain | nano_mcp/facilitator.py:74-83 | a plain amount reads as raw digits or as nano with nothing lost off the padded fraction; only the integer part can be too long |
| Amounts.PyIntReads | nano_mcp/facilitator.py:74-83 | int() reads grouped digits between white space and after a sign, to the digit limit |
| Amounts.PyIntReadsOnly | nano_mcp/facilitator.py:74-83 | and nothing else |
| Amounts.UngroupedJoins | nano_mcp/facilitator.py:74-83 | underscores carry no value |
| Amounts.GroupedIff | nano_mcp/facilitator.py:74-83 | runs of digits with one underscore between any two |
| Amounts.PrintedIntReads | nano_mcp/facilitator.py:101-118 | what str() prints of an integer reads back as it, negative ones included |
| Amounts.SparseReads | nano_mcp/facilitator.py:74-83 | a blank amount reads as zero and a fraction alone as itself |
| Amounts.AmountTextRoundTrip | nano_mcp/facilitator.py:101-118 | an integer has a spelling exactly when it is non-negative and within the digit limit, and it reads back as itself |
| Amounts.DottedReadersAgree | nano_sdk/units.py:23-50 | on dotted plain amounts the facilitator and the SDK read the same raw |
| Amounts.UndottedReadersDiffer | nano_sdk/units.py:23-50 | on undotted ones the SDK reads 10^30 times what the facilitator reads |
| Amounts.NanoOfPlain | nano_sdk/units.py:46-50 | rescaling a plain decimal is exact |
| Amounts.NanoToRawIff | nano_sdk/units.py:23-50 | a decimal converts exactly when it is finite, not negative and whole in raw, and to that number |
| Amounts.NanoStrRoundTrip | nano_sdk/units.py:60-69 | printing raw in nano and reading it back is the identity |
| Amounts.NanoStrTrimmed | nano_sdk/units.py:60-69 | no trailing zero or dot is left in what is printed |
| Endpoints.VerifyBlock | nano_mcp/facilitator.py:295-395 | the loop computes the verdict, and on every consulted run failures and confirmed sends add up to the endpoints |
| Endpoints.ConsultedIs | nano_mcp/facilitator.py:306-343 | how many endpoints the verdict says it asked |
| Endpoints.OkIff | nano_mcp/facilitator.py:301-304 | ok exactly when two or more endpoints all report a confirmed send of exactly the positive plain amount to the payee, and that is fewer than 10^limit raw |
| Endpoints.LongAmountNeverVerifies | nano_mcp/facilitator.py:343-385 | an amount that reads, that every endpoint reports as paid, and that still does not verify |
| Endpoints.ConfirmsIffReported | nano_mcp/facilitator.py:343-385 | an endpoint confirms exactly when its answer says, field by field, that the amount was sent to the payee, and the record names the proof, the payer, the payee and the amount |
| Endpoints.NormalizedSays | nano_mcp/facilitator.py:174-251 | an answer normalises exactly when it has a flag, an amount that reads and names that print, and to what its fields say: payee, payer and subtype by the first field that is there |
| Endpoints.ReadsTrueIff | nano_mcp/facilitator.py:184-191 | a flag reads as confirmed exactly when it is true or the word "true" in any case between white space |
| Endpoints.ContentsEitherWay | nano_mcp/facilitator.py:154-171 | the contents read alike as an object and as its JSON text |
| Endpoints.ContentsElse | nano_mcp/facilitator.py:154-171 | contents that are no object and no text of one read as empty |
| Endpoints.ToldReports | nano_mcp/facilitator.py:205-235 | an answer of a real node's shape reports the payment exactly if its flag is a yes and its payee the one asked for |
| Endpoints.FewerEndpointsStillOk | nano_mcp/facilitator.py:390-395 | keeping any two or more endpoints in any order never turns ok into a refusal |
| Facilitator.PassedCheck | nano_mcp/facilitator.py:851-907 | a passed check leaves every section present and the amount readable, so no key is missing later |
| Facilitator.ShapePassesIff | nano_mcp/facilitator.py:809-849 | exactly which pairs of values pass the comparisons |
| Facilitator.ShapeRefusalIs | nano_mcp/facilitator.py:809-849 | what each refusal code of the comparisons means |
| Facilitator.SectionRefusalIs | nano_mcp/facilitator.py:860-907 | what a missing section and a bad amount mean |
| Facilitator.VerifyRefusalIs | nano_mcp/facilitator.py:696-712 | "proof missing" and "unconfirmed" mean what they say |
| Facilitator.ValidMeansPaid | nano_mcp/facilitator.py:691-723 | a valid verdict means agreed terms, a 64-hex proof, and the required payment reported by every endpoint; its payer is the one the first endpoint names |
| Facilitator.SettleAgreesWithVerify | nano_mcp/facilitator.py:725-783 | on equal node answers settle repeats verify's verdict, and otherwise only the claim decides |
| Facilitator.DuplicateMeansStored | nano_mcp/facilitator.py:763-783 | settle says "duplicate" only of a stored payment, and under every fault an unstored one is settled or raises |
| Facilitator.IntegerAmountIff | nano_mcp/facilitator.py:882-907 | a requirement with an integer amount verifies exactly when it is positive, its payee has text, the proof is 64-hex and every endpoint reports it |
| Facilitator.VerifyRaisesIff | nano_mcp/facilitator.py:860-864 | the exact values for which verify raises instead of answering |
| Facilitator.SettleRaisesIff | nano_mcp/facilitator.py:731-765 | the exact values for which settle raises before its claim |
| Facilitator.ParsedJsonGetsVerdict | nano_mcp/facilitator.py:809-907 | every pair of parsed values without lone surrogates gets a verdict from verify, and one from settle or reaches its claim |
| Facilitator.HugeAmountRaises | nano_mcp/facilitator.py:860-864 | an integer amount past the digit limit makes verify raise on a request otherwise in order |
| Facilitator.Settle | nano_mcp/facilitator.py:725-807 | verdict, table and flag of settle on the built-in store; a success leaves both spellings stored and no row is ever lost |
| ResourceServer.RequestIdOf | nano_mcp/httpx402.py:199-222 | a readable request id is non-empty and comes from an object, so nothing later reads a non-object |
| ResourceServer.ForeignIsRefused | nano_mcp/httpx402.py:191-236 | anything but an acceptance of what the server issued is refused as invalid before any node is asked |
| ResourceServer.IssuedFields | nano_mcp/httpx402.py:99-118 | the sections the server issues |
| ResourceServer.Complete | nano_mcp/httpx402.py:191-254 | the server serves exactly when both verifications passed and its own claim won |
| ResourceServer.ClaimedCompletion | nano_mcp/httpx402.py:223-245 | a completion that claims has verified its block twice as paying the price to the one-time address of the request id it claims |
| ResourceServer.IssuedReachesClaimIff | nano_mcp/httpx402.py:191-254 | an issued request reaches its claim exactly when both rounds of node answers say paid, and otherwise is refused for the half that failed |
| ResourceServer.VerifiedPayee | nano_mcp/facilitator.py:359-372 | one honest node pins the payee of a verified block |
| ResourceServer.SameBlockSameKey | nano_mcp/httpx402.py:28-34 | two completions that present one block in any hex case claim one key, if their two payees differ when their request ids do |
| ResourceServer.UndisturbedVerdict | nano_mcp/httpx402.py:240-254 | the verdict at the claim step of an undisturbed call is the one the server returns |
| ResourceServer.BlockServesOnce | nano_mcp/httpx402.py:191-254 | over any run of the claim protocol two calls of complete that serve one confirmed block are one call |
| ResourceServer.PaidIsServedIff | nano_mcp/httpx402.py:191-254 | at any point of any run and under any fault a paid request is served exactly when no stored row spells its payment and no statement is refused; "duplicate" means stored |
| ResourceServer.PaidCallServes | nano_mcp/httpx402.py:191-254 | a run in which a paid call with honest nodes is served |
| ResourceServer.ToldCallServes | nano_mcp/httpx402.py:191-254 | the same on two node answers written out |
| ResourceServer.BareSettleRepeats | nano_mcp/facilitator.py:763-767 | a second settle of one paid block succeeds exactly when it names another request id of the same payee, and is a duplicate under the same id |
| Approvals.ApprovalStore.Claim | nano_mcp/store.py:105-126 | true for the first claim of a request id only; nothing stored changes |
| Approvals.ApprovalStore.RecordQuotePrice | nano_mcp/store.py:153-172 | the floor only rises and covers the new price |
| PaymentService.FindPayment | nano_mcp/service.py:142-168 | a hash found belongs to an entry that pays, and the loop raises exactly when an unreadable amount comes before every payment |
| PaymentService.PaymentIsFound | nano_mcp/service.py:142-168 | a payment of the amount or more is found in any readable history |
| PaymentService.InvHolds | nano_mcp/service.py:170-250 | every interleaved step keeps: one approval per request id, amounts that cover the floor read, payments seen, expiries not passed, answers that match the store |
| PaymentService.ApprovalsArePermanent | nano_mcp/store.py:1-11 | a stored approval never changes |
| PaymentService.ApprovedAtMostOnce | nano_mcp/service.py:179-184 | over a whole run at most one call is told "approved" for a request id |
| PaymentService.PaymentApprovesOnce | nano_mcp/service.py:11-12 | one payment pays for one call: two calls approved for one block on the chain, even under different request ids, are one call |
| PaymentService.AnswersAgree | nano_mcp/service.py:236-244 | every "spent" and "approved" names the hash of the one stored approval |
| PaymentService.LaterCallsAreSpent | nano_mcp/service.py:191-199 | a call that starts after an approval is told "spent" with its hash |
| PaymentService.ApprovalIsEarned | nano_mcp/service.py:201-235 | by steps of the run: the amount covers every price recorded before the floor was read, an entry of the history consulted pays it under the approved hash, and the clock had not passed the last expiry set |
| PaymentService.RefusalIsEarned | nano_mcp/service.py:201-235 | "expired", "pending" and an exception rest on the clock and the history the call read |
| PaymentService.ExpiryIsKept | nano_mcp/store.py:141-150 | the stored expiry of each request id is the last one set for it |
| PaymentService.QuotesAreStored | nano_mcp/store.py:141-172 | a price recorded is covered ever after and an expiry stored until the next for the same id |
| PaymentService.FloorIsKept | nano_mcp/store.py:153-180 | the stored floor is the maximum of 0 and all prices recorded for the request id |
| PaymentService.FloorNeverFalls | nano_mcp/store.py:156-159 | it never falls and is never dropped |
| PaymentService.AloneAnswers | nano_mcp/service.py:170-250 | a call's steps without interference give the answer of the method |
| PaymentService.VerifyPayment | nano_mcp/service.py:170-250 | the answer and the store after one uninterrupted call, a negative amount refused |
| Spending.SumWithout | nano_sdk/wallet.py:96-98 | the sum of the counters does not depend on their order |
| Spending.Wallet.RecordSend | nano_sdk/wallet.py:100-104 | recording with its two clock readings |
| Spending.Wallet.AvailableToday | nano_sdk/wallet.py:106-108 | what the cap leaves, never negative |
| Spending.Wallet.SendRaw | nano_sdk/wallet.py:111-213 | destination, node answer, representative, amount, balance and cap are checked in that order before anything is built, and only a block the node took is recorded |
| Spending.WalletDailyCap | nano_sdk/wallet.py:1-10 | for each day accepted sends whose guard passed on it total at most the cap, over any run, and so do those first read on it |
| Spending.WalletAcceptsIff | nano_sdk/wallet.py:111-137 | at any point of any run a send that has all else it needs passes exactly when it fits the cap beside what was first read on its day |
| Spending.WalletRefusalIs | nano_sdk/wallet.py:111-204 | each refusal is true of the send or of what was sent before |
| Spending.RepresentativeIsValid | nano_sdk/wallet.py:69-82 | a block names a valid representative: the wallet's own, the node's, or the default |
| Spending.RepresentativeIff | nano_sdk/wallet.py:69-82 | there is a representative unless the wallet's own or the node's is no valid address |
| Spending.LookTells | nano_sdk/wallet.py:106-108 | asking tells what the cap leaves beside what was first read today |
| Spending.RecordDayCanExceedCap | nano_sdk/wallet.py:100-104 | a run in which the sends recorded under one day total twice the cap |
| Spending.RecordDayHoldsIff | nano_sdk/wallet.py:100-104 | the cap holds by record day at every point of a run exactly when every accepted send of the run read one day twice |
| Spending.StraddleBreaksCap | nano_sdk/wallet.py:100-104 | after any accepted send that read two days the whole cap can be sent again under the second |
| SessionSpending.SessionWallet.SendRaw | nano_sdk/buyer.py:275-332 | destination, mandate, session cap, daily cap and balance are checked in that order, and what an accepted send records |
| SessionSpending.Open | nano_sdk/buyer.py:216-239 | a session opens exactly when its mandate is bound to its account and verifies |
| SessionSpending.SessionCaps | nano_sdk/buyer.py:202-214 | all accepted sends total at most the mandate's cap, those of a day at most the daily cap, by guard day and by record day |
| SessionSpending.SessionAcceptsIff | nano_sdk/buyer.py:242-263 | a send passes exactly when its destination is valid, the mandate bound and verified, the amount positive and covered, and neither cap is passed |
| SessionSpending.SessionSendIsMandated | nano_sdk/buyer.py:202-214 | every accepted send rests on a mandate the owner issued to this address, not expired, under whose cap all sends fit |
| SessionSpending.IssuedSessionKeepsTerms | nano_sdk/buyer.py:139-214 | from the terms asked for to the money: a session on the issued mandate is the address's own and its accepted sends total at most the cap asked for, over any run |
| SessionSpending.IssuedSessionAccepts | nano_sdk/buyer.py:242-332 | and on it every send that is valid, covered and within both caps goes through until it expires |
| SessionSpending.SessionRefusalIs | nano_sdk/buyer.py:242-263 | each refusal is true of the send or of what was recorded so far |
| Addresses.B32Decode | nano_sdk/crypto.py:36-40 | the shift loop computes the value of the digits |
| Addresses.AlphabetIs | nano_sdk/crypto.py:22 | the alphabet: digits and lower-case letters without 0, 2, l and v |
| Addresses.B32RoundTrip | nano_sdk/crypto.py:31-33 | decoding what the encoder wrote gives the value back |
| Addresses.B32Canonical | nano_sdk/crypto.py:31-40 | re-encoding what was decoded gives the text back |
| Addresses.FirstCharacterRule | nano_sdk/crypto.py:28 | a key field is below 2^256 exactly when it begins with 1 or 3 |
| Addresses.FieldsFit | nano_sdk/crypto.py:108-113 | any string the pattern admits fits both fields, so the width check cannot fire |
| Addresses.KeyRoundTrip | nano_sdk/crypto.py:76-115 | every 32-byte key encodes to an admitted address and decodes back to itself |
| Addresses.AddressRoundTrip | nano_sdk/crypto.py:92-115 | every valid nano_ address is the encoding of its key |
| Addresses.LegacyPrefix | nano_sdk/crypto.py:104-107 | xrb_ and nano_ spellings of a body decode alike |
| Addresses.AddressesDistinct | nano_sdk/crypto.py:76-89 | distinct keys have distinct addresses |
| Mandates.UniquelyReadable | nano_sdk/buyer.py:112-124 | eight NUL-joined parts read back one way though the third may hold NULs |
| Mandates.CanonicalDetermines | nano_sdk/buyer.py:94-101 | the signed bytes determine every field of a mandate with a valid address |
| Mandates.CanonicalLayout | nano_sdk/buyer.py:112-124 | the signed bytes: a tag and the seven fields in order, NUL between |
| Mandates.MandateRefusalIs | nano_sdk/buyer.py:171-199 | what each refusal of a mandate means |
| Mandates.UncheckedAddressIsAmbiguous | nano_sdk/buyer.py:188-189 | without the address check two different mandates share their signed bytes |
| Mandates.IssuedAsAsked | nano_sdk/buyer.py:150-168 | a mandate is issued exactly for a valid address, positive cap, 32-byte key and an expiry not at or before the issue, and its fields are the ones asked for |
| Mandates.OnlyTheIssuedVerifies | nano_sdk/buyer.py:94-101 | under the signature of an issued mandate that mandate verifies until it expires, and no edited one ever does |
| Mandates.LaterOrders | nano_sdk/buyer.py:157-195 | float times compare in order, the infinities beyond the finite ones and NaN not at all |
| Mandates.NeverExpiresIff | nano_sdk/buyer.py:195-199 | an issued mandate verifies at every time exactly when its expiry is NaN or infinite |
| Mandates.NaNExpiryIsIssued | nano_sdk/buyer.py:156-158 | a NaN expiry passes the check at issue and then never passes |
| Mandates.VerifiedWasIssued | nano_sdk/buyer.py:171-199 | a mandate that verifies is an issued one, unedited in every field, and no clock read later than its expiry |
| Hkdf.HkdfSha256 | nano_mcp/oneshot.py:29-49 | the output is the first L octets of T(1), T(2), ... for every L up to 8160, and past that the counter byte overflows and it raises |
| Hkdf.SessionHkdfSha256 | nano_sdk/buyer.py:65-74 | the same output, and past 8160 octets a shortened one |
| Hkdf.ShorterIsPrefix | nano_mcp/oneshot.py:39-49 | a shorter output is a prefix of a longer one |
| OneShot.OneTimeKeyIs | nano_mcp/oneshot.py:29-60 | the key of a request id is one HMAC block of it under the extracted master secret |
| OneShot.OneTimeAddressesDiffer | nano_mcp/oneshot.py:52-60 | the derived payees are valid addresses and differ for different request ids exactly when the derived keys do |
| OneShot.DerivedBlockServesOnce | nano_mcp/oneshot.py:52-60 | with derived payees one confirmed block serves one call, if the two request ids derive different keys |
| StateBlocks.BlockBytesInjective | nano_sdk/block.py:33-54 | the 176 signed bytes determine every field of a block |
| StateBlocks.BlockBytesLayout | nano_sdk/block.py:33-54 | exactly when there are bytes, and every field at its offset |
| Pricing.MedianIgnoresOrder | nano_mcp/pricing.py:64-75 | the order of the sources does not matter |
| Pricing.MedianRobust | nano_mcp/pricing.py:64-75 | while fewer than half of the rates are outside a range and none is NaN, the median lies between what it makes of the two ends: themselves for an odd list, their rounded means for an even one |
| Pricing.RangeKeptIff | nano_mcp/pricing.py:64-75 | no list with fewer than half of its rates outside a range gets a median outside it, exactly when rounding moves neither end outward |
| Pricing.MedianInside | nano_mcp/pricing.py:64-75 | an odd list, or an even one with a safe middle pair, keeps its median in the range itself |
| Rounding.MeanMonotone | nano_mcp/pricing.py:75 | the twice rounded mean keeps the order of its arguments |
| Pricing.MedianRobustIff | nano_mcp/pricing.py:74-75 | an even list's median lies in every interval that holds more than half of its rates exactly when its middle pair is safe |
| Rounding.MeanInsideIff | nano_mcp/pricing.py:75 | the twice rounded mean of two rates of at most p digits stays between them exactly when their rounded sum stays between twice the one and twice the other |
| Rounding.SameRateKeptIff | nano_mcp/pricing.py:75 | two sources that agree on a rate have it as their mean exactly when the rate and its double fit the precision |
| Pricing.OrdinaryPairSafe | nano_mcp/pricing.py:75 | two non-negative rates that add up to less than 10^p units are a safe pair |
| Pricing.TwoNinesLeave | nano_mcp/pricing.py:75 | two sources that agree on p nines get a median above both |
| Rounding.RoundMonotone | nano_mcp/pricing.py:75 | rounding half-even to p digits keeps the order |
| Rounding.RoundNear | nano_mcp/pricing.py:75 | a result is a multiple of its last place, nearest to the exact value |
| Rounding.TiesToEven | nano_mcp/pricing.py:75 | and halfway the even one |
| Pricing.FetchMedian | nano_mcp/pricing.py:78-90 | the loop skips failing sources, refuses fewer than two answers and otherwise answers their median |
| Pricing.HealthyCounts | nano_mcp/pricing.py:82-87 | each answer is kept as often as it was given and only failures are dropped |
| Pricing.FetchedIff | nano_mcp/pricing.py:78-90 | there is a rate exactly when two or more sources answered, none with NaN, and an even number does not meet between the infinities |
| Pricing.NaNSourceDenies | nano_mcp/pricing.py:78-90 | a NaN answer refuses a quote that the source's failure would have left standing |
| Pricing.UsdToRawIsCeiling | nano_mcp/pricing.py:93-126 | the quote is the least whole raw amount worth the price at the rate |
| Pricing.UsdToRawMonotone | nano_mcp/pricing.py:115-126 | a higher price never quotes less and a higher rate never more |
| Pricing.UsdRefusesIff | nano_mcp/pricing.py:115-124 | what the conversion refuses: NaN, infinities, and what is not positive |
| Pricing.QuoteRobust | nano_mcp/pricing.py:129-141 | from the sources to the raw amount: while fewer than half of the answers are outside the honest range and none is NaN, the quote lies between the quotes at what the median makes of its ends |
| Pricing.QuoteInside | nano_mcp/pricing.py:129-141 | with an odd number of answers or a safe middle pair it lies between the quotes at the ends themselves |
| Pricing.QuoteAtIsLeast | nano_mcp/pricing.py:115-126 | the quote at a rate given in units is the least raw amount worth the price, by whole-number comparison |
| Pricing.QuoteUsd | nano_mcp/service.py:114-140 | a dollar quote records its expiry and a floor that covers its price, leaves every other request alone, and a refused conversion records nothing |

## Left out

- Embedded NUL characters and non-text rows in stored claim keys: SQLite's text functions treat them specially.
- SQLite itself: write-ahead logging, timeouts and disk; a transaction is atomic and a refused statement is a flag.
- The network, HTTP handlers, JSON and base64 text, the MCP server, `paidtool.py`, the scorecard, evidence and journal tools.
- blake2b, HMAC-SHA256, Ed25519 and Python's UTF-8: unknown functions with the sizes and injectivity the contracts state.
- Messages of refusals and exceptions: verdicts keep their reason codes only.
- Non-ASCII decimal digits in amounts a node reports, lone surrogates, negative zero as a time, and JSON NaN and
  infinities.
- Custom claim stores, whose owner migrates their keys, and two processes sharing one approvals file.
- Claims.ClaimStore.ClaimSpellings: its lock is the one-handle-at-a-time rule of the protocol's steps, not an object.
- PaymentService.VerifyPayment: its answer to a lost insert is a step of the thread model, since an uninterrupted call cannot lose.
- Pricing.MedianInside: for two middle rates of more digits than the context precision it gives no condition of its
  own; `Pricing.MedianRobust` bounds their median all the same. Exponents past Decimal's own range are not modelled.
- Facilitator.ParsedJsonGetsVerdict: a lone surrogate in a request id, which json.loads can return, makes the claim
  raise when the key is bound; the model's strings hold none.
- Spending.Wallet.SendRaw: proof of work and block building are one flag, the node's acceptance another, and an
  unreadable balance or frontier an unusable answer.
- SessionSpending.SessionWallet.SendRaw: all that follows the guards, up to the node's acceptance, is one flag.
- Spending.RecordDayHoldsIff: one wallet used by one thread; interleaved sends of one wallet are not modelled.
- Receiving, which changes no counter, and an owner-wide cap across wallets, which the program does not keep.
- Liveness of `verify_payment`, which looks at twenty history entries only.
