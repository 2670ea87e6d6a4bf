/** Many handles on one claims table, of this release and of the previous one, as interleaved
    atomic steps. A handle's lock makes its own steps sequential; nothing orders the steps of
    different handles. The previous release knows exact keys only and, as the upgrade notes
    demand, writes only while no handle of this release is open. */
module ClaimProtocol {
  import opened Text
  import opened ClaimKeys
  import opened Claims

  /** One claim: the call that makes it, the key as the caller spelt it, and whether that
      spelling is recorded too (a settle on the built-in store) or not (a plain `claim`). */
  datatype Request = Request(call: nat, sent: string, recordSent: bool)

  /** Where a handle stands: idle, about to run the read-only check, about to run the migration
      transaction, or about to run the claim transaction. A check without a request is the one
      made at open. */
  datatype Pc =
    | Idle
    | Checking(job: Option<Request>)
    | Migrating(job: Option<Request>)
    | Claiming(req: Request)

  datatype Handle = Handle(pending: bool, pc: Pc)

  /** `called` holds the calls made so far: no two calls share a number. */
  datatype World = World(claims: Table, handles: map<nat, Handle>, called: set<nat>)

  datatype Event =
    | Open(h: nat)
    | Close(h: nat)
    | Call(h: nat, req: Request)
    | Check(h: nat, fails: bool)
    | Migrate(h: nat, fails: bool)
    | Claim(h: nat, fault: Fault, now: real)
    | PreviousReleaseClaim(key: string, now: real)

  function AfterMigration(job: Option<Request>): Pc {
    if job.None? then Idle else Claiming(job.value)
  }

  /** What the programs themselves can do next. */
  predicate Possible(w: World, e: Event) {
    match e
    case Open(h) => h !in w.handles
    case Close(h) => h in w.handles
    case Call(h, req) => h in w.handles && w.handles[h].pc.Idle? && req.call !in w.called
    case Check(h, _) => h in w.handles && w.handles[h].pc.Checking?
    case Migrate(h, _) => h in w.handles && w.handles[h].pc.Migrating?
    case Claim(h, _, _) => h in w.handles && w.handles[h].pc.Claiming?
    case PreviousReleaseClaim(_, _) => true
  }

  /** What may happen next when the upgrade notes are heeded. */
  predicate Enabled(w: World, e: Event) {
    Possible(w, e) && (e.PreviousReleaseClaim? ==> w.handles == map[])
  }

  /** The claim transaction a `Claim` event runs. */
  function Transaction(w: World, e: Event): (Outcome, Table)
    requires e.Claim? && Possible(w, e)
  {
    var req := w.handles[e.h].pc.req;
    TransactFor(w.claims, w.handles[e.h].pending, req.sent, req.recordSent, e.fault, e.now)
  }

  function Next(w: World, e: Event): World
    requires Possible(w, e)
  {
    match e
    case Open(h) => w.(handles := w.handles[h := Handle(true, Checking(None))])
    case Close(h) => w.(handles := w.handles - {h})
    case Call(h, req) =>
      var pc := if w.handles[h].pending then Checking(Some(req)) else Claiming(req);
      w.(handles := w.handles[h := w.handles[h].(pc := pc)], called := w.called + {req.call})
    case Check(h, fails) =>
      var job := w.handles[h].pc.job;
      var handle := if fails then Handle(true, AfterMigration(job))
                    else if NeedsMigration(w.claims) then Handle(true, Migrating(job))
                    else Handle(false, AfterMigration(job));
      w.(handles := w.handles[h := handle])
    case Migrate(h, fails) =>
      var job := w.handles[h].pc.job;
      if fails then w.(handles := w.handles[h := Handle(true, AfterMigration(job))])
      else w.(claims := Migrated(w.claims), handles := w.handles[h := Handle(false, AfterMigration(job))])
    case Claim(h, _, _) =>
      w.(claims := Transaction(w, e).1, handles := w.handles[h := w.handles[h].(pc := Idle)])
    case PreviousReleaseClaim(key, now) =>
      w.(claims := if key in w.claims then w.claims else w.claims[key := now])
  }

  /** A call up to its claim transaction with nobody in between. */
  function Undisturbed(w: World, h: nat, req: Request, readFails: bool, writeFails: bool): (w': World)
    requires Possible(w, Call(h, req))
    ensures h in w'.handles && w'.handles[h].pc == Claiming(req)
  {
    var w1 := Next(w, Call(h, req));
    var w2 := if w1.handles[h].pc.Checking? then Next(w1, Check(h, readFails)) else w1;
    if w2.handles[h].pc.Migrating? then Next(w2, Migrate(h, writeFails)) else w2
  }

  /** The claim a handle makes with nobody in between: the migration retry and the transaction
      of the store's own method, step by step. */
  lemma UninterruptedClaim(w: World, h: nat, req: Request, readFails: bool, writeFails: bool, fault: Fault, now: real)
    requires Possible(w, Call(h, req))
    ensures var w' := Undisturbed(w, h, req, readFails, writeFails);
      var (t, pending) := AfterRetry(w.claims, w.handles[h].pending, readFails, writeFails);
      && w'.claims == t && w'.handles[h] == Handle(pending, Claiming(req))
      && Transaction(w', Claim(h, fault, now)) == TransactFor(t, pending, req.sent, req.recordSent, fault, now)
      && Next(w', Claim(h, fault, now)).claims == Transaction(w', Claim(h, fault, now)).1
      && Next(w', Claim(h, fault, now)).handles[h] == Handle(pending, Idle)
  {
    hide NeedsMigration, Migrated, TransactFor;
  }

  /** A handle that no longer migrates may rely on the table being closed. */
  ghost predicate Inv(w: World) {
    forall h | h in w.handles && !w.handles[h].pending :: Closed(w.claims)
  }

  lemma InvHolds(w: World, e: Event)
    requires Inv(w) && Enabled(w, e)
    ensures Inv(Next(w, e))
  {
    NeedsMigrationIffNotClosed(w.claims);
    match e
    case Migrate(_, _) =>
      MigratedIsClosed(w.claims);
    case Claim(h, fault, now) =>
      var req := w.handles[h].pc.req;
      WinningClaimRecordsBoth(w.claims, w.handles[h].pending, req.sent, req.recordSent, fault, now);
      var other := Other(CanonicalKey(req.sent), if req.recordSent then Some(req.sent) else None);
      LosingChangesNothing(w.claims, w.handles[h].pending, CanonicalKey(req.sent), other, fault, now);
    case _ =>
  }

  /** No step removes a row or changes its time. */
  lemma RowsStay(w: World, e: Event, key: string)
    requires Enabled(w, e) && key in w.claims
    ensures key in Next(w, e).claims && Next(w, e).claims[key] == w.claims[key]
  {
    match e
    case Migrate(_, _) =>
      MigratedKeys(w.claims);
      MigratedTimes(w.claims, key);
    case Claim(h, fault, now) =>
      var req := w.handles[h].pc.req;
      WinningClaimRecordsBoth(w.claims, w.handles[h].pending, req.sent, req.recordSent, fault, now);
      var other := Other(CanonicalKey(req.sent), if req.recordSent then Some(req.sent) else None);
      LosingChangesNothing(w.claims, w.handles[h].pending, CanonicalKey(req.sent), other, fault, now);
    case _ =>
  }

  /** A step moves its own handle only, and no call number is given out again. */
  lemma OthersStay(w: World, e: Event, h: nat)
    requires Possible(w, e) && (e.PreviousReleaseClaim? || h != e.h)
    ensures h in Next(w, e).handles <==> h in w.handles
    ensures h in w.handles ==> Next(w, e).handles[h] == w.handles[h]
    ensures w.called <= Next(w, e).called && (e.Call? ==> e.req.call in Next(w, e).called)
  {
    hide NeedsMigration, Migrated, TransactFor;
  }

  // ---- whole runs ----

  /** A run starts from any table a previous release left behind, with nothing open. */
  ghost predicate Run(ws: seq<World>, es: seq<Event>) {
    && |ws| == |es| + 1
    && ws[0].handles == map[]
    && forall i | 0 <= i < |es| :: Enabled(ws[i], es[i]) && ws[i + 1] == Next(ws[i], es[i])
  }

  lemma {:induction false} InvThroughout(ws: seq<World>, es: seq<Event>, i: nat)
    requires Run(ws, es) && i < |ws|
    ensures Inv(ws[i])
  {
    if i > 0 {
      InvThroughout(ws, es, i - 1);
      InvHolds(ws[i - 1], es[i - 1]);
    }
  }

  lemma {:induction false} RowsStayThroughout(ws: seq<World>, es: seq<Event>, i: nat, j: nat, key: string)
    requires Run(ws, es) && i <= j < |ws| && key in ws[i].claims
    ensures key in ws[j].claims && ws[j].claims[key] == ws[i].claims[key]
    decreases j
  {
    if i < j {
      RowsStayThroughout(ws, es, i, j - 1, key);
      RowsStay(ws[j - 1], es[j - 1], key);
    }
  }

  /** This step is a claim of this release that told its caller it won. */
  predicate WonHere(w: World, e: Event) {
    e.Claim? && Possible(w, e) && Transaction(w, e).0 == Won
  }

  /** This step is a claim of the previous release that told its caller it won. */
  predicate WonByPreviousRelease(w: World, e: Event) {
    e.PreviousReleaseClaim? && e.key !in w.claims
  }

  /** This step won a spelling of the payment key `canonical`, for either release. */
  predicate WinsPayment(w: World, e: Event, canonical: string) {
    (WonHere(w, e) || WonByPreviousRelease(w, e)) && CanonicalKey(KeyWon(w, e)) == canonical
  }

  /** The key, as sent, of a step that won. */
  function KeyWon(w: World, e: Event): string
    requires WonHere(w, e) || WonByPreviousRelease(w, e)
  {
    if e.Claim? then w.handles[e.h].pc.req.sent else e.key
  }

  /** In every reachable state a claim of this release wins only a payment key that no stored
      row spells, whichever release stored it and in whichever hex case. */
  lemma WinIsFresh(ws: seq<World>, es: seq<Event>, i: nat)
    requires Run(ws, es) && i < |es| && WonHere(ws[i], es[i])
    ensures !SpellingStored(ws[i].claims, CanonicalKey(KeyWon(ws[i], es[i])))
  {
    InvThroughout(ws, es, i);
    var handle := ws[i].handles[es[i].h];
    ClaimWinsIffUnspelt(ws[i].claims, handle.pending, handle.pc.req.sent, handle.pc.req.recordSent,
                        es[i].fault, es[i].now);
  }

  lemma WinIsUnspelt(ws: seq<World>, es: seq<Event>, i: nat)
    requires Run(ws, es) && i < |es| && es[i].Claim?
    ensures Transaction(ws[i], es[i]).0 == Won ==>
              !SpellingStored(ws[i].claims, CanonicalKey(ws[i].handles[es[i].h].pc.req.sent))
  {
    hide CanonicalKey;
    if Transaction(ws[i], es[i]).0 == Won {
      WinIsFresh(ws, es, i);
    }
  }

  /** Conversely, an undisturbed claim of a well-formed key is refused only if some row spells it. */
  lemma RefusalIsJustified(ws: seq<World>, es: seq<Event>, i: nat)
    requires Run(ws, es) && i < |es| && es[i].Claim? && es[i].fault == NoFault
    requires WellFormed(ws[i].handles[es[i].h].pc.req.sent)
    ensures var key := ws[i].handles[es[i].h].pc.req.sent;
      WonHere(ws[i], es[i]) <==> !SpellingStored(ws[i].claims, CanonicalKey(key))
  {
    InvThroughout(ws, es, i);
    var handle := ws[i].handles[es[i].h];
    ClaimWinsIffUnspelt(ws[i].claims, handle.pending, handle.pc.req.sent, handle.pc.req.recordSent,
                        es[i].fault, es[i].now);
  }

  /** Over any run and under any fault, a claim is told "spent" only of a payment that some row
      spells, and one that no row spells is won unless the database refuses a statement of it. */
  lemma AnswersAreHonestThroughout(ws: seq<World>, es: seq<Event>, i: nat)
    requires Run(ws, es) && i < |es| && es[i].Claim?
    requires WellFormed(ws[i].handles[es[i].h].pc.req.sent)
    ensures var handle := ws[i].handles[es[i].h];
      var key, outcome := handle.pc.req.sent, Transaction(ws[i], es[i]).0;
      var reached := Reached(handle.pending, handle.pc.req.recordSent && CanonicalKey(key) != key, es[i].fault);
      && (outcome == Spent ==> SpellingStored(ws[i].claims, CanonicalKey(key)))
      && (outcome == Raised ==> reached)
      && (!SpellingStored(ws[i].claims, CanonicalKey(key)) ==> outcome == if reached then Raised else Won)
  {
    hide CanonicalKey, TransactFor, ScanMistakable, WellFormed;
    InvThroughout(ws, es, i);
    var handle := ws[i].handles[es[i].h];
    if ScanMistakable(handle.pc.req.sent) {
      MistakableIsNoKey(handle.pc.req.sent);
    }
    AnswersAreHonest(ws[i].claims, handle.pending, handle.pc.req.sent, handle.pc.req.recordSent, es[i].fault,
                     es[i].now);
  }

  /** What a win leaves in the table for good: a spelling of its key, and for this release the
      canonical key and, when it was a settle, the key as sent. */
  lemma WinIsStored(ws: seq<World>, es: seq<Event>, i: nat, j: nat)
    requires Run(ws, es) && i < j < |ws|
    requires WonHere(ws[i], es[i]) || WonByPreviousRelease(ws[i], es[i])
    ensures SpellingStored(ws[j].claims, CanonicalKey(KeyWon(ws[i], es[i])))
    ensures WonHere(ws[i], es[i]) ==> CanonicalKey(KeyWon(ws[i], es[i])) in ws[j].claims
    ensures WonHere(ws[i], es[i]) && ws[i].handles[es[i].h].pc.req.recordSent ==>
              KeyWon(ws[i], es[i]) in ws[j].claims
    ensures WonByPreviousRelease(ws[i], es[i]) ==> KeyWon(ws[i], es[i]) in ws[j].claims
  {
    var key := KeyWon(ws[i], es[i]);
    CanonicalIdempotent(key);
    if WonHere(ws[i], es[i]) {
      var handle := ws[i].handles[es[i].h];
      WinningClaimRecordsBoth(ws[i].claims, handle.pending, key, handle.pc.req.recordSent, es[i].fault, es[i].now);
      RowsStayThroughout(ws, es, i + 1, j, CanonicalKey(key));
      if handle.pc.req.recordSent {
        RowsStayThroughout(ws, es, i + 1, j, key);
      }
    } else {
      RowsStayThroughout(ws, es, i + 1, j, key);
    }
  }

  /** This release wins each payment key at most once, and never after the previous release
      has won a spelling of it. */
  lemma WonAtMostOnce(ws: seq<World>, es: seq<Event>, i: nat, j: nat)
    requires Run(ws, es) && i < j < |es|
    requires WonHere(ws[i], es[i]) || WonByPreviousRelease(ws[i], es[i])
    requires WonHere(ws[j], es[j])
    ensures CanonicalKey(KeyWon(ws[i], es[i])) != CanonicalKey(KeyWon(ws[j], es[j]))
  {
    WinIsStored(ws, es, i, j);
    WinIsFresh(ws, es, j);
  }

  /** Rolling back: the previous release refuses a settled payment under the key as it was sent
      and under its upper-case spelling. */
  lemma RollbackRefusesSettled(ws: seq<World>, es: seq<Event>, i: nat, j: nat)
    requires Run(ws, es) && i < j < |es|
    requires WonHere(ws[i], es[i]) && ws[i].handles[es[i].h].pc.req.recordSent
    requires WonByPreviousRelease(ws[j], es[j])
    ensures es[j].key != KeyWon(ws[i], es[i]) && es[j].key != CanonicalKey(KeyWon(ws[i], es[i]))
  {
    WinIsStored(ws, es, i, j);
  }

  /** A step that wins no spelling of a payment leaves the rows that spell it as they are, once
      its canonical row is there. */
  lemma SpellingsStay(w: World, e: Event, canonical: string)
    requires Enabled(w, e) && canonical in w.claims && CanonicalKey(canonical) == canonical
    requires !WinsPayment(w, e, canonical)
    ensures Spellings(Next(w, e).claims, canonical) == Spellings(w.claims, canonical)
  {
    hide CanonicalKey, Transact, Migrated, NeedsMigration;
    match e
    case Migrate(_, _) =>
      MigratedKeys(w.claims);
      forall k | k in w.claims
        ensures CanonicalKey(CanonicalKey(k)) == CanonicalKey(k)
      {
        CanonicalIdempotent(k);
      }
    case Claim(h, fault, now) =>
      var req := w.handles[h].pc.req;
      CanonicalIdempotent(req.sent);
      WinningClaimRecordsBoth(w.claims, w.handles[h].pending, req.sent, req.recordSent, fault, now);
      var other := Other(CanonicalKey(req.sent), if req.recordSent then Some(req.sent) else None);
      LosingChangesNothing(w.claims, w.handles[h].pending, CanonicalKey(req.sent), other, fault, now);
    case _ =>
  }

  /** Between steps `i` and `j` the previous release won this very key. */
  ghost predicate PreviousWon(ws: seq<World>, es: seq<Event>, i: nat, j: nat, key: string)
    requires j < |ws| == |es| + 1
  {
    exists k | i < k < j :: WonByPreviousRelease(ws[k], es[k]) && es[k].key == key
  }

  /** After a settle the rows that spell its payment are the key as sent, the canonical key and
      the spellings the previous release has won since. */
  lemma {:induction false} SettledSpellings(ws: seq<World>, es: seq<Event>, i: nat, j: nat, spelling: string)
    requires Run(ws, es) && i < j < |ws|
    requires WonHere(ws[i], es[i]) && ws[i].handles[es[i].h].pc.req.recordSent
    requires CanonicalKey(spelling) == CanonicalKey(KeyWon(ws[i], es[i]))
    ensures var key := KeyWon(ws[i], es[i]);
      spelling in ws[j].claims <==>
        spelling == key || spelling == CanonicalKey(key) || PreviousWon(ws, es, i, j, spelling)
    decreases j
  {
    hide Transaction, CanonicalKey;
    var key := KeyWon(ws[i], es[i]);
    CanonicalIdempotent(key);
    if j == i + 1 {
      WinIsFresh(ws, es, i);
      JustSettled(ws[i], es[i]);
      assert spelling in ws[j].claims <==> spelling in Spellings(ws[j].claims, CanonicalKey(key));
    } else {
      SettledSpellings(ws, es, i, j - 1, spelling);
      SettledSpellings(ws, es, i, j - 1, CanonicalKey(key));
      if WonHere(ws[j - 1], es[j - 1]) {
        WonAtMostOnce(ws, es, i, j - 1);
      }
      var w, e := ws[j - 1], es[j - 1];
      if !WinsPayment(w, e, CanonicalKey(key)) {
        SpellingsStay(w, e, CanonicalKey(key));
        assert spelling in w.claims <==> spelling in Spellings(w.claims, CanonicalKey(key));
        assert spelling in ws[j].claims <==> spelling in Spellings(ws[j].claims, CanonicalKey(key));
      }
    }
  }

  lemma JustSettled(w: World, e: Event)
    requires WonHere(w, e) && w.handles[e.h].pc.req.recordSent
    requires !SpellingStored(w.claims, CanonicalKey(KeyWon(w, e)))
    ensures var key := KeyWon(w, e);
      Spellings(Next(w, e).claims, CanonicalKey(key)) == {key, CanonicalKey(key)}
  {
    var handle := w.handles[e.h];
    CanonicalIdempotent(handle.pc.req.sent);
    WinningClaimRecordsBoth(w.claims, handle.pending, handle.pc.req.sent, true, e.fault, e.now);
  }

  /** What a rollback protects, exactly: of a payment settled before, the previous release wins
      a spelling if and only if that is neither the key as it was sent, nor the canonical key,
      nor one it has won already. */
  lemma RollbackWinsIff(ws: seq<World>, es: seq<Event>, i: nat, j: nat)
    requires Run(ws, es) && i < j < |es|
    requires WonHere(ws[i], es[i]) && ws[i].handles[es[i].h].pc.req.recordSent
    requires es[j].PreviousReleaseClaim? && CanonicalKey(es[j].key) == CanonicalKey(KeyWon(ws[i], es[i]))
    ensures var key := KeyWon(ws[i], es[i]);
      WonByPreviousRelease(ws[j], es[j]) <==>
        es[j].key != key && es[j].key != CanonicalKey(key) && !PreviousWon(ws, es, i, j, es[j].key)
  {
    SettledSpellings(ws, es, i, j, es[j].key);
  }

  /** A settle of one hex spelling of a hash, on a handle that finds an empty table, and what
      it leaves stored. */
  lemma FirstSettle(hash: string, requestId: string, now: real)
    requires Hex64(hash)
    ensures var key := KeyAsSent(hash, requestId);
      && TransactFor(map[], false, key, true, NoFault, now).0 == Won
      && TransactFor(map[], false, key, true, NoFault, now).1.Keys == {key, CanonicalKey(key)}
  {
    var t: Table := map[];
    assert Closed(t);
    KeysOfHash(hash, requestId);
    ClaimWinsIffUnspelt(t, false, KeyAsSent(hash, requestId), true, NoFault, now);
    WinningClaimRecordsBoth(t, false, KeyAsSent(hash, requestId), true, NoFault, now);
  }

  /** Such a spelling exists, so at-most-once does not reach across a rollback: a payment settled
      under one hex spelling is won again by the previous release under a third one. */
  lemma OtherCaseWinsAfterRollback(hash: string, hash': string, requestId: string, now: real)
    returns (ws: seq<World>, es: seq<Event>)
    requires Hex64(hash) && Hex64(hash') && UpperAll(hash) == UpperAll(hash')
    requires hash' != hash && hash' != UpperAll(hash)
    ensures Run(ws, es) && |es| == 6
    ensures WonHere(ws[3], es[3]) && WonByPreviousRelease(ws[5], es[5])
    ensures KeyWon(ws[3], es[3]) == KeyAsSent(hash, requestId)
    ensures KeyWon(ws[5], es[5]) == KeyAsSent(hash', requestId)
    ensures CanonicalKey(KeyWon(ws[3], es[3])) == CanonicalKey(KeyWon(ws[5], es[5]))
  {
    hide CanonicalKey, KeyAsSent, Hex64, UpperAll, Transaction, Run;
    var other := KeyAsSent(hash', requestId);
    ThirdSpelling(hash, hash', requestId);
    ws, es := SettledAndClosed(hash, requestId, now);
    assert other !in ws[5].claims;
    ws, es := Extended(ws, es, PreviousReleaseClaim(other, now));
  }

  lemma ThirdSpelling(hash: string, hash': string, requestId: string)
    requires Hex64(hash) && Hex64(hash') && UpperAll(hash) == UpperAll(hash')
    requires hash' != hash && hash' != UpperAll(hash)
    ensures var sent, other := KeyAsSent(hash, requestId), KeyAsSent(hash', requestId);
      CanonicalKey(sent) == CanonicalKey(other) && other != sent && other != CanonicalKey(sent)
  {
    hide CanonicalKey;
    KeysOfHash(hash, requestId);
    KeysOfHash(hash', requestId);
    OtherHashOtherKey(hash, hash', requestId);
    OtherHashOtherKey(UpperAll(hash), hash', requestId);
  }

  /** A run that opens a handle on an empty table and settles one payment, as call `call`. */
  lemma SettledOnEmpty(hash: string, requestId: string, call: nat, now: real)
    returns (ws: seq<World>, es: seq<Event>)
    requires Hex64(hash)
    ensures |es| == 4 && |ws| == 5 && Run(ws, es) && es[3] == Claim(0, NoFault, now)
    ensures Possible(ws[3], es[3]) && ws[3].handles[0].pc.req == Request(call, KeyAsSent(hash, requestId), true)
    ensures WonHere(ws[3], es[3]) && ws[4].handles.Keys == {0}
    ensures ws[4].claims.Keys == {KeyAsSent(hash, requestId), CanonicalKey(KeyAsSent(hash, requestId))}
  {
    hide CanonicalKey, TransactFor, NeedsMigration, Migrated, Run;
    FirstSettle(hash, requestId, now);
    ws, es := OpenedOnEmpty();
    ws, es := Extended(ws, es, Call(0, Request(call, KeyAsSent(hash, requestId), true)));
    ws, es := Extended(ws, es, Claim(0, NoFault, now));
    assert |es| == 4;
  }

  /** And then closes it. */
  lemma SettledAndClosed(hash: string, requestId: string, now: real) returns (ws: seq<World>, es: seq<Event>)
    requires Hex64(hash)
    ensures |es| == 5 && |ws| == 6 && Run(ws, es) && ws[5].handles == map[]
    ensures WonHere(ws[3], es[3]) && KeyWon(ws[3], es[3]) == KeyAsSent(hash, requestId)
    ensures ws[5].claims.Keys == {KeyAsSent(hash, requestId), CanonicalKey(KeyAsSent(hash, requestId))}
  {
    hide CanonicalKey, TransactFor, NeedsMigration, Migrated, Run;
    ws, es := SettledOnEmpty(hash, requestId, 0, now);
    ws, es := Extended(ws, es, Close(0));
    assert ws[5].handles == map[];
    assert |es| == 5;
  }

  /** A run goes on by any event that is enabled where it stands. */
  lemma Extended(ws: seq<World>, es: seq<Event>, e: Event) returns (ws': seq<World>, es': seq<Event>)
    requires Run(ws, es) && Enabled(ws[|ws| - 1], e)
    ensures ws' == ws + [Next(ws[|ws| - 1], e)] && es' == es + [e] && Run(ws', es')
  {
    ws', es' := ws + [Next(ws[|ws| - 1], e)], es + [e];
  }

  /** One handle opened on an empty table, its check done. */
  lemma OpenedOnEmpty() returns (ws: seq<World>, es: seq<Event>)
    ensures |ws| == 3 && |es| == 2 && Run(ws, es)
    ensures ws[2] == World(map[], map[0 := Handle(false, Idle)], {})
  {
    var w0 := World(map[], map[], {});
    var w1 := Next(w0, Open(0));
    var none: Table := map[];
    assert Closed(none);
    NeedsMigrationIffNotClosed(none);
    var w2 := Next(w1, Check(0, false));
    ws, es := [w0, w1, w2], [Open(0), Check(0, false)];
  }

  lemma OtherHashOtherKey(hash: string, hash': string, requestId: string)
    requires |hash| == |hash'| && hash != hash'
    ensures KeyAsSent(hash, requestId) != KeyAsSent(hash', requestId)
    ensures PREFIX + hash + " " + requestId == KeyAsSent(hash, requestId)
  {
    assert KeyAsSent(hash, requestId)[10..10 + |hash|] == hash;
    assert KeyAsSent(hash', requestId)[10..10 + |hash'|] == hash';
  }

  /** A step that is no win of either release adds nothing but missing canonical rows. */
  lemma OnlyWinsAndMigrationsWrite(ws: seq<World>, es: seq<Event>, i: nat, key: string)
    requires Run(ws, es) && i < |es|
    requires !WonHere(ws[i], es[i]) && !WonByPreviousRelease(ws[i], es[i])
    requires key in ws[i + 1].claims && key !in ws[i].claims
    ensures es[i].Migrate? && exists k | k in ws[i].claims :: CanonicalKey(k) == key && k != key
  {
    match es[i]
    case Migrate(_, _) =>
      MigratedKeys(ws[i].claims);
    case Claim(h, fault, now) =>
      var req := ws[i].handles[h].pc.req;
      var other := Other(CanonicalKey(req.sent), if req.recordSent then Some(req.sent) else None);
      LosingChangesNothing(ws[i].claims, ws[i].handles[h].pending, CanonicalKey(req.sent), other, fault, now);
    case _ =>
  }

  /** Every open handle, migrated or still pending, answers `is_claimed` for a well-formed key
      alike: whether some row of some release spells it. */
  lemma HandlesAnswerAlike(ws: seq<World>, es: seq<Event>, i: nat, h: nat, key: string)
    requires Run(ws, es) && i < |ws| && h in ws[i].handles && WellFormed(key)
    ensures IsClaimed(ws[i].claims, ws[i].handles[h].pending, key) <==> SpellingStored(ws[i].claims, CanonicalKey(key))
  {
    InvThroughout(ws, es, i);
    IsClaimedSameWhenPending(ws[i].claims, key);
    StoredIsSpelling(ws[i].claims, key);
  }

  /** A run in which the previous release may write at any time. */
  ghost predicate MixedRun(ws: seq<World>, es: seq<Event>) {
    && |ws| == |es| + 1
    && ws[0].handles == map[]
    && forall i | 0 <= i < |es| :: Possible(ws[i], es[i]) && ws[i + 1] == Next(ws[i], es[i])
  }

  /** The rule that the previous release must not write beside an open handle is needed: where
      it does, a handle that has finished its migration wins the same payment again. */
  lemma MixedReleasesCanClaimTwice(hash: string, requestId: string, now: real)
    returns (ws: seq<World>, es: seq<Event>)
    requires Hex64(hash) && UpperAll(hash) != hash
    ensures MixedRun(ws, es) && |es| == 5
    ensures WonByPreviousRelease(ws[2], es[2]) && WonHere(ws[4], es[4])
    ensures CanonicalKey(KeyWon(ws[2], es[2])) == CanonicalKey(KeyWon(ws[4], es[4]))
  {
    hide CanonicalKey, KeyAsSent, Hex64, UpperAll, TransactFor, NeedsMigration, Migrated, MixedRun;
    var before, sent := KeyAsSent(hash, requestId), KeyAsSent(UpperAll(hash), requestId);
    UpperSpelling(hash, requestId);
    ws, es := OpenedOnEmpty();
    ws, es := ExtendedMixed(ws, es, PreviousReleaseClaim(before, now));
    CanonicalWinsMigrated(ws[3].claims, sent, now);
    ws, es := ExtendedMixed(ws, es, Call(0, Request(0, sent, true)));
    ws, es := ExtendedMixed(ws, es, Claim(0, NoFault, now));
  }

  lemma UpperSpelling(hash: string, requestId: string)
    requires Hex64(hash) && UpperAll(hash) != hash
    ensures var before, sent := KeyAsSent(hash, requestId), KeyAsSent(UpperAll(hash), requestId);
      before != sent && CanonicalKey(before) == CanonicalKey(sent) == sent
  {
    hide CanonicalKey;
    UpperAllIdempotent(hash);
    KeysOfHash(hash, requestId);
    KeysOfHash(UpperAll(hash), requestId);
    OtherHashOtherKey(hash, UpperAll(hash), requestId);
  }

  lemma ExtendedMixed(ws: seq<World>, es: seq<Event>, e: Event) returns (ws': seq<World>, es': seq<Event>)
    requires MixedRun(ws, es) && Possible(ws[|ws| - 1], e)
    ensures ws' == ws + [Next(ws[|ws| - 1], e)] && es' == es + [e] && MixedRun(ws', es')
  {
    ws', es' := ws + [Next(ws[|ws| - 1], e)], es + [e];
  }

  /** A handle that no longer scans wins a canonical key whose own row is missing. */
  lemma CanonicalWinsMigrated(t: Table, key: string, now: real)
    requires CanonicalKey(key) == key && key !in t
    ensures TransactFor(t, false, key, true, NoFault, now).0 == Won
  {
  }

  /** A write of the previous release that leaves a handle trusting a table it may not trust: of a
      spelling whose canonical row is missing, while some open handle no longer migrates. */
  ghost predicate Exposes(w: World, e: Event) {
    && e.PreviousReleaseClaim? && e.key !in w.claims
    && CanonicalKey(e.key) != e.key && CanonicalKey(e.key) !in w.claims
    && exists h | h in w.handles :: !w.handles[h].pending
  }

  /** Exactly the steps that break the invariant. */
  lemma InvKeptIff(w: World, e: Event)
    requires Inv(w) && Possible(w, e)
    ensures Inv(Next(w, e)) <==> !Exposes(w, e)
  {
    hide CanonicalKey, TransactFor, NeedsMigration, Migrated;
    if !e.PreviousReleaseClaim? {
      InvHolds(w, e);
    } else if e.key !in w.claims {
      var t := w.claims[e.key := e.now];
      if h :| h in w.handles && !w.handles[h].pending {
        assert Closed(w.claims);
        assert Closed(t) <==> CanonicalKey(e.key) in t;
      }
    }
  }

  /** Some open handle would win a payment key that a stored row spells. */
  ghost predicate Endangered(w: World) {
    exists h, key, now | h in w.handles && SpellingStored(w.claims, CanonicalKey(key)) ::
      TransactFor(w.claims, w.handles[h].pending, key, true, NoFault, now).0 == Won
  }

  lemma EndangeredIff(w: World)
    ensures Endangered(w) <==> !Inv(w)
  {
    hide CanonicalKey;
    if Endangered(w) {
      var h, key, now :| h in w.handles && SpellingStored(w.claims, CanonicalKey(key))
                         && TransactFor(w.claims, w.handles[h].pending, key, true, NoFault, now).0 == Won;
      if Inv(w) {
        ClaimWinsIffUnspelt(w.claims, w.handles[h].pending, key, true, NoFault, now);
      }
    }
    if !Inv(w) {
      var h :| h in w.handles && !w.handles[h].pending && !Closed(w.claims);
      var k :| k in w.claims && CanonicalKey(k) !in w.claims;
      CanonicalIdempotent(k);
      CanonicalWinsMigrated(w.claims, CanonicalKey(k), 0.0);
      assert SpellingStored(w.claims, CanonicalKey(CanonicalKey(k)));
      assert TransactFor(w.claims, w.handles[h].pending, CanonicalKey(k), true, NoFault, 0.0).0 == Won;
    }
  }

  lemma {:induction false} UnexposedThroughout(ws: seq<World>, es: seq<Event>, i: nat)
    requires MixedRun(ws, es) && i < |ws| && forall j | 0 <= j < i :: !Exposes(ws[j], es[j])
    ensures Inv(ws[i])
  {
    if i > 0 {
      UnexposedThroughout(ws, es, i - 1);
      InvKeptIff(ws[i - 1], es[i - 1]);
    }
  }

  /** Exactly how far the two releases may be mixed: over any run in which the previous one writes
      whenever it likes, no open handle ever would win a payment that a stored row spells if and
      only if no write exposes one. */
  lemma MixedRunSafeIff(ws: seq<World>, es: seq<Event>)
    requires MixedRun(ws, es)
    ensures (forall i | 0 <= i < |ws| :: !Endangered(ws[i])) <==>
            (forall i | 0 <= i < |es| :: !Exposes(ws[i], es[i]))
  {
    hide Endangered, Exposes, Inv, Next;
    forall i | 0 <= i < |ws|
      ensures Endangered(ws[i]) <==> !Inv(ws[i])
    {
      EndangeredIff(ws[i]);
    }
    if forall i | 0 <= i < |es| :: !Exposes(ws[i], es[i]) {
      forall i | 0 <= i < |ws|
        ensures !Endangered(ws[i])
      {
        UnexposedThroughout(ws, es, i);
      }
    } else {
      var i :| 0 <= i < |es| && Exposes(ws[i], es[i]);
      if Inv(ws[i]) {
        InvKeptIff(ws[i], es[i]);
        assert Endangered(ws[i + 1]);
      }
    }
  }

  /** The claim key of a 64-hex hash: every hex-case spelling of it gives the same key. */
  lemma KeysOfHash(hash: string, requestId: string)
    requires Hex64(hash)
    ensures WellFormed(KeyAsSent(hash, requestId))
    ensures KeyAsSent(hash, requestId) == "nano:live " + hash + " " + requestId
    ensures ConsumptionKey(hash, requestId) == "nano:live " + UpperAll(hash) + " " + requestId
    ensures ConsumptionKey(hash, requestId) == KeyAsSent(hash, requestId) <==> hash == UpperAll(hash)
  {
    var key := KeyAsSent(hash, requestId);
    assert key == PREFIX + hash + (" " + requestId);
    Assembled(hash, " " + requestId);
    Pieces(key);
    CanonicalAgrees(key);
    assert SubstrFrom(key, 75)[0] == ' ';
    assert CanonicalSql(key) == PREFIX + UpperAll(hash) + (" " + requestId);
    Assembled(UpperAll(hash), " " + requestId);
  }
}
