/** Pay-per-call verification: `verify_payment` calls as threads that interleave with each
    other, with quotes and with the clock between any two reads or writes of the store. */
module PaymentService {
  import opened Text
  import opened Approvals

  // ---- the on-chain check ----

  /** One account_history entry: its type, hash and account, and its amount, None when int()
      cannot read it. */
  datatype Entry = Entry(kind: string, amount: Option<int>, hash: Option<string>, account: string)

  /** The entry pays the one-time address at least `amount`. */
  predicate Pays(entry: Entry, address: string, amount: int) {
    && entry.amount.Some? && entry.amount.value >= amount
    && (entry.kind == "receive" || (entry.kind == "send" && entry.account == address))
  }

  /** The loop goes no further: the entry pays, or reading its amount raises. */
  predicate Decides(entry: Entry, address: string, amount: int) {
    entry.amount.None? || Pays(entry, address, amount)
  }

  /** The first deciding entry. */
  function FirstDeciding(history: seq<Entry>, address: string, amount: int): Option<Entry> {
    if history == [] then None
    else if Decides(history[0], address, amount) then Some(history[0])
    else FirstDeciding(history[1..], address, amount)
  }

  datatype Found = Tx(hash: string) | Unseen | HistoryRaises

  /** What a deciding entry leads to: a payment without a hash counts as unseen. */
  function FoundAt(entry: Option<Entry>): Found {
    if entry.None? then Unseen
    else if entry.value.amount.None? then HistoryRaises
    else if entry.value.hash.None? then Unseen else Tx(entry.value.hash.value)
  }

  /** `_onchain_paid`; a failed history read (None) shows nothing. */
  function OnchainPaid(history: Option<seq<Entry>>, address: string, amount: int): Found {
    if history.None? then Unseen else FoundAt(FirstDeciding(history.value, address, amount))
  }

  /** The deciding entry splits the history: nothing before it pays, and every amount before it
      can be read. */
  lemma {:induction false} FirstDecidingSplits(history: seq<Entry>, address: string, amount: int)
    ensures var e := FirstDeciding(history, address, amount);
      && (e.None? <==> forall x | x in history :: !Decides(x, address, amount))
      && (e.Some? ==> exists i | 0 <= i < |history| ::
            && history[i] == e.value && Decides(e.value, address, amount)
            && forall j | 0 <= j < i :: !Decides(history[j], address, amount))
  {
    if history != [] && !Decides(history[0], address, amount) {
      FirstDecidingSplits(history[1..], address, amount);
      assert history == [history[0]] + history[1..];
      var e := FirstDeciding(history, address, amount);
      if e.Some? {
        var i :| 0 <= i < |history| - 1 && history[1..][i] == e.value
                 && forall j | 0 <= j < i :: !Decides(history[1..][j], address, amount);
        assert history[i + 1] == e.value;
        forall j | 0 <= j < i + 1
          ensures !Decides(history[j], address, amount)
        {
          assert j > 0 ==> history[j] == history[1..][j - 1];
        }
      }
    }
  }

  /** A payment of the amount or more is found, whatever else the history lists, if every amount in
      it can be read and every entry has its hash. */
  lemma PaymentIsFound(history: seq<Entry>, address: string, amount: int, i: nat)
    requires forall x | x in history :: x.amount.Some? && x.hash.Some?
    requires i < |history| && history[i].amount.value >= amount
    requires history[i].kind == "receive" || (history[i].kind == "send" && history[i].account == address)
    ensures OnchainPaid(Some(history), address, amount).Tx?
  {
    FirstDecidingSplits(history, address, amount);
    assert history[i] in history;
  }

  /** `_onchain_paid`: the loop over the history. It raises exactly when an amount that cannot be
      read comes before every payment. */
  method FindPayment(history: Option<seq<Entry>>, address: string, amount: int) returns (found: Found)
    ensures found == OnchainPaid(history, address, amount)
    ensures found.Tx? <==>
              history.Some? && exists i | 0 <= i < |history.value| ::
                && Pays(history.value[i], address, amount) && history.value[i].hash.Some?
                && forall j | 0 <= j < i :: !Decides(history.value[j], address, amount)
    ensures found.Tx? ==> exists e | e in history.value :: Pays(e, address, amount) && e.hash == Some(found.hash)
    ensures found.HistoryRaises? <==>
              history.Some? && exists i | 0 <= i < |history.value| ::
                && history.value[i].amount.None?
                && forall j | 0 <= j < i :: !Decides(history.value[j], address, amount)
  {
    if history.None? {
      return Unseen;
    }
    var entries := history.value;
    FirstDecidingSplits(entries, address, amount);
    for i := 0 to |entries|
      invariant FirstDeciding(entries, address, amount) == FirstDeciding(entries[i..], address, amount)
      invariant forall j | 0 <= j < i :: !Decides(entries[j], address, amount)
    {
      var entry := entries[i];
      if entry.amount.None? {
        return HistoryRaises;
      }
      if entry.amount.value >= amount {
        if entry.kind == "receive" || (entry.kind == "send" && entry.account == address) {
          return FoundAt(Some(entry));
        }
      }
    }
    return Unseen;
  }

  // ---- one call as a thread ----

  datatype Result = Approved(tx: string) | Spent(tx: string) | Expired | Unpaid | Raised

  /** Between which two accesses a call stands. */
  datatype Pc =
    | ReadApproval
    | ReadExpiry
    | ReadClock
    | ReadFloor
    | Consult
    | Insert
    | ReadWinner
    | Done(result: Result)

  /** A call in flight: what it was asked, and what it has read so far. `amount` rises to the
      floor; `floorAt` counts the prices recorded by the time the floor was read; `seen` is the
      history entry the approval rests on. `expiryAt` counts the expiries set by the time the
      expiry was read. */
  datatype Thread = Thread(requestId: string, named: int, onchain: bool, pc: Pc,
                           amount: int, floorAt: nat, expiry: Option<real>, expiryAt: nat, clock: real,
                           tx: string, seen: Option<Entry>)

  function NewThread(requestId: string, amount: int, onchain: bool): Thread {
    Thread(requestId, amount, onchain, ReadApproval, amount, 0, None, 0, 0.0, "", None)
  }

  /** The next atomic step of a call: one store access, one clock reading or one history read. */
  function Step(t: Thread, db: Db, now: real, quotes: nat, expiries: nat, address: string,
                history: Option<seq<Entry>>): (Thread, Db)
    requires !t.pc.Done?
  {
    match t.pc
    case ReadApproval =>
      var existing := Lookup(db.approvals, t.requestId);
      (t.(pc := if existing.Some? then Done(Spent(existing.value.tx)) else ReadExpiry), db)
    case ReadExpiry =>
      var expiry := Lookup(db.expiry, t.requestId);
      (t.(expiry := expiry, expiryAt := expiries, pc := if expiry.Some? then ReadClock else ReadFloor), db)
    case ReadClock =>
      (t.(clock := now, pc := if t.expiry.Some? && now > t.expiry.value then Done(Expired) else ReadFloor), db)
    case ReadFloor =>
      var quoted := Lookup(db.price, t.requestId);
      var amount := if quoted.Some? && quoted.value > t.amount then quoted.value else t.amount;
      (t.(amount := amount, floorAt := quotes, pc := Consult), db)
    case Consult =>
      if !t.onchain then (t.(tx := "simulated", pc := Insert), db) else
      (match OnchainPaid(history, address, t.amount)
       case Unseen => t.(pc := Done(Unpaid))
       case HistoryRaises => t.(pc := Done(Raised))
       case Tx(hash) =>
         t.(tx := hash, seen := FirstDeciding(history.value, address, t.amount), pc := Insert), db)
    case Insert =>
      var (claimed, db') := Approve(db, t.requestId, Approval(t.tx, address, t.amount));
      (t.(pc := if claimed then Done(Approved(t.tx)) else ReadWinner), db')
    case ReadWinner =>
      var existing := Lookup(db.approvals, t.requestId);
      (t.(pc := Done(Spent(if existing.Some? then existing.value.tx else t.tx))), db)
  }

  // ---- any number of calls and quotes ----

  datatype Quote = Quote(requestId: string, price: int)

  datatype Expiry = Expiry(requestId: string, expiresAt: real)

  /** `quotes` and `expiries` log what was recorded, in order. */
  datatype World = World(db: Db, threads: map<nat, Thread>, quotes: seq<Quote>, expiries: seq<Expiry>, now: real)

  /** `RecordPrice` is the store write of both kinds of quote, `RecordExpiry` the one a dollar
      quote makes before it. The clock may read anything next. */
  datatype Event =
    | Start(id: nat, requestId: string, amount: int, onchain: bool)
    | Advance(id: nat, history: Option<seq<Entry>>)
    | PriceQuoted(requestId: string, price: int)
    | ExpirySet(requestId: string, expiresAt: real)
    | ClockReads(now: real)

  /** A call for a negative amount is refused before it reads anything, so none starts. */
  predicate Enabled(w: World, e: Event) {
    match e
    case Start(id, _, amount, _) => id !in w.threads && amount >= 0
    case Advance(id, _) => id in w.threads && !w.threads[id].pc.Done?
    case _ => true
  }

  function Next(w: World, e: Event, address: string -> string): World
    requires Enabled(w, e)
  {
    match e
    case Start(id, requestId, amount, onchain) =>
      w.(threads := w.threads[id := NewThread(requestId, amount, onchain)])
    case Advance(id, history) =>
      var t := w.threads[id];
      var (t', db') := Step(t, w.db, w.now, |w.quotes|, |w.expiries|, address(t.requestId), history);
      w.(db := db', threads := w.threads[id := t'])
    case PriceQuoted(requestId, price) =>
      w.(db := RecordPrice(w.db, requestId, price), quotes := w.quotes + [Quote(requestId, price)])
    case ExpirySet(requestId, expiresAt) =>
      w.(db := RecordExpiry(w.db, requestId, expiresAt), expiries := w.expiries + [Expiry(requestId, expiresAt)])
    case ClockReads(now) => w.(now := now)
  }

  // ---- the price floor ----

  /** The highest price recorded for a request id, and at least 0; None if none was. */
  function Floor(quotes: seq<Quote>, requestId: string): Option<int> {
    if quotes == [] then None else
    var earlier, last := Floor(quotes[..|quotes| - 1], requestId), quotes[|quotes| - 1];
    if last.requestId != requestId then earlier else Some(Max(earlier.GetOr(0), last.price))
  }

  lemma {:induction false} FloorIsMaximum(quotes: seq<Quote>, requestId: string)
    ensures Floor(quotes, requestId).Some? <==> exists q | q in quotes :: q.requestId == requestId
    ensures Floor(quotes, requestId).Some? ==>
              var f := Floor(quotes, requestId).value;
              && f >= 0
              && (forall q | q in quotes && q.requestId == requestId :: q.price <= f)
              && (f == 0 || exists q | q in quotes :: q.requestId == requestId && q.price == f)
  {
    if quotes != [] {
      var init, last := quotes[..|quotes| - 1], quotes[|quotes| - 1];
      FloorIsMaximum(init, requestId);
      assert quotes == init + [last];
    }
  }

  // ---- the expiries ----

  /** The last expiry set for a request id; None if none was. */
  function LastExpiry(expiries: seq<Expiry>, requestId: string): Option<real> {
    if expiries == [] then None else
    var last := expiries[|expiries| - 1];
    if last.requestId == requestId then Some(last.expiresAt) else LastExpiry(expiries[..|expiries| - 1], requestId)
  }

  /** The entry set for the request id after which none was. */
  ghost predicate IsLast(expiries: seq<Expiry>, requestId: string, i: nat) {
    && i < |expiries| && expiries[i].requestId == requestId
    && forall j | i < j < |expiries| :: expiries[j].requestId != requestId
  }

  lemma {:induction false} LastExpiryIs(expiries: seq<Expiry>, requestId: string)
    ensures LastExpiry(expiries, requestId).None? <==> forall x | x in expiries :: x.requestId != requestId
    ensures LastExpiry(expiries, requestId).Some? ==>
              exists i: nat :: IsLast(expiries, requestId, i)
                               && LastExpiry(expiries, requestId) == Some(expiries[i].expiresAt)
  {
    if expiries != [] {
      var init, last := expiries[..|expiries| - 1], expiries[|expiries| - 1];
      assert expiries == init + [last];
      LastExpiryIs(init, requestId);
      if last.requestId == requestId {
        assert IsLast(expiries, requestId, |init|);
      } else if LastExpiry(init, requestId).Some? {
        var i: nat :| IsLast(init, requestId, i) && LastExpiry(init, requestId) == Some(init[i].expiresAt);
        assert IsLast(expiries, requestId, i);
      }
    }
  }

  // ---- what every step keeps ----

  /** The stored expiry of every request id is the last one set for it. */
  ghost predicate ExpiriesStored(w: World) {
    forall requestId :: Lookup(w.db.expiry, requestId) == LastExpiry(w.expiries, requestId)
  }

  /** The stored price of every request id is its floor over the prices recorded so far. */
  ghost predicate FloorsStored(w: World) {
    forall requestId :: Lookup(w.db.price, requestId) == Floor(w.quotes, requestId)
  }

  /** Past the floor read, a call's amount covers what it was asked and every earlier price. */
  ghost predicate AmountCovers(t: Thread, quotes: seq<Quote>) {
    && t.named <= t.amount
    && (t.pc.ReadApproval? || t.pc.ReadExpiry? || t.pc.ReadClock? || t.pc.ReadFloor? ==> t.amount == t.named)
    && (t.pc.Consult? || t.pc.Insert? || t.pc.ReadWinner? || (t.pc.Done? && t.pc.result.Approved?) ==>
          && t.floorAt <= |quotes|
          && t.amount == Max(t.named, Floor(quotes[..t.floorAt], t.requestId).GetOr(t.named))
          && forall i | 0 <= i < t.floorAt && quotes[i].requestId == t.requestId :: quotes[i].price <= t.amount)
  }

  /** Past the on-chain check, a call holds the entry that pays its amount. */
  ghost predicate PaymentSeen(t: Thread, address: string -> string) {
    var past := t.pc.Insert? || t.pc.ReadWinner? || (t.pc.Done? && t.pc.result.Approved?);
    && (past && !t.onchain ==> t.tx == "simulated")
    && (past && t.onchain ==>
          t.seen.Some? && Pays(t.seen.value, address(t.requestId), t.amount) && t.seen.value.hash == Some(t.tx))
  }

  /** Past its expiry read, a call holds the last expiry set before; past the clock reading, that
      had not passed, or had, if the call says so. */
  ghost predicate InTime(t: Thread, expiries: seq<Expiry>) {
    && (!t.pc.ReadApproval? && !t.pc.ReadExpiry? && !(t.pc.Done? && t.pc.result.Spent?) ==>
          t.expiryAt <= |expiries| && t.expiry == LastExpiry(expiries[..t.expiryAt], t.requestId))
    && (t.pc.ReadFloor? || t.pc.Consult? || t.pc.Insert? || t.pc.ReadWinner?
        || (t.pc.Done? && t.pc.result.Approved?) ==>
          t.expiry.Some? ==> t.clock <= t.expiry.value)
    && (t.pc.Done? && t.pc.result.Expired? ==> t.expiry.Some? && t.clock > t.expiry.value)
  }

  /** What a finished or losing call says matches the one stored approval. */
  ghost predicate AnswerStored(t: Thread, db: Db, address: string -> string) {
    && (t.pc.ReadWinner? ==> t.requestId in db.approvals)
    && (t.pc.Done? && t.pc.result.Approved? ==>
          && t.pc.result.tx == t.tx
          && t.requestId in db.approvals
          && db.approvals[t.requestId] == Approval(t.tx, address(t.requestId), t.amount))
    && (t.pc.Done? && t.pc.result.Spent? ==>
          t.requestId in db.approvals && db.approvals[t.requestId].tx == t.pc.result.tx)
  }

  ghost predicate ThreadInv(t: Thread, w: World, address: string -> string) {
    AmountCovers(t, w.quotes) && PaymentSeen(t, address) && InTime(t, w.expiries) && AnswerStored(t, w.db, address)
  }

  predicate IsApproved(t: Thread) {
    t.pc.Done? && t.pc.result.Approved?
  }

  /** Two calls told "approved" for one request id. */
  predicate BothApproved(t: Thread, u: Thread) {
    IsApproved(t) && IsApproved(u) && t.requestId == u.requestId
  }

  ghost predicate Inv(w: World, address: string -> string) {
    && FloorsStored(w) && ExpiriesStored(w)
    && (forall id | id in w.threads :: ThreadInv(w.threads[id], w, address))
    && (forall a, b | a in w.threads && b in w.threads ::
          BothApproved(w.threads[a], w.threads[b]) ==> a == b)
  }

  /** No event touches an approval once it is stored. */
  lemma ApprovalStays(w: World, e: Event, address: string -> string, requestId: string)
    requires Enabled(w, e) && requestId in w.db.approvals
    ensures var db := Next(w, e, address).db;
      requestId in db.approvals && db.approvals[requestId] == w.db.approvals[requestId]
  {
  }

  lemma StepKeepsAmount(t: Thread, w: World, address: string -> string, history: Option<seq<Entry>>)
    requires AmountCovers(t, w.quotes) && FloorsStored(w) && !t.pc.Done?
    ensures AmountCovers(Step(t, w.db, w.now, |w.quotes|, |w.expiries|, address(t.requestId), history).0, w.quotes)
  {
    hide OnchainPaid, FirstDeciding;
    if t.pc.ReadFloor? {
      assert Lookup(w.db.price, t.requestId) == Floor(w.quotes, t.requestId);
      assert w.quotes[..|w.quotes|] == w.quotes;
      FloorIsMaximum(w.quotes, t.requestId);
    }
  }

  lemma StepKeepsSeen(t: Thread, w: World, address: string -> string, history: Option<seq<Entry>>)
    requires PaymentSeen(t, address) && !t.pc.Done?
    ensures PaymentSeen(Step(t, w.db, w.now, |w.quotes|, |w.expiries|, address(t.requestId), history).0, address)
  {
    hide FirstDeciding;
    if t.pc.Consult? && history.Some? {
      FirstDecidingSplits(history.value, address(t.requestId), t.amount);
    }
  }

  lemma StepKeepsTime(t: Thread, w: World, address: string -> string, history: Option<seq<Entry>>)
    requires InTime(t, w.expiries) && ExpiriesStored(w) && !t.pc.Done?
    ensures InTime(Step(t, w.db, w.now, |w.quotes|, |w.expiries|, address(t.requestId), history).0, w.expiries)
  {
    hide OnchainPaid, FirstDeciding, LastExpiry;
    if t.pc.ReadExpiry? {
      assert w.expiries[..|w.expiries|] == w.expiries;
      assert Lookup(w.db.expiry, t.requestId) == LastExpiry(w.expiries, t.requestId);
    }
  }

  lemma StepKeepsAnswer(t: Thread, w: World, address: string -> string, history: Option<seq<Entry>>)
    requires AnswerStored(t, w.db, address) && !t.pc.Done?
    ensures var (t', db') := Step(t, w.db, w.now, |w.quotes|, |w.expiries|, address(t.requestId), history);
      AnswerStored(t', db', address)
  {
    hide OnchainPaid, FirstDeciding;
  }

  lemma StepKeepsThread(t: Thread, w: World, address: string -> string, history: Option<seq<Entry>>)
    requires ThreadInv(t, w, address) && FloorsStored(w) && ExpiriesStored(w) && !t.pc.Done?
    ensures var (t', db') := Step(t, w.db, w.now, |w.quotes|, |w.expiries|, address(t.requestId), history);
      ThreadInv(t', w.(db := db'), address)
  {
    hide Step, AmountCovers, PaymentSeen, InTime, AnswerStored;
    StepKeepsAmount(t, w, address, history);
    StepKeepsSeen(t, w, address, history);
    StepKeepsTime(t, w, address, history);
    StepKeepsAnswer(t, w, address, history);
  }

  lemma OtherThreadKept(t: Thread, w: World, e: Event, address: string -> string)
    requires Enabled(w, e) && ThreadInv(t, w, address)
    ensures ThreadInv(t, Next(w, e, address), address)
  {
    if t.requestId in w.db.approvals {
      ApprovalStays(w, e, address, t.requestId);
    }
    if t.floorAt <= |w.quotes| {
      assert Next(w, e, address).quotes[..t.floorAt] == w.quotes[..t.floorAt];
    }
    if t.expiryAt <= |w.expiries| {
      assert Next(w, e, address).expiries[..t.expiryAt] == w.expiries[..t.expiryAt];
    }
  }

  lemma ExpiriesKept(w: World, e: Event, address: string -> string)
    requires Enabled(w, e) && ExpiriesStored(w)
    ensures ExpiriesStored(Next(w, e, address))
  {
    var w' := Next(w, e, address);
    forall requestId
      ensures Lookup(w'.db.expiry, requestId) == LastExpiry(w'.expiries, requestId)
    {
      assert Lookup(w.db.expiry, requestId) == LastExpiry(w.expiries, requestId);
      if e.ExpirySet? {
        assert w'.expiries[..|w'.expiries| - 1] == w.expiries;
      }
    }
  }

  lemma FloorsKept(w: World, e: Event, address: string -> string)
    requires Enabled(w, e) && FloorsStored(w)
    ensures FloorsStored(Next(w, e, address))
  {
    var w' := Next(w, e, address);
    forall requestId
      ensures Lookup(w'.db.price, requestId) == Floor(w'.quotes, requestId)
    {
      assert Lookup(w.db.price, requestId) == Floor(w.quotes, requestId);
      if e.PriceQuoted? {
        assert w'.quotes[..|w'.quotes| - 1] == w.quotes;
      }
    }
  }

  lemma InvHolds(w: World, e: Event, address: string -> string)
    requires Enabled(w, e) && Inv(w, address)
    ensures Inv(Next(w, e, address), address)
  {
    var w' := Next(w, e, address);
    FloorsKept(w, e, address);
    ExpiriesKept(w, e, address);
    forall id | id in w'.threads
      ensures ThreadInv(w'.threads[id], w', address)
    {
      if e.Advance? && e.id == id {
        StepKeepsThread(w.threads[id], w, address, e.history);
      } else if id in w.threads {
        OtherThreadKept(w.threads[id], w, e, address);
      }
    }
    forall a, b | a in w'.threads && b in w'.threads && a != b
      ensures !BothApproved(w'.threads[a], w'.threads[b])
    {
      if e.Advance? && e.id == b {
        OneApproves(w, e, address, b, a);
      } else {
        OneApproves(w, e, address, a, b);
      }
    }
  }

  lemma OneApproves(w: World, e: Event, address: string -> string, a: nat, b: nat)
    requires Enabled(w, e) && Inv(w, address) && a != b
    requires var w' := Next(w, e, address); a in w'.threads && b in w'.threads
    requires e.Advance? ==> e.id != b
    ensures var w' := Next(w, e, address); !BothApproved(w'.threads[a], w'.threads[b])
  {
  }

  // ---- whole runs ----

  /** A run may start on a store that already holds approvals, expiries and floors. */
  ghost predicate Run(ws: seq<World>, es: seq<Event>, address: string -> string) {
    && |ws| == |es| + 1
    && ws[0].threads == map[] && FloorsStored(ws[0]) && ExpiriesStored(ws[0])
    && forall i | 0 <= i < |es| :: Enabled(ws[i], es[i]) && ws[i + 1] == Next(ws[i], es[i], address)
  }

  lemma {:induction false} InvThroughout(ws: seq<World>, es: seq<Event>, address: string -> string, i: nat)
    requires Run(ws, es, address) && i < |ws|
    ensures Inv(ws[i], address)
  {
    if i > 0 {
      InvThroughout(ws, es, address, i - 1);
      InvHolds(ws[i - 1], es[i - 1], address);
    }
  }

  /** Approvals never change: whatever is stored at some moment is stored ever after. */
  lemma {:induction false} ApprovalsArePermanent(ws: seq<World>, es: seq<Event>, address: string -> string,
                                                 i: nat, j: nat, requestId: string)
    requires Run(ws, es, address) && i <= j < |ws| && requestId in ws[i].db.approvals
    ensures requestId in ws[j].db.approvals && ws[j].db.approvals[requestId] == ws[i].db.approvals[requestId]
    decreases j
  {
    if i < j {
      ApprovalsArePermanent(ws, es, address, i, j - 1, requestId);
      ApprovalStays(ws[j - 1], es[j - 1], address, requestId);
    }
  }

  lemma {:induction false} AnswersArePermanent(ws: seq<World>, es: seq<Event>, address: string -> string,
                                               i: nat, j: nat, id: nat)
    requires Run(ws, es, address) && i <= j < |ws| && id in ws[i].threads && ws[i].threads[id].pc.Done?
    ensures id in ws[j].threads && ws[j].threads[id] == ws[i].threads[id]
    decreases j
  {
    if i < j {
      AnswersArePermanent(ws, es, address, i, j - 1, id);
    }
  }

  /** Exactly once: over a whole run at most one call is told "approved" for a request id. */
  lemma ApprovedAtMostOnce(ws: seq<World>, es: seq<Event>, address: string -> string, i: nat, a: nat, j: nat, b: nat)
    requires Run(ws, es, address) && i < |ws| && j < |ws|
    requires a in ws[i].threads && IsApproved(ws[i].threads[a])
    requires b in ws[j].threads && IsApproved(ws[j].threads[b])
    requires ws[i].threads[a].requestId == ws[j].threads[b].requestId
    ensures a == b
  {
    var last := |ws| - 1;
    AnswersArePermanent(ws, es, address, i, last, a);
    AnswersArePermanent(ws, es, address, j, last, b);
    InvThroughout(ws, es, address, last);
  }

  /** The history this step consults names only blocks of the account it asks about. */
  ghost predicate HistoryOwn(w: World, e: Event, address: string -> string, owner: string -> string) {
    e.Advance? && e.id in w.threads && e.history.Some? ==>
      forall x | x in e.history.value && x.hash.Some? :: owner(x.hash.value) == address(w.threads[e.id].requestId)
  }

  ghost predicate HistoriesOwn(ws: seq<World>, es: seq<Event>, address: string -> string, owner: string -> string)
    requires |ws| == |es| + 1
  {
    forall i | 0 <= i < |es| :: HistoryOwn(ws[i], es[i], address, owner)
  }

  /** Past the on-chain check, the hash a call holds is of a block of its own one-time account. */
  ghost predicate OwnPayment(t: Thread, address: string -> string, owner: string -> string) {
    t.onchain && (t.pc.Insert? || t.pc.ReadWinner? || IsApproved(t)) ==> owner(t.tx) == address(t.requestId)
  }

  lemma OwnPaymentKept(w: World, e: Event, address: string -> string, owner: string -> string, a: nat)
    requires Enabled(w, e) && HistoryOwn(w, e, address, owner) && a in Next(w, e, address).threads
    requires a in w.threads ==> OwnPayment(w.threads[a], address, owner)
    ensures OwnPayment(Next(w, e, address).threads[a], address, owner)
  {
    if e.Advance? && e.id == a && w.threads[a].pc.Consult? && e.history.Some? {
      FirstDecidingSplits(e.history.value, address(w.threads[a].requestId), w.threads[a].amount);
    }
  }

  lemma {:induction false} OwnPayments(ws: seq<World>, es: seq<Event>, address: string -> string,
                                       owner: string -> string, i: nat, a: nat)
    requires Run(ws, es, address) && HistoriesOwn(ws, es, address, owner) && i < |ws| && a in ws[i].threads
    ensures OwnPayment(ws[i].threads[a], address, owner)
  {
    hide Next, OwnPayment, HistoryOwn;
    if i > 0 {
      if a in ws[i - 1].threads {
        OwnPayments(ws, es, address, owner, i - 1, a);
      }
      OwnPaymentKept(ws[i - 1], es[i - 1], address, owner, a);
    }
  }

  /** One payment pays for one call: of any two calls that were told "approved" for one block on the
      chain, even under different request ids, both are the same call. It takes histories that
      list the account's own blocks, and one-time addresses that differ for the two ids. */
  lemma PaymentApprovesOnce(ws: seq<World>, es: seq<Event>, address: string -> string, owner: string -> string,
                            i: nat, a: nat, j: nat, b: nat)
    requires Run(ws, es, address) && HistoriesOwn(ws, es, address, owner) && i < |ws| && j < |ws|
    requires a in ws[i].threads && IsApproved(ws[i].threads[a]) && ws[i].threads[a].onchain
    requires b in ws[j].threads && IsApproved(ws[j].threads[b]) && ws[j].threads[b].onchain
    requires ws[i].threads[a].pc.result.tx == ws[j].threads[b].pc.result.tx
    requires var (id, id') := (ws[i].threads[a].requestId, ws[j].threads[b].requestId);
      address(id) == address(id') ==> id == id'
    ensures a == b
  {
    OwnPayments(ws, es, address, owner, i, a);
    OwnPayments(ws, es, address, owner, j, b);
    InvThroughout(ws, es, address, i);
    InvThroughout(ws, es, address, j);
    ApprovedAtMostOnce(ws, es, address, i, a, j, b);
  }

  /** A call told "spent" or "approved" is told the hash of the one approval there is. */
  lemma AnswersAgree(ws: seq<World>, es: seq<Event>, address: string -> string, i: nat, a: nat)
    requires Run(ws, es, address) && i < |ws| && a in ws[i].threads
    requires ws[i].threads[a].pc.Done? && (ws[i].threads[a].pc.result.Spent? || ws[i].threads[a].pc.result.Approved?)
    ensures var t := ws[i].threads[a]; var approvals := ws[|ws| - 1].db.approvals;
      t.requestId in approvals && approvals[t.requestId].tx == t.pc.result.tx
  {
    InvThroughout(ws, es, address, i);
    ApprovalsArePermanent(ws, es, address, i, |ws| - 1, ws[i].threads[a].requestId);
  }

  /** A call that starts after an approval is told "spent" with its hash by its first step. */
  lemma LaterCallsAreSpent(ws: seq<World>, es: seq<Event>, address: string -> string, i: nat, j: nat)
    requires Run(ws, es, address) && i <= j < |es| && es[j].Advance?
    requires ws[j].threads[es[j].id].pc.ReadApproval?
    requires ws[j].threads[es[j].id].requestId in ws[i].db.approvals
    ensures var t := ws[j].threads[es[j].id];
      ws[j + 1].threads[es[j].id].pc == Done(Spent(ws[i].db.approvals[t.requestId].tx))
  {
    ApprovalsArePermanent(ws, es, address, i, j, ws[j].threads[es[j].id].requestId);
  }

  /** Step `k` of the run is a step of this call, taken from `pc`. */
  ghost predicate Took(ws: seq<World>, es: seq<Event>, a: nat, k: nat, pc: Pc)
    requires |ws| == |es| + 1
  {
    k < |es| && es[k].Advance? && es[k].id == a && a in ws[k].threads && ws[k].threads[a].pc == pc
  }

  predicate PastFloor(t: Thread) {
    t.pc.Consult? || t.pc.Insert? || t.pc.ReadWinner?
    || (t.pc.Done? && (t.pc.result.Approved? || t.pc.result.Unpaid? || t.pc.result.Raised?))
  }

  predicate PastClock(t: Thread) {
    PastFloor(t) || t.pc.ReadFloor? || (t.pc.Done? && t.pc.result.Expired?)
  }

  predicate PastExpiry(t: Thread) {
    PastClock(t) || t.pc.ReadClock?
  }

  /** What one event makes of one call: it starts it, takes a step of it, or leaves it alone. */
  lemma EventMoves(w: World, e: Event, address: string -> string, a: nat)
    requires Enabled(w, e) && a in Next(w, e, address).threads
    ensures var t := Next(w, e, address).threads[a];
      if a !in w.threads then t.pc.ReadApproval?
      else if e.Advance? && e.id == a then
        t == Step(w.threads[a], w.db, w.now, |w.quotes|, |w.expiries|, address(w.threads[a].requestId), e.history).0
      else t == w.threads[a]
    ensures w.quotes <= Next(w, e, address).quotes && w.expiries <= Next(w, e, address).expiries
  {
    hide Step;
  }

  /** A call that is past a reading took it at some step of the run, and holds what it read there. */
  lemma {:induction false} ExpiryStep(ws: seq<World>, es: seq<Event>, address: string -> string, i: nat, a: nat)
    returns (k: nat)
    requires Run(ws, es, address) && i < |ws| && a in ws[i].threads && PastExpiry(ws[i].threads[a])
    ensures k < i && Took(ws, es, a, k, ReadExpiry)
    ensures ws[i].threads[a].expiryAt == |ws[k].expiries|
    ensures ws[i].threads[a].requestId == ws[k].threads[a].requestId
  {
    hide Next, OnchainPaid;
    k := i - 1;
    EventMoves(ws[k], es[k], address, a);
    if !Took(ws, es, a, k, ReadExpiry) {
      k := ExpiryStep(ws, es, address, i - 1, a);
    }
  }

  lemma {:induction false} ClockStep(ws: seq<World>, es: seq<Event>, address: string -> string, i: nat, a: nat)
    returns (k: nat)
    requires Run(ws, es, address) && i < |ws| && a in ws[i].threads && PastClock(ws[i].threads[a])
    requires ws[i].threads[a].expiry.Some?
    ensures k < i && Took(ws, es, a, k, ReadClock) && ws[i].threads[a].clock == ws[k].now
  {
    hide Next, OnchainPaid;
    k := i - 1;
    EventMoves(ws[k], es[k], address, a);
    if !Took(ws, es, a, k, ReadClock) {
      k := ClockStep(ws, es, address, i - 1, a);
    }
  }

  lemma {:induction false} FloorStep(ws: seq<World>, es: seq<Event>, address: string -> string, i: nat, a: nat)
    returns (k: nat)
    requires Run(ws, es, address) && i < |ws| && a in ws[i].threads && PastFloor(ws[i].threads[a])
    ensures k < i && Took(ws, es, a, k, ReadFloor)
    ensures ws[i].threads[a].floorAt == |ws[k].quotes| && ws[k].quotes <= ws[i].quotes
  {
    hide Next, OnchainPaid;
    k := i - 1;
    EventMoves(ws[k], es[k], address, a);
    if !Took(ws, es, a, k, ReadFloor) {
      k := FloorStep(ws, es, address, i - 1, a);
    }
  }

  lemma {:induction false} ConsultStep(ws: seq<World>, es: seq<Event>, address: string -> string, i: nat, a: nat)
    returns (k: nat)
    requires Run(ws, es, address) && i < |ws| && a in ws[i].threads && PastFloor(ws[i].threads[a])
    requires !ws[i].threads[a].pc.Consult? && ws[i].threads[a].onchain
    ensures k < i && Took(ws, es, a, k, Consult)
    ensures var t := ws[i].threads[a];
      OnchainPaid(es[k].history, address(t.requestId), t.amount) ==
      match t.pc
      case Done(Unpaid) => Unseen
      case Done(Raised) => HistoryRaises
      case _ => Tx(t.tx)
  {
    hide Next, OnchainPaid;
    k := i - 1;
    EventMoves(ws[k], es[k], address, a);
    if !Took(ws, es, a, k, Consult) {
      k := ConsultStep(ws, es, address, i - 1, a);
    }
  }

  lemma {:induction false} ExpiriesGrow(ws: seq<World>, es: seq<Event>, address: string -> string, i: nat, j: nat)
    requires Run(ws, es, address) && i <= j < |ws|
    ensures ws[i].expiries <= ws[j].expiries
    decreases j
  {
    if i < j {
      ExpiriesGrow(ws, es, address, i, j - 1);
    }
  }

  /** The expiry a call read is the last one set before the step it read it at. */
  lemma ExpiryRead(ws: seq<World>, es: seq<Event>, address: string -> string, i: nat, a: nat) returns (e: nat)
    requires Run(ws, es, address) && i < |ws| && a in ws[i].threads && PastExpiry(ws[i].threads[a])
    ensures e < i && Took(ws, es, a, e, ReadExpiry)
    ensures ws[i].threads[a].expiry == LastExpiry(ws[e].expiries, ws[i].threads[a].requestId)
  {
    InvThroughout(ws, es, address, i);
    e := ExpiryStep(ws, es, address, i, a);
    ExpiriesGrow(ws, es, address, e, i);
    assert ws[i].expiries[..ws[i].threads[a].expiryAt] == ws[e].expiries;
  }

  /** What an approval rests on, step by step of the run: the amount the caller named or, if that is
      more, the highest price recorded before the call read the floor; an entry of the history it
      consulted that pays that amount to the one-time address and has the hash approved; and a
      clock that had not passed the last expiry set before the call read it. */
  lemma ApprovalIsEarned(ws: seq<World>, es: seq<Event>, address: string -> string, i: nat, a: nat)
    returns (e: nat, c: nat, f: nat, h: nat)
    requires Run(ws, es, address) && i < |ws| && a in ws[i].threads && IsApproved(ws[i].threads[a])
    ensures var t := ws[i].threads[a];
      && t.requestId in ws[i].db.approvals
      && ws[i].db.approvals[t.requestId] == Approval(t.tx, address(t.requestId), t.amount)
      && t.named <= t.amount
    ensures f < i && Took(ws, es, a, f, ReadFloor)
    ensures var t := ws[i].threads[a];
      t.amount == Max(t.named, Floor(ws[f].quotes, t.requestId).GetOr(t.named))
    ensures forall q | q in ws[f].quotes && q.requestId == ws[i].threads[a].requestId ::
              q.price <= ws[i].threads[a].amount
    ensures e < i && Took(ws, es, a, e, ReadExpiry)
    ensures var expiry := LastExpiry(ws[e].expiries, ws[i].threads[a].requestId);
      expiry.Some? ==> c < i && Took(ws, es, a, c, ReadClock) && ws[c].now <= expiry.value
    ensures var t := ws[i].threads[a];
      t.onchain ==>
        && h < i && Took(ws, es, a, h, Consult) && es[h].history.Some?
        && exists x | x in es[h].history.value ::
             && x.amount.Some? && x.amount.value >= t.amount && x.hash == Some(t.tx)
             && (x.kind == "receive" || (x.kind == "send" && x.account == address(t.requestId)))
    ensures !ws[i].threads[a].onchain ==> ws[i].threads[a].tx == "simulated"
  {
    hide Next, OnchainPaid;
    c, h := 0, 0;
    var t := ws[i].threads[a];
    InvThroughout(ws, es, address, i);
    f := FloorStep(ws, es, address, i, a);
    assert forall k | 0 <= k < |ws[f].quotes| :: ws[i].quotes[k] == ws[f].quotes[k];
    assert ws[i].quotes[..t.floorAt] == ws[f].quotes;
    e := ExpiryRead(ws, es, address, i, a);
    if t.expiry.Some? {
      c := ClockStep(ws, es, address, i, a);
    }
    if t.onchain {
      h := ConsultStep(ws, es, address, i, a);
      PaidEntry(es[h].history, address(t.requestId), t.amount);
    }
  }

  lemma PaidEntry(history: Option<seq<Entry>>, address: string, amount: int)
    requires OnchainPaid(history, address, amount).Tx?
    ensures history.Some? && exists x | x in history.value ::
              Pays(x, address, amount) && x.hash == Some(OnchainPaid(history, address, amount).hash)
  {
    FirstDecidingSplits(history.value, address, amount);
  }

  /** And what a refusal rests on: "expired" on a clock past the last expiry set before the call read
      it, "pending" and an exception on the history it consulted, which shows no payment with a
      hash before the first entry that decides, or an amount it cannot read. */
  lemma RefusalIsEarned(ws: seq<World>, es: seq<Event>, address: string -> string, i: nat, a: nat)
    returns (e: nat, c: nat, h: nat)
    requires Run(ws, es, address) && i < |ws| && a in ws[i].threads && ws[i].threads[a].pc.Done?
    ensures var t := ws[i].threads[a];
      t.pc.result.Expired? ==>
        && e < i && Took(ws, es, a, e, ReadExpiry) && c < i && Took(ws, es, a, c, ReadClock)
        && LastExpiry(ws[e].expiries, t.requestId).Some?
        && ws[c].now > LastExpiry(ws[e].expiries, t.requestId).value
    ensures var t := ws[i].threads[a];
      t.pc.result.Unpaid? ==>
        && t.onchain && h < i && Took(ws, es, a, h, Consult)
        && OnchainPaid(es[h].history, address(t.requestId), t.amount) == Unseen
    ensures var t := ws[i].threads[a];
      t.pc.result.Raised? ==>
        && t.onchain && h < i && Took(ws, es, a, h, Consult)
        && OnchainPaid(es[h].history, address(t.requestId), t.amount) == HistoryRaises
  {
    hide Next, OnchainPaid;
    e, c, h := 0, 0, 0;
    var t := ws[i].threads[a];
    InvThroughout(ws, es, address, i);
    OnlyOnchainRefuses(ws, es, address, i, a);
    if t.pc.result.Expired? {
      e := ExpiryRead(ws, es, address, i, a);
      c := ClockStep(ws, es, address, i, a);
    } else if t.pc.result.Unpaid? || t.pc.result.Raised? {
      h := ConsultStep(ws, es, address, i, a);
    }
  }

  lemma {:induction false} OnlyOnchainRefuses(ws: seq<World>, es: seq<Event>, address: string -> string, i: nat, a: nat)
    requires Run(ws, es, address) && i < |ws| && a in ws[i].threads
    ensures ws[i].threads[a].pc.Done? && (ws[i].threads[a].pc.result.Unpaid? || ws[i].threads[a].pc.result.Raised?) ==>
              ws[i].threads[a].onchain
  {
    hide Next, OnchainPaid;
    if i > 0 {
      EventMoves(ws[i - 1], es[i - 1], address, a);
      if a in ws[i - 1].threads {
        OnlyOnchainRefuses(ws, es, address, i - 1, a);
      }
    }
  }

  /** What was recorded is there: every price a quote recorded is covered by the floor ever after,
      and an expiry set is stored until another is set for the same request id. */
  lemma {:induction false} QuotesAreStored(ws: seq<World>, es: seq<Event>, address: string -> string, k: nat, i: nat)
    requires Run(ws, es, address) && k < i < |ws|
    ensures es[k].PriceQuoted? ==>
              es[k].requestId in ws[i].db.price && es[k].price <= ws[i].db.price[es[k].requestId]
    ensures es[k].ExpirySet? && (forall j | k < j < i :: es[j].ExpirySet? ==> es[j].requestId != es[k].requestId) ==>
              es[k].requestId in ws[i].db.expiry && ws[i].db.expiry[es[k].requestId] == es[k].expiresAt
  {
    hide OnchainPaid;
    if k + 1 < i {
      QuotesAreStored(ws, es, address, k, i - 1);
    }
  }

  /** The stored floor is the maximum of 0 and all prices recorded for the request id; there is
      one exactly when a price was recorded. */
  lemma FloorIsKept(ws: seq<World>, es: seq<Event>, address: string -> string, i: nat, requestId: string)
    requires Run(ws, es, address) && i < |ws|
    ensures requestId in ws[i].db.price <==> exists q | q in ws[i].quotes :: q.requestId == requestId
    ensures requestId in ws[i].db.price ==>
              var floor := ws[i].db.price[requestId];
              && floor >= 0
              && (forall q | q in ws[i].quotes && q.requestId == requestId :: q.price <= floor)
              && (floor == 0 || exists q | q in ws[i].quotes :: q.requestId == requestId && q.price == floor)
  {
    InvThroughout(ws, es, address, i);
    assert Lookup(ws[i].db.price, requestId) == Floor(ws[i].quotes, requestId);
    FloorIsMaximum(ws[i].quotes, requestId);
  }

  /** The stored expiry of each request id is the last one set for it, whatever was set for others,
      and there is one exactly when one was set. */
  lemma ExpiryIsKept(ws: seq<World>, es: seq<Event>, address: string -> string, i: nat, requestId: string)
    requires Run(ws, es, address) && i < |ws|
    ensures requestId in ws[i].db.expiry <==> exists x | x in ws[i].expiries :: x.requestId == requestId
    ensures requestId in ws[i].db.expiry ==>
              exists j: nat :: IsLast(ws[i].expiries, requestId, j)
                               && ws[i].db.expiry[requestId] == ws[i].expiries[j].expiresAt
  {
    InvThroughout(ws, es, address, i);
    assert Lookup(ws[i].db.expiry, requestId) == LastExpiry(ws[i].expiries, requestId);
    LastExpiryIs(ws[i].expiries, requestId);
  }

  /** It never falls and is never dropped. */
  lemma {:induction false} FloorNeverFalls(ws: seq<World>, es: seq<Event>, address: string -> string,
                                           i: nat, j: nat, requestId: string)
    requires Run(ws, es, address) && i <= j < |ws| && requestId in ws[i].db.price
    ensures requestId in ws[j].db.price && ws[i].db.price[requestId] <= ws[j].db.price[requestId]
    decreases j
  {
    if i < j {
      FloorNeverFalls(ws, es, address, i, j - 1, requestId);
    }
  }

  // ---- the call as the program writes it ----

  function Rank(pc: Pc): nat {
    match pc
    case ReadApproval => 7
    case ReadExpiry => 6
    case ReadClock => 5
    case ReadFloor => 4
    case Consult => 3
    case Insert => 2
    case ReadWinner => 1
    case Done(_) => 0
  }

  /** A call that nothing interrupts: its steps to the end. */
  function Alone(t: Thread, db: Db, now: real, address: string, history: Option<seq<Entry>>): (Result, Db)
    decreases Rank(t.pc)
  {
    if t.pc.Done? then (t.pc.result, db) else
    var (t', db') := Step(t, db, now, 0, 0, address, history);
    Alone(t', db', now, address, history)
  }

  /** What a call answers when nobody else touches the store. */
  function Answer(db: Db, requestId: string, named: int, onchain: bool, now: real, address: string,
                  history: Option<seq<Entry>>): (Result, Db)
  {
    var expiry := Lookup(db.expiry, requestId);
    var amount := Max(named, Lookup(db.price, requestId).GetOr(named));
    var found := if onchain then OnchainPaid(history, address, amount) else Tx("simulated");
    if requestId in db.approvals then (Spent(db.approvals[requestId].tx), db)
    else if expiry.Some? && now > expiry.value then (Expired, db)
    else if found.Unseen? then (Unpaid, db)
    else if found.HistoryRaises? then (Raised, db)
    else (Approved(found.hash), Approve(db, requestId, Approval(found.hash, address, amount)).1)
  }

  lemma AloneStep(t: Thread, db: Db, now: real, address: string, history: Option<seq<Entry>>)
    requires !t.pc.Done?
    ensures var (t', db') := Step(t, db, now, 0, 0, address, history);
      && Alone(t, db, now, address, history) == Alone(t', db', now, address, history)
      && (t'.pc.Done? ==> Alone(t', db', now, address, history) == (t'.pc.result, db'))
  {
  }

  lemma AloneFromFloor(t: Thread, db: Db, now: real, address: string, history: Option<seq<Entry>>)
    requires t.pc.ReadFloor? && t.requestId !in db.approvals
    ensures var amount := Max(t.amount, Lookup(db.price, t.requestId).GetOr(t.amount));
      var found := if t.onchain then OnchainPaid(history, address, amount) else Tx("simulated");
      Alone(t, db, now, address, history) ==
      if found.Unseen? then (Unpaid, db)
      else if found.HistoryRaises? then (Raised, db)
      else (Approved(found.hash), Approve(db, t.requestId, Approval(found.hash, address, amount)).1)
  {
    hide OnchainPaid, FirstDeciding, Alone;
    AloneStep(t, db, now, address, history);
    var t1 := Step(t, db, now, 0, 0, address, history).0;
    AloneStep(t1, db, now, address, history);
    var t2 := Step(t1, db, now, 0, 0, address, history).0;
    if !t2.pc.Done? {
      AloneStep(t2, db, now, address, history);
    }
  }

  /** The thread's steps, uninterrupted, give that answer. */
  lemma AloneAnswers(db: Db, requestId: string, named: int, onchain: bool, now: real, address: string,
                     history: Option<seq<Entry>>)
    ensures Alone(NewThread(requestId, named, onchain), db, now, address, history)
            == Answer(db, requestId, named, onchain, now, address, history)
  {
    hide OnchainPaid, FirstDeciding, Alone;
    var t := NewThread(requestId, named, onchain);
    AloneStep(t, db, now, address, history);
    if requestId !in db.approvals {
      var t1 := Step(t, db, now, 0, 0, address, history).0;
      AloneStep(t1, db, now, address, history);
      var t2 := Step(t1, db, now, 0, 0, address, history).0;
      if t2.pc.ReadFloor? {
        AloneFromFloor(t2, db, now, address, history);
      } else {
        AloneStep(t2, db, now, address, history);
        var t3 := Step(t2, db, now, 0, 0, address, history).0;
        if t3.pc.ReadFloor? {
          AloneFromFloor(t3, db, now, address, history);
        }
      }
    }
  }

  /** `verify_payment`. Its answer to a lost insert is the `ReadWinner` step; here, with nobody to
      lose it to, that branch is dead. */
  method VerifyPayment(store: ApprovalStore, requestId: string, amountRaw: int, onchain: bool,
                       now: real, address: string, history: Option<seq<Entry>>) returns (result: Result)
    modifies store`approvals
    ensures amountRaw < 0 ==> result == Raised && store.Contents() == old(store.Contents())
    ensures amountRaw >= 0 ==>
              (result, store.Contents()) ==
              Answer(old(store.Contents()), requestId, amountRaw, onchain, now, address, history)
  {
    hide OnchainPaid;
    if amountRaw < 0 {
      return Raised;
    }
    var existing := store.Get(requestId);
    if existing.Some? {
      return Spent(existing.value.tx);
    }
    var expiry := store.QuoteExpiry(requestId);
    if expiry.Some? && now > expiry.value {
      return Expired;
    }
    var amount := amountRaw;
    var quoted := store.QuotePrice(requestId);
    if quoted.Some? && quoted.value > amount {
      amount := quoted.value;
    }
    var tx := "simulated";
    if onchain {
      var found := FindPayment(history, address, amount);
      match found
      case Unseen => return Unpaid;
      case HistoryRaises => return Raised;
      case Tx(hash) => tx := hash;
    }
    var claimed := store.Claim(requestId, tx, address, amount);
    if !claimed {
      assert false;
    }
    return Approved(tx);
  }
}
