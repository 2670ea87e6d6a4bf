/** The spending guards of the wallet, over whole runs in which the clock is read at several
    points of one send and never goes back. */
module Spending {
  import opened Text
  import opened Json
  import opened Addresses

  const DAY := 86400

  // ---- what was sent, and when ----

  /** An accepted send: the day its cap check read, the days its recording read first and second,
      and its amount. It is filed under the day of the second reading, in the counter that the
      first one leaves. */
  datatype Accepted = Accepted(guardDay: nat, firstDay: nat, secondDay: nat, amount: int)

  datatype Reading = Guard | First | Second

  function DayOf(entry: Accepted, reading: Reading): nat {
    match reading
    case Guard => entry.guardDay
    case First => entry.firstDay
    case Second => entry.secondDay
  }

  /** What the accepted sends of one day total, with the day taken at this reading. */
  function DayTotal(log: seq<Accepted>, reading: Reading, day: nat): int {
    if log == [] then 0 else
    var last := log[|log| - 1];
    DayTotal(log[..|log| - 1], reading, day) + if DayOf(last, reading) == day then last.amount else 0
  }

  function Total(log: seq<Accepted>): int {
    if log == [] then 0 else Total(log[..|log| - 1]) + log[|log| - 1].amount
  }

  function Max0(cap: int): int {
    if cap < 0 then 0 else cap
  }

  /** Every day's sends, the day taken at this reading, stay within the cap. */
  ghost predicate WithinCap(cap: int, log: seq<Accepted>, reading: Reading) {
    forall day :: DayTotal(log, reading, day) <= Max0(cap)
  }

  /** The days of a send are read in order, and its amount is positive. */
  ghost predicate Orderly(log: seq<Accepted>) {
    forall i | 0 <= i < |log| :: log[i].guardDay <= log[i].firstDay <= log[i].secondDay && log[i].amount > 0
  }

  /** No accepted send read two different days while it was recorded. */
  ghost predicate Steady(log: seq<Accepted>) {
    forall i | 0 <= i < |log| :: log[i].firstDay == log[i].secondDay
  }

  lemma Appended(log: seq<Accepted>, entry: Accepted, reading: Reading, day: nat)
    ensures DayTotal(log + [entry], reading, day)
            == DayTotal(log, reading, day) + if DayOf(entry, reading) == day then entry.amount else 0
    ensures Total(log + [entry]) == Total(log) + entry.amount
  {
    assert (log + [entry])[..|log + [entry]| - 1] == log;
  }

  lemma {:induction false} NothingLater(log: seq<Accepted>, reading: Reading, day: nat)
    requires forall i | 0 <= i < |log| :: DayOf(log[i], reading) < day
    ensures DayTotal(log, reading, day) == 0
  {
    if log != [] {
      NothingLater(log[..|log| - 1], reading, day);
    }
  }

  lemma {:induction false} TotalsPositive(log: seq<Accepted>, reading: Reading, day: nat)
    requires Orderly(log)
    ensures DayTotal(log, reading, day) >= 0
  {
    if log != [] {
      TotalsPositive(log[..|log| - 1], reading, day);
    }
  }

  /** On a day no first reading has passed, every send guarded was also first read. */
  lemma {:induction false} GuardedAreRead(log: seq<Accepted>, day: nat)
    requires Orderly(log) && forall i | 0 <= i < |log| :: log[i].firstDay <= day
    ensures DayTotal(log, Guard, day) <= DayTotal(log, First, day)
  {
    if log != [] {
      GuardedAreRead(log[..|log| - 1], day);
    }
  }

  lemma {:induction false} SteadyTotals(log: seq<Accepted>, day: nat)
    requires Steady(log)
    ensures DayTotal(log, First, day) == DayTotal(log, Second, day)
  {
    if log != [] {
      SteadyTotals(log[..|log| - 1], day);
    }
  }

  lemma DayMonotone(a: nat, b: nat)
    requires a <= b
    ensures a / DAY <= b / DAY
  {
  }

  // ---- the sum of the counters ----

  /** sum(spend.values()), taken in the order of the keys. */
  function Sum(spend: map<nat, int>): int
    decreases |spend|
  {
    if spend == map[] then 0 else
    Smaller(spend, Least(spend.Keys));
    spend[Least(spend.Keys)] + Sum(spend - {Least(spend.Keys)})
  }

  function Least(keys: set<nat>): (k: nat)
    requires keys != {}
    ensures k in keys && forall j | j in keys :: k <= j
  {
    LeastKey(keys);
    var k :| k in keys && forall j | j in keys :: k <= j;
    k
  }

  lemma Smaller(spend: map<nat, int>, k: nat)
    requires k in spend
    ensures |spend - {k}| < |spend|
  {
    assert spend.Keys == (spend - {k}).Keys + {k};
  }

  lemma {:induction false} LeastOf(keys: set<nat>) returns (least: nat)
    requires keys != {}
    ensures least in keys && forall j | j in keys :: least <= j
  {
    least :| least in keys;
    var others := keys - {least};
    if others != {} {
      var least' := LeastOf(others);
      least := if least <= least' then least else least';
    }
    assert forall j | j in keys :: j in others || least <= j;
  }

  lemma LeastKey(keys: set<nat>)
    requires keys != {}
    ensures exists k :: k in keys && forall j | j in keys :: k <= j
  {
    var k := LeastOf(keys);
  }

  /** The sum does not depend on the order the values are added in. */
  lemma {:induction false} SumWithout(spend: map<nat, int>, k: nat)
    requires k in spend
    ensures Sum(spend) == spend[k] + Sum(spend - {k})
    decreases |spend|
  {
    var least := Least(spend.Keys);
    if least != k {
      assert spend.Keys == (spend - {least}).Keys + {least};
      assert spend.Keys == (spend - {k}).Keys + {k};
      SumWithout(spend - {least}, k);
      SumWithout(spend - {k}, least);
      assert spend - {least} - {k} == spend - {k} - {least};
    }
  }

  lemma SumAdd(spend: map<nat, int>, day: nat, raw: int)
    ensures Sum(spend[day := (if day in spend then spend[day] else 0) + raw]) == Sum(spend) + raw
  {
    var spend' := spend[day := (if day in spend then spend[day] else 0) + raw];
    SumWithout(spend', day);
    if day in spend {
      SumWithout(spend, day);
      assert spend' - {day} == spend - {day};
    } else {
      assert spend' - {day} == spend;
    }
  }

  // ---- the wallet ----

  /** `_spend` and `_day`. */
  datatype Counter = Counter(spend: map<nat, int>, day: nat)

  /** `_today` at clock reading `now`. */
  function Today(c: Counter, now: nat): Counter {
    if now / DAY != c.day then Counter(map[], now / DAY) else c
  }

  function Available(cap: int, c: Counter): int {
    Max0(cap - Sum(c.spend))
  }

  /** `_record_send`, which reads the clock twice. */
  function Record(c: Counter, raw: int, first: nat, second: nat): Counter {
    var today := Today(c, first);
    var day := second / DAY;
    today.(spend := today.spend[day := (if day in today.spend then today.spend[day] else 0) + raw])
  }

  const DEFAULT_REPRESENTATIVE := "nano_1stofnrxuz3cai7ze75o174bpm7scwj9jn3nxsn8ntzg784jf1gzn1jjdkou"

  /** What a wallet is set up with: its cap, the representative it insists on, if any, and the
      address checksum. */
  datatype Policy = Policy(cap: int, representative: Option<string>, checksum: seq<byte> -> seq<byte>)

  /** `_block_representative`: what the block will name, or None where it raises. */
  function BlockRepresentative(p: Policy, reported: Json): Option<string> {
    if p.representative.Some? then
      if ValidAddress(p.checksum, p.representative.value) then p.representative else None
    else match reported
      case Null => Some(DEFAULT_REPRESENTATIVE)
      case Str(s) =>
        if Strip(s) == "" then Some(DEFAULT_REPRESENTATIVE)
        else if ValidAddress(p.checksum, s) then Some(s) else None
      case _ => None
  }

  datatype SendResult =
    | Sent
    | BadDestination
    | NodeUnusable
    | BadRepresentative
    | NotRaw
    | NotPositive
    | Insufficient
    | OverCap
    | NotBuilt
    | NotPublished

  /** The node's account_info, once its balance and frontier could be read. */
  datatype Info = Info(balance: int, representative: Json)

  /** One call of `send`: its arguments, the node's account_info if usable, whether work and the
      block came about and whether the node took the block, and what the clock says at the cap
      check, in the refusal message and at the two readings of the recording. */
  datatype Send = Send(destination: string, amount: Json, info: Option<Info>, built: bool, taken: bool,
                       guard: nat, message: nat, first: nat, second: nat)

  function SendEffect(p: Policy, c: Counter, s: Send): (SendResult, Counter) {
    if !ValidAddress(p.checksum, s.destination) then (BadDestination, c)
    else if s.info.None? then (NodeUnusable, c)
    else if BlockRepresentative(p, s.info.value.representative).None? then (BadRepresentative, c)
    else if !s.amount.Int? then (NotRaw, c)
    else if s.amount.i <= 0 then (NotPositive, c)
    else if s.amount.i > s.info.value.balance then (Insufficient, c)
    else
      var today := Today(c, s.guard);
      if s.amount.i > Available(p.cap, today) then (OverCap, Today(today, s.message))
      else if !s.built then (NotBuilt, today)
      else if !s.taken then (NotPublished, today)
      else (Sent, Record(today, s.amount.i, s.first, s.second))
  }

  class Wallet {
    const policy: Policy
    var spend: map<nat, int>
    var day: nat

    constructor (policy: Policy, now: nat)
      ensures this.policy == policy && spend == map[] && day == now / DAY
    {
      this.policy, spend, day := policy, map[], now / DAY;
    }

    function Contents(): Counter
      reads this
    {
      Counter(spend, day)
    }

    method RollToday(now: nat)
      modifies this`spend, this`day
      ensures Contents() == Today(old(Contents()), now)
    {
      var today := now / DAY;
      if today != day {
        day := today;
        spend := map[];
      }
    }

    method RecordSend(raw: int, first: nat, second: nat)
      modifies this`spend, this`day
      ensures Contents() == Record(old(Contents()), raw, first, second)
    {
      RollToday(first);
      var today := second / DAY;
      spend := spend[today := (if today in spend then spend[today] else 0) + raw];
    }

    method AvailableToday(now: nat) returns (left: int)
      modifies this`spend, this`day
      ensures Contents() == Today(old(Contents()), now) && left == Available(policy.cap, Contents())
    {
      RollToday(now);
      var sent := Sum(spend);
      left := if policy.cap - sent < 0 then 0 else policy.cap - sent;
    }

    /** The pipeline: every guard comes before any work is done on the block, and the spend is
        recorded only once the node has taken it. */
    method SendRaw(s: Send) returns (result: SendResult)
      modifies this`spend, this`day
      ensures (result, Contents()) == SendEffect(policy, old(Contents()), s)
    {
      if !ValidAddress(policy.checksum, s.destination) {
        return BadDestination;
      }
      if s.info.None? {
        return NodeUnusable;
      }
      var representative := BlockRepresentative(policy, s.info.value.representative);
      if representative.None? {
        return BadRepresentative;
      }
      if !s.amount.Int? {
        return NotRaw;
      }
      var raw := s.amount.i;
      if raw <= 0 {
        return NotPositive;
      }
      if raw > s.info.value.balance {
        return Insufficient;
      }
      var left := AvailableToday(s.guard);
      if raw > left {
        RollToday(s.message);
        return OverCap;
      }
      if !s.built {
        return NotBuilt;
      }
      if !s.taken {
        return NotPublished;
      }
      RecordSend(raw, s.first, s.second);
      return Sent;
    }
  }

  // ---- runs of one wallet ----

  /** A wallet in use: its counter, the last clock reading, and the sends accepted so far. */
  datatype WalletRun = WalletRun(c: Counter, clock: nat, log: seq<Accepted>)

  datatype WalletOp = Look(now: nat) | DoSend(s: Send)

  /** The clock never goes back, within one operation or from one to the next. */
  predicate InOrder(w: WalletRun, op: WalletOp) {
    match op
    case Look(now) => w.clock <= now
    case DoSend(s) => w.clock <= s.guard <= s.message && s.guard <= s.first <= s.second && s.message <= s.second
  }

  function WalletNext(p: Policy, w: WalletRun, op: WalletOp): WalletRun {
    match op
    case Look(now) => w.(c := Today(w.c, now), clock := now)
    case DoSend(s) =>
      var (result, c) := SendEffect(p, w.c, s);
      WalletRun(c, s.second, if result.Sent? then w.log + [EntryOf(s)] else w.log)
  }

  /** The entry an accepted send leaves in the log. */
  function EntryOf(s: Send): Accepted {
    Accepted(s.guard / DAY, s.first / DAY, s.second / DAY, if s.amount.Int? then s.amount.i else 0)
  }

  /** The counters hold exactly what was first read on their day, whatever day it is filed under. */
  ghost predicate WalletInv(cap: int, w: WalletRun) {
    && w.c.day <= w.clock / DAY
    && Orderly(w.log) && (forall i | 0 <= i < |w.log| :: w.log[i].firstDay <= w.c.day)
    && DayTotal(w.log, First, w.c.day) == Sum(w.c.spend)
    && WithinCap(cap, w.log, Guard) && WithinCap(cap, w.log, First)
  }

  lemma TodayKeeps(cap: int, w: WalletRun, now: nat)
    requires WalletInv(cap, w) && w.clock <= now
    ensures WalletInv(cap, WalletRun(Today(w.c, now), now, w.log)) && Today(w.c, now).day == now / DAY
  {
    DayMonotone(w.clock, now);
    if now / DAY != w.c.day {
      NothingLater(w.log, First, now / DAY);
    }
  }

  /** The step that matters: an accepted amount fits under the cap of its guard day and of the
      day its recording reads first, and stays counted while that day can be checked again. */
  lemma AcceptedKeeps(cap: int, w: WalletRun, entry: Accepted, first: nat, second: nat)
    requires WalletInv(cap, w) && w.c.day == entry.guardDay
    requires entry.guardDay <= first / DAY == entry.firstDay <= second / DAY == entry.secondDay
    requires 0 < entry.amount <= Available(cap, w.c)
    ensures WalletInv(cap, WalletRun(Record(w.c, entry.amount, first, second), second, w.log + [entry]))
  {
    hide Sum, DayTotal;
    var log := w.log + [entry];
    var today := Today(w.c, first);
    SumAdd(today.spend, second / DAY, entry.amount);
    GuardedAreRead(w.log, w.c.day);
    TotalsPositive(w.log, First, w.c.day);
    Appended(w.log, entry, First, today.day);
    if today.day != w.c.day {
      NothingLater(w.log, First, today.day);
      EmptySum();
    }
    forall day
      ensures DayTotal(log, Guard, day) <= Max0(cap) && DayTotal(log, First, day) <= Max0(cap)
    {
      Appended(w.log, entry, Guard, day);
      Appended(w.log, entry, First, day);
      assert DayTotal(w.log, Guard, day) <= Max0(cap) && DayTotal(w.log, First, day) <= Max0(cap);
    }
  }

  lemma EmptySum()
    ensures Sum(map[]) == 0
  {
  }

  lemma WalletInvHolds(p: Policy, w: WalletRun, op: WalletOp)
    requires WalletInv(p.cap, w) && InOrder(w, op)
    ensures WalletInv(p.cap, WalletNext(p, w, op))
  {
    hide Sum, DayTotal, ValidAddress, BlockRepresentative, WithinCap;
    match op
    case Look(now) =>
      TodayKeeps(p.cap, w, now);
    case DoSend(s) =>
      DayMonotone(w.clock, s.second);
      DayMonotone(s.message, s.second);
      DayMonotone(s.guard, s.first);
      DayMonotone(s.first, s.second);
      TodayKeeps(p.cap, w, s.guard);
      var today := WalletRun(Today(w.c, s.guard), s.guard, w.log);
      TodayKeeps(p.cap, today, s.message);
      if SendEffect(p, w.c, s).0.Sent? {
        AcceptedKeeps(p.cap, today, EntryOf(s), s.first, s.second);
      }
  }

  /** A run of one wallet from its construction. */
  ghost predicate WalletRunOf(p: Policy, ws: seq<WalletRun>, ops: seq<WalletOp>) {
    && |ws| == |ops| + 1
    && ws[0].c == Counter(map[], ws[0].clock / DAY) && ws[0].log == []
    && forall i | 0 <= i < |ops| :: InOrder(ws[i], ops[i]) && ws[i + 1] == WalletNext(p, ws[i], ops[i])
  }

  lemma {:induction false} WalletInvThroughout(p: Policy, ws: seq<WalletRun>, ops: seq<WalletOp>, i: nat)
    requires WalletRunOf(p, ws, ops) && i < |ws|
    ensures WalletInv(p.cap, ws[i])
  {
    if i > 0 {
      WalletInvThroughout(p, ws, ops, i - 1);
      WalletInvHolds(p, ws[i - 1], ops[i - 1]);
    }
  }

  /** For each day, the accepted sends whose guard passed on that day total at most the cap,
      those that straddle midnight included; and so do those whose recording first read it. */
  lemma WalletDailyCap(p: Policy, ws: seq<WalletRun>, ops: seq<WalletOp>, i: nat, day: nat)
    requires WalletRunOf(p, ws, ops) && i < |ws|
    ensures DayTotal(ws[i].log, Guard, day) <= Max0(p.cap)
    ensures DayTotal(ws[i].log, First, day) <= Max0(p.cap)
  {
    WalletInvThroughout(p, ws, ops, i);
  }

  /** Everything a send needs apart from the cap: addresses that check, a usable node answer, a
      positive whole amount the balance covers, and a block built and taken. */
  predicate Ready(p: Policy, s: Send) {
    && ValidAddress(p.checksum, s.destination) && s.info.Some?
    && BlockRepresentative(p, s.info.value.representative).Some?
    && s.amount.Int? && 0 < s.amount.i <= s.info.value.balance
    && s.built && s.taken
  }

  /** And the guard refuses no more than that: at any point of any run, a send that has all else
      it needs goes through exactly when it fits beside what was first read on its guard day. */
  lemma WalletAcceptsIff(p: Policy, ws: seq<WalletRun>, ops: seq<WalletOp>, i: nat)
    requires WalletRunOf(p, ws, ops) && i < |ops| && ops[i].DoSend?
    ensures var s := ops[i].s;
      SendEffect(p, ws[i].c, s).0.Sent? <==>
        Ready(p, s) && DayTotal(ws[i].log, First, s.guard / DAY) + s.amount.i <= p.cap
  {
    hide Sum, DayTotal, WalletNext, ValidAddress, BlockRepresentative;
    WalletInvThroughout(p, ws, ops, i);
    TodayKeeps(p.cap, ws[i], ops[i].s.guard);
  }

  /** Which refusal a send gets: each is true of the send or of what was sent before. */
  lemma WalletRefusalIs(p: Policy, ws: seq<WalletRun>, ops: seq<WalletOp>, i: nat)
    requires WalletRunOf(p, ws, ops) && i < |ops| && ops[i].DoSend?
    ensures var s, log, result := ops[i].s, ws[i].log, SendEffect(p, ws[i].c, ops[i].s).0;
      && (result.BadDestination? ==> !ValidAddress(p.checksum, s.destination))
      && (result.NodeUnusable? ==> s.info.None?)
      && (result.BadRepresentative? ==>
            s.info.Some? && BlockRepresentative(p, s.info.value.representative).None?)
      && (result.NotRaw? ==> !s.amount.Int?)
      && (result.NotPositive? ==> s.amount.Int? && s.amount.i <= 0)
      && (result.Insufficient? ==> s.amount.Int? && s.info.Some? && s.amount.i > s.info.value.balance)
      && (result.OverCap? ==> s.amount.Int? && DayTotal(log, First, s.guard / DAY) + s.amount.i > p.cap)
      && (result.NotBuilt? ==> !s.built)
      && (result.NotPublished? ==> !s.taken)
  {
    hide Sum, DayTotal, WalletNext, ValidAddress, BlockRepresentative;
    WalletInvThroughout(p, ws, ops, i);
    TodayKeeps(p.cap, ws[i], ops[i].s.guard);
  }

  /** What a block may name: the wallet's own representative, or the node's, or the default where the
      node reports none; always a valid address if the default is one. */
  lemma RepresentativeIsValid(p: Policy, reported: Json)
    requires ValidAddress(p.checksum, DEFAULT_REPRESENTATIVE) && BlockRepresentative(p, reported).Some?
    ensures var rep := BlockRepresentative(p, reported).value;
      && ValidAddress(p.checksum, rep)
      && (p.representative.Some? ==> Some(rep) == p.representative)
      && (p.representative.None? && reported.Str? && ValidAddress(p.checksum, reported.s) ==> rep == reported.s)
      && (p.representative.None? && !(reported.Str? && ValidAddress(p.checksum, reported.s)) ==>
            rep == DEFAULT_REPRESENTATIVE)
  {
    hide ValidAddress;
    if reported.Str? && Strip(reported.s) == "" && p.representative.None? && ValidAddress(p.checksum, reported.s) {
      ValidIsNotBlank(p.checksum, reported.s);
    }
  }

  /** And there is one unless the wallet's own, or what the node reports, is no valid address. */
  lemma RepresentativeIff(p: Policy, reported: Json)
    ensures BlockRepresentative(p, reported).Some? <==>
      if p.representative.Some? then ValidAddress(p.checksum, p.representative.value)
      else reported == Null || (reported.Str? && (AllSpace(reported.s) || ValidAddress(p.checksum, reported.s)))
  {
    hide ValidAddress;
    if reported.Str? {
      BlankIff(reported.s);
    }
  }

  lemma BlankIff(s: string)
    ensures Strip(s) == "" <==> AllSpace(s)
  {
    if AllSpace(s) {
      SpaceStrips(s);
    } else {
      var before, after := StripSplits(s);
    }
  }

  lemma ValidIsNotBlank(checksum: seq<byte> -> seq<byte>, address: string)
    requires ValidAddress(checksum, address)
    ensures Strip(address) != ""
  {
    MatchedBody(address);
    var before, after := StripSplits(address);
    assert address[0] == 'n' || address[0] == 'x';
  }

  /** Asking what is left today answers what the cap leaves beside what was first read today. */
  lemma LookTells(p: Policy, ws: seq<WalletRun>, ops: seq<WalletOp>, i: nat)
    requires WalletRunOf(p, ws, ops) && i < |ops| && ops[i].Look?
    ensures Available(p.cap, ws[i + 1].c) == Max0(p.cap - DayTotal(ws[i].log, First, ops[i].now / DAY))
    ensures ws[i + 1].log == ws[i].log && ws[i + 1].clock == ops[i].now
  {
    hide Sum, DayTotal, SendEffect;
    WalletInvThroughout(p, ws, ops, i);
    TodayKeeps(p.cap, ws[i], ops[i].now);
  }

  // ---- counted by the day of the record ----

  /** The same send, of the whole cap and all at one clock reading. */
  function WholeCap(p: Policy, s: Send, now: nat): Send
    requires s.info.Some?
  {
    s.(amount := Int(p.cap), info := Some(s.info.value.(balance := p.cap)),
       guard := now, message := now, first := now, second := now)
  }

  /** Where the two readings of a recording fall on different days, the whole cap can be sent
      again under the second day: the amount is filed there and forgotten when that day is
      first looked at. */
  lemma StraddleBreaksCap(p: Policy, w: WalletRun, s: Send)
    requires WalletInv(p.cap, w) && InOrder(w, DoSend(s)) && SendEffect(p, w.c, s).0.Sent?
    requires s.first / DAY < s.second / DAY
    ensures var w1 := WalletNext(p, w, DoSend(s));
      var again := WholeCap(p, s, s.second);
      && InOrder(w1, DoSend(again)) && SendEffect(p, w1.c, again).0.Sent?
      && DayTotal(WalletNext(p, w1, DoSend(again)).log, Second, s.second / DAY) > Max0(p.cap)
  {
    hide Sum, DayTotal, ValidAddress, BlockRepresentative, WithinCap;
    var w1 := WalletNext(p, w, DoSend(s));
    var again := WholeCap(p, s, s.second);
    EmptySum();
    TodayKeeps(p.cap, w, s.guard);
    TotalsPositive(w.log, First, s.guard / DAY);
    assert Today(w1.c, s.second) == Counter(map[], s.second / DAY);
    Appended(w.log, EntryOf(s), Second, s.second / DAY);
    Appended(w1.log, EntryOf(again), Second, s.second / DAY);
    TotalsPositive(w.log, Second, s.second / DAY);
  }

  /** A send whose recording reads one day twice. */
  predicate RecordsOnOneDay(s: Send) {
    s.first / DAY == s.second / DAY
  }

  /** If every accepted send so far recorded on one day, so counted the cap holds, too. */
  lemma SteadyWithinCap(cap: int, w: WalletRun)
    requires WalletInv(cap, w) && Steady(w.log)
    ensures WithinCap(cap, w.log, Second)
  {
    hide DayTotal;
    forall day
      ensures DayTotal(w.log, Second, day) <= Max0(cap)
    {
      SteadyTotals(w.log, day);
    }
  }

  lemma {:induction false} Straddler(p: Policy, ws: seq<WalletRun>, ops: seq<WalletOp>, i: nat) returns (k: nat)
    requires WalletRunOf(p, ws, ops) && i < |ws| && !Steady(ws[i].log)
    ensures k < i && ops[k].DoSend? && SendEffect(p, ws[k].c, ops[k].s).0.Sent? && !RecordsOnOneDay(ops[k].s)
  {
    hide SendEffect;
    if !Steady(ws[i - 1].log) {
      k := Straddler(p, ws, ops, i - 1);
    } else {
      k := i - 1;
    }
  }

  lemma {:induction false} LogGrows(p: Policy, ws: seq<WalletRun>, ops: seq<WalletOp>, i: nat, j: nat)
    requires WalletRunOf(p, ws, ops) && i <= j < |ws|
    ensures ws[i].log <= ws[j].log
    decreases j
  {
    hide SendEffect;
    if i < j {
      LogGrows(p, ws, ops, i, j - 1);
    }
  }

  /** After this send the cap holds by the day of the record. */
  ghost predicate Harmless(p: Policy, w: WalletRun, s: Send) {
    WithinCap(p.cap, WalletNext(p, w, DoSend(s)).log, Second)
  }

  /** Exactly when the cap holds by the day an amount is recorded under: no send that records on
      one day ever takes a day past the cap, at any point of the run, if and only if every
      send accepted in the run recorded on one day. */
  lemma RecordDayHoldsIff(p: Policy, ws: seq<WalletRun>, ops: seq<WalletOp>)
    requires WalletRunOf(p, ws, ops)
    ensures Steady(ws[|ops|].log) <==>
      forall k, s | 0 <= k < |ws| && InOrder(ws[k], DoSend(s)) && RecordsOnOneDay(s) :: Harmless(p, ws[k], s)
  {
    hide WalletNext, SendEffect, Harmless, InOrder;
    if Steady(ws[|ops|].log) {
      forall k, s | 0 <= k < |ws| && InOrder(ws[k], DoSend(s)) && RecordsOnOneDay(s)
        ensures Harmless(p, ws[k], s)
      {
        SteadyIsHarmless(p, ws, ops, k, s);
      }
    } else {
      var k, s := HarmDone(p, ws, ops);
    }
  }

  lemma SteadyIsHarmless(p: Policy, ws: seq<WalletRun>, ops: seq<WalletOp>, k: nat, s: Send)
    requires WalletRunOf(p, ws, ops) && Steady(ws[|ops|].log)
    requires k < |ws| && InOrder(ws[k], DoSend(s)) && RecordsOnOneDay(s)
    ensures Harmless(p, ws[k], s)
  {
    hide WalletNext, SendEffect, WithinCap, WalletInv;
    LogGrows(p, ws, ops, k, |ops|);
    WalletInvThroughout(p, ws, ops, k);
    WalletInvHolds(p, ws[k], DoSend(s));
    assert forall i | 0 <= i < |ws[k].log| :: ws[k].log[i] == ws[|ops|].log[i];
    StaysSteady(p, ws[k], s);
    SteadyWithinCap(p.cap, WalletNext(p, ws[k], DoSend(s)));
  }

  lemma HarmDone(p: Policy, ws: seq<WalletRun>, ops: seq<WalletOp>) returns (k: nat, s: Send)
    requires WalletRunOf(p, ws, ops) && !Steady(ws[|ops|].log)
    ensures k < |ws| && InOrder(ws[k], DoSend(s)) && RecordsOnOneDay(s) && !Harmless(p, ws[k], s)
  {
    hide WalletNext, SendEffect, WithinCap, WalletInv;
    var j := Straddler(p, ws, ops, |ops|);
    var sent := ops[j].s;
    WalletInvThroughout(p, ws, ops, j);
    DayMonotone(sent.first, sent.second);
    SentHasInfo(p, ws[j].c, sent);
    StraddleBreaksCap(p, ws[j], sent);
    k, s := j + 1, WholeCap(p, sent, sent.second);
    PastCap(p.cap, WalletNext(p, ws[k], DoSend(s)).log, sent.second / DAY);
  }

  lemma SentHasInfo(p: Policy, c: Counter, s: Send)
    requires SendEffect(p, c, s).0.Sent?
    ensures s.info.Some?
  {
  }

  lemma PastCap(cap: int, log: seq<Accepted>, day: nat)
    requires DayTotal(log, Second, day) > Max0(cap)
    ensures !WithinCap(cap, log, Second)
  {
  }

  lemma StaysSteady(p: Policy, w: WalletRun, s: Send)
    requires Steady(w.log) && RecordsOnOneDay(s)
    ensures Steady(WalletNext(p, w, DoSend(s)).log)
  {
    hide SendEffect;
  }

  /** A run in which the two readings do fall apart, one second from each other: the sends recorded
      under one day total twice the cap. */
  lemma RecordDayCanExceedCap(p: Policy, destination: string) returns (ws: seq<WalletRun>, ops: seq<WalletOp>)
    requires p.cap > 0 && p.representative.None? && ValidAddress(p.checksum, destination)
    ensures WalletRunOf(p, ws, ops)
    ensures DayTotal(ws[|ops|].log, Second, 1) == 2 * p.cap > p.cap
    ensures |ops| == 2 && ops[0].DoSend? && ops[0].s.first == 86399 && ops[0].s.second == 86400
  {
    hide WalletNext, SendEffect, ValidAddress;
    var w0 := WalletRun(Counter(map[], 0), 0, []);
    var s := Send(destination, Int(p.cap), Some(Info(p.cap, Null)), true, true, 0, 0, 86399, 86400);
    WholeCapSent(p, w0, s);
    var w1 := WalletNext(p, w0, DoSend(s));
    var next := WholeCap(p, s, 86400);
    WholeCapSent(p, w1, next);
    var w2 := WalletNext(p, w1, DoSend(next));
    ws, ops := [w0, w1, w2], [DoSend(s), DoSend(next)];
    Appended([], EntryOf(s), Second, 1);
    Appended(w1.log, EntryOf(next), Second, 1);
  }

  lemma WholeCapSent(p: Policy, w: WalletRun, s: Send)
    requires p.cap > 0 && Ready(p, s) && s.amount == Int(p.cap)
    requires s.guard / DAY == s.first / DAY && Today(w.c, s.guard).spend == map[]
    ensures WalletNext(p, w, DoSend(s))
            == WalletRun(Counter(map[s.second / DAY := p.cap], s.guard / DAY), s.second, w.log + [EntryOf(s)])
    ensures s.second / DAY != s.guard / DAY ==>
              Today(WalletNext(p, w, DoSend(s)).c, s.second).spend == map[]
  {
    hide ValidAddress, BlockRepresentative;
    EmptySum();
  }
}
