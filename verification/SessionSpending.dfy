/** The mandated session wallet: its guards over whole runs, under a mandate it verifies again
    before each send. */
module SessionSpending {
  import opened Text
  import opened Addresses
  import opened Mandates
  import opened Spending

  /** What a session wallet is opened with: the signed mandate, the owner's public key, the
      session's own address, and the cryptography the checks use. */
  datatype Grant = Grant(signed: Signed, owner: seq<byte>, account: string,
                         checksum: seq<byte> -> seq<byte>, enc: Encoding, valid: Verifier)

  function CapRaw(g: Grant): int {
    g.signed.mandate.capRaw
  }

  /** The mandate is bound to this account and verifies at this clock reading. */
  predicate MandateLive(g: Grant, now: Time) {
    && ValidAddress(g.checksum, g.signed.mandate.address) && g.signed.mandate.address == g.account
    && VerifyMandate(g.checksum, g.enc, g.valid, g.signed, g.owner, now) == Authentic
  }

  /** `_day`, `_daily_spend` and `_session_spent`. */
  datatype Session = Session(day: nat, daily: int, spent: int)

  function Roll(s: Session, now: nat): Session {
    if now / DAY != s.day then s.(day := now / DAY, daily := 0) else s
  }

  datatype SessionResult =
    | SessionSent
    | SessionBadDestination
    | SessionNodeUnusable
    | MandateRefused
    | SessionNotPositive
    | OverSessionCap
    | OverDailyCap
    | SessionInsufficient
    | SessionNotPublished

  /** One session send. The clock is read as a float for the mandate, and in whole seconds at the
      cap check and at the recording. */
  datatype SessionSend = SessionSend(destination: string, amount: int, balance: Option<int>, published: bool,
                                     mandate: Time, guard: nat, record: nat)

  function SessionEffect(cap: int, g: Grant, s: Session, x: SessionSend): (SessionResult, Session) {
    if !ValidAddress(g.checksum, x.destination) then (SessionBadDestination, s)
    else if x.balance.None? then (SessionNodeUnusable, s)
    else if !MandateLive(g, x.mandate) then (MandateRefused, s)
    else if x.amount <= 0 then (SessionNotPositive, s)
    else if s.spent + x.amount > CapRaw(g) then (OverSessionCap, s)
    else
      var rolled := Roll(s, x.guard);
      if rolled.daily + x.amount > cap then (OverDailyCap, rolled)
      else if x.amount > x.balance.value then (SessionInsufficient, rolled)
      else if !x.published then (SessionNotPublished, rolled)
      else
        var recorded := Roll(rolled, x.record);
        (SessionSent, recorded.(spent := recorded.spent + x.amount, daily := recorded.daily + x.amount))
  }

  class SessionWallet {
    const grant: Grant
    const dailyCap: int
    var day: nat
    var dailySpend: int
    var sessionSpent: int

    /** The fields of a wallet whose mandate passed the two checks of `Open`. */
    constructor (grant: Grant, dailyCap: int, now: nat)
      ensures this.grant == grant && this.dailyCap == dailyCap && Contents() == Session(now / DAY, 0, 0)
    {
      this.grant, this.dailyCap := grant, dailyCap;
      day, dailySpend, sessionSpent := now / DAY, 0, 0;
    }

    function Contents(): Session
      reads this
    {
      Session(day, dailySpend, sessionSpent)
    }

    method RollDay(now: nat)
      modifies this`day, this`dailySpend
      ensures Contents() == Roll(old(Contents()), now)
    {
      var today := now / DAY;
      if today != day {
        day := today;
        dailySpend := 0;
      }
    }

    /** Every guard comes before any work is done on the block, and a spend is recorded only
        once the node has taken it. */
    method SendRaw(x: SessionSend) returns (result: SessionResult)
      modifies this`day, this`dailySpend, this`sessionSpent
      ensures (result, Contents()) == SessionEffect(dailyCap, grant, old(Contents()), x)
    {
      hide ValidAddress, MandateLive;
      if !ValidAddress(grant.checksum, x.destination) {
        return SessionBadDestination;
      }
      if x.balance.None? {
        return SessionNodeUnusable;
      }
      if !MandateLive(grant, x.mandate) {
        return MandateRefused;
      }
      if x.amount <= 0 {
        return SessionNotPositive;
      }
      if sessionSpent + x.amount > CapRaw(grant) {
        return OverSessionCap;
      }
      RollDay(x.guard);
      if dailySpend + x.amount > dailyCap {
        return OverDailyCap;
      }
      if x.amount > x.balance.value {
        return SessionInsufficient;
      }
      if !x.published {
        return SessionNotPublished;
      }
      RollDay(x.record);
      sessionSpent := sessionSpent + x.amount;
      dailySpend := dailySpend + x.amount;
      return SessionSent;
    }
  }

  /** Opening a session: null where the program raises, which is exactly when the mandate is not
      bound to the account or does not verify. */
  method Open(grant: Grant, dailyCap: int, now: Time, clock: nat) returns (wallet: SessionWallet?)
    ensures wallet != null <==> MandateLive(grant, now)
    ensures wallet != null ==>
              && fresh(wallet) && wallet.grant == grant && wallet.dailyCap == dailyCap
              && wallet.Contents() == Session(clock / DAY, 0, 0)
  {
    if grant.signed.mandate.address != grant.account {
      return null;
    }
    if VerifyMandate(grant.checksum, grant.enc, grant.valid, grant.signed, grant.owner, now) != Authentic {
      return null;
    }
    wallet := new SessionWallet(grant, dailyCap, clock);
  }

  // ---- runs of one session ----

  datatype SessionRun = SessionRun(s: Session, clock: nat, log: seq<Accepted>)

  /** The whole-second readings do not go back; the mandate's reading may be any float. */
  predicate SessionInOrder(w: SessionRun, x: SessionSend) {
    w.clock <= x.guard <= x.record
  }

  /** The recording reads the clock once, so its two days are one. */
  function SessionEntry(x: SessionSend): Accepted {
    Accepted(x.guard / DAY, x.record / DAY, x.record / DAY, x.amount)
  }

  function SessionNext(cap: int, g: Grant, w: SessionRun, x: SessionSend): SessionRun {
    var (result, s) := SessionEffect(cap, g, w.s, x);
    SessionRun(s, x.record, if result.SessionSent? then w.log + [SessionEntry(x)] else w.log)
  }

  /** The session counter is exact, and the daily counter is exact for the days amounts are
      recorded under. */
  ghost predicate SessionInv(cap: int, g: Grant, w: SessionRun) {
    && w.s.day <= w.clock / DAY
    && Orderly(w.log) && Steady(w.log) && (forall i | 0 <= i < |w.log| :: w.log[i].firstDay <= w.s.day)
    && w.s.spent == Total(w.log) && w.s.spent <= Max0(CapRaw(g))
    && w.s.daily == DayTotal(w.log, First, w.s.day)
    && WithinCap(cap, w.log, Guard) && WithinCap(cap, w.log, First)
  }

  lemma RollKeeps(cap: int, g: Grant, w: SessionRun, now: nat)
    requires SessionInv(cap, g, w) && w.clock <= now
    ensures SessionInv(cap, g, SessionRun(Roll(w.s, now), now, w.log)) && Roll(w.s, now).day == now / DAY
  {
    DayMonotone(w.clock, now);
    if now / DAY != w.s.day {
      NothingLater(w.log, First, now / DAY);
    }
  }

  /** An accepted session send, its guard and its recording on the same day or not. */
  lemma SessionAcceptedKeeps(cap: int, g: Grant, w: SessionRun, x: SessionSend)
    requires SessionInv(cap, g, w) && w.clock == x.guard && w.s.day == x.guard / DAY && x.guard <= x.record
    requires x.amount > 0 && w.s.spent + x.amount <= CapRaw(g) && w.s.daily + x.amount <= cap
    ensures var s := Roll(w.s, x.record);
      SessionInv(cap, g, SessionRun(s.(spent := s.spent + x.amount, daily := s.daily + x.amount), x.record,
                                    w.log + [SessionEntry(x)]))
  {
    hide DayTotal, Total;
    var entry := SessionEntry(x);
    var log := w.log + [entry];
    DayMonotone(x.guard, x.record);
    RollKeeps(cap, g, w, x.record);
    TotalsPositive(w.log, First, w.s.day);
    GuardedAreRead(w.log, w.s.day);
    Appended(w.log, entry, First, x.record / DAY);
    forall day
      ensures DayTotal(log, Guard, day) <= Max0(cap) && DayTotal(log, First, day) <= Max0(cap)
    {
      Appended(w.log, entry, Guard, day);
      Appended(w.log, entry, First, day);
      assert DayTotal(w.log, Guard, day) <= Max0(cap) && DayTotal(w.log, First, day) <= Max0(cap);
    }
  }

  lemma SessionInvHolds(cap: int, g: Grant, w: SessionRun, x: SessionSend)
    requires SessionInv(cap, g, w) && SessionInOrder(w, x)
    ensures SessionInv(cap, g, SessionNext(cap, g, w, x))
  {
    hide DayTotal, Total, ValidAddress, MandateLive, WithinCap;
    DayMonotone(w.clock, x.record);
    DayMonotone(x.guard, x.record);
    RollKeeps(cap, g, w, x.guard);
    if SessionEffect(cap, g, w.s, x).0.SessionSent? {
      SessionAcceptedKeeps(cap, g, SessionRun(Roll(w.s, x.guard), x.guard, w.log), x);
    }
  }

  ghost predicate SessionRunOf(cap: int, g: Grant, ws: seq<SessionRun>, xs: seq<SessionSend>) {
    && |ws| == |xs| + 1
    && ws[0].s == Session(ws[0].clock / DAY, 0, 0) && ws[0].log == []
    && forall i | 0 <= i < |xs| :: SessionInOrder(ws[i], xs[i]) && ws[i + 1] == SessionNext(cap, g, ws[i], xs[i])
  }

  lemma {:induction false} SessionInvThroughout(cap: int, g: Grant, ws: seq<SessionRun>, xs: seq<SessionSend>, i: nat)
    requires SessionRunOf(cap, g, ws, xs) && i < |ws|
    ensures SessionInv(cap, g, ws[i])
  {
    if i > 0 {
      SessionInvThroughout(cap, g, ws, xs, i - 1);
      SessionInvHolds(cap, g, ws[i - 1], xs[i - 1]);
    }
  }

  /** All sends a session wallet ever accepts total at most its mandate's cap, and those of any
      one day at most the daily cap, whether the day is the guard's or the recording's. */
  lemma SessionCaps(cap: int, g: Grant, ws: seq<SessionRun>, xs: seq<SessionSend>, i: nat, day: nat)
    requires SessionRunOf(cap, g, ws, xs) && i < |ws|
    ensures Total(ws[i].log) <= Max0(CapRaw(g))
    ensures DayTotal(ws[i].log, Guard, day) <= Max0(cap)
    ensures DayTotal(ws[i].log, Second, day) <= Max0(cap)
  {
    SessionInvThroughout(cap, g, ws, xs, i);
    SteadyTotals(ws[i].log, day);
  }

  /** A session send goes through exactly when its destination is valid, the mandate bound and
      live, the amount positive and covered, and neither cap is passed by what was recorded so
      far. */
  lemma SessionAcceptsIff(cap: int, g: Grant, ws: seq<SessionRun>, xs: seq<SessionSend>, i: nat)
    requires SessionRunOf(cap, g, ws, xs) && i < |xs|
    ensures var x := xs[i];
      SessionEffect(cap, g, ws[i].s, x).0.SessionSent? <==>
        && ValidAddress(g.checksum, x.destination) && MandateLive(g, x.mandate)
        && x.balance.Some? && 0 < x.amount <= x.balance.value
        && Total(ws[i].log) + x.amount <= CapRaw(g)
        && DayTotal(ws[i].log, Second, x.guard / DAY) + x.amount <= cap
        && x.published
  {
    hide DayTotal, Total, SessionNext, ValidAddress, MandateLive;
    SessionInvThroughout(cap, g, ws, xs, i);
    RollKeeps(cap, g, ws[i], xs[i].guard);
    SteadyTotals(ws[i].log, xs[i].guard / DAY);
  }

  /** From the terms an owner asked for to the money: a session opened on the mandate issued for them
      belongs to the address of the terms, and over any run its accepted sends total at most the
      cap of the terms. */
  lemma IssuedSessionKeepsTerms(cap: int, g: Grant, scheme: Scheme, ownerKey: seq<byte>, t: Terms, start: Time,
                                ws: seq<SessionRun>, xs: seq<SessionSend>, i: nat)
    requires IssueMandate(g.checksum, g.enc, scheme, ownerKey, t) == Some(g.signed) && MandateLive(g, start)
    requires SessionRunOf(cap, g, ws, xs) && i < |ws|
    ensures g.account == t.address
    ensures Total(ws[i].log) <= t.capRaw
    ensures i < |xs| && SessionEffect(cap, g, ws[i].s, xs[i]).0.SessionSent? ==> !Later(xs[i].mandate, t.expires)
  {
    hide ValidAddress, Total, DayTotal, Canonical;
    IssuedAsAsked(g.checksum, g.enc, scheme, ownerKey, t);
    SessionInvThroughout(cap, g, ws, xs, i);
    if i < |xs| {
      SessionAcceptsIff(cap, g, ws, xs, i);
    }
  }

  /** And it does open, and accept: on the mandate an owner issued to this account, until it
      expires, every send that is valid, covered and within both caps goes through. */
  lemma IssuedSessionAccepts(cap: int, g: Grant, scheme: Scheme, ownerKey: seq<byte>, t: Terms,
                             ws: seq<SessionRun>, xs: seq<SessionSend>, i: nat)
    requires Correct(scheme) && g.valid == scheme.valid && g.owner == scheme.publicKey(ownerKey)
    requires IssueMandate(g.checksum, g.enc, scheme, ownerKey, t) == Some(g.signed) && g.account == t.address
    requires SessionRunOf(cap, g, ws, xs) && i < |xs| && !Later(xs[i].mandate, t.expires)
    ensures MandateLive(g, xs[i].mandate)
    ensures var x := xs[i];
      SessionEffect(cap, g, ws[i].s, x).0.SessionSent? <==>
        && ValidAddress(g.checksum, x.destination) && x.balance.Some? && 0 < x.amount <= x.balance.value
        && Total(ws[i].log) + x.amount <= t.capRaw
        && DayTotal(ws[i].log, Second, x.guard / DAY) + x.amount <= cap
        && x.published
  {
    hide ValidAddress, Total, DayTotal, VerifyMandate, IssueMandate, SessionEffect, SessionRunOf, Correct;
    IssuedAsAsked(g.checksum, g.enc, scheme, ownerKey, t);
    IssuedVerifies(g.checksum, g.enc, scheme, ownerKey, t, xs[i].mandate);
    SessionAcceptsIff(cap, g, ws, xs, i);
  }

  /** Which refusal a send gets, against what was recorded so far. */
  lemma SessionRefusalIs(cap: int, g: Grant, ws: seq<SessionRun>, xs: seq<SessionSend>, i: nat)
    requires SessionRunOf(cap, g, ws, xs) && i < |xs|
    ensures var x, log, result := xs[i], ws[i].log, SessionEffect(cap, g, ws[i].s, xs[i]).0;
      && (result.SessionBadDestination? ==> !ValidAddress(g.checksum, x.destination))
      && (result.SessionNodeUnusable? ==> x.balance.None?)
      && (result.MandateRefused? ==> !MandateLive(g, x.mandate))
      && (result.SessionNotPositive? ==> x.amount <= 0)
      && (result.OverSessionCap? ==> Total(log) + x.amount > CapRaw(g))
      && (result.OverDailyCap? ==> DayTotal(log, Second, x.guard / DAY) + x.amount > cap)
      && (result.SessionInsufficient? ==> x.balance.Some? && x.amount > x.balance.value)
      && (result.SessionNotPublished? ==> !x.published)
  {
    hide DayTotal, Total, SessionNext, ValidAddress, MandateLive;
    SessionInvThroughout(cap, g, ws, xs, i);
    RollKeeps(cap, g, ws[i], xs[i].guard);
    SteadyTotals(ws[i].log, xs[i].guard / DAY);
  }

  /** What every accepted send rests on: if the owner's signatures are not forged, a mandate the
      owner issued to this very address, not expired at the reading the send took, under whose
      cap the send and all before it fit. */
  lemma SessionSendIsMandated(cap: int, g: Grant, ws: seq<SessionRun>, xs: seq<SessionSend>, i: nat,
                              issued: set<Mandate>)
    requires SessionRunOf(cap, g, ws, xs) && i < |xs| && SessionEffect(cap, g, ws[i].s, xs[i]).0.SessionSent?
    requires Faithful(g.enc) && (forall n | n in issued :: ValidAddress(g.checksum, n.address))
    requires Unforged(g.enc, g.valid, issued, g.signed, g.owner)
    ensures var m := g.signed.mandate;
      && m in issued && m.address == g.account && !Later(xs[i].mandate, m.expiresAt)
      && Total(ws[i + 1].log) <= m.capRaw
  {
    hide DayTotal, Total, ValidAddress, VerifyMandate, Faithful, Unforged;
    SessionAcceptsIff(cap, g, ws, xs, i);
    SessionInvThroughout(cap, g, ws, xs, i + 1);
    VerifiedWasIssued(g.checksum, g.enc, g.valid, issued, g.signed, g.owner, xs[i].mandate);
  }
}
