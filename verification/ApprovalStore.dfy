/** The approval store: approvals, quote expiries and the quoted price floor, three tables
    under one lock. */
module Approvals {
  import opened Text

  datatype Approval = Approval(tx: string, address: string, amount: int)

  /** The three tables, each keyed by request id. */
  datatype Db = Db(approvals: map<string, Approval>, expiry: map<string, real>, price: map<string, int>)

  function Lookup<V>(m: map<string, V>, key: string): Option<V> {
    if key in m then Some(m[key]) else None
  }

  function Max(x: int, y: int): int {
    if x < y then y else x
  }

  /** INSERT ... PRIMARY KEY: whether the row went in, and the tables after. */
  function Approve(db: Db, requestId: string, approval: Approval): (bool, Db) {
    if requestId in db.approvals then (false, db)
    else (true, db.(approvals := db.approvals[requestId := approval]))
  }

  /** The floor only rises: a re-quote below it leaves it where it is. */
  function RecordPrice(db: Db, requestId: string, price: int): Db {
    db.(price := db.price[requestId := Max(Lookup(db.price, requestId).GetOr(0), price)])
  }

  function RecordExpiry(db: Db, requestId: string, expiresAt: real): Db {
    db.(expiry := db.expiry[requestId := expiresAt])
  }

  class ApprovalStore {
    var approvals: map<string, Approval>
    var expiry: map<string, real>
    var price: map<string, int>

    constructor ()
      ensures Contents() == Db(map[], map[], map[])
    {
      approvals, expiry, price := map[], map[], map[];
    }

    function Contents(): Db
      reads this
    {
      Db(approvals, expiry, price)
    }

    /** True for the first claim of a request id only; a refused claim changes nothing. */
    method Claim(requestId: string, tx: string, address: string, amount: int) returns (claimed: bool)
      modifies this`approvals
      ensures (claimed, Contents()) == Approve(old(Contents()), requestId, Approval(tx, address, amount))
      ensures claimed <==> requestId !in old(approvals)
      ensures requestId in approvals
      ensures forall k | k in old(approvals) :: k in approvals && approvals[k] == old(approvals[k])
    {
      if requestId in approvals {
        return false;
      }
      approvals := approvals[requestId := Approval(tx, address, amount)];
      return true;
    }

    method Get(requestId: string) returns (row: Option<Approval>)
      ensures row == Lookup(approvals, requestId)
    {
      row := if requestId in approvals then Some(approvals[requestId]) else None;
    }

    method RecordQuoteExpiry(requestId: string, expiresAt: real)
      modifies this`expiry
      ensures Contents() == RecordExpiry(old(Contents()), requestId, expiresAt)
      ensures Lookup(expiry, requestId) == Some(expiresAt)
      ensures forall k | k != requestId :: Lookup(expiry, k) == old(Lookup(expiry, k))
    {
      expiry := expiry[requestId := expiresAt];
    }

    method RecordQuotePrice(requestId: string, priceRaw: int)
      modifies this`price
      ensures Contents() == RecordPrice(old(Contents()), requestId, priceRaw)
      ensures price[requestId] >= priceRaw
      ensures price[requestId] >= if requestId in old(price) then old(price[requestId]) else 0
      ensures forall k | k != requestId :: Lookup(price, k) == old(Lookup(price, k))
    {
      var row := if requestId in price then price[requestId] else 0;
      var floor := if row < priceRaw then priceRaw else row;
      price := price[requestId := floor];
    }

    method QuotePrice(requestId: string) returns (row: Option<int>)
      ensures row == Lookup(price, requestId)
    {
      row := if requestId in price then Some(price[requestId]) else None;
    }

    method QuoteExpiry(requestId: string) returns (row: Option<real>)
      ensures row == Lookup(expiry, requestId)
    {
      row := if requestId in expiry then Some(expiry[requestId]) else None;
    }
  }
}
