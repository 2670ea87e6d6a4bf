/** The built-in claim store: one table of claim keys, the migration that gives every old
    spelling its canonical row, and the single-use claim transaction. */
module Claims {
  import opened Text
  import opened ClaimKeys

  /** The claims table: consumption_key -> claimed_at. */
  type Table = map<string, real>

  // ---- the migration ----

  function Pending(t: Table): set<string> {
    set k | k in t && PendingRow(k, t.Keys)
  }

  /** The read-only check run at every open and before a claim on a pending handle. */
  predicate NeedsMigration(t: Table) {
    Pending(t) != {}
  }

  /** The pending rows of one GROUP BY group. */
  function Group(t: Table, canonical: string): set<string> {
    set k | k in Pending(t) && CanonicalSql(k) == canonical
  }

  /** `m` is the earliest claim time among `rows`. */
  ghost predicate IsEarliest(t: Table, rows: set<string>, m: real)
    requires rows <= t.Keys
  {
    (exists k | k in rows :: t[k] == m) && (forall k | k in rows :: m <= t[k])
  }

  lemma {:induction false} EarliestRow(t: Table, rows: set<string>) returns (k: string)
    requires rows != {} && rows <= t.Keys
    ensures k in rows && forall j | j in rows :: t[k] <= t[j]
  {
    k :| k in rows;
    var others := rows - {k};
    if others != {} {
      var k' := EarliestRow(t, others);
      k := if t[k] <= t[k'] then k else k';
    }
    assert forall j | j in rows :: j in others || t[k] <= t[j];
  }

  /** min(c.claimed_at) over `rows`. */
  function Earliest(t: Table, rows: set<string>): (m: real)
    requires rows != {} && rows <= t.Keys
    ensures IsEarliest(t, rows, m)
  {
    var times := set k | k in rows :: t[k];
    assert exists m :: m in times && forall k | k in rows :: m <= t[k] by {
      var k := EarliestRow(t, rows);
      assert t[k] in times;
    }
    assert forall m | m in times :: exists k | k in rows :: t[k] == m;
    var m :| m in times && forall k | k in rows :: m <= t[k];
    m
  }

  function MigrationRows(t: Table): Table {
    map c | c in (set k | k in Pending(t) :: CanonicalSql(k)) && Group(t, c) != {} :: Earliest(t, Group(t, c))
  }

  /** INSERT OR IGNORE ... SELECT ... GROUP BY 1: a row already there wins. */
  function Migrated(t: Table): Table {
    MigrationRows(t) + t
  }

  // ---- what the migration is for ----

  /** Every stored key has its canonical spelling stored too. */
  ghost predicate Closed(t: Table) {
    forall k | k in t :: CanonicalKey(k) in t
  }

  /** The stored rows that spell `canonical`. */
  function Spellings(t: Table, canonical: string): set<string> {
    set k | k in t && CanonicalKey(k) == canonical
  }

  /** Some stored row is a spelling of `canonical`. */
  ghost predicate SpellingStored(t: Table, canonical: string) {
    exists k | k in t :: CanonicalKey(k) == canonical
  }

  lemma PendingIsUnclosed(t: Table, k: string)
    requires k in t
    ensures k in Pending(t) <==> CanonicalKey(k) !in t
    ensures k in Pending(t) ==> CanonicalSql(k) == CanonicalKey(k)
  {
    PendingRefinesCanonical(k, t.Keys);
  }

  lemma NeedsMigrationIffNotClosed(t: Table)
    ensures NeedsMigration(t) <==> !Closed(t)
  {
    forall k | k in t
      ensures k in Pending(t) <==> CanonicalKey(k) !in t
    {
      PendingIsUnclosed(t, k);
    }
    if !Closed(t) {
      var k :| k in t && CanonicalKey(k) !in t;
      assert k in Pending(t);
    }
  }

  /** The keys after a migration are the old keys and their canonical forms, nothing else. */
  lemma MigratedKeys(t: Table)
    ensures Migrated(t).Keys == t.Keys + set k | k in t :: CanonicalKey(k)
  {
    var added := set k | k in Pending(t) :: CanonicalSql(k);
    forall c | c in added
      ensures Group(t, c) != {}
    {
      var k :| k in Pending(t) && CanonicalSql(k) == c;
      assert k in Group(t, c);
    }
    assert Migrated(t).Keys == added + t.Keys;
    forall k | k in t
      ensures k in Pending(t) <==> CanonicalKey(k) !in t
      ensures k in Pending(t) ==> CanonicalSql(k) == CanonicalKey(k)
    {
      PendingIsUnclosed(t, k);
    }
    assert added <= set k | k in t :: CanonicalKey(k);
    forall c | c in (set k | k in t :: CanonicalKey(k))
      ensures c in added + t.Keys
    {
      var k :| k in t && CanonicalKey(k) == c;
    }
  }

  /** For a canonical key that is not stored, the group is all its spellings. */
  lemma GroupIsSpellings(t: Table, canonical: string)
    requires canonical !in t
    ensures Group(t, canonical) == Spellings(t, canonical)
  {
    forall k | k in t
      ensures k in Group(t, canonical) <==> k in Spellings(t, canonical)
    {
      PendingIsUnclosed(t, k);
    }
  }

  /** No old claim time changes, and each new canonical row carries the earliest time of the
      rows it is the canonical spelling of. */
  lemma MigratedTimes(t: Table, k: string)
    requires k in Migrated(t)
    ensures k in t ==> Migrated(t)[k] == t[k]
    ensures k !in t ==> IsEarliest(t, Spellings(t, k), Migrated(t)[k])
  {
    if k !in t {
      GroupIsSpellings(t, k);
    }
  }

  /** Migrating a closed table changes nothing. */
  lemma MigratingClosed(t: Table)
    requires Closed(t)
    ensures Migrated(t) == t
  {
    NeedsMigrationIffNotClosed(t);
    assert MigrationRows(t) == map[];
  }

  /** The result is closed, so a second run finds nothing to do and changes nothing. */
  lemma MigratedIsClosed(t: Table)
    ensures Closed(Migrated(t)) && !NeedsMigration(Migrated(t))
    ensures Migrated(Migrated(t)) == Migrated(t)
  {
    var t' := Migrated(t);
    MigratedKeys(t);
    forall k | k in t'
      ensures CanonicalKey(k) in t'.Keys
    {
      CanonicalIdempotent(k);
      if k !in t {
        var j :| j in t && CanonicalKey(j) == k;
        CanonicalIdempotent(j);
      }
    }
    NeedsMigrationIffNotClosed(t');
    MigratingClosed(t');
  }

  // ---- looking a key up ----

  /** `_held_under_old_spelling`: the full scan. */
  predicate HeldUnderOldSpelling(t: Table, canonical: string) {
    exists k | k in t :: ScanMatches(k, canonical)
  }

  /** `is_claimed` on a handle whose migration is pending, or not. */
  predicate IsClaimed(t: Table, pending: bool, key: string) {
    var canonical := CanonicalKey(key);
    canonical in t || (pending && HeldUnderOldSpelling(t, canonical))
  }

  /** For a well-formed key the scan finds a row exactly when some row spells the key. */
  lemma ScanIsExact(t: Table, key: string)
    requires WellFormed(key)
    ensures HeldUnderOldSpelling(t, CanonicalKey(key)) <==> SpellingStored(t, CanonicalKey(key))
  {
    CanonicalIdempotent(key);
    forall k | k in t
      ensures ScanMatches(k, CanonicalKey(key)) <==> CanonicalKey(k) == CanonicalKey(key)
    {
      ScanFindsSpellings(k, CanonicalKey(key));
    }
  }

  /** A row for `canonical` itself is one of its spellings. */
  lemma StoredIsSpelling(t: Table, key: string)
    ensures CanonicalKey(key) in t ==> SpellingStored(t, CanonicalKey(key))
    ensures Closed(t) ==> (SpellingStored(t, CanonicalKey(key)) <==> CanonicalKey(key) in t)
    ensures !WellFormed(key) ==> (SpellingStored(t, CanonicalKey(key)) <==> CanonicalKey(key) in t)
  {
    CanonicalIdempotent(key);
    CanonicalAgrees(key);
    if !WellFormed(key) && SpellingStored(t, CanonicalKey(key)) {
      var k :| k in t && CanonicalKey(k) == CanonicalKey(key);
      CanonicalIdempotent(k);
      CanonicalAgrees(k);
    }
  }

  /** Asking a pending handle and asking after the migration give the same answer, and it is
      whether any row, of any release, spells the key. */
  lemma IsClaimedSameWhenPending(t: Table, key: string)
    requires WellFormed(key)
    ensures IsClaimed(t, true, key) <==> SpellingStored(t, CanonicalKey(key))
    ensures IsClaimed(Migrated(t), false, key) <==> SpellingStored(t, CanonicalKey(key))
  {
    ScanIsExact(t, key);
    StoredIsSpelling(t, key);
    MigratedKeys(t);
  }

  /** Keys outside the claim format that the scan, lacking a hex and a length test, can take
      some different row for: SQL rewrites that row to this very key. */
  predicate ScanMistakable(key: string) {
    && PREFIX <= key && !WellFormed(key)
    && Substr(key, 11, 64) == UpperAll(Substr(key, 11, 64))
    && Substr(key, 75, 2) != "\n "
    && ((exists i | 10 <= i < |key| && i < 74 :: 'A' <= key[i] <= 'Z') || " " <= SubstrFrom(key, 75))
  }

  lemma MistakenByNewline(key: string) returns (row: string)
    requires ScanMistakable(key) && " " <= SubstrFrom(key, 75)
    ensures row != key && ScanMatches(row, key)
  {
    Pieces(key);
    var hash, tail := Substr(key, 11, 64), SubstrFrom(key, 75);
    row := PREFIX + hash + ("\n" + tail);
    Assembled(hash, "\n" + tail);
    PrefixBySubstr(row);
    Pieces(row);
    assert |row| == |key| + 1;
    assert SubstrFrom(row, 75)[..2] == "\n ";
    assert SubstrFrom(row, 76) == tail;
  }

  /** Changing one character of the hash changes that character of the SQL pieces only. */
  lemma HashCharacter(key: string, i: nat, c: char)
    requires PREFIX <= key && 10 <= i < |key| && i < 74
    ensures var row := key[i := c];
      && PREFIX <= row && i - 10 < |Substr(key, 11, 64)|
      && Substr(key, 11, 64)[i - 10] == key[i]
      && Substr(row, 11, 64) == Substr(key, 11, 64)[i - 10 := c]
      && SubstrFrom(row, 75) == SubstrFrom(key, 75)
  {
  }

  lemma LowerOne(hash: string, j: nat, c: char)
    requires j < |hash| && Upper(c) == hash[j] && hash == UpperAll(hash)
    ensures UpperAll(hash[j := c]) == hash
  {
  }

  lemma MistakenByCase(key: string, i: nat) returns (row: string)
    requires ScanMistakable(key) && 10 <= i < |key| && i < 74 && 'A' <= key[i] <= 'Z'
    ensures row != key && ScanMatches(row, key)
  {
    hide UpperAll;
    var c := (key[i] as int + 32) as char;
    row := key[i := c];
    assert row[i] != key[i];
    HashCharacter(key, i, c);
    LowerOne(Substr(key, 11, 64), i - 10, c);
    PrefixBySubstr(row);
    Pieces(key);
    assert Substr(row, 75, 2) == Substr(key, 75, 2);
  }

  lemma MistakenRow(key: string) returns (row: string)
    requires ScanMistakable(key)
    ensures row != key && ScanMatches(row, key)
  {
    if " " <= SubstrFrom(key, 75) {
      row := MistakenByNewline(key);
    } else {
      var i :| 10 <= i < |key| && i < 74 && 'A' <= key[i] <= 'Z';
      row := MistakenByCase(key, i);
    }
  }

  lemma DroppedNewlineMistakes(row: string, key: string)
    requires PREFIX <= row && CanonicalSql(row) == key && !WellFormed(key)
    requires Substr(row, 75, 2) == "\n "
    ensures ScanMistakable(key)
  {
    RewrittenPieces(row, key);
    UpperAllIdempotent(Substr(row, 11, 64));
    Pieces(row);
    assert SubstrFrom(row, 75)[1] == ' ';
    assert SubstrFrom(key, 75)[0] == ' ';
  }

  lemma RaisedLetterMistakes(row: string, key: string, i: nat)
    requires PREFIX <= row && CanonicalSql(row) == key && !WellFormed(key)
    requires Substr(row, 75, 2) != "\n " && i < |Substr(row, 11, 64)|
    requires Substr(row, 11, 64)[i] != Upper(Substr(row, 11, 64)[i])
    ensures ScanMistakable(key)
  {
    RewrittenPieces(row, key);
    UpperAllIdempotent(Substr(row, 11, 64));
    Pieces(key);
    assert key[10 + i] == Substr(key, 11, 64)[i] == Upper(Substr(row, 11, 64)[i]);
    assert Substr(key, 75, 2) == Take(SubstrFrom(key, 75), 2) == Take(SubstrFrom(row, 75), 2);
  }

  lemma OnlyItselfMatches(row: string, key: string)
    requires !WellFormed(key) && !ScanMistakable(key) && ScanMatches(row, key)
    ensures row == key
  {
    hide CanonicalSql, WellFormed, ScanMistakable;
    PrefixBySubstr(row);
    if Substr(row, 75, 2) == "\n " {
      DroppedNewlineMistakes(row, key);
    }
    var hash := Substr(row, 11, 64);
    forall i | 0 <= i < |hash|
      ensures hash[i] == Upper(hash[i])
    {
      if hash[i] != Upper(hash[i]) {
        RaisedLetterMistakes(row, key, i);
      }
    }
    assert hash == UpperAll(hash);
    RewrittenPieces(row, key);
    Pieces(row);
    Pieces(key);
  }

  /** Over all tables, a pending handle answers `is_claimed` as a migrated one does for exactly
      the keys that are not mistakable; every well-formed key is one of them. */
  lemma PendingAnswersAgreeIff(key: string)
    ensures (forall t: Table :: IsClaimed(t, true, key) == IsClaimed(Migrated(t), false, key)) <==> !ScanMistakable(key)
  {
    CanonicalAgrees(key);
    if ScanMistakable(key) {
      var row := MistakenRow(key);
      var t: Table := map[row := 0.0];
      MigratedKeys(t);
      CanonicalAgrees(row);
      CanonicalIdempotent(row);
      assert IsClaimed(t, true, key) && !IsClaimed(Migrated(t), false, key);
    } else {
      forall t: Table
        ensures IsClaimed(t, true, key) == IsClaimed(Migrated(t), false, key)
      {
        if WellFormed(key) {
          IsClaimedSameWhenPending(t, key);
        } else {
          MigratedKeys(t);
          StoredIsSpelling(t, key);
          if row :| row in t && ScanMatches(row, key) {
            OnlyItselfMatches(row, key);
          }
        }
      }
    }
  }

  // ---- the claim transaction ----

  datatype Outcome = Won | Spent | Raised

  /** Where the database may refuse a statement of the transaction. */
  datatype Fault = NoFault | AtBegin | AtScan | AtLookup | AtInsert | AtRecord | AtCommit

  /** The body of `_claim_spellings` after its migration retry: what the caller is told and
      the table left behind. A refused statement rolls back and raises. */
  function Transact(t: Table, pending: bool, canonical: string, other: Option<string>,
                    fault: Fault, now: real): (Outcome, Table)
  {
    var inTransaction := pending || other.Some?;
    if inTransaction && fault == AtBegin then (Raised, t)
    else if pending && fault == AtScan then (Raised, t)
    else if pending && HeldUnderOldSpelling(t, canonical) then (Spent, t)
    else if other.Some? && fault == AtLookup then (Raised, t)
    else if other.Some? && other.value in t then (Spent, t)
    else if fault == AtInsert then (Raised, t)
    else if canonical in t then (Spent, t)
    else if other.Some? && fault == AtRecord then (Raised, t)
    else if fault == AtCommit then (Raised, t)
    else (Won, (if other.Some? then map[other.value := now] else map[]) + t[canonical := now])
  }

  /** `as_sent` when it differs from the canonical key. */
  function Other(canonical: string, asSent: Option<string>): Option<string> {
    if asSent.Some? && asSent.value != canonical then asSent else None
  }

  /** The claim a settle (`recordSent`) or a plain `claim` makes for a key spelt `key`. */
  function TransactFor(t: Table, pending: bool, key: string, recordSent: bool, fault: Fault, now: real)
    : (Outcome, Table)
  {
    var canonical := CanonicalKey(key);
    Transact(t, pending, canonical, Other(canonical, if recordSent then Some(key) else None), fault, now)
  }

  /** Losing or raising changes nothing, and only the database can make a claim raise. */
  lemma LosingChangesNothing(t: Table, pending: bool, canonical: string, other: Option<string>, fault: Fault, now: real)
    ensures var (outcome, t') := Transact(t, pending, canonical, other, fault, now);
      && (outcome != Won ==> t' == t)
      && (fault == NoFault ==> outcome != Raised)
  {
  }

  /** A claim on a handle that trusts a closed table, or that scans, wins only if no row of
      any release spells the key; on a well-formed key that is the only thing it depends on. */
  lemma ClaimWinsIffUnspelt(t: Table, pending: bool, key: string, recordSent: bool, fault: Fault, now: real)
    requires !pending ==> Closed(t)
    ensures TransactFor(t, pending, key, recordSent, fault, now).0 == Won ==> !SpellingStored(t, CanonicalKey(key))
    ensures WellFormed(key) ==>
              (TransactFor(t, pending, key, recordSent, NoFault, now).0 == Won <==>
               !SpellingStored(t, CanonicalKey(key)))
  {
    StoredIsSpelling(t, key);
    if WellFormed(key) {
      ScanIsExact(t, key);
    }
    if key in t {
      assert SpellingStored(t, CanonicalKey(key));
    }
  }

  /** The statements of the transaction that a fault can hit: it opens one only to check and insert
      together, scans only on a pending handle, and looks up and records only a second spelling. */
  predicate Reached(pending: bool, second: bool, fault: Fault) {
    match fault
    case NoFault => false
    case AtBegin => pending || second
    case AtScan => pending
    case AtLookup => second
    case AtInsert => true
    case AtRecord => second
    case AtCommit => true
  }

  /** The scan of a pending handle cannot take another row for this key; no well-formed key is
      mistakable. */
  predicate Readable(pending: bool, key: string) {
    !pending || !ScanMistakable(key)
  }

  /** What the caller is told, under every fault of the database. "Spent" always means that a row
      spells the key; "raised" that the database refused a statement; and a key that no row
      spells is won or, if the fault hits a statement the claim makes, raises. */
  lemma AnswersAreHonest(t: Table, pending: bool, key: string, recordSent: bool, fault: Fault, now: real)
    requires Readable(pending, key) && (!pending ==> Closed(t))
    ensures var outcome := TransactFor(t, pending, key, recordSent, fault, now).0;
      var reached := Reached(pending, recordSent && CanonicalKey(key) != key, fault);
      && (outcome == Spent ==> SpellingStored(t, CanonicalKey(key)))
      && (outcome == Raised ==> reached)
      && (!SpellingStored(t, CanonicalKey(key)) ==> outcome == if reached then Raised else Won)
      && (SpellingStored(t, CanonicalKey(key)) && !reached ==> outcome == Spent)
  {
    hide CanonicalKey, HeldUnderOldSpelling, SpellingStored, ScanMistakable, Closed;
    SentIsSpelling(t, key);
    if pending {
      ScanIsHonest(t, key);
    } else {
      StoredIsSpelling(t, key);
    }
  }

  lemma SentIsSpelling(t: Table, key: string)
    ensures key in t || CanonicalKey(key) in t ==> SpellingStored(t, CanonicalKey(key))
  {
    hide CanonicalKey;
    CanonicalIdempotent(key);
  }

  /** For a key it cannot mistake, the scan and the primary key together find exactly the rows that
      spell it. */
  lemma ScanIsHonest(t: Table, key: string)
    requires !ScanMistakable(key)
    ensures HeldUnderOldSpelling(t, CanonicalKey(key)) || CanonicalKey(key) in t <==>
            SpellingStored(t, CanonicalKey(key))
  {
    hide CanonicalKey, ScanMatches, ScanMistakable, WellFormed;
    StoredIsSpelling(t, key);
    if WellFormed(key) {
      ScanIsExact(t, key);
    } else {
      CanonicalAgrees(key);
      if row :| row in t && ScanMatches(row, key) {
        OnlyItselfMatches(row, key);
      }
    }
  }

  /** And "spent" is said of a payment nobody claimed for exactly the keys the scan can mistake. */
  lemma SpentIsHonestIff(pending: bool, key: string)
    ensures (forall t: Table, recordSent, fault, now | !pending ==> Closed(t) ::
               TransactFor(t, pending, key, recordSent, fault, now).0 == Spent ==> SpellingStored(t, CanonicalKey(key)))
            <==> Readable(pending, key)
  {
    hide CanonicalKey, ScanMatches, ScanMistakable, WellFormed;
    if Readable(pending, key) {
      forall t: Table, recordSent, fault, now | !pending ==> Closed(t)
        ensures TransactFor(t, pending, key, recordSent, fault, now).0 == Spent ==> SpellingStored(t, CanonicalKey(key))
      {
        AnswersAreHonest(t, pending, key, recordSent, fault, now);
      }
    } else {
      var row := MistakenRow(key);
      var t: Table := map[row := 0.0];
      MistakableIsNoKey(key);
      CanonicalAgrees(key);
      CanonicalAgrees(row);
      CanonicalIdempotent(row);
      assert TransactFor(t, pending, key, false, NoFault, 0.0).0 == Spent;
      assert !SpellingStored(t, CanonicalKey(key));
    }
  }

  lemma MistakableIsNoKey(key: string)
    requires ScanMistakable(key)
    ensures !WellFormed(key)
  {
  }

  /** A winning claim adds the canonical key and, when asked to, the key as sent; it removes
      nothing, keeps every older time, and leaves a closed table closed. */
  lemma WinningClaimRecordsBoth(t: Table, pending: bool, key: string, recordSent: bool, fault: Fault, now: real)
    ensures var c := CanonicalKey(key);
      var (outcome, t') := TransactFor(t, pending, key, recordSent, fault, now);
      outcome == Won ==>
        && t'.Keys == t.Keys + {c} + (if recordSent then {key} else {})
        && c !in t && (recordSent ==> key !in t)
        && (forall k | k in t' :: t'[k] == if k in t then t[k] else now)
        && (Closed(t) ==> Closed(t'))
  {
    CanonicalIdempotent(key);
  }

  // ---- the store as the program holds it ----

  /** The database file, shared by every handle opened on it. */
  class Database {
    var claims: Table

    constructor ()
      ensures claims == map[]
    {
      claims := map[];
    }
  }

  /** What `_migrate_locked` leaves behind when nobody else touches the file: the table and
      the handle's pending flag. */
  function MigrateAlone(t: Table, readFails: bool, writeFails: bool): (Table, bool) {
    if readFails then (t, true)
    else if !NeedsMigration(t) then (t, false)
    else if writeFails then (t, true)
    else (Migrated(t), false)
  }

  /** The migration retry before a claim, on a handle whose migration is pending. */
  function AfterRetry(t: Table, pending: bool, readFails: bool, writeFails: bool): (Table, bool) {
    if pending then MigrateAlone(t, readFails, writeFails) else (t, false)
  }

  class ClaimStore {
    const db: Database
    var migrationPending: bool

    /** Opening never fails on a migration that cannot run. */
    constructor (db: Database, readFails: bool, writeFails: bool)
      modifies db
      ensures this.db == db
      ensures (db.claims, migrationPending) == MigrateAlone(old(db.claims), readFails, writeFails)
    {
      this.db := db;
      migrationPending := true;
      new;
      MigrateLocked(readFails, writeFails);
    }

    method MigrateLocked(readFails: bool, writeFails: bool)
      modifies this`migrationPending, db
      ensures (db.claims, migrationPending) == MigrateAlone(old(db.claims), readFails, writeFails)
    {
      migrationPending := true;
      if readFails {
        return;
      }
      var needed := NeedsMigration(db.claims);
      if !needed {
        migrationPending := false;
        return;
      }
      if writeFails {
        return;
      }
      db.claims := Migrated(db.claims);
      migrationPending := false;
    }

    method ClaimSpellings(canonical: string, asSent: Option<string>, readFails: bool, writeFails: bool,
                          fault: Fault, now: real) returns (outcome: Outcome)
      modifies this`migrationPending, db
      ensures var (t, pending) := AfterRetry(old(db.claims), old(migrationPending), readFails, writeFails);
              && migrationPending == pending
              && (outcome, db.claims) == Transact(t, pending, canonical, Other(canonical, asSent), fault, now)
    {
      if migrationPending {
        MigrateLocked(readFails, writeFails);
      }
      var pending := migrationPending;
      var other := if asSent.Some? && asSent.value != canonical then asSent else None;
      var working := db.claims;
      if pending || other.Some? {
        if fault == AtBegin {
          return Raised;
        }
        if pending {
          if fault == AtScan {
            return Raised;
          }
          if HeldUnderOldSpelling(working, canonical) {
            return Spent;
          }
        }
        if other.Some? {
          if fault == AtLookup {
            return Raised;
          }
          if other.value in working {
            return Spent;
          }
        }
      }
      if fault == AtInsert {
        return Raised;
      }
      if canonical in working {
        return Spent;
      }
      working := working[canonical := now];
      if other.Some? {
        if fault == AtRecord {
          return Raised;
        }
        if other.value !in working {
          working := working[other.value := now];
        }
      }
      if fault == AtCommit {
        return Raised;
      }
      assert working == (if other.Some? then map[other.value := now] else map[]) + db.claims[canonical := now];
      db.claims := working;
      return Won;
    }

    /** `claim(key)`: the canonical key only. */
    method Claim(key: string, readFails: bool, writeFails: bool, fault: Fault, now: real)
      returns (outcome: Outcome)
      modifies this`migrationPending, db
      ensures var (t, pending) := AfterRetry(old(db.claims), old(migrationPending), readFails, writeFails);
              && migrationPending == pending
              && (outcome, db.claims) == Transact(t, pending, CanonicalKey(key), None, fault, now)
    {
      outcome := ClaimSpellings(CanonicalKey(key), None, readFails, writeFails, fault, now);
    }

    /** A lookup never writes; on a well-formed key it answers whether any row spells it. */
    method IsClaimedNow(key: string) returns (r: bool)
      ensures r == IsClaimed(db.claims, migrationPending, key)
      ensures WellFormed(key) && (migrationPending || Closed(db.claims)) ==>
                (r <==> SpellingStored(db.claims, CanonicalKey(key)))
    {
      var canonical := CanonicalKey(key);
      if canonical !in db.claims && migrationPending {
        r := HeldUnderOldSpelling(db.claims, canonical);
      } else {
        r := canonical in db.claims;
      }
      StoredIsSpelling(db.claims, key);
      if WellFormed(key) {
        ScanIsExact(db.claims, key);
      }
    }
  }
}
