/** The spelling of a claim key, computed twice in the program: by `_canonical_key` in
    Python and by the migration's SQL text functions. */
module ClaimKeys {
  import opened Text

  const PREFIX: string := "nano:live "

  /** `_canonical_key`: upper-case the hash, drop one newline right after it, and keep the
      request id byte for byte; any other shape is returned unchanged. */
  function CanonicalKey(key: string): string {
    if !(PREFIX <= key) then key else
    var rest := key[|PREFIX|..];
    var hash, tail := Take(rest, 64), Drop(rest, 64);
    if !Hex64(hash) then key else
    var tail' := if "\n " <= tail then tail[1..] else tail;
    if !(" " <= tail') then key else PREFIX + UpperAll(hash) + tail'
  }

  /** The claim key a block hash and a request id are spelt as before canonicalisation. */
  function KeyAsSent(hash: string, requestId: string): string {
    PREFIX + hash + " " + requestId
  }

  function ConsumptionKey(hash: string, requestId: string): string {
    CanonicalKey(KeyAsSent(hash, requestId))
  }

  /** The keys whose spelling matters: a 64-hex hash followed by " " or "\n ". */
  predicate WellFormed(key: string) {
    && PREFIX <= key
    && Hex64(Substr(key, 11, 64))
    && (" " <= SubstrFrom(key, 75) || "\n " <= SubstrFrom(key, 75))
  }

  // ---- the SQL side ----

  /** `_CANONICAL_SQL`. It has no test of its own: it rewrites whatever it is given. */
  function CanonicalSql(key: string): string {
    PREFIX + UpperAll(Substr(key, 11, 64)) +
    (if Substr(key, 75, 2) == "\n " then SubstrFrom(key, 76) else SubstrFrom(key, 75))
  }

  /** `_PENDING_WHERE` for one row of a table that holds the keys `rows`. */
  predicate PendingRow(key: string, rows: set<string>) {
    && Substr(key, 1, 10) == PREFIX
    && (Substr(key, 11, 64) != UpperAll(Substr(key, 11, 64)) || Substr(key, 75, 1) == "\n")
    && (Substr(key, 75, 1) == " " || Substr(key, 75, 2) == "\n ")
    && |Substr(key, 11, 64)| == 64
    && (if CanonicalSql(key) in rows then false else AllHex(Substr(key, 11, 64)))
  }

  /** The condition of `_OLD_SPELLING_SQL` for one row: no hex test, no length test. */
  predicate ScanMatches(row: string, canonical: string) {
    Substr(row, 1, 10) == PREFIX && CanonicalSql(row) == canonical
  }

  // ---- how the two sides meet ----

  lemma PrefixBySubstr(key: string)
    ensures Substr(key, 1, 10) == PREFIX <==> PREFIX <= key
  {
    if 10 <= |key| {
      assert key[0..] == key;
      assert key == key[..10] + key[10..];
    }
  }

  /** The three pieces of a key long enough to have them. */
  lemma Pieces(key: string)
    requires PREFIX <= key
    ensures Take(key[10..], 64) == Substr(key, 11, 64)
    ensures Drop(key[10..], 64) == SubstrFrom(key, 75)
    ensures " " <= SubstrFrom(key, 75) <==> Substr(key, 75, 1) == " "
    ensures "\n " <= SubstrFrom(key, 75) <==> Substr(key, 75, 2) == "\n "
    ensures "\n " <= SubstrFrom(key, 75) ==> SubstrFrom(key, 75)[1..] == SubstrFrom(key, 76)
    ensures key == PREFIX + Substr(key, 11, 64) + SubstrFrom(key, 75)
  {
  }

  /** A key made of the prefix, a 64-character hash and a tail splits back into them. */
  lemma Assembled(hash: string, tail: string)
    requires |hash| == 64
    ensures var key := PREFIX + hash + tail;
      PREFIX <= key && Substr(key, 11, 64) == hash && SubstrFrom(key, 75) == tail
  {
    var key := PREFIX + hash + tail;
    assert key[10..] == hash + tail;
    assert key[74..] == tail;
  }

  /** Python and SQL agree on every well-formed key, and Python leaves the others alone. */
  lemma CanonicalAgrees(key: string)
    ensures WellFormed(key) ==> CanonicalKey(key) == CanonicalSql(key)
    ensures !WellFormed(key) ==> CanonicalKey(key) == key
  {
    if PREFIX <= key {
      Pieces(key);
    }
  }

  /** Canonicalising a well-formed key gives a well-formed key that is its own canonical form. */
  lemma CanonicalIdempotent(key: string)
    ensures CanonicalKey(CanonicalKey(key)) == CanonicalKey(key)
    ensures WellFormed(CanonicalKey(key)) == WellFormed(key)
  {
    CanonicalAgrees(key);
    if WellFormed(key) {
      Pieces(key);
      var hash := Substr(key, 11, 64);
      var tail := if Substr(key, 75, 2) == "\n " then SubstrFrom(key, 76) else SubstrFrom(key, 75);
      var canonical := PREFIX + UpperAll(hash) + tail;
      assert CanonicalKey(key) == canonical;
      Assembled(UpperAll(hash), tail);
      Pieces(canonical);
      UpperAllIdempotent(hash);
      assert " " <= tail;
      CanonicalAgrees(canonical);
      assert tail[0] == ' ';
      assert Substr(canonical, 75, 2) != "\n ";
    }
  }

  /** The migration's WHERE clause picks exactly the rows whose Python canonical key differs
      from the row and is not stored yet. */
  lemma PendingRefinesCanonical(key: string, rows: set<string>)
    ensures PendingRow(key, rows) <==> CanonicalKey(key) != key && CanonicalKey(key) !in rows
    ensures PendingRow(key, rows) ==> CanonicalSql(key) == CanonicalKey(key)
  {
    PrefixBySubstr(key);
    CanonicalAgrees(key);
    if PREFIX <= key {
      Pieces(key);
      var hash, tail := Substr(key, 11, 64), SubstrFrom(key, 75);
      if WellFormed(key) {
        if " " <= tail {
          assert tail[0] == ' ';
          assert CanonicalSql(key) == PREFIX + UpperAll(hash) + tail;
          if CanonicalKey(key) == key {
            assert CanonicalKey(key)[10..74] == UpperAll(hash);
            assert key[10..74] == hash;
          }
        } else {
          assert |CanonicalSql(key)| == |key| - 1;
          assert Substr(key, 75, 1) == "\n";
        }
      }
    }
  }

  /** SQL's rewriting upper-cases the hash and only ever shortens the tail by its newline. */
  lemma RewrittenPieces(row: string, key: string)
    requires PREFIX <= row && CanonicalSql(row) == key
    ensures PREFIX <= key && Substr(key, 11, 64) == UpperAll(Substr(row, 11, 64))
    ensures SubstrFrom(key, 75) ==
            if Substr(row, 75, 2) == "\n " then SubstrFrom(row, 76) else SubstrFrom(row, 75)
  {
    Pieces(row);
    var hash := Substr(row, 11, 64);
    var tail := if Substr(row, 75, 2) == "\n " then SubstrFrom(row, 76) else SubstrFrom(row, 75);
    if |hash| == 64 {
      Assembled(UpperAll(hash), tail);
    } else {
      assert tail == "";
      assert key[10..] == UpperAll(hash);
    }
  }

  /** For a well-formed canonical key the scan, which tests neither hex nor length, matches
      exactly the rows that canonicalise to it. */
  lemma ScanFindsSpellings(row: string, canonical: string)
    requires WellFormed(canonical) && CanonicalKey(canonical) == canonical
    ensures ScanMatches(row, canonical) <==> CanonicalKey(row) == canonical
  {
    hide CanonicalKey;
    PrefixBySubstr(row);
    CanonicalAgrees(row);
    CanonicalIdempotent(row);
    if ScanMatches(row, canonical) {
      Pieces(row);
      RewrittenPieces(row, canonical);
      UpperAllIdempotent(Substr(row, 11, 64));
      assert WellFormed(row);
    }
  }
}
