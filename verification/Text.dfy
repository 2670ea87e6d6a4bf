/** Strings as the program handles them: finite sequences of Unicode scalar values,
    with Python's slices on one side and SQLite's 1-based substr() on the other. */
module Text {

  datatype Option<+T> = None | Some(value: T) {
    function GetOr(default: T): T {
      if None? then default else value
    }
  }

  /** ASCII upper-casing: SQLite's upper(), and str.upper() on hexadecimal digits. */
  function Upper(c: char): char {
    if 'a' <= c <= 'z' then (c as int - 32) as char else c
  }

  function UpperAll(s: string): (u: string)
    ensures |u| == |s|
    ensures forall i | 0 <= i < |s| :: u[i] == Upper(s[i])
  {
    seq(|s|, i requires 0 <= i < |s| => Upper(s[i]))
  }

  predicate HexDigit(c: char) {
    '0' <= c <= '9' || 'A' <= c <= 'F' || 'a' <= c <= 'f'
  }

  predicate AllHex(s: string) {
    forall i | 0 <= i < |s| :: HexDigit(s[i])
  }

  /** fullmatch of [0-9A-Fa-f]{64}. */
  predicate Hex64(s: string) {
    |s| == 64 && AllHex(s)
  }

  /** Python's s[:n]. */
  function Take(s: string, n: nat): string {
    if n <= |s| then s[..n] else s
  }

  /** Python's s[n:]. */
  function Drop(s: string, n: nat): string {
    if n <= |s| then s[n..] else ""
  }

  /** SQLite's substr(s, start, length), with start counted from 1. */
  function Substr(s: string, start: nat, length: nat): string
    requires 1 <= start
  {
    Take(Drop(s, start - 1), length)
  }

  /** SQLite's two-argument substr(s, start). */
  function SubstrFrom(s: string, start: nat): string
    requires 1 <= start
  {
    Drop(s, start - 1)
  }

  lemma UpperAllIdempotent(s: string)
    ensures UpperAll(UpperAll(s)) == UpperAll(s)
    ensures AllHex(s) == AllHex(UpperAll(s))
  {
    forall i | 0 <= i < |s|
      ensures Upper(Upper(s[i])) == Upper(s[i]) && HexDigit(s[i]) == HexDigit(UpperAll(s)[i])
    {
    }
  }
}
