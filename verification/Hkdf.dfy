/** The two HKDF-SHA256 loops of the program against section 2 of RFC 5869. HMAC-SHA256 is an
    unknown function of 32-byte results. */
module Hkdf {
  import opened Text
  import opened Addresses

  const HASH_LEN := 32
  const MAX_LENGTH := 255 * HASH_LEN

  type Hmac = (seq<byte>, seq<byte>) -> seq<byte>

  ghost predicate HashSized(hmac: Hmac) {
    forall key, message :: |hmac(key, message)| == HASH_LEN
  }

  /** T(i) of section 2.3: T(0) is empty, T(i) is HMAC(PRK, T(i-1) | info | i). */
  function T(hmac: Hmac, prk: seq<byte>, info: seq<byte>, i: nat): seq<byte>
    requires i <= 255
  {
    if i == 0 then [] else hmac(prk, T(hmac, prk, info, i - 1) + info + [i])
  }

  /** T(1) | ... | T(n). */
  function Blocks(hmac: Hmac, prk: seq<byte>, info: seq<byte>, n: nat): seq<byte>
    requires n <= 255
  {
    if n == 0 then [] else Blocks(hmac, prk, info, n - 1) + T(hmac, prk, info, n)
  }

  lemma {:induction false} BlocksLength(hmac: Hmac, prk: seq<byte>, info: seq<byte>, n: nat)
    requires HashSized(hmac) && n <= 255
    ensures |Blocks(hmac, prk, info, n)| == n * HASH_LEN
  {
    if n > 0 {
      BlocksLength(hmac, prk, info, n - 1);
    }
  }

  lemma {:induction false} BlocksPrefix(hmac: Hmac, prk: seq<byte>, info: seq<byte>, m: nat, n: nat)
    requires m <= n <= 255
    ensures Blocks(hmac, prk, info, m) <= Blocks(hmac, prk, info, n)
    decreases n
  {
    if m < n {
      BlocksPrefix(hmac, prk, info, m, n - 1);
    }
  }

  /** N = ceil(L / HashLen). */
  function BlockCount(length: nat): nat {
    (length + HASH_LEN - 1) / HASH_LEN
  }

  /** OKM: the first L octets of T(1) | ... | T(N). */
  ghost function Okm(hmac: Hmac, prk: seq<byte>, info: seq<byte>, length: nat): (okm: seq<byte>)
    requires HashSized(hmac) && length <= MAX_LENGTH
    ensures |okm| == length
  {
    BlocksLength(hmac, prk, info, BlockCount(length));
    Blocks(hmac, prk, info, BlockCount(length))[..length]
  }

  /** Any number of blocks long enough starts with the output. */
  lemma EnoughBlocks(hmac: Hmac, prk: seq<byte>, info: seq<byte>, length: nat, n: nat)
    requires HashSized(hmac) && length <= n * HASH_LEN && n <= 255
    ensures |Blocks(hmac, prk, info, n)| == n * HASH_LEN
    ensures Blocks(hmac, prk, info, n)[..length] == Okm(hmac, prk, info, length)
  {
    BlocksLength(hmac, prk, info, n);
    BlocksLength(hmac, prk, info, BlockCount(length));
    BlocksPrefix(hmac, prk, info, BlockCount(length), n);
  }

  function ZeroSalt(): (salt: seq<byte>)
    ensures |salt| == HASH_LEN && forall i | 0 <= i < HASH_LEN :: salt[i] == 0
  {
    seq(HASH_LEN, i => 0)
  }

  /** The extract step of section 2.2: HMAC(salt, IKM), HashLen zeros for an absent salt. */
  function Extract(hmac: Hmac, salt: Option<seq<byte>>, ikm: seq<byte>): seq<byte> {
    hmac(if salt.Some? then salt.value else ZeroSalt(), ikm)
  }

  /** `oneshot.hkdf_sha256`: None where bytes([256]) raises, which is exactly past 255 blocks. */
  method HkdfSha256(hmac: Hmac, ikm: seq<byte>, salt: Option<seq<byte>>, info: seq<byte>, length: nat)
    returns (okm: Option<seq<byte>>)
    requires HashSized(hmac)
    ensures length <= MAX_LENGTH ==> okm == Some(Okm(hmac, Extract(hmac, salt, ikm), info, length))
    ensures length > MAX_LENGTH ==> okm.None?
  {
    var prk := Extract(hmac, salt, ikm);
    var out: seq<byte> := [];
    var t: seq<byte> := [];
    var counter := 1;
    while |out| < length
      invariant 1 <= counter <= 256
      invariant out == Blocks(hmac, prk, info, counter - 1) && t == T(hmac, prk, info, counter - 1)
      invariant |out| == (counter - 1) * HASH_LEN
      decreases 256 - counter
    {
      if counter > 255 {
        return None;
      }
      t := hmac(prk, t + info + [counter]);
      out := out + t;
      counter := counter + 1;
    }
    if length <= MAX_LENGTH {
      EnoughBlocks(hmac, prk, info, length, counter - 1);
    }
    return Some(out[..length]);
  }

  /** `buyer._hkdf_sha256`: at most 255 blocks, so a longer request is cut short silently. */
  method SessionHkdfSha256(hmac: Hmac, ikm: seq<byte>, info: seq<byte>, length: nat) returns (okm: seq<byte>)
    requires HashSized(hmac)
    ensures length <= MAX_LENGTH ==> okm == Okm(hmac, Extract(hmac, None, ikm), info, length)
    ensures length > MAX_LENGTH ==> okm == Okm(hmac, Extract(hmac, None, ikm), info, MAX_LENGTH)
  {
    var prk := hmac(ZeroSalt(), ikm);
    var out: seq<byte> := [];
    var t: seq<byte> := [];
    var blocks := 0;
    for counter := 1 to 256
      invariant blocks == counter - 1 && (counter > 1 ==> |out| < length)
      invariant out == Blocks(hmac, prk, info, blocks) && t == T(hmac, prk, info, blocks)
      invariant |out| == blocks * HASH_LEN
    {
      t := hmac(prk, t + info + [counter]);
      out := out + t;
      blocks := counter;
      if |out| >= length {
        break;
      }
    }
    EnoughBlocks(hmac, prk, info, if length <= MAX_LENGTH then length else MAX_LENGTH, blocks);
    okm := if length <= |out| then out[..length] else out;
    assert out[..|out|] == out;
  }

  /** Up to one hash, the output is the head of HMAC(PRK, info | 1). */
  lemma OneBlock(hmac: Hmac, prk: seq<byte>, info: seq<byte>, length: nat)
    requires HashSized(hmac) && length <= HASH_LEN
    ensures Okm(hmac, prk, info, length) == hmac(prk, info + [1])[..length]
  {
    EnoughBlocks(hmac, prk, info, length, 1);
    assert [] + info + [1] == info + [1];
    assert T(hmac, prk, info, 1) == hmac(prk, info + [1]);
    assert Blocks(hmac, prk, info, 1) == [] + T(hmac, prk, info, 1);
  }

  /** A shorter output is a prefix of a longer one. */
  lemma ShorterIsPrefix(hmac: Hmac, prk: seq<byte>, info: seq<byte>, m: nat, n: nat)
    requires HashSized(hmac) && m <= n <= MAX_LENGTH
    ensures Okm(hmac, prk, info, m) == Okm(hmac, prk, info, n)[..m]
  {
    EnoughBlocks(hmac, prk, info, m, 255);
    EnoughBlocks(hmac, prk, info, n, 255);
    assert Blocks(hmac, prk, info, 255)[..n][..m] == Blocks(hmac, prk, info, 255)[..m];
  }
}
