/** The fixed-width bytes a state block's hash and signature are taken over. */
module StateBlocks {
  import opened Text
  import opened Numerals
  import opened Addresses

  const STATE_PREAMBLE := 6

  datatype Block = Block(account: seq<byte>, previous: seq<byte>, representative: seq<byte>, balance: int,
                         link: seq<byte>)

  /** `_block_bytes`; None where it raises ValueError. */
  function BlockBytes(b: Block): Option<seq<byte>> {
    if |b.account| != 32 || |b.previous| != 32 || |b.representative| != 32 || |b.link| != 32 then None
    else if !(0 <= b.balance < Pow(256, 16)) then None
    else
      PreambleFits();
      Some(ToBytes(STATE_PREAMBLE, 32) + b.account + b.previous + b.representative + ToBytes(b.balance, 16) + b.link)
  }

  lemma PreambleFits()
    ensures STATE_PREAMBLE < Pow(256, 32)
  {
    PowPositive(256, 31);
    assert Pow(256, 32) == 256 * Pow(256, 31);
  }

  function ZeroBytes(n: nat): (zeros: seq<byte>)
    ensures |zeros| == n && forall i | 0 <= i < n :: zeros[i] == 0
  {
    seq(n, i => 0)
  }

  lemma {:induction false} LeadingZeros(n: nat, v: byte)
    ensures FromBytes(ZeroBytes(n)) == 0 && FromBytes(ZeroBytes(n) + [v]) == v
  {
    if n > 0 {
      assert ZeroBytes(n)[..n - 1] == ZeroBytes(n - 1);
      LeadingZeros(n - 1, v);
    }
    assert (ZeroBytes(n) + [v])[..|ZeroBytes(n) + [v]| - 1] == ZeroBytes(n);
  }

  /** The layout, byte by byte, and exactly when there is one: a preamble of value six, the account,
      the previous block, the representative, the balance in sixteen big-endian bytes, the link. */
  lemma BlockBytesLayout(b: Block)
    ensures BlockBytes(b).Some? <==>
      && |b.account| == |b.previous| == |b.representative| == |b.link| == 32 && 0 <= b.balance < Pow(2, 128)
    ensures BlockBytes(b).Some? ==>
              var s := BlockBytes(b).value;
              && |s| == 176 && (forall i | 0 <= i < 31 :: s[i] == 0) && s[31] == 6
              && s[32..64] == b.account && s[64..96] == b.previous && s[96..128] == b.representative
              && FromBytes(s[128..144]) == b.balance && s[144..] == b.link
  {
    hide Pow, ToBytes;
    assert Pow(256, 16) == Pow(2, 128) by {
      PowPow(2, 8, 16);
      EightBits();
    }
    if BlockBytes(b).Some? {
      var s := BlockBytes(b).value;
      PreambleFits();
      LeadingZeros(31, 6);
      var preamble := ZeroBytes(31) + [6];
      BytesRoundTrip(preamble);
      assert s[..32] == ToBytes(STATE_PREAMBLE, 32) == preamble;
      assert forall i | 0 <= i < 32 :: s[i] == preamble[i];
      assert s[128..144] == ToBytes(b.balance, 16);
      BytesOfValue(b.balance, 16);
    }
  }

  lemma EightBits()
    ensures Pow(2, 8) == 256
  {
    PowAdd(2, 4, 4);
    assert Pow(2, 4) == 16;
  }

  /** 176 bytes that determine every field: two blocks that hash alike differ nowhere unless
      the hash itself collides. */
  lemma BlockBytesInjective(a: Block, b: Block)
    requires BlockBytes(a).Some? && BlockBytes(a) == BlockBytes(b)
    ensures a == b && |BlockBytes(a).value| == 176
  {
    hide ToBytes, Pow;
    var s, t := BlockBytes(a).value, BlockBytes(b).value;
    assert s[32..64] == a.account && t[32..64] == b.account;
    assert s[64..96] == a.previous && t[64..96] == b.previous;
    assert s[96..128] == a.representative && t[96..128] == b.representative;
    assert s[128..144] == ToBytes(a.balance, 16) && t[128..144] == ToBytes(b.balance, 16);
    assert s[144..] == a.link && t[144..] == b.link;
    BytesOfValue(a.balance, 16);
    BytesOfValue(b.balance, 16);
  }
}
