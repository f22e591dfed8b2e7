/** What the output of SEED_CCM_Encryption is, block by block and byte by byte. */
module CcmMac {
  import opened Words
  import opened Numbers
  import opened Seed
  import opened BlockModes
  import opened Ccm

  // ---------- the chain ----------

  /** The values of the CBC-MAC: each is the cipher of the next block combined with the one before. */
  ghost predicate IsChain(c: Cipher, bs: seq<Block>, ys: seq<Block>) {
    |ys| == |bs| + 1 && forall i :: 0 <= i < |bs| ==> ys[i + 1] == E(c, Xor(bs[i], ys[i]))
  }

  lemma {:induction false} ChainIsMac(c: Cipher, bs: seq<Block>, ys: seq<Block>)
    requires IsChain(c, bs, ys)
    ensures CbcMac(c, ys[0], bs) == ys[|bs|]
    decreases |bs|
  {
    hide E, Xor;
    if bs == [] {
    } else {
      var zs := ys[1..];
      assert ys[0 + 1] == E(c, Xor(bs[0], ys[0]));
      forall i | 0 <= i < |bs[1..]|
        ensures zs[i + 1] == E(c, Xor(bs[1..][i], zs[i]))
      {
        assert ys[i + 1 + 1] == E(c, Xor(bs[i + 1], ys[i + 1]));
      }
      ChainIsMac(c, bs[1..], zs);
    }
  }

  // ---------- the blocks ----------

  /** The first block: seven bits of flags, the nonce and the length of the payload. */
  ghost predicate IsFirst(b: Block, nonce: seq<bv8>, p: seq<bv8>, a: seq<bv8>, macLen: nat)
    requires 7 <= |nonce| <= 13
  {
    && Val(b[0]) % 8 == 14 - |nonce|
    && Val(b[0]) / 8 % 8 == (macLen - 2) / 2
    && Val(b[0]) / 64 == (if a == [] then 0 else 1)
    && b[1..1 + |nonce|] == nonce && Num(b[1 + |nonce|..]) == |p|
  }

  /** Counter block i: a byte of flags, the nonce and the number. */
  ghost predicate IsCounter(b: Block, nonce: seq<bv8>, i: nat)
    requires 7 <= |nonce| <= 13
  {
    Val(b[0]) == 14 - |nonce| && b[1..1 + |nonce|] == nonce && Num(b[1 + |nonce|..]) == i
  }

  lemma SameField(s: seq<bv8>, n: nat)
    requires Num(s) == n
    ensures s == BE(n, |s|)
  {
    BENum(s);
  }

  lemma SameByte(b: bv8, n: nat)
    requires Val(b) == n < 256
    ensures b == ByteOf(n)
  {
    ByteValue(b);
  }

  lemma ThreeParts(b: Block, n: nat)
    requires n <= 15
    ensures b == [b[0]] + b[1..1 + n] + b[1 + n..]
  {
  }

  lemma FlagsAre(f: nat, n: nat, hasData: bool, macLen: nat)
    requires 7 <= n <= 13 && 4 <= macLen <= 16
    requires f % 8 == 14 - n && f / 8 % 8 == (macLen - 2) / 2 && f / 64 == if hasData then 1 else 0
    ensures f == Flags(n, hasData, macLen)
  {
    assert f == 64 * (f / 64) + 8 * (f / 8 % 8) + f % 8;
  }

  lemma FirstIs(b: Block, nonce: seq<bv8>, p: seq<bv8>, a: seq<bv8>, macLen: nat)
    requires Valid(nonce, p, a, macLen) && IsFirst(b, nonce, p, a, macLen)
    ensures CodeB0(nonce, |p|, a != [], macLen) == b
  {
    hide Num, BE, ByteOf, CodeB0, Pow256, Val, Flags;
    FlagsAre(Val(b[0]), |nonce|, a != [], macLen);
    SameByte(b[0], Flags(|nonce|, a != [], macLen));
    SameField(b[1 + |nonce|..], |p|);
    CodeB0Is(nonce, p, a, macLen);
    ThreeParts(b, |nonce|);
  }

  lemma CounterIs(b: Block, nonce: seq<bv8>, i: nat)
    requires 7 <= |nonce| <= 13 && IsCounter(b, nonce, i)
    ensures i < Pow256(15 - |nonce|) && IncN(CodeCtr0(nonce), 8, i) == b
  {
    hide Num, BE, ByteOf, CodeCtr0, IncN, Pow256;
    SameByte(b[0], 14 - |nonce|);
    SameField(b[1 + |nonce|..], i);
    NumBound(b[1 + |nonce|..]);
    CodeCounters(nonce, i);
    ThreeParts(b, |nonce|);
  }

  // ---------- the output ----------

  /** The blocks of the associated data behind the two bytes of its length. */
  function DataCount(a: seq<bv8>): nat {
    if a == [] then 0 else BlockCount(2 + |a|)
  }

  /** The chain over the first block, the data behind its length d, and the payload. */
  ghost predicate IsRun(c: Cipher, b0: Block, d: seq<bv8>, a: seq<bv8>, p: seq<bv8>, ys: seq<Block>) {
    var k, n := DataCount(a), BlockCount(|p|);
    && |ys| == k + n + 1 && ys[0] == E(c, b0)
    && (forall i :: 0 <= i < k ==> ys[i + 1] == E(c, Xor(BlockAt(d + a, i), ys[i])))
    && (forall i :: k <= i < k + n ==> ys[i + 1] == E(c, Xor(BlockAt(p, i - k), ys[i])))
  }

  lemma RunIsMac(c: Cipher, nonce: seq<bv8>, p: seq<bv8>, a: seq<bv8>, macLen: nat, b0: Block, d: seq<bv8>,
                 ys: seq<Block>)
    requires |nonce| <= 16 && CodeB0(nonce, |p|, a != [], macLen) == b0
    requires |d| == 2 && Num(d) == |a| % 0x1_0000 && IsRun(c, b0, d, a, p, ys)
    ensures |ys| > 0 && CbcMac(c, ZERO_BLOCK, CodeBlocks(nonce, p, a, macLen)) == ys[|ys| - 1]
  {
    hide E, Xor, CodeB0, ToBlocks, Num, BlockAt, BE;
    var k := DataCount(a);
    DataAre(a, d);
    BlocksAre(p);
    XorZero(b0);
    var bs := CodeBlocks(nonce, p, a, macLen);
    forall i | 0 <= i < |bs|
      ensures ([ZERO_BLOCK] + ys)[i + 1] == E(c, Xor(bs[i], ([ZERO_BLOCK] + ys)[i]))
    {
      if 0 < i <= k {
        assert bs[i] == CodeDataBlocks(a)[i - 1] && ys[i - 1 + 1] == E(c, Xor(BlockAt(d + a, i - 1), ys[i - 1]));
      } else if k < i {
        assert bs[i] == ToBlocks(p)[i - 1 - k] && ys[i - 1 + 1] == E(c, Xor(BlockAt(p, i - 1 - k), ys[i - 1]));
      }
    }
    ChainIsMac(c, bs, [ZERO_BLOCK] + ys);
  }

  lemma DataAre(a: seq<bv8>, d: seq<bv8>)
    requires |d| == 2 && Num(d) == |a| % 0x1_0000
    ensures |CodeDataBlocks(a)| == DataCount(a)
    ensures forall i :: 0 <= i < |CodeDataBlocks(a)| ==> CodeDataBlocks(a)[i] == BlockAt(d + a, i)
  {
    hide ToBlocks, BlockAt, Num, BE;
    if a != [] {
      LowTwo(|a|);
      SameField(d, |a| % 0x1_0000);
      BlocksAre(d + a);
    }
  }

  lemma LowTwo(n: nat)
    ensures BE(n, 2) == BE(n % 0x1_0000, 2)
  {
    hide ByteOf, BE;
    TwoBytes(n);
    TwoBytes(n % 0x1_0000);
    LowSixteenBits(n);
  }

  lemma LowSixteenBits(n: nat)
    ensures n % 0x1_0000 / 256 % 256 == n / 256 % 256 && n % 0x1_0000 % 256 == n % 256
  {
    var q, r := n / 0x1_0000, n % 0x1_0000;
    assert n == 256 * (256 * q) + r;
    assert n / 256 == 256 * q + r / 256;
  }

  /** The tag: the first macLen bytes of the last value of the chain, under the cipher of counter
      block 0. The code writes the length of the data in two bytes, whatever it is. */
  lemma SealedTag(c: Cipher, nonce: seq<bv8>, p: seq<bv8>, a: seq<bv8>, macLen: nat, b0: Block, ctr0: Block,
                  d: seq<bv8>, ys: seq<Block>, i: nat)
    requires Valid(nonce, p, a, macLen) && i < macLen
    requires IsFirst(b0, nonce, p, a, macLen) && IsCounter(ctr0, nonce, 0)
    requires |d| == 2 && Num(d) == |a| % 0x1_0000 && IsRun(c, b0, d, a, p, ys)
    ensures CodeSeal(c, nonce, p, a, macLen)[|p| + i] == E(c, ctr0)[i] ^ ys[|ys| - 1][i]
  {
    hide E, IsFirst, IsCounter, IsRun, CodeB0, CodeCtr0, CodeText, CbcMac, CodeBlocks, XorByte, IncN, Num;
    FirstIs(b0, nonce, p, a, macLen);
    CounterIs(ctr0, nonce, 0);
    IncZero(CodeCtr0(nonce), 8);
    RunIsMac(c, nonce, p, a, macLen, b0, d, ys);
    ByteSum(E(c, ctr0)[i], ys[|ys| - 1][i]);
  }

  /** The ciphertext: byte i is that of the payload combined with the cipher of its counter block. */
  lemma SealedText(c: Cipher, nonce: seq<bv8>, p: seq<bv8>, a: seq<bv8>, macLen: nat, i: nat, ctr: Block)
    requires Valid(nonce, p, a, macLen) && i < |p| && IsCounter(ctr, nonce, i / 16 + 1)
    ensures CodeSeal(c, nonce, p, a, macLen)[i] == p[i] ^ E(c, ctr)[i % 16]
  {
    hide E, IsCounter, CodeCtr0, CodeTag, XorByte, IncN, Inc, Gctr, Pow256;
    CounterIs(ctr, nonce, i / 16 + 1);
    GctrAt(c, Inc(CodeCtr0(nonce), 8), 8, p, i);
    IncStep(CodeCtr0(nonce), 8, i / 16);
    ByteSum(p[i], E(c, ctr)[i % 16]);
  }
}
