/** SEED in Counter with CBC-MAC mode: the two functions of KISA_SEED_CCM.c against
    NIST SP 800-38C with the formatting of its Appendix A. */
module Ccm {
  import opened Options
  import opened Words
  import opened Numbers
  import opened Seed
  import opened BlockModes
  import opened WordSums
  import opened Shifts

  // ---------- the standard ----------

  /** The parameters section A.1 allows, for payloads whose length the code can take. */
  predicate Valid(nonce: seq<bv8>, p: seq<bv8>, a: seq<bv8>, macLen: nat) {
    7 <= |nonce| <= 13 && 4 <= macLen <= 16 && macLen % 2 == 0 &&
    |a| < Pow256(8) && |p| < Pow256(15 - |nonce|) && |p| < 0x1_0000_0000
  }

  /** The flags of B0: Adata, the encoded tag length and the encoded width of the length field. */
  function Flags(n: nat, hasData: bool, macLen: nat): (f: nat)
    requires 7 <= n <= 13 && 4 <= macLen <= 16
    ensures f < 256
  {
    (if hasData then 64 else 0) + 8 * ((macLen - 2) / 2) + (14 - n)
  }

  function B0(nonce: seq<bv8>, p: seq<bv8>, a: seq<bv8>, macLen: nat): Block
    requires Valid(nonce, p, a, macLen)
  {
    [ByteOf(Flags(|nonce|, a != [], macLen))] + nonce + BE(|p|, 15 - |nonce|)
  }

  /** The length of the associated data as section A.2.2 encodes it. */
  function LengthBytes(n: nat): seq<bv8> {
    if n < 0xFF00 then BE(n, 2)
    else if n < 0x1_0000_0000 then [0xFF, 0xFE] + BE(n, 4)
    else [0xFF, 0xFF] + BE(n, 8)
  }

  function DataBlocks(a: seq<bv8>): seq<Block> {
    if a == [] then [] else ToBlocks(LengthBytes(|a|) + a)
  }

  /** The formatted input of the CBC-MAC, section A.2. */
  function Format(nonce: seq<bv8>, p: seq<bv8>, a: seq<bv8>, macLen: nat): seq<Block>
    requires Valid(nonce, p, a, macLen)
  {
    [B0(nonce, p, a, macLen)] + DataBlocks(a) + ToBlocks(p)
  }

  /** The counter block Ctr_i, section A.3. */
  function Ctr(nonce: seq<bv8>, i: nat): Block
    requires 7 <= |nonce| <= 13
  {
    [ByteOf(14 - |nonce|)] + nonce + BE(i, 15 - |nonce|)
  }

  function CbcMac(c: Cipher, y: Block, bs: seq<Block>): Block
    decreases |bs|
  {
    if bs == [] then y else CbcMac(c, E(c, Xor(bs[0], y)), bs[1..])
  }

  /** Generation-encryption, section 6.1. */
  function CcmSeal(c: Cipher, nonce: seq<bv8>, p: seq<bv8>, a: seq<bv8>, macLen: nat): seq<bv8>
    requires Valid(nonce, p, a, macLen)
  {
    Gctr(c, Ctr(nonce, 1), 15 - |nonce|, p) +
    Xor(E(c, Ctr(nonce, 0)), CbcMac(c, ZERO_BLOCK, Format(nonce, p, a, macLen)))[..macLen]
  }

  // ---------- the formatting is injective and prefix-free ----------

  lemma FlagsDecode(n: nat, d: bool, m: nat, n': nat, d': bool, m': nat)
    requires 7 <= n <= 13 && 4 <= m <= 16 && m % 2 == 0
    requires 7 <= n' <= 13 && 4 <= m' <= 16 && m' % 2 == 0
    requires Flags(n, d, m) == Flags(n', d', m')
    ensures n == n' && d == d' && m == m'
  {
  }

  lemma ToBlocksLength(s: seq<bv8>)
    ensures |ToBlocks(s)| == BlockCount(|s|)
  {
    hide Pad16;
    if s == [] {
    } else {
      ToBlocksLength(s[Min(16, |s|)..]);
    }
  }

  lemma {:induction false} ToBlocksInjective(s: seq<bv8>, t: seq<bv8>)
    requires |s| == |t| && ToBlocks(s) == ToBlocks(t)
    ensures s == t
    decreases |s|
  {
    if s == [] {
    } else {
      var n := Min(16, |s|);
      var x, y := Pad16(s[..n]), Pad16(t[..n]);
      assert ToBlocks(s)[0] == x && ToBlocks(t)[0] == y;
      assert ToBlocks(s)[1..] == ToBlocks(s[n..]) && ToBlocks(t)[1..] == ToBlocks(t[n..]);
      assert s[..n] == x[..n] && t[..n] == y[..n];
      ToBlocksInjective(s[n..], t[n..]);
      assert s == s[..n] + s[n..] && t == t[..n] + t[n..];
    }
  }

  /** B0 alone determines the lengths of nonce, tag and payload, the nonce, and whether there is data. */
  lemma B0Decode(n: seq<bv8>, p: seq<bv8>, a: seq<bv8>, m: nat, n': seq<bv8>, p': seq<bv8>, a': seq<bv8>, m': nat)
    requires Valid(n, p, a, m) && Valid(n', p', a', m')
    requires B0(n, p, a, m) == B0(n', p', a', m')
    ensures n == n' && |p| == |p'| && m == m' && (a == [] <==> a' == [])
  {
    hide BE, ByteOf, Flags, Pow256, Num;
    var b := B0(n, p, a, m);
    ByteOfValue(Flags(|n|, a != [], m));
    ByteOfValue(Flags(|n'|, a' != [], m'));
    assert b[0] == ByteOf(Flags(|n|, a != [], m)) && b[0] == ByteOf(Flags(|n'|, a' != [], m'));
    FlagsDecode(|n|, a != [], m, |n'|, a' != [], m');
    assert n == b[1..1 + |n|] && n' == b[1..1 + |n|];
    assert BE(|p|, 15 - |n|) == b[1 + |n|..] && BE(|p'|, 15 - |n|) == b[1 + |n|..];
    NumBE(|p|, 15 - |n|);
    NumBE(|p'|, 15 - |n|);
  }

  lemma TwoBytes(n: nat)
    ensures BE(n, 2) == [ByteOf(n / 256 % 256), ByteOf(n % 256)]
  {
    hide ByteOf;
    assert BE(n / 256, 1) == BE(n / 256 / 256, 0) + [ByteOf(n / 256 % 256)];
  }

  /** The encodings of section A.2.2 are told apart by their first two bytes. */
  lemma LengthBytesShape(n: nat)
    requires n < Pow256(8)
    ensures var f := LengthBytes(n);
            (n < 0xFF00 ==> |f| == 2 && f[0] != 0xFF && Num(f) == n) &&
            (0xFF00 <= n < 0x1_0000_0000 ==> |f| == 6 && f[..2] == [0xFF, 0xFE] && Num(f[2..]) == n) &&
            (0x1_0000_0000 <= n ==> |f| == 10 && f[..2] == [0xFF, 0xFF] && Num(f[2..]) == n)
  {
    Pow256Values();
    hide BE, ByteOf, Num, Pow256;
    if n < 0xFF00 {
      TwoBytes(n);
      ByteOfValue(n / 256 % 256);
      AllOnes();
      hide Val;
      NumBE(n, 2);
    } else if n < 0x1_0000_0000 {
      NumBE(n, 4);
    } else {
      NumBE(n, 8);
    }
  }

  lemma AllOnes()
    ensures Val(0xFF) == 255
  {
  }

  lemma LengthBytesLength(n: nat)
    ensures 2 <= |LengthBytes(n)| <= 10
  {
    hide BE;
  }

  lemma PrefixParts(f: seq<bv8>, b: Block)
    requires f <= b && |f| >= 2
    ensures f == b[..|f|] && f[0] == b[0] && f[..2] == [b[0], b[1]] && f[2..] == b[2..|f|]
  {
  }

  /** A block that begins with an encoded length tells it. */
  lemma LengthRead(n: nat, b: Block)
    requires n < Pow256(8) && LengthBytes(n) <= b
    ensures n < 0xFF00 ==> b[0] != 0xFF && n == Num(b[..2])
    ensures 0xFF00 <= n < 0x1_0000_0000 ==> b[0] == 0xFF && b[1] == 0xFE && n == Num(b[2..6])
    ensures 0x1_0000_0000 <= n ==> b[0] == 0xFF && b[1] == 0xFF && n == Num(b[2..10])
  {
    LengthBytesShape(n);
    LengthBytesLength(n);
    hide LengthBytes, Num, Pow256;
    PrefixParts(LengthBytes(n), b);
  }

  lemma SameLength(n: nat, n': nat, b: Block)
    requires n < Pow256(8) && n' < Pow256(8)
    requires LengthBytes(n) <= b && LengthBytes(n') <= b
    ensures n == n'
  {
    hide LengthBytes, Num, Pow256;
    LengthRead(n, b);
    LengthRead(n', b);
  }

  /** The first data block determines the length of the associated data. */
  lemma DataLengthDecode(a: seq<bv8>, a': seq<bv8>)
    requires a != [] && a' != [] && |a| < Pow256(8) && |a'| < Pow256(8)
    requires DataBlocks(a) != [] && DataBlocks(a') != [] && DataBlocks(a)[0] == DataBlocks(a')[0]
    ensures |a| == |a'|
  {
    hide LengthBytes, DataBlocks, Pow256;
    DataLengthField(a);
    DataLengthField(a');
    SameLength(|a|, |a'|, DataBlocks(a)[0]);
  }

  lemma DataLengthField(a: seq<bv8>)
    requires a != []
    ensures DataBlocks(a) != [] && LengthBytes(|a|) <= DataBlocks(a)[0]
  {
    LengthBytesLength(|a|);
    hide LengthBytes;
    BlockHead(LengthBytes(|a|), a);
  }

  lemma BlockHead(f: seq<bv8>, a: seq<bv8>)
    requires 0 < |f| <= 16
    ensures ToBlocks(f + a) != [] && f <= ToBlocks(f + a)[0]
  {
    var s := f + a;
    var n := Min(16, |s|);
    assert ToBlocks(s)[0] == Pad16(s[..n]);
    assert Pad16(s[..n])[..|f|] == f;
  }

  /** Appendix A.2: the formatted blocks determine nonce, payload, data and tag length,
      and no formatted sequence is a proper prefix of another. */
  lemma FormatPrefixFree(n: seq<bv8>, p: seq<bv8>, a: seq<bv8>, m: nat, n': seq<bv8>, p': seq<bv8>, a': seq<bv8>,
                         m': nat)
    requires Valid(n, p, a, m) && Valid(n', p', a', m')
    requires Format(n, p, a, m) <= Format(n', p', a', m')
    ensures n == n' && p == p' && a == a' && m == m'
  {
    hide B0, ToBlocks, DataBlocks, Pow256;
    var f, f' := Format(n, p, a, m), Format(n', p', a', m');
    assert f[0] == B0(n, p, a, m) && f'[0] == B0(n', p', a', m');
    B0Decode(n, p, a, m, n', p', a', m');
    SameDataLength(n, p, a, m, n', p', a', m');
    ToBlocksLength(p);
    ToBlocksLength(p');
    DataBlocksLength(a);
    DataBlocksLength(a');
    var k := 1 + |DataBlocks(a)|;
    assert DataBlocks(a) == f[1..k] && DataBlocks(a') == f'[1..k];
    assert ToBlocks(p) == f[k..] && ToBlocks(p') == f'[k..];
    assert f == f';
    ToBlocksInjective(p, p');
    DataBlocksInjective(a, a');
  }

  lemma SameDataLength(n: seq<bv8>, p: seq<bv8>, a: seq<bv8>, m: nat, n': seq<bv8>, p': seq<bv8>, a': seq<bv8>, m': nat)
    requires Valid(n, p, a, m) && Valid(n', p', a', m')
    requires Format(n, p, a, m) <= Format(n', p', a', m')
    requires a == [] <==> a' == []
    ensures |a| == |a'|
  {
    hide B0, ToBlocks, DataBlocks, Pow256, LengthBytes;
    if a != [] {
      var f, f' := Format(n, p, a, m), Format(n', p', a', m');
      DataLengthField(a);
      DataLengthField(a');
      assert f[1] == DataBlocks(a)[0] && f'[1] == DataBlocks(a')[0];
      DataLengthDecode(a, a');
    }
  }

  lemma DataBlocksLength(a: seq<bv8>)
    ensures |DataBlocks(a)| == if a == [] then 0 else BlockCount(|LengthBytes(|a|)| + |a|)
  {
    hide LengthBytes, ToBlocks;
    ToBlocksLength(LengthBytes(|a|) + a);
  }

  lemma DataBlocksInjective(a: seq<bv8>, a': seq<bv8>)
    requires |a| == |a'| && DataBlocks(a) == DataBlocks(a')
    ensures a == a'
  {
    hide LengthBytes, ToBlocks;
    if a != [] {
      var f := LengthBytes(|a|);
      ToBlocksInjective(f + a, f + a');
      assert a == (f + a)[|f|..] && a' == (f + a')[|f|..];
    }
  }

  // ---------- what the code computes ----------

  /** The low byte of the flag word built for B0: unsigned arithmetic wraps when macLen < 2 or
      nonceLen > 14. */
  function CodeFlag(n: nat, hasData: bool, macLen: nat): bv8
    requires n <= 16
  {
    XorByte(XorByte(if hasData then 0x40 else 0, MacPart(macLen)), NoncePart(n))
  }

  function MacPart(macLen: nat): bv8 {
    ByteOf((if macLen >= 2 then (macLen - 2) / 2 * 8 else 0x7FFF_FFFF * 8) % 256)
  }

  function NoncePart(n: nat): bv8
    requires n <= 16
  {
    ByteOf((270 - n) % 256)
  }

  /** A nonce moved one byte to the right, behind a flag byte. */
  function Flagged(flag: bv8, nonce: seq<bv8>): Block
    requires |nonce| <= 16
  {
    [flag] + Pad16(nonce)[..15]
  }

  function CodeCtr0(nonce: seq<bv8>): Block
    requires |nonce| <= 16
  {
    Flagged(NoncePart(|nonce|), nonce)
  }

  function CodeB0(nonce: seq<bv8>, n: nat, hasData: bool, macLen: nat): Block
    requires |nonce| <= 16
  {
    Xor(Flagged(CodeFlag(|nonce|, hasData, macLen), nonce), Zeros(12) + BE(n, 4))
  }

  /** The code always encodes the length of the data in two bytes, and keeps its low sixteen bits. */
  function CodeDataBlocks(a: seq<bv8>): seq<Block> {
    if a == [] then [] else ToBlocks(BE(|a|, 2) + a)
  }

  function CodeBlocks(nonce: seq<bv8>, p: seq<bv8>, a: seq<bv8>, macLen: nat): seq<Block>
    requires |nonce| <= 16
  {
    [CodeB0(nonce, |p|, a != [], macLen)] + CodeDataBlocks(a) + ToBlocks(p)
  }

  function CodeText(c: Cipher, nonce: seq<bv8>, x: seq<bv8>): (r: seq<bv8>)
    requires |nonce| <= 16
    ensures |r| == |x|
  {
    Gctr(c, Inc(CodeCtr0(nonce), 8), 8, x)
  }

  /** The full-length tag over the payload p. */
  function CodeTag(c: Cipher, nonce: seq<bv8>, p: seq<bv8>, a: seq<bv8>, macLen: nat): Block
    requires |nonce| <= 16
  {
    Xor(E(c, CodeCtr0(nonce)), CbcMac(c, ZERO_BLOCK, CodeBlocks(nonce, p, a, macLen)))
  }

  function CodeSeal(c: Cipher, nonce: seq<bv8>, p: seq<bv8>, a: seq<bv8>, macLen: nat): (r: seq<bv8>)
    requires |nonce| <= 16 && macLen <= 16
    ensures |r| == |p| + macLen
  {
    CodeText(c, nonce, p) + CodeTag(c, nonce, p, a, macLen)[..macLen]
  }

  /** What encryption leaves when the payload is overwritten by its ciphertext: the tag is then
      computed over the ciphertext. */
  function InPlaceSeal(c: Cipher, nonce: seq<bv8>, p: seq<bv8>, a: seq<bv8>, macLen: nat): (r: seq<bv8>)
    requires |nonce| <= 16 && macLen <= 16
    ensures |r| == |p| + macLen
  {
    var x := CodeText(c, nonce, p);
    x + CodeTag(c, nonce, x, a, macLen)[..macLen]
  }

  /** Decryption-verification, section 6.2. */
  function CodeOpen(c: Cipher, nonce: seq<bv8>, x: seq<bv8>, a: seq<bv8>, macLen: nat): Option<seq<bv8>>
    requires |nonce| <= 16 && macLen <= 16 && macLen <= |x|
  {
    var n := |x| - macLen;
    var p := CodeText(c, nonce, x[..n]);
    if CodeTag(c, nonce, p, a, macLen)[..macLen] == x[n..] then Some(p) else None
  }

  /** Opening accepts exactly the sealed texts, and returns what was sealed. */
  lemma OpenIffSealed(c: Cipher, nonce: seq<bv8>, x: seq<bv8>, a: seq<bv8>, macLen: nat, p: seq<bv8>)
    requires |nonce| <= 16 && macLen <= 16 && macLen <= |x|
    ensures CodeOpen(c, nonce, x, a, macLen) == Some(p) <==> x == CodeSeal(c, nonce, p, a, macLen)
  {
    hide Gctr, CodeCtr0, CodeTag, Inc;
    var n := |x| - macLen;
    GctrTwice(c, Inc(CodeCtr0(nonce), 8), 8, x[..n]);
    GctrTwice(c, Inc(CodeCtr0(nonce), 8), 8, p);
    assert x == x[..n] + x[n..];
  }

  /** Decryption of encryption's output returns the payload. */
  lemma OpenSeal(c: Cipher, nonce: seq<bv8>, p: seq<bv8>, a: seq<bv8>, macLen: nat)
    requires |nonce| <= 16 && macLen <= 16
    ensures CodeOpen(c, nonce, CodeSeal(c, nonce, p, a, macLen), a, macLen) == Some(p)
  {
    hide CodeOpen, CodeTag, CodeText;
    OpenIffSealed(c, nonce, CodeSeal(c, nonce, p, a, macLen), a, macLen, p);
  }

  /** A text sealed in place opens exactly when the tags over payload and ciphertext coincide. */
  lemma InPlaceOpens(c: Cipher, nonce: seq<bv8>, p: seq<bv8>, a: seq<bv8>, macLen: nat)
    requires |nonce| <= 16 && macLen <= 16
    ensures var r := CodeOpen(c, nonce, InPlaceSeal(c, nonce, p, a, macLen), a, macLen);
            var x := CodeText(c, nonce, p);
            r == (if CodeTag(c, nonce, x, a, macLen)[..macLen] == CodeTag(c, nonce, p, a, macLen)[..macLen]
                  then Some(p) else None)
  {
    hide Gctr, CodeCtr0, CodeTag, Inc;
    GctrTwice(c, Inc(CodeCtr0(nonce), 8), 8, p);
    hide CodeText;
    var x, s := CodeText(c, nonce, p), InPlaceSeal(c, nonce, p, a, macLen);
    assert s[..|p|] == x && s[|p|..] == CodeTag(c, nonce, x, a, macLen)[..macLen];
  }

  // ---------- where the code meets the standard ----------

  /** Bytes without common bits: exclusive or is addition. */
  lemma XorLow3(a: bv8, b: bv8)
    requires Val(a) % 8 == 0 && Val(b) < 8
    ensures Val(XorByte(a, b)) == Val(a) + Val(b)
  {
  }

  lemma XorBit6(b: bv8)
    requires Val(b) < 64
    ensures Val(XorByte(0x40, b)) == 64 + Val(b)
    ensures XorByte(0, b) == b
  {
  }

  lemma CodeFlagValue(n: nat, hasData: bool, macLen: nat)
    requires 7 <= n <= 13 && 4 <= macLen <= 16 && macLen % 2 == 0
    ensures CodeFlag(n, hasData, macLen) == ByteOf(Flags(n, hasData, macLen))
    ensures NoncePart(n) == ByteOf(14 - n)
  {
    hide ByteOf, XorByte, Val;
    var k := (macLen - 2) / 2 * 8;
    assert 8 <= k <= 56 && k % 8 == 0;
    assert (270 - n) % 256 == 14 - n;
    var mac, low := ByteOf(k), ByteOf(14 - n);
    ByteOfValue(k);
    ByteOfValue(14 - n);
    var top: bv8 := if hasData then 0x40 else 0;
    XorAssocByte(top, mac, low);
    XorLow3(mac, low);
    XorBit6(XorByte(mac, low));
    ByteOfEquals(CodeFlag(n, hasData, macLen), Flags(n, hasData, macLen));
  }

  lemma XorAssocByte(a: bv8, b: bv8, c: bv8)
    ensures XorByte(XorByte(a, b), c) == XorByte(a, XorByte(b, c))
  {
  }

  lemma CodeCtr0Is(nonce: seq<bv8>)
    requires 7 <= |nonce| <= 13
    ensures CodeCtr0(nonce) == Ctr(nonce, 0)
  {
    hide ByteOf, BE;
    CodeFlagValue(|nonce|, false, 4);
    BEZero(15 - |nonce|);
    hide NoncePart;
  }

  /** XORing the 32-bit length into the last word writes the length field. */
  lemma CodeB0Is(nonce: seq<bv8>, p: seq<bv8>, a: seq<bv8>, macLen: nat)
    requires Valid(nonce, p, a, macLen)
    ensures CodeB0(nonce, |p|, a != [], macLen) == B0(nonce, p, a, macLen)
  {
    var q := 15 - |nonce|;
    CodeFlagValue(|nonce|, a != [], macLen);
    hide ByteOf, BE, CodeFlag, XorByte, Pow256;
    LengthField(|p|, q);
    var f := CodeFlag(|nonce|, a != [], macLen);
    assert Flagged(f, nonce) == ([f] + nonce) + Zeros(q);
    XorApart([f] + nonce, BE(|p|, q));
  }

  /** Strings that do not overlap are joined by exclusive or. */
  lemma XorApart(x: seq<bv8>, y: seq<bv8>)
    ensures Xor(x + Zeros(|y|), Zeros(|x|) + y) == x + y
  {
    XorByteZero();
    hide XorByte;
  }

  lemma LengthField(n: nat, q: nat)
    requires 2 <= q <= 8 && n < Pow256(q) && n < 0x1_0000_0000
    ensures Zeros(12) + BE(n, 4) == Zeros(16 - q) + BE(n, q)
  {
    Pow256Values();
    hide BE, Pow256;
    if q <= 4 {
      BEExtend(n, q, 4 - q);
    } else {
      BEExtend(n, 4, q - 4);
    }
  }

  /** The number of blocks, or the first two bytes, tell a long text's two encodings apart. */
  lemma DataBlocksExact(a: seq<bv8>)
    requires |a| < 0x1_0000_0000
    ensures CodeDataBlocks(a) == DataBlocks(a) <==> |a| < 0xFF00
  {
    if |a| >= 0xFF00 {
      LongDataDiffers(a);
    }
    hide ToBlocks, BE;
  }

  lemma LongDataDiffers(a: seq<bv8>)
    requires 0xFF00 <= |a| < 0x1_0000_0000
    ensures CodeDataBlocks(a) != DataBlocks(a)
  {
    hide ToBlocks, BE, Pad16;
    var n := |a|;
    var f, g := BE(n, 2), [0xFF, 0xFE] + BE(n, 4);
    ToBlocksLength(f + a);
    ToBlocksLength(g + a);
    if CodeDataBlocks(a) == DataBlocks(a) {
      CodeDataHead(a);
      LongHead(a);
      assert f == [0xFF, 0xFE];
      LowBytes(n);
      LongCounts(n);
      assert false;
    }
  }

  lemma LowBytes(n: nat)
    requires BE(n, 2) == [0xFF, 0xFE]
    ensures n % 0x1_0000 == 0xFFFE
  {
    TwoBytes(n);
    ByteOfValue(n / 256 % 256);
    ByteOfValue(n % 256);
    hide BE, ByteOf;
    assert Val(0xFF) == 255 && Val(0xFE) == 254;
  }

  lemma LongCounts(n: nat)
    requires n % 0x1_0000 == 0xFFFE
    ensures BlockCount(2 + n) != BlockCount(6 + n)
  {
    var k := n / 0x1_0000;
    assert 2 + n == 16 * (0x1000 * k + 0x1000);
  }

  /** The blocks the code feeds to the CBC-MAC are the standard's exactly when the length of the
      associated data takes two bytes in the standard too. */
  lemma CodeBlocksExact(nonce: seq<bv8>, p: seq<bv8>, a: seq<bv8>, macLen: nat)
    requires Valid(nonce, p, a, macLen) && |a| < 0x1_0000_0000
    ensures CodeBlocks(nonce, p, a, macLen) == Format(nonce, p, a, macLen) <==> |a| < 0xFF00
  {
    hide CodeB0, B0, CodeDataBlocks, DataBlocks, ToBlocks, Pow256;
    CodeB0Is(nonce, p, a, macLen);
    DataBlocksExact(a);
    var h, t := [B0(nonce, p, a, macLen)], ToBlocks(p);
    if h + CodeDataBlocks(a) + t == h + DataBlocks(a) + t {
      CancelEnds(h, CodeDataBlocks(a), DataBlocks(a), t);
    }
  }

  lemma CancelEnds<T>(h: seq<T>, x: seq<T>, y: seq<T>, t: seq<T>)
    requires h + x + t == h + y + t
    ensures x == y
  {
    var s := h + x + t;
    assert |x| == |s| - |h| - |t| && |y| == |s| - |h| - |t|;
    assert x == s[|h|..|h| + |x|] && y == s[|h|..|h| + |y|];
  }

  /** For 65536 bytes of data the standard's second block begins with 0xFFFE, the code's with zeros. */
  lemma LongData(nonce: seq<bv8>, p: seq<bv8>, a: seq<bv8>)
    requires |nonce| == 13 && p == [] && |a| == 0x1_0000
    ensures Valid(nonce, p, a, 16)
    ensures [0, 0] <= CodeBlocks(nonce, p, a, 16)[1] && [0xFF, 0xFE] <= Format(nonce, p, a, 16)[1]
  {
    Pow256Values();
    TwoBytes(|a|);
    hide CodeB0, B0, Pow256, BE, CodeDataBlocks, DataBlocks, ToBlocks;
    LongHead(a);
    CodeDataHead(a);
    assert CodeBlocks(nonce, p, a, 16)[1] == CodeDataBlocks(a)[0];
    assert Format(nonce, p, a, 16)[1] == DataBlocks(a)[0];
  }

  lemma CodeDataHead(a: seq<bv8>)
    requires a != []
    ensures CodeDataBlocks(a) != [] && BE(|a|, 2) <= CodeDataBlocks(a)[0]
  {
    hide BE, ToBlocks;
    BlockHead(BE(|a|, 2), a);
  }

  lemma LongHead(a: seq<bv8>)
    requires 0xFF00 <= |a| < 0x1_0000_0000
    ensures DataBlocks(a) != [] && [0xFF, 0xFE] <= DataBlocks(a)[0]
  {
    DataLengthField(a);
    hide BE, ToBlocks, DataBlocks;
  }

  lemma CtrInc(nonce: seq<bv8>, i: nat)
    requires 7 <= |nonce| <= 13 && i < Pow256(15 - |nonce|)
    ensures IncN(Ctr(nonce, 0), 15 - |nonce|, i) == Ctr(nonce, i)
  {
    hide BE, ByteOf, Num, Pow256;
    var q := 15 - |nonce|;
    assert Ctr(nonce, 0)[16 - q..] == BE(0, q);
    NumBE(0, q);
    ModSmall(i, Pow256(q));
  }

  /** Every counter block of a run is the standard's Ctr_i. */
  lemma CodeCounters(nonce: seq<bv8>, i: nat)
    requires 7 <= |nonce| <= 13 && i < Pow256(15 - |nonce|)
    ensures IncN(CodeCtr0(nonce), 8, i) == Ctr(nonce, i)
  {
    hide IncN, Ctr, CodeCtr0, Num, Pow256;
    var q := 15 - |nonce|;
    CodeCtr0Is(nonce);
    CtrInc(nonce, i);
    if q < 8 {
      CtrTail(nonce);
      CountersAgree(Ctr(nonce, 0), q, 8, i);
    }
  }

  lemma CtrTail(nonce: seq<bv8>)
    requires 7 <= |nonce| <= 13
    ensures Num(Ctr(nonce, 0)[|nonce| + 1..]) == 0
  {
    hide BE, ByteOf, Num, Pow256;
    var q := 15 - |nonce|;
    assert Ctr(nonce, 0)[|nonce| + 1..] == BE(0, q);
    NumBE(0, q);
  }

  /** Within a run the counter blocks are pairwise distinct and none of them is B0. */
  lemma CountersDistinct(nonce: seq<bv8>, p: seq<bv8>, a: seq<bv8>, macLen: nat, i: nat, j: nat)
    requires Valid(nonce, p, a, macLen) && i < j <= BlockCount(|p|)
    ensures IncN(CodeCtr0(nonce), 8, i) != IncN(CodeCtr0(nonce), 8, j)
    ensures IncN(CodeCtr0(nonce), 8, i) != B0(nonce, p, a, macLen)
    ensures IncN(CodeCtr0(nonce), 8, j) != B0(nonce, p, a, macLen)
  {
    Pow256Values();
    hide Pow256, Num, BE, ByteOf;
    IncDistinct(CodeCtr0(nonce), 8, i, j);
    CodeFlagValue(|nonce|, a != [], macLen);
    ByteOfValue(14 - |nonce|);
    ByteOfValue(Flags(|nonce|, a != [], macLen));
    assert IncN(CodeCtr0(nonce), 8, i)[0] == NoncePart(|nonce|);
    assert IncN(CodeCtr0(nonce), 8, j)[0] == NoncePart(|nonce|);
    assert B0(nonce, p, a, macLen)[0] == ByteOf(Flags(|nonce|, a != [], macLen));
  }

  /** For all valid parameters whose data is short enough the code's output is that of CCM. */
  lemma CodeIsCcm(c: Cipher, nonce: seq<bv8>, p: seq<bv8>, a: seq<bv8>, macLen: nat)
    requires Valid(nonce, p, a, macLen) && |a| < 0xFF00
    ensures CodeSeal(c, nonce, p, a, macLen) == CcmSeal(c, nonce, p, a, macLen)
  {
    CodeBlocksExact(nonce, p, a, macLen);
    CodeCtr0Is(nonce);
    hide E, Xor, CbcMac, Format, CodeBlocks;
    CodeTextIs(c, nonce, p);
    hide CodeText, Gctr, Ctr, CodeCtr0;
  }

  lemma CodeTextIs(c: Cipher, nonce: seq<bv8>, p: seq<bv8>)
    requires 7 <= |nonce| <= 13 && |p| < Pow256(15 - |nonce|)
    ensures CodeText(c, nonce, p) == Gctr(c, Ctr(nonce, 1), 15 - |nonce|, p)
  {
    hide E, Gctr, Ctr, CodeCtr0, IncN, Inc, Num, Pow256;
    var q := 15 - |nonce|;
    CodeCtr0Is(nonce);
    Pow256Big(q);
    CtrInc(nonce, 1);
    var c0 := Ctr(nonce, 0);
    IncZero(c0, q);
    IncStep(c0, q, 0);
    if q < 8 {
      CtrTail(nonce);
      IncWidth(c0, q, 8);
      IncTail(c0, q);
      GctrWidth(c, Inc(c0, q), q, 8, p);
    }
  }

  // ---------- the C functions ----------

  lemma {:induction false} CbcMacAppend(c: Cipher, y: Block, xs: seq<Block>, ys: seq<Block>)
    ensures CbcMac(c, y, xs + ys) == CbcMac(c, CbcMac(c, y, xs), ys)
    decreases |xs|
  {
    hide E, Xor;
    if xs == [] {
      assert xs + ys == ys;
    } else {
      assert (xs + ys)[1..] == xs[1..] + ys;
      CbcMacAppend(c, E(c, Xor(xs[0], y)), xs[1..], ys);
    }
  }

  lemma CbcMacOne(c: Cipher, y: Block, x: Block)
    ensures CbcMac(c, y, [x]) == E(c, Xor(x, y))
    ensures CbcMac(c, y, []) == y
  {
    hide E, Xor;
    assert CbcMac(c, E(c, Xor(x, y)), []) == E(c, Xor(x, y));
  }

  /** The loops that feed data[start..len] to the CBC-MAC. The text s they continue is already
      absorbed up to the block boundary in front of start. */
  method MacPass(t: Tables, rKey: array<bv32>, cbcIn: array<bv32>, cbcOut: array<bv32>,
                 data: array<bv8>, start: nat, len: nat,
                 ghost c: Cipher, ghost y: Block, ghost s: seq<bv8>, ghost k: nat)
    requires rKey.Length == 32 && c == Cipher(t, rKey[..])
    requires cbcIn.Length == 4 && cbcOut.Length == 4 && cbcIn != cbcOut && rKey != cbcIn && rKey != cbcOut
    requires start <= len <= data.Length
    requires k <= |s| && s[k..] == data[..len][start..] && (k % 16 == 0 || k == |s|)
    requires Bytes(cbcOut[..]) == CbcMac(c, y, ToBlocks(s[..k]))
    modifies cbcIn, cbcOut
    ensures Bytes(cbcOut[..]) == CbcMac(c, y, ToBlocks(s))
  {
    hide Bytes, E, Xor, Pad16, ToBlocks, CbcMac;
    assert |s[k..]| == |data[..len][start..]|;
    ghost var d := data[..len];
    var i := start;
    ghost var m := k;
    while i < len
      invariant start <= i && m == Min(k + (i - start), |s|) && (m % 16 == 0 || m == |s|)
      invariant (i < len ==> m == k + (i - start)) && (i >= len ==> m == |s|)
      invariant Bytes(cbcOut[..]) == CbcMac(c, y, ToBlocks(s[..m]))
      invariant rKey[..] == c.rk && data[..len] == d
    {
      var n := if len - i < 16 then len - i else 16;
      SliceShift(d, s, start, k, i, n);
      SliceOfPrefix(data[..], len, i, n);
      LoadBlock(cbcIn, data, i, n);
      ToBlocksStep(s, m);
      ghost var b := Pad16(s[m..m + n]);
      CbcMacAppend(c, y, ToBlocks(s[..m]), [b]);
      CbcMacOne(c, Bytes(cbcOut[..]), b);
      Xor128(cbcIn, cbcIn, cbcOut);
      EncryptTo(t, cbcOut, cbcIn, rKey, c);
      i := i + 16;
      m := m + n;
    }
    assert s[..|s|] == s;
  }

  lemma SliceShift(d: seq<bv8>, s: seq<bv8>, start: nat, k: nat, i: nat, n: nat)
    requires start <= i && i + n <= |d| && k <= |s| && s[k..] == d[start..]
    ensures |s| == k + (|d| - start)
    ensures d[i..i + n] == s[k + (i - start)..k + (i - start) + n]
  {
    var j := i - start;
    assert |s[k..]| == |d[start..]|;
    SliceOfSuffix(d, start, j, n);
    SliceOfSuffix(s, k, j, n);
  }

  lemma FlaggedWords(q: Quad, nonce: seq<bv8>, flag: bv8)
    requires |nonce| <= 16 && Bytes(q) == Pad16(nonce)
    ensures var r := QuadShiftr8(q);
            Bytes(r[0 := XorW(r[0], Word(flag, 0, 0, 0))]) == Flagged(flag, nonce)
  {
    hide Bytes, Word, XorW;
    var r := QuadShiftr8(q);
    QuadShiftr8Bytes(q);
    FirstWord(r, flag);
    hide QuadShiftr8;
    XorByteZero();
    hide XorByte;
  }

  lemma FirstWord(r: Quad, flag: bv8)
    ensures Bytes(r[0 := XorW(r[0], Word(flag, 0, 0, 0))]) == Xor(Bytes(r), [flag] + Zeros(15))
  {
    var f: Quad := [Word(flag, 0, 0, 0), 0, 0, 0];
    WordBytesRoundTrip(flag, 0, 0, 0);
    ZeroWordBytes();
    hide WordBytes, Word;
    assert Bytes(f) == [flag] + Zeros(15);
    hide Bytes;
    FirstWordXor(r, f[0]);
    XorQuadBytes(r, f);
  }

  lemma FirstWordXor(r: Quad, w: bv32)
    ensures r[0 := XorW(r[0], w)] == XorQuad(r, [w, 0, 0, 0])
  {
    XorWZero(r[1]);
    XorWZero(r[2]);
    XorWZero(r[3]);
    hide XorW;
  }

  /** Nonce, one byte to the right, behind a flag byte. */
  method LoadFlagged(dst: array<bv32>, nonce: array<bv8>, nonceLen: nat, flag: bv8)
    requires dst.Length == 4 && nonceLen <= 16 && nonceLen <= nonce.Length
    modifies dst
    ensures Bytes(dst[..]) == Flagged(flag, nonce[..nonceLen])
  {
    hide Bytes, Word, XorW, Flagged, Pad16, QuadShiftr8;
    LoadBlock(dst, nonce, 0, nonceLen);
    assert nonce[0..0 + nonceLen] == nonce[..nonceLen];
    ghost var q := dst[..];
    Shiftr8Words(dst);
    ghost var r := dst[..];
    dst[0] := XorW(dst[0], Word(flag, 0, 0, 0));
    assert dst[..] == r[0 := XorW(r[0], Word(flag, 0, 0, 0))];
    FlaggedWords(q, nonce[..nonceLen], flag);
  }

  /** The length word that is added to B0. */
  function LengthWord(n: nat): bv32 {
    var s := BE(n, 4);
    Word(s[0], s[1], s[2], s[3])
  }

  lemma LastWord(r: Quad, n: nat)
    ensures Bytes(r[3 := XorW(r[3], LengthWord(n))]) == Xor(Bytes(r), Zeros(12) + BE(n, 4))
  {
    var s := BE(n, 4);
    var f: Quad := [0, 0, 0, LengthWord(n)];
    WordBytesRoundTrip(s[0], s[1], s[2], s[3]);
    ZeroWordBytes();
    XorWZero(r[0]);
    XorWZero(r[1]);
    XorWZero(r[2]);
    hide WordBytes, Word, XorW, BE;
    assert Bytes(f) == Zeros(12) + s;
    hide Bytes;
    assert r[3 := XorW(r[3], LengthWord(n))] == XorQuad(r, f);
    XorQuadBytes(r, f);
  }

  lemma DataHead(q: Quad, a: seq<bv8>, n: nat)
    requires Bytes(q) == Pad16(a[..Min(14, |a|)])
    requires n == |a|
    ensures var r := QuadShiftr16(q);
            var s := BE(n, 2);
            Bytes(r[0 := XorW(r[0], Word(s[0], s[1], 0, 0))]) == Pad16((s + a)[..Min(16, n + 2)])
  {
    hide Bytes, Word, XorW, BE, XorByte;
    var r := QuadShiftr16(q);
    var s := BE(n, 2);
    QuadShiftr16Bytes(q);
    FirstTwoBytes(r, s[0], s[1]);
    hide QuadShiftr16;
    XorByteZero();
    var x := Pad16(a[..Min(14, |a|)]);
    assert Bytes(r) == [0, 0] + x[..14];
    assert Xor([0, 0] + x[..14], [s[0], s[1]] + Zeros(14)) == [s[0], s[1]] + x[..14];
    assert s == [s[0], s[1]];
  }

  lemma FirstTwoBytes(r: Quad, x: bv8, y: bv8)
    ensures Bytes(r[0 := XorW(r[0], Word(x, y, 0, 0))]) == Xor(Bytes(r), [x, y] + Zeros(14))
  {
    var f: Quad := [Word(x, y, 0, 0), 0, 0, 0];
    WordBytesRoundTrip(x, y, 0, 0);
    ZeroWordBytes();
    hide WordBytes, Word;
    assert Bytes(f) == [x, y] + Zeros(14);
    hide Bytes;
    FirstWordXor(r, f[0]);
    XorQuadBytes(r, f);
  }

  /** CBC_in for B0 and its encryption. */
  method MacStart(t: Tables, rKey: array<bv32>, cbcIn: array<bv32>, cbcOut: array<bv32>,
                  nonce: array<bv8>, nonceLen: nat, n: nat, hasData: bool, macLen: nat, ghost c: Cipher)
    requires rKey.Length == 32 && c == Cipher(t, rKey[..])
    requires cbcIn.Length == 4 && cbcOut.Length == 4 && cbcIn != cbcOut && rKey != cbcIn && rKey != cbcOut
    requires nonceLen <= 16 && nonceLen <= nonce.Length
    modifies cbcIn, cbcOut
    ensures Bytes(cbcOut[..]) == CbcMac(c, ZERO_BLOCK, [CodeB0(nonce[..nonceLen], n, hasData, macLen)])
  {
    hide Bytes, E, Xor, CodeFlag, LengthWord, XorW, CbcMac, Flagged, BE;
    LoadFlagged(cbcIn, nonce, nonceLen, CodeFlag(nonceLen, hasData, macLen));
    ghost var r := cbcIn[..];
    cbcIn[3] := XorW(cbcIn[3], LengthWord(n));
    assert cbcIn[..] == r[3 := XorW(r[3], LengthWord(n))];
    LastWord(r, n);
    EncryptTo(t, cbcOut, cbcIn, rKey, c);
    ghost var b := CodeB0(nonce[..nonceLen], n, hasData, macLen);
    CbcMacOne(c, ZERO_BLOCK, b);
    XorZero(b);
  }

  /** The associated data: a two-byte length, fourteen bytes, then whole blocks. */
  method MacData(t: Tables, rKey: array<bv32>, cbcIn: array<bv32>, cbcOut: array<bv32>,
                 aad: array<bv8>, aadLen: nat, ghost c: Cipher)
    requires rKey.Length == 32 && c == Cipher(t, rKey[..])
    requires cbcIn.Length == 4 && cbcOut.Length == 4 && cbcIn != cbcOut && rKey != cbcIn && rKey != cbcOut
    requires aadLen <= aad.Length
    modifies cbcIn, cbcOut
    ensures Bytes(cbcOut[..]) == CbcMac(c, old(Bytes(cbcOut[..])), CodeDataBlocks(aad[..aadLen]))
  {
    hide Bytes, E, Xor, XorW, CbcMac, BE, Word, Pad16, ToBlocks, QuadShiftr16;
    ghost var y, a := Bytes(cbcOut[..]), aad[..aadLen];
    if aadLen > 0 {
      ghost var s := BE(aadLen, 2) + a;
      var tmpLen := if aadLen > 14 then 14 else aadLen;
      LoadBlock(cbcIn, aad, 0, tmpLen);
      assert aad[0..0 + tmpLen] == a[..Min(14, |a|)];
      DataHead(cbcIn[..], a, aadLen);
      Shiftr16Words(cbcIn);
      ghost var r := cbcIn[..];
      var len := BE(aadLen, 2);
      cbcIn[0] := XorW(cbcIn[0], Word(len[0], len[1], 0, 0));
      assert cbcIn[..] == r[0 := XorW(r[0], Word(len[0], len[1], 0, 0))];
      ghost var k := Min(16, |s|);
      ghost var head := Pad16(s[..k]);
      Xor128(cbcIn, cbcIn, cbcOut);
      EncryptTo(t, cbcOut, cbcIn, rKey, c);
      CbcMacOne(c, y, head);
      FirstBlock(s);
      assert s[k..] == aad[..aadLen][tmpLen..];
      MacPass(t, rKey, cbcIn, cbcOut, aad, tmpLen, aadLen, c, y, s, k);
    } else {
      CbcMacOne(c, y, ZERO_BLOCK);
    }
  }

  lemma FirstBlock(s: seq<bv8>)
    requires s != []
    ensures var k := Min(16, |s|); ToBlocks(s[..k]) == [Pad16(s[..k])]
  {
    hide Pad16;
    var k := Min(16, |s|);
    assert s[..k][..k] == s[..k] && s[..k][k..] == [];
    assert ToBlocks(s[..k]) == [Pad16(s[..k])] + ToBlocks([]);
  }

  /** CBC_out after B0, the associated data and the payload. */
  method ComputeMac(t: Tables, rKey: array<bv32>, nonce: array<bv8>, nonceLen: nat, aad: array<bv8>, aadLen: nat,
                    p: array<bv8>, n: nat, macLen: nat, ghost c: Cipher) returns (cbcOut: array<bv32>)
    requires rKey.Length == 32 && c == Cipher(t, rKey[..])
    requires nonceLen <= 16 && nonceLen <= nonce.Length && aadLen <= aad.Length && n <= p.Length
    ensures fresh(cbcOut) && cbcOut.Length == 4
    ensures Bytes(cbcOut[..]) == CbcMac(c, ZERO_BLOCK, CodeBlocks(nonce[..nonceLen], p[..n], aad[..aadLen], macLen))
  {
    hide Bytes, E, Xor, CbcMac, CodeB0, CodeDataBlocks, ToBlocks;
    var cbcIn := new bv32[4];
    cbcOut := new bv32[4];
    ghost var iv, x, a := nonce[..nonceLen], p[..n], aad[..aadLen];
    ghost var b0 := [CodeB0(iv, n, a != [], macLen)];
    MacStart(t, rKey, cbcIn, cbcOut, nonce, nonceLen, n, aadLen > 0, macLen, c);
    MacData(t, rKey, cbcIn, cbcOut, aad, aadLen, c);
    CbcMacAppend(c, ZERO_BLOCK, b0, CodeDataBlocks(a));
    ghost var y := Bytes(cbcOut[..]);
    assert ToBlocks([]) == [] by { NoBlocks(); }
    CbcMacOne(c, y, ZERO_BLOCK);
    assert x[..0] == [] && x[0..] == p[..n][0..];
    MacPass(t, rKey, cbcIn, cbcOut, p, 0, n, c, y, x, 0);
    CbcMacAppend(c, ZERO_BLOCK, b0 + CodeDataBlocks(a), ToBlocks(x));
  }

  /** The key schedule, Ctr_0 and the mask the tag is combined with. */
  method Setup(t: Tables, mKey: array<bv8>, nonce: array<bv8>, nonceLen: nat)
    returns (rKey: array<bv32>, ctr: array<bv32>, mac: array<bv32>, ghost c: Cipher)
    requires mKey.Length == 16 && nonceLen <= 16 && nonceLen <= nonce.Length
    ensures fresh(rKey) && fresh(ctr) && fresh(mac) && rKey.Length == 32 && ctr.Length == 4 && mac.Length == 4
    ensures rKey != ctr && rKey != mac && ctr != mac
    ensures c == Keyed(t, mKey[..]) && c == Cipher(t, rKey[..])
    ensures Bytes(ctr[..]) == CodeCtr0(nonce[..nonceLen])
    ensures Bytes(mac[..]) == E(c, CodeCtr0(nonce[..nonceLen]))
  {
    hide Bytes, E, Schedule, Flagged, NoncePart;
    rKey := new bv32[32];
    SeedKeySched(t, mKey, rKey);
    c := Cipher(t, rKey[..]);
    ctr := new bv32[4];
    LoadFlagged(ctr, nonce, nonceLen, NoncePart(nonceLen));
    mac := new bv32[4];
    EncryptTo(t, mac, ctr, rKey, c);
  }

  /** The output is what the code computes, and for valid parameters and short enough data that is
      CCM; encryption in place authenticates the ciphertext instead. */
  ghost predicate IsSealed(x: seq<bv8>, inPlace: bool, c: Cipher, nonce: seq<bv8>, p: seq<bv8>, a: seq<bv8>,
                           macLen: nat)
    requires |nonce| <= 16 && macLen <= 16
  {
    if inPlace then x == InPlaceSeal(c, nonce, p, a, macLen)
    else
      x == CodeSeal(c, nonce, p, a, macLen) &&
      (Valid(nonce, p, a, macLen) && |a| < 0xFF00 ==> x == CcmSeal(c, nonce, p, a, macLen))
  }

  lemma SealedByCode(x: seq<bv8>, inPlace: bool, c: Cipher, nonce: seq<bv8>, p: seq<bv8>, a: seq<bv8>, macLen: nat)
    requires |nonce| <= 16 && macLen <= 16
    requires var y := CodeText(c, nonce, p);
             x == y + CodeTag(c, nonce, if inPlace then y else p, a, macLen)[..macLen]
    ensures IsSealed(x, inPlace, c, nonce, p, a, macLen)
  {
    hide CcmSeal, CodeText, CodeTag, Valid;
    if !inPlace && Valid(nonce, p, a, macLen) && |a| < 0xFF00 {
      CodeIsCcm(c, nonce, p, a, macLen);
    }
  }

  /** SEED_CCM_Encryption after the check of macLen. */
  method Seal(t: Tables, ct: array<bv8>, pt: array<bv8>, ptLen: nat, macLen: nat,
              nonce: array<bv8>, nonceLen: nat, aad: array<bv8>, aadLen: nat, mKey: array<bv8>)
    requires mKey.Length == 16 && macLen <= 16 && nonceLen <= 16
    requires ptLen <= pt.Length && nonceLen <= nonce.Length && aadLen <= aad.Length
    requires ptLen + macLen <= ct.Length
    requires ct != nonce && ct != aad && ct != mKey
    modifies ct
    ensures IsSealed(ct[..ptLen + macLen], ct == pt, Keyed(t, mKey[..]), nonce[..nonceLen], old(pt[..ptLen]),
                     aad[..aadLen], macLen)
    ensures ct[ptLen + macLen..] == old(ct[ptLen + macLen..])
  {
    hide Bytes, E, Xor, CodeCtr0, Gctr, Inc, CbcMac, CodeBlocks, Keyed, IsSealed;
    ghost var d := ct[..];
    var rKey, ctr, mac;
    ghost var c;
    rKey, ctr, mac, c := Setup(t, mKey, nonce, nonceLen);
    ghost var iv, p, a := nonce[..nonceLen], pt[..ptLen], aad[..aadLen];
    CounterPass(t, rKey, ctr, pt, ct, ptLen, c);
    ghost var x := CodeText(c, iv, p);
    JoinTag(ct[..], x, d, ptLen, macLen);
    ghost var hashed := if ct == pt then x else p;
    assert pt[..ptLen] == hashed;
    var cbcOut := ComputeMac(t, rKey, nonce, nonceLen, aad, aadLen, pt, ptLen, macLen, c);
    Xor128(mac, mac, cbcOut);
    Word2Byte(ct, ptLen, mac, macLen);
    assert ct[..ptLen + macLen] == x + CodeTag(c, iv, hashed, a, macLen)[..macLen];
    hide CodeText, CodeTag;
    SealedByCode(ct[..ptLen + macLen], ct == pt, c, iv, p, a, macLen);
  }

  method SeedCcmEncryption(t: Tables, ct: array<bv8>, pt: array<bv8>, ptLen: nat, macLen: nat,
                           nonce: array<bv8>, nonceLen: nat, aad: array<bv8>, aadLen: nat, mKey: array<bv8>)
    returns (ret: nat, ctLen: nat)
    requires mKey.Length == 16 && (macLen <= 16 ==> nonceLen <= 16)
    requires ptLen <= pt.Length && nonceLen <= nonce.Length && aadLen <= aad.Length
    requires ptLen <= MAX_LEN && aadLen <= MAX_LEN
    requires macLen <= 16 ==> ptLen + macLen <= ct.Length
    requires ct != nonce && ct != aad && ct != mKey
    modifies ct
    ensures macLen > 16 ==> ret == 1 && ctLen == 0 && ct[..] == old(ct[..])
    ensures macLen <= 16 ==> ret == 0 && ctLen == ptLen + macLen && ct[ctLen..] == old(ct[ctLen..])
    ensures macLen <= 16 ==>
      IsSealed(ct[..ctLen], ct == pt, Keyed(t, mKey[..]), nonce[..nonceLen], old(pt[..ptLen]), aad[..aadLen], macLen)
  {
    if macLen > 16 {
      return 1, 0;
    }
    hide Keyed, IsSealed;
    Seal(t, ct, pt, ptLen, macLen, nonce, nonceLen, aad, aadLen, mKey);
    ret, ctLen := 0, ptLen + macLen;
  }

  /** Return code and output of decrypting x into a buffer, the bytes rest behind the text unchanged. */
  ghost predicate Outcome(ret: nat, pt: seq<bv8>, c: Cipher, nonce: seq<bv8>, x: seq<bv8>, a: seq<bv8>,
                          macLen: nat, rest: seq<bv8>)
    requires |nonce| <= 16 && macLen <= 16 && macLen <= |x|
  {
    var n := |x| - macLen;
    var p := CodeText(c, nonce, x[..n]);
    var good := CodeTag(c, nonce, p, a, macLen)[..macLen] == x[n..];
    ret == (if good then 0 else 1) && pt == (if good then p else Zeros(n)) + rest
  }

  lemma SplitAt(s: seq<bv8>, n: nat, m: nat)
    requires n <= m <= |s|
    ensures s[..m][..n] == s[..n] && s[..m][n..] == s[n..m]
  {
  }

  /** SEED_CCM_Decryption after the check of macLen; the text may be decrypted in place. */
  method Open(t: Tables, pt: array<bv8>, ct: array<bv8>, n: nat, macLen: nat,
              nonce: array<bv8>, nonceLen: nat, aad: array<bv8>, aadLen: nat, mKey: array<bv8>,
              ghost key: Cipher, ghost iv: seq<bv8>, ghost x: seq<bv8>, ghost a: seq<bv8>, ghost rest: seq<bv8>)
    returns (ret: nat)
    requires mKey.Length == 16 && macLen <= 16 && nonceLen <= 16
    requires n + macLen <= ct.Length && nonceLen <= nonce.Length && aadLen <= aad.Length && n <= pt.Length
    requires pt != nonce && pt != aad && pt != mKey
    requires key == Keyed(t, mKey[..]) && iv == nonce[..nonceLen] && a == aad[..aadLen]
    requires x == ct[..n + macLen] && rest == pt[n..]
    modifies pt
    ensures Outcome(ret, pt[..], key, iv, x, a, macLen, rest)
  {
    hide Bytes, E, Xor, CodeCtr0, Gctr, Inc, CbcMac, CodeBlocks, Keyed;
    ghost var d := pt[..];
    SplitAt(ct[..], n, n + macLen);
    var rKey, ctr, mac;
    ghost var c;
    rKey, ctr, mac, c := Setup(t, mKey, nonce, nonceLen);
    CounterPass(t, rKey, ctr, ct, pt, n, c);
    ghost var p := CodeText(c, iv, x[..n]);
    JoinTag(pt[..], p, d, n, 0);
    assert ct[n..n + macLen] == x[n..] by {
      if pt == ct { assert pt[n..] == d[n..]; }
    }
    var cbcOut := ComputeMac(t, rKey, nonce, nonceLen, aad, aadLen, pt, n, macLen, c);
    Xor128(mac, mac, cbcOut);
    assert Bytes(mac[..]) == CodeTag(c, iv, p, a, macLen);
    hide CodeText, CodeTag;
    ret := CheckTag(mac, ct, n, macLen, pt);
  }

  /** What decryption leaves: code, length and output. */
  ghost predicate IsOpened(ret: nat, ptLen: nat, pt: seq<bv8>, c: Cipher, nonce: seq<bv8>, x: seq<bv8>, a: seq<bv8>,
                           macLen: nat, ptLenIn: nat, rest: seq<bv8>)
    requires |nonce| <= 16 && macLen <= 16 && macLen <= |x|
  {
    var n := |x| - macLen;
    match CodeOpen(c, nonce, x, a, macLen)
    case Some(p) => ret == 0 && ptLen == n && pt == p + rest
    case None => ret == 1 && ptLen == ptLenIn && pt == Zeros(n) + rest
  }

  lemma OpenedByCode(ret: nat, pt: seq<bv8>, c: Cipher, nonce: seq<bv8>, x: seq<bv8>, a: seq<bv8>, macLen: nat,
                     ptLenIn: nat, rest: seq<bv8>)
    requires |nonce| <= 16 && macLen <= 16 && macLen <= |x|
    requires Outcome(ret, pt, c, nonce, x, a, macLen, rest)
    ensures IsOpened(ret, if ret == 0 then |x| - macLen else ptLenIn, pt, c, nonce, x, a, macLen, ptLenIn, rest)
  {
    hide CodeText, CodeTag;
  }

  method SeedCcmDecryption(t: Tables, pt: array<bv8>, ptLenIn: nat, ct: array<bv8>, ctLen: nat, macLen: nat,
                           nonce: array<bv8>, nonceLen: nat, aad: array<bv8>, aadLen: nat, mKey: array<bv8>)
    returns (ret: nat, ptLen: nat)
    requires mKey.Length == 16 && (macLen <= 16 ==> nonceLen <= 16)
    requires ctLen <= ct.Length && nonceLen <= nonce.Length && aadLen <= aad.Length
    requires ctLen <= MAX_LEN && aadLen <= MAX_LEN
    requires macLen <= 16 ==> macLen <= ctLen && ctLen - macLen <= pt.Length
    requires pt != nonce && pt != aad && pt != mKey
    modifies pt
    ensures macLen > 16 ==> ret == 1 && ptLen == 0 && pt[..] == old(pt[..])
    ensures macLen <= 16 ==>
      IsOpened(ret, ptLen, pt[..], Keyed(t, mKey[..]), nonce[..nonceLen], old(ct[..ctLen]), aad[..aadLen], macLen,
               ptLenIn, old(pt[ctLen - macLen..]))
  {
    if macLen > 16 {
      return 1, 0;
    }
    hide *;
    var n := ctLen - macLen;
    ghost var x, rest, c, iv, a := ct[..ctLen], pt[n..], Keyed(t, mKey[..]), nonce[..nonceLen], aad[..aadLen];
    ret := Open(t, pt, ct, n, macLen, nonce, nonceLen, aad, aadLen, mKey, c, iv, x, a, rest);
    ptLen := if ret == 0 then n else ptLenIn;
    OpenedByCode(ret, pt[..], c, iv, x, a, macLen, ptLenIn, rest);
  }
}
