/** SEED in Galois/Counter Mode: the two functions of KISA_SEED_GCM.c against the
    authenticated encryption of sections 6 and 7 of NIST SP 800-38D. */
module Gcm {
  import opened Options
  import opened Words
  import opened Numbers
  import opened Seed
  import opened BlockModes
  import opened WordSums
  import opened Gf128
  import opened GhashTable

  // ---------- the standard ----------

  /** GHASH_H over a sequence of blocks, continued from y (section 6.4). */
  function Ghash(h: Block, y: Block, xs: seq<Block>): Block
    decreases |xs|
  {
    if xs == [] then y else Ghash(h, Mul(Xor(y, xs[0]), h), xs[1..])
  }

  function HashKey(c: Cipher): Block { E(c, ZERO_BLOCK) }

  /** The bit lengths of the associated data and of the ciphertext, 64 bits each. */
  function LenBlock(a: nat, n: nat): Block {
    BE(8 * a, 8) + BE(8 * n, 8)
  }

  /** The pre-counter block J_0 of section 7.1 (step 2). */
  function J0(c: Cipher, iv: seq<bv8>, ivLen: Block): Block {
    if |iv| == 12 then iv + [0, 0, 0, 1]
    else Ghash(HashKey(c), ZERO_BLOCK, ToBlocks(iv) + [ivLen])
  }

  /** The full-length tag of section 7.1 (steps 5 and 6). */
  function FullTag(c: Cipher, j0: Block, a: seq<bv8>, ct: seq<bv8>, lens: Block): Block {
    Xor(Ghash(HashKey(c), ZERO_BLOCK, ToBlocks(a) + ToBlocks(ct) + [lens]), E(c, j0))
  }

  /** Ciphertext and tag of GCM-AE: counters count in their last four bytes. */
  function GcmSeal(c: Cipher, iv: seq<bv8>, p: seq<bv8>, a: seq<bv8>, tagLen: nat): seq<bv8>
    requires tagLen <= 16
  {
    var j0 := J0(c, iv, LenBlock(0, |iv|));
    var ct := Gctr(c, Inc(j0, 4), 4, p);
    ct + FullTag(c, j0, a, ct, LenBlock(|a|, |ct|))[..tagLen]
  }

  // ---------- what the code computes ----------

  /** An unsigned length shifted left by three: only 32 bits are kept. */
  function ShiftedLen(n: nat): bv32 {
    var s := BE(8 * n % 0x1_0000_0000, 4);
    Word(s[0], s[1], s[2], s[3])
  }

  function CodeLens(a: nat, n: nat): Block {
    Zeros(4) + BE(8 * a % 0x1_0000_0000, 4) + Zeros(4) + BE(8 * n % 0x1_0000_0000, 4)
  }

  /** The counter block that SEED_GCM_Encryption and SEED_GCM_Decryption start from. */
  function CodeJ0(c: Cipher, iv: seq<bv8>): Block {
    J0(c, iv, CodeLens(0, |iv|))
  }

  function CodeText(c: Cipher, iv: seq<bv8>, x: seq<bv8>): (r: seq<bv8>)
    ensures |r| == |x|
  {
    Gctr(c, Inc(CodeJ0(c, iv), 8), 8, x)
  }

  function CodeTag(c: Cipher, iv: seq<bv8>, a: seq<bv8>, ct: seq<bv8>): Block {
    FullTag(c, CodeJ0(c, iv), a, ct, CodeLens(|a|, |ct|))
  }

  // ---------- where the code meets the standard ----------

  /** The code's length block is the standard's exactly when neither length reaches 2^29 bytes. */
  lemma CodeLensExact(a: nat, n: nat)
    requires a < 0x2000_0000_0000_0000 && n < 0x2000_0000_0000_0000
    ensures CodeLens(a, n) == LenBlock(a, n) <==> a < 0x2000_0000 && n < 0x2000_0000
  {
    hide BE;
    CodeLenExact(a);
    CodeLenExact(n);
    assert CodeLens(a, n) == (Zeros(4) + BE(8 * a % 0x1_0000_0000, 4)) + (Zeros(4) + BE(8 * n % 0x1_0000_0000, 4));
    assert CodeLens(a, n)[..8] == Zeros(4) + BE(8 * a % 0x1_0000_0000, 4);
    assert LenBlock(a, n)[..8] == BE(8 * a, 8);
    assert CodeLens(a, n)[8..] == Zeros(4) + BE(8 * n % 0x1_0000_0000, 4);
    assert LenBlock(a, n)[8..] == BE(8 * n, 8);
  }

  lemma CodeLenExact(n: nat)
    requires n < 0x2000_0000_0000_0000
    ensures BE(8 * n, 8) == Zeros(4) + BE(8 * n % 0x1_0000_0000, 4) <==> n < 0x2000_0000
  {
    hide BE, Num, Pow256;
    var low := 8 * n % 0x1_0000_0000;
    Pow256Values();
    BEExtend(low, 4, 4);
    NumBE(low, 8);
    NumBE(8 * n, 8);
  }

  /** With a 12-byte nonce the last word starts at 1. */
  lemma ShortNonceCounter(c: Cipher, iv: seq<bv8>)
    requires |iv| == 12
    ensures Num(CodeJ0(c, iv)[12..]) == 1
  {
    hide Num, Ghash, E;
    assert CodeJ0(c, iv)[12..] == [0, 0, 0, 1];
    NumOne();
  }

  lemma NumOne()
    ensures Num([0, 0, 0, 1]) == 1
  {
    NumFour(0, 0, 0, 1);
    OneValue();
    hide Num, Val;
  }

  lemma OneValue()
    ensures Val(1) == 1 && Val(0) == 0
  {
  }

  /** The code produces the output of GCM-AE whenever the lengths fit and the last counter word
      does not wrap, which a 12-byte nonce guarantees. */
  lemma CodeIsGcm(c: Cipher, iv: seq<bv8>, p: seq<bv8>, a: seq<bv8>, tagLen: nat)
    requires tagLen <= 16
    requires |iv| < 0x2000_0000 && |p| < 0x2000_0000 && |a| < 0x2000_0000
    requires |iv| == 12 || |p| == 0 || Num(CodeJ0(c, iv)[12..]) + BlockCount(|p|) < 0x1_0000_0000
    ensures CodeSeal(c, iv, p, a, tagLen) == GcmSeal(c, iv, p, a, tagLen)
  {
    hide E, Gctr, Ghash, Inc, Num, Xor, CodeLens, LenBlock, J0;
    CodeLensExact(0, |iv|);
    CodeLensExact(|a|, |p|);
    if |iv| == 12 { ShortNonceCounter(c, iv); }
    if p == [] {
      assert Gctr(c, Inc(CodeJ0(c, iv), 8), 8, p) == Gctr(c, Inc(CodeJ0(c, iv), 4), 4, p);
    } else {
      var j := CodeJ0(c, iv);
      Pow256Values();
      IncWidth(j, 4, 8);
      IncTail(j, 4);
      GctrWidth(c, Inc(j, 4), 4, 8, p);
    }
  }

  /** The ciphertext of whole blocks is the standard's if and only if the last counter word does not wrap. */
  lemma CodeTextExact(c: Cipher, iv: seq<bv8>, p: seq<bv8>, n: nat)
    requires |p| == 16 * n
    ensures CodeText(c, iv, p) == Gctr(c, Inc(CodeJ0(c, iv), 4), 4, p) <==>
            n == 0 || Num(CodeJ0(c, iv)[12..]) + n < 0x1_0000_0000
  {
    hide E, Gctr, Inc, IncN, Num, CodeJ0;
    var j := CodeJ0(c, iv);
    Pow256Values();
    GctrSame(c, Inc(j, 8), 8, Inc(j, 4), 4, p, n);
    CountersAgree(j, 4, 8, n);
    IncZero(j, 4);
    IncZero(j, 8);
    forall i: nat
      ensures IncN(Inc(j, 8), 8, i) == IncN(j, 8, i + 1) && IncN(Inc(j, 4), 4, i) == IncN(j, 4, i + 1)
    {
      IncStep(j, 8, i);
      IncStep(j, 4, i);
    }
    if forall i: nat :: i < n ==> IncN(Inc(j, 8), 8, i) == IncN(Inc(j, 4), 4, i) {
      forall i: nat | i <= n
        ensures IncN(j, 8, i) == IncN(j, 4, i)
      {
        if i > 0 {
          assert IncN(Inc(j, 8), 8, i - 1) == IncN(Inc(j, 4), 4, i - 1);
        }
      }
    }
  }

  lemma SealedTexts(c: Cipher, iv: seq<bv8>, p: seq<bv8>, a: seq<bv8>, tagLen: nat)
    requires tagLen <= 16 && |iv| < 0x2000_0000
    ensures CodeText(c, iv, p) <= CodeSeal(c, iv, p, a, tagLen)
    ensures Gctr(c, Inc(CodeJ0(c, iv), 4), 4, p) <= GcmSeal(c, iv, p, a, tagLen)
    ensures |CodeText(c, iv, p)| == |Gctr(c, Inc(CodeJ0(c, iv), 4), 4, p)|
  {
    CodeLensExact(0, |iv|);
    hide Gctr, Inc, FullTag, LenBlock, CodeLens, J0;
  }

  /** For a payload of whole blocks and lengths below 2^29 bytes, the code's output is that of GCM-AE if
      and only if the last counter word does not wrap; with a 12-byte nonce it never does. */
  lemma CodeIsGcmExact(c: Cipher, iv: seq<bv8>, p: seq<bv8>, a: seq<bv8>, tagLen: nat)
    requires tagLen <= 16 && |p| % 16 == 0
    requires |iv| < 0x2000_0000 && |p| < 0x2000_0000 && |a| < 0x2000_0000
    ensures CodeSeal(c, iv, p, a, tagLen) == GcmSeal(c, iv, p, a, tagLen) <==>
            p == [] || Num(CodeJ0(c, iv)[12..]) + |p| / 16 < 0x1_0000_0000
    ensures |iv| == 12 ==> Num(CodeJ0(c, iv)[12..]) + |p| / 16 < 0x1_0000_0000
  {
    hide Gctr, Inc, Num, FullTag, LenBlock, CodeLens, J0, CodeSeal, GcmSeal, CodeText;
    if |iv| == 12 { ShortNonceCounter(c, iv); }
    CodeTextExact(c, iv, p, |p| / 16);
    SealedTexts(c, iv, p, a, tagLen);
    if p == [] || Num(CodeJ0(c, iv)[12..]) + |p| / 16 < 0x1_0000_0000 {
      CodeIsGcm(c, iv, p, a, tagLen);
    }
  }

  // ---------- sealing and opening ----------

  function CodeSeal(c: Cipher, iv: seq<bv8>, p: seq<bv8>, a: seq<bv8>, macLen: nat): (r: seq<bv8>)
    requires macLen <= 16
    ensures |r| == |p| + macLen
  {
    CodeText(c, iv, p) + CodeTag(c, iv, a, CodeText(c, iv, p))[..macLen]
  }

  /** Authenticated decryption (section 7.2): the text, unless the trailing tag is wrong. */
  function CodeOpen(c: Cipher, iv: seq<bv8>, x: seq<bv8>, a: seq<bv8>, macLen: nat): Option<seq<bv8>>
    requires macLen <= 16 && macLen <= |x|
  {
    var n := |x| - macLen;
    if CodeTag(c, iv, a, x[..n])[..macLen] == x[n..] then Some(CodeText(c, iv, x[..n])) else None
  }

  /** Opening accepts exactly the sealed texts, and returns what was sealed. */
  lemma OpenIffSealed(c: Cipher, iv: seq<bv8>, x: seq<bv8>, a: seq<bv8>, macLen: nat, p: seq<bv8>)
    requires macLen <= 16 && macLen <= |x|
    ensures CodeOpen(c, iv, x, a, macLen) == Some(p) <==> x == CodeSeal(c, iv, p, a, macLen)
  {
    hide Gctr, CodeJ0, CodeTag, Inc;
    var n := |x| - macLen;
    GctrTwice(c, Inc(CodeJ0(c, iv), 8), 8, x[..n]);
    GctrTwice(c, Inc(CodeJ0(c, iv), 8), 8, p);
    assert x == x[..n] + x[n..];
  }

  /** Decryption undoes encryption. */
  lemma OpenSeal(c: Cipher, iv: seq<bv8>, p: seq<bv8>, a: seq<bv8>, macLen: nat)
    requires macLen <= 16
    ensures CodeOpen(c, iv, CodeSeal(c, iv, p, a, macLen), a, macLen) == Some(p)
  {
    hide CodeOpen, CodeTag, CodeText;
    OpenIffSealed(c, iv, CodeSeal(c, iv, p, a, macLen), a, macLen, p);
  }

  /** Decryption over its own input: the tag is computed over the plaintext that has replaced the text. */
  function InPlaceOpen(c: Cipher, iv: seq<bv8>, x: seq<bv8>, a: seq<bv8>, macLen: nat): Option<seq<bv8>>
    requires macLen <= 16 && macLen <= |x|
  {
    var n := |x| - macLen;
    var p := CodeText(c, iv, x[..n]);
    if CodeTag(c, iv, a, p)[..macLen] == x[n..] then Some(p) else None
  }

  /** Decryption in place accepts a sealed text exactly when the tags over text and plaintext coincide. */
  lemma InPlaceOpens(c: Cipher, iv: seq<bv8>, p: seq<bv8>, a: seq<bv8>, macLen: nat)
    requires macLen <= 16
    ensures var r := InPlaceOpen(c, iv, CodeSeal(c, iv, p, a, macLen), a, macLen);
            var x := CodeText(c, iv, p);
            r == (if CodeTag(c, iv, a, p)[..macLen] == CodeTag(c, iv, a, x)[..macLen] then Some(p) else None)
  {
    hide Gctr, CodeJ0, CodeTag, Inc;
    GctrTwice(c, Inc(CodeJ0(c, iv), 8), 8, p);
    hide CodeText;
    var x, s := CodeText(c, iv, p), CodeSeal(c, iv, p, a, macLen);
    assert s[..|p|] == x && s[|p|..] == CodeTag(c, iv, a, x)[..macLen];
  }

  // ---------- the C functions ----------

  lemma {:induction false} GhashAppend(h: Block, y: Block, xs: seq<Block>, ys: seq<Block>)
    ensures Ghash(h, y, xs + ys) == Ghash(h, Ghash(h, y, xs), ys)
    decreases |xs|
  {
    hide Mul, Xor;
    if xs == [] {
      assert xs + ys == ys;
    } else {
      assert (xs + ys)[1..] == xs[1..] + ys;
      GhashAppend(h, Mul(Xor(y, xs[0]), h), xs[1..], ys);
    }
  }

  lemma GhashOne(h: Block, y: Block, x: Block)
    ensures Ghash(h, y, [x]) == Mul(Xor(y, x), h)
    ensures Ghash(h, y, []) == y
  {
    hide Mul, Xor;
    assert Ghash(h, Mul(Xor(y, x), h), []) == Mul(Xor(y, x), h);
  }

  /** The loop that feeds data[..len] to GHASH_8BIT, sixteen bytes at a time. */
  method HashPass(out: array<bv32>, data: array<bv8>, len: nat, m: array2<bv32>, ghost h: Block)
    requires out.Length == 4 && len <= data.Length && IsTable(m, h)
    modifies out
    ensures Bytes(out[..]) == Ghash(h, old(Bytes(out[..])), ToBlocks(data[..len]))
  {
    hide Bytes, Ghash, Mul, Xor, Pad16, IsTable, ToBlocks;
    ghost var y := Bytes(out[..]);
    ghost var x := data[..len];
    var inp := new bv32[4];
    var i := 0;
    NoBlocks();
    GhashOne(h, y, ZERO_BLOCK);
    while i < len
      invariant 0 <= i && i % 16 == 0
      invariant Bytes(out[..]) == Ghash(h, y, ToBlocks(x[..Min(i, len)]))
      invariant IsTable(m, h) && data[..len] == x
    {
      var n := if len - i < 16 then len - i else 16;
      LoadBlock(inp, data, i, n);
      SliceOfPrefix(data[..], len, i, n);
      ToBlocksStep(x, i);
      var b := Pad16(x[i..i + n]);
      GhashAppend(h, y, ToBlocks(x[..i]), [b]);
      GhashOne(h, Bytes(out[..]), b);
      Ghash8Bit(out, inp, m, h);
      i := i + 16;
    }
    assert x[..len] == x;
  }

  lemma ShiftedLenBytes(a: nat, n: nat)
    ensures Bytes([0, ShiftedLen(a), 0, ShiftedLen(n)]) == CodeLens(a, n)
  {
    var s, t := BE(8 * a % 0x1_0000_0000, 4), BE(8 * n % 0x1_0000_0000, 4);
    WordBytesRoundTrip(s[0], s[1], s[2], s[3]);
    WordBytesRoundTrip(t[0], t[1], t[2], t[3]);
    ZeroWordBytes();
    hide BE, WordBytes, Word;
  }

  /** One more hash step over the two bit lengths. */
  method HashLengths(out: array<bv32>, a: nat, n: nat, m: array2<bv32>, ghost h: Block)
    requires out.Length == 4 && IsTable(m, h)
    modifies out
    ensures Bytes(out[..]) == Ghash(h, old(Bytes(out[..])), [CodeLens(a, n)])
  {
    hide Bytes, Ghash, Mul, Xor, IsTable, CodeLens, ShiftedLen;
    var inp := new bv32[4][0, ShiftedLen(a), 0, ShiftedLen(n)];
    assert inp[..] == [0, ShiftedLen(a), 0, ShiftedLen(n)];
    ShiftedLenBytes(a, n);
    GhashOne(h, Bytes(out[..]), CodeLens(a, n));
    Ghash8Bit(out, inp, m, h);
  }

  /** The key schedule, H and its table. */
  method Setup(t: Tables, mKey: array<bv8>) returns (rKey: array<bv32>, m: array2<bv32>, ghost c: Cipher)
    requires mKey.Length == 16
    ensures fresh(rKey) && fresh(m) && rKey.Length == 32
    ensures c == Keyed(t, mKey[..]) && c == Cipher(t, rKey[..])
    ensures IsTable(m, HashKey(c))
  {
    hide Bytes, E, IsTable;
    hide Schedule;
    rKey := new bv32[32];
    SeedKeySched(t, mKey, rKey);
    c := Cipher(t, rKey[..]);
    var h := new bv32[4](_ => 0);
    assert h[..] == [0, 0, 0, 0];
    ZeroWords();
    EncryptTo(t, h, h, rKey, c);
    m := new bv32[256, 4];
    MakeM8(m, h);
  }

  lemma ShortNonceBlock(iv: seq<bv8>, q: Quad)
    requires |iv| == 12
    requires forall k :: 0 <= k < 4 ==> q[k] == if k < 3 then LoadWord(iv, k) else 1
    ensures Bytes(q) == iv + [0, 0, 0, 1]
  {
    LoadedWord(iv, 0, q[0]);
    LoadedWord(iv, 1, q[1]);
    LoadedWord(iv, 2, q[2]);
    assert WordBytes(1) == [0, 0, 0, 1];
    hide WordBytes, LoadWord;
  }

  /** GCTR_in before the counter loop. */
  method InitialCounter(nonce: array<bv8>, nonceLen: nat, m: array2<bv32>, ghost c: Cipher)
    returns (ctr: array<bv32>)
    requires nonceLen <= nonce.Length && IsTable(m, HashKey(c))
    ensures fresh(ctr) && ctr.Length == 4
    ensures Bytes(ctr[..]) == CodeJ0(c, nonce[..nonceLen])
  {
    hide Bytes, E, IsTable, LoadWord, Ghash, CodeLens, ToBlocks, HashKey;
    ctr := new bv32[4](_ => 0);
    ghost var iv := nonce[..nonceLen];
    if nonceLen == 12 {
      Byte2Word(ctr, nonce, 0, nonceLen);
      ctr[3] := 1;
      assert nonce[0..0 + nonceLen] == iv;
      ShortNonceBlock(iv, ctr[..]);
    } else {
      assert ctr[..] == [0, 0, 0, 0];
      ZeroWords();
      HashPass(ctr, nonce, nonceLen, m, HashKey(c));
      HashLengths(ctr, 0, nonceLen, m, HashKey(c));
      GhashAppend(HashKey(c), ZERO_BLOCK, ToBlocks(iv), [CodeLens(0, nonceLen)]);
    }
  }

  /** GHASH_out: the hash of data, text and lengths, combined with the mask Z. */
  method ComputeTag(z: array<bv32>, aad: array<bv8>, aadLen: nat, ct: array<bv8>, n: nat,
                    m: array2<bv32>, ghost c: Cipher, ghost j0: Block) returns (out: array<bv32>)
    requires z.Length == 4 && aadLen <= aad.Length && n <= ct.Length
    requires IsTable(m, HashKey(c)) && Bytes(z[..]) == E(c, j0)
    ensures fresh(out) && out.Length == 4
    ensures Bytes(out[..]) == FullTag(c, j0, aad[..aadLen], ct[..n], CodeLens(aadLen, n))
  {
    hide Bytes, E, IsTable, Ghash, CodeLens, ToBlocks, HashKey, Xor;
    out := new bv32[4](_ => 0);
    assert out[..] == [0, 0, 0, 0];
    ZeroWords();
    ghost var h, xs, ys := HashKey(c), ToBlocks(aad[..aadLen]), ToBlocks(ct[..n]);
    HashPass(out, aad, aadLen, m, h);
    HashPass(out, ct, n, m, h);
    HashLengths(out, aadLen, n, m, h);
    GhashAppend(h, ZERO_BLOCK, xs, ys);
    GhashAppend(h, ZERO_BLOCK, xs + ys, [CodeLens(aadLen, n)]);
    Xor128(out, out, z);
  }

  /** The lengths and the nonce for which the code's output is the standard's. */
  predicate Standard(nonceLen: nat, ptLen: nat, aadLen: nat) {
    nonceLen == 12 && ptLen < 0x2000_0000 && aadLen < 0x2000_0000
  }

  /** The output is what the code computes, and within the standard's lengths that is GCM-AE. */
  ghost predicate IsSealed(x: seq<bv8>, c: Cipher, iv: seq<bv8>, p: seq<bv8>, a: seq<bv8>, macLen: nat)
    requires macLen <= 16
  {
    x == CodeSeal(c, iv, p, a, macLen) &&
    (Standard(|iv|, |p|, |a|) ==> x == GcmSeal(c, iv, p, a, macLen))
  }

  lemma StandardCase(c: Cipher, iv: seq<bv8>, p: seq<bv8>, a: seq<bv8>, macLen: nat)
    requires macLen <= 16
    ensures IsSealed(CodeSeal(c, iv, p, a, macLen), c, iv, p, a, macLen)
  {
    if Standard(|iv|, |p|, |a|) {
      hide CodeSeal, GcmSeal, CodeJ0, Num;
      CodeIsGcm(c, iv, p, a, macLen);
    }
  }

  /** SEED_GCM_Encryption after the check of macLen. */
  method Seal(t: Tables, ct: array<bv8>, pt: array<bv8>, ptLen: nat, macLen: nat,
              nonce: array<bv8>, nonceLen: nat, aad: array<bv8>, aadLen: nat, mKey: array<bv8>)
    requires mKey.Length == 16 && macLen <= 16
    requires ptLen <= pt.Length && nonceLen <= nonce.Length && aadLen <= aad.Length
    requires ptLen + macLen <= ct.Length
    requires ct != nonce && ct != aad && ct != mKey
    modifies ct
    ensures IsSealed(ct[..ptLen + macLen], Keyed(t, mKey[..]), nonce[..nonceLen], old(pt[..ptLen]), aad[..aadLen],
                     macLen)
    ensures ct[ptLen + macLen..] == old(ct[ptLen + macLen..])
  {
    hide Bytes, E, IsTable, CodeJ0, Gctr, FullTag, Keyed, CodeLens, Inc, HashKey, Xor;
    ghost var d, p := ct[..], pt[..ptLen];
    var rKey, m;
    ghost var c;
    rKey, m, c := Setup(t, mKey);
    var ctr := InitialCounter(nonce, nonceLen, m, c);
    ghost var j0 := Bytes(ctr[..]);
    var z := new bv32[4];
    EncryptTo(t, z, ctr, rKey, c);
    CounterPass(t, rKey, ctr, pt, ct, ptLen, c);
    ghost var text := CodeText(c, nonce[..nonceLen], p);
    JoinTag(ct[..], text, d, ptLen, macLen);
    var out := ComputeTag(z, aad, aadLen, ct, ptLen, m, c, j0);
    Word2Byte(ct, ptLen, out, macLen);
    assert ct[..ptLen + macLen] == CodeSeal(c, nonce[..nonceLen], p, aad[..aadLen], macLen);
    hide CodeSeal, IsSealed, CodeText, CodeTag;
    StandardCase(c, nonce[..nonceLen], p, aad[..aadLen], macLen);
  }

  method SeedGcmEncryption(t: Tables, ct: array<bv8>, pt: array<bv8>, ptLen: nat, macLen: nat,
                           nonce: array<bv8>, nonceLen: nat, aad: array<bv8>, aadLen: nat, mKey: array<bv8>)
    returns (ret: nat, ctLen: nat)
    requires mKey.Length == 16
    requires ptLen <= pt.Length && nonceLen <= nonce.Length && aadLen <= aad.Length
    requires ptLen <= MAX_LEN && nonceLen <= MAX_LEN && aadLen <= MAX_LEN
    requires macLen <= 16 ==> ptLen + macLen <= ct.Length
    requires ct != nonce && ct != aad && ct != mKey
    modifies ct
    ensures macLen > 16 ==> ret == 1 && ctLen == 0 && ct[..] == old(ct[..])
    ensures macLen <= 16 ==> ret == 0 && ctLen == ptLen + macLen && ct[ctLen..] == old(ct[ctLen..])
    ensures macLen <= 16 ==>
      IsSealed(ct[..ctLen], Keyed(t, mKey[..]), nonce[..nonceLen], old(pt[..ptLen]), aad[..aadLen], macLen)
  {
    if macLen > 16 {
      return 1, 0;
    }
    hide CodeSeal, Keyed, IsSealed, CodeText, CodeTag, Standard;
    Seal(t, ct, pt, ptLen, macLen, nonce, nonceLen, aad, aadLen, mKey);
    ret, ctLen := 0, ptLen + macLen;
  }

  /** Return code and output of decrypting x into a buffer, the bytes rest behind the text unchanged. */
  ghost predicate Outcome(ret: nat, pt: seq<bv8>, inPlace: bool, c: Cipher, iv: seq<bv8>, x: seq<bv8>, a: seq<bv8>,
                          macLen: nat, rest: seq<bv8>)
    requires macLen <= 16 && macLen <= |x|
  {
    var n := |x| - macLen;
    var p := CodeText(c, iv, x[..n]);
    var good := CodeTag(c, iv, a, if inPlace then p else x[..n])[..macLen] == x[n..];
    ret == (if good then 0 else 1) && pt == (if good then p else Zeros(n)) + rest
  }

  /** SEED_GCM_Decryption after the check of macLen. */
  method Open(t: Tables, pt: array<bv8>, ct: array<bv8>, n: nat, macLen: nat,
              nonce: array<bv8>, nonceLen: nat, aad: array<bv8>, aadLen: nat, mKey: array<bv8>,
              ghost key: Cipher, ghost iv: seq<bv8>, ghost x: seq<bv8>, ghost a: seq<bv8>, ghost rest: seq<bv8>)
    returns (ret: nat)
    requires mKey.Length == 16 && macLen <= 16
    requires n + macLen <= ct.Length && nonceLen <= nonce.Length && aadLen <= aad.Length && n <= pt.Length
    requires pt != nonce && pt != aad && pt != mKey
    requires key == Keyed(t, mKey[..]) && iv == nonce[..nonceLen] && a == aad[..aadLen]
    requires x == ct[..n + macLen] && rest == pt[n..]
    modifies pt
    ensures Outcome(ret, pt[..], pt == ct, key, iv, x, a, macLen, rest)
  {
    hide Bytes, E, IsTable, CodeJ0, Gctr, FullTag, Keyed, CodeLens, Inc, HashKey, Xor;
    ghost var d := pt[..];
    SplitAt(ct[..], n, n + macLen);
    var rKey, m;
    ghost var c;
    rKey, m, c := Setup(t, mKey);
    var ctr := InitialCounter(nonce, nonceLen, m, c);
    ghost var j0 := Bytes(ctr[..]);
    var z := new bv32[4];
    EncryptTo(t, z, ctr, rKey, c);
    CounterPass(t, rKey, ctr, ct, pt, n, c);
    ghost var p := CodeText(c, iv, x[..n]);
    JoinTag(pt[..], p, d, n, 0);
    ghost var hashed := if pt == ct then p else x[..n];
    assert ct[..n] == hashed;
    assert ct[n..n + macLen] == x[n..] by {
      if pt == ct { assert pt[n..] == d[n..]; }
    }
    var out := ComputeTag(z, aad, aadLen, ct, n, m, c, j0);
    assert Bytes(out[..]) == CodeTag(c, iv, a, hashed);
    hide CodeText, CodeTag;
    ret := CheckTag(out, ct, n, macLen, pt);
  }

  lemma SplitAt(s: seq<bv8>, n: nat, m: nat)
    requires n <= m <= |s|
    ensures s[..m][..n] == s[..n] && s[..m][n..] == s[n..m]
  {
  }

  /** What decryption leaves: code, length and output. */
  ghost predicate IsOpened(ret: nat, ptLen: nat, pt: seq<bv8>, inPlace: bool, c: Cipher, iv: seq<bv8>, x: seq<bv8>,
                           a: seq<bv8>, macLen: nat, ptLenIn: nat, rest: seq<bv8>)
    requires macLen <= 16 && macLen <= |x|
  {
    var n := |x| - macLen;
    match if inPlace then InPlaceOpen(c, iv, x, a, macLen) else CodeOpen(c, iv, x, a, macLen)
    case Some(p) => ret == 0 && ptLen == n && pt == p + rest
    case None => ret == 1 && ptLen == ptLenIn && pt == Zeros(n) + rest
  }

  lemma OpenedByCode(ret: nat, pt: seq<bv8>, inPlace: bool, c: Cipher, iv: seq<bv8>, x: seq<bv8>, a: seq<bv8>,
                     macLen: nat, ptLenIn: nat, rest: seq<bv8>)
    requires macLen <= 16 && macLen <= |x|
    requires Outcome(ret, pt, inPlace, c, iv, x, a, macLen, rest)
    ensures IsOpened(ret, if ret == 0 then |x| - macLen else ptLenIn, pt, inPlace, c, iv, x, a, macLen, ptLenIn, rest)
  {
    hide CodeText, CodeTag;
  }

  /** The same with the length that is written. */
  method Decrypt(t: Tables, pt: array<bv8>, ptLenIn: nat, ct: array<bv8>, ctLen: nat, macLen: nat,
                 nonce: array<bv8>, nonceLen: nat, aad: array<bv8>, aadLen: nat, mKey: array<bv8>)
    returns (ret: nat, ptLen: nat)
    requires mKey.Length == 16 && macLen <= 16 && macLen <= ctLen && ctLen - macLen <= pt.Length
    requires ctLen <= ct.Length && nonceLen <= nonce.Length && aadLen <= aad.Length
    requires pt != nonce && pt != aad && pt != mKey
    modifies pt
    ensures IsOpened(ret, ptLen, pt[..], pt == ct, Keyed(t, mKey[..]), nonce[..nonceLen], old(ct[..ctLen]),
                     aad[..aadLen], macLen, ptLenIn, old(pt[ctLen - macLen..]))
  {
    hide *;
    var n := ctLen - macLen;
    ghost var x, rest, c, iv, a := ct[..ctLen], pt[n..], Keyed(t, mKey[..]), nonce[..nonceLen], aad[..aadLen];
    ret := Open(t, pt, ct, n, macLen, nonce, nonceLen, aad, aadLen, mKey, c, iv, x, a, rest);
    ptLen := if ret == 0 then n else ptLenIn;
    OpenedByCode(ret, pt[..], pt == ct, c, iv, x, a, macLen, ptLenIn, rest);
  }

  /** Returns 0 with the plaintext if the tag is right, otherwise 1 with the text cleared. */
  method SeedGcmDecryption(t: Tables, pt: array<bv8>, ptLenIn: nat, ct: array<bv8>, ctLen: nat, macLen: nat,
                           nonce: array<bv8>, nonceLen: nat, aad: array<bv8>, aadLen: nat, mKey: array<bv8>)
    returns (ret: nat, ptLen: nat)
    requires mKey.Length == 16
    requires ctLen <= ct.Length && nonceLen <= nonce.Length && aadLen <= aad.Length
    requires ctLen <= MAX_LEN && nonceLen <= MAX_LEN && aadLen <= MAX_LEN
    requires macLen <= 16 ==> macLen <= ctLen && ctLen - macLen <= pt.Length
    requires pt != nonce && pt != aad && pt != mKey
    modifies pt
    ensures macLen > 16 ==> ret == 1 && ptLen == 0 && pt[..] == old(pt[..])
    ensures macLen <= 16 ==>
      IsOpened(ret, ptLen, pt[..], pt == ct, Keyed(t, mKey[..]), nonce[..nonceLen], old(ct[..ctLen]), aad[..aadLen],
               macLen, ptLenIn, old(pt[ctLen - macLen..]))
  {
    if macLen > 16 {
      return 1, 0;
    }
    hide *;
    ret, ptLen := Decrypt(t, pt, ptLenIn, ct, ctLen, macLen, nonce, nonceLen, aad, aadLen, mKey);
  }
}
