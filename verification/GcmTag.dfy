/** What the output of SEED_GCM_Encryption is, block by block and byte by byte: the tag is a polynomial
    in H whose coefficients are the blocks of data, text and lengths. */
module GcmTag {
  import opened Words
  import opened Numbers
  import opened Seed
  import opened BlockModes
  import opened Gf128
  import opened Gf128Field
  import opened Gcm

  // ---------- polynomials in H ----------

  function HPower(h: Block, n: nat): Block {
    if n == 0 then ONE else Mul(HPower(h, n - 1), h)
  }

  lemma {:induction false} HPowerFront(h: Block, n: nat)
    ensures HPower(h, n + 1) == Mul(h, HPower(h, n))
  {
    hide Mul;
    if n == 0 {
      MulOne(h);
      assert HPower(h, 1) == Mul(HPower(h, 0), h);
    } else {
      HPowerFront(h, n - 1);
      MulAssociates(h, HPower(h, n - 1), h);
    }
  }

  /** The sum of the blocks of s from number i on, block j multiplied by H to the power e - j. */
  function TextSum(h: Block, s: seq<bv8>, i: nat, e: nat): Block
    requires BlockCount(|s|) <= e
    decreases BlockCount(|s|) - i
  {
    if i >= BlockCount(|s|) then ZERO_BLOCK
    else Xor(Mul(BlockAt(s, i), HPower(h, e - i)), TextSum(h, s, i + 1, e))
  }

  // ---------- GHASH as a polynomial ----------

  /** The sum of the blocks, the first multiplied by H to the power e, the next by one power less. */
  function BlockSum(h: Block, xs: seq<Block>, e: nat): Block
    requires |xs| <= e
  {
    if xs == [] then ZERO_BLOCK else Xor(Mul(xs[0], HPower(h, e)), BlockSum(h, xs[1..], e - 1))
  }

  lemma HashStep(h: Block, y: Block, x: Block, n: nat, s: Block)
    ensures Xor(Mul(Mul(Xor(y, x), h), HPower(h, n)), s) ==
            Xor(Mul(y, HPower(h, n + 1)), Xor(Mul(x, HPower(h, n + 1)), s))
  {
    hide Mul, Xor, HPower;
    MulAssociates(Xor(y, x), h, HPower(h, n));
    HPowerFront(h, n);
    MulAdd(y, x, HPower(h, n + 1));
    XorAssoc(Mul(y, HPower(h, n + 1)), Mul(x, HPower(h, n + 1)), s);
  }

  lemma {:induction false} GhashIsSum(h: Block, y: Block, xs: seq<Block>)
    ensures Ghash(h, y, xs) == Xor(Mul(y, HPower(h, |xs|)), BlockSum(h, xs, |xs|))
    decreases |xs|
  {
    hide Mul, Xor;
    if xs == [] {
      MulOne(y);
      XorZero(y);
    } else {
      GhashIsSum(h, Mul(Xor(y, xs[0]), h), xs[1..]);
      hide HPower;
      HashStep(h, y, xs[0], |xs| - 1, BlockSum(h, xs[1..], |xs| - 1));
    }
  }

  lemma {:induction false} SumAppend(h: Block, xs: seq<Block>, ys: seq<Block>, e: nat)
    requires |xs| + |ys| <= e
    ensures BlockSum(h, xs + ys, e) == Xor(BlockSum(h, xs, e), BlockSum(h, ys, e - |xs|))
    decreases |xs|
  {
    hide Mul, Xor, HPower;
    if xs == [] {
      assert xs + ys == ys;
      XorZero(BlockSum(h, ys, e));
    } else {
      assert (xs + ys)[1..] == xs[1..] + ys;
      SumAppend(h, xs[1..], ys, e - 1);
      XorAssoc(Mul(xs[0], HPower(h, e)), BlockSum(h, xs[1..], e - 1), BlockSum(h, ys, e - |xs|));
    }
  }

  lemma {:induction false} SumOfText(h: Block, s: seq<bv8>, i: nat, e: nat)
    requires BlockCount(|s|) <= e && i <= |ToBlocks(s)| == BlockCount(|s|)
    requires forall k :: 0 <= k < |ToBlocks(s)| ==> ToBlocks(s)[k] == BlockAt(s, k)
    ensures BlockSum(h, ToBlocks(s)[i..], e - i) == TextSum(h, s, i, e)
    decreases BlockCount(|s|) - i
  {
    hide Mul, Xor, HPower, BlockAt, ToBlocks;
    if i == BlockCount(|s|) {
    } else {
      SumOfText(h, s, i + 1, e);
      assert ToBlocks(s)[i..][1..] == ToBlocks(s)[i + 1..];
    }
  }

  lemma TextIsSum(h: Block, s: seq<bv8>, e: nat)
    requires BlockCount(|s|) <= e
    ensures |ToBlocks(s)| == BlockCount(|s|) && BlockSum(h, ToBlocks(s), e) == TextSum(h, s, 0, e)
  {
    hide ToBlocks, BlockSum, TextSum, BlockAt;
    BlocksAre(s);
    SumOfText(h, s, 0, e);
    assert ToBlocks(s)[0..] == ToBlocks(s);
  }

  lemma LastBlockSum(h: Block, x: Block)
    ensures BlockSum(h, [x], 1) == Mul(x, h)
  {
    hide Mul, Xor;
    HPowerFront(h, 0);
    MulOne(h);
    XorZero(Mul(x, h));
    assert [x][1..] == [];
    assert BlockSum(h, [x][1..], 0) == ZERO_BLOCK;
  }

  /** GHASH of two texts and a last block. */
  lemma HashOfTexts(h: Block, a: seq<bv8>, x: seq<bv8>, z: Block)
    ensures var m, n := BlockCount(|a|), BlockCount(|x|);
            Ghash(h, ZERO_BLOCK, ToBlocks(a) + ToBlocks(x) + [z]) ==
            Xor(Xor(TextSum(h, a, 0, m + n + 1), TextSum(h, x, 0, n + 1)), Mul(z, h))
  {
    hide Mul, Xor, HPower, ToBlocks, BlockSum, TextSum, Ghash, BlockCount;
    var m, n := BlockCount(|a|), BlockCount(|x|);
    TextIsSum(h, a, m + n + 1);
    TextIsSum(h, x, n + 1);
    var xs := ToBlocks(a) + ToBlocks(x) + [z];
    GhashIsSum(h, ZERO_BLOCK, xs);
    MulZero(HPower(h, |xs|));
    XorZero(BlockSum(h, xs, |xs|));
    SumAppend(h, ToBlocks(a) + ToBlocks(x), [z], m + n + 1);
    SumAppend(h, ToBlocks(a), ToBlocks(x), m + n + 1);
    LastBlockSum(h, z);
  }

  // ---------- the sealed output ----------

  /** The counter block the text's counters are counted from: a 12-byte nonce and the number 1, or the
      polynomial of a nonce of another length. */
  function Start(c: Cipher, iv: seq<bv8>): Block {
    if |iv| == 12 then iv + [0, 0, 0, 1]
    else
      var h := E(c, ZERO_BLOCK);
      Xor(TextSum(h, iv, 0, BlockCount(|iv|) + 1), Mul(CodeLens(0, |iv|), h))
  }

  lemma StartIs(c: Cipher, iv: seq<bv8>)
    ensures CodeJ0(c, iv) == Start(c, iv)
  {
    hide E, Mul, Xor, Ghash, CodeLens, TextSum;
    if |iv| != 12 {
      var h := HashKey(c);
      HashOfTexts(h, [], iv, CodeLens(0, |iv|));
      NoText(h, BlockCount(|iv|) + 1);
      NoBlocks();
      assert [] + ToBlocks(iv) == ToBlocks(iv);
      XorZero(TextSum(h, iv, 0, BlockCount(|iv|) + 1));
    }
  }

  lemma NoText(h: Block, e: nat)
    ensures TextSum(h, [], 0, e) == ZERO_BLOCK
  {
  }

  /** The length block: the two numbers of bits, in eight bytes each. */
  lemma LengthsAre(a: nat, n: nat)
    requires a < 0x2000_0000 && n < 0x2000_0000
    ensures Num(CodeLens(a, n)[..8]) == 8 * a && Num(CodeLens(a, n)[8..]) == 8 * n
  {
    hide CodeLens, BE, Num, Pow256;
    CodeLensExact(a, n);
    Pow256Values();
    NumBE(8 * a, 8);
    NumBE(8 * n, 8);
    assert LenBlock(a, n)[..8] == BE(8 * a, 8) && LenBlock(a, n)[8..] == BE(8 * n, 8);
  }

  /** Every block of the data a, of the ciphertext x and of the lengths times its power of H, and the mask. */
  function TagSum(c: Cipher, iv: seq<bv8>, a: seq<bv8>, x: seq<bv8>): Block {
    var h, m, n := E(c, ZERO_BLOCK), BlockCount(|a|), BlockCount(|x|);
    Xor(Xor(Xor(TextSum(h, a, 0, m + n + 1), TextSum(h, x, 0, n + 1)), Mul(CodeLens(|a|, |x|), h)), E(c, Start(c, iv)))
  }

  lemma TagOf(c: Cipher, iv: seq<bv8>, a: seq<bv8>, x: seq<bv8>)
    ensures CodeTag(c, iv, a, x) == TagSum(c, iv, a, x)
  {
    hide E, Mul, Xor, Ghash, CodeLens, TextSum, Start, CodeJ0, BlockCount, ToBlocks;
    StartIs(c, iv);
    HashOfTexts(HashKey(c), a, x, CodeLens(|a|, |x|));
  }

  lemma SealedParts(c: Cipher, iv: seq<bv8>, p: seq<bv8>, a: seq<bv8>)
    ensures var y, x := CodeSeal(c, iv, p, a, 16), CodeText(c, iv, p);
            y[..|p|] == x && y[|p|..] == CodeTag(c, iv, a, x)
  {
    hide CodeText, CodeTag;
  }

  /** The full-length tag, the last sixteen bytes of the output. */
  lemma SealedTag(c: Cipher, iv: seq<bv8>, p: seq<bv8>, a: seq<bv8>)
    ensures var y := CodeSeal(c, iv, p, a, 16); y[|p|..] == TagSum(c, iv, a, y[..|p|])
  {
    hide CodeText, CodeTag, CodeSeal, TagSum;
    SealedParts(c, iv, p, a);
    TagOf(c, iv, a, CodeText(c, iv, p));
  }

  /** The ciphertext: byte i is that of the plaintext combined with the key stream, whose counter
      blocks count on from the starting block in the last eight bytes. */
  lemma SealedText(c: Cipher, iv: seq<bv8>, p: seq<bv8>, a: seq<bv8>, i: nat)
    requires i < |p|
    ensures var k := IncN(Start(c, iv), 8, i / 16 + 1);
            && CodeSeal(c, iv, p, a, 16)[i] == p[i] ^ E(c, k)[i % 16]
            && k[..8] == Start(c, iv)[..8]
            && Num(k[8..]) == (Num(Start(c, iv)[8..]) + i / 16 + 1) % Pow256(8)
  {
    hide E, Start, CodeJ0, CodeTag, IncN, Inc, Num, Gctr, Pow256, BE, XorByte;
    StartIs(c, iv);
    var j := Start(c, iv);
    GctrAt(c, Inc(j, 8), 8, p, i);
    IncStep(j, 8, i / 16);
    IncNParts(j, 8, i / 16 + 1);
    ByteSum(p[i], E(c, IncN(j, 8, i / 16 + 1))[i % 16]);
  }

  /** A shorter tag is the beginning of the full one. */
  lemma ShorterTag(c: Cipher, iv: seq<bv8>, p: seq<bv8>, a: seq<bv8>, macLen: nat)
    requires macLen <= 16
    ensures CodeSeal(c, iv, p, a, macLen) == CodeSeal(c, iv, p, a, 16)[..|p| + macLen]
  {
    hide CodeText, CodeTag;
  }

  // ---------- changed data, changed text ----------

  lemma BlockOfSum(s: seq<bv8>, t: seq<bv8>, i: nat)
    requires |s| == |t|
    ensures BlockAt(Xor(s, t), i) == Xor(BlockAt(s, i), BlockAt(t, i))
  {
    CarryZero();
    hide XorByte;
  }

  lemma {:induction false} TextSumLinear(h: Block, s: seq<bv8>, t: seq<bv8>, i: nat, e: nat)
    requires |s| == |t| && BlockCount(|s|) <= e
    ensures TextSum(h, Xor(s, t), i, e) == Xor(TextSum(h, s, i, e), TextSum(h, t, i, e))
    decreases BlockCount(|s|) - i
  {
    hide Mul, Xor, HPower, BlockAt;
    XorZero(ZERO_BLOCK);
    if i >= BlockCount(|s|) {
    } else {
      TextSumLinear(h, s, t, i + 1, e);
      BlockOfSum(s, t, i);
      MulAdd(BlockAt(s, i), BlockAt(t, i), HPower(h, e - i));
      XorSwap(Mul(BlockAt(s, i), HPower(h, e - i)), Mul(BlockAt(t, i), HPower(h, e - i)),
              TextSum(h, s, i + 1, e), TextSum(h, t, i + 1, e));
    }
  }

  lemma CancelTails(u: Block, v: Block, z: Block, m: Block)
    ensures Xor(Xor(Xor(u, z), m), Xor(Xor(v, z), m)) == Xor(u, v)
  {
    hide Xor;
    XorSwap(Xor(u, z), m, Xor(v, z), m);
    XorSwap(u, z, v, z);
    XorZero(m);
    XorZero(z);
    XorZero(Xor(u, v));
  }

  /** Two tags over data of the same length differ by the polynomial of the data's difference. */
  lemma DataDifference(c: Cipher, iv: seq<bv8>, p: seq<bv8>, a: seq<bv8>, b: seq<bv8>)
    requires |a| == |b|
    ensures Xor(CodeSeal(c, iv, p, a, 16)[|p|..], CodeSeal(c, iv, p, b, 16)[|p|..]) ==
            TextSum(E(c, ZERO_BLOCK), Xor(a, b), 0, BlockCount(|a|) + BlockCount(|p|) + 1)
  {
    hide E, Mul, Xor, CodeLens, TextSum, Start, CodeText, CodeTag, BlockCount;
    SealedTag(c, iv, p, a);
    SealedTag(c, iv, p, b);
    SealedParts(c, iv, p, a);
    SealedParts(c, iv, p, b);
    hide CodeSeal;
    var h, x, n := E(c, ZERO_BLOCK), CodeText(c, iv, p), BlockCount(|p|);
    var e := BlockCount(|a|) + n + 1;
    var t, z := TextSum(h, x, 0, n + 1), Mul(CodeLens(|a|, |p|), h);
    var u, v := TextSum(h, a, 0, e), TextSum(h, b, 0, e);
    XorAssoc(u, t, z);
    XorAssoc(v, t, z);
    CancelTails(u, v, Xor(t, z), E(c, Start(c, iv)));
    TextSumLinear(h, a, b, 0, e);
  }

  /** And two tags over texts of the same length differ by the polynomial of the ciphertexts' difference. */
  lemma TextDifference(c: Cipher, iv: seq<bv8>, p: seq<bv8>, q: seq<bv8>, a: seq<bv8>)
    requires |p| == |q|
    ensures var y, z := CodeSeal(c, iv, p, a, 16), CodeSeal(c, iv, q, a, 16);
            Xor(y[|p|..], z[|p|..]) ==
            TextSum(E(c, ZERO_BLOCK), Xor(y[..|p|], z[..|p|]), 0, BlockCount(|p|) + 1)
  {
    hide E, Mul, Xor, CodeLens, TextSum, Start, CodeSeal, BlockCount;
    SealedTag(c, iv, p, a);
    SealedTag(c, iv, q, a);
    var y, z := CodeSeal(c, iv, p, a, 16), CodeSeal(c, iv, q, a, 16);
    var h, n := E(c, ZERO_BLOCK), BlockCount(|p|);
    var u, l := TextSum(h, a, 0, BlockCount(|a|) + n + 1), Mul(CodeLens(|a|, |p|), h);
    var s, t := TextSum(h, y[..|p|], 0, n + 1), TextSum(h, z[..|p|], 0, n + 1);
    XorComm(u, s);
    XorComm(u, t);
    XorAssoc(s, u, l);
    XorAssoc(t, u, l);
    CancelTails(s, t, Xor(u, l), E(c, Start(c, iv)));
    TextSumLinear(h, y[..|p|], z[..|p|], 0, n + 1);
  }

  /** Data of one block: the tags agree if and only if the product of the difference with its power of
      H is zero. */
  lemma OneBlockOfData(c: Cipher, iv: seq<bv8>, p: seq<bv8>, a: seq<bv8>, b: seq<bv8>)
    requires 0 < |a| == |b| <= 16
    ensures CodeSeal(c, iv, p, a, 16) == CodeSeal(c, iv, p, b, 16) <==>
            Mul(BlockAt(Xor(a, b), 0), HPower(E(c, ZERO_BLOCK), BlockCount(|p|) + 2)) == ZERO_BLOCK
  {
    hide E, Mul, Xor, CodeText, CodeTag, HPower, BlockAt;
    DataDifference(c, iv, p, a, b);
    SealedParts(c, iv, p, a);
    SealedParts(c, iv, p, b);
    hide CodeSeal;
    var y, z, h := CodeSeal(c, iv, p, a, 16), CodeSeal(c, iv, p, b, 16), E(c, ZERO_BLOCK);
    var d, e := Xor(a, b), BlockCount(|p|) + 2;
    assert BlockCount(|a|) == 1;
    assert TextSum(h, d, 1, e) == ZERO_BLOCK;
    XorZero(Mul(BlockAt(d, 0), HPower(h, e)));
    assert y == y[..|p|] + y[|p|..] && z == z[..|p|] + z[|p|..];
    SameIfZero(y[|p|..], z[|p|..]);
  }

  lemma SameIfZero(u: Block, v: Block)
    ensures u == v <==> Xor(u, v) == ZERO_BLOCK
  {
    hide Xor;
    XorZero(v);
    XorCancel(u, v);
  }
}
