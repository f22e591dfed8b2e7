/** Cipher block chaining over any block function, section 6.2 of NIST SP 800-38A. */
module Cbc {
  import opened Words

  /** A whole number of blocks. */
  type Text = s: seq<bv8> | |s| % 16 == 0

  /** The number of bytes, out of n, that make whole blocks. */
  function Whole(n: nat): (m: nat)
    ensures m % 16 == 0 && m <= n < m + 16
  {
    n / 16 * 16
  }

  /** The block that the next one is chained to. */
  function Chain(iv: Block, c: Text): Block {
    if c == [] then iv else c[|c| - 16..]
  }

  function CbcEncrypt(f: Block -> Block, iv: Block, p: Text): (c: Text)
    ensures |c| == |p|
  {
    if p == [] then []
    else
      var c := CbcEncrypt(f, iv, p[..|p| - 16]);
      c + f(Xor(Chain(iv, c), p[|p| - 16..]))
  }

  function CbcDecrypt(g: Block -> Block, iv: Block, c: Text): (p: Text)
    ensures |p| == |c|
  {
    if c == [] then []
    else
      var front := c[..|c| - 16];
      CbcDecrypt(g, iv, front) + Xor(g(c[|c| - 16..]), Chain(iv, front))
  }

  lemma NoBlocks(f: Block -> Block, iv: Block)
    ensures CbcEncrypt(f, iv, []) == [] && CbcDecrypt(f, iv, []) == [] && Chain(iv, []) == iv
  {
  }

  /** One more block. */
  lemma EncryptSnoc(f: Block -> Block, iv: Block, p: Text, b: Block)
    ensures var c := CbcEncrypt(f, iv, p);
            CbcEncrypt(f, iv, p + b) == c + f(Xor(Chain(iv, c), b))
  {
    hide Xor;
    assert (p + b)[..|p + b| - 16] == p && (p + b)[|p + b| - 16..] == b;
  }

  lemma DecryptSnoc(g: Block -> Block, iv: Block, c: Text, b: Block)
    ensures CbcDecrypt(g, iv, c + b) == CbcDecrypt(g, iv, c) + Xor(g(b), Chain(iv, c))
  {
    hide Xor;
    assert (c + b)[..|c + b| - 16] == c && (c + b)[|c + b| - 16..] == b;
  }

  lemma RoundTripStep(f: Block -> Block, g: Block -> Block, iv: Block, p: Text, b: Block)
    requires g(f(Xor(Chain(iv, CbcEncrypt(f, iv, p)), b))) == Xor(Chain(iv, CbcEncrypt(f, iv, p)), b)
    requires CbcDecrypt(g, iv, CbcEncrypt(f, iv, p)) == p
    ensures CbcDecrypt(g, iv, CbcEncrypt(f, iv, p + b)) == p + b
  {
    hide CbcEncrypt, CbcDecrypt, Chain, Xor;
    var c := CbcEncrypt(f, iv, p);
    EncryptSnoc(f, iv, p, b);
    DecryptSnoc(g, iv, c, f(Xor(Chain(iv, c), b)));
    XorCancel(b, Chain(iv, c));
    XorComm(b, Chain(iv, c));
  }

  /** Decryption undoes encryption when the one block function undoes the other. */
  lemma {:induction false} CbcRoundTrip(f: Block -> Block, g: Block -> Block, iv: Block, p: Text)
    requires forall b :: g(f(b)) == b
    ensures CbcDecrypt(g, iv, CbcEncrypt(f, iv, p)) == p
  {
    hide CbcEncrypt, CbcDecrypt, Chain, Xor;
    if p == [] {
      NoBlocks(f, iv);
      NoBlocks(g, iv);
    } else {
      LastBlock(p);
      var front: Text, last: Block := p[..|p| - 16], p[|p| - 16..];
      CbcRoundTrip(f, g, iv, front);
      RoundTripStep(f, g, iv, front, last);
    }
  }

  lemma ChainSnoc(iv: Block, c: Text, b: Block)
    ensures Chain(iv, c + b) == b
  {
  }

  lemma ChainAppend(iv: Block, c: Text, e: Text)
    ensures Chain(iv, c + e) == Chain(Chain(iv, c), e)
  {
    if e == [] {
      assert c + e == c;
    } else {
      assert (c + e)[|c + e| - 16..] == e[|e| - 16..];
    }
  }

  lemma Regroup(x: seq<bv8>, y: seq<bv8>, z: seq<bv8>)
    ensures (x + y) + z == x + (y + z)
  {
  }

  lemma AppendStep(f: Block -> Block, iv: Block, p: Text, front: Text, last: Block, c: Text, e: Text,
                   head: Text, q: Text, whole: Text)
    requires head == p + front && q == front + last && whole == head + last
    requires c == CbcEncrypt(f, iv, p) && e == CbcEncrypt(f, Chain(iv, c), front)
    requires CbcEncrypt(f, iv, head) == c + e
    ensures CbcEncrypt(f, iv, whole) == c + CbcEncrypt(f, Chain(iv, c), q)
  {
    hide CbcEncrypt, Xor, Chain;
    EncryptSnoc(f, iv, head, last);
    EncryptSnoc(f, Chain(iv, c), front, last);
    ChainAppend(iv, c, e);
    Regroup(c, e, f(Xor(Chain(iv, c + e), last)));
  }

  lemma AppendNone(f: Block -> Block, iv: Block, p: Text)
    ensures CbcEncrypt(f, iv, p + []) == CbcEncrypt(f, iv, p) + CbcEncrypt(f, Chain(iv, CbcEncrypt(f, iv, p)), [])
  {
    assert p + [] == p;
  }

  lemma LastBlock(q: Text)
    requires q != []
    ensures |q| >= 16 && |q[..|q| - 16]| % 16 == 0 && q == q[..|q| - 16] + q[|q| - 16..]
  {
  }

  lemma TextAppend(p: Text, q: Text)
    ensures |p + q| % 16 == 0
  {
  }

  /** Encrypting in two parts, the second chained to the first, is encrypting the whole. */
  lemma {:induction false} CbcAppend(f: Block -> Block, iv: Block, p: Text, q: Text)
    ensures CbcEncrypt(f, iv, p + q) ==
            CbcEncrypt(f, iv, p) + CbcEncrypt(f, Chain(iv, CbcEncrypt(f, iv, p)), q)
  {
    hide CbcEncrypt, Chain;
    if q == [] {
      AppendNone(f, iv, p);
    } else {
      LastBlock(q);
      var c := CbcEncrypt(f, iv, p);
      var front: Text, last: Block := q[..|q| - 16], q[|q| - 16..];
      TextAppend(p, front);
      TextAppend(p, q);
      var head: Text, whole: Text := p + front, p + q;
      CbcAppend(f, iv, p, front);
      Regroup(p, front, last);
      AppendStep(f, iv, p, front, last, c, CbcEncrypt(f, Chain(iv, c), front), head, q, whole);
    }
  }

  // ---------- block by block ----------

  /** Block i of c is the block function of block i of p combined with the block of c before it, or
      with the initialization vector. */
  ghost predicate ChainedBlock(f: Block -> Block, iv: Block, p: seq<bv8>, c: seq<bv8>, i: nat) {
    && 16 * i + 16 <= |p| == |c|
    && c[16 * i..16 * i + 16] == f(Xor(if i == 0 then iv else c[16 * i - 16..16 * i], p[16 * i..16 * i + 16]))
  }

  lemma BlockIn(p: Text, i: nat)
    requires 16 * i < |p|
    ensures 16 * i + 16 <= |p| && |p[16 * i..16 * i + 16]| == 16
  {
  }

  lemma FrontBlock(c: Text, i: nat)
    requires 16 * i < |c| - 16
    ensures c[..|c| - 16][16 * i..16 * i + 16] == c[16 * i..16 * i + 16]
    ensures i > 0 ==> c[..|c| - 16][16 * i - 16..16 * i] == c[16 * i - 16..16 * i]
  {
  }

  lemma BlockBehind(c: Text, b: Block, d: seq<bv8>, i: nat)
    requires d == c + b && 16 * i == |c|
    ensures d[16 * i..16 * i + 16] == b
    ensures i > 0 ==> d[16 * i - 16..16 * i] == c[|c| - 16..]
  {
  }

  /** The last block. */
  lemma CbcLast(f: Block -> Block, iv: Block, p: Text, b: Block, i: nat)
    requires 16 * i == |p|
    ensures var c := CbcEncrypt(f, iv, p + b);
            c[16 * i..16 * i + 16] == f(Xor(if i == 0 then iv else c[16 * i - 16..16 * i], b))
  {
    hide Xor, CbcEncrypt;
    var c := CbcEncrypt(f, iv, p);
    EncryptSnoc(f, iv, p, b);
    BlockBehind(c, f(Xor(Chain(iv, c), b)), CbcEncrypt(f, iv, p + b), i);
  }

  /** The blocks of the ciphertext are chained. */
  lemma {:induction false} CbcBlock(f: Block -> Block, iv: Block, p: Text, i: nat)
    requires 16 * i < |p|
    ensures ChainedBlock(f, iv, p, CbcEncrypt(f, iv, p), i)
    decreases |p|
  {
    hide Xor, CbcEncrypt;
    LastBlock(p);
    BlockIn(p, i);
    var front: Text, last: Block := p[..|p| - 16], p[|p| - 16..];
    if 16 * i + 16 == |p| {
      assert p[16 * i..16 * i + 16] == last;
      CbcLast(f, iv, front, last, i);
    } else {
      CbcBlock(f, iv, front, i);
      EarlierBlock(f, iv, front, last, i);
      FrontBlock(p, i);
    }
  }

  lemma EarlierBlock(f: Block -> Block, iv: Block, p: Text, b: Block, i: nat)
    requires 16 * i < |p|
    ensures var c, d := CbcEncrypt(f, iv, p), CbcEncrypt(f, iv, p + b);
            && d[16 * i..16 * i + 16] == c[16 * i..16 * i + 16]
            && (i > 0 ==> d[16 * i - 16..16 * i] == c[16 * i - 16..16 * i])
  {
    hide Xor, CbcEncrypt, Chain;
    var c, d := CbcEncrypt(f, iv, p), CbcEncrypt(f, iv, p + b);
    EncryptSnoc(f, iv, p, b);
    assert d[..|d| - 16] == c;
    FrontBlock(d, i);
  }

  /** Block i of the text is what the block function makes of block i of the ciphertext, combined
      with block i - 1 of the ciphertext, or with the initialization vector. */
  lemma {:induction false} CbcBlockBack(g: Block -> Block, iv: Block, c: Text, i: nat)
    requires 16 * i < |c|
    ensures CbcDecrypt(g, iv, c)[16 * i..16 * i + 16] ==
            Xor(g(c[16 * i..16 * i + 16]), if i == 0 then iv else c[16 * i - 16..16 * i])
    decreases |c|
  {
    hide Xor, CbcDecrypt;
    LastBlock(c);
    BlockIn(c, i);
    var front: Text := c[..|c| - 16];
    var d, p := CbcDecrypt(g, iv, front), CbcDecrypt(g, iv, c);
    DecryptSnoc(g, iv, front, c[|c| - 16..]);
    assert p[..|p| - 16] == d;
    if 16 * i + 16 == |c| {
      BlockBehind(d, Xor(g(c[|c| - 16..]), Chain(iv, front)), p, i);
      BlockBehind(front, c[|c| - 16..], c, i);
    } else {
      CbcBlockBack(g, iv, front, i);
      FrontBlock(c, i);
      FrontBlock(p, i);
    }
  }
}
