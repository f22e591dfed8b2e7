/** What the GCM and CCM modes share: the keyed block function on bytes, the counter
    macro INCREASE, splitting text into blocks, and counter-mode encryption. */
module BlockModes {
  import opened Words
  import opened Numbers
  import opened Seed
  import opened WordSums

  /** A scheduled key. */
  datatype Cipher = Cipher(t: Tables, rk: RoundKeys)

  ghost function Keyed(t: Tables, key: seq<bv8>): Cipher
    requires |key| == 16
  {
    Cipher(t, Schedule(t, key))
  }

  /** The block function CIPH_K on sixteen bytes. */
  function E(c: Cipher, b: Block): Block {
    Bytes(Encrypt(c.t, c.rk, ToQuad(b)))
  }

  lemma EncryptBytes(c: Cipher, q: Quad)
    ensures Bytes(Encrypt(c.t, c.rk, q)) == E(c, Bytes(q))
  {
    hide Encrypt, Bytes;
    QuadRoundTrip(q);
  }

  /** SEED_Encrypt seen on bytes. */
  method EncryptTo(t: Tables, pOut: array<bv32>, pIn: array<bv32>, rKey: array<bv32>, ghost c: Cipher)
    requires pOut.Length == 4 && pIn.Length == 4 && rKey.Length == 32 && rKey != pOut
    requires c == Cipher(t, rKey[..])
    modifies pOut
    ensures Bytes(pOut[..]) == E(c, old(Bytes(pIn[..])))
  {
    hide Encrypt, Bytes, E;
    EncryptBytes(c, pIn[..]);
    SeedEncrypt(t, pOut, pIn, rKey);
  }

  // ---------- the counter macro ----------

  /** The macro INCREASE: the last word counts and carries into the third. */
  function Increase(q: Quad): Quad {
    if q[3] == 0xFFFFFFFF then [q[0], q[1], IncW(q[2]), 0] else [q[0], q[1], q[2], IncW(q[3])]
  }

  lemma TailNum(q: Quad)
    ensures Bytes(q)[..8] == WordBytes(q[0]) + WordBytes(q[1])
    ensures Bytes(q)[8..] == WordBytes(q[2]) + WordBytes(q[3])
    ensures Num(Bytes(q)[8..]) == Num(WordBytes(q[2])) * 0x1_0000_0000 + Num(WordBytes(q[3]))
    ensures Num(WordBytes(q[2])) < 0x1_0000_0000 && Num(WordBytes(q[3])) < 0x1_0000_0000
  {
    hide WordBytes, Num, Pow256;
    Pow256Values();
    NumAppend(WordBytes(q[2]), WordBytes(q[3]));
    NumBound(WordBytes(q[2]));
    NumBound(WordBytes(q[3]));
  }

  lemma PairStep(h: nat, l: nat, h': nat, l': nat)
    requires h < 0x1_0000_0000 && l < 0x1_0000_0000
    requires l + 1 < 0x1_0000_0000 ==> h' == h && l' == l + 1
    requires l + 1 == 0x1_0000_0000 ==> l' == 0 && h' == if h + 1 < 0x1_0000_0000 then h + 1 else 0
    ensures h' * 0x1_0000_0000 + l' == (h * 0x1_0000_0000 + l + 1) % 0x1_0000_0000_0000_0000
  {
  }

  /** The two low words of the counter as numbers, before and after. */
  lemma IncreaseWords(q: Quad)
    ensures var h, l := Num(WordBytes(q[2])), Num(WordBytes(q[3]));
            var h', l' := Num(WordBytes(Increase(q)[2])), Num(WordBytes(Increase(q)[3]));
            && (l + 1 < 0x1_0000_0000 ==> h' == h && l' == l + 1)
            && (l + 1 >= 0x1_0000_0000 ==> l' == 0 && h' == if h + 1 < 0x1_0000_0000 then h + 1 else 0)
  {
    IncWNum(q[3]);
    IncWNum(q[2]);
    ZeroWordBytes();
    hide WordBytes, IncW, Num, Bytes;
  }

  lemma IncreaseTail(q: Quad)
    ensures Num(Bytes(Increase(q))[8..]) == (Num(Bytes(q)[8..]) + 1) % 0x1_0000_0000_0000_0000
  {
    hide WordBytes, Num, Bytes, Increase;
    var p := Increase(q);
    IncreaseWords(q);
    TailNum(p);
    TailNum(q);
    PairStep(Num(WordBytes(q[2])), Num(WordBytes(q[3])), Num(WordBytes(p[2])), Num(WordBytes(p[3])));
  }

  lemma IncreaseHead(q: Quad)
    ensures Bytes(Increase(q))[..8] == Bytes(q)[..8]
  {
    hide WordBytes, IncW;
    assert Bytes(q)[..8] == WordBytes(q[0]) + WordBytes(q[1]);
    assert Bytes(Increase(q))[..8] == WordBytes(Increase(q)[0]) + WordBytes(Increase(q)[1]);
  }

  /** INCREASE counts in the last eight bytes. */
  lemma IncreaseBytes(q: Quad)
    ensures Bytes(Increase(q)) == Inc(Bytes(q), 8)
  {
    hide Num, Bytes, BE, Pow256, Increase;
    var p := Bytes(Increase(q));
    IncreaseHead(q);
    IncreaseTail(q);
    Pow256Values();
    BENum(p[8..]);
    assert p == p[..8] + p[8..];
  }

  method IncreaseCounter(ctr: array<bv32>)
    requires ctr.Length == 4
    modifies ctr
    ensures Bytes(ctr[..]) == Inc(old(Bytes(ctr[..])), 8)
  {
    hide Bytes, IncW;
    ghost var q := ctr[..];
    IncreaseBytes(q);
    if ctr[3] == 0xFFFFFFFF {
      ctr[2] := IncW(ctr[2]);
      ctr[3] := 0;
    } else {
      ctr[3] := IncW(ctr[3]);
    }
    assert ctr[..] == Increase(q);
  }

  // ---------- text as blocks ----------

  function Min(a: nat, b: nat): nat { if a < b then a else b }

  /** The blocks of a text, the last one filled with zero bytes. */
  function ToBlocks(s: seq<bv8>): seq<Block> {
    if s == [] then [] else [Pad16(s[..Min(16, |s|)])] + ToBlocks(s[Min(16, |s|)..])
  }

  lemma NoBlocks()
    ensures ToBlocks([]) == []
  {
  }

  lemma ToBlocksOne(s: seq<bv8>)
    requires 0 < |s| <= 16
    ensures ToBlocks(s) == [Pad16(s)]
  {
    hide Pad16;
    assert s[..|s|] == s && s[|s|..] == [];
  }

  lemma ToBlocksMore(s: seq<bv8>)
    requires |s| >= 16
    ensures ToBlocks(s) == [Pad16(s[..16])] + ToBlocks(s[16..])
  {
    hide Pad16;
  }

  lemma {:induction false} ToBlocksStep(s: seq<bv8>, i: nat)
    requires i < |s| && i % 16 == 0
    ensures ToBlocks(s[..Min(i + 16, |s|)]) == ToBlocks(s[..i]) + [Pad16(s[i..Min(i + 16, |s|)])]
    decreases i
  {
    var e := Min(i + 16, |s|);
    hide Pad16, ToBlocks;
    if i == 0 {
      NoBlocks();
      ToBlocksOne(s[..e]);
      assert s[..0] == [] && s[0..e] == s[..e];
    } else {
      var s' := s[16..];
      ToBlocksStep(s', i - 16);
      ToBlocksMore(s[..e]);
      ToBlocksMore(s[..i]);
      ShorterPrefixes(s, i, e);
    }
  }

  // ---------- counter mode ----------

  /** The text x combined with the key stream of the counters cb, inc(cb), ...
      that count in their last k bytes (section 6.5 of NIST SP 800-38D for k = 4). */
  function Gctr(c: Cipher, cb: Block, k: nat, x: seq<bv8>): (r: seq<bv8>)
    requires k <= 16
    ensures |r| == |x|
    decreases |x|
  {
    if x == [] then []
    else
      var n := Min(16, |x|);
      Xor(x[..n], E(c, cb)[..n]) + Gctr(c, Inc(cb, k), k, x[n..])
  }

  lemma GctrOne(c: Cipher, cb: Block, k: nat, x: seq<bv8>)
    requires k <= 16 && 0 < |x| <= 16
    ensures Gctr(c, cb, k, x) == Xor(x, E(c, cb)[..|x|])
  {
    hide E, Xor, Inc;
    assert x[..|x|] == x && x[|x|..] == [];
    assert Gctr(c, Inc(cb, k), k, []) == [];
  }

  lemma GctrMore(c: Cipher, cb: Block, k: nat, x: seq<bv8>)
    requires k <= 16 && |x| >= 16
    ensures Gctr(c, cb, k, x) == Xor(x[..16], E(c, cb)[..16]) + Gctr(c, Inc(cb, k), k, x[16..])
  {
    hide E, Xor, Inc;
  }

  lemma {:induction false} GctrStep(c: Cipher, cb: Block, k: nat, x: seq<bv8>, i: nat)
    requires i < |x| && i % 16 == 0 && k <= 16
    ensures var e := Min(i + 16, |x|);
            Gctr(c, cb, k, x[..e]) ==
            Gctr(c, cb, k, x[..i]) + Xor(x[i..e], E(c, IncN(cb, k, i / 16))[..e - i])
    decreases i
  {
    hide E, Xor, IncN, Inc, Gctr;
    var e := Min(i + 16, |x|);
    if i == 0 {
      IncZero(cb, k);
      GctrOne(c, cb, k, x[..e]);
      GctrNone(c, cb, k);
      assert x[..0] == [] && x[0..e] == x[..e];
    } else {
      var x' := x[16..];
      GctrStep(c, Inc(cb, k), k, x', i - 16);
      GctrMore(c, cb, k, x[..e]);
      GctrMore(c, cb, k, x[..i]);
      ShorterPrefixes(x, i, e);
      IncStep(cb, k, i / 16 - 1);
      assert (i - 16) / 16 == i / 16 - 1;
    }
  }

  /** Byte i of the text, combined with its byte of the key stream. */
  lemma {:induction false} GctrAt(c: Cipher, cb: Block, k: nat, x: seq<bv8>, i: nat)
    requires i < |x| && k <= 16
    ensures Gctr(c, cb, k, x)[i] == XorByte(x[i], E(c, IncN(cb, k, i / 16))[i % 16])
    decreases i
  {
    hide E, IncN, Inc, XorByte;
    if i < 16 {
      IncZero(cb, k);
    } else {
      GctrAt(c, Inc(cb, k), k, x[16..], i - 16);
      IncStep(cb, k, i / 16 - 1);
      assert (i - 16) / 16 == i / 16 - 1 && (i - 16) % 16 == i % 16;
    }
  }

  /** Counter mode is its own inverse. */
  lemma {:induction false} GctrTwice(c: Cipher, cb: Block, k: nat, x: seq<bv8>)
    requires k <= 16
    ensures Gctr(c, cb, k, Gctr(c, cb, k, x)) == x
    decreases |x|
  {
    hide E, Xor, Inc;
    if x == [] {
    } else {
      var n := Min(16, |x|);
      var y := Gctr(c, cb, k, x);
      var ks := E(c, cb)[..n];
      assert y[..n] == Xor(x[..n], ks);
      assert y[n..] == Gctr(c, Inc(cb, k), k, x[n..]);
      GctrTwice(c, Inc(cb, k), k, x[n..]);
      XorCancel(x[..n], ks);
      assert x == x[..n] + x[n..];
    }
  }

  lemma XorPadded(k: Block, x: seq<bv8>)
    requires |x| <= 16
    ensures Xor(k, Pad16(x))[..|x|] == Xor(x, k[..|x|])
  {
    hide XorByte;
    forall i | 0 <= i < |x|
      ensures XorByte(k[i], x[i]) == XorByte(x[i], k[i])
    {
      XorByteComm(k[i], x[i]);
    }
  }

  lemma XorByteComm(a: bv8, b: bv8)
    ensures XorByte(a, b) == XorByte(b, a)
  {
  }

  /** What one iteration of a counter-mode loop leaves: from the counter q and the buffers s and d
      the counter q' and the buffers s' and d'. */
  ghost predicate Combined(c: Cipher, q: seq<bv32>, s: seq<bv8>, d: seq<bv8>, i: nat, n: nat, q': seq<bv32>,
                           s': seq<bv8>, d': seq<bv8>)
  {
    && |q| == |q'| == 4 && n <= 16 && i + n <= |s| && |s'| == |s| && i + n <= |d| && |d'| == |d|
    && Bytes(q') == Inc(Bytes(q), 8)
    && d'[..i + n] == d[..i] + Xor(s[i..i + n], E(c, Bytes(q'))[..n])
    && d'[i + n..] == d[i + n..] && s'[i + n..] == s[i + n..]
  }

  /** One iteration of a counter-mode loop: count, encrypt the counter, combine n bytes at i. */
  method CounterBlock(t: Tables, rKey: array<bv32>, ctr: array<bv32>, tmp: array<bv32>, out: array<bv32>,
                      src: array<bv8>, dst: array<bv8>, i: nat, n: nat, ghost c: Cipher)
    requires rKey.Length == 32 && c == Cipher(t, rKey[..])
    requires ctr.Length == 4 && tmp.Length == 4 && out.Length == 4
    requires rKey != ctr && rKey != tmp && rKey != out && ctr != tmp && ctr != out && tmp != out
    requires n <= 16 && i + n <= src.Length && i + n <= dst.Length
    modifies ctr, tmp, out, dst
    ensures Combined(c, old(ctr[..]), old(src[..]), old(dst[..]), i, n, ctr[..], src[..], dst[..])
  {
    hide Bytes, E, Xor, Pad16, Inc;
    ghost var x := src[i..i + n];
    IncreaseCounter(ctr);
    EncryptTo(t, out, ctr, rKey, c);
    LoadBlock(tmp, src, i, n);
    XorPadded(E(c, Bytes(ctr[..])), x);
    Xor128(out, out, tmp);
    Word2Byte(dst, i, out, n);
  }

  lemma SliceSlice(s: seq<bv8>, t: seq<bv8>, i: nat, n: nat, len: nat)
    requires |s| == |t| && i + n <= len <= |s| && s[i..] == t[i..]
    ensures s[i..i + n] == t[..len][i..i + n]
  {
    SliceOfPrefix(t, len, i, n);
    SliceOfSuffix(s, i, 0, n);
    SliceOfSuffix(t, i, 0, n);
  }

  /** What a counter-mode loop has done after i bytes, from the buffers s0 and d0. */
  ghost predicate Passed(c: Cipher, cb: Block, s0: seq<bv8>, d0: seq<bv8>, len: nat, i: nat,
                         q: seq<bv32>, s: seq<bv8>, d: seq<bv8>)
  {
    && |q| == 4 && i % 16 == 0 && len <= |s0| == |s| && len <= |d0| == |d|
    && Bytes(q) == IncN(cb, 8, i / 16)
    && var m := Min(i, len);
       d[..m] == Gctr(c, Inc(cb, 8), 8, s0[..len][..m]) && d[m..] == d0[m..] && s[m..] == s0[m..]
  }

  lemma PassedStart(c: Cipher, len: nat, q: Quad, s: seq<bv8>, d: seq<bv8>)
    requires len <= |s| && len <= |d|
    ensures Passed(c, Bytes(q), s, d, len, 0, q, s, d)
  {
    IncZero(Bytes(q), 8);
    GctrNone(c, Inc(Bytes(q), 8), 8);
    hide Bytes, Inc, IncN, Gctr;
    assert d[..0] == [] && s[..len][..0] == [];
  }

  lemma PassedStep(c: Cipher, cb: Block, s0: seq<bv8>, d0: seq<bv8>, len: nat, i: nat, n: nat,
                   q: seq<bv32>, s: seq<bv8>, d: seq<bv8>, q': seq<bv32>, s': seq<bv8>, d': seq<bv8>)
    requires Passed(c, cb, s0, d0, len, i, q, s, d) && i < len && n == Min(16, len - i)
    requires Combined(c, q, s, d, i, n, q', s', d')
    ensures Passed(c, cb, s0, d0, len, i + 16, q', s', d')
  {
    hide Bytes, E, Xor, Inc, IncN, Gctr;
    IncStep(cb, 8, i / 16);
    GctrStep(c, Inc(cb, 8), 8, s0[..len], i);
    SliceSlice(s, s0, i, n, len);
    SameSuffix(d, d0, i, n);
    SameSuffix(s, s0, i, n);
  }

  lemma PassedEnd(c: Cipher, cb: Block, s0: seq<bv8>, d0: seq<bv8>, len: nat, i: nat,
                  q: seq<bv32>, s: seq<bv8>, d: seq<bv8>)
    requires Passed(c, cb, s0, d0, len, i, q, s, d) && i >= len
    ensures d == Gctr(c, Inc(cb, 8), 8, s0[..len]) + d0[len..]
  {
    hide Bytes, Inc, IncN, Gctr;
    assert s0[..len][..len] == s0[..len] && d == d[..len] + d[len..];
  }

  /** The counter-mode loop of the GCM and CCM files: src[..len] enciphered into dst.
      The text may be enciphered in place. */
  method CounterPass(t: Tables, rKey: array<bv32>, ctr: array<bv32>,
                     src: array<bv8>, dst: array<bv8>, len: nat, ghost c: Cipher)
    requires rKey.Length == 32 && c == Cipher(t, rKey[..])
    requires ctr.Length == 4 && ctr != rKey
    requires len <= src.Length && len <= dst.Length
    modifies ctr, dst
    ensures dst[..] == Gctr(c, Inc(old(Bytes(ctr[..])), 8), 8, old(src[..len])) + old(dst[len..])
  {
    hide Bytes, Inc, Gctr, Passed, Combined;
    var tmp := new bv32[4];
    var out := new bv32[4];
    ghost var cb, s0, d0 := Bytes(ctr[..]), src[..], dst[..];
    PassedStart(c, len, ctr[..], s0, d0);
    var i := 0;
    while i < len
      invariant 0 <= i && Passed(c, cb, s0, d0, len, i, ctr[..], src[..], dst[..])
      invariant rKey[..] == c.rk
    {
      var n := if len - i < 16 then len - i else 16;
      ghost var q, s, d := ctr[..], src[..], dst[..];
      CounterBlock(t, rKey, ctr, tmp, out, src, dst, i, n, c);
      PassedStep(c, cb, s0, d0, len, i, n, q, s, d, ctr[..], src[..], dst[..]);
      i := i + 16;
    }
    PassedEnd(c, cb, s0, d0, len, i, ctr[..], src[..], dst[..]);
  }

  lemma GctrNone(c: Cipher, cb: Block, k: nat)
    requires k <= 16
    ensures Gctr(c, cb, k, []) == []
  {
  }

  // ---------- blocks of a text ----------

  /** The number of counter blocks a text of n bytes uses. */
  function BlockCount(n: nat): nat { (n + 15) / 16 }

  /** Block i of a text: its bytes from 16i on, and zeros behind its end. */
  function BlockAt(s: seq<bv8>, i: nat): Block {
    seq(16, k requires 0 <= k < 16 => if 16 * i + k < |s| then s[16 * i + k] else 0)
  }

  lemma FirstBlockAt(s: seq<bv8>)
    requires s != []
    ensures Pad16(s[..Min(16, |s|)]) == BlockAt(s, 0)
  {
  }

  lemma NextBlockAt(s: seq<bv8>, i: nat)
    requires s != []
    ensures BlockAt(s[Min(16, |s|)..], i) == BlockAt(s, i + 1)
  {
  }

  lemma {:induction false} BlocksAre(s: seq<bv8>)
    ensures |ToBlocks(s)| == BlockCount(|s|)
    ensures forall i :: 0 <= i < |ToBlocks(s)| ==> ToBlocks(s)[i] == BlockAt(s, i)
    decreases |s|
  {
    hide Pad16, BlockAt;
    if s == [] {
    } else {
      var z := s[Min(16, |s|)..];
      BlocksAre(z);
      FirstBlockAt(s);
      forall i | 0 <= i < |ToBlocks(s)|
        ensures ToBlocks(s)[i] == BlockAt(s, i)
      {
        if i > 0 {
          NextBlockAt(s, i - 1);
        }
      }
    }
  }

  // ---------- counters of different widths ----------

  /** Counting in k and in j > k bytes gives the same counters up to n exactly when the narrow count does not wrap. */
  lemma {:induction false} CountersAgree(b: Block, k: nat, j: nat, n: nat)
    requires 0 < k < j <= 16
    ensures (forall i: nat :: i <= n ==> IncN(b, j, i) == IncN(b, k, i)) <==>
            (n == 0 || Num(b[16 - k..]) + n < Pow256(k))
    decreases n
  {
    hide IncN, Inc, Num, Pow256;
    IncZero(b, j);
    IncZero(b, k);
    if n == 0 {
    } else {
      CountersAgree(b, k, j, n - 1);
      if n == 1 || Num(b[16 - k..]) + (n - 1) < Pow256(k) {
        var p := IncN(b, k, n - 1);
        assert IncN(b, j, n - 1) == p;
        IncStep(b, j, n - 1);
        IncStep(b, k, n - 1);
        IncWidth(p, k, j);
        NumBound(b[16 - k..]);
        IncNTail(b, k, n - 1);
        assert IncN(b, j, n) == IncN(b, k, n) <==> Num(b[16 - k..]) + n < Pow256(k);
      }
    }
  }

  lemma IncNTail(b: Block, k: nat, n: nat)
    requires k <= 16 && Num(b[16 - k..]) + n < Pow256(k)
    ensures Num(IncN(b, k, n)[16 - k..]) == Num(b[16 - k..]) + n
  {
    hide BE, Num, Pow256;
    var v := Num(b[16 - k..]) + n;
    ModSmall(v, Pow256(k));
    assert IncN(b, k, n)[16 - k..] == BE(v, k);
    NumBE(v, k);
  }

  lemma IncTail(b: Block, k: nat)
    requires k <= 16 && Num(b[16 - k..]) + 1 < Pow256(k)
    ensures Num(Inc(b, k)[16 - k..]) == Num(b[16 - k..]) + 1
  {
    hide BE, Num, Pow256;
    var v := Num(b[16 - k..]) + 1;
    ModSmall(v, Pow256(k));
    assert Inc(b, k)[16 - k..] == BE(v, k);
    NumBE(v, k);
  }

  lemma {:induction false} GctrWidth(c: Cipher, cb: Block, k: nat, j: nat, x: seq<bv8>)
    requires 0 < k < j <= 16
    requires x == [] || Num(cb[16 - k..]) + BlockCount(|x|) <= Pow256(k)
    ensures Gctr(c, cb, j, x) == Gctr(c, cb, k, x)
    decreases |x|
  {
    hide E, Xor, Inc, Num, Pow256;
    if |x| <= 16 {
    } else {
      IncWidth(cb, k, j);
      IncTail(cb, k);
      GctrWidth(c, Inc(cb, k), k, j, x[16..]);
    }
  }

  // ---------- when two counters give the same text ----------

  /** The block cipher is a permutation of blocks. */
  lemma EInjective(c: Cipher, x: Block, y: Block)
    requires E(c, x) == E(c, y)
    ensures x == y
  {
    hide Encrypt, Decrypt, ToQuad, Bytes;
    QuadRoundTrip(Encrypt(c.t, c.rk, ToQuad(x)));
    QuadRoundTrip(Encrypt(c.t, c.rk, ToQuad(y)));
    DecryptEncrypt(c.t, c.rk, ToQuad(x));
    DecryptEncrypt(c.t, c.rk, ToQuad(y));
    BlockRoundTrip(x);
    BlockRoundTrip(y);
  }

  /** The same text under two counters: the same ciphertext exactly for the same counter. */
  lemma SameBlock(c: Cipher, x: Block, a: Block, b: Block)
    ensures Xor(x, E(c, a)) == Xor(x, E(c, b)) <==> a == b
  {
    hide E, Xor;
    if Xor(x, E(c, a)) == Xor(x, E(c, b)) {
      XorCancel(E(c, a), x);
      XorCancel(E(c, b), x);
      EInjective(c, a, b);
    }
  }

  lemma GctrAppend(c: Cipher, cb: Block, k: nat, x: seq<bv8>, y: Block, n: nat)
    requires k <= 16 && |x| == 16 * n
    ensures Gctr(c, cb, k, x + y) == Gctr(c, cb, k, x) + Xor(y, E(c, IncN(cb, k, n)))
  {
    hide E, Xor, IncN, Inc, Gctr;
    var z := x + y;
    GctrStep(c, cb, k, z, 16 * n);
    assert z[..16 * n + 16] == z && z[..16 * n] == x && z[16 * n..16 * n + 16] == y;
    assert E(c, IncN(cb, k, n))[..16] == E(c, IncN(cb, k, n));
  }

  /** Two counter sequences give the same text of whole blocks exactly when they agree on all its blocks. */
  lemma {:induction false} GctrSame(c: Cipher, a: Block, k: nat, b: Block, j: nat, x: seq<bv8>, n: nat)
    requires k <= 16 && j <= 16 && |x| == 16 * n
    ensures Gctr(c, a, k, x) == Gctr(c, b, j, x) <==> forall i: nat :: i < n ==> IncN(a, k, i) == IncN(b, j, i)
    decreases n
  {
    hide E, Xor, IncN, Inc, Gctr;
    if n == 0 {
      GctrNone(c, a, k);
      GctrNone(c, b, j);
      assert x == [];
    } else {
      var front, last := x[..16 * (n - 1)], x[16 * (n - 1)..];
      assert x == front + last;
      GctrSame(c, a, k, b, j, front, n - 1);
      GctrAppend(c, a, k, front, last, n - 1);
      GctrAppend(c, b, j, front, last, n - 1);
      SameBlock(c, last, IncN(a, k, n - 1), IncN(b, j, n - 1));
      SameConcat(Gctr(c, a, k, front), Gctr(c, b, j, front), Xor(last, E(c, IncN(a, k, n - 1))),
                 Xor(last, E(c, IncN(b, j, n - 1))));
    }
  }

  lemma SameConcat(x: seq<bv8>, x': seq<bv8>, y: seq<bv8>, y': seq<bv8>)
    requires |x| == |x'|
    ensures x + y == x' + y' <==> x == x' && y == y'
  {
    assert (x + y)[..|x|] == x && (x' + y')[..|x|] == x';
    assert (x + y)[|x|..] == y && (x' + y')[|x|..] == y';
  }

  /** Counting in k bytes and in j > k bytes encrypts whole blocks to the same text if and only if
      the narrow counter does not wrap within them. */
  lemma GctrExact(c: Cipher, cb: Block, k: nat, j: nat, x: seq<bv8>, n: nat)
    requires 0 < k < j <= 16 && |x| == 16 * n
    ensures Gctr(c, cb, j, x) == Gctr(c, cb, k, x) <==> n <= 1 || Num(cb[16 - k..]) + (n - 1) < Pow256(k)
  {
    hide Gctr, IncN, Num, Pow256;
    GctrSame(c, cb, j, cb, k, x, n);
    if n > 0 {
      CountersAgree(cb, k, j, n - 1);
    }
  }

  /** A counter whose last word is all ones, and two blocks of text: INCREASE gives another ciphertext. */
  lemma WrappedText(c: Cipher)
    ensures var cb := Zeros(12) + [0xFF, 0xFF, 0xFF, 0xFF];
            Gctr(c, cb, 8, Zeros(32)) != Gctr(c, cb, 4, Zeros(32))
  {
    var cb := Zeros(12) + [0xFF, 0xFF, 0xFF, 0xFF];
    hide Gctr;
    GctrExact(c, cb, 4, 8, Zeros(32), 2);
    assert cb[12..] == [0xFF, 0xFF, 0xFF, 0xFF];
    NumFour(0xFF, 0xFF, 0xFF, 0xFF);
    IncByteValue(0xFF);
    Pow256Values();
  }

  // ---------- the tag check ----------

  /** The last loop of the decryptions: on the first differing tag byte the output is cleared. */
  method CompareAndClear(mac: array<bv8>, ct: array<bv8>, n: nat, macLen: nat, pt: array<bv8>) returns (ret: nat)
    requires macLen <= mac.Length && n + macLen <= ct.Length && n <= pt.Length
    requires pt != mac
    modifies pt
    ensures ret == if mac[..macLen] == old(ct[n..n + macLen]) then 0 else 1
    ensures ret == 0 ==> pt[..] == old(pt[..])
    ensures ret == 1 ==> pt[..] == Zeros(n) + old(pt[n..])
  {
    for i := 0 to macLen
      invariant mac[..i] == old(ct[n..n + i])
      invariant pt[..] == old(pt[..]) && ct[..] == old(ct[..])
    {
      if mac[i] != ct[n + i] {
        assert mac[..macLen][i] != old(ct[n..n + macLen])[i];
        for j := 0 to n
          invariant forall k :: 0 <= k < j ==> pt[k] == 0
          invariant pt[j..] == old(pt[j..])
        {
          pt[j] := 0;
        }
        return 1;
      }
    }
    return 0;
  }

  /** The tag as bytes, and the comparison. */
  method CheckTag(out: array<bv32>, ct: array<bv8>, n: nat, macLen: nat, pt: array<bv8>) returns (ret: nat)
    requires out.Length == 4 && macLen <= 16 && n + macLen <= ct.Length && n <= pt.Length
    modifies pt
    ensures ret == if Bytes(out[..])[..macLen] == old(ct[n..n + macLen]) then 0 else 1
    ensures ret == 0 ==> pt[..] == old(pt[..])
    ensures ret == 1 ==> pt[..] == Zeros(n) + old(pt[n..])
  {
    hide Bytes;
    var mac := new bv8[16](_ => 0);
    Word2Byte(mac, 0, out, macLen);
    assert mac[..macLen] == Bytes(out[..])[..macLen];
    ret := CompareAndClear(mac, ct, n, macLen, pt);
  }

  lemma JoinTag(mid: seq<bv8>, text: seq<bv8>, d: seq<bv8>, n: nat, k: nat)
    requires |text| == n && n + k <= |d| && mid == text + d[n..]
    ensures mid[..n] == text && mid[n + k..] == d[n + k..]
  {
  }

  /** The lengths for which the code's loop counters and byte counts do not wrap. */
  const MAX_LEN: nat := 0xFFFF_FFEF
}
