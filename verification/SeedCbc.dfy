/** SEED in CBC mode: the Init, Process and Close functions of KISA_SEED_CBC.c, the one-shot
    functions built on them, and when feeding the text in pieces gives the same result. */
module SeedCbc {
  import opened Words
  import opened Numbers
  import opened Buffers
  import opened Seed
  import opened BlockModes
  import opened Cbc
  import opened Options

  /** The inverse block function CIPH_K^-1. */
  function D(c: Cipher, b: Block): Block {
    Bytes(Decrypt(c.t, c.rk, ToQuad(b)))
  }

  ghost function Forward(c: Cipher): Block -> Block {
    (b: Block) => E(c, b)
  }

  ghost function Backward(c: Cipher): Block -> Block {
    (b: Block) => D(c, b)
  }

  lemma BackwardOfForward(c: Cipher)
    ensures forall b :: Backward(c)(Forward(c)(b)) == b
  {
    hide Bytes, ToQuad, Encrypt, Decrypt;
    forall b: Block
      ensures Backward(c)(Forward(c)(b)) == b
    {
      var q := ToQuad(b);
      QuadRoundTrip(Encrypt(c.t, c.rk, q));
      DecryptEncrypt(c.t, c.rk, q);
      BlockRoundTrip(b);
    }
  }

  // ---------- padding, section 6.3 of RFC 5652 ----------

  /** k bytes of value k. */
  function Padding(k: nat): (r: seq<bv8>)
    requires k <= 16
    ensures |r| == k
  {
    seq(k, _ => ByteOf(k))
  }

  /** The bytes of p that make whole blocks. */
  function Front(p: seq<bv8>): Text { p[..Whole(|p|)] }

  /** The bytes left over. */
  function Tail(p: seq<bv8>): (r: seq<bv8>)
    ensures |r| < 16
  {
    p[Whole(|p|)..]
  }

  function PadBlock(tail: seq<bv8>): Block
    requires |tail| < 16
  {
    tail + Padding(16 - |tail|)
  }

  function Padded(p: seq<bv8>): Text {
    Front(p) + PadBlock(Tail(p))
  }

  /** What Close makes of the last block: only its last byte is looked at. */
  function Unpadded(p: Text): Option<seq<bv8>>
    requires p != []
  {
    var k := Val(p[|p| - 1]);
    if 0 < k <= 16 then Some(p[..|p| - k]) else None
  }

  lemma UnpaddedOfPadded(p: seq<bv8>)
    ensures Unpadded(Padded(p)) == Some(p)
  {
    var k := 16 - |Tail(p)|;
    ByteOfValue(k);
    PaddedIsAppended(p);
    hide ByteOf, Val;
    assert Padded(p)[|p|..] == Padding(k);
  }

  lemma WholeBack(m: nat, k: nat)
    requires m % 16 == 0 && 0 < k <= 16 <= m
    ensures Whole(m - k) == m - 16
  {
  }

  lemma ProperIsPadded(p: Text, q: seq<bv8>)
    requires p != [] && Unpadded(p) == Some(q) && p == q + Padding(|p| - |q|)
    ensures Padded(q) == p
  {
    hide Padded, Padding, Val, Whole;
    PaddedIsAppended(q);
    WholeBack(|p|, |p| - |q|);
  }

  /** All the bytes that unpadding removes are the padding of their number. */
  predicate Proper(p: Text)
    requires p != []
  {
    Unpadded(p).Some? && p == Unpadded(p).value + Padding(|p| - |Unpadded(p).value|)
  }

  lemma PaddedIsProper(q: seq<bv8>)
    ensures Padded(q) != [] && Proper(Padded(q))
  {
    UnpaddedOfPadded(q);
    PaddedIsAppended(q);
    hide Padded, Unpadded;
  }

  /** Close also accepts text that no padding produced: what it returns is the unpadded text
      exactly when all the bytes it cuts off have the value of the last. */
  lemma ProperlyPadded(p: Text)
    requires p != []
    ensures (exists q: seq<bv8> :: Padded(q) == p) <==> Proper(p)
  {
    hide Padded, Unpadded, Padding;
    if q: seq<bv8> :| Padded(q) == p {
      PaddedIsProper(q);
    }
    if Proper(p) {
      ProperIsPadded(p, Unpadded(p).value);
    }
  }

  lemma PaddedIsAppended(q: seq<bv8>)
    ensures Padded(q) == q + Padding(Whole(|q|) + 16 - |q|)
  {
    assert Front(q) + Tail(q) == q;
  }

  // ---------- one-shot and chunked encryption as functions ----------

  ghost function Sealed(c: Cipher, iv: Block, p: seq<bv8>): Text {
    CbcEncrypt(Forward(c), iv, Padded(p))
  }

  ghost function Opened(c: Cipher, iv: Block, e: Text): Option<seq<bv8>>
    requires e != []
  {
    Unpadded(CbcDecrypt(Backward(c), iv, e))
  }

  /** Decrypting the encryption of a text of any length returns exactly that text. */
  lemma OpenedOfSealed(c: Cipher, iv: Block, p: seq<bv8>)
    ensures Sealed(c, iv, p) != [] && Opened(c, iv, Sealed(c, iv, p)) == Some(p)
  {
    hide Forward, Backward;
    BackwardOfForward(c);
    CbcRoundTrip(Forward(c), Backward(c), iv, Padded(p));
    UnpaddedOfPadded(p);
  }

  /** The padded text: its own bytes, then as many as fill a block, at least one, each of which
      tells their number. */
  lemma PaddedBytes(p: seq<bv8>)
    ensures |Padded(p)| == |p| / 16 * 16 + 16 && Padded(p)[..|p|] == p
    ensures forall i :: |p| <= i < |Padded(p)| ==> Val(Padded(p)[i]) == |Padded(p)| - |p|
  {
    PaddedIsAppended(p);
    var k := Whole(|p|) + 16 - |p|;
    ByteOfValue(k);
    hide ByteOf, Val, Padded;
  }

  /** The blocks of the one-shot encryption: the key applied to the padded text combined with the
      block before. */
  lemma SealedBlock(c: Cipher, iv: Block, p: seq<bv8>, i: nat, q: Text)
    requires |q| == |p| / 16 * 16 + 16 && q[..|p|] == p && 16 * i < |q|
    requires forall j :: |p| <= j < |q| ==> Val(q[j]) == |q| - |p|
    ensures ChainedBlock(Forward(c), iv, q, Sealed(c, iv, p), i)
  {
    hide E, Xor, CbcEncrypt, Padded, Val, Forward, ChainedBlock;
    PaddedBytes(p);
    forall j | 0 <= j < |q|
      ensures q[j] == Padded(p)[j]
    {
      if j < |p| {
        assert q[j] == q[..|p|][j] && Padded(p)[j] == Padded(p)[..|p|][j];
      } else {
        ByteInjective(q[j], Padded(p)[j]);
      }
    }
    assert q == Padded(p);
    CbcBlock(Forward(c), iv, q, i);
  }

  /** Opening looks only at the value of the last byte: from 1 to 16 it is the number of bytes cut off. */
  lemma OpenedExactly(c: Cipher, iv: Block, e: Text, p: seq<bv8>)
    requires e != []
    ensures var q := CbcDecrypt(Backward(c), iv, e);
            Opened(c, iv, e) == Some(p) <==>
            p <= q && |q| - 16 <= |p| < |q| && Val(q[|q| - 1]) == |q| - |p|
  {
    hide CbcDecrypt, Backward, Val;
    var q := CbcDecrypt(Backward(c), iv, e);
    if p <= q {
      assert p == q[..|p|];
    }
  }

  /** Everything written by Process on each chunk in turn and then Close, from chaining
      value iv with tail in the buffer. */
  ghost function ChunkedRun(c: Cipher, iv: Block, tail: seq<bv8>, chunks: seq<seq<bv8>>): seq<bv8>
    requires |tail| < 16
    decreases |chunks|
  {
    if chunks == [] then E(c, Xor(iv, PadBlock(tail)))
    else
      var e := CbcEncrypt(Forward(c), iv, Front(chunks[0]));
      e + ChunkedRun(c, Chain(iv, e), Tail(chunks[0]), chunks[1..])
  }

  function Join(chunks: seq<seq<bv8>>): seq<bv8> {
    if chunks == [] then [] else chunks[0] + Join(chunks[1..])
  }

  /** The text that a chunked run really encrypts: every chunk but the last loses its tail. */
  function Kept(tail: seq<bv8>, chunks: seq<seq<bv8>>): seq<bv8>
    decreases |chunks|
  {
    if chunks == [] then tail else Front(chunks[0]) + Kept(Tail(chunks[0]), chunks[1..])
  }

  /** Every chunk but the last is a whole number of blocks. */
  predicate Aligned(chunks: seq<seq<bv8>>) {
    forall i :: 0 <= i < |chunks| - 1 ==> |chunks[i]| % 16 == 0
  }

  lemma WholeAppend(m: nat, n: nat)
    requires m % 16 == 0
    ensures Whole(m + n) == m + Whole(n)
  {
    DivUnique(m + n, m / 16 + n / 16, n % 16, 16);
  }

  lemma PartsAppend(x: Text, p: seq<bv8>)
    requires Whole(|x + p|) == |x| + Whole(|p|)
    ensures Front(x + p) == x + Front(p) && Tail(x + p) == Tail(p)
  {
    hide Whole;
  }

  lemma PaddedAppend(x: Text, p: seq<bv8>)
    ensures Padded(x + p) == x + Padded(p)
  {
    hide PadBlock, Whole, Front, Tail;
    WholeAppend(|x|, |p|);
    PartsAppend(x, p);
    Regroup(x, Front(p), PadBlock(Tail(p)));
  }

  lemma EncryptOne(f: Block -> Block, iv: Block, b: Block)
    ensures CbcEncrypt(f, iv, b) == f(Xor(iv, b))
  {
    hide Xor;
    Cbc.NoBlocks(f, iv);
    EncryptSnoc(f, iv, [], b);
    assert [] + b == b;
  }

  /** A chunked run encrypts, in one shot, what it keeps of its chunks. */
  lemma {:induction false} RunIsSealed(c: Cipher, iv: Block, tail: seq<bv8>, chunks: seq<seq<bv8>>)
    requires |tail| < 16
    ensures ChunkedRun(c, iv, tail, chunks) == Sealed(c, iv, Kept(tail, chunks))
    decreases |chunks|
  {
    hide Xor, E;
    if chunks == [] {
      assert Padded(tail) == PadBlock(tail);
      EncryptOne(Forward(c), iv, PadBlock(tail));
    } else {
      hide Padded, CbcEncrypt, Chain, PadBlock;
      var x, rest := Front(chunks[0]), Kept(Tail(chunks[0]), chunks[1..]);
      var e := CbcEncrypt(Forward(c), iv, x);
      RunIsSealed(c, Chain(iv, e), Tail(chunks[0]), chunks[1..]);
      PaddedAppend(x, rest);
      CbcAppend(Forward(c), iv, x, Padded(rest));
    }
  }

  lemma {:induction false} KeptLength(tail: seq<bv8>, chunks: seq<seq<bv8>>)
    ensures |Kept(tail, chunks)| <= |tail| + |Join(chunks)|
    ensures |Kept(tail, chunks)| == |tail| + |Join(chunks)| <==> chunks == [] || (tail == [] && Aligned(chunks))
    decreases |chunks|
  {
    if chunks == [] {
    } else {
      var rest := chunks[1..];
      KeptLength(Tail(chunks[0]), rest);
      AlignedTail(chunks);
    }
  }

  lemma AlignedTail(chunks: seq<seq<bv8>>)
    requires chunks != []
    ensures Aligned(chunks) <==> chunks[1..] == [] || (Tail(chunks[0]) == [] && Aligned(chunks[1..]))
  {
    var rest := chunks[1..];
    assert forall i :: 0 <= i < |rest| ==> rest[i] == chunks[i + 1];
    if rest != [] {
      assert Tail(chunks[0]) == [] <==> |chunks[0]| % 16 == 0;
      assert Aligned(chunks) ==> |chunks[0]| % 16 == 0;
      forall i | 0 < i < |chunks| - 1
        ensures chunks[i] == rest[i - 1]
      {
      }
    }
  }

  lemma {:induction false} KeptIsJoin(tail: seq<bv8>, chunks: seq<seq<bv8>>)
    requires tail == [] && Aligned(chunks)
    ensures Kept(tail, chunks) == Join(chunks)
    decreases |chunks|
  {
    if chunks == [] {
    } else {
      AlignedTail(chunks);
      if chunks[1..] != [] {
        KeptIsJoin(Tail(chunks[0]), chunks[1..]);
      }
    }
  }

  lemma SealedInjective(c: Cipher, iv: Block, p: seq<bv8>, q: seq<bv8>)
    requires Sealed(c, iv, p) == Sealed(c, iv, q)
    ensures p == q
  {
    hide Sealed, Opened;
    OpenedOfSealed(c, iv, p);
    OpenedOfSealed(c, iv, q);
  }

  /** Feeding a text in pieces gives the one-shot ciphertext exactly when every piece but the
      last is a whole number of blocks. */
  lemma SplitInvariant(c: Cipher, iv: Block, chunks: seq<seq<bv8>>)
    ensures ChunkedRun(c, iv, [], chunks) == Sealed(c, iv, Join(chunks)) <==> Aligned(chunks)
  {
    hide ChunkedRun, Sealed;
    RunIsSealed(c, iv, [], chunks);
    if Aligned(chunks) {
      KeptIsJoin([], chunks);
    } else {
      KeptLength([], chunks);
      if Sealed(c, iv, Kept([], chunks)) == Sealed(c, iv, Join(chunks)) {
        SealedInjective(c, iv, Kept([], chunks), Join(chunks));
      }
    }
  }

  /** A text in two pieces of which the first is not a whole number of blocks loses bytes. */
  lemma UnalignedSplit(c: Cipher, iv: Block, a: bv8, b: bv8)
    ensures ChunkedRun(c, iv, [], [[a], [b]]) == Sealed(c, iv, [b])
    ensures ChunkedRun(c, iv, [], [[a], [b]]) != Sealed(c, iv, [a, b])
  {
    hide ChunkedRun, Sealed;
    RunIsSealed(c, iv, [], [[a], [b]]);
    assert Kept([], [[a], [b]]) == [b] by {
      assert [[a], [b]][1..] == [[b]];
      assert Kept([a], [[b]]) == Front([b]) + Kept(Tail([b]), []);
    }
    if Sealed(c, iv, [b]) == Sealed(c, iv, [a, b]) {
      SealedInjective(c, iv, [b], [a, b]);
    }
  }

  // ---------- the two loops ----------

  /** The buffer d has become r by the encryption of text into it from position i on, and
      last is the block to chain to. */
  ghost predicate Encrypts(c: Cipher, iv: Block, text: seq<bv8>, d: seq<bv8>, i: nat, r: seq<bv8>, last: Block)
  {
    && |text| % 16 == 0 && i + |text| <= |d|
    && r == Overwrite(d, i, CbcEncrypt(Forward(c), iv, text))
    && last == Chain(iv, CbcEncrypt(Forward(c), iv, text))
  }

  ghost predicate Decrypts(c: Cipher, iv: Block, text: seq<bv8>, d: seq<bv8>, i: nat, r: seq<bv8>, last: Block)
  {
    && |text| % 16 == 0 && i + |text| <= |d|
    && r == Overwrite(d, i, CbcDecrypt(Backward(c), iv, text))
    && last == Chain(iv, text)
  }

  lemma NoneYet(c: Cipher, iv: Block, d: seq<bv8>, i: nat)
    requires i <= |d|
    ensures Encrypts(c, iv, [], d, i, d, iv) && Decrypts(c, iv, [], d, i, d, iv)
  {
    Cbc.NoBlocks(Forward(c), iv);
    Cbc.NoBlocks(Backward(c), iv);
  }

  lemma EncryptsStep(c: Cipher, iv: Block, text: seq<bv8>, d: seq<bv8>, i: nat, r: seq<bv8>, last: Block, b: Block)
    requires Encrypts(c, iv, text, d, i, r, last) && i + |text| + 16 <= |d| == |r|
    ensures var y := E(c, Xor(b, last)); Encrypts(c, iv, text + b, d, i, Overwrite(r, i + |text|, y), y)
  {
    hide Xor, E, CbcEncrypt, Chain, Overwrite;
    var e, y := CbcEncrypt(Forward(c), iv, text), E(c, Xor(b, last));
    XorComm(b, last);
    EncryptSnoc(Forward(c), iv, text, b);
    OverwriteTwice(d, i, e, y);
    ChainSnoc(iv, e, y);
  }

  lemma DecryptsStep(c: Cipher, iv: Block, text: seq<bv8>, d: seq<bv8>, i: nat, r: seq<bv8>, last: Block, b: Block)
    requires Decrypts(c, iv, text, d, i, r, last) && i + |text| + 16 <= |d| == |r|
    ensures Decrypts(c, iv, text + b, d, i, Overwrite(r, i + |text|, Xor(D(c, b), last)), b)
  {
    hide Xor, D, CbcDecrypt, Chain, Overwrite;
    DecryptSnoc(Backward(c), iv, text, b);
    OverwriteTwice(d, i, CbcDecrypt(Backward(c), iv, text), Xor(D(c, b), last));
    ChainSnoc(iv, text, b);
  }

  /** What one Process writes is the first part of what the whole run writes, and it leaves
      behind the state from which the rest of the run continues. */
  lemma RunNext(c: Cipher, iv: Block, held: seq<bv8>, text: seq<bv8>, rest: seq<seq<bv8>>, d: seq<bv8>, i: nat,
                r: seq<bv8>, last: Block)
    requires |held| < 16 && Encrypts(c, iv, Front(text), d, i, r, last)
    ensures |d| == |r| && i + Whole(|text|) <= |r|
    ensures ChunkedRun(c, iv, held, [text] + rest) == r[i..i + Whole(|text|)] + ChunkedRun(c, last, Tail(text), rest)
  {
    hide E, Xor, CbcEncrypt, Chain;
    OverwriteSame(d, i, CbcEncrypt(Forward(c), iv, Front(text)), CbcEncrypt(Forward(c), iv, Front(text)));
    assert ([text] + rest)[1..] == rest;
  }

  /** BLOCK_XOR_CBC, then the block function over its own result; the text may be its own output. */
  method EncryptNext(c: Cipher, last: Block, src: array<bv8>, j: nat, dst: array<bv8>, i: nat)
    requires j + 16 <= src.Length && i + 16 <= dst.Length
    modifies dst
    ensures dst[..] == Overwrite(old(dst[..]), i, E(c, Xor(old(src[j..j + 16]), last)))
  {
    hide E, Xor;
    ghost var d, x := dst[..], Xor(src[j..j + 16], last);
    Put(dst, i, Xor(src[j..j + 16], last));
    OverwriteSame(d, i, x, E(c, x));
    assert dst[i..i + 16] == dst[..][i..i + 16];
    Put(dst, i, E(c, dst[i..i + 16]));
  }

  method DecryptNext(c: Cipher, last: Block, src: array<bv8>, j: nat, dst: array<bv8>, i: nat)
    requires j + 16 <= src.Length && i + 16 <= dst.Length && src != dst
    modifies dst
    ensures dst[..] == Overwrite(old(dst[..]), i, Xor(D(c, src[j..j + 16]), last))
  {
    hide D, Xor;
    ghost var d, x := dst[..], D(c, src[j..j + 16]);
    Put(dst, i, D(c, src[j..j + 16]));
    OverwriteSame(d, i, x, Xor(x, last));
    assert dst[i..i + 16] == dst[..][i..i + 16];
    Put(dst, i, Xor(dst[i..i + 16], last));
  }

  /** One pass of the encrypting loop: cur is what the text buffer holds now, of which the part not
      yet read is as it was. */
  lemma LoopStep(c: Cipher, iv: Block, s: seq<bv8>, cur: seq<bv8>, j: nat, n: nat,
                 d: seq<bv8>, i: nat, r: seq<bv8>, last: Block)
    requires |cur| == |s| && j + n + 16 <= |s| && cur[j + n..] == s[j + n..]
    requires i + n + 16 <= |d| == |r| && n % 16 == 0 && Encrypts(c, iv, s[j..j + n], d, i, r, last)
    ensures var y := E(c, Xor(cur[j + n..j + n + 16], last));
            var r' := Overwrite(r, i + n, y);
            && r'[i + n..i + n + 16] == y && Encrypts(c, iv, s[j..j + n + 16], d, i, r', y)
            && cur[j + n + 16..] == s[j + n + 16..]
            && (cur == r && i == j ==> r'[j + n + 16..] == s[j + n + 16..])
  {
    hide Encrypts, E, Xor, Overwrite;
    var b := s[j + n..j + n + 16];
    SliceOfSuffix(cur, j + n, 0, 16);
    SliceOfSuffix(s, j + n, 0, 16);
    SameSuffix(cur, s, j + n, 16);
    EncryptsStep(c, iv, s[j..j + n], d, i, r, last, b);
    assert s[j..j + n] + b == s[j..j + n + 16];
    OverwriteAround(r, i + n, E(c, Xor(b, last)));
  }

  /** The encrypting loop of SEED_CBC_Process; last is the block that pdwXOR points to. */
  method EncryptLoop(c: Cipher, iv: Block, src: array<bv8>, j: nat, inLen: nat, dst: array<bv8>, i: nat)
    returns (last: Block, count: nat)
    requires j + inLen <= src.Length && i + Whole(inLen) <= dst.Length && (src != dst || i == j)
    modifies dst
    ensures count == Whole(inLen) + 16
    ensures Encrypts(c, iv, old(src[j..j + Whole(inLen)]), old(dst[..]), i, dst[..], last)
    ensures src[j + Whole(inLen)..] == old(src[j + Whole(inLen)..])
  {
    hide Encrypts, E, Xor, Overwrite;
    ghost var d, s := dst[..], src[..];
    last, count := iv, 16;
    NoneYet(c, iv, d, i);
    assert s[j..j + count - 16] == [];
    while count <= inLen
      invariant 16 <= count <= inLen + 16 && count % 16 == 0
      invariant Encrypts(c, iv, s[j..j + count - 16], d, i, dst[..], last)
      invariant src[..][j + count - 16..] == s[j + count - 16..]
    {
      ghost var n := count - 16;
      LoopStep(c, iv, s, src[..], j, n, d, i, dst[..], last);
      EncryptNext(c, last, src, j + count - 16, dst, i + count - 16);
      assert dst[i + n..i + n + 16] == dst[..][i + n..i + n + 16];
      last := dst[i + count - 16..i + count];
      count := count + 16;
    }
  }

  /** The decrypting loop. */
  method DecryptLoop(c: Cipher, iv: Block, src: array<bv8>, j: nat, inLen: nat, dst: array<bv8>, i: nat)
    returns (last: Block, count: nat)
    requires j + inLen <= src.Length && i + Whole(inLen) <= dst.Length && src != dst
    modifies dst
    ensures count == Whole(inLen) + 16
    ensures Decrypts(c, iv, src[j..j + Whole(inLen)], old(dst[..]), i, dst[..], last)
  {
    hide Decrypts, D, Xor;
    ghost var d := dst[..];
    last, count := iv, 16;
    NoneYet(c, iv, d, i);
    assert src[j..j + count - 16] == [];
    while count <= inLen
      invariant 16 <= count <= inLen + 16 && count % 16 == 0
      invariant Decrypts(c, iv, src[j..j + count - 16], d, i, dst[..], last)
    {
      ghost var n := count - 16;
      ghost var b := src[j + n..j + count];
      DecryptsStep(c, iv, src[j..j + n], d, i, dst[..], last, b);
      assert src[j..j + n] + b == src[j..j + count];
      DecryptNext(c, last, src, j + count - 16, dst, i + count - 16);
      last := src[j + count - 16..j + count];
      count := count + 16;
    }
  }

  // ---------- the C functions ----------

  /** KISA_SEED_INFO; the word arrays of the struct are held as the bytes they consist of. */
  class KisaSeedInfo {
    var encrypt: bool
    var ivec: Block
    var key: Cipher
    var cbcBuffer: Block
    var bufferLength: int
    var cbcLastBlock: Block

    ghost predicate Valid()
      reads this
    {
      encrypt ==> 0 <= bufferLength < 16
    }

    /** The bytes kept back for Close. */
    ghost function Held(): seq<bv8>
      requires 0 <= bufferLength < 16
      reads this
    {
      cbcBuffer[..bufferLength]
    }

    /** SEED_CBC_init. */
    constructor Init(t: Tables, enc: bool, userKey: array<bv8>, iv: array<bv8>)
      requires userKey.Length == 16 && iv.Length == 16
      ensures Valid() && encrypt == enc && bufferLength == 0
      ensures ivec == iv[..] && key == Keyed(t, userKey[..])
      ensures cbcBuffer == cbcLastBlock == ZERO_BLOCK
    {
      var rk := new bv32[32];
      SeedKeySched(t, userKey, rk);
      encrypt := enc;
      ivec := iv[..];
      key := Cipher(t, rk[..]);
      cbcBuffer, cbcLastBlock := ZERO_BLOCK, ZERO_BLOCK;
      bufferLength := 0;
    }

    /** SEED_CBC_Process. */
    method Process(src: array<bv8>, j: nat, inLen: int, dst: array<bv8>, i: nat) returns (ok: bool, outLen: nat)
      requires src == dst ==> encrypt && i == j
      requires 0 <= inLen ==> j + inLen <= src.Length && i + Whole(inLen) <= dst.Length
      requires 0 <= inLen && !encrypt ==> 16 <= i + Whole(inLen)
      modifies this`ivec, this`bufferLength, this`cbcBuffer, this`cbcLastBlock, dst
      ensures ok == (0 <= inLen)
      ensures !ok ==> bufferLength == old(bufferLength) && ivec == old(ivec) && dst[..] == old(dst[..])
      ensures !ok || encrypt ==> cbcLastBlock == old(cbcLastBlock)
      ensures !ok || !encrypt ==> cbcBuffer == old(cbcBuffer)
      ensures ok ==> outLen == Whole(inLen)
      ensures ok && encrypt ==>
        && Encrypts(key, old(ivec), old(src[..])[j..j + outLen], old(dst[..]), i, dst[..], ivec)
        && Valid() && bufferLength == inLen - outLen && Held() == old(src[..])[j + outLen..j + inLen]
        && cbcBuffer[bufferLength..] == old(cbcBuffer)[bufferLength..]
      ensures ok && !encrypt ==>
        && Decrypts(key, old(ivec), src[j..j + outLen], old(dst[..]), i, dst[..], ivec)
        && cbcLastBlock == dst[i + outLen - 16..i + outLen] && bufferLength == inLen - 16
    {
      hide Encrypts, Decrypts;
      if inLen < 0 {
        return false, 0;
      }
      ok := true;
      bufferLength := inLen - 16;
      if encrypt {
        ghost var s, w := src[..], Whole(inLen);
        var last, count := EncryptLoop(key, ivec, src, j, inLen, dst, i);
        assert src[j + w..j + inLen] == s[j + w..j + inLen] by {
          SliceOfSuffix(src[..], j + w, 0, inLen - w);
          SliceOfSuffix(s, j + w, 0, inLen - w);
        }
        outLen := count - 16;
        bufferLength := inLen - outLen;
        ivec := last;
        assert |src[j + outLen..j + inLen]| == bufferLength && |cbcBuffer[bufferLength..]| == 16 - bufferLength;
        cbcBuffer := src[j + outLen..j + inLen] + cbcBuffer[bufferLength..];
      } else {
        var last, count := DecryptLoop(key, ivec, src, j, inLen, dst, i);
        outLen := count - 16;
        ivec := last;
        cbcLastBlock := dst[i + outLen - 16..i + outLen];
      }
    }

    /** SEED_CBC_Close. */
    method Close(dst: array<bv8>, i: nat) returns (ok: bool, outLen: nat)
      requires Valid()
      requires encrypt ==> i + 16 <= dst.Length
      requires !encrypt && 0 < Val(cbcLastBlock[15]) <= 16 ==> Val(cbcLastBlock[15]) <= i <= dst.Length
      modifies this`cbcBuffer, dst
      ensures encrypt ==>
        && ok && outLen == 16
        && cbcBuffer == Xor(PadBlock(old(Held())), ivec)
        && dst[..] == Overwrite(old(dst[..]), i, E(key, cbcBuffer))
      ensures !encrypt ==>
        && cbcBuffer == old(cbcBuffer)
        && ok == (0 < Val(cbcLastBlock[15]) <= 16)
        && outLen == (if ok then Val(cbcLastBlock[15]) else 0)
        && dst[..] == Overwrite(old(dst[..]), if ok then i - outLen else 0, Zeros(outLen))
    {
      hide E, Xor;
      outLen := 0;
      if encrypt {
        var n := 16 - bufferLength;
        ghost var tail := Held();
        for k := bufferLength to 16
          invariant dst[..] == old(dst[..])
          invariant cbcBuffer[..k] == tail + Padding(n)[..k - bufferLength]
        {
          cbcBuffer := cbcBuffer[k := ByteOf(n)];
        }
        assert cbcBuffer[..16] == cbcBuffer && Padding(n)[..n] == Padding(n);
        cbcBuffer := Xor(cbcBuffer, ivec);
        Put(dst, i, E(key, cbcBuffer));
        return true, 16;
      } else {
        var n := Val(cbcLastBlock[15]);
        if 0 < n <= 16 {
          Put(dst, i - n, Zeros(n));
          return true, n;
        } else {
          return false, 0;
        }
      }
    }

    /** One call of Process on a whole buffer. */
    method FeedPiece(chunk: array<bv8>, ghost text: seq<bv8>, dst: array<bv8>, i: nat) returns (n: nat)
      requires Valid() && encrypt && dst != chunk && chunk[..] == text && i + Whole(|text|) <= dst.Length
      modifies this`ivec, this`bufferLength, this`cbcBuffer, this`cbcLastBlock, dst
      ensures Valid() && n == Whole(|text|) && Held() == Tail(text) && cbcLastBlock == old(cbcLastBlock)
      ensures Encrypts(key, old(ivec), Front(text), old(dst[..]), i, dst[..], ivec)
    {
      hide Encrypts;
      var ok;
      ok, n := Process(chunk, 0, chunk.Length, dst, i);
      assert text[0..0 + n] == Front(text) && text[0 + n..0 + |text|] == Tail(text);
    }

    /** A text fed to Process in pieces, one buffer each, and then Close: what the buffer dst then
        holds from i on is what ChunkedRun says. */
    method Feed(chunks: seq<array<bv8>>, ghost texts: seq<seq<bv8>>, dst: array<bv8>, i: nat) returns (len: nat)
      requires Valid() && encrypt && dst !in chunks && |texts| == |chunks|
      requires forall k :: 0 <= k < |chunks| ==> chunks[k][..] == texts[k]
      requires i + RunLength(texts) <= dst.Length
      modifies this`ivec, this`bufferLength, this`cbcBuffer, this`cbcLastBlock, dst
      ensures len == |old(ChunkedRun(key, ivec, Held(), texts))| == RunLength(texts)
      ensures cbcLastBlock == old(cbcLastBlock)
      ensures dst[..] == Overwrite(old(dst[..]), i, old(ChunkedRun(key, ivec, Held(), texts)))
    {
      hide ChunkedRun, Overwrite, E, Xor, Encrypts, PadBlock, FedSoFar, RunLength;
      ghost var d, whole, done := dst[..], ChunkedRun(key, ivec, Held(), texts), [];
      var pos := i;
      FedBegins(key, ivec, Held(), texts, d, i);
      for k := 0 to |chunks|
        invariant Valid() && encrypt && pos == i + |done| && key == old(key) && cbcLastBlock == old(cbcLastBlock)
        invariant forall m :: k <= m < |chunks| ==> chunks[m][..] == texts[m]
        invariant FedSoFar(key, ivec, Held(), texts, k, d, i, whole, done, dst[..])
      {
        ghost var v, h, r := ivec, Held(), dst[..];
        FedRoom(key, v, h, texts, k, d, i, whole, done, r);
        var n := FeedPiece(chunks[k], texts[k], dst, pos);
        FedStep(key, v, h, texts, k, d, i, whole, done, r, dst[..], ivec);
        done := done + dst[..][pos..pos + n];
        pos := pos + n;
      }
      ghost var v, h, r := ivec, Held(), dst[..];
      FedEnds(key, v, h, texts, d, i, whole, done, r);
      var ok, n := Close(dst, pos);
      len := pos + n - i;
    }
  }

  /** The number of bytes that a chunked run writes. */
  function RunLength(chunks: seq<seq<bv8>>): nat {
    if chunks == [] then 16 else Whole(|chunks[0]|) + RunLength(chunks[1..])
  }

  lemma {:induction false} RunHasLength(c: Cipher, iv: Block, held: seq<bv8>, chunks: seq<seq<bv8>>)
    requires |held| < 16
    ensures |ChunkedRun(c, iv, held, chunks)| == RunLength(chunks)
    decreases |chunks|
  {
    hide E, Xor, CbcEncrypt, Chain, PadBlock;
    if chunks == [] {
    } else {
      var e := CbcEncrypt(Forward(c), iv, Front(chunks[0]));
      RunHasLength(c, Chain(iv, e), Tail(chunks[0]), chunks[1..]);
    }
  }

  lemma RunLengthNext(chunks: seq<seq<bv8>>, k: nat)
    requires k < |chunks|
    ensures RunLength(chunks[k..]) == Whole(|chunks[k]|) + RunLength(chunks[k + 1..]) >= Whole(|chunks[k]|)
  {
    assert chunks[k..][1..] == chunks[k + 1..];
  }

  lemma Uncons<T>(xs: seq<T>, k: nat)
    requires k < |xs|
    ensures xs[k..] == [xs[k]] + xs[k + 1..]
  {
  }

  lemma EncryptsIs(c: Cipher, iv: Block, text: seq<bv8>, d: seq<bv8>, i: nat, r: seq<bv8>, last: Block)
    requires Encrypts(c, iv, Front(text), d, i, r, last)
    ensures var e := CbcEncrypt(Forward(c), iv, Front(text));
            |e| == Whole(|text|) && i + |e| <= |d| && r == Overwrite(d, i, e)
  {
    hide CbcEncrypt, Overwrite, Chain, E;
  }

  /** One more piece is written and the run goes on behind it. */
  lemma FedNext(c: Cipher, iv: Block, held: seq<bv8>, texts: seq<seq<bv8>>, k: nat,
                d: seq<bv8>, i: nat, done: seq<bv8>, r: seq<bv8>, pos: nat, r': seq<bv8>, last: Block)
    requires |held| < 16 && k < |texts| && i + |done| == pos <= |d| && r == Overwrite(d, i, done)
    requires Encrypts(c, iv, Front(texts[k]), r, pos, r', last)
    ensures |r'| == |d| && pos + Whole(|texts[k]|) <= |d|
    ensures var piece := r'[pos..pos + Whole(|texts[k]|)];
            && r' == Overwrite(d, i, done + piece)
            && done + ChunkedRun(c, iv, held, texts[k..]) ==
               (done + piece) + ChunkedRun(c, last, Tail(texts[k]), texts[k + 1..])
  {
    hide ChunkedRun, E, Xor, CbcEncrypt, Chain, Overwrite, Encrypts;
    var e := CbcEncrypt(Forward(c), iv, Front(texts[k]));
    Uncons(texts, k);
    EncryptsIs(c, iv, texts[k], r, pos, r', last);
    RunNext(c, iv, held, texts[k], texts[k + 1..], r, pos, r', last);
    OverwriteAround(r, pos, e);
    OverwriteTwice(d, i, done, e);
    Regroup(done, e, ChunkedRun(c, last, Tail(texts[k]), texts[k + 1..]));
  }

  /** After k pieces done is written from i on, and a run from here on adds what is missing. */
  ghost predicate FedSoFar(c: Cipher, iv: Block, held: seq<bv8>, texts: seq<seq<bv8>>, k: nat,
                           d: seq<bv8>, i: nat, whole: seq<bv8>, done: seq<bv8>, r: seq<bv8>)
  {
    && |held| < 16 && k <= |texts| && i + |done| + RunLength(texts[k..]) <= |d| && r == Overwrite(d, i, done)
    && whole == done + ChunkedRun(c, iv, held, texts[k..]) && |whole| == RunLength(texts)
  }

  lemma FedBegins(c: Cipher, iv: Block, held: seq<bv8>, texts: seq<seq<bv8>>, d: seq<bv8>, i: nat)
    requires |held| < 16 && i + RunLength(texts) <= |d|
    ensures FedSoFar(c, iv, held, texts, 0, d, i, ChunkedRun(c, iv, held, texts), [], d)
  {
    hide ChunkedRun, RunLength;
    RunHasLength(c, iv, held, texts);
    assert texts[0..] == texts;
  }

  lemma FedRoom(c: Cipher, iv: Block, held: seq<bv8>, texts: seq<seq<bv8>>, k: nat,
                d: seq<bv8>, i: nat, whole: seq<bv8>, done: seq<bv8>, r: seq<bv8>)
    requires FedSoFar(c, iv, held, texts, k, d, i, whole, done, r) && k < |texts|
    ensures |r| == |d| && i + |done| + Whole(|texts[k]|) <= |d|
  {
    hide ChunkedRun, RunLength, Overwrite;
    RunLengthNext(texts, k);
  }

  lemma FedStep(c: Cipher, iv: Block, held: seq<bv8>, texts: seq<seq<bv8>>, k: nat, d: seq<bv8>, i: nat,
                whole: seq<bv8>, done: seq<bv8>, r: seq<bv8>, r': seq<bv8>, last: Block)
    requires FedSoFar(c, iv, held, texts, k, d, i, whole, done, r) && k < |texts|
    requires Encrypts(c, iv, Front(texts[k]), r, i + |done|, r', last)
    ensures var pos := i + |done|;
            && |r'| == |d| && pos + Whole(|texts[k]|) <= |d|
            && FedSoFar(c, last, Tail(texts[k]), texts, k + 1, d, i, whole,
                        done + r'[pos..pos + Whole(|texts[k]|)], r')
  {
    hide ChunkedRun, RunLength, Overwrite, Encrypts;
    RunLengthNext(texts, k);
    FedNext(c, iv, held, texts, k, d, i, done, r, i + |done|, r', last);
  }

  lemma FedEnds(c: Cipher, iv: Block, held: seq<bv8>, texts: seq<seq<bv8>>,
                d: seq<bv8>, i: nat, whole: seq<bv8>, done: seq<bv8>, r: seq<bv8>)
    requires FedSoFar(c, iv, held, texts, |texts|, d, i, whole, done, r)
    ensures |whole| == RunLength(texts) == |done| + 16 && |r| == |d| && i + |done| + 16 <= |d|
    ensures Overwrite(r, i + |done|, E(c, Xor(PadBlock(held), iv))) == Overwrite(d, i, whole)
  {
    assert texts[|texts|..] == [];
    hide E, Overwrite, PadBlock, Xor;
    XorComm(PadBlock(held), iv);
    OverwriteTwice(d, i, done, E(c, Xor(PadBlock(held), iv)));
  }

  /** The calls Init, Process for every piece, and Close write the one-shot ciphertext of the whole
      text if and only if every piece but the last is a whole number of blocks. */
  method EncryptInPieces(t: Tables, userKey: array<bv8>, iv: array<bv8>, chunks: seq<array<bv8>>,
                         ghost texts: seq<seq<bv8>>, dst: array<bv8>)
    returns (len: nat)
    requires userKey.Length == 16 && iv.Length == 16 && dst !in chunks && |texts| == |chunks|
    requires forall k :: 0 <= k < |chunks| ==> chunks[k][..] == texts[k]
    requires RunLength(texts) <= dst.Length
    modifies dst
    ensures len <= dst.Length && dst[len..] == old(dst[len..])
    ensures dst[..len] == Sealed(Keyed(t, old(userKey[..])), old(iv[..]), Join(texts)) <==> Aligned(texts)
  {
    hide ChunkedRun, Sealed, Keyed, Overwrite;
    var info := new KisaSeedInfo.Init(t, true, userKey, iv);
    ghost var d, v, whole := dst[..], info.ivec, ChunkedRun(info.key, info.ivec, [], texts);
    assert info.Held() == [];
    SplitInvariant(info.key, v, texts);
    RunHasLength(info.key, v, [], texts);
    OverwriteAround(d, 0, whole);
    len := info.Feed(chunks, texts, dst, 0);
    assert dst[..len] == dst[..][0..len] && dst[len..] == dst[..][len..];
  }

  lemma SealedOut(c: Cipher, iv: Block, p: seq<bv8>, z: seq<bv8>, r: seq<bv8>, last: Block)
    requires |r| == |z| == Whole(|p|) + 16 && Encrypts(c, iv, Front(p), z, 0, r, last)
    ensures Overwrite(r, Whole(|p|), E(c, Xor(PadBlock(Tail(p)), last))) == Sealed(c, iv, p)
  {
    hide E, Xor, CbcEncrypt, Chain, PadBlock;
    var e, b := CbcEncrypt(Forward(c), iv, Front(p)), PadBlock(Tail(p));
    EncryptSnoc(Forward(c), iv, Front(p), b);
    XorComm(b, last);
    var y := E(c, Xor(b, last));
    OverwriteTwice(z, 0, e, y);
    OverwriteAll(z, e + y);
  }

  /** The part of SEED_CBC_Encrypt up to and including Close. */
  method SealWhole(t: Tables, userKey: array<bv8>, iv: array<bv8>, plain: array<bv8>, n: nat)
    returns (outbuf: array<bv8>)
    requires userKey.Length == 16 && iv.Length == 16 && n <= plain.Length
    ensures fresh(outbuf) && outbuf.Length == Whole(n) + 16
    ensures outbuf[..] == Sealed(Keyed(t, userKey[..]), iv[..], plain[..n])
  {
    hide Sealed, Keyed, Encrypts, Overwrite, E, Xor, PadBlock;
    var info := new KisaSeedInfo.Init(t, true, userKey, iv);
    outbuf := new bv8[(n / 16 + 1) * 16];
    var data := new bv8[n];
    ghost var p, z := plain[..n], outbuf[..];
    assert plain[0..n] == p;
    OverwriteAll(data[..], p);
    MemCopy(data, 0, plain, 0, n);
    var ok, retLen := info.Process(data, 0, n, outbuf, 0);
    assert p[0..0 + retLen] == Front(p) && p[0 + retLen..0 + n] == Tail(p);
    SealedOut(info.key, iv[..], p, z, outbuf[..], info.ivec);
    var padLen;
    ok, padLen := info.Close(outbuf, retLen);
  }

  /** SEED_CBC_Encrypt. */
  method SeedCbcEncrypt(t: Tables, userKey: array<bv8>, iv: array<bv8>, plain: array<bv8>, n: nat, cipher: array<bv8>)
    returns (len: nat)
    requires userKey.Length == 16 && iv.Length == 16 && n <= plain.Length && Whole(n) + 16 <= cipher.Length
    modifies cipher
    ensures len == Whole(n) + 16
    ensures cipher[..] ==
            Overwrite(old(cipher[..]), 0, Sealed(Keyed(t, old(userKey[..])), old(iv[..]), old(plain[..n])))
  {
    hide Sealed, Keyed, Overwrite;
    var outbuf := SealWhole(t, userKey, iv, plain, n);
    len := outbuf.Length;
    assert outbuf[..] == outbuf[0..0 + len];
    MemCopy(cipher, 0, outbuf, 0, len);
  }

  lemma OpenedOut(c: Cipher, iv: Block, e: Text, z: seq<bv8>, r: seq<bv8>, last: Block)
    requires e != [] && |r| == |z| == |e| && Decrypts(c, iv, e, z, 0, r, last)
    ensures r == CbcDecrypt(Backward(c), iv, e) && Opened(c, iv, e) == Unpadded(r)
  {
    hide D, Xor, CbcDecrypt, Backward, Unpadded;
    OverwriteAll(z, CbcDecrypt(Backward(c), iv, e));
  }

  /** The part of SEED_CBC_Decrypt up to and including Process. */
  method DecryptWhole(t: Tables, userKey: array<bv8>, iv: array<bv8>, cipher: array<bv8>, n: nat)
    returns (info: KisaSeedInfo, outbuf: array<bv8>)
    requires userKey.Length == 16 && iv.Length == 16 && 0 < n <= cipher.Length && n % 16 == 0
    ensures fresh(info) && fresh(outbuf) && outbuf.Length == n && info.Valid() && !info.encrypt
    ensures info.cbcLastBlock[15] == outbuf[n - 1]
    ensures Opened(Keyed(t, userKey[..]), iv[..], cipher[..n]) == Unpadded(outbuf[..])
  {
    hide Opened, Unpadded, Keyed, Decrypts, Overwrite, CbcDecrypt, Val, E, Xor;
    var data := new bv8[n];
    ghost var e: Text := cipher[..n];
    assert cipher[0..n] == e;
    OverwriteAll(data[..], e);
    MemCopy(data, 0, cipher, 0, n);
    info := new KisaSeedInfo.Init(t, false, userKey, iv);
    outbuf := new bv8[n];
    ghost var z := outbuf[..];
    var ok, retLen := info.Process(data, 0, n, outbuf, 0);
    assert data[0..n] == e;
    OpenedOut(info.key, iv[..], e, z, outbuf[..], info.ivec);
  }

  /** The part up to and including Close. */
  method OpenWhole(t: Tables, userKey: array<bv8>, iv: array<bv8>, cipher: array<bv8>, n: nat)
    returns (ok: bool, outbuf: array<bv8>, len: nat)
    requires userKey.Length == 16 && iv.Length == 16 && 0 < n <= cipher.Length && n % 16 == 0
    ensures fresh(outbuf) && outbuf.Length == n && len <= n
    ensures Opened(Keyed(t, userKey[..]), iv[..], cipher[..n]) == if ok then Some(outbuf[..len]) else None
  {
    hide Opened, Keyed, Overwrite, Val, E, Xor;
    var info;
    info, outbuf := DecryptWhole(t, userKey, iv, cipher, n);
    ghost var r := outbuf[..];
    var padLen;
    ok, padLen := info.Close(outbuf, n);
    len := n - padLen;
    ZeroedTail(r, padLen);
    assert outbuf[..len] == outbuf[..][..len];
  }

  /** SEED_CBC_Decrypt: 0 both for a ciphertext it refuses and for an empty text. */
  method SeedCbcDecrypt(t: Tables, userKey: array<bv8>, iv: array<bv8>, cipher: array<bv8>, n: nat, result: array<bv8>)
    returns (len: nat)
    requires userKey.Length == 16 && iv.Length == 16 && 0 < n <= cipher.Length && n <= result.Length
    modifies result
    ensures n % 16 != 0 ==> len == 0 && result[..] == old(result[..])
    ensures n % 16 == 0 ==>
      match Opened(Keyed(t, old(userKey[..])), old(iv[..]), old(cipher[..n]))
      case None => len == 0 && result[..] == old(result[..])
      case Some(p) => len == |p| && |p| <= n && result[..] == Overwrite(old(result[..]), 0, p)
  {
    hide Opened, Keyed, Overwrite;
    if n % 16 > 0 {
      return 0;
    }
    var plain := new bv8[n];
    var ok, outbuf, outLen := OpenWhole(t, userKey, iv, cipher, n);
    if !ok {
      return 0;
    }
    ghost var p, w := outbuf[..outLen], plain[..];
    assert outbuf[0..outLen] == p;
    OverwriteSame(w, 0, p, p);
    MemCopy(plain, 0, outbuf, 0, outLen);
    assert plain[0..outLen] == plain[..][0..0 + outLen] == p;
    len := outLen;
    MemCopy(result, 0, plain, 0, len);
  }

  lemma ZeroedTail(r: seq<bv8>, k: nat)
    requires k <= |r|
    ensures Overwrite(r, |r| - k, Zeros(k))[..|r| - k] == r[..|r| - k]
  {
  }
}
