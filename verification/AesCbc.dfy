/** The in-place AES-128-CBC of Aes.c. */
module AesCbc {
  import opened Words
  import opened Buffers
  import opened AesSpec
  import opened Aes
  import opened AesKeys
  import opened Cbc

  /** CIPH_K for AES-128. */
  ghost function Forward(sb: Sbox, key: Block): Block -> Block {
    (b: Block) => Cipher(sb, RoundKeys(Expansion(sb, key)), b)
  }

  /** CIPH_K^-1 for AES-128. */
  ghost function Backward(sb: Sbox, key: Block): Block -> Block {
    (b: Block) => InvCipher(sb, RoundKeys(Expansion(sb, key)), b)
  }

  /** The buffer after encryption: its whole blocks chained, the rest as it was. */
  ghost function Encrypted(sb: Sbox, key: Block, iv: Block, d: seq<bv8>): (r: seq<bv8>)
    ensures |r| == |d| && r[Whole(|d|)..] == d[Whole(|d|)..]
  {
    CbcEncrypt(Forward(sb, key), iv, d[..Whole(|d|)]) + d[Whole(|d|)..]
  }

  ghost function Decrypted(sb: Sbox, key: Block, iv: Block, d: seq<bv8>): (r: seq<bv8>)
    ensures |r| == |d| && r[Whole(|d|)..] == d[Whole(|d|)..]
  {
    CbcDecrypt(Backward(sb, key), iv, d[..Whole(|d|)]) + d[Whole(|d|)..]
  }

  lemma BackwardOfForward(sb: Sbox, key: Block)
    requires Invertible(sb)
    ensures forall b :: Backward(sb, key)(Forward(sb, key)(b)) == b
  {
    hide Cipher, InvCipher, RoundKeys, Expansion;
    forall b: Block
      ensures Backward(sb, key)(Forward(sb, key)(b)) == b
    {
      InvCipherOfCipher(sb, RoundKeys(Expansion(sb, key)), b);
    }
  }

  lemma SameBlocks(t: Text, u: seq<bv8>, i: nat)
    requires 16 * i + 16 <= |t|
    ensures (t + u)[16 * i..16 * i + 16] == t[16 * i..16 * i + 16]
    ensures i > 0 ==> (t + u)[16 * i - 16..16 * i] == t[16 * i - 16..16 * i]
  {
  }

  /** Block i of the encrypted buffer: the cipher of what stood there combined with the block before. */
  lemma EncryptedBlock(sb: Sbox, key: Block, iv: Block, d: seq<bv8>, i: nat)
    requires 16 * i + 16 <= |d|
    ensures ChainedBlock(Forward(sb, key), iv, d, Encrypted(sb, key, iv, d), i)
  {
    hide Cipher, RoundKeys, Expansion, CbcEncrypt, Xor, Forward;
    var p: Text := d[..Whole(|d|)];
    CbcBlock(Forward(sb, key), iv, p, i);
    SameBlocks(CbcEncrypt(Forward(sb, key), iv, p), d[Whole(|d|)..], i);
    SameBlocks(p, d[Whole(|d|)..], i);
    assert d == p + d[Whole(|d|)..];
  }

  /** Decrypting the encrypted buffer restores every byte, whatever its length. */
  lemma DecryptedOfEncrypted(sb: Sbox, key: Block, iv: Block, d: seq<bv8>)
    requires Invertible(sb)
    ensures Decrypted(sb, key, iv, Encrypted(sb, key, iv, d)) == d
  {
    hide Forward, Backward, CbcEncrypt, CbcDecrypt;
    BackwardOfForward(sb, key);
    CbcRoundTrip(Forward(sb, key), Backward(sb, key), iv, d[..Whole(|d|)]);
  }

  /** One pass of the encryption loop: the block function writes over its own input. */
  method EncryptNext(sb: Sbox, rk: array<bv32>, cbc: array<bv8>, data: array<bv8>, pos: nat)
    requires rk.Length == 44 && cbc.Length == 16 && pos + 16 <= data.Length && cbc != data
    modifies cbc, data
    ensures cbc[..] == Cipher(sb, RoundKeys(rk[..]), Xor(old(cbc[..]), old(data[pos..pos + 16])))
    ensures data[..] == Overwrite(old(data[..]), pos, cbc[..])
  {
    hide Cipher, RoundKeys, Xor, Overwrite;
    ghost var v, b, ks, d := cbc[..], data[pos..pos + 16], RoundKeys(rk[..]), data[..];
    assert cbc[0..16] == v;
    XorInto(cbc, 0, data, pos);
    OverwriteAll(v, Xor(v, b));
    assert cbc[0..16] == cbc[..];
    ghost var x := cbc[..];
    RijndaelEncrypt(sb, rk, cbc, 0, cbc, 0);
    OverwriteAll(x, Cipher(sb, ks, x));
    assert cbc[0..16] == cbc[..];
    assert data[..] == d;
    MemCopy(data, pos, cbc, 0, 16);
    assert rk[..] == old(rk[..]);
  }

  /** One pass of the decryption loop: the ciphertext block is saved before it is overwritten. */
  method DecryptNext(sb: Sbox, rk: array<bv32>, cbc: array<bv8>, tmp: array<bv8>, data: array<bv8>, pos: nat)
    requires rk.Length == 44 && cbc.Length == 16 && tmp.Length == 16 && pos + 16 <= data.Length
    requires cbc != data && tmp != data && cbc != tmp
    modifies cbc, tmp, data
    ensures cbc[..] == old(data[pos..pos + 16])
    ensures data[..] == Overwrite(old(data[..]), pos,
              Xor(EqInvCipher(sb, RoundKeys(rk[..]), old(data[pos..pos + 16])), old(cbc[..])))
  {
    hide EqInvCipher, RoundKeys, Xor, Overwrite;
    ghost var d, b, v, ks := data[..], data[pos..pos + 16], cbc[..], RoundKeys(rk[..]);
    MemCopy(tmp, 0, data, pos, 16);
    OverwriteAll(old(tmp[..]), b);
    assert data[..] == d && data[pos..pos + 16] == b;
    RijndaelDecrypt(sb, rk, data, pos, data, pos);
    ghost var x := EqInvCipher(sb, ks, b);
    OverwriteSame(d, pos, x, Xor(x, v));
    assert data[pos..pos + 16] == data[..][pos..pos + 16];
    assert cbc[0..16] == v;
    XorInto(data, pos, cbc, 0);
    assert tmp[0..16] == tmp[..] == b;
    MemCopy(cbc, 0, tmp, 0, 16);
    OverwriteAll(v, b);
    assert data[..] == Overwrite(d, pos, Xor(x, v));
    assert rk[..] == old(rk[..]);
  }

  /** One pass of the encryption loop as a step of CBC. */
  ghost predicate EncryptedTo(f: Block -> Block, iv: Block, d: seq<bv8>, i: nat, data: seq<bv8>, cbc: seq<bv8>)
    requires 16 * i <= |d|
  {
    && data == CbcEncrypt(f, iv, d[..16 * i]) + d[16 * i..]
    && cbc == Chain(iv, CbcEncrypt(f, iv, d[..16 * i]))
  }

  lemma EncryptedNone(f: Block -> Block, iv: Block, d: seq<bv8>)
    ensures EncryptedTo(f, iv, d, 0, d, iv)
  {
    NoBlocks(f, iv);
  }

  lemma EncryptedStep(f: Block -> Block, iv: Block, d: seq<bv8>, i: nat, data: seq<bv8>, cbc: Block)
    requires 16 * i + 16 <= |d| && |data| == |d|
    requires EncryptedTo(f, iv, d, i, data, cbc)
    ensures var y := f(Xor(cbc, data[16 * i..16 * i + 16]));
            EncryptedTo(f, iv, d, i + 1, Overwrite(data, 16 * i, y), y)
  {
    hide Xor, CbcEncrypt, Chain, Overwrite;
    var n := 16 * i;
    var b, c := d[n..n + 16], CbcEncrypt(f, iv, d[..n]);
    var y := f(Xor(cbc, b));
    OverwriteNext(c, d, n, b);
    OverwriteNext(c, d, n, y);
    assert d[..n] + b == d[..n + 16];
    EncryptSnoc(f, iv, d[..n], b);
    ChainSnoc(iv, c, y);
  }

  method Aes128CbcEncrypt(sb: Sbox, key: array<bv8>, iv: array<bv8>, data: array<bv8>, dataLen: nat)
    requires key.Length >= 16 && iv.Length >= 16 && dataLen <= data.Length
    modifies data
    ensures data[..dataLen] == Encrypted(sb, old(key[..16]), old(iv[..16]), old(data[..dataLen]))
    ensures data[dataLen..] == old(data[dataLen..])
  {
    hide Cipher, Expansion, RoundKeys, Xor, Overwrite, EncryptedTo;
    var rk := new bv32[44];
    KeySetupEnc(sb, rk, key);
    ghost var f, v, d := Forward(sb, key[..16]), iv[..16], data[..];
    var cbc := new bv8[16];
    assert iv[0..16] == v;
    OverwriteAll(cbc[..], v);
    MemCopy(cbc, 0, iv, 0, 16);
    var blocks := dataLen / 16;
    EncryptedNone(f, v, d);
    for i := 0 to blocks
      invariant rk[..] == Expansion(sb, old(key[..16]))
      invariant EncryptedTo(f, v, d, i, data[..], cbc[..])
    {
      EncryptedStep(f, v, d, i, data[..], cbc[..]);
      assert data[16 * i..16 * i + 16] == data[..][16 * i..16 * i + 16];
      EncryptNext(sb, rk, cbc, data, 16 * i);
    }
    EncryptedEnd(sb, old(key[..16]), v, d, dataLen, data[..], cbc[..]);
    assert data[..dataLen] == data[..][..dataLen];
    assert data[dataLen..] == data[..][dataLen..];
  }

  lemma EncryptedEnd(sb: Sbox, key: Block, iv: Block, d: seq<bv8>, n: nat, data: seq<bv8>, cbc: seq<bv8>)
    requires n <= |d| == |data|
    requires EncryptedTo(Forward(sb, key), iv, d, n / 16, data, cbc)
    ensures data[..n] == Encrypted(sb, key, iv, d[..n]) && data[n..] == d[n..]
  {
    hide CbcEncrypt, Forward;
    assert d[..n][..Whole(n)] == d[..16 * (n / 16)];
  }

  ghost predicate DecryptedTo(g: Block -> Block, iv: Block, d: seq<bv8>, i: nat, data: seq<bv8>, cbc: seq<bv8>)
    requires 16 * i <= |d|
  {
    && data == CbcDecrypt(g, iv, d[..16 * i]) + d[16 * i..]
    && cbc == Chain(iv, d[..16 * i])
  }

  lemma DecryptedNone(g: Block -> Block, iv: Block, d: seq<bv8>)
    ensures DecryptedTo(g, iv, d, 0, d, iv)
  {
    NoBlocks(g, iv);
  }

  lemma DecryptedStep(g: Block -> Block, iv: Block, d: seq<bv8>, i: nat, data: seq<bv8>, cbc: Block)
    requires 16 * i + 16 <= |d| && |data| == |d|
    requires DecryptedTo(g, iv, d, i, data, cbc)
    ensures var b := data[16 * i..16 * i + 16];
            DecryptedTo(g, iv, d, i + 1, Overwrite(data, 16 * i, Xor(g(b), cbc)), b)
  {
    hide Xor, CbcDecrypt, Chain, Overwrite;
    var n := 16 * i;
    var b, p := d[n..n + 16], CbcDecrypt(g, iv, d[..n]);
    var y := Xor(g(b), cbc);
    OverwriteNext(p, d, n, b);
    OverwriteNext(p, d, n, y);
    assert d[..n] + b == d[..n + 16];
    DecryptSnoc(g, iv, d[..n], b);
    ChainSnoc(iv, d[..n], b);
  }

  lemma DecryptedEnd(sb: Sbox, key: Block, iv: Block, d: seq<bv8>, n: nat, data: seq<bv8>, cbc: seq<bv8>)
    requires n <= |d| == |data|
    requires DecryptedTo(Backward(sb, key), iv, d, n / 16, data, cbc)
    ensures data[..n] == Decrypted(sb, key, iv, d[..n]) && data[n..] == d[n..]
  {
    hide CbcDecrypt, Backward;
    assert d[..n][..Whole(n)] == d[..16 * (n / 16)];
  }

  /** The table form of the block decryption is CIPH_K^-1. */
  lemma TableDecryption(sb: Sbox, key: Block, dk: seq<bv32>, b: Block)
    requires |dk| == 44 && RoundKeys(dk) == InvKeys(RoundKeys(Expansion(sb, key)))
    ensures EqInvCipher(sb, RoundKeys(dk), b) == Backward(sb, key)(b)
  {
    hide EqInvCipher, InvCipher, RoundKeys, InvKeys, Expansion;
    EqInvIsInv(sb, RoundKeys(Expansion(sb, key)), b);
  }

  method Aes128CbcDecrypt(sb: Sbox, key: array<bv8>, iv: array<bv8>, data: array<bv8>, dataLen: nat)
    requires Invertible(sb)
    requires key.Length >= 16 && iv.Length >= 16 && dataLen <= data.Length
    modifies data
    ensures data[..dataLen] == Decrypted(sb, old(key[..16]), old(iv[..16]), old(data[..dataLen]))
    ensures data[dataLen..] == old(data[dataLen..])
  {
    hide EqInvCipher, InvCipher, Backward, Expansion, RoundKeys, InvKeys, Invertible, Xor, Overwrite, DecryptedTo;
    var rk := new bv32[44];
    KeySetupDec(sb, rk, key);
    ghost var g, v, d, dk := Backward(sb, key[..16]), iv[..16], data[..], rk[..];
    var cbc, tmp := new bv8[16], new bv8[16];
    assert iv[0..16] == v;
    OverwriteAll(cbc[..], v);
    MemCopy(cbc, 0, iv, 0, 16);
    var blocks := dataLen / 16;
    DecryptedNone(g, v, d);
    for i := 0 to blocks
      invariant rk[..] == dk
      invariant DecryptedTo(g, v, d, i, data[..], cbc[..])
    {
      DecryptedStep(g, v, d, i, data[..], cbc[..]);
      assert data[16 * i..16 * i + 16] == data[..][16 * i..16 * i + 16];
      TableDecryption(sb, old(key[..16]), dk, data[16 * i..16 * i + 16]);
      DecryptNext(sb, rk, cbc, tmp, data, 16 * i);
    }
    DecryptedEnd(sb, old(key[..16]), v, d, dataLen, data[..], cbc[..]);
    assert data[..dataLen] == data[..][..dataLen];
    assert data[dataLen..] == data[..][dataLen..];
  }

  /** Encrypting a buffer and decrypting it under the same key and IV leaves every byte as it was. */
  method EncryptThenDecrypt(sb: Sbox, key: array<bv8>, iv: array<bv8>, data: array<bv8>, dataLen: nat)
    requires Invertible(sb) && data != key && data != iv
    requires key.Length >= 16 && iv.Length >= 16 && dataLen <= data.Length
    modifies data
    ensures data[..] == old(data[..])
  {
    hide Encrypted, Decrypted, Invertible;
    ghost var d := data[..];
    Aes128CbcEncrypt(sb, key, iv, data, dataLen);
    assert key[..16] == old(key[..16]) && iv[..16] == old(iv[..16]);
    Aes128CbcDecrypt(sb, key, iv, data, dataLen);
    DecryptedOfEncrypted(sb, old(key[..16]), old(iv[..16]), d[..dataLen]);
    assert data[..] == data[..dataLen] + data[dataLen..];
    assert d == d[..dataLen] + d[dataLen..];
  }
}
