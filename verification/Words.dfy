/** Bytes, 32-bit words and 128-bit blocks, and the two copying loops between them
    that every SEED mode shares.

    A block is sixteen bytes in memory order; a quad is the same block as four
    32-bit words, most significant byte first, the form the C code computes in. */
module Words {

  type Block = s: seq<bv8> | |s| == 16 witness seq(16, _ => 0)
  type Quad = s: seq<bv32> | |s| == 4 witness seq(4, _ => 0)

  function Byte0(w: bv32): bv8 { (w >> 24) as bv8 }

  function Byte1(w: bv32): bv8 { ((w >> 16) & 0xFF) as bv8 }

  function Byte2(w: bv32): bv8 { ((w >> 8) & 0xFF) as bv8 }

  function Byte3(w: bv32): bv8 { (w & 0xFF) as bv8 }

  function WordBytes(w: bv32): (s: seq<bv8>)
    ensures |s| == 4
  {
    [Byte0(w), Byte1(w), Byte2(w), Byte3(w)]
  }

  function Word(a: bv8, b: bv8, c: bv8, d: bv8): bv32 {
    ((a as bv32) << 24) | ((b as bv32) << 16) | ((c as bv32) << 8) | (d as bv32)
  }

  function Bytes(q: Quad): Block {
    WordBytes(q[0]) + WordBytes(q[1]) + WordBytes(q[2]) + WordBytes(q[3])
  }

  lemma BytesAt(q: Quad, i: nat)
    requires i < 16
    ensures Bytes(q)[i] == WordBytes(q[i / 4])[i % 4]
  {
    hide WordBytes;
  }

  function ToQuad(b: Block): Quad {
    [Word(b[0], b[1], b[2], b[3]), Word(b[4], b[5], b[6], b[7]),
     Word(b[8], b[9], b[10], b[11]), Word(b[12], b[13], b[14], b[15])]
  }

  lemma WordRoundTrip(w: bv32)
    ensures Word(Byte0(w), Byte1(w), Byte2(w), Byte3(w)) == w
  {
  }

  lemma WordBytesRoundTrip(a: bv8, b: bv8, c: bv8, d: bv8)
    ensures WordBytes(Word(a, b, c, d)) == [a, b, c, d]
  {
  }

  lemma QuadRoundTrip(q: Quad)
    ensures ToQuad(Bytes(q)) == q
  {
    hide Byte0, Byte1, Byte2, Byte3, Word;
    WordRoundTrip(q[0]);
    WordRoundTrip(q[1]);
    WordRoundTrip(q[2]);
    WordRoundTrip(q[3]);
  }

  lemma BlockRoundTrip(b: Block)
    ensures Bytes(ToQuad(b)) == b
  {
    hide Word;
    WordBytesRoundTrip(b[0], b[1], b[2], b[3]);
    WordBytesRoundTrip(b[4], b[5], b[6], b[7]);
    WordBytesRoundTrip(b[8], b[9], b[10], b[11]);
    WordBytesRoundTrip(b[12], b[13], b[14], b[15]);
  }

  // ---------- parts of byte strings ----------

  lemma SliceOfPrefix(s: seq<bv8>, len: nat, i: nat, n: nat)
    requires i + n <= len <= |s|
    ensures s[..len][i..i + n] == s[i..i + n]
  {
  }

  lemma SliceOfSuffix(s: seq<bv8>, k: nat, j: nat, n: nat)
    requires k + j + n <= |s|
    ensures s[k..][j..j + n] == s[k + j..k + j + n]
  {
  }

  /** Two prefixes of a string without their first sixteen bytes. */
  lemma ShorterPrefixes(s: seq<bv8>, i: nat, e: nat)
    requires 16 <= i <= e <= |s|
    ensures s[..i][..16] == s[..e][..16] == s[..16]
    ensures s[..i][16..] == s[16..][..i - 16] && s[..e][16..] == s[16..][..e - 16]
    ensures s[16..][i - 16..e - 16] == s[i..e]
  {
  }

  /** Strings that agree from m on agree from m + n on. */
  lemma SameSuffix(s: seq<bv8>, t: seq<bv8>, m: nat, n: nat)
    requires m + n <= |s| == |t| && s[m..] == t[m..]
    ensures s[m + n..] == t[m + n..]
  {
    assert s[m + n..] == s[m..][n..] && t[m + n..] == t[m..][n..];
  }

  // ---------- exclusive or ----------

  function XorByte(a: bv8, b: bv8): bv8 { a ^ b }

  lemma ByteSum(a: bv8, b: bv8)
    ensures XorByte(a, b) == a ^ b
  {
  }

  function XorW(a: bv32, b: bv32): bv32 { a ^ b }

  function Xor(a: seq<bv8>, b: seq<bv8>): (r: seq<bv8>)
    requires |a| == |b|
    ensures |r| == |a|
  {
    seq(|a|, i requires 0 <= i < |a| => XorByte(a[i], b[i]))
  }

  /** The macro XOR128. */
  function XorQuad(a: Quad, b: Quad): Quad {
    [XorW(a[0], b[0]), XorW(a[1], b[1]), XorW(a[2], b[2]), XorW(a[3], b[3])]
  }

  lemma XorWZero(w: bv32)
    ensures XorW(w, 0) == w
  {
  }

  lemma XorByteZero()
    ensures forall b :: XorByte(b, 0) == b && XorByte(0, b) == b
  {
  }

  lemma XorComm(a: seq<bv8>, b: seq<bv8>)
    requires |a| == |b|
    ensures Xor(a, b) == Xor(b, a)
  {
  }

  lemma XorAssoc(a: seq<bv8>, b: seq<bv8>, c: seq<bv8>)
    requires |a| == |b| == |c|
    ensures Xor(Xor(a, b), c) == Xor(a, Xor(b, c))
  {
  }

  lemma XorCancel(a: seq<bv8>, b: seq<bv8>)
    requires |a| == |b|
    ensures Xor(Xor(a, b), b) == a
    ensures Xor(b, Xor(b, a)) == a
  {
  }

  lemma XorSwap(a: seq<bv8>, b: seq<bv8>, c: seq<bv8>, d: seq<bv8>)
    requires |a| == |b| == |c| == |d|
    ensures Xor(Xor(a, b), Xor(c, d)) == Xor(Xor(a, c), Xor(b, d))
  {
  }

  lemma XorZero(a: Block)
    ensures Xor(a, ZERO_BLOCK) == a
    ensures Xor(ZERO_BLOCK, a) == a
    ensures Xor(a, a) == ZERO_BLOCK
  {
  }

  lemma XorTake(a: seq<bv8>, b: seq<bv8>, n: nat)
    requires |a| == |b| && n <= |a|
    ensures Xor(a, b)[..n] == Xor(a[..n], b[..n])
  {
  }

  lemma XorByte0(w: bv32, v: bv32)
    ensures Byte0(XorW(w, v)) == XorByte(Byte0(w), Byte0(v))
  {
  }

  lemma XorByte1(w: bv32, v: bv32)
    ensures Byte1(XorW(w, v)) == XorByte(Byte1(w), Byte1(v))
  {
  }

  lemma XorByte2(w: bv32, v: bv32)
    ensures Byte2(XorW(w, v)) == XorByte(Byte2(w), Byte2(v))
  {
  }

  lemma XorByte3(w: bv32, v: bv32)
    ensures Byte3(XorW(w, v)) == XorByte(Byte3(w), Byte3(v))
  {
  }

  lemma XorWord(w: bv32, v: bv32)
    ensures WordBytes(XorW(w, v)) == Xor(WordBytes(w), WordBytes(v))
  {
    hide Byte0, Byte1, Byte2, Byte3, XorByte, XorW;
    XorByte0(w, v);
    XorByte1(w, v);
    XorByte2(w, v);
    XorByte3(w, v);
  }

  lemma XorQuadBytes(a: Quad, b: Quad)
    ensures Bytes(XorQuad(a, b)) == Xor(Bytes(a), Bytes(b))
  {
    hide WordBytes, XorByte, XorW;
    XorWord(a[0], b[0]);
    XorWord(a[1], b[1]);
    XorWord(a[2], b[2]);
    XorWord(a[3], b[3]);
  }

  /** The macro XOR128 on buffers; the result may overwrite an operand. */
  method Xor128(r: array<bv32>, a: array<bv32>, b: array<bv32>)
    requires r.Length == 4 && a.Length == 4 && b.Length == 4
    modifies r
    ensures r[..] == XorQuad(old(a[..]), old(b[..]))
    ensures Bytes(r[..]) == Xor(old(Bytes(a[..])), old(Bytes(b[..])))
  {
    hide XorW, Bytes;
    XorQuadBytes(a[..], b[..]);
    r[0], r[1], r[2], r[3] :=
      XorW(a[0], b[0]), XorW(a[1], b[1]), XorW(a[2], b[2]), XorW(a[3], b[3]);
    assert r[..] == XorQuad(old(a[..]), old(b[..]));
  }

  // ---------- padding with zeros ----------

  function Zeros(n: nat): (r: seq<bv8>)
    ensures |r| == n
  {
    seq(n, _ => 0)
  }

  const ZERO_BLOCK: Block := Zeros(16)

  /** Up to sixteen bytes, filled with zero bytes on the right. */
  function Pad16(s: seq<bv8>): Block
    requires |s| <= 16
  {
    s + Zeros(16 - |s|)
  }

  // ---------- the copying loops ----------

  /** The word that the first n bytes from s[4k..] build: bytes past the end count as zero. */
  function LoadWord(s: seq<bv8>, k: nat): bv32
  {
    Word(At(s, 4 * k), At(s, 4 * k + 1), At(s, 4 * k + 2), At(s, 4 * k + 3))
  }

  function At(s: seq<bv8>, i: nat): bv8 { if i < |s| then s[i] else 0 }

  /** One step of the switch in Byte2Word: what byte number i does to its word. */
  function PutByte(w: bv32, c: bv8, remain: nat): bv32
    requires remain < 4
  {
    if remain == 0 then (c as bv32) << 24
    else if remain == 1 then w ^ ((c as bv32) << 16)
    else if remain == 2 then w ^ ((c as bv32) << 8)
    else w ^ ((c as bv32) & 0xFF)
  }

  lemma PutByteIsWord0(w: bv32, a: bv8)
    ensures PutByte(w, a, 0) == Word(a, 0, 0, 0)
  {
  }

  lemma PutByteIsWord1(a: bv8, b: bv8)
    ensures PutByte(Word(a, 0, 0, 0), b, 1) == Word(a, b, 0, 0)
  {
  }

  lemma PutByteIsWord2(a: bv8, b: bv8, c: bv8)
    ensures PutByte(Word(a, b, 0, 0), c, 2) == Word(a, b, c, 0)
  {
  }

  lemma PutByteIsWord3(a: bv8, b: bv8, c: bv8, d: bv8)
    ensures PutByte(Word(a, b, c, 0), d, 3) == Word(a, b, c, d)
  {
  }

  lemma LoadWordStep(s: seq<bv8>, i: nat, w: bv32)
    requires i < |s|
    requires i % 4 != 0 ==> w == LoadWord(s[..i], i / 4)
    ensures PutByte(w, s[i], i % 4) == LoadWord(s[..i + 1], i / 4)
  {
    hide Word, PutByte;
    var k := i / 4;
    var a, b, c, d := At(s, 4 * k), At(s, 4 * k + 1), At(s, 4 * k + 2), At(s, 4 * k + 3);
    PutByteIsWord0(w, a);
    PutByteIsWord1(a, b);
    PutByteIsWord2(a, b, c);
    PutByteIsWord3(a, b, c, d);
  }

  method Byte2Word(dst: array<bv32>, src: array<bv8>, start: nat, srcLen: nat)
    requires start + srcLen <= src.Length && srcLen <= 4 * dst.Length
    modifies dst
    ensures forall k :: 0 <= k < dst.Length ==>
      dst[k] == if 4 * k < srcLen then LoadWord(src[start..start + srcLen], k) else old(dst[k])
  {
    ghost var s := src[start..start + srcLen];
    for i := 0 to srcLen
      invariant forall k :: 0 <= k < dst.Length ==>
        dst[k] == if 4 * k < i then LoadWord(s[..i], k) else old(dst[k])
    {
      LoadWordStep(s, i, dst[i / 4]);
      hide LoadWord, PutByte;
      var remain := i % 4;
      dst[i / 4] := PutByte(dst[i / 4], src[start + i], remain);
    }
    assert s[..srcLen] == s;
  }

  lemma LoadedWord(s: seq<bv8>, k: nat, w: bv32)
    requires w == if 4 * k < |s| then LoadWord(s, k) else 0
    ensures WordBytes(w) == [At(s, 4 * k), At(s, 4 * k + 1), At(s, 4 * k + 2), At(s, 4 * k + 3)]
  {
    WordBytesRoundTrip(At(s, 4 * k), At(s, 4 * k + 1), At(s, 4 * k + 2), At(s, 4 * k + 3));
    WordBytesRoundTrip(0, 0, 0, 0);
  }

  lemma LoadedBytes(s: seq<bv8>, q: Quad)
    requires |s| <= 16
    requires forall k :: 0 <= k < 4 ==> q[k] == if 4 * k < |s| then LoadWord(s, k) else 0
    ensures Bytes(q) == Pad16(s)
  {
    hide LoadWord, WordBytes, Bytes;
    forall i | 0 <= i < 16
      ensures Bytes(q)[i] == Pad16(s)[i]
    {
      BytesAt(q, i);
      LoadedWord(s, i / 4, q[i / 4]);
    }
  }

  /** ZERO128 followed by Byte2Word, as each pass loads a possibly short block. */
  method LoadBlock(tmp: array<bv32>, src: array<bv8>, start: nat, srcLen: nat)
    requires tmp.Length == 4 && srcLen <= 16 && start + srcLen <= src.Length
    modifies tmp
    ensures Bytes(tmp[..]) == Pad16(src[start..start + srcLen])
  {
    tmp[0], tmp[1], tmp[2], tmp[3] := 0, 0, 0, 0;
    Byte2Word(tmp, src, start, srcLen);
    LoadedBytes(src[start..start + srcLen], tmp[..]);
  }

  method Word2Byte(dst: array<bv8>, start: nat, src: array<bv32>, srcLen: nat)
    requires src.Length == 4 && srcLen <= 16 && start + srcLen <= dst.Length
    modifies dst
    ensures dst[..] == old(dst[..start]) + Bytes(src[..])[..srcLen] + old(dst[start + srcLen..])
  {
    hide Bytes, Byte0, Byte1, Byte2, Byte3;
    ghost var b := Bytes(src[..]);
    for i := 0 to srcLen
      invariant forall j :: 0 <= j < dst.Length ==>
        dst[j] == if start <= j < start + i then b[j - start] else old(dst[j])
    {
      var w := src[i / 4];
      var remain := i % 4;
      BytesAt(src[..], i);
      dst[start + i] :=
        if remain == 0 then Byte0(w)
        else if remain == 1 then Byte1(w)
        else if remain == 2 then Byte2(w)
        else Byte3(w);
    }
    ghost var r := old(dst[..start]) + b[..srcLen] + old(dst[start + srcLen..]);
    forall j | 0 <= j < dst.Length
      ensures dst[j] == r[j]
    {
    }
  }
}
