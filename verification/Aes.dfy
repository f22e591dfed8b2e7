/** The table-driven AES-128 of Aes.c. The tables Te0..Te4 and Td0..Td4 are given by the
    formulas that define them from the S-box. */
module Aes {
  import opened Words
  import opened Buffers
  import opened AesSpec

  function WordOf(c: Column): bv32 { Word(c[0], c[1], c[2], c[3]) }

  /** Table Te0, Te1, Te2 or Te3. */
  function Te(sb: Sbox, k: nat, x: bv8): bv32
    requires k < 4
  {
    WordOf(MixOne(sb.s(x), k))
  }

  /** Table Td0, Td1, Td2 or Td3. */
  function Td(sb: Sbox, k: nat, x: bv8): bv32
    requires k < 4
  {
    WordOf(InvMixOne(sb.inv(x), k))
  }

  function Te4(sb: Sbox, x: bv8): bv32 { Word(sb.s(x), sb.s(x), sb.s(x), sb.s(x)) }

  function Td4(sb: Sbox, x: bv8): bv32 { Word(sb.inv(x), sb.inv(x), sb.inv(x), sb.inv(x)) }

  // ---------- one word of a round ----------

  /** Four words and a key word, added. */
  function Add5(a: bv32, b: bv32, c: bv32, d: bv32, k: bv32): bv32 {
    XorW(XorW(XorW(XorW(a, b), c), d), k)
  }

  /** A word of a full round: one lookup for each byte position, from the words a, b, c, d. */
  function EncWord(sb: Sbox, a: bv32, b: bv32, c: bv32, d: bv32, k: bv32): bv32 {
    Add5(Te(sb, 0, Byte0(a)), Te(sb, 1, Byte1(b)), Te(sb, 2, Byte2(c)), Te(sb, 3, Byte3(d)), k)
  }

  function DecWord(sb: Sbox, a: bv32, b: bv32, c: bv32, d: bv32, k: bv32): bv32 {
    Add5(Td(sb, 0, Byte0(a)), Td(sb, 1, Byte1(b)), Td(sb, 2, Byte2(c)), Td(sb, 3, Byte3(d)), k)
  }

  /** Byte k of a word, the others cleared. */
  function Masked(w: bv32, k: nat): bv32
    requires k < 4
  {
    if k == 0 then w & 0xff000000
    else if k == 1 then w & 0x00ff0000
    else if k == 2 then w & 0x0000ff00
    else w & 0x000000ff
  }

  function EncLastWord(sb: Sbox, a: bv32, b: bv32, c: bv32, d: bv32, k: bv32): bv32 {
    Add5(Masked(Te4(sb, Byte0(a)), 0), Masked(Te4(sb, Byte1(b)), 1),
         Masked(Te4(sb, Byte2(c)), 2), Masked(Te4(sb, Byte3(d)), 3), k)
  }

  function DecLastWord(sb: Sbox, a: bv32, b: bv32, c: bv32, d: bv32, k: bv32): bv32 {
    Add5(Masked(Td4(sb, Byte0(a)), 0), Masked(Td4(sb, Byte1(b)), 1),
         Masked(Td4(sb, Byte2(c)), 2), Masked(Td4(sb, Byte3(d)), 3), k)
  }

  lemma Add5Bytes(a: bv32, b: bv32, c: bv32, d: bv32, k: bv32)
    ensures WordBytes(Add5(a, b, c, d, k)) ==
            Xor(Xor(Xor(Xor(WordBytes(a), WordBytes(b)), WordBytes(c)), WordBytes(d)), WordBytes(k))
  {
    hide WordBytes, XorW, Xor;
    XorWord(a, b);
    XorWord(XorW(a, b), c);
    XorWord(XorW(XorW(a, b), c), d);
    XorWord(XorW(XorW(XorW(a, b), c), d), k);
  }

  lemma WordOfBytes(c: Column)
    ensures WordBytes(WordOf(c)) == c
  {
    WordBytesRoundTrip(c[0], c[1], c[2], c[3]);
    hide WordBytes, Word;
  }

  lemma EncWordBytes(sb: Sbox, a: bv32, b: bv32, c: bv32, d: bv32, k: bv32)
    ensures WordBytes(EncWord(sb, a, b, c, d, k)) ==
            Xor(Mix([sb.s(Byte0(a)), sb.s(Byte1(b)), sb.s(Byte2(c)), sb.s(Byte3(d))]), WordBytes(k))
  {
    hide WordBytes, WordOf, MixOne, Add5, Byte0, Byte1, Byte2, Byte3, Xor;
    Add5Bytes(Te(sb, 0, Byte0(a)), Te(sb, 1, Byte1(b)), Te(sb, 2, Byte2(c)), Te(sb, 3, Byte3(d)), k);
    WordOfBytes(MixOne(sb.s(Byte0(a)), 0));
    WordOfBytes(MixOne(sb.s(Byte1(b)), 1));
    WordOfBytes(MixOne(sb.s(Byte2(c)), 2));
    WordOfBytes(MixOne(sb.s(Byte3(d)), 3));
  }

  lemma DecWordBytes(sb: Sbox, a: bv32, b: bv32, c: bv32, d: bv32, k: bv32)
    ensures WordBytes(DecWord(sb, a, b, c, d, k)) ==
            Xor(InvMix([sb.inv(Byte0(a)), sb.inv(Byte1(b)), sb.inv(Byte2(c)), sb.inv(Byte3(d))]), WordBytes(k))
  {
    hide WordBytes, WordOf, InvMixOne, Add5, Byte0, Byte1, Byte2, Byte3, Xor;
    Add5Bytes(Td(sb, 0, Byte0(a)), Td(sb, 1, Byte1(b)), Td(sb, 2, Byte2(c)), Td(sb, 3, Byte3(d)), k);
    WordOfBytes(InvMixOne(sb.inv(Byte0(a)), 0));
    WordOfBytes(InvMixOne(sb.inv(Byte1(b)), 1));
    WordOfBytes(InvMixOne(sb.inv(Byte2(c)), 2));
    WordOfBytes(InvMixOne(sb.inv(Byte3(d)), 3));
  }

  lemma MaskedBytes(x: bv8, k: nat)
    requires k < 4
    ensures WordBytes(Masked(Word(x, x, x, x), k)) == Unit(x, k)
  {
    if k == 0 { MaskedBytes0(x); } else if k == 1 { MaskedBytes1(x); }
    else if k == 2 { MaskedBytes2(x); } else { MaskedBytes3(x); }
    Turned(x, 0, 0, 0);
    hide WordBytes, Word, Masked, Turn;
  }

  lemma MaskedBytes0(x: bv8)
    ensures WordBytes(Masked(Word(x, x, x, x), 0)) == [x, 0, 0, 0]
  {
  }

  lemma MaskedBytes1(x: bv8)
    ensures WordBytes(Masked(Word(x, x, x, x), 1)) == [0, x, 0, 0]
  {
  }

  lemma MaskedBytes2(x: bv8)
    ensures WordBytes(Masked(Word(x, x, x, x), 2)) == [0, 0, x, 0]
  {
  }

  lemma MaskedBytes3(x: bv8)
    ensures WordBytes(Masked(Word(x, x, x, x), 3)) == [0, 0, 0, x]
  {
  }

  lemma LastWordBytes(x: bv8, y: bv8, z: bv8, w: bv8, k: bv32)
    ensures WordBytes(Add5(Masked(Word(x, x, x, x), 0), Masked(Word(y, y, y, y), 1),
                           Masked(Word(z, z, z, z), 2), Masked(Word(w, w, w, w), 3), k)) ==
            Xor([x, y, z, w], WordBytes(k))
  {
    hide WordBytes, Word, Masked, Unit, Xor, Add5;
    Add5Bytes(Masked(Word(x, x, x, x), 0), Masked(Word(y, y, y, y), 1),
              Masked(Word(z, z, z, z), 2), Masked(Word(w, w, w, w), 3), k);
    MaskedBytes(x, 0);
    MaskedBytes(y, 1);
    MaskedBytes(z, 2);
    MaskedBytes(w, 3);
    UnitsMakeColumn([x, y, z, w]);
  }

  // ---------- a whole round on words ----------

  function EncRoundOf(sb: Sbox, q: Quad, k: Quad, j: nat): bv32
    requires j < 4
  {
    EncWord(sb, q[j], q[(j + 1) % 4], q[(j + 2) % 4], q[(j + 3) % 4], k[j])
  }

  function EncRound(sb: Sbox, q: Quad, k: Quad): Quad {
    [EncRoundOf(sb, q, k, 0), EncRoundOf(sb, q, k, 1), EncRoundOf(sb, q, k, 2), EncRoundOf(sb, q, k, 3)]
  }

  function DecRoundOf(sb: Sbox, q: Quad, k: Quad, j: nat): bv32
    requires j < 4
  {
    DecWord(sb, q[j], q[(j + 3) % 4], q[(j + 2) % 4], q[(j + 1) % 4], k[j])
  }

  function DecRound(sb: Sbox, q: Quad, k: Quad): Quad {
    [DecRoundOf(sb, q, k, 0), DecRoundOf(sb, q, k, 1), DecRoundOf(sb, q, k, 2), DecRoundOf(sb, q, k, 3)]
  }

  function EncLastOf(sb: Sbox, q: Quad, k: Quad, j: nat): bv32
    requires j < 4
  {
    EncLastWord(sb, q[j], q[(j + 1) % 4], q[(j + 2) % 4], q[(j + 3) % 4], k[j])
  }

  function EncLast(sb: Sbox, q: Quad, k: Quad): Quad {
    [EncLastOf(sb, q, k, 0), EncLastOf(sb, q, k, 1), EncLastOf(sb, q, k, 2), EncLastOf(sb, q, k, 3)]
  }

  function DecLastOf(sb: Sbox, q: Quad, k: Quad, j: nat): bv32
    requires j < 4
  {
    DecLastWord(sb, q[j], q[(j + 3) % 4], q[(j + 2) % 4], q[(j + 1) % 4], k[j])
  }

  function DecLast(sb: Sbox, q: Quad, k: Quad): Quad {
    [DecLastOf(sb, q, k, 0), DecLastOf(sb, q, k, 1), DecLastOf(sb, q, k, 2), DecLastOf(sb, q, k, 3)]
  }

  lemma ColOfBytes(q: Quad, j: nat)
    requires j < 4
    ensures Col(Bytes(q), j) == WordBytes(q[j])
  {
    hide WordBytes;
  }

  lemma RowIndex(j: nat, r: nat)
    requires j < 4 && r < 4
    ensures var i := 4 * j + r;
            i < 16 && i % 4 == r && (i + 4 * r) % 16 == 4 * ((j + r) % 4) + r &&
            (i + 12 * r) % 16 == 4 * ((j + 4 - r) % 4) + r
  {
    if r == 0 {
    } else if r == 1 {
    } else if r == 2 {
    } else {
    }
  }

  lemma ShiftRowsAt(b: Block, j: nat, r: nat)
    requires j < 4 && r < 4
    ensures ShiftRows(b)[4 * j + r] == b[4 * ((j + r) % 4) + r]
    ensures InvShiftRows(b)[4 * j + r] == b[4 * ((j + 4 - r) % 4) + r]
  {
    RowIndex(j, r);
  }

  lemma ShiftedByte(sb: Sbox, q: Quad, j: nat, r: nat)
    requires j < 4 && r < 4
    ensures Col(ShiftRows(SubBytes(sb, Bytes(q))), j)[r] == sb.s(WordBytes(q[(j + r) % 4])[r])
  {
    hide WordBytes, Bytes, ShiftRows;
    var c := (j + r) % 4;
    BytesAt(q, 4 * c + r);
    assert (4 * c + r) / 4 == c && (4 * c + r) % 4 == r;
    assert SubBytes(sb, Bytes(q))[4 * c + r] == sb.s(Bytes(q)[4 * c + r]);
    hide SubBytes;
    ShiftRowsAt(SubBytes(sb, Bytes(q)), j, r);
  }

  lemma InvShiftedByte(sb: Sbox, q: Quad, j: nat, r: nat)
    requires j < 4 && r < 4
    ensures Col(InvShiftRows(InvSubBytes(sb, Bytes(q))), j)[r] == sb.inv(WordBytes(q[(j + 4 - r) % 4])[r])
  {
    hide WordBytes, Bytes, InvShiftRows;
    var c := (j + 4 - r) % 4;
    BytesAt(q, 4 * c + r);
    assert (4 * c + r) / 4 == c && (4 * c + r) % 4 == r;
    assert InvSubBytes(sb, Bytes(q))[4 * c + r] == sb.inv(Bytes(q)[4 * c + r]);
    hide InvSubBytes;
    ShiftRowsAt(InvSubBytes(sb, Bytes(q)), j, r);
  }

  /** Column j after SubBytes and ShiftRows takes its bytes from four successive words. */
  lemma ShiftedColumn(sb: Sbox, q: Quad, j: nat)
    requires j < 4
    ensures Col(ShiftRows(SubBytes(sb, Bytes(q))), j) ==
            [sb.s(Byte0(q[j])), sb.s(Byte1(q[(j + 1) % 4])), sb.s(Byte2(q[(j + 2) % 4])), sb.s(Byte3(q[(j + 3) % 4]))]
  {
    hide Bytes, Byte0, Byte1, Byte2, Byte3, ShiftRows, SubBytes, Col, InvShiftRows, InvSubBytes;
    ShiftedByte(sb, q, j, 0);
    ShiftedByte(sb, q, j, 1);
    ShiftedByte(sb, q, j, 2);
    ShiftedByte(sb, q, j, 3);
    assert j % 4 == j;
  }

  lemma InvShiftedColumn(sb: Sbox, q: Quad, j: nat)
    requires j < 4
    ensures Col(InvShiftRows(InvSubBytes(sb, Bytes(q))), j) ==
            [sb.inv(Byte0(q[j])), sb.inv(Byte1(q[(j + 3) % 4])), sb.inv(Byte2(q[(j + 2) % 4])),
             sb.inv(Byte3(q[(j + 1) % 4]))]
  {
    hide Bytes, Byte0, Byte1, Byte2, Byte3, ShiftRows, SubBytes, Col, InvShiftRows, InvSubBytes;
    InvShiftedByte(sb, q, j, 0);
    InvShiftedByte(sb, q, j, 1);
    InvShiftedByte(sb, q, j, 2);
    InvShiftedByte(sb, q, j, 3);
    assert (j + 4 - 0) % 4 == j && j + 4 - 1 == j + 3 && j + 4 - 2 == j + 2 && j + 4 - 3 == j + 1;
  }

  lemma SameColumns(x: Block, y: Block)
    requires forall j :: 0 <= j < 4 ==> Col(x, j) == Col(y, j)
    ensures x == y
  {
    ConcatOfCols(x);
    ConcatOfCols(y);
    hide Col;
  }

  lemma MixedColumn(b: Block, j: nat)
    requires j < 4
    ensures Col(MixColumns(b), j) == Mix(Col(b, j))
    ensures Col(InvMixColumns(b), j) == InvMix(Col(b, j))
  {
    hide Mix, InvMix, Col;
    ColsOfConcat(Mix(Col(b, 0)), Mix(Col(b, 1)), Mix(Col(b, 2)), Mix(Col(b, 3)));
    ColsOfConcat(InvMix(Col(b, 0)), InvMix(Col(b, 1)), InvMix(Col(b, 2)), InvMix(Col(b, 3)));
  }

  lemma EncRoundIndex(sb: Sbox, q: Quad, k: Quad, j: nat)
    requires j < 4
    ensures EncRound(sb, q, k)[j] == EncRoundOf(sb, q, k, j)
  {
    hide EncRoundOf;
  }

  lemma EncRoundAt(sb: Sbox, q: Quad, k: Quad, j: nat)
    requires j < 4
    ensures EncRound(sb, q, k)[j] == EncWord(sb, q[j], q[(j + 1) % 4], q[(j + 2) % 4], q[(j + 3) % 4], k[j])
  {
    hide EncWord, EncRound;
    EncRoundIndex(sb, q, k, j);
  }

  lemma EncRoundColumn(sb: Sbox, q: Quad, k: Quad, j: nat)
    requires j < 4
    ensures Col(Bytes(EncRound(sb, q, k)), j) ==
            Col(Xor(MixColumns(ShiftRows(SubBytes(sb, Bytes(q)))), Bytes(k)), j)
  {
    hide Bytes, Col, EncRound, EncWord, Mix, MixColumns, ShiftRows, SubBytes, Xor, WordBytes, Byte0, Byte1;
    hide Byte2, Byte3;
    EncRoundAt(sb, q, k, j);
    ColOfBytes(EncRound(sb, q, k), j);
    ColOfBytes(k, j);
    EncWordBytes(sb, q[j], q[(j + 1) % 4], q[(j + 2) % 4], q[(j + 3) % 4], k[j]);
    ShiftedColumn(sb, q, j);
    MixedColumn(ShiftRows(SubBytes(sb, Bytes(q))), j);
    ColOfXor(MixColumns(ShiftRows(SubBytes(sb, Bytes(q)))), Bytes(k), j);
  }

  /** A round of table lookups is SubBytes, ShiftRows, MixColumns and AddRoundKey. */
  lemma EncRoundBytes(sb: Sbox, q: Quad, k: Quad)
    ensures Bytes(EncRound(sb, q, k)) == Xor(MixColumns(ShiftRows(SubBytes(sb, Bytes(q)))), Bytes(k))
  {
    hide Bytes, Col, EncRound, MixColumns, ShiftRows, SubBytes, Xor;
    forall j | 0 <= j < 4
      ensures Col(Bytes(EncRound(sb, q, k)), j) == Col(Xor(MixColumns(ShiftRows(SubBytes(sb, Bytes(q)))), Bytes(k)), j)
    {
      EncRoundColumn(sb, q, k, j);
    }
    SameColumns(Bytes(EncRound(sb, q, k)), Xor(MixColumns(ShiftRows(SubBytes(sb, Bytes(q)))), Bytes(k)));
  }

  lemma DecRoundIndex(sb: Sbox, q: Quad, k: Quad, j: nat)
    requires j < 4
    ensures DecRound(sb, q, k)[j] == DecRoundOf(sb, q, k, j)
  {
    hide DecRoundOf;
  }

  lemma DecRoundAt(sb: Sbox, q: Quad, k: Quad, j: nat)
    requires j < 4
    ensures DecRound(sb, q, k)[j] == DecWord(sb, q[j], q[(j + 3) % 4], q[(j + 2) % 4], q[(j + 1) % 4], k[j])
  {
    hide DecWord, DecRound;
    DecRoundIndex(sb, q, k, j);
  }

  lemma DecRoundColumn(sb: Sbox, q: Quad, k: Quad, j: nat)
    requires j < 4
    ensures Col(Bytes(DecRound(sb, q, k)), j) ==
            Col(Xor(InvMixColumns(InvShiftRows(InvSubBytes(sb, Bytes(q)))), Bytes(k)), j)
  {
    hide Bytes, Col, DecRound, DecWord, InvMix, InvMixColumns, InvShiftRows, InvSubBytes, Xor, WordBytes;
    hide Byte0, Byte1, Byte2, Byte3;
    DecRoundAt(sb, q, k, j);
    ColOfBytes(DecRound(sb, q, k), j);
    ColOfBytes(k, j);
    DecWordBytes(sb, q[j], q[(j + 3) % 4], q[(j + 2) % 4], q[(j + 1) % 4], k[j]);
    InvShiftedColumn(sb, q, j);
    MixedColumn(InvShiftRows(InvSubBytes(sb, Bytes(q))), j);
    ColOfXor(InvMixColumns(InvShiftRows(InvSubBytes(sb, Bytes(q)))), Bytes(k), j);
  }

  lemma DecRoundBytes(sb: Sbox, q: Quad, k: Quad)
    ensures Bytes(DecRound(sb, q, k)) == Xor(InvMixColumns(InvShiftRows(InvSubBytes(sb, Bytes(q)))), Bytes(k))
  {
    hide Bytes, Col, DecRound, InvMixColumns, InvShiftRows, InvSubBytes, Xor;
    forall j | 0 <= j < 4
      ensures Col(Bytes(DecRound(sb, q, k)), j) ==
              Col(Xor(InvMixColumns(InvShiftRows(InvSubBytes(sb, Bytes(q)))), Bytes(k)), j)
    {
      DecRoundColumn(sb, q, k, j);
    }
    SameColumns(Bytes(DecRound(sb, q, k)), Xor(InvMixColumns(InvShiftRows(InvSubBytes(sb, Bytes(q)))), Bytes(k)));
  }

  lemma EncLastIndex(sb: Sbox, q: Quad, k: Quad, j: nat)
    requires j < 4
    ensures EncLast(sb, q, k)[j] == EncLastOf(sb, q, k, j)
  {
    hide EncLastOf;
  }

  lemma EncLastAt(sb: Sbox, q: Quad, k: Quad, j: nat)
    requires j < 4
    ensures EncLast(sb, q, k)[j] == EncLastWord(sb, q[j], q[(j + 1) % 4], q[(j + 2) % 4], q[(j + 3) % 4], k[j])
  {
    hide EncLastWord, EncLast;
    EncLastIndex(sb, q, k, j);
  }

  lemma EncLastColumn(sb: Sbox, q: Quad, k: Quad, j: nat)
    requires j < 4
    ensures Col(Bytes(EncLast(sb, q, k)), j) == Col(Xor(ShiftRows(SubBytes(sb, Bytes(q))), Bytes(k)), j)
  {
    hide Bytes, Col, EncLast, ShiftRows, SubBytes, Xor, WordBytes, Byte0, Byte1, Byte2, Byte3, Add5, Masked, Word;
    EncLastAt(sb, q, k, j);
    ColOfBytes(EncLast(sb, q, k), j);
    ColOfBytes(k, j);
    LastWordBytes(sb.s(Byte0(q[j])), sb.s(Byte1(q[(j + 1) % 4])), sb.s(Byte2(q[(j + 2) % 4])),
                  sb.s(Byte3(q[(j + 3) % 4])), k[j]);
    ShiftedColumn(sb, q, j);
    ColOfXor(ShiftRows(SubBytes(sb, Bytes(q))), Bytes(k), j);
  }

  lemma EncLastBytes(sb: Sbox, q: Quad, k: Quad)
    ensures Bytes(EncLast(sb, q, k)) == Xor(ShiftRows(SubBytes(sb, Bytes(q))), Bytes(k))
  {
    hide Bytes, Col, EncLast, ShiftRows, SubBytes, Xor;
    forall j | 0 <= j < 4
      ensures Col(Bytes(EncLast(sb, q, k)), j) == Col(Xor(ShiftRows(SubBytes(sb, Bytes(q))), Bytes(k)), j)
    {
      EncLastColumn(sb, q, k, j);
    }
    SameColumns(Bytes(EncLast(sb, q, k)), Xor(ShiftRows(SubBytes(sb, Bytes(q))), Bytes(k)));
  }

  lemma DecLastIndex(sb: Sbox, q: Quad, k: Quad, j: nat)
    requires j < 4
    ensures DecLast(sb, q, k)[j] == DecLastOf(sb, q, k, j)
  {
    hide DecLastOf;
  }

  lemma DecLastAt(sb: Sbox, q: Quad, k: Quad, j: nat)
    requires j < 4
    ensures DecLast(sb, q, k)[j] == DecLastWord(sb, q[j], q[(j + 3) % 4], q[(j + 2) % 4], q[(j + 1) % 4], k[j])
  {
    hide DecLastWord, DecLast;
    DecLastIndex(sb, q, k, j);
  }

  lemma DecLastColumn(sb: Sbox, q: Quad, k: Quad, j: nat)
    requires j < 4
    ensures Col(Bytes(DecLast(sb, q, k)), j) == Col(Xor(InvShiftRows(InvSubBytes(sb, Bytes(q))), Bytes(k)), j)
  {
    hide Bytes, Col, DecLast, InvShiftRows, InvSubBytes, Xor, WordBytes, Byte0, Byte1, Byte2, Byte3, Add5, Masked, Word;
    DecLastAt(sb, q, k, j);
    ColOfBytes(DecLast(sb, q, k), j);
    ColOfBytes(k, j);
    LastWordBytes(sb.inv(Byte0(q[j])), sb.inv(Byte1(q[(j + 3) % 4])), sb.inv(Byte2(q[(j + 2) % 4])),
                  sb.inv(Byte3(q[(j + 1) % 4])), k[j]);
    InvShiftedColumn(sb, q, j);
    ColOfXor(InvShiftRows(InvSubBytes(sb, Bytes(q))), Bytes(k), j);
  }

  lemma DecLastBytes(sb: Sbox, q: Quad, k: Quad)
    ensures Bytes(DecLast(sb, q, k)) == Xor(InvShiftRows(InvSubBytes(sb, Bytes(q))), Bytes(k))
  {
    hide Bytes, Col, DecLast, InvShiftRows, InvSubBytes, Xor;
    forall j | 0 <= j < 4
      ensures Col(Bytes(DecLast(sb, q, k)), j) == Col(Xor(InvShiftRows(InvSubBytes(sb, Bytes(q))), Bytes(k)), j)
    {
      DecLastColumn(sb, q, k, j);
    }
    SameColumns(Bytes(DecLast(sb, q, k)), Xor(InvShiftRows(InvSubBytes(sb, Bytes(q))), Bytes(k)));
  }

  // ---------- the encryption and decryption functions ----------

  /** Key words 4r to 4r + 3. */
  function KeyQuad(rk: seq<bv32>, r: nat): Quad
    requires |rk| == 44 && r < 11
  {
    rk[4 * r..4 * r + 4]
  }

  function RoundKeys(rk: seq<bv32>): Keys
    requires |rk| == 44
  {
    seq(11, r requires 0 <= r < 11 => Bytes(KeyQuad(rk, r)))
  }

  lemma RoundKeysAt(rk: seq<bv32>, r: nat)
    requires |rk| == 44 && r < 11
    ensures RoundKeys(rk)[r] == Bytes([rk[4 * r], rk[4 * r + 1], rk[4 * r + 2], rk[4 * r + 3]])
  {
    hide Bytes;
    assert KeyQuad(rk, r) == [rk[4 * r], rk[4 * r + 1], rk[4 * r + 2], rk[4 * r + 3]];
  }

  /** The macro GETU32. */
  method GetU32(a: array<bv8>, i: nat) returns (w: bv32)
    requires i + 4 <= a.Length
    ensures w == Word(a[i], a[i + 1], a[i + 2], a[i + 3])
  {
    w := Word(a[i], a[i + 1], a[i + 2], a[i + 3]);
  }

  /** The macro PUTU32. */
  method PutU32(a: array<bv8>, i: nat, w: bv32)
    requires i + 4 <= a.Length
    modifies a
    ensures a[..] == Overwrite(old(a[..]), i, WordBytes(w))
  {
    hide Byte0, Byte1, Byte2, Byte3;
    a[i] := Byte0(w);
    a[i + 1] := Byte1(w);
    a[i + 2] := Byte2(w);
    a[i + 3] := Byte3(w);
  }

  /** The four PUTU32 at the end of a block function. */
  method PutBlock(a: array<bv8>, start: nat, s0: bv32, s1: bv32, s2: bv32, s3: bv32)
    requires start + 16 <= a.Length
    modifies a
    ensures a[..] == Overwrite(old(a[..]), start, Bytes([s0, s1, s2, s3]))
  {
    hide WordBytes, Overwrite;
    ghost var d := a[..];
    ghost var x, y, z, w := WordBytes(s0), WordBytes(s1), WordBytes(s2), WordBytes(s3);
    PutU32(a, start, s0);
    PutU32(a, start + 4, s1);
    OverwriteTwice(d, start, x, y);
    PutU32(a, start + 8, s2);
    OverwriteTwice(d, start, x + y, z);
    PutU32(a, start + 12, s3);
    OverwriteTwice(d, start, x + y + z, w);
  }

  /** The state after the first AddRoundKey. */
  method LoadState(a: array<bv8>, start: nat, rk: array<bv32>) returns (s0: bv32, s1: bv32, s2: bv32, s3: bv32)
    requires start + 16 <= a.Length && rk.Length == 44
    ensures Bytes([s0, s1, s2, s3]) == Xor(a[start..start + 16], RoundKeys(rk[..])[0])
  {
    hide Word, XorW, Bytes, Xor;
    ghost var b: Block := a[start..start + 16];
    s0 := GetU32(a, start);
    s1 := GetU32(a, start + 4);
    s2 := GetU32(a, start + 8);
    s3 := GetU32(a, start + 12);
    ghost var q: Quad := [s0, s1, s2, s3];
    assert q == ToQuad(b);
    BlockRoundTrip(b);
    RoundKeysAt(rk[..], 0);
    XorQuadBytes(q, [rk[0], rk[1], rk[2], rk[3]]);
    s0, s1, s2, s3 := XorW(s0, rk[0]), XorW(s1, rk[1]), XorW(s2, rk[2]), XorW(s3, rk[3]);
  }

  method RijndaelEncrypt(sb: Sbox, rk: array<bv32>, pt: array<bv8>, from: nat, ct: array<bv8>, to: nat)
    requires rk.Length == 44 && from + 16 <= pt.Length && to + 16 <= ct.Length
    modifies ct
    ensures ct[..] == Overwrite(old(ct[..]), to, Cipher(sb, RoundKeys(rk[..]), old(pt[from..from + 16])))
  {
    hide Overwrite, Bytes, Xor, EncWord, EncLastWord, RoundKeys, SubBytes, ShiftRows, MixColumns;
    ghost var ks, b := RoundKeys(rk[..]), pt[from..from + 16];
    var s0, s1, s2, s3 := LoadState(pt, from, rk);
    for r := 1 to 10
      invariant Bytes([s0, s1, s2, s3]) == CipherState(sb, ks, b, r - 1)
      invariant ct[..] == old(ct[..])
    {
      ghost var q, k: Quad := [s0, s1, s2, s3], [rk[4 * r], rk[4 * r + 1], rk[4 * r + 2], rk[4 * r + 3]];
      EncRoundWords(sb, q, k);
      EncRoundBytes(sb, q, k);
      RoundKeysAt(rk[..], r);
      var t0 := EncWord(sb, s0, s1, s2, s3, rk[4 * r]);
      var t1 := EncWord(sb, s1, s2, s3, s0, rk[4 * r + 1]);
      var t2 := EncWord(sb, s2, s3, s0, s1, rk[4 * r + 2]);
      var t3 := EncWord(sb, s3, s0, s1, s2, rk[4 * r + 3]);
      s0, s1, s2, s3 := t0, t1, t2, t3;
    }
    ghost var q, k: Quad := [s0, s1, s2, s3], [rk[40], rk[41], rk[42], rk[43]];
    EncLastWords(sb, q, k);
    EncLastBytes(sb, q, k);
    RoundKeysAt(rk[..], 10);
    var t0 := EncLastWord(sb, s0, s1, s2, s3, rk[40]);
    var t1 := EncLastWord(sb, s1, s2, s3, s0, rk[41]);
    var t2 := EncLastWord(sb, s2, s3, s0, s1, rk[42]);
    var t3 := EncLastWord(sb, s3, s0, s1, s2, rk[43]);
    assert Bytes([t0, t1, t2, t3]) == Cipher(sb, ks, b);
    PutBlock(ct, to, t0, t1, t2, t3);
    assert rk[..] == old(rk[..]);
    assert ct[..] == Overwrite(old(ct[..]), to, Cipher(sb, ks, b));
  }

  lemma FourWords(q: Quad)
    ensures q == [q[0], q[1], q[2], q[3]]
  {
  }

  lemma EncRoundWords(sb: Sbox, q: Quad, k: Quad)
    ensures EncRound(sb, q, k) ==
            [EncWord(sb, q[0], q[1], q[2], q[3], k[0]), EncWord(sb, q[1], q[2], q[3], q[0], k[1]),
             EncWord(sb, q[2], q[3], q[0], q[1], k[2]), EncWord(sb, q[3], q[0], q[1], q[2], k[3])]
  {
    hide EncWord, EncRound;
    EncRoundAt(sb, q, k, 0);
    EncRoundAt(sb, q, k, 1);
    EncRoundAt(sb, q, k, 2);
    EncRoundAt(sb, q, k, 3);
    FourWords(EncRound(sb, q, k));
  }

  lemma EncLastWords(sb: Sbox, q: Quad, k: Quad)
    ensures EncLast(sb, q, k) ==
            [EncLastWord(sb, q[0], q[1], q[2], q[3], k[0]), EncLastWord(sb, q[1], q[2], q[3], q[0], k[1]),
             EncLastWord(sb, q[2], q[3], q[0], q[1], k[2]), EncLastWord(sb, q[3], q[0], q[1], q[2], k[3])]
  {
    hide EncLastWord, EncLast;
    EncLastAt(sb, q, k, 0);
    EncLastAt(sb, q, k, 1);
    EncLastAt(sb, q, k, 2);
    EncLastAt(sb, q, k, 3);
    FourWords(EncLast(sb, q, k));
  }

  lemma DecRoundWords(sb: Sbox, q: Quad, k: Quad)
    ensures DecRound(sb, q, k) ==
            [DecWord(sb, q[0], q[3], q[2], q[1], k[0]), DecWord(sb, q[1], q[0], q[3], q[2], k[1]),
             DecWord(sb, q[2], q[1], q[0], q[3], k[2]), DecWord(sb, q[3], q[2], q[1], q[0], k[3])]
  {
    hide DecWord, DecRound;
    DecRoundAt(sb, q, k, 0);
    DecRoundAt(sb, q, k, 1);
    DecRoundAt(sb, q, k, 2);
    DecRoundAt(sb, q, k, 3);
  }

  lemma DecLastWords(sb: Sbox, q: Quad, k: Quad)
    ensures DecLast(sb, q, k) ==
            [DecLastWord(sb, q[0], q[3], q[2], q[1], k[0]), DecLastWord(sb, q[1], q[0], q[3], q[2], k[1]),
             DecLastWord(sb, q[2], q[1], q[0], q[3], k[2]), DecLastWord(sb, q[3], q[2], q[1], q[0], k[3])]
  {
    hide DecLastWord, DecLast;
    DecLastAt(sb, q, k, 0);
    DecLastAt(sb, q, k, 1);
    DecLastAt(sb, q, k, 2);
    DecLastAt(sb, q, k, 3);
  }

  method RijndaelDecrypt(sb: Sbox, rk: array<bv32>, ct: array<bv8>, from: nat, pt: array<bv8>, to: nat)
    requires rk.Length == 44 && from + 16 <= ct.Length && to + 16 <= pt.Length
    modifies pt
    ensures pt[..] == Overwrite(old(pt[..]), to, EqInvCipher(sb, RoundKeys(rk[..]), old(ct[from..from + 16])))
  {
    hide Overwrite, Bytes, Xor, DecWord, DecLastWord, RoundKeys, InvSubBytes, InvShiftRows, InvMixColumns;
    ghost var ks, b := RoundKeys(rk[..]), ct[from..from + 16];
    var s0, s1, s2, s3 := LoadState(ct, from, rk);
    for r := 1 to 10
      invariant Bytes([s0, s1, s2, s3]) == EqInvState(sb, ks, b, r - 1)
      invariant pt[..] == old(pt[..])
    {
      ghost var q, k: Quad := [s0, s1, s2, s3], [rk[4 * r], rk[4 * r + 1], rk[4 * r + 2], rk[4 * r + 3]];
      DecRoundWords(sb, q, k);
      DecRoundBytes(sb, q, k);
      RoundKeysAt(rk[..], r);
      var t0 := DecWord(sb, s0, s3, s2, s1, rk[4 * r]);
      var t1 := DecWord(sb, s1, s0, s3, s2, rk[4 * r + 1]);
      var t2 := DecWord(sb, s2, s1, s0, s3, rk[4 * r + 2]);
      var t3 := DecWord(sb, s3, s2, s1, s0, rk[4 * r + 3]);
      s0, s1, s2, s3 := t0, t1, t2, t3;
    }
    ghost var q, k: Quad := [s0, s1, s2, s3], [rk[40], rk[41], rk[42], rk[43]];
    DecLastWords(sb, q, k);
    DecLastBytes(sb, q, k);
    RoundKeysAt(rk[..], 10);
    var t0 := DecLastWord(sb, s0, s3, s2, s1, rk[40]);
    var t1 := DecLastWord(sb, s1, s0, s3, s2, rk[41]);
    var t2 := DecLastWord(sb, s2, s1, s0, s3, rk[42]);
    var t3 := DecLastWord(sb, s3, s2, s1, s0, rk[43]);
    assert Bytes([t0, t1, t2, t3]) == EqInvCipher(sb, ks, b);
    PutBlock(pt, to, t0, t1, t2, t3);
    assert rk[..] == old(rk[..]);
    assert pt[..] == Overwrite(old(pt[..]), to, EqInvCipher(sb, ks, b));
  }
}
