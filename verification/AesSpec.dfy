/** AES-128 as FIPS 197 defines it, byte by byte, and the proof that its inverse cipher
    and its equivalent inverse cipher undo it. The S-box is any invertible byte map. */
module AesSpec {
  import opened Words

  /** The S-box and its inverse. */
  datatype Sbox = Sbox(s: bv8 -> bv8, inv: bv8 -> bv8)

  ghost predicate Invertible(b: Sbox) {
    forall x :: b.inv(b.s(x)) == x
  }

  // ---------- multiplication by constants in GF(2^8), section 4.2 ----------

  function X2(a: bv8): bv8 { if a & 0x80 != 0 then (a << 1) ^ 0x1b else a << 1 }

  /** Bit k of a byte, the coefficient of x^k. */
  predicate BitOf(a: bv8, k: nat)
    requires k < 8
  {
    a & [0x01, 0x02, 0x04, 0x08, 0x10, 0x20, 0x40, 0x80][k] != 0
  }

  /** Multiplying by x moves every coefficient one up, and x^8 comes back as 1 + x + x^3 + x^4. */
  lemma X2Coefficients(a: bv8, k: nat)
    requires k < 8
    ensures BitOf(X2(a), k) == ((0 < k && BitOf(a, k - 1)) != ((k == 0 || k == 1 || k == 3 || k == 4) && BitOf(a, 7)))
  {
    hide X2, BitOf;
    if k < 4 { X2Low(a, k); } else { X2High(a, k); }
  }

  lemma X2Low(a: bv8, k: nat)
    requires k < 4
    ensures BitOf(X2(a), k) == ((0 < k && BitOf(a, k - 1)) != (k != 2 && BitOf(a, 7)))
  {
    if k == 0 {} else if k == 1 {} else if k == 2 {} else {}
  }

  lemma X2High(a: bv8, k: nat)
    requires 4 <= k < 8
    ensures BitOf(X2(a), k) == (BitOf(a, k - 1) != (k == 4 && BitOf(a, 7)))
  {
    if k == 4 {} else if k == 5 {} else if k == 6 {} else {}
  }

  function X4(a: bv8): bv8 { X2(X2(a)) }

  function X8(a: bv8): bv8 { X2(X2(X2(a))) }

  function X3(a: bv8): bv8 { XorByte(X2(a), a) }

  function X9(a: bv8): bv8 { XorByte(X8(a), a) }

  function XB(a: bv8): bv8 { XorByte(XorByte(X8(a), X2(a)), a) }

  function XD(a: bv8): bv8 { XorByte(XorByte(X8(a), X4(a)), a) }

  function XE(a: bv8): bv8 { XorByte(XorByte(X8(a), X4(a)), X2(a)) }

  /** A sum of four bytes. */
  function Sum(a: bv8, b: bv8, c: bv8, d: bv8): bv8 { XorByte(XorByte(XorByte(a, b), c), d) }

  // ---------- columns ----------

  type Column = s: seq<bv8> | |s| == 4 witness [0, 0, 0, 0]

  function Turn(c: Column, k: nat): Column
    requires k < 4
  {
    [c[(4 - k) % 4], c[(5 - k) % 4], c[(6 - k) % 4], c[(7 - k) % 4]]
  }

  /** The column that byte a in row k contributes to MixColumns. */
  function MixOne(a: bv8, k: nat): Column
    requires k < 4
  {
    Turn([X2(a), a, a, X3(a)], k)
  }

  /** The column that byte a in row k contributes to InvMixColumns. */
  function InvMixOne(a: bv8, k: nat): Column
    requires k < 4
  {
    Turn([XE(a), X9(a), XD(a), XB(a)], k)
  }

  /** MixColumns on one column, section 5.1.3: the sum of what its four bytes contribute. */
  function Mix(c: Column): Column {
    Xor(Xor(Xor(MixOne(c[0], 0), MixOne(c[1], 1)), MixOne(c[2], 2)), MixOne(c[3], 3))
  }

  /** InvMixColumns on one column, section 5.3.3. */
  function InvMix(c: Column): Column {
    Xor(Xor(Xor(InvMixOne(c[0], 0), InvMixOne(c[1], 1)), InvMixOne(c[2], 2)), InvMixOne(c[3], 3))
  }

  lemma SumAt(p: Column, q: Column, r: Column, t: Column, i: nat)
    requires i < 4
    ensures Xor(Xor(Xor(p, q), r), t)[i] == Sum(p[i], q[i], r[i], t[i])
  {
    hide XorByte;
  }

  /** The matrix form in which section 5.1.3 writes the same map. */
  lemma MixIsMatrix(c: Column)
    ensures Mix(c) == [Sum(X2(c[0]), X3(c[1]), c[2], c[3]), Sum(c[0], X2(c[1]), X3(c[2]), c[3]),
                       Sum(c[0], c[1], X2(c[2]), X3(c[3])), Sum(X3(c[0]), c[1], c[2], X2(c[3]))]
  {
    hide X2, X3, Sum, Xor;
    var p, q, r, t := MixOne(c[0], 0), MixOne(c[1], 1), MixOne(c[2], 2), MixOne(c[3], 3);
    SumAt(p, q, r, t, 0);
    SumAt(p, q, r, t, 1);
    SumAt(p, q, r, t, 2);
    SumAt(p, q, r, t, 3);
  }

  /** The matrix form of InvMixColumns, section 5.3.3. */
  lemma InvMixIsMatrix(c: Column)
    ensures InvMix(c) == [Sum(XE(c[0]), XB(c[1]), XD(c[2]), X9(c[3])), Sum(X9(c[0]), XE(c[1]), XB(c[2]), XD(c[3])),
                          Sum(XD(c[0]), X9(c[1]), XE(c[2]), XB(c[3])), Sum(XB(c[0]), XD(c[1]), X9(c[2]), XE(c[3]))]
  {
    hide X9, XB, XD, XE, Sum, Xor;
    var p, q, r, t := InvMixOne(c[0], 0), InvMixOne(c[1], 1), InvMixOne(c[2], 2), InvMixOne(c[3], 3);
    SumAt(p, q, r, t, 0);
    SumAt(p, q, r, t, 1);
    SumAt(p, q, r, t, 2);
    SumAt(p, q, r, t, 3);
  }

  /** One byte in an otherwise zero column. */
  function Unit(a: bv8, k: nat): Column
    requires k < 4
  {
    Turn([a, 0, 0, 0], k)
  }

  lemma InvMixBytes0a(a: bv8)
    ensures Sum(XE(X2(a)), XB(a), XD(a), X9(X3(a))) == a
    ensures Sum(X9(X2(a)), XE(a), XB(a), XD(X3(a))) == 0
  {
  }

  lemma InvMixBytes0b(a: bv8)
    ensures Sum(XD(X2(a)), X9(a), XE(a), XB(X3(a))) == 0
    ensures Sum(XB(X2(a)), XD(a), X9(a), XE(X3(a))) == 0
  {
  }

  lemma InvMixBytes1a(a: bv8)
    ensures Sum(XE(X3(a)), XB(X2(a)), XD(a), X9(a)) == 0
    ensures Sum(X9(X3(a)), XE(X2(a)), XB(a), XD(a)) == a
  {
  }

  lemma InvMixBytes1b(a: bv8)
    ensures Sum(XD(X3(a)), X9(X2(a)), XE(a), XB(a)) == 0
    ensures Sum(XB(X3(a)), XD(X2(a)), X9(a), XE(a)) == 0
  {
  }

  lemma InvMixBytes2a(a: bv8)
    ensures Sum(XE(a), XB(X3(a)), XD(X2(a)), X9(a)) == 0
    ensures Sum(X9(a), XE(X3(a)), XB(X2(a)), XD(a)) == 0
  {
  }

  lemma InvMixBytes2b(a: bv8)
    ensures Sum(XD(a), X9(X3(a)), XE(X2(a)), XB(a)) == a
    ensures Sum(XB(a), XD(X3(a)), X9(X2(a)), XE(a)) == 0
  {
  }

  lemma InvMixBytes3a(a: bv8)
    ensures Sum(XE(a), XB(a), XD(X3(a)), X9(X2(a))) == 0
    ensures Sum(X9(a), XE(a), XB(X3(a)), XD(X2(a))) == 0
  {
  }

  lemma InvMixBytes3b(a: bv8)
    ensures Sum(XD(a), X9(a), XE(X3(a)), XB(X2(a))) == 0
    ensures Sum(XB(a), XD(a), X9(X3(a)), XE(X2(a))) == a
  {
  }

  lemma Turned(x: bv8, y: bv8, z: bv8, w: bv8)
    ensures Turn([x, y, z, w], 0) == [x, y, z, w]
    ensures Turn([x, y, z, w], 1) == [w, x, y, z]
    ensures Turn([x, y, z, w], 2) == [z, w, x, y]
    ensures Turn([x, y, z, w], 3) == [y, z, w, x]
  {
  }

  lemma InvMixOfMixOne0(a: bv8)
    ensures InvMix([X2(a), a, a, X3(a)]) == [a, 0, 0, 0]
  {
    hide X2, X3, X9, XB, XD, XE, Sum, InvMix;
    InvMixIsMatrix([X2(a), a, a, X3(a)]);
    InvMixBytes0a(a);
    InvMixBytes0b(a);
  }

  lemma InvMixOfMixOne1(a: bv8)
    ensures InvMix([X3(a), X2(a), a, a]) == [0, a, 0, 0]
  {
    hide X2, X3, X9, XB, XD, XE, Sum, InvMix;
    InvMixIsMatrix([X3(a), X2(a), a, a]);
    InvMixBytes1a(a);
    InvMixBytes1b(a);
  }

  lemma InvMixOfMixOne2(a: bv8)
    ensures InvMix([a, X3(a), X2(a), a]) == [0, 0, a, 0]
  {
    hide X2, X3, X9, XB, XD, XE, Sum, InvMix;
    InvMixIsMatrix([a, X3(a), X2(a), a]);
    InvMixBytes2a(a);
    InvMixBytes2b(a);
  }

  lemma InvMixOfMixOne3(a: bv8)
    ensures InvMix([a, a, X3(a), X2(a)]) == [0, 0, 0, a]
  {
    hide X2, X3, X9, XB, XD, XE, Sum, InvMix;
    InvMixIsMatrix([a, a, X3(a), X2(a)]);
    InvMixBytes3a(a);
    InvMixBytes3b(a);
  }

  lemma InvMixOfMixOne(a: bv8, k: nat)
    requires k < 4
    ensures InvMix(MixOne(a, k)) == Unit(a, k)
  {
    hide X2, X3, InvMix, Turn;
    Turned(X2(a), a, a, X3(a));
    Turned(a, 0, 0, 0);
    InvMixOfMixOne0(a);
    InvMixOfMixOne1(a);
    InvMixOfMixOne2(a);
    InvMixOfMixOne3(a);
  }

  function Left(a: bv8): bv8 { a << 1 }

  function Reduction(a: bv8): bv8 { if a & 0x80 != 0 then 0x1b else 0 }

  lemma X2Parts(a: bv8)
    ensures X2(a) == XorByte(Left(a), Reduction(a))
  {
  }

  lemma LeftLinear(a: bv8, b: bv8)
    ensures Left(XorByte(a, b)) == XorByte(Left(a), Left(b))
  {
  }

  lemma ReductionLinear(a: bv8, b: bv8)
    ensures Reduction(XorByte(a, b)) == XorByte(Reduction(a), Reduction(b))
  {
  }

  lemma X2Linear(a: bv8, b: bv8)
    ensures X2(XorByte(a, b)) == XorByte(X2(a), X2(b))
  {
    hide X2, XorByte, Left, Reduction;
    X2Parts(a);
    X2Parts(b);
    X2Parts(XorByte(a, b));
    LeftLinear(a, b);
    ReductionLinear(a, b);
    XorByteSwap(Left(a), Left(b), Reduction(a), Reduction(b));
  }

  lemma XorByteSwap(a: bv8, b: bv8, c: bv8, d: bv8)
    ensures XorByte(XorByte(a, b), XorByte(c, d)) == XorByte(XorByte(a, c), XorByte(b, d))
  {
    hide XorByte;
    XorSwap([a], [b], [c], [d]);
    assert Xor(Xor([a], [b]), Xor([c], [d]))[0] == Xor(Xor([a], [c]), Xor([b], [d]))[0];
  }

  lemma MulLinear(a: bv8, b: bv8)
    ensures X9(XorByte(a, b)) == XorByte(X9(a), X9(b))
    ensures XB(XorByte(a, b)) == XorByte(XB(a), XB(b))
    ensures XD(XorByte(a, b)) == XorByte(XD(a), XD(b))
    ensures XE(XorByte(a, b)) == XorByte(XE(a), XE(b))
  {
    hide X2, XorByte;
    X2Linear(a, b);
    X2Linear(X2(a), X2(b));
    X2Linear(X4(a), X4(b));
    XorByteSwap(X8(a), X8(b), a, b);
    XorByteSwap(X8(a), X8(b), X2(a), X2(b));
    XorByteSwap(X8(a), X8(b), X4(a), X4(b));
    XorByteSwap(XorByte(X8(a), X2(a)), XorByte(X8(b), X2(b)), a, b);
    XorByteSwap(XorByte(X8(a), X4(a)), XorByte(X8(b), X4(b)), a, b);
    XorByteSwap(XorByte(X8(a), X4(a)), XorByte(X8(b), X4(b)), X2(a), X2(b));
  }

  lemma InvMixOneLinear(a: bv8, b: bv8, k: nat)
    requires k < 4
    ensures InvMixOne(XorByte(a, b), k) == Xor(InvMixOne(a, k), InvMixOne(b, k))
  {
    hide X9, XB, XD, XE, XorByte, Turn;
    MulLinear(a, b);
    XorTurn([XE(a), X9(a), XD(a), XB(a)], [XE(b), X9(b), XD(b), XB(b)], k);
    var c := XorByte(a, b);
    assert [XE(c), X9(c), XD(c), XB(c)] == Xor([XE(a), X9(a), XD(a), XB(a)], [XE(b), X9(b), XD(b), XB(b)]);
  }

  lemma XorTurn(x: Column, y: Column, k: nat)
    requires k < 4
    ensures Turn(Xor(x, y), k) == Xor(Turn(x, k), Turn(y, k))
  {
    hide XorByte;
  }

  /** InvMixColumns is linear, which is what lets it be moved past AddRoundKey. */
  lemma InvMixLinear(x: Column, y: Column)
    ensures InvMix(Xor(x, y)) == Xor(InvMix(x), InvMix(y))
  {
    hide InvMixOne, XorByte;
    var z := Xor(x, y);
    InvMixOneLinear(x[0], y[0], 0);
    InvMixOneLinear(x[1], y[1], 1);
    InvMixOneLinear(x[2], y[2], 2);
    InvMixOneLinear(x[3], y[3], 3);
    assert z[0] == XorByte(x[0], y[0]) && z[1] == XorByte(x[1], y[1]);
    assert z[2] == XorByte(x[2], y[2]) && z[3] == XorByte(x[3], y[3]);
    hide Xor;
    var a0, a1, a2, a3 := InvMixOne(x[0], 0), InvMixOne(x[1], 1), InvMixOne(x[2], 2), InvMixOne(x[3], 3);
    var b0, b1, b2, b3 := InvMixOne(y[0], 0), InvMixOne(y[1], 1), InvMixOne(y[2], 2), InvMixOne(y[3], 3);
    XorSwap(a0, b0, a1, b1);
    XorSwap(Xor(a0, a1), Xor(b0, b1), a2, b2);
    XorSwap(Xor(Xor(a0, a1), a2), Xor(Xor(b0, b1), b2), a3, b3);
  }

  lemma UnitsMakeColumn(c: Column)
    ensures Xor(Xor(Xor(Unit(c[0], 0), Unit(c[1], 1)), Unit(c[2], 2)), Unit(c[3], 3)) == c
  {
    XorByteZero();
    hide XorByte;
  }

  /** InvMixColumns undoes MixColumns. */
  lemma InvMixOfMix(c: Column)
    ensures InvMix(Mix(c)) == c
  {
    hide MixOne, InvMix, Unit, Xor;
    var m0, m1, m2, m3 := MixOne(c[0], 0), MixOne(c[1], 1), MixOne(c[2], 2), MixOne(c[3], 3);
    InvMixLinear(Xor(Xor(m0, m1), m2), m3);
    InvMixLinear(Xor(m0, m1), m2);
    InvMixLinear(m0, m1);
    InvMixOfMixOne(c[0], 0);
    InvMixOfMixOne(c[1], 1);
    InvMixOfMixOne(c[2], 2);
    InvMixOfMixOne(c[3], 3);
    UnitsMakeColumn(c);
  }

  // ---------- the state ----------

  /** Column j of a state: the state is its sixteen bytes, column by column. */
  function Col(b: Block, j: nat): Column
    requires j < 4
  {
    b[4 * j..4 * j + 4]
  }

  function SubBytes(sb: Sbox, b: Block): Block {
    seq(16, i requires 0 <= i < 16 => sb.s(b[i]))
  }

  function InvSubBytes(sb: Sbox, b: Block): Block {
    seq(16, i requires 0 <= i < 16 => sb.inv(b[i]))
  }

  /** Row r moves r columns to the left, section 5.1.2. */
  function ShiftRows(b: Block): Block {
    seq(16, i requires 0 <= i < 16 => b[(i + 4 * (i % 4)) % 16])
  }

  function InvShiftRows(b: Block): Block {
    seq(16, i requires 0 <= i < 16 => b[(i + 12 * (i % 4)) % 16])
  }

  function MixColumns(b: Block): Block {
    Mix(Col(b, 0)) + Mix(Col(b, 1)) + Mix(Col(b, 2)) + Mix(Col(b, 3))
  }

  function InvMixColumns(b: Block): Block {
    InvMix(Col(b, 0)) + InvMix(Col(b, 1)) + InvMix(Col(b, 2)) + InvMix(Col(b, 3))
  }

  lemma InvShiftOfShift(b: Block)
    ensures InvShiftRows(ShiftRows(b)) == b
  {
    forall i | 0 <= i < 16
      ensures InvShiftRows(ShiftRows(b))[i] == b[i]
    {
      BackInRow(i);
    }
  }

  /** Twelve places on and four places on, in steps of the row number, is where it began. */
  lemma BackInRow(i: nat)
    requires i < 16
    ensures var j := (i + 12 * (i % 4)) % 16; (j + 4 * (j % 4)) % 16 == i
  {
    var j := (i + 12 * (i % 4)) % 16;
    assert j % 4 == i % 4;
    if i % 4 == 0 {
    } else if i % 4 == 1 {
    } else if i % 4 == 2 {
    } else {
    }
  }

  lemma InvSubOfSub(sb: Sbox, b: Block)
    requires Invertible(sb)
    ensures InvSubBytes(sb, SubBytes(sb, b)) == b
  {
    forall i | 0 <= i < 16
      ensures InvSubBytes(sb, SubBytes(sb, b))[i] == b[i]
    {
      assert sb.inv(sb.s(b[i])) == b[i];
    }
  }

  /** Substitution is byte by byte, so it commutes with moving bytes. */
  lemma InvSubInvShift(sb: Sbox, b: Block)
    ensures InvSubBytes(sb, InvShiftRows(b)) == InvShiftRows(InvSubBytes(sb, b))
  {
  }

  lemma ColsOfConcat(c0: Column, c1: Column, c2: Column, c3: Column)
    ensures var b := c0 + c1 + c2 + c3;
            Col(b, 0) == c0 && Col(b, 1) == c1 && Col(b, 2) == c2 && Col(b, 3) == c3
  {
  }

  lemma ConcatOfCols(b: Block)
    ensures Col(b, 0) + Col(b, 1) + Col(b, 2) + Col(b, 3) == b
  {
  }

  lemma InvMixColumnsOfMixColumns(b: Block)
    ensures InvMixColumns(MixColumns(b)) == b
  {
    hide Mix, InvMix, Col;
    ColsOfConcat(Mix(Col(b, 0)), Mix(Col(b, 1)), Mix(Col(b, 2)), Mix(Col(b, 3)));
    InvMixOfMix(Col(b, 0));
    InvMixOfMix(Col(b, 1));
    InvMixOfMix(Col(b, 2));
    InvMixOfMix(Col(b, 3));
    ConcatOfCols(b);
  }

  lemma ColOfXor(x: Block, y: Block, j: nat)
    requires j < 4
    ensures Col(Xor(x, y), j) == Xor(Col(x, j), Col(y, j))
  {
    hide XorByte;
  }

  lemma XorOfConcat(a: Column, b: Column, c: Column, d: Column, e: Column, f: Column, g: Column, h: Column)
    ensures Xor(a, e) + Xor(b, f) + Xor(c, g) + Xor(d, h) == Xor(a + b + c + d, e + f + g + h)
  {
    hide XorByte;
  }

  lemma InvMixColumnsLinear(x: Block, y: Block)
    ensures InvMixColumns(Xor(x, y)) == Xor(InvMixColumns(x), InvMixColumns(y))
  {
    hide InvMix, Col, Xor;
    ColOfXor(x, y, 0);
    ColOfXor(x, y, 1);
    ColOfXor(x, y, 2);
    ColOfXor(x, y, 3);
    InvMixLinear(Col(x, 0), Col(y, 0));
    InvMixLinear(Col(x, 1), Col(y, 1));
    InvMixLinear(Col(x, 2), Col(y, 2));
    InvMixLinear(Col(x, 3), Col(y, 3));
    XorOfConcat(InvMix(Col(x, 0)), InvMix(Col(x, 1)), InvMix(Col(x, 2)), InvMix(Col(x, 3)),
                InvMix(Col(y, 0)), InvMix(Col(y, 1)), InvMix(Col(y, 2)), InvMix(Col(y, 3)));
  }

  // ---------- the ciphers ----------

  /** Round keys 0 to 10. */
  type Keys = s: seq<Block> | |s| == 11 witness seq(11, _ => ZERO_BLOCK)

  /** The state after r full rounds of the cipher, section 5.1. */
  function CipherState(sb: Sbox, ks: Keys, b: Block, r: nat): Block
    requires r <= 9
  {
    if r == 0 then Xor(b, ks[0])
    else Xor(MixColumns(ShiftRows(SubBytes(sb, CipherState(sb, ks, b, r - 1)))), ks[r])
  }

  function Cipher(sb: Sbox, ks: Keys, b: Block): Block {
    Xor(ShiftRows(SubBytes(sb, CipherState(sb, ks, b, 9))), ks[10])
  }

  /** The state after r full rounds of the inverse cipher, section 5.3. */
  function InvCipherState(sb: Sbox, ks: Keys, b: Block, r: nat): Block
    requires r <= 9
  {
    if r == 0 then Xor(b, ks[10])
    else InvMixColumns(Xor(InvSubBytes(sb, InvShiftRows(InvCipherState(sb, ks, b, r - 1))), ks[10 - r]))
  }

  function InvCipher(sb: Sbox, ks: Keys, b: Block): Block {
    Xor(InvSubBytes(sb, InvShiftRows(InvCipherState(sb, ks, b, 9))), ks[0])
  }

  /** The key schedule of the equivalent inverse cipher, section 5.3.5. */
  function InvKeys(ks: Keys): Keys {
    seq(11, r requires 0 <= r < 11 => if r == 0 || r == 10 then ks[10 - r] else InvMixColumns(ks[10 - r]))
  }

  function EqInvState(sb: Sbox, dk: Keys, b: Block, r: nat): Block
    requires r <= 9
  {
    if r == 0 then Xor(b, dk[0])
    else Xor(InvMixColumns(InvShiftRows(InvSubBytes(sb, EqInvState(sb, dk, b, r - 1)))), dk[r])
  }

  function EqInvCipher(sb: Sbox, dk: Keys, b: Block): Block {
    Xor(InvShiftRows(InvSubBytes(sb, EqInvState(sb, dk, b, 9))), dk[10])
  }

  lemma {:induction false} EqInvStateIsInvState(sb: Sbox, ks: Keys, b: Block, r: nat)
    requires r <= 9
    ensures EqInvState(sb, InvKeys(ks), b, r) == InvCipherState(sb, ks, b, r)
  {
    hide Xor, InvMixColumns, InvSubBytes, InvShiftRows;
    if r == 0 {
    } else {
      EqInvStateIsInvState(sb, ks, b, r - 1);
      var x := InvCipherState(sb, ks, b, r - 1);
      InvSubInvShift(sb, x);
      InvMixColumnsLinear(InvSubBytes(sb, InvShiftRows(x)), ks[10 - r]);
    }
  }

  /** With the transformed key schedule the equivalent inverse cipher is the inverse cipher. */
  lemma EqInvIsInv(sb: Sbox, ks: Keys, b: Block)
    ensures EqInvCipher(sb, InvKeys(ks), b) == InvCipher(sb, ks, b)
  {
    hide Xor, InvMixColumns, InvSubBytes, InvShiftRows, EqInvState, InvCipherState;
    EqInvStateIsInvState(sb, ks, b, 9);
    InvSubInvShift(sb, InvCipherState(sb, ks, b, 9));
  }

  lemma InvShiftSub(sb: Sbox, b: Block)
    requires Invertible(sb)
    ensures InvSubBytes(sb, InvShiftRows(ShiftRows(SubBytes(sb, b)))) == b
  {
    InvShiftOfShift(SubBytes(sb, b));
    InvSubOfSub(sb, b);
    hide SubBytes, InvSubBytes, ShiftRows, InvShiftRows;
  }

  /** After r rounds backwards the state is what the cipher had 9 - r rounds in, before its last AddRoundKey. */
  lemma {:induction false} InverseRounds(sb: Sbox, ks: Keys, b: Block, r: nat)
    requires r <= 9 && Invertible(sb)
    ensures InvCipherState(sb, ks, Cipher(sb, ks, b), r) == ShiftRows(SubBytes(sb, CipherState(sb, ks, b, 9 - r)))
  {
    hide Xor, MixColumns, InvMixColumns, SubBytes, InvSubBytes, ShiftRows, InvShiftRows;
    if r == 0 {
      XorCancel(ShiftRows(SubBytes(sb, CipherState(sb, ks, b, 9))), ks[10]);
    } else {
      InverseRounds(sb, ks, b, r - 1);
      var x := CipherState(sb, ks, b, 9 - r);
      var y := ShiftRows(SubBytes(sb, x));
      InvShiftSub(sb, CipherState(sb, ks, b, 10 - r));
      XorCancel(MixColumns(y), ks[10 - r]);
      InvMixColumnsOfMixColumns(y);
    }
  }

  /** The inverse cipher undoes the cipher, for any round keys and any invertible S-box. */
  lemma InvCipherOfCipher(sb: Sbox, ks: Keys, b: Block)
    requires Invertible(sb)
    ensures InvCipher(sb, ks, Cipher(sb, ks, b)) == b
  {
    hide Xor, MixColumns, SubBytes, InvSubBytes, ShiftRows, InvShiftRows, InvCipherState, Cipher;
    InverseRounds(sb, ks, b, 9);
    InvShiftSub(sb, Xor(b, ks[0]));
    XorCancel(b, ks[0]);
  }

  /** And so does the equivalent inverse cipher with the transformed keys. */
  lemma EqInvCipherOfCipher(sb: Sbox, ks: Keys, b: Block)
    requires Invertible(sb)
    ensures EqInvCipher(sb, InvKeys(ks), Cipher(sb, ks, b)) == b
  {
    hide EqInvCipher, InvCipher, Cipher, InvKeys;
    EqInvIsInv(sb, ks, Cipher(sb, ks, b));
    InvCipherOfCipher(sb, ks, b);
  }

  // ---------- the cipher byte by byte ----------

  /** Byte r of column j after a round: the substituted bytes on the diagonal of x, twice the first,
      three times the second and the other two, and a byte of the key. */
  function RoundByte(sb: Sbox, x: Block, k: Block, j: nat, r: nat): bv8
    requires j < 4 && r < 4
  {
    XorByte(Sum(X2(Diagonal(sb, x, j, r)), X3(Diagonal(sb, x, j, (r + 1) % 4)), Diagonal(sb, x, j, (r + 2) % 4),
                Diagonal(sb, x, j, (r + 3) % 4)), k[4 * j + r])
  }

  /** The substituted byte of row r that the shift brings into column j. */
  function Diagonal(sb: Sbox, x: Block, j: nat, r: nat): bv8
    requires j < 4 && r < 4
  {
    sb.s(x[4 * ((j + r) % 4) + r])
  }

  ghost predicate IsRound(sb: Sbox, x: Block, k: Block, y: Block) {
    forall i :: 0 <= i < 16 ==> y[i] == RoundByte(sb, x, k, i / 4, i % 4)
  }

  lemma DiagonalIs(sb: Sbox, x: Block, j: nat, r: nat)
    requires j < 4 && r < 4
    ensures ShiftRows(SubBytes(sb, x))[4 * j + r] == Diagonal(sb, x, j, r)
  {
    var i := 4 * j + r;
    assert i % 4 == r;
    if r == 0 {} else if r == 1 {} else if r == 2 {} else {}
  }

  lemma SumTurn(a: bv8, b: bv8, c: bv8, d: bv8)
    ensures Sum(a, b, c, d) == Sum(b, c, d, a)
  {
  }

  lemma MixAt(c: Column, r: nat)
    requires r < 4
    ensures Mix(c)[r] == Sum(X2(c[r]), X3(c[(r + 1) % 4]), c[(r + 2) % 4], c[(r + 3) % 4])
  {
    hide Mix, X2, X3, Sum;
    MixIsMatrix(c);
    if r == 0 {
    } else if r == 1 {
      SumTurn(c[0], X2(c[1]), X3(c[2]), c[3]);
    } else if r == 2 {
      SumTurn(c[0], c[1], X2(c[2]), X3(c[3]));
      SumTurn(c[1], X2(c[2]), X3(c[3]), c[0]);
    } else {
      SumTurn(X2(c[3]), X3(c[0]), c[1], c[2]);
    }
  }

  lemma MixedByte(b: Block, j: nat, r: nat)
    requires j < 4 && r < 4
    ensures MixColumns(b)[4 * j + r] == Mix(Col(b, j))[r] && Col(b, j)[r] == b[4 * j + r]
  {
    hide Mix;
    if j == 0 {} else if j == 1 {} else if j == 2 {} else {}
  }

  lemma XorAt(a: Block, b: Block, i: nat)
    requires i < 16
    ensures Xor(a, b)[i] == XorByte(a[i], b[i])
  {
    hide XorByte;
  }

  lemma RoundAt(sb: Sbox, x: Block, k: Block, j: nat, r: nat)
    requires j < 4 && r < 4
    ensures Xor(MixColumns(ShiftRows(SubBytes(sb, x))), k)[4 * j + r] == RoundByte(sb, x, k, j, r)
  {
    hide Mix, MixColumns, ShiftRows, SubBytes, X2, X3, Xor, XorByte, Sum, Col, Diagonal;
    var b := ShiftRows(SubBytes(sb, x));
    XorAt(MixColumns(b), k, 4 * j + r);
    MixedByte(b, j, r);
    MixAt(Col(b, j), r);
    MixedByte(b, j, (r + 1) % 4);
    MixedByte(b, j, (r + 2) % 4);
    MixedByte(b, j, (r + 3) % 4);
    DiagonalIs(sb, x, j, r);
    DiagonalIs(sb, x, j, (r + 1) % 4);
    DiagonalIs(sb, x, j, (r + 2) % 4);
    DiagonalIs(sb, x, j, (r + 3) % 4);
  }

  /** A full round of the cipher is exactly that. */
  lemma RoundIs(sb: Sbox, x: Block, k: Block, y: Block)
    requires IsRound(sb, x, k, y)
    ensures y == Xor(MixColumns(ShiftRows(SubBytes(sb, x))), k)
  {
    hide MixColumns, ShiftRows, SubBytes, Xor, RoundByte;
    forall i | 0 <= i < 16
      ensures y[i] == Xor(MixColumns(ShiftRows(SubBytes(sb, x))), k)[i]
    {
      RoundAt(sb, x, k, i / 4, i % 4);
    }
  }

  /** The block and the first key combined. */
  ghost predicate IsStart(b: Block, k: Block, y: Block) {
    forall i :: 0 <= i < 16 ==> y[i] == XorByte(b[i], k[i])
  }

  /** Ten states, the first the block and the first key combined, each of the others a round from the
      one before: after the last of them comes a round without mixing, and that is the cipher. */
  lemma CipherSteps(sb: Sbox, ks: Keys, b: Block, xs: seq<Block>, j: nat, r: nat)
    requires |xs| == 10 && IsStart(b, ks[0], xs[0])
    requires forall i :: 0 < i < 10 ==> IsRound(sb, xs[i - 1], ks[i], xs[i])
    requires j < 4 && r < 4
    ensures Cipher(sb, ks, b)[4 * j + r] == XorByte(Diagonal(sb, xs[9], j, r), ks[10][4 * j + r])
  {
    hide Xor, XorByte, ShiftRows, SubBytes, Diagonal, IsRound, IsStart, CipherState;
    StateIs(sb, ks, b, xs, 9);
    XorAt(ShiftRows(SubBytes(sb, xs[9])), ks[10], 4 * j + r);
    DiagonalIs(sb, xs[9], j, r);
  }

  lemma {:induction false} StateIs(sb: Sbox, ks: Keys, b: Block, xs: seq<Block>, n: nat)
    requires n <= 9
    requires |xs| == 10 && IsStart(b, ks[0], xs[0])
    requires forall i :: 0 < i < 10 ==> IsRound(sb, xs[i - 1], ks[i], xs[i])
    ensures CipherState(sb, ks, b, n) == xs[n]
    decreases n
  {
    hide IsRound, IsStart, MixColumns, ShiftRows, SubBytes, Xor;
    if n == 0 {
      StartIs(b, ks[0], xs[0]);
    } else {
      StateIs(sb, ks, b, xs, n - 1);
      RoundIs(sb, xs[n - 1], ks[n], xs[n]);
    }
  }

  lemma StartIs(b: Block, k: Block, y: Block)
    requires IsStart(b, k, y)
    ensures y == Xor(b, k)
  {
    hide XorByte;
  }
}
