/** The multiplication of section 6.3 of NIST SP 800-38D is that of a commutative ring with unit, in
    which x^128 is 1 + x + x^2 + x^7. */
module Gf128Field {
  import opened Words
  import opened Gf128
  import opened GhashTable

  // ---------- coefficients ----------

  /** The coefficient of x^k: bit k of the string, leftmost first. */
  predicate Coefficient(v: Block, k: nat)
    requires k < 128
  {
    Bits(v)[k]
  }

  lemma {:induction false} BitOfByte(s: seq<bv8>, i: nat, j: nat)
    requires i < |s| && j < 8
    ensures Bits(s)[8 * i + j] == ByteBits(s[i])[j]
  {
    hide ByteBits;
    if i == 0 {
    } else {
      BitOfByte(s[1..], i - 1, j);
    }
  }

  lemma CarryBits(hi: bv8, lo: bv8, j: nat)
    requires j < 8
    ensures ByteBits(Carry(hi, lo))[j] == if j == 0 then ByteBits(hi)[7] else ByteBits(lo)[j - 1]
  {
    hide ByteBits, XorByte, Carry;
    if j < 4 { CarryBitsHigh(hi, lo, j); } else { CarryBitsLow(hi, lo, j); }
  }

  lemma CarryBitsHigh(hi: bv8, lo: bv8, j: nat)
    requires j < 4
    ensures ByteBits(Carry(hi, lo))[j] == if j == 0 then ByteBits(hi)[7] else ByteBits(lo)[j - 1]
  {
    if j == 0 {} else if j == 1 {} else if j == 2 {} else {}
  }

  lemma CarryBitsLow(hi: bv8, lo: bv8, j: nat)
    requires 4 <= j < 8
    ensures ByteBits(Carry(hi, lo))[j] == ByteBits(lo)[j - 1]
  {
    if j == 4 {} else if j == 5 {} else if j == 6 {} else {}
  }

  /** The byte 0x80 shifted right by k. */
  function TopMask(k: nat): bv8
    requires k < 8
  {
    [0x80, 0x40, 0x20, 0x10, 0x08, 0x04, 0x02, 0x01][k]
  }

  lemma BitMaskLow(b: bv8, j: nat)
    requires j < 4
    ensures ByteBits(b)[j] == (b & TopMask(j) != 0)
  {
    if j == 0 {} else if j == 1 {} else if j == 2 {} else {}
  }

  lemma BitMaskHigh(b: bv8, j: nat)
    requires 4 <= j < 8
    ensures ByteBits(b)[j] == (b & TopMask(j) != 0)
  {
    if j == 4 {} else if j == 5 {} else if j == 6 {} else {}
  }

  lemma BitMask(b: bv8, j: nat)
    requires j < 8
    ensures ByteBits(b)[j] == (b & TopMask(j) != 0)
  {
    hide ByteBits, TopMask;
    if j < 4 {
      BitMaskLow(b, j);
    } else {
      BitMaskHigh(b, j);
    }
  }

  lemma OneBit(a: bv8, b: bv8, m: bv8)
    requires m & (m - 1) == 0
    ensures ((a ^ b) & m != 0) == ((a & m != 0) != (b & m != 0))
  {
  }

  lemma OnlyOneBit(j: nat)
    requires j < 8
    ensures TopMask(j) & (TopMask(j) - 1) == 0
  {
  }

  lemma XorBit(a: bv8, b: bv8, j: nat)
    requires j < 8
    ensures ByteBits(XorByte(a, b))[j] == (ByteBits(a)[j] != ByteBits(b)[j])
  {
    hide ByteBits, TopMask;
    BitMask(a, j);
    BitMask(b, j);
    BitMask(XorByte(a, b), j);
    OnlyOneBit(j);
    OneBit(a, b, TopMask(j));
  }

  lemma ConstantBits(j: nat)
    requires j < 8
    ensures !ByteBits(0)[j] && (ByteBits(0xE1)[j] <==> j == 0 || j == 1 || j == 2 || j == 7)
  {
    if j < 4 {
      if j == 0 {} else if j == 1 {} else if j == 2 {} else {}
    } else {
      if j == 4 {} else if j == 5 {} else if j == 6 {} else {}
    }
  }

  lemma LastBit(b: bv8)
    ensures ByteBits(b)[7] == LowBit(b)
  {
  }

  lemma ByteIndex(k: nat)
    requires k < 128
    ensures k == 8 * (k / 8) + k % 8 && k / 8 < 16
    ensures 0 < k ==> (k - 1) / 8 == (if k % 8 == 0 then k / 8 - 1 else k / 8)
    ensures 0 < k ==> (k - 1) % 8 == (if k % 8 == 0 then 7 else k % 8 - 1)
  {
  }

  lemma ShiftedBit(v: Block, k: nat)
    requires k < 128
    ensures Coefficient(Shr1(v), k) == (0 < k && Coefficient(v, k - 1))
  {
    hide ByteBits, Carry, Bits;
    var i, j := k / 8, k % 8;
    ByteIndex(k);
    BitOfByte(Shr1(v), i, j);
    CarryBits(if i == 0 then 0 else v[i - 1], v[i], j);
    ConstantBits(7);
    if 0 < k {
      BitOfByte(v, (k - 1) / 8, (k - 1) % 8);
    }
  }

  lemma SumBit(a: Block, b: Block, k: nat)
    requires k < 128
    ensures Coefficient(Xor(a, b), k) == (Coefficient(a, k) != Coefficient(b, k))
  {
    hide ByteBits, Bits, XorByte;
    ByteIndex(k);
    BitOfByte(a, k / 8, k % 8);
    BitOfByte(b, k / 8, k % 8);
    BitOfByte(Xor(a, b), k / 8, k % 8);
    XorBit(a[k / 8], b[k / 8], k % 8);
  }

  lemma ReductionBit(k: nat)
    requires k < 128
    ensures Coefficient(R, k) <==> k == 0 || k == 1 || k == 2 || k == 7
  {
    hide ByteBits, Bits;
    ByteIndex(k);
    BitOfByte(R, k / 8, k % 8);
    ConstantBits(k % 8);
  }

  /** Multiplying by x moves every coefficient one up, and x^128 comes back as 1 + x + x^2 + x^7. */
  lemma MulXCoefficients(v: Block, k: nat)
    requires k < 128
    ensures Coefficient(MulX(v), k) ==
            ((0 < k && Coefficient(v, k - 1)) != ((k == 0 || k == 1 || k == 2 || k == 7) && Coefficient(v, 127)))
  {
    LastBit(v[15]);
    hide ByteBits, Bits, Shr1, Xor, LowBit;
    BitOfByte(v, 15, 7);
    ShiftedBit(v, k);
    ReductionBit(k);
    SumBit(Shr1(v), R, k);
  }

  // ---------- the unit ----------

  /** The polynomial 1. */
  const ONE: Block := [0x80] + Zeros(15)

  /** The polynomial x. */
  const X: Block := [0x40] + Zeros(15)

  function Head(b: bv8): Block { [b] + Zeros(15) }

  lemma MulXHead(b: bv8)
    requires !LowBit(b)
    ensures MulX(Head(b)) == Head(HalfByte(b))
  {
    CarryHalf(b);
    LowCarry(b);
    hide Carry, LowBit, HalfByte;
    assert Shr1(Head(b)) == Head(HalfByte(b));
  }

  lemma LowCarry(b: bv8)
    requires !LowBit(b)
    ensures Carry(b, 0) == 0 && !LowBit(0)
  {
  }

  lemma TopMaskHalf(k: nat)
    requires k < 7
    ensures !LowBit(TopMask(k)) && HalfByte(TopMask(k)) == TopMask(k + 1)
  {
  }

  /** The byte whose bits from k on are xs. */
  function FromBits(xs: seq<bool>, k: nat): bv8
    requires k + |xs| <= 8
  {
    if xs == [] then 0 else XorByte(if xs[0] then TopMask(k) else 0, FromBits(xs[1..], k + 1))
  }

  lemma HeadXor(a: bv8, b: bv8)
    ensures Head(XorByte(a, b)) == Xor(Head(a), Head(b))
  {
    CarryZero();
    hide XorByte;
  }

  lemma {:induction false} SelectHead(xs: seq<bool>, k: nat)
    requires k < 8 && k + |xs| <= 8
    ensures Select(xs, Head(TopMask(k))) == Head(FromBits(xs, k))
    decreases |xs|
  {
    hide MulX, Xor, XorByte, TopMask;
    assert Head(0) == ZERO_BLOCK;
    if xs == [] {
    } else {
      HeadXor(if xs[0] then TopMask(k) else 0, FromBits(xs[1..], k + 1));
      if |xs| == 1 {
        assert xs[1..] == [];
        assert Select(xs[1..], MulX(Head(TopMask(k)))) == ZERO_BLOCK;
      } else {
        TopMaskHalf(k);
        MulXHead(TopMask(k));
        SelectHead(xs[1..], k + 1);
      }
    }
  }

  lemma ByteFromBits(b: bv8)
    ensures FromBits(ByteBits(b), 0) == b
  {
    var xs := ByteBits(b);
    FourBits(xs[4], xs[5], xs[6], xs[7]);
    assert xs[4..] == [xs[4], xs[5], xs[6], xs[7]];
    HighBits(xs);
    BitSum(b);
  }

  lemma FourBits(p: bool, q: bool, r: bool, s: bool)
    ensures FromBits([p, q, r, s], 4) ==
            XorByte(if p then 0x08 else 0,
                    XorByte(if q then 0x04 else 0, XorByte(if r then 0x02 else 0, if s then 0x01 else 0)))
  {
    var xs := [p, q, r, s];
    assert xs[1..] == [q, r, s] && [q, r, s][1..] == [r, s] && [r, s][1..] == [s] && [s][1..] == [];
    assert forall b :: XorByte(b, 0) == b;
    hide XorByte;
    assert FromBits([s], 7) == XorByte(if s then 0x01 else 0, FromBits([], 8));
    assert FromBits([r, s], 6) == XorByte(if r then 0x02 else 0, FromBits([s], 7));
    assert FromBits([q, r, s], 5) == XorByte(if q then 0x04 else 0, FromBits([r, s], 6));
  }

  lemma HighBits(xs: seq<bool>)
    requires |xs| == 8
    ensures FromBits(xs, 0) ==
            XorByte(if xs[0] then 0x80 else 0, XorByte(if xs[1] then 0x40 else 0,
              XorByte(if xs[2] then 0x20 else 0, XorByte(if xs[3] then 0x10 else 0, FromBits(xs[4..], 4)))))
  {
    hide XorByte;
    assert xs[1..][1..] == xs[2..] && xs[2..][1..] == xs[3..] && xs[3..][1..] == xs[4..];
    assert FromBits(xs[3..], 3) == XorByte(if xs[3] then 0x10 else 0, FromBits(xs[4..], 4));
    assert FromBits(xs[2..], 2) == XorByte(if xs[2] then 0x20 else 0, FromBits(xs[3..], 3));
    assert FromBits(xs[1..], 1) == XorByte(if xs[1] then 0x40 else 0, FromBits(xs[2..], 2));
  }

  lemma BitSum(b: bv8)
    ensures XorByte(if b & 0x80 != 0 then 0x80 else 0, XorByte(if b & 0x40 != 0 then 0x40 else 0,
              XorByte(if b & 0x20 != 0 then 0x20 else 0, XorByte(if b & 0x10 != 0 then 0x10 else 0,
                XorByte(if b & 0x08 != 0 then 0x08 else 0, XorByte(if b & 0x04 != 0 then 0x04 else 0,
                  XorByte(if b & 0x02 != 0 then 0x02 else 0, if b & 0x01 != 0 then 0x01 else 0))))))) == b
  {
  }

  /** The bits of a string select its own polynomial from the powers of x. */
  lemma {:induction false} SelectOne(s: seq<bv8>)
    requires |s| <= 16
    ensures Select(Bits(s), ONE) == s + Zeros(16 - |s|)
    decreases |s|
  {
    hide MulX, MulXn, Xor, ByteBits, Select, TopMask, FromBits;
    if s == [] {
      NothingSelected(ONE);
    } else {
      var t := s[1..] + Zeros(16 - |s|);
      SelectOne(s[1..]);
      SelectAppend(ByteBits(s[0]), Bits(s[1..]), ONE);
      FirstMask();
      EightBits(s[0]);
      SelectHead(ByteBits(s[0]), 0);
      ByteFromBits(s[0]);
      assert s[1..] + Zeros(16 - |s[1..]|) == t + [0];
      MulX8High(t);
      HeadAndTail(s, t);
    }
  }

  lemma EightBits(b: bv8)
    ensures |ByteBits(b)| == 8
  {
  }

  lemma FirstMask()
    ensures Head(TopMask(0)) == ONE
  {
  }

  lemma NothingSelected(v: Block)
    ensures Select([], v) == ZERO_BLOCK && Bits([]) == []
  {
  }

  lemma HeadAndTail(s: seq<bv8>, t: seq<bv8>)
    requires 0 < |s| <= 16 && t == s[1..] + Zeros(16 - |s|)
    ensures Xor(Head(s[0]), [0] + t) == s + Zeros(16 - |s|)
  {
    XorByteZero();
    hide XorByte;
  }

  // ---------- the ring ----------

  lemma {:induction false} SelectSelect(xs: seq<bool>, ys: seq<bool>, v: Block)
    ensures Select(xs, Select(ys, v)) == Select(ys, Select(xs, v))
    decreases |xs|
  {
    hide MulX, Xor;
    if xs == [] {
      SelectZero(ys);
    } else {
      SelectSelect(xs[1..], ys, MulX(v));
      SelectMulX(ys, v);
      SelectLinear(ys, Pick(xs[0], v), Select(xs[1..], MulX(v)));
      PickSelect(xs[0], ys, v);
    }
  }

  lemma {:induction false} SelectZero(ys: seq<bool>)
    ensures Select(ys, ZERO_BLOCK) == ZERO_BLOCK
  {
    hide MulX, Xor;
    MulXZero();
    XorZero(ZERO_BLOCK);
    if ys == [] {
    } else {
      SelectZero(ys[1..]);
    }
  }

  lemma PickSelect(b: bool, ys: seq<bool>, v: Block)
    ensures Select(ys, Pick(b, v)) == Pick(b, Select(ys, v))
  {
    SelectZero(ys);
    hide Select;
  }

  /** The product is commutative, 1 is its unit, and the product with x is multiplication by x. */
  lemma MulCommutes(a: Block, b: Block)
    ensures Mul(a, b) == Mul(b, a)
  {
    hide Select, Bits;
    SelectOne(a);
    SelectOne(b);
    WholeBlock(a);
    WholeBlock(b);
    SelectSelect(Bits(a), Bits(b), ONE);
  }

  lemma WholeBlock(a: Block)
    ensures a + Zeros(16 - |a|) == a
  {
  }

  lemma MulOne(a: Block)
    ensures Mul(a, ONE) == a && Mul(ONE, a) == a
  {
    hide Select, Bits;
    SelectOne(a);
    WholeBlock(a);
    MulCommutes(a, ONE);
  }

  lemma MulXIsProduct(a: Block)
    ensures Mul(a, X) == MulX(a) && Mul(X, a) == MulX(a)
  {
    TopMaskHalf(0);
    FirstMask();
    MulXHead(TopMask(0));
    assert X == Head(TopMask(1));
    hide Select, Bits, MulX, TopMask, Head;
    SelectMulX(Bits(a), ONE);
    MulOne(a);
    MulCommutes(a, X);
  }

  lemma MulMulX(a: Block, b: Block)
    ensures Mul(MulX(a), b) == MulX(Mul(a, b))
  {
    hide Select, Bits, MulX;
    MulCommutes(MulX(a), b);
    MulCommutes(a, b);
    SelectMulX(Bits(b), a);
  }

  lemma MulAdd(a: Block, b: Block, c: Block)
    ensures Mul(Xor(a, b), c) == Xor(Mul(a, c), Mul(b, c))
    ensures Mul(c, Xor(a, b)) == Xor(Mul(c, a), Mul(c, b))
  {
    hide Select, Bits, Xor;
    SelectLinear(Bits(c), a, b);
    MulCommutes(c, Xor(a, b));
    MulCommutes(c, a);
    MulCommutes(c, b);
  }

  lemma MulZero(a: Block)
    ensures Mul(ZERO_BLOCK, a) == ZERO_BLOCK
  {
    hide Select, Bits;
    SelectZero(Bits(a));
    MulCommutes(ZERO_BLOCK, a);
  }

  lemma {:induction false} MulSelect(xs: seq<bool>, a: Block, b: Block)
    ensures Mul(Select(xs, a), b) == Select(xs, Mul(a, b))
    decreases |xs|
  {
    hide MulX, Xor, Mul;
    MulZero(b);
    if xs == [] {
    } else {
      MulSelect(xs[1..], MulX(a), b);
      MulMulX(a, b);
      MulAdd(Pick(xs[0], a), Select(xs[1..], MulX(a)), b);
    }
  }

  /** The product is associative. */
  lemma MulAssociates(a: Block, b: Block, c: Block)
    ensures Mul(Mul(a, b), c) == Mul(a, Mul(b, c))
  {
    MulSelect(Bits(a), b, c);
    hide Select, Bits;
  }
}
