/** Multiplication in GF(2^128) on 128-bit strings, bit by bit, as section 6.3 of
    NIST SP 800-38D writes it, and the laws that table-driven code relies on. */
module Gf128 {
  import opened Words

  function Carry(hi: bv8, lo: bv8): bv8 { (lo >> 1) ^ (hi << 7) }

  function LowBit(b: bv8): bool { b & 1 != 0 }

  /** The string shifted one bit to the right: the top bit becomes 0. */
  function Shr1(a: Block): Block {
    seq(16, i requires 0 <= i < 16 => Carry(if i == 0 then 0 else a[i - 1], a[i]))
  }

  const R: Block := [0xE1] + Zeros(15)

  /** Multiplication by the polynomial x. */
  function MulX(v: Block): Block {
    if LowBit(v[15]) then Xor(Shr1(v), R) else Shr1(v)
  }

  function MulXn(v: Block, n: nat): Block
    decreases n
  {
    if n == 0 then v else MulXn(MulX(v), n - 1)
  }

  function ByteBits(b: bv8): seq<bool> {
    [b & 0x80 != 0, b & 0x40 != 0, b & 0x20 != 0, b & 0x10 != 0,
     b & 0x08 != 0, b & 0x04 != 0, b & 0x02 != 0, b & 0x01 != 0]
  }

  /** The bits of a byte string, leftmost first. */
  function Bits(s: seq<bv8>): (r: seq<bool>)
    ensures |r| == 8 * |s|
  {
    if s == [] then [] else ByteBits(s[0]) + Bits(s[1..])
  }

  function Pick(b: bool, v: Block): Block { if b then v else ZERO_BLOCK }

  /** The sum of the multiples of v that the bits of xs select: bit i stands for x^i. */
  function Select(xs: seq<bool>, v: Block): Block {
    if xs == [] then ZERO_BLOCK
    else Xor(Pick(xs[0], v), Select(xs[1..], MulX(v)))
  }

  /** The product of two blocks, section 6.3 of NIST SP 800-38D. */
  function Mul(x: Block, y: Block): Block {
    Select(Bits(x), y)
  }

  // ---------- multiplication by x is linear ----------

  lemma CarryLinear(a: bv8, b: bv8, c: bv8, d: bv8)
    ensures Carry(XorByte(a, b), XorByte(c, d)) == XorByte(Carry(a, c), Carry(b, d))
  {
  }

  lemma CarryZero()
    ensures XorByte(0, 0) == 0
  {
  }

  lemma LowBitLinear(a: bv8, b: bv8)
    ensures LowBit(XorByte(a, b)) == (LowBit(a) != LowBit(b))
  {
  }

  lemma Shr1Linear(a: Block, b: Block)
    ensures Shr1(Xor(a, b)) == Xor(Shr1(a), Shr1(b))
  {
    hide XorByte, Carry;
    CarryZero();
    forall i | 0 <= i < 16
      ensures Shr1(Xor(a, b))[i] == Xor(Shr1(a), Shr1(b))[i]
    {
      CarryLinear(if i == 0 then 0 else a[i - 1], if i == 0 then 0 else b[i - 1], a[i], b[i]);
    }
  }

  lemma MulXLinear(a: Block, b: Block)
    ensures MulX(Xor(a, b)) == Xor(MulX(a), MulX(b))
  {
    assert LowBit(Xor(a, b)[15]) == (LowBit(a[15]) != LowBit(b[15])) by {
      LowBitLinear(a[15], b[15]);
    }
    hide Xor, Shr1, LowBit;
    Shr1Linear(a, b);
    var p, q := Shr1(a), Shr1(b);
    XorSwap(p, R, q, R);
    XorSwap(p, R, q, ZERO_BLOCK);
    XorSwap(p, ZERO_BLOCK, q, R);
    XorZero(p);
    XorZero(q);
    XorZero(R);
    XorZero(Xor(p, q));
  }

  lemma MulXZero()
    ensures MulX(ZERO_BLOCK) == ZERO_BLOCK
  {
    var z := MulX(ZERO_BLOCK);
    MulXLinear(ZERO_BLOCK, ZERO_BLOCK);
    XorZero(ZERO_BLOCK);
    XorZero(z);
  }

  lemma {:induction false} MulXnLinear(a: Block, b: Block, n: nat)
    ensures MulXn(Xor(a, b), n) == Xor(MulXn(a, n), MulXn(b, n))
    decreases n
  {
    hide MulX, Xor;
    if n == 0 {
    } else {
      MulXLinear(a, b);
      MulXnLinear(MulX(a), MulX(b), n - 1);
    }
  }

  // ---------- selection ----------

  lemma {:induction false} SelectMulX(xs: seq<bool>, v: Block)
    ensures Select(xs, MulX(v)) == MulX(Select(xs, v))
  {
    hide MulX, Xor;
    MulXZero();
    if xs == [] {
    } else {
      SelectMulX(xs[1..], MulX(v));
      MulXLinear(Pick(xs[0], v), Select(xs[1..], MulX(v)));
    }
  }

  lemma {:induction false} SelectMulXn(xs: seq<bool>, v: Block, n: nat)
    ensures Select(xs, MulXn(v, n)) == MulXn(Select(xs, v), n)
    decreases n
  {
    hide MulX, Xor;
    if n == 0 {
    } else {
      SelectMulXn(xs, MulX(v), n - 1);
      SelectMulX(xs, v);
    }
  }

  /** Bits in front keep their power; bits behind gain one power for each bit in front. */
  lemma {:induction false} SelectAppend(xs: seq<bool>, ys: seq<bool>, v: Block)
    ensures Select(xs + ys, v) == Xor(Select(xs, v), MulXn(Select(ys, v), |xs|))
  {
    hide MulX, Xor;
    if xs == [] {
      assert xs + ys == ys;
      XorZero(Select(ys, v));
    } else {
      assert (xs + ys)[1..] == xs[1..] + ys;
      SelectAppend(xs[1..], ys, MulX(v));
      SelectMulX(ys, v);
      XorAssoc(Pick(xs[0], v), Select(xs[1..], MulX(v)), MulXn(Select(ys, v), |xs|));
    }
  }

  lemma {:induction false} SelectLinear(xs: seq<bool>, u: Block, v: Block)
    ensures Select(xs, Xor(u, v)) == Xor(Select(xs, u), Select(xs, v))
  {
    hide MulX, Xor;
    XorZero(ZERO_BLOCK);
    if xs == [] {
    } else {
      MulXLinear(u, v);
      SelectLinear(xs[1..], MulX(u), MulX(v));
      XorSwap(Pick(xs[0], u), Pick(xs[0], v),
              Select(xs[1..], MulX(u)), Select(xs[1..], MulX(v)));
    }
  }

  lemma {:induction false} SelectNothing(n: nat, v: Block)
    ensures Select(seq(n, _ => false), v) == ZERO_BLOCK
    decreases n
  {
    hide MulX, Xor;
    if n == 0 {
    } else {
      assert seq(n, _ => false)[1..] == seq(n - 1, _ => false);
      SelectNothing(n - 1, MulX(v));
      XorZero(ZERO_BLOCK);
    }
  }

  function XorBits(xs: seq<bool>, ys: seq<bool>): (r: seq<bool>)
    requires |xs| == |ys|
    ensures |r| == |xs|
  {
    seq(|xs|, i requires 0 <= i < |xs| => xs[i] != ys[i])
  }

  lemma {:induction false} SelectXorBits(xs: seq<bool>, ys: seq<bool>, v: Block)
    requires |xs| == |ys|
    ensures Select(XorBits(xs, ys), v) == Xor(Select(xs, v), Select(ys, v))
  {
    hide MulX, Xor;
    XorZero(ZERO_BLOCK);
    if xs == [] {
    } else {
      assert XorBits(xs, ys)[1..] == XorBits(xs[1..], ys[1..]);
      SelectXorBits(xs[1..], ys[1..], MulX(v));
      XorZero(v);
      XorSwap(Pick(xs[0], v), Pick(ys[0], v),
              Select(xs[1..], MulX(v)), Select(ys[1..], MulX(v)));
    }
  }
}
