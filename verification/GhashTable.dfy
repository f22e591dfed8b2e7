/** The byte-at-a-time GHASH of KISA_SEED_GCM.c: the table of all 256 byte multiples
    of H, and the multiplication loop that reads it. */
module GhashTable {
  import opened Words
  import opened Gf128
  import opened Shifts

  function Pow2(k: nat): (r: nat)
    ensures r > 0
  {
    if k == 0 then 1 else 2 * Pow2(k - 1)
  }

  /** The low n bits of a number, most significant first. */
  function IndexBits(b: nat, n: nat): (r: seq<bool>)
    ensures |r| == n
    decreases n
  {
    if n == 0 then [] else IndexBits(b / 2, n - 1) + [b % 2 == 1]
  }

  /** The product of the byte polynomial b with h: what row b of the table must hold. */
  function ByteProduct(b: nat, h: Block): Block {
    Select(IndexBits(b, 8), h)
  }

  function Row(m: array2<bv32>, b: nat): Quad
    requires m.Length0 == 256 && m.Length1 == 4 && b < 256
    reads m
  {
    [m[b, 0], m[b, 1], m[b, 2], m[b, 3]]
  }

  ghost predicate RowDone(m: array2<bv32>, b: nat, h: Block)
    requires m.Length0 == 256 && m.Length1 == 4 && b < 256
    reads m
  {
    Bytes(Row(m, b)) == ByteProduct(b, h)
  }

  ghost predicate IsTable(m: array2<bv32>, h: Block)
    reads m
  {
    m.Length0 == 256 && m.Length1 == 4 &&
    forall b: nat :: b < 256 ==> RowDone(m, b, h)
  }

  // ---------- one row from another ----------

  lemma {:induction false} LeadingZero(b: nat, n: nat)
    requires b < Pow2(n)
    ensures IndexBits(b, n + 1) == [false] + IndexBits(b, n)
    decreases n
  {
    if n == 0 {
    } else {
      LeadingZero(b / 2, n - 1);
    }
  }

  lemma SelectTrailingFalse(xs: seq<bool>, h: Block)
    ensures Select(xs + [false], h) == Select(xs, h)
  {
    SelectAppend(xs, [false], h);
    hide MulX, Xor;
    XorZero(ZERO_BLOCK);
    assert Select([false], h) == ZERO_BLOCK;
    hide Select;
    MulXnZero(|xs|);
    XorZero(Select(xs, h));
  }

  lemma SelectLeadingFalse(xs: seq<bool>, h: Block)
    ensures Select([false] + xs, h) == MulX(Select(xs, h))
  {
    hide MulX, Xor;
    assert ([false] + xs)[1..] == xs;
    SelectMulX(xs, h);
    XorZero(Select(xs, MulX(h)));
  }

  /** Halving the index multiplies the row by x. */
  lemma HalfIndex(i: nat, h: Block)
    requires 0 < i <= 64
    ensures ByteProduct(i, h) == MulX(ByteProduct(2 * i, h))
  {
    Pow2Values();
    DoubleIndex(i, 7);
    LeadingZero(i, 7);
    hide MulX, Select, IndexBits, Pow2;
    SelectTrailingFalse(IndexBits(i, 7), h);
    SelectLeadingFalse(IndexBits(i, 7), h);
  }

  lemma DoubleIndex(i: nat, n: nat)
    ensures IndexBits(2 * i, n + 1) == IndexBits(i, n) + [false]
  {
  }

  lemma Pow2Values()
    ensures Pow2(6) == 64 && Pow2(7) == 128 && Pow2(8) == 256
  {
    assert Pow2(3) == 8;
    assert Pow2(6) == 64;
  }

  lemma {:induction false} MulXnZero(n: nat)
    ensures MulXn(ZERO_BLOCK, n) == ZERO_BLOCK
  {
    hide MulX;
    MulXZero();
    if n == 0 {
    } else {
      MulXnZero(n - 1);
    }
  }

  lemma {:induction false} ZeroBits(n: nat)
    ensures IndexBits(0, n) == seq(n, _ => false)
  {
    if n == 0 {
    } else {
      ZeroBits(n - 1);
    }
  }

  lemma {:induction false} TopBits(n: nat)
    ensures IndexBits(Pow2(n), n + 1) == [true] + seq(n, _ => false)
  {
    if n == 0 {
    } else {
      TopBits(n - 1);
    }
  }

  lemma TopIndex(h: Block)
    ensures ByteProduct(128, h) == h
  {
    hide MulX, Xor;
    Pow2Values();
    TopBits(7);
    SelectNothing(7, MulX(h));
    XorZero(h);
  }

  lemma NoIndex(h: Block)
    ensures ByteProduct(0, h) == ZERO_BLOCK
  {
    ZeroBits(8);
    SelectNothing(8, h);
  }

  lemma {:induction false} SumBits(k: nat, j: nat, n: nat)
    requires j < Pow2(k)
    ensures IndexBits(Pow2(k) + j, n) == XorBits(IndexBits(Pow2(k), n), IndexBits(j, n))
    decreases n
  {
    if n == 0 {
    } else {
      if k == 0 {
        ZeroBits(n - 1);
      } else {
        SumBits(k - 1, j / 2, n - 1);
      }
    }
  }

  /** A row is the sum of the row of its top bit and the row of the rest. */
  lemma IndexSum(k: nat, j: nat, h: Block)
    requires j < Pow2(k)
    ensures ByteProduct(Pow2(k) + j, h) == Xor(ByteProduct(Pow2(k), h), ByteProduct(j, h))
  {
    hide Select, Xor;
    SumBits(k, j, 8);
    SelectXorBits(IndexBits(Pow2(k), 8), IndexBits(j, 8), h);
  }

  /** The word constant 0xE1000000 is the reduction polynomial. */
  lemma ReductionWord(q: Quad)
    ensures Bytes(q[0 := XorW(q[0], 0xE1000000)]) == Xor(Bytes(q), R)
  {
    var r: Quad := [0xE1000000, 0, 0, 0];
    assert Bytes(r) == R;
    assert XorQuad(q, r) == q[0 := XorW(q[0], 0xE1000000)];
    XorQuadBytes(q, r);
  }

  // ---------- the reduction table R8 ----------

  function Mask(k: nat): bv8
    requires k < 8
  {
    [0x01, 0x02, 0x04, 0x08, 0x10, 0x20, 0x40, 0x80][k]
  }

  /** The entries of R8 whose index is a power of two. */
  function Basis(k: nat): bv32
    requires k < 8
  {
    [0x01c20000, 0x03840000, 0x07080000, 0x0e100000, 0x1c200000, 0x38400000, 0x70800000, 0xe1000000][k]
  }

  function BitSet(b: bv8, k: nat): bool
    requires k < 8
  {
    b & Mask(k) != 0
  }

  /** The part of entry b of R8 that the low n bits of b contribute. */
  function R8From(b: bv8, n: nat): bv32
    requires n <= 8
    decreases n
  {
    if n == 0 then 0
    else XorW(if BitSet(b, n - 1) then Basis(n - 1) else 0, R8From(b, n - 1))
  }

  /** Entry b of the table R8. */
  function R8(b: bv8): bv32 { R8From(b, 8) }

  /** A block whose only non-zero byte is the last. */
  function Low(b: bv8): Block { Zeros(15) + [b] }

  /** A block whose only non-zero word is the first. */
  function Top(w: bv32): Block { Bytes([w, 0, 0, 0]) }

  function HalfByte(b: bv8): bv8 { b >> 1 }

  lemma CarryHalf(b: bv8)
    ensures Carry(0, b) == HalfByte(b)
    ensures Carry(0, 0) == 0
  {
  }

  lemma MulXLow(b: bv8)
    ensures MulX(Low(b)) == if LowBit(b) then Xor(Low(HalfByte(b)), R) else Low(HalfByte(b))
  {
    hide Carry, Xor, LowBit, HalfByte;
    CarryHalf(b);
    assert Shr1(Low(b)) == Low(HalfByte(b));
  }

  lemma MaskHalf(k: nat)
    requires k < 8
    ensures if k == 0 then LowBit(Mask(k)) && HalfByte(Mask(k)) == 0
            else !LowBit(Mask(k)) && HalfByte(Mask(k)) == Mask(k - 1)
  {
  }

  lemma {:induction false} MulXnMask(k: nat, m: nat)
    requires k < 8
    ensures MulXn(Low(Mask(k)), k + 1 + m) == MulXn(R, m)
    decreases k
  {
    hide MulX, Xor, LowBit, HalfByte, Mask;
    MulXLow(Mask(k));
    MaskHalf(k);
    if k == 0 {
      assert Low(0) == ZERO_BLOCK;
      XorZero(R);
    } else {
      MulXnMask(k - 1, m);
    }
  }

  lemma BasisHalf(k: nat)
    requires 0 < k < 8
    ensures Shiftr1(Basis(k), 0) == Basis(k - 1) && Shiftr1(0, Basis(k)) == 0 && Shiftr1(0, 0) == 0
  {
  }

  lemma TopLast(w: bv32)
    ensures !LowBit(Top(w)[15])
  {
    BytesAt([w, 0, 0, 0], 15);
  }

  lemma MulXTop(k: nat)
    requires 0 < k < 8
    ensures MulX(Top(Basis(k))) == Top(Basis(k - 1))
  {
    hide Basis, LowBit, Shiftr1, Shr1, Bytes;
    TopLast(Basis(k));
    BasisHalf(k);
    QuadShiftr1Bytes([Basis(k), 0, 0, 0]);
  }

  lemma {:induction false} MulXnTop(k: nat, m: nat)
    requires m <= k < 8
    ensures MulXn(Top(Basis(k)), m) == Top(Basis(k - m))
    decreases m
  {
    hide Basis, MulX, Top;
    if m == 0 {
    } else {
      MulXTop(k);
      MulXnTop(k - 1, m - 1);
    }
  }

  lemma ReductionIsTop()
    ensures R == Top(Basis(7))
  {
  }

  lemma MulX8Mask(k: nat)
    requires k < 8
    ensures MulXn(Low(Mask(k)), 8) == Top(Basis(k))
  {
    hide Basis, Mask, Top, Low, MulXn;
    MulXnMask(k, 7 - k);
    ReductionIsTop();
    MulXnTop(7, 7 - k);
  }

  function KeepMask(n: nat): bv8
    requires n <= 8
  {
    [0x00, 0x01, 0x03, 0x07, 0x0F, 0x1F, 0x3F, 0x7F, 0xFF][n]
  }

  /** The low n bits of a byte. */
  function Keep(b: bv8, n: nat): bv8
    requires n <= 8
  {
    b & KeepMask(n)
  }

  lemma KeepStep(b: bv8, n: nat)
    requires 0 < n <= 8
    ensures Keep(b, n) == XorByte(if BitSet(b, n - 1) then Mask(n - 1) else 0, Keep(b, n - 1))
  {
    if n <= 4 { KeepStepLow(b, n); } else { KeepStepHigh(b, n); }
  }

  lemma KeepStepLow(b: bv8, n: nat)
    requires 0 < n <= 4
    ensures Keep(b, n) == XorByte(if BitSet(b, n - 1) then Mask(n - 1) else 0, Keep(b, n - 1))
  {
    if n == 1 {} else if n == 2 {} else if n == 3 {} else {}
  }

  lemma KeepStepHigh(b: bv8, n: nat)
    requires 4 < n <= 8
    ensures Keep(b, n) == XorByte(if BitSet(b, n - 1) then Mask(n - 1) else 0, Keep(b, n - 1))
  {
    if n == 5 {} else if n == 6 {} else if n == 7 {} else {}
  }

  lemma KeepEnds(b: bv8)
    ensures Keep(b, 0) == 0 && Keep(b, 8) == b
  {
  }

  lemma LowXor(a: bv8, b: bv8)
    ensures Low(XorByte(a, b)) == Xor(Low(a), Low(b))
  {
    CarryZero();
    hide XorByte;
  }

  lemma TopXor(w: bv32, v: bv32)
    ensures Top(XorW(w, v)) == Xor(Top(w), Top(v))
  {
    assert XorW(0, 0) == 0;
    hide XorW, Bytes;
    assert XorQuad([w, 0, 0, 0], [v, 0, 0, 0]) == [XorW(w, v), 0, 0, 0];
    XorQuadBytes([w, 0, 0, 0], [v, 0, 0, 0]);
  }

  lemma TopZero()
    ensures Top(0) == ZERO_BLOCK && Low(0) == ZERO_BLOCK
  {
  }

  lemma {:induction false} MulX8Low(b: bv8, n: nat)
    requires n <= 8
    ensures MulXn(Low(Keep(b, n)), 8) == Top(R8From(b, n))
    decreases n
  {
    hide Keep, Low, Top, MulXn, Mask, Basis, BitSet, XorW, XorByte;
    MulXnZero(8);
    TopZero();
    if n == 0 {
      KeepEnds(b);
    } else {
      KeepStep(b, n);
      var bit := if BitSet(b, n - 1) then Mask(n - 1) else 0;
      var word := if BitSet(b, n - 1) then Basis(n - 1) else 0;
      MulX8Mask(n - 1);
      MulX8Low(b, n - 1);
      LowXor(bit, Keep(b, n - 1));
      MulXnLinear(Low(bit), Low(Keep(b, n - 1)), 8);
      TopXor(word, R8From(b, n - 1));
    }
  }

  /** The byte between hi and lo after t one-bit shifts. */
  function Slide(hi: bv8, lo: bv8, t: nat): bv8
    requires t <= 8
  {
    if t == 0 then lo
    else if t == 1 then (lo >> 1) ^ (hi << 7)
    else if t == 2 then (lo >> 2) ^ (hi << 6)
    else if t == 3 then (lo >> 3) ^ (hi << 5)
    else if t == 4 then (lo >> 4) ^ (hi << 4)
    else if t == 5 then (lo >> 5) ^ (hi << 3)
    else if t == 6 then (lo >> 6) ^ (hi << 2)
    else if t == 7 then (lo >> 7) ^ (hi << 1)
    else hi
  }

  lemma SlideStep(a: bv8, b: bv8, c: bv8, t: nat)
    requires t < 8
    ensures Carry(Slide(a, b, t), Slide(b, c, t)) == Slide(b, c, t + 1)
  {
    if t < 4 { SlideStepLow(a, b, c, t); } else { SlideStepHigh(a, b, c, t); }
  }

  lemma SlideStepLow(a: bv8, b: bv8, c: bv8, t: nat)
    requires t < 4
    ensures Carry(Slide(a, b, t), Slide(b, c, t)) == Slide(b, c, t + 1)
  {
    if t == 0 {} else if t == 1 {} else if t == 2 {} else {}
  }

  lemma SlideStepHigh(a: bv8, b: bv8, c: bv8, t: nat)
    requires 4 <= t < 8
    ensures Carry(Slide(a, b, t), Slide(b, c, t)) == Slide(b, c, t + 1)
  {
    if t == 4 {} else if t == 5 {} else if t == 6 {} else {}
  }

  lemma SlideStepFirst(a: bv8, c: bv8, t: nat)
    requires t < 8
    ensures Carry(0, Slide(0, c, t)) == Slide(0, c, t + 1)
    ensures !LowBit(Slide(a, 0, t))
  {
  }

  lemma SlideEnds(a: bv8, b: bv8)
    ensures Slide(a, b, 0) == b && Slide(a, b, 8) == a
  {
  }

  function Before(v: Block, i: int): bv8
    requires i <= 16
  {
    if i <= 0 then 0 else v[i - 1]
  }

  function Slid(v: Block, t: nat): Block
    requires t <= 8
  {
    seq(16, i requires 0 <= i < 16 => Slide(Before(v, i), v[i], t))
  }

  lemma SlidStep(v: Block, t: nat)
    requires t < 8 && v[15] == 0
    ensures MulX(Slid(v, t)) == Slid(v, t + 1)
  {
    hide Slide, Carry, LowBit;
    SlideStepFirst(v[14], v[0], t);
    forall i | 0 <= i < 16
      ensures Shr1(Slid(v, t))[i] == Slid(v, t + 1)[i]
    {
      if i > 0 { SlideStep(Before(v, i - 1), v[i - 1], v[i], t); }
    }
  }

  lemma {:induction false} MulXnSlid(v: Block, t: nat)
    requires t <= 8 && v[15] == 0
    ensures MulXn(Slid(v, t), 8 - t) == Slid(v, 8)
    decreases 8 - t
  {
    hide MulX, Slid;
    if t >= 8 {
    } else {
      SlidStep(v, t);
      MulXnSlid(v, t + 1);
    }
  }

  /** While the last byte is zero nothing is reduced, and eight steps move one byte. */
  lemma MulX8High(s: seq<bv8>)
    requires |s| == 15
    ensures MulXn(s + [0], 8) == [0] + s
  {
    hide MulXn, Slide;
    var v: Block := s + [0];
    forall i | 0 <= i < 16
      ensures Slid(v, 0)[i] == v[i] && Slid(v, 8)[i] == Before(v, i)
    {
      SlideEnds(Before(v, i), v[i]);
    }
    assert Slid(v, 0) == v;
    assert Slid(v, 8) == [0] + s;
    MulXnSlid(v, 0);
  }

  /** Eight multiplications by x: a byte shift, then one entry of R8 added at the front. */
  lemma MulX8(v: Block)
    ensures MulXn(v, 8) == Xor([0] + v[..15], Top(R8(v[15])))
  {
    var b := v[15];
    assert v == Xor(v[..15] + [0], Low(b)) by { XorByteZero(); hide XorByte; }
    hide MulXn, Top, R8, Xor, Low;
    MulXnLinear(v[..15] + [0], Low(b), 8);
    MulX8High(v[..15]);
    KeepEnds(b);
    MulX8Low(b, 8);
    hide R8From, Keep;
  }

  // ---------- the two functions of the C file ----------

  /** Store a row of the table. */
  method SetRow(m: array2<bv32>, b: nat, q: array<bv32>)
    requires m.Length0 == 256 && m.Length1 == 4 && b < 256 && q.Length == 4
    modifies m
    ensures Row(m, b) == q[..]
    ensures forall c: nat :: c < 256 && c != b ==> Row(m, c) == old(Row(m, c))
  {
    m[b, 0] := q[0];
    m[b, 1] := q[1];
    m[b, 2] := q[2];
    m[b, 3] := q[3];
  }

  /** The body of the first loop of makeM8: row i is row 2i times x. */
  method HalveRow(m: array2<bv32>, i: nat, temp: array<bv32>)
    requires m.Length0 == 256 && m.Length1 == 4 && 0 < i <= 64 && temp.Length == 4
    modifies m, temp
    ensures Bytes(Row(m, i)) == MulX(old(Bytes(Row(m, 2 * i))))
    ensures forall c: nat :: c < 256 && c != i ==> Row(m, c) == old(Row(m, c))
  {
    hide Bytes, MulX, Xor, Shr1, QuadShiftr1, Shiftr1, XorW, LowBit;
    ghost var q := Row(m, 2 * i);
    temp[0], temp[1], temp[2], temp[3] := m[2 * i, 0], m[2 * i, 1], m[2 * i, 2], m[2 * i, 3];
    assert temp[..] == q;
    var odd := temp[3] & 1 != 0;
    Shiftr1Words(temp);
    if odd {
      temp[0] := XorW(temp[0], 0xE1000000);
    }
    HalvedBytes(q, odd);
    SetRow(m, i, temp);
  }

  lemma LowWordBit(w: bv32)
    ensures LowBit(Byte3(w)) == (w & 1 != 0)
  {
  }

  lemma HalvedBytes(q: Quad, odd: bool)
    requires odd == (q[3] & 1 != 0)
    ensures var p := QuadShiftr1(q);
            Bytes(if odd then p[0 := XorW(p[0], 0xE1000000)] else p) == MulX(Bytes(q))
  {
    hide Bytes, Shr1, QuadShiftr1, XorW, Xor;
    var p := QuadShiftr1(q);
    QuadShiftr1Bytes(q);
    ReductionWord(p);
    BytesAt(q, 15);
    LowWordBit(q[3]);
  }

  lemma {:induction false} Pow2Order(a: nat, b: nat)
    requires a < b
    ensures Pow2(a) < Pow2(b)
  {
    if a + 1 >= b {
    } else {
      Pow2Order(a, b - 1);
    }
  }

  lemma Pow2Small(k: nat)
    requires k <= 8
    ensures Pow2(k) <= 256 && (k <= 7 ==> Pow2(k) <= 128) && (k <= 6 ==> Pow2(k) <= 64)
  {
    Pow2Values();
    if k < 8 { Pow2Order(k, 8); }
    if k < 7 { Pow2Order(k, 7); }
    if k < 6 { Pow2Order(k, 6); }
  }

  lemma ZeroWords()
    ensures Bytes([0, 0, 0, 0]) == ZERO_BLOCK
  {
  }

  method MakeM8(m: array2<bv32>, h: array<bv32>)
    requires m.Length0 == 256 && m.Length1 == 4 && h.Length == 4
    modifies m
    ensures IsTable(m, Bytes(h[..]))
  {
    hide Bytes, ByteProduct;
    ghost var hb := Bytes(h[..]);
    SetRow(m, 128, h);
    TopIndex(hb);
    PowersOfTwo(m, hb);
    Sums(m, hb);
    var zero := new bv32[4](_ => 0);
    label L:
    SetRow(m, 0, zero);
    NoIndex(hb);
    assert zero[..] == [0, 0, 0, 0];
    ZeroWords();
    forall b: nat | b < 256 ensures RowDone(m, b, hb) {
      if b > 0 { assert old@L(RowDone(m, b, hb)); }
    }
  }

  /** The first loop of makeM8. */
  method PowersOfTwo(m: array2<bv32>, ghost h: Block)
    requires m.Length0 == 256 && m.Length1 == 4
    requires RowDone(m, 128, h)
    modifies m
    ensures forall k: nat :: k <= 7 ==> Pow2(k) < 256 && RowDone(m, Pow2(k), h)
  {
    hide Bytes, ByteProduct, MulX;
    var temp := new bv32[4];
    var i := 64;
    ghost var k := 6;
    Pow2Values();
    while i > 0
      invariant -1 <= k <= 6
      invariant i == if k < 0 then 0 else Pow2(k)
      invariant forall p: nat :: k < p <= 7 ==> Pow2(p) < 256 && RowDone(m, Pow2(p), h)
    {
      Pow2Small(k);
      ghost var before := Row(m, 2 * i);
      assert RowDone(m, Pow2(k + 1), h);
      HalfIndex(i, h);
      label L:
      HalveRow(m, i, temp);
      forall p: nat | k - 1 < p <= 7
        ensures Pow2(p) < 256 && RowDone(m, Pow2(p), h)
      {
        if p > k {
          Pow2Order(k, p);
          assert old@L(RowDone(m, Pow2(p), h));
        }
      }
      i := i / 2;
      k := k - 1;
    }
  }

  method SumRow(m: array2<bv32>, i: nat, j: nat)
    requires m.Length0 == 256 && m.Length1 == 4 && 0 < j < i && i + j < 256
    modifies m
    ensures Bytes(Row(m, i + j)) == Xor(old(Bytes(Row(m, i))), old(Bytes(Row(m, j))))
    ensures forall c: nat :: c < 256 && c != i + j ==> Row(m, c) == old(Row(m, c))
  {
    hide Bytes, XorW;
    ghost var a, b := Row(m, i), Row(m, j);
    XorQuadBytes(a, b);
    m[i + j, 0] := XorW(m[i, 0], m[j, 0]);
    m[i + j, 1] := XorW(m[i, 1], m[j, 1]);
    m[i + j, 2] := XorW(m[i, 2], m[j, 2]);
    m[i + j, 3] := XorW(m[i, 3], m[j, 3]);
    assert Row(m, i + j) == XorQuad(a, b);
  }

  /** The second loop of makeM8. */
  method Sums(m: array2<bv32>, ghost h: Block)
    requires m.Length0 == 256 && m.Length1 == 4
    requires forall k: nat :: k <= 7 ==> Pow2(k) < 256 && RowDone(m, Pow2(k), h)
    modifies m
    ensures forall b: nat :: 0 < b < 256 ==> RowDone(m, b, h)
  {
    hide Bytes, ByteProduct, Xor;
    var i := 2;
    ghost var k := 1;
    assert RowDone(m, Pow2(0), h);
    while i < 256
      invariant 1 <= k <= 8 && i == Pow2(k)
      invariant forall p: nat :: p <= 7 ==> Pow2(p) < 256 && RowDone(m, Pow2(p), h)
      invariant forall b: nat :: 0 < b < i && b < 256 ==> RowDone(m, b, h)
      decreases 256 - i
    {
      Pow2Small(k);
      Pow2Values();
      assert RowDone(m, Pow2(k), h);
      for j := 1 to i
        invariant forall p: nat :: p <= 7 ==> Pow2(p) < 256 && RowDone(m, Pow2(p), h)
        invariant forall b: nat :: 0 < b < i + j ==> RowDone(m, b, h)
      {
        label L:
        IndexSum(k, j, h);
        assert RowDone(m, i, h) && RowDone(m, j, h);
        SumRow(m, i, j);
        forall b: nat | 0 < b < i + j + 1 ensures RowDone(m, b, h) {
          if b != i + j { assert old@L(RowDone(m, b, h)); }
        }
        forall p: nat | p <= 7 ensures Pow2(p) < 256 && RowDone(m, Pow2(p), h) {
          if Pow2(p) != i + j { assert old@L(RowDone(m, Pow2(p), h)); }
        }
      }
      i := i * 2;
      k := k + 1;
    }
    assert k == 8 by { if k <= 7 { Pow2Small(k); } }
  }

  /** The product of the bytes of z from position k on with h, as if they stood first. */
  function Tail(z: Block, k: nat, h: Block): Block
    requires k <= 16
  {
    Select(Bits(z[k..]), h)
  }

  function BitList(b: bv8, n: nat): seq<bool>
    decreases n
  {
    if n == 0 then [] else BitList(HalfByte(b), n - 1) + [LowBit(b)]
  }

  lemma HalfByteValue(b: bv8)
    ensures HalfByte(b) as nat == b as nat / 2
    ensures LowBit(b) == (b as nat % 2 == 1)
  {
  }

  lemma {:induction false} IndexBitsStep(b: bv8, n: nat)
    ensures IndexBits(b as nat, n) == BitList(b, n)
    decreases n
  {
    hide HalfByte, LowBit;
    if n == 0 {
    } else {
      HalfByteValue(b);
      IndexBitsStep(HalfByte(b), n - 1);
    }
  }

  /** The low four bits of a byte, the most significant first. */
  function Nibble(b: bv8): seq<bool> {
    [b & 0x08 != 0, b & 0x04 != 0, b & 0x02 != 0, b & 0x01 != 0]
  }

  lemma BitListNibble(b: bv8)
    ensures BitList(b, 4) == Nibble(b)
  {
  }

  function Halves(b: bv8, n: nat): bv8
    decreases n
  {
    if n == 0 then b else Halves(HalfByte(b), n - 1)
  }

  lemma HighNibbleBits(b: bv8)
    ensures var h := Halves(b, 4);
            (h & 0x08 != 0) == (b & 0x80 != 0) && (h & 0x04 != 0) == (b & 0x40 != 0) &&
            (h & 0x02 != 0) == (b & 0x20 != 0) && (h & 0x01 != 0) == (b & 0x10 != 0)
  {
  }

  lemma {:induction false} BitListSplit(b: bv8, n: nat, m: nat)
    ensures BitList(b, n + m) == BitList(Halves(b, m), n) + BitList(b, m)
    decreases m
  {
    hide HalfByte, LowBit;
    if m == 0 {
    } else {
      BitListSplit(HalfByte(b), n, m - 1);
    }
  }

  lemma ByteBitsAre(b: bv8)
    ensures ByteBits(b) == [b & 0x80 != 0, b & 0x40 != 0, b & 0x20 != 0, b & 0x10 != 0] + Nibble(b)
  {
  }

  lemma ByteBitsNibbles(b: bv8)
    ensures ByteBits(b) == Nibble(Halves(b, 4)) + Nibble(b)
  {
    hide Halves, ByteBits;
    HighNibbleBits(b);
    ByteBitsAre(b);
  }

  /** A byte read as a table index has the bits it has in the bit string. */
  lemma BitsOfByte(b: bv8)
    ensures IndexBits(b as nat, 8) == ByteBits(b)
  {
    IndexBitsStep(b, 8);
    BitListSplit(b, 4, 4);
    hide BitList, Halves, IndexBits, ByteBits, Nibble;
    BitListNibble(b);
    BitListNibble(Halves(b, 4));
    ByteBitsNibbles(b);
  }

  // ---------- the multiplication loop ----------

  lemma TailEnds(z: Block, h: Block)
    ensures Tail(z, 16, h) == ZERO_BLOCK && Tail(z, 0, h) == Mul(z, h)
  {
    assert z[0..] == z;
  }

  /** Horner's rule: the product of a string from its first byte and the product of the rest. */
  lemma TailStep(z: Block, k: nat, h: Block)
    requires k < 16
    ensures Tail(z, k, h) == Xor(ByteProduct(z[k] as nat, h), MulXn(Tail(z, k + 1, h), 8))
  {
    assert z[k..][1..] == z[k + 1..];
    BitsOfByte(z[k]);
    hide MulXn, Xor, IndexBits, ByteBits, Select;
    SelectAppend(ByteBits(z[k]), Bits(z[k + 1..]), h);
    assert Bits(z[k..]) == ByteBits(z[k]) + Bits(z[k + 1..]);
    hide Bits;
    assert |ByteBits(z[k])| == 8 by { ByteBitsLength(z[k]); }
  }

  lemma ByteBitsLength(b: bv8)
    ensures |ByteBits(b)| == 8
  {
  }

  /** The index expression of the loop: byte r of a word, counted from its low end. */
  function ByteFromRight(w: bv32, r: nat): bv8
    requires r < 4
  {
    if r == 0 then Byte3(w) else if r == 1 then Byte2(w) else if r == 2 then Byte1(w) else Byte0(w)
  }

  lemma ByteFromRightAt(q: Quad, i: nat)
    requires i < 16
    ensures ByteFromRight(q[3 - i / 4], i % 4) == Bytes(q)[15 - i]
  {
    hide Byte0, Byte1, Byte2, Byte3, Bytes;
    BytesAt(q, 15 - i);
  }

  method AddRow(w: array<bv32>, m: array2<bv32>, b: nat)
    requires w.Length == 4 && m.Length0 == 256 && m.Length1 == 4 && b < 256
    modifies w
    ensures Bytes(w[..]) == Xor(old(Bytes(w[..])), Bytes(Row(m, b)))
  {
    hide Bytes, XorW;
    ghost var q := w[..];
    XorQuadBytes(q, Row(m, b));
    w[0] := XorW(w[0], m[b, 0]);
    w[1] := XorW(w[1], m[b, 1]);
    w[2] := XorW(w[2], m[b, 2]);
    w[3] := XorW(w[3], m[b, 3]);
    assert w[..] == XorQuad(q, Row(m, b));
  }

  /** SHIFTR( W, 8 ) and the reduction by R8: multiplication by x^8. */
  method TimesX8(w: array<bv32>)
    requires w.Length == 4
    modifies w
    ensures Bytes(w[..]) == MulXn(old(Bytes(w[..])), 8)
  {
    hide Bytes, MulXn, Xor, R8, XorW, Byte0, Byte1, Byte2, Byte3, Shiftr8;
    ghost var v := Bytes(w[..]);
    var temp := Byte3(w[3]);
    BytesAt(w[..], 15);
    QuadShiftr8Bytes(w[..]);
    Shiftr8Words(w);
    ghost var q := w[..];
    AddTop(q, R8(temp));
    MulX8(v);
    w[0] := XorW(w[0], R8(temp));
    assert w[..] == q[0 := XorW(q[0], R8(temp))];
  }

  lemma AddTop(q: Quad, r: bv32)
    ensures Bytes(q[0 := XorW(q[0], r)]) == Xor(Bytes(q), Top(r))
  {
    hide XorW, Bytes;
    XorWZero(q[1]);
    XorWZero(q[2]);
    XorWZero(q[3]);
    assert XorQuad(q, [r, 0, 0, 0]) == q[0 := XorW(q[0], r)];
    XorQuadBytes(q, [r, 0, 0, 0]);
  }

  /** W ^= M[temp]: one step of Horner's rule. */
  method AddByteProduct(w: array<bv32>, m: array2<bv32>, temp: bv8, ghost z: Block, ghost k: nat, ghost h: Block)
    requires w.Length == 4 && IsTable(m, h)
    requires k < 16 && temp == z[k]
    requires Bytes(w[..]) == MulXn(Tail(z, k + 1, h), 8)
    modifies w
    ensures Bytes(w[..]) == Tail(z, k, h)
  {
    hide Bytes, MulXn, Xor, Tail, ByteProduct;
    var b := temp as nat;
    assert RowDone(m, b, h);
    AddRow(w, m, b);
    TailStep(z, k, h);
    XorComm(MulXn(Tail(z, k + 1, h), 8), ByteProduct(b, h));
  }

  method Ghash8Bit(out: array<bv32>, inp: array<bv32>, m: array2<bv32>, ghost h: Block)
    requires out.Length == 4 && inp.Length == 4 && IsTable(m, h)
    modifies out
    ensures Bytes(out[..]) == Mul(Xor(old(Bytes(out[..])), old(Bytes(inp[..]))), h)
  {
    hide Bytes, MulXn, Xor, XorW, Tail, Mul, ByteFromRight, RowDone, IsTable, XorQuad;
    var w := new bv32[4](_ => 0);
    var z := new bv32[4];
    Xor128(z, out, inp);
    ghost var zq := z[..];
    ghost var zb := Bytes(zq);
    assert w[..] == [0, 0, 0, 0];
    ZeroWords();
    TailEnds(zb, h);
    MulXnZero(8);
    for i := 0 to 15
      invariant Bytes(w[..]) == MulXn(Tail(zb, 16 - i, h), 8)
      invariant z[..] == zq
      invariant IsTable(m, h)
    {
      var temp := ByteFromRight(z[3 - i / 4], i % 4);
      ByteFromRightAt(z[..], i);
      AddByteProduct(w, m, temp, zb, 15 - i, h);
      TimesX8(w);
    }
    var temp := ByteFromRight(z[0], 3);
    ByteFromRightAt(z[..], 15);
    AddByteProduct(w, m, temp, zb, 0, h);
    out[0], out[1], out[2], out[3] := w[0], w[1], w[2], w[3];
    assert out[..] == w[..];
  }
}
