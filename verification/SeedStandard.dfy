/** What the SEED functions compute, in the words of RFC 4269: the function G on bytes, sums of
    words as numbers modulo 2^32, the round function, the constants and the key schedule. */
module SeedStandard {
  import opened Words
  import opened Numbers
  import opened Seed
  import opened WordSums

  // ---------- the function G, section 2.2 ----------

  const M0: bv8 := 0xFC
  const M1: bv8 := 0xF3
  const M2: bv8 := 0xCF
  const M3: bv8 := 0x3F

  function And(a: bv8, b: bv8): bv8 { a & b }

  /** The word of one byte under four masks. */
  function Masked(y: bv8, a: bv8, b: bv8, c: bv8, d: bv8): bv32 {
    Word(And(y, a), And(y, b), And(y, c), And(y, d))
  }

  /** The tables SS0 to SS3 made from the S-boxes S1 and S2. */
  function FromBoxes(s1: bv8 -> bv8, s2: bv8 -> bv8): Tables {
    Tables(x => Masked(s1(x), M3, M2, M1, M0), x => Masked(s2(x), M0, M3, M2, M1),
           x => Masked(s1(x), M1, M0, M3, M2), x => Masked(s2(x), M2, M1, M0, M3))
  }

  function Xor4(a: bv8, b: bv8, c: bv8, d: bv8): bv8 {
    XorByte(XorByte(XorByte(a, b), c), d)
  }

  /** The lowest byte is looked up in SS0 and the highest in SS3, whatever the tables hold. */
  lemma LookedUp(t: Tables, x3: bv8, x2: bv8, x1: bv8, x0: bv8)
    ensures G(t, Word(x3, x2, x1, x0)) == XorW(XorW(XorW(t.ss0(x0), t.ss1(x1)), t.ss2(x2)), t.ss3(x3))
  {
    hide Word, Byte0, Byte1, Byte2, Byte3, WordBytes;
    WordParts(x3, x2, x1, x0);
  }

  lemma WordParts(a: bv8, b: bv8, c: bv8, d: bv8)
    ensures Byte0(Word(a, b, c, d)) == a && Byte1(Word(a, b, c, d)) == b
    ensures Byte2(Word(a, b, c, d)) == c && Byte3(Word(a, b, c, d)) == d
  {
  }

  lemma XorFourWords(a: bv32, b: bv32, c: bv32, d: bv32)
    ensures WordBytes(XorW(XorW(XorW(a, b), c), d)) ==
            Xor(Xor(Xor(WordBytes(a), WordBytes(b)), WordBytes(c)), WordBytes(d))
  {
    hide XorW, XorByte, WordBytes;
    XorWord(a, b);
    XorWord(XorW(a, b), c);
    XorWord(XorW(XorW(a, b), c), d);
  }

  lemma XorFour(a: seq<bv8>, b: seq<bv8>, c: seq<bv8>, d: seq<bv8>)
    requires |a| == |b| == |c| == |d| == 4
    ensures Xor(Xor(Xor(a, b), c), d) ==
            [Xor4(a[0], b[0], c[0], d[0]), Xor4(a[1], b[1], c[1], d[1]),
             Xor4(a[2], b[2], c[2], d[2]), Xor4(a[3], b[3], c[3], d[3])]
  {
    hide XorByte;
  }

  function MaskedBytes(y: bv8, a: bv8, b: bv8, c: bv8, d: bv8): (r: seq<bv8>)
    ensures |r| == 4
  {
    [And(y, a), And(y, b), And(y, c), And(y, d)]
  }

  lemma MaskedWord(y: bv8, a: bv8, b: bv8, c: bv8, d: bv8)
    ensures WordBytes(Masked(y, a, b, c, d)) == MaskedBytes(y, a, b, c, d)
  {
    hide Word, And, WordBytes;
    WordBytesRoundTrip(And(y, a), And(y, b), And(y, c), And(y, d));
  }

  lemma MaskedSum(y3: bv8, y2: bv8, y1: bv8, y0: bv8)
    ensures WordBytes(XorW(XorW(XorW(Masked(y0, M3, M2, M1, M0), Masked(y1, M0, M3, M2, M1)),
                                Masked(y2, M1, M0, M3, M2)), Masked(y3, M2, M1, M0, M3))) ==
            [Xor4(And(y0, M3), And(y1, M0), And(y2, M1), And(y3, M2)),
             Xor4(And(y0, M2), And(y1, M3), And(y2, M0), And(y3, M1)),
             Xor4(And(y0, M1), And(y1, M2), And(y2, M3), And(y3, M0)),
             Xor4(And(y0, M0), And(y1, M1), And(y2, M2), And(y3, M3))]
  {
    hide XorW, WordBytes, Xor4, And, Masked, Xor;
    XorFourWords(Masked(y0, M3, M2, M1, M0), Masked(y1, M0, M3, M2, M1),
                 Masked(y2, M1, M0, M3, M2), Masked(y3, M2, M1, M0, M3));
    MaskedWord(y0, M3, M2, M1, M0);
    MaskedWord(y1, M0, M3, M2, M1);
    MaskedWord(y2, M1, M0, M3, M2);
    MaskedWord(y3, M2, M1, M0, M3);
    XorFour(MaskedBytes(y0, M3, M2, M1, M0), MaskedBytes(y1, M0, M3, M2, M1),
            MaskedBytes(y2, M1, M0, M3, M2), MaskedBytes(y3, M2, M1, M0, M3));
  }

  /** The four formulas of section 2.2: S1 is taken of the even bytes and S2 of the odd ones,
      and each byte of the result adds the four under the masks, which move on by one. */
  lemma GFormula(s1: bv8 -> bv8, s2: bv8 -> bv8, x3: bv8, x2: bv8, x1: bv8, x0: bv8)
    ensures var y3, y2, y1, y0 := s2(x3), s1(x2), s2(x1), s1(x0);
            WordBytes(G(FromBoxes(s1, s2), Word(x3, x2, x1, x0))) ==
            [Xor4(And(y0, M3), And(y1, M0), And(y2, M1), And(y3, M2)),
             Xor4(And(y0, M2), And(y1, M3), And(y2, M0), And(y3, M1)),
             Xor4(And(y0, M1), And(y1, M2), And(y2, M3), And(y3, M0)),
             Xor4(And(y0, M0), And(y1, M1), And(y2, M2), And(y3, M3))]
  {
    hide G, Word, XorW, WordBytes, Xor4, And, Masked;
    LookedUp(FromBoxes(s1, s2), x3, x2, x1, x0);
    MaskedSum(s2(x3), s1(x2), s2(x1), s1(x0));
  }

  // ---------- the round function, section 2.1 ----------

  lemma XorWOrder(c: bv32, d: bv32, k0: bv32, k1: bv32)
    ensures XorW(XorW(d, k1), XorW(c, k0)) == XorW(XorW(c, k0), XorW(d, k1))
  {
  }

  /** The two formulas of section 2.1 for C' and D': with g1 the value of G at
      (C + K0) + (D + K1), added without carries, g2 its value at g1 plus (C + K0) and g3
      its value at g2 plus g1, D' is g3 and C' is g3 plus g2, modulo 2^32. */
  lemma RoundFormula(t: Tables, c: bv32, d: bv32, k0: bv32, k1: bv32, s1: bv32, s2: bv32, s3: bv32)
    requires IsSum(s1, G(t, XorW(XorW(c, k0), XorW(d, k1))), XorW(c, k0))
    requires IsSum(s2, G(t, s1), G(t, XorW(XorW(c, k0), XorW(d, k1))))
    requires IsSum(s3, G(t, s2), G(t, s1))
    ensures F(t, Half(c, d), Half(k0, k1)) == Half(s3, G(t, s2))
  {
    hide G, XorW, AddW, IsSum;
    var e, g1 := XorW(c, k0), G(t, XorW(XorW(c, k0), XorW(d, k1)));
    XorWOrder(c, d, k0, k1);
    SumIsAdd(s1, g1, e);
    SumIsAdd(s2, G(t, s1), g1);
    SumIsAdd(s3, G(t, s2), G(t, s1));
    AddOrder(g1, e);
    AddOrder(G(t, s1), g1);
    AddOrder(G(t, s2), G(t, s1));
  }

  lemma AddOrder(a: bv32, b: bv32)
    ensures AddW(a, b) == AddW(b, a)
  {
  }

  // ---------- sixteen rounds ----------

  /** The halves before and after each round: with each round they change places, and the
      round function of the right half with the round's two key words goes into the left. */
  ghost predicate IsTrace(t: Tables, rk: RoundKeys, ls: seq<Half>, rs: seq<Half>) {
    && |ls| == |rs| == 17
    && forall i :: 0 <= i < 16 ==> StepOf(t, rk[2 * i], rk[2 * i + 1], ls[i], rs[i], ls[i + 1], rs[i + 1])
  }

  ghost predicate StepOf(t: Tables, k0: bv32, k1: bv32, l: Half, r: Half, l': Half, r': Half) {
    var f := F(t, r, Half(k0, k1));
    l' == r && r' == Half(XorW(l.h0, f.h0), XorW(l.h1, f.h1))
  }

  lemma {:induction false} TraceRuns(t: Tables, rk: RoundKeys, ls: seq<Half>, rs: seq<Half>, n: nat)
    requires n <= 16 && IsTrace(t, rk, ls, rs)
    ensures Run(t, ls[0], rs[0], Pairs(rk)[..n]) == (ls[n], rs[n])
  {
    hide F, XorW, Run, Pairs;
    if n == 0 {
      RunNone(t, ls[0], rs[0]);
    } else {
      TraceRuns(t, rk, ls, rs, n - 1);
      var ks := Pairs(rk);
      assert ks[..n] == ks[..n - 1] + [ks[n - 1]];
      RunAppend(t, ls[0], rs[0], ks[..n - 1], ks[n - 1]);
      PairAt(rk, n - 1);
      assert StepOf(t, rk[2 * (n - 1)], rk[2 * (n - 1) + 1], ls[n - 1], rs[n - 1], ls[n], rs[n]);
    }
  }

  /** Encryption takes the rounds in the order of the keys, two words for each, and returns
      the halves of the last state exchanged. */
  lemma EncryptTrace(t: Tables, rk: RoundKeys, q: Quad, ls: seq<Half>, rs: seq<Half>)
    requires IsTrace(t, rk, ls, rs)
    requires ls[0] == Half(q[0], q[1]) && rs[0] == Half(q[2], q[3])
    ensures Encrypt(t, rk, q) == [rs[16].h0, rs[16].h1, ls[16].h0, ls[16].h1]
  {
    hide Run, Pairs, IsTrace;
    TraceRuns(t, rk, ls, rs, 16);
    assert Pairs(rk)[..16] == Pairs(rk);
  }

  // ---------- the key schedule, section 2.3 ----------

  function RotL1(w: bv32): bv32 { (w << 1) | (w >> 31) }

  /** The sixteen key constants. */
  ghost predicate AreConstants(kc: seq<bv32>) {
    |kc| == 16 && kc[0] == 0x9e3779b9 && forall i :: 0 <= i < 15 ==> kc[i + 1] == RotL1(kc[i])
  }

  lemma ConstantAfter(i: nat)
    requires i < 15
    ensures KC(i + 1) == RotL1(KC(i))
  {
  }

  /** Each constant is the one before rotated left by one bit, from 0x9e3779b9 on. */
  lemma {:induction false} ConstantIs(kc: seq<bv32>, i: nat)
    requires i < 16 && AreConstants(kc)
    ensures KC(i) == kc[i]
  {
    hide RotL1;
    if i == 0 {
    } else {
      ConstantIs(kc, i - 1);
      hide KC;
      ConstantAfter(i - 1);
      assert kc[i - 1 + 1] == RotL1(kc[i - 1]);
    }
  }

  /** The halves A, B and C, D of the key before each round: the first is rotated right by a
      byte after every even round, the second left by a byte after every odd one. */
  ghost predicate AreHalves(key: Block, ab: seq<seq<bv8>>, cd: seq<seq<bv8>>) {
    && |ab| == |cd| == 16 && ab[0] == key[..8] && cd[0] == key[8..]
    && forall i :: 0 <= i < 15 ==> |ab[i]| == |cd[i]| == 8 && NextHalves(i, ab[i], cd[i], ab[i + 1], cd[i + 1])
  }

  ghost predicate NextHalves(i: nat, ab: seq<bv8>, cd: seq<bv8>, ab': seq<bv8>, cd': seq<bv8>)
    requires |ab| == |cd| == 8
  {
    if i % 2 == 0 then ab' == [ab[7]] + ab[..7] && cd' == cd else ab' == ab && cd' == cd[1..] + [cd[0]]
  }

  lemma {:induction false} HalvesAre(key: Block, ab: seq<seq<bv8>>, cd: seq<seq<bv8>>, i: nat)
    requires i < 16 && AreHalves(key, ab, cd)
    ensures ab[i] == RotateRight(key[..8], (i + 1) / 2) && cd[i] == RotateRight(key[8..], 8 - i / 2)
  {
    hide RotateRight;
    if i == 0 {
      NoRotation(key[..8]);
      NoRotation(key[8..]);
    } else {
      HalvesAre(key, ab, cd, i - 1);
      assert NextHalves(i - 1, ab[i - 1], cd[i - 1], ab[i - 1 + 1], cd[i - 1 + 1]);
      if i % 2 == 1 {
        RotatedByOne(ab[i - 1]);
        RotateMore(key[..8], i / 2);
      } else {
        RotatedByOne(cd[i - 1]);
        RotateMore(key[8..], 8 - i / 2);
      }
    }
  }

  lemma NoRotation(s: seq<bv8>)
    requires |s| == 8
    ensures RotateRight(s, 0) == s && RotateRight(s, 8) == s
  {
  }

  lemma RotatedByOne(s: seq<bv8>)
    requires |s| == 8
    ensures RotateRight(s, 1) == [s[7]] + s[..7] && RotateRight(s, 7) == s[1..] + [s[0]]
  {
  }

  /** The schedule of section 2.3: the words of round i are G of A plus C less the constant and
      G of B less D plus the constant, the differences being of numbers modulo 2^32. */
  lemma ScheduleFormula(t: Tables, key: Block, ab: seq<seq<bv8>>, cd: seq<seq<bv8>>, kc: seq<bv32>,
                        i: nat, t0: bv32, t1: bv32)
    requires AreHalves(key, ab, cd) && AreConstants(kc) && i < 16
    requires |ab[i]| == |cd[i]| == 8
    requires SameSum(t0, kc[i], WordAt(ab[i], 0), WordAt(cd[i], 0))
    requires SameSum(t1, WordAt(cd[i], 4), WordAt(ab[i], 4), kc[i])
    ensures Schedule(t, key)[2 * i] == G(t, t0)
    ensures Schedule(t, key)[2 * i + 1] == G(t, t1)
  {
    hide WordAt, RotateRight, G, AddW, SubW, KC, Schedule, SameSum;
    HalvesAre(key, ab, cd, i);
    ConstantIs(kc, i);
    var a, b, c, d := WordAt(ab[i], 0), WordAt(ab[i], 4), WordAt(cd[i], 0), WordAt(cd[i], 4);
    DifferenceIs(t0, kc[i], a, c);
    DifferenceIs(t1, d, b, kc[i]);
    RoundKeyAt(t, key, i, a, b, c, d);
  }
}
