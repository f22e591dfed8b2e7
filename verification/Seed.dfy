/** The SEED block cipher: key schedule, sixteen Feistel rounds and their reversal.
    The four lookup tables SS0..SS3 are parameters; what G and the schedule are for tables made
    from the two S-boxes is in SeedStandard. */
module Seed {
  import opened Words
  import opened Shifts
  import opened WordSums

  datatype Tables = Tables(ss0: bv8 -> bv32, ss1: bv8 -> bv32, ss2: bv8 -> bv32, ss3: bv8 -> bv32)

  type RoundKeys = s: seq<bv32> | |s| == 32 witness seq(32, _ => 0)

  /** The function G: one table lookup for each byte of the word. */
  function G(t: Tables, x: bv32): bv32 {
    t.ss0(Byte3(x)) ^ t.ss1(Byte2(x)) ^ t.ss2(Byte1(x)) ^ t.ss3(Byte0(x))
  }

  // ---------- rounds ----------

  /** Half a block: two words. */
  datatype Half = Half(h0: bv32, h1: bv32)

  function XorHalf(a: Half, b: Half): Half {
    Half(XorW(a.h0, b.h0), XorW(a.h1, b.h1))
  }

  /** What a round adds to the left half, as a function of the right half and the round key. */
  function F(t: Tables, r: Half, k: Half): Half {
    var t0 := XorW(r.h0, k.h0);
    var t1 := G(t, XorW(XorW(r.h1, k.h1), t0));
    var u0 := G(t, AddW(t0, t1));
    var u1 := G(t, AddW(t1, u0));
    Half(AddW(u0, u1), u1)
  }

  /** The rounds with keys ks, the halves changing places after each. */
  function Run(t: Tables, l: Half, r: Half, ks: seq<Half>): (Half, Half)
    decreases |ks|
  {
    if ks == [] then (l, r) else Run(t, r, XorHalf(l, F(t, r, ks[0])), ks[1..])
  }

  function Reverse(ks: seq<Half>): (r: seq<Half>)
    ensures |r| == |ks|
  {
    if ks == [] then [] else Reverse(ks[1..]) + [ks[0]]
  }

  lemma XorWCancel(a: bv32, b: bv32)
    ensures XorW(XorW(a, b), b) == a
  {
  }

  lemma XorHalfCancel(a: Half, b: Half)
    ensures XorHalf(XorHalf(a, b), b) == a
  {
    hide XorW;
    XorWCancel(a.h0, b.h0);
    XorWCancel(a.h1, b.h1);
  }

  lemma {:induction false} RunAppend(t: Tables, l: Half, r: Half, ks: seq<Half>, k: Half)
    ensures Run(t, l, r, ks + [k]) ==
            var (a, b) := Run(t, l, r, ks); (b, XorHalf(a, F(t, b, k)))
    decreases |ks|
  {
    hide F, XorHalf;
    if ks == [] {
      assert Run(t, r, XorHalf(l, F(t, r, k)), []) == (r, XorHalf(l, F(t, r, k)));
    } else {
      assert (ks + [k])[1..] == ks[1..] + [k];
      RunAppend(t, r, XorHalf(l, F(t, r, ks[0])), ks[1..], k);
    }
  }

  /** Any number of Feistel rounds is undone by the same rounds with the keys reversed,
      started from the halves exchanged, whatever the round function is. */
  lemma {:induction false} FeistelInverse(t: Tables, l: Half, r: Half, ks: seq<Half>)
    ensures var (a, b) := Run(t, l, r, ks); Run(t, b, a, Reverse(ks)) == (r, l)
    decreases |ks|
  {
    hide F, XorHalf;
    if ks == [] {
    } else {
      var f := F(t, r, ks[0]);
      FeistelInverse(t, r, XorHalf(l, f), ks[1..]);
      var (a, b) := Run(t, l, r, ks);
      RunAppend(t, b, a, Reverse(ks[1..]), ks[0]);
      XorHalfCancel(l, f);
    }
  }

  /** The sixteen pairs of round-key words. */
  function Pairs(rk: RoundKeys): (r: seq<Half>)
    ensures |r| == 16
  {
    seq(16, i requires 0 <= i < 16 => Half(rk[2 * i], rk[2 * i + 1]))
  }

  function Rounds(t: Tables, q: Quad, ks: seq<Half>): Quad {
    var (a, b) := Run(t, Half(q[0], q[1]), Half(q[2], q[3]), ks);
    [b.h0, b.h1, a.h0, a.h1]
  }

  function Encrypt(t: Tables, rk: RoundKeys, q: Quad): Quad {
    Rounds(t, q, Pairs(rk))
  }

  function Decrypt(t: Tables, rk: RoundKeys, q: Quad): Quad {
    Rounds(t, q, Reverse(Pairs(rk)))
  }

  lemma {:induction false} ReverseAppend(ks: seq<Half>, k: Half)
    ensures Reverse(ks + [k]) == [k] + Reverse(ks)
  {
    if ks == [] {
    } else {
      assert (ks + [k])[1..] == ks[1..] + [k];
      ReverseAppend(ks[1..], k);
    }
  }

  lemma {:induction false} ReverseTwice(ks: seq<Half>)
    ensures Reverse(Reverse(ks)) == ks
  {
    if ks == [] {
    } else {
      ReverseTwice(ks[1..]);
      ReverseAppend(Reverse(ks[1..]), ks[0]);
    }
  }

  /** Decryption undoes encryption and encryption undoes decryption, for any thirty-two
      round keys and any tables. */
  lemma DecryptEncrypt(t: Tables, rk: RoundKeys, q: Quad)
    ensures Decrypt(t, rk, Encrypt(t, rk, q)) == q
    ensures Encrypt(t, rk, Decrypt(t, rk, q)) == q
  {
    hide Run, Pairs;
    var ks := Pairs(rk);
    FeistelInverse(t, Half(q[0], q[1]), Half(q[2], q[3]), ks);
    FeistelInverse(t, Half(q[0], q[1]), Half(q[2], q[3]), Reverse(ks));
    ReverseTwice(ks);
  }

  // ---------- the C functions ----------

  /** The macro SeedRound: the pair l is changed in place. */
  method SeedRound(t: Tables, l: Half, r: Half, k: Half) returns (l': Half)
    ensures l' == XorHalf(l, F(t, r, k))
  {
    hide G, XorW, AddW;
    var t0 := XorW(r.h0, k.h0);
    var t1 := XorW(r.h1, k.h1);
    t1 := XorW(t1, t0);
    t1 := G(t, t1);
    t0 := AddW(t0, t1);
    t0 := G(t, t0);
    t1 := AddW(t1, t0);
    t1 := G(t, t1);
    t0 := AddW(t0, t1);
    l' := Half(XorW(l.h0, t0), XorW(l.h1, t1));
  }

  lemma RunTwo(t: Tables, l: Half, r: Half, ks: seq<Half>, i: nat)
    requires i + 2 <= |ks|
    ensures var (a, b) := Run(t, l, r, ks[..i]);
            var a' := XorHalf(a, F(t, b, ks[i]));
            Run(t, l, r, ks[..i + 2]) == (a', XorHalf(b, F(t, a', ks[i + 1])))
  {
    hide F, XorHalf, Run;
    assert ks[..i + 1] == ks[..i] + [ks[i]];
    assert ks[..i + 2] == ks[..i + 1] + [ks[i + 1]];
    RunAppend(t, l, r, ks[..i], ks[i]);
    RunAppend(t, l, r, ks[..i + 1], ks[i + 1]);
  }

  /** SEED_Encrypt; the output may overwrite the input. */
  method SeedEncrypt(t: Tables, pOut: array<bv32>, pIn: array<bv32>, rKey: array<bv32>)
    requires pOut.Length == 4 && pIn.Length == 4 && rKey.Length == 32 && rKey != pOut
    modifies pOut
    ensures pOut[..] == Encrypt(t, rKey[..], old(pIn[..]))
  {
    hide F, XorHalf, Run, Pairs;
    ghost var ks := Pairs(rKey[..]);
    var l, r := Half(pIn[0], pIn[1]), Half(pIn[2], pIn[3]);
    ghost var l0, r0 := l, r;
    assert Run(t, l, r, ks[..0]) == (l, r) by { RunNone(t, l, r); }
    for i := 0 to 8
      invariant (l, r) == Run(t, l0, r0, ks[..2 * i])
    {
      RunTwo(t, l0, r0, ks, 2 * i);
      PairAt(rKey[..], 2 * i);
      PairAt(rKey[..], 2 * i + 1);
      l := SeedRound(t, l, r, Half(rKey[4 * i], rKey[4 * i + 1]));
      r := SeedRound(t, r, l, Half(rKey[4 * i + 2], rKey[4 * i + 3]));
    }
    assert ks[..16] == ks;
    pOut[0], pOut[1], pOut[2], pOut[3] := r.h0, r.h1, l.h0, l.h1;
    assert pOut[..] == [r.h0, r.h1, l.h0, l.h1];
  }

  lemma RunNone(t: Tables, l: Half, r: Half)
    ensures Run(t, l, r, []) == (l, r)
  {
  }

  lemma PairAt(rk: RoundKeys, i: nat)
    requires i < 16
    ensures Pairs(rk)[i] == Half(rk[2 * i], rk[2 * i + 1])
  {
  }

  lemma {:induction false} ReverseAt(ks: seq<Half>, i: nat)
    requires i < |ks|
    ensures Reverse(ks)[i] == ks[|ks| - 1 - i]
  {
    if i >= |ks| - 1 {
    } else {
      ReverseAt(ks[1..], i);
    }
  }

  lemma ReversedPairs(rk: RoundKeys, i: nat)
    requires i < 8
    ensures Reverse(Pairs(rk))[2 * i] == Half(rk[30 - 4 * i], rk[31 - 4 * i])
    ensures Reverse(Pairs(rk))[2 * i + 1] == Half(rk[28 - 4 * i], rk[29 - 4 * i])
  {
    ReverseAt(Pairs(rk), 2 * i);
    ReverseAt(Pairs(rk), 2 * i + 1);
    PairAt(rk, 15 - 2 * i);
    PairAt(rk, 14 - 2 * i);
    hide Pairs, Reverse;
  }

  /** SEED_Decrypt: the rounds of SEED_Encrypt with the key pairs taken from the end. */
  method SeedDecrypt(t: Tables, pOut: array<bv32>, pIn: array<bv32>, rKey: array<bv32>)
    requires pOut.Length == 4 && pIn.Length == 4 && rKey.Length == 32 && rKey != pOut
    modifies pOut
    ensures pOut[..] == Decrypt(t, rKey[..], old(pIn[..]))
  {
    hide F, XorHalf, Run, Pairs, Reverse;
    ghost var ks := Reverse(Pairs(rKey[..]));
    var l, r := Half(pIn[0], pIn[1]), Half(pIn[2], pIn[3]);
    ghost var l0, r0 := l, r;
    assert Run(t, l, r, ks[..0]) == (l, r) by { RunNone(t, l, r); }
    for i := 0 to 8
      invariant (l, r) == Run(t, l0, r0, ks[..2 * i])
    {
      RunTwo(t, l0, r0, ks, 2 * i);
      ReversedPairs(rKey[..], i);
      l := SeedRound(t, l, r, Half(rKey[30 - 4 * i], rKey[31 - 4 * i]));
      r := SeedRound(t, r, l, Half(rKey[28 - 4 * i], rKey[29 - 4 * i]));
    }
    assert ks[..16] == ks;
    pOut[0], pOut[1], pOut[2], pOut[3] := r.h0, r.h1, l.h0, l.h1;
    assert pOut[..] == [r.h0, r.h1, l.h0, l.h1];
  }

  // ---------- the key schedule ----------

  /** The constants KC0 to KC15. */
  function KC(i: nat): bv32
    requires i < 16
  {
    [0x9e3779b9, 0x3c6ef373, 0x78dde6e6, 0xf1bbcdcc, 0xe3779b99, 0xc6ef3733, 0x8dde6e67, 0x1bbcdccf,
     0x3779b99e, 0x6ef3733c, 0xdde6e678, 0xbbcdccf1, 0x779b99e3, 0xef3733c6, 0xde6e678d, 0xbcdccf1b][i]
  }

  function T0(a: bv32, c: bv32, kc: bv32): bv32 { SubW(AddW(a, c), kc) }

  function T1(b: bv32, d: bv32, kc: bv32): bv32 { SubW(AddW(b, kc), d) }

  /** The second key input as the last round writes it. */
  function LastT1(b: bv32, d: bv32, kc: bv32): bv32 { AddW(SubW(b, d), kc) }

  /** Eight bytes rotated right by n places. */
  function RotateRight(s: seq<bv8>, n: nat): seq<bv8>
    requires |s| == 8 && n <= 8
    ensures |RotateRight(s, n)| == 8
  {
    s[8 - n..] + s[..8 - n]
  }

  function WordAt(s: seq<bv8>, i: nat): bv32
    requires i + 4 <= |s|
  {
    Word(s[i], s[i + 1], s[i + 2], s[i + 3])
  }

  /** Round key i in closed form: the first half of the key has been rotated right by
      one byte after every even round, the second half left by one byte after every odd one. */
  function RoundKey(t: Tables, key: Block, i: nat): Half
    requires i < 16
  {
    var ab := RotateRight(key[..8], (i + 1) / 2);
    var cd := RotateRight(key[8..], 8 - i / 2);
    var a, b, c, d := WordAt(ab, 0), WordAt(ab, 4), WordAt(cd, 0), WordAt(cd, 4);
    Half(G(t, T0(a, c, KC(i))), G(t, T1(b, d, KC(i))))
  }

  ghost function Schedule(t: Tables, key: Block): RoundKeys {
    seq(32, i requires 0 <= i < 32 =>
      if i % 2 == 0 then RoundKey(t, key, i / 2).h0 else RoundKey(t, key, i / 2).h1)
  }

  function ShiftLeft8(w: bv32, right: bv32): bv32 { (w << 8) ^ (right >> 24) }

  lemma RotateRightWords(s: seq<bv8>)
    requires |s| == 8
    ensures var r := RotateRight(s, 1);
            WordAt(r, 0) == Shiftr8(WordAt(s, 0), WordAt(s, 4)) &&
            WordAt(r, 4) == Shiftr8(WordAt(s, 4), WordAt(s, 0))
  {
    Shiftr8Word(s[0], s[1], s[2], s[3], s[4], s[5], s[6], s[7]);
    Shiftr8Word(s[4], s[5], s[6], s[7], s[0], s[1], s[2], s[3]);
    hide Word, Shiftr8;
  }

  lemma Shiftr8Word(a: bv8, b: bv8, c: bv8, d: bv8, e: bv8, f: bv8, g: bv8, h: bv8)
    ensures Shiftr8(Word(a, b, c, d), Word(e, f, g, h)) == Word(h, a, b, c)
  {
  }

  lemma ShiftLeft8Word(a: bv8, b: bv8, c: bv8, d: bv8, e: bv8, f: bv8, g: bv8, h: bv8)
    ensures ShiftLeft8(Word(a, b, c, d), Word(e, f, g, h)) == Word(b, c, d, e)
  {
  }

  lemma RotateLeftWords(s: seq<bv8>)
    requires |s| == 8
    ensures var r := RotateRight(s, 7);
            WordAt(r, 0) == ShiftLeft8(WordAt(s, 0), WordAt(s, 4)) &&
            WordAt(r, 4) == ShiftLeft8(WordAt(s, 4), WordAt(s, 0))
  {
    ShiftLeft8Word(s[0], s[1], s[2], s[3], s[4], s[5], s[6], s[7]);
    ShiftLeft8Word(s[4], s[5], s[6], s[7], s[0], s[1], s[2], s[3]);
    hide Word, ShiftLeft8;
  }

  lemma RotateMore(s: seq<bv8>, n: nat)
    requires |s| == 8 && n < 8
    ensures RotateRight(RotateRight(s, n), 1) == RotateRight(s, n + 1)
    ensures RotateRight(RotateRight(s, n + 1), 7) == RotateRight(s, n)
  {
  }

  lemma LastKeyWord(b: bv32, d: bv32, k: bv32)
    ensures LastT1(b, d, k) == T1(b, d, k)
  {
    hide AddW, SubW;
    SubThenAdd(b, d, k);
  }

  /** The registers A, B, C, D before round i. */
  ghost predicate AtRound(key: Block, i: nat, a: bv32, b: bv32, c: bv32, d: bv32)
    requires i < 16
  {
    var ab := RotateRight(key[..8], (i + 1) / 2);
    var cd := RotateRight(key[8..], 8 - i / 2);
    a == WordAt(ab, 0) && b == WordAt(ab, 4) && c == WordAt(cd, 0) && d == WordAt(cd, 4)
  }

  lemma EvenRound(key: Block, i: nat, a: bv32, b: bv32, c: bv32, d: bv32)
    requires i < 15 && i % 2 == 0 && AtRound(key, i, a, b, c, d)
    ensures AtRound(key, i + 1, Shiftr8(a, b), Shiftr8(b, a), c, d)
  {
    hide WordAt, Shiftr8, RotateRight;
    RotatedRight(key[..8], i / 2);
  }

  lemma OddRound(key: Block, i: nat, a: bv32, b: bv32, c: bv32, d: bv32)
    requires i < 15 && i % 2 == 1 && AtRound(key, i, a, b, c, d)
    ensures AtRound(key, i + 1, a, b, ShiftLeft8(c, d), ShiftLeft8(d, c))
  {
    hide WordAt, ShiftLeft8, RotateRight;
    RotatedLeft(key[8..], 7 - i / 2);
  }

  /** The rotation at the end of RoundKeyUpdate0 (even rounds) and RoundKeyUpdate1 (odd rounds). */
  method RotateRegisters(ghost key: Block, i: nat, a: bv32, b: bv32, c: bv32, d: bv32)
    returns (a': bv32, b': bv32, c': bv32, d': bv32)
    requires i < 15 && AtRound(key, i, a, b, c, d)
    ensures AtRound(key, i + 1, a', b', c', d')
  {
    hide AtRound, Shiftr8, ShiftLeft8;
    a', b', c', d' := a, b, c, d;
    if i % 2 == 0 {
      EvenRound(key, i, a, b, c, d);
      var t0 := a';
      a' := Shiftr8(a', b');
      b' := Shiftr8(b', t0);
    } else {
      OddRound(key, i, a, b, c, d);
      var t0 := c';
      c' := ShiftLeft8(c', d');
      d' := ShiftLeft8(d', t0);
    }
  }

  lemma RoundKeyValue(t: Tables, key: Block, i: nat, a: bv32, b: bv32, c: bv32, d: bv32)
    requires i < 16 && AtRound(key, i, a, b, c, d)
    ensures RoundKey(t, key, i) == Half(G(t, T0(a, c, KC(i))), G(t, T1(b, d, KC(i))))
  {
    hide WordAt, RotateRight, G, T0, T1, KC;
  }

  lemma ScheduleAt(t: Tables, key: Block, i: nat)
    requires i < 16
    ensures Schedule(t, key)[2 * i] == RoundKey(t, key, i).h0
    ensures Schedule(t, key)[2 * i + 1] == RoundKey(t, key, i).h1
  {
    hide RoundKey;
  }

  lemma RoundKeyAt(t: Tables, key: Block, i: nat, a: bv32, b: bv32, c: bv32, d: bv32)
    requires i < 16 && AtRound(key, i, a, b, c, d)
    ensures Schedule(t, key)[2 * i] == G(t, T0(a, c, KC(i)))
    ensures Schedule(t, key)[2 * i + 1] == G(t, T1(b, d, KC(i)))
  {
    hide RoundKey, Schedule, G, T0, T1, KC, AtRound;
    RoundKeyValue(t, key, i, a, b, c, d);
    ScheduleAt(t, key, i);
  }

  /** Two words of one round. */
  method StoreRoundKey(t: Tables, rKey: array<bv32>, ghost key: Block, i: nat, a: bv32, b: bv32, c: bv32, d: bv32)
    requires rKey.Length == 32 && i < 15 && AtRound(key, i, a, b, c, d)
    requires rKey[..2 * i] == Schedule(t, key)[..2 * i]
    modifies rKey
    ensures rKey[..2 * i + 2] == Schedule(t, key)[..2 * i + 2]
  {
    hide G, T0, T1, AtRound, Schedule, KC;
    RoundKeyAt(t, key, i, a, b, c, d);
    rKey[2 * i] := G(t, T0(a, c, KC(i)));
    rKey[2 * i + 1] := G(t, T1(b, d, KC(i)));
  }

  /** SEED_KeySched: fifteen updates that rotate A, B or C, D, and a last pair of keys. */
  method SeedKeySched(t: Tables, mKey: array<bv8>, rKey: array<bv32>)
    requires mKey.Length == 16 && rKey.Length == 32
    modifies rKey
    ensures rKey[..] == Schedule(t, mKey[..])
  {
    hide G, Word, T0, T1, LastT1, AtRound, Schedule, KC;
    ghost var key: Block := mKey[..];
    var a := Word(mKey[0], mKey[1], mKey[2], mKey[3]);
    var b := Word(mKey[4], mKey[5], mKey[6], mKey[7]);
    var c := Word(mKey[8], mKey[9], mKey[10], mKey[11]);
    var d := Word(mKey[12], mKey[13], mKey[14], mKey[15]);
    KeyWords(key);
    for i := 0 to 15
      invariant AtRound(key, i, a, b, c, d)
      invariant rKey[..2 * i] == Schedule(t, key)[..2 * i]
    {
      StoreRoundKey(t, rKey, key, i, a, b, c, d);
      a, b, c, d := RotateRegisters(key, i, a, b, c, d);
    }
    RoundKeyAt(t, key, 15, a, b, c, d);
    LastKeyWord(b, d, KC(15));
    rKey[30] := G(t, T0(a, c, KC(15)));
    rKey[31] := G(t, LastT1(b, d, KC(15)));
  }

  lemma KeyWords(key: Block)
    ensures AtRound(key, 0, Word(key[0], key[1], key[2], key[3]), Word(key[4], key[5], key[6], key[7]),
                    Word(key[8], key[9], key[10], key[11]), Word(key[12], key[13], key[14], key[15]))
  {
    hide Word;
    assert RotateRight(key[..8], 0) == key[..8];
    assert RotateRight(key[8..], 8) == key[8..];
  }

  lemma RotatedRight(s: seq<bv8>, n: nat)
    requires |s| == 8 && n < 8
    ensures var p, r := RotateRight(s, n), RotateRight(s, n + 1);
            WordAt(r, 0) == Shiftr8(WordAt(p, 0), WordAt(p, 4)) &&
            WordAt(r, 4) == Shiftr8(WordAt(p, 4), WordAt(p, 0))
  {
    RotateMore(s, n);
    RotateRightWords(RotateRight(s, n));
  }

  lemma RotatedLeft(s: seq<bv8>, n: nat)
    requires |s| == 8 && n < 8
    ensures var p, r := RotateRight(s, n + 1), RotateRight(s, n);
            WordAt(r, 0) == ShiftLeft8(WordAt(p, 0), WordAt(p, 4)) &&
            WordAt(r, 4) == ShiftLeft8(WordAt(p, 4), WordAt(p, 0))
  {
    RotateMore(s, n);
    RotateLeftWords(RotateRight(s, n + 1));
  }
}
