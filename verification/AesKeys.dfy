/** The AES-128 key schedules of Aes.c and the proof that decryption with the one undoes
    encryption with the other. */
module AesKeys {
  import opened Words
  import opened AesSpec
  import opened Aes

  // ---------- KeyExpansion, section 5.2 of FIPS 197 ----------

  function RotWord(w: bv32): bv32 { Word(Byte1(w), Byte2(w), Byte3(w), Byte0(w)) }

  function SubWord(sb: Sbox, w: bv32): bv32 {
    Word(sb.s(Byte0(w)), sb.s(Byte1(w)), sb.s(Byte2(w)), sb.s(Byte3(w)))
  }

  /** x^(i - 1) in GF(2^8). */
  function Power(i: nat): bv8
    requires i >= 1
  {
    if i == 1 then 1 else X2(Power(i - 1))
  }

  /** The round constant word number i, counted from one. */
  function Rcon(i: nat): bv32
    requires i >= 1
  {
    Word(Power(i), 0, 0, 0)
  }

  function KeyWords(key: Block): seq<bv32> { ToQuad(key) }

  /** Word i of the expanded key. */
  function Expanded(sb: Sbox, key: Block, i: nat): bv32 {
    if i < 4 then KeyWords(key)[i]
    else if i % 4 == 0 then
      XorW(Expanded(sb, key, i - 4), XorW(SubWord(sb, RotWord(Expanded(sb, key, i - 1))), Rcon(i / 4)))
    else XorW(Expanded(sb, key, i - 4), Expanded(sb, key, i - 1))
  }

  /** The 44 words of the expanded key. */
  function Expansion(sb: Sbox, key: Block): (r: seq<bv32>)
    ensures |r| == 44
  {
    seq(44, i requires 0 <= i < 44 => Expanded(sb, key, i))
  }

  // ---------- the encryption key schedule ----------

  /** The table rcon. */
  const RCON: seq<bv32> :=
    [0x01000000, 0x02000000, 0x04000000, 0x08000000, 0x10000000,
     0x20000000, 0x40000000, 0x80000000, 0x1B000000, 0x36000000]

  function RconAt(i: nat): bv32
    requires i < 10
  {
    RCON[i]
  }

  lemma PowerSteps()
    ensures X2(0x01) == 0x02 && X2(0x02) == 0x04 && X2(0x04) == 0x08 && X2(0x08) == 0x10 && X2(0x10) == 0x20
    ensures X2(0x20) == 0x40 && X2(0x40) == 0x80 && X2(0x80) == 0x1b && X2(0x1b) == 0x36
  {
  }

  lemma Powers()
    ensures Power(1) == 0x01 && Power(2) == 0x02 && Power(3) == 0x04 && Power(4) == 0x08 && Power(5) == 0x10
    ensures Power(6) == 0x20 && Power(7) == 0x40 && Power(8) == 0x80 && Power(9) == 0x1b && Power(10) == 0x36
  {
    PowerSteps();
    hide X2;
    assert Power(5) == X2(Power(4));
    assert Power(9) == X2(Power(8));
  }

  lemma TopWord(x: bv8)
    ensures Word(x, 0, 0, 0) == (x as bv32) << 24
  {
  }

  /** Every entry of the table is the round constant of the standard. */
  lemma RconTableIsRcon(i: nat)
    requires i < 10
    ensures RconAt(i) == Rcon(i + 1)
  {
    Powers();
    TopWord(Power(i + 1));
    hide Word, Power;
    assert i == 0 || i == 1 || i == 2 || i == 3 || i == 4 || i == 5 || i == 6 || i == 7 || i == 8 || i == 9;
  }

  /** The word that starts a new round key, as KeySetupEnc computes it. */
  function NewWord(sb: Sbox, a: bv32, temp: bv32, c: bv32): bv32 {
    XorW(XorW(XorW(XorW(XorW(a, Masked(Te4(sb, Byte1(temp)), 0)), Masked(Te4(sb, Byte2(temp)), 1)),
                   Masked(Te4(sb, Byte3(temp)), 2)), Masked(Te4(sb, Byte0(temp)), 3)), c)
  }

  lemma MasksMakeWord(x: bv8, y: bv8, z: bv8, w: bv8)
    ensures XorW(XorW(XorW(Masked(Word(x, x, x, x), 0), Masked(Word(y, y, y, y), 1)),
                      Masked(Word(z, z, z, z), 2)), Masked(Word(w, w, w, w), 3)) == Word(x, y, z, w)
  {
  }

  lemma XorWRegroup(a: bv32, p: bv32, q: bv32, r: bv32, s: bv32, c: bv32)
    ensures XorW(XorW(XorW(XorW(XorW(a, p), q), r), s), c) == XorW(a, XorW(XorW(XorW(XorW(p, q), r), s), c))
  {
  }

  lemma RotatedBytes(w: bv32)
    ensures Byte0(RotWord(w)) == Byte1(w) && Byte1(RotWord(w)) == Byte2(w)
    ensures Byte2(RotWord(w)) == Byte3(w) && Byte3(RotWord(w)) == Byte0(w)
  {
    WordBytesRoundTrip(Byte1(w), Byte2(w), Byte3(w), Byte0(w));
    hide Byte0, Byte1, Byte2, Byte3, Word;
  }

  /** Four masked lookups are SubWord of RotWord. */
  lemma NewWordIsStandard(sb: Sbox, a: bv32, temp: bv32, c: bv32)
    ensures NewWord(sb, a, temp, c) == XorW(a, XorW(SubWord(sb, RotWord(temp)), c))
  {
    hide XorW, Masked, Word, Byte0, Byte1, Byte2, Byte3, RotWord;
    var x, y, z, w := sb.s(Byte1(temp)), sb.s(Byte2(temp)), sb.s(Byte3(temp)), sb.s(Byte0(temp));
    RotatedBytes(temp);
    MasksMakeWord(x, y, z, w);
    XorWRegroup(a, Masked(Te4(sb, Byte1(temp)), 0), Masked(Te4(sb, Byte2(temp)), 1),
                Masked(Te4(sb, Byte3(temp)), 2), Masked(Te4(sb, Byte0(temp)), 3), c);
  }

  lemma NextRoundKey(sb: Sbox, key: Block, i: nat)
    requires i < 10
    ensures Expanded(sb, key, 4 * i + 4) ==
            NewWord(sb, Expanded(sb, key, 4 * i), Expanded(sb, key, 4 * i + 3), RconAt(i))
    ensures Expanded(sb, key, 4 * i + 5) == XorW(Expanded(sb, key, 4 * i + 1), Expanded(sb, key, 4 * i + 4))
    ensures Expanded(sb, key, 4 * i + 6) == XorW(Expanded(sb, key, 4 * i + 2), Expanded(sb, key, 4 * i + 5))
    ensures Expanded(sb, key, 4 * i + 7) == XorW(Expanded(sb, key, 4 * i + 3), Expanded(sb, key, 4 * i + 6))
  {
    hide XorW, NewWord, SubWord, RotWord, Rcon;
    RconTableIsRcon(i);
    hide RconAt;
    NewWordIsStandard(sb, Expanded(sb, key, 4 * i), Expanded(sb, key, 4 * i + 3), RconAt(i));
    assert (4 * i + 4) / 4 == i + 1 && (4 * i + 4) % 4 == 0;
    assert (4 * i + 5) % 4 == 1 && (4 * i + 6) % 4 == 2 && (4 * i + 7) % 4 == 3;
  }

  /** One pass of the loop of KeySetupEnc, on the key words from p. */
  method NextFourWords(sb: Sbox, rk: array<bv32>, p: nat, c: bv32)
    requires rk.Length == 44 && p + 8 <= 44
    modifies rk
    ensures rk[p + 4] == NewWord(sb, old(rk[p]), old(rk[p + 3]), c)
    ensures rk[p + 5] == XorW(old(rk[p + 1]), rk[p + 4])
    ensures rk[p + 6] == XorW(old(rk[p + 2]), rk[p + 5])
    ensures rk[p + 7] == XorW(old(rk[p + 3]), rk[p + 6])
    ensures forall k :: 0 <= k < 44 && !(p + 4 <= k < p + 8) ==> rk[k] == old(rk[k])
  {
    hide XorW, NewWord;
    var temp := rk[p + 3];
    rk[p + 4] := NewWord(sb, rk[p], temp, c);
    rk[p + 5] := XorW(rk[p + 1], rk[p + 4]);
    rk[p + 6] := XorW(rk[p + 2], rk[p + 5]);
    rk[p + 7] := XorW(rk[p + 3], rk[p + 6]);
  }

  /** The first round key is the key itself. */
  method LoadKey(sb: Sbox, rk: array<bv32>, cipherKey: array<bv8>)
    requires rk.Length == 44 && cipherKey.Length >= 16
    modifies rk
    ensures forall k :: 0 <= k < 4 ==> rk[k] == Expanded(sb, cipherKey[..16], k)
  {
    hide Expanded, Word;
    ghost var key: Block := cipherKey[..16];
    FirstWords(sb, key);
    rk[0] := GetU32(cipherKey, 0);
    rk[1] := GetU32(cipherKey, 4);
    rk[2] := GetU32(cipherKey, 8);
    rk[3] := GetU32(cipherKey, 12);
    assert cipherKey[..16] == key;
  }

  // ---------- the schedule byte by byte ----------

  /** The words w as section 5.2 of FIPS 197 describes them: the key, then in every round a first word
      that combines the word four back with the substituted and rotated bytes of the word before and a
      power of x, and three words that combine the word four back with the word before. */
  ghost predicate FollowsSchedule(sb: Sbox, key: Block, w: seq<bv32>) {
    && |w| == 44
    && (forall k :: 0 <= k < 4 ==> WordBytes(w[k]) == key[4 * k..4 * k + 4])
    && (forall i :: 0 <= i < 10 ==> FollowsRound(sb, w, i))
  }

  ghost predicate FollowsRound(sb: Sbox, w: seq<bv32>, i: nat)
    requires |w| == 44 && i < 10
  {
    && WordBytes(w[4 * i + 4]) == FirstWordBytes(sb, w[4 * i], w[4 * i + 3], i)
    && w[4 * i + 5] == XorW(w[4 * i + 1], w[4 * i + 4])
    && w[4 * i + 6] == XorW(w[4 * i + 2], w[4 * i + 5])
    && w[4 * i + 7] == XorW(w[4 * i + 3], w[4 * i + 6])
  }

  /** The word that begins a round key: byte j is byte j of the word four back, a, combined with the
      substituted byte j + 1 of the word before, temp, and the first also with x to the power i. */
  function FirstWordBytes(sb: Sbox, a: bv32, temp: bv32, i: nat): seq<bv8> {
    var u, v := WordBytes(a), WordBytes(temp);
    [XorByte(XorByte(u[0], sb.s(v[1])), Power(i + 1)), XorByte(XorByte(u[1], sb.s(v[2])), 0),
     XorByte(XorByte(u[2], sb.s(v[3])), 0), XorByte(XorByte(u[3], sb.s(v[0])), 0)]
  }

  lemma XorBytes3(a: bv8, b: bv8, c: bv8)
    ensures XorByte(a, XorByte(b, c)) == XorByte(XorByte(a, b), c)
  {
  }

  lemma XorThree(a: bv32, x: bv8, y: bv8, z: bv8, t: bv8, c: bv8)
    ensures WordBytes(XorW(a, XorW(Word(x, y, z, t), Word(c, 0, 0, 0)))) ==
            [XorByte(XorByte(Byte0(a), x), c), XorByte(XorByte(Byte1(a), y), 0),
             XorByte(XorByte(Byte2(a), z), 0), XorByte(XorByte(Byte3(a), t), 0)]
  {
    hide Word, XorW, XorByte, Byte0, Byte1, Byte2, Byte3, WordBytes;
    WordBytesRoundTrip(x, y, z, t);
    WordBytesRoundTrip(c, 0, 0, 0);
    XorBytes3(Byte0(a), x, c);
    XorBytes3(Byte1(a), y, 0);
    XorBytes3(Byte2(a), z, 0);
    XorBytes3(Byte3(a), t, 0);
    XorWord(Word(x, y, z, t), Word(c, 0, 0, 0));
    XorWord(a, XorW(Word(x, y, z, t), Word(c, 0, 0, 0)));
    BytesOf(a);
  }

  lemma BytesOf(w: bv32)
    ensures WordBytes(w) == [Byte0(w), Byte1(w), Byte2(w), Byte3(w)]
  {
    hide Byte0, Byte1, Byte2, Byte3;
  }

  lemma NewWordBytes(sb: Sbox, a: bv32, temp: bv32, i: nat)
    ensures WordBytes(XorW(a, XorW(SubWord(sb, RotWord(temp)), Rcon(i + 1)))) == FirstWordBytes(sb, a, temp, i)
  {
    hide RotWord, Word, XorW, XorByte, Power, Byte0, Byte1, Byte2, Byte3, WordBytes, FirstWordBytes;
    RotatedBytes(temp);
    XorThree(a, sb.s(Byte1(temp)), sb.s(Byte2(temp)), sb.s(Byte3(temp)), sb.s(Byte0(temp)), Power(i + 1));
    FirstWordUnfold(sb, a, temp, i);
  }

  lemma FirstWordUnfold(sb: Sbox, a: bv32, temp: bv32, i: nat)
    ensures FirstWordBytes(sb, a, temp, i) ==
            [XorByte(XorByte(Byte0(a), sb.s(Byte1(temp))), Power(i + 1)),
             XorByte(XorByte(Byte1(a), sb.s(Byte2(temp))), 0),
             XorByte(XorByte(Byte2(a), sb.s(Byte3(temp))), 0), XorByte(XorByte(Byte3(a), sb.s(Byte0(temp))), 0)]
  {
    hide XorByte, Power, Byte0, Byte1, Byte2, Byte3;
  }

  lemma RoundBytes(sb: Sbox, key: Block, i: nat)
    requires i < 10
    ensures FollowsRound(sb, Expansion(sb, key), i)
  {
    hide Expanded, NewWord, SubWord, RotWord, Rcon, RconAt, Power, XorW, WordBytes, FirstWordBytes;
    NextRoundKey(sb, key, i);
    var a, temp := Expanded(sb, key, 4 * i), Expanded(sb, key, 4 * i + 3);
    NewWordIsStandard(sb, a, temp, RconAt(i));
    RconTableIsRcon(i);
    NewWordBytes(sb, a, temp, i);
  }

  lemma FourOf(key: Block, i: nat)
    requires i + 4 <= 16
    ensures key[i..i + 4] == [key[i], key[i + 1], key[i + 2], key[i + 3]]
  {
  }

  lemma KeyBytes(sb: Sbox, key: Block, k: nat)
    requires k < 4
    ensures WordBytes(Expanded(sb, key, k)) == key[4 * k..4 * k + 4]
  {
    hide Expanded, WordBytes, Word;
    FourOf(key, 4 * k);
    WordBytesRoundTrip(key[4 * k], key[4 * k + 1], key[4 * k + 2], key[4 * k + 3]);
    FirstWords(sb, key);
    assert Expanded(sb, key, k) == Word(key[4 * k], key[4 * k + 1], key[4 * k + 2], key[4 * k + 3]) by {
      if k == 0 {} else if k == 1 {} else if k == 2 {} else {}
    }
  }

  /** The expanded key follows the schedule. */
  lemma ScheduleBytes(sb: Sbox, key: Block)
    ensures FollowsSchedule(sb, key, Expansion(sb, key))
  {
    hide Expanded, WordBytes, FollowsRound;
    var w := Expansion(sb, key);
    forall k | 0 <= k < 4
      ensures WordBytes(w[k]) == key[4 * k..4 * k + 4]
    {
      KeyBytes(sb, key, k);
    }
    forall i | 0 <= i < 10
      ensures FollowsRound(sb, w, i)
    {
      RoundBytes(sb, key, i);
    }
  }

  method KeySetupEnc(sb: Sbox, rk: array<bv32>, cipherKey: array<bv8>)
    requires rk.Length == 44 && cipherKey.Length >= 16
    modifies rk
    ensures rk[..] == Expansion(sb, cipherKey[..16]) && FollowsSchedule(sb, cipherKey[..16], rk[..])
  {
    hide Expanded, RconAt, FollowsSchedule;
    ghost var key: Block := cipherKey[..16];
    ScheduleBytes(sb, key);
    LoadKey(sb, rk, cipherKey);
    for i := 0 to 10
      invariant forall k :: 0 <= k < 4 * i + 4 ==> rk[k] == Expanded(sb, key, k)
    {
      ExpandRound(sb, rk, key, i);
    }
    assert cipherKey[..16] == key;
  }

  method ExpandRound(sb: Sbox, rk: array<bv32>, ghost key: Block, i: nat)
    requires rk.Length == 44 && i < 10
    requires forall k :: 0 <= k < 4 * i + 4 ==> rk[k] == Expanded(sb, key, k)
    modifies rk
    ensures forall k :: 0 <= k < 4 * i + 8 ==> rk[k] == Expanded(sb, key, k)
  {
    hide Expanded, XorW, NewWord, RconAt;
    NextRoundKey(sb, key, i);
    NextFourWords(sb, rk, 4 * i, RconAt(i));
  }

  lemma FirstWords(sb: Sbox, key: Block)
    ensures Expanded(sb, key, 0) == Word(key[0], key[1], key[2], key[3])
    ensures Expanded(sb, key, 1) == Word(key[4], key[5], key[6], key[7])
    ensures Expanded(sb, key, 2) == Word(key[8], key[9], key[10], key[11])
    ensures Expanded(sb, key, 3) == Word(key[12], key[13], key[14], key[15])
  {
    hide Word;
  }

  // ---------- the decryption key schedule ----------

  /** InvMixColumns on one key word, as KeySetupDec computes it through both tables. */
  function MixedKey(sb: Sbox, w: bv32): bv32 {
    XorW(XorW(XorW(Td(sb, 0, Byte3(Te4(sb, Byte0(w)))), Td(sb, 1, Byte3(Te4(sb, Byte1(w))))),
              Td(sb, 2, Byte3(Te4(sb, Byte2(w))))), Td(sb, 3, Byte3(Te4(sb, Byte3(w)))))
  }

  lemma LowByteOfTe4(sb: Sbox, x: bv8)
    ensures Byte3(Te4(sb, x)) == sb.s(x)
  {
    var y := sb.s(x);
    WordBytesRoundTrip(y, y, y, y);
    hide Byte0, Byte1, Byte2, Byte3, Word;
  }

  lemma UnmixedByte(sb: Sbox, x: bv8, k: nat)
    requires Invertible(sb) && k < 4
    ensures WordBytes(Td(sb, k, Byte3(Te4(sb, x)))) == InvMixOne(x, k)
  {
    hide WordBytes, WordOf, InvMixOne, Byte3, Te4;
    LowByteOfTe4(sb, x);
    assert sb.inv(sb.s(x)) == x;
    WordOfBytes(InvMixOne(x, k));
  }

  lemma MixedKeyBytes(sb: Sbox, w: bv32)
    requires Invertible(sb)
    ensures WordBytes(MixedKey(sb, w)) == InvMix(WordBytes(w))
  {
    hide XorW, Td, Te4, Byte0, Byte1, Byte2, Byte3, InvMixOne, Xor;
    var b0, b1, b2, b3 := Byte0(w), Byte1(w), Byte2(w), Byte3(w);
    var p, q := Td(sb, 0, Byte3(Te4(sb, b0))), Td(sb, 1, Byte3(Te4(sb, b1)));
    var r, t := Td(sb, 2, Byte3(Te4(sb, b2))), Td(sb, 3, Byte3(Te4(sb, b3)));
    UnmixedByte(sb, b0, 0);
    UnmixedByte(sb, b1, 1);
    UnmixedByte(sb, b2, 2);
    UnmixedByte(sb, b3, 3);
    assert WordBytes(w) == [b0, b1, b2, b3];
    hide WordBytes;
    XorWord(p, q);
    XorWord(XorW(p, q), r);
    XorWord(XorW(XorW(p, q), r), t);
  }

  /** Where word k comes from when the order of the eleven round keys is turned around. */
  function Mirror(k: nat): (r: nat)
    requires k < 44
    ensures r < 44
  {
    4 * (10 - k / 4) + k % 4
  }

  lemma MirrorPair(i: nat, j: nat)
    requires i % 4 == 0 && i + j == 40
    ensures forall k :: i <= k < i + 4 ==> Mirror(k) == k - i + j
    ensures forall k :: j <= k < j + 4 ==> Mirror(k) == k - j + i
  {
  }

  method SwapWords(rk: array<bv32>, i: nat, j: nat)
    requires rk.Length == 44 && i < 44 && j < 44 && i != j
    modifies rk
    ensures rk[i] == old(rk[j]) && rk[j] == old(rk[i])
    ensures forall k :: 0 <= k < 44 && k != i && k != j ==> rk[k] == old(rk[k])
  {
    var temp := rk[i];
    rk[i] := rk[j];
    rk[j] := temp;
  }

  method SwapFour(rk: array<bv32>, i: nat, j: nat)
    requires rk.Length == 44 && i + 4 <= j <= 40
    modifies rk
    ensures forall k :: i <= k < i + 4 ==> rk[k] == old(rk[k - i + j])
    ensures forall k :: j <= k < j + 4 ==> rk[k] == old(rk[k - j + i])
    ensures forall k :: 0 <= k < 44 && !(i <= k < i + 4 || j <= k < j + 4) ==> rk[k] == old(rk[k])
  {
    SwapWords(rk, i, j);
    SwapWords(rk, i + 1, j + 1);
    SwapWords(rk, i + 2, j + 2);
    SwapWords(rk, i + 3, j + 3);
  }

  /** The words outside i to j + 4 are mirrored, those inside are as they were. */
  ghost predicate MirroredOutside(rk: seq<bv32>, w: seq<bv32>, i: nat, j: nat) {
    |rk| == |w| == 44 && forall k :: 0 <= k < 44 ==> rk[k] == if i <= k < j + 4 then w[k] else w[Mirror(k)]
  }

  lemma MirrorFour(u: seq<bv32>, v: seq<bv32>, w: seq<bv32>, i: nat, j: nat)
    requires MirroredOutside(v, w, i, j) && i % 4 == 0 && i + j == 40 && i + 4 <= j && |u| == 44
    requires forall k :: i <= k < i + 4 ==> u[k] == v[k - i + j]
    requires forall k :: j <= k < j + 4 ==> u[k] == v[k - j + i]
    requires forall k :: 0 <= k < 44 && !(i <= k < i + 4 || j <= k < j + 4) ==> u[k] == v[k]
    ensures MirroredOutside(u, w, i + 4, j - 4)
  {
    MirrorPair(i, j);
    hide Mirror;
  }

  lemma AllMirrored(rk: seq<bv32>, w: seq<bv32>)
    requires MirroredOutside(rk, w, 20, 20)
    ensures forall k :: 0 <= k < 44 ==> rk[k] == w[Mirror(k)]
  {
    MirrorPair(20, 20);
    hide Mirror;
  }

  method SwapRoundKeys(rk: array<bv32>)
    requires rk.Length == 44
    modifies rk
    ensures forall k :: 0 <= k < 44 ==> rk[k] == old(rk[..])[Mirror(k)]
  {
    hide Mirror;
    ghost var w := rk[..];
    var i, j := 0, 40;
    assert MirroredOutside(rk[..], w, 0, 40);
    hide MirroredOutside;
    while i < j
      invariant i % 4 == 0 && i + j == 40 && i <= 20
      invariant MirroredOutside(rk[..], w, i, j)
    {
      ghost var v := rk[..];
      SwapFour(rk, i, j);
      MirrorFour(rk[..], v, w, i, j);
      i, j := i + 4, j - 4;
    }
    AllMirrored(rk[..], w);
  }

  /** One pass of the last loop: InvMixColumns on four key words. */
  method MixRoundKey(sb: Sbox, rk: array<bv32>, i: nat)
    requires rk.Length == 44 && i + 4 <= 44
    modifies rk
    ensures forall k :: i <= k < i + 4 ==> rk[k] == MixedKey(sb, old(rk[k]))
    ensures forall k :: 0 <= k < 44 && !(i <= k < i + 4) ==> rk[k] == old(rk[k])
  {
    hide MixedKey;
    rk[i] := MixedKey(sb, rk[i]);
    rk[i + 1] := MixedKey(sb, rk[i + 1]);
    rk[i + 2] := MixedKey(sb, rk[i + 2]);
    rk[i + 3] := MixedKey(sb, rk[i + 3]);
  }

  /** The transformed key schedule, word by word. */
  ghost predicate IsInverseSchedule(sb: Sbox, rk: seq<bv32>, w: seq<bv32>)
    requires |w| == 44
  {
    && |rk| == 44
    && forall k :: 0 <= k < 44 ==>
      rk[k] == if 4 <= k < 40 then MixedKey(sb, w[Mirror(k)]) else w[Mirror(k)]
  }

  method MixRoundKeys(sb: Sbox, rk: array<bv32>)
    requires rk.Length == 44
    modifies rk
    ensures forall k :: 0 <= k < 44 ==> rk[k] == if 4 <= k < 40 then MixedKey(sb, old(rk[k])) else old(rk[k])
  {
    hide MixedKey;
    for i := 1 to 10
      invariant forall k :: 0 <= k < 44 ==> rk[k] == if 4 <= k < 4 * i then MixedKey(sb, old(rk[k])) else old(rk[k])
    {
      MixRoundKey(sb, rk, 4 * i);
    }
  }

  method KeySetupDec(sb: Sbox, rk: array<bv32>, cipherKey: array<bv8>)
    requires rk.Length == 44 && cipherKey.Length >= 16
    modifies rk
    ensures IsInverseSchedule(sb, rk[..], Expansion(sb, cipherKey[..16]))
    ensures Invertible(sb) ==> RoundKeys(rk[..]) == InvKeys(RoundKeys(Expansion(sb, cipherKey[..16])))
  {
    hide Expansion, MixedKey, RoundKeys, InvKeys;
    KeySetupEnc(sb, rk, cipherKey);
    ghost var w := rk[..];
    assert w == Expansion(sb, cipherKey[..16]);
    SwapRoundKeys(rk);
    hide Mirror;
    MixRoundKeys(sb, rk);
    if Invertible(sb) {
      InverseScheduleKeys(sb, rk[..], w);
    }
  }

  lemma MixedRoundKey(sb: Sbox, q: Quad)
    requires Invertible(sb)
    ensures Bytes([MixedKey(sb, q[0]), MixedKey(sb, q[1]), MixedKey(sb, q[2]), MixedKey(sb, q[3])]) ==
            InvMixColumns(Bytes(q))
  {
    hide MixedKey, WordBytes, InvMix, Col;
    MixedKeyBytes(sb, q[0]);
    MixedKeyBytes(sb, q[1]);
    MixedKeyBytes(sb, q[2]);
    MixedKeyBytes(sb, q[3]);
    ColOfBytes(q, 0);
    ColOfBytes(q, 1);
    ColOfBytes(q, 2);
    ColOfBytes(q, 3);
  }

  /** The swapped and mixed words are the round keys of the equivalent inverse cipher. */
  lemma InverseScheduleKeys(sb: Sbox, rk: seq<bv32>, w: seq<bv32>)
    requires Invertible(sb) && |w| == 44 && IsInverseSchedule(sb, rk, w)
    ensures RoundKeys(rk) == InvKeys(RoundKeys(w))
  {
    hide MixedKey, Bytes, InvMixColumns;
    forall r | 0 <= r < 11
      ensures RoundKeys(rk)[r] == InvKeys(RoundKeys(w))[r]
    {
      InverseScheduleKey(sb, rk, w, r);
    }
  }

  lemma InverseScheduleKey(sb: Sbox, rk: seq<bv32>, w: seq<bv32>, r: nat)
    requires Invertible(sb) && |w| == 44 && IsInverseSchedule(sb, rk, w) && r < 11
    ensures RoundKeys(rk)[r] == InvKeys(RoundKeys(w))[r]
  {
    hide MixedKey, Bytes, InvMixColumns, RoundKeys, IsInverseSchedule;
    var m := 4 * (10 - r);
    var q: Quad := [w[m], w[m + 1], w[m + 2], w[m + 3]];
    ScheduleWord(sb, rk, w, r, 0);
    ScheduleWord(sb, rk, w, r, 1);
    ScheduleWord(sb, rk, w, r, 2);
    ScheduleWord(sb, rk, w, r, 3);
    RoundKeysAt(rk, r);
    RoundKeysAt(w, 10 - r);
    MixedRoundKey(sb, q);
  }

  lemma ScheduleWord(sb: Sbox, rk: seq<bv32>, w: seq<bv32>, r: nat, d: nat)
    requires |w| == 44 && IsInverseSchedule(sb, rk, w) && r < 11 && d < 4
    ensures |rk| == 44
    ensures rk[4 * r + d] == if 1 <= r < 10 then MixedKey(sb, w[4 * (10 - r) + d]) else w[4 * (10 - r) + d]
  {
    hide MixedKey;
    MirrorPair(4 * r, 4 * (10 - r));
  }

  /** Decryption under the decryption schedule undoes encryption under the encryption
      schedule, for every key, every block and every invertible S-box. */
  lemma DecryptOfEncrypt(sb: Sbox, key: Block, dk: seq<bv32>, b: Block)
    requires Invertible(sb) && IsInverseSchedule(sb, dk, Expansion(sb, key))
    ensures EqInvCipher(sb, RoundKeys(dk), Cipher(sb, RoundKeys(Expansion(sb, key)), b)) == b
  {
    hide Expansion, RoundKeys, EqInvCipher, Cipher, IsInverseSchedule, InvKeys;
    InverseScheduleKeys(sb, dk, Expansion(sb, key));
    EqInvCipherOfCipher(sb, RoundKeys(Expansion(sb, key)), b);
  }
}
