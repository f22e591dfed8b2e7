/** SEED in counter mode: how the counter of KISA_SEED_CTR.c really counts, when it agrees
    with a 128-bit big-endian count, and the mode built on it. */
module SeedCtr {
  import opened Words
  import opened Numbers
  import opened Buffers
  import opened Seed
  import opened BlockModes
  import opened WordSums

  // ---------- the counter ----------

  predicate AllOnes(s: seq<bv8>) {
    forall i :: 0 <= i < |s| ==> s[i] == 0xFF
  }

  /** Adding one to a byte string with carries from right to left. */
  function Succ(s: seq<bv8>): (r: seq<bv8>)
    ensures |r| == |s|
  {
    if s == [] then []
    else if s[|s| - 1] == 0xFF then Succ(s[..|s| - 1]) + [0]
    else s[..|s| - 1] + [IncByte(s[|s| - 1])]
  }

  /** One UpdateCounter: bytes 2 to 15 count; when they overflow, bytes 1 and 0 are both incremented. */
  function CtrNext(b: Block): Block {
    (if AllOnes(b[2..]) then [IncByte(b[0]), IncByte(b[1])] else b[..2]) + Succ(b[2..])
  }

  /** The counter after n updates. */
  function CtrAt(b: Block, n: nat): Block {
    if n == 0 then b else CtrNext(CtrAt(b, n - 1))
  }

  lemma AllOnesUnfold(s: seq<bv8>)
    requires s != []
    ensures AllOnes(s) <==> AllOnes(s[..|s| - 1]) && s[|s| - 1] == 0xFF
  {
    assert s == s[..|s| - 1] + [s[|s| - 1]];
  }

  /** The carrying addition is addition of one, and overflows from all ones to zero. */
  lemma {:induction false} SuccNum(s: seq<bv8>)
    ensures AllOnes(s) ==> Num(s) + 1 == Pow256(|s|) && Succ(s) == Zeros(|s|)
    ensures !AllOnes(s) ==> Num(s) + 1 < Pow256(|s|) && Num(Succ(s)) == Num(s) + 1
  {
    hide IncByte, Val;
    if s == [] {
    } else {
      var front, last := s[..|s| - 1], s[|s| - 1];
      SuccNum(front);
      AllOnesUnfold(s);
      IncByteValue(last);
      NumUnfold(s);
      NumUnfold(Succ(s));
      NumBound(s);
      hide AllOnes;
      assert Pow256(|s|) == 256 * Pow256(|front|);
      if last == 0xFF {
        assert Succ(s)[..|s| - 1] == Succ(front);
        if AllOnes(front) {
          assert Zeros(|s|) == Zeros(|front|) + [0];
        }
      } else {
        assert Succ(s)[..|s| - 1] == front;
      }
    }
  }

  function Low(b: Block): nat { Num(b[2..]) }

  /** A count split into the low 112 bits and how often they have overflowed. */
  function Laps(v: nat): nat { v / Pow256(14) }

  function Rest(v: nat): (r: nat)
    ensures r < Pow256(14)
  {
    v % Pow256(14)
  }

  function Overflows(b: Block, n: nat): nat { Laps(Low(b) + n) }

  /** The counter after n updates: the low bytes count modulo 2^112 and each of the two top
      bytes counts the overflows, separately. */
  function CtrClosed(b: Block, n: nat): Block {
    var m := Overflows(b, n);
    [ByteOf((Val(b[0]) + m) % 256), ByteOf((Val(b[1]) + m) % 256)] + BE(Rest(Low(b) + n), 14)
  }

  lemma ByteStep(x: nat, y: bv8)
    requires y == ByteOf(x % 256)
    ensures IncByte(y) == ByteOf((x + 1) % 256)
  {
    hide IncByte, ByteOf, Val;
    ByteOfValue(x % 256);
    IncByteValue(y);
    if y == 0xFF {
      ByteOfEquals(0, 0);
    } else {
      ByteOfEquals(IncByte(y), (x + 1) % 256);
    }
  }

  lemma OneMoreOf(v: nat, p: nat)
    requires p > 1
    ensures v % p + 1 == p ==> (v + 1) / p == v / p + 1 && (v + 1) % p == 0
    ensures v % p + 1 < p ==> (v + 1) / p == v / p && (v + 1) % p == v % p + 1
  {
    var q, r := v / p, v % p;
    if r + 1 == p {
      assert (q + 1) * p == q * p + p;
      DivUnique(v + 1, q + 1, 0, p);
    } else {
      DivUnique(v + 1, q, r + 1, p);
    }
  }

  lemma OneMore(v: nat)
    ensures Rest(v) + 1 == Pow256(14) ==> Laps(v + 1) == Laps(v) + 1 && Rest(v + 1) == 0
    ensures Rest(v) + 1 < Pow256(14) ==> Laps(v + 1) == Laps(v) && Rest(v + 1) == Rest(v) + 1
  {
    Pow256Big(14);
    hide Pow256;
    OneMoreOf(v, Pow256(14));
  }

  lemma ClosedParts(b: Block, n: nat)
    ensures CtrClosed(b, n)[0] == ByteOf((Val(b[0]) + Overflows(b, n)) % 256)
    ensures CtrClosed(b, n)[1] == ByteOf((Val(b[1]) + Overflows(b, n)) % 256)
    ensures CtrClosed(b, n)[2..] == BE(Rest(Low(b) + n), 14)
    ensures CtrClosed(b, n)[..2] == [CtrClosed(b, n)[0], CtrClosed(b, n)[1]]
  {
    hide BE, ByteOf, Val, Pow256, Low, Overflows;
  }

  lemma ClosedNone(b: Block)
    ensures CtrClosed(b, 0) == b
  {
    hide BE, ByteOf, Val, Pow256, Num;
    NumBound(b[2..]);
    BENum(b[2..]);
    ModSmall(Low(b), Pow256(14));
    DivUnique(Low(b), 0, Low(b), Pow256(14));
    ByteValue(b[0]);
    ByteValue(b[1]);
    ModSmall(Val(b[0]), 256);
    ModSmall(Val(b[1]), 256);
  }

  lemma SuccOf(s: seq<bv8>, u: nat, k: nat)
    requires u < Pow256(k) && s == BE(u, k)
    ensures AllOnes(s) <==> u + 1 == Pow256(k)
    ensures Succ(s) == BE(if u + 1 == Pow256(k) then 0 else u + 1, k)
  {
    hide BE, Pow256, Num, Succ, AllOnes;
    NumBE(u, k);
    SuccNum(s);
    BEZero(k);
    BENum(Succ(s));
  }

  /** The low bytes keep counting; they overflow exactly when the quotient goes up. */
  lemma LowStep(s: seq<bv8>, v: nat)
    requires s == BE(Rest(v), 14)
    ensures Succ(s) == BE(Rest(v + 1), 14)
    ensures Laps(v + 1) == Laps(v) + if AllOnes(s) then 1 else 0
  {
    hide BE, Pow256, Num, Succ, AllOnes, Rest, Laps;
    SuccOf(s, Rest(v), 14);
    OneMore(v);
  }

  lemma ClosedStep(b: Block, n: nat)
    ensures CtrNext(CtrClosed(b, n)) == CtrClosed(b, n + 1)
  {
    hide BE, ByteOf, Val, Pow256, Low, Succ, AllOnes, CtrClosed, IncByte;
    var x, v := CtrClosed(b, n), Low(b) + n;
    ClosedParts(b, n);
    ClosedParts(b, n + 1);
    LowStep(x[2..], v);
    ByteStep(Val(b[0]) + Overflows(b, n), x[0]);
    ByteStep(Val(b[1]) + Overflows(b, n), x[1]);
    assert CtrClosed(b, n + 1) == CtrClosed(b, n + 1)[..2] + CtrClosed(b, n + 1)[2..];
  }

  lemma {:induction false} CtrAtClosed(b: Block, n: nat)
    ensures CtrAt(b, n) == CtrClosed(b, n)
  {
    hide CtrClosed, CtrNext;
    if n == 0 {
      ClosedNone(b);
    } else {
      CtrAtClosed(b, n - 1);
      ClosedStep(b, n - 1);
    }
  }

  // ---------- against the 128-bit count ----------

  /** Whether n updates leave the counter n above where it began, as one 128-bit number: the
      overflows must also carry correctly from byte 1 to byte 0. */
  predicate Faithful(b: Block, n: nat) {
    Overflows(b, n) % 256 == ((Val(b[1]) + Overflows(b, n)) / 256) % 256
  }

  lemma LowSixteen(x: nat)
    ensures x % 0x1_0000 % 256 == x % 256
    ensures x % 0x1_0000 / 256 == x / 256 % 256
  {
    var a, r := x / 256, x % 256;
    var k, m := a / 256, a % 256;
    assert x == k * 0x1_0000 + (256 * m + r);
    DivUnique(x, k, 256 * m + r, 0x1_0000);
    DivUnique(256 * m + r, m, r, 256);
  }

  lemma TwoBytes(x: nat)
    ensures BE(x % 0x1_0000, 2) == [ByteOf(x / 256 % 256), ByteOf(x % 256)]
  {
    hide ByteOf;
    LowSixteen(x);
    BETwo(x % 0x1_0000);
  }

  lemma BETwo(y: nat)
    requires y < 0x1_0000
    ensures BE(y, 2) == [ByteOf(y / 256), ByteOf(y % 256)]
  {
    hide ByteOf;
    assert BE(y / 256 / 256, 0) == [];
    assert BE(y / 256, 1) == [] + [ByteOf(y / 256)];
  }

  lemma AddTop(top: nat, low: nat, n: nat, p: nat)
    requires p > 0
    ensures top * p + low + n == (top + (low + n) / p) * p + (low + n) % p
  {
    var m := (low + n) / p;
    assert (top + m) * p == top * p + m * p;
  }

  lemma NumSum(b: Block, n: nat)
    ensures Num(b) + n == (256 * Val(b[0]) + Val(b[1]) + Overflows(b, n)) * Pow256(14) + Rest(Low(b) + n)
  {
    hide Val, Pow256;
    NumTop(b);
    hide Num, Low;
    AddTop(256 * Val(b[0]) + Val(b[1]), Low(b), n, Pow256(14));
  }

  lemma IncNWhole(b: Block, n: nat)
    ensures IncN(b, 16, n) == BE((Num(b) + n) % Pow256(16), 16)
  {
    hide Num, BE, Pow256;
    assert b[..0] == [] && b[0..] == b;
  }

  lemma TopBytes(t: nat, r: nat)
    requires r < Pow256(14)
    ensures BE((t * Pow256(14) + r) % Pow256(16), 16) == BE(t % 0x1_0000, 2) + BE(r, 14)
  {
    hide BE, Pow256;
    Pow256Add(2, 14);
    Pow256Values();
    ModOfSum(t, r, Pow256(14), 0x1_0000);
    BEAppend(t % 0x1_0000, r, 2, 14);
  }

  /** The 128-bit count in the same form. */
  lemma IncNParts(b: Block, n: nat)
    ensures var t := 256 * Val(b[0]) + Val(b[1]) + Overflows(b, n);
            IncN(b, 16, n) == [ByteOf(t / 256 % 256), ByteOf(t % 256)] + BE(Rest(Low(b) + n), 14)
  {
    hide BE, ByteOf, Val, Pow256, Num, Low, Overflows, Rest, IncN;
    NumSum(b, n);
    IncNWhole(b, n);
    TopBytes(256 * Val(b[0]) + Val(b[1]) + Overflows(b, n), Rest(Low(b) + n));
    TwoBytes(256 * Val(b[0]) + Val(b[1]) + Overflows(b, n));
  }

  lemma NumTop(b: Block)
    ensures Num(b) == (256 * Val(b[0]) + Val(b[1])) * Pow256(14) + Low(b)
  {
    hide Val, Pow256;
    assert b == [b[0], b[1]] + b[2..];
    NumAppend([b[0], b[1]], b[2..]);
    TopNum(b[0], b[1]);
  }

  lemma TopNum(x: bv8, y: bv8)
    ensures Num([x, y]) == 256 * Val(x) + Val(y)
  {
    hide Val;
    NumUnfold([x, y]);
    NumUnfold([x]);
    assert [x, y][..1] == [x] && [x][..0] == [];
  }

  lemma ModOfSum(t: nat, r: nat, p: nat, q: nat)
    requires r < p && q > 0
    ensures (t * p + r) % (q * p) == t % q * p + r
  {
    var d, m := t / q, t % q;
    MulGap(m, q, p);
    Distribute(d, q, m, p);
    DivUnique(t * p + r, d, m * p + r, q * p);
  }

  lemma Distribute(d: nat, q: nat, m: nat, p: nat)
    ensures (d * q + m) * p == d * (q * p) + m * p
  {
    assert (d * q) * p == d * (q * p);
  }

  lemma BytesSame(x: nat, y: nat)
    ensures ByteOf(x % 256) == ByteOf(y % 256) <==> x % 256 == y % 256
  {
    hide ByteOf, Val;
    ByteOfValue(x % 256);
    ByteOfValue(y % 256);
  }

  lemma ModCancel(a: nat, x: nat, y: nat)
    ensures (a + x) % 256 == (a + y) % 256 <==> x % 256 == y % 256
  {
  }

  /** After n updates the counter is the start plus n modulo 2^128 exactly when Faithful says so. */
  lemma CtrExact(b: Block, n: nat)
    ensures CtrAt(b, n) == IncN(b, 16, n) <==> Faithful(b, n)
  {
    hide BE, ByteOf, Val, Pow256, Low, Overflows, CtrAt, IncN, CtrClosed;
    CtrAtClosed(b, n);
    ClosedParts(b, n);
    IncNParts(b, n);
    var m, v0, v1 := Overflows(b, n), Val(b[0]), Val(b[1]);
    var t := 256 * v0 + v1 + m;
    assert t / 256 == v0 + (v1 + m) / 256 && t % 256 == (v1 + m) % 256;
    BytesSame(v0 + m, t / 256);
    ModCancel(v0, m, (v1 + m) / 256);
    var x, y := CtrAt(b, n), IncN(b, 16, n);
    assert x == [x[0], x[1]] + x[2..];
  }

  /** One update counts correctly exactly when the low bytes do not overflow or byte 1 does too. */
  lemma CtrNextExact(b: Block)
    ensures CtrNext(b) == Inc(b, 16) <==> !AllOnes(b[2..]) || b[1] == 0xFF
  {
    hide BE, Pow256, AllOnes, CtrNext, Inc, IncN, Num, Val;
    CtrExact(b, 1);
    assert CtrAt(b, 1) == CtrNext(CtrAt(b, 0));
    IncZero(b, 16);
    IncStep(b, 16, 0);
    SuccNum(b[2..]);
    NumBound(b[2..]);
    IncByteValue(b[1]);
    var p, v := Pow256(14), Low(b);
    if AllOnes(b[2..]) {
      DivUnique(v + 1, 1, 0, p);
    } else {
      DivUnique(v + 1, 0, v + 1, p);
    }
  }

  /** As long as the low 112 bits have not overflowed the count is the 128-bit count. */
  lemma CtrWithinLow(b: Block, n: nat)
    requires Low(b) + n < Pow256(14)
    ensures CtrAt(b, n) == IncN(b, 16, n)
  {
    hide Pow256, Low, CtrAt, IncN, Val;
    CtrExact(b, n);
    DivUnique(Low(b) + n, 0, Low(b) + n, Pow256(14));
  }

  /** Counters fewer than 2^112 updates apart differ, whatever the start. */
  lemma CtrDistinct(b: Block, m: nat, n: nat)
    requires m < n < m + Pow256(14)
    ensures CtrAt(b, m) != CtrAt(b, n)
  {
    hide BE, ByteOf, Val, Pow256, CtrAt, CtrClosed, Num;
    CtrAtClosed(b, m);
    CtrAtClosed(b, n);
    ClosedParts(b, m);
    ClosedParts(b, n);
    var p, v := Pow256(14), Low(b);
    ModDistinct(v + m, n - m, p);
    NumBE((v + m) % p, 14);
    NumBE((v + n) % p, 14);
  }

  // ---------- the counter update in place ----------

  lemma {:induction false} SuccAt(s: seq<bv8>, k: nat)
    requires k < |s| && s[k] != 0xFF && forall j :: k < j < |s| ==> s[j] == 0xFF
    ensures Succ(s) == s[..k] + [IncByte(s[k])] + Zeros(|s| - k - 1)
  {
    hide IncByte;
    if k < |s| - 1 {
      var front := s[..|s| - 1];
      SuccAt(front, k);
      assert Zeros(|s| - k - 1) == Zeros(|front| - k - 1) + [0];
    } else {
      assert Zeros(0) == [];
    }
  }

  lemma StopTest(x: bv8)
    ensures x <= IncByte(x) <==> x != 0xFF
    ensures IncByte(0xFF) == 0
  {
  }

  /** Bytes k + 1 to 15 of b were all ones and are now zero, byte k is incremented. */
  ghost predicate CarriedTo(b: Block, r: seq<bv8>, k: nat)
    requires k < 16
  {
    && |r| == 16
    && (forall j :: k < j < 16 ==> b[j] == 0xFF && r[j] == 0)
    && r[k] == IncByte(b[k])
    && (forall j :: 0 <= j < k ==> r[j] == b[j])
  }

  lemma CarryStops(b: Block, r: Block, k: nat)
    requires 2 <= k < 16 && CarriedTo(b, r, k) && b[k] != 0xFF
    ensures r == CtrNext(b)
  {
    hide IncByte;
    var s := b[2..];
    assert s[k - 2] != 0xFF;
    SuccAt(s, k - 2);
    assert s[..k - 2] == b[2..k];
    hide Succ;
    var t := s[..k - 2] + [IncByte(s[k - 2])] + Zeros(15 - k);
    forall j | 0 <= j < 16
      ensures r[j] == (b[..2] + t)[j]
    {
    }
  }

  lemma CarryRunsOut(b: Block, r: Block)
    requires CarriedTo(b, r, 1)
    ensures r[0 := IncByte(r[0])] == CtrNext(b)
  {
    SuccNum(b[2..]);
    hide IncByte, Succ;
    assert AllOnes(b[2..]);
  }

  /** UpdateCounter_for_SEED as Process calls it: by one, from byte 15. */
  method UpdateCounter(pb: array<bv8>)
    requires pb.Length == 16
    modifies pb
    ensures pb[..] == CtrNext(old(pb[..]))
  {
    hide IncByte, CtrNext;
    ghost var b := pb[..];
    var backup := pb[15];
    pb[15] := IncByte(pb[15]);
    var i := 15;
    while i > 1
      invariant 1 <= i < 16 && backup == b[i]
      invariant CarriedTo(b, pb[..], i)
    {
      StopTest(backup);
      if backup <= pb[i] {
        CarryStops(b, pb[..], i);
        return;
      }
      backup := pb[i - 1];
      pb[i - 1] := IncByte(pb[i - 1]);
      i := i - 1;
    }
    CarryRunsOut(b, pb[..]);
    pb[0] := IncByte(pb[0]);
  }

  // ---------- the mode ----------

  /** The text combined with the key stream of the counters b, CtrNext(b), ... */
  function CtrMode(c: Cipher, b: Block, x: seq<bv8>): (r: seq<bv8>)
    ensures |r| == |x|
    decreases |x|
  {
    if x == [] then []
    else
      var n := Min(16, |x|);
      Xor(x[..n], E(c, b)[..n]) + CtrMode(c, CtrNext(b), x[n..])
  }

  lemma CtrModeParts(c: Cipher, b: Block, x: seq<bv8>, i: nat)
    requires i < |x|
    ensures i < 16 ==> CtrMode(c, b, x)[i] == XorByte(x[i], E(c, b)[i])
    ensures i >= 16 ==> CtrMode(c, b, x)[i] == CtrMode(c, CtrNext(b), x[16..])[i - 16]
  {
    hide E, CtrNext, XorByte;
  }

  lemma {:induction false} CtrModeByte(c: Cipher, b: Block, x: seq<bv8>, i: nat)
    requires i < |x|
    ensures CtrMode(c, b, x)[i] == XorByte(x[i], E(c, CtrAt(b, i / 16))[i % 16])
    decreases i
  {
    hide E, CtrNext, CtrMode, XorByte;
    CtrModeParts(c, b, x, i);
    if i < 16 {
    } else {
      CtrModeByte(c, CtrNext(b), x[16..], i - 16);
      CtrShift(b, i / 16 - 1);
      assert (i - 16) / 16 == i / 16 - 1 && (i - 16) % 16 == i % 16;
    }
  }

  /** Byte i of the text, combined with its byte of the key stream. */
  lemma CtrModeAt(c: Cipher, b: Block, x: seq<bv8>, i: nat)
    requires i < |x|
    ensures CtrMode(c, b, x)[i] == x[i] ^ E(c, CtrAt(b, i / 16))[i % 16]
  {
    hide E, CtrNext, CtrMode, XorByte, CtrAt;
    CtrModeByte(c, b, x, i);
    ByteSum(x[i], E(c, CtrAt(b, i / 16))[i % 16]);
  }

  /** Enciphering twice restores a text of any length. */
  lemma {:induction false} CtrModeTwice(c: Cipher, b: Block, x: seq<bv8>)
    ensures CtrMode(c, b, CtrMode(c, b, x)) == x
    decreases |x|
  {
    hide E, Xor, CtrNext;
    if x == [] {
    } else {
      var n := Min(16, |x|);
      var y := CtrMode(c, b, x);
      var ks := E(c, b)[..n];
      assert y[..n] == Xor(x[..n], ks);
      assert y[n..] == CtrMode(c, CtrNext(b), x[n..]);
      CtrModeTwice(c, CtrNext(b), x[n..]);
      XorCancel(x[..n], ks);
      assert x == x[..n] + x[n..];
    }
  }

  lemma {:induction false} CtrShift(b: Block, n: nat)
    ensures CtrAt(CtrNext(b), n) == CtrAt(b, n + 1)
  {
    hide CtrNext;
    if n > 0 {
      CtrShift(b, n - 1);
    } else {
      assert CtrAt(b, 1) == CtrNext(CtrAt(b, 0));
    }
  }

  /** Bytes past the end of the text do not change what comes before them. */
  lemma {:induction false} CtrModePrefix(c: Cipher, b: Block, x: seq<bv8>, n: nat)
    requires n <= |x|
    ensures CtrMode(c, b, x)[..n] == CtrMode(c, b, x[..n])
    decreases |x|
  {
    hide E, Xor, CtrNext;
    if n == 0 {
    } else {
      var k, m := Min(16, |x|), Min(16, n);
      assert x[..n][..m] == x[..k][..m];
      XorTake(x[..k], E(c, b)[..k], m);
      assert E(c, b)[..k][..m] == E(c, b)[..m];
      if n > 16 {
        assert x[..n][16..] == x[16..][..n - 16];
        CtrModePrefix(c, CtrNext(b), x[16..], n - 16);
      } else {
        assert x[..n][m..] == [];
        assert CtrMode(c, CtrNext(b), []) == [];
      }
    }
  }

  lemma {:induction false} CtrModeAppend(c: Cipher, b: Block, x: seq<bv8>, y: Block, n: nat)
    requires |x| == 16 * n
    ensures CtrMode(c, b, x + y) == CtrMode(c, b, x) + Xor(y, E(c, CtrAt(b, n)))
    decreases |x|
  {
    hide E, Xor, CtrNext;
    if n == 0 {
      assert x + y == y && y[..16] == y && y[16..] == [];
      assert E(c, b)[..16] == E(c, b);
      assert CtrMode(c, CtrNext(b), []) == [];
    } else {
      assert (x + y)[..16] == x[..16] && (x + y)[16..] == x[16..] + y;
      CtrModeAppend(c, CtrNext(b), x[16..], y, n - 1);
      CtrShift(b, n - 1);
    }
  }

  /** On whole blocks this is counter mode with a 128-bit counter (section 6.5 of NIST SP 800-38A, with
      the standard incrementing function of its appendix B) if and only if every counter is right. */
  lemma {:induction false} CtrModeBlocks(c: Cipher, b: Block, x: seq<bv8>, n: nat)
    requires |x| == 16 * n
    ensures CtrMode(c, b, x) == Gctr(c, b, 16, x) <==> forall i: nat :: i < n ==> Faithful(b, i)
    decreases n
  {
    hide E, Xor, CtrMode, CtrAt, Faithful, Gctr, IncN;
    if n == 0 {
      assert x == [];
      NothingToDo(c, b);
    } else {
      var front, last := x[..16 * (n - 1)], x[16 * (n - 1)..];
      assert x == front + last;
      CtrModeBlocks(c, b, front, n - 1);
      CtrModeAppend(c, b, front, last, n - 1);
      GctrAppend(c, b, 16, front, last, n - 1);
      SameBlock(c, last, CtrAt(b, n - 1), IncN(b, 16, n - 1));
      CtrExact(b, n - 1);
      SameConcat(CtrMode(c, b, front), Gctr(c, b, 16, front),
                 Xor(last, E(c, CtrAt(b, n - 1))), Xor(last, E(c, IncN(b, 16, n - 1))));
    }
  }

  lemma NothingToDo(c: Cipher, b: Block)
    ensures CtrMode(c, b, []) == Gctr(c, b, 16, [])
  {
  }

  lemma {:induction false} GctrPrefix(c: Cipher, b: Block, x: seq<bv8>, n: nat)
    requires n <= |x|
    ensures Gctr(c, b, 16, x)[..n] == Gctr(c, b, 16, x[..n])
    decreases |x|
  {
    hide E, Xor, Inc;
    if n == 0 {
    } else {
      var k, m := Min(16, |x|), Min(16, n);
      assert x[..n][..m] == x[..k][..m];
      XorTake(x[..k], E(c, b)[..k], m);
      assert E(c, b)[..k][..m] == E(c, b)[..m];
      if n > 16 {
        assert x[..n][16..] == x[16..][..n - 16];
        GctrPrefix(c, Inc(b, 16), x[16..], n - 16);
      } else {
        assert x[..n][m..] == [];
        assert Gctr(c, Inc(b, 16), 16, []) == [];
      }
    }
  }

  /** For a text of any length: the ciphertext is the standard's if the counters of all its blocks are
      right, and only if those of its whole blocks are. */
  lemma CtrModeExact(c: Cipher, b: Block, x: seq<bv8>)
    ensures (forall i: nat :: i < BlockCount(|x|) ==> Faithful(b, i)) ==> CtrMode(c, b, x) == Gctr(c, b, 16, x)
    ensures CtrMode(c, b, x) == Gctr(c, b, 16, x) ==> forall i: nat :: i < |x| / 16 ==> Faithful(b, i)
  {
    hide CtrMode, Gctr, Faithful;
    var n, m := BlockCount(|x|), |x| / 16;
    var padded := x + Zeros(16 * n - |x|);
    assert padded[..|x|] == x;
    CtrModeBlocks(c, b, padded, n);
    CtrModePrefix(c, b, padded, |x|);
    GctrPrefix(c, b, padded, |x|);
    CtrModeBlocks(c, b, x[..16 * m], m);
    CtrModePrefix(c, b, x, 16 * m);
    GctrPrefix(c, b, x, 16 * m);
  }

  /** In particular while the low 112 bits do not overflow. */
  lemma CtrModeStandard(c: Cipher, b: Block, x: seq<bv8>)
    requires Low(b) + BlockCount(|x|) <= Pow256(14)
    ensures CtrMode(c, b, x) == Gctr(c, b, 16, x)
  {
    hide CtrMode, Gctr, Faithful, Low, Pow256, CtrAt, IncN;
    forall i: nat | i < BlockCount(|x|)
      ensures Faithful(b, i)
    {
      CtrWithinLow(b, i);
      CtrExact(b, i);
    }
    CtrModeExact(c, b, x);
  }

  /** A start, and two blocks of text, for which the ciphertext is not the standard's. */
  lemma WrongText(c: Cipher)
    ensures var b := [0, 0] + seq(14, _ => 0xFF);
            CtrMode(c, b, Zeros(32)) != Gctr(c, b, 16, Zeros(32))
  {
    var b: Block := [0, 0] + seq(14, _ => 0xFF);
    assert AllOnes(b[2..]);
    hide CtrMode, Gctr, Faithful, CtrNext, Inc, CtrAt;
    CtrModeBlocks(c, b, Zeros(32), 2);
    CtrNextExact(b);
    OneUpdate(b);
    CtrExact(b, 1);
  }

  lemma OneUpdate(b: Block)
    ensures CtrAt(b, 1) == CtrNext(b) && IncN(b, 16, 1) == Inc(b, 16)
  {
    assert CtrAt(b, 1) == CtrNext(CtrAt(b, 0));
    hide CtrNext, IncN, Inc;
    IncZero(b, 16);
    IncStep(b, 16, 0);
  }

  // ---------- the C functions ----------

  /** n rounded up to whole blocks. */
  function Up(n: nat): (m: nat)
    ensures m % 16 == 0 && n <= m < n + 16
  {
    (n + 15) / 16 * 16
  }

  /** One pass of the loop of Process: key stream first, then the text over it. */
  method CtrBlock(c: Cipher, ctr: array<bv8>, src: array<bv8>, j: nat, dst: array<bv8>, i: nat)
    requires ctr.Length == 16 && ctr != dst && src != dst && ctr != src
    requires j + 16 <= src.Length && i + 16 <= dst.Length
    modifies ctr, dst
    ensures ctr[..] == CtrNext(old(ctr[..]))
    ensures dst[..] == Overwrite(old(dst[..]), i, Xor(src[j..j + 16], E(c, old(ctr[..]))))
  {
    hide E, Xor, CtrNext, Overwrite;
    ghost var d, x, ks := dst[..], src[j..j + 16], E(c, ctr[..]);
    Put(dst, i, E(c, ctr[..]));
    OverwriteSame(d, i, ks, Xor(x, ks));
    assert dst[i..i + 16] == dst[..][i..i + 16];
    Put(dst, i, Xor(src[j..j + 16], dst[i..i + 16]));
    UpdateCounter(ctr);
    assert dst[..] == Overwrite(d, i, Xor(x, ks));
  }

  /** KISA_SEED_INFO, as far as counter mode uses it; the counter words are held as bytes. */
  class KisaSeedInfo {
    const ctr: array<bv8>
    var key: Cipher
    var bufferLength: int

    ghost predicate Valid()
      reads this
    {
      ctr.Length == 16
    }

    /** SEED_CTR_init. */
    constructor Init(t: Tables, userKey: array<bv8>, counter: array<bv8>)
      requires userKey.Length == 16 && counter.Length == 16
      ensures Valid() && fresh(ctr) && bufferLength == 0
      ensures ctr[..] == counter[..] && key == Keyed(t, userKey[..])
    {
      var rk := new bv32[32];
      SeedKeySched(t, userKey, rk);
      var copy := new bv8[16];
      OverwriteAll(copy[..], counter[..]);
      assert counter[0..16] == counter[..];
      MemCopy(copy, 0, counter, 0, 16);
      ctr := copy;
      key := Cipher(t, rk[..]);
      bufferLength := 0;
    }

    /** SEED_CTR_Process: whole blocks, the last one filled with whatever follows the text. */
    method Process(src: array<bv8>, j: nat, inLen: int, dst: array<bv8>, i: nat) returns (ok: bool, outLen: nat)
      requires Valid() && src != dst && ctr != src && ctr != dst
      requires 0 <= inLen ==> j + Up(inLen) <= src.Length && i + Up(inLen) <= dst.Length
      modifies this`bufferLength, ctr, dst
      ensures ok == (0 <= inLen)
      ensures !ok ==> bufferLength == old(bufferLength) && ctr[..] == old(ctr[..]) && dst[..] == old(dst[..])
      ensures ok ==>
        && outLen == Up(inLen) && bufferLength == inLen - outLen
        && ctr[..] == CtrAt(old(ctr[..]), outLen / 16)
        && dst[..] == Overwrite(old(dst[..]), i, CtrMode(key, old(ctr[..]), src[j..j + outLen]))
    {
      hide E, Xor, CtrMode, CtrNext, Overwrite;
      if inLen < 0 {
        return false, 0;
      }
      ghost var b, d, n := ctr[..], dst[..], 0;
      var count := 0;
      CtrNone(key, b, d, i);
      assert src[j..j + 0] == [];
      while count < inLen
        invariant count == 16 * n && count <= Up(inLen)
        invariant ctr[..] == CtrAt(b, n) && key == old(key) && bufferLength == old(bufferLength)
        invariant dst[..] == Overwrite(d, i, CtrMode(key, b, src[j..j + count]))
      {
        ghost var x, y := src[j..j + count], src[j + count..j + count + 16];
        CtrModeAppend(key, b, x, y, n);
        OverwriteTwice(d, i, CtrMode(key, b, x), Xor(y, E(key, CtrAt(b, n))));
        assert x + y == src[j..j + count + 16];
        CtrBlock(key, ctr, src, j + count, dst, i + count);
        count, n := count + 16, n + 1;
      }
      ok, outLen := true, count;
      bufferLength := inLen - outLen;
    }

    /** SEED_CTR_Close: clears what was produced past the end of the text. */
    method Close(dst: array<bv8>, i: nat) returns (outLen: nat)
      requires -16 < bufferLength <= 0 && -bufferLength <= i <= dst.Length
      modifies dst
      ensures outLen == -bufferLength
      ensures dst[..] == Overwrite(old(dst[..]), i - outLen, Zeros(outLen))
    {
      outLen := -bufferLength;
      Put(dst, i - outLen, Zeros(outLen));
    }
  }

  lemma CtrNone(c: Cipher, b: Block, d: seq<bv8>, i: nat)
    requires i <= |d|
    ensures CtrAt(b, 0) == b && Overwrite(d, i, CtrMode(c, b, [])) == d
  {
    assert CtrMode(c, b, []) == [];
  }

  /** What is left in front of the cleared bytes. */
  lemma CutOff(c: Cipher, b: Block, z: seq<bv8>, x: seq<bv8>, n: nat)
    requires |z| == |x| && n <= |x|
    ensures Overwrite(Overwrite(z, 0, CtrMode(c, b, x)), n, Zeros(|x| - n))[..n] == CtrMode(c, b, x[..n])
  {
    CtrModePrefix(c, b, x, n);
    hide CtrMode;
    OverwriteAll(z, CtrMode(c, b, x));
  }

  /** SEED_CTR_Encrypt; SEED_CTR_Decrypt is the same function. */
  method SeedCtrEncrypt(t: Tables, userKey: array<bv8>, counter: array<bv8>, input: array<bv8>, n: nat,
                        output: array<bv8>)
    returns (len: nat)
    requires userKey.Length == 16 && counter.Length == 16 && n <= input.Length && n <= output.Length
    modifies output
    ensures len == n
    ensures output[..] ==
            Overwrite(old(output[..]), 0, CtrMode(Keyed(t, old(userKey[..])), old(counter[..]), old(input[..n])))
  {
    hide CtrMode, Keyed, Overwrite, CtrAt;
    var info := new KisaSeedInfo.Init(t, userKey, counter);
    var outbuf, data := new bv8[Up(n)], new bv8[Up(n)];
    ghost var x, w, b := input[..n], data[..], counter[..];
    assert input[0..n] == x;
    OverwriteSame(w, 0, x, x);
    MemCopy(data, 0, input, 0, n);
    ghost var z, padded := outbuf[..], data[..];
    assert padded[..n] == x;
    assert data[0..0 + Up(n)] == padded;
    var ok, outLen := info.Process(data, 0, n, outbuf, 0);
    var cut := info.Close(outbuf, outLen);
    CutOff(info.key, b, z, padded, n);
    assert outbuf[0..n] == outbuf[..][..n];
    MemCopy(output, 0, outbuf, 0, outLen - cut);
    return outLen - cut;
  }
}
