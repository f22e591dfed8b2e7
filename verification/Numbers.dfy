/** Byte strings as big-endian numbers, and the counter increments built on them. */
module Numbers {
  import opened Words

  function Pow256(k: nat): (r: nat)
    ensures r > 0
  {
    if k == 0 then 1 else 256 * Pow256(k - 1)
  }

  function Val(b: bv8): (n: nat)
    ensures n < 256
  {
    b as nat
  }

  /** The number a byte string denotes, most significant byte first. */
  function Num(s: seq<bv8>): nat {
    if s == [] then 0 else 256 * Num(s[..|s| - 1]) + Val(s[|s| - 1])
  }

  function Twice(b: bv8): bv8 { b << 1 }

  function TwicePlusOne(b: bv8): bv8 { (b << 1) | 1 }

  /** The byte whose value is n. */
  function ByteOf(n: nat): bv8
    requires n < 256
  {
    if n == 0 then 0 else if n % 2 == 0 then Twice(ByteOf(n / 2)) else TwicePlusOne(ByteOf(n / 2))
  }

  /** The low k bytes of a number, most significant first. */
  function BE(n: nat, k: nat): (r: seq<bv8>)
    ensures |r| == k
    decreases k
  {
    if k == 0 then [] else BE(n / 256, k - 1) + [ByteOf(n % 256)]
  }

  lemma TwiceValue(b: bv8)
    requires Val(b) < 128
    ensures Val(Twice(b)) == 2 * Val(b)
    ensures Val(TwicePlusOne(b)) == 2 * Val(b) + 1
  {
  }

  lemma {:induction false} ByteOfValue(n: nat)
    requires n < 256
    ensures Val(ByteOf(n)) == n
  {
    hide Twice, TwicePlusOne, Val;
    ZeroValue();
    if n == 0 {
    } else {
      ByteOfValue(n / 2);
      TwiceValue(ByteOf(n / 2));
    }
  }

  lemma ZeroValue()
    ensures Val(0) == 0
  {
  }

  lemma ByteInjective(a: bv8, b: bv8)
    requires Val(a) == Val(b)
    ensures a == b
  {
  }

  lemma ByteValue(b: bv8)
    ensures ByteOf(Val(b)) == b
  {
    ByteOfValue(Val(b));
    hide ByteOf;
    ByteInjective(ByteOf(Val(b)), b);
  }

  lemma {:induction false} NumBound(s: seq<bv8>)
    ensures Num(s) < Pow256(|s|)
  {
    hide Val;
    if s == [] {
    } else {
      NumBound(s[..|s| - 1]);
    }
  }

  lemma {:induction false} NumBE(n: nat, k: nat)
    requires n < Pow256(k)
    ensures Num(BE(n, k)) == n
    decreases k
  {
    hide Val, ByteOf;
    if k == 0 {
    } else {
      var s := BE(n, k);
      assert s[..|s| - 1] == BE(n / 256, k - 1);
      ByteOfValue(n % 256);
      NumBE(n / 256, k - 1);
    }
  }

  lemma {:induction false} BENum(s: seq<bv8>)
    ensures BE(Num(s), |s|) == s
  {
    hide Val, ByteOf;
    if s == [] {
    } else {
      ByteValue(s[|s| - 1]);
      BENum(s[..|s| - 1]);
    }
  }

  lemma {:induction false} NumAppend(s: seq<bv8>, t: seq<bv8>)
    ensures Num(s + t) == Num(s) * Pow256(|t|) + Num(t)
    decreases |t|
  {
    hide Val;
    if t == [] {
      assert s + t == s;
    } else {
      var t' := t[..|t| - 1];
      assert (s + t)[..|s + t| - 1] == s + t';
      NumAppend(s, t');
      NumUnfold(s + t);
      NumUnfold(t);
      Times256(Num(s), Pow256(|t'|));
    }
  }

  lemma Times256(a: nat, p: nat)
    ensures a * (256 * p) == 256 * (a * p)
  {
  }

  lemma NumUnfold(s: seq<bv8>)
    requires s != []
    ensures Num(s) == 256 * Num(s[..|s| - 1]) + Val(s[|s| - 1])
  {
  }

  lemma Pow256Values()
    ensures Pow256(2) == 0x1_0000 && Pow256(4) == 0x1_0000_0000 && Pow256(8) == 0x1_0000_0000_0000_0000
  {
    assert Pow256(2) == 0x1_0000;
    assert Pow256(4) == 256 * Pow256(3) && Pow256(3) == 256 * Pow256(2);
    assert Pow256(6) == 256 * Pow256(5) && Pow256(5) == 256 * Pow256(4);
    assert Pow256(8) == 256 * Pow256(7) && Pow256(7) == 256 * Pow256(6);
  }

  // ---------- incrementing the last k bytes of a block ----------

  /** inc_s of section 6.2 of NIST SP 800-38D, s = 8k: the last k bytes count modulo 256^k. */
  function Inc(b: Block, k: nat): Block
    requires k <= 16
  {
    b[..16 - k] + BE((Num(b[16 - k..]) + 1) % Pow256(k), k)
  }

  /** The counter n increments after b. */
  function IncN(b: Block, k: nat, n: nat): Block
    requires k <= 16
  {
    b[..16 - k] + BE((Num(b[16 - k..]) + n) % Pow256(k), k)
  }

  lemma IncZero(b: Block, k: nat)
    requires k <= 16
    ensures IncN(b, k, 0) == b
  {
    NumBound(b[16 - k..]);
    BENum(b[16 - k..]);
    hide Num, BE, Pow256;
    ModSmall(Num(b[16 - k..]), Pow256(k));
  }

  lemma ModSmall(n: nat, p: nat)
    requires n < p
    ensures n % p == n
  {
  }

  lemma IncParts(b: Block, k: nat)
    requires k <= 16
    ensures var x := (Num(b[16 - k..]) + 1) % Pow256(k);
            Inc(b, k)[..16 - k] == b[..16 - k] && Inc(b, k)[16 - k..] == BE(x, k) && Num(Inc(b, k)[16 - k..]) == x
  {
    NumBE((Num(b[16 - k..]) + 1) % Pow256(k), k);
    hide Num, BE, Pow256;
  }

  lemma IncNParts(b: Block, k: nat, n: nat)
    requires k <= 16
    ensures var x := (Num(b[16 - k..]) + n) % Pow256(k);
            IncN(b, k, n)[..16 - k] == b[..16 - k] && IncN(b, k, n)[16 - k..] == BE(x, k) &&
            Num(IncN(b, k, n)[16 - k..]) == x
  {
    NumBE((Num(b[16 - k..]) + n) % Pow256(k), k);
    hide Num, BE, Pow256;
  }

  lemma SameParts(a: Block, b: Block, i: nat)
    requires i <= 16 && a[..i] == b[..i] && a[i..] == b[i..]
    ensures a == b
  {
    assert a == a[..i] + a[i..] && b == b[..i] + b[i..];
  }

  lemma IncStepBefore(b: Block, k: nat, n: nat)
    requires k <= 16
    ensures IncN(Inc(b, k), k, n) == IncN(b, k, n + 1)
  {
    hide Inc, IncN, Num, BE, Pow256;
    IncParts(b, k);
    IncNParts(Inc(b, k), k, n);
    IncNParts(b, k, n + 1);
    ModAdd(Num(b[16 - k..]) + 1, n, Pow256(k));
    SameParts(IncN(Inc(b, k), k, n), IncN(b, k, n + 1), 16 - k);
  }

  lemma IncStepAfter(b: Block, k: nat, n: nat)
    requires k <= 16
    ensures Inc(IncN(b, k, n), k) == IncN(b, k, n + 1)
  {
    hide Inc, IncN, Num, BE, Pow256;
    IncNParts(b, k, n);
    IncParts(IncN(b, k, n), k);
    IncNParts(b, k, n + 1);
    ModAdd(Num(b[16 - k..]) + n, 1, Pow256(k));
    SameParts(Inc(IncN(b, k, n), k), IncN(b, k, n + 1), 16 - k);
  }

  lemma IncStep(b: Block, k: nat, n: nat)
    requires k <= 16
    ensures IncN(Inc(b, k), k, n) == IncN(b, k, n + 1)
    ensures Inc(IncN(b, k, n), k) == IncN(b, k, n + 1)
  {
    hide Inc, IncN;
    IncStepBefore(b, k, n);
    IncStepAfter(b, k, n);
  }

  lemma DivUnique(x: nat, q: nat, r: nat, p: nat)
    requires r < p && x == q * p + r
    ensures x % p == r && x / p == q
  {
    var d := x / p;
    assert x == d * p + x % p;
    MulGap(q, d, p);
    MulGap(d, q, p);
  }

  lemma MulGap(a: nat, b: nat, p: nat)
    ensures a < b ==> a * p + p <= b * p
  {
    if a < b {
      Distribute(b - a - 1, a + 1, p);
      Distribute(a, 1, p);
      assert (b - a - 1) + (a + 1) == b && (b - a - 1) * p >= 0;
    }
  }

  lemma ModOnce(y: nat, p: nat)
    requires p > 0
    ensures (y + p) % p == y % p
  {
    assert (y / p + 1) * p == y / p * p + p;
    DivUnique(y + p, y / p + 1, y % p, p);
  }

  lemma DivIs(a: nat, p: nat)
    requires p > 0
    ensures a == a / p * p + a % p && a % p < p
  {
  }

  lemma Distribute(a: nat, b: nat, p: nat)
    ensures (a + b) * p == a * p + b * p
  {
  }

  lemma ModAdd(a: nat, b: nat, p: nat)
    requires p > 0
    ensures (a % p + b) % p == (a + b) % p
  {
    var q, x := a / p, a % p + b;
    DivIs(a, p);
    DivIs(x, p);
    Distribute(q, x / p, p);
    DivUnique(a + b, q + x / p, x % p, p);
  }

  /** Counters fewer than 256^k steps apart differ. */
  lemma IncDistinct(b: Block, k: nat, m: nat, n: nat)
    requires k <= 16 && m < n < m + Pow256(k)
    ensures IncN(b, k, m) != IncN(b, k, n)
  {
    var v := Num(b[16 - k..]);
    IncNLow(b, k, m);
    IncNLow(b, k, n);
    hide Num, BE, Pow256, IncN;
    ModDistinct(v + m, n - m, Pow256(k));
  }

  /** The number in the counting bytes. */
  lemma IncNLow(b: Block, k: nat, n: nat)
    requires k <= 16
    ensures Num(IncN(b, k, n)[16 - k..]) == (Num(b[16 - k..]) + n) % Pow256(k)
  {
    hide Num, BE, Pow256, IncN;
    IncNParts(b, k, n);
  }

  lemma ModDistinct(a: nat, d: nat, p: nat)
    requires 0 < d < p
    ensures a % p != (a + d) % p
  {
    var q, q' := a / p, (a + d) / p;
    assert a == q * p + a % p && a + d == q' * p + (a + d) % p;
    MulGap(q, q', p);
    MulGap(q', q, p);
  }

  /** Counting in the last k bytes and in the last j > k bytes first differs when k bytes overflow. */
  lemma IncWidth(b: Block, k: nat, j: nat)
    requires 0 < k < j <= 16
    ensures Inc(b, k) == Inc(b, j) <==> Num(b[16 - k..]) + 1 < Pow256(k)
  {
    if Num(b[16 - k..]) + 1 < Pow256(k) {
      IncNoCarry(b, k, j);
    } else {
      IncCarry(b, k, j);
    }
  }

  lemma IncNoCarry(b: Block, k: nat, j: nat)
    requires 0 < k < j <= 16
    requires Num(b[16 - k..]) + 1 < Pow256(k)
    ensures Inc(b, k) == Inc(b, j)
  {
    hide Num, Pow256, BE;
    var hi, lo := b[16 - j..16 - k], b[16 - k..];
    var x, y, p, q := Num(hi), Num(lo), Pow256(k), Pow256(j - k);
    SplitNumber(b, k, j);
    NumBound(hi);
    BENum(hi);
    Pow256Add(j - k, k);
    MulGap(x, q, p);
    BEAppend(x, y + 1, j - k, k);
    ModSmall(x * p + (y + 1), Pow256(j));
    ModSmall(y + 1, p);
    SplitBlock(b, k, j, BE(y + 1, k));
  }

  lemma SplitBlock(b: Block, k: nat, j: nat, t: seq<bv8>)
    requires 0 < k < j <= 16
    ensures b[..16 - j] + (b[16 - j..16 - k] + t) == b[..16 - k] + t
  {
  }

  lemma SplitNumber(b: Block, k: nat, j: nat)
    requires 0 < k < j <= 16
    ensures Num(b[16 - j..]) == Num(b[16 - j..16 - k]) * Pow256(k) + Num(b[16 - k..])
  {
    hide Num, Pow256;
    assert b[16 - j..] == b[16 - j..16 - k] + b[16 - k..];
    NumAppend(b[16 - j..16 - k], b[16 - k..]);
  }

  lemma IncCarry(b: Block, k: nat, j: nat)
    requires 0 < k < j <= 16
    requires Num(b[16 - k..]) + 1 >= Pow256(k)
    ensures Inc(b, k)[16 - j..16 - k] != Inc(b, j)[16 - j..16 - k]
  {
    hide Num, Pow256, BE;
    var hi, lo := b[16 - j..16 - k], b[16 - k..];
    var x, p, q := Num(hi), Pow256(k), Pow256(j - k);
    SplitNumber(b, k, j);
    NumBound(lo);
    NumBound(hi);
    Pow256Big(j - k);
    NumBE((x + 1) % q, j - k);
    CarryOut(x, p, q, j - k, k);
    assert x * p + p == (x + 1) * p;
    var tail := BE(((x + 1) * p) % Pow256(j), j);
    SplitSlices(b, k, j, tail, BE((Num(lo) + 1) % p, k));
    ModSmall(x, q);
    ModDistinct(x, 1, q);
  }

  lemma SplitSlices(b: Block, k: nat, j: nat, tail: seq<bv8>, t: seq<bv8>)
    requires 0 < k < j <= 16 && |tail| == j && |t| == k
    ensures (b[..16 - j] + tail)[16 - j..16 - k] == tail[..j - k]
    ensures (b[..16 - k] + t)[16 - j..16 - k] == b[16 - j..16 - k]
  {
  }

  lemma Pow256Big(k: nat)
    requires k > 0
    ensures Pow256(k) >= 256
  {
  }

  lemma {:induction false} Pow256Add(j: nat, k: nat)
    ensures Pow256(j + k) == Pow256(j) * Pow256(k)
    decreases k
  {
    if k == 0 {
    } else {
      Pow256Add(j, k - 1);
      assert Pow256(j) * (256 * Pow256(k - 1)) == 256 * (Pow256(j) * Pow256(k - 1));
    }
  }

  /** A number split at a byte boundary is the concatenation of its parts. */
  lemma BEAppend(x: nat, y: nat, j: nat, k: nat)
    requires y < Pow256(k) && x < Pow256(j)
    ensures BE(x * Pow256(k) + y, j + k) == BE(x, j) + BE(y, k)
  {
    hide Num, BE, Pow256;
    var s, t := BE(x, j), BE(y, k);
    NumBE(x, j);
    NumBE(y, k);
    NumAppend(s, t);
    BENum(s + t);
  }

  lemma CarryOut(x: nat, p: nat, q: nat, j: nat, k: nat)
    requires p == Pow256(k) && q == Pow256(j) && x < q
    ensures BE(((x + 1) * p) % Pow256(j + k), j + k)[..j] == BE((x + 1) % q, j)
  {
    Pow256Add(j, k);
    hide Pow256, BE;
    if x + 1 < q {
      MulGap(x + 1, q, p);
      ModSmall((x + 1) * p, Pow256(j + k));
      ModSmall(x + 1, q);
      BEAppend(x + 1, 0, j, k);
    } else {
      ModOnce(0, Pow256(j + k));
      ModOnce(0, q);
      assert 0 * p == 0;
      BEAppend(0, 0, j, k);
    }
  }

  lemma ByteOfEquals(b: bv8, n: nat)
    requires n < 256 && Val(b) == n
    ensures b == ByteOf(n)
  {
    hide ByteOf, Val;
    ByteOfValue(n);
    ByteValue(b);
  }

  lemma {:induction false} BEZero(k: nat)
    ensures BE(0, k) == Zeros(k)
  {
    hide ByteOf;
    assert ByteOf(0) == 0 by { ZeroValue(); ByteOfEquals(0, 0); }
    if k == 0 {
    } else {
      BEZero(k - 1);
      assert Zeros(k) == Zeros(k - 1) + [0];
    }
  }

  /** Leading zero bytes do not change a number. */
  lemma BEExtend(n: nat, k: nat, j: nat)
    requires n < Pow256(k)
    ensures BE(n, j + k) == Zeros(j) + BE(n, k)
  {
    hide BE, Pow256;
    BEZero(j);
    BEAppend(0, n, j, k);
  }
}
