/** Words as numbers: increment, addition and subtraction modulo 2^32. */
module WordSums {
  import opened Words
  import opened Numbers

  // ---------- increment ----------

  function IncW(w: bv32): bv32 { w + 1 }

  function IncByte(b: bv8): bv8 { b + 1 }

  lemma IncWBytes(w: bv32)
    ensures Byte3(w) != 0xFF ==> WordBytes(IncW(w)) == [Byte0(w), Byte1(w), Byte2(w), IncByte(Byte3(w))]
  {
  }

  lemma IncWBytes2(w: bv32)
    ensures Byte3(w) == 0xFF && Byte2(w) != 0xFF ==>
            WordBytes(IncW(w)) == [Byte0(w), Byte1(w), IncByte(Byte2(w)), 0]
  {
  }

  lemma IncWBytes1(w: bv32)
    ensures Byte3(w) == 0xFF && Byte2(w) == 0xFF && Byte1(w) != 0xFF ==>
            WordBytes(IncW(w)) == [Byte0(w), IncByte(Byte1(w)), 0, 0]
  {
  }

  lemma IncWBytes0(w: bv32)
    ensures Byte3(w) == 0xFF && Byte2(w) == 0xFF && Byte1(w) == 0xFF ==>
            WordBytes(IncW(w)) == [IncByte(Byte0(w)), 0, 0, 0]
    ensures w == 0xFFFFFFFF <==>
            Byte3(w) == 0xFF && Byte2(w) == 0xFF && Byte1(w) == 0xFF && Byte0(w) == 0xFF
  {
  }

  lemma IncByteValue(b: bv8)
    ensures Val(0xFF) == 255 && Val(0) == 0
    ensures Val(b) == 255 <==> b == 0xFF
    ensures b != 0xFF ==> Val(IncByte(b)) == Val(b) + 1
    ensures IncByte(0xFF) == 0
  {
  }

  lemma NumFour(a: bv8, b: bv8, c: bv8, d: bv8)
    ensures Num([a, b, c, d]) == ((Val(a) * 256 + Val(b)) * 256 + Val(c)) * 256 + Val(d)
  {
    hide Val;
    assert [a, b, c, d][..3] == [a, b, c];
    assert [a, b, c][..2] == [a, b];
    assert [a, b][..1] == [a];
    assert Num([a]) == Val(a);
    assert Num([a, b]) == 256 * Num([a]) + Val(b);
    assert Num([a, b, c]) == 256 * Num([a, b]) + Val(c);
  }

  /** Word addition modulo 2^32 as numbers. */
  lemma IncWNum(w: bv32)
    ensures w != 0xFFFFFFFF <==> Num(WordBytes(w)) + 1 < 0x1_0000_0000
    ensures w != 0xFFFFFFFF ==> Num(WordBytes(IncW(w))) == Num(WordBytes(w)) + 1
    ensures w == 0xFFFFFFFF ==> WordBytes(IncW(w)) == [0, 0, 0, 0]
  {
    IncWBytes(w);
    IncWBytes2(w);
    IncWBytes1(w);
    IncWBytes0(w);
    var a, b, c, d := Byte0(w), Byte1(w), Byte2(w), Byte3(w);
    IncByteValue(a);
    IncByteValue(b);
    IncByteValue(c);
    IncByteValue(d);
    hide Val, Num, IncByte, Byte0, Byte1, Byte2, Byte3, IncW;
    NumFour(a, b, c, d);
    NumFour(a, b, c, IncByte(d));
    NumFour(a, b, IncByte(c), 0);
    NumFour(a, IncByte(b), 0, 0);
    NumFour(IncByte(a), 0, 0, 0);
  }

  lemma ZeroWordBytes()
    ensures WordBytes(0) == [0, 0, 0, 0] && Num([0, 0, 0, 0]) == 0
  {
    NumFour(0, 0, 0, 0);
    IncByteValue(0);
  }

  // ---------- addition ----------

  const TWO_32: nat := 0x1_0000_0000

  /** The number a word denotes. */
  function NumW(w: bv32): nat { Num(WordBytes(w)) }

  /** The word s is the sum of the words a and b modulo 2^32. */
  ghost predicate IsSum(s: bv32, a: bv32, b: bv32) {
    NumW(s) == (NumW(a) + NumW(b)) % TWO_32
  }

  /** Addition of unsigned 32-bit words, which wraps. */
  function AddW(a: bv32, b: bv32): bv32 { a + b }

  function DecW(w: bv32): bv32 { w - 1 }

  lemma AddOne(a: bv32, b: bv32)
    requires b != 0
    ensures IncW(DecW(b)) == b && AddW(a, b) == IncW(AddW(a, DecW(b))) && DecW(b) != 0xFFFFFFFF
  {
  }

  lemma AddNothing(a: bv32)
    ensures AddW(a, 0) == a
  {
  }

  lemma NumWZero()
    ensures NumW(0) == 0
  {
    hide WordBytes, Num;
    ZeroWordBytes();
  }

  lemma NumWBound(w: bv32)
    ensures NumW(w) < TWO_32
  {
    hide WordBytes, Num;
    NumBound(WordBytes(w));
    Pow256Values();
  }

  lemma IncWSum(w: bv32)
    ensures NumW(IncW(w)) == (NumW(w) + 1) % TWO_32
  {
    IncWNum(w);
    NumWBound(w);
    hide WordBytes, Num;
    NumWZero();
    if w == 0xFFFFFFFF {
      ZeroWordBytes();
    }
  }

  lemma DecNum(b: bv32)
    requires b != 0
    ensures NumW(b) == NumW(DecW(b)) + 1
  {
    AddOne(0, b);
    IncWNum(DecW(b));
    hide WordBytes, Num;
  }

  lemma NextSum(x: nat, y: nat)
    ensures ((x + y) % TWO_32 + 1) % TWO_32 == (x + (y + 1)) % TWO_32
  {
  }

  /** Addition of words is addition of numbers modulo 2^32. */
  lemma {:induction false} AddIsSum(a: bv32, b: bv32)
    ensures IsSum(AddW(a, b), a, b)
    decreases NumW(b)
  {
    hide AddW, IncW, DecW, NumW;
    NumWBound(a);
    if b == 0 {
      NumWZero();
      AddNothing(a);
    } else {
      DecNum(b);
      AddIsSum(a, DecW(b));
      AddOne(a, b);
      IncWSum(AddW(a, DecW(b)));
      NextSum(NumW(a), NumW(DecW(b)));
    }
  }

  lemma WordOfNum(w: bv32, v: bv32)
    requires NumW(w) == NumW(v)
    ensures w == v
  {
    hide WordBytes, Num, BE, Word, Byte0, Byte1, Byte2, Byte3;
    BENum(WordBytes(w));
    BENum(WordBytes(v));
    WordRoundTrip(w);
    WordRoundTrip(v);
    assert WordBytes(w) == WordBytes(v);
    SameWordBytes(w, v);
  }

  lemma SameWordBytes(w: bv32, v: bv32)
    requires WordBytes(w) == WordBytes(v)
    ensures w == v
  {
    hide Word, Byte0, Byte1, Byte2, Byte3;
    var s, t := WordBytes(w), WordBytes(v);
    assert s[0] == t[0] && s[1] == t[1] && s[2] == t[2] && s[3] == t[3];
    WordRoundTrip(w);
    WordRoundTrip(v);
  }

  /** A sum modulo 2^32 is the one word. */
  lemma SumIsAdd(s: bv32, a: bv32, b: bv32)
    requires IsSum(s, a, b)
    ensures s == AddW(a, b)
  {
    hide NumW, AddW;
    AddIsSum(a, b);
    WordOfNum(s, AddW(a, b));
  }

  // ---------- subtraction ----------

  function NegW(b: bv32): bv32 { -b }

  /** Subtraction of unsigned 32-bit words, which wraps. */
  function SubW(a: bv32, b: bv32): bv32 { AddW(a, NegW(b)) }

  lemma NegOne(b: bv32)
    requires b != 0
    ensures NegW(DecW(b)) == IncW(NegW(b))
  {
  }

  lemma NegNothing()
    ensures NegW(0) == 0
  {
  }

  /** A word and its negative have the sum 0. */
  lemma {:induction false} NegSum(b: bv32)
    ensures IsSum(0, b, NegW(b))
    decreases NumW(b)
  {
    hide NegW, IncW, DecW, NumW;
    NumWZero();
    if b == 0 {
      NegNothing();
    } else {
      DecNum(b);
      NegSum(DecW(b));
      NegOne(b);
      IncWSum(NegW(b));
      NextSum(NumW(DecW(b)), NumW(NegW(b)));
    }
  }

  /** The difference and what was taken away have the sum they come from. */
  lemma SubIsDifference(a: bv32, b: bv32)
    ensures IsSum(a, SubW(a, b), b)
  {
    hide AddW, NegW, NumW;
    AddIsSum(a, NegW(b));
    NegSum(b);
    NumWZero();
    NumWBound(a);
    ModAdd(NumW(a) + NumW(NegW(b)), NumW(b), TWO_32);
    ModAdd(NumW(b) + NumW(NegW(b)), NumW(a), TWO_32);
  }

  /** Modulo 2^32 the words x and y have the sum of the words a and b. */
  ghost predicate SameSum(x: bv32, y: bv32, a: bv32, b: bv32) {
    (NumW(x) + NumW(y)) % TWO_32 == (NumW(a) + NumW(b)) % TWO_32
  }

  lemma DifferenceIs(x: bv32, y: bv32, a: bv32, b: bv32)
    requires SameSum(x, y, a, b)
    ensures x == SubW(AddW(a, b), y)
  {
    hide NumW, AddW, SubW;
    var s := AddW(a, b);
    AddIsSum(a, b);
    SubIsDifference(s, y);
    SameRemainder(NumW(x), NumW(SubW(s, y)), NumW(y), x, SubW(s, y));
  }

  lemma SameRemainder(m: nat, n: nat, k: nat, x: bv32, y: bv32)
    requires m == NumW(x) && n == NumW(y) && (m + k) % TWO_32 == (n + k) % TWO_32
    ensures x == y
  {
    hide NumW;
    NumWBound(x);
    NumWBound(y);
    if m < n {
      ModDistinct(m + k, n - m, TWO_32);
    } else if n < m {
      ModDistinct(n + k, m - n, TWO_32);
    }
    WordOfNum(x, y);
  }

  lemma SubThenAdd(b: bv32, d: bv32, k: bv32)
    ensures AddW(SubW(b, d), k) == SubW(AddW(b, k), d)
  {
    hide NumW, AddW, SubW;
    var x := AddW(SubW(b, d), k);
    AddIsSum(SubW(b, d), k);
    SubIsDifference(b, d);
    ModAdd(NumW(SubW(b, d)) + NumW(k), NumW(d), TWO_32);
    ModAdd(NumW(SubW(b, d)) + NumW(d), NumW(k), TWO_32);
    DifferenceIs(x, d, b, k);
  }
}
