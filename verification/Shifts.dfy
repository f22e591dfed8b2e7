/** The macro SHIFTR: a 128-bit value held in four words is shifted right by 1, 8 or 16 bits. */
module Shifts {
  import opened Words
  import opened Gf128

  function Shiftr1(w: bv32, left: bv32): bv32 { (w >> 1) ^ (left << 31) }

  function Shiftr8(w: bv32, left: bv32): bv32 { (w >> 8) ^ (left << 24) }

  lemma Shiftr1Bytes(w: bv32, left: bv32)
    ensures WordBytes(Shiftr1(w, left)) ==
            [Carry(Byte3(left), Byte0(w)), Carry(Byte0(w), Byte1(w)),
             Carry(Byte1(w), Byte2(w)), Carry(Byte2(w), Byte3(w))]
  {
  }

  lemma Shiftr8Bytes(w: bv32, left: bv32)
    ensures WordBytes(Shiftr8(w, left)) == [Byte3(left), Byte0(w), Byte1(w), Byte2(w)]
  {
  }

  function QuadShiftr1(q: Quad): Quad {
    [Shiftr1(q[0], 0), Shiftr1(q[1], q[0]), Shiftr1(q[2], q[1]), Shiftr1(q[3], q[2])]
  }

  function QuadShiftr8(q: Quad): Quad {
    [Shiftr8(q[0], 0), Shiftr8(q[1], q[0]), Shiftr8(q[2], q[1]), Shiftr8(q[3], q[2])]
  }

  lemma NoByte()
    ensures WordBytes(0)[3] == 0
  {
  }

  lemma Shiftr1At(w: bv32, left: bv32, r: nat)
    requires r < 4
    ensures WordBytes(Shiftr1(w, left))[r] ==
            Carry(if r == 0 then WordBytes(left)[3] else WordBytes(w)[r - 1], WordBytes(w)[r])
  {
    hide Byte0, Byte1, Byte2, Byte3, Carry, Shiftr1;
    Shiftr1Bytes(w, left);
  }

  lemma Shiftr8At(w: bv32, left: bv32, r: nat)
    requires r < 4
    ensures WordBytes(Shiftr8(w, left))[r] == if r == 0 then WordBytes(left)[3] else WordBytes(w)[r - 1]
  {
    hide Byte0, Byte1, Byte2, Byte3, Shiftr8;
    Shiftr8Bytes(w, left);
  }

  function LeftOf(q: Quad, k: nat): bv32
    requires k < 4
  {
    if k == 0 then 0 else q[k - 1]
  }

  /** The byte in front of byte r of word k. */
  function PrevByte(q: Quad, k: nat, r: nat): bv8
    requires k < 4 && r < 4
  {
    if r > 0 then WordBytes(q[k])[r - 1] else WordBytes(LeftOf(q, k))[3]
  }

  lemma PrevByteAt(q: Quad, i: nat)
    requires i < 16
    ensures PrevByte(q, i / 4, i % 4) == if i == 0 then 0 else Bytes(q)[i - 1]
  {
    NoByte();
    hide WordBytes, Bytes;
    if i > 0 { BytesAt(q, i - 1); }
  }

  lemma QuadShiftr1Word(q: Quad, k: nat)
    requires k < 4
    ensures QuadShiftr1(q)[k] == Shiftr1(q[k], LeftOf(q, k))
  {
    hide Shiftr1;
  }

  lemma QuadShiftr8Word(q: Quad, k: nat)
    requires k < 4
    ensures QuadShiftr8(q)[k] == Shiftr8(q[k], LeftOf(q, k))
  {
    hide Shiftr8;
  }

  lemma QuadShiftr1At(q: Quad, k: nat, r: nat)
    requires k < 4 && r < 4
    ensures WordBytes(QuadShiftr1(q)[k])[r] == Carry(PrevByte(q, k, r), WordBytes(q[k])[r])
  {
    hide WordBytes, Carry, Shiftr1, QuadShiftr1, LeftOf;
    QuadShiftr1Word(q, k);
    Shiftr1At(q[k], LeftOf(q, k), r);
  }

  lemma QuadShiftr8At(q: Quad, k: nat, r: nat)
    requires k < 4 && r < 4
    ensures WordBytes(QuadShiftr8(q)[k])[r] == PrevByte(q, k, r)
  {
    hide WordBytes, Shiftr8, QuadShiftr8, LeftOf;
    QuadShiftr8Word(q, k);
    Shiftr8At(q[k], LeftOf(q, k), r);
  }

  lemma QuadShiftr1Bytes(q: Quad)
    ensures Bytes(QuadShiftr1(q)) == Shr1(Bytes(q))
  {
    hide Carry, Bytes, QuadShiftr1, PrevByte, WordBytes;
    forall i | 0 <= i < 16
      ensures Bytes(QuadShiftr1(q))[i] == Shr1(Bytes(q))[i]
    {
      BytesAt(QuadShiftr1(q), i);
      BytesAt(q, i);
      PrevByteAt(q, i);
      QuadShiftr1At(q, i / 4, i % 4);
    }
  }

  lemma QuadShiftr8Bytes(q: Quad)
    ensures Bytes(QuadShiftr8(q)) == [0] + Bytes(q)[..15]
  {
    hide Bytes, QuadShiftr8, PrevByte, WordBytes;
    forall i | 0 <= i < 16
      ensures Bytes(QuadShiftr8(q))[i] == ([0] + Bytes(q)[..15])[i]
    {
      BytesAt(QuadShiftr8(q), i);
      PrevByteAt(q, i);
      QuadShiftr8At(q, i / 4, i % 4);
    }
  }

  // ---------- sixteen bits ----------

  function Shiftr16(w: bv32, left: bv32): bv32 { (w >> 16) ^ (left << 16) }

  function QuadShiftr16(q: Quad): Quad {
    [Shiftr16(q[0], 0), Shiftr16(q[1], q[0]), Shiftr16(q[2], q[1]), Shiftr16(q[3], q[2])]
  }

  lemma Shiftr16Word(w: bv32, left: bv32, left2: bv32)
    ensures Shiftr16(w, left) == Shiftr8(Shiftr8(w, left), Shiftr8(left, left2))
  {
  }

  lemma QuadShiftr16IsTwice(q: Quad)
    ensures QuadShiftr16(q) == QuadShiftr8(QuadShiftr8(q))
  {
    Shiftr8Zero();
    Shiftr16Word(q[0], 0, 0);
    Shiftr16Word(q[1], q[0], 0);
    Shiftr16Word(q[2], q[1], q[0]);
    Shiftr16Word(q[3], q[2], q[1]);
    hide Shiftr8, Shiftr16;
  }

  lemma QuadShiftr16Bytes(q: Quad)
    ensures Bytes(QuadShiftr16(q)) == [0, 0] + Bytes(q)[..14]
  {
    hide Bytes, QuadShiftr8, QuadShiftr16;
    QuadShiftr16IsTwice(q);
    QuadShiftr8Bytes(q);
    QuadShiftr8Bytes(QuadShiftr8(q));
  }

  lemma Shiftr8Zero()
    ensures Shiftr8(0, 0) == 0
  {
  }

  // ---------- in place ----------

  /** The macro SHIFTR with n = 1, which writes the last word first. */
  method Shiftr1Words(w: array<bv32>)
    requires w.Length == 4
    modifies w
    ensures w[..] == QuadShiftr1(old(w[..]))
  {
    w[3] := Shiftr1(w[3], w[2]);
    w[2] := Shiftr1(w[2], w[1]);
    w[1] := Shiftr1(w[1], w[0]);
    w[0] := Shiftr1(w[0], 0);
  }

  method Shiftr8Words(w: array<bv32>)
    requires w.Length == 4
    modifies w
    ensures w[..] == QuadShiftr8(old(w[..]))
  {
    w[3] := Shiftr8(w[3], w[2]);
    w[2] := Shiftr8(w[2], w[1]);
    w[1] := Shiftr8(w[1], w[0]);
    w[0] := Shiftr8(w[0], 0);
  }

  method Shiftr16Words(w: array<bv32>)
    requires w.Length == 4
    modifies w
    ensures w[..] == QuadShiftr16(old(w[..]))
  {
    w[3] := Shiftr16(w[3], w[2]);
    w[2] := Shiftr16(w[2], w[1]);
    w[1] := Shiftr16(w[1], w[0]);
    w[0] := Shiftr16(w[0], 0);
  }
}
