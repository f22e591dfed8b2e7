/** Writing into a part of a byte buffer. */
module Buffers {
  import opened Words

  /** The bytes d with those from start on replaced by b. */
  function Overwrite(d: seq<bv8>, start: nat, b: seq<bv8>): (r: seq<bv8>)
    requires start + |b| <= |d|
    ensures |r| == |d|
  {
    d[..start] + b + d[start + |b|..]
  }

  lemma OverwriteTwice(d: seq<bv8>, start: nat, x: seq<bv8>, y: seq<bv8>)
    requires start + |x| + |y| <= |d|
    ensures Overwrite(Overwrite(d, start, x), start + |x|, y) == Overwrite(d, start, x + y)
  {
  }

  lemma OverwriteAll(d: seq<bv8>, b: seq<bv8>)
    requires |b| == |d|
    ensures Overwrite(d, 0, b) == b
  {
  }

  /** Writing twice in the same place. */
  lemma OverwriteSame(d: seq<bv8>, i: nat, x: seq<bv8>, y: seq<bv8>)
    requires |x| == |y| && i + |x| <= |d|
    ensures Overwrite(d, i, x)[i..i + |x|] == x
    ensures Overwrite(Overwrite(d, i, x), i, y) == Overwrite(d, i, y)
  {
  }

  /** What was written, and what stands behind it. */
  lemma OverwriteAround(d: seq<bv8>, i: nat, x: seq<bv8>)
    requires i + |x| <= |d|
    ensures Overwrite(d, i, x)[i..i + |x|] == x && Overwrite(d, i, x)[i + |x|..] == d[i + |x|..]
  {
  }

  /** The next block of a buffer whose front is already replaced. */
  lemma OverwriteNext(x: seq<bv8>, d: seq<bv8>, i: nat, y: seq<bv8>)
    requires |x| == i && i + |y| <= |d|
    ensures (x + d[i..])[i..i + |y|] == d[i..i + |y|]
    ensures Overwrite(x + d[i..], i, y) == (x + y) + d[i + |y|..]
  {
  }

  method Put(a: array<bv8>, i: nat, b: seq<bv8>)
    requires i + |b| <= a.Length
    modifies a
    ensures a[..] == Overwrite(old(a[..]), i, b)
  {
    for k := 0 to |b|
      invariant forall m :: 0 <= m < a.Length ==> a[m] == if i <= m < i + k then b[m - i] else old(a[m])
    {
      a[i + k] := b[k];
    }
  }

  method MemCopy(a: array<bv8>, i: nat, b: array<bv8>, j: nat, n: nat)
    requires i + n <= a.Length && j + n <= b.Length && a != b
    modifies a
    ensures a[..] == Overwrite(old(a[..]), i, b[j..j + n])
  {
    for k := 0 to n
      invariant forall m :: 0 <= m < a.Length ==> a[m] == if i <= m < i + k then b[j + m - i] else old(a[m])
    {
      a[i + k] := b[j + k];
    }
  }

  /** The loop that adds one block to another in place. */
  method XorInto(a: array<bv8>, i: nat, b: array<bv8>, j: nat)
    requires i + 16 <= a.Length && j + 16 <= b.Length && a != b
    modifies a
    ensures a[..] == Overwrite(old(a[..]), i, Xor(old(a[i..i + 16]), b[j..j + 16]))
  {
    hide XorByte;
    for k := 0 to 16
      invariant forall m :: 0 <= m < a.Length ==>
        a[m] == if i <= m < i + k then XorByte(old(a[m]), b[j + m - i]) else old(a[m])
    {
      a[i + k] := XorByte(a[i + k], b[j + k]);
    }
  }
}
