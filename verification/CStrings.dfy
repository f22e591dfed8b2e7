/** C strings: character sequences without the terminator, read through a position. */
module CStrings {

  type CString = s: string | '\0' !in s

  /** The character at position i; the terminator, and whatever would follow it, reads as zero. */
  function At(s: string, i: nat): char {
    if i < |s| then s[i] else '\0'
  }

  /** The text t stands in s at position i. */
  predicate HasAt(s: string, i: nat, t: string) {
    i + |t| <= |s| && s[i..i + |t|] == t
  }

  /** A text that consists of two parts. */
  lemma Peel(s: string, i: nat, a: string, b: string)
    requires HasAt(s, i, a + b)
    ensures HasAt(s, i, a) && HasAt(s, i + |a|, b)
  {
    assert s[i..i + |a|] == s[i..i + |a + b|][..|a|];
    assert s[i + |a|..i + |a| + |b|] == s[i..i + |a + b|][|a|..];
  }

  lemma HasNothing(s: string, i: nat, t: string)
    requires HasAt(s, i, t)
    ensures HasAt(s, i, "")
  {
  }

  lemma Glue(s: string, i: nat, a: string, b: string)
    requires HasAt(s, i, a) && HasAt(s, i + |a|, b)
    ensures HasAt(s, i, a + b)
  {
  }

  lemma PeelChar(s: string, i: nat, a: string, b: string)
    requires HasAt(s, i, a + b) && |a| == 1
    ensures At(s, i) == a[0] && i < |s| && HasAt(s, i + 1, b)
  {
    Peel(s, i, a, b);
  }

  lemma CharOf(s: string, i: nat, t: string, k: nat)
    requires HasAt(s, i, t) && k < |t|
    ensures i + k < |s| && At(s, i + k) == t[k]
  {
    assert s[i..i + |t|][k] == s[i + k];
  }

  /** The text t from position i on, where s reads as zeros behind its end. */
  predicate Stands(s: string, i: nat, t: string) {
    forall k :: 0 <= k < |t| ==> At(s, i + k) == t[k]
  }

  lemma StandsPeel(s: string, i: nat, a: string, b: string)
    requires Stands(s, i, a + b)
    ensures Stands(s, i, a) && Stands(s, i + |a|, b)
  {
    forall k | 0 <= k < |a|
      ensures At(s, i + k) == a[k]
    {
      assert (a + b)[k] == a[k];
    }
    forall k | 0 <= k < |b|
      ensures At(s, i + |a| + k) == b[k]
    {
      assert (a + b)[|a| + k] == b[k];
    }
  }

  lemma StandsGlue(s: string, i: nat, a: string, b: string)
    requires Stands(s, i, a) && Stands(s, i + |a|, b)
    ensures Stands(s, i, a + b)
  {
  }

  lemma StandsChar(s: string, i: nat, t: string)
    requires Stands(s, i, t) && t != ""
    ensures At(s, i) == t[0]
  {
    assert At(s, i + 0) == t[0];
  }

  lemma StandsPeelChar(s: string, i: nat, a: string, b: string)
    requires Stands(s, i, a + b) && |a| == 1
    ensures At(s, i) == a[0] && Stands(s, i + 1, b)
  {
    StandsPeel(s, i, a, b);
    StandsChar(s, i, a);
  }

  lemma HasStands(s: string, i: nat, t: string)
    requires HasAt(s, i, t)
    ensures Stands(s, i, t)
  {
    forall k | 0 <= k < |t|
      ensures At(s, i + k) == t[k]
    {
      CharOf(s, i, t, k);
    }
  }

  lemma StandsHas(s: string, i: nat, t: string)
    requires Stands(s, i, t) && t != "" && '\0' !in t
    ensures HasAt(s, i, t)
  {
    assert At(s, i + (|t| - 1)) == t[|t| - 1];
  }
}
