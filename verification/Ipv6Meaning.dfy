/** What the verifier of ipv6_util.c accepts, and what compression and expansion write, said by the
    places of the characters. */
module Ipv6Meaning {
  import opened Ipv6Text
  import opened Ipv6Compress
  import opened Ipv6Expand
  import opened Ipv6Forms

  // ---------- the counts ----------

  function ColonPlaces(t: string): set<nat> { set k: nat | k < |t| && t[k] == ':' }

  predicate TwoColons(t: string, k: nat) { k + 1 < |t| && t[k] == ':' && t[k + 1] == ':' }

  function DoublePlaces(t: string): set<nat> { set k: nat | k < |t| && TwoColons(t, k) }

  lemma {:induction false} ColonsAre(t: string)
    ensures Colons(t) == |ColonPlaces(t)|
  {
    if t == "" {
      assert ColonPlaces(t) == {};
    } else {
      var n := |t| - 1;
      ColonsAre(t[..n]);
      assert ColonPlaces(t) == ColonPlaces(t[..n]) + if t[n] == ':' then {n} else {};
    }
  }

  lemma {:induction false} DoublesAre(t: string)
    ensures Doubles(t) == |DoublePlaces(t)|
  {
    if t == "" {
      assert DoublePlaces(t) == {};
    } else {
      var n := |t| - 1;
      DoublesAre(t[..n]);
      assert DoublePlaces(t) == DoublePlaces(t[..n]) + if EndsDouble(t) then {n - 1} else {};
    }
  }

  /** Five characters without a colon. */
  predicate FiveFrom(t: string, i: nat) { i + 5 <= |t| && ':' !in t[i..i + 5] }

  ghost predicate LongField(t: string) { exists i: nat :: FiveFrom(t, i) }

  lemma {:induction false} LastFieldIs(t: string)
    ensures LastField(t) <= |t| && ':' !in t[|t| - LastField(t)..]
    ensures LastField(t) < |t| ==> t[|t| - LastField(t) - 1] == ':'
  {
    if t == "" || t[|t| - 1] == ':' {
    } else {
      var p := t[..|t| - 1];
      LastFieldIs(p);
      assert t[|t| - LastField(t)..] == p[|p| - LastField(p)..] + [t[|t| - 1]];
    }
  }

  lemma LongAtEnd(t: string)
    ensures LastField(t) >= 5 <==> |t| >= 5 && ':' !in t[|t| - 5..]
  {
    LastFieldIs(t);
    var n := LastField(t);
    if n >= 5 {
      assert t[|t| - 5..] == t[|t| - n..][n - 5..];
    } else if |t| >= 5 {
      assert t[|t| - 5..][4 - n] == t[|t| - n - 1];
    }
  }

  lemma {:induction false} LongestIs(t: string)
    ensures LongestField(t) > 4 <==> LongField(t)
  {
    if t == "" {
    } else {
      var p := t[..|t| - 1];
      LongestIs(p);
      LongAtEnd(t);
      hide LastField;
      LongBefore(t);
    }
  }

  lemma LongBefore(t: string)
    requires t != ""
    ensures LongField(t) <==> LongField(t[..|t| - 1]) || (|t| >= 5 && ':' !in t[|t| - 5..])
  {
    var p := t[..|t| - 1];
    if i: nat :| FiveFrom(t, i) {
      if i + 5 == |t| {
        assert t[i..i + 5] == t[|t| - 5..];
      } else {
        assert p[i..i + 5] == t[i..i + 5];
        assert FiveFrom(p, i);
      }
    }
    if i: nat :| FiveFrom(p, i) {
      assert p[i..i + 5] == t[i..i + 5];
      assert FiveFrom(t, i);
    }
    if |t| >= 5 && ':' !in t[|t| - 5..] {
      assert t[|t| - 5..|t| - 5 + 5] == t[|t| - 5..];
      assert FiveFrom(t, |t| - 5);
    }
  }

  /** Every field begins the text or stands behind a colon that no colon follows. */
  lemma {:induction false} FieldsAre(t: string)
    ensures Fields(t) + Doubles(t) + (if t != "" && t[|t| - 1] == ':' then 1 else 0) ==
            Colons(t) + (if t != "" && t[0] != ':' then 1 else 0)
  {
    if t == "" {
    } else {
      FieldsAre(t[..|t| - 1]);
    }
  }

  // ---------- the verdict ----------

  /** A double colon at one end, and no other. */
  ghost predicate DoubleAtEnd(t: string) {
    |t| >= 2 && (DoublePlaces(t) == {0} || DoublePlaces(t) == {|t| - 2})
  }

  lemma OnlyPlace(s: set<nat>, k: nat)
    requires k in s && |s| == 1
    ensures s == {k}
  {
    assert |s - {k}| == 0;
  }

  lemma MaxColonsAre(t: string)
    requires |t| >= 2
    ensures MaxColons(t) == if DoubleAtEnd(t) then 8 else 7
  {
    DoublesAre(t);
    hide Doubles;
    if DoubleAtEnd(t) {
      assert 0 in DoublePlaces(t) || |t| - 2 in DoublePlaces(t);
    }
    if StartsWithDouble(t) && Doubles(t) == 1 {
      assert 0 in DoublePlaces(t);
      OnlyPlace(DoublePlaces(t), 0);
    }
    if EndsDouble(t) && Doubles(t) == 1 {
      assert |t| - 2 in DoublePlaces(t);
      OnlyPlace(DoublePlaces(t), |t| - 2);
    }
  }

  /** A double colon leaves room for seven fields: the code that says there are more is never returned. */
  lemma NeverTooManyFields(t: string)
    ensures Verdict(t) != TOO_MANY_FIELDS
  {
    FieldsAre(t);
    hide Colons, Doubles, Fields, LongestField;
  }

  /** The verdict: 0 for 2 to 39 hexadecimal digits and colons, no more than four digits in a row, at
      most one double colon, and at most seven colons, or eight with the double colon at one end;
      otherwise the code of the first of these that fails. */
  lemma VerdictExactly(t: string)
    ensures Verdict(t) ==
            if |t| < 2 || |t| > 39 then -3
            else if !OnlyAddressChars(t) || LongField(t) || |DoublePlaces(t)| > 1 then -2
            else if |ColonPlaces(t)| > (if DoubleAtEnd(t) then 8 else 7) then -6
            else 0
  {
    NeverTooManyFields(t);
    ColonsAre(t);
    DoublesAre(t);
    LongestIs(t);
    hide Colons, Doubles, Fields, LongestField, ColonPlaces, DoublePlaces, LongField, DoubleAtEnd;
    if |t| >= 2 {
      MaxColonsAre(t);
    }
    hide MaxColons;
  }

  // ---------- the compressed form ----------

  /** g is f without its leading zeros, but for the last digit. */
  predicate IsShort(f: string, g: string) {
    && 1 <= |g| <= |f| && f[|f| - |g|..] == g && (|g| == 1 || g[0] != '0')
    && forall k :: 0 <= k < |f| - |g| ==> f[k] == '0'
  }

  lemma {:induction false} ShortIs(f: string, g: string)
    requires IsShort(f, g)
    ensures Short(f) == g && (ZeroField(f) <==> g == "0")
    decreases |f|
  {
    if |f| == |g| {
      assert f == g;
      assert f[0] == '0' ==> f[1..] == "" && f == "0";
    } else {
      assert f[1..][|f| - 1 - |g|..] == f[|f| - |g|..];
      ShortIs(f[1..], g);
    }
  }

  ghost predicate AreShort(a: seq<string>, s: seq<string>) {
    |s| == |a| && forall i :: 0 <= i < |a| ==> IsShort(a[i], s[i])
  }

  lemma ShortsAre(a: seq<string>, s: seq<string>)
    requires AreShort(a, s)
    ensures Shorts(a) == s && forall i :: 0 <= i < |a| ==> (ZeroField(a[i]) <==> s[i] == "0")
  {
    hide Short, ZeroField, IsShort;
    forall i | 0 <= i < |a|
      ensures Short(a[i]) == s[i] && (ZeroField(a[i]) <==> s[i] == "0")
    {
      ShortIs(a[i], s[i]);
    }
  }

  /** Fields b to e are the rightmost run of zero fields. */
  ghost predicate RightmostZeros(s: seq<string>, b: nat, e: nat) {
    && b < e <= |s|
    && (forall k :: b <= k < e ==> s[k] == "0")
    && (forall k :: e <= k < |s| ==> s[k] != "0")
    && (b > 0 ==> s[b - 1] != "0")
  }

  /** Compression drops leading zeros and writes a double colon for the rightmost run of zero fields. */
  lemma CompressedRun(a: seq<string>, s: seq<string>, b: nat, e: nat)
    requires AreShort(a, s) && RightmostZeros(s, b, e)
    ensures Compressed(a) == Join(s[..b]) + ("::" + Join(s[e..]))
  {
    ShortsAre(a, s);
    hide Join, Shorts, ZeroField, AreShort;
    RunEndIs(a, e, |a|);
    RunStartIs(a, b, e);
  }

  lemma {:induction false} RunEndIs(a: seq<string>, e: nat, n: nat)
    requires 0 < e <= n <= |a| && ZeroField(a[e - 1]) && forall k :: e <= k < n ==> !ZeroField(a[k])
    ensures RunEnd(a, n) == e
  {
    hide ZeroField;
    if n == e {
    } else {
      RunEndIs(a, e, n - 1);
    }
  }

  lemma {:induction false} RunStartIs(a: seq<string>, b: nat, e: nat)
    requires b <= e <= |a| && (forall k :: b <= k < e ==> ZeroField(a[k])) && (b > 0 ==> !ZeroField(a[b - 1]))
    ensures RunStart(a, e) == b
  {
    hide ZeroField;
    if b == e {
    } else {
      RunStartIs(a, b, e - 1);
    }
  }

  lemma {:induction false} NoRun(a: seq<string>, n: nat)
    requires n <= |a| && forall k :: 0 <= k < n ==> !ZeroField(a[k])
    ensures RunEnd(a, n) == 0
  {
    hide ZeroField;
    if n == 0 {
    } else {
      NoRun(a, n - 1);
    }
  }

  /** Without a zero field only the leading zeros are dropped. */
  lemma CompressedPlain(a: seq<string>, s: seq<string>)
    requires AreShort(a, s) && forall k :: 0 <= k < |s| ==> s[k] != "0"
    ensures Compressed(a) == Join(s)
  {
    ShortsAre(a, s);
    hide Join, Shorts, ZeroField, AreShort;
    NoRun(a, |a|);
  }

  // ---------- the expanded form ----------

  /** A padded field: its digits at the end of four characters, and zeros in front of them. */
  lemma PadForm(p: string)
    requires |p| <= 4
    ensures |Pad4(p)| == 4 && Pad4(p)[4 - |p|..] == p && forall k :: 0 <= k < 4 - |p| ==> Pad4(p)[k] == '0'
  {
    ZeroCharsAre(4 - |p|);
  }

  /** Lower case, character by character: letters between A and Z move up by 32, others stay. */
  lemma {:induction false} LowerForm(t: string, k: nat)
    requires k < |t|
    ensures 'A' <= t[k] <= 'Z' ==> Lower(t)[k] as int == t[k] as int + 32
    ensures !('A' <= t[k] <= 'Z') ==> Lower(t)[k] == t[k]
    decreases k
  {
    if k == 0 {
    } else {
      LowerForm(t[1..], k - 1);
    }
  }

  /** Fields with colons between them: field i of four characters stands at 5i. */
  lemma {:induction false} JoinedAt(fs: seq<string>, i: nat)
    requires i < |fs| && forall k :: 0 <= k < |fs| ==> |fs[k]| == 4
    ensures |Join(fs)| == 5 * |fs| - 1 && Join(fs)[5 * i..5 * i + 4] == fs[i]
    ensures i + 1 < |fs| ==> Join(fs)[5 * i + 4] == ':'
    decreases |fs|
  {
    if |fs| == 1 {
    } else {
      JoinedAt(fs[1..], if i == 0 then 0 else i - 1);
      var f, u := fs[0], Join(fs[1..]);
      assert Join(fs) == f + (":" + u);
      hide Join;
      if i > 0 {
        Behind(f, u, 5 * i - 5, 5 * i - 1);
      } else {
        assert (f + (":" + u))[..4] == f;
      }
    }
  }

  lemma Behind(f: string, u: string, j: nat, k: nat)
    requires |f| == 4 && j <= k <= |u|
    ensures (f + (":" + u))[j + 5..k + 5] == u[j..k] && (k < |u| ==> (f + (":" + u))[k + 5] == u[k])
  {
  }
}
