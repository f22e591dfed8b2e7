/** Expanding the compressed form of an address gives the address back, and the verifier accepts
    every compressed form. */
module Ipv6Round {
  import opened Options
  import opened Ipv6Text
  import opened Ipv6Compress
  import opened Ipv6Expand
  import opened Ipv6Forms

  // ---------- shortened fields ----------

  lemma StrippedZero(f: string)
    requires f != "" && f[0] == '0'
    ensures Stripped(f) == Stripped(f[1..])
  {
  }

  lemma ZeroInFront(n: nat, t: string)
    ensures ZeroChars(n + 1) + t == "0" + (ZeroChars(n) + t)
  {
  }

  lemma {:induction false} StripBack(f: string)
    ensures |Stripped(f)| <= |f| && ZeroChars(|f| - |Stripped(f)|) + Stripped(f) == f
  {
    if f == "" || f[0] != '0' {
    } else {
      hide Stripped;
      StripBack(f[1..]);
      StrippedZero(f);
      ZeroInFront(|f| - 1 - |Stripped(f[1..])|, Stripped(f[1..]));
      assert f == "0" + f[1..];
    }
  }

  lemma {:induction false} StripPart(f: string, k: nat)
    requires k < |Stripped(f)|
    ensures Stripped(f)[k] in f
  {
    if f == "" || f[0] != '0' {
    } else {
      StripPart(f[1..], k);
    }
  }

  lemma ZeroIs(f: string)
    requires FullField(f) && ZeroField(f)
    ensures f == "0000"
  {
    StripBack(f);
    assert ZeroChars(4) == "0000" by { assert ZeroChars(2) == "00"; }
  }

  lemma ShortIsPiece(f: string)
    requires FullField(f)
    ensures Piece(Short(f))
  {
    ShortLength(f);
    if !ZeroField(f) {
      forall k | 0 <= k < |Short(f)|
        ensures IsHex(Short(f)[k])
      {
        StripPart(f, k);
      }
    }
  }

  /** Padding a shortened field restores the field. */
  lemma PadBack(f: string)
    requires FullField(f)
    ensures Pad4(Short(f)) == f
  {
    ShortLength(f);
    StripBack(f);
    if ZeroField(f) {
      ZeroIs(f);
      assert ZeroChars(3) == "000" by { assert ZeroChars(1) == "0"; }
      assert "000" + "0" == "0000";
    }
  }

  predicate FullFields(fs: seq<string>) { forall k :: 0 <= k < |fs| ==> FullField(fs[k]) }

  lemma ShortsBack(fs: seq<string>)
    requires FullFields(fs)
    ensures Pieces(Shorts(fs)) && Pads(Shorts(fs)) == fs
  {
    hide Short, FullField, Piece, Pad4;
    forall k | 0 <= k < |fs|
      ensures Piece(Shorts(fs)[k]) && Pads(Shorts(fs))[k] == fs[k]
    {
      assert FullField(fs[k]);
      ShortIsPiece(fs[k]);
      PadBack(fs[k]);
    }
  }

  lemma ShortsOfParts(a: seq<string>, b: nat, e: nat)
    requires IsAddress(a) && b <= e <= 8
    ensures Shorts(a)[..b] == Shorts(a[..b]) && Shorts(a)[e..] == Shorts(a[e..])
    ensures FullFields(a[..b]) && FullFields(a[e..]) && FullFields(a)
  {
    hide Short, FullField;
  }

  lemma ShortsUnfold(fs: seq<string>)
    requires fs != []
    ensures Shorts(fs)[0] == Short(fs[0]) && Shorts(fs)[1..] == Shorts(fs[1..])
    ensures Join(Shorts(fs)) == if |fs| == 1 then Short(fs[0]) else Short(fs[0]) + (":" + Join(Shorts(fs[1..])))
  {
    hide Short;
  }

  /** An address is what is in front of the run, zero fields, and what is after it. */
  lemma RunIsZeros(a: seq<string>)
    requires IsAddress(a)
    ensures a == a[..First(a)] + ZeroFields(Last(a) - First(a)) + a[Last(a)..]
  {
    var b, e := First(a), Last(a);
    ZeroFieldsAt(e - b);
    forall k | b <= k < e
      ensures a[k] == "0000"
    {
      assert FullField(a[k]);
      ZeroIs(a[k]);
    }
  }

  /** A shortened address as long as the full one lost nothing. */
  lemma {:induction false} NothingShortened(fs: seq<string>)
    requires FullFields(fs) && fs != [] && |Join(Shorts(fs))| >= |Join(fs)|
    ensures Join(Shorts(fs)) == Join(fs)
    decreases |fs|
  {
    ShortsUnfold(fs);
    assert FullField(fs[0]);
    ShortLength(fs[0]);
    StripBack(fs[0]);
    if |fs| <= 1 {
    } else {
      hide Short;
      JoinsBound(fs[1..]);
      NothingShortened(fs[1..]);
      assert |Short(fs[0])| == |fs[0]|;
    }
    SameLength(fs[0]);
  }

  lemma SameLength(f: string)
    requires FullField(f)
    ensures |Short(f)| == |f| ==> Short(f) == f
  {
    StripBack(f);
  }

  lemma {:induction false} JoinsBound(fs: seq<string>)
    requires FullFields(fs) && fs != []
    ensures |Join(Shorts(fs))| <= |Join(fs)|
    decreases |fs|
  {
    ShortsUnfold(fs);
    assert FullField(fs[0]);
    ShortLength(fs[0]);
    if |fs| <= 1 {
    } else {
      hide Short;
      JoinsBound(fs[1..]);
    }
  }

  // ---------- the main results ----------

  /** With a run of zero fields, the compressed form is the other fields around a double colon. */
  lemma CompressedRun(a: seq<string>)
    requires IsAddress(a) && Last(a) > 0
    ensures var xs, zs := Shorts(a[..First(a)]), Shorts(a[Last(a)..]);
            && Compressed(a) == Doubled(xs, zs) && Pieces(xs) && Pieces(zs) && |xs| + |zs| <= 7 && Filled(xs, zs) == a
  {
    var b, e := First(a), Last(a);
    RunNotEmpty(a);
    RunIsZeros(a);
    ShortsOfParts(a, b, e);
    hide Shorts, FullField, First, Last, Pieces, Pads, Join, ZeroFields;
    ShortsBack(a[..b]);
    ShortsBack(a[e..]);
  }

  lemma RunNotEmpty(a: seq<string>)
    requires IsAddress(a) && Last(a) > 0
    ensures First(a) < Last(a) <= 8
  {
    hide ZeroField;
  }

  lemma CompressedWhole(a: seq<string>)
    requires IsAddress(a) && Last(a) == 0
    ensures Compressed(a) == Join(Shorts(a)) && Pieces(Shorts(a)) && Pads(Shorts(a)) == a
  {
    ShortsOfParts(a, 0, 8);
    hide Shorts, FullField, Pieces, Pads, Join;
    ShortsBack(a);
  }

  /** The verifier accepts the compressed form of every address. */
  lemma CompressedAccepted(a: seq<string>)
    requires IsAddress(a)
    ensures Verdict(Compressed(a)) == SUCCESS
  {
    hide Verdict, Compressed, Doubled, Join, Pieces, Filled, Pads, FullField, Plain, Colons, FirstDouble;
    hide First, Last, Shorts;
    if Last(a) == 0 {
      CompressedWhole(a);
      JoinedAccepted(Shorts(a));
    } else {
      RunNotEmpty(a);
      CompressedRun(a);
      DoubledAccepted(Shorts(a[..First(a)]), Shorts(a[Last(a)..]));
    }
  }

  lemma {:induction false} LowerTwice(t: string)
    ensures Lower(Lower(t)) == Lower(t)
  {
    if t == "" {
    } else {
      LowerTwice(t[1..]);
    }
  }

  lemma ExpandWhole(a: seq<string>)
    requires IsAddress(a) && Last(a) == 0
    ensures Expanded(Compressed(a)) == (SUCCESS, Lower(Join(a))) ||
            (Expanded(Compressed(a)) == (NORMAL_TYPE, Join(a)) && Compressed(a) == Join(a))
  {
    CompressedWhole(a);
    FieldInText(a, 0);
    ShortsOfParts(a, 0, 8);
    hide Compressed, Join, Shorts, Pieces, Pads, Expanded, Lower, FullField;
    ExpandJoined(Shorts(a));
    if |Join(Shorts(a))| >= 39 {
      NothingShortened(a);
    }
  }

  /** Expanding the compressed form of an address gives the address back, in lower case; only an
      address without leading zeros, which compression leaves as it is, keeps its case. */
  lemma ExpandCompressed(a: seq<string>)
    requires IsAddress(a)
    ensures var (ret, t) := Expanded(Compressed(a));
            && ((ret == SUCCESS && t == Lower(Join(a))) || (ret == NORMAL_TYPE && t == Join(a) == Compressed(a)))
            && Lower(t) == Lower(Join(a))
  {
    hide Join, Compressed, Expanded, Lower, Pieces, Filled, Doubled, First, Last, Shorts;
    LowerTwice(Join(a));
    if Last(a) == 0 {
      ExpandWhole(a);
    } else {
      RunNotEmpty(a);
      CompressedRun(a);
      ExpandDoubled(Shorts(a[..First(a)]), Shorts(a[Last(a)..]));
    }
  }
}
