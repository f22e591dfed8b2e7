/** Expansion of every accepted address: the text is split at its colons, and what the four loops
    make of the pieces is said for each accepted text. */
module Ipv6Forms {
  import opened Options
  import opened Ipv6Text
  import opened Ipv6Compress
  import opened Ipv6Expand

  // ---------- counts of two texts joined ----------

  predicate Meet(x: string, y: string, colons: bool) {
    x != "" && y != "" && (x[|x| - 1] == ':' <==> colons) && (y[0] == ':' <==> colons)
  }

  lemma {:induction false} DoublesAppend(x: string, y: string)
    ensures Doubles(x + y) == Doubles(x) + Doubles(y) + if Meet(x, y, true) then 1 else 0
    decreases |y|
  {
    if y == "" {
      assert x + y == x;
    } else {
      var z := y[..|y| - 1];
      assert (x + y)[..|x + y| - 1] == x + z;
      DoublesAppend(x, z);
    }
  }

  lemma {:induction false} FieldsAppend(x: string, y: string)
    ensures Fields(x + y) + (if Meet(x, y, false) then 1 else 0) == Fields(x) + Fields(y)
    decreases |y|
  {
    if y == "" {
      assert x + y == x;
    } else {
      var z := y[..|y| - 1];
      assert (x + y)[..|x + y| - 1] == x + z;
      FieldsAppend(x, z);
    }
  }

  lemma {:induction false} LongestAppend(x: string, y: string)
    requires !Meet(x, y, false)
    ensures LongestField(x + y) == Max(LongestField(x), LongestField(y))
    ensures y != "" ==> LastField(x + y) == LastField(y)
    decreases |y|
  {
    if y == "" {
      assert x + y == x;
    } else {
      var z := y[..|y| - 1];
      assert (x + y)[..|x + y| - 1] == x + z;
      LongestAppend(x, z);
      if z == "" {
        assert x + z == x;
        assert LongestField(y) == Max(LongestField(""), LastField(y));
      }
    }
  }

  // ---------- pieces ----------

  /** What a written field is: one to four hexadecimal digits. */
  predicate Piece(p: string) { 1 <= |p| <= 4 && forall k :: 0 <= k < |p| ==> IsHex(p[k]) }

  predicate Pieces(ps: seq<string>) { forall k :: 0 <= k < |ps| ==> Piece(ps[k]) }

  /** At most four characters each, and none of them empty: what the loops look at. */
  predicate Small(ps: seq<string>) { forall k :: 0 <= k < |ps| ==> |ps[k]| <= 4 }

  predicate NoEmpty(ps: seq<string>) { forall k :: 0 <= k < |ps| ==> ps[k] != "" }

  /** A field padded to four digits. */
  function Pad4(p: string): string { ZeroChars(if |p| < 4 then 4 - |p| else 0) + p }

  function Pads(ps: seq<string>): (r: seq<string>)
    ensures |r| == |ps|
  {
    seq(|ps|, i requires 0 <= i < |ps| => Pad4(ps[i]))
  }

  lemma UnconsAt<T>(p: T, ps: seq<T>)
    ensures ([p] + ps)[0] == p && forall k :: 0 <= k < |ps| ==> ([p] + ps)[k + 1] == ps[k]
  {
  }

  lemma PadsUncons(p: string, ps: seq<string>)
    ensures Pads([p] + ps) == [Pad4(p)] + Pads(ps)
  {
    hide Pad4;
    UnconsAt(p, ps);
  }

  lemma SmallUncons(p: string, ps: seq<string>)
    ensures Small([p] + ps) <==> |p| <= 4 && Small(ps)
    ensures NoEmpty([p] + ps) <==> p != "" && NoEmpty(ps)
  {
    UnconsAt(p, ps);
  }

  lemma PiecesUncons(p: string, ps: seq<string>)
    ensures Pieces([p] + ps) <==> Piece(p) && Pieces(ps)
  {
    hide Piece;
    UnconsAt(p, ps);
  }

  lemma Uncons(p: string, ps: seq<string>)
    ensures Pads([p] + ps) == [Pad4(p)] + Pads(ps)
    ensures Small([p] + ps) <==> |p| <= 4 && Small(ps)
    ensures NoEmpty([p] + ps) <==> p != "" && NoEmpty(ps)
    ensures Pieces([p] + ps) <==> Piece(p) && Pieces(ps)
  {
    hide *;
    PadsUncons(p, ps);
    SmallUncons(p, ps);
    PiecesUncons(p, ps);
  }

  lemma NoPieces()
    ensures Pads([]) == [] && Pieces([]) && Small([]) && NoEmpty([])
  {
  }

  lemma PiecesAreSmall(ps: seq<string>)
    requires Pieces(ps)
    ensures Small(ps) && NoEmpty(ps)
  {
    forall k | 0 <= k < |ps|
      ensures |ps[k]| <= 4 && ps[k] != ""
    {
      assert Piece(ps[k]);
    }
  }

  lemma {:induction false} ZeroCharsAre(n: nat)
    ensures |ZeroChars(n)| == n && forall k :: 0 <= k < n ==> ZeroChars(n)[k] == '0'
  {
    if n == 0 {
    } else {
      ZeroCharsAre(n - 1);
    }
  }

  lemma PadIsFull(p: string)
    requires Piece(p)
    ensures FullField(Pad4(p))
  {
    ZeroCharsAre(4 - |p|);
  }

  lemma PadsAreFull(ps: seq<string>)
    requires Pieces(ps)
    ensures forall k :: 0 <= k < |ps| ==> FullField(Pads(ps)[k])
  {
    hide FullField, Pad4;
    forall k | 0 <= k < |ps|
      ensures FullField(Pads(ps)[k])
    {
      assert Piece(ps[k]);
      PadIsFull(ps[k]);
    }
  }

  // ---------- splitting at colons ----------

  function Split(t: string): (r: seq<string>)
    ensures r != []
  {
    match FirstColon(t) case None => [t] case Some(k) => [t[..k]] + Split(t[k + 1..])
  }

  lemma {:induction false} SplitCount(t: string)
    ensures |Split(t)| == Colons(t) + 1
  {
    ColonsAfterFirst(t);
    hide Colons;
    match FirstColon(t)
    case None =>
    case Some(k) => SplitCount(t[k + 1..]);
  }

  lemma {:induction false} JoinSplit(t: string)
    ensures Join(Split(t)) == t
  {
    match FirstColon(t)
    case None =>
    case Some(k) =>
      JoinSplit(t[k + 1..]);
      JoinCons(t[..k], Split(t[k + 1..]));
      hide Join, Split;
      assert t == t[..k] + (":" + t[k + 1..]);
  }

  lemma JoinCons(p: string, ps: seq<string>)
    requires ps != []
    ensures Join([p] + ps) == p + (":" + Join(ps))
  {
    assert ([p] + ps)[1..] == ps;
  }

  lemma {:induction false} ColonAfter(x: string, y: string)
    requires ':' !in x
    ensures FirstColon(x + (":" + y)) == Some(|x|)
    ensures FirstColon(x) == None
  {
    if x == "" {
      assert x + (":" + y) == ":" + y;
    } else {
      assert (x + (":" + y))[1..] == x[1..] + (":" + y);
      ColonAfter(x[1..], y);
    }
  }

  lemma PieceHasNoColon(p: string)
    requires Piece(p)
    ensures ':' !in p
  {
  }

  lemma {:induction false} SplitJoin(ps: seq<string>)
    requires Pieces(ps) && ps != []
    ensures Split(Join(ps)) == ps
    decreases |ps|
  {
    assert Piece(ps[0]);
    PieceHasNoColon(ps[0]);
    if |ps| == 1 {
      ColonAfter(ps[0], "");
      assert ps == [ps[0]];
    } else {
      hide Piece;
      var y := Join(ps[1..]);
      SplitJoin(ps[1..]);
      assert ps == [ps[0]] + ps[1..];
      JoinCons(ps[0], ps[1..]);
      SplitCons(ps[0], y);
    }
  }

  lemma SplitCons(p: string, y: string)
    requires ':' !in p
    ensures Split(p + (":" + y)) == [p] + Split(y)
  {
    ColonAfter(p, y);
    var t := p + (":" + y);
    assert t[..|p|] == p && t[|p| + 1..] == y;
  }

  // ---------- what the loops make of the pieces ----------

  lemma PaddedPiece(t: string, k: nat)
    requires k <= |t| && k <= 4
    ensures Padded(t, k) == if k == 0 then None else Some(Pad4(t[..k]))
  {
  }

  lemma RestLast(t: string)
    requires FirstColon(t).None? && |t| <= 4
    ensures Rest(t, 7) == if t == "" then None else Some([Pad4(t)])
  {
    PaddedPiece(t, |t|);
    hide Padded, Pad4;
    assert t[..|t|] == t;
  }

  lemma RestTooFew(t: string, i: nat)
    requires FirstColon(t).None? && i < 7
    ensures Rest(t, i) == None
  {
  }

  lemma RestMore(t: string, i: nat, k: nat)
    requires i < 8 && FirstColon(t) == Some(k) && k <= 4
    ensures Rest(t, i) == if k == 0 then None else Cons(Pad4(t[..k]), Rest(t[k + 1..], i + 1))
  {
    PaddedPiece(t, k);
    hide Padded, Pad4, Cons;
  }

  lemma RestNothing(t: string)
    ensures Rest(t, 8) == Some([])
  {
  }

  /** The loop up to the last field takes the pieces if they are as many as fields, and none is empty. */
  lemma {:induction false} RestSplit(t: string, i: nat)
    requires i + |Split(t)| <= 8 && Small(Split(t))
    ensures Rest(t, i) == if i + |Split(t)| == 8 && NoEmpty(Split(t)) then Some(Pads(Split(t))) else None
    decreases |t|
  {
    SplitUnfold(t);
    hide Rest, Pad4, Pads, Small, NoEmpty, Split;
    NoPieces();
    match FirstColon(t)
    case None =>
      Uncons(t, []);
      assert [t] + [] == [t] && [Pad4(t)] + [] == [Pad4(t)];
      if i == 7 {
        RestLast(t);
      } else {
        RestTooFew(t, i);
      }
    case Some(k) =>
      Uncons(t[..k], Split(t[k + 1..]));
      RestSplit(t[k + 1..], i + 1);
      RestMore(t, i, k);
  }

  lemma SplitUnfold(t: string)
    ensures Split(t) == match FirstColon(t) case None => [t] case Some(k) => [t[..k]] + Split(t[k + 1..])
  {
  }

  lemma LeadingLast(t: string)
    requires FirstColon(t).None? && |t| <= 4
    ensures Leading(t, 1) == if t == "" then [] else [Pad4(t)]
  {
    PaddedPiece(t, |t|);
    hide Pad4, Padded;
    assert t[..|t|] == t;
  }

  lemma LeadingMore(t: string, n: nat, k: nat)
    requires n > 0 && FirstColon(t) == Some(k) && k <= 4
    ensures Leading(t, n) == if k == 0 then [] else [Pad4(t[..k])] + Leading(t[k + 1..], n - 1)
  {
    PaddedPiece(t, k);
    hide Pad4, Padded;
  }

  /** The loop in front of a double colon takes all pieces. */
  lemma {:induction false} LeadingSplit(t: string)
    requires Small(Split(t)) && NoEmpty(Split(t))
    ensures Leading(t, |Split(t)|) == Pads(Split(t))
    decreases |t|
  {
    SplitUnfold(t);
    hide Leading, Pad4, Pads, Small, NoEmpty, Split;
    NoPieces();
    match FirstColon(t)
    case None =>
      Uncons(t, []);
      assert [t] + [] == [t] && [Pad4(t)] + [] == [Pad4(t)];
      LeadingLast(t);
    case Some(k) =>
      Uncons(t[..k], Split(t[k + 1..]));
      LeadingSplit(t[k + 1..]);
      LeadingMore(t, |Split(t)|, k);
  }

  lemma TerminatedUnfold(t: string, n: nat, k: nat)
    requires n > 0 && FirstColon(t) == Some(k) && k <= 4
    ensures Terminated(t, n) == if k == 0 then Some([]) else Cons(Pad4(t[..k]), Terminated(t[k + 1..], n - 1))
  {
    PaddedPiece(t, k);
    hide Pad4, Padded, Cons;
  }

  lemma TerminatedNone(t: string)
    ensures Terminated(t, 0) == Some([])
  {
  }

  lemma CutBehind(x: string, k: nat, y: string)
    requires k <= |x|
    ensures var t := x + (":" + y);
            && t[..k] == x[..k] && (k < |x| ==> t[k + 1..] == x[k + 1..] + (":" + y)) && (k == |x| ==> t[k + 1..] == y)
    ensures k < |x| && x[k] == ':' ==> x + (":" + y) == x[..k] + (":" + (x[k + 1..] + (":" + y)))
  {
  }

  lemma ColonBehind(x: string, y: string)
    ensures FirstColon(x + (":" + y)) == match FirstColon(x) case None => Some(|x|) case Some(k) => Some(k)
  {
    hide FirstColon;
    match FirstColon(x)
    case None => ColonAfter(x, y);
    case Some(k) =>
      ColonAfter(x[..k], x[k + 1..] + (":" + y));
      CutBehind(x, k, y);
  }

  /** The loop over terminated fields takes all pieces in front of a colon. */
  lemma {:induction false} TerminatedSplit(x: string, y: string)
    requires Small(Split(x)) && NoEmpty(Split(x))
    ensures Terminated(x + (":" + y), |Split(x)|) == Some(Pads(Split(x)))
    decreases |x|
  {
    SplitUnfold(x);
    ColonBehind(x, y);
    hide Terminated, Pad4, Pads, Small, NoEmpty, Split, FirstColon;
    NoPieces();
    var t := x + (":" + y);
    match FirstColon(x)
    case None =>
      Uncons(x, []);
      CutBehind(x, |x|, y);
      assert [x] + [] == [x] && x[..|x|] == x;
      TerminatedUnfold(t, 1, |x|);
      TerminatedNone(y);
    case Some(k) =>
      Uncons(x[..k], Split(x[k + 1..]));
      CutBehind(x, k, y);
      TerminatedSplit(x[k + 1..], y);
      TerminatedUnfold(t, |Split(x)|, k);
  }

  /** A text that begins with a colon stops every loop at once. */
  lemma StopsAtOnce(t: string, n: nat, i: nat)
    requires t != "" && t[0] == ':' && n > 0 && i < 8
    ensures Leading(t, n) == [] && Terminated(t, n) == Some([]) && Rest(t, i) == None
  {
    assert FirstColon(t) == Some(0);
  }

  // ---------- the pieces of an accepted text ----------

  lemma {:induction false} PieceClean(p: string)
    requires p != "" && forall k :: 0 <= k < |p| ==> IsHex(p[k])
    ensures LastField(p) == LongestField(p) == |p| && Doubles(p) == 0 && Colons(p) == 0 && Fields(p) == 1
  {
    if |p| == 1 {
      assert p[..0] == "";
    } else {
      PieceClean(p[..|p| - 1]);
    }
  }

  lemma OneColon()
    ensures Colons(":") == 1 && Doubles(":") == 0 && Fields(":") == 0 && LongestField(":") == 0
    ensures Colons("::") == 2 && Doubles("::") == 1 && Fields("::") == 0 && LongestField("::") == 0
  {
    assert ":"[..0] == "" && "::"[..1] == ":";
    assert Colons(":") == Colons(":"[..0]) + 1;
    assert Doubles("::") == Doubles("::"[..1]) + 1;
  }

  /** The counts of two texts with colons between them. */
  lemma SplitCounts(x: string, c: string, y: string)
    requires (c == ":" || c == "::") && (x != "" ==> x[|x| - 1] != ':') && (y != "" ==> y[0] != ':')
    ensures var t := x + (c + y);
            && Colons(t) == Colons(x) + Colons(c) + Colons(y)
            && Doubles(t) == Doubles(x) + Doubles(c) + Doubles(y)
            && Fields(t) == Fields(x) + Fields(c) + Fields(y)
            && LongestField(t) == Max(LongestField(x), Max(LongestField(c), LongestField(y)))
  {
    hide Colons, Doubles, Fields, LongestField;
    ColonsAppend(c, y);
    ColonsAppend(x, c + y);
    DoublesAppend(c, y);
    DoublesAppend(x, c + y);
    FieldsAppend(c, y);
    FieldsAppend(x, c + y);
    LongestAppend(c, y);
    LongestAppend(x, c + y);
    assert c + y != "" && (c + y)[0] == ':';
    assert c[|c| - 1] == ':';
  }

  /** Address characters in fields of at most four digits, and no double colon. */
  predicate Plain(t: string) {
    OnlyAddressChars(t) && LongestField(t) <= 4 && Doubles(t) == 0
  }

  lemma CutAtColon(t: string, k: nat)
    requires k < |t| && t[k] == ':'
    ensures t == t[..k] + (":" + t[k + 1..])
    ensures t[0..k] == t[..k] && t[k + 1..|t|] == t[k + 1..] && (t[k + 1..] != "" ==> t[k + 1..][0] == t[k + 1])
  {
  }

  lemma CutAtDouble(t: string, p: nat)
    requires DoubleAt(t, p)
    ensures t == t[..p] + ("::" + t[p + 2..])
    ensures t[0..p] == t[..p] && t[p + 2..|t|] == t[p + 2..] && (t[p + 2..] != "" ==> t[p + 2..][0] == t[p + 2])
  {
  }

  lemma EndOfHead(t: string, p: nat)
    requires DoubleAt(t, p) && EndsInColon(t[..p])
    ensures DoubleAt(t, p - 1)
  {
  }

  /** Around a colon, or the only double colon, a text is plain. */
  lemma PlainParts(x: string, c: string, y: string)
    requires (c == ":" || c == "::") && !EndsInColon(x) && (y != "" ==> y[0] != ':')
    requires OnlyAddressChars(x) && OnlyAddressChars(y)
    requires LongestField(x + (c + y)) <= 4 && Doubles(x + (c + y)) <= |c| - 1
    ensures Plain(x) && Plain(y) && Colons(x + (c + y)) == Colons(x) + |c| + Colons(y)
  {
    OneColon();
    hide Colons, Doubles, Fields, LongestField, OnlyAddressChars;
    SplitCounts(x, c, y);
  }

  lemma HeadLength(x: string)
    requires forall k :: 0 <= k < |x| ==> IsHex(x[k])
    ensures LongestField(x) <= 4 ==> |x| <= 4
    ensures !EndsInColon(x)
  {
    if x != "" {
      PieceClean(x);
      assert IsHex(x[|x| - 1]);
    }
    hide LongestField;
  }

  lemma HexHead(t: string, k: nat)
    requires OnlyAddressChars(t) && FirstColon(t) == Some(k)
    ensures forall i :: 0 <= i < k ==> IsHex(t[..k][i])
  {
    forall i | 0 <= i < k
      ensures IsHex(t[..k][i])
    {
      assert t[..k][i] == t[i] && t[i] in t[..k] && IsAddressChar(t[i]);
    }
  }

  lemma CharsOfPart(t: string, i: nat, j: nat)
    requires OnlyAddressChars(t) && i <= j <= |t|
    ensures OnlyAddressChars(t[i..j])
  {
    hide IsAddressChar;
  }

  lemma PlainHead(t: string, k: nat)
    requires t != "" && Plain(t) && t[0] != ':' && FirstColon(t) == Some(k)
    ensures Piece(t[..k]) && Plain(t[k + 1..]) && (t[k + 1..] != "" ==> t[k + 1] != ':')
  {
    HexHead(t, k);
    CharsOfPart(t, k + 1, |t|);
    CharsOfPart(t, 0, k);
    NoTwoColons(t, k);
    CutAtColon(t, k);
    HeadLength(t[..k]);
    hide Colons, Doubles, Fields, LongestField, FirstColon, OnlyAddressChars, IsHex;
    PlainParts(t[..k], ":", t[k + 1..]);
  }

  lemma SmallHead(p: string)
    requires Piece(p)
    ensures |p| <= 4 && p != ""
  {
  }

  lemma PlainOnly(t: string)
    requires Plain(t) && t != "" && FirstColon(t).None?
    ensures Small([t]) && NoEmpty([t]) && Pieces([t]) && !EndsInColon(t)
  {
    forall i | 0 <= i < |t|
      ensures IsHex(t[i])
    {
      assert t[i] in t && IsAddressChar(t[i]);
    }
    PieceClean(t);
    assert t[|t| - 1] in t;
  }

  lemma NoTwoColons(t: string, k: nat)
    requires Doubles(t) == 0 && k < |t| && t[k] == ':'
    ensures k + 1 < |t| ==> t[k + 1] != ':'
  {
    PlainHasNoDouble(t);
    assert !DoubleAt(t, k);
  }

  lemma {:induction false} PlainHasNoDouble(t: string)
    requires Doubles(t) == 0
    ensures forall k :: !DoubleAt(t, k)
  {
    if t == "" {
    } else {
      var p := t[..|t| - 1];
      PlainHasNoDouble(p);
      forall k
        ensures !DoubleAt(t, k)
      {
        assert DoubleAt(t, k) && k < |t| - 2 ==> DoubleAt(p, k);
      }
    }
  }

  predicate EndsInColon(t: string) { t != "" && t[|t| - 1] == ':' }

  /** All pieces are fields, but the last one may be empty. */
  lemma {:induction false} SplitPieces(t: string)
    requires Plain(t) && t != "" && t[0] != ':'
    ensures Small(Split(t)) && (NoEmpty(Split(t)) <==> !EndsInColon(t))
    ensures !EndsInColon(t) ==> Pieces(Split(t))
    decreases |t|
  {
    hide Split, Small, NoEmpty, Pieces, Plain, FirstColon;
    SplitUnfold(t);
    match FirstColon(t)
    case None => PlainOnly(t);
    case Some(k) =>
      PlainHead(t, k);
      SmallHead(t[..k]);
      var y := t[k + 1..];
      Uncons(t[..k], Split(y));
      if y == "" {
        SplitNothing();
      } else {
        SplitPieces(y);
        assert y[|y| - 1] == t[|t| - 1];
      }
  }

  lemma SplitNothing()
    ensures Split("") == [""] && Small([""]) && !NoEmpty([""])
  {
    assert [""][0] == "";
  }

  // ---------- the two sides of a double colon ----------

  /** The parts of an accepted text around its double colon. */
  lemma Sides(t: string, p: nat)
    requires OnlyAddressChars(t) && LongestField(t) <= 4 && Doubles(t) <= 1 && FirstDouble(t) == Some(p) && p + 2 <= |t|
    ensures var x, z := t[..p], t[p + 2..];
            && t == x + ("::" + z) && Plain(x) && Plain(z) && !EndsInColon(x) && (z != "" ==> z[0] != ':')
            && Colons(t) == Colons(x) + 2 + Colons(z)
  {
    DoubleCut(t, p);
    CharsOfPart(t, 0, p);
    CharsOfPart(t, p + 2, |t|);
    hide Colons, Doubles, Fields, LongestField, FirstDouble, OnlyAddressChars, Plain;
    CutAtDouble(t, p);
    PlainParts(t[..p], "::", t[p + 2..]);
  }

  lemma DoubleCut(t: string, p: nat)
    requires Doubles(t) <= 1 && FirstDouble(t) == Some(p) && p + 2 <= |t|
    ensures var x, z := t[..p], t[p + 2..]; t == x + ("::" + z) && !EndsInColon(x) && (z != "" ==> z[0] != ':')
  {
    assert DoubleAt(t, p) && !DoubleAt(t, p - 1);
    hide Doubles, FirstDouble, DoubleAt;
    CutAtDouble(t, p);
    if p + 2 < |t| {
      OnlyOneDouble(t, p);
    }
    if EndsInColon(t[..p]) {
      EndOfHead(t, p);
    }
  }

  lemma OnlyOneDouble(t: string, p: nat)
    requires Doubles(t) <= 1 && DoubleAt(t, p) && p + 2 < |t|
    ensures t[p + 2] != ':'
  {
    var x, z := t[..p + 2], t[p + 2..];
    assert t == x + z;
    assert Doubles(x) >= 1 by { assert EndsDouble(x); }
    hide Doubles;
    DoublesAppend(x, z);
  }

  /** The fields the code reads in front of a double colon: none at all if the text begins with a colon. */
  function Front(x: string): seq<string> { if x == "" || x[0] == ':' then [] else Split(x) }

  function Back(z: string): seq<string> { if z == "" then [] else Split(z) }

  /** Padded fields with zero fields between them. */
  function Filled(hs: seq<string>, ts: seq<string>): seq<string> {
    Pads(hs) + ZeroFields(8 - |hs| - |ts|) + Pads(ts)
  }

  lemma FilledIsAddress(hs: seq<string>, ts: seq<string>)
    requires Pieces(hs) && Pieces(ts) && |hs| + |ts| <= 8
    ensures IsAddress(Filled(hs, ts)) && |Join(Filled(hs, ts))| == 39
  {
    var n := 8 - |hs| - |ts|;
    PadsAreFull(hs);
    PadsAreFull(ts);
    ZeroFieldsAt(n);
    hide Pads, ZeroFields, Join;
    var a := Filled(hs, ts);
    forall k | 0 <= k < 8
      ensures FullField(a[k])
    {
      if k < |hs| {
        assert a[k] == Pads(hs)[k];
      } else if k < |hs| + n {
        assert a[k] == ZeroFields(n)[k - |hs|];
      } else {
        assert a[k] == Pads(ts)[k - |hs| - n];
      }
    }
    JoinLength(a, 8);
  }

  lemma FrontPieces(x: string)
    requires Plain(x) && !EndsInColon(x)
    ensures Pieces(Front(x)) && |Front(x)| <= Colons(x) + 1 && (Front(x) == [] <==> x == "" || x[0] == ':')
    ensures x != "" && x[0] != ':' ==> |Front(x)| == Colons(x) + 1
  {
    if x == "" || x[0] == ':' {
      NoPieces();
    } else {
      SplitPieces(x);
      SplitCount(x);
    }
    hide Pieces, Split, Plain, Colons;
  }

  lemma BackPieces(z: string)
    requires Plain(z) && (z != "" ==> z[0] != ':')
    ensures Small(Back(z)) && (!EndsInColon(z) ==> Pieces(Back(z)))
    ensures |Back(z)| == if z == "" then 0 else Colons(z) + 1
  {
    if z == "" {
      NoPieces();
    } else {
      SplitPieces(z);
      SplitCount(z);
    }
    hide Pieces, Split, Plain, Colons, Small;
  }

  /** The loop behind the double colon. */
  lemma RestBack(z: string)
    requires Plain(z) && (z != "" ==> z[0] != ':') && |Back(z)| <= 8
    ensures Rest(z, 8 - |Back(z)|) == if EndsInColon(z) then None else Some(Pads(Back(z)))
  {
    hide Rest, Pads, Plain, Split;
    if z == "" {
      RestNothing(z);
      NoPieces();
    } else {
      SplitPieces(z);
      RestSplit(z, 8 - |Back(z)|);
    }
  }

  /** The loop in front of it. */
  lemma LeadingFront(x: string)
    requires Plain(x) && !EndsInColon(x) && x != ""
    ensures Leading(x, Colons(x) + 1) == Pads(Front(x))
  {
    if x[0] == ':' {
      StopsAtOnce(x, Colons(x) + 1, 0);
      NoPieces();
    } else {
      hide Leading, Pads, Plain, Split, Colons;
      SplitPieces(x);
      SplitCount(x);
      LeadingSplit(x);
    }
  }

  lemma TerminatedFront(x: string, y: string)
    requires Plain(x) && !EndsInColon(x) && x != ""
    ensures Terminated(x + (":" + y), Colons(x) + 1) == Some(Pads(Front(x)))
  {
    if x[0] == ':' {
      var t := x + (":" + y);
      assert t[0] == ':';
      StopsAtOnce(t, Colons(x) + 1, 0);
      NoPieces();
    } else {
      hide Terminated, Pads, Plain, Split, Colons;
      SplitPieces(x);
      SplitCount(x);
      TerminatedSplit(x, y);
    }
  }

  // ---------- the expansions, for every accepted text ----------

  /** What the three expansions of a double colon read. */
  function DoubleFields(x: string, z: string): Option<seq<string>> {
    if EndsInColon(z) then None else Some(Filled(Front(x), Back(z)))
  }

  /** Plain texts on both sides of a double colon, with few enough colons. */
  predicate TwoSides(x: string, z: string) {
    && Plain(x) && Plain(z) && !EndsInColon(x) && (z != "" ==> z[0] != ':')
    && Colons(x) + Colons(z) + 2 <= if x == "" || z == "" then 8 else 7
  }

  lemma BeginOf(z: string, n: nat)
    requires n <= 8 && n == if z == "" then 8 else 7 - Colons(z)
    requires Colons("::" + z) == 2 + Colons(z)
    ensures BeginFields("::" + z) == Prepended(ZeroFields(n), Rest(z, n))
  {
    hide Rest, Colons, ZeroFields, Prepended;
    assert ("::" + z)[2..] == z;
  }

  lemma BeginIs(z: string)
    requires TwoSides("", z)
    ensures BeginFields("::" + z) == DoubleFields("", z)
  {
    hide Rest, Pads, Back, Colons, ZeroFields, Plain, Pieces, Small, Prepended, BeginFields;
    BackPieces(z);
    RestBack(z);
    NoPieces();
    ColonsBehind(z);
    var n := 8 - |Back(z)|;
    BeginOf(z, n);
    PrependedIs(ZeroFields(n), Rest(z, n));
    NothingBefore(ZeroFields(n));
  }

  lemma NothingBefore(fs: seq<string>)
    ensures [] + fs == fs
  {
  }

  lemma ColonsBehind(z: string)
    ensures Colons("::" + z) == 2 + Colons(z) && Colons("") == 0
  {
    OneColon();
    ColonsAppend("::", z);
  }

  lemma EndOf(t: string, n: nat, fs: seq<string>)
    requires 0 < n < 8 && Colons(t) == n + 1 && Terminated(t, n) == Some(fs)
    ensures EndFields(t) == Some(fs + ZeroFields(8 - |fs|))
  {
    hide Colons, ZeroFields, Terminated;
  }

  lemma EndIs(x: string)
    requires TwoSides(x, "") && x != ""
    ensures EndFields(x + ("::" + "")) == DoubleFields(x, "")
  {
    hide Terminated, Front, ZeroFields, Plain, Pieces, EndFields;
    OneColon();
    ColonsAppend(x, "::");
    NoCounts();
    hide Colons;
    FrontPieces(x);
    TerminatedFront(x, ":");
    NoPieces();
    hide Pads;
    assert "::" + "" == "::" && "::" + "" == ":" + ":";
    EndOf(x + ("::" + ""), Colons(x) + 1, Pads(Front(x)));
    assert Filled(Front(x), []) == Pads(Front(x)) + ZeroFields(8 - |Front(x)|);
  }

  lemma MiddleIs(x: string, z: string)
    requires TwoSides(x, z) && x != "" && z != "" && FirstDouble(x + ("::" + z)) == Some(|x|)
    ensures MiddleFields(x + ("::" + z)) == DoubleFields(x, z)
  {
    hide Leading, Pads, Front, Back, Colons, ZeroFields, Plain, Pieces, Rest, FirstDouble, DoubleAt;
    hide MiddleFields, Around;
    hide After, Prepended;
    DoubleSides(x, z);
    MiddleAround(x + ("::" + z), |x|);
    FrontPieces(x);
    BackPieces(z);
    LeadingFront(x);
    RestBack(z);
    var zeros := ZeroFields(8 - |Front(x)| - |Back(z)|);
    AroundIs(x, z, Pads(Front(x)), zeros);
    AfterIs(Pads(Front(x)) + zeros, z);
    PrependedIs(Pads(Front(x)) + zeros, Rest(z, 8 - |Back(z)|));
  }

  lemma DoubleSides(x: string, z: string)
    ensures var t := x + ("::" + z); t[..|x|] == x && t[|x| + 2..] == z && |t| == |x| + 2 + |z|
  {
  }

  /** What the expansion of a text with a double colon reads, for every accepted one. */
  lemma DoubleRead(t: string, p: nat)
    requires Verdict(t) == SUCCESS && FirstDouble(t) == Some(p) && p + 2 <= |t|
    ensures TwoSides(t[..p], t[p + 2..])
    ensures DoubleFields(t[..p], t[p + 2..]) ==
            if p == 0 then BeginFields(t) else if p == |t| - 2 then EndFields(t) else MiddleFields(t)
  {
    var x, z := t[..p], t[p + 2..];
    Sides(t, p);
    ColonLimit(t, p);
    hide Plain, Colons, FirstDouble, BeginFields, EndFields, MiddleFields, DoubleFields;
    if p == 0 {
      assert x == "" && t == "::" + z;
      BeginIs(z);
    } else if p == |t| - 2 {
      assert z == "";
      EndIs(x);
    } else {
      MiddleIs(x, z);
    }
  }

  lemma ColonLimit(t: string, p: nat)
    requires Verdict(t) == SUCCESS && FirstDouble(t) == Some(p) && p + 2 <= |t|
    ensures Colons(t) <= if p == 0 || p == |t| - 2 then 8 else 7
  {
    assert DoubleAt(t, p);
    if StartsWithDouble(t) {
      assert DoubleAt(t, 0);
    }
    if EndsDouble(t) {
      assert DoubleAt(t, |t| - 2);
      EndIsFirst(t, p);
    }
    hide Colons, Doubles, Fields, LongestField;
  }

  lemma EndIsFirst(t: string, p: nat)
    requires Doubles(t) <= 1 && FirstDouble(t) == Some(p) && EndsDouble(t)
    ensures p == |t| - 2
  {
    var y := t[..|t| - 1];
    assert Doubles(y) == 0;
    PlainHasNoDouble(y);
    assert DoubleAt(t, p);
    assert p < |t| - 2 ==> DoubleAt(y, p);
    assert DoubleAt(t, |t| - 2);
  }

  /** The expansion of every accepted text with a double colon. A single colon at the end is
      refused; one at the beginning is accepted, and the fields in front of the double colon are lost. */
  lemma ExpandedDouble(t: string, p: nat)
    requires Verdict(t) == SUCCESS && FirstDouble(t) == Some(p) && p + 2 <= |t|
    ensures var x, z := t[..p], t[p + 2..];
            && |Front(x)| + |Back(z)| <= 7
            && Expanded(t) == (if EndsInColon(z) then (INVALID_ADDRESS, "")
                               else (SUCCESS, Lower(Join(Filled(Front(x), Back(z))))))
            && (!EndsInColon(z) ==> IsAddress(Filled(Front(x), Back(z))))
  {
    var x, z := t[..p], t[p + 2..];
    DoubleRead(t, p);
    hide Verdict, FirstDouble, BeginFields, EndFields, MiddleFields, DoubleAt, Join, Lower, Filled, Front, Back;
    FrontPieces(x);
    BackPieces(z);
    hide Plain, Colons, Pieces, Small, IsAddress;
    if !EndsInColon(z) {
      FilledIsAddress(Front(x), Back(z));
    }
  }

  /** The expansion of every accepted shorter text without a double colon. */
  lemma ExpandedOmitted(t: string)
    requires Verdict(t) == SUCCESS && FirstDouble(t).None? && |t| < 39
    ensures Expanded(t) ==
            if Colons(t) == 7 && t[0] != ':' && !EndsInColon(t) then (SUCCESS, Lower(Join(Filled(Split(t), []))))
            else (INVALID_ADDRESS, "")
    ensures Colons(t) == 7 && t[0] != ':' && !EndsInColon(t) ==> Pieces(Split(t)) && |Split(t)| == 8
  {
    NoDoubles(t);
    OmittedColons(t);
    hide Verdict, Doubles, Fields, LongestField, FirstDouble, Join, Lower, Colons;
    if t[0] == ':' {
      StopsAtOnce(t, 1, 0);
    } else {
      SplitPieces(t);
      SplitCount(t);
      RestSplit(t, 0);
      hide Rest, Split, Pieces, Pads, Small, NoEmpty;
      if Colons(t) == 7 && !EndsInColon(t) {
        FilledIsAddress(Split(t), []);
        FilledWhole(Split(t));
      }
    }
  }

  lemma OmittedColons(t: string)
    requires Verdict(t) == SUCCESS && Doubles(t) == 0
    ensures Colons(t) <= 7 && Plain(t) && |t| >= 2
  {
  }

  lemma FilledWhole(ps: seq<string>)
    requires |ps| == 8
    ensures Filled(ps, []) == Pads(ps)
  {
    NoPieces();
    hide Pads;
    assert ZeroFields(0) == [];
  }

  // ---------- well-formed texts ----------

  /** A double colon between two lists of fields. */
  function Doubled(xs: seq<string>, zs: seq<string>): string { Join(xs) + ("::" + Join(zs)) }

  /** Eight fields, or at most seven around a double colon. */
  ghost predicate WellFormed(t: string) {
    || (exists ps :: Pieces(ps) && |ps| == 8 && t == Join(ps))
    || (exists xs, zs :: Pieces(xs) && Pieces(zs) && |xs| + |zs| <= 7 && t == Doubled(xs, zs))
  }

  /** Fields with colons between them: no double colon, and neither end is a colon. */
  predicate Clean(t: string, n: nat) {
    && Plain(t) && Colons(t) == n - 1 && Fields(t) == n
    && t != "" && t[0] != ':' && !EndsInColon(t)
  }

  lemma {:induction false} JoinClean(ps: seq<string>)
    requires Pieces(ps) && ps != []
    ensures Clean(Join(ps), |ps|)
    decreases |ps|
  {
    assert Piece(ps[0]);
    PieceClean(ps[0]);
    if |ps| == 1 {
    } else {
      JoinClean(ps[1..]);
      CleanAppend(ps[0], Join(ps[1..]), |ps| - 1);
    }
  }

  /** A field and a colon in front of a clean text. */
  lemma CleanAppend(p: string, t: string, n: nat)
    requires Clean(p, 1) && Clean(t, n)
    ensures Clean(p + (":" + t), n + 1)
  {
    OneColon();
    hide Colons, Doubles, Fields, LongestField;
    SplitCounts(p, ":", t);
  }

  /** The text with nothing in it, or clean. */
  lemma PartClean(ps: seq<string>)
    requires Pieces(ps)
    ensures var t := Join(ps);
            && Plain(t) && Colons(t) == (if ps == [] then 0 else |ps| - 1) && Fields(t) == |ps|
            && (t == "" <==> ps == []) && (t != "" ==> t[0] != ':') && !EndsInColon(t)
            && |t| <= if ps == [] then 0 else 5 * |ps| - 1
  {
    if ps == [] {
    } else {
      JoinClean(ps);
    }
    PiecesAreSmall(ps);
    JoinBound(ps);
  }

  lemma JoinedAccepted(ps: seq<string>)
    requires Pieces(ps) && |ps| == 8
    ensures Verdict(Join(ps)) == SUCCESS && FirstDouble(Join(ps)) == None
    ensures Plain(Join(ps)) && Colons(Join(ps)) == 7 && Join(ps)[0] != ':' && !EndsInColon(Join(ps))
  {
    PartClean(ps);
    PlainHasNoDouble(Join(ps));
    hide Join, Colons, Doubles, Fields, LongestField;
    if |Join(ps)| < 2 {
      ShortText(Join(ps));
    }
  }

  lemma ShortText(t: string)
    requires |t| < 2
    ensures Colons(t) <= 1
  {
    if |t| == 1 {
      assert t[..0] == "";
    }
  }

  lemma DoubledAccepted(xs: seq<string>, zs: seq<string>)
    requires Pieces(xs) && Pieces(zs) && |xs| + |zs| <= 7
    ensures Verdict(Doubled(xs, zs)) == SUCCESS && FirstDouble(Doubled(xs, zs)) == Some(|Join(xs)|)
  {
    var x, z := Join(xs), Join(zs);
    var t := x + ("::" + z);
    PartClean(xs);
    PartClean(zs);
    OneColon();
    hide Join, Colons, Doubles, Fields, LongestField, FirstDouble;
    SplitCounts(x, "::", z);
    FirstDoubleIs(x, z);
    CharsJoin(x, z);
    if x == "" {
      assert StartsWithDouble(t);
    }
    if z == "" {
      assert EndsDouble(t);
    }
  }

  lemma CharsJoin(x: string, z: string)
    requires OnlyAddressChars(x) && OnlyAddressChars(z)
    ensures OnlyAddressChars(x + ("::" + z))
  {
  }

  lemma FirstDoubleIs(x: string, y: string)
    requires Doubles(x) == 0 && !EndsInColon(x)
    ensures FirstDouble(x + ("::" + y)) == Some(|x|)
  {
    hide FirstDouble;
    PlainHasNoDouble(x);
    var t := x + ("::" + y);
    assert DoubleAt(t, |x|);
    forall k | k < |x|
      ensures !DoubleAt(t, k)
    {
      assert DoubleAt(t, k) && k < |x| - 1 ==> DoubleAt(x, k);
    }
  }

  lemma PartSplit(ps: seq<string>)
    requires Pieces(ps)
    ensures Front(Join(ps)) == ps && Back(Join(ps)) == ps
  {
    PartClean(ps);
    if ps == [] {
    } else {
      SplitJoin(ps);
    }
  }

  /** Expanding any fields around a double colon: padded, with zero fields in its place, in lower case. */
  lemma ExpandDoubled(xs: seq<string>, zs: seq<string>)
    requires Pieces(xs) && Pieces(zs) && |xs| + |zs| <= 7
    ensures Expanded(Doubled(xs, zs)) == (SUCCESS, Lower(Join(Filled(xs, zs)))) && IsAddress(Filled(xs, zs))
  {
    var x, z := Join(xs), Join(zs);
    DoubledAccepted(xs, zs);
    PartSplit(xs);
    PartSplit(zs);
    DoubleSides(x, z);
    PartClean(zs);
    hide Join, Front, Back, Verdict, FirstDouble, Expanded, Filled, Lower, Pieces, IsAddress, Plain, Colons, Fields;
    ExpandedDouble(Doubled(xs, zs), |x|);
  }

  /** Expanding eight fields; a text that is already full is only copied. */
  lemma ExpandJoined(ps: seq<string>)
    requires Pieces(ps) && |ps| == 8
    ensures |Join(ps)| < 39 ==> Expanded(Join(ps)) == (SUCCESS, Lower(Join(Pads(ps))))
    ensures |Join(ps)| >= 39 ==> Expanded(Join(ps)) == (NORMAL_TYPE, Join(ps))
  {
    var t := Join(ps);
    JoinedAccepted(ps);
    SplitJoin(ps);
    FilledWhole(ps);
    AcceptedLength(t);
    if |t| < 39 {
      hide Join, Verdict, FirstDouble, Filled, Pieces, Pads, Split, Plain, Colons, Expanded;
      ExpandedOmitted(t);
    }
    hide Join, Verdict, FirstDouble, Filled, Pieces, Pads, Split, Plain, Colons;
  }

  lemma AcceptedLength(t: string)
    requires Verdict(t) == SUCCESS
    ensures 2 <= |t| <= 39
  {
  }

  /** A single colon at the beginning, a double colon later, and no single colon at the end. */
  predicate Dropped(t: string) {
    match FirstDouble(t)
    case None => false
    case Some(p) => p > 0 && t[0] == ':' && !EndsInColon(t[p + 2..])
  }

  /** Exactly the well-formed texts and those with a single colon in front are expanded. */
  lemma ExpandsExactly(t: string)
    requires Verdict(t) == SUCCESS
    ensures Expanded(t).0 == SUCCESS || Expanded(t).0 == NORMAL_TYPE <==> WellFormed(t) || Dropped(t)
    ensures !(WellFormed(t) && Dropped(t))
  {
    hide Join, Verdict, Expanded, Pieces, Doubled;
    Expandable(t);
    if ps :| Pieces(ps) && |ps| == 8 && t == Join(ps) {
      JoinedExpands(ps);
    }
    if xs, zs :| Pieces(xs) && Pieces(zs) && |xs| + |zs| <= 7 && t == Doubled(xs, zs) {
      DoubledExpands(xs, zs);
    }
  }

  lemma JoinedExpands(ps: seq<string>)
    requires Pieces(ps) && |ps| == 8
    ensures Expanded(Join(ps)).0 == SUCCESS || Expanded(Join(ps)).0 == NORMAL_TYPE
    ensures !Dropped(Join(ps))
  {
    hide Join, Expanded, Pieces, Verdict, FirstDouble, Lower, Plain, Colons;
    ExpandJoined(ps);
    JoinedAccepted(ps);
  }

  lemma DoubledExpands(xs: seq<string>, zs: seq<string>)
    requires Pieces(xs) && Pieces(zs) && |xs| + |zs| <= 7
    ensures Expanded(Doubled(xs, zs)).0 == SUCCESS
    ensures !Dropped(Doubled(xs, zs))
  {
    ExpandDoubled(xs, zs);
    DoubledAccepted(xs, zs);
    PartClean(xs);
    hide Join, Expanded, Pieces, Verdict, FirstDouble, Lower, Plain, Colons, Fields;
    DoubleSides(Join(xs), Join(zs));
  }

  lemma ExpandableOmitted(t: string)
    requires Verdict(t) == SUCCESS && FirstDouble(t).None?
    ensures Expanded(t).0 == SUCCESS || Expanded(t).0 == NORMAL_TYPE ==> WellFormed(t)
    ensures !Dropped(t)
  {
    hide Join, Verdict, FirstDouble, Lower, Filled, Pieces, Colons, Split, Expanded;
    AcceptedLength(t);
    if |t| == 39 {
      FullIsWellFormed(t);
    } else {
      ExpandedOmitted(t);
      JoinSplit(t);
    }
  }

  lemma ExpandableDouble(t: string, p: nat)
    requires Verdict(t) == SUCCESS && FirstDouble(t) == Some(p) && p + 2 <= |t|
    ensures Expanded(t).0 == SUCCESS || Expanded(t).0 == NORMAL_TYPE ==> WellFormed(t) || Dropped(t)
    ensures Dropped(t) ==> Expanded(t).0 == SUCCESS
  {
    hide Join, Verdict, FirstDouble, Lower, Filled, Pieces, Expanded, IsAddress, Front, Back, WellFormed;
    ExpandedDouble(t, p);
    if !EndsInColon(t[p + 2..]) && (t[0] != ':' || p == 0) {
      DoubleIsWellFormed(t, p);
    }
  }

  lemma Expandable(t: string)
    requires Verdict(t) == SUCCESS
    ensures Expanded(t).0 == SUCCESS || Expanded(t).0 == NORMAL_TYPE ==> WellFormed(t) || Dropped(t)
    ensures Dropped(t) ==> Expanded(t).0 == SUCCESS
  {
    hide Verdict, Expanded, WellFormed, Dropped, FirstDouble;
    match FirstDouble(t)
    case None => ExpandableOmitted(t);
    case Some(p) =>
      assert DoubleAt(t, p);
      ExpandableDouble(t, p);
  }

  lemma FullIsWellFormed(t: string)
    requires Verdict(t) == SUCCESS && FirstDouble(t).None? && |t| == 39
    ensures WellFormed(t)
  {
    NoDoubles(t);
    AcceptedFull(t);
    hide Join, Verdict, FirstDouble, Doubles, FieldsOf;
    var ps := FieldsOf(t);
    assert Pieces(ps) by {
      forall k | 0 <= k < 8
        ensures Piece(ps[k])
      {
        assert FullField(ps[k]);
      }
    }
    hide Pieces;
  }

  lemma DoubleIsWellFormed(t: string, p: nat)
    requires Verdict(t) == SUCCESS && FirstDouble(t) == Some(p) && p + 2 <= |t|
    requires !EndsInColon(t[p + 2..]) && (p > 0 ==> t[0] != ':')
    ensures WellFormed(t)
  {
    var x, z := t[..p], t[p + 2..];
    Sides(t, p);
    ColonLimit(t, p);
    hide Verdict, FirstDouble, Join;
    FrontPieces(x);
    BackPieces(z);
    var xs, zs := Front(x), Back(z);
    PartJoin(x);
    PartJoin(z);
    assert Colons("") == 0;
    hide Plain, Colons, Pieces, Small, Front, Back;
    assert t == Doubled(xs, zs);
  }

  lemma PartJoin(x: string)
    ensures x != "" && x[0] != ':' ==> Join(Front(x)) == x
    ensures x == "" ==> Join(Front(x)) == x
    ensures Join(Back(x)) == x
  {
    JoinSplit(x);
  }

  /** An accepted text whose field is lost. */
  lemma DroppedExample()
    ensures Expanded(":1::") == (SUCCESS, Lower(Join(ZeroFields(8))))
  {
    var t := ":1::";
    ExampleAccepted();
    hide Verdict, Join, Lower, ZeroFields;
    assert t[..2] == ":1" && t[4..] == "";
    NoPieces();
    hide FirstDouble, Expanded, IsAddress;
    ExpandedDouble(t, 2);
    assert [] + ZeroFields(8) + [] == ZeroFields(8);
  }

  lemma ExampleAccepted()
    ensures Verdict(":1::") == SUCCESS && FirstDouble(":1::") == Some(2)
  {
    PieceClean("1");
    OneColon();
    NoCounts();
    hide Colons, Doubles, Fields, LongestField, FirstDouble;
    SplitCounts("", ":", "1");
    assert "" + (":" + "1") == ":1";
    SplitCounts(":1", "::", "");
    FirstDoubleIs(":1", "");
    assert ":1" + ("::" + "") == ":1::";
  }

  lemma NoCounts()
    ensures Colons("") == 0 && Doubles("") == 0 && Fields("") == 0 && LongestField("") == 0
  {
  }
}
