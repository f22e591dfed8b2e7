/** The memoised matcher of memoization/main.c and when it decides the language of its pattern. */
module Memo {
  import opened Places
  import opened Wildcard

  /** What the recursion computes: a literal match, of a star with a star too, is tried first and is final. */
  predicate Decides(t: string, p: string)
    decreases |t| + |p|
  {
    if p != "" && t != "" && Fits(p[0], t[0]) then Decides(t[1..], p[1..])
    else if p == "" then t == ""
    else if p[0] == '*' then Decides(t, p[1..]) || (t != "" && Decides(t[1..], p))
    else false
  }

  /** A star takes no character or one more. */
  lemma StarUnfold(t: string, p: string)
    requires p != "" && p[0] == '*'
    ensures Matches(t, p) <==> Matches(t, p[1..]) || (t != "" && Matches(t[1..], p))
  {
    assert t[0..] == t;
    if Matches(t, p) {
      var k :| 0 <= k <= |t| && Matches(t[k..], p[1..]);
      if k > 0 {
        assert t[1..][k - 1..] == t[k..];
      }
    }
    if t != "" && Matches(t[1..], p) {
      var k :| 0 <= k <= |t[1..]| && Matches(t[1..][k..], p[1..]);
      assert t[k + 1..] == t[1..][k..];
    }
  }

  lemma {:induction false} DecidesStarFree(t: string, p: string)
    requires '*' !in t
    ensures Decides(t, p) <==> Matches(t, p)
    decreases |t| + |p|
  {
    if p != "" && t != "" && Fits(p[0], t[0]) {
      DecidesStarFree(t[1..], p[1..]);
    } else if p != "" && p[0] == '*' {
      StarUnfold(t, p);
      DecidesStarFree(t, p[1..]);
      if t != "" {
        DecidesStarFree(t[1..], p);
      }
    }
  }

  /** n question marks. */
  function Marks(n: nat): (r: string)
    ensures |r| == n
  {
    if n == 0 then "" else "?" + Marks(n - 1)
  }

  lemma {:induction false} MarksDecide(t: string, n: nat, p: string)
    requires n <= |t|
    ensures Decides(t, Marks(n) + p) <==> Decides(t[n..], p)
    ensures Matches(t, Marks(n) + p) <==> Matches(t[n..], p)
  {
    if n == 0 {
      assert t[0..] == t && Marks(0) + p == p;
    } else {
      var q := Marks(n) + p;
      assert q[0] == '?' && q[1..] == Marks(n - 1) + p;
      MarksDecide(t[1..], n - 1, p);
      assert t[1..][n - 1..] == t[n..];
    }
  }

  lemma {:induction false} MarksCount(t: string, n: nat)
    ensures Decides(t, Marks(n)) <==> |t| == n
    ensures Matches(t, Marks(n)) <==> |t| == n
  {
    if n == 0 || t == "" {
    } else {
      assert Marks(n)[1..] == Marks(n - 1);
      MarksCount(t[1..], n - 1);
    }
  }

  /** With a star at position i of the text, this pattern is matched but not recognised. */
  lemma StarInText(t: string, i: nat)
    requires i < |t| && t[i] == '*'
    ensures var p := Marks(i) + ("*" + Marks(|t| - i));
            Matches(t, p) && !Decides(t, p)
  {
    var n := |t| - i;
    var s := t[i..];
    var q := "*" + Marks(n);
    MarksDecide(t, i, q);
    assert q[0] == '*' && q[1..] == Marks(n);
    StarUnfold(s, q);
    MarksCount(s, n);
    MarksCount(s[1..], n);
  }

  /** The memoised matcher decides the language of every pattern exactly for texts without stars. */
  lemma MemoExact(t: string)
    ensures (forall p: string :: Decides(t, p) <==> Matches(t, p)) <==> '*' !in t
  {
    if '*' in t {
      var i: nat :| i < |t| && t[i] == '*';
      StarInText(t, i);
      var p := Marks(i) + ("*" + Marks(|t| - i));
      assert !(Decides(t, p) <==> Matches(t, p));
    } else {
      forall p: string
        ensures Decides(t, p) <==> Matches(t, p)
      {
        DecidesStarFree(t, p);
      }
    }
  }

  // ---------- the decided language by places ----------

  /** A star before a character that is no star takes nothing, or that character and more. */
  lemma StarHere(t: string, i: nat, p: string, j: nat)
    requires i < |t| && j < |p| && p[j] == '*' && t[i] != '*'
    ensures SomePlace(StopsAtStar, t, i, p, j) <==>
            SomePlace(StopsAtStar, t, i, p, j + 1) || SomePlace(StopsAtStar, t, i + 1, p, j)
  {
    hide SomePlace;
    var j' := j + 1;
    PlaceStep(StopsAtStar, t, i, p, j);
    PlaceStep(StopsAtStar, t, i + 1, p, j);
    assert Takes(StopsAtStar, t, p, j, i, i);
    if k :| Takes(StopsAtStar, t, p, j, i + 1, k) && SomePlace(StopsAtStar, t, k, p, j') {
      assert Takes(StopsAtStar, t, p, j, i, k);
    }
  }

  /** A star before a star of the text takes just that. */
  lemma StarOnStar(t: string, i: nat, p: string, j: nat)
    requires i < |t| && j < |p| && p[j] == '*' && t[i] == '*'
    ensures SomePlace(StopsAtStar, t, i, p, j) <==> SomePlace(StopsAtStar, t, i + 1, p, j + 1)
  {
    hide SomePlace;
    PlaceStep(StopsAtStar, t, i, p, j);
    assert Takes(StopsAtStar, t, p, j, i, i + 1);
  }

  lemma StarAtEnd(t: string, p: string, j: nat)
    requires j < |p| && p[j] == '*'
    ensures SomePlace(StopsAtStar, t, |t|, p, j) <==> SomePlace(StopsAtStar, t, |t|, p, j + 1)
  {
    hide SomePlace;
    PlaceStep(StopsAtStar, t, |t|, p, j);
    assert Takes(StopsAtStar, t, p, j, |t|, |t|);
  }

  lemma DecidesStep(t: string, i: nat, p: string, j: nat)
    requires i <= |t| && j < |p|
    ensures i < |t| && (p[j] == t[i] || p[j] == '?') ==>
            (Decides(t[i..], p[j..]) <==> Decides(t[i + 1..], p[j + 1..]))
    ensures !(i < |t| && (p[j] == t[i] || p[j] == '?')) ==>
            (Decides(t[i..], p[j..]) <==>
             p[j] == '*' && (Decides(t[i..], p[j + 1..]) || (i < |t| && Decides(t[i + 1..], p[j..]))))
  {
    assert p[j..][0] == p[j] && p[j..][1..] == p[j + 1..];
    if i < |t| {
      assert t[i..][0] == t[i] && t[i..][1..] == t[i + 1..];
    }
  }

  /** The recursion accepts exactly when every character of the pattern has a place, a star going
      up to and with the first star of the text that it meets, or ending before another character. */
  lemma {:induction false} DecidesPlaced(t: string, i: nat, p: string, j: nat)
    requires i <= |t| && j <= |p|
    ensures Decides(t[i..], p[j..]) <==> SomePlace(StopsAtStar, t, i, p, j)
    decreases |t| - i + (|p| - j)
  {
    hide SomePlace, Takes;
    if j == |p| {
      PlaceEnd(StopsAtStar, t, i, p);
      assert p[j..] == "";
    } else {
      DecidesStep(t, i, p, j);
      hide Decides;
      if i < |t| {
        DecidesPlaced(t, i + 1, p, j + 1);
      }
      if p[j] != '*' {
        PlaceChar(StopsAtStar, t, i, p, j);
      } else if i == |t| {
        StarAtEnd(t, p, j);
        DecidesPlaced(t, i, p, j + 1);
      } else if t[i] == '*' {
        StarOnStar(t, i, p, j);
      } else {
        StarHere(t, i, p, j);
        DecidesPlaced(t, i, p, j + 1);
        DecidesPlaced(t, i + 1, p, j);
      }
    }
  }

  /** The whole text and pattern; without stars in the pattern, texts equal up to its question marks. */
  lemma DecidedPlaces(t: string, p: string)
    ensures Decides(t, p) <==> Placed(StopsAtStar, t, p)
    ensures '*' !in p ==> (Decides(t, p) <==> EqualUpToMarks(t, p))
  {
    hide SomePlace, Decides;
    assert t[0..] == t && p[0..] == p;
    DecidesPlaced(t, 0, p, 0);
    if '*' !in p {
      StarFreePlaced(StopsAtStar, t, p);
    }
  }

  // ---------- the table ----------

  function Answer(w: string, t: string, i: nat, j: nat): (r: int)
    requires i <= |w| && j <= |t|
    ensures r == 0 || r == 1
  {
    if Decides(t[j..], w[i..]) then 1 else 0
  }

  /** Every entry is -1 or the answer for its two suffixes. */
  ghost predicate Sound(dp: array2<int>, w: string, t: string)
    reads dp
  {
    && |w| < dp.Length0 && |t| < dp.Length1
    && forall i, j :: 0 <= i <= |w| && 0 <= j <= |t| ==> dp[i, j] == -1 || dp[i, j] == Answer(w, t, i, j)
  }

  /** One unfolding of the answer, by the characters at the two cursors. */
  lemma AnswerUnfold(w: string, t: string, i: nat, j: nat)
    requires i <= |w| && j <= |t|
    ensures i == |w| ==> (Answer(w, t, i, j) == 1 <==> j == |t|)
    ensures i < |w| && j < |t| && Fits(w[i], t[j]) ==> Answer(w, t, i, j) == Answer(w, t, i + 1, j + 1)
    ensures i < |w| && !(j < |t| && Fits(w[i], t[j])) && w[i] == '*' ==>
      (Answer(w, t, i, j) == 1 <==> Answer(w, t, i + 1, j) == 1 || (j < |t| && Answer(w, t, i, j + 1) == 1))
    ensures i < |w| && !(j < |t| && Fits(w[i], t[j])) && w[i] != '*' ==> Answer(w, t, i, j) == 0
  {
    var p, s := w[i..], t[j..];
    if i < |w| {
      assert p[0] == w[i] && p[1..] == w[i + 1..];
    }
    if j < |t| {
      assert s[0] == t[j] && s[1..] == t[j + 1..];
    }
  }

  /** memoization(w, t): the answer for the suffixes from i and j, entered in the table. The
      while of the source leaves on its first pass, so it is an if here. */
  method Memoization(dp: array2<int>, w: string, t: string, i: nat, j: nat) returns (r: int)
    requires dp.Length0 == 101 && dp.Length1 == 101 && |w| <= 100 && |t| <= 100
    requires i <= |w| && j <= |t| && Sound(dp, w, t)
    modifies dp
    ensures Sound(dp, w, t)
    ensures r == dp[i, j] == Answer(w, t, i, j)
    decreases |w| - i + (|t| - j)
  {
    hide Answer;
    AnswerUnfold(w, t, i, j);
    if dp[i, j] != -1 {
      return dp[i, j];
    }
    if i < |w| && j < |t| && (w[i] == t[j] || w[i] == '?') {
      var v := Memoization(dp, w, t, i + 1, j + 1);
      dp[i, j] := v;
      return dp[i, j];
    }
    if i == |w| {
      dp[i, j] := if j == |t| then 1 else 0;
      return dp[i, j];
    }
    if w[i] == '*' {
      var v := Memoization(dp, w, t, i + 1, j);
      if v == 0 && j < |t| {
        v := Memoization(dp, w, t, i, j + 1);
      }
      if v != 0 {
        dp[i, j] := 1;
        return dp[i, j];
      }
    }
    dp[i, j] := 0;
    return dp[i, j];
  }

  /** The whole match: a table of -1 and one call at the start of both strings. */
  method MatchAll(w: string, t: string) returns (r: int)
    requires |w| <= 100 && |t| <= 100
    ensures r == 1 || r == 0
    ensures r == 1 <==> Decides(t, w)
    ensures r == 1 <==> Placed(StopsAtStar, t, w)
    ensures '*' !in w ==> (r == 1 <==> EqualUpToMarks(t, w))
    ensures '*' !in t ==> (r == 1 <==> Matches(t, w))
  {
    hide Placed, EqualUpToMarks;
    DecidedPlaces(t, w);
    var dp := new int[101, 101]((i, j) => -1);
    r := Memoization(dp, w, t, 0, 0);
    assert w[0..] == w && t[0..] == t;
    if '*' !in t {
      DecidesStarFree(t, w);
    }
  }
}
