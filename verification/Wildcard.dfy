/** Wildcard patterns and the greedy matcher of match2/main.c, which remembers only the last star. */
module Wildcard {
  import opened CStrings
  import opened Places

  /** One pattern character other than a star against one text character. */
  predicate Fits(p: char, c: char) {
    p == c || p == '?'
  }

  /** The language of a pattern: a star stands for any text, a question mark for any character. */
  ghost predicate Matches(t: string, p: string)
    decreases |p|
  {
    if p == "" then t == ""
    else if p[0] == '*' then exists k :: 0 <= k <= |t| && Matches(t[k..], p[1..])
    else t != "" && Fits(p[0], t[0]) && Matches(t[1..], p[1..])
  }

  /** The pattern the greedy matcher really decides: two or more stars at the end of the
      pattern ask for at least one more character. */
  function Effective(p: string): string {
    if p == "" then ""
    else if |p| >= 2 && OnlyStars(p) then "?*"
    else [p[0]] + Effective(p[1..])
  }

  /** The text from i against the pattern from j, as the greedy matcher decides it. */
  ghost predicate Accepts(t: string, i: int, p: string, j: int)
    requires 0 <= i <= |t| && 0 <= j <= |p|
  {
    Matches(t[i..], Effective(p[j..]))
  }

  /** Some position from i on accepts. */
  ghost predicate AcceptsLater(t: string, i: int, p: string, j: int)
    requires 0 <= i <= |t| && 0 <= j <= |p|
  {
    exists k :: i <= k <= |t| && Accepts(t, k, p, j)
  }

  // ---------- what one pattern character says about acceptance ----------

  lemma AcceptsEnd(t: string, i: nat, p: string)
    requires i <= |t|
    ensures Accepts(t, i, p, |p|) <==> i == |t|
  {
  }

  lemma AcceptsChar(t: string, i: nat, p: string, j: nat)
    requires i <= |t| && j < |p| && p[j] != '*'
    ensures Accepts(t, i, p, j) <==> i < |t| && Fits(p[j], t[i]) && Accepts(t, i + 1, p, j + 1)
  {
    assert p[j..][0] == p[j] && p[j..][1..] == p[j + 1..];
    var e := Effective(p[j..]);
    assert e[1..] == Effective(p[j + 1..]);
    if i < |t| {
      assert t[i..][1..] == t[i + 1..];
    }
  }

  lemma AnyText(t: string)
    ensures Matches(t, "*")
  {
    assert t[|t|..] == "";
    assert Matches("", "*"[1..]);
  }

  /** A run of stars at the end: one star accepts anything, more ask for a character. */
  lemma AcceptsStars(t: string, i: nat, p: string, j: nat)
    requires i <= |t| && j < |p| && OnlyStars(p[j..])
    ensures Accepts(t, i, p, j) <==> j + 1 == |p| || i < |t|
  {
    if j + 1 == |p| {
      assert p[j..] == "*";
      assert Effective("*") == "*" + Effective("");
      AnyText(t[i..]);
    } else if i < |t| {
      AnyText(t[i..][1..]);
      assert "?*"[1..] == "*";
    }
  }

  /** A star followed by something else: some later position accepts the rest. */
  lemma AcceptsStar(t: string, i: nat, p: string, j: nat)
    requires i <= |t| && j < |p| && p[j] == '*' && !OnlyStars(p[j..])
    ensures Accepts(t, i, p, j) <==> AcceptsLater(t, i, p, j + 1)
  {
    assert p[j..][1..] == p[j + 1..];
    var s, e := t[i..], Effective(p[j..]);
    assert e[1..] == Effective(p[j + 1..]);
    forall k | 0 <= k <= |s|
      ensures s[k..] == t[i + k..]
    {
    }
    var j' := j + 1;
    if k :| i <= k <= |t| && Accepts(t, k, p, j') {
      assert Matches(s[k - i..], e[1..]);
    }
    if Accepts(t, i, p, j) {
      var k :| 0 <= k <= |s| && Matches(s[k..], e[1..]);
      assert Accepts(t, i + k, p, j + 1);
    }
  }

  /** A star accepts earlier whatever it accepts later. */
  lemma StarEarlier(t: string, i: nat, k: nat, p: string, j: nat)
    requires i <= k <= |t| && j < |p| && p[j] == '*' && Accepts(t, k, p, j)
    ensures Accepts(t, i, p, j)
  {
    hide Accepts;
    if OnlyStars(p[j..]) {
      AcceptsStars(t, i, p, j);
      AcceptsStars(t, k, p, j);
    } else {
      AcceptsStar(t, i, p, j);
      AcceptsStar(t, k, p, j);
    }
  }

  /** At the end of the text only the empty pattern and a single star are accepted. */
  lemma {:induction false} AcceptsNothing(t: string, p: string, j: nat)
    requires j <= |p|
    ensures Accepts(t, |t|, p, j) <==> j == |p| || (j + 1 == |p| && p[j] == '*')
    decreases |p| - j
  {
    hide Accepts;
    if j == |p| {
      AcceptsEnd(t, |t|, p);
    } else if p[j] != '*' {
      AcceptsChar(t, |t|, p, j);
    } else if OnlyStars(p[j..]) {
      AcceptsStars(t, |t|, p, j);
    } else {
      AcceptsStar(t, |t|, p, j);
      AcceptsNothing(t, p, j + 1);
      assert j + 1 != |p|;
      assert j + 2 == |p| ==> p[j..] == [p[j], p[j + 1]];
    }
  }

  // ---------- literal segments ----------

  /** Pattern characters j to j + n, none of them a star, fit the text from i. */
  ghost predicate Literal(t: string, i: int, p: string, j: int, n: int) {
    && 0 <= i && 0 <= j && 0 <= n && i + n <= |t| && j + n <= |p|
    && (forall k :: j <= k < j + n ==> p[k] != '*' && Fits(p[k], t[k - j + i]))
  }

  lemma {:induction false} AcceptsLiteral(t: string, i: nat, p: string, j: nat, n: nat)
    requires Literal(t, i, p, j, n)
    ensures Accepts(t, i, p, j) <==> Accepts(t, i + n, p, j + n)
    decreases n
  {
    hide Accepts;
    if n == 0 {
    } else {
      AcceptsLiteral(t, i, p, j, n - 1);
      assert Fits(p[j + n - 1], t[i + n - 1]);
      AcceptsChar(t, i + n - 1, p, j + n - 1);
    }
  }

  /** A segment without stars, accepted anywhere, uses up as many characters. */
  lemma {:induction false} LiteralConsumes(t: string, i: nat, p: string, j: nat, n: nat)
    requires i <= |t| && j + n <= |p| && Accepts(t, i, p, j)
    requires forall k :: j <= k < j + n ==> p[k] != '*'
    ensures i + n <= |t| && Accepts(t, i + n, p, j + n)
    decreases n
  {
    hide Accepts;
    if n == 0 {
    } else {
      LiteralConsumes(t, i, p, j, n - 1);
      AcceptsChar(t, i + n - 1, p, j + n - 1);
    }
  }

  // ---------- the steps of the matcher ----------

  /** Text the last star does not take: its first position can be given up when the rest of
      the pattern does not accept there. */
  lemma GiveUp(t: string, i: nat, p: string, j: nat)
    requires i < |t| && j + 1 < |p| && p[j] == '*' && p[j + 1] != '*' && !Accepts(t, i, p, j + 1)
    ensures Accepts(t, i, p, j) <==> Accepts(t, i + 1, p, j)
  {
    hide Accepts;
    assert p[j..][1] != '*';
    AcceptsStar(t, i, p, j);
    AcceptsStar(t, i + 1, p, j);
  }

  /** Reaching a new star: only the star just reached matters from now on. */
  lemma NewStar(t: string, b: nat, i: nat, p: string, j: nat, k: nat)
    requires k < |p| && p[k] == '*' && j < k && p[j] == '*' && p[j + 1] != '*'
    requires Literal(t, b, p, j + 1, k - (j + 1)) && i == b + (k - (j + 1))
    ensures Accepts(t, b, p, j) <==> Accepts(t, i, p, k)
  {
    hide Accepts;
    assert p[j..][1] != '*';
    var n := k - (j + 1);
    AcceptsStar(t, b, p, j);
    AcceptsLiteral(t, b, p, j + 1, n);
    if Accepts(t, b, p, j) {
      var j' := j + 1;
      var c :| b <= c <= |t| && Accepts(t, c, p, j');
      LiteralConsumes(t, c, p, j + 1, n);
      StarEarlier(t, i, c + n, p, k);
    }
  }

  /** A star directly after a star. */
  lemma StarAfterStar(t: string, i: nat, p: string, j: nat)
    requires i < |t| && j + 1 < |p| && p[j] == '*' && p[j + 1] == '*'
    ensures Accepts(t, i, p, j) <==> Accepts(t, i, p, j + 1)
  {
    hide Accepts;
    if OnlyStars(p[j..]) {
      assert OnlyStars(p[j + 1..]) by { assert p[j + 1..] == p[j..][1..]; }
      AcceptsStars(t, i, p, j);
      AcceptsStars(t, i, p, j + 1);
    } else {
      AcceptsStar(t, i, p, j);
      var j' := j + 1;
      if k :| i <= k <= |t| && Accepts(t, k, p, j') {
        StarEarlier(t, i, k, p, j + 1);
      }
    }
  }

  /** The text ends inside a segment: the last star cannot start later. */
  lemma TextEnds(t: string, b: nat, p: string, j: nat, k: nat)
    requires k <= |p| && j + 1 < k && p[j] == '*' && p[j + 1] != '*'
    requires Literal(t, b, p, j + 1, k - (j + 1)) && b + (k - (j + 1)) == |t|
    ensures Accepts(t, b, p, j) <==> Accepts(t, |t|, p, k)
  {
    hide Accepts;
    assert p[j..][1] != '*';
    var n := k - (j + 1);
    AcceptsStar(t, b, p, j);
    AcceptsLiteral(t, b, p, j + 1, n);
    if Accepts(t, b, p, j) {
      var j' := j + 1;
      var c :| b <= c <= |t| && Accepts(t, c, p, j');
      LiteralConsumes(t, c, p, j + 1, n);
    }
  }

  // ---------- the same languages by places ----------

  /** A text is matched exactly when every character of the pattern has a place in it. */
  lemma {:induction false} MatchesPlaced(t: string, i: nat, p: string, j: nat)
    requires i <= |t| && j <= |p|
    ensures Matches(t[i..], p[j..]) <==> SomePlace(Free, t, i, p, j)
    decreases |p| - j
  {
    hide SomePlace;
    if j == |p| {
      PlaceEnd(Free, t, i, p);
    } else {
      assert p[j..][0] == p[j] && p[j..][1..] == p[j + 1..];
      var j' := j + 1;
      forall k: nat | i <= k <= |t|
        ensures Matches(t[k..], p[j'..]) <==> SomePlace(Free, t, k, p, j')
      {
        MatchesPlaced(t, k, p, j');
      }
      if p[j] == '*' {
        PlaceStep(Free, t, i, p, j);
        MatchesStar(t, i, p, j);
        if k :| i <= k <= |t| && Matches(t[k..], p[j'..]) {
          assert SomePlace(Free, t, k, p, j') && Takes(Free, t, p, j, i, k);
        }
      } else {
        PlaceChar(Free, t, i, p, j);
        if i < |t| {
          assert t[i..][1..] == t[i + 1..];
        }
      }
    }
  }

  lemma MatchesStar(t: string, i: nat, p: string, j: nat)
    requires i <= |t| && j < |p| && p[j] == '*'
    ensures Matches(t[i..], p[j..]) <==> exists k :: i <= k <= |t| && Matches(t[k..], p[j + 1..])
  {
    assert p[j..][1..] == p[j + 1..];
    var s := t[i..];
    forall k | 0 <= k <= |s|
      ensures s[k..] == t[i + k..]
    {
    }
    var q := p[j + 1..];
    if k :| i <= k <= |t| && Matches(t[k..], q) {
      assert Matches(s[k - i..], q);
    }
    if Matches(s, p[j..]) {
      var k :| 0 <= k <= |s| && Matches(s[k..], q);
      assert Matches(t[i + k..], q);
    }
  }

  /** The greedy matcher asks for a character for the last of two stars at the end. */
  lemma {:induction false} AcceptsPlaced(t: string, i: nat, p: string, j: nat)
    requires i <= |t| && j <= |p| && (EndsInTwoStars(p) ==> j + 2 <= |p|)
    ensures Accepts(t, i, p, j) <==> SomePlace(LastTakesOne, t, i, p, j)
    decreases |p| - j
  {
    hide SomePlace, Accepts;
    if j == |p| {
      AcceptsEnd(t, i, p);
      PlaceEnd(LastTakesOne, t, i, p);
    } else if p[j] != '*' {
      AcceptsChar(t, i, p, j);
      PlaceChar(LastTakesOne, t, i, p, j);
      if i < |t| {
        AcceptsPlaced(t, i + 1, p, j + 1);
      }
    } else if OnlyStars(p[j..]) {
      AcceptsStars(t, i, p, j);
      StarsFrom(p, j);
      PlaceStars(t, i, p, j);
    } else {
      assert j + 2 == |p| ==> p[j..] == [p[j], p[j + 1]];
      AcceptsStar(t, i, p, j);
      PlaceStep(LastTakesOne, t, i, p, j);
      var j' := j + 1;
      forall k: nat | i <= k <= |t|
        ensures Accepts(t, k, p, j') <==> SomePlace(LastTakesOne, t, k, p, j')
      {
        AcceptsPlaced(t, k, p, j');
      }
      if k :| i <= k <= |t| && Accepts(t, k, p, j') {
        assert SomePlace(LastTakesOne, t, k, p, j') && Takes(LastTakesOne, t, p, j, i, k);
      }
    }
  }

  lemma StarsFrom(p: string, j: nat)
    requires j < |p| && OnlyStars(p[j..])
    ensures forall n :: j <= n < |p| ==> p[n] == '*'
    ensures j + 1 < |p| ==> EndsInTwoStars(p)
  {
    forall n | j <= n < |p|
      ensures p[n] == '*'
    {
      assert p[j..][n - j] == p[n];
    }
  }

  /** The language of a pattern and the language the greedy matcher decides, by places. */
  lemma LanguagesPlaced(t: string, p: string)
    ensures Matches(t, p) <==> Placed(Free, t, p)
    ensures Matches(t, Effective(p)) <==> Placed(LastTakesOne, t, p)
  {
    assert t[0..] == t && p[0..] == p;
    MatchesPlaced(t, 0, p, 0);
    AcceptsPlaced(t, 0, p, 0);
  }

  /** A pattern without stars is matched exactly by the texts equal to it up to its question marks. */
  lemma StarFree(t: string, p: string)
    requires '*' !in p
    ensures Matches(t, p) <==> EqualUpToMarks(t, p)
  {
    hide Matches, Placed;
    LanguagesPlaced(t, p);
    StarFreePlaced(Free, t, p);
  }

  /** A pattern without wildcards is matched only by itself. */
  lemma OnlyItself(t: string, p: string)
    requires '*' !in p && '?' !in p
    ensures Matches(t, p) <==> t == p
  {
    hide Matches;
    StarFree(t, p);
  }

  /** The text is one that p takes, any text, and one that q matches. */
  ghost predicate SplitAtStar(t: string, p: string, q: string) {
    exists x, y, z :: t == x + y + z && EqualUpToMarks(x, p) && Matches(z, q)
  }

  lemma SplitNothing(t: string, q: string)
    ensures Matches(t, "*" + q) <==> SplitAtStar(t, "", q)
  {
    var r := "*" + q;
    assert r[1..] == q && r[0..] == r && t[0..] == t;
    MatchesStar(t, 0, r, 0);
    hide Matches;
    if k :| 0 <= k <= |t| && Matches(t[k..], q) {
      assert t == "" + t[..k] + t[k..] && EqualUpToMarks("", "");
    }
    if x, y, z :| t == x + y + z && EqualUpToMarks(x, "") && Matches(z, q) {
      assert t[|y|..] == z;
    }
  }

  lemma SplitLonger(t: string, p: string, q: string)
    requires p != "" && t != "" && (p[0] == '?' || p[0] == t[0]) && SplitAtStar(t[1..], p[1..], q)
    ensures SplitAtStar(t, p, q)
  {
    hide Matches;
    var x, y, z :| t[1..] == x + y + z && EqualUpToMarks(x, p[1..]) && Matches(z, q);
    var x' := [t[0]] + x;
    assert t == x' + y + z && EqualUpToMarks(x', p);
  }

  lemma SplitShorter(t: string, p: string, q: string)
    requires p != "" && SplitAtStar(t, p, q)
    ensures t != "" && (p[0] == '?' || p[0] == t[0]) && SplitAtStar(t[1..], p[1..], q)
  {
    hide Matches;
    var x, y, z :| t == x + y + z && EqualUpToMarks(x, p) && Matches(z, q);
    assert t[1..] == x[1..] + y + z && EqualUpToMarks(x[1..], p[1..]);
  }

  /** The first star of a pattern takes any text, between a text that the part before it takes
      and one that the part behind it matches. */
  lemma {:induction false} FirstStar(t: string, p: string, q: string)
    requires '*' !in p
    ensures Matches(t, p + "*" + q) <==> SplitAtStar(t, p, q)
  {
    hide SplitAtStar;
    if p == "" {
      assert p + "*" + q == "*" + q;
      SplitNothing(t, q);
    } else {
      var r := p + "*" + q;
      assert r[0] == p[0] && r[1..] == p[1..] + "*" + q;
      if t != "" {
        FirstStar(t[1..], p[1..], q);
        if (p[0] == '?' || p[0] == t[0]) && SplitAtStar(t[1..], p[1..], q) {
          SplitLonger(t, p, q);
        }
      }
      if SplitAtStar(t, p, q) {
        SplitShorter(t, p, q);
      }
    }
  }

  // ---------- the matcher ----------

  /** What the matcher knows: i and p are the cursors, star and retry the saved positions
      (-1 for null) and b the place where the last star's segment was tried first. */
  ghost predicate Invariant(t: CString, pat: CString, i: nat, p: nat, wildcard: bool, star: int, retry: int, b: nat)
  {
    && i <= |t| && p <= |pat| && b <= i && -1 <= star
    && if star == -1 then !wildcard && b == 0 && (Accepts(t, 0, pat, 0) <==> Accepts(t, i, pat, p))
       else
         && star + 1 < |pat| && pat[star] == '*'
         && (Accepts(t, 0, pat, 0) <==> Accepts(t, b, pat, star))
         && if wildcard then p == star + 1 && b == i && (pat[p] == '*' ==> i < |t|)
            else if p == star then b == i
            else
              && star + 1 < p && pat[star + 1] != '*' && retry == b + 1
              && i == b + (p - star - 1) && Literal(t, b, pat, star + 1, p - star - 1)
  }

  /** Third component of the termination measure: the cursor, while the last star stays put. */
  function Phase(n: nat, i: int, p: int, wildcard: bool, star: int): int {
    if star == -1 then n - i else if wildcard then n + 1 else if p == star then n + 2 else n - i
  }

  /** The loop meets a star that is not the last pattern character. */
  lemma MeetStar(t: CString, pat: CString, i: nat, p: nat, wildcard: bool, star: int, retry: int, b: nat)
    requires Invariant(t, pat, i, p, wildcard, star, retry, b) && i < |t| && p < |pat| && pat[p] == '*'
    ensures Accepts(t, 0, pat, 0) <==> Accepts(t, i, pat, p)
  {
    hide Accepts;
    if star >= 0 {
      if wildcard {
        StarAfterStar(t, i, pat, star);
      } else if p != star {
        NewStar(t, b, i, pat, star, p);
      }
    }
  }

  lemma MeetMatch(t: CString, pat: CString, i: nat, p: nat, wildcard: bool, star: int, retry: int, b: nat)
    requires Invariant(t, pat, i, p, wildcard, star, retry, b) && i < |t| && p < |pat|
    requires pat[p] != '*' && Fits(pat[p], t[i])
    ensures Invariant(t, pat, i + 1, p + 1, false, star, if wildcard then i + 1 else retry, b)
  {
    hide Accepts;
    if star == -1 {
      AcceptsChar(t, i, pat, p);
    }
  }

  lemma MeetMismatch(t: CString, pat: CString, i: nat, p: nat, wildcard: bool, star: int, retry: int, b: nat)
    requires Invariant(t, pat, i, p, wildcard, star, retry, b) && i < |t|
    requires p < |pat| ==> pat[p] != '*' && !Fits(pat[p], t[i])
    ensures star == -1 ==> !Accepts(t, 0, pat, 0)
    ensures wildcard ==> Invariant(t, pat, i + 1, p, true, star, retry, i + 1)
    ensures star >= 0 && !wildcard ==> retry == b + 1 && Invariant(t, pat, retry, star, false, star, -1, b + 1)
  {
    hide Accepts;
    if p < |pat| {
      AcceptsChar(t, i, pat, p);
    } else {
      AcceptsEnd(t, i, pat);
    }
    if star >= 0 {
      if !wildcard {
        AcceptsLiteral(t, b, pat, star + 1, p - star - 1);
      }
      GiveUp(t, b, pat, star);
    }
  }

  lemma TextOver(t: CString, pat: CString, p: nat, wildcard: bool, star: int, retry: int, b: nat)
    requires Invariant(t, pat, |t|, p, wildcard, star, retry, b)
    ensures Accepts(t, 0, pat, 0) <==> p == |pat| || (p + 1 == |pat| && pat[p] == '*')
  {
    hide Accepts;
    AcceptsNothing(t, pat, p);
    if star >= 0 {
      AcceptsNothing(t, pat, star);
      if !wildcard && p != star {
        TextEnds(t, b, pat, star, p);
      }
    }
  }

  lemma AcceptsWhole(t: string, p: string)
    ensures Accepts(t, 0, p, 0) <==> Matches(t, Effective(p))
  {
    assert t[0..] == t && p[0..] == p;
  }

  lemma DecidedLanguage(t: string, p: string)
    ensures Matches(t, Effective(p)) <==> Placed(LastTakesOne, t, p)
    ensures '*' !in p ==> (Matches(t, Effective(p)) <==> EqualUpToMarks(t, p))
    ensures !EndsInTwoStars(p) ==> Effective(p) == p
  {
    hide Matches, Placed, Effective;
    LanguagesPlaced(t, p);
    if '*' !in p {
      StarFreePlaced(LastTakesOne, t, p);
    }
    if !EndsInTwoStars(p) {
      EffectiveSame(p);
    }
  }

  /** The greedy matcher: it decides the language of the effective pattern, for every text and
      every pattern, and always stops although both cursors move backwards. */
  method IsMatch(line: CString, pattern: CString) returns (ret: int)
    ensures ret == 0 || ret == 1
    ensures ret == 1 <==> Matches(line, Effective(pattern))
    ensures ret == 1 <==> Placed(LastTakesOne, line, pattern)
    ensures '*' !in pattern ==> (ret == 1 <==> EqualUpToMarks(line, pattern))
    ensures !EndsInTwoStars(pattern) ==> (ret == 1 <==> Matches(line, pattern))
  {
    hide Accepts, Matches, Effective, Placed, EqualUpToMarks, EndsInTwoStars;
    DecidedLanguage(line, pattern);
    AcceptsWhole(line, pattern);
    var i: nat, p: nat := 0, 0;
    var wildcard := false;
    var star: int, retry: int := -1, -1;
    ghost var b: nat := 0;
    while i < |line|
      invariant Invariant(line, pattern, i, p, wildcard, star, retry, b)
      decreases |pattern| - star, |line| + 1 - b, Phase(|line|, i, p, wildcard, star)
    {
      if At(pattern, p) == '*' {
        MeetStar(line, pattern, i, p, wildcard, star, retry, b);
        if At(pattern, p + 1) == '\0' {
          assert OnlyStars(pattern[p..]);
          AcceptsStars(line, i, pattern, p);
          return 1;
        }
        star := p;
        wildcard := true;
        p := p + 1;
        b := i;
      } else if At(pattern, p) == At(line, i) || At(pattern, p) == '?' {
        MeetMatch(line, pattern, i, p, wildcard, star, retry, b);
        if wildcard {
          retry := i + 1;
        }
        i := i + 1;
        p := p + 1;
        wildcard := false;
      } else {
        MeetMismatch(line, pattern, i, p, wildcard, star, retry, b);
        if wildcard {
          i := i + 1;
          b := i;
        } else if star != -1 {
          p := star;
          i := retry;
          retry := -1;
          b := b + 1;
        } else {
          return 0;
        }
      }
    }
    TextOver(line, pattern, p, wildcard, star, retry, b);
    if At(pattern, p) == '\0' || (At(pattern, p) == '*' && |pattern| - (p + 1) == 0) {
      return 1;
    } else {
      return 0;
    }
  }

  // ---------- when that is the language of the pattern ----------

  lemma {:induction false} EffectiveSame(p: string)
    requires !EndsInTwoStars(p)
    ensures Effective(p) == p
  {
    if p == "" {
    } else {
      assert |p| >= 2 && OnlyStars(p) ==> EndsInTwoStars(p);
      EffectiveSame(p[1..]);
    }
  }

  /** The number of characters a pattern asks for. */
  function Needs(p: string): nat {
    if p == "" then 0 else (if p[0] == '*' then 0 else 1) + Needs(p[1..])
  }

  /** A shortest text of the pattern's language. */
  function Least(p: CString): CString {
    if p == "" then ""
    else if p[0] == '*' then Least(p[1..])
    else [if p[0] == '?' then 'a' else p[0]] + Least(p[1..])
  }

  lemma {:induction false} LeastMatches(p: CString)
    ensures Matches(Least(p), p) && |Least(p)| == Needs(p)
  {
    if p == "" {
    } else {
      var t := Least(p);
      LeastMatches(p[1..]);
      if p[0] == '*' {
        assert t[0..] == t;
      }
    }
  }

  lemma {:induction false} MatchesNeeds(t: string, p: string)
    requires Matches(t, p)
    ensures |t| >= Needs(p)
    decreases |p|
  {
    if p == "" {
    } else {
      if p[0] == '*' {
        var k :| 0 <= k <= |t| && Matches(t[k..], p[1..]);
        MatchesNeeds(t[k..], p[1..]);
      } else {
        MatchesNeeds(t[1..], p[1..]);
      }
    }
  }

  lemma {:induction false} EffectiveNeeds(p: string)
    requires EndsInTwoStars(p)
    ensures Needs(Effective(p)) == Needs(p) + 1
  {
    if OnlyStars(p) {
      StarsNeed(p);
      assert Needs("?*") == 1 + Needs("*") && Needs("*") == Needs("");
    } else {
      assert |p| == 2 ==> OnlyStars(p);
      EffectiveNeeds(p[1..]);
      assert Effective(p)[1..] == Effective(p[1..]);
    }
  }

  lemma {:induction false} StarsNeed(p: string)
    requires OnlyStars(p)
    ensures Needs(p) == 0
  {
    if p == "" {
    } else {
      StarsNeed(p[1..]);
    }
  }

  /** The greedy matcher decides the language of the pattern, on every text, exactly when the
      pattern does not end in two stars. */
  lemma GreedyExact(p: CString)
    ensures (forall t: CString :: Matches(t, Effective(p)) <==> Matches(t, p)) <==> !EndsInTwoStars(p)
  {
    if EndsInTwoStars(p) {
      LeastMatches(p);
      EffectiveNeeds(p);
      var t: CString := Least(p);
      if Matches(t, Effective(p)) {
        MatchesNeeds(t, Effective(p));
      }
      assert !(Matches(t, Effective(p)) <==> Matches(t, p));
    } else {
      EffectiveSame(p);
    }
  }

  /** "a**" matches "a", and the greedy matcher says it does not. */
  lemma LeftoverStars()
    ensures Matches("a", "a**") && !Matches("a", Effective("a**"))
  {
    assert Least("a**") == "a" by {
      assert Least("**") == "" by { assert "**"[1..] == "*" && "*"[1..] == ""; }
      assert "a**"[1..] == "**";
    }
    LeastMatches("a**");
    EffectiveNeeds("a**");
    if Matches("a", Effective("a**")) {
      MatchesNeeds("a", Effective("a**"));
    }
  }
}
