/** Where the characters of a pattern stand in a text: the language of a pattern, and what the two
    matchers make of it, without recursion. */
module Places {

  /** What a star may take: any text; any text, but when the pattern ends in two stars at least one
      character for the last; or a text that goes up to and with its first star, or ends before a
      character that is no star. */
  datatype Stars = Free | LastTakesOne | StopsAtStar

  predicate EndsInTwoStars(p: string) {
    |p| >= 2 && p[|p| - 1] == '*' && p[|p| - 2] == '*'
  }

  /** A text from a to b with no star but at its end, and none behind it otherwise. */
  ghost predicate UpToStar(t: string, a: int, b: int)
    requires 0 <= a <= b <= |t|
  {
    && (forall x :: a <= x < b - 1 ==> t[x] != '*')
    && (b < |t| && t[b] == '*' ==> a < b && t[b - 1] == '*')
  }

  /** Character n of the pattern takes the text from a to b. */
  ghost predicate Takes(m: Stars, t: string, p: string, n: nat, a: int, b: int)
    requires n < |p|
  {
    if p[n] == '*' then
      && 0 <= a <= b <= |t|
      && (m == LastTakesOne && EndsInTwoStars(p) && n == |p| - 1 ==> a < b)
      && (m == StopsAtStar ==> UpToStar(t, a, b))
    else 0 <= a < |t| && b == a + 1 && (p[n] == '?' || p[n] == t[a])
  }

  /** The pattern from j takes the text from i to its end: character n stands at at[n]. */
  ghost predicate PlacedFrom(m: Stars, t: string, i: int, p: string, j: nat, at: seq<int>) {
    && j <= |p| == |at| - 1 && at[j] == i && at[|p|] == |t|
    && forall n :: j <= n < |p| ==> Takes(m, t, p, n, at[n], at[n + 1])
  }

  ghost predicate SomePlace(m: Stars, t: string, i: int, p: string, j: nat) {
    exists at :: PlacedFrom(m, t, i, p, j, at)
  }

  /** The pattern takes the whole text. */
  ghost predicate Placed(m: Stars, t: string, p: string) {
    SomePlace(m, t, 0, p, 0)
  }

  lemma PlaceFirst(m: Stars, t: string, i: int, p: string, j: nat, at: seq<int>)
    requires j < |p| == |at| - 1 && PlacedFrom(m, t, at[j + 1], p, j + 1, at) && Takes(m, t, p, j, i, at[j + 1])
    ensures PlacedFrom(m, t, i, p, j, at[j := i])
  {
    hide Takes;
  }

  lemma PlaceRest(m: Stars, t: string, i: int, p: string, j: nat, at: seq<int>)
    requires j < |p| && PlacedFrom(m, t, i, p, j, at)
    ensures |at| == |p| + 1 && at[j] == i
    ensures PlacedFrom(m, t, at[j + 1], p, j + 1, at) && Takes(m, t, p, j, i, at[j + 1])
  {
    hide Takes;
  }

  lemma PlaceBounds(m: Stars, t: string, i: int, p: string, j: nat, at: seq<int>)
    requires PlacedFrom(m, t, i, p, j, at)
    ensures j <= |p| == |at| - 1 && at[j] == i && at[|p|] == |t|
  {
  }

  lemma PlaceEnd(m: Stars, t: string, i: int, p: string)
    ensures SomePlace(m, t, i, p, |p|) <==> i == |t|
  {
    if i == |t| {
      assert PlacedFrom(m, t, i, p, |p|, seq(|p| + 1, _ => i));
    }
  }

  /** From where the first character ends, the rest is placed. */
  lemma PlaceStep(m: Stars, t: string, i: int, p: string, j: nat)
    requires j < |p|
    ensures SomePlace(m, t, i, p, j) <==> exists k :: Takes(m, t, p, j, i, k) && SomePlace(m, t, k, p, j + 1)
  {
    hide PlacedFrom, Takes;
    var j' := j + 1;
    if SomePlace(m, t, i, p, j) {
      var at :| PlacedFrom(m, t, i, p, j, at);
      PlaceRest(m, t, i, p, j, at);
      assert SomePlace(m, t, at[j + 1], p, j + 1);
    }
    if k :| Takes(m, t, p, j, i, k) && SomePlace(m, t, k, p, j') {
      var at :| PlacedFrom(m, t, k, p, j', at);
      PlaceBounds(m, t, k, p, j', at);
      PlaceFirst(m, t, i, p, j, at);
    }
  }

  /** Characters other than a star take one character each. */
  lemma PlaceChar(m: Stars, t: string, i: int, p: string, j: nat)
    requires j < |p| && p[j] != '*'
    ensures SomePlace(m, t, i, p, j) <==>
            0 <= i < |t| && (p[j] == '?' || p[j] == t[i]) && SomePlace(m, t, i + 1, p, j + 1)
  {
    hide SomePlace;
    PlaceStep(m, t, i, p, j);
    if 0 <= i < |t| && (p[j] == '?' || p[j] == t[i]) && SomePlace(m, t, i + 1, p, j + 1) {
      assert Takes(m, t, p, j, i, i + 1);
    }
  }

  predicate OnlyStars(p: string) {
    forall i :: 0 <= i < |p| ==> p[i] == '*'
  }

  /** Stars at the end take any text, or any but the empty one when there are two of them and
      the last takes a character. */
  lemma {:induction false} PlaceStars(t: string, i: nat, p: string, j: nat)
    requires i <= |t| && j < |p| && (forall n :: j <= n < |p| ==> p[n] == '*')
    ensures SomePlace(LastTakesOne, t, i, p, j) <==> !EndsInTwoStars(p) || i < |t|
    decreases |p| - j
  {
    hide SomePlace;
    PlaceStep(LastTakesOne, t, i, p, j);
    if j + 1 == |p| {
      PlaceEnd(LastTakesOne, t, |t|, p);
      assert Takes(LastTakesOne, t, p, j, i, |t|) <==> !EndsInTwoStars(p) || i < |t|;
    } else {
      assert EndsInTwoStars(p);
      var j' := j + 1;
      forall k: nat | i <= k <= |t|
        ensures SomePlace(LastTakesOne, t, k, p, j') <==> k < |t|
      {
        PlaceStars(t, k, p, j');
      }
      assert Takes(LastTakesOne, t, p, j, i, i);
    }
  }

  // ---------- patterns without stars ----------

  /** Equal at every place where the pattern has no question mark. */
  ghost predicate EqualUpToMarks(t: string, p: string) {
    |t| == |p| && forall i :: 0 <= i < |p| ==> p[i] == '?' || p[i] == t[i]
  }

  ghost predicate EqualFrom(t: string, i: int, p: string, j: nat) {
    0 <= i && |t| - i == |p| - j && forall n :: j <= n < |p| ==> p[n] == '?' || p[n] == t[n - j + i]
  }

  lemma {:induction false} StarFreeFrom(m: Stars, t: string, i: nat, p: string, j: nat)
    requires '*' !in p && j <= |p|
    ensures SomePlace(m, t, i, p, j) <==> EqualFrom(t, i, p, j)
    decreases |p| - j
  {
    hide SomePlace;
    if j == |p| {
      PlaceEnd(m, t, i, p);
    } else {
      PlaceChar(m, t, i, p, j);
      StarFreeFrom(m, t, i + 1, p, j + 1);
    }
  }

  /** Without stars, the pattern takes exactly the texts that are equal to it up to its marks. */
  lemma StarFreePlaced(m: Stars, t: string, p: string)
    requires '*' !in p
    ensures Placed(m, t, p) <==> EqualUpToMarks(t, p)
  {
    hide SomePlace;
    StarFreeFrom(m, t, 0, p, 0);
  }
}
