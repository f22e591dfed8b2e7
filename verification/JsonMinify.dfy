/** cJSON_Minify: what it makes of a text, the in-place loop, and its effect on printed trees. */
module JsonMinify {
  import opened CStrings
  import opened Options
  import opened JsonTree
  import opened JsonRound
  import opened JsonPieces

  predicate Layout(c: char) { c == ' ' || c == '\t' || c == '\r' || c == '\n' }

  /** A character copied on its own, wherever it stands outside a string literal. */
  predicate Plain(c: char) { c != '\0' && !Layout(c) && c != '/' && c != '"' }

  /** The end of a line comment: the line feed or the end of the text. */
  function LineEnd(s: string, i: nat): (j: nat)
    requires i <= |s|
    ensures i <= j <= |s|
    decreases |s| - i
  {
    if i == |s| || s[i] == '\n' then i else LineEnd(s, i + 1)
  }

  /** The position after the next comment end, if there is one. */
  function CommentEnd(s: string, i: nat): (r: Option<nat>)
    requires i <= |s|
    ensures r.Some? ==> i + 2 <= r.value <= |s|
    decreases |s| - i
  {
    if i == |s| then None
    else if s[i] == '*' && At(s, i + 1) == '/' then Some(i + 2)
    else CommentEnd(s, i + 1)
  }

  /** The position after the quote that closes a literal, if there is one. */
  function LiteralEnd(s: string, i: nat): (r: Option<nat>)
    requires i <= |s|
    ensures r.Some? ==> i < r.value <= |s|
    decreases |s| - i
  {
    if i == |s| then None
    else if s[i] == '"' then Some(i + 1)
    else if s[i] != '\\' then LiteralEnd(s, i + 1)
    else if i + 1 == |s| then None
    else LiteralEnd(s, i + 2)
  }

  function Then(t: string, r: Option<string>): Option<string> {
    if r.None? then None else Some(t + r.value)
  }

  /** The minified text from i on; none if a literal or a comment has no end, in which case the
      C code runs past the terminator. */
  function Minified(s: CString, i: nat): (r: Option<string>)
    requires i <= |s|
    ensures r.Some? ==> |r.value| <= |s| - i
    decreases |s| - i
  {
    if i == |s| then Some("")
    else if Layout(s[i]) then Minified(s, i + 1)
    else if s[i] == '/' && At(s, i + 1) == '/' then Minified(s, LineEnd(s, i))
    else if s[i] == '/' && At(s, i + 1) == '*' then
      match CommentEnd(s, i) case None => None case Some(j) => Minified(s, j)
    else if s[i] == '"' then
      match LiteralEnd(s, i + 1) case None => None case Some(j) => Then(s[i..j], Minified(s, j))
    else Then([s[i]], Minified(s, i + 1))
  }

  // ---------- texts as lists of pieces ----------

  /** Minifying from i writes t and goes on from j. */
  ghost predicate Runs(s: CString, i: nat, j: nat, t: string) {
    i <= j <= |s| && Minified(s, i) == Then(t, Minified(s, j))
  }

  lemma RunsAppend(s: CString, i: nat, j: nat, k: nat, a: string, b: string)
    requires Runs(s, i, j, a) && Runs(s, j, k, b)
    ensures Runs(s, i, k, a + b)
  {
    hide Minified;
    if Minified(s, k).Some? {
      assert a + (b + Minified(s, k).value) == a + b + Minified(s, k).value;
    }
  }

  lemma RunsNothing(s: CString, i: nat)
    requires i <= |s|
    ensures Runs(s, i, i, "")
  {
    hide Minified;
    if Minified(s, i).Some? {
      assert "" + Minified(s, i).value == Minified(s, i).value;
    }
  }

  lemma RunsSkipped(s: CString, i: nat, j: nat)
    requires i <= j <= |s| && Minified(s, i) == Minified(s, j)
    ensures Runs(s, i, j, "")
  {
    hide Minified;
    if Minified(s, j).Some? {
      assert "" + Minified(s, j).value == Minified(s, j).value;
    }
  }

  lemma {:induction false} LineEndIs(s: CString, i: nat, j: nat)
    requires i <= j <= |s| && (j == |s| || s[j] == '\n')
    requires forall k :: i <= k < j ==> s[k] != '\n'
    ensures LineEnd(s, i) == j
    decreases j - i
  {
    if i == j {
    } else {
      LineEndIs(s, i + 1, j);
    }
  }

  lemma {:induction false} CommentEndIs(s: CString, i: nat, j: nat)
    requires i + 2 <= j <= |s| && s[j - 2] == '*' && s[j - 1] == '/'
    requires forall k :: i <= k < j - 2 && s[k] == '*' ==> s[k + 1] != '/'
    ensures CommentEnd(s, i) == Some(j)
    decreases j - i
  {
    if i + 2 == j {
    } else {
      CommentEndIs(s, i + 1, j);
    }
  }

  lemma {:induction false} LiteralEndIs(s: CString, i: nat, us: seq<string>)
    requires HasAt(s, i, Joined(us) + "\"") && forall u :: u in us ==> IsUnit(u)
    ensures LiteralEnd(s, i) == Some(i + |Joined(us)| + 1)
    decreases |us|
  {
    if us == [] {
      CharOf(s, i, "\"", 0);
    } else {
      assert us[0] in us;
      var t := Joined(us[1..]) + "\"";
      assert Joined(us) + "\"" == us[0] + t;
      Peel(s, i, us[0], t);
      LiteralEndIs(s, i + |us[0]|, us[1..]);
      CharOf(s, i, us[0], 0);
    }
  }

  lemma LineCommentRuns(s: CString, i: nat, b: string, ended: bool)
    requires '\n' !in b && HasAt(s, i, PieceText(LineComment(b, ended)))
    requires !ended ==> i + 2 + |b| == |s|
    ensures Runs(s, i, i + |PieceText(LineComment(b, ended))|, "")
  {
    var t := PieceText(LineComment(b, ended));
    var j := i + 2 + |b|;
    CharOf(s, i, t, 0);
    CharOf(s, i, t, 1);
    forall k | i <= k < j
      ensures s[k] != '\n'
    {
      CharOf(s, i, t, k - i);
    }
    if ended {
      CharOf(s, i, t, 2 + |b|);
    }
    LineEndIs(s, i, j);
    RunsSkipped(s, i, i + |t|);
  }

  lemma BlockCommentRuns(s: CString, i: nat, b: string)
    requires NoEnd("*" + b) && HasAt(s, i, PieceText(BlockComment(b)))
    ensures Runs(s, i, i + |PieceText(BlockComment(b))|, "")
  {
    var t := PieceText(BlockComment(b));
    var j := i + |t|;
    CharOf(s, i, t, 0);
    CharOf(s, i, t, 1);
    CharOf(s, i, t, |t| - 2);
    CharOf(s, i, t, |t| - 1);
    forall k | i <= k < j - 2 && s[k] == '*'
      ensures s[k + 1] != '/'
    {
      var d := k - i;
      CharOf(s, i, t, d);
      CharOf(s, i, t, d + 1);
      if 0 < d <= |b| {
        assert ("*" + b)[d - 1] == t[d] && ("*" + b)[d] == t[d + 1];
      }
    }
    CommentEndIs(s, i, j);
    RunsSkipped(s, i, j);
  }

  lemma LiteralRuns(s: CString, i: nat, us: seq<string>)
    requires (forall u :: u in us ==> IsUnit(u)) && HasAt(s, i, PieceText(Literal(us)))
    ensures Runs(s, i, i + |PieceText(Literal(us))|, PieceText(Literal(us)))
  {
    var t := PieceText(Literal(us));
    assert t == "\"" + (Joined(us) + "\"");
    Peel(s, i, "\"", Joined(us) + "\"");
    CharOf(s, i, t, 0);
    LiteralEndIs(s, i + 1, us);
  }

  /** One piece: it is kept, or it is left out. */
  lemma PieceRuns(s: CString, i: nat, p: Piece)
    requires IsPiece(p) && HasAt(s, i, PieceText(p))
    requires p.Slash? ==> At(s, i + 1) != '/' && At(s, i + 1) != '*'
    requires p.LineComment? && !p.ended ==> i + |PieceText(p)| == |s|
    ensures Runs(s, i, i + |PieceText(p)|, PieceKept(p))
  {
    match p
    case Literal(us) => LiteralRuns(s, i, us);
    case LineComment(b, ended) => LineCommentRuns(s, i, b, ended);
    case BlockComment(b) => BlockCommentRuns(s, i, b);
    case ShortComment =>
      CharOf(s, i, "/*/", 0);
      CharOf(s, i, "/*/", 1);
      CharOf(s, i, "/*/", 2);
      CommentEndIs(s, i, i + 3);
      RunsSkipped(s, i, i + 3);
    case Blank(c) =>
      CharOf(s, i, [c], 0);
      RunsSkipped(s, i, i + 1);
    case Single(c) => CharOf(s, i, [c], 0);
    case Slash => CharOf(s, i, "/", 0);
  }

  /** A text of pieces is minified to what is kept of them. */
  lemma {:induction false} PiecesRun(s: CString, i: nat, ps: seq<Piece>)
    requires IsPieces(ps) && HasAt(s, i, TextOf(ps)) && i + |TextOf(ps)| == |s|
    ensures Runs(s, i, |s|, KeptOf(ps))
    decreases |ps|
  {
    hide Runs, HasAt, Minified, PieceText, PieceKept, IsPiece;
    if ps == [] {
      RunsNothing(s, i);
    } else {
      var p, rest := ps[0], ps[1..];
      Peel(s, i, PieceText(p), TextOf(rest));
      if p.Slash? && TextOf(rest) != "" {
        CharOf(s, i + |PieceText(p)|, TextOf(rest), 0);
      }
      SlashLength(p);
      PieceRuns(s, i, p);
      PiecesRun(s, i + |PieceText(p)|, rest);
      RunsAppend(s, i, i + |PieceText(p)|, |s|, PieceKept(p), KeptOf(rest));
    }
  }

  lemma SlashLength(p: Piece)
    ensures p.Slash? ==> |PieceText(p)| == 1
  {
  }

  lemma WholeText(s: CString, ps: seq<Piece>)
    requires IsPieces(ps) && TextOf(ps) == s
    ensures Minified(s, 0) == Some(KeptOf(ps))
  {
    assert s[0..|s|] == s;
    PiecesRun(s, 0, ps);
    assert KeptOf(ps) + "" == KeptOf(ps);
  }

  lemma {:induction false} BeforeLineEnd(s: CString, i: nat)
    requires i <= |s|
    ensures forall k :: i <= k < LineEnd(s, i) ==> s[k] != '\n'
    ensures LineEnd(s, i) < |s| ==> s[LineEnd(s, i)] == '\n'
    decreases |s| - i
  {
    if i == |s| || s[i] == '\n' {
    } else {
      BeforeLineEnd(s, i + 1);
    }
  }

  lemma {:induction false} BeforeCommentEnd(s: CString, i: nat)
    requires i <= |s| && CommentEnd(s, i).Some?
    ensures var j := CommentEnd(s, i).value;
            s[j - 2] == '*' && s[j - 1] == '/' && forall k :: i <= k < j - 2 && s[k] == '*' ==> s[k + 1] != '/'
    decreases |s| - i
  {
    if s[i] == '*' && At(s, i + 1) == '/' {
    } else {
      BeforeCommentEnd(s, i + 1);
    }
  }

  lemma UnitsOf(s: CString, i: nat) returns (us: seq<string>)
    requires i <= |s| && LiteralEnd(s, i).Some?
    ensures forall u :: u in us ==> IsUnit(u)
    ensures s[i..LiteralEnd(s, i).value] == Joined(us) + "\""
    decreases |s| - i
  {
    var j := LiteralEnd(s, i).value;
    if s[i] == '"' {
      us := [];
      assert s[i..j] == "\"";
    } else {
      var n := if s[i] == '\\' then 2 else 1;
      var vs := UnitsOf(s, i + n);
      us := [s[i..i + n]] + vs;
      assert us[1..] == vs;
      assert s[i..j] == s[i..i + n] + s[i + n..j];
    }
  }

  /** The piece that begins at i, and where the next one begins. */
  lemma FirstPiece(s: CString, i: nat) returns (p: Piece, j: nat)
    requires i < |s| && Minified(s, i).Some?
    ensures IsPiece(p) && i < j <= |s| && s[i..j] == PieceText(p) && Minified(s, j).Some?
    ensures p.Slash? ==> j == i + 1 && At(s, j) != '/' && At(s, j) != '*'
    ensures p.LineComment? && !p.ended ==> j == |s|
  {
    j := i + 1;
    if Layout(s[i]) {
      p := Blank(s[i]);
    } else if s[i] == '/' && At(s, i + 1) == '/' {
      p, j := FirstLineComment(s, i);
    } else if s[i] == '/' && At(s, i + 1) == '*' {
      p, j := FirstBlockComment(s, i);
    } else if s[i] == '"' {
      var us := UnitsOf(s, i + 1);
      j := LiteralEnd(s, i + 1).value;
      p := Literal(us);
      assert s[i..j] == "\"" + s[i + 1..j];
      assert PieceText(p) == "\"" + (Joined(us) + "\"");
    } else if s[i] == '/' {
      p := Slash;
    } else {
      p := Single(s[i]);
    }
  }

  lemma FirstLineComment(s: CString, i: nat) returns (p: Piece, j: nat)
    requires i < |s| && s[i] == '/' && At(s, i + 1) == '/' && Minified(s, i).Some?
    ensures p.LineComment? && IsPiece(p) && i < j <= |s| && s[i..j] == PieceText(p) && Minified(s, j).Some?
    ensures !p.ended ==> j == |s|
  {
    var e := LineEnd(s, i);
    BeforeLineEnd(s, i);
    assert LineEnd(s, i) == LineEnd(s, i + 1) == LineEnd(s, i + 2);
    j := if e < |s| then e + 1 else e;
    p := LineComment(s[i + 2..e], e < |s|);
    assert s[i..e] == "//" + s[i + 2..e];
  }

  lemma FirstBlockComment(s: CString, i: nat) returns (p: Piece, j: nat)
    requires i < |s| && s[i] == '/' && At(s, i + 1) == '*' && Minified(s, i).Some?
    ensures (p.BlockComment? || p.ShortComment?) && IsPiece(p)
    ensures i < j <= |s| && s[i..j] == PieceText(p) && Minified(s, j).Some?
  {
    j := CommentEnd(s, i).value;
    BeforeCommentEnd(s, i);
    if j == i + 3 {
      p := ShortComment;
    } else {
      assert j != i + 2;
      var b := s[i + 2..j - 2];
      p := BlockComment(b);
      assert s[i..j] == "/*" + b + "*/";
      forall k | 0 <= k < |"*" + b| - 1 && ("*" + b)[k] == '*'
        ensures ("*" + b)[k + 1] != '/'
      {
        assert ("*" + b)[k] == s[i + 1 + k] && ("*" + b)[k + 1] == s[i + 2 + k];
      }
    }
  }

  lemma NoPiecesText()
    ensures IsPieces([]) && TextOf([]) == ""
  {
  }

  lemma FirstOfPieces(p: Piece, rest: seq<Piece>)
    requires IsPiece(p) && IsPieces(rest)
    requires p.Slash? ==> TextOf(rest) == "" || (TextOf(rest)[0] != '/' && TextOf(rest)[0] != '*')
    requires p.LineComment? && !p.ended ==> TextOf(rest) == ""
    ensures IsPieces([p] + rest) && TextOf([p] + rest) == PieceText(p) + TextOf(rest)
  {
    hide PieceText, IsPiece;
    assert ([p] + rest)[1..] == rest;
  }

  lemma PiecesOf(s: CString, i: nat) returns (ps: seq<Piece>)
    requires i <= |s| && Minified(s, i).Some?
    ensures IsPieces(ps) && TextOf(ps) == s[i..]
    decreases |s| - i
  {
    hide PieceText, IsPiece, Minified, TextOf, IsPieces;
    if i == |s| {
      ps := [];
      NoPiecesText();
    } else {
      var p, j := FirstPiece(s, i);
      var rest := PiecesOf(s, j);
      ps := [p] + rest;
      FirstOfPieces(p, rest);
      assert s[i..] == s[i..j] + s[j..];
    }
  }

  /** The C code stays inside exactly the texts that consist of pieces. */
  lemma ClosedExactly(s: CString)
    ensures Minified(s, 0).Some? <==> Closed(s)
  {
    hide Minified;
    if Minified(s, 0).Some? {
      var ps := PiecesOf(s, 0);
      assert s[0..] == s;
    }
    if Closed(s) {
      var ps :| IsPieces(ps) && TextOf(ps) == s;
      WholeText(s, ps);
    }
  }

  ghost predicate Closed(s: CString) {
    exists ps :: IsPieces(ps) && TextOf(ps) == s
  }

  lemma KeptAlone(s: CString, out: string)
    requires Minified(s, 0) == Some(out)
    ensures forall ps :: IsPieces(ps) && TextOf(ps) == s ==> out == KeptOf(ps)
  {
    hide Minified, IsPieces, TextOf, KeptOf;
    forall ps | IsPieces(ps) && TextOf(ps) == s
      ensures out == KeptOf(ps)
    {
      WholeText(s, ps);
    }
  }

  // ---------- the loop ----------

  /** The buffer holds the text s at and after cur, the minified text so far in front of into. */
  ghost predicate Midway(a: seq<char>, s: CString, into: nat, cur: nat, out: string)
  {
    && into <= cur <= |s| < |a|
    && a[cur..|s|] == s[cur..] && a[|s|] == '\0'
    && a[..into] == out
  }

  /** Copying one character and moving both cursors. */
  method CopyOne(json: array<char>, into: nat, cur: nat, ghost s: CString, ghost out: string)
    requires Midway(json[..], s, into, cur, out) && cur < |s|
    modifies json
    ensures Midway(json[..], s, into + 1, cur + 1, out + [s[cur]])
    ensures json[|s|..] == old(json[|s|..])
  {
    assert json[cur] == json[..][cur..|s|][0] == s[cur];
    json[into] := json[cur];
    assert json[..][cur + 1..|s|] == old(json[..])[cur..|s|][1..];
    assert json[..][..into + 1] == old(json[..])[..into] + [s[cur]];
  }

  lemma Current(a: seq<char>, s: CString, into: nat, cur: nat, out: string)
    requires Midway(a, s, into, cur, out)
    ensures a[cur] == At(s, cur) && (cur < |s| ==> a[cur + 1] == At(s, cur + 1))
  {
    if cur < |s| {
      assert a[cur] == a[cur..|s|][0];
      if cur + 1 < |s| {
        assert a[cur + 1] == a[cur..|s|][1];
      }
    }
  }

  lemma Forward(a: seq<char>, s: CString, into: nat, cur: nat, next: nat, out: string)
    requires Midway(a, s, into, cur, out) && cur <= next <= |s|
    ensures Midway(a, s, into, next, out)
  {
    assert a[next..|s|] == a[cur..|s|][next - cur..];
  }

  lemma Bounds(a: seq<char>, s: CString, into: nat, cur: nat, out: string)
    requires Midway(a, s, into, cur, out)
    ensures into <= cur <= |s| < |a|
  {
  }

  lemma LongerStretch(s: string, out: string, from: nat, cur: nat)
    requires from <= cur < |s|
    ensures out + s[from..cur] + [s[cur]] == out + s[from..cur + 1]
  {
    assert s[from..cur + 1] == s[from..cur] + [s[cur]];
  }

  /** The same, as part of a stretch that began at from. */
  method CopyNext(json: array<char>, into: nat, cur: nat, ghost s: CString, ghost out: string, ghost from: nat)
    requires from <= cur < |s| && Midway(json[..], s, into, cur, out + s[from..cur])
    modifies json
    ensures Midway(json[..], s, into + 1, cur + 1, out + s[from..cur + 1])
    ensures json[|s|..] == old(json[|s|..])
    ensures cur + 1 <= |s| < json.Length && json[cur + 1] == At(s, cur + 1)
  {
    hide Midway;
    CopyOne(json, into, cur, s, out + s[from..cur]);
    LongerStretch(s, out, from, cur);
    Current(json[..], s, into + 1, cur + 1, out + s[from..cur + 1]);
    Bounds(json[..], s, into + 1, cur + 1, out + s[from..cur + 1]);
  }

  /** The copying of a literal, from its opening quote. */
  method CopyLiteral(json: array<char>, into: nat, cur: nat, ghost s: CString, ghost out: string)
    returns (into': nat, cur': nat)
    requires Midway(json[..], s, into, cur, out) && cur < |s| && LiteralEnd(s, cur + 1).Some?
    modifies json
    ensures LiteralEnd(s, cur + 1) == Some(cur') && cur <= cur' <= |s|
    ensures Midway(json[..], s, into', cur', out + s[cur..cur'])
    ensures |s| < json.Length && json[|s|..] == old(json[|s|..])
  {
    hide Midway;
    assert out + s[cur..cur] == out;
    CopyNext(json, into, cur, s, out, cur);
    into', cur' := into + 1, cur + 1;
    while json[cur'] != '\0' && json[cur'] != '"'
      invariant cur < cur' <= |s| < json.Length && LiteralEnd(s, cur') == LiteralEnd(s, cur + 1)
      invariant Midway(json[..], s, into', cur', out + s[cur..cur'])
      invariant json[cur'] == At(s, cur') && json[|s|..] == old(json[|s|..])
      decreases |s| - cur'
    {
      if json[cur'] == '\\' {
        CopyNext(json, into', cur', s, out, cur);
        into', cur' := into' + 1, cur' + 1;
      }
      CopyNext(json, into', cur', s, out, cur);
      into', cur' := into' + 1, cur' + 1;
    }
    CopyNext(json, into', cur', s, out, cur);
    into', cur' := into' + 1, cur' + 1;
  }

  /** What has been written and what is still to come make the minified text. */
  ghost predicate Left(s: CString, cur: nat, out: string)
    requires cur <= |s|
  {
    Minified(s, cur).Some? && Minified(s, 0) == Some(out + Minified(s, cur).value)
  }

  lemma LeftCopied(s: CString, cur: nat, next: nat, out: string)
    requires cur <= next <= |s| && Left(s, cur, out)
    requires Minified(s, cur) == Then(s[cur..next], Minified(s, next))
    ensures Left(s, next, out + s[cur..next])
  {
    hide Minified;
    assert out + (s[cur..next] + Minified(s, next).value) == out + s[cur..next] + Minified(s, next).value;
  }

  lemma LeftAtStart(s: CString)
    requires Minified(s, 0).Some?
    ensures Left(s, 0, "")
  {
    assert "" + Minified(s, 0).value == Minified(s, 0).value;
  }

  lemma LeftAtEnd(s: CString, out: string)
    requires Left(s, |s|, out)
    ensures Minified(s, 0) == Some(out)
  {
    assert out + "" == out;
  }

  /** Copying one character that is not part of a literal. */
  method CopyPlain(json: array<char>, into: nat, cur: nat, ghost s: CString, ghost out: string)
    requires Midway(json[..], s, into, cur, out) && cur < |s| && Left(s, cur, out)
    requires !Layout(s[cur]) && s[cur] != '"'
    requires s[cur] != '/' || (At(s, cur + 1) != '/' && At(s, cur + 1) != '*')
    modifies json
    ensures Midway(json[..], s, into + 1, cur + 1, out + s[cur..cur + 1]) && Left(s, cur + 1, out + s[cur..cur + 1])
    ensures |s| < json.Length && json[|s|..] == old(json[|s|..])
  {
    assert s[cur..cur + 1] == [s[cur]];
    LeftCopied(s, cur, cur + 1, out);
    hide Midway, Left;
    CopyOne(json, into, cur, s, out);
    Bounds(json[..], s, into + 1, cur + 1, out + s[cur..cur + 1]);
  }

  /** cJSON_Minify: in place, the write cursor never ahead of the read cursor. */
  method Minify(json: array<char>, ghost s: CString) returns (ghost len: nat)
    requires |s| < json.Length && json[..|s|] == s && json[|s|] == '\0'
    requires Closed(s)
    modifies json
    ensures len <= |s| && Some(json[..len]) == Minified(s, 0) && json[len] == '\0'
    ensures forall ps :: IsPieces(ps) && TextOf(ps) == s ==> json[..len] == KeptOf(ps)
    ensures json[|s| + 1..] == old(json[|s| + 1..])
  {
    hide Closed, IsPieces, TextOf, KeptOf;
    ClosedExactly(s);
    var into: nat, cur: nat := 0, 0;
    ghost var out := "";
    assert json[..][0..|s|] == s[0..];
    LeftAtStart(s);
    while json[cur] != '\0'
      invariant cur <= |s| < json.Length && Midway(json[..], s, into, cur, out) && Left(s, cur, out)
      invariant json[|s|..] == old(json[|s|..])
      decreases |s| - cur
    {
      hide Midway;
      Current(json[..], s, into, cur, out);
      Bounds(json[..], s, into, cur, out);
      if json[cur] == ' ' || json[cur] == '\t' || json[cur] == '\r' || json[cur] == '\n' {
        Forward(json[..], s, into, cur, cur + 1, out);
        cur := cur + 1;
      } else if json[cur] == '/' && json[cur + 1] == '/' {
        cur := SkipLine(json, into, cur, s, out);
      } else if json[cur] == '/' && json[cur + 1] == '*' {
        cur := SkipComment(json, into, cur, s, out);
      } else if json[cur] == '"' {
        ghost var from := cur;
        into, cur := CopyLiteral(json, into, cur, s, out);
        LeftCopied(s, from, cur, out);
        out := out + s[from..cur];
      } else {
        CopyPlain(json, into, cur, s, out);
        out := out + s[cur..cur + 1];
        into, cur := into + 1, cur + 1;
      }
    }
    Current(json[..], s, into, cur, out);
    LeftAtEnd(s, out);
    ghost var tail := json[|s|..];
    json[into] := '\0';
    len := into;
    assert json[|s| + 1..] == tail[1..];
    KeptAlone(s, json[..len]);
  }

  method SkipLine(json: array<char>, into: nat, cur: nat, ghost s: CString, ghost out: string) returns (cur': nat)
    requires Midway(json[..], s, into, cur, out)
    ensures cur' == LineEnd(s, cur) && Midway(json[..], s, into, cur', out)
  {
    hide Midway;
    cur' := cur;
    Current(json[..], s, into, cur', out);
    Bounds(json[..], s, into, cur', out);
    while json[cur'] != '\0' && json[cur'] != '\n'
      invariant cur <= cur' <= |s| && LineEnd(s, cur') == LineEnd(s, cur)
      invariant cur' < json.Length && json[cur'] == At(s, cur')
      invariant Midway(json[..], s, into, cur', out)
      decreases |s| - cur'
    {
      Forward(json[..], s, into, cur', cur' + 1, out);
      cur' := cur' + 1;
      Current(json[..], s, into, cur', out);
      Bounds(json[..], s, into, cur', out);
    }
  }

  method SkipComment(json: array<char>, into: nat, cur: nat, ghost s: CString, ghost out: string) returns (cur': nat)
    requires Midway(json[..], s, into, cur, out) && cur <= |s| && CommentEnd(s, cur).Some?
    ensures CommentEnd(s, cur) == Some(cur') && Midway(json[..], s, into, cur', out)
  {
    hide Midway;
    cur' := cur;
    Current(json[..], s, into, cur', out);
    Bounds(json[..], s, into, cur', out);
    while json[cur'] != '\0' && !(json[cur'] == '*' && json[cur' + 1] == '/')
      invariant cur <= cur' <= |s| && CommentEnd(s, cur') == CommentEnd(s, cur)
      invariant |s| < json.Length && json[cur'] == At(s, cur') && (cur' < |s| ==> json[cur' + 1] == At(s, cur' + 1))
      invariant Midway(json[..], s, into, cur', out)
      decreases |s| - cur'
    {
      Forward(json[..], s, into, cur', cur' + 1, out);
      cur' := cur' + 1;
      Current(json[..], s, into, cur', out);
      Bounds(json[..], s, into, cur', out);
    }
    Forward(json[..], s, into, cur', cur' + 2, out);
    cur' := cur' + 2;
  }

  // ---------- printed trees ----------

  lemma {:induction false} LayoutRuns(s: CString, i: nat, w: string)
    requires HasAt(s, i, w) && forall k :: 0 <= k < |w| ==> Layout(w[k])
    ensures Runs(s, i, i + |w|, "")
    decreases |w|
  {
    if w == "" {
      RunsNothing(s, i);
    } else {
      assert w == [w[0]] + w[1..];
      PeelChar(s, i, [w[0]], w[1..]);
      LayoutRuns(s, i + 1, w[1..]);
    }
  }

  lemma PlainRuns(s: CString, i: nat, c: char)
    requires i < |s| && s[i] == c && Plain(c)
    ensures Runs(s, i, i + 1, [c])
  {
  }

  lemma {:induction false} WordRuns(s: CString, i: nat, t: string)
    requires HasAt(s, i, t) && forall k :: 0 <= k < |t| ==> Plain(t[k])
    ensures Runs(s, i, i + |t|, t)
    decreases |t|
  {
    hide HasAt, Runs;
    if t == "" {
      NothingAt(s, i);
      RunsNothing(s, i);
    } else {
      var c, u := t[0], t[1..];
      assert t == [c] + u;
      PeelChar(s, i, [c], u);
      PlainRuns(s, i, c);
      WordRuns(s, i + 1, u);
      RunsAppend(s, i, i + 1, i + |t|, [c], u);
    }
  }

  lemma NothingAt(s: string, i: nat)
    requires HasAt(s, i, "")
    ensures i <= |s|
  {
  }

  lemma EscapedRuns(s: CString, i: nat, c: char)
    requires HasAt(s, i, Escaped(c))
    ensures i + |Escaped(c)| <= |s| && LiteralEnd(s, i) == LiteralEnd(s, i + |Escaped(c)|)
  {
    var e := Escaped(c);
    CharOf(s, i, e, 0);
    if |e| >= 2 {
      CharOf(s, i, e, 1);
    }
    if |e| == 6 {
      CharOf(s, i, e, 2);
      CharOf(s, i, e, 3);
      CharOf(s, i, e, 4);
      CharOf(s, i, e, 5);
      PlainHex(c);
      assert LiteralEnd(s, i) == LiteralEnd(s, i + 2);
      assert LiteralEnd(s, i + 2) == LiteralEnd(s, i + 3);
      assert LiteralEnd(s, i + 3) == LiteralEnd(s, i + 4);
      assert LiteralEnd(s, i + 4) == LiteralEnd(s, i + 5);
      assert LiteralEnd(s, i + 5) == LiteralEnd(s, i + 6);
    }
  }

  lemma PlainHex(c: char)
    requires |Escaped(c)| == 6
    ensures forall k :: 2 <= k < 6 ==> Escaped(c)[k] != '"' && Escaped(c)[k] != '\\'
  {
  }

  lemma EmptyLiteral(s: CString, i: nat)
    requires HasAt(s, i, Body(""))
    ensures i < |s| && LiteralEnd(s, i) == Some(i + |Body("")|)
  {
    CharOf(s, i, "\"", 0);
  }

  lemma {:induction false} BodyRuns(s: CString, i: nat, t: string)
    requires HasAt(s, i, Body(t))
    ensures i < |s| && LiteralEnd(s, i) == Some(i + |Body(t)|)
    decreases |t|
  {
    hide Escaped, HasAt, LiteralEnd;
    if t == "" {
      EmptyLiteral(s, i);
    } else {
      var e, rest := Escaped(t[0]), Body(t[1..]);
      assert Body(t) == e + rest;
      hide Body;
      Peel(s, i, e, rest);
      BodyRuns(s, i + |e|, t[1..]);
      EscapedRuns(s, i, t[0]);
    }
  }

  /** A printed string is copied byte for byte, escapes and all. */
  lemma QuotedRuns(s: CString, i: nat, t: string)
    requires HasAt(s, i, Quoted(t))
    ensures Runs(s, i, i + |Quoted(t)|, Quoted(t))
  {
    PeelChar(s, i, "\"", Body(t));
    BodyRuns(s, i + 1, t);
    assert s[i..i + |Quoted(t)|] == Quoted(t);
  }

  lemma {:induction false} DigitsPlain(n: nat)
    ensures forall k :: 0 <= k < |Digits(n)| ==> Plain(Digits(n)[k])
  {
    if n < 10 {
    } else {
      DigitsPlain(n / 10);
    }
  }

  lemma {:induction false} TabsLayout(n: int)
    ensures forall k :: 0 <= k < |Tabs(n)| ==> Layout(Tabs(n)[k])
  {
    if n <= 0 {
    } else {
      TabsLayout(n - 1);
    }
  }

  /** A formatted value is minified to the unformatted one, wherever it stands. */
  lemma {:induction false} ValueRuns(s: CString, i: nat, v: Json, depth: nat)
    requires HasAt(s, i, Text(v, depth, true))
    ensures Runs(s, i, i + |Text(v, depth, true)|, Text(v, depth, false))
    decreases v
  {
    hide HasAt, Runs, Quoted;
    match v
    case Null => WordRuns(s, i, "null");
    case False => WordRuns(s, i, "false");
    case True => WordRuns(s, i, "true");
    case Number(n, _) =>
      DigitsPlain(if n < 0 then -n else n);
      WordRuns(s, i, Decimal(n));
    case String(t) => QuotedRuns(s, i, t);
    case Array(items) =>
      if items == [] {
        WordRuns(s, i, "[]");
      } else {
        ArrayRuns(s, i, items, depth);
      }
    case Object(members) =>
      if members == [] {
        EmptyObjectRuns(s, i, depth);
      } else {
        ObjectRuns(s, i, members, depth);
      }
  }

  /** A character outside literals, kept, and layout after it, dropped. */
  lemma SignRuns(s: CString, i: nat, c: string, w: string, rest: string)
    requires |c| == 1 && Plain(c[0]) && (forall k :: 0 <= k < |w| ==> Layout(w[k]))
    requires HasAt(s, i, c + (w + rest))
    ensures Runs(s, i, i + 1 + |w|, c) && HasAt(s, i + 1 + |w|, rest)
  {
    hide HasAt, Runs;
    PeelChar(s, i, c, w + rest);
    Peel(s, i + 1, w, rest);
    PlainRuns(s, i, c[0]);
    LayoutRuns(s, i + 1, w);
    assert c == [c[0]] && c + "" == c;
    RunsAppend(s, i, i + 1, i + 1 + |w|, c, "");
  }

  lemma {:induction false} ArrayRuns(s: CString, i: nat, items: seq<Json>, depth: nat)
    requires items != [] && HasAt(s, i, Text(Array(items), depth, true))
    ensures Runs(s, i, i + |Text(Array(items), depth, true)|, Text(Array(items), depth, false))
    decreases items, 1
  {
    hide HasAt, Runs, ItemsText;
    var t := ItemsText(items, depth + 1, true);
    assert "" + t == t;
    SignRuns(s, i, "[", "", t);
    ItemsRuns(s, i + 1, items, depth + 1);
    RunsAppend(s, i, i + 1, i + 1 + |t|, "[", ItemsText(items, depth + 1, false));
  }

  lemma {:induction false} ItemsRuns(s: CString, i: nat, items: seq<Json>, depth: nat)
    requires items != [] && HasAt(s, i, ItemsText(items, depth, true))
    ensures Runs(s, i, i + |ItemsText(items, depth, true)|, ItemsText(items, depth, false))
    decreases items, 0
  {
    hide HasAt, Runs, Text;
    var t, u := Text(items[0], depth, true), Text(items[0], depth, false);
    var e := i + |t|;
    if |items| == 1 {
      Peel(s, i, t, "]");
      ValueRuns(s, i, items[0], depth);
      WordRuns(s, e, "]");
      RunsAppend(s, i, e, e + 1, u, "]");
    } else {
      var rest, rest' := ItemsText(items[1..], depth, true), ItemsText(items[1..], depth, false);
      Peel(s, i, t, "," + (" " + rest));
      ValueRuns(s, i, items[0], depth);
      SignRuns(s, e, ",", " ", rest);
      ItemsRuns(s, e + 2, items[1..], depth);
      RunsAppend(s, e, e + 2, e + 2 + |rest|, ",", rest');
      RunsAppend(s, i, e, e + 2 + |rest|, u, "," + rest');
      assert "," + ("" + rest') == "," + rest';
    }
  }

  lemma EmptyObjectRuns(s: CString, i: nat, depth: nat)
    requires HasAt(s, i, Text(Object([]), depth, true))
    ensures Runs(s, i, i + |Text(Object([]), depth, true)|, Text(Object([]), depth, false))
  {
    var w := "\n" + Tabs(depth - 1);
    TabsLayout(depth - 1);
    hide HasAt, Runs, Tabs;
    SignRuns(s, i, "{", w, "}");
    WordRuns(s, i + 1 + |w|, "}");
    RunsAppend(s, i, i + 1 + |w|, i + 2 + |w|, "{", "}");
    assert "{" + ("" + "}") == "{" + "}";
  }

  /** Indentation is dropped. */
  lemma IndentRuns(s: CString, i: nat, depth: nat, rest: string)
    requires HasAt(s, i, Tabs(depth) + rest)
    ensures Runs(s, i, i + |Tabs(depth)|, "") && HasAt(s, i + |Tabs(depth)|, rest)
  {
    TabsLayout(depth);
    hide HasAt, Runs, Tabs;
    Peel(s, i, Tabs(depth), rest);
    LayoutRuns(s, i, Tabs(depth));
  }

  /** The name, the colon and the value of a member. */
  lemma {:induction false} MemberRuns(s: CString, i: nat, m: Member, depth: nat, z: string)
    requires HasAt(s, i, Quoted(m.name) + (":" + ("\t" + (Text(m.value, depth, true) + z))))
    ensures var e := i + |Quoted(m.name)| + 2 + |Text(m.value, depth, true)|;
            Runs(s, i, e, Quoted(m.name) + (":" + Text(m.value, depth, false))) && HasAt(s, e, z)
    decreases m, 0
  {
    hide HasAt, Runs, Quoted, Text;
    var q, t, u := Quoted(m.name), Text(m.value, depth, true), Text(m.value, depth, false);
    var c := i + |q|;
    Peel(s, i, q, ":" + ("\t" + (t + z)));
    QuotedRuns(s, i, m.name);
    SignRuns(s, c, ":", "\t", t + z);
    Peel(s, c + 2, t, z);
    ValueRuns(s, c + 2, m.value, depth);
    RunsAppend(s, c, c + 2, c + 2 + |t|, ":", u);
    RunsAppend(s, i, c, c + 2 + |t|, q, ":" + u);
  }

  /** The unformatted text of the members, without the empty pieces. */
  lemma PlainMembers(members: seq<Member>, depth: nat)
    requires members != []
    ensures MembersText(members, depth, false) ==
            (Quoted(members[0].name) + (":" + Text(members[0].value, depth, false))) +
            if |members| == 1 then "}" else "," + MembersText(members[1..], depth, false)
  {
    hide Text, Quoted;
    var q, u := Quoted(members[0].name), Text(members[0].value, depth, false);
    var z := if |members| == 1 then "" + "}" else "," + ("" + MembersText(members[1..], depth, false));
    assert MembersText(members, depth, false) == "" + (q + (":" + ("" + (u + z))));
  }

  lemma FormattedMembers(members: seq<Member>, depth: nat)
    requires members != []
    ensures MembersText(members, depth, true) ==
            Tabs(depth) + (Quoted(members[0].name) + (":" + ("\t" + (Text(members[0].value, depth, true) +
              if |members| == 1 then "\n" + Tabs(depth - 1) + "}"
              else "," + ("\n" + MembersText(members[1..], depth, true))))))
  {
    hide Text, Quoted, Tabs;
  }

  /** The same with the indentation in front. */
  lemma {:induction false} LineRuns(s: CString, i: nat, m: Member, depth: nat, z: string)
    requires HasAt(s, i, Tabs(depth) + (Quoted(m.name) + (":" + ("\t" + (Text(m.value, depth, true) + z)))))
    ensures var e := i + |Tabs(depth)| + |Quoted(m.name)| + 2 + |Text(m.value, depth, true)|;
            Runs(s, i, e, Quoted(m.name) + (":" + Text(m.value, depth, false))) && HasAt(s, e, z)
    decreases m, 1
  {
    hide HasAt, Runs, Text, Quoted, Tabs;
    var u := Quoted(m.name) + (":" + Text(m.value, depth, false));
    var j := i + |Tabs(depth)|;
    IndentRuns(s, i, depth, Quoted(m.name) + (":" + ("\t" + (Text(m.value, depth, true) + z))));
    MemberRuns(s, j, m, depth, z);
    RunsAppend(s, i, j, j + |Quoted(m.name)| + 2 + |Text(m.value, depth, true)|, "", u);
    assert "" + u == u;
  }

  lemma {:induction false} MembersRuns(s: CString, i: nat, members: seq<Member>, depth: nat)
    requires members != [] && HasAt(s, i, MembersText(members, depth, true))
    ensures Runs(s, i, i + |MembersText(members, depth, true)|, MembersText(members, depth, false))
    decreases members, 1
  {
    hide HasAt, Runs, MembersText;
    if |members| == 1 {
      LastMemberRuns(s, i, members, depth);
    } else {
      MoreMembersRun(s, i, members, depth);
    }
  }

  lemma {:induction false} LastMemberRuns(s: CString, i: nat, members: seq<Member>, depth: nat)
    requires |members| == 1 && HasAt(s, i, MembersText(members, depth, true))
    ensures Runs(s, i, i + |MembersText(members, depth, true)|, MembersText(members, depth, false))
    decreases members, 0
  {
    hide HasAt, Runs, Text, Quoted, Tabs, MembersText;
    FormattedMembers(members, depth);
    PlainMembers(members, depth);
    var m, z := members[0], "\n" + Tabs(depth - 1) + "}";
    var e := i + |Tabs(depth)| + |Quoted(m.name)| + 2 + |Text(m.value, depth, true)|;
    LineRuns(s, i, m, depth, z);
    ClosingRuns(s, e, depth - 1);
    RunsAppend(s, i, e, e + |z|, Quoted(m.name) + (":" + Text(m.value, depth, false)), "}");
  }

  lemma {:induction false} MoreMembersRun(s: CString, i: nat, members: seq<Member>, depth: nat)
    requires |members| > 1 && HasAt(s, i, MembersText(members, depth, true))
    ensures Runs(s, i, i + |MembersText(members, depth, true)|, MembersText(members, depth, false))
    decreases members, 0
  {
    hide HasAt, Runs, Text, Quoted, Tabs, MembersText;
    FormattedMembers(members, depth);
    PlainMembers(members, depth);
    var m, rest, rest' := members[0], MembersText(members[1..], depth, true), MembersText(members[1..], depth, false);
    var e := i + |Tabs(depth)| + |Quoted(m.name)| + 2 + |Text(m.value, depth, true)|;
    LineRuns(s, i, m, depth, "," + ("\n" + rest));
    SignRuns(s, e, ",", "\n", rest);
    MembersRuns(s, e + 2, members[1..], depth);
    RunsAppend(s, e, e + 2, e + 2 + |rest|, ",", rest');
    RunsAppend(s, i, e, e + 2 + |rest|, Quoted(m.name) + (":" + Text(m.value, depth, false)), "," + rest');
  }

  lemma ClosingRuns(s: CString, i: nat, depth: int)
    requires HasAt(s, i, "\n" + Tabs(depth) + "}")
    ensures Runs(s, i, i + |"\n" + Tabs(depth) + "}"|, "}")
  {
    TabsLayout(depth);
    hide HasAt, Runs, Tabs;
    var w := "\n" + Tabs(depth);
    Peel(s, i, w, "}");
    LayoutRuns(s, i, w);
    WordRuns(s, i + |w|, "}");
    RunsAppend(s, i, i + |w|, i + |w| + 1, "", "}");
    assert "" + "}" == "}";
  }

  lemma {:induction false} ObjectRuns(s: CString, i: nat, members: seq<Member>, depth: nat)
    requires members != [] && HasAt(s, i, Text(Object(members), depth, true))
    ensures Runs(s, i, i + |Text(Object(members), depth, true)|, Text(Object(members), depth, false))
    decreases members, 2
  {
    hide HasAt, Runs, MembersText;
    var t, t' := MembersText(members, depth + 1, true), MembersText(members, depth + 1, false);
    SignRuns(s, i, "{", "\n", t);
    MembersRuns(s, i + 2, members, depth + 1);
    RunsAppend(s, i, i + 2, i + 2 + |t|, "{", t');
    assert "{" + ("" + t') == "{" + t';
  }

  // ---------- the main result ----------

  /** Without formatting the depth does not matter. */
  lemma {:induction false} DepthIrrelevant(v: Json, d: nat, e: nat)
    ensures Text(v, d, false) == Text(v, e, false)
    decreases v
  {
    match v
    case Array(items) =>
      if items != [] {
        ItemsDepthIrrelevant(items, d + 1, e + 1);
      }
    case Object(members) =>
      if members != [] {
        MembersDepthIrrelevant(members, d + 1, e + 1);
      }
    case _ =>
  }

  lemma {:induction false} ItemsDepthIrrelevant(items: seq<Json>, d: nat, e: nat)
    requires items != []
    ensures ItemsText(items, d, false) == ItemsText(items, e, false)
    decreases items
  {
    DepthIrrelevant(items[0], d, e);
    if |items| <= 1 {
    } else {
      ItemsDepthIrrelevant(items[1..], d, e);
    }
  }

  lemma {:induction false} MembersDepthIrrelevant(members: seq<Member>, d: nat, e: nat)
    requires members != []
    ensures MembersText(members, d, false) == MembersText(members, e, false)
    decreases members
  {
    PlainMembers(members, d);
    PlainMembers(members, e);
    DepthIrrelevant(members[0].value, d, e);
    if |members| <= 1 {
    } else {
      MembersDepthIrrelevant(members[1..], d, e);
    }
  }

  /** Minifying the formatted text of a tree gives its unformatted text. */
  lemma MinifyPrinted(v: Json, depth: nat)
    ensures NulFree(Text(v, depth, true)) && Minified(Text(v, depth, true), 0) == Some(Text(v, 0, false))
  {
    hide Text, Minified;
    TextNulFree(v, depth, true);
    var s: CString := Text(v, depth, true);
    assert s[0..0 + |s|] == s;
    ValueRuns(s, 0, v, depth);
    MinifiedEnd(s);
    DepthIrrelevant(v, depth, 0);
    assert Text(v, 0, false) + "" == Text(v, 0, false);
  }

  lemma MinifiedEnd(s: CString)
    ensures Minified(s, |s|) == Some("")
  {
  }
}
