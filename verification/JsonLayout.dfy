/** The formatted text of a tree is its unformatted text with layout put in, by rules for single
    characters that know no more of the tree than which brackets are open. */
module JsonLayout {
  import opened CStrings
  import opened Options
  import opened JsonTree
  import opened JsonMinify
  import opened JsonNumber
  import opened JsonSyntax
  import opened JsonGrammar
  import opened JsonRound

  /** A character with no layout around it. */
  predicate Ordinary(c: char) {
    c != '"' && c != '{' && c != '}' && c != '[' && c != ']' && c != ',' && c != ':'
  }

  /** The brackets still open without the innermost. */
  function Outer(open: string): string {
    if open == "" then "" else open[..|open| - 1]
  }

  predicate InObject(open: string) { open != "" && open[|open| - 1] == '{' }

  /** One tab for each level; none for a level below zero. */
  function Indent(n: int): string {
    seq(if n > 0 then n else 0, _ => '\t')
  }

  lemma {:induction false} TabsIndent(n: int)
    ensures Tabs(n) == Indent(n)
    decreases n
  {
    if n <= 0 {
    } else {
      TabsIndent(n - 1);
    }
  }

  /** The text from i on with layout, where the brackets in open are open. Members stand on lines of
      their own with one tab for every open bracket, a colon is followed by a tab, a comma between
      items by a space; the brace that closes an object without members has one tab less than the
      brackets around it. String literals stay as they are. */
  function Laid(s: CString, i: nat, open: string): string
    requires i <= |s|
    decreases |s| - i
  {
    if i == |s| then ""
    else if s[i] == '"' then
      match LiteralEnd(s, i + 1) case None => s[i..] case Some(j) => s[i..j] + Laid(s, j, open)
    else if s[i] == '{' && At(s, i + 1) == '}' then "{\n" + Indent(|open| - 1) + "}" + Laid(s, i + 2, open)
    else if s[i] == '{' then "{\n" + Indent(|open| + 1) + Laid(s, i + 1, open + "{")
    else if s[i] == '[' then "[" + Laid(s, i + 1, open + "[")
    else if s[i] == '}' then "\n" + Indent(|open| - 1) + "}" + Laid(s, i + 1, Outer(open))
    else if s[i] == ']' then "]" + Laid(s, i + 1, Outer(open))
    else if s[i] == ',' && InObject(open) then ",\n" + Indent(|open|) + Laid(s, i + 1, open)
    else if s[i] == ',' then ", " + Laid(s, i + 1, open)
    else if s[i] == ':' then ":\t" + Laid(s, i + 1, open)
    else [s[i]] + Laid(s, i + 1, open)
  }

  /** Laying out from i writes t and goes on from j with other brackets open. */
  ghost predicate Lays(s: CString, i: nat, open: string, t: string, j: nat, inner: string) {
    i <= j <= |s| && Laid(s, i, open) == t + Laid(s, j, inner)
  }

  lemma LaysAppend(s: CString, i: nat, a: string, t: string, j: nat, b: string, u: string, k: nat, c: string)
    requires Lays(s, i, a, t, j, b) && Lays(s, j, b, u, k, c)
    ensures Lays(s, i, a, t + u, k, c)
  {
    hide Laid;
    assert t + (u + Laid(s, k, c)) == (t + u) + Laid(s, k, c);
  }

  lemma LaysNothing(s: CString, i: nat, open: string)
    requires i <= |s|
    ensures Lays(s, i, open, "", i, open)
  {
    hide Laid;
    assert "" + Laid(s, i, open) == Laid(s, i, open);
  }

  /** One character: what is written for it, and the brackets open behind it. */
  lemma RuleLays(s: CString, i: nat, open: string)
    requires i < |s|
    ensures s[i] == '[' ==> Lays(s, i, open, "[", i + 1, open + "[")
    ensures s[i] == ']' ==> Lays(s, i, open, "]", i + 1, Outer(open))
    ensures s[i] == '{' && At(s, i + 1) != '}' ==> Lays(s, i, open, "{\n" + Indent(|open| + 1), i + 1, open + "{")
    ensures s[i] == '{' && At(s, i + 1) == '}' ==> Lays(s, i, open, "{\n" + Indent(|open| - 1) + "}", i + 2, open)
    ensures s[i] == '}' ==> Lays(s, i, open, "\n" + Indent(|open| - 1) + "}", i + 1, Outer(open))
    ensures s[i] == ',' ==>
            Lays(s, i, open, if InObject(open) then ",\n" + Indent(|open|) else ", ", i + 1, open)
    ensures s[i] == ':' ==> Lays(s, i, open, ":\t", i + 1, open)
    ensures Ordinary(s[i]) ==> Lays(s, i, open, [s[i]], i + 1, open)
  {
    hide Indent;
  }

  lemma SignLays(s: CString, i: nat, open: string)
    requires i < |s|
    ensures s[i] == '[' ==> Lays(s, i, open, "[", i + 1, open + "[")
    ensures s[i] == ']' ==> Lays(s, i, open, "]", i + 1, Outer(open))
    ensures s[i] == '{' && At(s, i + 1) != '}' ==> Lays(s, i, open, "{\n" + Tabs(|open| + 1), i + 1, open + "{")
    ensures s[i] == '{' && At(s, i + 1) == '}' ==> Lays(s, i, open, "{\n" + Tabs(|open| - 1) + "}", i + 2, open)
    ensures s[i] == '}' ==> Lays(s, i, open, "\n" + Tabs(|open| - 1) + "}", i + 1, Outer(open))
    ensures s[i] == ',' ==>
            Lays(s, i, open, if InObject(open) then ",\n" + Tabs(|open|) else ", ", i + 1, open)
    ensures s[i] == ':' ==> Lays(s, i, open, ":\t", i + 1, open)
    ensures Ordinary(s[i]) ==> Lays(s, i, open, [s[i]], i + 1, open)
  {
    RuleLays(s, i, open);
    TabsIndent(|open| - 1);
    TabsIndent(|open|);
    TabsIndent(|open| + 1);
    hide Tabs, Indent, Lays;
  }

  lemma {:induction false} WordLays(s: CString, i: nat, t: string, open: string)
    requires HasAt(s, i, t) && forall k :: 0 <= k < |t| ==> Ordinary(t[k])
    ensures Lays(s, i, open, t, i + |t|, open)
    decreases |t|
  {
    hide HasAt, Lays;
    if t == "" {
      NothingAt(s, i);
      LaysNothing(s, i, open);
    } else {
      var u := t[1..];
      assert t == [t[0]] + u;
      PeelChar(s, i, [t[0]], u);
      SignLays(s, i, open);
      WordLays(s, i + 1, u, open);
      LaysAppend(s, i, open, [t[0]], i + 1, open, u, i + |t|, open);
    }
  }

  lemma LiteralLays(s: CString, i: nat, j: nat, open: string)
    requires i < |s| && s[i] == '"' && LiteralEnd(s, i + 1) == Some(j)
    ensures Lays(s, i, open, s[i..j], j, open)
  {
    hide LiteralEnd, Indent;
  }

  lemma QuotedLays(s: CString, i: nat, t: string, open: string)
    requires HasAt(s, i, Quoted(t))
    ensures Lays(s, i, open, Quoted(t), i + |Quoted(t)|, open)
  {
    hide Lays, LiteralEnd, Body;
    PeelChar(s, i, "\"", Body(t));
    BodyRuns(s, i + 1, t);
    LiteralLays(s, i, i + |Quoted(t)|, open);
  }

  lemma {:induction false} DigitsOrdinary(n: nat)
    ensures forall k :: 0 <= k < |Digits(n)| ==> Ordinary(Digits(n)[k])
  {
    if n < 10 {
    } else {
      DigitsOrdinary(n / 10);
    }
  }

  /** The unformatted text of a value, wherever it stands, is laid out as its formatted text at the
      depth of the open brackets. */
  lemma {:induction false} ValueLays(s: CString, i: nat, v: Json, open: string)
    requires HasAt(s, i, Text(v, |open|, false))
    ensures Lays(s, i, open, Text(v, |open|, true), i + |Text(v, |open|, false)|, open)
    decreases v
  {
    hide HasAt, Lays, Quoted, ItemsText, MembersText, Tabs;
    match v
    case Null => WordLays(s, i, "null", open);
    case False => WordLays(s, i, "false", open);
    case True => WordLays(s, i, "true", open);
    case Number(n, _) =>
      DigitsOrdinary(if n < 0 then -n else n);
      WordLays(s, i, Decimal(n), open);
    case String(t) => QuotedLays(s, i, t, open);
    case Array(items) =>
      if items == [] {
        EmptyArrayLays(s, i, open);
      } else {
        ArrayLays(s, i, items, open);
      }
    case Object(members) =>
      if members == [] {
        EmptyObjectLays(s, i, open);
      } else {
        ObjectLays(s, i, members, open);
      }
  }

  lemma EmptyArrayLays(s: CString, i: nat, open: string)
    requires HasAt(s, i, "[]")
    ensures Lays(s, i, open, "[]", i + 2, open)
  {
    CharOf(s, i, "[]", 0);
    CharOf(s, i, "[]", 1);
    hide HasAt, Lays;
    SignLays(s, i, open);
    SignLays(s, i + 1, open + "[");
    LaysAppend(s, i, open, "[", i + 1, open + "[", "]", i + 2, Outer(open + "["));
    assert Outer(open + "[") == open && "[" + "]" == "[]";
  }

  lemma NoMembers(depth: nat)
    ensures Text(Object([]), depth, false) == "{}"
    ensures Text(Object([]), depth, true) == "{\n" + Tabs(depth - 1) + "}"
  {
    hide Tabs;
    var w := "\n" + Tabs(depth - 1);
    assert "{" + (w + "}") == "{\n" + Tabs(depth - 1) + "}" && "{" + ("" + "}") == "{}";
  }

  lemma EmptyObjectLays(s: CString, i: nat, open: string)
    requires HasAt(s, i, Text(Object([]), |open|, false))
    ensures Lays(s, i, open, Text(Object([]), |open|, true), i + |Text(Object([]), |open|, false)|, open)
  {
    hide HasAt, Lays, Tabs;
    NoMembers(|open|);
    CharOf(s, i, "{}", 0);
    CharOf(s, i, "{}", 1);
    hide Text;
    SignLays(s, i, open);
  }

  lemma {:induction false} ArrayLays(s: CString, i: nat, items: seq<Json>, open: string)
    requires items != [] && HasAt(s, i, Text(Array(items), |open|, false))
    ensures Lays(s, i, open, Text(Array(items), |open|, true), i + |Text(Array(items), |open|, false)|, open)
    decreases items, 1
  {
    hide HasAt, Lays, ItemsText;
    var t := ItemsText(items, |open| + 1, false);
    PeelChar(s, i, "[", t);
    SignLays(s, i, open);
    ItemsLay(s, i + 1, items, open + "[");
    LaysAppend(s, i, open, "[", i + 1, open + "[", ItemsText(items, |open| + 1, true), i + 1 + |t|, Outer(open + "["));
    assert Outer(open + "[") == open;
  }

  /** The items with the separators that the two layouts write. */
  lemma ItemsUnfold(items: seq<Json>, depth: nat)
    requires items != []
    ensures ItemsText(items, depth, false) ==
            Text(items[0], depth, false) + if |items| == 1 then "]" else "," + ItemsText(items[1..], depth, false)
    ensures ItemsText(items, depth, true) ==
            Text(items[0], depth, true) + if |items| == 1 then "]" else ", " + ItemsText(items[1..], depth, true)
  {
    hide Text;
    if |items| > 1 {
      var rest, rest' := ItemsText(items[1..], depth, true), ItemsText(items[1..], depth, false);
      assert "" + rest' == rest' && "," + (" " + rest) == ", " + rest;
    }
  }

  lemma {:induction false} ItemsLay(s: CString, i: nat, items: seq<Json>, open: string)
    requires items != [] && !InObject(open) && HasAt(s, i, ItemsText(items, |open|, false))
    ensures Lays(s, i, open, ItemsText(items, |open|, true), i + |ItemsText(items, |open|, false)|, Outer(open))
    decreases items, 0
  {
    hide HasAt, Lays, Text, Outer, ItemsText, InObject;
    ItemsUnfold(items, |open|);
    var t, u := Text(items[0], |open|, true), Text(items[0], |open|, false);
    var e := i + |u|;
    if |items| == 1 {
      Peel(s, i, u, "]");
      CharOf(s, e, "]", 0);
      ValueLays(s, i, items[0], open);
      SignLays(s, e, open);
      LaysAppend(s, i, open, t, e, open, "]", e + 1, Outer(open));
    } else {
      var rest, rest' := ItemsText(items[1..], |open|, true), ItemsText(items[1..], |open|, false);
      Peel(s, i, u, "," + rest');
      PeelChar(s, e, ",", rest');
      ValueLays(s, i, items[0], open);
      SignLays(s, e, open);
      ItemsLay(s, e + 1, items[1..], open);
      LaysAppend(s, e, open, ", ", e + 1, open, rest, e + 1 + |rest'|, Outer(open));
      LaysAppend(s, i, open, t, e, open, ", " + rest, e + 1 + |rest'|, Outer(open));
    }
  }

  /** The name, the colon and the value of a member. */
  lemma {:induction false} MemberLays(s: CString, i: nat, m: Member, open: string, z: string)
    requires HasAt(s, i, (Quoted(m.name) + (":" + Text(m.value, |open|, false))) + z)
    ensures var e := i + |Quoted(m.name)| + 1 + |Text(m.value, |open|, false)|;
            Lays(s, i, open, Quoted(m.name) + (":\t" + Text(m.value, |open|, true)), e, open) && HasAt(s, e, z)
    decreases m, 0
  {
    hide HasAt, Lays, Quoted, Text;
    var q, t, u := Quoted(m.name), Text(m.value, |open|, true), Text(m.value, |open|, false);
    var c := i + |q|;
    Peel(s, i, q + (":" + u), z);
    Peel(s, i, q, ":" + u);
    PeelChar(s, c, ":", u);
    QuotedLays(s, i, m.name, open);
    SignLays(s, c, open);
    ValueLays(s, c + 1, m.value, open);
    LaysAppend(s, c, open, ":\t", c + 1, open, t, c + 1 + |u|, open);
    LaysAppend(s, i, open, q, c, open, ":\t" + t, c + 1 + |u|, open);
  }

  /** The formatted members without their first indentation. */
  function Unindented(members: seq<Member>, depth: nat): string
    requires members != []
  {
    (Quoted(members[0].name) + (":\t" + Text(members[0].value, depth, true))) +
    if |members| == 1 then "\n" + Tabs(depth - 1) + "}" else (",\n" + Tabs(depth)) + Unindented(members[1..], depth)
  }

  lemma {:induction false} Indented(members: seq<Member>, depth: nat)
    requires members != []
    ensures MembersText(members, depth, true) == Tabs(depth) + Unindented(members, depth)
    decreases members
  {
    hide Text, Quoted, Tabs, MembersText;
    FormattedMembers(members, depth);
    var q, t := Quoted(members[0].name), Text(members[0].value, depth, true);
    if |members| == 1 {
      JoinMember(q, t, "\n" + Tabs(depth - 1) + "}");
    } else {
      Indented(members[1..], depth);
      JoinMember(q, t, "," + ("\n" + (Tabs(depth) + Unindented(members[1..], depth))));
      JoinLine(Tabs(depth), Unindented(members[1..], depth));
    }
  }

  lemma JoinMember(q: string, t: string, z: string)
    ensures q + (":" + ("\t" + (t + z))) == (q + (":\t" + t)) + z
  {
  }

  lemma JoinLine(w: string, z: string)
    ensures "," + ("\n" + (w + z)) == (",\n" + w) + z
  {
  }

  lemma {:induction false} MembersLay(s: CString, i: nat, members: seq<Member>, open: string)
    requires members != [] && InObject(open) && HasAt(s, i, MembersText(members, |open|, false))
    ensures Lays(s, i, open, Unindented(members, |open|), i + |MembersText(members, |open|, false)|, Outer(open))
    decreases members, 0
  {
    hide HasAt, Lays, Text, Quoted, Tabs, MembersText, Outer;
    PlainMembers(members, |open|);
    var m, d := members[0], |open|;
    var e := i + |Quoted(m.name)| + 1 + |Text(m.value, d, false)|;
    var q := Quoted(m.name) + (":\t" + Text(m.value, d, true));
    if |members| == 1 {
      MemberLays(s, i, m, open, "}");
      CharOf(s, e, "}", 0);
      SignLays(s, e, open);
      LaysAppend(s, i, open, q, e, open, "\n" + Tabs(d - 1) + "}", e + 1, Outer(open));
    } else {
      var rest, rest' := Unindented(members[1..], d), MembersText(members[1..], d, false);
      MemberLays(s, i, m, open, "," + rest');
      PeelChar(s, e, ",", rest');
      SignLays(s, e, open);
      MembersLay(s, e + 1, members[1..], open);
      LaysAppend(s, e, open, ",\n" + Tabs(d), e + 1, open, rest, e + 1 + |rest'|, Outer(open));
      LaysAppend(s, i, open, q, e, open, (",\n" + Tabs(d)) + rest, e + 1 + |rest'|, Outer(open));
    }
  }

  lemma {:induction false} ObjectLays(s: CString, i: nat, members: seq<Member>, open: string)
    requires members != [] && HasAt(s, i, Text(Object(members), |open|, false))
    ensures Lays(s, i, open, Text(Object(members), |open|, true), i + |Text(Object(members), |open|, false)|, open)
    decreases members, 1
  {
    hide HasAt, Lays, MembersText, Unindented, Tabs, Quoted;
    var d := |open| + 1;
    var t := MembersText(members, d, false);
    assert "" + t == t;
    PeelChar(s, i, "{", t);
    NamesFirst(s, i + 1, members, d);
    SignLays(s, i, open);
    MembersLay(s, i + 1, members, open + "{");
    Indented(members, d);
    LaysAppend(s, i, open, "{\n" + Tabs(d), i + 1, open + "{", Unindented(members, d), i + 1 + |t|, Outer(open + "{"));
    assert Outer(open + "{") == open;
    assert "{" + ("\n" + (Tabs(d) + Unindented(members, d))) == "{\n" + Tabs(d) + Unindented(members, d);
  }

  lemma NamesFirst(s: CString, i: nat, members: seq<Member>, depth: nat)
    requires members != [] && HasAt(s, i, MembersText(members, depth, false))
    ensures At(s, i) == '"'
  {
    PlainMembers(members, depth);
    CharOf(s, i, MembersText(members, depth, false), 0);
  }

  lemma LaysWhole(s: CString, t: string)
    requires Lays(s, 0, "", t, |s|, "")
    ensures Laid(s, 0, "") == t
  {
    assert t + "" == t;
  }

  lemma IsCString(t: string)
    requires NulFree(t)
    ensures '\0' !in t
  {
  }

  lemma HasItself(s: string)
    ensures HasAt(s, 0, s)
  {
  }

  /** The formatted text of any tree is its unformatted text laid out. */
  lemma LaidOut(v: Json)
    ensures NulFree(Text(v, 0, false)) && Laid(Text(v, 0, false), 0, "") == Text(v, 0, true)
  {
    hide Text, Laid, Lays, HasAt, NulFree;
    TextNulFree(v, 0, false);
    IsCString(Text(v, 0, false));
    var s: CString := Text(v, 0, false);
    HasItself(s);
    ValueLays(s, 0, v, "");
    LaysWhole(s, Text(v, 0, true));
  }

  // ---------- characters and numbers ----------

  /** How a character of a string is printed: as itself, behind a backslash as the letter that means
      it, or, when it is a control character that no letter means, by its four-digit code. */
  lemma EscapedForm(c: char)
    ensures |Escaped(c)| == 1 <==> c as int > 31 && c != '"' && c != '\\'
    ensures |Escaped(c)| == 1 ==> Escaped(c) == [c]
    ensures |Escaped(c)| == 2 ==>
            Escaped(c)[0] == '\\' && Escaped(c)[1] in "\"\\bfnrt" && LetterMeaning(Escaped(c)[1]) == c
    ensures |Escaped(c)| == 6 <==> c as int < 32 && forall l :: l in "bfnrt" ==> LetterMeaning(l) != c
    ensures |Escaped(c)| == 6 ==>
            && Escaped(c)[..2] == "\\u" && FourHex(Escaped(c)[2..]) && HexNumber(Escaped(c)[2..]) == c as int
            && forall d :: d in Escaped(c)[2..] ==> IsDigit(d) || 'a' <= d <= 'f'
    ensures |Escaped(c)| in {1, 2, 6}
  {
    if c as int < 32 && c != BACKSPACE && c != FORM_FEED && c != '\n' && c != '\r' && c != '\t' {
      ControlForm(c);
    }
    LettersMean(c);
    hide HexNumber, HexValue, HexChar, LetterMeaning;
  }

  lemma LettersMean(c: char)
    ensures (exists l :: l in "bfnrt" && LetterMeaning(l) == c) <==>
            c == BACKSPACE || c == FORM_FEED || c == '\n' || c == '\r' || c == '\t'
    ensures LetterMeaning('b') == BACKSPACE && LetterMeaning('f') == FORM_FEED && LetterMeaning('n') == '\n'
    ensures BACKSPACE as int == 8 && FORM_FEED as int == 12
    ensures LetterMeaning('r') == '\r' && LetterMeaning('t') == '\t'
    ensures LetterMeaning('"') == '"' && LetterMeaning('\\') == '\\'
  {
    assert 'b' in "bfnrt" && 'f' in "bfnrt" && 'n' in "bfnrt" && 'r' in "bfnrt" && 't' in "bfnrt";
  }

  lemma HexCharForm(n: nat)
    requires n < 16
    ensures HexValue(HexChar(n)) == n && (IsDigit(HexChar(n)) || 'a' <= HexChar(n) <= 'f')
  {
  }

  lemma ControlForm(c: char)
    requires c as int < 32 && c != BACKSPACE && c != FORM_FEED && c != '\n' && c != '\r' && c != '\t'
    ensures var e := Escaped(c);
            && |e| == 6 && e[..2] == "\\u" && FourHex(e[2..]) && HexNumber(e[2..]) == c as int
            && forall d :: d in e[2..] ==> IsDigit(d) || 'a' <= d <= 'f'
  {
    var a, b := HexChar(c as int / 16), HexChar(c as int % 16);
    HexCharForm(0);
    HexCharForm(c as int / 16);
    HexCharForm(c as int % 16);
    assert HexChar(0) == '0';
    var h := Escaped(c)[2..];
    assert h == ['0', '0', a, b];
    HexUnfold(h);
    hide HexNumber, HexValue, HexChar;
  }

  /** A number is printed with a minus sign where it is negative, and by the digits of its absolute
      value, which begin with a zero only for zero. */
  lemma DecimalForm(n: int)
    ensures n < 0 ==> Decimal(n)[..1] == "-"
    ensures var w := if n < 0 then Decimal(n)[1..] else Decimal(n);
            w != "" && AllDigits(w) && DigitsValue(w) == (if n < 0 then -n else n) && (w == "0" || w[0] != '0')
  {
    DigitsForm(if n < 0 then -n else n);
  }

  lemma {:induction false} DigitsForm(n: nat)
    ensures Digits(n) != "" && AllDigits(Digits(n)) && DigitsValue(Digits(n)) == n
    ensures if n == 0 then Digits(n) == "0" else Digits(n)[0] != '0'
    decreases n
  {
    if n < 10 {
      assert [DigitChar(n)][..0] == "";
    } else {
      DigitsForm(n / 10);
      assert Digits(n)[..|Digits(n)| - 1] == Digits(n / 10);
    }
  }
}
