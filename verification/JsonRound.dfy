/** Parsing what the printer wrote gives back the tree, and stops exactly after it. */
module JsonRound {
  import opened CStrings
  import opened JsonTree
  import opened JsonGrammar

  // ---------- white space ----------

  predicate Blank(w: string) {
    forall i :: 0 <= i < |w| ==> w[i] != '\0' && w[i] as int <= 32
  }

  lemma {:induction false} SkipBlank(s: string, i: nat, w: string)
    requires HasAt(s, i, w) && Blank(w) && At(s, i + |w|) as int > 32
    ensures Skipped(s, i) == i + |w|
    decreases |w|
  {
    if w == "" {
    } else {
      assert w == [w[0]] + w[1..];
      PeelChar(s, i, [w[0]], w[1..]);
      SkipBlank(s, i + 1, w[1..]);
    }
  }

  lemma {:induction false} TabsBlank(n: int)
    ensures Blank(Tabs(n)) && Blank("\n" + Tabs(n))
  {
    if n <= 0 {
    } else {
      TabsBlank(n - 1);
    }
  }

  /** White space in two parts, then something else. */
  lemma SpaceThen(s: string, i: nat, w: string, z: string, u: string)
    requires Blank(w) && Blank(z) && HasAt(s, i, w) && HasAt(s, i + |w|, z + u)
    requires u != "" && u[0] as int > 32
    ensures var j := i + |w| + |z|; Skipped(s, i) == j && HasAt(s, j, u) && At(s, j) == u[0]
  {
    hide HasAt, Skipped;
    Peel(s, i + |w|, z, u);
    CharOf(s, i + |w| + |z|, u, 0);
    Glue(s, i, w, z);
    SkipBlank(s, i, w + z);
  }

  /** A colon or a comma, white space, a text and what follows it. */
  lemma SignSpaceText(s: string, i: nat, sign: string, w: string, t: string, z: string)
    requires |sign| == 1 && Blank(w) && t != "" && t[0] as int > 32 && HasAt(s, i, sign + (w + (t + z)))
    ensures At(s, i) == sign[0] && Skipped(s, i + 1) == i + 1 + |w|
    ensures HasAt(s, i + 1 + |w|, t) && HasAt(s, i + 1 + |w| + |t|, z)
  {
    hide HasAt, Skipped;
    PeelChar(s, i, sign, w + (t + z));
    Peel(s, i + 1, w, t + z);
    Peel(s, i + 1 + |w|, t, z);
    CharOf(s, i + 1 + |w|, t, 0);
    SkipBlank(s, i + 1, w);
  }

  // ---------- numbers ----------

  /** What may follow a number without being taken for a part of it. */
  predicate Stops(c: char) {
    !IsDigit(c) && c != '.' && c != 'e' && c != 'E'
  }

  lemma {:induction false} DigitsStart(n: nat)
    ensures IsDigit(Digits(n)[0]) && (n > 0 ==> Digits(n)[0] != '0')
    ensures forall i :: 0 <= i < |Digits(n)| ==> IsDigit(Digits(n)[i])
  {
    if n < 10 {
    } else {
      DigitsStart(n / 10);
    }
  }

  /** One digit more. */
  lemma ReadDigit(s: string, i: nat, n: nat, d: nat)
    requires d < 10 && At(s, i) == DigitChar(d)
    ensures DigitsRead(s, i, n as real) == DigitsRead(s, i + 1, (10 * n + d) as real)
    ensures DigitsEnd(s, i) == DigitsEnd(s, i + 1)
  {
    assert DigitValue(At(s, i)) == d;
    assert n as real * 10.0 + d as real == (10 * n + d) as real;
  }

  lemma {:induction false} ReadDigits(s: string, i: nat, n: nat)
    requires HasAt(s, i, Digits(n))
    ensures DigitsRead(s, i, 0.0) == DigitsRead(s, i + |Digits(n)|, n as real)
    ensures DigitsEnd(s, i) == DigitsEnd(s, i + |Digits(n)|)
  {
    hide HasAt, DigitsRead, DigitsEnd, DigitChar;
    if n < 10 {
      CharOf(s, i, Digits(n), 0);
      ReadDigit(s, i, 0, n);
    } else {
      var front, last := Digits(n / 10), [DigitChar(n % 10)];
      Peel(s, i, front, last);
      CharOf(s, i + |front|, last, 0);
      ReadDigits(s, i, n / 10);
      ReadDigit(s, i + |front|, n / 10, n % 10);
    }
  }

  lemma ReadNatural(s: string, i: nat, n: nat)
    requires HasAt(s, i, Digits(n)) && Stops(At(s, i + |Digits(n)|))
    ensures IntegerPart(s, i) == (i + |Digits(n)|, n as real)
  {
    DigitsStart(n);
    CharOf(s, i, Digits(n), 0);
    ReadDigits(s, i, n);
  }

  lemma ScaledOnce(n: int)
    ensures n < 0 ==> Scaled(-1.0, (-n) as real, 0) == n as real
    ensures n >= 0 ==> Scaled(1.0, n as real, 0) == n as real
    ensures Truncated(n as real) == n
  {
    assert Pow10(0) == 1.0;
  }

  lemma NumberBack(s: string, i: nat, n: int)
    requires HasAt(s, i, Decimal(n)) && Stops(At(s, i + |Decimal(n)|))
    ensures NumberAt(s, i) == Ok(Number(n, n as real), i + |Decimal(n)|)
    ensures At(s, i) == '-' || IsDigit(At(s, i))
  {
    CharOf(s, i, Decimal(n), 0);
    hide HasAt, IntegerPart, Truncated, Scaled;
    if n < 0 {
      PeelChar(s, i, "-", Digits(-n));
      ReadNatural(s, i + 1, -n);
    } else {
      DigitsStart(n);
      ReadNatural(s, i, n);
    }
    ScaledOnce(n);
  }

  // ---------- strings ----------

  lemma HexBack(n: nat)
    requires n < 16
    ensures HexValue(HexChar(n)) == n
  {
  }

  lemma ControlBack(s: string, i: nat, c: char)
    requires 0 < c as int < 32 && HasAt(s, i, "u00" + [HexChar(c as int / 16), HexChar(c as int % 16)])
    ensures UnicodeEscape(s, i) == ([c], i + 5)
  {
    var t := "u00" + [HexChar(c as int / 16), HexChar(c as int % 16)];
    CharOf(s, i, t, 1);
    CharOf(s, i, t, 2);
    CharOf(s, i, t, 3);
    CharOf(s, i, t, 4);
    HexBack(c as int / 16);
    HexBack(c as int % 16);
    assert Hex4(s, i + 1) == c as int;
  }

  /** One escaped character, read back in front of the rest of a body. */
  lemma EscapedBack(s: string, i: nat, c: char, t: string, end: nat)
    requires c != '\0' && HasAt(s, i, Escaped(c))
    requires BodyAt(s, i + |Escaped(c)|) == Ok(t, end)
    ensures BodyAt(s, i) == Ok([c] + t, end)
  {
    var e := Escaped(c);
    CharOf(s, i, e, 0);
    if |e| >= 2 {
      CharOf(s, i, e, 1);
      assert e == ['\\'] + e[1..];
      Peel(s, i, ['\\'], e[1..]);
      if e[1] == 'u' {
        assert e[1..] == "u00" + [HexChar(c as int / 16), HexChar(c as int % 16)];
        ControlBack(s, i + 1, c);
      }
    }
  }

  lemma EmptyBodyBack(s: string, i: nat)
    requires HasAt(s, i, Body(""))
    ensures BodyAt(s, i) == Ok("", i + |Body("")|)
  {
    CharOf(s, i, "\"", 0);
  }

  lemma {:induction false} BodyBack(s: string, i: nat, t: CString)
    requires HasAt(s, i, Body(t))
    ensures BodyAt(s, i) == Ok(t, i + |Body(t)|)
    decreases |t|
  {
    hide Escaped, HasAt, BodyAt;
    if t == "" {
      EmptyBodyBack(s, i);
    } else {
      var c, u := t[0], t[1..];
      var e, rest := Escaped(c), Body(u);
      assert Body(t) == e + rest && t == [c] + u;
      hide Body;
      Peel(s, i, e, rest);
      BodyBack(s, i + |e|, u);
      EscapedBack(s, i, c, u, i + |e| + |rest|);
    }
  }

  lemma {:induction false} CutSame(t: CString)
    ensures Cut(t) == t
  {
    if t == "" {
    } else {
      CutSame(t[1..]);
    }
  }

  lemma QuotedBack(s: string, i: nat, t: CString)
    requires HasAt(s, i, Quoted(t))
    ensures StringAt(s, i) == Ok(t, i + |Quoted(t)|) && Cut(t) == t && At(s, i) == '"'
  {
    PeelChar(s, i, "\"", Body(t));
    BodyBack(s, i + 1, t);
    CutSame(t);
  }

  // ---------- values ----------

  /** Where reading a value begins. */
  lemma TextStart(v: Json, depth: nat, fmt: bool)
    ensures var t := Text(v, depth, fmt); t != "" && t[0] as int > 32 && t[0] != ']'
  {
    if v.Number? {
      DigitsStart(if v.valueint < 0 then -v.valueint else v.valueint);
    }
  }

  lemma FirstCharOf(s: string, i: nat, w: string)
    requires w != ""
    ensures HasAt(s, i, w) ==> At(s, i) == w[0]
  {
    if HasAt(s, i, w) {
      CharOf(s, i, w, 0);
    }
  }

  lemma NoWord(s: string, i: nat, w: string)
    requires w != "" && At(s, i) != w[0]
    ensures !HasAt(s, i, w)
  {
    FirstCharOf(s, i, w);
  }

  lemma NoWords(s: string, i: nat)
    requires At(s, i) !in "nft"
    ensures !HasAt(s, i, "null") && !HasAt(s, i, "false") && !HasAt(s, i, "true")
  {
    NoWord(s, i, "null");
    NoWord(s, i, "false");
    NoWord(s, i, "true");
  }

  /** Reading back a value printed at any depth in either layout, whatever follows it; after a
      number something must follow that cannot belong to it. */
  lemma {:induction false} ValueBack(s: string, i: nat, v: Json, depth: nat, fmt: bool)
    requires Printable(v) && HasAt(s, i, Text(v, depth, fmt))
    requires v.Number? ==> Stops(At(s, i + |Text(v, depth, fmt)|))
    ensures ValueAt(s, i) == Ok(v, i + |Text(v, depth, fmt)|)
    decreases v, 0
  {
    var t := Text(v, depth, fmt);
    TextStart(v, depth, fmt);
    CharOf(s, i, t, 0);
    hide HasAt;
    match v
    case Null =>
    case False => NoWord(s, i, "null");
    case True =>
      NoWord(s, i, "null");
      NoWord(s, i, "false");
    case Number(n, d) =>
      NumberBack(s, i, n);
      NoWords(s, i);
    case String(str) =>
      NoWords(s, i);
      QuotedBack(s, i, str);
    case Array(items) =>
      NoWords(s, i);
      ArrayBack(s, i, items, depth, fmt);
    case Object(members) =>
      NoWords(s, i);
      ObjectBack(s, i, members, depth, fmt);
  }

  lemma {:induction false} ArrayBack(s: string, i: nat, items: seq<Json>, depth: nat, fmt: bool)
    requires forall k :: 0 <= k < |items| ==> Printable(items[k])
    requires HasAt(s, i, Text(Array(items), depth, fmt)) && At(s, i) == '['
    ensures ArrayAt(s, i) == Ok(Array(items), i + |Text(Array(items), depth, fmt)|)
    decreases items, 1
  {
    hide HasAt, ItemsAt;
    if items == [] {
      CharOf(s, i, "[]", 1);
    } else {
      var t := ItemsText(items, depth + 1, fmt);
      PeelChar(s, i, "[", t);
      TextStart(items[0], depth + 1, fmt);
      CharOf(s, i + 1, t, 0);
      hide ItemsText;
      ItemsBack(s, i + 1, items, depth + 1, fmt);
    }
  }

  lemma ItemsAtLast(s: string, i: nat, v: Json, e: nat)
    requires ValueAt(s, i) == Ok(v, e) && At(s, e) == ']'
    ensures ItemsAt(s, i) == Ok([v], e + 1)
  {
    hide ValueAt;
  }

  lemma ItemsAtMore(s: string, i: nat, v: Json, e: nat, rest: seq<Json>, last: nat)
    requires ValueAt(s, i) == Ok(v, e) && At(s, e) == ','
    requires ItemsAt(s, Skipped(s, e + 1)) == Ok(rest, last)
    ensures ItemsAt(s, i) == Ok([v] + rest, last)
  {
    hide ValueAt;
  }

  lemma ItemsTextUnfold(items: seq<Json>, depth: nat, fmt: bool)
    requires items != []
    ensures ItemsText(items, depth, fmt) ==
            Text(items[0], depth, fmt) +
            if |items| == 1 then "]" else "," + (If(fmt, " ") + ItemsText(items[1..], depth, fmt))
  {
    hide Text;
  }

  lemma ListSigns()
    ensures Stops(',') && Stops(']')
  {
  }

  /** One item, read from its first character. */
  lemma {:induction false} ItemBack(s: string, i: nat, v: Json, depth: nat, fmt: bool, z: string)
    requires Printable(v) && z != "" && Stops(z[0]) && HasAt(s, i, Text(v, depth, fmt) + z)
    ensures var e := i + |Text(v, depth, fmt)|;
            ValueAt(s, i) == Ok(v, e) && At(s, e) == z[0] && HasAt(s, e, z)
    decreases v, 1
  {
    hide HasAt, Text, ValueAt, Printable, Stops;
    Peel(s, i, Text(v, depth, fmt), z);
    CharOf(s, i + |Text(v, depth, fmt)|, z, 0);
    ValueBack(s, i, v, depth, fmt);
  }

  lemma {:induction false} ItemsBack(s: string, i: nat, items: seq<Json>, depth: nat, fmt: bool)
    requires items != [] && forall k :: 0 <= k < |items| ==> Printable(items[k])
    requires HasAt(s, i, ItemsText(items, depth, fmt))
    ensures ItemsAt(s, i) == Ok(items, i + |ItemsText(items, depth, fmt)|)
    decreases items, 0
  {
    hide HasAt, Text, ValueAt, ItemsAt, Skipped, Printable, ItemsText, Stops;
    var v, t := items[0], Text(items[0], depth, fmt);
    var e := i + |t|;
    ItemsTextUnfold(items, depth, fmt);
    ListSigns();
    if |items| == 1 {
      ItemBack(s, i, v, depth, fmt, "]");
      ItemsAtLast(s, i, v, e);
      assert items == [v];
    } else {
      var rest, sep := ItemsText(items[1..], depth, fmt), If(fmt, " ");
      ItemBack(s, i, v, depth, fmt, "," + (sep + rest));
      PeelChar(s, e, ",", sep + rest);
      ItemsStart(s, e + 1, sep, items[1..], depth, fmt);
      ItemsBack(s, e + 1 + |sep|, items[1..], depth, fmt);
      ItemsAtMore(s, i, v, e, items[1..], e + 1 + |sep| + |rest|);
      assert items == [v] + items[1..];
    }
  }

  lemma ItemsStart(s: string, i: nat, sep: string, items: seq<Json>, depth: nat, fmt: bool)
    requires items != [] && Blank(sep) && HasAt(s, i, sep + ItemsText(items, depth, fmt))
    ensures Skipped(s, i) == i + |sep| && HasAt(s, i + |sep|, ItemsText(items, depth, fmt))
  {
    hide HasAt, Blank;
    TextStart(items[0], depth, fmt);
    Peel(s, i, sep, ItemsText(items, depth, fmt));
    CharOf(s, i + |sep|, ItemsText(items, depth, fmt), 0);
    hide ItemsText;
    SkipBlank(s, i, sep);
  }

  lemma ObjectAtEmpty(s: string, i: nat)
    requires At(s, i) == '{' && At(s, Skipped(s, i + 1)) == '}'
    ensures ObjectAt(s, i) == Ok(Object([]), Skipped(s, i + 1) + 1)
  {
    hide Skipped, MembersAt;
  }

  lemma ObjectAtMembers(s: string, i: nat, members: seq<Member>, end: nat)
    requires At(s, i) == '{' && At(s, Skipped(s, i + 1)) == '"'
    requires MembersAt(s, Skipped(s, i + 1)) == Ok(members, end)
    ensures ObjectAt(s, i) == Ok(Object(members), end)
  {
    SkippedTwice(s, i + 1);
    hide Skipped, MembersAt;
  }

  lemma EmptyObjectBack(s: string, i: nat, depth: nat, fmt: bool)
    requires HasAt(s, i, Text(Object([]), depth, fmt)) && At(s, i) == '{'
    ensures ObjectAt(s, i) == Ok(Object([]), i + |Text(Object([]), depth, fmt)|)
  {
    var w := If(fmt, "\n" + Tabs(depth - 1));
    TabsBlank(depth - 1);
    hide HasAt, MembersAt, MembersText, Skipped, Tabs, ObjectAt;
    PeelChar(s, i, "{", w + "}");
    Peel(s, i + 1, w, "}");
    CharOf(s, i + 1 + |w|, "}", 0);
    SkipBlank(s, i + 1, w);
    ObjectAtEmpty(s, i);
  }

  lemma {:induction false} ObjectBack(s: string, i: nat, members: seq<Member>, depth: nat, fmt: bool)
    requires forall k :: 0 <= k < |members| ==> Printable(members[k].value)
    requires HasAt(s, i, Text(Object(members), depth, fmt)) && At(s, i) == '{'
    ensures ObjectAt(s, i) == Ok(Object(members), i + |Text(Object(members), depth, fmt)|)
    decreases members, 1
  {
    hide HasAt, MembersAt, MembersText, Skipped, ObjectAt, Printable;
    if members == [] {
      EmptyObjectBack(s, i, depth, fmt);
    } else {
      var w, t := If(fmt, "\n"), MembersText(members, depth + 1, fmt);
      assert Text(Object(members), depth, fmt) == "{" + (w + t);
      hide Text;
      FirstMemberBack(s, i, w, members, depth + 1, fmt);
      MembersBack(s, i + 1 + |w|, members, depth + 1, fmt);
      ObjectAtMembers(s, i, members, i + 1 + |w| + |t|);
    }
  }

  lemma FirstMemberBack(s: string, i: nat, w: string, members: seq<Member>, depth: nat, fmt: bool)
    requires members != [] && Blank(w) && HasAt(s, i, "{" + (w + MembersText(members, depth, fmt)))
    ensures HasAt(s, i + 1 + |w|, MembersText(members, depth, fmt))
    ensures Skipped(s, i + 1) == Skipped(s, i + 1 + |w|) && At(s, Skipped(s, i + 1)) == '"'
  {
    hide HasAt, MembersText, Skipped, Unindented;
    PeelChar(s, i, "{", w + MembersText(members, depth, fmt));
    Peel(s, i + 1, w, MembersText(members, depth, fmt));
    MembersStart(s, i + 1, w, members, depth, fmt);
    SkipToNext(s, i + 1, w, members, depth, fmt);
  }

  lemma {:induction false} SkippedTwice(s: string, i: nat)
    ensures Skipped(s, Skipped(s, i)) == Skipped(s, i)
    decreases |s| - i
  {
    if At(s, i) == '\0' || At(s, i) as int > 32 {
    } else {
      SkippedTwice(s, i + 1);
    }
  }

  /** What follows the indentation of the first member. */
  function Unindented(members: seq<Member>, depth: nat, fmt: bool): string
    requires members != []
  {
    Quoted(members[0].name) + (":" + (If(fmt, "\t") +
      (Text(members[0].value, depth, fmt) +
        if |members| == 1 then If(fmt, "\n" + Tabs(depth - 1)) + "}"
        else "," + (If(fmt, "\n") + MembersText(members[1..], depth, fmt)))))
  }

  lemma IndentBlank(depth: nat, fmt: bool)
    ensures Blank(If(fmt, Tabs(depth)))
  {
    TabsBlank(depth);
  }

  lemma MembersTextStart(members: seq<Member>, depth: nat, fmt: bool)
    requires members != []
    ensures MembersText(members, depth, fmt) == If(fmt, Tabs(depth)) + Unindented(members, depth, fmt)
    ensures Unindented(members, depth, fmt) != "" && Unindented(members, depth, fmt)[0] == '"'
  {
    hide Text, Body, Tabs;
  }

  /** White space in front of the first member, and its indentation, lead to its name. */
  lemma MembersStart(s: string, i: nat, w: string, members: seq<Member>, depth: nat, fmt: bool)
    requires members != [] && Blank(w) && HasAt(s, i, w) && HasAt(s, i + |w|, MembersText(members, depth, fmt))
    ensures var j := i + |w| + |If(fmt, Tabs(depth))|;
            Skipped(s, i) == j && At(s, j) == '"' && HasAt(s, j, Unindented(members, depth, fmt))
  {
    hide *;
    var z, u := If(fmt, Tabs(depth)), Unindented(members, depth, fmt);
    IndentBlank(depth, fmt);
    MembersTextStart(members, depth, fmt);
    SpaceThen(s, i, w, z, u);
  }

  lemma MembersAtLast(s: string, i: nat, name: string, c: nat, v: Json, e: nat)
    requires StringAt(s, i) == Ok(name, c) && At(s, c) == ':'
    requires ValueAt(s, Skipped(s, c + 1)) == Ok(v, e) && At(s, Skipped(s, e)) == '}'
    ensures MembersAt(s, i) == Ok([Member(Cut(name), v)], Skipped(s, e) + 1)
  {
    hide ValueAt, StringAt, Cut;
  }

  lemma MembersAtMore(s: string, i: nat, name: string, c: nat, v: Json, e: nat, rest: seq<Member>, last: nat)
    requires StringAt(s, i) == Ok(name, c) && At(s, c) == ':'
    requires ValueAt(s, Skipped(s, c + 1)) == Ok(v, e) && At(s, e) == ','
    requires MembersAt(s, Skipped(s, e + 1)) == Ok(rest, last)
    ensures MembersAt(s, i) == Ok([Member(Cut(name), v)] + rest, last)
  {
    hide ValueAt, StringAt, Cut;
  }

  /** The name, the colon and the value of the first member, read from the name. */
  lemma {:induction false} MemberBack(s: string, i: nat, m: Member, depth: nat, fmt: bool, z: string)
    requires Printable(m.value) && z != "" && Stops(z[0])
    requires HasAt(s, i, Quoted(m.name) + (":" + (If(fmt, "\t") + (Text(m.value, depth, fmt) + z))))
    ensures var c := i + |Quoted(m.name)|;
            var e := c + 1 + |If(fmt, "\t")| + |Text(m.value, depth, fmt)|;
            && StringAt(s, i) == Ok(m.name, c) && At(s, c) == ':' && Cut(m.name) == m.name
            && ValueAt(s, Skipped(s, c + 1)) == Ok(m.value, e) && HasAt(s, e, z)
    decreases m, 0
  {
    hide HasAt, Quoted, ValueAt, StringAt, Printable, Skipped;
    var q, tab, t := Quoted(m.name), If(fmt, "\t"), Text(m.value, depth, fmt);
    TextStart(m.value, depth, fmt);
    hide Text;
    Peel(s, i, q, ":" + (tab + (t + z)));
    QuotedBack(s, i, m.name);
    var c := i + |q|;
    SignSpaceText(s, c, ":", tab, t, z);
    CharOf(s, c + 1 + |tab| + |t|, z, 0);
    ValueBack(s, c + 1 + |tab|, m.value, depth, fmt);
  }

  lemma {:induction false} MembersBackLast(s: string, i: nat, m: Member, depth: nat, fmt: bool)
    requires Printable(m.value) && HasAt(s, i, Unindented([m], depth, fmt))
    ensures MembersAt(s, i) == Ok([m], i + |Unindented([m], depth, fmt)|)
    decreases m, 1
  {
    hide HasAt, Text, ValueAt, StringAt, MembersAt, Skipped, Printable, Quoted;
    var w := If(fmt, "\n" + Tabs(depth - 1));
    MemberBack(s, i, m, depth, fmt, w + "}");
    var c := i + |Quoted(m.name)|;
    var e := c + 1 + |If(fmt, "\t")| + |Text(m.value, depth, fmt)|;
    Peel(s, e, w, "}");
    CharOf(s, e + |w|, "}", 0);
    TabsBlank(depth - 1);
    SkipBlank(s, e, w);
    MembersAtLast(s, i, m.name, c, m.value, e);
  }

  /** A member that others follow: reading comes to the indentation of the next. */
  lemma {:induction false} MembersBackMore(s: string, i: nat, m: Member, depth: nat, fmt: bool, rest: string)
    requires Printable(m.value)
    requires HasAt(s, i, Quoted(m.name) +
                         (":" + (If(fmt, "\t") + (Text(m.value, depth, fmt) + ("," + (If(fmt, "\n") + rest))))))
    ensures var c := i + |Quoted(m.name)|;
            var e := c + 1 + |If(fmt, "\t")| + |Text(m.value, depth, fmt)|;
            && StringAt(s, i) == Ok(m.name, c) && At(s, c) == ':' && Cut(m.name) == m.name
            && ValueAt(s, Skipped(s, c + 1)) == Ok(m.value, e) && At(s, e) == ','
            && HasAt(s, e + 1, If(fmt, "\n")) && HasAt(s, e + 1 + |If(fmt, "\n")|, rest)
    decreases m, 1
  {
    hide HasAt, Text, ValueAt, StringAt, Skipped, Printable, Quoted;
    var w := If(fmt, "\n");
    MemberBack(s, i, m, depth, fmt, "," + (w + rest));
    var e := i + |Quoted(m.name)| + 1 + |If(fmt, "\t")| + |Text(m.value, depth, fmt)|;
    PeelChar(s, e, ",", w + rest);
    Peel(s, e + 1, w, rest);
  }

  lemma {:induction false} MembersBack(s: string, i: nat, members: seq<Member>, depth: nat, fmt: bool)
    requires members != [] && forall k :: 0 <= k < |members| ==> Printable(members[k].value)
    requires HasAt(s, i, MembersText(members, depth, fmt))
    ensures MembersAt(s, Skipped(s, i)) == Ok(members, i + |MembersText(members, depth, fmt)|)
    decreases members, 0
  {
    hide HasAt, Text, ValueAt, StringAt, MembersAt, Skipped, Printable, Quoted, MembersText, Unindented;
    MembersTextStart(members, depth, fmt);
    HasNothing(s, i, MembersText(members, depth, fmt));
    MembersStart(s, i, "", members, depth, fmt);
    var j, m := Skipped(s, i), members[0];
    if |members| == 1 {
      assert members == [m];
      MembersBackLast(s, j, m, depth, fmt);
    } else {
      var w, rest := If(fmt, "\n"), MembersText(members[1..], depth, fmt);
      UnindentedMore(members, depth, fmt);
      MembersBackMore(s, j, m, depth, fmt, rest);
      var c := j + |Quoted(m.name)|;
      var e := c + 1 + |If(fmt, "\t")| + |Text(m.value, depth, fmt)|;
      SkipToNext(s, e + 1, w, members[1..], depth, fmt);
      MembersBack(s, e + 1 + |w|, members[1..], depth, fmt);
      MembersAtMore(s, j, m.name, c, m.value, e, members[1..], e + 1 + |w| + |rest|);
      assert members == [m] + members[1..];
    }
  }

  lemma UnindentedMore(members: seq<Member>, depth: nat, fmt: bool)
    requires |members| > 1
    ensures var m := members[0];
            var rest := MembersText(members[1..], depth, fmt);
            && Unindented(members, depth, fmt) ==
               Quoted(m.name) + (":" + (If(fmt, "\t") + (Text(m.value, depth, fmt) + ("," + (If(fmt, "\n") + rest)))))
            && |Unindented(members, depth, fmt)| ==
               |Quoted(m.name)| + 1 + |If(fmt, "\t")| + |Text(m.value, depth, fmt)| + 1 + |If(fmt, "\n")| + |rest|
  {
    hide Text, MembersText, Quoted;
  }

  lemma SkipToNext(s: string, i: nat, w: string, members: seq<Member>, depth: nat, fmt: bool)
    requires members != [] && Blank(w) && HasAt(s, i, w) && HasAt(s, i + |w|, MembersText(members, depth, fmt))
    ensures Skipped(s, i) == Skipped(s, i + |w|)
  {
    hide HasAt, Skipped, MembersText, Unindented;
    MembersStart(s, i, w, members, depth, fmt);
    HasNothing(s, i + |w|, MembersText(members, depth, fmt));
    MembersStart(s, i + |w|, "", members, depth, fmt);
  }

  /** Parsing the printed text returns the tree, in either layout and at any depth, and stops
      exactly after it, also when more text follows. */
  lemma ParsePrinted(v: Json, depth: nat, fmt: bool, rest: string)
    requires Printable(v) && (v.Number? && rest != "" ==> Stops(rest[0]))
    ensures Parsed(Text(v, depth, fmt) + rest, false) == Ok(v, |Text(v, depth, fmt)|)
  {
    var t := Text(v, depth, fmt);
    var s := t + rest;
    TextStart(v, depth, fmt);
    assert s[0..0 + |t|] == t;
    assert At(s, |t|) == At(rest, 0);
    hide Text, ValueAt, Printable;
    ValueBack(s, 0, v, depth, fmt);
    assert s[0] == t[0];
  }

  /** And the text is the whole of a document. */
  lemma ParsePrintedWhole(v: Json, depth: nat, fmt: bool)
    requires Printable(v)
    ensures Parsed(Text(v, depth, fmt), true) == Ok(v, |Text(v, depth, fmt)|)
  {
    hide Text, ValueAt, Printable;
    ParsePrinted(v, depth, fmt, "");
    assert Text(v, depth, fmt) + "" == Text(v, depth, fmt);
  }

  /** Printing is injective: different trees print differently, whatever the layout of each. */
  lemma PrintInjective(v: Json, w: Json, d: nat, e: nat, f: bool, g: bool)
    requires Printable(v) && Printable(w) && Text(v, d, f) == Text(w, e, g)
    ensures v == w
  {
    hide Text, ValueAt, Printable, Parsed;
    ParsePrintedWhole(v, d, f);
    ParsePrintedWhole(w, e, g);
  }
}
