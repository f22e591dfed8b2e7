/** Reading a text of the lenient grammar: the parser gives it the tree it denotes. */
module JsonReads {
  import opened CStrings
  import opened JsonTree
  import opened JsonGrammar
  import opened JsonRound
  import opened JsonNumber
  import opened JsonSyntax

  // ---------- strings ----------

  /** The parser's reading of four characters behind u. */
  lemma Hex4Reads(s: string, i: nat, h: string)
    requires |h| == 4 && Stands(s, i, h)
    ensures Hex4(s, i) == if FourHex(h) then HexNumber(h) else 0
  {
    HexUnfold(h);
    assert At(s, i + 0) == h[0] && At(s, i + 1) == h[1] && At(s, i + 2) == h[2] && At(s, i + 3) == h[3];
    hide HexValue, HexNumber, Stands;
  }

  lemma CodeReads(s: string, i: nat, h: string)
    requires |h| == 4 && Stands(s, i, "u" + h)
    requires High(h) ==> !(At(s, i + 5) == '\\' && At(s, i + 6) == 'u')
    ensures UnicodeEscape(s, i) == (UnitMeaning(Code(h)), i + 5) && At(s, i) == 'u'
  {
    if FourHex(h) {
      HexBound(h);
    }
    hide Stands, Hex4, HexNumber, Utf8, FourHex;
    StandsPeelChar(s, i, "u", h);
    Hex4Reads(s, i + 1, h);
  }

  lemma PairReads(s: string, i: nat, h: string, l: string)
    requires High(h) && |l| == 4 && Stands(s, i, "u" + (h + ("\\" + ("u" + l))))
    ensures UnicodeEscape(s, i) == (UnitMeaning(Pair(h, l)), i + 11) && At(s, i) == 'u'
  {
    hide Stands, Hex4, HexNumber, Utf8;
    StandsPeelChar(s, i, "u", h + ("\\" + ("u" + l)));
    StandsPeel(s, i + 1, h, "\\" + ("u" + l));
    StandsPeelChar(s, i + 5, "\\", "u" + l);
    StandsPeelChar(s, i + 6, "u", l);
    Hex4Reads(s, i + 1, h);
    Hex4Reads(s, i + 7, l);
  }

  lemma LetterReads(s: string, i: nat, c: char)
    requires c != 'u' && At(s, i) == c
    ensures Escape(s, i) == (UnitMeaning(Letter(c)), i + 1)
  {
  }

  lemma EscapeOfU(s: string, i: nat)
    requires At(s, i) == 'u'
    ensures Escape(s, i) == UnicodeEscape(s, i)
  {
    hide UnicodeEscape;
  }

  lemma BodyEscape(s: string, i: nat, out: string, j: nat, t: string, end: nat)
    requires At(s, i) == '\\' && Escape(s, i + 1) == (out, j) && BodyAt(s, j) == Ok(t, end)
    ensures BodyAt(s, i) == Ok(out + t, end)
  {
    hide Escape;
  }

  lemma BodyPlain(s: string, i: nat, t: string, end: nat)
    requires At(s, i) != '\\' && At(s, i) != '"' && At(s, i) != '\0' && BodyAt(s, i + 1) == Ok(t, end)
    ensures BodyAt(s, i) == Ok([At(s, i)] + t, end)
  {
  }

  lemma UnitReads(s: string, i: nat, u: Unit, t: string, end: nat)
    requires LenientUnit(u) && Stands(s, i, UnitText(u)) && BodyAt(s, i + |UnitText(u)|) == Ok(t, end)
    requires u.Code? && High(u.h) ==> !(At(s, i + 6) == '\\' && At(s, i + 7) == 'u')
    ensures BodyAt(s, i) == Ok(UnitMeaning(u) + t, end)
  {
    hide Stands, BodyAt, Escape, UnitMeaning, UnicodeEscape, High;
    match u
    case Plain(c) =>
      StandsChar(s, i, [c]);
      BodyPlain(s, i, t, end);
      PlainMeans(c);
    case Letter(c) =>
      StandsPeelChar(s, i, "\\", [c]);
      StandsChar(s, i + 1, [c]);
      LetterReads(s, i + 1, c);
      BodyEscape(s, i, UnitMeaning(u), i + 2, t, end);
    case Code(h) =>
      StandsPeelChar(s, i, "\\", "u" + h);
      CodeReads(s, i + 1, h);
      EscapeOfU(s, i + 1);
      BodyEscape(s, i, UnitMeaning(u), i + 6, t, end);
    case Pair(h, l) =>
      StandsPeelChar(s, i, "\\", "u" + (h + ("\\" + ("u" + l))));
      PairReads(s, i + 1, h, l);
      EscapeOfU(s, i + 1);
      HighLength(h);
      BodyEscape(s, i, UnitMeaning(u), i + 12, t, end);
  }

  lemma PlainMeans(c: char)
    ensures UnitMeaning(Plain(c)) == [c]
  {
  }

  lemma HighLength(h: string)
    requires High(h)
    ensures |h| == 4
  {
  }

  /** A spelling is closed by a quote, or by the end of the text. */
  predicate Closes(s: string, i: nat, z: string) {
    (z == "\"" && At(s, i) == '"') || (z == "" && At(s, i) == '\0')
  }

  lemma BodyCloses(s: string, i: nat, z: string)
    requires Closes(s, i, z)
    ensures BodyAt(s, i) == Ok("", i + |z|)
  {
  }

  lemma NoSecondHalf(s: string, i: nat, us: seq<Unit>, z: string)
    requires LenientUnits(us) && Stands(s, i, UnitsText(us, z)) && (us != [] ==> us[0].Plain? || us[0].Letter?)
    requires us == [] ==> Closes(s, i, z)
    ensures !(At(s, i) == '\\' && At(s, i + 1) == 'u')
  {
    if us != [] {
      StandsPeel(s, i, UnitText(us[0]), UnitsText(us[1..], z));
      StandsChar(s, i, UnitText(us[0]));
      if us[0].Letter? {
        StandsPeelChar(s, i, "\\", [us[0].c]);
        StandsChar(s, i + 1, [us[0].c]);
      }
    }
  }

  /** Every spelling of a string is read as what it stands for. */
  lemma {:induction false} UnitsRead(s: string, i: nat, us: seq<Unit>, z: string)
    requires LenientUnits(us) && Stands(s, i, UnitsText(us, z)) && |UnitsText(us, z)| >= |z|
    requires Closes(s, i + |UnitsText(us, z)| - |z|, z)
    ensures BodyAt(s, i) == Ok(Meaning(us), i + |UnitsText(us, z)|)
    decreases |us|
  {
    hide Stands, BodyAt, UnitText, UnitMeaning, LenientUnit, Closes, High;
    if us == [] {
      BodyCloses(s, i, z);
    } else {
      var u, rest := us[0], us[1..];
      var j := i + |UnitText(u)|;
      StandsPeel(s, i, UnitText(u), UnitsText(rest, z));
      UnitsLength(rest, z);
      UnitsRead(s, j, rest, z);
      if u.Code? && High(u.h) {
        NoSecondHalf(s, j, rest, z);
        CodeText(u.h);
        HighLength(u.h);
      }
      UnitReads(s, i, u, Meaning(rest), j + |UnitsText(rest, z)|);
    }
  }

  lemma CodeText(h: string)
    ensures |UnitText(Code(h))| == 2 + |h|
  {
  }

  lemma {:induction false} UnitsLength(us: seq<Unit>, z: string)
    ensures |UnitsText(us, z)| >= |z|
  {
    hide UnitText;
    if us == [] {
    } else {
      UnitsLength(us[1..], z);
    }
  }

  lemma {:induction false} UnitsEnd(us: seq<Unit>, z: string)
    ensures |UnitsText(us, z)| >= |z| && UnitsText(us, z)[|UnitsText(us, z)| - |z|..] == z
  {
    hide UnitText;
    if us == [] {
    } else {
      UnitsEnd(us[1..], z);
      var t, u := UnitsText(us[1..], z), UnitText(us[0]);
      assert (u + t)[|u + t| - |z|..] == t[|t| - |z|..];
    }
  }

  /** A spelling with its closing quote. */
  lemma ClosedRead(s: string, i: nat, us: seq<Unit>)
    requires LenientUnits(us) && Stands(s, i, UnitsText(us, "\""))
    ensures BodyAt(s, i) == Ok(Meaning(us), i + |UnitsText(us, "\"")|)
  {
    hide BodyAt, Meaning, UnitsText, LenientUnits;
    var t := UnitsText(us, "\"");
    UnitsEnd(us, "\"");
    assert t[|t| - 1..][0] == t[|t| - 1] == '"';
    assert At(s, i + (|t| - 1)) == t[|t| - 1];
    UnitsRead(s, i, us, "\"");
  }

  lemma SpellingReads(s: string, i: nat, us: seq<Unit>)
    requires LenientUnits(us) && Stands(s, i, Spelling(us))
    ensures At(s, i) == '"' && StringAt(s, i) == Ok(Meaning(us), i + |Spelling(us)|)
  {
    hide BodyAt, Meaning, UnitsText, LenientUnits, Stands;
    StandsPeelChar(s, i, "\"", UnitsText(us, "\""));
    ClosedRead(s, i + 1, us);
  }

  lemma OpenReads(s: string, i: nat, us: seq<Unit>)
    requires LenientUnits(us) && Stands(s, i, Spelled(OpenString(us)))
    requires At(s, i + |Spelled(OpenString(us))|) == '\0'
    ensures At(s, i) == '"' && StringAt(s, i) == Ok(Meaning(us), i + |Spelled(OpenString(us))|)
  {
    hide BodyAt, Meaning, UnitsText, LenientUnits;
    StandsPeelChar(s, i, "\"", UnitsText(us, ""));
    UnitsRead(s, i + 1, us, "");
  }

  // ---------- numbers ----------

  lemma {:induction false} LeadingZero(w: string)
    requires w != "" && w[0] == '0' && AllDigits(w)
    ensures AllDigits(w[1..]) && DigitsValue(w) == DigitsValue(w[1..])
    decreases |w|
  {
    if |w| == 1 {
      assert w[..0] == "" && w[1..] == "";
    } else {
      LeadingZero(w[..|w| - 1]);
      assert w[..|w| - 1][1..] == w[1..][..|w[1..]| - 1];
    }
  }

  lemma IntegerReads(s: string, i: nat, w: string)
    requires LenientInteger(w) && HasAt(s, i, w)
    requires !IsDigit(At(s, i + |w|)) || (w == "0" && At(s, i + |w|) == '0')
    ensures IntegerPart(s, i) == (i + |w|, DigitsValue(w) as real)
  {
    hide HasAt, DigitsEnd, DigitsRead, DigitsValue;
    if w == "" {
      NoDigits();
    } else if w == "0" {
      CharOf(s, i, w, 0);
      LeadingZero(w);
      NoDigits();
    } else if w[0] == '0' {
      CharOf(s, i, w, 0);
      CharOf(s, i, w, 1);
      LeadingZero(w);
      assert w == "0" + w[1..];
      Peel(s, i, "0", w[1..]);
      IntegerRun(s, i + 1, w[1..]);
    } else {
      IntegerRun(s, i, w);
    }
  }

  lemma FractionReads(s: string, i: nat, f: string, n: real)
    requires AllDigits(f) && HasAt(s, i, FractionText(f))
    requires if f == "" then !(At(s, i) == '.' && IsDigit(At(s, i + 1))) else !IsDigit(At(s, i + 1 + |f|))
    ensures FractionPart(s, i, n) == (i + |FractionText(f)|, Appended(n, f), -|f|)
  {
    hide HasAt, DigitsEnd, DigitsRead, Appended;
    if f == "" {
      AppendedNone(n);
    } else {
      FractionRun(s, i, f, n);
    }
  }

  lemma ExponentReads(s: string, i: nat, marker: string, e: string)
    requires LenientMarker(marker, e) && HasAt(s, i, marker + e)
    requires if marker == "" then At(s, i) != 'e' && At(s, i) != 'E' else !IsDigit(At(s, i + |marker + e|))
    requires |marker| == 1 && e == "" ==> At(s, i + 1) != '+' && At(s, i + 1) != '-'
    ensures ExponentPart(s, i) == (i + |marker + e|, Exponent(marker, e))
  {
    hide HasAt, DigitsEnd, ExponentRead, DigitsValue;
    if marker == "" {
      NoDigits();
    } else {
      Peel(s, i, marker, e);
      CharOf(s, i, marker, 0);
      if |marker| == 2 {
        CharOf(s, i, marker, 1);
      } else if e != "" {
        CharOf(s, i + 1, e, 0);
      }
      ExponentRun(s, i + |marker|, e);
    }
  }

  /** What follows the integer digits, and what follows the fraction, is not taken for more of them. */
  lemma PartsEnd(s: string, i: nat, w: string, f: string, marker: string, e: string)
    requires AllDigits(f) && LenientMarker(marker, e) && HasAt(s, i, FractionText(f) + (marker + e))
    requires NumberEnds(s, i + |FractionText(f) + (marker + e)|, w, f, marker, e)
    ensures !IsDigit(At(s, i)) || (w == "0" && At(s, i) == '0')
    ensures if f == "" then !(At(s, i) == '.' && IsDigit(At(s, i + 1))) else !IsDigit(At(s, i + 1 + |f|))
    ensures var j := i + |FractionText(f)|;
            && (if marker == "" then At(s, j) != 'e' && At(s, j) != 'E' else !IsDigit(At(s, j + |marker + e|)))
            && (|marker| == 1 && e == "" ==> At(s, j + 1) != '+' && At(s, j + 1) != '-')
  {
    hide HasAt;
    Peel(s, i, FractionText(f), marker + e);
    if f != "" {
      CharOf(s, i, FractionText(f), 0);
    }
    if marker != "" {
      CharOf(s, i + |FractionText(f)|, marker + e, 0);
    }
  }

  lemma SignOf(s: string, i: nat, negative: bool, w: string, f: string, marker: string, e: string)
    requires LenientNumber(negative, w, f, marker, e) && HasAt(s, i, NumberText(negative, w, f, marker, e))
    ensures if negative then At(s, i) == '-' else IsDigit(At(s, i))
    ensures AllDigits(w) && AllDigits(f) && AllDigits(e) && LenientInteger(w) && LenientMarker(marker, e)
  {
    CharOf(s, i, NumberText(negative, w, f, marker, e), 0);
  }

  lemma NumberParts(s: string, i: nat, negative: bool, w: string, f: string, marker: string, e: string)
    requires HasAt(s, i, NumberText(negative, w, f, marker, e))
    ensures var j := if negative then i + 1 else i;
            && HasAt(s, j, w) && HasAt(s, j + |w|, FractionText(f) + (marker + e))
            && HasAt(s, j + |w|, FractionText(f)) && HasAt(s, j + |w| + |FractionText(f)|, marker + e)
            && i + |NumberText(negative, w, f, marker, e)| == j + |w| + |FractionText(f) + (marker + e)|
  {
    hide HasAt, FractionText;
    var tail, mid := marker + e, FractionText(f);
    var j := if negative then i + 1 else i;
    Peel(s, i, if negative then "-" else "", w + (mid + tail));
    Peel(s, j, w, mid + tail);
    Peel(s, j + |w|, mid, tail);
  }

  /** A number of the lenient grammar has its usual value too. */
  lemma NumberReads(s: string, i: nat, negative: bool, w: string, f: string, marker: string, e: string)
    requires LenientNumber(negative, w, f, marker, e) && HasAt(s, i, NumberText(negative, w, f, marker, e))
    requires NumberEnds(s, i + |NumberText(negative, w, f, marker, e)|, w, f, marker, e)
    ensures var d := NumberValue(if negative then -1.0 else 1.0, w, f, Exponent(marker, e));
            NumberAt(s, i) == Ok(Number(Truncated(d), d), i + |NumberText(negative, w, f, marker, e)|)
  {
    hide HasAt, IntegerPart, FractionPart, ExponentPart, Appended, NumberValue, Exponent, Scaled, Truncated;
    hide FractionText, LenientMarker, LenientInteger, NumberEnds, LenientNumber, NumberText, AllDigits, DigitsValue;
    var j := if negative then i + 1 else i;
    SignOf(s, i, negative, w, f, marker, e);
    NumberParts(s, i, negative, w, f, marker, e);
    PartsEnd(s, j + |w|, w, f, marker, e);
    IntegerReads(s, j, w);
    FractionReads(s, j + |w|, f, DigitsValue(w) as real);
    ExponentReads(s, j + |w| + |FractionText(f)|, marker, e);
    ScaleBack(if negative then -1.0 else 1.0, w, f, Exponent(marker, e));
  }

  // ---------- values ----------

  lemma {:induction false} SkipOver(s: string, i: nat, w: string)
    requires Stands(s, i, w) && Blank(w) && (At(s, i + |w|) as int > 32 || At(s, i + |w|) == '\0')
    ensures Skipped(s, i) == i + |w|
    decreases |w|
  {
    if w == "" {
    } else {
      assert w == [w[0]] + w[1..];
      StandsPeelChar(s, i, [w[0]], w[1..]);
      SkipOver(s, i + 1, w[1..]);
    }
  }

  /** White space, then something else. */
  lemma SkipTo(s: string, i: nat, w: string, t: string)
    requires Blank(w) && Stands(s, i, w + t) && t != "" && t[0] as int > 32
    ensures Skipped(s, i) == i + |w| && Stands(s, i + |w|, t) && At(s, i + |w|) == t[0]
  {
    hide Stands, Skipped, Blank;
    StandsPeel(s, i, w, t);
    StandsChar(s, i + |w|, t);
    SkipOver(s, i, w);
  }

  lemma NumberTextStart(negative: bool, w: string, f: string, marker: string, e: string)
    requires LenientNumber(negative, w, f, marker, e)
    ensures var t := NumberText(negative, w, f, marker, e); t != "" && (t[0] == '-' || IsDigit(t[0]))
    ensures '\0' !in NumberText(negative, w, f, marker, e)
  {
  }

  lemma SpelledStart(src: Source)
    requires Lenient(src)
    ensures var t := Spelled(src); t != "" && t[0] as int > 32 && t[0] != ']' && t[0] != '}'
  {
    hide UnitsText, ItemsSpelled, MembersSpelled, NumberText;
    match src
    case NumberSource(negative, w, f, marker, e) => NumberTextStart(negative, w, f, marker, e);
    case _ =>
  }

  /** White space, a comma or a bracket end every number. */
  predicate Sign(t: string) { t != "" && (t[0] == ',' || t[0] == ']' || t[0] == '}') }

  lemma EndsBehind(s: string, i: nat, w: string, t: string, src: Source)
    requires Blank(w) && Stands(s, i, w + t) && Sign(t) && !src.OpenString?
    ensures Ends(s, i, src)
  {
    if w == "" {
      assert w + t == t;
    }
    StandsChar(s, i, w + t);
  }

  lemma {:induction false} ItemReads(s: string, i: nat, it: Item, t: string)
    requires LenientItem(it) && Sign(t)
    requires Stands(s, i, it.before + (Spelled(it.value) + (it.after + t)))
    ensures var j := i + |it.before|;
            var e := j + |Spelled(it.value)|;
            && Skipped(s, i) == j && ValueAt(s, j) == Ok(Denoted(it.value), e) && At(s, j) != ']'
            && Skipped(s, e) == e + |it.after| && At(s, e + |it.after|) == t[0] && Stands(s, e + |it.after|, t)
    decreases it, 1
  {
    hide Stands, Skipped, Blank, Lenient, Ends, Spelled, Denoted, ValueAt;
    SpelledStart(it.value);
    SkipTo(s, i, it.before, Spelled(it.value) + (it.after + t));
    StandsPeel(s, i + |it.before|, Spelled(it.value), it.after + t);
    var e := i + |it.before| + |Spelled(it.value)|;
    EndsBehind(s, e, it.after, t, it.value);
    SkipTo(s, e, it.after, t);
    SourceReads(s, i + |it.before|, it.value);
  }

  lemma ItemsAtEnd(s: string, i: nat, v: Json, e: nat)
    requires ValueAt(s, i) == Ok(v, e) && At(s, Skipped(s, e)) == ']'
    ensures ItemsAt(s, i) == Ok([v], Skipped(s, e) + 1)
  {
    hide ValueAt, Skipped;
  }

  lemma ItemsAtNext(s: string, i: nat, v: Json, e: nat, rest: seq<Json>, last: nat)
    requires ValueAt(s, i) == Ok(v, e) && At(s, Skipped(s, e)) == ','
    requires ItemsAt(s, Skipped(s, Skipped(s, e) + 1)) == Ok(rest, last)
    ensures ItemsAt(s, i) == Ok([v] + rest, last)
  {
    hide ValueAt, Skipped;
  }

  lemma ItemsUnfold(items: seq<Item>)
    requires items != []
    ensures ItemsSpelled(items) ==
            items[0].before + (Spelled(items[0].value) + (items[0].after +
              if |items| == 1 then "]" else "," + ItemsSpelled(items[1..])))
  {
    hide Spelled;
  }

  lemma FirstItem(items: seq<Item>)
    requires items != [] && LenientItems(items)
    ensures LenientItem(items[0]) && Lenient(items[0].value) && LenientItems(items[1..])
    ensures DenotedItems(items) == [Denoted(items[0].value)] + DenotedItems(items[1..])
    ensures |items| == 1 ==> DenotedItems(items) == [Denoted(items[0].value)]
  {
    assert |items| == 1 ==> items[1..] == [];
    hide Lenient, Denoted, Blank, Spelled;
  }

  lemma {:induction false} ItemsRead(s: string, i: nat, items: seq<Item>)
    requires items != [] && LenientItems(items) && Stands(s, i, ItemsSpelled(items))
    ensures ItemsAt(s, Skipped(s, i)) == Ok(DenotedItems(items), i + |ItemsSpelled(items)|)
    ensures At(s, Skipped(s, i)) != ']'
    decreases items, 0
  {
    hide Stands, Skipped, Spelled, Denoted, ValueAt, ItemsAt, ItemsSpelled, DenotedItems, LenientItem, LenientItems;
    var it := items[0];
    FirstItem(items);
    ItemsUnfold(items);
    var t := if |items| == 1 then "]" else "," + ItemsSpelled(items[1..]);
    ItemReads(s, i, it, t);
    var j := i + |it.before|;
    var e := j + |Spelled(it.value)|;
    if |items| == 1 {
      ItemsAtEnd(s, j, Denoted(it.value), e);
    } else {
      StandsPeelChar(s, e + |it.after|, ",", ItemsSpelled(items[1..]));
      ItemsRead(s, e + |it.after| + 1, items[1..]);
      ItemsAtNext(s, j, Denoted(it.value), e, DenotedItems(items[1..]), i + |ItemsSpelled(items)|);
    }
  }

  lemma ArrayAtEmpty(s: string, i: nat)
    requires At(s, i) == '[' && At(s, Skipped(s, i + 1)) == ']'
    ensures ArrayAt(s, i) == Ok(Array([]), Skipped(s, i + 1) + 1)
  {
    hide Skipped, ItemsAt;
  }

  lemma ArrayAtItems(s: string, i: nat, items: seq<Json>, end: nat)
    requires At(s, i) == '[' && At(s, Skipped(s, i + 1)) != ']'
    requires ItemsAt(s, Skipped(s, i + 1)) == Ok(items, end)
    ensures ArrayAt(s, i) == Ok(Array(items), end)
  {
    SkippedTwice(s, i + 1);
    hide Skipped, ItemsAt;
  }

  lemma MembersAtEnd(s: string, i: nat, name: string, k: nat, v: Json, e: nat)
    requires StringAt(s, i) == Ok(name, k) && At(s, Skipped(s, k)) == ':'
    requires ValueAt(s, Skipped(s, Skipped(s, k) + 1)) == Ok(v, e) && At(s, Skipped(s, e)) == '}'
    ensures MembersAt(s, i) == Ok([Member(Cut(name), v)], Skipped(s, e) + 1)
  {
    hide ValueAt, StringAt, Cut, Skipped;
  }

  lemma MembersAtNext(s: string, i: nat, name: string, k: nat, v: Json, e: nat, rest: seq<Member>, last: nat)
    requires StringAt(s, i) == Ok(name, k) && At(s, Skipped(s, k)) == ':'
    requires ValueAt(s, Skipped(s, Skipped(s, k) + 1)) == Ok(v, e) && At(s, Skipped(s, e)) == ','
    requires MembersAt(s, Skipped(s, Skipped(s, e) + 1)) == Ok(rest, last)
    ensures MembersAt(s, i) == Ok([Member(Cut(name), v)] + rest, last)
  {
    hide ValueAt, StringAt, Cut, Skipped;
  }

  lemma MembersUnfold(members: seq<Named>)
    requires members != []
    ensures var m := members[0];
            MembersSpelled(members) ==
            m.front + (Spelling(m.name) + (m.back + (":" + (m.item.before + (Spelled(m.item.value) + (m.item.after +
              if |members| == 1 then "}" else "," + MembersSpelled(members[1..])))))))
  {
    hide Spelled, Spelling;
  }

  lemma FirstMember(members: seq<Named>)
    requires members != [] && LenientMembers(members)
    ensures LenientMember(members[0]) && LenientItem(members[0].item) && LenientMembers(members[1..])
    ensures LenientUnits(members[0].name) && Lenient(members[0].item.value)
    ensures var m := members[0];
            var d := Member(Denotation(m.name), Denoted(m.item.value));
            && DenotedMembers(members) == [d] + DenotedMembers(members[1..])
            && (|members| == 1 ==> DenotedMembers(members) == [d])
  {
    assert |members| == 1 ==> members[1..] == [];
    hide Lenient, Denoted, Denotation, Blank, LenientUnits;
  }

  /** The name and the colon: reading comes to the value. */
  lemma NameReads(s: string, i: nat, m: Named, t: string)
    requires LenientMember(m) && Stands(s, i, m.front + (Spelling(m.name) + (m.back + (":" + t))))
    ensures var j := i + |m.front|;
            var k := j + |Spelling(m.name)|;
            && Skipped(s, i) == j && At(s, j) == '"' && StringAt(s, j) == Ok(Meaning(m.name), k)
            && Skipped(s, k) == k + |m.back| && At(s, k + |m.back|) == ':' && Stands(s, k + |m.back| + 1, t)
  {
    hide Stands, Skipped, Blank, Lenient, Meaning, StringAt, LenientUnits, UnitsText;
    SkipTo(s, i, m.front, Spelling(m.name) + (m.back + (":" + t)));
    hide Spelling;
    var j := i + |m.front|;
    StandsPeel(s, j, Spelling(m.name), m.back + (":" + t));
    SpellingReads(s, j, m.name);
    var k := j + |Spelling(m.name)|;
    SkipTo(s, k, m.back, ":" + t);
    StandsPeelChar(s, k + |m.back|, ":", t);
  }

  lemma {:induction false} MembersRead(s: string, i: nat, members: seq<Named>)
    requires members != [] && LenientMembers(members) && Stands(s, i, MembersSpelled(members))
    ensures MembersAt(s, Skipped(s, i)) == Ok(DenotedMembers(members), i + |MembersSpelled(members)|)
    ensures At(s, Skipped(s, i)) == '"'
    decreases members, 0
  {
    hide Stands, Skipped, Spelled, Denoted, ValueAt, MembersAt, MembersSpelled, DenotedMembers, LenientItem;
    hide LenientMembers;
    hide StringAt, Spelling, Meaning, Cut, LenientMember, LenientUnits;
    var m := members[0];
    FirstMember(members);
    MembersUnfold(members);
    var t := if |members| == 1 then "}" else "," + MembersSpelled(members[1..]);
    NameReads(s, i, m, m.item.before + (Spelled(m.item.value) + (m.item.after + t)));
    var j := i + |m.front|;
    var k := j + |Spelling(m.name)|;
    ItemReads(s, k + |m.back| + 1, m.item, t);
    var e := k + |m.back| + 1 + |m.item.before| + |Spelled(m.item.value)|;
    if |members| == 1 {
      MembersAtEnd(s, j, Meaning(m.name), k, Denoted(m.item.value), e);
    } else {
      StandsPeelChar(s, e + |m.item.after|, ",", MembersSpelled(members[1..]));
      MembersRead(s, e + |m.item.after| + 1, members[1..]);
      MembersAtNext(s, j, Meaning(m.name), k, Denoted(m.item.value), e, DenotedMembers(members[1..]),
                    i + |MembersSpelled(members)|);
    }
  }

  lemma BlankBetween(s: string, i: nat, a: string, w: string, z: string)
    requires |a| == 1 && |z| == 1 && z[0] as int > 32 && Blank(w) && Stands(s, i, a + (w + z))
    ensures At(s, i) == a[0] && Skipped(s, i + 1) == i + 1 + |w| && At(s, i + 1 + |w|) == z[0]
  {
    hide Stands, Skipped, Blank;
    StandsPeelChar(s, i, a, w + z);
    SkipTo(s, i + 1, w, z);
  }

  lemma NumberSourceReads(s: string, i: nat, src: Source)
    requires src.NumberSource? && Lenient(src) && Stands(s, i, Spelled(src)) && Ends(s, i + |Spelled(src)|, src)
    ensures ValueAt(s, i) == Ok(Denoted(src), i + |Spelled(src)|)
  {
    hide HasAt, NumberAt, NumberText, NumberValue, LenientNumber, AllDigits, Truncated, Exponent, NumberEnds, Stands;
    var NumberSource(negative, w, f, marker, e) := src;
    var t := NumberText(negative, w, f, marker, e);
    NumberTextStart(negative, w, f, marker, e);
    StandsHas(s, i, t);
    NumberReads(s, i, negative, w, f, marker, e);
    CharOf(s, i, t, 0);
    NoWords(s, i);
  }

  lemma StringReads(s: string, i: nat, t: string, end: nat)
    requires At(s, i) == '"' && StringAt(s, i) == Ok(t, end)
    ensures ValueAt(s, i) == Ok(String(Cut(t)), end)
  {
    NoWords(s, i);
    hide HasAt, StringAt, Cut;
  }

  lemma BracketReads(s: string, i: nat)
    requires At(s, i) == '[' || At(s, i) == '{'
    ensures ValueAt(s, i) == if At(s, i) == '[' then ArrayAt(s, i) else ObjectAt(s, i)
  {
    NoWords(s, i);
    hide HasAt, ArrayAt, ObjectAt;
  }

  lemma WordReads(s: string, i: nat)
    ensures HasAt(s, i, "null") ==> ValueAt(s, i) == Ok(Null, i + 4)
    ensures HasAt(s, i, "false") ==> ValueAt(s, i) == Ok(False, i + 5)
    ensures HasAt(s, i, "true") ==> ValueAt(s, i) == Ok(True, i + 4)
  {
    FirstCharOf(s, i, "null");
    FirstCharOf(s, i, "false");
    FirstCharOf(s, i, "true");
    hide HasAt;
  }

  /** Every text of the lenient grammar, wherever it stands, is read as the tree it denotes, and
      reading stops exactly behind it. */
  lemma {:induction false} SourceReads(s: string, i: nat, src: Source)
    requires Lenient(src) && Stands(s, i, Spelled(src)) && Ends(s, i + |Spelled(src)|, src)
    ensures ValueAt(s, i) == Ok(Denoted(src), i + |Spelled(src)|)
    decreases src, 0
  {
    hide Stands, ItemsSpelled, MembersSpelled, ItemsAt, MembersAt, Skipped, LenientItems, LenientMembers;
    hide DenotedItems, DenotedMembers, ValueAt, ArrayAt, ObjectAt, NumberText, NumberValue, Spelling, Meaning;
    hide LenientUnits, StringAt, Cut, HasAt, UnitsText, NumberEnds;
    match src
    case NumberSource(negative, w, f, marker, e) => NumberSourceReads(s, i, src);
    case StringSource(us) =>
      SpellingReads(s, i, us);
      StringReads(s, i, Meaning(us), i + |Spelling(us)|);
    case OpenString(us) =>
      OpenReads(s, i, us);
      StringReads(s, i, Meaning(us), i + |Spelled(src)|);
    case EmptyArray(w) =>
      BlankBetween(s, i, "[", w, "]");
      ArrayAtEmpty(s, i);
      BracketReads(s, i);
    case ArraySource(items) =>
      StandsPeelChar(s, i, "[", ItemsSpelled(items));
      ItemsRead(s, i + 1, items);
      ArrayAtItems(s, i, DenotedItems(items), i + 1 + |ItemsSpelled(items)|);
      BracketReads(s, i);
    case EmptyObject(w) =>
      BlankBetween(s, i, "{", w, "}");
      ObjectAtEmpty(s, i);
      BracketReads(s, i);
    case ObjectSource(members) =>
      StandsPeelChar(s, i, "{", MembersSpelled(members));
      MembersRead(s, i + 1, members);
      ObjectAtMembers(s, i, DenotedMembers(members), i + 1 + |MembersSpelled(members)|);
      BracketReads(s, i);
    case _ =>
      StandsHas(s, i, Spelled(src));
      WordReads(s, i);
  }
}
