/** The texts the parser of cJSON.c accepts are exactly those of the lenient grammar, and those of
    RFC 8259 are among them. */
module JsonLenient {
  import opened CStrings
  import opened JsonTree
  import opened JsonGrammar
  import opened JsonRound
  import opened JsonNumber
  import opened JsonReserve
  import opened JsonSyntax
  import opened JsonReads

  // ---------- strings ----------

  function CharsAt(s: string, i: nat, n: nat): (t: string)
    ensures |t| == n
    decreases n
  {
    if n == 0 then "" else [At(s, i)] + CharsAt(s, i + 1, n - 1)
  }

  lemma {:induction false} CharsStand(s: string, i: nat, n: nat)
    ensures Stands(s, i, CharsAt(s, i, n))
    decreases n
  {
    if n == 0 {
    } else {
      CharsStand(s, i + 1, n - 1);
      StandsGlue(s, i, [At(s, i)], CharsAt(s, i + 1, n - 1));
    }
  }

  /** The spelled character at i. */
  lemma UnitHere(s: string, i: nat) returns (u: Unit)
    requires At(s, i) != '"' && At(s, i) != '\0'
    ensures LenientUnit(u) && Stands(s, i, UnitText(u)) && UnitText(u) != ""
    ensures u.Code? && High(u.h) ==> !(At(s, i + 6) == '\\' && At(s, i + 7) == 'u')
  {
    hide High, Stands;
    if At(s, i) != '\\' {
      u := Plain(At(s, i));
      OneStands(s, i);
    } else if At(s, i + 1) != 'u' {
      u := Letter(At(s, i + 1));
      OneStands(s, i);
      OneStands(s, i + 1);
      StandsGlue(s, i, "\\", [At(s, i + 1)]);
    } else {
      u := CodeHere(s, i);
    }
  }

  lemma OneStands(s: string, i: nat)
    ensures Stands(s, i, [At(s, i)])
  {
  }

  lemma CodeHere(s: string, i: nat) returns (u: Unit)
    requires At(s, i) == '\\' && At(s, i + 1) == 'u'
    ensures LenientUnit(u) && Stands(s, i, UnitText(u)) && UnitText(u) != "" && (u.Code? || u.Pair?)
    ensures u.Code? && High(u.h) ==> !(At(s, i + 6) == '\\' && At(s, i + 7) == 'u')
  {
    hide High, Stands;
    var h := CharsAt(s, i + 2, 4);
    CharsStand(s, i + 2, 4);
    OneStands(s, i);
    OneStands(s, i + 1);
    var t := "";
    if High(h) && At(s, i + 6) == '\\' && At(s, i + 7) == 'u' {
      var l := CharsAt(s, i + 8, 4);
      CharsStand(s, i + 8, 4);
      OneStands(s, i + 6);
      OneStands(s, i + 7);
      StandsGlue(s, i + 7, "u", l);
      StandsGlue(s, i + 6, "\\", "u" + l);
      StandsGlue(s, i + 2, h, "\\" + ("u" + l));
      StandsGlue(s, i + 1, "u", h + ("\\" + ("u" + l)));
      StandsGlue(s, i, "\\", "u" + (h + ("\\" + ("u" + l))));
      u := Pair(h, l);
    } else {
      StandsGlue(s, i + 1, "u", h);
      StandsGlue(s, i, "\\", "u" + h);
      u := Code(h);
    }
  }

  /** The spelling from i to the quote that closes it, or to the end of the text. */
  lemma UnitsOf(s: string, i: nat) returns (us: seq<Unit>, z: string)
    ensures LenientUnits(us) && Stands(s, i, UnitsText(us, z)) && |UnitsText(us, z)| >= |z|
    ensures Closes(s, i + |UnitsText(us, z)| - |z|, z)
    decreases |s| - i
  {
    hide Stands, LenientUnit, UnitText, High;
    if At(s, i) == '"' {
      us, z := [], "\"";
      OneStands(s, i);
    } else if At(s, i) == '\0' {
      us, z := [], "";
      NothingStands(s, i);
    } else {
      var u := UnitHere(s, i);
      var j := i + |UnitText(u)|;
      var rest;
      rest, z := UnitsOf(s, j);
      us := [u] + rest;
      assert us[1..] == rest;
      StandsGlue(s, i, UnitText(u), UnitsText(rest, z));
      if u.Code? && High(u.h) {
        CodeText(u.h);
        HighLength(u.h);
        if rest != [] && (rest[0].Code? || rest[0].Pair?) {
          CodeStarts(s, j, rest, z);
        }
      }
    }
  }

  lemma NothingStands(s: string, i: nat)
    ensures Stands(s, i, "")
  {
  }

  lemma CodeStarts(s: string, i: nat, us: seq<Unit>, z: string)
    requires us != [] && (us[0].Code? || us[0].Pair?) && Stands(s, i, UnitsText(us, z))
    ensures At(s, i) == '\\' && At(s, i + 1) == 'u'
  {
    StandsPeel(s, i, UnitText(us[0]), UnitsText(us[1..], z));
    assert At(s, i + 0) == UnitText(us[0])[0] && At(s, i + 1) == UnitText(us[0])[1];
  }

  // ---------- numbers ----------

  lemma {:induction false} RunEnd(s: string, i: nat)
    ensures DigitsEnd(s, i) > i ==> DigitsEnd(s, i) <= |s|
    ensures !IsDigit(At(s, DigitsEnd(s, i)))
    ensures forall k :: i <= k < DigitsEnd(s, i) ==> IsDigit(At(s, k))
    decreases |s| - i
  {
    if IsDigit(At(s, i)) {
      RunEnd(s, i + 1);
    }
  }

  /** The digits from i on. */
  lemma RunAt(s: string, i: nat) returns (t: string)
    ensures AllDigits(t) && Stands(s, i, t) && !IsDigit(At(s, i + |t|))
    ensures IsDigit(At(s, i)) <==> t != ""
  {
    RunEnd(s, i);
    var j := DigitsEnd(s, i);
    t := if j > i then s[i..j] else "";
    assert forall k :: 0 <= k < |t| ==> t[k] == At(s, i + k);
  }

  lemma IntegerHere(s: string, i: nat) returns (w: string)
    ensures LenientInteger(w) && Stands(s, i, w) && (IsDigit(At(s, i)) ==> w != "")
    ensures if w == "0" then At(s, i + 1) == '0' || !IsDigit(At(s, i + 1)) else !IsDigit(At(s, i + |w|))
  {
    if At(s, i) == '0' && '1' <= At(s, i + 1) <= '9' {
      var u := RunAt(s, i + 1);
      w := "0" + u;
      OneStands(s, i);
      StandsGlue(s, i, "0", u);
      StandsChar(s, i + 1, u);
    } else if At(s, i) == '0' {
      w := "0";
      OneStands(s, i);
    } else {
      w := RunAt(s, i);
      if w != "" {
        StandsChar(s, i, w);
      }
    }
  }

  lemma FractionHere(s: string, i: nat) returns (f: string)
    ensures AllDigits(f) && Stands(s, i, FractionText(f))
    ensures if f == "" then !(At(s, i) == '.' && IsDigit(At(s, i + 1))) else !IsDigit(At(s, i + 1 + |f|))
  {
    f := "";
    if At(s, i) == '.' && IsDigit(At(s, i + 1)) {
      f := RunAt(s, i + 1);
      OneStands(s, i);
      StandsGlue(s, i, ".", f);
    }
  }

  lemma ExponentHere(s: string, i: nat) returns (marker: string, e: string)
    ensures LenientMarker(marker, e) && Stands(s, i, marker + e)
    ensures if marker == "" then At(s, i) != 'e' && At(s, i) != 'E' else !IsDigit(At(s, i + |marker + e|))
    ensures |marker| == 1 && e == "" ==> At(s, i + 1) != '+' && At(s, i + 1) != '-'
  {
    marker, e := "", "";
    if At(s, i) == 'e' || At(s, i) == 'E' {
      marker := [At(s, i)];
      if At(s, i + 1) == '+' || At(s, i + 1) == '-' {
        marker := [At(s, i), At(s, i + 1)];
      }
      e := RunAt(s, i + |marker|);
      StandsGlue(s, i, marker, e);
    }
  }

  lemma NumberStands(s: string, i: nat, negative: bool, w: string, f: string, tail: string)
    requires negative ==> At(s, i) == '-'
    requires var j := if negative then i + 1 else i;
             Stands(s, j, w) && Stands(s, j + |w|, FractionText(f)) && Stands(s, j + |w| + |FractionText(f)|, tail)
    ensures Stands(s, i, (if negative then "-" else "") + (w + (FractionText(f) + tail)))
  {
    hide Stands, FractionText;
    var j := if negative then i + 1 else i;
    var t := w + (FractionText(f) + tail);
    StandsGlue(s, j + |w|, FractionText(f), tail);
    StandsGlue(s, j, w, FractionText(f) + tail);
    if negative {
      OneStands(s, i);
      StandsGlue(s, i, "-", t);
    } else {
      assert "" + t == t;
    }
  }

  /** Where the last part of a number ends, the number ends. */
  lemma PartsEnds(s: string, j: nat, w: string, f: string, marker: string, e: string)
    requires var k := j + |w| + |FractionText(f)|;
             && (if w == "0" then At(s, j + 1) == '0' || !IsDigit(At(s, j + 1)) else !IsDigit(At(s, j + |w|)))
             && (if f == "" then !(At(s, j + |w|) == '.' && IsDigit(At(s, j + |w| + 1)))
                 else !IsDigit(At(s, j + |w| + 1 + |f|)))
             && (if marker == "" then At(s, k) != 'e' && At(s, k) != 'E' else !IsDigit(At(s, k + |marker + e|)))
             && (|marker| == 1 && e == "" ==> At(s, k + 1) != '+' && At(s, k + 1) != '-')
    requires marker == "" ==> e == ""
    ensures NumberEnds(s, j + |w| + |FractionText(f)| + |marker + e|, w, f, marker, e)
  {
    FractionLength(f);
    hide FractionText;
  }

  lemma NumberHere(s: string, i: nat) returns (src: Source)
    requires At(s, i) == '-' || IsDigit(At(s, i))
    ensures Lenient(src) && Stands(s, i, Spelled(src)) && Ends(s, i + |Spelled(src)|, src)
  {
    hide Stands, LenientInteger, LenientMarker, AllDigits, FractionText, NumberEnds;
    var negative := At(s, i) == '-';
    var j := if negative then i + 1 else i;
    var w := IntegerHere(s, j);
    var f := FractionHere(s, j + |w|);
    var k := j + |w| + |FractionText(f)|;
    var marker, e := ExponentHere(s, k);
    src := NumberSource(negative, w, f, marker, e);
    NumberStands(s, i, negative, w, f, marker + e);
    MarkerNeeded(marker, e);
    PartsEnds(s, j, w, f, marker, e);
    assert i + |Spelled(src)| == k + |marker + e|;
  }

  lemma MarkerNeeded(marker: string, e: string)
    requires LenientMarker(marker, e)
    ensures marker == "" ==> e == ""
  {
  }

  lemma FractionLength(f: string)
    ensures |FractionText(f)| == if f == "" then 0 else 1 + |f|
  {
  }

  // ---------- values ----------

  /** The white space from i on. */
  lemma {:induction false} BlankHere(s: string, i: nat) returns (w: string)
    ensures Blank(w) && Stands(s, i, w) && Skipped(s, i) == i + |w|
    decreases |s| - i
  {
    if At(s, i) != '\0' && At(s, i) as int <= 32 {
      var rest := BlankHere(s, i + 1);
      w := [At(s, i)] + rest;
      OneStands(s, i);
      StandsGlue(s, i, [At(s, i)], rest);
    } else {
      w := "";
    }
  }

  lemma StringHere(s: string, i: nat) returns (src: Source)
    requires At(s, i) == '"'
    ensures src.StringSource? || src.OpenString?
    ensures Lenient(src) && Stands(s, i, Spelled(src)) && Ends(s, i + |Spelled(src)|, src)
  {
    hide Stands, LenientUnits, UnitsText;
    var us, z := UnitsOf(s, i + 1);
    OneStands(s, i);
    StandsGlue(s, i, "\"", UnitsText(us, z));
    src := if z == "" then OpenString(us) else StringSource(us);
  }

  /** The source of what the parser reads at i. */
  lemma {:induction false} SourceOf(s: string, i: nat) returns (src: Source)
    requires ValueAt(s, i).Ok?
    ensures Lenient(src) && Stands(s, i, Spelled(src)) && Ends(s, i + |Spelled(src)|, src)
    decreases |s| - i, 1
  {
    hide Stands, NumberAt, StringAt, ArrayAt, ObjectAt, Skipped;
    if HasAt(s, i, "null") {
      src := NullWord;
      HasStands(s, i, "null");
    } else if HasAt(s, i, "false") {
      src := FalseWord;
      HasStands(s, i, "false");
    } else if HasAt(s, i, "true") {
      src := TrueWord;
      HasStands(s, i, "true");
    } else if At(s, i) == '"' {
      src := StringHere(s, i);
    } else if At(s, i) == '-' || IsDigit(At(s, i)) {
      src := NumberHere(s, i);
    } else if At(s, i) == '[' {
      src := ArrayOf(s, i);
    } else {
      src := ObjectOf(s, i);
    }
  }

  lemma {:induction false} ArrayOf(s: string, i: nat) returns (src: Source)
    requires At(s, i) == '[' && ArrayAt(s, i).Ok?
    ensures (src.EmptyArray? || src.ArraySource?) && Lenient(src) && Stands(s, i, Spelled(src))
    decreases |s| - i, 0
  {
    hide Stands, Blank, ItemsAt, MembersAt;
    var w := BlankHere(s, i + 1);
    var j := i + 1 + |w|;
    OneStands(s, i);
    if At(s, j) == ']' {
      OneStands(s, j);
      StandsGlue(s, i + 1, w, "]");
      StandsGlue(s, i, "[", w + "]");
      src := EmptyArray(w);
    } else {
      SkippedTwice(s, i + 1);
      hide Skipped;
      var items := ItemsOf(s, i + 1);
      src := ArraySource(items);
      StandsGlue(s, i, "[", ItemsSpelled(items));
    }
  }

  lemma {:induction false} ObjectOf(s: string, i: nat) returns (src: Source)
    requires At(s, i) == '{' && ObjectAt(s, i).Ok?
    ensures (src.EmptyObject? || src.ObjectSource?) && Lenient(src) && Stands(s, i, Spelled(src))
    decreases |s| - i, 0
  {
    hide Stands, Blank, ItemsAt, MembersAt;
    var w := BlankHere(s, i + 1);
    var j := i + 1 + |w|;
    OneStands(s, i);
    if At(s, j) == '}' {
      OneStands(s, j);
      StandsGlue(s, i + 1, w, "}");
      StandsGlue(s, i, "{", w + "}");
      src := EmptyObject(w);
    } else {
      SkippedTwice(s, i + 1);
      hide Skipped;
      var members := MembersOf(s, i + 1);
      src := ObjectSource(members);
      StandsGlue(s, i, "{", MembersSpelled(members));
    }
  }

  /** The item whose white space begins at i, and the end of the white space behind it. */
  lemma {:induction false} ItemOf(s: string, i: nat) returns (it: Item, e: nat)
    requires ValueAt(s, Skipped(s, i)).Ok? && At(s, Skipped(s, ValueAt(s, Skipped(s, i)).end)) != '\0'
    ensures LenientItem(it) && e == Skipped(s, ValueAt(s, Skipped(s, i)).end)
    ensures e == i + |it.before| + |Spelled(it.value)| + |it.after|
    ensures Stands(s, i, it.before) && Stands(s, i + |it.before|, Spelled(it.value))
    ensures Stands(s, i + |it.before| + |Spelled(it.value)|, it.after)
    decreases |s| - i, 2
  {
    hide ValueAt, Stands, Spelled, Lenient;
    var before := BlankHere(s, i);
    var j := i + |before|;
    var src := SourceOf(s, j);
    SourceReads(s, j, src);
    var after := BlankHere(s, j + |Spelled(src)|);
    hide Skipped;
    it := Item(before, src, after);
    e := j + |Spelled(src)| + |after|;
  }

  /** The items whose text begins at i, and the closing bracket. */
  lemma {:induction false} ItemsOf(s: string, i: nat) returns (items: seq<Item>)
    requires ItemsAt(s, Skipped(s, i)).Ok?
    ensures items != [] && LenientItems(items) && Stands(s, i, ItemsSpelled(items))
    decreases |s| - i, 3
  {
    hide ValueAt, Stands, Spelled, Skipped, Lenient;
    var it, e := ItemOf(s, i);
    var t := "]";
    OneStands(s, e);
    if At(s, e) == ']' {
      items := [it];
    } else {
      var rest := ItemsOf(s, e + 1);
      items := [it] + rest;
      assert items[1..] == rest;
      StandsGlue(s, e, ",", ItemsSpelled(rest));
      t := "," + ItemsSpelled(rest);
    }
    var a := i + |it.before|;
    StandsGlue(s, a + |Spelled(it.value)|, it.after, t);
    StandsGlue(s, a, Spelled(it.value), it.after + t);
    StandsGlue(s, i, it.before, Spelled(it.value) + (it.after + t));
  }

  /** A name, the white space around it, and the colon at c. */
  lemma NameOf(s: string, i: nat) returns (front: string, us: seq<Unit>, back: string, c: nat)
    requires StringAt(s, Skipped(s, i)).Ok? && At(s, Skipped(s, StringAt(s, Skipped(s, i)).end)) == ':'
    ensures Blank(front) && LenientUnits(us) && Blank(back) && c == Skipped(s, StringAt(s, Skipped(s, i)).end)
    ensures c == i + |front| + |Spelling(us)| + |back|
    ensures Stands(s, i, front) && Stands(s, i + |front|, Spelling(us)) && Stands(s, i + |front| + |Spelling(us)|, back)
  {
    hide Stands, LenientUnits, UnitsText, Meaning, BodyAt;
    front := BlankHere(s, i);
    var j := i + |front|;
    var z;
    us, z := UnitsOf(s, j + 1);
    UnitsRead(s, j + 1, us, z);
    back := BlankHere(s, j + 1 + |UnitsText(us, z)|);
    OneStands(s, j);
    StandsGlue(s, j, "\"", UnitsText(us, z));
    c := j + 1 + |UnitsText(us, z)| + |back|;
  }

  lemma ColonOf(s: string, i: nat)
    requires MembersAt(s, i).Ok?
    ensures StringAt(s, i).Ok?
    ensures var c := Skipped(s, StringAt(s, i).end);
            && At(s, c) == ':' && ValueAt(s, Skipped(s, c + 1)).Ok? && c >= i
            && var e := Skipped(s, ValueAt(s, Skipped(s, c + 1)).end);
               (At(s, e) == ',' && MembersAt(s, Skipped(s, e + 1)).Ok?) || At(s, e) == '}'
  {
    hide Skipped, StringAt, ValueAt;
  }

  lemma {:induction false} MembersOf(s: string, i: nat) returns (members: seq<Named>)
    requires MembersAt(s, Skipped(s, i)).Ok?
    ensures members != [] && LenientMembers(members) && Stands(s, i, MembersSpelled(members))
    decreases |s| - i, 3
  {
    hide ValueAt, Stands, Spelled, Skipped, Lenient, StringAt, Spelling, MembersAt, LenientUnits, Blank, LenientMember;
    ColonOf(s, Skipped(s, i));
    var front, us, back, c := NameOf(s, i);
    ColonInside(s, c);
    var it, e := ItemOf(s, c + 1);
    var m := Named(front, us, back, it);
    var t := "}";
    OneStands(s, e);
    if At(s, e) == '}' {
      members := [m];
    } else {
      var rest := MembersOf(s, e + 1);
      members := [m] + rest;
      assert members[1..] == rest;
      StandsGlue(s, e, ",", MembersSpelled(rest));
      t := "," + MembersSpelled(rest);
    }
    MemberStands(s, i, m, c, t);
  }

  lemma ColonInside(s: string, c: nat)
    requires At(s, c) == ':'
    ensures c < |s|
  {
  }

  lemma MemberStands(s: string, i: nat, m: Named, c: nat, t: string)
    requires Stands(s, i, m.front) && Stands(s, i + |m.front|, Spelling(m.name)) && At(s, c) == ':'
    requires Stands(s, i + |m.front| + |Spelling(m.name)|, m.back)
    requires c == i + |m.front| + |Spelling(m.name)| + |m.back|
    requires Stands(s, c + 1, m.item.before) && Stands(s, c + 1 + |m.item.before|, Spelled(m.item.value))
    requires Stands(s, c + 1 + |m.item.before| + |Spelled(m.item.value)|, m.item.after)
    requires Stands(s, c + 1 + |m.item.before| + |Spelled(m.item.value)| + |m.item.after|, t)
    ensures Stands(s, i, m.front + (Spelling(m.name) + (m.back + (":" + (m.item.before + (Spelled(m.item.value) +
                           (m.item.after + t)))))))
  {
    hide Stands, Spelled, Spelling;
    var a := c + 1 + |m.item.before|;
    StandsGlue(s, a + |Spelled(m.item.value)|, m.item.after, t);
    StandsGlue(s, a, Spelled(m.item.value), m.item.after + t);
    var u := m.item.before + (Spelled(m.item.value) + (m.item.after + t));
    StandsGlue(s, c + 1, m.item.before, Spelled(m.item.value) + (m.item.after + t));
    OneStands(s, c);
    StandsGlue(s, c, ":", u);
    StandsGlue(s, c - |m.back|, m.back, ":" + u);
    StandsGlue(s, i + |m.front|, Spelling(m.name), m.back + (":" + u));
    StandsGlue(s, i, m.front, Spelling(m.name) + (m.back + (":" + u)));
  }

  // ---------- what the parser accepts ----------

  /** At i stands a text of the grammar, ending at end, that denotes v. */
  ghost predicate ReadsAs(s: string, i: nat, src: Source, v: Json, end: nat) {
    && Lenient(src) && Stands(s, i, Spelled(src)) && end == i + |Spelled(src)| && Ends(s, end, src)
    && v == Denoted(src)
  }

  /** A value is read exactly where a text of the grammar stands: that text, and what it denotes. */
  lemma ValueExactly(s: string, i: nat, v: Json, end: nat)
    ensures ValueAt(s, i) == Ok(v, end) <==> exists src :: ReadsAs(s, i, src, v, end)
  {
    hide ValueAt, Lenient, Spelled, Denoted, Ends, Stands;
    if ValueAt(s, i) == Ok(v, end) {
      var src := SourceOf(s, i);
      SourceReads(s, i, src);
      assert ReadsAs(s, i, src, v, end);
    }
    if src :| ReadsAs(s, i, src, v, end) {
      SourceReads(s, i, src);
    }
  }

  /** White space from i on, up to j. */
  ghost predicate BlankTo(s: string, i: nat, j: nat) {
    exists w :: Blank(w) && Stands(s, i, w) && j == i + |w| && (At(s, j) == '\0' || At(s, j) as int > 32)
  }

  lemma SkippedExactly(s: string, i: nat, j: nat)
    ensures Skipped(s, i) == j <==> BlankTo(s, i, j)
  {
    hide Stands, Blank, Skipped;
    if Skipped(s, i) == j {
      var w := BlankHere(s, i);
      SkipStops(s, i);
    }
    if w :| Blank(w) && Stands(s, i, w) && j == i + |w| && (At(s, j) == '\0' || At(s, j) as int > 32) {
      SkipOver(s, i, w);
    }
  }

  lemma {:induction false} SkipStops(s: string, i: nat)
    ensures At(s, Skipped(s, i)) == '\0' || At(s, Skipped(s, i)) as int > 32
    decreases |s| - i
  {
    if At(s, i) != '\0' && At(s, i) as int <= 32 {
      SkipStops(s, i + 1);
    }
  }

  /** The document: white space and one text of the grammar, and, where that is asked for, nothing
      but white space behind it. */
  ghost predicate DocumentAs(s: string, requireEnd: bool, v: Json, end: nat) {
    exists i, src, e ::
      BlankTo(s, 0, i) && ReadsAs(s, i, src, v, e) &&
      if requireEnd then BlankTo(s, e, end) && At(s, end) == '\0' else end == e
  }

  /** A document is accepted exactly when it is one. */
  lemma ParsedExactly(s: string, requireEnd: bool, v: Json, end: nat)
    ensures Parsed(s, requireEnd) == Ok(v, end) <==> DocumentAs(s, requireEnd, v, end)
  {
    hide ValueAt, ReadsAs, BlankTo, Skipped;
    var i := Skipped(s, 0);
    SkippedExactly(s, 0, i);
    if Parsed(s, requireEnd) == Ok(v, end) {
      var e := ValueAt(s, i).end;
      ValueExactly(s, i, v, e);
      var src :| ReadsAs(s, i, src, v, e);
      SkippedExactly(s, e, end);
    }
    if i', src, e :| BlankTo(s, 0, i') && ReadsAs(s, i', src, v, e) &&
                     if requireEnd then BlankTo(s, e, end) && At(s, end) == '\0' else end == e {
      SkippedExactly(s, 0, i');
      ValueExactly(s, i, v, e);
      SkippedExactly(s, e, end);
    }
  }

  // ---------- the texts of RFC 8259 ----------

  lemma StopsEnds(s: string, j: nat, src: Source)
    requires Proper(src) && (src.NumberSource? ==> Stops(At(s, j)))
    ensures Ends(s, j, src)
  {
  }

  /** Every text of RFC 8259, wherever it stands, is read as the tree it denotes, and reading stops
      exactly behind it; behind a number something must follow that cannot belong to it. */
  lemma ProperReads(s: string, i: nat, src: Source)
    requires Proper(src) && HasAt(s, i, Spelled(src))
    requires src.NumberSource? ==> Stops(At(s, i + |Spelled(src)|))
    ensures Lenient(src) && ValueAt(s, i) == Ok(Denoted(src), i + |Spelled(src)|)
  {
    ProperIsLenient(src);
    StopsEnds(s, i + |Spelled(src)|, src);
    hide Proper, Lenient, Spelled, Denoted, Ends, ValueAt, Stops;
    HasStands(s, i, Spelled(src));
    SourceReads(s, i, src);
  }

  lemma ParsedFrom(s: string, i: nat, v: Json, e: nat, requireEnd: bool)
    requires Skipped(s, 0) == i && ValueAt(s, i) == Ok(v, e) && Skipped(s, e) == |s|
    ensures Parsed(s, requireEnd) == Ok(v, if requireEnd then |s| else e)
  {
    hide Skipped, ValueAt;
    assert At(s, |s|) == '\0';
  }

  /** A document: a text of the grammar between white space is parsed to the tree it denotes, also
      when the end of the text is checked. */
  lemma DocumentParses(w: string, src: Source, z: string, requireEnd: bool)
    requires Blank(w) && Proper(src) && Blank(z)
    ensures Lenient(src)
    ensures var n := |w| + |Spelled(src)|;
            Parsed(w + (Spelled(src) + z), requireEnd) == Ok(Denoted(src), if requireEnd then n + |z| else n)
  {
    hide Lenient, Spelled, Denoted, Proper, ValueAt, Skipped, HasAt, Blank, Stops, Parsed, Stands;
    ProperIsLenient(src);
    SpelledStart(src);
    var t := Spelled(src);
    var s := w + (t + z);
    HasWhole(s);
    HasStands(s, 0, w + (t + z));
    SkipTo(s, 0, w, t + z);
    Peel(s, 0, w, t + z);
    Peel(s, |w|, t, z);
    EndStops(s, |w| + |t|, z);
    ProperReads(s, |w|, src);
    BlankEnd(s, |w| + |t|, z);
    ParsedFrom(s, |w|, Denoted(src), |w| + |t|, requireEnd);
  }

  lemma HasWhole(s: string)
    ensures HasAt(s, 0, s)
  {
  }

  lemma EndStops(s: string, i: nat, z: string)
    requires Blank(z) && HasAt(s, i, z) && i + |z| == |s|
    ensures Stops(At(s, i))
  {
    if z != "" {
      CharOf(s, i, z, 0);
    }
  }

  lemma {:induction false} BlankEnd(s: string, i: nat, z: string)
    requires Blank(z) && HasAt(s, i, z) && i + |z| == |s|
    ensures Skipped(s, i) == |s|
    decreases |z|
  {
    if z == "" {
    } else {
      CharOf(s, i, z, 0);
      assert z == [z[0]] + z[1..];
      Peel(s, i, [z[0]], z[1..]);
      BlankEnd(s, i + 1, z[1..]);
    }
  }

  // ---------- the space reserved for a string ----------

  lemma HexWell(s: string, i: nat, h: string)
    requires FourHex(h) && At(s, i) == '\\' && At(s, i + 1) == 'u' && HasAt(s, i + 2, h) && WellEscaped(s, i + 6)
    ensures WellEscaped(s, i)
  {
    CharOf(s, i + 2, h, 0);
    CharOf(s, i + 2, h, 1);
    CharOf(s, i + 2, h, 2);
    CharOf(s, i + 2, h, 3);
    hide HasAt, HexValue;
    assert HexDigits(s, i + 2) by {
      forall k | i + 2 <= k < i + 6
        ensures HexValue(At(s, k)) >= 0
      {
        assert k == i + 2 || k == i + 3 || k == i + 4 || k == i + 5;
      }
    }
    DigitsPassed(s, i + 2);
  }

  lemma FourLong(h: string)
    requires FourHex(h)
    ensures |h| == 4
  {
  }

  lemma UnitWell(s: string, i: nat, u: Unit)
    requires ProperUnit(u) && HasAt(s, i, UnitText(u)) && WellEscaped(s, i + |UnitText(u)|)
    ensures WellEscaped(s, i)
  {
    hide HasAt, FourHex, HexNumber;
    match u
    case Plain(c) => CharOf(s, i, [c], 0);
    case Letter(c) =>
      PeelChar(s, i, "\\", [c]);
      CharOf(s, i + 1, [c], 0);
    case Code(h) =>
      hide WellEscaped;
      FourLong(h);
      PeelChar(s, i, "\\", "u" + h);
      PeelChar(s, i + 1, "u", h);
      HexWell(s, i, h);
    case Pair(h, l) =>
      hide WellEscaped;
      FourLong(h);
      FourLong(l);
      PeelChar(s, i, "\\", "u" + (h + ("\\" + ("u" + l))));
      PeelChar(s, i + 1, "u", h + ("\\" + ("u" + l)));
      Peel(s, i + 2, h, "\\" + ("u" + l));
      PeelChar(s, i + 6, "\\", "u" + l);
      PeelChar(s, i + 7, "u", l);
      HexWell(s, i + 6, l);
      HexWell(s, i, h);
  }

  lemma {:induction false} UnitsWell(s: string, i: nat, us: seq<Unit>)
    requires ProperUnits(us) && HasAt(s, i, UnitsText(us, "\""))
    ensures WellEscaped(s, i)
    decreases |us|
  {
    hide HasAt, UnitText, ProperUnit, WellEscaped;
    if us == [] {
      PrintedEnd(s, i);
    } else {
      Peel(s, i, UnitText(us[0]), UnitsText(us[1..], "\""));
      UnitsWell(s, i + |UnitText(us[0])|, us[1..]);
      UnitWell(s, i, us[0]);
    }
  }

  /** Reading any spelling of the grammar stays inside the space its measuring pass reserves. */
  lemma SpellingFits(s: string, i: nat, us: seq<Unit>)
    requires ProperUnits(us) && HasAt(s, i, UnitsText(us, "\""))
    ensures BodyAt(s, i).value == Meaning(us) && |Meaning(us)| <= Reserved(s, i) && Contained(s, i, MeasuredEnd(s, i))
  {
    UnitsWell(s, i, us);
    WellEscapedContained(s, i);
    WrittenFits(s, i, i);
    ProperLenient(us);
    hide LenientUnits, HasAt, Stands;
    HasStands(s, i, UnitsText(us, "\""));
    ClosedRead(s, i, us);
    hide Contained, Reserved, MeasuredEnd, WellEscaped, UnitsText, Meaning, ProperUnits, BodyAt;
  }

  // ---------- texts outside the grammar ----------

  /** The parser accepts more: a minus sign alone, or an unterminated string. */
  lemma AcceptsMore()
    ensures Parsed("-", true) == Ok(Number(0, 0.0), 1)
    ensures Parsed("\"a", true) == Ok(String("a"), 2)
  {
    MinusAlone();
    OpenLiteral();
  }

  lemma MinusAlone()
    ensures Parsed("-", true) == Ok(Number(0, 0.0), 1)
  {
    var s := "-";
    assert Pow10(0) == 1.0;
    NoWords(s, 0);
    assert NumberAt(s, 0) == Ok(Number(0, 0.0), 1);
    assert ValueAt(s, 0) == Ok(Number(0, 0.0), 1);
  }

  lemma OpenLiteral()
    ensures Parsed("\"a", true) == Ok(String("a"), 2)
  {
    var s := "\"a";
    NoWords(s, 0);
    CutSame("a");
    assert BodyAt(s, 2) == Ok("", 2);
    assert "a" + "" == "a";
    assert BodyAt(s, 1) == Ok("a", 2);
    assert ValueAt(s, 0) == Ok(String("a"), 2);
  }

  /** A character is kept behind a backslash whatever it is, and four characters that are no code
      point, the code zero and half a surrogate pair are read as nothing. */
  lemma DroppedEscapes(s: string, i: nat, h: string)
    requires |h| == 4 && !Scalar(h) && Stands(s, i, "u" + h)
    requires High(h) ==> !(At(s, i + 5) == '\\' && At(s, i + 6) == 'u')
    ensures UnicodeEscape(s, i) == ("", i + 5)
  {
    hide Hex4, HexNumber, Utf8, FourHex, Stands;
    CodeReads(s, i, h);
  }
}
