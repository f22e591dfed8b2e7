/** Which texts the parser of cJSON.c refuses, and where it says that the error is. */
module JsonErrors {
  import opened CStrings
  import opened JsonTree
  import opened JsonGrammar
  import opened JsonRound
  import opened JsonSyntax
  import opened JsonReads
  import opened JsonLenient

  // ---------- the way to an error ----------

  /** A value that cannot be read: nothing begins one, or an array or an object has an error. */
  datatype Defect =
    | NoValue
    | InArray(items: ItemsDefect)
    | InObject(members: MembersDefect)

  /** An error in the items of an array: in the next value, behind it, or further on. */
  datatype ItemsDefect =
    | BadItem(before: string, inner: Defect)
    | NoComma(item: Item)
    | NextItem(item: Item, rest: ItemsDefect)

  datatype MembersDefect =
    | NoName(front: string)
    | NoColon(front: string, literal: Source, back: string)
    | BadValue(front: string, name: seq<Unit>, back: string, before: string, inner: Defect)
    | NoBrace(member: Named)
    | NextMember(member: Named, rest: MembersDefect)

  predicate Settled(s: string, j: nat) { At(s, j) == '\0' || At(s, j) as int > 32 }

  /** White space from i on, and none behind it. */
  predicate BlankAt(s: string, i: nat, w: string) {
    Blank(w) && Stands(s, i, w) && Settled(s, i + |w|)
  }

  ghost predicate SourceAt(s: string, i: nat, src: Source) {
    Lenient(src) && Stands(s, i, Spelled(src)) && Ends(s, i + |Spelled(src)|, src)
  }

  function ItemEnd(i: nat, it: Item): nat { i + |it.before| + |Spelled(it.value)| + |it.after| }

  ghost predicate ItemAt(s: string, i: nat, it: Item) {
    var j := i + |it.before|;
    BlankAt(s, i, it.before) && SourceAt(s, j, it.value) && BlankAt(s, j + |Spelled(it.value)|, it.after)
  }

  function NameEnd(i: nat, front: string, name: seq<Unit>, back: string): nat {
    i + |front| + |Spelling(name)| + |back|
  }

  ghost predicate NameAt(s: string, i: nat, front: string, name: seq<Unit>, back: string) {
    var j := i + |front|;
    BlankAt(s, i, front) && SourceAt(s, j, StringSource(name)) && BlankAt(s, j + |Spelling(name)|, back)
  }

  /** No value begins at i. */
  predicate NoStart(s: string, i: nat) {
    && At(s, i) != '"' && At(s, i) != '-' && !IsDigit(At(s, i)) && At(s, i) != '[' && At(s, i) != '{'
    && !HasAt(s, i, "null") && !HasAt(s, i, "false") && !HasAt(s, i, "true")
  }

  /** Reading a value from i on comes along d to an error at ep. */
  ghost predicate Fails(s: string, i: nat, d: Defect, ep: nat)
    decreases d
  {
    match d
    case NoValue => ep == i && NoStart(s, i)
    case InArray(r) =>
      At(s, i) == '[' && ItemsFail(s, i + 1, r, ep) && (r.BadItem? ==> At(s, i + 1 + |r.before|) != ']')
    case InObject(r) =>
      At(s, i) == '{' && MembersFail(s, i + 1, r, ep) && (r.NoName? ==> At(s, ep) != '}')
  }

  ghost predicate ItemsFail(s: string, i: nat, r: ItemsDefect, ep: nat)
    decreases r
  {
    match r
    case BadItem(before, inner) => BlankAt(s, i, before) && Fails(s, i + |before|, inner, ep)
    case NoComma(it) => ItemAt(s, i, it) && ep == ItemEnd(i, it) && At(s, ep) != ',' && At(s, ep) != ']'
    case NextItem(it, rest) =>
      ItemAt(s, i, it) && At(s, ItemEnd(i, it)) == ',' && ItemsFail(s, ItemEnd(i, it) + 1, rest, ep)
  }

  ghost predicate MembersFail(s: string, i: nat, r: MembersDefect, ep: nat)
    decreases r
  {
    match r
    case NoName(front) => BlankAt(s, i, front) && ep == i + |front| && At(s, ep) != '"'
    case NoColon(front, name, back) =>
      var j := i + |front|;
      && BlankAt(s, i, front) && (name.StringSource? || name.OpenString?) && SourceAt(s, j, name)
      && BlankAt(s, j + |Spelled(name)|, back) && ep == j + |Spelled(name)| + |back| && At(s, ep) != ':'
    case BadValue(front, name, back, before, inner) =>
      var c := NameEnd(i, front, name, back);
      && NameAt(s, i, front, name, back) && At(s, c) == ':'
      && BlankAt(s, c + 1, before) && Fails(s, c + 1 + |before|, inner, ep)
    case NoBrace(m) =>
      var c := NameEnd(i, m.front, m.name, m.back);
      && NameAt(s, i, m.front, m.name, m.back) && At(s, c) == ':' && ItemAt(s, c + 1, m.item)
      && ep == ItemEnd(c + 1, m.item) && At(s, ep) != ',' && At(s, ep) != '}'
    case NextMember(m, rest) =>
      var c := NameEnd(i, m.front, m.name, m.back);
      var e := ItemEnd(c + 1, m.item);
      && NameAt(s, i, m.front, m.name, m.back) && At(s, c) == ':' && ItemAt(s, c + 1, m.item)
      && At(s, e) == ',' && MembersFail(s, e + 1, rest, ep)
  }

  // ---------- such a text is refused there ----------

  lemma BlankSkips(s: string, i: nat, w: string)
    requires BlankAt(s, i, w)
    ensures Skipped(s, i) == i + |w|
  {
    hide Stands, Blank;
    SkipOver(s, i, w);
  }

  /** Reading an item comes to its end. */
  lemma ItemRead(s: string, i: nat, it: Item)
    requires ItemAt(s, i, it)
    ensures ValueAt(s, Skipped(s, i)).Ok? && Skipped(s, ValueAt(s, Skipped(s, i)).end) == ItemEnd(i, it)
    ensures At(s, Skipped(s, i)) != ']' && At(s, Skipped(s, i)) != '}'
  {
    hide BlankAt, Lenient, Spelled, Denoted, Ends, ValueAt, Skipped, Stands;
    var j := i + |it.before|;
    BlankSkips(s, i, it.before);
    SourceReads(s, j, it.value);
    SpelledStart(it.value);
    StandsChar(s, j, Spelled(it.value));
    BlankSkips(s, j + |Spelled(it.value)|, it.after);
  }

  /** And reading a name to the character behind it. */
  lemma NameRead(s: string, i: nat, front: string, name: Source, back: string)
    requires BlankAt(s, i, front) && (name.StringSource? || name.OpenString?) && SourceAt(s, i + |front|, name)
    requires BlankAt(s, i + |front| + |Spelled(name)|, back)
    ensures At(s, Skipped(s, i)) == '"' && StringAt(s, Skipped(s, i)).Ok?
    ensures Skipped(s, StringAt(s, Skipped(s, i)).end) == i + |front| + |Spelled(name)| + |back|
  {
    hide BlankAt, Meaning, UnitsText, LenientUnits, StringAt, Skipped, Stands;
    var j := i + |front|;
    BlankSkips(s, i, front);
    if name.StringSource? {
      SpellingReads(s, j, name.units);
    } else {
      OpenReads(s, j, name.units);
    }
    BlankSkips(s, j + |Spelled(name)|, back);
  }

  /** Where reading members fails. */
  lemma MembersAtFails(s: string, j: nat)
    ensures At(s, j) != '"' ==> MembersAt(s, j) == Fail(j)
    ensures StringAt(s, j).Ok? ==>
            var c := Skipped(s, StringAt(s, j).end);
            if At(s, c) != ':' then MembersAt(s, j) == Fail(c)
            else
              match ValueAt(s, Skipped(s, c + 1))
              case Fail(ep) => MembersAt(s, j) == Fail(ep)
              case Ok(_, end) =>
                var e := Skipped(s, end);
                if At(s, e) == ',' then
                  var r := MembersAt(s, Skipped(s, e + 1));
                  if r.Fail? then MembersAt(s, j) == Fail(r.ep) else MembersAt(s, j).Ok?
                else if At(s, e) == '}' then MembersAt(s, j).Ok?
                else MembersAt(s, j) == Fail(e)
  {
    hide BodyAt, ValueAt, Skipped;
  }

  lemma {:induction false} FailsRead(s: string, i: nat, d: Defect, ep: nat)
    requires Fails(s, i, d, ep)
    ensures ValueAt(s, i) == Fail(ep)
    decreases d
  {
    hide HasAt, ItemsFail, MembersFail, ItemsAt, MembersAt, Skipped, BlankAt, ItemAt, NameAt, StringAt, NumberAt;
    match d
    case NoValue =>
    case InArray(r) =>
      BracketReads(s, i);
      SkippedTwice(s, i + 1);
      ItemsFailRead(s, i + 1, r, ep);
    case InObject(r) =>
      BracketReads(s, i);
      SkippedTwice(s, i + 1);
      MembersFailRead(s, i + 1, r, ep);
  }

  lemma {:induction false} ItemsFailRead(s: string, i: nat, r: ItemsDefect, ep: nat)
    requires ItemsFail(s, i, r, ep)
    ensures ItemsAt(s, Skipped(s, i)) == Fail(ep)
    ensures r.BadItem? ==> Skipped(s, i) == i + |r.before|
    ensures !r.BadItem? ==> At(s, Skipped(s, i)) != ']'
    decreases r
  {
    hide Fails, BlankAt, ItemAt, ItemEnd, Skipped, ValueAt;
    match r
    case BadItem(before, inner) =>
      BlankSkips(s, i, before);
      FailsRead(s, i + |before|, inner, ep);
    case NoComma(it) => ItemRead(s, i, it);
    case NextItem(it, rest) =>
      ItemRead(s, i, it);
      ItemsFailRead(s, ItemEnd(i, it) + 1, rest, ep);
  }

  lemma NameAtRead(s: string, i: nat, front: string, name: seq<Unit>, back: string)
    requires NameAt(s, i, front, name, back)
    ensures At(s, Skipped(s, i)) == '"' && StringAt(s, Skipped(s, i)).Ok?
    ensures Skipped(s, StringAt(s, Skipped(s, i)).end) == NameEnd(i, front, name, back)
  {
    hide BlankAt, Lenient, Stands, StringAt, Skipped, Spelling;
    NameRead(s, i, front, StringSource(name), back);
  }

  lemma {:induction false} MembersFailRead(s: string, i: nat, r: MembersDefect, ep: nat)
    requires MembersFail(s, i, r, ep)
    ensures MembersAt(s, Skipped(s, i)) == Fail(ep)
    ensures r.NoName? ==> Skipped(s, i) == ep
    ensures !r.NoName? ==> At(s, Skipped(s, i)) == '"'
    decreases r
  {
    hide Fails, BlankAt, ItemAt, ItemEnd, Skipped, ValueAt, StringAt, SourceAt, Spelling, MembersAt;
    hide NameAt, NameEnd, Spelled, HasAt;
    MembersAtFails(s, Skipped(s, i));
    match r
    case NoName(front) => BlankSkips(s, i, front);
    case NoColon(front, name, back) => NameRead(s, i, front, name, back);
    case BadValue(front, name, back, before, inner) =>
      NameAtRead(s, i, front, name, back);
      var c := NameEnd(i, front, name, back);
      BlankSkips(s, c + 1, before);
      FailsRead(s, c + 1 + |before|, inner, ep);
    case NoBrace(m) =>
      NameAtRead(s, i, m.front, m.name, m.back);
      ItemRead(s, NameEnd(i, m.front, m.name, m.back) + 1, m.item);
    case NextMember(m, rest) =>
      NameAtRead(s, i, m.front, m.name, m.back);
      var c := NameEnd(i, m.front, m.name, m.back);
      ItemRead(s, c + 1, m.item);
      MembersFailRead(s, ItemEnd(c + 1, m.item) + 1, rest, ep);
  }

  // ---------- every refused text is such a text ----------

  lemma BlankFrom(s: string, i: nat) returns (w: string)
    ensures BlankAt(s, i, w) && Skipped(s, i) == i + |w|
  {
    hide Stands, Blank;
    w := BlankHere(s, i);
    SkipStops(s, i);
  }

  lemma SourceFrom(s: string, i: nat) returns (src: Source)
    requires ValueAt(s, i).Ok?
    ensures SourceAt(s, i, src) && ValueAt(s, i).end == i + |Spelled(src)|
  {
    hide Lenient, Spelled, Denoted, Ends, ValueAt, Stands;
    src := SourceOf(s, i);
    SourceReads(s, i, src);
  }

  lemma ItemFrom(s: string, i: nat) returns (it: Item)
    requires ValueAt(s, Skipped(s, i)).Ok?
    ensures ItemAt(s, i, it) && ItemEnd(i, it) == Skipped(s, ValueAt(s, Skipped(s, i)).end)
  {
    hide SourceAt, BlankAt, ValueAt, Spelled;
    var before := BlankFrom(s, i);
    var src := SourceFrom(s, i + |before|);
    var after := BlankFrom(s, i + |before| + |Spelled(src)|);
    hide Skipped;
    it := Item(before, src, after);
  }

  lemma NameFrom(s: string, i: nat) returns (front: string, name: Source, back: string)
    requires StringAt(s, Skipped(s, i)).Ok?
    ensures BlankAt(s, i, front) && (name.StringSource? || name.OpenString?) && SourceAt(s, i + |front|, name)
    ensures BlankAt(s, i + |front| + |Spelled(name)|, back)
    ensures i + |front| + |Spelled(name)| + |back| == Skipped(s, StringAt(s, Skipped(s, i)).end)
  {
    hide BlankAt, Meaning, UnitsText, LenientUnits, BodyAt, Stands, Spelled;
    front := BlankFrom(s, i);
    var j := i + |front|;
    name := StringHere(s, j);
    NameEnds(s, j, name);
    back := BlankFrom(s, j + |Spelled(name)|);
  }

  lemma NameEnds(s: string, j: nat, name: Source)
    requires (name.StringSource? || name.OpenString?) && SourceAt(s, j, name)
    ensures StringAt(s, j).Ok? && StringAt(s, j).end == j + |Spelled(name)|
  {
    hide Meaning, UnitsText, LenientUnits, StringAt, Stands;
    if name.StringSource? {
      SpellingReads(s, j, name.units);
    } else {
      OpenReads(s, j, name.units);
    }
  }

  lemma {:induction false} DefectOf(s: string, i: nat) returns (d: Defect)
    requires ValueAt(s, i).Fail?
    ensures Fails(s, i, d, ValueAt(s, i).ep)
    decreases |s| - i, 1
  {
    hide HasAt, ItemsFail, MembersFail, ItemsAt, MembersAt, Skipped, BlankAt, NumberAt;
    if At(s, i) == '[' {
      BracketReads(s, i);
      SkippedTwice(s, i + 1);
      var r := ItemsDefectOf(s, i + 1);
      d := InArray(r);
    } else if At(s, i) == '{' {
      BracketReads(s, i);
      SkippedTwice(s, i + 1);
      var r := MembersDefectOf(s, i + 1);
      d := InObject(r);
    } else {
      d := NoValue;
    }
  }

  lemma {:induction false} ItemsDefectOf(s: string, i: nat) returns (r: ItemsDefect)
    requires ItemsAt(s, Skipped(s, i)).Fail?
    ensures ItemsFail(s, i, r, ItemsAt(s, Skipped(s, i)).ep)
    ensures r.BadItem? ==> Skipped(s, i) == i + |r.before|
    decreases |s| - i, 2
  {
    hide Fails, BlankAt, ItemAt, ItemEnd, ValueAt;
    if ValueAt(s, Skipped(s, i)).Fail? {
      var before := BlankFrom(s, i);
      var inner := DefectOf(s, i + |before|);
      hide Skipped;
      r := BadItem(before, inner);
    } else {
      var it := ItemFrom(s, i);
      var e := ItemEnd(i, it);
      hide Skipped;
      if At(s, e) == ',' {
        CommaInside(s, i, e);
        var rest := ItemsDefectOf(s, e + 1);
        r := NextItem(it, rest);
      } else {
        r := NoComma(it);
      }
    }
  }

  lemma CommaInside(s: string, i: nat, e: nat)
    requires At(s, e) == ',' || At(s, e) == ':'
    ensures e < |s|
  {
  }

  lemma {:induction false} MembersDefectOf(s: string, i: nat) returns (r: MembersDefect)
    requires MembersAt(s, Skipped(s, i)).Fail?
    ensures MembersFail(s, i, r, MembersAt(s, Skipped(s, i)).ep)
    ensures r.NoName? ==> Skipped(s, i) == MembersAt(s, Skipped(s, i)).ep
    decreases |s| - i, 2
  {
    hide Fails, BlankAt, ItemAt, ItemEnd, ValueAt, BodyAt, SourceAt, Spelling, MembersAt;
    MembersAtFails(s, Skipped(s, i));
    if StringAt(s, Skipped(s, i)).Fail? {
      var front := BlankFrom(s, i);
      r := NoName(front);
    } else {
      var front, name, back := NameFrom(s, i);
      r := ValueDefectOf(s, i, front, name, back);
    }
  }

  lemma {:induction false} ValueDefectOf(s: string, i: nat, front: string, name: Source, back: string)
    returns (r: MembersDefect)
    requires StringAt(s, Skipped(s, i)).Ok? && MembersAt(s, Skipped(s, i)).Fail?
    requires BlankAt(s, i, front) && (name.StringSource? || name.OpenString?) && SourceAt(s, i + |front|, name)
    requires BlankAt(s, i + |front| + |Spelled(name)|, back)
    requires i + |front| + |Spelled(name)| + |back| == Skipped(s, StringAt(s, Skipped(s, i)).end)
    ensures MembersFail(s, i, r, MembersAt(s, Skipped(s, i)).ep) && !r.NoName?
    decreases |s| - i, 1
  {
    hide Fails, BlankAt, ItemAt, ItemEnd, ValueAt, StringAt, SourceAt, Skipped, Spelling, MembersAt;
    MembersAtFails(s, Skipped(s, i));
    var c := i + |front| + |Spelled(name)| + |back|;
    if At(s, c) != ':' {
      r := NoColon(front, name, back);
    } else {
      ClosedName(s, i + |front|, name, back);
      CommaInside(s, i, c);
      r := AfterColon(s, i, front, name.units, back, c);
    }
  }

  lemma {:induction false} AfterColon(s: string, i: nat, front: string, name: seq<Unit>, back: string, c: nat)
    returns (r: MembersDefect)
    requires StringAt(s, Skipped(s, i)).Ok? && MembersAt(s, Skipped(s, i)).Fail?
    requires NameAt(s, i, front, name, back) && c == NameEnd(i, front, name, back) && At(s, c) == ':'
    requires c == Skipped(s, StringAt(s, Skipped(s, i)).end) && i < |s|
    ensures MembersFail(s, i, r, MembersAt(s, Skipped(s, i)).ep) && !r.NoName?
    decreases |s| - i, 0
  {
    hide Fails, BlankAt, ItemAt, ItemEnd, ValueAt, StringAt, NameAt, NameEnd, Skipped, MembersAt;
    MembersAtFails(s, Skipped(s, i));
    BehindName(i, front, name, back);
    if ValueAt(s, Skipped(s, c + 1)).Fail? {
      var before := BlankFrom(s, c + 1);
      var inner := DefectOf(s, c + 1 + |before|);
      r := BadValue(front, name, back, before, inner);
    } else {
      var it := ItemFrom(s, c + 1);
      var m := Named(front, name, back, it);
      var e := ItemEnd(c + 1, it);
      if At(s, e) == ',' {
        CommaInside(s, i, e);
        var rest := MembersDefectOf(s, e + 1);
        r := NextMember(m, rest);
      } else {
        r := NoBrace(m);
      }
    }
  }

  lemma BehindName(i: nat, front: string, name: seq<Unit>, back: string)
    ensures NameEnd(i, front, name, back) >= i
  {
  }

  /** A name with a colon behind it is closed. */
  lemma ClosedName(s: string, j: nat, name: Source, back: string)
    requires (name.StringSource? || name.OpenString?) && SourceAt(s, j, name)
    requires BlankAt(s, j + |Spelled(name)|, back) && At(s, j + |Spelled(name)| + |back|) == ':'
    ensures name.StringSource?
  {
    hide Lenient, Spelled;
    if back != "" {
      StandsChar(s, j + |Spelled(name)|, back);
    }
  }

  // ---------- the main results ----------

  /** A value is refused, with the error at ep, exactly when some way leads to an error there. */
  lemma FailsExactly(s: string, i: nat, ep: nat)
    ensures ValueAt(s, i) == Fail(ep) <==> exists d :: Fails(s, i, d, ep)
  {
    hide Fails, ValueAt;
    if ValueAt(s, i) == Fail(ep) {
      var d := DefectOf(s, i);
    }
    if d :| Fails(s, i, d, ep) {
      FailsRead(s, i, d, ep);
    }
  }

  /** A text of the grammar between white space, and something else behind it at ep. */
  ghost predicate MoreBehind(s: string, ep: nat) {
    At(s, ep) != '\0' && exists v, e :: DocumentAs(s, false, v, e) && BlankTo(s, e, ep)
  }

  lemma BehindExactly(s: string, ep: nat)
    ensures MoreBehind(s, ep) <==>
            At(s, ep) != '\0' && ValueAt(s, Skipped(s, 0)).Ok? && ep == Skipped(s, ValueAt(s, Skipped(s, 0)).end)
  {
    hide ValueAt, DocumentAs, BlankTo, Skipped;
    var r := Parsed(s, false);
    if r.Ok? {
      ParsedExactly(s, false, r.value, r.end);
      SkippedExactly(s, r.end, ep);
    }
    if MoreBehind(s, ep) {
      var v, e :| DocumentAs(s, false, v, e) && BlankTo(s, e, ep);
      ParsedExactly(s, false, v, e);
      SkippedExactly(s, e, ep);
    }
  }

  ghost predicate FailsInside(s: string, ep: nat) {
    exists i, d :: BlankTo(s, 0, i) && Fails(s, i, d, ep)
  }

  lemma InsideExactly(s: string, ep: nat)
    ensures FailsInside(s, ep) <==> ValueAt(s, Skipped(s, 0)) == Fail(ep)
  {
    hide ValueAt, BlankTo, Skipped, Fails;
    var i := Skipped(s, 0);
    SkippedExactly(s, 0, i);
    FailsExactly(s, i, ep);
    if ValueAt(s, i) == Fail(ep) {
      var d :| Fails(s, i, d, ep);
      assert BlankTo(s, 0, i) && Fails(s, i, d, ep);
    }
    if FailsInside(s, ep) {
      var j, d :| BlankTo(s, 0, j) && Fails(s, j, d, ep);
      SkippedExactly(s, 0, j);
      FailsRead(s, j, d, ep);
    }
  }

  /** A document is refused for an error in its value or, where the end is checked, for what stands
      behind the value, and at no other position. */
  lemma ParsedFailsExactly(s: string, requireEnd: bool, ep: nat)
    ensures Parsed(s, requireEnd) == Fail(ep) <==> FailsInside(s, ep) || (requireEnd && MoreBehind(s, ep))
  {
    hide ValueAt, Skipped, FailsInside, MoreBehind;
    InsideExactly(s, ep);
    BehindExactly(s, ep);
  }
}
