/** The texts that the parser of cJSON.c accepts, described without it, and among them the texts of
    RFC 8259: any layout, every spelling of a string and of a number, and the tree each denotes. */
module JsonSyntax {
  import opened CStrings
  import opened JsonTree
  import opened JsonGrammar
  import opened JsonRound
  import opened JsonNumber

  // ---------- strings ----------

  /** One spelled character of a string: itself, a backslash and a letter, a backslash, u and four
      characters, or two of these for a surrogate pair. */
  datatype Unit =
    | Plain(c: char)
    | Letter(c: char)
    | Code(h: string)
    | Pair(h: string, l: string)

  predicate FourHex(h: string) { |h| == 4 && forall k :: 0 <= k < 4 ==> HexValue(h[k]) >= 0 }

  /** The number that hexadecimal digits denote. */
  function HexNumber(h: string): int {
    if h == "" then 0 else 16 * HexNumber(h[..|h| - 1]) + HexValue(h[|h| - 1])
  }

  /** The two halves of a surrogate pair. */
  predicate High(h: string) { FourHex(h) && 0xD800 <= HexNumber(h) <= 0xDBFF }

  predicate Low(h: string) { FourHex(h) && 0xDC00 <= HexNumber(h) <= 0xDFFF }

  /** A code point other than zero that is written with four digits. */
  predicate Scalar(h: string) { FourHex(h) && HexNumber(h) > 0 && !High(h) && !Low(h) }

  /** What the parser accepts: any character behind a backslash, any four behind u. */
  predicate LenientUnit(u: Unit) {
    match u
    case Plain(c) => c != '\0' && c != '"' && c != '\\'
    case Letter(c) => c != 'u'
    case Code(h) => |h| == 4
    case Pair(h, l) => High(h) && |l| == 4
  }

  /** The first half of a pair takes what follows as the second. */
  predicate LenientUnits(us: seq<Unit>) {
    us == [] || (
      && LenientUnit(us[0]) && LenientUnits(us[1..])
      && (us[0].Code? && High(us[0].h) && us[1..] != [] ==> us[1].Plain? || us[1].Letter?))
  }

  /** What RFC 8259 allows, except the code zero, which ends a C string, and half a pair; control
      characters are allowed as they are. */
  predicate ProperUnit(u: Unit) {
    match u
    case Plain(c) => c != '\0' && c != '"' && c != '\\'
    case Letter(c) => c in "\"\\/bfnrt"
    case Code(h) => Scalar(h)
    case Pair(h, l) => High(h) && Low(l)
  }

  predicate ProperUnits(us: seq<Unit>) { forall k :: 0 <= k < |us| ==> ProperUnit(us[k]) }

  function UnitText(u: Unit): string {
    match u
    case Plain(c) => [c]
    case Letter(c) => "\\" + [c]
    case Code(h) => "\\" + ("u" + h)
    case Pair(h, l) => "\\" + ("u" + (h + ("\\" + ("u" + l))))
  }

  /** The spelled characters and what follows them. */
  function UnitsText(us: seq<Unit>, z: string): string {
    if us == [] then z else UnitText(us[0]) + UnitsText(us[1..], z)
  }

  function LetterMeaning(c: char): char {
    if c == 'b' then BACKSPACE else if c == 'f' then FORM_FEED else if c == 'n' then '\n'
    else if c == 'r' then '\r' else if c == 't' then '\t' else c
  }

  lemma HexUnfold(h: string)
    requires |h| == 4
    ensures HexNumber(h) == ((HexValue(h[0]) * 16 + HexValue(h[1])) * 16 + HexValue(h[2])) * 16 + HexValue(h[3])
  {
    hide HexValue;
    HexSnoc(h);
    HexSnoc(h[..3]);
    HexSnoc(h[..2]);
    HexSnoc(h[..1]);
    assert h[..3][..2] == h[..2] && h[..2][..1] == h[..1] && h[..1][..0] == "";
    assert HexNumber("") == 0;
  }

  lemma HexSnoc(h: string)
    requires h != ""
    ensures HexNumber(h) == 16 * HexNumber(h[..|h| - 1]) + HexValue(h[|h| - 1])
  {
  }

  lemma HexDigit(c: char)
    ensures HexValue(c) < 16 && (HexValue(c) >= 0 ==> c != '\0')
  {
  }

  /** The value of a hexadecimal digit is its place among them, in either case. */
  lemma HexPlace(c: char, n: nat)
    requires n < 16
    ensures HexValue("0123456789abcdef"[n]) == n && HexValue("0123456789ABCDEF"[n]) == n
    ensures HexValue(c) >= 0 <==> c in "0123456789abcdef" || c in "0123456789ABCDEF"
  {
    if HexValue(c) >= 0 {
      assert c == "0123456789abcdef"[HexValue(c)] || c == "0123456789ABCDEF"[HexValue(c)];
    }
  }

  lemma HexBound(h: string)
    requires FourHex(h)
    ensures 0 <= HexNumber(h) < 0x1_0000
  {
    HexUnfold(h);
    HexDigit(h[0]);
    HexDigit(h[1]);
    HexDigit(h[2]);
    HexDigit(h[3]);
    hide HexValue, HexNumber;
  }

  /** The bytes in memory: the character, the UTF-8 encoding of the code point, or nothing. */
  function UnitMeaning(u: Unit): string {
    match u
    case Plain(c) => [c]
    case Letter(c) => [LetterMeaning(c)]
    case Code(h) => if Scalar(h) then (HexBound(h); Utf8(HexNumber(h))) else ""
    case Pair(h, l) =>
      if High(h) && Low(l) then Utf8(0x1_0000 + (HexNumber(h) - 0xD800) * 0x400 + (HexNumber(l) - 0xDC00)) else ""
  }

  function Meaning(us: seq<Unit>): string {
    if us == [] then "" else UnitMeaning(us[0]) + Meaning(us[1..])
  }

  function Spelling(us: seq<Unit>): string { "\"" + UnitsText(us, "\"") }

  /** The string a spelling denotes. */
  function Denotation(us: seq<Unit>): CString { Cut(Meaning(us)) }

  lemma {:induction false} ProperLenient(us: seq<Unit>)
    requires ProperUnits(us)
    ensures LenientUnits(us)
  {
    if us == [] {
    } else {
      assert ProperUnit(us[0]);
      ProperLenient(us[1..]);
    }
  }

  lemma Utf8NulFree(uc: nat)
    requires 0 < uc < 0x11_0000
    ensures NulFree(Utf8(uc))
  {
  }

  lemma UnitNulFree(u: Unit)
    requires ProperUnit(u)
    ensures NulFree(UnitMeaning(u))
  {
    match u
    case Plain(c) =>
    case Letter(c) =>
    case Code(h) =>
      HexBound(h);
      Utf8NulFree(HexNumber(h));
    case Pair(h, l) =>
      hide HexNumber;
      Utf8NulFree(0x1_0000 + (HexNumber(h) - 0xD800) * 0x400 + (HexNumber(l) - 0xDC00));
  }

  /** A string of RFC 8259 denotes all that its units mean. */
  lemma {:induction false} MeaningNulFree(us: seq<Unit>)
    requires ProperUnits(us)
    ensures NulFree(Meaning(us)) && Denotation(us) == Meaning(us)
    decreases |us|
  {
    hide UnitMeaning, ProperUnit;
    if us == [] {
    } else {
      assert ProperUnit(us[0]);
      UnitNulFree(us[0]);
      MeaningNulFree(us[1..]);
    }
    CutSame(Meaning(us));
  }

  // ---------- documents ----------

  /** A text: the layout is part of it. A string that is not closed goes to the end. */
  datatype Source =
    | NullWord
    | FalseWord
    | TrueWord
    | NumberSource(negative: bool, w: string, f: string, marker: string, e: string)
    | StringSource(units: seq<Unit>)
    | OpenString(units: seq<Unit>)
    | EmptyArray(inner: string)
    | ArraySource(items: seq<Item>)
    | EmptyObject(inner: string)
    | ObjectSource(members: seq<Named>)

  /** A value with the white space around it. */
  datatype Item = Item(before: string, value: Source, after: string)

  /** A member: white space, the name, white space, a colon, and its value. */
  datatype Named = Named(front: string, name: seq<Unit>, back: string, item: Item)

  /** Integer digits: one zero may lead, and there may be none. */
  predicate LenientInteger(w: string) {
    AllDigits(w) && (|w| >= 2 && w[0] == '0' ==> w[1] != '0')
  }

  /** The exponent may lack its digits. */
  predicate LenientMarker(marker: string, e: string) {
    marker in ["", "e", "E", "e+", "E+", "e-", "E-"] && AllDigits(e) && (marker == "" ==> e == "")
  }

  predicate LenientNumber(negative: bool, w: string, f: string, marker: string, e: string) {
    LenientInteger(w) && (negative || w != "") && AllDigits(f) && LenientMarker(marker, e)
  }

  ghost predicate Lenient(src: Source)
    decreases src
  {
    match src
    case NumberSource(negative, w, f, marker, e) => LenientNumber(negative, w, f, marker, e)
    case StringSource(us) => LenientUnits(us)
    case OpenString(us) => LenientUnits(us)
    case EmptyArray(w) => Blank(w)
    case ArraySource(items) => items != [] && LenientItems(items)
    case EmptyObject(w) => Blank(w)
    case ObjectSource(members) => members != [] && LenientMembers(members)
    case _ => true
  }

  ghost predicate LenientItems(items: seq<Item>)
    decreases items
  {
    items == [] ||
    (Blank(items[0].before) && Blank(items[0].after) && Lenient(items[0].value) && !items[0].value.OpenString? &&
     LenientItems(items[1..]))
  }

  ghost predicate LenientMembers(members: seq<Named>)
    decreases members
  {
    members == [] ||
    (Blank(members[0].front) && LenientUnits(members[0].name) && Blank(members[0].back) &&
     Blank(members[0].item.before) && Blank(members[0].item.after) && Lenient(members[0].item.value) &&
     !members[0].item.value.OpenString? && LenientMembers(members[1..]))
  }

  ghost predicate LenientItem(it: Item) {
    Blank(it.before) && Blank(it.after) && Lenient(it.value) && !it.value.OpenString?
  }

  ghost predicate LenientMember(m: Named) {
    Blank(m.front) && LenientUnits(m.name) && Blank(m.back) && LenientItem(m.item)
  }

  /** The texts of RFC 8259 among them. */
  ghost predicate Proper(src: Source)
    decreases src
  {
    match src
    case NumberSource(_, w, f, marker, e) =>
      w != "" && AllDigits(w) && (w == "0" || w[0] != '0') && AllDigits(f) && AllDigits(e) && Marker(marker, e)
    case StringSource(us) => ProperUnits(us)
    case OpenString(_) => false
    case EmptyArray(w) => Blank(w)
    case ArraySource(items) => items != [] && forall it :: it in items ==> ProperItem(it)
    case EmptyObject(w) => Blank(w)
    case ObjectSource(members) => members != [] && forall m :: m in members ==> ProperMember(m)
    case _ => true
  }

  ghost predicate ProperItem(it: Item)
    decreases it
  {
    Blank(it.before) && Blank(it.after) && Proper(it.value)
  }

  ghost predicate ProperMember(m: Named)
    decreases m
  {
    Blank(m.front) && ProperUnits(m.name) && Blank(m.back) && ProperItem(m.item)
  }

  lemma {:induction false} ProperIsLenient(src: Source)
    requires Proper(src)
    ensures Lenient(src)
    decreases src
  {
    hide LenientUnits, ProperUnits, Blank;
    match src
    case StringSource(us) => ProperLenient(us);
    case ArraySource(items) => ProperItemsLenient(items);
    case ObjectSource(members) => ProperMembersLenient(members);
    case _ =>
  }

  lemma {:induction false} ProperItemsLenient(items: seq<Item>)
    requires forall it :: it in items ==> ProperItem(it)
    ensures LenientItems(items)
    decreases items
  {
    hide Lenient, Blank;
    if items == [] {
    } else {
      assert ProperItem(items[0]);
      ProperIsLenient(items[0].value);
      ProperItemsLenient(items[1..]);
    }
  }

  lemma {:induction false} ProperMembersLenient(members: seq<Named>)
    requires forall m :: m in members ==> ProperMember(m)
    ensures LenientMembers(members)
    decreases members
  {
    hide Lenient, Blank, LenientUnits, ProperUnits;
    if members == [] {
    } else {
      assert ProperMember(members[0]) && ProperItem(members[0].item);
      ProperLenient(members[0].name);
      ProperIsLenient(members[0].item.value);
      ProperMembersLenient(members[1..]);
    }
  }

  /** The text itself. */
  function Spelled(src: Source): string
    decreases src
  {
    match src
    case NullWord => "null"
    case FalseWord => "false"
    case TrueWord => "true"
    case NumberSource(negative, w, f, marker, e) => NumberText(negative, w, f, marker, e)
    case StringSource(us) => Spelling(us)
    case OpenString(us) => "\"" + UnitsText(us, "")
    case EmptyArray(w) => "[" + (w + "]")
    case ArraySource(items) => "[" + ItemsSpelled(items)
    case EmptyObject(w) => "{" + (w + "}")
    case ObjectSource(members) => "{" + MembersSpelled(members)
  }

  /** Items with commas between them, and the closing bracket. */
  function ItemsSpelled(items: seq<Item>): string
    decreases items
  {
    if items == [] then "]"
    else
      items[0].before + (Spelled(items[0].value) + (items[0].after +
        if |items| == 1 then "]" else "," + ItemsSpelled(items[1..])))
  }

  function MembersSpelled(members: seq<Named>): string
    decreases members
  {
    if members == [] then "}"
    else
      var m := members[0];
      m.front + (Spelling(m.name) + (m.back + (":" + (m.item.before + (Spelled(m.item.value) + (m.item.after +
        if |members| == 1 then "}" else "," + MembersSpelled(members[1..])))))))
  }

  /** The tree a text denotes. */
  ghost function Denoted(src: Source): Json
    requires Lenient(src)
    decreases src
  {
    match src
    case NullWord => Null
    case FalseWord => False
    case TrueWord => True
    case NumberSource(negative, w, f, marker, e) =>
      var d := NumberValue(if negative then -1.0 else 1.0, w, f, Exponent(marker, e));
      Number(Truncated(d), d)
    case StringSource(us) => String(Denotation(us))
    case OpenString(us) => String(Denotation(us))
    case EmptyArray(_) => Array([])
    case ArraySource(items) => Array(DenotedItems(items))
    case EmptyObject(_) => Object([])
    case ObjectSource(members) => Object(DenotedMembers(members))
  }

  ghost function DenotedItems(items: seq<Item>): seq<Json>
    requires LenientItems(items)
    decreases items
  {
    if items == [] then [] else [Denoted(items[0].value)] + DenotedItems(items[1..])
  }

  ghost function DenotedMembers(members: seq<Named>): seq<Member>
    requires LenientMembers(members)
    decreases members
  {
    if members == [] then []
    else
      var m := members[0];
      [Member(Denotation(m.name), Denoted(m.item.value))] + DenotedMembers(members[1..])
  }

  // ---------- where a text ends ----------

  /** What stands at j cannot be taken for more of the number. */
  predicate NumberEnds(s: string, j: nat, w: string, f: string, marker: string, e: string) {
    if marker != "" then !IsDigit(At(s, j)) && (|marker| == 1 && e == "" ==> At(s, j) != '+' && At(s, j) != '-')
    else
      && At(s, j) != 'e' && At(s, j) != 'E'
      && if f != "" then !IsDigit(At(s, j))
         else
           && !(At(s, j) == '.' && IsDigit(At(s, j + 1)))
           && if w == "0" then At(s, j) == '0' || !IsDigit(At(s, j)) else !IsDigit(At(s, j))
  }

  /** A string that is not closed ends with the text. */
  predicate Ends(s: string, j: nat, src: Source) {
    match src
    case NumberSource(_, w, f, marker, e) => NumberEnds(s, j, w, f, marker, e)
    case OpenString(_) => At(s, j) == '\0'
    case _ => true
  }
}
