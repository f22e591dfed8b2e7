/** The parsing functions of cJSON.c as loops over a cursor. Each reads what JsonGrammar says
    stands at its position. */
module JsonParser {
  import opened CStrings
  import opened JsonTree
  import opened JsonGrammar

  method Skip(s: string, i: nat) returns (j: nat)
    ensures j == Skipped(s, i)
  {
    j := i;
    while At(s, j) != '\0' && At(s, j) as int <= 32
      invariant Skipped(s, j) == Skipped(s, i)
      decreases |s| - j
    {
      j := j + 1;
    }
  }

  /** The loop over decimal digits. */
  method ReadNumberDigits(s: string, i: nat, n: real) returns (j: nat, m: real)
    ensures j == DigitsEnd(s, i) && m == DigitsRead(s, i, n)
  {
    j, m := i, n;
    while IsDigit(At(s, j))
      invariant DigitsEnd(s, j) == DigitsEnd(s, i) && DigitsRead(s, j, m) == DigitsRead(s, i, n)
      decreases |s| - j
    {
      m := m * 10.0 + DigitValue(At(s, j)) as real;
      j := j + 1;
    }
  }

  /** The exponent of a number, with its sign. */
  method ParseExponent(s: string, i: nat) returns (j: nat, e: int)
    ensures (j, e) == ExponentPart(s, i)
  {
    var subscale: nat, signsubscale := 0, 1;
    j := i;
    if At(s, j) == 'e' || At(s, j) == 'E' {
      j := j + 1;
      if At(s, j) == '+' {
        j := j + 1;
      } else if At(s, j) == '-' {
        signsubscale := -1;
        j := j + 1;
      }
      ghost var start := j;
      while IsDigit(At(s, j))
        invariant DigitsEnd(s, j) == DigitsEnd(s, start)
        invariant ExponentRead(s, j, subscale) == ExponentRead(s, start, 0)
        decreases |s| - j
      {
        subscale := subscale * 10 + DigitValue(At(s, j));
        j := j + 1;
      }
    }
    e := if signsubscale == -1 then -(subscale as int) else subscale as int;
  }

  method ParseNumber(s: string, i: nat) returns (r: Result<Json>)
    ensures r == NumberAt(s, i)
  {
    hide Scaled, ExponentPart, DigitsEnd, DigitsRead, Truncated;
    var n, sign, scale: int := 0.0, 1.0, 0;
    var num := i;
    if At(s, num) == '-' {
      sign := -1.0;
      num := num + 1;
    }
    ghost var integer := IntegerPart(s, num);
    if At(s, num) == '0' {
      num := num + 1;
    }
    if '1' <= At(s, num) <= '9' {
      num, n := ReadNumberDigits(s, num, n);
    }
    assert (num, n) == integer;
    hide IntegerPart;
    ghost var fraction := FractionPart(s, num, n);
    if At(s, num) == '.' && IsDigit(At(s, num + 1)) {
      var from := num + 1;
      num, n := ReadNumberDigits(s, from, n);
      scale := from as int - num;
    }
    assert (num, n, scale) == fraction;
    hide FractionPart;
    var end, e := ParseExponent(s, num);
    var d := Scaled(sign, n, scale + e);
    r := Ok(Number(Truncated(d), d), end);
  }

  /** The copying pass of parse_string; the length it reserves beforehand is not needed here,
      where the output grows. */
  method ParseString(s: string, i: nat) returns (r: Result<string>)
    ensures r == StringAt(s, i)
  {
    hide Escape, BodyAt;
    if At(s, i) != '"' {
      return Fail(i);
    }
    var ptr, out := i + 1, "";
    assert out + BodyAt(s, ptr).value == BodyAt(s, ptr).value;
    while At(s, ptr) != '"' && At(s, ptr) != '\0'
      invariant BodyAt(s, i + 1) == Ok(out + BodyAt(s, ptr).value, BodyAt(s, ptr).end)
      decreases |s| - ptr
    {
      BodyStep(s, ptr, out);
      if At(s, ptr) != '\\' {
        out := out + [At(s, ptr)];
        ptr := ptr + 1;
      } else {
        var (chars, next) := Escape(s, ptr + 1);
        out := out + chars;
        ptr := next;
      }
    }
    BodyEnd(s, ptr, out);
    if At(s, ptr) == '"' {
      ptr := ptr + 1;
    }
    r := Ok(out, ptr);
  }

  lemma BodyEnd(s: string, i: nat, out: string)
    requires At(s, i) == '"' || At(s, i) == '\0'
    ensures out + BodyAt(s, i).value == out
    ensures BodyAt(s, i).end == if At(s, i) == '"' then i + 1 else i
  {
  }

  lemma BodyStep(s: string, i: nat, out: string)
    requires At(s, i) != '"' && At(s, i) != '\0'
    ensures At(s, i) != '\\' ==>
      out + BodyAt(s, i).value == out + [At(s, i)] + BodyAt(s, i + 1).value && BodyAt(s, i).end == BodyAt(s, i + 1).end
    ensures At(s, i) == '\\' ==>
      var (chars, next) := Escape(s, i + 1);
      out + BodyAt(s, i).value == out + chars + BodyAt(s, next).value && BodyAt(s, i).end == BodyAt(s, next).end
  {
    hide Escape;
  }

  /** What the loop of parse_array returns from position j, with the items read so far. */
  ghost function MoreItems(s: string, j: nat, items: seq<Json>): Result<seq<Json>> {
    if At(s, j) == ',' then
      match ItemsAt(s, Skipped(s, j + 1))
      case Fail(ep) => Fail(ep)
      case Ok(rest, last) => Ok(items + rest, last)
    else if At(s, j) == ']' then Ok(items, j + 1)
    else Fail(j)
  }

  lemma NextItem(s: string, j: nat, items: seq<Json>, v: Json, end: nat)
    requires At(s, j) == ',' && ValueAt(s, Skipped(s, j + 1)) == Ok(v, end)
    ensures MoreItems(s, j, items) == MoreItems(s, Skipped(s, end), items + [v])
  {
    hide ValueAt, Skipped;
    var k := Skipped(s, end);
    if At(s, k) == ',' && ItemsAt(s, Skipped(s, k + 1)).Ok? {
      var rest := ItemsAt(s, Skipped(s, k + 1)).value;
      assert items + ([v] + rest) == items + [v] + rest;
    }
  }

  method ParseValue(s: string, i: nat) returns (r: Result<Json>)
    ensures r == ValueAt(s, i)
    decreases |s| - i, 1
  {
    hide NumberAt, BodyAt;
    if HasAt(s, i, "null") { return Ok(Null, i + 4); }
    if HasAt(s, i, "false") { return Ok(False, i + 5); }
    if HasAt(s, i, "true") { return Ok(True, i + 4); }
    if At(s, i) == '"' {
      var t := ParseString(s, i);
      return Ok(String(Cut(t.value)), t.end);
    }
    if At(s, i) == '-' || IsDigit(At(s, i)) {
      r := ParseNumber(s, i);
      return;
    }
    if At(s, i) == '[' {
      r := ParseArray(s, i);
      return;
    }
    if At(s, i) == '{' {
      r := ParseObject(s, i);
      return;
    }
    return Fail(i);
  }

  method ParseArray(s: string, i: nat) returns (r: Result<Json>)
    requires At(s, i) == '['
    ensures r == ArrayAt(s, i)
    decreases |s| - i, 0
  {
    hide ValueAt;
    var value := Skip(s, i + 1);
    if At(s, value) == ']' {
      return Ok(Array([]), value + 1);
    }
    value := Skip(s, value);
    ghost var start := value;
    var child := ParseValue(s, value);
    if child.Fail? {
      return Fail(child.ep);
    }
    var items := [child.value];
    value := Skip(s, child.end);
    while At(s, value) == ','
      invariant value > i
      invariant ItemsAt(s, start) == MoreItems(s, value, items)
      decreases |s| - value
    {
      var next := Skip(s, value + 1);
      child := ParseValue(s, next);
      if child.Fail? {
        return Fail(child.ep);
      }
      NextItem(s, value, items, child.value, child.end);
      items := items + [child.value];
      value := Skip(s, child.end);
    }
    if At(s, value) == ']' {
      return Ok(Array(items), value + 1);
    }
    return Fail(value);
  }

  ghost function MoreMembers(s: string, j: nat, members: seq<Member>): Result<seq<Member>> {
    if At(s, j) == ',' then
      match MembersAt(s, Skipped(s, j + 1))
      case Fail(ep) => Fail(ep)
      case Ok(rest, last) => Ok(members + rest, last)
    else if At(s, j) == '}' then Ok(members, j + 1)
    else Fail(j)
  }

  /** One member, read from its name to the position after its value. */
  ghost function MemberAt(s: string, i: nat): Result<Member> {
    match StringAt(s, i)
    case Fail(ep) => Fail(ep)
    case Ok(name, k) =>
      var c := Skipped(s, k);
      if At(s, c) != ':' then Fail(c)
      else
        match ValueAt(s, Skipped(s, c + 1))
        case Fail(ep) => Fail(ep)
        case Ok(v, end) => Ok(Member(Cut(name), v), Skipped(s, end))
  }

  lemma FirstMember(s: string, i: nat)
    ensures MembersAt(s, i) == match MemberAt(s, i)
                               case Fail(ep) => Fail(ep)
                               case Ok(m, j) => MoreMembers(s, j, [m])
  {
    hide ValueAt, StringAt, Skipped;
  }

  lemma NextMember(s: string, j: nat, members: seq<Member>)
    requires At(s, j) == ','
    ensures MoreMembers(s, j, members) == match MemberAt(s, Skipped(s, j + 1))
                                          case Fail(ep) => Fail(ep)
                                          case Ok(m, k) => MoreMembers(s, k, members + [m])
  {
    hide MembersAt, MemberAt, Skipped;
    FirstMember(s, Skipped(s, j + 1));
    match MemberAt(s, Skipped(s, j + 1))
    case Fail(ep) =>
    case Ok(m, k) =>
      if At(s, k) == ',' && MembersAt(s, Skipped(s, k + 1)).Ok? {
        var rest := MembersAt(s, Skipped(s, k + 1)).value;
        assert members + ([m] + rest) == members + [m] + rest;
      }
  }

  /** The part of parse_object that is written out twice: name, colon, value. */
  method ParseMember(s: string, i: nat) returns (r: Result<Member>)
    ensures r == MemberAt(s, i) && (r.Ok? ==> r.end > i)
    decreases |s| - i, 2
  {
    hide ValueAt, StringAt;
    var name := ParseString(s, i);
    if name.Fail? {
      return Fail(name.ep);
    }
    var value := Skip(s, name.end);
    if At(s, value) != ':' {
      return Fail(value);
    }
    value := Skip(s, value + 1);
    var child := ParseValue(s, value);
    if child.Fail? {
      return Fail(child.ep);
    }
    value := Skip(s, child.end);
    return Ok(Member(Cut(name.value), child.value), value);
  }

  method ParseObject(s: string, i: nat) returns (r: Result<Json>)
    requires At(s, i) == '{'
    ensures r == ObjectAt(s, i)
    decreases |s| - i, 0
  {
    hide MembersAt, MemberAt;
    var value := Skip(s, i + 1);
    if At(s, value) == '}' {
      return Ok(Object([]), value + 1);
    }
    value := Skip(s, value);
    FirstMember(s, value);
    ghost var start := value;
    var child := ParseMember(s, value);
    if child.Fail? {
      return Fail(child.ep);
    }
    var members := [child.value];
    value := child.end;
    while At(s, value) == ','
      invariant value > i
      invariant MembersAt(s, start) == MoreMembers(s, value, members)
      decreases |s| - value
    {
      NextMember(s, value, members);
      var next := Skip(s, value + 1);
      child := ParseMember(s, next);
      if child.Fail? {
        return Fail(child.ep);
      }
      members := members + [child.value];
      value := child.end;
    }
    if At(s, value) == '}' {
      return Ok(Object(members), value + 1);
    }
    return Fail(value);
  }

  /** cJSON_ParseWithOpts. */
  method ParseWithOpts(text: string, requireEnd: bool) returns (r: Result<Json>)
    ensures r == Parsed(text, requireEnd)
  {
    hide ValueAt;
    var start := Skip(text, 0);
    r := ParseValue(text, start);
    if r.Ok? && requireEnd {
      var end := Skip(text, r.end);
      if At(text, end) != '\0' {
        return Fail(end);
      }
      return Ok(r.value, end);
    }
  }
}
