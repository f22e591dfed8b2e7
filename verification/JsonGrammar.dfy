/** What the parser of cJSON.c makes of a text: for every position, the value read there and
    the position after it, or the position of the error. */
module JsonGrammar {
  import opened CStrings
  import opened JsonTree

  /** The result of a parsing function: failure with the error position ep, or what was read
      and where it ends. */
  datatype Result<+T> = Fail(ep: nat) | Ok(value: T, end: nat)

  function Skipped(s: string, i: nat): (j: nat)
    ensures j >= i
    decreases |s| - i
  {
    if At(s, i) != '\0' && At(s, i) as int <= 32 then Skipped(s, i + 1) else i
  }

  // ---------- numbers ----------

  predicate IsDigit(c: char) { '0' <= c <= '9' }

  function DigitValue(c: char): (n: nat)
    requires IsDigit(c)
    ensures n < 10
  {
    c as int - '0' as int
  }

  function DigitsEnd(s: string, i: nat): (j: nat)
    ensures j >= i
    decreases |s| - i
  {
    if IsDigit(At(s, i)) then DigitsEnd(s, i + 1) else i
  }

  /** The accumulator after reading digits from i on, starting from n. */
  function DigitsRead(s: string, i: nat, n: real): real
    decreases |s| - i
  {
    if IsDigit(At(s, i)) then DigitsRead(s, i + 1, n * 10.0 + DigitValue(At(s, i)) as real) else n
  }

  function ExponentRead(s: string, i: nat, n: nat): nat
    decreases |s| - i
  {
    if IsDigit(At(s, i)) then ExponentRead(s, i + 1, n * 10 + DigitValue(At(s, i))) else n
  }

  function Pow10(e: int): real
    decreases if e < 0 then -e else e
  {
    if e == 0 then 1.0 else if e > 0 then 10.0 * Pow10(e - 1) else Pow10(e + 1) / 10.0
  }

  /** The cast from double to int, which cuts off the fraction. */
  function Truncated(d: real): int {
    if d >= 0.0 then d.Floor else -((-d).Floor)
  }

  /** The integer part: its end and its value; a leading zero is stepped over. */
  function IntegerPart(s: string, i: nat): (r: (nat, real))
    ensures r.0 >= i
  {
    var a := if At(s, i) == '0' then i + 1 else i;
    if '1' <= At(s, a) <= '9' then (DigitsEnd(s, a), DigitsRead(s, a, 0.0)) else (a, 0.0)
  }

  /** The fraction: its end, the value extended by its digits, and the negative scale. */
  function FractionPart(s: string, i: nat, n: real): (r: (nat, real, int))
    ensures r.0 >= i
  {
    if At(s, i) == '.' && IsDigit(At(s, i + 1)) then
      (DigitsEnd(s, i + 1), DigitsRead(s, i + 1, n), i + 1 - DigitsEnd(s, i + 1))
    else (i, n, 0)
  }

  /** The exponent: its end and its value. */
  function ExponentPart(s: string, i: nat): (r: (nat, int))
    ensures r.0 >= i
  {
    if At(s, i) == 'e' || At(s, i) == 'E' then
      var signed := At(s, i + 1) == '+' || At(s, i + 1) == '-';
      var a := if signed then i + 2 else i + 1;
      var e := ExponentRead(s, a, 0);
      (DigitsEnd(s, a), if At(s, i + 1) == '-' then -(e as int) else e as int)
    else (i, 0)
  }

  /** The value of a number from its sign, its digits and its power of ten. */
  function Scaled(sign: real, n: real, e: int): real { sign * n * Pow10(e) }

  function NumberAt(s: string, i: nat): (r: Result<Json>)
    ensures r.Ok? && r.end >= i
    ensures At(s, i) == '-' || IsDigit(At(s, i)) ==> r.end > i
  {
    var sign := if At(s, i) == '-' then -1.0 else 1.0;
    var (a, n) := IntegerPart(s, if At(s, i) == '-' then i + 1 else i);
    var (b, m, scale) := FractionPart(s, a, n);
    var (c, e) := ExponentPart(s, b);
    var d := Scaled(sign, m, scale + e);
    Ok(Number(Truncated(d), d), c)
  }

  // ---------- strings ----------

  function HexValue(c: char): int {
    if '0' <= c <= '9' then c as int - '0' as int
    else if 'A' <= c <= 'F' then 10 + (c as int - 'A' as int)
    else if 'a' <= c <= 'f' then 10 + (c as int - 'a' as int)
    else -1
  }

  /** parse_hex4: zero unless there are four hexadecimal digits. */
  function Hex4(s: string, i: nat): (h: nat)
    ensures h < 0x1_0000
  {
    var a, b, c, d := HexValue(At(s, i)), HexValue(At(s, i + 1)), HexValue(At(s, i + 2)), HexValue(At(s, i + 3));
    if a < 0 || b < 0 || c < 0 || d < 0 then 0 else ((a * 16 + b) * 16 + c) * 16 + d
  }

  /** The UTF-8 encoding of a code point. */
  function Utf8(uc: nat): string
    requires uc < 0x11_0000
  {
    if uc < 0x80 then [uc as char]
    else if uc < 0x800 then [(0xC0 + uc / 64) as char, (0x80 + uc % 64) as char]
    else if uc < 0x1_0000 then [(0xE0 + uc / 4096) as char, (0x80 + uc / 64 % 64) as char, (0x80 + uc % 64) as char]
    else [(0xF0 + uc / 262144) as char, (0x80 + uc / 4096 % 64) as char, (0x80 + uc / 64 % 64) as char,
          (0x80 + uc % 64) as char]
  }

  /** The escape whose letter u is at i: what it stands for and where reading goes on. Half a
      surrogate pair, and the code zero, stand for nothing. */
  function UnicodeEscape(s: string, i: nat): (r: (string, nat))
    ensures r.1 > i
  {
    var uc := Hex4(s, i + 1);
    if 0xDC00 <= uc <= 0xDFFF || uc == 0 then ("", i + 5)
    else if 0xD800 <= uc <= 0xDBFF then
      if At(s, i + 5) != '\\' || At(s, i + 6) != 'u' then ("", i + 5)
      else
        var uc2 := Hex4(s, i + 7);
        if uc2 < 0xDC00 || uc2 > 0xDFFF then ("", i + 11)
        else (Utf8(0x1_0000 + (uc - 0xD800) * 1024 + (uc2 - 0xDC00)), i + 11)
    else (Utf8(uc), i + 5)
  }

  /** The escape whose letter is at i. */
  function Escape(s: string, i: nat): (r: (string, nat))
    ensures r.1 > i
  {
    var c := At(s, i);
    if c == 'b' then ([BACKSPACE], i + 1)
    else if c == 'f' then ([FORM_FEED], i + 1)
    else if c == 'n' then (['\n'], i + 1)
    else if c == 'r' then (['\r'], i + 1)
    else if c == 't' then (['\t'], i + 1)
    else if c == 'u' then UnicodeEscape(s, i)
    else ([c], i + 1)
  }

  /** The body of a string literal from i to its closing quote, or to the end of the text. */
  function BodyAt(s: string, i: nat): (r: Result<string>)
    ensures r.Ok? && r.end >= i
    decreases |s| - i
  {
    var c := At(s, i);
    if c == '"' then Ok("", i + 1)
    else if c == '\0' then Ok("", i)
    else if c != '\\' then
      var rest := BodyAt(s, i + 1);
      Ok([c] + rest.value, rest.end)
    else
      var (out, j) := Escape(s, i + 1);
      var rest := BodyAt(s, j);
      Ok(out + rest.value, rest.end)
  }

  function StringAt(s: string, i: nat): (r: Result<string>)
    ensures r.Ok? ==> r.end > i
  {
    if At(s, i) != '"' then Fail(i) else BodyAt(s, i + 1)
  }

  /** A C string ends at its first zero character. */
  function Cut(s: string): CString {
    if s == "" || s[0] == '\0' then "" else [s[0]] + Cut(s[1..])
  }

  // ---------- values ----------

  function ValueAt(s: string, i: nat): (r: Result<Json>)
    ensures r.Ok? ==> r.end > i
    decreases |s| - i, 1
  {
    if HasAt(s, i, "null") then Ok(Null, i + 4)
    else if HasAt(s, i, "false") then Ok(False, i + 5)
    else if HasAt(s, i, "true") then Ok(True, i + 4)
    else if At(s, i) == '"' then
      var r := StringAt(s, i);
      Ok(String(Cut(r.value)), r.end)
    else if At(s, i) == '-' || IsDigit(At(s, i)) then NumberAt(s, i)
    else if At(s, i) == '[' then ArrayAt(s, i)
    else if At(s, i) == '{' then ObjectAt(s, i)
    else Fail(i)
  }

  function ArrayAt(s: string, i: nat): (r: Result<Json>)
    requires At(s, i) == '['
    ensures r.Ok? ==> r.end > i
    decreases |s| - i, 0
  {
    var j := Skipped(s, i + 1);
    if At(s, j) == ']' then Ok(Array([]), j + 1)
    else
      match ItemsAt(s, Skipped(s, j))
      case Fail(ep) => Fail(ep)
      case Ok(items, end) => Ok(Array(items), end)
  }

  /** One or more values with commas between them, and the closing bracket. */
  function ItemsAt(s: string, i: nat): (r: Result<seq<Json>>)
    ensures r.Ok? ==> r.end > i
    decreases |s| - i, 2
  {
    match ValueAt(s, i)
    case Fail(ep) => Fail(ep)
    case Ok(v, end) =>
      var j := Skipped(s, end);
      if At(s, j) == ',' then
        match ItemsAt(s, Skipped(s, j + 1))
        case Fail(ep) => Fail(ep)
        case Ok(rest, last) => Ok([v] + rest, last)
      else if At(s, j) == ']' then Ok([v], j + 1)
      else Fail(j)
  }

  function ObjectAt(s: string, i: nat): (r: Result<Json>)
    requires At(s, i) == '{'
    ensures r.Ok? ==> r.end > i
    decreases |s| - i, 0
  {
    var j := Skipped(s, i + 1);
    if At(s, j) == '}' then Ok(Object([]), j + 1)
    else
      match MembersAt(s, Skipped(s, j))
      case Fail(ep) => Fail(ep)
      case Ok(members, end) => Ok(Object(members), end)
  }

  function MembersAt(s: string, i: nat): (r: Result<seq<Member>>)
    ensures r.Ok? ==> r.end > i
    decreases |s| - i, 1
  {
    match StringAt(s, i)
    case Fail(ep) => Fail(ep)
    case Ok(name, k) =>
      var c := Skipped(s, k);
      if At(s, c) != ':' then Fail(c)
      else
        match ValueAt(s, Skipped(s, c + 1))
        case Fail(ep) => Fail(ep)
        case Ok(v, end) =>
          var j := Skipped(s, end);
          if At(s, j) == ',' then
            match MembersAt(s, Skipped(s, j + 1))
            case Fail(ep) => Fail(ep)
            case Ok(rest, last) => Ok([Member(Cut(name), v)] + rest, last)
          else if At(s, j) == '}' then Ok([Member(Cut(name), v)], j + 1)
          else Fail(j)
  }

  /** cJSON_ParseWithOpts on a whole text. */
  function Parsed(s: string, requireEnd: bool): Result<Json> {
    match ValueAt(s, Skipped(s, 0))
    case Fail(ep) => Fail(ep)
    case Ok(v, end) =>
      if !requireEnd then Ok(v, end)
      else if At(s, Skipped(s, end)) != '\0' then Fail(Skipped(s, end))
      else Ok(v, Skipped(s, end))
  }
}
