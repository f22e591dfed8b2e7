/** The trees of cJSON and the two layouts in which they are printed. */
module JsonTree {
  import opened CStrings

  datatype Json =
    | Null
    | False
    | True
    | Number(valueint: int, valuedouble: real)
    | String(valuestring: CString)
    | Array(items: seq<Json>)
    | Object(members: seq<Member>)

  datatype Member = Member(name: CString, value: Json)

  // ---------- numbers ----------

  function DigitChar(n: nat): char
    requires n < 10
  {
    (n + 48) as char
  }

  function Digits(n: nat): string {
    if n < 10 then [DigitChar(n)] else Digits(n / 10) + [DigitChar(n % 10)]
  }

  /** The conversion %d. */
  function Decimal(n: int): string {
    if n < 0 then "-" + Digits(-n) else Digits(n)
  }

  /** The trees whose numbers are all integers that an int holds. */
  ghost predicate Printable(v: Json) {
    match v
    case Number(n, d) => d == n as real && -0x8000_0000 <= n <= 0x7fff_ffff
    case Array(items) => forall i :: 0 <= i < |items| ==> Printable(items[i])
    case Object(members) => forall i :: 0 <= i < |members| ==> Printable(members[i].value)
    case _ => true
  }

  // ---------- strings ----------

  const BACKSPACE: char := '\U{8}'
  const FORM_FEED: char := '\U{C}'

  function HexChar(n: nat): char
    requires n < 16
  {
    if n < 10 then (n + 48) as char else (n + 87) as char
  }

  /** How print_string_ptr writes one character. */
  function Escaped(c: char): string {
    if c as int > 31 && c != '"' && c != '\\' then [c]
    else if c == '\\' then "\\\\"
    else if c == '"' then "\\\""
    else if c == BACKSPACE then "\\b"
    else if c == FORM_FEED then "\\f"
    else if c == '\n' then "\\n"
    else if c == '\r' then "\\r"
    else if c == '\t' then "\\t"
    else "\\u00" + [HexChar(c as int / 16), HexChar(c as int % 16)]
  }

  /** The characters of s escaped, and the closing quote. */
  function Body(s: string): string {
    if s == "" then "\"" else Escaped(s[0]) + Body(s[1..])
  }

  function Quoted(s: string): string { "\"" + Body(s) }

  // ---------- layout ----------

  function Tabs(n: int): string {
    if n <= 0 then "" else "\t" + Tabs(n - 1)
  }

  /** Text that only the formatted layout has. */
  function If(fmt: bool, t: string): string { if fmt then t else "" }

  /** What print_value writes at the given depth. */
  function Text(v: Json, depth: nat, fmt: bool): string
    decreases v
  {
    match v
    case Null => "null"
    case False => "false"
    case True => "true"
    case Number(n, _) => Decimal(n)
    case String(s) => Quoted(s)
    case Array(items) =>
      if items == [] then "[]" else "[" + ItemsText(items, depth + 1, fmt)
    case Object(members) =>
      if members == [] then "{" + (If(fmt, "\n" + Tabs(depth - 1)) + "}")
      else "{" + (If(fmt, "\n") + MembersText(members, depth + 1, fmt))
  }

  /** The items of an array from the first to the closing bracket. */
  function ItemsText(items: seq<Json>, depth: nat, fmt: bool): string
    requires items != []
    decreases items
  {
    Text(items[0], depth, fmt) +
    if |items| == 1 then "]" else "," + (If(fmt, " ") + ItemsText(items[1..], depth, fmt))
  }

  /** The members of an object, one more level in than the object, to the closing brace. */
  function MembersText(members: seq<Member>, depth: nat, fmt: bool): string
    requires members != []
    decreases members
  {
    If(fmt, Tabs(depth)) + (Quoted(members[0].name) + (":" + (If(fmt, "\t") +
      (Text(members[0].value, depth, fmt) +
        if |members| == 1 then If(fmt, "\n" + Tabs(depth - 1)) + "}"
        else "," + (If(fmt, "\n") + MembersText(members[1..], depth, fmt))))))
  }

  // ---------- printed text is a C string ----------

  predicate NulFree(t: string) { '\0' !in t }

  lemma {:induction false} NulFreeDigits(n: nat)
    ensures NulFree(Digits(n))
  {
    if n < 10 {
    } else {
      NulFreeDigits(n / 10);
    }
  }

  lemma {:induction false} TabsNulFree(n: int)
    ensures NulFree(Tabs(n))
    decreases n
  {
    if n <= 0 {
    } else {
      TabsNulFree(n - 1);
    }
  }

  lemma {:induction false} BodyNulFree(t: CString)
    ensures NulFree(Body(t))
    decreases |t|
  {
    if t == "" {
    } else {
      BodyNulFree(t[1..]);
    }
  }

  lemma {:induction false} TextNulFree(v: Json, depth: nat, fmt: bool)
    ensures NulFree(Text(v, depth, fmt))
    decreases v
  {
    hide Body, Digits, Tabs, ItemsText, MembersText;
    TabsNulFree(depth - 1);
    match v
    case Number(n, _) => NulFreeDigits(if n < 0 then -n else n);
    case String(t) => BodyNulFree(t);
    case Array(items) =>
      if items != [] {
        ItemsNulFree(items, depth + 1, fmt);
      }
    case Object(members) =>
      if members != [] {
        MembersNulFree(members, depth + 1, fmt);
      }
    case _ =>
  }

  lemma {:induction false} ItemsNulFree(items: seq<Json>, depth: nat, fmt: bool)
    requires items != []
    ensures NulFree(ItemsText(items, depth, fmt))
    decreases items
  {
    hide Text;
    TextNulFree(items[0], depth, fmt);
    if |items| <= 1 {
    } else {
      ItemsNulFree(items[1..], depth, fmt);
    }
  }

  lemma NulFreeAppend(a: string, b: string)
    requires NulFree(a) && NulFree(b)
    ensures NulFree(a + b)
  {
  }

  lemma NulFreeSigns(fmt: bool)
    ensures NulFree("\"") && NulFree(":") && NulFree(",") && NulFree("}") && NulFree("\n")
    ensures NulFree(If(fmt, "\t")) && NulFree(If(fmt, "\n"))
  {
  }

  /** What follows the value of the first member. */
  lemma TailNulFree(members: seq<Member>, depth: nat, fmt: bool)
    requires members != [] && NulFree(Tabs(depth - 1))
    requires |members| > 1 ==> NulFree(MembersText(members[1..], depth, fmt))
    ensures NulFree(if |members| == 1 then If(fmt, "\n" + Tabs(depth - 1)) + "}"
                    else "," + (If(fmt, "\n") + MembersText(members[1..], depth, fmt)))
  {
    hide NulFree, MembersText, Tabs;
    NulFreeSigns(fmt);
    if |members| == 1 {
      NulFreeAppend("\n", Tabs(depth - 1));
      if fmt {
        NulFreeAppend("\n" + Tabs(depth - 1), "}");
      } else {
        assert "" + "}" == "}";
      }
    } else {
      NulFreeAppend(If(fmt, "\n"), MembersText(members[1..], depth, fmt));
      NulFreeAppend(",", If(fmt, "\n") + MembersText(members[1..], depth, fmt));
    }
  }

  lemma MemberNulFree(name: string, value: string, tail: string, depth: nat, fmt: bool)
    requires NulFree(Body(name)) && NulFree(value) && NulFree(tail) && NulFree(Tabs(depth))
    ensures NulFree(If(fmt, Tabs(depth)) + (Quoted(name) + (":" + (If(fmt, "\t") + (value + tail)))))
  {
    assert NulFree("");
    hide NulFree, Body, Tabs;
    NulFreeSigns(fmt);
    NulFreeAppend(value, tail);
    NulFreeAppend(If(fmt, "\t"), value + tail);
    NulFreeAppend(":", If(fmt, "\t") + (value + tail));
    NulFreeAppend("\"", Body(name));
    NulFreeAppend(Quoted(name), ":" + (If(fmt, "\t") + (value + tail)));
    NulFreeAppend(If(fmt, Tabs(depth)), Quoted(name) + (":" + (If(fmt, "\t") + (value + tail))));
  }

  lemma {:induction false} MembersNulFree(members: seq<Member>, depth: nat, fmt: bool)
    requires members != []
    ensures NulFree(MembersText(members, depth, fmt))
    decreases members
  {
    hide Text, Body, Tabs, NulFree;
    TabsNulFree(depth);
    TabsNulFree(depth - 1);
    BodyNulFree(members[0].name);
    TextNulFree(members[0].value, depth, fmt);
    if |members| > 1 {
      MembersNulFree(members[1..], depth, fmt);
    }
    var tail :=
      if |members| == 1 then If(fmt, "\n" + Tabs(depth - 1)) + "}"
      else "," + (If(fmt, "\n") + MembersText(members[1..], depth, fmt));
    TailNulFree(members, depth, fmt);
    MemberNulFree(members[0].name, Text(members[0].value, depth, fmt), tail, depth, fmt);
  }
}
