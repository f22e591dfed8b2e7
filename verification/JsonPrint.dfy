/** The two-pass printing functions of cJSON.c: the first pass computes the size of a buffer, the
    second writes into a buffer of exactly that size. Every index below is in bounds, terminators
    included, and what ends up in the buffer is the text of JsonTree. */
module JsonPrint {
  import opened CStrings
  import opened JsonTree

  /** The buffer holds the C string t. */
  ghost predicate Holds(a: array<char>, t: string)
    reads a
  {
    |t| < a.Length && a[..|t|] == t && a[|t|] == '\0' && NulFree(t)
  }

  // ---------- writing ----------

  /** The first p characters of a are written, and with rest they will be total, which leaves
      room for the terminator. */
  ghost predicate Progress(a: seq<char>, p: nat, rest: string, total: string) {
    p <= |a| && a[..p] + rest == total && |total| < |a|
  }

  /** Writing the characters of t at the cursor. */
  method Emit(out: array<char>, p: nat, t: string, ghost rest: string, ghost total: string) returns (q: nat)
    requires Progress(out[..], p, t + rest, total)
    modifies out
    ensures q == p + |t| && Progress(out[..], q, rest, total)
  {
    ghost var a := out[..];
    assert |a[..p] + (t + rest)| == p + |t| + |rest|;
    for i := 0 to |t|
      invariant forall k :: 0 <= k < p ==> out[k] == a[k]
      invariant forall k :: p <= k < p + i ==> out[k] == t[k - p]
    {
      out[p + i] := t[i];
    }
    q := p + |t|;
    assert out[..][..q] == a[..p] + t;
    assert a[..p] + t + rest == a[..p] + (t + rest);
  }

  /** Writing a terminator at the cursor without moving it. */
  method Terminate(out: array<char>, p: nat, ghost rest: string, ghost total: string)
    requires Progress(out[..], p, rest, total)
    modifies out
    ensures Progress(out[..], p, rest, total) && p < out.Length && out[p] == '\0'
  {
    ghost var a := out[..];
    assert |a[..p] + rest| == p + |rest|;
    out[p] := '\0';
    assert out[..][..p] == a[..p];
  }

  method StrLen(a: array<char>, ghost t: string) returns (n: nat)
    requires Holds(a, t)
    ensures n == |t|
  {
    n := 0;
    while a[n] != '\0'
      invariant n <= |t|
      decreases |t| - n
    {
      assert a[n] == a[..|t|][n];
      n := n + 1;
    }
  }

  /** strcpy to the cursor, which is then moved to the terminator that strcpy wrote. */
  method StrCpy(out: array<char>, p: nat, src: array<char>, ghost t: string, ghost rest: string, ghost total: string)
    returns (q: nat)
    requires Holds(src, t) && src != out && Progress(out[..], p, t + rest, total)
    modifies out
    ensures q == p + |t| && Progress(out[..], q, rest, total)
  {
    ghost var a := out[..];
    assert |a[..p] + (t + rest)| == p + |t| + |rest|;
    var n := StrLen(src, t);
    for i := 0 to n + 1
      invariant forall k :: 0 <= k < p ==> out[k] == a[k]
      invariant forall k :: p <= k < p + i ==> out[k] == src[k - p]
    {
      out[p + i] := src[i];
    }
    q := p + n;
    assert forall k :: 0 <= k < n ==> src[k] == src[..|t|][k];
    assert out[..][..q] == a[..p] + t;
    assert a[..p] + t + rest == a[..p] + (t + rest);
  }

  lemma Started(a: seq<char>, total: string)
    requires |total| < |a|
    ensures Progress(a, 0, total, total)
  {
    assert a[..0] + total == total;
  }

  /** The whole text is written and terminated. */
  lemma Finished(out: array<char>, p: nat, total: string)
    requires Progress(out[..], p, "", total) && p < out.Length && out[p] == '\0' && NulFree(total)
    ensures Holds(out, total)
  {
    assert out[..][..p] + "" == out[..p];
  }

  /** cJSON_strdup of a literal. */
  method StrDup(t: string) returns (out: array<char>)
    requires NulFree(t)
    ensures fresh(out) && Holds(out, t)
  {
    out := new char[|t| + 1];
    Started(out[..], t);
    assert t + "" == t;
    var q := Emit(out, 0, t, "", t);
    Terminate(out, q, "", t);
    Finished(out, q, t);
  }

  // ---------- numbers ----------

  lemma {:induction false} DigitsBound(n: nat, k: nat, p: nat)
    requires n < p && p == Power(10, k) && k >= 1
    ensures |Digits(n)| <= k
    decreases k
  {
    if n < 10 {
    } else {
      assert k == 1 ==> p == 10 by { assert Power(10, 0) == 1; }
      DigitsBound(n / 10, k - 1, p / 10);
    }
  }

  function Power(b: nat, k: nat): nat {
    if k == 0 then 1 else b * Power(b, k - 1)
  }

  lemma DecimalBound(n: int)
    requires -0x8000_0000 <= n <= 0x7fff_ffff
    ensures |Decimal(n)| <= 11
  {
    assert Power(10, 10) == 10_000_000_000 by {
      assert Power(10, 5) == 100_000;
      assert Power(10, 10) == 10 * (10 * (10 * (10 * (10 * Power(10, 5)))));
    }
    DigitsBound(if n < 0 then -n else n, 10, 10_000_000_000);
  }

  /** print_number on an integer: twenty-one characters are enough. */
  method PrintNumber(v: Json) returns (out: array<char>)
    requires v.Number? && Printable(v)
    ensures fresh(out) && Holds(out, Text(v, 0, false))
  {
    out := new char[21];
    var t := Decimal(v.valueint);
    DecimalBound(v.valueint);
    TextNulFree(v, 0, false);
    Started(out[..], t);
    assert t + "" == t;
    var q := Emit(out, 0, t, "", t);
    Terminate(out, q, "", t);
    Finished(out, q, t);
  }

  // ---------- strings ----------

  /** print_string_ptr. */
  method PrintStringPtr(str: CString) returns (out: array<char>)
    ensures fresh(out) && Holds(out, Quoted(str)) && out.Length == |Quoted(str)| + 1
  {
    hide Escaped;
    var len, i := 0, 0;
    assert str[0..] == str;
    while i < |str|
      invariant i <= |str| && len + |Body(str[i..])| == |Body(str)|
    {
      assert str[i..][1..] == str[i + 1..];
      EscapedLength(str[i]);
      var token := str[i];
      len := len + 1;
      if token in {'"', '\\', BACKSPACE, FORM_FEED, '\n', '\r', '\t'} {
        len := len + 1;
      } else if token as int < 32 {
        len := len + 5;
      }
      i := i + 1;
    }
    out := new char[len + 3];
    ghost var total := Quoted(str);
    Started(out[..], total);
    var p := Emit(out, 0, "\"", Body(str), total);
    i := 0;
    while i < |str|
      invariant i <= |str| && Progress(out[..], p, Body(str[i..]), total)
    {
      assert str[i..][1..] == str[i + 1..];
      p := PutEscaped(out, p, str[i], Body(str[i + 1..]), total);
      i := i + 1;
    }
    p := Emit(out, p, "\"", "", total);
    Terminate(out, p, "", total);
    BodyNulFree(str);
    Finished(out, p, total);
  }

  lemma EscapedLength(c: char)
    requires c != '\0'
    ensures |Escaped(c)| ==
            if c in {'"', '\\', BACKSPACE, FORM_FEED, '\n', '\r', '\t'} then 2 else if c as int < 32 then 6 else 1
  {
  }

  /** One character of the copying pass; sprintf adds a terminator, which the next character overwrites. */
  method PutEscaped(out: array<char>, p: nat, c: char, ghost rest: string, ghost total: string) returns (q: nat)
    requires c != '\0' && Progress(out[..], p, Escaped(c) + rest, total)
    modifies out
    ensures q == p + |Escaped(c)| && Progress(out[..], q, rest, total)
  {
    if c as int > 31 && c != '"' && c != '\\' {
      q := Emit(out, p, [c], rest, total);
    } else {
      ghost var e := Escaped(c);
      assert e + rest == "\\" + (e[1..] + rest);
      q := Emit(out, p, "\\", e[1..] + rest, total);
      if c == '\\' { q := Emit(out, q, "\\", rest, total); }
      else if c == '"' { q := Emit(out, q, "\"", rest, total); }
      else if c == BACKSPACE { q := Emit(out, q, "b", rest, total); }
      else if c == FORM_FEED { q := Emit(out, q, "f", rest, total); }
      else if c == '\n' { q := Emit(out, q, "n", rest, total); }
      else if c == '\r' { q := Emit(out, q, "r", rest, total); }
      else if c == '\t' { q := Emit(out, q, "t", rest, total); }
      else {
        q := Emit(out, q, "u00" + [HexChar(c as int / 16), HexChar(c as int % 16)], rest, total);
        Terminate(out, q, rest, total);
      }
    }
  }

  // ---------- sizes ----------

  /** What the first pass of print_array adds up for the items. */
  function ItemsSize(items: seq<Json>, depth: nat, fmt: bool): nat {
    if items == [] then 0
    else |Text(items[0], depth, fmt)| + 2 + (if fmt then 1 else 0) + ItemsSize(items[1..], depth, fmt)
  }

  /** What the first pass of print_object adds up for the members. */
  function MembersSize(members: seq<Member>, depth: nat, fmt: bool): nat {
    if members == [] then 0
    else
      |Text(members[0].value, depth, fmt)| + |Quoted(members[0].name)| + 2 + (if fmt then 2 + depth else 0) +
      MembersSize(members[1..], depth, fmt)
  }

  lemma {:induction false} TabsLength(n: int)
    ensures |Tabs(n)| == if n < 0 then 0 else n
  {
    if n <= 0 {
    } else {
      TabsLength(n - 1);
    }
  }

  lemma {:induction false} ItemsFit(items: seq<Json>, depth: nat, fmt: bool)
    requires items != []
    ensures |ItemsText(items, depth, fmt)| <= ItemsSize(items, depth, fmt)
  {
    hide Text;
    if |items| <= 1 {
    } else {
      ItemsFit(items[1..], depth, fmt);
    }
  }

  lemma {:induction false} MembersFit(members: seq<Member>, depth: nat, fmt: bool)
    requires members != [] && depth >= 1
    ensures |MembersText(members, depth, fmt)| <= MembersSize(members, depth, fmt) + if fmt then depth else 0
  {
    hide Text, Quoted, Tabs;
    TabsLength(depth);
    TabsLength(depth - 1);
    if |members| <= 1 {
    } else {
      MembersFit(members[1..], depth, fmt);
    }
  }

  /** The sizes that the first passes compute are sufficient for every array and object, at every
      depth, in both layouts, terminator included. */
  lemma SizesSuffice(items: seq<Json>, members: seq<Member>, depth: nat, fmt: bool)
    ensures items != [] ==>
      |Text(Array(items), depth, fmt)| + 1 <= 5 + ItemsSize(items, depth + 1, fmt)
    ensures members != [] ==>
      |Text(Object(members), depth, fmt)| + 1 <=
      7 + (if fmt then depth + 1 else 0) + MembersSize(members, depth + 1, fmt)
    ensures |Text(Object([]), depth, fmt)| + 1 <= if fmt then depth + 4 else 3
  {
    hide ItemsText, MembersText, ItemsSize, MembersSize, Tabs;
    if items != [] {
      ItemsFit(items, depth + 1, fmt);
    }
    if members != [] {
      MembersFit(members, depth + 1, fmt);
    }
    TabsLength(depth - 1);
  }

  // ---------- values ----------

  /** print_value. */
  method PrintValue(v: Json, depth: nat, fmt: bool) returns (out: array<char>)
    requires Printable(v)
    ensures fresh(out) && Holds(out, Text(v, depth, fmt))
    decreases v
  {
    match v
    case Null => out := StrDup("null");
    case False => out := StrDup("false");
    case True => out := StrDup("true");
    case Number(_, _) => out := PrintNumber(v);
    case String(s) => out := PrintStringPtr(s);
    case Array(items) =>
      if items == [] {
        out := StrDup("[]");
      } else {
        out := PrintArray(items, depth, fmt);
      }
    case Object(members) =>
      if members == [] {
        out := PrintEmptyObject(depth, fmt);
      } else {
        out := PrintObject(members, depth, fmt);
      }
  }

  /** The loop that writes n tabs. */
  method PutTabs(out: array<char>, p: nat, n: int, ghost rest: string, ghost total: string) returns (q: nat)
    requires Progress(out[..], p, Tabs(n) + rest, total)
    modifies out
    ensures q == p + |Tabs(n)| && Progress(out[..], q, rest, total)
  {
    q := p;
    var i := 0;
    TabsLength(n);
    assert n <= 0 ==> Tabs(n) + rest == rest;
    while i < n
      invariant 0 <= i && (n >= 0 ==> i <= n) && q == p + i
      invariant Progress(out[..], q, Tabs(n - i) + rest, total)
    {
      assert Tabs(n - i) + rest == "\t" + (Tabs(n - i - 1) + rest);
      q := Emit(out, q, "\t", Tabs(n - i - 1) + rest, total);
      i := i + 1;
    }
    assert Tabs(n - i) + rest == rest;
  }

  /** The branch of print_object for an object without members. */
  method PrintEmptyObject(depth: nat, fmt: bool) returns (out: array<char>)
    ensures fresh(out) && Holds(out, Text(Object([]), depth, fmt))
  {
    ghost var total := Text(Object([]), depth, fmt);
    SizesSuffice([], [], depth, fmt);
    TextNulFree(Object([]), depth, fmt);
    out := new char[if fmt then depth + 4 else 3];
    Started(out[..], total);
    var p := Emit(out, 0, "{", If(fmt, "\n" + Tabs(depth - 1)) + "}", total);
    if fmt {
      assert "\n" + Tabs(depth - 1) + "}" == "\n" + (Tabs(depth - 1) + "}");
      p := Emit(out, p, "\n", Tabs(depth - 1) + "}", total);
      p := PutTabs(out, p, depth - 1, "}", total);
    } else {
      assert "" + "}" == "}";
    }
    assert "}" + "" == "}";
    p := Emit(out, p, "}", "", total);
    Terminate(out, p, "", total);
    Finished(out, p, total);
  }

  /** The entries hold the texts of the items. */
  ghost predicate Entries(entries: seq<array<char>>, items: seq<Json>, depth: nat, fmt: bool)
    requires |entries| <= |items|
    reads entries
  {
    forall k :: 0 <= k < |entries| ==> Holds(entries[k], Text(items[k], depth, fmt))
  }

  lemma ItemsSizeUnfold(items: seq<Json>, i: nat, depth: nat, fmt: bool)
    requires i < |items|
    ensures ItemsSize(items[i..], depth, fmt) ==
            |Text(items[i], depth, fmt)| + 2 + (if fmt then 1 else 0) + ItemsSize(items[i + 1..], depth, fmt)
  {
    hide Text;
    assert items[i..][1..] == items[i + 1..];
  }

  lemma NoItemsSize(items: seq<Json>, depth: nat, fmt: bool)
    ensures ItemsSize(items[|items|..], depth, fmt) == 0
  {
  }

  /** The first pass of print_array. */
  method CollectItems(items: seq<Json>, depth: nat, fmt: bool) returns (entries: seq<array<char>>, len: nat)
    requires forall k :: 0 <= k < |items| ==> Printable(items[k])
    ensures |entries| == |items| && Entries(entries, items, depth, fmt)
    ensures forall k :: 0 <= k < |entries| ==> fresh(entries[k])
    ensures len == 5 + ItemsSize(items, depth, fmt)
    decreases items, 0
  {
    hide Text, Holds, ItemsSize;
    entries, len := [], 5;
    assert items[0..] == items;
    NoItemsSize(items, depth, fmt);
    while |entries| < |items|
      invariant |entries| <= |items| && Entries(entries, items, depth, fmt)
      invariant forall k :: 0 <= k < |entries| ==> fresh(entries[k])
      invariant len + ItemsSize(items[|entries|..], depth, fmt) == 5 + ItemsSize(items, depth, fmt)
    {
      ghost var i := |entries|;
      ItemsSizeUnfold(items, i, depth, fmt);
      var ret := PrintValue(items[|entries|], depth, fmt);
      var n := StrLen(ret, Text(items[i], depth, fmt));
      entries := entries + [ret];
      len := len + n + 2 + (if fmt then 1 else 0);
    }
  }

  /** What is still to be written when the items from i on are. */
  ghost function RestItems(items: seq<Json>, i: nat, depth: nat, fmt: bool): string
    requires i <= |items|
  {
    if i < |items| then ItemsText(items[i..], depth, fmt) else "]"
  }

  lemma RestItemsUnfold(items: seq<Json>, i: nat, depth: nat, fmt: bool)
    requires i < |items|
    ensures RestItems(items, i, depth, fmt) ==
            Text(items[i], depth, fmt) +
            if i == |items| - 1 then "]" else "," + (If(fmt, " ") + RestItems(items, i + 1, depth, fmt))
  {
    hide Text, If;
    assert items[i..][0] == items[i] && items[i..][1..] == items[i + 1..];
  }

  /** One pass of the second loop of print_array. */
  method PutItem(out: array<char>, p: nat, entry: array<char>, ghost items: seq<Json>, i: nat, n: nat,
                 ghost depth: nat, fmt: bool, ghost total: string)
    returns (q: nat)
    requires i < n == |items| && entry != out && Holds(entry, Text(items[i], depth, fmt))
    requires Progress(out[..], p, RestItems(items, i, depth, fmt), total)
    modifies out
    ensures Progress(out[..], q, RestItems(items, i + 1, depth, fmt), total)
  {
    RestItemsUnfold(items, i, depth, fmt);
    ghost var t := Text(items[i], depth, fmt);
    hide Holds, Progress, Text;
    ghost var rest := RestItems(items, i + 1, depth, fmt);
    if i != n - 1 {
      hide RestItems;
      q := StrCpy(out, p, entry, t, "," + (If(fmt, " ") + rest), total);
      q := Emit(out, q, ",", If(fmt, " ") + rest, total);
      if fmt {
        q := Emit(out, q, " ", rest, total);
      } else {
        assert "" + rest == rest;
      }
      Terminate(out, q, rest, total);
    } else {
      q := StrCpy(out, p, entry, t, "]", total);
    }
  }

  /** The second pass of print_array. */
  method FillArray(out: array<char>, entries: seq<array<char>>, ghost items: seq<Json>, ghost depth: nat, fmt: bool,
                   ghost total: string)
    requires |entries| == |items| && out !in entries && Entries(entries, items, depth, fmt)
    requires total == "[" + RestItems(items, 0, depth, fmt) && |total| < out.Length && NulFree(total)
    modifies out
    ensures Holds(out, total)
  {
    assert RestItems(items, |items|, depth, fmt) == "]" + "";
    hide Text, Holds, Progress, RestItems;
    Started(out[..], total);
    var p := Emit(out, 0, "[", RestItems(items, 0, depth, fmt), total);
    Terminate(out, p, RestItems(items, 0, depth, fmt), total);
    for i := 0 to |entries|
      invariant Entries(entries, items, depth, fmt)
      invariant Progress(out[..], p, RestItems(items, i, depth, fmt), total)
    {
      p := PutItem(out, p, entries[i], items, i, |entries|, depth, fmt, total);
    }
    p := Emit(out, p, "]", "", total);
    Terminate(out, p, "", total);
    Finished(out, p, total);
  }

  /** print_array. */
  method PrintArray(items: seq<Json>, depth: nat, fmt: bool) returns (out: array<char>)
    requires items != [] && forall k :: 0 <= k < |items| ==> Printable(items[k])
    ensures fresh(out) && Holds(out, Text(Array(items), depth, fmt))
    decreases items, 1
  {
    var entries, len := CollectItems(items, depth + 1, fmt);
    SizesSuffice(items, [], depth, fmt);
    TextNulFree(Array(items), depth, fmt);
    ArrayText(items, depth, fmt);
    hide Text, ItemsSize, Holds, RestItems;
    out := new char[len];
    FillArray(out, entries, items, depth + 1, fmt, Text(Array(items), depth, fmt));
  }

  lemma ArrayText(items: seq<Json>, depth: nat, fmt: bool)
    requires items != []
    ensures Text(Array(items), depth, fmt) == "[" + RestItems(items, 0, depth + 1, fmt)
  {
    hide ItemsText;
    assert items[0..] == items;
  }

  // ---------- objects ----------

  ghost predicate Names(names: seq<array<char>>, members: seq<Member>)
    requires |names| <= |members|
    reads names
  {
    forall k :: 0 <= k < |names| ==> Holds(names[k], Quoted(members[k].name))
  }

  ghost predicate Values(entries: seq<array<char>>, members: seq<Member>, depth: nat, fmt: bool)
    requires |entries| <= |members|
    reads entries
  {
    forall k :: 0 <= k < |entries| ==> Holds(entries[k], Text(members[k].value, depth, fmt))
  }

  lemma MembersSizeUnfold(members: seq<Member>, i: nat, depth: nat, fmt: bool)
    requires i < |members|
    ensures MembersSize(members[i..], depth, fmt) ==
            |Text(members[i].value, depth, fmt)| + |Quoted(members[i].name)| + 2 + (if fmt then 2 + depth else 0) +
            MembersSize(members[i + 1..], depth, fmt)
  {
    hide Text, Quoted;
    assert members[i..][1..] == members[i + 1..];
  }

  lemma NoMembersSize(members: seq<Member>, depth: nat, fmt: bool)
    ensures MembersSize(members[|members|..], depth, fmt) == 0
  {
  }

  /** The first pass of print_object, one level further in. */
  method CollectMembers(members: seq<Member>, depth: nat, fmt: bool)
    returns (names: seq<array<char>>, entries: seq<array<char>>, len: nat)
    requires forall k :: 0 <= k < |members| ==> Printable(members[k].value)
    ensures |names| == |members| && Names(names, members)
    ensures |entries| == |members| && Values(entries, members, depth, fmt)
    ensures forall k :: 0 <= k < |entries| ==> fresh(entries[k])
    ensures forall k :: 0 <= k < |names| ==> fresh(names[k])
    ensures len == 7 + (if fmt then depth else 0) + MembersSize(members, depth, fmt)
    decreases members, 0
  {
    hide Text, Quoted, Holds, MembersSize, Printable;
    names, entries, len := [], [], 7 + if fmt then depth else 0;
    assert members[0..] == members;
    NoMembersSize(members, depth, fmt);
    assert Names(names, members) && Values(entries, members, depth, fmt);
    hide Names, Values;
    while |entries| < |members|
      invariant |names| == |entries| <= |members| && Names(names, members) && Values(entries, members, depth, fmt)
      invariant forall k :: 0 <= k < |entries| ==> fresh(entries[k])
      invariant forall k :: 0 <= k < |names| ==> fresh(names[k])
      invariant len + MembersSize(members[|entries|..], depth, fmt) ==
                7 + (if fmt then depth else 0) + MembersSize(members, depth, fmt)
    {
      ghost var i := |entries|;
      MembersSizeUnfold(members, i, depth, fmt);
      var str, ret, n := PrintPair(members[|entries|], depth, fmt);
      MorePairs(names, str, entries, ret, members, depth, fmt);
      names, entries := names + [str], entries + [ret];
      len := len + n;
    }
  }

  lemma MorePairs(names: seq<array<char>>, str: array<char>, entries: seq<array<char>>, ret: array<char>,
                  members: seq<Member>, depth: nat, fmt: bool)
    requires |names| == |entries| < |members| && Names(names, members) && Values(entries, members, depth, fmt)
    requires Holds(str, Quoted(members[|names|].name)) && Holds(ret, Text(members[|names|].value, depth, fmt))
    ensures Names(names + [str], members) && Values(entries + [ret], members, depth, fmt)
  {
    hide Holds, Text, Quoted;
  }

  /** Name and value of one member printed, and what they add to the size. */
  method PrintPair(m: Member, depth: nat, fmt: bool) returns (str: array<char>, ret: array<char>, n: nat)
    requires Printable(m.value)
    ensures fresh(str) && fresh(ret)
    ensures Holds(str, Quoted(m.name)) && Holds(ret, Text(m.value, depth, fmt))
    ensures n == |Text(m.value, depth, fmt)| + |Quoted(m.name)| + 2 + (if fmt then 2 + depth else 0)
    decreases m, 1
  {
    hide Text, Quoted, Holds;
    str := PrintStringPtr(m.name);
    ret := PrintValue(m.value, depth, fmt);
    var a := StrLen(ret, Text(m.value, depth, fmt));
    var b := StrLen(str, Quoted(m.name));
    n := a + b + 2 + (if fmt then 2 + depth else 0);
  }

  ghost function RestMembers(members: seq<Member>, i: nat, depth: nat, fmt: bool): string
    requires i <= |members|
  {
    if i < |members| then MembersText(members[i..], depth, fmt) else If(fmt, Tabs(depth - 1)) + "}"
  }

  lemma RestMembersUnfold(members: seq<Member>, i: nat, depth: nat, fmt: bool)
    requires i < |members|
    ensures RestMembers(members, i, depth, fmt) ==
            If(fmt, Tabs(depth)) + (Quoted(members[i].name) + (":" + (If(fmt, "\t") +
              (Text(members[i].value, depth, fmt) + (If(i != |members| - 1, ",") +
                (If(fmt, "\n") + RestMembers(members, i + 1, depth, fmt)))))))
  {
    hide Text, Quoted, Tabs;
    var rest := RestMembers(members, i + 1, depth, fmt);
    assert members[i..][0] == members[i] && members[i..][1..] == members[i + 1..];
    if i == |members| - 1 {
      assert If(fmt, "\n" + Tabs(depth - 1)) + "}" == "" + (If(fmt, "\n") + rest);
    }
  }

  /** The first half of a pass of the second loop of print_object: indentation, name, colon. */
  method PutName(out: array<char>, p: nat, name: array<char>, ghost text: string, depth: nat, fmt: bool,
                 ghost rest: string, ghost total: string)
    returns (q: nat)
    requires name != out && Holds(name, text)
    requires Progress(out[..], p, If(fmt, Tabs(depth)) + (text + (":" + (If(fmt, "\t") + rest))), total)
    modifies out
    ensures Progress(out[..], q, rest, total)
  {
    hide Holds, Progress, Tabs;
    q := p;
    if fmt {
      q := PutTabs(out, q, depth, text + (":" + ("\t" + rest)), total);
    } else {
      assert "" + (text + (":" + ("" + rest))) == text + (":" + ("" + rest));
    }
    q := StrCpy(out, q, name, text, ":" + (If(fmt, "\t") + rest), total);
    q := Emit(out, q, ":", If(fmt, "\t") + rest, total);
    if fmt {
      q := Emit(out, q, "\t", rest, total);
    } else {
      assert "" + rest == rest;
    }
  }

  /** The second half: value, comma unless it is the last, line end. */
  method PutMember(out: array<char>, p: nat, entry: array<char>, ghost text: string, more: bool, fmt: bool,
                   ghost rest: string, ghost total: string)
    returns (q: nat)
    requires entry != out && Holds(entry, text)
    requires Progress(out[..], p, text + (If(more, ",") + (If(fmt, "\n") + rest)), total)
    modifies out
    ensures Progress(out[..], q, rest, total)
  {
    hide Holds, Progress;
    q := StrCpy(out, p, entry, text, If(more, ",") + (If(fmt, "\n") + rest), total);
    if more {
      q := Emit(out, q, ",", If(fmt, "\n") + rest, total);
    } else {
      assert "" + (If(fmt, "\n") + rest) == If(fmt, "\n") + rest;
    }
    if fmt {
      q := Emit(out, q, "\n", rest, total);
    } else {
      assert "" + rest == rest;
    }
    Terminate(out, q, rest, total);
  }

  /** One pass of the second loop of print_object. */
  method PutPair(out: array<char>, p: nat, name: array<char>, entry: array<char>, ghost members: seq<Member>, i: nat,
                 n: nat, depth: nat, fmt: bool, ghost total: string)
    returns (q: nat)
    requires i < n == |members| && name != out && entry != out
    requires Holds(name, Quoted(members[i].name)) && Holds(entry, Text(members[i].value, depth, fmt))
    requires Progress(out[..], p, RestMembers(members, i, depth, fmt), total)
    modifies out
    ensures Progress(out[..], q, RestMembers(members, i + 1, depth, fmt), total)
  {
    hide Text, Quoted, Holds, Progress, RestMembers;
    RestMembersUnfold(members, i, depth, fmt);
    ghost var rest, text := RestMembers(members, i + 1, depth, fmt), Text(members[i].value, depth, fmt);
    q := PutName(out, p, name, Quoted(members[i].name), depth, fmt,
                 text + (If(i != n - 1, ",") + (If(fmt, "\n") + rest)), total);
    q := PutMember(out, q, entry, text, i != n - 1, fmt, rest, total);
  }

  /** The second pass of print_object. */
  method FillObject(out: array<char>, names: seq<array<char>>, entries: seq<array<char>>, ghost members: seq<Member>,
                    depth: nat, fmt: bool, ghost total: string)
    requires |names| == |entries| == |members| && out !in names && out !in entries
    requires Names(names, members) && Values(entries, members, depth, fmt)
    requires total == "{" + (If(fmt, "\n") + RestMembers(members, 0, depth, fmt))
    requires |total| < out.Length && NulFree(total)
    modifies out
    ensures Holds(out, total)
  {
    hide Text, Quoted, Holds, Progress, RestMembers, If;
    Started(out[..], total);
    var p := Emit(out, 0, "{", If(fmt, "\n") + RestMembers(members, 0, depth, fmt), total);
    p := PutNewline(out, p, fmt, RestMembers(members, 0, depth, fmt), total);
    for i := 0 to |entries|
      invariant Names(names, members) && Values(entries, members, depth, fmt)
      invariant Progress(out[..], p, RestMembers(members, i, depth, fmt), total)
    {
      p := PutPair(out, p, names[i], entries[i], members, i, |entries|, depth, fmt, total);
    }
    p := CloseObject(out, p, members, depth, fmt, total);
    Finished(out, p, total);
  }

  /** print_object. */
  method PrintObject(members: seq<Member>, depth: nat, fmt: bool) returns (out: array<char>)
    requires members != [] && forall k :: 0 <= k < |members| ==> Printable(members[k].value)
    ensures fresh(out) && Holds(out, Text(Object(members), depth, fmt))
    decreases members, 1
  {
    var names, entries, len := CollectMembers(members, depth + 1, fmt);
    SizesSuffice([], members, depth, fmt);
    TextNulFree(Object(members), depth, fmt);
    ObjectText(members, depth, fmt);
    hide Text, Quoted, MembersSize, Holds, RestMembers, If;
    out := new char[len];
    FillObject(out, names, entries, members, depth + 1, fmt, Text(Object(members), depth, fmt));
  }

  lemma ObjectText(members: seq<Member>, depth: nat, fmt: bool)
    requires members != []
    ensures Text(Object(members), depth, fmt) == "{" + (If(fmt, "\n") + RestMembers(members, 0, depth + 1, fmt))
  {
    hide MembersText;
    assert members[0..] == members;
  }

  method PutNewline(out: array<char>, p: nat, fmt: bool, ghost rest: string, ghost total: string) returns (q: nat)
    requires Progress(out[..], p, If(fmt, "\n") + rest, total)
    modifies out
    ensures Progress(out[..], q, rest, total)
  {
    hide Progress;
    q := p;
    if fmt {
      q := Emit(out, q, "\n", rest, total);
    } else {
      assert "" + rest == rest;
    }
    Terminate(out, q, rest, total);
  }

  /** The closing brace of an object with its indentation, and the terminator. */
  method CloseObject(out: array<char>, p: nat, ghost members: seq<Member>, depth: nat, fmt: bool, ghost total: string)
    returns (q: nat)
    requires Progress(out[..], p, RestMembers(members, |members|, depth, fmt), total)
    modifies out
    ensures Progress(out[..], q, "", total) && q < out.Length && out[q] == '\0'
  {
    hide Progress, Tabs;
    q := p;
    if fmt {
      q := PutTabs(out, q, depth - 1, "}", total);
    } else {
      assert "" + "}" == "}";
    }
    assert "}" + "" == "}";
    q := Emit(out, q, "}", "", total);
    Terminate(out, q, "", total);
  }
}
