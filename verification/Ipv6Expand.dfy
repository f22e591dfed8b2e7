/** Expansion of IPv6 addresses: omitted leading zeros, and a double colon at the beginning, in
    the middle or at the end. */
module Ipv6Expand {
  import opened CStrings
  import opened Options
  import opened Ipv6Text
  import opened Ipv6Compress

  // ---------- searching ----------

  /** The first colon, as strchr finds it. */
  function FirstColon(t: string): (r: Option<nat>)
    ensures r.Some? ==> r.value < |t| && t[r.value] == ':' && ':' !in t[..r.value]
    ensures r.None? ==> ':' !in t
  {
    if t == "" then None
    else if t[0] == ':' then Some(0)
    else match FirstColon(t[1..]) case None => None case Some(k) => Some(k + 1)
  }

  predicate DoubleAt(t: string, i: int) { 0 <= i < |t| - 1 && t[i] == ':' && t[i + 1] == ':' }

  /** The first double colon, as strstr finds it. */
  function FirstDouble(t: string): (r: Option<nat>)
    ensures r.Some? ==> DoubleAt(t, r.value) && forall k :: 0 <= k < r.value ==> !DoubleAt(t, k)
    ensures r.None? ==> forall k :: !DoubleAt(t, k)
  {
    if |t| < 2 then None
    else if t[0] == ':' && t[1] == ':' then Some(0)
    else
      match FirstDouble(t[1..])
      case None => (assert forall k :: DoubleAt(t, k) ==> DoubleAt(t[1..], k - 1); None)
      case Some(k) => (assert forall j :: DoubleAt(t, j) && j < k + 1 ==> DoubleAt(t[1..], j - 1); Some(k + 1))
  }

  // ---------- what the loops read ----------

  function ZeroChars(n: nat): string { if n == 0 then "" else "0" + ZeroChars(n - 1) }

  /** set_uncompress_ipv6_address_field_value: the first k characters padded to four. */
  function Padded(t: string, k: nat): Option<string>
    requires k <= |t|
  {
    if 1 <= k <= 4 then Some(ZeroChars(4 - k) + t[..k]) else None
  }

  function Prepended(x: seq<string>, r: Option<seq<string>>): Option<seq<string>> {
    if r.None? then None else Some(x + r.value)
  }

  function Cons(f: string, r: Option<seq<string>>): Option<seq<string>> {
    if r.None? then None else Some([f] + r.value)
  }

  /** Fields i to 7, the last one reaching to the end of the text if no colon follows it. */
  function Rest(t: string, i: nat): (r: Option<seq<string>>)
    requires i <= 8
    ensures r.Some? ==> |r.value| == 8 - i
    decreases 8 - i
  {
    if i == 8 then Some([])
    else
      match FirstColon(t)
      case None => if i == 7 && Padded(t, |t|).Some? then Some([Padded(t, |t|).value]) else None
      case Some(k) => if Padded(t, k).None? then None else Cons(Padded(t, k).value, Rest(t[k + 1..], i + 1))
  }

  /** Up to n fields, ended early by one of a wrong length. */
  function Leading(t: string, n: nat): (r: seq<string>)
    ensures |r| <= n
  {
    if n == 0 then []
    else
      match FirstColon(t)
      case None => if Padded(t, |t|).Some? then [Padded(t, |t|).value] else []
      case Some(k) => if Padded(t, k).None? then [] else [Padded(t, k).value] + Leading(t[k + 1..], n - 1)
  }

  /** The same where every field must have a colon after it. */
  function Terminated(t: string, n: nat): (r: Option<seq<string>>)
    ensures r.Some? ==> |r.value| <= n
  {
    if n == 0 then Some([])
    else
      match FirstColon(t)
      case None => None
      case Some(k) => if Padded(t, k).None? then Some([]) else Cons(Padded(t, k).value, Terminated(t[k + 1..], n - 1))
  }

  function ZeroFields(n: int): (r: seq<string>)
    ensures |r| == if n < 0 then 0 else n
  {
    if n <= 0 then [] else ["0000"] + ZeroFields(n - 1)
  }

  // ---------- the four expansions ----------

  function LowerChar(c: char): char {
    if 'A' <= c <= 'Z' then (c as int + 32) as char else c
  }

  function Lower(t: string): (r: string)
    ensures |r| == |t|
  {
    if t == "" then "" else [LowerChar(t[0])] + Lower(t[1..])
  }

  /** Eight fields, or none: the error. */
  function OmittedFields(t: string): Option<seq<string>> { Rest(t, 0) }

  /** How many fields a double colon at either end stands for, by the colons of the text. */
  function Missing(t: string): int { 9 - Colons(t) }

  function BeginFields(t: string): Option<seq<string>>
    requires |t| >= 2
  {
    var n := if |t| == 2 then 8 else Missing(t);
    if n < 0 || n > 8 then None
    else Prepended(ZeroFields(n), Rest(t[2..], n))
  }

  function MiddleFields(t: string): Option<seq<string>> {
    match FirstDouble(t)
    case None => None
    case Some(p) => Around(t[..p], t[p + 2..])
  }

  /** The fields of two texts with zero fields between them. */
  function Around(begin: string, end: string): Option<seq<string>> {
    var head := Leading(begin, Colons(begin) + 1);
    After(head + ZeroFields(7 - Colons(end) - |head|), end)
  }

  /** The fields got so far, and what the text gives for the others. */
  function After(front: seq<string>, end: string): Option<seq<string>> {
    if |front| > 8 then None else Prepended(front, Rest(end, |front|))
  }

  function EndFields(t: string): Option<seq<string>> {
    if Missing(t) > 8 || Missing(t) < 0 then None
    else match Terminated(t, 8 - Missing(t)) case None => None case Some(fs) => Some(fs + ZeroFields(8 - |fs|))
  }

  const NORMAL_TYPE := 1
  const OMITTED_TYPE := 2
  const COMPRESS_TYPE := 4

  /** The end of every expansion: eight fields, or none for an error, joined and put in lower case. */
  function Finished(r: Option<seq<string>>): (int, string) {
    if r.None? then (INVALID_ADDRESS, "")
    else if |Join(r.value)| != 39 then (INVALID_LENGTH, "")
    else (SUCCESS, Lower(Join(r.value)))
  }

  /** The result of get_uncompress_ipv6_address and the text it stores. */
  function Expanded(t: string): (int, string) {
    if Verdict(t) != SUCCESS then (Verdict(t), "")
    else
      match FirstDouble(t)
      case None => if |t| == 39 then (NORMAL_TYPE, t) else Finished(OmittedFields(t))
      case Some(p) =>
        if p == 0 then Finished(BeginFields(t))
        else if p == |t| - 2 then Finished(EndFields(t))
        else Finished(MiddleFields(t))
  }

  // ---------- the loops ----------

  /** The fields got, and what the remaining text gives, are what the whole text gives. */
  ghost predicate Read(text: string, start: nat, temp: string, i: nat, got: seq<string>) {
    && i <= 8 && start + |got| == i
    && match Rest(temp, i)
       case None => Rest(text, start) == None
       case Some(r) => Rest(text, start) == Some(got + r)
  }

  lemma ReadStart(text: string, start: nat)
    requires start <= 8
    ensures Read(text, start, text, start, [])
  {
    if Rest(text, start).Some? {
      assert [] + Rest(text, start).value == Rest(text, start).value;
    }
  }

  lemma ReadLast(text: string, start: nat, temp: string, got: seq<string>, f: string)
    requires Read(text, start, temp, 7, got) && FirstColon(temp).None? && Padded(temp, |temp|) == Some(f)
    ensures Read(text, start, "", 8, got + [f])
  {
    assert got + [f] == got + [f] + [];
  }

  lemma ReadMore(text: string, start: nat, temp: string, i: nat, got: seq<string>, k: nat, f: string)
    requires Read(text, start, temp, i, got) && i < 8 && FirstColon(temp) == Some(k) && Padded(temp, k) == Some(f)
    ensures Read(text, start, temp[k + 1..], i + 1, got + [f])
  {
    var r := Rest(temp[k + 1..], i + 1);
    assert Rest(temp, i) == Cons(f, r);
    hide Rest, Padded;
    if r.Some? {
      Between(got, f, r.value);
    }
  }

  lemma Between(got: seq<string>, f: string, r: seq<string>)
    ensures got + ([f] + r) == got + [f] + r
    ensures got + [] == got
  {
  }

  lemma ReadStops(text: string, start: nat, temp: string, i: nat, got: seq<string>)
    requires Read(text, start, temp, i, got)
    ensures i == 8 ==> Rest(text, start) == Some(got)
    ensures i < 8 && FirstColon(temp).None? && (i != 7 || Padded(temp, |temp|).None?) ==> Rest(text, start) == None
    ensures i < 8 && FirstColon(temp).Some? && Padded(temp, FirstColon(temp).value).None? ==> Rest(text, start) == None
  {
    if i == 8 {
      assert got + [] == got;
    }
  }

  /** The loop that fills the fields from start to 7; it gets to 8 exactly when it succeeds. */
  method FillRest(fields: array<string>, text: string, start: nat) returns (i: nat)
    requires fields.Length == 8 && start <= 8
    modifies fields
    ensures i == 8 <==> Rest(text, start).Some?
    ensures i == 8 ==> fields[..] == old(fields[..start]) + Rest(text, start).value
  {
    hide Padded, Read, Rest;
    var temp := text;
    i := start;
    ReadStart(text, start);
    assert fields[start..start] == [];
    while i < 8
      invariant start <= i <= 8 && fields[..start] == old(fields[..start])
      invariant Read(text, start, temp, i, fields[start..i])
    {
      ReadStops(text, start, temp, i, fields[start..i]);
      var split := FirstColon(temp);
      ghost var got := fields[start..i];
      if split.None? {
        if i != 7 { return; }
        var field := Padded(temp, |temp|);
        if field.None? { return; }
        ReadLast(text, start, temp, got, field.value);
        fields[i] := field.value;
        temp := "";
      } else {
        var field := Padded(temp, split.value);
        if field.None? { return; }
        ReadMore(text, start, temp, i, got, split.value, field.value);
        fields[i] := field.value;
        temp := temp[split.value + 1..];
      }
      assert fields[start..i + 1] == got + [fields[i]];
      i := i + 1;
    }
    ReadStops(text, start, temp, i, fields[start..i]);
    assert fields[..] == fields[..start] + fields[start..8];
  }

  /** The loop that writes zero fields. */
  method FillZeros(fields: array<string>, from: nat, to: int) returns (i: nat)
    requires fields.Length == 8 && from <= 8 && to <= 8
    modifies fields
    ensures i == from + |ZeroFields(to - from)| <= 8
    ensures fields[..i] == old(fields[..from]) + ZeroFields(to - from)
  {
    i := from;
    while i < to
      invariant from <= i <= 8 && (i <= to || i == from) && fields[..from] == old(fields[..from])
      invariant forall k :: from <= k < i ==> fields[k] == "0000"
    {
      fields[i] := "0000";
      i := i + 1;
    }
    ZerosAre(fields[from..i], to - from);
    assert fields[..i] == fields[..from] + fields[from..i];
  }

  lemma {:induction false} ZeroFieldsAt(n: nat)
    ensures forall k :: 0 <= k < n ==> ZeroFields(n)[k] == "0000"
  {
    if n == 0 {
    } else {
      ZeroFieldsAt(n - 1);
    }
  }

  lemma ZerosAre(fs: seq<string>, n: int)
    requires |fs| == (if n < 0 then 0 else n) && forall k :: 0 <= k < |fs| ==> fs[k] == "0000"
    ensures fs == ZeroFields(n)
  {
    ZeroFieldsAt(|fs|);
  }

  /** The fields got, and m more from the remaining text, are the leading fields of the whole text. */
  ghost predicate LedSoFar(text: string, n: nat, temp: string, m: nat, got: seq<string>) {
    && (m > 0 ==> m == Colons(temp) + 1)
    && Leading(text, n) == got + if m > 0 then Leading(temp, m) else []
  }

  lemma LedStart(text: string, n: nat)
    requires n == Colons(text) + 1
    ensures LedSoFar(text, n, text, n, [])
  {
    assert [] + Leading(text, n) == Leading(text, n);
  }

  lemma LedStep(text: string, n: nat, temp: string, m: nat, got: seq<string>)
    requires LedSoFar(text, n, temp, m, got) && m > 0
    ensures var k := if FirstColon(temp).None? then |temp| else FirstColon(temp).value;
            match Padded(temp, k)
            case None => Leading(text, n) == got
            case Some(f) =>
              LedSoFar(text, n, if FirstColon(temp).None? then temp else temp[k + 1..], m - 1, got + [f])
  {
    LeadingStep(temp, m);
    hide Leading;
    var k := if FirstColon(temp).None? then |temp| else FirstColon(temp).value;
    Between(got, "", []);
    match Padded(temp, k)
    case None =>
    case Some(f) =>
      Between(got, f, if m > 1 then Leading(temp[k + 1..], m - 1) else []);
      NoFieldsLeft(temp);
  }

  lemma NoFieldsLeft(t: string)
    ensures forall k :: 0 <= k <= |t| ==> Leading(t[k..], 0) == []
  {
  }

  lemma Snoc(fs: seq<string>, i: nat, got: seq<string>)
    requires i < |fs| && fs[..i] == got
    ensures fs[..i + 1] == got + [fs[i]]
  {
  }

  /** The loop over the fields in front of the double colon; the pointer after the last of them is not used. */
  method FillLeading(fields: array<string>, text: string, n: nat) returns (i: nat)
    requires fields.Length == 8 && n == Colons(text) + 1 <= 8
    modifies fields
    ensures i == |Leading(text, n)| && fields[..i] == Leading(text, n)
  {
    hide Padded, Leading, LedSoFar;
    var temp := text;
    i := 0;
    LedStart(text, n);
    assert fields[..0] == [];
    while i < n
      invariant 0 <= i <= n && LedSoFar(text, n, temp, n - i, fields[..i])
    {
      LedStep(text, n, temp, n - i, fields[..i]);
      var split := FirstColon(temp);
      ghost var got := fields[..i];
      var k := if split.None? then |temp| else split.value;
      var field := Padded(temp, k);
      if field.None? { return; }
      fields[i] := field.value;
      Snoc(fields[..], i, got);
      if split.Some? {
        temp := temp[k + 1..];
      }
      i := i + 1;
    }
    LedEnd(text, n, temp, fields[..i]);
  }

  lemma LedEnd(text: string, n: nat, temp: string, got: seq<string>)
    requires LedSoFar(text, n, temp, 0, got)
    ensures Leading(text, n) == got
  {
    assert got + [] == got;
  }

  lemma {:induction false} ColonsAppend(x: string, y: string)
    ensures Colons(x + y) == Colons(x) + Colons(y)
    decreases |y|
  {
    if y == "" {
      assert x + y == x;
    } else {
      assert (x + y)[..|x + y| - 1] == x + y[..|y| - 1];
      ColonsAppend(x, y[..|y| - 1]);
    }
  }

  lemma {:induction false} NoColons(t: string)
    ensures Colons(t) == 0 <==> ':' !in t
  {
    if t == "" {
    } else {
      NoColons(t[..|t| - 1]);
      assert t == t[..|t| - 1] + [t[|t| - 1]];
    }
  }

  lemma ColonsAfterFirst(t: string)
    ensures FirstColon(t).None? ==> Colons(t) == 0
    ensures FirstColon(t).Some? ==> Colons(t) == Colons(t[FirstColon(t).value + 1..]) + 1
  {
    match FirstColon(t)
    case None => NoColons(t);
    case Some(k) =>
      assert t == t[..k] + (":" + t[k + 1..]);
      ColonsAppend(t[..k], ":" + t[k + 1..]);
      ColonsAppend(":", t[k + 1..]);
      NoColons(t[..k]);
      assert Colons(":") == 1 by { assert Colons("") == 0; }
  }

  /** One field of the leading ones. */
  lemma LeadingStep(t: string, n: nat)
    requires n == Colons(t) + 1
    ensures match FirstColon(t)
            case None => n == 1 && Leading(t, n) == (if Padded(t, |t|).None? then [] else [Padded(t, |t|).value] + [])
            case Some(k) =>
              && n - 1 == Colons(t[k + 1..]) + 1
              && Leading(t, n) == if Padded(t, k).None? then [] else [Padded(t, k).value] + Leading(t[k + 1..], n - 1)
  {
    ColonsAfterFirst(t);
  }

  /** The fields got, and what the rest of the text gives, are the terminated fields of the whole. */
  ghost predicate Ended(text: string, n: nat, temp: string, m: nat, got: seq<string>) {
    match Terminated(temp, m)
    case None => Terminated(text, n) == None
    case Some(r) => Terminated(text, n) == Some(got + r)
  }

  lemma EndedStart(text: string, n: nat)
    ensures Ended(text, n, text, n, [])
  {
    if Terminated(text, n).Some? {
      assert [] + Terminated(text, n).value == Terminated(text, n).value;
    }
  }

  lemma EndedStep(text: string, n: nat, temp: string, m: nat, got: seq<string>)
    requires Ended(text, n, temp, m, got)
    ensures m == 0 ==> Terminated(text, n) == Some(got)
    ensures m > 0 && FirstColon(temp).None? ==> Terminated(text, n) == None
    ensures m > 0 && FirstColon(temp).Some? ==>
      var k := FirstColon(temp).value;
      match Padded(temp, k)
      case None => Terminated(text, n) == Some(got)
      case Some(f) => Ended(text, n, temp[k + 1..], m - 1, got + [f])
  {
    if m == 0 || FirstColon(temp).None? {
      Between(got, "", []);
    } else {
      var k := FirstColon(temp).value;
      match Padded(temp, k)
      case None => Between(got, "", []);
      case Some(f) =>
        var r := Terminated(temp[k + 1..], m - 1);
        assert Terminated(temp, m) == Cons(f, r);
        hide Terminated;
        if r.Some? {
          Between(got, f, r.value);
        }
    }
  }

  /** The loop over fields that a colon must follow. */
  method FillTerminated(fields: array<string>, text: string, n: nat) returns (ok: bool, i: nat)
    requires fields.Length == 8 && n <= 8
    modifies fields
    ensures ok == Terminated(text, n).Some?
    ensures ok ==> i == |Terminated(text, n).value| && i <= 8 && fields[..i] == Terminated(text, n).value
  {
    hide Padded, Terminated, Ended;
    var temp := text;
    i := 0;
    EndedStart(text, n);
    assert fields[..0] == [];
    while i < n
      invariant 0 <= i <= n && Ended(text, n, temp, n - i, fields[..i])
    {
      EndedStep(text, n, temp, n - i, fields[..i]);
      var split := FirstColon(temp);
      ghost var got := fields[..i];
      if split.None? {
        return false, i;
      }
      var field := Padded(temp, split.value);
      if field.None? {
        return true, i;
      }
      fields[i] := field.value;
      assert fields[..i + 1] == got + [field.value];
      temp := temp[split.value + 1..];
      i := i + 1;
    }
    EndedStep(text, n, temp, 0, fields[..i]);
    ok := true;
  }

  /** The macro TO_LOWER_CASE. */
  method ToLowerCase(t: string) returns (out: string)
    ensures out == Lower(t)
  {
    out := "";
    assert t[0..] == t;
    for i := 0 to |t|
      invariant Lower(t) == out + Lower(t[i..])
    {
      assert t[i..][0] == t[i] && t[i..][1..] == t[i + 1..];
      assert out + ([LowerChar(t[i])] + Lower(t[i + 1..])) == out + [LowerChar(t[i])] + Lower(t[i + 1..]);
      out := out + [LowerChar(t[i])];
    }
  }

  /** The macro GET_IPV6_ADDRESS_COLON_COUNT. */
  method CountColons(t: string) returns (n: nat)
    ensures n == Colons(t)
  {
    n := 0;
    for i := 0 to |t|
      invariant n == Colons(t[..i])
    {
      assert t[..i + 1][..i] == t[..i];
      if t[i] == ':' {
        n := n + 1;
      }
    }
    assert t[..|t|] == t;
  }

  /** The end of every expansion: the fields joined, their length checked, put in lower case. */
  method Finish(fields: array<string>) returns (ret: int, out: string)
    requires fields.Length == 8
    ensures (ret, out) == Finished(Some(fields[..]))
  {
    var text := Join(fields[..]);
    if |text| != 39 {
      return INVALID_LENGTH, "";
    }
    out := ToLowerCase(text);
    ret := SUCCESS;
  }

  lemma {:induction false} DoubleHasColons(t: string, i: nat)
    requires DoubleAt(t, i)
    ensures Colons(t) >= 2 + Colons(t[..i]) + Colons(t[i + 2..])
  {
    assert t == t[..i] + ("::" + t[i + 2..]);
    ColonsAppend(t[..i], "::" + t[i + 2..]);
    ColonsAppend("::", t[i + 2..]);
    assert Colons("::") == 2 by {
      assert "::"[..1] == ":" && ":"[..0] == "";
      assert Colons(":") == 1;
    }
  }

  // ---------- the functions ----------

  /** uncompress_ipv6_address_omit_leading_zeros. */
  method ExpandOmitted(ip: string, maxLen: int) returns (ret: int, out: string)
    ensures (ret, out) == if maxLen <= 39 then (INVALID_LENGTH, "") else Finished(OmittedFields(ip))
  {
    if maxLen <= 39 {
      return INVALID_LENGTH, "";
    }
    hide Rest, Finished;
    var fields := new string[8];
    var i := FillRest(fields, ip, 0);
    FinishedNone();
    if i != 8 {
      return INVALID_ADDRESS, "";
    }
    assert Rest(ip, 0) == Some(fields[..]) by { assert [] + Rest(ip, 0).value == Rest(ip, 0).value; }
    ret, out := Finish(fields);
  }

  lemma FinishedNone()
    ensures Finished(None) == (INVALID_ADDRESS, "")
  {
  }

  /** uncompress_ipv6_address_compress_begin. */
  method ExpandBegin(ip: string, maxLen: int) returns (ret: int, out: string)
    requires Verdict(ip) == SUCCESS && FirstDouble(ip) == Some(0)
    ensures (ret, out) == if maxLen <= 39 then (INVALID_LENGTH, "") else Finished(BeginFields(ip))
  {
    if maxLen <= 39 {
      return INVALID_LENGTH, "";
    }
    DoubleHasColons(ip, 0);
    hide Rest, Finished, ZeroFields;
    var fields := new string[8];
    var missing: int := 8;
    if |ip| != 2 {
      var colons := CountColons(ip);
      if colons <= 0 {
        return INVALID_ADDRESS, "";
      }
      missing := 7 - colons as int + 2;
    }
    var i := FillZeros(fields, 0, missing);
    ghost var zeros := fields[..i];
    assert zeros == ZeroFields(missing) by { assert [] + ZeroFields(missing) == ZeroFields(missing); }
    i := FillRest(fields, ip[2..], i);
    FinishedNone();
    if i != 8 {
      return INVALID_ADDRESS, "";
    }
    ret, out := Finish(fields);
  }

  /** uncompress_ipv6_address_compress_middle. */
  method ExpandMiddle(ip: string, maxLen: int) returns (ret: int, out: string)
    requires Verdict(ip) == SUCCESS && FirstDouble(ip).Some? && 0 < FirstDouble(ip).value < |ip| - 2
    ensures (ret, out) == if maxLen <= 39 then (INVALID_LENGTH, "") else Finished(MiddleFields(ip))
  {
    if maxLen <= 39 {
      return INVALID_LENGTH, "";
    }
    hide Finished, MiddleFields, FirstDouble, Verdict, Colons, DoubleAt;
    var fields := new string[8];
    var split := FirstDouble(ip).value;
    MiddleColons(ip, split);
    var ok := FillMiddle(fields, ip, split);
    FinishedNone();
    if !ok {
      return INVALID_ADDRESS, "";
    }
    ret, out := Finish(fields);
  }

  /** The three loops of the middle case. */
  method FillMiddle(fields: array<string>, ip: string, split: nat) returns (ok: bool)
    requires fields.Length == 8 && FirstDouble(ip) == Some(split) && split + 2 <= |ip|
    requires Colons(ip[..split]) + Colons(ip[split + 2..]) <= 6
    modifies fields
    ensures MiddleFields(ip) == if ok then Some(fields[..]) else None
  {
    hide Rest, ZeroFields, Leading, MiddleFields, Around, FirstDouble, Colons, DoubleAt, Prepended, After;
    var begin, end := ip[..split], ip[split + 2..];
    var beginCount := CountColons(begin);
    var endCount := CountColons(end);
    var i := FillLeading(fields, begin, beginCount + 1);
    ghost var head := fields[..i];
    i := FillZeros(fields, i, 8 - (endCount + 1));
    ghost var zeros := ZeroFields(7 - endCount - |head|);
    MiddleAround(ip, split);
    AroundIs(begin, end, head, zeros);
    ghost var front := fields[..i];
    assert front == head + zeros;
    i := FillRest(fields, end, i);
    AfterIs(front, end);
    PrependedIs(front, Rest(end, |front|));
    ok := i == 8;
  }

  lemma PrependedIs(x: seq<string>, r: Option<seq<string>>)
    ensures Prepended(x, r) == if r.None? then None else Some(x + r.value)
  {
  }

  lemma MiddleColons(t: string, p: nat)
    requires Verdict(t) == SUCCESS && FirstDouble(t) == Some(p)
    ensures Colons(t[..p]) + Colons(t[p + 2..]) <= 6
  {
    DoubleHasColons(t, p);
  }

  lemma MiddleAround(t: string, p: nat)
    requires FirstDouble(t) == Some(p) && p + 2 <= |t|
    ensures MiddleFields(t) == Around(t[..p], t[p + 2..])
  {
    hide FirstDouble, Around, DoubleAt;
  }

  lemma AroundIs(begin: string, end: string, head: seq<string>, zeros: seq<string>)
    requires head == Leading(begin, Colons(begin) + 1) && zeros == ZeroFields(7 - Colons(end) - |head|)
    ensures Around(begin, end) == After(head + zeros, end)
  {
    hide Leading, ZeroFields, Colons, After;
  }

  lemma AfterIs(front: seq<string>, end: string)
    requires |front| <= 8
    ensures After(front, end) == Prepended(front, Rest(end, |front|))
  {
    hide Rest, Prepended;
  }

  /** uncompress_ipv6_address_compress_end. */
  method ExpandEnd(ip: string, maxLen: int) returns (ret: int, out: string)
    requires Verdict(ip) == SUCCESS && FirstDouble(ip) == Some(|ip| - 2)
    ensures (ret, out) == if maxLen <= 39 then (INVALID_LENGTH, "") else Finished(EndFields(ip))
  {
    if maxLen <= 39 {
      return INVALID_LENGTH, "";
    }
    DoubleHasColons(ip, |ip| - 2);
    hide Finished, Verdict, FirstDouble, Colons, DoubleAt, EndFields;
    var fields := new string[8];
    var colons := CountColons(ip);
    if colons <= 0 {
      return INVALID_ADDRESS, "";
    }
    FinishedNone();
    var ok := FillEnd(fields, ip, colons);
    if !ok {
      return INVALID_ADDRESS, "";
    }
    ret, out := Finish(fields);
  }

  /** The two loops of that case. */
  method FillEnd(fields: array<string>, ip: string, colons: nat) returns (ok: bool)
    requires fields.Length == 8 && 2 <= colons <= 8 && colons == Colons(ip)
    modifies fields
    ensures EndFields(ip) == if ok then Some(fields[..]) else None
  {
    hide ZeroFields, Terminated, Colons;
    var missing := 7 - colons as int + 2;
    var found, i := FillTerminated(fields, ip, 8 - missing);
    if !found {
      return false;
    }
    i := FillZeros(fields, i, 8);
    assert fields[..8] == fields[..];
    ok := i == 8;
  }

  /** snprintf of a text into maxLen characters, the terminator included. */
  function Copied(t: string, maxLen: nat): string
    requires maxLen > 0
  {
    if |t| < maxLen then t else t[..maxLen - 1]
  }

  /** get_compress_ipv6_address: a text that is not of full length is copied as it is. */
  method GetCompressed(ip: CString, maxLen: nat) returns (ret: int, out: string)
    requires maxLen > 0
    ensures Verdict(ip) != SUCCESS ==> ret == Verdict(ip)
    ensures Verdict(ip) == SUCCESS && FirstDouble(ip).Some? ==> ret == COMPRESS_TYPE && out == Copied(ip, maxLen)
    ensures Verdict(ip) == SUCCESS && FirstDouble(ip).None? && |ip| < 39 ==>
      ret == OMITTED_TYPE && out == Copied(ip, maxLen)
    ensures Verdict(ip) == SUCCESS && FirstDouble(ip).None? && |ip| == 39 ==>
      && IsAddress(FieldsOf(ip)) && ip == Join(FieldsOf(ip))
      && if maxLen <= 39 then ret == INVALID_LENGTH else ret == SUCCESS && out == Compressed(FieldsOf(ip))
  {
    hide Compressed, Join, IsAddress;
    ret := VerifyFormat(ip);
    if ret < 0 {
      return ret, "";
    }
    if FirstDouble(ip).Some? {
      return COMPRESS_TYPE, Copied(ip, maxLen);
    }
    if |ip| < 39 {
      return OMITTED_TYPE, Copied(ip, maxLen);
    }
    NoDoubles(ip);
    AcceptedFull(ip);
    ret, out := CompressAddress(ip, maxLen, FieldsOf(ip));
  }

  lemma {:induction false} NoDoubles(t: string)
    requires forall k :: !DoubleAt(t, k)
    ensures Doubles(t) == 0
  {
    if t == "" {
    } else {
      var p := t[..|t| - 1];
      forall k | DoubleAt(p, k)
        ensures DoubleAt(t, k)
      {
      }
      NoDoubles(p);
      assert EndsDouble(t) ==> DoubleAt(t, |t| - 2);
    }
  }

  /** The same for a buffer of any size: only the copy of a full address fits a small one. */
  function ExpandedTo(t: string, maxLen: nat): (int, string)
    requires maxLen > 0
  {
    if maxLen > 39 || Verdict(t) != SUCCESS then Expanded(t)
    else if FirstDouble(t).None? && |t| == 39 then (NORMAL_TYPE, Copied(t, maxLen))
    else (INVALID_LENGTH, "")
  }

  /** get_uncompress_ipv6_address. */
  method GetExpanded(ip: CString, maxLen: nat) returns (ret: int, out: string)
    requires maxLen > 0
    ensures (ret, out) == ExpandedTo(ip, maxLen)
  {
    hide Finished, BeginFields, MiddleFields, EndFields, OmittedFields;
    ret := VerifyFormat(ip);
    if ret < 0 {
      return ret, "";
    }
    var split := FirstDouble(ip);
    if split.Some? {
      if split.value == 0 {
        ret, out := ExpandBegin(ip, maxLen);
      } else if split.value == |ip| - 2 {
        ret, out := ExpandEnd(ip, maxLen);
      } else {
        ret, out := ExpandMiddle(ip, maxLen);
      }
      return;
    }
    if |ip| == 39 {
      return NORMAL_TYPE, Copied(ip, maxLen);
    }
    ret, out := ExpandOmitted(ip, maxLen);
  }
}
