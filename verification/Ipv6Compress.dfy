/** Compression of a full IPv6 address: leading zeros go, and the rightmost run of zero fields
    becomes a double colon. */
module Ipv6Compress {
  import opened CStrings
  import opened Ipv6Text

  // ---------- addresses ----------

  /** One full field: four hexadecimal digits. */
  predicate FullField(f: string) { |f| == 4 && forall i :: 0 <= i < 4 ==> IsHex(f[i]) }

  /** Eight full fields. */
  predicate IsAddress(a: seq<string>) { |a| == 8 && forall i :: 0 <= i < 8 ==> FullField(a[i]) }

  /** The fields with colons between them. */
  function Join(fs: seq<string>): string {
    if fs == [] then "" else if |fs| == 1 then fs[0] else fs[0] + (":" + Join(fs[1..]))
  }

  /** The fields with a colon after each. */
  function Led(fs: seq<string>): string {
    if fs == [] then "" else Led(fs[..|fs| - 1]) + (fs[|fs| - 1] + ":")
  }

  lemma {:induction false} JoinLed(fs: seq<string>, gs: seq<string>)
    requires gs != []
    ensures Join(fs + gs) == Led(fs) + Join(gs)
    decreases |fs|
  {
    if fs == [] {
      assert fs + gs == gs;
    } else {
      var front, last := fs[..|fs| - 1], fs[|fs| - 1];
      assert fs + gs == front + ([last] + gs);
      JoinLed(front, [last] + gs);
      assert ([last] + gs)[1..] == gs;
      assert Led(front) + (last + (":" + Join(gs))) == Led(front) + (last + ":") + Join(gs);
    }
  }

  // ---------- the compressed form ----------

  function Stripped(f: string): string {
    if f != "" && f[0] == '0' then Stripped(f[1..]) else f
  }

  predicate ZeroField(f: string) { Stripped(f) == "" }

  /** A field without its leading zeros; one zero of a zero field stays. */
  function Short(f: string): string {
    if ZeroField(f) then "0" else Stripped(f)
  }

  function Shorts(a: seq<string>): (r: seq<string>)
    ensures |r| == |a|
  {
    seq(|a|, i requires 0 <= i < |a| => Short(a[i]))
  }

  /** The end of the rightmost run of zero fields among the first n; zero if there is none. */
  function RunEnd(a: seq<string>, n: nat): (e: nat)
    requires n <= |a|
    ensures e <= n && (e > 0 ==> ZeroField(a[e - 1])) && forall k :: e <= k < n ==> !ZeroField(a[k])
  {
    if n == 0 then 0 else if ZeroField(a[n - 1]) then n else RunEnd(a, n - 1)
  }

  /** The beginning of the run that ends at e. */
  function RunStart(a: seq<string>, e: nat): (b: nat)
    requires e <= |a|
    ensures b <= e && (forall k :: b <= k < e ==> ZeroField(a[k])) && (b > 0 ==> !ZeroField(a[b - 1]))
  {
    if e > 0 && ZeroField(a[e - 1]) then RunStart(a, e - 1) else e
  }

  function First(a: seq<string>): nat { RunStart(a, RunEnd(a, |a|)) }

  function Last(a: seq<string>): nat { RunEnd(a, |a|) }

  /** The text with fields b to e left out for a double colon. */
  function Cut(s: seq<string>, b: nat, e: nat): string
    requires b <= e <= |s|
  {
    Join(s[..b]) + ("::" + Join(s[e..]))
  }

  /** What compress_ipv6_address writes. */
  function Compressed(a: seq<string>): string {
    if Last(a) == 0 then Join(Shorts(a)) else Cut(Shorts(a), First(a), Last(a))
  }

  // ---------- the first pass: reading the fields ----------

  lemma {:induction false} StrippedSnoc(f: string, c: char)
    ensures Stripped(f + [c]) == if Stripped(f) == "" && c == '0' then "" else Stripped(f) + [c]
  {
    if f != "" && f[0] == '0' {
      assert (f + [c])[1..] == f[1..] + [c];
      StrippedSnoc(f[1..], c);
    } else if f == "" {
      assert f + [c] == [c];
      assert Stripped([c][1..]) == "";
    }
  }

  /** The marks of the source: no leading zeros, some, only zeros, part of the chosen run. */
  const PLAIN := 0
  const OMITTED := 2
  const TARGET := 3
  const IN_RUN := 4

  function Mark(f: string): int {
    if ZeroField(f) then TARGET else if f != "" && f[0] == '0' then OMITTED else PLAIN
  }

  lemma {:induction false} StrippedStart(f: string)
    ensures Stripped(f) == "" || Stripped(f)[0] != '0'
    ensures |Stripped(f)| <= |f|
  {
    if f == "" || f[0] != '0' {
    } else {
      StrippedStart(f[1..]);
    }
  }

  /** The text from position 5i on begins with field i. */
  lemma FieldInText(a: seq<string>, i: nat)
    requires IsAddress(a) && i < 8
    ensures |Join(a)| == 39 && Join(a)[5 * i..5 * i + 4] == a[i]
    ensures i < 7 ==> Join(a)[5 * i + 4] == ':'
  {
    var t := Join(a);
    JoinLength(a, 8);
    JoinAt(a, i);
  }

  lemma {:induction false} JoinLength(a: seq<string>, n: nat)
    requires |a| == n > 0 && forall i :: 0 <= i < n ==> FullField(a[i])
    ensures |Join(a)| == 5 * n - 1
    decreases n
  {
    if n <= 1 {
    } else {
      JoinLength(a[1..], n - 1);
    }
  }

  lemma SliceBehind(x: string, u: string, k: nat)
    requires k + 4 <= |u|
    ensures (x + u)[|x| + k..|x| + k + 4] == u[k..k + 4]
    ensures k + 4 < |u| ==> (x + u)[|x| + k + 4] == u[k + 4]
  {
  }

  lemma {:induction false} JoinAt(a: seq<string>, i: nat)
    requires i < |a| && forall k :: 0 <= k < |a| ==> FullField(a[k])
    ensures |Join(a)| >= 5 * i + 4 && Join(a)[5 * i..5 * i + 4] == a[i]
    ensures i < |a| - 1 ==> |Join(a)| > 5 * i + 4 && Join(a)[5 * i + 4] == ':'
    decreases |a|
  {
    assert FullField(a[0]);
    if i > 0 {
      JoinAt(a[1..], i - 1);
      var t, u := Join(a), Join(a[1..]);
      assert t == (a[0] + ":") + u;
      SliceBehind(a[0] + ":", u, 5 * (i - 1));
    } else if |a| > 1 {
      assert Join(a) == a[0] + (":" + Join(a[1..]));
    }
  }

  /** The loop over the characters of one field. */
  method ReadField(ip: string, start: nat, ghost f: string) returns (data: string, mark: int, temp: nat)
    requires ':' !in f && '\0' !in f && HasAt(ip, start, f)
    requires At(ip, start + |f|) == ':' || start + |f| == |ip|
    ensures data == Short(f) && mark == Mark(f) && temp == start + |f|
  {
    var omitting := true;
    data, mark, temp := "", PLAIN, start;
    while At(ip, temp) != ':' && At(ip, temp) != '\0'
      invariant start <= temp <= start + |f|
      invariant data == Stripped(f[..temp - start]) && omitting == (data == "")
      invariant mark == if temp > start && f[0] == '0' then OMITTED else PLAIN
      decreases start + |f| - temp
    {
      assert temp != start + |f|;
      ghost var k := temp - start;
      CharOf(ip, start, f, k);
      assert f[..k + 1] == f[..k] + [f[k]];
      StrippedSnoc(f[..k], f[k]);
      StrippedStart(f[..k + 1]);
      if omitting {
        AllZeros(f, k);
      }
      if At(ip, temp) != '0' || !omitting {
        omitting := false;
        data := data + [At(ip, temp)];
      } else {
        if data == "" {
          mark := OMITTED;
        }
      }
      temp := temp + 1;
    }
    if temp < start + |f| {
      CharOf(ip, start, f, temp - start);
    }
    assert f[..|f|] == f;
    if data == "" {
      mark := TARGET;
      data := "0";
    }
  }

  lemma AllZeros(f: string, k: nat)
    requires k < |f| && Stripped(f[..k]) == ""
    ensures k > 0 ==> f[0] == '0'
  {
    if k > 0 {
      assert f[..k][0] == f[0];
    }
  }

  /** The first loop of compress_ipv6_address. */
  method ReadFields(ip: string, ghost a: seq<string>, data: array<string>, mark: array<int>)
    requires IsAddress(a) && ip == Join(a) && data.Length == 8 && mark.Length == 8
    modifies data, mark
    ensures data[..] == Shorts(a)
    ensures forall k :: 0 <= k < 8 ==> mark[k] == Mark(a[k])
  {
    var temp := 0;
    for i := 0 to 8
      invariant temp == 5 * i
      invariant forall k :: 0 <= k < i ==> data[k] == Short(a[k]) && mark[k] == Mark(a[k])
    {
      FieldInText(a, i);
      assert FullField(a[i]);
      assert HasAt(ip, temp, a[i]);
      hide Short, Mark, Join, FullField;
      var field, kind, next := ReadField(ip, temp, a[i]);
      data[i], mark[i] := field, kind;
      temp := next + 1;
    }
  }

  /** What the second loop knows when fields j to 7 are seen: whether the run has begun, and
      where it ends. */
  ghost predicate RunSeen(a: seq<string>, mark: seq<int>, j: nat, started: bool, e: nat)
    requires |a| == |mark| == 8 && j <= 8
  {
    && (forall k :: 0 <= k < j ==> mark[k] == Mark(a[k]))
    && if started then
         && Last(a) == e && j < e <= 8 && First(a) == RunStart(a, j)
         && (forall k :: j <= k < 8 ==> (mark[k] == IN_RUN <==> k < e))
       else
         Last(a) == RunEnd(a, j) && forall k :: j <= k < 8 ==> mark[k] != IN_RUN
  }

  lemma SeeTarget(a: seq<string>, mark: seq<int>, j: nat, started: bool, e: nat)
    requires |a| == |mark| == 8 && 0 < j <= 8 && RunSeen(a, mark, j, started, e) && mark[j - 1] == TARGET
    ensures RunSeen(a, mark[j - 1 := IN_RUN], j - 1, true, if started then e else j)
  {
    hide ZeroField;
    assert Mark(a[j - 1]) == TARGET ==> ZeroField(a[j - 1]);
  }

  lemma SeeOther(a: seq<string>, mark: seq<int>, j: nat, started: bool, e: nat)
    requires |a| == |mark| == 8 && 0 < j <= 8 && RunSeen(a, mark, j, started, e) && mark[j - 1] != TARGET
    ensures !started ==> RunSeen(a, mark, j - 1, false, e)
    ensures started ==> First(a) == j
  {
    hide ZeroField;
    assert !ZeroField(a[j - 1]);
  }

  lemma RunMarked(a: seq<string>, mark: seq<int>, j: nat, started: bool, e: nat)
    requires |a| == |mark| == 8 && j <= 8 && RunSeen(a, mark, j, started, e)
    requires j == 0 || (started && First(a) == j)
    ensures forall k :: 0 <= k < 8 ==> (mark[k] == IN_RUN <==> First(a) <= k < Last(a))
  {
    hide ZeroField;
  }

  /** The second loop: the marks of the rightmost run change from right to left. */
  method MarkRun(ghost a: seq<string>, mark: array<int>)
    requires |a| == 8 && mark.Length == 8 && forall k :: 0 <= k < 8 ==> mark[k] == Mark(a[k])
    modifies mark
    ensures forall k :: 0 <= k < 8 ==> (mark[k] == IN_RUN <==> First(a) <= k < Last(a))
  {
    var count, started := 0, false;
    ghost var e := 0;
    NoRunYet(a, mark[..]);
    hide RunSeen, Mark, First, Last;
    for j := 8 downto 0
      invariant RunSeen(a, mark[..], j, started, e) && (started ==> count > 0)
    {
      if mark[j] == TARGET {
        SeeTarget(a, mark[..], j + 1, started, e);
        if !started {
          started := true;
          e := j + 1;
        }
        assert mark[..][j := IN_RUN][..j] == mark[..][..j];
        mark[j] := IN_RUN;
        count := count + 1;
      } else {
        SeeOther(a, mark[..], j + 1, started, e);
        if started && count > 0 {
          RunMarked(a, mark[..], j + 1, started, e);
          return;
        }
      }
    }
    RunMarked(a, mark[..], 0, started, e);
  }

  lemma NoRunYet(a: seq<string>, mark: seq<int>)
    requires |a| == |mark| == 8 && forall k :: 0 <= k < 8 ==> mark[k] == Mark(a[k])
    ensures RunSeen(a, mark, 8, false, 0)
  {
  }

  // ---------- the output ----------

  /** Fields from to i as the third loop writes them: all with a colon, except the eighth. */
  function Listed(s: seq<string>, from: nat, i: nat): string
    requires from <= i <= |s| == 8
  {
    if i < 8 then Led(s[from..i]) else Join(s[from..])
  }

  /** What stands in front of the second colon of the double colon. */
  function Head(s: seq<string>, b: nat): string
    requires b <= |s|
  {
    Led(s[..b]) + if b == 0 then ":" else ""
  }

  /** What the third loop has written after i fields. */
  function Written(s: seq<string>, b: nat, e: nat, i: nat): string
    requires b <= e <= |s| == 8 && i <= 8
  {
    if b == e || i <= b then Listed(s, 0, i)
    else if i <= e then Head(s, b) + (if i == 8 then ":" else "")
    else Head(s, b) + (":" + Listed(s, e, i))
  }

  lemma LedIsJoin(fs: seq<string>)
    requires fs != []
    ensures Led(fs) == Join(fs) + ":"
  {
    var front, last := fs[..|fs| - 1], fs[|fs| - 1];
    JoinLed(front, [last]);
    assert front + [last] == fs;
    assert Led(front) + (last + ":") == Led(front) + last + ":";
  }

  lemma LedSnoc(fs: seq<string>, f: string)
    ensures Led(fs + [f]) == Led(fs) + (f + ":")
    ensures Join(fs + [f]) == Led(fs) + f
  {
    assert (fs + [f])[..|fs + [f]| - 1] == fs;
    JoinLed(fs, [f]);
  }

  lemma ListedStep(s: seq<string>, from: nat, i: nat)
    requires from <= i < |s| == 8
    ensures Listed(s, from, i + 1) == Listed(s, from, i) + if i == 7 then s[i] else s[i] + ":"
  {
    assert s[from..i + 1] == s[from..i] + [s[i]];
    LedSnoc(s[from..i], s[i]);
    assert i == 7 ==> s[from..i + 1] == s[from..];
  }

  lemma NothingListed(s: seq<string>, i: nat)
    requires i < |s| == 8
    ensures Listed(s, i, i) == ""
  {
  }

  /** A field in front of the run, or when there is none. */
  lemma WrittenBefore(s: seq<string>, b: nat, e: nat, i: nat)
    requires b <= e <= |s| == 8 && i < 8 && (b == e || i < b)
    ensures Written(s, b, e, i + 1) == Written(s, b, e, i) + if i == 7 then s[i] else s[i] + ":"
  {
    ListedStep(s, 0, i);
  }

  lemma WrittenBehind(s: seq<string>, b: nat, e: nat, i: nat)
    requires b < e <= i < |s| == 8
    ensures Written(s, b, e, i) == Head(s, b) + (if i == e then "" else ":" + Listed(s, e, i))
    ensures Written(s, b, e, i + 1) == Head(s, b) + (":" + Listed(s, e, i + 1))
  {
    hide Listed, Head;
  }

  /** A field after the run; the first one brings the second colon. */
  lemma WrittenAfter(s: seq<string>, b: nat, e: nat, i: nat)
    requires b < e <= i < |s| == 8
    ensures var t := if i == e then ":" + s[i] else s[i];
            Written(s, b, e, i + 1) == Written(s, b, e, i) + if i == 7 then t else t + ":"
  {
    hide Listed, Head, Written;
    ListedStep(s, e, i);
    NothingListed(s, e);
    WrittenBehind(s, b, e, i);
    var f := if i == 7 then s[i] else s[i] + ":";
    if i == e {
      NothingBetween(f);
    } else {
      Regroup(Head(s, b), Listed(s, e, i), f);
    }
  }

  lemma Regroup(h: string, l: string, f: string)
    ensures h + (":" + (l + f)) == h + (":" + l) + f
  {
  }

  lemma NothingBetween(f: string)
    ensures ":" + ("" + f) == ":" + f
  {
  }

  /** Fields of the run write a colon only at either end of the text. */
  lemma WrittenInside(s: seq<string>, b: nat, e: nat, i: nat)
    requires b <= i < e <= |s| == 8
    ensures Written(s, b, e, i + 1) ==
            Written(s, b, e, i) + (if i == b == 0 then ":" else "") + (if i == 7 then ":" else "")
  {
    assert Listed(s, 0, b) == Led(s[..b]) by { assert s[0..b] == s[..b]; }
  }

  /** All eight fields written: the compressed form. */
  lemma WrittenAll(a: seq<string>)
    requires |a| == 8
    ensures Written(Shorts(a), First(a), Last(a), 8) == Compressed(a)
  {
    var s, b, e := Shorts(a), First(a), Last(a);
    assert s[0..] == s && s[..0] == [] && s[8..] == [];
    if e > 0 {
      if b > 0 {
        LedIsJoin(s[..b]);
      }
      hide Led, Join, Short;
      HeadIs(s, b);
      var h := Join(s[..b]);
      assert h + ":" + (":" + Join(s[e..])) == h + ("::" + Join(s[e..]));
      assert h + ":" + ":" == h + "::";
      NoFields();
      assert "::" + "" == "::";
    }
  }

  lemma NoFields()
    ensures Join([]) == "" && Led([]) == ""
  {
  }

  lemma HeadIs(s: seq<string>, b: nat)
    requires b <= |s|
    ensures Head(s, b) == Join(s[..b]) + ":"
  {
    if b > 0 {
      LedIsJoin(s[..b]);
    }
  }

  // ---------- the function ----------

  /** The third loop of compress_ipv6_address. */
  method WriteOut(data: array<string>, mark: array<int>, ghost b: nat, ghost e: nat) returns (out: string)
    requires data.Length == mark.Length == 8 && b <= e <= 8
    requires forall k :: 0 <= k < 8 ==> data[k] != "" && (mark[k] == IN_RUN <==> b <= k < e)
    ensures out == Written(data[..], b, e, 8)
  {
    hide Written;
    ghost var s := data[..];
    var flag := 0;
    out := "";
    NothingWritten(s, b, e);
    for i := 0 to 8
      invariant out == Written(s, b, e, i)
      invariant flag == if b == e || i <= b then 0 else if i <= e then 1 else 2
      invariant out == "" ==> i == 0
    {
      if mark[i] != IN_RUN {
        if i < b || b == e {
          WrittenBefore(s, b, e, i);
        } else {
          WrittenAfter(s, b, e, i);
        }
        if flag == 1 {
          if i == 7 {
            out := out + (":" + data[i]);
          } else {
            out := out + (":" + data[i] + ":");
          }
          flag := 2;
        } else {
          if i == 7 {
            out := out + data[i];
          } else {
            out := out + (data[i] + ":");
          }
        }
      } else {
        WrittenInside(s, b, e, i);
        NoText(out);
        if flag == 0 {
          flag := 1;
        }
        if i == 7 || |out| == 0 {
          out := out + ":";
        }
      }
    }
  }

  lemma NoText(t: string)
    ensures t + "" + "" == t && t + "" + ":" == t + ":" && t + ":" + "" == t + ":"
  {
  }

  lemma NothingWritten(s: seq<string>, b: nat, e: nat)
    requires b <= e <= |s| == 8
    ensures Written(s, b, e, 0) == ""
  {
  }

  lemma ShortLength(f: string)
    requires FullField(f)
    ensures 1 <= |Short(f)| <= 4
  {
    StrippedStart(f);
  }

  lemma {:induction false} JoinBound(fs: seq<string>)
    requires forall k :: 0 <= k < |fs| ==> |fs[k]| <= 4
    ensures |Join(fs)| <= if fs == [] then 0 else 5 * |fs| - 1
  {
    if |fs| <= 1 {
    } else {
      JoinBound(fs[1..]);
    }
  }

  /** The compressed form fits where the full form fits, so nothing is cut off. */
  lemma CompressedBound(a: seq<string>)
    requires IsAddress(a)
    ensures |Compressed(a)| <= 39
  {
    var s := Shorts(a);
    forall k | 0 <= k < 8
      ensures 1 <= |s[k]| <= 4
    {
      assert FullField(a[k]);
      ShortLength(a[k]);
    }
    hide Short, Join;
    JoinBound(s);
    JoinBound(s[..First(a)]);
    JoinBound(s[Last(a)..]);
  }

  /** compress_ipv6_address, on the text of a full address. */
  method CompressAddress(ip: string, maxLen: int, ghost a: seq<string>) returns (ret: int, out: string)
    requires IsAddress(a) && ip == Join(a)
    ensures ret == if maxLen <= 39 then INVALID_LENGTH else SUCCESS
    ensures ret == SUCCESS ==> out == Compressed(a) && |out| < maxLen
  {
    if maxLen <= 39 {
      return INVALID_LENGTH, "";
    }
    var data, mark := new string[8], new int[8];
    ReadFields(ip, a, data, mark);
    MarkRun(a, mark);
    forall k | 0 <= k < 8
      ensures data[k] != ""
    {
      assert FullField(a[k]);
      ShortLength(a[k]);
      assert data[k] == data[..][k];
    }
    hide Short, First, Last, Compressed, IsAddress;
    out := WriteOut(data, mark, First(a), Last(a));
    WrittenAll(a);
    CompressedBound(a);
    ret := SUCCESS;
  }

  // ---------- every accepted text of full length is a full address ----------

  /** A text whose fields are short is about as long as its colons allow. */
  lemma {:induction false} LengthBound(t: string)
    requires LongestField(t) <= 4
    ensures |t| <= 5 * Colons(t) + LastField(t)
  {
    if t == "" {
    } else {
      LengthBound(t[..|t| - 1]);
    }
  }

  /** Where that bound is met, every fifth character is a colon and no other. */
  lemma {:induction false} TightText(t: string)
    requires LongestField(t) <= 4 && |t| == 5 * Colons(t) + LastField(t)
    ensures forall k :: 0 <= k < |t| ==> (t[k] == ':' <==> k % 5 == 4)
  {
    if t == "" {
    } else {
      var p := t[..|t| - 1];
      LengthBound(p);
      TightText(p);
      assert forall k :: 0 <= k < |p| ==> p[k] == t[k];
    }
  }

  /** The fields of a text in which every fifth character is a colon. */
  function FieldsOf(t: string): seq<string>
    requires |t| == 39
  {
    seq(8, i requires 0 <= i < 8 => t[5 * i..5 * i + 4])
  }

  lemma {:induction false} JoinFields(t: string, fs: seq<string>, i: nat)
    requires |t| == 39 && fs == FieldsOf(t) && i < 8
    requires forall k :: 0 <= k < 39 ==> (t[k] == ':' <==> k % 5 == 4)
    ensures Join(fs[i..]) == t[5 * i..]
    decreases 8 - i
  {
    if i < 7 {
      JoinFields(t, fs, i + 1);
      assert fs[i..][1..] == fs[i + 1..] && fs[i..][0] == t[5 * i..5 * i + 4];
      assert t[5 * i + 4] == ':';
      assert t[5 * i..] == t[5 * i..5 * i + 4] + (":" + t[5 * (i + 1)..]);
    } else {
      assert fs[7..] == [fs[7]];
    }
  }

  /** A text of thirty-nine characters that the verifier accepts is eight full fields. */
  lemma AcceptedFull(t: string)
    requires Verdict(t) == SUCCESS && |t| == 39 && Doubles(t) == 0
    ensures IsAddress(FieldsOf(t)) && Join(FieldsOf(t)) == t
  {
    LengthBound(t);
    LastFieldBound(t);
    TightText(t);
    var fs := FieldsOf(t);
    forall i | 0 <= i < 8
      ensures FullField(fs[i])
    {
      forall j | 0 <= j < 4
        ensures IsHex(fs[i][j])
      {
        assert fs[i][j] == t[5 * i + j];
        assert (5 * i + j) % 5 == j;
      }
    }
    JoinFields(t, fs, 0);
    assert fs[0..] == fs && t[0..] == t;
  }

  lemma LastFieldBound(t: string)
    ensures LastField(t) <= LongestField(t)
  {
  }
}
