/** The two passes of parse_string: the first one measures a literal and reserves space, the second
    one writes. When the second stays inside the reserved space, and when it does not. */
module JsonReserve {
  import opened CStrings
  import opened JsonTree
  import opened JsonGrammar
  import opened JsonRound

  // ---------- the first pass ----------

  /** What the measuring loop counts from i on: one for each character or pair of a backslash and a
      character. One more than this is reserved, for the terminator. */
  function Reserved(s: string, i: nat): (n: nat)
    decreases |s| - i
  {
    if At(s, i) == '"' || At(s, i) == '\0' then 0
    else if At(s, i) == '\\' then 1 + Reserved(s, i + 2)
    else 1 + Reserved(s, i + 1)
  }

  /** Where the measuring loop stops: at a quote, or behind the text. */
  function MeasuredEnd(s: string, i: nat): (n: nat)
    ensures n >= i && (At(s, n) == '"' || At(s, n) == '\0')
    decreases |s| - i
  {
    if At(s, i) == '"' || At(s, i) == '\0' then i
    else if At(s, i) == '\\' then MeasuredEnd(s, i + 2)
    else MeasuredEnd(s, i + 1)
  }

  /** The writing loop comes to a stop from i without stepping over position end. */
  predicate Contained(s: string, i: nat, end: nat)
    decreases |s| - i
  {
    && i <= end
    && (At(s, i) == '"' || At(s, i) == '\0' ||
        Contained(s, if At(s, i) == '\\' then Escape(s, i + 1).1 else i + 1, end))
  }

  // ---------- contained literals fit ----------

  /** The number of characters that the writing loop writes from i on. */
  function Written(s: string, i: nat): nat { |BodyAt(s, i).value| }

  /** What one escape writes, and how far it reads: at most three characters for six that are read. */
  lemma EscapeShort(s: string, i: nat)
    ensures var (out, j) := Escape(s, i);
            || (At(s, i) != 'u' && j == i + 1 && |out| == 1)
            || (At(s, i) == 'u' && j == i + 5 && |out| <= 3)
            || (At(s, i) == 'u' && j == i + 11 && |out| <= 4)
  {
    hide Hex4;
  }

  lemma WrittenStop(s: string, i: nat)
    requires At(s, i) == '"' || At(s, i) == '\0'
    ensures Written(s, i) == 0
  {
  }

  lemma WrittenPlain(s: string, i: nat)
    requires At(s, i) != '"' && At(s, i) != '\0' && At(s, i) != '\\'
    ensures Written(s, i) == 1 + Written(s, i + 1)
  {
  }

  lemma WrittenEscape(s: string, i: nat)
    requires At(s, i) == '\\'
    ensures var (out, j) := Escape(s, i + 1); Written(s, i) == |out| + Written(s, j)
  {
    hide Escape;
  }

  /** The measuring loop on its way from i to position n: it gets to n, or, over a pair, to n + 1,
      and has counted at least half of the characters it passed. */
  ghost predicate Passes(s: string, i: nat, n: nat) {
    && MeasuredEnd(s, i) == MeasuredEnd(s, n)
    && 2 * Reserved(s, i) >= n - i + 2 * Reserved(s, n)
  }

  lemma {:induction false} MeasuredTo(s: string, i: nat, n: nat)
    requires i <= n <= MeasuredEnd(s, i)
    ensures Passes(s, i, n) || Passes(s, i, n + 1)
    decreases n - i
  {
    if i == n {
    } else if At(s, i) == '\\' {
      if i + 2 <= n {
        MeasuredTo(s, i + 2, n);
      } else {
        assert i + 2 == n + 1;
      }
    } else {
      MeasuredTo(s, i + 1, n);
    }
  }

  /** The measuring loop is at m, level with the writing loop at i or, after a Unicode escape without
      its four digits, one character ahead: what is still written fits into what is still counted. */
  lemma {:induction false} WrittenFits(s: string, i: nat, m: nat)
    requires (m == i || m == i + 1) && Contained(s, i, MeasuredEnd(s, m))
    ensures Written(s, i) <= m - i + Reserved(s, m)
    decreases |s| - i
  {
    hide Escape, Written;
    if At(s, i) == '"' || At(s, i) == '\0' {
      WrittenStop(s, i);
    } else if At(s, i) != '\\' {
      WrittenPlain(s, i);
      WrittenFits(s, i + 1, i + 1);
    } else {
      WrittenEscape(s, i);
      EscapeShort(s, i + 1);
      if At(s, i + 1) == 'u' {
        UnicodeFits(s, i, m);
      } else {
        PairFits(s, i, m);
      }
    }
  }

  lemma {:induction false} PairFits(s: string, i: nat, m: nat)
    requires (m == i || m == i + 1) && Contained(s, i, MeasuredEnd(s, m))
    requires At(s, i) == '\\' && At(s, i + 1) != 'u'
    ensures 1 + Written(s, i + 2) <= m - i + Reserved(s, m)
    decreases |s| - i, 0
  {
    hide Written;
    EscapeShort(s, i + 1);
    hide Escape;
    assert Contained(s, i + 2, MeasuredEnd(s, m));
    if m == i + 1 && At(s, m) == '\\' {
      WrittenFits(s, i + 2, i + 3);
    } else {
      assert m == i + 1 ==> At(s, m) != '"' && At(s, m) != '\0';
      WrittenFits(s, i + 2, i + 2);
    }
  }

  lemma {:induction false} UnicodeFits(s: string, i: nat, m: nat)
    requires (m == i || m == i + 1) && Contained(s, i, MeasuredEnd(s, m))
    requires At(s, i) == '\\' && At(s, i + 1) == 'u'
    ensures var (out, j) := Escape(s, i + 1); |out| + Written(s, j) <= m - i + Reserved(s, m)
    decreases |s| - i, 0
  {
    hide Written;
    EscapeShort(s, i + 1);
    hide Escape;
    var j := Escape(s, i + 1).1;
    assert Contained(s, j, MeasuredEnd(s, m)) && j <= MeasuredEnd(s, i + 2);
    MeasuredTo(s, i + 2, j);
    if Passes(s, i + 2, j) {
      WrittenFits(s, j, j);
    } else {
      WrittenFits(s, j, j + 1);
    }
  }

  // ---------- and only those fit whatever follows ----------

  /** n letters. */
  function Letters(n: nat): (t: CString)
    ensures |t| == n && forall k :: 0 <= k < n ==> t[k] == 'a'
  {
    if n == 0 then "" else "a" + Letters(n - 1)
  }

  /** A literal as far as the measuring loop goes, its quote included. */
  ghost predicate Measured(p: CString) {
    p != "" && MeasuredEnd(p, 0) == |p| - 1
  }

  lemma {:induction false} MeasuredLocal(p: CString, z: CString, i: nat)
    requires i <= MeasuredEnd(p, i) == |p| - 1
    ensures MeasuredEnd(p + z, i) == |p| - 1 && Reserved(p + z, i) == Reserved(p, i)
    decreases |p| - i
  {
    assert At(p + z, i) == At(p, i);
    if At(p, i) == '"' {
    } else if At(p, i) == '\\' {
      MeasuredLocal(p, z, i + 2);
    } else {
      MeasuredLocal(p, z, i + 1);
    }
  }

  /** How far an escape reads does not depend on what follows the quote, or it reads past the quote. */
  lemma EscapeLocal(p: CString, z: CString, i: nat)
    requires i < |p| - 1 && p[i] == '\\' && p[|p| - 1] == '"'
    ensures var (j, k) := (Escape(p, i + 1).1, Escape(p + z, i + 1).1);
            j == k || (j > |p| - 1 && k > |p| - 1)
    ensures Escape(p + z, i + 1).1 <= i + 12
  {
    var s := p + z;
    assert forall k :: 0 <= k < |p| ==> At(s, k) == At(p, k);
    if At(p, i + 1) == 'u' && i + 6 < |p| {
      assert Hex4(s, i + 2) == Hex4(p, i + 2);
    }
    hide Hex4;
  }

  lemma {:induction false} ContainedLocal(p: CString, z: CString, i: nat)
    requires p != "" && p[|p| - 1] == '"'
    ensures Contained(p + z, i, |p| - 1) == Contained(p, i, |p| - 1)
    decreases |p| - i
  {
    if i > |p| - 1 {
    } else {
      assert At(p + z, i) == At(p, i);
      if p[i] == '"' {
      } else if p[i] == '\\' {
        EscapeLocal(p, z, i);
        hide Escape;
        ContainedLocal(p, z, Escape(p, i + 1).1);
      } else {
        ContainedLocal(p, z, i + 1);
      }
    }
  }

  /** Behind the quote, letters are written one by one. */
  lemma {:induction false} LettersWritten(p: CString, n: nat, i: nat)
    requires |p| <= i <= |p| + n
    ensures Written(p + Letters(n), i) == |p| + n - i
    decreases |p| + n - i
  {
    var s := p + Letters(n);
    if i == |p| + n {
      WrittenStop(s, i);
    } else {
      assert At(s, i) == 'a';
      WrittenPlain(s, i);
      hide Written;
      LettersWritten(p, n, i + 1);
    }
  }

  /** A writing loop that steps over the quote writes as much as there is behind it. */
  lemma {:induction false} Overruns(p: CString, n: nat, i: nat)
    requires p != "" && p[|p| - 1] == '"' && !Contained(p, i, |p| - 1) && i <= |p| + 11 <= |p| + n
    ensures Written(p + Letters(n), i) >= n - 11
    decreases |p| - i
  {
    var s := p + Letters(n);
    hide Escape, Written;
    if i >= |p| {
      LettersWritten(p, n, i);
    } else {
      assert At(s, i) == At(p, i) == p[i];
      if p[i] == '\\' {
        EscapeLocal(p, Letters(n), i);
        WrittenEscape(s, i);
        var j := Escape(s, i + 1).1;
        ContainedLocal(p, Letters(n), i);
        ContainedLocal(p, Letters(n), j);
        Overruns(p, n, j);
      } else {
        WrittenPlain(s, i);
        Overruns(p, n, i + 1);
      }
    }
  }

  /** For a literal up to the quote at which it is measured: the writing loop stays inside the
      reserved space whatever follows that quote if and only if it does not step over the quote. */
  lemma ReservedExact(p: CString)
    requires Measured(p)
    ensures (forall z: CString :: Written(p + z, 0) <= Reserved(p + z, 0)) <==> Contained(p, 0, |p| - 1)
  {
    hide Written, Contained, Reserved, MeasuredEnd;
    LastIsQuote(p);
    if Contained(p, 0, |p| - 1) {
      forall z: CString
        ensures Written(p + z, 0) <= Reserved(p + z, 0)
      {
        MeasuredLocal(p, z, 0);
        ContainedLocal(p, z, 0);
        WrittenFits(p + z, 0, 0);
      }
    } else {
      var n := Reserved(p, 0) + 12;
      MeasuredLocal(p, Letters(n), 0);
      Overruns(p, n, 0);
      assert !(Written(p + Letters(n), 0) <= Reserved(p + Letters(n), 0));
    }
  }

  lemma LastIsQuote(p: CString)
    requires Measured(p)
    ensures p[|p| - 1] == '"'
  {
    assert At(p, |p| - 1) != '\0';
  }

  /** A literal that reserves one character and writes three. */
  lemma Overrun()
    ensures var s := "\"\\u\"aaaaaa\""; Reserved(s, 1) == 1 && Written(s, 1) == 3
  {
    var s := "\"\\u\"aaaaaa\"";
    assert At(s, 1) == '\\' && At(s, 2) == 'u' && At(s, 3) == '"' && At(s, 10) == '"';
    assert At(s, 7) == 'a' && At(s, 8) == 'a' && At(s, 9) == 'a';
    assert HexValue('"') == -1;
    assert Escape(s, 2) == ("", 7);
    WrittenEscape(s, 1);
    WrittenPlain(s, 7);
    WrittenPlain(s, 8);
    WrittenPlain(s, 9);
    WrittenStop(s, 10);
    assert Reserved(s, 3) == 0;
  }

  // ---------- escapes with their four digits ----------

  predicate HexDigits(s: string, i: nat) {
    forall k :: i <= k < i + 4 ==> HexValue(At(s, k)) >= 0
  }

  /** Every Unicode escape, as the measuring loop meets them, has four hexadecimal digits. */
  predicate WellEscaped(s: string, i: nat)
    decreases |s| - i
  {
    if At(s, i) == '"' || At(s, i) == '\0' then true
    else if At(s, i) == '\\' then (At(s, i + 1) == 'u' ==> HexDigits(s, i + 2)) && WellEscaped(s, i + 2)
    else WellEscaped(s, i + 1)
  }

  lemma DigitPassed(s: string, i: nat)
    requires HexValue(At(s, i)) >= 0
    ensures WellEscaped(s, i) == WellEscaped(s, i + 1) && MeasuredEnd(s, i) == MeasuredEnd(s, i + 1)
  {
  }

  /** Hexadecimal digits are passed one by one. */
  lemma DigitsPassed(s: string, i: nat)
    requires HexDigits(s, i)
    ensures WellEscaped(s, i) == WellEscaped(s, i + 4) && MeasuredEnd(s, i) == MeasuredEnd(s, i + 4)
  {
    hide WellEscaped, MeasuredEnd, HexValue;
    DigitPassed(s, i);
    DigitPassed(s, i + 1);
    DigitPassed(s, i + 2);
    DigitPassed(s, i + 3);
  }

  /** Literals whose Unicode escapes are complete are contained. */
  lemma {:induction false} WellEscapedContained(s: string, i: nat)
    requires WellEscaped(s, i)
    ensures Contained(s, i, MeasuredEnd(s, i))
    decreases |s| - i
  {
    if At(s, i) == '"' || At(s, i) == '\0' {
    } else if At(s, i) != '\\' {
      WellEscapedContained(s, i + 1);
    } else {
      EscapeShort(s, i + 1);
      EscapePassed(s, i);
      hide Escape;
      WellEscapedContained(s, Escape(s, i + 1).1);
    }
  }

  lemma EscapePassed(s: string, i: nat)
    requires WellEscaped(s, i) && At(s, i) == '\\'
    ensures var j := Escape(s, i + 1).1; WellEscaped(s, j) && MeasuredEnd(s, i) == MeasuredEnd(s, j)
  {
    hide Hex4, HexDigits, Utf8;
    if At(s, i + 1) == 'u' {
      DigitsPassed(s, i + 2);
      if Escape(s, i + 1).1 == i + 12 {
        assert At(s, i + 6) == '\\' && At(s, i + 7) == 'u';
        DigitsPassed(s, i + 8);
      }
    }
  }

  /** Every string that the printer wrote has complete escapes, so it fits when it is read back. */
  lemma {:induction false} PrintedWellEscaped(s: string, i: nat, t: CString)
    requires HasAt(s, i, Body(t))
    ensures WellEscaped(s, i)
    decreases |t|
  {
    hide Escaped, HasAt, WellEscaped;
    if t == "" {
      PrintedEnd(s, i);
    } else {
      var c, u := t[0], t[1..];
      assert Body(t) == Escaped(c) + Body(u);
      hide Body;
      Peel(s, i, Escaped(c), Body(u));
      PrintedWellEscaped(s, i + |Escaped(c)|, u);
      EscapedWell(s, i, c);
    }
  }

  lemma PrintedEnd(s: string, i: nat)
    requires HasAt(s, i, Body(""))
    ensures WellEscaped(s, i)
  {
    CharOf(s, i, "\"", 0);
  }

  lemma EscapedWell(s: string, i: nat, c: char)
    requires c != '\0' && HasAt(s, i, Escaped(c)) && WellEscaped(s, i + |Escaped(c)|)
    ensures WellEscaped(s, i)
  {
    var e := Escaped(c);
    CharOf(s, i, e, 0);
    if |e| == 2 {
      CharOf(s, i, e, 1);
    }
    if |e| == 6 {
      ControlWell(s, i, c);
    }
  }

  lemma ControlWell(s: string, i: nat, c: char)
    requires 0 < c as int < 32 && |Escaped(c)| == 6 && HasAt(s, i, Escaped(c)) && WellEscaped(s, i + 6)
    ensures WellEscaped(s, i)
  {
    var e := Escaped(c);
    CharOf(s, i, e, 0);
    CharOf(s, i, e, 1);
    CharOf(s, i, e, 2);
    CharOf(s, i, e, 3);
    CharOf(s, i, e, 4);
    CharOf(s, i, e, 5);
    HexBack(c as int / 16);
    HexBack(c as int % 16);
    hide HasAt, Escaped;
    assert HexDigits(s, i + 2) by {
      forall k | i + 2 <= k < i + 6
        ensures HexValue(At(s, k)) >= 0
      {
        assert k == i + 2 || k == i + 3 || k == i + 4 || k == i + 5;
      }
    }
    DigitsPassed(s, i + 2);
  }

  /** Reading a printed string back stays inside the reserved space. */
  lemma PrintedFits(s: string, i: nat, t: CString)
    requires HasAt(s, i, Body(t))
    ensures BodyAt(s, i).value == t && |t| <= Reserved(s, i) && Contained(s, i, MeasuredEnd(s, i))
  {
    PrintedWellEscaped(s, i, t);
    WellEscapedContained(s, i);
    WrittenFits(s, i, i);
    BodyBack(s, i, t);
    hide Contained, Reserved, MeasuredEnd, WellEscaped;
  }

  // ---------- the function ----------

  /** The measuring loop. */
  method MeasureString(s: string, i: nat) returns (len: nat)
    ensures len == Reserved(s, i)
  {
    var ptr := i;
    len := 0;
    while At(s, ptr) != '"' && At(s, ptr) != '\0'
      invariant Reserved(s, i) == len + Reserved(s, ptr)
      decreases |s| - ptr
    {
      len := len + 1;
      ptr := if At(s, ptr) == '\\' then ptr + 2 else ptr + 1;
    }
  }

  /** out[..n] is written and the rest of the literal is still to come. */
  ghost predicate Copied(a: seq<char>, n: nat, s: string, ptr: nat, total: string) {
    n <= |a| && a[..n] + BodyAt(s, ptr).value == total && |total| < |a|
  }

  /** Writing what one character or escape stands for. */
  method PutChars(out: array<char>, n: nat, chars: string, ghost s: string, ghost ptr: nat, ghost next: nat,
                  ghost total: string)
    requires Copied(out[..], n, s, ptr, total) && BodyAt(s, ptr).value == chars + BodyAt(s, next).value
    modifies out
    ensures Copied(out[..], n + |chars|, s, next, total)
  {
    hide BodyAt;
    ghost var a, rest := out[..], BodyAt(s, next).value;
    assert |a[..n] + (chars + rest)| == n + |chars| + |rest|;
    for k := 0 to |chars|
      invariant forall m :: 0 <= m < n ==> out[m] == a[m]
      invariant forall m :: n <= m < n + k ==> out[m] == chars[m - n]
    {
      out[n + k] := chars[k];
    }
    assert out[..][..n + |chars|] == a[..n] + chars;
    assert a[..n] + chars + rest == a[..n] + (chars + rest);
  }

  /** parse_string on a contained literal, from its opening quote: both passes, the second one into
      a buffer of exactly the measured length and a terminator. */
  method ParseStringBuffer(s: string, i: nat) returns (out: array<char>, end: nat)
    requires At(s, i) == '"' && Contained(s, i + 1, MeasuredEnd(s, i + 1))
    ensures fresh(out) && out.Length == Reserved(s, i + 1) + 1
    ensures var r := StringAt(s, i);
            && r.Ok? && end == r.end && |r.value| < out.Length
            && out[..|r.value|] == r.value && out[|r.value|] == '\0'
  {
    hide Escape, BodyAt, Contained, MeasuredEnd, Reserved;
    WrittenFits(s, i + 1, i + 1);
    var len := MeasureString(s, i + 1);
    out := new char[len + 1];
    ghost var total := BodyAt(s, i + 1).value;
    var ptr, n: nat := i + 1, 0;
    assert out[..][..0] + total == total;
    while At(s, ptr) != '"' && At(s, ptr) != '\0'
      invariant Copied(out[..], n, s, ptr, total) && BodyAt(s, ptr).end == BodyAt(s, i + 1).end
      decreases |s| - ptr
    {
      BodyNext(s, ptr);
      if At(s, ptr) != '\\' {
        PutChars(out, n, [At(s, ptr)], s, ptr, ptr + 1, total);
        n, ptr := n + 1, ptr + 1;
      } else {
        var (chars, next) := Escape(s, ptr + 1);
        PutChars(out, n, chars, s, ptr, next, total);
        n, ptr := n + |chars|, next;
      }
    }
    BodyStop(s, ptr);
    assert out[..][..n] + "" == out[..n];
    out[n] := '\0';
    end := if At(s, ptr) == '"' then ptr + 1 else ptr;
  }

  lemma BodyNext(s: string, i: nat)
    requires At(s, i) != '"' && At(s, i) != '\0'
    ensures At(s, i) != '\\' ==>
      BodyAt(s, i).value == [At(s, i)] + BodyAt(s, i + 1).value && BodyAt(s, i).end == BodyAt(s, i + 1).end
    ensures At(s, i) == '\\' ==>
      var (chars, next) := Escape(s, i + 1);
      BodyAt(s, i).value == chars + BodyAt(s, next).value && BodyAt(s, i).end == BodyAt(s, next).end
  {
    hide Escape;
  }

  lemma BodyStop(s: string, i: nat)
    requires At(s, i) == '"' || At(s, i) == '\0'
    ensures BodyAt(s, i).value == "" && BodyAt(s, i).end == if At(s, i) == '"' then i + 1 else i
  {
  }
}
