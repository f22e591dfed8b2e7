/** What the number and the Unicode escapes read by the parser mean. */
module JsonNumber {
  import opened CStrings
  import opened JsonTree
  import opened JsonGrammar
  import opened JsonRound

  predicate AllDigits(t: string) { forall i :: 0 <= i < |t| ==> IsDigit(t[i]) }

  /** The number that decimal digits denote. */
  function DigitsValue(t: string): nat
    requires AllDigits(t)
  {
    if t == "" then 0 else 10 * DigitsValue(t[..|t| - 1]) + DigitValue(t[|t| - 1])
  }

  // ---------- powers of ten ----------

  lemma Pow10Next(e: int)
    ensures Pow10(e + 1) == 10.0 * Pow10(e)
  {
    if e < 0 {
      assert Pow10(e) == Pow10(e + 1) / 10.0;
    }
  }

  lemma {:induction false} Pow10Add(a: int, b: int)
    ensures Pow10(a + b) == Pow10(a) * Pow10(b)
    decreases if b < 0 then -b else b
  {
    hide Pow10;
    if b == 0 {
      Pow10Zero();
    } else if b > 0 {
      Pow10Add(a, b - 1);
      Pow10Next(a + b - 1);
      Pow10Next(b - 1);
      Tens(Pow10(a), Pow10(b - 1));
    } else {
      Pow10Add(a, b + 1);
      Pow10Next(a + b);
      Pow10Next(b);
      Tens(Pow10(a), Pow10(b));
      assert a + (b + 1) == (a + b) + 1;
      assert 10.0 * Pow10(a + b) == Pow10(a) * Pow10(b + 1);
      assert 10.0 * Pow10(a + b) == 10.0 * (Pow10(a) * Pow10(b));
    }
  }

  lemma Pow10Zero()
    ensures Pow10(0) == 1.0
  {
  }

  lemma Tens(x: real, y: real)
    ensures 10.0 * (x * y) == x * (10.0 * y)
  {
  }

  // ---------- runs of digits ----------

  /** A number with the digits of t appended. */
  function Appended(n: real, t: string): real
    requires AllDigits(t)
  {
    n * Pow10(|t|) + DigitsValue(t) as real
  }

  lemma AppendedNone(n: real)
    ensures Appended(n, "") == n
  {
    Pow10Zero();
  }

  lemma AppendedMore(n: real, u: string, c: char)
    requires AllDigits(u) && IsDigit(c)
    ensures AllDigits(u + [c]) && Appended(n, u + [c]) == Appended(n, u) * 10.0 + DigitValue(c) as real
  {
    assert (u + [c])[..|u|] == u;
    Pow10Next(|u|);
    hide Pow10;
    OneDigit(n, Pow10(|u|), DigitsValue(u), DigitValue(c));
  }

  lemma OneDigit(n: real, p: real, v: nat, d: nat)
    ensures (n * p + v as real) * 10.0 + d as real == n * (10.0 * p) + (10 * v + d) as real
  {
    Tens(n, p);
    assert (10 * v + d) as real == 10.0 * v as real + d as real;
    assert n * (10.0 * p) == 10.0 * (n * p);
  }

  /** Reading digits appends them to the number read so far. */
  lemma {:induction false} ReadRun(s: string, i: nat, t: string, n: real)
    requires HasAt(s, i, t) && AllDigits(t)
    ensures DigitsEnd(s, i) == DigitsEnd(s, i + |t|)
    ensures DigitsRead(s, i, n) == DigitsRead(s, i + |t|, Appended(n, t))
    decreases |t|
  {
    hide Appended, HasAt;
    if t == "" {
      AppendedNone(n);
    } else {
      var u, c := t[..|t| - 1], t[|t| - 1];
      assert t == u + [c];
      Peel(s, i, u, [c]);
      CharOf(s, i + |u|, [c], 0);
      ReadRun(s, i, u, n);
      AppendedMore(n, u, c);
    }
  }

  lemma {:induction false} ExponentRun(s: string, i: nat, t: string)
    requires HasAt(s, i, t) && AllDigits(t) && !IsDigit(At(s, i + |t|))
    ensures DigitsEnd(s, i) == i + |t| && ExponentRead(s, i, 0) == DigitsValue(t)
  {
    ExponentPrefix(s, i, t);
    ReadRun(s, i, t, 0.0);
  }

  lemma NoDigits()
    ensures DigitsValue("") == 0
  {
  }

  lemma DigitsSnoc(t: string)
    requires t != "" && AllDigits(t)
    ensures DigitsValue(t) == 10 * DigitsValue(t[..|t| - 1]) + DigitValue(t[|t| - 1])
  {
  }

  lemma ExponentStep(s: string, i: nat, n: nat)
    requires IsDigit(At(s, i))
    ensures ExponentRead(s, i, n) == ExponentRead(s, i + 1, n * 10 + DigitValue(At(s, i)))
  {
  }

  lemma {:induction false} ExponentPrefix(s: string, i: nat, t: string)
    requires HasAt(s, i, t) && AllDigits(t)
    ensures ExponentRead(s, i, 0) == ExponentRead(s, i + |t|, DigitsValue(t))
    decreases |t|
  {
    hide HasAt, ExponentRead, DigitsValue;
    if t == "" {
      NoDigits();
    } else {
      var u, c := t[..|t| - 1], t[|t| - 1];
      assert t == u + [c];
      Peel(s, i, u, [c]);
      CharOf(s, i + |u|, [c], 0);
      ExponentPrefix(s, i, u);
      ExponentStep(s, i + |u|, DigitsValue(u));
      DigitsSnoc(t);
    }
  }

  lemma AppendedToZero(t: string)
    requires AllDigits(t)
    ensures Appended(0.0, t) == DigitsValue(t) as real
  {
    hide Pow10;
  }

  lemma IntegerRun(s: string, i: nat, w: string)
    requires HasAt(s, i, w) && w != "" && AllDigits(w) && (w == "0" || w[0] != '0') && !IsDigit(At(s, i + |w|))
    ensures IntegerPart(s, i) == (i + |w|, DigitsValue(w) as real)
  {
    hide HasAt, Appended, DigitsEnd, DigitsRead;
    CharOf(s, i, w, 0);
    ReadRun(s, i, w, 0.0);
    RunStops(s, i + |w|, Appended(0.0, w));
    AppendedToZero(w);
    if w == "0" {
      assert w[..0] == "";
    }
  }

  lemma RunStops(s: string, i: nat, n: real)
    requires !IsDigit(At(s, i))
    ensures DigitsEnd(s, i) == i && DigitsRead(s, i, n) == n
  {
  }

  lemma FractionRun(s: string, i: nat, f: string, n: real)
    requires f != "" && AllDigits(f) && HasAt(s, i, "." + f) && !IsDigit(At(s, i + 1 + |f|))
    ensures FractionPart(s, i, n) == (i + 1 + |f|, Appended(n, f), -|f|)
  {
    hide HasAt, Appended;
    PeelChar(s, i, ".", f);
    CharOf(s, i + 1, f, 0);
    ReadRun(s, i + 1, f, n);
  }

  /** The usual value of a number with integer digits w, fraction digits f and exponent e. */
  function NumberValue(sign: real, w: string, f: string, e: int): real
    requires AllDigits(w) && AllDigits(f)
  {
    sign * ((DigitsValue(w) as real + DigitsValue(f) as real * Pow10(-|f|)) * Pow10(e))
  }

  lemma ScaleBack(sign: real, w: string, f: string, e: int)
    requires AllDigits(w) && AllDigits(f)
    ensures Scaled(sign, Appended(DigitsValue(w) as real, f), -|f| + e) == NumberValue(sign, w, f, e)
  {
    var k: int := |f|;
    Pow10Add(k, -k);
    Pow10Add(-k, e);
    Pow10Zero();
    hide Pow10, DigitsValue;
    Cancel(sign, DigitsValue(w) as real, DigitsValue(f) as real, Pow10(k), Pow10(-k), Pow10(e));
  }

  lemma Cancel(sign: real, n: real, f: real, p: real, q: real, r: real)
    requires p * q == 1.0
    ensures sign * (n * p + f) * (q * r) == sign * ((n + f * q) * r)
  {
    assert (n * p + f) * (q * r) == n * (p * q) * r + f * q * r;
    assert (n + f * q) * r == n * r + f * q * r;
    assert sign * (n * p + f) * (q * r) == sign * ((n * p + f) * (q * r));
  }

  predicate Marker(marker: string, e: string) {
    if e == "" then marker == "" else marker in {"e", "E", "e+", "E+", "e-", "E-"}
  }

  function Exponent(marker: string, e: string): int
    requires AllDigits(e)
  {
    if marker == "e-" || marker == "E-" then -(DigitsValue(e) as int) else DigitsValue(e) as int
  }

  /** The text of a number: digits, and optionally a fraction and a signed exponent. */
  function NumberText(negative: bool, w: string, f: string, marker: string, e: string): string {
    (if negative then "-" else "") + (w + (FractionText(f) + (marker + e)))
  }

  function FractionText(f: string): string { if f == "" then "" else "." + f }

  // ---------- Unicode ----------

  /** The code point that a UTF-8 sequence encodes. */
  function CodePoint(t: string): nat
    requires 1 <= |t| <= 4
  {
    if |t| == 1 then t[0] as int
    else if |t| == 2 then t[0] as int % 32 * 64 + t[1] as int % 64
    else if |t| == 3 then t[0] as int % 16 * 4096 + t[1] as int % 64 * 64 + t[2] as int % 64
    else t[0] as int % 8 * 262144 + t[1] as int % 64 * 4096 + t[2] as int % 64 * 64 + t[3] as int % 64
  }

  lemma Base64(n: nat)
    ensures n == n / 64 * 64 + n % 64 && n / 64 / 64 == n / 4096 && n / 4096 / 64 == n / 262144
    ensures n / 4096 == n / 262144 * 64 + n / 4096 % 64 && n / 64 == n / 4096 * 64 + n / 64 % 64
  {
  }

  /** The UTF-8 encoding of a code point: the right number of bytes, the right marks in each, and the
      code point in the remaining bits. */
  predicate IsUtf8(t: string, uc: nat) {
    && |t| == (if uc < 0x80 then 1 else if uc < 0x800 then 2 else if uc < 0x1_0000 then 3 else 4)
    && CodePoint(t) == uc
    && (forall k :: 1 <= k < |t| ==> 0x80 <= t[k] as int < 0xC0)
    && (|t| == 2 ==> 0xC0 <= t[0] as int < 0xE0) && (|t| == 3 ==> 0xE0 <= t[0] as int < 0xF0)
    && (|t| == 4 ==> 0xF0 <= t[0] as int < 0xF8)
  }

  lemma Utf8One(uc: nat)
    requires uc < 0x80
    ensures IsUtf8([uc as char], uc)
  {
  }

  lemma Utf8Two(a: nat, b: nat)
    requires 2 <= a < 32 && b < 64
    ensures IsUtf8([(0xC0 + a) as char, (0x80 + b) as char], a * 64 + b)
  {
  }

  lemma Utf8Three(a: nat, b: nat, c: nat)
    requires a < 16 && b < 64 && c < 64 && a * 4096 + b * 64 + c >= 0x800
    ensures IsUtf8([(0xE0 + a) as char, (0x80 + b) as char, (0x80 + c) as char], a * 4096 + b * 64 + c)
  {
  }

  lemma Utf8Four(a: nat, b: nat, c: nat, d: nat)
    requires a < 8 && b < 64 && c < 64 && d < 64 && a * 262144 + b * 4096 + c * 64 + d >= 0x1_0000
    ensures IsUtf8([(0xF0 + a) as char, (0x80 + b) as char, (0x80 + c) as char, (0x80 + d) as char],
                   a * 262144 + b * 4096 + c * 64 + d)
  {
  }

  /** What the parser writes for a code point is its UTF-8 encoding. */
  lemma Utf8Back(uc: nat)
    requires uc < 0x11_0000
    ensures IsUtf8(Utf8(uc), uc)
  {
    hide IsUtf8;
    Base64(uc);
    if uc < 0x80 {
      Utf8One(uc);
    } else if uc < 0x800 {
      Utf8Two(uc / 64, uc % 64);
    } else if uc < 0x1_0000 {
      Utf8Three(uc / 4096, uc / 64 % 64, uc % 64);
    } else {
      Utf8Four(uc / 262144, uc / 4096 % 64, uc / 64 % 64, uc % 64);
    }
  }
}
