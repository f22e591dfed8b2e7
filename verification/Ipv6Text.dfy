/** IPv6 addresses as text: fields joined by colons, and what ipv6_util.c counts in such a text. */
module Ipv6Text {
  import opened CStrings

  predicate IsHex(c: char) { '0' <= c <= '9' || 'A' <= c <= 'F' || 'a' <= c <= 'f' }

  predicate IsAddressChar(c: char) { c == ':' || IsHex(c) }

  predicate OnlyAddressChars(t: string) {
    forall i :: 0 <= i < |t| ==> IsAddressChar(t[i])
  }

  // ---------- counts, from the front of the text ----------

  function Colons(t: string): nat {
    if t == "" then 0 else Colons(t[..|t| - 1]) + if t[|t| - 1] == ':' then 1 else 0
  }

  /** Whether the last two characters are colons. */
  predicate EndsDouble(t: string) { |t| >= 2 && t[|t| - 1] == ':' && t[|t| - 2] == ':' }

  /** The number of places where two colons stand side by side. */
  function Doubles(t: string): nat {
    if t == "" then 0 else Doubles(t[..|t| - 1]) + if EndsDouble(t) then 1 else 0
  }

  /** Whether the last character begins a field. */
  predicate StartsField(t: string) {
    t != "" && t[|t| - 1] != ':' && (|t| == 1 || t[|t| - 2] == ':')
  }

  function Fields(t: string): nat {
    if t == "" then 0 else Fields(t[..|t| - 1]) + if StartsField(t) then 1 else 0
  }

  /** The length of the field that the text ends in. */
  function LastField(t: string): nat {
    if t == "" || t[|t| - 1] == ':' then 0 else LastField(t[..|t| - 1]) + 1
  }

  function Max(a: nat, b: nat): nat { if a < b then b else a }

  function LongestField(t: string): nat {
    if t == "" then 0 else Max(LongestField(t[..|t| - 1]), LastField(t))
  }

  // ---------- the verdict of the verifier ----------

  const SUCCESS := 0
  const INVALID_ADDRESS := -2
  const INVALID_LENGTH := -3
  const TOO_MANY_COLONS := -6
  const TOO_MANY_FIELDS := -8

  predicate StartsWithDouble(t: string) { |t| >= 2 && t[0] == ':' && t[1] == ':' }

  /** A double colon at either end allows one colon more. */
  function MaxColons(t: string): nat {
    if Doubles(t) == 1 && (StartsWithDouble(t) || EndsDouble(t)) then 8 else 7
  }

  /** The result of verify_ipv6_address_format. */
  function Verdict(t: string): int {
    if |t| < 2 || |t| > 39 then INVALID_LENGTH
    else if !OnlyAddressChars(t) || LongestField(t) > 4 || Doubles(t) > 1 then INVALID_ADDRESS
    else if Colons(t) > MaxColons(t) then TOO_MANY_COLONS
    else if Doubles(t) == 1 && Fields(t) > 7 then TOO_MANY_FIELDS
    else SUCCESS
  }

  // ---------- the verifier ----------

  lemma {:induction false} CountsGrow(t: string, n: nat)
    requires n <= |t|
    ensures Doubles(t[..n]) <= Doubles(t) && LongestField(t[..n]) <= LongestField(t)
    decreases |t| - n
  {
    if n < |t| {
      CountsGrow(t, n + 1);
      assert t[..n + 1][..n] == t[..n];
    } else {
      assert t[..n] == t;
    }
  }

  /** What the scanning loop knows after n characters. */
  ghost predicate Scanned(t: string, n: nat, colonFlag: int, compressFlag: bool, compressType: int, fieldLength: nat,
                          fieldCount: nat, colons: nat)
  {
    && n <= |t|
    && OnlyAddressChars(t[..n]) && LongestField(t[..n]) <= 4 && Doubles(t[..n]) <= 1
    && fieldLength == LastField(t[..n]) && fieldCount == Fields(t[..n]) && colons == Colons(t[..n])
    && colonFlag == (if EndsDouble(t[..n]) then 2 else if n > 0 && t[n - 1] == ':' then 1 else 0)
    && compressFlag == (Doubles(t[..n]) == 1)
    && (compressFlag ==> 1 <= compressType <= 3)
    && (compressFlag ==> (compressType == 1 <==> StartsWithDouble(t[..n])))
    && (compressFlag && compressType == 3 ==> n == |t| && EndsDouble(t))
    && (compressFlag && compressType == 2 ==> !(n == |t| && EndsDouble(t)))
  }

  lemma OneMore(t: string, n: nat)
    requires n < |t|
    ensures t[..n + 1][..n] == t[..n] && t[..n + 1][n] == t[n]
  {
  }

  lemma ScanColon(t: string, n: nat, colonFlag: int, compressFlag: bool, compressType: int, fieldLength: nat,
                  fieldCount: nat, colons: nat)
    requires Scanned(t, n, colonFlag, compressFlag, compressType, fieldLength, fieldCount, colons)
    requires n < |t| && t[n] == ':'
    ensures colonFlag == 0 ==> Scanned(t, n + 1, 1, compressFlag, compressType, 0, fieldCount, colons + 1)
    ensures colonFlag == 1 && !compressFlag ==>
      Scanned(t, n + 1, 2, true, if n == 1 then 1 else if n == |t| - 1 then 3 else 2, 0, fieldCount, colons + 1)
    ensures colonFlag == 2 || (colonFlag == 1 && compressFlag) ==> Doubles(t[..n + 1]) > 1
  {
    OneMore(t, n);
    var p, q := t[..n], t[..n + 1];
    assert Colons(q) == Colons(p) + 1 && Fields(q) == Fields(p) && LastField(q) == 0;
    assert LongestField(q) == Max(LongestField(p), 0);
    assert OnlyAddressChars(q);
    if n > 0 {
      assert q[n - 1] == p[n - 1] == t[n - 1];
    }
    if n == |t| - 1 {
      assert q == t;
    }
    NoDoubleStart(p);
  }

  /** Without a double colon the text does not start with one. */
  lemma {:induction false} NoDoubleStart(t: string)
    ensures StartsWithDouble(t) ==> Doubles(t) >= 1
  {
    if |t| <= 2 {
    } else {
      NoDoubleStart(t[..|t| - 1]);
    }
  }

  lemma ScanHex(t: string, n: nat, colonFlag: int, compressFlag: bool, compressType: int, fieldLength: nat,
                fieldCount: nat, colons: nat)
    requires Scanned(t, n, colonFlag, compressFlag, compressType, fieldLength, fieldCount, colons)
    requires n < |t| && IsHex(t[n])
    ensures fieldLength < 4 ==>
      Scanned(t, n + 1, 0, compressFlag, compressType, fieldLength + 1,
              if fieldLength == 0 then fieldCount + 1 else fieldCount, colons)
    ensures fieldLength >= 4 ==> LongestField(t[..n + 1]) > 4
  {
    OneMore(t, n);
    var p, q := t[..n], t[..n + 1];
    assert Colons(q) == Colons(p) && Doubles(q) == Doubles(p) && LastField(q) == LastField(p) + 1;
    assert LastField(p) == 0 <==> p == "" || p[n - 1] == ':';
    assert Fields(q) == Fields(p) + if LastField(p) == 0 then 1 else 0;
    assert OnlyAddressChars(q);
    NoDoubleStart(p);
  }

  /** verify_ipv6_address_format. */
  method VerifyFormat(ip: CString) returns (ret: int)
    ensures ret == Verdict(ip)
  {
    var ipLen := |ip|;
    if ipLen > 39 || ipLen < 2 {
      return INVALID_LENGTH;
    }
    var colonFlag, compressFlag, compressType := 0, false, 0;
    var fieldLength: nat, fieldCount: nat, totalColons: nat, len := 0, 0, 0, 0;
    while len < |ip| && IsAddressChar(ip[len])
      invariant Scanned(ip, len, colonFlag, compressFlag, compressType, fieldLength, fieldCount, totalColons)
    {
      CountsGrow(ip, len + 1);
      if ip[len] == ':' {
        ScanColon(ip, len, colonFlag, compressFlag, compressType, fieldLength, fieldCount, totalColons);
        if colonFlag == 0 {
          colonFlag := 1;
        } else if colonFlag == 1 {
          colonFlag := 2;
          if len + 1 == 2 { compressType := 1; }
          else if ipLen - 1 == len { compressType := 3; }
          else { compressType := 2; }
        } else {
          return INVALID_ADDRESS;
        }
        if colonFlag == 2 {
          if !compressFlag {
            compressFlag := true;
          } else {
            return INVALID_ADDRESS;
          }
        }
        fieldLength := 0;
        totalColons := totalColons + 1;
      } else {
        ScanHex(ip, len, colonFlag, compressFlag, compressType, fieldLength, fieldCount, totalColons);
        if fieldLength == 0 {
          fieldCount := fieldCount + 1;
        }
        fieldLength := fieldLength + 1;
        if colonFlag != 0 {
          colonFlag := 0;
        }
        if fieldLength > 4 {
          return INVALID_ADDRESS;
        }
      }
      len := len + 1;
    }
    if ipLen != len {
      return INVALID_ADDRESS;
    }
    assert ip[..len] == ip;
    var maxColons := 7;
    if compressFlag && compressType != 2 {
      maxColons := 8;
    }
    if totalColons > maxColons {
      return TOO_MANY_COLONS;
    }
    if compressFlag && fieldCount > 7 {
      return TOO_MANY_FIELDS;
    }
    return SUCCESS;
  }
}
