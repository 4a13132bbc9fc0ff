/** Models of the PHP built-ins the pages apply to request strings: trim, empty(),
    ASCII case mapping, is_numeric with its value, substring tests and integer printing.
    Strings are sequences of characters; byte-level (multibyte) effects are not modelled. */
module Php {

  datatype Option<+T> = None | Some(value: T)

  /** The characters trim() strips by default: space, \t, \n, \r, \0 and \x0B. */
  predicate IsTrimChar(c: char) {
    c == ' ' || c == '\t' || c == '\n' || c == '\r' || c == '\0' || c == '\U{B}'
  }

  function TrimLeft(s: string): (r: string)
    ensures |r| <= |s| && r == s[|s| - |r|..]
    ensures r == [] || !IsTrimChar(r[0])
    ensures forall i :: 0 <= i < |s| - |r| ==> IsTrimChar(s[i])
  {
    if s != [] && IsTrimChar(s[0]) then TrimLeft(s[1..]) else s
  }

  function TrimRight(s: string): (r: string)
    ensures |r| <= |s| && r == s[..|r|]
    ensures r == [] || !IsTrimChar(r[|r| - 1])
    ensures forall i :: |r| <= i < |s| ==> IsTrimChar(s[i])
  {
    if s != [] && IsTrimChar(s[|s| - 1]) then TrimRight(s[..|s| - 1]) else s
  }

  /** trim($s): the longest infix of s that neither starts nor ends with a trim character. */
  function Trim(s: string): (r: string)
    ensures |r| <= |s|
    ensures r == [] || (!IsTrimChar(r[0]) && !IsTrimChar(r[|r| - 1]))
    ensures (forall i :: 0 <= i < |s| ==> IsTrimChar(s[i])) <==> r == []
  {
    var l := TrimLeft(s);
    var r := TrimRight(l);
    assert r != [] ==> r[0] == l[0];
    r
  }

  lemma {:induction false} TrimKeepsClean(s: string)
    requires s == [] || (!IsTrimChar(s[0]) && !IsTrimChar(s[|s| - 1]))
    ensures Trim(s) == s
  {
  }

  /** PHP's empty() on a request value: absent, "" or "0". */
  predicate Empty(v: Option<string>) {
    v.None? || v.value == "" || v.value == "0"
  }

  predicate IsUpper(c: char) { 'A' <= c <= 'Z' }
  predicate IsLower(c: char) { 'a' <= c <= 'z' }
  predicate IsDigit(c: char) { '0' <= c <= '9' }
  predicate IsAlnum(c: char) { IsUpper(c) || IsLower(c) || IsDigit(c) }

  /** strtolower/strtoupper on one byte: ASCII letters only. */
  function LowerChar(c: char): (r: char)
    ensures !IsUpper(r)
    ensures IsUpper(c) ==> IsLower(r) && r as int == c as int + 32
    ensures !IsUpper(c) ==> r == c
  {
    if IsUpper(c) then (c as int + 32) as char else c
  }

  function UpperChar(c: char): (r: char)
    ensures !IsLower(r)
    ensures IsLower(c) ==> IsUpper(r) && r as int == c as int - 32
    ensures !IsLower(c) ==> r == c
  {
    if IsLower(c) then (c as int - 32) as char else c
  }

  function Lower(s: string): (r: string)
    ensures |r| == |s|
    ensures forall i :: 0 <= i < |s| ==> r[i] == LowerChar(s[i])
  {
    seq(|s|, i requires 0 <= i < |s| => LowerChar(s[i]))
  }

  /** The characters PHP 8 allows around a numeric string: space, \t, \n, \r, \v and \f. */
  predicate IsNumericSpace(c: char) {
    c == ' ' || c == '\t' || c == '\n' || c == '\r' || c == '\U{B}' || c == '\U{C}'
  }

  function StripNumericSpace(s: string): (r: string)
    ensures |r| <= |s|
    decreases |s|
  {
    if s != [] && IsNumericSpace(s[0]) then StripNumericSpace(s[1..])
    else if s != [] && IsNumericSpace(s[|s| - 1]) then StripNumericSpace(s[..|s| - 1])
    else s
  }

  predicate AllDigits(s: string) {
    forall i :: 0 <= i < |s| ==> IsDigit(s[i])
  }

  /** Length of the longest prefix of s made of decimal digits. */
  function DigitRun(s: string): (n: nat)
    ensures n <= |s| && AllDigits(s[..n])
    ensures n < |s| ==> !IsDigit(s[n])
  {
    if s != [] && IsDigit(s[0]) then
      var k := DigitRun(s[1..]);
      1 + k
    else 0
  }

  /** The number a string of decimal digits denotes. */
  function DigitsValue(s: string): (v: nat)
    requires AllDigits(s)
  {
    if s == [] then 0 else 10 * DigitsValue(s[..|s| - 1]) + (s[|s| - 1] as int - '0' as int)
  }

  function Pow10(n: nat): (p: nat)
    ensures p >= 1
  {
    if n == 0 then 1 else 10 * Pow10(n - 1)
  }

  /** The value of an unsigned decimal: digits, optionally followed by '.' and digits,
      with at least one digit in all. */
  function UnsignedValue(t: string): Option<real> {
    var k := DigitRun(t);
    var ip := t[..k];
    var rest := t[k..];
    if rest == [] then
      if ip != [] then Some(DigitsValue(ip) as real) else None
    else if rest[0] == '.' && AllDigits(rest[1..]) && (ip != [] || |rest| > 1) then
      Some(DigitsValue(ip) as real + DigitsValue(rest[1..]) as real / Pow10(|rest| - 1) as real)
    else None
  }

  /** is_numeric($s), giving the number when it holds. Exponent notation is not modelled. */
  function NumericValue(s: string): Option<real> {
    var t := StripNumericSpace(s);
    if t != [] && (t[0] == '+' || t[0] == '-') then
      match UnsignedValue(t[1..])
      case None => None
      case Some(v) => Some(if t[0] == '-' then -v else v)
    else UnsignedValue(t)
  }

  predicate IsNumeric(s: string) {
    NumericValue(s).Some?
  }

  /** (int) and intval() of a numeric value: truncation toward zero. */
  function TruncateToInt(v: real): (n: int)
    ensures v >= 0.0 ==> 0 <= n && n as real <= v < n as real + 1.0
    ensures v < 0.0 ==> n <= 0 && n as real - 1.0 < v <= n as real
  {
    if v >= 0.0 then v.Floor else -((-v).Floor)
  }

  lemma NumericOfDigits(s: string)
    requires s != [] && AllDigits(s)
    ensures NumericValue(s) == Some(DigitsValue(s) as real)
  {
    assert StripNumericSpace(s) == s;
    assert DigitRun(s) == |s| by { DigitRunAll(s); }
    assert s[..|s|] == s;
  }

  lemma {:induction false} DigitRunAll(s: string)
    requires AllDigits(s)
    ensures DigitRun(s) == |s|
  {
    if s != [] { DigitRunAll(s[1..]); }
  }

  predicate IsPrefix(p: string, s: string) {
    |p| <= |s| && s[..|p|] == p
  }

  /** strpos($s, $sub) !== false: sub occurs in s at some position. */
  predicate Contains(s: string, sub: string)
    decreases |s|
  {
    IsPrefix(sub, s) || (s != [] && Contains(s[1..], sub))
  }

  lemma {:induction false} ContainsAt(s: string, sub: string, i: nat)
    requires i + |sub| <= |s| && s[i..i + |sub|] == sub
    ensures Contains(s, sub)
  {
    if i > 0 {
      assert s[1..][i - 1..i - 1 + |sub|] == sub;
      ContainsAt(s[1..], sub, i - 1);
    }
  }

  lemma {:induction false} ContainsWitness(s: string, sub: string) returns (i: nat)
    requires Contains(s, sub)
    ensures i + |sub| <= |s| && s[i..i + |sub|] == sub
    decreases |s|
  {
    if IsPrefix(sub, s) {
      i := 0;
    } else {
      var j := ContainsWitness(s[1..], sub);
      i := j + 1;
      assert s[i..i + |sub|] == s[1..][j..j + |sub|];
    }
  }

  function DigitChar(d: nat): (c: char)
    requires d < 10
    ensures IsDigit(c) && c as int - '0' as int == d
  {
    ('0' as int + d) as char
  }

  /** The decimal representation PHP prints for a non-negative integer. */
  function NatToString(n: nat): (s: string)
    ensures s != [] && AllDigits(s)
  {
    if n < 10 then [DigitChar(n)] else NatToString(n / 10) + [DigitChar(n % 10)]
  }

  lemma {:induction false} NatToStringRoundTrip(n: nat)
    ensures DigitsValue(NatToString(n)) == n
  {
    if n >= 10 {
      NatToStringRoundTrip(n / 10);
      var s := NatToString(n);
      assert s[..|s| - 1] == NatToString(n / 10);
    }
  }

  /** The decimal representation PHP prints for an integer. */
  function IntToString(n: int): (s: string)
    ensures s != [] && (s[0] == '-' <==> n < 0)
  {
    if n < 0 then "-" + NatToString(-n) else NatToString(n)
  }

  function SkipNumericSpace(s: string): (r: string)
    ensures |r| <= |s| && r == s[|s| - |r|..]
    ensures r == [] || !IsNumericSpace(r[0])
  {
    if s != [] && IsNumericSpace(s[0]) then SkipNumericSpace(s[1..]) else s
  }

  /** The value of the leading decimal digits of s (0 when there are none). */
  function LeadingDigitsValue(s: string): nat {
    DigitsValue(s[..DigitRun(s)])
  }

  /** (int) and intval() of a string: leading whitespace, an optional sign and the leading
      digits; anything else ends the number, and a string without leading digits gives 0.
      Exponent notation is not modelled. */
  function IntCast(s: string): (n: int)
    ensures s == [] ==> n == 0
    ensures s != [] && !IsNumericSpace(s[0]) && s[0] != '+' && s[0] != '-' && !IsDigit(s[0]) ==> n == 0
  {
    var t := SkipNumericSpace(s);
    if t != [] && t[0] == '-' then -(LeadingDigitsValue(t[1..]) as int)
    else if t != [] && t[0] == '+' then LeadingDigitsValue(t[1..])
    else LeadingDigitsValue(t)
  }

  lemma LeadingDigitsOfDigits(d: string)
    requires AllDigits(d)
    ensures LeadingDigitsValue(d) == DigitsValue(d)
  {
    DigitRunAll(d);
    assert d[..|d|] == d;
  }

  /** (int) of a digit string is its value. */
  lemma IntCastOfDigits(d: string)
    requires d != [] && AllDigits(d)
    ensures IntCast(d) == DigitsValue(d)
  {
    assert IsDigit(d[0]);
    assert SkipNumericSpace(d) == d;
    LeadingDigitsOfDigits(d);
  }

  /** (int) of a minus sign followed by a digit string is minus its value. */
  lemma IntCastOfNegatedDigits(d: string)
    requires d != [] && AllDigits(d)
    ensures IntCast("-" + d) == -(DigitsValue(d) as int)
  {
    var neg := "-" + d;
    assert neg[0] == '-' && neg[1..] == d;
    assert SkipNumericSpace(neg) == neg;
    LeadingDigitsOfDigits(d);
  }

  /** (int) of a printed integer gives the integer back. */
  lemma IntCastRoundTrip(n: int)
    ensures IntCast(IntToString(n)) == n
  {
    var m := if n < 0 then -n else n;
    NatToStringRoundTrip(m);
    if n < 0 {
      IntCastOfNegatedDigits(NatToString(m));
    } else {
      IntCastOfDigits(NatToString(m));
    }
  }

  const PhpIntMax := 0x7FFF_FFFF_FFFF_FFFF
  const PhpIntMin := -0x8000_0000_0000_0000

  /** filter_var($s, FILTER_VALIDATE_INT): surrounding whitespace (the same characters trim()
      strips), an optional sign, then "0" or digits without a leading zero, within the 64-bit
      range. */
  function FilterInt(s: string): (r: Option<int>)
    ensures r.Some? ==> PhpIntMin <= r.value <= PhpIntMax
    ensures AllDigits(s) && s != [] && s[0] == '0' && |s| > 1 ==> r.None?
  {
    var t := Trim(s);
    var neg := t != [] && t[0] == '-';
    var d := if t != [] && (t[0] == '-' || t[0] == '+') then t[1..] else t;
    if d == [] || !AllDigits(d) || (d[0] == '0' && |d| > 1) then None
    else
      var v := if neg then -(DigitsValue(d) as int) else DigitsValue(d) as int;
      if PhpIntMin <= v <= PhpIntMax then Some(v) else None
  }

  /** A printed integer starts with a zero only when it is 0. */
  lemma {:induction false} NatToStringNoLeadingZero(n: nat)
    ensures NatToString(n)[0] == '0' ==> n == 0
  {
    if n >= 10 {
      NatToStringNoLeadingZero(n / 10);
      assert NatToString(n)[0] == NatToString(n / 10)[0];
    }
  }

  /** Every integer of the 64-bit range, printed, passes the filter with its own value. */
  lemma FilterIntRoundTrip(n: int)
    requires PhpIntMin <= n <= PhpIntMax
    ensures FilterInt(IntToString(n)) == Some(n)
  {
    var m := if n < 0 then -n else n;
    PrintedDigitsClean(m);
    PrintedIntTrimmed(n);
    var s := IntToString(n);
    if n < 0 {
      assert s[1..] == NatToString(m);
    }
  }

  lemma PrintedIntTrimmed(n: int)
    ensures Trim(IntToString(n)) == IntToString(n)
  {
    var m := if n < 0 then -n else n;
    var d := NatToString(m);
    PrintedDigitsClean(m);
    var s := IntToString(n);
    assert s[|s| - 1] == d[|d| - 1];
    TrimKeepsClean(s);
  }

  lemma PrintedDigitsClean(m: nat)
    ensures var d := NatToString(m);
      && DigitsValue(d) == m && !(d[0] == '0' && |d| > 1)
      && IsDigit(d[0]) && IsDigit(d[|d| - 1]) && d[0] != '-' && d[0] != '+'
  {
    NatToStringRoundTrip(m);
    NatToStringNoLeadingZero(m);
  }
}
