/** C text: zero-terminated strings and the base-16 reading of strtoul.  A byte is kept as a char. */
module CText {
  import opened Common

  predicate IsNewline(c: char) { c == '\r' || c == '\n' }

  /** The C string stored in s: what comes before the first zero byte. */
  function CStr(s: string): (r: string)
    ensures r <= s && '\0' !in r
    ensures |r| < |s| ==> s[|r|] == '\0'
  {
    if s == "" || s[0] == '\0' then "" else [s[0]] + CStr(s[1..])
  }

  predicate IsSpace(c: char) {
    c == ' ' || '\t' <= c <= '\r'
  }

  predicate IsHex(c: char) {
    '0' <= c <= '9' || 'A' <= c <= 'F' || 'a' <= c <= 'f'
  }

  predicate AllHex(s: string) { forall i :: 0 <= i < |s| ==> IsHex(s[i]) }

  function HexDigit(c: char): (d: nat)
    requires IsHex(c)
    ensures d < 16
  {
    if c <= '9' then c as int - '0' as int
    else if c <= 'F' then c as int - 'A' as int + 10
    else c as int - 'a' as int + 10
  }

  function UpperHexDigit(d: nat): (c: char)
    requires d < 16
    ensures IsHex(c) && HexDigit(c) == d && c == UPPER[d]
  {
    if d < 10 then ('0' as int + d) as char else ('A' as int + d - 10) as char
  }

  function HexValue(s: string): nat
    requires AllHex(s)
  {
    if s == "" then 0 else 16 * HexValue(s[..|s| - 1]) + HexDigit(s[|s| - 1])
  }

  // Hexadecimal notation, by the order of its digits.

  const LOWER := "0123456789abcdef"
  const UPPER := "0123456789ABCDEF"

  predicate SpellsDigit(c: char, d: nat)
    requires d < 16
  {
    c == LOWER[d] || c == UPPER[d]
  }

  /** The text h denotes n, in any mixture of cases and with any leading zeros. */
  predicate Spells(h: string, n: nat) {
    if h == "" then n == 0 else SpellsDigit(h[|h| - 1], n % 16) && Spells(h[..|h| - 1], n / 16)
  }

  /** Each character that is a digit is the one it spells, and no other character is one. */
  lemma DigitSpelled(c: char, d: nat)
    requires d < 16
    ensures SpellsDigit(c, d) <==> IsHex(c) && HexDigit(c) == d
  {
  }

  /** What a text denotes is what its digits are worth. */
  lemma {:induction false} SpellsValue(h: string, n: nat)
    ensures Spells(h, n) <==> AllHex(h) && HexValue(h) == n
  {
    if h != "" {
      var high, c := h[..|h| - 1], h[|h| - 1];
      SpellsValue(high, n / 16);
      DigitSpelled(c, n % 16);
      assert h == high + [c];
      assert AllHex(h) <==> AllHex(high) && IsHex(c);
    }
  }

  function SkipSpaces(s: string): string {
    if s != "" && IsSpace(s[0]) then SkipSpaces(s[1..]) else s
  }

  function HexPrefix(s: string): (n: nat)
    ensures n <= |s| && AllHex(s[..n])
    ensures n < |s| ==> !IsHex(s[n])
  {
    if s == "" || !IsHex(s[0]) then 0
    else
      var n := 1 + HexPrefix(s[1..]);
      assert forall i :: 0 < i < n ==> s[i] == s[1..][i - 1];
      n
  }

  /** The number strtoul reads in base 16 and whether it stops at the end of the string. */
  datatype Number = Number(value: nat, complete: bool)

  function StrToUl16(s: string): Number {
    var t := SkipSpaces(s);
    var negative := t != "" && t[0] == '-';
    var u := if t != "" && (t[0] == '-' || t[0] == '+') then t[1..] else t;
    var v := if |u| > 2 && u[0] == '0' && (u[1] == 'x' || u[1] == 'X') && IsHex(u[2]) then u[2..] else u;
    if HexPrefix(v) == 0 then Number(0, s == "") else Digits(v, HexPrefix(v), negative)
  }

  /** The number of the first n characters, with a sign, cut to 64 bits as strtoul does. */
  function Digits(v: string, n: nat, negative: bool): Number
    requires n <= |v| && AllHex(v[..n])
  {
    var magnitude := HexValue(v[..n]);
    Number(if magnitude >= ULONG_MODULUS then ULONG_MODULUS - 1
           else if negative then (ULONG_MODULUS - magnitude) % ULONG_MODULUS
           else magnitude,
           n == |v|)
  }

  /** A string of hexadecimal digits is read as the number it denotes. */
  lemma HexText(s: string)
    requires AllHex(s) && s != "" && HexValue(s) < ULONG_MODULUS
    ensures CStr(s) == s && StrToUl16(s) == Number(HexValue(s), true)
  {
    assert IsHex(s[0]) && s[0] != '-' && s[0] != '+' && (|s| > 1 ==> s[1] != 'x' && s[1] != 'X');
    HexNumber(s);
  }

  /** Without a sign and a prefix. */
  lemma HexNumber(s: string)
    requires s != "" && SkipSpaces(s) == s && s[0] != '-' && s[0] != '+' && (|s| > 1 ==> s[1] != 'x' && s[1] != 'X')
    requires HexPrefix(s) == |s| && AllHex(s) && HexValue(s) < ULONG_MODULUS
    ensures StrToUl16(s) == Number(HexValue(s), true)
  {
    assert StrToUl16(s) == Digits(s, |s|, false);
    WholeNumber(s);
  }

  lemma WholeNumber(s: string)
    requires AllHex(s) && HexValue(s) < ULONG_MODULUS
    ensures Digits(s, |s|, false) == Number(HexValue(s), true)
  {
    assert s[..|s|] == s;
  }

  // ---------------------------------------------------------------------------------------------
  // What strtoul reads.

  lemma {:induction false} SpacesSkipped(spaces: string, s: string)
    requires (forall i :: 0 <= i < |spaces| ==> IsSpace(spaces[i])) && (s == "" || !IsSpace(s[0]))
    ensures SkipSpaces(spaces + s) == s
  {
    if spaces == "" {
      assert spaces + s == s;
    } else {
      assert (spaces + s)[0] == spaces[0] && (spaces + s)[1..] == spaces[1..] + s;
      SpacesSkipped(spaces[1..], s);
    }
  }

  lemma {:induction false} DigitsFound(h: string, rest: string)
    requires AllHex(h) && (rest == "" || !IsHex(rest[0]))
    ensures HexPrefix(h + rest) == |h|
  {
    if h == "" {
      assert h + rest == rest;
    } else {
      assert (h + rest)[0] == h[0] && (h + rest)[1..] == h[1..] + rest;
      DigitsFound(h[1..], rest);
    }
  }

  predicate IsSign(sign: string) { sign == "" || sign == "+" || sign == "-" }

  predicate IsHexMark(mark: string) { mark == "" || mark == "0x" || mark == "0X" }

  /** Without a mark, the digits and what follows must not look like one. */
  predicate Unmarked(h: string, rest: string) {
    h == "0" ==> !(|rest| > 1 && (rest[0] == 'x' || rest[0] == 'X') && IsHex(rest[1]))
  }

  /** White space, a sign, a mark, digits, and whether that is all: a minus counts down from 2 to the 64. */
  lemma {:induction false} StrToUlReads(spaces: string, sign: string, mark: string, h: string, rest: string, n: nat)
    requires (forall i :: 0 <= i < |spaces| ==> IsSpace(spaces[i])) && IsSign(sign) && IsHexMark(mark)
    requires h != "" && Spells(h, n) && n < ULONG_MODULUS && (rest == "" || !IsHex(rest[0]))
    requires mark == "" ==> Unmarked(h, rest)
    ensures StrToUl16(spaces + (sign + (mark + (h + rest))))
         == Number(if sign == "-" && n > 0 then ULONG_MODULUS - n else n, rest == "")
  {
    SpellsValue(h, n);
    DigitsFound(h, rest);
    ReadAsDigits(spaces, sign, mark, h, rest);
  }

  lemma {:induction false} ReadAsDigits(spaces: string, sign: string, mark: string, h: string, rest: string)
    requires (forall i :: 0 <= i < |spaces| ==> IsSpace(spaces[i])) && IsSign(sign) && IsHexMark(mark)
    requires h != "" && AllHex(h) && HexPrefix(h + rest) == |h| && (mark == "" ==> Unmarked(h, rest))
    ensures StrToUl16(spaces + (sign + (mark + (h + rest)))) == Digits(h + rest, |h|, sign == "-")
  {
    var v := h + rest;
    var u := mark + v;
    var t := sign + u;
    MarkPassed(mark, h, rest);
    SignPassed(sign, u);
    SpacesSkipped(spaces, t);
  }

  lemma SignPassed(sign: string, u: string)
    requires IsSign(sign) && u != "" && IsHex(u[0])
    ensures var t := sign + u;
      && t != "" && !IsSpace(t[0]) && (t[0] == '-' <==> sign == "-")
      && (if t[0] == '-' || t[0] == '+' then t[1..] else t) == u
  {
    if sign == "" { assert sign + u == u; } else { assert (sign + u)[1..] == u; }
  }

  lemma MarkPassed(mark: string, h: string, rest: string)
    requires IsHexMark(mark) && h != "" && AllHex(h) && (mark == "" ==> Unmarked(h, rest))
    ensures var u := mark + (h + rest);
      (if |u| > 2 && u[0] == '0' && (u[1] == 'x' || u[1] == 'X') && IsHex(u[2]) then u[2..] else u) == h + rest
  {
    var u := mark + (h + rest);
    assert IsHex(h[0]);
    if mark == "" {
      assert u == h + rest && (|h| > 1 ==> u[1] == h[1] && IsHex(h[1]));
      assert |h| == 1 ==> (|u| > 1 ==> u[1] == rest[0]) && (|u| > 2 ==> u[2] == rest[1]);
      assert h[0] == '0' && |h| == 1 ==> h == "0";
    } else {
      assert u[2] == h[0] && u[2..] == h + rest;
    }
  }
}
