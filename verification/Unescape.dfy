/** Decoding '+' and '%HH' in place, in a zero-terminated string. */
module Unescape {
  import opened Common
  import opened CText

  const BYTE_MODULUS := 256

  function PlusToSpace(s: string): (r: string)
    ensures |r| == |s|
  {
    seq(|s|, i requires 0 <= i < |s| => if s[i] == '+' then ' ' else s[i])
  }

  /** The byte that the two characters after a '%' stand for, as a number before truncation. */
  function Escape(a: char, b: char): Option<nat> {
    if !IsHex(b) then None
    else if IsHex(a) then Some(16 * HexDigit(a) + HexDigit(b))
    else if IsSpace(a) || a == '+' then Some(HexDigit(b))
    else if a == '-' then Some((ULONG_MODULUS - HexDigit(b)) % ULONG_MODULUS)
    else None
  }

  /** That is what strtoul makes of them, where it reads both: signs and white space count as read. */
  lemma EscapeIsStrToUl(a: char, b: char)
    ensures Escape(a, b).Some? <==> StrToUl16([a, b]).complete
    ensures Escape(a, b).Some? ==> Escape(a, b).value == StrToUl16([a, b]).value
  {
    var s := [a, b];
    assert s[1..] == [b] && s[..1] == [a] && [b][1..] == "" && [b][..0] == "" && [b][..1] == [b] && s[..2] == s;
    assert HexPrefix([b]) == if IsHex(b) then 1 else 0;
    assert IsHex(b) ==> HexValue([b]) == HexDigit(b);
    if IsHex(a) {
      assert SkipSpaces(s) == s && HexPrefix(s) == 1 + HexPrefix([b]);
      assert [a][..0] == "" && HexValue([a]) == HexDigit(a);
      assert IsHex(b) ==> HexValue(s) == 16 * HexValue([a]) + HexDigit(b);
    } else if IsSpace(a) {
      assert SkipSpaces(s) == SkipSpaces([b]) && (!IsSpace(b) ==> SkipSpaces([b]) == [b]) && SkipSpaces("") == "";
    } else {
      assert SkipSpaces(s) == s && HexPrefix(s) == 0;
    }
  }

  method ReadEscape(a: char, b: char) returns (r: Option<nat>)
    ensures r == Escape(a, b)
  {
    var number := StrToUl16([a, b]);
    EscapeIsStrToUl(a, b);
    r := if number.complete then Some(number.value) else None;
  }

  function ByteOf(n: nat): char { (n % BYTE_MODULUS) as char }

  /** An escape cut off by the end of the string ends the result. */
  function Unescaped(s: string): string {
    if s == "" then ""
    else if s[0] != '%' then [s[0]] + Unescaped(s[1..])
    else if |s| < 3 then ""
    else match Escape(s[1], s[2])
      case Some(n) => [ByteOf(n)] + Unescaped(s[3..])
      case None => [s[0]] + Unescaped(s[1..])
  }

  function Plain(s: string): string { Unescaped(PlusToSpace(s)) }

  // ---------------------------------------------------------------------------------------------
  // Where a string may be cut.

  /** Every '%' has its two characters, and neither is a '%'. */
  predicate Complete(s: string) {
    forall i :: 0 <= i < |s| && s[i] == '%' ==> i + 2 < |s| && s[i + 1] != '%' && s[i + 2] != '%'
  }

  /** The same but for an escape that the end cuts off. */
  predicate Spaced(s: string) {
    forall i, j :: 0 <= i < j < |s| && j <= i + 2 && s[i] == '%' ==> s[j] != '%'
  }

  /** The same, and the end may cut off two of them, the last right behind the first. */
  predicate Loose(s: string) {
    forall i, j :: 0 <= i < j < |s| && j <= i + 2 < |s| && s[i] == '%' ==> s[j] != '%'
  }

  lemma LooseBefore(a: string, b: string)
    requires Loose(a + b)
    ensures Loose(a) && (b != "" ==> Spaced(a))
  {
    var s := a + b;
    forall i, j | 0 <= i < j < |a| && j <= i + 2 && a[i] == '%' && (b != "" || i + 2 < |a|) ensures a[j] != '%' {
      assert s[i] == a[i] && s[j] == a[j];
    }
  }

  lemma LooseBehind(a: string, b: string)
    requires Loose(a + b)
    ensures Loose(b)
  {
    var s := a + b;
    forall i, j | 0 <= i < j < |b| && j <= i + 2 < |b| && b[i] == '%' ensures b[j] != '%' {
      assert s[|a| + i] == b[i] && s[|a| + j] == b[j];
    }
  }

  lemma CompleteTail(s: string, n: nat)
    requires Complete(s) && n <= |s|
    ensures Complete(s[n..])
  {
    var t := s[n..];
    forall i | 0 <= i < |t| && t[i] == '%' ensures i + 2 < |t| && t[i + 1] != '%' && t[i + 2] != '%' {
      assert s[n + i] == '%';
    }
  }

  /** Decoding goes through a concatenation whose first part is complete. */
  lemma {:induction false} UnescapedConcat(a: string, b: string)
    requires Complete(a)
    ensures Unescaped(a + b) == Unescaped(a) + Unescaped(b)
  {
    if a == "" {
      assert a + b == b;
    } else {
      var t, n := a + b, Taken(a);
      assert t[0] == a[0] && (|a| > 2 ==> t[1] == a[1] && t[2] == a[2]);
      CompleteTail(a, n);
      UnescapedConcat(a[n..], b);
      assert t[n..] == a[n..] + b;
      OneTaken(a);
      OneTaken(t);
    }
  }

  /** How many characters the first turn of the decoder takes, and what it makes of them. */
  function Taken(s: string): nat
    requires s != ""
  {
    if s[0] == '%' && |s| > 2 && Escape(s[1], s[2]).Some? then 3 else 1
  }

  lemma OneTaken(s: string)
    requires s != "" && (s[0] == '%' ==> |s| > 2)
    ensures Unescaped(s)
      == [if Taken(s) == 3 then ByteOf(Escape(s[1], s[2]).value) else s[0]] + Unescaped(s[Taken(s)..])
  {
  }

  lemma CompletePlus(s: string)
    requires Complete(s)
    ensures Complete(PlusToSpace(s))
  {
    var t := PlusToSpace(s);
    forall i | 0 <= i < |t| && t[i] == '%' ensures i + 2 < |t| && t[i + 1] != '%' && t[i + 2] != '%' {
      assert s[i] == '%';
    }
  }

  lemma PlainConcat(a: string, b: string)
    requires Complete(a)
    ensures Plain(a + b) == Plain(a) + Plain(b)
  {
    CompletePlus(a);
    assert PlusToSpace(a + b) == PlusToSpace(a) + PlusToSpace(b);
    UnescapedConcat(PlusToSpace(a), PlusToSpace(b));
  }

  /** What the end of a buffer holds back: an escape that more bytes may complete. */
  function HeldFrom(s: string): (n: nat)
    ensures n <= |s| <= n + 2
  {
    if |s| > 0 && s[|s| - 1] == '%' then |s| - 1
    else if |s| > 1 && s[|s| - 2] == '%' then |s| - 2
    else |s|
  }

  function Held(s: string): string { s[HeldFrom(s)..] }

  function Ready(s: string): string { s[..HeldFrom(s)] }

  lemma ReadyIsComplete(s: string)
    requires Spaced(s)
    ensures Complete(Ready(s))
  {
    var r := Ready(s);
    forall i | 0 <= i < |r| && r[i] == '%' ensures i + 2 < |r| && r[i + 1] != '%' && r[i + 2] != '%' {
      assert s[i] == '%';
      assert i + 1 < |s| && s[i + 1] != '%';
    }
  }

  lemma CompleteIsReady(s: string)
    requires Complete(s)
    ensures Ready(s) == s && Held(s) == "" && Spaced(s)
  {
    if |s| > 0 { assert s[|s| - 1] != '%'; }
    if |s| > 1 { assert s[|s| - 2] != '%'; }
  }

  /** Behind complete bytes the same end is held back. */
  lemma HeldBehind(a: string, b: string)
    requires Complete(a)
    ensures Held(a + b) == Held(b) && Ready(a + b) == a + Ready(b)
  {
    var s := a + b;
    if |a| > 0 { assert a[|a| - 1] != '%'; }
    if |a| > 1 { assert a[|a| - 2] != '%'; }
    assert HeldFrom(s) == |a| + HeldFrom(b);
  }

  lemma HeldAgain(s: string)
    ensures Held(Held(s)) == Held(s) && Ready(Held(s)) == ""
  {
  }

  /** A cut escape decodes to nothing. */
  lemma CutEscape(s: string)
    requires s != "" && s[0] == '%' && |s| < 3
    ensures Plain(s) == ""
  {
    assert PlusToSpace(s)[0] == '%';
  }

  /** What is held back decodes to nothing. */
  lemma PlainReady(s: string)
    requires Loose(s)
    ensures Plain(s) == Plain(Ready(s))
  {
    assert s == Ready(s) + Held(s);
    if Spaced(s) {
      ReadyIsComplete(s);
      PlainConcat(Ready(s), Held(s));
      if Held(s) != "" { CutEscape(Held(s)); }
      assert Plain(Ready(s)) + "" == Plain(Ready(s));
    } else {
      LooseEnd(s);
    }
  }

  /** A value that is loose but not spaced ends in two signs behind complete escapes. */
  lemma LooseEnd(s: string)
    requires Loose(s) && !Spaced(s)
    ensures |s| >= 2 && s == s[..|s| - 2] + "%%" && Complete(s[..|s| - 2])
    ensures Ready(s) == s[..|s| - 2] + "%" && Held(s) == "%"
    ensures Plain(s) == Plain(Ready(s))
  {
    var i, j :| 0 <= i < j < |s| && j <= i + 2 && s[i] == '%' && s[j] == '%';
    assert i == |s| - 2 && j == |s| - 1;
    BeforeEnd(s, i);
    TwoSigns(s[..i]);
  }

  lemma BeforeEnd(s: string, n: nat)
    requires Loose(s) && n + 2 == |s| && s[n] == '%' && s[n + 1] == '%'
    ensures Complete(s[..n]) && s == s[..n] + "%%" && Ready(s) == s[..n] + "%" && Held(s) == "%"
  {
    var w := s[..n];
    forall k | 0 <= k < n && w[k] == '%' ensures k + 2 < n && w[k + 1] != '%' && w[k + 2] != '%' {
      assert s[k] == '%' && s[n] == '%';
      assert k + 2 < |s|;
    }
  }

  lemma TwoSigns(w: string)
    requires Complete(w)
    ensures Plain(w + "%%") == Plain(w) == Plain(w + "%")
  {
    PlainConcat(w, "%%");
    PlainConcat(w, "%");
    CutEscape("%%");
    CutEscape("%");
    assert Plain(w) + "" == Plain(w);
  }

  // When a cut of a value shows.

  /** What a value comes to in two pieces, cut at n: the end of each is held back, and that of the second is dropped. */
  function InTwo(v: string, n: nat): string
    requires n <= |v|
  {
    Plain(Ready(v[..n])) + Plain(Ready(Held(v[..n]) + v[n..]))
  }

  lemma CutAt(v: string, n: nat)
    requires n <= |v|
    ensures Ready(v[..n]) == v[..HeldFrom(v[..n])] && Held(v[..n]) + v[n..] == v[HeldFrom(v[..n])..]
  {
  }

  lemma LooseCut(v: string, n: nat)
    requires n <= |v| && Loose(v)
    ensures InTwo(v, n) == Plain(v)
  {
    var a, b := v[..n], v[n..];
    assert a + b == v;
    LooseBefore(a, b);
    if b == "" {
      PlainReady(v);
      assert a == v && Held(a) + b == Held(v);
      HeldAgain(v);
      assert PlusToSpace("") == "" && Plain(Ready(v)) + "" == Plain(Ready(v));
    } else {
      ReadyIsComplete(a);
      PlainConcat(Ready(a), Held(a) + b);
      assert v == Ready(a) + (Held(a) + b);
      LooseBehind(Ready(a), Held(a) + b);
      PlainReady(Held(a) + b);
    }
  }

  /** Two signs next to each other or with one character between, and something behind the third place. */
  predicate Near(v: string, i: nat) {
    i + 2 < |v| && v[i] == '%' && (v[i + 1] == '%' || v[i + 2] == '%')
  }

  lemma {:induction false} FirstNear(v: string, i: nat) returns (k: nat)
    requires Near(v, i)
    ensures Near(v, k) && forall j :: 0 <= j < k ==> !Near(v, j)
    decreases i
  {
    if j: nat :| j < i && Near(v, j) {
      k := FirstNear(v, j);
    } else {
      k := i;
    }
  }

  /** What stands before the first such pair is complete. */
  lemma BeforeNear(v: string, k: nat)
    requires Near(v, k) && forall j :: 0 <= j < k ==> !Near(v, j)
    ensures Complete(v[..k])
  {
    var w := v[..k];
    forall i | 0 <= i < k && w[i] == '%' ensures i + 2 < k && w[i + 1] != '%' && w[i + 2] != '%' {
      assert v[i] == '%' && !Near(v, i);
    }
  }

  /** A sign whose escape is spoilt by another sign stands for itself. */
  lemma SpoiltEscape(u: string)
    requires Near(u, 0)
    ensures |Plain(u)| == |Plain(u[if u[1] == '%' then 1 else 2..])| + if u[1] == '%' then 1 else 2
  {
    var t := PlusToSpace(u);
    assert t[0] == '%' && Escape(t[1], t[2]) == None;
    assert t[1..] == PlusToSpace(u[1..]);
    assert Unescaped(t) == ['%'] + Unescaped(t[1..]);
    if u[1] != '%' {
      assert t[1..][0] != '%' && t[1..][1..] == PlusToSpace(u[2..]);
      assert Unescaped(t[1..]) == [t[1]] + Unescaped(t[1..][1..]);
    }
  }

  /** Bytes that are missing at the end take nothing but bytes at the end from the result. */
  lemma {:induction false} UnescapedPrefix(a: string, b: string)
    ensures Unescaped(a) <= Unescaped(a + b)
    decreases |a|
  {
    var t := a + b;
    if a != "" && (a[0] != '%' || |a| > 2) {
      assert t[0] == a[0] && (|a| > 2 ==> t[1] == a[1] && t[2] == a[2]);
      UnescapedPrefix(a[Taken(a)..], b);
      assert t[Taken(a)..] == a[Taken(a)..] + b;
      OneTaken(a);
      OneTaken(t);
    }
  }

  lemma ReadyIsShorter(s: string)
    ensures |Plain(Ready(s))| <= |Plain(s)|
  {
    assert PlusToSpace(s) == PlusToSpace(Ready(s)) + PlusToSpace(Held(s));
    UnescapedPrefix(PlusToSpace(Ready(s)), PlusToSpace(Held(s)));
  }

  /** Cut behind the second sign of the first such pair, the value is shorter. */
  lemma NearCut(v: string, k: nat)
    requires Near(v, k) && forall j :: 0 <= j < k ==> !Near(v, j)
    ensures var n := if v[k + 1] == '%' then k + 2 else k + 3; InTwo(v, n) != Plain(v)
  {
    var n := if v[k + 1] == '%' then k + 2 else k + 3;
    var w, u := v[..k], v[k..];
    BeforeNear(v, k);
    CutAt(v, n);
    assert HeldFrom(v[..n]) == n - 1;
    assert v == w + u && v[..n - 1] == w + u[..n - 1 - k] && v[n - 1..] == u[n - 1 - k..];
    PlainConcat(w, u);
    PlainConcat(w, u[..n - 1 - k]);
    CutEscape(u[..n - 1 - k]);
    SpoiltEscape(u);
    ReadyIsShorter(v[n - 1..]);
  }

  /** Every cut leaves the value as it is exactly if no two signs are near each other, but for two at its very end. */
  lemma CutsShowNearSigns(v: string)
    ensures (forall n: nat :: n <= |v| ==> InTwo(v, n) == Plain(v)) <==> Loose(v)
  {
    if Loose(v) {
      forall n: nat | n <= |v| ensures InTwo(v, n) == Plain(v) {
        LooseCut(v, n);
      }
    } else {
      var i, j :| 0 <= i < j < |v| && j <= i + 2 < |v| && v[i] == '%' && v[j] == '%';
      assert Near(v, i);
      var k := FirstNear(v, i);
      NearCut(v, k);
    }
  }

  /** For example: two signs in a row, cut behind them. */
  lemma DoublePercentCut()
    ensures InTwo("%%zz", 2) != Plain("%%zz")
  {
    NearCut("%%zz", 0);
  }

  // ---------------------------------------------------------------------------------------------
  // The decoding functions.

  /** The C string in the first n bytes of an array. */
  ghost predicate Terminated(a: array<char>, n: nat)
    reads a
  {
    n < a.Length && a[n] == '\0' && '\0' !in a[..n]
  }

  method StrChr(a: array<char>, from: nat, c: char, ghost n: nat) returns (p: int)
    requires from <= n < a.Length && a[n] == '\0' && c != '\0' && forall i :: 0 <= i < n ==> a[i] != '\0'
    ensures p < 0 ==> forall i :: from <= i < n ==> a[i] != c
    ensures p >= 0 ==> from <= p < n && a[p] == c && forall i :: from <= i < p ==> a[i] != c
  {
    p := from;
    while a[p] != '\0'
      invariant from <= p <= n && forall i :: from <= i < p ==> a[i] != c
      decreases n - p
    {
      if a[p] == c { return; }
      p := p + 1;
    }
    p := -1;
  }

  method UnescapePlus(arg: array<char>, ghost n: nat)
    requires Terminated(arg, n)
    modifies arg
    ensures Terminated(arg, n) && arg[..n] == PlusToSpace(old(arg[..n])) && arg[n..] == old(arg[n..])
  {
    ghost var s := arg[..n];
    ghost var from := 0;
    var p := StrChr(arg, 0, '+', n);
    while p >= 0
      invariant 0 <= from <= n && arg[n] == '\0'
      invariant forall i :: 0 <= i < from ==> arg[i] == if s[i] == '+' then ' ' else s[i]
      invariant forall i :: from <= i < n ==> arg[i] == s[i]
      invariant forall i :: n <= i < arg.Length ==> arg[i] == old(arg[i])
      invariant if p < 0 then forall i :: from <= i < n ==> s[i] != '+'
                else from <= p < n && s[p] == '+' && forall i :: from <= i < p ==> s[i] != '+'
      decreases n - from
    {
      arg[p] := ' ';
      from := p + 1;
      p := StrChr(arg, p + 1, '+', n);
    }
  }

  /** What is written so far and the decoding of what is not yet read make up the whole. */
  ghost function Written(s: string, r: nat, out: string): Answer
    requires r <= |s|
  {
    if out + Unescaped(s[r..]) == Unescaped(s) then Yes else No
  }

  /** One turn: a decoded byte or the character itself is written, and the read position goes on. */
  lemma UnescapeStep(s: string, r: nat, out: string)
    requires r < |s| && Written(s, r, out) == Yes
    ensures s[r] != '%' ==> Written(s, r + 1, out + [s[r]]) == Yes
    ensures s[r] == '%' && r + 2 >= |s| ==> out == Unescaped(s)
    ensures s[r] == '%' && r + 2 < |s| ==>
      match Escape(s[r + 1], s[r + 2])
      case Some(n) => Written(s, r + 3, out + [ByteOf(n)]) == Yes
      case None => Written(s, r + 1, out + [s[r]]) == Yes
  {
    var t := s[r..];
    assert t[1..] == s[r + 1..];
    if s[r] == '%' && r + 2 >= |s| {
      assert Unescaped(t) == "" && out + "" == out;
    } else if s[r] == '%' && Escape(s[r + 1], s[r + 2]).Some? {
      assert t[3..] == s[r + 3..];
      OneWritten(out, ByteOf(Escape(s[r + 1], s[r + 2]).value), Unescaped(t[3..]), Unescaped(t));
    } else {
      OneWritten(out, s[r], Unescaped(t[1..]), Unescaped(t));
    }
  }

  lemma OneWritten(out: string, c: char, rest: string, whole: string)
    requires whole == [c] + rest
    ensures out + [c] + rest == out + whole
  {
  }

  /** The result so far at the front, what is not yet read behind it, and all else as it was. */
  ghost predicate InPlace(val: array<char>, s: string, tail: seq<char>, r: nat, w: nat, out: string)
    reads val
  {
    && w <= r <= |s| && |out| == w && val.Length == |s| + |tail|
    && (forall i :: 0 <= i < w ==> val[i] == out[i])
    && (forall i :: r <= i < |s| ==> val[i] == s[i])
    && (forall i :: 0 <= i < |tail| ==> val[|s| + i] == tail[i])
  }

  method Put(val: array<char>, w: nat, c: char, ghost s: string, ghost tail: seq<char>, ghost r: nat, ghost next: nat,
             ghost out: string)
    requires InPlace(val, s, tail, r, w, out) && r < next <= |s|
    modifies val
    ensures InPlace(val, s, tail, next, w + 1, out + [c])
  {
    val[w] := c;
  }

  method HttpUnescape(val: array<char>, ghost n: nat) returns (length: nat)
    requires Terminated(val, n)
    modifies val
    ensures length <= n && val[..length] == Unescaped(old(val[..n])) && val[length] == '\0'
    ensures val[n..] == old(val[n..])
  {
    ghost var s, tail, out := val[..n], val[n..], "";
    var r, w := 0, 0;
    assert s[0..] == s;
    while val[r] != '\0'
      invariant InPlace(val, s, tail, r, w, out) && Written(s, r, out) == Yes
      decreases n - r
    {
      UnescapeStep(s, r, out);
      if val[r] == '%' {
        if val[r + 1] == '\0' || val[r + 2] == '\0' { break; }
        var number := ReadEscape(val[r + 1], val[r + 2]);
        if number.Some? {
          Put(val, w, ByteOf(number.value), s, tail, r, r + 3, out);
          out := out + [ByteOf(number.value)];
          w := w + 1;
          r := r + 3;
          continue;
        }
      }
      Put(val, w, val[r], s, tail, r, r + 1, out);
      out := out + [s[r]];
      w := w + 1;
      r := r + 1;
    }
    if r == n { assert s[r..] == "" && out + "" == out; }
    val[w] := '\0';
    assert val[..w] == out;
    length := w;
  }
}
