/** Forms as browsers encode them (HTML 4.01 section 17.13.4.1), and that the parser gives back what was encoded. */
module FormEncoding {
  import opened Common
  import opened CText
  import opened Unescape
  import opened UrlEncoded

  predicate Unreserved(c: char) {
    'a' <= c <= 'z' || 'A' <= c <= 'Z' || '0' <= c <= '9' || c == '-' || c == '_' || c == '.' || c == '*'
  }

  /**
   * The text e stands for c: itself, a plus for a blank, or a percent sign and the two digits of its code, in any
   * mixture of cases. A browser may encode more characters than it must.
   */
  predicate EncodesChar(e: string, c: char) {
    || (e == "+" && c == ' ')
    || (e == [c] && Unreserved(c))
    || (|e| == 3 && e[0] == '%' && Spells(e[1..], c as int))
  }

  function CharLength(e: string): nat { if e != "" && e[0] == '%' then 3 else 1 }

  predicate Encodes(e: string, s: string) {
    if s == "" then e == ""
    else CharLength(e) <= |e| && EncodesChar(e[..CharLength(e)], s[0]) && Encodes(e[CharLength(e)..], s[1..])
  }

  lemma TwoDigits(h: string, n: nat)
    requires |h| == 2
    ensures Spells(h, n) <==> IsHex(h[0]) && IsHex(h[1]) && 16 * HexDigit(h[0]) + HexDigit(h[1]) == n
  {
    assert h[..1] == [h[0]] && h[..1][..0] == "";
    SpellsValue(h, n);
    assert IsHex(h[0]) ==> HexValue([h[0]]) == HexDigit(h[0]);
  }

  lemma EncodedCharPlain(e: string, c: char)
    requires EncodesChar(e, c)
    ensures Complete(e) && Plain(e) == [c] && AllHarmless(e)
  {
    var p := PlusToSpace(e);
    if |e| == 3 && e[0] == '%' {
      TwoDigits(e[1..], c as int);
      assert p == e && Escape(p[1], p[2]) == Some(c as int) && p[3..] == "";
      assert ByteOf(c as int) == c && Unescaped("") == "";
      assert Unescaped(p) == [ByteOf(c as int)] + Unescaped(p[3..]);
    } else {
      assert |e| == 1 && p == [c] && p[1..] == "" && Unescaped("") == "";
    }
  }

  predicate Harmless(c: char) { Unreserved(c) || c == '+' || c == '%' || IsHex(c) }

  predicate AllHarmless(s: string) { forall i :: 0 <= i < |s| ==> Harmless(s[i]) }

  lemma HarmlessSeparates(s: string)
    requires AllHarmless(s)
    ensures '=' !in s && '&' !in s && Breakless(s)
  {
  }

  /** What is encoded is complete, free of every separator, and decodes to itself, whichever encoding it is. */
  lemma {:induction false} EncodedPlain(e: string, s: string)
    requires Encodes(e, s)
    ensures Complete(e) && Plain(e) == s && AllHarmless(e)
    decreases |s|
  {
    if s != "" {
      var n := CharLength(e);
      EncodedPlain(e[n..], s[1..]);
      EncodedCharPlain(e[..n], s[0]);
      PlainConcat(e[..n], e[n..]);
      assert e == e[..n] + e[n..];
    }
  }

  /** Every text of bytes has an encoding. */
  lemma {:induction false} SomeEncoding(s: string) returns (e: string)
    requires forall i :: 0 <= i < |s| ==> s[i] as int < 256
    ensures Encodes(e, s)
  {
    if s == "" { return ""; }
    var rest := SomeEncoding(s[1..]);
    var c := s[0];
    var h := [UpperHexDigit(c as int / 16), UpperHexDigit(c as int % 16)];
    TwoDigits(h, c as int);
    e := ['%'] + h + rest;
    assert e[..3] == ['%'] + h && e[..3][1..] == h && e[3..] == rest;
  }

  // ---------------------------------------------------------------------------------------------
  // Whole forms.

  function Form(pairs: seq<Pair>): string {
    if pairs == [] then "" else
      pairs[0].key + ['='] + (pairs[0].value + if |pairs| == 1 then "" else ['&'] + Form(pairs[1..]))
  }

  predicate Separable(p: Pair) { '=' !in p.key && '&' !in p.value && Breakless(p.key) && Breakless(p.value) }

  predicate AllSeparable(pairs: seq<Pair>) { forall i :: 0 <= i < |pairs| ==> Separable(pairs[i]) }

  predicate Sound(p: Pair) { Complete(p.value) }

  predicate AllSound(pairs: seq<Pair>) { forall i :: 0 <= i < |pairs| ==> Sound(pairs[i]) }

  /** A form is split where it was joined. */
  lemma {:induction false} FormFed(done: seq<Pair>, pairs: seq<Pair>)
    requires AllSeparable(pairs) && pairs != []
    ensures var p := Feed(Parse(done, InKey("")), Form(pairs)); p.mode.InValue? && Ended(p) == done + pairs
    decreases |pairs|
  {
    var e, rest := pairs[0], pairs[1..];
    assert Separable(e);
    if |pairs| == 1 {
      FormFedLast(done, e);
      assert e.value + "" == e.value && pairs == [e];
    } else {
      FormFedFirst(done, e, Form(rest));
      FormFed(done + [e], rest);
      assert done + [e] + rest == done + pairs;
    }
  }

  lemma FormFedLast(done: seq<Pair>, e: Pair)
    requires Separable(e)
    ensures Feed(Parse(done, InKey("")), e.key + ['='] + e.value) == Parse(done, InValue(e.key, e.value))
  {
    FeedToEquals(done, e.key, e.value);
    FeedValue(done, e.key, "", e.value);
    assert "" + e.value == e.value;
  }

  lemma FormFedFirst(done: seq<Pair>, e: Pair, more: string)
    requires Separable(e)
    ensures Feed(Parse(done, InKey("")), e.key + ['='] + (e.value + (['&'] + more)))
      == Feed(Parse(done + [e], InKey("")), more)
  {
    FeedToEquals(done, e.key, e.value + (['&'] + more));
    FeedToAmpersand(done, e.key, e.value, more);
    assert e.value + (['&'] + more) == e.value + ['&'] + more;
  }

  lemma {:induction false} FormBreakless(pairs: seq<Pair>)
    requires AllSeparable(pairs)
    ensures Breakless(Form(pairs))
  {
    if pairs != [] {
      assert Separable(pairs[0]);
      FormBreakless(pairs[1..]);
    }
  }

  /** The pairs es are encodings of the pairs to be sent. */
  predicate EncodesPairs(es: seq<Pair>, pairs: seq<Pair>) {
    && |es| == |pairs|
    && forall i :: 0 <= i < |pairs| ==> Encodes(es[i].key, pairs[i].key) && Encodes(es[i].value, pairs[i].value)
  }

  lemma EncodedPairsFit(es: seq<Pair>, pairs: seq<Pair>)
    requires EncodesPairs(es, pairs)
    ensures AllSeparable(es) && AllSound(es)
  {
    forall i | 0 <= i < |es| ensures Separable(es[i]) && Sound(es[i]) {
      EncodedPairFits(es[i], pairs[i]);
    }
  }

  lemma EncodedPairFits(e: Pair, p: Pair)
    requires Encodes(e.key, p.key) && Encodes(e.value, p.value)
    ensures Separable(e) && Sound(e)
  {
    EncodedPlain(e.key, p.key);
    EncodedPlain(e.value, p.value);
    HarmlessSeparates(e.key);
    HarmlessSeparates(e.value);
  }

  lemma {:induction false} CollectEncoded(es: seq<Pair>, pairs: seq<Pair>)
    requires EncodesPairs(es, pairs)
    ensures Collect(es) == Sent(pairs)
  {
    if pairs != [] {
      var n := |pairs| - 1;
      CollectEncoded(es[..n], pairs[..n]);
      EncodedPlain(es[n].key, pairs[n].key);
      EncodedPlain(es[n].value, pairs[n].value);
    }
  }

  /** The parameters that were to be sent. */
  function Sent(pairs: seq<Pair>): map<string, string> {
    if pairs == [] then map[] else
      var last := pairs[|pairs| - 1];
      Sent(pairs[..|pairs| - 1])[CStr(last.key) := last.value]
  }

  predicate KeysFit(pairs: seq<Pair>, size: nat) { forall i :: 0 <= i < |pairs| ==> |pairs[i].key| <= size }

  /** A form of complete values whose keys fit is well formed. */
  lemma FormWellFormed(pairs: seq<Pair>, size: nat)
    requires AllSeparable(pairs) && KeysFit(pairs, size) && AllSound(pairs)
    ensures WellFormed(Form(pairs), size)
  {
    FormBreakless(pairs);
    if pairs != [] {
      FormFed([], pairs);
      EndedAcceptable(Feed(START, Form(pairs)), pairs, size);
    }
  }

  lemma EndedAcceptable(p: Parse, pairs: seq<Pair>, size: nat)
    requires p.mode.InValue? && Ended(p) == pairs && KeysFit(pairs, size) && AllSound(pairs)
    ensures Acceptable(p, size)
  {
    var last := |p.done|;
    assert pairs[last] == Pair(p.mode.key, p.mode.value) && Sound(pairs[last]);
    CompleteIsReady(p.mode.value);
    forall i | 0 <= i < last ensures |p.done[i].key| <= size && Complete(p.done[i].value) {
      assert p.done[i] == pairs[i] && Sound(pairs[i]);
    }
  }

  /** Decoding undoes encoding, but for what follows a zero byte of a key. */
  lemma FormRoundTrip(es: seq<Pair>, pairs: seq<Pair>)
    requires EncodesPairs(es, pairs)
    ensures Collect(Pairs(Form(es))) == Sent(pairs)
  {
    EncodedPairsFit(es, pairs);
    CollectEncoded(es, pairs);
    FeedIsPairs([], Form(es));
    if es != [] {
      FormFed([], es);
      assert [] + Pairs(Form(es)) == Pairs(Form(es)) && [] + es == es;
    }
  }

  /** The form arrives, however it was encoded, in any segments and gives back what was sent. */
  method ReceiveForm(ghost pairs: seq<Pair>, ghost es: seq<Pair>, segments: seq<string>, size: nat)
    returns (params: map<string, string>)
    requires EncodesPairs(es, pairs) && KeysFit(es, size) && Joined(segments) == Form(es)
    ensures params == Sent(pairs)
  {
    EncodedPairsFit(es, pairs);
    FormWellFormed(es, size);
    FormRoundTrip(es, pairs);
    params := ParseForm(segments, size);
  }
}
