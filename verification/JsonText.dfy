/** Reading JSON text (RFC 8259): characters to tokens (section 2), tokens to values (sections 3 to 7). */
module JsonText {

  // ---------------------------------------------------------------------------------------------
  // Tokens.

  datatype Token = Punct(c: char) | Text(s: string) | Word(w: string)

  datatype Mode = Between | InWord(w: string) | InText(s: string) | Escape(s: string) | Broken
  datatype Lex = Lex(tokens: seq<Token>, mode: Mode)

  const START := Lex([], Between)

  predicate IsBlank(c: char) { c == ' ' || c == '\t' || c == '\n' || c == '\r' }

  predicate IsPunct(c: char) { c == '{' || c == '}' || c == '[' || c == ']' || c == ':' || c == ',' }

  /** The character that the one behind a backslash stands for; code points by number are not read. */
  function Unescaped(c: char): (r: seq<char>)
    ensures |r| <= 1
  {
    if c == '"' || c == '\\' || c == '/' then [c]
    else if c == 'b' then ['\U{0008}']
    else if c == 'f' then ['\U{000C}']
    else if c == 'n' then ['\n']
    else if c == 'r' then ['\r']
    else if c == 't' then ['\t']
    else []
  }

  function Next(l: Lex, c: char): Lex {
    match l.mode
    case Broken => l
    case InText(s) =>
      if c == '"' then Lex(l.tokens + [Text(s)], Between)
      else if c == '\\' then Lex(l.tokens, Escape(s))
      else if c < ' ' then Lex(l.tokens, Broken)
      else Lex(l.tokens, InText(s + [c]))
    case Escape(s) =>
      if Unescaped(c) == [] then Lex(l.tokens, Broken) else Lex(l.tokens, InText(s + Unescaped(c)))
    case _ =>
      if IsBlank(c) then Lex(Seen(l), Between)
      else if IsPunct(c) then Lex(Seen(l) + [Punct(c)], Between)
      else if c == '"' then Lex(Seen(l), InText(""))
      else Lex(l.tokens, InWord((if l.mode.InWord? then l.mode.w else "") + [c]))
  }

  /** The tokens so far, with a word that may not have ended yet. */
  function Seen(l: Lex): seq<Token> {
    l.tokens + if l.mode.InWord? then [Word(l.mode.w)] else []
  }

  function Feed(l: Lex, s: string): Lex
    decreases |s|
  {
    if s == "" then l else Feed(Next(l, s[0]), s[1..])
  }

  lemma {:induction false} FeedConcat(l: Lex, a: string, b: string)
    ensures Feed(l, a + b) == Feed(Feed(l, a), b)
    decreases |a|
  {
    if a == "" {
      assert a + b == b;
    } else {
      FeedConcat(Next(l, a[0]), a[1..], b);
      assert (a + b)[1..] == a[1..] + b;
    }
  }

  // ---------------------------------------------------------------------------------------------
  // Values.

  datatype Json =
    | Object(members: seq<Member>) | Array(items: seq<Json>)
    | Str(s: string) | Num(n: int) | Bool(b: bool) | Null
  datatype Member = Member(key: string, value: Json)
  datatype Read<T> = Failed | Done(value: T, rest: seq<Token>)

  function Digit(c: char): int { c as int - '0' as int }

  predicate IsDigits(s: string) { s != "" && forall i :: 0 <= i < |s| ==> '0' <= s[i] <= '9' }

  function Decimal(s: string): int {
    if s == "" then 0 else 10 * Decimal(s[..|s| - 1]) + Digit(s[|s| - 1])
  }

  /** A word is a literal name or an integer; fractions and exponents are not read. */
  function ReadWord(w: string): Read<Json> {
    if w == "true" then Done(Bool(true), [])
    else if w == "false" then Done(Bool(false), [])
    else if w == "null" then Done(Null, [])
    else if IsDigits(w) && (w[0] != '0' || |w| == 1) then Done(Num(Decimal(w)), [])
    else if |w| > 1 && w[0] == '-' && IsDigits(w[1..]) && (w[1] != '0' || |w| == 2) then Done(Num(-Decimal(w[1..])), [])
    else Failed
  }

  function ReadValue(t: seq<Token>): (r: Read<Json>)
    ensures r.Done? ==> |r.rest| < |t|
    decreases |t|, 1
  {
    if t == [] then Failed
    else match t[0]
      case Text(s) => Done(Str(s), t[1..])
      case Word(w) => if ReadWord(w).Done? then Done(ReadWord(w).value, t[1..]) else Failed
      case Punct(c) =>
        if c == '{' then
          if |t| > 1 && t[1] == Punct('}') then Done(Object([]), t[2..])
          else match ReadMembers(t[1..])
            case Failed => Failed
            case Done(m, rest) => Done(Object(m), rest)
        else if c == '[' then
          if |t| > 1 && t[1] == Punct(']') then Done(Array([]), t[2..])
          else match ReadItems(t[1..])
            case Failed => Failed
            case Done(v, rest) => Done(Array(v), rest)
        else Failed
  }

  /** Members up to the closing brace. */
  function ReadMembers(t: seq<Token>): (r: Read<seq<Member>>)
    ensures r.Done? ==> |r.rest| < |t|
    decreases |t|, 2
  {
    if |t| < 3 || !t[0].Text? || t[1] != Punct(':') then Failed
    else match ReadValue(t[2..])
      case Failed => Failed
      case Done(v, rest) =>
        var m := Member(t[0].s, v);
        if rest != [] && rest[0] == Punct('}') then Done([m], rest[1..])
        else if rest != [] && rest[0] == Punct(',') then
          match ReadMembers(rest[1..])
          case Failed => Failed
          case Done(more, last) => Done([m] + more, last)
        else Failed
  }

  /** Values up to the closing bracket. */
  function ReadItems(t: seq<Token>): (r: Read<seq<Json>>)
    ensures r.Done? ==> |r.rest| < |t|
    decreases |t|, 2
  {
    match ReadValue(t)
    case Failed => Failed
    case Done(v, rest) =>
      if rest != [] && rest[0] == Punct(']') then Done([v], rest[1..])
      else if rest != [] && rest[0] == Punct(',') then
        match ReadItems(rest[1..])
        case Failed => Failed
        case Done(more, last) => Done([v] + more, last)
      else Failed
  }

  /** The value a whole text stands for. */
  function ReadText(s: string): Read<Json> {
    var l := Feed(START, s);
    if l.mode.Between? || l.mode.InWord? then
      match ReadValue(Seen(l))
      case Done(v, rest) => if rest == [] then Done(v, []) else Failed
      case Failed => Failed
    else Failed
  }

  // ---------------------------------------------------------------------------------------------
  // The tokens of a value.

  function IntText(n: int): string {
    if n < 0 then "-" + NatText(-n) else NatText(n)
  }

  function NatText(n: nat): (s: string)
    ensures s != ""
  {
    (if n < 10 then "" else NatText(n / 10)) + [('0' as int + n % 10) as char]
  }

  function Tokens(v: Json): seq<Token>
    decreases v, 1
  {
    match v
    case Object(m) => [Punct('{')] + MemberTokens(m) + [Punct('}')]
    case Array(items) => [Punct('[')] + ItemTokens(items) + [Punct(']')]
    case Str(s) => [Text(s)]
    case Num(n) => [Word(IntText(n))]
    case Bool(b) => [Word(if b then "true" else "false")]
    case Null => [Word("null")]
  }

  function MemberTokens(m: seq<Member>): seq<Token>
    decreases m, 0
  {
    if m == [] then [] else
      KeyTokens(m[0].key) + Tokens(m[0].value) + if |m| == 1 then [] else [Punct(',')] + MemberTokens(m[1..])
  }

  function KeyTokens(key: string): seq<Token> { [Text(key), Punct(':')] }

  function ItemTokens(items: seq<Json>): seq<Token>
    decreases items, 0
  {
    if items == [] then [] else
      Tokens(items[0]) + if |items| == 1 then [] else [Punct(',')] + ItemTokens(items[1..])
  }

  function Comma(i: nat): seq<Token> { if i == 0 then [] else [Punct(',')] }

  lemma {:induction false} ItemTokensSnoc(items: seq<Json>, n: nat)
    requires n < |items|
    ensures ItemTokens(items[..n + 1]) == ItemTokens(items[..n]) + Comma(n) + Tokens(items[n])
  {
    var more, less := items[..n + 1], items[..n];
    if n == 0 {
      assert more == [items[0]];
    } else {
      ItemTokensSnoc(items[1..], n - 1);
      assert more[1..] == items[1..][..n] && less[1..] == items[1..][..n - 1];
      assert more[0] == less[0] == items[0];
      if n == 1 { assert less == [items[0]]; }
    }
  }

  lemma {:induction false} MemberTokensSnoc(m: seq<Member>, n: nat)
    requires n < |m|
    ensures MemberTokens(m[..n + 1]) == MemberTokens(m[..n]) + Comma(n) + KeyTokens(m[n].key) + Tokens(m[n].value)
  {
    var more, less := m[..n + 1], m[..n];
    if n == 0 {
      assert more == [m[0]];
    } else {
      MemberTokensSnoc(m[1..], n - 1);
      assert more[1..] == m[1..][..n] && less[1..] == m[1..][..n - 1];
      assert more[0] == less[0] == m[0];
      Longer(KeyTokens(m[0].key) + Tokens(m[0].value), [Punct(',')], MemberTokens(less[1..]), Comma(n - 1),
             KeyTokens(m[n].key), Tokens(m[n].value));
      if n == 1 { assert less == [m[0]] && less[1..] == []; }
    }
  }

  lemma Longer<T>(head: seq<T>, comma: seq<T>, less: seq<T>, c: seq<T>, k: seq<T>, t: seq<T>)
    ensures head + (comma + (less + c + k + t)) == head + (comma + less) + c + k + t
    ensures head + (comma + ([] + [] + k + t)) == head + [] + comma + k + t
  {
  }

  // ---------------------------------------------------------------------------------------------
  // Reading back what was printed.

  lemma {:induction false} NatTextRead(n: nat)
    ensures IsDigits(NatText(n)) && Decimal(NatText(n)) == n
    ensures NatText(n)[0] == '0' ==> n == 0
    ensures n == 0 ==> NatText(n) == "0"
  {
    var s := NatText(n);
    if n >= 10 {
      NatTextRead(n / 10);
      OneDigitMore(NatText(n / 10), s, n % 10);
    } else {
      assert s == [('0' as int + n) as char] && s[..0] == "";
    }
  }

  lemma OneDigitMore(high: string, s: string, d: nat)
    requires IsDigits(high) && high != "" && d < 10 && s == high + [('0' as int + d) as char]
    ensures IsDigits(s) && Decimal(s) == 10 * Decimal(high) + d && s[0] == high[0]
  {
    assert s[..|s| - 1] == high;
  }

  lemma IntTextRead(n: int)
    ensures ReadWord(IntText(n)) == Done(Num(n), [])
  {
    var k := if n < 0 then -n else n;
    var s := NatText(k);
    NatTextRead(k);
    if n < 0 {
      assert ("-" + s)[1..] == s && ("-" + s)[0] == '-' && ("-" + s)[1] == s[0];
      assert !IsDigits("-" + s);
    }
  }

  /** Reading undoes printing. */
  lemma {:induction false} ReadTokens(v: Json, rest: seq<Token>)
    ensures ReadValue(Tokens(v) + rest) == Done(v, rest)
    decreases v, 1
  {
    match v
    case Object(m) =>
      if m != [] { ReadMemberTokens(m, rest); }
      ReadObject(m, rest);
    case Array(items) =>
      if items != [] { ReadItemTokens(items, rest); }
      ReadArray(items, rest);
    case Num(n) =>
      IntTextRead(n);
      assert (Tokens(v) + rest)[1..] == rest;
    case _ =>
      assert (Tokens(v) + rest)[1..] == rest;
  }

  lemma ReadObject(m: seq<Member>, rest: seq<Token>)
    requires m == [] || ReadMembers(MemberTokens(m) + [Punct('}')] + rest) == Done(m, rest)
    ensures ReadValue(Tokens(Object(m)) + rest) == Done(Object(m), rest)
  {
    var t, more := Tokens(Object(m)) + rest, MemberTokens(m) + [Punct('}')] + rest;
    assert t == [Punct('{')] + more;
    if m == [] {
      assert t == [Punct('{'), Punct('}')] + rest;
    } else {
      assert MemberTokens(m)[0] == Text(m[0].key);
    }
  }

  lemma ReadArray(items: seq<Json>, rest: seq<Token>)
    requires items == [] || ReadItems(ItemTokens(items) + [Punct(']')] + rest) == Done(items, rest)
    ensures ReadValue(Tokens(Array(items)) + rest) == Done(Array(items), rest)
  {
    var t, more := Tokens(Array(items)) + rest, ItemTokens(items) + [Punct(']')] + rest;
    assert t == [Punct('[')] + more;
    if items == [] {
      assert t == [Punct('['), Punct(']')] + rest;
    } else {
      FirstToken(items[0]);
      ArrayStep(t, items, rest);
    }
  }

  lemma ArrayStep(t: seq<Token>, items: seq<Json>, rest: seq<Token>)
    requires |t| > 1 && t[0] == Punct('[') && t[1] != Punct(']') && ReadItems(t[1..]) == Done(items, rest)
    ensures ReadValue(t) == Done(Array(items), rest)
  {
  }

  lemma FirstToken(v: Json)
    ensures Tokens(v) != [] && Tokens(v)[0] != Punct(']')
  {
  }

  lemma {:induction false} ReadItemTokens(items: seq<Json>, rest: seq<Token>)
    requires items != []
    ensures ReadItems(ItemTokens(items) + [Punct(']')] + rest) == Done(items, rest)
    decreases items, 0
  {
    ItemShape(items, rest);
    ReadTokens(items[0], AfterItem(items, rest));
    if |items| > 1 { ReadItemTokens(items[1..], rest); }
    ItemsRead(ItemTokens(items) + [Punct(']')] + rest, items, AfterItem(items, rest), rest);
  }

  function AfterItem(items: seq<Json>, rest: seq<Token>): (after: seq<Token>)
    requires items != []
    ensures after != [] && after[0] == Punct(if |items| == 1 then ']' else ',')
    ensures after[1..] == if |items| == 1 then rest else ItemTokens(items[1..]) + [Punct(']')] + rest
  {
    if |items| == 1 then [Punct(']')] + rest else [Punct(',')] + (ItemTokens(items[1..]) + [Punct(']')] + rest)
  }

  lemma ItemShape(items: seq<Json>, rest: seq<Token>)
    requires items != []
    ensures ItemTokens(items) + [Punct(']')] + rest == Tokens(items[0]) + AfterItem(items, rest)
  {
    if |items| > 1 {
      Regrouped(Tokens(items[0]), [Punct(',')] + ItemTokens(items[1..]), [Punct(']')], rest);
      Regrouped([Punct(',')], ItemTokens(items[1..]), [Punct(']')], rest);
    } else {
      Regrouped(Tokens(items[0]), [], [Punct(']')], rest);
    }
  }

  lemma ItemsRead(t: seq<Token>, items: seq<Json>, after: seq<Token>, rest: seq<Token>)
    requires items != [] && after != [] && ReadValue(t) == Done(items[0], after)
    requires after[0] == Punct(if |items| == 1 then ']' else ',')
    requires if |items| == 1 then after[1..] == rest else ReadItems(after[1..]) == Done(items[1..], rest)
    ensures ReadItems(t) == Done(items, rest)
  {
    assert items == [items[0]] + items[1..] && (|items| == 1 ==> items == [items[0]]);
  }

  lemma {:induction false} ReadMemberTokens(m: seq<Member>, rest: seq<Token>)
    requires m != []
    ensures ReadMembers(MemberTokens(m) + [Punct('}')] + rest) == Done(m, rest)
    decreases m, 0
  {
    var t := MemberTokens(m) + [Punct('}')] + rest;
    MemberShape(m, rest);
    ReadTokens(m[0].value, AfterMember(m, rest));
    if |m| > 1 { ReadMemberTokens(m[1..], rest); }
    MembersRead(t, m, AfterMember(m, rest), rest);
  }

  lemma MembersRead(t: seq<Token>, m: seq<Member>, after: seq<Token>, rest: seq<Token>)
    requires m != [] && |t| >= 3 && t[..2] == KeyTokens(m[0].key) && after != []
    requires ReadValue(t[2..]) == Done(m[0].value, after) && after[0] == Punct(if |m| == 1 then '}' else ',')
    requires if |m| == 1 then after[1..] == rest else ReadMembers(after[1..]) == Done(m[1..], rest)
    ensures ReadMembers(t) == Done(m, rest)
  {
    MembersStep(t, m[0], after);
    assert m == [m[0]] + m[1..] && (|m| == 1 ==> m == [m[0]]);
  }

  function AfterMember(m: seq<Member>, rest: seq<Token>): (after: seq<Token>)
    requires m != []
    ensures after != [] && after[0] == Punct(if |m| == 1 then '}' else ',')
    ensures after[1..] == if |m| == 1 then rest else MemberTokens(m[1..]) + [Punct('}')] + rest
  {
    if |m| == 1 then [Punct('}')] + rest else [Punct(',')] + (MemberTokens(m[1..]) + [Punct('}')] + rest)
  }

  function MoreMembers(m: seq<Member>): seq<Token>
    requires m != []
  {
    if |m| == 1 then [] else [Punct(',')] + MemberTokens(m[1..])
  }

  lemma MemberShape(m: seq<Member>, rest: seq<Token>)
    requires m != []
    ensures var t := MemberTokens(m) + [Punct('}')] + rest;
      |t| >= 3 && t[..2] == KeyTokens(m[0].key) && t[2..] == Tokens(m[0].value) + AfterMember(m, rest)
  {
    FirstToken(m[0].value);
    assert MemberTokens(m) == KeyTokens(m[0].key) + Tokens(m[0].value) + MoreMembers(m);
    Regroup(KeyTokens(m[0].key), Tokens(m[0].value), MoreMembers(m), [Punct('}')], rest);
    AfterIsMore(m, rest);
  }

  lemma AfterIsMore(m: seq<Member>, rest: seq<Token>)
    requires m != []
    ensures MoreMembers(m) + [Punct('}')] + rest == AfterMember(m, rest)
  {
    if |m| > 1 {
      Regrouped([Punct(',')], MemberTokens(m[1..]), [Punct('}')], rest);
    } else {
      assert [] + [Punct('}')] == [Punct('}')];
    }
  }

  lemma Regrouped<T>(a: seq<T>, b: seq<T>, c: seq<T>, d: seq<T>)
    ensures a + b + c + d == a + (b + c + d)
  {
  }

  lemma Regroup<T>(a: seq<T>, b: seq<T>, c: seq<T>, d: seq<T>, e: seq<T>)
    ensures var t := a + b + c + d + e; t[..|a|] == a && t[|a|..] == b + (c + d + e)
  {
  }

  lemma MembersStep(t: seq<Token>, m: Member, after: seq<Token>)
    requires |t| >= 3 && t[..2] == KeyTokens(m.key) && ReadValue(t[2..]) == Done(m.value, after) && after != []
    ensures after[0] == Punct('}') ==> ReadMembers(t) == Done([m], after[1..])
    ensures after[0] == Punct(',') && ReadMembers(after[1..]).Done? ==>
      ReadMembers(t) == Done([m] + ReadMembers(after[1..]).value, ReadMembers(after[1..]).rest)
  {
    assert t[0] == t[..2][0] && t[1] == t[..2][1];
  }
}
