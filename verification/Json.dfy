/** The streaming JSON printer, and that what it prints reads back as what was printed. */
module JsonPrinter {
  import opened Common
  import opened JsonText
  import CText

  datatype BuilderMode = Normal | InValue | AfterValue

  // ---------------------------------------------------------------------------------------------
  // Strings.

  /** The characters the printer escapes as they must be: all but the controls without a name. */
  predicate Printable(c: char) {
    c >= ' ' || c == '\U{0008}' || c == '\U{000C}' || c == '\n' || c == '\r' || c == '\t'
  }

  function EncodedChar(c: char): string {
    if c == '"' then "\\\""
    else if c == '\\' then "\\\\"
    else if c == '\U{0008}' then "\\b"
    else if c == '\U{000C}' then "\\f"
    else if c == '\n' then "\\n"
    else if c == '\r' then "\\r"
    else if c == '\t' then "\\t"
    else if c < ' ' then ['u', '0', '0', ('0' as int + c as int / 16) as char, "0123456789ABCDEF"[c as int % 16]]
    else [c]
  }

  /** A control without a name comes out as a letter and the four digits of its code, without the backslash. */
  lemma ControlForm(c: char)
    requires !Printable(c)
    ensures |EncodedChar(c)| == 5 && EncodedChar(c)[0] == 'u' && CText.Spells(EncodedChar(c)[1..], c as int)
  {
    var n := c as int;
    var four := ['0', '0', ('0' as int + n / 16) as char, "0123456789ABCDEF"[n % 16]];
    assert EncodedChar(c)[1..] == four;
    var three, two, one: string := four[..3], four[..2], four[..1];
    assert four[..3] == three && three[..2] == two && two[..1] == one && one[..0] == "";
    assert CText.Spells(one, 0) && CText.Spells(two, 0) && CText.Spells(three, n / 16);
  }

  /** The images of all characters in a row. */
  function Mapped(s: string, f: char -> string): string {
    if s == "" then "" else Mapped(s[..|s| - 1], f) + f(s[|s| - 1])
  }

  lemma {:induction false} MappedConcat(a: string, b: string, f: char -> string)
    ensures Mapped(a + b, f) == Mapped(a, f) + Mapped(b, f)
  {
    if b == "" {
      assert a + b == a;
    } else {
      MappedConcat(a, b[..|b| - 1], f);
      assert (a + b)[..|a + b| - 1] == a + b[..|b| - 1];
    }
  }

  function MeaningOf(c: char): string { if Printable(c) then [c] else EncodedChar(c) }

  /** What a reader makes of the encoded string: the unnamed controls come back as five characters. */
  function Meaning(s: string): string { Mapped(s, MeaningOf) }

  /** What is printed for a string, without its quotes. */
  function Image(s: string): string { Mapped(s, EncodedChar) }

  /** Appended pieces make the same string as the joined one. */
  lemma MeaningConcat(a: string, b: string)
    ensures Meaning(a + b) == Meaning(a) + Meaning(b)
  {
    MappedConcat(a, b, MeaningOf);
  }

  lemma {:induction false} MeaningLength(s: string)
    ensures |Meaning(s)| >= |s| && (|Meaning(s)| == |s| <==> forall i :: 0 <= i < |s| ==> Printable(s[i]))
  {
    if s != "" {
      var t := s[..|s| - 1];
      MeaningLength(t);
      assert forall i :: 0 <= i < |t| ==> t[i] == s[i];
    }
  }

  /** A string comes back as it was exactly if every character of it is printable. */
  lemma {:induction false} MeaningIsText(s: string)
    ensures Meaning(s) == s <==> forall i :: 0 <= i < |s| ==> Printable(s[i])
  {
    MeaningLength(s);
    if s != "" && forall i :: 0 <= i < |s| ==> Printable(s[i]) {
      var t := s[..|s| - 1];
      MeaningIsText(t);
      assert forall i :: 0 <= i < |t| ==> t[i] == s[i];
      assert s == t + [s[|s| - 1]];
    }
  }

  lemma EncodedCharFed(tokens: seq<Token>, s: string, c: char)
    ensures Feed(Lex(tokens, InText(s)), EncodedChar(c)) == Lex(tokens, InText(s + MeaningOf(c)))
  {
    var l, e := Lex(tokens, InText(s)), EncodedChar(c);
    if |e| == 1 {
      assert e[1..] == "";
    } else if |e| == 2 {
      FeedTwo(l, e);
    } else {
      FeedPlain(tokens, s, e);
    }
  }

  lemma FeedTwo(l: Lex, e: string)
    requires |e| == 2
    ensures Feed(l, e) == Next(Next(l, e[0]), e[1])
  {
    var rest := e[1..];
    assert rest[0] == e[1] && rest[1..] == "";
    assert Feed(Next(l, e[0]), rest) == Feed(Next(Next(l, e[0]), rest[0]), rest[1..]);
  }

  lemma {:induction false} FeedPlain(tokens: seq<Token>, s: string, e: string)
    requires forall i :: 0 <= i < |e| ==> e[i] >= ' ' && e[i] != '"' && e[i] != '\\'
    ensures Feed(Lex(tokens, InText(s)), e) == Lex(tokens, InText(s + e))
    decreases |e|
  {
    if e == "" {
      assert s + e == s;
    } else {
      FeedPlain(tokens, s + [e[0]], e[1..]);
      assert s + [e[0]] + e[1..] == s + e;
    }
  }

  lemma FeedOne(l: Lex, c: char)
    ensures Feed(l, [c]) == Next(l, c)
  {
    assert [c][1..] == "";
  }

  /** White space ends a word and changes nothing else. */
  lemma {:induction false} FeedSpaces(l: Lex, s: string)
    requires l.mode.Between? && forall i :: 0 <= i < |s| ==> IsBlank(s[i])
    ensures Feed(l, s) == l
    decreases |s|
  {
    if s != "" {
      assert Seen(l) == l.tokens && Next(l, s[0]) == l;
      FeedSpaces(l, s[1..]);
    }
  }

  predicate IsWord(w: string) {
    w != "" && forall i :: 0 <= i < |w| ==> !IsBlank(w[i]) && !IsPunct(w[i]) && w[i] != '"'
  }

  lemma {:induction false} FeedWord(tokens: seq<Token>, before: string, w: string)
    requires IsWord(w)
    ensures Feed(Lex(tokens, if before == "" then Between else InWord(before)), w) == Lex(tokens, InWord(before + w))
    decreases |w|
  {
    var l := Lex(tokens, if before == "" then Between else InWord(before));
    var now := before + [w[0]];
    assert Next(l, w[0]) == Lex(tokens, InWord(now));
    if |w| == 1 {
      assert w == [w[0]] && w[1..] == "";
    } else {
      FeedWord(tokens, now, w[1..]);
      assert now + w[1..] == before + w;
    }
  }

  lemma DigitsAreWord(s: string)
    requires IsDigits(s)
    ensures IsWord(s)
  {
    forall i | 0 <= i < |s| ensures !IsBlank(s[i]) && !IsPunct(s[i]) && s[i] != '"' {
      assert '0' <= s[i] <= '9';
    }
  }

  lemma IntIsWord(n: int)
    ensures IsWord(IntText(n))
  {
    var k := if n < 0 then -n else n;
    NatTextRead(k);
    DigitsAreWord(NatText(k));
    if n < 0 { MinusWord(NatText(k)); }
  }

  lemma MinusWord(s: string)
    requires IsWord(s)
    ensures IsWord("-" + s)
  {
    var t := "-" + s;
    forall i | 0 <= i < |t| ensures !IsBlank(t[i]) && !IsPunct(t[i]) && t[i] != '"' {
      if i > 0 { assert t[i] == s[i - 1]; }
    }
  }

  // ---------------------------------------------------------------------------------------------
  // The builder.

  class JsonBuilder {
    var json: string
    var stack: string
    var mode: BuilderMode
    var needIndent: bool
    /** What has been taken away already, and how a reader has got through all that was printed. */
    ghost var gone: string
    ghost var lex: Lex

    constructor ()
      ensures Valid() && gone == "" == json && lex == START && stack == "" && mode == Normal && !needIndent
    {
      json, stack, mode, needIndent, gone, lex := "", "", Normal, false, "", START;
    }

    /** All that was printed. */
    ghost function All(): string
      reads this`gone, this`json
    {
      gone + json
    }

    /** The reader's way is looked at only where it goes on. */
    ghost predicate Traced()
      reads this`json, this`gone, this`lex
    {
      forall at {:trigger Look(at)} :: Look(at) ==> lex == Feed(START, gone + json)
    }

    ghost predicate Closable()
      reads this`stack
    {
      forall i :: 0 <= i < |stack| ==> stack[i] == '}' || stack[i] == ']'
    }

    ghost predicate Valid()
      reads this`json, this`gone, this`lex, this`stack, this`mode, this`needIndent
    {
      && Traced() && Closable() && (mode == InValue ==> !needIndent)
      && (if mode == InValue then lex.mode.InText? else lex.mode.Between? || lex.mode.InWord?)
      && (mode == Normal ==> lex.mode.Between?)
    }

    /** The tokens printed, with the string that more pieces may still continue. */
    ghost function Printed(): seq<Token>
      reads this`lex
    {
      Seen(lex) + if lex.mode.InText? then [Text(lex.mode.s)] else []
    }

    /** What a further value is separated by. */
    ghost function Lead(): seq<Token>
      reads this`mode
    {
      if mode == Normal then [] else [Punct(',')]
    }

    /** The buffer once an open string is closed. */
    ghost function Whole(): string
      reads this`json, this`mode
    {
      json + if mode == InValue then "\"" else ""
    }

    /** The buffer when a further value is about to be printed: closed, separated and indented. */
    ghost function Opened(): string
      reads this`json, this`mode, this`needIndent, this`stack
    {
      Indented(Whole() + if mode == Normal then "" else ",", needIndent, |stack|)
    }

    /** Characters pushed at the end; the mode must follow them. */
    method Push(s: string)
      requires Traced()
      modifies this`json, this`lex
      ensures Traced()
      ensures json == old(json) + s && lex == Feed(old(lex), s)
    {
      FeedConcat(START, gone + json, s);
      assert Look(0);
      assert gone + (json + s) == gone + json + s;
      json := json + s;
      lex := Feed(lex, s);
    }

    /** An open string is closed, a comma separates values, and an indentation asked for is made. */
    method NormalizeMode(startValue: bool)
      requires Valid()
      modifies this`json, this`mode, this`needIndent, this`lex
      ensures Valid() && !needIndent && (lex.mode.Between? || lex.mode.InWord?)
      ensures Seen(lex) == old(Printed()) + if startValue then old(Lead()) else []
      ensures mode == if startValue || old(mode) == Normal then Normal else AfterValue
      ensures json == if startValue then old(Opened()) else old(Indented(Whole(), needIndent, |stack|))
    {
      CloseText();
      if startValue && mode == AfterValue {
        Punctuate(',');
        mode := Normal;
      }
      if needIndent {
        MakeIndent();
        needIndent := false;
      }
    }

    method CloseText()
      requires Valid()
      modifies this`json, this`mode, this`lex
      ensures Valid() && (lex.mode.Between? || lex.mode.InWord?) && Seen(lex) == old(Printed()) && json == old(Whole())
      ensures mode == if old(mode) == InValue then AfterValue else old(mode)
    {
      if mode == InValue {
        FeedOne(lex, '"');
        Push("\"");
        mode := AfterValue;
      }
    }

    /** A blank behind a colon, otherwise a new line with one blank for each open bracket. */
    static function Layout(json: string, depth: nat): string {
      if json != "" && json[|json| - 1] == ':' then " " else "\n" + seq(depth, _ => ' ')
    }

    static function Indented(json: string, needed: bool, depth: nat): string {
      if needed then json + Layout(json, depth) else json
    }

    method MakeIndent()
      requires Valid() && mode != InValue
      modifies this`json, this`lex
      ensures Valid() && lex == Lex(Seen(old(lex)), Between)
      ensures json == old(json) + Layout(old(json), |stack|)
    {
      ghost var was := json;
      var first := if json != "" && json[|json| - 1] == ':' then ' ' else '\n';
      FeedOne(lex, first);
      Push([first]);
      if first == '\n' {
        var spaces := seq(|stack|, _ => ' ');
        FeedSpaces(lex, spaces);
        Push(spaces);
        assert was + [first] + spaces == was + ("\n" + spaces);
      }
    }

    /** One character goes to the text, and one goes to the stack or comes from it. */
    method Punctuate(c: char)
      requires Valid() && mode != InValue && IsPunct(c)
      modifies this`json, this`lex
      ensures Valid() && Seen(lex) == old(Seen(lex)) + [Punct(c)] && lex.mode.Between? && json == old(json) + [c]
    {
      FeedOne(lex, c);
      Push([c]);
    }

    method Object()
      requires Valid()
      modifies this`json, this`lex, this`stack, this`mode, this`needIndent
      ensures Valid() && mode == Normal && stack == old(stack) + "}"
      ensures Printed() == old(Printed()) + old(Lead()) + [Punct('{')]
      ensures json == old(Opened()) + "{" && !needIndent
    {
      NormalizeMode(true);
      Punctuate('{');
      stack := stack + "}";
    }

    method Array()
      requires Valid()
      modifies this`json, this`lex, this`stack, this`mode, this`needIndent
      ensures Valid() && mode == Normal && stack == old(stack) + "]"
      ensures Printed() == old(Printed()) + old(Lead()) + [Punct('[')]
      ensures json == old(Opened()) + "[" && !needIndent
    {
      NormalizeMode(true);
      Punctuate('[');
      stack := stack + "]";
    }

    method Encode(str: string)
      requires Traced() && lex.mode.InText?
      modifies this`json, this`lex
      ensures lex == Lex(old(lex).tokens, InText(old(lex).mode.s + Meaning(str)))
      ensures Traced() && json == old(json) + Image(str)
    {
      ghost var s := lex.mode.s;
      var i := 0;
      assert str[..0] == "" && s + "" == s;
      while i < |str|
        invariant 0 <= i <= |str|
        invariant lex == Lex(old(lex).tokens, InText(s + Meaning(str[..i])))
        invariant Traced() && json == old(json) + Image(str[..i])
      {
        EncodedCharFed(lex.tokens, lex.mode.s, str[i]);
        Push(EncodedChar(str[i]));
        assert str[..i + 1] == str[..i] + [str[i]];
        assert s + Meaning(str[..i]) + MeaningOf(str[i]) == s + (Meaning(str[..i]) + MeaningOf(str[i]));
        i := i + 1;
      }
      assert str[..i] == str;
    }

    /** The quote that starts a string. */
    method OpenText()
      requires Valid()
      modifies this`json, this`lex, this`stack, this`mode, this`needIndent
      ensures lex == Lex(old(Printed()) + old(Lead()), InText("")) && stack == old(stack) && !needIndent
      ensures Traced() && json == old(Opened()) + "\""
    {
      NormalizeMode(true);
      FeedOne(lex, '"');
      assert Seen(lex) == lex.tokens;
      Push("\"");
    }

    method Key(str: string)
      requires Valid()
      modifies this`json, this`lex, this`stack, this`mode, this`needIndent
      ensures Valid() && mode == Normal && stack == old(stack)
      ensures Printed() == old(Printed()) + old(Lead()) + KeyTokens(Meaning(str))
      ensures json == old(Opened()) + "\"" + Image(str) + "\":" && !needIndent
    {
      OpenText();
      assert "" + Meaning(str) == Meaning(str);
      Encode(str);
      CloseKey();
    }

    method CloseKey()
      requires lex.mode.InText? && Traced()
      requires Closable()
      modifies this`json, this`lex, this`mode
      ensures Valid() && mode == Normal && Printed() == old(lex).tokens + KeyTokens(old(lex).mode.s)
      ensures json == old(json) + "\":"
    {
      FeedOne(lex, '"');
      Push("\"");
      mode := Normal;
      Punctuate(':');
    }

    /** Appended to a string still open, the piece continues it. */
    method Value(str: string, append: bool)
      requires Valid()
      modifies this`json, this`lex, this`stack, this`mode, this`needIndent
      ensures Valid() && mode == InValue && stack == old(stack)
      ensures if append && old(mode) == InValue
              then Seen(lex) == old(Seen(lex)) && lex.mode.s == old(lex).mode.s + Meaning(str)
              else Seen(lex) == old(Printed()) + old(Lead()) && lex.mode.s == Meaning(str)
      ensures json == (if append && old(mode) == InValue then old(json) else old(Opened()) + "\"") + Image(str)
    {
      if !append || mode != InValue {
        OpenText();
        assert "" + Meaning(str) == Meaning(str);
      }
      mode := InValue;
      Encode(str);
    }

    /** A number, a truth value or null. */
    method PrintWord(w: string)
      requires Valid() && IsWord(w)
      modifies this`json, this`lex, this`stack, this`mode, this`needIndent
      ensures Valid() && mode == AfterValue && stack == old(stack)
      ensures Printed() == old(Printed()) + old(Lead()) + [Word(w)]
      ensures json == old(Opened()) + w && !needIndent
    {
      NormalizeMode(true);
      assert Seen(lex) == lex.tokens && "" + w == w;
      FeedWord(lex.tokens, "", w);
      Push(w);
      mode := AfterValue;
    }

    method ValueInt(n: int)
      requires Valid()
      modifies this`json, this`lex, this`stack, this`mode, this`needIndent
      ensures Valid() && mode == AfterValue && stack == old(stack)
      ensures Printed() == old(Printed()) + old(Lead()) + Tokens(Num(n))
      ensures json == old(Opened()) + IntText(n) && !needIndent
    {
      IntIsWord(n);
      PrintWord(IntText(n));
    }

    method ValueBool(b: bool)
      requires Valid()
      modifies this`json, this`lex, this`stack, this`mode, this`needIndent
      ensures Valid() && mode == AfterValue && stack == old(stack)
      ensures Printed() == old(Printed()) + old(Lead()) + Tokens(Bool(b))
      ensures json == old(Opened()) + (if b then "true" else "false") && !needIndent
    {
      PrintWord(if b then "true" else "false");
    }

    method ValueNull()
      requires Valid()
      modifies this`json, this`lex, this`stack, this`mode, this`needIndent
      ensures Valid() && mode == AfterValue && stack == old(stack)
      ensures Printed() == old(Printed()) + old(Lead()) + Tokens(Null)
      ensures json == old(Opened()) + "null" && !needIndent
    {
      PrintWord("null");
    }

    /** The indentation is made before what comes next. */
    method Indent()
      requires Valid()
      modifies this`json, this`lex, this`stack, this`mode, this`needIndent
      ensures Valid() && Printed() == old(Printed()) && Lead() == old(Lead()) && stack == old(stack)
      ensures mode == if old(mode) == InValue then AfterValue else old(mode)
      ensures needIndent && json == old(Whole())
    {
      if !needIndent {
        NormalizeMode(false);
        needIndent := true;
      }
    }

    /** The buffer once what was opened last is closed, indented if that is asked for. */
    static function Closed(json: string, stack: string, indent: bool): string
      requires stack != ""
    {
      Indented(json, indent, |stack| - 1) + [stack[|stack| - 1]]
    }

    /** The same for all that is open, with an indentation in front of the first one and of the others. */
    static function ClosedAll(json: string, stack: string, first: bool, others: bool): string
      decreases |stack|
    {
      if stack == "" then json
      else ClosedAll(Closed(json, stack, first || others), stack[..|stack| - 1], false, others)
    }

    static function LineEnd(json: string): string {
      if json != "" && json[|json| - 1] != '\n' then "\n" else ""
    }

    method Close()
      requires Valid()
      modifies this`json, this`lex, this`stack, this`mode, this`needIndent
      ensures Valid() && (old(stack) == "" ==> unchanged(this))
      ensures old(stack) != "" ==> mode == AfterValue && stack == old(stack)[..|old(stack)| - 1]
      ensures old(stack) != "" ==> Printed() == old(Printed()) + [Punct(old(stack)[|old(stack)| - 1])]
      ensures old(stack) != "" ==> !needIndent && json == old(Closed(Whole(), stack, needIndent))
    {
      if stack != "" {
        var closing := stack[|stack| - 1];
        stack := stack[..|stack| - 1];
        NormalizeMode(false);
        Punctuate(closing);
        mode := AfterValue;
      }
    }

    /** Everything still open is closed, and the text ends with a line break. A lone string stays open. */
    method Finish(indent: bool)
      requires Valid()
      modifies this`json, this`lex, this`stack, this`mode, this`needIndent
      ensures stack == ""
      ensures if old(mode) == InValue && old(stack) == "" then ReadText(All()) == Failed
              else Valid() && mode != InValue && Printed() == old(Printed()) + Closers(old(stack))
      ensures var s := old(if stack == "" then json else ClosedAll(Whole(), stack, needIndent, indent));
        json == s + LineEnd(s)
    {
      CloseAll(indent);
      if json != "" && json[|json| - 1] != '\n' {
        FeedOne(lex, '\n');
        Push("\n");
      }
      assert Look(0);
    }

    method CloseAll(indent: bool)
      requires Valid()
      modifies this`json, this`lex, this`stack, this`mode, this`needIndent
      ensures Valid() && stack == "" && Printed() == old(Printed()) + Closers(old(stack))
      ensures mode == InValue <==> old(mode) == InValue && old(stack) == ""
      ensures json == old(if stack == "" then json else ClosedAll(Whole(), stack, needIndent, indent))
    {
      ghost var was, whole := stack, ClosedAll(Whole(), stack, needIndent, indent);
      while stack != ""
        invariant Valid() && |stack| <= |was| && was[..|stack|] == stack
        invariant Printed() + Closers(stack) == old(Printed()) + Closers(was)
        invariant if stack == was then mode == old(mode) && json == old(json) else mode == AfterValue
        invariant ClosedAll(Whole(), stack, needIndent, indent) == whole
        decreases |stack|
      {
        CloseNext(indent);
      }
    }

    method CloseNext(indent: bool)
      requires Valid() && stack != ""
      modifies this`json, this`lex, this`stack, this`mode, this`needIndent
      ensures Valid() && mode == AfterValue && stack == old(stack)[..|old(stack)| - 1]
      ensures Printed() + Closers(stack) == old(Printed()) + Closers(old(stack))
      ensures ClosedAll(Whole(), stack, needIndent, indent) == old(ClosedAll(Whole(), stack, needIndent, indent))
    {
      CloseOne(indent);
      assert Closers(old(stack)) == [Punct(old(stack)[|old(stack)| - 1])] + Closers(stack);
      assert Whole() == json;
    }

    method CloseOne(indent: bool)
      requires Valid() && stack != ""
      modifies this`json, this`lex, this`stack, this`mode, this`needIndent
      ensures Valid() && mode == AfterValue && stack == old(stack)[..|old(stack)| - 1]
      ensures Printed() == old(Printed()) + [Punct(old(stack)[|old(stack)| - 1])]
      ensures !needIndent && json == old(Closed(Whole(), stack, needIndent || indent))
    {
      if indent { Indent(); }
      Close();
    }

    /** What a response generator has sent is taken away; nothing that was printed changes. */
    method DiscardCurrentPrefix(length: nat)
      requires Valid()
      modifies this`json, this`gone
      ensures Valid() && All() == old(All())
      ensures var n := if length < |old(json)| then length else |old(json)|;
        gone == old(gone) + old(json)[..n] && json == old(json)[n..]
    {
      if length == 0 { return; }
      ghost var n := if length < |json| then length else |json|;
      assert gone + json == gone + json[..n] + json[n..];
      gone := gone + json[..n];
      if length < |json| {
        json := json[length..];
      } else {
        json := "";
      }
    }
  }

  function Closers(stack: string): seq<Token> {
    if stack == "" then [] else [Punct(stack[|stack| - 1])] + Closers(stack[..|stack| - 1])
  }

  // ---------------------------------------------------------------------------------------------
  // Whole trees.

  /** The tree with every string as a reader gets it. */
  function MeaningTree(v: Json): Json
    decreases v, 1
  {
    match v
    case Object(m) => Object(MeaningMembers(m))
    case Array(items) => Array(MeaningItems(items))
    case Str(s) => Str(Meaning(s))
    case _ => v
  }

  function MeaningMembers(m: seq<Member>): (r: seq<Member>)
    ensures |r| == |m|
    ensures forall i :: 0 <= i < |m| ==> r[i] == Member(Meaning(m[i].key), MeaningTree(m[i].value))
    decreases m, 0
  {
    if m == [] then [] else [Member(Meaning(m[0].key), MeaningTree(m[0].value))] + MeaningMembers(m[1..])
  }

  function MeaningItems(items: seq<Json>): (r: seq<Json>)
    ensures |r| == |items| && forall i :: 0 <= i < |items| ==> r[i] == MeaningTree(items[i])
    decreases items, 0
  {
    if items == [] then [] else [MeaningTree(items[0])] + MeaningItems(items[1..])
  }

  predicate AllPrintable(s: string) { forall i :: 0 <= i < |s| ==> Printable(s[i]) }

  /** Every key and every string is printable. */
  predicate PrintableTree(v: Json)
    decreases v
  {
    match v
    case Object(m) => forall i :: 0 <= i < |m| ==> AllPrintable(m[i].key) && PrintableTree(m[i].value)
    case Array(items) => forall i :: 0 <= i < |items| ==> PrintableTree(items[i])
    case Str(s) => AllPrintable(s)
    case _ => true
  }

  /** A tree comes back as it was exactly if it is printable. */
  lemma {:induction false} MeaningIsTree(v: Json)
    ensures MeaningTree(v) == v <==> PrintableTree(v)
    decreases v
  {
    match v
    case Object(m) =>
      var r := MeaningMembers(m);
      forall i | 0 <= i < |m| ensures r[i] == m[i] <==> AllPrintable(m[i].key) && PrintableTree(m[i].value) {
        MeaningIsText(m[i].key);
        MeaningIsTree(m[i].value);
      }
      assert r == m <==> forall i :: 0 <= i < |m| ==> r[i] == m[i];
    case Array(items) =>
      var r := MeaningItems(items);
      forall i | 0 <= i < |items| ensures r[i] == items[i] <==> PrintableTree(items[i]) {
        MeaningIsTree(items[i]);
      }
      assert r == items <==> forall i :: 0 <= i < |items| ==> r[i] == items[i];
    case Str(s) =>
      MeaningIsText(s);
    case _ =>
  }

  /** What was printed may be sent, even in the middle of a string. */
  method SendSome(b: JsonBuilder)
    requires b.Valid()
    modifies b`json, b`gone
    ensures b.Valid() && b.All() == old(b.All())
  {
    var sent: nat :| sent <= |b.json|;
    b.DiscardCurrentPrefix(sent);
  }

  /** Between two values the application may also ask for an indentation. */
  method Interleave(b: JsonBuilder)
    requires b.Valid()
    modifies b
    ensures b.Valid() && b.Printed() == old(b.Printed()) && b.Lead() == old(b.Lead()) && b.stack == old(b.stack)
    ensures b.mode == old(b.mode) || (b.mode == AfterValue && old(b.mode) == InValue)
  {
    SendSome(b);
    var indentNow: bool := *;
    if indentNow { b.Indent(); }
  }

  /** An indentation between two pieces of a string makes two strings of them. */
  method IndentSplits(b: JsonBuilder, s: string, t: string)
    requires b.Valid()
    modifies b
    ensures b.Valid() && b.mode == InValue
    ensures b.Printed() == old(b.Printed()) + old(b.Lead()) + [Text(Meaning(s)), Punct(','), Text(Meaning(t))]
  {
    b.Value(s, false);
    ghost var one := b.Printed();
    assert one == old(b.Printed()) + old(b.Lead()) + [Text(Meaning(s))];
    b.Indent();
    b.Value(t, true);
    assert b.Printed() == one + [Punct(',')] + [Text(Meaning(t))];
  }

  /** A string in any number of pieces; between them some of it may be sent. */
  method PrintString(b: JsonBuilder, s: string)
    requires b.Valid()
    modifies b
    ensures b.Valid() && b.mode == InValue && b.stack == old(b.stack)
    ensures b.Printed() == old(b.Printed()) + old(b.Lead()) + [Text(Meaning(s))]
  {
    var first: nat :| first <= |s|;
    b.Value(s[..first], false);
    var i := first;
    while i < |s|
      invariant first <= i <= |s| && b.Valid() && b.mode == InValue && b.stack == old(b.stack)
      invariant Seen(b.lex) == old(b.Printed()) + old(b.Lead()) && b.lex.mode.s == Meaning(s[..i])
    {
      var next: nat :| i < next <= |s|;
      SendSome(b);
      MeaningConcat(s[..i], s[i..next]);
      assert s[..i] + s[i..next] == s[..next];
      b.Value(s[i..next], true);
      i := next;
    }
    assert s[..i] == s;
  }

  /** A value with all it holds. */
  method PrintValue(b: JsonBuilder, v: Json)
    requires b.Valid()
    modifies b
    ensures b.Valid() && b.mode != Normal && b.stack == old(b.stack)
    ensures b.Printed() == old(b.Printed()) + old(b.Lead()) + Tokens(MeaningTree(v))
    decreases v, 1
  {
    Interleave(b);
    match v
    case Str(s) => PrintString(b, s);
    case Num(n) => b.ValueInt(n);
    case Bool(x) => b.ValueBool(x);
    case Null => b.ValueNull();
    case Array(items) => PrintArray(b, items);
    case Object(m) => PrintObject(b, m);
  }

  method PrintArray(b: JsonBuilder, items: seq<Json>)
    requires b.Valid()
    modifies b
    ensures b.Valid() && b.mode != Normal && b.stack == old(b.stack)
    ensures b.Printed() == old(b.Printed()) + old(b.Lead()) + Tokens(Array(MeaningItems(items)))
    decreases items, 1
  {
    ghost var start, inner := b.Printed() + b.Lead(), ItemTokens(MeaningItems(items));
    b.Array();
    PrintItems(b, items);
    Interleave(b);
    b.Close();
    Regroup(start, [Punct('[')], inner, [Punct(']')]);
  }

  method PrintObject(b: JsonBuilder, m: seq<Member>)
    requires b.Valid()
    modifies b
    ensures b.Valid() && b.mode != Normal && b.stack == old(b.stack)
    ensures b.Printed() == old(b.Printed()) + old(b.Lead()) + Tokens(Object(MeaningMembers(m)))
    decreases m, 1
  {
    ghost var start, inner := b.Printed() + b.Lead(), MemberTokens(MeaningMembers(m));
    b.Object();
    PrintMembers(b, m);
    Interleave(b);
    b.Close();
    Regroup(start, [Punct('{')], inner, [Punct('}')]);
  }

  method PrintItems(b: JsonBuilder, items: seq<Json>)
    requires b.Valid() && b.mode == Normal
    modifies b
    ensures b.Valid() && b.stack == old(b.stack)
    ensures b.Printed() == old(b.Printed()) + ItemTokens(MeaningItems(items))
    decreases items, 0
  {
    ghost var all, start := MeaningItems(items), b.Printed();
    var i := 0;
    assert all[..0] == [];
    while i < |items|
      invariant 0 <= i <= |items| && b.Valid() && b.stack == old(b.stack) && b.Lead() == Comma(i)
      invariant b.Printed() == start + ItemTokens(all[..i])
    {
      ghost var before := b.Printed();
      PrintValue(b, items[i]);
      ItemsStep(start, all, i, before, b.Printed());
      i := i + 1;
    }
    assert all[..i] == all;
  }

  lemma ItemsStep(start: seq<Token>, all: seq<Json>, i: nat, before: seq<Token>, after: seq<Token>)
    requires i < |all| && before == start + ItemTokens(all[..i]) && after == before + Comma(i) + Tokens(all[i])
    ensures after == start + ItemTokens(all[..i + 1])
  {
    ItemTokensSnoc(all, i);
    Regroup(start, ItemTokens(all[..i]), Comma(i), Tokens(all[i]));
  }

  lemma Regroup<T>(start: seq<T>, a: seq<T>, b: seq<T>, c: seq<T>)
    ensures start + a + b + c == start + (a + b + c)
  {
  }

  lemma MembersStep(start: seq<Token>, all: seq<Member>, i: nat, before: seq<Token>, after: seq<Token>)
    requires i < |all| && before == start + MemberTokens(all[..i])
    requires after == before + Comma(i) + KeyTokens(all[i].key) + Tokens(all[i].value)
    ensures after == start + MemberTokens(all[..i + 1])
  {
    MemberTokensSnoc(all, i);
  }

  method PrintMember(b: JsonBuilder, m: Member)
    requires b.Valid()
    modifies b
    ensures b.Valid() && b.mode != Normal && b.stack == old(b.stack)
    ensures b.Printed() == old(b.Printed()) + old(b.Lead()) + KeyTokens(Meaning(m.key)) + Tokens(MeaningTree(m.value))
    decreases m, 2
  {
    Interleave(b);
    b.Key(m.key);
    PrintValue(b, m.value);
  }

  method PrintMembers(b: JsonBuilder, m: seq<Member>)
    requires b.Valid() && b.mode == Normal
    modifies b
    ensures b.Valid() && b.stack == old(b.stack)
    ensures b.Printed() == old(b.Printed()) + MemberTokens(MeaningMembers(m))
    decreases m, 0
  {
    ghost var all, start := MeaningMembers(m), b.Printed();
    var i := 0;
    assert all[..0] == [];
    while i < |m|
      invariant 0 <= i <= |m| && b.Valid() && b.stack == old(b.stack) && b.Lead() == Comma(i)
      invariant b.Printed() == start + MemberTokens(all[..i])
    {
      ghost var before := b.Printed();
      PrintMember(b, m[i]);
      MembersStep(start, all, i, before, b.Printed());
      i := i + 1;
    }
    assert all[..i] == all;
  }

  /** Text printed for an object or an array, closed by Finish, reads back as what a reader makes of the tree. */
  method Print(v: Json, indent: bool) returns (b: JsonBuilder)
    requires v.Object? || v.Array?
    ensures fresh(b) && ReadText(b.gone + b.json) == Done(MeaningTree(v), [])
  {
    b := new JsonBuilder();
    PrintOpen(b, v);
    ghost var open, last := b.Printed(), Punct(if v.Object? then '}' else ']');
    assert Closers(b.stack) == [last];
    b.Finish(indent);
    assert b.Printed() == open + [last];
    PrintedReads(b, MeaningTree(v));
  }

  /** All of an object or an array but its closing bracket. */
  method PrintOpen(b: JsonBuilder, v: Json)
    requires (v.Object? || v.Array?) && b.Valid() && b.Printed() == [] && b.mode == Normal && b.stack == ""
    modifies b
    ensures b.Valid() && b.stack == (if v.Object? then "}" else "]")
    ensures b.Printed() + [Punct(if v.Object? then '}' else ']')] == Tokens(MeaningTree(v))
  {
    if v.Object? {
      b.Object();
      PrintMembers(b, v.members);
    } else {
      b.Array();
      PrintItems(b, v.items);
    }
  }

  lemma PrintedReads(b: JsonBuilder, v: Json)
    requires b.Valid() && b.mode != InValue && b.Printed() == Tokens(v)
    ensures ReadText(b.gone + b.json) == Done(v, [])
  {
    assert Look(0);
    ReadTokens(v, []);
    assert Tokens(v) + [] == Tokens(v) && Seen(b.lex) + [] == Seen(b.lex);
  }

  // ---------------------------------------------------------------------------------------------
  // Indented trees: an indentation is asked for before every key, value and closing bracket.

  /** A new line, as deep as what is open. */
  function NewLine(depth: nat): string { "\n" + seq(depth, _ => ' ') }

  function CommaText(n: nat): string { if n == 0 then "" else "," }

  /** Each key and item on a line of its own, one blank deeper than its brackets; a value behind its key. */
  function Pretty(v: Json, depth: nat): string
    decreases v, 1
  {
    match v
    case Object(m) => "{" + PrettyMembers(m, depth + 1) + (NewLine(depth) + "}")
    case Array(items) => "[" + PrettyItems(items, depth + 1) + (NewLine(depth) + "]")
    case Str(s) => "\"" + Image(s) + "\""
    case Num(n) => IntText(n)
    case Bool(x) => if x then "true" else "false"
    case Null => "null"
  }

  function PrettyMembers(m: seq<Member>, depth: nat): string
    decreases m, 0
  {
    if m == [] then "" else
      var n := |m| - 1;
      PrettyMembers(m[..n], depth) + CommaText(n) + NewLine(depth)
        + (PrettyKey(m[n].key) + Pretty(m[n].value, depth))
  }

  function PrettyMember(m: Member, depth: nat): string { PrettyKey(m.key) + Pretty(m.value, depth) }

  function PrettyKey(key: string): string { "\"" + Image(key) + "\": " }

  function PrettyItems(items: seq<Json>, depth: nat): string
    decreases items, 0
  {
    if items == [] then "" else
      var n := |items| - 1;
      PrettyItems(items[..n], depth) + CommaText(n) + NewLine(depth) + Pretty(items[n], depth)
  }

  predicate EndsInColon(s: string) { s != "" && s[|s| - 1] == ':' }

  /** What was printed since start, as a fact that is looked into only where it is put together. */
  ghost predicate Adds(start: string, text: string, now: string) {
    forall at {:trigger Look(at)} :: Look(at) ==> now == start + text
  }

  /** One bracket, what is in it, and the other bracket on a line of its own. */
  lemma Bracketed(start: string, open: string, inner: string, end: string, one: string, two: string, three: string)
    requires one == start + open && Adds(one, inner, two) && three == two + end
    ensures Adds(start, open + inner + end, three)
  {
    assert Look(0);
    assert start + open + inner + end == start + (open + inner + end);
  }

  lemma Joins(start: string, a: string, middle: string, b: string, now: string)
    requires middle == start + a && Adds(middle, b, now)
    ensures Adds(start, a + b, now)
  {
    assert Look(0);
    assert start + a + b == start + (a + b);
  }

  lemma AddsColonless(start: string, text: string, now: string)
    requires Adds(start, text, now) && text != "" && !EndsInColon(text)
    ensures !EndsInColon(now)
  {
    assert Look(0);
  }

  method PrintIndented(b: JsonBuilder, v: Json)
    requires b.Valid()
    modifies b`json, b`lex, b`stack, b`mode, b`needIndent
    ensures b.Valid() && b.mode != Normal && b.stack == old(b.stack) && !b.needIndent && !EndsInColon(b.Whole())
    ensures Adds(old(b.Opened()), Pretty(v, |b.stack|), b.Whole())
    decreases v, 1
  {
    ghost var start, depth := b.Opened(), |b.stack|;
    match v {
      case Str(s) =>
        b.Value(s, false);
        assert start + "\"" + Image(s) + "\"" == start + ("\"" + Image(s) + "\"");
      case Num(n) => b.ValueInt(n);
      case Bool(x) => b.ValueBool(x);
      case Null => b.ValueNull();
      case Array(items) => PrintArrayIndented(b, items);
      case Object(m) => PrintObjectIndented(b, m);
    }
    AddsColonless(start, Pretty(v, depth), b.Whole());
  }

  method PrintArrayIndented(b: JsonBuilder, items: seq<Json>)
    requires b.Valid()
    modifies b`json, b`lex, b`stack, b`mode, b`needIndent
    ensures b.Valid() && b.mode != Normal && b.stack == old(b.stack) && !b.needIndent
    ensures Adds(old(b.Opened()), Pretty(Array(items), |b.stack|), b.Whole())
    decreases items, 1
  {
    ghost var start, depth := b.Opened(), |b.stack|;
    b.Array();
    ghost var one := b.json;
    PrintItemsIndented(b, items);
    ghost var two := b.Whole();
    CloseIndented(b);
    Bracketed(start, "[", PrettyItems(items, depth + 1), NewLine(depth) + "]", one, two, b.Whole());
  }

  method PrintObjectIndented(b: JsonBuilder, m: seq<Member>)
    requires b.Valid()
    modifies b`json, b`lex, b`stack, b`mode, b`needIndent
    ensures b.Valid() && b.mode != Normal && b.stack == old(b.stack) && !b.needIndent
    ensures Adds(old(b.Opened()), Pretty(Object(m), |b.stack|), b.Whole())
    decreases m, 1
  {
    ghost var start, depth := b.Opened(), |b.stack|;
    b.Object();
    ghost var one := b.json;
    PrintMembersIndented(b, m);
    ghost var two := b.Whole();
    CloseIndented(b);
    Bracketed(start, "{", PrettyMembers(m, depth + 1), NewLine(depth) + "}", one, two, b.Whole());
  }

  /** The closing bracket on a line of its own. */
  method CloseIndented(b: JsonBuilder)
    requires b.Valid() && b.stack != "" && !EndsInColon(b.Whole())
    modifies b`json, b`lex, b`stack, b`mode, b`needIndent
    ensures b.Valid() && b.mode == AfterValue && b.stack == old(b.stack)[..|old(b.stack)| - 1] && !b.needIndent
    ensures b.Whole() == old(b.Whole()) + (NewLine(|b.stack|) + [old(b.stack)[|b.stack|]])
  {
    ghost var start, end := b.Whole(), [b.stack[|b.stack| - 1]];
    b.Indent();
    b.Close();
    assert start + NewLine(|b.stack|) + end == start + (NewLine(|b.stack|) + end);
  }

  /** A comma if it is not the first one, and a new line. */
  method IndentNext(b: JsonBuilder, i: nat)
    requires b.Valid() && !EndsInColon(b.Whole()) && (b.mode == Normal <==> i == 0)
    modifies b`json, b`lex, b`stack, b`mode, b`needIndent
    ensures b.Valid() && b.stack == old(b.stack)
    ensures b.Opened() == old(b.Whole()) + (CommaText(i) + NewLine(|b.stack|))
  {
    b.Indent();
  }

  /** The items or members before the one with this number are printed. */
  ghost function Behind(b: JsonBuilder, i: nat): Answer
    reads b
  {
    if b.Valid() && !EndsInColon(b.Whole()) && (b.mode == Normal <==> i == 0) then Yes else No
  }

  method PrintItemsIndented(b: JsonBuilder, items: seq<Json>)
    requires b.Valid() && b.mode == Normal && !EndsInColon(b.json)
    modifies b`json, b`lex, b`stack, b`mode, b`needIndent
    ensures b.Valid() && b.stack == old(b.stack) && !EndsInColon(b.Whole())
    ensures Adds(old(b.json), PrettyItems(items, |b.stack|), b.Whole())
    decreases items, 0
  {
    ghost var start, stack, depth := b.json, b.stack, |b.stack|;
    var i := 0;
    while i < |items|
      invariant 0 <= i <= |items| && Behind(b, i) == Yes && b.stack == stack
      invariant ItemsAdded(start, items, i, depth, b.Whole())
    {
      ghost var before := b.Whole();
      PrintItemIndented(b, items[i], i);
      NextItem(start, items, i, depth, before, b.Whole());
      i := i + 1;
    }
    AllItems(start, items, depth, b.Whole());
  }

  method PrintItemIndented(b: JsonBuilder, v: Json, i: nat)
    requires Behind(b, i) == Yes
    modifies b`json, b`lex, b`stack, b`mode, b`needIndent
    ensures Behind(b, i + 1) == Yes && b.stack == old(b.stack)
    ensures Adds(old(b.Whole()), CommaText(i) + NewLine(|b.stack|) + Pretty(v, |b.stack|), b.Whole())
    decreases v, 2
  {
    ghost var start := b.Whole();
    IndentNext(b, i);
    ghost var middle := b.Opened();
    PrintIndented(b, v);
    Joins(start, CommaText(i) + NewLine(|b.stack|), middle, Pretty(v, |b.stack|), b.Whole());
  }

  ghost predicate ItemsAdded(start: string, items: seq<Json>, n: nat, depth: nat, now: string) {
    n <= |items| && forall at {:trigger Look(at)} :: Look(at) ==> Adds(start, PrettyItems(items[..n], depth), now)
  }

  lemma AllItems(start: string, items: seq<Json>, depth: nat, now: string)
    requires ItemsAdded(start, items, |items|, depth, now)
    ensures Adds(start, PrettyItems(items, depth), now)
  {
    assert Look(0) && items[..|items|] == items;
  }

  lemma PrettyItemsSnoc(items: seq<Json>, i: nat, depth: nat)
    requires i < |items|
    ensures PrettyItems(items[..i + 1], depth)
         == PrettyItems(items[..i], depth) + (CommaText(i) + NewLine(depth)) + Pretty(items[i], depth)
  {
    assert items[..i + 1][..i] == items[..i];
  }

  lemma NextItem(start: string, items: seq<Json>, i: nat, depth: nat, before: string, after: string)
    requires i < |items| && ItemsAdded(start, items, i, depth, before)
    requires Adds(before, CommaText(i) + NewLine(depth) + Pretty(items[i], depth), after)
    ensures ItemsAdded(start, items, i + 1, depth, after)
  {
    var done, sep, text := PrettyItems(items[..i], depth), CommaText(i) + NewLine(depth), Pretty(items[i], depth);
    assert Adds(start, done, before) by { assert Look(0); }
    NextText(start, done, sep, text, before, after);
    PrettyItemsSnoc(items, i, depth);
  }

  lemma NextText(start: string, done: string, sep: string, text: string, before: string, after: string)
    requires Adds(start, done, before) && Adds(before, sep + text, after)
    ensures Adds(start, done + sep + text, after)
  {
    assert Look(0);
    assert start + done + (sep + text) == start + (done + sep + text);
  }

  ghost predicate MembersAdded(start: string, m: seq<Member>, n: nat, depth: nat, now: string) {
    n <= |m| && forall at {:trigger Look(at)} :: Look(at) ==> Adds(start, PrettyMembers(m[..n], depth), now)
  }

  lemma AllMembers(start: string, m: seq<Member>, depth: nat, now: string)
    requires MembersAdded(start, m, |m|, depth, now)
    ensures Adds(start, PrettyMembers(m, depth), now)
  {
    assert Look(0) && m[..|m|] == m;
  }

  lemma PrettyMembersSnoc(m: seq<Member>, i: nat, depth: nat)
    requires i < |m|
    ensures PrettyMembers(m[..i + 1], depth)
         == PrettyMembers(m[..i], depth) + (CommaText(i) + NewLine(depth)) + PrettyMember(m[i], depth)
  {
    assert m[..i + 1][..i] == m[..i];
  }

  lemma NextMember(start: string, m: seq<Member>, i: nat, depth: nat, before: string, after: string)
    requires i < |m| && MembersAdded(start, m, i, depth, before)
    requires Adds(before, CommaText(i) + NewLine(depth) + PrettyMember(m[i], depth), after)
    ensures MembersAdded(start, m, i + 1, depth, after)
  {
    var done, sep, text := PrettyMembers(m[..i], depth), CommaText(i) + NewLine(depth), PrettyMember(m[i], depth);
    assert Adds(start, done, before) by { assert Look(0); }
    NextText(start, done, sep, text, before, after);
    PrettyMembersSnoc(m, i, depth);
  }

  method PrintMembersIndented(b: JsonBuilder, m: seq<Member>)
    requires b.Valid() && b.mode == Normal && !EndsInColon(b.json)
    modifies b`json, b`lex, b`stack, b`mode, b`needIndent
    ensures b.Valid() && b.stack == old(b.stack) && !EndsInColon(b.Whole())
    ensures Adds(old(b.json), PrettyMembers(m, |b.stack|), b.Whole())
    decreases m, 0
  {
    ghost var start, stack, depth := b.json, b.stack, |b.stack|;
    var i := 0;
    while i < |m|
      invariant 0 <= i <= |m| && Behind(b, i) == Yes && b.stack == stack
      invariant MembersAdded(start, m, i, depth, b.Whole())
    {
      ghost var before := b.Whole();
      PrintMemberIndented(b, m[i], i);
      NextMember(start, m, i, depth, before, b.Whole());
      i := i + 1;
    }
    AllMembers(start, m, depth, b.Whole());
  }

  method PrintMemberIndented(b: JsonBuilder, m: Member, i: nat)
    requires Behind(b, i) == Yes
    modifies b`json, b`lex, b`stack, b`mode, b`needIndent
    ensures Behind(b, i + 1) == Yes && b.stack == old(b.stack)
    ensures Adds(old(b.Whole()), CommaText(i) + NewLine(|b.stack|) + PrettyMember(m, |b.stack|), b.Whole())
    decreases m, 2
  {
    ghost var start, depth := b.Whole(), |b.stack|;
    IndentNext(b, i);
    ghost var middle := b.Opened();
    PrintKeyIndented(b, m.key);
    ghost var keyed := b.Opened();
    PrintIndented(b, m.value);
    Joins(middle, PrettyKey(m.key), keyed, Pretty(m.value, depth), b.Whole());
    Joins(start, CommaText(i) + NewLine(depth), middle, PrettyMember(m, depth), b.Whole());
  }

  method PrintKeyIndented(b: JsonBuilder, key: string)
    requires b.Valid()
    modifies b`json, b`lex, b`stack, b`mode, b`needIndent
    ensures b.Valid() && b.mode == Normal && b.stack == old(b.stack)
    ensures b.Opened() == old(b.Opened()) + PrettyKey(key)
  {
    ghost var start := b.Opened();
    b.Key(key);
    b.Indent();
    assert start + "\"" + Image(key) + "\":" + " " == start + PrettyKey(key);
  }

  /** An object or array with an indentation everywhere and an indenting finish is laid out line by line. */
  method PrintPretty(v: Json) returns (b: JsonBuilder)
    requires v.Object? || v.Array?
    ensures fresh(b) && b.gone + b.json == Pretty(v, 0) + "\n"
  {
    b := new JsonBuilder();
    PrintOpenIndented(b, v);
    ghost var s, c := b.Whole(), b.stack;
    b.Finish(true);
    assert "" + b.json == b.json;
  }

  /** All of it but its closing bracket. */
  method PrintOpenIndented(b: JsonBuilder, v: Json)
    requires (v.Object? || v.Array?) && b.Valid() && b.mode == Normal && !b.needIndent && b.json == "" == b.stack
    modifies b`json, b`lex, b`stack, b`mode, b`needIndent
    ensures b.Valid() && b.stack == (if v.Object? then "}" else "]") && !EndsInColon(b.Whole())
    ensures b.Whole() + NewLine(0) + b.stack == Pretty(v, 0)
  {
    if v.Object? {
      b.Object();
      assert b.json == "{";
      PrintMembersIndented(b, v.members);
    } else {
      b.Array();
      assert b.json == "[";
      PrintItemsIndented(b, v.items);
    }
    assert Look(0);
  }

}
