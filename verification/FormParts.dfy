/** What the header lines of a part say, as clients write them (section 4.2 of RFC 7578), and what a request gets. */
module FormParts {
  import opened Common
  import opened CText
  import opened MultipartText
  import opened Multipart
  import opened MultipartForm

  // ---------------------------------------------------------------------------------------------
  // Finding a key and its quoted value.

  /** Places without the key are passed. */
  lemma {:induction false} SkipKeys(s: string, key: string, p: nat, q: nat)
    requires key != "" && p <= q <= |s| && forall k :: p <= k < q ==> !KeyAt(s, key, k)
    ensures QuotedValue(s, key, p) == QuotedValue(s, key, q)
    decreases q - p
  {
    if p < q {
      var k := p + Find(s[p..], key);
      if k < q {
        SkipKeys(s, key, k + 1, q);
      } else {
        SamePlace(s, key, p, q);
      }
    }
  }

  lemma {:induction false} SamePlace(s: string, key: string, p: nat, q: nat)
    requires key != "" && p <= q <= |s| && p + Find(s[p..], key) >= q
    ensures QuotedValue(s, key, p) == QuotedValue(s, key, q)
  {
    SameFind(s, key, p, q);
  }

  lemma SameFind(s: string, key: string, p: nat, q: nat)
    requires key != "" && p <= q <= |s| && p + Find(s[p..], key) >= q
    ensures p + Find(s[p..], key) == q + Find(s[q..], key)
  {
    FindFirst(s[p..], key);
    FindLater(s[p..], key, q - p);
    assert s[p..][q - p..] == s[q..];
  }

  lemma KeyFound(s: string, key: string, k: nat)
    requires key != "" && k <= |s| && KeyAt(s, key, k)
    ensures QuotedValue(s, key, k) == QuotedAt(s, k + |key| + 1)
  {
    assert Find(s[k..], key) == 0;
  }

  lemma QuoteRead(s: string, p: nat, text: string)
    requires p + |text| + 2 <= |s| && s[p] == '"' && s[p + 1..p + 1 + |text|] == text && s[p + 1 + |text|] == '"'
    requires '"' !in text
    ensures QuotedAt(s, p) == Some(text)
  {
    var rest, n := s[p + 1..], |text|;
    forall q | 0 <= q < n ensures !("\"" <= rest[q..]) {
      assert rest[q..][0] == s[p + 1..p + 1 + n][q] && text[q] in text;
    }
    FindIs(rest, "\"", n);
  }

  lemma QuoteOpen(s: string, p: nat)
    requires p < |s| && '"' !in s[p + 1..]
    ensures QuotedAt(s, p) == None
  {
    var rest := s[p + 1..];
    forall q | 0 <= q < |rest| ensures !("\"" <= rest[q..]) {
      assert rest[q..][0] in rest;
    }
    FindIs(rest, "\"", |rest|);
  }

  // ---------------------------------------------------------------------------------------------
  // The line that names a part.

  const DISPOSITION := "Content-disposition: "

  /** Text that can stand in quotes on a line. */
  predicate Quotable(s: string) { '"' !in s && '\0' !in s && '\r' !in s && '\n' !in s }

  const BEFORE_NAME := "form-data; name=\""
  const BEFORE_FILENAME := "; filename=\""

  function FilenameText(filename: Option<string>): string {
    if filename.None? then "" else BEFORE_FILENAME + filename.value + "\""
  }

  /** What a client writes behind the prefix of the line. */
  function Disposition(name: string, filename: Option<string>): string {
    BEFORE_NAME + name + "\"" + FilenameText(filename)
  }

  /** The text d is such a line, as a fact that is looked into only where its characters matter. */
  ghost predicate Spelled(d: string, name: string, filename: Option<string>) {
    |d| >= 18 + |name| && forall at {:trigger Look(at)} :: Look(at) ==> d == Disposition(name, filename)
  }

  /** The place of each character. */
  lemma DispositionAt(d: string, name: string, filename: Option<string>)
    requires Spelled(d, name, filename)
    ensures forall i :: 0 <= i < 17 ==> d[i] == BEFORE_NAME[i]
    ensures forall i {:trigger d[i]} :: 17 <= i < 17 + |name| ==> d[i] == name[i - 17]
    ensures d[17..17 + |name|] == name && d[17 + |name|] == '"'
  {
    assert Look(0);
  }

  lemma BehindName(d: string, name: string, filename: Option<string>)
    requires Spelled(d, name, filename)
    ensures d[17 + |name|] == '"' && d[18 + |name|..] == FilenameText(filename)
  {
    assert Look(0);
  }

  lemma NameQuoted(d: string, name: string, filename: Option<string>)
    requires Spelled(d, name, filename) && Quotable(name)
    ensures QuotedAt(d, 16) == Some(name)
  {
    DispositionAt(d, name, filename);
    QuoteRead(d, 16, name);
  }

  lemma NameRead(d: string, name: string, filename: Option<string>)
    requires Spelled(d, name, filename) && Quotable(name)
    ensures QuotedValue(d, "name", 0) == Some(name)
  {
    DispositionAt(d, name, filename);
    SkipKeys(d, "name", 0, 11);
    KeyFound(d, "name", 11);
    NameQuoted(d, name, filename);
  }

  const LOOSE_FILENAME := " filename="

  /** A name that holds a blank and "filename=" hides the filename, or shows the text in front of it instead. */
  function FilenameOf(name: string, filename: Option<string>): Option<string> {
    var k := Find(name, LOOSE_FILENAME);
    if k == |name| then filename
    else if k + 10 == |name| && filename.Some? then Some("; filename=")
    else None
  }

  /** Where the key is found in front of the name's closing quote. */
  lemma LooseAt(d: string, name: string, filename: Option<string>, k: nat)
    requires Spelled(d, name, filename) && k <= 17 + |name| && Quotable(name)
    ensures KeyAt(d, "filename", k) <==> k >= 18 && LOOSE_FILENAME <= name[k - 18..]
  {
    var n := |name|;
    DispositionAt(d, name, filename);
    if 0 < k < 17 {
      assert d[k] == BEFORE_NAME[k] != 'f';
    } else if k >= 18 && k + 8 < 17 + n {
      assert d[k - 1..][..10] == d[17..17 + n][k - 18..][..10];
    }
  }

  /** No key stands before the first loose one in the name. */
  lemma NoEarlierFilename(d: string, name: string, filename: Option<string>, j: nat)
    requires Spelled(d, name, filename) && Quotable(name)
    requires j <= 18 + Find(name, LOOSE_FILENAME) && j <= 18 + |name|
    ensures forall k :: 0 <= k < j ==> !KeyAt(d, "filename", k)
  {
    FindFirst(name, LOOSE_FILENAME);
    forall k | 0 <= k < j ensures !KeyAt(d, "filename", k) {
      LooseAt(d, name, filename, k);
    }
  }

  lemma FirstLoose(d: string, name: string, filename: Option<string>)
    requires Spelled(d, name, filename) && Quotable(name) && Find(name, LOOSE_FILENAME) < |name|
    ensures var k := Find(name, LOOSE_FILENAME); k + 10 <= |name| && KeyAt(d, "filename", 18 + k)
  {
    FindFirst(name, LOOSE_FILENAME);
    LooseAt(d, name, filename, 18 + Find(name, LOOSE_FILENAME));
  }

  lemma FilenameHidden(d: string, name: string, filename: Option<string>, k: nat)
    requires Spelled(d, name, filename) && Quotable(name) && k == Find(name, LOOSE_FILENAME) < |name|
    ensures k + 10 <= |name| && QuotedValue(d, "filename", 0) == QuotedAt(d, k + 27)
  {
    FirstLoose(d, name, filename);
    NoEarlierFilename(d, name, filename, 18 + k);
    SkipKeys(d, "filename", 0, 18 + k);
    KeyFound(d, "filename", 18 + k);
  }

  /** What stands behind the name when there is a filename, from the name's closing quote at q on. */
  lemma FilenameBehind(d: string, q: nat, f: string)
    requires Quotable(f) && q < |d| && d[q] == '"' && d[q + 1..] == FilenameText(Some(f))
    ensures |d| >= q + 13 + |f| && KeyAt(d, "filename", q + 3) && QuotedAt(d, q + 12) == Some(f)
    ensures !KeyAt(d, "filename", q + 1) && !KeyAt(d, "filename", q + 2) && QuotedAt(d, q) == Some("; filename=")
  {
    BehindAt(d, q, f);
    QuoteRead(d, q + 12, f);
    QuoteRead(d, q, "; filename=");
  }

  lemma BehindAt(d: string, q: nat, f: string)
    requires q < |d| && d[q + 1..] == FilenameText(Some(f))
    ensures |d| == q + 14 + |f| && d[q + 1] == ';' && d[q + 2] == ' ' && d[q + 11] == '=' && d[q + 12] == '"'
    ensures d[q + 3..][..8] == "filename"
    ensures d[q + 13..q + 13 + |f|] == f && d[q + 13 + |f|] == '"' && d[q + 1..q + 12] == "; filename="
  {
    var rest := FilenameText(Some(f));
    assert rest[12..12 + |f|] == f && rest[12 + |f|] == '"';
    Within(d, q + 1, 12, 12 + |f|);
    assert rest[0..11] == "; filename=" && rest[2..10] == "filename";
    Within(d, q + 1, 0, 11);
    Within(d, q + 1, 2, 10);
    assert d[q + 3..][..8] == d[q + 3..q + 11];
    assert d[q + 1] == d[q + 1..][0] && d[q + 2] == d[q + 1..][1];
    assert d[q + 11] == d[q + 1..][10] && d[q + 12] == d[q + 1..][11];
    assert d[q + 13 + |f|] == d[q + 1..][12 + |f|];
  }

  lemma Within(d: string, p: nat, i: nat, j: nat)
    requires i <= j && p + j <= |d|
    ensures d[p..][i..j] == d[p + i..p + j]
  {
  }

  lemma HiddenRead(d: string, name: string, filename: Option<string>, k: nat)
    requires Spelled(d, name, filename) && Quotable(name) && (filename.Some? ==> Quotable(filename.value))
    requires k == Find(name, LOOSE_FILENAME) < |name|
    ensures QuotedValue(d, "filename", 0) == if k + 10 == |name| && filename.Some? then Some("; filename=") else None
  {
    FilenameHidden(d, name, filename, k);
    if k + 10 < |name| {
      InsideName(d, name, filename, k);
    } else {
      AtClosing(d, name, filename);
    }
  }

  lemma InsideName(d: string, name: string, filename: Option<string>, k: nat)
    requires Spelled(d, name, filename) && Quotable(name) && k + 10 < |name|
    ensures QuotedAt(d, k + 27) == None
  {
    DispositionAt(d, name, filename);
    assert d[k + 27] == name[k + 10] && name[k + 10] in name;
  }

  lemma AtClosing(d: string, name: string, filename: Option<string>)
    requires Spelled(d, name, filename) && Quotable(name) && (filename.Some? ==> Quotable(filename.value))
    ensures QuotedAt(d, 17 + |name|) == if filename.Some? then Some("; filename=") else None
  {
    BehindName(d, name, filename);
    if filename.None? { QuoteOpen(d, 17 + |name|); } else { FilenameBehind(d, 17 + |name|, filename.value); }
  }

  lemma ShownNone(d: string)
    requires forall k :: 0 <= k < |d| ==> !KeyAt(d, "filename", k)
    ensures QuotedValue(d, "filename", 0) == None
  {
    SkipKeys(d, "filename", 0, |d|);
  }

  lemma {:induction false} ShownSome(d: string, q: nat, f: string)
    requires Quotable(f) && q < |d| && d[q] == '"' && d[q + 1..] == FilenameText(Some(f))
    requires forall k :: 0 <= k <= q ==> !KeyAt(d, "filename", k)
    ensures QuotedValue(d, "filename", 0) == Some(f)
  {
    FilenameBehind(d, q, f);
    FoundAt(d, "filename", q + 3, Some(f));
  }

  lemma FoundAt(d: string, key: string, p: nat, r: Option<string>)
    requires key != "" && p <= |d| && forall k :: 0 <= k < p ==> !KeyAt(d, key, k)
    requires KeyAt(d, key, p) && QuotedAt(d, p + |key| + 1) == r
    ensures QuotedValue(d, key, 0) == r
  {
    SkipKeys(d, key, 0, p);
    KeyFound(d, key, p);
  }

  lemma {:induction false} ShownRead(d: string, name: string, filename: Option<string>)
    requires Spelled(d, name, filename) && Quotable(name) && (filename.Some? ==> Quotable(filename.value))
    requires Find(name, LOOSE_FILENAME) == |name|
    ensures QuotedValue(d, "filename", 0) == filename
  {
    NoEarlierFilename(d, name, filename, 18 + |name|);
    BehindName(d, name, filename);
    if filename.None? { ShownNone(d); } else { ShownSome(d, 17 + |name|, filename.value); }
  }

  lemma FilenameRead(d: string, name: string, filename: Option<string>)
    requires Spelled(d, name, filename) && Quotable(name) && (filename.Some? ==> Quotable(filename.value))
    ensures QuotedValue(d, "filename", 0) == FilenameOf(name, filename)
  {
    var k := Find(name, LOOSE_FILENAME);
    if k < |name| { HiddenRead(d, name, filename, k); } else { ShownRead(d, name, filename); }
  }

  // ---------------------------------------------------------------------------------------------
  // The lines of a part.

  const TYPE := "Content-type: "
  const ENCODING := "Content-Transfer-Encoding: "

  /** Text that can stand on a line. */
  predicate Clean(s: string) { '\0' !in s && '\r' !in s && '\n' !in s }

  /** The prefix in any mixture of cases, and the text. */
  predicate IsLine(h: string, prefix: string, text: string) {
    |h| == |prefix| + |text| && SameLetters(h[..|prefix|], prefix) && h[|prefix|..] == text
  }

  predicate StartsWith(s: string, prefix: string) { |prefix| <= |s| && SameLetters(s[..|prefix|], prefix) }

  predicate Contains(text: string, prefix: string) {
    exists q :: 0 <= q <= |text| && StartsWith(text[q..], prefix)
  }

  predicate IsPrefix(prefix: string) { prefix == DISPOSITION || prefix == TYPE || prefix == ENCODING }

  lemma PrefixClean(prefix: string)
    requires IsPrefix(prefix)
    ensures Clean(prefix) && prefix != ""
  {
  }

  lemma DispositionClean(name: string, filename: Option<string>)
    requires Quotable(name) && (filename.Some? ==> Quotable(filename.value))
    ensures Clean(Disposition(name, filename))
  {
    var d := Disposition(name, filename);
    assert Clean(BEFORE_NAME) && Clean(BEFORE_FILENAME);
    assert Clean(FilenameText(filename));
  }

  lemma LineClean(h: string, prefix: string, text: string)
    requires IsPrefix(prefix) && IsLine(h, prefix, text) && Clean(text)
    ensures Clean(h) && CStr(h) == h && (forall i :: 0 <= i < |h| ==> !IsNewline(h[i]))
  {
    PrefixClean(prefix);
    CleanLine(h, prefix, text);
  }

  predicate CleanChar(c: char) { c != '\0' && !IsNewline(c) }

  lemma CleanAt(h: string, prefix: string, text: string, i: nat)
    requires IsLine(h, prefix, text) && i < |h|
    requires forall j :: 0 <= j < |prefix| ==> CleanChar(prefix[j])
    requires forall j :: 0 <= j < |text| ==> CleanChar(text[j])
    ensures CleanChar(h[i])
  {
    var n := |prefix|;
    if i < n {
      assert SameLetter(h[..n][i], prefix[i]);
    } else {
      assert h[i] == h[n..][i - n] == text[i - n];
    }
  }

  lemma {:induction false} CleanLine(h: string, prefix: string, text: string)
    requires IsLine(h, prefix, text) && Clean(text) && Clean(prefix)
    ensures Clean(h) && CStr(h) == h && (forall i :: 0 <= i < |h| ==> !IsNewline(h[i]))
  {
    forall i | 0 <= i < |h| ensures CleanChar(h[i]) { CleanAt(h, prefix, text, i); }
  }

  /** One character that differs, letter case aside, is enough. */
  lemma NotPrefixAt(h: string, prefix: string, text: string, other: string, q: nat, i: nat)
    requires IsLine(h, prefix, text) && q + i < |prefix| && i < |other| && Lower(prefix[q + i]) != Lower(other[i])
    ensures !CaselessPrefix(other, h[q..])
  {
    LowerIsSame(h[..|prefix|][q + i], prefix[q + i]);
    assert h[q..][i] == h[..|prefix|][q + i];
  }

  /** Behind the prefix the other one stands only where it stands in the text. */
  lemma NotInText(h: string, prefix: string, text: string, other: string, q: nat)
    requires IsLine(h, prefix, text) && |prefix| <= q < |h| && !Contains(text, other)
    ensures !CaselessPrefix(other, h[q..])
  {
    var p := q - |prefix|;
    CaselessPrefixIs(other, h[q..]);
    assert h[q..] == text[p..];
    assert !StartsWith(text[p..], other);
  }

  lemma {:induction false} NoPrefix(prefix: string, line: string)
    requires forall q :: 0 <= q < |line| ==> !CaselessPrefix(prefix, line[q..])
    ensures AfterPrefix(prefix, line) == None
  {
    if line != "" {
      assert line[0..] == line;
      forall q | 0 <= q < |line| - 1 ensures !CaselessPrefix(prefix, line[1..][q..]) {
        assert line[1..][q..] == line[q + 1..];
      }
      NoPrefix(prefix, line[1..]);
    }
  }

  lemma PrefixRead(h: string, prefix: string, text: string)
    requires IsLine(h, prefix, text) && prefix != ""
    ensures CaselessPrefix(prefix, h) && AfterPrefix(prefix, h) == Some(text)
  {
    CaselessPrefixIs(prefix, h);
  }

  lemma TypeIsNoEncoding(h: string, text: string)
    requires IsLine(h, TYPE, text) && !Contains(text, ENCODING)
    ensures AfterPrefix(ENCODING, h) == None
  {
    forall q | 0 <= q < |h| ensures !CaselessPrefix(ENCODING, h[q..]) {
      if q >= |TYPE| { NotInText(h, TYPE, text, ENCODING, q); }
      else if q == 0 { NotPrefixAt(h, TYPE, text, ENCODING, 0, 9); }
      else { NotPrefixAt(h, TYPE, text, ENCODING, q, 0); }
    }
    NoPrefix(ENCODING, h);
  }

  lemma EncodingIsNoType(h: string, text: string)
    requires IsLine(h, ENCODING, text) && !Contains(text, TYPE)
    ensures AfterPrefix(TYPE, h) == None
  {
    forall q | 0 <= q < |h| ensures !CaselessPrefix(TYPE, h[q..]) {
      if q >= |ENCODING| { NotInText(h, ENCODING, text, TYPE, q); }
      else if q == 0 { NotPrefixAt(h, ENCODING, text, TYPE, 0, 9); }
      else if q == 19 { NotPrefixAt(h, ENCODING, text, TYPE, 19, 2); }
      else { NotPrefixAt(h, ENCODING, text, TYPE, q, 0); }
    }
    NoPrefix(TYPE, h);
  }

  /** The line with the disposition gives the name, and the filename as far as the name does not hide it. */
  lemma DispositionTaken(f: Fields, h: string, name: string, filename: Option<string>)
    requires Quotable(name) && (filename.Some? ==> Quotable(filename.value))
    requires IsLine(h, DISPOSITION, Disposition(name, filename)) && f.name == None == f.filename
    ensures TakeHeader(f, h) == f.(name := Some(name), filename := FilenameOf(name, filename))
  {
    PrefixRead(h, DISPOSITION, Disposition(name, filename));
    NameRead(Disposition(name, filename), name, filename);
    FilenameRead(Disposition(name, filename), name, filename);
  }

  lemma TypeTaken(f: Fields, h: string, text: string)
    requires IsLine(h, TYPE, text) && !Contains(text, ENCODING) && f.contentType == None
    ensures TakeHeader(f, h) == f.(contentType := Some(text))
  {
    NotPrefixAt(h, TYPE, text, DISPOSITION, 0, 8);
    assert h[0..] == h;
    PrefixRead(h, TYPE, text);
    TypeIsNoEncoding(h, text);
  }

  lemma EncodingTaken(f: Fields, h: string, text: string)
    requires IsLine(h, ENCODING, text) && !Contains(text, TYPE) && f.encoding == None
    ensures TakeHeader(f, h) == f.(encoding := Some(text))
  {
    NotPrefixAt(h, ENCODING, text, DISPOSITION, 0, 8);
    assert h[0..] == h;
    PrefixRead(h, ENCODING, text);
    EncodingIsNoType(h, text);
  }

  /** The name always comes through; the filename exactly if the name hides none, but for one odd filename. */
  lemma {:induction false} FilenameComesThrough(h: string, name: string, f: string)
    requires Quotable(name) && Quotable(f) && IsLine(h, DISPOSITION, Disposition(name, Some(f)))
    ensures TakeHeader(NO_FIELDS, h).name == Some(name)
    ensures TakeHeader(NO_FIELDS, h).filename == Some(f)
       <==> (Find(name, LOOSE_FILENAME) == |name|
             || (f == "; filename=" && Find(name, LOOSE_FILENAME) + |LOOSE_FILENAME| == |name|))
  {
    DispositionTaken(NO_FIELDS, h, name, Some(f));
  }

  // ---------------------------------------------------------------------------------------------
  // Whole parts.

  /** A part as a client means it. */
  datatype FormPart = FormPart(name: string, filename: Option<string>, contentType: Option<string>,
                               encoding: Option<string>, value: string)

  predicate Meant(w: FormPart) {
    && Quotable(w.name) && (w.filename.Some? ==> Quotable(w.filename.value))
    && (w.contentType.Some? ==> Clean(w.contentType.value) && !Contains(w.contentType.value, ENCODING)
                                && !StartsWith(w.contentType.value, "multipart/mixed"))
    && (w.encoding.Some? ==> Clean(w.encoding.value) && !Contains(w.encoding.value, TYPE))
  }

  predicate IsOptionalLine(lines: seq<string>, prefix: string, o: Option<string>) {
    if o.None? then lines == [] else |lines| == 1 && IsLine(lines[0], prefix, o.value)
  }

  function Has(o: Option<string>): nat { if o.Some? then 1 else 0 }

  /** How it is written: the disposition, then the type and the encoding if there are any. */
  predicate Writes(p: PartText, w: FormPart) {
    && p.value == w.value
    && |p.headers| == 1 + Has(w.contentType) + Has(w.encoding)
    && IsLine(p.headers[0], DISPOSITION, Disposition(w.name, w.filename))
    && IsOptionalLine(p.headers[1..1 + Has(w.contentType)], TYPE, w.contentType)
    && IsOptionalLine(p.headers[1 + Has(w.contentType)..], ENCODING, w.encoding)
  }

  /** What the parser makes of it. */
  function MeantFields(w: FormPart): Fields {
    Fields(Some(w.name), FilenameOf(w.name, w.filename), w.contentType, w.encoding)
  }

  lemma {:induction false} FieldsConcat(fm: Format, f: Fields, a: seq<string>, b: seq<string>)
    ensures FieldsOf(fm, f, a + b) == FieldsOf(fm, FieldsOf(fm, f, a), b)
    decreases |a|
  {
    if a == [] {
      assert a + b == b;
    } else {
      assert (a + b)[1..] == a[1..] + b;
      FieldsConcat(fm, fm.take(f, CStr(a[0])), a[1..], b);
    }
  }

  lemma NameLine(fm: Format, h: string, w: FormPart)
    requires fm.take == TakeHeader && Meant(w) && IsLine(h, DISPOSITION, Disposition(w.name, w.filename))
    ensures FieldsOf(fm, NO_FIELDS, [h]) == Fields(Some(w.name), FilenameOf(w.name, w.filename), None, None)
  {
    DispositionClean(w.name, w.filename);
    LineClean(h, DISPOSITION, Disposition(w.name, w.filename));
    DispositionTaken(NO_FIELDS, h, w.name, w.filename);
  }

  lemma TypeLines(fm: Format, f: Fields, lines: seq<string>, w: FormPart)
    requires fm.take == TakeHeader && Meant(w) && IsOptionalLine(lines, TYPE, w.contentType) && f.contentType == None
    ensures FieldsOf(fm, f, lines) == f.(contentType := w.contentType)
  {
    if w.contentType.Some? {
      LineClean(lines[0], TYPE, w.contentType.value);
      TypeTaken(f, lines[0], w.contentType.value);
      assert lines == [lines[0]];
    }
  }

  lemma EncodingLines(fm: Format, f: Fields, lines: seq<string>, w: FormPart)
    requires fm.take == TakeHeader && Meant(w) && IsOptionalLine(lines, ENCODING, w.encoding) && f.encoding == None
    ensures FieldsOf(fm, f, lines) == f.(encoding := w.encoding)
  {
    if w.encoding.Some? {
      LineClean(lines[0], ENCODING, w.encoding.value);
      EncodingTaken(f, lines[0], w.encoding.value);
      assert lines == [lines[0]];
    }
  }

  lemma FieldsWritten(fm: Format, p: PartText, w: FormPart)
    requires fm.take == TakeHeader && Writes(p, w) && Meant(w)
    ensures FieldsOf(fm, NO_FIELDS, p.headers) == MeantFields(w)
  {
    var h, n := p.headers, Has(w.contentType);
    var one := FieldsOf(fm, NO_FIELDS, [h[0]]);
    NameLine(fm, h[0], w);
    TypeLines(fm, one, h[1..1 + n], w);
    EncodingLines(fm, one.(contentType := w.contentType), h[1 + n..], w);
    FieldsConcat(fm, one, h[1..1 + n], h[1 + n..]);
    FieldsConcat(fm, NO_FIELDS, [h[0]], h[1..1 + n] + h[1 + n..]);
    assert h == [h[0]] + (h[1..1 + n] + h[1 + n..]);
  }

  predicate Short(p: PartText, room: nat) { forall i :: 0 <= i < |p.headers| ==> |p.headers[i]| < room }

  lemma LineOk(fm: Format, h: string, prefix: string, text: string)
    requires IsPrefix(prefix) && IsLine(h, prefix, text) && Clean(text) && |h| < fm.room
    ensures HeaderOk(fm, h)
  {
    PrefixClean(prefix);
    LineClean(h, prefix, text);
  }

  lemma HeadersOk(fm: Format, p: PartText, w: FormPart)
    requires Writes(p, w) && Meant(w) && Short(p, fm.room)
    ensures forall h <- p.headers :: HeaderOk(fm, h)
  {
    var n := Has(w.contentType);
    forall h | h in p.headers ensures HeaderOk(fm, h) {
      var i :| 0 <= i < |p.headers| && p.headers[i] == h;
      if i == 0 {
        DispositionClean(w.name, w.filename);
        LineOk(fm, h, DISPOSITION, Disposition(w.name, w.filename));
      } else {
        OtherLineOk(fm, p, w, i);
      }
    }
  }

  lemma OtherLineOk(fm: Format, p: PartText, w: FormPart, i: nat)
    requires Writes(p, w) && Meant(w) && 0 < i < |p.headers| && |p.headers[i]| < fm.room
    ensures HeaderOk(fm, p.headers[i])
  {
    var h, n := p.headers, Has(w.contentType);
    if i == 1 && n == 1 {
      assert h[1..1 + n][0] == h[1];
      LineOk(fm, h[1], TYPE, w.contentType.value);
    } else {
      assert h[1 + n..][0] == h[1 + n];
      LineOk(fm, h[1 + n], ENCODING, w.encoding.value);
    }
  }

  /** Section 5.1.1 of RFC 2046: the delimiter does not occur in the value. */
  predicate Delimited(p: PartText, boundary: string) { Find(p.value, Delimiter(boundary)) == |p.value| }

  predicate Fits(boundary: string, size: nat, p: PartText, w: FormPart) {
    Writes(p, w) && Meant(w) && Short(p, size + 4) && Delimited(p, boundary)
  }

  lemma PartWritten(boundary: string, size: nat, p: PartText, w: FormPart)
    requires Fits(boundary, size, p, w)
    ensures PartOk(FormData(boundary, size), p)
    ensures EntryOf(FormData(boundary, size), p) == Entry(MeantFields(w), w.value)
  {
    var fm := FormData(boundary, size);
    HeadersOk(fm, p, w);
    FieldsWritten(fm, p, w);
    if w.contentType.Some? { CaselessPrefixIs("multipart/mixed", w.contentType.value); }
  }

  /** The texts of all parts, none of which is too long for the buffer. */
  predicate Written(boundary: string, size: nat, texts: seq<PartText>, form: seq<FormPart>) {
    && |texts| == |form| && '\r' !in boundary
    && forall i :: 0 <= i < |form| ==> Fits(boundary, size, texts[i], form[i])
  }

  /** The encodings that carry a value as it is. */
  predicate Carried(w: FormPart) { w.encoding.None? || Transparent(w.encoding.value) }

  /** What was sent: each name with the value of its last part, as long as no part has another encoding. */
  function Sent(form: seq<FormPart>): Collected {
    if form == [] then NOTHING
    else
      SentToo(Sent(form[..|form| - 1]), form[|form| - 1])
  }

  lemma PartsWritten(boundary: string, size: nat, texts: seq<PartText>, form: seq<FormPart>)
    requires Written(boundary, size, texts, form)
    ensures WellFormed(FormData(boundary, size), texts)
  {
    forall p | p in texts ensures PartOk(FormData(boundary, size), p) {
      var i :| 0 <= i < |texts| && texts[i] == p;
      PartWritten(boundary, size, p, form[i]);
    }
  }

  lemma {:induction false} EntriesSent(boundary: string, size: nat, texts: seq<PartText>, form: seq<FormPart>)
    requires Written(boundary, size, texts, form)
    ensures AfterEntries(NOTHING, Entries(FormData(boundary, size), texts)) == Sent(form)
  {
    if texts != [] {
      var n := |texts| - 1;
      EntriesSent(boundary, size, texts[..n], form[..n]);
      PartSent(boundary, size, texts[n], form[n], Sent(form[..n]));
      LastSent(FormData(boundary, size), texts, form);
    }
  }

  lemma {:induction false} LastSent(fm: Format, texts: seq<PartText>, form: seq<FormPart>)
    requires |texts| == |form| > 0
    requires var n := |texts| - 1;
      && AfterEntries(NOTHING, Entries(fm, texts[..n])) == Sent(form[..n])
      && AfterEntry(Sent(form[..n]), EntryOf(fm, texts[n])) == SentToo(Sent(form[..n]), form[n])
    ensures AfterEntries(NOTHING, Entries(fm, texts)) == Sent(form)
  {
    var n := |texts| - 1;
    EntriesSnoc(fm, texts[..n], texts[n]);
    assert texts == texts[..n] + [texts[n]];
  }

  function SentToo(before: Collected, w: FormPart): Collected {
    if before.unsupported then before
    else if !Carried(w) then before.(unsupported := true)
    else before.(params := before.params[w.name := w.value])
  }

  lemma PartSent(boundary: string, size: nat, p: PartText, w: FormPart, before: Collected)
    requires Fits(boundary, size, p, w)
    ensures AfterEntry(before, EntryOf(FormData(boundary, size), p)) == SentToo(before, w)
  {
    PartWritten(boundary, size, p, w);
  }

  lemma {:induction false} EntriesSnoc(fm: Format, parts: seq<PartText>, p: PartText)
    ensures Entries(fm, parts + [p]) == Entries(fm, parts) + [EntryOf(fm, p)]
  {
    if parts == [] {
      assert parts + [p] == [p];
    } else {
      assert (parts + [p])[1..] == parts[1..] + [p];
      EntriesSnoc(fm, parts[1..], p);
    }
  }

  /**
   * A form arrives in any segments, with anything in front of it: the request has each name with the value of its last
   * part, and no other names.
   */
  method ReceiveParts(boundary: string, size: nat, segments: seq<string>, ghost preamble: string,
                      ghost texts: seq<PartText>, ghost form: seq<FormPart>, ghost tail: string)
    returns (r: Request, status: Status)
    requires |boundary| >= 1 && |boundary| * 2 + 2 <= size && Written(boundary, size, texts, form)
    requires tail == "" || "\r\n" <= tail
    requires Find(preamble + "--" + boundary, "--" + boundary) == |preamble|
    requires Joined(segments) == preamble + Body(boundary, texts) + tail
    ensures r.State() == Sent(form) && status == EndStatus(tail)
  {
    PartsWritten(boundary, size, texts, form);
    EntriesSent(boundary, size, texts, form);
    r, status := ReceiveForm(boundary, size, segments, preamble, texts, tail);
  }

  /** The value of the last part with this name. */
  function LastOf(form: seq<FormPart>, name: string): Option<string> {
    if form == [] then None
    else
      var last := form[|form| - 1];
      if last.name == name then Some(last.value) else LastOf(form[..|form| - 1], name)
  }

  /** Where all encodings carry the values, the names are exactly those written, each with its last value. */
  lemma {:induction false} SentIsLast(form: seq<FormPart>, name: string)
    requires forall w <- form :: Carried(w)
    ensures !Sent(form).unsupported
    ensures LastOf(form, name) == if name in Sent(form).params then Some(Sent(form).params[name]) else None
  {
    if form != [] {
      SentIsLast(form[..|form| - 1], name);
      assert Carried(form[|form| - 1]);
    }
  }
}
