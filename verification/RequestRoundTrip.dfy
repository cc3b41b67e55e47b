/** Every well-formed request, written out and parsed, comes back. */
module RequestRoundTrip {
  import opened Basics
  import opened Bytes
  import opened ChunkedDecoder
  import opened RequestParser
  import opened Numerals

  // ---------- requests and their text ----------

  /** A header field, or a continuation line; crlf tells CR LF line ends from bare LF. */
  datatype Field =
    | Named(name: seq<byte>, blanks: seq<byte>, value: seq<byte>, crlf: bool)
    | Folded(value: seq<byte>, crlf: bool)

  datatype Text = Text(emptyLine: Option<bool>, method_: seq<byte>, path: seq<byte>, minor: seq<byte>, crlf: bool,
                       fields: seq<Field>, endCrlf: bool)

  predicate Blank(c: byte) {
    c == 32 || c == 9
  }

  predicate AllDigits(d: seq<byte>) {
    forall k :: 0 <= k < |d| ==> 48 <= d[k] <= 57
  }

  predicate ValidToken(t: seq<byte>) {
    forall k :: 0 <= k < |t| ==> t[k] > 32 && t[k] != 127
  }

  predicate ValidValue(v: seq<byte>) {
    forall k :: 0 <= k < |v| ==> (v[k] >= 32 && v[k] != 127) || v[k] == 9
  }

  /** tchar (section 3.2.6 of RFC 7230): digits, letters, and the signs ! # $ % & ' * + - . ^ _ ` | ~ */
  predicate IsTchar(c: byte) {
    || 48 <= c <= 57 || 65 <= c <= 90 || 97 <= c <= 122
    || c in [33, 35, 36, 37, 38, 39, 42, 43, 45, 46, 94, 95, 96, 124, 126]
  }

  /** The parser's classes of characters are those of the grammar. */
  lemma CharacterClasses(c: byte, signedChar: bool)
    ensures IsTchar(c) <==> TokenChar(c)
    ensures (c < 32 && c != 9) || c == 127 <==> Control(c)
    ensures 48 <= c <= 57 <==> Digit(c)
    ensures c < 32 || (signedChar && c >= 128) <==> BelowSpace(c, signedChar)
  {
  }

  /** Where plain char is signed, a name must be ASCII. */
  predicate ValidName(name: seq<byte>, signedChar: bool) {
    && name != [] && IsTchar(name[0])
    && forall k :: 0 <= k < |name| ==> name[k] != 58 && 32 <= name[k] && (signedChar ==> name[k] < 128)
  }

  predicate AllBlank(b: seq<byte>) {
    forall k :: 0 <= k < |b| ==> Blank(b[k])
  }

  predicate ValidField(f: Field, first: bool, signedChar: bool) {
    && ValidValue(f.value)
    && match f
       case Named(name, blanks, value, _) =>
         ValidName(name, signedChar) && AllBlank(blanks) && (value != [] ==> !Blank(value[0]))
       case Folded(value, _) => !first && value != [] && Blank(value[0])
  }

  predicate ValidFields(fs: seq<Field>, first: bool, signedChar: bool) {
    forall k :: 0 <= k < |fs| ==> ValidField(fs[k], first && k == 0, signedChar)
  }

  predicate ValidText(t: Text, signedChar: bool) {
    && ValidToken(t.method_) && ValidToken(t.path) && t.minor != [] && AllDigits(t.minor)
    && ValidFields(t.fields, true, signedChar)
  }

  // The printers take what follows the printed text.

  function PrintEol(crlf: bool, rest: seq<byte>): seq<byte> {
    if crlf then [13, 10] + rest else [10] + rest
  }

  function PrintField(f: Field, rest: seq<byte>): seq<byte> {
    match f
    case Named(name, blanks, value, crlf) => name + ([58] + (blanks + (value + PrintEol(crlf, rest))))
    case Folded(value, crlf) => value + PrintEol(crlf, rest)
  }

  function PrintFields(fs: seq<Field>, rest: seq<byte>): seq<byte> {
    if fs == [] then rest else PrintField(fs[0], PrintFields(fs[1..], rest))
  }

  /** HTTP/1. and the minor version. */
  function PrintVersion(minor: seq<byte>, crlf: bool, rest: seq<byte>): seq<byte> {
    [72, 84, 84, 80, 47, 49, 46] + (minor + PrintEol(crlf, rest))
  }

  function PrintTokens(t: Text, rest: seq<byte>): seq<byte> {
    t.method_ + ([32] + (t.path + ([32] + rest)))
  }

  function PrintEmptyLine(empty: Option<bool>, rest: seq<byte>): seq<byte> {
    if empty.None? then rest else PrintEol(empty.value, rest)
  }

  function PrintLine(t: Text, rest: seq<byte>): seq<byte> {
    PrintEmptyLine(t.emptyLine, PrintTokens(t, PrintVersion(t.minor, t.crlf, rest)))
  }

  function Print(t: Text, tail: seq<byte>): seq<byte> {
    PrintLine(t, PrintFields(t.fields, PrintEol(t.endCrlf, tail)))
  }

  // ---------- reading what was printed ----------

  lemma Drop(s: seq<byte>, i: nat, u: seq<byte>, rest: seq<byte>)
    requires i <= |s| && s[i..] == u + rest
    ensures i + |u| <= |s| && s[i + |u|..] == rest && s[i..i + |u|] == u
    ensures forall k :: i <= k < i + |u| ==> s[k] == u[k - i]
  {
    var w := s[i..];
    assert |w| == |u| + |rest|;
    assert s[i + |u|..] == w[|u|..] == rest;
    assert s[i..i + |u|] == w[..|u|] == u;
    assert forall k :: i <= k < i + |u| ==> s[k] == w[k - i];
  }

  function Slice(s: seq<byte>, span: Span): seq<byte>
    requires span.start + span.len <= |s|
  {
    s[span.start..span.start + span.len]
  }

  lemma EolAt(s: seq<byte>, i: nat, crlf: bool, rest: seq<byte>) returns (n: nat)
    requires i <= |s| && s[i..] == PrintEol(crlf, rest)
    ensures i < n <= |s| && LineEnd(s, i) == Ok(n, ()) && s[n..] == rest
    ensures s[i] == CR || s[i] == LF
  {
    n := if crlf then i + 2 else i + 1;
    Drop(s, i, if crlf then [CR, LF] else [LF], rest);
  }

  lemma TokenAt(s: seq<byte>, i: nat, t: seq<byte>, rest: seq<byte>)
    requires i <= |s| && s[i..] == t + ([SP] + rest) && ValidToken(t)
    ensures i + |t| + 1 <= |s| && s[i + |t| + 1..] == rest
    ensures AdvanceToken(s, i) == Ok(i + |t|, Span(i, |t|)) && Slice(s, Span(i, |t|)) == t
  {
    Drop(s, i, t, [SP] + rest);
    Drop(s, i + |t|, [SP], rest);
    assert s[i + |t|] == SP;
    FindTokenEndStop(s, i);
  }

  lemma ValueAt(s: seq<byte>, i: nat, value: seq<byte>, crlf: bool, rest: seq<byte>) returns (n: nat)
    requires i <= |s| && s[i..] == value + PrintEol(crlf, rest) && ValidValue(value)
    ensures i + |value| < n <= |s| && s[n..] == rest
    ensures TokenToEol(s, i) == Ok(n, Span(i, |value|)) && Slice(s, Span(i, |value|)) == value
    ensures s[i] == if value != [] then value[0] else if crlf then CR else LF
  {
    Drop(s, i, value, PrintEol(crlf, rest));
    n := EolAt(s, i + |value|, crlf, rest);
    FindControlStop(s, i);
    assert PrintEol(crlf, rest)[0] == if crlf then CR else LF;
  }

  lemma IntAt(s: seq<byte>, i: nat, digits: seq<byte>, rest: seq<byte>)
    requires i <= |s| && s[i..] == digits + rest
    requires digits != [] && AllDigits(digits) && rest != [] && !Digit(rest[0])
    ensures i + |digits| <= |s| && s[i + |digits|..] == rest
    ensures ParseInt(s, i) == Ok(i + |digits|, Decimal(digits))
  {
    Drop(s, i, digits, rest);
    assert s[i + |digits|] == rest[0];
    FindNonDigitStop(s, i);
  }

  lemma {:induction false} CharsAt(s: seq<byte>, i: nat, chars: seq<byte>, rest: seq<byte>)
    requires i <= |s| && s[i..] == chars + rest
    ensures i + |chars| <= |s| && s[i + |chars|..] == rest
    ensures ExpectChars(chars, s, i) == Ok(i + |chars|, ())
    decreases |chars|
  {
    if chars == [] {
      assert chars + rest == rest;
    } else {
      var c := [chars[0]];
      assert chars + rest == c + (chars[1..] + rest);
      Drop(s, i, c, chars[1..] + rest);
      CharsAt(s, i + 1, chars[1..], rest);
    }
  }

  lemma {:induction false} DecimalIs(digits: seq<byte>)
    requires AllDigits(digits)
    ensures (forall k :: 0 <= k < |digits| ==> Digit(digits[k])) && IsDecimal(digits, Decimal(digits))
    decreases |digits|
  {
    if digits != [] {
      DecimalIs(digits[..|digits| - 1]);
    }
  }

  lemma VersionAt(s: seq<byte>, i: nat, minor: seq<byte>, crlf: bool, rest: seq<byte>) returns (n: nat)
    requires i <= |s| && s[i..] == PrintVersion(minor, crlf, rest) && minor != [] && AllDigits(minor)
    ensures n <= |s| && s[n..] == rest && VersionAndEnd(s, i) == Ok(n, Decimal(minor))
  {
    var m := i + |HTTP_1|;
    CharsAt(s, i, HTTP_1, minor + PrintEol(crlf, rest));
    IntAt(s, m, minor, PrintEol(crlf, rest));
    n := EolAt(s, m + |minor|, crlf, rest);
    assert ParseHttpVersion(s, i) == Ok(m + |minor|, Decimal(minor));
  }

  // ---------- the request line ----------

  lemma TokensAt(s: seq<byte>, i: nat, t: Text, rest: seq<byte>) returns (k: nat, tokens: (Span, Span))
    requires i <= |s| && s[i..] == PrintTokens(t, rest) && ValidToken(t.method_) && ValidToken(t.path)
    ensures k < |s| && s[k + 1..] == rest && TwoTokens(s, i) == Ok(k, tokens)
    ensures tokens.0.start + tokens.0.len <= |s| && Slice(s, tokens.0) == t.method_
    ensures tokens.1.start + tokens.1.len <= |s| && Slice(s, tokens.1) == t.path
  {
    var j := i + |t.method_| + 1;
    TokenAt(s, i, t.method_, t.path + ([SP] + rest));
    TokenAt(s, j, t.path, rest);
    k, tokens := j + |t.path|, (Span(i, |t.method_|), Span(j, |t.path|));
  }

  lemma EmptyLineAt(s: seq<byte>, empty: Option<bool>, rest: seq<byte>) returns (i: nat)
    requires s == PrintEmptyLine(empty, rest) && rest != [] && rest[0] != CR && rest[0] != LF
    ensures i <= |s| && SkipEmptyLine(s) == Ok(i, ()) && s[i..] == rest
  {
    i := 0;
    assert s[0..] == s;
    if empty.Some? {
      i := EolAt(s, 0, empty.value, rest);
    }
  }

  lemma MethodAndPathAt(s: seq<byte>, t: Text, rest: seq<byte>) returns (k: nat, tokens: (Span, Span))
    requires s == PrintEmptyLine(t.emptyLine, PrintTokens(t, rest)) && ValidToken(t.method_) && ValidToken(t.path)
    ensures k < |s| && s[k + 1..] == rest && MethodAndPath(s) == Ok(k, tokens)
    ensures tokens.0.start + tokens.0.len <= |s| && Slice(s, tokens.0) == t.method_
    ensures tokens.1.start + tokens.1.len <= |s| && Slice(s, tokens.1) == t.path
  {
    var line := PrintTokens(t, rest);
    assert line[0] == if t.method_ != [] then t.method_[0] else SP;
    var i := EmptyLineAt(s, t.emptyLine, line);
    k, tokens := TokensAt(s, i, t, rest);
  }

  lemma LineIs(s: seq<byte>, k: nat, n: nat, tokens: (Span, Span), minor: nat)
    requires MethodAndPath(s) == Ok(k, tokens) && VersionAndEnd(s, k + 1) == Ok(n, minor)
    ensures RequestLine(s) == Ok(n, Request(tokens.0, tokens.1, minor, []))
  {
  }

  lemma LineAt(s: seq<byte>, t: Text, rest: seq<byte>) returns (n: nat, line: Request)
    requires s == PrintLine(t, rest)
    requires ValidToken(t.method_) && ValidToken(t.path) && t.minor != [] && AllDigits(t.minor)
    ensures n <= |s| && s[n..] == rest && RequestLine(s) == Ok(n, line) && line.headers == []
    ensures LineReads(s, line, t)
  {
    var k, tokens := MethodAndPathAt(s, t, PrintVersion(t.minor, t.crlf, rest));
    n := VersionAt(s, k + 1, t.minor, t.crlf, rest);
    LineIs(s, k, n, tokens, Decimal(t.minor));
    DecimalIs(t.minor);
    line := Request(tokens.0, tokens.1, Decimal(t.minor), []);
  }

  /** The parsed request names method, path and version of the text. */
  ghost predicate LineReads(s: seq<byte>, q: Request, t: Text) {
    && q.method_.start + q.method_.len <= |s| && Slice(s, q.method_) == t.method_
    && q.path.start + q.path.len <= |s| && Slice(s, q.path) == t.path
    && IsDecimal(t.minor, q.minor)
  }

  // ---------- header fields ----------

  /** The parsed header names the text of field f. */
  ghost predicate Reads(s: seq<byte>, h: Header, f: Field) {
    && h.value.start + h.value.len <= |s| && Slice(s, h.value) == f.value
    && (h.name.Some? <==> f.Named?)
    && (h.name.Some? ==> h.name.value.start + h.name.value.len <= |s| && Slice(s, h.name.value) == f.name)
  }

  ghost predicate AllRead(s: seq<byte>, hs: seq<Header>, fs: seq<Field>) {
    |hs| <= |fs| && forall k :: 0 <= k < |hs| ==> Reads(s, hs[k], fs[k])
  }

  lemma ColonAt(s: seq<byte>, i: nat, name: seq<byte>, rest: seq<byte>, signedChar: bool)
    requires i <= |s| && s[i..] == name + ([COLON] + rest) && ValidName(name, signedChar)
    ensures i + |name| + 1 <= |s| && s[i + |name| + 1..] == rest && s[i] == name[0]
    ensures FindColon(s, i, signedChar) == i + |name| && s[i + |name|] == COLON
    ensures Slice(s, Span(i, |name|)) == name
  {
    Drop(s, i, name, [COLON] + rest);
    Drop(s, i + |name|, [COLON], rest);
    assert s[i + |name|] == COLON;
    FindColonStop(s, i, signedChar);
  }

  lemma BlanksAt(s: seq<byte>, i: nat, blanks: seq<byte>, rest: seq<byte>)
    requires i <= |s| && s[i..] == blanks + rest && AllBlank(blanks) && rest != [] && !Blank(rest[0])
    ensures i + |blanks| <= |s| && s[i + |blanks|..] == rest && SkipBlanks(s, i) == i + |blanks|
  {
    Drop(s, i, blanks, rest);
    assert s[i + |blanks|] == rest[0];
    SkipBlanksStop(s, i);
  }

  lemma ValueStart(value: seq<byte>, crlf: bool, rest: seq<byte>)
    requires value != [] ==> !Blank(value[0])
    ensures value + PrintEol(crlf, rest) != [] && !Blank((value + PrintEol(crlf, rest))[0])
  {
  }

  lemma NameIs(s: seq<byte>, i: nat, first: bool, signedChar: bool, j: nat, k: nat)
    requires i < |s| && TokenChar(s[i])
    requires i <= j < |s| && FindColon(s, i, signedChar) == j && s[j] == COLON
    requires k < |s| && SkipBlanks(s, j + 1) == k
    ensures HeaderName(s, i, first, signedChar) == Ok(k, Some(Span(i, j - i)))
  {
  }

  lemma NameAt(s: seq<byte>, i: nat, name: seq<byte>, blanks: seq<byte>, tail: seq<byte>, first: bool, signedChar: bool)
    returns (k: nat)
    requires i <= |s| && s[i..] == name + ([COLON] + (blanks + tail))
    requires ValidName(name, signedChar) && AllBlank(blanks) && tail != [] && !Blank(tail[0])
    ensures i < |s| && TokenChar(s[i]) && k <= |s| && s[k..] == tail
    ensures HeaderName(s, i, first, signedChar) == Ok(k, Some(Span(i, |name|)))
    ensures i + |name| <= |s| && Slice(s, Span(i, |name|)) == name
  {
    var c := i + |name| + 1;
    ColonAt(s, i, name, blanks + tail, signedChar);
    BlanksAt(s, c, blanks, tail);
    k := c + |blanks|;
    NameIs(s, i, first, signedChar, c - 1, k);
  }

  lemma FieldAt(s: seq<byte>, i: nat, f: Field, first: bool, signedChar: bool, rest: seq<byte>)
    returns (n: nat, h: Header)
    requires i <= |s| && s[i..] == PrintField(f, rest) && ValidField(f, first, signedChar)
    ensures i < |s| && s[i] != CR && s[i] != LF
    ensures n <= |s| && s[n..] == rest
    ensures ParseHeader(s, i, first, signedChar) == Ok(n, h) && Reads(s, h, f)
  {
    if f.Named? {
      ValueStart(f.value, f.crlf, rest);
      var k := NameAt(s, i, f.name, f.blanks, f.value + PrintEol(f.crlf, rest), first, signedChar);
      n := ValueAt(s, k, f.value, f.crlf, rest);
      h := Header(Some(Span(i, |f.name|)), Span(k, |f.value|));
    } else {
      n := ValueAt(s, i, f.value, f.crlf, rest);
      assert HeaderName(s, i, first, signedChar) == Ok(i, None);
      h := Header(None, Span(i, |f.value|));
    }
  }

  /** One round of the header loop. */
  lemma HeadersStep(s: seq<byte>, i: nat, done: seq<Header>, max: nat, signedChar: bool, pos: nat, h: Header)
    requires i < |s| && s[i] != CR && s[i] != LF && |done| < max
    requires ParseHeader(s, i, done == [], signedChar) == Ok(pos, h)
    ensures ParseHeaders(s, i, done, max, signedChar) == ParseHeaders(s, pos, done + [h], max, signedChar)
  {
  }

  lemma HeadersEnd(s: seq<byte>, i: nat, done: seq<Header>, max: nat, signedChar: bool, pos: nat)
    requires i <= |s| && LineEnd(s, i) == Ok(pos, ())
    ensures ParseHeaders(s, i, done, max, signedChar) == Ok(pos, done)
  {
  }

  /** One field, and the round of the loop that reads it. */
  lemma FieldStep(s: seq<byte>, i: nat, done: seq<Header>, f: Field, max: nat, signedChar: bool, rest: seq<byte>)
    returns (pos: nat, h: Header)
    requires i <= |s| && s[i..] == PrintField(f, rest) && ValidField(f, done == [], signedChar) && |done| < max
    ensures pos <= |s| && s[pos..] == rest && Reads(s, h, f)
    ensures ParseHeaders(s, i, done, max, signedChar) == ParseHeaders(s, pos, done + [h], max, signedChar)
  {
    pos, h := FieldAt(s, i, f, done == [], signedChar, rest);
    HeadersStep(s, i, done, max, signedChar, pos, h);
  }

  lemma PrintFieldsFrom(fs: seq<Field>, k: nat, rest: seq<byte>)
    requires k < |fs|
    ensures PrintFields(fs[k..], rest) == PrintField(fs[k], PrintFields(fs[k + 1..], rest))
  {
    assert fs[k..][0] == fs[k] && fs[k..][1..] == fs[k + 1..];
  }

  /** The loop, from the k-th field on; hs are the headers already parsed. */
  lemma {:induction false} FieldsAt(s: seq<byte>, i: nat, hs: seq<Header>, fs: seq<Field>, max: nat, signedChar: bool,
                                    endCrlf: bool, tail: seq<byte>) returns (n: nat, all: seq<Header>)
    requires AllRead(s, hs, fs) && |fs| <= max && ValidFields(fs, true, signedChar)
    requires i <= |s| && s[i..] == PrintFields(fs[|hs|..], PrintEol(endCrlf, tail))
    ensures n <= |s| && s[n..] == tail && |all| == |fs| && AllRead(s, all, fs)
    ensures ParseHeaders(s, i, hs, max, signedChar) == Ok(n, all)
    decreases |fs| - |hs|
  {
    var k := |hs|;
    if k == |fs| {
      n := EolAt(s, i, endCrlf, tail);
      HeadersEnd(s, i, hs, max, signedChar, n);
      all := hs;
    } else {
      var rest := PrintFields(fs[k + 1..], PrintEol(endCrlf, tail));
      PrintFieldsFrom(fs, k, PrintEol(endCrlf, tail));
      var pos, h := FieldStep(s, i, hs, fs[k], max, signedChar, rest);
      n, all := FieldsAt(s, pos, hs + [h], fs, max, signedChar, endCrlf, tail);
    }
  }

  /** Round trip: a request followed by any tail is consumed exactly, with the same method, path, version
      and fields, if the caller provides room for the fields. */
  lemma RoundTrip(t: Text, tail: seq<byte>, max: nat, signedChar: bool) returns (n: nat, q: Request)
    requires ValidText(t, signedChar) && |t.fields| <= max
    ensures var s := Print(t, tail);
      && ParseRequest(s, max, signedChar) == Ok(n, q) && n <= |s| && s[n..] == tail
      && LineReads(s, q, t) && |q.headers| == |t.fields| && AllRead(s, q.headers, t.fields)
  {
    var s, rest := Print(t, tail), PrintFields(t.fields, PrintEol(t.endCrlf, tail));
    var i, line := LineAt(s, t, rest);
    var hs;
    assert t.fields[0..] == t.fields;
    n, hs := FieldsAt(s, i, [], t.fields, max, signedChar, t.endCrlf, tail);
    q := line.(headers := hs);
  }
}
