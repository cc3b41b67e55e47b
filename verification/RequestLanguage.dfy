/** What the request parser accepts is exactly the grammar of RequestRoundTrip. */
module RequestLanguage {
  import opened Basics
  import opened Bytes
  import opened Numerals
  import opened ChunkedDecoder
  import opened RequestParser
  import opened RequestRoundTrip

  // ---------- the parts of a line ----------

  lemma Cut(s: seq<byte>, i: nat, j: nat)
    requires i <= j <= |s|
    ensures s[i..] == s[i..j] + s[j..] && (j < |s| ==> s[j..] == [s[j]] + s[j + 1..])
    ensures forall k :: 0 <= k < j - i ==> s[i..j][k] == s[i + k]
  {
  }

  lemma EolOf(s: seq<byte>, i: nat, n: nat) returns (crlf: bool)
    requires i <= |s| && LineEnd(s, i) == Ok(n, ())
    ensures n <= |s| && s[i..] == PrintEol(crlf, s[n..])
  {
    crlf := s[i] == CR;
  }

  lemma TokenOf(s: seq<byte>, i: nat, j: nat, span: Span)
    requires i <= |s| && AdvanceToken(s, i) == Ok(j, span)
    ensures i <= j < |s| && span == Span(i, j - i) && ValidToken(s[i..j]) && s[i..] == s[i..j] + ([32] + s[j + 1..])
  {
    FindTokenEndStop(s, i);
    Cut(s, i, j);
  }

  lemma ValueBetween(s: seq<byte>, i: nat, j: nat)
    requires i <= |s| && j == FindControl(s, i)
    ensures ValidValue(s[i..j])
  {
    var value := s[i..j];
    FindControlStop(s, i);
    forall k | 0 <= k < |value|
      ensures (value[k] >= 32 && value[k] != 127) || value[k] == 9
    {
      assert !Control(s[i + k]);
    }
  }

  lemma ValueOf(s: seq<byte>, i: nat, n: nat, span: Span) returns (value: seq<byte>, crlf: bool)
    requires i <= |s| && TokenToEol(s, i) == Ok(n, span)
    ensures i < n <= |s| && span == Span(i, |value|) && i + |value| <= |s| && Slice(s, span) == value
    ensures ValidValue(value) && s[i..] == value + PrintEol(crlf, s[n..])
  {
    var j := FindControl(s, i);
    crlf := EolOf(s, j, n);
    value := s[i..j];
    Cut(s, i, j);
    ValueBetween(s, i, j);
  }

  lemma {:induction false} CharsOf(chars: seq<byte>, s: seq<byte>, i: nat)
    requires i <= |s| && ExpectChars(chars, s, i).Ok?
    ensures i + |chars| <= |s| && s[i..] == chars + s[i + |chars|..]
    ensures ExpectChars(chars, s, i) == Ok(i + |chars|, ())
    decreases |chars|
  {
    if chars == [] {
      assert [] + s[i..] == s[i..];
    } else {
      CharsOf(chars[1..], s, i + 1);
      OneChar(s, i, chars, s[i + |chars|..]);
    }
  }

  lemma OneChar(s: seq<byte>, i: nat, chars: seq<byte>, rest: seq<byte>)
    requires i < |s| && chars != [] && s[i] == chars[0] && s[i + 1..] == chars[1..] + rest
    ensures s[i..] == chars + rest
  {
    assert s[i..] == [s[i]] + s[i + 1..];
  }

  lemma IntOf(s: seq<byte>, i: nat, j: nat, v: nat)
    requires i <= |s| && ParseInt(s, i) == Ok(j, v)
    ensures i < j < |s| && AllDigits(s[i..j]) && v == Decimal(s[i..j])
  {
    FindNonDigitStop(s, i);
    assert forall k :: 0 <= k < j - i ==> s[i..j][k] == s[i + k];
  }

  lemma VersionOf(s: seq<byte>, i: nat, n: nat, v: nat) returns (minor: seq<byte>, crlf: bool)
    requires i <= |s| && VersionAndEnd(s, i) == Ok(n, v)
    ensures n <= |s| && minor != [] && AllDigits(minor) && IsDecimal(minor, v)
    ensures s[i..] == PrintVersion(minor, crlf, s[n..])
  {
    var j := ParseHttpVersion(s, i).pos;
    CharsOf(HTTP_1, s, i);
    IntOf(s, i + 7, j, v);
    minor := s[i + 7..j];
    DecimalIs(minor);
    crlf := EolOf(s, j, n);
    Cut(s, i + 7, j);
  }

  // ---------- the request line ----------

  lemma EmptyLineOf(s: seq<byte>, i: nat) returns (empty: Option<bool>)
    requires SkipEmptyLine(s) == Ok(i, ())
    ensures i <= |s| && s == PrintEmptyLine(empty, s[i..])
  {
    if s[0] != CR && s[0] != LF {
      empty := None;
    } else {
      var crlf := EolOf(s, 0, i);
      empty := Some(crlf);
      assert s[0..] == s;
    }
  }

  lemma TokensOf(s: seq<byte>, i: nat, k: nat, tokens: (Span, Span)) returns (m: seq<byte>, p: seq<byte>)
    requires i <= |s| && TwoTokens(s, i) == Ok(k, tokens)
    ensures k < |s| && ValidToken(m) && ValidToken(p) && s[i..] == m + ([32] + (p + ([32] + s[k + 1..])))
    ensures tokens.0.start + tokens.0.len <= |s| && Slice(s, tokens.0) == m
    ensures tokens.1.start + tokens.1.len <= |s| && Slice(s, tokens.1) == p
  {
    var j := AdvanceToken(s, i).pos;
    TokenOf(s, i, j, tokens.0);
    TokenOf(s, j + 1, k, tokens.1);
    m, p := s[i..j], s[j + 1..k];
  }

  lemma LineParts(s: seq<byte>, n: nat, q: Request) returns (i: nat, k: nat)
    requires RequestLine(s) == Ok(n, q)
    ensures i <= |s| && SkipEmptyLine(s) == Ok(i, ()) && TwoTokens(s, i) == Ok(k, (q.method_, q.path))
    ensures k < |s| && VersionAndEnd(s, k + 1) == Ok(n, q.minor) && q.headers == []
  {
    i, k := SkipEmptyLine(s).pos, MethodAndPath(s).pos;
  }

  lemma TextIs(s: seq<byte>, q: Request, empty: Option<bool>, m: seq<byte>, p: seq<byte>, minor: seq<byte>, crlf: bool,
               line: seq<byte>, version: seq<byte>, rest: seq<byte>)
    returns (t: Text)
    requires s == PrintEmptyLine(empty, line) && line == m + ([32] + (p + ([32] + version)))
    requires version == PrintVersion(minor, crlf, rest)
    requires ValidToken(m) && ValidToken(p) && minor != [] && AllDigits(minor) && IsDecimal(minor, q.minor)
    requires q.method_.start + q.method_.len <= |s| && Slice(s, q.method_) == m
    requires q.path.start + q.path.len <= |s| && Slice(s, q.path) == p
    ensures t.fields == [] && ValidText(t, false) && s == PrintLine(t, rest) && LineReads(s, q, t)
  {
    t := Text(empty, m, p, minor, crlf, [], true);
  }

  lemma LineOf(s: seq<byte>, n: nat, q: Request) returns (t: Text)
    requires RequestLine(s) == Ok(n, q)
    ensures n <= |s| && t.fields == [] && ValidText(t, false) && s == PrintLine(t, s[n..]) && LineReads(s, q, t)
    ensures q.headers == []
  {
    var i, k := LineParts(s, n, q);
    var minor, crlf := VersionOf(s, k + 1, n, q.minor);
    t := LineFrom(s, i, k, q, minor, crlf, s[k + 1..], s[n..]);
  }

  lemma LineFrom(s: seq<byte>, i: nat, k: nat, q: Request, minor: seq<byte>, crlf: bool,
                 version: seq<byte>, rest: seq<byte>)
    returns (t: Text)
    requires i <= |s| && TwoTokens(s, i) == Ok(k, (q.method_, q.path)) && k < |s| && version == s[k + 1..]
    requires minor != [] && AllDigits(minor) && IsDecimal(minor, q.minor) && version == PrintVersion(minor, crlf, rest)
    requires SkipEmptyLine(s) == Ok(i, ())
    ensures t.fields == [] && ValidText(t, false) && s == PrintLine(t, rest) && LineReads(s, q, t)
  {
    var empty := EmptyLineOf(s, i);
    var m, p := TokensOf(s, i, k, (q.method_, q.path));
    t := TextIs(s, q, empty, m, p, minor, crlf, s[i..], version, rest);
  }

  // ---------- header fields ----------

  lemma FoldedOf(s: seq<byte>, i: nat, n: nat, h: Header, signedChar: bool) returns (f: Field)
    requires i < |s| && (s[i] == SP || s[i] == HT) && ParseHeader(s, i, false, signedChar) == Ok(n, h)
    ensures n <= |s| && ValidField(f, false, signedChar) && s[i..] == PrintField(f, s[n..]) && Reads(s, h, f)
  {
    var value, crlf := ValueOf(s, i, n, h.value);
    assert s[i..][0] == s[i] && PrintEol(crlf, s[n..])[0] == if crlf then 13 else 10;
    f := Folded(value, crlf);
  }

  lemma NameOf(s: seq<byte>, i: nat, j: nat, signedChar: bool) returns (name: seq<byte>)
    requires i < |s| && TokenChar(s[i]) && FindColon(s, i, signedChar) == j < |s| && s[j] == COLON
    ensures ValidName(name, signedChar) && s[i..] == name + ([58] + s[j + 1..])
    ensures i + |name| == j && Slice(s, Span(i, j - i)) == name
  {
    FindColonStop(s, i, signedChar);
    CharacterClasses(s[i], signedChar);
    Cut(s, i, j);
    name := s[i..j];
    forall x | 0 <= x < j - i
      ensures name[x] != 58 && 32 <= name[x] && (signedChar ==> name[x] < 128)
    {
      CharacterClasses(s[i + x], signedChar);
    }
  }

  lemma BlanksOf(s: seq<byte>, j: nat, k: nat) returns (blanks: seq<byte>)
    requires j <= |s| && SkipBlanks(s, j) == k < |s|
    ensures AllBlank(blanks) && s[j..] == blanks + s[k..] && !Blank(s[k])
  {
    SkipBlanksStop(s, j);
    Cut(s, j, k);
    blanks := s[j..k];
  }

  lemma NameParts(s: seq<byte>, i: nat, k: nat, name: Span, first: bool, signedChar: bool) returns (j: nat)
    requires i < |s| && HeaderName(s, i, first, signedChar) == Ok(k, Some(name))
    ensures TokenChar(s[i]) && FindColon(s, i, signedChar) == j < |s| && s[j] == COLON
    ensures name == Span(i, j - i) && SkipBlanks(s, j + 1) == k < |s|
  {
    j := FindColon(s, i, signedChar);
  }

  lemma HeaderParts(s: seq<byte>, i: nat, n: nat, h: Header, first: bool, signedChar: bool) returns (k: nat)
    requires i < |s| && ParseHeader(s, i, first, signedChar) == Ok(n, h)
    ensures HeaderName(s, i, first, signedChar) == Ok(k, h.name) && k <= |s| && TokenToEol(s, k) == Ok(n, h.value)
  {
    k := HeaderName(s, i, first, signedChar).pos;
  }

  lemma NamedIs(f: Field, first: bool, signedChar: bool, line: seq<byte>, x: seq<byte>, y: seq<byte>, rest: seq<byte>)
    requires f.Named? && ValidName(f.name, signedChar) && AllBlank(f.blanks) && ValidValue(f.value)
    requires line == f.name + ([58] + x) && x == f.blanks + y && y == f.value + PrintEol(f.crlf, rest) && !Blank(y[0])
    ensures ValidField(f, first, signedChar) && line == PrintField(f, rest)
  {
    assert f.value != [] ==> y[0] == f.value[0];
  }

  lemma NamedOf(s: seq<byte>, i: nat, n: nat, h: Header, first: bool, signedChar: bool) returns (f: Field)
    requires i < |s| && ParseHeader(s, i, first, signedChar) == Ok(n, h) && h.name.Some?
    ensures n <= |s| && ValidField(f, first, signedChar) && s[i..] == PrintField(f, s[n..]) && Reads(s, h, f)
  {
    var k := HeaderParts(s, i, n, h, first, signedChar);
    var j := NameParts(s, i, k, h.name.value, first, signedChar);
    var name := NameOf(s, i, j, signedChar);
    var blanks := BlanksOf(s, j + 1, k);
    var value, crlf := ValueOf(s, k, n, h.value);
    f := Named(name, blanks, value, crlf);
    assert s[k..][0] == s[k];
    NamedIs(f, first, signedChar, s[i..], s[j + 1..], s[k..], s[n..]);
  }

  lemma FieldOf(s: seq<byte>, i: nat, n: nat, h: Header, first: bool, signedChar: bool) returns (f: Field)
    requires i < |s| && ParseHeader(s, i, first, signedChar) == Ok(n, h)
    ensures n <= |s| && ValidField(f, first, signedChar) && s[i..] == PrintField(f, s[n..]) && Reads(s, h, f)
  {
    if h.name.Some? {
      f := NamedOf(s, i, n, h, first, signedChar);
    } else {
      f := FoldedOf(s, i, n, h, signedChar);
    }
  }

  lemma MoreFields(f: Field, fs: seq<Field>, first: bool, signedChar: bool, rest: seq<byte>)
    requires ValidField(f, first, signedChar) && ValidFields(fs, false, signedChar)
    ensures ValidFields([f] + fs, first, signedChar)
    ensures PrintFields([f] + fs, rest) == PrintField(f, PrintFields(fs, rest))
  {
    assert ([f] + fs)[1..] == fs;
  }

  lemma MoreRead(s: seq<byte>, done: seq<Header>, h: Header, f: Field, hs: seq<Header>, fs: seq<Field>)
    requires Reads(s, h, f) && |hs| == |done| + 1 + |fs| && hs[..|done| + 1] == done + [h]
    requires AllRead(s, hs[|done| + 1..], fs)
    ensures hs[..|done|] == done && AllRead(s, hs[|done|..], [f] + fs)
  {
    assert hs[|done|] == (done + [h])[|done|] == h;
    assert hs[..|done|] == hs[..|done| + 1][..|done|];
    forall k | 0 <= k < |fs| + 1
      ensures Reads(s, hs[|done|..][k], ([f] + fs)[k])
    {
      if k > 0 {
        assert hs[|done|..][k] == hs[|done| + 1..][k - 1];
      }
    }
  }

  /** The fields that the rounds of the loop from done on have read. */
  lemma {:induction false} FieldsOf(s: seq<byte>, i: nat, done: seq<Header>, max: nat, signedChar: bool, n: nat,
                                    hs: seq<Header>)
    returns (fs: seq<Field>, endCrlf: bool)
    requires i <= |s| && |done| <= max && ParseHeaders(s, i, done, max, signedChar) == Ok(n, hs)
    ensures n <= |s| && ValidFields(fs, done == [], signedChar) && s[i..] == PrintFields(fs, PrintEol(endCrlf, s[n..]))
    ensures |hs| == |done| + |fs| <= max && hs[..|done|] == done && AllRead(s, hs[|done|..], fs)
    decreases |s| - i
  {
    if LineEnd(s, i).Ok? {
      endCrlf := EolOf(s, i, n);
      fs := [];
    } else {
      var first := done == [];
      var r := ParseHeader(s, i, first, signedChar);
      var f := FieldOf(s, i, r.pos, r.value, first, signedChar);
      fs, endCrlf := FieldsOf(s, r.pos, done + [r.value], max, signedChar, n, hs);
      MoreFields(f, fs, first, signedChar, PrintEol(endCrlf, s[n..]));
      MoreRead(s, done, r.value, f, hs, fs);
      fs := [f] + fs;
    }
  }

  // ---------- whole requests ----------

  /** Whatever is accepted is a request of the grammar, and what comes behind it. */
  lemma RequestOf(s: seq<byte>, max: nat, signedChar: bool, n: nat, q: Request) returns (t: Text)
    requires ParseRequest(s, max, signedChar) == Ok(n, q)
    ensures n <= |s| && ValidText(t, signedChar) && |t.fields| <= max && s == Print(t, s[n..])
    ensures LineReads(s, q, t) && |q.headers| == |t.fields| && AllRead(s, q.headers, t.fields)
  {
    var i, line := RequestLine(s).pos, RequestLine(s).value;
    t := LineOf(s, i, line);
    var fs, endCrlf := FieldsOf(s, i, [], max, signedChar, n, q.headers);
    t := t.(fields := fs, endCrlf := endCrlf);
    assert q.headers[0..] == q.headers;
  }

  /** s is the text of a request with at most max fields, and tail. */
  ghost predicate IsRequest(s: seq<byte>, t: Text, tail: seq<byte>, max: nat, signedChar: bool) {
    ValidText(t, signedChar) && |t.fields| <= max && s == Print(t, tail)
  }

  lemma RequestAccepted(s: seq<byte>, t: Text, tail: seq<byte>, max: nat, signedChar: bool)
    requires IsRequest(s, t, tail, max, signedChar)
    ensures ParseRequest(s, max, signedChar).Ok?
  {
    var n, q := RoundTrip(t, tail, max, signedChar);
  }

  lemma RequestFound(s: seq<byte>, max: nat, signedChar: bool) returns (t: Text, tail: seq<byte>)
    requires ParseRequest(s, max, signedChar).Ok?
    ensures IsRequest(s, t, tail, max, signedChar)
  {
    var r := ParseRequest(s, max, signedChar);
    t := RequestOf(s, max, signedChar, r.pos, r.value);
    tail := s[r.pos..];
  }

  /** A request is accepted if and only if it is one of the grammar, with no more fields than there is room for. */
  lemma AcceptsExactly(s: seq<byte>, max: nat, signedChar: bool)
    ensures ParseRequest(s, max, signedChar).Ok? <==> exists t, tail :: IsRequest(s, t, tail, max, signedChar)
  {
    if ParseRequest(s, max, signedChar).Ok? {
      var t, tail := RequestFound(s, max, signedChar);
    }
    if t, tail :| IsRequest(s, t, tail, max, signedChar) {
      RequestAccepted(s, t, tail, max, signedChar);
    }
  }
}
