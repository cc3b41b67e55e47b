/** Parsing a request again and again while it arrives is parsing it once. */
module RequestStability {
  import opened Bytes
  import opened ChunkedDecoder
  import opened RequestParser

  // ---------- stability: more input never changes an answer ----------

  /** r is the answer on a prefix of length n, r' on the whole buffer. An answer stays; if none was
      possible yet, a later success lies at or after the end of the prefix. */
  ghost predicate Extends<T>(r: Scan<T>, r': Scan<T>, n: nat) {
    (!r.More? ==> r' == r) && (r.More? && r'.Ok? ==> r'.pos >= n)
  }

  lemma {:induction false} FindControlExtends(s: seq<byte>, t: seq<byte>, i: nat)
    requires i <= |s|
    ensures var j := FindControl(s, i);
      if j < |s| then FindControl(s + t, i) == j else FindControl(s + t, i) >= |s|
    decreases |s| - i
  {
    if i < |s| {
      assert (s + t)[i] == s[i];
      if !Control(s[i]) {
        FindControlExtends(s, t, i + 1);
      }
    }
  }

  lemma {:induction false} FindTokenEndExtends(s: seq<byte>, t: seq<byte>, i: nat)
    requires i <= |s|
    ensures var j := FindTokenEnd(s, i);
      if j < |s| then FindTokenEnd(s + t, i) == j else FindTokenEnd(s + t, i) >= |s|
    decreases |s| - i
  {
    if i < |s| {
      assert (s + t)[i] == s[i];
      if s[i] > SP && s[i] != DEL {
        FindTokenEndExtends(s, t, i + 1);
      }
    }
  }

  lemma {:induction false} FindNonDigitExtends(s: seq<byte>, t: seq<byte>, i: nat)
    requires i <= |s|
    ensures var j := FindNonDigit(s, i);
      if j < |s| then FindNonDigit(s + t, i) == j else FindNonDigit(s + t, i) >= |s|
    decreases |s| - i
  {
    if i < |s| {
      assert (s + t)[i] == s[i];
      if Digit(s[i]) {
        FindNonDigitExtends(s, t, i + 1);
      }
    }
  }

  lemma {:induction false} FindColonExtends(s: seq<byte>, t: seq<byte>, i: nat, signedChar: bool)
    requires i <= |s|
    ensures var j := FindColon(s, i, signedChar);
      if j < |s| then FindColon(s + t, i, signedChar) == j else FindColon(s + t, i, signedChar) >= |s|
    decreases |s| - i
  {
    if i < |s| {
      assert (s + t)[i] == s[i];
      if s[i] != COLON && !BelowSpace(s[i], signedChar) {
        FindColonExtends(s, t, i + 1, signedChar);
      }
    }
  }

  lemma {:induction false} SkipBlanksExtends(s: seq<byte>, t: seq<byte>, i: nat)
    requires i <= |s|
    ensures var j := SkipBlanks(s, i);
      if j < |s| then SkipBlanks(s + t, i) == j else SkipBlanks(s + t, i) >= |s|
    decreases |s| - i
  {
    if i < |s| {
      assert (s + t)[i] == s[i];
      if s[i] == SP || s[i] == HT {
        SkipBlanksExtends(s, t, i + 1);
      }
    }
  }

  lemma LineEndExtends(s: seq<byte>, t: seq<byte>, i: nat)
    requires i <= |s|
    ensures Extends(LineEnd(s, i), LineEnd(s + t, i), |s| + 1)
  {
  }

  lemma TokenToEolExtends(s: seq<byte>, t: seq<byte>, i: nat)
    requires i <= |s|
    ensures Extends(TokenToEol(s, i), TokenToEol(s + t, i), |s| + 1)
  {
    FindControlExtends(s, t, i);
    LineEndExtends(s, t, FindControl(s, i));
  }

  lemma AdvanceTokenExtends(s: seq<byte>, t: seq<byte>, i: nat)
    requires i <= |s|
    ensures Extends(AdvanceToken(s, i), AdvanceToken(s + t, i), |s|)
  {
    FindTokenEndExtends(s, t, i);
  }

  lemma ParseIntExtends(s: seq<byte>, t: seq<byte>, i: nat)
    requires i <= |s|
    ensures Extends(ParseInt(s, i), ParseInt(s + t, i), |s|)
  {
    FindNonDigitExtends(s, t, i);
    var j := FindNonDigit(s, i);
    if j < |s| {
      assert (s + t)[i..j] == s[i..j];
    }
  }

  lemma {:induction false} ExpectCharsExtends(chars: seq<byte>, s: seq<byte>, t: seq<byte>, i: nat)
    requires i <= |s|
    ensures Extends(ExpectChars(chars, s, i), ExpectChars(chars, s + t, i), |s|)
    decreases |chars|
  {
    if chars != [] && i < |s| {
      assert (s + t)[i] == s[i];
      if s[i] == chars[0] {
        ExpectCharsExtends(chars[1..], s, t, i + 1);
      }
    }
  }

  lemma ParseHttpVersionExtends(s: seq<byte>, t: seq<byte>, i: nat)
    requires i <= |s|
    ensures Extends(ParseHttpVersion(s, i), ParseHttpVersion(s + t, i), |s|)
  {
    ExpectCharsExtends(HTTP_1, s, t, i);
    var r := ExpectChars(HTTP_1, s, i);
    if r.Ok? {
      ParseIntExtends(s, t, r.pos);
    }
  }

  lemma HeaderNameExtends(s: seq<byte>, t: seq<byte>, i: nat, first: bool, signedChar: bool)
    requires i < |s|
    ensures Extends(HeaderName(s, i, first, signedChar), HeaderName(s + t, i, first, signedChar), |s|)
  {
    assert (s + t)[i] == s[i];
    FindColonExtends(s, t, i, signedChar);
    var j := FindColon(s, i, signedChar);
    if j < |s| {
      SkipBlanksExtends(s, t, j + 1);
    }
  }

  lemma ParseHeaderExtends(s: seq<byte>, t: seq<byte>, i: nat, first: bool, signedChar: bool)
    requires i < |s|
    ensures Extends(ParseHeader(s, i, first, signedChar), ParseHeader(s + t, i, first, signedChar), |s| + 1)
  {
    HeaderNameExtends(s, t, i, first, signedChar);
    var r := HeaderName(s, i, first, signedChar);
    if r.Ok? {
      TokenToEolExtends(s, t, r.pos);
    }
  }

  lemma {:induction false} ParseHeadersExtends(s: seq<byte>, t: seq<byte>, i: nat, done: seq<Header>, max: nat,
                                               signedChar: bool)
    requires i <= |s|
    ensures Extends(ParseHeaders(s, i, done, max, signedChar), ParseHeaders(s + t, i, done, max, signedChar), |s| + 1)
    decreases |s| - i
  {
    LineEndExtends(s, t, i);
    if LineEnd(s, i).Bad? && s[i] != CR && |done| != max {
      assert (s + t)[i] == s[i];
      ParseHeaderExtends(s, t, i, done == [], signedChar);
      var r := ParseHeader(s, i, done == [], signedChar);
      if r.Ok? {
        ParseHeadersExtends(s, t, r.pos, done + [r.value], max, signedChar);
      }
    }
  }

  lemma TwoTokensExtends(s: seq<byte>, t: seq<byte>, i: nat)
    requires i <= |s|
    ensures Extends(TwoTokens(s, i), TwoTokens(s + t, i), |s|)
  {
    AdvanceTokenExtends(s, t, i);
    var r := AdvanceToken(s, i);
    if r.Ok? {
      AdvanceTokenExtends(s, t, r.pos + 1);
    }
  }

  lemma SkipEmptyLineExtends(s: seq<byte>, t: seq<byte>)
    ensures Extends(SkipEmptyLine(s), SkipEmptyLine(s + t), if s == [] then 0 else |s|)
  {
    LineEndExtends(s, t, 0);
  }

  lemma MethodAndPathExtends(s: seq<byte>, t: seq<byte>)
    ensures Extends(MethodAndPath(s), MethodAndPath(s + t), |s|)
  {
    SkipEmptyLineExtends(s, t);
    var r := SkipEmptyLine(s);
    if r.Ok? {
      TwoTokensExtends(s, t, r.pos);
    }
  }

  lemma VersionAndEndExtends(s: seq<byte>, t: seq<byte>, i: nat)
    requires i <= |s|
    ensures Extends(VersionAndEnd(s, i), VersionAndEnd(s + t, i), |s| + 1)
  {
    ParseHttpVersionExtends(s, t, i);
    var r := ParseHttpVersion(s, i);
    if r.Ok? {
      LineEndExtends(s, t, r.pos);
    }
  }

  /** The tokens of the request line are there: the rest decides. */
  lemma BehindTokens(s: seq<byte>, t: seq<byte>, a: Scan<(Span, Span)>)
    requires a.Ok? && MethodAndPath(s) == a && MethodAndPath(s + t) == a
    ensures Extends(RequestLine(s), RequestLine(s + t), |s| + 1)
  {
    VersionAndEndExtends(s, t, a.pos + 1);
  }

  /** They are not there yet. */
  lemma BeforeTokens(s: seq<byte>, t: seq<byte>)
    requires MethodAndPath(s).More? && Extends(MethodAndPath(s), MethodAndPath(s + t), |s|)
    ensures Extends(RequestLine(s), RequestLine(s + t), |s| + 1)
  {
    LineBehindTokens(s + t);
  }

  lemma LineBehindTokens(s: seq<byte>)
    ensures RequestLine(s).Ok? ==> MethodAndPath(s).Ok? && RequestLine(s).pos > MethodAndPath(s).pos + 1
  {
  }

  lemma RequestLineExtends(s: seq<byte>, t: seq<byte>)
    ensures Extends(RequestLine(s), RequestLine(s + t), |s| + 1)
  {
    MethodAndPathExtends(s, t);
    match MethodAndPath(s)
    case Bad =>
    case More => BeforeTokens(s, t);
    case Ok(_, _) => BehindTokens(s, t, MethodAndPath(s));
  }

  /** Success or failure on a prefix is the result on every longer buffer; and a success that needs
      more than the prefix reads past its end. */
  lemma ParseRequestExtends(s: seq<byte>, t: seq<byte>, max: nat, signedChar: bool)
    ensures Extends(ParseRequest(s, max, signedChar), ParseRequest(s + t, max, signedChar), |s| + 1)
  {
    RequestLineExtends(s, t);
    var r := RequestLine(s);
    if r.Ok? {
      ParseHeadersExtends(s, t, r.pos, [], max, signedChar);
    }
  }

  // ---------- what a successful parse says about line ends ----------

  /** Every CR is followed by LF. */
  ghost predicate NoLoneCr(s: seq<byte>, i: nat, n: nat)
    requires n <= |s|
  {
    forall k :: i <= k < n && s[k] == CR ==> k + 1 < n && s[k + 1] == LF
  }

  lemma LineEndShape(s: seq<byte>, i: nat)
    requires i <= |s| && LineEnd(s, i).Ok?
    ensures var n := LineEnd(s, i).pos;
      i < n <= i + 2 && n <= |s| && s[n - 1] == LF && NoLoneCr(s, i, n)
  {
  }

  lemma TokenToEolShape(s: seq<byte>, i: nat)
    requires i <= |s| && TokenToEol(s, i).Ok?
    ensures var n := TokenToEol(s, i).pos;
      s[n - 1] == LF && NoLoneCr(s, i, n)
  {
    FindControlStop(s, i);
    LineEndShape(s, FindControl(s, i));
  }

  lemma HeaderNameShape(s: seq<byte>, i: nat, first: bool, signedChar: bool)
    requires i < |s| && HeaderName(s, i, first, signedChar).Ok?
    ensures forall k :: i <= k < HeaderName(s, i, first, signedChar).pos ==> s[k] != CR
  {
    FindColonStop(s, i, signedChar);
    var j := FindColon(s, i, signedChar);
    if j < |s| {
      SkipBlanksStop(s, j + 1);
    }
  }

  lemma ParseHeaderShape(s: seq<byte>, i: nat, first: bool, signedChar: bool)
    requires i < |s| && ParseHeader(s, i, first, signedChar).Ok?
    ensures var n := ParseHeader(s, i, first, signedChar).pos;
      s[n - 1] == LF && NoLoneCr(s, i, n)
  {
    HeaderNameShape(s, i, first, signedChar);
    TokenToEolShape(s, HeaderName(s, i, first, signedChar).pos);
  }

  /** The header section ends with an empty line, which starts at e. */
  lemma {:induction false} ParseHeadersShape(s: seq<byte>, i: nat, done: seq<Header>, max: nat, signedChar: bool)
    returns (e: nat)
    requires 0 < i <= |s| && s[i - 1] == LF
    requires ParseHeaders(s, i, done, max, signedChar).Ok?
    ensures var n := ParseHeaders(s, i, done, max, signedChar).pos;
      i <= e < n && s[e - 1] == LF && LineEnd(s, e) == Ok(n, ()) && NoLoneCr(s, i, n)
    decreases |s| - i
  {
    if LineEnd(s, i).Ok? {
      LineEndShape(s, i);
      return i;
    }
    var r := ParseHeader(s, i, done == [], signedChar);
    ParseHeaderShape(s, i, done == [], signedChar);
    e := ParseHeadersShape(s, r.pos, done + [r.value], max, signedChar);
  }

  lemma {:induction false} ExpectCharsShape(chars: seq<byte>, s: seq<byte>, i: nat)
    requires i <= |s| && ExpectChars(chars, s, i).Ok?
    ensures i + |chars| <= |s| && s[i..i + |chars|] == chars
    decreases |chars|
  {
    if chars != [] {
      ExpectCharsShape(chars[1..], s, i + 1);
      assert s[i..i + |chars|] == [s[i]] + s[i + 1..i + |chars|];
    }
  }

  lemma VersionAndEndShape(s: seq<byte>, i: nat)
    requires i <= |s| && VersionAndEnd(s, i).Ok?
    ensures var n := VersionAndEnd(s, i).pos;
      s[n - 1] == LF && NoLoneCr(s, i, n)
  {
    ExpectCharsShape(HTTP_1, s, i);
    var m := ParseHttpVersion(s, i).pos;
    FindNonDigitStop(s, i + |HTTP_1|);
    forall k | i <= k < m
      ensures s[k] != CR
    {
      if k < i + |HTTP_1| {
        assert s[k] == s[i..i + |HTTP_1|][k - i] == HTTP_1[k - i];
      } else {
        assert Digit(s[k]);
      }
    }
    LineEndShape(s, m);
  }

  lemma MethodAndPathShape(s: seq<byte>)
    requires MethodAndPath(s).Ok?
    ensures NoLoneCr(s, 0, MethodAndPath(s).pos + 1) && s[MethodAndPath(s).pos] != CR
  {
    var i := SkipEmptyLine(s).pos;
    if i > 0 {
      LineEndShape(s, 0);
    }
    TwoTokensShape(s, i);
  }

  lemma RequestLineParts(s: seq<byte>, k: nat, n: nat)
    requires MethodAndPath(s).Ok? && k == MethodAndPath(s).pos + 1
    requires VersionAndEnd(s, k).Ok? && n == VersionAndEnd(s, k).pos
    ensures s[n - 1] == LF && NoLoneCr(s, 0, n)
  {
    MethodAndPathShape(s);
    VersionAndEndShape(s, k);
  }

  lemma RequestLineShape(s: seq<byte>) returns (n: nat)
    requires RequestLine(s).Ok?
    ensures n == RequestLine(s).pos && s[n - 1] == LF && NoLoneCr(s, 0, n)
  {
    var k := MethodAndPath(s).pos + 1;
    n := VersionAndEnd(s, k).pos;
    RequestLineParts(s, k, n);
  }

  lemma TwoTokensShape(s: seq<byte>, i: nat)
    requires i <= |s| && TwoTokens(s, i).Ok?
    ensures forall k :: i <= k <= TwoTokens(s, i).pos ==> s[k] != CR
  {
    FindTokenEndStop(s, i);
    FindTokenEndStop(s, AdvanceToken(s, i).pos + 1);
  }

  /** A successful parse stops after an empty line that follows a line end, with every CR before an LF. */
  lemma ParseRequestShape(s: seq<byte>, max: nat, signedChar: bool) returns (e: nat)
    requires ParseRequest(s, max, signedChar).Ok?
    ensures var n := ParseRequest(s, max, signedChar).pos;
      0 < e < n && s[e - 1] == LF && LineEnd(s, e) == Ok(n, ()) && NoLoneCr(s, 0, n)
  {
    var i := RequestLineShape(s);
    e := ParseHeadersShape(s, i, [], max, signedChar);
  }

  // ---------- the quick test agrees with the parser ----------

  lemma {:induction false} ScanReaches(s: seq<byte>, i: nat, count: nat, e: nat, n: nat)
    requires 0 < e < n <= |s| && s[e - 1] == LF && LineEnd(s, e) == Ok(n, ()) && NoLoneCr(s, i, n)
    requires count <= 1 && (i < e || (i == e && count == 1))
    ensures ScanComplete(s, i, count).Ok?
    decreases n - i
  {
    if i < e && count == 0 && (s[i] == CR || s[i] == LF) {
      ScanReaches(s, LineEnd(s, i).pos, 1, e, n);
    } else if i < e && s[i] != CR && s[i] != LF {
      ScanReaches(s, i + 1, 0, e, n);
    }
  }

  lemma {:induction false} ScanNotBad(s: seq<byte>, i: nat, count: nat)
    requires i <= |s|
    requires forall k :: i <= k && k + 1 < |s| && s[k] == CR ==> s[k + 1] == LF
    ensures !ScanComplete(s, i, count).Bad?
    decreases |s| - i
  {
    if i < |s| {
      if s[i] == CR && i + 1 < |s| {
        ScanNotBad(s, i + 2, count + 1);
      } else if s[i] == LF {
        ScanNotBad(s, i + 1, count + 1);
      } else if s[i] != CR {
        ScanNotBad(s, i + 1, 0);
      }
    }
  }

  lemma QuickTestPasses(s: seq<byte>, lastLen: nat, e: nat, n: nat)
    requires 0 < e < n <= |s| && s[e - 1] == LF && LineEnd(s, e) == Ok(n, ()) && NoLoneCr(s, 0, n)
    requires lastLen < n
    ensures IsComplete(s, lastLen).Ok?
  {
    LineEndShape(s, e);
    ScanReaches(s, if lastLen < 3 then 0 else lastLen - 3, 0, e, n);
  }

  /** The quick test finds nothing but empty lines: what it ends with is a line end right behind another one. */
  lemma {:induction false} QuickTestFinds(s: seq<byte>, i: nat, count: nat) returns (e: nat)
    requires i <= |s| && count <= 1 && (count == 1 ==> i > 0 && s[i - 1] == LF) && ScanComplete(s, i, count).Ok?
    ensures 0 < e <= |s| && s[e - 1] == LF && LineEnd(s, e) == Ok(ScanComplete(s, i, count).pos, ())
    decreases |s| - i
  {
    if LineEnd(s, i).Ok? {
      var n := LineEnd(s, i).pos;
      LineEndShape(s, i);
      if count == 1 {
        e := i;
      } else {
        e := QuickTestFinds(s, n, 1);
      }
    } else {
      e := QuickTestFinds(s, i + 1, 0);
    }
  }

  /** There is an empty line. */
  ghost predicate HasEmptyLine(s: seq<byte>) {
    exists e :: 0 < e <= |s| && s[e - 1] == LF && LineEnd(s, e).Ok?
  }

  /** On a further attempt, a buffer without an empty line is not parsed at all: as long as no CR stands alone, the
      answer is to wait, even where a parse would reject it. */
  lemma WaitsForEmptyLine(s: seq<byte>, max: nat, lastLen: nat, signedChar: bool)
    requires 0 < lastLen <= |s| && !HasEmptyLine(s)
    ensures !PhrParseRequest(s, max, lastLen, signedChar).Ok?
    ensures NoLoneCr(s, 0, |s|) ==> PhrParseRequest(s, max, lastLen, signedChar).More?
  {
    var from := if lastLen < 3 then 0 else lastLen - 3;
    if IsComplete(s, lastLen).Ok? {
      var e := QuickTestFinds(s, from, 0);
    }
    if NoLoneCr(s, 0, |s|) {
      ScanNotBad(s, from, 0);
    }
  }

  /** If the first lastLen bytes were incomplete, the quick test lets every successful parse through. */
  lemma QuickTestHarmless(s: seq<byte>, lastLen: nat, max: nat, signedChar: bool)
    requires lastLen <= |s| && ParseRequest(s[..lastLen], max, signedChar).More?
    requires ParseRequest(s, max, signedChar).Ok?
    ensures PhrParseRequest(s, max, lastLen, signedChar) == ParseRequest(s, max, signedChar)
  {
    OnPrefix(s, lastLen, max, signedChar);
    var e := ParseRequestShape(s, max, signedChar);
    QuickTestPasses(s, lastLen, e, ParseRequest(s, max, signedChar).pos);
  }

  lemma OnPrefix(s: seq<byte>, m: nat, max: nat, signedChar: bool)
    requires m <= |s|
    ensures Extends(ParseRequest(s[..m], max, signedChar), ParseRequest(s, max, signedChar), m + 1)
  {
    assert s == s[..m] + s[m..];
    ParseRequestExtends(s[..m], s[m..], max, signedChar);
  }

  // ---------- a request that arrives in pieces ----------

  /** The caller tries on longer and longer prefixes until the answer is not "incomplete". */
  function Attempts(s: seq<byte>, cuts: seq<nat>, lastLen: nat, max: nat, signedChar: bool): Scan<Request>
    requires Growing(cuts, lastLen, |s|)
    decreases |cuts|
  {
    if cuts == [] then More else
      var r := PhrParseRequest(s[..cuts[0]], max, lastLen, signedChar);
      if r.More? then Attempts(s, cuts[1..], cuts[0], max, signedChar) else r
  }

  predicate Growing(cuts: seq<nat>, from: nat, end: nat)
    decreases |cuts|
  {
    if cuts == [] then from <= end else from <= cuts[0] <= end && Growing(cuts[1..], cuts[0], end)
  }

  /** The good request is not there as a whole. */
  lemma EarlyAttempt(s: seq<byte>, u: seq<byte>, lastLen: nat, max: nat, signedChar: bool)
    requires lastLen <= |u| <= |s| && u == s[..|u|] && ParseRequest(s, max, signedChar).Ok?
    requires |u| < ParseRequest(s, max, signedChar).pos
    ensures PhrParseRequest(u, max, lastLen, signedChar).More? && ParseRequest(u, max, signedChar).More?
  {
    OnPrefix(s, |u|, max, signedChar);
    var e := ParseRequestShape(s, max, signedChar);
    ScanNotBad(u, if lastLen < 3 then 0 else lastLen - 3, 0);
  }

  /** One attempt on a prefix of a good request succeeds or asks for more. */
  lemma AttemptOnGoodRequest(s: seq<byte>, m: nat, lastLen: nat, max: nat, signedChar: bool)
    requires lastLen <= m <= |s| && ParseRequest(s, max, signedChar).Ok?
    requires ParseRequest(s[..lastLen], max, signedChar).More?
    ensures var r := PhrParseRequest(s[..m], max, lastLen, signedChar);
      if m < ParseRequest(s, max, signedChar).pos then r.More? && ParseRequest(s[..m], max, signedChar).More?
      else r == ParseRequest(s, max, signedChar)
  {
    var u := s[..m];
    if m < ParseRequest(s, max, signedChar).pos {
      EarlyAttempt(s, u, lastLen, max, signedChar);
    } else {
      OnPrefix(s, m, max, signedChar);
      assert u[..lastLen] == s[..lastLen];
      QuickTestHarmless(u, lastLen, max, signedChar);
    }
  }

  lemma NextAttempt(s: seq<byte>, cuts: seq<nat>, lastLen: nat, max: nat, signedChar: bool)
    requires Growing(cuts, lastLen, |s|) && cuts != []
    ensures var r := PhrParseRequest(s[..cuts[0]], max, lastLen, signedChar);
      Attempts(s, cuts, lastLen, max, signedChar) == if r.More?
        then Attempts(s, cuts[1..], cuts[0], max, signedChar) else r
  {
  }

  lemma {:induction false} GoodRequestInPieces(s: seq<byte>, cuts: seq<nat>, lastLen: nat, max: nat, signedChar: bool,
                                               good: Scan<Request>)
    requires Growing(cuts, lastLen, |s|) && cuts != [] && cuts[|cuts| - 1] == |s|
    requires ParseRequest(s[..lastLen], max, signedChar).More?
    requires good == ParseRequest(s, max, signedChar) && good.Ok?
    ensures Attempts(s, cuts, lastLen, max, signedChar) == good
    decreases |cuts|
  {
    AttemptOnGoodRequest(s, cuts[0], lastLen, max, signedChar);
    NextAttempt(s, cuts, lastLen, max, signedChar);
    if cuts[0] < good.pos {
      GoodRequestInPieces(s, cuts[1..], cuts[0], max, signedChar, good);
    }
  }

  lemma {:induction false} SuccessInPieces(s: seq<byte>, cuts: seq<nat>, lastLen: nat, max: nat, signedChar: bool)
    requires Growing(cuts, lastLen, |s|)
    requires Attempts(s, cuts, lastLen, max, signedChar).Ok?
    ensures ParseRequest(s, max, signedChar) == Attempts(s, cuts, lastLen, max, signedChar)
    decreases |cuts|
  {
    OnPrefix(s, cuts[0], max, signedChar);
    if PhrParseRequest(s[..cuts[0]], max, lastLen, signedChar).More? {
      SuccessInPieces(s, cuts[1..], cuts[0], max, signedChar);
    }
  }

  /** However a request arrives, trying on every prefix received, with the quick test in front, accepts
      exactly the requests that one parse of the whole accepts, with the same result. */
  lemma ArrivalIndependence(s: seq<byte>, cuts: seq<nat>, max: nat, signedChar: bool)
    requires Growing(cuts, 0, |s|) && cuts != [] && cuts[|cuts| - 1] == |s|
    ensures var r := Attempts(s, cuts, 0, max, signedChar);
      && (r.Ok? <==> ParseRequest(s, max, signedChar).Ok?)
      && (r.Ok? ==> r == ParseRequest(s, max, signedChar))
  {
    assert s[..0] == [];
    assert ParseRequest([], max, signedChar).More?;
    if ParseRequest(s, max, signedChar).Ok? {
      GoodRequestInPieces(s, cuts, 0, max, signedChar, ParseRequest(s, max, signedChar));
    } else if Attempts(s, cuts, 0, max, signedChar).Ok? {
      SuccessInPieces(s, cuts, 0, max, signedChar);
    }
  }
}
