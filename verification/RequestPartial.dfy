/** The request parser asks for more exactly when something that could follow would make the request complete. */
module RequestPartial {
  import opened Basics
  import opened Bytes
  import opened ChunkedDecoder
  import opened RequestParser
  import opened RequestRoundTrip
  import opened RequestStability

  // ---------- what completes the parts of a request ----------

  lemma EolDone(s: seq<byte>, i: nat, w: seq<byte>)
    requires i <= |s| && LineEnd(s, i).More?
    ensures LineEnd(s + ([10] + w), i) == Ok(|s| + 1, ())
  {
  }

  lemma TokenDone(s: seq<byte>, i: nat, w: seq<byte>)
    requires i <= |s| && AdvanceToken(s, i).More? && w != [] && w[0] == 32
    ensures AdvanceToken(s + w, i) == Ok(|s|, Span(i, |s| - i))
  {
    FindTokenEndExtends(s, w, i);
    FindTokenEndStop(s + w, i);
    assert (s + w)[|s|] == 32;
  }

  lemma IntDone(s: seq<byte>, i: nat, w: seq<byte>)
    requires i <= |s| && ParseInt(s, i).More? && |w| >= 2 && w[0] == 48 && w[1] == 10
    ensures ParseInt(s + w, i).Ok? && ParseInt(s + w, i).pos == |s| + 1
  {
    FindNonDigitExtends(s, w, i);
    FindNonDigitStop(s + w, i);
    assert (s + w)[|s|] == 48 && (s + w)[|s| + 1] == 10;
  }

  lemma {:induction false} CharsDone(chars: seq<byte>, s: seq<byte>, i: nat, w: seq<byte>) returns (u: seq<byte>)
    requires i <= |s| && ExpectChars(chars, s, i).More?
    ensures ExpectChars(chars, s + (u + w), i) == Ok(|s| + |u|, ())
    decreases |chars|
  {
    if i == |s| {
      u := chars;
      assert (s + (u + w))[i..] == chars + w;
      CharsAt(s + (u + w), i, chars, w);
    } else {
      u := CharsDone(chars[1..], s, i + 1, w);
    }
  }

  lemma VersionEnds(s: seq<byte>, i: nat, m: nat, n: nat)
    requires i <= |s| && ExpectChars(HTTP_1, s, i) == Ok(m, ()) && m <= |s| && ParseInt(s, m).Ok?
    requires LineEnd(s, ParseInt(s, m).pos) == Ok(n, ())
    ensures VersionAndEnd(s, i).Ok? && VersionAndEnd(s, i).pos == n
  {
  }

  lemma VersionDone(s: seq<byte>, i: nat, w: seq<byte>) returns (u: seq<byte>)
    requires i <= |s| && VersionAndEnd(s, i).More?
    ensures VersionAndEnd(s + (u + w), i).Ok? && VersionAndEnd(s + (u + w), i).pos == |s| + |u|
  {
    if ExpectChars(HTTP_1, s, i).More? {
      u := CharsMissing(s, i, w);
    } else {
      var m := ExpectChars(HTTP_1, s, i).pos;
      if ParseInt(s, m).More? {
        u := [48, 10];
        var t := u + w;
        ExpectCharsExtends(HTTP_1, s, t, i);
        IntDone(s, m, t);
        assert (s + t)[|s| + 1] == 10;
        VersionEnds(s + t, i, m, |s| + 2);
      } else {
        u := [10];
        var t := u + w;
        ExpectCharsExtends(HTTP_1, s, t, i);
        ParseIntExtends(s, t, m);
        EolDone(s, ParseInt(s, m).pos, w);
        VersionEnds(s + t, i, m, |s| + 1);
      }
    }
  }

  lemma CharsMissing(s: seq<byte>, i: nat, w: seq<byte>) returns (u: seq<byte>)
    requires i <= |s| && ExpectChars(HTTP_1, s, i).More?
    ensures VersionAndEnd(s + (u + w), i).Ok? && VersionAndEnd(s + (u + w), i).pos == |s| + |u|
  {
    var x := CharsDone(HTTP_1, s, i, [48] + ([10] + w));
    u := x + [48, 10];
    var t, m := s + (x + ([48] + ([10] + w))), |s| + |x|;
    assert s + (u + w) == t;
    assert t[m..] == [48] + ([10] + w) && t[m + 1..] == [10] + w;
    IntAt(t, m, [48], [10] + w);
    VersionEnds(t, i, m, m + 2);
  }

  // ---------- the request line ----------

  /** HTTP/1.0 and the end of its line. */
  const VERSION: seq<byte> := [72, 84, 84, 80, 47, 49, 46, 48, 10]

  lemma VersionAtEnd(s: seq<byte>, i: nat, w: seq<byte>)
    requires i <= |s| && s[i..] == VERSION + w
    ensures VersionAndEnd(s, i).Ok? && VersionAndEnd(s, i).pos == i + 9
  {
    assert VERSION + w == PrintVersion([48], false, w);
    assert s[i..] == HTTP_1 + ([48] + ([10] + w));
    CharsAt(s, i, HTTP_1, [48] + ([10] + w));
    assert s[i + 8..] == [10] + w;
    IntAt(s, i + 7, [48], [10] + w);
    assert s[i + 8] == 10;
    VersionEnds(s, i, i + 7, i + 9);
  }

  lemma LineEnds(s: seq<byte>, i: nat, k: nat, n: nat)
    requires SkipEmptyLine(s) == Ok(i, ()) && TwoTokens(s, i).Ok? && TwoTokens(s, i).pos == k
    requires VersionAndEnd(s, k + 1).Ok? && VersionAndEnd(s, k + 1).pos == n
    ensures RequestLine(s).Ok? && RequestLine(s).pos == n
  {
  }

  lemma VersionBehind(s: seq<byte>, blanks: seq<byte>, w: seq<byte>)
    ensures var t, k := s + (blanks + (VERSION + w)), |s| + |blanks|;
      VersionAndEnd(t, k).Ok? && VersionAndEnd(t, k).pos == k + 9
  {
    var t, k := s + (blanks + (VERSION + w)), |s| + |blanks|;
    assert t[k..] == VERSION + w;
    VersionAtEnd(t, k, w);
  }

  lemma SameEmptyLine(s: seq<byte>, x: seq<byte>, i: nat)
    requires i <= |s| && SkipEmptyLine(s) == Ok(i, ())
    ensures SkipEmptyLine(s + x) == Ok(i, ())
  {
    SkipEmptyLineExtends(s, x);
  }

  lemma SecondTokenEnds(s: seq<byte>, i: nat, j: nat, x: seq<byte>)
    requires i <= |s| && AdvanceToken(s, i).Ok? && AdvanceToken(s, i).pos == j && AdvanceToken(s, j + 1).More?
    requires x != [] && x[0] == 32
    ensures TwoTokens(s + x, i).Ok? && TwoTokens(s + x, i).pos == |s|
  {
    AdvanceTokenExtends(s, x, i);
    TokenDone(s, j + 1, x);
  }

  /** The second token is cut off. */
  lemma SecondToken(s: seq<byte>, i: nat, j: nat, w: seq<byte>)
    requires i <= |s| && SkipEmptyLine(s) == Ok(i, ()) && AdvanceToken(s, i).Ok? && AdvanceToken(s, i).pos == j
    requires AdvanceToken(s, j + 1).More?
    ensures var t := s + ([32] + (VERSION + w));
      RequestLine(t).Ok? && RequestLine(t).pos == |s| + 10
  {
    var x := [32] + (VERSION + w);
    SameEmptyLine(s, x, i);
    SecondTokenEnds(s, i, j, x);
    VersionBehind(s, [32], w);
    LineEnds(s + x, i, |s|, |s| + 10);
  }

  /** The first token is cut off. */
  lemma FirstToken(s: seq<byte>, i: nat, w: seq<byte>)
    requires i <= |s| && SkipEmptyLine(s) == Ok(i, ()) && AdvanceToken(s, i).More?
    ensures var t := s + ([32, 32] + (VERSION + w));
      RequestLine(t).Ok? && RequestLine(t).pos == |s| + 11
  {
    var x := [32, 32] + (VERSION + w);
    var t := s + x;
    SameEmptyLine(s, x, i);
    TokenDone(s, i, x);
    assert t[|s| + 1] == 32;
    assert AdvanceToken(t, |s| + 1) == Ok(|s| + 1, Span(|s| + 1, 0));
    VersionBehind(s, [32, 32], w);
    LineEnds(t, i, |s| + 1, |s| + 11);
  }

  /** Nothing but perhaps a part of an empty line is there. */
  lemma EmptyLineDone(s: seq<byte>, w: seq<byte>) returns (u: seq<byte>)
    requires SkipEmptyLine(s).More?
    ensures RequestLine(s + (u + w)).Ok? && RequestLine(s + (u + w)).pos == |s| + |u|
  {
    u := [10] + ([32, 32] + VERSION);
    EmptyLineEnds(s);
    FirstToken(s + [10], |s| + 1, w);
    Rejoin(s, [10], [32, 32], VERSION, w);
  }

  lemma EmptyLineEnds(s: seq<byte>)
    requires SkipEmptyLine(s).More?
    ensures SkipEmptyLine(s + [10]) == Ok(|s| + 1, ()) && AdvanceToken(s + [10], |s| + 1).More?
  {
  }

  lemma Rejoin(a: seq<byte>, b: seq<byte>, c: seq<byte>, d: seq<byte>, e: seq<byte>)
    ensures a + ((b + (c + d)) + e) == (a + b) + (c + (d + e))
  {
  }

  lemma LineDone(s: seq<byte>, w: seq<byte>) returns (u: seq<byte>)
    requires RequestLine(s).More?
    ensures RequestLine(s + (u + w)).Ok? && RequestLine(s + (u + w)).pos == |s| + |u|
  {
    if SkipEmptyLine(s).More? {
      u := EmptyLineDone(s, w);
    } else {
      var i := SkipEmptyLine(s).pos;
      if AdvanceToken(s, i).More? {
        u := [32, 32] + VERSION;
        FirstToken(s, i, w);
        assert u + w == [32, 32] + (VERSION + w);
      } else {
        u := TokensDone(s, i, AdvanceToken(s, i).pos, w);
      }
    }
  }

  lemma SameTokens(s: seq<byte>, x: seq<byte>, i: nat, k: nat)
    requires i <= |s| && TwoTokens(s, i).Ok? && TwoTokens(s, i).pos == k
    ensures TwoTokens(s + x, i).Ok? && TwoTokens(s + x, i).pos == k
  {
    TwoTokensExtends(s, x, i);
  }

  /** The version or the end of its line is cut off. */
  lemma VersionMissing(s: seq<byte>, i: nat, k: nat, w: seq<byte>) returns (u: seq<byte>)
    requires i <= |s| && SkipEmptyLine(s) == Ok(i, ()) && TwoTokens(s, i).Ok? && TwoTokens(s, i).pos == k
    requires VersionAndEnd(s, k + 1).More?
    ensures RequestLine(s + (u + w)).Ok? && RequestLine(s + (u + w)).pos == |s| + |u|
  {
    u := VersionDone(s, k + 1, w);
    SameEmptyLine(s, u + w, i);
    SameTokens(s, u + w, i, k);
    LineEnds(s + (u + w), i, k, |s| + |u|);
  }

  /** What is missing behind the empty line, when the first token is there. */
  lemma StillMissing(s: seq<byte>, i: nat, j: nat)
    requires i <= |s| && SkipEmptyLine(s) == Ok(i, ()) && AdvanceToken(s, i).Ok? && AdvanceToken(s, i).pos == j
    requires RequestLine(s).More?
    ensures AdvanceToken(s, j + 1).More? || (TwoTokens(s, i).Ok? && VersionAndEnd(s, TwoTokens(s, i).pos + 1).More?)
  {
  }

  lemma TokensDone(s: seq<byte>, i: nat, j: nat, w: seq<byte>) returns (u: seq<byte>)
    requires i <= |s| && SkipEmptyLine(s) == Ok(i, ()) && AdvanceToken(s, i).Ok? && AdvanceToken(s, i).pos == j
    requires RequestLine(s).More?
    ensures RequestLine(s + (u + w)).Ok? && RequestLine(s + (u + w)).pos == |s| + |u|
  {
    StillMissing(s, i, j);
    if AdvanceToken(s, j + 1).More? {
      u := [32] + VERSION;
      SecondToken(s, i, j, w);
      assert u + w == [32] + (VERSION + w);
    } else {
      u := VersionMissing(s, i, TwoTokens(s, i).pos, w);
    }
  }

  // ---------- the header fields ----------

  lemma HeaderEnds(s: seq<byte>, i: nat, first: bool, signedChar: bool, k: nat, n: nat)
    requires i < |s| && HeaderName(s, i, first, signedChar).Ok? && HeaderName(s, i, first, signedChar).pos == k
    requires k <= |s| && LineEnd(s, FindControl(s, k)) == Ok(n, ())
    ensures ParseHeader(s, i, first, signedChar).Ok? && ParseHeader(s, i, first, signedChar).pos == n
  {
  }

  lemma NameIs(s: seq<byte>, i: nat, first: bool, signedChar: bool, j: nat, k: nat)
    requires i < |s| && TokenChar(s[i]) && FindColon(s, i, signedChar) == j < |s| && s[j] == COLON
    requires first || (s[i] != SP && s[i] != HT)
    requires SkipBlanks(s, j + 1) == k < |s|
    ensures HeaderName(s, i, first, signedChar).Ok? && HeaderName(s, i, first, signedChar).pos == k
  {
  }

  /** The name of a field is cut off. */
  lemma ColonMissing(s: seq<byte>, i: nat, first: bool, signedChar: bool, w: seq<byte>)
    requires i < |s| && TokenChar(s[i]) && (first || (s[i] != SP && s[i] != HT)) && FindColon(s, i, signedChar) == |s|
    ensures var t := s + ([58, 10] + w);
      ParseHeader(t, i, first, signedChar).Ok? && ParseHeader(t, i, first, signedChar).pos == |s| + 2
  {
    var x := [58, 10] + w;
    var t := s + x;
    FindColonExtends(s, x, i, signedChar);
    FindColonStop(t, i, signedChar);
    assert t[|s|] == 58 && t[|s| + 1] == 10;
    NameIs(t, i, first, signedChar, |s|, |s| + 1);
    HeaderEnds(t, i, first, signedChar, |s| + 1, |s| + 2);
  }

  /** The blanks behind the colon are cut off. */
  lemma BlanksMissing(s: seq<byte>, i: nat, first: bool, signedChar: bool, j: nat, w: seq<byte>)
    requires i < |s| && TokenChar(s[i]) && (first || (s[i] != SP && s[i] != HT))
    requires FindColon(s, i, signedChar) == j < |s| && s[j] == COLON && SkipBlanks(s, j + 1) == |s|
    ensures var t := s + ([10] + w);
      ParseHeader(t, i, first, signedChar).Ok? && ParseHeader(t, i, first, signedChar).pos == |s| + 1
  {
    var x := [10] + w;
    var t := s + x;
    FindColonExtends(s, x, i, signedChar);
    SkipBlanksExtends(s, x, j + 1);
    SkipBlanksStop(t, j + 1);
    assert t[|s|] == 10;
    NameIs(t, i, first, signedChar, j, |s|);
    HeaderEnds(t, i, first, signedChar, |s|, |s| + 1);
  }

  /** The value of a field is cut off. */
  lemma ValueMissing(s: seq<byte>, i: nat, first: bool, signedChar: bool, k: nat, w: seq<byte>)
    requires i < |s| && HeaderName(s, i, first, signedChar).Ok? && HeaderName(s, i, first, signedChar).pos == k
    requires k <= |s| && TokenToEol(s, k).More?
    ensures var t := s + ([10] + w);
      ParseHeader(t, i, first, signedChar).Ok? && ParseHeader(t, i, first, signedChar).pos == |s| + 1
  {
    var x := [10] + w;
    var t, j := s + x, FindControl(s, k);
    HeaderNameExtends(s, x, i, first, signedChar);
    FindControlExtends(s, x, k);
    FindControlStop(t, k);
    assert t[|s|] == 10;
    EolDone(s, j, w);
    HeaderEnds(t, i, first, signedChar, k, |s| + 1);
  }

  lemma HeaderDone(s: seq<byte>, i: nat, first: bool, signedChar: bool, w: seq<byte>) returns (u: seq<byte>)
    requires i < |s| && ParseHeader(s, i, first, signedChar).More?
    ensures ParseHeader(s + (u + w), i, first, signedChar).Ok?
    ensures ParseHeader(s + (u + w), i, first, signedChar).pos == |s| + |u|
  {
    u := [10];
    if HeaderName(s, i, first, signedChar).Ok? {
      ValueMissing(s, i, first, signedChar, HeaderName(s, i, first, signedChar).pos, w);
    } else {
      var j := FindColon(s, i, signedChar);
      if j == |s| {
        u := [58, 10];
        ColonMissing(s, i, first, signedChar, w);
      } else {
        BlanksMissing(s, i, first, signedChar, j, w);
      }
    }
  }

  lemma HeadersEnd(s: seq<byte>, i: nat, done: seq<Header>, max: nat, signedChar: bool)
    requires i <= |s| && LineEnd(s, i).Ok?
    ensures ParseHeaders(s, i, done, max, signedChar).Ok?
  {
  }

  lemma OneRound(s: seq<byte>, i: nat, done: seq<Header>, max: nat, signedChar: bool, h: Header, n: nat)
    requires i < |s| && LineEnd(s, i).Bad? && s[i] != CR && |done| != max
    requires ParseHeader(s, i, done == [], signedChar) == Ok(n, h) && n <= |s|
    ensures ParseHeaders(s, i, done, max, signedChar) == ParseHeaders(s, n, done + [h], max, signedChar)
  {
  }

  lemma {:induction false} HeadersDone(s: seq<byte>, i: nat, done: seq<Header>, max: nat, signedChar: bool)
    returns (u: seq<byte>)
    requires i <= |s| && ParseHeaders(s, i, done, max, signedChar).More?
    ensures ParseHeaders(s + u, i, done, max, signedChar).Ok?
    decreases |s| - i
  {
    if LineEnd(s, i).More? {
      u := [10] + [];
      EolDone(s, i, []);
      HeadersEnd(s + u, i, done, max, signedChar);
    } else {
      var r := ParseHeader(s, i, done == [], signedChar);
      if r.Ok? {
        OneRound(s, i, done, max, signedChar, r.value, r.pos);
        u := HeadersDone(s, r.pos, done + [r.value], max, signedChar);
        LineEndExtends(s, u, i);
        ParseHeaderExtends(s, u, i, done == [], signedChar);
        OneRound(s + u, i, done, max, signedChar, r.value, r.pos);
      } else {
        u := LastHeader(s, i, done, max, signedChar);
      }
    }
  }

  lemma LastHeader(s: seq<byte>, i: nat, done: seq<Header>, max: nat, signedChar: bool) returns (u: seq<byte>)
    requires i < |s| && LineEnd(s, i).Bad? && s[i] != CR && |done| != max
    requires ParseHeader(s, i, done == [], signedChar).More?
    ensures ParseHeaders(s + u, i, done, max, signedChar).Ok?
  {
    var x := HeaderDone(s, i, done == [], signedChar, [10]);
    u := x + [10];
    var t, n := s + u, |s| + |x|;
    assert t[n] == 10;
    LineEndExtends(s, u, i);
    OneRound(t, i, done, max, signedChar, ParseHeader(t, i, done == [], signedChar).value, n);
    HeadersEnd(t, n, done + [ParseHeader(t, i, done == [], signedChar).value], max, signedChar);
  }

  // ---------- whole requests ----------

  lemma RequestDone(s: seq<byte>, max: nat, signedChar: bool) returns (u: seq<byte>)
    requires ParseRequest(s, max, signedChar).More?
    ensures ParseRequest(s + u, max, signedChar).Ok?
  {
    if RequestLine(s).More? {
      var x := LineDone(s, [10]);
      u := x + [10];
      assert (s + u)[|s| + |x|] == 10;
      HeadersEnd(s + u, |s| + |x|, [], max, signedChar);
    } else {
      u := HeadersDone(s, RequestLine(s).pos, [], max, signedChar);
      RequestLineExtends(s, u);
    }
  }

  /** The parser asks for more if and only if the buffer is no complete request, and something that could follow would
      make it one. A buffer that is rejected cannot be completed. */
  lemma MoreExactly(s: seq<byte>, max: nat, signedChar: bool)
    ensures var r := ParseRequest(s, max, signedChar);
      && (r.More? <==> !r.Ok? && exists u :: ParseRequest(s + u, max, signedChar).Ok?)
      && (r.Bad? <==> forall u :: ParseRequest(s + u, max, signedChar).Bad?)
  {
    var r := ParseRequest(s, max, signedChar);
    forall u
      ensures !r.More? ==> ParseRequest(s + u, max, signedChar) == r
    {
      ParseRequestExtends(s, u, max, signedChar);
    }
    if r.More? {
      var u := RequestDone(s, max, signedChar);
      assert ParseRequest(s + u, max, signedChar).Ok?;
    }
    assert s + [] == s;
  }
}
