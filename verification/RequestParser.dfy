/** The incremental HTTP request parser of src/picohttpparser.c, as built without SSE 4.2. */
module RequestParser {
  import opened Basics
  import opened Bytes
  import opened ChunkedDecoder

  const SP: byte := 32
  const HT: byte := 9
  const DEL: byte := 127
  const COLON: byte := 58

  predicate Printable(c: byte) {
    32 <= c < 127
  }

  /** Ends a header value or a line: any control character but HT. */
  predicate Control(c: byte) {
    (c < 32 && c != HT) || c == DEL
  }

  predicate Digit(c: byte) {
    48 <= c <= 57
  }

  /** token_char_map: the characters of an RFC 7230 token. */
  predicate TokenChar(c: byte) {
    || 48 <= c <= 57 || 65 <= c <= 90 || 97 <= c <= 122
    || c == 33 || 35 <= c <= 39 || c == 42 || c == 43 || c == 45 || c == 46
    || 94 <= c <= 96 || c == 124 || c == 126
  }

  /** c < ' ' in C, where plain char may be signed. */
  predicate BelowSpace(c: byte, signedChar: bool) {
    c < 32 || (signedChar && c >= 128)
  }

  // ---------- the specification, byte by byte ----------

  /** Bad is the return value -1, More is -2. */
  datatype Scan<T> = Ok(pos: nat, value: T) | Bad | More

  datatype Span = Span(start: nat, len: nat)

  function FindControl(s: seq<byte>, i: nat): (j: nat)
    requires i <= |s|
    ensures i <= j <= |s|
    decreases |s| - i
  {
    if i == |s| || Control(s[i]) then i else FindControl(s, i + 1)
  }

  lemma {:induction false} FindControlStop(s: seq<byte>, i: nat)
    requires i <= |s|
    ensures var j := FindControl(s, i);
      (forall k :: i <= k < j ==> !Control(s[k])) && (j < |s| ==> Control(s[j]))
    decreases |s| - i
  {
    if FindControl(s, i) > i {
      FindControlStop(s, i + 1);
    }
  }

  function ExpectChar(ch: byte, s: seq<byte>, i: nat): (r: Scan<()>)
    requires i <= |s|
  {
    if i == |s| then More else if s[i] != ch then Bad else Ok(i + 1, ())
  }

  /** An end of line: LF or CR LF. */
  function LineEnd(s: seq<byte>, i: nat): (r: Scan<()>)
    requires i <= |s|
  {
    if i == |s| then More
    else if s[i] == CR then ExpectChar(LF, s, i + 1)
    else if s[i] == LF then Ok(i + 1, ())
    else Bad
  }

  function TokenToEol(s: seq<byte>, i: nat): (r: Scan<Span>)
    requires i <= |s|
    ensures r.Ok? ==> i < r.pos <= |s|
  {
    var j := FindControl(s, i);
    match LineEnd(s, j)
    case Ok(pos, _) => Ok(pos, Span(i, j - i))
    case Bad => Bad
    case More => More
  }

  function FindTokenEnd(s: seq<byte>, i: nat): (j: nat)
    requires i <= |s|
    ensures i <= j <= |s|
    decreases |s| - i
  {
    if i == |s| || s[i] <= SP || s[i] == DEL then i else FindTokenEnd(s, i + 1)
  }

  lemma {:induction false} FindTokenEndStop(s: seq<byte>, i: nat)
    requires i <= |s|
    ensures var j := FindTokenEnd(s, i);
      (forall k :: i <= k < j ==> s[k] > SP && s[k] != DEL) && (j < |s| ==> s[j] <= SP || s[j] == DEL)
    decreases |s| - i
  {
    if FindTokenEnd(s, i) > i {
      FindTokenEndStop(s, i + 1);
    }
  }

  function AdvanceToken(s: seq<byte>, i: nat): (r: Scan<Span>)
    requires i <= |s|
    ensures r.Ok? ==> i <= r.pos < |s|
  {
    var j := FindTokenEnd(s, i);
    if j == |s| then More else if s[j] == SP then Ok(j, Span(i, j - i)) else Bad
  }

  function FindNonDigit(s: seq<byte>, i: nat): (j: nat)
    requires i <= |s|
    ensures i <= j <= |s|
    decreases |s| - i
  {
    if i == |s| || !Digit(s[i]) then i else FindNonDigit(s, i + 1)
  }

  lemma {:induction false} FindNonDigitStop(s: seq<byte>, i: nat)
    requires i <= |s|
    ensures var j := FindNonDigit(s, i);
      (forall k :: i <= k < j ==> Digit(s[k])) && (j < |s| ==> !Digit(s[j]))
    decreases |s| - i
  {
    if FindNonDigit(s, i) > i {
      FindNonDigitStop(s, i + 1);
    }
  }

  function Decimal(digits: seq<byte>): nat
    requires forall k :: 0 <= k < |digits| ==> Digit(digits[k])
  {
    if digits == [] then 0 else
      var n := |digits| - 1;
      assert Digit(digits[n]);
      Decimal(digits[..n]) * 10 + (digits[n] as int - 48)
  }

  function ParseInt(s: seq<byte>, i: nat): (r: Scan<nat>)
    requires i <= |s|
    ensures r.Ok? ==> i < r.pos < |s|
  {
    var j := FindNonDigit(s, i);
    FindNonDigitStop(s, i);
    if i == |s| then More else if i == j then Bad else if j == |s| then More else Ok(j, Decimal(s[i..j]))
  }

  const HTTP_1: seq<byte> := [72, 84, 84, 80, 47, 49, 46]

  function ExpectChars(chars: seq<byte>, s: seq<byte>, i: nat): (r: Scan<()>)
    requires i <= |s|
    ensures r.Ok? ==> r.pos == i + |chars| <= |s|
    decreases |chars|
  {
    if chars == [] then Ok(i, ())
    else match ExpectChar(chars[0], s, i)
      case Ok(pos, _) => ExpectChars(chars[1..], s, pos)
      case Bad => Bad
      case More => More
  }

  function ParseHttpVersion(s: seq<byte>, i: nat): (r: Scan<nat>)
    requires i <= |s|
    ensures r.Ok? ==> i < r.pos < |s|
  {
    match ExpectChars(HTTP_1, s, i)
    case Ok(pos, _) => ParseInt(s, pos)
    case Bad => Bad
    case More => More
  }

  function FindColon(s: seq<byte>, i: nat, signedChar: bool): (j: nat)
    requires i <= |s|
    ensures i <= j <= |s|
    decreases |s| - i
  {
    if i == |s| || s[i] == COLON || BelowSpace(s[i], signedChar) then i else FindColon(s, i + 1, signedChar)
  }

  lemma {:induction false} FindColonStop(s: seq<byte>, i: nat, signedChar: bool)
    requires i <= |s|
    ensures var j := FindColon(s, i, signedChar);
      && (forall k :: i <= k < j ==> s[k] != COLON && !BelowSpace(s[k], signedChar))
      && (j < |s| ==> s[j] == COLON || BelowSpace(s[j], signedChar))
    decreases |s| - i
  {
    if FindColon(s, i, signedChar) > i {
      FindColonStop(s, i + 1, signedChar);
    }
  }

  function SkipBlanks(s: seq<byte>, i: nat): (j: nat)
    requires i <= |s|
    ensures i <= j <= |s|
    decreases |s| - i
  {
    if i == |s| || (s[i] != SP && s[i] != HT) then i else SkipBlanks(s, i + 1)
  }

  lemma {:induction false} SkipBlanksStop(s: seq<byte>, i: nat)
    requires i <= |s|
    ensures var j := SkipBlanks(s, i);
      (forall k :: i <= k < j ==> s[k] == SP || s[k] == HT) && (j < |s| ==> s[j] != SP && s[j] != HT)
    decreases |s| - i
  {
    if SkipBlanks(s, i) > i {
      SkipBlanksStop(s, i + 1);
    }
  }

  /** The name of a header and where its value starts; a continuation line (folded) has no name. */
  function HeaderName(s: seq<byte>, i: nat, first: bool, signedChar: bool): (r: Scan<Option<Span>>)
    requires i < |s|
    ensures r.Ok? ==> i <= r.pos <= |s|
  {
    if !first && (s[i] == SP || s[i] == HT) then Ok(i, None)
    else if !TokenChar(s[i]) then Bad
    else
      var j := FindColon(s, i, signedChar);
      if j == |s| then More
      else if s[j] != COLON then Bad
      else
        var k := SkipBlanks(s, j + 1);
        if k == |s| then More else Ok(k, Some(Span(i, j - i)))
  }

  datatype Header = Header(name: Option<Span>, value: Span)

  function ParseHeader(s: seq<byte>, i: nat, first: bool, signedChar: bool): (r: Scan<Header>)
    requires i < |s|
    ensures r.Ok? ==> i < r.pos <= |s|
  {
    match HeaderName(s, i, first, signedChar)
    case Ok(k, name) => (
      match TokenToEol(s, k)
      case Ok(pos, value) => Ok(pos, Header(name, value))
      case Bad => Bad
      case More => More)
    case Bad => Bad
    case More => More
  }

  function ParseHeaders(s: seq<byte>, i: nat, done: seq<Header>, max: nat, signedChar: bool): (r: Scan<seq<Header>>)
    requires i <= |s|
    ensures r.Ok? ==> i < r.pos <= |s|
    decreases |s| - i
  {
    match LineEnd(s, i)
    case More => More
    case Ok(pos, _) => Ok(pos, done)
    case Bad =>
      if s[i] == CR || |done| == max then Bad
      else match ParseHeader(s, i, done == [], signedChar)
        case Ok(pos, h) => ParseHeaders(s, pos, done + [h], max, signedChar)
        case Bad => Bad
        case More => More
  }

  datatype Request = Request(method_: Span, path: Span, minor: nat, headers: seq<Header>)

  /** One empty line before the request is skipped. */
  function SkipEmptyLine(s: seq<byte>): (r: Scan<()>)
    ensures r.Ok? ==> r.pos <= |s|
  {
    if s != [] && s[0] != CR && s[0] != LF then Ok(0, ()) else LineEnd(s, 0)
  }

  /** The two tokens of the request line; the position is that of the blank after the second. */
  function TwoTokens(s: seq<byte>, i: nat): (r: Scan<(Span, Span)>)
    requires i <= |s|
    ensures r.Ok? ==> i < r.pos < |s|
  {
    match AdvanceToken(s, i)
    case Bad => Bad
    case More => More
    case Ok(j, method_) =>
      match AdvanceToken(s, j + 1)
      case Bad => Bad
      case More => More
      case Ok(k, path) => Ok(k, (method_, path))
  }

  function MethodAndPath(s: seq<byte>): (r: Scan<(Span, Span)>)
    ensures r.Ok? ==> r.pos < |s|
  {
    match SkipEmptyLine(s)
    case Bad => Bad
    case More => More
    case Ok(i, _) => TwoTokens(s, i)
  }

  function VersionAndEnd(s: seq<byte>, i: nat): (r: Scan<nat>)
    requires i <= |s|
    ensures r.Ok? ==> i < r.pos <= |s|
  {
    match ParseHttpVersion(s, i)
    case Bad => Bad
    case More => More
    case Ok(m, minor) =>
      match LineEnd(s, m)
      case Bad => Bad
      case More => More
      case Ok(n, _) => Ok(n, minor)
  }

  function RequestLine(s: seq<byte>): (r: Scan<Request>)
    ensures r.Ok? ==> 0 < r.pos <= |s|
  {
    match MethodAndPath(s)
    case Bad => Bad
    case More => More
    case Ok(k, tokens) =>
      match VersionAndEnd(s, k + 1)
      case Bad => Bad
      case More => More
      case Ok(n, minor) => Ok(n, Request(tokens.0, tokens.1, minor, []))
  }

  function ParseRequest(s: seq<byte>, max: nat, signedChar: bool): (r: Scan<Request>)
    ensures r.Ok? ==> r.pos <= |s|
  {
    match RequestLine(s)
    case Bad => Bad
    case More => More
    case Ok(i, line) =>
      match ParseHeaders(s, i, [], max, signedChar)
      case Bad => Bad
      case More => More
      case Ok(pos, headers) => Ok(pos, line.(headers := headers))
  }

  // ---------- the quick test for a complete request ----------

  function ScanComplete(s: seq<byte>, i: nat, count: nat): (r: Scan<()>)
    requires i <= |s|
    ensures r.Ok? ==> r.pos <= |s|
    decreases |s| - i
  {
    if i == |s| then More
    else
      match LineEnd(s, i)
      case Ok(pos, _) => if count + 1 == 2 then Ok(pos, ()) else ScanComplete(s, pos, count + 1)
      case More => More
      case Bad => if s[i] == CR then Bad else ScanComplete(s, i + 1, 0)
  }

  function IsComplete(s: seq<byte>, lastLen: nat): (r: Scan<()>)
    requires lastLen <= |s|
  {
    ScanComplete(s, if lastLen < 3 then 0 else lastLen - 3, 0)
  }

  /** phr_parse_request; lastLen is the length of the buffer in the previous, incomplete, attempt. */
  function PhrParseRequest(s: seq<byte>, max: nat, lastLen: nat, signedChar: bool): (r: Scan<Request>)
    requires lastLen <= |s|
  {
    if lastLen != 0 && !IsComplete(s, lastLen).Ok? then
      if IsComplete(s, lastLen).Bad? then Bad else More
    else ParseRequest(s, max, signedChar)
  }
}
