/** The loops of src/picohttpparser.c, each proved against the byte-by-byte specification. */
module PicoHttpParser {
  import opened Basics
  import opened Bytes
  import opened ChunkedDecoder
  import Spec = RequestParser
  import opened RequestParser

  /** get_token_to_eol: looks at eight bytes a round as long as there are eight. */
  method GetTokenToEol(s: seq<byte>, start: nat) returns (r: Scan<Span>)
    requires start <= |s|
    ensures r == TokenToEol(s, start)
  {
    var i := start;
    var found := false;
    while !found && |s| - i >= 8
      invariant start <= i <= |s| && FindControl(s, start) == FindControl(s, i)
      invariant found ==> i < |s| && FindControl(s, i) == i
      decreases !found, |s| - i
    {
      ghost var i0 := i;
      var n := 0;
      while n < 8 && Printable(s[i])
        invariant 0 <= n <= 8 && i == i0 + n
        invariant FindControl(s, start) == FindControl(s, i)
      {
        i, n := i + 1, n + 1;
      }
      if n < 8 {
        if Control(s[i]) {
          found := true;
        } else {
          i := i + 1;
        }
      }
    }
    while !found
      invariant start <= i <= |s| && FindControl(s, start) == FindControl(s, i)
      invariant found ==> i < |s| && FindControl(s, i) == i
      decreases !found, |s| - i
    {
      if i == |s| {
        return More;
      }
      if !Printable(s[i]) && Control(s[i]) {
        found := true;
      } else {
        i := i + 1;
      }
    }
    if s[i] == CR {
      if i + 1 == |s| {
        return More;
      }
      if s[i + 1] != LF {
        return Bad;
      }
      return Ok(i + 2, Span(start, i - start));
    } else if s[i] == LF {
      return Ok(i + 1, Span(start, i - start));
    }
    return Bad;
  }

  /** advance_token */
  method AdvanceToken(s: seq<byte>, start: nat) returns (r: Scan<Span>)
    requires start <= |s|
    ensures r == Spec.AdvanceToken(s, start)
  {
    if start == |s| {
      return More;
    }
    var i := start;
    while true
      invariant start <= i < |s| && FindTokenEnd(s, start) == FindTokenEnd(s, i)
      decreases |s| - i
    {
      if s[i] == SP {
        break;
      }
      if !Printable(s[i]) && (s[i] < 32 || s[i] == DEL) {
        return Bad;
      }
      i := i + 1;
      if i == |s| {
        return More;
      }
    }
    return Ok(i, Span(start, i - start));
  }

  lemma DecimalNext(s: seq<byte>, i: nat, j: nat)
    requires i <= j < |s| && forall k :: i <= k <= j ==> Digit(s[k])
    ensures Decimal(s[i..j + 1]) == Decimal(s[i..j]) * 10 + (s[j] as int - 48)
  {
    assert s[i..j + 1][..j - i] == s[i..j];
  }

  /** parse_int, over unbounded integers. */
  method ParseInt(s: seq<byte>, start: nat) returns (r: Scan<nat>)
    requires start <= |s|
    ensures r == Spec.ParseInt(s, start)
  {
    if start == |s| {
      return More;
    }
    if !Digit(s[start]) {
      return Bad;
    }
    var i, v: nat := start, 0;
    while true
      invariant start <= i <= |s| && FindNonDigit(s, start) == FindNonDigit(s, i)
      invariant (forall k :: start <= k < i ==> Digit(s[k])) && v == Decimal(s[start..i])
      invariant i == start ==> Digit(s[i])
      decreases |s| - i
    {
      if i == |s| {
        return More;
      }
      if !Digit(s[i]) {
        break;
      }
      DecimalNext(s, start, i);
      v := v * 10 + (s[i] as int - 48);
      i := i + 1;
    }
    return Ok(i, v);
  }

  /** parse_http_version */
  method ParseHttpVersion(s: seq<byte>, start: nat) returns (r: Scan<nat>)
    requires start <= |s|
    ensures r == Spec.ParseHttpVersion(s, start)
  {
    var i := start;
    for n := 0 to |HTTP_1|
      invariant start <= i <= |s| && ExpectChars(HTTP_1, s, start) == ExpectChars(HTTP_1[n..], s, i)
    {
      if i == |s| {
        return More;
      }
      if s[i] != HTTP_1[n] {
        return Bad;
      }
      assert HTTP_1[n..][1..] == HTTP_1[n + 1..];
      i := i + 1;
    }
    r := ParseInt(s, i);
  }

  /** The part of parse_headers that reads a header name. */
  method ParseName(s: seq<byte>, start: nat, first: bool, signedChar: bool) returns (r: Scan<Option<Span>>)
    requires start < |s|
    ensures r == HeaderName(s, start, first, signedChar)
  {
    if !first && (s[start] == SP || s[start] == HT) {
      return Ok(start, None);
    }
    if !TokenChar(s[start]) {
      return Bad;
    }
    var i := start;
    while true
      invariant start <= i < |s| && FindColon(s, start, signedChar) == FindColon(s, i, signedChar)
      decreases |s| - i
    {
      if s[i] == COLON {
        break;
      }
      if BelowSpace(s[i], signedChar) {
        return Bad;
      }
      i := i + 1;
      if i == |s| {
        return More;
      }
    }
    var len := i - start;
    i := i + 1;
    ghost var value := i;
    while true
      invariant value <= i <= |s| && SkipBlanks(s, value) == SkipBlanks(s, i)
      decreases |s| - i
    {
      if i == |s| {
        return More;
      }
      if !(s[i] == SP || s[i] == HT) {
        break;
      }
      i := i + 1;
    }
    return Ok(i, Some(Span(start, len)));
  }

  /** parse_headers */
  method ParseHeaders(s: seq<byte>, start: nat, max: nat, signedChar: bool) returns (r: Scan<seq<Header>>)
    requires start <= |s|
    ensures r == Spec.ParseHeaders(s, start, [], max, signedChar)
  {
    var i, headers := start, [];
    while true
      invariant start <= i <= |s|
      invariant Spec.ParseHeaders(s, start, [], max, signedChar) == Spec.ParseHeaders(s, i, headers, max, signedChar)
      decreases |s| - i
    {
      if i == |s| {
        return More;
      }
      if s[i] == CR {
        if i + 1 == |s| {
          return More;
        }
        if s[i + 1] != LF {
          return Bad;
        }
        return Ok(i + 2, headers);
      } else if s[i] == LF {
        return Ok(i + 1, headers);
      }
      if |headers| == max {
        return Bad;
      }
      var name := ParseName(s, i, headers == [], signedChar);
      if !name.Ok? {
        return if name.Bad? then Bad else More;
      }
      var value := GetTokenToEol(s, name.pos);
      if !value.Ok? {
        return if value.Bad? then Bad else More;
      }
      i, headers := value.pos, headers + [Header(name.value, value.value)];
    }
  }

  /** An end of line, as the parser tests for it in several places. */
  method ExpectLineEnd(s: seq<byte>, i: nat) returns (r: Scan<()>)
    requires i <= |s|
    ensures r == LineEnd(s, i)
  {
    if i == |s| {
      return More;
    }
    if s[i] == CR {
      if i + 1 == |s| {
        return More;
      }
      return if s[i + 1] == LF then Ok(i + 2, ()) else Bad;
    }
    return if s[i] == LF then Ok(i + 1, ()) else Bad;
  }

  /** The request line in parse_request. */
  method ParseRequestLine(s: seq<byte>) returns (r: Scan<Request>)
    ensures r == RequestLine(s)
  {
    var i := 0;
    if s == [] {
      return More;
    }
    if s[0] == CR || s[0] == LF {
      var empty := ExpectLineEnd(s, 0);
      if !empty.Ok? {
        return if empty.Bad? then Bad else More;
      }
      i := empty.pos;
    }
    var method_ := AdvanceToken(s, i);
    if !method_.Ok? {
      return if method_.Bad? then Bad else More;
    }
    var path := AdvanceToken(s, method_.pos + 1);
    if !path.Ok? {
      return if path.Bad? then Bad else More;
    }
    assert MethodAndPath(s) == Ok(path.pos, (method_.value, path.value));
    var minor := ParseHttpVersion(s, path.pos + 1);
    if !minor.Ok? {
      return if minor.Bad? then Bad else More;
    }
    var end := ExpectLineEnd(s, minor.pos);
    if !end.Ok? {
      return if end.Bad? then Bad else More;
    }
    return Ok(end.pos, Request(method_.value, path.value, minor.value, []));
  }

  /** is_complete */
  method TestComplete(s: seq<byte>, lastLen: nat) returns (r: Scan<()>)
    requires lastLen <= |s|
    ensures r == IsComplete(s, lastLen)
  {
    var i := if lastLen < 3 then 0 else lastLen - 3;
    var count := 0;
    while true
      invariant 0 <= i <= |s| && count < 2 && IsComplete(s, lastLen) == ScanComplete(s, i, count)
      decreases |s| - i
    {
      if i == |s| {
        return More;
      }
      if s[i] == CR {
        if i + 1 == |s| {
          return More;
        }
        if s[i + 1] != LF {
          return Bad;
        }
        i, count := i + 2, count + 1;
      } else if s[i] == LF {
        i, count := i + 1, count + 1;
      } else {
        i, count := i + 1, 0;
      }
      if count == 2 {
        return Ok(i, ());
      }
    }
  }

  /** phr_parse_request */
  method PhrParseRequest(s: seq<byte>, max: nat, lastLen: nat, signedChar: bool) returns (r: Scan<Request>)
    requires lastLen <= |s|
    ensures r == Spec.PhrParseRequest(s, max, lastLen, signedChar)
  {
    if lastLen != 0 {
      var complete := TestComplete(s, lastLen);
      if !complete.Ok? {
        return if complete.Bad? then Bad else More;
      }
    }
    var line := ParseRequestLine(s);
    if !line.Ok? {
      return if line.Bad? then Bad else More;
    }
    var headers := ParseHeaders(s, line.pos, max, signedChar);
    if !headers.Ok? {
      return if headers.Bad? then Bad else More;
    }
    return Ok(headers.pos, line.value.(headers := headers.value));
  }
}
