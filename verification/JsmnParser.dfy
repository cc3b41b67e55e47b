/** The parser object of src/jsmn.c and its token array. Every round is a Step of the state machine Jsmn. */
module JsmnParser {
  import opened Basics
  import opened Jsmn
  import opened JsmnRestart

  const NOMEM := -1
  const INVAL := -2
  const PART := -3

  /** What jsmn_parse returns. */
  function Code(r: Result): int {
    match r
    case Done(p) => |p.toks|
    case NoMem(_) => NOMEM
    case Invalid(_) => INVAL
    case Partial(_) => PART
    case More(_) => 0
  }

  function CountCode(r: Count): int {
    match r
    case Counted(n) => n
    case CountInvalid => INVAL
    case CountPartial => PART
  }

  class JsmnParser {
    var pos: nat
    var toknext: nat
    var toksuper: int

    /** jsmn_init */
    constructor ()
      ensures pos == 0 && toknext == 0 && toksuper == -1
    {
      pos, toknext, toksuper := 0, 0, -1;
    }

    /** The fields and the token array represent the state p, with the position at. */
    ghost predicate Holds(p: Parser, at: nat, tokens: array<Token>)
      reads this, tokens
    {
      && pos == at && toknext == |p.toks| <= tokens.Length && toksuper == p.super
      && tokens[..toknext] == p.toks
    }

    /** jsmn_alloc_token: the index of the token, or -1. */
    method AllocToken(tokens: array<Token>, numTokens: nat) returns (i: int)
      requires numTokens <= tokens.Length
      modifies `toknext, tokens
      ensures old(toknext) >= numTokens ==> i == -1 && toknext == old(toknext) && tokens[..] == old(tokens[..])
      ensures old(toknext) < numTokens ==>
        && i == old(toknext) && toknext == i + 1
        && tokens[..] == old(tokens[..])[i := old(tokens[..])[i].(start := -1, end := -1, size := 0, parent := -1)]
    {
      if toknext >= numTokens {
        return -1;
      }
      i := toknext;
      toknext := toknext + 1;
      tokens[i] := tokens[i].(start := -1, end := -1, size := 0, parent := -1);
    }

    /** The token a string or a primitive fills: jsmn_fill_token and the parent link. */
    method FillToken(tokens: array<Token>, numTokens: nat, kind: Kind, start: int, end: int) returns (ok: bool)
      requires numTokens <= tokens.Length
      modifies `toknext, tokens
      ensures ok == (old(toknext) < numTokens)
      ensures !ok ==> toknext == old(toknext) && tokens[..] == old(tokens[..])
      ensures ok ==> (toknext == old(toknext) + 1
        && tokens[..] == old(tokens[..])[old(toknext) := Token(kind, start, end, 0, toksuper)])
    {
      var i := AllocToken(tokens, numTokens);
      if i == -1 {
        return false;
      }
      tokens[i] := tokens[i].(kind := kind, start := start, end := end, size := 0);
      tokens[i] := tokens[i].(parent := toksuper);
      ok := true;
    }

    /** jsmn_parse_primitive; leaves the position at the last character of the primitive. */
    method ParsePrimitive(js: string, tokens: array?<Token>, numTokens: nat) returns (r: int)
      requires !AtEnd(js, pos) && !Delimiter(js[pos])
      requires tokens != null ==> numTokens <= tokens.Length
      modifies `pos, `toknext, tokens
      ensures r < 0 ==> pos == old(pos) && toknext == old(toknext)
      ensures var e := PrimitiveEnd(js, old(pos));
        && (e.None? ==> r == INVAL)
        && (e.Some? ==> r == (if tokens != null && old(toknext) >= numTokens then NOMEM else 0))
        && (r == 0 ==> e.Some? && pos + 1 == e.value)
        && (r == 0 && tokens == null ==> toknext == old(toknext))
        && (r == 0 && tokens != null ==> toknext == old(toknext) + 1)
      ensures tokens != null ==>
        tokens[..] == if r < 0 then old(tokens[..])
                      else old(tokens[..])[old(toknext) := Token(Primitive, old(pos), pos + 1, 0, toksuper)]
    {
      var start := pos;
      while pos < |js| && js[pos] != '\0' && !Delimiter(js[pos])
        invariant start <= pos <= |js| && PrimitiveEnd(js, pos) == PrimitiveEnd(js, start)
        invariant toknext == old(toknext) && (tokens != null ==> tokens[..] == old(tokens[..]))
      {
        if js[pos] as int < 32 || js[pos] as int >= 127 {
          pos := start;
          return INVAL;
        }
        pos := pos + 1;
      }
      if tokens == null {
        pos := pos - 1;
        return 0;
      }
      var ok := FillToken(tokens, numTokens, Primitive, start, pos);
      if !ok {
        pos := start;
        return NOMEM;
      }
      pos := pos - 1;
      r := 0;
    }

    /** The four characters after a backslash and a u; false at one that is not hexadecimal. */
    method SkipHex(js: string) returns (ok: bool)
      requires pos <= |js|
      modifies `pos
      ensures ok == HexEnd(js, old(pos), 4).Some?
      ensures ok ==> pos == HexEnd(js, old(pos), 4).value
    {
      var i := 0;
      while i < 4 && pos < |js| && js[pos] != '\0'
        invariant i <= 4 && pos <= |js| && HexEnd(js, pos, 4 - i) == HexEnd(js, old(pos), 4)
      {
        if !Hex(js[pos]) {
          return false;
        }
        pos := pos + 1;
        i := i + 1;
      }
      ok := true;
    }

    /** The loop of jsmn_parse_string: 0 at the closing quote. */
    method SkipString(js: string) returns (r: int)
      requires !AtEnd(js, pos)
      modifies `pos
      ensures var s := StringEnd(js, old(pos) + 1);
        && r == (match s case Ended(_) => 0 case BadString => INVAL case NoEnd => PART)
        && pos == if s.Ended? then s.at else old(pos)
    {
      var start := pos;
      pos := pos + 1;
      while pos < |js| && js[pos] != '\0'
        invariant start < pos <= |js| && StringEnd(js, pos) == StringEnd(js, start + 1)
        decreases |js| - pos
      {
        var c := js[pos];
        if c == '\"' {
          return 0;
        }
        if c == '\\' && pos + 1 < |js| {
          pos := pos + 1;
          if js[pos] == 'u' {
            pos := pos + 1;
            var ok := SkipHex(js);
            if !ok {
              pos := start;
              return INVAL;
            }
            pos := pos - 1;
          } else if !Escaped(js[pos]) {
            pos := start;
            return INVAL;
          }
        }
        pos := pos + 1;
      }
      pos := start;
      r := PART;
    }

    /** jsmn_parse_string; leaves the position at the closing quote. */
    method ParseString(js: string, tokens: array?<Token>, numTokens: nat) returns (r: int)
      requires !AtEnd(js, pos)
      requires tokens != null ==> numTokens <= tokens.Length
      modifies `pos, `toknext, tokens
      ensures r < 0 ==> pos == old(pos) && toknext == old(toknext)
      ensures var s := StringEnd(js, old(pos) + 1);
        && (s.BadString? ==> r == INVAL) && (s.NoEnd? ==> r == PART)
        && (s.Ended? ==> r == (if tokens != null && old(toknext) >= numTokens then NOMEM else 0))
        && (r == 0 ==> s.Ended? && pos == s.at)
        && (r == 0 && tokens == null ==> toknext == old(toknext))
        && (r == 0 && tokens != null ==> toknext == old(toknext) + 1)
      ensures tokens != null ==>
        tokens[..] == if r < 0 then old(tokens[..])
                      else old(tokens[..])[old(toknext) := Token(Str, old(pos) + 1, pos, 0, toksuper)]
    {
      var start := pos;
      r := SkipString(js);
      if r < 0 || tokens == null {
        return;
      }
      var ok := FillToken(tokens, numTokens, Str, start + 1, pos);
      if !ok {
        pos := start;
        return NOMEM;
      }
    }

    /** An opening bracket. */
    method OpenBracket(c: char, tokens: array<Token>, numTokens: nat, ghost p: Parser) returns (r: int)
      requires Linkable(p) && Holds(p, p.pos, tokens) && numTokens <= tokens.Length
      modifies this, tokens
      ensures var s := OpenStep(numTokens, p, if c == '{' then Object else Array);
        if s.More? then r == 0 && Holds(s.p, pos, tokens) && pos + 1 == s.p.pos
        else r == Code(s) && Holds(p, p.pos, tokens)
    {
      var token := AllocToken(tokens, numTokens);
      if token == -1 {
        return NOMEM;
      }
      if toksuper != -1 {
        tokens[toksuper] := tokens[toksuper].(size := tokens[toksuper].size + 1);
        tokens[token] := tokens[token].(parent := toksuper);
      }
      tokens[token] := tokens[token].(kind := if c == '{' then Object else Array, start := pos);
      toksuper := toknext - 1;
      r := 0;
    }

    /** A closing bracket: the walk from the last token towards its root. */
    method CloseBracket(c: char, tokens: array<Token>, ghost p: Parser) returns (r: int)
      requires Linkable(p) && Holds(p, p.pos, tokens)
      modifies this, tokens
      ensures var s := CloseStep(p, if c == '}' then Object else Array);
        if s.More? then r == 0 && Holds(s.p, pos, tokens) && pos + 1 == s.p.pos
        else r == Code(s) && Holds(p, p.pos, tokens)
    {
      var kind := if c == '}' then Object else Array;
      if toknext < 1 {
        return INVAL;
      }
      var i := toknext - 1;
      while true
        invariant 0 <= i < toknext && Climb(p.toks, i) == Climb(p.toks, toknext - 1)
        invariant Holds(p, p.pos, tokens)
        decreases i
      {
        assert tokens[i] == p.toks[i];
        if tokens[i].start != -1 && tokens[i].end == -1 {
          if tokens[i].kind != kind {
            return INVAL;
          }
          tokens[i] := tokens[i].(end := pos + 1);
          toksuper := tokens[i].parent;
          return 0;
        }
        if tokens[i].parent == -1 {
          if tokens[i].kind != kind || toksuper == -1 {
            return INVAL;
          }
          return 0;
        }
        i := tokens[i].parent;
      }
    }

    /** A comma: a key or value gives way to its parent. */
    method Comma(tokens: array<Token>, ghost p: Parser)
      requires Linkable(p) && Holds(p, p.pos, tokens)
      modifies `toksuper
      ensures CommaStep(p).More? && Holds(CommaStep(p).p, pos, tokens) && pos + 1 == CommaStep(p).p.pos
    {
      if toksuper != -1 && tokens[toksuper].kind != Array && tokens[toksuper].kind != Object {
        toksuper := tokens[toksuper].parent;
      }
    }

    /** A string, and its superior token gets one more child. */
    method StringToken(js: string, tokens: array<Token>, numTokens: nat, ghost p: Parser) returns (r: int)
      requires Linkable(p) && Holds(p, p.pos, tokens) && !AtEnd(js, pos) && numTokens <= tokens.Length
      modifies this, tokens
      ensures var s := StringStep(js, numTokens, p);
        if s.More? then r == 0 && Holds(s.p, pos, tokens) && pos + 1 == s.p.pos
        else r == Code(s) && Holds(p, p.pos, tokens)
    {
      r := ParseString(js, tokens, numTokens);
      if r == 0 && toksuper != -1 {
        tokens[toksuper] := tokens[toksuper].(size := tokens[toksuper].size + 1);
      }
    }

    /** A primitive, and its superior token gets one more child. */
    method PrimitiveToken(js: string, tokens: array<Token>, numTokens: nat, ghost p: Parser) returns (r: int)
      requires Linkable(p) && Holds(p, p.pos, tokens) && numTokens <= tokens.Length
      requires !AtEnd(js, pos) && !Delimiter(js[pos])
      modifies this, tokens
      ensures var s := PrimitiveStep(js, numTokens, p);
        if s.More? then r == 0 && Holds(s.p, pos, tokens) && pos + 1 == s.p.pos
        else r == Code(s) && Holds(p, p.pos, tokens)
    {
      r := ParsePrimitive(js, tokens, numTokens);
      if r == 0 && toksuper != -1 {
        tokens[toksuper] := tokens[toksuper].(size := tokens[toksuper].size + 1);
      }
    }

    /** A round with a token array; leaves the position at the last character it took. */
    method Round(js: string, tokens: array<Token>, numTokens: nat, ghost p: Parser)
      returns (r: int, counted: nat)
      requires Linkable(p) && Holds(p, p.pos, tokens) && !AtEnd(js, pos) && numTokens <= tokens.Length
      modifies this, tokens
      ensures var s := Step(js, numTokens, p);
        if s.More? then r == 0 && Holds(s.p, pos, tokens) && pos + 1 == s.p.pos && counted == |s.p.toks| - |p.toks|
        else r == Code(s) && Holds(p, p.pos, tokens)
    {
      r, counted := 0, 0;
      match js[pos]
      case '{' | '[' =>
        counted := 1;
        r := OpenBracket(js[pos], tokens, numTokens, p);
      case '}' | ']' => r := CloseBracket(js[pos], tokens, p);
      case '\"' =>
        r := StringToken(js, tokens, numTokens, p);
        counted := 1;
      case '\t' | '\r' | '\n' | ' ' =>
      case ':' => toksuper := toknext - 1;
      case ',' => Comma(tokens, p);
      case _ =>
        r := PrimitiveToken(js, tokens, numTokens, p);
        counted := 1;
    }

    /** A round without a token array. */
    method CountingRound(js: string) returns (r: int)
      requires !AtEnd(js, pos)
      modifies this
      ensures toknext == old(toknext)
      ensures match CountStep(js, old(pos))
              case Next(e, n) => r == n && pos + 1 == e
              case Stop(c) => r == CountCode(c)
    {
      r := 0;
      match js[pos]
      case '{' | '[' => r := 1;
      case '}' | ']' =>
      case '\"' =>
        r := ParseString(js, null, 0);
        if r == 0 {
          r := 1;
        }
      case '\t' | '\r' | '\n' | ' ' =>
      case ':' => toksuper := toknext - 1;
      case ',' =>
      case _ =>
        r := ParsePrimitive(js, null, 0);
        if r == 0 {
          r := 1;
        }
    }

    /** Whether some object or array is still open. */
    method Unfinished(tokens: array<Token>) returns (open: bool)
      requires toknext <= tokens.Length
      ensures open <==> SomeOpen(tokens[..toknext])
    {
      var i: int := toknext - 1;
      while i >= 0
        invariant -1 <= i < toknext
        invariant forall j :: i < j < toknext ==> !Open(tokens[j])
      {
        if tokens[i].start != -1 && tokens[i].end == -1 {
          assert Open(tokens[..toknext][i]);
          return true;
        }
        i := i - 1;
      }
      open := false;
    }

    /** jsmn_parse with a token array. p is the state before, and the result the state after. */
    method Parse(js: string, tokens: array<Token>, numTokens: nat, ghost p: Parser) returns (r: int, ghost q: Result)
      requires Linkable(p) && Holds(p, p.pos, tokens) && numTokens <= tokens.Length
      modifies this, tokens
      ensures q == Jsmn.Parse(js, numTokens, p) && r == Code(q)
      ensures Linkable(q.p) && Holds(q.p, q.p.pos, tokens)
    {
      var count := toknext;
      ghost var now := p;
      while pos < |js| && js[pos] != '\0'
        invariant Linkable(now) && Holds(now, now.pos, tokens)
        invariant Jsmn.Parse(js, numTokens, now) == Jsmn.Parse(js, numTokens, p)
        invariant count == toknext
        decreases |js| - pos
      {
        ghost var s := Step(js, numTokens, now);
        if s.More? {
          StepAdvances(js, numTokens, now);
        } else {
          StepStays(js, numTokens, now);
        }
        var counted;
        r, counted := Round(js, tokens, numTokens, now);
        if r < 0 {
          q := s;
          return;
        }
        count := count + counted;
        pos := pos + 1;
        now := s.p;
      }
      var open := Unfinished(tokens);
      q := if open then Partial(now) else Done(now);
      r := if open then PART else count;
    }

    /** jsmn_parse without a token array: counts the tokens. */
    method CountAll(js: string) returns (r: int)
      modifies this
      ensures toknext == old(toknext)
      ensures r == CountCode(CountTokens(js, old(pos), old(toknext)))
    {
      var count: nat := toknext;
      while pos < |js| && js[pos] != '\0'
        invariant toknext == old(toknext)
        invariant CountTokens(js, pos, count) == CountTokens(js, old(pos), old(toknext))
        decreases |js| - pos
      {
        if CountStep(js, pos).Next? {
          CountAdvances(js, pos);
        }
        r := CountingRound(js);
        if r < 0 {
          return;
        }
        count := count + r;
        pos := pos + 1;
      }
      r := count;
    }
  }
}
