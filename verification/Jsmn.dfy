/** The JSON tokeniser of src/jsmn.c, built with parent links and not strict, as a state machine: one step
    is one round of the loop of jsmn_parse. A char stands for a byte of the text. */
module Jsmn {
  import opened Basics

  datatype Kind = Object | Array | Str | Primitive

  /** jsmntok_t; end is -1 while a container is open, parent is -1 without one. */
  datatype Token = Token(kind: Kind, start: int, end: int, size: nat, parent: int)

  /** jsmn_parser with the tokens in use; toknext is |toks|. */
  datatype Parser = Parser(pos: nat, super: int, toks: seq<Token>)

  /** What a round leads to: the next round, or one of the error returns. */
  datatype Result = More(p: Parser) | NoMem(p: Parser) | Invalid(p: Parser) | Partial(p: Parser) | Done(p: Parser)

  predicate Container(k: Kind) {
    k == Object || k == Array
  }

  predicate Open(t: Token) {
    t.start != -1 && t.end == -1
  }

  // ---------- scanning ----------

  predicate Space(c: char) {
    c == '\t' || c == '\r' || c == '\n' || c == ' '
  }

  predicate Delimiter(c: char) {
    c == ':' || Space(c) || c == ',' || c == ']' || c == '}'
  }

  predicate AtEnd(js: string, i: nat) {
    i >= |js| || js[i] == '\0'
  }

  /** The end of a primitive; None when it has a character it must not have. */
  function PrimitiveEnd(js: string, i: nat): (e: Option<nat>)
    ensures e.Some? ==> i <= e.value && (i <= |js| ==> e.value <= |js|)
    decreases |js| - i
  {
    if AtEnd(js, i) || Delimiter(js[i]) then Some(i)
    else if js[i] as int < 32 || js[i] as int >= 127 then None
    else PrimitiveEnd(js, i + 1)
  }

  datatype StringScan = Ended(at: nat) | BadString | NoEnd

  predicate Hex(c: char) {
    '0' <= c <= '9' || 'A' <= c <= 'F' || 'a' <= c <= 'f'
  }

  predicate Escaped(c: char) {
    c == '\"' || c == '/' || c == '\\' || c == 'b' || c == 'f' || c == 'r' || c == 'n' || c == 't'
  }

  /** Up to n hexadecimal digits: where they end; None at another character. */
  function HexEnd(js: string, i: nat, n: nat): (e: Option<nat>)
    ensures e.Some? ==> i <= e.value
    ensures e.Some? && i <= |js| ==> e.value <= |js|
    decreases n
  {
    if n == 0 || AtEnd(js, i) then Some(i)
    else if !Hex(js[i]) then None
    else HexEnd(js, i + 1, n - 1)
  }

  /** The closing quote of the string whose contents go on at i. */
  function StringEnd(js: string, i: nat): (r: StringScan)
    ensures r.Ended? ==> i <= r.at < |js|
    decreases |js| - i
  {
    if AtEnd(js, i) then NoEnd
    else if js[i] == '\"' then Ended(i)
    else if js[i] == '\\' && i + 1 < |js| then
      if Escaped(js[i + 1]) then StringEnd(js, i + 2)
      else if js[i + 1] == 'u' then
        match HexEnd(js, i + 2, 4)
        case None => BadString
        case Some(e) => StringEnd(js, e)
      else BadString
    else StringEnd(js, i + 1)
  }

  // ---------- one round ----------

  /** Every parent comes before its children. */
  predicate Linked(toks: seq<Token>) {
    forall i :: 0 <= i < |toks| ==> -1 <= toks[i].parent < i
  }

  /** The walk of a closing bracket: the nearest open token on the way from token i to its root, or the
      root. */
  function Climb(toks: seq<Token>, i: nat): (t: nat)
    requires Linked(toks) && i < |toks|
    ensures t <= i && (Open(toks[t]) || toks[t].parent == -1)
    decreases i
  {
    if Open(toks[i]) || toks[i].parent == -1 then i else Climb(toks, toks[i].parent)
  }

  predicate Linkable(p: Parser) {
    Linked(p.toks) && -1 <= p.super < |p.toks|
  }

  /** The tokens after super got one more child. */
  function Bump(toks: seq<Token>, super: int): (r: seq<Token>)
    requires -1 <= super < |toks|
  {
    if super == -1 then toks else toks[super := toks[super].(size := toks[super].size + 1)]
  }

  /** A new token under super. */
  function Add(p: Parser, t: Token): seq<Token>
    requires Linkable(p)
  {
    Bump(p.toks, p.super) + [t.(size := 0, parent := p.super)]
  }

  function OpenStep(cap: nat, p: Parser, kind: Kind): Result
    requires Linkable(p)
  {
    if |p.toks| >= cap then NoMem(p) else
    More(Parser(p.pos + 1, |p.toks|, Add(p, Token(kind, p.pos, -1, 0, -1))))
  }

  function CloseStep(p: Parser, kind: Kind): Result
    requires Linkable(p)
  {
    if p.toks == [] then Invalid(p) else
    var t := Climb(p.toks, |p.toks| - 1);
    if Open(p.toks[t]) then
      if p.toks[t].kind != kind then Invalid(p)
      else More(Parser(p.pos + 1, p.toks[t].parent, p.toks[t := p.toks[t].(end := p.pos + 1)]))
    else if p.toks[t].kind != kind || p.super == -1 then Invalid(p)
    else More(p.(pos := p.pos + 1))
  }

  function StringStep(js: string, cap: nat, p: Parser): Result
    requires Linkable(p)
  {
    match StringEnd(js, p.pos + 1)
    case BadString => Invalid(p)
    case NoEnd => Partial(p)
    case Ended(e) =>
      if |p.toks| >= cap then NoMem(p)
      else More(Parser(e + 1, p.super, Add(p, Token(Str, p.pos + 1, e, 0, -1))))
  }

  function PrimitiveStep(js: string, cap: nat, p: Parser): Result
    requires Linkable(p)
  {
    match PrimitiveEnd(js, p.pos)
    case None => Invalid(p)
    case Some(e) =>
      if |p.toks| >= cap then NoMem(p)
      else More(Parser(e, p.super, Add(p, Token(Primitive, p.pos, e, 0, -1))))
  }

  function CommaStep(p: Parser): Result
    requires Linkable(p)
  {
    if p.super != -1 && !Container(p.toks[p.super].kind)
    then More(p.(pos := p.pos + 1, super := p.toks[p.super].parent))
    else More(p.(pos := p.pos + 1))
  }

  /** One round of jsmn_parse with cap tokens available. */
  function Step(js: string, cap: nat, p: Parser): Result
    requires Linkable(p) && !AtEnd(js, p.pos)
  {
    var c := js[p.pos];
    if c == '{' then OpenStep(cap, p, Object)
    else if c == '[' then OpenStep(cap, p, Array)
    else if c == '}' then CloseStep(p, Object)
    else if c == ']' then CloseStep(p, Array)
    else if c == '\"' then StringStep(js, cap, p)
    else if Space(c) then More(p.(pos := p.pos + 1))
    else if c == ':' then More(p.(pos := p.pos + 1, super := |p.toks| - 1))
    else if c == ',' then CommaStep(p)
    else PrimitiveStep(js, cap, p)
  }

  lemma StepAdvances(js: string, cap: nat, p: Parser)
    requires Linkable(p) && !AtEnd(js, p.pos) && Step(js, cap, p).More?
    ensures p.pos < Step(js, cap, p).p.pos <= |js|
    ensures Linkable(Step(js, cap, p).p)
  {
  }

  /** An error return leaves the parser as it was before the offending character, and memory runs out only
      when all tokens are in use. */
  lemma StepStays(js: string, cap: nat, p: Parser)
    requires Linkable(p) && !AtEnd(js, p.pos) && !Step(js, cap, p).More?
    ensures Step(js, cap, p).p == p && (Step(js, cap, p).NoMem? ==> |p.toks| >= cap)
  {
  }

  // ---------- the whole run ----------

  predicate SomeOpen(toks: seq<Token>) {
    exists i :: 0 <= i < |toks| && Open(toks[i])
  }

  /** jsmn_parse from the state p on. */
  function Parse(js: string, cap: nat, p: Parser): Result
    requires Linkable(p)
    decreases |js| - p.pos
  {
    if AtEnd(js, p.pos) then (if SomeOpen(p.toks) then Partial(p) else Done(p)) else
    var r := Step(js, cap, p);
    if r.More? then
      StepAdvances(js, cap, p);
      Parse(js, cap, r.p)
    else r
  }

  /** jsmn_init */
  const INIT := Parser(0, -1, [])

  // ---------- the forest ----------

  /** The number of tokens whose parent is i. */
  function Children(toks: seq<Token>, i: int): nat
  {
    if toks == [] then 0 else
      var n := |toks| - 1;
      Children(toks[..n], i) + if toks[n].parent == i then 1 else 0
  }

  ghost predicate Sized(toks: seq<Token>) {
    forall i :: 0 <= i < |toks| ==> toks[i].size == Children(toks, i)
  }

  /** Every token starts before pos, and what is closed ends there or before. */
  ghost predicate Spans(toks: seq<Token>, pos: nat) {
    forall i :: 0 <= i < |toks| ==>
      toks[i].start < pos && (Open(toks[i]) || toks[i].start <= toks[i].end <= pos)
  }

  ghost predicate Ordered(toks: seq<Token>) {
    forall i, j :: 0 <= i < j < |toks| ==> toks[i].start < toks[j].start
  }

  /** The span of t is inside that of s, or after it; an open token may still grow. */
  predicate InsideOrAfter(s: Token, t: Token) {
    Open(s) || s.end <= t.start || (!Open(t) && t.end <= s.end)
  }

  ghost predicate Nested(toks: seq<Token>) {
    forall i, j :: 0 <= i < j < |toks| ==> InsideOrAfter(toks[i], toks[j])
  }

  /** Every open token before hi is token i or one of its ancestors. */
  ghost predicate Chain(toks: seq<Token>, i: int, hi: nat)
    requires Linked(toks) && -1 <= i < |toks| && hi <= |toks|
    decreases i
  {
    && (forall j :: i < j < hi ==> !Open(toks[j]))
    && (i >= 0 ==> Chain(toks, toks[i].parent, i))
  }

  /** Only containers are open, and all that are open are on the way from the last token to its root, and
      on that from the superior token. */
  ghost predicate Chained(p: Parser) {
    && Linkable(p)
    && (forall i :: 0 <= i < |p.toks| && Open(p.toks[i]) ==> Container(p.toks[i].kind))
    && Chain(p.toks, |p.toks| - 1, |p.toks|) && Chain(p.toks, p.super, |p.toks|)
  }

  /** The well-formed forest. */
  ghost predicate Forest(p: Parser) {
    Chained(p) && Sized(p.toks) && Spans(p.toks, p.pos) && Ordered(p.toks) && Nested(p.toks)
  }
}
