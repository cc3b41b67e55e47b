/** JSON texts, as RFC 8259 writes them, and the tokens they must give: a value printed and tokenised comes
    back as the preorder of its tree. */
module JsmnRoundTrip {
  import opened Basics
  import opened Jsmn
  import opened JsmnForest
  import opened JsmnRestart

  // ---------- JSON texts ----------

  /** A character of a string, as it is written. */
  datatype Piece = Plain(c: char) | Escape(c: char) | Unicode(a: char, b: char, c: char, d: char)

  /** A value, with the blanks around it. Numbers and the three literals are primitives. */
  datatype Json =
    | JText(pieces: seq<Piece>)
    | JPrimitive(text: string)
    | JArray(pad: string, items: Items)
    | JObject(pad: string, members: Members)
  datatype Items = NoItems | Item(before: string, value: Json, after: string, rest: Items)
  datatype Members =
    | NoMembers
    | Member(before: string, key: seq<Piece>, colon: string, gap: string, value: Json, after: string, rest: Members)

  /** Insignificant whitespace (section 2 of RFC 8259). */
  predicate Blank(s: string) {
    forall i :: 0 <= i < |s| ==> s[i] in " \t\n\r"
  }

  /** A letter behind a backslash (section 7 of RFC 8259). */
  predicate EscapeLetter(c: char) {
    c in "\"\\/bfnrt"
  }

  predicate HexDigit(c: char) {
    c in "0123456789abcdefABCDEF"
  }

  /** The tokeniser's classes of characters are those of the grammar. */
  lemma CharacterClasses(c: char)
    ensures c in " \t\n\r" <==> Space(c)
    ensures EscapeLetter(c) <==> Escaped(c)
    ensures HexDigit(c) <==> Hex(c)
    ensures c in " \t\n\r:,]}" <==> Delimiter(c)
  {
  }

  predicate ValidPiece(p: Piece) {
    match p
    case Plain(c) => c != '\0' && c != '\"' && c != '\\'
    case Escape(c) => EscapeLetter(c)
    case Unicode(a, b, c, d) => HexDigit(a) && HexDigit(b) && HexDigit(c) && HexDigit(d)
  }

  predicate ValidPieces(s: seq<Piece>) {
    forall i :: 0 <= i < |s| ==> ValidPiece(s[i])
  }

  predicate PrimitiveChar(c: char) {
    '!' <= c <= '~' && c !in ":,]}"
  }

  predicate ValidPrimitive(t: string) {
    && t != [] && t[0] != '{' && t[0] != '[' && t[0] != '\"'
    && forall i :: 0 <= i < |t| ==> PrimitiveChar(t[i])
  }

  predicate ValidJson(v: Json) {
    match v
    case JText(s) => ValidPieces(s)
    case JPrimitive(t) => ValidPrimitive(t)
    case JArray(pad, items) => Blank(pad) && ValidItems(items)
    case JObject(pad, members) => Blank(pad) && ValidMembers(members)
  }

  predicate ValidItems(items: Items) {
    match items
    case NoItems => true
    case Item(b, v, a, rest) => Blank(b) && ValidJson(v) && Blank(a) && ValidItems(rest)
  }

  predicate ValidMembers(members: Members) {
    match members
    case NoMembers => true
    case Member(b, k, c, g, v, a, rest) =>
      Blank(b) && ValidPieces(k) && Blank(c) && Blank(g) && ValidJson(v) && Blank(a) && ValidMembers(rest)
  }

  // ---------- printing, in front of rest ----------

  function PrintPiece(p: Piece): string {
    match p
    case Plain(c) => [c]
    case Escape(c) => ['\\', c]
    case Unicode(a, b, c, d) => ['\\', 'u', a, b, c, d]
  }

  function PrintPieces(s: seq<Piece>, rest: string): string {
    if s == [] then rest else PrintPiece(s[0]) + PrintPieces(s[1..], rest)
  }

  function Quoted(s: seq<Piece>, rest: string): string {
    ['\"'] + PrintPieces(s, ['\"'] + rest)
  }

  function Comma(first: bool): string {
    if first then [] else [',']
  }

  function Print(v: Json, rest: string): string
    decreases v
  {
    match v
    case JText(s) => Quoted(s, rest)
    case JPrimitive(t) => t + rest
    case JArray(pad, items) => ['['] + (pad + PrintItems(items, true, [']'] + rest))
    case JObject(pad, members) => ['{'] + (pad + PrintMembers(members, true, ['}'] + rest))
  }

  function PrintItems(items: Items, first: bool, rest: string): string
    decreases items
  {
    match items
    case NoItems => rest
    case Item(b, v, a, more) => Comma(first) + (b + Print(v, a + PrintItems(more, false, rest)))
  }

  function PrintMembers(members: Members, first: bool, rest: string): string
    decreases members
  {
    match members
    case NoMembers => rest
    case Member(b, k, c, g, v, a, more) =>
      Comma(first) + (b + Quoted(k, c + ([':'] + (g + Print(v, a + PrintMembers(more, false, rest))))))
  }

  // ---------- the tokens of a value ----------

  function PiecesLen(s: seq<Piece>): nat {
    if s == [] then 0 else |PrintPiece(s[0])| + PiecesLen(s[1..])
  }

  function CommaLen(first: bool): nat {
    if first then 0 else 1
  }

  function Len(v: Json): nat
    decreases v
  {
    match v
    case JText(s) => PiecesLen(s) + 2
    case JPrimitive(t) => |t|
    case JArray(pad, items) => 2 + |pad| + ItemsLen(items, true)
    case JObject(pad, members) => 2 + |pad| + MembersLen(members, true)
  }

  function ItemsLen(items: Items, first: bool): nat
    decreases items
  {
    match items
    case NoItems => 0
    case Item(b, v, a, more) => CommaLen(first) + |b| + Len(v) + |a| + ItemsLen(more, false)
  }

  function MembersLen(members: Members, first: bool): nat
    decreases members
  {
    match members
    case NoMembers => 0
    case Member(b, k, c, g, v, a, more) =>
      CommaLen(first) + |b| + (PiecesLen(k) + 2) + |c| + 1 + |g| + Len(v) + |a| + MembersLen(more, false)
  }

  function ItemCount(items: Items): nat {
    match items
    case NoItems => 0
    case Item(_, _, _, more) => 1 + ItemCount(more)
  }

  function MemberCount(members: Members): nat {
    match members
    case NoMembers => 0
    case Member(_, _, _, _, _, _, more) => 1 + MemberCount(more)
  }

  function TextToken(s: seq<Piece>, at: nat, size: nat, parent: int): Token {
    Token(Str, at + 1, at + 1 + PiecesLen(s), size, parent)
  }

  /** The preorder of the tree: the value printed at position at, with the token index n for its root. */
  function TokensOf(v: Json, at: nat, n: nat, parent: int): seq<Token>
    decreases v
  {
    match v
    case JText(s) => [TextToken(s, at, 0, parent)]
    case JPrimitive(t) => [Token(Primitive, at, at + |t|, 0, parent)]
    case JArray(pad, items) =>
      [Token(Array, at, at + Len(v), ItemCount(items), parent)] + ItemTokens(items, true, at + 1 + |pad|, n + 1, n)
    case JObject(pad, members) =>
      [Token(Object, at, at + Len(v), MemberCount(members), parent)]
        + MemberTokens(members, true, at + 1 + |pad|, n + 1, n)
  }

  function ItemTokens(items: Items, first: bool, at: nat, n: nat, parent: int): seq<Token>
    decreases items
  {
    match items
    case NoItems => []
    case Item(b, v, a, more) =>
      var start := at + CommaLen(first) + |b|;
      TokensOf(v, start, n, parent) + ItemTokens(more, false, start + Len(v) + |a|, n + Size(v), parent)
  }

  /** A key owns its value. */
  function MemberTokens(members: Members, first: bool, at: nat, n: nat, parent: int): seq<Token>
    decreases members
  {
    match members
    case NoMembers => []
    case Member(b, k, c, g, v, a, more) =>
      var start := at + CommaLen(first) + |b|;
      var value := start + (PiecesLen(k) + 2) + |c| + 1 + |g|;
      [TextToken(k, start, 1, parent)] + (TokensOf(v, value, n + 1, n) +
       MemberTokens(more, false, value + Len(v) + |a|, n + 1 + Size(v), parent))
  }

  /** The number of nodes of a value, keys included. */
  function Size(v: Json): nat
    decreases v
  {
    match v
    case JText(_) => 1
    case JPrimitive(_) => 1
    case JArray(_, items) => 1 + ItemsSize(items)
    case JObject(_, members) => 1 + MembersSize(members)
  }

  function ItemsSize(items: Items): nat
    decreases items
  {
    match items
    case NoItems => 0
    case Item(_, v, _, more) => Size(v) + ItemsSize(more)
  }

  function MembersSize(members: Members): nat
    decreases members
  {
    match members
    case NoMembers => 0
    case Member(_, _, _, _, v, _, more) => 1 + Size(v) + MembersSize(more)
  }

  ghost predicate Closed(toks: seq<Token>) {
    forall i :: 0 <= i < |toks| ==> !Open(toks[i])
  }

  lemma ClosedBoth(a: seq<Token>, b: seq<Token>)
    requires Closed(a) && Closed(b)
    ensures Closed(a + b)
  {
  }

  lemma {:induction false} TokensOfSize(v: Json, at: nat, n: nat, parent: int)
    ensures |TokensOf(v, at, n, parent)| == Size(v)
    ensures Closed(TokensOf(v, at, n, parent))
    decreases v
  {
    match v
    case JText(_) =>
    case JPrimitive(_) =>
    case JArray(pad, items) => ItemTokensSize(items, true, at + 1 + |pad|, n + 1, n);
    case JObject(pad, members) => MemberTokensSize(members, true, at + 1 + |pad|, n + 1, n);
  }

  lemma {:induction false} ItemTokensSize(items: Items, first: bool, at: nat, n: nat, parent: int)
    ensures |ItemTokens(items, first, at, n, parent)| == ItemsSize(items)
    ensures Closed(ItemTokens(items, first, at, n, parent))
    decreases items
  {
    match items
    case NoItems =>
    case Item(b, v, a, more) =>
      var start := at + CommaLen(first) + |b|;
      TokensOfSize(v, start, n, parent);
      ItemTokensSize(more, false, start + Len(v) + |a|, n + Size(v), parent);
      ClosedBoth(TokensOf(v, start, n, parent), ItemTokens(more, false, start + Len(v) + |a|, n + Size(v), parent));
  }

  /** The tokens of the first member, and of the others. */
  lemma MembersUnfold(members: Members, first: bool, at: nat, n: nat, parent: int)
    returns (key: Token, value: nat, next: nat)
    requires members.Member?
    ensures !Open(key)
    ensures MemberTokens(members, first, at, n, parent) ==
            [key] + (TokensOf(members.value, value, n + 1, n) +
              MemberTokens(members.rest, false, next, n + 1 + Size(members.value), parent))
    ensures MembersSize(members) == 1 + Size(members.value) + MembersSize(members.rest)
  {
    match members
    case Member(b, k, c, g, v, a, more) =>
      var start := at + CommaLen(first) + |b|;
      key := TextToken(k, start, 1, parent);
      value := start + (PiecesLen(k) + 2) + |c| + 1 + |g|;
      next := value + Len(v) + |a|;
  }

  lemma {:induction false} MemberTokensSize(members: Members, first: bool, at: nat, n: nat, parent: int)
    ensures |MemberTokens(members, first, at, n, parent)| == MembersSize(members)
    ensures Closed(MemberTokens(members, first, at, n, parent))
    decreases members
  {
    if members.Member? {
      var key, value, next := MembersUnfold(members, first, at, n, parent);
      var m := n + 1 + Size(members.value);
      TokensOfSize(members.value, value, n + 1, n);
      MemberTokensSize(members.rest, false, next, m, parent);
      MemberSize(key, TokensOf(members.value, value, n + 1, n), MemberTokens(members.rest, false, next, m, parent));
    }
  }

  lemma MemberSize(key: Token, x: seq<Token>, y: seq<Token>)
    requires !Open(key) && Closed(x) && Closed(y)
    ensures |[key] + (x + y)| == 1 + |x| + |y| && Closed([key] + (x + y))
  {
  }

  // ---------- the text ahead ----------

  ghost predicate Ahead(js: string, pos: nat, text: string) {
    pos <= |js| && js[pos..] == text
  }

  lemma AheadSkip(js: string, pos: nat, a: string, b: string)
    requires Ahead(js, pos, a + b)
    ensures Ahead(js, pos + |a|, b) && forall i :: 0 <= i < |a| ==> js[pos + i] == a[i]
  {
    assert |a + b| == |js| - pos;
    assert js[pos + |a|..] == js[pos..][|a|..];
    assert (a + b)[|a|..] == b;
    forall i | 0 <= i < |a|
      ensures js[pos + i] == a[i]
    {
      assert js[pos + i] == js[pos..][i] == (a + b)[i];
    }
  }

  /** What may stand behind a primitive. */
  predicate EndsValue(rest: string) {
    rest == [] || rest[0] == '\0' || rest[0] in " \t\n\r:,]}"
  }

  lemma {:induction false} ScanPrimitive(js: string, i: nat, t: string, rest: string)
    requires Ahead(js, i, t + rest) && EndsValue(rest)
    requires forall k :: 0 <= k < |t| ==> PrimitiveChar(t[k])
    ensures PrimitiveEnd(js, i) == Some(i + |t|)
    decreases |t|
  {
    AheadSkip(js, i, t, rest);
    if t == [] {
      assert rest != [] ==> js[i] == js[i..][0];
    } else {
      assert js[i + 0] == t[0];
      assert t + rest == [t[0]] + (t[1..] + rest);
      AheadSkip(js, i, [t[0]], t[1..] + rest);
      ScanPrimitive(js, i + 1, t[1..], rest);
    }
  }

  lemma ScanHex(js: string, i: nat, a: char, b: char, c: char, d: char)
    requires i + 4 <= |js| && js[i] == a && js[i + 1] == b && js[i + 2] == c && js[i + 3] == d
    requires Hex(a) && Hex(b) && Hex(c) && Hex(d)
    ensures HexEnd(js, i, 4) == Some(i + 4)
  {
    assert HexEnd(js, i + 3, 1) == HexEnd(js, i + 4, 0);
    assert HexEnd(js, i + 2, 2) == HexEnd(js, i + 3, 1);
    assert HexEnd(js, i + 1, 3) == HexEnd(js, i + 2, 2);
  }

  lemma ScanPiece(js: string, i: nat, p: Piece, rest: string)
    requires Ahead(js, i, PrintPiece(p) + rest) && ValidPiece(p)
    ensures StringEnd(js, i) == StringEnd(js, i + |PrintPiece(p)|)
  {
    var t := PrintPiece(p);
    AheadSkip(js, i, t, rest);
    assert js[i + 0] == t[0];
    match p
    case Plain(c) =>
    case Escape(c) =>
      assert js[i + 1] == t[1];
    case Unicode(a, b, c, d) =>
      assert js[i + 1] == t[1] && js[i + 2] == t[2] && js[i + 3] == t[3] && js[i + 4] == t[4] && js[i + 5] == t[5];
      assert Hex(a) && Hex(b) && Hex(c) && Hex(d) by {
        CharacterClasses(a);
        CharacterClasses(b);
        CharacterClasses(c);
        CharacterClasses(d);
      }
      ScanHex(js, i + 2, a, b, c, d);
  }

  lemma {:induction false} ScanPieces(js: string, i: nat, s: seq<Piece>, rest: string)
    requires Ahead(js, i, PrintPieces(s, ['\"'] + rest)) && ValidPieces(s)
    ensures StringEnd(js, i) == Ended(i + PiecesLen(s))
    ensures Ahead(js, i + PiecesLen(s) + 1, rest)
    decreases |s|
  {
    if s == [] {
      AheadSkip(js, i, ['\"'], rest);
      assert js[i + 0] == '\"';
    } else {
      var more := PrintPieces(s[1..], ['\"'] + rest);
      ScanPiece(js, i, s[0], more);
      AheadSkip(js, i, PrintPiece(s[0]), more);
      ScanPieces(js, i + |PrintPiece(s[0])|, s[1..], rest);
    }
  }

  // ---------- moving through a text ----------

  /** The run from p gets to q, which is a good state as well. */
  ghost predicate Moves(js: string, cap: nat, p: Parser, q: Parser)
    requires Linkable(p)
  {
    Chained(q) && Parse(js, cap, p) == Parse(js, cap, q)
  }

  lemma Move(js: string, cap: nat, p: Parser, q: Parser)
    requires Chained(p) && !AtEnd(js, p.pos) && Step(js, cap, p) == More(q)
    ensures Moves(js, cap, p, q)
  {
    StepKeepsChains(js, cap, p);
  }

  lemma {:induction false} SkipBlank(js: string, cap: nat, p: Parser, blank: string, rest: string) returns (q: Parser)
    requires Chained(p) && Ahead(js, p.pos, blank + rest) && Blank(blank)
    ensures q == p.(pos := p.pos + |blank|) && Moves(js, cap, p, q) && Ahead(js, q.pos, rest)
    decreases |blank|
  {
    AheadSkip(js, p.pos, blank, rest);
    if blank == [] {
      q := p;
    } else {
      assert js[p.pos + 0] == blank[0];
      var p1 := p.(pos := p.pos + 1);
      Move(js, cap, p, p1);
      assert blank + rest == [blank[0]] + (blank[1..] + rest);
      AheadSkip(js, p.pos, [blank[0]], blank[1..] + rest);
      q := SkipBlank(js, cap, p1, blank[1..], rest);
    }
  }

  lemma TextStep(js: string, cap: nat, p: Parser, s: seq<Piece>) returns (q: Parser)
    requires Chained(p) && |p.toks| < cap && p.pos < |js| && StringEnd(js, p.pos + 1) == Ended(p.pos + 1 + PiecesLen(s))
    ensures q == Parser(p.pos + (PiecesLen(s) + 2), p.super, Bump(p.toks, p.super) + [TextToken(s, p.pos, 0, p.super)])
    ensures StringStep(js, cap, p) == More(q)
  {
    q := Parser(p.pos + (PiecesLen(s) + 2), p.super, Bump(p.toks, p.super) + [TextToken(s, p.pos, 0, p.super)]);
  }

  lemma ParseText(js: string, cap: nat, p: Parser, s: seq<Piece>, rest: string) returns (q: Parser)
    requires Chained(p) && Ahead(js, p.pos, Quoted(s, rest)) && ValidPieces(s) && |p.toks| < cap
    ensures q.pos == p.pos + (PiecesLen(s) + 2) && q.super == p.super
    ensures q.toks == Bump(p.toks, p.super) + [TextToken(s, p.pos, 0, p.super)]
    ensures Moves(js, cap, p, q) && Ahead(js, q.pos, rest)
  {
    AheadSkip(js, p.pos, ['\"'], PrintPieces(s, ['\"'] + rest));
    assert js[p.pos + 0] == '\"';
    ScanPieces(js, p.pos + 1, s, rest);
    q := TextStep(js, cap, p, s);
    Move(js, cap, p, q);
  }

  lemma ParsePrimitive(js: string, cap: nat, p: Parser, t: string, rest: string) returns (q: Parser)
    requires Chained(p) && Ahead(js, p.pos, t + rest) && ValidPrimitive(t) && EndsValue(rest) && |p.toks| < cap
    ensures q.pos == p.pos + |t| && q.super == p.super
    ensures q.toks == Bump(p.toks, p.super) + [Token(Primitive, p.pos, p.pos + |t|, 0, p.super)]
    ensures Moves(js, cap, p, q) && Ahead(js, q.pos, rest)
  {
    AheadSkip(js, p.pos, t, rest);
    assert js[p.pos + 0] == t[0] && PrimitiveChar(t[0]);
    ScanPrimitive(js, p.pos, t, rest);
    q := Parser(p.pos + |t|, p.super, Bump(p.toks, p.super) + [Token(Primitive, p.pos, p.pos + |t|, 0, p.super)]);
    Move(js, cap, p, q);
  }

  lemma OpenContainer(js: string, cap: nat, p: Parser, c: char, kind: Kind, rest: string) returns (q: Parser)
    requires Chained(p) && Ahead(js, p.pos, [c] + rest) && |p.toks| < cap
    requires c == (if kind == Object then '{' else '[') && Container(kind)
    ensures q.pos == p.pos + 1 && q.super == |p.toks|
    ensures q.toks == Bump(p.toks, p.super) + [Token(kind, p.pos, -1, 0, p.super)]
    ensures Moves(js, cap, p, q) && Ahead(js, q.pos, rest) && LastOpen(q.toks, |p.toks|)
  {
    AheadSkip(js, p.pos, [c], rest);
    assert js[p.pos + 0] == c;
    q := Parser(p.pos + 1, |p.toks|, Bump(p.toks, p.super) + [Token(kind, p.pos, -1, 0, p.super)]);
    Move(js, cap, p, q);
  }

  lemma CloseContainer(js: string, cap: nat, p: Parser, k: nat, c: char, rest: string) returns (q: Parser)
    requires Chained(p) && Ahead(js, p.pos, [c] + rest) && LastOpen(p.toks, k)
    requires c == if p.toks[k].kind == Object then '}' else ']'
    ensures q.pos == p.pos + 1 && q.super == p.toks[k].parent
    ensures q.toks == p.toks[k := p.toks[k].(end := p.pos + 1)]
    ensures Moves(js, cap, p, q) && Ahead(js, q.pos, rest)
  {
    AheadSkip(js, p.pos, [c], rest);
    assert js[p.pos + 0] == c;
    CloseClosesInnermost(p, p.toks[k].kind, k);
    q := Parser(p.pos + 1, p.toks[k].parent, p.toks[k := p.toks[k].(end := p.pos + 1)]);
    Move(js, cap, p, q);
  }

  /** The comma before all items but the first; it makes the container the superior token again. */
  lemma SkipComma(js: string, cap: nat, p: Parser, first: bool, k: nat, rest: string) returns (q: Parser)
    requires Chained(p) && Ahead(js, p.pos, Comma(first) + rest) && k < |p.toks| && Container(p.toks[k].kind)
    requires p.super == k || (!first && BelongsTo(p, k))
    ensures q == p.(pos := p.pos + CommaLen(first), super := k)
    ensures Moves(js, cap, p, q) && Ahead(js, q.pos, rest)
  {
    AheadSkip(js, p.pos, Comma(first), rest);
    q := p.(pos := p.pos + CommaLen(first), super := k);
    if !first {
      assert js[p.pos + 0] == ',';
      Move(js, cap, p, q);
    }
  }

  /** The superior token is a key of the object k. */
  ghost predicate BelongsTo(p: Parser, k: nat) {
    0 <= p.super < |p.toks| && p.toks[p.super].kind == Str && p.toks[p.super].parent == k
  }

  lemma SkipColon(js: string, cap: nat, p: Parser, rest: string) returns (q: Parser)
    requires Chained(p) && Ahead(js, p.pos, [':'] + rest)
    ensures q == p.(pos := p.pos + 1, super := |p.toks| - 1)
    ensures Moves(js, cap, p, q) && Ahead(js, q.pos, rest)
  {
    AheadSkip(js, p.pos, [':'], rest);
    assert js[p.pos + 0] == ':';
    q := p.(pos := p.pos + 1, super := |p.toks| - 1);
    Move(js, cap, p, q);
  }

  // ---------- values ----------

  /** Token k got n more children. */
  function Grow(toks: seq<Token>, k: nat, n: nat): seq<Token>
    requires k < |toks|
  {
    toks[k := toks[k].(size := toks[k].size + n)]
  }

  lemma GrowOnce(toks: seq<Token>, x: seq<Token>, y: seq<Token>, k: nat, n: nat, some: seq<Token>, m: nat,
                 all: seq<Token>)
    requires k < |toks| && some == Bump(toks, k) + x && m == n + 1 && all == x + y
    ensures k < |some| && Grow(some, k, n) + y == Grow(toks, k, m) + all
  {
  }

  lemma StillLastOpen(toks: seq<Token>, k: nat, n: nat, x: seq<Token>)
    requires LastOpen(toks, k) && Closed(x)
    ensures LastOpen(Grow(toks, k, n) + x, k)
    ensures (Grow(toks, k, n) + x)[k] == toks[k].(size := toks[k].size + n)
  {
  }

  /** The rest of a container's text ends a value. */
  lemma ItemsEndValue(after: string, items: Items, rest: string)
    requires Blank(after) && EndsValue(rest)
    ensures EndsValue(after + PrintItems(items, false, rest))
  {
    if after != [] {
      assert (after + PrintItems(items, false, rest))[0] == after[0];
    }
  }

  lemma MembersEndValue(after: string, members: Members, rest: string)
    requires Blank(after) && EndsValue(rest)
    ensures EndsValue(after + PrintMembers(members, false, rest))
  {
    if after != [] {
      assert (after + PrintMembers(members, false, rest))[0] == after[0];
    }
  }

  /** The container's token, opened with its items in it and then closed. */
  lemma Enclosed(toks: seq<Token>, open: Token, n: nat, x: seq<Token>, all: seq<Token>, end: nat)
    requires open.size == 0 && all == Grow(toks + [open], |toks|, n) + x
    ensures all[|toks| := all[|toks|].(end := end)] == toks + ([open.(size := n, end := end)] + x)
  {
  }

  /** Closing a container after its items, whose tokens are x. */
  lemma FinishContainer(js: string, cap: nat, p: Parser, kind: Kind, n: nat, x: seq<Token>, p1: Parser, rest: string)
    returns (q: Parser, all: seq<Token>)
    requires Chained(p) && Chained(p1) && Container(kind) && Closed(x)
    requires p1.toks == Grow(Bump(p.toks, p.super) + [Token(kind, p.pos, -1, 0, p.super)], |p.toks|, n) + x
    requires Ahead(js, p1.pos, [if kind == Object then '}' else ']'] + rest)
    ensures all == [Token(kind, p.pos, p1.pos + 1, n, p.super)] + x
    ensures q.pos == p1.pos + 1 && q.super == p.super && q.toks == Bump(p.toks, p.super) + all
    ensures Moves(js, cap, p1, q) && Ahead(js, q.pos, rest)
  {
    var k, open := |p.toks|, Token(kind, p.pos, -1, 0, p.super);
    StillLastOpen(Bump(p.toks, p.super) + [open], k, n, x);
    q := CloseContainer(js, cap, p1, k, if kind == Object then '}' else ']', rest);
    Enclosed(Bump(p.toks, p.super), open, n, x, p1.toks, q.pos);
    all := [Token(kind, p.pos, p1.pos + 1, n, p.super)] + x;
  }

  lemma {:induction false} ParseValue(js: string, cap: nat, v: Json, p: Parser, rest: string)
    returns (q: Parser, x: seq<Token>)
    requires Chained(p) && ValidJson(v) && Ahead(js, p.pos, Print(v, rest)) && EndsValue(rest)
    requires |p.toks| + Size(v) <= cap
    ensures q.pos == p.pos + Len(v) && q.super == p.super
    ensures x == TokensOf(v, p.pos, |p.toks|, p.super) && q.toks == Bump(p.toks, p.super) + x
    ensures |x| == Size(v) && Closed(x)
    ensures Moves(js, cap, p, q) && Ahead(js, q.pos, rest)
    decreases v, 0
  {
    TokensOfSize(v, p.pos, |p.toks|, p.super);
    match v
    case JText(s) =>
      q := ParseText(js, cap, p, s, rest);
      x := [TextToken(s, p.pos, 0, p.super)];
    case JPrimitive(t) =>
      q := ParsePrimitive(js, cap, p, t, rest);
      x := [Token(Primitive, p.pos, p.pos + |t|, 0, p.super)];
    case JArray(pad, items) => q, x := ParseArray(js, cap, v, p, rest);
    case JObject(pad, members) => q, x := ParseObject(js, cap, v, p, rest);
  }

  lemma ArrayTokens(v: Json, at: nat, n: nat, parent: int, inner: nat, m: nat, x: seq<Token>, end: nat)
    returns (all: seq<Token>)
    requires v.JArray? && inner == at + 1 + |v.pad| && m == n + 1 && x == ItemTokens(v.items, true, inner, m, n)
    requires end == at + Len(v)
    ensures all == [Token(Array, at, end, ItemCount(v.items), parent)] + x
    ensures all == TokensOf(v, at, n, parent)
  {
    all := TokensOf(v, at, n, parent);
  }

  lemma {:induction false} ParseArray(js: string, cap: nat, v: Json, p: Parser, rest: string)
    returns (q: Parser, all: seq<Token>)
    requires Chained(p) && v.JArray? && ValidJson(v) && Ahead(js, p.pos, Print(v, rest))
    requires |p.toks| + Size(v) <= cap
    ensures q.pos == p.pos + Len(v) && q.super == p.super
    ensures all == TokensOf(v, p.pos, |p.toks|, p.super) && q.toks == Bump(p.toks, p.super) + all
    ensures Moves(js, cap, p, q) && Ahead(js, q.pos, rest)
    decreases v.items, 1
  {
    var k, close := |p.toks|, [']'] + rest;
    var p1 := OpenContainer(js, cap, p, '[', Array, v.pad + PrintItems(v.items, true, close));
    var p2 := SkipBlank(js, cap, p1, v.pad, PrintItems(v.items, true, close));
    var p3, x := ParseItems(js, cap, v.items, true, p2, k, close);
    q, all := FinishContainer(js, cap, p, Array, ItemCount(v.items), x, p3, rest);
    var _ := ArrayTokens(v, p.pos, |p.toks|, p.super, p2.pos, |p2.toks|, x, q.pos);
  }

  lemma FirstItem(items: Items, first: bool, at: nat, n: nat, parent: int, start: nat, x: seq<Token>, next: nat,
                  m: nat, y: seq<Token>)
    returns (all: seq<Token>)
    requires items.Item? && start == at + CommaLen(first) + |items.before|
    requires x == TokensOf(items.value, start, n, parent) && next == start + Len(items.value) + |items.after|
    requires y == ItemTokens(items.rest, false, next, m, parent) && m == n + Size(items.value)
    ensures all == x + y && all == ItemTokens(items, first, at, n, parent)
  {
    all := x + y;
  }

  lemma SameTokens(v: Json, at: nat, n: nat, parent: int, at': nat, n': nat, parent': int)
    requires at == at' && n == n' && parent == parent'
    ensures TokensOf(v, at, n, parent) == TokensOf(v, at', n', parent')
  {
  }

  lemma {:induction false} ParseItems(js: string, cap: nat, items: Items, first: bool, p: Parser, k: nat, rest: string)
    returns (q: Parser, all: seq<Token>)
    requires Chained(p) && ValidItems(items) && Ahead(js, p.pos, PrintItems(items, first, rest)) && EndsValue(rest)
    requires p.super == k && LastOpen(p.toks, k) && |p.toks| + ItemsSize(items) <= cap
    ensures q.pos == p.pos + ItemsLen(items, first) && q.super == k
    ensures all == ItemTokens(items, first, p.pos, |p.toks|, k) && Closed(all)
    ensures q.toks == Grow(p.toks, k, ItemCount(items)) + all
    ensures Moves(js, cap, p, q) && Ahead(js, q.pos, rest)
    decreases items, 0
  {
    match items
    case NoItems => q, all := p, [];
    case Item(b, v, a, more) =>
      var after := a + PrintItems(more, false, rest);
      var p1 := SkipComma(js, cap, p, first, k, b + Print(v, after));
      var p2 := SkipBlank(js, cap, p1, b, Print(v, after));
      ItemsEndValue(a, more, rest);
      var p3, x := ParseValue(js, cap, v, p2, after);
      SameTokens(v, p2.pos, |p2.toks|, p2.super, p2.pos, |p.toks|, k);
      ItemTokensSize(items, first, p.pos, |p.toks|, k);
      var p4 := SkipBlank(js, cap, p3, a, PrintItems(more, false, rest));
      StillLastOpen(p.toks, k, 1, x);
      var y;
      q, y := ParseItems(js, cap, more, false, p4, k, rest);
      all := FirstItem(items, first, p.pos, |p.toks|, k, p2.pos, x, p4.pos, |p4.toks|, y);
      GrowOnce(p.toks, x, y, k, ItemCount(more), p4.toks, ItemCount(items), all);
  }

  lemma ObjectTokens(v: Json, at: nat, n: nat, parent: int, inner: nat, m: nat, x: seq<Token>, end: nat)
    returns (all: seq<Token>)
    requires v.JObject? && inner == at + 1 + |v.pad| && m == n + 1 && x == MemberTokens(v.members, true, inner, m, n)
    requires end == at + Len(v)
    ensures all == [Token(Object, at, end, MemberCount(v.members), parent)] + x
    ensures all == TokensOf(v, at, n, parent)
  {
    all := TokensOf(v, at, n, parent);
  }

  lemma {:induction false} ParseObject(js: string, cap: nat, v: Json, p: Parser, rest: string)
    returns (q: Parser, all: seq<Token>)
    requires Chained(p) && v.JObject? && ValidJson(v) && Ahead(js, p.pos, Print(v, rest))
    requires |p.toks| + Size(v) <= cap
    ensures q.pos == p.pos + Len(v) && q.super == p.super
    ensures all == TokensOf(v, p.pos, |p.toks|, p.super) && q.toks == Bump(p.toks, p.super) + all
    ensures Moves(js, cap, p, q) && Ahead(js, q.pos, rest)
    decreases v.members, 1
  {
    var k, close := |p.toks|, ['}'] + rest;
    var p1 := OpenContainer(js, cap, p, '{', Object, v.pad + PrintMembers(v.members, true, close));
    var p2 := SkipBlank(js, cap, p1, v.pad, PrintMembers(v.members, true, close));
    var p3, x := ParseMembers(js, cap, v.members, true, p2, k, close);
    q, all := FinishContainer(js, cap, p, Object, MemberCount(v.members), x, p3, rest);
    var _ := ObjectTokens(v, p.pos, |p.toks|, p.super, p2.pos, |p2.toks|, x, q.pos);
  }

  lemma KeyOwnsValue(toks: seq<Token>, key: Token, owner: Token, x: seq<Token>, some: seq<Token>, n: int)
    requires key.size == 0 && owner == key.(size := 1) && some == toks + [key] && n == |toks|
    ensures Bump(some, n) + x == toks + ([owner] + x)
  {
  }

  /** A key and its colon make the key the superior token. */
  lemma ParseKey(js: string, cap: nat, m: Members, p: Parser, rest: string) returns (q: Parser)
    requires m.Member? && ValidMembers(m) && Chained(p) && |p.toks| < cap
    requires Ahead(js, p.pos, Quoted(m.key, m.colon + ([':'] + (m.gap + rest))))
    ensures q.pos == ValueAt(m, p.pos) && q.super == |p.toks|
    ensures q.toks == Bump(p.toks, p.super) + [TextToken(m.key, p.pos, 0, p.super)]
    ensures Moves(js, cap, p, q) && Ahead(js, q.pos, rest)
  {
    var p1 := ParseText(js, cap, p, m.key, m.colon + ([':'] + (m.gap + rest)));
    var p2 := SkipBlank(js, cap, p1, m.colon, [':'] + (m.gap + rest));
    var p3 := SkipColon(js, cap, p2, m.gap + rest);
    q := SkipBlank(js, cap, p3, m.gap, rest);
  }

  /** A key, its colon and its value: the key gets the value as its child. */
  lemma {:induction false} ParseMember(js: string, cap: nat, m: Members, p: Parser, k: nat, rest: string)
    returns (q: Parser, x: seq<Token>)
    requires m.Member? && ValidMembers(m) && Chained(p) && EndsValue(rest) && p.super == k < |p.toks|
    requires Ahead(js, p.pos, Quoted(m.key, m.colon + ([':'] + (m.gap + Print(m.value, rest)))))
    requires |p.toks| + 1 + Size(m.value) <= cap
    ensures q.pos == ValueAt(m, p.pos) + Len(m.value) && q.super == |p.toks|
    ensures x == OwnTokens(m, p.pos, |p.toks|, k) && |x| == 1 + Size(m.value) && Closed(x)
    ensures q.toks == Bump(p.toks, k) + x && BelongsTo(q, k)
    ensures Moves(js, cap, p, q) && Ahead(js, q.pos, rest)
    decreases m.value, 1
  {
    var p1 := ParseKey(js, cap, m, p, Print(m.value, rest));
    var v;
    q, v := ParseValue(js, cap, m.value, p1, rest);
    var key := TextToken(m.key, p.pos, 1, k);
    KeyOwnsValue(Bump(p.toks, k), TextToken(m.key, p.pos, 0, k), key, v, p1.toks, p1.super);
    SameTokens(m.value, p1.pos, |p1.toks|, p1.super, ValueAt(m, p.pos), |p.toks| + 1, |p.toks|);
    x := [key] + v;
    ClosedBoth([key], v);
    KeyBelongs(q, p.toks, key, v, k);
  }

  /** Where the value of the first member is, when its key is at position at. */
  function ValueAt(m: Members, at: nat): nat
    requires m.Member?
  {
    at + (PiecesLen(m.key) + 2) + |m.colon| + 1 + |m.gap|
  }

  /** The tokens of the first member, with its key at position start. */
  function OwnTokens(ms: Members, start: nat, n: nat, parent: int): seq<Token>
    requires ms.Member?
  {
    [TextToken(ms.key, start, 1, parent)] + TokensOf(ms.value, ValueAt(ms, start), n + 1, n)
  }

  lemma SameOwnTokens(ms: Members, start: nat, n: nat, parent: int, start': nat, n': nat)
    requires ms.Member? && start == start' && n == n'
    ensures OwnTokens(ms, start, n, parent) == OwnTokens(ms, start', n', parent)
  {
  }

  function KeyAt(ms: Members, first: bool, at: nat): nat
    requires ms.Member?
  {
    at + CommaLen(first) + |ms.before|
  }

  function NextAt(ms: Members, first: bool, at: nat): nat
    requires ms.Member?
  {
    ValueAt(ms, KeyAt(ms, first, at)) + Len(ms.value) + |ms.after|
  }

  lemma FirstMember(ms: Members, first: bool, at: nat, n: nat, parent: int, x: seq<Token>, next: nat, m: nat,
                    y: seq<Token>)
    returns (all: seq<Token>)
    requires ms.Member? && x == OwnTokens(ms, KeyAt(ms, first, at), n, parent)
    requires next == NextAt(ms, first, at) && m == n + 1 + Size(ms.value)
    requires y == MemberTokens(ms.rest, false, next, m, parent)
    ensures all == x + y && all == MemberTokens(ms, first, at, n, parent)
  {
    var start := KeyAt(ms, first, at);
    var k, v := [TextToken(ms.key, start, 1, parent)], TokensOf(ms.value, ValueAt(ms, start), n + 1, n);
    all := x + y;
    assert (k + v) + y == k + (v + y);
  }

  /** After a member its key is the superior token, and belongs to the object. */
  lemma KeyBelongs(q: Parser, toks: seq<Token>, key: Token, x: seq<Token>, k: nat)
    requires k < |toks| && q.toks == Bump(toks, k) + ([key] + x) && q.super == |toks|
    requires key.kind == Str && key.parent == k
    ensures BelongsTo(q, k)
  {
  }

  /** The comma before a member, and the blanks around it. */
  lemma ToMember(js: string, cap: nat, ms: Members, first: bool, p: Parser, k: nat, member: string) returns (q: Parser)
    requires ms.Member? && Chained(p) && ValidMembers(ms) && LastOpen(p.toks, k)
    requires Ahead(js, p.pos, Comma(first) + (ms.before + member))
    requires p.super == k || (!first && BelongsTo(p, k))
    ensures q == Parser(KeyAt(ms, first, p.pos), k, p.toks) && Moves(js, cap, p, q) && Ahead(js, q.pos, member)
  {
    var p1 := SkipComma(js, cap, p, first, k, ms.before + member);
    q := SkipBlank(js, cap, p1, ms.before, member);
  }

  /** The first of the members that are left, with its comma and the blanks around it. */
  lemma {:induction false} ParseFirst(js: string, cap: nat, ms: Members, first: bool, p: Parser, k: nat, rest: string)
    returns (q: Parser, x: seq<Token>)
    requires ms.Member? && Chained(p) && ValidMembers(ms) && EndsValue(rest)
    requires Ahead(js, p.pos, PrintMembers(ms, first, rest))
    requires LastOpen(p.toks, k) && |p.toks| + 1 + Size(ms.value) <= cap
    requires p.super == k || (!first && BelongsTo(p, k))
    ensures q.pos == NextAt(ms, first, p.pos) && q.toks == Bump(p.toks, k) + x && BelongsTo(q, k)
    ensures x == OwnTokens(ms, KeyAt(ms, first, p.pos), |p.toks|, k) && |x| == 1 + Size(ms.value) && Closed(x)
    ensures Moves(js, cap, p, q) && Ahead(js, q.pos, PrintMembers(ms.rest, false, rest))
    decreases ms.value, 2
  {
    var after := ms.after + PrintMembers(ms.rest, false, rest);
    var member := Quoted(ms.key, ms.colon + ([':'] + (ms.gap + Print(ms.value, after))));
    var p2 := ToMember(js, cap, ms, first, p, k, member);
    MembersEndValue(ms.after, ms.rest, rest);
    var p3;
    p3, x := ParseMember(js, cap, ms, p2, k, after);
    q := SkipBlank(js, cap, p3, ms.after, PrintMembers(ms.rest, false, rest));
  }

  lemma {:induction false} ParseMembers(js: string, cap: nat, ms: Members, first: bool, p: Parser, k: nat, rest: string)
    returns (q: Parser, all: seq<Token>)
    requires Chained(p) && ValidMembers(ms) && Ahead(js, p.pos, PrintMembers(ms, first, rest)) && EndsValue(rest)
    requires LastOpen(p.toks, k) && |p.toks| + MembersSize(ms) <= cap
    requires p.super == k || (!first && BelongsTo(p, k))
    ensures q.pos == p.pos + MembersLen(ms, first)
    ensures all == MemberTokens(ms, first, p.pos, |p.toks|, k) && Closed(all)
    ensures q.toks == Grow(p.toks, k, MemberCount(ms)) + all
    ensures Moves(js, cap, p, q) && Ahead(js, q.pos, rest)
    decreases ms, 0
  {
    match ms
    case NoMembers => q, all := p, [];
    case Member(b, key, c, g, v, a, more) =>
      var p1, x := ParseFirst(js, cap, ms, first, p, k, rest);
      StillLastOpen(p.toks, k, 1, x);
      var y;
      q, y := ParseMembers(js, cap, more, false, p1, k, rest);
      MemberTokensSize(ms, first, p.pos, |p.toks|, k);
      all := FirstMember(ms, first, p.pos, |p.toks|, k, x, p1.pos, |p1.toks|, y);
      GrowOnce(p.toks, x, y, k, MemberCount(more), p1.toks, MemberCount(ms), all);
  }

  // ---------- the round trip ----------

  /** Where the run gets to. */
  lemma AllRead(js: string, cap: nat, before: string, v: Json, after: string) returns (p: Parser)
    requires js == before + Print(v, after) && Blank(before) && ValidJson(v) && Blank(after) && Size(v) <= cap
    ensures Linkable(INIT) && p == Parser(|js|, -1, TokensOf(v, |before|, 0, -1))
    ensures Moves(js, cap, INIT, p) && Closed(p.toks)
  {
    InitHolds();
    assert Ahead(js, 0, before + Print(v, after));
    var p1 := SkipBlank(js, cap, INIT, before, Print(v, after));
    var p2, x := ParseValue(js, cap, v, p1, after);
    assert after + [] == after;
    p := SkipBlank(js, cap, p2, after, []);
    assert p2.toks == TokensOf(v, |before|, 0, -1);
    assert p.pos == |js|;
  }

  /** A printed value, with blanks around it, comes back as the preorder of its tree. */
  lemma RoundTrip(js: string, cap: nat, before: string, v: Json, after: string)
    requires js == before + Print(v, after) && Blank(before) && ValidJson(v) && Blank(after) && Size(v) <= cap
    ensures Parse(js, cap, INIT) == Done(Parser(|js|, -1, TokensOf(v, |before|, 0, -1)))
    ensures |TokensOf(v, |before|, 0, -1)| == Size(v)
  {
    var p := AllRead(js, cap, before, v, after);
    TokensOfSize(v, |before|, 0, -1);
  }

  /** With fewer tokens than nodes, and only then, it runs out of them. */
  lemma NeedsSizeExactly(js: string, cap: nat, before: string, v: Json, after: string)
    requires js == before + Print(v, after) && Blank(before) && ValidJson(v) && Blank(after)
    ensures Parse(js, cap, INIT).NoMem? <==> cap < Size(v)
    ensures CountTokens(js, 0, 0) == Counted(Size(v))
  {
    var more := cap + Size(v);
    RoundTrip(js, more, before, v, after);
    CountMatches(js, more, INIT);
    CountMatches(js, cap, INIT);
    Restart(js, cap, more, INIT);
    ParseBounds(js, cap, INIT);
  }
}
