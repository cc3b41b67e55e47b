/** What the tokeniser keeps, for every text and any number of tokens: the tokens are a well-formed forest,
    and a closing bracket closes the innermost open container. */
module JsmnForest {
  import opened Jsmn

  // ---------- tokens that differ in size and end only ----------

  /** b has the parents of a, and perhaps further tokens. */
  ghost predicate SameParents(a: seq<Token>, b: seq<Token>) {
    && |a| <= |b|
    && forall k :: 0 <= k < |a| ==> b[k].parent == a[k].parent
  }

  lemma {:induction false} ChildrenSame(a: seq<Token>, b: seq<Token>, i: int)
    requires SameParents(a, b) && |a| == |b|
    ensures Children(a, i) == Children(b, i)
    decreases |a|
  {
    if a != [] {
      ChildrenSame(a[..|a| - 1], b[..|a| - 1], i);
    }
  }

  lemma {:induction false} ChildrenBelow(toks: seq<Token>, i: int)
    requires Linked(toks) && i >= |toks|
    ensures Children(toks, i) == 0
    decreases |toks|
  {
    if toks != [] {
      ChildrenBelow(toks[..|toks| - 1], i);
    }
  }

  lemma {:induction false} ChainSame(a: seq<Token>, b: seq<Token>, i: int, hi: nat)
    requires Linked(a) && Linked(b) && SameParents(a, b) && -1 <= i < |a| && hi <= |a|
    requires forall k :: 0 <= k < hi && Open(b[k]) ==> Open(a[k])
    requires i <= hi && Chain(a, i, hi)
    ensures Chain(b, i, hi)
    decreases i
  {
    if i >= 0 {
      ChainSame(a, b, a[i].parent, i);
    }
  }

  // ---------- adding a token ----------

  ghost predicate Fits(p: Parser, t: Token, pos: nat) {
    p.pos <= t.start < pos && (Open(t) || t.start <= t.end <= pos)
  }

  lemma AddSizes(p: Parser, t: Token)
    requires Forest(p)
    ensures Linked(Add(p, t)) && Sized(Add(p, t))
  {
    var b, n := Bump(p.toks, p.super), |p.toks|;
    var r := Add(p, t);
    assert r[..n] == b;
    forall i | 0 <= i < |r|
      ensures r[i].size == Children(r, i)
    {
      ChildrenSame(p.toks, b, i);
      if i == n {
        ChildrenBelow(b, n);
      }
    }
  }

  lemma AddSpans(p: Parser, t: Token, pos: nat)
    requires Forest(p) && Fits(p, t, pos)
    ensures Spans(Add(p, t), pos) && Ordered(Add(p, t)) && Nested(Add(p, t))
  {
    var r := Add(p, t);
    forall i | 0 <= i < |p.toks|
      ensures r[i].start == p.toks[i].start < p.pos && r[i].end == p.toks[i].end <= p.pos
    {
    }
  }

  lemma AddChains(p: Parser, t: Token, pos: nat)
    requires Chained(p) && (Open(t) ==> Container(t.kind))
    ensures Chained(Parser(pos, if Open(t) then |p.toks| else p.super, Add(p, t)))
  {
    var r, n := Add(p, t), |p.toks|;
    assert Linked(r);
    assert forall j :: 0 <= j < n ==> Open(r[j]) == Open(p.toks[j]) && r[j].kind == p.toks[j].kind;
    ChainSame(p.toks, r, p.super, n);
    if !Open(t) {
      assert forall j :: p.super < j < n + 1 ==> !Open(r[j]);
    }
  }

  lemma AddKeeps(p: Parser, t: Token, pos: nat)
    requires Forest(p) && Fits(p, t, pos) && (Open(t) ==> Container(t.kind))
    ensures Forest(Parser(pos, if Open(t) then |p.toks| else p.super, Add(p, t)))
  {
    AddSizes(p, t);
    AddSpans(p, t, pos);
    AddChains(p, t, pos);
  }

  // ---------- the closing bracket ----------

  /** The last open token: the innermost open container. */
  ghost predicate LastOpen(toks: seq<Token>, t: nat) {
    t < |toks| && Open(toks[t]) && forall j :: t < j < |toks| ==> !Open(toks[j])
  }

  lemma {:induction false} ClimbFindsOpen(toks: seq<Token>, i: nat, hi: nat)
    requires Linked(toks) && i < hi <= |toks| && Chain(toks, i, hi)
    ensures var t := Climb(toks, i);
      && (if Open(toks[t]) then (forall j :: t < j < hi ==> !Open(toks[j])) && Chain(toks, toks[t].parent, t)
          else forall j :: 0 <= j < hi ==> !Open(toks[j]))
    decreases i
  {
    if !Open(toks[i]) {
      if toks[i].parent == -1 {
        assert Chain(toks, -1, i);
      } else {
        ClimbFindsOpen(toks, toks[i].parent, i);
      }
    }
  }

  /** With a container open, a closing bracket closes the innermost one, if it is of its kind. */
  lemma CloseClosesInnermost(p: Parser, kind: Kind, t: nat)
    requires Chained(p) && LastOpen(p.toks, t)
    ensures CloseStep(p, kind) ==
            if p.toks[t].kind != kind then Invalid(p)
            else More(Parser(p.pos + 1, p.toks[t].parent, p.toks[t := p.toks[t].(end := p.pos + 1)]))
  {
    ClimbFindsOpen(p.toks, |p.toks| - 1, |p.toks|);
  }

  /** Without one it is an error, or else it does nothing: exactly when the last token's root has its kind
      and there is a superior token. */
  lemma UnmatchedCloseExactly(p: Parser, kind: Kind)
    requires Chained(p) && !SomeOpen(p.toks)
    ensures CloseStep(p, kind) ==
            if p.toks != [] && p.toks[Climb(p.toks, |p.toks| - 1)].kind == kind && p.super != -1
            then More(p.(pos := p.pos + 1)) else Invalid(p)
  {
    if p.toks != [] {
      ClimbFindsOpen(p.toks, |p.toks| - 1, |p.toks|);
    }
  }

  /** An unmatched closing bracket can be accepted. */
  lemma UnmatchedCloseAccepted()
    ensures Parse("{}:}", 1, INIT) == Done(Parser(4, 0, [Token(Object, 0, 2, 0, -1)]))
  {
    var js := "{}:}";
    var open, closed := Token(Object, 0, -1, 0, -1), Token(Object, 0, 2, 0, -1);
    assert Add(INIT, open) == [open];
    var p1 := Parser(1, 0, [open]);
    assert Step(js, 1, INIT) == More(p1);
    assert Climb([open], 0) == 0;
    assert [open][0 := closed] == [closed];
    var p2 := Parser(2, -1, [closed]);
    assert Step(js, 1, p1) == More(p2);
    var p3 := Parser(3, 0, [closed]);
    assert Step(js, 1, p2) == More(p3);
    assert Climb([closed], 0) == 0;
    var p4 := Parser(4, 0, [closed]);
    assert Step(js, 1, p3) == More(p4);
    assert !Open([closed][0]);
    assert Parse(js, 1, p4) == Done(p4);
    assert Parse(js, 1, p3) == Done(p4);
    assert Parse(js, 1, p2) == Done(p4);
    assert Parse(js, 1, p1) == Done(p4);
  }

  lemma CloseSizes(toks: seq<Token>, t: nat, end: int)
    requires Linked(toks) && Sized(toks) && t < |toks|
    ensures Linked(toks[t := toks[t].(end := end)]) && Sized(toks[t := toks[t].(end := end)])
  {
    var r := toks[t := toks[t].(end := end)];
    forall i | 0 <= i < |r|
      ensures r[i].size == Children(r, i)
    {
      ChildrenSame(toks, r, i);
    }
  }

  lemma CloseSpans(p: Parser, t: nat)
    requires Forest(p) && LastOpen(p.toks, t)
    ensures var r := p.toks[t := p.toks[t].(end := p.pos + 1)];
      Spans(r, p.pos + 1) && Ordered(r) && Nested(r)
  {
    var r := p.toks[t := p.toks[t].(end := p.pos + 1)];
    forall i, j | 0 <= i < j < |r|
      ensures InsideOrAfter(r[i], r[j])
    {
      assert InsideOrAfter(p.toks[i], p.toks[j]);
    }
  }

  lemma ChainUp(toks: seq<Token>, i: nat, hi: nat)
    requires Linked(toks) && i < hi <= |toks| && Chain(toks, i, hi) && !Open(toks[i])
    ensures Chain(toks, toks[i].parent, hi)
  {
    var m := toks[i].parent;
    assert Chain(toks, m, i);
    assert forall j :: m < j < hi ==> !Open(toks[j]);
  }

  lemma CloseSuper(toks: seq<Token>, r: seq<Token>, t: nat)
    requires Linked(toks) && Linked(r) && SameParents(toks, r) && |r| == |toks| && t < |toks|
    requires Chain(toks, toks[t].parent, t) && (forall j :: t < j < |toks| ==> !Open(toks[j]))
    requires forall j :: 0 <= j < |r| ==> !Open(r[j]) || (j != t && Open(toks[j]))
    ensures Chain(r, toks[t].parent, |r|)
  {
    var m := toks[t].parent;
    ChainSame(toks, r, m, t);
    assert forall j :: m < j < |r| ==> !Open(r[j]);
  }

  lemma CloseOpenChains(p: Parser, t: nat, r: seq<Token>)
    requires Chained(p) && p.toks != [] && t == Climb(p.toks, |p.toks| - 1) && Open(p.toks[t])
    requires r == p.toks[t := p.toks[t].(end := p.pos + 1)]
    ensures LastOpen(p.toks, t) && Chained(Parser(p.pos + 1, p.toks[t].parent, r))
  {
    ClimbFindsOpen(p.toks, |p.toks| - 1, |p.toks|);
    assert Linked(r);
    ChainSame(p.toks, r, |r| - 1, |r|);
    CloseSuper(p.toks, r, t);
  }

  lemma CloseKeepsChains(p: Parser, kind: Kind)
    requires Chained(p) && CloseStep(p, kind).More?
    ensures Chained(CloseStep(p, kind).p)
  {
    var t := Climb(p.toks, |p.toks| - 1);
    if Open(p.toks[t]) {
      CloseOpenChains(p, t, p.toks[t := p.toks[t].(end := p.pos + 1)]);
    }
  }

  lemma CloseOpenKeeps(p: Parser, t: nat, r: seq<Token>)
    requires Forest(p) && p.toks != [] && t == Climb(p.toks, |p.toks| - 1) && Open(p.toks[t])
    requires r == p.toks[t := p.toks[t].(end := p.pos + 1)]
    ensures Forest(Parser(p.pos + 1, p.toks[t].parent, r))
  {
    CloseOpenChains(p, t, r);
    CloseSizes(p.toks, t, p.pos + 1);
    CloseSpans(p, t);
  }

  lemma MovesOn(p: Parser, pos: nat)
    requires Forest(p) && p.pos <= pos
    ensures Forest(p.(pos := pos))
  {
  }

  lemma CloseKeeps(p: Parser, kind: Kind)
    requires Forest(p) && CloseStep(p, kind).More?
    ensures Forest(CloseStep(p, kind).p)
  {
    var t := Climb(p.toks, |p.toks| - 1);
    var r := p.toks[t := p.toks[t].(end := p.pos + 1)];
    if Open(p.toks[t]) {
      assert CloseStep(p, kind).p == Parser(p.pos + 1, p.toks[t].parent, r);
      CloseOpenKeeps(p, t, r);
    } else {
      assert CloseStep(p, kind).p == p.(pos := p.pos + 1);
      MovesOn(p, p.pos + 1);
    }
  }

  // ---------- every step ----------

  lemma CommaKeepsChains(p: Parser)
    requires Chained(p)
    ensures CommaStep(p).More? && Chained(CommaStep(p).p)
  {
    var s := p.super;
    if s != -1 && !Container(p.toks[s].kind) {
      ChainUp(p.toks, s, |p.toks|);
    }
  }

  lemma StringKeeps(js: string, cap: nat, p: Parser)
    requires Forest(p) && StringStep(js, cap, p).More?
    ensures Forest(StringStep(js, cap, p).p)
  {
    var e := StringEnd(js, p.pos + 1).at;
    AddKeeps(p, Token(Str, p.pos + 1, e, 0, -1), e + 1);
  }

  lemma PrimitiveKeeps(js: string, cap: nat, p: Parser)
    requires Forest(p) && PrimitiveStep(js, cap, p).More? && p.pos < PrimitiveEnd(js, p.pos).value
    ensures Forest(PrimitiveStep(js, cap, p).p)
  {
    var e := PrimitiveEnd(js, p.pos).value;
    AddKeeps(p, Token(Primitive, p.pos, e, 0, -1), e);
  }

  lemma OpenKeeps(cap: nat, p: Parser, kind: Kind)
    requires Forest(p) && Container(kind) && OpenStep(cap, p, kind).More?
    ensures Forest(OpenStep(cap, p, kind).p)
  {
    AddKeeps(p, Token(kind, p.pos, -1, 0, -1), p.pos + 1);
  }

  lemma StepKeepsChains(js: string, cap: nat, p: Parser)
    requires Chained(p) && !AtEnd(js, p.pos) && Step(js, cap, p).More?
    ensures Chained(Step(js, cap, p).p)
  {
    var c, pos := js[p.pos], Step(js, cap, p).p.pos;
    if c == '{' || c == '[' {
      AddChains(p, Token(if c == '{' then Object else Array, p.pos, -1, 0, -1), pos);
    } else if c == '}' || c == ']' {
      CloseKeepsChains(p, if c == '}' then Object else Array);
    } else if c == '\"' {
      AddChains(p, Token(Str, p.pos + 1, pos - 1, 0, -1), pos);
    } else if c == ',' {
      CommaKeepsChains(p);
    } else if !Space(c) && c != ':' {
      AddChains(p, Token(Primitive, p.pos, pos, 0, -1), pos);
    }
  }

  predicate Separator(c: char) {
    Space(c) || c == ':' || c == ','
  }

  lemma SeparatorKeeps(js: string, cap: nat, p: Parser)
    requires Forest(p) && !AtEnd(js, p.pos) && Separator(js[p.pos])
    ensures Step(js, cap, p).More? && Forest(Step(js, cap, p).p)
  {
    StepKeepsChains(js, cap, p);
  }

  /** Every round keeps the forest well formed. */
  lemma StepKeeps(js: string, cap: nat, p: Parser)
    requires Forest(p) && !AtEnd(js, p.pos) && Step(js, cap, p).More?
    ensures Forest(Step(js, cap, p).p)
  {
    var c := js[p.pos];
    if c == '{' || c == '[' {
      OpenKeeps(cap, p, if c == '{' then Object else Array);
    } else if c == '}' || c == ']' {
      CloseKeeps(p, if c == '}' then Object else Array);
    } else if c == '\"' {
      StringKeeps(js, cap, p);
    } else if Separator(c) {
      SeparatorKeeps(js, cap, p);
    } else {
      PrimitiveKeeps(js, cap, p);
    }
  }

  /** So does every run, however it ends: the state it stops in has a well-formed forest. */
  lemma {:induction false} ParseKeeps(js: string, cap: nat, p: Parser)
    requires Forest(p)
    ensures Forest(Parse(js, cap, p).p)
    decreases |js| - p.pos
  {
    if AtEnd(js, p.pos) {
    } else if !Step(js, cap, p).More? {
      StepStays(js, cap, p);
    } else {
      var r := Step(js, cap, p);
      assert Forest(r.p) && p.pos < r.p.pos <= |js| by {
        StepAdvances(js, cap, p);
        StepKeeps(js, cap, p);
      }
      ParseKeeps(js, cap, r.p);
      assert Parse(js, cap, p) == Parse(js, cap, r.p);
    }
  }

  /** It never uses more tokens than there are, and is done only without an open token. */
  lemma {:induction false} ParseBounds(js: string, cap: nat, p: Parser)
    requires Linkable(p) && |p.toks| <= cap
    ensures var r := Parse(js, cap, p);
      && |r.p.toks| <= cap && p.pos <= r.p.pos && (p.pos <= |js| ==> r.p.pos <= |js|)
      && (r.Done? ==> !SomeOpen(r.p.toks) && AtEnd(js, r.p.pos))
    decreases |js| - p.pos
  {
    if !AtEnd(js, p.pos) {
      var r := Step(js, cap, p);
      if r.More? {
        StepAdvances(js, cap, p);
        ParseBounds(js, cap, r.p);
      } else {
        StepStays(js, cap, p);
      }
    }
  }

  lemma InitHolds()
    ensures Forest(INIT)
  {
  }

  // ---------- what Chain says ----------

  predicate Ancestor(toks: seq<Token>, a: int, i: int)
    requires Linked(toks) && -1 <= i < |toks|
    decreases i
  {
    i >= 0 && (a == i || Ancestor(toks, a, toks[i].parent))
  }

  /** Chain says that every open token is i or an ancestor of i. */
  lemma {:induction false} ChainMeans(toks: seq<Token>, i: int, hi: nat)
    requires Linked(toks) && -1 <= i < hi <= |toks|
    ensures Chain(toks, i, hi) <==> (forall j :: 0 <= j < hi && Open(toks[j]) ==> Ancestor(toks, j, i))
    decreases i
  {
    AncestorsBelow(toks, i);
    if i >= 0 {
      if i > 0 {
        ChainMeans(toks, toks[i].parent, i);
      }
    }
  }

  lemma {:induction false} AncestorsBelow(toks: seq<Token>, i: int)
    requires Linked(toks) && -1 <= i < |toks|
    ensures forall a :: Ancestor(toks, a, i) ==> 0 <= a <= i
    decreases i
  {
    if i >= 0 {
      AncestorsBelow(toks, toks[i].parent);
    }
  }
}
