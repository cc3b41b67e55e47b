/** What the tokeniser makes of a text that is cut off: it never takes it for a wrong one, and a container or string
    that is not complete is reported as such. */
module JsmnTruncated {
  import opened Basics
  import opened Jsmn
  import opened JsmnForest
  import opened JsmnRestart
  import opened JsmnRoundTrip

  // ---------- scanning a text that is cut off ----------

  lemma {:induction false} HexPrefix(js: string, n: nat, i: nat, k: nat)
    requires i <= n <= |js| && HexEnd(js, i, k).Some?
    ensures HexEnd(js[..n], i, k) == Some(Min(HexEnd(js, i, k).value, n))
    decreases k
  {
    if k > 0 && !AtEnd(js, i) && i < n {
      HexPrefix(js, n, i + 1, k - 1);
    }
  }

  lemma {:induction false} PrimitivePrefix(js: string, n: nat, i: nat)
    requires i <= n <= |js| && PrimitiveEnd(js, i).Some?
    ensures PrimitiveEnd(js[..n], i) == Some(Min(PrimitiveEnd(js, i).value, n))
    decreases |js| - i
  {
    if i < n && !AtEnd(js, i) && !Delimiter(js[i]) {
      PrimitivePrefix(js, n, i + 1);
    }
  }

  /** A string that is cut off is not complete. */
  lemma {:induction false} StringPrefix(js: string, n: nat, i: nat)
    requires i <= n <= |js| && !StringEnd(js, i).BadString?
    ensures var r := StringEnd(js, i);
      StringEnd(js[..n], i) == if r.Ended? && r.at < n then r else NoEnd
    decreases |js| - i
  {
    var cut := js[..n];
    if i < n && !AtEnd(js, i) && js[i] != '\"' {
      assert cut[i] == js[i];
      if js[i] == '\\' && i + 1 < |js| {
        EscapePrefix(js, n, i);
      } else {
        StringPrefix(js, n, i + 1);
      }
    }
  }

  lemma {:induction false} EscapePrefix(js: string, n: nat, i: nat)
    requires i < n <= |js| && !StringEnd(js, i).BadString? && js[i] == '\\' && i + 1 < |js|
    ensures var r := StringEnd(js, i);
      StringEnd(js[..n], i) == if r.Ended? && r.at < n then r else NoEnd
    decreases |js| - i, 0
  {
    var cut := js[..n];
    assert cut[i] == js[i];
    if i + 1 == n {
      assert AtEnd(cut, i + 1);
    } else if Escaped(js[i + 1]) {
      if i + 2 <= n {
        StringPrefix(js, n, i + 2);
      }
    } else {
      HexPrefix(js, n, i + 2, 4);
      var e := HexEnd(js, i + 2, 4).value;
      if e <= n {
        StringPrefix(js, n, e);
      } else {
        assert AtEnd(cut, n);
      }
    }
  }

  // ---------- rounds ----------

  /** The primitive that is cut off at n. */
  function CutPrimitive(p: Parser, n: nat): Parser
    requires Linkable(p)
  {
    Parser(n, p.super, Add(p, Token(Primitive, p.pos, n, 0, -1)))
  }

  /** A round that ends before the cut is the same; one that does not is a string that is not complete, or a shorter
      primitive. */
  lemma StepPrefix(js: string, n: nat, cap: nat, p: Parser)
    requires Linkable(p) && p.pos < n <= |js| && !AtEnd(js, p.pos)
    requires Step(js, cap, p).More? || Step(js, cap, p).Partial?
    ensures !AtEnd(js[..n], p.pos)
    ensures var r, cut := Step(js, cap, p), Step(js[..n], cap, p);
      if r.More? && r.p.pos <= n then cut == r else cut == Partial(p) || (r.More? && cut == More(CutPrimitive(p, n)))
  {
    var c := js[p.pos];
    assert js[..n][p.pos] == c;
    if c == '\"' {
      StringPrefix(js, n, p.pos + 1);
    } else if c !in "{}[]:," && !Space(c) {
      PrimitivePrefix(js, n, p.pos);
    }
  }

  predicate NotWrong(r: Result) {
    r.Done? || r.Partial?
  }

  /** A text that is not wrong is not wrong when it is cut off anywhere, nor does it need more tokens. */
  lemma {:induction false} PrefixNeverWrong(js: string, n: nat, cap: nat, p: Parser)
    requires Linkable(p) && p.pos <= n <= |js| && NotWrong(Parse(js, cap, p))
    ensures NotWrong(Parse(js[..n], cap, p))
    decreases |js| - p.pos
  {
    if p.pos < n && !AtEnd(js, p.pos) {
      StepPrefix(js, n, cap, p);
      var r := Step(js, cap, p);
      if r.More? {
        StepAdvances(js, cap, p);
        if r.p.pos <= n {
          PrefixNeverWrong(js, n, cap, r.p);
        }
      }
    }
  }

  // ---------- a container that is not complete ----------

  /** A closed first token keeps its end. */
  lemma FirstStays(js: string, cap: nat, p: Parser)
    requires Linkable(p) && !AtEnd(js, p.pos) && p.toks != [] && !Open(p.toks[0]) && Step(js, cap, p).More?
    ensures var q := Step(js, cap, p).p;
      q.toks != [] && !Open(q.toks[0]) && q.toks[0].end == p.toks[0].end
  {
  }

  lemma {:induction false} FirstEndStays(js: string, cap: nat, p: Parser)
    requires Linkable(p) && p.toks != [] && !Open(p.toks[0])
    ensures var r := Parse(js, cap, p).p;
      r.toks != [] && r.toks[0].end == p.toks[0].end
    decreases |js| - p.pos
  {
    if !AtEnd(js, p.pos) {
      var r := Step(js, cap, p);
      if r.More? {
        StepAdvances(js, cap, p);
        FirstStays(js, cap, p);
        FirstEndStays(js, cap, r.p);
      } else {
        StepStays(js, cap, p);
      }
    }
  }

  /** Where the first token is closed behind the cut, the text that is cut off leaves it open. */
  lemma {:induction false} RootStaysOpen(js: string, n: nat, cap: nat, p: Parser)
    requires Forest(p) && p.pos <= n <= |js| && p.toks != [] && Parse(js, cap, p).Done?
    requires Parse(js, cap, p).p.toks != [] && Parse(js, cap, p).p.toks[0].end > n
    ensures Parse(js[..n], cap, p).Partial?
    decreases |js| - p.pos
  {
    if !Open(p.toks[0]) {
      FirstEndStays(js, cap, p);
    }
    assert SomeOpen(p.toks);
    if p.pos < n && !AtEnd(js, p.pos) {
      StepPrefix(js, n, cap, p);
      StepAdvances(js, cap, p);
      StepKeeps(js, cap, p);
      var r := Step(js, cap, p);
      if r.p.pos <= n {
        RootStaysOpen(js, n, cap, r.p);
      } else if Step(js[..n], cap, p).More? {
        StillOpen(js[..n], cap, p, n);
      }
    }
  }

  lemma StillOpen(cut: string, cap: nat, p: Parser, n: nat)
    requires Linkable(p) && p.pos < n == |cut| && p.toks != [] && Open(p.toks[0]) && !AtEnd(cut, p.pos)
    requires Step(cut, cap, p) == More(CutPrimitive(p, n))
    ensures Parse(cut, cap, p).Partial?
  {
    var q := CutPrimitive(p, n);
    assert Open(q.toks[0]);
    assert Parse(cut, cap, p) == Parse(cut, cap, q);
  }

  // ---------- printed values that are cut off ----------

  /** Up to the first character of the value. */
  lemma AtValue(cut: string, cap: nat, before: string, t: string) returns (p: Parser)
    requires cut == before + t && Blank(before)
    ensures p == Parser(|before|, -1, []) && Moves(cut, cap, INIT, p) && Forest(p)
  {
    InitHolds();
    assert Ahead(cut, 0, before + t);
    p := SkipBlank(cut, cap, INIT, before, t);
  }

  lemma CutText(js: string, before: string, t: string, n: nat)
    requires js == before + t && |before| <= n <= |js|
    ensures js[..n] == before + t[..n - |before|] && js[|before|..] == t
  {
  }

  lemma OpensRoot(js: string, cap: nat, p: Parser, kind: Kind)
    requires p == Parser(p.pos, -1, []) && p.pos < |js| && cap > 0 && Container(kind)
    requires js[p.pos] == if kind == Object then '{' else '['
    ensures Step(js, cap, p) == More(Parser(p.pos + 1, 0, [Token(kind, p.pos, -1, 0, -1)]))
  {
    assert Add(p, Token(kind, p.pos, -1, 0, -1)) == [Token(kind, p.pos, -1, 0, -1)];
  }

  lemma TruncatedString(js: string, cap: nat, at: nat, pieces: seq<Piece>, after: string, n: nat, p: Parser)
    requires Ahead(js, at, Quoted(pieces, after)) && ValidPieces(pieces) && p == Parser(at, -1, [])
    requires at < n < at + PiecesLen(pieces) + 2 && n <= |js|
    ensures Parse(js[..n], cap, p).Partial?
  {
    AheadSkip(js, at, ['\"'], PrintPieces(pieces, ['\"'] + after));
    assert js[at + 0] == '\"' && js[..n][at] == '\"';
    ScanPieces(js, at + 1, pieces, after);
    StringPrefix(js, n, at + 1);
    assert Step(js[..n], cap, p) == Partial(p);
  }

  lemma TruncatedContainer(js: string, cap: nat, kind: Kind, end: nat, n: nat, p: Parser)
    requires p == Parser(p.pos, -1, []) && Forest(p) && p.pos < n < end && n <= |js| && cap > 0 && Container(kind)
    requires js[p.pos] == if kind == Object then '{' else '['
    requires Parse(js, cap, p).Done? && Parse(js, cap, p).p.toks != [] && Parse(js, cap, p).p.toks[0].end == end
    ensures Parse(js[..n], cap, p).Partial?
  {
    OpensRoot(js, cap, p, kind);
    OpensRoot(js[..n], cap, p, kind);
    StepKeeps(js, cap, p);
    RootStaysOpen(js, n, cap, Step(js, cap, p).p);
  }

  /** The first token of a container spans it. */
  lemma RootToken(v: Json, at: nat)
    requires v.JArray? || v.JObject?
    ensures Size(v) > 0 && TokensOf(v, at, 0, -1) != [] && TokensOf(v, at, 0, -1)[0].end == at + Len(v)
  {
    TokensOfSize(v, at, 0, -1);
  }

  /** A value that is not a primitive, cut off before its last character, is reported as not complete. */
  lemma TruncatedIsPartial(js: string, cap: nat, before: string, v: Json, after: string, n: nat)
    requires js == before + Print(v, after) && Blank(before) && ValidJson(v) && Blank(after) && Size(v) <= cap
    requires !v.JPrimitive? && |before| < n < |before| + Len(v) && n <= |js|
    ensures Parse(js[..n], cap, INIT).Partial?
  {
    var t, at := Print(v, after), |before|;
    CutText(js, before, t, n);
    var p := AtValue(js, cap, before, t);
    var p' := AtValue(js[..n], cap, before, t[..n - at]);
    if v.JText? {
      TruncatedString(js, cap, at, v.pieces, after, n, p);
    } else {
      RoundTrip(js, cap, before, v, after);
      RootToken(v, at);
      assert js[at] == t[0];
      TruncatedContainer(js, cap, if v.JObject? then Object else Array, at + Len(v), n, p);
    }
  }
}
