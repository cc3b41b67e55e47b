/** Which strings and primitives the tokeniser takes, and what it makes of a text that is cut off. */
module JsmnErrors {
  import opened Basics
  import opened Jsmn
  import opened JsmnForest
  import opened JsmnRoundTrip

  // ---------- primitives ----------

  ghost predicate PrimitiveAt(js: string, i: nat, e: nat) {
    && i <= e <= |js| && (forall k :: i <= k < e ==> PrimitiveChar(js[k]))
    && (e == |js| || js[e] == '\0' || js[e] in " \t\n\r:,]}")
  }

  lemma {:induction false} PrimitiveIs(js: string, i: nat, e: nat)
    requires PrimitiveAt(js, i, e)
    ensures PrimitiveEnd(js, i) == Some(e)
    decreases e - i
  {
    if i < e {
      CharacterClasses(js[i]);
      PrimitiveIs(js, i + 1, e);
    } else if e < |js| {
      CharacterClasses(js[e]);
    }
  }

  /** A primitive is taken if and only if it consists of printable characters up to the end of the text or one of the
      eight characters behind a value. */
  lemma {:induction false} PrimitiveExactly(js: string, i: nat)
    requires i <= |js|
    ensures forall e: nat :: PrimitiveEnd(js, i) == Some(e) <==> PrimitiveAt(js, i, e)
    decreases |js| - i
  {
    if PrimitiveEnd(js, i).Some? {
      PrimitiveTaken(js, i);
    }
    forall e: nat | PrimitiveAt(js, i, e)
      ensures PrimitiveEnd(js, i) == Some(e)
    {
      PrimitiveIs(js, i, e);
    }
  }

  lemma {:induction false} PrimitiveTaken(js: string, i: nat)
    requires i <= |js| && PrimitiveEnd(js, i).Some?
    ensures PrimitiveAt(js, i, PrimitiveEnd(js, i).value)
    decreases |js| - i
  {
    if i < |js| {
      CharacterClasses(js[i]);
      if !AtEnd(js, i) && !Delimiter(js[i]) {
        PrimitiveTaken(js, i + 1);
      }
    }
  }

  // ---------- strings ----------

  /** What stands behind the last whole character of a string: its end. */
  predicate ClosesString(t: string) {
    t != [] && t[0] == '\"'
  }

  /** A backslash and a letter that means nothing, or u and fewer than four hexadecimal digits before another
      character. */
  predicate BadEscape(t: string) {
    && |t| >= 2 && t[0] == '\\'
    && if t[1] == 'u' then BadHex(t[2..], 4) else !EscapeLetter(t[1])
  }

  predicate BadHex(t: string, n: nat) {
    n > 0 && t != [] && t[0] != '\0' && (!HexDigit(t[0]) || BadHex(t[1..], n - 1))
  }

  /** The end of the text, where an escape may have begun. */
  predicate CutOff(t: string) {
    || t == [] || t[0] == '\0' || t == ['\\']
    || (|t| >= 2 && t[0] == '\\' && t[1] == 'u' && CutHex(t[2..], 4))
  }

  predicate CutHex(t: string, n: nat) {
    n > 0 && (t == [] || t[0] == '\0' || (HexDigit(t[0]) && CutHex(t[1..], n - 1)))
  }

  lemma {:induction false} HexCut(js: string, i: nat, n: nat)
    requires i <= |js|
    ensures HexEnd(js, i, n).None? <==> BadHex(js[i..], n)
    ensures HexEnd(js, i, n).Some? && AtEnd(js, HexEnd(js, i, n).value) && HexEnd(js, i, n).value < i + n
            <==> CutHex(js[i..], n)
    decreases n
  {
    if n > 0 && i < |js| && js[i] != '\0' {
      CharacterClasses(js[i]);
      assert js[i..][1..] == js[i + 1..];
      HexCut(js, i + 1, n - 1);
    }
  }

  lemma HexNext(js: string, i: nat, n: nat)
    requires i <= |js| && n > 0 && HexEnd(js, i, n).Some? && !CutHex(js[i..], n)
    ensures i < |js| && HexDigit(js[i]) && HexEnd(js, i + 1, n - 1).Some? && !CutHex(js[i + 1..], n - 1)
  {
    assert i < |js| && js[i..][0] == js[i];
    CharacterClasses(js[i]);
    assert js[i..][1..] == js[i + 1..];
  }

  /** Four digits, or their end is the end of the text. */
  lemma HexWhole(js: string, i: nat)
    requires i <= |js| && HexEnd(js, i, 4).Some? && !CutHex(js[i..], 4)
    ensures i + 4 <= |js| && HexDigit(js[i]) && HexDigit(js[i + 1]) && HexDigit(js[i + 2]) && HexDigit(js[i + 3])
  {
    HexNext(js, i, 4);
    HexNext(js, i + 1, 3);
    HexNext(js, i + 2, 2);
    HexNext(js, i + 3, 1);
  }

  /** What a string comes to once its whole characters are read. */
  function Outcome(t: string, at: nat): StringScan {
    if ClosesString(t) then Ended(at) else if BadEscape(t) then BadString else NoEnd
  }

  /** Where a string stops, it has come to its end. */
  lemma Stops(js: string, i: nat)
    requires i <= |js| && (ClosesString(js[i..]) || BadEscape(js[i..]) || CutOff(js[i..]))
    ensures StringEnd(js, i) == Outcome(js[i..], i)
  {
    var t := js[i..];
    if |t| >= 2 && t[0] == '\\' {
      CharacterClasses(t[1]);
      assert t[2..] == js[i + 2..];
      if t[1] == 'u' {
        HexCut(js, i + 2, 4);
        assert !(BadHex(t[2..], 4) && CutHex(t[2..], 4));
      }
    } else if t == ['\\'] {
      assert AtEnd(js, i + 1);
    }
  }

  /** Whether there is a whole character, and which. */
  lemma NextPiece(js: string, i: nat) returns (p: Piece)
    requires i <= |js| && !ClosesString(js[i..]) && !BadEscape(js[i..]) && !CutOff(js[i..])
    ensures ValidPiece(p) && i + |PrintPiece(p)| <= |js| && js[i..] == PrintPiece(p) + js[i + |PrintPiece(p)|..]
  {
    var t := js[i..];
    if t[0] != '\\' {
      p := Plain(t[0]);
    } else if t[1] != 'u' {
      p := Escape(t[1]);
    } else {
      assert t[2..] == js[i + 2..];
      HexCut(js, i + 2, 4);
      HexWhole(js, i + 2);
      p := Unicode(js[i + 2], js[i + 3], js[i + 4], js[i + 5]);
    }
  }

  predicate AtStringEnd(t: string) {
    ClosesString(t) || BadEscape(t) || CutOff(t)
  }

  /** One more whole character in front. */
  lemma PieceInFront(p: Piece, s: seq<Piece>, t: string)
    requires ValidPiece(p) && ValidPieces(s)
    ensures ValidPieces([p] + s) && PrintPieces([p] + s, t) == PrintPiece(p) + PrintPieces(s, t)
    ensures PiecesLen([p] + s) == |PrintPiece(p)| + PiecesLen(s)
  {
    assert ([p] + s)[1..] == s;
  }

  /** The pieces s and the rest t of the string that goes on at i. */
  ghost predicate StringParts(js: string, i: nat, s: seq<Piece>, t: string)
    requires i <= |js|
  {
    && ValidPieces(s) && js[i..] == PrintPieces(s, t) && AtStringEnd(t)
    && StringEnd(js, i) == Outcome(t, i + PiecesLen(s))
  }

  /** p is printed at i, in n characters. */
  ghost predicate PieceAt(js: string, i: nat, p: Piece, n: nat) {
    ValidPiece(p) && n == |PrintPiece(p)| > 0 && i + n <= |js| && js[i..] == PrintPiece(p) + js[i + n..]
  }

  /** A whole character, or the end. */
  lemma PieceOrEnd(js: string, i: nat) returns (p: Option<Piece>, n: nat)
    requires i <= |js|
    ensures p.None? ==> StringParts(js, i, [], js[i..])
    ensures p.Some? ==> PieceAt(js, i, p.value, n)
  {
    n := 0;
    if AtStringEnd(js[i..]) {
      Stops(js, i);
      p := None;
    } else {
      var next := NextPiece(js, i);
      p, n := Some(next), |PrintPiece(next)|;
    }
  }

  lemma MoreParts(js: string, i: nat, p: Piece, n: nat, s: seq<Piece>, t: string)
    requires PieceAt(js, i, p, n) && StringParts(js, i + n, s, t)
    ensures StringParts(js, i, [p] + s, t)
  {
    PieceInFront(p, s, t);
    ScanPiece(js, i, p, js[i + n..]);
  }

  /** Every text behind an opening quote consists of whole characters and what stands behind them, and that decides
      what becomes of the string: it is taken up to a quote, rejected for a bad escape, or not yet complete. */
  lemma {:induction false} StringExactly(js: string, i: nat) returns (s: seq<Piece>, t: string)
    requires i <= |js|
    ensures StringParts(js, i, s, t)
    decreases |js| - i
  {
    var p, n := PieceOrEnd(js, i);
    if p.None? {
      s, t := [], js[i..];
    } else {
      s, t := StringExactly(js, i + n);
      MoreParts(js, i, p.value, n, s, t);
      s := [p.value] + s;
    }
  }

  /** A round that starts a string or a primitive is an error, or asks for more, just when its scan does. */
  lemma ScanErrors(js: string, cap: nat, p: Parser)
    requires Linkable(p) && !AtEnd(js, p.pos)
    ensures js[p.pos] == '\"' ==>
      && (Step(js, cap, p).Invalid? <==> StringEnd(js, p.pos + 1).BadString?)
      && (Step(js, cap, p).Partial? <==> StringEnd(js, p.pos + 1).NoEnd?)
    ensures js[p.pos] !in "{}[]\" \t\n\r:," ==>
      (Step(js, cap, p).Invalid? <==> PrimitiveEnd(js, p.pos).None?) && !Step(js, cap, p).Partial?
  {
    CharacterClasses(js[p.pos]);
  }
}
