/** Which records make a call of the Intel HEX decoder fail. */
module IhexErrors {
  import opened Basics
  import opened Bytes
  import opened IntelHex
  import opened IhexRuns
  import opened IhexSchedules
  import opened IhexPrinter
  import opened Numerals

  predicate HexChar(c: byte) {
    c in UPPER || c in LOWER
  }

  predicate HexChars(t: seq<byte>) {
    forall i :: 0 <= i < |t| ==> HexChar(t[i])
  }

  /** The decoder takes these characters for digits, and no others. */
  lemma DigitsExactly(c: byte)
    ensures HexChar(c) <==> Nibble(c) >= 0
  {
    assert Nibble(c) >= 0 ==> UPPER[Nibble(c)] == c || LOWER[Nibble(c)] == c;
  }

  lemma AllHexExactly(t: seq<byte>)
    ensures HexChars(t) <==> AllHex(t)
  {
    forall i | 0 <= i < |t|
      ensures HexChar(t[i]) <==> Nibble(t[i]) >= 0
    {
      DigitsExactly(t[i]);
    }
  }

  /** Up to n characters from place i on. */
  function Part(live: seq<byte>, i: nat, n: nat): seq<byte>
    requires i <= |live|
  {
    live[i..i + Min(n, |live| - i)]
  }

  /** A number is bad if and only if one of its characters that are there is no digit. */
  lemma {:induction false} ScanBadExactly(live: seq<byte>, i: nat, n: nat, acc: nat)
    requires i <= |live|
    ensures ScanHex(live, i, n, acc) == Bad <==> !AllHex(Part(live, i, n))
    decreases n
  {
    if i < |live| && n > 0 {
      assert Part(live, i, n) == [live[i]] + Part(live, i + 1, n - 1);
      if Nibble(live[i]) >= 0 {
        ScanBadExactly(live, i + 1, n - 1, 16 * acc + Nibble(live[i]));
        FirstHex(live[i], Part(live, i + 1, n - 1));
      } else {
        assert Part(live, i, n)[0] == live[i];
      }
    }
  }

  lemma FirstHex(c: byte, t: seq<byte>)
    requires Nibble(c) >= 0
    ensures AllHex([c] + t) <==> AllHex(t)
  {
    if AllHex([c] + t) {
      assert forall i :: 0 <= i < |t| ==> t[i] == ([c] + t)[i + 1];
    }
  }

  /** The digits of a header, and the three numbers they stand for. */
  predicate Header(head: seq<byte>, count: nat, addr: nat, kind: nat) {
    |head| == 8 && IsNumber(head[..2], count, 2) && IsNumber(head[2..6], addr, 4) && IsNumber(head[6..], kind, 2)
  }

  /** A text with a single colon, in front of at least eight characters. */
  ghost predicate OneLine(live: seq<byte>, lead: seq<byte>, head: seq<byte>, rest: seq<byte>) {
    58 !in lead && 58 !in rest && |head| == 8 && live == lead + ([58] + (head + rest))
  }

  lemma LineParts(live: seq<byte>, lead: seq<byte>, head: seq<byte>, rest: seq<byte>)
    requires OneLine(live, lead, head, rest)
    ensures FindColon(live, 0) == |lead| && |live| == |lead| + 9 + |rest|
    ensures live[|lead| + 1..|lead| + 9] == head && live[|lead| + 9..] == rest
  {
    ColonOfText(live, lead, head + rest);
  }

  /** A character of the header that is no digit. */
  lemma BadHeader(live: seq<byte>, lead: seq<byte>, head: seq<byte>, rest: seq<byte>)
    requires OneLine(live, lead, head, rest) && !HexChars(head)
    ensures PeekHeader(live) == Error
  {
    LineParts(live, lead, head, rest);
    AllHexExactly(head);
    var i := |lead| + 1;
    ScanBadExactly(live, i, 2, 0);
    ScanBadExactly(live, i + 2, 4, 0);
    ScanBadExactly(live, i + 6, 2, 0);
    HeadParts(live, i, head);
    FieldsHex(head);
    ScanEnds(live, i, 2);
    ScanEnds(live, i + 2, 4);
  }

  lemma HeadParts(live: seq<byte>, i: nat, head: seq<byte>)
    requires i + 8 <= |live| && live[i..i + 8] == head
    ensures Part(live, i, 2) == head[..2] && Part(live, i + 2, 4) == head[2..6] && Part(live, i + 6, 2) == head[6..]
  {
    Slice(live, i, i + 8, 0, 2);
    Slice(live, i, i + 8, 2, 6);
    Slice(live, i, i + 8, 6, 8);
  }

  lemma FieldsHex(head: seq<byte>)
    requires |head| == 8
    ensures AllHex(head) <==> AllHex(head[..2]) && AllHex(head[2..6]) && AllHex(head[6..])
  {
    if AllHex(head[..2]) && AllHex(head[2..6]) && AllHex(head[6..]) {
      forall i | 0 <= i < 8
        ensures Nibble(head[i]) >= 0
      {
        assert head[i] == if i < 2 then head[..2][i] else if i < 6 then head[2..6][i - 2] else head[6..][i - 6];
      }
    }
  }

  /** Behind a number that does not end the text there is a value. */
  lemma ScanEnds(live: seq<byte>, i: nat, n: nat)
    requires i + n < |live|
    ensures !ScanHex(live, i, n, 0).NotYet?
  {
    if AllHex(live[i..i + n]) {
      ScanReady(live, i, n, 0);
    } else {
      ScanBadExactly(live, i, n, 0);
    }
  }

  /** The header of a line that is there as a whole. */
  lemma HeaderRead(live: seq<byte>, lead: seq<byte>, head: seq<byte>, rest: seq<byte>, count: nat, addr: nat, kind: nat)
    requires OneLine(live, lead, head, rest) && Header(head, count, addr, kind) && |rest| >= 2 * count + 2
    ensures PeekHeader(live) == if kind > 5 then Error else Line(|lead| + 9, count, addr, kind)
  {
    LineParts(live, lead, head, rest);
    var i := |lead| + 1;
    HeadParts(live, i, head);
    NumberRead(live, i, 2, count);
    NumberRead(live, i + 2, 4, addr);
    NumberRead(live, i + 6, 2, kind);
  }

  lemma NumberRead(live: seq<byte>, i: nat, n: nat, v: nat)
    requires i + n < |live| && IsNumber(live[i..i + n], v, n)
    ensures ScanHex(live, i, n, 0) == Value(v)
  {
    NumberValue(live[i..i + n], v, n);
    ScanReady(live, i, n, 0);
    ScanIsValue(live, i, n, 0);
  }

  // ---------- one line ----------

  lemma RestHasNoColon(c: Chunk, lead: seq<byte>, head: seq<byte>, rest: seq<byte>, m: nat, next: Chunk)
    requires OneLine(c.live, lead, head, rest) && |lead| + 9 + m <= |c.live| && next.live == c.live[|lead| + 9 + m..]
    ensures NoColon(next.live)
  {
    LineParts(c.live, lead, head, rest);
    forall i | 0 <= i < |next.live|
      ensures next.live[i] != COLON
    {
      assert next.live[i] == rest[m + i];
      assert rest[m + i] in rest;
    }
  }

  lemma DataFailsExactly(c: Chunk, space: nat, lead: seq<byte>, head: seq<byte>, rest: seq<byte>, count: nat, addr: nat)
    requires OneLine(c.live, lead, head, rest) && |rest| >= 2 * count + 2
    ensures var h := Line(|lead| + 9, count, addr, DATA);
      && h.length + 2 * h.count + 2 <= |c.live|
      && (DataLine(c, h, space).Fail? <==> space >= |c.out| + count && !HexChars(rest[..2 * count]))
      && (DataLine(c, h, space).Stop? ==> NoColon(DataLine(c, h, space).c.live))
  {
    LineParts(c.live, lead, head, rest);
    var h := Line(|lead| + 9, count, addr, DATA);
    Slice(c.live, |lead| + 9, |c.live|, 0, 2 * count);
    assert rest == c.live[|lead| + 9..|c.live|];
    AllHexExactly(rest[..2 * count]);
    if DataLine(c, h, space).Stop? {
      RestHasNoColon(c, lead, head, rest, 2 * count + 2, DataLine(c, h, space).c);
    }
  }

  lemma NumberFailsExactly(c: Chunk, lead: seq<byte>, head: seq<byte>, rest: seq<byte>, h: Peek, n: nat)
    requires OneLine(c.live, lead, head, rest) && h.Line? && h.length == |lead| + 9
    ensures h.length <= |c.live| && (NumberLine(c, h, n).Fail? <==> !HexChars(Part(rest, 0, n)))
    ensures NumberLine(c, h, n).Stop? ==> NoColon(NumberLine(c, h, n).c.live)
  {
    LineParts(c.live, lead, head, rest);
    ScanBadExactly(c.live, h.length, n, 0);
    Slice(c.live, |lead| + 9, |c.live|, 0, Min(n, |rest|));
    assert rest == c.live[|lead| + 9..|c.live|];
    assert Part(c.live, h.length, n) == Part(rest, 0, n);
    AllHexExactly(Part(rest, 0, n));
    if NumberLine(c, h, n).Stop? {
      RestHasNoColon(c, lead, head, rest, n, NumberLine(c, h, n).c);
    }
  }

  /** What makes the record wrong: a type beyond 5, a segment address, or a digit that is none. The data of a record
      are looked at only if there is room for them. */
  predicate WrongRecord(count: nat, kind: nat, rest: seq<byte>, fits: bool)
    requires |rest| >= 2 * count + 2
  {
    if kind == 0 then fits && !HexChars(rest[..2 * count])
    else if kind == 4 then !HexChars(Part(rest, 0, 4))
    else if kind == 3 || kind == 5 then !HexChars(Part(rest, 0, 8))
    else kind != 1
  }

  /** A call whose only line has arrived as a whole fails if and only if its header has a character that is no digit,
      or its record is wrong. */
  lemma LineFailsExactly(c: Chunk, space: nat, lead: seq<byte>, head: seq<byte>, rest: seq<byte>,
                         count: nat, addr: nat, kind: nat)
    requires OneLine(c.live, lead, head, rest) && !c.started
    requires HexChars(head) ==> Header(head, count, addr, kind) && |rest| >= 2 * count + 2
    ensures Decode(c, space).Fail? <==>
            (HexChars(head) ==> WrongRecord(count, kind, rest, space >= |c.out| + count))
  {
    if !HexChars(head) {
      BadHeader(c.live, lead, head, rest);
    } else {
      HeaderRead(c.live, lead, head, rest, count, addr, kind);
      if kind <= 5 {
        PeekFits(c.live);
        LineStepFails(c, space, lead, head, rest, Line(|lead| + 9, count, addr, kind));
        LineEndsCall(c, space, Line(|lead| + 9, count, addr, kind));
      }
    }
  }

  lemma LineStepFails(c: Chunk, space: nat, lead: seq<byte>, head: seq<byte>, rest: seq<byte>, h: Peek)
    requires OneLine(c.live, lead, head, rest) && h.Line? && h.length == |lead| + 9 && h.kind <= 5
    requires |rest| >= 2 * h.count + 2 && h.length + 2 * h.count + 2 <= |c.live|
    ensures LineStep(c, h, space).Fail? <==> WrongRecord(h.count, h.kind, rest, space >= |c.out| + h.count)
    ensures LineStep(c, h, space).Stop? && !LineStep(c, h, space).eof ==> NoColon(LineStep(c, h, space).c.live)
  {
    if h.kind == DATA {
      DataFailsExactly(c, space, lead, head, rest, h.count, h.addr);
    } else if h.kind > EXT_SEG {
      NumberFailsExactly(c, lead, head, rest, h, if h.kind == EXT_LINEAR then 4 else 8);
    }
  }

  /** With no further line, the call ends as its line does. */
  lemma LineEndsCall(c: Chunk, space: nat, h: Peek)
    requires h == PeekHeader(c.live) && h.Line? && !c.started && h.length + 2 * h.count + 2 <= |c.live|
    requires LineStep(c, h, space).Stop? && !LineStep(c, h, space).eof ==> NoColon(LineStep(c, h, space).c.live)
    ensures Decode(c, space).Fail? <==> LineStep(c, h, space).Fail?
  {
    DecodeGoesOn(c, space, h);
    var r := LineStep(c, h, space);
    if r.Stop? && !r.eof {
      NoLineLeft(r.c, space);
    }
  }
}
