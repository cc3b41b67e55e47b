/** When a call of the Intel HEX decoder has no room for its data: it then returns 0 in the middle of its loop, and
    what it has read is lost. */
module IhexRoom {
  import opened Bytes
  import opened IntelHex
  import opened IhexRuns
  import opened IhexSchedules
  import opened IhexStale

  // ---------- what a call would decode ----------

  /** How many data bytes a file has, up to the end-of-file record. */
  function DataSize(ls: seq<HexLine>): nat
    requires ValidLines(ls)
  {
    if ls == [] || KindOf(ls[0]) == EOF then 0
    else (if KindOf(ls[0]) == DATA then Count(ls[0]) else 0) + DataSize(ls[1..])
  }

  lemma {:induction false} PairsSize(ls: seq<HexLine>, base: nat)
    requires ValidLines(ls)
    ensures |Pairs(ls, base)| == DataSize(ls)
    decreases |ls|
  {
    if ls != [] && KindOf(ls[0]) != EOF {
      PairsSize(ls[1..], NextBase(ls[0], base));
      if KindOf(ls[0]) == DATA {
        PairsOfData(ls, base);
        DataBytesCount(ls[0]);
      }
    }
  }

  /** Where a line ends, with its checksum, if its colon is at place lead. */
  function LineEnd(lead: nat, l: HexLine): nat {
    lead + 11 + |l.data|
  }

  /** How many data bytes have consecutive addresses in the lines that are there as a whole among the first n
      characters; lead characters come before the first line. Once a line has started the stretch, next is the
      address where it goes on. */
  function Wanted(n: nat, lead: nat, ls: seq<HexLine>, base: nat, started: bool, next: nat): nat
    requires ValidLines(ls)
    decreases |ls|
  {
    if ls == [] || n < LineEnd(lead, ls[0]) || KindOf(ls[0]) == EOF then 0
    else
      var l, end := ls[0], LineEnd(lead, ls[0]);
      if KindOf(l) == DATA then
        var cur := Hi(base) + Addr(l);
        if started && cur != next then 0
        else Count(l) + Wanted(n - end, |l.tail| - 2, ls[1..], base, true, U32(cur + Count(l)))
      else
        var ext := KindOf(l) == EXT_LINEAR;
        Wanted(n - (end - 2), |l.tail|, ls[1..], NextBase(l, base), started, if ext then BaseOf(l) else next)
  }

  /** Never more than half of what has arrived. */
  lemma {:induction false} WantedAtMost(n: nat, lead: nat, ls: seq<HexLine>, base: nat, started: bool, next: nat)
    requires ValidLines(ls)
    ensures 2 * Wanted(n, lead, ls, base, started, next) <= n
    decreases |ls|
  {
    if ls != [] && n >= LineEnd(lead, ls[0]) && KindOf(ls[0]) != EOF {
      var l, end := ls[0], LineEnd(lead, ls[0]);
      if KindOf(l) == DATA {
        WantedAtMost(n - end, |l.tail| - 2, ls[1..], base, true, U32(Hi(base) + Addr(l) + Count(l)));
      } else {
        WantedAtMost(n - (end - 2), |l.tail|, ls[1..], NextBase(l, base), started,
                     if KindOf(l) == EXT_LINEAR then BaseOf(l) else next);
      }
    }
  }

  // ---------- the header of the first line ----------

  lemma WholeLine(live: seq<byte>, lead: seq<byte>, l: HexLine, rest: seq<byte>)
    requires NoColon(lead) && ValidLine(l) && KindOf(l) <= START_LINEAR && Prefix(live, lead + LineText(l, rest))
    requires |live| >= LineEnd(|lead|, l)
    ensures PeekHeader(live) == Line(|lead| + 9, Count(l), Addr(l), KindOf(l))
  {
    var text := lead + LineText(l, rest);
    var l', rest' := l.(tail := l.tail[..2]), live[LineEnd(|lead|, l)..];
    assert live == lead + LineText(l', rest');
    PeekWhole(lead, l', rest');
  }

  lemma PartOfLine(live: seq<byte>, lead: seq<byte>, l: HexLine, rest: seq<byte>)
    requires NoColon(lead) && ValidLine(l) && KindOf(l) <= START_LINEAR && Prefix(live, lead + LineText(l, rest))
    requires |live| < LineEnd(|lead|, l)
    ensures PeekHeader(live) == Wait
  {
    PeekFits(live);
    if PeekHeader(live).Line? {
      PeekOfText(live, lead, l, rest);
    }
    ColonOfText(live, lead, l.head + (l.data + (l.tail + rest)));
    if |live| > |lead| {
      HeaderArrives(live, |lead| + 1, lead, l, rest);
    }
  }

  /** The beginning of a header is no error. */
  lemma HeaderArrives(live: seq<byte>, i: nat, lead: seq<byte>, l: HexLine, rest: seq<byte>)
    requires ValidLine(l) && KindOf(l) <= START_LINEAR && Prefix(live, lead + LineText(l, rest)) && i == |lead| + 1
    ensures PeekAt(live, i) != Error
  {
    LineSlices(lead, l, rest);
    var text := lead + LineText(l, rest);
    forall j | i <= j < i + 8 && j < |live|
      ensures Nibble(live[j]) >= 0
    {
      assert live[j] == text[i..i + 8][j - i];
    }
    DigitsScan(live, i, 2, 0);
    DigitsScan(live, i + 2, 4, 0);
    DigitsScan(live, i + 6, 2, 0);
    if ScanHex(live, i + 6, 2, 0).Value? {
      ScanIsValue(live, i + 6, 2, 0);
      assert live[i + 6..i + 8] == text[i..i + 8][6..];
    }
  }

  /** The decoder sees the next line exactly when it is there as a whole. */
  lemma LineSeen(live: seq<byte>, lead: seq<byte>, ls: seq<HexLine>)
    requires Reads(live, lead, ls) && Decodable(ls)
    ensures PeekHeader(live) == if ls == [] || |live| < LineEnd(|lead|, ls[0]) then Wait
                                else Line(|lead| + 9, Count(ls[0]), Addr(ls[0]), KindOf(ls[0]))
  {
    if ls == [] {
      assert lead + Text(ls) == lead;
      NoColonNoLine(live, lead);
    } else if |live| < LineEnd(|lead|, ls[0]) {
      PartOfLine(live, lead, ls[0], Text(ls[1..]));
    } else {
      WholeLine(live, lead, ls[0], Text(ls[1..]));
    }
  }

  // ---------- one line ----------

  /** The text has moved on by m, to what is before the lines ls'. */
  ghost predicate TextMoves(live: seq<byte>, lead: seq<byte>, ls: seq<HexLine>, live': seq<byte>, m: nat,
                            lead': seq<byte>, ls': seq<HexLine>) {
    && m <= |live| && m <= |lead + Text(ls)| && live' == live[m..] && (lead + Text(ls))[m..] == lead' + Text(ls')
    && Reads(live', lead', ls') && Decodable(ls')
  }

  lemma MovesAgain(live: seq<byte>, lead: seq<byte>, ls: seq<HexLine>, live1: seq<byte>, m1: nat, lead1: seq<byte>,
                   ls1: seq<HexLine>, live2: seq<byte>, m2: nat, lead2: seq<byte>, ls2: seq<HexLine>)
    requires TextMoves(live, lead, ls, live1, m1, lead1, ls1) && TextMoves(live1, lead1, ls1, live2, m2, lead2, ls2)
    ensures TextMoves(live, lead, ls, live2, m1 + m2, lead2, ls2)
  {
    DropMore(lead + Text(ls), m1, lead1 + Text(ls1), m2, lead2 + Text(ls2));
    DropMore(live, m1, live1, m2, live2);
  }

  lemma MovesTo(live: seq<byte>, lead: seq<byte>, ls: seq<HexLine>, m: nat, lead': seq<byte>)
    requires Reads(live, lead, ls) && Decodable(ls) && ls != [] && NoColon(lead')
    requires m <= |live| && (lead + Text(ls))[m..] == lead' + Text(ls[1..])
    ensures TextMoves(live, lead, ls, live[m..], m, lead', ls[1..])
  {
    ReadsOn(live, lead, ls, m, lead');
  }

  /** A data line without room: the text moves behind its header, and its digits are taken for the end of the line
      before. */
  lemma NoRoom(c: Chunk, space: nat, lead: seq<byte>, ls: seq<HexLine>, h: Peek) returns (m: nat, lead': seq<byte>)
    requires Reads(c.live, lead, ls) && Decodable(ls) && ls != [] && KindOf(ls[0]) == DATA
    requires |c.live| >= LineEnd(|lead|, ls[0]) && h == Line(|lead| + 9, Count(ls[0]), Addr(ls[0]), DATA)
    requires space < |c.out| + Count(ls[0])
    ensures m <= |c.live| && DataLine(c, h, space) == Lost(c.(live := c.live[m..]))
    ensures TextMoves(c.live, lead, ls, c.live[m..], m, lead', ls[1..])
  {
    m, lead' := |lead| + 9, ls[0].data + ls[0].tail;
    LineSlices(lead, ls[0], Text(ls[1..]));
    DigitsNoColon(ls[0].data);
    Onwards(lead + Text(ls), m, ls[0].data, ls[0].tail + Text(ls[1..]));
    Join(ls[0].data, ls[0].tail, Text(ls[1..]));
    MovesTo(c.live, lead, ls, m, lead');
  }

  lemma Onwards(text: seq<byte>, m: nat, data: seq<byte>, rest: seq<byte>)
    requires m + |data| <= |text| && text[m..m + |data|] == data && text[m + |data|..] == rest
    ensures text[m..] == data + rest
  {
  }

  lemma DataReads(live: seq<byte>, lead: seq<byte>, l: HexLine, rest: seq<byte>, i: nat)
    requires ValidLine(l) && Prefix(live, lead + LineText(l, rest)) && |live| >= LineEnd(|lead|, l) && i == |lead| + 9
    ensures live[i..i + 2 * Count(l)] == l.data
    ensures (lead + LineText(l, rest))[i + 2 * Count(l) + 2..] == l.tail[2..] + rest
  {
    var text := lead + LineText(l, rest);
    LineSlices(lead, l, rest);
    PrefixAt(live, text, i, 2 * Count(l));
    DropTwice(text, i + 2 * Count(l), 2);
    assert (l.tail + rest)[2..] == l.tail[2..] + rest;
  }

  lemma DataFits(c: Chunk, space: nat, l: HexLine, h: Peek, m: nat)
    requires DecodableLine(l) && h.Line? && h.count == Count(l) > 0 && h.addr == Addr(l)
    requires m == h.length + 2 * h.count + 2 <= |c.live| && c.live[h.length..h.length + 2 * h.count] == l.data
    requires space >= |c.out| + Count(l)
    ensures DataLine(c, h, space) == Stop(AfterData(c, l, m), false)
  {
  }

  lemma DataHasRoom(c: Chunk, space: nat, lead: seq<byte>, ls: seq<HexLine>, h: Peek) returns (m: nat)
    requires Reads(c.live, lead, ls) && Decodable(ls) && ls != [] && KindOf(ls[0]) == DATA
    requires |c.live| >= LineEnd(|lead|, ls[0]) && h == Line(|lead| + 9, Count(ls[0]), Addr(ls[0]), DATA)
    requires space >= |c.out| + Count(ls[0])
    ensures m == LineEnd(|lead|, ls[0]) <= |c.live| && DataLine(c, h, space) == Stop(AfterData(c, ls[0], m), false)
    ensures TextMoves(c.live, lead, ls, c.live[m..], m, ls[0].tail[2..], ls[1..])
  {
    m := LineEnd(|lead|, ls[0]);
    DataReads(c.live, lead, ls[0], Text(ls[1..]), h.length);
    DataFits(c, space, ls[0], h, m);
    MovesTo(c.live, lead, ls, m, ls[0].tail[2..]);
  }

  lemma NumberReads(c: Chunk, lead: seq<byte>, l: HexLine, rest: seq<byte>, h: Peek, n: nat)
    requires NoColon(lead) && ValidLine(l) && Number(l) && Prefix(c.live, lead + LineText(l, rest)) && n == |l.data|
    requires |c.live| >= LineEnd(|lead|, l) && h == Line(|lead| + 9, Count(l), Addr(l), KindOf(l))
    ensures ScanHex(c.live, h.length, n, 0) == Value(HexValue(l.data))
    ensures (lead + LineText(l, rest))[h.length + n..] == l.tail + rest
  {
    LineSlices(lead, l, rest);
    PrefixAt(c.live, lead + LineText(l, rest), h.length, n);
    ScanReady(c.live, h.length, n, 0);
    ScanIsValue(c.live, h.length, n, 0);
  }

  lemma NumberIsThere(c: Chunk, lead: seq<byte>, ls: seq<HexLine>, h: Peek, n: nat) returns (m: nat)
    requires Reads(c.live, lead, ls) && Decodable(ls) && ls != [] && Number(ls[0]) && n == |ls[0].data|
    requires |c.live| >= LineEnd(|lead|, ls[0]) && h == Line(|lead| + 9, Count(ls[0]), Addr(ls[0]), KindOf(ls[0]))
    ensures m + 2 == LineEnd(|lead|, ls[0]) <= |c.live|
    ensures NumberLine(c, h, n) == Stop(AfterNumber(c, ls[0], m), false)
    ensures TextMoves(c.live, lead, ls, c.live[m..], m, ls[0].tail, ls[1..])
  {
    NumberReads(c, lead, ls[0], Text(ls[1..]), h, n);
    m := h.length + n;
    MovesTo(c.live, lead, ls, m, ls[0].tail);
  }

  // ---------- one call ----------

  function WantedOf(c: Chunk, lead: seq<byte>, ls: seq<HexLine>): nat
    requires ValidLines(ls)
  {
    Wanted(|c.live|, |lead|, ls, c.base, c.started, c.next)
  }

  /** How many of the file's bytes are still to come, with those of the call so far. */
  function Total(c: Chunk, ls: seq<HexLine>): nat
    requires ValidLines(ls)
  {
    |c.out| + DataSize(ls)
  }

  /** How a call ends that has the lines ls before it, and need more bytes to decode: it runs out of room exactly
      when these do not fit, and then loses some; otherwise no byte gets lost. */
  ghost predicate EndsWell(r: Ending, c: Chunk, lead: seq<byte>, ls: seq<HexLine>, space: nat, need: nat, m: nat,
                           lead': seq<byte>, ls': seq<HexLine>)
    requires ValidLines(ls)
  {
    && !r.Fail? && (r.Lost? <==> need > space)
    && (r.Stop? && r.eof ==> |r.c.out| == Total(c, ls))
    && (!(r.Stop? && r.eof) ==> TextMoves(c.live, lead, ls, r.c.live, m, lead', ls'))
    && (r.Stop? && !r.eof ==> Total(r.c, ls') == Total(c, ls))
    && (r.Lost? ==> Total(r.c, ls') < Total(c, ls))
  }

  lemma WantedData(c: Chunk, lead: seq<byte>, ls: seq<HexLine>, m: nat)
    requires ValidLines(ls) && ls != [] && ValidLine(ls[0]) && KindOf(ls[0]) == DATA
    requires m == LineEnd(|lead|, ls[0]) <= |c.live| && (c.started ==> Hi(c.base) + Addr(ls[0]) == c.next)
    ensures ValidLines(ls[1..])
    ensures WantedOf(c, lead, ls) == Count(ls[0]) + WantedOf(AfterData(c, ls[0], m), ls[0].tail[2..], ls[1..])
    ensures Total(c, ls) == Total(AfterData(c, ls[0], m), ls[1..])
  {
  }

  lemma WantedNumber(c: Chunk, lead: seq<byte>, ls: seq<HexLine>, m: nat)
    requires ValidLines(ls) && ls != [] && ValidLine(ls[0]) && Number(ls[0])
    requires m + 2 == LineEnd(|lead|, ls[0]) <= |c.live|
    ensures ValidLines(ls[1..])
    ensures WantedOf(c, lead, ls) == WantedOf(AfterNumber(c, ls[0], m), ls[0].tail, ls[1..])
    ensures Total(c, ls) == Total(AfterNumber(c, ls[0], m), ls[1..])
  {
  }

  /** A call that has nothing left to read. */
  lemma CallStops(c: Chunk, space: nat, lead: seq<byte>, ls: seq<HexLine>)
    requires Reads(c.live, lead, ls) && Decodable(ls) && |c.out| <= space
    requires var h := PeekHeader(c.live); h == Wait || (h.Line? && Jumps(c, h))
    ensures EndsWell(Decode(c, space), c, lead, ls, space, |c.out| + WantedOf(c, lead, ls), 0, lead, ls)
  {
    LineSeen(c.live, lead, ls);
    PeekFits(c.live);
  }

  lemma CallMeetsEof(c: Chunk, space: nat, lead: seq<byte>, ls: seq<HexLine>, h: Peek)
    requires Reads(c.live, lead, ls) && Decodable(ls) && |c.out| <= space && ls != [] && KindOf(ls[0]) == EOF
    requires h == PeekHeader(c.live) && h.Line? && h.kind == EOF && h.length + 2 * h.count + 2 <= |c.live|
    ensures EndsWell(Decode(c, space), c, lead, ls, space, |c.out| + WantedOf(c, lead, ls), 0, lead, ls)
  {
    DecodeGoesOn(c, space, h);
  }

  /** A call ends as it says, whatever it reads first. */
  lemma {:induction false} DecodeEnds(c: Chunk, space: nat, lead: seq<byte>, ls: seq<HexLine>)
    returns (m: nat, lead': seq<byte>, ls': seq<HexLine>)
    requires Reads(c.live, lead, ls) && Decodable(ls) && |c.out| <= space
    ensures EndsWell(Decode(c, space), c, lead, ls, space, |c.out| + WantedOf(c, lead, ls), m, lead', ls')
    decreases |c.live|, 2
  {
    m, lead', ls' := 0, lead, ls;
    LineSeen(c.live, lead, ls);
    PeekFits(c.live);
    var h := PeekHeader(c.live);
    if !h.Line? || Jumps(c, h) {
      CallStops(c, space, lead, ls);
    } else if h.kind == EOF {
      CallMeetsEof(c, space, lead, ls, h);
    } else {
      DecodeGoesOn(c, space, h);
      if h.kind == DATA {
        m, lead', ls' := DataEnds(c, space, lead, ls, h);
      } else {
        m, lead', ls' := NumberEnds(c, space, lead, ls, h);
      }
    }
  }

  lemma {:induction false} DataEnds(c: Chunk, space: nat, lead: seq<byte>, ls: seq<HexLine>, h: Peek)
    returns (m: nat, lead': seq<byte>, ls': seq<HexLine>)
    requires Reads(c.live, lead, ls) && Decodable(ls) && |c.out| <= space && ls != [] && KindOf(ls[0]) == DATA
    requires |c.live| >= LineEnd(|lead|, ls[0]) && h == Line(|lead| + 9, Count(ls[0]), Addr(ls[0]), DATA)
    requires !Jumps(c, h) && Decode(c, space) == if LineStep(c, h, space).Stop?
             then Decode(LineStep(c, h, space).c, space) else LineStep(c, h, space)
    ensures EndsWell(Decode(c, space), c, lead, ls, space, |c.out| + WantedOf(c, lead, ls), m, lead', ls')
    decreases |c.live|, 1
  {
    WantedData(c, lead, ls, LineEnd(|lead|, ls[0]));
    if space < |c.out| + Count(ls[0]) {
      m, lead' := NoRoom(c, space, lead, ls, h);
      ls' := ls[1..];
    } else {
      m := DataHasRoom(c, space, lead, ls, h);
      var c1 := AfterData(c, ls[0], m);
      m, lead', ls' := RestEnds(c, c1, space, lead, ls, m, ls[0].tail[2..]);
    }
  }

  lemma {:induction false} NumberEnds(c: Chunk, space: nat, lead: seq<byte>, ls: seq<HexLine>, h: Peek)
    returns (m: nat, lead': seq<byte>, ls': seq<HexLine>)
    requires Reads(c.live, lead, ls) && Decodable(ls) && |c.out| <= space && ls != [] && Number(ls[0])
    requires |c.live| >= LineEnd(|lead|, ls[0]) && h == Line(|lead| + 9, Count(ls[0]), Addr(ls[0]), KindOf(ls[0]))
    requires Decode(c, space) == if LineStep(c, h, space).Stop?
             then Decode(LineStep(c, h, space).c, space) else LineStep(c, h, space)
    ensures EndsWell(Decode(c, space), c, lead, ls, space, |c.out| + WantedOf(c, lead, ls), m, lead', ls')
    decreases |c.live|, 1
  {
    m := NumberIsThere(c, lead, ls, h, |ls[0].data|);
    WantedNumber(c, lead, ls, m);
    m, lead', ls' := RestEnds(c, AfterNumber(c, ls[0], m), space, lead, ls, m, ls[0].tail);
  }

  /** The rest of a call after its first line. */
  lemma {:induction false} RestEnds(c: Chunk, c1: Chunk, space: nat, lead: seq<byte>, ls: seq<HexLine>, m1: nat,
                                    lead1: seq<byte>)
    returns (m: nat, lead': seq<byte>, ls': seq<HexLine>)
    requires Decodable(ls) && ls != [] && TextMoves(c.live, lead, ls, c1.live, m1, lead1, ls[1..])
    requires |c1.out| <= space && |c1.live| < |c.live|
    requires |c1.out| + WantedOf(c1, lead1, ls[1..]) == |c.out| + WantedOf(c, lead, ls)
    requires Total(c1, ls[1..]) == Total(c, ls) && Decode(c, space) == Decode(c1, space)
    ensures EndsWell(Decode(c, space), c, lead, ls, space, |c.out| + WantedOf(c, lead, ls), m, lead', ls')
    decreases |c.live|, 0
  {
    m, lead', ls' := DecodeEnds(c1, space, lead1, ls[1..]);
    m := EndsAgain(Decode(c1, space), c, lead, ls, c1, m1, lead1, ls[1..], space,
                   |c.out| + WantedOf(c, lead, ls), m, lead', ls');
  }

  lemma EndsAgain(r: Ending, c: Chunk, lead: seq<byte>, ls: seq<HexLine>, c1: Chunk, m1: nat, lead1: seq<byte>,
                  ls1: seq<HexLine>, space: nat, need: nat, m: nat, lead': seq<byte>, ls': seq<HexLine>)
    returns (n: nat)
    requires ValidLines(ls) && TextMoves(c.live, lead, ls, c1.live, m1, lead1, ls1) && Total(c1, ls1) == Total(c, ls)
    requires EndsWell(r, c1, lead1, ls1, space, need, m, lead', ls')
    ensures EndsWell(r, c, lead, ls, space, need, n, lead', ls')
  {
    n := m1 + m;
    if !(r.Stop? && r.eof) {
      MovesAgain(c.live, lead, ls, c1.live, m1, lead1, ls1, r.c.live, m, lead', ls');
    }
  }

  // ---------- runs ----------

  /** The decoder has the lines ls before it. */
  ghost predicate Before(s: Hex, lead: seq<byte>, ls: seq<HexLine>) {
    s.arrived <= |s.rest| && NoColon(lead) && Decodable(ls) && s.rest == lead + Text(ls)
  }

  lemma CallEnds(s: Hex, space: nat, lead: seq<byte>, ls: seq<HexLine>, c: Chunk)
    returns (m: nat, lead': seq<byte>, ls': seq<HexLine>)
    requires Before(s, lead, ls) && c == Chunk(s.rest[..s.arrived], s.base, false, [], 0, 0)
    ensures EndsWell(CallOn(s, space), c, lead, ls, space, Wanted(s.arrived, |lead|, ls, s.base, false, 0), m, lead',
                     ls')
  {
    m, lead', ls' := DecodeEnds(c, space, lead, ls);
  }

  /** A call on decodable text never fails. It loses data exactly when those with consecutive addresses, in the lines
      that have arrived as a whole, are more than the room. */
  lemma LostExactly(s: Hex, space: nat, lead: seq<byte>, ls: seq<HexLine>)
    requires Before(s, lead, ls)
    ensures !CallOn(s, space).Fail?
    ensures CallOn(s, space).Lost? <==> Wanted(s.arrived, |lead|, ls, s.base, false, 0) > space
  {
    var m, lead', ls' := CallEnds(s, space, lead, ls, Chunk(s.rest[..s.arrived], s.base, false, [], 0, 0));
  }

  /** With room for half of the text that has arrived, whatever it is, nothing gets lost. */
  lemma HalfIsEnough(s: Hex, space: nat, lead: seq<byte>, ls: seq<HexLine>)
    requires Before(s, lead, ls) && s.arrived <= 2 * space
    ensures CallOn(s, space).Stop?
  {
    WantedAtMost(s.arrived, |lead|, ls, s.base, false, 0);
    LostExactly(s, space, lead, ls);
  }

  /** What was decoded and what is still to come are all the data bytes, or fewer if some were lost. */
  ghost predicate Counted(s: Hex, lead: seq<byte>, ls: seq<HexLine>, total: nat) {
    && (!s.eof ==> Before(s, lead, ls))
    && var sum := |s.out| + if !s.eof && Decodable(ls) then DataSize(ls) else 0;
       if s.lost then sum < total else sum == total
  }

  lemma CallCounted(s: Hex, space: nat, s': Hex, lead: seq<byte>, ls: seq<HexLine>, total: nat)
    returns (lead': seq<byte>, ls': seq<HexLine>)
    requires Counted(s, lead, ls, total) && !s.eof && Follows(s, Call(space), s')
    ensures Counted(s', lead', ls', total)
  {
    var c, r := Chunk(s.rest[..s.arrived], s.base, false, [], 0, 0), CallOn(s, space);
    var m;
    m, lead', ls' := CallEnds(s, space, lead, ls, c);
    if !(r.Stop? && r.eof) {
      RestText(s.rest, s.arrived, m, lead' + Text(ls'));
    }
  }

  lemma {:induction false} RunCounted(lead: seq<byte>, ls: seq<HexLine>, es: seq<Event>, s: Hex)
    returns (lead': seq<byte>, ls': seq<HexLine>)
    requires NoColon(lead) && Decodable(ls) && Reached(lead + Text(ls), es, s)
    ensures Counted(s, lead', ls', DataSize(ls))
    decreases |es|
  {
    if es == [] {
      lead', ls' := lead, ls;
    } else {
      var n := |es| - 1;
      var s0 :| Follows(s0, es[n], s) && Reached(lead + Text(ls), es[..n], s0);
      lead', ls' := RunCounted(lead, ls, es[..n], s0);
      if es[n].Call? && !s0.eof {
        lead', ls' := CallCounted(s0, es[n].space, s, lead', ls', DataSize(ls));
      }
    }
  }

  /** In every reached state there is text of whole lines left, which says exactly when the next call loses data. */
  lemma RunLosesExactly(lead: seq<byte>, ls: seq<HexLine>, es: seq<Event>, s: Hex, space: nat)
    returns (lead': seq<byte>, ls': seq<HexLine>)
    requires NoColon(lead) && Decodable(ls) && Reached(lead + Text(ls), es, s) && !s.eof
    ensures Before(s, lead', ls') && !CallOn(s, space).Fail?
    ensures CallOn(s, space).Lost? <==> Wanted(s.arrived, |lead'|, ls', s.base, false, 0) > space
  {
    lead', ls' := RunCounted(lead, ls, es, s);
    LostExactly(s, space, lead', ls');
  }

  /** For every steady file, in every schedule: at the end-of-file record exactly the file's bytes were decoded, at the
      file's addresses, if and only if no call had lost data for lack of room. */
  lemma RightExactly(lead: seq<byte>, ls: seq<HexLine>, es: seq<Event>, s: Hex)
    requires NoColon(lead) && Decodable(ls) && Steady(ls, 0, Nowhere) && Reached(lead + Text(ls), es, s) && s.eof
    ensures s.out == Pairs(ls, 0) <==> !s.lost
  {
    var lead', ls' := RunCounted(lead, ls, es, s);
    PairsSize(ls, 0);
    ArrivalIndependence(lead, ls, es, s);
  }
}
