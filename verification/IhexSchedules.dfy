/** What the Intel HEX decoder yields does depend on when it is called, where an extended address record changes
    the address and the next data record is at its very start. */
module IhexSchedules {
  import opened Bytes
  import opened IntelHex
  import opened IhexRuns
  import Ring

  /** Lines that no call of the decoder fails on. */
  predicate Decodable(ls: seq<HexLine>) {
    && ValidLines(ls)
    && forall i :: 0 <= i < |ls| ==> DecodableLine(ls[i])
  }

  predicate DecodableLine(l: HexLine) {
    && ValidLine(l) && KindOf(l) <= START_LINEAR && KindOf(l) != EXT_SEG
    && (KindOf(l) == DATA ==> Count(l) > 0)
  }

  // ---------- a line that has arrived as a whole ----------

  lemma {:induction false} ScanReady(live: seq<byte>, i: nat, n: nat, acc: nat)
    requires i + n < |live| && AllHex(live[i..i + n])
    ensures ScanHex(live, i, n, acc).Value?
    decreases n
  {
    if n > 0 {
      assert live[i] == live[i..i + n][0];
      assert live[i + 1..i + n] == live[i..i + n][1..];
      ScanReady(live, i + 1, n - 1, 16 * acc + Nibble(live[i]));
    }
  }

  lemma PeekWhole(lead: seq<byte>, l: HexLine, rest: seq<byte>)
    requires NoColon(lead) && ValidLine(l) && KindOf(l) <= START_LINEAR
    ensures PeekHeader(lead + LineText(l, rest)) == Line(|lead| + 9, Count(l), Addr(l), KindOf(l))
  {
    var live, i := lead + LineText(l, rest), |lead| + 1;
    ColonOfText(live, lead, l.head + (l.data + (l.tail + rest)));
    LineSlices(lead, l, rest);
    HeadDigits(live, i, l.head);
    var count := FieldReady(live, i, 2);
    var kind := FieldReady(live, i + 6, 2);
    ScanReady(live, i + 2, 4, 0);
    assert count == Count(l) && kind == KindOf(l);
    PeekOfText(live, lead, l, rest);
  }

  lemma FieldReady(live: seq<byte>, i: nat, n: nat) returns (v: nat)
    requires i + n < |live| && AllHex(live[i..i + n])
    ensures ScanHex(live, i, n, 0) == Value(v) && v == HexValue(live[i..i + n])
  {
    ScanReady(live, i, n, 0);
    ScanIsValue(live, i, n, 0);
    v := ScanHex(live, i, n, 0).v;
  }

  lemma HeadDigits(live: seq<byte>, i: nat, head: seq<byte>)
    requires i + 8 <= |live| && live[i..i + 8] == head && AllHex(head)
    ensures live[i..i + 2] == head[..2] && live[i + 2..i + 6] == head[2..6] && live[i + 6..i + 8] == head[6..]
    ensures AllHex(live[i..i + 2]) && AllHex(live[i + 2..i + 6]) && AllHex(live[i + 6..i + 8])
  {
    Slice(live, i, i + 8, 0, 2);
    Slice(live, i, i + 8, 2, 6);
    Slice(live, i, i + 8, 6, 8);
  }

  /** The bytes of a data line. */
  function DataBytes(l: HexLine): seq<byte> {
    if AllHex(l.data) && |l.data| % 2 == 0 then HexBytes(l.data) else []
  }

  lemma DataBytesCount(l: HexLine)
    requires ValidLine(l)
    ensures DataBytes(l) == HexBytes(l.data) && |DataBytes(l)| == Count(l)
  {
  }

  /** The chunk after a line that is neither a jump nor the end of file. */
  function AfterLine(c: Chunk, l: HexLine, rest: seq<byte>): Chunk
    requires ValidLine(l)
  {
    if KindOf(l) == DATA then
      var cur := Hi(c.base) + Addr(l);
      Chunk(l.tail[2..] + rest, c.base, true, c.out + DataBytes(l), if c.started then c.addr else cur,
            U32(cur + Count(l)))
    else if KindOf(l) == EXT_LINEAR then c.(live := l.tail + rest, base := BaseOf(l), next := BaseOf(l))
    else c.(live := l.tail + rest)
  }

  lemma DataStops(c: Chunk, space: nat, lead: seq<byte>, l: HexLine, rest: seq<byte>, h: Peek)
    requires DecodableLine(l) && KindOf(l) == DATA && c.live == lead + LineText(l, rest)
    requires h == Line(|lead| + 9, Count(l), Addr(l), DATA) && space >= |c.out| + Count(l)
    ensures h.length + 2 * h.count + 2 <= |c.live| && DataLine(c, h, space).Stop?
  {
    LineSlices(lead, l, rest);
    assert c.live[h.length..h.length + 2 * h.count] == l.data;
  }

  lemma DataDecodes(c: Chunk, space: nat, lead: seq<byte>, l: HexLine, rest: seq<byte>)
    requires NoColon(lead) && DecodableLine(l) && KindOf(l) == DATA && c.live == lead + LineText(l, rest)
    requires space >= |c.out| + Count(l)
    ensures var h := Line(|lead| + 9, Count(l), Addr(l), DATA);
      h.length + 2 * h.count + 2 <= |c.live| && DataLine(c, h, space) == Stop(AfterLine(c, l, rest), false)
  {
    PeekWhole(lead, l, rest);
    var h := Line(|lead| + 9, Count(l), Addr(l), DATA);
    DataStops(c, space, lead, l, rest, h);
    DataBytesCount(l);
    var m := DataYields(c, h, space, lead, l, rest);
  }

  lemma NumberDecodes(c: Chunk, space: nat, lead: seq<byte>, l: HexLine, rest: seq<byte>, n: nat)
    requires NoColon(lead) && DecodableLine(l) && Number(l) && c.live == lead + LineText(l, rest) && n == |l.data|
    ensures var h := Line(|lead| + 9, Count(l), Addr(l), KindOf(l));
      h.length <= |c.live| && NumberLine(c, h, n) == Stop(AfterLine(c, l, rest), false)
  {
    PeekWhole(lead, l, rest);
    LineSlices(lead, l, rest);
    var h := Line(|lead| + 9, Count(l), Addr(l), KindOf(l));
    ScanReady(c.live, h.length, n, 0);
    var m := NumberYields(c, h, n, lead, l, rest);
  }

  /** The decoder takes a line that is there as a whole, unless it is a jump. */
  lemma LineDecodes(c: Chunk, space: nat, lead: seq<byte>, l: HexLine, rest: seq<byte>)
    requires NoColon(lead) && DecodableLine(l) && KindOf(l) != EOF && c.live == lead + LineText(l, rest)
    requires KindOf(l) == DATA ==> space >= |c.out| + Count(l)
    requires c.started && KindOf(l) == DATA ==> Hi(c.base) + Addr(l) == c.next
    ensures Decode(c, space) == Decode(AfterLine(c, l, rest), space)
  {
    PeekWhole(lead, l, rest);
    PeekFits(c.live);
    var h := PeekHeader(c.live);
    DecodeGoesOn(c, space, h);
    if h.kind == DATA {
      DataDecodes(c, space, lead, l, rest);
    } else {
      NumberDecodes(c, space, lead, l, rest, if h.kind == EXT_LINEAR then 4 else 8);
    }
  }

  lemma NoLineLeft(c: Chunk, space: nat)
    requires NoColon(c.live)
    ensures Decode(c, space) == Stop(c, false)
  {
    NoColonNoLine(c.live, c.live);
  }

  // ---------- runs ----------

  lemma {:induction false} TextSplit(x: seq<HexLine>, y: seq<HexLine>)
    ensures Text(x + y) == Text(x) + Text(y)
  {
    if x == [] {
      assert x + y == y;
    } else {
      TextSplit(x[1..], y);
      assert (x + y)[1..] == x[1..] + y;
      LineTextSplit(x[0], Text(x[1..]), Text(y));
    }
  }

  lemma LineTextSplit(l: HexLine, x: seq<byte>, y: seq<byte>)
    ensures LineText(l, x + y) == LineText(l, x) + y
  {
  }

  /** All states of a run over this text. */
  ghost predicate Trace(text: seq<byte>, es: seq<Event>, ss: seq<Hex>) {
    && |ss| == |es| + 1 && ss[0] == Hex(text, 0, 0, [], false, false)
    && forall i {:trigger es[i]} :: 0 <= i < |es| ==> Follows(ss[i], es[i], ss[i + 1])
  }

  ghost predicate Runs(text: seq<byte>, es: seq<Event>, s: Hex) {
    exists ss :: Trace(text, es, ss) && ss[|es|] == s
  }

  lemma RunsMore(text: seq<byte>, es: seq<Event>, s: Hex, e: Event, s': Hex)
    requires Runs(text, es, s) && Follows(s, e, s')
    ensures Runs(text, es + [e], s')
  {
    var ss :| Trace(text, es, ss) && ss[|es|] == s;
    var es', ss' := es + [e], ss + [s'];
    forall i {:trigger es'[i]} | 0 <= i < |es'|
      ensures Follows(ss'[i], es'[i], ss'[i + 1])
    {
      if i < |es| {
        assert es'[i] == es[i];
      }
    }
    assert Trace(text, es', ss');
  }

  lemma TraceBefore(text: seq<byte>, es: seq<Event>, ss: seq<Hex>, n: nat)
    requires Trace(text, es, ss) && n + 1 == |es|
    ensures Trace(text, es[..n], ss[..n + 1]) && Follows(ss[n], es[n], ss[n + 1])
  {
    assert forall i {:trigger es[..n][i]} :: 0 <= i < n ==> es[..n][i] == es[i];
  }

  lemma {:induction false} TraceReached(text: seq<byte>, es: seq<Event>, ss: seq<Hex>)
    requires Trace(text, es, ss)
    ensures Reached(text, es, ss[|es|])
    decreases |es|
  {
    if es != [] {
      var n := |es| - 1;
      TraceBefore(text, es, ss, n);
      TraceReached(text, es[..n], ss[..n + 1]);
    }
  }

  lemma RunsReached(text: seq<byte>, es: seq<Event>, s: Hex)
    requires Runs(text, es, s)
    ensures Reached(text, es, s)
  {
    var ss :| Trace(text, es, ss) && ss[|es|] == s;
    TraceReached(text, es, ss);
  }

  /** A run that has got to the lines ls, with only the line break before them arrived and all bytes where they
      belong. */
  ghost predicate GotTo(text: seq<byte>, es: seq<Event>, s: Hex, lead: seq<byte>, ls: seq<HexLine>,
                        pairs: seq<(nat, byte)>) {
    match s
    case Hex(rest, arrived, base, out, eof, lost) =>
      && Runs(text, es, s) && !eof && !lost && NoColon(lead) && Decodable(ls)
      && rest == lead + Text(ls) && arrived == |lead| && out + Pairs(ls, base) == pairs
  }

  /** The state after the text live arrived, that rest follows, and a call returned r. */
  function AfterCall(s: Hex, r: Chunk, rest: seq<byte>): Hex {
    Hex(r.live + rest, |r.live|, r.base, s.out + Place(r.addr, r.out), false, s.lost)
  }

  /** A call ends with r, with need bytes of space or more. */
  ghost predicate Ends(c: Chunk, need: nat, r: Chunk) {
    forall space: nat :: space >= need ==> Decode(c, space) == Stop(r, false)
  }

  lemma CallFollows(s: Hex, live: seq<byte>, rest: seq<byte>, space: nat, r: Chunk)
    requires !s.eof && s.rest == live + rest && s.arrived == |live|
    requires Ends(Chunk(live, s.base, false, [], 0, 0), space, r)
    ensures Follows(s, Call(space), AfterCall(s, r, rest))
  {
    assert s.rest[..s.arrived] == live && s.rest[s.arrived..] == rest;
    assert CallOn(s, space) == Stop(r, false);
  }

  /** Some text arrives and the decoder is called. */
  lemma TextArrives(text: seq<byte>, es: seq<Event>, s: Hex, lead: seq<byte>, more: seq<byte>, rest: seq<byte>,
                    space: nat, r: Chunk)
    returns (es': seq<Event>)
    requires Runs(text, es, s) && !s.eof && s.rest == lead + more + rest && s.arrived == |lead|
    requires Ends(Chunk(lead + more, s.base, false, [], 0, 0), space, r)
    ensures Runs(text, es', AfterCall(s, r, rest))
  {
    var s1 := s.(arrived := s.arrived + |more|);
    assert Follows(s, Arrive(|more|), s1);
    RunsMore(text, es, s, Arrive(|more|), s1);
    CallFollows(s1, lead + more, rest, space, r);
    RunsMore(text, es + [Arrive(|more|)], s1, Call(space), AfterCall(s, r, rest));
    es' := es + [Arrive(|more|)] + [Call(space)];
  }

  function NextBase(l: HexLine, base: nat): nat
    requires ValidLine(l)
  {
    if KindOf(l) == EXT_LINEAR then BaseOf(l) else base
  }

  lemma PairsNumber(ls: seq<HexLine>, base: nat)
    requires ValidLines(ls) && ls != [] && ValidLine(ls[0]) && Number(ls[0])
    ensures ValidLines(ls[1..]) && Pairs(ls, base) == Pairs(ls[1..], NextBase(ls[0], base))
  {
  }

  lemma PairsOfData(ls: seq<HexLine>, base: nat)
    requires ValidLines(ls) && ls != [] && ValidLine(ls[0]) && KindOf(ls[0]) == DATA
    ensures ValidLines(ls[1..])
    ensures Pairs(ls, base) == Place(Hi(base) + Addr(ls[0]), DataBytes(ls[0])) + Pairs(ls[1..], base)
  {
    DataBytesCount(ls[0]);
  }

  /** The bytes of a line and their addresses. */
  function LinePlaces(l: HexLine, base: nat): seq<(nat, byte)>
    requires ValidLine(l)
  {
    if KindOf(l) == DATA then Place(Hi(base) + Addr(l), DataBytes(l)) else []
  }

  lemma OnePairs(ls: seq<HexLine>, base: nat)
    requires Decodable(ls) && ls != [] && KindOf(ls[0]) != EOF
    ensures Pairs(ls, base) == LinePlaces(ls[0], base) + Pairs(ls[1..], NextBase(ls[0], base))
  {
    if KindOf(ls[0]) == DATA {
      PairsOfData(ls, base);
    } else {
      PairsNumber(ls, base);
    }
  }

  /** A call goes on from c as it would from c'. */
  ghost predicate Onward(c: Chunk, need: nat, c': Chunk) {
    forall space: nat {:trigger Decode(c, space)} :: space >= need ==> Decode(c, space) == Decode(c', space)
  }

  lemma EndsOnward(c: Chunk, need: nat, c': Chunk, need': nat, r: Chunk)
    requires Onward(c, need, c') && Ends(c', need', r) && need <= need'
    ensures Ends(c, need', r)
  {
    forall space: nat | space >= need'
      ensures Decode(c, space) == Stop(r, false)
    {
      assert Decode(c', space) == Stop(r, false);
    }
  }

  /** The decoder takes a line that is there as a whole, unless it is a jump. */
  lemma LineOnward(c: Chunk, lead: seq<byte>, l: HexLine, rest: seq<byte>) returns (c': Chunk)
    requires NoColon(lead) && DecodableLine(l) && KindOf(l) != EOF && c.live == lead + LineText(l, rest)
    requires c.started && KindOf(l) == DATA ==> Hi(c.base) + Addr(l) == c.next
    ensures c' == AfterLine(c, l, rest) && Onward(c, if KindOf(l) == DATA then |c.out| + |l.data| else 0, c')
  {
    c' := AfterLine(c, l, rest);
    forall space: nat | KindOf(l) == DATA ==> space >= |c.out| + |l.data|
      ensures Decode(c, space) == Decode(c', space)
    {
      LineDecodes(c, space, lead, l, rest);
    }
  }

  lemma OneText(l: HexLine)
    ensures Text([l]) == LineText(l, [])
  {
    assert [l][1..] == [];
  }

  /** A call that has only a single line left. */
  lemma LineEnds(c: Chunk, lead: seq<byte>, l: HexLine) returns (r: Chunk)
    requires NoColon(lead) && DecodableLine(l) && KindOf(l) != EOF && c.live == lead + Text([l])
    requires c.started && KindOf(l) == DATA ==> Hi(c.base) + Addr(l) == c.next
    ensures r == AfterLine(c, l, []) && Ends(c, |c.out| + |l.data|, r) && NoColon(r.live)
  {
    OneText(l);
    r := LineOnward(c, lead, l, []);
    LeadAfter(l);
    forall space: nat
      ensures Decode(r, space) == Stop(r, false)
    {
      NoLineLeft(r, space);
    }
    EndsOnward(c, if KindOf(l) == DATA then |c.out| + |l.data| else 0, r, |c.out| + |l.data|, r);
  }

  lemma FirstLineText(lead: seq<byte>, ls: seq<HexLine>)
    requires ls != []
    ensures lead + Text(ls) == lead + Text([ls[0]]) + Text(ls[1..])
  {
    assert ls == [ls[0]] + ls[1..];
    TextSplit([ls[0]], ls[1..]);
    Join(lead, Text([ls[0]]), Text(ls[1..]));
  }

  lemma Join(a: seq<byte>, b: seq<byte>, c: seq<byte>)
    ensures a + (b + c) == a + b + c
  {
  }

  lemma GotOn(text: seq<byte>, es: seq<Event>, s: Hex, ls: seq<HexLine>, pairs: seq<(nat, byte)>, r: Chunk)
    requires Decodable(ls) && ls != [] && NoColon(r.live) && Runs(text, es, AfterCall(s, r, Text(ls[1..])))
    requires !s.lost && s.out + Pairs(ls, s.base) == pairs
    requires Pairs(ls, s.base) == Place(r.addr, r.out) + Pairs(ls[1..], r.base)
    ensures GotTo(text, es, AfterCall(s, r, Text(ls[1..])), r.live, ls[1..], pairs)
  {
    Regroup(s.out, Place(r.addr, r.out), Pairs(ls[1..], r.base));
  }

  lemma LineArrives(text: seq<byte>, es: seq<Event>, s: Hex, lead: seq<byte>, l: HexLine, rest: seq<byte>)
    returns (es': seq<Event>, c: Chunk, r: Chunk)
    requires Runs(text, es, s) && !s.eof && s.rest == lead + Text([l]) + rest && s.arrived == |lead|
    requires NoColon(lead) && DecodableLine(l) && KindOf(l) != EOF
    ensures c == Chunk(lead + Text([l]), s.base, false, [], 0, 0) && r == AfterLine(c, l, []) && NoColon(r.live)
    ensures Runs(text, es', AfterCall(s, r, rest))
  {
    c := Chunk(lead + Text([l]), s.base, false, [], 0, 0);
    r := LineEnds(c, lead, l);
    es' := TextArrives(text, es, s, lead, Text([l]), rest, |l.data|, r);
  }

  lemma LineResult(c: Chunk, l: HexLine, r: Chunk)
    requires DecodableLine(l) && KindOf(l) != EOF && !c.started && c.out == [] && r == AfterLine(c, l, [])
    ensures r.base == NextBase(l, c.base) && Place(r.addr, r.out) == LinePlaces(l, c.base)
  {
    if KindOf(l) == DATA {
      assert r.out == DataBytes(l);
    }
  }

  /** One line arrives and the decoder is called. */
  lemma OneLine(text: seq<byte>, es: seq<Event>, s: Hex, lead: seq<byte>, ls: seq<HexLine>, pairs: seq<(nat, byte)>)
    returns (es': seq<Event>, s': Hex, lead': seq<byte>)
    requires GotTo(text, es, s, lead, ls, pairs) && ls != [] && KindOf(ls[0]) != EOF
    ensures GotTo(text, es', s', lead', ls[1..], pairs)
    ensures s'.base == NextBase(ls[0], s.base) && s'.out == s.out + LinePlaces(ls[0], s.base)
  {
    FirstLineText(lead, ls);
    var c, r;
    es', c, r := LineArrives(text, es, s, lead, ls[0], Text(ls[1..]));
    LineResult(c, ls[0], r);
    s', lead' := AfterCall(s, r, Text(ls[1..])), r.live;
    OnePairs(ls, s.base);
    GotOn(text, es', s, ls, pairs, r);
  }

  lemma LeadAfter(l: HexLine)
    requires ValidLine(l)
    ensures NoColon(l.tail + []) && NoColon(l.tail[2..] + [])
  {
  }

  // ---------- where schedules differ ----------

  /** The next data line is at the very start of an extended address, which is not the address reached. */
  predicate Hazard(ls: seq<HexLine>, base: nat, last: Reach)
    requires ValidLines(ls) && last.Behind?
  {
    if ls == [] || KindOf(ls[0]) == EOF then false
    else if KindOf(ls[0]) == DATA then last.moved && Addr(ls[0]) == 0 && last.addr != base
    else if KindOf(ls[0]) == EXT_LINEAR then Hazard(ls[1..], BaseOf(ls[0]), Moved(last))
    else Hazard(ls[1..], base, last)
  }

  predicate IsBase(base: nat) {
    Hi(base) == base == U32(base)
  }

  /** How many lines there are up to that data line, and its base address. */
  function HazardLines(ls: seq<HexLine>, base: nat, last: Reach): (r: (nat, nat))
    requires ValidLines(ls) && last.Behind? && Hazard(ls, base, last)
    ensures 0 < r.0 <= |ls|
  {
    if KindOf(ls[0]) == DATA then (1, base)
    else
      var ext := KindOf(ls[0]) == EXT_LINEAR;
      var r := HazardLines(ls[1..], if ext then BaseOf(ls[0]) else base, if ext then Moved(last) else last);
      (r.0 + 1, r.1)
  }

  lemma BaseIsBase(l: HexLine)
    requires ValidLine(l)
    ensures IsBase(BaseOf(l))
  {
    ShiftedIsBase(HexValue(l.data));
  }

  lemma ShiftedIsBase(v: nat)
    ensures IsBase(U32(v * 0x1_0000))
  {
    var w := v % 0x1_0000;
    assert v * 0x1_0000 == 0x1_0000_0000 * (v / 0x1_0000) + w * 0x1_0000;
    Ring.ModUnique(v * 0x1_0000, 0x1_0000_0000, v / 0x1_0000, w * 0x1_0000);
    Ring.ModUnique(w * 0x1_0000, 0x1_0000, w, 0);
    Ring.SmallMod(w * 0x1_0000, 0x1_0000_0000);
  }

  lemma {:induction false} HazardLine(ls: seq<HexLine>, base: nat, last: Reach)
    requires ValidLines(ls) && last.Behind? && Hazard(ls, base, last) && (last.moved ==> IsBase(base))
    ensures var (n, b) := HazardLines(ls, base, last);
      KindOf(ls[n - 1]) == DATA && b != last.addr && IsBase(b)
    decreases |ls|
  {
    if KindOf(ls[0]) != DATA {
      BaseIsBase(ls[0]);
      HazardLine(ls[1..], NextBase(ls[0], base), NextReach(ls[0], last));
    }
  }

  lemma MoreLines(ls: seq<HexLine>, n: nat)
    requires 0 < n <= |ls|
    ensures Text(ls[..n]) == LineText(ls[0], Text(ls[1..][..n - 1]))
  {
    assert ls[..n][1..] == ls[1..][..n - 1];
  }

  /** A data line as the n-th line, the first data line, with base address b. */
  predicate Hits(ls: seq<HexLine>, base: nat, last: Reach, n: nat, b: nat, d: HexLine) {
    match last
    case Nowhere => false
    case Behind(_, moved) =>
      && Decodable(ls) && Hazard(ls, base, last) && (moved ==> IsBase(base))
      && (n, b) == HazardLines(ls, base, last) && d == ls[n - 1]
  }

  function NextReach(l: HexLine, last: Reach): Reach
    requires ValidLine(l)
  {
    if KindOf(l) == EXT_LINEAR then Moved(last) else last
  }

  lemma RestDecodable(ls: seq<HexLine>)
    requires Decodable(ls) && ls != []
    ensures DecodableLine(ls[0]) && Decodable(ls[1..])
  {
  }

  lemma HitsLine(ls: seq<HexLine>, base: nat, last: Reach, n: nat, b: nat, d: HexLine)
    requires Hits(ls, base, last, n, b, d)
    ensures 0 < n <= |ls| && KindOf(ls[0]) != EOF
    ensures DecodableLine(d) && KindOf(d) == DATA && b != last.addr && IsBase(b)
  {
    HazardLine(ls, base, last);
  }

  lemma HitsRest(ls: seq<HexLine>, base: nat, last: Reach, n: nat, b: nat, d: HexLine)
    requires Hits(ls, base, last, n, b, d) && ls != [] && DecodableLine(ls[0]) && KindOf(ls[0]) != DATA
      && KindOf(ls[0]) != EOF
    ensures n > 1 && Hits(ls[1..], NextBase(ls[0], base), NextReach(ls[0], last), n - 1, b, d)
  {
    RestDecodable(ls);
    BaseIsBase(ls[0]);
    assert ls[n - 1] == ls[1..][n - 2];
  }

  lemma HitsNext(ls: seq<HexLine>, base: nat, last: Reach, n: nat, b: nat, d: HexLine)
    requires Hits(ls, base, last, n, b, d)
    ensures 0 < n <= |ls| && DecodableLine(ls[0]) && KindOf(ls[0]) != EOF
    ensures DecodableLine(d) && KindOf(d) == DATA && b != last.addr && IsBase(b)
    ensures if KindOf(ls[0]) == DATA then n == 1 && d == ls[0] && b == base && last.moved && Addr(d) == 0
            else n > 1 && Hits(ls[1..], NextBase(ls[0], base), NextReach(ls[0], last), n - 1, b, d)
  {
    HitsLine(ls, base, last, n, b, d);
    RestDecodable(ls);
    if KindOf(ls[0]) != DATA {
      HitsRest(ls, base, last, n, b, d);
    }
  }

  /** An address record in the middle of a call. */
  lemma NumberTaken(c: Chunk, lead: seq<byte>, ls: seq<HexLine>, n: nat) returns (c': Chunk)
    requires c.started && NoColon(lead) && 0 < n <= |ls| && DecodableLine(ls[0]) && Number(ls[0])
    requires c.live == lead + Text(ls[..n])
    ensures Onward(c, 0, c')
    ensures c'.live == ls[0].tail + Text(ls[1..][..n - 1]) && c'.started && c'.addr == c.addr && c'.out == c.out
    ensures c'.base == NextBase(ls[0], c.base) && c'.next == if KindOf(ls[0]) == EXT_LINEAR then c'.base else c.next
  {
    MoreLines(ls, n);
    var rest := Text(ls[1..][..n - 1]);
    c' := LineOnward(c, lead, ls[0], rest);
  }

  /** The data line at the end. */
  lemma DataTaken(c: Chunk, lead: seq<byte>, ls: seq<HexLine>) returns (r: Chunk)
    requires c.started && NoColon(lead) && ls != [] && DecodableLine(ls[0]) && KindOf(ls[0]) == DATA
    requires c.live == lead + Text(ls[..1]) && Hi(c.base) + Addr(ls[0]) == c.next
    ensures Ends(c, |c.out| + |ls[0].data|, r) && r.addr == c.addr && r.out == c.out + DataBytes(ls[0])
  {
    assert ls[..1] == [ls[0]];
    r := LineEnds(c, lead, ls[0]);
  }

  /** A call that is past the last data line takes these lines on, and the bytes of the data line. */
  lemma {:induction false} HazardCall(c: Chunk, lead: seq<byte>, ls: seq<HexLine>, last: Reach, n: nat, b: nat,
                                      d: HexLine)
    returns (r: Chunk)
    requires c.started && NoColon(lead) && Hits(ls, c.base, last, n, b, d) && (last.moved ==> c.next == c.base)
    requires n <= |ls| && c.live == lead + Text(ls[..n])
    ensures Ends(c, |c.out| + |d.data|, r) && r.addr == c.addr && r.out == c.out + DataBytes(d)
    decreases |ls|
  {
    HitsNext(ls, c.base, last, n, b, d);
    if KindOf(ls[0]) == DATA {
      r := DataTaken(c, lead, ls);
    } else {
      var c' := NumberTaken(c, lead, ls, n);
      r := HazardCall(c', ls[0].tail, ls[1..], NextReach(ls[0], last), n - 1, b, d);
      EndsOnward(c, 0, c', |c.out| + |d.data|, r);
    }
  }

  /** Line by line, the bytes of the data line go where they belong. */
  lemma {:induction false} HazardSteps(text: seq<byte>, es: seq<Event>, s: Hex, lead: seq<byte>, ls: seq<HexLine>,
                                       pairs: seq<(nat, byte)>, last: Reach, n: nat, b: nat, d: HexLine)
    returns (es': seq<Event>, s': Hex, lead': seq<byte>)
    requires GotTo(text, es, s, lead, ls, pairs) && Hits(ls, s.base, last, n, b, d)
    ensures n <= |ls| && GotTo(text, es', s', lead', ls[n..], pairs) && s'.out == s.out + Place(b, DataBytes(d))
    decreases |ls|
  {
    HitsNext(ls, s.base, last, n, b, d);
    es', s', lead' := OneLine(text, es, s, lead, ls, pairs);
    if KindOf(ls[0]) != DATA {
      assert s'.out == s.out;
      es', s', lead' := HazardSteps(text, es', s', lead', ls[1..], pairs, NextReach(ls[0], last), n - 1, b, d);
      assert ls[1..][n - 1..] == ls[n..];
    }
  }

  // ---------- the two schedules ----------

  /** Two runs over the same text that have got to different bytes or addresses. */
  ghost predicate Differ(text: seq<byte>, es1: seq<Event>, s1: Hex, es2: seq<Event>, s2: Hex) {
    Runs(text, es1, s1) && Runs(text, es2, s2) && !s1.lost && !s2.lost && |s1.out| == |s2.out| && s1.out != s2.out
  }

  /** Data that go on behind the reached address, though the file says another. */
  lemma PlacesDiffer(out: seq<(nat, byte)>, a: nat, x: seq<byte>, b: nat, y: seq<byte>)
    requires y != [] && U32(a + |x|) != b == U32(b)
    ensures |out + Place(a, x + y)| == |out + Place(a, x) + Place(b, y)|
    ensures out + Place(a, x + y) != out + Place(a, x) + Place(b, y)
  {
    var k := |out| + |x|;
    assert (out + Place(a, x + y))[k] == (U32(a + |x|), y[0]);
    assert (out + Place(a, x) + Place(b, y))[k] == (U32(b), y[0]);
  }

  lemma LinesText(lead: seq<byte>, ls: seq<HexLine>, k: nat)
    requires k <= |ls|
    ensures lead + Text(ls) == lead + Text(ls[..k]) + Text(ls[k..])
  {
    assert ls == ls[..k] + ls[k..];
    TextSplit(ls[..k], ls[k..]);
    Join(lead, Text(ls[..k]), Text(ls[k..]));
  }

  /** A data line and a hazard behind it. */
  predicate Followed(ls: seq<HexLine>, base: nat, n: nat, b: nat, d: HexLine) {
    && ls != [] && DecodableLine(ls[0]) && KindOf(ls[0]) == DATA
    && Hits(ls[1..], base, Behind(U32(Hi(base) + Addr(ls[0]) + Count(ls[0])), false), n, b, d)
  }

  lemma FollowedLines(ls: seq<HexLine>, base: nat, n: nat, b: nat, d: HexLine)
    requires Followed(ls, base, n, b, d)
    ensures 1 + n <= |ls| && DecodableLine(d) && KindOf(d) == DATA && IsBase(b)
    ensures b != U32(Hi(base) + Addr(ls[0]) + Count(ls[0]))
  {
    HitsNext(ls[1..], base, Behind(U32(Hi(base) + Addr(ls[0]) + Count(ls[0])), false), n, b, d);
  }

  /** The data line at the beginning of a call. */
  lemma FirstTaken(c: Chunk, lead: seq<byte>, ls: seq<HexLine>, n: nat) returns (c': Chunk)
    requires 1 + n <= |ls| && c == Chunk(lead + Text(ls[..1 + n]), c.base, false, [], 0, 0) && NoColon(lead)
    requires DecodableLine(ls[0]) && KindOf(ls[0]) == DATA
    ensures Onward(c, |ls[0].data|, c')
    ensures c'.live == ls[0].tail[2..] + Text(ls[1..][..n]) && c'.started && c'.addr == Hi(c.base) + Addr(ls[0])
    ensures c'.base == c.base && c'.out == DataBytes(ls[0])
  {
    MoreLines(ls, 1 + n);
    c' := LineOnward(c, lead, ls[0], Text(ls[1..][..n]));
  }

  /** A call on all of these lines. */
  lemma HazardEnds(c: Chunk, lead: seq<byte>, ls: seq<HexLine>, n: nat, b: nat, d: HexLine) returns (r: Chunk)
    requires Followed(ls, c.base, n, b, d) && NoColon(lead) && 1 + n <= |ls|
    requires c == Chunk(lead + Text(ls[..1 + n]), c.base, false, [], 0, 0)
    ensures Ends(c, |ls[0].data| + |d.data|, r)
    ensures r.addr == Hi(c.base) + Addr(ls[0]) && r.out == DataBytes(ls[0]) + DataBytes(d)
  {
    var c' := FirstTaken(c, lead, ls, n);
    DataBytesCount(ls[0]);
    r := HazardCall(c', ls[0].tail[2..], ls[1..], Behind(U32(Hi(c.base) + Addr(ls[0]) + Count(ls[0])), false), n, b, d);
    assert Ends(c', |ls[0].data| + |d.data|, r);
    EndsOnward(c, |ls[0].data|, c', |ls[0].data| + |d.data|, r);
  }

  /** All these lines arrive before the decoder is called. */
  lemma AllAtOnce(text: seq<byte>, es: seq<Event>, s: Hex, lead: seq<byte>, ls: seq<HexLine>, n: nat, b: nat,
                  d: HexLine)
    returns (es': seq<Event>, s': Hex)
    requires Runs(text, es, s) && !s.eof && NoColon(lead) && s.arrived == |lead| && 1 + n <= |ls|
    requires s.rest == lead + Text(ls[..1 + n]) + Text(ls[1 + n..]) && Followed(ls, s.base, n, b, d)
    ensures Runs(text, es', s') && s'.lost == s.lost
    ensures s'.out == s.out + Place(Hi(s.base) + Addr(ls[0]), DataBytes(ls[0]) + DataBytes(d))
  {
    var r := HazardEnds(Chunk(lead + Text(ls[..1 + n]), s.base, false, [], 0, 0), lead, ls, n, b, d);
    es' := TextArrives(text, es, s, lead, Text(ls[..1 + n]), Text(ls[1 + n..]), |ls[0].data| + |d.data|, r);
    s' := AfterCall(s, r, Text(ls[1 + n..]));
  }

  lemma GotSoFar(text: seq<byte>, es: seq<Event>, s: Hex, lead: seq<byte>, ls: seq<HexLine>, pairs: seq<(nat, byte)>)
    requires GotTo(text, es, s, lead, ls, pairs)
    ensures |s.out| <= |pairs| && s.out == pairs[..|s.out|]
  {
  }

  lemma DataLineDone(text: seq<byte>, es: seq<Event>, s: Hex, lead: seq<byte>, ls: seq<HexLine>,
                     pairs: seq<(nat, byte)>)
    returns (es': seq<Event>, s': Hex, lead': seq<byte>)
    requires GotTo(text, es, s, lead, ls, pairs) && ls != [] && DecodableLine(ls[0]) && KindOf(ls[0]) == DATA
    ensures GotTo(text, es', s', lead', ls[1..], pairs) && s'.base == s.base
    ensures s'.out == s.out + Place(Hi(s.base) + Addr(ls[0]), DataBytes(ls[0]))
  {
    es', s', lead' := OneLine(text, es, s, lead, ls, pairs);
  }

  /** The same lines, each followed by a call. */
  lemma OneByOne(text: seq<byte>, es: seq<Event>, s: Hex, lead: seq<byte>, ls: seq<HexLine>, pairs: seq<(nat, byte)>,
                 n: nat, b: nat, d: HexLine)
    returns (es': seq<Event>, s': Hex)
    requires GotTo(text, es, s, lead, ls, pairs) && Followed(ls, s.base, n, b, d)
    ensures Runs(text, es', s') && !s'.lost && |s'.out| <= |pairs| && s'.out == pairs[..|s'.out|]
    ensures s'.out == s.out + Place(Hi(s.base) + Addr(ls[0]), DataBytes(ls[0])) + Place(b, DataBytes(d))
  {
    var last := Behind(U32(Hi(s.base) + Addr(ls[0]) + Count(ls[0])), false);
    var lead';
    es', s', lead' := DataLineDone(text, es, s, lead, ls, pairs);
    es', s', lead' := HazardSteps(text, es', s', lead', ls[1..], pairs, last, n, b, d);
    GotSoFar(text, es', s', lead', ls[1..][n..], pairs);
  }

  /** Where a data line is followed by a hazard, there are two schedules that differ; the second is right. */
  lemma HazardDiffers(text: seq<byte>, es: seq<Event>, s: Hex, lead: seq<byte>, ls: seq<HexLine>,
                      pairs: seq<(nat, byte)>, n: nat, b: nat, d: HexLine)
    returns (es1: seq<Event>, s1: Hex, es2: seq<Event>, s2: Hex)
    requires GotTo(text, es, s, lead, ls, pairs) && Followed(ls, s.base, n, b, d)
    ensures Differ(text, es1, s1, es2, s2) && |s2.out| <= |pairs| && s2.out == pairs[..|s2.out|]
  {
    FollowedLines(ls, s.base, n, b, d);
    LinesText(lead, ls, 1 + n);
    es1, s1 := AllAtOnce(text, es, s, lead, ls, n, b, d);
    es2, s2 := OneByOne(text, es, s, lead, ls, pairs, n, b, d);
    HazardOutcome(s.out, s.base, ls[0], b, d, s1.out, s2.out);
  }

  /** The bytes are the same, but the addresses of the second line are not. */
  lemma HazardOutcome(out: seq<(nat, byte)>, base: nat, l: HexLine, b: nat, d: HexLine,
                      x: seq<(nat, byte)>, y: seq<(nat, byte)>)
    requires DecodableLine(l) && KindOf(l) == DATA && DecodableLine(d) && KindOf(d) == DATA && IsBase(b)
    requires b != U32(Hi(base) + Addr(l) + Count(l))
    requires x == out + Place(Hi(base) + Addr(l), DataBytes(l) + DataBytes(d))
    requires y == out + Place(Hi(base) + Addr(l), DataBytes(l)) + Place(b, DataBytes(d))
    ensures |x| == |y| && x != y
  {
    DataBytesCount(l);
    DataBytesCount(d);
    PlacesDiffer(out, Hi(base) + Addr(l), DataBytes(l), b, DataBytes(d));
  }

  /** A file that is not steady behind a data line, without a hazard there, is not steady from then on. */
  lemma {:induction false} NotSteadyLater(ls: seq<HexLine>, base: nat, last: Reach)
    requires ValidLines(ls) && last.Behind? && !Steady(ls, base, last) && !Hazard(ls, base, last)
    ensures !Steady(ls, base, Nowhere)
    decreases |ls|
  {
    if KindOf(ls[0]) != DATA {
      NotSteadyLater(ls[1..], NextBase(ls[0], base), NextReach(ls[0], last));
    }
  }

  /** From a state before lines that are not steady, two schedules go apart. */
  lemma {:induction false} NotSteadyDiffers(text: seq<byte>, es: seq<Event>, s: Hex, lead: seq<byte>, ls: seq<HexLine>,
                                            pairs: seq<(nat, byte)>)
    returns (es1: seq<Event>, s1: Hex, es2: seq<Event>, s2: Hex)
    requires GotTo(text, es, s, lead, ls, pairs) && !Steady(ls, s.base, Nowhere)
    ensures Differ(text, es1, s1, es2, s2) && |s2.out| <= |pairs| && s2.out == pairs[..|s2.out|]
    decreases |ls|
  {
    RestDecodable(ls);
    var last := Behind(U32(Hi(s.base) + Addr(ls[0]) + Count(ls[0])), false);
    if KindOf(ls[0]) == DATA && Hazard(ls[1..], s.base, last) {
      var (n, b) := HazardLines(ls[1..], s.base, last);
      es1, s1, es2, s2 := HazardDiffers(text, es, s, lead, ls, pairs, n, b, ls[1..][n - 1]);
    } else {
      if KindOf(ls[0]) == DATA {
        NotSteadyLater(ls[1..], s.base, last);
      }
      var es', s', lead' := OneLine(text, es, s, lead, ls, pairs);
      es1, s1, es2, s2 := NotSteadyDiffers(text, es', s', lead', ls[1..], pairs);
    }
  }

  /** A file that is not steady is decoded differently when all of it arrives at once up to a certain line than
      when it arrives line by line. */
  lemma SchedulesDiffer(lead: seq<byte>, ls: seq<HexLine>)
    returns (es1: seq<Event>, s1: Hex, es2: seq<Event>, s2: Hex)
    requires NoColon(lead) && Decodable(ls) && !Steady(ls, 0, Nowhere)
    ensures var text, pairs := lead + Text(ls), Pairs(ls, 0);
      && Reached(text, es1, s1) && Reached(text, es2, s2) && !s1.lost && !s2.lost && |s1.out| == |s2.out| <= |pairs|
      && s1.out != s2.out && s2.out == pairs[..|s2.out|]
  {
    var text, pairs := lead + Text(ls), Pairs(ls, 0);
    var s0 := Hex(text, 0, 0, [], false, false);
    var s := s0.(arrived := |lead|);
    assert Trace(text, [], [s0]);
    assert Follows(s0, Arrive(|lead|), s);
    RunsMore(text, [], s0, Arrive(|lead|), s);
    assert [] + pairs == pairs;
    es1, s1, es2, s2 := NotSteadyDiffers(text, [] + [Arrive(|lead|)], s, lead, ls, pairs);
    RunsReached(text, es1, s1);
    RunsReached(text, es2, s2);
  }

  /** Every run in which no call loses data for lack of room yields the first of the file's bytes at the file's
      addresses. */
  ghost predicate AlwaysRight(lead: seq<byte>, ls: seq<HexLine>)
    requires ValidLines(ls)
  {
    forall es, s :: Reached(lead + Text(ls), es, s) && !s.lost ==>
      |s.out| <= |Pairs(ls, 0)| && s.out == Pairs(ls, 0)[..|s.out|]
  }

  /** With room for every call, what the decoder yields is right in every schedule exactly when the file is steady:
      when no data line at the very start of a new extended address has another address than the one just
      reached. */
  lemma SteadyExactly(lead: seq<byte>, ls: seq<HexLine>)
    requires NoColon(lead) && Decodable(ls)
    ensures AlwaysRight(lead, ls) <==> Steady(ls, 0, Nowhere)
  {
    if Steady(ls, 0, Nowhere) {
      forall es, s | Reached(lead + Text(ls), es, s) && !s.lost
        ensures |s.out| <= |Pairs(ls, 0)| && s.out == Pairs(ls, 0)[..|s.out|]
      {
        ArrivalIndependence(lead, ls, es, s);
      }
    } else {
      var es1, s1, es2, s2 := SchedulesDiffer(lead, ls);
    }
  }

  lemma HornerTwice(t: seq<byte>, acc: nat)
    requires |t| >= 2 && AllHex(t)
    ensures AllHex(t[2..]) && Horner(t, acc) == Horner(t[2..], 16 * (16 * acc + Nibble(t[0])) + Nibble(t[1]))
  {
    assert t[1..][1..] == t[2..];
    assert Horner(t, acc) == Horner(t[1..], 16 * acc + Nibble(t[0]));
  }

  lemma HexValue2(t: seq<byte>)
    requires |t| == 2 && AllHex(t)
    ensures HexValue(t) == 16 * Nibble(t[0]) + Nibble(t[1])
  {
    HornerTwice(t, 0);
  }

  lemma HexValue4(t: seq<byte>)
    requires |t| == 4 && AllHex(t)
    ensures HexValue(t) == 16 * (16 * (16 * Nibble(t[0]) + Nibble(t[1])) + Nibble(t[2])) + Nibble(t[3])
  {
    HornerTwice(t, 0);
    HornerTwice(t[2..], 16 * Nibble(t[0]) + Nibble(t[1]));
  }

  /** The fields of a header. */
  lemma HeadValues(l: HexLine)
    requires |l.head| == 8 && AllHex(l.head)
    ensures Count(l) == 16 * Nibble(l.head[0]) + Nibble(l.head[1])
    ensures Addr(l) == 16 * (16 * (16 * Nibble(l.head[2]) + Nibble(l.head[3])) + Nibble(l.head[4])) + Nibble(l.head[5])
    ensures KindOf(l) == 16 * Nibble(l.head[6]) + Nibble(l.head[7])
  {
    HexValue2(l.head[..2]);
    HexValue4(l.head[2..6]);
    HexValue2(l.head[6..]);
  }

  /** A data record with one byte, at address 0; the checksum is not looked at. */
  function OneByte(data: seq<byte>): HexLine {
    HexLine([48, 49, 48, 48, 48, 48, 48, 48], data, [48, 48])
  }

  lemma OneByteValid(data: seq<byte>)
    requires |data| == 2 && AllHex(data)
    ensures DecodableLine(OneByte(data)) && KindOf(OneByte(data)) == DATA && Addr(OneByte(data)) == 0
      && Count(OneByte(data)) == 1
  {
    HeadValues(OneByte(data));
  }

  /** The extended linear address record for this address. */
  function NewAddress(data: seq<byte>): HexLine {
    HexLine([48, 50, 48, 48, 48, 48, 48, 52], data, [48, 48])
  }

  lemma NewAddressValid(data: seq<byte>)
    requires |data| == 4 && AllHex(data)
    ensures DecodableLine(NewAddress(data)) && KindOf(NewAddress(data)) == EXT_LINEAR
  {
    HeadValues(NewAddress(data));
  }

  lemma NewAddressBase()
    ensures ValidLine(NewAddress([48, 48, 48, 49])) && BaseOf(NewAddress([48, 48, 48, 49])) == 0x1_0000
  {
    NewAddressValid([48, 48, 48, 49]);
    HexValue4([48, 48, 48, 49]);
  }

  /** Such a file: a byte at address 0, then the extended address 1, then a byte at its address 0. Two schedules
      yield different bytes or addresses; the second is right. */
  lemma UnsteadyFile() returns (ls: seq<HexLine>, es1: seq<Event>, s1: Hex, es2: seq<Event>, s2: Hex)
    ensures Decodable(ls) && ls == [OneByte([65, 65]), NewAddress([48, 48, 48, 49]), OneByte([66, 66])]
    ensures !Steady(ls, 0, Nowhere) && !AlwaysRight([], ls)
    ensures Reached([] + Text(ls), es1, s1) && Reached([] + Text(ls), es2, s2) && !s1.lost && !s2.lost
    ensures |s1.out| == |s2.out| <= |Pairs(ls, 0)| && s1.out != s2.out && s2.out == Pairs(ls, 0)[..|s2.out|]
  {
    var x, e, y := OneByte([65, 65]), NewAddress([48, 48, 48, 49]), OneByte([66, 66]);
    ls := [x, e, y];
    OneByteValid(x.data);
    OneByteValid(y.data);
    NewAddressValid(e.data);
    NewAddressBase();
    Unsteady(ls, x, e, y);
    SteadyExactly([], ls);
    es1, s1, es2, s2 := SchedulesDiffer([], ls);
  }

  lemma Unsteady(ls: seq<HexLine>, x: HexLine, e: HexLine, y: HexLine)
    requires ls == [x, e, y] && ValidLine(x) && ValidLine(e) && ValidLine(y)
    requires KindOf(x) == DATA && KindOf(e) == EXT_LINEAR && KindOf(y) == DATA && Addr(x) == Addr(y) == 0
    requires BaseOf(e) != Count(x) < 0x1_0000
    ensures ValidLines(ls) && !Steady(ls, 0, Nowhere)
  {
    assert ls[1..] == [e, y] && ls[1..][1..] == [y];
    assert !Steady([y], BaseOf(e), Behind(Count(x), true));
    assert !Steady([e, y], 0, Behind(Count(x), false));
  }
}
