/** Runs of the Intel HEX decoder over a whole file: what it yields does not depend on how the text
    arrives. */
module IhexRuns {
  import opened Bytes
  import opened IntelHex
  import Ring

  // ---------- files ----------

  /** A line behind its colon: eight digits of header, the digits of the data, and the rest up to the next
      colon, which starts with the two characters of the checksum. */
  datatype HexLine = HexLine(head: seq<byte>, data: seq<byte>, tail: seq<byte>)

  predicate NoColon(t: seq<byte>) {
    forall i :: 0 <= i < |t| ==> t[i] != COLON
  }

  function Count(l: HexLine): nat
    requires |l.head| == 8 && AllHex(l.head)
  {
    HexValue(l.head[..2])
  }

  function Addr(l: HexLine): nat
    requires |l.head| == 8 && AllHex(l.head)
  {
    HexValue(l.head[2..6])
  }

  function KindOf(l: HexLine): nat
    requires |l.head| == 8 && AllHex(l.head)
  {
    HexValue(l.head[6..])
  }

  /** The general record format; address records have the length they must have. */
  predicate ValidLine(l: HexLine) {
    && |l.head| == 8 && AllHex(l.head) && AllHex(l.data) && |l.data| == 2 * Count(l)
    && NoColon(l.tail) && |l.tail| >= 2
    && (KindOf(l) == EXT_LINEAR ==> Count(l) == 2)
    && (KindOf(l) == START_SEG || KindOf(l) == START_LINEAR ==> Count(l) == 4)
  }

  function Text(ls: seq<HexLine>): seq<byte> {
    if ls == [] then [] else LineText(ls[0], Text(ls[1..]))
  }

  function LineText(l: HexLine, rest: seq<byte>): seq<byte> {
    [COLON] + (l.head + (l.data + (l.tail + rest)))
  }

  predicate ValidLines(ls: seq<HexLine>) {
    forall i :: 0 <= i < |ls| ==> ValidLine(ls[i])
  }

  // ---------- what a file says ----------

  /** Bytes and their addresses, in order. */
  function Place(addr: nat, bytes: seq<byte>): (r: seq<(nat, byte)>)
    ensures |r| == |bytes|
  {
    seq(|bytes|, k requires 0 <= k < |bytes| => (U32(addr + k), bytes[k]))
  }

  function BaseOf(l: HexLine): nat
    requires AllHex(l.data)
  {
    U32(HexValue(l.data) * 0x1_0000)
  }

  /** All bytes of the file and their addresses, up to the end-of-file record. */
  function Pairs(ls: seq<HexLine>, base: nat): seq<(nat, byte)>
    requires ValidLines(ls)
  {
    if ls == [] || KindOf(ls[0]) == EOF then []
    else if KindOf(ls[0]) == DATA then Place(Hi(base) + Addr(ls[0]), HexBytes(ls[0].data)) + Pairs(ls[1..], base)
    else Pairs(ls[1..], if KindOf(ls[0]) == EXT_LINEAR then BaseOf(ls[0]) else base)
  }

  /** Where the data lines have got to: nowhere yet, or behind the last one; moved says that an extended address
      came since. */
  datatype Reach = Nowhere | Behind(addr: nat, moved: bool)

  function Moved(last: Reach): Reach {
    if last.Behind? then last.(moved := true) else last
  }

  /** A data line at the very start of a new extended address has that address just behind the last data line. */
  predicate Steady(ls: seq<HexLine>, base: nat, last: Reach)
    requires ValidLines(ls)
  {
    if ls == [] || KindOf(ls[0]) == EOF then true
    else if KindOf(ls[0]) == DATA then
      && (last.Behind? && last.moved && Addr(ls[0]) == 0 ==> last.addr == base)
      && Steady(ls[1..], base, Behind(U32(Hi(base) + Addr(ls[0]) + Count(ls[0])), false))
    else if KindOf(ls[0]) == EXT_LINEAR then Steady(ls[1..], BaseOf(ls[0]), Moved(last))
    else Steady(ls[1..], base, last)
  }

  // ---------- the header of the first line ----------

  predicate Prefix(live: seq<byte>, text: seq<byte>) {
    |live| <= |text| && live == text[..|live|]
  }

  lemma PrefixAt(live: seq<byte>, text: seq<byte>, i: nat, n: nat)
    requires Prefix(live, text) && i + n <= |live|
    ensures live[i..i + n] == text[i..i + n]
  {
  }

  lemma ColonOfText(live: seq<byte>, lead: seq<byte>, rest: seq<byte>)
    requires NoColon(lead) && Prefix(live, lead + ([COLON] + rest))
    ensures FindColon(live, 0) == if |live| <= |lead| then |live| else |lead|
  {
    var text, c := lead + ([COLON] + rest), FindColon(live, 0);
    if c < |live| {
      assert live[c] == text[c];
    }
    if |lead| < |live| {
      assert live[|lead|] == text[|lead|] == COLON;
      if |lead| < c {
        FindColonFirst(live, 0, |lead|);
      }
    }
  }

  lemma NoColonNoLine(live: seq<byte>, lead: seq<byte>)
    requires NoColon(lead) && Prefix(live, lead)
    ensures PeekHeader(live) == Wait
  {
    forall i | 0 <= i < |live|
      ensures live[i] != COLON
    {
      assert live[i] == lead[i];
    }
  }

  /** The slices of a text that starts with a line. */
  lemma LineSlices(lead: seq<byte>, l: HexLine, rest: seq<byte>)
    ensures var text, i, j := lead + LineText(l, rest), |lead| + 1, |lead| + 1 + |l.head|;
      && |text| == j + |l.data| + |l.tail| + |rest|
      && text[i..j] == l.head && text[j..j + |l.data|] == l.data && text[j + |l.data|..] == l.tail + rest
  {
  }

  lemma Slice(t: seq<byte>, i: nat, j: nat, a: nat, b: nat)
    requires i <= j <= |t| && a <= b <= j - i
    ensures t[i..j][a..b] == t[i + a..i + b]
  {
    forall k | 0 <= k < b - a
      ensures t[i..j][a..b][k] == t[i + a..i + b][k]
    {
      assert t[i..j][a..b][k] == t[i..j][a + k] == t[i + a + k];
    }
  }

  /** A field of a header is the value of its digits. */
  lemma FieldIs(live: seq<byte>, i: nat, head: seq<byte>, a: nat, b: nat)
    requires i + 8 <= |live| && live[i..i + 8] == head && AllHex(head) && a <= b <= 8
    requires ScanHex(live, i + a, b - a, 0).Value?
    ensures AllHex(head[a..b]) && ScanHex(live, i + a, b - a, 0).v == HexValue(head[a..b])
  {
    ScanIsValue(live, i + a, b - a, 0);
    Slice(live, i, i + 8, a, b);
  }

  lemma HeaderIs(live: seq<byte>, i: nat, l: HexLine)
    requires i + 8 <= |live| && live[i..i + 8] == l.head && |l.head| == 8 && AllHex(l.head) && PeekAt(live, i).Line?
    ensures PeekAt(live, i) == Line(i + 8, Count(l), Addr(l), KindOf(l))
  {
    FieldIs(live, i, l.head, 0, 2);
    FieldIs(live, i, l.head, 2, 6);
    FieldIs(live, i, l.head, 6, 8);
    assert l.head[0..2] == l.head[..2] && l.head[6..8] == l.head[6..];
  }

  /** A header that is found in the live text is that of the next line. */
  lemma PeekOfText(live: seq<byte>, lead: seq<byte>, l: HexLine, rest: seq<byte>)
    requires NoColon(lead) && ValidLine(l) && Prefix(live, lead + LineText(l, rest)) && PeekHeader(live).Line?
    ensures PeekHeader(live) == Line(|lead| + 9, Count(l), Addr(l), KindOf(l))
  {
    ColonOfText(live, lead, l.head + (l.data + (l.tail + rest)));
    LineSlices(lead, l, rest);
    PrefixAt(live, lead + LineText(l, rest), |lead| + 1, 8);
    HeaderIs(live, |lead| + 1, l);
  }

  // ---------- one line ----------

  lemma U32Sum(a: nat, k: nat)
    ensures U32(U32(a) + k) == U32(a + k)
  {
    Ring.ModShift(U32(a) + k, a / 0x1_0000_0000, 0x1_0000_0000);
  }

  lemma PlaceBoth(a: nat, x: seq<byte>, b: nat, y: seq<byte>)
    requires b == U32(a + |x|)
    ensures Place(a, x + y) == Place(a, x) + Place(b, y)
  {
    forall k | |x| <= k < |x + y|
      ensures Place(a, x + y)[k] == Place(b, y)[k - |x|]
    {
      U32Sum(a + |x|, k - |x|);
    }
  }

  /** The digits and the end of a data line in the live text. */
  lemma DataSlices(live: seq<byte>, h: Peek, lead: seq<byte>, l: HexLine, rest: seq<byte>) returns (m: nat)
    requires NoColon(lead) && ValidLine(l) && Prefix(live, lead + LineText(l, rest))
    requires h == PeekHeader(live) && h.Line? && h.length + 2 * h.count + 2 <= |live|
    ensures h == Line(|lead| + 9, Count(l), Addr(l), KindOf(l))
    ensures m == h.length + 2 * h.count + 2 && live[h.length..h.length + 2 * h.count] == l.data
    ensures m <= |lead + LineText(l, rest)| && (lead + LineText(l, rest))[m..] == l.tail[2..] + rest
  {
    PeekOfText(live, lead, l, rest);
    LineSlices(lead, l, rest);
    var text := lead + LineText(l, rest);
    PrefixAt(live, text, h.length, 2 * h.count);
    m := h.length + 2 * h.count + 2;
    DropTwice(text, m - 2, 2);
    assert (l.tail + rest)[2..] == l.tail[2..] + rest;
  }

  /** The chunk after a data line. */
  function AfterData(c: Chunk, l: HexLine, m: nat): Chunk
    requires ValidLine(l) && m <= |c.live|
  {
    var cur := Hi(c.base) + Addr(l);
    Chunk(c.live[m..], c.base, true, c.out + HexBytes(l.data), if c.started then c.addr else cur, U32(cur + Count(l)))
  }

  /** A data line gives its bytes, and leaves the text behind its checksum. */
  lemma DataYields(c: Chunk, h: Peek, space: nat, lead: seq<byte>, l: HexLine, rest: seq<byte>) returns (m: nat)
    requires NoColon(lead) && ValidLine(l) && Prefix(c.live, lead + LineText(l, rest))
    requires h == PeekHeader(c.live) && h.Line? && h.length + 2 * h.count + 2 <= |c.live| && DataLine(c, h, space).Stop?
    ensures m <= |c.live| && m <= |lead + LineText(l, rest)| && (lead + LineText(l, rest))[m..] == l.tail[2..] + rest
    ensures DataLine(c, h, space) == Stop(AfterData(c, l, m), false)
  {
    m := DataSlices(c.live, h, lead, l, rest);
  }

  /** An address record leaves the text from its checksum on. */
  lemma NumberYields(c: Chunk, h: Peek, n: nat, lead: seq<byte>, l: HexLine, rest: seq<byte>) returns (m: nat)
    requires NoColon(lead) && ValidLine(l) && Prefix(c.live, lead + LineText(l, rest)) && |l.data| == n
    requires h == PeekHeader(c.live) && h.Line? && h.length <= |c.live| && NumberLine(c, h, n).Stop?
    ensures m <= |c.live| && (lead + LineText(l, rest))[m..] == l.tail + rest
    ensures NumberLine(c, h, n) == Stop(AfterNumber(c, l, m), false)
  {
    PeekOfText(c.live, lead, l, rest);
    LineSlices(lead, l, rest);
    ScanIsValue(c.live, h.length, n, 0);
    PrefixAt(c.live, lead + LineText(l, rest), h.length, n);
    m := h.length + n;
  }

  // ---------- one call ----------

  /** The live text is the beginning of what is left of the file. */
  ghost predicate Reads(live: seq<byte>, lead: seq<byte>, ls: seq<HexLine>) {
    NoColon(lead) && ValidLines(ls) && Prefix(live, lead + Text(ls))
  }

  /** The chunk so far ends where the data lines have got to; an extended address since then is taken for the
      next address. */
  predicate EndsAt(c: Chunk, last: Reach) {
    && (c.started ==>
          && last.Behind? && last.addr == U32(c.addr + |c.out|)
          && (if last.moved then c.next == c.base == Hi(c.base) else c.next == last.addr))
    && (!c.started ==> c.out == [])
  }

  lemma PrefixDrop(live: seq<byte>, text: seq<byte>, m: nat)
    requires Prefix(live, text) && m <= |live|
    ensures Prefix(live[m..], text[m..])
  {
  }

  lemma DropTwice(text: seq<byte>, m: nat, n: nat)
    requires m + n <= |text|
    ensures text[m..][n..] == text[m + n..]
  {
  }

  lemma RestValid(ls: seq<HexLine>)
    requires ValidLines(ls) && ls != []
    ensures ValidLine(ls[0]) && ValidLines(ls[1..]) && NoColon(ls[0].tail[2..])
  {
  }

  /** The text left behind a line. */
  lemma ReadsOn(live: seq<byte>, lead: seq<byte>, ls: seq<HexLine>, m: nat, lead': seq<byte>)
    requires Reads(live, lead, ls) && ls != [] && NoColon(lead')
    requires m <= |live| && (lead + Text(ls))[m..] == lead' + Text(ls[1..])
    ensures Reads(live[m..], lead', ls[1..])
  {
    PrefixDrop(live, lead + Text(ls), m);
    RestValid(ls);
  }

  lemma SteadyData(ls: seq<HexLine>, base: nat, last: Reach, next: nat)
    requires ValidLines(ls) && ls != [] && ValidLine(ls[0]) && KindOf(ls[0]) == DATA && Steady(ls, base, last)
    requires next == U32(Hi(base) + Addr(ls[0]) + Count(ls[0]))
    ensures ValidLines(ls[1..]) && Steady(ls[1..], base, Behind(next, false))
    ensures last.Behind? && last.moved && Addr(ls[0]) == 0 ==> last.addr == base
  {
  }

  lemma PairsData(ls: seq<HexLine>, base: nat, base': nat) returns (whole: seq<(nat, byte)>, more: seq<(nat, byte)>)
    requires ValidLines(ls) && ls != [] && ValidLine(ls[0]) && KindOf(ls[0]) == DATA && base' == base
    ensures ValidLines(ls[1..]) && whole == Pairs(ls, base) && more == Pairs(ls[1..], base')
    ensures whole == Place(Hi(base) + Addr(ls[0]), HexBytes(ls[0].data)) + more
  {
    whole, more := Pairs(ls, base), Pairs(ls[1..], base');
  }

  /** A data line that is no jump goes on where the chunk ended. */
  predicate GoesOn(c: Chunk, cur: nat) {
    c.started ==> cur == U32(c.addr + |c.out|)
  }

  lemma NoJumpGoesOn(c: Chunk, h: Peek, last: Reach)
    requires h.Line? && h.kind == DATA && !Jumps(c, h) && EndsAt(c, last)
    requires last.Behind? && last.moved && h.addr == 0 ==> last.addr == c.base
    ensures GoesOn(c, Hi(c.base) + h.addr)
  {
  }

  /** The address behind a data line is where the chunk ends. */
  lemma NextReached(c: Chunk, l: HexLine, m: nat)
    requires ValidLine(l) && m <= |c.live| && (!c.started ==> c.out == []) && GoesOn(c, Hi(c.base) + Addr(l))
    ensures EndsAt(AfterData(c, l, m), Behind(AfterData(c, l, m).next, false))
  {
    if c.started {
      U32Sum(c.addr + |c.out|, Count(l));
    }
  }

  lemma DataLinePlaced(c: Chunk, ls: seq<HexLine>, m: nat, r: Chunk)
    requires ValidLines(ls) && ls != [] && ValidLine(ls[0]) && KindOf(ls[0]) == DATA && m <= |c.live|
    requires (!c.started ==> c.out == []) && GoesOn(c, Hi(c.base) + Addr(ls[0])) && r == AfterData(c, ls[0], m)
    ensures ValidLines(ls[1..])
    ensures Place(r.addr, r.out) + Pairs(ls[1..], r.base) == Place(c.addr, c.out) + Pairs(ls, c.base)
  {
    var whole, more := PairsData(ls, c.base, r.base);
    DataPlaced(c, ls[0], m, more, whole, r);
  }

  lemma DataLineYields(c: Chunk, h: Peek, space: nat, lead: seq<byte>, ls: seq<HexLine>, last: Reach)
    returns (m: nat)
    requires Reads(c.live, lead, ls) && EndsAt(c, last) && ls != [] && KindOf(ls[0]) == DATA
    requires h == PeekHeader(c.live) && h.Line? && h.length + 2 * h.count + 2 <= |c.live|
    requires !Jumps(c, h) && DataLine(c, h, space).Stop?
    ensures m <= |c.live| && m <= |lead + Text(ls)| && (lead + Text(ls))[m..] == ls[0].tail[2..] + Text(ls[1..])
    ensures DataLine(c, h, space) == Stop(AfterData(c, ls[0], m), false)
  {
    m := DataYields(c, h, space, lead, ls[0], Text(ls[1..]));
  }

  /** The chunk after an address record. */
  function AfterNumber(c: Chunk, l: HexLine, m: nat): Chunk
    requires ValidLine(l) && m <= |c.live|
  {
    var c' := c.(live := c.live[m..]);
    if KindOf(l) == EXT_LINEAR then c'.(base := BaseOf(l), next := BaseOf(l)) else c'
  }

  predicate Number(l: HexLine)
    requires ValidLine(l)
  {
    KindOf(l) == EXT_LINEAR || KindOf(l) == START_SEG || KindOf(l) == START_LINEAR
  }

  /** In a steady file an address record keeps the chunk together. */
  lemma NumberSteady(c: Chunk, ls: seq<HexLine>, m: nat, last: Reach)
    requires ValidLines(ls) && ls != [] && ValidLine(ls[0]) && Number(ls[0]) && m <= |c.live|
    requires Steady(ls, c.base, last) && EndsAt(c, last)
    ensures var r, last' := AfterNumber(c, ls[0], m), if KindOf(ls[0]) == EXT_LINEAR then Moved(last) else last;
      && ValidLines(ls[1..]) && Steady(ls[1..], r.base, last') && EndsAt(r, last')
      && Place(r.addr, r.out) + Pairs(ls[1..], r.base) == Place(c.addr, c.out) + Pairs(ls, c.base)
  {
  }

  lemma NumberLineYields(c: Chunk, h: Peek, n: nat, lead: seq<byte>, ls: seq<HexLine>) returns (m: nat)
    requires Reads(c.live, lead, ls) && ls != [] && ValidLine(ls[0]) && Number(ls[0]) && |ls[0].data| == n
    requires h == PeekHeader(c.live) && h.Line? && h.length <= |c.live| && NumberLine(c, h, n).Stop?
    ensures m <= |c.live| && m <= |lead + Text(ls)| && (lead + Text(ls))[m..] == ls[0].tail + Text(ls[1..])
    ensures NumberLine(c, h, n) == Stop(AfterNumber(c, ls[0], m), false)
  {
    m := NumberYields(c, h, n, lead, ls[0], Text(ls[1..]));
  }

  /** In a steady file a data line keeps the chunk together. */
  lemma DataSteady(c: Chunk, h: Peek, ls: seq<HexLine>, m: nat, last: Reach) returns (r: Chunk, last': Reach)
    requires ValidLines(ls) && ls != [] && ValidLine(ls[0]) && KindOf(ls[0]) == DATA && m <= |c.live|
    requires h.Line? && h.kind == DATA && h.addr == Addr(ls[0]) && !Jumps(c, h)
    requires Steady(ls, c.base, last) && EndsAt(c, last)
    ensures r == AfterData(c, ls[0], m) && ValidLines(ls[1..]) && EndsAt(r, last') && Steady(ls[1..], r.base, last')
    ensures Place(r.addr, r.out) + Pairs(ls[1..], r.base) == Place(c.addr, c.out) + Pairs(ls, c.base)
  {
    r := AfterData(c, ls[0], m);
    last' := Behind(r.next, false);
    SteadyData(ls, c.base, last, r.next);
    NoJumpGoesOn(c, h, last);
    NextReached(c, ls[0], m);
    DataLinePlaced(c, ls, m, r);
  }

  lemma DataCase(c: Chunk, h: Peek, space: nat, lead: seq<byte>, ls: seq<HexLine>, last: Reach)
    returns (r: Chunk, m: nat, lead': seq<byte>, last': Reach)
    requires Reads(c.live, lead, ls) && EndsAt(c, last) && ls != [] && ValidLine(ls[0]) && KindOf(ls[0]) == DATA
    requires Steady(ls, c.base, last)
    requires h == PeekHeader(c.live) && h.Line? && h.length + 2 * h.count + 2 <= |c.live|
    requires !Jumps(c, h) && LineStep(c, h, space).Stop?
    ensures LineStep(c, h, space) == Stop(r, false)
    ensures m <= |c.live| && m <= |lead + Text(ls)| && r.live == c.live[m..]
      && (lead + Text(ls))[m..] == lead' + Text(ls[1..])
    ensures Reads(r.live, lead', ls[1..]) && EndsAt(r, last') && Steady(ls[1..], r.base, last')
    ensures Place(r.addr, r.out) + Pairs(ls[1..], r.base) == Place(c.addr, c.out) + Pairs(ls, c.base)
  {
    PeekOfText(c.live, lead, ls[0], Text(ls[1..]));
    RestValid(ls);
    m := DataLineYields(c, h, space, lead, ls, last);
    lead' := ls[0].tail[2..];
    r, last' := DataSteady(c, h, ls, m, last);
    ReadsOn(c.live, lead, ls, m, lead');
  }

  lemma NumberCase(c: Chunk, h: Peek, space: nat, lead: seq<byte>, ls: seq<HexLine>, last: Reach)
    returns (r: Chunk, m: nat, lead': seq<byte>, last': Reach)
    requires Reads(c.live, lead, ls) && EndsAt(c, last) && ls != [] && ValidLine(ls[0]) && Number(ls[0])
    requires Steady(ls, c.base, last)
    requires h == PeekHeader(c.live) && h.Line? && h.length + 2 * h.count + 2 <= |c.live|
    requires !Jumps(c, h) && LineStep(c, h, space).Stop?
    ensures LineStep(c, h, space) == Stop(r, false)
    ensures m <= |c.live| && m <= |lead + Text(ls)| && r.live == c.live[m..]
      && (lead + Text(ls))[m..] == lead' + Text(ls[1..])
    ensures Reads(r.live, lead', ls[1..]) && EndsAt(r, last') && Steady(ls[1..], r.base, last')
    ensures Place(r.addr, r.out) + Pairs(ls[1..], r.base) == Place(c.addr, c.out) + Pairs(ls, c.base)
  {
    PeekOfText(c.live, lead, ls[0], Text(ls[1..]));
    RestValid(ls);
    m := NumberLineYields(c, h, if h.kind == EXT_LINEAR then 4 else 8, lead, ls);
    r, lead' := AfterNumber(c, ls[0], m), ls[0].tail;
    last' := if KindOf(ls[0]) == EXT_LINEAR then Moved(last) else last;
    NumberSteady(c, ls, m, last);
    ReadsOn(c.live, lead, ls, m, lead');
  }

  /** What a line of a call comes to: the text moves on by m, and the data go to their addresses. */
  lemma LineYields(c: Chunk, h: Peek, space: nat, lead: seq<byte>, ls: seq<HexLine>, last: Reach)
    returns (r: Chunk, m: nat, lead': seq<byte>, last': Reach)
    requires Reads(c.live, lead, ls) && EndsAt(c, last) && ls != [] && ValidLine(ls[0]) && KindOf(ls[0]) != EOF
    requires Steady(ls, c.base, last)
    requires h == PeekHeader(c.live) && h.Line? && h.length + 2 * h.count + 2 <= |c.live|
    requires !Jumps(c, h) && LineStep(c, h, space).Stop?
    ensures LineStep(c, h, space) == Stop(r, false)
    ensures m <= |c.live| && m <= |lead + Text(ls)| && r.live == c.live[m..]
      && (lead + Text(ls))[m..] == lead' + Text(ls[1..])
    ensures Reads(r.live, lead', ls[1..]) && EndsAt(r, last') && Steady(ls[1..], r.base, last')
    ensures Place(r.addr, r.out) + Pairs(ls[1..], r.base) == Place(c.addr, c.out) + Pairs(ls, c.base)
  {
    PeekOfText(c.live, lead, ls[0], Text(ls[1..]));
    if h.kind == DATA {
      r, m, lead', last' := DataCase(c, h, space, lead, ls, last);
    } else {
      r, m, lead', last' := NumberCase(c, h, space, lead, ls, last);
    }
  }

  /** A data line that goes on where the chunk ended puts its bytes at their addresses. */
  lemma DataPlaced(c: Chunk, l: HexLine, m: nat, more: seq<(nat, byte)>, whole: seq<(nat, byte)>, r: Chunk)
    requires ValidLine(l) && m <= |c.live| && (!c.started ==> c.out == []) && GoesOn(c, Hi(c.base) + Addr(l))
    requires whole == Place(Hi(c.base) + Addr(l), HexBytes(l.data)) + more
    requires r == AfterData(c, l, m)
    ensures Place(r.addr, r.out) + more == Place(c.addr, c.out) + whole
  {
    var cur, x := Hi(c.base) + Addr(l), HexBytes(l.data);
    if c.started {
      PlaceBoth(c.addr, c.out, cur, x);
      Regroup(Place(c.addr, c.out), Place(cur, x), more);
    } else {
      assert c.out + x == x;
      assert Place(c.addr, c.out) == [];
    }
  }

  lemma Regroup(a: seq<(nat, byte)>, b: seq<(nat, byte)>, c: seq<(nat, byte)>)
    ensures (a + b) + c == a + (b + c)
  {
  }

  // ---------- one call ----------

  lemma DropMore(text: seq<byte>, m: nat, mid: seq<byte>, n: nat, end: seq<byte>)
    requires m <= |text| && text[m..] == mid && n <= |mid| && mid[n..] == end
    ensures m + n <= |text| && text[m + n..] == end
  {
  }

  /** The text moved on by m, and what was decoded and what is left are together what there was. */
  ghost predicate MovesOn(c: Chunk, lead: seq<byte>, ls: seq<HexLine>, r: Chunk, m: nat, lead': seq<byte>,
                          ls': seq<HexLine>)
    requires ValidLines(ls) && ValidLines(ls')
  {
    match r
    case Chunk(live, base, _, out, addr, _) =>
      && m <= |c.live| && m <= |lead + Text(ls)| && live == c.live[m..] && (lead + Text(ls))[m..] == lead' + Text(ls')
      && Place(addr, out) + Pairs(ls', base) == Place(c.addr, c.out) + Pairs(ls, c.base)
  }

  lemma SamePlaces(c: Chunk, lead: seq<byte>, ls: seq<HexLine>, r: Chunk, m: nat, lead': seq<byte>, ls': seq<HexLine>)
    requires ValidLines(ls) && ValidLines(ls') && MovesOn(c, lead, ls, r, m, lead', ls')
    ensures Place(r.addr, r.out) + Pairs(ls', r.base) == Place(c.addr, c.out) + Pairs(ls, c.base)
  {
  }

  lemma MovesTwice(c: Chunk, lead: seq<byte>, ls: seq<HexLine>, r: Chunk, m: nat, lead': seq<byte>, ls': seq<HexLine>,
                   r': Chunk, m': nat, lead'': seq<byte>, ls'': seq<HexLine>)
    requires ValidLines(ls) && ValidLines(ls') && ValidLines(ls'')
    requires MovesOn(c, lead, ls, r, m, lead', ls') && MovesOn(r, lead', ls', r', m', lead'', ls'')
    ensures MovesOn(c, lead, ls, r', m + m', lead'', ls'')
  {
    DropMore(lead + Text(ls), m, lead' + Text(ls'), m', lead'' + Text(ls''));
    DropMore(c.live, m, r.live, m', r'.live);
  }

  /** A call that ends well: the chunk it returns, followed by what the rest of the file says, is what the
      file said before. lead and ls are the text that is left, m is how far it moved on. */
  lemma {:induction false} DecodeYields(c: Chunk, space: nat, lead: seq<byte>, ls: seq<HexLine>, last: Reach, r: Ending)
    returns (m: nat, lead': seq<byte>, ls': seq<HexLine>, last': Reach)
    requires Reads(c.live, lead, ls) && EndsAt(c, last) && Steady(ls, c.base, last)
    requires r == Decode(c, space) && r.Stop?
    ensures r.eof ==> Place(r.c.addr, r.c.out) == Place(c.addr, c.out) + Pairs(ls, c.base)
    ensures ValidLines(ls')
    ensures !r.eof ==>
      MovesOn(c, lead, ls, r.c, m, lead', ls') && Reads(r.c.live, lead', ls') && Steady(ls', r.c.base, last')
    decreases |c.live|, 1
  {
    m, lead', ls', last' := 0, lead, ls, last;
    var h := PeekHeader(c.live);
    PeekFits(c.live);
    if !h.Line? || Jumps(c, h) {
      DecodeStops(c, space);
      StaysPut(c, lead, ls);
      return;
    }
    LineIsThere(c.live, lead, ls);
    DecodeGoesOn(c, space, h);
    if KindOf(ls[0]) == EOF {
      EofYields(c, h, space, ls);
    } else {
      var c1, m1, lead1, last1 := LineYields(c, h, space, lead, ls, last);
      LineShortens(c, h, space);
      m, lead', ls', last' := RestYields(c, space, lead, ls, c1, m1, lead1, last1, r);
    }
  }

  /** The rest of a call after its first line. */
  lemma {:induction false} RestYields(c: Chunk, space: nat, lead: seq<byte>, ls: seq<HexLine>,
                                      c1: Chunk, m1: nat, lead1: seq<byte>, last1: Reach, r: Ending)
    returns (m: nat, lead': seq<byte>, ls': seq<HexLine>, last': Reach)
    requires ValidLines(ls) && ls != [] && ValidLines(ls[1..]) && MovesOn(c, lead, ls, c1, m1, lead1, ls[1..])
    requires Reads(c1.live, lead1, ls[1..]) && EndsAt(c1, last1) && Steady(ls[1..], c1.base, last1)
    requires |c1.live| < |c.live| && r == Decode(c1, space) && r.Stop?
    ensures r.eof ==> Place(r.c.addr, r.c.out) == Place(c.addr, c.out) + Pairs(ls, c.base)
    ensures ValidLines(ls')
    ensures !r.eof ==>
      MovesOn(c, lead, ls, r.c, m, lead', ls') && Reads(r.c.live, lead', ls') && Steady(ls', r.c.base, last')
    decreases |c.live|, 0
  {
    m, lead', ls', last' := DecodeYields(c1, space, lead1, ls[1..], last1, r);
    if r.eof {
      SamePlaces(c, lead, ls, c1, m1, lead1, ls[1..]);
    } else {
      MovesTwice(c, lead, ls, c1, m1, lead1, ls[1..], r.c, m, lead', ls');
      m := m1 + m;
    }
  }

  lemma StaysPut(c: Chunk, lead: seq<byte>, ls: seq<HexLine>)
    requires ValidLines(ls)
    ensures MovesOn(c, lead, ls, c, 0, lead, ls)
  {
  }

  lemma EofYields(c: Chunk, h: Peek, space: nat, ls: seq<HexLine>)
    requires ValidLines(ls) && ls != [] && ValidLine(ls[0]) && KindOf(ls[0]) == EOF
    requires h.Line? && h.length + 2 * h.count + 2 <= |c.live| && h.kind == EOF
    ensures var r := LineStep(c, h, space);
      r.Stop? && r.eof && Place(r.c.addr, r.c.out) == Place(c.addr, c.out) + Pairs(ls, c.base)
  {
    assert Pairs(ls, c.base) == [];
  }

  /** A header in the live text belongs to a line of the file. */
  lemma LineIsThere(live: seq<byte>, lead: seq<byte>, ls: seq<HexLine>)
    requires Reads(live, lead, ls) && PeekHeader(live).Line?
    ensures ls != [] && ValidLine(ls[0]) && PeekHeader(live).kind == KindOf(ls[0])
  {
    if ls == [] {
      assert lead + Text(ls) == lead;
      NoColonNoLine(live, lead);
    } else {
      PeekOfText(live, lead, ls[0], Text(ls[1..]));
    }
  }

  // ---------- whole runs ----------

  /** The text not yet consumed, how much of it has arrived, the base address, what was decoded and returned so
      far, whether the end-of-file record was met, and whether a call has lost data. */
  datatype Hex = Hex(rest: seq<byte>, arrived: nat, base: nat, out: seq<(nat, byte)>, eof: bool, lost: bool)

  datatype Event = Arrive(n: nat) | Call(space: nat)

  /** The decoder after a call that returned the bytes of r. */
  function Returned(s: Hex, r: Chunk, eof: bool): Hex
    requires s.arrived <= |s.rest|
  {
    Hex(r.live + s.rest[s.arrived..], |r.live|, r.base, s.out + Place(r.addr, r.out), eof, s.lost)
  }

  /** The decoder after a call that returned 0 in the middle of its loop: it has moved on, but its bytes are not
      reported. */
  function Dropped(s: Hex, r: Chunk): Hex
    requires s.arrived <= |s.rest|
  {
    Hex(r.live + s.rest[s.arrived..], |r.live|, r.base, s.out, false, true)
  }

  /** The call of the decoder that s is ready for. */
  function CallOn(s: Hex, space: nat): Ending
    requires s.arrived <= |s.rest|
  {
    Decode(Chunk(s.rest[..s.arrived], s.base, false, [], 0, 0), space)
  }

  /** Text arrives, or the decoder is called and does not fail; after the end-of-file record it returns at
      once. */
  ghost predicate Follows(s: Hex, e: Event, s': Hex) {
    match e
    case Arrive(n) => s.arrived + n <= |s.rest| && s' == s.(arrived := s.arrived + n)
    case Call(space) =>
      s.arrived <= |s.rest| &&
      if s.eof then s' == s else
        var r := CallOn(s, space);
        if r.Stop? then s' == Returned(s, r.c, r.eof) else r.Lost? && s' == Dropped(s, r.c)
  }

  /** The state s is reached from a fresh decoder of this text by these events. */
  ghost predicate Reached(text: seq<byte>, es: seq<Event>, s: Hex)
    decreases |es|
  {
    if es == [] then s == Hex(text, 0, 0, [], false, false) else
      var n := |es| - 1;
      exists s0 :: Follows(s0, es[n], s) && Reached(text, es[..n], s0)
  }

  /** What was decoded, and what the rest of the file says. */
  ghost predicate Faithful(s: Hex, lead: seq<byte>, ls: seq<HexLine>, last: Reach, pairs: seq<(nat, byte)>) {
    if s.eof then s.out == pairs else
      && NoColon(lead) && ValidLines(ls) && s.rest == lead + Text(ls) && s.arrived <= |s.rest|
      && Steady(ls, s.base, last) && s.out + Pairs(ls, s.base) == pairs
  }

  lemma CallFaithful(s: Hex, space: nat, s': Hex, lead: seq<byte>, ls: seq<HexLine>, last: Reach,
                     pairs: seq<(nat, byte)>)
    returns (lead': seq<byte>, ls': seq<HexLine>, last': Reach)
    requires Faithful(s, lead, ls, last, pairs) && !s.eof && Follows(s, Call(space), s') && !s'.lost
    ensures Faithful(s', lead', ls', last', pairs)
  {
    var c := Chunk(s.rest[..s.arrived], s.base, false, [], 0, 0);
    var r := Decode(c, space);
    SteadyStarts(ls, s.base, last);
    var m;
    m, lead', ls', last' := DecodeYields(c, space, lead, ls, Nowhere, r);
    assert Place(0, []) == [];
    if r.eof {
      assert Place(0, []) + Pairs(ls, s.base) == Pairs(ls, s.base);
    } else {
      RestText(s.rest, s.arrived, m, lead' + Text(ls'));
      assert Place(0, []) + Pairs(ls, s.base) == Pairs(ls, s.base);
      Regroup(s.out, Place(r.c.addr, r.c.out), Pairs(ls', r.c.base));
    }
  }

  lemma RestText(rest: seq<byte>, arrived: nat, m: nat, left: seq<byte>)
    requires arrived <= |rest| && m <= arrived && rest[m..] == left
    ensures rest[..arrived][m..] + rest[arrived..] == left
  {
  }

  /** A steady file is steady for a call that has not seen any data yet. */
  lemma {:induction false} SteadyStarts(ls: seq<HexLine>, base: nat, last: Reach)
    requires ValidLines(ls) && Steady(ls, base, last)
    ensures Steady(ls, base, Nowhere)
    decreases |ls|
  {
    if ls != [] && KindOf(ls[0]) != EOF && KindOf(ls[0]) != DATA {
      var ext := KindOf(ls[0]) == EXT_LINEAR;
      SteadyStarts(ls[1..], if ext then BaseOf(ls[0]) else base, if ext then Moved(last) else last);
    }
  }

  lemma {:induction false} RunFaithful(lead: seq<byte>, ls: seq<HexLine>, es: seq<Event>, s: Hex)
    returns (lead': seq<byte>, ls': seq<HexLine>, last': Reach)
    requires NoColon(lead) && ValidLines(ls) && Steady(ls, 0, Nowhere) && Reached(lead + Text(ls), es, s)
    ensures !s.lost ==> Faithful(s, lead', ls', last', Pairs(ls, 0))
    decreases |es|
  {
    if es == [] {
      lead', ls', last' := lead, ls, Nowhere;
      assert [] + Pairs(ls, 0) == Pairs(ls, 0);
    } else {
      var n := |es| - 1;
      var s0 :| Follows(s0, es[n], s) && Reached(lead + Text(ls), es[..n], s0);
      lead', ls', last' := RunFaithful(lead, ls, es[..n], s0);
      if es[n].Call? && !s0.eof && !s.lost {
        lead', ls', last' := CallFaithful(s0, es[n].space, s, lead', ls', last', Pairs(ls, 0));
      }
    }
  }

  /** However the text arrives and whenever the decoder is called, a run in which no call loses data for lack of
      room yields exactly the file's bytes at the file's addresses once it gets to the end-of-file record;
      before that, it has yielded the first of them. */
  lemma ArrivalIndependence(lead: seq<byte>, ls: seq<HexLine>, es: seq<Event>, s: Hex)
    requires NoColon(lead) && ValidLines(ls) && Steady(ls, 0, Nowhere) && Reached(lead + Text(ls), es, s)
    ensures !s.lost ==> |s.out| <= |Pairs(ls, 0)| && s.out == Pairs(ls, 0)[..|s.out|]
    ensures !s.lost && s.eof ==> s.out == Pairs(ls, 0)
  {
    var lead', ls', last' := RunFaithful(lead, ls, es, s);
  }

  // ---------- how much one call decodes ----------

  /** A call decodes at most half as many bytes as there is live text, and a colon and header more. */
  lemma {:induction false} OutFits(c: Chunk, space: nat)
    requires Decode(c, space).Stop?
    ensures var r := Decode(c, space).c;
      |r.out| >= |c.out| && 2 * (|r.out| - |c.out|) <= |c.live| - |r.live|
    decreases |c.live|
  {
    var h := PeekHeader(c.live);
    PeekFits(c.live);
    if h.Line? && !Jumps(c, h) {
      DecodeGoesOn(c, space, h);
      var r := LineStep(c, h, space);
      LineFits(c, h, space);
      if !r.eof {
        LineShortens(c, h, space);
        OutFits(r.c, space);
      }
    } else {
      DecodeStops(c, space);
    }
  }

  lemma LineFits(c: Chunk, h: Peek, space: nat)
    requires h.Line? && h.length + 2 * h.count + 2 <= |c.live| && LineStep(c, h, space).Stop?
    ensures var r := LineStep(c, h, space).c;
      |r.out| >= |c.out| && 2 * (|r.out| - |c.out|) <= |c.live| - |r.live|
  {
  }

  /** So the gate of _bf_do_flush, twice the largest chunk so far, is open whenever the decoded ring is
      empty, if that is not smaller than the input ring. */
  lemma GateOpensWhenEmpty(c: Chunk, space: nat, inputSize: nat, decodedSize: nat)
    requires c.out == [] && |c.live| <= inputSize - 1 && inputSize <= decodedSize && Decode(c, space).Stop?
    ensures decodedSize - 1 >= 2 * |Decode(c, space).c.out|
  {
    OutFits(c, space);
  }
}
