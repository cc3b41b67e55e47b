/** Intel HEX files as a printer writes them, from bytes and addresses, and what the decoder of
    src/binary-format-ihex.c makes of them. Nothing of the decoder is used to say what a record looks like. */
module IhexPrinter {
  import opened Basics
  import opened Bytes
  import opened IntelHex
  import opened IhexRuns
  import opened IhexSchedules
  import opened IhexRoom
  import opened Numerals
  import Ring

  // ---------- records ----------

  /** Data at an address below the base, the upper half of the addresses to come, a start address, the end. */
  datatype Record =
    Data(addr: nat, bytes: seq<byte>) | Extended(high: nat) | Start(linear: bool, bytes: seq<byte>) | End

  predicate ValidRecord(r: Record) {
    match r
    case Data(addr, bytes) => addr < 0x1_0000 && 0 < |bytes| < 256
    case Extended(high) => high < 0x1_0000
    case Start(_, bytes) => |bytes| == 4
    case End => true
  }

  /** The bytes of a record and their addresses, which are 32-bit numbers. */
  function PlacesOf(r: Record, base: nat): seq<(nat, byte)> {
    if r.Data? then seq(|r.bytes|, k requires 0 <= k < |r.bytes| => ((base + r.addr + k) % 0x1_0000_0000, r.bytes[k]))
    else []
  }

  function BaseAfter(r: Record, base: nat): nat {
    if r.Extended? then r.high * 0x1_0000 else base
  }

  /** What the records say: every byte and its address, up to the end. */
  function Meaning(rs: seq<Record>, base: nat): seq<(nat, byte)> {
    if rs == [] || rs[0].End? then [] else PlacesOf(rs[0], base) + Meaning(rs[1..], BaseAfter(rs[0], base))
  }

  // ---------- printing ----------

  /** Two digits a byte. */
  predicate AreBytes(t: seq<byte>, bytes: seq<byte>) {
    if bytes == [] then t == []
    else |t| >= 2 && IsNumber(t[..2], bytes[0] as nat, 2) && AreBytes(t[2..], bytes[1..])
  }

  function TypeOf(r: Record): nat {
    match r
    case Data(_, _) => 0
    case End => 1
    case Start(linear, _) => if linear then 5 else 3
    case Extended(_) => 4
  }

  function DataOf(r: Record): seq<byte>
    requires ValidRecord(r)
  {
    match r
    case Data(_, bytes) => bytes
    case End => []
    case Start(_, bytes) => bytes
    case Extended(high) => [(high / 256) as byte, (high % 256) as byte]
  }

  /** The parts of a record behind its colon: number of bytes, address and type; the bytes; checksum and line break,
      which are not looked at but hold no colon. */
  predicate Prints(l: HexLine, r: Record)
    requires ValidRecord(r)
  {
    && |l.head| == 8
    && IsNumber(l.head[..2], |DataOf(r)|, 2)
    && IsNumber(l.head[2..6], if r.Data? then r.addr else 0, 4)
    && IsNumber(l.head[6..], TypeOf(r), 2)
    && AreBytes(l.data, DataOf(r))
    && |l.tail| >= 2 && 58 !in l.tail
  }

  predicate PrintsAll(ls: seq<HexLine>, rs: seq<Record>) {
    |ls| == |rs| && forall i :: 0 <= i < |rs| ==> ValidRecord(rs[i]) && Prints(ls[i], rs[i])
  }

  function FileText(ls: seq<HexLine>): seq<byte> {
    if ls == [] then [] else [58] + ls[0].head + ls[0].data + ls[0].tail + FileText(ls[1..])
  }

  // ---------- digits ----------

  lemma DigitValue(c: byte, v: nat)
    requires v < 16 && IsDigit(c, v)
    ensures Nibble(c) == v
  {
  }

  lemma {:induction false} HornerLast(t: seq<byte>, acc: nat)
    requires t != [] && AllHex(t)
    ensures var n := |t| - 1;
      AllHex(t[..n]) && Horner(t, acc) == 16 * Horner(t[..n], acc) + Nibble(t[n])
    decreases |t|
  {
    var n := |t| - 1;
    if n > 0 {
      HornerLast(t[1..], 16 * acc + Nibble(t[0]));
      assert t[1..][..n - 1] == t[..n][1..];
    }
  }

  lemma {:induction false} NumberValue(t: seq<byte>, v: nat, n: nat)
    requires IsNumber(t, v, n)
    ensures |t| == n && AllHex(t) && HexValue(t) == v
    decreases n
  {
    if n > 0 {
      NumberValue(t[..n - 1], v / 16, n - 1);
      DigitValue(t[n - 1], v % 16);
      assert forall i :: 0 <= i < n - 1 ==> t[i] == t[..n - 1][i];
      HornerLast(t, 0);
    }
  }

  lemma {:induction false} BytesValue(t: seq<byte>, bytes: seq<byte>)
    requires AreBytes(t, bytes)
    ensures |t| == 2 * |bytes| && AllHex(t) && HexBytes(t) == bytes
    decreases |bytes|
  {
    if bytes != [] {
      NumberValue(t[..2], bytes[0] as nat, 2);
      HexValue2(t[..2]);
      BytesValue(t[2..], bytes[1..]);
      BytesCons(t, bytes);
    }
  }

  lemma BytesCons(t: seq<byte>, bytes: seq<byte>)
    requires bytes != [] && |t| >= 2 && |t[2..]| == 2 * |bytes[1..]|
    requires AllHex(t[..2]) && AllHex(t[2..]) && HexBytes(t[2..]) == bytes[1..]
    requires 16 * Nibble(t[..2][0]) + Nibble(t[..2][1]) == bytes[0] as nat
    ensures AllHex(t) && HexBytes(t) == bytes
  {
    forall i | 0 <= i < |t|
      ensures Nibble(t[i]) >= 0
    {
      assert t[i] == if i < 2 then t[..2][i] else t[2..][i - 2];
    }
  }

  // ---------- lines ----------

  lemma RecordLine(l: HexLine, r: Record)
    requires ValidRecord(r) && Prints(l, r)
    ensures |l.head| == 8 && AllHex(l.head) && AllHex(l.data) && |l.data| == 2 * |DataOf(r)|
    ensures Count(l) == |DataOf(r)| && KindOf(l) == TypeOf(r) && (r.Data? ==> Addr(l) == r.addr)
    ensures HexBytes(l.data) == DataOf(r)
  {
    NumberValue(l.head[..2], |DataOf(r)|, 2);
    NumberValue(l.head[2..6], if r.Data? then r.addr else 0, 4);
    NumberValue(l.head[6..], TypeOf(r), 2);
    BytesValue(l.data, DataOf(r));
    forall i | 0 <= i < 8
      ensures Nibble(l.head[i]) >= 0
    {
      assert l.head[i] == if i < 2 then l.head[..2][i] else if i < 6 then l.head[2..6][i - 2] else l.head[6..][i - 6];
    }
  }

  /** The header of a line says which record it is. */
  lemma RecordFields(l: HexLine, r: Record)
    requires ValidRecord(r) && Prints(l, r)
    ensures DecodableLine(l) && Count(l) == |DataOf(r)|
    ensures (KindOf(l) == DATA <==> r.Data?) && (KindOf(l) == EOF <==> r.End?)
    ensures KindOf(l) == EXT_LINEAR <==> r.Extended?
    ensures r.Data? ==> Addr(l) == r.addr
  {
    RecordLine(l, r);
  }

  lemma RecordBytes(l: HexLine, r: Record)
    requires ValidRecord(r) && Prints(l, r) && DecodableLine(l)
    ensures DataBytes(l) == DataOf(r)
  {
    RecordLine(l, r);
  }

  /** Four digits are two bytes. */
  lemma TwoBytes(t: seq<byte>, high: nat)
    requires |t| == 4 && AllHex(t) && high < 0x1_0000 && HexBytes(t) == [(high / 256) as byte, (high % 256) as byte]
    ensures HexValue(t) == high
  {
    HexValue4(t);
    assert HexBytes(t) == [(16 * Nibble(t[0]) + Nibble(t[1])) as byte] + HexBytes(t[2..]);
    assert HexBytes(t[2..]) == [(16 * Nibble(t[2]) + Nibble(t[3])) as byte] + HexBytes(t[2..][2..]);
    assert HexBytes(t)[0] == (16 * Nibble(t[0]) + Nibble(t[1])) as byte;
    assert HexBytes(t)[1] == HexBytes(t[2..])[0];
  }

  lemma ExtendedBase(l: HexLine, r: Record)
    requires ValidRecord(r) && r.Extended? && Prints(l, r)
    ensures AllHex(l.data) && BaseOf(l) == r.high * 0x1_0000
  {
    RecordLine(l, r);
    TwoBytes(l.data, r.high);
    Ring.SmallMod(r.high * 0x1_0000, 0x1_0000_0000);
  }

  lemma {:induction false} SameText(ls: seq<HexLine>)
    ensures FileText(ls) == Text(ls)
    decreases |ls|
  {
    if ls != [] {
      SameText(ls[1..]);
      SameLine(ls[0], Text(ls[1..]));
    }
  }

  lemma SameLine(l: HexLine, rest: seq<byte>)
    ensures [58] + l.head + l.data + l.tail + rest == LineText(l, rest)
  {
  }

  lemma AllDecodable(ls: seq<HexLine>, rs: seq<Record>)
    requires PrintsAll(ls, rs)
    ensures Decodable(ls)
  {
    forall i | 0 <= i < |ls|
      ensures DecodableLine(ls[i])
    {
      RecordFields(ls[i], rs[i]);
    }
  }

  // ---------- meaning ----------

  predicate IsHigh(base: nat) {
    Hi(base) == base
  }

  lemma BaseIsHigh(r: Record, base: nat)
    requires IsHigh(base)
    ensures IsHigh(BaseAfter(r, base))
  {
    if r.Extended? {
      Ring.ModUnique(r.high * 0x1_0000, 0x1_0000, r.high, 0);
    }
  }

  lemma PlaceIs(a: nat, bytes: seq<byte>)
    ensures Place(a, bytes) == seq(|bytes|, k requires 0 <= k < |bytes| => ((a + k) % 0x1_0000_0000, bytes[k]))
  {
    forall k | 0 <= k < |bytes|
      ensures Place(a, bytes)[k] == ((a + k) % 0x1_0000_0000, bytes[k])
    {
      assert Place(a, bytes)[k] == (U32(a + k), bytes[k]);
    }
  }

  /** A line says what its record says. */
  lemma SameLinePlaces(l: HexLine, r: Record, base: nat)
    requires ValidRecord(r) && Prints(l, r) && IsHigh(base)
    ensures DecodableLine(l) && (KindOf(l) == EOF <==> r.End?)
    ensures LinePlaces(l, base) == PlacesOf(r, base) && NextBase(l, base) == BaseAfter(r, base)
  {
    RecordFields(l, r);
    if r.Data? {
      RecordBytes(l, r);
      PlaceIs(base + r.addr, r.bytes);
    } else if r.Extended? {
      ExtendedBase(l, r);
    }
  }

  lemma RestPrints(ls: seq<HexLine>, rs: seq<Record>)
    requires PrintsAll(ls, rs) && rs != []
    ensures PrintsAll(ls[1..], rs[1..]) && ValidRecord(rs[0]) && Prints(ls[0], rs[0])
  {
  }

  /** What the text says is what the records say. */
  lemma {:induction false} SameMeaning(ls: seq<HexLine>, rs: seq<Record>, base: nat)
    requires PrintsAll(ls, rs) && IsHigh(base)
    ensures Decodable(ls) && Pairs(ls, base) == Meaning(rs, base)
    decreases |rs|
  {
    AllDecodable(ls, rs);
    if rs != [] {
      RestPrints(ls, rs);
      SameLinePlaces(ls[0], rs[0], base);
      BaseIsHigh(rs[0], base);
      if !rs[0].End? {
        SameMeaning(ls[1..], rs[1..], BaseAfter(rs[0], base));
        OnePairs(ls, base);
      }
    }
  }

  // ---------- the round trip ----------

  /** Where the data have got to, and whether an extended address came since. */
  datatype Upto = Upto(addr: nat, moved: bool)

  function UptoAfter(r: Record, base: nat, last: Option<Upto>): Option<Upto> {
    match r
    case Data(addr, bytes) => Some(Upto((base + addr + |bytes|) % 0x1_0000_0000, false))
    case Extended(_) => if last.Some? then Some(last.value.(moved := true)) else None
    case _ => last
  }

  /** No data record at address 0 follows an extended address that is not just behind the data so far. */
  predicate Continuous(rs: seq<Record>, base: nat, last: Option<Upto>) {
    if rs == [] || rs[0].End? then true
    else
      && (rs[0].Data? && rs[0].addr == 0 && last.Some? && last.value.moved ==> last.value.addr == base)
      && Continuous(rs[1..], BaseAfter(rs[0], base), UptoAfter(rs[0], base, last))
  }

  function ReachOf(last: Option<Upto>): Reach {
    match last
    case None => Nowhere
    case Some(u) => Behind(u.addr, u.moved)
  }

  /** The step of Steady. */
  lemma SteadyNext(ls: seq<HexLine>, base: nat, last: Reach)
    requires ValidLines(ls) && ls != [] && DecodableLine(ls[0]) && KindOf(ls[0]) != EOF
    ensures Steady(ls, base, last) <==>
              (KindOf(ls[0]) == DATA && Addr(ls[0]) == 0 && last.Behind? && last.moved ==> last.addr == base)
              && Steady(ls[1..], NextBase(ls[0], base), ReachAfter(ls[0], base, last))
  {
  }

  function ReachAfter(l: HexLine, base: nat, last: Reach): Reach
    requires ValidLine(l)
  {
    if KindOf(l) == DATA then Behind(U32(Hi(base) + Addr(l) + Count(l)), false)
    else if KindOf(l) == EXT_LINEAR then Moved(last) else last
  }

  lemma SameReach(l: HexLine, r: Record, base: nat, last: Option<Upto>)
    requires ValidRecord(r) && Prints(l, r) && IsHigh(base)
    ensures DecodableLine(l) && ReachAfter(l, base, ReachOf(last)) == ReachOf(UptoAfter(r, base, last))
    ensures (KindOf(l) == DATA <==> r.Data?) && (r.Data? ==> Addr(l) == r.addr)
  {
    RecordFields(l, r);
  }

  lemma {:induction false} SameSteady(ls: seq<HexLine>, rs: seq<Record>, base: nat, last: Option<Upto>)
    requires PrintsAll(ls, rs) && IsHigh(base)
    ensures Decodable(ls) && (Steady(ls, base, ReachOf(last)) <==> Continuous(rs, base, last))
    decreases |rs|
  {
    AllDecodable(ls, rs);
    if rs != [] {
      RestPrints(ls, rs);
      SameLinePlaces(ls[0], rs[0], base);
      SameReach(ls[0], rs[0], base, last);
      BaseIsHigh(rs[0], base);
      if !rs[0].End? {
        SteadyNext(ls, base, ReachOf(last));
        SameSteady(ls[1..], rs[1..], BaseAfter(rs[0], base), UptoAfter(rs[0], base, last));
      }
    }
  }

  /** Every run over the text in which no call loses data yields the first bytes of the records at their addresses. */
  ghost predicate ReadsBack(text: seq<byte>, rs: seq<Record>) {
    forall es, s :: Reached(text, es, s) && !s.lost ==>
      |s.out| <= |Meaning(rs, 0)| && s.out == Meaning(rs, 0)[..|s.out|]
  }

  /** However the records are printed, with capital or small letters, and whatever comes before the first colon: every
      run without loss yields their bytes at their addresses exactly when the records are continuous. */
  lemma RoundTripExactly(lead: seq<byte>, ls: seq<HexLine>, rs: seq<Record>)
    requires 58 !in lead && PrintsAll(ls, rs)
    ensures ReadsBack(lead + FileText(ls), rs) <==> Continuous(rs, 0, None)
  {
    SameText(ls);
    SameMeaning(ls, rs, 0);
    SameSteady(ls, rs, 0, None);
    SteadyExactly(lead, ls);
  }

  /** With the end-of-file record read, it is all of them. */
  lemma RoundTrip(lead: seq<byte>, ls: seq<HexLine>, rs: seq<Record>, es: seq<Event>, s: Hex)
    requires 58 !in lead && PrintsAll(ls, rs) && Continuous(rs, 0, None)
    requires Reached(lead + FileText(ls), es, s) && s.eof
    ensures s.out == Meaning(rs, 0) <==> !s.lost
  {
    SameText(ls);
    SameMeaning(ls, rs, 0);
    SameSteady(ls, rs, 0, None);
    RightExactly(lead, ls, es, s);
  }

  // ---------- a run that reads it all ----------

  /** A call on the end-of-file record. */
  lemma EofEnds(c: Chunk, space: nat, lead: seq<byte>, l: HexLine) returns (r: Chunk)
    requires NoColon(lead) && DecodableLine(l) && KindOf(l) == EOF && c.live == lead + LineText(l, []) && !c.started
    ensures Decode(c, space) == Stop(r, true) && r.out == c.out
  {
    PeekWhole(lead, l, []);
    PeekFits(c.live);
    DecodeGoesOn(c, space, PeekHeader(c.live));
    r := LineStep(c, PeekHeader(c.live), space).c;
  }

  lemma EofCalled(text: seq<byte>, es: seq<Event>, s: Hex, lead: seq<byte>, l: HexLine, rest: seq<byte>)
    returns (es': seq<Event>, s': Hex)
    requires Runs(text, es, s) && !s.eof && s.rest == lead + Text([l]) + rest && s.arrived == |lead|
    requires NoColon(lead) && DecodableLine(l) && KindOf(l) == EOF
    ensures Runs(text, es', s') && s'.eof && s'.lost == s.lost && s'.out == s.out
  {
    var live := lead + Text([l]);
    var s1 := s.(arrived := |live|);
    assert Follows(s, Arrive(|Text([l])|), s1);
    RunsMore(text, es, s, Arrive(|Text([l])|), s1);
    assert s1.rest[..s1.arrived] == live;
    OneText(l);
    var r := EofEnds(Chunk(live, s.base, false, [], 0, 0), 0, lead, l);
    s' := Returned(s1, r, true);
    assert s'.out == s.out;
    RunsMore(text, es + [Arrive(|Text([l])|)], s1, Call(0), s');
    es' := es + [Arrive(|Text([l])|)] + [Call(0)];
  }

  predicate HasEof(ls: seq<HexLine>)
    requires ValidLines(ls)
  {
    ls != [] && (KindOf(ls[0]) == EOF || HasEof(ls[1..]))
  }

  /** Line by line, up to the end-of-file record. */
  lemma {:induction false} LineByLine(text: seq<byte>, es: seq<Event>, s: Hex, lead: seq<byte>, ls: seq<HexLine>,
                                      pairs: seq<(nat, byte)>)
    returns (es': seq<Event>, s': Hex)
    requires GotTo(text, es, s, lead, ls, pairs) && HasEof(ls)
    ensures Runs(text, es', s') && s'.eof && !s'.lost && s'.out == pairs
    decreases |ls|
  {
    RestDecodable(ls);
    if KindOf(ls[0]) == EOF {
      FirstLineText(lead, ls);
      assert s.out == pairs;
      es', s' := EofCalled(text, es, s, lead, ls[0], Text(ls[1..]));
    } else {
      var lead';
      es', s', lead' := OneLine(text, es, s, lead, ls, pairs);
      es', s' := LineByLine(text, es', s', lead', ls[1..], pairs);
    }
  }

  lemma {:induction false} EndIsEof(ls: seq<HexLine>, rs: seq<Record>)
    requires PrintsAll(ls, rs) && End in rs
    ensures Decodable(ls) && HasEof(ls)
    decreases |rs|
  {
    AllDecodable(ls, rs);
    RestPrints(ls, rs);
    RecordFields(ls[0], rs[0]);
    if !rs[0].End? {
      EndIsEof(ls[1..], rs[1..]);
    }
  }

  /** Records that have an end can always be read back as a whole, continuous or not. */
  lemma CanBeRead(lead: seq<byte>, ls: seq<HexLine>, rs: seq<Record>) returns (es: seq<Event>, s: Hex)
    requires 58 !in lead && PrintsAll(ls, rs) && End in rs
    ensures Reached(lead + FileText(ls), es, s) && s.eof && !s.lost && s.out == Meaning(rs, 0)
  {
    SameText(ls);
    SameMeaning(ls, rs, 0);
    EndIsEof(ls, rs);
    var text, pairs := lead + Text(ls), Pairs(ls, 0);
    var s0 := Hex(text, 0, 0, [], false, false);
    var s1 := s0.(arrived := |lead|);
    assert Trace(text, [], [s0]);
    assert Follows(s0, Arrive(|lead|), s1);
    RunsMore(text, [], s0, Arrive(|lead|), s1);
    assert [] + pairs == pairs;
    es, s := LineByLine(text, [] + [Arrive(|lead|)], s1, lead, ls, pairs);
    RunsReached(text, es, s);
  }
}
