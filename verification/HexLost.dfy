/** An Intel HEX upload that goes wrong for lack of room in the decoded ring, though every single step of it is
    ordinary: the gate of _bf_do_flush is open, and two records that arrive together do not fit. */
module HexLost {
  import opened Basics
  import opened Bytes
  import opened IhexRuns
  import opened IhexRoom
  import opened IhexSchedules
  import opened WriteChunks
  import opened HexPipe
  import H = IntelHex
  import F = FirmwarePipe
  import Ring

  // ---------- the file ----------

  /** One byte at address 0. */
  function X(): HexLine { HexLine([48, 49, 48, 48, 48, 48, 48, 48], [65, 65], [48, 48]) }

  /** Two bytes at address 1. */
  function Y(): HexLine { HexLine([48, 50, 48, 48, 48, 49, 48, 48], [66, 66, 66, 66], [48, 48]) }

  /** Five bytes at address 3. */
  function Z(): HexLine {
    HexLine([48, 53, 48, 48, 48, 51, 48, 48], [67, 67, 67, 67, 67, 67, 67, 67, 67, 67], [48, 48])
  }

  /** The end-of-file record. */
  function E(): HexLine { HexLine([48, 48, 48, 48, 48, 48, 48, 49], [], [48, 48]) }

  function File(): seq<HexLine> { [X(), Y(), Z(), E()] }

  lemma XValid()
    ensures DecodableLine(X()) && KindOf(X()) == H.DATA && Count(X()) == 1 && Addr(X()) == 0
  {
    HeadValues(X());
  }

  lemma YValid()
    ensures DecodableLine(Y()) && KindOf(Y()) == H.DATA && Count(Y()) == 2 && Addr(Y()) == 1
  {
    HeadValues(Y());
  }

  lemma ZValid()
    ensures DecodableLine(Z()) && KindOf(Z()) == H.DATA && Count(Z()) == 5 && Addr(Z()) == 3
  {
    HeadValues(Z());
  }

  lemma EValid()
    ensures DecodableLine(E()) && KindOf(E()) == H.EOF && Count(E()) == 0
  {
    HeadValues(E());
  }

  lemma FileValid()
    ensures Decodable(File()) && Steady(File(), 0, Nowhere) && DataSize(File()) == 8
  {
    XValid();
    YValid();
    ZValid();
    EValid();
    assert File()[1..] == [Y(), Z(), E()] && [Y(), Z(), E()][1..] == [Z(), E()] && [Z(), E()][1..] == [E()];
    assert Steady([E()], 0, Behind(8, false)) && DataSize([E()]) == 0;
    assert Steady([Z(), E()], 0, Behind(3, false)) && DataSize([Z(), E()]) == 5;
    assert Steady([Y(), Z(), E()], 0, Behind(1, false)) && DataSize([Y(), Z(), E()]) == 7;
  }

  lemma FileText()
    ensures Text(File()) == Text([X()]) + Text([Y(), Z(), E()])
    ensures Text([Y(), Z(), E()]) == LineText(Y(), LineText(Z(), [])) + Text([E()])
    ensures |Text([X()])| == 13 && |LineText(Y(), LineText(Z(), []))| == 36 && |Text([E()])| == 11
  {
    FirstLineText([], File());
    assert File()[1..] == [Y(), Z(), E()];
    TextSplit([Y(), Z()], [E()]);
    assert [Y(), Z()] + [E()] == [Y(), Z(), E()] && [Y(), Z()][1..] == [Z()];
    OneText(X());
    OneText(Z());
    OneText(E());
    assert [] + Text(File()) == Text(File());
    assert [] + Text([X()]) == Text([X()]);
  }

  // ---------- the decoder's calls ----------

  function Start(live: seq<byte>): H.Chunk { H.Chunk(live, 0, false, [], 0, 0) }

  /** A single record. */
  lemma OneRecord(l: HexLine) returns (r: H.Chunk)
    requires DecodableLine(l) && KindOf(l) == H.DATA && Count(l) == 1 && Addr(l) == 0 && |l.tail| == 2
    ensures H.Decode(Start(Text([l])), 7) == H.Stop(r, false)
    ensures r.live == [] && r.base == 0 && r.out == DataBytes(l) && r.addr == 0
  {
    assert [] + Text([l]) == Text([l]);
    var c := Start(Text([l]));
    r := LineEnds(c, [], l);
    assert H.Decode(c, 7) == H.Stop(r, false);
  }

  lemma FirstByte()
    ensures DataBytes(X()) == [170]
  {
    assert H.HexBytes([65, 65]) == [170];
  }

  /** The first record alone. */
  lemma FirstCall() returns (r: H.Chunk)
    ensures H.Decode(Start(Text([X()])), 7) == H.Stop(r, false)
    ensures r.live == [] && r.base == 0 && r.out == [170] && r.addr == 0
  {
    XValid();
    r := OneRecord(X());
    FirstByte();
  }

  lemma OneSeen(live: seq<byte>, l: HexLine)
    requires DecodableLine(l) && live == LineText(l, [])
    ensures H.PeekHeader(live) == H.Line(9, Count(l), Addr(l), KindOf(l))
  {
    assert [] + LineText(l, []) == live;
    PeekWhole([], l, []);
  }

  lemma BehindHeader(live: seq<byte>, l: HexLine)
    requires ValidLine(l) && live == LineText(l, [])
    ensures |live| >= 11 + 2 * Count(l) && live[9..] == l.data + l.tail
  {
    assert l.tail + [] == l.tail;
  }

  /** A record without room. */
  lemma RecordLost(c: H.Chunk, l: HexLine)
    requires DecodableLine(l) && KindOf(l) == H.DATA && Count(l) == 5 && Addr(l) == 3
    requires c.live == LineText(l, []) && c.base == 0 && c.started && c.next == 3 && |c.out| == 2
    ensures H.Decode(c, 6) == H.Lost(c.(live := l.data + l.tail))
  {
    OneSeen(c.live, l);
    BehindHeader(c.live, l);
    LostAtOnce(c, H.Line(9, 5, 3, H.DATA), l.data + l.tail);
  }

  lemma LostAtOnce(c: H.Chunk, h: H.Peek, left: seq<byte>)
    requires h == H.Line(9, 5, 3, H.DATA) && h == H.PeekHeader(c.live) && |c.live| >= 21 && c.live[9..] == left
    requires c.base == 0 && c.started && c.next == 3 && |c.out| == 2
    ensures H.Decode(c, 6) == H.Lost(c.(live := left))
  {
    H.DecodeGoesOn(c, 6, h);
  }

  /** Two records, with room for the first. */
  lemma TwoRecords(k: HexLine, l: HexLine) returns (r: H.Chunk)
    requires DecodableLine(k) && KindOf(k) == H.DATA && Count(k) == 2 && Addr(k) == 1 && |k.tail| == 2
    requires DecodableLine(l) && KindOf(l) == H.DATA && Count(l) == 5 && Addr(l) == 3
    ensures H.Decode(Start(LineText(k, LineText(l, []))), 6) == H.Lost(r)
    ensures r.live == l.data + l.tail && r.base == 0 && |r.out| == 2
  {
    var rest := LineText(l, []);
    var c := Start(LineText(k, rest));
    assert [] + LineText(k, rest) == LineText(k, rest);
    var c1 := LineOnward(c, [], k, rest);
    BehindTwo(c, k, rest, c1);
    RecordLost(c1, l);
    assert H.Decode(c, 6) == H.Decode(c1, 6);
    r := c1.(live := l.data + l.tail);
  }

  lemma BehindTwo(c: H.Chunk, k: HexLine, rest: seq<byte>, c1: H.Chunk)
    requires DecodableLine(k) && KindOf(k) == H.DATA && Count(k) == 2 && Addr(k) == 1 && |k.tail| == 2
    requires c.base == 0 && c.out == [] && c1 == AfterLine(c, k, rest)
    ensures c1.live == rest && c1.base == 0 && c1.started && c1.next == 3 && |c1.out| == 2
  {
    DataBytesCount(k);
    assert k.tail[2..] + rest == rest;
  }

  lemma SecondCall() returns (r: H.Chunk)
    ensures H.Decode(Start(LineText(Y(), LineText(Z(), []))), 6) == H.Lost(r)
    ensures r.live == Z().data + Z().tail && r.base == 0 && |r.out| == 2
  {
    YValid();
    ZValid();
    r := TwoRecords(Y(), Z());
  }

  lemma EofSeen(lead: seq<byte>, e: HexLine)
    requires NoColon(lead) && DecodableLine(e) && KindOf(e) == H.EOF && Count(e) == 0
    ensures H.PeekHeader(lead + Text([e])) == H.Line(|lead| + 9, 0, Addr(e), H.EOF)
    ensures |lead + Text([e])| >= |lead| + 11
  {
    OneText(e);
    PeekWhole(lead, e, []);
    LineSlices(lead, e, []);
  }

  lemma EofAtOnce(c: H.Chunk, h: H.Peek)
    requires h == H.PeekHeader(c.live) && h.Line? && h.kind == H.EOF && h.count == 0 && h.length + 2 <= |c.live|
    ensures H.Decode(c, 4) == H.Stop(c.(live := c.live[h.length..]), true)
  {
    H.DecodeGoesOn(c, 4, h);
  }

  /** The digits of the lost record are skipped, and the end of the file is met. */
  lemma LastCall() returns (r: H.Chunk)
    ensures H.Decode(Start(Z().data + Z().tail + Text([E()])), 4) == H.Stop(r, true) && r.base == 0 && r.out == []
  {
    EValid();
    var lead := Z().data + Z().tail;
    var c := Start(lead + Text([E()]));
    EofSeen(lead, E());
    EofAtOnce(c, H.PeekHeader(c.live));
    r := c.(live := c.live[|lead| + 9..]);
  }

  // ---------- the run ----------

  /** A decoded ring of eight bytes, and a target that ignores alignment. */
  function Small(): Config { Config(64, 8, 8, 4, true) }

  lemma SmallFits()
    ensures Small().Valid() && Ring.Index(0, 8) == 0
  {
    assert Ring.PowerOfTwo(2);
    assert Ring.PowerOfTwo(4);
    assert Ring.PowerOfTwo(8);
    assert Ring.PowerOfTwo(16);
    assert Ring.PowerOfTwo(32);
    Ring.SmallMod(0, 8);
  }

  function Only(mark: bool): Chunk { Chunk(0, 0, 1, false, mark) }

  lemma OnlyMade()
    ensures LoopValid(Small(), Loop([], 0, 1, 0))
    ensures Enqueue(Small(), Loop([], 0, 1, 0)) == Some(Loop([Only(false)], 1, 0, 1))
  {
    SmallFits();
    var p := Loop([], 0, 1, 0);
    Ring.MaskIsMod(1, 8);
    Ring.SmallMod(1, 8);
    EnqueueRound(Small(), p);
    assert [] + [Only(false)] == [Only(false)];
    assert Round(Small(), p) == Some(Loop([Only(false)], 1, 0, 1));
  }

  lemma RunsMore(c: Config, text: seq<byte>, es: seq<Step>, u: Upload, e: Step, u': Upload)
    requires UploadRuns(c, text, es, u) && Goes(c, u, e, u')
    ensures UploadRuns(c, text, es + [e], u')
  {
    assert (es + [e])[..|es|] == es;
  }

  /** An idle call while the target is busy. */
  lemma BusyIdle(c: Config, u: Upload, u': Upload)
    requires u.flushing && Flushes(c, u, u')
    ensures Goes(c, u, Idle(true, false), u')
  {
    assert Offers(c, u, true, false, u);
  }

  /** The first byte is decoded and queued. */
  function OneQueued(hex: Hex): Upload {
    Upload(hex, [170], [0], [Only(false)], 0, None, [], true, false, 1)
  }

  lemma FirstFlush(u: Upload, rest: seq<byte>)
    requires u == Fresh(Text([X()]) + rest, 0).(hex := Hex(Text([X()]) + rest, 13, 0, [], false, false),
                                                flushing := true)
    ensures Flushes(Small(), u, OneQueued(Hex(rest, 0, 0, [(0, 170)], false, false)))
  {
    FileText();
    var r := FirstCall();
    assert u.hex.rest[..13] == Text([X()]) && u.hex.rest[13..] == rest;
    assert CallOn(u.hex, 7) == H.Stop(r, false);
    OnlyMade();
    SmallFits();
    assert Run(0, 1) == [0] && Place(0, [170]) == [(0, 170)];
    assert [] + rest == rest && [] + [170] == [170] && [] + [0] == [0] && [] + [(0, 170)] == [(0, 170)];
    assert H.U32(0) == 0;
  }

  /** The next two records do not fit: the second is left in the decoded ring, the third is skipped. */
  lemma SecondFlush(u: Upload, rest: seq<byte>) returns (x: seq<byte>)
    requires u == OneQueued(Hex(LineText(Y(), LineText(Z(), [])) + rest, 36, 0, [(0, 170)], false, false))
    ensures |x| == 2
    ensures Flushes(Small(), u,
                    OneQueued(Hex(Z().data + Z().tail + rest, 12, 0, [(0, 170)], false, true)).(ring := [170] + x))
  {
    FileText();
    var r := SecondCall();
    x := r.out;
    var live := LineText(Y(), LineText(Z(), []));
    assert u.hex.rest[..36] == live && u.hex.rest[36..] == rest;
    assert CallOn(u.hex, 6) == H.Lost(r);
  }

  lemma LastFlush(u: Upload, x: seq<byte>) returns (hex: Hex)
    requires |x| == 2
    requires u == OneQueued(Hex(Z().data + Z().tail + Text([E()]), 23, 0, [(0, 170)], false, true)).(ring := [170] + x)
    ensures hex.eof && hex.lost && hex.out == [(0, 170)] && Flushes(Small(), u, u.(hex := hex))
  {
    FileText();
    var r := LastCall();
    assert u.hex.rest[..23] == u.hex.rest;
    assert CallOn(u.hex, 4) == H.Stop(r, true);
    hex := Returned(u.hex, r, true);
    assert [(0, 170)] + Place(r.addr, []) == [(0, 170)];
  }

  /** The only chunk is offered and acknowledged. */
  lemma ChunkWritten(u: Upload, hex: Hex, x: seq<byte>, text: seq<byte>, es: seq<Step>) returns (u': Upload)
    requires u == OneQueued(hex).(ring := [170] + x) && hex.eof && UploadRuns(Small(), text, es, u)
    ensures UploadRuns(Small(), text, es + [Idle(false, false)] + [ChunkDone(true)], u')
    ensures u'.hex == hex && u'.reallyWritten && u'.flash == [F.Write(0, [170])]
  {
    var u1 := u.(q := [Only(true)], offer := Some(F.Write(0, [170])));
    assert [Only(false)][0 := Only(true)] == [Only(true)];
    assert u.ring[0..1] == [170];
    assert Offers(Small(), u, false, false, u1) && Flushes(Small(), u1, u1);
    assert Goes(Small(), u, Idle(false, false), u1);
    RunsMore(Small(), text, es, u, Idle(false, false), u1);
    u' := Done(u1, true);
    assert [] + [F.Write(0, [170])] == [F.Write(0, [170])];
    RunsMore(Small(), text, es + [Idle(false, false)], u1, ChunkDone(true), u');
  }

  lemma FirstSteps() returns (es: seq<Step>, u: Upload)
    ensures es == [] + [TextComes(13)] + [StartFlush] + [Idle(true, false)]
    ensures u == OneQueued(Hex(Text([Y(), Z(), E()]), 0, 0, [(0, 170)], false, false))
    ensures UploadRuns(Small(), Text(File()), es, u)
  {
    FileText();
    var text, u0 := Text(File()), Fresh(Text(File()), 0);
    var u1 := u0.(hex := u0.hex.(arrived := 13));
    var u2 := u1.(flushing := true);
    u := OneQueued(Hex(Text([Y(), Z(), E()]), 0, 0, [(0, 170)], false, false));
    assert UploadRuns(Small(), text, [], u0);
    RunsMore(Small(), text, [], u0, TextComes(13), u1);
    RunsMore(Small(), text, [] + [TextComes(13)], u1, StartFlush, u2);
    FirstFlush(u2, Text([Y(), Z(), E()]));
    BusyIdle(Small(), u2, u);
    RunsMore(Small(), text, [] + [TextComes(13)] + [StartFlush], u2, Idle(true, false), u);
    es := [] + [TextComes(13)] + [StartFlush] + [Idle(true, false)];
  }

  lemma NextSteps(es: seq<Step>, u: Upload) returns (u': Upload, hex: Hex, x: seq<byte>)
    requires UploadRuns(Small(), Text(File()), es, u)
    requires u == OneQueued(Hex(Text([Y(), Z(), E()]), 0, 0, [(0, 170)], false, false))
    ensures u' == OneQueued(hex).(ring := [170] + x) && hex.eof && hex.lost
    ensures UploadRuns(Small(), Text(File()),
                       es + [TextComes(36)] + [Idle(true, false)] + [TextComes(11)] + [Idle(true, false)], u')
  {
    FileText();
    var text := Text(File());
    var u1 := u.(hex := u.hex.(arrived := 36));
    RunsMore(Small(), text, es, u, TextComes(36), u1);
    x := SecondFlush(u1, Text([E()]));
    var u2 := OneQueued(Hex(Z().data + Z().tail + Text([E()]), 12, 0, [(0, 170)], false, true)).(ring := [170] + x);
    BusyIdle(Small(), u1, u2);
    RunsMore(Small(), text, es + [TextComes(36)], u1, Idle(true, false), u2);
    var u3 := u2.(hex := u2.hex.(arrived := 23));
    RunsMore(Small(), text, es + [TextComes(36)] + [Idle(true, false)], u2, TextComes(11), u3);
    hex := LastFlush(u3, x);
    u' := u3.(hex := hex);
    BusyIdle(Small(), u3, u');
    RunsMore(Small(), text, es + [TextComes(36)] + [Idle(true, false)] + [TextComes(11)], u3, Idle(true, false), u');
  }

  lemma InOrder(es1: seq<Step>, es2: seq<Step>)
    requires es1 == [] + [TextComes(13)] + [StartFlush] + [Idle(true, false)]
    requires es2 == es1 + [TextComes(36)] + [Idle(true, false)] + [TextComes(11)] + [Idle(true, false)]
    ensures es2 + [Idle(false, false)] + [ChunkDone(true)] ==
            [TextComes(13), StartFlush, Idle(true, false), TextComes(36), Idle(true, false), TextComes(11),
             Idle(true, false), Idle(false, false), ChunkDone(true)]
  {
  }

  /** A steady file of eight bytes is reported as really written, of which the target has got one. Its decoder calls all
      pass the gate; at the second there is room for six bytes, and seven have arrived. */
  lemma LostForLackOfRoom() returns (es: seq<Step>, u: Upload)
    ensures Small().Valid() && Decodable(File()) && Steady(File(), 0, Nowhere) && |Pairs(File(), 0)| == 8
    ensures es == [TextComes(13), StartFlush, Idle(true, false), TextComes(36), Idle(true, false), TextComes(11),
                   Idle(true, false), Idle(false, false), ChunkDone(true)]
    ensures UploadRuns(Small(), Text(File()), es, u) && u.hex.lost && u.reallyWritten && u.flash == [F.Write(0, [170])]
  {
    SmallFits();
    FileValid();
    PairsSize(File(), 0);
    var es1, u1 := FirstSteps();
    var u2, hex, x := NextSteps(es1, u1);
    var es2 := es1 + [TextComes(36)] + [Idle(true, false)] + [TextComes(11)] + [Idle(true, false)];
    u := ChunkWritten(u2, hex, x, Text(File()), es2);
    es := es2 + [Idle(false, false)] + [ChunkDone(true)];
    InOrder(es1, es2);
  }
}
