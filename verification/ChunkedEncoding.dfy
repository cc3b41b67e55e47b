/** Every chunked message of RFC 7230, section 4.1, is decoded to its data, however it arrives. Lines may end with
    any number of CR, also none, before their LF. */
module ChunkedEncoding {
  import opened Basics
  import opened Bytes
  import opened ChunkedDecoder
  import opened Numerals

  // ---------- the grammar, as a printer ----------

  /** A chunk: its size as the sender wrote it, what stands behind it in its line before the LF, its data, and the CRs
      before the LF behind them. */
  datatype Chunk = Chunk(digits: seq<byte>, ext: seq<byte>, data: seq<byte>, crs: seq<byte>)

  predicate AllCr(s: seq<byte>) {
    forall i :: 0 <= i < |s| ==> s[i] == 13
  }

  /** A size line: 1 to maxHex digits of the given number, then anything but a digit up to the end of line. */
  predicate ValidSizeLine(digits: seq<byte>, ext: seq<byte>, size: nat, maxHex: nat) {
    && 1 <= |digits| <= maxHex && IsNumber(digits, size, |digits|)
    && 10 !in ext && (ext != [] ==> ext[0] !in UPPER && ext[0] !in LOWER)
  }

  predicate ValidChunk(c: Chunk, maxHex: nat) {
    c.data != [] && AllCr(c.crs) && ValidSizeLine(c.digits, c.ext, |c.data|, maxHex)
  }

  /** A line that is not empty, but for CRs. */
  predicate ValidTrailer(line: seq<byte>) {
    !AllCr(line) && 10 !in line
  }

  function SizeLine(digits: seq<byte>, ext: seq<byte>): seq<byte> {
    digits + (ext + [10])
  }

  function Chunks(cs: seq<Chunk>): seq<byte> {
    if cs == [] then [] else SizeLine(cs[0].digits, cs[0].ext) + (cs[0].data + (cs[0].crs + ([10] + Chunks(cs[1..]))))
  }

  /** The trailer lines, and the empty line. */
  function Trailers(lines: seq<seq<byte>>, crs: seq<byte>): seq<byte> {
    if lines == [] then crs + [10] else lines[0] + ([10] + Trailers(lines[1..], crs))
  }

  function Data(cs: seq<Chunk>): seq<byte> {
    if cs == [] then [] else cs[0].data + Data(cs[1..])
  }

  // ---------- digits ----------

  predicate IsHex(digits: seq<byte>) {
    forall i :: 0 <= i < |digits| ==> DecodeHex(digits[i]) >= 0
  }

  /** What the decoder makes of these digits behind the number high. */
  function SizeOf(digits: seq<byte>, high: nat): nat
    requires IsHex(digits)
    decreases |digits|
  {
    if digits == [] then high else SizeOf(digits[1..], high * 16 + DecodeHex(digits[0]))
  }

  /** The decoder takes the hexadecimal digits for digits, each with its value, and nothing else. */
  lemma DigitsExactly(b: byte, v: nat)
    requires v < 16
    ensures IsDigit(b, v) <==> DecodeHex(b) == v
    ensures b in UPPER || b in LOWER <==> DecodeHex(b) >= 0
  {
    assert DecodeHex(b) >= 0 ==> UPPER[DecodeHex(b)] == b || LOWER[DecodeHex(b)] == b;
  }

  lemma {:induction false} SizeOfAppend(a: seq<byte>, b: byte, high: nat)
    requires IsHex(a + [b])
    ensures IsHex(a) && SizeOf(a + [b], high) == SizeOf(a, high) * 16 + DecodeHex(b)
    decreases |a|
  {
    assert forall i :: 0 <= i < |a| ==> a[i] == (a + [b])[i];
    if a == [] {
      assert a + [b] == [b] && [b][1..] == [];
    } else {
      assert (a + [b])[1..] == a[1..] + [b];
      SizeOfAppend(a[1..], b, high * 16 + DecodeHex(a[0]));
    }
  }

  /** Digits of any number, in capitals or not, are read as that number. */
  lemma {:induction false} NumberIsRead(digits: seq<byte>, size: nat, n: nat)
    requires IsNumber(digits, size, n)
    ensures |digits| == n && IsHex(digits) && SizeOf(digits, 0) == size
    decreases n
  {
    if n > 0 {
      var x := digits[..n - 1];
      NumberIsRead(x, size / 16, n - 1);
      DigitsExactly(digits[n - 1], size % 16);
      assert digits == x + [digits[n - 1]];
      assert forall i :: 0 <= i < n - 1 ==> digits[i] == x[i];
      SizeOfAppend(x, digits[n - 1], 0);
    }
  }

  // ---------- one element at a time ----------

  function Fresh(consumeTrailer: bool, maxHex: nat): Decoder {
    Decoder(InChunkSize, 0, 0, consumeTrailer, maxHex)
  }

  lemma {:induction false} ReadDigits(d: Decoder, digits: seq<byte>, rest: seq<byte>)
    requires d.state == InChunkSize && IsHex(digits) && d.hexCount + |digits| <= d.maxHex
    ensures Run(d, digits + rest)
         == After([], |digits|, Run(d.(left := SizeOf(digits, d.left), hexCount := d.hexCount + |digits|), rest))
    decreases |digits|
  {
    if digits == [] {
      assert digits + rest == rest;
    } else {
      var x, tail := digits[0], digits[1..];
      assert digits + rest == [x] + (tail + rest);
      var d1 := d.(left := d.left * 16 + DecodeHex(x), hexCount := d.hexCount + 1);
      var d2 := d.(left := SizeOf(digits, d.left), hexCount := d.hexCount + |digits|);
      assert Step(d, x) == Next(d1, []);
      RunNext(d, x, tail + rest);
      ReadDigits(d1, tail, rest);
      assert d1.(left := SizeOf(tail, d1.left), hexCount := d1.hexCount + |tail|) == d2;
      AfterAfter([], 1, [], |tail|, Run(d2, rest));
    }
  }

  lemma LeaveDigits(d: Decoder, s: seq<byte>)
    requires d.state == InChunkSize && d.hexCount > 0 && s != [] && DecodeHex(s[0]) == -1
    ensures Run(d, s) == Run(d.(hexCount := 0, state := InChunkExt), s)
  {
  }

  /** Up to a line feed, nothing happens in these two states. */
  lemma {:induction false} SkipLine(d: Decoder, line: seq<byte>, rest: seq<byte>)
    requires (d.state == InChunkExt || d.state == InLineMiddle) && LF !in line
    ensures Run(d, line + rest) == After([], |line|, Run(d, rest))
    decreases |line|
  {
    if line == [] {
      assert line + rest == rest;
    } else {
      var x, tail := line[0], line[1..];
      assert line + rest == [x] + (tail + rest);
      RunNext(d, x, tail + rest);
      SkipLine(d, tail, rest);
      AfterAfter([], 1, [], |tail|, Run(d, rest));
    }
  }

  /** The state in which the size line of the given size leaves the decoder. */
  function AfterSize(d: Decoder, size: nat): Decoder {
    d.(left := size, hexCount := 0, state := if size > 0 then InChunkData else InLineHead)
  }

  lemma ReadSizeLine(d: Decoder, digits: seq<byte>, ext: seq<byte>, size: nat, rest: seq<byte>)
    requires d == Fresh(d.consumeTrailer, d.maxHex) && ValidSizeLine(digits, ext, size, d.maxHex)
    ensures size > 0 || d.consumeTrailer ==>
      Run(d, SizeLine(digits, ext) + rest) == After([], |SizeLine(digits, ext)|, Run(AfterSize(d, size), rest))
    ensures size == 0 && !d.consumeTrailer ==>
      Run(d, SizeLine(digits, ext) + rest) == Outcome(d.(state := InChunkExt), [], |SizeLine(digits, ext)|, Complete)
  {
    var d1 := d.(left := size, hexCount := |digits|);
    var d2 := d.(left := size, state := InChunkExt);
    var line := [LF] + rest;
    assert SizeLine(digits, ext) + rest == digits + (ext + line);
    NumberIsRead(digits, size, |digits|);
    DigitsExactly((ext + line)[0], 0);
    ReadDigits(d, digits, ext + line);
    LeaveDigits(d1, ext + line);
    SkipLine(d2, ext, line);
    AfterAfter([], |digits|, [], |ext|, Run(d2, line));
    if size > 0 || d.consumeTrailer {
      RunNext(d2, LF, rest);
      AfterAfter([], |digits| + |ext|, [], 1, Run(AfterSize(d, size), rest));
    } else {
      RunStop(d2, LF, rest);
    }
  }

  /** CRs are skipped in these two states. */
  lemma {:induction false} SkipCrs(d: Decoder, crs: seq<byte>, rest: seq<byte>)
    requires (d.state == InChunkCrlf || d.state == InLineHead) && AllCr(crs)
    ensures Run(d, crs + rest) == After([], |crs|, Run(d, rest))
    decreases |crs|
  {
    if crs == [] {
      assert crs + rest == rest;
    } else {
      var tail := crs[1..];
      assert crs + rest == [CR] + (tail + rest);
      RunNext(d, CR, tail + rest);
      SkipCrs(d, tail, rest);
      AfterAfter([], 1, [], |tail|, Run(d, rest));
    }
  }

  lemma ReadEnd(d: Decoder, crs: seq<byte>, rest: seq<byte>)
    requires d == Fresh(d.consumeTrailer, d.maxHex) && AllCr(crs)
    ensures Run(d.(state := InChunkCrlf), crs + ([10] + rest)) == After([], |crs| + 1, Run(d, rest))
  {
    var d1 := d.(state := InChunkCrlf);
    SkipCrs(d1, crs, [10] + rest);
    RunNext(d1, LF, rest);
    AfterAfter([], |crs|, [], 1, Run(d, rest));
  }

  lemma ReadDataThen(d: Decoder, data: seq<byte>, more: seq<byte>, n: nat, r: Outcome)
    requires data != [] && d == Fresh(d.consumeTrailer, d.maxHex)
    requires Run(d.(state := InChunkCrlf), more) == After([], n, r)
    ensures Run(AfterSize(d, |data|), data + more) == After(data, |data| + n, r)
  {
    RunData(AfterSize(d, |data|), data, more);
    assert AfterData(AfterSize(d, |data|), |data|) == d.(state := InChunkCrlf);
    AfterAfter(data, |data|, [], n, r);
    assert data + [] == data;
  }

  lemma ReadChunkData(d: Decoder, data: seq<byte>, crs: seq<byte>, rest: seq<byte>)
    requires data != [] && d == Fresh(d.consumeTrailer, d.maxHex) && AllCr(crs)
    ensures Run(AfterSize(d, |data|), data + (crs + ([10] + rest))) == After(data, |data| + (|crs| + 1), Run(d, rest))
  {
    ReadEnd(d, crs, rest);
    ReadDataThen(d, data, crs + ([10] + rest), |crs| + 1, Run(d, rest));
  }

  lemma ChunkInFront(c: Chunk, more: seq<byte>, rest: seq<byte>)
    ensures SizeLine(c.digits, c.ext) + (c.data + (c.crs + ([10] + more))) + rest
         == SizeLine(c.digits, c.ext) + (c.data + (c.crs + ([10] + (more + rest))))
  {
  }

  lemma {:induction false} ReadChunks(d: Decoder, cs: seq<Chunk>, rest: seq<byte>)
    requires d == Fresh(d.consumeTrailer, d.maxHex)
    requires forall i :: 0 <= i < |cs| ==> ValidChunk(cs[i], d.maxHex)
    ensures Run(d, Chunks(cs) + rest) == After(Data(cs), |Chunks(cs)|, Run(d, rest))
    decreases |cs|
  {
    if cs == [] {
      assert Chunks(cs) + rest == rest;
    } else {
      var c, more := cs[0], Chunks(cs[1..]) + rest;
      var line := SizeLine(c.digits, c.ext);
      ChunkInFront(c, Chunks(cs[1..]), rest);
      ReadSizeLine(d, c.digits, c.ext, |c.data|, c.data + (c.crs + ([10] + more)));
      ReadChunkData(d, c.data, c.crs, more);
      AfterAfter([], |line|, c.data, |c.data| + (|c.crs| + 1), Run(d, more));
      assert [] + c.data == c.data;
      ReadChunks(d, cs[1..], rest);
      AfterAfter(c.data, |line| + (|c.data| + (|c.crs| + 1)), Data(cs[1..]), |Chunks(cs[1..])|, Run(d, rest));
    }
  }

  /** The CRs at the start of a line. */
  function LeadingCrs(line: seq<byte>): (n: nat)
    ensures n <= |line| && AllCr(line[..n]) && (n < |line| ==> line[n] != 13)
    ensures n == |line| ==> AllCr(line)
  {
    if line == [] || line[0] != 13 then 0 else
      var n := LeadingCrs(line[1..]);
      assert forall i :: 1 <= i < n + 1 ==> line[i] == line[1..][i - 1];
      n + 1
  }

  /** The part of a trailer line from its first character that is no CR. */
  lemma ReadLineFrom(d: Decoder, x: byte, tail: seq<byte>, rest: seq<byte>)
    requires d.state == InLineHead && x != 13 && x != 10 && 10 !in tail
    ensures Run(d, [x] + (tail + ([10] + rest))) == After([], |tail| + 2, Run(d, rest))
  {
    var more, d1 := [10] + rest, d.(state := InLineMiddle);
    RunNext(d, x, tail + more);
    SkipLine(d1, tail, more);
    RunNext(d1, LF, rest);
    AfterAfter([], |tail|, [], 1, Run(d, rest));
    AfterAfter([], 1, [], |tail| + 1, Run(d, rest));
  }

  lemma ReadTrailer(d: Decoder, line: seq<byte>, rest: seq<byte>)
    requires d.state == InLineHead && ValidTrailer(line)
    ensures Run(d, line + ([10] + rest)) == After([], |line| + 1, Run(d, rest))
  {
    var n := LeadingCrs(line);
    var x, tail := line[n], line[n + 1..];
    var more := [x] + (tail + ([10] + rest));
    TrailerParts(line, n, rest);
    ReadLineFrom(d, x, tail, rest);
    SkipCrs(d, line[..n], more);
    AfterAfter([], n, [], |tail| + 2, Run(d, rest));
  }

  lemma TrailerParts(line: seq<byte>, n: nat, rest: seq<byte>)
    requires n < |line| && 10 !in line
    ensures line + ([10] + rest) == line[..n] + ([line[n]] + (line[n + 1..] + ([10] + rest)))
    ensures line[n] != 10 && 10 !in line[n + 1..]
  {
  }

  lemma {:induction false} ReadTrailers(d: Decoder, lines: seq<seq<byte>>, crs: seq<byte>, rest: seq<byte>)
    requires d.state == InLineHead && AllCr(crs)
    requires forall i :: 0 <= i < |lines| ==> ValidTrailer(lines[i])
    ensures Run(d, Trailers(lines, crs) + rest) == Outcome(d, [], |Trailers(lines, crs)|, Complete)
    decreases |lines|
  {
    if lines == [] {
      assert crs + [10] + rest == crs + ([10] + rest);
      SkipCrs(d, crs, [10] + rest);
      RunStop(d, LF, rest);
    } else {
      var line, more := lines[0], Trailers(lines[1..], crs) + rest;
      assert Trailers(lines, crs) + rest == line + ([10] + more);
      ReadTrailer(d, line, more);
      ReadTrailers(d, lines[1..], crs, rest);
    }
  }

  // ---------- whole messages ----------

  /** A message: its chunks, the last chunk of size 0, the trailer section, and the CRs of its empty line. */
  datatype Message = Message(chunks: seq<Chunk>, lastDigits: seq<byte>, lastExt: seq<byte>, trailers: seq<seq<byte>>,
                             crs: seq<byte>)

  predicate ValidMessage(m: Message, maxHex: nat) {
    && (forall i :: 0 <= i < |m.chunks| ==> ValidChunk(m.chunks[i], maxHex))
    && ValidSizeLine(m.lastDigits, m.lastExt, 0, maxHex)
    && (forall i :: 0 <= i < |m.trailers| ==> ValidTrailer(m.trailers[i])) && AllCr(m.crs)
  }

  function Body(m: Message): seq<byte> {
    Chunks(m.chunks) + SizeLine(m.lastDigits, m.lastExt)
  }

  lemma ReadBody(m: Message, consumeTrailer: bool, maxHex: nat, rest: seq<byte>)
    requires ValidMessage(m, maxHex)
    ensures var d := Fresh(consumeTrailer, maxHex);
      Run(d, Body(m) + rest) == if consumeTrailer
        then After(Data(m.chunks), |Body(m)|, Run(d.(state := InLineHead), rest))
        else Outcome(d.(state := InChunkExt), Data(m.chunks), |Body(m)|, Complete)
  {
    var d := Fresh(consumeTrailer, maxHex);
    var line := SizeLine(m.lastDigits, m.lastExt);
    assert Body(m) + rest == Chunks(m.chunks) + (line + rest);
    ReadChunks(d, m.chunks, line + rest);
    ReadSizeLine(d, m.lastDigits, m.lastExt, 0, rest);
    assert Data(m.chunks) + [] == Data(m.chunks);
    if consumeTrailer {
      AfterAfter(Data(m.chunks), |Chunks(m.chunks)|, [], |line|, Run(d.(state := InLineHead), rest));
    }
  }

  /** Round trip, with the trailer section consumed: in any segmentation the decoder returns the data
      and stops exactly at the end of the message. */
  lemma RoundTripWithTrailers(m: Message, maxHex: nat, tail: seq<byte>, segments: seq<seq<byte>>)
    requires ValidMessage(m, maxHex)
    requires Flatten(segments) == Body(m) + (Trailers(m.trailers, m.crs) + tail)
    ensures var r := Feed(Fresh(true, maxHex), segments);
      && r.status == Complete && r.output == Data(m.chunks)
      && r.consumed <= |Flatten(segments)| && Flatten(segments)[r.consumed..] == tail
  {
    FeedIsRun(Fresh(true, maxHex), segments);
    ReadBody(m, true, maxHex, Trailers(m.trailers, m.crs) + tail);
    ReadTrailers(Fresh(true, maxHex).(state := InLineHead), m.trailers, m.crs, tail);
  }

  /** Round trip, with the trailer section left to the caller. */
  lemma RoundTrip(m: Message, maxHex: nat, tail: seq<byte>, segments: seq<seq<byte>>)
    requires ValidMessage(m, maxHex)
    requires Flatten(segments) == Body(m) + tail
    ensures var r := Feed(Fresh(false, maxHex), segments);
      && r.status == Complete && r.output == Data(m.chunks)
      && r.consumed <= |Flatten(segments)| && Flatten(segments)[r.consumed..] == tail
  {
    FeedIsRun(Fresh(false, maxHex), segments);
    ReadBody(m, false, maxHex, tail);
  }

  // ---------- every data block has an encoding ----------

  function HexDigits(n: nat): (digits: seq<byte>)
    ensures |digits| >= 1
  {
    if n < 16 then [LOWER[n]] else HexDigits(n / 16) + [LOWER[n % 16]]
  }

  lemma {:induction false} HexDigitsValue(n: nat)
    ensures IsNumber(HexDigits(n), n, |HexDigits(n)|)
    ensures forall k: nat :: n < Pow16(k) && k > 0 ==> |HexDigits(n)| <= k
  {
    var digits := HexDigits(n);
    if n < 16 {
      assert digits[..0] == [];
    } else {
      HexDigitsValue(n / 16);
      assert digits[..|digits| - 1] == HexDigits(n / 16);
    }
    forall k: nat | n < Pow16(k) && k > 0
      ensures |HexDigits(n)| <= k
    {
      if n >= 16 {
        assert n / 16 < Pow16(k - 1);
        assert k - 1 > 0;
      }
    }
  }

  /** The canonical chunk of a data block is valid: its size fits a size_t. */
  lemma CanonicalChunk(data: seq<byte>, maxHex: nat)
    requires data != [] && |data| < Pow16(maxHex)
    ensures ValidChunk(Chunk(HexDigits(|data|), [13], data, [13]), maxHex)
  {
    HexDigitsValue(|data|);
    assert maxHex > 0;
  }
}
