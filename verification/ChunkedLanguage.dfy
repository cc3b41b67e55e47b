/** What the chunked decoder accepts is exactly the grammar of ChunkedEncoding, and it gives up on a stream exactly
    when nothing that can follow would make it a message. */
module ChunkedLanguage {
  import opened Basics
  import opened Bytes
  import opened Numerals
  import opened ChunkedDecoder
  import opened ChunkedEncoding

  // ---------- the parts of a stream ----------

  /** How many of the first characters are hexadecimal digits. */
  function LeadingDigits(s: seq<byte>): (n: nat)
    ensures n <= |s| && IsHex(s[..n]) && (n < |s| ==> DecodeHex(s[n]) == -1)
  {
    if s == [] || DecodeHex(s[0]) == -1 then 0 else
      var n := LeadingDigits(s[1..]);
      assert forall i :: 1 <= i < n + 1 ==> s[i] == s[1..][i - 1];
      n + 1
  }

  /** The place of the first LF, or the end. */
  function LineLength(s: seq<byte>): (n: nat)
    ensures n <= |s| && 10 !in s[..n] && (n < |s| ==> s[n] == 10)
  {
    if s == [] || s[0] == 10 then 0 else
      var n := LineLength(s[1..]);
      assert s[..n + 1] == [s[0]] + s[1..][..n];
      n + 1
  }

  lemma Parts(s: seq<byte>, n: nat)
    requires n <= |s|
    ensures s == s[..n] + s[n..] && (n < |s| ==> s[n..] == [s[n]] + s[n + 1..])
  {
  }

  lemma LastDigit(a: nat, v: nat)
    requires v < 16
    ensures (a * 16 + v) % 16 == v && (a * 16 + v) / 16 == a
  {
  }

  lemma {:induction false} HexIsNumber(digits: seq<byte>)
    requires IsHex(digits)
    ensures IsNumber(digits, SizeOf(digits, 0), |digits|)
    decreases |digits|
  {
    if digits != [] {
      var n := |digits| - 1;
      var x, b := digits[..n], digits[n];
      assert digits == x + [b];
      SizeOfAppend(x, b, 0);
      HexIsNumber(x);
      NumberAppend(x, b, SizeOf(x, 0));
    }
  }

  lemma NumberAppend(x: seq<byte>, b: byte, v: nat)
    requires IsNumber(x, v, |x|) && DecodeHex(b) >= 0
    ensures IsNumber(x + [b], v * 16 + DecodeHex(b), |x| + 1)
  {
    DigitIs(b);
    DigitBehind(x, b, v, DecodeHex(b));
  }

  lemma DigitIs(b: byte)
    requires DecodeHex(b) >= 0
    ensures IsDigit(b, DecodeHex(b))
  {
    DigitsExactly(b, DecodeHex(b));
  }

  lemma DigitBehind(x: seq<byte>, b: byte, v: nat, last: nat)
    requires IsNumber(x, v, |x|) && last < 16 && IsDigit(b, last)
    ensures IsNumber(x + [b], v * 16 + last, |x| + 1)
  {
    LastDigit(v, last);
    assert (x + [b])[..|x|] == x;
  }

  // ---------- the size line ----------

  /** Without a digit, or with too many, the decoder gives up; with the digits alone, it waits. */
  lemma DigitsOrNot(d: Decoder, s: seq<byte>)
    requires d == Fresh(d.consumeTrailer, d.maxHex)
    ensures var n := LeadingDigits(s);
      && (s == [] ==> Run(d, s).status == Incomplete)
      && (s != [] && n == 0 ==> Run(d, s).status == Failed)
      && (n > d.maxHex ==> Run(d, s).status == Failed)
      && (0 < n == |s| <= d.maxHex ==> Run(d, s).status == Incomplete)
  {
    var n := LeadingDigits(s);
    if n > d.maxHex {
      TooManyDigits(d, s, n);
    } else if 0 < n == |s| {
      Parts(s, n);
      assert s[..n] == s && s[n..] == [];
      ReadDigits(d, s, []);
      assert s + [] == s;
    }
  }

  lemma TooManyDigits(d: Decoder, s: seq<byte>, n: nat)
    requires d == Fresh(d.consumeTrailer, d.maxHex) && d.maxHex < n <= |s| && IsHex(s[..n])
    ensures Run(d, s).status == Failed
  {
    var m := d.maxHex;
    Parts(s, m);
    assert forall i :: 0 <= i < n ==> s[i] == s[..n][i];
    var digits, rest := s[..m], s[m..];
    assert DecodeHex(rest[0]) >= 0;
    ReadDigits(d, digits, rest);
    RunStop(d.(left := SizeOf(digits, 0), hexCount := m), rest[0], rest[1..]);
    assert [rest[0]] + rest[1..] == rest;
  }

  /** A size line that goes on to the end of the stream. */
  lemma SizeLineGoesOn(d: Decoder, digits: seq<byte>, ext: seq<byte>)
    requires d == Fresh(d.consumeTrailer, d.maxHex) && 1 <= |digits| <= d.maxHex && IsHex(digits)
    requires ext != [] && DecodeHex(ext[0]) == -1 && 10 !in ext
    ensures Run(d, digits + ext).status == Incomplete
  {
    ReadDigits(d, digits, ext);
    ExtGoesOn(d.(left := SizeOf(digits, 0), hexCount := |digits|), ext);
  }

  lemma ExtGoesOn(d: Decoder, ext: seq<byte>)
    requires d.state == InChunkSize && d.hexCount > 0 && ext != [] && DecodeHex(ext[0]) == -1 && 10 !in ext
    ensures Run(d, ext).status == Incomplete
  {
    LeaveDigits(d, ext);
    SkipLine(d.(hexCount := 0, state := InChunkExt), ext, []);
    assert ext + [] == ext;
  }

  lemma LineIs(s: seq<byte>, n: nat, j: nat)
    requires n <= |s| && j < |s| - n && s[n..][j] == 10
    ensures s == SizeLine(s[..n], s[n..][..j]) + s[n..][j + 1..]
  {
  }

  /** The stream starts with a size line, or is not accepted. */
  lemma SizeLineOf(d: Decoder, s: seq<byte>) returns (found: bool, digits: seq<byte>, ext: seq<byte>, rest: seq<byte>)
    requires d == Fresh(d.consumeTrailer, d.maxHex)
    ensures found ==> IsHex(digits) && ValidSizeLine(digits, ext, SizeOf(digits, 0), d.maxHex)
    ensures found ==> s == SizeLine(digits, ext) + rest
    ensures !found ==> Run(d, s).status != Complete
  {
    var n := LeadingDigits(s);
    found, digits, ext, rest := false, s[..n], [], [];
    DigitsOrNot(d, s);
    if 0 < n <= d.maxHex && n < |s| {
      var s1 := s[n..];
      var j := LineLength(s1);
      Parts(s, n);
      if j == |s1| {
        assert s1[..j] == s1;
        SizeLineGoesOn(d, digits, s1);
      } else {
        found, ext, rest := true, s1[..j], s1[j + 1..];
        LineIs(s, n, j);
        HexIsNumber(digits);
        DigitsExactly(s1[0], 0);
      }
    }
  }

  // ---------- the data of a chunk ----------

  /** The stream starts with that many bytes of data and the end of their line, or is not accepted. */
  lemma DataOf(d: Decoder, size: nat, s: seq<byte>)
    returns (found: bool, data: seq<byte>, crs: seq<byte>, rest: seq<byte>)
    requires d == Fresh(d.consumeTrailer, d.maxHex) && size > 0
    ensures found ==> |data| == size && AllCr(crs) && s == data + (crs + ([10] + rest))
    ensures !found ==> Run(AfterSize(d, size), s).status != Complete
  {
    found, data, crs, rest := false, s, [], [];
    if |s| < size {
      DataGoesOn(d, size, s);
    } else {
      Parts(s, size);
      RunData(AfterSize(d, size), s[..size], s[size..]);
      found, crs, rest := EndOfData(d, s[size..]);
      data := s[..size];
    }
  }

  lemma DataGoesOn(d: Decoder, size: nat, s: seq<byte>)
    requires d == Fresh(d.consumeTrailer, d.maxHex) && |s| < size
    ensures Run(AfterSize(d, size), s).status == Incomplete
  {
    if s != [] {
      RunData(AfterSize(d, size), s, []);
      assert s + [] == s;
    }
  }

  lemma EndOfData(d: Decoder, s: seq<byte>) returns (found: bool, crs: seq<byte>, rest: seq<byte>)
    requires d == Fresh(d.consumeTrailer, d.maxHex)
    ensures found ==> AllCr(crs) && s == crs + ([10] + rest)
    ensures !found ==> Run(d.(state := InChunkCrlf), s).status != Complete
  {
    var k, d1 := LeadingCrs(s), d.(state := InChunkCrlf);
    found, crs, rest := false, s[..k], [];
    Parts(s, k);
    SkipCrs(d1, crs, s[k..]);
    if k < |s| {
      rest := s[k + 1..];
      if s[k] == 10 {
        found := true;
      } else {
        RunStop(d1, s[k], rest);
      }
    }
  }

  // ---------- the trailer section ----------

  /** A trailer line that goes on to the end of the stream. */
  lemma TrailerGoesOn(d: Decoder, s: seq<byte>)
    requires d.state == InLineHead && 10 !in s
    ensures Run(d, s).status == Incomplete
  {
    var k := LeadingCrs(s);
    Parts(s, k);
    SkipCrs(d, s[..k], s[k..]);
    if k < |s| {
      var tail, d1 := s[k + 1..], d.(state := InLineMiddle);
      RunNext(d, s[k], tail);
      SkipLine(d1, tail, []);
      assert tail + [] == tail;
    }
  }

  lemma CrsBefore(s: seq<byte>, j: nat)
    requires j < |s| && s[j] == 10 && (LeadingCrs(s) == |s| || s[LeadingCrs(s)] != 10)
    ensures !AllCr(s[..j])
  {
    var k := LeadingCrs(s);
    assert s[..j][k] != 13;
  }

  /** s is a trailer section and rest. */
  ghost predicate IsTrailers(s: seq<byte>, lines: seq<seq<byte>>, crs: seq<byte>, rest: seq<byte>) {
    AllCr(crs) && (forall i :: 0 <= i < |lines| ==> ValidTrailer(lines[i])) && s == Trailers(lines, crs) + rest
  }

  lemma TrailerIs(s: seq<byte>, j: nat, lines: seq<seq<byte>>, crs: seq<byte>, rest: seq<byte>)
    requires j < |s| && s[j] == 10 && ValidTrailer(s[..j]) && IsTrailers(s[j + 1..], lines, crs, rest)
    ensures IsTrailers(s, [s[..j]] + lines, crs, rest)
  {
    assert ([s[..j]] + lines)[1..] == lines;
    Parts(s, j);
  }

  lemma NoTrailers(s: seq<byte>, k: nat)
    requires k < |s| && s[k] == 10 && AllCr(s[..k])
    ensures IsTrailers(s, [], s[..k], s[k + 1..])
  {
    Parts(s, k);
  }

  lemma TrailerRead(d: Decoder, s: seq<byte>, j: nat)
    requires d.state == InLineHead && j < |s| && s[j] == 10 && ValidTrailer(s[..j])
    ensures Run(d, s).status == Run(d, s[j + 1..]).status
  {
    Parts(s, j);
    ReadTrailer(d, s[..j], s[j + 1..]);
  }

  /** The stream starts with a trailer section, or is not accepted. */
  lemma {:induction false} TrailersOf(d: Decoder, s: seq<byte>)
    returns (found: bool, lines: seq<seq<byte>>, crs: seq<byte>, rest: seq<byte>)
    requires d.state == InLineHead
    ensures found ==> IsTrailers(s, lines, crs, rest)
    ensures !found ==> Run(d, s).status != Complete
    decreases |s|
  {
    var k, j := LeadingCrs(s), LineLength(s);
    found, lines, crs, rest := false, [], s[..k], [];
    if j == |s| {
      assert s[..j] == s;
      TrailerGoesOn(d, s);
    } else if k < |s| && s[k] == 10 {
      NoTrailers(s, k);
      found, rest := true, s[k + 1..];
    } else {
      CrsBefore(s, j);
      TrailerRead(d, s, j);
      found, lines, crs, rest := TrailersOf(d, s[j + 1..]);
      if found {
        TrailerIs(s, j, lines, crs, rest);
        lines := [s[..j]] + lines;
      }
    }
  }

  // ---------- messages ----------

  /** s is the message m, with its trailer section if that is consumed, and rest. */
  ghost predicate IsMessage(s: seq<byte>, m: Message, d: Decoder, rest: seq<byte>) {
    && ValidMessage(m, d.maxHex)
    && s == Body(m) + if d.consumeTrailer then Trailers(m.trailers, m.crs) + rest else rest
  }

  lemma LastLine(d: Decoder, s: seq<byte>, digits: seq<byte>, ext: seq<byte>, more: seq<byte>)
    returns (m: Message, rest: seq<byte>)
    requires d == Fresh(d.consumeTrailer, d.maxHex) && ValidSizeLine(digits, ext, 0, d.maxHex)
    requires s == SizeLine(digits, ext) + more && Run(d, s).status == Complete
    ensures IsMessage(s, m, d, rest)
  {
    m, rest := Message([], digits, ext, [], []), more;
    assert Body(m) == SizeLine(digits, ext);
    if d.consumeTrailer {
      ReadSizeLine(d, digits, ext, 0, more);
      var found, lines, crs;
      found, lines, crs, rest := TrailersOf(AfterSize(d, 0), more);
      m := m.(trailers := lines, crs := crs);
      assert Body(m) == SizeLine(digits, ext);
    }
  }

  lemma ChunkBefore(d: Decoder, s: seq<byte>, c: Chunk, s': seq<byte>, m: Message, rest: seq<byte>)
    requires ValidChunk(c, d.maxHex) && IsMessage(s', m, d, rest)
    requires s == SizeLine(c.digits, c.ext) + (c.data + (c.crs + ([10] + s')))
    ensures IsMessage(s, m.(chunks := [c] + m.chunks), d, rest)
  {
    var m1 := m.(chunks := [c] + m.chunks);
    assert m1.chunks[1..] == m.chunks;
    BodyInFront(c, m, m1, if d.consumeTrailer then Trailers(m.trailers, m.crs) + rest else rest);
  }

  lemma BodyInFront(c: Chunk, m: Message, m1: Message, tail: seq<byte>)
    requires m1 == m.(chunks := [c] + m.chunks)
    ensures Body(m1) + tail == SizeLine(c.digits, c.ext) + (c.data + (c.crs + ([10] + (Body(m) + tail))))
  {
    var line, x, y := SizeLine(c.digits, c.ext), Chunks(m.chunks), SizeLine(m.lastDigits, m.lastExt);
    assert m1.chunks[1..] == m.chunks;
    assert Chunks(m1.chunks) == line + (c.data + (c.crs + ([10] + x)));
    Together(line, c.data, c.crs, x, y, tail);
  }

  lemma Together(a: seq<byte>, b: seq<byte>, c: seq<byte>, x: seq<byte>, y: seq<byte>, z: seq<byte>)
    ensures a + (b + (c + ([10] + x))) + y + z == a + (b + (c + ([10] + (x + y + z))))
  {
  }

  /** A chunk in front does not change whether the stream is accepted. */
  lemma ChunkRead(d: Decoder, c: Chunk, s: seq<byte>, s': seq<byte>)
    requires d == Fresh(d.consumeTrailer, d.maxHex) && ValidChunk(c, d.maxHex)
    requires s == SizeLine(c.digits, c.ext) + (c.data + (c.crs + ([10] + s')))
    ensures Run(d, s).status == Run(d, s').status
  {
    ReadSizeLine(d, c.digits, c.ext, |c.data|, c.data + (c.crs + ([10] + s')));
    ReadChunkData(d, c.data, c.crs, s');
  }

  /** Whatever is accepted is a message, and what comes behind it. */
  lemma {:induction false} MessageOf(d: Decoder, s: seq<byte>) returns (m: Message, rest: seq<byte>)
    requires d == Fresh(d.consumeTrailer, d.maxHex) && Run(d, s).status == Complete
    ensures IsMessage(s, m, d, rest)
    decreases |s|
  {
    var found, digits, ext, more := SizeLineOf(d, s);
    var size := SizeOf(digits, 0);
    if size == 0 {
      m, rest := LastLine(d, s, digits, ext, more);
    } else {
      ReadSizeLine(d, digits, ext, size, more);
      var found', data, crs, s' := DataOf(d, size, more);
      var c := Chunk(digits, ext, data, crs);
      ChunkRead(d, c, s, s');
      m, rest := MessageOf(d, s');
      ChunkBefore(d, s, c, s', m, rest);
      m := m.(chunks := [c] + m.chunks);
    }
  }

  /** In any segmentation, the decoder accepts a stream if and only if it starts with a message of the grammar, with its
      trailer section if that is consumed. */
  lemma AcceptsExactly(consumeTrailer: bool, maxHex: nat, segments: seq<seq<byte>>)
    ensures var d := Fresh(consumeTrailer, maxHex);
      Feed(d, segments).status == Complete <==> exists m, rest :: IsMessage(Flatten(segments), m, d, rest)
  {
    var d, s := Fresh(consumeTrailer, maxHex), Flatten(segments);
    FeedIsRun(d, segments);
    if Run(d, s).status == Complete {
      var m, rest := MessageOf(d, s);
    }
    if m, rest :| IsMessage(s, m, d, rest) {
      MessageAccepted(d, s, m, rest);
    }
  }

  lemma MessageAccepted(d: Decoder, s: seq<byte>, m: Message, rest: seq<byte>)
    requires d == Fresh(d.consumeTrailer, d.maxHex) && IsMessage(s, m, d, rest)
    ensures Run(d, s).status == Complete && Run(d, s).output == Data(m.chunks)
  {
    var tail := if d.consumeTrailer then Trailers(m.trailers, m.crs) + rest else rest;
    ReadBody(m, d.consumeTrailer, d.maxHex, tail);
    if d.consumeTrailer {
      ReadTrailers(d.(state := InLineHead), m.trailers, m.crs, rest);
      assert Data(m.chunks) + [] == Data(m.chunks);
    }
  }

  // ---------- giving up ----------

  /** The last chunk, and the empty line if it is read. */
  function Closing(d: Decoder): seq<byte> {
    [48, 10] + if d.consumeTrailer then [10] else []
  }

  lemma {:induction false} ClosingCompletes(d: Decoder)
    requires d == Fresh(d.consumeTrailer, d.maxHex) && d.maxHex > 0
    ensures Run(d, Closing(d)).status == Complete
  {
    var rest := if d.consumeTrailer then [10] else [];
    assert Closing(d) == [48] + ([10] + rest);
    var d1 := d.(hexCount := 1);
    assert Step(d, 48) == Next(d1, []);
    RunNext(d, 48, [10] + rest);
    LineCompletes(d1, rest);
  }

  /** The LF behind a size of 0. */
  lemma LineCompletes(d: Decoder, rest: seq<byte>)
    requires d.state == InChunkSize && d.left == 0 && d.hexCount > 0
    requires rest == if d.consumeTrailer then [10] else []
    ensures Run(d, [10] + rest).status == Complete
  {
    var d1 := d.(hexCount := 0, state := InLineHead);
    if d.consumeTrailer {
      assert Step(d, 10) == Next(d1, []);
      RunNext(d, 10, rest);
      assert rest == [10] + [];
      RunStop(d1, 10, []);
    } else {
      RunStop(d, 10, rest);
    }
  }

  /** From any state of the decoder, something completes the message. */
  lemma CanComplete(d: Decoder) returns (more: seq<byte>)
    requires d.Valid() && d.maxHex > 0
    ensures Run(d, more).status == Complete
  {
    match d.state
    case InChunkData => more := DataCompletes(d);
    case InChunkCrlf =>
      more := [10] + Closing(d);
      var d1 := Fresh(d.consumeTrailer, d.maxHex);
      assert Step(d, 10) == Next(d1, []);
      RunNext(d, 10, Closing(d));
      ClosingCompletes(d1);
    case InLineHead =>
      more := [10] + [];
      RunStop(d, 10, []);
    case InLineMiddle =>
      more := [10] + ([10] + []);
      var d1 := d.(state := InLineHead);
      RunNext(d, 10, [10] + []);
      RunStop(d1, 10, []);
    case InChunkExt => more := ExtCompletes(d);
    case InChunkSize =>
      if d.hexCount == 0 {
        more := Closing(d);
        ClosingCompletes(d);
      } else {
        var d1 := d.(hexCount := 0, state := InChunkExt);
        Pow16Monotonic(d.hexCount, d.maxHex);
        more := ExtCompletes(d1);
        assert more[0] == 10;
        LeaveDigits(d, more);
      }
  }

  lemma DataCompletes(d: Decoder) returns (more: seq<byte>)
    requires d.state == InChunkData && d.Valid() && d.maxHex > 0
    ensures Run(d, more).status == Complete
  {
    var data := seq(d.left, _ => 0);
    var d1 := AfterData(d, d.left);
    var d2 := Fresh(d.consumeTrailer, d.maxHex);
    more := data + ([10] + Closing(d));
    RunData(d, data, [10] + Closing(d));
    assert Step(d1, 10) == Next(d2, []);
    RunNext(d1, 10, Closing(d));
    ClosingCompletes(d2);
  }

  lemma ExtCompletes(d: Decoder) returns (more: seq<byte>)
    requires d.state == InChunkExt && d.Valid() && d.maxHex > 0
    ensures Run(d, more).status == Complete && more != [] && more[0] == 10
  {
    if d.left > 0 {
      var d1 := d.(state := InChunkData);
      var rest := DataCompletes(d1);
      RunNext(d, 10, rest);
      more := [10] + rest;
    } else if d.consumeTrailer {
      var d1 := d.(state := InLineHead);
      more := [10] + ([10] + []);
      RunNext(d, 10, [10] + []);
      RunStop(d1, 10, []);
    } else {
      more := [10] + [];
      RunStop(d, 10, []);
    }
  }

  /** The decoder gives up on a stream that is not accepted if and only if nothing that could follow would make it
      accepted; otherwise it asks for more. */
  lemma FailsExactly(consumeTrailer: bool, maxHex: nat, s: seq<byte>)
    requires maxHex > 0
    ensures var d := Fresh(consumeTrailer, maxHex);
      Run(d, s).status == Failed <==> forall more :: Run(d, s + more).status != Complete
  {
    var d := Fresh(consumeTrailer, maxHex);
    var r := Run(d, s);
    forall more
      ensures Run(d, s + more) == if r.status == Incomplete then After(r.output, |s|, Run(r.d, more)) else r
    {
      RunConcat(d, s, more);
    }
    if r.status == Incomplete {
      RunKeepsValid(d, s);
      var more := CanComplete(r.d);
      assert Run(d, s + more).status == Complete;
    } else if r.status == Complete {
      assert Run(d, s + []).status == Complete;
    }
  }
}
