/** The resumable in-place decoder of chunked transfer coding in src/picohttpparser.c
    (RFC 7230, section 4.1). */
module ChunkedDecoder {
  import opened Basics
  import opened Bytes

  const LF: byte := 10
  const CR: byte := 13

  function DecodeHex(ch: byte): (v: int)
    ensures -1 <= v < 16
  {
    if '0' as int <= ch <= '9' as int then ch - '0' as int
    else if 'A' as int <= ch <= 'F' as int then ch - 'A' as int + 10
    else if 'a' as int <= ch <= 'f' as int then ch - 'a' as int + 10
    else -1
  }

  lemma {:induction false} Pow16Monotonic(m: nat, n: nat)
    requires m <= n
    ensures Pow16(m) <= Pow16(n)
    decreases n
  {
    if m < n {
      Pow16Monotonic(m, n - 1);
    }
  }

  // ---------- the specification: a machine that reads one byte at a time ----------

  datatype State = InChunkSize | InChunkExt | InChunkData | InChunkCrlf | InLineHead | InLineMiddle

  /** maxHex is twice the number of bytes of a size_t. */
  datatype Decoder = Decoder(state: State, left: nat, hexCount: nat, consumeTrailer: bool, maxHex: nat) {

    ghost predicate Valid() {
      && hexCount <= maxHex
      && (state == InChunkSize ==> left < Pow16(hexCount))
      && (state != InChunkSize ==> hexCount == 0 && left < Pow16(maxHex))
      && (state == InChunkData ==> left > 0)
      && (state == InChunkCrlf || state == InLineHead || state == InLineMiddle ==> left == 0)
    }
  }

  datatype StepResult = Next(d: Decoder, out: seq<byte>) | Reject(d: Decoder) | Finish(d: Decoder)

  function ExtStep(d: Decoder, b: byte): StepResult {
    if b != LF then Next(d, [])
    else if d.left > 0 then Next(d.(state := InChunkData), [])
    else if d.consumeTrailer then Next(d.(state := InLineHead), [])
    else Finish(d)
  }

  function Step(d: Decoder, b: byte): StepResult {
    match d.state
    case InChunkSize =>
      var v := DecodeHex(b);
      if v == -1 then
        if d.hexCount == 0 then Reject(d) else ExtStep(d.(hexCount := 0, state := InChunkExt), b)
      else if d.hexCount == d.maxHex then Reject(d)
      else Next(d.(left := d.left * 16 + v, hexCount := d.hexCount + 1), [])
    case InChunkExt => ExtStep(d, b)
    case InChunkData =>
      if d.left <= 1 then Next(d.(left := 0, state := InChunkCrlf), [b]) else Next(d.(left := d.left - 1), [b])
    case InChunkCrlf =>
      if b == CR then Next(d, []) else if b == LF then Next(d.(state := InChunkSize), []) else Reject(d)
    case InLineHead =>
      if b == CR then Next(d, []) else if b == LF then Finish(d) else Next(d.(state := InLineMiddle), [])
    case InLineMiddle =>
      if b == LF then Next(d.(state := InLineHead), []) else Next(d, [])
  }

  datatype Status = Incomplete | Failed | Complete

  /** consumed counts the bytes of the stream that were read; a rejected byte is not. */
  datatype Outcome = Outcome(d: Decoder, output: seq<byte>, consumed: nat, status: Status)

  function After(out: seq<byte>, n: nat, r: Outcome): Outcome {
    Outcome(r.d, out + r.output, n + r.consumed, r.status)
  }

  function Run(d: Decoder, s: seq<byte>): (r: Outcome)
    ensures r.consumed <= |s|
    ensures |r.output| <= r.consumed
    ensures r.status == Incomplete ==> r.consumed == |s|
    decreases |s|
  {
    if s == [] then Outcome(d, [], 0, Incomplete)
    else match Step(d, s[0])
      case Next(d', out) => After(out, 1, Run(d', s[1..]))
      case Reject(d') => Outcome(d', [], 0, Failed)
      case Finish(d') => Outcome(d', [], 1, Complete)
  }

  lemma StepKeepsValid(d: Decoder, b: byte)
    requires d.Valid()
    ensures Step(d, b).d.Valid()
    ensures Step(d, b).d.consumeTrailer == d.consumeTrailer && Step(d, b).d.maxHex == d.maxHex
  {
    Pow16Monotonic(d.hexCount, d.maxHex);
  }

  /** The count of bytes left never exceeds what the digits read so far can express. */
  lemma {:induction false} RunKeepsValid(d: Decoder, s: seq<byte>)
    requires d.Valid()
    ensures Run(d, s).d.Valid() && Run(d, s).d.left < Pow16(d.maxHex)
    ensures Run(d, s).d.maxHex == d.maxHex && Run(d, s).d.consumeTrailer == d.consumeTrailer
    decreases |s|
  {
    Pow16Monotonic(d.hexCount, d.maxHex);
    if s != [] {
      StepKeepsValid(d, s[0]);
      if Step(d, s[0]).Next? {
        RunKeepsValid(Step(d, s[0]).d, s[1..]);
      }
    }
  }

  lemma AfterAfter(x: seq<byte>, n: nat, y: seq<byte>, m: nat, r: Outcome)
    ensures After(x, n, After(y, m, r)) == After(x + y, n + m, r)
  {
    assert x + (y + r.output) == (x + y) + r.output;
  }

  lemma RunNext(d: Decoder, b: byte, s: seq<byte>)
    requires Step(d, b).Next?
    ensures Run(d, [b] + s) == After(Step(d, b).out, 1, Run(Step(d, b).d, s))
  {
    assert ([b] + s)[1..] == s;
  }

  lemma RunStop(d: Decoder, b: byte, s: seq<byte>)
    requires !Step(d, b).Next?
    ensures Run(d, [b] + s) == if Step(d, b).Reject?
      then Outcome(Step(d, b).d, [], 0, Failed) else Outcome(Step(d, b).d, [], 1, Complete)
  {
  }

  /** Stopping anywhere and resuming is the same as reading on. */
  lemma {:induction false} RunConcat(d: Decoder, a: seq<byte>, b: seq<byte>)
    ensures var r := Run(d, a);
      Run(d, a + b) == if r.status == Incomplete then After(r.output, |a|, Run(r.d, b)) else r
    decreases |a|
  {
    if a == [] {
      assert a + b == b;
      assert After([], 0, Run(d, b)) == Run(d, b);
    } else {
      var x, tail := a[0], a[1..];
      assert a == [x] + tail && a + b == [x] + (tail + b);
      var step := Step(d, x);
      if step.Next? {
        RunConcat(step.d, tail, b);
        RunNext(d, x, tail);
        RunNext(d, x, tail + b);
        var r := Run(step.d, tail);
        if r.status == Incomplete {
          AfterAfter(step.out, 1, r.output, |tail|, Run(r.d, b));
        }
      } else {
        RunStop(d, x, tail);
        RunStop(d, x, tail + b);
      }
    }
  }

  // ---------- segmentation ----------

  function Flatten(segments: seq<seq<byte>>): seq<byte> {
    if segments == [] then [] else segments[0] + Flatten(segments[1..])
  }

  /** A caller that supplies one segment after another for as long as the answer is "incomplete". */
  function Feed(d: Decoder, segments: seq<seq<byte>>): Outcome
    decreases |segments|
  {
    if segments == [] then Outcome(d, [], 0, Incomplete) else
      var r := Run(d, segments[0]);
      if r.status == Incomplete then After(r.output, |segments[0]|, Feed(r.d, segments[1..])) else r
  }

  /** However a stream is cut, output, final state, result and undecoded rest are the same. */
  lemma {:induction false} FeedIsRun(d: Decoder, segments: seq<seq<byte>>)
    ensures Feed(d, segments) == Run(d, Flatten(segments))
    decreases |segments|
  {
    if segments != [] {
      RunConcat(d, segments[0], Flatten(segments[1..]));
      FeedIsRun(Run(d, segments[0]).d, segments[1..]);
    }
  }

  // ---------- the decoder of the source ----------

  /** A block of chunk data is copied byte by byte. */
  lemma {:induction false} RunData(d: Decoder, data: seq<byte>, rest: seq<byte>)
    requires d.state == InChunkData && 0 < |data| <= d.left
    ensures Run(d, data + rest) == After(data, |data|, Run(AfterData(d, |data|), rest))
    decreases |data|
  {
    var x, tail := data[0], data[1..];
    assert data == [x] + tail && data + rest == [x] + (tail + rest);
    RunNext(d, x, tail + rest);
    if tail != [] {
      RunData(d.(left := d.left - 1), tail, rest);
      AfterAfter([x], 1, tail, |tail|, Run(AfterData(d, |data|), rest));
    } else {
      assert tail + rest == rest;
    }
  }

  function AfterData(d: Decoder, n: nat): Decoder
    requires n <= d.left
  {
    if n == d.left then d.(left := 0, state := InChunkCrlf) else d.(left := d.left - n)
  }

  /** Where the decoder stands after src bytes of the stream s, with out decoded so far. */
  ghost predicate Progress(whole: Outcome, out: seq<byte>, src: nat, d: Decoder, s: seq<byte>) {
    src <= |s| && |out| <= src && d.Valid() && whole == After(out, src, Run(d, s[src..]))
  }

  lemma ProgressStep(whole: Outcome, out: seq<byte>, src: nat, d: Decoder, s: seq<byte>)
    requires Progress(whole, out, src, d, s) && src < |s|
    ensures var step := Step(d, s[src]);
      match step
      case Next(d', o) => (|out| + |o| <= src + 1 ==> Progress(whole, out + o, src + 1, d', s))
      case Reject(d') => whole == Outcome(d', out, src, Failed) && d'.Valid()
      case Finish(d') => whole == Outcome(d', out, src + 1, Complete) && d'.Valid()
  {
    var x, tail := s[src], s[src + 1..];
    assert s[src..] == [x] + tail;
    var step := Step(d, x);
    StepKeepsValid(d, x);
    if step.Next? {
      RunNext(d, x, tail);
      AfterAfter(out, src, step.out, 1, Run(step.d, tail));
    } else {
      RunStop(d, x, tail);
    }
  }

  /** The same state, one byte further on, nothing decoded. */
  lemma ProgressSkip(whole: Outcome, out: seq<byte>, src: nat, d: Decoder, s: seq<byte>, d': Decoder)
    requires Progress(whole, out, src, d, s) && src < |s| && Step(d, s[src]) == Next(d', [])
    ensures Progress(whole, out, src + 1, d', s)
  {
    ProgressStep(whole, out, src, d, s);
    assert out + [] == out;
  }

  lemma ProgressEnd(whole: Outcome, out: seq<byte>, d: Decoder, s: seq<byte>)
    requires Progress(whole, out, |s|, d, s)
    ensures whole == Outcome(d, out, |s|, Incomplete)
  {
    assert out + [] == out;
  }

  /** A digit of the chunk size is read. */
  lemma ProgressDigit(whole: Outcome, out: seq<byte>, src: nat, d: Decoder, s: seq<byte>)
    requires Progress(whole, out, src, d, s) && src < |s|
    requires d.state == InChunkSize && DecodeHex(s[src]) >= 0 && d.hexCount < d.maxHex
    ensures Progress(whole, out, src + 1, d.(left := d.left * 16 + DecodeHex(s[src]), hexCount := d.hexCount + 1), s)
  {
    ProgressSkip(whole, out, src, d, s, d.(left := d.left * 16 + DecodeHex(s[src]), hexCount := d.hexCount + 1));
  }

  /** The byte after the digits is looked at again in the next state. */
  lemma ProgressExt(whole: Outcome, out: seq<byte>, src: nat, d: Decoder, s: seq<byte>)
    requires Progress(whole, out, src, d, s) && src < |s|
    requires d.state == InChunkSize && d.hexCount > 0 && DecodeHex(s[src]) == -1
    ensures Progress(whole, out, src, d.(hexCount := 0, state := InChunkExt), s)
  {
    Pow16Monotonic(d.hexCount, d.maxHex);
    assert s[src..][0] == s[src];
  }

  lemma ProgressReject(whole: Outcome, out: seq<byte>, src: nat, d: Decoder, s: seq<byte>)
    requires Progress(whole, out, src, d, s) && src < |s| && Step(d, s[src]) == Reject(d)
    ensures whole == Outcome(d, out, src, Failed)
  {
    ProgressStep(whole, out, src, d, s);
  }

  lemma ProgressFinish(whole: Outcome, out: seq<byte>, src: nat, d: Decoder, s: seq<byte>)
    requires Progress(whole, out, src, d, s) && src < |s| && Step(d, s[src]) == Finish(d)
    ensures whole == Outcome(d, out, src + 1, Complete)
  {
    ProgressStep(whole, out, src, d, s);
  }

  lemma ProgressData(whole: Outcome, out: seq<byte>, src: nat, d: Decoder, s: seq<byte>, n: nat)
    requires Progress(whole, out, src, d, s) && src + n <= |s| && d.state == InChunkData && 0 < n <= d.left
    ensures Progress(whole, out + s[src..src + n], src + n, AfterData(d, n), s)
  {
    var data, rest := s[src..src + n], s[src + n..];
    assert s[src..] == data + rest;
    RunData(d, data, rest);
    AfterAfter(out, src, data, n, Run(AfterData(d, n), rest));
  }

  /** The same for no data at all. */
  lemma ProgressCopied(whole: Outcome, out: seq<byte>, out': seq<byte>, src: nat, d: Decoder, s: seq<byte>, n: nat)
    requires Progress(whole, out, src, d, s) && src + n <= |s| && d.state == InChunkData && n <= d.left
    requires out' == out + s[src..src + n]
    ensures Progress(whole, out', src + n, if n == 0 then d else AfterData(d, n), s)
  {
    if n > 0 {
      ProgressData(whole, out, src, d, s, n);
    } else {
      assert out' == out;
    }
  }

  class PhrChunkedDecoder {
    var bytesLeftInChunk: nat
    var consumeTrailer: bool
    var hexCount: nat
    var state: State
    const maxHex: nat

    function Value(): Decoder
      reads this
    {
      Decoder(state, bytesLeftInChunk, hexCount, consumeTrailer, maxHex)
    }

    /** A zero-filled decoder. */
    constructor (consumeTrailer: bool, maxHex: nat)
      ensures Value() == Decoder(InChunkSize, 0, 0, consumeTrailer, maxHex)
    {
      this.bytesLeftInChunk, this.consumeTrailer, this.hexCount, this.state := 0, consumeTrailer, 0, InChunkSize;
      this.maxHex := maxHex;
    }

    static method Memmove(buf: array<byte>, dst: nat, src: nat, n: nat)
      requires dst <= src && src + n <= buf.Length
      modifies buf
      ensures buf[dst..dst + n] == old(buf[src..src + n])
      ensures buf[..dst] == old(buf[..dst])
      ensures buf[dst + n..] == old(buf[dst + n..])
    {
      forall i | 0 <= i < n {
        buf[dst + i] := buf[src + i];
      }
    }

    // The cases of the state switch. Each starts at position src0 and ends at src; stop says that it leaves
    // the loop, with the final value of ret. whole is the outcome to be reached, out the data decoded so
    // far and s the stream, of which buf still holds everything from src0 on.

    static ghost predicate Unread(buf: array<byte>, src: nat, s: seq<byte>)
      reads buf
    {
      |s| <= buf.Length && forall i :: src <= i < |s| ==> buf[i] == s[i]
    }

    ghost predicate Stopped(whole: Outcome, out: seq<byte>, src: nat, ret: int)
      reads this
    {
      && whole == Outcome(Value(), out, src, whole.status)
      && ret == match whole.status case Incomplete => -2 case Failed => -1 case Complete => 0
    }

    method ChunkSize(buf: array<byte>, bufsz: nat, src0: nat, ghost s: seq<byte>, ghost out: seq<byte>,
                     ghost whole: Outcome)
      returns (src: nat, stop: bool, ret: int)
      requires bufsz == |s| && Unread(buf, src0, s)
      requires state == InChunkSize && Progress(whole, out, src0, Value(), s)
      modifies this
      ensures src0 <= src <= |s|
      ensures stop ==> Stopped(whole, out, src, ret)
      ensures !stop ==> state == InChunkExt && Progress(whole, out, src, Value(), s)
    {
      src, stop, ret := src0, true, -2;
      while true
        invariant state == InChunkSize && src0 <= src <= |s| && ret == -2 && stop
        invariant Progress(whole, out, src, Value(), s)
        decreases |s| - src
      {
        if src == bufsz {
          ProgressEnd(whole, out, Value(), s);
          return;
        }
        var v := DecodeHex(buf[src]);
        if v == -1 {
          if hexCount == 0 {
            ProgressReject(whole, out, src, Value(), s);
            ret := -1;
            return;
          }
          break;
        }
        if hexCount == maxHex {
          ProgressReject(whole, out, src, Value(), s);
          ret := -1;
          return;
        }
        TakeDigit(v, src, s, out, whole);
        src := src + 1;
      }
      ProgressExt(whole, out, src, Value(), s);
      hexCount := 0;
      state := InChunkExt;
      stop := false;
    }

    /** One digit of the chunk size. */
    method TakeDigit(v: nat, ghost src: nat, ghost s: seq<byte>, ghost out: seq<byte>, ghost whole: Outcome)
      requires state == InChunkSize && src < |s| && v == DecodeHex(s[src]) && hexCount < maxHex
      requires Progress(whole, out, src, Value(), s)
      modifies this
      ensures state == InChunkSize && Progress(whole, out, src + 1, Value(), s)
    {
      ProgressDigit(whole, out, src, Value(), s);
      bytesLeftInChunk := bytesLeftInChunk * 16 + v;
      hexCount := hexCount + 1;
    }

    method ChunkExt(buf: array<byte>, bufsz: nat, src0: nat, ghost s: seq<byte>, ghost out: seq<byte>,
                    ghost whole: Outcome)
      returns (src: nat, stop: bool, ret: int)
      requires bufsz == |s| && Unread(buf, src0, s)
      requires state == InChunkExt && Progress(whole, out, src0, Value(), s)
      modifies this
      ensures src0 <= src <= |s|
      ensures stop ==> Stopped(whole, out, src, ret)
      ensures !stop ==> src0 < src && Progress(whole, out, src, Value(), s)
    {
      src, stop, ret := src0, true, -2;
      while true
        invariant state == InChunkExt && src0 <= src <= |s|
        invariant Progress(whole, out, src, Value(), s)
        decreases |s| - src
      {
        if src == bufsz {
          ProgressEnd(whole, out, Value(), s);
          return;
        }
        if buf[src] == LF {
          break;
        }
        ProgressSkip(whole, out, src, Value(), s, Value());
        src := src + 1;
      }
      src, stop, ret := LeaveExt(src, s, out, whole);
    }

    /** Behind the size line: chunk data, the trailers, or the end. */
    method LeaveExt(src0: nat, ghost s: seq<byte>, ghost out: seq<byte>, ghost whole: Outcome)
      returns (src: nat, stop: bool, ret: int)
      requires state == InChunkExt && src0 < |s| && s[src0] == LF && Progress(whole, out, src0, Value(), s)
      modifies this
      ensures src == src0 + 1
      ensures stop ==> Stopped(whole, out, src, ret)
      ensures !stop ==> Progress(whole, out, src, Value(), s)
    {
      ghost var d := Value();
      src, stop, ret := src0 + 1, false, -2;
      if bytesLeftInChunk == 0 {
        if consumeTrailer {
          state := InLineHead;
        } else {
          ProgressFinish(whole, out, src0, d, s);
          return src, true, 0;
        }
      } else {
        state := InChunkData;
      }
      ProgressSkip(whole, out, src0, d, s, Value());
    }

    method ChunkData(buf: array<byte>, bufsz: nat, src0: nat, dst0: nat, ghost s: seq<byte>, ghost whole: Outcome)
      returns (src: nat, dst: nat, stop: bool, ret: int)
      requires bufsz == |s| && Unread(buf, src0, s) && dst0 <= src0 <= bufsz
      requires state == InChunkData && Progress(whole, buf[..dst0], src0, Value(), s)
      modifies this, buf
      ensures dst0 <= dst <= src && src0 <= src <= |s| && Unread(buf, src, s)
      ensures buf[bufsz..] == old(buf[bufsz..])
      ensures stop ==> Stopped(whole, buf[..dst], src, ret)
      ensures !stop ==> src0 < src && state == InChunkCrlf && Progress(whole, buf[..dst], src, Value(), s)
    {
      var avail := bufsz - src0;
      stop := avail < bytesLeftInChunk;
      var n := if stop then avail else bytesLeftInChunk;
      ghost var d, out := Value(), buf[..dst0];
      CopyDown(buf, dst0, src0, n, s);
      src, dst, ret := src0 + n, dst0 + n, -2;
      bytesLeftInChunk := bytesLeftInChunk - n;
      ProgressCopied(whole, out, buf[..dst], src0, d, s, n);
      if stop {
        ProgressEnd(whole, buf[..dst], Value(), s);
      } else {
        state := InChunkCrlf;
      }
    }

    static method CopyDown(buf: array<byte>, dst: nat, src: nat, n: nat, ghost s: seq<byte>)
      requires dst <= src && src + n <= |s| && Unread(buf, src, s)
      modifies buf
      ensures buf[..dst + n] == old(buf[..dst]) + s[src..src + n]
      ensures Unread(buf, src + n, s)
      ensures buf[|s|..] == old(buf[|s|..])
    {
      assert buf[src..src + n] == s[src..src + n];
      if dst != src {
        Memmove(buf, dst, src, n);
      }
      assert buf[..dst + n] == buf[..dst] + buf[dst..dst + n];
      assert buf[|s|..] == buf[dst + n..][|s| - (dst + n)..];
    }

    method ChunkCrlf(buf: array<byte>, bufsz: nat, src0: nat, ghost s: seq<byte>, ghost out: seq<byte>,
                     ghost whole: Outcome)
      returns (src: nat, stop: bool, ret: int)
      requires bufsz == |s| && Unread(buf, src0, s)
      requires state == InChunkCrlf && Progress(whole, out, src0, Value(), s)
      modifies this
      ensures src0 <= src <= |s|
      ensures stop ==> Stopped(whole, out, src, ret)
      ensures !stop ==> src0 < src && Progress(whole, out, src, Value(), s)
    {
      src, stop, ret := src0, true, -2;
      while true
        invariant state == InChunkCrlf && src0 <= src <= |s|
        invariant Progress(whole, out, src, Value(), s)
        decreases |s| - src
      {
        if src == bufsz {
          ProgressEnd(whole, out, Value(), s);
          return;
        }
        if buf[src] != CR {
          break;
        }
        ProgressSkip(whole, out, src, Value(), s, Value());
        src := src + 1;
      }
      ghost var d := Value();
      if buf[src] != LF {
        ProgressReject(whole, out, src, d, s);
        ret := -1;
        return;
      }
      src := src + 1;
      state := InChunkSize;
      ProgressSkip(whole, out, src - 1, d, s, Value());
      stop := false;
    }

    method TrailersLineHead(buf: array<byte>, bufsz: nat, src0: nat, ghost s: seq<byte>, ghost out: seq<byte>,
                            ghost whole: Outcome)
      returns (src: nat, stop: bool, ret: int)
      requires bufsz == |s| && Unread(buf, src0, s)
      requires state == InLineHead && Progress(whole, out, src0, Value(), s)
      modifies this
      ensures src0 <= src <= |s|
      ensures stop ==> Stopped(whole, out, src, ret)
      ensures !stop ==> src0 < src && state == InLineMiddle && Progress(whole, out, src, Value(), s)
    {
      src, stop, ret := src0, true, -2;
      while true
        invariant state == InLineHead && src0 <= src <= |s|
        invariant Progress(whole, out, src, Value(), s)
        decreases |s| - src
      {
        if src == bufsz {
          ProgressEnd(whole, out, Value(), s);
          return;
        }
        if buf[src] != CR {
          break;
        }
        ProgressSkip(whole, out, src, Value(), s, Value());
        src := src + 1;
      }
      ghost var d := Value();
      src := src + 1;
      if buf[src - 1] == LF {
        ProgressFinish(whole, out, src - 1, d, s);
        ret := 0;
        return;
      }
      state := InLineMiddle;
      ProgressSkip(whole, out, src - 1, d, s, Value());
      stop := false;
    }

    method TrailersLineMiddle(buf: array<byte>, bufsz: nat, src0: nat, ghost s: seq<byte>, ghost out: seq<byte>,
                              ghost whole: Outcome)
      returns (src: nat, stop: bool, ret: int)
      requires bufsz == |s| && Unread(buf, src0, s)
      requires state == InLineMiddle && Progress(whole, out, src0, Value(), s)
      modifies this
      ensures src0 <= src <= |s|
      ensures stop ==> Stopped(whole, out, src, ret)
      ensures !stop ==> src0 < src && Progress(whole, out, src, Value(), s)
    {
      src, stop, ret := src0, true, -2;
      while true
        invariant state == InLineMiddle && src0 <= src <= |s|
        invariant Progress(whole, out, src, Value(), s)
        decreases |s| - src
      {
        if src == bufsz {
          ProgressEnd(whole, out, Value(), s);
          return;
        }
        if buf[src] == LF {
          break;
        }
        ProgressSkip(whole, out, src, Value(), s, Value());
        src := src + 1;
      }
      ghost var d := Value();
      src := src + 1;
      state := InLineHead;
      ProgressSkip(whole, out, src - 1, d, s, Value());
      stop := false;
    }

    /** One pass through the switch, with its fall-throughs. */
    method Pass(buf: array<byte>, bufsz: nat, src0: nat, dst0: nat, ghost s: seq<byte>, ghost whole: Outcome)
      returns (src: nat, dst: nat, stop: bool, ret: int)
      requires bufsz == |s| && Unread(buf, src0, s) && dst0 <= src0 <= bufsz
      requires Progress(whole, buf[..dst0], src0, Value(), s)
      modifies this, buf
      ensures dst <= src <= |s| && Unread(buf, src, s)
      ensures buf[bufsz..] == old(buf[bufsz..])
      ensures stop ==> Stopped(whole, buf[..dst], src, ret)
      ensures !stop ==> src0 < src && Progress(whole, buf[..dst], src, Value(), s)
    {
      src, dst, stop, ret := src0, dst0, false, -2;
      if state == InChunkSize {
        src, stop, ret := ChunkSize(buf, bufsz, src, s, buf[..dst], whole);
        if stop { return; }
      }
      if state == InChunkExt {
        src, stop, ret := ChunkExt(buf, bufsz, src, s, buf[..dst], whole);
        if stop || state != InChunkData { return; }
      }
      if state == InChunkData {
        src, dst, stop, ret := ChunkData(buf, bufsz, src, dst, s, whole);
        if stop { return; }
      }
      if state == InChunkCrlf {
        src, stop, ret := ChunkCrlf(buf, bufsz, src, s, buf[..dst], whole);
        return;
      }
      if state == InLineHead {
        src, stop, ret := TrailersLineHead(buf, bufsz, src, s, buf[..dst], whole);
        if stop { return; }
      }
      src, stop, ret := TrailersLineMiddle(buf, bufsz, src, s, buf[..dst], whole);
    }

    /** phr_decode_chunked: ret is -2 for incomplete, -1 for an error, otherwise the number of
        undecoded bytes; size is the length of the decoded data. */
    method Decode(buf: array<byte>, bufsz: nat) returns (ret: int, size: nat)
      requires Value().Valid() && bufsz <= buf.Length
      modifies this, buf
      ensures Value().Valid()
      ensures var r := old(Run(Value(), buf[..bufsz]));
        && Value() == r.d
        && size == |r.output| <= r.consumed <= bufsz
        && buf[..size] == r.output
        && buf[size..size + (bufsz - r.consumed)] == old(buf[..bufsz])[r.consumed..]
        && ret == match r.status case Incomplete => -2 case Failed => -1 case Complete => bufsz - r.consumed
      ensures buf[bufsz..] == old(buf[bufsz..])
    {
      ghost var s := buf[..bufsz];
      ghost var whole := Run(Value(), s);
      RunKeepsValid(Value(), s);
      assert s[0..] == s && buf[..0] == [];
      var dst: nat, src: nat, stop := 0, 0, false;
      ret := -2;
      while !stop
        invariant dst <= src <= bufsz && Unread(buf, src, s)
        invariant buf[bufsz..] == old(buf[bufsz..])
        invariant stop ==> Stopped(whole, buf[..dst], src, ret)
        invariant !stop ==> Progress(whole, buf[..dst], src, Value(), s)
        decreases !stop, bufsz - src
      {
        src, dst, stop, ret := Pass(buf, bufsz, src, dst, s, whole);
      }
      if ret == 0 {
        ret := bufsz - src;
      }
      assert buf[src..bufsz] == s[src..];
      if dst != src {
        Memmove(buf, dst, src, bufsz - src);
      }
      size := dst;
    }
  }
}
