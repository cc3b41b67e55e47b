/** The Intel HEX decoder of src/binary-format-ihex.c on the live text, the bytes from tail to head of the
    input ring. */
module IntelHex {
  import opened Bytes

  const COLON: byte := 58

  const DATA := 0
  const EOF := 1
  const EXT_SEG := 2
  const START_SEG := 3
  const EXT_LINEAR := 4
  const START_LINEAR := 5

  /** _hex_to_int */
  function Nibble(c: byte): (n: int)
    ensures -1 <= n < 16
  {
    if 48 <= c <= 57 then c - 48
    else if 97 <= c <= 102 then c - 97 + 10
    else if 65 <= c <= 70 then c - 65 + 10
    else -1
  }

  // ---------- numbers ----------

  datatype Scan = Value(v: nat) | NotYet | Bad

  /** _decode_hex of n characters at place i: NotYet when the live text ends there or before. */
  function ScanHex(live: seq<byte>, i: nat, n: nat, acc: nat): (r: Scan)
    ensures r.Value? ==> i + n < |live|
    decreases n
  {
    if i >= |live| then NotYet
    else if n == 0 then Value(acc)
    else if Nibble(live[i]) < 0 then Bad
    else ScanHex(live, i + 1, n - 1, 16 * acc + Nibble(live[i]))
  }

  predicate AllHex(t: seq<byte>) {
    forall i :: 0 <= i < |t| ==> Nibble(t[i]) >= 0
  }

  /** The number that hexadecimal digits stand for. */
  function HexValue(t: seq<byte>): nat
    requires AllHex(t)
  {
    Horner(t, 0)
  }

  function Horner(t: seq<byte>, acc: nat): nat
    requires AllHex(t)
  {
    if t == [] then acc else Horner(t[1..], 16 * acc + Nibble(t[0]))
  }

  lemma {:induction false} ScanIsValue(live: seq<byte>, i: nat, n: nat, acc: nat)
    requires ScanHex(live, i, n, acc).Value?
    ensures AllHex(live[i..i + n]) && ScanHex(live, i, n, acc).v == Horner(live[i..i + n], acc)
    decreases n
  {
    if n > 0 {
      ScanIsValue(live, i + 1, n - 1, 16 * acc + Nibble(live[i]));
      assert live[i..i + n] == [live[i]] + live[i + 1..i + n];
    }
  }

  /** The bytes that pairs of hexadecimal digits stand for. */
  function HexBytes(t: seq<byte>): (b: seq<byte>)
    requires AllHex(t) && |t| % 2 == 0
    ensures |b| == |t| / 2
  {
    if t == [] then [] else [(16 * Nibble(t[0]) + Nibble(t[1])) as byte] + HexBytes(t[2..])
  }

  // ---------- headers ----------

  datatype Peek = Line(length: nat, count: nat, addr: nat, kind: nat) | Wait | Error

  /** The place of the first colon, or the end. */
  function FindColon(live: seq<byte>, i: nat): (c: nat)
    requires i <= |live|
    ensures i <= c <= |live| && (c < |live| ==> live[c] == COLON)
    decreases |live| - i
  {
    if i == |live| || live[i] == COLON then i else FindColon(live, i + 1)
  }

  lemma {:induction false} FindColonFirst(live: seq<byte>, i: nat, k: nat)
    requires i <= |live| && i <= k < FindColon(live, i)
    ensures live[k] != COLON
    decreases |live| - i
  {
    if i < k {
      FindColonFirst(live, i + 1, k);
    }
  }

  /** The header that starts at place i, behind its colon. */
  function PeekAt(live: seq<byte>, i: nat): Peek {
    match ScanHex(live, i, 2, 0)
    case Bad => Error
    case NotYet => Wait
    case Value(count) =>
      match ScanHex(live, i + 2, 4, 0)
      case Bad => Error
      case NotYet => Wait
      case Value(addr) =>
        match ScanHex(live, i + 6, 2, 0)
        case Bad => Error
        case NotYet => Wait
        case Value(kind) =>
          if kind > START_LINEAR then Error
          else if |live| < 2 * count + (i + 8) + 2 then Wait
          else Line(i + 8, count, addr, kind)
  }

  /** _peek_line_header: the next header, once the whole line is there. length counts the characters up to
      the end of the header. */
  function PeekHeader(live: seq<byte>): Peek {
    var c := FindColon(live, 0);
    if c == |live| then Wait else PeekAt(live, c + 1)
  }

  // ---------- one call of the decoder ----------

  function Hi(a: nat): nat {
    a - a % 0x1_0000
  }

  function U32(a: nat): nat {
    a % 0x1_0000_0000
  }

  /** The loop of ihex_decode_chunk: text left, base address, and what was decoded: whether there was a data
      line, the bytes, their address and the address behind them. */
  datatype Chunk = Chunk(live: seq<byte>, base: nat, started: bool, out: seq<byte>, addr: nat, next: nat)

  /** How a call ends. Lost is a return of 0 in the middle of the loop: the text left is that of c, and its bytes
      stay in the decoded ring though they are not reported. */
  datatype Ending = Stop(c: Chunk, eof: bool) | Fail | Lost(c: Chunk)

  function DataLine(c: Chunk, h: Peek, space: nat): Ending
    requires h.Line? && h.length + 2 * h.count + 2 <= |c.live|
  {
    var cur := Hi(c.base) + h.addr;
    var digits := c.live[h.length..h.length + 2 * h.count];
    if space < |c.out| + h.count then Lost(c.(live := c.live[h.length..]))
    else if !AllHex(digits) then Fail
    else if h.count == 0 then Lost(c.(live := c.live[h.length..]))
    else Stop(Chunk(c.live[h.length + 2 * h.count + 2..], c.base, true, c.out + HexBytes(digits),
                    if c.started then c.addr else cur, U32(cur + h.count)), false)
  }

  /** A record with a number of n digits; only the extended linear address changes anything. */
  function NumberLine(c: Chunk, h: Peek, n: nat): Ending
    requires h.Line? && h.length <= |c.live|
  {
    match ScanHex(c.live, h.length, n, 0)
    case Bad => Fail
    case NotYet => Lost(c)
    case Value(v) =>
      if h.kind == EXT_LINEAR
        then Stop(c.(live := c.live[h.length + n..], base := U32(v * 0x1_0000), next := U32(v * 0x1_0000)), false)
      else Stop(c.(live := c.live[h.length + n..]), false)
  }

  /** One line, whose header h is; a Stop without end of file goes on. */
  function LineStep(c: Chunk, h: Peek, space: nat): Ending
    requires h.Line? && h.length + 2 * h.count + 2 <= |c.live|
  {
    if h.kind == DATA then DataLine(c, h, space)
    else if h.kind == EOF then Stop(c.(live := c.live[h.length..]), true)
    else if h.kind == EXT_SEG then Fail
    else NumberLine(c, h, if h.kind == EXT_LINEAR then 4 else 8)
  }

  /** An address jump: the line is left for the next call. */
  predicate Jumps(c: Chunk, h: Peek)
    requires h.Line?
  {
    h.kind == DATA && c.started && Hi(c.base) + h.addr != c.next
  }

  lemma PeekFits(live: seq<byte>)
    ensures var h := PeekHeader(live);
      h.Line? ==> 9 <= h.length && h.length + 2 * h.count + 2 <= |live|
  {
  }

  lemma LineShortens(c: Chunk, h: Peek, space: nat)
    requires h == PeekHeader(c.live) && h.Line? && h.length + 2 * h.count + 2 <= |c.live| && LineStep(c, h, space).Stop?
    ensures |LineStep(c, h, space).c.live| < |c.live|
  {
    PeekFits(c.live);
  }

  /** ihex_decode_chunk */
  function Decode(c: Chunk, space: nat): Ending
    decreases |c.live|
  {
    PeekFits(c.live);
    match PeekHeader(c.live)
    case Error => Fail
    case Wait => Stop(c, false)
    case Line(length, count, addr, kind) =>
      var h := Line(length, count, addr, kind);
      if Jumps(c, h) then Stop(c, false)
      else
        var r := LineStep(c, h, space);
        if r.Stop? && !r.eof then
          LineShortens(c, h, space);
          Decode(r.c, space)
        else r
  }

  lemma DecodeGoesOn(c: Chunk, space: nat, h: Peek)
    requires h == PeekHeader(c.live) && h.Line? && h.length + 2 * h.count + 2 <= |c.live| && !Jumps(c, h)
    ensures Decode(c, space) == if LineStep(c, h, space).Stop? && !LineStep(c, h, space).eof
                                then Decode(LineStep(c, h, space).c, space) else LineStep(c, h, space)
  {
  }

  lemma DecodeStops(c: Chunk, space: nat)
    requires Decode(c, space).Stop?
    requires var h := PeekHeader(c.live); h.Line? ==> Jumps(c, h)
    ensures Decode(c, space) == Stop(c, false)
  {
    PeekFits(c.live);
  }

  /** A call that is to end with goal has got to c; done after the end-of-file record. */
  ghost predicate Toward(goal: Ending, c: Chunk, space: nat, done: bool) {
    goal == if done then Stop(c, true) else Decode(c, space)
  }

  lemma TowardWait(goal: Ending, c: Chunk, space: nat, h: Peek)
    requires Toward(goal, c, space, false) && h == PeekHeader(c.live) && !h.Line?
    ensures goal == if h.Error? then Fail else Stop(c, false)
  {
  }

  lemma TowardJump(goal: Ending, c: Chunk, space: nat, h: Peek)
    requires Toward(goal, c, space, false) && h == PeekHeader(c.live) && h.Line? && Jumps(c, h)
    ensures goal == Stop(c, false) && FindColon(c.live, 0) < |c.live|
  {
    DecodeStops(c, space);
  }

  lemma TowardLine(goal: Ending, c: Chunk, space: nat, h: Peek, r: Ending)
    requires Toward(goal, c, space, false) && h == PeekHeader(c.live) && h.Line? && !Jumps(c, h)
    requires h.length + 2 * h.count + 2 <= |c.live| && r == LineStep(c, h, space)
    ensures if r.Stop? then Toward(goal, r.c, space, r.eof) && |r.c.live| < |c.live| else goal == r
    ensures r.Stop? ==> r.eof == (h.kind == EOF)
  {
    DecodeGoesOn(c, space, h);
    if r.Stop? {
      LineShortens(c, h, space);
    }
  }

  /** The byte at the head of a ring that first held past and got input since is a colon, and what is behind it,
      up to the head again, is no header. */
  predicate Stale(past: seq<byte>, input: seq<byte>) {
    past != [] && (past + input)[|input|] == COLON && PeekAt((past + input)[|input| + 1..], 0) == Error
  }

  /** A call that runs out of lines fails, where it should wait, when at the head of the ring there is a stale
      colon with no header behind it. */
  function InRing(r: Ending, stale: bool): Ending {
    if stale && r.Stop? && !r.eof && FindColon(r.c.live, 0) == |r.c.live| then Fail else r
  }
}
