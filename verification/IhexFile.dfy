/** The Intel HEX decoder of src/binary-format-ihex.c between the input ring and the decoded ring. Every method
    does what IntelHex says for the live text. */
module IhexFile {
  import opened Basics
  import opened Bytes
  import opened Memory
  import opened Ring
  import opened BinaryFile
  import opened IntelHex
  import opened IhexDigits

  /** struct ihex_line_data */
  datatype LineData = LineData(dataStart: nat, count: nat, addr: nat, kind: nat)

  /** The variables of ihex_decode_chunk. */
  datatype Locals = Locals(tot: nat, decodedTot: nat, addr: nat, next: nat)

  class IhexFile {
    const buf: array<byte>
    const decodedBuf: array<byte>
    var head: nat
    var tail: nat
    var decodedHead: nat
    var decodedTail: nat
    /** curr_addr of the format data */
    var currAddr: nat
    var written: bool
    var rxDone: bool
    /** What the input ring held at first. */
    ghost const past: seq<byte>
    /** All that was appended; its first pos bytes were consumed. */
    ghost var input: seq<byte>
    ghost var pos: nat
    /** All that was decoded; its first released bytes have left the decoded ring. */
    ghost var decoded: seq<byte>
    ghost var released: nat

    ghost predicate Input()
      reads `head, `tail, `input, `pos, buf
    {
      && PowerOfTwo(buf.Length) && pos <= |input| < pos + buf.Length
      && RingHolds(buf[..], input, pos, |input|)
      && head == Index(|input|, buf.Length) && tail == Index(pos, buf.Length)
    }

    /** No byte of the input ring changes before it is overwritten. */
    ghost predicate History()
      reads `input, buf
    {
      |past| == buf.Length > 0 && RingHolds(buf[..], past + input, |input|, |past + input|)
    }

    ghost predicate Decoded()
      reads `decodedHead, `decodedTail, `decoded, `released, decodedBuf
    {
      && PowerOfTwo(decodedBuf.Length) && released <= |decoded| < released + decodedBuf.Length
      && Kept() && decodedHead == Index(|decoded|, decodedBuf.Length)
        && decodedTail == Index(released, decodedBuf.Length)
    }

    /** The decoded ring holds what has not been released. */
    ghost predicate Kept()
      reads `decoded, `released, decodedBuf
    {
      RingHolds(decodedBuf[..], decoded, released, |decoded|)
    }

    ghost predicate Valid()
      reads `head, `tail, `input, `pos, `decodedHead, `decodedTail, `decoded, `released, buf, decodedBuf
    {
      buf != decodedBuf && Input() && History() && Decoded()
    }

    /** The bytes that still fit into the decoded ring. */
    ghost function Room(): int
      reads `decoded, `released
    {
      decodedBuf.Length - 1 - (|decoded| - released)
    }

    /** A file whose format has just been probed; the input ring still holds other bytes. */
    constructor (before: seq<byte>, decodedSize: nat)
      requires PowerOfTwo(|before|) && PowerOfTwo(decodedSize)
      ensures Valid() && past == before && input == [] && decoded == [] && currAddr == 0 && !rxDone && !written
    {
      buf := new byte[|before|](i requires 0 <= i < |before| => before[i]);
      decodedBuf := new byte[decodedSize];
      head, tail, decodedHead, decodedTail := 0, 0, 0, 0;
      currAddr, written, rxDone := 0, false, false;
      past, input, pos, decoded, released := before, [], 0, [], 0;
      SmallMod(0, |before|);
      SmallMod(0, decodedSize);
      new;
      forall j | 0 <= j < |before|
        ensures buf[Index(j, |before|)] == (before + [])[j]
      {
        SmallMod(j, |before|);
      }
    }

    /** The live text. */
    ghost function Live(): seq<byte>
      reads `input, `pos
    {
      if pos <= |input| then input[pos..] else []
    }

    /** An index that is at place i of the live text. */
    ghost predicate At(index: nat, i: nat)
      reads `input, `pos
    {
      buf.Length > 0 && i <= |Live()| && index == Index(pos + i, buf.Length)
    }

    /** A place of the live text is its end exactly when its index is the head. */
    lemma AtHead(index: nat, i: nat)
      requires Input() && At(index, i)
      ensures index == head <==> i == |Live()|
      ensures i < |Live()| ==> index < buf.Length && buf[index] == Live()[i]
    {
      if i < |Live()| {
        SlotsDistinct(pos + i, |input|, buf.Length);
        assert buf[..][Index(pos + i, buf.Length)] == input[pos + i];
      }
    }

    /** _next */
    method Next(index: nat, ghost p: nat) returns (r: nat)
      requires PowerOfTwo(buf.Length) && index < buf.Length
      ensures r < buf.Length && (index == Index(p, buf.Length) ==> r == Index(p + 1, buf.Length))
    {
      MaskIsMod(index + 1, buf.Length);
      Advance(p, 1, buf.Length);
      r := And(index + 1, buf.Length - 1);
    }

    /** _next of a place in the live text. */
    method NextPlace(index: nat, ghost i: nat) returns (r: nat)
      requires Input() && At(index, i) && i < |Live()| && index < buf.Length
      ensures r < buf.Length && At(r, i + 1)
    {
      r := Next(index, pos + i);
    }

    /** _search_line: behind the first colon. Without a colon in the live text it finds the stale byte at the
        head, if that is one. */
    method SearchLine() returns (ret: nat, index: nat)
      requires Input()
      ensures index < buf.Length
      ensures Found(ret, index)
    {
      index := tail;
      ret := 0;
      while buf[index] != COLON && index != head
        invariant Searched(ret, index)
        decreases |Live()| - ret
      {
        index := SearchOn(ret, index);
        ret := ret + 1;
      }
      ret, index := BehindColon(ret, index);
    }

    /** The end of the search. */
    method BehindColon(at: nat, index: nat) returns (ret: nat, next: nat)
      requires Input() && Searched(at, index) && (buf[index] == COLON || index == head)
      ensures next < buf.Length
      ensures Found(ret, next)
    {
      AtHead(index, at);
      if buf[index] != COLON {
        return 0, index;
      }
      next := Next(index, pos + at);
      ret := at + 1;
    }

    /** What the search has found: ret is 0, or index is behind the colon. */
    ghost predicate Found(ret: nat, index: nat)
      reads `head, `input, `pos, buf
    {
      match FindColon(Live(), 0) < |Live()|
      case true => ret == FindColon(Live(), 0) + 1 && At(index, FindColon(Live(), 0) + 1)
      case false =>
        if head < buf.Length && buf[head] == COLON then ret == |Live()| + 1 && index == Index(|input| + 1, buf.Length)
        else ret == 0
    }

    /** There is no colon before place ret of the live text, which is at index. */
    ghost predicate Searched(ret: nat, index: nat)
      reads `input, `pos
    {
      ret <= |Live()| && At(index, ret) && index < buf.Length && FindColon(Live(), 0) == FindColon(Live(), ret)
    }

    method SearchOn(ghost ret: nat, index: nat) returns (next: nat)
      requires Input() && Searched(ret, index) && buf[index] != COLON && index != head
      ensures ret < |Live()| && Searched(ret + 1, next)
    {
      AtHead(index, ret);
      next := NextPlace(index, ret);
    }

    // ---------- headers ----------

    /** The ring shows this text from index base on, up to the head. */
    ghost predicate Shows(text: seq<byte>, base: nat)
      reads `head, buf
    {
      && PowerOfTwo(buf.Length) && |text| < buf.Length && head == Index(base + |text|, buf.Length)
      && forall i {:trigger text[i]} :: 0 <= i < |text| ==> buf[Index(base + i, buf.Length)] == text[i]
    }

    lemma AtEnd(text: seq<byte>, base: nat, index: nat, i: nat)
      requires Shows(text, base) && i <= |text| && index == Index(base + i, buf.Length)
      ensures index == head <==> i == |text|
    {
      if i < |text| {
        SlotsDistinct(base + i, base + |text|, buf.Length);
      }
    }

    lemma LiveShows()
      requires Input()
      ensures Shows(Live(), pos)
    {
      forall i | 0 <= i < |Live()|
        ensures buf[Index(pos + i, buf.Length)] == Live()[i]
      {
        assert buf[..][Index(pos + i, buf.Length)] == input[pos + i];
      }
    }

    /** The stale text behind the byte at the head, up to the head again. */
    ghost function Behind(): seq<byte>
      reads `input
    {
      if past == [] then [] else (past + input)[|input| + 1..]
    }

    lemma BehindShows()
      requires Input() && History()
      ensures Shows(Behind(), |input| + 1)
    {
      ModShift(|input|, 1, buf.Length);
      forall i | 0 <= i < |Behind()|
        ensures buf[Index(|input| + 1 + i, buf.Length)] == Behind()[i]
      {
        assert buf[..][Index(|input| + 1 + i, buf.Length)] == (past + input)[|input| + 1 + i];
      }
    }

    /** One character of a number. */
    method NextDigit(index: nat, ghost text: seq<byte>, ghost base: nat, ghost place: nat)
      returns (nibble: int, next: nat)
      requires Shows(text, base) && place < |text| && index == Index(base + place, buf.Length)
      ensures nibble == Nibble(text[place]) && next == Index(base + (place + 1), buf.Length)
    {
      nibble := Nibble(buf[index]);
      next := Next(index, base + place);
    }

    /** _decode_hex of a number. The digits are disjoint bits, so that adding them is or-ing them. */
    method DecodeNumber(start: nat, n: nat, ghost text: seq<byte>, ghost base: nat, ghost i: nat)
      returns (stat: int, index: nat, out: nat)
      requires Shows(text, base) && i <= |text| && start == Index(base + i, buf.Length) && n > 0
      ensures match ScanHex(text, i, n, 0)
              case Bad => stat == -1
              case NotYet => stat == 0
              case Value(v) => stat == n && out == v && index == Index(base + (i + n), buf.Length)
    {
      index, out := start, 0;
      var k: nat := 0;
      ghost var place, acc: nat := i, 0;
      while k < n && index != head
        invariant k <= n && place == i + k <= |text| && index == Index(base + place, buf.Length)
        invariant out == acc * Pow16(n - k) && ScanHex(text, i, n, 0) == ScanHex(text, place, n - k, acc)
      {
        AtEnd(text, base, index, place);
        var nibble, next := NextDigit(index, text, base, place);
        if nibble < 0 {
          return -1, index, out;
        }
        AddDigit(out, acc, nibble, n - k);
        out := out + nibble * Pow16(n - (k + 1));
        acc, place := 16 * acc + nibble, place + 1;
        k := k + 1;
        index := next;
      }
      AtEnd(text, base, index, place);
      stat := if index == head then 0 else k;
    }

    /** ret and ld say that the header is h. */
    ghost predicate Peeked(h: Peek, ret: int, ld: LineData)
      reads `input, `pos
    {
      match h
      case Error => ret == -1
      case Wait => ret == 0
      case Line(length, count, addr, kind) =>
        ret == length && ret > 0 && At(ld.dataStart, length) && ld == LineData(ld.dataStart, count, addr, kind)
    }

    /** The fields of a header whose first digit is at index, which is place i of a text that the ring shows;
        read is the number of characters up to there. */
    method PeekFields(start: nat, read: nat, ghost text: seq<byte>, ghost base: nat, ghost i: nat)
      returns (ret: int, ld: LineData)
      requires Input() && Shows(text, base) && i <= |text| && start == Index(base + i, buf.Length)
      ensures PeekAt(text, i) == Error ==> ret == -1
      ensures PeekAt(text, i) != Error && read > |Live()| ==> ret == 0
      ensures base == pos && text == Live() && read == i ==> Peeked(PeekAt(Live(), i), ret, ld)
    {
      ld := LineData(0, 0, 0, 0);
      var stat, index, count := DecodeNumber(start, 2, text, base, i);
      if stat <= 0 {
        return stat, ld;
      }
      var addr;
      stat, index, addr := DecodeNumber(index, 4, text, base, i + 2);
      if stat <= 0 {
        return stat, ld;
      }
      ret, ld := PeekKind(index, read + 6, count, addr, text, base, i);
    }

    /** The last field, behind the count and the address. */
    method PeekKind(start: nat, read: nat, count: nat, addr: nat, ghost text: seq<byte>, ghost base: nat, ghost i: nat)
      returns (ret: int, ld: LineData)
      requires Input() && Shows(text, base) && i + 6 <= |text| && start == Index(base + (i + 6), buf.Length)
      requires ScanHex(text, i, 2, 0) == Value(count) && ScanHex(text, i + 2, 4, 0) == Value(addr)
      ensures PeekAt(text, i) == Error ==> ret == -1
      ensures PeekAt(text, i) != Error && read > |Live()| ==> ret == 0
      ensures base == pos && text == Live() && read == i + 6 ==> Peeked(PeekAt(Live(), i), ret, ld)
    {
      var stat, index, kind := DecodeNumber(start, 2, text, base, i + 6);
      if stat <= 0 {
        return stat, LineData(0, 0, 0, 0);
      }
      ret, ld := PeekLength(index, read + 2, count, addr, kind);
    }

    /** The last part of _peek_line_header: the kind is checked, and whether the whole line is there. */
    method PeekLength(index: nat, read: nat, count: nat, addr: nat, kind: nat) returns (ret: int, ld: LineData)
      requires Input()
      ensures ret == if kind > START_LINEAR then -1 else if |Live()| < 2 * count + read + 2 then 0 else read
      ensures ret > 0 ==> ld == LineData(index, count, addr, kind)
    {
      ld := LineData(index, count, addr, kind);
      if kind > START_LINEAR {
        return -1, ld;
      }
      CountMeans(|input|, pos, buf.Length);
      if Ring.Count(head, tail, buf.Length) < count * 2 + read + 2 {
        return 0, ld;
      }
      ret := read;
    }

    /** Where the header behind the colon is read. */
    lemma HeaderText(read: nat, index: nat) returns (text: seq<byte>, base: nat, i: nat)
      requires Input() && History()
      requires var c := FindColon(Live(), 0);
        if c < |Live()| then read == c + 1 && At(index, c + 1)
        else read == |Live()| + 1 && index == Index(|input| + 1, buf.Length)
      ensures Shows(text, base) && i <= |text| && index == Index(base + i, buf.Length)
      ensures var c := FindColon(Live(), 0);
        if c < |Live()| then text == Live() && base == pos && i == read == c + 1
        else text == Behind() && i == 0
    {
      LiveShows();
      BehindShows();
      var c := FindColon(Live(), 0);
      text, base, i := Live(), pos, c + 1;
      if c == |Live()| {
        text, base, i := Behind(), |input| + 1, 0;
      }
    }

    lemma AtTheHead()
      requires Input() && History()
      ensures head < buf.Length && past != [] && buf[head] == (past + input)[|input|]
    {
      assert buf[..][Index(|input|, buf.Length)] == (past + input)[|input|];
    }

    /** _peek_line_header: whenever it returns a count, a whole line is in the live text, and the header is
        the one found there, though the search also looks at the stale byte at the head. Without a colon in
        the live text it waits, except behind a stale colon that no header follows. */
    method PeekLineHeader() returns (ret: int, ld: LineData)
      requires Input() && History()
      ensures if FindColon(Live(), 0) < |Live()| then Peeked(PeekHeader(Live()), ret, ld)
              else PeekHeader(Live()) == Wait && ret == if Stale(past, input) then -1 else 0
    {
      var read, index := SearchLine();
      AtTheHead();
      if read <= 0 {
        return read, LineData(0, 0, 0, 0);
      }
      ghost var text, base, i := HeaderText(read, index);
      ret, ld := PeekFields(index, read, text, base, i);
    }

    // ---------- data ----------

    /** The first k digits have been put into the decoded ring as these bytes; at is the next index to write. */
    ghost predicate Writes(digits: seq<byte>, k: nat, bytes: seq<byte>, at: nat)
      reads `decoded, `released, decodedBuf
    {
      Put(decodedBuf[..], decoded, released, digits, k, bytes, at)
    }

    /** One digit of a data line goes to its byte, the high one first; k of the digits came before. */
    method PutDigit(at: nat, stat: nat, ghost digits: seq<byte>, k: nat, ghost bytes: seq<byte>)
      returns (next: nat, ghost bytes': seq<byte>)
      requires k < |digits| && stat == Nibble(digits[k]) && Writes(digits, k, bytes, at)
      modifies decodedBuf
      ensures Writes(digits, k + 1, bytes', next)
    {
      ghost var a := decodedBuf[..];
      if k % 2 == 0 {
        PutHigh(a, decoded, released, digits, k, bytes, at);
        decodedBuf[at] := 16 * stat;
        assert decodedBuf[..] == a[at := 16 * stat];
        next, bytes' := at, bytes;
      } else {
        PutLow(a, decoded, released, digits, k, bytes, at);
        decodedBuf[at] := decodedBuf[at] + stat;
        assert decodedBuf[..] == a[at := a[at] + stat];
        bytes' := bytes + [decodedBuf[at]];
        next := And(at + 1, decodedBuf.Length - 1);
      }
    }

    /** One digit of a data line: -1 where it is none. */
    method BufDigit(index: nat, at: nat, ghost text: seq<byte>, ghost base: nat, ghost place: nat,
                    ghost digits: seq<byte>, k: nat, ghost bytes: seq<byte>)
      returns (nibble: int, next: nat, nextAt: nat, ghost bytes': seq<byte>)
      requires Shows(text, base) && buf != decodedBuf && place < |text| && index == Index(base + place, buf.Length)
      requires k < |digits| && digits[k] == text[place] && Writes(digits, k, bytes, at)
      modifies decodedBuf
      ensures Shows(text, base) && nibble == Nibble(digits[k]) && next == Index(base + (place + 1), buf.Length)
      ensures if nibble >= 0 then Writes(digits, k + 1, bytes', nextAt) else Writes(digits, k, bytes, at)
    {
      nibble, next := NextDigit(index, text, base, place);
      nextAt, bytes' := at, bytes;
      if nibble >= 0 {
        nextAt, bytes' := PutDigit(at, nibble, digits, k, bytes);
      }
    }

    /** _decode_hex of len digits into the decoded ring, none of whose fields moves yet. */
    method DecodeBuf(start: nat, len: nat, ghost text: seq<byte>, ghost base: nat, ghost digits: seq<byte>)
      returns (stat: int, index: nat, outIndex: nat, ghost k: nat, ghost bytes: seq<byte>)
      requires Shows(text, base) && buf != decodedBuf && start == Index(base, buf.Length)
      requires |digits| == len < |text| && (forall j :: 0 <= j < len ==> digits[j] == text[j])
      requires Writes(digits, 0, [], decodedHead)
      modifies decodedBuf
      ensures Writes(digits, k, bytes, outIndex)
      ensures if k < len then stat == -1 && Nibble(digits[k]) < 0 else stat == k == len
    {
      index, outIndex, bytes := start, decodedHead, [];
      var n: nat := 0;
      while n < len && index != head
        invariant n <= len && index == Index(base + n, buf.Length) && Shows(text, base)
        invariant Writes(digits, n, bytes, outIndex)
      {
        var nibble, next, at, more := BufDigit(index, outIndex, text, base, n, digits, n, bytes);
        if nibble < 0 {
          return -1, index, outIndex, n, bytes;
        }
        index, outIndex, bytes := next, at, more;
        n := n + 1;
      }
      AtEnd(text, base, index, n);
      stat := if index == head then 0 else n;
      k := n;
    }

    /** _go_on of the tail */
    method MoveTail(n: nat)
      requires Input() && n <= |Live()|
      modifies `tail, `pos
      ensures Input() && Live() == old(Live())[n..] && tail < buf.Length && At(tail, 0)
    {
      Advance(pos, n, buf.Length);
      RingPart(buf[..], input, pos, |input|, pos + n);
      assert input[pos + n..] == input[pos..][n..];
      tail := And(tail + n, buf.Length - 1);
      pos := pos + n;
    }

    /** bf_dec_space */
    method DecodedSpace() returns (n: int)
      requires Decoded()
      ensures n == Room()
    {
      SpaceMeans(|decoded|, released, decodedBuf.Length);
      n := Space(decodedHead, decodedTail, decodedBuf.Length);
    }

    /** _decode_data_line, with the tail at the data: 0 when there is no room or nothing to decode. */
    method DecodeDataLine(ld: LineData, ghost digits: seq<byte>) returns (stat: int, ghost more: seq<byte>)
      requires Valid() && 2 * ld.count + 2 <= |Live()| && digits == Live()[..2 * ld.count]
      modifies `tail, `pos, `decodedHead, `decoded, decodedBuf
      ensures Valid()
      ensures if 2 * old(Room()) >= |digits| && ld.dataStart != old(tail) then stat == -1 && decoded == old(decoded)
              else DataRead(digits, old(Room()), stat, old(decoded), decoded, more)
      ensures Live() == if stat > 0 then old(Live())[2 * ld.count + 2..] else old(Live())
    {
      more := [];
      var space := DecodedSpace();
      if space < ld.count {
        return 0, [];
      }
      if ld.dataStart != tail {
        return -1, [];
      }
      stat, more := DecodeDigits(2 * ld.count, digits);
    }

    /** The digits of the data, and the checksum, which _check_line does not look at. */
    method DecodeDigits(len: nat, ghost digits: seq<byte>) returns (stat: int, ghost more: seq<byte>)
      requires Valid() && len + 2 <= |Live()| && len % 2 == 0 && len / 2 <= Room() && digits == Live()[..len]
      modifies `tail, `pos, `decodedHead, `decoded, decodedBuf
      ensures Valid() && DataRead(digits, old(Room()), stat, old(decoded), decoded, more)
      ensures Live() == if stat > 0 then old(Live())[len + 2..] else old(Live())
    {
      LiveShows();
      PutStarts(decodedBuf[..], decoded, released, digits);
      var index, outIndex;
      ghost var k;
      stat, index, outIndex, k, more := DecodeBuf(tail, len, Live(), pos, digits);
      PutKeeps(decodedBuf[..], decoded, released, digits, k, more, outIndex);
      if stat <= 0 {
        more := [];
        return;
      }
      DropTwice(Live(), stat, 2);
      KeepData(outIndex, digits, more);
      MoveTail(stat);
      MoveTail(2);
      stat := stat + 2;
    }

    /** The data digits are read and their bytes written. */
    method KeepData(outIndex: nat, ghost digits: seq<byte>, ghost bytes: seq<byte>)
      requires Writes(digits, |digits|, bytes, outIndex) && decodedTail == Index(released, decodedBuf.Length)
      modifies `decodedHead, `decoded
      ensures AllHex(digits) && Pairs(bytes, digits) && 2 * |bytes| == |digits|
      ensures Decoded() && decoded == old(decoded) + bytes
    {
      PutEnds(decodedBuf[..], decoded, released, digits, bytes, outIndex);
      decoded := decoded + bytes;
      decodedHead := outIndex;
    }

    // ---------- text arrives, decoded bytes leave ----------

    /** memcpy to the head of the input ring. */
    method PutPiece(piece: seq<byte>)
      requires Input() && History() && head + |piece| <= buf.Length && |input| + |piece| < pos + buf.Length
      modifies `head, `input, buf
      ensures Input() && History() && input == old(input) + piece
    {
      ghost var a, all := buf[..], past + input;
      Copy(buf, head, piece, all + piece, |all|);
      ArrivalKeepsHistory(a, buf[..], all, piece);
      Joined(past, input, piece);
      Advance(|input|, |piece|, buf.Length);
      head := And(head + |piece|, buf.Length - 1);
      input := input + piece;
      HistoryHolds(buf[..], past, input, pos);
    }

    /** The two copies of _bf_append_data, up to the end of the ring and from its start. */
    method PutData(data: seq<byte>)
      requires Input() && History() && |input| + |data| < pos + buf.Length
      modifies `head, `input, buf
      ensures Input() && History() && input == old(input) + data
    {
      SpaceToEndMeans(|input|, pos, buf.Length);
      var end := SpaceToEnd(head, tail, buf.Length);
      var sz := if end < |data| then end else |data|;
      assert data == data[..sz] + data[sz..];
      ghost var before := input;
      if sz < |data| {
        WrapsToZero(|input|, sz, buf.Length);
      }
      PutPiece(data[..sz]);
      if sz < |data| {
        PutPiece(data[sz..]);
        Joined(before, data[..sz], data[sz..]);
      }
    }

    /** _bf_append_data: the number of bytes taken, all or none. */
    method AppendData(data: seq<byte>) returns (n: nat)
      requires Valid()
      modifies `head, `input, `written, buf
      ensures Valid() && input == old(input) + (if n == |data| then data else [])
      ensures n == if |old(Live())| + |data| < buf.Length then |data| else 0
      ensures written == (old(written) || data == [])
    {
      n := |data|;
      if n == 0 {
        // Size is 0, file written
        written := true;
        return;
      }
      SpaceMeans(|input|, pos, buf.Length);
      if Space(head, tail, buf.Length) < n {
        return 0;
      }
      PutData(data);
    }

    /** bf_put_write_chunk moves the decoded tail behind the chunk that the target has written. */
    method Release(n: nat)
      requires Valid() && n <= |decoded| - released
      modifies `decodedTail, `released
      ensures Valid() && released == old(released) + n
    {
      Advance(released, n, decodedBuf.Length);
      RingPart(decodedBuf[..], decoded, released, |decoded|, released + n);
      decodedTail := And(decodedTail + n, decodedBuf.Length - 1);
      released := released + n;
    }

    // ---------- one call ----------

    /** The state of a call that has decoded c, after d before it. */
    ghost predicate Holds(c: Chunk, d: seq<byte>)
      reads `head, `tail, `input, `pos, `decodedHead, `decodedTail, `decoded, `released, `currAddr, buf, decodedBuf
    {
      match c
      case Chunk(live, base, _, out, _, _) => Valid() && Live() == live && currAddr == base && decoded == d + out
    }

    /** In the middle of a call that has decoded c, with d before it; space was free when it began. */
    ghost predicate Running(c: Chunk, d: seq<byte>, space: nat, v: Locals)
      reads `head, `tail, `input, `pos, `decodedHead, `decodedTail, `decoded, `released, `currAddr, buf, decodedBuf
    {
      match v
      case Locals(tot, decodedTot, addr, next) =>
        && Holds(c, d) && Room() + |c.out| == space
        && (tot > 0 <==> c.started) && decodedTot == |c.out| && next == c.next && (c.started ==> addr == c.addr)
    }

    /** The tail moves behind a header of length characters, and the data are decoded. */
    method DataRecord(ld: LineData, length: nat, ghost digits: seq<byte>) returns (stat: int, ghost more: seq<byte>)
      requires Valid() && length + (2 * ld.count + 2) <= |Live()| && At(ld.dataStart, length)
      requires digits == Live()[length..length + 2 * ld.count]
      modifies `tail, `pos, `decodedHead, `decoded, decodedBuf
      ensures Valid() && DataRead(digits, old(Room()), stat, old(decoded), decoded, more)
      ensures Live() == old(Live())[if stat > 0 then length + (2 * ld.count + 2) else length..]
    {
      ghost var live := Live();
      MoveTail(length);
      assert Live()[..2 * ld.count] == digits;
      DropTwice(live, length, 2 * ld.count + 2);
      stat, more := DecodeDataLine(ld, digits);
    }

    /** case IHEX_DATA: whether the loop goes on, and what is returned otherwise. */
    method DataCase(ld: LineData, length: nat, v: Locals, ghost c: Chunk, ghost d: seq<byte>, ghost space: nat,
                    ghost h: Peek)
      returns (go: bool, ret: int, v': Locals)
      requires Running(c, d, space, v) && h == Line(length, ld.count, ld.addr, DATA)
      requires length + 2 * ld.count + 2 <= |c.live| && At(ld.dataStart, length)
      modifies `tail, `pos, `decodedHead, `decoded, decodedBuf
      ensures Valid()
      ensures if Jumps(c, h) then !go && ret == |c.out| && Holds(c, d) && v' == v
              else Stepped(DataLine(c, h, space), d, space, go, ret, v')
    {
      var cur := Hi(currAddr) + ld.addr;
      if v.tot != 0 && cur != v.next {
        // Address jump: the line is left for the next call
        return false, v.decodedTot, v;
      }
      ghost var digits, bytes := DataLineIs(c, h, space);
      go, ret, v' := DataTaken(ld, length, cur, v, c, d, space, h, digits, bytes, DataLine(c, h, space));
    }

    /** A data line that goes on where the chunk ended. */
    method DataTaken(ld: LineData, length: nat, cur: nat, v: Locals, ghost c: Chunk, ghost d: seq<byte>,
                     ghost space: nat,
                     ghost h: Peek, ghost digits: seq<byte>, ghost bytes: seq<byte>, ghost r: Ending)
      returns (go: bool, ret: int, v': Locals)
      requires Running(c, d, space, v) && h == Line(length, ld.count, ld.addr, DATA) && cur == Hi(c.base) + ld.addr
      requires length + 2 * ld.count + 2 <= |c.live| && At(ld.dataStart, length)
      requires DataIs(c, h, space, digits, bytes, r)
      modifies `tail, `pos, `decodedHead, `decoded, decodedBuf
      ensures Valid() && Stepped(r, d, space, go, ret, v')
    {
      var stat;
      ghost var more;
      stat, more := DataRecord(ld, length, digits);
      if stat <= 0 {
        NoData(c, d, length);
        return false, stat, v;
      }
      go, ret := true, 0;
      v' := Locals(v.tot + stat, v.decodedTot + ld.count, if v.tot == 0 then cur else v.addr, U32(cur + ld.count));
      PairsUnique(more, bytes, digits);
      MoreData(c, d, space, v', bytes, r.c);
    }

    /** The call ends behind the header, with nothing more decoded. */
    lemma NoData(c: Chunk, d: seq<byte>, length: nat)
      requires Valid() && length <= |c.live| && Live() == c.live[length..] && currAddr == c.base
      requires decoded == d + c.out + []
      ensures Holds(c.(live := c.live[length..]), d)
    {
    }

    /** The bytes of a data line are decoded. */
    lemma MoreData(c: Chunk, d: seq<byte>, space: nat, v: Locals, bytes: seq<byte>, r: Chunk)
      requires Valid() && Live() == r.live && currAddr == r.base && r.started && v.tot > 0
      requires decoded == d + c.out + bytes && r.out == c.out + bytes && Room() + |r.out| == space
      requires v.decodedTot == |r.out| && v.next == r.next && v.addr == r.addr
      ensures Running(r, d, space, v)
    {
      assert d + c.out + bytes == d + (c.out + bytes);
    }

    /** How a line leaves the loop. */
    ghost predicate Stepped(r: Ending, d: seq<byte>, space: nat, go: bool, ret: int, v: Locals)
      reads `head, `tail, `input, `pos, `decodedHead, `decodedTail, `decoded, `released, `currAddr, buf, decodedBuf
    {
      match r
      case Stop(c, _) => go && Running(c, d, space, v)
      case Fail => !go && ret == -1
      case Lost(c) => !go && ret == 0 && Holds(c, d)
    }

    /** The number of an address record; the tail moves behind it. */
    method NumberRecord(ld: LineData, n: nat, ghost length: nat) returns (stat: int, a: nat)
      requires Valid() && length <= |Live()| && At(ld.dataStart, length) && n > 0
      modifies `tail, `pos
      ensures Valid()
      ensures match ScanHex(old(Live()), length, n, 0)
              case Bad => stat == -1
              case NotYet => stat == 0 && Live() == old(Live())
              case Value(v) => stat == n && a == v && length + n <= |old(Live())| && Live() == old(Live())[length + n..]
    {
      LiveShows();
      var index;
      stat, index, a := DecodeNumber(ld.dataStart, n, Live(), pos, length);
      if stat > 0 {
        ghost var p := pos + (length + n);
        assert input[p..] == Live()[length + n..];
        RingPart(buf[..], input, pos, |input|, p);
        tail, pos := index, p;
      }
    }

    /** The number of an address record in a call. */
    method NumberTaken(ld: LineData, n: nat, length: nat, v: Locals, ghost c: Chunk, ghost d: seq<byte>,
                       ghost space: nat)
      returns (stat: int, a: nat)
      requires Running(c, d, space, v) && length <= |c.live| && At(ld.dataStart, length) && n > 0
      modifies `tail, `pos
      ensures Valid() && (stat == n || stat == 0 || stat == -1)
      ensures stat == n ==> ScanHex(c.live, length, n, 0) == Value(a) && length + n <= |c.live|
                            && Running(c.(live := c.live[length + n..]), d, space, v)
      ensures stat == 0 ==> ScanHex(c.live, length, n, 0) == NotYet && Holds(c, d)
      ensures stat == -1 ==> ScanHex(c.live, length, n, 0) == Bad
    {
      stat, a := NumberRecord(ld, n, length);
    }

    /** The cases with an address; only the extended linear address is kept. */
    method NumberCase(ld: LineData, length: nat, v: Locals, ghost c: Chunk, ghost d: seq<byte>, ghost space: nat,
                      ghost h: Peek)
      returns (go: bool, ret: int, v': Locals)
      requires Running(c, d, space, v) && h == Line(length, ld.count, ld.addr, ld.kind) && length <= |c.live|
      requires At(ld.dataStart, length)
      modifies `tail, `pos, `currAddr
      ensures Valid()
      ensures Stepped(NumberLine(c, h, if ld.kind == EXT_LINEAR then 4 else 8), d, space, go, ret, v')
    {
      var n := if ld.kind == EXT_LINEAR then 4 else 8;
      var stat, a := NumberTaken(ld, n, length, v, c, d, space);
      if stat <= 0 {
        NumberStops(c, h, n, d, space, stat, v);
        return false, stat, v;
      }
      go, ret, v' := true, 0, v;
      if ld.kind == EXT_LINEAR {
        v' := NewBase(a, v, c.(live := c.live[length + n..]), d, space);
      }
      NumberGoesOn(c, h, n, a, d, space, v');
    }

    lemma NumberStops(c: Chunk, h: Peek, n: nat, d: seq<byte>, space: nat, stat: int, v: Locals)
      requires h.Line? && h.length <= |c.live|
      requires if stat == 0 then ScanHex(c.live, h.length, n, 0) == NotYet && Holds(c, d)
               else stat == -1 && ScanHex(c.live, h.length, n, 0) == Bad
      ensures Stepped(NumberLine(c, h, n), d, space, false, stat, v)
    {
    }

    lemma NumberGoesOn(c: Chunk, h: Peek, n: nat, a: nat, d: seq<byte>, space: nat, v: Locals)
      requires h.Line? && h.length + n <= |c.live| && ScanHex(c.live, h.length, n, 0) == Value(a)
      requires var c' := c.(live := c.live[h.length + n..]);
        Running(if h.kind == EXT_LINEAR then c'.(base := U32(a * 0x1_0000), next := U32(a * 0x1_0000)) else c', d,
                space, v)
      ensures Stepped(NumberLine(c, h, n), d, space, true, 0, v)
    {
    }

    /** An extended linear address is kept, and taken for the next address. */
    method NewBase(a: nat, v: Locals, ghost c: Chunk, ghost d: seq<byte>, ghost space: nat) returns (v': Locals)
      requires Running(c, d, space, v)
      modifies `currAddr
      ensures Running(c.(base := U32(a * 0x1_0000), next := U32(a * 0x1_0000)), d, space, v')
    {
      currAddr := U32(a * 0x1_0000);
      v' := v.(next := currAddr);
    }

    /** case IHEX_EOF */
    method EofCase(length: nat, v: Locals, ghost c: Chunk, ghost d: seq<byte>, ghost space: nat)
      requires Running(c, d, space, v) && length <= |c.live|
      modifies `tail, `pos, `rxDone, `written
      ensures Running(c.(live := c.live[length..]), d, space, v) && rxDone && written
    {
      ghost var live := Live();
      rxDone := true;
      written := true;
      MoveTail(length);
      assert Live() == live[length..] && Valid();
      assert Holds(c.(live := c.live[length..]), d);
    }

    /** One line of the call; a jump returns what is decoded. */
    method OneLine(ld: LineData, length: nat, v: Locals, ghost c: Chunk, ghost d: seq<byte>, ghost space: nat,
                   ghost h: Peek)
      returns (go: bool, ret: int, v': Locals)
      requires Running(c, d, space, v) && h == PeekHeader(c.live) && h == Line(length, ld.count, ld.addr, ld.kind)
      requires length + 2 * ld.count + 2 <= |c.live| && At(ld.dataStart, length) && !rxDone
      modifies `tail, `pos, `decodedHead, `decoded, `currAddr, `rxDone, `written, decodedBuf
      ensures Valid()
      ensures if Jumps(c, h) then !go && ret == |c.out| && Holds(c, d) && v' == v
              else Stepped(LineStep(c, h, space), d, space, go, ret, v')
      ensures rxDone == (ld.kind == EOF) && written == (old(written) || rxDone)
    {
      if ld.kind == DATA {
        go, ret, v' := DataCase(ld, length, v, c, d, space, h);
      } else if ld.kind == EOF {
        EofCase(length, v, c, d, space);
        go, ret, v' := true, 0, v;
      } else if ld.kind == EXT_SEG {
        // Unsupported at the moment
        go, ret, v' := false, -1, v;
      } else {
        go, ret, v' := NumberCase(ld, length, v, c, d, space, h);
      }
    }

    /** What a call that ends with r returns, d being all that was decoded before it. */
    ghost predicate Returned(r: Ending, d: seq<byte>, ret: int, addr: nat)
      reads `head, `tail, `input, `pos, `decodedHead, `decodedTail, `decoded, `released, `currAddr, `rxDone, buf,
        decodedBuf
    {
      match r
      case Stop(c, eof) => Holds(c, d) && ret == |c.out| && rxDone == eof && (c.started ==> addr == c.addr)
      case Fail => ret == -1
      case Lost(c) => ret == 0 && Holds(c, d) && !rxDone
    }

    /** ihex_decode_chunk: the number of bytes decoded and the address of the first. */
    method DecodeChunk() returns (ret: int, addr: nat)
      requires Valid()
      modifies `tail, `pos, `decodedHead, `decoded, `currAddr, `rxDone, `written, decodedBuf
      ensures Valid() && written == (old(written) || (rxDone && !old(rxDone)))
      ensures old(rxDone) ==> ret == 0 && Live() == old(Live()) && decoded == old(decoded) && rxDone
      ensures !old(rxDone) ==>
        var r := Decode(Chunk(old(Live()), old(currAddr), false, [], 0, 0), old(Room()));
        Returned(InRing(r, Stale(past, old(input))), old(decoded), ret, addr)
    {
      var v := Locals(0, 0, 0, 0);
      ret, addr := 0, 0;
      ghost var c, d, space := Chunk(Live(), currAddr, false, [], 0, 0), decoded, Room();
      ghost var goal, was := Decode(c, space), rxDone;
      while !rxDone
        invariant Running(c, d, space, v) && (was ==> rxDone)
        invariant if was then decoded == d && Live() == c.live == old(Live()) && v.decodedTot == 0
                  else Toward(goal, c, space, rxDone)
        invariant written == (old(written) || (rxDone && !was))
        decreases if rxDone then 0 else 1, |c.live|
      {
        var go, stat, v' := Round(v, c, d, space, goal);
        if !go {
          return stat, v'.addr;
        }
        c, v := LineStep(c, PeekHeader(c.live), space).c, v';
      }
      ret, addr := v.decodedTot, v.addr;
    }

    /** One round of the loop: whether it goes on, and what is returned otherwise. */
    method Round(v: Locals, ghost c: Chunk, ghost d: seq<byte>, ghost space: nat, ghost goal: Ending)
      returns (go: bool, ret: int, v': Locals)
      requires Running(c, d, space, v) && Toward(goal, c, space, false) && !rxDone
      modifies `tail, `pos, `decodedHead, `decoded, `currAddr, `rxDone, `written, decodedBuf
      ensures Valid() && written == (old(written) || rxDone)
      ensures var h := PeekHeader(c.live);
        if go then
          && h.Line? && h.length + 2 * h.count + 2 <= |c.live| && LineStep(c, h, space).Stop?
          && Running(LineStep(c, h, space).c, d, space, v') && Toward(goal, LineStep(c, h, space).c, space, rxDone)
          && |LineStep(c, h, space).c.live| < |c.live|
        else Returned(InRing(goal, Stale(past, old(input))), d, ret, v'.addr) && !rxDone
    {
      var stat, ld := PeekLineHeader();
      ghost var h := PeekHeader(c.live);
      PeekFits(c.live);
      if stat <= 0 {
        TowardWait(goal, c, space, h);
        return false, if stat < 0 then stat else v.decodedTot, v;
      }
      go, ret, v' := OneLine(ld, stat, v, c, d, space, h);
      if Jumps(c, h) {
        TowardJump(goal, c, space, h);
      } else {
        TowardLine(goal, c, space, h, LineStep(c, h, space));
      }
    }
  }

  /** One copy of _bf_append_data, of n bytes to the head of the input ring, keeps the history; all is what the
      ring held and got up to these bytes. */
  lemma ArrivalKeepsHistory(a: seq<byte>, b: seq<byte>, all: seq<byte>, more: seq<byte>)
    requires |a| <= |all| && |more| <= |a| && RingHolds(a, all, |all| - |a|, |all|)
    requires Written(a, b, Index(|all| - |a|, |a|), all + more, |all|, |more|)
    ensures RingHolds(b, all + more, |all + more| - |a|, |all + more|)
  {
    var from := |all| - |a|;
    ModShift(from, 1, |a|);
    RingMoreData(a, all, more, from, |all|);
    RingPart(a, all + more, from, |all|, from + |more|);
    RingWrite(a, b, all + more, from + |more|, |all|, |more|);
  }

  lemma Joined(a: seq<byte>, b: seq<byte>, c: seq<byte>)
    ensures a + (b + c) == a + b + c
  {
  }

  /** A ring that holds the last of past and input holds the input from pos on. */
  lemma HistoryHolds(a: seq<byte>, past: seq<byte>, input: seq<byte>, pos: nat)
    requires |past| == |a| > 0 && RingHolds(a, past + input, |input|, |past + input|) && |input| < pos + |a|
    ensures RingHolds(a, input, pos, |input|)
  {
    forall j | pos <= j < |input|
      ensures a[Index(j, |a|)] == input[j]
    {
      ModShift(j, 1, |a|);
      assert (past + input)[j + |a|] == input[j];
    }
  }

  lemma DropTwice(text: seq<byte>, m: nat, n: nat)
    requires m + n <= |text|
    ensures text[m..][n..] == text[m + n..]
  {
  }

  lemma AddDigit(out: nat, acc: nat, nibble: nat, left: nat)
    requires left > 0 && out == acc * Pow16(left)
    ensures out + nibble * Pow16(left - 1) == (16 * acc + nibble) * Pow16(left - 1)
  {
    var p := Pow16(left - 1);
    assert acc * (16 * p) == (16 * acc) * p;
  }
}
