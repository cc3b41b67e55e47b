/** Two hexadecimal digits at a time become a byte of the decoded ring, as _decode_hex of
    src/binary-format-ihex.c writes them. */
module IhexDigits {
  import opened Bytes
  import opened Ring
  import opened BinaryFile
  import opened IntelHex

  /** The byte of two digits. */
  function HexByte(a: byte, b: byte): byte {
    if Nibble(a) >= 0 && Nibble(b) >= 0 then 16 * Nibble(a) + Nibble(b) else 0
  }

  /** The bytes of the first pairs of digits. */
  predicate Pairs(bytes: seq<byte>, digits: seq<byte>) {
    2 * |bytes| <= |digits| &&
    forall m {:trigger bytes[m]} :: 0 <= m < |bytes| ==> bytes[m] == HexByte(digits[2 * m], digits[2 * m + 1])
  }

  lemma PairsFront(rest: seq<byte>, digits: seq<byte>, b: byte)
    requires |digits| >= 2 && Pairs(rest, digits[2..]) && b == HexByte(digits[0], digits[1])
    ensures Pairs([b] + rest, digits)
  {
    var bytes := [b] + rest;
    forall m {:trigger bytes[m]} | 0 < m < |bytes|
      ensures bytes[m] == HexByte(digits[2 * m], digits[2 * m + 1])
    {
      assert bytes[m] == rest[m - 1];
    }
  }

  lemma {:induction false} HexBytesPairs(digits: seq<byte>)
    requires AllHex(digits) && |digits| % 2 == 0
    ensures Pairs(HexBytes(digits), digits)
    decreases |digits|
  {
    if digits != [] {
      HexBytesPairs(digits[2..]);
      PairsFront(HexBytes(digits[2..]), digits, HexByte(digits[0], digits[1]));
    }
  }

  lemma PairsUnique(x: seq<byte>, y: seq<byte>, digits: seq<byte>)
    requires Pairs(x, digits) && Pairs(y, digits) && |x| == |y|
    ensures x == y
  {
    forall m | 0 <= m < |x|
      ensures x[m] == y[m]
    {
    }
  }

  /** The ring a holds what was decoded from position from on, and behind it the bytes of the first k digits; at
      is the next index to write. */
  ghost predicate Put(a: seq<byte>, decoded: seq<byte>, from: nat, digits: seq<byte>, k: nat, bytes: seq<byte>,
                      at: nat) {
    && k <= |digits| && (forall j :: 0 <= j < k ==> Nibble(digits[j]) >= 0) && |bytes| == k / 2 && Pairs(bytes, digits)
    && PowerOfTwo(|a|) && from <= |decoded| && |digits| % 2 == 0 && |decoded| + |digits| / 2 < from + |a|
    && at == Index(|decoded + bytes|, |a|) && RingHolds(a, decoded + bytes, from, |decoded + bytes|)
    && (k % 2 == 1 ==> a[at] == 16 * Nibble(digits[k - 1]))
  }

  lemma PutSlot(a: seq<byte>, data: seq<byte>, from: nat, b: byte)
    requires RingHolds(a, data, from, |data|) && from <= |data| < from + |a|
    ensures var a' := a[Index(|data|, |a|) := b];
      RingHolds(a', data, from, |data|) && RingHolds(a', data + [b], from, |data| + 1)
  {
    forall j | from <= j < |data|
      ensures Index(j, |a|) != Index(|data|, |a|)
    {
      SlotsDistinct(j, |data|, |a|);
    }
  }

  /** The high digit opens a byte. */
  lemma PutHigh(a: seq<byte>, decoded: seq<byte>, from: nat, digits: seq<byte>, k: nat, bytes: seq<byte>, at: nat)
    requires Put(a, decoded, from, digits, k, bytes, at) && k < |digits| && k % 2 == 0 && Nibble(digits[k]) >= 0
    ensures at < |a| && Put(a[at := 16 * Nibble(digits[k])], decoded, from, digits, k + 1, bytes, at)
  {
    PutSlot(a, decoded + bytes, from, 16 * Nibble(digits[k]));
  }

  lemma PairsMore(bytes: seq<byte>, digits: seq<byte>, b: byte)
    requires Pairs(bytes, digits) && 2 * |bytes| + 1 < |digits|
    requires b == HexByte(digits[2 * |bytes|], digits[2 * |bytes| + 1])
    ensures Pairs(bytes + [b], digits)
  {
  }

  /** The low digit completes it. */
  lemma PutLow(a: seq<byte>, decoded: seq<byte>, from: nat, digits: seq<byte>, k: nat, bytes: seq<byte>, at: nat)
    requires Put(a, decoded, from, digits, k, bytes, at) && k < |digits| && k % 2 == 1 && Nibble(digits[k]) >= 0
    ensures at < |a| && a[at] + Nibble(digits[k]) < 256
    ensures var b := a[at] + Nibble(digits[k]);
      Put(a[at := b], decoded, from, digits, k + 1, bytes + [b], And(at + 1, |a| - 1))
  {
    var data, b := decoded + bytes, a[at] + Nibble(digits[k]);
    PutSlot(a, data, from, b);
    assert k - 1 == 2 * |bytes|;
    PairsMore(bytes, digits, b);
    assert decoded + (bytes + [b]) == data + [b];
    Advance(|data|, 1, |a|);
  }

  lemma PutStarts(a: seq<byte>, decoded: seq<byte>, from: nat, digits: seq<byte>)
    requires PowerOfTwo(|a|) && RingHolds(a, decoded, from, |decoded|) && from <= |decoded|
    requires |digits| % 2 == 0 && |decoded| + |digits| / 2 < from + |a|
    ensures Put(a, decoded, from, digits, 0, [], Index(|decoded|, |a|))
  {
    assert decoded + [] == decoded;
  }

  /** What was there before stays. */
  lemma PutKeeps(a: seq<byte>, decoded: seq<byte>, from: nat, digits: seq<byte>, k: nat, bytes: seq<byte>, at: nat)
    requires Put(a, decoded, from, digits, k, bytes, at)
    ensures RingHolds(a, decoded, from, |decoded|)
  {
    forall j | from <= j < |decoded|
      ensures a[Index(j, |a|)] == decoded[j]
    {
      assert (decoded + bytes)[j] == decoded[j];
    }
  }

  lemma PutEnds(a: seq<byte>, decoded: seq<byte>, from: nat, digits: seq<byte>, bytes: seq<byte>, at: nat)
    requires Put(a, decoded, from, digits, |digits|, bytes, at)
    ensures AllHex(digits) && Pairs(bytes, digits) && 2 * |bytes| == |digits|
    ensures at == Index(|decoded + bytes|, |a|) && RingHolds(a, decoded + bytes, from, |decoded + bytes|)
  {
  }

  /** What decoding the digits of a data line comes to: more is decoded, unless there is no room, or an error,
      or nothing to decode. */
  ghost predicate DataRead(digits: seq<byte>, room: int, stat: int, before: seq<byte>, after: seq<byte>,
                           more: seq<byte>) {
    && after == before + more
    && if 2 * room < |digits| then stat == 0 && more == []
       else if !AllHex(digits) then stat == -1 && more == []
       else if digits == [] then stat == 0 && more == []
       else stat == |digits| + 2 && Pairs(more, digits) && 2 * |more| == |digits|
  }

  /** How a data line ends, with its digits and bytes. */
  ghost predicate DataIs(c: Chunk, h: Peek, space: nat, digits: seq<byte>, bytes: seq<byte>, r: Ending)
    requires h.Line? && h.length + 2 * h.count + 2 <= |c.live|
  {
    && digits == c.live[h.length..h.length + 2 * h.count]
    && if space - |c.out| < h.count then r == Lost(c.(live := c.live[h.length..]))
       else if !AllHex(digits) then r == Fail
       else if h.count == 0 then r == Lost(c.(live := c.live[h.length..]))
       else && Pairs(bytes, digits) && 2 * |bytes| == |digits|
            && r == Stop(Chunk(c.live[h.length + (2 * h.count + 2)..], c.base, true, c.out + bytes,
                               if c.started then c.addr else Hi(c.base) + h.addr,
                               U32(Hi(c.base) + h.addr + h.count)), false)
  }

  lemma DataLineIs(c: Chunk, h: Peek, space: nat) returns (digits: seq<byte>, bytes: seq<byte>)
    requires h.Line? && h.length + 2 * h.count + 2 <= |c.live|
    ensures DataIs(c, h, space, digits, bytes, DataLine(c, h, space))
  {
    digits, bytes := c.live[h.length..h.length + 2 * h.count], [];
    assert h.length + 2 * h.count + 2 == h.length + (2 * h.count + 2);
    if AllHex(digits) {
      bytes := HexBytes(digits);
      HexBytesPairs(digits);
    }
  }
}
