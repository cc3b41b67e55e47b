/** Reads and writes of any alignment over a flash that only takes whole words, as in
    src/file-container-esp8266.c. The index into a memory array is its address; flash and memory are smaller
    than 2^32 - 512 bytes, so that no address computation wraps where the sizes are as they should be. */
module FlashIo {
  import opened Basics
  import opened Bytes
  import opened Memory
  import opened Ring

  const WORD := 4
  const TMP_BUF_SIZE := 512

  /** _align_prev */
  function AlignPrev(a: nat): (r: nat)
    ensures r <= a < r + WORD && r % WORD == 0
  {
    a - a % WORD
  }

  /** _align_next */
  function AlignNext(a: nat): (r: nat)
    ensures a <= r < a + WORD && r % WORD == 0
  {
    AlignPrev(a + (WORD - 1))
  }

  /** uint32 arithmetic */
  function U32(a: int): nat {
    a % 0x1_0000_0000
  }

  /** b is a except for the n bytes at index at. */
  ghost predicate Elsewhere(a: seq<byte>, b: seq<byte>, at: nat, n: nat) {
    |b| == |a| && at + n <= |a| && forall k :: 0 <= k < |a| && !(at <= k < at + n) ==> b[k] == a[k]
  }

  /** b holds data[pos..pos + n] at index at. */
  ghost predicate Matches(b: seq<byte>, at: nat, data: seq<byte>, pos: nat, n: nat) {
    at + n <= |b| && pos + n <= |data| && forall j :: at <= j < at + n ==> b[j] == data[pos + (j - at)]
  }

  /** a & b */
  function BitAnd(a: byte, b: byte): byte {
    AndAtMost(a, b);
    And(a, b)
  }

  lemma {:induction false} AndAtMost(a: int, mask: nat)
    ensures And(a, mask) <= mask
    decreases mask
  {
    if mask > 0 {
      AndAtMost(a / 2, mask / 2);
    }
  }

  /** b is a after writing data[pos..pos + n] to NOR flash at index at. */
  ghost predicate Cleared(a: seq<byte>, b: seq<byte>, at: nat, data: seq<byte>, pos: nat, n: nat) {
    && |b| == |a| && at + n <= |a| && pos + n <= |data|
    && forall k :: 0 <= k < |a| ==> b[k] == if at <= k < at + n then BitAnd(a[k], data[pos + (k - at)]) else a[k]
  }

  ghost predicate Erased(a: seq<byte>, at: nat, n: nat) {
    at + n <= |a| && forall k :: at <= k < at + n ==> a[k] == 255
  }

  /** Written where it was erased, the flash holds the data, and nothing else changed. */
  lemma ErasedTakesData(a: seq<byte>, b: seq<byte>, at: nat, data: seq<byte>, pos: nat, n: nat)
    requires Cleared(a, b, at, data, pos, n) && Erased(a, at, n)
    ensures Written(a, b, at, data, pos, n)
  {
    forall k | at <= k < at + n
      ensures b[k] == data[pos + (k - at)]
    {
      OnesAnd(data[pos + (k - at)]);
    }
  }

  lemma OnesAnd(v: byte)
    ensures BitAnd(255, v) == v
  {
    AllOnesAnd(8, v);
  }

  function Ones(k: nat): nat {
    if k == 0 then 0 else 1 + 2 * Ones(k - 1)
  }

  lemma {:induction false} AllOnesAnd(k: nat, v: nat)
    requires v <= Ones(k)
    ensures And(Ones(k), v) == v
  {
    if k > 0 && v > 0 {
      assert Ones(k) / 2 == Ones(k - 1);
      AllOnesAnd(k - 1, v / 2);
    }
  }

  // ---------- the read by way of flash_tmpbuf ----------

  /** b is a after reading n bytes, the last of which came out as v. */
  ghost predicate LastStale(a: seq<byte>, b: seq<byte>, at: nat, data: seq<byte>, pos: nat, n: nat, v: byte) {
    n > 0 && Elsewhere(a, b, at, n) && Matches(b, at, data, pos, n - 1) && b[at + n - 1] == v
  }

  /** What the last byte of a read comes out as when it is the first of its word: what flash_tmpbuf held at
      first, or, when it was filled more than once, the flash byte a whole buffer before. */
  function StaleByte(tmp: seq<byte>, flash: seq<byte>, src: nat, sz: nat): byte
    requires |tmp| == TMP_BUF_SIZE && 0 < sz && src + sz <= |flash|
  {
    if src % WORD + sz <= TMP_BUF_SIZE then tmp[src % WORD + sz - 1] else flash[src + sz - 1 - TMP_BUF_SIZE]
  }

  /** What a read by way of flash_tmpbuf comes to; tmp is what that held at first. */
  ghost predicate SlowResult(a: seq<byte>, b: seq<byte>, at: nat, flash: seq<byte>, src: nat, sz: nat, tmp: seq<byte>) {
    && |tmp| == TMP_BUF_SIZE && src + sz <= |flash|
    && if sz > 0 && (src + sz) % WORD == 1 then LastStale(a, b, at, flash, src, sz, StaleByte(tmp, flash, src, sz))
       else Written(a, b, at, flash, src, sz)
  }

  /** Between two rounds: buf is flash_tmpbuf, and holds the bytes before src + done, which is aligned. */
  ghost predicate Window(a: seq<byte>, b: seq<byte>, at: nat, flash: seq<byte>, src: nat, done: nat, tmp: seq<byte>,
                         buf: seq<byte>) {
    && Written(a, b, at, flash, src, done) && |tmp| == TMP_BUF_SIZE
    && if done == 0 then buf == tmp
       else (src + done) % WORD == 0 && src + done >= TMP_BUF_SIZE && src % WORD + done >= TMP_BUF_SIZE
            && Matches(buf, 0, flash, src + done - TMP_BUF_SIZE, TMP_BUF_SIZE)
  }

  /** After the rounds up to src + done. */
  ghost predicate ReadSoFar(a: seq<byte>, b: seq<byte>, at: nat, flash: seq<byte>, src: nat, done: nat, sz: nat,
                            tmp: seq<byte>, buf: seq<byte>) {
    && Elsewhere(a, b, at, sz)
    && if done == sz then SlowResult(a, b, at, flash, src, sz, tmp) else Window(a, b, at, flash, src, done, tmp, buf)
  }

  /** A read that ends one byte behind a word is right just when the stale byte happens to be the flash byte. */
  lemma SlowReadExactly(a: seq<byte>, b: seq<byte>, at: nat, flash: seq<byte>, src: nat, sz: nat, tmp: seq<byte>)
    requires SlowResult(a, b, at, flash, src, sz, tmp)
    ensures Written(a, b, at, flash, src, sz) <==>
      !(sz > 0 && (src + sz) % WORD == 1 && StaleByte(tmp, flash, src, sz) != flash[src + sz - 1])
  {
    if sz > 0 && (src + sz) % WORD == 1 && Written(a, b, at, flash, src, sz) {
      assert b[at + sz - 1] == flash[src + sz - 1];
    }
  }

  /** Reading four bytes from address 1 of a flash that holds its addresses, with zeros in flash_tmpbuf: the
      last byte comes out as 0, not 4. */
  lemma SlowReadWrong() returns (flash: seq<byte>, tmp: seq<byte>, b: seq<byte>)
    ensures SlowResult([9, 9, 9, 9], b, 0, flash, 1, 4, tmp) && b == [1, 2, 3, 0]
    ensures !Written([9, 9, 9, 9], b, 0, flash, 1, 4)
  {
    flash, tmp, b := [0, 1, 2, 3, 4, 5, 6, 7], seq(TMP_BUF_SIZE, _ => 0), [1, 2, 3, 0];
    SlowReadExactly([9, 9, 9, 9], b, 0, flash, 1, 4, tmp);
  }

  class FlashDevice {
    /** The flash, and flash_tmpbuf. */
    const flash: array<byte>
    const tmp: array<byte>

    /** Whether an access to the flash has failed. */
    ghost var failed: bool

    ghost predicate Valid() {
      flash.Length % WORD == 0 && tmp.Length == TMP_BUF_SIZE && flash != tmp
    }

    /** spi_flash_read: whole words between word addresses; it can fail. */
    method ReadWords(src: nat, dst: array<byte>, at: nat, size: nat) returns (ok: bool)
      requires src % WORD == 0 && at % WORD == 0 && size % WORD == 0
      requires src + size <= flash.Length && at + size <= dst.Length && dst != flash
      modifies dst, `failed
      ensures failed == (old(failed) || !ok)
      ensures ok ==> Written(old(dst[..]), dst[..], at, flash[..], src, size)
      ensures !ok ==> dst[..] == old(dst[..])
    {
      ok := *;
      failed := failed || !ok;
      if ok {
        Copy(dst, at, flash[src..src + size], flash[..], src);
      }
    }

    /** Some bytes of one word, by way of a word variable. */
    method ReadPart(word: nat, offset: nat, n: nat, dst: array<byte>, at: nat) returns (ok: bool)
      requires word % WORD == 0 && offset + n <= WORD && word + WORD <= flash.Length && at + n <= dst.Length
        && dst != flash
      modifies dst, `failed
      ensures failed == (old(failed) || !ok)
      ensures ok ==> Written(old(dst[..]), dst[..], at, flash[..], word + offset, n)
      ensures !ok ==> dst[..] == old(dst[..])
    {
      var v := new byte[WORD];
      ok := ReadWords(word, v, 0, WORD);
      if ok {
        Copy(dst, at, v[offset..offset + n], flash[..], word + offset);
      }
    }

    /** _aligned_flash_read */
    method AlignedFlashRead(dst: array<byte>, at: nat, src: nat, sz: nat) returns (ok: bool)
      requires Valid() && dst != flash && src % WORD == 0 && at % WORD == 0
      requires src + sz <= flash.Length && at + sz <= dst.Length
      modifies dst, `failed
      ensures failed == (old(failed) || !ok)
      ensures ok ==> Written(old(dst[..]), dst[..], at, flash[..], src, sz)
      ensures Elsewhere(old(dst[..]), dst[..], at, sz)
    {
      var alignedSz := AlignPrev(sz);
      ok := ReadWords(src, dst, at, alignedSz);
      if !ok || alignedSz == sz {
        return;
      }
      // A part of the last word is left
      ghost var first := dst[..];
      ok := ReadPart(src + alignedSz, 0, sz - alignedSz, dst, at + alignedSz);
      if ok {
        WrittenTwice(old(dst[..]), first, dst[..], at, flash[..], src, alignedSz, sz - alignedSz);
      }
    }

    /** _equally_unaligned_flash_read: source and destination are delta bytes before a word. */
    method EquallyUnalignedFlashRead(dst: array<byte>, at: nat, src: nat, sz: nat, delta: nat) returns (ok: bool)
      requires Valid() && dst != flash && 0 < delta < WORD && (src + delta) % WORD == 0 && (at + delta) % WORD == 0
      requires src + sz <= flash.Length && at + sz <= dst.Length
      requires sz >= delta
      modifies dst, `failed
      ensures failed == (old(failed) || !ok)
      ensures ok ==> Written(old(dst[..]), dst[..], at, flash[..], src, sz)
      ensures Elsewhere(old(dst[..]), dst[..], at, sz)
    {
      var alignedSrc, alignedDst := src + delta, at + delta;
      var alignedSz := AlignPrev(sz - delta);
      var endDelta := sz - (delta + alignedSz);
      WordSteps(alignedSrc, alignedSz, endDelta, flash.Length);
      ok := ReadWords(alignedSrc, dst, alignedDst, alignedSz);
      if !ok {
        return;
      }
      // The bytes before the first word boundary
      ghost var middle := dst[..];
      ok := ReadPart(alignedSrc - WORD, WORD - delta, delta, dst, at);
      if !ok {
        return;
      }
      ghost var front := dst[..];
      WrittenAround(old(dst[..]), middle, front, at, flash[..], src, delta, alignedSz);
      if endDelta == 0 {
        return;
      }
      // The bytes behind the last word boundary
      ok := ReadPart(alignedSrc + alignedSz, 0, endDelta, dst, alignedDst + alignedSz);
      if ok {
        WrittenTwice(old(dst[..]), front, dst[..], at, flash[..], src, delta + alignedSz, endDelta);
      }
    }

    /** The words around the bytes to read, in flash_tmpbuf; a last byte that is the first of its word is not
        among them. */
    method FillTmpBuf(src: nat, sz: nat) returns (ok: bool)
      requires Valid() && sz > 0 && src + sz <= flash.Length
      modifies tmp, `failed
      ensures failed == (old(failed) || !ok)
      ensures var offset, n := src % WORD, Min(sz, TMP_BUF_SIZE - src % WORD);
        ok ==> if n < sz || (src + sz) % WORD != 1 then Matches(tmp[..], offset, flash[..], src, n)
               else Matches(tmp[..], offset, flash[..], src, n - 1) && tmp[offset + n - 1] == old(tmp[offset + n - 1])
      ensures ok && src % WORD + sz > TMP_BUF_SIZE ==> Matches(tmp[..], 0, flash[..], AlignPrev(src), TMP_BUF_SIZE)
    {
      var alignedSrc := AlignPrev(src);
      var alignedSz := Min(TMP_BUF_SIZE, AlignNext(src + sz - 1) - alignedSrc);
      WindowSize(src, sz);
      ok := ReadWords(alignedSrc, tmp, 0, alignedSz);
    }

    /** _slow_flash_read: by way of flash_tmpbuf; how many bytes were read, or -1. Where the last byte is the
        first of its word, it comes out as what flash_tmpbuf held before. */
    method SlowFlashRead(src: nat, dst: array<byte>, at: nat, sz: nat) returns (n: int)
      requires Valid() && dst != flash && dst != tmp && sz > 0
      requires src + sz <= flash.Length && at + sz <= dst.Length
      modifies dst, tmp, `failed
      ensures failed == (old(failed) || n == -1)
      ensures n == -1 || n == Min(sz, TMP_BUF_SIZE - src % WORD)
      ensures n == -1 ==> dst[..] == old(dst[..])
      ensures n >= 0 && (n < sz || (src + sz) % WORD != 1) ==> Written(old(dst[..]), dst[..], at, flash[..], src, n)
      ensures n == sz && (src + sz) % WORD == 1 ==>
        LastStale(old(dst[..]), dst[..], at, flash[..], src, sz, old(tmp[src % WORD + sz - 1]))
      ensures 0 <= n < sz ==> Matches(tmp[..], 0, flash[..], AlignPrev(src), TMP_BUF_SIZE)
    {
      var ok := FillTmpBuf(src, sz);
      if !ok {
        return -1;
      }
      var offset := src - AlignPrev(src);
      n := Min(sz, TMP_BUF_SIZE - offset);
      ghost var buf := tmp[..];
      Copy(dst, at, tmp[offset..offset + n], buf, offset);
      if n < sz || (src + sz) % WORD != 1 {
        WrittenThrough(old(dst[..]), dst[..], at, buf, offset, flash[..], src, n);
      }
    }

    /** The loop of _flash_read. */
    method SlowReadLoop(src: nat, dst: array<byte>, at: nat, sz: nat) returns (ok: bool)
      requires Valid() && dst != flash && dst != tmp
      requires src + sz <= flash.Length && at + sz <= dst.Length
      modifies dst, tmp, `failed
      ensures failed == (old(failed) || !ok)
      ensures Elsewhere(old(dst[..]), dst[..], at, sz)
      ensures ok ==> SlowResult(old(dst[..]), dst[..], at, flash[..], src, sz, old(tmp[..]))
    {
      var done := 0;
      ghost var a, f, t := dst[..], flash[..], tmp[..];
      while done < sz
        invariant failed == old(failed) && 0 <= done <= sz && flash[..] == f
        invariant ReadSoFar(a, dst[..], at, f, src, done, sz, t, tmp[..])
      {
        ghost var before, buf := dst[..], tmp[..];
        var n := SlowFlashRead(src + done, dst, at + done, sz - done);
        if n < 0 {
          return false;
        }
        RoundRead(a, before, dst[..], at, f, src, done, sz, n, t, buf, tmp[..]);
        done := done + n;
      }
      ok := true;
    }

    /** _flash_read: exactly the bytes asked for, at every alignment, where the size covers the misalignment
        and the way over flash_tmpbuf does not end one byte behind a word. Where it does, all other bytes are
        right, and the last is what StaleByte says. */
    method FlashRead(src: nat, dst: array<byte>, at: nat, sz: nat) returns (ok: bool)
      requires Valid() && dst != flash && dst != tmp
      requires src + sz <= flash.Length && at + sz <= dst.Length
      requires src % WORD == at % WORD ==> sz >= AlignNext(src) - src
      modifies dst, tmp, `failed
      ensures failed == (old(failed) || !ok)
      ensures Elsewhere(old(dst[..]), dst[..], at, sz)
      ensures ok && (src % WORD == at % WORD || (src + sz) % WORD != 1) ==>
        Written(old(dst[..]), dst[..], at, flash[..], src, sz)
      ensures ok && sz > 0 && src % WORD != at % WORD && (src + sz) % WORD == 1 ==>
        LastStale(old(dst[..]), dst[..], at, flash[..], src, sz, StaleByte(old(tmp[..]), flash[..], src, sz))
    {
      var srcDelta, dstDelta := AlignNext(src) - src, AlignNext(at) - at;
      SameDelta(src, at);
      if dstDelta == 0 && srcDelta == 0 {
        ok := AlignedFlashRead(dst, at, src, sz);
      } else if dstDelta == srcDelta {
        ok := EquallyUnalignedFlashRead(dst, at, src, sz, srcDelta);
      } else {
        ok := SlowReadLoop(src, dst, at, sz);
      }
    }

    /** spi_flash_write on NOR flash: a write can only clear bits; it can fail. */
    method WriteWords(dst: nat, src: array<byte>, at: nat, size: nat) returns (ok: bool)
      requires dst % WORD == 0 && at % WORD == 0 && size % WORD == 0
      requires dst + size <= flash.Length && at + size <= src.Length && src != flash
      modifies flash, `failed
      ensures failed == (old(failed) || !ok)
      ensures ok ==> Cleared(old(flash[..]), flash[..], dst, src[..], at, size)
      ensures !ok ==> flash[..] == old(flash[..])
    {
      ok := *;
      failed := failed || !ok;
      if ok {
        var i := 0;
        while i < size
          invariant 0 <= i <= size && src[..] == old(src[..]) && failed == old(failed)
          invariant Cleared(old(flash[..]), flash[..], dst, src[..], at, i)
        {
          flash[dst + i] := BitAnd(flash[dst + i], src[at + i]);
          i := i + 1;
        }
      }
    }

    /** Replaces some bytes of one word: the word is read into flash_tmpbuf, changed there and written back. */
    method WritePart(word: nat, offset: nat, n: nat, src: array<byte>, at: nat) returns (ok: bool)
      requires Valid() && src != flash && src != tmp
      requires word % WORD == 0 && offset + n <= WORD && word + WORD <= flash.Length && at + n <= src.Length
      modifies flash, tmp, `failed
      ensures failed == (old(failed) || !ok)
      ensures ok ==> Cleared(old(flash[..]), flash[..], word + offset, src[..], at, n)
    {
      ghost var before := flash[..];
      ok := ReadWords(word, tmp, 0, WORD);
      if !ok {
        return;
      }
      ghost var copy := tmp[..];
      Copy(tmp, offset, src[at..at + n], src[..], at);
      ghost var buf := tmp[..];
      ok := WriteWords(word, tmp, 0, WORD);
      if ok {
        PartCleared(before, flash[..], word, copy, buf, offset, n, src[..], at);
      }
    }

    /** Whole words, by way of flash_tmpbuf. */
    method WriteMiddle(dst: nat, size: nat, src: array<byte>, at: nat) returns (ok: bool)
      requires Valid() && src != flash && src != tmp && dst % WORD == 0 && size % WORD == 0
      requires size <= TMP_BUF_SIZE && dst + size <= flash.Length && at + size <= src.Length
      modifies flash, tmp, `failed
      ensures failed == (old(failed) || !ok)
      ensures ok ==> Cleared(old(flash[..]), flash[..], dst, src[..], at, size)
    {
      Copy(tmp, 0, src[at..at + size], src[..], at);
      ghost var before, buf := flash[..], tmp[..];
      ok := WriteWords(dst, tmp, 0, size);
      if ok {
        ClearedThrough(before, flash[..], dst, buf, 0, src[..], at, size);
      }
    }

    /** The first two writes of _slow_flash_write: size bytes of words, and start bytes before them. */
    method WriteFront(dst: nat, src: array<byte>, at: nat, start: nat, size: nat) returns (ok: bool)
      requires Valid() && src != flash && src != tmp && start < WORD && size <= TMP_BUF_SIZE
      requires (dst + start) % WORD == 0 && size % WORD == 0 && (start > 0 ==> dst + start >= WORD)
      requires dst + start + size <= flash.Length && at + start + size <= src.Length
      modifies flash, tmp, `failed
      ensures failed == (old(failed) || !ok)
      ensures ok ==> Cleared(old(flash[..]), flash[..], dst, src[..], at, start + size)
    {
      ghost var before := flash[..];
      ok := WriteMiddle(dst + start, size, src, at + start);
      if !ok || start == 0 {
        return;
      }
      ghost var middle := flash[..];
      ok := WritePart(dst + start - WORD, WORD - start, start, src, at);
      if ok {
        ClearedAround(before, middle, flash[..], dst, src[..], at, start, size);
      }
    }

    /** The three writes of _slow_flash_write: start bytes before a word, size bytes of words, and the rest. */
    method WriteParts(dst: nat, src: array<byte>, at: nat, start: nat, size: nat, rest: nat) returns (ok: bool)
      requires Valid() && src != flash && src != tmp && start < WORD && rest < WORD && size <= TMP_BUF_SIZE
      requires (dst + start) % WORD == 0 && size % WORD == 0 && (start > 0 ==> dst + start >= WORD)
      requires dst + start + size + (if rest > 0 then WORD else 0) <= flash.Length
        && at + start + size + rest <= src.Length
      modifies flash, tmp, `failed
      ensures failed == (old(failed) || !ok)
      ensures ok ==> Cleared(old(flash[..]), flash[..], dst, src[..], at, start + size + rest)
    {
      ghost var before := flash[..];
      ok := WriteFront(dst, src, at, start, size);
      if !ok || rest == 0 {
        return;
      }
      ghost var front := flash[..];
      ok := WritePart(dst + start + size, 0, rest, src, at + start + size);
      if ok {
        ClearedTwice(before, front, flash[..], dst, src[..], at, start + size, rest);
      }
    }

    /** _slow_flash_write: how many bytes were written, or -1. */
    method SlowFlashWrite(dst: nat, src: array<byte>, at: nat, size: nat) returns (n: int)
      requires Valid() && src != flash && src != tmp && size > 0
      requires dst + size <= flash.Length && at + size <= src.Length
      requires SizeCovers(dst, Min(size, TMP_BUF_SIZE))
      modifies flash, tmp, `failed
      ensures failed == (old(failed) || n == -1)
      ensures n == -1 || n == Min(size, TMP_BUF_SIZE)
      ensures n >= 0 ==> Cleared(old(flash[..]), flash[..], dst, src[..], at, n)
    {
      var sz := Min(size, TMP_BUF_SIZE);
      var alignedDst, alignedSz: int := AlignNext(dst), AlignPrev(sz);
      var alignedEnd, startDelta, end := alignedDst + alignedSz - 1, alignedDst - dst, dst + sz - 1;
      if alignedEnd > end {
        alignedSz := alignedSz - WORD;
        alignedEnd := alignedEnd - WORD;
      }
      SlowSizes(dst, sz, flash.Length);
      var ok := WriteParts(dst, src, at, startDelta, alignedSz, end - alignedEnd);
      n := if ok then sz else -1;
    }

    /** _aligned_flash_write */
    method AlignedFlashWrite(dst: nat, src: array<byte>, at: nat, sz: nat) returns (ok: bool)
      requires Valid() && src != flash && src != tmp && dst % WORD == 0 && at % WORD == 0
      requires dst + sz <= flash.Length && at + sz <= src.Length
      modifies flash, tmp, `failed
      ensures failed == (old(failed) || !ok)
      ensures ok ==> Cleared(old(flash[..]), flash[..], dst, src[..], at, sz)
    {
      var alignedSz := AlignPrev(sz);
      ok := WriteWords(dst, src, at, alignedSz);
      if !ok || alignedSz == sz {
        return;
      }
      // A part of the last word is left
      ghost var first := flash[..];
      WordSteps(dst + WORD, alignedSz, sz - alignedSz, flash.Length + WORD);
      ok := WritePart(dst + alignedSz, 0, sz - alignedSz, src, at + alignedSz);
      if ok {
        ClearedTwice(old(flash[..]), first, flash[..], dst, src[..], at, alignedSz, sz - alignedSz);
      }
    }

    /** The loop of _flash_write. */
    method SlowWriteLoop(dst: nat, src: array<byte>, at: nat, sz: nat) returns (ok: bool)
      requires Valid() && src != flash && src != tmp && dst > 0
      requires dst + sz <= flash.Length && at + sz <= src.Length && TailCovers(dst, sz)
      modifies flash, tmp, `failed
      ensures failed == (old(failed) || !ok)
      ensures ok ==> Cleared(old(flash[..]), flash[..], dst, src[..], at, sz)
    {
      var done := 0;
      while done < sz
        invariant failed == old(failed) && src[..] == old(src[..])
        invariant 0 <= done <= sz && (done == sz || done % TMP_BUF_SIZE == 0)
        invariant Cleared(old(flash[..]), flash[..], dst, src[..], at, done)
      {
        ghost var before := flash[..];
        NextCovers(dst, sz, done);
        var n := SlowFlashWrite(dst + done, src, at + done, sz - done);
        if n < 0 {
          return false;
        }
        ClearedTwice(old(flash[..]), before, flash[..], dst, src[..], at, done, n);
        done := done + n;
      }
      ok := true;
    }

    /** _flash_write, but for equal misalignment of source and destination. */
    method FlashWrite(dst: nat, src: array<byte>, at: nat, sz: nat) returns (ok: bool)
      requires Valid() && src != flash && src != tmp && dst > 0
      requires dst + sz <= flash.Length && at + sz <= src.Length
      requires if dst % WORD == at % WORD then dst % WORD == 0 else TailCovers(dst, sz)
      modifies flash, tmp, `failed
      ensures failed == (old(failed) || !ok)
      ensures ok ==> Cleared(old(flash[..]), flash[..], dst, src[..], at, sz)
      ensures ok && Erased(old(flash[..]), dst, sz) ==> Written(old(flash[..]), flash[..], dst, src[..], at, sz)
    {
      var srcDelta, dstDelta := AlignNext(at) - at, AlignNext(dst) - dst;
      SameDelta(dst, at);
      if srcDelta == 0 && dstDelta == 0 {
        ok := AlignedFlashWrite(dst, src, at, sz);
      } else {
        ok := SlowWriteLoop(dst, src, at, sz);
      }
      if ok && sz <= flash.Length && Erased(old(flash[..]), dst, sz) {
        ErasedTakesData(old(flash[..]), flash[..], dst, src[..], at, sz);
      }
    }
  }

  lemma SameDelta(a: nat, b: nat)
    ensures AlignNext(a) - a == AlignNext(b) - b <==> a % WORD == b % WORD
    ensures (AlignNext(a) == a <==> a % WORD == 0) && AlignNext(a) - a < WORD
  {
  }

  /** The size covers the way to the first word boundary (and at address 0, a whole word). */
  predicate SizeCovers(dst: nat, sz: nat) {
    sz >= AlignNext(dst) - dst && (dst == 0 ==> sz >= WORD)
  }

  /** The bytes left for the last round of the loop cover the way to a word boundary. */
  predicate TailCovers(dst: nat, sz: nat) {
    var tail := sz % TMP_BUF_SIZE;
    tail == 0 || tail >= AlignNext(dst) - dst
  }

  lemma NextCovers(dst: nat, sz: nat, done: nat)
    requires dst > 0 && done < sz && done % TMP_BUF_SIZE == 0 && TailCovers(dst, sz)
    ensures SizeCovers(dst + done, Min(sz - done, TMP_BUF_SIZE))
    ensures sz - done > TMP_BUF_SIZE ==> (done + TMP_BUF_SIZE) % TMP_BUF_SIZE == 0
  {
  }

  /** The sizes _slow_flash_write computes, in uint32 arithmetic; None where it gives up. */
  function SlowSizes32(dst: nat, sz: nat): Option<nat> {
    var end, size := U32(dst + sz - 1), AlignPrev(sz);
    var alignedEnd := U32(AlignNext(dst) + size - 1);
    var size' := if alignedEnd > end then U32(size - WORD) else size;
    var alignedEnd' := if alignedEnd > end then U32(alignedEnd - WORD) else alignedEnd;
    if alignedEnd' > end || U32(end - alignedEnd') >= WORD then None else Some(size')
  }

  lemma AlignNextAt(q: nat, m: nat)
    requires m < WORD
    ensures AlignPrev(WORD * q + m) == WORD * q
    ensures AlignNext(WORD * q + m) == if m == 0 then WORD * q else WORD * (q + 1)
  {
  }

  /** The number of bytes that _slow_flash_write copies is right exactly when the size covers the way to the first
      word boundary. Otherwise it wraps around; behind the first word of the flash, the two checks do not notice. */
  lemma SlowSizesExactly(dst: nat, sz: nat)
    requires dst < 0x1_0000_0000 - 2 * TMP_BUF_SIZE && 0 < sz <= TMP_BUF_SIZE
    ensures SlowSizes32(dst, sz).Some? && SlowSizes32(dst, sz).value <= sz <==> SizeCovers(dst, sz)
    ensures dst >= WORD ==> SlowSizes32(dst, sz).Some?
  {
    var q, m, p, r := dst / WORD, dst % WORD, sz / WORD, sz % WORD;
    AlignNextAt(q, m);
    AlignNextAt(p, r);
    if dst > WORD {
      SlowSizesFrom(dst, sz, AlignNext(dst) - dst, WORD * p);
    } else {
      SlowSizesLow(dst, sz, AlignNext(dst) - dst, WORD * p);
    }
  }

  /** The same with start bytes before the first boundary. */
  lemma SlowSizesFrom(dst: nat, sz: nat, start: nat, prev: nat)
    requires WORD < dst < 0x1_0000_0000 - 2 * TMP_BUF_SIZE && 0 < sz <= TMP_BUF_SIZE
    requires AlignNext(dst) == dst + start && start < WORD && AlignPrev(sz) == prev && prev <= sz < prev + WORD
    ensures SlowSizes32(dst, sz).Some?
    ensures SlowSizes32(dst, sz).value <= sz <==> sz >= start
  {
    assert U32(dst + sz - 1) == dst + sz - 1 && U32(dst + start + prev - 1) == dst + start + prev - 1;
    if start > sz - prev {
      assert U32(dst + start + prev - 1 - WORD) == dst + start + prev - 1 - WORD;
      assert prev == 0 ==> U32(prev - WORD) == 0x1_0000_0000 - WORD;
    }
  }

  /** In the first word of the flash, or at its end. */
  lemma SlowSizesLow(dst: nat, sz: nat, start: nat, prev: nat)
    requires dst <= WORD && 0 < sz <= TMP_BUF_SIZE
    requires AlignNext(dst) == dst + start && start < WORD && AlignPrev(sz) == prev && prev <= sz < prev + WORD
    requires prev % WORD == 0 && (dst + start) % WORD == 0
    ensures SlowSizes32(dst, sz).Some? && SlowSizes32(dst, sz).value <= sz <==> SizeCovers(dst, sz)
    ensures dst == WORD ==> SlowSizes32(dst, sz).Some?
  {
    assert U32(dst + sz - 1) == dst + sz - 1;
    if dst == 0 {
      SlowSizesAtZero(sz, prev);
    } else {
      SlowSizesInFirst(dst, sz, start, prev);
    }
  }

  lemma SlowSizesAtZero(sz: nat, prev: nat)
    requires 0 < sz <= TMP_BUF_SIZE && AlignNext(0) == 0 && AlignPrev(sz) == prev && prev <= sz < prev + WORD
    requires prev % WORD == 0
    ensures SlowSizes32(0, sz).Some? && SlowSizes32(0, sz).value <= sz <==> sz >= WORD
  {
    if prev == 0 {
      assert U32(-1) == 0xffff_ffff && U32(0xffff_ffff - WORD) == 0xffff_ffff - WORD;
    } else {
      assert U32(prev - 1) == prev - 1 && U32(sz - 1) == sz - 1;
    }
  }

  lemma SlowSizesInFirst(dst: nat, sz: nat, start: nat, prev: nat)
    requires 0 < dst <= WORD && 0 < sz <= TMP_BUF_SIZE && AlignNext(dst) == dst + start == WORD
    requires AlignPrev(sz) == prev && prev <= sz < prev + WORD && prev % WORD == 0
    ensures SlowSizes32(dst, sz).Some? && SlowSizes32(dst, sz).value <= sz <==> sz >= start
    ensures dst == WORD ==> SlowSizes32(dst, sz).Some?
  {
    assert U32(dst + sz - 1) == dst + sz - 1 && U32(WORD + prev - 1) == WORD + prev - 1;
    if prev == 0 {
      assert U32(WORD - 1 - WORD) == 0xffff_ffff;
    } else {
      assert U32(prev - WORD) == prev - WORD && U32(prev - 1) == prev - 1;
    }
  }

  /** One byte at address 5 is such a size. */
  lemma SlowSizeWraps()
    ensures SlowSizes32(5, 1) == Some(0xffff_fffc) && !SizeCovers(5, 1)
  {
    AlignNextAt(1, 1);
    AlignNextAt(0, 1);
  }

  lemma SlowSizes(dst: nat, sz: nat, limit: nat)
    requires 0 < sz <= TMP_BUF_SIZE && SizeCovers(dst, sz) && limit % WORD == 0 && dst + sz <= limit
    ensures var start, prev := AlignNext(dst) - dst, AlignPrev(sz);
      var size: int := if start + prev > sz then prev - WORD else prev;
      && 0 <= size && size % WORD == 0 && start + size <= sz < start + size + WORD
      && (dst + start + size) % WORD == 0 && (start > 0 ==> dst + start >= WORD)
      && (start + size < sz ==> dst + start + size + WORD <= limit)
  {
  }

  /** The last round reads a byte that flash_tmpbuf holds since the round before. */
  lemma LastWindow(a: seq<byte>, b: seq<byte>, c: seq<byte>, at: nat, flash: seq<byte>, src: nat, done: nat, sz: nat,
                   tmp: seq<byte>, buf: seq<byte>)
    requires Window(a, b, at, flash, src, done, tmp, buf) && |buf| == TMP_BUF_SIZE && done < sz && src + sz <= |flash|
    requires (src + sz) % WORD == 1 && (src + done) % WORD + (sz - done) <= TMP_BUF_SIZE
    requires LastStale(b, c, at + done, flash, src + done, sz - done, buf[(src + done) % WORD + (sz - done) - 1])
    ensures SlowResult(a, c, at, flash, src, sz, tmp)
  {
    if done > 0 {
      assert buf[sz - done - 1] == flash[src + done - TMP_BUF_SIZE + (sz - done - 1)];
    }
  }

  /** One round of the loop; buf and buf' are flash_tmpbuf before and after it. */
  lemma RoundRead(a: seq<byte>, b: seq<byte>, c: seq<byte>, at: nat, flash: seq<byte>, src: nat, done: nat, sz: nat,
                  n: nat,
                  tmp: seq<byte>, buf: seq<byte>, buf': seq<byte>)
    requires Window(a, b, at, flash, src, done, tmp, buf) && |buf| == TMP_BUF_SIZE && done < sz && src + sz <= |flash|
    requires at + sz <= |a| && n == Min(sz - done, TMP_BUF_SIZE - (src + done) % WORD)
    requires if n == sz - done && (src + sz) % WORD == 1
             then LastStale(b, c, at + done, flash, src + done, n, buf[(src + done) % WORD + n - 1])
             else Written(b, c, at + done, flash, src + done, n)
    requires n < sz - done ==> Matches(buf', 0, flash, AlignPrev(src + done), TMP_BUF_SIZE)
    ensures if done + n == sz then SlowResult(a, c, at, flash, src, sz, tmp)
            else Window(a, c, at, flash, src, done + n, tmp, buf')
    ensures Elsewhere(a, c, at, sz)
  {
    if n == sz - done && (src + sz) % WORD == 1 {
      LastWindow(a, b, c, at, flash, src, done, sz, tmp, buf);
    } else {
      WrittenTwice(a, b, c, at, flash, src, done, n);
    }
  }

  lemma ClearedThrough(a: seq<byte>, b: seq<byte>, at: nat, buf: seq<byte>, offset: nat, data: seq<byte>, pos: nat,
                       n: nat)
    requires Cleared(a, b, at, buf, offset, n) && Matches(buf, offset, data, pos, n)
    ensures Cleared(a, b, at, data, pos, n)
  {
  }

  lemma ClearedTwice(a: seq<byte>, b: seq<byte>, c: seq<byte>, at: nat, data: seq<byte>, pos: nat, m: nat, n: nat)
    requires Cleared(a, b, at, data, pos, m) && Cleared(b, c, at + m, data, pos + m, n)
    ensures Cleared(a, c, at, data, pos, m + n)
  {
  }

  lemma ClearedAround(a: seq<byte>, b: seq<byte>, c: seq<byte>, at: nat, data: seq<byte>, pos: nat, m: nat, n: nat)
    requires Cleared(a, b, at + m, data, pos + m, n) && Cleared(b, c, at, data, pos, m)
    ensures Cleared(a, c, at, data, pos, m + n)
  {
  }

  /** Writing a word back clears nothing where it was not changed. */
  lemma PartCleared(a: seq<byte>, b: seq<byte>, word: nat, copy: seq<byte>, buf: seq<byte>, offset: nat, n: nat,
                    data: seq<byte>, pos: nat)
    requires Matches(copy, 0, a, word, WORD) && Written(copy, buf, offset, data, pos, n) && offset + n <= WORD
    requires Cleared(a, b, word, buf, 0, WORD)
    ensures Cleared(a, b, word + offset, data, pos, n)
  {
    forall k | word <= k < word + WORD
      ensures b[k] == if word + offset <= k < word + offset + n
        then BitAnd(a[k], data[pos + (k - word - offset)]) else a[k]
    {
      AndSelf(a[k]);
    }
  }

  lemma WordSteps(a: nat, size: nat, rest: nat, limit: nat)
    requires a % WORD == 0 && size % WORD == 0 && limit % WORD == 0 && a + size + rest <= limit && 0 < a
    ensures a >= WORD && (a - WORD) % WORD == 0 && (a + size) % WORD == 0
    ensures rest > 0 ==> a + size + WORD <= limit
  {
  }

  /** The window over flash_tmpbuf. */
  lemma WindowSize(src: nat, sz: nat)
    requires sz > 0
    ensures var offset, size := src % WORD, AlignNext(src + sz - 1) - AlignPrev(src);
      && AlignPrev(src) == src - offset && size % WORD == 0
      && (if (src + sz) % WORD == 1 then size == offset + sz - 1 else offset + sz <= size < offset + sz + WORD)
      && (offset + sz > TMP_BUF_SIZE ==> size >= TMP_BUF_SIZE)
  {
  }

  lemma WrittenThrough(a: seq<byte>, b: seq<byte>, at: nat, buf: seq<byte>, offset: nat, data: seq<byte>, pos: nat,
                       n: nat)
    requires Written(a, b, at, buf, offset, n) && Matches(buf, offset, data, pos, n)
    ensures Written(a, b, at, data, pos, n)
  {
  }

  /** The second piece was written first. */
  lemma WrittenAround(a: seq<byte>, b: seq<byte>, c: seq<byte>, at: nat, data: seq<byte>, pos: nat, m: nat, n: nat)
    requires Written(a, b, at + m, data, pos + m, n) && Written(b, c, at, data, pos, m)
    ensures Written(a, c, at, data, pos, m + n)
  {
  }

  /** Where the size is below the misalignment, the number of bytes to read wraps around. */
  lemma AlignedSizeFitsExactly(sz: nat, delta: nat)
    requires sz < 0x1_0000_0000 - WORD && delta < WORD
    ensures AlignPrev(U32(sz - delta)) <= sz <==> sz >= delta
  {
  }

  /** One byte to read, one byte behind a word boundary, is such a size. */
  lemma AlignedSizeWraps()
    ensures AlignNext(5) - 5 == 3 && AlignPrev(U32(1 - 3)) == 0xffff_fffc
  {
    AlignNextAt(1, 1);
    AlignNextAt(0x3fff_ffff, 2);
    assert U32(-2) == 0xffff_fffe;
  }

  /** The words read over flash_tmpbuf reach the last byte exactly where it is not the first of its word. */
  lemma SlowWindowExactly(src: nat, sz: nat)
    requires sz > 0
    ensures AlignNext(src + sz - 1) >= src + sz <==> (src + sz) % WORD != 1
  {
  }
}
