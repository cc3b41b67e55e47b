/** The binary file object of src/binary-file.c: input ring, decoded ring and ring of write chunks, with the
    raw binary format of src/binary-format-bin.c. Every method is a step of the state machine FirmwarePipe. */
module BinaryFile {
  import opened Basics
  import opened Bytes
  import opened Memory
  import opened Ring
  import opened WriteChunks
  import opened FirmwarePipe

  // ---------- rings and streams ----------

  /** The ring holds the stream positions [from, to). */
  ghost predicate RingHolds(a: seq<byte>, data: seq<byte>, from: nat, to: nat) {
    && |a| > 0 && to <= |data|
    && forall j {:trigger data[j]} :: from <= j < to ==> a[Index(j, |a|)] == data[j]
  }

  lemma IndexRun(p: nat, k: nat, size: nat)
    requires size > 0 && Index(p, size) + k < size
    ensures Index(p + k, size) == Index(p, size) + k
  {
    IndexSum(p, k, size);
    SmallMod(Index(p, size) + k, size);
  }

  lemma SlotsDistinct(i: nat, j: nat, size: nat)
    requires i < j < i + size
    ensures Index(i, size) != Index(j, size)
  {
    if Index(i, size) == Index(j, size) {
      Difference(j, i, 0, size);
      SmallMod(j - i, size);
    }
  }

  lemma WrittenSlot(p: nat, j: nat, n: nat, size: nat)
    requires size > 0 && Index(p, size) + n <= size && j < p + n <= j + size
    ensures if p <= j then Index(j, size) == Index(p, size) + (j - p)
            else !(Index(p, size) <= Index(j, size) < Index(p, size) + n)
  {
    if p <= j {
      IndexRun(p, j - p, size);
    } else if Index(p, size) <= Index(j, size) < Index(p, size) + n {
      var k := Index(j, size) - Index(p, size);
      IndexRun(p, k, size);
      SlotsDistinct(j, p + k, size);
      assert false;
    }
  }

  /** Writing the next piece of the stream behind a live stretch keeps the stretch. */
  lemma RingWrite(a: seq<byte>, b: seq<byte>, data: seq<byte>, from: nat, p: nat, n: nat)
    requires RingHolds(a, data, from, p) && from <= p && p + n <= from + |a|
    requires Written(a, b, Index(p, |a|), data, p, n)
    ensures RingHolds(b, data, from, p + n)
  {
    forall j | from <= j < p + n
      ensures b[Index(j, |a|)] == data[j]
    {
      WrittenSlot(p, j, n, |a|);
    }
  }

  lemma RingRead(a: seq<byte>, data: seq<byte>, from: nat, to: nat, n: nat)
    requires RingHolds(a, data, from, to) && from + n <= to && Index(from, |a|) + n <= |a|
    ensures a[Index(from, |a|)..Index(from, |a|) + n] == data[from..from + n]
  {
    var i := Index(from, |a|);
    var piece := a[i..i + n];
    forall k | 0 <= k < n
      ensures piece[k] == data[from..from + n][k]
    {
      IndexRun(from, k, |a|);
      assert a[Index(from + k, |a|)] == data[from + k];
    }
  }

  lemma RingPart(a: seq<byte>, data: seq<byte>, from: nat, to: nat, from': nat)
    requires RingHolds(a, data, from, to) && from <= from'
    ensures RingHolds(a, data, from', to)
  {
  }

  lemma RingMoreData(a: seq<byte>, data: seq<byte>, more: seq<byte>, from: nat, to: nat)
    requires RingHolds(a, data, from, to)
    ensures RingHolds(a, data + more, from, to)
  {
  }

  // ---------- the ring of chunks ----------

  predicate Free(w: Chunk) {
    !w.pending && !w.writePending
  }

  /** The slot i places after that of the oldest chunk. */
  function Slot(a: seq<Chunk>, first: nat, i: nat): Chunk
    requires a != []
  {
    a[Index(first + i, |a|)]
  }

  /** The slots hold the chunks q, the oldest in the slot of first; all other slots are free. */
  ghost predicate ChunkRing(a: seq<Chunk>, first: nat, q: seq<Chunk>) {
    && |q| < |a|
    && (forall i :: 0 <= i < |q| ==> Slot(a, first, i) == q[i])
    && (forall i :: |q| <= i < |a| ==> Free(Slot(a, first, i)))
  }

  /** b is a with slot n changed to w. */
  ghost predicate SlotChanged(a: seq<Chunk>, b: seq<Chunk>, first: nat, n: nat, w: Chunk)
    requires a != []
  {
    && |b| == |a|
    && forall i :: 0 <= i < |a| ==> Slot(b, first, i) == if i == n then w else Slot(a, first, i)
  }

  lemma ChangeSlot(a: seq<Chunk>, first: nat, n: nat, w: Chunk)
    requires n < |a|
    ensures SlotChanged(a, a[Index(first + n, |a|) := w], first, n, w)
  {
    var b := a[Index(first + n, |a|) := w];
    forall i | 0 <= i < |a|
      ensures Slot(b, first, i) == if i == n then w else Slot(a, first, i)
    {
      if i < n {
        SlotsDistinct(first + i, first + n, |a|);
      } else if n < i {
        SlotsDistinct(first + n, first + i, |a|);
      }
    }
  }

  lemma ChangeChunk(a: seq<Chunk>, b: seq<Chunk>, first: nat, q: seq<Chunk>, n: nat, w: Chunk)
    requires ChunkRing(a, first, q) && n < |q| && SlotChanged(a, b, first, n, w)
    ensures ChunkRing(b, first, q[n := w])
  {
  }

  lemma AddChunk(a: seq<Chunk>, b: seq<Chunk>, first: nat, q: seq<Chunk>, w: Chunk)
    requires ChunkRing(a, first, q) && |q| + 1 < |a| && SlotChanged(a, b, first, |q|, w)
    ensures ChunkRing(b, first, q + [w])
  {
  }

  lemma NextSlot(a: seq<Chunk>, first: nat, i: nat)
    requires i < |a|
    ensures Slot(a, first + 1, i) == if i + 1 < |a| then Slot(a, first, i + 1) else Slot(a, first, 0)
  {
    assert first + 1 + i == first + (i + 1);
    ModShift(first, 1, |a|);
  }

  lemma DropChunk(a: seq<Chunk>, b: seq<Chunk>, first: nat, q: seq<Chunk>, w: Chunk)
    requires ChunkRing(a, first, q) && q != [] && Free(w) && SlotChanged(a, b, first, 0, w)
    ensures ChunkRing(b, first + 1, q[1..])
  {
    var second := first + 1;
    forall i | 0 <= i < |a|
      ensures Slot(b, second, i) == if i + 1 < |q| then q[i + 1] else Slot(b, second, i)
      ensures i + 1 >= |q| ==> Free(Slot(b, second, i))
    {
      NextSlot(b, first, i);
    }
  }

  // ---------- struct dfu_binary_file ----------

  class DfuBinaryFile {
    const buf: array<byte>
    const decodedBuf: array<byte>
    const writeChunks: array<Chunk>
    const writeChunkSize: nat
    const ignoreAlignment: bool
    var head: nat
    var tail: nat
    var decodedHead: nat
    var decodedTail: nat
    var writeTail: nat
    var chunksHead: nat
    var chunksTail: nat
    var decodedChunkSize: nat
    var currAddr: nat
    var written: bool
    var reallyWritten: bool
    var flushing: bool
    /** The state in the terms of the pipeline, the chunks it has queued, and the number of chunks given
        back so far. */
    ghost var st: Pipe
    ghost var queue: seq<Chunk>
    ghost var first: nat

    ghost function Cfg(): Config {
      Config(buf.Length, decodedBuf.Length, writeChunkSize, writeChunks.Length, ignoreAlignment)
    }

    /** The two chunk indices, with n chunks between them. */
    ghost predicate ChunkIndices(n: nat)
      reads `first, `chunksHead, `chunksTail
    {
      && PowerOfTwo(writeChunks.Length) && n < writeChunks.Length
      && chunksTail == Index(first, writeChunks.Length)
      && chunksHead == Index(first + n, writeChunks.Length)
    }

    /** The chunk slots between the two indices are the queue. */
    ghost predicate Chunks()
      reads `queue, `first, `chunksHead, `chunksTail, writeChunks
    {
      && Cfg().Valid() && WellFormed(Cfg(), queue)
      && ChunkRing(writeChunks[..], first, queue)
      && ChunkIndices(|queue|)
    }

    /** The input ring holds the stream from position pos on. */
    ghost predicate Input(input: seq<byte>, pos: nat)
      reads `head, `tail, buf
    {
      && PowerOfTwo(buf.Length) && pos <= |input| < pos + buf.Length
      && RingHolds(buf[..], input, pos, |input|)
      && head == Index(|input|, buf.Length) && tail == Index(pos, buf.Length)
    }

    /** The decoded ring holds the stream from the acknowledged bytes up to position pos. */
    ghost predicate Decoded(input: seq<byte>, acked: nat, pos: nat)
      reads `decodedHead, `decodedTail, decodedBuf
    {
      && PowerOfTwo(decodedBuf.Length) && acked <= pos < acked + decodedBuf.Length
      && RingHolds(decodedBuf[..], input, acked, pos)
      && decodedHead == Index(pos, decodedBuf.Length) && decodedTail == Index(acked, decodedBuf.Length)
    }

    ghost predicate Flags(p: Pipe)
      reads `written, `reallyWritten, `flushing, `decodedChunkSize
    {
      && written == p.written && reallyWritten == p.reallyWritten && flushing == p.flushing
      && decodedChunkSize == p.estimate
    }

    /** The fields represent the state p. */
    ghost predicate Holds(p: Pipe)
      reads `head, `tail, `decodedHead, `decodedTail, `writeTail, `currAddr, buf, decodedBuf
      reads `queue, `first, `chunksHead, `chunksTail, writeChunks
      reads `written, `reallyWritten, `flushing, `decodedChunkSize
    {
      match p
      case Pipe(input, taken, acked, q, _, _, _, _, _, _) =>
        && buf != decodedBuf && Chunks() && Flags(p) && queue == q
        && Input(input, taken) && Decoded(input, acked, taken)
        && writeTail == decodedHead && currAddr == taken
    }

    ghost predicate Valid()
      reads this, buf, decodedBuf, writeChunks
    {
      Holds(st)
    }

    /** _bf_init, for a target that asks for chunks of cs bytes; the estimate of the decoded chunk size is
        left as it was. */
    constructor (inputSize: nat, dbSize: nat, cs: nat, slots: nat, ignore: bool, estimate: nat)
      requires PowerOfTwo(inputSize) && PowerOfTwo(dbSize) && PowerOfTwo(cs) && cs <= dbSize
      requires PowerOfTwo(slots) && slots > 1
      ensures Valid() && st == Fresh(estimate)
      ensures Cfg() == Config(inputSize, dbSize, cs, slots, ignore)
    {
      RoundedSizeUsable(dbSize, cs);
      buf := new byte[inputSize];
      decodedBuf := new byte[RoundedSize(dbSize, cs)];
      writeChunks := new Chunk[slots](_ => Chunk(0, 0, 0, false, false));
      writeChunkSize, ignoreAlignment := cs, ignore;
      head, tail, decodedHead, decodedTail, writeTail := 0, 0, 0, 0, 0;
      chunksHead, chunksTail := 0, 0;
      decodedChunkSize, currAddr := estimate, 0;
      written, reallyWritten, flushing := false, false, false;
      st, queue, first := Fresh(estimate), [], 0;
      SmallMod(0, inputSize);
      SmallMod(0, dbSize);
      SmallMod(0, slots);
    }

    // ---------- chunks ----------

    /** bf_wc_count */
    method ChunkCount() returns (n: int)
      requires ChunkIndices(|queue|)
      ensures n == |queue|
    {
      CountMeans(first + |queue|, first, writeChunks.Length);
      n := Count(chunksHead, chunksTail, writeChunks.Length);
    }

    /** bf_get_write_chunk: the slot of a fresh chunk; None when all are taken. The slot still has to be
        filled in. */
    method GetWriteChunk() returns (slot: Option<nat>)
      requires ChunkIndices(|queue|)
      modifies `chunksHead
      ensures if |queue| == writeChunks.Length - 1 then slot == None && chunksHead == old(chunksHead)
              else slot == Some(Index(first + |queue|, writeChunks.Length)) && ChunkIndices(|queue| + 1)
    {
      ghost var h := first + |queue|;
      FreeSlotsAt(first, |queue|, h, writeChunks.Length);
      NextIndex(h, h + 1, writeChunks.Length);
      assert first + (|queue| + 1) == h + 1;
      if Space(chunksHead, chunksTail, writeChunks.Length) == 0 {
        return None;
      }
      slot := Some(chunksHead);
      chunksHead := chunksHead + 1;
      chunksHead := And(chunksHead, writeChunks.Length - 1);
    }

    /** Replaces chunk n of the queue by w. */
    method SetChunk(slot: nat, ghost n: nat, w: Chunk)
      requires Chunks() && n < |queue| && slot == Index(first + n, writeChunks.Length)
      requires WellFormed(Cfg(), queue[n := w])
      modifies writeChunks, `queue
      ensures Chunks() && queue == old(queue)[n := w]
    {
      ghost var a := writeChunks[..];
      writeChunks[slot] := w;
      ChangeSlot(a, first, n, w);
      assert writeChunks[..] == a[slot := w];
      ChangeChunk(a, writeChunks[..], first, queue, n, w);
      queue := queue[n := w];
    }

    /** Fills in the fresh slot got from GetWriteChunk. */
    method FillChunk(slot: nat, w: Chunk)
      requires Cfg().Valid() && ChunkRing(writeChunks[..], first, queue) && |queue| + 1 < writeChunks.Length
      requires ChunkIndices(|queue| + 1) && slot == Index(first + |queue|, writeChunks.Length)
      requires WellFormed(Cfg(), queue + [w])
      modifies writeChunks, `queue
      ensures Chunks() && queue == old(queue) + [w]
    {
      ghost var a := writeChunks[..];
      writeChunks[slot] := w;
      ChangeSlot(a, first, |queue|, w);
      assert writeChunks[..] == a[slot := w];
      AddChunk(a, writeChunks[..], first, queue, w);
      queue := queue + [w];
    }

    /** The slot of the last chunk before the head, when that chunk is pending. */
    method PendingSlot() returns (slot: Option<nat>)
      requires Chunks() && !ignoreAlignment
      ensures if LastPending(queue)
              then slot == Some(Index(first + (|queue| - 1), writeChunks.Length))
                && writeChunks[slot.value] == queue[|queue| - 1]
              else slot == None
    {
      var n := ChunkCount();
      if n == 0 {
        return None;
      }
      var w := chunksHead - 1;
      if w < 0 {
        w := writeChunks.Length - 1;
      }
      SlotBefore(first + |queue|, writeChunks.Length);
      assert Slot(writeChunks[..], first, |queue| - 1) == queue[|queue| - 1];
      if writeChunks[w].pending {
        return Some(w);
      }
      return None;
    }

    /** The loop state of the enqueue loop. */
    ghost function At(len: nat, addr: nat): Loop
      reads `queue, `writeTail
    {
      Loop(queue, writeTail, len, addr)
    }

    /** The pending chunk takes more bytes. */
    method GrowChunk(slot: nat, len: nat, addr: nat) returns (rest: nat)
      requires Chunks() && writeTail < decodedBuf.Length && len > 0 && LastPending(queue)
      requires slot == Index(first + (|queue| - 1), writeChunks.Length) && writeChunks[slot] == queue[|queue| - 1]
      requires addr == writeChunks[slot].addr + writeChunks[slot].len
      modifies writeChunks, `writeTail, `queue
      ensures Chunks() && rest < len
      ensures Round(Cfg(), old(At(len, addr))) == Some(At(rest, addr + (len - rest)))
    {
      ghost var p := At(len, addr);
      RoundIsGrow(Cfg(), p);
      rest := FillUp(slot, len);
    }

    /** The pending chunk takes what fits its page; the rest is returned. */
    method FillUp(slot: nat, len: nat) returns (rest: nat)
      requires Chunks() && LastPending(queue) && len > 0
      requires slot == Index(first + (|queue| - 1), writeChunks.Length) && writeChunks[slot] == queue[|queue| - 1]
      modifies writeChunks, `writeTail, `queue
      ensures Chunks() && rest <= len
      ensures var w := old(queue)[|old(queue)| - 1];
        var l := Min(len, writeChunkSize - w.len);
        && rest == len - l && writeTail == And(old(writeTail) + l, decodedBuf.Length - 1)
        && queue == old(queue)[|old(queue)| - 1 := w.(len := w.len + l, pending := w.len + l != writeChunkSize)]
    {
      var w := writeChunks[slot];
      if w.len + len <= writeChunkSize {
        // No further chunks needed
        TakeMore(slot, w.(len := w.len + len, pending := w.len + len != writeChunkSize), len);
        rest := 0;
      } else {
        var l := writeChunkSize - w.len;
        TakeMore(slot, w.(len := writeChunkSize, pending := false), l);
        rest := len - l;
      }
    }

    /** The last chunk becomes w, and the write tail moves on by l. */
    method TakeMore(slot: nat, w: Chunk, l: nat)
      requires Chunks() && queue != [] && slot == Index(first + (|queue| - 1), writeChunks.Length)
      requires WellFormed(Cfg(), queue[|queue| - 1 := w])
      modifies writeChunks, `writeTail, `queue
      ensures Chunks() && queue == old(queue)[|old(queue)| - 1 := w]
      ensures writeTail == And(old(writeTail) + l, decodedBuf.Length - 1)
    {
      SetChunk(slot, |queue| - 1, w);
      writeTail := And(writeTail + l, decodedBuf.Length - 1);
    }

    /** A fresh chunk for the bytes; None when its address is not at a page boundary though it should be. */
    method MakeChunk(slot: nat, len: nat, addr: nat) returns (w: Option<Chunk>)
      requires Cfg().Valid() && writeTail < decodedBuf.Length && len > 0
      requires slot < writeChunks.Length && Free(writeChunks[slot])
      ensures w == if !ignoreAlignment && And(addr, writeChunkSize - 1) != 0 then None
                   else Some(NewChunk(Cfg(), At(len, addr)))
    {
      var size := Min(len, writeChunkSize);
      if ignoreAlignment {
        size := Min(size, decodedBuf.Length - writeTail);
      }
      if !ignoreAlignment && And(addr, writeChunkSize - 1) != 0 {
        return None;
      }
      w := Some(writeChunks[slot].(addr := addr, start := writeTail, len := size,
                                   pending := !ignoreAlignment && size < writeChunkSize));
    }

    /** A fresh chunk takes the bytes. */
    method FillNewChunk(slot: nat, len: nat, addr: nat) returns (rest: Option<nat>)
      requires Cfg().Valid() && ChunkRing(writeChunks[..], first, queue) && |queue| + 1 < writeChunks.Length
      requires WellFormed(Cfg(), queue) && writeTail < decodedBuf.Length && len > 0 && !LastPending(queue)
      requires ChunkIndices(|queue| + 1) && slot == Index(first + |queue|, writeChunks.Length)
      modifies writeChunks, `writeTail, `queue
      ensures rest.None? ==> Round(Cfg(), old(At(len, addr))) == None
      ensures rest.Some? ==> Chunks() && rest.value < len
      ensures rest.Some? ==> Round(Cfg(), old(At(len, addr))) == Some(At(rest.value, addr + (len - rest.value)))
    {
      RoundIsNew(Cfg(), At(len, addr));
      assert Free(Slot(writeChunks[..], first, |queue|));
      var w := MakeChunk(slot, len, addr);
      if w.None? {
        return None;
      }
      TakeNew(slot, w.value);
      rest := Some(len - w.value.len);
    }

    /** The chunk w is queued, and the write tail moves on by its length. */
    method TakeNew(slot: nat, w: Chunk)
      requires Cfg().Valid() && ChunkRing(writeChunks[..], first, queue) && |queue| + 1 < writeChunks.Length
      requires ChunkIndices(|queue| + 1) && slot == Index(first + |queue|, writeChunks.Length)
      requires WellFormed(Cfg(), queue + [w])
      modifies writeChunks, `writeTail, `queue
      ensures Chunks() && queue == old(queue) + [w]
      ensures writeTail == And(old(writeTail) + w.len, decodedBuf.Length - 1)
    {
      FillChunk(slot, w);
      writeTail := And(writeTail + w.len, decodedBuf.Length - 1);
    }

    /** One round of the loop of bf_enqueue_for_writing: how many bytes are left to queue, or None for the
        error return. */
    method EnqueueOnce(len: nat, addr: nat) returns (rest: Option<nat>)
      requires Chunks() && writeTail < decodedBuf.Length && len > 0
      modifies writeChunks, `chunksHead, `writeTail, `queue
      ensures rest.None? ==> Round(Cfg(), old(At(len, addr))) == None
      ensures rest.Some? ==> Chunks() && rest.value <= len
      ensures rest.Some? ==> Round(Cfg(), old(At(len, addr))) == Some(At(rest.value, addr + (len - rest.value)))
    {
      var slot := None;
      if !ignoreAlignment {
        slot := PendingSlot();
      }
      if slot.None? {
        slot := GetWriteChunk();
        if slot.None? {
          return None;
        }
        rest := FillNewChunk(slot.value, len, addr);
      } else if addr == writeChunks[slot.value].addr + writeChunks[slot.value].len {
        var r := GrowChunk(slot.value, len, addr);
        rest := Some(r);
      } else {
        SetChunk(slot.value, |queue| - 1, writeChunks[slot.value].(pending := false));
        rest := Some(len);
      }
    }

    /** After a round, what is left to queue leads to the same end. */
    method EnqueueOn(len: nat, addr: nat) returns (rest: Option<nat>)
      requires Chunks() && writeTail < decodedBuf.Length && len > 0
      modifies writeChunks, `chunksHead, `writeTail, `queue
      ensures rest.None? ==> Enqueue(Cfg(), old(At(len, addr))) == None
      ensures rest.Some? ==> Chunks() && writeTail < decodedBuf.Length && rest.value <= len
      ensures rest.Some? ==> rest.value < len || (old(LastPending(queue)) && !LastPending(queue))
      ensures rest.Some? ==>
        Enqueue(Cfg(), At(rest.value, addr + (len - rest.value))) == Enqueue(Cfg(), old(At(len, addr)))
    {
      ghost var p := At(len, addr);
      rest := EnqueueOnce(len, addr);
      EnqueueRound(Cfg(), p);
    }

    /** bf_enqueue_for_writing; false is its error return. */
    method EnqueueForWriting(len: nat, addr: nat) returns (ok: bool)
      requires Chunks() && writeTail < decodedBuf.Length && len > 0
      modifies writeChunks, `chunksHead, `writeTail, `queue
      ensures var r := Enqueue(Cfg(), old(At(len, addr)));
        && ok == r.Some?
        && (ok ==> Chunks() && writeTail == r.value.tail && queue == r.value.q)
    {
      var left: nat, next: nat := len, addr;
      ghost var goal := Enqueue(Cfg(), At(len, addr));
      while left != 0
        invariant Chunks() && writeTail < decodedBuf.Length
        invariant Enqueue(Cfg(), At(left, next)) == goal
        decreases left, LastPending(queue)
      {
        var rest := EnqueueOn(left, next);
        if rest.None? {
          return false;
        }
        next := next + (left - rest.value);
        left := rest.value;
      }
      ok := true;
    }

    // ---------- bytes ----------

    /** _bf_append_data: the number of bytes taken, all or none. */
    method AppendData(data: seq<byte>) returns (n: nat)
      requires Valid()
      modifies `head, `written, `st, buf
      ensures Valid() && st == Append(Cfg(), old(st), data)
      ensures n == |st.input| - |old(st).input|
      ensures n == if |old(st).input| - old(st).taken + |data| < buf.Length then |data| else 0
    {
      if |data| == 0 {
        // Size is 0, file written
        written := true;
        st := st.(written := true);
        return 0;
      }
      SpaceMeans(|st.input|, st.taken, buf.Length);
      if Space(head, tail, buf.Length) < |data| {
        return 0;
      }
      RingMoreData(buf[..], st.input, data, st.taken, |st.input|);
      RingMoreData(decodedBuf[..], st.input, data, st.acked, st.taken);
      PutData(data, st.input + data, |st.input|, st.taken);
      n := |data|;
      st := st.(input := st.input + data);
    }

    /** The two copies of _bf_append_data, up to the end of the ring and from its start. */
    method PutData(data: seq<byte>, ghost input: seq<byte>, ghost h: nat, ghost t: nat)
      requires PowerOfTwo(buf.Length) && head == Index(h, buf.Length) && tail == Index(t, buf.Length)
      requires t <= h && data != [] && h + |data| < t + buf.Length
      requires h + |data| <= |input| && input[h..h + |data|] == data
      requires RingHolds(buf[..], input, t, h)
      modifies `head, buf
      ensures head == Index(h + |data|, buf.Length) && RingHolds(buf[..], input, t, h + |data|)
    {
      SpaceToEndMeans(h, t, buf.Length);
      var end := SpaceToEnd(head, tail, buf.Length);
      var sz := if end < |data| then end else |data|;
      PutPiece(data[..sz], input, h, t);
      if sz < |data| {
        WrapsToZero(h, sz, buf.Length);
        PutPiece(data[sz..], input, h + sz, t);
      }
    }

    /** memcpy to the head of the input ring. */
    method PutPiece(piece: seq<byte>, ghost input: seq<byte>, ghost h: nat, ghost t: nat)
      requires PowerOfTwo(buf.Length) && head == Index(h, buf.Length) && head + |piece| <= buf.Length
      requires t <= h && h + |piece| < t + buf.Length && h + |piece| <= |input| && input[h..h + |piece|] == piece
      requires RingHolds(buf[..], input, t, h)
      modifies `head, buf
      ensures head == Index(h + |piece|, buf.Length) && RingHolds(buf[..], input, t, h + |piece|)
    {
      ghost var a := buf[..];
      Copy(buf, head, piece, input, h);
      RingWrite(a, buf[..], input, t, h, |piece|);
      Advance(h, |piece|, buf.Length);
      head := And(head + |piece|, buf.Length - 1);
    }

    /** One memcpy of _subcopy. */
    method TakePiece(at: nat, sz: nat, ghost input: seq<byte>, ghost pos: nat)
      requires Input(input, pos) && buf != decodedBuf && pos + sz <= |input|
      requires tail + sz <= buf.Length && at + sz <= decodedBuf.Length
      modifies `tail, decodedBuf
      ensures Input(input, pos + sz) && Written(old(decodedBuf[..]), decodedBuf[..], at, input, pos, sz)
    {
      RingRead(buf[..], input, pos, |input|, sz);
      Copy(decodedBuf, at, buf[tail..tail + sz], input, pos);
      Advance(pos, sz, buf.Length);
      tail := And(tail + sz, buf.Length - 1);
    }

    /** The second memcpy of _subcopy. */
    method TakeRest(at: nat, outSz: nat, ghost input: seq<byte>, ghost pos: nat) returns (n: nat)
      requires Input(input, pos) && buf != decodedBuf
      requires at + Min(outSz, |input| - pos) <= decodedBuf.Length
      requires tail + Min(outSz, |input| - pos) <= buf.Length
      modifies `tail, decodedBuf
      ensures n == Min(outSz, |input| - pos)
      ensures Input(input, pos + n) && Written(old(decodedBuf[..]), decodedBuf[..], at, input, pos, n)
    {
      CountMeans(|input|, pos, buf.Length);
      n := Min(outSz, Count(head, tail, buf.Length));
      TakePiece(at, n, input, pos);
    }

    /** _subcopy */
    method Subcopy(at: nat, outSz: nat, ghost input: seq<byte>, ghost pos: nat) returns (n: nat)
      requires Input(input, pos) && buf != decodedBuf
      requires at + Min(outSz, |input| - pos) <= decodedBuf.Length
      modifies `tail, decodedBuf
      ensures n == Min(outSz, |input| - pos)
      ensures Input(input, pos + n) && Written(old(decodedBuf[..]), decodedBuf[..], at, input, pos, n)
    {
      ghost var m := FirstPiece(|input|, pos, outSz, buf.Length);
      var sz := Min(outSz, CountToEnd(head, tail, buf.Length));
      if sz == 0 {
        return 0;
      }
      TakePiece(at, sz, input, pos);
      if sz == outSz {
        return sz;
      }
      ghost var b := decodedBuf[..];
      n := TakeRest(at + sz, outSz - sz, input, pos + sz);
      WrittenTwice(old(decodedBuf[..]), b, decodedBuf[..], at, input, pos, sz, n);
      n := sz + n;
    }

    /** One _subcopy of binary_decode_chunk, into the decoded ring. */
    method DecodePiece(outSz: nat, ghost input: seq<byte>, ghost acked: nat, ghost pos: nat) returns (n: nat)
      requires Input(input, pos) && Decoded(input, acked, pos) && buf != decodedBuf
      requires pos + outSz < acked + decodedBuf.Length
      requires decodedHead + Min(outSz, |input| - pos) <= decodedBuf.Length
      modifies `tail, `decodedHead, decodedBuf
      ensures n == Min(outSz, |input| - pos) && Input(input, pos + n) && Decoded(input, acked, pos + n)
    {
      ghost var a := decodedBuf[..];
      n := Subcopy(decodedHead, outSz, input, pos);
      RingWrite(a, decodedBuf[..], input, acked, pos, n);
      Advance(pos, n, decodedBuf.Length);
      decodedHead := And(decodedHead + n, decodedBuf.Length - 1);
    }

    /** The second _subcopy of binary_decode_chunk. */
    method DecodeRest(ghost input: seq<byte>, ghost acked: nat, ghost pos: nat) returns (n: nat)
      requires Input(input, pos) && Decoded(input, acked, pos) && buf != decodedBuf
      requires decodedHead == 0 || pos == |input| || pos == acked + (decodedBuf.Length - 1)
      modifies `tail, `decodedHead, decodedBuf
      ensures n == Min(|input| - pos, decodedBuf.Length - 1 - (pos - acked))
      ensures Input(input, pos + n) && Decoded(input, acked, pos + n)
    {
      SpaceMeans(pos, acked, decodedBuf.Length);
      var outSz := Space(decodedHead, decodedTail, decodedBuf.Length);
      if outSz == 0 {
        return 0;
      }
      n := DecodePiece(outSz, input, acked, pos);
    }

    /** binary_decode_chunk: how many bytes were decoded, and the address of the first. */
    method BinaryDecodeChunk(ghost input: seq<byte>, ghost acked: nat, ghost pos: nat) returns (n: nat, addr: nat)
      requires Input(input, pos) && Decoded(input, acked, pos) && buf != decodedBuf
      modifies `tail, `decodedHead, `currAddr, decodedBuf
      ensures n == Min(|input| - pos, decodedBuf.Length - 1 - (pos - acked))
      ensures Input(input, pos + n) && Decoded(input, acked, pos + n)
      ensures addr == old(currAddr) && currAddr == old(currAddr) + n
    {
      ghost var m := FirstSpace(pos, acked, |input|, decodedBuf.Length);
      var outSz := SpaceToEnd(decodedHead, decodedTail, decodedBuf.Length);
      addr := currAddr;
      if outSz == 0 {
        return 0, addr;
      }
      n := DecodePiece(outSz, input, acked, pos);
      var rest := DecodeRest(input, acked, pos + n);
      n := n + rest;
      currAddr := currAddr + n;
    }

    /** The two gates of _bf_do_flush. */
    method CanFlush(ghost p: Pipe) returns (ok: bool)
      requires Input(p.input, p.taken) && Decoded(p.input, p.acked, p.taken) && decodedChunkSize == p.estimate
      ensures ok <==> p.taken < |p.input| && DecodedSpace(Cfg(), p) >= 2 * p.estimate
    {
      CountMeans(|p.input|, p.taken, buf.Length);
      SpaceMeans(p.taken, p.acked, decodedBuf.Length);
      if Count(head, tail, buf.Length) == 0 {
        return false;
      }
      ok := Space(decodedHead, decodedTail, decodedBuf.Length) >= 2 * decodedChunkSize;
    }

    /** The first part of _bf_do_flush: how many bytes were decoded, and the address of the first. */
    method FlushDecode(ghost p: Pipe) returns (n: nat, addr: nat)
      requires Input(p.input, p.taken) && Decoded(p.input, p.acked, p.taken) && buf != decodedBuf
      requires decodedChunkSize == p.estimate
      modifies `tail, `decodedHead, `currAddr, `decodedChunkSize, decodedBuf
      ensures n == FlushCount(Cfg(), p)
      ensures Input(p.input, p.taken + n) && Decoded(p.input, p.acked, p.taken + n)
      ensures addr == old(currAddr) && currAddr == old(currAddr) + n
      ensures decodedChunkSize == if n > p.estimate then n else p.estimate
    {
      n, addr := 0, currAddr;
      var ok := CanFlush(p);
      if ok {
        n, addr := BinaryDecodeChunk(p.input, p.acked, p.taken);
        if n > decodedChunkSize {
          decodedChunkSize := n;
        }
      }
    }

    /** The second part: n decoded bytes are queued. */
    method FlushEnqueue(n: nat, addr: nat, ghost to: nat) returns (ok: bool)
      requires Chunks() && writeTail == Index(to, decodedBuf.Length) && n > 0
      modifies writeChunks, `chunksHead, `writeTail, `queue
      ensures var r := Enqueue(Cfg(), Loop(old(queue), Index(to, decodedBuf.Length), n, addr));
        && ok == r.Some?
        && (ok ==> Chunks() && queue == r.value.q && writeTail == Index(to + n, decodedBuf.Length))
    {
      ghost var l := At(n, addr);
      ok := EnqueueForWriting(n, addr);
      if ok {
        EnqueueTail(Cfg(), l, to);
      }
    }

    /** The two parts of _bf_do_flush. */
    method FlushParts(ghost p: Pipe) returns (ok: bool, ghost n: nat)
      requires Holds(p)
      modifies `tail, `decodedHead, `currAddr, `decodedChunkSize, decodedBuf
      modifies writeChunks, `chunksHead, `writeTail, `queue
      ensures n == FlushCount(Cfg(), p)
      ensures n == 0 ==> ok && queue == p.q
      ensures var r := Enqueue(Cfg(), Loop(p.q, Index(p.taken, decodedBuf.Length), n, p.taken));
        n > 0 ==> ok == r.Some? && (ok ==> queue == r.value.q)
      ensures decodedChunkSize == if n > p.estimate then n else p.estimate
      ensures ok ==> Holds(p.(q := queue, taken := p.taken + n, estimate := decodedChunkSize))
    {
      var k, addr := FlushDecode(p);
      n := k;
      ok := true;
      if k != 0 {
        ok := FlushEnqueue(k, addr, p.taken);
      }
    }

    /** _bf_do_flush with the raw binary format; false is its error return. */
    method DoFlush() returns (ok: bool)
      requires Valid()
      modifies `tail, `decodedHead, `currAddr, `decodedChunkSize, decodedBuf
      modifies writeChunks, `chunksHead, `writeTail, `queue, `st
      ensures ok == Flush(Cfg(), old(st)).Some?
      ensures ok ==> Valid() && st == Flush(Cfg(), old(st)).value
    {
      ghost var n;
      ok, n := FlushParts(st);
      FlushIs(Cfg(), st, n, ok, queue);
      st := st.(q := queue, taken := st.taken + n, estimate := decodedChunkSize);
    }

    // ---------- chunks to and from the target ----------

    /** bf_next_write_chunk: the slot of the oldest chunk, now marked as being written. */
    method NextWriteChunk(ignorePending: bool) returns (slot: Option<nat>)
      requires Chunks()
      modifies writeChunks, `queue
      ensures Chunks()
      ensures if CanWrite(old(queue), ignorePending)
              then slot == Some(chunksTail) && queue == Marked(old(queue))
                   && chunksTail < writeChunks.Length && writeChunks[chunksTail] == queue[0]
              else slot == None && queue == old(queue)
    {
      var n := ChunkCount();
      if n == 0 {
        return None;
      }
      assert Slot(writeChunks[..], first, 0) == queue[0];
      var w := writeChunks[chunksTail];
      if w.writePending || (w.pending && !ignorePending) {
        return None;
      }
      SetChunk(chunksTail, 0, w.(writePending := true));
      assert Slot(writeChunks[..], first, 0) == queue[0];
      slot := Some(chunksTail);
    }

    /** The chunk w as the target gets it. */
    method Read(w: Chunk, ghost p: Pipe) returns (data: seq<byte>)
      requires Decoded(p.input, p.acked, p.taken)
      requires w.start == Index(p.acked, decodedBuf.Length) && p.acked + w.len <= p.taken <= |p.input|
      requires w.start + w.len <= decodedBuf.Length
      ensures data == p.input[p.acked..p.acked + w.len]
    {
      data := decodedBuf[w.start..w.start + w.len];
      RingRead(decodedBuf[..], p.input, p.acked, p.taken, w.len);
    }

    /** _bf_do_write, for a pipeline state whose oldest chunk lies in the decoded ring. */
    method WriteParts(busy: bool, mustErase: bool, ghost p: Pipe) returns (offer: Option<Write>)
      requires Holds(p) && Readable(Cfg(), p)
      modifies writeChunks, `queue
      ensures offer == if HasOffer(p, busy, mustErase)
        then Some(Write(p.q[0].addr, p.input[p.acked..p.acked + p.q[0].len])) else None
      ensures Holds(p.(q := if offer.Some? then Marked(p.q) else p.q, offer := if offer.Some? then offer else p.offer))
    {
      if busy {
        return None;
      }
      var n := ChunkCount();
      var slot := NextWriteChunk(written && n == 1);
      if slot.None? {
        return None;
      }
      var w := writeChunks[slot.value];
      if mustErase {
        SetChunk(slot.value, 0, w.(writePending := false));
        assert queue == p.q;
        return None;
      }
      var data := Read(w, p);
      offer := Some(Write(w.addr, data));
    }

    /** _bf_do_write: what was handed to chunk_available, which is assumed to succeed. busy and mustErase are
        what the target answers. */
    method DoWrite(busy: bool, mustErase: bool) returns (offer: Option<Write>)
      requires Valid() && Structure(Cfg(), st)
      modifies writeChunks, `queue, `st
      ensures Valid() && st == DoWriteStep(Cfg(), old(st), busy, mustErase)
      ensures offer == if HasOffer(old(st), busy, mustErase) then st.offer else None
    {
      FirstReadable(Cfg(), st);
      OfferIs(Cfg(), st, busy, mustErase);
      offer := WriteOffer(busy, mustErase);
    }

    /** The same with the new state written out. */
    method WriteOffer(busy: bool, mustErase: bool) returns (offer: Option<Write>)
      requires Valid() && Readable(Cfg(), st)
      modifies writeChunks, `queue, `st
      ensures Valid()
      ensures var p := old(st);
        if HasOffer(p, busy, mustErase)
        then offer == Some(Write(p.q[0].addr, p.input[p.acked..p.acked + p.q[0].len]))
             && st == p.(q := Marked(p.q), offer := offer)
        else offer == None && st == p
    {
      offer := WriteParts(busy, mustErase, st);
      if offer.Some? {
        st := st.(q := Marked(st.q), offer := offer);
      }
    }

    /** bf_put_write_chunk */
    method PutWriteChunk(ghost p: Pipe)
      requires Chunks() && queue == p.q != []
      requires Decoded(p.input, p.acked, p.taken) && p.acked + p.q[0].len <= p.taken
      requires p.q[0].start == Index(p.acked, decodedBuf.Length)
      modifies writeChunks, `queue, `first, `chunksTail, `decodedTail
      ensures Chunks() && queue == p.q[1..] && Decoded(p.input, p.acked + p.q[0].len, p.taken)
    {
      ghost var a := writeChunks[..];
      assert Slot(a, first, 0) == queue[0];
      var w := writeChunks[chunksTail];
      decodedTail := w.start + w.len;
      decodedTail := And(decodedTail, decodedBuf.Length - 1);
      Advance(p.acked, w.len, decodedBuf.Length);
      FreeFirst(w.(pending := false, writePending := false));
    }

    /** The oldest chunk's slot becomes free. */
    method FreeFirst(free: Chunk)
      requires Chunks() && queue != [] && Free(free)
      modifies writeChunks, `queue, `first, `chunksTail
      ensures Chunks() && queue == old(queue)[1..]
    {
      ghost var a := writeChunks[..];
      assert Slot(a, first, 0) == queue[0];
      writeChunks[chunksTail] := free;
      ChangeSlot(a, first, 0, free);
      assert writeChunks[..] == a[chunksTail := free];
      DropChunk(a, writeChunks[..], first, queue, free);
      NextIndex(first, first + 1, writeChunks.Length);
      chunksTail := chunksTail + 1;
      chunksTail := And(chunksTail, writeChunks.Length - 1);
      assert first + |queue| == first + 1 + (|queue| - 1);
      first := first + 1;
      queue := queue[1..];
    }

    /** Whether all is done. */
    method CheckDone()
      requires ChunkIndices(|queue|)
      modifies `reallyWritten
      ensures reallyWritten == (old(reallyWritten) || (written && queue == []))
    {
      var n := ChunkCount();
      if written && n == 0 {
        reallyWritten := true;
      }
    }

    /** dfu_binary_file_chunk_done */
    method ChunkDone(ok: bool)
      requires Valid() && Structure(Cfg(), st) && st.offer.Some? && st.q != []
      modifies writeChunks, `queue, `first, `chunksTail, `decodedTail, `reallyWritten, `st
      ensures Valid() && st == Done(old(st), ok)
    {
      FirstReadable(Cfg(), st);
      if ok {
        Acknowledge();
      }
    }

    /** A chunk was written. */
    method Acknowledge()
      requires Valid() && Readable(Cfg(), st) && st.offer.Some? && st.q != []
      modifies writeChunks, `queue, `first, `chunksTail, `decodedTail, `reallyWritten, `st
      ensures Valid() && st == Done(old(st), true)
    {
      PutWriteChunk(st);
      CheckDone();
      ghost var d := Done(st, true);
      Represents(d);
      st := d;
    }

    lemma Represents(p: Pipe)
      requires buf != decodedBuf && Chunks() && Flags(p) && queue == p.q
      requires Input(p.input, p.taken) && Decoded(p.input, p.acked, p.taken)
      requires writeTail == decodedHead && currAddr == p.taken
      ensures Holds(p)
    {
    }

    /** dfu_binary_file_flush_start */
    method FlushStart()
      requires Valid()
      modifies `flushing, `st
      ensures Valid() && st == old(st).(flushing := true)
    {
      flushing := true;
      st := st.(flushing := true);
    }

    /** dfu_binary_file_on_idle: false is its error return. */
    method OnIdle(busy: bool, mustErase: bool) returns (ok: bool, offer: Option<Write>)
      requires Valid() && Structure(Cfg(), st)
      modifies this, decodedBuf, writeChunks
      ensures ok == Idle(Cfg(), old(st), busy, mustErase).Some?
      ensures ok ==> Valid() && st == Idle(Cfg(), old(st), busy, mustErase).value
      ensures var p := old(st);
        && (p.q != [] ==> p.acked + p.q[0].len <= |p.input|)
        && offer == if !busy && !mustErase && p.q != [] && !p.q[0].writePending
                       && (!p.q[0].pending || (p.written && |p.q| == 1))
                    then Some(Write(p.acked, p.input[p.acked..p.acked + p.q[0].len])) else None
      ensures ok && offer.Some? ==> offer == st.offer
    {
      FirstFits(Cfg(), st);
      offer := DoWrite(busy, mustErase);
      ok := true;
      if flushing {
        ok := DoFlush();
      }
    }
  }

  predicate CanWrite(q: seq<Chunk>, ignorePending: bool) {
    q != [] && !q[0].writePending && (q[0].pending ==> ignorePending)
  }

  function Marked(q: seq<Chunk>): seq<Chunk>
    requires q != []
  {
    q[0 := q[0].(writePending := true)]
  }

  /** The oldest chunk lies in one piece at the decoded tail. */
  ghost predicate Readable(c: Config, p: Pipe)
    requires c.ringSize > 0
  {
    p.q != [] ==>
      && p.q[0].start == Index(p.acked, c.ringSize) && p.q[0].start + p.q[0].len <= c.ringSize
      && p.acked + p.q[0].len <= p.taken <= |p.input|
  }

  lemma FirstReadable(c: Config, p: Pipe)
    requires Structure(c, p)
    ensures Readable(c, p)
  {
    FirstFits(c, p);
  }

  lemma OfferIs(c: Config, p: Pipe, busy: bool, mustErase: bool)
    requires Structure(c, p)
    ensures HasOffer(p, busy, mustErase) ==> p.acked + p.q[0].len <= |p.input|
    ensures DoWriteStep(c, p, busy, mustErase) == if HasOffer(p, busy, mustErase)
      then p.(q := Marked(p.q), offer := Some(Write(p.q[0].addr, p.input[p.acked..p.acked + p.q[0].len]))) else p
  {
    FirstFits(c, p);
  }

  /** The result of the two parts is that of the whole. */
  lemma FlushIs(c: Config, p: Pipe, n: nat, ok: bool, q: seq<Chunk>)
    requires c.Valid() && WellFormed(c, p.q) && p.acked <= p.taken <= |p.input| && n == FlushCount(c, p)
    requires n == 0 ==> ok && q == p.q
    requires var r := Enqueue(c, Loop(p.q, Index(p.taken, c.ringSize), n, p.taken));
      n > 0 ==> ok == r.Some? && (ok ==> q == r.value.q)
    ensures ok == Flush(c, p).Some?
    ensures ok ==>
      Flush(c, p).value == p.(q := q, taken := p.taken + n, estimate := if n > p.estimate then n else p.estimate)
  {
  }

  /** The write tail moves by what is queued. */
  lemma {:induction false} EnqueueTail(c: Config, p: Loop, to: nat)
    requires LoopValid(c, p) && p.tail == Index(to, c.ringSize) && Enqueue(c, p).Some?
    ensures Enqueue(c, p).value.tail == Index(to + p.len, c.ringSize)
    decreases p.len, LastPending(p.q)
  {
    if p.len > 0 {
      EnqueueRound(c, p);
      var p1 := Round(c, p).value;
      RoundTail(c, p, to);
      EnqueueTail(c, p1, to + (p.len - p1.len));
    }
  }

  lemma RoundTail(c: Config, p: Loop, to: nat)
    requires LoopValid(c, p) && p.len > 0 && p.tail == Index(to, c.ringSize) && Round(c, p).Some?
    ensures Round(c, p).value.len <= p.len
    ensures Round(c, p).value.tail == Index(to + (p.len - Round(c, p).value.len), c.ringSize)
  {
    var n := p.len - Round(c, p).value.len;
    Advance(to, n, c.ringSize);
  }

  lemma FreeSlotsAt(first: nat, n: nat, h: nat, size: nat)
    requires PowerOfTwo(size) && n < size && h == first + n
    ensures Space(Index(h, size), Index(first, size), size) == size - 1 - n
  {
    assert first <= h < first + size;
    assert h - first == n;
    SpaceMeans(h, first, size);
  }

  lemma NextIndex(h: nat, h': nat, size: nat)
    requires PowerOfTwo(size) && h' == h + 1
    ensures And(Index(h, size) + 1, size - 1) == Index(h', size)
  {
    Advance(h, 1, size);
  }

  lemma WrapsToZero(p: nat, k: nat, size: nat)
    requires size > 0 && Index(p, size) + k == size
    ensures Index(p + k, size) == 0
  {
    IndexSum(p, k, size);
    ModUnique(size, size, 1, 0);
  }

  /** The first of the two pieces ends where enough is copied, at the head, or at the end of the ring. */
  lemma FirstPiece(h: nat, t: nat, n: nat, size: nat) returns (m: nat)
    requires PowerOfTwo(size) && t <= h < t + size
    ensures CountToEnd(Index(h, size), Index(t, size), size) >= 0
    ensures m == Min(n, CountToEnd(Index(h, size), Index(t, size), size))
    ensures Index(t, size) + m <= size && t + m <= h && (m == n || t + m == h || Index(t + m, size) == 0)
    ensures m == 0 ==> n == 0 || t == h
  {
    CountToEndMeans(h, t, size);
    m := Min(n, CountToEnd(Index(h, size), Index(t, size), size));
    if m < h - t && m < n {
      WrapsToZero(t, m, size);
    }
  }

  /** The first piece decoded ends where all input is decoded, where the ring is full, or at its end. */
  lemma FirstSpace(h: nat, t: nat, end: nat, size: nat) returns (m: nat)
    requires PowerOfTwo(size) && t <= h < t + size && h <= end
    ensures var s := SpaceToEnd(Index(h, size), Index(t, size), size);
      && 0 <= s <= size - 1 - (h - t) && Index(h, size) + s <= size
      && (s == 0 <==> h - t == size - 1)
      && m == Min(s, end - h) && (h + m == end || h + m == t + (size - 1) || Index(h + m, size) == 0)
  {
    SpaceToEndMeans(h, t, size);
    var s := SpaceToEnd(Index(h, size), Index(t, size), size);
    m := Min(s, end - h);
    if m == s && s < size - 1 - (h - t) {
      WrapsToZero(h, m, size);
    }
  }

  lemma SlotBefore(p: nat, size: nat)
    requires size > 0 && p > 0
    ensures Index(p - 1, size) == if Index(p, size) == 0 then size - 1 else Index(p, size) - 1
  {
    if Index(p - 1, size) + 1 < size {
      IndexRun(p - 1, 1, size);
    } else {
      IndexSum(p - 1, 1, size);
      ModUnique(size, size, 1, 0);
    }
  }
}
