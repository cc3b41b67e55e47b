/** The chunks of a contiguous stream, for targets that want pages and for targets that ignore alignment. */
module ChunkPieces {
  import opened Basics
  import opened Ring
  import opened WriteChunks

  // ---------- targets that ignore alignment ----------

  /** The chunk that holds the stream positions [pos, pos + len), at addresses equal to the positions, and lies in one
      piece in the ring. */
  ghost predicate PieceAt(c: Config, w: Chunk, pos: nat, len: nat)
    requires c.ringSize > 0
  {
    && w.addr == pos && w.start == Index(pos, c.ringSize) && w.len == len
    && 0 < len <= c.page && w.start + len <= c.ringSize && !w.pending
  }

  /** The chunks are pieces of [from, to), in order. */
  ghost predicate Pieces(c: Config, q: seq<Chunk>, from: nat, to: nat)
    requires c.ringSize > 0
    decreases |q|
  {
    if q == [] then from == to else
      var w := q[|q| - 1];
      && from <= w.addr < to && PieceAt(c, w, w.addr, to - w.addr)
      && Pieces(c, q[..|q| - 1], from, w.addr)
  }

  /** Every piece has at least one byte. */
  lemma {:induction false} PiecesCount(c: Config, q: seq<Chunk>, from: nat, to: nat)
    requires c.Valid() && Pieces(c, q, from, to)
    ensures from + |q| <= to
    decreases |q|
  {
    if q != [] {
      PiecesCount(c, q[..|q| - 1], from, q[|q| - 1].addr);
    }
  }

  lemma {:induction false} PiecesFirst(c: Config, q: seq<Chunk>, from: nat, to: nat)
    requires c.Valid() && Pieces(c, q, from, to) && q != []
    ensures var w := q[0];
      PieceAt(c, w, from, w.len) && from + w.len <= to && Pieces(c, q[1..], from + w.len, to)
    decreases |q|
  {
    var n := |q| - 1;
    if n > 0 {
      PiecesFirst(c, q[..n], from, q[n].addr);
      assert q[1..][..n - 1] == q[..n][1..];
    }
  }

  lemma {:induction false} PiecesNoCrossing(c: Config, q: seq<Chunk>, from: nat, to: nat)
    requires c.Valid() && Pieces(c, q, from, to)
    ensures NoCrossing(c, q)
    decreases |q|
  {
    if q != [] {
      var n := |q| - 1;
      PiecesNoCrossing(c, q[..n], from, q[n].addr);
      assert forall i :: 0 <= i < n ==> q[i] == q[..n][i];
    }
  }

  lemma {:induction false} MarkKeepsPieces(c: Config, q: seq<Chunk>, from: nat, to: nat, i: nat, mark: bool)
    requires c.Valid() && Pieces(c, q, from, to) && i < |q|
    ensures Pieces(c, q[i := q[i].(writePending := mark)], from, to)
    decreases |q|
  {
    var n, q' := |q| - 1, q[i := q[i].(writePending := mark)];
    if i < n {
      MarkKeepsPieces(c, q[..n], from, q[n].addr, i, mark);
      assert q'[..n] == q[..n][i := q[i].(writePending := mark)];
    } else {
      assert q'[..n] == q[..n];
    }
  }

  /** A round adds a piece, and fails exactly when no slot is left. */
  lemma RoundPieces(c: Config, p: Loop, from: nat, to: nat)
    requires LoopValid(c, p) && p.len > 0 && c.ignoreAlignment && Pieces(c, p.q, from, to)
    requires p.tail == Index(to, c.ringSize) && p.addr == to
    ensures var r := Round(c, p);
      && (r.None? <==> |p.q| == c.slots - 1)
      && (r.Some? ==> (r.value.len < p.len && Pieces(c, r.value.q, from, to + (p.len - r.value.len))
            && r.value.addr == to + (p.len - r.value.len) && r.value.tail == Index(r.value.addr, c.ringSize)))
  {
    if |p.q| < c.slots - 1 {
      var w := NewChunk(c, p);
      RoundIsNew(c, p);
      Advance(to, w.len, c.ringSize);
      PiecesCount(c, p.q, from, to);
      assert (p.q + [w])[..|p.q|] == p.q;
    }
  }

  /** A round that fails has as many pieces as there are slots but one, each with a byte at least. */
  lemma RoundFits(c: Config, p: Loop, from: nat, to: nat)
    requires LoopValid(c, p) && p.len > 0 && c.ignoreAlignment && Pieces(c, p.q, from, to)
    requires p.tail == Index(to, c.ringSize) && p.addr == to && c.slots >= c.ringSize > to + p.len - from
    ensures Round(c, p).Some?
  {
    RoundPieces(c, p, from, to);
    PiecesCount(c, p.q, from, to);
  }

  /** The stream goes on in pieces. */
  lemma {:induction false} EnqueuePieces(c: Config, p: Loop, from: nat, to: nat)
    requires LoopValid(c, p) && c.ignoreAlignment && Pieces(c, p.q, from, to)
    requires p.tail == Index(to, c.ringSize) && p.addr == to && Enqueue(c, p).Some?
    ensures Pieces(c, Enqueue(c, p).value.q, from, to + p.len)
    decreases p.len
  {
    if p.len > 0 {
      EnqueueRound(c, p);
      RoundPieces(c, p, from, to);
      var p1 := Round(c, p).value;
      EnqueuePieces(c, p1, from, p1.addr);
    }
  }

  /** With as many slots as the ring has bytes, what fits the ring is always queued. */
  lemma {:induction false} EnqueueFits(c: Config, p: Loop, from: nat, to: nat)
    requires LoopValid(c, p) && c.ignoreAlignment && Pieces(c, p.q, from, to)
    requires p.tail == Index(to, c.ringSize) && p.addr == to && c.slots >= c.ringSize > to + p.len - from
    ensures Enqueue(c, p).Some?
    decreases p.len
  {
    if p.len > 0 {
      EnqueueRound(c, p);
      RoundPieces(c, p, from, to);
      RoundFits(c, p, from, to);
      var p1 := Round(c, p).value;
      EnqueueFits(c, p1, from, p1.addr);
    }
  }

  // ---------- how many chunks a call needs ----------

  function Pages(c: Config, len: nat): nat
    requires c.page > 0
  {
    (len + c.page - 1) / c.page
  }

  /** The pages up to the end of the ring, and those from its start. */
  function ChunksNeeded(c: Config, tail: nat, len: nat): nat
    requires c.page > 0 && tail < c.ringSize
  {
    var m := Min(len, c.ringSize - tail);
    Pages(c, m) + Pages(c, len - m)
  }

  lemma PagesOf(c: Config, len: nat)
    requires c.page > 0
    ensures Pages(c, 0) == 0
    ensures 0 < len <= c.page ==> Pages(c, len) == 1
    ensures len > c.page ==> Pages(c, len) == 1 + Pages(c, len - c.page)
  {
    ModUnique(c.page - 1, c.page, 0, c.page - 1);
    if 0 < len <= c.page {
      ModUnique(len + c.page - 1, c.page, 1, len - 1);
    } else if len > c.page {
      var n := len - 1;
      assert n == c.page * (n / c.page) + n % c.page;
      ModUnique(len - c.page + c.page - 1, c.page, n / c.page, n % c.page);
      ModUnique(len + c.page - 1, c.page, n / c.page + 1, n % c.page) by {
        assert c.page * (n / c.page + 1) == c.page * (n / c.page) + c.page;
      }
    }
  }

  lemma FirstNeeded(c: Config, tail: nat, len: nat, size: nat)
    requires c.Valid() && tail < c.ringSize && 0 < len <= c.ringSize && size == Min(Min(len, c.page), c.ringSize - tail)
    ensures ChunksNeeded(c, tail, len) == 1 + ChunksNeeded(c, (tail + size) % c.ringSize, len - size)
  {
    var m := Min(len, c.ringSize - tail);
    PagesOf(c, m);
    if tail + size < c.ringSize {
      SmallMod(tail + size, c.ringSize);
    } else {
      ModUnique(tail + size, c.ringSize, 1, 0);
    }
  }

  /** A round takes one slot, and leaves one chunk less to make. */
  lemma RoundNeeds(c: Config, p: Loop)
    requires LoopValid(c, p) && c.ignoreAlignment && 0 < p.len <= c.ringSize && |p.q| < c.slots - 1
    ensures var r := Round(c, p);
      && r.Some? && r.value.len < p.len && |r.value.q| == |p.q| + 1
      && ChunksNeeded(c, p.tail, p.len) == 1 + ChunksNeeded(c, r.value.tail, r.value.len)
  {
    var w := NewChunk(c, p);
    RoundIsNew(c, p);
    MaskIsMod(p.tail + w.len, c.ringSize);
    FirstNeeded(c, p.tail, p.len, w.len);
  }

  /** For a target that ignores alignment, a call fails exactly when it needs more chunks than there are slots left;
      one slot always stays free. */
  lemma {:induction false} EnqueueFailsExactly(c: Config, p: Loop)
    requires LoopValid(c, p) && c.ignoreAlignment && p.len <= c.ringSize
    ensures Enqueue(c, p).None? <==> |p.q| + ChunksNeeded(c, p.tail, p.len) > c.slots - 1
    decreases p.len
  {
    if p.len == 0 {
      PagesOf(c, 0);
    } else {
      EnqueueRound(c, p);
      if |p.q| < c.slots - 1 {
        RoundNeeds(c, p);
        EnqueueFailsExactly(c, Round(c, p).value);
      } else {
        FirstNeeded(c, p.tail, p.len, NewSize(c, p.tail, p.len));
      }
    }
  }

  // ---------- all targets ----------

  /** The chunks of [from, to): pages, or pieces of any size. */
  ghost predicate Laid(c: Config, q: seq<Chunk>, from: nat, to: nat)
    requires c.ringSize > 0 && c.page > 0
  {
    if c.ignoreAlignment then Pieces(c, q, from, to) else Paged(c, q, from, to)
  }

  /** Where the next byte of the stream can be queued. */
  ghost predicate Continues(c: Config, p: Loop, from: nat, to: nat)
    requires c.ringSize > 0 && c.page > 0
  {
    && Laid(c, p.q, from, to) && (p.q == [] && !c.ignoreAlignment ==> to % c.page == 0)
    && p.tail == Index(to, c.ringSize) && p.addr == to
  }

  lemma LaidOrder(c: Config, q: seq<Chunk>, from: nat, to: nat)
    requires c.Valid() && Laid(c, q, from, to)
    ensures from <= to && (q != [] ==> from < to)
  {
    if c.ignoreAlignment {
      PiecesCount(c, q, from, to);
    } else {
      PagedOrder(c, q, from, to);
    }
  }

  /** The oldest chunk holds the first bytes, at their addresses, and lies in one piece in the ring; without it the rest
      are still laid out. */
  lemma LaidFirst(c: Config, q: seq<Chunk>, from: nat, to: nat)
    requires c.Valid() && Laid(c, q, from, to) && q != []
    ensures var w := q[0];
      && w.addr == from && w.start == Index(from, c.ringSize) && 0 < w.len && from + w.len <= to
      && w.start + w.len <= c.ringSize && Laid(c, q[1..], from + w.len, to) && (q[1..] != [] ==> !w.pending)
      && (!c.ignoreAlignment && !w.pending ==> (from + w.len) % c.page == 0)
  {
    if c.ignoreAlignment {
      PiecesFirst(c, q, from, to);
    } else {
      PagedFirst(c, q, from, to);
      PageEnd(c, from);
    }
  }

  lemma LaidNoCrossing(c: Config, q: seq<Chunk>, from: nat, to: nat)
    requires c.Valid() && Laid(c, q, from, to)
    ensures NoCrossing(c, q)
  {
    if c.ignoreAlignment {
      PiecesNoCrossing(c, q, from, to);
    } else {
      PagedNoCrossing(c, q, from, to);
    }
  }

  /** Marking a chunk as being written changes nothing about the layout. */
  lemma MarkKeepsLaid(c: Config, q: seq<Chunk>, from: nat, to: nat, i: nat, mark: bool)
    requires c.Valid() && Laid(c, q, from, to) && i < |q|
    ensures Laid(c, q[i := q[i].(writePending := mark)], from, to)
  {
    if c.ignoreAlignment {
      MarkKeepsPieces(c, q, from, to, i, mark);
    } else {
      MarkKeepsPages(c, q, from, to, i, mark);
    }
  }

  lemma {:induction false} MarkKeepsPages(c: Config, q: seq<Chunk>, from: nat, to: nat, i: nat, mark: bool)
    requires c.Valid() && Paged(c, q, from, to) && i < |q|
    ensures Paged(c, q[i := q[i].(writePending := mark)], from, to)
    decreases |q|
  {
    var n, q' := |q| - 1, q[i := q[i].(writePending := mark)];
    if i < n {
      MarkKeepsPages(c, q[..n], from, q[n].addr, i, mark);
      assert q'[..n] == q[..n][i := q[i].(writePending := mark)];
    } else {
      assert q'[..n] == q[..n];
    }
  }

  /** Slots for whatever fits the ring: for all its pages, or for all its bytes, which can become a chunk each. */
  predicate SlotsFor(c: Config) {
    if c.ignoreAlignment then c.slots >= c.ringSize else EnoughSlots(c)
  }

  /** A call that succeeds goes on laying out the stream; with slots for the ring, it always does where the bytes
      fit. */
  lemma EnqueueLaid(c: Config, p: Loop, from: nat, to: nat)
    requires LoopValid(c, p) && Continues(c, p, from, to)
    ensures Enqueue(c, p).Some? ==> Laid(c, Enqueue(c, p).value.q, from, to + p.len)
    ensures SlotsFor(c) && to + p.len - from < c.ringSize ==> Enqueue(c, p).Some?
  {
    if c.ignoreAlignment {
      if Enqueue(c, p).Some? {
        EnqueuePieces(c, p, from, to);
      }
      if SlotsFor(c) && to + p.len - from < c.ringSize {
        EnqueueFits(c, p, from, to);
      }
    } else {
      EnqueuePages(c, p, from, to);
    }
  }
}
