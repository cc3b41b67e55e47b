/** Which chunks run over the end of the decoded ring, for targets that want aligned chunks: the enqueue loop of
    src/binary-file.c does not look at it. */
module ChunkCrossing {
  import opened Basics
  import opened Ring
  import opened WriteChunks

  // ---------- one call ----------

  /** Bytes with consecutive addresses, put into new chunks from the ring index tail on. */
  predicate StretchFits(c: Config, tail: nat, len: nat)
    requires c.page > 0
  {
    len == 0 || tail % c.page == 0 || tail + len <= c.ringSize
  }

  lemma AlignedEnd(c: Config, tail: nat)
    requires c.Valid() && tail < c.ringSize && tail % c.page == 0
    ensures tail + c.page <= c.ringSize && (tail + c.page) % c.ringSize % c.page == 0
  {
    SmallMod(tail, c.ringSize);
    PageEnd(c, tail);
    if tail + c.page == c.ringSize {
      ModUnique(tail + c.page, c.ringSize, 1, 0);
      SmallMod(0, c.page);
    } else {
      SmallMod(tail + c.page, c.ringSize);
    }
  }

  lemma UnalignedEnd(c: Config, tail: nat, n: nat)
    requires c.Valid() && tail < c.ringSize && tail % c.page != 0 && n % c.page == 0 && tail + n <= c.ringSize
    ensures tail + n < c.ringSize && (tail + n) % c.ringSize % c.page != 0
  {
    ModShift(tail, n / c.page, c.page);
    assert n == c.page * (n / c.page);
    PagesDivideRing(c.page, c.ringSize);
    SmallMod(tail + n, c.ringSize + 1);
    if tail + n < c.ringSize {
      SmallMod(tail + n, c.ringSize);
    }
  }

  /** Cutting off the first chunk. */
  lemma StretchCut(c: Config, tail: nat, len: nat, size: nat)
    requires c.Valid() && tail < c.ringSize && len > 0 && size == Min(len, c.page)
    ensures StretchFits(c, tail, len) <==>
            tail + size <= c.ringSize && StretchFits(c, (tail + size) % c.ringSize, len - size)
  {
    if tail % c.page == 0 {
      AlignedEnd(c, tail);
    } else if size < len && tail + size <= c.ringSize {
      SmallMod(0, c.page);
      ModShift(0, 1, c.page);
      UnalignedEnd(c, tail, c.page);
      SmallMod(tail + size, c.ringSize);
    }
  }

  lemma AddedCrossing(c: Config, q: seq<Chunk>, w: Chunk)
    ensures NoCrossing(c, q + [w]) <==> NoCrossing(c, q) && w.start + w.len <= c.ringSize
  {
    assert (q + [w])[|q|] == w && forall i :: 0 <= i < |q| ==> (q + [w])[i] == q[i];
  }

  lemma NewChunkCuts(c: Config, p: Loop, p1: Loop)
    requires LoopValid(c, p) && p.len > 0 && !c.ignoreAlignment && !LastPending(p.q) && Round(c, p) == Some(p1)
    ensures p1.len > 0 ==> !LastPending(p1.q)
    ensures NoCrossing(c, p1.q) && StretchFits(c, p1.tail, p1.len) <==>
            NoCrossing(c, p.q) && StretchFits(c, p.tail, p.len)
  {
    var w := NewChunk(c, p);
    RoundIsNew(c, p);
    MaskIsMod(p.tail + w.len, c.ringSize);
    AddedCrossing(c, p.q, w);
    StretchCut(c, p.tail, p.len, w.len);
  }

  /** New chunks only: they stay inside the ring exactly when they start at a page boundary of it, or all of them
      end before its end. */
  lemma {:induction false} StretchCrossesExactly(c: Config, p: Loop)
    requires LoopValid(c, p) && !c.ignoreAlignment && (p.len > 0 ==> !LastPending(p.q)) && Enqueue(c, p).Some?
    ensures NoCrossing(c, Enqueue(c, p).value.q) <==> NoCrossing(c, p.q) && StretchFits(c, p.tail, p.len)
    decreases p.len
  {
    if p.len > 0 {
      EnqueueRound(c, p);
      var p1 := Round(c, p).value;
      NewChunkCuts(c, p, p1);
      StretchCrossesExactly(c, p1);
    }
  }

  /** Whether the bytes to queue go on where the last, pending chunk ends. */
  predicate GoesOn(p: Loop) {
    LastPending(p.q) && p.addr == p.q[|p.q| - 1].addr + p.q[|p.q| - 1].len
  }

  /** The condition for a whole call: what the pending chunk takes, and then the new chunks. */
  ghost predicate CallFits(c: Config, p: Loop)
    requires LoopValid(c, p)
  {
    if p.len > 0 && GoesOn(p) then
      var w := p.q[|p.q| - 1];
      var l := Min(p.len, c.page - w.len);
      w.start + w.len + l <= c.ringSize && StretchFits(c, (p.tail + l) % c.ringSize, p.len - l)
    else StretchFits(c, p.tail, p.len)
  }

  lemma ChangedCrossing(c: Config, q: seq<Chunk>, w: Chunk)
    requires q != [] && w.start == q[|q| - 1].start && w.len >= q[|q| - 1].len
    ensures NoCrossing(c, q[|q| - 1 := w]) <==> NoCrossing(c, q) && w.start + w.len <= c.ringSize
  {
    var q' := q[|q| - 1 := w];
    assert q'[|q| - 1] == w && forall i :: 0 <= i < |q| - 1 ==> q'[i] == q[i];
  }

  lemma GrownFits(c: Config, p: Loop, p1: Loop)
    requires LoopValid(c, p) && p.len > 0 && !c.ignoreAlignment && GoesOn(p) && Round(c, p) == Some(p1)
    ensures p1.len > 0 ==> !LastPending(p1.q)
    ensures NoCrossing(c, p1.q) && StretchFits(c, p1.tail, p1.len) <==> NoCrossing(c, p.q) && CallFits(c, p)
  {
    var w := p.q[|p.q| - 1];
    var l := Min(p.len, c.page - w.len);
    RoundIsGrow(c, p);
    MaskIsMod(p.tail + l, c.ringSize);
    ChangedCrossing(c, p.q, w.(len := w.len + l, pending := w.len + l != c.page));
  }

  lemma ClosedFits(c: Config, p: Loop, p1: Loop)
    requires LoopValid(c, p) && p.len > 0 && LastPending(p.q) && !GoesOn(p) && Round(c, p) == Some(p1)
    ensures p1.len == p.len && p1.tail == p.tail && !LastPending(p1.q)
    ensures NoCrossing(c, p1.q) <==> NoCrossing(c, p.q)
  {
    ChangedCrossing(c, p.q, p.q[|p.q| - 1].(pending := false));
  }

  /** No chunk crosses the end of the decoded ring after a call if and only if none did before it, what is added to
      the pending chunk ends before the end of the ring, and so does the rest, unless it starts at a page boundary
      of the ring. */
  lemma EnqueueCrossesExactly(c: Config, p: Loop)
    requires LoopValid(c, p) && !c.ignoreAlignment && Enqueue(c, p).Some?
    ensures NoCrossing(c, Enqueue(c, p).value.q) <==> NoCrossing(c, p.q) && CallFits(c, p)
  {
    if p.len > 0 && LastPending(p.q) {
      EnqueueRound(c, p);
      var p1 := Round(c, p).value;
      if GoesOn(p) {
        GrownFits(c, p, p1);
      } else {
        ClosedFits(c, p, p1);
      }
      StretchCrossesExactly(c, p1);
    } else {
      StretchCrossesExactly(c, p);
    }
  }

  /** After an address jump has closed a short chunk, a full page can run over the end of the buffer. */
  lemma AddressJumpCrosses()
    ensures var c := Config(2048, 2048, 128, 32, false);
      var p := Loop([Chunk(0x1000, 1920, 10, true, false)], 1930, 128, 0x2000);
      && LoopValid(c, p) && NoCrossing(c, p.q)
      && Enqueue(c, p).Some? && !NoCrossing(c, Enqueue(c, p).value.q)
  {
    var c := Config(2048, 2048, 128, 32, false);
    var w := Chunk(0x1000, 1920, 10, true, false);
    var p := Loop([w], 1930, 128, 0x2000);
    Powers();
    var closed := w.(pending := false);
    var p1 := p.(q := [closed]);
    assert [w][0 := closed] == [closed];
    assert Round(c, p) == Some(p1);
    MaskIsMod(p1.addr, c.page);
    var p2 := Round(c, p1).value;
    assert p2.q == [closed, Chunk(0x2000, 1930, 128, false, false)] && p2.len == 0;
    assert p2.q[1].start + p2.q[1].len > c.ringSize;
  }

  /** So can a chunk that was made inside the ring and is still pending. */
  lemma PendingChunkCrosses()
    ensures var c := Config(2048, 2048, 128, 32, false);
      var p := Loop([Chunk(0x2000, 1930, 50, true, false)], 1980, 78, 0x2032);
      && LoopValid(c, p) && NoCrossing(c, p.q)
      && Enqueue(c, p).Some? && !NoCrossing(c, Enqueue(c, p).value.q)
  {
    var c := Config(2048, 2048, 128, 32, false);
    var w := Chunk(0x2000, 1930, 50, true, false);
    var p := Loop([w], 1980, 78, 0x2032);
    Powers();
    assert Round(c, p).Some? && Round(c, p).value.len == 0;
    EnqueueCrossesExactly(c, p);
  }
}
