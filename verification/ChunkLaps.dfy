/** Which addresses make chunks run over the end of the decoded ring, over all calls of an upload to a target that wants
    aligned chunks. */
module ChunkLaps {
  import opened Basics
  import opened Ring
  import opened WriteChunks
  import opened ChunkCrossing

  /** Where the stretch of consecutive addresses begins that place k belongs to. */
  function StretchStart(places: seq<nat>, k: nat): (a: nat)
    requires k < |places|
    ensures a <= k
  {
    if k == 0 || places[k] != places[k - 1] + 1 then k else StretchStart(places, k - 1)
  }

  /** The stretch of place k begins at a page boundary of the stream, or in the lap of the ring that k is in. */
  predicate LapFits(c: Config, places: seq<nat>, k: nat)
    requires k < |places| && c.page > 0 && c.ringSize > 0
  {
    var a := StretchStart(places, k);
    a % c.page == 0 || a / c.ringSize == k / c.ringSize
  }

  /** A stretch of consecutive addresses that does not begin at a page boundary of the stream does not go on into the
      next lap of the ring. */
  ghost predicate LapsFit(c: Config, places: seq<nat>)
    requires c.page > 0 && c.ringSize > 0
  {
    forall k :: 0 <= k < |places| ==> LapFits(c, places, k)
  }

  lemma {:induction false} StretchOfPrefix(places: seq<nat>, more: seq<nat>, k: nat)
    requires k < |places|
    ensures StretchStart(places + more, k) == StretchStart(places, k)
    decreases k
  {
    if k > 0 {
      StretchOfPrefix(places, more, k - 1);
    }
  }

  lemma {:induction false} StretchGoesOn(places: seq<nat>, i: nat, j: nat)
    requires i <= j < |places| && forall k :: i < k <= j ==> places[k] == places[k - 1] + 1
    ensures StretchStart(places, j) == StretchStart(places, i)
    decreases j
  {
    if i < j {
      StretchGoesOn(places, i, j - 1);
    }
  }

  // ---------- arithmetic ----------

  lemma SameLap(x: nat, n: nat, size: nat)
    requires size > 0 && n > 0
    ensures Index(x, size) + n <= size <==> x / size == (x + n - 1) / size
  {
    var k, i, j := x / size, x % size, (x + n - 1) / size;
    assert x == size * k + i;
    assert x + n - 1 == size * j + (x + n - 1) % size;
    if i + n <= size {
      ModUnique(x + n - 1, size, k, i + n - 1);
    }
  }

  lemma LapsOrdered(x: nat, y: nat, size: nat)
    requires size > 0 && x <= y
    ensures x / size <= y / size
  {
    var d := y / size - x / size;
    assert x == size * (x / size) + x % size && y == size * (y / size) + y % size;
    assert size * (y / size) == size * (x / size) + size * d;
    MultipleBounds(size, d);
  }

  lemma IndexOfPage(c: Config, x: nat)
    requires c.Valid()
    ensures Index(x, c.ringSize) % c.page == x % c.page
  {
    PagesDivideRing(c.page, c.ringSize);
    var m, k := c.ringSize / c.page, x / c.ringSize;
    assert x == c.ringSize * k + x % c.ringSize;
    assert c.ringSize * k == c.page * (m * k);
    ModShift(x % c.ringSize, m * k, c.page);
  }

  lemma PagesApart(a: nat, x: nat, page: nat)
    requires page > 0 && a <= x && (x - a) % page == 0
    ensures x % page == a % page
  {
    ModShift(a, (x - a) / page, page);
    assert x - a == page * ((x - a) / page);
  }

  /** No lap of the ring begins off a page boundary. */
  lemma LapBegins(c: Config, x: nat)
    requires c.Valid() && x > 0 && x % c.page != 0
    ensures (x - 1) / c.ringSize == x / c.ringSize
  {
    IndexOfPage(c, x);
    SmallMod(0, c.page);
    assert x == c.ringSize * (x / c.ringSize) + Index(x, c.ringSize);
    ModUnique(x - 1, c.ringSize, x / c.ringSize, Index(x, c.ringSize) - 1);
  }

  // ---------- where the chunks stand ----------

  /** In the enqueue loop, with to places queued: the pending chunk is a page of its stretch, and without one the next
      chunk will be, unless a new stretch begins. */
  ghost predicate AtPage(c: Config, p: Loop, to: nat, places: seq<nat>)
    requires c.page > 0 && c.ringSize > 0
  {
    && to + p.len == |places| && p.tail == Index(to, c.ringSize)
    && (forall k :: to <= k < |places| ==> places[k] == p.addr + (k - to))
    && (to == 0 ==> !LastPending(p.q))
    && (to > 0 ==>
          var a := StretchStart(places, to - 1);
          if LastPending(p.q) then PageOf(c, p.q[|p.q| - 1], a, to, places[to - 1])
          else (to - a) % c.page == 0 || (p.len > 0 && p.addr != places[to - 1] + 1))
  }

  /** w is a page of the stretch that begins at a, up to the place to - 1, whose address is last. */
  predicate PageOf(c: Config, w: Chunk, a: nat, to: nat, last: nat)
    requires c.page > 0 && c.ringSize > 0
  {
    && a + w.len <= to && (to - w.len - a) % c.page == 0
    && w.start == Index(to - w.len, c.ringSize) && w.addr + w.len == last + 1 && w.len > 0
  }

  lemma LongerPage(c: Config, w: Chunk, a: nat, to: nat, last: nat, l: nat)
    requires c.page > 0 && c.ringSize > 0 && PageOf(c, w, a, to, last)
    ensures PageOf(c, w.(len := w.len + l, pending := w.len + l != c.page), a, to + l, last + l)
    ensures w.len + l == c.page ==> (to + l - a) % c.page == 0
  {
    ModShift(to - w.len - a, 1, c.page);
  }

  lemma GrownAtPage(c: Config, p: Loop, to: nat, places: seq<nat>, w: Chunk, l: nat, r: Loop)
    requires c.page > 0 && c.ringSize > 0 && AtPage(c, p, to, places) && GoesOn(p) && w == p.q[|p.q| - 1]
    requires l <= p.len && r.len == p.len - l && r.addr == p.addr + l && r.tail == Index(to + l, c.ringSize)
    requires r.q != [] && r.q[|r.q| - 1] == w.(len := w.len + l, pending := w.len + l != c.page)
    ensures AtPage(c, r, to + l, places)
  {
    StretchGoesOn(places, to - 1, to + l - 1);
    LongerPage(c, w, StretchStart(places, to - 1), to, places[to - 1], l);
  }

  lemma PageGrows(c: Config, p: Loop, to: nat, places: seq<nat>, r: Loop)
    requires LoopValid(c, p) && p.len > 0 && AtPage(c, p, to, places) && GoesOn(p) && Round(c, p) == Some(r)
    ensures r.len <= p.len && AtPage(c, r, to + (p.len - r.len), places)
  {
    var w := p.q[|p.q| - 1];
    var l := Min(p.len, c.page - w.len);
    RoundIsGrow(c, p);
    Advance(to, l, c.ringSize);
    GrownAtPage(c, p, to, places, w, l, r);
  }

  lemma PageAdded(c: Config, p: Loop, to: nat, places: seq<nat>, r: Loop)
    requires LoopValid(c, p) && p.len > 0 && !c.ignoreAlignment && AtPage(c, p, to, places) && !LastPending(p.q)
    requires Round(c, p) == Some(r)
    ensures r.len <= p.len && AtPage(c, r, to + (p.len - r.len), places)
  {
    var w, a := NewChunk(c, p), StretchStart(places, to);
    RoundIsNew(c, p);
    Advance(to, w.len, c.ringSize);
    StretchGoesOn(places, to, to + w.len - 1);
    SmallMod(0, c.page);
    assert (to - a) % c.page == 0;
    ModShift(to - a, 1, c.page);
    assert r.q[|r.q| - 1] == w;
  }

  lemma {:induction false} CallAtPage(c: Config, p: Loop, to: nat, places: seq<nat>)
    requires LoopValid(c, p) && !c.ignoreAlignment && AtPage(c, p, to, places) && Enqueue(c, p).Some?
    ensures Enqueue(c, p).value.len == 0 && AtPage(c, Enqueue(c, p).value, |places|, places)
    decreases p.len, LastPending(p.q)
  {
    if p.len > 0 {
      EnqueueRound(c, p);
      var p1 := Round(c, p).value;
      if GoesOn(p) {
        PageGrows(c, p, to, places, p1);
      } else if !LastPending(p.q) {
        PageAdded(c, p, to, places, p1);
      } else {
        assert p1 == p.(q := p.q[|p.q| - 1 := p.q[|p.q| - 1].(pending := false)]);
      }
      CallAtPage(c, p1, to + (p.len - p1.len), places);
    }
  }

  // ---------- one call ----------

  lemma NewStretchFits(c: Config, tail: nat, to: nat, n: nat)
    requires c.Valid() && n > 0 && tail == Index(to, c.ringSize)
    ensures StretchFits(c, tail, n) <==> to % c.page == 0 || to / c.ringSize == (to + n - 1) / c.ringSize
  {
    IndexOfPage(c, to);
    SameLap(to, n, c.ringSize);
  }

  /** The stretch goes on in new chunks. */
  lemma OldStretchFits(c: Config, tail: nat, a: nat, to: nat, n: nat)
    requires c.Valid() && n > 0 && tail == Index(to, c.ringSize) && a < to && (to - a) % c.page == 0
    requires a % c.page == 0 || a / c.ringSize == (to - 1) / c.ringSize
    ensures StretchFits(c, tail, n) <==> a % c.page == 0 || a / c.ringSize == (to + n - 1) / c.ringSize
  {
    NewStretchFits(c, tail, to, n);
    PagesApart(a, to, c.page);
    if a % c.page != 0 {
      LapBegins(c, to);
    }
  }

  /** A page at a page boundary. */
  lemma AlignedPageFits(c: Config, pos: nat, n: nat)
    requires c.Valid() && pos % c.page == 0 && n <= c.page
    ensures Index(pos, c.ringSize) + n <= c.ringSize
  {
    PageEnd(c, pos);
  }

  /** The stretch goes on in the pending chunk w. */
  lemma PendingFits(c: Config, w: Chunk, a: nat, to: nat, last: nat, n: nat, l: nat, tail: nat)
    requires c.Valid() && n > 0 && 0 < w.len < c.page && PageOf(c, w, a, to, last) && l == Min(n, c.page - w.len)
    requires a % c.page == 0 || a / c.ringSize == (to - 1) / c.ringSize
    requires tail == Index(to + l, c.ringSize)
    ensures w.start + w.len + l <= c.ringSize && StretchFits(c, tail, n - l) <==>
            a % c.page == 0 || a / c.ringSize == (to + n - 1) / c.ringSize
  {
    var pos := to - w.len;
    PagesApart(a, pos, c.page);
    SameLap(pos, w.len + l, c.ringSize);
    if a % c.page == 0 {
      AlignedPageFits(c, pos, w.len + l);
    } else {
      LapsOrdered(a, pos, c.ringSize);
      LapsOrdered(pos, to - 1, c.ringSize);
      LapsOrdered(to - 1, to + l - 1, c.ringSize);
      LapsOrdered(to + l - 1, to + n - 1, c.ringSize);
    }
    if l < n {
      ModShift(to - w.len - a, 1, c.page);
      if a % c.page == 0 || a / c.ringSize == (to + l - 1) / c.ringSize {
        OldStretchFits(c, tail, a, to + l, n - l);
      }
    }
  }

  ghost predicate From(more: seq<nat>, addr: nat) {
    forall k :: 0 <= k < |more| ==> more[k] == addr + k
  }

  /** If the last place of a stretch fits, so do those before it. */
  lemma EarlierFits(c: Config, all: seq<nat>, n: nat, addr: nat, k: nat)
    requires c.Valid() && n <= k < |all| && (forall i :: n <= i < |all| ==> all[i] == addr + (i - n))
    requires LapFits(c, all, |all| - 1)
    ensures LapFits(c, all, k)
  {
    StretchGoesOn(all, k, |all| - 1);
    LapsOrdered(StretchStart(all, k), k, c.ringSize);
    LapsOrdered(k, |all| - 1, c.ringSize);
  }

  lemma LastLapDecides(c: Config, places: seq<nat>, more: seq<nat>, addr: nat)
    requires c.Valid() && more != [] && From(more, addr)
    ensures LapsFit(c, places + more) <==> LapsFit(c, places) && LapFits(c, places + more, |places + more| - 1)
  {
    var all, n := places + more, |places|;
    forall k | 0 <= k < n
      ensures LapFits(c, all, k) <==> LapFits(c, places, k)
    {
      StretchOfPrefix(places, more, k);
    }
    if LapFits(c, all, |all| - 1) {
      forall k | n <= k < |all|
        ensures LapFits(c, all, k)
      {
        EarlierFits(c, all, n, addr, k);
      }
    }
  }

  /** The condition for a call says whether the stretch of its last byte fits. */
  lemma CallFitsExactly(c: Config, p: Loop, places: seq<nat>, to: nat)
    requires LoopValid(c, p) && p.len > 0 && AtPage(c, p, to, places) && (to > 0 ==> LapFits(c, places, to - 1))
    ensures CallFits(c, p) <==> LapFits(c, places, |places| - 1)
  {
    StretchGoesOn(places, to, |places| - 1);
    if to > 0 && p.addr == places[to - 1] + 1 {
      var a := StretchStart(places, to - 1);
      if LastPending(p.q) {
        var w := p.q[|p.q| - 1];
        var l := Min(p.len, c.page - w.len);
        IndexSum(to, l, c.ringSize);
        PendingFits(c, w, a, to, places[to - 1], p.len, l, (p.tail + l) % c.ringSize);
      } else {
        OldStretchFits(c, p.tail, a, to, p.len);
      }
    } else {
      NewStretchFits(c, p.tail, to, p.len);
    }
  }

  /** Over any calls: no chunk crosses the end of the ring exactly when no stretch that begins off a page boundary of
      the stream goes on into the next lap. */
  lemma CallLapsExactly(c: Config, p: Loop, places: seq<nat>, more: seq<nat>)
    requires LoopValid(c, p) && !c.ignoreAlignment && p.len > 0 && AtPage(c, p, |places|, places + more)
    requires From(more, p.addr) && Enqueue(c, p).Some? && (NoCrossing(c, p.q) <==> LapsFit(c, places))
    ensures NoCrossing(c, Enqueue(c, p).value.q) <==> LapsFit(c, places + more)
  {
    EnqueueCrossesExactly(c, p);
    LastLapDecides(c, places, more, p.addr);
    if LapsFit(c, places) {
      CallFitsBehind(c, p, places, more);
    }
  }

  lemma CallFitsBehind(c: Config, p: Loop, places: seq<nat>, more: seq<nat>)
    requires LoopValid(c, p) && p.len > 0 && AtPage(c, p, |places|, places + more) && LapsFit(c, places)
    ensures CallFits(c, p) <==> LapFits(c, places + more, |places + more| - 1)
  {
    var n := |places|;
    if n > 0 {
      StretchOfPrefix(places, more, n - 1);
      assert LapFits(c, places, n - 1);
    }
    CallFitsExactly(c, p, places + more, n);
  }
}
