/** The ring of write chunks of src/binary-file.c, as a sequence, oldest chunk first. */
module WriteChunks {
  import opened Basics
  import opened Ring

  /** struct dfu_write_chunk */
  datatype Chunk = Chunk(addr: nat, start: nat, len: nat, pending: bool, writePending: bool)

  /** Sizes of input ring, decoded ring and flash page, number of chunk slots, and whether the target
      takes chunks at any address. */
  datatype Config = Config(inputSize: nat, ringSize: nat, page: nat, slots: nat, ignoreAlignment: bool) {
    predicate Valid() {
      && PowerOfTwo(inputSize) && PowerOfTwo(ringSize) && PowerOfTwo(page) && PowerOfTwo(slots)
      && page <= ringSize && slots > 1
    }
  }

  /** Only the last chunk can be pending, and only while it is not full. */
  ghost predicate WellFormed(c: Config, q: seq<Chunk>) {
    && |q| < c.slots
    && forall i {:trigger q[i].pending} :: 0 <= i < |q| && q[i].pending ==>
      i == |q| - 1 && !c.ignoreAlignment && q[i].len < c.page
  }

  function NewSize(c: Config, tail: nat, len: nat): (size: nat)
    requires c.page > 0 && len > 0 && tail < c.ringSize
    ensures 0 < size <= len && size <= c.page
  {
    if c.ignoreAlignment then Min(Min(len, c.page), c.ringSize - tail) else Min(len, c.page)
  }

  /** The state of the enqueue loop: chunks, write tail, bytes still to queue and the address of the first. */
  datatype Loop = Loop(q: seq<Chunk>, tail: nat, len: nat, addr: nat)

  ghost predicate LoopValid(c: Config, p: Loop) {
    c.Valid() && WellFormed(c, p.q) && p.tail < c.ringSize
  }

  predicate LastPending(q: seq<Chunk>) {
    q != [] && q[|q| - 1].pending
  }

  /** One round of the loop; None is the error return. */
  function Round(c: Config, p: Loop): (r: Option<Loop>)
    requires LoopValid(c, p) && p.len > 0
    ensures r.Some? ==> LoopValid(c, r.value)
    ensures r.Some? ==> r.value.len < p.len || (r.value.len == p.len && LastPending(p.q) && !LastPending(r.value.q))
  {
    var n := |p.q|;
    if LastPending(p.q) then
      var w := p.q[n - 1];
      if p.addr == w.addr + w.len then
        var l := Min(p.len, c.page - w.len);
        var w' := w.(len := w.len + l, pending := w.len + l != c.page);
        AndBound(p.tail + l, c.ringSize);
        Some(Loop(p.q[n - 1 := w'], And(p.tail + l, c.ringSize - 1), p.len - l, p.addr + l))
      else
        Some(p.(q := p.q[n - 1 := w.(pending := false)]))
    else if n == c.slots - 1 || (!c.ignoreAlignment && And(p.addr, c.page - 1) != 0) then None
    else
      var size := NewSize(c, p.tail, p.len);
      AndBound(p.tail + size, c.ringSize);
      Some(Loop(p.q + [NewChunk(c, p)], And(p.tail + size, c.ringSize - 1), p.len - size, p.addr + size))
  }

  function NewChunk(c: Config, p: Loop): Chunk
    requires c.page > 0 && p.len > 0 && p.tail < c.ringSize
  {
    var size := NewSize(c, p.tail, p.len);
    Chunk(p.addr, p.tail, size, !c.ignoreAlignment && size < c.page, false)
  }

  /** bf_enqueue_for_writing: the final chunks and write tail, or None when it fails. */
  function Enqueue(c: Config, p: Loop): (r: Option<Loop>)
    requires LoopValid(c, p)
    ensures r.Some? ==> LoopValid(c, r.value)
    decreases p.len, LastPending(p.q)
  {
    if p.len == 0 then Some(p) else
      match Round(c, p)
      case None => None
      case Some(p') => Enqueue(c, p')
  }

  lemma AndBound(a: nat, n: nat)
    requires PowerOfTwo(n)
    ensures And(a, n - 1) < n
  {
    MaskIsMod(a, n);
  }

  // ---------- chunks tile the decoded ring, and keep every byte's address ----------

  /** w holds the stream positions [pos, pos + w.len), whose target addresses are given. */
  ghost predicate Holds(w: Chunk, pos: nat, addresses: seq<int>, ringSize: nat)
    requires ringSize > 0
  {
    && w.start == Index(pos, ringSize) && 0 < w.len && pos + w.len <= |addresses|
    && forall k :: pos <= k < pos + w.len ==> addresses[k] == w.addr + (k - pos)
  }

  /** The chunks cover the stream positions [from, to) in order, without gap or overlap, and take every
      byte to its own address. */
  ghost predicate Tiles(q: seq<Chunk>, from: nat, to: nat, addresses: seq<int>, ringSize: nat)
    requires ringSize > 0
    decreases |q|
  {
    if q == [] then from == to else
      var w := q[|q| - 1];
      && from + w.len <= to && Holds(w, to - w.len, addresses, ringSize)
      && Tiles(q[..|q| - 1], from, to - w.len, addresses, ringSize)
  }

  lemma {:induction false} TilesOrder(q: seq<Chunk>, from: nat, to: nat, addresses: seq<int>, ringSize: nat)
    requires ringSize > 0 && Tiles(q, from, to, addresses, ringSize)
    ensures from <= to
  {
  }

  /** Chunks up to the write tail, at position to; the bytes to queue have consecutive addresses. */
  ghost predicate Tiled(c: Config, p: Loop, from: nat, to: nat, addresses: seq<int>)
    requires c.ringSize > 0
  {
    && Tiles(p.q, from, to, addresses, c.ringSize) && p.tail == Index(to, c.ringSize)
    && to + p.len == |addresses|
    && forall k :: to <= k < |addresses| ==> addresses[k] == p.addr + (k - to)
  }

  lemma ChangeLast(q: seq<Chunk>, w: Chunk)
    requires q != []
    ensures q[|q| - 1 := w][..|q| - 1] == q[..|q| - 1]
  {
  }

  lemma RoundGrowsTiles(c: Config, p: Loop, from: nat, to: nat, addresses: seq<int>)
    requires LoopValid(c, p) && p.len > 0 && Tiled(c, p, from, to, addresses) && LastPending(p.q)
    requires p.addr == p.q[|p.q| - 1].addr + p.q[|p.q| - 1].len
    ensures var r := Round(c, p);
      r.Some? && r.value.len <= p.len && Tiled(c, r.value, from, to + (p.len - r.value.len), addresses)
  {
    var w := p.q[|p.q| - 1];
    var l := Min(p.len, c.page - w.len);
    var w' := w.(len := w.len + l, pending := w.len + l != c.page);
    ChangeLast(p.q, w');
    Advance(to, l, c.ringSize);
    assert Holds(w', to - w.len, addresses, c.ringSize);
  }

  lemma RoundClosesTiles(c: Config, p: Loop, from: nat, to: nat, addresses: seq<int>)
    requires LoopValid(c, p) && p.len > 0 && Tiled(c, p, from, to, addresses) && LastPending(p.q)
    requires p.addr != p.q[|p.q| - 1].addr + p.q[|p.q| - 1].len
    ensures Round(c, p).Some? && Round(c, p).value.len == p.len && Tiled(c, Round(c, p).value, from, to, addresses)
  {
    var w := p.q[|p.q| - 1];
    ChangeLast(p.q, w.(pending := false));
    assert Holds(w.(pending := false), to - w.len, addresses, c.ringSize);
  }

  lemma AddedTiles(q: seq<Chunk>, w: Chunk, from: nat, to: nat, addresses: seq<int>, ringSize: nat)
    requires ringSize > 0 && Tiles(q, from, to, addresses, ringSize) && Holds(w, to, addresses, ringSize)
    ensures Tiles(q + [w], from, to + w.len, addresses, ringSize)
  {
    assert (q + [w])[..|q|] == q;
    TilesOrder(q, from, to, addresses, ringSize);
  }

  lemma RoundAddsTiles(c: Config, p: Loop, from: nat, to: nat, addresses: seq<int>)
    requires LoopValid(c, p) && p.len > 0 && Tiled(c, p, from, to, addresses) && !LastPending(p.q) && Round(c, p).Some?
    ensures var r := Round(c, p).value;
      r.len <= p.len && Tiled(c, r, from, to + (p.len - r.len), addresses)
  {
    var w := NewChunk(c, p);
    AddedTiles(p.q, w, from, to, addresses, c.ringSize);
    Advance(to, w.len, c.ringSize);
  }

  lemma RoundTiles(c: Config, p: Loop, from: nat, to: nat, addresses: seq<int>)
    requires LoopValid(c, p) && p.len > 0 && Tiled(c, p, from, to, addresses) && Round(c, p).Some?
    ensures var r := Round(c, p).value;
      r.len <= p.len && Tiled(c, r, from, to + (p.len - r.len), addresses)
  {
    if !LastPending(p.q) {
      RoundAddsTiles(c, p, from, to, addresses);
    } else if p.addr == p.q[|p.q| - 1].addr + p.q[|p.q| - 1].len {
      RoundGrowsTiles(c, p, from, to, addresses);
    } else {
      RoundClosesTiles(c, p, from, to, addresses);
    }
  }

  lemma EnqueueRound(c: Config, p: Loop)
    requires LoopValid(c, p) && p.len > 0
    ensures Enqueue(c, p) == if Round(c, p).None? then None else Enqueue(c, Round(c, p).value)
  {
  }

  lemma RoundIsGrow(c: Config, p: Loop)
    requires LoopValid(c, p) && p.len > 0 && LastPending(p.q)
    requires p.addr == p.q[|p.q| - 1].addr + p.q[|p.q| - 1].len
    ensures var w := p.q[|p.q| - 1];
      var l := Min(p.len, c.page - w.len);
      Round(c, p) == Some(Loop(p.q[|p.q| - 1 := w.(len := w.len + l, pending := w.len + l != c.page)],
                               And(p.tail + l, c.ringSize - 1), p.len - l, p.addr + l))
  {
  }

  lemma RoundIsNew(c: Config, p: Loop)
    requires LoopValid(c, p) && p.len > 0 && !LastPending(p.q) && |p.q| < c.slots - 1
    ensures var w := NewChunk(c, p);
      && WellFormed(c, p.q + [w])
      && Round(c, p) == if !c.ignoreAlignment && And(p.addr, c.page - 1) != 0 then None else
                        Some(Loop(p.q + [w], And(p.tail + w.len, c.ringSize - 1), p.len - w.len, p.addr + w.len))
  {
  }

  /** Every successful enqueue leaves the chunks tiling the ring up to the new write tail, each byte of the
      stream under its own address, whatever was queued before and wherever the new bytes go. */
  lemma {:induction false} EnqueueTiles(c: Config, p: Loop, from: nat, to: nat, addresses: seq<int>)
    requires LoopValid(c, p) && Tiled(c, p, from, to, addresses) && Enqueue(c, p).Some?
    ensures Tiled(c, Enqueue(c, p).value, from, to + p.len, addresses)
    ensures Enqueue(c, p).value.len == 0
    decreases p.len, LastPending(p.q)
  {
    if p.len > 0 {
      EnqueueRound(c, p);
      RoundTiles(c, p, from, to, addresses);
      var p1 := Round(c, p).value;
      EnqueueTiles(c, p1, from, to + (p.len - p1.len), addresses);
    }
  }

  // ---------- no chunk crosses the end of the buffer ----------

  ghost predicate NoCrossing(c: Config, q: seq<Chunk>) {
    forall i :: 0 <= i < |q| ==> q[i].start + q[i].len <= c.ringSize
  }

  /** When alignment is ignored a chunk is cut at the end of the decoded buffer. */
  lemma {:induction false} IgnoredAlignmentNeverCrosses(c: Config, p: Loop)
    requires LoopValid(c, p) && c.ignoreAlignment && NoCrossing(c, p.q) && Enqueue(c, p).Some?
    ensures NoCrossing(c, Enqueue(c, p).value.q)
    decreases p.len, LastPending(p.q)
  {
    if p.len > 0 {
      IgnoredAlignmentNeverCrosses(c, Round(c, p).value);
    }
  }

  lemma Powers()
    ensures PowerOfTwo(32) && PowerOfTwo(128) && PowerOfTwo(2048)
  {
    assert PowerOfTwo(8);
    assert PowerOfTwo(32);
    assert PowerOfTwo(128);
    assert PowerOfTwo(512);
  }

  // ---------- contiguous streams in pages ----------

  /** The chunk that holds the stream positions [pos, pos + len), at addresses equal to the positions. */
  ghost predicate PageAt(c: Config, w: Chunk, pos: nat, len: nat)
    requires c.ringSize > 0 && c.page > 0
  {
    && w.addr == pos && w.start == Index(pos, c.ringSize) && w.len == len
    && pos % c.page == 0 && 0 < len <= c.page && (w.pending <==> len < c.page)
  }

  /** The chunks are the pages of [from, to); only the last can be short, and then it is pending. */
  ghost predicate Paged(c: Config, q: seq<Chunk>, from: nat, to: nat)
    requires c.ringSize > 0 && c.page > 0
    decreases |q|
  {
    if q == [] then from == to else
      var w := q[|q| - 1];
      && from <= w.addr < to && PageAt(c, w, w.addr, to - w.addr)
      && Paged(c, q[..|q| - 1], from, w.addr)
      && (|q| > 1 ==> !q[|q| - 2].pending)
  }

  lemma PageEnd(c: Config, pos: nat)
    requires c.Valid() && pos % c.page == 0
    ensures (pos + c.page) % c.page == 0
    ensures Index(pos, c.ringSize) % c.page == 0 && Index(pos, c.ringSize) + c.page <= c.ringSize
  {
    ModShift(pos, 1, c.page);
    PagesDivideRing(c.page, c.ringSize);
    var m, i := c.ringSize / c.page, Index(pos, c.ringSize);
    var k := pos / c.ringSize;
    assert pos == c.ringSize * k + i;
    assert c.ringSize == c.page * m;
    assert c.ringSize * k == c.page * (m * k);
    ModShift(pos, -(m * k), c.page);
    assert pos + c.page * -(m * k) == i;
    MultipleBelow(i, m, c.page);
  }

  /** A multiple of the page below m pages leaves room for one more page. */
  lemma MultipleBelow(i: nat, m: nat, page: nat)
    requires page > 0 && i % page == 0 && i < page * m
    ensures i + page <= page * m
  {
    var k := i / page;
    assert i == page * k;
    MultipleBounds(page, m - k);
  }

  lemma {:induction false} PagesDivideRing(a: nat, b: nat)
    requires PowerOfTwo(a) && PowerOfTwo(b) && a <= b
    ensures b % a == 0 && b == a * (b / a)
    decreases a
  {
    if a > 1 {
      PagesDivideRing(a / 2, b / 2);
      assert b == 2 * (b / 2) && a == 2 * (a / 2);
      var q := (b / 2) / (a / 2);
      assert b == a * q by {
        assert a * q == 2 * ((a / 2) * q);
      }
      ModUnique(b, a, q, 0);
    }
  }

  /** Where the last chunk is full, the stream position is at a page boundary. */
  lemma FullToBoundary(c: Config, q: seq<Chunk>, from: nat, to: nat)
    requires c.Valid() && Paged(c, q, from, to) && q != [] && !LastPending(q)
    ensures to % c.page == 0
  {
    PageEnd(c, q[|q| - 1].addr);
  }

  lemma GrowPage(c: Config, q: seq<Chunk>, from: nat, to: nat, l: nat)
    requires c.Valid() && Paged(c, q, from, to) && LastPending(q)
    requires var w := q[|q| - 1]; w.len + l <= c.page
    ensures var w := q[|q| - 1];
      Paged(c, q[|q| - 1 := w.(len := w.len + l, pending := w.len + l != c.page)], from, to + l)
  {
    var n := |q| - 1;
    var w := q[n];
    assert q[n := w.(len := w.len + l, pending := w.len + l != c.page)][..n] == q[..n];
  }

  lemma AddPage(c: Config, q: seq<Chunk>, from: nat, to: nat, w: Chunk)
    requires c.Valid() && Paged(c, q, from, to) && !LastPending(q) && PageAt(c, w, to, w.len)
    ensures Paged(c, q + [w], from, to + w.len)
  {
    assert (q + [w])[..|q|] == q;
    PagedOrder(c, q, from, to);
  }

  lemma {:induction false} PagedOrder(c: Config, q: seq<Chunk>, from: nat, to: nat)
    requires c.Valid() && Paged(c, q, from, to)
    ensures from <= to && (q != [] ==> from < to)
  {
  }

  /** n pages, the last of them perhaps short, hold more than n - 1 and at most n times the page size. */
  lemma {:induction false} PagedCount(c: Config, q: seq<Chunk>, from: nat, to: nat)
    requires c.Valid() && Paged(c, q, from, to) && q != []
    ensures from % c.page == 0 && q[0].addr == from
    ensures c.page * (|q| - 1) < to - from <= c.page * |q|
    ensures !LastPending(q) ==> to - from == c.page * |q|
    decreases |q|
  {
    var n, w := |q| - 1, q[|q| - 1];
    if n > 0 {
      PagedCount(c, q[..n], from, w.addr);
      assert c.page * n + c.page == c.page * |q|;
    }
  }

  ghost predicate Contiguous(c: Config, p: Loop, from: nat, to: nat)
    requires c.ringSize > 0 && c.page > 0
  {
    && Paged(c, p.q, from, to) && (p.q == [] ==> to % c.page == 0)
    && p.tail == Index(to, c.ringSize) && p.addr == to
  }

  lemma RoundGrows(c: Config, p: Loop, from: nat, to: nat)
    requires LoopValid(c, p) && p.len > 0 && Contiguous(c, p, from, to) && LastPending(p.q)
    ensures var r := Round(c, p);
      r.Some? && r.value.len < p.len && Contiguous(c, r.value, from, to + (p.len - r.value.len))
  {
    var w := p.q[|p.q| - 1];
    var l := Min(p.len, c.page - w.len);
    assert p.addr == w.addr + w.len;
    GrowPage(c, p.q, from, to, l);
    Advance(to, l, c.ringSize);
  }

  lemma RoundAdds(c: Config, p: Loop, from: nat, to: nat)
    requires LoopValid(c, p) && p.len > 0 && !c.ignoreAlignment && Contiguous(c, p, from, to)
    requires !LastPending(p.q) && |p.q| < c.slots - 1
    ensures var r := Round(c, p);
      r.Some? && r.value.len < p.len && Contiguous(c, r.value, from, to + (p.len - r.value.len))
  {
    if p.q != [] {
      FullToBoundary(c, p.q, from, to);
    }
    MaskIsMod(p.addr, c.page);
    var w := NewChunk(c, p);
    AddPage(c, p.q, from, to, w);
    Advance(to, w.len, c.ringSize);
  }

  /** A round on a contiguous, page-aligned stream continues it in pages, and fails only when all slots
      are taken by full pages. */
  lemma RoundPages(c: Config, p: Loop, from: nat, to: nat)
    requires LoopValid(c, p) && p.len > 0 && !c.ignoreAlignment && Contiguous(c, p, from, to)
    ensures var r := Round(c, p);
      && (r.None? ==> |p.q| == c.slots - 1 && to - from == c.page * |p.q|)
      && (r.Some? ==> r.value.len < p.len && Contiguous(c, r.value, from, to + (p.len - r.value.len)))
  {
    if LastPending(p.q) {
      RoundGrows(c, p, from, to);
    } else if |p.q| < c.slots - 1 {
      RoundAdds(c, p, from, to);
    } else {
      PagedCount(c, p.q, from, to);
    }
  }

  /** Whether the chunk slots can hold a full ring, in pages. */
  predicate EnoughSlots(c: Config) {
    c.page * (c.slots - 1) >= c.ringSize - 1
  }

  /** On a contiguous stream that fits the ring, with enough slots, enqueue never fails. */
  lemma {:induction false} EnqueuePages(c: Config, p: Loop, from: nat, to: nat)
    requires LoopValid(c, p) && !c.ignoreAlignment && Contiguous(c, p, from, to)
    ensures Enqueue(c, p).Some? ==> Contiguous(c, Enqueue(c, p).value, from, to + p.len)
    ensures EnoughSlots(c) && to + p.len - from < c.ringSize ==> Enqueue(c, p).Some?
    decreases p.len
  {
    if p.len > 0 {
      RoundPages(c, p, from, to);
      var r := Round(c, p);
      if r.Some? {
        EnqueuePages(c, r.value, from, to + (p.len - r.value.len));
      }
    }
  }

  /** Enqueue succeeds on every stretch that fits an empty ring exactly when there are enough slots. */
  lemma EnqueueNeverFailsExactly(c: Config)
    requires c.Valid() && !c.ignoreAlignment
    ensures (forall pos: nat, len: nat :: pos % c.page == 0 && len < c.ringSize ==>
              Enqueue(c, Loop([], Index(pos, c.ringSize), len, pos)).Some?) <==> EnoughSlots(c)
  {
    if EnoughSlots(c) {
      forall pos: nat, len: nat | pos % c.page == 0 && len < c.ringSize
        ensures Enqueue(c, Loop([], Index(pos, c.ringSize), len, pos)).Some?
      {
        EnqueuePages(c, Loop([], Index(pos, c.ringSize), len, pos), pos, pos);
      }
    } else {
      TooFewSlotsFail(c);
    }
  }

  /** The number of chunks bounds what can be queued. */
  lemma PagedAtMost(c: Config, q: seq<Chunk>, from: nat, to: nat, most: nat)
    requires c.Valid() && Paged(c, q, from, to) && |q| <= most
    ensures to - from <= c.page * most
  {
    if q != [] {
      PagedCount(c, q, from, to);
      MultipleGrows(c.page, |q|, most);
    }
  }

  lemma MultipleGrows(page: nat, m: nat, n: nat)
    requires m <= n
    ensures page * m <= page * n
  {
  }

  lemma TooFewSlotsFail(c: Config)
    requires c.Valid() && !c.ignoreAlignment && !EnoughSlots(c)
    ensures 0 % c.page == 0 && Enqueue(c, Loop([], Index(0, c.ringSize), c.ringSize - 1, 0)).None?
  {
    SmallMod(0, c.page);
    var p := Loop([], Index(0, c.ringSize), c.ringSize - 1, 0);
    EnqueuePages(c, p, 0, 0);
    if Enqueue(c, p).Some? {
      PagedAtMost(c, Enqueue(c, p).value.q, 0, c.ringSize - 1, c.slots - 1);
      assert false;
    }
  }

  lemma {:induction false} PagedNoCrossing(c: Config, q: seq<Chunk>, from: nat, to: nat)
    requires c.Valid() && Paged(c, q, from, to)
    ensures NoCrossing(c, q)
    ensures forall i :: 0 <= i < |q| ==> q[i].addr % c.page == 0 && q[i].start % c.page == 0
    decreases |q|
  {
    if q != [] {
      var n := |q| - 1;
      PagedNoCrossing(c, q[..n], from, q[n].addr);
      PageEnd(c, q[n].addr);
      assert forall i :: 0 <= i < n ==> q[i] == q[..n][i];
    }
  }

  /** The oldest chunk is the first page; without it the rest are still the pages of the rest. */
  lemma {:induction false} PagedFirst(c: Config, q: seq<Chunk>, from: nat, to: nat)
    requires c.Valid() && Paged(c, q, from, to) && q != []
    ensures var w := q[0];
      && PageAt(c, w, from, w.len) && from + w.len <= to
      && Paged(c, q[1..], from + w.len, to) && (q[1..] != [] ==> !w.pending)
    decreases |q|
  {
    var n := |q| - 1;
    if n > 0 {
      PagedFirst(c, q[..n], from, q[n].addr);
      assert q[1..][..n - 1] == q[..n][1..];
    }
  }

  // ---------- the size of the decoded ring ----------

  /** _bf_init: the decoded ring is cut to a multiple of the chunk size the target asks for. */
  function RoundedSize(dbSize: nat, cs: nat): nat
    requires cs > 0
  {
    (dbSize / cs) * cs
  }

  lemma {:induction false} DivisorOfPower(a: nat, k: nat)
    requires a > 0 && PowerOfTwo(a * k)
    ensures PowerOfTwo(a)
    decreases a * k
  {
    if a * k > 1 {
      if a % 2 == 0 {
        assert (a * k) / 2 == (a / 2) * k by {
          assert a * k == 2 * ((a / 2) * k);
        }
        DivisorOfPower(a / 2, k);
      } else {
        assert k % 2 == 0 by {
          OddTimesOdd(a, k);
        }
        assert (a * k) / 2 == a * (k / 2) by {
          assert a * k == 2 * (a * (k / 2));
        }
        DivisorOfPower(a, k / 2);
      }
    }
  }

  lemma OddTimesOdd(a: nat, k: nat)
    requires a % 2 == 1 && (a * k) % 2 == 0
    ensures k % 2 == 0
  {
    var h := a / 2;
    assert a * k == 2 * (h * k) + k;
  }

  lemma RoundedBounds(dbSize: nat, cs: nat)
    requires 0 < cs <= dbSize
    ensures var r := RoundedSize(dbSize, cs);
      cs <= r <= dbSize < r + cs && r == cs * (dbSize / cs)
  {
    var k := dbSize / cs;
    assert dbSize == cs * k + dbSize % cs;
    assert k >= 1;
    MultipleBounds(cs, k);
  }

  /** The mask arithmetic works on the rounded decoded ring exactly when the page size is a power of two. */
  lemma RoundedSizeUsable(dbSize: nat, cs: nat)
    requires PowerOfTwo(dbSize) && 0 < cs <= dbSize
    ensures PowerOfTwo(RoundedSize(dbSize, cs)) <==> PowerOfTwo(cs)
    ensures PowerOfTwo(cs) ==> RoundedSize(dbSize, cs) == dbSize
  {
    var r := RoundedSize(dbSize, cs);
    RoundedBounds(dbSize, cs);
    if PowerOfTwo(cs) {
      PagesDivideRing(cs, dbSize);
    }
    if PowerOfTwo(r) {
      DivisorOfPower(cs, dbSize / cs);
    }
  }
}
