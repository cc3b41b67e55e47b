/** An Intel HEX upload from its text to the flash: the pipeline of src/binary-file.c with the decoder of
    src/binary-format-ihex.c. What the target has written is always the first of the file's bytes, each at the
    address the file gives it, unless a decoder call has lost data for lack of room. */
module HexPipe {
  import opened Basics
  import opened Bytes
  import opened IhexRuns
  import opened IhexRoom
  import opened IhexSchedules
  import opened WriteChunks
  import H = IntelHex
  import F = FirmwarePipe
  import Ring

  /** hex is the decoder; ring is all it has ever put into the decoded ring, and places are the addresses of the bytes
      that were queued. The first acked of them were acknowledged, q are the chunks of the others. offer is the chunk
      the target is writing, flash the chunks it has written. The end of file is marked by the decoder alone. */
  datatype Upload = Upload(hex: Hex, ring: seq<byte>, places: seq<nat>, q: seq<Chunk>, acked: nat,
                           offer: Option<F.Write>, flash: seq<F.Write>, flushing: bool, reallyWritten: bool,
                           estimate: nat)

  // ---------- the steps ----------

  function Space(c: Config, u: Upload): int {
    c.ringSize - 1 - (|u.ring| - u.acked)
  }

  /** Whether _bf_do_write has a chunk for the target. */
  predicate HasOffer(u: Upload, busy: bool, mustErase: bool) {
    F.HasChunk(u.q, u.hex.eof, busy, mustErase)
  }

  function Marked(q: seq<Chunk>): seq<Chunk>
    requires q != []
  {
    q[0 := q[0].(writePending := true)]
  }

  /** _bf_do_write, for a target whose chunk_available succeeds, and a chunk inside the decoded ring. */
  ghost predicate Offers(c: Config, u: Upload, busy: bool, mustErase: bool, u': Upload) {
    if !HasOffer(u, busy, mustErase) then u' == u else
      var w := u.q[0];
      && u.acked + w.len <= |u.ring| && w.start + w.len <= c.ringSize
      && u' == u.(q := Marked(u.q), offer := Some(F.Write(w.addr, u.ring[u.acked..u.acked + w.len])))
  }

  function Run(addr: nat, n: nat): (p: seq<nat>)
    ensures |p| == n
  {
    seq(n, k requires 0 <= k => addr + k)
  }

  /** _bf_do_flush, without an error return. A decoder call that returns 0 leaves its bytes in the decoded ring, and
      nothing is queued. */
  ghost predicate Flushes(c: Config, u: Upload, u': Upload) {
    if u.hex.arrived == 0 || u.hex.eof || Space(c, u) < 2 * u.estimate then u' == u
    else
      && u.hex.arrived <= |u.hex.rest| && Space(c, u) >= 0
      && var r := CallOn(u.hex, Space(c, u));
      if r.Lost? then u' == u.(hex := Dropped(u.hex, r.c), ring := u.ring + r.c.out)
      else
        && r.Stop?
        && var s := Returned(u.hex, r.c, r.eof);
        if r.c.out == [] then u' == u.(hex := s)
        else Queues(c, u, s, H.U32(r.c.addr), r.c.out, u')
  }

  /** bf_enqueue_for_writing of the bytes x, from address addr on. */
  ghost predicate Queues(c: Config, u: Upload, s: Hex, addr: nat, x: seq<byte>, u': Upload) {
    && c.Valid() && WellFormed(c, u.q)
    && var n := |x|;
    var l := Enqueue(c, Loop(u.q, Ring.Index(|u.places|, c.ringSize), n, addr));
    && l.Some?
    && u' == u.(hex := s, ring := u.ring + x, places := u.places + Run(addr, n), q := l.value.q,
                estimate := if n > u.estimate then n else u.estimate)
  }

  /** dfu_binary_file_chunk_done */
  function Done(u: Upload, ok: bool): Upload
    requires u.offer.Some? && u.q != []
  {
    if !ok then u else
      u.(acked := u.acked + u.q[0].len, q := u.q[1..], flash := u.flash + [u.offer.value], offer := None,
         reallyWritten := u.reallyWritten || (u.hex.eof && |u.q| == 1))
  }

  datatype Step = TextComes(n: nat) | StartFlush | Idle(busy: bool, mustErase: bool) | ChunkDone(ok: bool)

  ghost predicate Goes(c: Config, u: Upload, e: Step, u': Upload) {
    match e
    case TextComes(n) =>
      && u.hex.arrived + n <= |u.hex.rest| && u.hex.arrived + n < c.inputSize
      && u' == u.(hex := u.hex.(arrived := u.hex.arrived + n))
    case StartFlush => u' == u.(flushing := true)
    case Idle(busy, mustErase) =>
      exists u1 :: Offers(c, u, busy, mustErase, u1) && (if u.flushing then Flushes(c, u1, u') else u' == u1)
    case ChunkDone(ok) => u.offer.Some? && u.q != [] && u' == Done(u, ok)
  }

  function Fresh(text: seq<byte>, estimate: nat): Upload {
    Upload(Hex(text, 0, 0, [], false, false), [], [], [], 0, None, [], false, false, estimate)
  }

  ghost predicate UploadRuns(c: Config, text: seq<byte>, es: seq<Step>, u: Upload)
    decreases |es|
  {
    if es == [] then exists estimate: nat :: u == Fresh(text, estimate) else
      var n := |es| - 1;
      exists u0 :: Goes(c, u0, es[n], u) && UploadRuns(c, text, es[..n], u0)
  }

  // ---------- the invariant ----------

  /** The bytes and addresses of a list of writes. */
  function Placed(flash: seq<F.Write>): seq<(nat, byte)> {
    if flash == [] then [] else
      var w := flash[|flash| - 1];
      Placed(flash[..|flash| - 1]) + Place(w.addr, w.data)
  }

  ghost predicate Numbered(out: seq<(nat, byte)>, places: seq<nat>) {
    |places| == |out| && forall i :: 0 <= i < |places| ==> out[i].0 == H.U32(places[i])
  }

  /** The addresses of the decoded bytes, with the bytes that the decoded ring has in their place. */
  function Stored(out: seq<(nat, byte)>, ring: seq<byte>): (s: seq<(nat, byte)>)
    requires |out| <= |ring|
    ensures |s| == |out|
  {
    seq(|out|, k requires 0 <= k < |out| => (out[k].0, ring[k]))
  }

  /** Only the oldest chunk can be with the target, and the target has its bytes. */
  ghost predicate Offered(u: Upload) {
    && (u.offer.Some? <==> u.q != [] && u.q[0].writePending)
    && (forall i :: 1 <= i < |u.q| ==> !u.q[i].writePending)
    && (u.offer.Some? ==>
          && u.acked + u.q[0].len <= |u.ring|
          && u.offer.value == F.Write(u.q[0].addr, u.ring[u.acked..u.acked + u.q[0].len])
          && (u.q[0].pending ==> u.hex.eof))
  }

  /** What is in the decoded ring is what was decoded, as long as nothing was lost. */
  ghost predicate RingRight(hex: Hex, ring: seq<byte>) {
    !hex.lost ==> |ring| == |hex.out| && forall k :: 0 <= k < |ring| ==> ring[k] == hex.out[k].1
  }

  ghost predicate Good(c: Config, u: Upload) {
    && c.Valid() && WellFormed(c, u.q) && Numbered(u.hex.out, u.places) && RingRight(u.hex, u.ring)
    && u.acked <= |u.places| <= |u.ring| && Tiles(u.q, u.acked, |u.places|, u.places, c.ringSize)
    && Offered(u) && Placed(u.flash) == Stored(u.hex.out, u.ring)[..u.acked]
    && (u.reallyWritten ==> u.hex.eof && u.acked == |u.places|)
  }

  // ---------- chunks ----------

  /** A chunk's bytes at its addresses are the stored bytes at theirs. */
  lemma ChunkPlaces(w: Chunk, pos: nat, out: seq<(nat, byte)>, ring: seq<byte>, places: seq<nat>, ringSize: nat)
    requires ringSize > 0 && Numbered(out, places) && |out| <= |ring| && Holds(w, pos, places, ringSize)
    ensures Place(w.addr, ring[pos..pos + w.len]) == Stored(out, ring)[pos..pos + w.len]
  {
    var placed := Place(w.addr, ring[pos..pos + w.len]);
    forall k | 0 <= k < w.len
      ensures placed[k] == Stored(out, ring)[pos + k]
    {
      assert places[pos + k] == w.addr + k;
    }
  }

  lemma {:induction false} TilesMore(q: seq<Chunk>, from: nat, to: nat, places: seq<nat>, more: seq<nat>, ringSize: nat)
    requires ringSize > 0 && Tiles(q, from, to, places, ringSize)
    ensures Tiles(q, from, to, places + more, ringSize)
    decreases |q|
  {
    if q != [] {
      var w := q[|q| - 1];
      TilesMore(q[..|q| - 1], from, to - w.len, places, more, ringSize);
      assert Holds(w, to - w.len, places + more, ringSize);
    }
  }

  /** The oldest chunk holds the first bytes, the others the rest. */
  lemma {:induction false} TilesFirst(q: seq<Chunk>, from: nat, to: nat, places: seq<nat>, ringSize: nat)
    requires ringSize > 0 && Tiles(q, from, to, places, ringSize) && q != []
    ensures Holds(q[0], from, places, ringSize) && Tiles(q[1..], from + q[0].len, to, places, ringSize)
    decreases |q|
  {
    var n := |q| - 1;
    if n > 0 {
      TilesFirst(q[..n], from, to - q[n].len, places, ringSize);
      assert q[1..][..n - 1] == q[..n][1..];
      TilesOrder(q[..n][1..], from + q[0].len, to - q[n].len, places, ringSize);
    }
  }

  lemma {:induction false} TilesMarked(q: seq<Chunk>, i: nat, from: nat, to: nat, places: seq<nat>, ringSize: nat)
    requires ringSize > 0 && Tiles(q, from, to, places, ringSize) && i < |q|
    ensures Tiles(q[i := q[i].(writePending := true)], from, to, places, ringSize)
    decreases |q|
  {
    var n, q' := |q| - 1, q[i := q[i].(writePending := true)];
    if i < n {
      TilesMarked(q[..n], i, from, to - q[n].len, places, ringSize);
      assert q'[..n] == q[..n][i := q[i].(writePending := true)];
    } else {
      assert q'[..n] == q[..n];
    }
  }

  // ---------- every step keeps it ----------

  lemma OfferKeeps(c: Config, u: Upload, busy: bool, mustErase: bool, u': Upload)
    requires Good(c, u) && Offers(c, u, busy, mustErase, u')
    ensures Good(c, u')
  {
    if HasOffer(u, busy, mustErase) {
      TilesMarked(u.q, 0, u.acked, |u.places|, u.places, c.ringSize);
    }
  }

  lemma NumberedMore(out: seq<(nat, byte)>, places: seq<nat>, addr: nat, x: seq<byte>)
    requires Numbered(out, places)
    ensures Numbered(out + Place(addr, x), places + Run(addr, |x|))
  {
  }

  lemma PlaceU32(addr: nat, x: seq<byte>)
    ensures Place(H.U32(addr), x) == Place(addr, x)
  {
    forall k | 0 <= k < |x|
      ensures Place(H.U32(addr), x)[k] == Place(addr, x)[k]
    {
      U32Sum(addr, k);
    }
  }

  lemma StoredMore(out: seq<(nat, byte)>, more: seq<(nat, byte)>, ring: seq<byte>, x: seq<byte>, n: nat)
    requires n <= |out| <= |ring| && |more| <= |x|
    ensures Stored(out + more, ring + x)[..n] == Stored(out, ring)[..n]
  {
  }

  lemma RingMore(hex: Hex, ring: seq<byte>, addr: nat, x: seq<byte>, hex': Hex)
    requires RingRight(hex, ring) && hex'.out == hex.out + Place(addr, x) && hex'.lost == hex.lost
    ensures RingRight(hex', ring + x)
  {
  }

  /** More decoded bytes change nothing about those before. */
  lemma OfferedMore(u: Upload, s: Hex, q: seq<Chunk>, x: seq<byte>, u': Upload)
    requires Offered(u) && !u.hex.eof
    requires u'.q == q && u'.hex == s && u'.ring == u.ring + x && u'.offer == u.offer && u'.acked == u.acked
    requires |q| >= |u.q| && (forall i :: 1 <= i < |q| ==> !q[i].writePending)
    requires q != [] ==> q[0].writePending == (u.q != [] && u.q[0].writePending)
    requires u.offer.Some? ==> q[0] == u.q[0]
    ensures Offered(u')
  {
    if u.offer.Some? {
      assert u'.ring[u.acked..u.acked + u.q[0].len] == u.ring[u.acked..u.acked + u.q[0].len];
    }
  }

  /** The chunks after a call that queues the bytes x. */
  lemma QueuesTiles(c: Config, u: Upload, s: Hex, addr: nat, x: seq<byte>, u': Upload)
    requires Good(c, u) && !u.hex.eof && Queues(c, u, s, addr, x, u')
    ensures WellFormed(c, u'.q) && Tiles(u'.q, u.acked, |u'.places|, u'.places, c.ringSize) && Offered(u')
  {
    var l := Loop(u.q, Ring.Index(|u.places|, c.ringSize), |x|, addr);
    var places, n := u.places + Run(addr, |x|), |u.places|;
    TilesMore(u.q, u.acked, n, u.places, Run(addr, |x|), c.ringSize);
    assert Tiled(c, l, u.acked, n, places);
    EnqueueTiles(c, l, u.acked, n, places);
    F.EnqueueKeepsMarks(c, l);
    if u.offer.Some? {
      F.EnqueueKeepsFirst(c, l);
    }
    OfferedMore(u, s, u'.q, x, u');
  }

  lemma QueuesKeeps(c: Config, u: Upload, s: Hex, addr: nat, x: seq<byte>, u': Upload)
    requires Good(c, u) && !u.hex.eof && s.out == u.hex.out + Place(addr, x) && s.lost == u.hex.lost
      && Queues(c, u, s, addr, x, u')
    ensures Good(c, u')
  {
    QueuesTiles(c, u, s, addr, x, u');
    NumberedMore(u.hex.out, u.places, addr, x);
    RingMore(u.hex, u.ring, addr, x, s);
    StoredMore(u.hex.out, Place(addr, x), u.ring, x, u.acked);
  }

  /** A call that loses data. */
  lemma LostKeeps(c: Config, u: Upload, s: Hex, x: seq<byte>)
    requires Good(c, u) && !u.hex.eof && s.out == u.hex.out && s.lost && !s.eof
    ensures Good(c, u.(hex := s, ring := u.ring + x))
  {
    var u' := u.(hex := s, ring := u.ring + x);
    OfferedMore(u, s, u.q, x, u');
    StoredMore(u.hex.out, [], u.ring, x, u.acked);
    assert u.hex.out + [] == u.hex.out;
  }

  lemma CallKeeps(c: Config, u: Upload, s: Hex)
    requires Good(c, u) && !u.hex.eof && s.out == u.hex.out && s.lost == u.hex.lost
    ensures Good(c, u.(hex := s))
  {
  }

  lemma FlushKeeps(c: Config, u: Upload, u': Upload)
    requires Good(c, u) && Flushes(c, u, u')
    ensures Good(c, u')
  {
    if u' != u {
      var r := CallOn(u.hex, Space(c, u));
      if r.Lost? {
        LostKeeps(c, u, Dropped(u.hex, r.c), r.c.out);
      } else {
        var s := Returned(u.hex, r.c, r.eof);
        if r.c.out == [] {
          assert s.out == u.hex.out;
          CallKeeps(c, u, s);
        } else {
          PlaceU32(r.c.addr, r.c.out);
          QueuesKeeps(c, u, s, H.U32(r.c.addr), r.c.out, u');
        }
      }
    }
  }

  lemma PlacedMore(flash: seq<F.Write>, w: F.Write)
    ensures Placed(flash + [w]) == Placed(flash) + Place(w.addr, w.data)
  {
    assert (flash + [w])[..|flash|] == flash;
  }

  lemma DoneWrites(c: Config, u: Upload)
    requires Good(c, u) && u.offer.Some? && u.q != []
    ensures var u' := Done(u, true);
      && u'.acked <= |u.places| && Tiles(u'.q, u'.acked, |u.places|, u.places, c.ringSize)
      && Placed(u'.flash) == Stored(u.hex.out, u.ring)[..u'.acked]
  {
    var n, stored := u.acked + u.q[0].len, Stored(u.hex.out, u.ring);
    TilesFirst(u.q, u.acked, |u.places|, u.places, c.ringSize);
    TilesOrder(u.q[1..], n, |u.places|, u.places, c.ringSize);
    ChunkPlaces(u.q[0], u.acked, u.hex.out, u.ring, u.places, c.ringSize);
    PlacedMore(u.flash, u.offer.value);
    assert stored[..u.acked] + stored[u.acked..n] == stored[..n];
  }

  lemma DoneKeeps(c: Config, u: Upload, ok: bool)
    requires Good(c, u) && u.offer.Some? && u.q != []
    ensures Good(c, Done(u, ok))
  {
    if ok {
      var q := Done(u, ok).q;
      DoneWrites(c, u);
      assert forall i :: 0 <= i < |q| ==> q[i] == u.q[i + 1];
    }
  }

  lemma StepKeeps(c: Config, u: Upload, e: Step, u': Upload)
    requires Good(c, u) && Goes(c, u, e, u')
    ensures Good(c, u')
  {
    match e
    case TextComes(n) =>
    case StartFlush =>
    case Idle(busy, mustErase) =>
      var u1 :| Offers(c, u, busy, mustErase, u1) && (if u.flushing then Flushes(c, u1, u') else u' == u1);
      OfferKeeps(c, u, busy, mustErase, u1);
      if u.flushing {
        FlushKeeps(c, u1, u');
      }
    case ChunkDone(ok) => DoneKeeps(c, u, ok);
  }

  // ---------- the decoder in the pipeline is the decoder of a run ----------

  ghost predicate HexRuns(text: seq<byte>, s: Hex) {
    exists es :: Reached(text, es, s)
  }

  lemma ReachedMore(text: seq<byte>, es: seq<Event>, s: Hex, e: Event, s': Hex)
    requires Reached(text, es, s) && Follows(s, e, s')
    ensures Reached(text, es + [e], s')
  {
    assert (es + [e])[..|es|] == es;
  }

  lemma HexGoes(text: seq<byte>, s: Hex, e: Event, s': Hex)
    requires HexRuns(text, s) && Follows(s, e, s')
    ensures HexRuns(text, s')
  {
    var es :| Reached(text, es, s);
    ReachedMore(text, es, s, e, s');
  }

  lemma FlushDecodes(text: seq<byte>, c: Config, u: Upload, u': Upload)
    requires HexRuns(text, u.hex) && Flushes(c, u, u')
    ensures HexRuns(text, u'.hex)
  {
    if u' != u {
      assert Follows(u.hex, Call(Space(c, u)), u'.hex);
      HexGoes(text, u.hex, Call(Space(c, u)), u'.hex);
    }
  }

  lemma StepDecodes(text: seq<byte>, c: Config, u: Upload, e: Step, u': Upload)
    requires HexRuns(text, u.hex) && Goes(c, u, e, u')
    ensures HexRuns(text, u'.hex)
  {
    match e
    case TextComes(n) => HexGoes(text, u.hex, Arrive(n), u'.hex);
    case StartFlush =>
    case Idle(busy, mustErase) =>
      var u1 :| Offers(c, u, busy, mustErase, u1) && (if u.flushing then Flushes(c, u1, u') else u' == u1);
      if u.flushing {
        FlushDecodes(text, c, u1, u');
      }
    case ChunkDone(ok) =>
  }

  lemma {:induction false} RunKeeps(c: Config, text: seq<byte>, es: seq<Step>, u: Upload)
    requires c.Valid() && UploadRuns(c, text, es, u)
    ensures Good(c, u) && HexRuns(text, u.hex)
    decreases |es|
  {
    if es == [] {
      assert Reached(text, [], u.hex);
    } else {
      var n := |es| - 1;
      var u0 :| Goes(c, u0, es[n], u) && UploadRuns(c, text, es[..n], u0);
      RunKeeps(c, text, es[..n], u0);
      StepKeeps(c, u0, es[n], u);
      StepDecodes(text, c, u0, es[n], u);
    }
  }

  /** In every state of every run in which no decoder call has lost data, the target has written exactly the first
      acked of the file's bytes, each at the address the file gives it; and "really written" means that it has
      written the whole file. */
  lemma RunWritesFile(c: Config, lead: seq<byte>, ls: seq<HexLine>, es: seq<Step>, u: Upload)
    requires c.Valid() && NoColon(lead) && ValidLines(ls) && Steady(ls, 0, Nowhere)
    requires UploadRuns(c, lead + Text(ls), es, u)
    ensures !u.hex.lost ==> u.acked <= |Pairs(ls, 0)| && Placed(u.flash) == Pairs(ls, 0)[..u.acked]
    ensures !u.hex.lost && u.reallyWritten ==> Placed(u.flash) == Pairs(ls, 0)
  {
    var text, pairs := lead + Text(ls), Pairs(ls, 0);
    RunKeeps(c, text, es, u);
    var hes :| Reached(text, hes, u.hex);
    ArrivalIndependence(lead, ls, hes, u.hex);
    if !u.hex.lost {
      StoredRight(u.hex, u.ring);
      assert u.hex.out[..u.acked] == pairs[..u.acked];
    }
  }

  lemma StoredRight(hex: Hex, ring: seq<byte>)
    requires RingRight(hex, ring) && !hex.lost
    ensures Stored(hex.out, ring) == hex.out
  {
  }

  /** A steady file that is reported as really written is the one the target has written, byte by byte, if and only if
      no decoder call has lost data for lack of room. */
  lemma ReallyWrittenExactly(c: Config, lead: seq<byte>, ls: seq<HexLine>, es: seq<Step>, u: Upload)
    requires c.Valid() && NoColon(lead) && Decodable(ls) && Steady(ls, 0, Nowhere)
    requires UploadRuns(c, lead + Text(ls), es, u) && u.reallyWritten
    ensures Placed(u.flash) == Pairs(ls, 0) <==> !u.hex.lost
  {
    RunWritesFile(c, lead, ls, es, u);
    RunKeeps(c, lead + Text(ls), es, u);
    if u.hex.lost {
      var hes :| Reached(lead + Text(ls), hes, u.hex);
      var lead', ls' := RunCounted(lead, ls, hes, u.hex);
      PairsSize(ls, 0);
      assert |Placed(u.flash)| == |u.hex.out| < |Pairs(ls, 0)|;
    }
  }

  /** When a decoder call in the pipeline loses data: with the gate open, and lines with more bytes at consecutive
      addresses than the decoded ring has room for. */
  lemma FlushLosesExactly(c: Config, lead: seq<byte>, ls: seq<HexLine>, es: seq<Step>, u: Upload, u': Upload)
    returns (lead': seq<byte>, ls': seq<HexLine>)
    requires c.Valid() && NoColon(lead) && Decodable(ls) && UploadRuns(c, lead + Text(ls), es, u) && Flushes(c, u, u')
    ensures !u.hex.eof ==> Before(u.hex, lead', ls')
    ensures Decodable(ls')
    ensures u'.hex.lost <==> (u.hex.lost || (u.hex.arrived > 0 && !u.hex.eof && Space(c, u) >= 2 * u.estimate
              && Wanted(u.hex.arrived, |lead'|, ls', u.hex.base, false, 0) > Space(c, u)))
  {
    RunKeeps(c, lead + Text(ls), es, u);
    lead', ls' := lead, ls;
    var hes :| Reached(lead + Text(ls), hes, u.hex);
    if !u.hex.eof {
      lead', ls' := RunCounted(lead, ls, hes, u.hex);
      if Space(c, u) >= 0 {
        LostExactly(u.hex, Space(c, u), lead', ls');
      }
    }
  }

  // ---------- chunks inside the decoded ring ----------

  lemma FlushNeverCrosses(c: Config, u: Upload, u': Upload)
    requires c.Valid() && c.ignoreAlignment && NoCrossing(c, u.q) && Flushes(c, u, u')
    ensures NoCrossing(c, u'.q)
  {
    if u'.q != u.q {
      var r := CallOn(u.hex, Space(c, u));
      IgnoredAlignmentNeverCrosses(c, Loop(u.q, Ring.Index(|u.places|, c.ringSize), |r.c.out|, H.U32(r.c.addr)));
    }
  }

  lemma RestNeverCrosses(c: Config, q: seq<Chunk>)
    requires NoCrossing(c, q) && q != []
    ensures NoCrossing(c, q[1..])
  {
    assert forall i :: 0 <= i < |q[1..]| ==> q[1..][i] == q[i + 1];
  }

  lemma StepNeverCrosses(c: Config, u: Upload, e: Step, u': Upload)
    requires c.Valid() && c.ignoreAlignment && NoCrossing(c, u.q) && Goes(c, u, e, u')
    ensures NoCrossing(c, u'.q)
  {
    match e
    case TextComes(n) =>
    case StartFlush =>
    case Idle(busy, mustErase) =>
      var u1 :| Offers(c, u, busy, mustErase, u1) && (if u.flushing then Flushes(c, u1, u') else u' == u1);
      if u.flushing {
        FlushNeverCrosses(c, u1, u');
      }
    case ChunkDone(ok) => RestNeverCrosses(c, u.q);
  }

  lemma {:induction false} RunNeverCrosses(c: Config, text: seq<byte>, es: seq<Step>, u: Upload)
    requires c.Valid() && c.ignoreAlignment && UploadRuns(c, text, es, u)
    ensures NoCrossing(c, u.q)
    decreases |es|
  {
    if es != [] {
      var n := |es| - 1;
      var u0 :| Goes(c, u0, es[n], u) && UploadRuns(c, text, es[..n], u0);
      RunNeverCrosses(c, text, es[..n], u0);
      StepNeverCrosses(c, u0, es[n], u);
    }
  }

  lemma OfferFits(c: Config, u: Upload)
    requires Good(c, u) && NoCrossing(c, u.q) && u.q != []
    ensures u.acked + u.q[0].len <= |u.ring| && u.q[0].start + u.q[0].len <= c.ringSize
  {
    TilesFirst(u.q, u.acked, |u.places|, u.places, c.ringSize);
  }

  /** Where no chunk crosses the end of the decoded ring, the next chunk can be offered. */
  lemma OfferFollows(c: Config, u: Upload, busy: bool, mustErase: bool) returns (u': Upload)
    requires Good(c, u) && NoCrossing(c, u.q)
    ensures Offers(c, u, busy, mustErase, u')
  {
    u' := u;
    if HasOffer(u, busy, mustErase) {
      var w := u.q[0];
      OfferFits(c, u);
      u' := u.(q := Marked(u.q), offer := Some(F.Write(w.addr, u.ring[u.acked..u.acked + w.len])));
    }
  }

  lemma OfferPossible(c: Config, text: seq<byte>, es: seq<Step>, u: Upload, busy: bool, mustErase: bool)
    returns (u': Upload)
    requires c.Valid() && UploadRuns(c, text, es, u) && NoCrossing(c, u.q)
    ensures Offers(c, u, busy, mustErase, u')
  {
    RunKeeps(c, text, es, u);
    u' := OfferFollows(c, u, busy, mustErase);
  }
}
