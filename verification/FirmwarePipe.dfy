/** The upload pipeline of src/binary-file.c with the raw binary format (src/binary-format-bin.c), as a
    state machine: append, idle and chunk-done steps in any order. */
module FirmwarePipe {
  import opened Basics
  import opened Bytes
  import opened Ring
  import opened WriteChunks
  import opened ChunkPieces

  /** A chunk as the target got it. */
  datatype Write = Write(addr: nat, data: seq<byte>)

  /** input is all that was appended; its first taken bytes were decoded, and the chunks holding the first
      acked bytes were acknowledged. offer is the chunk the target is writing, flash the chunks it has
      written. */
  datatype Pipe = Pipe(input: seq<byte>, taken: nat, acked: nat, q: seq<Chunk>, offer: Option<Write>, flash: seq<Write>,
                       flushing: bool, written: bool, reallyWritten: bool, estimate: nat)

  // ---------- the steps ----------

  function InputSpace(c: Config, p: Pipe): int {
    c.inputSize - 1 - (|p.input| - p.taken)
  }

  function DecodedSpace(c: Config, p: Pipe): int {
    c.ringSize - 1 - (p.taken - p.acked)
  }

  /** _bf_append_data; an empty append is the end-of-file mark. */
  function Append(c: Config, p: Pipe, data: seq<byte>): Pipe {
    if data == [] then p.(written := true)
    else if InputSpace(c, p) < |data| then p
    else p.(input := p.input + data)
  }

  /** Whether _bf_do_write has a chunk for the target: the oldest, once nothing more can be added to it. */
  predicate HasChunk(q: seq<Chunk>, written: bool, busy: bool, mustErase: bool) {
    && !busy && q != [] && !q[0].writePending
    && (q[0].pending ==> written && |q| == 1)
    && !mustErase
  }

  predicate HasOffer(p: Pipe, busy: bool, mustErase: bool) {
    HasChunk(p.q, p.written, busy, mustErase)
  }

  /** _bf_do_write, for a target whose chunk_available succeeds. */
  function Offer(p: Pipe, busy: bool, mustErase: bool): (r: Pipe)
    requires p.q != [] ==> p.acked + p.q[0].len <= |p.input|
  {
    if !HasOffer(p, busy, mustErase) then p else
      var w := p.q[0];
      p.(q := p.q[0 := w.(writePending := true)], offer := Some(Write(w.addr, p.input[p.acked..p.acked + w.len])))
  }

  /** How many bytes _bf_do_flush decodes. */
  function FlushCount(c: Config, p: Pipe): (n: nat)
    requires p.acked <= p.taken <= |p.input|
    ensures p.taken + n <= |p.input|
  {
    var count, space := |p.input| - p.taken, DecodedSpace(c, p);
    if count == 0 || space < 2 * p.estimate || space < 0 then 0 else Min(count, space)
  }

  /** _bf_do_flush with binary_decode_chunk; None is its error return. */
  function Flush(c: Config, p: Pipe): Option<Pipe>
    requires c.Valid() && WellFormed(c, p.q) && p.acked <= p.taken <= |p.input|
  {
    var n := FlushCount(c, p);
    if n == 0 then Some(p)
    else match Enqueue(c, Loop(p.q, Index(p.taken, c.ringSize), n, p.taken))
      case None => None
      case Some(r) => Some(p.(q := r.q, taken := p.taken + n, estimate := if n > p.estimate then n else p.estimate))
  }

  /** _bf_do_write, where the chunks fit the rings. */
  function DoWriteStep(c: Config, p: Pipe, busy: bool, mustErase: bool): Pipe
    requires Structure(c, p)
  {
    FirstFits(c, p);
    Offer(p, busy, mustErase)
  }

  /** dfu_binary_file_on_idle */
  function Idle(c: Config, p: Pipe, busy: bool, mustErase: bool): Option<Pipe>
    requires Structure(c, p)
  {
    var p1 := DoWriteStep(c, p, busy, mustErase);
    if p1.flushing then Flush(c, p1) else Some(p1)
  }

  /** dfu_binary_file_chunk_done; with an error status nothing happens. */
  function Done(p: Pipe, ok: bool): Pipe
    requires p.offer.Some? && p.q != []
  {
    if !ok then p else
      p.(acked := p.acked + p.q[0].len, q := p.q[1..], flash := p.flash + [p.offer.value], offer := None,
         reallyWritten := p.reallyWritten || (p.written && |p.q| == 1))
  }

  // ---------- the invariant ----------

  /** The two rings and the chunks fit together. */
  ghost predicate Structure(c: Config, p: Pipe) {
    && c.Valid() && WellFormed(c, p.q)
    && p.acked <= p.taken <= |p.input|
    && |p.input| - p.taken < c.inputSize && p.taken - p.acked < c.ringSize
    && Laid(c, p.q, p.acked, p.taken)
    && (p.q == [] ==> c.ignoreAlignment || p.taken % c.page == 0 || p.written)
  }

  lemma FirstFits(c: Config, p: Pipe)
    requires Structure(c, p)
    ensures p.q != [] ==> (p.acked + p.q[0].len <= p.taken && p.q[0].addr == p.acked && 0 < p.q[0].len
              && p.q[0].start == Index(p.acked, c.ringSize) && p.q[0].start + p.q[0].len <= c.ringSize)
  {
    if p.q != [] {
      LaidFirst(c, p.q, p.acked, p.taken);
    }
  }

  /** flash is a log of writes that put input[..n] at the addresses 0 to n, in order. */
  ghost predicate Logged(flash: seq<Write>, input: seq<byte>, n: nat)
    decreases |flash|
  {
    if flash == [] then n == 0 else
      var w := flash[|flash| - 1];
      && w.addr + |w.data| == n <= |input| && w.data == input[w.addr..n]
      && Logged(flash[..|flash| - 1], input, w.addr)
  }

  /** Only the oldest chunk can be with the target, and the target has its bytes. A chunk that is still
      pending is offered only when nothing more can be added to it. */
  ghost predicate Offered(p: Pipe) {
    && (p.offer.Some? <==> p.q != [] && p.q[0].writePending)
    && (forall i :: 1 <= i < |p.q| ==> !p.q[i].writePending)
    && (p.offer.Some? ==>
          && p.acked + p.q[0].len <= |p.input|
          && p.offer.value == Write(p.acked, p.input[p.acked..p.acked + p.q[0].len])
          && (p.q[0].pending ==> p.written && p.taken == |p.input|))
  }

  ghost predicate Invariant(c: Config, p: Pipe) {
    && Structure(c, p) && Offered(p) && Logged(p.flash, p.input, p.acked)
    && (p.reallyWritten ==> p.written && p.acked == |p.input|)
  }

  /** The end-of-file mark came after the input ring was drained. */
  ghost predicate MarkedInTime(p: Pipe) {
    p.written ==> p.taken == |p.input|
  }

  // ---------- every step keeps it ----------

  lemma {:induction false} LoggedExtends(flash: seq<Write>, input: seq<byte>, n: nat, more: seq<byte>)
    requires Logged(flash, input, n)
    ensures Logged(flash, input + more, n)
    decreases |flash|
  {
    if flash != [] {
      var w := flash[|flash| - 1];
      LoggedExtends(flash[..|flash| - 1], input, w.addr, more);
      assert (input + more)[w.addr..n] == input[w.addr..n];
    }
  }

  lemma LoggedAppend(flash: seq<Write>, input: seq<byte>, n: nat, w: Write)
    requires Logged(flash, input, n) && w.addr == n && n + |w.data| <= |input| && w.data == input[n..n + |w.data|]
    ensures Logged(flash + [w], input, n + |w.data|)
  {
    assert (flash + [w])[..|flash|] == flash;
  }

  lemma AppendKeeps(c: Config, p: Pipe, data: seq<byte>)
    requires Invariant(c, p) && MarkedInTime(p)
    requires data == [] ==> p.taken == |p.input|
    requires data != [] ==> !p.written
    ensures Invariant(c, Append(c, p, data)) && MarkedInTime(Append(c, p, data))
  {
    if data != [] && InputSpace(c, p) >= |data| {
      LoggedExtends(p.flash, p.input, p.acked, data);
      if p.offer.Some? {
        var n := p.acked + p.q[0].len;
        assert (p.input + data)[p.acked..n] == p.input[p.acked..n];
      }
    }
  }

  lemma OfferKeeps(c: Config, p: Pipe, busy: bool, mustErase: bool)
    requires Invariant(c, p) && MarkedInTime(p)
    ensures p.q != [] ==> p.acked + p.q[0].len <= |p.input|
    ensures Invariant(c, Offer(p, busy, mustErase)) && MarkedInTime(Offer(p, busy, mustErase))
  {
    FirstFits(c, p);
    if HasOffer(p, busy, mustErase) {
      MarkKeepsLaid(c, p.q, p.acked, p.taken, 0, true);
    }
  }

  /** What is queued behind it leaves the oldest chunk alone, unless that chunk is the one being filled. */
  lemma {:induction false} EnqueueKeepsFirst(c: Config, p: Loop)
    requires LoopValid(c, p) && p.q != [] && !p.q[0].pending && Enqueue(c, p).Some?
    ensures Enqueue(c, p).value.q != [] && Enqueue(c, p).value.q[0] == p.q[0]
    decreases p.len, LastPending(p.q)
  {
    if p.len > 0 {
      EnqueueKeepsFirst(c, Round(c, p).value);
    }
  }

  lemma {:induction false} EnqueueKeepsMarks(c: Config, p: Loop)
    requires LoopValid(c, p) && Enqueue(c, p).Some?
    requires forall i :: 1 <= i < |p.q| ==> !p.q[i].writePending
    ensures var q := Enqueue(c, p).value.q;
      && |q| >= |p.q| && (forall i :: 1 <= i < |q| ==> !q[i].writePending)
      && (q != [] ==> q[0].writePending == (p.q != [] && p.q[0].writePending))
    decreases p.len, LastPending(p.q)
  {
    if p.len > 0 {
      EnqueueKeepsMarks(c, Round(c, p).value);
    }
  }

  /** A call that queues what was decoded goes on with the layout; with slots for the ring it never fails. */
  lemma FlushQueues(c: Config, p: Pipe)
    requires Structure(c, p) && (p.q == [] && !c.ignoreAlignment ==> p.taken % c.page == 0) && FlushCount(c, p) > 0
    ensures var n := FlushCount(c, p);
      var r := Enqueue(c, Loop(p.q, Index(p.taken, c.ringSize), n, p.taken));
      && (SlotsFor(c) ==> r.Some?)
      && (r.Some? ==> WellFormed(c, r.value.q) && Laid(c, r.value.q, p.acked, p.taken + n) && r.value.q != [])
  {
    var n := FlushCount(c, p);
    var l := Loop(p.q, Index(p.taken, c.ringSize), n, p.taken);
    EnqueueLaid(c, l, p.acked, p.taken);
    LaidOrder(c, p.q, p.acked, p.taken);
  }

  lemma FlushKeeps(c: Config, p: Pipe)
    requires Invariant(c, p) && MarkedInTime(p)
    ensures SlotsFor(c) ==> Flush(c, p).Some?
    ensures Flush(c, p).Some? ==> Invariant(c, Flush(c, p).value) && MarkedInTime(Flush(c, p).value)
  {
    var n := FlushCount(c, p);
    if n > 0 {
      FlushQueues(c, p);
      var l := Loop(p.q, Index(p.taken, c.ringSize), n, p.taken);
      if Enqueue(c, l).Some? {
        EnqueueKeepsMarks(c, l);
        if p.offer.Some? {
          EnqueueKeepsFirst(c, l);
        }
      }
    }
  }

  lemma IdleKeeps(c: Config, p: Pipe, busy: bool, mustErase: bool)
    requires Invariant(c, p) && MarkedInTime(p)
    ensures var r := Idle(c, p, busy, mustErase);
      (SlotsFor(c) ==> r.Some?) && (r.Some? ==> Invariant(c, r.value) && MarkedInTime(r.value))
  {
    OfferKeeps(c, p, busy, mustErase);
    if p.flushing {
      FlushKeeps(c, Offer(p, busy, mustErase));
    }
  }

  lemma DoneKeepsStructure(c: Config, p: Pipe)
    requires Invariant(c, p) && p.offer.Some?
    ensures Structure(c, Done(p, true)) && (Done(p, true).q == [] <==> Done(p, true).acked == p.taken)
  {
    LaidFirst(c, p.q, p.acked, p.taken);
    LaidOrder(c, p.q[1..], p.acked + p.q[0].len, p.taken);
  }

  /** What is queued behind the acknowledged chunk is not with the target. */
  lemma DoneKeepsOffered(p: Pipe)
    requires Offered(p) && p.offer.Some?
    ensures Offered(Done(p, true))
  {
    var q := Done(p, true).q;
    assert forall i :: 0 <= i < |q| ==> q[i] == p.q[i + 1];
  }

  /** The end is reported only when nothing is left. */
  lemma DoneReports(c: Config, p: Pipe, d: Pipe)
    requires Invariant(c, p) && MarkedInTime(p) && p.offer.Some? && d == Done(p, true)
    requires d.q == [] ==> d.acked == p.taken
    ensures MarkedInTime(d) && (d.reallyWritten ==> d.written && d.acked == |d.input|)
  {
  }

  lemma DoneLogs(c: Config, p: Pipe, d: Pipe)
    requires Invariant(c, p) && p.offer.Some? && d == Done(p, true)
    ensures Logged(d.flash, d.input, d.acked)
  {
    LoggedAppend(p.flash, p.input, p.acked, p.offer.value);
  }

  lemma DoneKeeps(c: Config, p: Pipe, ok: bool)
    requires Invariant(c, p) && MarkedInTime(p) && p.offer.Some?
    ensures Invariant(c, Done(p, ok)) && MarkedInTime(Done(p, ok))
  {
    if ok {
      DoneKeepsStructure(c, p);
      DoneKeepsOffered(p);
      DoneLogs(c, p, Done(p, true));
      DoneReports(c, p, Done(p, true));
    }
  }

  // ---------- all runs ----------

  datatype Event =
    AppendData(data: seq<byte>) | StartFlush | IdleStep(busy: bool, mustErase: bool) | ChunkDone(ok: bool)

  /** What the callers keep to: the end of file is marked once the input ring is drained and nothing is
      appended afterwards; a chunk is acknowledged only while it is with the target. */
  ghost predicate Legal(p: Pipe, e: Event) {
    match e
    case AppendData(data) => if data == [] then p.taken == |p.input| else !p.written
    case ChunkDone(_) => p.offer.Some? && p.q != []
    case _ => true
  }

  function Step(c: Config, p: Pipe, e: Event): Option<Pipe>
    requires Structure(c, p) && Legal(p, e)
  {
    match e
    case AppendData(data) => Some(Append(c, p, data))
    case StartFlush => Some(p.(flushing := true))
    case IdleStep(busy, mustErase) => Idle(c, p, busy, mustErase)
    case ChunkDone(ok) => Some(Done(p, ok))
  }

  /** A fresh pipeline; the estimate of the decoded chunk size is left over from the last upload. */
  function Fresh(estimate: nat): Pipe {
    Pipe([], 0, 0, [], None, [], false, false, false, estimate)
  }

  ghost predicate Follows(c: Config, p: Pipe, e: Event, next: Pipe) {
    Structure(c, p) && Legal(p, e) && Step(c, p, e) == Some(next)
  }

  /** The state p can be reached by these events, in this order. */
  ghost predicate Reached(c: Config, es: seq<Event>, p: Pipe)
    decreases |es|
  {
    if es == [] then exists estimate: nat :: p == Fresh(estimate) else
      var n := |es| - 1;
      exists p0 :: Follows(c, p0, es[n], p) && Reached(c, es[..n], p0)
  }

  lemma StepKeeps(c: Config, p: Pipe, e: Event)
    requires Invariant(c, p) && MarkedInTime(p) && Legal(p, e)
    ensures var r := Step(c, p, e);
      (SlotsFor(c) ==> r.Some?) && (r.Some? ==> Invariant(c, r.value) && MarkedInTime(r.value))
  {
    match e
    case AppendData(data) => AppendKeeps(c, p, data);
    case StartFlush =>
    case IdleStep(busy, mustErase) => IdleKeeps(c, p, busy, mustErase);
    case ChunkDone(ok) => DoneKeeps(c, p, ok);
  }

  lemma FollowsKeeps(c: Config, p: Pipe, e: Event, next: Pipe)
    requires Invariant(c, p) && MarkedInTime(p) && Follows(c, p, e, next)
    ensures Invariant(c, next) && MarkedInTime(next)
  {
    StepKeeps(c, p, e);
  }

  lemma FreshHolds(c: Config, estimate: nat)
    requires c.Valid()
    ensures Invariant(c, Fresh(estimate)) && MarkedInTime(Fresh(estimate))
  {
    SmallMod(0, c.page);
  }

  /** Every reachable state is good. */
  lemma {:induction false} RunKeeps(c: Config, es: seq<Event>, p: Pipe)
    requires c.Valid() && Reached(c, es, p)
    ensures Invariant(c, p) && MarkedInTime(p)
    decreases |es|
  {
    if es == [] {
      var estimate: nat :| p == Fresh(estimate);
      FreshHolds(c, estimate);
    } else {
      var n := |es| - 1;
      var p0 :| Follows(c, p0, es[n], p) && Reached(c, es[..n], p0);
      RunKeeps(c, es[..n], p0);
      FollowsKeeps(c, p0, es[n], p);
    }
  }

  /** With slots for the ring, no reachable state has a step that ends in an error return: enqueueing always
      succeeds. */
  lemma NeverFails(c: Config, es: seq<Event>, p: Pipe, e: Event)
    requires c.Valid() && SlotsFor(c)
    requires Reached(c, es, p) && Legal(p, e)
    ensures Structure(c, p) && Step(c, p, e).Some?
  {
    RunKeeps(c, es, p);
    StepKeeps(c, p, e);
  }

  /** How many bytes an idle call decodes: all there are and all that fit, once the room is twice the largest piece so
      far; none before flushing is started. */
  lemma TakenExactly(c: Config, p: Pipe, busy: bool, mustErase: bool)
    requires Structure(c, p)
    ensures var count, space := |p.input| - p.taken, c.ringSize - 1 - (p.taken - p.acked);
      var r := Idle(c, p, busy, mustErase);
      r.Some? ==>
        r.value.taken == p.taken + if p.flushing && count > 0 && space >= 2 * p.estimate then Min(count, space) else 0
  {
    FirstFits(c, p);
  }

  // ---------- what arrives in flash ----------

  /** What address a holds after the writes, in order; None if it was never written. */
  function Cell(flash: seq<Write>, a: int): Option<byte>
    decreases |flash|
  {
    if flash == [] then None else
      var w := flash[|flash| - 1];
      if w.addr <= a < w.addr + |w.data| then Some(w.data[a - w.addr]) else Cell(flash[..|flash| - 1], a)
  }

  /** Flash holds the file at the addresses from 0, and nothing else. */
  ghost predicate HoldsFile(flash: seq<Write>, file: seq<byte>) {
    forall a :: Cell(flash, a) == if 0 <= a < |file| then Some(file[a]) else None
  }

  lemma {:induction false} LoggedCell(flash: seq<Write>, input: seq<byte>, n: nat, a: int)
    requires Logged(flash, input, n)
    ensures n <= |input| || flash == []
    ensures Cell(flash, a) == if 0 <= a < n <= |input| then Some(input[a]) else None
    decreases |flash|
  {
    if flash != [] {
      var w := flash[|flash| - 1];
      LoggedCell(flash[..|flash| - 1], input, w.addr, a);
    }
  }

  lemma LoggedHolds(flash: seq<Write>, input: seq<byte>, n: nat)
    requires Logged(flash, input, n) && n <= |input|
    ensures HoldsFile(flash, input[..n])
  {
    forall a
      ensures Cell(flash, a) == if 0 <= a < n then Some(input[..n][a]) else None
    {
      LoggedCell(flash, input, n, a);
    }
  }

  /** In every state of every run: flash holds exactly the acknowledged prefix of the file at the addresses
      from 0, what the target is writing comes next, and "really written" means the whole file is there. This holds
      for targets that want pages and for those that ignore alignment. */
  lemma RunWritesFile(c: Config, es: seq<Event>, p: Pipe)
    requires c.Valid() && Reached(c, es, p)
    ensures
      && p.acked <= |p.input| && HoldsFile(p.flash, p.input[..p.acked])
      && (p.offer.Some? ==> (p.acked + |p.offer.value.data| <= |p.input|
            && p.offer.value == Write(p.acked, p.input[p.acked..p.acked + |p.offer.value.data|])))
      && (p.reallyWritten ==> HoldsFile(p.flash, p.input))
  {
    RunKeeps(c, es, p);
    LoggedHolds(p.flash, p.input, p.acked);
    assert p.reallyWritten ==> p.input[..p.acked] == p.input;
  }

  /** In every state of every run, the chunks lie one behind the other, and none crosses the end of the decoded
      buffer; unless the target ignores alignment they are pages, in the ring and in flash. */
  lemma RunKeepsPages(c: Config, es: seq<Event>, p: Pipe)
    requires c.Valid() && Reached(c, es, p)
    ensures var q := p.q;
      && NoCrossing(c, q) && Laid(c, q, p.acked, p.taken)
      && (!c.ignoreAlignment ==> forall k :: 0 <= k < |q| ==> q[k].addr % c.page == 0 && q[k].start % c.page == 0)
  {
    RunKeeps(c, es, p);
    LaidNoCrossing(c, p.q, p.acked, p.taken);
    if !c.ignoreAlignment {
      PagedNoCrossing(c, p.q, p.acked, p.taken);
    }
  }
}
