/** What the upload pipeline does when the end of file may be marked at any time, also while the input ring still
    holds bytes. */
module EarlyMark {
  import opened Basics
  import opened Bytes
  import opened Ring
  import opened WriteChunks
  import opened ChunkPieces
  import opened FirmwarePipe

  // ---------- one idle step ----------

  /** An idle step offers the last, still pending chunk, and its flush then decodes more into that chunk. */
  ghost predicate Hazard(c: Config, p: Pipe)
    requires p.acked <= p.taken <= |p.input|
  {
    |p.q| == 1 && p.q[0].pending && p.flushing && FlushCount(c, p) > 0
  }

  lemma OfferKeepsRest(c: Config, p: Pipe)
    requires Structure(c, p) && HasOffer(p, false, false)
    ensures p.acked + p.q[0].len <= |p.input|
    ensures var p1 := Offer(p, false, false);
      && Structure(c, p1) && FlushCount(c, p1) == FlushCount(c, p)
      && p1.q == p.q[0 := p.q[0].(writePending := true)]
      && p1.offer == Some(Write(p.acked, p.input[p.acked..p.acked + p.q[0].len]))
  {
    FirstFits(c, p);
    MarkKeepsLaid(c, p.q, p.acked, p.taken, 0, true);
  }

  /** Decoding behind a single pending chunk makes it longer. */
  lemma EnqueueGrowsPending(c: Config, p: Loop, from: nat, to: nat)
    requires LoopValid(c, p) && !c.ignoreAlignment && Contiguous(c, p, from, to) && |p.q| == 1 && p.q[0].pending
    requires p.len > 0 && Enqueue(c, p).Some?
    ensures var q := Enqueue(c, p).value.q;
      q != [] && q[0].len > p.q[0].len
  {
    var p1 := Round(c, p).value;
    EnqueueRound(c, p);
    assert p1.q[0].len > p.q[0].len;
    if p1.q[0].pending {
      assert p1.len == 0;
    } else {
      EnqueueKeepsFirst(c, p1);
    }
  }

  lemma LoggedLast(flash: seq<Write>, w: Write, input: seq<byte>, n: nat, m: nat)
    requires Logged(flash, input, n) && w.addr == n && n + |w.data| <= |input| && w.data == input[n..n + |w.data|]
    ensures Logged(flash + [w], input, m) <==> m == n + |w.data|
  {
    assert (flash + [w])[..|flash|] == flash;
  }

  /** The flush after an offer makes the offered chunk longer in a hazard, and leaves it alone otherwise. */
  lemma FlushAfterOffer(c: Config, p: Pipe)
    requires Structure(c, p) && p.q != [] && p.q[0].writePending && p.flushing && FlushCount(c, p) > 0
    ensures SlotsFor(c) ==> Flush(c, p).Some?
    ensures var r := Flush(c, p);
      r.Some? ==>
        && r.value.q != [] && r.value.flash == p.flash && r.value.input == p.input
        && r.value.acked == p.acked && r.value.offer == p.offer
        && (if Hazard(c, p) then r.value.q[0].len > p.q[0].len else r.value.q[0] == p.q[0])
  {
    var n := FlushCount(c, p);
    var l := Loop(p.q, Index(p.taken, c.ringSize), n, p.taken);
    FlushQueues(c, p);
    if Enqueue(c, l).Some? {
      if p.q[0].pending {
        EnqueueGrowsPending(c, l, p.acked, p.taken);
      } else {
        EnqueueKeepsFirst(c, l);
      }
    }
  }

  lemma IdleAfterOffer(c: Config, p: Pipe)
    requires Invariant(c, p) && HasOffer(p, false, false)
    ensures p.acked + p.q[0].len <= |p.input|
    ensures SlotsFor(c) ==> Idle(c, p, false, false).Some?
    ensures var r, w := Idle(c, p, false, false), Write(p.acked, p.input[p.acked..p.acked + p.q[0].len]);
      r.Some? ==>
        && r.value.q != [] && r.value.flash == p.flash && r.value.input == p.input
        && r.value.acked == p.acked && r.value.offer == Some(w)
        && (r.value.q[0].len == p.q[0].len <==> !Hazard(c, p))
  {
    OfferKeepsRest(c, p);
    var p1 := Offer(p, false, false);
    if p.flushing {
      if FlushCount(c, p1) > 0 {
        FlushAfterOffer(c, p1);
      }
    }
  }

  /** From any good state, an idle step that offers a chunk, followed by its acknowledgement, accounts for
      exactly the bytes the target got if and only if that idle step was not a hazard. */
  lemma OfferThenAckExactly(c: Config, p: Pipe)
    requires Invariant(c, p) && HasOffer(p, false, false)
    ensures var r := Idle(c, p, false, false);
      && (SlotsFor(c) ==> r.Some?)
      && (r.Some? ==>
            && r.value.offer.Some? && r.value.q != []
            && var d := Done(r.value, true);
               Logged(d.flash, d.input, d.acked) <==> !Hazard(c, p))
  {
    IdleAfterOffer(c, p);
    if Idle(c, p, false, false).Some? {
      var r := Idle(c, p, false, false).value;
      LoggedLast(p.flash, r.offer.value, p.input, p.acked, p.acked + r.q[0].len);
    }
  }

  /** With slots for the ring, a flush fails exactly when there is something to decode and nothing queued, off a page
      boundary: behind a short last chunk, which was written because the end of file had been marked. */
  lemma FlushFailsExactly(c: Config, p: Pipe)
    requires Structure(c, p) && SlotsFor(c)
    ensures Flush(c, p).None? <==>
            FlushCount(c, p) > 0 && p.q == [] && !c.ignoreAlignment && p.taken % c.page != 0
    ensures Flush(c, p).None? ==> p.written
  {
    if FlushCount(c, p) > 0 {
      if p.q == [] && !c.ignoreAlignment && p.taken % c.page != 0 {
        EnqueueRound(c, Loop(p.q, Index(p.taken, c.ringSize), FlushCount(c, p), p.taken));
        MaskIsMod(p.taken, c.page);
      } else {
        FlushQueues(c, p);
      }
    }
  }

  // ---------- all runs ----------

  /** The end of file may be marked at any time; nothing is appended afterwards. */
  ghost predicate LegalAnytime(p: Pipe, e: Event) {
    match e
    case AppendData(data) => data == [] || !p.written
    case ChunkDone(_) => p.offer.Some? && p.q != []
    case _ => true
  }

  function StepAnytime(c: Config, p: Pipe, e: Event): Option<Pipe>
    requires Structure(c, p) && LegalAnytime(p, e)
  {
    match e
    case AppendData(data) => Some(Append(c, p, data))
    case StartFlush => Some(p.(flushing := true))
    case IdleStep(busy, mustErase) => Idle(c, p, busy, mustErase)
    case ChunkDone(ok) => Some(Done(p, ok))
  }

  /** The chunk with the target is still pending, and the flush decodes more into it. */
  predicate Grows(c: Config, p: Pipe)
    requires p.acked <= p.taken <= |p.input|
  {
    p.offer.Some? && |p.q| == 1 && p.q[0].pending && p.flushing && FlushCount(c, p) > 0
  }

  /** Whether the chunk with the target has grown since it was offered, and whether a grown chunk was
      acknowledged. */
  datatype Track = Track(grown: bool, spoiled: bool)

  function Tracked(c: Config, p: Pipe, e: Event, t: Track): Track
    requires Structure(c, p)
  {
    match e
    case IdleStep(busy, mustErase) => t.(grown := t.grown || Grows(c, DoWriteStep(c, p, busy, mustErase)))
    case ChunkDone(ok) => if ok then Track(false, t.spoiled || t.grown) else t
    case _ => t
  }

  ghost predicate FollowsAnytime(c: Config, p: Pipe, t: Track, e: Event, p': Pipe, t': Track) {
    Structure(c, p) && LegalAnytime(p, e) && StepAnytime(c, p, e) == Some(p') && t' == Tracked(c, p, e, t)
  }

  ghost predicate RunsAnytime(c: Config, es: seq<Event>, p: Pipe, t: Track)
    decreases |es|
  {
    if es == [] then t == Track(false, false) && exists estimate: nat :: p == Fresh(estimate) else
      var n := |es| - 1;
      exists p0, t0 :: FollowsAnytime(c, p0, t0, es[n], p, t) && RunsAnytime(c, es[..n], p0, t0)
  }

  // ---------- the invariant ----------

  /** How many bytes the target has written. */
  function Total(flash: seq<Write>): nat {
    if flash == [] then 0 else Total(flash[..|flash| - 1]) + |flash[|flash| - 1].data|
  }

  lemma TotalMore(flash: seq<Write>, w: Write)
    ensures Total(flash + [w]) == Total(flash) + |w.data|
  {
    assert (flash + [w])[..|flash|] == flash;
  }

  lemma {:induction false} LoggedTotal(flash: seq<Write>, input: seq<byte>, n: nat)
    requires Logged(flash, input, n)
    ensures Total(flash) == n
    decreases |flash|
  {
    if flash != [] {
      LoggedTotal(flash[..|flash| - 1], input, flash[|flash| - 1].addr);
    }
  }

  /** The target has the first bytes of its chunk; all of them exactly when the chunk has not grown. */
  ghost predicate WithTarget(p: Pipe, t: Track) {
    && (p.offer.Some? <==> p.q != [] && p.q[0].writePending)
    && (forall i :: 1 <= i < |p.q| ==> !p.q[i].writePending)
    && (t.grown ==> p.offer.Some?)
    && (p.offer.Some? ==> Given(p, p.offer.value, t.grown))
  }

  ghost predicate Given(p: Pipe, w: Write, grown: bool)
    requires p.q != []
  {
    var n := p.acked + |w.data|;
    && w.addr == p.acked && n <= |p.input| && w.data == p.input[p.acked..n]
    && |w.data| <= p.q[0].len && (|w.data| == p.q[0].len <==> !grown)
    && (p.q[0].pending ==> p.written)
  }

  /** The log is exact unless a grown chunk was acknowledged; then it is too short. */
  ghost predicate Accounted(p: Pipe, spoiled: bool) {
    && (if spoiled then Total(p.flash) < p.acked else Logged(p.flash, p.input, p.acked))
  }

  ghost predicate Kept(c: Config, p: Pipe, t: Track) {
    Structure(c, p) && WithTarget(p, t) && Accounted(p, t.spoiled)
  }

  // ---------- every step keeps it ----------

  lemma AppendKept(c: Config, p: Pipe, t: Track, data: seq<byte>)
    requires Kept(c, p, t) && (data == [] || !p.written)
    ensures Kept(c, Append(c, p, data), t)
  {
    if data != [] && InputSpace(c, p) >= |data| {
      if !t.spoiled {
        LoggedExtends(p.flash, p.input, p.acked, data);
      }
      if p.offer.Some? {
        var n := p.acked + |p.offer.value.data|;
        assert (p.input + data)[p.acked..n] == p.input[p.acked..n];
      }
    }
  }

  lemma OfferKept(c: Config, p: Pipe, t: Track, busy: bool, mustErase: bool)
    requires Kept(c, p, t)
    ensures Kept(c, DoWriteStep(c, p, busy, mustErase), t)
  {
    FirstFits(c, p);
    if HasOffer(p, busy, mustErase) {
      MarkKeepsLaid(c, p.q, p.acked, p.taken, 0, true);
    }
  }

  /** A flush that succeeds starts at a page boundary when nothing is queued. */
  lemma FlushStarts(c: Config, p: Pipe)
    requires Structure(c, p) && Flush(c, p).Some? && FlushCount(c, p) > 0
    ensures p.q == [] && !c.ignoreAlignment ==> p.taken % c.page == 0
  {
    if p.q == [] && !c.ignoreAlignment {
      EnqueueRound(c, Loop(p.q, Index(p.taken, c.ringSize), FlushCount(c, p), p.taken));
      MaskIsMod(p.taken, c.page);
    }
  }

  /** The flush after an offer leaves the target what it has. */
  lemma FlushGives(c: Config, p: Pipe, t: Track, r: Pipe)
    requires Structure(c, p) && WithTarget(p, t) && p.flushing && FlushCount(c, p) > 0 && Flush(c, p) == Some(r)
    ensures WithTarget(r, t.(grown := t.grown || Grows(c, p)))
  {
    FlushStarts(c, p);
    FlushQueues(c, p);
    EnqueueKeepsMarks(c, Loop(p.q, Index(p.taken, c.ringSize), FlushCount(c, p), p.taken));
    if p.offer.Some? {
      FlushAfterOffer(c, p);
    }
  }

  lemma FlushKept(c: Config, p: Pipe, t: Track)
    requires Kept(c, p, t) && p.flushing && Flush(c, p).Some?
    ensures Kept(c, Flush(c, p).value, t.(grown := t.grown || Grows(c, p)))
  {
    if FlushCount(c, p) > 0 {
      FlushStarts(c, p);
      FlushQueues(c, p);
      FlushGives(c, p, t, Flush(c, p).value);
    }
  }

  lemma DoneLogged(p: Pipe, t: Track)
    requires WithTarget(p, t) && p.offer.Some? && Accounted(p, t.spoiled)
    ensures Accounted(Done(p, true), t.spoiled || t.grown)
  {
    TotalMore(p.flash, p.offer.value);
    if !t.spoiled {
      LoggedTotal(p.flash, p.input, p.acked);
      LoggedAppend(p.flash, p.input, p.acked, p.offer.value);
    }
  }

  lemma DoneKept(c: Config, p: Pipe, t: Track, ok: bool)
    requires Kept(c, p, t) && p.offer.Some?
    ensures Kept(c, Done(p, ok), Tracked(c, p, ChunkDone(ok), t))
  {
    if ok {
      var d := Done(p, true);
      LaidFirst(c, p.q, p.acked, p.taken);
      LaidOrder(c, p.q[1..], d.acked, p.taken);
      assert forall i :: 0 <= i < |d.q| ==> d.q[i] == p.q[i + 1];
      DoneLogged(p, t);
    }
  }

  lemma StepKept(c: Config, p: Pipe, t: Track, e: Event, p': Pipe, t': Track)
    requires Kept(c, p, t) && FollowsAnytime(c, p, t, e, p', t')
    ensures Kept(c, p', t')
  {
    match e
    case AppendData(data) => AppendKept(c, p, t, data);
    case StartFlush =>
    case IdleStep(busy, mustErase) =>
      OfferKept(c, p, t, busy, mustErase);
      var p1 := DoWriteStep(c, p, busy, mustErase);
      if p1.flushing {
        FlushKept(c, p1, t);
      }
    case ChunkDone(ok) => DoneKept(c, p, t, ok);
  }

  lemma {:induction false} RunKept(c: Config, es: seq<Event>, p: Pipe, t: Track)
    requires c.Valid() && RunsAnytime(c, es, p, t)
    ensures Kept(c, p, t)
    decreases |es|
  {
    if es == [] {
      var estimate: nat :| p == Fresh(estimate);
      FreshHolds(c, estimate);
    } else {
      var n := |es| - 1;
      var p0, t0 :| FollowsAnytime(c, p0, t0, es[n], p, t) && RunsAnytime(c, es[..n], p0, t0);
      RunKept(c, es[..n], p0, t0);
      StepKept(c, p0, t0, es[n], p, t);
    }
  }

  /** Whenever the end of file is marked: in every state of every run, the target has written exactly the
      acknowledged bytes, each at its own address, if and only if no chunk was acknowledged that had grown while
      the target was writing it. */
  lemma LogExactly(c: Config, es: seq<Event>, p: Pipe, t: Track)
    requires c.Valid() && RunsAnytime(c, es, p, t)
    ensures Logged(p.flash, p.input, p.acked) <==> !t.spoiled
  {
    RunKept(c, es, p, t);
    if t.spoiled && Logged(p.flash, p.input, p.acked) {
      LoggedTotal(p.flash, p.input, p.acked);
    }
  }

  // ---------- what is in flash ----------

  lemma RunMore(c: Config, es: seq<Event>, p: Pipe, t: Track, e: Event, p': Pipe, t': Track)
    requires RunsAnytime(c, es, p, t) && FollowsAnytime(c, p, t, e, p', t')
    ensures RunsAnytime(c, es + [e], p', t')
  {
    assert (es + [e])[..|es|] == es;
  }

  /** The addresses that were written. */
  function Covered(flash: seq<Write>): set<int> {
    if flash == [] then {} else
      var w := flash[|flash| - 1];
      Covered(flash[..|flash| - 1]) + Span(w.addr, |w.data|)
  }

  function Span(from: int, n: nat): (s: set<int>)
    ensures |s| == n && forall a :: a in s <==> from <= a < from + n
  {
    if n == 0 then {} else Span(from, n - 1) + {from + (n - 1)}
  }

  lemma {:induction false} CoveredCells(flash: seq<Write>, a: int)
    ensures Cell(flash, a).Some? <==> a in Covered(flash)
    decreases |flash|
  {
    if flash != [] {
      CoveredCells(flash[..|flash| - 1], a);
    }
  }

  lemma {:induction false} CoveredAtMost(flash: seq<Write>)
    ensures |Covered(flash)| <= Total(flash)
    decreases |flash|
  {
    if flash != [] {
      var w := flash[|flash| - 1];
      CoveredAtMost(flash[..|flash| - 1]);
      UnionAtMost(Covered(flash[..|flash| - 1]), Span(w.addr, |w.data|));
    }
  }

  lemma UnionAtMost(a: set<int>, b: set<int>)
    ensures |a + b| <= |a| + |b|
  {
    assert a + b == a + (b - a) && a !! (b - a);
    SubsetAtMost(b - a, b);
  }

  lemma SubsetAtMost(a: set<int>, b: set<int>)
    requires a <= b
    ensures |a| <= |b|
  {
    assert b == a + (b - a) && a !! (b - a);
  }

  /** Writes with fewer bytes than the file do not hold it. */
  lemma TooFewBytes(flash: seq<Write>, file: seq<byte>)
    requires Total(flash) < |file|
    ensures !HoldsFile(flash, file)
  {
    if HoldsFile(flash, file) {
      forall a | a in Span(0, |file|)
        ensures a in Covered(flash)
      {
        CoveredCells(flash, a);
      }
      CoveredAtMost(flash);
      SubsetAtMost(Span(0, |file|), Covered(flash));
    }
  }

  /** Whenever the end of file is marked: in every state of every run, flash holds the file that was appended, and
      nothing else, if and only if no grown chunk was acknowledged and all bytes were. */
  lemma HoldsExactly(c: Config, es: seq<Event>, p: Pipe, t: Track)
    requires c.Valid() && RunsAnytime(c, es, p, t)
    ensures HoldsFile(p.flash, p.input) <==> !t.spoiled && p.acked == |p.input|
  {
    RunKept(c, es, p, t);
    if t.spoiled {
      TooFewBytes(p.flash, p.input);
    } else if p.acked == |p.input| {
      LoggedHolds(p.flash, p.input, p.acked);
      assert p.input[..p.acked] == p.input;
    } else {
      LoggedTotal(p.flash, p.input, p.acked);
      TooFewBytes(p.flash, p.input);
    }
  }

  /** Whenever the end of file is marked: the acknowledgement of the last chunk reports "really written". That is
      true if and only if neither that chunk nor one before it had grown while it was written, and the input ring
      was drained. */
  lemma ReallyWrittenExactly(c: Config, es: seq<Event>, p: Pipe, t: Track)
    requires c.Valid() && RunsAnytime(c, es, p, t) && p.offer.Some? && p.written && |p.q| == 1
    ensures var d := Done(p, true);
      d.reallyWritten && (HoldsFile(d.flash, d.input) <==> !t.grown && !t.spoiled && p.taken == |p.input|)
  {
    RunKept(c, es, p, t);
    LaidFirst(c, p.q, p.acked, p.taken);
    var d := Done(p, true);
    assert FollowsAnytime(c, p, t, ChunkDone(true), d, Track(false, t.spoiled || t.grown));
    RunMore(c, es, p, t, ChunkDone(true), d, Track(false, t.spoiled || t.grown));
    HoldsExactly(c, es + [ChunkDone(true)], d, Track(false, t.spoiled || t.grown));
  }

  // ---------- a run that goes wrong ----------

  function Board(): Config {
    Config(2048, 2048, 128, 32, false)
  }

  function First(len: nat, mark: bool): Chunk {
    Chunk(0, 0, len, true, mark)
  }

  lemma BoardFits()
    ensures Board().Valid() && EnoughSlots(Board()) && Index(0, 2048) == 0 && Index(10, 2048) == 10 && 0 % 128 == 0
  {
    Powers();
    SmallMod(0, 128);
    SmallMod(0, 2048);
    SmallMod(10, 2048);
  }

  /** A single short chunk. */
  lemma FirstPaged(len: nat, mark: bool)
    requires 0 < len < 128
    ensures WellFormed(Board(), [First(len, mark)]) && Laid(Board(), [First(len, mark)], 0, len)
  {
    BoardFits();
    assert PageAt(Board(), First(len, mark), 0, len);
    assert [First(len, mark)][..0] == [];
  }

  /** The first bytes make a new chunk. */
  lemma FirstMade()
    ensures LoopValid(Board(), Loop([], 0, 10, 0))
    ensures Enqueue(Board(), Loop([], 0, 10, 0)) == Some(Loop([First(10, false)], 10, 0, 10))
  {
    BoardFits();
    MaskIsMod(0, 128);
    MaskIsMod(10, 2048);
    var p := Loop([], 0, 10, 0);
    EnqueueRound(Board(), p);
    assert [] + [First(10, false)] == [First(10, false)];
    assert Round(Board(), p) == Some(Loop([First(10, false)], 10, 0, 10));
  }

  /** More bytes go to it. */
  lemma FirstGrown()
    ensures LoopValid(Board(), Loop([First(10, true)], 10, 5, 10))
    ensures Enqueue(Board(), Loop([First(10, true)], 10, 5, 10)) == Some(Loop([First(15, true)], 15, 0, 15))
  {
    BoardFits();
    SmallMod(15, 2048);
    MaskIsMod(15, 2048);
    var p := Loop([First(10, true)], 10, 5, 10);
    EnqueueRound(Board(), p);
    assert [First(10, true)][0 := First(15, true)] == [First(15, true)];
    assert Round(Board(), p) == Some(Loop([First(15, true)], 15, 0, 15));
  }

  /** The pipeline after the first flush, and after the mark. */
  function Filled(input: seq<byte>, written: bool): Pipe {
    Pipe(input, 10, 0, [First(10, false)], None, [], true, written, false, 10)
  }

  /** The last chunk, with all fifteen bytes, of which the target has ten. */
  function Overfilled(input: seq<byte>): Pipe
    requires |input| == 15
  {
    Pipe(input, 15, 0, [First(15, true)], Some(Write(0, input[..10])), [], true, true, false, 10)
  }

  function Filling(a: seq<byte>): Pipe {
    Pipe(a, 0, 0, [], None, [], true, false, false, 0)
  }

  lemma FillFlush(a: seq<byte>)
    requires |a| == 10
    ensures Structure(Board(), Filling(a)) && Flush(Board(), Filling(a)) == Some(Filled(a, false))
  {
    BoardFits();
    FirstMade();
    assert FlushCount(Board(), Filling(a)) == 10;
  }

  lemma FillStep(a: seq<byte>)
    requires |a| == 10
    ensures Structure(Board(), Filling(a)) && Idle(Board(), Filling(a), false, false) == Some(Filled(a, false))
  {
    FillFlush(a);
    assert DoWriteStep(Board(), Filling(a), false, false) == Filling(a);
  }

  /** The chunk is offered. */
  function Given10(input: seq<byte>): Pipe
    requires |input| == 15
  {
    Filled(input, true).(q := [First(10, true)], offer := Some(Write(0, input[..10])))
  }

  lemma OfferStep(input: seq<byte>)
    requires |input| == 15
    ensures Structure(Board(), Filled(input, true))
      && DoWriteStep(Board(), Filled(input, true), false, false) == Given10(input)
  {
    BoardFits();
    FirstPaged(10, false);
    assert [First(10, false)][0 := First(10, true)] == [First(10, true)];
    assert input[0..10] == input[..10];
  }

  /** The flush then goes into it. */
  lemma OverfillStep(input: seq<byte>)
    requires |input| == 15
    ensures Structure(Board(), Filled(input, true)) && Grows(Board(), Given10(input))
    ensures Idle(Board(), Filled(input, true), false, false) == Some(Overfilled(input))
  {
    OfferStep(input);
    BoardFits();
    FirstGrown();
    assert FlushCount(Board(), Given10(input)) == 5;
    assert Flush(Board(), Given10(input)) == Some(Overfilled(input));
  }

  lemma AppendSteps(a: seq<byte>, b: seq<byte>)
    requires |a| == 10 && |b| == 5
    ensures Structure(Board(), Filled(a, false)) && Structure(Board(), Filled(a + b, false))
    ensures Append(Board(), Filled(a, false), b) == Filled(a + b, false)
  {
    BoardFits();
    FirstPaged(10, false);
  }

  /** The first bytes arrive. */
  lemma EarlyBytes(a: seq<byte>)
    requires |a| == 10
    ensures RunsAnytime(Board(), [] + [AppendData(a)], Filling(a).(flushing := false), Track(false, false))
  {
    BoardFits();
    assert RunsAnytime(Board(), [], Fresh(0), Track(false, false));
    assert [] + a == a;
    RunMore(Board(), [], Fresh(0), Track(false, false), AppendData(a), Filling(a).(flushing := false),
            Track(false, false));
  }

  /** Up to the first flush. */
  lemma EarlyStart(a: seq<byte>, es: seq<Event>)
    requires |a| == 10 && RunsAnytime(Board(), es, Filling(a).(flushing := false), Track(false, false))
    ensures RunsAnytime(Board(), es + [StartFlush] + [IdleStep(false, false)], Filled(a, false), Track(false, false))
  {
    BoardFits();
    FillStep(a);
    RunMore(Board(), es, Filling(a).(flushing := false), Track(false, false), StartFlush, Filling(a),
            Track(false, false));
    RunMore(Board(), es + [StartFlush], Filling(a), Track(false, false), IdleStep(false, false),
            Filled(a, false), Track(false, false));
  }

  /** Up to the mark. */
  lemma EarlyMiddle(a: seq<byte>, b: seq<byte>, es: seq<Event>)
    requires |a| == 10 && |b| == 5 && RunsAnytime(Board(), es, Filled(a, false), Track(false, false))
    ensures RunsAnytime(Board(), es + [AppendData(b)] + [AppendData([])], Filled(a + b, true), Track(false, false))
  {
    AppendSteps(a, b);
    RunMore(Board(), es, Filled(a, false), Track(false, false), AppendData(b), Filled(a + b, false),
            Track(false, false));
    RunMore(Board(), es + [AppendData(b)], Filled(a + b, false), Track(false, false), AppendData([]),
            Filled(a + b, true), Track(false, false));
  }

  /** The last chunk is offered, grows, and is acknowledged. */
  lemma EarlyEnd(input: seq<byte>, es: seq<Event>)
    requires |input| == 15 && RunsAnytime(Board(), es, Filled(input, true), Track(false, false))
    ensures RunsAnytime(Board(), es + [IdleStep(false, false)] + [ChunkDone(true)],
                        Done(Overfilled(input), true), Track(false, true))
  {
    OfferStep(input);
    OverfillStep(input);
    RunMore(Board(), es, Filled(input, true), Track(false, false), IdleStep(false, false), Overfilled(input),
            Track(true, false));
    BoardFits();
    FirstPaged(15, true);
    RunMore(Board(), es + [IdleStep(false, false)], Overfilled(input), Track(true, false), ChunkDone(true),
            Done(Overfilled(input), true), Track(false, true));
  }

  lemma EarlyRun(a: seq<byte>, b: seq<byte>) returns (es: seq<Event>)
    requires |a| == 10 && |b| == 5
    ensures es == [] + [AppendData(a)] + [StartFlush] + [IdleStep(false, false)] + [AppendData(b)] + [AppendData([])]
    ensures RunsAnytime(Board(), es, Filled(a + b, true), Track(false, false))
  {
    EarlyBytes(a);
    var es1 := [] + [AppendData(a)];
    EarlyStart(a, es1);
    es := es1 + [StartFlush] + [IdleStep(false, false)];
    EarlyMiddle(a, b, es);
    es := es + [AppendData(b)] + [AppendData([])];
  }

  lemma InOrder(a: seq<byte>, b: seq<byte>)
    ensures [] + [AppendData(a)] + [StartFlush] + [IdleStep(false, false)] + [AppendData(b)] + [AppendData([])]
              + [IdleStep(false, false)] + [ChunkDone(true)] ==
            [AppendData(a), StartFlush, IdleStep(false, false), AppendData(b), AppendData([]), IdleStep(false, false),
             ChunkDone(true)]
  {
  }

  /** Ten bytes are decoded, five more appended, and the end of file is marked before these are decoded. The
      upload is reported as written, with fifteen bytes acknowledged, but the target got ten. */
  lemma MarkedTooEarly(a: seq<byte>, b: seq<byte>) returns (es: seq<Event>, p: Pipe, t: Track)
    requires |a| == 10 && |b| == 5
    ensures es == [AppendData(a), StartFlush, IdleStep(false, false), AppendData(b), AppendData([]),
                   IdleStep(false, false), ChunkDone(true)]
    ensures RunsAnytime(Board(), es, p, t) && p.input == a + b && p.acked == 15 && p.reallyWritten
    ensures p.flash == [Write(0, a)] && t.spoiled
  {
    var before := EarlyRun(a, b);
    EarlyEnd(a + b, before);
    p, t := Done(Overfilled(a + b), true), Track(false, true);
    es := before + [IdleStep(false, false)] + [ChunkDone(true)];
    InOrder(a, b);
    assert (a + b)[..10] == a;
  }
}
