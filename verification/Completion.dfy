/** Uploads of the pipeline of FirmwarePipe that come to an end: from which states, for which files, and with which
    rings the whole file can still be written. */
module Completion {
  import opened Basics
  import opened Bytes
  import opened Ring
  import opened WriteChunks
  import opened ChunkPieces
  import opened FirmwarePipe
  import opened UnalignedPipe

  // ---------- runs from a state ----------

  /** These events, in this order, take the state p to the state end. */
  ghost predicate Leads(c: Config, p: Pipe, es: seq<Event>, end: Pipe)
    decreases |es|
  {
    if es == [] then end == p else exists p1 :: Follows(c, p, es[0], p1) && Leads(c, p1, es[1..], end)
  }

  lemma LeadsMore(c: Config, p: Pipe, e: Event, p1: Pipe, es: seq<Event>, end: Pipe)
    requires Follows(c, p, e, p1) && Leads(c, p1, es, end)
    ensures Leads(c, p, [e] + es, end)
  {
    assert ([e] + es)[1..] == es;
  }

  lemma Regroup(es: seq<Event>, fs: seq<Event>)
    requires es != []
    ensures [es[0]] + (es[1..] + fs) == es + fs
  {
  }

  lemma {:induction false} LeadsOn(c: Config, p: Pipe, es: seq<Event>, mid: Pipe, fs: seq<Event>, end: Pipe)
    requires Leads(c, p, es, mid) && Leads(c, mid, fs, end)
    ensures Leads(c, p, es + fs, end)
    decreases |es|
  {
    if es == [] {
      assert es + fs == fs;
    } else {
      var p1 := LeadsFirst(c, p, es, mid);
      LeadsOn(c, p1, es[1..], mid, fs, end);
      LeadsMore(c, p, es[0], p1, es[1..] + fs, end);
      Regroup(es, fs);
    }
  }

  lemma LeadsFirst(c: Config, p: Pipe, es: seq<Event>, end: Pipe) returns (p1: Pipe)
    requires Leads(c, p, es, end) && es != []
    ensures Follows(c, p, es[0], p1) && Leads(c, p1, es[1..], end)
  {
    p1 :| Follows(c, p, es[0], p1) && Leads(c, p1, es[1..], end);
  }

  lemma InOrder(es: seq<Event>, fs: seq<Event>)
    requires fs != []
    ensures (es + [fs[0]]) + fs[1..] == es + fs
  {
  }

  lemma {:induction false} ReachedOn(c: Config, es: seq<Event>, p: Pipe, fs: seq<Event>, end: Pipe)
    requires Reached(c, es, p) && Leads(c, p, fs, end)
    ensures Reached(c, es + fs, end)
    decreases |fs|
  {
    if fs == [] {
      assert es + fs == es;
    } else {
      var p1 := LeadsFirst(c, p, fs, end);
      RunMore(c, es, p, fs[0], p1);
      ReachedOn(c, es + [fs[0]], p1, fs[1..], end);
      InOrder(es, fs);
    }
  }

  // ---------- the next offer ----------

  /** What a free target gets next, for a target that wants pages: the first whole page that is decoded and not yet
      acknowledged; once the end of file is marked, also what is left of the file. */
  function NextWrite(c: Config, p: Pipe): Option<Write>
    requires p.acked <= p.taken <= |p.input|
  {
    if p.acked + c.page <= p.taken then Some(Write(p.acked, p.input[p.acked..p.acked + c.page]))
    else if p.written && p.acked < p.taken then Some(Write(p.acked, p.input[p.acked..p.taken]))
    else None
  }

  lemma PagedLength(c: Config, q: seq<Chunk>, from: nat, to: nat)
    requires c.Valid() && Paged(c, q, from, to) && q != []
    ensures q[0].len == Min(c.page, to - from) && (q[0].pending <==> to - from < c.page)
    ensures q[0].pending ==> |q| == 1
  {
    PagedFirst(c, q, from, to);
    if |q| > 1 {
      PagedOrder(c, q[1..], from + q[0].len, to);
    } else {
      PagedCount(c, q, from, to);
      assert q[1..] == [];
    }
  }

  /** The oldest chunk as a stretch of the file. */
  lemma OldestChunk(c: Config, p: Pipe)
    requires Structure(c, p) && !c.ignoreAlignment
    ensures p.q == [] <==> p.acked == p.taken
    ensures p.q != [] ==>
      && p.q[0].addr == p.acked && p.q[0].len == Min(c.page, p.taken - p.acked)
      && (p.q[0].pending <==> p.taken - p.acked < c.page) && (p.q[0].pending ==> |p.q| == 1)
  {
    LaidOrder(c, p.q, p.acked, p.taken);
    if p.q != [] {
      PagedFirst(c, p.q, p.acked, p.taken);
      PagedLength(c, p.q, p.acked, p.taken);
    }
  }

  lemma OfferIsNextWrite(c: Config, p: Pipe)
    requires c.Valid() && p.acked <= p.taken <= |p.input| && p.offer.None?
    requires p.q == [] <==> p.acked == p.taken
    requires p.q != [] ==>
      && p.q[0].addr == p.acked && p.q[0].len == Min(c.page, p.taken - p.acked) && !p.q[0].writePending
      && (p.q[0].pending <==> p.taken - p.acked < c.page) && (p.q[0].pending ==> |p.q| == 1)
    ensures Offer(p, false, false).offer == NextWrite(c, p)
  {
  }

  /** In every reachable state whose target is free, an idle call hands over exactly the next write. */
  lemma OffersExactly(c: Config, es: seq<Event>, p: Pipe)
    requires c.Valid() && !c.ignoreAlignment && Reached(c, es, p) && p.offer.None?
    ensures Structure(c, p) && DoWriteStep(c, p, false, false).offer == NextWrite(c, p)
  {
    RunKeeps(c, es, p);
    OldestChunk(c, p);
    OfferIsNextWrite(c, p);
  }

  // ---------- decoding all that has arrived ----------

  /** The most bytes that can stay behind in the decoded ring before the end of file is marked. */
  function Held(c: Config): int {
    if c.ignoreAlignment then 0 else c.page - 1
  }

  /** The gate of the flush opens as soon as the ring holds no whole page. */
  predicate Room(c: Config, p: Pipe) {
    && 2 * p.estimate <= c.ringSize - 1 - Held(c)
    && 2 * (|p.input| - p.taken) <= c.ringSize - 1 - Held(c)
  }

  ghost predicate Running(c: Config, p: Pipe) {
    && SlotsFor(c) && Invariant(c, p) && MarkedInTime(p) && p.flushing
  }

  lemma AckGoesOn(c: Config, p: Pipe)
    requires Running(c, p) && p.offer.Some?
    ensures Follows(c, p, ChunkDone(true), Done(p, true)) && Running(c, Done(p, true))
    ensures p.acked < Done(p, true).acked <= p.taken
    ensures Done(p, true).acked == p.taken <==> |p.q| == 1
  {
    DoneKeeps(c, p, true);
    LaidFirst(c, p.q, p.acked, p.taken);
    LaidOrder(c, p.q[1..], p.acked + p.q[0].len, p.taken);
  }

  /** Where a free target has no chunk to take, less than a page is left in the ring. */
  lemma NoChunkLeft(c: Config, p: Pipe)
    requires Invariant(c, p) && p.offer.None? && !HasOffer(p, false, false)
    ensures p.taken - p.acked <= Held(c)
  {
    if p.q != [] && !c.ignoreAlignment {
      PagedLength(c, p.q, p.acked, p.taken);
    }
  }

  /** An idle call, with the target free. */
  lemma IdleGoesOn(c: Config, p: Pipe) returns (r: Pipe)
    requires Running(c, p) && p.offer.None?
    ensures Follows(c, p, IdleStep(false, false), r) && Running(c, r)
    ensures r.input == p.input && r.acked == p.acked && r.written == p.written
    ensures r.taken == p.taken + FlushCount(c, p) && r.estimate == Max(p.estimate, FlushCount(c, p))
    ensures r.offer.Some? <==> HasOffer(p, false, false)
  {
    IdleKeeps(c, p, false, false);
    r := Idle(c, p, false, false).value;
    FirstFits(c, p);
    assert FlushCount(c, DoWriteStep(c, p, false, false)) == FlushCount(c, p);
  }

  function Max(a: int, b: int): int {
    if a < b then b else a
  }

  /** One step towards an input ring that is drained. */
  lemma DrainStep(c: Config, p: Pipe) returns (e: Event, r: Pipe)
    requires Running(c, p) && Room(c, p) && !p.written && p.taken < |p.input|
    ensures Follows(c, p, e, r) && Running(c, r) && Room(c, r) && !r.written
    ensures r.input == p.input && r.acked <= p.taken <= r.taken
    ensures r.taken > p.taken || r.acked > p.acked || (r.acked == p.acked && p.offer.None? && r.offer.Some?)
  {
    if p.offer.Some? {
      e, r := ChunkDone(true), Done(p, true);
      AckGoesOn(c, p);
    } else {
      e := IdleStep(false, false);
      r := IdleGoesOn(c, p);
      if r.offer.None? {
        NoChunkLeft(c, p);
      }
    }
  }

  lemma {:induction false} Drain(c: Config, p: Pipe) returns (es: seq<Event>, r: Pipe)
    requires Running(c, p) && Room(c, p) && !p.written
    ensures Leads(c, p, es, r) && Running(c, r) && Room(c, r) && !r.written
    ensures r.input == p.input && r.taken == |p.input| && (p.acked < |p.input| ==> r.acked < |p.input|)
    decreases |p.input| - p.taken, p.taken - p.acked, p.offer.None?
  {
    if p.taken == |p.input| {
      es, r := [], p;
    } else {
      var e, p1 := DrainStep(c, p);
      es, r := Drain(c, p1);
      LeadsMore(c, p, e, p1, es, r);
      es := [e] + es;
    }
  }

  // ---------- the rest of the file, byte by byte ----------

  lemma Feed(c: Config, p: Pipe, file: seq<byte>) returns (r: Pipe)
    requires Running(c, p) && Room(c, p) && !p.written && p.taken == |p.input| < |file| && p.input <= file
    requires c.inputSize > 1 && c.ringSize - 1 - Held(c) >= 2
    ensures Follows(c, p, AppendData([file[|p.input|]]), r) && Running(c, r) && Room(c, r) && !r.written
    ensures r.input == file[..|p.input| + 1] && r.acked == p.acked
  {
    var b := [file[|p.input|]];
    r := Append(c, p, b);
    AppendKeeps(c, p, b);
    assert p.input + b == file[..|p.input| + 1];
  }

  lemma {:induction false} FeedAll(c: Config, p: Pipe, file: seq<byte>) returns (es: seq<Event>, r: Pipe)
    requires Running(c, p) && Room(c, p) && !p.written && p.taken == |p.input| && p.input <= file
    requires c.inputSize > 1 && c.ringSize - 1 - Held(c) >= 2 && p.acked < |file|
    ensures Leads(c, p, es, r) && Running(c, r) && !r.written
    ensures r.input == file && r.taken == |file| && r.acked < |file|
    decreases |file| - |p.input|
  {
    if |p.input| == |file| {
      es, r := [], p;
    } else {
      var p1 := Feed(c, p, file);
      var e := AppendData([file[|p.input|]]);
      var ds, p2 := Drain(c, p1);
      LeadsMore(c, p, e, p1, ds, p2);
      es, r := FeedAll(c, p2, file);
      LeadsOn(c, p, [e] + ds, p2, es, r);
      es := [e] + ds + es;
    }
  }

  // ---------- the last chunks ----------

  /** Once the end of file is marked, a free target gets the oldest chunk, whatever its length. */
  lemma LastChunks(c: Config, p: Pipe)
    requires Running(c, p) && p.written && p.acked < p.taken && p.offer.None?
    ensures HasOffer(p, false, false) && FlushCount(c, p) == 0
  {
  }

  lemma FinishStep(c: Config, p: Pipe) returns (e: Event, r: Pipe)
    requires Running(c, p) && p.written && p.acked < p.taken
    ensures Follows(c, p, e, r) && Running(c, r) && r.written && r.input == p.input && r.taken == p.taken
    ensures r.acked > p.acked || (r.acked == p.acked && p.offer.None? && r.offer.Some?)
    ensures r.acked == r.taken ==> r.reallyWritten
  {
    if p.offer.Some? {
      e, r := ChunkDone(true), Done(p, true);
      AckGoesOn(c, p);
    } else {
      LastChunks(c, p);
      e := IdleStep(false, false);
      r := IdleGoesOn(c, p);
    }
  }

  lemma {:induction false} Finish(c: Config, p: Pipe) returns (es: seq<Event>, r: Pipe)
    requires Running(c, p) && p.written && p.acked < p.taken
    ensures Leads(c, p, es, r) && r.input == p.input && r.reallyWritten
    decreases p.taken - p.acked, p.offer.None?
  {
    var e, p1 := FinishStep(c, p);
    es, r := [], p1;
    if p1.acked < p1.taken {
      es, r := Finish(c, p1);
    }
    LeadsMore(c, p, e, p1, es, r);
    es := [e] + es;
  }

  /** A drained pipeline that has the whole file, with something left to acknowledge. */
  lemma MarkAndFinish(c: Config, p: Pipe) returns (es: seq<Event>, r: Pipe)
    requires Running(c, p) && p.taken == |p.input| && p.acked < p.taken
    ensures Leads(c, p, es, r) && r.input == p.input && r.reallyWritten
  {
    var p1 := p.(written := true);
    AppendKeeps(c, p, []);
    assert Follows(c, p, AppendData([]), p1);
    es, r := Finish(c, p1);
    LeadsMore(c, p, AppendData([]), p1, es, r);
    es := [AppendData([])] + es;
  }

  /** Draining, then feeding the rest, then marking the end. */
  lemma Complete(c: Config, p: Pipe, file: seq<byte>) returns (es: seq<Event>, r: Pipe)
    requires Running(c, p) && Room(c, p) && !p.written && p.input <= file && p.acked < |file|
    requires c.inputSize > 1 && c.ringSize - 1 - Held(c) >= 2
    ensures Leads(c, p, es, r) && r.input == file && r.reallyWritten
  {
    var ds, p1 := Drain(c, p);
    var fs, p2 := FeedAll(c, p1, file);
    LeadsOn(c, p, ds, p1, fs, p2);
    es, r := MarkAndFinish(c, p2);
    LeadsOn(c, p, ds + fs, p2, es, r);
    es := ds + fs + es;
  }

  // ---------- from which states a file can be completed ----------

  /** Some continuation ends with exactly this file reported as really written. */
  ghost predicate CanComplete(c: Config, p: Pipe, file: seq<byte>) {
    exists es, r :: Leads(c, p, es, r) && r.input == file && r.reallyWritten
  }

  /** Where everything is acknowledged before the end is marked, no chunk is left whose acknowledgement could report
      the end. */
  lemma {:induction false} NothingLeft(c: Config, p: Pipe, es: seq<Event>, r: Pipe)
    requires Invariant(c, p) && MarkedInTime(p) && !p.reallyWritten && p.acked == |p.input|
    requires Leads(c, p, es, r) && |r.input| == |p.input|
    ensures !r.reallyWritten
    decreases |es|
  {
    if es != [] {
      var p1 := LeadsFirst(c, p, es, r);
      FollowsKeeps(c, p, es[0], p1);
      Grows(c, p1, es[1..], r);
      NoneToDo(c, p, es[0], p1);
      NothingLeft(c, p1, es[1..], r);
    }
  }

  lemma NoneToDo(c: Config, p: Pipe, e: Event, r: Pipe)
    requires Invariant(c, p) && p.acked == |p.input| && Follows(c, p, e, r)
    ensures !e.ChunkDone? && |r.input| >= |p.input| && r.acked == p.acked && r.reallyWritten == p.reallyWritten
  {
    LaidOrder(c, p.q, p.acked, p.taken);
  }

  lemma {:induction false} Grows(c: Config, p: Pipe, es: seq<Event>, r: Pipe)
    requires Leads(c, p, es, r)
    ensures |p.input| <= |r.input|
    decreases |es|
  {
    if es != [] {
      var p1 := LeadsFirst(c, p, es, r);
      InputGrows(c, p, es[0], p1);
      Grows(c, p1, es[1..], r);
    }
  }

  lemma InputGrows(c: Config, p: Pipe, e: Event, r: Pipe)
    requires Follows(c, p, e, r)
    ensures |p.input| <= |r.input|
  {
  }

  lemma Completes(c: Config, p: Pipe, file: seq<byte>)
    requires SlotsFor(c) && c.inputSize > 1 && c.ringSize - 1 - Held(c) >= 2 && Invariant(c, p) && MarkedInTime(p)
    requires !p.written && Room(c, p) && p.input <= file && p.acked < |file|
    ensures CanComplete(c, p, file)
  {
    var p1 := p.(flushing := true);
    assert Follows(c, p, StartFlush, p1);
    var fs, r := Complete(c, p1, file);
    LeadsMore(c, p, StartFlush, p1, fs, r);
  }

  lemma NeverCompletes(c: Config, p: Pipe)
    requires Invariant(c, p) && MarkedInTime(p) && !p.reallyWritten && p.acked == |p.input|
    ensures !CanComplete(c, p, p.input)
  {
    forall fs, r | Leads(c, p, fs, r) && r.input == p.input
      ensures !r.reallyWritten
    {
      NothingLeft(c, p, fs, r);
    }
  }

  /** From a reachable state before the end is marked, an upload of a file that goes on from what has arrived can be
      completed if and only if not all of the file is acknowledged yet. */
  lemma CompletesExactly(c: Config, es: seq<Event>, p: Pipe, file: seq<byte>)
    requires c.Valid() && SlotsFor(c) && c.inputSize > 1 && c.ringSize - 1 - Held(c) >= 2
    requires Reached(c, es, p) && !p.written && Room(c, p) && p.input <= file
    ensures CanComplete(c, p, file) <==> p.acked < |file|
  {
    RunKeeps(c, es, p);
    if p.acked < |file| {
      Completes(c, p, file);
    } else {
      assert p.input == file;
      NeverCompletes(c, p);
    }
  }

  // ---------- a gate that stays closed ----------

  lemma StuckStep(c: Config, p: Pipe, e: Event, r: Pipe)
    requires Invariant(c, p) && 2 * p.estimate >= c.ringSize && Follows(c, p, e, r)
    ensures r.taken == p.taken && r.estimate == p.estimate
  {
    FirstFits(c, p);
  }

  lemma {:induction false} Stuck(c: Config, p: Pipe, es: seq<Event>, r: Pipe)
    requires Invariant(c, p) && MarkedInTime(p) && 2 * p.estimate >= c.ringSize && Leads(c, p, es, r)
    ensures Invariant(c, r) && r.taken == p.taken
    decreases |es|
  {
    if es != [] {
      var p1 := LeadsFirst(c, p, es, r);
      FollowsKeeps(c, p, es[0], p1);
      StuckStep(c, p, es[0], p1);
      Stuck(c, p1, es[1..], r);
    }
  }

  /** Once half of the ring was decoded by one call, the gate does not open even when the ring is empty: nothing more
      is decoded, and a longer file is never completed. */
  lemma StuckNeverCompletes(c: Config, es: seq<Event>, p: Pipe, file: seq<byte>)
    requires c.Valid() && Reached(c, es, p) && 2 * p.estimate >= c.ringSize && p.taken < |file|
    ensures !CanComplete(c, p, file)
  {
    RunKeeps(c, es, p);
    forall fs, r | Leads(c, p, fs, r) && r.input == file
      ensures !r.reallyWritten
    {
      Stuck(c, p, fs, r);
    }
  }

  function HalfArrived(c: Config): Pipe {
    var n := c.ringSize / 2;
    Pipe(Zeros(n), 0, 0, [], None, [], true, false, false, 0)
  }

  lemma HalfReached(c: Config) returns (es: seq<Event>)
    requires c.Valid() && 1 < c.ringSize < 2 * c.inputSize
    ensures Reached(c, es, HalfArrived(c))
  {
    var p := Fresh(0);
    assert Reached(c, [], p);
    RunKeeps(c, [], p);
    var p1 := p.(flushing := true);
    RunMore(c, [], p, StartFlush, p1);
    RunKeeps(c, [] + [StartFlush], p1);
    assert [] + Zeros(c.ringSize / 2) == Zeros(c.ringSize / 2);
    RunMore(c, [] + [StartFlush], p1, AppendData(Zeros(c.ringSize / 2)), HalfArrived(c));
    es := [] + [StartFlush] + [AppendData(Zeros(c.ringSize / 2))];
  }

  /** Such a state is reached where half of the ring can arrive before it is decoded. */
  lemma GateCanStick(c: Config) returns (es: seq<Event>, p: Pipe)
    requires c.Valid() && SlotsFor(c) && 1 < c.ringSize < 2 * c.inputSize
    ensures Reached(c, es, p) && !p.written && |p.input| == c.ringSize / 2
    ensures forall file: seq<byte> :: |file| > c.ringSize / 2 ==> !CanComplete(c, p, file)
  {
    var h := HalfArrived(c);
    es := HalfReached(c);
    RunKeeps(c, es, h);
    p := IdleGoesOn(c, h);
    assert FlushCount(c, h) == c.ringSize / 2;
    RunMore(c, es, h, IdleStep(false, false), p);
    es := es + [IdleStep(false, false)];
    forall file: seq<byte> | |file| > c.ringSize / 2
      ensures !CanComplete(c, p, file)
    {
      StuckNeverCompletes(c, es, p, file);
    }
  }

  // ---------- which rings can take every file ----------

  /** Some run ends with exactly this file reported as really written. */
  ghost predicate CanUpload(c: Config, file: seq<byte>) {
    exists es, p :: Reached(c, es, p) && p.input == file && p.reallyWritten
  }

  /** Room for two bytes beside what must stay in the ring, and for one byte of input. */
  predicate RingsSuffice(c: Config) {
    c.inputSize > 1 && c.ringSize >= 4 && (c.ignoreAlignment || 2 * c.page <= c.ringSize)
  }

  lemma Uploads(c: Config, file: seq<byte>)
    requires c.Valid() && SlotsFor(c) && RingsSuffice(c) && file != []
    ensures CanUpload(c, file)
  {
    var p := Fresh(0);
    assert Reached(c, [], p);
    CompletesExactly(c, [], p, file);
    var es, r :| Leads(c, p, es, r) && r.input == file && r.reallyWritten;
    ReachedOn(c, [], p, es, r);
  }

  /** A page that is as long as the ring never becomes whole: nothing is acknowledged before the end is marked. */
  lemma {:induction false} PageTooLong(c: Config, es: seq<Event>, p: Pipe)
    requires c.Valid() && !c.ignoreAlignment && c.page == c.ringSize && Reached(c, es, p)
    ensures p.taken < c.ringSize && (!p.written ==> p.acked == 0 && p.offer.None?)
    decreases |es|
  {
    RunKeeps(c, es, p);
    if es != [] {
      var n := |es| - 1;
      var p0 :| Follows(c, p0, es[n], p) && Reached(c, es[..n], p0);
      PageTooLong(c, es[..n], p0);
      RunKeeps(c, es[..n], p0);
      NoPage(c, p0, es[n], p);
    }
  }

  lemma NoPage(c: Config, p: Pipe, e: Event, r: Pipe)
    requires Invariant(c, p) && MarkedInTime(p) && !c.ignoreAlignment && c.page == c.ringSize && Follows(c, p, e, r)
    requires p.taken < c.ringSize && (!p.written ==> p.acked == 0 && p.offer.None?)
    ensures r.taken < c.ringSize && (!r.written ==> r.acked == 0 && r.offer.None?)
  {
    if e.IdleStep? {
      FirstFits(c, p);
      if p.q != [] {
        PagedLength(c, p.q, p.acked, p.taken);
      }
    }
  }

  /** In a ring of two bytes, the gate of the flush is closed behind the first byte. */
  lemma {:induction false} RingTooShort(c: Config, es: seq<Event>, p: Pipe)
    requires c.Valid() && c.ringSize <= 2 && Reached(c, es, p)
    ensures p.taken <= 1 && (p.taken == 1 ==> p.estimate >= 1)
    decreases |es|
  {
    RunKeeps(c, es, p);
    if es != [] {
      var n := |es| - 1;
      var p0 :| Follows(c, p0, es[n], p) && Reached(c, es[..n], p0);
      RingTooShort(c, es[..n], p0);
      RunKeeps(c, es[..n], p0);
      GateCloses(c, p0, es[n], p);
    }
  }

  lemma GateCloses(c: Config, p: Pipe, e: Event, r: Pipe)
    requires Invariant(c, p) && c.ringSize <= 2 && Follows(c, p, e, r)
    requires p.taken <= 1 && (p.taken == 1 ==> p.estimate >= 1)
    ensures r.taken <= 1 && (r.taken == 1 ==> r.estimate >= 1)
  {
    FirstFits(c, p);
  }

  lemma ReportBounds(c: Config, es: seq<Event>, p: Pipe)
    requires c.Valid() && Reached(c, es, p)
    ensures p.acked <= p.taken <= |p.input| && (p.reallyWritten ==> p.acked == |p.input|)
  {
    RunKeeps(c, es, p);
  }

  lemma NotThree(n: nat)
    requires PowerOfTwo(n)
    ensures n <= 2 || n >= 4
  {
  }

  lemma NotAllTaken(c: Config, es: seq<Event>, p: Pipe)
    requires c.Valid() && !RingsSuffice(c) && Reached(c, es, p)
    ensures p.taken < Max(2, c.ringSize)
  {
    NotThree(c.ringSize);
    if c.inputSize <= 1 {
      NothingArrives(c, es, p);
    } else if c.ringSize <= 2 {
      RingTooShort(c, es, p);
    } else {
      PageIsRing(c);
      PageTooLong(c, es, p);
    }
  }

  lemma NeverWritten(c: Config, es: seq<Event>, p: Pipe)
    requires c.Valid() && !RingsSuffice(c) && Reached(c, es, p) && |p.input| == Max(2, c.ringSize)
    ensures !p.reallyWritten
  {
    ReportBounds(c, es, p);
    NotAllTaken(c, es, p);
  }

  /** Without such rings, a file of the length of the ring cannot be uploaded. */
  lemma NoUpload(c: Config, file: seq<byte>)
    requires c.Valid() && !RingsSuffice(c) && |file| == Max(2, c.ringSize)
    ensures !CanUpload(c, file)
  {
    forall es, p | Reached(c, es, p) && p.input == file
      ensures !p.reallyWritten
    {
      NeverWritten(c, es, p);
    }
  }

  lemma PageIsRing(c: Config)
    requires c.Valid() && 2 * c.page > c.ringSize
    ensures c.page == c.ringSize
  {
    PagesDivideRing(c.page, c.ringSize);
    var k := c.ringSize / c.page;
    if k >= 2 {
      MultipleGrows(c.page, 2, k);
    }
  }

  /** With slots for the ring, every file that is not empty can be uploaded if and only if the rings suffice. */
  lemma UploadsExactly(c: Config)
    requires c.Valid() && SlotsFor(c)
    ensures (forall file: seq<byte> :: file != [] ==> CanUpload(c, file)) <==> RingsSuffice(c)
  {
    if RingsSuffice(c) {
      forall file: seq<byte> | file != []
        ensures CanUpload(c, file)
      {
        Uploads(c, file);
      }
    } else {
      NoUpload(c, Zeros(Max(2, c.ringSize)));
    }
  }
}
