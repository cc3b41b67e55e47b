/** The raw binary upload to targets that ignore alignment: when queueing fails. Every decoder call makes a chunk of
    its own, however few bytes it has, so that the chunk slots can run out long before the decoded ring is full. */
module UnalignedPipe {
  import opened Basics
  import opened Bytes
  import opened Ring
  import opened WriteChunks
  import opened ChunkPieces
  import opened FirmwarePipe

  /** In every reachable state, a step fails exactly when it is an idle call whose flush needs more chunks than there
      are slots left. */
  lemma StepFailsExactly(c: Config, es: seq<Event>, p: Pipe, e: Event)
    requires c.Valid() && c.ignoreAlignment && Reached(c, es, p) && Legal(p, e)
    ensures Structure(c, p)
    ensures Step(c, p, e).None? <==>
            e.IdleStep? && p.flushing && FlushCount(c, p) > 0
            && |p.q| + ChunksNeeded(c, Index(p.taken, c.ringSize), FlushCount(c, p)) > c.slots - 1
  {
    RunKeeps(c, es, p);
    if e.IdleStep? {
      OfferKeepsCount(c, p, e.busy, e.mustErase);
      var p1 := DoWriteStep(c, p, e.busy, e.mustErase);
      if p.flushing && FlushCount(c, p) > 0 {
        EnqueueFailsExactly(c, Loop(p1.q, Index(p1.taken, c.ringSize), FlushCount(c, p1), p1.taken));
      }
    }
  }

  lemma OfferKeepsCount(c: Config, p: Pipe, busy: bool, mustErase: bool)
    requires Structure(c, p)
    ensures var p1 := DoWriteStep(c, p, busy, mustErase);
      && |p1.q| == |p.q| && p1.taken == p.taken && p1.flushing == p.flushing && WellFormed(c, p1.q)
      && p1.acked <= p1.taken <= |p1.input| && FlushCount(c, p1) == FlushCount(c, p)
  {
    FirstFits(c, p);
  }

  /** No step of any run fails. */
  ghost predicate NeverStops(c: Config)
    requires c.Valid()
  {
    forall es, p, e :: Reached(c, es, p) && Legal(p, e) ==> Structure(c, p) && Step(c, p, e).Some?
  }

  // ---------- runs of single bytes ----------

  function Zeros(n: nat): (z: seq<byte>)
    ensures |z| == n
  {
    seq(n, _ => 0)
  }

  function Singles(n: nat): (q: seq<Chunk>)
    ensures |q| == n
  {
    seq(n, i requires 0 <= i < n => Chunk(i, i, 1, false, false))
  }

  /** n bytes were appended and decoded one by one, while the target was busy. */
  function Ones(n: nat): Pipe {
    Pipe(Zeros(n), n, 0, Singles(n), None, [], true, false, false, if n == 0 then 0 else 1)
  }

  function Arrived(n: nat): Pipe {
    Ones(n).(input := Zeros(n + 1))
  }

  lemma RunMore(c: Config, es: seq<Event>, p: Pipe, e: Event, p': Pipe)
    requires Reached(c, es, p) && Follows(c, p, e, p')
    ensures Reached(c, es + [e], p')
  {
    assert (es + [e])[..|es|] == es;
  }

  lemma OneMore(c: Config, es: seq<Event>, n: nat)
    requires c.Valid() && c.inputSize > 1 && Reached(c, es, Ones(n))
    ensures Reached(c, es + [AppendData([0])], Arrived(n))
  {
    RunKeeps(c, es, Ones(n));
    assert Zeros(n) + [0] == Zeros(n + 1);
    RunMore(c, es, Ones(n), AppendData([0]), Arrived(n));
  }

  lemma SinglesRoom(c: Config, n: nat)
    requires c.Valid() && c.slots < c.ringSize && n < c.slots
    ensures n + 2 < c.ringSize && Index(n, c.ringSize) == n && Index(n + 1, c.ringSize) == n + 1
  {
    PagesDivideRing(c.slots, c.ringSize);
    MultipleBounds(c.slots, c.ringSize / c.slots - 1);
    var k := c.ringSize / c.slots;
    assert c.slots * k == c.slots + c.slots * (k - 1);
    if k >= 2 {
      SmallMod(n, c.ringSize);
      SmallMod(n + 1, c.ringSize);
    }
  }

  lemma FlushOne(c: Config, n: nat)
    requires c.Valid() && c.ignoreAlignment && c.slots < c.ringSize && n < c.slots && Structure(c, Arrived(n))
    ensures FlushCount(c, Arrived(n)) == 1
    ensures if n == c.slots - 1 then Flush(c, Arrived(n)) == None else Flush(c, Arrived(n)) == Some(Ones(n + 1))
  {
    SinglesRoom(c, n);
    var p := Loop(Singles(n), n, 1, n);
    EnqueueRound(c, p);
    if n < c.slots - 1 {
      RoundIsNew(c, p);
      MaskIsMod(n + 1, c.ringSize);
      assert Singles(n) + [Chunk(n, n, 1, false, false)] == Singles(n + 1);
      assert Round(c, p) == Some(Loop(Singles(n + 1), n + 1, 0, n + 1));
    }
  }

  lemma BusyIdle(c: Config, p: Pipe)
    requires Structure(c, p) && p.flushing
    ensures Idle(c, p, true, false) == Flush(c, p)
  {
  }

  /** Up to as many chunks as there can be. */
  lemma {:induction false} SinglesReached(c: Config, n: nat) returns (es: seq<Event>)
    requires c.Valid() && c.ignoreAlignment && c.inputSize > 1 && c.slots < c.ringSize && n < c.slots
    ensures Reached(c, es, Ones(n))
    decreases n
  {
    if n == 0 {
      var p := Fresh(0);
      assert Reached(c, [], p);
      RunKeeps(c, [], p);
      assert Singles(0) == [] && Zeros(0) == [];
      RunMore(c, [], p, StartFlush, Ones(0));
      es := [] + [StartFlush];
    } else {
      es := SinglesReached(c, n - 1);
      OneMore(c, es, n - 1);
      es := es + [AppendData([0])];
      RunKeeps(c, es, Arrived(n - 1));
      FlushOne(c, n - 1);
      BusyIdle(c, Arrived(n - 1));
      RunMore(c, es, Arrived(n - 1), IdleStep(true, false), Ones(n));
      es := es + [IdleStep(true, false)];
    }
  }

  /** With fewer slots than the ring has bytes, a run of single bytes to a busy target ends in an error. */
  lemma SlotsRunOut(c: Config) returns (es: seq<Event>, p: Pipe)
    requires c.Valid() && c.ignoreAlignment && c.inputSize > 1 && c.slots < c.ringSize
    ensures Reached(c, es, p) && Structure(c, p) && Step(c, p, IdleStep(true, false)).None?
    ensures |p.input| == c.slots && p.acked == 0
  {
    var n := c.slots - 1;
    es := SinglesReached(c, n);
    OneMore(c, es, n);
    p := Arrived(n);
    es := es + [AppendData([0])];
    RunKeeps(c, es, p);
    FlushOne(c, n);
    BusyIdle(c, p);
  }

  lemma {:induction false} NothingArrives(c: Config, es: seq<Event>, p: Pipe)
    requires c.Valid() && c.inputSize <= 1 && Reached(c, es, p)
    ensures p.input == [] && p.taken == 0
    decreases |es|
  {
    RunKeeps(c, es, p);
    if es != [] {
      var n := |es| - 1;
      var p0 :| Follows(c, p0, es[n], p) && Reached(c, es[..n], p0);
      NothingArrives(c, es[..n], p0);
    }
  }

  /** A target that ignores alignment: no run ever ends in an error if and only if there are as many chunk slots as the
      decoded ring has bytes, or nothing can be uploaded at all. The number of slots that is enough for pages is not. */
  lemma NeverStopsExactly(c: Config)
    requires c.Valid() && c.ignoreAlignment
    ensures NeverStops(c) <==> c.slots >= c.ringSize || c.inputSize <= 1
  {
    if c.slots >= c.ringSize {
      forall es, p, e | Reached(c, es, p) && Legal(p, e)
        ensures Structure(c, p) && Step(c, p, e).Some?
      {
        NeverFails(c, es, p, e);
      }
    } else if c.inputSize <= 1 {
      forall es, p, e | Reached(c, es, p) && Legal(p, e)
        ensures Structure(c, p) && Step(c, p, e).Some?
      {
        NothingArrives(c, es, p);
        StepFailsExactly(c, es, p, e);
      }
    } else {
      var es, p := SlotsRunOut(c);
      assert Legal(p, IdleStep(true, false));
    }
  }
}
