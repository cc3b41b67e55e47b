/** Intel HEX uploads to targets that want aligned chunks: for which addresses a chunk runs over the end of the decoded
    ring. */
module HexCrossing {
  import opened Basics
  import opened Bytes
  import opened IhexRuns
  import opened IhexRoom
  import opened WriteChunks
  import opened ChunkLaps
  import opened HexPipe
  import H = IntelHex
  import F = FirmwarePipe
  import Ring

  // ---------- the invariant ----------

  /** The chunks as the next call of bf_enqueue_for_writing finds them. */
  function Standing(c: Config, u: Upload): Loop
    requires c.ringSize > 0
  {
    Loop(u.q, Ring.Index(|u.places|, c.ringSize), 0, 0)
  }

  ghost predicate InRing(c: Config, u: Upload) {
    u.offer.Some? ==> u.q != [] && u.q[0].start + u.q[0].len <= c.ringSize
  }

  ghost predicate Lapped(c: Config, u: Upload)
    requires c.page > 0 && c.ringSize > 0
  {
    && (NoCrossing(c, u.q) <==> LapsFit(c, u.places)) && InRing(c, u)
    && (!u.hex.eof ==> AtPage(c, Standing(c, u), |u.places|, u.places))
  }

  lemma MarkedLapped(c: Config, q: seq<Chunk>)
    requires q != []
    ensures NoCrossing(c, Marked(q)) <==> NoCrossing(c, q)
  {
    assert forall i :: 0 <= i < |q| ==> Marked(q)[i].start == q[i].start && Marked(q)[i].len == q[i].len;
  }

  lemma OfferLapped(c: Config, u: Upload, busy: bool, mustErase: bool, u': Upload)
    requires c.Valid() && Lapped(c, u) && Offers(c, u, busy, mustErase, u')
    ensures Lapped(c, u')
  {
    if HasOffer(u, busy, mustErase) {
      MarkedLapped(c, u.q);
    }
  }

  /** The call that queues n bytes from address addr on. */
  lemma NextAtPage(c: Config, q: seq<Chunk>, tail: nat, n: nat, addr: nat, places: seq<nat>)
    requires c.Valid() && n > 0 && AtPage(c, Loop(q, tail, 0, 0), |places|, places)
    ensures AtPage(c, Loop(q, tail, n, addr), |places|, places + Run(addr, n))
  {
    if places != [] {
      StretchOfPrefix(places, Run(addr, n), |places| - 1);
    }
  }

  lemma QueuesLapped(c: Config, u: Upload, s: Hex, addr: nat, x: seq<byte>, u': Upload)
    requires Good(c, u) && !c.ignoreAlignment && Lapped(c, u) && !u.hex.eof && x != [] && Queues(c, u, s, addr, x, u')
    ensures Lapped(c, u')
  {
    var l := Loop(u.q, Ring.Index(|u.places|, c.ringSize), |x|, addr);
    var more := Run(addr, |x|);
    NextAtPage(c, u.q, l.tail, |x|, addr, u.places);
    CallAtPage(c, l, |u.places|, u.places + more);
    CallLapsExactly(c, l, u.places, more);
    if u.offer.Some? {
      F.EnqueueKeepsFirst(c, l);
    }
  }

  lemma FlushLapped(c: Config, u: Upload, u': Upload)
    requires Good(c, u) && !c.ignoreAlignment && Lapped(c, u) && Flushes(c, u, u')
    ensures Lapped(c, u')
  {
    if u' != u {
      var r := CallOn(u.hex, Space(c, u));
      if r.Stop? && r.c.out != [] {
        QueuesLapped(c, u, Returned(u.hex, r.c, r.eof), H.U32(r.c.addr), r.c.out, u');
      }
    }
  }

  lemma DoneLapped(c: Config, u: Upload, ok: bool)
    requires Good(c, u) && Lapped(c, u) && u.offer.Some? && u.q != []
    ensures Lapped(c, Done(u, ok))
  {
    if ok {
      var q := u.q[1..];
      assert forall i :: 0 <= i < |q| ==> q[i] == u.q[i + 1];
      assert u.q == [u.q[0]] + q;
      assert NoCrossing(c, q) ==> NoCrossing(c, u.q);
    }
  }

  lemma StepLapped(c: Config, u: Upload, e: Step, u': Upload)
    requires Good(c, u) && !c.ignoreAlignment && Lapped(c, u) && Goes(c, u, e, u')
    ensures Lapped(c, u')
  {
    match e
    case TextComes(n) =>
    case StartFlush =>
    case Idle(busy, mustErase) =>
      var u1 :| Offers(c, u, busy, mustErase, u1) && (if u.flushing then Flushes(c, u1, u') else u' == u1);
      OfferLapped(c, u, busy, mustErase, u1);
      if u.flushing {
        OfferKeeps(c, u, busy, mustErase, u1);
        FlushLapped(c, u1, u');
      }
    case ChunkDone(ok) => DoneLapped(c, u, ok);
  }

  lemma {:induction false} RunLapped(c: Config, text: seq<byte>, es: seq<Step>, u: Upload)
    requires c.Valid() && !c.ignoreAlignment && UploadRuns(c, text, es, u)
    ensures Good(c, u) && Lapped(c, u)
    decreases |es|
  {
    RunKeeps(c, text, es, u);
    if es == [] {
      Ring.SmallMod(0, c.ringSize);
    } else {
      var n := |es| - 1;
      var u0 :| Goes(c, u0, es[n], u) && UploadRuns(c, text, es[..n], u0);
      RunLapped(c, text, es[..n], u0);
      StepLapped(c, u0, es[n], u);
    }
  }

  // ---------- the theorems ----------

  /** In every state of every upload to a target that wants aligned chunks: no queued chunk crosses the end of the
      decoded ring if and only if no stretch of consecutive addresses, among those decoded so far, begins off a page
      boundary of the stream and goes on into the next lap of the ring. */
  lemma RunCrossesExactly(c: Config, text: seq<byte>, es: seq<Step>, u: Upload)
    requires c.Valid() && !c.ignoreAlignment && UploadRuns(c, text, es, u)
    ensures NoCrossing(c, u.q) <==> LapsFit(c, u.places)
  {
    RunLapped(c, text, es, u);
  }

  /** The addresses of a file's bytes, in order. */
  function Addresses(pairs: seq<(nat, byte)>): (a: seq<nat>)
    ensures |a| == |pairs|
  {
    seq(|pairs|, k requires 0 <= k < |pairs| => pairs[k].0)
  }

  /** The addresses do not go on from the last 32-bit address to the first. */
  ghost predicate NoWrap(pairs: seq<(nat, byte)>) {
    forall k :: 0 < k < |pairs| ==> !(pairs[k].0 == 0 && pairs[k - 1].0 == 0xffff_ffff)
  }

  lemma WrapShows(addr: nat, x: seq<byte>)
    requires addr < 0x1_0000_0000 < addr + |x|
    ensures !NoWrap(Place(addr, x))
  {
    var k := 0x1_0000_0000 - addr;
    var placed := Place(addr, x);
    assert placed[k].0 == H.U32(0x1_0000_0000) == 0 && placed[k - 1].0 == H.U32(0xffff_ffff) == 0xffff_ffff;
  }

  lemma NoWrapEnds(addr: nat, x: seq<byte>)
    requires addr < 0x1_0000_0000 && NoWrap(Place(addr, x))
    ensures addr + |x| <= 0x1_0000_0000
  {
    if addr + |x| > 0x1_0000_0000 {
      WrapShows(addr, x);
    }
  }

  lemma NoWrapPart(a: seq<(nat, byte)>, b: seq<(nat, byte)>)
    requires NoWrap(a + b)
    ensures NoWrap(a) && NoWrap(b)
  {
    var all := a + b;
    assert forall k :: 0 <= k < |a| ==> a[k] == all[k];
    forall k | 0 < k < |b|
      ensures !(b[k].0 == 0 && b[k - 1].0 == 0xffff_ffff)
    {
      assert b[k] == all[|a| + k] && b[k - 1] == all[|a| + k - 1];
    }
  }

  /** The places are the addresses themselves. */
  ghost predicate Plain(u: Upload) {
    NoWrap(u.hex.out) ==> u.places == Addresses(u.hex.out)
  }

  lemma AddressesMore(out: seq<(nat, byte)>, addr: nat, x: seq<byte>)
    requires addr + |x| <= 0x1_0000_0000
    ensures Addresses(out + Place(addr, x)) == Addresses(out) + Run(addr, |x|)
  {
    var placed := Place(addr, x);
    forall k | 0 <= k < |x|
      ensures placed[k].0 == addr + k
    {
      assert placed[k] == (H.U32(addr + k), x[k]);
      Ring.SmallMod(addr + k, 0x1_0000_0000);
    }
  }

  lemma QueuesPlain(c: Config, u: Upload, s: Hex, addr: nat, x: seq<byte>, u': Upload)
    requires Plain(u) && Queues(c, u, s, addr, x, u') && s.out == u.hex.out + Place(addr, x) && addr < 0x1_0000_0000
    ensures Plain(u')
  {
    if NoWrap(s.out) {
      NoWrapPart(u.hex.out, Place(addr, x));
      NoWrapEnds(addr, x);
      AddressesMore(u.hex.out, addr, x);
    }
  }

  lemma FlushPlain(c: Config, u: Upload, u': Upload)
    requires Plain(u) && Flushes(c, u, u')
    ensures Plain(u')
  {
    if u' != u {
      var r := CallOn(u.hex, Space(c, u));
      if r.Stop? {
        var s := Returned(u.hex, r.c, r.eof);
        if r.c.out != [] {
          PlaceU32(r.c.addr, r.c.out);
          QueuesPlain(c, u, s, H.U32(r.c.addr), r.c.out, u');
        } else {
          assert s.out == u.hex.out;
        }
      }
    }
  }

  lemma {:induction false} RunPlain(c: Config, text: seq<byte>, es: seq<Step>, u: Upload)
    requires c.Valid() && UploadRuns(c, text, es, u)
    ensures Plain(u)
    decreases |es|
  {
    if es != [] {
      var n, e := |es| - 1, es[|es| - 1];
      var u0 :| Goes(c, u0, e, u) && UploadRuns(c, text, es[..n], u0);
      RunPlain(c, text, es[..n], u0);
      if e.Idle? && u0.flushing {
        var u1 :| Offers(c, u0, e.busy, e.mustErase, u1) && Flushes(c, u1, u);
        FlushPlain(c, u1, u);
      }
    }
  }

  lemma {:induction false} LapsOfPrefix(c: Config, places: seq<nat>, n: nat)
    requires c.Valid() && n <= |places| && LapsFit(c, places)
    ensures LapsFit(c, places[..n])
  {
    assert places == places[..n] + places[n..];
    forall k | 0 <= k < n
      ensures LapFits(c, places[..n], k)
    {
      StretchOfPrefix(places[..n], places[n..], k);
      assert LapFits(c, places, k);
    }
  }

  lemma DecodedAddresses(c: Config, lead: seq<byte>, ls: seq<HexLine>, es: seq<Step>, u: Upload)
    requires c.Valid() && NoColon(lead) && ValidLines(ls) && Steady(ls, 0, Nowhere) && NoWrap(Pairs(ls, 0))
    requires UploadRuns(c, lead + Text(ls), es, u) && !u.hex.lost
    ensures |u.places| <= |Pairs(ls, 0)| && u.places == Addresses(Pairs(ls, 0))[..|u.places|]
    ensures u.hex.eof ==> u.places == Addresses(Pairs(ls, 0))
  {
    var pairs := Pairs(ls, 0);
    RunKeeps(c, lead + Text(ls), es, u);
    RunPlain(c, lead + Text(ls), es, u);
    var hes :| Reached(lead + Text(ls), hes, u.hex);
    ArrivalIndependence(lead, ls, hes, u.hex);
    assert pairs == u.hex.out + pairs[|u.hex.out|..];
    NoWrapPart(u.hex.out, pairs[|u.hex.out|..]);
  }

  /** A condition on the file, for a target that wants aligned chunks: if no stretch of consecutive addresses begins off
      a page boundary of the file's bytes and goes on into the next lap of the decoded ring, then no chunk of any run
      that loses no data crosses the end of the ring. When all is decoded, this is the exact condition. */
  lemma FileCrossesExactly(c: Config, lead: seq<byte>, ls: seq<HexLine>, es: seq<Step>, u: Upload)
    requires c.Valid() && !c.ignoreAlignment
    requires NoColon(lead) && ValidLines(ls) && Steady(ls, 0, Nowhere) && NoWrap(Pairs(ls, 0))
    requires UploadRuns(c, lead + Text(ls), es, u) && !u.hex.lost
    ensures LapsFit(c, Addresses(Pairs(ls, 0))) ==> NoCrossing(c, u.q)
    ensures u.hex.eof ==> (NoCrossing(c, u.q) <==> LapsFit(c, Addresses(Pairs(ls, 0))))
  {
    RunCrossesExactly(c, lead + Text(ls), es, u);
    DecodedAddresses(c, lead, ls, es, u);
    if LapsFit(c, Addresses(Pairs(ls, 0))) {
      LapsOfPrefix(c, Addresses(Pairs(ls, 0)), |u.places|);
    }
  }

  /** So the target can be offered every chunk of such a file. */
  lemma FileOffered(c: Config, lead: seq<byte>, ls: seq<HexLine>, es: seq<Step>, u: Upload, busy: bool, mustErase: bool)
    returns (u': Upload)
    requires c.Valid() && NoColon(lead) && ValidLines(ls) && Steady(ls, 0, Nowhere) && NoWrap(Pairs(ls, 0))
    requires c.ignoreAlignment || LapsFit(c, Addresses(Pairs(ls, 0)))
    requires UploadRuns(c, lead + Text(ls), es, u) && !u.hex.lost
    ensures Offers(c, u, busy, mustErase, u')
  {
    if c.ignoreAlignment {
      RunNeverCrosses(c, lead + Text(ls), es, u);
    } else {
      FileCrossesExactly(c, lead, ls, es, u);
    }
    u' := OfferPossible(c, lead + Text(ls), es, u, busy, mustErase);
  }
}
