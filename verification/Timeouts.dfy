/** The delta-encoded timeout queue of src/dfu.c. */
module Timeouts {

  function InsertAt<T>(s: seq<T>, k: nat, x: T): (r: seq<T>)
    requires k <= |s|
    ensures |r| == |s| + 1 && r[k] == x
    ensures forall i :: 0 <= i < k ==> r[i] == s[i]
    ensures forall i :: k < i <= |s| ==> r[i] == s[i - 1]
  {
    s[..k] + [x] + s[k..]
  }

  function RemoveAt<T>(s: seq<T>, k: nat): (r: seq<T>)
    requires k < |s|
    ensures |r| == |s| - 1
    ensures forall i :: 0 <= i < k ==> r[i] == s[i]
    ensures forall i :: k <= i < |s| - 1 ==> r[i] == s[i + 1]
  {
    s[..k] + s[k + 1..]
  }

  /** Where t stands in s; |s| when it is absent. */
  function IndexOf<T(==)>(s: seq<T>, t: T): (k: nat)
    ensures k <= |s|
    ensures t !in s[..k]
    ensures k < |s| ==> s[k] == t
  {
    if s == [] || s[0] == t then 0 else 1 + IndexOf(s[1..], t)
  }

  // ---------- delta encoding ----------

  ghost predicate Sorted(s: seq<int>) {
    forall i, j :: 0 <= i < j < |s| ==> s[i] <= s[j]
  }

  /** The absolute deadlines behind a list of deltas. */
  function Deadlines(deltas: seq<int>, start: int): (r: seq<int>)
    ensures |r| == |deltas|
  {
    if deltas == [] then [] else [start + deltas[0]] + Deadlines(deltas[1..], start + deltas[0])
  }

  /** How many deadlines lie strictly before d, in a sorted list. */
  function Rank(deadlines: seq<int>, d: int): (k: nat)
    ensures k <= |deadlines|
    ensures forall i :: 0 <= i < k ==> deadlines[i] < d
    ensures k < |deadlines| ==> d <= deadlines[k]
  {
    if deadlines == [] || d <= deadlines[0] then 0 else 1 + Rank(deadlines[1..], d)
  }

  /** The place the source's search finds for an absolute deadline d, and what is left of d there. */
  function Search(deltas: seq<int>, d: int): (r: (nat, int))
    ensures r.0 <= |deltas|
  {
    if deltas == [] || d <= deltas[0] then (0, d) else
      var (k, rest) := Search(deltas[1..], d - deltas[0]);
      (k + 1, rest)
  }

  function DeltasInserted(deltas: seq<int>, k: nat, delta: int): (r: seq<int>)
    requires k <= |deltas|
  {
    if k == |deltas| then deltas + [delta]
    else deltas[..k] + [delta, deltas[k] - delta] + deltas[k + 1..]
  }

  function DeltasRemoved(deltas: seq<int>, k: nat): (r: seq<int>)
    requires k < |deltas|
  {
    if k == |deltas| - 1 then deltas[..k]
    else deltas[..k] + [deltas[k + 1] + deltas[k]] + deltas[k + 2..]
  }

  lemma {:induction false} SearchIsRank(deltas: seq<int>, start: int, d: int)
    ensures Search(deltas, d - start).0 == Rank(Deadlines(deltas, start), d)
  {
    if deltas != [] {
      var r := Deadlines(deltas, start);
      assert r[0] == start + deltas[0] && r[1..] == Deadlines(deltas[1..], start + deltas[0]);
      if d > r[0] {
        SearchIsRank(deltas[1..], start + deltas[0], d);
      }
    }
  }

  /** Splitting one delta in two inserts one absolute deadline and keeps all others. */
  lemma {:induction false} InsertionRefines(deltas: seq<int>, start: int, d: int)
    ensures var (k, delta) := Search(deltas, d - start);
      Deadlines(DeltasInserted(deltas, k, delta), start) == InsertAt(Deadlines(deltas, start), k, d)
  {
    var (k, delta) := Search(deltas, d - start);
    if k == 0 {
      FrontInserted(deltas, start, delta);
    } else {
      InsertionRefines(deltas[1..], start + deltas[0], d);
      assert Search(deltas[1..], d - start - deltas[0]) == (k - 1, delta);
      LaterInserted(deltas, start, k, delta, d);
    }
  }

  lemma FrontInserted(deltas: seq<int>, start: int, delta: int)
    ensures Deadlines(DeltasInserted(deltas, 0, delta), start) == [start + delta] + Deadlines(deltas, start)
  {
    var r := DeltasInserted(deltas, 0, delta);
    if deltas != [] {
      assert r[0] == delta && r[1..] == [deltas[0] - delta] + deltas[1..];
      assert Deadlines(r[1..], start + delta) == Deadlines(deltas, start);
    }
  }

  lemma LaterInserted(deltas: seq<int>, start: int, k: nat, delta: int, d: int)
    requires 0 < k <= |deltas|
    requires Deadlines(DeltasInserted(deltas[1..], k - 1, delta), start + deltas[0])
             == InsertAt(Deadlines(deltas[1..], start + deltas[0]), k - 1, d)
    ensures Deadlines(DeltasInserted(deltas, k, delta), start) == InsertAt(Deadlines(deltas, start), k, d)
  {
    var r, first := DeltasInserted(deltas, k, delta), start + deltas[0];
    var tail := Deadlines(deltas[1..], first);
    assert r[0] == deltas[0] && r[1..] == DeltasInserted(deltas[1..], k - 1, delta);
    assert Deadlines(r, start) == [first] + InsertAt(tail, k - 1, d);
    assert Deadlines(deltas, start) == [first] + tail;
    InsertAfterFirst(first, tail, k, d);
  }

  lemma InsertAfterFirst(first: int, tail: seq<int>, k: nat, d: int)
    requires 0 < k <= |tail| + 1
    ensures InsertAt([first] + tail, k, d) == [first] + InsertAt(tail, k - 1, d)
  {
  }

  lemma {:induction false} RemovalRefines(deltas: seq<int>, start: int, k: nat)
    requires k < |deltas|
    ensures Deadlines(DeltasRemoved(deltas, k), start) == RemoveAt(Deadlines(deltas, start), k)
  {
    var r := DeltasRemoved(deltas, k);
    if k > 0 {
      RemovalRefines(deltas[1..], start + deltas[0], k - 1);
      assert r[0] == deltas[0] && r[1..] == DeltasRemoved(deltas[1..], k - 1);
    } else if |deltas| > 1 {
      assert r[1..] == deltas[1..][1..];
    }
  }

  lemma InsertionKeepsSorted(deltas: seq<int>, d: int)
    requires Sorted(Deadlines(deltas, 0))
    ensures var (k, delta) := Search(deltas, d);
      var before, after := Deadlines(deltas, 0), Deadlines(DeltasInserted(deltas, k, delta), 0);
      k == Rank(before, d) && after == InsertAt(before, k, d) && Sorted(after)
  {
    SearchIsRank(deltas, 0, d);
    InsertionRefines(deltas, 0, d);
    RankKeepsSorted(Deadlines(deltas, 0), d);
  }

  lemma RankKeepsSorted(s: seq<int>, d: int)
    requires Sorted(s)
    ensures Sorted(InsertAt(s, Rank(s, d), d))
  {
  }

  // ---------- whole runs: the queue stands for a map from timers to absolute deadlines ----------

  ghost predicate Distinct<T>(s: seq<T>) {
    forall i, j :: 0 <= i < j < |s| ==> s[i] != s[j]
  }

  /** Timers in firing order, and their deadlines. */
  datatype Queue<T> = Queue(timers: seq<T>, deadlines: seq<int>)

  datatype Op<T> = Set(timer: T, deadline: int) | Cancel(timer: T) | Trigger(now: int)

  /** What the queue's methods do to the lists. */
  function Step<T(==)>(q: Queue<T>, op: Op<T>, slots: nat): Queue<T>
    requires |q.timers| == |q.deadlines|
    ensures |Step(q, op, slots).timers| == |Step(q, op, slots).deadlines|
  {
    match op
    case Set(t, d) =>
      if |q.timers| >= slots then q else
        var k := Rank(q.deadlines, d);
        Queue(InsertAt(q.timers, k, t), InsertAt(q.deadlines, k, d))
    case Cancel(t) =>
      var k := IndexOf(q.timers, t);
      if k == |q.timers| then q else Queue(RemoveAt(q.timers, k), RemoveAt(q.deadlines, k))
    case Trigger(now) =>
      if q.timers == [] || now <= q.deadlines[0] then q else Queue(RemoveAt(q.timers, 0), RemoveAt(q.deadlines, 0))
  }

  function Run<T(==)>(ops: seq<Op<T>>, slots: nat): (q: Queue<T>)
    ensures |q.timers| == |q.deadlines|
  {
    if ops == [] then Queue([], []) else Step(Run(ops[..|ops| - 1], slots), ops[|ops| - 1], slots)
  }

  /** A timer is only set while it is not in the queue. */
  ghost predicate Legal<T>(ops: seq<Op<T>>, slots: nat)
    decreases |ops|
  {
    ops == [] ||
    var n := |ops| - 1;
    Legal(ops[..n], slots) && (ops[n].Set? ==> ops[n].timer !in Run(ops[..n], slots).timers)
  }

  datatype Entry<T> = Entry(timer: T, deadline: int)

  /** The specification: a bounded bag of entries; triggering takes out an earliest one, if it is due. */
  ghost predicate BagStep<T>(m: multiset<Entry<T>>, op: Op<T>, m': multiset<Entry<T>>, slots: nat) {
    match op
    case Set(t, d) =>
      if |m| >= slots then m' == m else m' == m + multiset{Entry(t, d)}
    case Cancel(t) =>
      if exists e :: e in m && e.timer == t
      then exists e :: e in m && e.timer == t && m' == m - multiset{e}
      else m' == m
    case Trigger(now) =>
      if forall e :: e in m ==> now <= e.deadline then m' == m
      else exists e :: e in m && e.deadline < now && m' == m - multiset{e}
                       && forall f :: f in m ==> e.deadline <= f.deadline
  }

  ghost function Entries<T>(q: Queue<T>): (s: seq<Entry<T>>)
    requires |q.timers| == |q.deadlines|
    ensures |s| == |q.timers|
    ensures forall i :: 0 <= i < |s| ==> s[i] == Entry(q.timers[i], q.deadlines[i])
  {
    seq(|q.timers|, i requires 0 <= i < |q.timers| => Entry(q.timers[i], q.deadlines[i]))
  }

  /** q lists exactly the entries of m, each timer once, by increasing deadline. */
  ghost predicate Views<T>(q: Queue<T>, m: multiset<Entry<T>>) {
    match q
    case Queue(timers, deadlines) =>
      |timers| == |deadlines| && multiset(Entries(q)) == m && Distinct(timers) && Sorted(deadlines)
  }

  lemma BagOfInsertion<T>(s: seq<T>, k: nat, x: T)
    requires k <= |s|
    ensures multiset(InsertAt(s, k, x)) == multiset(s) + multiset{x}
  {
    assert s == s[..k] + s[k..];
  }

  lemma BagOfRemoval<T>(s: seq<T>, k: nat)
    requires k < |s|
    ensures multiset(RemoveAt(s, k)) == multiset(s) - multiset{s[k]}
  {
    assert s == s[..k] + [s[k]] + s[k + 1..];
  }

  lemma SetRefines<T>(q: Queue<T>, k: nat, t: T, d: int)
    requires |q.timers| == |q.deadlines| && k <= |q.timers|
    ensures Entries(Queue(InsertAt(q.timers, k, t), InsertAt(q.deadlines, k, d))) == InsertAt(Entries(q), k, Entry(t,
      d))
    ensures Distinct(q.timers) && t !in q.timers ==> Distinct(InsertAt(q.timers, k, t))
  {
  }

  lemma RemoveRefines<T>(q: Queue<T>, k: nat)
    requires |q.timers| == |q.deadlines| && k < |q.timers|
    ensures Entries(Queue(RemoveAt(q.timers, k), RemoveAt(q.deadlines, k))) == RemoveAt(Entries(q), k)
    ensures Distinct(q.timers) ==> Distinct(RemoveAt(q.timers, k))
    ensures Sorted(q.deadlines) ==> Sorted(RemoveAt(q.deadlines, k))
  {
  }

  lemma HasTimer<T>(q: Queue<T>, t: T)
    requires |q.timers| == |q.deadlines|
    ensures t in q.timers <==> exists e :: e in multiset(Entries(q)) && e.timer == t
  {
    var s := Entries(q);
    if t in q.timers {
      var i :| 0 <= i < |q.timers| && q.timers[i] == t;
      assert s[i] in s;
    }
    forall e | e in multiset(s)
      ensures e.timer in q.timers
    {
      var i :| 0 <= i < |s| && s[i] == e;
    }
  }

  /** Every operation of the queue is the specified operation on its bag of entries. */
  lemma StepRefines<T>(q: Queue<T>, op: Op<T>, slots: nat)
    requires |q.timers| == |q.deadlines| && Distinct(q.timers) && Sorted(q.deadlines)
    requires op.Set? ==> op.timer !in q.timers
    ensures var r := Step(q, op, slots);
      && BagStep(multiset(Entries(q)), op, multiset(Entries(r)), slots)
      && Distinct(r.timers) && Sorted(r.deadlines)
  {
    var s := Entries(q);
    match op
    case Set(t, d) =>
      if |q.timers| < slots {
        var k := Rank(q.deadlines, d);
        RankKeepsSorted(q.deadlines, d);
        SetRefines(q, k, t, d);
        BagOfInsertion(s, k, Entry(t, d));
      }
    case Cancel(t) =>
      HasTimer(q, t);
      var k := IndexOf(q.timers, t);
      if k < |q.timers| {
        RemoveRefines(q, k);
        BagOfRemoval(s, k);
        assert s[k] in multiset(s) && s[k].timer == t;
      }
    case Trigger(now) =>
      TriggerRefines(q, now, slots);
  }

  lemma FirstEarliest<T>(q: Queue<T>)
    requires |q.timers| == |q.deadlines| && Sorted(q.deadlines) && q.timers != []
    ensures Entries(q)[0] in multiset(Entries(q))
    ensures forall e :: e in multiset(Entries(q)) ==> q.deadlines[0] <= e.deadline
  {
    var s := Entries(q);
    forall e | e in multiset(s)
      ensures s[0].deadline <= e.deadline
    {
      var i :| 0 <= i < |s| && s[i] == e;
    }
  }

  lemma TriggerRefines<T>(q: Queue<T>, now: int, slots: nat)
    requires |q.timers| == |q.deadlines| && Distinct(q.timers) && Sorted(q.deadlines)
    ensures var r := Step(q, Trigger(now), slots);
      && BagStep(multiset(Entries(q)), Trigger(now), multiset(Entries(r)), slots)
      && Distinct(r.timers) && Sorted(r.deadlines)
  {
    if q.timers != [] {
      FirstEarliest(q);
      if q.deadlines[0] < now {
        RemoveRefines(q, 0);
        BagOfRemoval(Entries(q), 0);
      }
    }
  }

  /** bags are the contents before and after each operation. */
  ghost predicate BagRun<T>(bags: seq<multiset<Entry<T>>>, ops: seq<Op<T>>, slots: nat)
    decreases |ops|
  {
    && |bags| == |ops| + 1
    && if ops == [] then bags[0] == multiset{} else
         var n := |ops| - 1;
         BagRun(bags[..n + 1], ops[..n], slots) && BagStep(bags[n], ops[n], bags[n + 1], slots)
  }

  /** Over every sequence of operations the queue is a sorted view of the specified bag. */
  lemma {:induction false} RunRefines<T>(ops: seq<Op<T>>, slots: nat) returns (bags: seq<multiset<Entry<T>>>)
    requires Legal(ops, slots)
    ensures BagRun(bags, ops, slots) && Views(Run(ops, slots), bags[|ops|])
    decreases |ops|
  {
    if ops == [] {
      return [multiset{}];
    }
    var n := |ops| - 1;
    var before := RunRefines(ops[..n], slots);
    var m := RunStep(Run(ops[..n], slots), ops[n], slots, before[n]);
    bags := before + [m];
    assert bags[..n + 1] == before;
  }

  lemma RunStep<T>(q: Queue<T>, op: Op<T>, slots: nat, m: multiset<Entry<T>>) returns (m': multiset<Entry<T>>)
    requires Views(q, m) && (op.Set? ==> op.timer !in q.timers)
    ensures BagStep(m, op, m', slots) && Views(Step(q, op, slots), m')
  {
    StepRefines(q, op, slots);
    m' := multiset(Entries(Step(q, op, slots)));
  }

  /** Inserting into the deltas is setting a timer. */
  lemma SetStep<T>(timers: seq<T>, deltas: seq<int>, t: T, d: int, slots: nat) returns (k: nat, after: seq<int>)
    requires |timers| == |deltas| && Sorted(Deadlines(deltas, 0))
    ensures k == Search(deltas, d).0 && after == DeltasInserted(deltas, k, Search(deltas, d).1)
      && |after| == |timers| + 1
    ensures Sorted(Deadlines(after, 0))
    ensures Step(Queue(timers, Deadlines(deltas, 0)), Set(t, d), slots)
            == if |timers| >= slots
              then Queue(timers, Deadlines(deltas, 0)) else Queue(InsertAt(timers, k, t), Deadlines(after, 0))
  {
    InsertionKeepsSorted(deltas, d);
    k, after := Search(deltas, d).0, DeltasInserted(deltas, Search(deltas, d).0, Search(deltas, d).1);
  }

  /** Triggering is cancelling the first timer, if that is due; then it is the one due first. */
  lemma TriggerStep<T>(timers: seq<T>, deltas: seq<int>, now: int, slots: nat)
    requires |timers| == |deltas| && Sorted(Deadlines(deltas, 0))
    ensures var q := Queue(timers, Deadlines(deltas, 0));
      if timers == [] || now <= deltas[0] then Step(q, Trigger(now), slots) == q && forall d :: d in q.deadlines ==>
        now <= d
      else Step(q, Trigger(now), slots) == Step(q, Cancel(timers[0]), slots) && exists d :: d in q.deadlines && d < now
  {
    var q := Queue(timers, Deadlines(deltas, 0));
    if timers != [] {
      assert q.deadlines[0] == deltas[0] && q.deadlines[0] in q.deadlines;
    }
  }

  // ---------- the implementation ----------

  class Timer {
    var timeout: int
  }

  class TimeoutQueue {
    const slots: array<Timer?>
    ghost var timers: seq<Timer>
    ghost var deltas: seq<int>

    ghost predicate Valid()
      reads this, slots, timers
    {
      slots.Length > 0 && Consistent() && Sorted(Deadlines(deltas, 0))
    }

    /** The timers in firing order, and their absolute deadlines. */
    ghost function View(): Queue<Timer>
      reads this
    {
      Queue(timers, Deadlines(deltas, 0))
    }

    /** The timers come first, in firing order; unused slots hold null. */
    static ghost predicate Layout(s: seq<Timer?>, q: seq<Timer>) {
      && |q| <= |s|
      && (forall i :: 0 <= i < |q| ==> s[i] == q[i])
      && (forall i :: |q| <= i < |s| ==> s[i] == null)
    }

    constructor (maxTimeouts: nat)
      requires maxTimeouts > 0
      ensures Valid() && fresh(slots) && View() == Run([], maxTimeouts) && slots.Length == maxTimeouts
    {
      slots := new Timer?[maxTimeouts](_ => null);
      timers, deltas := [], [];
    }

    ghost predicate Consistent()
      reads this, slots, timers
    {
      && Layout(slots[..], timers)
      && Distinct(timers)
      && |deltas| == |timers|
      && forall i :: 0 <= i < |timers| ==> timers[i].timeout == deltas[i]
    }

    /** dfu_set_timeout, for a timer that is not in the queue. */
    method SetTimeout(to: Timer, now: int) returns (ret: int)
      requires Valid() && to !in timers
      modifies this, slots, to, timers
      ensures Valid()
      ensures ret == if |old(timers)| < slots.Length then 0 else -1
      ensures View() == Step(old(View()), Set(to, old(to.timeout) + now), slots.Length)
    {
      ghost var k, after := SetStep(timers, deltas, to, to.timeout + now, slots.Length);
      ret := InsertTimeout(to, now);
      assert ret == 0 ==> timers == InsertAt(old(timers), k, to) && deltas == after;
    }

    /** _insert_timeout */
    method InsertTimeout(to: Timer, now: int) returns (ret: int)
      requires Consistent() && to !in timers
      modifies this, slots, to, timers
      ensures Consistent()
      ensures ret == if |old(timers)| < slots.Length then 0 else -1
      ensures ret == 0 ==>
        var (k, rest) := old(Search(deltas, to.timeout + now));
        && timers == InsertAt(old(timers), k, to)
        && deltas == DeltasInserted(old(deltas), k, rest)
      ensures ret == -1 ==> timers == old(timers) && deltas == old(deltas)
    {
      ghost var k := Search(deltas, to.timeout + now).0;
      ghost var rest := Search(deltas, to.timeout + now).1;
      assert deltas[0..] == deltas;
      to.timeout := to.timeout + now;
      for i := 0 to slots.Length
        invariant timers == old(timers) && deltas == old(deltas)
        invariant Consistent()
        invariant i <= k && Search(deltas[i..], to.timeout) == (k - i, rest)
      {
        var ptr := slots[i];
        if ptr == null {
          Append(to, i);
          return 0;
        }
        if to.timeout > ptr.timeout {
          assert deltas[i..][1..] == deltas[i + 1..];
          to.timeout := to.timeout - ptr.timeout;
          continue;
        }
        if slots[slots.Length - 1] != null {
          return -1;
        }
        InsertBefore(to, i);
        return 0;
      }
      return -1;
    }

    method Append(to: Timer, i: nat)
      requires Consistent() && to !in timers
      requires i == |timers| < slots.Length
      modifies this, slots
      ensures Consistent()
      ensures timers == InsertAt(old(timers), i, to)
      ensures deltas == DeltasInserted(old(deltas), i, to.timeout)
    {
      slots[i] := to;
      deltas, timers := DeltasInserted(deltas, i, to.timeout), InsertAt(timers, i, to);
    }

    /** The tail of _insert_timeout: puts to into slot i, which is in use; a slot is free. */
    method InsertBefore(to: Timer, i: nat)
      requires Consistent() && to !in timers
      requires i < |timers| < slots.Length
      modifies this, slots, timers
      ensures Consistent()
      ensures timers == InsertAt(old(timers), i, to)
      ensures deltas == DeltasInserted(old(deltas), i, old(to.timeout))
    {
      ShiftRight(i);
      slots[i] := to;
      slots[i + 1].timeout := slots[i + 1].timeout - to.timeout;
      deltas, timers := DeltasInserted(deltas, i, to.timeout), InsertAt(timers, i, to);
    }

    /** Makes slot i available; what it holds afterwards does not matter. */
    method ShiftRight(i: nat)
      requires i < slots.Length
      modifies slots
      ensures forall k :: 0 <= k <= i ==> slots[k] == old(slots[k])
      ensures forall k :: i < k < slots.Length ==> slots[k] == old(slots[k - 1])
    {
      var j := slots.Length - 1;
      while j > i
        invariant i <= j < slots.Length
        invariant forall k :: 0 <= k <= j ==> slots[k] == old(slots[k])
        invariant forall k :: j < k < slots.Length ==> slots[k] == old(slots[k - 1])
      {
        slots[j] := slots[j - 1];
        j := j - 1;
      }
    }

    /** dfu_cancel_timeout */
    method CancelTimeout(to: Timer) returns (ret: int)
      requires Valid()
      modifies this, slots, timers
      ensures Valid()
      ensures ret == if to in old(timers) then 0 else -1
      ensures View() == Step(old(View()), Cancel(to), slots.Length)
    {
      ghost var k := IndexOf(timers, to);
      if k < |timers| {
        RemovalRefines(deltas, 0, k);
      }
      ret := RemoveTimeout(to);
    }

    /** The part of dfu_idle that triggers a timeout: at most one timer per call, one that is due first. */
    method Trigger(now: int) returns (fired: Timer?)
      requires Valid()
      modifies this, slots, timers
      ensures Valid()
      ensures View() == Step(old(View()), Op.Trigger(now), slots.Length)
      ensures fired == null <==> forall d :: d in old(Deadlines(deltas, 0)) ==> now <= d
      ensures fired != null ==> fired == old(timers)[0]
    {
      TriggerStep(timers, deltas, now, slots.Length);
      fired := slots[0];
      if fired != null && now > fired.timeout {
        var ret := CancelTimeout(fired);
      } else {
        fired := null;
      }
    }

    /** _remove_timeout */
    method RemoveTimeout(to: Timer) returns (ret: int)
      requires slots.Length > 0 && Consistent()
      modifies this, slots, timers
      ensures Consistent()
      ensures ret == if to in old(timers) then 0 else -1
      ensures ret == 0 ==>
        var k := IndexOf(old(timers), to);
        && timers == RemoveAt(old(timers), k)
        && deltas == DeltasRemoved(old(deltas), k)
      ensures ret == -1 ==> timers == old(timers) && deltas == old(deltas)
    {
      var i := SlotOf(to);
      if i == slots.Length {
        return -1;
      }
      RemoveSlot(i);
      return 0;
    }

    /** The tail of _remove_timeout: empties slot i, which is in use. */
    method RemoveSlot(i: nat)
      requires Consistent() && i < |timers|
      modifies this, slots, timers
      ensures Consistent()
      ensures timers == RemoveAt(old(timers), i)
      ensures deltas == DeltasRemoved(old(deltas), i)
    {
      if i < slots.Length - 1 && slots[i + 1] != null {
        slots[i + 1].timeout := slots[i + 1].timeout + slots[i].timeout;
      }
      ShiftLeft(i);
      deltas, timers := DeltasRemoved(deltas, i), RemoveAt(timers, i);
    }

    method SlotOf(to: Timer) returns (i: nat)
      requires Consistent()
      ensures i == if to in timers then IndexOf(timers, to) else slots.Length
    {
      i := 0;
      while i < slots.Length && slots[i] != to
        invariant i <= slots.Length
        invariant forall k :: 0 <= k < i ==> slots[k] != to
      {
        i := i + 1;
      }
    }

    /** Closes the gap at slot i and clears the last slot. */
    method ShiftLeft(i: nat)
      requires i < slots.Length
      modifies slots
      ensures forall k :: 0 <= k < i ==> slots[k] == old(slots[k])
      ensures forall k :: i <= k < slots.Length - 1 ==> slots[k] == old(slots[k + 1])
      ensures slots[slots.Length - 1] == null
    {
      var j := i;
      while j < slots.Length - 1
        invariant i <= j < slots.Length
        invariant forall m :: 0 <= m < i ==> slots[m] == old(slots[m])
        invariant forall m :: i <= m < j ==> slots[m] == old(slots[m + 1])
        invariant forall m :: j <= m < slots.Length ==> slots[m] == old(slots[m])
      {
        slots[j] := slots[j + 1];
        j := j + 1;
      }
      slots[j] := null;
    }
  }
}
