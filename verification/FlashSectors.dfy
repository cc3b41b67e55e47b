/** The sector lists of src/file-container-esp8266.c: circular doubly linked lists, one of the free sectors
    and one for each file slot, over one pool of sectors. */
module FlashSectors {
  import opened Basics
  import opened Ring

  /** struct spi_flash_sector; the links are null before the first init. */
  class Sector {
    var prev: Sector?
    var next: Sector?

    twostate predicate Same()
      reads this
    {
      next == old(next) && prev == old(prev)
    }

    constructor ()
      ensures prev == null && next == null
    {
      prev, next := null, null;
    }
  }

  // ---------- the lists, as sequences of node numbers ----------

  /** Every list is a ring that starts with its head: list a with node a. List 0 holds the free sectors. The
      nodes from h on are sectors, of which the first n are in the lists. */
  ghost predicate Partition(rings: seq<seq<nat>>, owner: seq<nat>, h: nat, n: nat) {
    && |rings| == h > 0 && |owner| == h + n && Total(rings) == h + n
    && (forall a :: 0 <= a < h ==> |rings[a]| > 0 && rings[a][0] == a)
    && (forall a, i :: 0 <= a < h && 1 <= i < |rings[a]| ==> h <= rings[a][i])
    && (forall a, i :: 0 <= a < h && 0 <= i < |rings[a]| ==> rings[a][i] < h + n && owner[rings[a][i]] == a)
    && (forall a, i, j :: 0 <= a < h && 0 <= i < j < |rings[a]| ==> rings[a][i] != rings[a][j])
    && (forall k :: 0 <= k < h + n ==> Covered(rings, owner, k))
  }

  /** Node k is in the list of its owner. */
  ghost predicate Covered(rings: seq<seq<nat>>, owner: seq<nat>, k: nat) {
    k < |owner| && owner[k] < |rings| && k in rings[owner[k]]
  }

  function Total(rings: seq<seq<nat>>): nat {
    if rings == [] then 0 else Total(rings[..|rings| - 1]) + |rings[|rings| - 1]|
  }

  lemma {:induction false} TotalUpdate(rings: seq<seq<nat>>, a: nat, r: seq<nat>)
    requires a < |rings|
    ensures Total(rings[a := r]) == Total(rings) - |rings[a]| + |r|
    decreases |rings|
  {
    var n := |rings| - 1;
    if a < n {
      TotalUpdate(rings[..n], a, r);
      assert rings[a := r][..n] == rings[..n][a := r];
    } else {
      assert rings[a := r][..n] == rings[..n];
    }
  }

  /** A list without its first sector. */
  function Dropped(r: seq<nat>): seq<nat>
    requires |r| >= 2
  {
    [r[0]] + r[2..]
  }

  /** A list with a sector added behind its head. */
  function Added(r: seq<nat>, k: nat): seq<nat>
    requires |r| >= 1
  {
    [r[0], k] + r[1..]
  }

  /** The first sector of list a goes to the front of list b. */
  function Moved(rings: seq<seq<nat>>, a: nat, b: nat): seq<seq<nat>>
    requires a < |rings| && b < |rings| && |rings[a]| >= 2 && |rings[b]| >= 1
  {
    rings[a := Dropped(rings[a])][b := Added(rings[b], rings[a][1])]
  }

  lemma DroppedAt(r: seq<nat>, i: nat)
    requires |r| >= 2 && i < |r| - 1
    ensures Dropped(r)[i] == if i == 0 then r[0] else r[i + 1]
  {
  }

  lemma AddedAt(r: seq<nat>, k: nat, i: nat)
    requires |r| >= 1 && i < |r| + 1
    ensures Added(r, k)[i] == if i == 0 then r[0] else if i == 1 then k else r[i - 1]
  {
  }

  /** Moving a sector keeps the partition. */
  lemma MovedKeeps(rings: seq<seq<nat>>, owner: seq<nat>, h: nat, n: nat, a: nat, b: nat)
    requires Partition(rings, owner, h, n) && a < h && b < h && a != b && |rings[a]| >= 2
    ensures Partition(Moved(rings, a, b), owner[rings[a][1] := b], h, n)
  {
    var s, r := rings[a][1], Moved(rings, a, b);
    TotalUpdate(rings, a, Dropped(rings[a]));
    TotalUpdate(rings[a := Dropped(rings[a])], b, Added(rings[b], s));
    MovedInside(rings, owner, h, n, a, b);
    MovedCovers(rings, owner, h, n, a, b);
  }

  lemma MovedInside(rings: seq<seq<nat>>, owner: seq<nat>, h: nat, n: nat, a: nat, b: nat)
    requires Partition(rings, owner, h, n) && a < h && b < h && a != b && |rings[a]| >= 2
    ensures var r, o := Moved(rings, a, b), owner[rings[a][1] := b];
      && (forall c :: 0 <= c < h ==> |r[c]| > 0 && r[c][0] == c)
      && (forall c, i :: 0 <= c < h && 1 <= i < |r[c]| ==> h <= r[c][i])
      && (forall c, i :: 0 <= c < h && 0 <= i < |r[c]| ==> r[c][i] < h + n && o[r[c][i]] == c)
      && (forall c, i, j :: 0 <= c < h && 0 <= i < j < |r[c]| ==> r[c][i] != r[c][j])
  {
    var r := Moved(rings, a, b);
    forall i | 0 <= i < |r[a]|
      ensures r[a][i] == if i == 0 then rings[a][0] else rings[a][i + 1]
    {
      DroppedAt(rings[a], i);
    }
    forall i | 0 <= i < |r[b]|
      ensures r[b][i] == if i == 0 then rings[b][0] else if i == 1 then rings[a][1] else rings[b][i - 1]
    {
      AddedAt(rings[b], rings[a][1], i);
    }
  }

  lemma MovedCovers(rings: seq<seq<nat>>, owner: seq<nat>, h: nat, n: nat, a: nat, b: nat)
    requires Partition(rings, owner, h, n) && a < h && b < h && a != b && |rings[a]| >= 2
    ensures var r, o := Moved(rings, a, b), owner[rings[a][1] := b];
      forall k :: 0 <= k < h + n ==> Covered(r, o, k)
  {
    var s, r := rings[a][1], Moved(rings, a, b);
    var o := owner[s := b];
    forall k | 0 <= k < h + n
      ensures Covered(r, o, k)
    {
      var c := owner[k];
      assert Covered(rings, owner, k);
      var i :| 0 <= i < |rings[c]| && rings[c][i] == k;
      if k == s {
        assert r[b][1] == s;
      } else if c == a {
        assert i != 1;
        DroppedAt(rings[a], if i == 0 then 0 else i - 1);
      } else if c == b {
        AddedAt(rings[b], s, if i == 0 then 0 else i + 1);
      }
    }
  }

  /** The first m sectors of list a go to the front of list b, one by one. */
  function MovedMany(rings: seq<seq<nat>>, a: nat, b: nat, m: nat): (r: seq<seq<nat>>)
    requires a < |rings| && b < |rings| && a != b && m < |rings[a]| && |rings[b]| >= 1
    ensures |r| == |rings| && |r[a]| == |rings[a]| - m && |r[b]| == |rings[b]| + m
    ensures forall c :: 0 <= c < |rings| && c != a && c != b ==> r[c] == rings[c]
  {
    if m == 0 then rings else Moved(MovedMany(rings, a, b, m - 1), a, b)
  }

  /** They leave list a in order, come to stand in list b in the opposite order, and no other list changes. */
  lemma {:induction false} MovedManyAt(rings: seq<seq<nat>>, a: nat, b: nat, m: nat, c: nat, i: nat)
    requires a < |rings| && b < |rings| && a != b && m < |rings[a]| && |rings[b]| >= 1
    requires c < |rings| && i < |MovedMany(rings, a, b, m)[c]|
    ensures MovedMany(rings, a, b, m)[c][i] ==
            if c == a then (if i == 0 then rings[a][0] else rings[a][i + m])
            else if c == b then
              (if i == 0 then rings[b][0] else if i <= m then rings[a][m + 1 - i] else rings[b][i - m])
            else rings[c][i]
    decreases m
  {
    if m > 0 {
      var p := MovedMany(rings, a, b, m - 1);
      MovedManyAt(rings, a, b, m - 1, a, 1);
      if c == a {
        DroppedAt(p[a], i);
        MovedManyAt(rings, a, b, m - 1, a, if i == 0 then 0 else i + 1);
      } else if c == b {
        AddedAt(p[b], p[a][1], i);
        MovedManyAt(rings, a, b, m - 1, b, if i == 0 then 0 else i - 1);
      } else {
        MovedManyAt(rings, a, b, m - 1, c, i);
      }
    }
  }

  // ---------- the lists after init ----------

  /** Only heads. */
  function Heads(h: nat): (r: seq<seq<nat>>) {
    seq(h, a => [a])
  }

  lemma {:induction false} HeadsTotal(h: nat)
    ensures Total(Heads(h)) == h
  {
    if h > 0 {
      HeadsTotal(h - 1);
      assert Heads(h)[..h - 1] == Heads(h - 1);
    }
  }

  /** The free list after its first n sectors were added. */
  function InitRings(h: nat, n: nat): (r: seq<seq<nat>>)
    requires h > 0
    ensures |r| == h && |r[0]| == n + 1
  {
    if n == 0 then Heads(h) else InitRings(h, n - 1)[0 := Added(InitRings(h, n - 1)[0], h + (n - 1))]
  }

  /** The free list holds all sectors, the last one first, and no file has any. */
  lemma {:induction false} InitRingsAt(h: nat, n: nat, a: nat, i: nat)
    requires a < h && i < |InitRings(h, n)[a]|
    ensures InitRings(h, n)[a][i] == if a > 0 then a else if i == 0 then 0 else h + (n - i)
    ensures a > 0 ==> |InitRings(h, n)[a]| == 1
    decreases n
  {
    if n > 0 {
      if a == 0 {
        AddedAt(InitRings(h, n - 1)[0], h + (n - 1), i);
        InitRingsAt(h, n - 1, 0, if i == 0 then 0 else i - 1);
      } else {
        InitRingsAt(h, n - 1, a, i);
      }
    }
  }

  lemma HeadsPartition(h: nat)
    requires h > 0
    ensures Partition(Heads(h), seq(h, a => a), h, 0)
  {
    var rings, owner := Heads(h), seq(h, a => a);
    HeadsTotal(h);
    forall k | 0 <= k < h
      ensures Covered(rings, owner, k)
    {
      assert rings[k][0] == k;
    }
  }

  /** Adding the next sector to the free list. */
  lemma GrownKeeps(rings: seq<seq<nat>>, owner: seq<nat>, h: nat, n: nat)
    requires Partition(rings, owner, h, n)
    ensures Partition(rings[0 := Added(rings[0], h + n)], owner + [0], h, n + 1)
  {
    var r, o := rings[0 := Added(rings[0], h + n)], owner + [0];
    TotalUpdate(rings, 0, Added(rings[0], h + n));
    forall i | 0 <= i < |r[0]|
      ensures r[0][i] == if i == 0 then 0 else if i == 1 then h + n else rings[0][i - 1]
    {
      AddedAt(rings[0], h + n, i);
    }
    forall k | 0 <= k < h + n + 1
      ensures Covered(r, o, k)
    {
      if k == h + n {
        assert r[0][1] == k;
      } else if Covered(rings, owner, k) && owner[k] == 0 {
        var i :| 0 <= i < |rings[0]| && rings[0][i] == k;
        assert r[0][if i == 0 then 0 else i + 1] == k;
      }
    }
  }

  /** All that the partition says about counts: the sectors in the lists are n in number. */
  lemma SectorsCounted(rings: seq<seq<nat>>, owner: seq<nat>, h: nat, n: nat)
    requires Partition(rings, owner, h, n)
    ensures Sectors(rings) == n
  {
    TotalIsSectors(rings);
  }

  /** The number of sectors in all lists, heads not counted. */
  function Sectors(rings: seq<seq<nat>>): int {
    if rings == [] then 0 else Sectors(rings[..|rings| - 1]) + |rings[|rings| - 1]| - 1
  }

  lemma {:induction false} TotalIsSectors(rings: seq<seq<nat>>)
    ensures Total(rings) == Sectors(rings) + |rings|
    decreases |rings|
  {
    if rings != [] {
      TotalIsSectors(rings[..|rings| - 1]);
    }
  }

  /** In a partition every sector is in exactly one place. */
  lemma ExactlyOnePlace(rings: seq<seq<nat>>, owner: seq<nat>, h: nat, n: nat, k: nat)
    requires Partition(rings, owner, h, n) && h <= k < h + n
    ensures exists a, i :: 0 <= a < h && 1 <= i < |rings[a]| && rings[a][i] == k
    ensures forall a, i, b, j ::
              (0 <= a < h && 0 <= i < |rings[a]| && 0 <= b < h && 0 <= j < |rings[b]|
                && rings[a][i] == k == rings[b][j])
              ==> a == b && i == j
  {
    var a := owner[k];
    assert Covered(rings, owner, k);
    var i :| 0 <= i < |rings[a]| && rings[a][i] == k;
    assert i != 0;
  }

  // ---------- the lists, as linked nodes ----------

  function Succ(r: seq<nat>, i: nat): nat
    requires i < |r|
  {
    if i + 1 < |r| then r[i + 1] else r[0]
  }

  ghost predicate NoRepeat(r: seq<nat>) {
    forall i, j :: 0 <= i < j < |r| ==> r[i] != r[j]
  }

  ghost predicate Off(r: seq<nat>, x: nat) {
    forall i :: 0 <= i < |r| ==> r[i] != x
  }

  ghost predicate Owned(rings: seq<seq<nat>>, owner: seq<nat>) {
    forall c :: 0 <= c < |rings| ==> OwnedBy(rings[c], owner, c)
  }

  /** Every node is in one list at most, and there once. */
  ghost predicate Apart(rings: seq<seq<nat>>, owner: seq<nat>) {
    Owned(rings, owner) && forall c :: 0 <= c < |rings| ==> NoRepeat(rings[c])
  }

  ghost predicate OwnedBy(r: seq<nat>, owner: seq<nat>, c: nat) {
    forall i :: 0 <= i < |r| ==> r[i] < |owner| && owner[r[i]] == c
  }

  lemma PartitionApart(rings: seq<seq<nat>>, owner: seq<nat>, h: nat, n: nat)
    requires Partition(rings, owner, h, n)
    ensures Apart(rings, owner)
  {
  }

  /** sector_add */
  method SectorAdd(prev: Sector, sector: Sector)
    requires prev.next != null && sector != prev && sector != prev.next
    modifies prev, sector, prev.next
    ensures prev.next == sector && sector.prev == prev && sector.next == old(prev.next)
    ensures old(prev.next).prev == sector
    ensures old(prev.next) != prev ==> old(prev.next).next == old(prev.next.next) && prev.prev == old(prev.prev)
  {
    var next := prev.next;
    sector.prev := prev;
    sector.next := prev.next;
    prev.next := sector;
    next.prev := sector;
  }

  /** sector_del */
  method SectorDel(sector: Sector)
    requires sector.next != null && sector.prev != null
    modifies sector.prev, sector.next
    ensures old(sector.prev).next == old(sector.next) && old(sector.next).prev == old(sector.prev)
    ensures old(sector.prev) != old(sector.next) ==>
      old(sector.prev).prev == old(sector.prev.prev) && old(sector.next).next == old(sector.next.next)
  {
    var next := sector.next;
    var prev := sector.prev;
    prev.next := next;
    next.prev := prev;
  }

  class SectorTable {
    /** The list heads, the free list first, and behind them the sectors. */
    const nodes: seq<Sector>
    const h: nat
    ghost const all: set<Sector>

    ghost predicate Distinct() {
      && 0 < h <= |nodes|
      && (forall i :: 0 <= i < |nodes| ==> nodes[i] in all)
      && (forall i, j :: 0 <= i < j < |nodes| ==> nodes[i] != nodes[j])
    }

    /** The links of the nodes follow the list, and back. */
    ghost predicate Linked(r: seq<nat>)
      reads all
    {
      forall i {:trigger Succ(r, i)} :: 0 <= i < |r| ==>
        && r[i] < |nodes| && Succ(r, i) < |nodes| && nodes[r[i]] in all && nodes[Succ(r, i)] in all
        && nodes[r[i]].next == nodes[Succ(r, i)] && nodes[Succ(r, i)].prev == nodes[r[i]]
    }

    ghost predicate AllLinked(rings: seq<seq<nat>>)
      reads all
    {
      forall c :: 0 <= c < |rings| ==> Linked(rings[c])
    }

    /** Puts a node that is not in the list r behind its head. */
    method LinkFirst(ghost r: seq<nat>, head: Sector, sector: Sector, ghost k: nat)
      requires Distinct() && Linked(r) && NoRepeat(r) && r != [] && r[0] < |nodes| && head == nodes[r[0]]
      requires k < |nodes| && sector == nodes[k] && Off(r, k)
      modifies all
      ensures Linked(Added(r, k))
      ensures forall x :: 0 <= x < |nodes| && x != r[0] && x != k && x != Succ(r, 0) ==> nodes[x].Same()
    {
      assert head.next == nodes[Succ(r, 0)];
      SectorAdd(head, sector);
      ghost var r' := Added(r, k);
      forall i | 0 <= i < |r'|
        ensures r'[i] < |nodes| && Succ(r', i) < |nodes|
        ensures nodes[r'[i]].next == nodes[Succ(r', i)] && nodes[Succ(r', i)].prev == nodes[r'[i]]
      {
        AddedAt(r, k, i);
        if i >= 2 {
          assert r'[i] == r[i - 1] && Succ(r', i) == Succ(r, i - 1);
        }
      }
    }

    /** Takes the first sector out of the list r. */
    method UnlinkFirst(ghost r: seq<nat>, head: Sector) returns (sector: Sector)
      requires Distinct() && Linked(r) && NoRepeat(r) && |r| >= 2 && r[0] < |nodes| && r[1] < |nodes|
        && head == nodes[r[0]]
      modifies all
      ensures Linked(Dropped(r)) && sector == nodes[r[1]]
      ensures forall x :: 0 <= x < |nodes| && x != r[0] && x != Succ(r, 1) ==> nodes[x].Same()
    {
      assert head.next == nodes[Succ(r, 0)];
      sector := head.next;
      assert sector.next == nodes[Succ(r, 1)] && sector.prev == head;
      SectorDel(sector);
      ghost var r' := Dropped(r);
      forall i | 0 <= i < |r'|
        ensures r'[i] < |nodes| && Succ(r', i) < |nodes|
        ensures nodes[r'[i]].next == nodes[Succ(r', i)] && nodes[Succ(r', i)].prev == nodes[r'[i]]
      {
        DroppedAt(r, i);
        if i >= 1 {
          assert r'[i] == r[i + 1] && Succ(r', i) == Succ(r, i + 1);
        } else {
          assert Succ(r', 0) == Succ(r, 1);
        }
      }
    }

    /** These nodes are in list a or in none. */
    ghost predicate At(os: seq<nat>, lists: nat, a: nat, x: nat, y: nat, k: nat) {
      && (x < |os| ==> os[x] == a || os[x] >= lists)
      && (y < |os| ==> os[y] == a || os[y] >= lists)
      && (k < |os| ==> os[k] == a || os[k] >= lists)
    }

    /** No node but these changed. */
    twostate predicate OnlyThese(x: nat, y: nat, k: nat)
      reads nodes
    {
      forall z :: 0 <= z < |nodes| && z != x && z != y && z != k ==> nodes[z].Same()
    }

    /** The lists but a, all of whose nodes have another owner than those that changed, stay linked. */
    twostate lemma OthersLinked(new rs: seq<seq<nat>>, new os: seq<nat>, new a: nat, new x: nat, new y: nat, new k: nat)
      requires old(AllLinked(rs)) && Owned(rs, os) && |os| <= |nodes| && a < |rs|
      requires At(os, |rs|, a, x, y, k)
      requires Distinct() && OnlyThese(x, y, k)
      ensures forall c :: 0 <= c < |rs| && c != a ==> Linked(rs[c])
    {
      forall c, i | 0 <= c < |rs| && c != a && 0 <= i < |rs[c]|
        ensures rs[c][i] < |nodes| && nodes[rs[c][i]].Same()
      {
        assert OwnedBy(rs[c], os, c);
      }
      forall c | 0 <= c < |rs| && c != a
        ensures Linked(rs[c])
      {
        var r := rs[c];
        assert old(Linked(r));
        forall i | 0 <= i < |r|
          ensures Succ(r, i) < |nodes| && nodes[Succ(r, i)] in all
          ensures nodes[r[i]].next == nodes[Succ(r, i)] && nodes[Succ(r, i)].prev == nodes[r[i]]
        {
          assert old(nodes[r[i]].next) == nodes[Succ(r, i)];
        }
      }
    }

    /** Takes the first sector out of list a. */
    method TakeFirst(a: nat, ghost rs: seq<seq<nat>>, ghost os: seq<nat>) returns (sector: Sector)
      requires Distinct() && Apart(rs, os) && |os| <= |nodes| && AllLinked(rs)
      requires a < |rs| <= |nodes| && |rs[a]| >= 2 && rs[a][0] == a
      modifies all
      ensures sector == nodes[rs[a][1]] && AllLinked(rs[a := Dropped(rs[a])])
    {
      sector := UnlinkFirst(rs[a], nodes[a]);
      OthersLinked(rs, os, a, rs[a][0], Succ(rs[a], 1), rs[a][0]);
    }

    /** Puts a node that is in no list to the front of list b. */
    method PutFirst(b: nat, sector: Sector, ghost k: nat, ghost rs: seq<seq<nat>>, ghost os: seq<nat>)
      requires Distinct() && Apart(rs, os) && |os| <= |nodes| && AllLinked(rs)
      requires b < |rs| <= |nodes| && |rs[b]| >= 1 && rs[b][0] == b
      requires k < |nodes| && sector == nodes[k] && (k < |os| ==> os[k] >= |rs|)
      modifies all
      ensures AllLinked(rs[b := Added(rs[b], k)])
    {
      LinkFirst(rs[b], nodes[b], sector, k);
      OthersLinked(rs, os, b, rs[b][0], Succ(rs[b], 0), k);
    }

    ghost var rings: seq<seq<nat>>
    ghost var owner: seq<nat>

    /** The lists hold the first n sectors, each in one place, and the links follow the lists. */
    ghost predicate Valid(n: nat)
      reads this, all
    {
      Distinct() && h + n <= |nodes| && Partition(rings, owner, h, n) && AllLinked(rings)
    }

    /** The links of a move: sector_del and sector_add. */
    method Relink(a: nat, b: nat, ghost rs: seq<seq<nat>>, ghost os: seq<nat>)
      requires Distinct() && Apart(rs, os) && |os| <= |nodes| && AllLinked(rs)
      requires a < |rs| <= |nodes| && |rs[a]| >= 2 && rs[a][0] == a
      requires b < |rs| && |rs[b]| >= 1 && rs[b][0] == b && a != b
      modifies all
      ensures AllLinked(Moved(rs, a, b))
    {
      ghost var k := rs[a][1];
      var sector := TakeFirst(a, rs, os);
      DroppedApart(rs, os, a);
      PutFirst(b, sector, k, rs[a := Dropped(rs[a])], os[k := |rs|]);
    }

    /** Moves the first sector of list a to the front of list b. */
    method MoveFirst(a: nat, b: nat, ghost n: nat)
      requires Valid(n) && a < h && b < h && a != b && |rings[a]| >= 2
      modifies all, `rings, `owner
      ensures Valid(n) && rings == Moved(old(rings), a, b)
    {
      PartitionApart(rings, owner, h, n);
      MovedKeeps(rings, owner, h, n, a, b);
      Relink(a, b, rings, owner);
      rings, owner := Moved(rings, a, b), owner[rings[a][1] := b];
    }

    /** sector_list_init */
    method ListInit(head: Sector)
      modifies head
      ensures head.next == head && head.prev == head
    {
      head.next := head;
      head.prev := head;
    }

    /** sectors_list_count */
    method ListCount(a: nat, ghost n: nat) returns (count: nat)
      requires Valid(n) && a < h
      ensures count == |rings[a]| - 1
    {
      ghost var r := rings[a];
      assert nodes[a].next == nodes[Succ(r, 0)];
      var s := nodes[a].next;
      count := 0;
      while s != nodes[a]
        invariant count < |r| && s == nodes[Succ(r, count)]
        decreases |r| - count
      {
        assert nodes[Succ(r, count)].next == nodes[Succ(r, count + 1)];
        s := s.next;
        count := count + 1;
      }
    }

    /** The loop of spi_flash_fc_init over the files, and the free list. */
    method InitHeads()
      requires Distinct()
      modifies all, `rings, `owner
      ensures Valid(0) && rings == Heads(h)
    {
      var i := 0;
      while i < h
        invariant 0 <= i <= h
        invariant forall a :: 0 <= a < i ==> nodes[a].next == nodes[a] && nodes[a].prev == nodes[a]
      {
        ListInit(nodes[i]);
        i := i + 1;
      }
      rings, owner := Heads(h), seq(h, a => a);
      HeadsPartition(h);
      assert forall a :: 0 <= a < h ==> Linked([a]);
    }

    /** sector_add of the next sector to the free list. */
    method AddFree(k: nat)
      requires Valid(k) && h + k < |nodes|
      modifies all, `rings, `owner
      ensures Valid(k + 1) && rings == old(rings)[0 := Added(old(rings)[0], h + k)]
    {
      AddNode(k);
      GrownKeeps(rings, owner, h, k);
      rings, owner := rings[0 := Added(rings[0], h + k)], owner + [0];
    }

    /** The links of it. */
    method AddNode(k: nat)
      requires Valid(k) && h + k < |nodes|
      modifies all
      ensures AllLinked(rings[0 := Added(rings[0], h + k)])
    {
      PartitionApart(rings, owner, h, k);
      PutFirst(0, nodes[h + k], h + k, rings, owner);
    }

    /** spi_flash_fc_init, whatever the links were before. */
    method Init()
      requires Distinct()
      modifies all, `rings, `owner
      ensures Valid(|nodes| - h) && rings == InitRings(h, |nodes| - h)
    {
      InitHeads();
      var i := 0;
      while i < |nodes| - h
        invariant 0 <= i <= |nodes| - h
        invariant Valid(i) && rings == InitRings(h, i)
      {
        AddFree(i);
        i := i + 1;
      }
    }

    /** spi_flash_fc_fini: the sectors' links are cleared and the lists built anew. */
    method Fini()
      requires Distinct()
      modifies all, `rings, `owner
      ensures Valid(|nodes| - h) && rings == InitRings(h, |nodes| - h)
    {
      var i := h;
      while i < |nodes|
        invariant h <= i <= |nodes|
      {
        nodes[i].prev, nodes[i].next := null, null;
        i := i + 1;
      }
      Init();
    }

    /** Moves m sectors, one by one. */
    method MoveSectors(a: nat, b: nat, m: nat, ghost n: nat)
      requires Valid(n) && a < h && b < h && a != b && m < |rings[a]|
      modifies all, `rings, `owner
      ensures Valid(n) && rings == MovedMany(old(rings), a, b, m)
    {
      var i := 0;
      while i < m
        invariant 0 <= i <= m
        invariant Valid(n) && rings == MovedMany(old(rings), a, b, i)
      {
        MoveFirst(a, b, n);
        i := i + 1;
      }
    }

    /** Starting the list of an unused file slot again changes nothing. */
    method ListInitEmpty(b: nat, ghost n: nat)
      requires Valid(n) && b < h && |rings[b]| == 1
      modifies all
      ensures Valid(n)
    {
      PartitionApart(rings, owner, h, n);
      assert Succ(rings[b], 0) == b;
      ListInit(nodes[b]);
      OthersLinked(rings, owner, b, b, b, b);
      assert Linked(rings[b]);
    }

    /** _get_sectors: takes num sectors from the free list for the unused slot b, all or none. */
    method GetSectors(num: nat, b: nat, ghost n: nat) returns (ok: bool)
      requires Valid(n) && 0 < b < h && |rings[b]| == 1
      modifies all, `rings, `owner
      ensures Valid(n) && ok == (num < |old(rings)[0]|)
      ensures rings == if ok then MovedMany(old(rings), 0, b, num) else old(rings)
    {
      ListInitEmpty(b, n);
      var count := ListCount(0, n);
      if count < num {
        return false;
      }
      MoveSectors(0, b, num, n);
      ok := true;
    }

    /** sectors_list_empty */
    method ListEmpty(a: nat, ghost n: nat) returns (empty: bool)
      requires Valid(n) && a < h
      ensures empty <==> |rings[a]| == 1
    {
      ghost var r := rings[a];
      assert nodes[a].next == nodes[Succ(r, 0)] && nodes[Succ(r, |r| - 1)].prev == nodes[r[|r| - 1]];
      empty := nodes[a].next == nodes[a] && nodes[a].prev == nodes[a];
    }

    /** _get_file_data: the first slot without sectors. */
    method GetFileData(ghost n: nat) returns (slot: Option<nat>)
      requires Valid(n)
      ensures slot.Some? ==> 0 < slot.value < h && FirstUnused(rings, slot.value)
      ensures slot.None? ==> forall a :: 1 <= a < h ==> |rings[a]| != 1
    {
      var i := 1;
      while i < h
        invariant 1 <= i <= h && forall a :: 1 <= a < i ==> |rings[a]| != 1
      {
        var count := ListCount(i, n);
        if count == 0 {
          return Some(i);
        }
        i := i + 1;
      }
      slot := None;
    }

    /** _new_file: the first unused slot with sectors for max_size bytes; without a slot, or without enough
        sectors, nothing changes. */
    method NewFile(maxSize: nat, dataSize: nat, ghost n: nat) returns (slot: Option<nat>)
      requires Valid(n) && dataSize > 0
      modifies all, `rings, `owner
      ensures Valid(n)
      ensures var before, num := old(rings), SectorsFor(maxSize, dataSize);
        && (slot.Some? <==> (exists a :: 1 <= a < h && |before[a]| == 1) && num < |before[0]|)
        && Created(before, num, slot, rings)
    {
      slot := GetFileData(n);
      if slot.None? {
        return;
      }
      var ok := GetSectors(SectorsFor(maxSize, dataSize), slot.value, n);
      if !ok {
        return None;
      }
    }

    /** spi_flash_fc_remove, for the slot b that was found: all its sectors become free. */
    method Remove(b: nat, ghost n: nat)
      requires Valid(n) && 0 < b < h
      modifies all, `rings, `owner
      ensures Valid(n) && rings == MovedMany(old(rings), b, 0, |old(rings)[b]| - 1)
    {
      ghost var m: nat, last: nat, before := 0, |rings[b]| - 1, rings;
      var empty := ListEmpty(b, n);
      while !empty
        invariant m <= last && Valid(n) && rings == MovedMany(before, b, 0, m)
        invariant empty <==> m == last
        decreases last - m
      {
        MoveFirst(b, 0, n);
        m := m + 1;
        empty := ListEmpty(b, n);
      }
    }
  }

  /** The number of sectors a file of that size takes. */
  function SectorsFor(maxSize: nat, dataSize: nat): nat
    requires dataSize > 0
  {
    maxSize / dataSize + if maxSize % dataSize != 0 then 1 else 0
  }

  /** It is the least number of sectors that holds the file. */
  lemma SectorsForExactly(maxSize: nat, dataSize: nat, m: nat)
    requires dataSize > 0
    ensures maxSize <= dataSize * m <==> SectorsFor(maxSize, dataSize) <= m
  {
    var q, r := maxSize / dataSize, maxSize % dataSize;
    var d := m - q;
    assert maxSize == dataSize * q + r;
    assert dataSize * m == dataSize * q + dataSize * d;
    MultipleBounds(dataSize, d);
  }

  /** Slot b has no sectors, and it is the first such slot. */
  ghost predicate FirstUnused(rings: seq<seq<nat>>, b: nat) {
    0 < b < |rings| && |rings[b]| == 1 && forall a :: 1 <= a < b ==> |rings[a]| != 1
  }

  /** A new file takes the first slot without sectors, and num sectors from the front of the free list. It is refused
      when every slot has sectors or too few are free; nothing changes then. */
  ghost predicate Created(before: seq<seq<nat>>, num: nat, slot: Option<nat>, after: seq<seq<nat>>)
    requires before != []
  {
    match slot
    case Some(b) => FirstUnused(before, b) && num < |before[0]| && after == MovedMany(before, 0, b, num)
    case None =>
      && after == before
      && ((forall a :: 1 <= a < |before| ==> |before[a]| != 1) || num >= |before[0]|)
  }

  /** The sector taken out of list a is in no list. */
  lemma DroppedApart(rs: seq<seq<nat>>, os: seq<nat>, a: nat)
    requires Apart(rs, os) && a < |rs| && |rs[a]| >= 2
    ensures rs[a][1] < |os| && Apart(rs[a := Dropped(rs[a])], os[rs[a][1] := |rs|])
  {
    var r := Dropped(rs[a]);
    assert OwnedBy(rs[a], os, a);
    forall i | 0 <= i < |r|
      ensures r[i] == if i == 0 then rs[a][0] else rs[a][i + 1]
    {
      DroppedAt(rs[a], i);
    }
  }
}
