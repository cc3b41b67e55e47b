/** Where the bytes of a file lie in flash (src/file-container-esp8266.c): its sectors in list order, each
    with a header before its data. */
module FlashFiles {
  import opened Basics
  import opened Ring
  import opened FlashSectors

  /** sizeof(union spi_flash_sector_header) */
  const HEADER := 76

  /** Number of the first flash sector of the container, and the size of a sector. */
  datatype Layout = Layout(first: nat, sectSize: nat) {
    ghost predicate Valid() { sectSize > HEADER }

    /** sectdatasize */
    function DataSize(): (d: nat)
      requires Valid()
      ensures d > 0
    {
      sectSize - HEADER
    }

    /** flash_sect_index_to_addr of a sector of the container */
    function SectorAddr(sector: nat): nat
    {
      (first + sector) * sectSize
    }

    /** The address of the byte at offset offs of the file. */
    function Address(sectors: seq<nat>, offs: nat): nat
      requires Valid() && offs < DataSize() * |sectors|
    {
      SectorOf(offs, DataSize(), |sectors|);
      SectorAddr(sectors[offs / DataSize()]) + HEADER + offs % DataSize()
    }
  }

  lemma SectorOf(offs: nat, d: nat, n: nat)
    requires d > 0 && offs < d * n
    ensures offs / d < n
  {
    MultipleBounds(d, offs / d - n);
    assert d * (offs / d) == d * n + d * (offs / d - n);
  }

  // ---------- no two bytes share an address ----------

  /** An address is that of one sector and one place in it. */
  lemma AddressSplits(l: Layout, a: nat, i: nat, b: nat, j: nat)
    requires l.Valid() && i < l.sectSize && j < l.sectSize
    ensures l.SectorAddr(a) + i == l.SectorAddr(b) + j <==> a == b && i == j
  {
    ModUnique(l.SectorAddr(a) + i, l.sectSize, l.first + a, i);
    ModUnique(l.SectorAddr(b) + j, l.sectSize, l.first + b, j);
  }

  /** The sector of an offset, by its place in the list, and the place in the sector. */
  lemma AddressParts(l: Layout, sectors: seq<nat>, offs: nat) returns (q: nat, r: nat)
    requires l.Valid() && offs < l.DataSize() * |sectors|
    ensures q < |sectors| && r < l.DataSize() && offs == l.DataSize() * q + r
    ensures l.Address(sectors, offs) == l.SectorAddr(sectors[q]) + (HEADER + r)
  {
    SectorOf(offs, l.DataSize(), |sectors|);
    q, r := offs / l.DataSize(), offs % l.DataSize();
  }

  /** Two offsets of a file never have the same address. */
  lemma AddressInjective(l: Layout, sectors: seq<nat>, m: nat, n: nat)
    requires l.Valid() && m < l.DataSize() * |sectors| && n < l.DataSize() * |sectors|
    requires forall i, j :: 0 <= i < j < |sectors| ==> sectors[i] != sectors[j]
    ensures l.Address(sectors, m) == l.Address(sectors, n) <==> m == n
  {
    var p, q := AddressParts(l, sectors, m);
    var p', q' := AddressParts(l, sectors, n);
    AddressSplits(l, sectors[p], HEADER + q, sectors[p'], HEADER + q');
  }

  /** Nor do bytes of files without a common sector. */
  lemma FilesApart(l: Layout, s: seq<nat>, m: nat, t: seq<nat>, n: nat)
    requires l.Valid() && m < l.DataSize() * |s| && n < l.DataSize() * |t|
    requires forall x :: x in s ==> x !in t
    ensures l.Address(s, m) != l.Address(t, n)
  {
    var p, q := AddressParts(l, s, m);
    var p', q' := AddressParts(l, t, n);
    assert s[p] in s && t[p'] in t;
    AddressSplits(l, s[p], HEADER + q, t[p'], HEADER + q');
  }

  /** Nor does a byte of a file lie in a sector header. */
  lemma HeadersApart(l: Layout, s: seq<nat>, m: nat, sector: nat, i: nat)
    requires l.Valid() && m < l.DataSize() * |s| && i < HEADER
    ensures l.Address(s, m) != l.SectorAddr(sector) + i
  {
    var p, q := AddressParts(l, s, m);
    AddressSplits(l, s[p], HEADER + q, sector, i);
  }

  /** The byte at place r of the file's sector number q, where every sector starts with a name of 64 bytes and three
      32-bit numbers: its flash address. A container of n sectors keeps its bytes between its first sector and the
      sector behind its last. */
  lemma AddressExactly(l: Layout, sectors: seq<nat>, q: nat, r: nat, n: nat)
    requires l.Valid() && q < |sectors| && r < l.sectSize - (64 + 3 * 4) && sectors[q] < n
    ensures var offs := (l.sectSize - (64 + 3 * 4)) * q + r;
      && offs < l.DataSize() * |sectors|
      && l.Address(sectors, offs) == (l.first + sectors[q]) * l.sectSize + (64 + 3 * 4) + r
      && l.first * l.sectSize < l.Address(sectors, offs) < (l.first + n) * l.sectSize
  {
    InSector(l, sectors, q, r);
    SectorInside(l.first, sectors[q], n, l.sectSize);
  }

  lemma SectorInside(first: nat, sector: nat, n: nat, size: nat)
    requires sector < n
    ensures first * size <= (first + sector) * size && (first + sector) * size + size <= (first + n) * size
  {
    MultipleGrows(size, first, first + sector);
    MultipleGrows(size, first + sector + 1, first + n);
    assert (first + sector + 1) * size == (first + sector) * size + size;
  }

  lemma MultipleGrows(size: nat, m: nat, n: nat)
    requires m <= n
    ensures m * size <= n * size
  {
  }

  // ---------- the files of a container ----------

  /** The sector numbers of list a, without its head. */
  function SectorsOf(rings: seq<seq<nat>>, h: nat, a: nat): (s: seq<nat>)
    requires a < |rings| && |rings[a]| > 0 && forall i :: 1 <= i < |rings[a]| ==> rings[a][i] >= h
    ensures |s| == |rings[a]| - 1
  {
    seq(|rings[a]| - 1, i requires 0 <= i < |rings[a]| - 1 => rings[a][i + 1] - h)
  }

  /** In a well-formed container every place of every file has a flash address of its own. */
  lemma OwnAddress(l: Layout, rings: seq<seq<nat>>, owner: seq<nat>, h: nat, n: nat, a: nat, m: nat, b: nat, k: nat)
    requires l.Valid() && Partition(rings, owner, h, n) && a < h && b < h
    requires m < l.DataSize() * |SectorsOf(rings, h, a)| && k < l.DataSize() * |SectorsOf(rings, h, b)|
    ensures l.Address(SectorsOf(rings, h, a), m) == l.Address(SectorsOf(rings, h, b), k) <==> a == b && m == k
  {
    var s, t := SectorsOf(rings, h, a), SectorsOf(rings, h, b);
    var p, q := AddressParts(l, s, m);
    var p', q' := AddressParts(l, t, k);
    AddressSplits(l, s[p], HEADER + q, t[p'], HEADER + q');
    assert owner[rings[a][p + 1]] == a && owner[rings[b][p' + 1]] == b;
  }

  // ---------- reading and writing ----------

  /** One access to the flash: len bytes at addr, and their place in the caller's buffer. */
  datatype Transfer = Transfer(addr: nat, at: nat, len: nat)

  /** The flash addresses of the buffer's bytes, in order. */
  function Addresses(ts: seq<Transfer>): seq<int> {
    if ts == [] then [] else
      var t := ts[|ts| - 1];
      Addresses(ts[..|ts| - 1]) + seq(t.len, k requires 0 <= k => t.addr + k)
  }

  /** Every access goes on in the buffer where the one before ended. */
  ghost predicate InOrder(ts: seq<Transfer>) {
    ts == [] || (InOrder(ts[..|ts| - 1]) && ts[|ts| - 1].at == |Addresses(ts[..|ts| - 1])|)
  }

  /** The addresses are those of the file's bytes from offset offs on. */
  ghost predicate Follow(l: Layout, sectors: seq<nat>, offs: nat, addresses: seq<int>)
    requires l.Valid()
  {
    forall k :: 0 <= k < |addresses| ==> IsAddress(l, sectors, offs + k, addresses[k])
  }

  /** a is the address of the file's byte at offset offs. */
  ghost predicate IsAddress(l: Layout, sectors: seq<nat>, offs: nat, a: int)
    requires l.Valid()
  {
    offs < l.DataSize() * |sectors| && a == l.Address(sectors, offs)
  }

  lemma InSector(l: Layout, sectors: seq<nat>, i: nat, offset: nat)
    requires l.Valid() && i < |sectors| && offset < l.DataSize()
    ensures IsAddress(l, sectors, l.DataSize() * i + offset, l.SectorAddr(sectors[i]) + HEADER + offset)
  {
    var d := l.DataSize();
    ModUnique(d * i + offset, d, i, offset);
    MultipleBounds(d, |sectors| - i);
    assert d * |sectors| == d * i + d * (|sectors| - i);
  }

  lemma AddTransfer(l: Layout, sectors: seq<nat>, fileptr: nat, ts: seq<Transfer>, i: nat, offset: nat, t: Transfer)
    requires l.Valid() && InOrder(ts) && Follow(l, sectors, fileptr, Addresses(ts))
    requires i < |sectors| && offset + t.len <= l.DataSize()
    requires fileptr + |Addresses(ts)| == l.DataSize() * i + offset && t.at == |Addresses(ts)|
    requires t.addr == l.SectorAddr(sectors[i]) + HEADER + offset
    ensures InOrder(ts + [t]) && Follow(l, sectors, fileptr, Addresses(ts + [t]))
    ensures |Addresses(ts + [t])| == |Addresses(ts)| + t.len
  {
    assert (ts + [t])[..|ts|] == ts;
    var before, more := Addresses(ts), seq(t.len, k requires 0 <= k => t.addr + k);
    assert Addresses(ts + [t]) == before + more;
    forall k | 0 <= k < t.len
      ensures IsAddress(l, sectors, fileptr + |before| + k, more[k])
    {
      InSector(l, sectors, i, offset + k);
      assert fileptr + |before| + k == l.DataSize() * i + (offset + k);
    }
    FollowBoth(l, sectors, fileptr, before, more);
  }

  lemma FollowBoth(l: Layout, sectors: seq<nat>, offs: nat, a: seq<int>, b: seq<int>)
    requires l.Valid() && Follow(l, sectors, offs, a) && Follow(l, sectors, offs + |a|, b)
    ensures Follow(l, sectors, offs, a + b)
  {
    var c := a + b;
    forall k | 0 <= k < |c|
      ensures IsAddress(l, sectors, offs + k, c[k])
    {
      if k < |a| {
        assert c[k] == a[k];
      } else {
        assert c[k] == b[k - |a|] && offs + |a| + (k - |a|) == offs + k;
      }
    }
  }

  /** How many bytes there are from an offset to the end of the file's sectors. */
  function Room(l: Layout, sectors: seq<nat>, offs: nat): nat
    requires l.Valid()
  {
    if offs < l.DataSize() * |sectors| then l.DataSize() * |sectors| - offs else 0
  }

  /** What one round of the loop has reached: all bytes up to place offset of sector i. */
  ghost predicate UpTo(l: Layout, sectors: seq<nat>, fileptr: nat, ts: seq<Transfer>, done: nat, i: nat, offset: nat)
    requires l.Valid()
  {
    && InOrder(ts) && Follow(l, sectors, fileptr, Addresses(ts)) && |Addresses(ts)| == done
    && fileptr + done == l.DataSize() * i + offset
  }

  /** The access of one sector. */
  method Access(l: Layout, sectors: seq<nat>, fileptr: nat, left: nat, i: nat, offset: nat, done: nat,
                ts: seq<Transfer>)
    returns (n: nat, ts': seq<Transfer>)
    requires l.Valid() && UpTo(l, sectors, fileptr, ts, done, i, offset)
    requires i < |sectors| && offset < l.DataSize()
    ensures n == Min(left, l.DataSize() - offset) && UpTo(l, sectors, fileptr, ts', done + n, i, offset + n)
  {
    var dataAddr := l.SectorAddr(sectors[i]) + HEADER + offset;
    n := Min(left, l.DataSize() - offset);
    AddTransfer(l, sectors, fileptr, ts, i, offset, Transfer(dataAddr, done, n));
    ts' := ts + [Transfer(dataAddr, done, n)];
  }

  /** _spi_flash_file_wrrd: the accesses it makes, each assumed to succeed, and its result. */
  method Wrrd(l: Layout, sectors: seq<nat>, fileptr: nat, sz: nat) returns (done: nat, ts: seq<Transfer>)
    requires l.Valid()
    ensures done == Min(sz, Room(l, sectors, fileptr))
    ensures InOrder(ts) && Follow(l, sectors, fileptr, Addresses(ts)) && |Addresses(ts)| == done
  {
    var d := l.DataSize();
    var firstSector := fileptr / d;
    FirstSector(fileptr, d);
    var offs, i := 0, 0;
    done, ts := 0, [];
    while i < |sectors|
      invariant 0 <= i <= |sectors| && offs == d * i
      invariant i <= firstSector ==> done == 0 && ts == []
      invariant i > firstSector ==> UpTo(l, sectors, fileptr, ts, done, i, 0) && done < sz
    {
      NextSector(d, i);
      if i < firstSector {
        offs := offs + d;
        i := i + 1;
        continue;
      }
      var offsetInSector := if i == firstSector then fileptr - offs else 0;
      var n;
      n, ts := Access(l, sectors, fileptr, sz - done, i, offsetInSector, done, ts);
      done := done + n;
      if done >= sz {
        DoneAll(l, sectors, fileptr, Addresses(ts));
        return;
      }
      offs := offs + d;
      i := i + 1;
    }
    RoomEnds(l, sectors, fileptr);
  }

  lemma FirstSector(fileptr: nat, d: nat)
    requires d > 0
    ensures d * (fileptr / d) <= fileptr < d * (fileptr / d) + d
  {
  }

  lemma NextSector(d: nat, i: nat)
    ensures d * (i + 1) == d * i + d
  {
  }

  lemma DoneAll(l: Layout, sectors: seq<nat>, fileptr: nat, addresses: seq<int>)
    requires l.Valid() && Follow(l, sectors, fileptr, addresses)
    ensures |addresses| <= Room(l, sectors, fileptr)
  {
    if addresses != [] {
      var k := |addresses| - 1;
      assert IsAddress(l, sectors, fileptr + k, addresses[k]);
    }
  }

  lemma RoomEnds(l: Layout, sectors: seq<nat>, fileptr: nat)
    requires l.Valid()
    ensures |sectors| <= fileptr / l.DataSize() ==> Room(l, sectors, fileptr) == 0
  {
    var d := l.DataSize();
    if fileptr < d * |sectors| {
      SectorOf(fileptr, d, |sectors|);
    }
  }

  // ---------- whole files ----------

  /** An open file: dfu_simple_file with its spi_flash_file_data. */
  datatype File = File(sectors: seq<nat>, written: nat, maxSize: nat, fileptr: nat)

  /** What a call gives back, and the addresses it wrote or read. */
  datatype Outcome = Outcome(ret: int, f: File, addresses: seq<int>)

  /** The addresses of n bytes of the file from an offset on. */
  function Visit(l: Layout, sectors: seq<nat>, offs: nat, n: nat): (v: seq<int>)
    requires l.Valid() && n <= Room(l, sectors, offs)
    ensures |v| == n
  {
    seq(n, k requires 0 <= k < n => l.Address(sectors, offs + k))
  }

  /** The accesses of a call visit exactly these addresses. */
  lemma FollowIsVisit(l: Layout, sectors: seq<nat>, offs: nat, addresses: seq<int>)
    requires l.Valid() && Follow(l, sectors, offs, addresses) && |addresses| <= Room(l, sectors, offs)
    ensures addresses == Visit(l, sectors, offs, |addresses|)
  {
    forall k | 0 <= k < |addresses|
      ensures addresses[k] == Visit(l, sectors, offs, |addresses|)[k]
    {
      assert IsAddress(l, sectors, offs + k, addresses[k]);
    }
  }

  /** dfu_file_write over spi_flash_file_write */
  function Write(l: Layout, f: File, sz: nat): Outcome
    requires l.Valid()
  {
    if f.fileptr < f.written || f.written + sz > f.maxSize then Outcome(-1, f, []) else
      var n := Min(sz, Room(l, f.sectors, f.fileptr));
      Outcome(n, f.(written := f.written + n, fileptr := f.fileptr + n), Visit(l, f.sectors, f.fileptr, n))
  }

  /** dfu_file_read over spi_flash_file_read, for a file pointer inside the file. */
  function Read(l: Layout, f: File, sz: nat): Outcome
    requires l.Valid() && f.fileptr <= f.written
  {
    var n := Min(Min(sz, f.written - f.fileptr), Room(l, f.sectors, f.fileptr));
    Outcome(n, f.(fileptr := f.fileptr + n), Visit(l, f.sectors, f.fileptr, n))
  }

  /** A file with the sectors _new_file takes for its maximum size, written to the end so far. */
  ghost predicate Sequential(l: Layout, f: File)
    requires l.Valid()
  {
    |f.sectors| == SectorsFor(f.maxSize, l.DataSize()) && f.fileptr == f.written <= f.maxSize
  }

  lemma NeverOutOfSectors(l: Layout, f: File, sz: nat)
    requires l.Valid() && |f.sectors| == SectorsFor(f.maxSize, l.DataSize()) && f.fileptr + sz <= f.maxSize
    ensures sz <= Room(l, f.sectors, f.fileptr)
  {
    SectorsForExactly(f.maxSize, l.DataSize(), |f.sectors|);
  }

  /** A write within the maximum size takes all its bytes, any other takes none. */
  lemma WriteExactly(l: Layout, f: File, sz: nat)
    requires l.Valid() && Sequential(l, f)
    ensures var r := Write(l, f, sz);
      && Sequential(l, r.f) && r.f.sectors == f.sectors && r.f.maxSize == f.maxSize
      && (if f.written + sz <= f.maxSize then r.ret == sz && r.f.written == f.written + sz else r.ret == -1 && r.f == f)
  {
    if f.written + sz <= f.maxSize {
      NeverOutOfSectors(l, f, sz);
    }
  }

  /** A write anywhere but at the end is refused, and changes nothing. */
  lemma OnlyAppends(l: Layout, f: File, to: nat, sz: nat)
    requires l.Valid() && to < f.written
    ensures Write(l, f.(fileptr := to), sz) == Outcome(-1, f.(fileptr := to), [])
  {
  }

  /** All the addresses of a run of writes, and the file after it. */
  function WriteAll(l: Layout, f: File, sizes: seq<nat>): Outcome
    requires l.Valid()
    decreases |sizes|
  {
    if sizes == [] then Outcome(0, f, []) else
      var before := WriteAll(l, f, sizes[..|sizes| - 1]);
      var r := Write(l, before.f, sizes[|sizes| - 1]);
      Outcome(r.ret, r.f, before.addresses + r.addresses)
  }

  lemma VisitBoth(l: Layout, sectors: seq<nat>, offs: nat, m: nat, n: nat)
    requires l.Valid() && m + n <= Room(l, sectors, offs)
    ensures n <= Room(l, sectors, offs + m)
    ensures Visit(l, sectors, offs, m) + Visit(l, sectors, offs + m, n) == Visit(l, sectors, offs, m + n)
  {
  }

  /** Every run of writes to a new file fills the file's addresses in order, each once. */
  lemma {:induction false} WritesInOrder(l: Layout, f: File, sizes: seq<nat>)
    requires l.Valid() && Sequential(l, f) && f.written == 0
    ensures var r := WriteAll(l, f, sizes);
      && Sequential(l, r.f) && r.f.sectors == f.sectors && r.f.maxSize == f.maxSize
      && r.f.written <= Room(l, f.sectors, 0) && r.addresses == Visit(l, f.sectors, 0, r.f.written)
    decreases |sizes|
  {
    if sizes != [] {
      var n := |sizes| - 1;
      WritesInOrder(l, f, sizes[..n]);
      var before := WriteAll(l, f, sizes[..n]);
      WriteExactly(l, before.f, sizes[n]);
      var after := Write(l, before.f, sizes[n]).f;
      NeverOutOfSectors(l, f, after.written);
      VisitBoth(l, f.sectors, 0, before.f.written, after.written - before.f.written);
    }
  }

  /** Reading it back from the start visits the addresses that were written, in the same order. */
  lemma ReadsWhatWasWritten(l: Layout, f: File, sizes: seq<nat>, sz: nat)
    requires l.Valid() && Sequential(l, f) && f.written == 0
    ensures var w := WriteAll(l, f, sizes);
      var r := Read(l, w.f.(fileptr := 0), sz);
      && r.ret == Min(sz, w.f.written)
      && r.ret <= |w.addresses| && r.addresses == w.addresses[..r.ret]
  {
    WritesInOrder(l, f, sizes);
  }

  function Sum(sizes: seq<nat>): nat {
    if sizes == [] then 0 else Sum(sizes[..|sizes| - 1]) + sizes[|sizes| - 1]
  }

  /** All the addresses of a run of reads, how many bytes they gave, and the file after it. */
  function ReadAll(l: Layout, f: File, sizes: seq<nat>): (r: Outcome)
    requires l.Valid() && f.fileptr <= f.written
    ensures r.f.fileptr <= r.f.written
    decreases |sizes|
  {
    if sizes == [] then Outcome(0, f, []) else
      var before := ReadAll(l, f, sizes[..|sizes| - 1]);
      var r := Read(l, before.f, sizes[|sizes| - 1]);
      Outcome(before.ret + r.ret, r.f, before.addresses + r.addresses)
  }

  /** Reads go on where the one before ended, up to what was written. */
  lemma {:induction false} ReadsGoOn(l: Layout, f: File, sizes: seq<nat>)
    requires l.Valid() && f.fileptr <= f.written && f.written <= Room(l, f.sectors, 0)
    ensures var r, n := ReadAll(l, f, sizes), Min(Sum(sizes), f.written - f.fileptr);
      && n <= Room(l, f.sectors, f.fileptr) && r.ret == n && r.f == f.(fileptr := f.fileptr + n)
      && r.addresses == Visit(l, f.sectors, f.fileptr, n)
    decreases |sizes|
  {
    if sizes != [] {
      var k := |sizes| - 1;
      ReadsGoOn(l, f, sizes[..k]);
      var m := Min(Sum(sizes[..k]), f.written - f.fileptr);
      var n := Min(sizes[k], f.written - f.fileptr - m);
      VisitBoth(l, f.sectors, f.fileptr, m, n);
    }
  }

  lemma VisitPart(l: Layout, sectors: seq<nat>, from: nat, n: nat, written: nat)
    requires l.Valid() && from + n <= written <= Room(l, sectors, 0)
    ensures n <= Room(l, sectors, from)
    ensures Visit(l, sectors, from, n) == Visit(l, sectors, 0, written)[from..from + n]
  {
  }

  /** After any run of writes to a new file, any run of reads from a file pointer inside the file visits the addresses
      that were written from there on, in the same order and each once, and stops at the end of what was written; the
      file pointer ends behind the last byte read. */
  lemma ReadsInOrder(l: Layout, f: File, writes: seq<nat>, from: nat, sizes: seq<nat>)
    requires l.Valid() && Sequential(l, f) && f.written == 0 && from <= WriteAll(l, f, writes).f.written
    ensures var w := WriteAll(l, f, writes);
      var r, end := ReadAll(l, w.f.(fileptr := from), sizes), Min(from + Sum(sizes), w.f.written);
      && end <= |w.addresses| == w.f.written && r.ret == end - from
      && r.addresses == w.addresses[from..end] && r.f == w.f.(fileptr := end)
  {
    WritesInOrder(l, f, writes);
    var w := WriteAll(l, f, writes);
    ReadsGoOn(l, w.f.(fileptr := from), sizes);
    VisitPart(l, f.sectors, from, Min(Sum(sizes), w.f.written - from), w.f.written);
  }

  // ---------- the file object ----------

  /** struct dfu_simple_file and its spi_flash_file_data */
  class FlashFile {
    const layout: Layout
    const sectors: seq<nat>
    const maxSize: nat
    var written: nat
    var fileptr: nat

    ghost function View(): File
      reads this
    {
      File(sectors, written, maxSize, fileptr)
    }

    /** A file just created, with the sectors that _new_file took for it. */
    constructor (l: Layout, sectors: seq<nat>, maxSize: nat)
      requires l.Valid() && |sectors| == SectorsFor(maxSize, l.DataSize())
      ensures layout == l && View() == File(sectors, 0, maxSize, 0) && Sequential(l, View())
    {
      layout, this.sectors, this.maxSize := l, sectors, maxSize;
      written, fileptr := 0, 0;
    }

    /** dfu_file_write over spi_flash_file_write: the result, and the accesses it makes. */
    method WriteFile(sz: nat) returns (ret: int, ts: seq<Transfer>)
      requires layout.Valid()
      modifies this
      ensures InOrder(ts) && Outcome(ret, View(), Addresses(ts)) == Write(layout, old(View()), sz)
    {
      if fileptr < written || written + sz > maxSize {
        return -1, [];
      }
      var done;
      done, ts := Wrrd(layout, sectors, fileptr, sz);
      FollowIsVisit(layout, sectors, fileptr, Addresses(ts));
      written := written + done;
      fileptr := fileptr + done;
      ret := done;
    }

    /** dfu_file_read over spi_flash_file_read */
    method ReadFile(sz: nat) returns (ret: int, ts: seq<Transfer>)
      requires layout.Valid() && fileptr <= written
      modifies `fileptr
      ensures InOrder(ts) && Outcome(ret, View(), Addresses(ts)) == Read(layout, old(View()), sz)
    {
      var n := Min(sz, written - fileptr);
      if n == 0 {
        return 0, [];
      }
      var done;
      done, ts := Wrrd(layout, sectors, fileptr, n);
      FollowIsVisit(layout, sectors, fileptr, Addresses(ts));
      fileptr := fileptr + done;
      ret := done;
    }

    /** dfu_file_seek */
    method Seek(to: nat)
      modifies `fileptr
      ensures View() == old(View()).(fileptr := to)
    {
      fileptr := to;
    }
  }
}
