/** The mask arithmetic of the circular buffers in include/dfu-internal.h. */
module Ring {

  /** a & mask, for a two's complement a of any width and a mask that is not negative. */
  function And(a: int, mask: nat): nat
    decreases mask
  {
    if mask == 0 then 0 else (if a % 2 == 1 && mask % 2 == 1 then 1 else 0) + 2 * And(a / 2, mask / 2)
  }

  predicate PowerOfTwo(n: nat) {
    n == 1 || (n > 0 && n % 2 == 0 && PowerOfTwo(n / 2))
  }

  lemma ModUnique(a: int, n: nat, q: int, r: nat)
    requires n > 0 && a == n * q + r && r < n
    ensures a % n == r && a / n == q
  {
    var d := q - a / n;
    assert n * d == a % n - r by {
      assert a == n * (a / n) + a % n;
      assert n * d == n * q - n * (a / n);
    }
    MultipleBounds(n, d);
  }

  lemma MultipleBounds(n: nat, d: int)
    ensures d >= 1 ==> n * d >= n
    ensures d <= -1 ==> n * d + n <= 0
  {
  }

  /** The low bit of a on top of the remainder of the other bits. */
  lemma DoubleMod(a: int, k: nat)
    requires k > 0
    ensures a % (2 * k) == a % 2 + 2 * ((a / 2) % k)
  {
    var q, r := (a / 2) / k, (a / 2) % k;
    assert a / 2 == k * q + r;
    assert (2 * k) * q == 2 * (k * q);
    ModUnique(a, 2 * k, q, 2 * r + a % 2);
  }

  lemma {:induction false} MaskIsMod(a: int, n: nat)
    requires PowerOfTwo(n)
    ensures And(a, n - 1) == a % n
    decreases n
  {
    if n > 1 {
      var k := n / 2;
      assert n == 2 * k && (n - 1) % 2 == 1 && (n - 1) / 2 == k - 1;
      MaskIsMod(a / 2, k);
      DoubleMod(a, k);
    }
  }

  lemma {:induction false} AndSelf(n: nat)
    ensures And(n, n) == n
  {
    if n > 0 {
      AndSelf(n / 2);
    }
  }

  lemma {:induction false} MaskOfItsSize(n: nat)
    requires n > 0
    ensures And(n, n - 1) == 0 <==> PowerOfTwo(n)
    decreases n
  {
    if n % 2 == 0 {
      MaskOfItsSize(n / 2);
      assert (n - 1) / 2 == n / 2 - 1;
    } else if n > 1 {
      AndSelf(n / 2);
      assert (n - 1) / 2 == n / 2;
    }
  }

  /** Masking with size - 1 reduces every index modulo the size exactly when the size is a power of two. */
  lemma MaskIsModExactly(n: nat)
    requires n > 0
    ensures (forall a: int :: And(a, n - 1) == a % n) <==> PowerOfTwo(n)
  {
    MaskOfItsSize(n);
    if PowerOfTwo(n) {
      forall a: int
        ensures And(a, n - 1) == a % n
      {
        MaskIsMod(a, n);
      }
    } else {
      ModUnique(n, n, 1, 0);
      assert And(n, n - 1) != n % n;
    }
  }

  // ---------- the four macros ----------

  function Count(head: nat, tail: nat, size: nat): nat
    requires size > 0
  {
    And(head - tail, size - 1)
  }

  function Space(head: nat, tail: nat, size: nat): nat
    requires size > 0
  {
    And(tail - (head + 1), size - 1)
  }

  function CountToEnd(head: nat, tail: nat, size: nat): int
    requires size > 0
  {
    var end := size - tail;
    var n := And(head + end, size - 1);
    if n < end then n else end
  }

  function SpaceToEnd(head: nat, tail: nat, size: nat): int
    requires size > 0
  {
    var end := size - 1 - head;
    var n := And(end + tail, size - 1);
    if n <= end then n else end + 1
  }

  // ---------- what they mean, for positions in an endless stream ----------

  /** The ring index of stream position p. */
  function Index(p: nat, size: nat): (i: nat)
    requires size > 0
    ensures i < size
  {
    p % size
  }

  lemma IndexSum(p: nat, k: nat, size: nat)
    requires size > 0
    ensures (Index(p, size) + k) % size == Index(p + k, size)
  {
    var i := p % size + k;
    assert p == size * (p / size) + p % size;
    ModUnique(p + k, size, p / size + i / size, i % size) by {
      assert size * (p / size + i / size) == size * (p / size) + size * (i / size);
    }
  }

  /** Moving an index forward. */
  lemma Advance(p: nat, k: nat, size: nat)
    requires PowerOfTwo(size)
    ensures And(Index(p, size) + k, size - 1) == Index(p + k, size)
  {
    MaskIsMod(Index(p, size) + k, size);
    IndexSum(p, k, size);
  }

  lemma ModShift(a: int, m: int, size: nat)
    requires size > 0
    ensures (a + size * m) % size == a % size
  {
    ModUnique(a + size * m, size, a / size + m, a % size) by {
      assert size * (a / size + m) == size * (a / size) + size * m;
    }
  }

  lemma Difference(h: nat, t: nat, c: int, size: nat)
    requires size > 0
    ensures (Index(h, size) - Index(t, size) + c) % size == (h - t + c) % size
  {
    var a := Index(h, size) - Index(t, size) + c;
    var m := h / size - t / size;
    assert h - t + c == a + size * m by {
      assert size * m == size * (h / size) - size * (t / size);
    }
    ModShift(a, m, size);
  }

  lemma SmallMod(a: nat, size: nat)
    requires a < size
    ensures a % size == a
  {
    ModUnique(a, size, 0, a);
  }

  lemma CountMeans(h: nat, t: nat, size: nat)
    requires PowerOfTwo(size) && t <= h < t + size
    ensures Count(Index(h, size), Index(t, size), size) == h - t
  {
    var a := Index(h, size) - Index(t, size);
    assert And(a, size - 1) == a % size by {
      MaskIsMod(a, size);
    }
    assert a % size == h - t by {
      Difference(h, t, 0, size);
      SmallMod(h - t, size);
    }
  }

  lemma SpaceMeans(h: nat, t: nat, size: nat)
    requires PowerOfTwo(size) && t <= h < t + size
    ensures Space(Index(h, size), Index(t, size), size) == size - 1 - (h - t)
  {
    SpaceIsMod(Index(h, size), Index(t, size), size);
    SpaceDifference(h, t, size);
  }

  lemma SpaceIsMod(head: nat, tail: nat, size: nat)
    requires PowerOfTwo(size)
    ensures Space(head, tail, size) == (tail - head - 1) % size
  {
    MaskIsMod(tail - (head + 1), size);
  }

  lemma SpaceDifference(h: nat, t: nat, size: nat)
    requires t <= h < t + size
    ensures (Index(t, size) - Index(h, size) - 1) % size == size - 1 - (h - t)
  {
    Difference(t, h, -1, size);
    LessThanSize(t - h - 1, size);
  }

  lemma LessThanSize(a: int, size: nat)
    requires a < 0 <= a + size
    ensures a % size == a + size
  {
    ModUnique(a, size, -1, a + size);
  }

  lemma CountToEndMeans(h: nat, t: nat, size: nat)
    requires PowerOfTwo(size) && t <= h < t + size
    ensures var c := CountToEnd(Index(h, size), Index(t, size), size);
      c == if h - t < size - Index(t, size) then h - t else size - Index(t, size)
  {
    var i := Index(t, size);
    var a := Index(h, size) + (size - i);
    assert And(a, size - 1) == a % size by {
      MaskIsMod(a, size);
    }
    assert a % size == h - t by {
      Difference(h, t, 0, size);
      ModShift(Index(h, size) - i, 1, size);
      SmallMod(h - t, size);
    }
  }

  lemma SpaceToEndMeans(h: nat, t: nat, size: nat)
    requires PowerOfTwo(size) && t <= h < t + size
    ensures var c := SpaceToEnd(Index(h, size), Index(t, size), size);
      var space := size - 1 - (h - t);
      c == if space < size - Index(h, size) then space else size - Index(h, size)
  {
    var i: int, j: int := Index(h, size), Index(t, size);
    MaskIsMod(size - 1 - i + j, size);
    ModShift(j - i - 1, 1, size);
    SpaceDifference(h, t, size);
  }
}
