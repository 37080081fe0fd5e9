/** Reading bytes out of a list of file blocks, some of which may be missing. */
module Ext2Ranges {
  import opened Words

  /** The blocks of a file in order, as far as its inode can map them. */
  type BlockList = seq<Option<Bytes>>

  ghost predicate Sized(bl: BlockList, bs: nat) {
    bs > 0 && forall i :: 0 <= i < |bl| && bl[i].Some? ==> |bl[i].value| == bs
  }

  predicate Present(bl: BlockList, i: nat) {
    i < |bl| && bl[i].Some?
  }

  /** `n` bytes from byte `at` counted from block `i`, up to the first block that is not there. */
  function ReadFrom(bl: BlockList, bs: nat, i: nat, at: nat, n: nat): (r: Bytes)
    requires Sized(bl, bs)
    ensures |r| <= n
    decreases n, at
  {
    if n == 0 then []
    else if at >= bs then ReadFrom(bl, bs, i + 1, at - bs, n)
    else if !Present(bl, i) then []
    else
      var chunk := Min(n, bs - at);
      bl[i].value[at..at + chunk] + ReadFrom(bl, bs, i + 1, 0, n - chunk)
  }

  /** At most `len` bytes from `off` on of a file of `size` bytes. */
  function ReadAt(bl: BlockList, bs: nat, size: nat, off: nat, len: nat): Bytes
    requires Sized(bl, bs)
  {
    if off >= size then [] else ReadFrom(bl, bs, 0, off, Min(size - off, len))
  }

  function Whole(bl: BlockList, bs: nat, size: nat): Bytes
    requires Sized(bl, bs)
  {
    ReadAt(bl, bs, size, 0, size)
  }

  /** The bytes of `n` blocks. */
  function Total(n: nat, bs: nat): nat {
    if n == 0 then 0 else Total(n - 1, bs) + bs
  }

  lemma {:induction false} TotalIs(n: nat, bs: nat)
    ensures Total(n, bs) == n * bs
  {
    if n > 0 {
      TotalIs(n - 1, bs);
      assert (n - 1) * bs + bs == n * bs;
    }
  }

  /** No more is read than the blocks from `i` on hold. */
  lemma {:induction false} ReadBound(bl: BlockList, bs: nat, i: nat, at: nat, n: nat)
    requires Sized(bl, bs)
    ensures |ReadFrom(bl, bs, i, at, n)| <= Total(if i < |bl| then |bl| - i else 0, bs)
    decreases n, at
  {
    if n > 0 {
      if at >= bs {
        ReadBound(bl, bs, i + 1, at - bs, n);
      } else if Present(bl, i) {
        ReadBound(bl, bs, i + 1, 0, n - Min(n, bs - at));
      }
    }
  }

  /** Mentioned where the state of a read in progress matters. */
  predicate LookAtReading(k: int) {
    true
  }

  /** `out` has been read of what a read has to give; the rest starts `at` bytes into block `i`. */
  ghost predicate Reading(bl: BlockList, bs: nat, all: Bytes, out: Bytes, i: nat, at: nat, n: nat) {
    forall k: int :: LookAtReading(k) ==> Sized(bl, bs) && all == out + ReadFrom(bl, bs, i, at, n)
  }

  lemma ReadStarts(bl: BlockList, bs: nat, i: nat, at: nat, n: nat)
    requires Sized(bl, bs)
    ensures Reading(bl, bs, ReadFrom(bl, bs, i, at, n), [], i, at, n)
  {
    assert [] + ReadFrom(bl, bs, i, at, n) == ReadFrom(bl, bs, i, at, n);
  }

  lemma ReadStep(bl: BlockList, bs: nat, all: Bytes, out: Bytes, i: nat, at: nat, n: nat, chunk: nat)
    requires Reading(bl, bs, all, out, i, at, n) && at < bs && n > 0 && Present(bl, i)
    requires |bl[i].value| == bs && chunk == Min(n, bs - at)
    ensures Reading(bl, bs, all, out + bl[i].value[at..at + chunk], i + 1, 0, n - chunk)
  {
    assert LookAtReading(0);
  }

  lemma ReadStops(bl: BlockList, bs: nat, all: Bytes, out: Bytes, i: nat, at: nat, n: nat)
    requires Reading(bl, bs, all, out, i, at, n) && at < bs && (n == 0 || !Present(bl, i))
    ensures out == all
  {
    assert LookAtReading(0);
  }

  /** Passing over `q` blocks reads none of them. */
  lemma {:induction false} SkipBlocks(bl: BlockList, bs: nat, i: nat, off: nat, q: nat, r: nat, n: nat)
    requires Sized(bl, bs) && off == q * bs + r && r < bs
    ensures ReadFrom(bl, bs, i, off, n) == ReadFrom(bl, bs, i + q, r, n)
    decreases q
  {
    if q > 0 && n > 0 {
      OneLess(q, bs, r, off);
      SkipBlocks(bl, bs, i + 1, off - bs, q - 1, r, n);
    }
  }

  // ---- ranges against the whole ----

  /** Once a block of the file is missing, so are all after it. */
  ghost predicate NoGap(bl: BlockList, bs: nat, size: nat) {
    forall i: nat, j: nat :: i < j && j * bs < size && Present(bl, j) ==> Present(bl, i)
  }

  lemma SliceAfter(a: Bytes, rest: Bytes, off: nat, n: nat)
    requires off >= |a|
    ensures Slice(a + rest, off, n) == Slice(rest, off - |a|, n)
  {
  }

  lemma SliceAcross(a: Bytes, rest: Bytes, r: nat, n: nat)
    requires r <= |a| <= r + n
    ensures Slice(a + rest, r, n) == a[r..] + Slice(rest, 0, n - (|a| - r))
  {
  }

  /** A read that covers block `i` is that block and the rest. */
  lemma ReadBlock(bl: BlockList, bs: nat, i: nat, n: nat)
    requires Sized(bl, bs) && Present(bl, i) && n >= bs
    ensures ReadFrom(bl, bs, i, 0, n) == bl[i].value + ReadFrom(bl, bs, i + 1, 0, n - bs)
  {
    assert bl[i].value[0..bs] == bl[i].value;
  }

  /** A read that ends inside block `i`. */
  lemma ReadPart(bl: BlockList, bs: nat, i: nat, r: nat, n: nat)
    requires Sized(bl, bs) && Present(bl, i) && r + n <= bs
    ensures ReadFrom(bl, bs, i, r, n) == bl[i].value[r..r + n]
  {
    if n > 0 {
      assert ReadFrom(bl, bs, i + 1, 0, 0) == [];
    } else if r < bs {
      assert bl[i].value[r..r + n] == [];
    }
  }

  /** A read that leaves block `i` for the next. */
  lemma ReadAcross(bl: BlockList, bs: nat, i: nat, r: nat, n: nat)
    requires Sized(bl, bs) && Present(bl, i) && r < bs < r + n
    ensures ReadFrom(bl, bs, i, r, n) == bl[i].value[r..] + ReadFrom(bl, bs, i + 1, 0, n - (bs - r))
  {
    assert bl[i].value[r..bs] == bl[i].value[r..];
  }

  lemma SliceWithin(b: Bytes, rest: Bytes, m: nat, r: nat, n: nat)
    requires r + n <= m <= |b|
    ensures Slice(b[0..m], r, n) == b[r..r + n]
    ensures Slice(b + rest, r, n) == b[r..r + n]
  {
    assert Slice(b[0..m], r, n) == b[0..m][r..r + n] == b[r..r + n];
  }

  /** Mentioned where a slice is looked into. */
  predicate LookAtSlice(k: int) {
    true
  }

  /** Reading `n` bytes `at` bytes from block `j` gives bytes `off .. off + n - 1` of the `m`
      bytes from block `i`. */
  ghost predicate PartOf(bl: BlockList, bs: nat, j: nat, at: nat, n: nat, i: nat, m: nat, off: nat) {
    && Sized(bl, bs)
    && forall k: int :: LookAtSlice(k) ==>
         ReadFrom(bl, bs, j, at, n) == Slice(ReadFrom(bl, bs, i, 0, m), off, n)
  }

  lemma PastBlock(bl: BlockList, bs: nat, i: nat, r: nat, n: nat, m: nat)
    requires Sized(bl, bs) && Present(bl, i) && r < bs < r + n <= m
    requires PartOf(bl, bs, i + 1, 0, n - (bs - r), i + 1, m - bs, 0)
    ensures PartOf(bl, bs, i, r, n, i, m, r)
  {
    assert LookAtSlice(0);
    ReadAcross(bl, bs, i, r, n);
    ReadBlock(bl, bs, i, m);
    SliceAcross(bl[i].value, ReadFrom(bl, bs, i + 1, 0, m - bs), r, n);
  }

  lemma PartOfBlock(bl: BlockList, bs: nat, i: nat, r: nat, n: nat, m: nat)
    requires Sized(bl, bs) && Present(bl, i) && r + n <= bs && r + n <= m
    ensures PartOf(bl, bs, i, r, n, i, m, r)
  {
    ReadPart(bl, bs, i, r, n);
    if m >= bs {
      ReadBlock(bl, bs, i, m);
      SliceWithin(bl[i].value, ReadFrom(bl, bs, i + 1, 0, m - bs), bs, r, n);
    } else {
      ReadPart(bl, bs, i, 0, m);
      SliceWithin(bl[i].value, [], m, r, n);
    }
  }

  lemma NothingThere(bl: BlockList, bs: nat, i: nat, j: nat, r: nat, n: nat, m: nat, off: nat)
    requires Sized(bl, bs) && r < bs && (n == 0 || (!Present(bl, i) && !Present(bl, j)))
    ensures PartOf(bl, bs, j, r, n, i, m, off)
  {
  }

  /** Asking for less gives a prefix. */
  lemma {:induction false} ReadPrefix(bl: BlockList, bs: nat, i: nat, n: nat, m: nat)
    requires Sized(bl, bs) && m <= n
    ensures PartOf(bl, bs, i, 0, m, i, n, 0)
    decreases n
  {
    if m == 0 || !Present(bl, i) {
      NothingThere(bl, bs, i, i, 0, m, n, 0);
    } else if m > bs {
      ReadPrefix(bl, bs, i + 1, n - bs, m - bs);
      PastBlock(bl, bs, i, 0, m, n);
    } else {
      PartOfBlock(bl, bs, i, 0, m, n);
    }
  }

  /** Starting part-way into a block. */
  lemma ReadInside(bl: BlockList, bs: nat, i: nat, r: nat, n: nat, m: nat)
    requires Sized(bl, bs) && r < bs && r + n <= m
    ensures PartOf(bl, bs, i, r, n, i, m, r)
  {
    if n == 0 || !Present(bl, i) {
      NothingThere(bl, bs, i, i, r, n, m, r);
    } else if r + n > bs {
      ReadPrefix(bl, bs, i + 1, m - bs, n - (bs - r));
      PastBlock(bl, bs, i, r, n, m);
    } else {
      PartOfBlock(bl, bs, i, r, n, m);
    }
  }

  lemma OneLess(q: nat, bs: nat, r: nat, off: nat)
    requires q > 0 && off == q * bs + r
    ensures off >= bs && off - bs == (q - 1) * bs + r
  {
    BlocksApart(0, q, bs);
  }

  lemma OneBlockOn(bl: BlockList, bs: nat, i: nat, j: nat, r: nat, n: nat, m: nat, off: nat)
    requires Sized(bl, bs) && Present(bl, i) && off >= bs && off + n <= m
    requires PartOf(bl, bs, j, r, n, i + 1, m - bs, off - bs)
    ensures PartOf(bl, bs, j, r, n, i, m, off)
  {
    assert LookAtSlice(0);
    ReadBlock(bl, bs, i, m);
    SliceAfter(bl[i].value, ReadFrom(bl, bs, i + 1, 0, m - bs), off, n);
  }

  /** Starting `q` blocks and `r` bytes further on. */
  lemma {:induction false} ReadLater(bl: BlockList, bs: nat, i: nat, q: nat, r: nat, off: nat, n: nat, m: nat)
    requires Sized(bl, bs) && r < bs && off == q * bs + r && off + n <= m
    requires Present(bl, i + q) ==> forall t: nat :: i <= t < i + q ==> Present(bl, t)
    ensures PartOf(bl, bs, i + q, r, n, i, m, off)
    decreases q
  {
    if q == 0 {
      ReadInside(bl, bs, i, r, n, m);
    } else if n == 0 || !Present(bl, i) {
      NothingThere(bl, bs, i, i + q, r, n, m, off);
    } else {
      OneLess(q, bs, r, off);
      ReadLater(bl, bs, i + 1, q - 1, r, off - bs, n, m - bs);
      OneBlockOn(bl, bs, i, i + q, r, n, m, off);
    }
  }

  /** Nothing is read at or past a missing block. */
  lemma {:induction false} StopsAtHole(bl: BlockList, bs: nat, i: nat, q: nat, n: nat)
    requires Sized(bl, bs) && !Present(bl, i + q)
    ensures |ReadFrom(bl, bs, i, 0, n)| <= q * bs
    decreases q
  {
    if q > 0 && n > 0 && Present(bl, i) {
      StopsAtHole(bl, bs, i + 1, q - 1, n - Min(n, bs));
      assert (q - 1) * bs + bs == q * bs;
    }
  }

  lemma RangeOfWhole(bl: BlockList, bs: nat, size: nat, off: nat, len: nat)
    requires Sized(bl, bs) && NoGap(bl, bs, size)
    ensures ReadAt(bl, bs, size, off, len) == Slice(Whole(bl, bs, size), off, len)
  {
    if off < size {
      var q, r, n := off / bs, off % bs, Min(size - off, len);
      DivParts(off, bs);
      ReadLater(bl, bs, 0, q, r, off, n, size);
      assert LookAtSlice(0);
      SkipBlocks(bl, bs, 0, off, q, r, n);
      assert Slice(Whole(bl, bs, size), off, len) == Slice(Whole(bl, bs, size), off, n);
    }
  }

  lemma GapSeen(bl: BlockList, bs: nat, size: nat, i: nat, j: nat)
    requires Sized(bl, bs) && i < j && j * bs < size && !Present(bl, i) && Present(bl, j)
    ensures ReadAt(bl, bs, size, j * bs, 1) != Slice(Whole(bl, bs, size), j * bs, 1)
  {
    StopsAtHole(bl, bs, 0, i, size);
    BlocksApart(i, j, bs);
    SkipBlocks(bl, bs, 0, j * bs, j, 0, 1);
    assert |ReadFrom(bl, bs, j, 0, 1)| == 1;
  }

  /** Every ranged read is the matching slice of the whole file exactly when the file has no
      missing block with a present one after it. */
  lemma RangesAreSlices(bl: BlockList, bs: nat, size: nat)
    requires Sized(bl, bs)
    ensures NoGap(bl, bs, size) <==>
            forall off: nat, len: nat :: ReadAt(bl, bs, size, off, len) == Slice(Whole(bl, bs, size), off, len)
  {
    if NoGap(bl, bs, size) {
      forall off: nat, len: nat ensures ReadAt(bl, bs, size, off, len) == Slice(Whole(bl, bs, size), off, len) {
        RangeOfWhole(bl, bs, size, off, len);
      }
    } else {
      var i: nat, j: nat :| i < j && j * bs < size && !Present(bl, i) && Present(bl, j);
      GapSeen(bl, bs, size, i, j);
    }
  }
}
