// The layout of a CTZ skip list: block n > 0 starts with ctz(n)+1 pointers of
// four bytes, and lfs_ctz_index finds a byte's block without a loop.

module LfsCtzIndex {
  import opened Bits
  import opened Numbers
  import opened LfsUtil

  // block_size >= 128 leaves room for all pointers of a 2 GiB file.
  predicate ValidBlockSize(bsize: nat) {
    bsize >= 128
  }

  const FILE_MAX := 0x8000_0000

  // Bytes of pointers at the start of block n
  function PtrBytes(n: nat): nat {
    if n == 0 then 0 else 4 * (Ctz(n) + 1)
  }

  // File position of the first data byte of block n
  function Start(bsize: nat, n: nat): int {
    if n == 0 then 0 else Start(bsize, n - 1) + bsize - PtrBytes(n - 1)
  }

  // Byte `size` of the file lies in block i at offset off.
  predicate Located(bsize: nat, size: nat, i: nat, off: nat) {
    && Start(bsize, i) <= size < Start(bsize, i + 1)
    && off == size - Start(bsize, i) + PtrBytes(i)
  }

  // Summing up the pointers before block n takes no loop.
  lemma {:induction false} StartClosed(bsize: nat, n: nat)
    requires n > 0 && bsize >= 8
    ensures Start(bsize, n) == n * (bsize - 8) + 8 + 4 * Popc(n - 1)
  {
    if n > 1 {
      StartClosed(bsize, n - 1);
      PopcPred(n - 1);
      assert n * (bsize - 8) == (n - 1) * (bsize - 8) + (bsize - 8);
    }
  }

  lemma MulGrows(i: nat, b: nat)
    ensures i * b >= 0 && (i + 1) * b == i * b + b
  {
  }

  // Division with its remainder
  method Div(a: nat, b: nat) returns (q: nat, ghost r: nat)
    requires b > 0
    ensures r < b && a == q * b + r
  {
    q, r := a / b, a % b;
    assert b * q == q * b;
  }

  lemma SameQuotient(b: nat, q: nat, r: nat, q': nat, r': nat)
    requires r < b && r' < b && q * b + r == q' * b + r'
    ensures q == q'
  {
    assert b * q == q * b && b * q' == q' * b;
    DivUnique(q * b + r, b, q, r);
    DivUnique(q * b + r, b, q', r');
  }

  // A file has fewer than 2^25 blocks.
  const MAX_BLOCKS: nat := 0x200_0000

  lemma MaxBlocksIs()
    ensures Pow2(25) == MAX_BLOCKS
  {
    assert Pow2(20) == 0x10_0000 by { assert Pow2(10) == 0x400; }
    assert Pow2(24) == 0x100_0000;
  }

  lemma IndexBound(i: nat, b: nat, size: nat)
    requires b >= 120 && i * b <= size < FILE_MAX
    ensures i < MAX_BLOCKS
  {
    MulOrder(120, b, i);
  }

  lemma PopcSmall(n: nat)
    requires n < MAX_BLOCKS
    ensures Popc(n) <= 25
  {
    MaxBlocksIs();
    PopcBound(n, 25);
  }

  // The first estimate e = size / b counts eight bytes too little for the
  // pointers of every block.  If the remainder covers what it missed, e is the
  // block of the byte, ...
  lemma EstimateExact(bsize: nat, size: nat, e: nat, r: nat)
    requires ValidBlockSize(bsize) && 0 < e < MAX_BLOCKS
    requires size == e * (bsize - 8) + r && 8 + 4 * Popc(e - 1) <= r < bsize - 8
    ensures Start(bsize, e) <= size < Start(bsize, e + 1)
  {
    StartClosed(bsize, e);
    StartClosed(bsize, e + 1);
    MulGrows(e, bsize - 8);
  }

  // ... and otherwise it is one too large.
  lemma EstimateHigh(bsize: nat, size: nat, e: nat, r: nat)
    requires ValidBlockSize(bsize) && 0 < e < MAX_BLOCKS
    requires size == e * (bsize - 8) + r && r < 8 + 4 * Popc(e - 1)
    ensures Start(bsize, e - 1) <= size < Start(bsize, e)
  {
    StartClosed(bsize, e);
    if e > 1 {
      StartClosed(bsize, e - 1);
      PopcSmall(e - 2);
      MulGrows(e - 1, bsize - 8);
    } else {
      assert Start(bsize, 0) == 0;
    }
  }

  // The first estimate e is at most one block too high; the second one, j,
  // subtracts what the first one missed.
  lemma SecondEstimate(bsize: nat, size: nat, e: nat, r: nat, j: nat, s: nat)
    requires ValidBlockSize(bsize) && 0 < e < MAX_BLOCKS
    requires size == e * (bsize - 8) + r && r < bsize - 8
    requires size - 4 * (Popc(e - 1) + 2) == j * (bsize - 8) + s && s < bsize - 8
    ensures Start(bsize, j) <= size < Start(bsize, j + 1) && e - 1 <= j <= e
  {
    hide Popc, Start;
    var b, c := bsize - 8, 4 * (Popc(e - 1) + 2);
    if r >= c {
      SameQuotient(b, e, r - c, j, s);
      EstimateExact(bsize, size, e, r);
    } else {
      PopcSmall(e - 1);
      MulGrows(e - 1, b);
      SameQuotient(b, e - 1, b + r - c, j, s);
      EstimateHigh(bsize, size, e, r);
    }
  }

  lemma MissedFits(bsize: nat, size: nat, e: nat, r: nat)
    requires ValidBlockSize(bsize) && size < FILE_MAX
    requires size == e * (bsize - 8) + r && e > 0
    ensures e < MAX_BLOCKS && size >= 4 * (Popc(e - 1) + 2)
  {
    IndexBound(e, bsize - 8, size);
    PopcSmall(e - 1);
    MulGrows(e - 1, bsize - 8);
  }

  // The offset in closed form
  lemma OffsetClosed(bsize: nat, size: nat, q: nat, b: nat, skipped: int)
    requires ValidBlockSize(bsize) && b == bsize - 8 && skipped == b * q
    requires Start(bsize, q) <= size < Start(bsize, q + 1)
    ensures size - skipped - 4 * Popc(q) == size - Start(bsize, q) + PtrBytes(q)
  {
    if q > 0 {
      StartClosed(bsize, q);
      PopcPred(q);
      assert q * (bsize - 8) == q * b == b * q;
    }
  }

  lemma LocatedBound(bsize: nat, size: nat, i: nat)
    requires ValidBlockSize(bsize) && size < FILE_MAX
    requires Start(bsize, i) <= size < Start(bsize, i + 1)
    ensures i < MAX_BLOCKS
  {
    if i > 0 {
      StartClosed(bsize, i);
      MulGrows(i, bsize - 8);
      IndexBound(i, bsize - 8, size);
    }
  }

  lemma FirstBlock(bsize: nat, size: nat)
    requires ValidBlockSize(bsize) && size < bsize - 8
    ensures Start(bsize, 0) <= size < Start(bsize, 0 + 1)
  {
  }

  // The two estimates of lfs_ctz_index
  method BlockOf(bsize: nat, size: nat, b: nat) returns (i: nat)
    requires ValidBlockSize(bsize) && size < FILE_MAX && b == bsize - 8
    ensures Start(bsize, i) <= size < Start(bsize, i + 1)
  {
    ghost var r: nat;
    i, r := Div(size, b);
    if i == 0 {
      FirstBlock(bsize, size);
    } else {
      MissedFits(bsize, size, i, r);
      var j;
      ghost var s;
      j, s := Div(size - 4 * (Popc(i - 1) + 2), b);
      SecondEstimate(bsize, size, i, r, j, s);
      i := j;
    }
  }

  // lfs_ctz_index; for block 0 the offset is the position itself.
  method Index(bsize: nat, size: nat) returns (i: nat, off: nat)
    requires ValidBlockSize(bsize) && size < FILE_MAX
    ensures Located(bsize, size, i, off)
    ensures PtrBytes(i) <= off < bsize
    ensures i < MAX_BLOCKS
  {
    var b: nat := bsize - 2 * 4;
    i := BlockOf(bsize, size, b);
    LocatedBound(bsize, size, i);
    NextStart(bsize, i);
    var skipped := b * i;
    OffsetClosed(bsize, size, i, b, skipped);
    off := size - skipped - 4 * Popc(i);
  }

  lemma NextStart(bsize: nat, i: nat)
    ensures Start(bsize, i + 1) == Start(bsize, i) + bsize - PtrBytes(i)
  {
  }

  lemma PtrBytesSmall(n: nat)
    requires n < MAX_BLOCKS
    ensures PtrBytes(n) <= 100
  {
    if n > 0 {
      MaxBlocksIs();
      CtzBound(n, 25);
    }
  }

  lemma {:induction false} StartGrows(bsize: nat, i: nat, j: nat)
    requires ValidBlockSize(bsize) && i <= j <= MAX_BLOCKS
    ensures Start(bsize, i) + 28 * (j - i) <= Start(bsize, j)
  {
    if i < j {
      StartGrows(bsize, i, j - 1);
      PtrBytesSmall(j - 1);
    }
  }

  // No other block and offset hold the byte.
  lemma LocatedUnique(bsize: nat, size: nat, i: nat, off: nat, j: nat, off': nat)
    requires ValidBlockSize(bsize) && i < MAX_BLOCKS && j < MAX_BLOCKS
    requires Located(bsize, size, i, off) && Located(bsize, size, j, off')
    ensures i == j && off == off'
  {
    if i < j {
      StartGrows(bsize, i + 1, j);
    } else if j < i {
      StartGrows(bsize, j + 1, i);
    }
  }
}
