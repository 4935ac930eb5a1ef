// CTZ skip lists: the blocks of a file, linked backwards, block n holding
// pointers to the blocks n - 2^k for all k up to ctz(n).

module LfsCtz {
  import opened Bytes
  import opened Bits
  import opened LfsUtil
  import opened LfsCtzIndex

  // The blocks of the device by address
  type Disk = map<nat, seq<byte>>

  const BLOCK_NULL: nat := 0xffff_ffff

  ghost predicate ValidDisk(disk: Disk, bsize: nat) {
    forall b {:trigger b in disk} :: b in disk ==> |disk[b]| == bsize && b < BLOCK_NULL
  }

  // The 32-bit word at an offset of a block
  function Word(block: seq<byte>, off: nat): nat {
    if off + 4 <= |block| then FromLe32(block[off..off + 4]) else 0
  }

  // Block k of the list bs carries the pointers it should.
  ghost predicate Node(disk: Disk, bs: seq<nat>, k: nat)
    requires k < |bs|
  {
    && bs[k] in disk
    && (k > 0 ==> forall j: nat {:trigger Pow2(j)} :: j <= Ctz(k) ==>
                    Pow2(j) <= k && Word(disk[bs[k]], 4 * j) == bs[k - Pow2(j)])
  }

  ghost predicate List(disk: Disk, bsize: nat, bs: seq<nat>) {
    && ValidBlockSize(bsize) && ValidDisk(disk, bsize) && |bs| <= MAX_BLOCKS
    && forall k :: 0 <= k < |bs| ==> Node(disk, bs, k)
  }

  // bs is the list of a file of the given head and size.
  ghost predicate IsFile(disk: Disk, bsize: nat, bs: seq<nat>, head: nat, size: nat) {
    && List(disk, bsize, bs) && size < FILE_MAX
    && (if size == 0 then bs == []
        else bs != [] && head == bs[|bs| - 1] && Start(bsize, |bs| - 1) < size <= Start(bsize, |bs|))
  }

  // ---- Contents ---------------------------------------------------------

  // The data of all blocks of the list, without the pointers
  function Content(disk: Disk, bs: seq<nat>): seq<byte> {
    if bs == [] then []
    else Content(disk, bs[..|bs| - 1]) + Data(disk, bs[|bs| - 1], |bs| - 1)
  }

  function Data(disk: Disk, b: nat, k: nat): seq<byte> {
    if b in disk && PtrBytes(k) <= |disk[b]| then disk[b][PtrBytes(k)..] else []
  }

  // The bytes of a file
  function FileData(disk: Disk, bs: seq<nat>, size: nat): seq<byte> {
    var c := Content(disk, bs);
    if size <= |c| then c[..size] else c
  }

  lemma {:induction false} ContentLength(disk: Disk, bsize: nat, bs: seq<nat>)
    requires ValidBlockSize(bsize) && ValidDisk(disk, bsize) && |bs| <= MAX_BLOCKS
    requires forall k :: 0 <= k < |bs| ==> bs[k] in disk
    ensures |Content(disk, bs)| == Start(bsize, |bs|)
  {
    if bs != [] {
      ContentLength(disk, bsize, bs[..|bs| - 1]);
      PtrBytesSmall(|bs| - 1);
    }
  }

  // The data of block n follows that of the blocks before it.
  lemma ContentLast(disk: Disk, bsize: nat, bs: seq<nat>, p: nat)
    requires ValidBlockSize(bsize) && ValidDisk(disk, bsize) && 0 < |bs| <= MAX_BLOCKS
    requires forall k :: 0 <= k < |bs| ==> bs[k] in disk
    requires p < Start(bsize, |bs|)
    ensures var n := |bs| - 1;
      && |Content(disk, bs)| == Start(bsize, |bs|) && |Content(disk, bs[..n])| == Start(bsize, n)
      && (if p < Start(bsize, n) then Content(disk, bs)[p] == Content(disk, bs[..n])[p]
          else var off := p - Start(bsize, n) + PtrBytes(n);
            off < bsize && Content(disk, bs)[p] == disk[bs[n]][off])
  {
    ContentLength(disk, bsize, bs);
    ContentLength(disk, bsize, bs[..|bs| - 1]);
    PtrBytesSmall(|bs| - 1);
  }

  // Byte p of the contents is where the index says.
  lemma {:induction false} ContentAt(disk: Disk, bsize: nat, bs: seq<nat>, p: nat, i: nat, off: nat)
    requires ValidBlockSize(bsize) && ValidDisk(disk, bsize) && |bs| <= MAX_BLOCKS
    requires forall k :: 0 <= k < |bs| ==> bs[k] in disk
    requires i < |bs| && Located(bsize, p, i, off)
    ensures p < |Content(disk, bs)| && off < bsize && Content(disk, bs)[p] == disk[bs[i]][off]
  {
    hide Content, Data, PtrBytes, Start;
    var n: nat := |bs| - 1;
    StartGrows(bsize, i + 1, |bs|);
    ContentLast(disk, bsize, bs, p);
    if i < n {
      StartGrows(bsize, i + 1, n);
      ContentAt(disk, bsize, bs[..n], p, i, off);
    }
  }

  // ---- Finding ------------------------------------------------------------

  // How many pointers are read at most from block `current` to `target`, in a
  // list whose last block has an index below 2^(top+1): first the steps grow,
  // as the lowest one bit is cleared each time, then they shrink.
  function ReadsLeft(top: nat, current: nat, target: nat): nat
    requires target <= current
  {
    if current == target then 0
    else if Ctz(current) > Log2(current - target) then Log2(current - target) + 1
    else if Ctz(current) <= top then (top - Ctz(current) + 1) + (top + 1)
    else top + 2
  }

  function SkipOf(current: nat, target: nat): nat
    requires target < current
  {
    var far := Log2(current - target);
    if Ctz(current) < far then Ctz(current) else far
  }

  lemma {:induction false} Log2Sub(d: nat)
    requires d > 0 && d > Pow2(Log2(d))
    ensures Log2(d - Pow2(Log2(d))) < Log2(d)
  {
    var l := Log2(d);
    Log2Bounds(d);
    var r: nat := d - Pow2(l);
    Log2Bounds(r);
    if Log2(r) >= l {
      Pow2Monotone(l, Log2(r));
    }
  }

  lemma {:induction false} CtzLog(n: nat)
    requires n > 0
    ensures Ctz(n) <= Log2(n)
  {
    if n % 2 == 0 {
      CtzLog(n / 2);
    }
  }

  // Every read uses up at least one of them.
  lemma {:induction false} ReadsDecrease(top: nat, current: nat, target: nat)
    requires target < current && Log2(current) <= top
    ensures var s := SkipOf(current, target);
      && s <= Ctz(current) && Pow2(s) <= current - target
      && ReadsLeft(top, current - Pow2(s), target) < ReadsLeft(top, current, target)
  {
    var d: nat := current - target;
    var s := SkipOf(current, target);
    Log2Bounds(d);
    Pow2Monotone(s, Log2(d));
    Log2Monotone(d, current);
    CtzLog(current);
    var next: nat := current - Pow2(s);
    if next > target {
      Log2Monotone(next - target, d);
      if Ctz(current) <= Log2(d) {
        CtzSubSame(current);
        Log2Monotone(next, current);
        CtzLog(next);
      } else {
        CtzSubLess(current, s);
        Log2Sub(d);
      }
    }
  }

  lemma {:induction false} ReadsInitially(current: nat, target: nat)
    requires target < current
    ensures ReadsLeft(Log2(current), current, target) <= 2 * (Log2(current) + 1)
  {
    Log2Monotone(current - target, current);
    CtzLog(current);
  }

  // lfs_ctz_find
  method Find(disk: Disk, bsize: nat, head: nat, size: nat, pos: nat, ghost bs: seq<nat>)
    returns (block: nat, off: nat, ghost i: nat, ghost lookups: nat)
    requires IsFile(disk, bsize, bs, head, size)
    requires size > 0 ==> pos < size
    ensures size == 0 ==> block == BLOCK_NULL && off == 0
    ensures size > 0 ==> i < |bs| && Located(bsize, pos, i, off) && block == bs[i] && PtrBytes(i) <= off < bsize
    ensures lookups <= if |bs| < 2 then 0 else 2 * (Log2(|bs| - 1) + 1)
  {
    hide Located, Start, Log2, Ctz, PtrBytes, Node;
    lookups := 0;
    if size == 0 {
      return BLOCK_NULL, 0, 0, 0;
    }
    var current: nat, o: nat := Index(bsize, size - 1);
    LastBlock(bsize, size, current, o, |bs| - 1);
    var target: nat;
    target, off := Index(bsize, pos);
    IndexMonotone(bsize, pos, size - 1, target, off, current, o);
    i := target;
    ghost var top := if current > 0 then Log2(current) else 0;
    ghost var budget := ReadsLeft(top, current, target);
    if current > target {
      ReadsInitially(current, target);
    }
    block := head;
    while current > target
      invariant target <= current < |bs| && block == bs[current]
      invariant current > target ==> Log2(current) <= top
      invariant lookups + ReadsLeft(top, current, target) <= budget
      decreases current
    {
      ghost var before: nat := ReadsLeft(top, current, target);
      current, block := Follow(disk, bsize, bs, block, current, target, top);
      lookups := lookups + 1;
    }
  }

  // One read of lfs_ctz_find
  method Follow(disk: Disk, bsize: nat, ghost bs: seq<nat>, block: nat, current: nat, target: nat, ghost top: nat)
    returns (next: nat, block': nat)
    requires List(disk, bsize, bs) && target < current < |bs| && block == bs[current] && Log2(current) <= top
    ensures target <= next < current && block' == bs[next] && (next > target ==> Log2(next) <= top)
    ensures ReadsLeft(top, next, target) < ReadsLeft(top, current, target)
  {
    hide ReadsLeft, Log2, Ctz, Word;
    ReadsDecrease(top, current, target);
    var s := Skip(current, target);
    ReadPointer(disk, bsize, bs, current, s);
    block' := Word(disk[block], 4 * s);
    next := current - Pow2(s);
    if next > target {
      Log2Monotone(next, current);
    }
  }

  lemma ReadPointer(disk: Disk, bsize: nat, bs: seq<nat>, k: nat, j: nat)
    requires List(disk, bsize, bs) && 0 < k < |bs| && j <= Ctz(k)
    ensures bs[k] in disk && Pow2(j) <= k && Word(disk[bs[k]], 4 * j) == bs[k - Pow2(j)]
  {
    assert Node(disk, bs, k);
    assert Pow2(j) > 0;
  }

  // The larger of the two distances a pointer can cover
  method Skip(current: nat, target: nat) returns (s: nat)
    requires target < current < MAX_BLOCKS
    ensures s == SkipOf(current, target)
  {
    var far := Npw2(current - target + 1);
    var low := CtzOf(current);
    s := if far - 1 < low then far - 1 else low;
  }

  lemma LastBlock(bsize: nat, size: nat, i: nat, off: nat, n: nat)
    requires ValidBlockSize(bsize) && size > 0 && Located(bsize, size - 1, i, off) && i < MAX_BLOCKS
    requires n < MAX_BLOCKS && Start(bsize, n) < size <= Start(bsize, n + 1)
    ensures i == n
  {
    LocatedUnique(bsize, size - 1, i, off, n, size - 1 - Start(bsize, n) + PtrBytes(n));
  }

  lemma IndexMonotone(bsize: nat, p: nat, q: nat, i: nat, off: nat, j: nat, off': nat)
    requires ValidBlockSize(bsize) && p <= q && i < MAX_BLOCKS && j < MAX_BLOCKS
    requires Located(bsize, p, i, off) && Located(bsize, q, j, off')
    ensures i <= j
  {
    if j < i {
      StartGrows(bsize, j + 1, i);
    }
  }

  // ---- Traversing -----------------------------------------------------------

  // lfs_ctz_traverse: the blocks in the order it visits them
  method Traverse(disk: Disk, bsize: nat, head: nat, size: nat, ghost bs: seq<nat>) returns (visited: seq<nat>)
    requires IsFile(disk, bsize, bs, head, size)
    ensures |visited| == |bs| && forall k :: 0 <= k < |bs| ==> visited[k] == bs[|bs| - 1 - k]
  {
    visited := [];
    if size == 0 {
      return;
    }
    var index: nat, o: nat := Index(bsize, size - 1);
    LastBlock(bsize, size, index, o, |bs| - 1);
    var block := head;
    while true
      invariant index < |bs| && |visited| == |bs| - 1 - index
      invariant forall k :: 0 <= k < |visited| ==> visited[k] == bs[|bs| - 1 - k]
      invariant block == bs[index]
      decreases index
    {
      visited := visited + [block];
      if index == 0 {
        return;
      }
      ReadPointer(disk, bsize, bs, index, 0);
      assert Pow2(0) == 1 && Pow2(1) == 2;
      var count := 2 - index % 2;
      if count == 2 {
        ReadPointer(disk, bsize, bs, index, 1);
        visited := visited + [Word(disk[block], 0)];
        block := Word(disk[block], 4);
      } else {
        block := Word(disk[block], 0);
      }
      index := index - count;
    }
  }
}
