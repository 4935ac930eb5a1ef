// Growing a CTZ skip list by a fresh block: everything before the end is
// shared or copied, never written over.

module LfsExtend {
  import opened Bytes
  import opened Bits
  import opened LfsUtil
  import opened LfsCtzIndex
  import opened LfsCtz

  // lfs_bd_prog, as it shows through the program cache
  function Prog(disk: Disk, b: nat, off: nat, data: seq<byte>): Disk
    requires b in disk && off + |data| <= |disk[b]|
  {
    disk[b := disk[b][..off] + data + disk[b][off + |data|..]]
  }

  // Only block b differs.
  ghost predicate OnlyBlock(disk: Disk, disk': Disk, b: nat) {
    && disk'.Keys == disk.Keys && b in disk && |disk'[b]| == |disk[b]|
    && forall c {:trigger disk'[c]} {:trigger disk[c]} :: c in disk && c != b ==> disk'[c] == disk[c]
  }

  lemma OnlyBlockValid(disk: Disk, disk': Disk, b: nat, bsize: nat)
    requires ValidDisk(disk, bsize) && OnlyBlock(disk, disk', b)
    ensures ValidDisk(disk', bsize)
  {
    forall c | c in disk'
      ensures |disk'[c]| == bsize && c < BLOCK_NULL
    {
      assert c in disk;
      assert |disk[c]| == bsize;
    }
  }

  lemma OnlyBlockTrans(disk: Disk, disk': Disk, disk'': Disk, b: nat)
    requires OnlyBlock(disk, disk', b) && OnlyBlock(disk', disk'', b)
    ensures OnlyBlock(disk, disk'', b)
  {
    forall c | c in disk && c != b
      ensures disk''[c] == disk[c]
    {
      assert disk'[c] == disk[c];
    }
  }

  // A list that does not use the block stays as it is.
  lemma ListFrame(disk: Disk, disk': Disk, b: nat, bsize: nat, bs: seq<nat>)
    requires List(disk, bsize, bs) && OnlyBlock(disk, disk', b) && b !in bs
    ensures List(disk', bsize, bs)
  {
    OnlyBlockValid(disk, disk', b, bsize);
    forall k | 0 <= k < |bs|
      ensures Node(disk', bs, k)
    {
      assert Node(disk, bs, k);
      assert bs[k] in bs;
      assert disk'[bs[k]] == disk[bs[k]];
    }
  }

  lemma {:induction false} ContentFrame(disk: Disk, disk': Disk, b: nat, bs: seq<nat>)
    requires OnlyBlock(disk, disk', b) && b !in bs
    ensures Content(disk', bs) == Content(disk, bs)
  {
    if bs != [] {
      ContentFrame(disk, disk', b, bs[..|bs| - 1]);
      assert bs[|bs| - 1] in bs;
    }
  }

  lemma ListPrefix(disk: Disk, bsize: nat, bs: seq<nat>, n: nat)
    requires List(disk, bsize, bs) && n <= |bs|
    ensures List(disk, bsize, bs[..n])
  {
    forall k | 0 <= k < n
      ensures Node(disk, bs[..n], k)
    {
      assert Node(disk, bs, k);
    }
  }

  // A prefix of the list holds a prefix of the contents.
  lemma {:induction false} ContentPrefix(disk: Disk, bsize: nat, bs: seq<nat>, n: nat)
    requires ValidBlockSize(bsize) && ValidDisk(disk, bsize) && |bs| <= MAX_BLOCKS && n <= |bs|
    requires forall k :: 0 <= k < |bs| ==> bs[k] in disk
    ensures |Content(disk, bs[..n])| == Start(bsize, n) && Start(bsize, n) <= |Content(disk, bs)|
    ensures Content(disk, bs)[..Start(bsize, n)] == Content(disk, bs[..n])
  {
    ContentLength(disk, bsize, bs[..n]);
    ContentLength(disk, bsize, bs);
    StartGrows(bsize, n, |bs|);
    if n < |bs| {
      var front := bs[..|bs| - 1];
      ContentPrefix(disk, bsize, front, n);
      assert front[..n] == bs[..n];
      assert Content(disk, bs) == Content(disk, front) + Data(disk, bs[|bs| - 1], |bs| - 1);
    } else {
      assert bs[..n] == bs;
    }
  }

  // ---- Copying an incomplete last block --------------------------------------

  method CopyBlock(disk: Disk, bsize: nat, from: nat, to: nat, n: nat) returns (disk': Disk)
    requires ValidDisk(disk, bsize) && from in disk && to in disk && from != to && n <= bsize
    ensures disk' == disk[to := disk[from][..n] + disk[to][n..]]
    ensures OnlyBlock(disk, disk', to)
  {
    disk' := disk;
    assert disk[to] == disk[from][..0] + disk[to][0..];
    var i: nat := 0;
    while i < n
      invariant i <= n && disk' == disk[to := disk[from][..i] + disk[to][i..]]
    {
      disk' := Prog(disk', to, i, [disk'[from][i]]);
      CopyStep(disk[from], disk[to], i);
      i := i + 1;
    }
  }

  lemma CopyStep(src: seq<byte>, dst: seq<byte>, i: nat)
    requires i < |src| == |dst|
    ensures var d := src[..i] + dst[i..]; |d| == |dst| && d[..i] + [src[i]] + d[i + 1..] == src[..i + 1] + dst[i + 1..]
  {
  }

  // ---- Appending a block -------------------------------------------------------

  lemma WordProg(disk: Disk, b: nat, off: nat, v: nat, j: nat)
    requires b in disk && off + 4 <= |disk[b]| && v < 0x1_0000_0000
    requires j + 4 <= off || j == off
    ensures Word(Prog(disk, b, off, Le32(v))[b], j) == if j == off then v else Word(disk[b], j)
    ensures OnlyBlock(disk, Prog(disk, b, off, Le32(v)), b)
  {
    var block := Prog(disk, b, off, Le32(v))[b];
    if j == off {
      assert block[off..off + 4] == Le32(v);
      FromToLe32(v);
    } else {
      assert block[j..j + 4] == disk[b][j..j + 4];
    }
  }

  // The pointers up to slot i are in place.
  ghost predicate Pointers(block: seq<byte>, bs: seq<nat>, i: nat) {
    forall j: nat {:trigger Pow2(j)} :: j < i ==>
      Pow2(j) <= |bs| && Word(block, 4 * j) == bs[|bs| - Pow2(j)]
  }

  lemma PointersProg(disk: Disk, b: nat, bs: seq<nat>, i: nat, v: nat)
    requires b in disk && 4 * i + 4 <= |disk[b]| && v < 0x1_0000_0000
    requires Pow2(i) <= |bs| && v == bs[|bs| - Pow2(i)] && Pointers(disk[b], bs, i)
    ensures Pointers(Prog(disk, b, 4 * i, Le32(v))[b], bs, i + 1)
    ensures OnlyBlock(disk, Prog(disk, b, 4 * i, Le32(v)), b)
  {
    hide Word, Prog;
    WordProg(disk, b, 4 * i, v, 4 * i);
    forall j: nat | j < i + 1
      ensures Pow2(j) <= |bs| && Word(Prog(disk, b, 4 * i, Le32(v))[b], 4 * j) == bs[|bs| - Pow2(j)]
    {
      WordProg(disk, b, 4 * i, v, 4 * j);
    }
  }

  // Slot i of the block that pointer i leads to leads on to pointer i+1.
  lemma NextPointer(disk: Disk, bsize: nat, bs: seq<nat>, i: nat)
    requires List(disk, bsize, bs) && bs != [] && i < Ctz(|bs|)
    ensures Pow2(i + 1) <= |bs| && Pow2(i) <= |bs|
    ensures bs[|bs| - Pow2(i)] in disk && Word(disk[bs[|bs| - Pow2(i)]], 4 * i) == bs[|bs| - Pow2(i + 1)]
  {
    var n := |bs|;
    CtzDivides(n, i + 1);
    CtzSubLess(n, i);
    ReadPointer(disk, bsize, bs, n - Pow2(i), i);
  }

  method AppendBlock(disk: Disk, bsize: nat, head: nat, index: nat, nblock: nat, ghost bs: seq<nat>)
    returns (disk': Disk, off: nat)
    requires List(disk, bsize, bs) && 0 < |bs| < MAX_BLOCKS && index == |bs| && head == bs[index - 1]
    requires nblock in disk && nblock !in bs
    ensures OnlyBlock(disk, disk', nblock) && off == PtrBytes(index)
    ensures Pointers(disk'[nblock], bs, Ctz(index) + 1)
  {
    hide List, Word, Prog, PtrBytes, Pointers;
    PtrBytesSmall(index);
    CtzSmall(index);
    assert Pow2(0) == 1;
    NoPointers(disk[nblock], bs);
    ListBlocks(disk, bsize, bs);
    var zeros: nat := CtzOf(index);
    var skips := zeros + 1;
    var nhead: nat := head;
    disk' := disk;
    var i: nat := 0;
    while i < skips
      invariant i <= skips && OnlyBlock(disk, disk', nblock) && Pointers(disk'[nblock], bs, i)
      invariant i < skips ==> Pow2(i) <= |bs| && nhead == bs[|bs| - Pow2(i)]
    {
      PointersProg(disk', nblock, bs, i, nhead);
      ghost var before := disk';
      disk' := Prog(disk', nblock, 4 * i, Le32(nhead));
      OnlyBlockTrans(disk, before, disk', nblock);
      if i != skips - 1 {
        NextPointer(disk, bsize, bs, i);
        assert nhead in bs;
        nhead := Word(disk'[nhead], 4 * i);
      }
      i := i + 1;
    }
    off := 4 * skips;
    PtrBytesIs(index);
  }

  lemma CtzSmall(n: nat)
    requires 0 < n < MAX_BLOCKS
    ensures 4 * (Ctz(n) + 1) <= 100
  {
    PtrBytesSmall(n);
  }

  lemma PtrBytesIs(n: nat)
    requires n > 0
    ensures PtrBytes(n) == 4 * (Ctz(n) + 1)
  {
  }

  lemma NoPointers(block: seq<byte>, bs: seq<nat>)
    ensures Pointers(block, bs, 0)
  {
  }

  lemma ListBlocks(disk: Disk, bsize: nat, bs: seq<nat>)
    requires List(disk, bsize, bs)
    ensures ValidBlockSize(bsize) && ValidDisk(disk, bsize)
    ensures forall k :: 0 <= k < |bs| ==> bs[k] in disk && bs[k] < BLOCK_NULL
  {
    forall k | 0 <= k < |bs|
      ensures bs[k] in disk && bs[k] < BLOCK_NULL
    {
      assert Node(disk, bs, k);
    }
  }

  // ---- Lists with an open end ----------------------------------------------

  // The last block of w is being filled: the first pos bytes are there, the
  // next one goes to offset off of that block.
  ghost predicate Open(disk: Disk, bsize: nat, w: seq<nat>, block: nat, pos: nat, off: nat) {
    && List(disk, bsize, w) && w != []
    && block == w[|w| - 1] && block !in w[..|w| - 1]
    && Start(bsize, |w| - 1) <= pos <= Start(bsize, |w|)
    && off == pos - Start(bsize, |w| - 1) + PtrBytes(|w| - 1)
  }

  // Front and last block, put together
  lemma JoinList(disk: Disk, disk': Disk, bsize: nat, front: seq<nat>, b: nat)
    requires List(disk, bsize, front) && OnlyBlock(disk, disk', b) && b !in front && |front| < MAX_BLOCKS
    requires front != [] ==> Pointers(disk'[b], front, Ctz(|front|) + 1)
    ensures List(disk', bsize, front + [b])
    ensures Content(disk', front + [b]) == Content(disk, front) + Data(disk', b, |front|)
  {
    hide Word, Ctz, Pointers, Node, Data;
    ListFrame(disk, disk', b, bsize, front);
    ContentFrame(disk, disk', b, front);
    var w := front + [b];
    assert w[..|front|] == front;
    forall k | 0 <= k < |w|
      ensures Node(disk', w, k)
    {
      if k < |front| {
        assert Node(disk', front, k);
        NodeJoin(disk', front, b, k);
      } else {
        LastNode(disk', front, b);
      }
    }
  }

  lemma NodeJoin(disk: Disk, front: seq<nat>, b: nat, k: nat)
    requires k < |front| && Node(disk, front, k)
    ensures Node(disk, front + [b], k)
  {
  }

  lemma LastNode(disk: Disk, front: seq<nat>, b: nat)
    requires b in disk && (front != [] ==> Pointers(disk[b], front, Ctz(|front|) + 1))
    ensures Node(disk, front + [b], |front|)
  {
    hide Ctz, Word;
    var w := front + [b];
    forall j: nat | front != [] && j <= Ctz(|front|)
      ensures Pow2(j) <= |front| && Word(disk[w[|front|]], 4 * j) == w[|front| - Pow2(j)]
    {
    }
  }

  // The pointers of the last block, read off a list
  lemma NodePointers(disk: Disk, bsize: nat, bs: seq<nat>, n: nat)
    requires List(disk, bsize, bs) && 0 < n < |bs|
    ensures bs[n] in disk && Pointers(disk[bs[n]], bs[..n], Ctz(n) + 1)
  {
    hide Ctz, Word;
    assert Node(disk, bs, n);
    forall j: nat | j < Ctz(n) + 1
      ensures Pow2(j) <= n && Word(disk[bs[n]], 4 * j) == bs[..n][n - Pow2(j)]
    {
    }
  }

  // Blocks that agree on the pointer bytes agree on the pointers.
  lemma PointersSame(block: seq<byte>, block': seq<byte>, bs: seq<nat>, n: nat)
    requires Pointers(block, bs, n) && |block| == |block'| && 4 * n <= |block| && block[..4 * n] == block'[..4 * n]
    ensures Pointers(block', bs, n)
  {
    forall j: nat | j < n
      ensures Pow2(j) <= |bs| && Word(block', 4 * j) == bs[|bs| - Pow2(j)]
    {
      assert block[4 * j..4 * j + 4] == block[..4 * n][4 * j..4 * j + 4];
      assert block'[4 * j..4 * j + 4] == block'[..4 * n][4 * j..4 * j + 4];
    }
  }

  // Programming at the end adds to the contents, and spoils no pointer.
  lemma OpenProg(disk: Disk, bsize: nat, w: seq<nat>, block: nat, pos: nat, off: nat, data: seq<byte>, disk': Disk)
    requires Open(disk, bsize, w, block, pos, off) && off + |data| <= bsize
    requires block in disk && |disk[block]| == bsize && disk' == Prog(disk, block, off, data)
    ensures OnlyBlock(disk, disk', block)
    ensures Open(disk', bsize, w, block, pos + |data|, off + |data|)
    ensures pos <= |Content(disk, w)| && pos + |data| <= |Content(disk', w)|
    ensures Content(disk', w)[..pos + |data|] == Content(disk, w)[..pos] + data
  {
    hide Content, Data, Pointers, Start, PtrBytes;
    var n: nat, front := |w| - 1, w[..|w| - 1];
    ListBlocks(disk, bsize, w);
    assert w == front + [block];
    ListPrefix(disk, bsize, w, n);
    NextStart(bsize, n);
    if n > 0 {
      NodePointers(disk, bsize, w, n);
      PtrBytesIs(n);
      PointersSame(disk[block], disk'[block], front, Ctz(n) + 1);
    }
    JoinList(disk, disk', bsize, front, block);
    JoinList(disk, disk, bsize, front, block);
    OpenContent(disk, disk', bsize, front, block, pos, off, data);
  }

  lemma TailPrefix(c: seq<byte>, block: seq<byte>, p: nat, off: nat)
    requires p <= off <= |block|
    ensures (c + block[p..])[..|c| + off - p] == c + block[..off][p..]
  {
    assert block[p..][..off - p] == block[..off][p..];
  }

  lemma ProgPrefix(b: seq<byte>, off: nat, data: seq<byte>, p: nat)
    requires p <= off && off + |data| <= |b|
    ensures (b[..off] + data + b[off + |data|..])[..off + |data|][p..] == b[..off][p..] + data
  {
    assert (b[..off] + data + b[off + |data|..])[..off + |data|] == b[..off] + data;
  }

  lemma OpenContent(disk: Disk, disk': Disk, bsize: nat, front: seq<nat>, block: nat, pos: nat, off: nat,
                    data: seq<byte>)
    requires ValidDisk(disk, bsize) && block in disk && off + |data| <= bsize && |front| < MAX_BLOCKS
    requires ValidBlockSize(bsize)
    requires forall k :: 0 <= k < |front| ==> front[k] in disk
    requires disk' == Prog(disk, block, off, data)
    requires Content(disk, front + [block]) == Content(disk, front) + Data(disk, block, |front|)
    requires Content(disk', front + [block]) == Content(disk, front) + Data(disk', block, |front|)
    requires Start(bsize, |front|) <= pos && off == pos - Start(bsize, |front|) + PtrBytes(|front|)
    ensures pos <= |Content(disk, front + [block])| && pos + |data| <= |Content(disk', front + [block])|
    ensures Content(disk', front + [block])[..pos + |data|] == Content(disk, front + [block])[..pos] + data
  {
    hide Content, Start, PtrBytes;
    ContentLength(disk, bsize, front);
    PtrBytesSmall(|front|);
    var p, c := PtrBytes(|front|), Content(disk, front);
    var b, b' := disk[block], disk'[block];
    TailPrefix(c, b, p, off);
    TailPrefix(c, b', p, off + |data|);
    ProgPrefix(b, off, data, p);
  }

  // ---- lfs_ctz_extend ----------------------------------------------------------

  lemma ExtendEmpty(disk: Disk, bsize: nat, b: nat)
    requires ValidBlockSize(bsize) && ValidDisk(disk, bsize) && b in disk
    ensures Open(disk, bsize, [b], b, 0, 0)
  {
    JoinList(disk, disk, bsize, [], b);
    assert [] + [b] == [b];
    NextStart(bsize, 0);
    PtrBytesSmall(0);
  }

  // The copy shares all but the last block.
  lemma ExtendCopy(disk: Disk, disk': Disk, bsize: nat, bs: seq<nat>, head: nat, size: nat, nblock: nat, off: nat)
    requires IsFile(disk, bsize, bs, head, size) && size > 0 && off > 0 && nblock !in bs && nblock in disk
    requires head in disk
    requires Located(bsize, size - 1, |bs| - 1, off - 1) && PtrBytes(|bs| - 1) < off <= bsize
    requires OnlyBlock(disk, disk', nblock) && |disk[head]| == bsize && disk'[nblock][..off] == disk[head][..off]
    ensures Open(disk', bsize, bs[..|bs| - 1] + [nblock], nblock, size, off)
    ensures size <= |Content(disk', bs[..|bs| - 1] + [nblock])|
    ensures Content(disk', bs[..|bs| - 1] + [nblock])[..size] == FileData(disk, bs, size)
  {
    hide Content, Data, Pointers, Start, PtrBytes, Node, Ctz;
    var n: nat, front := |bs| - 1, bs[..|bs| - 1];
    ListBlocks(disk, bsize, bs);
    OnlyBlockValid(disk, disk', nblock, bsize);
    assert bs == front + [head];
    ListPrefix(disk, bsize, bs, n);
    if n > 0 {
      NodePointers(disk, bsize, bs, n);
      PtrBytesIs(n);
      assert disk[head][..4 * (Ctz(n) + 1)] == disk[head][..off][..4 * (Ctz(n) + 1)];
      assert disk'[nblock][..4 * (Ctz(n) + 1)] == disk'[nblock][..off][..4 * (Ctz(n) + 1)];
      PointersSame(disk[head], disk'[nblock], front, Ctz(n) + 1);
    }
    JoinList(disk, disk', bsize, front, nblock);
    ExtendCopyContent(disk, disk', bsize, front, head, size, nblock, off);
    assert (front + [nblock])[..n] == front;
  }

  lemma ExtendCopyContent(disk: Disk, disk': Disk, bsize: nat, front: seq<nat>, head: nat, size: nat, nblock: nat,
                          off: nat)
    requires ValidBlockSize(bsize) && ValidDisk(disk, bsize) && ValidDisk(disk', bsize) && |front| < MAX_BLOCKS
    requires head in disk && nblock in disk' && PtrBytes(|front|) <= off <= bsize
    requires disk'[nblock][..off] == disk[head][..off]
    requires forall k :: 0 <= k < |front| ==> front[k] in disk
    requires Start(bsize, |front|) <= size && off == size - Start(bsize, |front|) + PtrBytes(|front|)
    requires Content(disk', front + [nblock]) == Content(disk, front) + Data(disk', nblock, |front|)
    ensures size <= |Content(disk', front + [nblock])|
    ensures Content(disk', front + [nblock])[..size] == FileData(disk, front + [head], size)
  {
    ContentSnoc(disk, front, head);
    hide Start, PtrBytes, Content;
    ContentLength(disk, bsize, front);
    CopyTail(Content(disk, front), disk[head], disk'[nblock], PtrBytes(|front|), off, size);
  }

  lemma ContentSnoc(disk: Disk, front: seq<nat>, b: nat)
    ensures Content(disk, front + [b]) == Content(disk, front) + Data(disk, b, |front|)
  {
    assert (front + [b])[..|front|] == front;
  }

  lemma CopyTail(c: seq<byte>, block: seq<byte>, block': seq<byte>, p: nat, off: nat, size: nat)
    requires |block| == |block'| && p <= off <= |block| && block'[..off] == block[..off] && size + p == |c| + off
    ensures (c + block[p..])[..size] == (c + block'[p..])[..size]
  {
    TailPrefix(c, block, p, off);
    TailPrefix(c, block', p, off);
  }

  lemma ExtendAppend(disk: Disk, disk': Disk, bsize: nat, bs: seq<nat>, size: nat, nblock: nat, off: nat)
    requires List(disk, bsize, bs) && 0 < |bs| < MAX_BLOCKS && size == Start(bsize, |bs|) && nblock !in bs
    requires OnlyBlock(disk, disk', nblock) && off == PtrBytes(|bs|) && Pointers(disk'[nblock], bs, Ctz(|bs|) + 1)
    ensures Open(disk', bsize, bs + [nblock], nblock, size, off)
    ensures size <= |Content(disk', bs + [nblock])|
    ensures Content(disk', bs + [nblock])[..size] == FileData(disk, bs, size)
  {
    hide Content, Data, Pointers, PtrBytes, Start, Node, Ctz;
    ListBlocks(disk, bsize, bs);
    ContentLength(disk, bsize, bs);
    JoinList(disk, disk', bsize, bs, nblock);
    assert (bs + [nblock])[..|bs|] == bs;
    NextStart(bsize, |bs|);
    PtrBytesSmall(|bs|);
  }

  method Extend(disk: Disk, bsize: nat, nblock: nat, head: nat, size: nat, ghost bs: seq<nat>)
    returns (disk': Disk, off: nat, ghost w: seq<nat>)
    requires IsFile(disk, bsize, bs, head, size) && nblock in disk && nblock !in bs
    ensures OnlyBlock(disk, disk', nblock)
    ensures Open(disk', bsize, w, nblock, size, off) && off < bsize
    ensures forall b {:trigger b in w} :: b in w ==> b == nblock || b in bs
    ensures size <= |Content(disk', w)| && Content(disk', w)[..size] == FileData(disk, bs, size)
  {
    hide Open, Content, Data, Pointers, PtrBytes, Start, Node, Ctz, FileData, Located;
    disk' := disk;
    if size == 0 {
      ExtendEmpty(disk, bsize, nblock);
      EmptyContent(disk, nblock, bs);
      return disk, 0, [nblock];
    }
    var index: nat, noff: nat := Index(bsize, size - 1);
    LastBlock(bsize, size, index, noff, |bs| - 1);
    noff := noff + 1;
    ListBlocks(disk, bsize, bs);
    assert head in bs;
    if noff != bsize {
      disk' := CopyBlock(disk, bsize, head, nblock, noff);
      ExtendCopy(disk, disk', bsize, bs, head, size, nblock, noff);
      w := bs[..|bs| - 1] + [nblock];
    } else {
      BlockFull(bsize, size, index, noff - 1);
      disk', noff := AppendBlock(disk, bsize, head, index + 1, nblock, bs);
      ExtendAppend(disk, disk', bsize, bs, size, nblock, noff);
      PtrBytesSmall(index + 1);
      w := bs + [nblock];
    }
    off := noff;
  }

  lemma EmptyContent(disk: Disk, b: nat, bs: seq<nat>)
    ensures |Content(disk, [b])| >= 0 && Content(disk, [b])[..0] == FileData(disk, bs, 0)
  {
  }

  // When the last byte is the last of its block, the next one starts a block.
  lemma BlockFull(bsize: nat, size: nat, i: nat, off: nat)
    requires ValidBlockSize(bsize) && 0 < size < FILE_MAX && i < MAX_BLOCKS
    requires Located(bsize, size - 1, i, off) && off + 1 == bsize
    ensures size == Start(bsize, i + 1) && i + 1 < MAX_BLOCKS
  {
    hide Start, PtrBytes;
    NextStart(bsize, i);
    NextStart(bsize, i + 1);
    FullBound(bsize, i);
    LocatedBound(bsize, size, i + 1);
  }

  lemma FullBound(bsize: nat, i: nat)
    requires ValidBlockSize(bsize) && i < MAX_BLOCKS
    ensures PtrBytes(i + 1) < bsize
  {
    if i + 1 < MAX_BLOCKS {
      PtrBytesSmall(i + 1);
    } else {
      MaxBlocksIs();
      CtzPow2(25);
    }
  }

  lemma {:induction false} CtzPow2(k: nat)
    ensures Ctz(Pow2(k)) == k
  {
    if k > 0 {
      CtzPow2(k - 1);
    }
  }
}
