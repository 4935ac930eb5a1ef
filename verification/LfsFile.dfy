// Reading and writing a file that is stored as a CTZ skip list.  Writes build a
// second list next to the one the metadata knows, flushing completes it, and
// only a sync makes the metadata refer to it.

module LfsFile {
  import opened Options
  import opened Sequences
  import opened Bytes
  import opened LfsCtzIndex
  import opened LfsCtz
  import opened LfsExtend
  import opened LfsAlloc

  // ---- What the operations mean ----------------------------------------------

  function Zeros(n: nat): (z: seq<byte>)
    ensures |z| == n && forall i :: 0 <= i < n ==> z[i] == 0
  {
    seq(n, _ => 0)
  }

  // The contents of a file that is being written at pos: the new list up to
  // there, then what the old one holds
  function ViewOf(disk: Disk, cur: seq<nat>, size: nat, writing: bool, w: seq<nat>, pos: nat): seq<byte> {
    var was := FileData(disk, cur, size);
    if !writing || pos > |Content(disk, w)| then was
    else Content(disk, w)[..pos] + if pos < |was| then was[pos..] else []
  }

  // ---- Reading ------------------------------------------------------------------

  // The reader stands at pos, in block ri of the list.
  ghost predicate Reading(bsize: nat, bs: seq<nat>, ri: nat, block: nat, off: nat, pos: nat) {
    && ri < |bs| && block == bs[ri] && off <= bsize
    && Start(bsize, ri) <= pos && off == pos - Start(bsize, ri) + PtrBytes(ri)
  }

  lemma ReadingLocated(bsize: nat, bs: seq<nat>, ri: nat, block: nat, off: nat, pos: nat)
    requires Reading(bsize, bs, ri, block, off, pos) && off < bsize
    ensures Located(bsize, pos, ri, off)
  {
    NextStart(bsize, ri);
  }

  lemma {:induction false} ContentRange(disk: Disk, bsize: nat, bs: seq<nat>, p: nat, i: nat, off: nat, d: nat)
    requires List(disk, bsize, bs) && i < |bs| && Located(bsize, p, i, off) && off + d <= bsize
    ensures p + d <= |Content(disk, bs)| && bs[i] in disk && |disk[bs[i]]| == bsize
    ensures Content(disk, bs)[p..p + d] == disk[bs[i]][off..off + d]
  {
    hide Content, Start, PtrBytes, Node;
    ListBlocks(disk, bsize, bs);
    NextStart(bsize, i);
    ContentLength(disk, bsize, bs);
    StartGrows(bsize, i + 1, |bs|);
    var x, y := Content(disk, bs)[p..p + d], disk[bs[i]][off..off + d];
    forall k: nat | k < |x|
      ensures x[k] == y[k]
    {
      ContentAt(disk, bsize, bs, p + k, i, off + k);
    }
  }

  // lfs_file_flushedread on the list bs
  method FlushedRead(disk: Disk, bsize: nat, head: nat, size: nat, pos: nat, block: nat, off: nat, reading: bool,
                     n: nat,
                     ghost bs: seq<nat>, ghost ri: nat)
    returns (data: seq<byte>, pos': nat, block': nat, off': nat, reading': bool, ghost ri': nat)
    requires IsFile(disk, bsize, bs, head, size)
    requires reading ==> Reading(bsize, bs, ri, block, off, pos)
    ensures |FileData(disk, bs, size)| == size
    ensures var upto := if pos + n < size then pos + n else size;
      if pos >= size then data == [] && pos' == pos
      else data == FileData(disk, bs, size)[pos..upto] && pos' == upto
    ensures reading' ==> Reading(bsize, bs, ri', block', off', pos')
  {
    hide Content, Start, PtrBytes, Node, Located, List, FileData;
    data, pos', block', off', reading', ri' := [], pos, block, off, reading, ri;
    FileDataLength(disk, bsize, bs, head, size);
    if pos >= size {
      return;
    }
    var nsize: nat := if n < size - pos then n else size - pos;
    ghost var upto := pos + nsize;
    ghost var all := FileData(disk, bs, size);
    while nsize > 0
      invariant pos <= pos' && pos' + nsize == upto <= size
      invariant data == all[pos..pos']
      invariant reading' ==> Reading(bsize, bs, ri', block', off', pos')
      decreases nsize
    {
      if !reading' || off' == bsize {
        ghost var lookups;
        block', off', ri', lookups := Find(disk, bsize, head, size, pos', bs);
        reading' := true;
        LocatedReading(bsize, bs, ri', block', off', pos');
      }
      var diff: nat := if nsize < bsize - off' then nsize else bsize - off';
      var part := ReadBlock(disk, bsize, bs, head, size, ri', block', off', pos', diff);
      data := data + part;
      Adjacent(all, pos, pos', pos' + diff);
      pos', off', nsize := pos' + diff, off' + diff, nsize - diff;
    }
  }

  lemma LocatedReading(bsize: nat, bs: seq<nat>, ri: nat, block: nat, off: nat, pos: nat)
    requires ri < |bs| && block == bs[ri] && Located(bsize, pos, ri, off) && off < bsize
    ensures Reading(bsize, bs, ri, block, off, pos)
  {
  }

  lemma FileDataLength(disk: Disk, bsize: nat, bs: seq<nat>, head: nat, size: nat)
    requires IsFile(disk, bsize, bs, head, size)
    ensures |FileData(disk, bs, size)| == size && size <= |Content(disk, bs)| == Start(bsize, |bs|)
  {
    hide Node;
    ListBlocks(disk, bsize, bs);
    ContentLength(disk, bsize, bs);
  }

  // The part of a read that lies in one block
  method ReadBlock(disk: Disk, bsize: nat, ghost bs: seq<nat>, ghost head: nat, ghost size: nat, ghost ri: nat,
                   block: nat, off: nat,
                   ghost pos: nat, diff: nat)
    returns (part: seq<byte>)
    requires IsFile(disk, bsize, bs, head, size) && Reading(bsize, bs, ri, block, off, pos) && off < bsize
    requires off + diff <= bsize && pos + diff <= size
    ensures |FileData(disk, bs, size)| == size && part == FileData(disk, bs, size)[pos..pos + diff]
    ensures Reading(bsize, bs, ri, block, off + diff, pos + diff)
  {
    hide Content, Start, PtrBytes, Node, Located, List;
    FileDataLength(disk, bsize, bs, head, size);
    ReadingLocated(bsize, bs, ri, block, off, pos);
    ContentRange(disk, bsize, bs, pos, ri, off, diff);
    SlicePrefix(Content(disk, bs), pos, pos + diff, size);
    part := disk[block][off..off + diff];
  }

  // ---- Lists side by side ------------------------------------------------------

  // The device of n blocks holds the list the metadata knows and the list of
  // the open file; their blocks and those of all other files are live.
  ghost predicate Lists(disk: Disk, bsize: nat, n: nat, others: seq<nat>, saved: seq<nat>, savedHead: nat,
                        savedSize: nat,
                        cur: seq<nat>, head: nat, size: nat, live: set<nat>) {
    && ValidBlockSize(bsize) && (forall b: nat {:trigger b in disk} :: b in disk <==> b < n)
    && IsFile(disk, bsize, saved, savedHead, savedSize)
    && IsFile(disk, bsize, cur, head, size)
    && (forall b {:trigger b in others} :: b in others ==> b < n)
    && Elements(others) + Elements(saved) + Elements(cur) <= live
  }

  ghost predicate Unshared(b: nat, others: seq<nat>, saved: seq<nat>, cur: seq<nat>) {
    b !in others && b !in saved && b !in cur
  }

  lemma FileFrame(disk: Disk, disk': Disk, b: nat, bsize: nat, bs: seq<nat>, head: nat, size: nat)
    requires IsFile(disk, bsize, bs, head, size) && OnlyBlock(disk, disk', b) && b !in bs
    ensures IsFile(disk', bsize, bs, head, size) && FileData(disk', bs, size) == FileData(disk, bs, size)
  {
    hide Content, Node;
    ListFrame(disk, disk', b, bsize, bs);
    ContentFrame(disk, disk', b, bs);
  }

  // Writing to a block of neither list disturbs nothing.
  lemma ListsFrame(disk: Disk, disk': Disk, b: nat, bsize: nat, n: nat, others: seq<nat>,
                   saved: seq<nat>, savedHead: nat, savedSize: nat, cur: seq<nat>, head: nat, size: nat, live: set<nat>)
    requires Lists(disk, bsize, n, others, saved, savedHead, savedSize, cur, head, size, live)
    requires OnlyBlock(disk, disk', b) && Unshared(b, others, saved, cur)
    ensures Lists(disk', bsize, n, others, saved, savedHead, savedSize, cur, head, size, live)
    ensures FileData(disk', saved, savedSize) == FileData(disk, saved, savedSize)
    ensures FileData(disk', cur, size) == FileData(disk, cur, size)
  {
    hide IsFile, FileData, Elements;
    FileFrame(disk, disk', b, bsize, saved, savedHead, savedSize);
    FileFrame(disk, disk', b, bsize, cur, head, size);
    forall c: nat
      ensures c in disk' <==> c < n
    {
      assert c in disk.Keys <==> c in disk'.Keys;
    }
  }

  lemma ListBlocksIn(disk: Disk, bsize: nat, bs: seq<nat>, n: nat)
    requires List(disk, bsize, bs) && forall b: nat {:trigger b in disk} :: b in disk <==> b < n
    ensures forall b {:trigger b in bs} :: b in bs ==> b < n
  {
    hide List;
    ListBlocks(disk, bsize, bs);
  }

  // The first pos bytes of a file are a file.
  lemma PrefixFile(disk: Disk, bsize: nat, bs: seq<nat>, head: nat, size: nat, pos: nat, i: nat, off: nat)
    requires IsFile(disk, bsize, bs, head, size) && 0 < pos <= size
    requires i < |bs| && Located(bsize, pos - 1, i, off)
    ensures IsFile(disk, bsize, bs[..i + 1], bs[i], pos)
    ensures |FileData(disk, bs, size)| == size && FileData(disk, bs[..i + 1], pos) == FileData(disk, bs, size)[..pos]
  {
    hide Content, Node, Start, PtrBytes;
    ListPrefix(disk, bsize, bs, i + 1);
    ListBlocks(disk, bsize, bs);
    ContentLength(disk, bsize, bs);
    ContentPrefix(disk, bsize, bs, i + 1);
    assert Content(disk, bs[..i + 1])[..pos] == Content(disk, bs)[..size][..pos];
  }

  // A full open list is a file.
  lemma OpenFile(disk: Disk, bsize: nat, w: seq<nat>, block: nat, pos: nat, off: nat)
    requires Open(disk, bsize, w, block, pos, off) && Start(bsize, |w| - 1) < pos < FILE_MAX
    ensures IsFile(disk, bsize, w, block, pos)
    ensures pos <= |Content(disk, w)| && FileData(disk, w, pos) == Content(disk, w)[..pos]
  {
    hide Content, Node, PtrBytes;
    StartGrows(bsize, 0, |w| - 1);
    FileDataLength(disk, bsize, w, block, pos);
  }

  // Starting to write, or going on in a fresh block, shows no change.
  lemma ViewExtended(disk: Disk, disk': Disk, cur: seq<nat>, size: nat, writing: bool, w: seq<nat>, bs: seq<nat>,
                     w': seq<nat>, pos: nat)
    requires FileData(disk', cur, size) == FileData(disk, cur, size)
    requires pos <= |Content(disk', w')| && Content(disk', w')[..pos] == FileData(disk, bs, pos)
    requires if writing then bs == w && pos <= |Content(disk, w)|
             else pos <= |FileData(disk, cur, size)| && FileData(disk, bs, pos) == FileData(disk, cur, size)[..pos]
    ensures ViewOf(disk', cur, size, true, w', pos) == ViewOf(disk, cur, size, writing, w, pos)
  {
    hide Content;
    var v := FileData(disk, cur, size);
    if !writing {
      assert v[..pos] + (if pos < |v| then v[pos..] else []) == v;
    }
  }

  lemma ViewProg(disk: Disk, disk': Disk, cur: seq<nat>, size: nat, w: seq<nat>, pos: nat, d: seq<byte>)
    requires FileData(disk', cur, size) == FileData(disk, cur, size)
    requires pos <= |Content(disk, w)| && pos + |d| <= |Content(disk', w)|
    requires Content(disk', w)[..pos + |d|] == Content(disk, w)[..pos] + d
    ensures pos <= |ViewOf(disk, cur, size, true, w, pos)|
    ensures ViewOf(disk', cur, size, true, w, pos + |d|) == Overwrite(ViewOf(disk, cur, size, true, w, pos), pos, d)
  {
    hide Content, FileData;
  }

  // ---- Power loss while a block is programmed --------------------------------------

  // A block is being erased or programmed: the disk before that, and the list
  // that the metadata names, with its contents.
  datatype Writing = Writing(disk: Disk, block: nat, list: seq<nat>, head: nat, size: nat, data: seq<byte>)

  // Whatever a power loss leaves of the block, that list still reads the same.
  ghost predicate Readable(bsize: nat, p: Writing) {
    forall torn: Disk {:trigger OnlyBlock(p.disk, torn, p.block)} :: OnlyBlock(p.disk, torn, p.block) ==>
      IsFile(torn, bsize, p.list, p.head, p.size) && FileData(torn, p.list, p.size) == p.data
  }

  ghost predicate AllReadable(bsize: nat, ps: seq<Writing>) {
    forall k :: 0 <= k < |ps| ==> Readable(bsize, ps[k])
  }

  // More blocks have been programmed, all while the file on disk had `data`.
  ghost predicate Added(before: seq<Writing>, after: seq<Writing>, data: seq<byte>) {
    before <= after && forall k :: |before| <= k < |after| ==> after[k].data == data
  }

  lemma AddedNone(ps: seq<Writing>, data: seq<byte>)
    ensures Added(ps, ps, data)
  {
  }

  lemma AddedTwice(a: seq<Writing>, b: seq<Writing>, c: seq<Writing>, data: seq<byte>)
    requires Added(a, b, data) && Added(b, c, data)
    ensures Added(a, c, data)
  {
  }

  lemma OneMore(bsize: nat, ps: seq<Writing>, p: Writing)
    requires AllReadable(bsize, ps) && p.block !in p.list
    requires IsFile(p.disk, bsize, p.list, p.head, p.size) && FileData(p.disk, p.list, p.size) == p.data
    ensures AllReadable(bsize, ps + [p]) && Added(ps, ps + [p], p.data)
  {
    hide IsFile, FileData, OnlyBlock;
    forall torn: Disk | OnlyBlock(p.disk, torn, p.block)
      ensures IsFile(torn, bsize, p.list, p.head, p.size) && FileData(torn, p.list, p.size) == p.data
    {
      FileFrame(p.disk, torn, p.block, bsize, p.list, p.head, p.size);
    }
    assert Readable(bsize, p);
    hide Readable;
  }

  // ---- The file ---------------------------------------------------------------------

  class File {
    const bsize: nat
    const append: bool
    const lookahead: Lookahead
    var disk: Disk
    // The blocks of all other files and of the metadata
    var others: seq<nat>
    // What the metadata says about this file
    var savedHead: nat
    var savedSize: nat
    // file->ctz, file->pos, file->block, file->off and file->flags
    var head: nat
    var size: nat
    var pos: nat
    var block: nat
    var off: nat
    var reading: bool
    var writing: bool
    var dirty: bool
    var erred: bool

    // The blocks of the three lists, and the block being read
    ghost var saved: seq<nat>
    ghost var cur: seq<nat>
    ghost var w: seq<nat>
    ghost var ri: nat
    // Every time that a block has been programmed
    ghost var writes: seq<Writing>

    ghost predicate Inv()
      reads this, lookahead, lookahead.buffer
    {
      && lookahead.Valid() && AllReadable(bsize, writes)
      && Lists(disk, bsize, lookahead.blockCount, others, saved, savedHead, savedSize, cur, head, size, lookahead.live)
      && (!dirty ==> cur == saved && head == savedHead && size == savedSize)
      && pos < FILE_MAX
      && (reading ==> !writing && Reading(bsize, cur, ri, block, off, pos))
      && (writing ==>
            && Open(disk, bsize, w, block, pos, off) && Unshared(block, others, saved, cur)
            && Elements(w) <= lookahead.live
            && (append ==> pos >= size))
    }

    // Between the calls the open list never ends with an empty block.
    ghost predicate Valid()
      reads this, lookahead, lookahead.buffer
    {
      Inv() && (writing ==> pos > Start(bsize, |w| - 1))
    }

    ghost function View(): seq<byte>
      reads this
    {
      ViewOf(disk, cur, size, writing, w, pos)
    }

    // What a crash would leave
    ghost function Committed(): seq<byte>
      reads this
    {
      FileData(disk, saved, savedSize)
    }

    // What the lists in use hold
    ghost function Claimed(): set<nat>
      reads this`others, this`saved, this`cur, this`writing, this`w
    {
      Elements(others) + Elements(saved) + Elements(cur) + if writing then Elements(w) else {}
    }

    // Every block of the device is in one of the lists, or was still marked in
    // the allocator's window at the last checkpoint.
    ghost predicate Full()
      reads this`others, this`saved, this`cur, this`writing, this`w, lookahead
    {
      forall b: nat :: b < lookahead.blockCount ==> b in Claimed() + lookahead.stale
    }

    // So will be every block at a checkpoint made now.
    ghost predicate NoneLeft()
      requires lookahead.Valid()
      reads this`others, this`saved, this`cur, this`writing, this`w, lookahead, lookahead.buffer
    {
      var left :=
        LeftMarked(lookahead.buffer[..], lookahead.origin, lookahead.next, lookahead.size, lookahead.blockCount);
      forall b: nat :: b < lookahead.blockCount ==> b in Claimed() + left
    }

    // lfs_file_opencfg of a file that is not inline
    constructor (bsize: nat, append: bool, lookahead: Lookahead, disk: Disk, others: seq<nat>, head: nat, size: nat,
                 ghost bs: seq<nat>)
      requires lookahead.Valid()
      requires Lists(disk, bsize, lookahead.blockCount, others, bs, head, size, bs, head, size, lookahead.live)
      ensures Valid() && View() == Committed() == FileData(disk, bs, size) && pos == 0
    {
      this.bsize, this.append, this.lookahead, this.disk, this.others := bsize, append, lookahead, disk, others;
      this.savedHead, this.savedSize, this.head, this.size := head, size, head, size;
      saved, cur, w, ri, writes := bs, bs, [], 0, [];
      pos, block, off, reading, writing, dirty, erred := 0, 0, 0, false, false, false, false;
    }

    // lfs_fs_traverse, with what an open file adds to it
    method Traversal() returns (t: seq<nat>)
      requires Valid()
      ensures Elements(t) == Claimed()
      ensures forall b {:trigger b in t} :: b in t ==> b < lookahead.blockCount
    {
      hide Content, Node, PtrBytes, Start, Reading, IsFile, Open, Elements;
      var l := Blocks(disk, bsize, lookahead.blockCount, savedHead, savedSize, saved);
      t := Append(others, l, lookahead.blockCount);
      if dirty {
        l := Blocks(disk, bsize, lookahead.blockCount, head, size, cur);
        t := Append(t, l, lookahead.blockCount);
      }
      if writing {
        OpenFile(disk, bsize, w, block, pos, off);
        l := Blocks(disk, bsize, lookahead.blockCount, block, pos, w);
        t := Append(t, l, lookahead.blockCount);
      }
    }

    // The list that the next block continues, up to the position
    method Tail() returns (from: nat, ghost bs: seq<nat>)
      requires Valid() && (writing || pos <= size)
      ensures IsFile(disk, bsize, bs, from, pos)
      ensures forall b {:trigger b in bs} :: b in bs ==> b in cur || (writing && b in w)
      ensures if writing then bs == w && pos <= |Content(disk, w)|
              else pos <= |FileData(disk, cur, size)| && FileData(disk, bs, pos) == FileData(disk, cur, size)[..pos]
    {
      hide Content, Node, PtrBytes, Start, Located, Elements;
      from, bs := block, [];
      FileDataLength(disk, bsize, cur, head, size);
      if writing {
        OpenFile(disk, bsize, w, block, pos, off);
        bs := w;
      } else if pos > 0 {
        var o;
        ghost var i, lookups;
        from, o, i, lookups := Find(disk, bsize, head, size, pos - 1, cur);
        PrefixFile(disk, bsize, cur, head, size, pos, i, o);
        bs := cur[..i + 1];
      } else {
        EmptyFile(disk, bsize, from);
      }
    }

    // lfs_alloc after lfs_alloc_ckpoint: what the lists need is reported by the
    // traversal, so the block belongs to none of them.
    method AllocBlock() returns (r: Option<nat>)
      requires Valid()
      modifies lookahead, lookahead.buffer
      ensures Valid()
      ensures r.Some? ==> r.value in disk && r.value in lookahead.live && Unshared(r.value, others, saved, cur)
                          && (writing ==> r.value !in w)
      ensures (r.None? <==> old(NoneLeft())) && (r.None? ==> Full())
    {
      hide Content, Node, PtrBytes, Start, IsFile, Open, Reading, LeftMarked;
      hide Lookahead.Valid;
      var t := Traversal();
      lookahead.Checkpoint(Elements(t));
      r := lookahead.Alloc(t);
    }

    // A block outside the lists is going to be programmed.
    ghost method NoteWriting(b: nat)
      requires Inv() && Unshared(b, others, saved, cur)
      modifies this`writes
      ensures AllReadable(bsize, writes) && Added(old(writes), writes, Committed())
    {
      hide AllReadable, Added, IsFile, FileData, Content, Node;
      OneMore(bsize, writes, Writing(disk, b, saved, savedHead, savedSize, Committed()));
      writes := writes + [Writing(disk, b, saved, savedHead, savedSize, Committed())];
    }

    // Go on in the fresh block.
    method Attach(nblock: nat, from: nat, ghost bs: seq<nat>)
      requires Valid() && !reading && nblock in disk && nblock in lookahead.live && Unshared(nblock, others, saved, cur)
      requires nblock !in bs && Elements(bs) <= lookahead.live && IsFile(disk, bsize, bs, from, pos)
      requires append ==> pos >= size
      requires if writing then bs == w && pos <= |Content(disk, w)|
               else pos <= |FileData(disk, cur, size)| && FileData(disk, bs, pos) == FileData(disk, cur, size)[..pos]
      modifies this`disk, this`block, this`off, this`writing, this`w
      ensures Inv() && writing && off < bsize && View() == old(View()) && Committed() == old(Committed())
    {
      hide Content, Node, PtrBytes, Start, IsFile, Open, Reading, FileData, ViewOf;
      hide Lookahead.Valid;
      hide Lists, Elements, OnlyBlock, Start, AllReadable;
      ghost var was, w0, writing0 := disk, w, writing;
      disk, off, w := Extend(disk, bsize, nblock, from, pos, bs);
      block := nblock;
      writing := true;
      NewElements(w, nblock, bs, lookahead.live);
      ListsFrame(was, disk, nblock, bsize, lookahead.blockCount, others, saved, savedHead, savedSize, cur, head, size,
        lookahead.live);
      ViewExtended(was, disk, cur, size, writing0, w0, bs, w, pos);
    }

    // A fresh block to go on in
    method Grow() returns (ok: bool)
      requires Valid() && !reading && (writing || pos <= size) && (append ==> pos >= size)
      modifies this`disk, this`writes, this`block, this`off, this`writing, this`erred, this`w, lookahead,
        lookahead.buffer
      ensures View() == old(View()) && Committed() == old(Committed())
      ensures if ok then Inv() && writing && off < bsize && erred == old(erred)
              else Valid() && writing == old(writing) && erred && Full()
      ensures ok <==> !old(NoneLeft())
      ensures Added(old(writes), writes, old(Committed()))
    {
      hide Content, Node, PtrBytes, Start, IsFile, Open, Reading, FileData, ViewOf;
      hide Lookahead.Valid;
      hide Added;
      AddedNone(writes, Committed());
      ghost var bs;
      var from;
      from, bs := Tail();
      var r := AllocBlock();
      if r.None? {
        erred := true;
        return false;
      }
      NoteWriting(r.value);
      Attach(r.value, from, bs);
      return true;
    }

    // The position lies within the view, or at its end.
    lemma PosInView()
      requires Inv() && (writing || pos <= size)
      ensures pos <= |View()|
      ensures writing ==> pos <= |Content(disk, w)|
    {
      hide Content, Node, PtrBytes;
      if writing {
        ListBlocks(disk, bsize, w);
        ContentLength(disk, bsize, w);
      } else {
        FileDataLength(disk, bsize, cur, head, size);
      }
    }

    // Program a part of the data that fits into the current block.
    method ProgPart(data: seq<byte>)
      requires Inv() && writing && data != [] && off + |data| <= bsize && pos + |data| < FILE_MAX
      modifies this`disk, this`writes, this`pos, this`off
      ensures Valid() && pos == old(pos) + |data| && Committed() == old(Committed())
      ensures old(pos) <= |old(View())| && View() == Overwrite(old(View()), old(pos), data)
      ensures Added(old(writes), writes, old(Committed()))
    {
      hide Content, Node, PtrBytes, Start, IsFile, Reading, FileData, ViewOf, Lists, Elements, Overwrite;
      hide Lookahead.Valid;
      ghost var was := disk;
      OpenBlock(disk, bsize, w, block, pos, off);
      NoteWriting(block);
      disk := Prog(disk, block, off, data);
      OpenProg(was, bsize, w, block, pos, off, data, disk);
      ListsFrame(was, disk, block, bsize, lookahead.blockCount, others, saved, savedHead, savedSize, cur, head, size,
        lookahead.live);
      ViewProg(was, disk, cur, size, w, pos, data);
      off := off + |data|;
      pos := pos + |data|;
    }

    // lfs_alloc_ckpoint, when all blocks of the file are found from it
    method Ckpoint()
      requires Valid()
      modifies lookahead
      ensures Valid()
    {
      hide Content, Node, PtrBytes, Start, IsFile, Open, Reading, LeftMarked;
      hide Lookahead.Valid;
      lookahead.Checkpoint(Elements(others) + Elements(saved) + Elements(cur) + if writing then Elements(w) else {});
    }

    // One round of lfs_file_flushedwrite: as much as fits into the block
    method WriteRound(data: seq<byte>) returns (ok: bool, diff: nat)
      requires Valid() && !reading && (writing || pos <= size) && (append ==> pos >= size)
      requires data != [] && pos + |data| < FILE_MAX
      modifies this`disk, this`writes, this`block, this`off, this`writing, this`erred, this`w, this`pos, lookahead,
        lookahead.buffer
      ensures Valid() && Committed() == old(Committed()) && old(pos) <= |old(View())|
      ensures if ok then 0 < diff <= |data| && writing && pos == old(pos) + diff && erred == old(erred)
                         && View() == Overwrite(old(View()), old(pos), data[..diff])
              else diff == 0 && pos == old(pos) && View() == old(View()) && writing == old(writing) && erred && Full()
      ensures Added(old(writes), writes, old(Committed()))
    {
      hide Content, Node, PtrBytes, Start, IsFile, Open, Reading, FileData, ViewOf, Lists, Elements, Overwrite;
      hide Lookahead.Valid;
      hide Added;
      AddedNone(writes, Committed());
      PosInView();
      ok, diff := true, 0;
      if !writing || off == bsize {
        ok := Grow();
        if !ok {
          return;
        }
      }
      ghost var grown := writes;
      OffInBlock();
      diff := if |data| < bsize - off then |data| else bsize - off;
      ProgPart(data[..diff]);
      AddedTwice(old(writes), grown, writes, Committed());
      Ckpoint();
    }

    lemma OffInBlock()
      requires Inv() && writing
      ensures off <= bsize
    {
      NextStart(bsize, |w| - 1);
    }

    // lfs_file_flushedwrite
    method FlushedWrite(data: seq<byte>) returns (ok: bool)
      requires Valid() && !reading && (writing || pos <= size) && (append ==> pos >= size)
      requires pos + |data| < FILE_MAX
      modifies this`disk, this`writes, this`block, this`off, this`writing, this`erred, this`w, this`pos, lookahead,
        lookahead.buffer
      ensures Valid() && Committed() == old(Committed())
      ensures old(pos) <= pos <= old(pos) + |data| && old(pos) <= |old(View())|
      ensures View() == Overwrite(old(View()), old(pos), data[..pos - old(pos)])
      ensures if ok then pos == old(pos) + |data| && erred == old(erred) && (data != [] ==> writing)
              else erred && Full()
      ensures old(writing) ==> writing
      ensures Added(old(writes), writes, old(Committed()))
    {
      hide Content, Node, PtrBytes, Start, IsFile, Open, Reading, FileData, ViewOf, Lists, Elements, Overwrite;
      hide Lookahead.Valid;
      hide Added;
      AddedNone(writes, Committed());
      PosInView();
      ghost var v, p := View(), pos;
      OverwriteNothing(v, p);
      var nsize: nat := |data|;
      while nsize > 0
        invariant nsize <= |data| && pos == p + (|data| - nsize)
        invariant Valid() && !reading && (writing || pos <= size) && (append ==> pos >= size)
        invariant Committed() == old(Committed()) && erred == old(erred)
        invariant Added(old(writes), writes, old(Committed()))
        invariant View() == Overwrite(v, p, data[..|data| - nsize])
        invariant nsize < |data| || old(writing) ==> writing
        decreases nsize
      {
        var diff;
        ghost var before := writes;
        ok, diff := WriteRound(data[|data| - nsize..]);
        AddedTwice(old(writes), before, writes, Committed());
        if !ok {
          return;
        }
        OverwriteMore(v, p, data, |data| - nsize, diff);
        nsize := nsize - diff;
      }
      assert data[..|data|] == data;
      ok := true;
    }

    // Behind the position a file that is being written still reads as before.
    lemma ViewRest()
      requires Inv() && writing && pos < size
      ensures |View()| == size && |FileData(disk, cur, size)| == size
      ensures View()[pos..] == FileData(disk, cur, size)[pos..]
    {
      hide Content, Node, PtrBytes, Start, IsFile, Open, Reading, FileData;
      FileDataLength(disk, bsize, cur, head, size);
      PosInView();
    }

    // The new list takes the place of the old one.
    method TakeOver(p: nat)
      requires Valid() && writing && pos >= size && p < FILE_MAX
      modifies this`writing, this`pos, this`head, this`size, this`cur, this`dirty
      ensures Valid() && !writing && dirty && pos == p && View() == old(View()) && Committed() == old(Committed())
      ensures size == |View()|
    {
      hide Content, Node, PtrBytes, Start, Reading;
      hide Lookahead.Valid;
      PosInView();
      OpenFile(disk, bsize, w, block, pos, off);
      FileDataLength(disk, bsize, w, block, pos);
      FileDataLength(disk, bsize, cur, head, size);
      head, size, cur := block, pos, w;
      writing, dirty := false, true;
      pos := p;
    }

    // Copy one byte from the old list to the new one.
    method CopyByte(opos: nat, oblock: nat, ooff: nat, oreading: bool, ghost oi: nat)
      returns (ok: bool, opos': nat, oblock': nat, ooff': nat, oreading': bool, ghost oi': nat)
      requires Valid() && writing && pos < size && opos == pos
      requires oreading ==> Reading(bsize, cur, oi, oblock, ooff, opos)
      modifies this`disk, this`writes, this`block, this`off, this`writing, this`erred, this`w, this`pos, lookahead,
        lookahead.buffer
      ensures Valid() && writing && View() == old(View()) && Committed() == old(Committed())
      ensures if ok then pos == opos' == old(pos) + 1 && erred == old(erred) else erred && Full() && pos >= old(pos)
      ensures oreading' ==> Reading(bsize, cur, oi', oblock', ooff', opos')
      ensures Added(old(writes), writes, old(Committed()))
    {
      hide Content, Node, PtrBytes, Start, IsFile, Open, Reading, FileData, ViewOf, Lists, Elements;
      hide Lookahead.Valid;
      hide Added;
      AddedNone(writes, Committed());
      ListsFile();
      ViewRest();
      var data;
      ghost var v, p := View(), pos;
      data, opos', oblock', ooff', oreading', oi' :=
        FlushedRead(disk, bsize, head, size, opos, oblock, ooff, oreading, 1, cur, oi);
      SliceSame(v, FileData(disk, cur, size), p);
      ok := FlushedWrite(data);
      SameByte(v, p, data, pos - p);
    }

    lemma ListsFile()
      requires Inv()
      ensures IsFile(disk, bsize, cur, head, size)
    {
    }

    // lfs_file_flush
    method Flush() returns (ok: bool)
      requires Valid()
      modifies this`disk, this`writes, this`block, this`off, this`writing, this`erred, this`w, this`pos, lookahead,
        lookahead.buffer,
               this`head, this`size, this`cur, this`dirty, this`reading
      ensures Valid() && View() == old(View()) && Committed() == old(Committed()) && !reading
      ensures ok ==> !writing && pos == old(pos) && erred == old(erred) && size == |View()|
      ensures !ok ==> writing && erred && Full() && pos >= old(pos)
      ensures old(!writing) ==> ok && disk == old(disk) && size == old(size) && dirty == old(dirty)
      ensures Added(old(writes), writes, old(Committed()))
    {
      hide Content, Node, PtrBytes, Start, IsFile, Open, Reading, FileData, Elements;
      hide Lookahead.Valid;
      hide Added;
      AddedNone(writes, Committed());
      reading := false;
      if !writing {
        ListsFile();
        FileDataLength(disk, bsize, cur, head, size);
        return true;
      }
      ok := FlushWriting();
    }

    method FlushWriting() returns (ok: bool)
      requires Valid() && writing
      modifies this`disk, this`writes, this`block, this`off, this`writing, this`erred, this`w, this`pos, lookahead,
        lookahead.buffer,
               this`head, this`size, this`cur, this`dirty
      ensures Valid() && View() == old(View()) && Committed() == old(Committed())
      ensures ok ==> !writing && pos == old(pos) && erred == old(erred) && size == |View()|
      ensures !ok ==> writing && erred && Full() && pos >= old(pos)
      ensures Added(old(writes), writes, old(Committed()))
    {
      hide Content, Node, PtrBytes, Start, IsFile, Open, Reading, FileData, ViewOf, Lists, Elements;
      hide Lookahead.Valid;
      hide Added;
      AddedNone(writes, Committed());
      var p := pos;
      var opos: nat, oblock: nat, ooff: nat, oreading: bool := pos, 0, 0, false;
      ghost var oi: nat := 0;
      while pos < size
        invariant Valid() && writing && View() == old(View()) && Committed() == old(Committed())
        invariant Added(old(writes), writes, old(Committed()))
        invariant p <= pos == opos && erred == old(erred) && size == old(size) && p < FILE_MAX
        invariant oreading ==> Reading(bsize, cur, oi, oblock, ooff, opos)
        decreases size - pos
      {
        ghost var before := writes;
        ok, opos, oblock, ooff, oreading, oi := CopyByte(opos, oblock, ooff, oreading, oi);
        AddedTwice(old(writes), before, writes, Committed());
        if !ok {
          return;
        }
      }
      TakeOver(p);
      ok := true;
    }

    // Fill the file with zeros up to a position beyond its end.
    method ZeroFill() returns (ok: bool)
      requires Valid() && !writing && !reading && pos > size
      modifies this`disk, this`writes, this`block, this`off, this`writing, this`erred, this`w, this`pos, lookahead,
        lookahead.buffer
      ensures Valid() && Committed() == old(Committed()) && |old(View())| == size <= pos <= old(pos)
      ensures View() == Overwrite(old(View()), size, Zeros(pos - size))
      ensures if ok then pos == old(pos) && writing && erred == old(erred) else erred && Full()
      ensures Added(old(writes), writes, old(Committed()))
    {
      hide Content, Node, PtrBytes, Start, IsFile, Open, Reading, FileData, ViewOf, Lists, Elements, Overwrite;
      hide Lookahead.Valid;
      hide Added;
      AddedNone(writes, Committed());
      ListsFile();
      FileDataLength(disk, bsize, cur, head, size);
      ghost var v := View();
      ViewIdle();
      var p := pos;
      pos := size;
      ViewIdle();
      OverwriteNothing(v, size);
      assert Zeros(0) == [] && Zeros(1) == [0];
      hide Zeros, AllReadable;
      while pos < p
        invariant Valid() && !reading && size <= pos <= p && p < FILE_MAX && (pos > size ==> writing)
        invariant View() == Overwrite(v, size, Zeros(pos - size)) && Committed() == old(Committed())
        invariant erred == old(erred)
        invariant Added(old(writes), writes, old(Committed()))
        decreases p - pos
      {
        ghost var q, before := pos, writes;
        ok := FlushedWrite([0]);
        AddedTwice(old(writes), before, writes, Committed());
        MoreZeros(v, size, q - size, pos - q);
        if !ok {
          return;
        }
      }
      ok := true;
    }

    lemma ViewIdle()
      requires Inv() && !writing
      ensures View() == FileData(disk, cur, size) && |View()| == size
    {
      hide Content, Node, PtrBytes, Start;
      FileDataLength(disk, bsize, cur, head, size);
    }

    // Where an append starts
    method AppendPos()
      requires Valid() && !reading
      modifies this`pos
      ensures Valid() && View() == old(View()) && pos == Target(append, old(pos), size)
      ensures append ==> pos >= size
    {
      hide Content, Node, PtrBytes, Start, IsFile, Open, Reading, FileData, Elements;
      hide Lookahead.Valid;
      ListsSize();
      if append && pos < size {
        pos := size;
      }
    }

    lemma ListsSize()
      requires Inv()
      ensures size < FILE_MAX
    {
    }

    // Write at a position beyond the end.
    method WriteFilling(data: seq<byte>) returns (r: WriteResult)
      requires Valid() && !reading && !writing && pos > size && pos + |data| < FILE_MAX
      modifies this`disk, this`writes, this`block, this`off, this`writing, this`erred, this`w, this`pos, lookahead,
        lookahead.buffer
      ensures Valid() && Committed() == old(Committed())
      ensures WriteOutcome(old(View()), old(pos), data, r, View(), pos, erred) && (r.NoSpace? ==> Full())
      ensures Added(old(writes), writes, old(Committed()))
    {
      hide Content, Node, PtrBytes, Start, IsFile, Open, Reading, FileData, ViewOf, Lists, Elements, Overwrite, Zeros,
        WriteOutcome;
      hide Lookahead.Valid;
      hide Added;
      AddedNone(writes, Committed());
      ghost var v, p := View(), pos;
      ViewIdle();
      var ok := ZeroFill();
      if !ok {
        r := NoSpace;
        OutcomeGap(v, p, data, View(), pos, erred);
        return;
      }
      ghost var v1, filled := View(), writes;
      r := WriteData(data);
      AddedTwice(old(writes), filled, writes, Committed());
      OutcomeFilled(v, p, data, r, v1, View(), pos, erred);
    }

    // Write at the position, after filling up to it.
    method WriteAt(data: seq<byte>) returns (r: WriteResult)
      requires Valid() && !reading && (append ==> pos >= size) && pos + |data| < FILE_MAX
      modifies this`disk, this`writes, this`block, this`off, this`writing, this`erred, this`w, this`pos, lookahead,
        lookahead.buffer
      ensures Valid() && Committed() == old(Committed())
      ensures WriteOutcome(old(View()), old(pos), data, r, View(), pos, erred) && (r.NoSpace? ==> Full())
      ensures Added(old(writes), writes, old(Committed()))
    {
      hide Content, Node, PtrBytes, Start, IsFile, Open, Reading, FileData, ViewOf, Lists, Elements, Overwrite, Zeros,
        WriteOutcome;
      hide Lookahead.Valid;
      hide Added;
      AddedNone(writes, Committed());
      if !writing && pos > size {
        r := WriteFilling(data);
      } else {
        ghost var v, p := View(), pos;
        PosInView();
        r := WriteData(data);
        OutcomeInside(v, p, data, r, View(), pos, erred);
      }
    }

    // lfs_file_write_
    method Write(data: seq<byte>) returns (r: WriteResult)
      requires Valid() && |data| < FILE_MAX
      modifies this`disk, this`writes, this`block, this`off, this`writing, this`erred, this`w, this`pos, lookahead,
        lookahead.buffer,
               this`head, this`size, this`cur, this`dirty, this`reading
      ensures Valid() && Committed() == old(Committed())
      ensures WriteOutcome(old(View()), Target(append, old(pos), old(size)), data, r, View(), pos, erred)
      ensures r.NoSpace? ==> Full()
      ensures Added(old(writes), writes, old(Committed()))
    {
      hide Content, Node, PtrBytes, Start, IsFile, Open, Reading, FileData, ViewOf, Lists, Elements, Overwrite, Zeros;
      hide Lookahead.Valid;
      hide Added;
      AddedNone(writes, Committed());
      if reading {
        var ok := Flush();
      }
      AppendPos();
      if pos + |data| > FILE_MAX - 1 {
        return TooBig;
      }
      ghost var flushed := writes;
      r := WriteAt(data);
      AddedTwice(old(writes), flushed, writes, Committed());
    }

    method WriteData(data: seq<byte>) returns (r: WriteResult)
      requires Valid() && !reading && (writing || pos <= size) && (append ==> pos >= size) && pos + |data| < FILE_MAX
      modifies this`disk, this`writes, this`block, this`off, this`writing, this`erred, this`w, this`pos, lookahead,
        lookahead.buffer
      ensures Valid() && Committed() == old(Committed())
      ensures old(pos) <= pos <= old(pos) + |data| && old(pos) <= |old(View())|
      ensures View() == Overwrite(old(View()), old(pos), data[..pos - old(pos)])
      ensures if r.Written? then pos == old(pos) + |data| && !erred && data[..pos - old(pos)] == data
              else r.NoSpace? && erred && Full()
      ensures Added(old(writes), writes, old(Committed()))
    {
      hide Content, Node, PtrBytes, Start, IsFile, Open, Reading, FileData, ViewOf, Lists, Elements, Overwrite;
      hide Lookahead.Valid;
      hide Added;
      AddedNone(writes, Committed());
      var ok := FlushedWrite(data);
      if !ok {
        return NoSpace;
      }
      erred := false;
      r := Written;
    }

    // Read when nothing waits to be flushed.
    method ReadFlushed(n: nat) returns (data: seq<byte>)
      requires Valid() && !writing
      modifies this`block, this`off, this`pos, this`reading, this`ri
      ensures Valid() && !writing && View() == old(View()) && size == |View()|
      ensures ReadOutcome(View(), old(pos), n, data, pos)
    {
      hide Content, Node, PtrBytes, Start, IsFile, Open, Reading, FileData, ViewOf, Lists, Elements;
      hide Lookahead.Valid;
      ViewIdle();
      ListsFile();
      ListsSize();
      data, pos, block, off, reading, ri := FlushedRead(disk, bsize, head, size, pos, block, off, reading, n, cur, ri);
      ViewIdle();
    }

    // lfs_file_read_
    method Read(n: nat) returns (r: Option<seq<byte>>)
      requires Valid()
      modifies this`disk, this`writes, this`block, this`off, this`writing, this`erred, this`w, this`pos, lookahead,
        lookahead.buffer,
               this`head, this`size, this`cur, this`dirty, this`reading, this`ri
      ensures Valid() && View() == old(View()) && Committed() == old(Committed())
      ensures r.Some? ==> ReadOutcome(View(), old(pos), n, r.value, pos)
      ensures r.None? ==> old(writing) && erred && Full()
      ensures Added(old(writes), writes, old(Committed()))
    {
      hide Content, Node, PtrBytes, Start, IsFile, Open, Reading, FileData, ViewOf, Lists, Elements, ReadOutcome;
      hide Lookahead.Valid;
      hide Added;
      AddedNone(writes, Committed());
      if writing {
        var ok := Flush();
        if !ok {
          return None;
        }
      }
      var data := ReadFlushed(n);
      r := Some(data);
    }

    // lfs_file_seek_ to an absolute position; `cached` says whether the file
    // cache holds the byte there.
    method Seek(npos: nat, cached: bool) returns (r: SeekResult)
      requires Valid()
      modifies this`disk, this`writes, this`block, this`off, this`writing, this`erred, this`w, this`pos, lookahead,
        lookahead.buffer,
               this`head, this`size, this`cur, this`dirty, this`reading
      ensures Valid() && View() == old(View()) && Committed() == old(Committed())
      ensures match r
              case Moved => npos < FILE_MAX && pos == npos
              case OutOfRange => npos >= FILE_MAX && pos == old(pos)
              case SeekFailed => npos < FILE_MAX && old(writing) && erred && Full()
      ensures Added(old(writes), writes, old(Committed()))
    {
      hide Content, Node, PtrBytes, Start, IsFile, Open, Reading, FileData, ViewOf, Lists, Elements;
      hide Lookahead.Valid;
      hide Added;
      AddedNone(writes, Committed());
      if npos > FILE_MAX - 1 {
        return OutOfRange;
      }
      if pos == npos {
        return Moved;
      }
      if reading && off != bsize {
        ReadingHere();
        var oindex: nat, o: nat := Index(bsize, pos);
        var nindex: nat, noff: nat := Index(bsize, npos);
        if oindex == nindex && cached {
          SameBlock(bsize, cur, ri, block, off, pos, oindex, o, npos, noff);
          MovePos(npos, noff);
          return Moved;
        }
      }
      var ok := Flush();
      if !ok {
        return SeekFailed;
      }
      MovePos(npos, off);
      r := Moved;
    }

    lemma ReadingHere()
      requires Inv() && reading && off != bsize
      ensures Reading(bsize, cur, ri, block, off, pos) && off < bsize && ri < MAX_BLOCKS && ValidBlockSize(bsize)
    {
    }

    method MovePos(npos: nat, noff: nat)
      requires Valid() && !writing && npos < FILE_MAX
      requires reading ==> Reading(bsize, cur, ri, block, noff, npos)
      modifies this`pos, this`off
      ensures Valid() && View() == old(View()) && pos == npos
    {
      hide Content, Node, PtrBytes, Start, IsFile, Open, Reading, FileData, Lists, Elements;
      hide Lookahead.Valid;
      pos, off := npos, noff;
    }

    // lfs_file_sync_; `committed` is the outcome of the metadata commit.
    method Sync(committed: bool) returns (ok: bool)
      requires Valid()
      modifies this`disk, this`writes, this`block, this`off, this`writing, this`erred, this`w, this`pos, lookahead,
        lookahead.buffer,
               this`head, this`size, this`cur, this`dirty, this`reading, this`saved, this`savedHead, this`savedSize
      ensures Valid() && View() == old(View())
      ensures ok && !old(erred) ==> Committed() == View() && pos == old(pos) && !erred
      ensures !ok || old(erred) ==> Committed() == old(Committed()) && erred
      ensures old(erred) ==> ok
      ensures !ok ==> (old(writing) && Full()) || (dirty && !committed)
      ensures Added(old(writes), writes, old(Committed()))
    {
      hide Content, Node, PtrBytes, Start, IsFile, Open, Reading, FileData, ViewOf, Elements;
      hide Lookahead.Valid;
      hide Added;
      AddedNone(writes, Committed());
      if erred {
        return true;
      }
      ok := Flush();
      if !ok {
        erred := true;
        return;
      }
      ok := CommitEntry(committed);
    }

    // Let the metadata refer to the new list.
    method CommitEntry(committed: bool) returns (ok: bool)
      requires Valid() && !writing && !reading && !erred
      modifies this`dirty, this`erred, this`saved, this`savedHead, this`savedSize
      ensures Valid() && View() == old(View())
      ensures ok ==> Committed() == View() && !erred
      ensures !ok ==> Committed() == old(Committed()) && erred && dirty && !committed
    {
      hide Content, Node, PtrBytes, Start, IsFile, Open, Reading, FileData, Elements;
      hide Lookahead.Valid;
      if dirty {
        if !committed {
          erred := true;
          return false;
        }
        saved, savedHead, savedSize := cur, head, size;
        dirty := false;
      }
      ok := true;
    }
  }

  // The outcome of writing data at p over v, filling a gap with zeros: all of
  // it, or, out of space, a part of it
  ghost predicate WriteOutcome(v: seq<byte>, p: nat, data: seq<byte>, r: WriteResult, v': seq<byte>, pos: nat,
                               erred: bool) {
    var start: nat := if p < |v| then p else |v|;
    var all := Zeros(p - start) + data;
    match r
    case TooBig => p + |data| >= FILE_MAX && v' == v && pos == p
    case Written => p + |data| < FILE_MAX && v' == Overwrite(v, start, all) && pos == p + |data| && !erred
    case NoSpace => p + |data| < FILE_MAX && start <= pos <= p + |data| && erred
                    && v' == Overwrite(v, start, all[..pos - start])
  }

  lemma OutcomeInside(v: seq<byte>, p: nat, data: seq<byte>, r: WriteResult, v': seq<byte>, pos: nat, erred: bool)
    requires p <= |v| && p <= pos <= p + |data| < FILE_MAX && v' == Overwrite(v, p, data[..pos - p])
    requires if r.Written? then pos == p + |data| && !erred else r.NoSpace? && erred
    ensures WriteOutcome(v, p, data, r, v', pos, erred)
  {
    hide Overwrite;
    assert Zeros(0) == [];
    hide Zeros;
    assert [] + data == data;
    assert data[..|data|] == data;
  }

  lemma OutcomeGap(v: seq<byte>, p: nat, data: seq<byte>, v': seq<byte>, pos: nat, erred: bool)
    requires |v| <= pos <= p && p + |data| < FILE_MAX && erred && v' == Overwrite(v, |v|, Zeros(pos - |v|))
    ensures WriteOutcome(v, p, data, NoSpace, v', pos, erred)
  {
    hide Overwrite;
    ZerosPrefix(p - |v|, pos - |v|, data);
  }

  lemma OutcomeFilled(v: seq<byte>, p: nat, data: seq<byte>, r: WriteResult, v1: seq<byte>, v': seq<byte>, pos: nat,
                      erred: bool)
    requires |v| < p <= pos <= p + |data| < FILE_MAX && v1 == Overwrite(v, |v|, Zeros(p - |v|))
    requires p <= |v1| && v' == Overwrite(v1, p, data[..pos - p])
    requires if r.Written? then pos == p + |data| && !erred else r.NoSpace? && erred
    ensures WriteOutcome(v, p, data, r, v', pos, erred)
  {
    hide Overwrite;
    ThenData(v, |v|, p - |v|, data, pos - p);
  }

  // The outcome of reading n bytes of v at p
  ghost predicate ReadOutcome(v: seq<byte>, p: nat, n: nat, data: seq<byte>, pos: nat) {
    if p >= |v| then data == [] && pos == p
    else pos == (if p + n < |v| then p + n else |v|) && data == v[p..pos]
  }

  datatype SeekResult = Moved | OutOfRange | SeekFailed

  // Two positions in the block the reader is in
  lemma SameBlock(bsize: nat, bs: seq<nat>, ri: nat, block: nat, off: nat, pos: nat, i: nat, o: nat, npos: nat,
                  noff: nat)
    requires ValidBlockSize(bsize) && Reading(bsize, bs, ri, block, off, pos) && off < bsize
    requires ri < MAX_BLOCKS && i < MAX_BLOCKS && Located(bsize, pos, i, o) && Located(bsize, npos, i, noff)
    requires noff < bsize
    ensures Reading(bsize, bs, ri, block, noff, npos)
  {
    hide Start, PtrBytes;
    ReadingLocated(bsize, bs, ri, block, off, pos);
    LocatedUnique(bsize, pos, i, o, ri, off);
  }

  datatype WriteResult = Written | TooBig | NoSpace

  function Target(append: bool, pos: nat, size: nat): nat {
    if append && pos < size then size else pos
  }

  lemma MoreZeros(v: seq<byte>, p: nat, a: nat, b: nat)
    requires p == |v| && b <= 1
    ensures p + a <= |Overwrite(v, p, Zeros(a))|
    ensures Overwrite(Overwrite(v, p, Zeros(a)), p + a, [0][..b]) == Overwrite(v, p, Zeros(a + b))
  {
    assert Zeros(a) + [0][..b] == Zeros(a + b);
    OverwriteTwice(v, p, Zeros(a), [0][..b]);
  }

  lemma ZerosPrefix(n: nat, k: nat, d: seq<byte>)
    requires k <= n
    ensures (Zeros(n) + d)[..k] == Zeros(k)
  {
  }

  lemma ThenData(v: seq<byte>, p: nat, n: nat, d: seq<byte>, k: nat)
    requires p <= |v| && k <= |d|
    ensures p + n <= |Overwrite(v, p, Zeros(n))|
    ensures Overwrite(Overwrite(v, p, Zeros(n)), p + n, d[..k]) == Overwrite(v, p, (Zeros(n) + d)[..n + k])
    ensures k == |d| ==> (Zeros(n) + d)[..n + k] == Zeros(n) + d
  {
    OverwriteTwice(v, p, Zeros(n), d[..k]);
    assert (Zeros(n) + d)[..n + k] == Zeros(n) + d[..k];
  }

  lemma SliceSame(v: seq<byte>, u: seq<byte>, p: nat)
    requires p < |v| == |u| && v[p..] == u[p..]
    ensures u[p..p + 1] == v[p..p + 1]
  {
    assert v[p] == v[p..][0] && u[p] == u[p..][0];
  }

  lemma SameByte(v: seq<byte>, p: nat, d: seq<byte>, n: nat)
    requires p < |v| && d == v[p..p + 1] && n <= 1
    ensures Overwrite(v, p, d[..n]) == v
  {
  }

  lemma OpenBlock(disk: Disk, bsize: nat, w: seq<nat>, block: nat, pos: nat, off: nat)
    requires Open(disk, bsize, w, block, pos, off)
    ensures block in disk && |disk[block]| == bsize && Start(bsize, |w| - 1) <= pos
  {
    hide Node;
    ListBlocks(disk, bsize, w);
  }

  method Blocks(disk: Disk, bsize: nat, n: nat, head: nat, size: nat, ghost bs: seq<nat>) returns (l: seq<nat>)
    requires IsFile(disk, bsize, bs, head, size) && forall b: nat {:trigger b in disk} :: b in disk <==> b < n
    ensures Elements(l) == Elements(bs) && forall b {:trigger b in l} :: b in l ==> b < n
  {
    hide Content, Node;
    l := Traverse(disk, bsize, head, size, bs);
    ListBlocksIn(disk, bsize, bs, n);
    ReversedElements(bs, l);
  }

  method Append(s: seq<nat>, t: seq<nat>, ghost n: nat) returns (st: seq<nat>)
    requires forall b {:trigger b in s} :: b in s ==> b < n
    requires forall b {:trigger b in t} :: b in t ==> b < n
    ensures Elements(st) == Elements(s) + Elements(t) && forall b {:trigger b in st} :: b in st ==> b < n
  {
    st := s + t;
  }

  lemma EmptyFile(disk: Disk, bsize: nat, from: nat)
    requires ValidBlockSize(bsize) && ValidDisk(disk, bsize)
    ensures IsFile(disk, bsize, [], from, 0) && FileData(disk, [], 0) == []
  {
  }

  lemma NewElements(w: seq<nat>, b: nat, bs: seq<nat>, live: set<nat>)
    requires Elements(bs) <= live && b in live
    requires forall c {:trigger c in w} :: c in w ==> c == b || c in bs
    ensures Elements(w) <= live
  {
    forall c | c in w
      ensures c in live
    {
      assert c == b || c in Elements(bs);
    }
  }

  lemma ReversedElements(bs: seq<nat>, r: seq<nat>)
    requires |r| == |bs| && forall k :: 0 <= k < |bs| ==> r[k] == bs[|bs| - 1 - k]
    ensures Elements(r) == Elements(bs) && forall b {:trigger b in r} :: b in r ==> b in bs
  {
    forall b | b in bs
      ensures b in r
    {
      var k :| 0 <= k < |bs| && bs[k] == b;
      assert r[|bs| - 1 - k] == b;
    }
  }
}
