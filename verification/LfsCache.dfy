// The caches between littlefs and its block device: reads see what has been
// programmed, and the device only sees aligned accesses.

module LfsCache {
  import opened Bits
  import opened Bytes
  import opened Options
  import opened Numbers
  import opened Sequences
  import opened LfsCtz

  // ---- Alignment ----------------------------------------------------------------

  predicate Aligned(a: nat, r: nat)
    requires r > 0
  {
    a % r == 0
  }

  // lfs_aligndown and lfs_alignup
  function AlignDown(a: nat, r: nat): (d: nat)
    requires r > 0
    ensures d <= a < d + r
  {
    a - a % r
  }

  function AlignUp(a: nat, r: nat): (u: nat)
    requires r > 0
    ensures a <= u < a + r
  {
    AlignDown(a + r - 1, r)
  }

  lemma MultipleAligned(q: nat, r: nat)
    requires r > 0
    ensures Aligned(q * r, r)
  {
    assert q * r == r * q;
    DivUnique(q * r, r, q, 0);
  }

  lemma AlignedMultiple(a: nat, r: nat) returns (q: nat)
    requires r > 0 && Aligned(a, r)
    ensures a == q * r
  {
    q := a / r;
    assert a == r * q;
  }

  lemma AlignDownAligned(a: nat, r: nat)
    requires r > 0
    ensures Aligned(AlignDown(a, r), r)
  {
    var q := a / r;
    assert a == r * q + a % r;
    assert r * q == q * r;
    MultipleAligned(q, r);
  }

  lemma AlignUpAligned(a: nat, r: nat)
    requires r > 0
    ensures Aligned(AlignUp(a, r), r)
  {
    AlignDownAligned(a + r - 1, r);
  }

  lemma AlignedSum(a: nat, b: nat, r: nat)
    requires r > 0 && Aligned(a, r) && Aligned(b, r)
    ensures Aligned(a + b, r)
  {
    var p := AlignedMultiple(a, r);
    var q := AlignedMultiple(b, r);
    assert (p + q) * r == a + b;
    MultipleAligned(p + q, r);
  }

  // Aligned numbers are at least one unit apart.
  lemma AlignedGap(a: nat, b: nat, r: nat)
    requires r > 0 && Aligned(a, r) && Aligned(b, r) && a < b
    ensures Aligned(b - a, r) && b - a >= r
  {
    var p := AlignedMultiple(a, r);
    var q := AlignedMultiple(b, r);
    Apart(p, q, r);
    MultipleAligned(q - p, r);
  }

  lemma Apart(p: nat, q: nat, r: nat)
    requires p * r < q * r
    ensures p < q && (q - p) * r == q * r - p * r >= r
  {
    if q <= p {
      MulOrder(q, p, r);
    } else {
      assert (q - p) * r == q * r - p * r;
      MulAtLeast(r, q - p);
      assert r * (q - p) == (q - p) * r;
    }
  }

  lemma AlignedTrans(a: nat, p: nat, r: nat)
    requires p > 0 && r > 0 && Aligned(a, p) && Aligned(p, r)
    ensures Aligned(a, r)
  {
    var q := AlignedMultiple(a, p);
    var s := AlignedMultiple(p, r);
    assert a == (q * s) * r by {
      assert q * (s * r) == (q * s) * r;
    }
    MultipleAligned(q * s, r);
  }

  lemma AlignDownAtLeast(a: nat, r: nat)
    requires r > 0 && a >= r
    ensures AlignDown(a, r) >= r
  {
    AlignDownAligned(a, r);
    MultipleAligned(0, r);
    if AlignDown(a, r) > 0 {
      AlignedGap(0, AlignDown(a, r), r);
    }
  }

  lemma AlignedUp(a: nat, r: nat)
    requires r > 0 && Aligned(a, r)
    ensures AlignUp(a, r) == a && AlignDown(a, r) == a
  {
    AlignUpAligned(a, r);
    if AlignUp(a, r) > a {
      AlignedGap(a, AlignUp(a, r), r);
    }
  }

  lemma AlignUpShift(off: nat, size: nat, r: nat)
    requires r > 0 && Aligned(off, r)
    ensures AlignUp(off + size, r) == off + AlignUp(size, r)
  {
    hide Aligned, AlignUp;
    AlignUpAligned(size, r);
    AlignUpAligned(off + size, r);
    AlignedSum(off, AlignUp(size, r), r);
    if AlignUp(off + size, r) < off + AlignUp(size, r) {
      AlignedGap(AlignUp(off + size, r), off + AlignUp(size, r), r);
    } else if AlignUp(off + size, r) > off + AlignUp(size, r) {
      AlignedGap(off + AlignUp(size, r), AlignUp(off + size, r), r);
    }
  }

  // ---- Caches and device ----------------------------------------------------------

  // lfs_cache_t
  class Cache {
    var block: nat
    var off: nat
    var size: nat
    const buffer: array<byte>

    constructor (cacheSize: nat)
      ensures block == BLOCK_NULL && buffer.Length == cacheSize && fresh(buffer)
    {
      block, off, size, buffer := BLOCK_NULL, 0, 0, new byte[cacheSize](_ => 0xff);
    }

    // lfs_cache_drop
    method Drop()
      modifies this`block
      ensures block == BLOCK_NULL
    {
      block := BLOCK_NULL;
    }

    // lfs_cache_zero
    method Zero()
      modifies this`block, buffer
      ensures block == BLOCK_NULL && forall i {:trigger buffer[i]} :: 0 <= i < buffer.Length ==> buffer[i] == 0xff
    {
      forall i | 0 <= i < buffer.Length {
        buffer[i] := 0xff;
      }
      block := BLOCK_NULL;
    }
  }

  datatype Sizes = Sizes(read: nat, prog: nat, cache: nat, block: nat, count: nat)

  // What littlefs asks of its configuration
  predicate ValidSizes(z: Sizes) {
    && z.read > 0 && z.prog > 0 && z.cache > 0 && z.count < BLOCK_NULL
    && Aligned(z.prog, z.read) && Aligned(z.cache, z.read) && Aligned(z.cache, z.prog)
    && Aligned(z.block, z.cache)
  }

  class Device {
    const sizes: Sizes
    var disk: Disk

    ghost predicate Valid()
      reads this
    {
      ValidSizes(sizes) && forall b: nat {:trigger b in disk} :: b < sizes.count ==>
        b in disk && |disk[b]| == sizes.block
    }

    constructor (sizes: Sizes, disk: Disk)
      requires ValidSizes(sizes)
      requires forall b: nat {:trigger b in disk} :: b < sizes.count ==> b in disk && |disk[b]| == sizes.block
      ensures Valid() && this.sizes == sizes && this.disk == disk
    {
      this.sizes, this.disk := sizes, disk;
    }

    // cfg->read takes whole read units only.
    method Read(block: nat, off: nat, n: nat) returns (data: seq<byte>)
      requires Valid() && block < sizes.count && off + n <= sizes.block
      requires Aligned(off, sizes.read) && Aligned(n, sizes.read)
      ensures block in disk && |disk[block]| == sizes.block && |data| == n && data == disk[block][off..off + n]
    {
      data := disk[block][off..off + n];
    }

    // cfg->prog takes whole program units only.
    method Prog(block: nat, off: nat, data: seq<byte>)
      requires Valid() && block < sizes.count && off + |data| <= sizes.block
      requires Aligned(off, sizes.prog) && Aligned(|data|, sizes.prog)
      modifies this`disk
      ensures Valid() && disk == old(disk)[block := Laid(old(disk)[block], off, data)]
    {
      disk := disk[block := Laid(disk[block], off, data)];
    }
  }

  // ---- lfs_bd_* -----------------------------------------------------------------------

  class Bd {
    const dev: Device
    const pcache: Cache
    const rcache: Cache

    ghost predicate RcacheShape()
      reads this, dev, rcache
    {
      && dev.Valid() && rcache.buffer.Length == dev.sizes.cache
      && (rcache.block != BLOCK_NULL ==>
            && rcache.block < dev.sizes.count && rcache.size <= dev.sizes.cache
            && rcache.off + rcache.size <= dev.sizes.block && Aligned(rcache.off, dev.sizes.read))
    }

    ghost predicate Repeats()
      requires RcacheShape()
      reads this, dev, rcache, rcache.buffer
    {
      rcache.block != BLOCK_NULL ==>
        rcache.buffer[..rcache.size] == dev.disk[rcache.block][rcache.off..rcache.off + rcache.size]
    }

    // The read cache repeats the disk.
    ghost predicate ValidRcache()
      reads this, dev, rcache, rcache.buffer
    {
      RcacheShape() && Repeats()
    }

    // The program cache waits for a part of one block; behind it there is 0xff.
    ghost predicate ValidPcache()
      reads this, dev, pcache, pcache.buffer
    {
      && dev.Valid() && pcache.buffer.Length == dev.sizes.cache
      && (pcache.block != BLOCK_NULL ==>
            && pcache.block < dev.sizes.count && pcache.size <= dev.sizes.cache
            && pcache.off + pcache.size <= dev.sizes.block && Aligned(pcache.off, dev.sizes.prog))
      && (forall i: nat {:trigger pcache.buffer[i]} ::
            i < dev.sizes.cache && (pcache.block == BLOCK_NULL || i >= pcache.size) ==> pcache.buffer[i] == 0xff)
    }

    ghost predicate Valid()
      reads this, dev, rcache, rcache.buffer, pcache, pcache.buffer
    {
      ValidRcache() && ValidPcache() && pcache != rcache && pcache.buffer != rcache.buffer
    }

    // The caches while block b is programmed without validation: what the read
    // cache holds of b may be out of date, the rest of it repeats the disk.
    ghost predicate Programming(b: nat)
      reads this, dev, rcache, rcache.buffer, pcache, pcache.buffer
    {
      && RcacheShape() && (rcache.block != b ==> Repeats())
      && ValidPcache() && pcache != rcache && pcache.buffer != rcache.buffer
    }

    // A block as the program cache shows it
    ghost function Seen(b: nat, overlay: bool): (s: seq<byte>)
      requires ValidPcache() && b < dev.sizes.count
      reads this, dev, pcache, pcache.buffer
      ensures |s| == dev.sizes.block
    {
      if overlay && pcache.block == b then Laid(dev.disk[b], pcache.off, pcache.buffer[..pcache.size]) else dev.disk[b]
    }

    constructor (dev: Device)
      requires dev.Valid()
      ensures Valid() && this.dev == dev
    {
      this.dev := dev;
      this.pcache := new Cache(dev.sizes.cache);
      this.rcache := new Cache(dev.sizes.cache);
      new;
      pcache.Zero();
    }

    ghost predicate Covers(block: nat, off: nat)
      reads this, rcache
    {
      rcache.block == block && rcache.off <= off < rcache.off + rcache.size
    }

    // The first test of lfs_bd_read: either the program cache has the next
    // bytes, or it has none of the next diff bytes.
    method TryPcache(overlay: bool, block: nat, off: nat, size: nat) returns (part: seq<byte>, diff: nat)
      requires ValidPcache() && block < dev.sizes.count && 0 < size && off + size <= dev.sizes.block
      ensures |part| <= size && part == Seen(block, overlay)[off..off + |part|]
      ensures part == [] ==>
                0 < diff <= size && Seen(block, overlay)[off..off + diff] == dev.disk[block][off..off + diff]
      ensures part == [] ==> diff == size || Aligned(off + diff, dev.sizes.prog)
    {
      hide Aligned, Laid;
      part, diff := [], size;
      assert block in dev.disk;
      if overlay && block == pcache.block && off < pcache.off + pcache.size {
        if off >= pcache.off {
          if pcache.size - (off - pcache.off) < diff {
            diff := pcache.size - (off - pcache.off);
          }
          part := pcache.buffer[off - pcache.off..off - pcache.off + diff];
          LaidInside(dev.disk[block], pcache.off, pcache.buffer[..pcache.size], off, diff);
          assert pcache.buffer[..pcache.size] == pcache.buffer[..][..pcache.size] &&
            part == pcache.buffer[..][off - pcache.off..off - pcache.off + diff];
          BufferSlice(pcache.buffer[..], pcache.size, off - pcache.off, diff);
          return;
        } else if pcache.off - off < diff {
          diff := pcache.off - off;
        }
      }
      if overlay && block == pcache.block {
        LaidOutside(dev.disk[block], pcache.off, pcache.buffer[..pcache.size], off, diff);
      }
    }

    // The second test: the same for the read cache
    method TryRcache(block: nat, off: nat, diff0: nat) returns (part: seq<byte>, diff: nat)
      requires ValidRcache() && block < dev.sizes.count && 0 < diff0 && off + diff0 <= dev.sizes.block
      ensures |part| <= diff0 && part == dev.disk[block][off..off + |part|]
      ensures part == [] ==> !Covers(block, off) && 0 < diff <= diff0
      ensures part == [] ==> diff == diff0 || Aligned(off + diff, dev.sizes.read)
    {
      hide Aligned;
      part, diff := [], diff0;
      assert block in dev.disk;
      if block == rcache.block && off < rcache.off + rcache.size {
        if off >= rcache.off {
          if rcache.size - (off - rcache.off) < diff {
            diff := rcache.size - (off - rcache.off);
          }
          ghost var o := off - rcache.off;
          part := rcache.buffer[off - rcache.off..off - rcache.off + diff];
          assert rcache.buffer[..rcache.size] == rcache.buffer[..][..rcache.size] &&
            part == rcache.buffer[..][o..o + diff];
          BufferSlice(rcache.buffer[..], rcache.size, o, diff);
          SliceSlice(dev.disk[block], rcache.off, rcache.size, o, diff);
        } else if rcache.off - off < diff {
          diff := rcache.off - off;
        }
      }
    }

    // Load a stretch around the next byte into the read cache.
    method Load(hint: nat, block: nat, off: nat)
      requires ValidRcache() && hint > 0 && block < dev.sizes.count && off < dev.sizes.block
      modifies rcache, rcache.buffer
      ensures ValidRcache() && Covers(block, off)
    {
      hide Aligned, AlignDown, AlignUp;
      var z := dev.sizes;
      rcache.block := block;
      rcache.off := AlignDown(off, z.read);
      var end := AlignUp(off + hint, z.read);
      LoadFits(z, off, hint);
      var n := Min(Min(end, z.block) - rcache.off, z.cache);
      rcache.size := n;
      var data := dev.Read(block, rcache.off, n);
      forall i | 0 <= i < n {
        rcache.buffer[i] := data[i];
      }
    }

    // What is in no cache: read it directly if it is long and aligned, or load
    // the read cache.
    method Fetch(hint: nat, block: nat, off: nat, size: nat, diff0: nat) returns (part: seq<byte>)
      requires ValidRcache() && hint > 0 && block < dev.sizes.count && 0 < diff0 <= size
      requires off + size <= dev.sizes.block
      requires diff0 == size || Aligned(off + diff0, dev.sizes.read)
      modifies rcache, rcache.buffer
      ensures ValidRcache() && |part| <= diff0 && part == dev.disk[block][off..off + |part|]
      ensures part == [] ==> Covers(block, off)
    {
      hide Aligned, AlignDown, AlignUp, ValidRcache;
      var z := dev.sizes;
      RcacheDevice();
      assert block in dev.disk;
      if size >= hint && off % z.read == 0 && size >= z.read {
        BypassFits(off, size, diff0, z.read);
        part := dev.Read(block, off, AlignDown(diff0, z.read));
        return;
      }
      Load(hint, block, off);
      part := [];
    }

    // lfs_bd_read; None is LFS_ERR_CORRUPT.
    method Read(overlay: bool, hint: nat, block: nat, off: nat, size: nat) returns (r: Option<seq<byte>>)
      requires Valid() && hint > 0
      modifies rcache, rcache.buffer
      ensures Valid()
      ensures r.None? <==> off + size > dev.sizes.block || block >= dev.sizes.count
      ensures r.Some? ==> r.value == Seen(block, overlay)[off..off + size]
    {
      if off + size > dev.sizes.block || block >= dev.sizes.count {
        return None;
      }
      hide ValidRcache, ValidPcache, Laid, Seen, Covers;
      var data: seq<byte> := [];
      ghost var seen := Seen(block, overlay);
      while |data| < size
        invariant Valid() && |data| <= size && seen == Seen(block, overlay)
        invariant data == seen[off..off + |data|]
        decreases size - |data|, if Covers(block, off + |data|) then 0 else 1
      {
        var part := ReadRound(overlay, hint, block, off + |data|, size - |data|);
        Longer(seen, off, data, part);
        data := data + part;
      }
      r := Some(data);
    }

    // One round of the loop: bytes from a cache or the device, or nothing but
    // a read cache that covers the next byte
    method ReadRound(overlay: bool, hint: nat, block: nat, off: nat, size: nat) returns (part: seq<byte>)
      requires Valid() && hint > 0 && block < dev.sizes.count && 0 < size && off + size <= dev.sizes.block
      modifies rcache, rcache.buffer
      ensures Valid() && |part| <= size && part == Seen(block, overlay)[off..off + |part|]
      ensures part == [] ==> !old(Covers(block, off)) && Covers(block, off)
    {
      assert dev.Valid() && block in dev.disk;
      hide Laid, Aligned, Covers, ValidRcache, ValidPcache, Seen;
      var diff: nat;
      part, diff := TryPcache(overlay, block, off, size);
      if part != [] {
        return;
      }
      ghost var limit := diff;
      ProgIsRead(off + diff);
      part := FromDevice(hint, block, off, size, diff);
      Prefixes(Seen(block, overlay), dev.disk[block], off, limit, |part|);
    }

    // What the program cache does not have: from the read cache or the device
    method FromDevice(hint: nat, block: nat, off: nat, size: nat, diff0: nat) returns (part: seq<byte>)
      requires ValidRcache() && hint > 0 && block < dev.sizes.count && 0 < diff0 <= size
      requires off + size <= dev.sizes.block
      requires diff0 == size || Aligned(off + diff0, dev.sizes.read)
      modifies rcache, rcache.buffer
      ensures ValidRcache() && |part| <= diff0 && part == dev.disk[block][off..off + |part|]
      ensures part == [] ==> !old(Covers(block, off)) && Covers(block, off)
    {
      hide Aligned, Covers;
      var diff: nat;
      part, diff := TryRcache(block, off, diff0);
      if part == [] {
        part := Fetch(hint, block, off, size, diff);
      }
    }

    lemma ProgIsRead(a: nat)
      requires dev.Valid()
      ensures Aligned(a, dev.sizes.prog) ==> Aligned(a, dev.sizes.read)
    {
      hide Aligned;
      if Aligned(a, dev.sizes.prog) {
        AlignedTrans(a, dev.sizes.prog, dev.sizes.read);
      }
    }

    // One chunk of lfs_bd_cmp
    method CmpChunk(overlay: bool, hint: nat, block: nat, off: nat, part: seq<byte>) returns (r: CmpResult)
      requires Valid() && hint >= |part| > 0
      modifies rcache, rcache.buffer
      ensures Valid()
      ensures r == Corrupt <==> block >= dev.sizes.count || off + |part| > dev.sizes.block
      ensures r != Corrupt ==>
                var seen := Seen(block, overlay)[off..off + |part|];
                && (r == Equal <==> seen == part)
                && (r == Less <==> Compare(seen, part) < 0) && (r == Greater <==> Compare(seen, part) > 0)
    {
      hide ValidRcache, ValidPcache, Laid, Seen, Compare;
      var dat := Read(overlay, hint, block, off, |part|);
      if dat.None? {
        return Corrupt;
      }
      var res := Compare(dat.value, part);
      CompareZero(dat.value, part);
      r := if res == 0 then Equal else if res < 0 then Less else Greater;
    }

    // lfs_bd_cmp, in chunks of eight bytes
    method Cmp(overlay: bool, hint: nat, block: nat, off: nat, data: seq<byte>) returns (r: CmpResult)
      requires Valid() && hint >= |data|
      modifies rcache, rcache.buffer
      ensures Valid()
      ensures r == Equal <==> data == [] || (block < dev.sizes.count && off + |data| <= dev.sizes.block
                                             && Seen(block, overlay)[off..off + |data|] == data)
      ensures r == Corrupt ==> block >= dev.sizes.count || off + |data| > dev.sizes.block
      ensures r == Less || r == Greater ==>
                block < dev.sizes.count && Orders(Seen(block, overlay), off, data, r == Less)
    {
      hide ValidRcache, ValidPcache, Laid, Seen, Compare, Orders;
      var i: nat := 0;
      ghost var seen := if block < dev.sizes.count then Seen(block, overlay) else [];
      while i < |data|
        invariant Valid() && i <= |data| && (block < dev.sizes.count ==> seen == Seen(block, overlay))
        invariant i > 0 ==> block < dev.sizes.count && off + i <= dev.sizes.block && seen[off..off + i] == data[..i]
      {
        var diff: nat := if |data| - i < 8 then |data| - i else 8;
        r := CmpChunk(overlay, hint - i, block, off + i, data[i..i + diff]);
        if r == Corrupt {
          return;
        }
        if r != Equal {
          ChunkDiff(seen, off, data, i, diff);
          ChunkDiffers(seen, off, data, i, diff);
          return;
        }
        Adjacent(seen, off, off + i, off + i + diff);
        assert data[..i] + data[i..i + diff] == data[..i + diff];
        i := i + diff;
      }
      assert data[..i] == data;
      r := Equal;
    }

    // Program what waits in the cache, rounded up to whole units.
    method ProgOut() returns (diff: nat)
      requires ValidPcache() && pcache.block != BLOCK_NULL
      modifies dev`disk
      ensures ValidPcache() && pcache.block in old(dev.disk) && pcache.block in dev.disk
      ensures pcache.size <= diff <= dev.sizes.cache
      ensures pcache.off + diff <= dev.sizes.block == |old(dev.disk)[pcache.block]|
      ensures diff == AlignUp(pcache.size, dev.sizes.prog)
      ensures dev.disk ==
                old(dev.disk)[pcache.block := Laid(old(dev.disk)[pcache.block], pcache.off, pcache.buffer[..diff])]
    {
      hide Aligned, AlignUp, Laid;
      FlushFits(dev.sizes, pcache.off, pcache.size);
      assert pcache.block in dev.disk;
      diff := AlignUp(pcache.size, dev.sizes.prog);
      dev.Prog(pcache.block, pcache.off, pcache.buffer[..diff]);
    }

    // Compare the block with what was programmed, past any cache.
    method Validate(diff: nat)
      requires ValidPcache() && pcache.block != BLOCK_NULL && diff <= dev.sizes.cache
      requires pcache.off + diff <= dev.sizes.block
      requires pcache != rcache && pcache.buffer != rcache.buffer && rcache.buffer.Length == dev.sizes.cache
      requires dev.disk[pcache.block][pcache.off..pcache.off + diff] == pcache.buffer[..diff]
      modifies rcache, rcache.buffer
      ensures Valid()
    {
      hide Aligned, Laid, ValidPcache;
      PcacheDevice();
      rcache.Drop();
      var r := Cmp(false, diff, pcache.block, pcache.off, pcache.buffer[..diff]);
      assert r == Equal;
    }

    lemma PcacheDevice()
      requires ValidPcache()
      ensures dev.Valid() && pcache.buffer.Length == dev.sizes.cache
      ensures pcache.block != BLOCK_NULL ==> pcache.block < dev.sizes.count
    {
    }

    // lfs_bd_flush; block b is the one being programmed.
    method Flush(validate: bool, ghost b: nat)
      requires Programming(b) && (pcache.block == BLOCK_NULL || pcache.block == b)
      modifies dev`disk, pcache`block, pcache.buffer, rcache, rcache.buffer
      ensures Programming(b) && pcache.block == BLOCK_NULL
      ensures validate && (old(pcache.block) != BLOCK_NULL || old(Valid())) ==> Valid()
      ensures !validate || old(pcache.block) == BLOCK_NULL ==> rcache.block == old(rcache.block)
      ensures old(pcache.block) == BLOCK_NULL ==> dev.disk == old(dev.disk)
      ensures old(pcache.block) != BLOCK_NULL ==>
                Flushed(old(dev.disk), old(pcache.block), old(Seen(pcache.block, true)), dev.disk)
    {
      hide Aligned, AlignUp, Laid;
      if pcache.block != BLOCK_NULL {
        ghost var seen, disk := Seen(pcache.block, true), dev.disk;
        var diff := ProgOut();
        PaddedOut(disk[b], pcache.off, pcache.buffer[..], pcache.size, diff);
        if validate {
          Validate(diff);
        }
        pcache.Zero();
      }
    }

    // What is on disk after a flush: what was seen, and padding behind it
    ghost predicate Flushed(disk: Disk, b: nat, seen: seq<byte>, disk': Disk)
      reads this, dev, pcache
    {
      var end, pad := pcache.off + pcache.size, AlignUp(pcache.size, Max1(dev.sizes.prog)) - pcache.size;
      end + pad <= |seen| && disk' == disk[b := Laid(seen, end, Padding(pad))]
    }

    // lfs_bd_sync drops the read cache first, so it may be out of date.
    method Sync(validate: bool, ghost b: nat)
      requires Programming(b) && (pcache.block == BLOCK_NULL || pcache.block == b)
      modifies dev`disk, pcache`block, pcache.buffer, rcache, rcache.buffer
      ensures Valid() && pcache.block == BLOCK_NULL && (!validate ==> rcache.block == BLOCK_NULL)
      ensures old(pcache.block) == BLOCK_NULL ==> dev.disk == old(dev.disk)
      ensures old(pcache.block) != BLOCK_NULL ==>
                Flushed(old(dev.disk), old(pcache.block), old(Seen(pcache.block, true)), dev.disk)
    {
      hide ValidPcache, Laid, Flushed;
      rcache.Drop();
      assert Valid();
      Flush(validate, b);
    }

    // Programming may go on here: at the end of what waits, or on a fresh unit.
    ghost predicate Accepts(block: nat, off: nat)
      requires dev.sizes.prog > 0
      reads this, pcache
    {
      if pcache.block == BLOCK_NULL then Aligned(off, dev.sizes.prog)
      else pcache.block == block && off == pcache.off + pcache.size && pcache.size < dev.sizes.cache
    }

    // Turn an empty program cache to a block.
    method Prepare(block: nat, off: nat)
      requires Programming(block) && block < dev.sizes.count && off < dev.sizes.block && Accepts(block, off)
      requires pcache.block == BLOCK_NULL
      modifies pcache`block, pcache`off, pcache`size
      ensures Programming(block) && Accepts(block, off) && pcache.block == block
      ensures forall b: nat {:trigger Seen(b, true)} :: b < dev.sizes.count ==> Seen(b, true) == old(Seen(b, true))
    {
      hide Aligned, Laid;
      AlignedUp(off, dev.sizes.prog);
      AlignDownAligned(off, dev.sizes.prog);
      pcache.block := block;
      pcache.off := AlignDown(off, dev.sizes.prog);
      pcache.size := 0;
      assert block in dev.disk;
      LaidNothing(dev.disk[block], off);
      assert pcache.buffer[..0] == [];
    }

    // Copy what fits into the program cache.
    method Copy(block: nat, off: nat, data: seq<byte>) returns (diff: nat)
      requires Programming(block) && Accepts(block, off) && pcache.block == block && data != []
      requires off + |data| <= dev.sizes.block
      requires block < dev.sizes.count
      modifies pcache`size, pcache.buffer
      ensures Programming(block) && pcache.off + pcache.size == off + diff && 0 < diff <= |data|
      ensures pcache.size <= dev.sizes.cache
      ensures Seen(block, true) == Laid(old(Seen(block, true)), off, data[..diff])
    {
      hide Aligned, Laid;
      ghost var was, size := pcache.buffer[..], pcache.size;
      assert block in dev.disk;
      var o := off - pcache.off;
      diff := Min(dev.sizes.cache - o, |data|);
      FillFrom(o, data[..diff]);
      LaidMore(dev.disk[block], pcache.off, was, size, pcache.buffer[..], data[..diff]);
      pcache.size := Max(pcache.size, o + diff);
      assert pcache.buffer[..pcache.size] == pcache.buffer[..][..size + diff];
      assert was[..size] == old(pcache.buffer[..pcache.size]);
    }

    method FillFrom(o: nat, d: seq<byte>)
      requires o + |d| <= pcache.buffer.Length
      modifies pcache.buffer
      ensures forall i {:trigger pcache.buffer[i]} :: 0 <= i < pcache.buffer.Length ==>
                pcache.buffer[i] == if o <= i < o + |d| then d[i - o] else old(pcache.buffer[i])
    {
      forall i | 0 <= i < |d| {
        pcache.buffer[o + i] := d[i];
      }
    }

    // One round of lfs_bd_prog
    method ProgRound(validate: bool, block: nat, off: nat, data: seq<byte>) returns (diff: nat)
      requires Programming(block) && block < dev.sizes.count && off + |data| <= dev.sizes.block
      requires Accepts(block, off) && data != []
      modifies dev`disk, pcache, pcache.buffer, rcache, rcache.buffer
      ensures Programming(block) && (validate && old(Repeats()) ==> Repeats())
      ensures 0 < diff <= |data| && Accepts(block, off + diff)
      ensures Seen(block, true) == Laid(old(Seen(block, true)), off, data[..diff])
      ensures !validate ==> rcache.block == old(rcache.block)
      ensures OthersSame(block, old(dev.disk), dev.disk)
    {
      hide Aligned, Laid, Repeats, ValidPcache, Seen;
      PcacheDevice();
      if pcache.block == BLOCK_NULL {
        Prepare(block, off);
      }
      diff := Copy(block, off, data);
      assert rcache.block == old(rcache.block) && Repeats() == old(Repeats());
      if pcache.size == dev.sizes.cache {
        FlushFull(validate, block, off + diff);
      }
    }

    // A full cache is flushed at once.
    method FlushFull(validate: bool, block: nat, end: nat)
      requires Programming(block) && pcache.block == block < dev.sizes.count && pcache.size == dev.sizes.cache
      requires end == pcache.off + pcache.size
      modifies dev`disk, pcache`block, pcache.buffer, rcache, rcache.buffer
      ensures Programming(block) && (validate ==> Repeats())
      ensures pcache.block == BLOCK_NULL && Accepts(block, end) && Seen(block, true) == old(Seen(block, true))
      ensures !validate ==> rcache.block == old(rcache.block)
      ensures OthersSame(block, old(dev.disk), dev.disk)
    {
      hide Aligned, AlignUp, Laid;
      ghost var seen := Seen(block, true);
      FullUnits(dev.sizes, pcache.off);
      Flush(validate, block);
      LaidNothing(seen, end);
      assert Padding(0) == [];
    }

    // lfs_bd_prog.  Without validation the read cache may hold the block, and
    // is then left as it is.
    method Prog(validate: bool, block: nat, off: nat, data: seq<byte>)
      requires Programming(block) && block < dev.sizes.count && off + |data| <= dev.sizes.block && Accepts(block, off)
      modifies dev`disk, pcache, pcache.buffer, rcache, rcache.buffer
      ensures Programming(block) && Accepts(block, off + |data|)
      ensures validate && old(Valid()) ==> Valid()
      ensures !validate ==> rcache.block == old(rcache.block)
      ensures Seen(block, true) == Laid(old(Seen(block, true)), off, data)
      ensures OthersSame(block, old(dev.disk), dev.disk)
    {
      hide Aligned, Laid, Repeats, ValidPcache, Seen, Accepts;
      PcacheDevice();
      var i: nat := 0;
      ghost var seen := Seen(block, true);
      LaidNothing(seen, off);
      assert data[..0] == [];
      while i < |data|
        invariant Programming(block) && i <= |data| && Accepts(block, off + i)
        invariant validate && old(Repeats()) ==> Repeats()
        invariant !validate ==> rcache.block == old(rcache.block)
        invariant Seen(block, true) == Laid(seen, off, data[..i])
        invariant OthersSame(block, old(dev.disk), dev.disk)
      {
        var diff := ProgRound(validate, block, off + i, data[i..]);
        LaidTwice(seen, off, data[..i], data[i..][..diff]);
        assert data[..i] + data[i..][..diff] == data[..i + diff];
        i := i + diff;
      }
      assert data[..i] == data;
    }

    // A metadata commit on the device: lfs_dir_commitprog for every part, then
    // the sync of lfs_dir_commitcrc.  It starts from any state in which the read
    // cache repeats the disk, whether or not it holds the block.
    method ProgAndSync(block: nat, off: nat, parts: seq<seq<byte>>)
      requires Valid() && block < dev.sizes.count && Accepts(block, off) && off + |Joined(parts)| <= dev.sizes.block
      modifies dev`disk, pcache, pcache.buffer, rcache, rcache.buffer
      ensures Valid() && pcache.block == BLOCK_NULL && rcache.block == BLOCK_NULL
      ensures block in dev.disk && OthersSame(block, old(dev.disk), dev.disk)
      ensures Padded(old(Seen(block, true)), off, Joined(parts), dev.sizes.prog, dev.disk[block])
    {
      hide Aligned, AlignUp, Laid, Repeats, ValidPcache, Seen, Accepts, Joined;
      PcacheDevice();
      ghost var seen := Seen(block, true);
      ghost var total := Joined(parts);
      var at, i: nat := off, 0;
      JoinedNone(parts);
      LaidNothing(seen, off);
      while i < |parts|
        invariant Programming(block) && i <= |parts| && |Joined(parts[..i])| <= |total|
        invariant at == off + |Joined(parts[..i])| && Accepts(block, at)
        invariant Seen(block, true) == Laid(seen, off, Joined(parts[..i]))
        invariant OthersSame(block, old(dev.disk), dev.disk)
      {
        JoinedNext(parts, i);
        Prog(false, block, at, parts[i]);
        LaidTwice(seen, off, Joined(parts[..i]), parts[i]);
        at := at + |parts[i]|;
        i := i + 1;
      }
      assert parts[..i] == parts;
      Finish(block, at, seen, off, total);
    }

    method Finish(block: nat, ghost end: nat, ghost seen: seq<byte>, ghost off: nat, ghost data: seq<byte>)
      requires Programming(block) && block < dev.sizes.count && Accepts(block, end)
      requires end == off + |data| <= |seen| == dev.sizes.block
      requires Seen(block, true) == Laid(seen, off, data)
      modifies dev`disk, pcache, pcache.buffer, rcache, rcache.buffer
      ensures Valid() && pcache.block == BLOCK_NULL && rcache.block == BLOCK_NULL
      ensures block in dev.disk && OthersSame(block, old(dev.disk), dev.disk)
      ensures Padded(seen, off, data, dev.sizes.prog, dev.disk[block])
    {
      hide Aligned, AlignUp, Laid, Repeats;
      ghost var all := Seen(block, true);
      if pcache.block == BLOCK_NULL {
        AlignedUp(end, dev.sizes.prog);
        LaidNothing(all, end);
        assert Padding(0) == [];
      } else {
        AlignUpShift(pcache.off, pcache.size, dev.sizes.prog);
      }
      Sync(false, block);
    }

    ghost predicate OthersSame(block: nat, disk: Disk, disk': Disk)
      reads this
    {
      forall b: nat {:trigger b in disk'} {:trigger b in disk} ::
        b < dev.sizes.count && b != block && b in disk ==> b in disk' && disk'[b] == disk[b]
    }

    lemma RcacheDevice()
      requires ValidRcache()
      ensures dev.Valid()
    {
    }
  }

  // LFS_CMP_EQ, LFS_CMP_LT, LFS_CMP_GT, or the error of a read out of bounds
  datatype CmpResult = Equal | Less | Greater | Corrupt

  // memcmp
  function Compare(a: seq<byte>, b: seq<byte>): int
    requires |a| == |b|
  {
    if a == [] then 0 else if a[0] != b[0] then a[0] as int - b[0] as int else Compare(a[1..], b[1..])
  }

  // The j-th byte is the first in which the data differ from what is seen.
  ghost predicate FirstDiff(seen: seq<byte>, off: nat, data: seq<byte>, j: nat) {
    && j < |data| && off + j < |seen|
    && seen[off..off + j] == data[..j] && seen[off + j] != data[j]
  }

  lemma {:induction false} CompareDiff(a: seq<byte>, b: seq<byte>) returns (j: nat)
    requires |a| == |b| && a != b
    ensures j < |a| && a[..j] == b[..j] && a[j] != b[j] && Compare(a, b) == a[j] as int - b[j] as int
  {
    if a[0] != b[0] {
      j := 0;
    } else {
      assert a == [a[0]] + a[1..] && b == [b[0]] + b[1..];
      var k := CompareDiff(a[1..], b[1..]);
      j := k + 1;
      assert a[..j] == [a[0]] + a[1..][..k] && b[..j] == [b[0]] + b[1..][..k];
    }
  }

  lemma {:induction false} CompareSame(a: seq<byte>)
    ensures Compare(a, a) == 0
  {
    if a != [] {
      CompareSame(a[1..]);
    }
  }

  lemma CompareZero(a: seq<byte>, b: seq<byte>)
    requires |a| == |b|
    ensures Compare(a, b) == 0 <==> a == b
  {
    if a == b {
      CompareSame(a);
    } else {
      var _ := CompareDiff(a, b);
    }
  }

  // At the first difference what is seen is the smaller byte, or the greater one.
  ghost predicate Orders(seen: seq<byte>, off: nat, data: seq<byte>, less: bool) {
    exists j: nat :: FirstDiff(seen, off, data, j) && (less <==> seen[off + j] < data[j])
  }

  // The first difference of a chunk is that of the data, if all before it agree.
  lemma ChunkDiff(seen: seq<byte>, off: nat, data: seq<byte>, i: nat, diff: nat)
    requires i + diff <= |data| && off + i + diff <= |seen|
    requires seen[off..off + i] == data[..i] && seen[off + i..off + i + diff] != data[i..i + diff]
    ensures Orders(seen, off, data, Compare(seen[off + i..off + i + diff], data[i..i + diff]) < 0)
  {
    var a, b := seen[off + i..off + i + diff], data[i..i + diff];
    var k := CompareDiff(a, b);
    var j := i + k;
    assert seen[off..off + j] == seen[off..off + i] + a[..k];
    assert data[..j] == data[..i] + b[..k];
    assert seen[off + j] == a[k] && data[j] == b[k];
    assert FirstDiff(seen, off, data, j);
  }


  // What is left of a block when data is programmed at off into what was seen of
  // it: the data, and padding up to the end of the program unit.
  ghost predicate Padded(seen: seq<byte>, off: nat, data: seq<byte>, prog: nat, block: seq<byte>)
    requires prog > 0
  {
    var end := off + |data|;
    AlignUp(end, prog) <= |seen| && block == Laid(Laid(seen, off, data), end, Padding(AlignUp(end, prog) - end))
  }

  function Joined(parts: seq<seq<byte>>): seq<byte> {
    if parts == [] then [] else Joined(parts[..|parts| - 1]) + parts[|parts| - 1]
  }

  lemma JoinedNone(parts: seq<seq<byte>>)
    ensures Joined(parts[..0]) == []
  {
  }

  lemma {:induction false} JoinedNext(parts: seq<seq<byte>>, i: nat)
    requires i < |parts|
    ensures Joined(parts[..i + 1]) == Joined(parts[..i]) + parts[i]
    ensures |Joined(parts[..i])| + |parts[i]| <= |Joined(parts)|
    decreases |parts|
  {
    assert parts[..i + 1][..i] == parts[..i];
    if i == |parts| - 1 {
      assert parts[..i + 1] == parts;
    } else {
      var front := parts[..|parts| - 1];
      JoinedNext(front, i);
      assert front[..i] == parts[..i];
    }
  }

  function Padding(n: nat): seq<byte> {
    seq(n, _ => 0xff)
  }

  lemma ChunkDiffers(seen: seq<byte>, off: nat, data: seq<byte>, i: nat, n: nat)
    requires off + |data| <= |seen| ==> i + n <= |data| && seen[off + i..off + i + n] != data[i..i + n]
    ensures off + |data| <= |seen| ==> seen[off..off + |data|] != data
  {
    if off + |data| <= |seen| && seen[off..off + |data|] == data {
      SliceSlice(seen, off, |data|, i, n);
    }
  }

  function Max1(n: nat): (m: nat)
    ensures m > 0
  {
    if n == 0 then 1 else n
  }

  lemma PaddedOut(block: seq<byte>, off: nat, buffer: seq<byte>, size: nat, diff: nat)
    requires size <= diff <= |buffer| && off + diff <= |block|
    requires forall i {:trigger buffer[i]} :: size <= i < |buffer| ==> buffer[i] == 0xff
    ensures Laid(block, off, buffer[..diff]) == Laid(Laid(block, off, buffer[..size]), off + size, Padding(diff - size))
    ensures Laid(block, off, buffer[..diff])[off..off + diff] == buffer[..diff]
  {
  }

  lemma LaidNothing(block: seq<byte>, off: nat)
    requires off <= |block|
    ensures Laid(block, off, []) == block
  {
  }

  lemma LaidTwice(block: seq<byte>, off: nat, a: seq<byte>, b: seq<byte>)
    requires off + |a| + |b| <= |block|
    ensures Laid(Laid(block, off, a), off + |a|, b) == Laid(block, off, a + b)
  {
  }

  lemma LaidMore(block: seq<byte>, at: nat, was: seq<byte>, size: nat, buffer: seq<byte>, d: seq<byte>)
    requires |was| == |buffer| && size + |d| <= |was| && at + size + |d| <= |block|
    requires forall i {:trigger buffer[i]} :: 0 <= i < |buffer| ==>
              buffer[i] == if size <= i < size + |d| then d[i - size] else was[i]
    ensures Laid(block, at, buffer[..size + |d|]) == Laid(Laid(block, at, was[..size]), at + size, d)
  {
    assert buffer[..size + |d|] == was[..size] + d;
    LaidTwice(block, at, was[..size], d);
  }

  // A full cache needs no padding, and the next unit follows.
  lemma FullUnits(z: Sizes, off: nat)
    requires ValidSizes(z) && Aligned(off, z.prog)
    ensures AlignUp(z.cache, z.prog) == z.cache && Aligned(off + z.cache, z.prog)
  {
    hide Aligned, AlignUp;
    AlignedUp(z.cache, z.prog);
    AlignedSum(off, z.cache, z.prog);
  }

  // What is flushed is aligned and fits into the cache and the block.
  lemma FlushFits(z: Sizes, off: nat, size: nat)
    requires ValidSizes(z) && Aligned(off, z.prog) && size <= z.cache && off + size <= z.block
    ensures Aligned(AlignUp(size, z.prog), z.prog) && AlignUp(size, z.prog) <= z.cache
    ensures off + AlignUp(size, z.prog) <= z.block
  {
    hide Aligned, AlignUp;
    var up := AlignUp(size, z.prog);
    AlignUpAligned(size, z.prog);
    if up > z.cache {
      AlignedGap(z.cache, up, z.prog);
    }
    AlignedTrans(z.block, z.cache, z.prog);
    AlignedSum(off, up, z.prog);
    if off + up > z.block {
      AlignedGap(z.block, off + up, z.prog);
    }
  }

  lemma Longer(s: seq<byte>, off: nat, data: seq<byte>, part: seq<byte>)
    requires off + |data| + |part| <= |s| && data == s[off..off + |data|]
    requires part == s[off + |data|..off + |data| + |part|]
    ensures data + part == s[off..off + |data + part|]
  {
  }

  lemma Prefixes(s: seq<byte>, t: seq<byte>, off: nat, n: nat, k: nat)
    requires off + n <= |s| && off + n <= |t| && s[off..off + n] == t[off..off + n] && k <= n
    ensures s[off..off + k] == t[off..off + k]
  {
    assert s[off..off + k] == s[off..off + n][..k];
    assert t[off..off + k] == t[off..off + n][..k];
  }

  lemma LaidOutside(block: seq<byte>, at: nat, data: seq<byte>, off: nat, n: nat)
    requires at + |data| <= |block| && off + n <= |block| && (off + n <= at || off >= at + |data|)
    ensures Laid(block, at, data)[off..off + n] == block[off..off + n]
  {
  }

  lemma LaidInside(block: seq<byte>, at: nat, data: seq<byte>, off: nat, n: nat)
    requires at + |data| <= |block| && at <= off && off + n <= at + |data|
    ensures Laid(block, at, data)[off..off + n] == data[off - at..off - at + n]
  {
  }

  lemma BufferSlice(s: seq<byte>, n: nat, o: nat, d: nat)
    requires o + d <= n <= |s|
    ensures s[..n][o..o + d] == s[o..o + d]
  {
  }

  lemma MinAligned(a: nat, b: nat, r: nat)
    requires r > 0 && Aligned(a, r) && Aligned(b, r)
    ensures Aligned(Min(a, b), r)
  {
  }

  // What Load reads is aligned, fits into block and cache, and holds the byte.
  lemma LoadFits(z: Sizes, off: nat, hint: nat)
    requires ValidSizes(z) && hint > 0 && off < z.block
    ensures var a := AlignDown(off, z.read);
      var end := Min(AlignUp(off + hint, z.read), z.block);
      a < end && var n := Min(end - a, z.cache);
      && off < a + n && a + n <= z.block && Aligned(a, z.read) && Aligned(n, z.read)
  {
    hide Aligned, AlignDown, AlignUp;
    var a, up := AlignDown(off, z.read), AlignUp(off + hint, z.read);
    AlignDownAligned(off, z.read);
    AlignUpAligned(off + hint, z.read);
    AlignedTrans(z.block, z.cache, z.read);
    MinAligned(up, z.block, z.read);
    AlignedGap(a, Min(up, z.block), z.read);
    MinAligned(Min(up, z.block) - a, z.cache, z.read);
    MultipleAligned(0, z.read);
    AlignedGap(0, z.cache, z.read);
  }

  // A direct read makes progress.
  lemma BypassFits(off: nat, size: nat, diff: nat, r: nat)
    requires r > 0 && off % r == 0 && size >= r && 0 < diff <= size && (diff == size || Aligned(off + diff, r))
    ensures Aligned(off, r) && Aligned(AlignDown(diff, r), r) && 0 < AlignDown(diff, r) <= diff
  {
    AlignDownAligned(diff, r);
    if diff == size {
      AlignDownAtLeast(diff, r);
    } else {
      AlignedGap(off, off + diff, r);
      AlignedUp(diff, r);
    }
  }
}
