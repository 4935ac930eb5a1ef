// Reading, writing and seeking in a file on a FAT volume, through the sector
// buffer of the file object.

module FatFile {
  import opened Bytes
  import opened Bits
  import opened Numbers
  import opened Sequences
  import opened FatEntry
  import opened FatVolume
  import opened FatChain
  import opened FatAlloc
  import opened FatData

  // ---- Chain, buffer and cursor --------------------------------------------------

  ghost predicate Chained(e: seq<nat>, chains: set<seq<nat>>, cs: seq<nat>, sclust: nat) {
    Tiling(e, chains) && if cs == [] then sclust == 0 else cs in chains && sclust == cs[0]
  }

  // A clean buffer repeats a sector of the file.
  ghost predicate Buffered(disk: Sectors, ss: seq<nat>, dirty: bool, sect: nat, buf: seq<byte>) {
    && Holds(disk, ss) && |buf| == SS
    && (sect != 0 ==> sect in ss && (!dirty ==> buf == disk[sect]))
    && (dirty ==> sect != 0)
  }

  // clust is the ci-th cluster of the file, and holds the byte before fptr.
  ghost predicate Cursor(csize: nat, cs: seq<nat>, fptr: nat, clust: nat, ci: nat) {
    fptr > 0 ==> ci < |cs| && clust == cs[ci] && SS * (ci * csize) < fptr <= SS * (ci * csize + csize)
  }

  lemma OverlayHolds(disk: Sectors, ss: seq<nat>, dirty: bool, sect: nat, buf: seq<byte>)
    requires Buffered(disk, ss, dirty, sect, buf)
    ensures Holds(Overlay(disk, dirty, sect, buf), ss)
  {
  }

  // Chains of the table lie in the data area.
  lemma ChainPlaced(e: seq<nat>, chains: set<seq<nat>>, cs: seq<nat>, sclust: nat, size: nat, database: nat, csize: nat)
    requires Chained(e, chains, cs, sclust) && csize > 0 && database > 0 && |e| >= 2
    requires DataEnd(database, csize, |e|) <= size
    ensures Placed(size, database, csize, cs)
  {
    if cs != [] {
      TilingChain(e, chains, cs);
      forall i | 0 <= i < |cs|
        ensures cs[i] >= 2 && ClusterBase(database, csize, cs[i]) + csize <= size
      {
        ClusterFits(database, csize, cs[i], |e|);
      }
    }
  }

  lemma ClusterFits(database: nat, csize: nat, c: nat, n: nat)
    requires 2 <= c < n
    ensures ClusterBase(database, csize, c) + csize <= DataEnd(database, csize, n)
  {
    assert csize * (c - 1) == csize * (c - 2) + csize;
    MulOrder(c - 1, n - 2, csize);
  }

  // The sectors of a chain make a good place for a file.
  lemma PlacedHolds(disk: Sectors, database: nat, csize: nat, cs: seq<nat>)
    requires ValidSectors(disk) && Placed(|disk|, database, csize, cs)
    ensures Holds(disk, SectorsOf(database, csize, cs))
    ensures forall s {:trigger s in SectorsOf(database, csize, cs)} :: s in SectorsOf(database, csize, cs) ==>
              database <= s < |disk|
  {
    hide SectorsOf, Placed;
    SectorsDistinct(|disk|, database, csize, cs);
    SectorsRange(|disk|, database, csize, cs);
    PlacedBase(|disk|, database, csize, cs);
  }

  lemma PlacedBase(size: nat, database: nat, csize: nat, cs: seq<nat>)
    requires Placed(size, database, csize, cs)
    ensures database > 0
  {
  }

  // On a sector boundary: which cluster comes next, and where in it
  lemma CursorSector(csize: nat, cs: seq<nat>, fptr: nat, clust: nat, ci: nat) returns (i: nat, j: nat)
    requires csize > 0 && Cursor(csize, cs, fptr, clust, ci) && fptr % SS == 0 && fptr <= SS * (|cs| * csize)
    ensures fptr == SS * (i * csize + j) && j < csize && i <= |cs| && (i == |cs| ==> j == 0)
    ensures i == fptr / SS / csize && j == fptr / SS % csize
    ensures fptr > 0 ==> ci == if j == 0 then i - 1 else i
  {
    var k := fptr / SS;
    Distribute(|cs|, csize);
    i, j := Split(k, csize, |cs| + 1);
    if fptr > 0 {
      Between(ci, i, j, csize, k);
    }
    if i == |cs| && j > 0 {
      assert false;
    }
  }

  lemma Between(ci: nat, i: nat, j: nat, csize: nat, k: nat)
    requires csize > 0 && j < csize && k == i * csize + j && ci * csize < k <= ci * csize + csize
    ensures ci == if j == 0 then i - 1 else i
  {
    Distribute(ci, csize);
    Distribute(ci + 1, csize);
    Distribute(i, csize);
    if ci > i {
      MulOrder(i + 1, ci, csize);
    } else if ci + 1 < i {
      MulOrder(ci + 2, i, csize);
    } else if ci + 1 == i {
    } else {
    }
  }

  // Sectors of a cluster follow each other.
  lemma Contiguous(database: nat, csize: nat, cs: seq<nat>, i: nat, j: nat, n: nat)
    requires csize > 0 && i < |cs| && j + n <= csize
    ensures i * csize + j + n <= |SectorsOf(database, csize, cs)|
    ensures var k := i * csize + j;
      SectorsOf(database, csize, cs)[k..k + n] == Run(ClusterBase(database, csize, cs[i]) + j, n)
  {
    hide SectorsOf, ClusterBase;
    SectorsCount(database, csize, cs);
    Distribute(i, csize);
    MulOrder(i + 1, |cs|, csize);
    var k: nat := i * csize + j;
    var x, y := SectorsOf(database, csize, cs)[k..k + n], Run(ClusterBase(database, csize, cs[i]) + j, n);
    forall m: nat | m < |x|
      ensures x[m] == y[m]
    {
      SectorsIn(database, csize, cs, i, j + m);
    }
  }

  // A longer chain has all sectors of the shorter one.
  lemma SectorsStretch(database: nat, csize: nat, cs: seq<nat>, r: nat)
    ensures |SectorsOf(database, csize, cs + [r])| == |SectorsOf(database, csize, cs)| + csize
    ensures SectorsOf(database, csize, cs + [r])[..|SectorsOf(database, csize, cs)|] == SectorsOf(database, csize, cs)
  {
    assert (cs + [r])[..|cs|] == cs;
    Distribute(|cs|, csize);
  }

  // The file does not notice what happens before the data area.
  lemma DataFrame(disk: Sectors, disk': Sectors, from: nat, ss: seq<nat>, dirty: bool, sect: nat, buf: seq<byte>,
                  size: nat)
    requires Buffered(disk, ss, dirty, sect, buf) && ValidSectors(disk') && size <= SS * |ss|
    requires |disk'| == |disk| && from <= |disk| && disk'[from..] == disk[from..]
    requires forall s {:trigger s in ss} :: s in ss ==> from <= s
    ensures Buffered(disk', ss, dirty, sect, buf)
    ensures Holds(Overlay(disk, dirty, sect, buf), ss) && Holds(Overlay(disk', dirty, sect, buf), ss)
    ensures FileBytes(Overlay(disk', dirty, sect, buf), ss, size) ==
              FileBytes(Overlay(disk, dirty, sect, buf), ss, size)
  {
    forall k | 0 <= k < |ss|
      ensures disk'[ss[k]] == disk[ss[k]]
    {
      assert ss[k] in ss;
      assert disk'[from..][ss[k] - from] == disk[from..][ss[k] - from];
    }
    if sect != 0 {
      var k :| 0 <= k < |ss| && ss[k] == sect;
    }
  }

  class Fil {
    const alloc: Allocator
    const csize: nat
    const database: nat
    const canWrite: bool
    const buf: array<byte>
    var sclust: nat
    var objsize: nat
    var fptr: nat
    var clust: nat
    var sect: nat
    var dirty: bool
    var modified: bool

    // The chain of the file, all chains, and which cluster clust is
    ghost var cs: seq<nat>
    ghost var chains: set<seq<nat>>
    ghost var ci: nat

    ghost function Ss(): seq<nat>
      reads this
    {
      SectorsOf(database, csize, cs)
    }

    ghost predicate Geometry()
      reads this, alloc.vol
    {
      && csize > 0 && database > 0 && FatEnd(alloc.vol.fatbase, alloc.vol.nFats, alloc.vol.fsize) <= database
      && alloc.vol.nFatent >= 2 && DataEnd(database, csize, alloc.vol.nFatent) <= |alloc.vol.disk|
      && (alloc.vol.winsect < database || alloc.vol.winsect >= |alloc.vol.disk|)
      && buf != alloc.vol.win && buf.Length == SS
    }

    // All but the cursor
    ghost predicate Core()
      reads this, alloc, alloc.vol, alloc.vol.win, buf
    {
      && alloc.vol.Valid() && alloc.Valid() && Geometry()
      && Chained(alloc.Table(), chains, cs, sclust)
      && Buffered(alloc.vol.disk, Ss(), dirty, sect, buf[..])
      && fptr <= objsize <= SS * |Ss()| && objsize < 0x1_0000_0000
    }

    ghost predicate Valid()
      reads this, alloc, alloc.vol, alloc.vol.win, buf
    {
      && Core()
      && Cursor(csize, cs, fptr, clust, ci)
      && (fptr % SS != 0 ==> fptr / SS < |Ss()| && sect == Ss()[fptr / SS])
    }

    // The contents of the file
    ghost function View(): (v: seq<byte>)
      requires Core()
      reads this, alloc, alloc.vol, alloc.vol.win, buf
      ensures |v| == objsize
    {
      OverlayHolds(alloc.vol.disk, Ss(), dirty, sect, buf[..]);
      FileBytes(Overlay(alloc.vol.disk, dirty, sect, buf[..]), Ss(), objsize)
    }

    // f_open, without seeking to the end
    constructor (alloc: Allocator, csize: nat, database: nat, canWrite: bool, sclust: nat, objsize: nat,
                 ghost cs: seq<nat>, ghost chains: set<seq<nat>>)
      requires alloc.vol.Valid() && alloc.Valid() && Chained(alloc.Table(), chains, cs, sclust)
      requires objsize < 0x1_0000_0000
      requires csize > 0 && database > 0 && FatEnd(alloc.vol.fatbase, alloc.vol.nFats, alloc.vol.fsize) <= database
      requires alloc.vol.nFatent >= 2 && DataEnd(database, csize, alloc.vol.nFatent) <= |alloc.vol.disk|
      requires alloc.vol.winsect < database || alloc.vol.winsect >= |alloc.vol.disk|
      requires Holds(alloc.vol.disk, SectorsOf(database, csize, cs)) && objsize <= SS * |SectorsOf(database, csize, cs)|
      ensures Valid() && fptr == 0 && View() == FileBytes(alloc.vol.disk, SectorsOf(database, csize, cs), objsize)
      ensures this.alloc == alloc && this.cs == cs && this.chains == chains
    {
      hide DataEnd, FatEnd, Chained, SectorsOf, FileBytes, Holds, Tiling;
      hide Allocator.Valid;
      hide Allocator.Table;
      hide Volume.Valid;
      this.alloc, this.csize, this.database, this.canWrite := alloc, csize, database, canWrite;
      this.sclust, this.objsize, this.cs, this.chains := sclust, objsize, cs, chains;
      fptr, clust, sect, dirty, modified, ci := 0, 0, 0, false, false, 0;
      buf := new byte[SS](_ => 0);
    }

    lemma SectorsInData()
      requires Core()
      ensures forall s {:trigger s in Ss()} :: s in Ss() ==> database <= s < |alloc.vol.disk|
      ensures database <= |alloc.vol.disk| && ValidSectors(alloc.vol.disk)
    {
      hide DataEnd, FatEnd, SectorsOf, Placed, Chained;
      hide Allocator.Valid;
      hide Allocator.Table;
      hide Volume.Valid;
      ChainPlaced(alloc.Table(), chains, cs, sclust, |alloc.vol.disk|, database, csize);
      PlacedHolds(alloc.vol.disk, database, csize, cs);
    }

    // Looking up a cluster does not disturb the file.
    method GetFat(c: nat) returns (v: nat)
      requires Core()
      modifies alloc.vol, alloc.vol.win
      ensures Core() && View() == old(View()) && alloc.Table() == old(alloc.Table())
      ensures v == if 2 <= c < alloc.vol.nFatent then alloc.Table()[c] else 1
    {
      hide DataEnd, FatEnd, Chained, SectorsOf, FileBytes, Overlay, Buffered, Holds, Accurate;
      hide Allocator.Table;
      hide Volume.Valid;
      SectorsInData();
      ghost var disk := alloc.vol.disk;
      v := alloc.Get(c);
      alloc.vol.DataSame(database);
      VolumeSectors(alloc.vol);
      DataFrame(disk, alloc.vol.disk, database, Ss(), dirty, sect, buf[..], objsize);
    }

    // The link from the i-th cluster to the next one
    lemma NextCluster(i: nat)
      requires Core() && 0 < i < |cs|
      ensures 2 <= cs[i - 1] < alloc.vol.nFatent && alloc.Table()[cs[i - 1]] == cs[i]
    {
      hide DataEnd, FatEnd, SectorsOf, Buffered;
      hide Allocator.Valid;
      hide Allocator.Table;
      hide Volume.Valid;
      TilingChain(alloc.Table(), chains, cs);
    }

    lemma FirstCluster()
      requires Core() && cs != []
      ensures sclust == cs[0]
    {
      hide DataEnd, FatEnd, SectorsOf, Buffered;
      hide Allocator.Valid;
      hide Allocator.Table;
      hide Volume.Valid;
    }

    // The position of the cursor on a sector boundary
    lemma Boundary() returns (i: nat, j: nat)
      requires Valid() && fptr % SS == 0
      ensures fptr == SS * (i * csize + j) && j < csize && i <= |cs| && (i == |cs| ==> j == 0)
      ensures j == fptr / SS % csize && |Ss()| == |cs| * csize
      ensures fptr > 0 ==> ci < |cs| && clust == cs[ci] && ci == if j == 0 then i - 1 else i
      ensures fptr < objsize ==> i < |cs|
    {
      hide DataEnd, FatEnd, SectorsOf, Buffered, Chained;
      hide Allocator.Valid;
      hide Allocator.Table;
      hide Volume.Valid;
      SectorsCount(database, csize, cs);
      i, j := CursorSector(csize, cs, fptr, clust, ci);
    }

    // On a sector boundary of a file that is read: go to its cluster.
    method EnterRead() returns (csect: nat, ghost i: nat)
      requires Valid() && fptr % SS == 0 && fptr < objsize
      modifies this`clust, alloc.vol, alloc.vol.win
      ensures Core() && View() == old(View())
      ensures i < |cs| && csect < csize && fptr == SS * (i * csize + csect) && clust == cs[i]
    {
      hide DataEnd, FatEnd, Chained, SectorsOf, FileBytes, Overlay, Buffered, Holds;
      hide Allocator.Valid;
      hide Allocator.Table;
      hide Volume.Valid;
      ghost var j;
      i, j := Boundary();
      csect := fptr / SS % csize;
      if csect == 0 {
        if fptr == 0 {
          FirstCluster();
          clust := sclust;
          ZeroSector(i, csize);
        } else {
          NextCluster(i);
          clust := GetFat(clust);
        }
      }
    }

    // Read whole sectors past the buffer, but for the one it holds dirty.
    method DirectRead(csect: nat, cc: nat, ghost i: nat) returns (data: seq<byte>)
      requires Core() && i < |cs| && 0 < cc && csect + cc <= csize && clust == cs[i]
      requires fptr == SS * (i * csize + csect) && fptr + SS * cc <= objsize
      ensures data == View()[fptr..fptr + SS * cc]
    {
      hide DataEnd, FatEnd, Chained, SectorsOf, FileBytes, Overlay, Buffered, Holds, Run, ClusterBase;
      hide Allocator.Valid;
      hide Allocator.Table;
      hide Volume.Valid;
      ghost var k: nat := i * csize + csect;
      Contiguous(database, csize, cs, i, csect, cc);
      var sect0 := ClusterBase(database, csize, clust) + csect;
      RunInside(alloc.vol.disk, Ss(), dirty, sect, buf[..], k, sect0, cc);
      var sectors := alloc.vol.disk[sect0..sect0 + cc];
      if dirty && sect0 <= sect < sect0 + cc {
        sectors := sectors[sect - sect0 := buf[..]];
      }
      OverlayHolds(alloc.vol.disk, Ss(), dirty, sect, buf[..]);
      RunSeen(alloc.vol.disk, Ss(), dirty, sect, buf[..], k, sect0, cc, sectors);
      BytesOfSectors(Overlay(alloc.vol.disk, dirty, sect, buf[..]), Ss(), objsize, k, sectors);
      data := Join(sectors);
    }

    // Write a dirty buffer back.
    method WriteBack()
      requires Core()
      modifies this`dirty, alloc.vol`disk
      ensures Core() && View() == old(View()) && !dirty && alloc.Table() == old(alloc.Table())
    {
      hide DataEnd, FatEnd, Chained, SectorsOf, FileBytes;
      hide Allocator.Valid;
      hide Allocator.Table;
      hide Volume.Valid;
      if dirty {
        SectorsInData();
        VolumeBounds(alloc.vol);
        alloc.WriteData(sect, [buf[..]]);
        dirty := false;
      }
    }

    // Fill the buffer.
    method Fill(data: seq<byte>)
      requires |data| == buf.Length
      modifies buf
      ensures buf[..] == data
    {
      forall m | 0 <= m < |data| {
        buf[m] := data[m];
      }
    }

    // Bring the sector of the cursor into the buffer.
    method LoadSector(csect: nat, ghost i: nat)
      requires Core() && i < |cs| && csect < csize && clust == cs[i] && fptr / SS == i * csize + csect
      modifies this`dirty, this`sect, alloc.vol`disk, buf
      ensures Core() && View() == old(View()) && alloc.Table() == old(alloc.Table())
      ensures fptr / SS < |Ss()| && sect == Ss()[fptr / SS]
    {
      hide DataEnd, FatEnd, Chained, SectorsOf, FileBytes, ClusterBase;
      hide Allocator.Valid;
      hide Allocator.Table;
      hide Volume.Valid;
      ghost var k: nat := i * csize + csect;
      SectorsIn(database, csize, cs, i, csect);
      assert fptr / SS == k;
      assert Ss()[k] in Ss();
      SectorsInData();
      var sect0 := ClusterBase(database, csize, clust) + csect;
      if sect != sect0 {
        WriteBack();
        Fill(alloc.vol.disk[sect0]);
      }
      sect := sect0;
    }

    // Read from the buffer.
    method ReadPart(n: nat) returns (data: seq<byte>)
      requires Core() && fptr / SS < |Ss()| && sect == Ss()[fptr / SS] && 0 < n && fptr % SS + n <= SS
      requires fptr + n <= objsize
      ensures data == View()[fptr..fptr + n]
    {
      hide DataEnd, FatEnd, Chained, SectorsOf, FileBytes, Placed;
      hide Allocator.Valid;
      hide Allocator.Table;
      hide Volume.Valid;
      OverlayHolds(alloc.vol.disk, Ss(), dirty, sect, buf[..]);
      BytesOfSector(Overlay(alloc.vol.disk, dirty, sect, buf[..]), Ss(), objsize, fptr, n);
      data := buf[fptr % SS..fptr % SS + n];
    }

    // Move the cursor inside the file.
    method Advance(n: nat, ghost i: nat)
      requires Core() && i < |cs| && clust == cs[i] && fptr + n <= objsize
      requires SS * (i * csize) < fptr + n <= SS * (i * csize + csize)
      requires (fptr + n) % SS != 0 ==> (fptr + n) / SS < |Ss()| && sect == Ss()[(fptr + n) / SS]
      modifies this`fptr, this`ci
      ensures Valid() && View() == old(View()) && fptr == old(fptr) + n
    {
      hide DataEnd, FatEnd, Chained, SectorsOf, FileBytes, Buffered, Overlay;
      hide Allocator.Valid;
      hide Allocator.Table;
      hide Volume.Valid;
      fptr := fptr + n;
      ci := i;
    }

    // Read as many whole sectors as the cluster has.
    method DirectRound(csect: nat, cc0: nat, ghost i: nat) returns (data: seq<byte>)
      requires Core() && i < |cs| && csect < csize && clust == cs[i] && fptr == SS * (i * csize + csect)
      requires 0 < cc0 && fptr + SS * cc0 <= objsize
      modifies this`fptr, this`ci
      ensures Valid() && View() == old(View())
      ensures 0 < |data| <= SS * cc0 && fptr == old(fptr) + |data| && data == View()[old(fptr)..fptr]
    {
      hide Core, Cursor, DataEnd, FileBytes;
      var cc: nat := if csect + cc0 > csize then csize - csect else cc0;
      data := DirectRead(csect, cc, i);
      ghost var end: nat := i * csize + csect + cc;
      assert fptr + SS * cc == SS * end;
      Aligned(end);
      Advance(SS * cc, i);
    }

    // Read what there is in the sector of the cursor.
    method BufferRound(btr: nat, ghost i: nat) returns (data: seq<byte>)
      requires Core() && i < |cs| && clust == cs[i] && SS * (i * csize) <= fptr < SS * (i * csize + csize)
      requires fptr / SS < |Ss()| && sect == Ss()[fptr / SS] && 0 < btr && fptr + btr <= objsize
      modifies this`fptr, this`ci
      ensures Valid() && View() == old(View())
      ensures 0 < |data| <= btr && fptr == old(fptr) + |data| && data == View()[old(fptr)..fptr]
    {
      hide Core, Cursor, DataEnd, FileBytes;
      var rcnt: nat := SS - fptr % SS;
      if rcnt > btr {
        rcnt := btr;
      }
      SameSectorPart(fptr, rcnt, i * csize + csize);
      data := ReadPart(rcnt);
      Advance(rcnt, i);
    }

    // In the middle of a sector the cursor is in its cluster.
    lemma Middle()
      requires Valid() && fptr % SS != 0
      ensures Core() && ci < |cs| && clust == cs[ci] && SS * (ci * csize) <= fptr < SS * (ci * csize + csize)
      ensures fptr / SS < |Ss()| && sect == Ss()[fptr / SS]
    {
      hide Core;
    }

    // One round of f_read
    method ReadRound(btr: nat) returns (data: seq<byte>)
      requires Valid() && 0 < btr && fptr + btr <= objsize
      modifies this`clust, this`dirty, this`sect, this`fptr, this`ci, alloc.vol, alloc.vol.win, buf
      ensures Valid() && View() == old(View())
      ensures 0 < |data| <= btr && fptr == old(fptr) + |data| && data == View()[old(fptr)..fptr]
    {
      hide Core, Cursor, DataEnd, FileBytes;
      if fptr % SS == 0 {
        var csect: nat;
        ghost var i: nat;
        csect, i := EnterRead();
        var cc: nat := btr / SS;
        if cc > 0 {
          data := DirectRound(csect, cc, i);
          return;
        }
        LoadSector(csect, i);
        data := BufferRound(btr, i);
      } else {
        Middle();
        data := BufferRound(btr, ci);
      }
    }

    // f_read
    method Read(btr0: nat) returns (data: seq<byte>)
      requires Valid()
      modifies this`clust, this`dirty, this`sect, this`fptr, this`ci, alloc.vol, alloc.vol.win, buf
      ensures Valid() && View() == old(View())
      ensures fptr == (if old(fptr) + btr0 < objsize then old(fptr) + btr0 else objsize)
      ensures data == View()[old(fptr)..fptr]
    {
      hide Core, Cursor, DataEnd;
      CursorInside();
      var remain: nat := objsize - fptr;
      var btr: nat := if btr0 > remain then remain else btr0;
      data := [];
      ghost var v, p := View(), fptr;
      while btr > 0
        invariant Valid() && View() == v && p <= fptr <= objsize && objsize == old(objsize)
        invariant fptr + btr == p + (if btr0 > remain then remain else btr0)
        invariant data == v[p..fptr]
        decreases btr
      {
        ghost var q := fptr;
        var part := ReadRound(btr);
        Adjacent(v, p, q, fptr);
        data := data + part;
        btr := btr - |part|;
      }
    }

    lemma CursorInside()
      requires Valid()
      ensures fptr <= objsize < 0x1_0000_0000
    {
    }

    // create_chain after the cluster c, which is followed by the i-th cluster
    // of the file if there is one; 0 if no cluster is free
    method GrowChain(c: nat, ghost i: nat) returns (r: nat)
      requires Core() && i <= |cs| && if c == 0 then cs == [] else i > 0 && c == cs[i - 1]
      modifies this`sclust, this`cs, this`chains, alloc, alloc.vol, alloc.vol.win
      ensures Core() && View() == old(View())
      ensures r == 0 ==> AllUsed(alloc.Table()) && cs == old(cs)
      ensures r != 0 ==> i < |cs| && r == cs[i] && old(cs) <= cs
      ensures i < |old(cs)| ==> r != 0 && cs == old(cs)
    {
      hide DataEnd, FatEnd, Chained, SectorsOf, FileBytes, Overlay, Buffered, Holds, Created;
      hide Allocator.Table;
      hide Volume.Valid;
      SectorsInData();
      ghost var disk, e, cs0 := alloc.vol.disk, alloc.Table(), cs;
      r := alloc.CreateChain(c);
      alloc.vol.DataSame(database);
      VolumeSectors(alloc.vol);
      cs, chains := Grown(e, chains, cs, sclust, c, i, r, alloc.Table(), Limit(alloc.vol.kind) - 1);
      if c == 0 && r != 0 {
        sclust := r;
      }
      FileGrown(disk, alloc.vol.disk, alloc.Table(), chains, database, csize, cs0, cs, sclust, dirty, sect, buf[..],
        objsize);
    }

    // On a sector boundary of a file that is written: go to its cluster, which
    // may have to be allocated.
    method EnterWrite() returns (full: bool, csect: nat, ghost i: nat)
      requires Valid() && fptr % SS == 0
      modifies this`clust, this`sclust, this`cs, this`chains, alloc, alloc.vol, alloc.vol.win
      ensures Core() && View() == old(View())
      ensures full ==> Valid() && AllUsed(alloc.Table())
      ensures !full ==> i < |cs| && csect < csize && fptr == SS * (i * csize + csect) && clust == cs[i]
    {
      hide DataEnd, FatEnd, Chained, SectorsOf, FileBytes, Overlay, Buffered, Holds;
      hide Allocator.Valid;
      hide Allocator.Table;
      hide Volume.Valid;
      ghost var j;
      i, j := Boundary();
      csect := fptr / SS % csize;
      full := false;
      if csect == 0 {
        var clst;
        if fptr == 0 {
          ZeroSector(i, csize);
          clst := sclust;
          Origin();
          if clst == 0 {
            clst := GrowChain(0, 0);
          }
        } else {
          NotFree();
          clst := GrowChain(clust, i);
        }
        if clst == 0 {
          full := true;
          return;
        }
        clust := clst;
      }
    }

    lemma Origin()
      requires Core()
      ensures sclust == 0 <==> cs == []
      ensures cs != [] ==> sclust == cs[0]
    {
      hide DataEnd, FatEnd, SectorsOf, Buffered;
      hide Allocator.Valid;
      hide Allocator.Table;
      hide Volume.Valid;
      if cs != [] {
        TilingChain(alloc.Table(), chains, cs);
      }
    }

    lemma NotFree()
      requires Valid() && fptr > 0
      ensures clust != 0
    {
      hide DataEnd, FatEnd, SectorsOf, Buffered;
      hide Allocator.Valid;
      hide Allocator.Table;
      hide Volume.Valid;
      TilingChain(alloc.Table(), chains, cs);
    }

    // Write a run of sectors past the buffer, and refresh it if it holds one.
    method StoreRun(chunks: seq<seq<byte>>, sect0: nat, cc: nat, ghost k: nat)
      requires Core() && !dirty && 0 < cc == |chunks| && k + cc <= |Ss()| && Ss()[k..k + cc] == Run(sect0, cc)
      requires fptr == SS * k && ValidSectors(chunks)
      modifies alloc.vol`disk, buf
      ensures Core() && alloc.Table() == old(alloc.Table())
      ensures var seen := Overlay(alloc.vol.disk, dirty, sect, buf[..]);
        && Holds(seen, Ss()) && fptr <= |old(View())|
        && FileBytes(seen, Ss(), Max(objsize, fptr + SS * cc)) == Overwrite(old(View()), fptr, Join(chunks))
    {
      hide DataEnd, FatEnd, Chained, SectorsOf, FileBytes, Overwrite, Holds, Run, Join, Overlay;
      hide Allocator.Valid;
      hide Allocator.Table;
      hide Volume.Valid;
      ghost var disk, ss, was := alloc.vol.disk, Ss(), buf[..];
      RunInside(disk, ss, dirty, sect, buf[..], k, sect0, cc);
      RunAt(ss, k, sect0, cc);
      SectorsInData();
      hide Buffered;
      alloc.WriteData(sect0, chunks);
      if sect0 <= sect < sect0 + cc {
        Fill(chunks[sect - sect0]);
      }
      RunResult(disk, alloc.vol.disk, ss, k, sect0, cc, chunks, sect, was, buf[..], objsize);
    }

    method WriteRun(data: seq<byte>, sect0: nat, cc: nat, ghost k: nat)
      requires Core() && !dirty && 0 < cc && k + cc <= |Ss()| && Ss()[k..k + cc] == Run(sect0, cc)
      requires fptr == SS * k && SS * cc <= |data| && fptr + |data| < 0x1_0000_0000
      modifies this`fptr, this`objsize, alloc.vol`disk, buf
      ensures Core() && fptr == old(fptr) + SS * cc && alloc.Table() == old(alloc.Table()) && !dirty
      ensures View() == Overwrite(old(View()), old(fptr), data[..SS * cc])
    {
      hide DataEnd, FatEnd, Chained, SectorsOf, FileBytes, Overwrite, Holds, Run, Join, Overlay, Buffered;
      hide Allocator.Valid;
      hide Allocator.Table;
      hide Volume.Valid;
      var chunks := Chunks(data, cc);
      StoreRun(chunks, sect0, cc, k);
      fptr := fptr + SS * cc;
      objsize := Max(objsize, fptr);
    }

    // Write as many whole sectors as the cluster has.
    method DirectWrite(data: seq<byte>, csect: nat, ghost i: nat) returns (n: nat)
      requires Core() && !dirty && i < |cs| && clust == cs[i] && csect < csize
      requires fptr == SS * (i * csize + csect) && SS <= |data| && fptr + |data| < 0x1_0000_0000
      modifies this`fptr, this`objsize, this`ci, alloc.vol`disk, buf
      ensures Valid() && 0 < n <= |data| && fptr == old(fptr) + n && alloc.Table() == old(alloc.Table())
      ensures View() == Overwrite(old(View()), old(fptr), data[..n])
    {
      hide Core, Overwrite, Run, ClusterBase, SectorsOf, DataEnd, Cursor, FileBytes;
      var cc: nat := |data| / SS;
      if csect + cc > csize {
        cc := csize - csect;
      }
      ghost var m: nat := i * csize;
      Contiguous(database, csize, cs, i, csect, cc);
      n := SS * cc;
      WriteRun(data, ClusterBase(database, csize, clust) + csect, cc, m + csect);
      Aligned(m + csect + cc);
      Place(i);
    }

    // The cursor is in the i-th cluster, or at its end.
    ghost method Place(i: nat)
      requires Core() && i < |cs| && clust == cs[i] && SS * (i * csize) < fptr <= SS * (i * csize + csize)
      requires fptr % SS != 0 ==> fptr / SS < |Ss()| && sect == Ss()[fptr / SS]
      modifies this`ci
      ensures Valid() && View() == old(View())
    {
      hide DataEnd, FatEnd, Chained, SectorsOf, FileBytes, Buffered, Overlay;
      hide Allocator.Valid;
      hide Allocator.Table;
      hide Volume.Valid;
      ci := i;
    }

    // All but the buffer, which belongs to the sector of the cursor
    ghost predicate Pending(seen: Sectors)
      reads this, alloc, alloc.vol, alloc.vol.win, buf
    {
      && alloc.vol.Valid() && alloc.Valid() && Geometry()
      && Chained(alloc.Table(), chains, cs, sclust)
      && fptr <= objsize <= SS * |Ss()| && objsize < 0x1_0000_0000
      && fptr / SS < |Ss()| && sect == Ss()[fptr / SS]
      && Agrees(alloc.vol.disk, seen, Ss(), fptr / SS, buf[..], objsize)
    }

    // Put a part of a sector into the buffer; `seen` is the file before.
    method PutPart(part: seq<byte>, ghost seen: Sectors)
      requires Pending(seen) && part != [] && fptr % SS + |part| <= SS && fptr + |part| < 0x1_0000_0000
      modifies this`dirty, this`fptr, this`objsize, buf
      ensures Core() && fptr == old(fptr) + |part|
      ensures Holds(seen, Ss()) && View() == Overwrite(FileBytes(seen, Ss(), old(objsize)), old(fptr), part)
    {
      hide DataEnd, FatEnd, Chained, SectorsOf, FileBytes, Overwrite, Holds, Overlay, Buffered, Agrees;
      hide Allocator.Valid;
      hide Allocator.Table;
      hide Volume.Valid;
      ghost var was, p, size := buf[..], fptr, objsize;
      var o := fptr % SS;
      forall m | 0 <= m < |part| {
        buf[o + m] := part[m];
      }
      dirty := true;
      PartFits(p, |part|, |Ss()|);
      PartWritten(alloc.vol.disk, seen, Ss(), size, p, part, was, buf[..]);
      fptr := fptr + |part|;
      objsize := Max(objsize, fptr);
    }

    // Get the sector of the cursor for writing; at the end of the file
    // it is not read.
    method GetSector(csect: nat, ghost i: nat) returns (ghost seen: Sectors)
      requires Core() && !dirty && i < |cs| && csect < csize && clust == cs[i] && fptr == SS * (i * csize + csect)
      modifies this`sect, buf
      ensures Pending(seen) && Holds(seen, Ss()) && FileBytes(seen, Ss(), objsize) == old(View())
    {
      hide DataEnd, FatEnd, Chained, SectorsOf, FileBytes, ClusterBase;
      hide Allocator.Valid;
      hide Allocator.Table;
      hide Volume.Valid;
      ghost var k: nat := i * csize + csect;
      SectorsIn(database, csize, cs, i, csect);
      assert fptr / SS == k;
      assert Ss()[k] in Ss();
      seen := alloc.vol.disk;
      var sect0 := ClusterBase(database, csize, clust) + csect;
      if sect != sect0 && fptr < objsize {
        Fill(alloc.vol.disk[sect0]);
      }
      sect := sect0;
    }

    // In the middle of a sector the buffer is the sector.
    lemma MiddlePending() returns (seen: Sectors)
      requires Valid() && fptr % SS != 0
      ensures Pending(seen) && Holds(seen, Ss()) && FileBytes(seen, Ss(), objsize) == View()
    {
      hide DataEnd, FatEnd, Chained, SectorsOf, FileBytes;
      hide Allocator.Valid;
      hide Allocator.Table;
      hide Volume.Valid;
      assert Ss()[fptr / SS] in Ss();
      OverlayHolds(alloc.vol.disk, Ss(), dirty, sect, buf[..]);
      seen := Overlay(alloc.vol.disk, dirty, sect, buf[..]);
    }

    // Write what fits into the sector of the cursor.
    method WritePart(data: seq<byte>, ghost i: nat, ghost seen: Sectors) returns (n: nat)
      requires Pending(seen) && data != [] && fptr + |data| < 0x1_0000_0000
      requires i < |cs| && clust == cs[i] && SS * (i * csize) <= fptr < SS * (i * csize + csize)
      modifies this`dirty, this`fptr, this`objsize, this`ci, buf
      ensures Valid() && 0 < n <= |data| && fptr == old(fptr) + n && Holds(seen, Ss())
      ensures View() == Overwrite(FileBytes(seen, Ss(), old(objsize)), old(fptr), data[..n])
    {
      hide DataEnd, FatEnd, Chained, SectorsOf, FileBytes, Overwrite, Holds, Overlay, Buffered, Agrees;
      hide Allocator.Valid;
      hide Allocator.Table;
      hide Volume.Valid;
      n := SS - fptr % SS;
      if n > |data| {
        n := |data|;
      }
      SameSectorPart(fptr, n, i * csize + csize);
      PutPart(data[..n], seen);
      Place(i);
    }

    // One round of f_write; 0 if no cluster is free
    method WriteRound(data: seq<byte>) returns (n: nat)
      requires Valid() && data != [] && fptr + |data| < 0x1_0000_0000
      modifies this, alloc, alloc.vol, alloc.vol.win, buf
      ensures Valid() && n <= |data| && fptr == old(fptr) + n && old(fptr) <= |old(View())|
      ensures if n == 0 then View() == old(View()) && AllUsed(alloc.Table())
              else View() == Overwrite(old(View()), old(fptr), data[..n])
    {
      hide Core, Cursor, DataEnd, FileBytes, Overwrite, Pending;
      CursorInside();
      if fptr % SS == 0 {
        var full, csect: nat;
        ghost var i: nat;
        full, csect, i := EnterWrite();
        if full {
          return 0;
        }
        WriteBack();
        if |data| / SS > 0 {
          n := DirectWrite(data, csect, i);
        } else {
          ghost var seen := GetSector(csect, i);
          n := WritePart(data, i, seen);
        }
      } else {
        Middle();
        ghost var seen := MiddlePending();
        n := WritePart(data, ci, seen);
      }
    }

    // The loop of f_write
    method WriteRounds(data: seq<byte>) returns (bw: nat)
      requires Valid() && fptr + |data| < 0x1_0000_0000
      modifies this, alloc, alloc.vol, alloc.vol.win, buf
      ensures Valid() && bw <= |data| && fptr == old(fptr) + bw && old(fptr) <= |old(View())|
      ensures View() == Overwrite(old(View()), old(fptr), data[..bw])
      ensures bw < |data| ==> AllUsed(alloc.Table())
    {
      hide Core, Cursor, DataEnd, FileBytes, Overwrite, AllUsed;
      CursorInside();
      ghost var v, p := View(), fptr;
      OverwriteNothing(v, p);
      bw := 0;
      while bw < |data|
        invariant Valid() && bw <= |data| && fptr == p + bw && p <= |v|
        invariant View() == Overwrite(v, p, data[..bw])
        decreases |data| - bw
      {
        var n := WriteRound(data[bw..]);
        if n == 0 {
          break;
        }
        OverwriteMore(v, p, data, bw, n);
        bw := bw + n;
      }
    }

    // f_write: all of the data, or what fits until no cluster is free
    method Write(data0: seq<byte>) returns (ok: bool, bw: nat)
      requires Valid() && |data0| < 0x1_0000_0000
      modifies this, alloc, alloc.vol, alloc.vol.win, buf
      ensures Valid() && ok == canWrite && old(fptr) <= |old(View())|
      ensures bw <= |data0| && fptr == old(fptr) + bw
      ensures View() == Overwrite(old(View()), old(fptr), data0[..bw])
      ensures ok && bw < |data0| ==> old(fptr) + bw == 0xFFFF_FFFF || AllUsed(alloc.Table())
      ensures if ok then modified else modified == old(modified)
    {
      hide Core, Cursor, DataEnd, FileBytes, Overwrite, AllUsed;
      CursorInside();
      OverwriteNothing(View(), fptr);
      if !canWrite {
        return false, 0;
      }
      ok := true;
      var data := data0;
      if fptr + |data| >= 0x1_0000_0000 {
        data := data[..0xFFFF_FFFF - fptr];
      }
      bw := WriteRounds(data);
      assert data[..bw] == data0[..bw];
      SetModified();
    }

    // The flag FA_MODIFIED: the directory entry is to be written.
    method SetModified()
      requires Valid()
      modifies this`modified
      ensures Valid() && View() == old(View()) && modified
    {
      hide DataEnd, FatEnd, Chained, SectorsOf, FileBytes, Holds, Tiling;
      hide Allocator.Valid;
      hide Allocator.Table;
      hide Volume.Valid;
      modified := true;
    }

    // Where the search for the cluster of a position starts; it fails if the
    // file has no cluster and none is free.
    method SeekStart(target: nat) returns (ok: bool, pos: nat, ghost i: nat)
      requires Valid() && 0 < target && (target <= objsize || canWrite)
      modifies this`clust, this`sclust, this`cs, this`chains, alloc, alloc.vol, alloc.vol.win
      ensures Core() && View() == old(View())
      ensures ok ==> i < |cs| && clust == cs[i] && pos == SS * (i * csize) && pos < target
      ensures !ok ==> cs == [] && AllUsed(alloc.Table())
    {
      hide DataEnd, FatEnd, Chained, SectorsOf, FileBytes, Overlay, Buffered;
      hide Allocator.Valid;
      hide Allocator.Table;
      hide Volume.Valid;
      Origin();
      var bcs := csize * SS;
      ok := true;
      if fptr > 0 {
        CursorCluster(csize, ci, fptr);
        var q, q' := (target - 1) / bcs, (fptr - 1) / bcs;
        if q >= q' {
          AtLeast(target - 1, bcs, q');
          Regroup(ci, csize);
          return true, q' * bcs, ci;
        }
      }
      pos, i := 0, 0;
      var clst := sclust;
      if clst == 0 {
        clst := GrowChain(0, 0);
      }
      ok := clst != 0;
      if ok {
        Origin();
        clust := clst;
      }
    }

    lemma InUse(i: nat)
      requires Core() && i < |cs|
      ensures cs[i] != 0 && sclust == cs[0]
    {
      hide DataEnd, FatEnd, SectorsOf, Buffered;
      hide Allocator.Valid;
      hide Allocator.Table;
      hide Volume.Valid;
      TilingChain(alloc.Table(), chains, cs);
    }

    // Follow the chain to the cluster that holds the byte before the target,
    // stretching it if that is missing.  On a full disk the target is clipped
    // to the end of the chain.
    method SeekFollow(pos0: nat, target0: nat, ghost i0: nat) returns (pos: nat, target: nat, ghost i: nat)
      requires Core() && i0 < |cs| && clust == cs[i0] && pos0 == SS * (i0 * csize) < target0
      requires target0 <= objsize || canWrite
      modifies this`clust, this`sclust, this`cs, this`chains, alloc, alloc.vol, alloc.vol.win
      ensures Core() && View() == old(View())
      ensures i < |cs| && clust == cs[i] && pos == SS * (i * csize) && pos < target <= SS * (i * csize + csize)
      ensures target == target0 || (objsize <= target <= target0 && AllUsed(alloc.Table()))
    {
      hide DataEnd, FatEnd, Chained, SectorsOf, FileBytes, Overlay, Buffered, AllUsed;
      hide Allocator.Valid;
      hide Allocator.Table;
      hide Volume.Valid;
      pos, target, i := pos0, target0, i0;
      ghost var v := View();
      Regroup(1, csize);
      while target - pos > csize * SS
        invariant Core() && View() == v && objsize == |v| && (target0 <= objsize || canWrite)
        invariant i < |cs| && clust == cs[i] && pos == SS * (i * csize) && pos < target
        invariant target == target0 ||
                  (objsize <= target <= target0 && AllUsed(alloc.Table()) && target - pos <= csize * SS)
        decreases target - pos
      {
        var next;
        ghost var j;
        next, j := FollowOne(pos, target, i);
        if next {
          pos, i := pos + csize * SS, j;
        } else {
          target := pos + csize * SS;
        }
      }
    }

    method FollowOne(pos: nat, target: nat, ghost i: nat) returns (next: bool, ghost j: nat)
      requires Core() && i < |cs| && clust == cs[i] && pos == SS * (i * csize) && target - pos > csize * SS
      requires target <= objsize || canWrite
      modifies this`clust, this`sclust, this`cs, this`chains, alloc, alloc.vol, alloc.vol.win
      ensures Core() && View() == old(View())
      ensures next ==> j < |cs| && clust == cs[j] && pos + csize * SS == SS * (j * csize)
      ensures !next ==> clust == old(clust) && i < |cs| && clust == cs[i]
                        && objsize <= pos + csize * SS && AllUsed(alloc.Table())
    {
      hide DataEnd, FatEnd, Chained, SectorsOf, FileBytes, Overlay, Buffered;
      hide Allocator.Valid;
      hide Allocator.Table;
      hide Volume.Valid;
      SectorsCount(database, csize, cs);
      ChainEnd(i, |cs|, csize, objsize, target);
      next, j := true, i + 1;
      if canWrite {
        InUse(i);
        var clst := GrowChain(clust, j);
        if clst == 0 {
          return false, j;
        }
        clust := clst;
      } else {
        NextCluster(j);
        clust := GetFat(clust);
      }
    }

    // f_lseek: inside the file the cursor moves there; in write mode a position
    // behind the end extends the file, as far as there are free clusters.
    method Seek(ofs: nat)
      requires Valid() && ofs < 0x1_0000_0000
      modifies this, alloc, alloc.vol, alloc.vol.win, buf
      ensures Valid() && old(View()) <= View()
      ensures !canWrite || ofs <= |old(View())| ==>
                View() == old(View()) && fptr == (if ofs > |View()| then |View()| else ofs) && modified == old(modified)
      ensures canWrite && ofs > |old(View())| ==>
                && fptr == |View()| <= ofs && (fptr < ofs ==> AllUsed(alloc.Table()))
                && (modified <==> old(modified) || |View()| > |old(View())|)
    {
      hide Core, Cursor, DataEnd, SectorsOf, FileBytes, AllUsed;
      CursorInside();
      var target := if ofs > objsize && !canWrite then objsize else ofs;
      if target == 0 {
        Rewind();
        return;
      }
      var ok, pos;
      ghost var i;
      ok, pos, i := SeekStart(target);
      if !ok {
        NoSectors();
        Rewind();
        return;
      }
      pos, target, i := SeekFollow(pos, target, i);
      SeekFinish(pos, target, i);
    }

    lemma NoSectors()
      requires Core() && cs == []
      ensures objsize == 0
    {
      hide DataEnd, FatEnd, Buffered, Chained;
      hide Allocator.Valid;
      hide Allocator.Table;
      hide Volume.Valid;
    }

    method Rewind()
      requires Core()
      modifies this`fptr
      ensures Valid() && View() == old(View()) && fptr == 0
    {
      hide DataEnd, FatEnd, Chained, SectorsOf, FileBytes, Overlay, Buffered;
      hide Allocator.Valid;
      hide Allocator.Table;
      hide Volume.Valid;
      fptr := 0;
    }

    method SeekFinish(pos: nat, target: nat, ghost i: nat)
      requires Core() && i < |cs| && clust == cs[i] && pos == SS * (i * csize)
      requires pos < target <= SS * (i * csize + csize)
      requires target < 0x1_0000_0000
      modifies this`fptr, this`objsize, this`modified, this`dirty, this`sect, this`ci, alloc.vol`disk, buf
      ensures Valid() && fptr == target && old(View()) <= View() && |View()| == Max(old(objsize), target)
      ensures alloc.Table() == old(alloc.Table()) && (modified <==> old(modified) || target > old(objsize))
    {
      hide DataEnd, FatEnd, Chained, SectorsOf, FileBytes, Overlay, Buffered, Cursor;
      hide Allocator.Valid;
      hide Allocator.Table;
      hide Volume.Valid;
      MoveTo(target, i);
      if target % SS != 0 {
        InCluster(pos, target, i * csize, csize);
        LoadSector((target - pos) / SS, i);
      }
      Place(i);
    }

    // Set the position, and the size with it if that is behind the end.
    method MoveTo(target: nat, ghost i: nat)
      requires Core() && i < |cs| && target <= SS * (i * csize + csize) && target < 0x1_0000_0000
      modifies this`fptr, this`objsize, this`modified
      ensures Core() && fptr == target && old(View()) <= View() && |View()| == Max(old(objsize), target)
      ensures modified <==> old(modified) || target > old(objsize)
    {
      hide DataEnd, FatEnd, Chained, SectorsOf, FileBytes, Overlay, Buffered;
      hide Allocator.Valid;
      hide Allocator.Table;
      hide Volume.Valid;
      SectorsCount(database, csize, cs);
      InChain(i, |cs|, csize);
      fptr := target;
      if fptr > objsize {
        OverlayHolds(alloc.vol.disk, Ss(), dirty, sect, buf[..]);
        FileBytesGrow(Overlay(alloc.vol.disk, dirty, sect, buf[..]), Ss(), objsize, fptr);
        objsize := fptr;
        modified := true;
      }
    }
  }

  lemma FileBytesGrow(disk: Sectors, ss: seq<nat>, m: nat, n: nat)
    requires Holds(disk, ss) && m <= n <= SS * |ss|
    ensures FileBytes(disk, ss, m) <= FileBytes(disk, ss, n)
  {
  }

  lemma InChain(i: nat, n: nat, csize: nat)
    requires i < n
    ensures i * csize + csize <= n * csize
  {
    MulOrder(i + 1, n, csize);
  }

  // Behind the last cluster there is no byte of the file.
  lemma ChainEnd(i: nat, n: nat, csize: nat, objsize: nat, target: nat)
    requires i < n && objsize <= SS * (n * csize) && target - SS * (i * csize) > csize * SS
    ensures i + 1 >= n ==> objsize <= SS * (i * csize) + csize * SS
    ensures target <= objsize ==> i + 1 < n
    ensures SS * (i * csize) + csize * SS == SS * ((i + 1) * csize)
  {
    if i + 1 == n {
      assert n * csize == i * csize + csize;
    }
    assert (i + 1) * csize == i * csize + csize;
  }

  lemma InCluster(pos: nat, target: nat, m: nat, csize: nat)
    requires pos == SS * m && pos < target <= SS * (m + csize) && target % SS != 0
    ensures (target - pos) / SS < csize && target / SS == m + (target - pos) / SS
  {
  }

  lemma CursorCluster(csize: nat, ci: nat, fptr: nat)
    requires csize > 0 && SS * (ci * csize) < fptr <= SS * (ci * csize + csize)
    ensures (fptr - 1) / (csize * SS) == ci
  {
    var bcs, m := csize * SS, ci * csize;
    assert bcs * ci == SS * m by {
      Regroup(ci, csize);
      assert bcs * ci == ci * bcs;
    }
    DivUnique(fptr - 1, bcs, ci, fptr - 1 - SS * m);
  }

  lemma Regroup(i: nat, csize: nat)
    ensures i * (csize * SS) == SS * (i * csize)
  {
  }

  lemma AtLeast(a: nat, b: nat, q: nat)
    requires b > 0 && a / b >= q
    ensures q * b <= a
  {
    MulOrder(q, a / b, b);
    assert a == b * (a / b) + a % b;
    assert b * (a / b) == a / b * b;
  }

  // The disk, with the buffer in place of sector k, shows what `seen` shows.
  ghost predicate Agrees(disk: Sectors, seen: Sectors, ss: seq<nat>, k: nat, buf: seq<byte>, size: nat) {
    && Holds(disk, ss) && Holds(seen, ss) && |buf| == SS && k < |ss|
    && (forall l {:trigger ss[l]} :: 0 <= l < |ss| && l != k ==> seen[ss[l]] == disk[ss[l]])
    && (forall i: nat {:trigger buf[i]} :: i < SS && k * SS + i < size ==> buf[i] == seen[ss[k]][i])
  }

  lemma PartFits(p: nat, n: nat, m: nat)
    requires p / SS < m && p % SS + n <= SS
    ensures p + n <= SS * m
  {
  }

  lemma PartWritten(disk: Sectors, seen: Sectors, ss: seq<nat>, size: nat, p: nat, d: seq<byte>, buf: seq<byte>,
                    buf': seq<byte>)
    requires Agrees(disk, seen, ss, p / SS, buf, size) && p <= size <= SS * |ss| && d != []
    requires p % SS + |d| <= SS && p + |d| <= SS * |ss|
    requires |buf'| == SS
    requires forall i :: 0 <= i < SS ==> buf'[i] == if p % SS <= i < p % SS + |d| then d[i - p % SS] else buf[i]
    ensures Buffered(disk, ss, true, ss[p / SS], buf')
    ensures Holds(seen, ss) && Holds(Overlay(disk, true, ss[p / SS], buf'), ss)
    ensures FileBytes(Overlay(disk, true, ss[p / SS], buf'), ss, Max(size, p + |d|)) ==
              Overwrite(FileBytes(seen, ss, size), p, d)
  {
    hide FileBytes, Overwrite;
    var k, o, disk' := p / SS, p % SS, Overlay(disk, true, ss[p / SS], buf');
    assert buf'[o..o + |d|] == d;
    WriteInSector(seen, disk', ss, size, p, d);
  }

  function Chunks(data: seq<byte>, cc: nat): (r: Sectors)
    requires SS * cc <= |data|
    ensures |r| == cc && ValidSectors(r) && Join(r) == data[..SS * cc]
  {
    var r := seq(cc, i requires 0 <= i < cc => data[SS * i..SS * i + SS]);
    JoinChunks(data, cc, r);
    r
  }

  lemma JoinChunks(data: seq<byte>, cc: nat, r: Sectors)
    requires SS * cc <= |data| && |r| == cc
    requires forall i {:trigger r[i]} :: 0 <= i < cc ==> r[i] == data[SS * i..SS * i + SS]
    ensures ValidSectors(r) && Join(r) == data[..SS * cc]
  {
    var x, y := Join(r), data[..SS * cc];
    forall m: nat | m < |x|
      ensures x[m] == y[m]
    {
      assert r[m / SS][m % SS] == data[SS * (m / SS) + m % SS];
    }
  }

  lemma RunAt(ss: seq<nat>, k: nat, sect0: nat, cc: nat)
    requires k + cc <= |ss| && ss[k..k + cc] == Run(sect0, cc)
    ensures forall j {:trigger ss[j]} :: k <= j < k + cc ==> ss[j] == sect0 + (j - k)
    ensures cc > 0 ==> sect0 in ss
  {
    forall j: nat | k <= j < k + cc
      ensures ss[j] == sect0 + (j - k)
    {
      assert ss[k..k + cc][j - k] == ss[j];
    }
    if cc > 0 {
      assert ss[k] == sect0;
    }
  }

  // The sectors of the run hold the new data, the others and the buffer are
  // as they should be.
  lemma RunWritten(disk: Sectors, disk': Sectors, ss: seq<nat>, k: nat, sect0: nat, cc: nat, data: Sectors,
                   sect: nat, buf: seq<byte>, buf': seq<byte>)
    requires Buffered(disk, ss, false, sect, buf) && k + cc <= |ss| && sect0 + cc <= |disk| && |data| == cc
    requires ValidSectors(data)
    requires forall j {:trigger ss[j]} :: k <= j < k + cc ==> ss[j] == sect0 + (j - k)
    requires disk' == disk[..sect0] + data + disk[sect0 + cc..]
    requires buf' == if sect0 <= sect < sect0 + cc then data[sect - sect0] else buf
    ensures Buffered(disk', ss, false, sect, buf')
    ensures forall j {:trigger ss[j]} :: 0 <= j < |ss| ==>
              disk'[ss[j]] == if k <= j < k + cc then data[j - k] else disk[ss[j]]
  {
    forall j: nat | j < |ss|
      ensures disk'[ss[j]] == if k <= j < k + cc then data[j - k] else disk[ss[j]]
    {
      var m := k + (ss[j] - sect0);
      assert k <= m < k + cc ==> ss[m] == ss[j];
    }
    if sect != 0 {
      var j :| 0 <= j < |ss| && ss[j] == sect;
    }
  }

  lemma Aligned(k: nat)
    ensures SS * k % SS == 0
  {
  }

  lemma RunResult(disk: Sectors, disk': Sectors, ss: seq<nat>, k: nat, sect0: nat, cc: nat, data: Sectors,
                  sect: nat, buf: seq<byte>, buf': seq<byte>, size: nat)
    requires Buffered(disk, ss, false, sect, buf) && k + cc <= |ss| && sect0 + cc <= |disk| && |data| == cc
    requires ValidSectors(data)
    requires forall j {:trigger ss[j]} :: k <= j < k + cc ==> ss[j] == sect0 + (j - k)
    requires disk' == disk[..sect0] + data + disk[sect0 + cc..]
    requires buf' == if sect0 <= sect < sect0 + cc then data[sect - sect0] else buf
    requires SS * k <= size <= SS * |ss|
    ensures Buffered(disk', ss, false, sect, buf') && SS * k + SS * cc <= SS * |ss|
    ensures Holds(Overlay(disk, false, sect, buf), ss) && Holds(Overlay(disk', false, sect, buf'), ss)
    ensures FileBytes(Overlay(disk', false, sect, buf'), ss, Max(size, SS * k + SS * cc))
            == Overwrite(FileBytes(Overlay(disk, false, sect, buf), ss, size), SS * k, Join(data))
  {
    hide FileBytes, Overwrite, Join;
    RunWritten(disk, disk', ss, k, sect0, cc, data, sect, buf, buf');
    WriteSectors(disk, disk', ss, size, k, data);
  }

  // What create_chain did to the chains
  ghost method Grown(e: seq<nat>, chains: set<seq<nat>>, cs: seq<nat>, sclust: nat, c: nat, i: nat, r: nat,
                     e': seq<nat>, eoc: nat)
    returns (cs': seq<nat>, chains': set<seq<nat>>)
    requires Chained(e, chains, cs, sclust) && |e| >= 2 && eoc >= |e|
    requires i <= |cs| && if c == 0 then cs == [] else i > 0 && c == cs[i - 1]
    requires Created(e, c, r, e', eoc)
    ensures Chained(e', chains', cs', if c == 0 && r != 0 then r else sclust) && |e'| == |e|
    ensures r == 0 ==> AllUsed(e') && cs' == cs
    ensures r != 0 ==> i < |cs'| && r == cs'[i]
    ensures i < |cs| ==> r != 0 && cs' == cs
    ensures cs' == cs || (|cs'| == |cs| + 1 && cs <= cs')
  {
    hide Tiling;
    cs', chains' := cs, chains;
    if c != 0 {
      TilingChain(e, chains, cs);
      ChainNonzero(e, cs, c);
      ChainLink(e, cs, i);
    }
    CreateSucceeds(e, chains, c, r, e', eoc);
    if r == 0 {
      return;
    }
    if c == 0 {
      CreateNew(e, chains, r, e', eoc);
      cs', chains' := [r], chains + {[r]};
    } else if i == |cs| {
      CreateStretch(e, chains, cs, r, e', eoc);
      cs', chains' := cs + [r], chains - {cs} + {cs + [r]};
    }
  }

  lemma ChainLink(e: seq<nat>, cs: seq<nat>, i: nat)
    requires Chain(e, cs) && 0 < i <= |cs|
    ensures 2 <= cs[i - 1] < |e| && if i < |cs| then e[cs[i - 1]] == cs[i] && cs[i] < |e| else e[cs[i - 1]] >= |e|
  {
    if i < |cs| {
      assert cs[i] == cs[i - 1 + 1];
    }
  }

  // The bytes of a file stay while its chain grows.
  lemma FileGrown(disk: Sectors, disk': Sectors, e: seq<nat>, chains: set<seq<nat>>, database: nat, csize: nat,
                  cs: seq<nat>, cs': seq<nat>, sclust: nat, dirty: bool, sect: nat, buf: seq<byte>, size: nat)
    requires csize > 0 && database > 0 && |e| >= 2 && DataEnd(database, csize, |e|) <= |disk'|
    requires Buffered(disk, SectorsOf(database, csize, cs), dirty, sect, buf) && ValidSectors(disk')
    requires size <= SS * |SectorsOf(database, csize, cs)|
    requires |disk'| == |disk| && database <= |disk| && disk'[database..] == disk[database..]
    requires forall s {:trigger s in SectorsOf(database, csize, cs)} :: s in SectorsOf(database, csize, cs) ==>
              database <= s
    requires Chained(e, chains, cs', sclust) && (cs' == cs || (|cs'| == |cs| + 1 && cs <= cs'))
    ensures var ss, ss' := SectorsOf(database, csize, cs), SectorsOf(database, csize, cs');
      && Buffered(disk', ss', dirty, sect, buf) && size <= SS * |ss'|
      && Holds(Overlay(disk, dirty, sect, buf), ss) && Holds(Overlay(disk', dirty, sect, buf), ss')
      && FileBytes(Overlay(disk', dirty, sect, buf), ss', size) == FileBytes(Overlay(disk, dirty, sect, buf), ss, size)
  {
    hide DataEnd, Chained, SectorsOf, FileBytes;
    var ss, ss' := SectorsOf(database, csize, cs), SectorsOf(database, csize, cs');
    DataFrame(disk, disk', database, ss, dirty, sect, buf, size);
    ChainPlaced(e, chains, cs', sclust, |disk'|, database, csize);
    PlacedHolds(disk', database, csize, cs');
    if cs' != cs {
      SectorsStretch(database, csize, cs, cs'[|cs|]);
      assert cs' == cs + [cs'[|cs|]];
    } else {
      assert ss'[..|ss|] == ss;
    }
    BytesPrefix(disk', ss, ss', dirty, sect, buf, size);
  }

  lemma BytesPrefix(disk: Sectors, ss: seq<nat>, ss': seq<nat>, dirty: bool, sect: nat, buf: seq<byte>, size: nat)
    requires Buffered(disk, ss, dirty, sect, buf) && Holds(disk, ss') && |ss| <= |ss'| && ss'[..|ss|] == ss
    requires size <= SS * |ss|
    ensures Buffered(disk, ss', dirty, sect, buf)
    ensures Holds(Overlay(disk, dirty, sect, buf), ss) && Holds(Overlay(disk, dirty, sect, buf), ss')
    ensures FileBytes(Overlay(disk, dirty, sect, buf), ss', size) ==
              FileBytes(Overlay(disk, dirty, sect, buf), ss, size)
  {
    forall k | 0 <= k < |ss|
      ensures ss'[k] == ss[k] && ss[k] in ss'
    {
      assert ss'[..|ss|][k] == ss'[k];
    }
    OverlayHolds(disk, ss, dirty, sect, buf);
  }

  // A part of a sector ends in the same sector, or at its end.
  lemma SameSectorPart(p: nat, n: nat, m: nat)
    requires 0 < n && p % SS + n <= SS && p < SS * m
    ensures p + n <= SS * m
    ensures (p + n) % SS != 0 ==> (p + n) / SS == p / SS
  {
  }

  lemma VolumeBounds(vol: Volume)
    requires vol.Valid()
    ensures ValidSectors(vol.disk) && vol.win.Length == SS
  {
  }

  // A run of sectors of the file is a run of sectors of the disk.
  lemma RunInside(disk: Sectors, ss: seq<nat>, dirty: bool, sect: nat, buf: seq<byte>, k: nat, sect0: nat, cc: nat)
    requires Buffered(disk, ss, dirty, sect, buf) && 0 < cc && k + cc <= |ss| && ss[k..k + cc] == Run(sect0, cc)
    ensures sect0 + cc <= |disk|
  {
    assert ss[k..k + cc][cc - 1] == ss[k + cc - 1];
    assert Run(sect0, cc)[cc - 1] == sect0 + cc - 1;
  }

  lemma RunSeen(disk: Sectors, ss: seq<nat>, dirty: bool, sect: nat, buf: seq<byte>, k: nat, sect0: nat, cc: nat,
                sectors: Sectors)
    requires Buffered(disk, ss, dirty, sect, buf) && k + cc <= |ss| && ss[k..k + cc] == Run(sect0, cc)
    requires sect0 + cc <= |disk|
    requires sectors == var s := disk[sect0..sect0 + cc];
               if dirty && sect0 <= sect < sect0 + cc then s[sect - sect0 := buf] else s
    ensures ValidSectors(sectors) && |sectors| == cc
    ensures forall j {:trigger sectors[j]} :: 0 <= j < cc ==>
              0 < ss[k + j] < |disk| && sectors[j] == Overlay(disk, dirty, sect, buf)[ss[k + j]]
  {
    forall j: nat | j < cc
      ensures ss[k + j] == sect0 + j && |sectors[j]| == SS && sectors[j] == Overlay(disk, dirty, sect, buf)[sect0 + j]
    {
      assert ss[k..k + cc][j] == ss[k + j] && Run(sect0, cc)[j] == sect0 + j;
      SectorSeen(disk, dirty, sect, buf, sect0, cc, j);
    }
    hide Overlay, Run;
  }

  // One sector of a run, as the sector buffer shows it
  lemma SectorSeen(disk: Sectors, dirty: bool, sect: nat, buf: seq<byte>, sect0: nat, cc: nat, j: nat)
    requires ValidSectors(disk) && |buf| == SS && (dirty ==> sect < |disk|) && sect0 + cc <= |disk| && j < cc
    ensures var s := disk[sect0..sect0 + cc];
      var seen: Sectors := if dirty && sect0 <= sect < sect0 + cc then s[sect - sect0 := buf] else s;
      |seen[j]| == SS && seen[j] == Overlay(disk, dirty, sect, buf)[sect0 + j]
  {
    var s := disk[sect0..sect0 + cc];
    assert s[j] == disk[sect0 + j];
  }

  lemma ZeroSector(i: nat, csize: nat)
    requires csize > 0 && i * csize == 0
    ensures i == 0
  {
  }

  lemma VolumeSectors(vol: Volume)
    requires vol.Valid()
    ensures ValidSectors(vol.disk)
  {
  }
}
