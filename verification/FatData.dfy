// Where the data of a file lies: the sectors of the clusters of its chain, one
// cluster after the other.

module FatData {
  import opened Bytes
  import opened Bits
  import opened Numbers
  import opened Sequences
  import opened FatVolume

  // The first sector of a cluster
  function ClusterBase(database: nat, csize: nat, c: nat): nat {
    if c < 2 then 0 else database + csize * (c - 2)
  }

  function Run(from: nat, n: nat): (r: seq<nat>)
    ensures |r| == n && forall i: nat :: i < n ==> r[i] == from + i
  {
    seq(n, i => from + i)
  }

  // All sectors of a chain
  function SectorsOf(database: nat, csize: nat, cs: seq<nat>): seq<nat>
    decreases |cs|
  {
    if cs == [] then []
    else
      SectorsOf(database, csize, cs[..|cs| - 1]) + Run(ClusterBase(database, csize, cs[|cs| - 1]), csize)
  }

  lemma {:induction false} SectorsCount(database: nat, csize: nat, cs: seq<nat>)
    ensures |SectorsOf(database, csize, cs)| == |cs| * csize
    decreases |cs|
  {
    if cs != [] {
      SectorsCount(database, csize, cs[..|cs| - 1]);
      Distribute(|cs| - 1, csize);
    }
  }

  lemma Distribute(a: nat, c: nat)
    ensures (a + 1) * c == a * c + c
  {
  }

  lemma {:induction false} SectorsIn(database: nat, csize: nat, cs: seq<nat>, i: nat, j: nat)
    requires i < |cs| && j < csize
    ensures i * csize + j < |cs| * csize == |SectorsOf(database, csize, cs)|
    ensures SectorsOf(database, csize, cs)[i * csize + j] == ClusterBase(database, csize, cs[i]) + j
    decreases |cs|
  {
    hide ClusterBase;
    var front := cs[..|cs| - 1];
    SectorsCount(database, csize, cs);
    SectorsCount(database, csize, front);
    Distribute(i, csize);
    Distribute(|cs| - 1, csize);
    MulOrder(i + 1, |cs|, csize);
    if i < |cs| - 1 {
      MulOrder(i + 1, |cs| - 1, csize);
      SectorsIn(database, csize, front, i, j);
    }
  }

  lemma Split(k: nat, c: nat, n: nat) returns (i: nat, j: nat)
    requires c > 0 && k < n * c
    ensures i < n && j < c && k == i * c + j && i == k / c && j == k % c
  {
    i, j := k / c, k % c;
    assert k == c * i + j;
    if i >= n {
      MulOrder(n, i, c);
    }
  }

  // k-th sector of the file: in which cluster, and where in it
  lemma SectorSplit(database: nat, csize: nat, cs: seq<nat>, k: nat) returns (i: nat, j: nat)
    requires csize > 0 && k < |cs| * csize
    ensures i < |cs| && j < csize && k == i * csize + j && i == k / csize && j == k % csize
    ensures k < |SectorsOf(database, csize, cs)|
    ensures SectorsOf(database, csize, cs)[k] == ClusterBase(database, csize, cs[i]) + j
  {
    hide SectorsOf, ClusterBase;
    i, j := Split(k, csize, |cs|);
    SectorsIn(database, csize, cs, i, j);
  }

  // The end of the data area of a volume with n entries in its FAT
  function DataEnd(database: nat, csize: nat, n: nat): (end: nat)
    requires n >= 2
    ensures database <= end
  {
    MulOrder(0, n - 2, csize);
    database + csize * (n - 2)
  }

  // All clusters of the chain lie on the disk.
  ghost predicate Placed(size: nat, database: nat, csize: nat, cs: seq<nat>) {
    && csize > 0 && database > 0 && NoRepeat(cs)
    && forall i {:trigger cs[i]} :: 0 <= i < |cs| ==> cs[i] >= 2 && ClusterBase(database, csize, cs[i]) + csize <= size
  }

  lemma BaseDistinct(database: nat, csize: nat, c: nat, j: nat, d: nat, l: nat)
    requires csize > 0 && c >= 2 && d >= 2 && j < csize && l < csize
    requires ClusterBase(database, csize, c) + j == ClusterBase(database, csize, d) + l
    ensures c == d && j == l
  {
    var a, b := c - 2, d - 2;
    DivUnique(csize * a + j, csize, a, j);
    DivUnique(csize * b + l, csize, b, l);
  }

  // No two sectors of a file are the same.
  lemma SectorsDistinct(size: nat, database: nat, csize: nat, cs: seq<nat>)
    requires Placed(size, database, csize, cs)
    ensures NoRepeat(SectorsOf(database, csize, cs))
  {
    hide SectorsOf, ClusterBase, Placed;
    var ss := SectorsOf(database, csize, cs);
    SectorsCount(database, csize, cs);
    forall k, l | 0 <= k < l < |ss|
      ensures ss[k] != ss[l]
    {
      TwoSectors(size, database, csize, cs, k, l);
    }
  }

  lemma TwoSectors(size: nat, database: nat, csize: nat, cs: seq<nat>, k: nat, l: nat)
    requires Placed(size, database, csize, cs) && k < l < |cs| * csize
    ensures l < |SectorsOf(database, csize, cs)|
    ensures SectorsOf(database, csize, cs)[k] != SectorsOf(database, csize, cs)[l]
  {
    hide SectorsOf, ClusterBase;
    var i: nat, j: nat := SectorSplit(database, csize, cs, k);
    var i': nat, j': nat := SectorSplit(database, csize, cs, l);
    if ClusterBase(database, csize, cs[i]) + j == ClusterBase(database, csize, cs[i']) + j' {
      BaseDistinct(database, csize, cs[i], j, cs[i'], j');
    }
  }

  lemma SectorsRange(size: nat, database: nat, csize: nat, cs: seq<nat>)
    requires Placed(size, database, csize, cs)
    ensures forall k {:trigger SectorsOf(database, csize, cs)[k]} :: 0 <= k < |SectorsOf(database, csize, cs)| ==>
              database <= SectorsOf(database, csize, cs)[k] < size
  {
    hide SectorsOf;
    SectorsCount(database, csize, cs);
    forall k | 0 <= k < |SectorsOf(database, csize, cs)|
      ensures database <= SectorsOf(database, csize, cs)[k] < size
    {
      var i, j := SectorSplit(database, csize, cs, k);
      BaseAtLeast(database, csize, cs[i]);
    }
  }

  lemma BaseAtLeast(database: nat, csize: nat, c: nat)
    requires c >= 2
    ensures ClusterBase(database, csize, c) >= database
  {
    MulOrder(0, c - 2, csize);
  }

  // ---- The bytes of a file -------------------------------------------------------

  // The sectors ss of the disk hold a file.
  ghost predicate Holds(disk: Sectors, ss: seq<nat>) {
    ValidSectors(disk) && NoRepeat(ss) && forall k {:trigger ss[k]} :: 0 <= k < |ss| ==> 0 < ss[k] < |disk|
  }

  ghost function FileBytes(disk: Sectors, ss: seq<nat>, size: nat): (b: seq<byte>)
    requires Holds(disk, ss) && size <= SS * |ss|
    ensures |b| == size
    ensures forall i: nat {:trigger b[i]} :: i < size ==> b[i] == disk[ss[i / SS]][i % SS]
  {
    seq(size, i requires 0 <= i < size => disk[ss[i / SS]][i % SS])
  }

  // The disk under a dirty sector buffer
  function Overlay(disk: Sectors, dirty: bool, sect: nat, buf: seq<byte>): Sectors {
    if dirty && sect < |disk| then disk[sect := buf] else disk
  }

  // Part of one sector of the file
  lemma BytesOfSector(disk: Sectors, ss: seq<nat>, size: nat, p: nat, n: nat)
    requires Holds(disk, ss) && size <= SS * |ss| && p % SS + n <= SS && p + n <= size && p < size
    ensures p / SS < |ss| && 0 < ss[p / SS] < |disk| && |disk[ss[p / SS]]| == SS
    ensures FileBytes(disk, ss, size)[p..p + n] == disk[ss[p / SS]][p % SS..p % SS + n]
  {
    var k, o := p / SS, p % SS;
    var x, y := FileBytes(disk, ss, size)[p..p + n], disk[ss[k]][o..o + n];
    forall i: nat | i < n
      ensures x[i] == y[i]
    {
      assert (p + i) / SS == k && (p + i) % SS == o + i;
    }
  }

  // Whole sectors of the file
  lemma BytesOfSectors(disk: Sectors, ss: seq<nat>, size: nat, k: nat, sectors: Sectors)
    requires Holds(disk, ss) && size <= SS * |ss| && SS * (k + |sectors|) <= size && ValidSectors(sectors)
    requires forall j {:trigger sectors[j]} :: 0 <= j < |sectors| ==> sectors[j] == disk[ss[k + j]]
    ensures FileBytes(disk, ss, size)[SS * k..SS * (k + |sectors|)] == Join(sectors)
  {
    var x, y := FileBytes(disk, ss, size)[SS * k..SS * (k + |sectors|)], Join(sectors);
    forall i: nat | i < |y|
      ensures x[i] == y[i]
    {
      assert (SS * k + i) / SS == k + i / SS && (SS * k + i) % SS == i % SS;
    }
  }

  // The bytes of a run of sectors
  function Join(sectors: Sectors): (b: seq<byte>)
    requires ValidSectors(sectors)
    ensures |b| == SS * |sectors|
    ensures forall i: nat {:trigger b[i]} :: i < |b| ==> b[i] == sectors[i / SS][i % SS]
  {
    seq(SS * |sectors|, i requires 0 <= i < SS * |sectors| => sectors[i / SS][i % SS])
  }

  // Changing a part of one sector writes over a part of the file; what is in
  // the sector behind the end of the file does not matter.
  lemma WriteInSector(disk: Sectors, disk': Sectors, ss: seq<nat>, size: nat, p: nat, d: seq<byte>)
    requires Holds(disk, ss) && Holds(disk', ss) && size <= SS * |ss| && p <= size && p + |d| <= SS * |ss| && d != []
    requires p % SS + |d| <= SS
    requires forall k {:trigger ss[k]} :: 0 <= k < |ss| && k != p / SS ==> disk'[ss[k]] == disk[ss[k]]
    requires disk'[ss[p / SS]][p % SS..p % SS + |d|] == d
    requires forall i: nat {:trigger disk'[ss[p / SS]][i]} ::
               i < SS && !(p % SS <= i < p % SS + |d|) && p / SS * SS + i < size ==>
                 disk'[ss[p / SS]][i] == disk[ss[p / SS]][i]
    ensures FileBytes(disk', ss, Max(size, p + |d|)) == Overwrite(FileBytes(disk, ss, size), p, d)
  {
    var k, o := p / SS, p % SS;
    var x, y := FileBytes(disk', ss, Max(size, p + |d|)), Overwrite(FileBytes(disk, ss, size), p, d);
    forall i: nat | i < |x|
      ensures x[i] == y[i]
    {
      if p <= i < p + |d| {
        assert i / SS == k && i % SS == o + (i - p);
        assert d[i - p] == disk'[ss[k]][o..o + |d|][i - p];
      } else if i / SS == k {
        assert i == k * SS + i % SS;
      }
    }
  }

  // Changing whole sectors
  lemma WriteSectors(disk: Sectors, disk': Sectors, ss: seq<nat>, size: nat, k: nat, data: Sectors)
    requires Holds(disk, ss) && Holds(disk', ss) && size <= SS * |ss| && SS * k <= size && k + |data| <= |ss|
    requires ValidSectors(data)
    requires forall j {:trigger ss[j]} :: 0 <= j < |ss| ==>
              disk'[ss[j]] == if k <= j < k + |data| then data[j - k] else disk[ss[j]]
    ensures FileBytes(disk', ss, Max(size, SS * (k + |data|))) ==
              Overwrite(FileBytes(disk, ss, size), SS * k, Join(data))
  {
    var x, y :=
      FileBytes(disk', ss, Max(size, SS * (k + |data|))), Overwrite(FileBytes(disk, ss, size), SS * k, Join(data));
    forall i: nat | i < |x|
      ensures x[i] == y[i]
    {
      if SS * k <= i < SS * (k + |data|) {
        assert (i - SS * k) / SS == i / SS - k && (i - SS * k) % SS == i % SS;
      }
    }
  }
}
